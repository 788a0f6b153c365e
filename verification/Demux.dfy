/**
 * The receiving half of an anytls session: recvLoop reads frame after frame
 * and hands each PSH payload to the pipe of its stream.
 *
 * Every stream ever opened has a log of the bytes offered to its pipe.  What
 * the rest of the program does between two rounds of the loop comes in as an
 * environment: streams opened and closed locally, the session closed, replies
 * that fail.  What has happened in a run is a list of events.
 */
module Demux {
  import opened Bytes
  import opened Frames
  import opened Ints
  import opened Seqs
  import opened SessionWriter

  /** The bytes offered to a stream's pipe; open while the stream is in the table. */
  datatype Log = Log(id: uint32, offered: bytes, open: bool)

  datatype State = State(isClient: bool, streams: map<uint32, nat>, logs: seq<Log>, settings: bool, stopped: bool)

  /** What OpenStream, or a stream's Close, does to the table from outside the loop. */
  datatype Local = OpenLocal(id: uint32) | CloseLocal(id: uint32)

  /** What happens before round k of the loop, and whether a reply in that round can be sent. */
  datatype Env = Env(locals: seq<Local>, sessionClosed: bool, writeOk: bool)

  datatype Event = Outside(l: Local) | Received(f: Frame, writeOk: bool)

  /** The stream table and the logs agree on what is open. */
  ghost predicate Agree(st: State) {
    && (forall id :: id in st.streams ==>
          st.streams[id] < |st.logs| && st.logs[st.streams[id]].id == id && st.logs[st.streams[id]].open)
    && (forall j :: 0 <= j < |st.logs| && st.logs[j].open ==>
          st.logs[j].id in st.streams && st.streams[st.logs[j].id] == j)
  }

  /** Stream by stream, closing everything in ids that is open. */
  function CloseIds(st: State, ids: set<uint32>): (st': State)
    ensures |st'.logs| == |st.logs|
  {
    st.(streams := map id | id in st.streams && id !in ids :: st.streams[id],
        logs := seq(|st.logs|, j requires 0 <= j < |st.logs| =>
          if st.logs[j].id in ids then st.logs[j].(open := false) else st.logs[j]))
  }

  /** Session.Close as the loop leaves. */
  function Shut(st: State): State {
    CloseIds(st, st.streams.Keys).(stopped := true)
  }

  /** pipeW.Write on the pipe of log j. */
  function Push(st: State, j: nat, data: bytes): State {
    if j < |st.logs| then st.(logs := st.logs[j := st.logs[j].(offered := st.logs[j].offered + data)]) else st
  }

  function OpenLog(st: State, id: uint32): State {
    st.(streams := st.streams[id := |st.logs|], logs := st.logs + [Log(id, [], true)])
  }

  /** One received frame. */
  function Handle(st: State, f: Frame, writeOk: bool): State {
    if f.cmd == CMD_PSH then
      if f.data != [] && f.sid in st.streams then Push(st, st.streams[f.sid], f.data) else st
    else if f.cmd == CMD_SYN then
      if !st.isClient && !st.settings then st.(stopped := true)
      else if f.sid in st.streams then st else OpenLog(st, f.sid)
    else if f.cmd == CMD_SYNACK then
      if f.data != [] && f.sid in st.streams then CloseIds(st, {f.sid}).(stopped := st.stopped || !writeOk) else st
    else if f.cmd == CMD_FIN then CloseIds(st, {f.sid})
    else if f.cmd == CMD_SETTINGS then
      if f.data != [] && !st.isClient then st.(settings := true, stopped := st.stopped || !writeOk) else st
    else if f.cmd == CMD_ALERT then
      if f.data != [] then st.(stopped := true) else st
    else if f.cmd == CMD_HEART_REQUEST then st.(stopped := st.stopped || !writeOk)
    else st
  }

  /** Registering under an id that is taken puts the new stream in the place of the old one. */
  function Act(st: State, l: Local): State {
    match l
    case OpenLocal(id) => OpenLog(CloseIds(st, {id}), id)
    case CloseLocal(id) => CloseIds(st, {id})
  }

  function ActAll(st: State, ls: seq<Local>): State
    decreases |ls|
  {
    if ls == [] then st else ActAll(Act(st, ls[0]), ls[1..])
  }

  /** The loop on a list of frames: k counts the rounds already done. */
  function Run(st: State, fs: seq<Frame>, k: nat, env: nat -> Env): State
    decreases |fs|
  {
    var st0 := ActAll(st, env(k).locals);
    if st0.stopped || env(k).sessionClosed || fs == [] then Shut(st0)
    else Run(Handle(st0, fs[0], env(k).writeOk), fs[1..], k + 1, env)
  }

  // ---------- events ----------

  function Step(st: State, e: Event): State {
    match e
    case Outside(l) => Act(st, l)
    case Received(f, ok) => Handle(st, f, ok)
  }

  function Play(st: State, es: seq<Event>): State
    decreases |es|
  {
    if es == [] then st else Play(Step(st, es[0]), es[1..])
  }

  function Outsides(ls: seq<Local>): (es: seq<Event>)
    ensures |es| == |ls|
  {
    seq(|ls|, i requires 0 <= i < |ls| => Outside(ls[i]))
  }

  /** The events of a run of the loop, up to where it leaves. */
  function Trace(st: State, fs: seq<Frame>, k: nat, env: nat -> Env): seq<Event>
    decreases |fs|
  {
    var st0 := ActAll(st, env(k).locals);
    if st0.stopped || env(k).sessionClosed || fs == [] then Outsides(env(k).locals)
    else Outsides(env(k).locals) + ([Received(fs[0], env(k).writeOk)]
         + Trace(Handle(st0, fs[0], env(k).writeOk), fs[1..], k + 1, env))
  }

  /** The frames among the events. */
  function FramesOf(es: seq<Event>): seq<Frame> {
    if es == [] then [] else (if es[0].Received? then [es[0].f] else []) + FramesOf(es[1..])
  }

  /** The events without the padding frames. */
  function Unpadded(es: seq<Event>): seq<Event> {
    if es == [] then []
    else (if es[0].Received? && es[0].f.cmd == CMD_WASTE then [] else [es[0]]) + Unpadded(es[1..])
  }

  // ---------- what a stream hears ----------

  predicate EndsStream(f: Frame, sid: uint32) {
    f.sid == sid && (f.cmd == CMD_FIN || (f.cmd == CMD_SYNACK && f.data != []))
  }

  /** A stream leaves the table when it is closed, by either side, or when its id is registered anew. */
  predicate Ends(e: Event, sid: uint32) {
    match e
    case Outside(l) => l.id == sid
    case Received(f, _) => EndsStream(f, sid)
  }

  function PayloadFor(e: Event, sid: uint32): bytes {
    if e.Received? && e.f.cmd == CMD_PSH && e.f.sid == sid then e.f.data else []
  }

  /** The PSH payloads for sid, in order, up to what ends the stream. */
  function Heard(es: seq<Event>, sid: uint32): bytes {
    if es == [] || Ends(es[0], sid) then [] else PayloadFor(es[0], sid) + Heard(es[1..], sid)
  }

  predicate EverEnds(es: seq<Event>, sid: uint32) {
    exists i :: 0 <= i < |es| && Ends(es[i], sid)
  }

  /** The events that open a stream: OpenStream, and a SYN for an unknown id, on a server after the settings. */
  predicate Opens(st: State, e: Event) {
    match e
    case Outside(l) => l.OpenLocal?
    case Received(f, _) => f.cmd == CMD_SYN && (st.isClient || st.settings) && f.sid !in st.streams
  }

  function IdOf(e: Event): uint32 {
    match e
    case Outside(l) => l.id
    case Received(f, _) => f.sid
  }

  lemma CloseIdsAgree(st: State, ids: set<uint32>)
    requires Agree(st)
    ensures Agree(CloseIds(st, ids))
  {}

  lemma PushAgrees(st: State, j: nat, data: bytes)
    requires Agree(st)
    ensures Agree(Push(st, j, data))
  {}

  lemma OpenLogAgrees(st: State, id: uint32)
    requires Agree(st) && id !in st.streams
    ensures Agree(OpenLog(st, id))
  {}

  lemma FlagsAgree(st: State, settings: bool, stopped: bool)
    requires Agree(st)
    ensures Agree(st.(settings := settings, stopped := stopped))
  {}

  lemma HandleAgrees(st: State, f: Frame, writeOk: bool)
    requires Agree(st)
    ensures Agree(Handle(st, f, writeOk))
  {
    hide Push, OpenLog, CloseIds, Agree;
    var halted := st.stopped || !writeOk;
    CloseIdsAgree(st, {f.sid});
    FlagsAgree(CloseIds(st, {f.sid}), CloseIds(st, {f.sid}).settings, halted);
    FlagsAgree(st, st.settings, true);
    FlagsAgree(st, st.settings, halted);
    FlagsAgree(st, true, halted);
    if f.sid in st.streams {
      PushAgrees(st, st.streams[f.sid], f.data);
    } else {
      OpenLogAgrees(st, f.sid);
    }
  }

  lemma CloseIdsLog(st: State, ids: set<uint32>, j: nat)
    requires j < |st.logs|
    ensures var l, l' := st.logs[j], CloseIds(st, ids).logs[j];
      l'.id == l.id && l'.offered == l.offered && (l'.open <==> l.open && l.id !in ids)
  {}

  /** The log a stream id leads to is the open one with that id. */
  lemma AgreeAt(st: State, j: nat)
    requires Agree(st) && j < |st.logs| && st.logs[j].open
    ensures st.logs[j].id in st.streams && st.streams[st.logs[j].id] == j
  {}

  lemma AgreeId(st: State, id: uint32)
    requires Agree(st) && id in st.streams
    ensures st.streams[id] < |st.logs| && st.logs[st.streams[id]].id == id && st.logs[st.streams[id]].open
  {}

  /** What one frame does to one log. */
  lemma HandleLog(st: State, f: Frame, writeOk: bool, j: nat)
    requires Agree(st) && j < |st.logs|
    ensures j < |Handle(st, f, writeOk).logs|
    ensures var l, l' := st.logs[j], Handle(st, f, writeOk).logs[j];
      && l'.id == l.id && (l'.open <==> l.open && !EndsStream(f, l.id))
      && l'.offered == l.offered + if l.open && f.cmd == CMD_PSH && f.sid == l.id then f.data else []
  {
    hide Agree, CloseIds;
    CloseIdsLog(st, {f.sid}, j);
    if st.logs[j].open {
      AgreeAt(st, j);
    }
    if f.sid in st.streams {
      AgreeId(st, f.sid);
    }
  }

  lemma ActAgrees(st: State, l: Local)
    requires Agree(st)
    ensures Agree(Act(st, l))
  {
    hide OpenLog, Agree;
    CloseIdsAgree(st, {l.id});
    if l.OpenLocal? {
      OpenLogAgrees(CloseIds(st, {l.id}), l.id);
    }
  }

  lemma StepAgrees(st: State, e: Event)
    requires Agree(st)
    ensures Agree(Step(st, e))
  {
    hide Agree, Act, Handle;
    match e
    case Outside(l) => ActAgrees(st, l);
    case Received(f, ok) => HandleAgrees(st, f, ok);
  }

  lemma {:induction false} PlayAgrees(st: State, es: seq<Event>)
    requires Agree(st)
    ensures Agree(Play(st, es))
    decreases |es|
  {
    hide Agree, Step;
    if es != [] {
      StepAgrees(st, es[0]);
      PlayAgrees(Step(st, es[0]), es[1..]);
    }
  }

  /** What one event does to one log. */
  lemma StepLog(st: State, e: Event, j: nat)
    requires Agree(st) && j < |st.logs|
    ensures j < |Step(st, e).logs|
    ensures var l, l' := st.logs[j], Step(st, e).logs[j];
      && l'.id == l.id && (l'.open <==> l.open && !Ends(e, l.id))
      && l'.offered == l.offered + if l.open then PayloadFor(e, l.id) else []
  {
    hide Agree, Handle, CloseIds;
    match e
    case Outside(l) => CloseIdsLog(st, {l.id}, j);
    case Received(f, ok) => HandleLog(st, f, ok, j);
  }

  /** An event opens at most one stream, which starts in the table and with nothing. */
  lemma OpenedSilent(st: State, e: Event)
    requires Agree(st)
    ensures |Step(st, e).logs| == |st.logs| + if Opens(st, e) then 1 else 0
    ensures Opens(st, e) ==> Step(st, e).logs[|st.logs|] == Log(IdOf(e), [], true)
  {}

  /** Over any run of events, a stream hears exactly the payloads sent to it while it is in the table. */
  lemma {:induction false} StreamHears(st: State, es: seq<Event>, j: nat)
    requires Agree(st) && j < |st.logs|
    ensures j < |Play(st, es).logs|
    ensures var l, l' := st.logs[j], Play(st, es).logs[j];
      && l'.id == l.id && l'.offered == l.offered + (if l.open then Heard(es, l.id) else [])
      && (l'.open <==> l.open && !EverEnds(es, l.id))
    decreases |es|
  {
    hide Agree, Step, Ends, PayloadFor;
    if es != [] {
      StepAgrees(st, es[0]);
      StepLog(st, es[0], j);
      StreamHears(Step(st, es[0]), es[1..], j);
      var l := st.logs[j];
      EverEndsStep(es, l.id);
      EndsSilent(es[0], l.id);
      Associate(l.offered, PayloadFor(es[0], l.id), Heard(es[1..], l.id));
      assert l.offered + [] == l.offered;
    }
  }

  lemma EndsSilent(e: Event, sid: uint32)
    ensures Ends(e, sid) ==> PayloadFor(e, sid) == []
  {}

  lemma EverEndsStep(es: seq<Event>, sid: uint32)
    requires es != []
    ensures EverEnds(es, sid) <==> Ends(es[0], sid) || EverEnds(es[1..], sid)
  {
    hide Ends;
    if EverEnds(es[1..], sid) {
      var i :| 0 <= i < |es[1..]| && Ends(es[1..][i], sid);
      assert Ends(es[i + 1], sid);
    }
    if EverEnds(es, sid) && !Ends(es[0], sid) {
      var i :| 0 <= i < |es| && Ends(es[i], sid);
      assert Ends(es[1..][i - 1], sid);
    }
  }

  lemma {:induction false} PlaySplit(st: State, es: seq<Event>, fs: seq<Event>)
    ensures Play(st, es + fs) == Play(Play(st, es), fs)
    decreases |es|
  {
    hide Step;
    if es == [] {
      assert es + fs == fs;
    } else {
      assert (es + fs)[1..] == es[1..] + fs;
      PlaySplit(Step(st, es[0]), es[1..], fs);
    }
  }

  lemma PlayAt(st: State, es: seq<Event>, p: nat)
    requires p < |es|
    ensures Play(st, es) == Play(Step(Play(st, es[..p]), es[p]), es[p + 1..])
  {
    hide Step;
    PlaySplit(st, es[..p], es[p..]);
    assert es == es[..p] + es[p..] && es[p..][1..] == es[p + 1..];
  }

  /** Every event that opens a stream gives it a log of its own, with what the stream hears from then on. */
  lemma OpenedHears(st: State, es: seq<Event>, p: nat)
    requires Agree(st) && p < |es| && Opens(Play(st, es[..p]), es[p])
    ensures var j, end := |Play(st, es[..p]).logs|, Play(st, es);
      && j < |end.logs| && end.logs[j].id == IdOf(es[p]) && end.logs[j].offered == Heard(es[p + 1..], IdOf(es[p]))
  {
    hide Agree, Step, Opens, Heard;
    var before := Play(st, es[..p]);
    PlayAgrees(st, es[..p]);
    OpenedSilent(before, es[p]);
    StepAgrees(before, es[p]);
    PlayAt(st, es, p);
    StreamHears(Step(before, es[p]), es[p + 1..], |before.logs|);
  }

  /** Where a log that was not there at the start was opened. */
  ghost predicate BornAt(st: State, es: seq<Event>, j: nat, p: nat) {
    p < |es| && |Play(st, es[..p]).logs| == j && Opens(Play(st, es[..p]), es[p])
  }

  /** Every stream there is was there at the start, or opened by one of the events. */
  lemma {:induction false} EveryLogIsBorn(st: State, es: seq<Event>, j: nat) returns (p: nat)
    requires Agree(st) && |st.logs| <= j < |Play(st, es).logs|
    ensures BornAt(st, es, j, p)
    decreases |es|
  {
    hide Agree, Step, Opens;
    var st1 := Step(st, es[0]);
    OpenedSilent(st, es[0]);
    StepAgrees(st, es[0]);
    if j < |st1.logs| {
      p := 0;
      assert es[..0] == [];
    } else {
      var q := EveryLogIsBorn(st1, es[1..], j);
      p := q + 1;
      assert es[..p][1..] == es[1..][..q];
    }
  }

  /** A log whose stream was opened by event p, and has heard what came for it from there on. */
  ghost predicate HeardSince(st: State, es: seq<Event>, j: nat, l: Log, p: nat) {
    BornAt(st, es, j, p) && l.id == IdOf(es[p]) && l.offered == Heard(es[p + 1..], l.id)
  }

  /**
   * Log j after a run: if it was there at the start, its stream has heard what
   * came for it until it ended; else an event opened it.
   */
  ghost predicate HeardItsOwn(st: State, es: seq<Event>, j: nat, l: Log) {
    if j < |st.logs| then
      && l.id == st.logs[j].id
      && l.offered == st.logs[j].offered + (if st.logs[j].open then Heard(es, l.id) else [])
    else exists p: nat :: HeardSince(st, es, j, l, p)
  }

  /** Every stream after a run of events and the shutdown behind it has heard exactly its own. */
  lemma PlayHeard(st: State, es: seq<Event>, j: nat)
    requires Agree(st) && j < |Play(st, es).logs|
    ensures HeardItsOwn(st, es, j, Shut(Play(st, es)).logs[j])
  {
    hide Agree, Step, Opens, Heard, CloseIds, Play;
    var end := Play(st, es);
    CloseIdsLog(end, end.streams.Keys, j);
    if j < |st.logs| {
      StreamHears(st, es, j);
    } else {
      var p := EveryLogIsBorn(st, es, j);
      OpenedHears(st, es, p);
      assert HeardSince(st, es, j, Shut(end).logs[j], p);
    }
  }

  lemma LogsGrow(st: State, es: seq<Event>)
    requires Agree(st)
    ensures |st.logs| <= |Play(st, es).logs|
  {
    hide Agree, Play;
    if st.logs != [] {
      StreamHears(st, es, |st.logs| - 1);
    }
  }

  // ---------- the loop as a list of events ----------

  lemma {:induction false} OutsidesPlayed(st: State, ls: seq<Local>)
    ensures Play(st, Outsides(ls)) == ActAll(st, ls)
    ensures FramesOf(Outsides(ls)) == []
    decreases |ls|
  {
    hide Act;
    if ls != [] {
      assert Outsides(ls)[1..] == Outsides(ls[1..]);
      OutsidesPlayed(Act(st, ls[0]), ls[1..]);
    }
  }

  lemma {:induction false} FramesOfSplit(es: seq<Event>, fs: seq<Event>)
    ensures FramesOf(es + fs) == FramesOf(es) + FramesOf(fs)
  {
    if es == [] {
      assert es + fs == fs;
    } else {
      assert (es + fs)[1..] == es[1..] + fs;
      FramesOfSplit(es[1..], fs);
      Associate(if es[0].Received? then [es[0].f] else [], FramesOf(es[1..]), FramesOf(fs));
    }
  }

  /**
   * The loop plays its events and shuts down.  It takes the frames in order,
   * and leaves before the last one only when the session has ended.
   */
  lemma {:induction false} RunIsPlay(st: State, fs: seq<Frame>, k: nat, env: nat -> Env)
    ensures var es := Trace(st, fs, k, env);
      && Run(st, fs, k, env) == Shut(Play(st, es))
      && FramesOf(es) <= fs
      && (FramesOf(es) == fs || Play(st, es).stopped || env(k + |FramesOf(es)|).sessionClosed)
    decreases |fs|
  {
    hide Handle, Act, ActAll, Shut, Outsides;
    var ls := env(k).locals;
    var st0 := ActAll(st, ls);
    OutsidesPlayed(st, ls);
    if !(st0.stopped || env(k).sessionClosed || fs == []) {
      var st1 := Handle(st0, fs[0], env(k).writeOk);
      var rest := Trace(st1, fs[1..], k + 1, env);
      RunIsPlay(st1, fs[1..], k + 1, env);
      var e := [Received(fs[0], env(k).writeOk)];
      PlaySplit(st, Outsides(ls), e + rest);
      FramesOfSplit(Outsides(ls), e + rest);
      ReceivedFirst(st0, fs[0], env(k).writeOk, rest);
      assert fs == [fs[0]] + fs[1..];
    }
  }

  lemma ReceivedFirst(st: State, f: Frame, ok: bool, rest: seq<Event>)
    ensures Play(st, [Received(f, ok)] + rest) == Play(Handle(st, f, ok), rest)
    ensures FramesOf([Received(f, ok)] + rest) == [f] + FramesOf(rest)
  {
    hide Handle;
    assert ([Received(f, ok)] + rest)[1..] == rest;
  }

  // ---------- from bytes to frames ----------

  /** recvLoop on a byte stream that ends after w. */
  ghost function RunBytes(st: State, w: bytes, k: nat, env: nat -> Env): State
    decreases |w|
  {
    var st0 := ActAll(st, env(k).locals);
    if st0.stopped || env(k).sessionClosed || ParseOne(w).Short? then Shut(st0)
    else
      var p := ParseOne(w);
      RunBytes(Handle(st0, p.frame, env(k).writeOk), p.rest, k + 1, env)
  }

  /** The loop stays on frame boundaries: it does to the bytes what Run does to their frames. */
  lemma {:induction false} RunBytesIsRun(st: State, w: bytes, k: nat, env: nat -> Env)
    ensures RunBytes(st, w, k, env) == Run(st, Parse(w), k, env)
    decreases |w|
  {
    hide Handle, ActAll, ParseOne, Shut;
    var st0 := ActAll(st, env(k).locals);
    var p := ParseOne(w);
    if p.Got? {
      assert Parse(w)[0] == p.frame && Parse(w)[1..] == Parse(p.rest);
      RunBytesIsRun(Handle(st0, p.frame, env(k).writeOk), p.rest, k + 1, env);
    }
  }

  // ---------- the loop ----------

  class Receiver {
    const isClient: bool
    var streams: map<uint32, nat>
    var logs: seq<Log>
    var receivedSettings: bool
    var closed: bool

    constructor (isClient: bool)
      ensures Now() == State(isClient, map[], [], false, false) && Agree(Now())
    {
      this.isClient, streams, logs, receivedSettings, closed := isClient, map[], [], false, false;
    }

    function Now(): State
      reads this
    {
      State(isClient, streams, logs, receivedSettings, closed)
    }

    method CloseStreams(ids: set<uint32>)
      modifies this`streams, this`logs
      ensures Now() == CloseIds(old(Now()), ids)
    {
      var st := CloseIds(Now(), ids);
      streams, logs := st.streams, st.logs;
    }

    /** What the rest of the program does to the table: OpenStream registers, a closed stream is deleted. */
    method ApplyLocals(ls: seq<Local>)
      requires Agree(Now())
      modifies this`streams, this`logs
      ensures Now() == ActAll(old(Now()), ls) && Agree(Now())
    {
      hide CloseIds, Agree;
      assert ls[0..] == ls;
      for i := 0 to |ls|
        invariant ActAll(Now(), ls[i..]) == ActAll(old(Now()), ls) && Agree(Now())
      {
        assert ls[i..][1..] == ls[i + 1..];
        ActAgrees(Now(), ls[i]);
        CloseStreams({ls[i].id});
        if ls[i].OpenLocal? {
          streams := streams[ls[i].id := |logs|];
          logs := logs + [Log(ls[i].id, [], true)];
        }
      }
    }

    /** The switch of recvLoop, once the frame has been read. */
    method Receive(f: Frame, writeOk: bool)
      requires Agree(Now())
      modifies this
      ensures Now() == Handle(old(Now()), f, writeOk)
    {
      hide CloseIds;
      match f.cmd
      case 2 =>  // PSH
        if |f.data| > 0 && f.sid in streams {
          var j := streams[f.sid];
          logs := logs[j := logs[j].(offered := logs[j].offered + f.data)];
        }
      case 1 =>  // SYN
        if !isClient && !receivedSettings {
          closed := true;
        } else if f.sid !in streams {
          streams := streams[f.sid := |logs|];
          logs := logs + [Log(f.sid, [], true)];
        }
      case 7 =>  // SYNACK
        if |f.data| > 0 && f.sid in streams {
          CloseStreams({f.sid});
          closed := closed || !writeOk;
        }
      case 3 =>  // FIN
        CloseStreams({f.sid});
      case 4 =>  // settings from the client
        if |f.data| > 0 && !isClient {
          receivedSettings := true;
          closed := closed || !writeOk;
        }
      case 5 =>  // alert
        if |f.data| > 0 {
          closed := true;
        }
      case 8 =>  // heart request
        closed := closed || !writeOk;
      case _ =>  // waste, padding scheme, server settings, heart response, unknown
    }

    method RecvLoop(input: bytes, env: nat -> Env)
      requires Agree(Now())
      modifies this
      ensures Now() == RunBytes(old(Now()), input, 0, env) && Agree(Now()) && closed
      ensures streams == map[] && forall l :: l in logs ==> !l.open
    {
      hide Handle, ActAll, CloseIds, Agree;
      ghost var start := Now();
      var conn := input;
      var k := 0;
      while true
        invariant Agree(Now()) && RunBytes(Now(), conn, k, env) == RunBytes(start, input, 0, env)
        decreases |conn|
      {
        ApplyLocals(env(k).locals);
        if closed || env(k).sessionClosed || |conn| < HEADER {
          break;
        }
        var cmd, sid := conn[0], U32BE(conn[1..]);
        var length := if HasBody(cmd) then U16BE(conn[5..]) else 0;
        if |conn| < HEADER + length {
          break;
        }
        var f := Frame(cmd, sid, conn[HEADER..HEADER + length]);
        HandleAgrees(Now(), f, env(k).writeOk);
        Receive(f, env(k).writeOk);
        conn := conn[HEADER + length..];
        k := k + 1;
      }
      Leave();
    }

    /** Session.Close as the loop leaves. */
    method Leave()
      requires Agree(Now())
      modifies this
      ensures Now() == Shut(old(Now())) && Agree(Now()) && closed
      ensures streams == map[] && forall l :: l in logs ==> !l.open
    {
      hide CloseIds, Agree;
      ShutClosesAll(Now());
      CloseStreams(streams.Keys);
      closed := true;
    }
  }

  lemma AllUnlisted(st: State)
    ensures CloseIds(st, st.streams.Keys).streams == map[]
  {}

  lemma NoneListed(st: State)
    requires Agree(st) && st.streams == map[]
    ensures forall l :: l in st.logs ==> !l.open
  {}

  /** After the shutdown behind a run of events no stream is listed, and none is open. */
  lemma ShutClosesAll(st: State)
    requires Agree(st)
    ensures Agree(Shut(st)) && Shut(st).stopped && Shut(st).streams == map[]
    ensures forall l :: l in Shut(st).logs ==> !l.open
  {
    hide CloseIds, Agree;
    CloseIdsAgree(st, st.streams.Keys);
    AllUnlisted(st);
    AgreeStopped(CloseIds(st, st.streams.Keys));
    NoneListed(Shut(st));
  }

  lemma AgreeStopped(st: State)
    requires Agree(st)
    ensures Agree(st.(stopped := true))
  {}

  // ---------- sender and receiver together ----------

  lemma WasteHandled(st: State, f: Frame, ok: bool)
    requires f.cmd == CMD_WASTE
    ensures Handle(st, f, ok) == st
  {}

  /** Padding frames leave no trace in the receiver, whatever else happens. */
  lemma {:induction false} WasteIsInvisible(st: State, es: seq<Event>)
    ensures Play(st, es) == Play(st, Unpadded(es))
    ensures FramesOf(Unpadded(es)) == Payload(FramesOf(es))
    decreases |es|
  {
    hide Handle, Act, Payload;
    PayloadHead(FramesOf(es));
    if es != [] {
      var rest := Unpadded(es[1..]);
      WasteIsInvisible(Step(st, es[0]), es[1..]);
      if es[0].Received? {
        WasteOrNot(es[0].f, FramesOf(es[1..]));
      }
      if es[0].Received? && es[0].f.cmd == CMD_WASTE {
        WasteHandled(st, es[0].f, es[0].writeOk);
        assert Unpadded(es) == rest;
      } else {
        assert Unpadded(es) == [es[0]] + rest && Unpadded(es)[1..] == rest;
        assert [] + FramesOf(rest) == FramesOf(rest) && [] + FramesOf(es[1..]) == FramesOf(es[1..]);
      }
    }
  }

  lemma WasteOrNot(f: Frame, fs: seq<Frame>)
    ensures Payload([f] + fs) == (if f.cmd == CMD_WASTE then [] else [f]) + Payload(fs)
  {
    PayloadHead([f] + fs);
    assert ([f] + fs)[1..] == fs;
  }

  lemma PayloadHead(fs: seq<Frame>)
    ensures fs == [] ==> Payload(fs) == []
    ensures fs != [] ==> Payload(fs) == (if fs[0].cmd == CMD_WASTE then [] else [fs[0]]) + Payload(fs[1..])
  {
    if fs != [] {
      PayloadAppend([fs[0]], fs[1..]);
      assert [fs[0]] + fs[1..] == fs;
    }
  }

  lemma PayloadPrefix(fs: seq<Frame>, gs: seq<Frame>)
    requires fs <= gs
    ensures Payload(fs) <= Payload(gs)
  {
    PayloadAppend(fs, gs[|fs|..]);
    assert gs == fs + gs[|fs|..];
  }

  /** A wire is read back whole exactly when every frame on it is sound. */
  lemma ParsesBack(fs: seq<Frame>)
    ensures Parse(EncodeAll(fs)) == fs && Leftover(EncodeAll(fs)) == [] <==> AllSound(fs)
  {
    hide EncodeAll;
    if AllSound(fs) {
      ParseEncodeAll(fs, []);
      assert EncodeAll(fs) + [] == EncodeAll(fs);
    }
    ParsedAreSound(EncodeAll(fs));
  }

  lemma {:induction false} ParsedAreSound(w: bytes)
    ensures AllSound(Parse(w))
    decreases |w|
  {
    hide Sound;
    if ParseOne(w).Got? {
      ParsedIsSound(w);
      ParsedAreSound(ParseOne(w).rest);
    }
  }

  lemma ParsedIsSound(w: bytes)
    ensures ParseOne(w).Got? ==> Sound(ParseOne(w).frame)
  {}

  /** A wire that was cut anywhere parses into the frames that are whole, from the first on. */
  lemma {:induction false} ParseCut(fs: seq<Frame>, wire: bytes)
    requires AllSound(fs) && wire <= EncodeAll(fs)
    ensures Parse(wire) <= fs
    decreases |fs|
  {
    hide Sound, Encode, EncodeAll, Parse, ParseOne, Leftover;
    if fs == [] {
      EncodeAllOfNone();
      NothingParsed();
    } else {
      EncodeAllHead(fs);
      PrefixSplit(wire, Encode(fs[0]), EncodeAll(fs[1..]));
      if Encode(fs[0]) <= wire {
        var rest := wire[|Encode(fs[0])|..];
        assert wire == Encode(fs[0]) + rest;
        ParseStep(fs[0], rest);
        ParseCut(fs[1..], rest);
        assert fs == [fs[0]] + fs[1..];
      } else {
        CutFrame(fs[0], wire);
      }
    }
  }

  lemma EncodeAllOfNone()
    ensures EncodeAll([]) == []
  {}

  lemma NothingParsed()
    ensures Parse([]) == []
  {}

  lemma CutFrame(f: Frame, wire: bytes)
    requires Sound(f) && wire < Encode(f)
    ensures Parse(wire) == []
  {
    hide U16BE, PutU16BE, PutU32BE;
    var n := |f.data|;
    HeaderFields(f.cmd, f.sid, n % TWO_16, f.data);
    if |wire| >= HEADER {
      assert wire == Encode(f)[..|wire|];
      assert wire[5..7] == Encode(f)[5..7];
      LengthAt(wire, Encode(f));
    }
  }

  lemma LengthAt(v: bytes, w: bytes)
    requires |v| >= HEADER && |w| >= HEADER && v[5..7] == w[5..7]
    ensures U16BE(v[5..]) == U16BE(w[5..])
  {
    assert v[5] == v[5..7][0] && v[6] == v[5..7][1] && w[5] == w[5..7][0] && w[6] == w[5..7][1];
  }

  /**
   * End to end.  However the wire is cut and whatever happens around the loop,
   * the frames it acts on, padding aside, are the first of those submitted to
   * the writer, in order; and every stream has heard exactly what they bring
   * it, from the event that opened it to the one that ended it.
   */
  lemma EndToEnd(w: Writer, wire: bytes, st: State, env: nat -> Env, j: nat)
    requires (w.Valid() || w.Broken()) && AllSound(w.onWire) && wire <= EncodeAll(w.onWire) && Agree(st)
    ensures var es := Unpadded(Trace(st, Parse(wire), 0, env));
      && FramesOf(es) <= w.submitted
      && |st.logs| <= |RunBytes(st, wire, 0, env).logs|
      && (j < |RunBytes(st, wire, 0, env).logs| ==> HeardItsOwn(st, es, j, RunBytes(st, wire, 0, env).logs[j]))
  {
    hide Run, RunBytes, Agree, Payload, Encode, EncodeAll, ParseOne, Sound, Trace, Play, CloseIds, HeardItsOwn;
    var all := Trace(st, Parse(wire), 0, env);
    RunBytesIsRun(st, wire, 0, env);
    RunIsPlay(st, Parse(wire), 0, env);
    ParseCut(w.onWire, wire);
    WasteIsInvisible(st, all);
    PayloadPrefix(FramesOf(all), w.onWire);
    LogsGrow(st, all);
    if j < |Play(st, all).logs| {
      PlayHeard(st, Unpadded(all), j);
    }
  }

  /** When all of a healthy writer's wire arrives and the session does not end early, nothing flushed is missing. */
  lemma AllArrives(w: Writer, st: State, env: nat -> Env)
    requires w.Valid() && AllSound(w.onWire) && Agree(st)
    ensures var es := Trace(st, Parse(w.conn.sent), 0, env);
      && (FramesOf(Unpadded(es)) + w.pending == w.submitted
          || Play(st, es).stopped || env(|FramesOf(es)|).sessionClosed)
  {
    hide Run, Agree, Payload, Encode, EncodeAll, ParseOne, Sound, Trace, Play, Shut;
    ParsesBack(w.onWire);
    RunIsPlay(st, w.onWire, 0, env);
    WasteIsInvisible(st, Trace(st, w.onWire, 0, env));
  }
}
