/**
 * When a session may open streams, which ids it lists, and what ends it: all
 * three read off the events alone, whatever state the receiving loop is in.
 */
module DemuxFlags {
  import opened Demux
  import opened Frames
  import opened Ints

  predicate BringsSettings(e: Event) {
    e.Received? && e.f.cmd == CMD_SETTINGS && e.f.data != []
  }

  predicate SettingsCame(es: seq<Event>) {
    exists i :: 0 <= i < |es| && BringsSettings(es[i])
  }

  /** A server opens streams once the client's settings are there; a client needs none. */
  predicate MayOpen(st: State, es: seq<Event>) {
    st.isClient || st.settings || SettingsCame(es)
  }

  predicate IsSyn(e: Event, id: uint32) {
    e.Received? && e.f.cmd == CMD_SYN && e.f.sid == id
  }

  /** The last event about an id decides whether it is listed. */
  predicate Listed(st: State, es: seq<Event>, id: uint32)
    decreases |es|
  {
    if es == [] then id in st.streams
    else
      var n := |es| - 1;
      if es[n] == Outside(OpenLocal(id)) || (IsSyn(es[n], id) && MayOpen(st, es[..n])) then true
      else !Ends(es[n], id) && Listed(st, es[..n], id)
  }

  /** Does event p open a stream, going by the events before it? */
  predicate OpensAt(st: State, es: seq<Event>, p: nat)
    requires p < |es|
  {
    match es[p]
    case Outside(l) => l.OpenLocal?
    case Received(f, _) => f.cmd == CMD_SYN && MayOpen(st, es[..p]) && !Listed(st, es[..p], f.sid)
  }

  /** The frames that are answered: a reply that fails ends the session. */
  predicate Answered(st: State, es: seq<Event>, f: Frame) {
    || f.cmd == CMD_HEART_REQUEST
    || (f.cmd == CMD_SETTINGS && f.data != [] && !st.isClient)
    || (f.cmd == CMD_SYNACK && f.data != [] && Listed(st, es, f.sid))
  }

  /** Does event p end the session, going by the events before it? */
  predicate StopsAt(st: State, es: seq<Event>, p: nat)
    requires p < |es|
  {
    && es[p].Received?
    && var f := es[p].f;
       || (f.cmd == CMD_SYN && !MayOpen(st, es[..p]))
       || (f.cmd == CMD_ALERT && f.data != [])
       || (!es[p].writeOk && Answered(st, es[..p], f))
  }

  lemma SettingsCameLast(es: seq<Event>)
    requires es != []
    ensures SettingsCame(es) <==> SettingsCame(es[..|es| - 1]) || BringsSettings(es[|es| - 1])
  {
    hide BringsSettings;
    var n := |es| - 1;
    if SettingsCame(es[..n]) {
      var i :| 0 <= i < n && BringsSettings(es[..n][i]);
      assert BringsSettings(es[i]);
    }
    if SettingsCame(es) && !BringsSettings(es[n]) {
      var i :| 0 <= i < |es| && BringsSettings(es[i]);
      assert BringsSettings(es[..n][i]);
    }
  }

  lemma PlayLast(st: State, es: seq<Event>)
    requires es != []
    ensures Play(st, es) == Step(Play(st, es[..|es| - 1]), es[|es| - 1])
  {
    hide Step;
    var n := |es| - 1;
    PlayAt(st, es, n);
    assert es[n + 1..] == [];
  }

  lemma StepFlags(st: State, e: Event)
    ensures Step(st, e).isClient == st.isClient
    ensures Step(st, e).settings <==> st.settings || (!st.isClient && BringsSettings(e))
  {}

  /** The settings flag is up exactly when it was at the start, or when a server got settings since. */
  lemma {:induction false} SettingsExactly(st: State, es: seq<Event>)
    ensures Play(st, es).isClient == st.isClient
    ensures Play(st, es).settings <==> st.settings || (!st.isClient && SettingsCame(es))
    decreases |es|
  {
    hide Step, SettingsCame, BringsSettings;
    if es == [] {
      assert !SettingsCame([]) by { NoSettings(); }
    } else {
      var n := |es| - 1;
      SettingsExactly(st, es[..n]);
      PlayLast(st, es);
      StepFlags(Play(st, es[..n]), es[n]);
      SettingsCameLast(es);
    }
  }

  lemma NoSettings()
    ensures !SettingsCame([])
  {}

  lemma StepLists(st: State, e: Event, id: uint32)
    ensures id in Step(st, e).streams <==>
      || e == Outside(OpenLocal(id))
      || (IsSyn(e, id) && (st.isClient || st.settings))
      || (!Ends(e, id) && id in st.streams)
  {
    hide Push;
    if e.Received? && e.f.sid in st.streams {
      PushKeepsTable(st, st.streams[e.f.sid], e.f.data);
    }
  }

  lemma PushKeepsTable(st: State, j: nat, data: seq<byte>)
    ensures Push(st, j, data).streams == st.streams
  {}

  /** After any run of events the table holds exactly the ids that the events say are listed. */
  lemma {:induction false} ListedExactly(st: State, es: seq<Event>, id: uint32)
    ensures id in Play(st, es).streams <==> Listed(st, es, id)
    decreases |es|
  {
    hide Step, SettingsCame, Ends, IsSyn;
    if es != [] {
      var n := |es| - 1;
      ListedExactly(st, es[..n], id);
      SettingsExactly(st, es[..n]);
      PlayLast(st, es);
      StepLists(Play(st, es[..n]), es[n], id);
    }
  }

  /** A received SYN, or a local open, opens a stream exactly when the events before it allow it. */
  lemma OpensExactly(st: State, es: seq<Event>, p: nat)
    requires p < |es|
    ensures Opens(Play(st, es[..p]), es[p]) <==> OpensAt(st, es, p)
  {
    hide Step, SettingsCame, Listed, Play;
    SettingsExactly(st, es[..p]);
    if es[p].Received? {
      ListedExactly(st, es[..p], es[p].f.sid);
    }
  }

  lemma StepStops(st: State, e: Event)
    ensures Step(st, e).stopped <==> st.stopped || (e.Received? && StoppedBy(st, e.f, e.writeOk))
  {}

  predicate StoppedBy(st: State, f: Frame, writeOk: bool) {
    || (f.cmd == CMD_SYN && !st.isClient && !st.settings)
    || (f.cmd == CMD_ALERT && f.data != [])
    || (!writeOk && (
         || f.cmd == CMD_HEART_REQUEST
         || (f.cmd == CMD_SETTINGS && f.data != [] && !st.isClient)
         || (f.cmd == CMD_SYNACK && f.data != [] && f.sid in st.streams)))
  }

  ghost predicate SomeStop(st: State, es: seq<Event>) {
    exists p: nat :: p < |es| && StopsAt(st, es, p)
  }

  lemma StopsEarlier(st: State, es: seq<Event>, p: nat)
    requires p < |es| - 1
    ensures StopsAt(st, es, p) <==> StopsAt(st, es[..|es| - 1], p)
  {
    hide MayOpen, Answered;
    assert es[..|es| - 1][..p] == es[..p];
  }

  lemma SomeStopLast(st: State, es: seq<Event>)
    requires es != []
    ensures SomeStop(st, es) <==> SomeStop(st, es[..|es| - 1]) || StopsAt(st, es, |es| - 1)
  {
    hide StopsAt;
    var n := |es| - 1;
    if SomeStop(st, es[..n]) {
      var p: nat :| p < n && StopsAt(st, es[..n], p);
      StopsEarlier(st, es, p);
    }
    if SomeStop(st, es) {
      var p: nat :| p < |es| && StopsAt(st, es, p);
      if p < n {
        StopsEarlier(st, es, p);
      }
    }
  }

  /**
   * The session has stopped exactly when it had at the start, or one of the
   * events ended it: a SYN that came to a server before any settings, an alert
   * with text, or a reply that could not be sent.
   */
  lemma {:induction false} StoppedExactly(st: State, es: seq<Event>)
    ensures Play(st, es).stopped <==> st.stopped || SomeStop(st, es)
    decreases |es|
  {
    hide Step, SomeStop, StopsAt;
    if es == [] {
      assert !SomeStop(st, []) by { NoStop(st); }
    } else {
      var n := |es| - 1;
      StoppedExactly(st, es[..n]);
      PlayLast(st, es);
      StepStops(Play(st, es[..n]), es[n]);
      SomeStopLast(st, es);
      StopsByState(st, es, n);
    }
  }

  lemma NoStop(st: State)
    ensures !SomeStop(st, [])
  {}

  lemma StopsByState(st: State, es: seq<Event>, p: nat)
    requires p < |es|
    ensures StopsAt(st, es, p) <==> es[p].Received? && StoppedBy(Play(st, es[..p]), es[p].f, es[p].writeOk)
  {
    hide Step, Play, SettingsCame, Listed;
    SettingsExactly(st, es[..p]);
    if es[p].Received? {
      ListedExactly(st, es[..p], es[p].f.sid);
    }
  }

  // ---------- nothing happens behind the end ----------

  lemma ActAllStays(st: State, ls: seq<Local>)
    ensures ActAll(st, ls).stopped == st.stopped
    decreases |ls|
  {
    hide CloseIds, OpenLog;
    if ls != [] {
      ActStays(st, ls[0]);
      ActAllStays(Act(st, ls[0]), ls[1..]);
    }
  }

  lemma ActStays(st: State, l: Local)
    ensures Act(st, l).stopped == st.stopped
  {}

  lemma OutsidesQuiet(st: State, ls: seq<Local>, p: nat)
    requires p <= |ls|
    ensures Play(st, Outsides(ls)[..p]).stopped == st.stopped
    ensures FramesOf(Outsides(ls)[p..]) == []
  {
    hide Act, FramesOf, Play, ActAll;
    assert Outsides(ls)[..p] == Outsides(ls[..p]) && Outsides(ls)[p..] == Outsides(ls[p..]);
    OutsidesPlayed(st, ls[..p]);
    OutsidesPlayed(st, ls[p..]);
    ActAllStays(st, ls[..p]);
  }

  /** Taking the first round off a run that goes on. */
  lemma FirstRound(st: State, ls: seq<Local>, f: Frame, ok: bool, rest: seq<Event>, q: nat)
    requires q <= |rest|
    ensures var es := Outsides(ls) + ([Received(f, ok)] + rest);
      && es[|ls| + 1 + q..] == rest[q..]
      && Play(st, es[..|ls| + 1 + q]) == Play(Handle(ActAll(st, ls), f, ok), rest[..q])
  {
    hide Handle, Act, ActAll, Play, FramesOf, Outsides;
    var es := Outsides(ls) + ([Received(f, ok)] + rest);
    assert es[..|ls| + 1 + q] == Outsides(ls) + ([Received(f, ok)] + rest[..q]);
    PlaySplit(st, Outsides(ls), [Received(f, ok)] + rest[..q]);
    OutsidesPlayed(st, ls);
    ReceivedFirst(ActAll(st, ls), f, ok, rest[..q]);
  }

  /** Once the session has stopped, no further frame is acted on. */
  lemma {:induction false} NoneAfterStop(st: State, fs: seq<Frame>, k: nat, env: nat -> Env, p: nat)
    requires p <= |Trace(st, fs, k, env)| && Play(st, Trace(st, fs, k, env)[..p]).stopped
    ensures FramesOf(Trace(st, fs, k, env)[p..]) == []
    decreases |fs|
  {
    hide Handle, Act, ActAll, Play, FramesOf, Outsides;
    var ls := env(k).locals;
    var st0 := ActAll(st, ls);
    if p <= |ls| {
      OutsidesQuiet(st, ls, p);
      ActAllStays(st, ls);
      assert Trace(st, fs, k, env)[..p] == Outsides(ls)[..p];
      assert Trace(st, fs, k, env) == Outsides(ls);
    } else {
      var ok := env(k).writeOk;
      var st1 := Handle(st0, fs[0], ok);
      FirstRound(st, ls, fs[0], ok, Trace(st1, fs[1..], k + 1, env), p - |ls| - 1);
      NoneAfterStop(st1, fs[1..], k + 1, env, p - |ls| - 1);
    }
  }

  /** What ends the session ends the loop: of the frames behind it none is acted on. */
  lemma StopEndsLoop(st: State, fs: seq<Frame>, k: nat, env: nat -> Env, p: nat)
    requires p < |Trace(st, fs, k, env)| && StopsAt(st, Trace(st, fs, k, env), p)
    ensures FramesOf(Trace(st, fs, k, env)[p + 1..]) == []
  {
    hide Trace, StopsAt, Play, FramesOf;
    var es := Trace(st, fs, k, env);
    assert es[..p + 1][..p] == es[..p];
    StoppedExactly(st, es[..p + 1]);
    StopsAlready(st, es, p);
    NoneAfterStop(st, fs, k, env, p + 1);
  }

  lemma StopsAlready(st: State, es: seq<Event>, p: nat)
    requires p < |es| && StopsAt(st, es, p)
    ensures SomeStop(st, es[..p + 1])
  {
    hide MayOpen, Answered;
    assert es[..p + 1][..p] == es[..p];
    assert StopsAt(st, es[..p + 1], p);
  }

  /** No frame is acted on in a round that finds the session closed, or in a later one. */
  lemma {:induction false} NoneAfterClose(st: State, fs: seq<Frame>, k: nat, env: nat -> Env, r: nat)
    requires k <= r && env(r).sessionClosed
    ensures |FramesOf(Trace(st, fs, k, env))| <= r - k
    decreases |fs|
  {
    hide Handle, Act, ActAll, Outsides;
    var ls := env(k).locals;
    var st0 := ActAll(st, ls);
    OutsidesPlayed(st, ls);
    if !(st0.stopped || env(k).sessionClosed || fs == []) {
      var st1 := Handle(st0, fs[0], env(k).writeOk);
      var rest := Trace(st1, fs[1..], k + 1, env);
      NoneAfterClose(st1, fs[1..], k + 1, env, r);
      FramesOfSplit(Outsides(ls), [Received(fs[0], env(k).writeOk)] + rest);
      ReceivedFirst(st0, fs[0], env(k).writeOk, rest);
    }
  }
}
