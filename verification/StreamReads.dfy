/**
 * What the reader of a stream gets.  recvLoop is the only writer of a stream's
 * pipe and writes one payload after the other; readers, closes and read
 * deadlines come in between in any way.  The pipe's own write deadline is never
 * set, for a stream keeps one of its own.
 */
module StreamReads {
  import opened Bytes
  import D = Demux
  import F = Frames
  import opened Pipe
  import opened Seqs
  import W = SessionWriter

  /** The k-th write starts when the one before it has returned. */
  predicate InTurn(s: State, step: Step, k: nat) {
    match step
    case StartWrite(t, _) => t == k && (k > 0 ==> k - 1 in s.writers && s.writers[k - 1].WDone?)
    case SetDeadline(readSide, _) => readSide
    case _ => true
  }

  /** A run whose writes come one after the other; k have been started before. */
  ghost predicate Fed(s: State, steps: seq<Step>, k: nat)
    decreases |steps|
  {
    steps == [] ||
    (Enabled(s, steps[0]) && InTurn(s, steps[0], k) && Fed(Apply(s, steps[0]), steps[1..], k + |Payload(steps[0])|))
  }

  function Payload(step: Step): seq<bytes> {
    if step.StartWrite? then [step.b] else []
  }

  /** What has been passed to Write, in order. */
  function Payloads(steps: seq<Step>): seq<bytes> {
    if steps == [] then [] else Payload(steps[0]) + Payloads(steps[1..])
  }

  /** All writes but the last have returned; one that failed did so because the pipe is closed. */
  ghost predicate Serial(s: State, ps: seq<bytes>) {
    && !s.writeDeadline
    && (forall t: nat :: t in s.writers <==> t < |ps|)
    && (forall t: nat :: t < |ps| ==> s.writers[t].data == ps[t])
    && (forall t: nat :: t + 1 < |ps| ==> s.writers[t].WDone?)
    && (forall t: nat :: t < |ps| && s.writers[t].WDone? && s.writers[t].err != NoErr ==> s.done)
  }

  /** Everything before the last payload has been read, and what has been taken from that one. */
  ghost predicate Whole(takes: seq<Take>, ps: seq<bytes>) {
    if ps == [] then Flat(takes) == []
    else Flat(takes) == Flatten(ps[..|ps| - 1]) + TakenFrom(takes, |ps| - 1)
  }

  /** The pipe was closed within an earlier payload, and the last write does not get anywhere. */
  ghost predicate CutOff(s: State, ps: seq<bytes>)
    requires Serial(s, ps)
  {
    && ps != [] && s.done && Flat(s.takes) <= Flatten(ps)
    && var w := s.writers[|ps| - 1];
       w.WEntry? || (w.WDone? && w.err != NoErr)
  }

  ghost predicate Feeding(s: State, ps: seq<bytes>) {
    Inv(s) && Serial(s, ps) && (Whole(s.takes, ps) || CutOff(s, ps))
  }

  lemma FlattenMore(ps: seq<bytes>, b: bytes)
    ensures Flatten(ps + [b]) == Flatten(ps) + b
  {
    FlattenAppend(ps, [b]);
    FlattenOne(b);
  }

  lemma FlattenLast(ps: seq<bytes>)
    requires ps != []
    ensures Flatten(ps) == Flatten(ps[..|ps| - 1]) + ps[|ps| - 1]
  {
    FlattenMore(ps[..|ps| - 1], ps[|ps| - 1]);
    assert ps[..|ps| - 1] + [ps[|ps| - 1]] == ps;
  }

  /** What was taken from a write is the front of its data. */
  lemma TakenIsPrefix(s: State, t: Tid)
    requires Inv(s) && t in s.writers
    ensures TakenFrom(s.takes, t) <= s.writers[t].data
    ensures s.writers[t].WDone? && s.writers[t].err == NoErr ==> TakenFrom(s.takes, t) == s.writers[t].data
  {
    hide OrderInv, ReadInv, CloseInv, LockInv, TakenFrom;
    if s.writers[t].WAck? {
      var r := s.writers[t].peer;
      assert SliceOk(s.writers, s.takes, r, t, s.readers[r].got);
    } else {
      assert Counted(s.writers[t], TakenFrom(s.takes, t));
    }
  }

  lemma NothingTakenYet(s: State, t: Tid)
    requires Inv(s) && t !in s.writers
    ensures TakenFrom(s.takes, t) == []
  {
    hide SliceInv, CountInv, ReadInv, CloseInv, TakenFrom;
    NeverStarted(s, t);
  }

  // ---------- every step ----------

  lemma SerialStart(s: State, ps: seq<bytes>, b: bytes)
    requires Serial(s, ps) && InTurn(s, StartWrite(|ps|, b), |ps|)
    ensures Serial(s.(writers := s.writers[|ps| := WEntry(b)]), ps + [b])
  {}

  lemma FeedStart(s: State, ps: seq<bytes>, b: bytes)
    requires Feeding(s, ps) && Enabled(s, StartWrite(|ps|, b)) && InTurn(s, StartWrite(|ps|, b), |ps|)
    ensures Feeding(Apply(s, StartWrite(|ps|, b)), ps + [b])
  {
    hide Inv, Flat, TakenFrom, Flatten;
    var s', k := Apply(s, StartWrite(|ps|, b)), |ps|;
    assert Inv(s') by { KeepInv(s, StartWrite(|ps|, b)); }
    SerialStart(s, ps, b);
    NothingTakenYet(s, k);
    assert (ps + [b])[..k] == ps;
    assert Flatten(ps) + [] == Flatten(ps);
    if ps == [] {
      NothingFlat();
    } else {
      FlattenLast(ps);
      FlattenMore(ps, b);
      TakenIsPrefix(s, k - 1);
    }
  }

  lemma NothingFlat()
    ensures Flatten([]) == []
  {}

  /** Only the last write can move. */
  lemma SerialMove(s: State, ps: seq<bytes>, w: Writing)
    requires Serial(s, ps) && ps != [] && w.data == ps[|ps| - 1] && (w.WDone? && w.err != NoErr ==> s.done)
    ensures Serial(s.(writers := s.writers[|ps| - 1 := w]), ps)
  {}

  /** The last write moves on without a rendezvous. */
  lemma FeedMove(s: State, ps: seq<bytes>, step: Step)
    requires Feeding(s, ps) && Enabled(s, step)
    requires step.PassWrite? || step.Lock? || step.FailWrite? || step.Ack?
    ensures Feeding(Apply(s, step), ps)
  {
    hide Inv, Flat, TakenFrom, Flatten;
    var s' := Apply(s, step);
    assert Inv(s') by { KeepInv(s, step); }
    assert step.t == |ps| - 1;
    SerialMove(s, ps, s'.writers[step.t]);
  }

  lemma FeedRendezvous(s: State, ps: seq<bytes>, t: Tid, r: Tid)
    requires Feeding(s, ps) && Enabled(s, Rendezvous(t, r))
    ensures Feeding(Apply(s, Rendezvous(t, r)), ps)
  {
    hide Inv, Flat, TakenFrom, Flatten;
    var s' := Apply(s, Rendezvous(t, r));
    assert Inv(s') by { KeepInv(s, Rendezvous(t, r)); }
    assert t == |ps| - 1;
    SerialMove(s, ps, s'.writers[t]);
    var k := s'.takes[|s.takes|];
    TakenMore(s.takes, k, t);
    Associate(Flatten(ps[..t]), TakenFrom(s.takes, t), k.got);
  }

  /** Reads, closes and read deadlines do not touch the writes. */
  lemma FeedBeside(s: State, ps: seq<bytes>, step: Step)
    requires Feeding(s, ps) && Enabled(s, step) && InTurn(s, step, |ps|)
    requires step.StartRead? || step.PassRead? || step.FailRead?
             || step.StoreClose? || step.CloseDone? || step.SetDeadline?
    ensures Feeding(Apply(s, step), ps)
  {
    hide Inv, Flat, TakenFrom, Flatten;
    assert Inv(Apply(s, step)) by { KeepInv(s, step); }
  }

  lemma FeedStep(s: State, ps: seq<bytes>, step: Step)
    requires Feeding(s, ps) && Enabled(s, step) && InTurn(s, step, |ps|)
    ensures Feeding(Apply(s, step), ps + Payload(step))
  {
    hide Feeding, Enabled, Apply;
    assert ps + [] == ps;
    match step
    case StartWrite(_, b) => FeedStart(s, ps, b);
    case Rendezvous(t, r) => FeedRendezvous(s, ps, t, r);
    case PassWrite(_) => FeedMove(s, ps, step);
    case Lock(_) => FeedMove(s, ps, step);
    case FailWrite(_, _) => FeedMove(s, ps, step);
    case Ack(_, _) => FeedMove(s, ps, step);
    case _ => FeedBeside(s, ps, step);
  }

  lemma {:induction false} FeedRun(s: State, ps: seq<bytes>, steps: seq<Step>, last: State)
    requires Feeding(s, ps) && IsRun(s, steps, last) && Fed(s, steps, |ps|)
    ensures Feeding(last, ps + Payloads(steps))
    decreases |steps|
  {
    hide Feeding, Enabled, Apply, InTurn, Payload;
    if steps == [] {
      assert ps + [] == ps;
    } else {
      FeedStep(s, ps, steps[0]);
      FeedRun(Apply(s, steps[0]), ps + Payload(steps[0]), steps[1..], last);
      Associate(ps, Payload(steps[0]), Payloads(steps[1..]));
    }
  }

  // ---------- what readers get ----------

  /**
   * Whatever readers, closes and read deadlines do: the bytes read so far are
   * the front of those written; all of them, when every write has succeeded.
   */
  lemma ReadsArePrefix(steps: seq<Step>, s: State)
    requires IsRun(START, steps, s) && Fed(START, steps, 0)
    ensures Flat(s.takes) <= Flatten(Payloads(steps))
    ensures (forall t :: t in s.writers ==> s.writers[t].WDone? && s.writers[t].err == NoErr) ==>
              Flat(s.takes) == Flatten(Payloads(steps))
  {
    hide IsRun, Fed, Feeding, Flat, Flatten, Payloads;
    var ps := Payloads(steps);
    FeedStarts();
    FeedRun(START, [], steps, s);
    assert [] + ps == ps;
    FedReads(s, ps);
  }

  lemma FedReads(s: State, ps: seq<bytes>)
    requires Feeding(s, ps)
    ensures Flat(s.takes) <= Flatten(ps)
    ensures (forall t :: t in s.writers ==> s.writers[t].WDone? && s.writers[t].err == NoErr) ==>
              Flat(s.takes) == Flatten(ps)
  {
    hide Inv, TakenFrom, Flat, Flatten;
    if ps == [] {
      NothingFlat();
    } else {
      FlattenLast(ps);
      TakenIsPrefix(s, |ps| - 1);
    }
  }

  lemma FeedStarts()
    ensures Feeding(START, [])
  {
    InvAtStart();
  }

  /**
   * From the writer of a session to the reader of a stream: in the setting of
   * EndToEnd, what has been read from the pipe of log j, of which some initial
   * part of what is offered to it has been written, is the front of what the
   * frames submitted to the writer bring that stream.
   */
  lemma ReaderGets(w: W.Writer, wire: bytes, st: D.State, env: nat -> D.Env, j: nat, steps: seq<Step>, s: State)
    requires (w.Valid() || w.Broken()) && W.AllSound(w.onWire) && wire <= F.EncodeAll(w.onWire) && D.Agree(st)
    requires j < |D.RunBytes(st, wire, 0, env).logs|
    requires IsRun(START, steps, s) && Fed(START, steps, 0)
    requires Flatten(Payloads(steps)) <= D.RunBytes(st, wire, 0, env).logs[j].offered
    ensures var es, l := D.Unpadded(D.Trace(st, F.Parse(wire), 0, env)), D.RunBytes(st, wire, 0, env).logs[j];
      && D.FramesOf(es) <= w.submitted && D.HeardItsOwn(st, es, j, l)
      && Flat(s.takes) <= l.offered
  {
    hide D.RunBytes, D.HeardItsOwn, D.Agree, IsRun, Fed, Flat, Flatten;
    D.EndToEnd(w, wire, st, env, j);
    ReadsArePrefix(steps, s);
  }
}
