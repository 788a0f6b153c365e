/**
 * What single calls on the pipe get: with which error they end, told from what
 * happened to the pipe before; how much a read takes; and that a read and a
 * write that are both under way never wait for each other for good.
 */
module PipeCalls {
  import opened Pipe

  /** The error of the first close on a side; ErrClosedPipe or EOF when it gave none, NoErr before any close. */
  function FirstClose(steps: seq<Step>, readSide: bool): Err {
    if steps == [] then NoErr
    else if steps[0].StoreClose? && steps[0].readSide == readSide then
      if steps[0].err != NoErr then steps[0].err else if readSide then ErrClosedPipe else ErrEOF
    else FirstClose(steps[1..], readSide)
  }

  lemma StoredByStep(s: State, step: Step)
    requires Enabled(s, step)
    ensures Apply(s, step).rerr == if s.rerr != NoErr then s.rerr else FirstClose([step], true)
    ensures Apply(s, step).werr == if s.werr != NoErr then s.werr else FirstClose([step], false)
  {
    assert [step][1..] == [];
  }

  lemma FirstIsFirst(steps: seq<Step>, readSide: bool)
    requires steps != []
    ensures FirstClose(steps, readSide)
         == if FirstClose([steps[0]], readSide) != NoErr then FirstClose([steps[0]], readSide)
            else FirstClose(steps[1..], readSide)
  {
    assert [steps[0]][1..] == [];
  }

  /** The first close error of a side is the one that stays. */
  lemma {:induction false} Stored(s: State, steps: seq<Step>, last: State)
    requires IsRun(s, steps, last)
    ensures last.rerr == if s.rerr != NoErr then s.rerr else FirstClose(steps, true)
    ensures last.werr == if s.werr != NoErr then s.werr else FirstClose(steps, false)
    decreases |steps|
  {
    hide Enabled, Apply, FirstClose;
    if steps == [] {
      NoClose();
    } else {
      StoredByStep(s, steps[0]);
      FirstIsFirst(steps, true);
      FirstIsFirst(steps, false);
      Stored(Apply(s, steps[0]), steps[1..], last);
    }
  }

  /** Whether the deadline of a side has passed, by the last thing that was said about it. */
  function DeadlinePassed(now: bool, steps: seq<Step>, readSide: bool): bool
    decreases |steps|
  {
    if steps == [] then now
    else if steps[0].SetDeadline? && steps[0].readSide == readSide then
      DeadlinePassed(steps[0].passed, steps[1..], readSide)
    else DeadlinePassed(now, steps[1..], readSide)
  }

  lemma DeadlineByStep(s: State, step: Step)
    requires Enabled(s, step)
    ensures Apply(s, step).readDeadline == if step.SetDeadline? && step.readSide then step.passed else s.readDeadline
    ensures Apply(s, step).writeDeadline
         == if step.SetDeadline? && !step.readSide then step.passed else s.writeDeadline
  {}

  lemma {:induction false} DeadlineSet(s: State, steps: seq<Step>, last: State)
    requires IsRun(s, steps, last)
    ensures last.readDeadline == DeadlinePassed(s.readDeadline, steps, true)
    ensures last.writeDeadline == DeadlinePassed(s.writeDeadline, steps, false)
    decreases |steps|
  {
    hide Enabled, Apply;
    if steps != [] {
      DeadlineByStep(s, steps[0]);
      DeadlineSet(Apply(s, steps[0]), steps[1..], last);
    }
  }

  lemma NoClose()
    ensures FirstClose([], true) == FirstClose([], false) == NoErr
  {}

  predicate FailedReader(s: State, r: Tid) {
    r in s.readers && s.readers[r].RDone? && s.readers[r].err != NoErr
  }

  predicate FailedWriter(s: State, t: Tid) {
    t in s.writers && s.writers[t].WDone? && s.writers[t].err != NoErr
  }

  lemma StepFailsReader(s: State, step: Step, r: Tid)
    requires Enabled(s, step)
    ensures FailedReader(s, r) ==> r in Apply(s, step).readers && Apply(s, step).readers[r] == s.readers[r]
    ensures !FailedReader(s, r) && FailedReader(Apply(s, step), r) ==> step.FailRead? && step.t == r
  {
    hide CloseError;
  }

  lemma StepFailsWriter(s: State, step: Step, t: Tid)
    requires Enabled(s, step)
    ensures FailedWriter(s, t) ==> t in Apply(s, step).writers && Apply(s, step).writers[t] == s.writers[t]
    ensures !FailedWriter(s, t) && FailedWriter(Apply(s, step), t) ==> step.FailWrite? && step.t == t
  {
    hide CloseError;
  }

  lemma {:induction false} FailuresStay(s: State, steps: seq<Step>, last: State, t: Tid)
    requires IsRun(s, steps, last)
    ensures FailedReader(s, t) ==> t in last.readers && last.readers[t] == s.readers[t]
    ensures FailedWriter(s, t) ==> t in last.writers && last.writers[t] == s.writers[t]
    decreases |steps|
  {
    hide Enabled, Apply;
    if steps != [] {
      StepFailsReader(s, steps[0], t);
      StepFailsWriter(s, steps[0], t);
      FailuresStay(Apply(s, steps[0]), steps[1..], last, t);
    }
  }

  /** Step p of a run, and the state it happened in. */
  ghost predicate At(s: State, steps: seq<Step>, p: nat, mid: State) {
    p < |steps| && IsRun(s, steps[..p], mid) && Enabled(mid, steps[p])
  }

  lemma AtLater(s: State, steps: seq<Step>, p: nat, mid: State)
    requires steps != [] && Enabled(s, steps[0]) && At(Apply(s, steps[0]), steps[1..], p, mid)
    ensures At(s, steps, p + 1, mid)
  {
    hide Enabled, Apply;
    assert steps[..p + 1][1..] == steps[1..][..p];
  }

  lemma {:induction false} ReaderFailsAt(s: State, steps: seq<Step>, last: State, r: Tid) returns (p: nat, mid: State)
    requires IsRun(s, steps, last) && !FailedReader(s, r) && FailedReader(last, r)
    ensures At(s, steps, p, mid) && steps[p].FailRead? && steps[p].t == r
    ensures FailedReader(Apply(mid, steps[p]), r) && last.readers[r] == Apply(mid, steps[p]).readers[r]
    decreases |steps|
  {
    hide Enabled, Apply;
    var s1 := Apply(s, steps[0]);
    StepFailsReader(s, steps[0], r);
    if FailedReader(s1, r) {
      p, mid := 0, s;
      FailuresStay(s1, steps[1..], last, r);
    } else {
      var q;
      q, mid := ReaderFailsAt(s1, steps[1..], last, r);
      AtLater(s, steps, q, mid);
      p := q + 1;
    }
  }

  lemma {:induction false} WriterFailsAt(s: State, steps: seq<Step>, last: State, t: Tid) returns (p: nat, mid: State)
    requires IsRun(s, steps, last) && !FailedWriter(s, t) && FailedWriter(last, t)
    ensures At(s, steps, p, mid) && steps[p].FailWrite? && steps[p].t == t
    ensures FailedWriter(Apply(mid, steps[p]), t) && last.writers[t] == Apply(mid, steps[p]).writers[t]
    decreases |steps|
  {
    hide Enabled, Apply;
    var s1 := Apply(s, steps[0]);
    StepFailsWriter(s, steps[0], t);
    if FailedWriter(s1, t) {
      p, mid := 0, s;
      FailuresStay(s1, steps[1..], last, t);
    } else {
      var q;
      q, mid := WriterFailsAt(s1, steps[1..], last, t);
      AtLater(s, steps, q, mid);
      p := q + 1;
    }
  }

  /**
   * A read that fails does so past its deadline, or on a closed pipe: then with
   * the error the writer closed with, EOF if none, unless the read side had
   * been closed itself.
   */
  lemma ReadError(steps: seq<Step>, s: State, r: Tid) returns (p: nat)
    requires IsRun(START, steps, s) && FailedReader(s, r)
    ensures p < |steps| && steps[p].FailRead? && steps[p].t == r
    ensures steps[p].deadline ==> s.readers[r].err == ErrDeadline && DeadlinePassed(false, steps[..p], true)
    ensures var before := steps[..p];
      !steps[p].deadline ==>
        if FirstClose(before, true) != NoErr then s.readers[r].err == ErrClosedPipe
        else s.readers[r].err == FirstClose(before, false) != NoErr
  {
    hide IsRun, FirstClose, Inv, DeadlinePassed;
    var mid;
    p, mid := ReaderFailsAt(START, steps, s, r);
    Stored(START, steps[..p], mid);
    DeadlineSet(START, steps[..p], mid);
    ClosedWithError(steps[..p], mid);
  }

  /** A write, likewise: with the error the reader closed with, unless the write side had been closed itself. */
  lemma WriteError(steps: seq<Step>, s: State, t: Tid) returns (p: nat)
    requires IsRun(START, steps, s) && FailedWriter(s, t)
    ensures p < |steps| && steps[p].FailWrite? && steps[p].t == t
    ensures steps[p].deadline ==> s.writers[t].err == ErrDeadline && DeadlinePassed(false, steps[..p], false)
    ensures var before := steps[..p];
      !steps[p].deadline ==>
        if FirstClose(before, false) != NoErr then s.writers[t].err == ErrClosedPipe
        else s.writers[t].err == FirstClose(before, true) != NoErr
  {
    hide IsRun, FirstClose, Inv, DeadlinePassed;
    var mid;
    p, mid := WriterFailsAt(START, steps, s, t);
    Stored(START, steps[..p], mid);
    DeadlineSet(START, steps[..p], mid);
    ClosedWithError(steps[..p], mid);
  }

  lemma ClosedWithError(steps: seq<Step>, s: State)
    requires IsRun(START, steps, s)
    ensures s.done ==> s.rerr != NoErr || s.werr != NoErr
  {
    hide IsRun, LockInv, SliceInv, CountInv, OrderInv, ReadInv;
    InvAtStart();
    RunKeepsInv(START, steps, s);
  }

  // ---------------------------------------------------------------- how much a read takes

  /** Entry i of the log filled its reader, or took the rest of its write. */
  ghost predicate Full(readers: map<Tid, Reading>, writers: map<Tid, Writing>, takes: seq<Take>, i: nat)
    requires i < |takes|
  {
    var k := takes[i];
    && k.reader in readers && k.writer in writers
    && (|k.got| == readers[k.reader].cap || TakenFrom(takes[..i + 1], k.writer) == writers[k.writer].data)
  }

  ghost predicate AllFull(s: State) {
    forall i :: 0 <= i < |s.takes| ==> Full(s.readers, s.writers, s.takes, i)
  }

  /** Calls stay what they are. */
  ghost predicate SameCalls(s: State, s': State) {
    && (forall r :: r in s.readers ==> r in s'.readers && s'.readers[r].cap == s.readers[r].cap)
    && (forall t :: t in s.writers ==> t in s'.writers && s'.writers[t].data == s.writers[t].data)
  }

  lemma StepKeepsReaders(s: State, step: Step, r: Tid)
    requires Enabled(s, step) && r in s.readers
    ensures r in Apply(s, step).readers && Apply(s, step).readers[r].cap == s.readers[r].cap
  {
    hide CloseError;
  }

  lemma StepKeepsWriters(s: State, step: Step, t: Tid)
    requires Enabled(s, step) && t in s.writers
    ensures t in Apply(s, step).writers && Apply(s, step).writers[t].data == s.writers[t].data
  {
    hide CloseError;
  }

  lemma StepKeepsTakes(s: State, step: Step)
    requires Enabled(s, step)
    ensures !step.Rendezvous? ==> Apply(s, step).takes == s.takes
  {
    hide CloseError;
  }

  lemma StepKeepsCalls(s: State, step: Step)
    requires Enabled(s, step)
    ensures SameCalls(s, Apply(s, step))
  {
    hide Apply, Enabled;
    forall r | r in s.readers
      ensures r in Apply(s, step).readers && Apply(s, step).readers[r].cap == s.readers[r].cap
    {
      StepKeepsReaders(s, step, r);
    }
    forall t | t in s.writers
      ensures t in Apply(s, step).writers && Apply(s, step).writers[t].data == s.writers[t].data
    {
      StepKeepsWriters(s, step, t);
    }
  }

  lemma FullStays(s: State, s': State, i: nat)
    requires SameCalls(s, s') && s.takes <= s'.takes && i < |s.takes| && Full(s.readers, s.writers, s.takes, i)
    ensures Full(s'.readers, s'.writers, s'.takes, i)
  {
    hide TakenFrom;
    assert s'.takes[..i + 1] == s.takes[..i + 1];
  }

  /** What a write still offers is all that has not been taken from it. */
  lemma OfferedRest(s: State, t: Tid)
    requires Inv(s) && t in s.writers && s.writers[t].WOffer?
    ensures s.writers[t].n <= |s.writers[t].data|
    ensures TakenFrom(s.takes, t) == s.writers[t].data[..s.writers[t].n]
  {
    hide LockInv, SliceInv, OrderInv, ReadInv, CloseInv, TakenFrom;
    assert Counted(s.writers[t], TakenFrom(s.takes, t));
  }

  lemma TakeIsFull(s: State, t: Tid, r: Tid)
    requires Inv(s) && Enabled(s, Rendezvous(t, r))
    ensures var s' := Apply(s, Rendezvous(t, r));
      s.takes <= s'.takes && |s'.takes| == |s.takes| + 1 && Full(s'.readers, s'.writers, s'.takes, |s.takes|)
  {
    hide Inv, TakenFrom;
    OfferedRest(s, t);
    var s', w := Apply(s, Rendezvous(t, r)), s.writers[t];
    var take := s'.takes[|s.takes|];
    assert s'.takes[..|s.takes| + 1] == s.takes + [take];
    TakenMore(s.takes, take, t);
    if |take.got| != s.readers[r].cap {
      assert w.data == w.data[..w.n] + take.got;
    }
  }

  lemma StepStaysFull(s: State, step: Step)
    requires Inv(s) && Enabled(s, step) && AllFull(s)
    ensures AllFull(Apply(s, step))
  {
    hide Inv, Apply, Enabled, Full, SameCalls;
    var s' := Apply(s, step);
    StepKeepsCalls(s, step);
    StepKeepsTakes(s, step);
    if step.Rendezvous? {
      TakeIsFull(s, step.t, step.r);
    }
    forall i | 0 <= i < |s.takes|
      ensures Full(s'.readers, s'.writers, s'.takes, i)
    {
      FullStays(s, s', i);
    }
  }

  lemma {:induction false} RunStaysFull(s: State, steps: seq<Step>, last: State)
    requires Inv(s) && AllFull(s) && IsRun(s, steps, last)
    ensures AllFull(last)
    decreases |steps|
  {
    hide Inv, Enabled, Apply, AllFull;
    if steps != [] {
      KeepInv(s, steps[0]);
      StepStaysFull(s, steps[0]);
      RunStaysFull(Apply(s, steps[0]), steps[1..], last);
    }
  }

  /** A successful read fills its buffer, or takes all that was left of one write. */
  lemma ReadIsFull(steps: seq<Step>, s: State, r: Tid) returns (i: nat)
    requires IsRun(START, steps, s) && r in s.readers && s.readers[r].RDone? && s.readers[r].err == NoErr
    ensures i < |s.takes| && s.takes[i].reader == r && s.takes[i].got == s.readers[r].got
    ensures s.takes[i].writer in s.writers
    ensures |s.readers[r].got| == s.readers[r].cap
            || TakenFrom(s.takes[..i + 1], s.takes[i].writer) == s.writers[s.takes[i].writer].data
  {
    hide Inv, IsRun, TakenFrom;
    InvAtStart();
    RunStaysFull(START, steps, s);
    FinishedRead(steps, s, r);
    i :| i < |s.takes| && s.takes[i].reader == r && s.takes[i].got == s.readers[r].got;
    assert Full(s.readers, s.writers, s.takes, i);
  }

  // ---------------------------------------------------------------- no deadlock

  /** The steps that bring calls forward; what the environment does is not among them. */
  predicate Advances(step: Step) {
    !step.StartWrite? && !step.StartRead? && !step.StoreClose? && !step.CloseDone? && !step.SetDeadline?
  }

  /** The holder of the write lock offers, or waits for a reader that has its slice. */
  lemma HolderMoves(s: State, h: Tid)
    requires Inv(s) && h in s.wrMu
    ensures h in s.writers && (s.writers[h].WOffer? || s.writers[h].WAck?)
    ensures s.writers[h].WOffer? ==> s.writers[h].n <= |s.writers[h].data|
    ensures s.writers[h].WAck? ==> Enabled(s, Ack(h, s.writers[h].peer))
  {
    hide OrderInv, ReadInv, CloseInv, CountInv, TakenFrom;
    if s.writers[h].WOffer? {
      OfferedRest(s, h);
    }
  }

  lemma ReaderMoves(s: State, r: Tid)
    requires Inv(s) && r in s.readers && !s.readers[r].RDone?
    ensures s.readers[r].RCopied? ==> Enabled(s, Ack(s.readers[r].src, r))
    ensures s.readers[r].REntry? ==> Enabled(s, PassRead(r)) || Enabled(s, FailRead(r, false))
                                     || Enabled(s, FailRead(r, true))
  {
    hide LockInv, OrderInv, ReadInv, CloseInv, CountInv, TakenFrom;
  }

  /** While a write and a read are both unfinished, some call can go on. */
  lemma NeverStuck(steps: seq<Step>, s: State, t: Tid, r: Tid) returns (step: Step)
    requires IsRun(START, steps, s)
    requires t in s.writers && !s.writers[t].WDone? && r in s.readers && !s.readers[r].RDone?
    ensures Enabled(s, step) && Advances(step)
  {
    hide Inv, IsRun;
    InvAtStart();
    RunKeepsInv(START, steps, s);
    ReaderMoves(s, r);
    if s.readers[r].RCopied? {
      step := Ack(s.readers[r].src, r);
    } else if s.readers[r].REntry? {
      step := if Enabled(s, PassRead(r)) then PassRead(r) else FailRead(r, !s.done);
    } else if s.wrMu != {} {
      var h :| h in s.wrMu;
      HolderMoves(s, h);
      step := if s.writers[h].WOffer? then Rendezvous(h, r) else Ack(h, s.writers[h].peer);
    } else {
      step := WriterMoves(s, t);
    }
  }

  lemma WriterMoves(s: State, t: Tid) returns (step: Step)
    requires Inv(s) && s.wrMu == {} && t in s.writers && !s.writers[t].WDone?
    ensures Enabled(s, step) && Advances(step)
  {
    hide OrderInv, ReadInv, CloseInv, CountInv, SliceInv;
    if s.writers[t].WEntry? {
      step := if !s.done && !s.writeDeadline then PassWrite(t) else FailWrite(t, !s.done);
    } else {
      assert !Holding(s.writers[t]);
      step := Lock(t);
    }
  }
}
