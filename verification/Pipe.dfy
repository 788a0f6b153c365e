/**
 * The synchronous pipe: writers queue on a mutex, one of them offers its slice,
 * a reader copies from it and acknowledges how much it took.
 *
 * A state machine over every interleaving of reads, writes, closes and
 * deadline changes.  Each Read or Write call is a thread of its own; a step is
 * one channel operation, one lock acquisition or one closing action.
 */
module Pipe {
  import opened Bytes
  import opened Seqs

  type Tid = nat

  datatype Err = NoErr | ErrDeadline | ErrClosedPipe | ErrEOF | ErrOther(code: nat)

  /** A Write call; n counts the bytes readers have acknowledged, `peer` is the reader it waits for. */
  datatype Writing =
    | WEntry(data: bytes)
    | WWait(data: bytes)
    | WOffer(data: bytes, n: nat)
    | WAck(data: bytes, n: nat, peer: Tid)
    | WDone(data: bytes, n: nat, err: Err)

  /** A Read call; RCopied still refers to the writer's slice. */
  datatype Reading =
    | REntry(cap: nat)
    | RSelect(cap: nat)
    | RCopied(cap: nat, src: Tid, got: bytes)
    | RDone(cap: nat, got: bytes, err: Err)

  /** One rendezvous: which reader took which bytes of which writer. */
  datatype Take = Take(reader: Tid, writer: Tid, got: bytes)

  datatype State = State(
    writers: map<Tid, Writing>,
    readers: map<Tid, Reading>,
    wrMu: set<Tid>,          // the holder of wrMu, at most one
    order: seq<Tid>,         // the writers in the order they acquired wrMu
    takes: seq<Take>,        // the rendezvous in the order they happened
    rerr: Err, werr: Err,    // NoErr until stored once
    closers: nat,            // close calls that have stored their error
    done: bool,
    readDeadline: bool, writeDeadline: bool)

  datatype Step =
    | StartWrite(t: Tid, b: bytes)
    | StartRead(t: Tid, cap: nat)
    | PassWrite(t: Tid)
    | PassRead(t: Tid)
    | Lock(t: Tid)
    | Rendezvous(t: Tid, r: Tid)
    | Ack(t: Tid, r: Tid)
    | FailWrite(t: Tid, deadline: bool)
    | FailRead(t: Tid, deadline: bool)
    | StoreClose(readSide: bool, err: Err)
    | CloseDone
    | SetDeadline(readSide: bool, passed: bool)

  const START: State := State(map[], map[], {}, [], [], NoErr, NoErr, 0, false, false, false)

  function Min(a: nat, b: nat): nat {
    if a < b then a else b
  }

  /** readCloseError and writeCloseError. */
  function CloseError(own: Err, other: Err): Err {
    if own == NoErr && other != NoErr then other else ErrClosedPipe
  }

  predicate Enabled(s: State, step: Step) {
    match step
    case StartWrite(t, _) => t !in s.writers
    case StartRead(t, _) => t !in s.readers
    case PassWrite(t) => t in s.writers && s.writers[t].WEntry? && !s.done && !s.writeDeadline
    case PassRead(t) => t in s.readers && s.readers[t].REntry? && !s.done && !s.readDeadline
    case Lock(t) => t in s.writers && s.writers[t].WWait? && s.wrMu == {}
    case Rendezvous(t, r) => t in s.writers && s.writers[t].WOffer? && r in s.readers && s.readers[r].RSelect?
      && s.writers[t].n <= |s.writers[t].data|
    case Ack(t, r) => t in s.writers && s.writers[t].WAck? && r in s.readers && s.readers[r].RCopied?
    case FailWrite(t, deadline) => t in s.writers && (s.writers[t].WEntry? || s.writers[t].WOffer?)
      && if deadline then s.writeDeadline else s.done
    case FailRead(t, deadline) => t in s.readers && (s.readers[t].REntry? || s.readers[t].RSelect?)
      && if deadline then s.readDeadline else s.done
    case StoreClose(_, _) => true
    case CloseDone => s.closers > 0
    case SetDeadline(_, _) => true
  }

  function Apply(s: State, step: Step): State
    requires Enabled(s, step)
  {
    match step
    case StartWrite(t, b) => s.(writers := s.writers[t := WEntry(b)])
    case StartRead(t, cap) => s.(readers := s.readers[t := REntry(cap)])
    case PassWrite(t) => s.(writers := s.writers[t := WWait(s.writers[t].data)])
    case PassRead(t) => s.(readers := s.readers[t := RSelect(s.readers[t].cap)])
    case Lock(t) => s.(writers := s.writers[t := WOffer(s.writers[t].data, 0)], wrMu := {t}, order := s.order + [t])
    case Rendezvous(t, r) =>
      var w := s.writers[t];
      var nr := Min(s.readers[r].cap, |w.data| - w.n);
      var got := w.data[w.n..w.n + nr];
      s.(writers := s.writers[t := WAck(w.data, w.n, r)],
         readers := s.readers[r := RCopied(s.readers[r].cap, t, got)],
         takes := s.takes + [Take(r, t, got)])
    case Ack(t, r) =>
      var w, got := s.writers[t], s.readers[r].got;
      var n := w.n + |got|;
      var s' := s.(readers := s.readers[r := RDone(s.readers[r].cap, got, NoErr)]);
      if n < |w.data| then s'.(writers := s.writers[t := WOffer(w.data, n)])
      else s'.(writers := s.writers[t := WDone(w.data, n, NoErr)], wrMu := s.wrMu - {t})
    case FailWrite(t, deadline) =>
      var w := s.writers[t];
      var err := if deadline then ErrDeadline else CloseError(s.werr, s.rerr);
      s.(writers := s.writers[t := WDone(w.data, if w.WOffer? then w.n else 0, err)], wrMu := s.wrMu - {t})
    case FailRead(t, deadline) =>
      var err := if deadline then ErrDeadline else CloseError(s.rerr, s.werr);
      s.(readers := s.readers[t := RDone(s.readers[t].cap, [], err)])
    case StoreClose(readSide, e) =>
      var err := if e != NoErr then e else if readSide then ErrClosedPipe else ErrEOF;
      var s' := s.(closers := s.closers + 1);
      if readSide then s'.(rerr := if s.rerr == NoErr then err else s.rerr)
      else s'.(werr := if s.werr == NoErr then err else s.werr)
    case CloseDone => s.(done := true)
    case SetDeadline(readSide, passed) =>
      if readSide then s.(readDeadline := passed) else s.(writeDeadline := passed)
  }

  // ---------- accounting ----------

  ghost function Flat(takes: seq<Take>): bytes {
    if takes == [] then [] else Flat(takes[..|takes| - 1]) + takes[|takes| - 1].got
  }

  /** What readers have taken from one write, in order. */
  ghost function TakenFrom(takes: seq<Take>, t: Tid): bytes {
    if takes == [] then []
    else TakenFrom(takes[..|takes| - 1], t) + if takes[|takes| - 1].writer == t then takes[|takes| - 1].got else []
  }

  /** The bytes taken, write by write in lock order. */
  ghost function ByOrder(order: seq<Tid>, takes: seq<Take>): bytes {
    if order == [] then [] else ByOrder(order[..|order| - 1], takes) + TakenFrom(takes, order[|order| - 1])
  }

  predicate Holding(w: Writing) {
    w.WOffer? || w.WAck?
  }

  predicate Started(w: Writing) {
    w.WOffer? || w.WAck? || w.WDone?
  }

  /** wrMu is held by the write that offers or waits for its ack, and that write locked last. */
  ghost predicate LockInv(writers: map<Tid, Writing>, wrMu: set<Tid>, order: seq<Tid>) {
    && (forall t :: t in wrMu <==> t in writers && Holding(writers[t]))
    && (forall t :: t in wrMu ==> order != [] && t == order[|order| - 1])
    && Distinct(order)
    && (forall t :: t in order ==> t in writers && Started(writers[t]))
  }

  /** A reader that has copied did so from a write that waits for its ack. */
  ghost predicate SliceOk(writers: map<Tid, Writing>, takes: seq<Take>, r: Tid, src: Tid, got: bytes) {
    && src in writers && writers[src].WAck? && writers[src].peer == r
    && var w := writers[src];
    && w.n + |got| <= |w.data| && got == w.data[w.n..w.n + |got|]
    && TakenFrom(takes, src) == w.data[..w.n + |got|]
  }

  /** Copied slices and waiting writes are matched one to one. */
  ghost predicate SliceInv(writers: map<Tid, Writing>, readers: map<Tid, Reading>, takes: seq<Take>) {
    && (forall r :: r in readers && readers[r].RCopied? ==> SliceOk(writers, takes, r, readers[r].src, readers[r].got))
    && (forall t :: t in writers && writers[t].WAck? ==>
          writers[t].peer in readers && readers[writers[t].peer].RCopied? && readers[writers[t].peer].src == t)
  }

  /** What a write reports is what was taken from it; without an error that is everything. */
  ghost predicate Counted(w: Writing, taken: bytes) {
    match w
    case WEntry(_) => taken == []
    case WWait(_) => taken == []
    case WOffer(d, n) => n <= |d| && taken == d[..n]
    case WAck(d, n, _) => true
    case WDone(d, n, err) => n <= |d| && taken == d[..n] && (err == NoErr ==> n == |d|)
  }

  ghost predicate CountInv(writers: map<Tid, Writing>, takes: seq<Take>) {
    forall t :: t in writers ==> Counted(writers[t], TakenFrom(takes, t))
  }

  /** The rendezvous log is complete: it runs write by write in lock order. */
  ghost predicate OrderInv(order: seq<Tid>, takes: seq<Take>) {
    && Flat(takes) == ByOrder(order, takes)
    && (forall t :: t !in order ==> TakenFrom(takes, t) == [])
  }

  ghost function TakenBy(takes: seq<Take>): set<Tid> {
    if takes == [] then {} else TakenBy(takes[..|takes| - 1]) + {takes[|takes| - 1].reader}
  }

  /** No reader appears twice in the log. */
  ghost predicate OncePerReader(takes: seq<Take>) {
    takes == [] || (takes[|takes| - 1].reader !in TakenBy(takes[..|takes| - 1]) && OncePerReader(takes[..|takes| - 1]))
  }

  predicate Succeeded(r: Reading) {
    r.RCopied? || (r.RDone? && r.err == NoErr)
  }

  /** The reader of a log entry has the bytes of that entry. */
  ghost predicate Logged(readers: map<Tid, Reading>, k: Take) {
    k.reader in readers && Succeeded(readers[k.reader]) && readers[k.reader].got == k.got
  }

  /** A read returns at most its capacity, and nothing with an error. */
  ghost predicate ReadOk(r: Reading) {
    match r
    case RCopied(cap, _, got) => |got| <= cap
    case RDone(cap, got, err) => |got| <= cap && (err != NoErr ==> got == [])
    case _ => true
  }

  /** Each successful read is one rendezvous, and returns what it took there. */
  ghost predicate ReadInv(readers: map<Tid, Reading>, takes: seq<Take>) {
    && (forall i :: 0 <= i < |takes| ==> Logged(readers, takes[i]))
    && OncePerReader(takes)
    && (forall r :: r in readers ==> ReadOk(readers[r]))
    && (forall r :: r in TakenBy(takes) <==> r in readers && Succeeded(readers[r]))
  }

  /** done is closed only after a close error has been stored. */
  ghost predicate CloseInv(s: State) {
    && (s.closers > 0 ==> s.rerr != NoErr || s.werr != NoErr)
    && (s.done ==> s.closers > 0)
  }

  ghost predicate Inv(s: State) {
    && LockInv(s.writers, s.wrMu, s.order)
    && SliceInv(s.writers, s.readers, s.takes)
    && CountInv(s.writers, s.takes)
    && OrderInv(s.order, s.takes)
    && ReadInv(s.readers, s.takes)
    && CloseInv(s)
  }

  lemma InvAtStart()
    ensures Inv(START)
  {}

  lemma TakenMore(takes: seq<Take>, k: Take, t: Tid)
    ensures TakenFrom(takes + [k], t) == TakenFrom(takes, t) + if k.writer == t then k.got else []
    ensures Flat(takes + [k]) == Flat(takes) + k.got
    ensures TakenBy(takes + [k]) == TakenBy(takes) + {k.reader}
    ensures OncePerReader(takes + [k]) <==> OncePerReader(takes) && k.reader !in TakenBy(takes)
  {
    assert (takes + [k])[..|takes|] == takes;
  }

  lemma {:induction false} ByOrderMore(order: seq<Tid>, takes: seq<Take>, k: Take)
    requires Distinct(order)
    ensures k.writer !in order ==> ByOrder(order, takes + [k]) == ByOrder(order, takes)
    ensures order != [] && k.writer == order[|order| - 1] ==>
              ByOrder(order, takes + [k]) == ByOrder(order, takes) + k.got
  {
    hide TakenFrom;
    if order != [] {
      var last := |order| - 1;
      var front := order[..last];
      TakenMore(takes, k, order[last]);
      assert order == front + [order[last]];
      ByOrderMore(front, takes, k);
    }
  }

  // ---------- single updates ----------

  /** A write moves on without touching the lock. */
  lemma LockSame(writers: map<Tid, Writing>, wrMu: set<Tid>, order: seq<Tid>, t: Tid, w: Writing)
    requires LockInv(writers, wrMu, order)
    requires (t in writers && Holding(writers[t])) <==> Holding(w)
    requires t in writers && Started(writers[t]) ==> Started(w)
    ensures LockInv(writers[t := w], wrMu, order)
  {}

  /** A write ends, releasing the lock if it holds it. */
  lemma LockReleased(writers: map<Tid, Writing>, wrMu: set<Tid>, order: seq<Tid>, t: Tid, w: Writing)
    requires LockInv(writers, wrMu, order) && w.WDone?
    ensures LockInv(writers[t := w], wrMu - {t}, order)
  {}

  lemma LockTaken(writers: map<Tid, Writing>, order: seq<Tid>, t: Tid, w: Writing)
    requires LockInv(writers, {}, order) && Holding(w) && t in writers && writers[t].WWait?
    ensures LockInv(writers[t := w], {t}, order + [t]) && t !in order
  {}

  /** A write that is not waiting for an ack moves on. */
  lemma SliceOtherWriter(writers: map<Tid, Writing>, readers: map<Tid, Reading>, takes: seq<Take>, t: Tid, w: Writing)
    requires SliceInv(writers, readers, takes) && (t in writers ==> !writers[t].WAck?) && !w.WAck?
    ensures SliceInv(writers[t := w], readers, takes)
  {
    hide TakenFrom;
  }

  /** A read that has not copied moves on. */
  lemma SliceOtherReader(writers: map<Tid, Writing>, readers: map<Tid, Reading>, takes: seq<Take>, r: Tid, p: Reading)
    requires SliceInv(writers, readers, takes) && (r in readers ==> !readers[r].RCopied?) && !p.RCopied?
    ensures SliceInv(writers, readers[r := p], takes)
  {
    hide TakenFrom;
  }

  lemma CountUpdate(writers: map<Tid, Writing>, takes: seq<Take>, t: Tid, w: Writing)
    requires CountInv(writers, takes) && Counted(w, TakenFrom(takes, t))
    ensures CountInv(writers[t := w], takes)
  {
    hide TakenFrom, Counted;
  }

  lemma ReadUpdate(readers: map<Tid, Reading>, takes: seq<Take>, r: Tid, p: Reading)
    requires ReadInv(readers, takes) && ReadOk(p)
    requires (r in readers && Succeeded(readers[r])) <==> Succeeded(p)
    requires Succeeded(p) ==> p.got == readers[r].got
    ensures ReadInv(readers[r := p], takes)
  {
    hide TakenBy, OncePerReader, ReadOk;
  }

  // ---------- every step keeps the invariant ----------

  lemma KeepWriterStep(s: State, step: Step)
    requires Inv(s) && Enabled(s, step) && (step.StartWrite? || step.PassWrite? || step.FailWrite?)
    ensures Inv(Apply(s, step))
  {
    hide LockInv, SliceInv, CountInv, OrderInv, ReadInv, TakenFrom;
    var t, w := step.t, Apply(s, step).writers[step.t];
    assert t in s.writers ==> Counted(s.writers[t], TakenFrom(s.takes, t)) by {
      CountAt(s.writers, s.takes, t);
    }
    if step.StartWrite? {
      NeverStarted(s, t);
    }
    CountUpdate(s.writers, s.takes, t, w);
    SliceOtherWriter(s.writers, s.readers, s.takes, t, w);
    if step.FailWrite? {
      LockReleased(s.writers, s.wrMu, s.order, t, w);
    } else {
      LockSame(s.writers, s.wrMu, s.order, t, w);
    }
  }

  lemma CountAt(writers: map<Tid, Writing>, takes: seq<Take>, t: Tid)
    requires CountInv(writers, takes)
    ensures t in writers ==> Counted(writers[t], TakenFrom(takes, t))
  {}

  lemma NeverStarted(s: State, t: Tid)
    requires LockInv(s.writers, s.wrMu, s.order) && OrderInv(s.order, s.takes) && t !in s.writers
    ensures TakenFrom(s.takes, t) == []
  {
    hide TakenFrom;
  }

  lemma KeepReaderStep(s: State, step: Step)
    requires Inv(s) && Enabled(s, step) && (step.StartRead? || step.PassRead? || step.FailRead?)
    ensures Inv(Apply(s, step))
  {
    hide LockInv, SliceInv, CountInv, OrderInv, ReadInv;
    var r, p := step.t, Apply(s, step).readers[step.t];
    SliceOtherReader(s.writers, s.readers, s.takes, r, p);
    ReadUpdate(s.readers, s.takes, r, p);
  }

  lemma KeepLock(s: State, t: Tid)
    requires Inv(s) && Enabled(s, Lock(t))
    ensures Inv(Apply(s, Lock(t)))
  {
    hide LockInv, SliceInv, CountInv, OrderInv, ReadInv, TakenFrom;
    var w := WOffer(s.writers[t].data, 0);
    CountAt(s.writers, s.takes, t);
    CountUpdate(s.writers, s.takes, t, w);
    SliceOtherWriter(s.writers, s.readers, s.takes, t, w);
    LockTaken(s.writers, s.order, t, w);
    OrderLocked(s.order, s.takes, t);
  }

  lemma OrderLocked(order: seq<Tid>, takes: seq<Take>, t: Tid)
    requires OrderInv(order, takes) && TakenFrom(takes, t) == []
    ensures OrderInv(order + [t], takes)
  {
    hide TakenFrom, Flat;
    assert (order + [t])[..|order|] == order;
  }

  lemma KeepClosing(s: State, step: Step)
    requires Inv(s) && Enabled(s, step) && (step.StoreClose? || step.CloseDone? || step.SetDeadline?)
    ensures Inv(Apply(s, step))
  {
    hide LockInv, SliceInv, CountInv, OrderInv, ReadInv, CloseError, Min, Enabled, CloseInv;
    ClosingBooks(s, step);
  }

  lemma ClosingBooks(s: State, step: Step)
    requires CloseInv(s) && Enabled(s, step) && (step.StoreClose? || step.CloseDone? || step.SetDeadline?)
    ensures CloseInv(Apply(s, step))
  {
    hide CloseError, Min;
  }

  // ---------- the rendezvous ----------

  /** While a write offers, no reader has an unacknowledged copy. */
  lemma NoCopyWhileOffering(s: State, t: Tid)
    requires LockInv(s.writers, s.wrMu, s.order) && SliceInv(s.writers, s.readers, s.takes)
    requires t in s.writers && s.writers[t].WOffer?
    ensures forall r :: r in s.readers ==> !s.readers[r].RCopied?
    ensures forall u :: u in s.writers ==> !s.writers[u].WAck?
    ensures s.order != [] && t == s.order[|s.order| - 1]
  {
    hide TakenFrom, Distinct;
    assert t in s.wrMu;
    forall u | u in s.writers && Holding(s.writers[u])
      ensures u == t
    {
      assert u in s.wrMu;
    }
    assert forall r :: r in s.readers && s.readers[r].RCopied? ==>
        s.readers[r].src in s.writers && Holding(s.writers[s.readers[r].src]);
  }

  lemma SliceOpened(writers: map<Tid, Writing>, readers: map<Tid, Reading>, takes: seq<Take>,
                    t: Tid, w: Writing, r: Tid, p: Reading)
    requires forall r :: r in readers ==> !readers[r].RCopied?
    requires forall u :: u in writers ==> !writers[u].WAck?
    requires p.RCopied? && p.src == t && w.WAck? && w.peer == r
    requires SliceOk(writers[t := w], takes, r, t, p.got)
    ensures SliceInv(writers[t := w], readers[r := p], takes)
  {
    hide TakenFrom;
  }

  lemma CountRendezvous(writers: map<Tid, Writing>, takes: seq<Take>, k: Take, w: Writing)
    requires CountInv(writers, takes) && w.WAck?
    ensures CountInv(writers[k.writer := w], takes + [k])
  {
    hide TakenFrom;
    forall u | u in writers[k.writer := w]
      ensures Counted(writers[k.writer := w][u], TakenFrom(takes + [k], u))
    {
      TakenMore(takes, k, u);
    }
  }

  lemma OrderRendezvous(order: seq<Tid>, takes: seq<Take>, k: Take)
    requires OrderInv(order, takes) && Distinct(order) && order != [] && k.writer == order[|order| - 1]
    ensures OrderInv(order, takes + [k])
  {
    hide TakenFrom, Flat, ByOrder, Distinct;
    ByOrderMore(order, takes, k);
    TakenMore(takes, k, k.writer);
    forall t | t !in order
      ensures TakenFrom(takes + [k], t) == []
    {
      TakenMore(takes, k, t);
    }
  }

  lemma ReadRendezvous(readers: map<Tid, Reading>, takes: seq<Take>, k: Take, p: Reading)
    requires ReadInv(readers, takes) && k.reader in readers && !Succeeded(readers[k.reader])
    requires p.RCopied? && p.got == k.got && ReadOk(p)
    ensures ReadInv(readers[k.reader := p], takes + [k])
  {
    hide TakenBy, OncePerReader, ReadOk;
    TakenMore(takes, k, 0);
    forall i | 0 <= i < |takes|
      ensures takes[i].reader != k.reader
    {
      assert Logged(readers, takes[i]);
    }
  }

  lemma KeepRendezvous(s: State, t: Tid, r: Tid)
    requires Inv(s) && Enabled(s, Rendezvous(t, r))
    ensures Inv(Apply(s, Rendezvous(t, r)))
  {
    hide LockInv, SliceInv, CountInv, OrderInv, ReadInv, TakenFrom, Distinct;
    var s' := Apply(s, Rendezvous(t, r));
    var w, w', p := s.writers[t], s'.writers[t], s'.readers[r];
    var k := Take(r, t, p.got);
    CountAt(s.writers, s.takes, t);
    NoCopyWhileOffering(s, t);
    TakenMore(s.takes, k, t);
    assert w.data[..w.n] + p.got == w.data[..w.n + |p.got|];
    SliceOpened(s.writers, s.readers, s'.takes, t, w', r, p);
    CountRendezvous(s.writers, s.takes, k, w');
    OrderDistinct(s.writers, s.wrMu, s.order);
    OrderRendezvous(s.order, s.takes, k);
    ReadRendezvous(s.readers, s.takes, k, p);
    LockSame(s.writers, s.wrMu, s.order, t, w');
  }

  lemma OrderDistinct(writers: map<Tid, Writing>, wrMu: set<Tid>, order: seq<Tid>)
    requires LockInv(writers, wrMu, order)
    ensures Distinct(order)
  {}

  // ---------- the acknowledgement ----------

  /** The reader a write waits for is the one that copied, and no other has. */
  lemma AckMatches(s: State, t: Tid, r: Tid)
    requires LockInv(s.writers, s.wrMu, s.order) && SliceInv(s.writers, s.readers, s.takes)
    requires t in s.writers && s.writers[t].WAck? && r in s.readers && s.readers[r].RCopied?
    ensures s.readers[r].src == t && SliceOk(s.writers, s.takes, r, t, s.readers[r].got)
    ensures forall q :: q in s.readers && s.readers[q].RCopied? ==> q == r
    ensures forall u :: u in s.writers && s.writers[u].WAck? ==> u == t
  {
    hide TakenFrom, Distinct;
    assert t in s.wrMu;
    forall q | q in s.readers && s.readers[q].RCopied?
      ensures s.readers[q].src == t && q == s.writers[t].peer
    {
      assert SliceOk(s.writers, s.takes, q, s.readers[q].src, s.readers[q].got);
      assert s.readers[q].src in s.wrMu;
    }
    forall u | u in s.writers && s.writers[u].WAck?
      ensures u == t
    {
      assert u in s.wrMu;
    }
  }

  lemma SliceClosed(writers: map<Tid, Writing>, readers: map<Tid, Reading>, takes: seq<Take>,
                    t: Tid, w: Writing, r: Tid, p: Reading)
    requires forall q :: q in readers && readers[q].RCopied? ==> q == r
    requires forall u :: u in writers && writers[u].WAck? ==> u == t
    requires !p.RCopied? && !w.WAck?
    ensures SliceInv(writers[t := w], readers[r := p], takes)
  {}

  lemma KeepAck(s: State, t: Tid, r: Tid)
    requires Inv(s) && Enabled(s, Ack(t, r))
    ensures Inv(Apply(s, Ack(t, r)))
  {
    hide LockInv, SliceInv, CountInv, OrderInv, ReadInv, TakenFrom;
    var s' := Apply(s, Ack(t, r));
    var w', p := s'.writers[t], s'.readers[r];
    AckMatches(s, t, r);
    SliceClosed(s.writers, s.readers, s.takes, t, w', r, p);
    CountUpdate(s.writers, s.takes, t, w');
    ReadIsOk(s.readers, s.takes, r);
    ReadUpdate(s.readers, s.takes, r, p);
    if w'.WDone? {
      LockReleased(s.writers, s.wrMu, s.order, t, w');
    } else {
      LockSame(s.writers, s.wrMu, s.order, t, w');
    }
  }

  lemma ReadIsOk(readers: map<Tid, Reading>, takes: seq<Take>, r: Tid)
    requires ReadInv(readers, takes) && r in readers
    ensures ReadOk(readers[r])
  {}

  // ---------- runs ----------

  lemma KeepInv(s: State, step: Step)
    requires Inv(s) && Enabled(s, step)
    ensures Inv(Apply(s, step))
  {
    hide Inv, Apply, Enabled;
    match step
    case Lock(t) => KeepLock(s, t);
    case Rendezvous(t, r) => KeepRendezvous(s, t, r);
    case Ack(t, r) => KeepAck(s, t, r);
    case StartWrite(_, _) => KeepWriterStep(s, step);
    case PassWrite(_) => KeepWriterStep(s, step);
    case FailWrite(_, _) => KeepWriterStep(s, step);
    case StartRead(_, _) => KeepReaderStep(s, step);
    case PassRead(_) => KeepReaderStep(s, step);
    case FailRead(_, _) => KeepReaderStep(s, step);
    case _ => KeepClosing(s, step);
  }

  /** Any interleaving: a list of steps each enabled where it happens. */
  ghost predicate IsRun(s: State, steps: seq<Step>, last: State)
    decreases |steps|
  {
    if steps == [] then s == last else Enabled(s, steps[0]) && IsRun(Apply(s, steps[0]), steps[1..], last)
  }

  lemma {:induction false} RunKeepsInv(s: State, steps: seq<Step>, last: State)
    requires Inv(s) && IsRun(s, steps, last)
    ensures Inv(last)
    decreases |steps|
  {
    hide Inv, Enabled, Apply;
    if steps != [] {
      KeepInv(s, steps[0]);
      RunKeepsInv(Apply(s, steps[0]), steps[1..], last);
    }
  }

  // ---------- what the invariant means ----------

  /** The bytes of a write that readers have had, as far as the write knows. */
  ghost function Consumed(s: State, t: Tid): bytes {
    if t !in s.writers then [] else
      match s.writers[t]
      case WOffer(d, n) => if n <= |d| then d[..n] else []
      case WDone(d, n, _) => if n <= |d| then d[..n] else []
      case WAck(d, n, r) =>
        if r in s.readers && s.readers[r].RCopied? && n + |s.readers[r].got| <= |d| then d[..n + |s.readers[r].got|]
        else []
      case _ => []
  }

  ghost function ConsumedInOrder(s: State, order: seq<Tid>): bytes {
    if order == [] then [] else ConsumedInOrder(s, order[..|order| - 1]) + Consumed(s, order[|order| - 1])
  }

  /** In every reachable state, the bytes read, in rendezvous order, are the consumed
      prefixes of the writes, in the order they got the write lock. */
  lemma PipeIsFifo(steps: seq<Step>, s: State)
    requires IsRun(START, steps, s)
    ensures Flat(s.takes) == ConsumedInOrder(s, s.order)
  {
    hide Inv, IsRun;
    InvAtStart();
    RunKeepsInv(START, steps, s);
    ByOrderConsumed(s, s.order);
    OrderIs(s);
  }

  lemma OrderIs(s: State)
    requires Inv(s)
    ensures Flat(s.takes) == ByOrder(s.order, s.takes)
  {}

  lemma {:induction false} ByOrderConsumed(s: State, order: seq<Tid>)
    requires Inv(s) && forall t :: t in order ==> t in s.order
    ensures ByOrder(order, s.takes) == ConsumedInOrder(s, order)
  {
    hide Inv, Consumed, TakenFrom;
    if order != [] {
      assert order[|order| - 1] in order;
      ConsumedIsTaken(s, order[|order| - 1]);
      ByOrderConsumed(s, order[..|order| - 1]);
    }
  }

  lemma ConsumedIsTaken(s: State, t: Tid)
    requires Inv(s) && t in s.order
    ensures Consumed(s, t) == TakenFrom(s.takes, t)
  {
    hide OrderInv, ReadInv, CloseInv, TakenFrom, Distinct;
    assert t in s.writers && Started(s.writers[t]);
    if s.writers[t].WAck? {
      var r := s.writers[t].peer;
      assert SliceOk(s.writers, s.takes, r, t, s.readers[r].got);
    } else {
      assert Counted(s.writers[t], TakenFrom(s.takes, t));
    }
  }

  /** A finished write reports exactly what was read from it, all of it when there is no
      error, and no reader still holds its slice. */
  lemma FinishedWrite(steps: seq<Step>, s: State, t: Tid)
    requires IsRun(START, steps, s) && t in s.writers && s.writers[t].WDone?
    ensures s.writers[t].n <= |s.writers[t].data|
    ensures TakenFrom(s.takes, t) == s.writers[t].data[..s.writers[t].n]
    ensures s.writers[t].err == NoErr ==> s.writers[t].n == |s.writers[t].data|
    ensures forall r :: r in s.readers && s.readers[r].RCopied? ==> s.readers[r].src != t
  {
    hide OrderInv, ReadInv, CloseInv, LockInv, TakenFrom, IsRun;
    InvAtStart();
    RunKeepsInv(START, steps, s);
    assert Counted(s.writers[t], TakenFrom(s.takes, t));
  }

  /** A finished read returns its own rendezvous, or an error and nothing. */
  lemma FinishedRead(steps: seq<Step>, s: State, r: Tid)
    requires IsRun(START, steps, s) && r in s.readers && s.readers[r].RDone?
    ensures |s.readers[r].got| <= s.readers[r].cap
    ensures s.readers[r].err != NoErr ==> s.readers[r].got == [] && r !in TakenBy(s.takes)
    ensures s.readers[r].err == NoErr ==>
      exists i :: 0 <= i < |s.takes| && s.takes[i].reader == r && s.takes[i].got == s.readers[r].got
  {
    hide OrderInv, CountInv, SliceInv, CloseInv, LockInv, TakenFrom, IsRun, OncePerReader;
    InvAtStart();
    RunKeepsInv(START, steps, s);
    assert ReadOk(s.readers[r]);
    if s.readers[r].err == NoErr {
      var i := EntryOf(s.takes, r);
      assert Logged(s.readers, s.takes[i]);
    }
  }

  lemma {:induction false} EntryOf(takes: seq<Take>, r: Tid) returns (i: nat)
    requires r in TakenBy(takes)
    ensures i < |takes| && takes[i].reader == r
  {
    if takes[|takes| - 1].reader == r {
      i := |takes| - 1;
    } else {
      i := EntryOf(takes[..|takes| - 1], r);
    }
  }
}
