/**
 * Weak interning: a map from keys to hidden addresses, finalizers that empty
 * it, and a flag that tells a finalizer it has lost a race with Get.
 *
 * A state machine over every interleaving of Get, copying and dropping of
 * references, the collector's conclusions and sweeps, and finalizer runs.
 * The collector is only assumed to be honest at the moment of a conclusion:
 * it may act on it later, when Get has handed the value out again.
 */
module Intern {

  /** The dynamic value handed to Get: nil, a string, or anything else that can be compared. */
  datatype Comparable = Nil | Text(s: string) | Other(id: int)

  datatype Key = Key(s: string, cmpVal: Comparable, isString: bool)

  function KeyFor(c: Comparable): Key {
    if c.Text? then Key(c.s, Nil, true) else Key("", c, false)
  }

  function CmpVal(k: Key): Comparable {
    if k.isString then Text(k.s) else k.cmpVal
  }

  type Addr = nat

  /** A finalizer is set, or queued by the collector, or has run and is gone. */
  datatype Finalizer = Set | Queued | Gone

  datatype Value = Value(
    cmpVal: Comparable,
    resurrected: bool,
    refs: nat,            // strong references held by callers
    finalizer: Finalizer,
    doomed: bool,         // the collector has concluded that it is unreachable
    freed: bool)

  datatype State = State(mem: seq<Value>, valMap: map<Key, Addr>)

  const EMPTY: State := State([], map[])

  datatype Step =
    | Get(c: Comparable)
    | Copy(v: Addr)
    | Drop(v: Addr)
    | Conclude(v: Addr)
    | Spare(v: Addr)
    | Sweep(v: Addr)
    | Finalize(v: Addr)

  predicate Enabled(s: State, step: Step) {
    match step
    case Get(c) => KeyFor(c) in s.valMap ==> s.valMap[KeyFor(c)] < |s.mem|
    case Copy(v) => v < |s.mem| && s.mem[v].refs > 0
    case Drop(v) => v < |s.mem| && s.mem[v].refs > 0
    case Conclude(v) => v < |s.mem| && s.mem[v].refs == 0 && s.mem[v].finalizer != Queued
    case Spare(v) => v < |s.mem|
    case Sweep(v) => v < |s.mem| && s.mem[v].doomed
    case Finalize(v) => v < |s.mem| && s.mem[v].finalizer == Queued
  }

  /** The address Get returns: the interned one, or the next free one. */
  function Result(s: State, c: Comparable): Addr {
    if KeyFor(c) in s.valMap then s.valMap[KeyFor(c)] else |s.mem|
  }

  function Update(s: State, v: Addr, x: Value): State
    requires v < |s.mem|
  {
    s.(mem := s.mem[v := x])
  }

  function Apply(s: State, step: Step): State
    requires Enabled(s, step)
  {
    match step
    case Get(c) =>
      var k := KeyFor(c);
      if k in s.valMap then
        var x := s.mem[s.valMap[k]];
        Update(s, s.valMap[k], x.(resurrected := true, refs := x.refs + 1))
      else
        State(s.mem + [Value(CmpVal(k), false, 1, Set, false, false)], s.valMap[k := |s.mem|])
    case Copy(v) => Update(s, v, s.mem[v].(refs := s.mem[v].refs + 1))
    case Drop(v) => Update(s, v, s.mem[v].(refs := s.mem[v].refs - 1))
    case Conclude(v) => Update(s, v, s.mem[v].(doomed := true))
    case Spare(v) => Update(s, v, s.mem[v].(doomed := false))
    case Sweep(v) =>
      if s.mem[v].finalizer == Set then Update(s, v, s.mem[v].(doomed := false, finalizer := Queued))
      else Update(s, v, s.mem[v].(freed := true))
    case Finalize(v) =>
      if s.mem[v].resurrected then Update(s, v, s.mem[v].(resurrected := false, finalizer := Set))
      else Update(s, v, s.mem[v].(finalizer := Gone)).(valMap := s.valMap - {KeyFor(s.mem[v].cmpVal)})
  }

  /** String keys are told apart from all others, and a value remembers what its key was made from. */
  lemma KeyForInjective(c: Comparable, d: Comparable)
    ensures KeyFor(c) == KeyFor(d) <==> c == d
    ensures CmpVal(KeyFor(c)) == c
  {}

  // ---------------------------------------------------------------- invariant

  ghost predicate ValueOk(s: State, v: Addr)
    requires v < |s.mem|
  {
    var x := s.mem[v];
    var k := KeyFor(x.cmpVal);
    && (x.finalizer != Gone <==> k in s.valMap && s.valMap[k] == v)
    && (x.refs > 0 && (x.doomed || x.finalizer == Queued) ==> x.resurrected)
    && (x.finalizer == Gone ==> x.refs == 0)
    && (x.doomed ==> x.finalizer != Queued)
    && (x.freed ==> x.finalizer == Gone)
  }

  ghost predicate KeyOk(s: State, k: Key)
    requires k in s.valMap
  {
    s.valMap[k] < |s.mem| && KeyFor(s.mem[s.valMap[k]].cmpVal) == k
  }

  ghost predicate Inv(s: State) {
    && (forall v :: 0 <= v < |s.mem| ==> ValueOk(s, v))
    && (forall k :: k in s.valMap ==> KeyOk(s, k))
  }

  lemma KeepKey(s: State, step: Step, k: Key)
    requires Inv(s) && Enabled(s, step) && k in Apply(s, step).valMap
    ensures KeyOk(Apply(s, step), k)
  {
    if k in s.valMap {
      assert KeyOk(s, k);
    } else {
      KeyForInjective(step.c, step.c);
    }
  }

  lemma KeepValue(s: State, step: Step, v: Addr)
    requires Inv(s) && Enabled(s, step) && v < |s.mem|
    ensures ValueOk(Apply(s, step), v)
  {
    assert ValueOk(s, v);
    if step.Get? {
      KeepValueAtGet(s, step.c, v);
    } else if step.Finalize? {
      assert ValueOk(s, step.v);
    }
  }

  lemma KeepValueAtGet(s: State, c: Comparable, v: Addr)
    requires Inv(s) && v < |s.mem| && Enabled(s, Get(c))
    ensures ValueOk(Apply(s, Get(c)), v)
  {
    hide KeyFor;
    assert ValueOk(s, v);
    if KeyFor(c) in s.valMap {
      assert KeyOk(s, KeyFor(c));
      assert ValueOk(s, s.valMap[KeyFor(c)]);
    }
  }

  lemma KeepInv(s: State, step: Step)
    requires Inv(s) && Enabled(s, step)
    ensures Inv(Apply(s, step))
  {
    hide ValueOk, KeyOk;
    var s' := Apply(s, step);
    forall k | k in s'.valMap
      ensures KeyOk(s', k)
    {
      KeepKey(s, step, k);
    }
    forall v | 0 <= v < |s'.mem|
      ensures ValueOk(s', v)
    {
      if v < |s.mem| {
        KeepValue(s, step, v);
      } else {
        NewValue(s, step.c);
      }
    }
  }

  lemma NewValue(s: State, c: Comparable)
    requires KeyFor(c) !in s.valMap
    ensures ValueOk(Apply(s, Get(c)), |s.mem|)
  {
    KeyForInjective(c, c);
  }

  ghost predicate IsRun(s: State, steps: seq<Step>, last: State)
    decreases |steps|
  {
    if steps == [] then s == last else Enabled(s, steps[0]) && IsRun(Apply(s, steps[0]), steps[1..], last)
  }

  lemma {:induction false} RunKeepsInv(s: State, steps: seq<Step>, last: State)
    requires Inv(s) && IsRun(s, steps, last)
    ensures Inv(last)
    decreases |steps|
  {
    hide Inv, Apply, Enabled;
    if steps != [] {
      KeepInv(s, steps[0]);
      RunKeepsInv(Apply(s, steps[0]), steps[1..], last);
    }
  }

  // ---------------------------------------------------------------- what callers rely on

  /** Get never returns a freed value; what it returns compares as asked, and the same again until it is dropped. */
  lemma GetIsSafe(steps: seq<Step>, s: State, c: Comparable)
    requires IsRun(EMPTY, steps, s)
    ensures Enabled(s, Get(c))
    ensures var v, s' := Result(s, c), Apply(s, Get(c));
      && v < |s'.mem| && !s'.mem[v].freed && s'.mem[v].refs > 0 && s'.mem[v].cmpVal == c
      && Result(s', c) == v
  {
    RunKeepsInv(EMPTY, steps, s);
    KeyForInjective(c, c);
    if KeyFor(c) in s.valMap {
      assert KeyOk(s, KeyFor(c));
      assert ValueOk(s, s.valMap[KeyFor(c)]);
      KeyForInjective(c, s.mem[s.valMap[KeyFor(c)]].cmpVal);
    }
  }

  /** A held value is alive, and it is the interned one of its key. */
  lemma HeldIsInterned(steps: seq<Step>, s: State, v: Addr)
    requires IsRun(EMPTY, steps, s) && v < |s.mem| && s.mem[v].refs > 0
    ensures !s.mem[v].freed
    ensures KeyFor(s.mem[v].cmpVal) in s.valMap && s.valMap[KeyFor(s.mem[v].cmpVal)] == v
  {
    RunKeepsInv(EMPTY, steps, s);
    assert ValueOk(s, v);
  }

  /** Two held values are the same pointer exactly when they hold equal values. */
  lemma PointersCompareLikeValues(steps: seq<Step>, s: State, v: Addr, w: Addr)
    requires IsRun(EMPTY, steps, s) && v < |s.mem| && w < |s.mem|
    requires s.mem[v].refs > 0 && s.mem[w].refs > 0
    ensures v == w <==> s.mem[v].cmpVal == s.mem[w].cmpVal
  {
    HeldIsInterned(steps, s, v);
    HeldIsInterned(steps, s, w);
  }

  /** The key invariant: a held value whose finalizer is queued, or soon will be, is flagged. */
  lemma HeldIsResurrected(steps: seq<Step>, s: State, v: Addr)
    requires IsRun(EMPTY, steps, s) && v < |s.mem| && s.mem[v].refs > 0
    ensures s.mem[v].doomed || s.mem[v].finalizer == Queued ==> s.mem[v].resurrected
  {
    RunKeepsInv(EMPTY, steps, s);
    assert ValueOk(s, v);
  }

  /** A pointer once handed out stays good while it is held: no step frees it or interns another for its value. */
  lemma HeldStays(steps: seq<Step>, s: State, v: Addr, step: Step)
    requires IsRun(EMPTY, steps, s) && v < |s.mem| && s.mem[v].refs > 0 && Enabled(s, step)
    requires step == Drop(v) ==> s.mem[v].refs > 1
    ensures var s' := Apply(s, step);
      && s'.mem[v].refs > 0 && !s'.mem[v].freed && s'.mem[v].cmpVal == s.mem[v].cmpVal
      && Result(s', s.mem[v].cmpVal) == v
  {
    hide IsRun;
    RunKeepsInv(EMPTY, steps, s);
    KeepInv(s, step);
    assert ValueOk(s, v);
    assert ValueOk(Apply(s, step), v);
  }

  // ---------------------------------------------------------------- nothing is kept for ever

  lemma {:induction false} RunJoin(s: State, first: seq<Step>, middle: State, second: seq<Step>, last: State)
    requires IsRun(s, first, middle) && IsRun(middle, second, last)
    ensures IsRun(s, first + second, last)
    decreases |first|
  {
    hide Apply, Enabled;
    if first == [] {
      assert first + second == second;
    } else {
      assert (first + second)[1..] == first[1..] + second;
      RunJoin(Apply(s, first[0]), first[1..], middle, second, last);
    }
  }

  lemma OneStep(s: State, step: Step)
    requires Enabled(s, step)
    ensures IsRun(s, [step], Apply(s, step))
  {
    assert [step][1..] == [];
    assert IsRun(Apply(s, step), [], Apply(s, step));
  }

  /** How many collector steps an unheld value is away from being freed. */
  function Distance(x: Value): nat {
    if x.freed then 0
    else match x.finalizer
      case Gone => if x.doomed then 1 else 2
      case Queued => if x.resurrected then 6 else 3
      case Set => (if x.doomed then 1 else 2) + if x.resurrected then 6 else 3
  }

  /** The collector step that brings an unheld value closer to being freed. */
  function Closer(x: Value, v: Addr): Step {
    if x.finalizer == Queued then Finalize(v) else if x.doomed then Sweep(v) else Conclude(v)
  }

  /** An unheld value can always be collected, in at most eight collector steps with no help from callers. */
  lemma {:induction false} Collectable(s: State, v: Addr) returns (steps: seq<Step>, last: State)
    requires Inv(s) && v < |s.mem| && s.mem[v].refs == 0
    ensures IsRun(s, steps, last) && v < |last.mem| && last.mem[v].freed
    ensures |steps| == Distance(s.mem[v]) <= 8
    ensures forall i :: 0 <= i < |steps| ==> steps[i] in {Conclude(v), Sweep(v), Finalize(v)}
    decreases Distance(s.mem[v])
  {
    assert ValueOk(s, v);
    if s.mem[v].freed {
      steps, last := [], s;
    } else {
      var step := Closer(s.mem[v], v);
      var s' := Apply(s, step);
      KeepInv(s, step);
      var rest, end := Collectable(s', v);
      OneStep(s, step);
      RunJoin(s, [step], s', rest, end);
      steps, last := [step] + rest, end;
    }
  }
}
