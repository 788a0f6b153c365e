/**
 * PipeDeadline: Set replaces the timer under a mutex, while the callback of a
 * timer closes the current cancel channel without the mutex.
 *
 * A state machine over every interleaving of Set calls and timer callbacks.
 * A callback reads the channel field and closes it in two separate steps, and
 * Set is cut at the point where it may have to wait for a running callback.
 */
module Deadline {
  import opened Options

  type Chan = nat
  type TimerId = nat

  datatype When = Never | Later | Already

  datatype Timer = Armed | Firing | Loaded(ch: Chan) | Fired | Stopped

  /** Where the holder of the mutex is: nowhere, waiting for a callback, or past that point. */
  datatype Phase = Idle | Waiting(t: When) | Ready(t: When)

  datatype State = State(
    cancel: Chan,
    closed: set<Chan>,
    timer: Option<TimerId>,
    timers: seq<Timer>,     // every timer ever made
    made: nat,              // how many channels have been made
    phase: Phase,
    armedOn: seq<Chan>,     // the channel in the field when each timer was armed
    inForce: When)          // the deadline of the last finished Set

  datatype Step =
    | BeginSet(t: When)
    | EndWait
    | FinishSet
    | Fire(tm: TimerId)
    | Load(tm: TimerId)
    | CloseChan(tm: TimerId)

  const START: State := State(0, {}, None, [], 1, Idle, [], Never)

  predicate Enabled(s: State, step: Step) {
    match step
    case BeginSet(_) => s.phase.Idle?
    case EndWait => s.phase.Waiting? && s.cancel in s.closed
    case FinishSet => s.phase.Ready?
    case Fire(tm) => tm < |s.timers| && s.timers[tm].Armed?
    case Load(tm) => tm < |s.timers| && s.timers[tm].Firing?
    case CloseChan(tm) => tm < |s.timers| && s.timers[tm].Loaded?
  }

  /** A channel to wait on: the old one, or a new one when the old one is closed. */
  function Renewed(s: State): State {
    if s.cancel in s.closed then s.(cancel := s.made, made := s.made + 1) else s
  }

  function Apply(s: State, step: Step): State
    requires Enabled(s, step)
  {
    match step
    case BeginSet(t) =>
      if s.timer.None? || s.timer.value >= |s.timers| then s.(phase := Ready(t))
      else if s.timers[s.timer.value].Armed? then
        s.(timers := s.timers[s.timer.value := Stopped], phase := Ready(t))
      else s.(phase := Waiting(t))
    case EndWait => s.(phase := Ready(s.phase.t))
    case FinishSet =>
      var s0 := s.(timer := None, phase := Idle, inForce := s.phase.t);
      (match s.phase.t
       case Never => Renewed(s0)
       case Later =>
         var s1 := Renewed(s0);
         s1.(timer := Some(|s.timers|), timers := s.timers + [Armed], armedOn := s.armedOn + [s1.cancel])
       case Already => s0.(closed := s.closed + {s.cancel}))
    case Fire(tm) => s.(timers := s.timers[tm := Firing])
    case Load(tm) => s.(timers := s.timers[tm := Loaded(s.cancel)])
    case CloseChan(tm) => s.(timers := s.timers[tm := Fired], closed := s.closed + {s.timers[tm].ch})
  }

  /** The channel this step closes, if any. */
  function Closes(s: State, step: Step): Option<Chan>
    requires Enabled(s, step)
  {
    if step.CloseChan? then Some(s.timers[step.tm].ch)
    else if step.FinishSet? && s.phase.t == Already && s.cancel !in s.closed then Some(s.cancel)
    else None
  }

  ghost predicate TimerOk(s: State, tm: TimerId)
    requires tm < |s.timers| == |s.armedOn|
  {
    match s.timers[tm]
    case Armed => s.timer == Some(tm) && s.phase.Idle? && s.cancel !in s.closed && s.armedOn[tm] == s.cancel
    case Firing => s.timer == Some(tm) && !s.phase.Ready? && s.cancel !in s.closed && s.armedOn[tm] == s.cancel
    case Loaded(ch) =>
      s.timer == Some(tm) && !s.phase.Ready? && s.cancel !in s.closed && s.armedOn[tm] == s.cancel == ch
    case Fired => s.armedOn[tm] in s.closed && (s.timer == Some(tm) ==> s.armedOn[tm] == s.cancel)
    case Stopped => s.timer == Some(tm) ==> s.phase.Ready? && s.cancel !in s.closed
  }

  ghost predicate Inv(s: State) {
    && |s.armedOn| == |s.timers|
    && (s.timer.Some? ==> s.timer.value < |s.timers|)
    && (forall tm :: 0 <= tm < |s.timers| ==> TimerOk(s, tm))
    && s.cancel < s.made && (forall ch :: ch in s.closed ==> ch < s.made)
    && (s.phase.Waiting? ==> s.timer.Some?)
    && (s.phase.Idle? ==>
          match s.inForce
          case Never => s.timer == None && s.cancel !in s.closed
          case Later => s.timer.Some?
          case Already => s.timer == None && s.cancel in s.closed)
  }

  lemma KeepInv(s: State, step: Step)
    requires Inv(s) && Enabled(s, step)
    ensures Inv(Apply(s, step))
  {
    var s' := Apply(s, step);
    if step.Fire? || step.Load? || step.CloseChan? {
      assert TimerOk(s, step.tm);
    }
    if s.timer.Some? {
      assert TimerOk(s, s.timer.value);
    }
    forall tm | 0 <= tm < |s'.timers|
      ensures TimerOk(s', tm)
    {
      if tm < |s.timers| {
        assert TimerOk(s, tm);
      }
    }
  }

  /** No channel is ever closed twice, and a callback closes only the channel its own Set left. */
  lemma CloseOnce(s: State, step: Step)
    requires Inv(s) && Enabled(s, step) && Closes(s, step).Some?
    ensures Closes(s, step).value !in s.closed
    ensures Apply(s, step).closed == s.closed + {Closes(s, step).value}
    ensures step.CloseChan? ==> Closes(s, step).value == s.armedOn[step.tm] == s.cancel
  {
    if step.CloseChan? {
      assert TimerOk(s, step.tm);
    }
  }

  /** Steps that close nothing leave the closed channels alone. */
  lemma OtherwiseUnclosed(s: State, step: Step)
    requires Enabled(s, step) && Closes(s, step).None?
    ensures Apply(s, step).closed == s.closed
  {}

  ghost predicate IsRun(s: State, steps: seq<Step>, last: State)
    decreases |steps|
  {
    if steps == [] then s == last else Enabled(s, steps[0]) && IsRun(Apply(s, steps[0]), steps[1..], last)
  }

  lemma {:induction false} RunKeepsInv(s: State, steps: seq<Step>, last: State)
    requires Inv(s) && IsRun(s, steps, last)
    ensures Inv(last)
    decreases |steps|
  {
    hide Inv, Apply, Enabled;
    if steps != [] {
      KeepInv(s, steps[0]);
      RunKeepsInv(Apply(s, steps[0]), steps[1..], last);
    }
  }

  /** Between Sets, Wait's channel is closed exactly when the deadline in force has passed. */
  lemma WaitIsExact(steps: seq<Step>, s: State)
    requires IsRun(START, steps, s) && s.phase.Idle?
    ensures s.inForce == Later ==> s.timer.Some? && s.timer.value < |s.timers|
    ensures s.cancel in s.closed <==> s.inForce == Already || (s.inForce == Later && s.timers[s.timer.value].Fired?)
  {
    RunKeepsInv(START, steps, s);
    if s.timer.Some? {
      assert TimerOk(s, s.timer.value);
    }
  }

  /** A Set that waits is never stuck: its channel is closed, or the running callback can go on. */
  lemma WaitingProgresses(steps: seq<Step>, s: State)
    requires IsRun(START, steps, s) && s.phase.Waiting?
    ensures Enabled(s, EndWait) ||
            (s.timer.Some? && (Enabled(s, Load(s.timer.value)) || Enabled(s, CloseChan(s.timer.value))))
  {
    RunKeepsInv(START, steps, s);
    assert TimerOk(s, s.timer.value);
  }
}
