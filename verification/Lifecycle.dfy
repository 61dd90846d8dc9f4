/**
 Starting a program's subsystems in order and tearing them down in reverse
 (desktop/src/app/lifecycle.cpp and lifecycle.hpp).

 A callback is what it does to the lifecycle: the calls it makes back into the same object, and for a start
 callback the failure it reports, if any.
 */
module Lifecycle {
  import opened Wrappers

  datatype Phase = Created | Starting | Running | ShuttingDown | Stopped | Failed

  /** Every error with what its text names; `Reported` is a start callback's own. */
  datatype Error =
    | NoName
    | NoStart(step: string)
    | TooLate(step: string, at: Phase)
    | CannotStart(at: Phase)
    | CannotShutDown(at: Phase)
    | Reported(code: int, detail: string)
    | StepFailed(step: string, cause: Error)

  type Status = Result<(), Error>

  datatype Call = AddStep(name: string, start: Option<StartFn>, stop: Option<StopFn>) | Start | Shutdown
  datatype StartFn = StartFn(calls: seq<Call>, failure: Option<Error>)
  datatype StopFn = StopFn(calls: seq<Call>)
  datatype Step = Step(name: string, start: StartFn, stop: Option<StopFn>)

  /** What happened to the step at a position. */
  datatype Event = Up(step: nat) | StartFailed(step: nat) | Down(step: nat)

  datatype Machine = Machine(phase: Phase, steps: seq<Step>, started: seq<string>, trace: seq<Event>)

  const FRESH := Machine(Created, [], [], [])

  predicate Busy(phase: Phase) {
    phase == Starting || phase == ShuttingDown
  }

  // ----- What a call does -----

  /** The first step from `from` on that will report a failure, or the number of steps. */
  function FirstFailing(steps: seq<Step>, from: nat): (k: nat)
    requires from <= |steps|
    ensures from <= k <= |steps|
    ensures forall i | from <= i < k :: steps[i].start.failure.None?
    ensures k < |steps| ==> steps[k].start.failure.Some?
    decreases |steps| - from
  {
    if from == |steps| || steps[from].start.failure.Some? then from else FirstFailing(steps, from + 1)
  }

  function Ups(n: nat): (events: seq<Event>)
    ensures |events| == n && forall i | 0 <= i < n :: events[i] == Up(i)
  {
    if n == 0 then [] else Ups(n - 1) + [Up(n - 1)]
  }

  /** The first n steps taken down, last first, passing over those without a stop callback. */
  function Downs(steps: seq<Step>, n: nat): seq<Event>
    requires n <= |steps|
  {
    if n == 0 then []
    else (if steps[n - 1].stop.Some? then [Down(n - 1)] else []) + Downs(steps, n - 1)
  }

  function Names(steps: seq<Step>): (names: seq<string>)
    ensures |names| == |steps| && forall i | 0 <= i < |steps| :: names[i] == steps[i].name
  {
    if steps == [] then [] else Names(steps[..|steps| - 1]) + [steps[|steps| - 1].name]
  }

  lemma FailingUnfold(steps: seq<Step>, i: nat)
    requires i <= |steps|
    ensures i == |steps| || steps[i].start.failure.Some? ==> FirstFailing(steps, i) == i
    ensures i < |steps| && steps[i].start.failure.None? ==> FirstFailing(steps, i) == FirstFailing(steps, i + 1)
  {
  }

  /** How the trace and the names grow when step i comes up. */
  lemma StartUnfold(steps: seq<Step>, i: nat)
    requires i <= |steps|
    ensures Ups(0) == [] && Names(steps[..0]) == []
    ensures i < |steps| ==> Ups(i + 1) == Ups(i) + [Up(i)]
    ensures i < |steps| ==> Names(steps[..i + 1]) == Names(steps[..i]) + [steps[i].name]
  {
    if i < |steps| { assert steps[..i + 1][..i] == steps[..i]; }
  }

  /** Why a phase refuses a call; None where it is let through. */
  function Refusal(phase: Phase, call: Call): Option<Error> {
    match call
    case AddStep(name, start, _) =>
      if name == "" then Some(NoName)
      else if start.None? then Some(NoStart(name))
      else if phase != Created then Some(TooLate(name, phase))
      else None
    case Start => if phase != Created then Some(CannotStart(phase)) else None
    case Shutdown => if phase != Running then Some(CannotShutDown(phase)) else None
  }

  /** The machine after a call, and the answer to it. */
  function Answer(m: Machine, call: Call): (Machine, Status)
    requires Consistent(m)
  {
    var refusal := Refusal(m.phase, call);
    if refusal.Some? then (m, Failure(refusal.value))
    else match call
      case AddStep(name, start, stop) => (m.(steps := m.steps + [Step(name, start.value, stop)]), Success(()))
      case Start =>
        var k := FirstFailing(m.steps, 0);
        if k == |m.steps| then
          (m.(phase := Running, started := Names(m.steps), trace := m.trace + Ups(k)), Success(()))
        else
          var step := m.steps[k];
          (m.(phase := Failed, trace := m.trace + Ups(k) + [StartFailed(k)] + Downs(m.steps, k)),
           Failure(StepFailed(step.name, step.start.failure.value)))
      case Shutdown =>
        (m.(phase := Stopped, started := [], trace := m.trace + Downs(m.steps, |m.started|)), Success(()))
  }

  /** `started` is indexed against `steps` by position. */
  ghost predicate Consistent(m: Machine) {
    && (m.phase == Created ==> m.started == [])
    && |m.started| <= |m.steps|
  }

  // ----- Whole runs -----

  /** What the trace of a machine between calls looks like. */
  ghost predicate Ordered(m: Machine) {
    match m.phase
    case Created => m.trace == [] && m.started == []
    case Starting => false
    case Running =>
      m.trace == Ups(|m.steps|) && m.started == Names(m.steps) && FirstFailing(m.steps, 0) == |m.steps|
    case ShuttingDown => false
    case Stopped =>
      m.trace == Ups(|m.steps|) + Downs(m.steps, |m.steps|) && m.started == [] &&
      FirstFailing(m.steps, 0) == |m.steps|
    case Failed =>
      var k := FirstFailing(m.steps, 0);
      k < |m.steps| && m.trace == Ups(k) + [StartFailed(k)] + Downs(m.steps, k) && m.started == []
  }

  lemma CallKeepsOrder(m: Machine, call: Call)
    requires Ordered(m)
    ensures Consistent(m) && Ordered(Answer(m, call).0)
  {
    hide FirstFailing, Ups, Downs, Names;
    assert forall events: seq<Event> :: [] + events == events;
  }

  /** A sequence of calls from outside, each made after the one before has returned. */
  ghost function Run(m: Machine, calls: seq<Call>): (end: Machine)
    requires Ordered(m)
    ensures Ordered(end)
    decreases calls
  {
    if calls == [] then m
    else
      CallKeepsOrder(m, calls[0]);
      Run(Answer(m, calls[0]).0, calls[1..])
  }

  /** No event twice; starts first and forwards; stops last and backwards. */
  ghost predicate InOrder(trace: seq<Event>) {
    && (forall i, j | 0 <= i < j < |trace| :: trace[i] != trace[j])
    && (forall i, j | 0 <= i < j < |trace| && trace[j].Up? :: trace[i].Up? && trace[i].step < trace[j].step)
    && (forall i, j | 0 <= i < j < |trace| && trace[i].Down? :: trace[j].Down? && trace[j].step < trace[i].step)
  }

  /** Which events a run may show: a step is taken down exactly when it came up, it can be and the run is over;
      the one that failed never is. */
  ghost predicate Disciplined(m: Machine) {
    && InOrder(m.trace)
    && (forall s: nat | Up(s) in m.trace :: s < |m.steps| && m.steps[s].start.failure.None?)
    && (m.phase == Failed <==> exists s: nat :: StartFailed(s) in m.trace)
    && (forall s: nat | StartFailed(s) in m.trace ::
          && s < |m.steps| && m.steps[s].start.failure.Some? && Down(s) !in m.trace
          && forall i: nat :: Up(i) in m.trace <==> i < s)
    && (forall s: nat :: Down(s) in m.trace <==>
          (m.phase == Stopped || m.phase == Failed) && Up(s) in m.trace && m.steps[s].stop.Some?)
    && (m.phase == Created ==> m.trace == [])
    && (m.phase == Running || m.phase == Stopped ==> forall s | 0 <= s < |m.steps| :: Up(s) in m.trace)
    && m.started == (if m.phase == Running then Names(m.steps) else [])
    && m.phase != Starting && m.phase != ShuttingDown
  }

  /** The first n steps with a stop callback, each once, last first. */
  ghost predicate AreDowns(events: seq<Event>, steps: seq<Step>, n: nat)
    requires n <= |steps|
  {
    && (forall e | e in events :: e.Down? && e.step < n)
    && (forall s: nat :: Down(s) in events <==> s < n && steps[s].stop.Some?)
    && (forall i, j | 0 <= i < j < |events| :: events[j].step < events[i].step)
  }

  lemma {:induction false} DownsMeaning(steps: seq<Step>, n: nat)
    requires n <= |steps|
    ensures AreDowns(Downs(steps, n), steps, n)
  {
    if n > 0 {
      DownsMeaning(steps, n - 1);
      DownsUnfold(steps, n);
      DownFirst(steps, n, Downs(steps, n - 1), Downs(steps, n));
    }
  }

  lemma DownsUnfold(steps: seq<Step>, n: nat)
    requires 0 < n <= |steps|
    ensures Downs(steps, n) ==
            if steps[n - 1].stop.Some? then [Down(n - 1)] + Downs(steps, n - 1) else Downs(steps, n - 1)
  {
  }

  lemma DownFirst(steps: seq<Step>, n: nat, rest: seq<Event>, all: seq<Event>)
    requires 0 < n <= |steps| && AreDowns(rest, steps, n - 1)
    requires all == if steps[n - 1].stop.Some? then [Down(n - 1)] + rest else rest
    ensures AreDowns(all, steps, n)
  {
    if steps[n - 1].stop.Some? {
      assert forall e :: e in all <==> e == Down(n - 1) || e in rest;
    }
  }

  lemma UpsMeaning(n: nat)
    ensures forall e :: e in Ups(n) <==> e.Up? && e.step < n
  {
    forall s: nat | s < n ensures Up(s) in Ups(n) { assert Ups(n)[s] == Up(s); }
  }

  lemma FullTraceInOrder(steps: seq<Step>, k: nat, between: seq<Event>)
    requires k <= |steps| && (between == [] || between == [StartFailed(k)])
    ensures InOrder(Ups(k) + between + Downs(steps, k))
    ensures forall e :: e in Ups(k) + between + Downs(steps, k) <==>
              (e.Up? && e.step < k) || e in between || (e.Down? && e.step < k && steps[e.step].stop.Some?)
  {
    var ups, downs := Ups(k), Downs(steps, k);
    UpsMeaning(k);
    DownsMeaning(steps, k);
    hide Ups, Downs;
    forall e ensures e in downs <==> e.Down? && e.step < k && steps[e.step].stop.Some? {
      if e.Down? { assert e == Down(e.step); }
    }
    InOrderParts(ups, between, downs);
  }

  lemma InOrderParts(ups: seq<Event>, between: seq<Event>, downs: seq<Event>)
    requires forall i | 0 <= i < |ups| :: ups[i] == Up(i)
    requires |between| <= 1 && forall e | e in between :: e.StartFailed?
    requires forall i | 0 <= i < |downs| :: downs[i].Down?
    requires forall i, j | 0 <= i < j < |downs| :: downs[j].step < downs[i].step
    ensures InOrder(ups + between + downs)
  {
    var trace := ups + between + downs;
    var a, b := |ups|, |ups| + |between|;
    forall i | 0 <= i < |trace|
      ensures i < a ==> trace[i] == Up(i)
      ensures a <= i < b ==> trace[i].StartFailed?
      ensures b <= i ==> trace[i] == downs[i - b]
    {
    }
  }

  lemma OrderedIsDisciplined(m: Machine)
    requires Ordered(m)
    ensures Disciplined(m)
  {
    hide FirstFailing, Ups, Downs, InOrder;
    match m.phase {
      case Created => EmptyInOrder();
      case Running => RunningIsDisciplined(m);
      case Stopped => StoppedIsDisciplined(m);
      case Failed => FailedIsDisciplined(m);
    }
  }

  lemma RunningIsDisciplined(m: Machine)
    requires Ordered(m) && m.phase == Running
    ensures Disciplined(m)
  {
    hide FirstFailing, Ups, Downs, InOrder;
    var k := FirstFailing(m.steps, 0);
    UpsMeaning(k);
    InOrderParts(Ups(k), [], []);
    assert Ups(k) + [] + [] == m.trace;
  }

  lemma StoppedIsDisciplined(m: Machine)
    requires Ordered(m) && m.phase == Stopped
    ensures Disciplined(m)
  {
    hide FirstFailing, Ups, Downs, InOrder;
    var k := FirstFailing(m.steps, 0);
    FullTraceInOrder(m.steps, k, []);
    assert Ups(k) + [] + Downs(m.steps, k) == m.trace;
  }

  lemma FailedIsDisciplined(m: Machine)
    requires Ordered(m) && m.phase == Failed
    ensures Disciplined(m)
  {
    hide FirstFailing, Ups, Downs, InOrder;
    var k := FirstFailing(m.steps, 0);
    FullTraceInOrder(m.steps, k, [StartFailed(k)]);
    assert StartFailed(k) in m.trace;
  }

  lemma EmptyInOrder()
    ensures InOrder([])
  {
  }

  /** Whatever is called and in whatever order, starts come in registration order, then stops in the exact
      reverse of the steps that came up, each at most once and never for the step that failed. */
  lemma EveryRunIsDisciplined(calls: seq<Call>)
    ensures Disciplined(Run(FRESH, calls))
  {
    OrderedIsDisciplined(Run(FRESH, calls));
  }

  /** Stopped and Failed are left by no call: every one is refused. */
  /** Which calls are refused, and with what; a refused call changes nothing. */
  lemma RefusedExactly(m: Machine, call: Call)
    requires Consistent(m) && (call.Start? ==> FirstFailing(m.steps, 0) == |m.steps|)
    ensures var (after, status) := Answer(m, call);
      && (status.Failure? ==> after == m)
      && match call
         case AddStep(name, start, _) =>
           && (status.Success? <==> name != "" && start.Some? && m.phase == Created)
           && (status == Failure(NoName) <==> name == "")
           && (status == Failure(NoStart(name)) <==> name != "" && start.None?)
           && (status == Failure(TooLate(name, m.phase)) <==> name != "" && start.Some? && m.phase != Created)
         case Start => status == if m.phase == Created then Success(()) else Failure(CannotStart(m.phase))
         case Shutdown => status == if m.phase == Running then Success(()) else Failure(CannotShutDown(m.phase))
  {
    hide FirstFailing, Ups, Downs, Names;
  }

  predicate IsProper(call: Call) {
    call.AddStep? && call.name != "" && call.start.Some?
  }

  /** Steps are kept as they were registered, in order. */
  lemma {:induction false} Registers(m: Machine, calls: seq<Call>)
    requires m.phase == Created && Ordered(m) && forall i | 0 <= i < |calls| :: IsProper(calls[i])
    ensures var after := Run(m, calls);
      && after.phase == Created && |after.steps| == |m.steps| + |calls| && m.steps <= after.steps
      && forall i | 0 <= i < |calls| && IsProper(calls[i]) ::
           after.steps[|m.steps| + i] == Step(calls[i].name, calls[i].start.value, calls[i].stop)
    decreases calls
  {
    hide FirstFailing, Ups, Downs, Names;
    if calls != [] {
      CallKeepsOrder(m, calls[0]);
      var rest := calls[1..];
      Registers(Answer(m, calls[0]).0, rest);
      assert forall i | 0 < i < |calls| :: calls[i] == rest[i - 1];
    }
  }

  lemma {:induction false} TerminalIsAbsorbing(m: Machine, calls: seq<Call>)
    requires Ordered(m) && (m.phase == Stopped || m.phase == Failed)
    ensures Run(m, calls) == m && m.started == []
    ensures forall call | call in calls :: Answer(m, call) == (m, Failure(Refusal(m.phase, call).value))
  {
    if calls != [] {
      assert Answer(m, calls[0]).0 == m;
      TerminalIsAbsorbing(m, calls[1..]);
    }
  }

  /** Start succeeds exactly when it is the first start and no step will fail; the error names the first one
      that does, and every step before it comes up and goes down again. */
  lemma StartMeaning(m: Machine)
    requires Ordered(m)
    ensures Consistent(m)
    ensures Answer(m, Start).1.Success? <==>
            m.phase == Created && forall i | 0 <= i < |m.steps| :: m.steps[i].start.failure.None?
    ensures m.phase == Created && Answer(m, Start).1.Failure? ==>
              exists k | 0 <= k < |m.steps| ::
                && m.steps[k].start.failure.Some?
                && Answer(m, Start).1.error == StepFailed(m.steps[k].name, m.steps[k].start.failure.value)
                && (forall i | 0 <= i < k :: Up(i) in Answer(m, Start).0.trace && m.steps[i].start.failure.None?)
                && (forall i | k <= i < |m.steps| :: Up(i) !in Answer(m, Start).0.trace)
  {
    CallKeepsOrder(m, Start);
    var k := FirstFailing(m.steps, 0);
    UpsMeaning(k);
    DownsMeaning(m.steps, k);
    if m.phase == Created && k < |m.steps| {
      assert Answer(m, Start).0.trace == Ups(k) + [StartFailed(k)] + Downs(m.steps, k);
    }
  }

  // ----- The source's object -----

  class Lifecycle {
    var phase: Phase
    var steps: seq<Step>
    var started: seq<string>
    ghost var trace: seq<Event>

    ghost function View(): Machine
      reads this
    {
      Machine(phase, steps, started, trace)
    }

    ghost function Rank(): nat
      reads this
    {
      if Busy(phase) then 0 else 1
    }

    constructor ()
      ensures View() == FRESH
    {
      phase, steps, started, trace := Created, [], [], [];
    }

    method AddStep(name: string, start: Option<StartFn>, stop: Option<StopFn>) returns (r: Status)
      requires Consistent(View())
      modifies this
      ensures (View(), r) == Answer(old(View()), Call.AddStep(name, start, stop))
    {
      if name == "" { return Failure(NoName); }
      if start.None? { return Failure(NoStart(name)); }
      if phase != Created { return Failure(TooLate(name, phase)); }
      steps := steps + [Step(name, start.value, stop)];
      return Success(());
    }

    method Start() returns (r: Status)
      requires Consistent(View())
      modifies this
      ensures (View(), r) == Answer(old(View()), Call.Start)
      decreases Rank(), 0
    {
      if phase != Created { return Failure(CannotStart(phase)); }
      phase := Starting;
      var k := StartSteps();
      if k < |steps| {
        var step := steps[k];
        Unwind();
        phase := Failed;
        return Failure(StepFailed(step.name, step.start.failure.value));
      }
      assert steps[..k] == steps && old(trace) + Ups(k) + [] == old(trace) + Ups(k);
      phase := Running;
      return Success(());
    }

    /** Starts one step after another up to the first that reports a failure, whose position it returns. */
    method StartSteps() returns (i: nat)
      requires phase == Starting && started == []
      modifies this
      ensures phase == Starting && steps == old(steps) && i == FirstFailing(steps, 0)
      ensures started == Names(steps[..i])
      ensures trace == old(trace) + Ups(i) + if i < |steps| then [StartFailed(i)] else []
      decreases Rank(), 3
    {
      hide FirstFailing, Ups, Names;
      StartUnfold(steps, 0);
      i := 0;
      while i < |steps|
        invariant i <= |steps| && phase == Starting && steps == old(steps)
        invariant started == Names(steps[..i]) && trace == old(trace) + Ups(i)
        invariant FirstFailing(steps, 0) == FirstFailing(steps, i)
      {
        var step := steps[i];
        StartUnfold(steps, i);
        FailingUnfold(steps, i);
        var _ := RunCallback(step.start.calls);
        if step.start.failure.Some? {
          trace := trace + [StartFailed(i)];
          return;
        }
        started, trace := started + [step.name], trace + [Up(i)];
        i := i + 1;
      }
      FailingUnfold(steps, i);
    }

    method Shutdown() returns (r: Status)
      requires Consistent(View())
      modifies this
      ensures (View(), r) == Answer(old(View()), Call.Shutdown)
      decreases Rank(), 0
    {
      if phase != Running { return Failure(CannotShutDown(phase)); }
      phase := ShuttingDown;
      Unwind();
      phase := Stopped;
      return Success(());
    }

    /** Takes down what came up, last first. */
    method Unwind()
      requires Busy(phase) && |started| <= |steps|
      modifies this
      ensures phase == old(phase) && steps == old(steps) && started == []
      ensures trace == old(trace) + Downs(steps, old(|started|))
      decreases Rank(), 3
    {
      var i: nat := |started|;
      while i > 0
        invariant i <= |started| && phase == old(phase) && steps == old(steps) && started == old(started)
        invariant trace + Downs(steps, i) == old(trace) + Downs(steps, |started|)
      {
        var step := steps[i - 1];
        if step.stop.Some? {
          var _ := RunCallback(step.stop.value.calls);
          trace := trace + [Down(i - 1)];
        }
        i := i - 1;
      }
      started := [];
    }

    /** Runs a callback while a start or a shutdown is under way: whatever it calls is refused and changes
        nothing. */
    method RunCallback(calls: seq<Call>) returns (answers: seq<Status>)
      requires Busy(phase) && Consistent(View())
      modifies this
      ensures View() == old(View())
      ensures |answers| == |calls|
      ensures forall i | 0 <= i < |calls| ::
                Refusal(phase, calls[i]).Some? && answers[i] == Failure(Refusal(phase, calls[i]).value)
      decreases Rank(), 2
    {
      answers := [];
      for i := 0 to |calls|
        invariant View() == old(View()) && |answers| == i
        invariant forall j | 0 <= j < i ::
                    Refusal(phase, calls[j]).Some? && answers[j] == Failure(Refusal(phase, calls[j]).value)
      {
        var answer := Invoke(calls[i]);
        answers := answers + [answer];
      }
    }

    /** Any call of the public interface. */
    method Invoke(call: Call) returns (r: Status)
      requires Consistent(View())
      modifies this
      ensures (View(), r) == Answer(old(View()), call)
      decreases Rank(), 1
    {
      match call
      case AddStep(name, start, stop) => r := AddStep(name, start, stop);
      case Start => r := Start();
      case Shutdown => r := Shutdown();
    }
  }
}
