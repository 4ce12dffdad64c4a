/** FuseMount as three goroutines and a process: every interleaving of the main `select`, the
    waiter on the process and the mount poller, over two channels of capacity 1 and one context
    (pkg/mounter/utils/mounter_utils.go). */
module FuseMount {
  import opened Waiting
  import opened Wrappers

  /** What cmd.Wait reports. */
  datatype Exit = Clean | Crashed

  datatype Process = Running | Exited(exit: Exit)

  /** Why FuseMount returns what it returns. */
  datatype Why = SawMount | StartFailed | PollFailed | ProcessFailed

  datatype Main =
    | Select                 // the select over both channels
    | AwaitMount             // the process ended well: only the poller's answer is awaited
    | Fallback               // the process failed: one look whether the path is mounted anyway
    | Returning(why: Why)    // the result is set, the deferred call has not run
    | Returned(why: Why)

  datatype Waiter = Waiting | SendingExit(exit: Exit) | WaiterDone

  datatype Poller =
    | InitialDelay
    | AtSelect               // about to look at the context
    | Looking                // about to look at the mount
    | Sleeping
    | SendingResult(result: PollResult)
    | PollerDone

  /** `checks` counts the poller's looks, `elapsed` its sleeps; `observed` is set once anyone has
      seen the mount since the command started. */
  datatype State = State(
    main: Main, waiter: Waiter, poller: Poller, process: Process,
    waitCh: Option<Exit>, mountCh: Option<PollResult>, cancelled: bool,
    checks: nat, elapsed: int, observed: bool)

  datatype Config = Config(interval: int, timeout: int) {
    predicate Valid() { interval > 0 }
  }

  /** What the next atomic step is, with what the environment answers to it. */
  datatype Step =
    | ProcessExits(exit: Exit)
    | WaiterReturns
    | WaiterSends
    | PollerWakes
    | PollerSelects
    | PollerLooks(mounted: bool)
    | PollerSends
    | MainTakesExit
    | MainTakesMount
    | MainLooks(mounted: bool)
    | MainReturns

  /** Right after cmd.Start: on failure main returns at once and nothing else was started. */
  function Init(startOk: bool): State {
    if startOk then State(Select, Waiting, InitialDelay, Running, None, None, false, 0, 0, false)
    else State(Returning(StartFailed), WaiterDone, PollerDone, Exited(Crashed), None, None, false, 0, 0, false)
  }

  /** The state after a step; None where the step is not enabled. A send on a full channel and a
      receive on an empty one are not enabled. */
  function Next(cfg: Config, s: State, step: Step): Option<State> {
    match step
    case ProcessExits(e) =>
      if s.process.Running? then Some(s.(process := Exited(e))) else None
    case WaiterReturns =>
      if s.waiter.Waiting? && s.process.Exited? then Some(s.(waiter := SendingExit(s.process.exit))) else None
    case WaiterSends =>
      if s.waiter.SendingExit? && s.waitCh.None? then
        Some(s.(waiter := WaiterDone, waitCh := Some(s.waiter.exit)))
      else None
    case PollerWakes =>
      if s.poller.InitialDelay? then Some(s.(poller := AtSelect))
      else if s.poller.Sleeping? then
        var elapsed := s.elapsed + cfg.interval;
        Some(s.(elapsed := elapsed, poller := if elapsed >= cfg.timeout then SendingResult(TimedOut) else AtSelect))
      else None
    case PollerSelects =>
      if s.poller.AtSelect? then Some(s.(poller := if s.cancelled then SendingResult(Cancelled) else Looking)) else None
    case PollerLooks(mounted) =>
      if s.poller.Looking? then
        Some(s.(checks := s.checks + 1, observed := s.observed || mounted,
                poller := if mounted then SendingResult(Mounted) else Sleeping))
      else None
    case PollerSends =>
      if s.poller.SendingResult? && s.mountCh.None? then
        Some(s.(poller := PollerDone, mountCh := Some(s.poller.result)))
      else None
    case MainTakesExit =>
      if s.main.Select? && s.waitCh.Some? then
        Some(s.(waitCh := None, main := if s.waitCh.value == Clean then AwaitMount else Fallback))
      else None
    case MainTakesMount =>
      if (s.main.Select? || s.main.AwaitMount?) && s.mountCh.Some? then
        Some(s.(mountCh := None, main := Returning(if s.mountCh.value == Mounted then SawMount else PollFailed)))
      else None
    case MainLooks(mounted) =>
      if s.main.Fallback? then
        Some(s.(observed := s.observed || mounted, main := Returning(if mounted then SawMount else ProcessFailed)))
      else None
    case MainReturns =>
      if s.main.Returning? then
        Some(s.(main := Returned(s.main.why), cancelled := s.cancelled || s.main.why != SawMount))
      else None
  }

  /** A run: each state follows from the one before by an enabled step. */
  ghost predicate IsRun(cfg: Config, states: seq<State>, steps: seq<Step>) {
    && |states| == |steps| + 1
    && (exists startOk :: states[0] == Init(startOk))
    && forall i | 0 <= i < |steps| :: Next(cfg, states[i], steps[i]) == Some(states[i + 1])
  }

  // ---------------------------------------------------------------- what every step keeps

  /** main has a result, or is done. */
  predicate Decided(s: State) {
    s.main.Returning? || s.main.Returned?
  }

  /** Each channel is empty until its only sender is done, so no send can block; and what main
      still waits for is in a channel or on its way. */
  predicate ChannelsInOrder(s: State) {
    && (!s.waiter.WaiterDone? ==> s.waitCh.None?)
    && (!s.poller.PollerDone? ==> s.mountCh.None?)
    && (s.main.Select? || s.main.AwaitMount? ==> !s.poller.PollerDone? || s.mountCh.Some?)
  }

  /** Success was observed, and only a failed return cancels. */
  predicate Sound(s: State) {
    && (Decided(s) && s.main.why == SawMount ==> s.observed)
    && (s.cancelled <==> s.main.Returned? && s.main.why != SawMount)
    && (s.poller == SendingResult(Mounted) || s.mountCh == Some(Mounted) ==> s.observed)
    && (s.poller == SendingResult(Cancelled) || s.mountCh == Some(Cancelled) ==> s.cancelled)
  }

  /** The poller's looks and sleeps. */
  predicate PollerInBounds(cfg: Config, s: State)
    requires cfg.Valid()
  {
    var max := MaxChecks(cfg.interval, cfg.timeout);
    && s.checks <= max
    && (s.poller.InitialDelay? ==> s.checks == 0 && s.elapsed == 0)
    && (s.poller.AtSelect? || s.poller.Looking? ==> s.checks < max && s.elapsed == s.checks * cfg.interval)
    && (s.poller.Sleeping? ==> s.checks >= 1 && s.elapsed == (s.checks - 1) * cfg.interval)
    && (s.poller == SendingResult(TimedOut) || s.mountCh == Some(TimedOut) ==> s.checks == max)
    && (Decided(s) && s.main.why == PollFailed ==> s.checks == max)
    && ((Decided(s) && s.main.why == ProcessFailed) || s.main.Fallback? ==> s.process == Exited(Crashed))
    && (s.main.AwaitMount? ==> s.process == Exited(Clean))
    && (s.waiter.SendingExit? ==> s.process == Exited(s.waiter.exit))
    && (s.waitCh.Some? ==> s.process == Exited(s.waitCh.value))
  }

  predicate Inv(cfg: Config, s: State)
    requires cfg.Valid()
  {
    ChannelsInOrder(s) && Sound(s) && PollerInBounds(cfg, s)
  }

  lemma StepKeepsInv(cfg: Config, s: State, step: Step)
    requires cfg.Valid() && Inv(cfg, s) && Next(cfg, s, step).Some?
    ensures Inv(cfg, Next(cfg, s, step).value)
  {
    if step.PollerWakes? && s.poller.Sleeping? {
      assert PollerInBounds(cfg, s);
      assert s.checks >= 1 && s.elapsed == (s.checks - 1) * cfg.interval;
      LastCheck(cfg.interval, cfg.timeout, s.checks);
      assert s.elapsed + cfg.interval == s.checks * cfg.interval;
    }
  }

  lemma TookStep(cfg: Config, states: seq<State>, steps: seq<Step>, i: nat)
    requires IsRun(cfg, states, steps) && i < |steps|
    ensures Next(cfg, states[i], steps[i]) == Some(states[i + 1])
  {
  }

  lemma {:induction false} RunKeepsInv(cfg: Config, states: seq<State>, steps: seq<Step>, i: nat)
    requires cfg.Valid() && IsRun(cfg, states, steps) && i < |states|
    ensures Inv(cfg, states[i])
  {
    if i > 0 {
      RunKeepsInv(cfg, states, steps, i - 1);
      TookStep(cfg, states, steps, i - 1);
      StepKeepsInv(cfg, states[i - 1], steps[i - 1]);
    }
  }

  // ---------------------------------------------------------------- soundness

  /** Under every interleaving: a nil return means that somebody saw the mount after the command
      started, and the context is then never cancelled; an error return cancels it; and an error
      has a cause: the command did not start, or the poller looked as often as it may without
      success, or the process failed. The poller's "context cancelled" never reaches the caller. */
  lemma MountIsSound(cfg: Config, states: seq<State>, steps: seq<Step>, i: nat)
    requires cfg.Valid() && IsRun(cfg, states, steps) && i < |states| && states[i].main.Returned?
    ensures var s := states[i];
            match s.main.why
            case SawMount => s.observed && !s.cancelled
            case StartFailed => s.cancelled
            case PollFailed => s.cancelled && s.checks == MaxChecks(cfg.interval, cfg.timeout)
            case ProcessFailed => s.cancelled && s.process == Exited(Crashed)
    ensures forall j | i <= j < |states| :: states[j].main == states[i].main && states[j].cancelled == states[i].cancelled
  {
    RunKeepsInv(cfg, states, steps, i);
    forall j | i <= j < |states|
      ensures states[j].main == states[i].main && states[j].cancelled == states[i].cancelled
    {
      ReturnIsFinal(cfg, states, steps, i, j);
    }
  }

  lemma {:induction false} ReturnIsFinal(cfg: Config, states: seq<State>, steps: seq<Step>, i: nat, j: nat)
    requires cfg.Valid() && IsRun(cfg, states, steps) && i <= j < |states| && states[i].main.Returned?
    ensures states[j].main == states[i].main && states[j].cancelled == states[i].cancelled
    decreases j
  {
    if i < j {
      ReturnIsFinal(cfg, states, steps, i, j - 1);
      TookStep(cfg, states, steps, j - 1);
    }
  }

  lemma {:induction false} DecisionStays(cfg: Config, states: seq<State>, steps: seq<Step>, i: nat, j: nat)
    requires cfg.Valid() && IsRun(cfg, states, steps) && i <= j < |states| && Decided(states[i])
    ensures Decided(states[j]) && states[j].main.why == states[i].main.why
    decreases j
  {
    if i < j {
      DecisionStays(cfg, states, steps, i, j - 1);
      TookStep(cfg, states, steps, j - 1);
    }
  }

  /** The poller has seen the mount before step i. */
  predicate PollerSaw(steps: seq<Step>, i: nat) {
    exists h :: 0 <= h < i <= |steps| && steps[h] == PollerLooks(true)
  }

  lemma PollerSawSnoc(steps: seq<Step>, i: nat)
    requires 0 < i <= |steps|
    ensures PollerSaw(steps, i) <==> PollerSaw(steps, i - 1) || steps[i - 1] == PollerLooks(true)
  {
  }

  predicate UnderWay(s: State) {
    s.poller == SendingResult(Mounted) || s.mountCh == Some(Mounted)
  }

  lemma SightStep(cfg: Config, s: State, step: Step)
    requires cfg.Valid() && Inv(cfg, s) && Next(cfg, s, step).Some?
    requires !Decided(s) && !Decided(Next(cfg, s, step).value)
    ensures UnderWay(Next(cfg, s, step).value) <==> UnderWay(s) || step == PollerLooks(true)
  {
  }

  /** Until main has decided, what the poller saw is on its way to main. */
  lemma {:induction false} SightIsUnderWay(cfg: Config, states: seq<State>, steps: seq<Step>, i: nat)
    requires cfg.Valid() && IsRun(cfg, states, steps) && i < |states| && !Decided(states[i])
    ensures PollerSaw(steps, i) <==> UnderWay(states[i])
  {
    if i > 0 {
      if Decided(states[i - 1]) {
        DecisionStays(cfg, states, steps, i - 1, i);
      }
      SightIsUnderWay(cfg, states, steps, i - 1);
      RunKeepsInv(cfg, states, steps, i - 1);
      TookStep(cfg, states, steps, i - 1);
      SightStep(cfg, states[i - 1], steps[i - 1]);
      PollerSawSnoc(steps, i);
    }
  }

  /** The two ways to a result: the look after a failed process decides by what it sees, the
      poller's answer by whether the poller ever saw the mount. */
  lemma DecidingStep(cfg: Config, states: seq<State>, steps: seq<Step>, i: nat)
    requires cfg.Valid() && IsRun(cfg, states, steps) && i < |steps|
    ensures steps[i].MainLooks? ==>
              states[i + 1].main == Returning(if steps[i].mounted then SawMount else ProcessFailed)
    ensures steps[i].MainTakesMount? ==>
              states[i + 1].main == Returning(if PollerSaw(steps, i) then SawMount else PollFailed)
    ensures !Decided(states[i]) && Decided(states[i + 1]) ==> steps[i].MainLooks? || steps[i].MainTakesMount?
  {
    TookStep(cfg, states, steps, i);
    if steps[i].MainTakesMount? {
      SightIsUnderWay(cfg, states, steps, i);
      RunKeepsInv(cfg, states, steps, i);
    }
  }

  /** After a failed process, FuseMount returns nil exactly when that last look saw the mount. */
  lemma FallbackDecides(cfg: Config, states: seq<State>, steps: seq<Step>, i: nat, j: nat)
    requires cfg.Valid() && IsRun(cfg, states, steps) && i < j < |states|
    requires steps[i].MainLooks? && states[j].main.Returned?
    ensures states[j].main.why == if steps[i].mounted then SawMount else ProcessFailed
  {
    DecidingStep(cfg, states, steps, i);
    DecisionStays(cfg, states, steps, i + 1, j);
  }

  /** Where main takes the poller's answer, it returns nil exactly when the poller saw the mount. */
  lemma PollerDecides(cfg: Config, states: seq<State>, steps: seq<Step>, i: nat, j: nat)
    requires cfg.Valid() && IsRun(cfg, states, steps) && i < j < |states|
    requires steps[i].MainTakesMount? && states[j].main.Returned?
    ensures states[j].main.why == if PollerSaw(steps, i) then SawMount else PollFailed
  {
    DecidingStep(cfg, states, steps, i);
    DecisionStays(cfg, states, steps, i + 1, j);
  }

  lemma {:induction false} DecidedBy(cfg: Config, states: seq<State>, steps: seq<Step>, j: nat) returns (i: nat)
    requires cfg.Valid() && IsRun(cfg, states, steps) && j < |states|
    requires Decided(states[j]) && states[j].main.why != StartFailed
    ensures i < j && (steps[i].MainLooks? || steps[i].MainTakesMount?)
  {
    DecidingStep(cfg, states, steps, j - 1);
    if Decided(states[j - 1]) {
      DecisionStays(cfg, states, steps, j - 1, j);
      i := DecidedBy(cfg, states, steps, j - 1);
    } else {
      i := j - 1;
    }
  }

  /** Both directions for every run: FuseMount returns nil if and only if its own last look saw the
      mount, or it took the answer of a poller that did. */
  lemma NilExactly(cfg: Config, states: seq<State>, steps: seq<Step>, j: nat)
    requires cfg.Valid() && IsRun(cfg, states, steps) && j < |states| && states[j].main.Returned?
    ensures states[j].main.why == SawMount <==>
            exists i: nat :: i < j && (steps[i] == MainLooks(true) || (steps[i].MainTakesMount? && PollerSaw(steps, i)))
  {
    if states[j].main.why != StartFailed {
      var i := DecidedBy(cfg, states, steps, j);
      if steps[i].MainLooks? {
        FallbackDecides(cfg, states, steps, i, j);
      } else {
        PollerDecides(cfg, states, steps, i, j);
      }
    }
    forall i: nat | i < j && (steps[i] == MainLooks(true) || (steps[i].MainTakesMount? && PollerSaw(steps, i)))
      ensures states[j].main.why == SawMount
    {
      if steps[i].MainLooks? {
        FallbackDecides(cfg, states, steps, i, j);
      } else {
        PollerDecides(cfg, states, steps, i, j);
      }
    }
  }

  /** No goroutine is ever stuck on a send, orphaned or not. */
  lemma SendsNeverBlock(cfg: Config, states: seq<State>, steps: seq<Step>, i: nat)
    requires cfg.Valid() && IsRun(cfg, states, steps) && i < |states|
    ensures states[i].waiter.SendingExit? ==> Next(cfg, states[i], WaiterSends).Some?
    ensures states[i].poller.SendingResult? ==> Next(cfg, states[i], PollerSends).Some?
  {
    RunKeepsInv(cfg, states, steps, i);
  }

  // ---------------------------------------------------------------- liveness

  function MainSteps(m: Main): nat {
    match m
    case Select => 3
    case AwaitMount => 2
    case Fallback => 2
    case Returning(_) => 1
    case Returned(_) => 0
  }

  function PollerSteps(cfg: Config, s: State): nat
    requires cfg.Valid() && PollerInBounds(cfg, s)
  {
    var left := MaxChecks(cfg.interval, cfg.timeout) - s.checks;
    match s.poller
    case InitialDelay => 3 * left + 2
    case AtSelect => 3 * left + 1
    case Looking => 3 * left
    case Sleeping => 3 * left + 2
    case SendingResult(_) => 1
    case PollerDone => 0
  }

  /** How many steps are left at most. */
  function Measure(cfg: Config, s: State): nat
    requires cfg.Valid() && PollerInBounds(cfg, s)
  {
    MainSteps(s.main) + PollerSteps(cfg, s) +
    (match s.waiter case Waiting => 2 case SendingExit(_) => 1 case WaiterDone => 0) +
    (if s.process.Running? then 1 else 0)
  }

  lemma EveryStepDecreases(cfg: Config, s: State, step: Step)
    requires cfg.Valid() && Inv(cfg, s) && Next(cfg, s, step).Some?
    ensures Inv(cfg, Next(cfg, s, step).value)
    ensures Measure(cfg, Next(cfg, s, step).value) < Measure(cfg, s)
  {
    StepKeepsInv(cfg, s, step);
  }

  /** Every run is finite: it has at most three steps for each look and a handful more. */
  lemma {:induction false} RunsAreBounded(cfg: Config, states: seq<State>, steps: seq<Step>, i: nat)
    requires cfg.Valid() && IsRun(cfg, states, steps) && i < |states|
    ensures Inv(cfg, states[i])
    ensures i + Measure(cfg, states[i]) <= 3 * MaxChecks(cfg.interval, cfg.timeout) + 8
  {
    RunKeepsInv(cfg, states, steps, i);
    if i > 0 {
      RunsAreBounded(cfg, states, steps, i - 1);
      TookStep(cfg, states, steps, i - 1);
      EveryStepDecreases(cfg, states[i - 1], steps[i - 1]);
    }
  }

  /** With the driver's own interval and timeout no run has more than 188 steps. */
  lemma DriverRunsAreBounded(states: seq<State>, steps: seq<Step>)
    requires IsRun(Config(INTERVAL, MOUNT_TIMEOUT), states, steps)
    ensures |steps| <= 188
  {
    RunsAreBounded(Config(INTERVAL, MOUNT_TIMEOUT), states, steps, |steps|);
  }

  /** What main or the poller can do next. */
  function NextOfMainOrPoller(s: State): Step {
    match s.poller
    case InitialDelay => PollerWakes
    case AtSelect => PollerSelects
    case Looking => PollerLooks(false)
    case Sleeping => PollerWakes
    case SendingResult(_) => PollerSends
    case PollerDone =>
      match s.main
      case Select => MainTakesMount
      case AwaitMount => MainTakesMount
      case Fallback => MainLooks(false)
      case _ => MainReturns
  }

  /** Until both main and the poller are done, one of them can move, whatever the process does; so a
      run that cannot be extended, even one whose process never ends, has ended both. */
  lemma NeverStuck(cfg: Config, states: seq<State>, steps: seq<Step>, i: nat)
    requires cfg.Valid() && IsRun(cfg, states, steps) && i < |states|
    ensures !(states[i].main.Returned? && states[i].poller.PollerDone?) ==>
              Next(cfg, states[i], NextOfMainOrPoller(states[i])).Some?
    ensures (forall step: Step | !step.ProcessExits? :: Next(cfg, states[i], step).None?) ==>
              states[i].main.Returned? && states[i].poller.PollerDone?
  {
    RunKeepsInv(cfg, states, steps, i);
    var step := NextOfMainOrPoller(states[i]);
    assert !step.ProcessExits?;
  }

  /** A poller left behind by an early failure stops at its next look at the context: it makes at
      most the one look it had already begun. */
  lemma {:induction false} OrphanStopsSoon(cfg: Config, states: seq<State>, steps: seq<Step>, i: nat, j: nat)
    requires cfg.Valid() && IsRun(cfg, states, steps) && i <= j < |states|
    requires states[i].main.Returned? && states[i].main.why != SawMount
    ensures states[j].checks <= states[i].checks + (if states[i].poller.Looking? then 1 else 0)
    ensures states[j].poller.Looking? ==> states[i].poller.Looking? && states[j].checks == states[i].checks
    decreases j
  {
    RunKeepsInv(cfg, states, steps, i);
    if i < j {
      OrphanStopsSoon(cfg, states, steps, i, j - 1);
      ReturnIsFinal(cfg, states, steps, i, j - 1);
      TookStep(cfg, states, steps, j - 1);
    }
  }
}
