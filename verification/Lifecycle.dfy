/**
 * The kernel lifecycle (System.h): one state shared by N cores, each running init and run.
 * `transitionTo` is atomic; the checks its callers make first are steps of their own.
 */
module Lifecycle {

  datatype KernelState =
    | Unconfigured | Configured | Initializing | Running | Suspending | Suspended
    | Aborting | Aborted | ShuttingDown | Shutdown

  predicate Allowed(from: KernelState, to: KernelState) {
    match from
    case Unconfigured => to == Configured
    case Configured => to == Initializing
    case Initializing => to == Running
    case Running => to == Suspending || to == Aborting || to == ShuttingDown
    case Suspending => to == Suspended
    case Suspended => to == Running || to == ShuttingDown
    case Aborting => to == Aborted
    case Aborted => to == Running || to == ShuttingDown
    case ShuttingDown => to == Shutdown
    case Shutdown => false
  }

  /** An invalid request leaves the state alone. */
  function Transition(k: KernelState, target: KernelState): KernelState {
    if Allowed(k, target) then target else k
  }

  predicate PreRunning(k: KernelState) {
    k == Unconfigured || k == Configured || k == Initializing
  }

  predicate ActiveState(k: KernelState) {
    k == Running || k == Suspending || k == Suspended
  }

  /** The transitions there are: start-up and shutdown, and two detours from RUNNING that each lead back or down. */
  lemma TableExactly(a: KernelState, b: KernelState)
    ensures Allowed(a, b) <==>
            (a, b) in {(Unconfigured, Configured), (Configured, Initializing), (Initializing, Running),
                       (Running, ShuttingDown), (ShuttingDown, Shutdown),
                       (Running, Suspending), (Suspending, Suspended), (Suspended, Running), (Suspended, ShuttingDown),
                       (Running, Aborting), (Aborting, Aborted), (Aborted, Running), (Aborted, ShuttingDown)}
  {
  }

  /** Requests made one after the other. */
  function Requested(k: KernelState, targets: seq<KernelState>): KernelState
    decreases |targets|
  {
    if targets == [] then k else Requested(Transition(k, targets[0]), targets[1..])
  }

  /** From every state the kernel can be brought down, and from every one but the last two up again first. */
  lemma NoDeadEnd(k: KernelState) returns (up: seq<KernelState>, down: seq<KernelState>)
    ensures Requested(k, down) == Shutdown
    ensures Requested(k, up) == Running <==> k != ShuttingDown && k != Shutdown
  {
    up := match k
      case Unconfigured => [Configured, Initializing, Running]
      case Configured => [Initializing, Running]
      case Initializing => [Running]
      case Suspending => [Suspended, Running]
      case Suspended => [Running]
      case Aborting => [Aborted, Running]
      case Aborted => [Running]
      case _ => [];
    Few(k, up);
    var end := [ShuttingDown, Shutdown];
    down := up + end;
    RequestedConcat(k, up, end);
    Few(Requested(k, up), end);
  }

  lemma Few(k: KernelState, ts: seq<KernelState>)
    requires |ts| <= 3
    ensures |ts| == 0 ==> Requested(k, ts) == k
    ensures |ts| == 1 ==> Requested(k, ts) == Transition(k, ts[0])
    ensures |ts| == 2 ==> Requested(k, ts) == Transition(Transition(k, ts[0]), ts[1])
    ensures |ts| == 3 ==> Requested(k, ts) == Transition(Transition(Transition(k, ts[0]), ts[1]), ts[2])
    decreases |ts|
  {
    hide Transition;
    if ts != [] {
      Few(Transition(k, ts[0]), ts[1..]);
    }
  }

  lemma {:induction false} RequestedConcat(k: KernelState, a: seq<KernelState>, b: seq<KernelState>)
    ensures Requested(k, a + b) == Requested(Requested(k, a), b)
    decreases |a|
  {
    hide Transition;
    if a == [] {
      assert a + b == b;
    } else {
      assert (a + b)[0] == a[0] && (a + b)[1..] == a[1..] + b;
      RequestedConcat(Transition(k, a[0]), a[1..], b);
    }
  }

  /** Where a core is: in init up to `WillRun`, in its run loop, or in the shutdown phase. */
  datatype Pc =
    | Start | WillInitialize | InitTasks | CheckInitializing | WillRun
    | Looping | CheckRunning | WillShutDown | CheckShuttingDown | WillFinish | Done

  /** `stop` is what the stop conditions say if the loop asks; `External` is a request from elsewhere. */
  datatype Move = CoreMove(core: nat, stop: bool) | External(target: KernelState)

  datatype System = System(kernel: KernelState, pcs: seq<Pc>)

  function CoreStep(k: KernelState, pc: Pc, stop: bool): (KernelState, Pc) {
    match pc
    case Start => (k, if k == Configured then WillInitialize else InitTasks)
    case WillInitialize => (Transition(k, Initializing), InitTasks)
    case InitTasks => (k, CheckInitializing)
    case CheckInitializing => (k, if k == Initializing then WillRun else Looping)
    case WillRun => (Transition(k, Running), Looping)
    case Looping => (k, if ActiveState(k) && !stop then Looping else CheckRunning)
    case CheckRunning => (k, if k == Running then WillShutDown else CheckShuttingDown)
    case WillShutDown => (Transition(k, ShuttingDown), CheckShuttingDown)
    case CheckShuttingDown => (k, if k == ShuttingDown then WillFinish else Done)
    case WillFinish => (Transition(k, Shutdown), Done)
    case Done => (k, Done)
  }

  function Step(s: System, m: Move): System {
    match m
    case CoreMove(c, stop) =>
      if c >= |s.pcs| then s
      else
        var (k, pc) := CoreStep(s.kernel, s.pcs[c], stop);
        System(k, s.pcs[c := pc])
    case External(target) => s.(kernel := Transition(s.kernel, target))
  }

  /** The states a run goes through, the first and the last included. */
  function Trace(s: System, moves: seq<Move>): (r: seq<System>)
    ensures |r| == |moves| + 1 && r[0] == s
    decreases |moves|
  {
    if moves == [] then [s] else [s] + Trace(Step(s, moves[0]), moves[1..])
  }

  /** After a successful build: configured, no core started. */
  function Booted(n: nat): System {
    System(Configured, seq(n, _ => Start))
  }

  // ----- whatever requests arrive -----

  /** The core has finished init. */
  predicate Inited(pc: Pc) {
    match pc
    case Start => false
    case WillInitialize => false
    case InitTasks => false
    case CheckInitializing => false
    case WillRun => false
    case _ => true
  }

  /** How far a core got bounds how early the kernel can still be. */
  ghost predicate InStep(s: System) {
    && s.kernel != Unconfigured
    && forall c :: 0 <= c < |s.pcs| ==>
         && (s.pcs[c] == InitTasks || s.pcs[c] == CheckInitializing || s.pcs[c] == WillRun ==> s.kernel != Configured)
         && (Inited(s.pcs[c]) ==> !PreRunning(s.kernel))
  }

  lemma StepKeeps(s: System, m: Move)
    requires InStep(s)
    ensures InStep(Step(s, m))
  {
  }

  lemma StepFollowsTable(s: System, m: Move)
    ensures var t := Step(s, m); t.kernel == s.kernel || Allowed(s.kernel, t.kernel)
    ensures s.kernel == Shutdown ==> Step(s, m).kernel == Shutdown
  {
  }

  lemma {:induction false} TraceKeeps(s: System, moves: seq<Move>, i: nat)
    requires InStep(s) && i <= |moves|
    ensures InStep(Trace(s, moves)[i])
    decreases i
  {
    hide Step, InStep;
    if i > 0 {
      StepKeeps(s, moves[0]);
      TraceKeeps(Step(s, moves[0]), moves[1..], i - 1);
    }
  }

  lemma {:induction false} TraceSteps(s: System, moves: seq<Move>, i: nat)
    requires i < |moves|
    ensures Trace(s, moves)[i + 1] == Step(Trace(s, moves)[i], moves[i])
    decreases i
  {
    hide Step;
    if i > 0 {
      TraceSteps(Step(s, moves[0]), moves[1..], i - 1);
    }
  }

  lemma {:induction false} ShutdownStays(s: System, moves: seq<Move>, i: nat, j: nat)
    requires i <= j <= |moves| && Trace(s, moves)[i].kernel == Shutdown
    ensures Trace(s, moves)[j].kernel == Shutdown
    decreases j - i
  {
    hide Step, Trace;
    if i < j {
      TraceSteps(s, moves, i);
      StepFollowsTable(Trace(s, moves)[i], moves[i]);
      ShutdownStays(s, moves, i + 1, j);
    }
  }

  /**
   * In every interleaving of N cores, external requests included: each change of state is
   * an edge of the transition table, a core that has finished init never sees a state from
   * before RUNNING again, and SHUTDOWN is absorbing.
   */
  lemma LifecycleHolds(n: nat, moves: seq<Move>, i: nat, j: nat)
    requires i <= j <= |moves|
    ensures var trace := Trace(Booted(n), moves);
            && (i < j ==> trace[i + 1].kernel == trace[i].kernel || Allowed(trace[i].kernel, trace[i + 1].kernel))
            && (forall c :: 0 <= c < |trace[i].pcs| && Inited(trace[i].pcs[c]) ==> !PreRunning(trace[j].kernel))
            && (trace[i].kernel == Shutdown ==> trace[j].kernel == Shutdown)
  {
    hide Step, Trace;
    var s := Booted(n);
    TraceKeeps(s, moves, i);
    if i < j {
      TraceSteps(s, moves, i);
      StepFollowsTable(Trace(s, moves)[i], moves[i]);
    }
    PreRunningPasses(s, moves, i, j);
    if Trace(s, moves)[i].kernel == Shutdown {
      ShutdownStays(s, moves, i, j);
    }
  }

  /** No edge leads back before RUNNING. */
  lemma {:induction false} PreRunningPasses(s: System, moves: seq<Move>, i: nat, j: nat)
    requires i <= j <= |moves|
    ensures !PreRunning(Trace(s, moves)[i].kernel) ==> !PreRunning(Trace(s, moves)[j].kernel)
    decreases j - i
  {
    hide Step, Trace;
    if i < j {
      TraceSteps(s, moves, i);
      StepFollowsTable(Trace(s, moves)[i], moves[i]);
      PreRunningPasses(s, moves, i + 1, j);
    }
  }

  // ----- the shutdown phase, when nothing else asks -----

  /** The main line of the table. */
  predicate MainLine(k: KernelState) {
    k == Configured || k == Initializing || k == Running || k == ShuttingDown || k == Shutdown
  }

  ghost predicate OnMainLine(s: System) {
    && InStep(s) && MainLine(s.kernel)
    && forall c :: 0 <= c < |s.pcs| ==>
         && (s.pcs[c] == CheckShuttingDown || s.pcs[c] == WillFinish ==>
             s.kernel == ShuttingDown || s.kernel == Shutdown)
         && (s.pcs[c] == Done ==> s.kernel == Shutdown)
  }

  lemma MainLineStep(s: System, m: Move)
    requires OnMainLine(s) && m.CoreMove?
    ensures OnMainLine(Step(s, m))
  {
  }

  lemma {:induction false} MainLineTrace(s: System, moves: seq<Move>, i: nat)
    requires OnMainLine(s) && i <= |moves| && forall m :: m in moves ==> m.CoreMove?
    ensures OnMainLine(Trace(s, moves)[i])
    decreases i
  {
    hide Step, OnMainLine;
    if i > 0 {
      MainLineStep(s, moves[0]);
      MainLineTrace(Step(s, moves[0]), moves[1..], i - 1);
    }
  }

  /**
   * With no request but the cores' own, as soon as any core has finished its shutdown phase
   * the state is SHUTDOWN, whichever core made the transitions.
   */
  lemma ShutdownReached(n: nat, moves: seq<Move>, i: nat, c: nat)
    requires i <= |moves| && forall m :: m in moves ==> m.CoreMove?
    ensures var t := Trace(Booted(n), moves)[i];
            c < |t.pcs| && t.pcs[c] == Done ==> t.kernel == Shutdown
  {
    hide Trace, InStep;
    assert OnMainLine(Booted(n)) by { BootedOnMainLine(n); }
    MainLineTrace(Booted(n), moves, i);
  }

  lemma BootedOnMainLine(n: nat)
    ensures OnMainLine(Booted(n))
  {
  }

  /** Four steps of one core on its own, from the end of its loop. */
  function FinishAlone(k: KernelState): KernelState {
    var (k1, p1) := CoreStep(k, CheckRunning, true);
    var (k2, p2) := CoreStep(k1, p1, true);
    var (k3, p3) := CoreStep(k2, p2, true);
    CoreStep(k3, p3, true).0
  }

  /** From a suspended or aborted state the shutdown phase finds nothing to do and leaves it. */
  lemma FinishExactly(k: KernelState)
    ensures FinishAlone(k) == Shutdown <==> k == Running || k == ShuttingDown || k == Shutdown
    ensures FinishAlone(k) != Shutdown ==> FinishAlone(k) == k
  {
  }

  // ----- when a core leaves its loop, and that it then ends -----

  /** The state after all moves. */
  function Last(s: System, moves: seq<Move>): System {
    Trace(s, moves)[|moves|]
  }

  lemma LastNext(s: System, moves: seq<Move>)
    ensures Last(s, moves) == if moves == [] then s else Last(Step(s, moves[0]), moves[1..])
  {
    hide Step;
  }

  /** Whenever core `c` looks, the kernel is running or being suspended and no stop condition holds. */
  ghost predicate KeptGoing(s: System, moves: seq<Move>, c: nat)
    decreases |moves|
  {
    moves != [] ==>
      && (moves[0].CoreMove? && moves[0].core == c ==>
            !moves[0].stop && (s.kernel == Running || s.kernel == Suspending || s.kernel == Suspended))
      && KeptGoing(Step(s, moves[0]), moves[1..], c)
  }

  /** How many of its own steps a core takes at most from one point of its program to the next. */
  function Ahead(pc: Pc): nat {
    match pc
    case Start => 5
    case WillInitialize => 4
    case InitTasks => 3
    case CheckInitializing => 2
    case WillRun => 1
    case Looping => 0
    case CheckRunning => 4
    case WillShutDown => 3
    case CheckShuttingDown => 2
    case WillFinish => 1
    case Done => 0
  }

  /** Past the loop. */
  predicate Ending(pc: Pc) {
    pc == CheckRunning || pc == WillShutDown || pc == CheckShuttingDown || pc == WillFinish || pc == Done
  }

  lemma StepAhead(s: System, m: Move, c: nat)
    requires c < |s.pcs|
    ensures var t := Step(s, m);
            && |t.pcs| == |s.pcs|
            && (!(m.CoreMove? && m.core == c) ==> t.pcs[c] == s.pcs[c])
            && (m.CoreMove? && m.core == c && Ahead(s.pcs[c]) > 0 ==> Ahead(t.pcs[c]) < Ahead(s.pcs[c]))
            && (m.CoreMove? && m.core == c && Ending(s.pcs[c]) ==> Ending(t.pcs[c]))
            && (m.CoreMove? && m.core == c && s.pcs[c] == Looping && t.pcs[c] != Looping ==> Ending(t.pcs[c]))
            && (m.CoreMove? && m.core == c && s.pcs[c] == Looping && m.stop ==> Ending(t.pcs[c]))
            && (m.CoreMove? && m.core == c && Ending(t.pcs[c]) ==> Ending(s.pcs[c]) || s.pcs[c] == Looping)
            && (s.pcs[c] == Done ==> t.pcs[c] == Done)
  {
  }

  /**
   * A core is still in its loop after a run if and only if, whenever it looked, the kernel was
   * running or being suspended and no stop condition held; once out of the loop it never
   * returns to it.
   */
  lemma {:induction false} LoopsExactly(s: System, moves: seq<Move>, c: nat)
    requires c < |s.pcs| && s.pcs[c] == Looping
    ensures c < |Last(s, moves).pcs|
    ensures Last(s, moves).pcs[c] == Looping <==> KeptGoing(s, moves, c)
    ensures Last(s, moves).pcs[c] != Looping ==> Ending(Last(s, moves).pcs[c])
    decreases |moves|
  {
    hide Step, Last;
    LastNext(s, moves);
    if moves != [] {
      var t := Step(s, moves[0]);
      StepAhead(s, moves[0], c);
      LoopStep(s, moves[0], c);
      if t.pcs[c] == Looping {
        LoopsExactly(t, moves[1..], c);
      } else {
        EndsOnly(t, moves[1..], c);
      }
    }
  }

  lemma LoopStep(s: System, m: Move, c: nat)
    requires c < |s.pcs| && s.pcs[c] == Looping
    ensures c < |Step(s, m).pcs|
    ensures m.CoreMove? && m.core == c ==>
              (Step(s, m).pcs[c] == Looping <==>
               !m.stop && (s.kernel == Running || s.kernel == Suspending || s.kernel == Suspended))
  {
  }

  lemma {:induction false} EndsOnly(s: System, moves: seq<Move>, c: nat)
    requires c < |s.pcs| && Ending(s.pcs[c])
    ensures c < |Last(s, moves).pcs| && Ending(Last(s, moves).pcs[c])
    decreases |moves|
  {
    hide Step, Last;
    LastNext(s, moves);
    if moves != [] {
      StepAhead(s, moves[0], c);
      EndsOnly(Step(s, moves[0]), moves[1..], c);
    }
  }

  function OwnMoves(moves: seq<Move>, c: nat): nat {
    if moves == [] then 0
    else (if moves[0].CoreMove? && moves[0].core == c then 1 else 0) + OwnMoves(moves[1..], c)
  }

  lemma {:induction false} EndsSoon(s: System, moves: seq<Move>, c: nat)
    requires c < |s.pcs| && Ending(s.pcs[c]) && OwnMoves(moves, c) >= Ahead(s.pcs[c])
    ensures c < |Last(s, moves).pcs| && Last(s, moves).pcs[c] == Done
    decreases |moves|
  {
    hide Step, Last;
    LastNext(s, moves);
    if moves != [] {
      StepAhead(s, moves[0], c);
      EndsSoon(Step(s, moves[0]), moves[1..], c);
    }
  }

  /** A core in its loop that is told to stop ends within four more of its own steps, whatever the others do. */
  lemma StopEnds(s: System, c: nat, moves: seq<Move>)
    requires c < |s.pcs| && s.pcs[c] == Looping && OwnMoves(moves, c) >= 4
    ensures var t := Last(Step(s, CoreMove(c, true)), moves); c < |t.pcs| && t.pcs[c] == Done
  {
    hide Last;
    StepAhead(s, CoreMove(c, true), c);
    EndsSoon(Step(s, CoreMove(c, true)), moves, c);
  }

  lemma {:induction false} StartsSoon(s: System, moves: seq<Move>, c: nat)
    requires c < |s.pcs| && OwnMoves(moves, c) >= Ahead(s.pcs[c]) && !Ending(s.pcs[c])
    ensures c < |Last(s, moves).pcs| && Inited(Last(s, moves).pcs[c])
    decreases |moves|
  {
    hide Step, Last;
    LastNext(s, moves);
    if moves != [] && s.pcs[c] != Looping {
      StepAhead(s, moves[0], c);
      StartsSoon(Step(s, moves[0]), moves[1..], c);
    } else if moves != [] {
      LoopsExactly(s, moves, c);
    }
  }

  /** A core that starts is through its init within five of its own steps, and the kernel then past it. */
  lemma InitEnds(n: nat, moves: seq<Move>, c: nat)
    requires c < n && OwnMoves(moves, c) >= 5
    ensures var t := Last(Booted(n), moves); c < |t.pcs| && Inited(t.pcs[c]) && !PreRunning(t.kernel)
  {
    hide Trace;
    StartsSoon(Booted(n), moves, c);
    LifecycleHolds(n, moves, |moves|, |moves|);
  }

  // ----- the kernel object -----

  class Kernel {
    var state: KernelState
    var rejected: seq<KernelState>   // invalid requests, as logged

    constructor ()
      ensures state == Unconfigured && rejected == []
    {
      state, rejected := Unconfigured, [];
    }

    method TransitionTo(target: KernelState) returns (ok: bool)
      modifies this
      ensures ok == Allowed(old(state), target) && state == Transition(old(state), target)
      ensures rejected == old(rejected) + if ok then [] else [target]
    {
      ok := false;
      match state {
        case Unconfigured => ok := target == Configured;
        case Configured => ok := target == Initializing;
        case Initializing => ok := target == Running;
        case Running => ok := target == Suspending || target == Aborting || target == ShuttingDown;
        case Suspending => ok := target == Suspended;
        case Suspended => ok := target == Running || target == ShuttingDown;
        case Aborting => ok := target == Aborted;
        case Aborted => ok := target == Running || target == ShuttingDown;
        case ShuttingDown => ok := target == Shutdown;
        case Shutdown => ok := false;
      }
      if ok {
        state := target;
        return;
      }
      rejected := rejected + [target];
    }

    /** The last phase of run, undisturbed; it never asks for an invalid transition. */
    method Finish()
      modifies this
      ensures state == FinishAlone(old(state)) && rejected == old(rejected)
    {
      if state == Running {
        var _ := TransitionTo(ShuttingDown);
      }
      if state == ShuttingDown {
        var _ := TransitionTo(Shutdown);
      }
    }
  }
}
