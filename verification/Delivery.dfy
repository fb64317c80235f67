/**
 * The cross-core command path: the comms task (ScheduledCommsTask.h) pushes and answers, the
 * control task (ScheduledControlTask.h) checks safety, pops and hands over to the
 * application. Their steps interleave arbitrarily on top of the queue's atomic steps.
 */
module Delivery {
  import opened Bytes
  import opened LockFreeQueues
  import Ring
  import opened SpscQueue

  /** The comms tick: read the stream, then drain the one-command slot: push, answer, look again. */
  datatype Comms<C> = Between | Draining | Pushing(cmd: C) | Answering(cmd: C, accepted: bool)

  /** The control tick: ask the monitors one by one, pop and handle commands, tick the application. */
  datatype Control<C> = Asleep | Monitoring(next: nat) | Popping(count: nat) | Handling(cmd: C, count: nat) | Ticking

  datatype Answer<C> = Ack(cmd: C) | Nack(cmd: C)

  /** A finished control tick: whether a monitor found it unsafe, and what the application handled. */
  datatype Tick<C> = Tick(unsafe: bool, handled: seq<C>)

  datatype System<C> = System(
    queue: State<C>, comms: Comms<C>, control: Control<C>,
    slot: Option<C>,           // the command pending in the CLI
    taken: seq<C>,             // commands the comms task took from the CLI
    answers: seq<Answer<C>>,   // what it answered
    ticks: seq<Tick<C>>,       // finished control ticks
    current: seq<C>,           // handled so far in the running tick
    aborted: bool)             // the safety abort flag

  /** Either core moves; the environment supplies what the read completes, or a monitor's verdict. */
  datatype Move<C> = CommsMove(arrived: Option<C>) | ControlMove(safe: bool)

  datatype Config = Config(monitors: nat, maxPerTick: int)

  function CommsStep<C>(s: System<C>, arrived: Option<C>): System<C>
    requires |s.queue.slots| > 0
  {
    match s.comms
    case Between => s.(comms := Draining, slot := if arrived.Some? then arrived else s.slot)
    case Draining =>
      if s.slot.None? then s.(comms := Between)
      else s.(comms := Pushing(s.slot.value), slot := None, taken := s.taken + [s.slot.value])
    case Pushing(c) =>
      var (q, e) := ProducerStep(s.queue, c);
      var t := s.(queue := q);
      if e.Pushed? then t.(comms := Answering(c, true))
      else if e.Full? then t.(comms := Answering(c, false))
      else t
    case Answering(c, ok) =>
      s.(comms := Draining, answers := s.answers + [if ok then Ack(c) else Nack(c)])
  }

  function EndTick<C>(s: System<C>, unsafe: bool): System<C> {
    s.(control := Asleep, ticks := s.ticks + [Tick(unsafe, s.current)], current := [])
  }

  function ControlStep<C>(s: System<C>, safe: bool, cfg: Config): System<C>
    requires |s.queue.slots| > 0
  {
    match s.control
    case Asleep => s.(control := Monitoring(0))
    case Monitoring(i) =>
      if i >= cfg.monitors then s.(control := Popping(0))
      else if safe then s.(control := Monitoring(i + 1))
      else EndTick(s.(aborted := true), true)
    case Popping(n) =>
      if s.queue.consumer.Waiting? && n >= cfg.maxPerTick then s.(control := Ticking)
      else
        var (q, e) := ConsumerStep(s.queue);
        var t := s.(queue := q);
        if e.Popped? then t.(control := Handling(e.item, n))
        else if e.Empty? then t.(control := Ticking)
        else t
    case Handling(c, n) => s.(control := Popping(n + 1), current := s.current + [c])
    case Ticking => EndTick(s, false)
  }

  function Next<C>(s: System<C>, m: Move<C>, cfg: Config): (t: System<C>)
    requires |s.queue.slots| > 0
    ensures |t.queue.slots| == |s.queue.slots|
  {
    match m
    case CommsMove(arrived) => CommsStep(s, arrived)
    case ControlMove(safe) => ControlStep(s, safe, cfg)
  }

  function RunAll<C>(s: System<C>, moves: seq<Move<C>>, cfg: Config): (t: System<C>)
    requires |s.queue.slots| > 0
    ensures |t.queue.slots| == |s.queue.slots|
    decreases |moves|
  {
    if moves == [] then s else RunAll(Next(s, moves[0], cfg), moves[1..], cfg)
  }

  ghost predicate Booted<C>(s: System<C>) {
    && Fresh(s.queue) && s.comms == Between && s.control == Asleep && s.slot == None
    && s.taken == [] && s.answers == [] && s.ticks == [] && s.current == [] && !s.aborted
  }

  // ----- the logs -----

  function Acked<C>(answers: seq<Answer<C>>): seq<C> {
    if answers == [] then []
    else Acked(answers[..|answers| - 1]) + (if answers[|answers| - 1].Ack? then [answers[|answers| - 1].cmd] else [])
  }

  function Commands<C>(answers: seq<Answer<C>>): seq<C> {
    seq(|answers|, i requires 0 <= i < |answers| => answers[i].cmd)
  }

  function HandledIn<C>(ticks: seq<Tick<C>>): seq<C> {
    if ticks == [] then [] else HandledIn(ticks[..|ticks| - 1]) + ticks[|ticks| - 1].handled
  }

  /** Everything the application has handled, in order. */
  function Handled<C>(s: System<C>): seq<C> {
    HandledIn(s.ticks) + s.current
  }

  // ----- the invariant -----

  /** Published but not yet answered. */
  function Unanswered<C>(s: System<C>): seq<C> {
    if s.comms.Answering? && s.comms.accepted then [s.comms.cmd] else []
  }

  /** Taken off the queue but not yet handled. */
  function InHand<C>(s: System<C>): seq<C> {
    if s.control.Handling? then [s.control.cmd] else []
  }

  /** Taken from the CLI but not yet answered. */
  function Outstanding<C>(s: System<C>): seq<C> {
    match s.comms
    case Pushing(c) => [c]
    case Answering(c, _) => [c]
    case _ => []
  }

  ghost predicate CommsOk<C>(s: System<C>) {
    && (match s.queue.producer
        case Resting => true
        case Loaded(c, _) => s.comms == Pushing(c)
        case Roomy(c, _) => s.comms == Pushing(c)
        case Written(c, _) => s.comms == Pushing(c))
    && s.queue.accepted == Acked(s.answers) + Unanswered(s)
    && s.taken == Commands(s.answers) + Outstanding(s)
  }

  ghost predicate ControlOk<C>(s: System<C>, cfg: Config) {
    && (!s.queue.consumer.Waiting? ==> s.control.Popping? && s.control.count < cfg.maxPerTick)
    && (s.control.Handling? ==> s.control.count < cfg.maxPerTick)
    && s.queue.taken == Handled(s) + InHand(s)
    && (s.control.Popping? || s.control.Handling? ==> |s.current| == s.control.count)
    && (s.control.Asleep? || s.control.Monitoring? ==> s.current == [])
    && |s.current| <= Limit(cfg)
  }

  function Limit(cfg: Config): nat {
    if cfg.maxPerTick < 0 then 0 else cfg.maxPerTick
  }

  ghost predicate TicksOk<C>(s: System<C>, cfg: Config) {
    && (forall t :: t in s.ticks ==> |t.handled| <= Limit(cfg) && (t.unsafe ==> t.handled == []))
    && (s.aborted <==> exists t :: t in s.ticks && t.unsafe)
  }

  ghost predicate SystemInv<C>(s: System<C>, cfg: Config) {
    |s.queue.slots| >= 2 && Inv(s.queue) && CommsOk(s) && ControlOk(s, cfg) && TicksOk(s, cfg)
  }

  // ----- preservation -----

  lemma CommsKeepsQueue<C>(s: System<C>, arrived: Option<C>)
    requires |s.queue.slots| >= 2 && Inv(s.queue)
    ensures var t := CommsStep(s, arrived);
            Inv(t.queue) && t.queue.consumer == s.queue.consumer && t.queue.taken == s.queue.taken
  {
    hide Inv, Refines;
    if s.comms.Pushing? {
      StepIsFifo(s.queue, Produce(s.comms.cmd));
    }
  }

  lemma CommsKeepsComms<C>(s: System<C>, arrived: Option<C>)
    requires |s.queue.slots| >= 2 && CommsOk(s)
    ensures CommsOk(CommsStep(s, arrived))
  {
    hide Acked, Commands;
    assert s.taken + [] == s.taken && s.queue.accepted + [] == s.queue.accepted;
    match s.comms {
      case Between =>
      case Draining =>
        assert Commands(s.answers) + [] == Commands(s.answers);
      case Pushing(c) => PushKeepsComms(s, c);
      case Answering(c, ok) =>
        AnswerLogged(s.answers, if ok then Ack(c) else Nack(c));
        assert Acked(s.answers) + [] == Acked(s.answers);
        var t := CommsStep(s, arrived);
        assert t.queue.accepted == Acked(t.answers) + Unanswered(t);
        assert Commands(t.answers) + [] == Commands(t.answers);
    }
  }

  lemma PushKeepsComms<C>(s: System<C>, c: C)
    requires |s.queue.slots| >= 2 && CommsOk(s) && s.comms == Pushing(c)
    ensures CommsOk(CommsStep(s, None))
  {
    hide Acked, Commands;
    var t := CommsStep(s, None);
    assert Acked(s.answers) + [] == Acked(s.answers);
    assert t.queue.accepted == Acked(t.answers) + Unanswered(t);
  }

  lemma AnswerLogged<C>(answers: seq<Answer<C>>, a: Answer<C>)
    ensures Acked(answers + [a]) == Acked(answers) + (if a.Ack? then [a.cmd] else [])
    ensures Commands(answers + [a]) == Commands(answers) + [a.cmd]
  {
    assert (answers + [a])[..|answers|] == answers;
  }

  lemma CommsKeepsRest<C>(s: System<C>, arrived: Option<C>, cfg: Config)
    requires |s.queue.slots| >= 2 && ControlOk(s, cfg) && TicksOk(s, cfg)
    ensures ControlOk(CommsStep(s, arrived), cfg) && TicksOk(CommsStep(s, arrived), cfg)
  {
    hide HandledIn;
    var t := CommsStep(s, arrived);
    assert t.ticks == s.ticks && t.control == s.control && t.current == s.current && t.aborted == s.aborted;
    assert t.queue.consumer == s.queue.consumer && t.queue.taken == s.queue.taken;
  }

  lemma CommsKeepsInv<C>(s: System<C>, arrived: Option<C>, cfg: Config)
    requires SystemInv(s, cfg)
    ensures SystemInv(CommsStep(s, arrived), cfg)
  {
    CommsKeepsQueue(s, arrived);
    CommsKeepsComms(s, arrived);
    CommsKeepsRest(s, arrived, cfg);
    hide Inv, CommsOk, ControlOk, TicksOk, ProducerStep;
  }

  lemma ControlKeepsQueue<C>(s: System<C>, safe: bool, cfg: Config)
    requires |s.queue.slots| >= 2 && Inv(s.queue)
    ensures var t := ControlStep(s, safe, cfg);
            && Inv(t.queue) && t.queue.producer == s.queue.producer && t.queue.accepted == s.queue.accepted
            && t.comms == s.comms && t.answers == s.answers && t.taken == s.taken
  {
    hide Inv, Refines;
    if s.control.Popping? {
      StepIsFifo(s.queue, Consume);
    }
  }

  lemma TickLogged<C>(ticks: seq<Tick<C>>, t: Tick<C>)
    ensures HandledIn(ticks + [t]) == HandledIn(ticks) + t.handled
  {
    assert (ticks + [t])[..|ticks|] == ticks;
  }

  lemma ControlKeepsControl<C>(s: System<C>, safe: bool, cfg: Config)
    requires |s.queue.slots| >= 2 && ControlOk(s, cfg)
    ensures ControlOk(ControlStep(s, safe, cfg), cfg)
  {
    hide HandledIn;
    var t := ControlStep(s, safe, cfg);
    TickLogged(s.ticks, Tick(true, s.current));
    TickLogged(s.ticks, Tick(false, s.current));
    if s.control.Handling? {
      assert HandledIn(s.ticks) + s.current + [s.control.cmd] == HandledIn(s.ticks) + (s.current + [s.control.cmd]);
    }
    if s.control.Popping? && s.queue.consumer.Fetched? {
      var item := s.queue.consumer.item;
      assert Handled(s) + [] + [item] == Handled(s) + [item];
    }
  }

  lemma ControlKeepsTicks<C>(s: System<C>, safe: bool, cfg: Config)
    requires |s.queue.slots| >= 2 && ControlOk(s, cfg) && TicksOk(s, cfg)
    ensures TicksOk(ControlStep(s, safe, cfg), cfg)
  {
    hide HandledIn, Handled;
    var t := ControlStep(s, safe, cfg);
    if t.ticks != s.ticks {
      var last := t.ticks[|s.ticks|];
      assert t.ticks == s.ticks + [last];
      assert forall x :: x in t.ticks <==> x in s.ticks || x == last;
    }
  }

  lemma ControlKeepsInv<C>(s: System<C>, safe: bool, cfg: Config)
    requires SystemInv(s, cfg)
    ensures SystemInv(ControlStep(s, safe, cfg), cfg)
  {
    ControlKeepsQueue(s, safe, cfg);
    ControlKeepsControl(s, safe, cfg);
    ControlKeepsTicks(s, safe, cfg);
    assert CommsOk(ControlStep(s, safe, cfg));
    hide Inv, CommsOk, ControlOk, TicksOk, ConsumerStep;
  }

  lemma {:induction false} RunKeepsInv<C>(s: System<C>, moves: seq<Move<C>>, cfg: Config)
    requires |s.queue.slots| >= 2 && SystemInv(s, cfg)
    ensures SystemInv(RunAll(s, moves, cfg), cfg)
    decreases |moves|
  {
    hide SystemInv, CommsStep, ControlStep;
    if moves != [] {
      match moves[0] {
        case CommsMove(arrived) => CommsKeepsInv(s, arrived, cfg);
        case ControlMove(safe) => ControlKeepsInv(s, safe, cfg);
      }
      RunKeepsInv(Next(s, moves[0], cfg), moves[1..], cfg);
    }
  }

  lemma BootedInv<C>(s: System<C>, cfg: Config)
    requires Booted(s)
    ensures SystemInv(s, cfg)
  {
    FreshInv(s.queue);
    assert Handled(s) == [];
  }

  // ----- what the command path promises -----

  lemma InvDelivers<C>(s: System<C>, cfg: Config)
    requires SystemInv(s, cfg)
    ensures InRange(s.queue)
    ensures Handled(s) + InHand(s) + Contents(s.queue) == Acked(s.answers) + Unanswered(s)
  {
    hide Contents, Acked, Handled;
    InvIndexed(s.queue);
    hide Inv;
    ContentsIs(s.queue);
  }

  /**
   * End-to-end delivery. In every interleaving, what the application handled, followed by
   * what is still on its way, is what was acknowledged, in order; every command taken from
   * the CLI has exactly one answer, or is the one in the comms task's hands.
   */
  lemma EndToEnd<C>(s: System<C>, moves: seq<Move<C>>, cfg: Config)
    requires Booted(s)
    ensures var t := RunAll(s, moves, cfg);
            && InRange(t.queue)
            && Handled(t) + InHand(t) + Contents(t.queue) == Acked(t.answers) + Unanswered(t)
            && t.taken == Commands(t.answers) + Outstanding(t)
  {
    BootedInv(s, cfg);
    RunKeepsInv(s, moves, cfg);
    InvDelivers(RunAll(s, moves, cfg), cfg);
    hide RunAll, Inv, ControlOk, TicksOk, Contents, Acked, Handled;
  }

  /**
   * No control tick handles more than its limit, and an unsafe one handles nothing and raises
   * the abort flag for good.
   */
  lemma TicksAreBounded<C>(s: System<C>, moves: seq<Move<C>>, cfg: Config)
    requires Booted(s)
    ensures var t := RunAll(s, moves, cfg);
            && (forall k :: k in t.ticks ==> |k.handled| <= Limit(cfg) && (k.unsafe ==> k.handled == []))
            && |t.current| <= Limit(cfg)
            && (t.control.Asleep? || t.control.Monitoring? ==> t.current == [])
            && (t.aborted <==> exists k :: k in t.ticks && k.unsafe)
  {
    BootedInv(s, cfg);
    RunKeepsInv(s, moves, cfg);
    hide RunAll, Inv, CommsOk, Handled;
  }

  /** A refusal means the queue was full when the push looked, an acceptance that it grew by the command. */
  lemma AnswersAreTruthful<C>(s: System<C>, arrived: Option<C>, cfg: Config)
    requires |s.queue.slots| >= 2 && SystemInv(s, cfg) && s.comms.Pushing?
    ensures var t := CommsStep(s, arrived);
            && InRange(s.queue) && InRange(t.queue)
            && (t.comms == Answering(s.comms.cmd, false) ==>
                  |Contents(s.queue)| == Capacity(s.queue) && Contents(t.queue) == Contents(s.queue))
            && (t.comms == Answering(s.comms.cmd, true) ==>
                  |Contents(s.queue)| < Capacity(s.queue) && Contents(t.queue) == Contents(s.queue) + [s.comms.cmd])
  {
    hide Inv, Contents, ControlOk, TicksOk;
    StepIsFifo(s.queue, Produce(s.comms.cmd));
  }

  // ----- the comms tick ends -----

  function PushSteps<C>(p: Producer<C>): nat {
    match p
    case Resting => 4
    case Loaded(_, _) => 3
    case Roomy(_, _) => 2
    case Written(_, _) => 1
  }

  /** How many of its own steps the comms task still needs to finish its tick. */
  function Remaining<C>(s: System<C>): (n: nat)
    ensures n <= 7 && (n == 0 <==> s.comms == Between)
  {
    match s.comms
    case Between => 0
    case Draining => if s.slot.None? then 1 else 7
    case Pushing(_) => 2 + PushSteps(s.queue.producer)
    case Answering(_, _) => 2
  }

  /** The slot is refilled only by a read, so a command being pushed leaves it empty. */
  ghost predicate SlotOk<C>(s: System<C>) {
    (s.comms.Pushing? || s.comms.Answering? ==> s.slot.None?) && (s.comms.Between? ==> s.slot.None?)
  }

  lemma KeepsSlot<C>(s: System<C>, m: Move<C>, cfg: Config)
    requires |s.queue.slots| >= 2 && SlotOk(s)
    ensures SlotOk(Next(s, m, cfg))
  {
    hide ProducerStep, ConsumerStep;
  }

  lemma CommsCountsDown<C>(s: System<C>, arrived: Option<C>)
    requires |s.queue.slots| >= 2 && CommsOk(s) && SlotOk(s) && s.comms != Between
    ensures Remaining(CommsStep(s, arrived)) < Remaining(s)
  {
    hide Acked, Commands, Unanswered;
  }

  lemma ControlCountsNothing<C>(s: System<C>, safe: bool, cfg: Config)
    requires |s.queue.slots| >= 2 && Inv(s.queue)
    ensures Remaining(ControlStep(s, safe, cfg)) == Remaining(s)
    ensures ControlStep(s, safe, cfg).comms == s.comms
  {
    ControlKeepsQueue(s, safe, cfg);
    hide Inv, ConsumerStep;
  }

  lemma CountsDown<C>(s: System<C>, m: Move<C>, cfg: Config)
    requires |s.queue.slots| >= 2 && SystemInv(s, cfg) && SlotOk(s) && s.comms != Between
    ensures Remaining(Next(s, m, cfg)) <= Remaining(s) - (if m.CommsMove? then 1 else 0)
  {
    hide Inv, CommsOk, ControlOk, TicksOk, Remaining, CommsStep, ControlStep, SlotOk;
    match m {
      case CommsMove(arrived) => CommsCountsDown(s, arrived);
      case ControlMove(safe) => ControlCountsNothing(s, safe, cfg);
    }
  }

  function CommsMoves<C>(moves: seq<Move<C>>): nat {
    if moves == [] then 0 else (if moves[0].CommsMove? then 1 else 0) + CommsMoves(moves[1..])
  }

  lemma {:induction false} DrainEnds<C>(s: System<C>, moves: seq<Move<C>>, cfg: Config) returns (k: nat)
    requires |s.queue.slots| >= 2 && SystemInv(s, cfg) && SlotOk(s)
    requires CommsMoves(moves) >= Remaining(s)
    ensures k <= |moves| && RunAll(s, moves[..k], cfg).comms == Between
    decreases |moves|
  {
    hide SystemInv, CommsStep, ControlStep, SlotOk, Remaining;
    if s.comms == Between {
      k := 0;
    } else {
      CountsDown(s, moves[0], cfg);
      KeepsSlot(s, moves[0], cfg);
      RunKeepsInv(s, [moves[0]], cfg);
      assert [moves[0]][1..] == [] && RunAll(s, [moves[0]], cfg) == Next(s, moves[0], cfg);
      var j := DrainEnds(Next(s, moves[0], cfg), moves[1..], cfg);
      k := j + 1;
      assert moves[..k][1..] == moves[1..][..j];
    }
  }

  lemma {:induction false} RunKeepsSlot<C>(s: System<C>, moves: seq<Move<C>>, cfg: Config)
    requires |s.queue.slots| >= 2 && SlotOk(s)
    ensures SlotOk(RunAll(s, moves, cfg))
    decreases |moves|
  {
    hide SlotOk, Next;
    if moves != [] {
      KeepsSlot(s, moves[0], cfg);
      RunKeepsSlot(Next(s, moves[0], cfg), moves[1..], cfg);
    }
  }

  /**
   * The drain loop terminates: from any reachable state seven more of its own steps finish
   * the tick, however many steps the control core takes in between.
   */
  lemma DrainTerminates<C>(s: System<C>, before: seq<Move<C>>, after: seq<Move<C>>, cfg: Config) returns (k: nat)
    requires Booted(s)
    requires CommsMoves(after) >= 7
    ensures k <= |after| && RunAll(RunAll(s, before, cfg), after[..k], cfg).comms == Between
  {
    BootedInv(s, cfg);
    RunKeepsInv(s, before, cfg);
    RunKeepsSlot(s, before, cfg);
    hide SystemInv, SlotOk, Remaining, RunAll;
    k := DrainEnds(RunAll(s, before, cfg), after, cfg);
  }

  // ----- the monitors come first -----

  /** What the environment told the control task in each finished tick, and in the one in progress. */
  datatype Heard = Heard(done: seq<seq<bool>>, now: seq<bool>)

  function Hear<C>(s: System<C>, h: Heard, m: Move<C>, cfg: Config): Heard
    requires |s.queue.slots| > 0
  {
    if m.CommsMove? then h
    else if |Next(s, m, cfg).ticks| > |s.ticks| then Heard(h.done + [h.now + [m.safe]], [])
    else h.(now := h.now + [m.safe])
  }

  function HearAll<C>(s: System<C>, h: Heard, moves: seq<Move<C>>, cfg: Config): Heard
    requires |s.queue.slots| > 0
    decreases |moves|
  {
    if moves == [] then h else HearAll(Next(s, moves[0], cfg), Hear(s, h, moves[0], cfg), moves[1..], cfg)
  }

  /** Every monitor was asked and found the system safe. The first word of a tick only wakes the task. */
  predicate Cleared(heard: seq<bool>, monitors: nat) {
    |heard| > monitors && forall j :: 1 <= j <= monitors ==> heard[j]
  }

  /** Some monitor was asked and objected. */
  predicate Objected(heard: seq<bool>, monitors: nat) {
    exists j :: 1 <= j <= monitors && j < |heard| && !heard[j]
  }

  /** Where the control task stands, by what it was told in this tick. */
  ghost predicate Attentive<C>(s: System<C>, now: seq<bool>, cfg: Config) {
    match s.control
    case Asleep => now == []
    case Monitoring(i) => i <= cfg.monitors && |now| == i + 1 && forall j :: 1 <= j <= i ==> now[j]
    case _ => Cleared(now, cfg.monitors)
  }

  /** A finished tick is unsafe exactly if a monitor objected; otherwise all of them agreed. */
  ghost predicate Judged<C>(s: System<C>, h: Heard, cfg: Config) {
    && |h.done| == |s.ticks|
    && forall k :: 0 <= k < |h.done| ==>
         if s.ticks[k].unsafe then Objected(h.done[k], cfg.monitors) else Cleared(h.done[k], cfg.monitors)
  }

  lemma ControlHears<C>(s: System<C>, h: Heard, safe: bool, cfg: Config)
    requires |s.queue.slots| >= 2 && Attentive(s, h.now, cfg) && Judged(s, h, cfg)
    ensures var t := ControlStep(s, safe, cfg);
            var g := Hear(s, h, ControlMove(safe), cfg);
            Attentive(t, g.now, cfg) && Judged(t, g, cfg)
    ensures var t := ControlStep(s, safe, cfg);
            t.queue != s.queue || |t.current| > |s.current| ==> Cleared(h.now, cfg.monitors)
  {
    hide ConsumerStep;
    var t := ControlStep(s, safe, cfg);
    if t.control.Asleep? && t.ticks != s.ticks {
      assert t.ticks[..|s.ticks|] == s.ticks;
      if s.control.Monitoring? {
        assert !(h.now + [safe])[s.control.next + 1];
      }
    }
  }

  lemma {:induction false} RunHears<C>(s: System<C>, h: Heard, moves: seq<Move<C>>, cfg: Config)
    requires |s.queue.slots| >= 2 && Attentive(s, h.now, cfg) && Judged(s, h, cfg)
    ensures var t := RunAll(s, moves, cfg);
            var g := HearAll(s, h, moves, cfg);
            Attentive(t, g.now, cfg) && Judged(t, g, cfg)
    decreases |moves|
  {
    hide CommsStep, ControlStep, Attentive, Judged;
    if moves != [] {
      match moves[0] {
        case CommsMove(arrived) => CommsHears(s, h, arrived, cfg);
        case ControlMove(safe) => ControlHears(s, h, safe, cfg);
      }
      RunHears(Next(s, moves[0], cfg), Hear(s, h, moves[0], cfg), moves[1..], cfg);
    }
  }

  lemma CommsHears<C>(s: System<C>, h: Heard, arrived: Option<C>, cfg: Config)
    requires |s.queue.slots| >= 2 && Attentive(s, h.now, cfg) && Judged(s, h, cfg)
    ensures Attentive(CommsStep(s, arrived), h.now, cfg) && Judged(CommsStep(s, arrived), h, cfg)
  {
    hide ProducerStep;
  }

  /**
   * In every interleaving a finished control tick is unsafe if and only if one of its monitors,
   * asked in turn, objected; and none of its steps touches the queue or hands over a command
   * before every monitor has agreed.
   */
  lemma MonitorsComeFirst<C>(s: System<C>, moves: seq<Move<C>>, safe: bool, cfg: Config)
    requires Booted(s)
    ensures var t, h := RunAll(s, moves, cfg), HearAll(s, Heard([], []), moves, cfg);
            var u := ControlStep(t, safe, cfg);
            && |h.done| == |t.ticks|
            && (forall k :: 0 <= k < |t.ticks| ==> (t.ticks[k].unsafe <==> Objected(h.done[k], cfg.monitors)))
            && (forall k :: 0 <= k < |t.ticks| && !t.ticks[k].unsafe ==> Cleared(h.done[k], cfg.monitors))
            && (u.queue != t.queue || |u.current| > |t.current| ==> Cleared(h.now, cfg.monitors))
  {
    hide RunAll, ConsumerStep;
    RunHears(s, Heard([], []), moves, cfg);
    ControlHears(RunAll(s, moves, cfg), HearAll(s, Heard([], []), moves, cfg), safe, cfg);
  }

  // ----- a control tick on its own -----

  /** The oldest items of a queue, as many as a limit allows. */
  function Oldest<C>(queued: seq<C>, limit: int): (r: seq<C>)
    ensures |r| <= |queued| && queued == r + queued[|r|..]
    ensures |r| <= limit || r == []
    ensures |r| < limit ==> r == queued
  {
    if limit <= 0 then [] else if limit < |queued| then queued[..limit] else queued
  }

  /** Nothing but the control task moves, its monitors saying `verdicts` in turn. */
  function Alone<C>(verdicts: seq<bool>): (moves: seq<Move<C>>)
    ensures |moves| == |verdicts|
  {
    seq(|verdicts|, i requires 0 <= i < |verdicts| => ControlMove(verdicts[i]))
  }

  lemma {:induction false} RunConcat<C>(s: System<C>, a: seq<Move<C>>, b: seq<Move<C>>, cfg: Config)
    requires |s.queue.slots| > 0
    ensures RunAll(s, a + b, cfg) == RunAll(RunAll(s, a, cfg), b, cfg)
    decreases |a|
  {
    hide Next;
    if a == [] {
      assert a + b == b;
    } else {
      assert (a + b)[0] == a[0] && (a + b)[1..] == a[1..] + b;
      RunConcat(Next(s, a[0], cfg), a[1..], b, cfg);
    }
  }

  lemma RunOne<C>(s: System<C>, m: Move<C>, cfg: Config)
    requires |s.queue.slots| > 0
    ensures RunAll(s, [m], cfg) == Next(s, m, cfg)
  {
    hide Next;
    assert [m][1..] == [];
  }

  /** The queue at rest on the control side. */
  ghost predicate AtRest<C>(q: State<C>) {
    |q.slots| >= 2 && Inv(q) && q.consumer == Waiting
  }

  /** Control moves alone, none of which is a verdict. */
  ghost predicate ControlOnly<C>(moves: seq<Move<C>>) {
    forall m :: m in moves ==> m.ControlMove?
  }

  lemma FourSteps<C>(s: System<C>, s1: System<C>, s2: System<C>, s3: System<C>, s4: System<C>, cfg: Config)
    requires |s.queue.slots| == |s1.queue.slots| == |s2.queue.slots| == |s3.queue.slots| > 0
    requires s1 == ControlStep(s, true, cfg) && s2 == ControlStep(s1, true, cfg)
    requires s3 == ControlStep(s2, true, cfg) && s4 == ControlStep(s3, true, cfg)
    ensures RunAll(s, Alone([true, true, true, true]), cfg) == s4
  {
    hide ControlStep;
    var m: Move<C> := ControlMove(true);
    assert Alone([true, true, true, true]) == [m] + ([m] + ([m] + [m]));
    RunConcat(s, [m], [m] + ([m] + [m]), cfg);
    RunConcat(s1, [m], [m] + [m], cfg);
    RunConcat(s2, [m], [m], cfg);
    RunOne(s, m, cfg);
    RunOne(s1, m, cfg);
    RunOne(s2, m, cfg);
    RunOne(s3, m, cfg);
  }

  /** The pop of a command that is there. */
  lemma PopsOne<C>(s: System<C>, n: nat, cfg: Config)
    requires AtRest(s.queue) && s.control == Popping(n) && n < cfg.maxPerTick
    requires InRange(s.queue) && Contents(s.queue) != []
    ensures var t := RunAll(s, Alone([true, true, true, true]), cfg);
            && AtRest(t.queue) && InRange(t.queue) && Contents(t.queue) == Contents(s.queue)[1..]
            && t == s.(queue := t.queue, control := Handling(Contents(s.queue)[0], n))
  {
    hide Inv, Contents, Ring.Next, Run;
    SoloPop(s.queue);
    var q := s.queue;
    var s1 := s.(queue := q.(consumer := Started(q.tail)));
    var s2 := s.(queue := q.(consumer := Ready(q.tail)));
    var item := q.slots[q.tail];
    var s3 := s.(queue := q.(consumer := Fetched(q.tail, item)));
    var r := q.(tail := Ring.Next(q.tail, |q.slots|), taken := q.taken + [item]);
    var s4 := s.(queue := r, control := Handling(item, n));
    FourSteps(s, s1, s2, s3, s4, cfg);
    assert r == Run(q, seq(4, _ => Consume)).0;
  }

  /** The queue found empty, or the limit reached. */
  lemma StopsPopping<C>(s: System<C>, n: nat, cfg: Config) returns (moves: seq<Move<C>>)
    requires AtRest(s.queue) && s.control == Popping(n) && InRange(s.queue)
    requires n >= cfg.maxPerTick || Contents(s.queue) == []
    ensures ControlOnly(moves) && RunAll(s, moves, cfg) == s.(control := Ticking)
  {
    hide Inv, Contents, Ring.Next, Run;
    SoloPop(s.queue);
    var m: Move<C> := ControlMove(true);
    if n >= cfg.maxPerTick {
      moves := [m];
      RunOne(s, m, cfg);
    } else {
      moves := [m, m];
      var s1 := s.(queue := s.queue.(consumer := Started(s.queue.tail)));
      assert [m, m] == [m] + [m];
      RunConcat(s, [m], [m], cfg);
      RunOne(s, m, cfg);
      RunOne(s1, m, cfg);
    }
  }

  /** The drain: the oldest commands up to the limit, fewer only when the queue is empty. */
  lemma {:induction false} DrainsAlone<C>(s: System<C>, n: nat, cfg: Config) returns (moves: seq<Move<C>>)
    requires AtRest(s.queue) && s.control == Popping(n) && InRange(s.queue)
    ensures ControlOnly(moves)
    ensures var t := RunAll(s, moves, cfg);
            var handled := Oldest(Contents(s.queue), cfg.maxPerTick - n);
            && AtRest(t.queue) && InRange(t.queue) && Contents(t.queue) == Contents(s.queue)[|handled|..]
            && t == s.(queue := t.queue, control := Ticking, current := s.current + handled)
    decreases |Contents(s.queue)|
  {
    hide AtRest, Contents, RunAll, ControlStep;
    if n >= cfg.maxPerTick || Contents(s.queue) == [] {
      moves := StopsPopping(s, n, cfg);
      assert s.current + [] == s.current;
    } else {
      var five, v := TakesOne(s, n, cfg);
      var rest := DrainsAlone(v, n + 1, cfg);
      moves := five + rest;
      RunConcat(s, five, rest, cfg);
      OldestNext(Contents(s.queue), cfg.maxPerTick - n, s.current);
    }
  }

  lemma OldestNext<C>(queued: seq<C>, limit: int, current: seq<C>)
    requires queued != [] && limit > 0
    ensures var more := Oldest(queued[1..], limit - 1);
            && Oldest(queued, limit) == [queued[0]] + more
            && current + Oldest(queued, limit) == current + [queued[0]] + more
            && queued[1..][|more|..] == queued[|more| + 1..]
  {
  }

  /** One command popped and handed over. */
  lemma TakesOne<C>(s: System<C>, n: nat, cfg: Config) returns (moves: seq<Move<C>>, v: System<C>)
    requires AtRest(s.queue) && s.control == Popping(n) && n < cfg.maxPerTick
    requires InRange(s.queue) && Contents(s.queue) != []
    ensures ControlOnly(moves) && v == RunAll(s, moves, cfg)
    ensures AtRest(v.queue) && InRange(v.queue) && Contents(v.queue) == Contents(s.queue)[1..]
    ensures v == s.(queue := v.queue, control := Popping(n + 1), current := s.current + [Contents(s.queue)[0]])
  {
    hide AtRest, Contents, RunAll, ControlStep;
    var four: seq<Move<C>> := Alone([true, true, true, true]);
    PopsOne(s, n, cfg);
    var u := RunAll(s, four, cfg);
    moves := four + [ControlMove(true)];
    RunConcat(s, four, [ControlMove(true)], cfg);
    RunOne(u, ControlMove(true), cfg);
    v := Handled1(u, Contents(s.queue)[0], n, cfg);
  }

  lemma Handled1<C>(u: System<C>, item: C, n: nat, cfg: Config) returns (v: System<C>)
    requires |u.queue.slots| > 0 && u.control == Handling(item, n)
    ensures v == ControlStep(u, true, cfg) == u.(control := Popping(n + 1), current := u.current + [item])
  {
    v := ControlStep(u, true, cfg);
  }

  /** The monitors asked in turn, up to the first that objects, and the step on once all agreed. */
  function Asks<C>(verdicts: seq<bool>): seq<Move<C>> {
    if verdicts == [] then [ControlMove(true)]
    else [ControlMove(verdicts[0])] + if verdicts[0] then Asks(verdicts[1..]) else []
  }

  lemma {:induction false} AsksAlone<C>(s: System<C>, i: nat, verdicts: seq<bool>, cfg: Config)
    requires |s.queue.slots| > 0 && s.control == Monitoring(i) && i + |verdicts| == cfg.monitors
    ensures ControlOnly(Asks<C>(verdicts))
    ensures RunAll(s, Asks(verdicts), cfg) ==
            if false in verdicts then EndTick(s.(aborted := true), true) else s.(control := Popping(0))
    decreases |verdicts|
  {
    hide RunAll, EndTick;
    if verdicts == [] {
      RunOne(s, ControlMove(true), cfg);
    } else {
      var m: Move<C> := ControlMove(verdicts[0]);
      RunOne(s, m, cfg);
      assert verdicts == [verdicts[0]] + verdicts[1..];
      if verdicts[0] {
        AsksAlone(s.(control := Monitoring(i + 1)), i + 1, verdicts[1..], cfg);
        RunConcat(s, [m], Asks(verdicts[1..]), cfg);
        Renamed(s, i, i + 1);
      } else {
        assert [m] + [] == [m];
      }
    }
  }

  lemma Renamed<C>(s: System<C>, i: nat, j: nat)
    ensures var t := s.(control := Monitoring(j));
            && EndTick(t.(aborted := true), true) == EndTick(s.(aborted := true), true)
            && t.(control := Popping(0)) == s.(control := Popping(0))
  {
  }

  /** What a control tick hands over. */
  function TickHandles<C>(queued: seq<C>, unsafe: bool, limit: int): seq<C> {
    if unsafe then [] else Oldest(queued, limit)
  }

  /**
   * A control tick that nothing interrupts, from any state in which the task sleeps: its
   * monitors objecting or not as given, it ends as the task's tick over the queue object does.
   */
  lemma TickAlone<C>(s: System<C>, verdicts: seq<bool>, cfg: Config) returns (moves: seq<Move<C>>)
    requires AtRest(s.queue) && s.control == Asleep && s.current == [] && |verdicts| == cfg.monitors
    ensures ControlOnly(moves) && InRange(s.queue)
    ensures [ControlMove(true)] + Asks(verdicts) <= moves
    ensures var t := RunAll(s, moves, cfg);
            var unsafe := false in verdicts;
            var handled := TickHandles(Contents(s.queue), unsafe, cfg.maxPerTick);
            && AtRest(t.queue) && InRange(t.queue) && Contents(s.queue) == handled + Contents(t.queue)
            && t == s.(queue := t.queue, ticks := s.ticks + [Tick(unsafe, handled)], aborted := s.aborted || unsafe)
  {
    hide AtRest, Contents, RunAll;
    RestInRange(s.queue);
    var wake: Move<C> := ControlMove(true);
    var u := s.(control := Monitoring(0));
    RunOne(s, wake, cfg);
    AsksAlone(u, 0, verdicts, cfg);
    moves := [wake] + Asks(verdicts);
    RunConcat(s, [wake], Asks(verdicts), cfg);
    if false !in verdicts {
      var v := s.(control := Popping(0));
      var drain := DrainsAlone(v, 0, cfg);
      RunConcat(s, moves, drain, cfg);
      var w := RunAll(v, drain, cfg);
      RunConcat(s, moves + drain, [wake], cfg);
      RunOne(w, wake, cfg);
      moves := moves + drain + [wake];
      assert [] + Oldest(Contents(s.queue), cfg.maxPerTick) == Oldest(Contents(s.queue), cfg.maxPerTick);
    }
  }

  lemma RestInRange<C>(q: State<C>)
    requires AtRest(q)
    ensures InRange(q)
  {
    InvIndexed(q);
    hide Inv;
    ContentsIs(q);
  }

  // ----- nothing that arrives is lost before the queue -----

  /** What the reads of a run completed. */
  function Arrivals<C>(s: System<C>, moves: seq<Move<C>>, cfg: Config): seq<C>
    requires |s.queue.slots| > 0
    decreases |moves|
  {
    if moves == [] then []
    else
      (if moves[0].CommsMove? && s.comms.Between? && moves[0].arrived.Some? then [moves[0].arrived.value] else []) +
      Arrivals(Next(s, moves[0], cfg), moves[1..], cfg)
  }

  /** What the comms task has taken, and what still waits in the slot. */
  function Received<C>(s: System<C>): seq<C> {
    s.taken + if s.slot.Some? then [s.slot.value] else []
  }

  lemma StepReceives<C>(s: System<C>, m: Move<C>, cfg: Config)
    requires |s.queue.slots| > 0 && SlotOk(s)
    ensures Received(Next(s, m, cfg)) ==
            Received(s) + if m.CommsMove? && s.comms.Between? && m.arrived.Some? then [m.arrived.value] else []
  {
    hide ProducerStep, ConsumerStep;
  }

  lemma {:induction false} RunReceives<C>(s: System<C>, moves: seq<Move<C>>, cfg: Config)
    requires |s.queue.slots| >= 2 && SlotOk(s)
    ensures Received(RunAll(s, moves, cfg)) == Received(s) + Arrivals(s, moves, cfg)
    decreases |moves|
  {
    hide Next, Received, SlotOk;
    if moves == [] {
      assert Received(s) + [] == Received(s);
    } else {
      StepReceives(s, moves[0], cfg);
      KeepsSlot(s, moves[0], cfg);
      RunReceives(Next(s, moves[0], cfg), moves[1..], cfg);
    }
  }

  /** In every run the comms task takes up each command that a read completes, once and in order. */
  lemma ArrivalsAreTaken<C>(s: System<C>, moves: seq<Move<C>>, cfg: Config)
    requires Booted(s)
    ensures Received(RunAll(s, moves, cfg)) == Arrivals(s, moves, cfg)
  {
    hide RunAll;
    RunReceives(s, moves, cfg);
    assert [] + Arrivals(s, moves, cfg) == Arrivals(s, moves, cfg);
  }
}

/** The two task bodies over the queue object, each running alone. */
module CommandTasks {
  import opened Bytes
  import opened Delivery
  import opened LockFreeQueues

  lemma IsOldest<C>(queued: seq<C>, handled: seq<C>, rest: seq<C>, limit: int)
    requires queued == handled + rest && (|handled| <= limit || handled == [])
    requires |handled| < limit ==> rest == []
    ensures handled == Oldest(queued, limit)
  {
  }

  class ControlTask<C(0)> {
    const queue: LockFreeQueue<C>
    const maxPerTick: int

    constructor (queue: LockFreeQueue<C>, maxPerTick: int)
      ensures this.queue == queue && this.maxPerTick == maxPerTick
    {
      this.queue, this.maxPerTick := queue, maxPerTick;
    }

    /** `None` is a null monitor, which is never asked. */
    method EvaluateSafety(monitors: seq<Option<bool>>) returns (safe: bool)
      ensures safe <==> Some(false) !in monitors
    {
      for i := 0 to |monitors|
        invariant Some(false) !in monitors[..i]
      {
        if monitors[i].Some? && !monitors[i].value {
          return false;
        }
      }
      safe := true;
    }

    /** Hands over the oldest commands, as many as there are up to the limit. */
    method ProcessCommands() returns (handled: seq<C>)
      requires queue.Valid()
      modifies queue, queue.buf
      ensures queue.Valid() && old(queue.Queued()) == handled + queue.Queued()
      ensures handled == Oldest(old(queue.Queued()), maxPerTick)
    {
      hide LockFreeQueue.Valid, LockFreeQueue.Queued, LockFreeQueue.Machine;
      handled := [];
      ghost var start := queue.Queued();
      var more := true;
      while |handled| < maxPerTick && more
        invariant queue.Valid() && start == handled + queue.Queued()
        invariant |handled| <= maxPerTick || handled == []
        invariant !more ==> queue.Queued() == []
        decreases maxPerTick - |handled|, more
      {
        var r := queue.TryPop();
        match r
        case None => more := false;
        case Some(cmd) => handled := handled + [cmd];
      }
      IsOldest(start, handled, queue.Queued(), maxPerTick);
    }

    /** An unsafe tick leaves the queue alone. */
    method RunTick(monitors: seq<Option<bool>>) returns (abort: bool, handled: seq<C>)
      requires queue.Valid()
      modifies queue, queue.buf
      ensures queue.Valid() && old(queue.Queued()) == handled + queue.Queued()
      ensures abort <==> Some(false) in monitors
      ensures handled == TickHandles(old(queue.Queued()), abort, maxPerTick)
    {
      var safe := EvaluateSafety(monitors);
      if !safe {
        return true, [];
      }
      handled := ProcessCommands();
      abort := false;
    }
  }
}
