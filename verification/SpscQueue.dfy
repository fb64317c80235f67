/**
 * The single-producer single-consumer command queue (LockFreeQueue.h) as a machine of atomic
 * steps: every index load, slot access and index store is a step of its own, and the two
 * sides interleave arbitrarily. Memory is sequentially consistent.
 */
module SpscQueue {
  import opened Ring

  /** Where a push stands: its index loaded, found not full, its slot written. */
  datatype Producer<T> = Resting | Loaded(item: T, head: nat) | Roomy(item: T, head: nat) | Written(item: T, head: nat)

  /** Where a pop stands: its index loaded, found not empty, its slot read. */
  datatype Consumer<T> = Waiting | Started(tail: nat) | Ready(tail: nat) | Fetched(tail: nat, item: T)

  /** Shared memory, the two program counters, and the history of accepted and taken items. */
  datatype State<T> = State(
    slots: seq<T>, head: nat, tail: nat,
    producer: Producer<T>, consumer: Consumer<T>,
    accepted: seq<T>, taken: seq<T>)

  /** What a step returns to the caller: a push or pop completes, or nothing yet. */
  datatype Event<T> = Silent | Pushed(item: T) | Full | Popped(item: T) | Empty

  datatype Action<T> = Produce(item: T) | Consume

  function ProducerStep<T>(s: State<T>, item: T): (State<T>, Event<T>)
    requires |s.slots| > 0
  {
    match s.producer
    case Resting => (s.(producer := Loaded(item, s.head)), Silent)
    case Loaded(c, h) =>
      if Next(h, |s.slots|) == s.tail then (s.(producer := Resting), Full)
      else (s.(producer := Roomy(c, h)), Silent)
    case Roomy(c, h) =>
      (s.(slots := if h < |s.slots| then s.slots[h := c] else s.slots, producer := Written(c, h)), Silent)
    case Written(c, h) =>
      (s.(head := Next(h, |s.slots|), producer := Resting, accepted := s.accepted + [c]), Pushed(c))
  }

  function ConsumerStep<T>(s: State<T>): (State<T>, Event<T>)
    requires |s.slots| > 0
  {
    match s.consumer
    case Waiting => (s.(consumer := Started(s.tail)), Silent)
    case Started(t) =>
      if t == s.head then (s.(consumer := Waiting), Empty) else (s.(consumer := Ready(t)), Silent)
    case Ready(t) =>
      if t < |s.slots| then (s.(consumer := Fetched(t, s.slots[t])), Silent) else (s, Silent)
    case Fetched(t, item) =>
      (s.(tail := Next(t, |s.slots|), consumer := Waiting, taken := s.taken + [item]), Popped(item))
  }

  function Step<T>(s: State<T>, a: Action<T>): (r: (State<T>, Event<T>))
    requires |s.slots| > 0
    ensures |r.0.slots| == |s.slots|
  {
    match a
    case Produce(item) => ProducerStep(s, item)
    case Consume => ConsumerStep(s)
  }

  function Run<T>(s: State<T>, actions: seq<Action<T>>): (r: (State<T>, seq<Event<T>>))
    requires |s.slots| > 0
    ensures |r.0.slots| == |s.slots|
    decreases |actions|
  {
    if actions == [] then (s, [])
    else
      var (t, e) := Step(s, actions[0]);
      var (u, es) := Run(t, actions[1..]);
      (u, [e] + es)
  }

  /** An empty queue; one of its slots is never used at any time. */
  ghost predicate Fresh<T>(s: State<T>) {
    && |s.slots| >= 2 && s.head == s.tail == 0 && s.producer == Resting && s.consumer == Waiting
    && s.accepted == s.taken == []
  }

  function Capacity<T>(s: State<T>): int { |s.slots| - 1 }

  /** What is in the ring, as its two indices delimit it. */
  function Contents<T>(s: State<T>): seq<T>
    requires InRange(s)
  {
    Items(s.slots, s.tail, Distance(s.head, s.tail, |s.slots|))
  }

  // ----- the invariant -----

  ghost predicate Indexed<T>(s: State<T>) {
    var k, a, p := |s.slots|, |s.accepted|, |s.taken|;
    && k >= 2 && p <= a < p + k
    && s.head == Pos(a, k) && s.tail == Pos(p, k)
    && s.taken == s.accepted[..p]
    && forall i :: p <= i < a ==> s.slots[Pos(i, k)] == s.accepted[i]
  }

  ghost predicate ProducerOk<T>(s: State<T>) {
    match s.producer
    case Resting => true
    case Loaded(_, h) => h == s.head
    case Roomy(_, h) => h == s.head && |s.accepted| < |s.taken| + Capacity(s)
    case Written(c, h) => h == s.head < |s.slots| && |s.accepted| < |s.taken| + Capacity(s) && s.slots[h] == c
  }

  ghost predicate ConsumerOk<T>(s: State<T>) {
    match s.consumer
    case Waiting => true
    case Started(t) => t == s.tail
    case Ready(t) => t == s.tail && |s.taken| < |s.accepted|
    case Fetched(t, item) => t == s.tail && |s.taken| < |s.accepted| && item == s.accepted[|s.taken|]
  }

  ghost predicate Inv<T>(s: State<T>) {
    |s.slots| >= 2 && Indexed(s) && ProducerOk(s) && ConsumerOk(s)
  }

  // ----- every step keeps the invariant and is a step of a bounded first-in first-out list -----

  lemma ContentsIs<T>(s: State<T>)
    requires Indexed(s)
    ensures InRange(s) && Contents(s) == s.accepted[|s.taken|..] && s.taken + Contents(s) == s.accepted
  {
    var k, a, p := |s.slots|, |s.accepted|, |s.taken|;
    DistanceOf(a, p, k);
    var live := s.accepted[p..];
    forall i | 0 <= i < |live| ensures s.slots[Pos(p + i, k)] == live[i] {
      assert s.slots[Pos(p + i, k)] == s.accepted[p + i];
    }
    ItemsOf(s.slots, p, live);
  }

  /** The abstract queue: what an event does to the list, and when it may happen. */
  ghost predicate Fifo<T>(q: seq<T>, e: Event<T>, r: seq<T>, capacity: int) {
    match e
    case Silent => r == q
    case Pushed(item) => r == q + [item] && |q| < capacity
    case Full => r == q && |q| == capacity
    case Popped(item) => q == [item] + r
    case Empty => r == q == []
  }

  predicate InRange<T>(s: State<T>) {
    s.head < |s.slots| && s.tail < |s.slots|
  }

  /** The step from `s` to `t` does to the contents what `e` does to the abstract queue. */
  ghost predicate Refines<T>(s: State<T>, e: Event<T>, t: State<T>) {
    InRange(s) && InRange(t) && Fifo(Contents(s), e, Contents(t), Capacity(s))
  }

  lemma WriteKeepsIndexed<T>(s: State<T>, item: T)
    requires Indexed(s) && |s.accepted| < |s.taken| + Capacity(s)
    ensures Indexed(s.(slots := s.slots[s.head := item]))
  {
    var k, a, p := |s.slots|, |s.accepted|, |s.taken|;
    forall i | p <= i < a ensures s.slots[s.head := item][Pos(i, k)] == s.accepted[i] {
      Distinct(i, a, k);
    }
  }

  /** The producer's fullness test is exact at the moment it loads the tail. */
  lemma FullTest<T>(s: State<T>)
    requires Indexed(s)
    ensures Next(s.head, |s.slots|) == s.tail <==> |s.accepted| == |s.taken| + Capacity(s)
  {
    var k, a, p := |s.slots|, |s.accepted|, |s.taken|;
    Ahead(p, a - p, k);
    NextWraps(s.head, k);
  }

  /** So is the consumer's emptiness test, when it loads the head. */
  lemma EmptyTest<T>(s: State<T>)
    requires Indexed(s)
    ensures s.tail == s.head <==> |s.accepted| == |s.taken|
  {
    Ahead(|s.taken|, |s.accepted| - |s.taken|, |s.slots|);
  }

  lemma PublishKeepsIndexed<T>(s: State<T>, c: T)
    requires Indexed(s) && |s.accepted| < |s.taken| + Capacity(s) && s.slots[s.head] == c
    ensures Indexed(s.(head := Next(s.head, |s.slots|), accepted := s.accepted + [c]))
  {
    assert (s.accepted + [c])[..|s.taken|] == s.taken;
  }

  lemma TakeKeepsIndexed<T>(s: State<T>)
    requires Indexed(s) && |s.taken| < |s.accepted|
    ensures Indexed(s.(tail := Next(s.tail, |s.slots|), taken := s.taken + [s.accepted[|s.taken|]]))
  {
    var p := |s.taken|;
    assert s.accepted[..p + 1] == s.taken + [s.accepted[p]];
  }

  lemma ProducerKeepsIndexed<T>(s: State<T>, item: T)
    requires Inv(s)
    ensures Indexed(ProducerStep(s, item).0)
  {
    hide Next, Pos;
    match s.producer
    case Resting =>
    case Loaded(c, h) =>
    case Roomy(c, h) => WriteKeepsIndexed(s, c);
    case Written(c, h) => PublishKeepsIndexed(s, c);
  }

  lemma ConsumerKeepsIndexed<T>(s: State<T>)
    requires Inv(s)
    ensures Indexed(ConsumerStep(s).0)
  {
    hide Next, Pos;
    if s.consumer.Fetched? { TakeKeepsIndexed(s); }
  }

  lemma OldestSlot<T>(s: State<T>)
    requires Indexed(s) && |s.taken| < |s.accepted|
    ensures s.tail < |s.slots| && s.slots[s.tail] == s.accepted[|s.taken|]
  {
    assert s.slots[Pos(|s.taken|, |s.slots|)] == s.accepted[|s.taken|];
  }

  /** The two sides never hold the same slot: one about to write it, the other about to read it. */
  lemma NoSharedSlot<T>(s: State<T>)
    requires Inv(s) && s.producer.Roomy? && s.consumer.Ready?
    ensures s.producer.head != s.consumer.tail
  {
    Distinct(|s.taken|, |s.accepted|, |s.slots|);
  }

  lemma IndexedBounds<T>(s: State<T>)
    requires Indexed(s)
    ensures InRange(s) && |s.slots| >= 2
    ensures |s.taken| <= |s.accepted| <= |s.taken| + Capacity(s)
  {
  }

  lemma ProducerKeepsInv<T>(s: State<T>, item: T)
    requires Inv(s)
    ensures Inv(ProducerStep(s, item).0)
  {
    hide Indexed, Next, Pos;
    ProducerKeepsIndexed(s, item);
    IndexedBounds(s);
    FullTest(s);
  }

  lemma ConsumerKeepsInv<T>(s: State<T>)
    requires Inv(s)
    ensures Inv(ConsumerStep(s).0)
  {
    hide Indexed, Next, Pos;
    ConsumerKeepsIndexed(s);
    IndexedBounds(s);
    EmptyTest(s);
    if |s.taken| < |s.accepted| { OldestSlot(s); }
  }

  lemma ProducerIsFifo<T>(s: State<T>, item: T)
    requires Inv(s)
    ensures var (t, e) := ProducerStep(s, item); Refines(s, e, t)
  {
    hide Indexed, Next, Pos, Contents;
    var t := ProducerStep(s, item).0;
    ProducerKeepsIndexed(s, item);
    ContentsIs(s);
    ContentsIs(t);
    IndexedBounds(s);
    FullTest(s);
  }

  lemma ConsumerIsFifo<T>(s: State<T>)
    requires Inv(s)
    ensures var (t, e) := ConsumerStep(s); Refines(s, e, t)
  {
    hide Indexed, Next, Pos, Contents;
    var t := ConsumerStep(s).0;
    ConsumerKeepsIndexed(s);
    ContentsIs(s);
    ContentsIs(t);
    EmptyTest(s);
    var p := |s.taken|;
    assert s.consumer.Fetched? ==> s.accepted[p..] == [s.consumer.item] + s.accepted[p + 1..];
  }

  /** The histories of a run: items accepted, items taken. */
  function AcceptedBy<T>(es: seq<Event<T>>): seq<T> {
    if es == [] then [] else (if es[0].Pushed? then [es[0].item] else []) + AcceptedBy(es[1..])
  }

  function TakenBy<T>(es: seq<Event<T>>): seq<T> {
    if es == [] then [] else (if es[0].Popped? then [es[0].item] else []) + TakenBy(es[1..])
  }

  lemma StepIsFifo<T>(s: State<T>, a: Action<T>)
    requires |s.slots| >= 2 && Inv(s)
    ensures var (t, e) := Step(s, a);
            && Inv(t) && Refines(s, e, t)
            && t.accepted == s.accepted + AcceptedBy([e]) && t.taken == s.taken + TakenBy([e])
  {
    hide Inv, Refines;
    match a {
      case Produce(item) =>
        ProducerKeepsInv(s, item);
        ProducerIsFifo(s, item);
      case Consume =>
        ConsumerKeepsInv(s);
        ConsumerIsFifo(s);
    }
    var e := Step(s, a).1;
    assert [e][1..] == [];
  }

  /** The states a run passes through, the first and the last included. */
  function States<T>(s: State<T>, actions: seq<Action<T>>): (r: seq<State<T>>)
    requires |s.slots| > 0
    ensures |r| == |actions| + 1 && r[0] == s
    decreases |actions|
  {
    if actions == [] then [s] else [s] + States(Step(s, actions[0]).0, actions[1..])
  }

  /**
   * Linearisability. Every interleaving is, step for step, a run of the bounded list queue,
   * and what was taken followed by what is still in the ring is what was accepted, in order.
   */
  lemma {:induction false} Linearizable<T>(s: State<T>, actions: seq<Action<T>>)
    requires |s.slots| >= 2 && Inv(s)
    ensures var ts, es := States(s, actions), Run(s, actions).1;
            && |es| == |actions|
            && (forall i :: 0 <= i < |actions| ==> Refines(ts[i], es[i], ts[i + 1]))
            && (forall i :: 0 <= i < |ts| ==> Inv(ts[i]))
            && ts[|actions|] == Run(s, actions).0
            && ts[|actions|].accepted == s.accepted + AcceptedBy(es)
            && ts[|actions|].taken == s.taken + TakenBy(es)
    decreases |actions|
  {
    hide Inv, Refines, Step;
    if actions == [] {
      assert s.accepted + [] == s.accepted && s.taken + [] == s.taken;
    } else {
      var (t, e) := Step(s, actions[0]);
      StepIsFifo(s, actions[0]);
      Linearizable(t, actions[1..]);
      var es := Run(t, actions[1..]).1;
      assert Run(s, actions).1 == [e] + es;
      HistoryNext(e, es);
      assert States(s, actions) == [s] + States(t, actions[1..]);
    }
  }

  lemma HistoryNext<T>(e: Event<T>, es: seq<Event<T>>)
    ensures AcceptedBy([e] + es) == AcceptedBy([e]) + AcceptedBy(es)
    ensures TakenBy([e] + es) == TakenBy([e]) + TakenBy(es)
  {
    assert ([e] + es)[1..] == es && [e][1..] == [];
  }

  lemma FreshInv<T>(s: State<T>)
    requires Fresh(s)
    ensures Inv(s)
  {
  }

  lemma InvIndexed<T>(s: State<T>)
    requires Inv(s)
    ensures Indexed(s) && |s.slots| >= 2
  {
  }

  /** From an empty queue: conservation and order over any run, whatever the schedule. */
  lemma QueueConserves<T>(s: State<T>, actions: seq<Action<T>>)
    requires Fresh(s)
    ensures var (t, es) := Run(s, actions);
            && InRange(t) && TakenBy(es) + Contents(t) == AcceptedBy(es)
            && |Contents(t)| <= Capacity(s)
  {
    hide Inv, Refines, Contents, Step, Indexed;
    FreshInv(s);
    Linearizable(s, actions);
    var (t, es) := Run(s, actions);
    var ts := States(s, actions);
    assert Inv(ts[|actions|]);
    InvIndexed(t);
    IndexedBounds(t);
    ContentsIs(t);
    assert [] + AcceptedBy(es) == AcceptedBy(es) && [] + TakenBy(es) == TakenBy(es);
  }

  // ----- size(), two loads apart -----

  predicate OnlyConsumes<T>(actions: seq<Action<T>>) {
    forall i :: 0 <= i < |actions| ==> actions[i].Consume?
  }

  predicate OnlyProduces<T>(actions: seq<Action<T>>) {
    forall i :: 0 <= i < |actions| ==> actions[i].Produce?
  }

  lemma {:induction false} OneSideMoves<T>(s: State<T>, actions: seq<Action<T>>)
    requires |s.slots| >= 2 && Inv(s)
    ensures OnlyConsumes(actions) ==> Run(s, actions).0.head == s.head
    ensures OnlyProduces(actions) ==> Run(s, actions).0.tail == s.tail
    ensures |Run(s, actions).0.slots| == |s.slots| && Inv(Run(s, actions).0)
    decreases |actions|
  {
    hide Inv, Refines;
    if actions != [] {
      assert OnlyConsumes(actions) ==> OnlyConsumes(actions[1..]) && actions[0].Consume?;
      assert OnlyProduces(actions) ==> OnlyProduces(actions[1..]) && actions[0].Produce?;
      StepIsFifo(s, actions[0]);
      OneSideMoves(Step(s, actions[0]).0, actions[1..]);
    }
  }

  /**
   * `size` loads the head first and the tail some steps later. Asked by either end it is
   * exact at its cross-side load; asked by anyone it stays within the capacity.
   */
  lemma SizeIsExactFromEitherEnd<T>(s: State<T>, between: seq<Action<T>>)
    requires |s.slots| >= 2 && Inv(s)
    ensures var t := Run(s, between).0;
            && InRange(s) && InRange(t)
            && 0 <= Distance(s.head, t.tail, |s.slots|) <= Capacity(s)
            && (OnlyConsumes(between) ==> Distance(s.head, t.tail, |s.slots|) == |Contents(t)|)
            && (OnlyProduces(between) ==> Distance(s.head, t.tail, |s.slots|) == |Contents(s)|)
  {
    var t := Run(s, between).0;
    OneSideMoves(s, between);
    hide Indexed, Run;
    IndexedBounds(s);
    IndexedBounds(t);
  }
}
