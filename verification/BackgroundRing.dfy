/**
 * Phase 2 of the scheduler tick (System.h): a round-robin ring of background tasks, run in
 * the time Phase 1 left over. Times are 64-bit microsecond counts; a sum of two wraps.
 */
module BackgroundRing {
  import opened Bytes
  import opened Modular

  const WORD: nat := 0x1_0000_0000_0000_0000

  function Wrap(x: nat): nat {
    x % WORD
  }

  lemma WrapSmall(x: nat)
    requires x < WORD
    ensures Wrap(x) == x
  {
  }

  lemma WrapAround()
    ensures Wrap(WORD) == 0
  {
  }

  /** A slot holds a task's declared budget, or no task. */
  type Slot = Option<nat>

  /** The slots in the order a tick visits them. */
  function Rotate(slots: seq<Slot>, head: nat): (order: seq<Slot>)
    requires head < |slots|
    ensures |order| == |slots|
  {
    slots[head..] + slots[..head]
  }

  /** `passed` slots were passed, the task in each being run; if `refused`, the next one did not fit. */
  datatype Outcome = Outcome(passed: nat, refused: bool, used: nat)

  /** What one tick does with the slots still ahead of it; `cost` is how long each would run. */
  function Visit(order: seq<Slot>, cost: seq<nat>, gap: nat, first: bool, used: nat): (o: Outcome)
    requires |order| == |cost|
    ensures o.passed <= |order| && (o.refused ==> o.passed < |order|)
    ensures first && order != [] ==> o.passed >= 1
    decreases |order|
  {
    if order == [] then Outcome(0, false, used)
    else
      match order[0]
      case None => One(Visit(order[1..], cost[1..], gap, false, used))
      case Some(budget) =>
        if !first && Wrap(used + budget) > gap then Outcome(0, true, used)
        else One(Visit(order[1..], cost[1..], gap, false, Wrap(used + cost[0])))
  }

  function One(o: Outcome): Outcome {
    o.(passed := o.passed + 1)
  }

  /** How long the tasks among the first `n` slots run. */
  function Time(order: seq<Slot>, cost: seq<nat>, n: nat): nat
    requires n <= |order| == |cost|
    decreases n
  {
    if n == 0 then 0
    else (if order[0].Some? then cost[0] else 0) + Time(order[1..], cost[1..], n - 1)
  }

  ghost predicate Within(order: seq<Slot>, cost: seq<nat>) {
    |cost| == |order| && forall k :: 0 <= k < |order| && order[k].Some? ==> cost[k] <= order[k].value
  }

  ghost predicate Machine(order: seq<Slot>) {
    forall k :: 0 <= k < |order| && order[k].Some? ==> order[k].value < WORD
  }

  function HeadBudget(order: seq<Slot>): nat {
    if order != [] && order[0].Some? then order[0].value else 0
  }

  function Max(a: nat, b: nat): nat {
    if a >= b then a else b
  }

  function Min(a: nat, b: nat): nat {
    if a <= b then a else b
  }

  // ----- the time bound -----

  /**
   * No budget check of the tick can wrap, as long as tasks keep to their budgets: `most` is
   * the most that can have been used when the slots ahead are reached.
   */
  predicate NoWrap(order: seq<Slot>, gap: nat, first: bool, most: nat)
    decreases |order|
  {
    if order == [] then true
    else
      match order[0]
      case None => NoWrap(order[1..], gap, false, most)
      case Some(budget) =>
        if first then NoWrap(order[1..], gap, false, most + budget)
        else
          most + budget < WORD &&
          (budget > gap || NoWrap(order[1..], gap, false, Min(most, gap - budget) + budget))
  }

  lemma {:induction false} BoundAfterHead(order: seq<Slot>, cost: seq<nat>, gap: nat, used: nat, most: nat)
    requires Within(order, cost) && used <= most && gap < WORD
    requires NoWrap(order, gap, false, most)
    ensures used + Time(order, cost, Visit(order, cost, gap, false, used).passed) <= Max(gap, used)
    decreases |order|
  {
    hide Wrap;
    if order != [] {
      assert Within(order[1..], cost[1..]);
      match order[0] {
        case None => BoundAfterHead(order[1..], cost[1..], gap, used, most);
        case Some(budget) =>
          WrapSmall(used + budget);
          if used + budget <= gap {
            WrapSmall(used + cost[0]);
            BoundAfterHead(order[1..], cost[1..], gap, used + cost[0], Min(most, gap - budget) + budget);
          }
      }
    }
  }

  lemma BoundHolds(order: seq<Slot>, cost: seq<nat>, gap: nat)
    requires Within(order, cost) && Machine(order) && gap < WORD && NoWrap(order, gap, true, 0)
    ensures Time(order, cost, Visit(order, cost, gap, true, 0).passed) <= Max(gap, HeadBudget(order))
  {
    hide Wrap;
    if order != [] {
      assert Within(order[1..], cost[1..]);
      match order[0] {
        case None => BoundAfterHead(order[1..], cost[1..], gap, 0, 0);
        case Some(budget) =>
          WrapSmall(cost[0]);
          BoundAfterHead(order[1..], cost[1..], gap, cost[0], budget);
      }
    }
  }

  /** Running times that make a check wrap, once some check can: more than a word of time passes. */
  lemma {:induction false} Overrun(order: seq<Slot>, gap: nat, most: nat) returns (used: nat, cost: seq<nat>)
    requires Machine(order) && gap < WORD && !NoWrap(order, gap, false, most)
    ensures used <= most && Within(order, cost)
    ensures used + Time(order, cost, Visit(order, cost, gap, false, used).passed) >= WORD
    decreases |order|
  {
    hide Wrap;
    assert Machine(order[1..]);
    match order[0] {
      case None =>
        var rest;
        used, rest := Overrun(order[1..], gap, most);
        cost := [0] + rest;
        assert cost[1..] == rest;
      case Some(budget) =>
        if most + budget >= WORD {
          used := WORD - budget;
          cost := [budget] + seq(|order| - 1, _ => 0);
          assert Wrap(used + budget) == 0 by { WrapAround(); }
        } else {
          var u, rest := Overrun(order[1..], gap, Min(most, gap - budget) + budget);
          var c := Min(u, budget);
          used := u - c;
          cost := [c] + rest;
          assert cost[1..] == rest;
          WrapSmall(used + budget);
          WrapSmall(u);
        }
    }
  }

  lemma BoundBreaks(order: seq<Slot>, gap: nat) returns (cost: seq<nat>)
    requires Machine(order) && gap < WORD && !NoWrap(order, gap, true, 0)
    ensures Within(order, cost)
    ensures Time(order, cost, Visit(order, cost, gap, true, 0).passed) >= WORD
  {
    hide Wrap;
    assert Machine(order[1..]);
    var most := if order[0].Some? then order[0].value else 0;
    var used, rest := Overrun(order[1..], gap, most);
    cost := [used] + rest;
    assert cost[1..] == rest;
    WrapSmall(used);
  }

  /**
   * Phase 2 stays within the remaining gap or the head's own budget, for all running times
   * within the declared budgets, if and only if no budget check of the tick can wrap.
   */
  lemma TimeBoundExactly(order: seq<Slot>, gap: nat)
    requires Machine(order) && gap < WORD
    ensures NoWrap(order, gap, true, 0) <==>
            forall cost :: Within(order, cost) ==>
              Time(order, cost, Visit(order, cost, gap, true, 0).passed) <= Max(gap, HeadBudget(order))
  {
    if NoWrap(order, gap, true, 0) {
      forall cost | Within(order, cost)
        ensures Time(order, cost, Visit(order, cost, gap, true, 0).passed) <= Max(gap, HeadBudget(order))
      {
        BoundHolds(order, cost, gap);
      }
    } else {
      var cost := BoundBreaks(order, gap);
      assert Within(order, cost);
    }
  }

  /** Budgets that leave room for the larger of gap and head budget cannot wrap. */
  lemma {:induction false} SmallBudgetsAfterHead(order: seq<Slot>, gap: nat, most: nat, top: nat)
    requires gap <= top && most <= top
    requires forall k :: 0 <= k < |order| && order[k].Some? ==> order[k].value + top < WORD
    ensures NoWrap(order, gap, false, most)
    decreases |order|
  {
    if order != [] {
      match order[0] {
        case None => SmallBudgetsAfterHead(order[1..], gap, most, top);
        case Some(budget) =>
          assert most + budget < WORD;
          if budget <= gap {
            SmallBudgetsAfterHead(order[1..], gap, Min(most, gap - budget) + budget, top);
          }
      }
    }
  }

  lemma SmallBudgets(order: seq<Slot>, gap: nat)
    requires forall k :: 0 <= k < |order| && order[k].Some? ==> order[k].value + Max(gap, HeadBudget(order)) < WORD
    ensures NoWrap(order, gap, true, 0)
  {
    if order != [] {
      SmallBudgetsAfterHead(order[1..], gap, HeadBudget(order), Max(gap, HeadBudget(order)));
    }
  }

  function Gap(control: nat, busy: nat): nat {
    if control > busy then control - busy else 0
  }

  /** Both phases together fit the control budget whenever the head fits what Phase 1 left. */
  lemma TickFits(order: seq<Slot>, cost: seq<nat>, control: nat, busy: nat)
    requires Within(order, cost) && Machine(order) && control < WORD
    requires NoWrap(order, Gap(control, busy), true, 0)
    requires busy <= control && HeadBudget(order) <= Gap(control, busy)
    ensures busy + Time(order, cost, Visit(order, cost, Gap(control, busy), true, 0).passed) <= control
  {
    BoundHolds(order, cost, Gap(control, busy));
  }

  /** What Phase 1 left of the control budget. */
  lemma GapIsRest(control: nat, busy: nat)
    ensures busy + Gap(control, busy) == Max(control, busy)
  {
  }

  /** The visit stops at the slot `o.passed` because its budget exceeds the rest of the gap, and not before. */
  ghost predicate Greedy(order: seq<Slot>, cost: seq<nat>, gap: nat, used: nat, from: nat, o: Outcome)
    requires |order| == |cost| && o.passed <= |order|
  {
    && (forall k :: from <= k < o.passed && order[k].Some? ==> used + Time(order, cost, k) + order[k].value <= gap)
    && (o.refused ==>
          o.passed < |order| && order[o.passed].Some? &&
          used + Time(order, cost, o.passed) + order[o.passed].value > gap)
    && (!o.refused ==> o.passed == |order|)
  }

  lemma TimeNext(order: seq<Slot>, cost: seq<nat>, k: nat)
    requires 0 < k <= |order| == |cost|
    ensures Time(order, cost, k) == (if order[0].Some? then cost[0] else 0) + Time(order[1..], cost[1..], k - 1)
  {
  }

  lemma GreedyCons(order: seq<Slot>, cost: seq<nat>, gap: nat, used: nat, from: nat, rest: Outcome)
    requires 0 < |order| == |cost| && rest.passed < |order| && from <= 1
    requires var spent := if order[0].Some? then cost[0] else 0;
             Greedy(order[1..], cost[1..], gap, used + spent, 0, rest)
    requires from == 0 && order[0].Some? ==> used + order[0].value <= gap
    ensures Greedy(order, cost, gap, used, from, One(rest))
  {
    hide Time;
    forall k | from <= k < rest.passed + 1 && order[k].Some?
      ensures used + Time(order, cost, k) + order[k].value <= gap
    {
      if k > 0 {
        TimeNext(order, cost, k);
        assert order[1..][k - 1] == order[k];
      } else {
        NoTime(order, cost);
      }
    }
    TimeNext(order, cost, rest.passed + 1);
    assert rest.refused ==> order[1..][rest.passed] == order[rest.passed + 1];
  }

  lemma NoTime(order: seq<Slot>, cost: seq<nat>)
    requires |order| == |cost|
    ensures Time(order, cost, 0) == 0
  {
  }

  lemma {:induction false} GreedyAfterHead(order: seq<Slot>, cost: seq<nat>, gap: nat, used: nat, most: nat)
    requires Within(order, cost) && used <= most && gap < WORD && NoWrap(order, gap, false, most)
    ensures Greedy(order, cost, gap, used, 0, Visit(order, cost, gap, false, used))
    decreases |order|
  {
    hide Wrap, Greedy;
    if order == [] {
      NothingVisited(cost, gap, used);
    } else {
      assert Within(order[1..], cost[1..]);
      match order[0] {
        case None =>
          GreedyAfterHead(order[1..], cost[1..], gap, used, most);
          GreedyCons(order, cost, gap, used, 0, Visit(order[1..], cost[1..], gap, false, used));
        case Some(budget) =>
          WrapSmall(used + budget);
          if used + budget <= gap {
            WrapSmall(used + cost[0]);
            GreedyAfterHead(order[1..], cost[1..], gap, used + cost[0], Min(most, gap - budget) + budget);
            GreedyCons(order, cost, gap, used, 0, Visit(order[1..], cost[1..], gap, false, used + cost[0]));
          } else {
            RefusedAtOnce(order, cost, gap, used);
          }
      }
    }
  }

  lemma NothingVisited(cost: seq<nat>, gap: nat, used: nat)
    requires cost == []
    ensures Greedy([], cost, gap, used, 0, Visit([], cost, gap, false, used))
  {
  }

  lemma RefusedAtOnce(order: seq<Slot>, cost: seq<nat>, gap: nat, used: nat)
    requires 0 < |order| == |cost| && order[0].Some? && used + order[0].value > gap
    ensures Greedy(order, cost, gap, used, 0, Outcome(0, true, used))
  {
  }

  /**
   * The head always runs; behind it a task runs exactly as long as its budget fits what is left
   * of the gap, in true time, and the first that does not fit ends the tick.
   */
  lemma RunsWhatFits(order: seq<Slot>, cost: seq<nat>, gap: nat)
    requires order != [] && Within(order, cost) && Machine(order) && gap < WORD && NoWrap(order, gap, true, 0)
    ensures Greedy(order, cost, gap, 0, 1, Visit(order, cost, gap, true, 0))
  {
    hide Wrap, Greedy;
    assert Within(order[1..], cost[1..]);
    match order[0] {
      case None =>
        GreedyAfterHead(order[1..], cost[1..], gap, 0, 0);
        GreedyCons(order, cost, gap, 0, 1, Visit(order[1..], cost[1..], gap, false, 0));
      case Some(budget) =>
        WrapSmall(cost[0]);
        GreedyAfterHead(order[1..], cost[1..], gap, cost[0], budget);
        GreedyCons(order, cost, gap, 0, 1, Visit(order[1..], cost[1..], gap, false, cost[0]));
    }
  }

  // ----- which tasks run, and where the ring stands afterwards -----

  /** The slot `k` places on from `head`. */
  function At(head: nat, k: nat, n: nat): (i: nat)
    requires n > 0
    ensures i < n
  {
    (head + k) % n
  }

  lemma AtNext(head: nat, k: nat, n: nat)
    requires n > 0
    ensures (At(head, k, n) + 1) % n == At(head, k + 1, n)
  {
    var q := (head + k) / n;
    assert head + k == q * n + At(head, k, n);
    if At(head, k, n) + 1 < n {
      Remainder(head + k + 1, q, At(head, k, n) + 1, n);
    } else {
      Remainder(head + k + 1, q + 1, 0, n);
    }
  }

  lemma AtIs(head: nat, k: nat, n: nat)
    requires head < n && k < n
    ensures At(head, k, n) == if head + k < n then head + k else head + k - n
  {
    Remainder(head + k, if head + k < n then 0 else 1, if head + k < n then head + k else head + k - n, n);
  }

  lemma RotateAt(slots: seq<Slot>, head: nat, k: nat)
    requires head < |slots| && k < |slots|
    ensures Rotate(slots, head)[k] == slots[At(head, k, |slots|)]
  {
    AtIs(head, k, |slots|);
  }

  /** The tasks run when `passed` slots are passed, oldest first. */
  function Ran(slots: seq<Slot>, head: nat, passed: nat): seq<nat>
    requires |slots| > 0
  {
    if passed == 0 then []
    else
      var i := At(head, passed - 1, |slots|);
      Ran(slots, head, passed - 1) + if slots[i].Some? then [i] else []
  }

  /** How far slot `i` is ahead of `head`. */
  function Offset(i: nat, head: nat, n: nat): int {
    if i >= head then i - head else i - head + n
  }

  /** At most once and in ring order, and all of them up to the one that was refused. */
  lemma {:induction false} RanInOrder(slots: seq<Slot>, head: nat, passed: nat)
    requires head < |slots| && passed <= |slots|
    ensures var n, ran := |slots|, Ran(slots, head, passed);
            && (forall i: nat :: i in ran <==> i < n && Offset(i, head, n) < passed && slots[i].Some?)
            && (forall a, b :: 0 <= a < b < |ran| ==> Offset(ran[a], head, n) < Offset(ran[b], head, n))
  {
    hide At;
    if passed > 0 {
      AtIs(head, passed - 1, |slots|);
      RanInOrder(slots, head, passed - 1);
    }
  }

  /** Where the next tick starts: past the refused task as well. */
  function NextHead(slots: seq<Slot>, head: nat, cost: seq<nat>, gap: nat): (i: nat)
    requires head < |slots| == |cost|
    ensures i < |slots|
  {
    var o := Visit(Rotate(slots, head), cost, gap, true, 0);
    At(head, o.passed + if o.refused then 1 else 0, |slots|)
  }

  // ----- the ring with no gap left -----

  /** Every slot taken, every budget positive, and no two of them a word long together. */
  ghost predicate Crowded(slots: seq<Slot>) {
    && |slots| >= 2
    && (forall k :: 0 <= k < |slots| ==> slots[k].Some? && 0 < slots[k].value)
    && (forall j, k :: 0 <= j < k < |slots| ==> slots[j].value + slots[k].value < WORD)
  }

  lemma NoGapTick(slots: seq<Slot>, head: nat, cost: seq<nat>)
    requires Crowded(slots) && head < |slots| && Within(Rotate(slots, head), cost)
    ensures var o := Visit(Rotate(slots, head), cost, 0, true, 0);
            && Ran(slots, head, o.passed) == [head]
            && NextHead(slots, head, cost, 0) == At(head, 2, |slots|)
  {
    var order := Rotate(slots, head);
    RotateAt(slots, head, 0);
    RotateAt(slots, head, 1);
    AtIs(head, 0, |slots|);
    AtIs(head, 1, |slots|);
    assert cost[0] + order[1].value < WORD;
    assert Wrap(0 + cost[0]) == cost[0];
    assert Wrap(cost[0] + order[1].value) == cost[0] + order[1].value;
    assert Visit(order, cost, 0, true, 0) == One(Visit(order[1..], cost[1..], 0, false, cost[0]));
    assert Ran(slots, head, 0) == [];
  }

  /** The head after running one tick for each entry of `costs` with no gap. */
  function HeadAfter(slots: seq<Slot>, head: nat, costs: seq<seq<nat>>): (i: nat)
    requires head < |slots| && forall c :: c in costs ==> |c| == |slots|
    ensures i < |slots|
    decreases |costs|
  {
    if costs == [] then head
    else HeadAfter(slots, NextHead(slots, head, costs[0], 0), costs[1..])
  }

  /** Running times within the declared budgets, tick by tick. */
  ghost predicate Kept(slots: seq<Slot>, head: nat, costs: seq<seq<nat>>)
    requires head < |slots|
    decreases |costs|
  {
    costs == [] ||
    (Within(Rotate(slots, head), costs[0]) && Kept(slots, NextHead(slots, head, costs[0], 0), costs[1..]))
  }

  lemma {:induction false} NoGapTicks(slots: seq<Slot>, head: nat, costs: seq<seq<nat>>)
    requires Crowded(slots) && head < |slots| && (forall c :: c in costs ==> |c| == |slots|)
    requires Kept(slots, head, costs)
    ensures HeadAfter(slots, head, costs) == TurnOf(head, |costs|, |slots|)
    decreases |costs|
  {
    hide Visit, Crowded;
    if costs == [] {
      AtIs(head, 0, |slots|);
    } else {
      NoGapTick(slots, head, costs[0]);
      var next := NextHead(slots, head, costs[0], 0);
      NoGapTicks(slots, next, costs[1..]);
      AtAt(head, 2, 2 * |costs[1..]|, |slots|);
    }
  }

  lemma AtAt(head: nat, a: nat, b: nat, n: nat)
    requires n > 0
    ensures At(At(head, a, n), b, n) == At(head, a + b, n)
  {
    var q, p := (head + a) / n, (At(head, a, n) + b) / n;
    assert head + a == q * n + At(head, a, n);
    assert At(head, a, n) + b == p * n + At(At(head, a, n), b, n);
    assert head + a + b == (q + p) * n + At(At(head, a, n), b, n);
    Remainder(head + a + b, q + p, At(At(head, a, n), b, n), n);
  }

  /** The head of the tick `t` after one that started at `head`, when every tick moves it by two. */
  function TurnOf(head: nat, t: nat, n: nat): nat
    requires n > 0
  {
    At(head, 2 * t, n)
  }

  /** The tasks that each tick of a run without gap executes. */
  function RunLog(slots: seq<Slot>, head: nat, costs: seq<seq<nat>>): (log: seq<seq<nat>>)
    requires head < |slots| && forall c :: c in costs ==> |c| == |slots|
    ensures |log| == |costs|
    decreases |costs|
  {
    if costs == [] then []
    else
      [Ran(slots, head, Visit(Rotate(slots, head), costs[0], 0, true, 0).passed)] +
      RunLog(slots, NextHead(slots, head, costs[0], 0), costs[1..])
  }

  /** Tick `t` runs its head and nothing else. */
  lemma {:induction false} NoGapLog(slots: seq<Slot>, head: nat, costs: seq<seq<nat>>, t: nat)
    requires Crowded(slots) && head < |slots| && (forall c :: c in costs ==> |c| == |slots|)
    requires Kept(slots, head, costs) && t < |costs|
    ensures RunLog(slots, head, costs)[t] == [TurnOf(head, t, |slots|)]
    decreases t
  {
    hide Visit, Crowded, Rotate, Ran, At, NextHead;
    NoGapTick(slots, head, costs[0]);
    if t == 0 {
      AtIs(head, 0, |slots|);
    } else {
      NoGapLog(slots, NextHead(slots, head, costs[0], 0), costs[1..], t - 1);
      AtAt(head, 2, 2 * (t - 1), |slots|);
    }
  }

  /** Some tick of the run executes task `i`. */
  ghost predicate Served(i: nat, log: seq<seq<nat>>) {
    exists t: nat :: t < |log| && i in log[t]
  }

  /** For an odd `n`, each place is the head of exactly one of any `n` ticks. */
  lemma OddTurn(head: nat, i: nat, n: nat) returns (t: nat)
    requires n % 2 == 1 && head < n && i < n
    ensures t < n && TurnOf(head, t, n) == i
    ensures forall u: nat :: u < n && TurnOf(head, u, n) == i ==> u == t
  {
    hide At, TurnOf;
    var d := Offset(i, head, n);
    t := if d % 2 == 0 then d / 2 else (d + n) / 2;
    TwiceAround(head, t, n);
    forall u: nat | u < n && TurnOf(head, u, n) == i
      ensures u == t
    {
      TwiceAround(head, u, n);
    }
  }

  lemma TwiceAround(head: nat, t: nat, n: nat)
    requires head < n && t < n
    ensures var x := head + 2 * t;
            TurnOf(head, t, n) == if x < n then x else if x < 2 * n then x - n else x - 2 * n
  {
    var x := head + 2 * t;
    var q := if x < n then 0 else if x < 2 * n then 1 else 2;
    Remainder(x, q, x - q * n, n);
  }

  /** For an even one, the place next to the first head never is one. */
  lemma EvenTurn(head: nat, t: nat, n: nat)
    requires n > 0 && n % 2 == 0 && head < n
    ensures At(head, 2 * t, n) != At(head, 1, n)
  {
    var q := (head + 2 * t) / n;
    assert head + 2 * t == q * n + At(head, 2 * t, n);
    var h := n / 2;
    assert q * n == 2 * (q * h);
    assert At(head, 2 * t, n) % 2 == head % 2;
    AtIs(head, 1, n);
  }

  /** With no gap left and an odd number of tasks, each of them runs in exactly one of any `n` consecutive ticks. */
  lemma ServedOnce(slots: seq<Slot>, head: nat, costs: seq<seq<nat>>, i: nat) returns (t: nat)
    requires Crowded(slots) && head < |slots| && (forall c :: c in costs ==> |c| == |slots|)
    requires Kept(slots, head, costs) && |costs| == |slots|
    requires |slots| % 2 == 1 && i < |slots|
    ensures t < |slots| && RunLog(slots, head, costs)[t] == [i]
    ensures forall u: nat :: u < |slots| && i in RunLog(slots, head, costs)[u] ==> u == t
  {
    hide RunLog, Crowded, Kept, TurnOf;
    t := OddTurn(head, i, |slots|);
    NoGapLog(slots, head, costs, t);
    forall u: nat | u < |slots| && i in RunLog(slots, head, costs)[u]
      ensures u == t
    {
      NoGapLog(slots, head, costs, u);
    }
  }

  /** With an even number, one of them runs in no tick of the run, however long. */
  lemma EvenStarves(slots: seq<Slot>, head: nat, costs: seq<seq<nat>>)
    requires Crowded(slots) && head < |slots| && (forall c :: c in costs ==> |c| == |slots|)
    requires Kept(slots, head, costs) && |slots| % 2 == 0
    ensures !Served(At(head, 1, |slots|), RunLog(slots, head, costs))
  {
    hide RunLog, Crowded, Kept;
    forall t: nat | t < |costs|
      ensures At(head, 1, |slots|) !in RunLog(slots, head, costs)[t]
    {
      NoGapLog(slots, head, costs, t);
      EvenTurn(head, t, |slots|);
    }
  }

  /**
   * With no gap left and positive budgets, every background task runs within any `n`
   * consecutive ticks, whatever the running times within the budgets, if and only if their
   * number `n` is odd.
   */
  lemma FairExactlyWhenOdd(slots: seq<Slot>, head: nat, costs: seq<seq<nat>>)
    requires Crowded(slots) && head < |slots| && (forall c :: c in costs ==> |c| == |slots|)
    requires Kept(slots, head, costs) && |costs| == |slots|
    ensures |slots| % 2 == 1 <==> forall i: nat :: i < |slots| ==> Served(i, RunLog(slots, head, costs))
  {
    hide RunLog, Kept, At;
    if |slots| % 2 == 1 {
      forall i: nat | i < |slots|
        ensures Served(i, RunLog(slots, head, costs))
      {
        var t := ServedOnce(slots, head, costs, i);
      }
    } else {
      EvenStarves(slots, head, costs);
    }
  }

  // ----- the ring as the kernel runs it -----

  lemma VisitStep(order: seq<Slot>, cost: seq<nat>, gap: nat, first: bool, used: nat)
    requires |order| == |cost| > 0
    ensures var o := Visit(order, cost, gap, first, used);
            match order[0]
            case None => o == One(Visit(order[1..], cost[1..], gap, false, used))
            case Some(budget) =>
              o == if !first && Wrap(used + budget) > gap then Outcome(0, true, used)
                   else One(Visit(order[1..], cost[1..], gap, false, Wrap(used + cost[0])))
  {
  }

  lemma VisitEnd(gap: nat, first: bool, used: nat)
    ensures Visit([], [], gap, first, used) == Outcome(0, false, used)
  {
  }

  lemma RanNone(slots: seq<Slot>, head: nat)
    requires |slots| > 0
    ensures Ran(slots, head, 0) == []
  {
  }

  lemma RanNext(slots: seq<Slot>, head: nat, k: nat)
    requires |slots| > 0
    ensures var i := At(head, k, |slots|);
            Ran(slots, head, k + 1) == Ran(slots, head, k) + if slots[i].Some? then [i] else []
  {
  }

  class Background {
    const tasks: array<Slot>
    var roundRobin: nat

    ghost predicate Valid()
      reads this
    {
      tasks.Length > 0 && roundRobin < tasks.Length
    }

    constructor (tasks: array<Slot>)
      requires tasks.Length > 0
      ensures Valid() && this.tasks == tasks && roundRobin == 0
    {
      this.tasks, roundRobin := tasks, 0;
    }

    /** `cost[k]` is how long the task `k` places on from the head takes, if it runs. */
    method RunPhase(gapBudget: nat, cost: seq<nat>) returns (ran: seq<nat>, used: nat)
      requires Valid() && |cost| == tasks.Length
      modifies this`roundRobin
      ensures Valid()
      ensures var o := Visit(Rotate(tasks[..], old(roundRobin)), cost, gapBudget, true, 0);
              && used == o.used && ran == Ran(tasks[..], old(roundRobin), o.passed)
              && roundRobin == NextHead(tasks[..], old(roundRobin), cost, gapBudget)
    {
      hide Rotate, At, Wrap, Ran, Visit;
      ghost var slots, head := tasks[..], roundRobin;
      ghost var order := Rotate(slots, head);
      var n := tasks.Length;
      ran, used := [], 0;
      AtIs(head, 0, n);
      assert order[0..] == order && cost[0..] == cost;
      RanNone(slots, head);
      for i := 0 to n
        invariant Valid() && roundRobin == At(head, i, n)
        invariant ran == Ran(slots, head, i)
        invariant Visit(order, cost, gapBudget, true, 0) ==
                  Shifted(Visit(order[i..], cost[i..], gapBudget, i == 0, used), i)
      {
        var current := roundRobin;
        var bg := tasks[current];
        RotateAt(slots, head, i);
        AtNext(head, i, n);
        VisitStep(order[i..], cost[i..], gapBudget, i == 0, used);
        RanNext(slots, head, i);
        assert order[i..][1..] == order[i + 1..] && cost[i..][1..] == cost[i + 1..] && order[i..][0] == bg;
        roundRobin := (roundRobin + 1) % n;
        if bg.Some? {
          if i > 0 {
            if Wrap(used + bg.value) > gapBudget {
              return;
            }
          }
          ran := ran + [current];
          used := Wrap(used + cost[i]);
        }
      }
      VisitEnd(gapBudget, n == 0, used);
      assert order[n..] == [] && cost[n..] == [];
    }
  }

  function Shifted(o: Outcome, i: nat): Outcome {
    o.(passed := o.passed + i)
  }
}
