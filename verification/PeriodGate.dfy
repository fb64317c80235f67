/**
 * Phase 1 of the scheduler tick (System.h): the tasks in list order, those that leave their
 * period to the kernel being skipped until it has elapsed. Times are 64-bit and wrap.
 */
module PeriodGate {

  const WORD: int := 0x1_0000_0000_0000_0000

  /** `Plain` runs on every tick: it is not scheduled, or keeps its period itself. */
  datatype Entry = Vacant | Plain | Managed(period: nat)

  function Elapsed(now: nat, last: nat): int {
    (now - last) % WORD
  }

  /** A recorded time of 0 means "never dispatched". */
  predicate Runs(e: Entry, last: nat, now: nat) {
    match e
    case Vacant => false
    case Plain => true
    case Managed(p) => p == 0 || last == 0 || Elapsed(now, last) >= p
  }

  function Stamp(e: Entry, last: nat, now: nat): nat {
    if e.Managed? && e.period > 0 && Runs(e, last, now) then now else last
  }

  /** For each tick of a run, whether the slot is dispatched. */
  function Flags(e: Entry, last: nat, times: seq<nat>): (f: seq<bool>)
    ensures |f| == |times|
    decreases |times|
  {
    if times == [] then []
    else [Runs(e, last, times[0])] + Flags(e, Stamp(e, last, times[0]), times[1..])
  }

  ghost predicate Clock(times: seq<nat>) {
    && (forall i :: 0 <= i < |times| ==> times[i] < WORD)
    && (forall i, j :: 0 <= i <= j < |times| ==> times[i] <= times[j])
  }

  lemma ElapsedForward(now: nat, last: nat)
    requires last <= now < WORD
    ensures Elapsed(now, last) == now - last
  {
  }

  /** The slot is dispatched at tick `i`: a whole period has passed since every earlier dispatch. */
  ghost predicate DueAt(p: nat, last: nat, times: seq<nat>, f: seq<bool>, i: nat)
    requires i < |times| == |f|
  {
    && (last != 0 ==> times[i] - last >= p)
    && (forall j :: 0 <= j < i && f[j] ==> times[i] - times[j] >= p)
  }

  /** `f` marks the ticks at which the slot is due, and no others. */
  ghost predicate ExactlyDue(p: nat, last: nat, times: seq<nat>, f: seq<bool>) {
    |f| == |times| && forall i :: 0 <= i < |f| ==> (f[i] <==> DueAt(p, last, times, f, i))
  }

  lemma {:induction false} GateExactly(p: nat, last: nat, times: seq<nat>)
    requires p > 0 && Clock(times) && (times != [] ==> times[0] > 0 && last <= times[0])
    ensures ExactlyDue(p, last, times, Flags(Managed(p), last, times))
    decreases |times|
  {
    hide Elapsed;
    var e := Managed(p);
    if times != [] {
      var f, next := Flags(e, last, times), Stamp(e, last, times[0]);
      var rest, g := times[1..], Flags(e, next, times[1..]);
      ElapsedForward(times[0], last);
      ClockTail(times);
      GateExactly(p, next, rest);
      assert f == [Runs(e, last, times[0])] + g && f[1..] == g;
      forall i | 0 <= i < |times|
        ensures f[i] <==> DueAt(p, last, times, f, i)
      {
        DueShift(p, last, times, f, i);
        assert i > 0 ==> f[i] == g[i - 1];
      }
    }
  }

  lemma ClockTail(times: seq<nat>)
    requires Clock(times) && times != []
    ensures Clock(times[1..]) && (|times| > 1 ==> times[0] <= times[1..][0])
  {
  }

  lemma DueShift(p: nat, last: nat, times: seq<nat>, f: seq<bool>, i: nat)
    requires i < |times| == |f| && Clock(times) && p > 0 && times[0] > 0
    requires f[0] <==> last == 0 || times[0] - last >= p
    ensures i == 0 ==> (DueAt(p, last, times, f, 0) <==> f[0])
    ensures i > 0 ==> (DueAt(p, last, times, f, i) <==>
                       DueAt(p, if f[0] then times[0] else last, times[1..], f[1..], i - 1))
  {
    if i > 0 {
      assert forall j :: 1 <= j < i ==> f[j] == f[1..][j - 1] && times[j] == times[1..][j - 1];
      if DueAt(p, if f[0] then times[0] else last, times[1..], f[1..], i - 1) {
        forall j | 0 <= j < i && f[j]
          ensures times[i] - times[j] >= p
        {
          if j > 0 {
            assert f[1..][j - 1];
          }
        }
      }
    }
  }

  // ----- a window of ticks -----

  function Count(f: seq<bool>): nat {
    if f == [] then 0 else Count(f[..|f| - 1]) + if f[|f| - 1] then 1 else 0
  }

  /** `f` marks ticks at least `p` apart. */
  ghost predicate Spaced(p: nat, times: seq<nat>, f: seq<bool>) {
    |f| == |times| && forall i, j :: 0 <= i < j < |f| && f[i] && f[j] ==> times[j] - times[i] >= p
  }

  lemma SpacedSlice(p: nat, times: seq<nat>, f: seq<bool>, a: nat, b: nat)
    requires Spaced(p, times, f) && a <= b <= |times|
    ensures Spaced(p, times[a..b], f[a..b])
  {
    forall i, j | 0 <= i < j < b - a && f[a..b][i] && f[a..b][j]
      ensures times[a..b][j] - times[a..b][i] >= p
    {
      assert f[a + i] && f[a + j];
    }
  }

  /** The first and the last marked tick are `p` apart for every further mark. */
  lemma {:induction false} MarksSpan(p: nat, times: seq<nat>, f: seq<bool>) returns (a: nat, b: nat)
    requires Spaced(p, times, f) && Count(f) > 0
    ensures a <= b < |f| && f[a] && f[b] && times[b] - times[a] >= (Count(f) - 1) * p
    ensures forall i :: b < i < |f| ==> !f[i]
    decreases |f|
  {
    hide Count, Spaced;
    CountSplits(f);
    assert f != [];
    var n := |f| - 1;
    SpacedSize(p, times, f);
    var g, ts := f[..n], times[..n];
    SpacedSlice(p, times, f, 0, n);
    if Count(g) == 0 {
      a, b := n, n;
    } else {
      a, b := MarksSpan(p, ts, g);
      assert f[a] == g[a] && f[b] == g[b];
      assert forall i :: b < i < n ==> f[i] == g[i];
      if f[n] {
        SpacedAt(p, times, f, b, n);
        assert (Count(f) - 1) * p == (Count(g) - 1) * p + p;
        b := n;
      }
    }
  }

  lemma CountSplits(f: seq<bool>)
    ensures Count([]) == 0
    ensures f != [] ==> Count(f) == Count(f[..|f| - 1]) + if f[|f| - 1] then 1 else 0
  {
  }

  lemma SpacedAt(p: nat, times: seq<nat>, f: seq<bool>, i: nat, j: nat)
    requires Spaced(p, times, f) && i < j < |f| && f[i] && f[j]
    ensures times[j] - times[i] >= p
  {
  }

  /**
   * The period gate, over any run of a clock that never reads 0 or runs back: a slot is
   * dispatched at a tick exactly when a whole period has passed since every earlier
   * dispatch, so dispatches are a period apart, none is held past the first tick at which
   * the period has elapsed, and ticks spanning `len` hold at most len / period + 1 of them.
   */
  lemma GatePaces(p: nat, last: nat, times: seq<nat>, a: nat, b: nat, len: nat)
    requires p > 0 && Clock(times) && (times != [] ==> times[0] > 0 && last <= times[0])
    requires a < b <= |times| && times[b - 1] - times[a] <= len
    ensures var f := Flags(Managed(p), last, times);
            && ExactlyDue(p, last, times, f)
            && Spaced(p, times, f)
            && Count(f[a..b]) <= len / p + 1
  {
    hide Flags, Count, Spaced, ExactlyDue;
    var f := Flags(Managed(p), last, times);
    GateExactly(p, last, times);
    DueSpaces(p, last, times, f);
    WindowHolds(p, times, f, a, b, len);
  }

  lemma WindowHolds(p: nat, times: seq<nat>, f: seq<bool>, a: nat, b: nat, len: nat)
    requires p > 0 && Clock(times) && Spaced(p, times, f)
    requires a < b <= |times| && times[b - 1] - times[a] <= len
    ensures Count(f[a..b]) <= len / p + 1
  {
    hide Count, Spaced;
    SpacedSize(p, times, f);
    SpacedSlice(p, times, f, a, b);
    var ts, g := times[a..b], f[a..b];
    if Count(g) > 0 {
      var x, y := MarksSpan(p, ts, g);
      assert ts[y] == times[a + y] <= times[b - 1] && times[a] <= times[a + x] == ts[x];
      Quotient(Count(g) - 1, p, len);
    }
  }

  lemma SpacedSize(p: nat, times: seq<nat>, f: seq<bool>)
    requires Spaced(p, times, f)
    ensures |f| == |times|
  {
  }

  lemma DueSpaces(p: nat, last: nat, times: seq<nat>, f: seq<bool>)
    requires ExactlyDue(p, last, times, f)
    ensures Spaced(p, times, f)
  {
  }

  lemma Larger(d: int, p: nat)
    ensures d >= 1 ==> d * p >= p
  {
  }

  lemma Quotient(k: nat, p: nat, len: nat)
    requires p > 0 && k * p <= len
    ensures k <= len / p
  {
    var q := len / p;
    assert len == q * p + len % p;
    Larger(k - q, p);
    assert (k - q) * p == k * p - q * p;
  }

  // ----- a clock that starts at 0 -----

  /** The dispatch at time 0 leaves no trace, so the tick after it is dispatched too. */
  lemma SpacedExactly(p: nat, times: seq<nat>)
    requires p > 0 && Clock(times)
    ensures Spaced(p, times, Flags(Managed(p), 0, times)) <==>
            |times| < 2 || times[0] > 0 || times[1] >= p
  {
    hide Flags, Clock, Spaced, ExactlyDue;
    var f := Flags(Managed(p), 0, times);
    if |times| < 2 {
      ShortIsSpaced(p, times, f);
    } else if times[0] > 0 {
      GateExactly(p, 0, times);
      DueSpaces(p, 0, times, f);
    } else {
      var rest, g := times[1..], Flags(Managed(p), 0, times[1..]);
      ZeroLeavesNoTrace(p, times);
      ClockTail(times);
      if times[1] >= p {
        GateExactly(p, 0, rest);
        DueSpaces(p, 0, rest, g);
        SpacedCons(p, times, g);
      } else if Spaced(p, times, f) {
        SpacedAt(p, times, f, 0, 1);
      }
    }
  }

  lemma ShortIsSpaced(p: nat, times: seq<nat>, f: seq<bool>)
    requires |f| == |times| < 2
    ensures Spaced(p, times, f)
  {
  }

  lemma ZeroLeavesNoTrace(p: nat, times: seq<nat>)
    requires |times| >= 2 && times[0] == 0
    ensures Flags(Managed(p), 0, times) == [true] + Flags(Managed(p), 0, times[1..])
    ensures Flags(Managed(p), 0, times[1..])[0]
  {
  }

  lemma SpacedCons(p: nat, times: seq<nat>, g: seq<bool>)
    requires times != [] && times[0] == 0 && Clock(times) && Spaced(p, times[1..], g)
    requires |times| > 1 ==> times[1] >= p
    ensures Spaced(p, times, [true] + g)
  {
    var f := [true] + g;
    forall i, j | 0 <= i < j < |f| && f[i] && f[j]
      ensures times[j] - times[i] >= p
    {
      if i > 0 {
        SpacedAt(p, times[1..], g, i - 1, j - 1);
      }
    }
  }

  /** A clock that runs back dispatches at once, unless the wrapped difference is within the period. */
  lemma RollsOver(p: nat, last: nat, now: nat)
    requires 0 < p < WORD && 0 < last < WORD && now < last
    ensures Runs(Managed(p), last, now) <==> last - now <= WORD - p
  {
    assert Elapsed(now, last) == now - last + WORD by { Negative(now - last); }
  }

  lemma Negative(x: int)
    requires -WORD < x < 0
    ensures x % WORD == x + WORD
  {
  }

  // ----- the whole list -----

  function Stamps(entries: seq<Entry>, last: seq<nat>, now: nat): (r: seq<nat>)
    requires |entries| == |last|
    ensures |r| == |last|
  {
    seq(|last|, k requires 0 <= k < |last| => Stamp(entries[k], last[k], now))
  }

  /** The first `n` slots, those dispatched, in order. */
  function Dispatched(entries: seq<Entry>, last: seq<nat>, now: nat, n: nat): (r: seq<nat>)
    requires n <= |entries| == |last|
    ensures forall k: nat :: k in r <==> k < n && Runs(entries[k], last[k], now)
    ensures forall i :: 0 <= i < |r| ==> r[i] < n
    ensures forall i, j :: 0 <= i < j < |r| ==> r[i] < r[j]
  {
    if n == 0 then []
    else Dispatched(entries, last, now, n - 1) + if Runs(entries[n - 1], last[n - 1], now) then [n - 1] else []
  }

  /** What each tick of a run dispatches. */
  function Schedule(entries: seq<Entry>, last: seq<nat>, times: seq<nat>): (r: seq<seq<nat>>)
    requires |entries| == |last|
    ensures |r| == |times|
    decreases |times|
  {
    if times == [] then []
    else
      [Dispatched(entries, last, times[0], |entries|)] +
      Schedule(entries, Stamps(entries, last, times[0]), times[1..])
  }

  /** Slots do not disturb each other: each is dispatched as if it were the only one. */
  lemma {:induction false} SlotsIndependent(entries: seq<Entry>, last: seq<nat>, times: seq<nat>, k: nat, i: nat)
    requires k < |entries| == |last| && i < |times|
    ensures k in Schedule(entries, last, times)[i] <==> Flags(entries[k], last[k], times)[i]
    decreases |times|
  {
    hide Runs, Stamp;
    if i > 0 {
      SlotsIndependent(entries, Stamps(entries, last, times[0]), times[1..], k, i - 1);
    }
  }

  /** Not held back: no task of its own leaves its period to the kernel, or the period is 0. */
  predicate Ungated(e: Entry) {
    e.Plain? || e == Managed(0)
  }

  /**
   * Whatever the clock and the stamps, a slot whose task keeps its own period, or has none, is
   * dispatched at every tick of a run, and an empty slot at none.
   */
  lemma UngatedRunsAlways(entries: seq<Entry>, last: seq<nat>, times: seq<nat>, k: nat, i: nat)
    requires k < |entries| == |last| && i < |times|
    ensures Ungated(entries[k]) ==> k in Schedule(entries, last, times)[i]
    ensures entries[k].Vacant? ==> k !in Schedule(entries, last, times)[i]
  {
    hide Schedule, Flags;
    SlotsIndependent(entries, last, times, k, i);
    UngatedFlags(entries[k], last[k], times, i);
  }

  lemma {:induction false} UngatedFlags(e: Entry, last: nat, times: seq<nat>, i: nat)
    requires i < |times|
    ensures Ungated(e) ==> Flags(e, last, times)[i]
    ensures e.Vacant? ==> !Flags(e, last, times)[i]
    decreases |times|
  {
    if i > 0 {
      UngatedFlags(e, Stamp(e, last, times[0]), times[1..], i - 1);
    }
  }

  class Scheduler {
    const tasks: array<Entry>
    const lastDispatch: array<nat>

    constructor (tasks: array<Entry>)
      ensures this.tasks == tasks && fresh(lastDispatch) && lastDispatch.Length == tasks.Length
      ensures forall k :: 0 <= k < tasks.Length ==> lastDispatch[k] == 0
    {
      this.tasks := tasks;
      lastDispatch := new nat[tasks.Length](_ => 0);
    }

    /** Phase 1: dispatches the due tasks in list order and stamps the gated ones. */
    method RunPhase(now: nat) returns (ran: seq<nat>)
      requires lastDispatch.Length == tasks.Length
      modifies lastDispatch
      ensures ran == Dispatched(tasks[..], old(lastDispatch[..]), now, tasks.Length)
      ensures lastDispatch[..] == Stamps(tasks[..], old(lastDispatch[..]), now)
      ensures forall i, j :: 0 <= i < j < |ran| ==> ran[i] < ran[j]
      ensures forall k: nat :: k in ran ==> k < tasks.Length && !tasks[k].Vacant?
      ensures forall k: nat :: k < tasks.Length && Ungated(tasks[k]) ==>
                k in ran && lastDispatch[k] == old(lastDispatch[k])
      ensures forall k: nat :: k < tasks.Length && tasks[k].Managed? && tasks[k].period > 0 ==>
                (k in ran <==> old(lastDispatch[k]) == 0 || Elapsed(now, old(lastDispatch[k])) >= tasks[k].period)
                && lastDispatch[k] == if k in ran then now else old(lastDispatch[k])
    {
      hide Elapsed;
      ghost var entries, last := tasks[..], lastDispatch[..];
      ran := [];
      for t := 0 to tasks.Length
        invariant ran == Dispatched(entries, last, now, t)
        invariant forall k :: 0 <= k < t ==> lastDispatch[k] == Stamp(entries[k], last[k], now)
        invariant forall k :: t <= k < tasks.Length ==> lastDispatch[k] == last[k]
      {
        var tsk := tasks[t];
        if tsk.Vacant? {
          continue;
        }
        if tsk.Managed? {
          var period := tsk.period;
          if period > 0 {
            var stamp := lastDispatch[t];
            if stamp != 0 && Elapsed(now, stamp) < period {
              continue;
            }
            lastDispatch[t] := now;
          }
        }
        ran := ran + [t];
      }
    }
  }
}
