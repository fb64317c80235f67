/** The crunch core's run loop (CrunchDispatcher.h): abort, stop and overrun exits. */
module Crunch {
  import opened Modular

  const COUNT: nat := 0x1_0000_0000

  /**
   * What the loop finds in one round: whether the kernel state is active and a stop condition
   * fires, the safety flag, and how long the iteration takes against its declared limit.
   */
  datatype Round = Round(active: bool, stop: bool, aborted: bool, elapsed: nat, limit: nat)

  /** `Cut` means that the rounds given ran out first. */
  datatype Exit = Stopped | SafetyAbort | OverrunAbort | Cut

  datatype Call = DoCrunch | DoAbort

  predicate Overran(r: Round) {
    r.elapsed > r.limit
  }

  predicate Enters(r: Round) {
    r.active && !r.stop
  }

  /** The length of the trailing run of overrunning iterations. */
  function Streak(rounds: seq<Round>): (n: nat)
    ensures n <= |rounds|
  {
    if rounds == [] || !Overran(rounds[|rounds| - 1]) then 0 else Streak(rounds[..|rounds| - 1]) + 1
  }

  function Overruns(rounds: seq<Round>): (n: nat)
    ensures n <= |rounds|
  {
    if rounds == [] then 0
    else Overruns(rounds[..|rounds| - 1]) + if Overran(rounds[|rounds| - 1]) then 1 else 0
  }

  /** A streak of `k` means that the last `k` iterations all overran. */
  lemma {:induction false} StreakMeans(rounds: seq<Round>, k: nat)
    ensures Streak(rounds) >= k <==> k <= |rounds| && forall i :: |rounds| - k <= i < |rounds| ==> Overran(rounds[i])
  {
    if k > 0 && rounds != [] && Overran(rounds[|rounds| - 1]) {
      StreakMeans(rounds[..|rounds| - 1], k - 1);
      var init := rounds[..|rounds| - 1];
      assert forall i :: 0 <= i < |init| ==> init[i] == rounds[i];
    }
  }

  /** The overrun limit is reached after these iterations; 0 switches it off. */
  predicate AtLimit(rounds: seq<Round>, max: nat) {
    max > 0 && Streak(rounds) >= max
  }

  /** A run of the loop that called crunch in its first `n` rounds and ended with `exit`. */
  ghost predicate Verdict(rounds: seq<Round>, early: bool, max: nat, exit: Exit, n: nat) {
    && n <= |rounds|
    && (forall i :: 0 <= i < n ==> Enters(rounds[i]) && !rounds[i].aborted)
    && (forall i :: 0 <= i < n ==> !AtLimit(rounds[..i], max))
    && (early ==> exit == SafetyAbort && n == 0)
    && (match exit
        case Stopped => n < |rounds| && !Enters(rounds[n]) && !AtLimit(rounds[..n], max)
        case SafetyAbort =>
          early || (n < |rounds| && Enters(rounds[n]) && rounds[n].aborted && !AtLimit(rounds[..n], max))
        case OverrunAbort => AtLimit(rounds[..n], max)
        case Cut => n == |rounds| && !AtLimit(rounds, max))
  }

  /** The conditions decide: how a run ends, and after how many iterations. */
  lemma VerdictUnique(rounds: seq<Round>, early: bool, max: nat, a: Exit, m: nat, b: Exit, n: nat)
    requires Verdict(rounds, early, max, a, m) && Verdict(rounds, early, max, b, n)
    ensures a == b && m == n
  {
    hide Streak;
    NoStreak(rounds);
    assert rounds[..|rounds|] == rounds;
  }

  lemma NoStreak(rounds: seq<Round>)
    ensures Streak(rounds[..0]) == 0
  {
  }

  /**
   * The overrun exit is taken exactly when some streak of max > 0 iterations overran before
   * any other exit was due; until then the streak is below max, so its counter cannot wrap.
   */
  lemma OverrunExitMeans(rounds: seq<Round>, early: bool, max: nat, exit: Exit, n: nat)
    requires Verdict(rounds, early, max, exit, n)
    ensures exit == OverrunAbort <==>
            max > 0 && max <= n && (forall i :: n - max <= i < n ==> rounds[i].elapsed > rounds[i].limit)
    ensures max > 0 ==> Streak(rounds[..n]) <= max
  {
    StreakMeans(rounds[..n], max);
    assert forall i :: 0 <= i < n ==> rounds[..n][i] == rounds[i];
    if n > 0 {
      assert rounds[..n][..n - 1] == rounds[..n - 1];
      assert !AtLimit(rounds[..n - 1], max);
    }
    assert rounds[..|rounds|] == rounds;
  }

  /**
   * What an exit says of the rounds: each one crunched in was active, not told to stop and not
   * aborted; a stop exit saw an inactive kernel or a stop condition, an abort exit the flag.
   */
  lemma ExitMeans(rounds: seq<Round>, early: bool, max: nat, exit: Exit, n: nat)
    requires Verdict(rounds, early, max, exit, n)
    ensures forall i :: 0 <= i < n ==> rounds[i].active && !rounds[i].stop && !rounds[i].aborted
    ensures exit == Stopped ==> n < |rounds| && (!rounds[n].active || rounds[n].stop)
    ensures exit == SafetyAbort && !early ==>
              n < |rounds| && rounds[n].active && !rounds[n].stop && rounds[n].aborted
    ensures exit == Cut ==> n == |rounds|
  {
    hide AtLimit;
  }

  /** Once the safety flag is up and stays up, no round from then on calls crunch. */
  lemma NoCrunchAfterAbort(rounds: seq<Round>, early: bool, max: nat, exit: Exit, n: nat, k: nat)
    requires Verdict(rounds, early, max, exit, n)
    requires k < |rounds| && forall i :: k <= i < |rounds| ==> rounds[i].aborted
    ensures n <= k
    ensures exit != Cut
    ensures exit == SafetyAbort && !early ==> n == k || rounds[n].aborted
  {
    assert rounds[k].aborted;
  }

  function Crunches(n: nat): seq<Call> {
    if n == 0 then [] else Crunches(n - 1) + [DoCrunch]
  }

  class CrunchDispatcher {
    const maxOverruns: nat
    var consecutive: nat
    var total: nat
    var calls: seq<Call>

    constructor (maxOverruns: nat)
      ensures this.maxOverruns == maxOverruns && consecutive == 0 && total == 0 && calls == []
    {
      this.maxOverruns, consecutive, total, calls := maxOverruns, 0, 0, [];
    }

    /** One timed iteration; `over` says that it reached the overrun limit. */
    method Iterate(r: Round, ghost rounds: seq<Round>, ghost n: nat) returns (over: bool)
      requires n < |rounds| && r == rounds[n] && maxOverruns < COUNT
      requires consecutive == Streak(rounds[..n]) % COUNT && total == Overruns(rounds[..n]) % COUNT
      requires maxOverruns > 0 ==> consecutive == Streak(rounds[..n]) < maxOverruns
      modifies this
      ensures consecutive == Streak(rounds[..n + 1]) % COUNT && total == Overruns(rounds[..n + 1]) % COUNT
      ensures maxOverruns > 0 ==> consecutive == Streak(rounds[..n + 1])
      ensures over == AtLimit(rounds[..n + 1], maxOverruns)
      ensures calls == old(calls) + [DoCrunch]
    {
      hide Streak, Overruns;
      calls := calls + [DoCrunch];
      CountersStep(rounds, n);
      Wraps(Streak(rounds[..n]), 1, COUNT);
      Wraps(Overruns(rounds[..n]), 1, COUNT);
      over := false;
      if r.elapsed > r.limit {
        consecutive, total := (consecutive + 1) % COUNT, (total + 1) % COUNT;
        over := maxOverruns > 0 && consecutive >= maxOverruns;
      } else {
        consecutive := 0;
      }
    }

    /** The 32-bit counters count the trailing streak and all overruns; abort is called at most once. */
    method RunLoop(early: bool, rounds: seq<Round>) returns (exit: Exit, n: nat)
      requires maxOverruns < COUNT
      modifies this
      ensures Verdict(rounds, early, maxOverruns, exit, n)
      ensures consecutive == Streak(rounds[..n]) % COUNT && total == Overruns(rounds[..n]) % COUNT
      ensures calls == old(calls) + Crunches(n) +
                       if exit == SafetyAbort || exit == OverrunAbort then [DoAbort] else []
    {
      hide Streak, Overruns, Overran;
      consecutive, total, n := 0, 0, 0;
      CountersStart(rounds);
      assert calls + [] == calls;
      if early {
        calls := calls + [DoAbort];
        return SafetyAbort, 0;
      }
      while n < |rounds|
        invariant n <= |rounds|
        invariant forall i :: 0 <= i < n ==> Enters(rounds[i]) && !rounds[i].aborted
        invariant forall i :: 0 <= i <= n ==> !AtLimit(rounds[..i], maxOverruns)
        invariant consecutive == Streak(rounds[..n]) % COUNT && total == Overruns(rounds[..n]) % COUNT
        invariant maxOverruns > 0 ==> consecutive == Streak(rounds[..n])
        invariant calls == old(calls) + Crunches(n)
      {
        var r := rounds[n];
        if !(r.active && !r.stop) {
          exit := Stopped;
          return;
        }
        if r.aborted {
          calls := calls + [DoAbort];
          exit := SafetyAbort;
          return;
        }
        var over := Iterate(r, rounds, n);
        n := n + 1;
        if over {
          calls := calls + [DoAbort];
          exit := OverrunAbort;
          return;
        }
      }
      assert rounds[..n] == rounds;
      exit := Cut;
    }
  }

  lemma CountersStart(rounds: seq<Round>)
    ensures Streak(rounds[..0]) == Overruns(rounds[..0]) == 0
  {
  }

  lemma CountersStep(rounds: seq<Round>, n: nat)
    requires n < |rounds|
    ensures Streak(rounds[..n + 1]) == if Overran(rounds[n]) then Streak(rounds[..n]) + 1 else 0
    ensures Overruns(rounds[..n + 1]) == Overruns(rounds[..n]) + if Overran(rounds[n]) then 1 else 0
  {
    assert rounds[..n + 1][..n] == rounds[..n];
  }
}
