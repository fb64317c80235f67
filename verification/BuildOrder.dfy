/**
 * Build-time task ordering (SystemBuilder.h, CoreData in System.h): registration, kernel
 * task placement, the stable priority sort and the validation passes.
 */
module BuildOrder {
  import opened Bytes

  const MAX_TASKS: nat := 256
  const AUTO: byte := 0xFF
  const LOWEST: byte := 0xFE

  /** A registered task object; distinct objects have distinct ids. */
  datatype Task = Task(id: nat, scheduled: bool, priority: byte, period: nat, depsMet: bool)

  /** `crunch` is the period of the crunch task, if one is set. */
  datatype Core = Core(tasks: seq<Task>, crunchMode: bool, crunch: Option<nat>)

  datatype Reason = NoTasks | PeriodTooShort | Duplicate | CrunchOnCoreZero | NoCrunchTask | CrunchNotAlone
                  | CrunchPeriodTooShort | DependencyUnmet

  datatype Outcome = Built | Failed(reason: Reason)

  /** The kernel's own tasks, created when an application is set. */
  datatype Kernel = Kernel(control: Task, comms: Task)

  // ----- priorities -----

  function EffectivePriority(t: Task): byte {
    if !t.scheduled then LOWEST
    else if t.priority != AUTO then t.priority
    else if t.period == 0 then LOWEST
    else if t.period <= 100 then 2
    else if t.period <= 1_000 then 10
    else if t.period <= 10_000 then 20
    else if t.period <= 100_000 then 40
    else if t.period <= 1_000_000 then 80
    else 0xA0
  }

  predicate Automatic(t: Task) {
    t.scheduled && t.priority == AUTO && t.period > 0
  }

  function Ten(k: nat): nat {
    if k == 0 then 1 else 10 * Ten(k - 1)
  }

  /** How many of the powers of ten from 10^2 to 10^k are below the period. */
  function Band(period: nat, k: nat): (n: nat)
    ensures n <= k
  {
    if k < 2 then 0 else Band(period, k - 1) + if Ten(k) < period then 1 else 0
  }

  /** The automatic priorities, from the shortest periods to the longest. */
  const BANDS: seq<byte> := [2, 10, 20, 40, 80, 0xA0]

  lemma Tens()
    ensures Ten(2) == 100 && Ten(3) == 1_000 && Ten(4) == 10_000 && Ten(5) == 100_000 && Ten(6) == 1_000_000
  {
    assert Ten(3) == 1_000;
  }

  /** An automatic priority depends on the order of magnitude of the period, from 10^2 to 10^6. */
  lemma AutomaticIsBand(t: Task)
    requires Automatic(t)
    ensures Band(t.period, 6) < |BANDS| && EffectivePriority(t) == BANDS[Band(t.period, 6)]
  {
    Tens();
    hide Ten;
    var p := t.period;
    assert Band(p, 2) == if 100 < p then 1 else 0;
    assert Band(p, 4) == Band(p, 2) + (if 1_000 < p then 1 else 0) + if 10_000 < p then 1 else 0;
    assert Band(p, 6) == Band(p, 4) + (if 100_000 < p then 1 else 0) + if 1_000_000 < p then 1 else 0;
  }

  /** A power of ten from 10^2 to 10^6 lies between the two periods. */
  ghost predicate Between(p: nat, q: nat) {
    exists k :: 2 <= k <= 6 && p <= Ten(k) < q
  }

  lemma BetweenIs(p: nat, q: nat)
    ensures Between(p, q) <==>
            p <= 100 < q || p <= 1_000 < q || p <= 10_000 < q || p <= 100_000 < q || p <= 1_000_000 < q
  {
    Tens();
    hide Ten;
  }

  /**
   * Rate-monotonic: among automatic priorities the one of the shorter period comes first exactly
   * if a power of ten from 10^2 to 10^6 lies between the two, and all lie between the kernel's
   * and the lowest.
   */
  lemma RateMonotonicExactly(a: Task, b: Task)
    requires Automatic(a) && Automatic(b)
    ensures EffectivePriority(a) < EffectivePriority(b) <==> Between(a.period, b.period)
    ensures 2 <= EffectivePriority(a) <= 0xA0 < LOWEST
  {
    BetweenIs(a.period, b.period);
    hide Between;
  }

  /** A priority of one's own is kept; without it, and without a period or a schedule, a task comes last. */
  lemma OtherPriorities(t: Task)
    ensures t.scheduled && t.priority != AUTO ==> EffectivePriority(t) == t.priority
    ensures !t.scheduled || (t.priority == AUTO && t.period == 0) ==> EffectivePriority(t) == LOWEST
  {
  }

  // ----- the stable sort -----

  /** Inserts `key` after every task of its own or an earlier priority. */
  function Insert(sorted: seq<Task>, key: Task): (r: seq<Task>)
    ensures |r| == |sorted| + 1
  {
    if sorted == [] || EffectivePriority(sorted[|sorted| - 1]) <= EffectivePriority(key) then sorted + [key]
    else Insert(sorted[..|sorted| - 1], key) + [sorted[|sorted| - 1]]
  }

  function Sort(s: seq<Task>): (r: seq<Task>)
    ensures |r| == |s|
  {
    if s == [] then [] else Insert(Sort(s[..|s| - 1]), s[|s| - 1])
  }

  ghost predicate Ordered(s: seq<Task>) {
    forall i, j :: 0 <= i < j < |s| ==> EffectivePriority(s[i]) <= EffectivePriority(s[j])
  }

  /** The tasks of one priority, in their order. */
  function Level(s: seq<Task>, p: byte): seq<Task> {
    if s == [] then []
    else Level(s[..|s| - 1], p) + if EffectivePriority(s[|s| - 1]) == p then [s[|s| - 1]] else []
  }

  /** `r` is a stable rearrangement of `s`: at every priority, the same tasks in the same order. */
  ghost predicate Stable(r: seq<Task>, s: seq<Task>) {
    forall p: byte :: Level(r, p) == Level(s, p)
  }

  lemma LevelSnoc(s: seq<Task>, t: Task, p: byte)
    ensures Level(s + [t], p) == Level(s, p) + if EffectivePriority(t) == p then [t] else []
  {
    hide EffectivePriority;
    assert (s + [t])[..|s|] == s;
  }

  lemma {:induction false} InsertOrders(s: seq<Task>, key: Task)
    requires Ordered(s)
    ensures Ordered(Insert(s, key))
    ensures forall t :: t in Insert(s, key) <==> t in s || t == key
  {
    hide EffectivePriority;
    var n := |s| - 1;
    if s != [] && EffectivePriority(s[n]) > EffectivePriority(key) {
      InsertOrders(s[..n], key);
      assert s == s[..n] + [s[n]];
      var r := Insert(s[..n], key);
      assert Insert(s, key) == r + [s[n]];
      assert forall i :: 0 <= i < |r| ==> r[i] in r;
      assert forall t :: t in r ==> t in s || t == key;
    }
  }

  lemma {:induction false} InsertLevels(s: seq<Task>, key: Task, p: byte)
    requires Ordered(s)
    ensures Level(Insert(s, key), p) == Level(s + [key], p)
  {
    hide EffectivePriority, Level;
    var n := |s| - 1;
    LevelSnoc(s, key, p);
    if s != [] && EffectivePriority(s[n]) > EffectivePriority(key) {
      InsertLevels(s[..n], key, p);
      LevelSnoc(s[..n], key, p);
      LevelSnoc(s[..n], s[n], p);
      LevelSnoc(Insert(s[..n], key), s[n], p);
      assert s == s[..n] + [s[n]];
    }
  }

  /** The sort orders by priority and is stable. */
  lemma {:induction false} SortSorts(s: seq<Task>)
    ensures Ordered(Sort(s)) && Stable(Sort(s), s)
    ensures forall t :: t in Sort(s) <==> t in s
  {
    hide EffectivePriority, Level, Insert;
    if s != [] {
      var n := |s| - 1;
      var rest := Sort(s[..n]);
      SortSorts(s[..n]);
      InsertOrders(rest, s[n]);
      assert s == s[..n] + [s[n]];
      forall p: byte
        ensures Level(Sort(s), p) == Level(s, p)
      {
        InsertLevels(rest, s[n], p);
        LevelSnoc(rest, s[n], p);
        LevelSnoc(s[..n], s[n], p);
      }
    }
  }

  lemma {:induction false} LevelIn(s: seq<Task>, t: Task)
    ensures t in s <==> t in Level(s, EffectivePriority(t))
  {
    hide EffectivePriority;
    if s != [] {
      LevelIn(s[..|s| - 1], t);
      assert s == s[..|s| - 1] + [s[|s| - 1]];
    }
  }

  lemma OrderedLast(s: seq<Task>, t: Task)
    requires Ordered(s) && t in s
    ensures EffectivePriority(t) <= EffectivePriority(s[|s| - 1])
  {
  }

  lemma StableIn(a: seq<Task>, b: seq<Task>, t: Task)
    requires Stable(a, b)
    ensures t in a <==> t in b
  {
    hide EffectivePriority, Level;
    LevelIn(a, t);
    LevelIn(b, t);
  }

  /** Those two properties determine the result: any ordered stable rearrangement is the sort's. */
  lemma {:induction false} SortIsUnique(a: seq<Task>, b: seq<Task>)
    requires Ordered(a) && Ordered(b) && Stable(a, b)
    ensures a == b
    decreases |a|
  {
    hide EffectivePriority, Level, Stable;
    if a == [] {
      if b != [] {
        StableIn(a, b, b[0]);
      }
    } else {
      var x := a[|a| - 1];
      StableIn(a, b, x);
      var y := b[|b| - 1];
      StableIn(a, b, y);
      OrderedLast(a, y);
      OrderedLast(b, x);
      LastLevels(a, b);
      SortIsUnique(a[..|a| - 1], b[..|b| - 1]);
      assert a == a[..|a| - 1] + [x] && b == b[..|b| - 1] + [y];
    }
  }

  lemma LastLevels(a: seq<Task>, b: seq<Task>)
    requires a != [] && b != [] && Stable(a, b)
    requires EffectivePriority(a[|a| - 1]) == EffectivePriority(b[|b| - 1])
    ensures a[|a| - 1] == b[|b| - 1] && Stable(a[..|a| - 1], b[..|b| - 1])
  {
    hide EffectivePriority, Level;
    var a1, x, b1, y := a[..|a| - 1], a[|a| - 1], b[..|b| - 1], b[|b| - 1];
    assert a == a1 + [x] && b == b1 + [y];
    var p := EffectivePriority(x);
    LevelSnoc(a1, x, p);
    LevelSnoc(b1, y, p);
    assert Level(a, p) == Level(b, p);
    assert x == Level(a, p)[|Level(a, p)| - 1] && y == Level(b, p)[|Level(b, p)| - 1];
    forall q: byte
      ensures Level(a1, q) == Level(b1, q)
    {
      LevelSnoc(a1, x, q);
      LevelSnoc(b1, y, q);
      assert Level(a, q) == Level(b, q);
      if q == p {
        assert Level(a1, q) == Level(a, q)[..|Level(a, q)| - 1];
        assert Level(b1, q) == Level(b, q)[..|Level(b, q)| - 1];
      } else {
        assert Level(a1, q) + [] == Level(a1, q) && Level(b1, q) + [] == Level(b1, q);
      }
    }
  }

  // ----- the core's task list, updated in place -----

  class CoreData {
    const tasks: array<Task>
    var taskCount: nat
    var crunchMode: bool
    var crunch: Option<nat>

    ghost predicate Valid()
      reads this
    {
      tasks.Length == MAX_TASKS && taskCount <= MAX_TASKS
    }

    ghost function State(): Core
      requires Valid()
      reads this, tasks
    {
      Core(tasks[..taskCount], crunchMode, crunch)
    }

    constructor ()
      ensures Valid() && fresh(tasks) && State() == Core([], false, None)
    {
      tasks := new Task[MAX_TASKS](_ => Task(0, false, 0, 0, false));
      taskCount, crunchMode, crunch := 0, false, None;
    }

    /** A full list drops the task without a word. */
    method AddTask(t: Task)
      requires Valid()
      modifies this`taskCount, tasks
      ensures Valid() && State() == Add(old(State()), t)
    {
      if taskCount < MAX_TASKS {
        tasks[taskCount] := t;
        taskCount := taskCount + 1;
        assert tasks[..taskCount] == old(tasks[..taskCount]) + [t];
      }
    }

    method SetCrunchTask(period: nat)
      requires Valid()
      modifies this`crunchMode, this`crunch
      ensures Valid() && State() == old(State()).(crunchMode := true, crunch := Some(period))
    {
      crunchMode, crunch := true, Some(period);
    }

    method PrependTask(t: Task)
      requires Valid()
      modifies this`taskCount, tasks
      ensures Valid() && State() == Prepend(old(State()), t)
    {
      if taskCount < MAX_TASKS {
        ghost var was := tasks[..];
        var i := taskCount;
        while i > 0
          modifies tasks
          invariant 0 <= i <= taskCount < tasks.Length == |was|
          invariant forall k :: 0 <= k < i ==> tasks[k] == was[k]
          invariant forall k :: i < k <= taskCount ==> tasks[k] == was[k - 1]
        {
          tasks[i] := tasks[i - 1];
          i := i - 1;
        }
        tasks[0] := t;
        taskCount := taskCount + 1;
        assert old(tasks[..taskCount]) == was[..taskCount - 1];
        assert tasks[..taskCount] == [t] + was[..taskCount - 1];
      }
    }

    /** Insertion sort by effective priority. */
    method SortByPriority()
      requires Valid()
      modifies tasks
      ensures Valid() && State() == old(State()).(tasks := Sort(old(State()).tasks))
    {
      hide EffectivePriority, Insert, Sort;
      ghost var was := tasks[..taskCount];
      SortShort(was);
      var i := 1;
      while i < taskCount
        invariant 1 <= i && (i <= taskCount || was == tasks[..taskCount] == Sort(was))
        invariant i <= taskCount ==> tasks[..i] == Sort(was[..i]) && Ordered(tasks[..i])
        invariant forall k :: i <= k < taskCount ==> tasks[k] == was[k]
      {
        assert tasks[i] == was[i];
        InsertAt(i);
        SortStep(was, i);
        i := i + 1;
      }
      assert was[..taskCount] == was;
    }

    /** Moves the task at `i` into its place among the sorted ones before it. */
    method InsertAt(i: nat)
      requires Valid() && 1 <= i < taskCount
      modifies tasks
      ensures tasks[..i + 1] == Insert(old(tasks[..i]), old(tasks[i]))
      ensures forall k :: i < k < taskCount ==> tasks[k] == old(tasks[k])
    {
      hide EffectivePriority, Insert;
      ghost var sorted := tasks[..i];
      var key := tasks[i];
      ghost var was := tasks[..];
      var j := ShiftLater(i, EffectivePriority(key), was);
      tasks[j] := key;
      assert sorted == was[..i];
      InsertPlace(sorted, key, j);
      Spliced(tasks[..i + 1], sorted, key, j);
    }

    /** Moves the tasks of a later priority that end just before `i` up by one, and says where the gap is. */
    method ShiftLater(i: nat, priority: byte, ghost was: seq<Task>) returns (j: nat)
      requires 1 <= i < tasks.Length && was == tasks[..]
      modifies tasks
      ensures j <= i && (j > 0 ==> EffectivePriority(was[j - 1]) <= priority)
      ensures forall k :: 0 <= k < j || i < k < tasks.Length ==> tasks[k] == was[k]
      ensures forall k :: j < k <= i ==> tasks[k] == was[k - 1]
      ensures forall k :: j <= k < i ==> EffectivePriority(was[k]) > priority
    {
      hide EffectivePriority;
      j := i;
      while j > 0 && EffectivePriority(tasks[j - 1]) > priority
        invariant 0 <= j <= i
        invariant forall k :: 0 <= k < j || i < k < tasks.Length ==> tasks[k] == was[k]
        invariant forall k :: j < k <= i ==> tasks[k] == was[k - 1]
        invariant forall k :: j <= k < i ==> EffectivePriority(was[k]) > priority
      {
        tasks[j] := tasks[j - 1];
        j := j - 1;
      }
    }
  }

  function Add(c: Core, t: Task): Core {
    if |c.tasks| < MAX_TASKS then c.(tasks := c.tasks + [t]) else c
  }

  function Prepend(c: Core, t: Task): Core {
    if |c.tasks| < MAX_TASKS then c.(tasks := [t] + c.tasks) else c
  }

  lemma Spliced(after: seq<Task>, sorted: seq<Task>, key: Task, j: nat)
    requires j <= |sorted| && |after| == |sorted| + 1 && after[j] == key
    requires forall k :: 0 <= k < j ==> after[k] == sorted[k]
    requires forall k :: j < k < |after| ==> after[k] == sorted[k - 1]
    ensures after == sorted[..j] + [key] + sorted[j..]
  {
    var r := sorted[..j] + [key] + sorted[j..];
    forall k | 0 <= k < |after|
      ensures after[k] == r[k]
    {
      if k > j {
        assert after[k] == sorted[k - 1];
      }
    }
  }

  lemma {:induction false} InsertPlace(sorted: seq<Task>, key: Task, j: nat)
    requires j <= |sorted|
    requires j == 0 || EffectivePriority(sorted[j - 1]) <= EffectivePriority(key)
    requires forall k :: j <= k < |sorted| ==> EffectivePriority(sorted[k]) > EffectivePriority(key)
    ensures Insert(sorted, key) == sorted[..j] + [key] + sorted[j..]
    decreases |sorted|
  {
    hide EffectivePriority;
    var n := |sorted| - 1;
    if j == |sorted| {
      assert sorted[..j] == sorted && sorted[j..] == [];
    } else {
      InsertPlace(sorted[..n], key, j);
      assert sorted[..n][..j] == sorted[..j] && sorted[j..] == sorted[..n][j..] + [sorted[n]];
    }
  }

  lemma SortStep(s: seq<Task>, i: nat)
    requires i < |s|
    ensures Sort(s[..i + 1]) == Insert(Sort(s[..i]), s[i])
    ensures Ordered(Sort(s[..i + 1]))
  {
    hide Insert;
    assert s[..i + 1][..i] == s[..i];
    SortSorts(s[..i + 1]);
  }

  lemma SortShort(s: seq<Task>)
    ensures |s| <= 1 ==> Sort(s) == s
    ensures |s| >= 1 ==> Sort(s[..1]) == s[..1] && Ordered(s[..1])
  {
  }

  // ----- build() on values -----

  /**
   * Kernel tasks go in front, so that the stable sort keeps them ahead of user tasks of
   * their own priority; comms runs on core 1 unless that is missing or a crunch core.
   */
  function Place(cores: seq<Core>, k: Kernel): (r: seq<Core>)
    requires cores != []
    ensures |r| == |cores|
  {
    if |cores| >= 2 then
      if cores[1].crunchMode then cores[0 := Prepend(Prepend(cores[0], k.control), k.comms)]
      else cores[0 := Prepend(cores[0], k.control)][1 := Prepend(cores[1], k.comms)]
    else cores[0 := Prepend(Prepend(cores[0], k.comms), k.control)]
  }

  function SortAll(cores: seq<Core>): (r: seq<Core>)
    ensures |r| == |cores|
  {
    seq(|cores|, c requires 0 <= c < |cores| => cores[c].(tasks := Sort(cores[c].tasks)))
  }

  predicate Active(c: Core) {
    c.tasks != [] || c.crunch.Some?
  }

  predicate PeriodOk(t: Task, min: nat) {
    t.scheduled && t.period > 0 ==> t.period >= min
  }

  ghost predicate PeriodsOk(cores: seq<Core>, min: nat) {
    forall c, t :: 0 <= c < |cores| && t in cores[c].tasks ==> PeriodOk(t, min)
  }

  /** The task in slot `t1` of core `c1` also occupies another slot. */
  predicate Again(cores: seq<Core>, c1: nat, t1: nat, c2: nat, t2: nat)
    requires c1 < |cores| && c2 < |cores|
  {
    && t1 < |cores[c1].tasks| && t2 < |cores[c2].tasks| && (c1 != c2 || t1 != t2)
    && cores[c1].tasks[t1] == cores[c2].tasks[t2]
  }

  ghost predicate NoDuplicates(cores: seq<Core>) {
    forall c1: nat, t1: nat, c2: nat, t2: nat | c1 < |cores| && c2 < |cores| :: !Again(cores, c1, t1, c2, t2)
  }

  function CrunchFault(cores: seq<Core>, c: nat, min: nat): Option<Reason>
    requires c < |cores|
  {
    if !cores[c].crunchMode then None
    else if c == 0 then Some(CrunchOnCoreZero)
    else if cores[c].crunch.None? then Some(NoCrunchTask)
    else if cores[c].tasks != [] then Some(CrunchNotAlone)
    else if 0 < cores[c].crunch.value < min then Some(CrunchPeriodTooShort)
    else None
  }

  /** The first fault of a crunch core. */
  function FirstCrunchFault(cores: seq<Core>, from: nat, min: nat): Option<Reason>
    requires from <= |cores|
    decreases |cores| - from
  {
    if from == |cores| then None
    else if CrunchFault(cores, from, min).Some? then CrunchFault(cores, from, min)
    else FirstCrunchFault(cores, from + 1, min)
  }

  ghost predicate DependenciesMet(cores: seq<Core>) {
    forall c, t :: 0 <= c < |cores| && t in cores[c].tasks ==> t.depsMet
  }

  ghost predicate AnyActive(cores: seq<Core>) {
    exists c :: 0 <= c < |cores| && Active(cores[c])
  }

  ghost function Validate(cores: seq<Core>, min: nat): Outcome {
    if !AnyActive(cores) then Failed(NoTasks)
    else if !PeriodsOk(cores, min) then Failed(PeriodTooShort)
    else if !NoDuplicates(cores) then Failed(Duplicate)
    else if FirstCrunchFault(cores, 0, min).Some? then Failed(FirstCrunchFault(cores, 0, min).value)
    else if !DependenciesMet(cores) then Failed(DependencyUnmet)
    else Built
  }

  /** The lists `build()` leaves, whatever its verdict. */
  function Arranged(cores: seq<Core>, kernel: Option<Kernel>): (r: seq<Core>)
    requires cores != []
    ensures |r| == |cores|
  {
    SortAll(if kernel.Some? then Place(cores, kernel.value) else cores)
  }

  ghost function BuildVerdict(cores: seq<Core>, kernel: Option<Kernel>, min: nat): Outcome
    requires cores != []
  {
    Validate(Arranged(cores, kernel), min)
  }

  // ----- what a successful build promises -----

  /**
   * Every core's list is an ordered, stable rearrangement of the kernel tasks and what was
   * registered, in every build; in a successful one no task has two slots, on any cores.
   */
  lemma BuildOrders(cores: seq<Core>, kernel: Option<Kernel>, min: nat, c: nat)
    requires c < |cores|
    ensures var placed := if kernel.Some? then Place(cores, kernel.value) else cores;
            var out := Arranged(cores, kernel);
            && Ordered(out[c].tasks) && Stable(out[c].tasks, placed[c].tasks)
            && (forall t :: t in out[c].tasks <==> t in placed[c].tasks)
            && (BuildVerdict(cores, kernel, min).Built? ==> NoDuplicates(out))
  {
    hide Ordered, Stable, Place, NoDuplicates;
    var placed := if kernel.Some? then Place(cores, kernel.value) else cores;
    SortSorts(placed[c].tasks);
  }

  /** In the built list of a core, the task of the shorter period precedes, however they were registered. */
  lemma FasterComesFirst(cores: seq<Core>, kernel: Option<Kernel>, c: nat, i: nat, j: nat)
    requires c < |cores|
    requires var out := Arranged(cores, kernel)[c].tasks;
             && i < |out| && j < |out| && Automatic(out[i]) && Automatic(out[j])
             && Between(out[i].period, out[j].period)
    ensures i < j
  {
    hide Between, EffectivePriority, Place, Arranged;
    var out := Arranged(cores, kernel)[c].tasks;
    BuildOrders(cores, kernel, 0, c);
    RateMonotonicExactly(out[i], out[j]);
  }

  predicate KernelPriorities(k: Kernel) {
    k.control.scheduled && k.control.priority == 0 && k.comms.scheduled && k.comms.priority == 1
  }

  lemma {:induction false} LevelHead(s: seq<Task>, p: byte)
    requires s != [] && EffectivePriority(s[0]) == p
    ensures Level(s, p) != [] && Level(s, p)[0] == s[0]
  {
    hide EffectivePriority;
    if |s| == 1 {
      assert Level(s[..0], p) == [];
    } else {
      LevelHead(s[..|s| - 1], p);
    }
  }

  lemma {:induction false} LevelCons(t: Task, s: seq<Task>, p: byte)
    ensures Level([t] + s, p) == (if EffectivePriority(t) == p then [t] else []) + Level(s, p)
  {
    hide EffectivePriority;
    if s == [] {
      assert [t] + s == [t] && [t][..0] == [];
    } else {
      var n := |s| - 1;
      LevelCons(t, s[..n], p);
      assert ([t] + s)[..n + 1] == [t] + s[..n];
      assert ([t] + s)[n + 1] == s[n];
    }
  }

  /** A priority-0 task that comes before every other one is first after the sort. */
  lemma FirstOfZero(r: seq<Task>, s: seq<Task>, t: Task)
    requires Ordered(r) && Stable(r, s)
    requires Level(s, 0) != [] && Level(s, 0)[0] == t && EffectivePriority(t) == 0
    ensures r != [] && r[0] == t
  {
    hide EffectivePriority, Level;
    assert Level(r, 0) == Level(s, 0);
    LevelIn(r, t);
    assert EffectivePriority(r[0]) <= 0;
    LevelHead(r, 0);
  }

  /** Room for the kernel tasks that go in front of Control. */
  predicate Room(cores: seq<Core>)
    requires cores != []
  {
    |cores[0].tasks| <= if |cores| == 1 then MAX_TASKS - 2 else MAX_TASKS - 1
  }

  /** Where the layout puts comms. */
  function CommsCore(cores: seq<Core>): (c: nat)
    requires cores != []
    ensures c < |cores|
  {
    if |cores| >= 2 && !cores[1].crunchMode then 1 else 0
  }

  /** Comms finds room, behind ControlTask where both go to one list of a crunch layout. */
  predicate CommsRoom(cores: seq<Core>)
    requires cores != []
  {
    |cores[CommsCore(cores)].tasks| <= if |cores| >= 2 && cores[1].crunchMode then MAX_TASKS - 2 else MAX_TASKS - 1
  }

  lemma PlacedControl(cores: seq<Core>, k: Kernel)
    requires cores != [] && |cores[0].tasks| <= MAX_TASKS && KernelPriorities(k)
    ensures Room(cores) ==>
              var list := Place(cores, k)[0].tasks;
              Level(list, 0) == [k.control] + Level(cores[0].tasks, 0)
    ensures !Room(cores) && k.control !in cores[0].tasks && k.control != k.comms ==>
              k.control !in Place(cores, k)[0].tasks
  {
    hide Level;
    var users := cores[0].tasks;
    LevelCons(k.control, users, 0);
    LevelCons(k.comms, users, 0);
    LevelCons(k.control, [k.comms] + users, 0);
    LevelCons(k.comms, [k.control] + users, 0);
    assert [] + Level(users, 0) == Level(users, 0);
    assert [] + ([k.control] + Level(users, 0)) == [k.control] + Level(users, 0);
  }

  /**
   * ControlTask has slot 0 of core 0, in the single-core, multi-core and crunch layouts
   * alike and even against user tasks of priority 0, if and only if the list had room; when
   * it had none the task is dropped and never runs.
   */
  lemma ControlFirstExactly(cores: seq<Core>, k: Kernel)
    requires cores != [] && |cores[0].tasks| <= MAX_TASKS
    requires KernelPriorities(k) && k.control != k.comms && k.control !in cores[0].tasks
    ensures var out := Arranged(cores, Some(k))[0].tasks;
            && (Room(cores) <==> out != [] && out[0] == k.control)
            && (!Room(cores) ==> k.control !in out)
  {
    hide Ordered, Stable, Level, Place, Sort;
    var placed := Place(cores, k)[0].tasks;
    PlacedControl(cores, k);
    SortSorts(placed);
    if Room(cores) {
      FirstOfZero(Sort(placed), placed, k.control);
    }
  }

  /** The tasks that come first in a list at their own priority, after the sort, precede all later ones. */
  lemma FirstOfLevel(r: seq<Task>, s: seq<Task>, t: Task, j: nat) returns (i: nat)
    requires Ordered(r) && Stable(r, s) && j < |r|
    requires var p := EffectivePriority(t);
             Level(s, p) != [] && Level(s, p)[0] == t && EffectivePriority(r[j]) >= p
    ensures i < |r| && r[i] == t && i <= j
  {
    hide EffectivePriority, Level;
    var p := EffectivePriority(t);
    assert Level(r, p) == Level(s, p);
    i := LevelStarts(r, p);
    if j < i {
      OrderedAt(r, j, i);
    }
  }

  lemma OrderedAt(r: seq<Task>, j: nat, i: nat)
    requires Ordered(r) && j < i < |r|
    ensures EffectivePriority(r[j]) <= EffectivePriority(r[i])
  {
  }

  /** Where a level's first task stands: nothing of that level is before it. */
  lemma {:induction false} LevelStarts(r: seq<Task>, p: byte) returns (i: nat)
    requires Level(r, p) != []
    ensures i < |r| && r[i] == Level(r, p)[0] && EffectivePriority(r[i]) == p
    ensures forall j :: 0 <= j < i ==> EffectivePriority(r[j]) != p
    decreases |r|
  {
    hide EffectivePriority;
    var n := |r| - 1;
    if Level(r[..n], p) == [] {
      i := n;
      NoneOfLevel(r[..n], p);
      assert forall j :: 0 <= j < n ==> r[..n][j] == r[j];
    } else {
      i := LevelStarts(r[..n], p);
    }
  }

  lemma {:induction false} NoneOfLevel(r: seq<Task>, p: byte)
    requires Level(r, p) == []
    ensures forall j :: 0 <= j < |r| ==> EffectivePriority(r[j]) != p
    decreases |r|
  {
    hide EffectivePriority;
    if r != [] {
      NoneOfLevel(r[..|r| - 1], p);
      assert forall j :: 0 <= j < |r| - 1 ==> r[..|r| - 1][j] == r[j];
    }
  }

  lemma PlacedComms(cores: seq<Core>, k: Kernel)
    requires cores != [] && KernelPriorities(k) && CommsRoom(cores)
    ensures var list := Place(cores, k)[CommsCore(cores)].tasks;
            Level(list, 1) == [k.comms] + Level(cores[CommsCore(cores)].tasks, 1)
  {
    hide Level;
    var users := cores[CommsCore(cores)].tasks;
    LevelCons(k.comms, users, 1);
    LevelCons(k.control, users, 1);
    LevelCons(k.control, [k.comms] + users, 1);
    LevelCons(k.comms, [k.control] + users, 1);
    assert [] + Level(users, 1) == Level(users, 1);
    assert [] + ([k.comms] + Level(users, 1)) == [k.comms] + Level(users, 1);
  }

  /**
   * With room for it, the comms task is on core 1, or on core 0 if there is no other or core 1 is
   * a crunch core, and there it precedes every task whose priority is not 0.
   */
  lemma CommsComesNext(cores: seq<Core>, k: Kernel, j: nat) returns (i: nat)
    requires cores != [] && KernelPriorities(k) && CommsRoom(cores)
    requires var c := if |cores| >= 2 && !cores[1].crunchMode then 1 else 0;
             var out := Arranged(cores, Some(k))[c].tasks;
             j < |out| && EffectivePriority(out[j]) != 0
    ensures var c := if |cores| >= 2 && !cores[1].crunchMode then 1 else 0;
            var out := Arranged(cores, Some(k))[c].tasks;
            i < |out| && out[i] == k.comms && i <= j
  {
    hide Ordered, Stable, Level, Place, Sort;
    var placed := Place(cores, k)[CommsCore(cores)].tasks;
    PlacedComms(cores, k);
    SortSorts(placed);
    i := FirstOfLevel(Sort(placed), placed, k.comms, j);
  }

  /** A list without repetition. */
  ghost predicate Distinct(s: seq<Task>) {
    forall i, j :: 0 <= i < j < |s| ==> s[i] != s[j]
  }

  lemma {:induction false} InsertMembers(s: seq<Task>, key: Task)
    ensures forall t :: t in Insert(s, key) <==> t in s || t == key
  {
    hide EffectivePriority;
    var n := |s| - 1;
    if s != [] && EffectivePriority(s[n]) > EffectivePriority(key) {
      assert s == s[..n] + [s[n]];
      InsertMembers(s[..n], key);
      assert Insert(s, key) == Insert(s[..n], key) + [s[n]];
    }
  }

  lemma BackDistinct(s: seq<Task>, t: Task)
    ensures Distinct(s + [t]) <==> Distinct(s) && t !in s
  {
    var all := s + [t];
    if Distinct(all) {
      assert forall i :: 0 <= i < |s| ==> s[i] == all[i] && all[i] != all[|s|];
    }
  }

  lemma {:induction false} InsertDistinct(s: seq<Task>, key: Task)
    ensures Distinct(Insert(s, key)) <==> Distinct(s) && key !in s
  {
    hide EffectivePriority, Distinct;
    var n := |s| - 1;
    BackDistinct(s, key);
    if s != [] {
      assert s == s[..n] + [s[n]];
      BackDistinct(s[..n], s[n]);
      if EffectivePriority(s[n]) > EffectivePriority(key) {
        InsertDistinct(s[..n], key);
        InsertMembers(s[..n], key);
        BackDistinct(Insert(s[..n], key), s[n]);
        assert Insert(s, key) == Insert(s[..n], key) + [s[n]];
      }
    }
  }

  /** The sort keeps the tasks of a list, and neither merges nor repeats one. */
  lemma {:induction false} SortDistinct(s: seq<Task>)
    ensures Distinct(Sort(s)) <==> Distinct(s)
    ensures forall t :: t in Sort(s) <==> t in s
  {
    hide Insert, Distinct;
    if s != [] {
      var n := |s| - 1;
      assert s == s[..n] + [s[n]];
      SortDistinct(s[..n]);
      BackDistinct(s[..n], s[n]);
      InsertDistinct(Sort(s[..n]), s[n]);
      InsertMembers(Sort(s[..n]), s[n]);
    }
  }

  /** Neither kernel task finds room. */
  predicate Full(cores: seq<Core>)
    requires cores != []
  {
    |cores[0].tasks| >= MAX_TASKS && |cores[CommsCore(cores)].tasks| >= MAX_TASKS
  }

  lemma FullDropsBoth(cores: seq<Core>, k: Kernel)
    requires cores != [] && Full(cores)
    ensures Place(cores, k) == cores
  {
  }

  /** Some core's list holds `t`. */
  ghost predicate Listed(cores: seq<Core>, t: Task) {
    exists c :: 0 <= c < |cores| && t in cores[c].tasks
  }

  /** No list repeats a task, and no two share one. */
  ghost predicate Apart(cores: seq<Core>) {
    && (forall c :: 0 <= c < |cores| ==> Distinct(cores[c].tasks))
    && forall c, d, t :: 0 <= c < |cores| && 0 <= d < |cores| && c != d && t in cores[c].tasks ==> t !in cores[d].tasks
  }

  lemma ApartExactly(cores: seq<Core>)
    ensures NoDuplicates(cores) <==> Apart(cores)
  {
    if NoDuplicates(cores) {
      forall c, i, j | 0 <= c < |cores| && 0 <= i < j < |cores[c].tasks|
        ensures cores[c].tasks[i] != cores[c].tasks[j]
      {
        assert !Again(cores, c, i, c, j);
      }
      forall c, d, t | 0 <= c < |cores| && 0 <= d < |cores| && c != d && t in cores[c].tasks
        ensures t !in cores[d].tasks
      {
        var i :| 0 <= i < |cores[c].tasks| && cores[c].tasks[i] == t;
        if t in cores[d].tasks {
          var j :| 0 <= j < |cores[d].tasks| && cores[d].tasks[j] == t;
          assert Again(cores, c, i, d, j);
        }
      }
    }
    if Apart(cores) {
      forall c1: nat, t1: nat, c2: nat, t2: nat | c1 < |cores| && c2 < |cores|
        ensures !Again(cores, c1, t1, c2, t2)
      {
        assert Distinct(cores[c1].tasks);
        if c1 != c2 && t1 < |cores[c1].tasks| && t2 < |cores[c2].tasks| {
          assert cores[c1].tasks[t1] in cores[c1].tasks && cores[c2].tasks[t2] in cores[c2].tasks;
        }
      }
    }
  }

  lemma SortedApart(cores: seq<Core>)
    ensures Apart(SortAll(cores)) <==> Apart(cores)
  {
    hide Sort, Distinct;
    forall c | 0 <= c < |cores|
      ensures Distinct(Sort(cores[c].tasks)) <==> Distinct(cores[c].tasks)
      ensures forall t :: t in Sort(cores[c].tasks) <==> t in cores[c].tasks
    {
      SortDistinct(cores[c].tasks);
    }
    assert forall c :: 0 <= c < |cores| ==> SortAll(cores)[c].tasks == Sort(cores[c].tasks);
  }

  function Put(cores: seq<Core>, c: nat, t: Task): (r: seq<Core>)
    requires c < |cores|
    ensures |r| == |cores|
  {
    cores[c := Prepend(cores[c], t)]
  }

  lemma FrontDistinct(t: Task, s: seq<Task>)
    ensures Distinct([t] + s) <==> Distinct(s) && t !in s
  {
    var all := [t] + s;
    if Distinct(all) {
      assert forall i :: 0 <= i < |s| ==> s[i] == all[i + 1] && all[0] != all[i + 1];
    }
  }

  /** One more task keeps the lists apart exactly if it is dropped or new. */
  lemma PutApart(cores: seq<Core>, c: nat, t: Task)
    requires c < |cores|
    ensures Apart(Put(cores, c, t)) <==> Apart(cores) && (|cores[c].tasks| < MAX_TASKS ==> !Listed(cores, t))
    ensures forall u :: Listed(Put(cores, c, t), u) <==> Listed(cores, u) || (u == t && |cores[c].tasks| < MAX_TASKS)
  {
    hide Distinct;
    if |cores[c].tasks| < MAX_TASKS {
      FrontDistinct(t, cores[c].tasks);
      var r := Put(cores, c, t);
      assert r[c].tasks == [t] + cores[c].tasks && forall d :: 0 <= d < |cores| && d != c ==> r[d] == cores[d];
      assert t in r[c].tasks;
    } else {
      assert cores[c := cores[c]] == cores;
    }
  }

  /** The kernel tasks that find room are new. */
  ghost predicate NoneTwice(cores: seq<Core>, k: Kernel)
    requires cores != []
  {
    (Room(cores) ==> !Listed(cores, k.control)) && (CommsRoom(cores) ==> !Listed(cores, k.comms))
  }

  lemma PlacedApart(cores: seq<Core>, k: Kernel)
    requires cores != [] && k.control != k.comms
    ensures Apart(Place(cores, k)) <==> Apart(cores) && NoneTwice(cores, k)
  {
    hide Apart, Listed;
    if |cores| == 1 {
      PutApart(cores, 0, k.comms);
      PutApart(Put(cores, 0, k.comms), 0, k.control);
    } else {
      PutApart(cores, 0, k.control);
      PutApart(Put(cores, 0, k.control), CommsCore(cores), k.comms);
    }
    PlaceIsPut(cores, k);
  }

  lemma PlaceIsPut(cores: seq<Core>, k: Kernel)
    requires cores != []
    ensures Place(cores, k) == if |cores| == 1 then Put(Put(cores, 0, k.comms), 0, k.control)
                               else Put(Put(cores, 0, k.control), CommsCore(cores), k.comms)
  {
  }

  lemma SortMembers(cores: seq<Core>)
    ensures forall c, t :: 0 <= c < |cores| ==> (t in SortAll(cores)[c].tasks <==> t in cores[c].tasks)
    ensures forall c :: 0 <= c < |cores| ==> (SortAll(cores)[c].tasks == [] <==> cores[c].tasks == [])
    ensures forall c :: 0 <= c < |cores| ==> SortAll(cores)[c] == cores[c].(tasks := SortAll(cores)[c].tasks)
  {
    hide Sort;
    forall c | 0 <= c < |cores|
      ensures forall t :: t in Sort(cores[c].tasks) <==> t in cores[c].tasks
      ensures Sort(cores[c].tasks) == [] <==> cores[c].tasks == []
    {
      SortDistinct(cores[c].tasks);
    }
  }

  /** No core from `from` on has a crunch fault. */
  ghost predicate NoCrunchFault(cores: seq<Core>, from: nat, min: nat) {
    forall c: nat :: from <= c < |cores| ==> CrunchFault(cores, c, min).None?
  }

  lemma {:induction false} FirstFaultExactly(cores: seq<Core>, from: nat, min: nat)
    requires from <= |cores|
    ensures FirstCrunchFault(cores, from, min).None? <==> NoCrunchFault(cores, from, min)
    decreases |cores| - from
  {
    hide CrunchFault;
    if from < |cores| {
      FirstFaultExactly(cores, from + 1, min);
    }
  }

  /** A list of cores passes every check. */
  ghost predicate Valid(cores: seq<Core>, min: nat) {
    AnyActive(cores) && PeriodsOk(cores, min) && Apart(cores) && NoCrunchFault(cores, 0, min) && DependenciesMet(cores)
  }

  /** It does not matter to the checks whether they look at the lists before or after the sort. */
  lemma SortValidates(cores: seq<Core>, min: nat)
    ensures var out := SortAll(cores);
            && (AnyActive(out) <==> AnyActive(cores)) && (PeriodsOk(out, min) <==> PeriodsOk(cores, min))
            && (NoDuplicates(out) <==> Apart(cores)) && (DependenciesMet(out) <==> DependenciesMet(cores))
            && (NoCrunchFault(out, 0, min) <==> NoCrunchFault(cores, 0, min))
  {
    hide SortAll, Apart, PeriodOk, NoDuplicates;
    var out := SortAll(cores);
    SortMembers(cores);
    ApartExactly(out);
    SortedApart(cores);
    forall c: nat | c < |cores|
      ensures CrunchFault(out, c, min) == CrunchFault(cores, c, min) && Active(out[c]) == Active(cores[c])
    {
      assert out[c] == cores[c].(tasks := out[c].tasks);
    }
  }

  lemma VerdictIs(cores: seq<Core>, min: nat)
    ensures Validate(SortAll(cores), min) == Built <==> Valid(cores, min)
    ensures AnyActive(cores) && PeriodsOk(cores, min) && !Apart(cores) ==>
              Validate(SortAll(cores), min) == Failed(Duplicate)
  {
    hide SortAll, Apart, PeriodsOk, NoDuplicates, AnyActive, DependenciesMet, NoCrunchFault, FirstCrunchFault;
    SortValidates(cores, min);
    FirstFaultExactly(SortAll(cores), 0, min);
  }

  /**
   * What a successful build has checked, in full: some core has a task; every scheduled task with
   * a period keeps to the shortest one allowed; no task has two slots; a crunch core is not core
   * 0, has a crunch task with a period of that kind or none, and no other; and every dependency
   * is met.
   */
  lemma BuildsExactly(cores: seq<Core>, min: nat)
    ensures Validate(SortAll(cores), min) == Built <==>
            && (exists c :: 0 <= c < |cores| && (cores[c].tasks != [] || cores[c].crunch.Some?))
            && (forall c, t :: 0 <= c < |cores| && t in cores[c].tasks ==>
                  (t.scheduled ==> t.period == 0 || t.period >= min) && t.depsMet)
            && Apart(cores)
            && (forall c: nat :: c < |cores| && cores[c].crunchMode ==>
                  c != 0 && cores[c].crunch.Some? && cores[c].tasks == [] &&
                  (cores[c].crunch.value == 0 || cores[c].crunch.value >= min))
  {
    VerdictIs(cores, min);
    ActiveIs(cores);
    TimesAre(cores, min);
    CrunchIs(cores, min);
    hide SortAll, Apart, Validate, AnyActive, PeriodsOk, DependenciesMet, NoCrunchFault;
  }

  lemma ActiveIs(cores: seq<Core>)
    ensures AnyActive(cores) <==> exists c :: 0 <= c < |cores| && (cores[c].tasks != [] || cores[c].crunch.Some?)
  {
    if c :| 0 <= c < |cores| && (cores[c].tasks != [] || cores[c].crunch.Some?) {
      assert Active(cores[c]);
    }
  }

  lemma TimesAre(cores: seq<Core>, min: nat)
    ensures PeriodsOk(cores, min) && DependenciesMet(cores) <==>
            forall c, t :: 0 <= c < |cores| && t in cores[c].tasks ==>
              (t.scheduled ==> t.period == 0 || t.period >= min) && t.depsMet
  {
    if PeriodsOk(cores, min) && DependenciesMet(cores) {
      forall c, t | 0 <= c < |cores| && t in cores[c].tasks
        ensures (t.scheduled ==> t.period == 0 || t.period >= min) && t.depsMet
      {
        assert PeriodOk(t, min);
      }
    } else {
      var c, t :| 0 <= c < |cores| && t in cores[c].tasks && !(PeriodOk(t, min) && t.depsMet);
    }
  }

  predicate CrunchCoreOk(core: Core, c: nat, min: nat) {
    c != 0 && core.crunch.Some? && core.tasks == [] && (core.crunch.value == 0 || core.crunch.value >= min)
  }

  lemma CrunchIs(cores: seq<Core>, min: nat)
    ensures NoCrunchFault(cores, 0, min) <==>
            forall c: nat :: c < |cores| && cores[c].crunchMode ==> CrunchCoreOk(cores[c], c, min)
  {
    if NoCrunchFault(cores, 0, min) {
      forall c: nat | c < |cores| && cores[c].crunchMode
        ensures CrunchCoreOk(cores[c], c, min)
      {
        assert CrunchFault(cores, c, min).None?;
      }
    } else {
      var c: nat :| c < |cores| && CrunchFault(cores, c, min).Some?;
      assert cores[c].crunchMode && !CrunchCoreOk(cores[c], c, min);
    }
  }

  /** Placing the kernel tasks adds nothing else, and leaves valid crunch cores alone. */
  lemma PlaceAdds(cores: seq<Core>, k: Kernel, c: nat)
    requires c < |cores|
    ensures var r := Place(cores, k)[c];
            && (forall t :: t in r.tasks ==> t in cores[c].tasks || t == k.control || t == k.comms)
            && (forall t :: t in cores[c].tasks ==> t in r.tasks)
            && r.crunchMode == cores[c].crunchMode && r.crunch == cores[c].crunch
            && (c > 0 && r.crunchMode ==> r == cores[c])
  {
  }

  predicate KernelValid(k: Kernel, min: nat) {
    && k.control != k.comms && k.control.depsMet && k.comms.depsMet
    && PeriodOk(k.control, min) && PeriodOk(k.comms, min)
  }

  lemma PlacedValid(cores: seq<Core>, k: Kernel, min: nat)
    requires cores != [] && KernelValid(k, min) && Valid(cores, min)
    ensures var placed := Place(cores, k);
            && AnyActive(placed) && PeriodsOk(placed, min) && NoCrunchFault(placed, 0, min) && DependenciesMet(placed)
  {
    hide Place, Apart, PeriodOk;
    var placed := Place(cores, k);
    forall c: nat | c < |cores|
      ensures forall t :: t in placed[c].tasks ==> PeriodOk(t, min) && t.depsMet
      ensures Active(cores[c]) ==> Active(placed[c])
      ensures CrunchFault(placed, c, min).None?
    {
      PlaceAdds(cores, k, c);
      assert CrunchFault(cores, c, min).None?;
      if cores[c].tasks != [] {
        assert cores[c].tasks[0] in placed[c].tasks;
      }
    }
  }

  /**
   * A build over valid lists, whatever an earlier build left in them: it succeeds if and only
   * if no kernel task that finds room is in a list already, and otherwise reports a duplicate,
   * however the first fault was repaired. A task that finds no room is dropped once more.
   */
  lemma RetryExactly(cores: seq<Core>, k: Kernel, min: nat)
    requires cores != [] && KernelValid(k, min) && BuildVerdict(cores, None, min) == Built
    ensures BuildVerdict(cores, Some(k), min) == if NoneTwice(cores, k) then Built else Failed(Duplicate)
  {
    hide SortAll, Place, Apart, PeriodsOk, AnyActive, DependenciesMet, NoCrunchFault, Validate, NoneTwice, KernelValid;
    VerdictIs(cores, min);
    VerdictIs(Place(cores, k), min);
    PlacedValid(cores, k, min);
    KernelApart(k, min);
    PlacedApart(cores, k);
  }

  lemma KernelApart(k: Kernel, min: nat)
    requires KernelValid(k, min)
    ensures k.control != k.comms
  {
  }

  /**
   * The lists of an earlier build, whose tasks may have been changed since: same layout and
   * sizes, same kernel tasks.
   */
  ghost predicate Remains(after: seq<Core>, out: seq<Core>, k: Kernel) {
    && |after| == |out|
    && (forall c :: 0 <= c < |out| ==>
          |after[c].tasks| == |out[c].tasks| && after[c].crunchMode == out[c].crunchMode)
    && (Listed(after, k.control) <==> Listed(out, k.control)) && (Listed(after, k.comms) <==> Listed(out, k.comms))
  }

  /** A kernel task that still finds room after a build was placed by it. */
  lemma RoomMeansPlaced(cores: seq<Core>, k: Kernel)
    requires cores != []
    ensures Room(Arranged(cores, Some(k))) ==> Listed(Arranged(cores, Some(k)), k.control)
    ensures CommsRoom(Arranged(cores, Some(k))) ==> Listed(Arranged(cores, Some(k)), k.comms)
  {
    hide Listed, Sort, Apart;
    if |cores| == 1 {
      PutApart(cores, 0, k.comms);
      PutApart(Put(cores, 0, k.comms), 0, k.control);
    } else {
      PutApart(cores, 0, k.control);
      PutApart(Put(cores, 0, k.control), CommsCore(cores), k.comms);
    }
    PlaceIsPut(cores, k);
    SortListed(Place(cores, k));
  }

  lemma SortListed(cores: seq<Core>)
    ensures forall t :: Listed(SortAll(cores), t) <==> Listed(cores, t)
  {
    hide SortAll;
    SortMembers(cores);
  }

  /**
   * So the retry of a build, whichever kernel tasks that build placed and whatever was repaired
   * since, succeeds if and only if neither kernel task finds room any more.
   */
  lemma RetryOfBuildExactly(cores: seq<Core>, after: seq<Core>, k: Kernel, min: nat)
    requires cores != [] && KernelValid(k, min) && Remains(after, Arranged(cores, Some(k)), k)
    requires BuildVerdict(after, None, min) == Built
    ensures BuildVerdict(after, Some(k), min) == if Room(after) || CommsRoom(after) then Failed(Duplicate) else Built
  {
    hide Arranged, Listed, Validate, KernelValid;
    RoomMeansPlaced(cores, k);
    RetryExactly(after, k, min);
  }

  // ----- full lists -----

  /** The layout without the task that finds no room on core 0. */
  function PlaceComms(cores: seq<Core>, k: Kernel): (r: seq<Core>)
    requires cores != []
    ensures |r| == |cores|
  {
    cores[CommsCore(cores) := Prepend(cores[CommsCore(cores)], k.comms)]
  }

  /** Without room, the build is the one of a system that has no ControlTask, its verdict included. */
  lemma DroppedControl(cores: seq<Core>, k: Kernel, min: nat)
    requires cores != [] && |cores[0].tasks| <= MAX_TASKS && !Room(cores)
    ensures Arranged(cores, Some(k)) == SortAll(PlaceComms(cores, k))
    ensures BuildVerdict(cores, Some(k), min) == Validate(SortAll(PlaceComms(cores, k)), min)
  {
    hide SortAll, Validate;
    assert cores[0 := cores[0]] == cores;
    assert Place(cores, k) == PlaceComms(cores, k);
  }

  /** `n` user tasks of priority 5 without a period, the first with or without its dependencies. */
  function Users(n: nat, met: bool): (s: seq<Task>)
    ensures |s| == n
  {
    seq(n, i requires 0 <= i < n => Task(i + 2, true, 5, 0, met || i > 0))
  }

  const KERNEL: Kernel := Kernel(Task(0, true, 0, 0, true), Task(1, true, 1, 0, true))

  /** One core with a list of distinct tasks of valid periods builds if their dependencies are met. */
  lemma OneCoreVerdict(s: seq<Task>, min: nat)
    requires s != [] && Distinct(s) && forall t :: t in s ==> PeriodOk(t, min)
    ensures Validate(SortAll([Core(s, false, None)]), min) ==
            if forall t :: t in s ==> t.depsMet then Built else Failed(DependencyUnmet)
  {
    hide Sort, PeriodOk;
    SortDistinct(s);
    var out := SortAll([Core(s, false, None)]);
    assert out == [Core(Sort(s), false, None)];
    assert Active(out[0]);
    assert FirstCrunchFault(out, 0, min) == FirstCrunchFault(out, 1, min) == None;
    assert NoDuplicates(out);
    if forall t :: t in s ==> t.depsMet {
      assert DependenciesMet(out);
    } else {
      var t :| t in s && !t.depsMet;
      assert t in out[0].tasks;
    }
  }

  lemma UsersDistinct(n: nat, met: bool)
    ensures Distinct(Users(n, met)) && Distinct([KERNEL.comms] + Users(n, met))
    ensures Distinct([KERNEL.control] + ([KERNEL.comms] + Users(n, met)))
    ensures forall t :: t in Users(n, met) ==> t.id >= 2 && t.period == 0 && (met ==> t.depsMet)
  {
  }

  /** A full core builds without its ControlTask: with 255 user tasks and with 256, no slot holds it. */
  lemma BuildsWithoutControl(n: nat, min: nat)
    requires n == 255 || n == 256
    ensures var cores := [Core(Users(n, true), false, None)];
            && BuildVerdict(cores, Some(KERNEL), min) == Built
            && KERNEL.control !in Arranged(cores, Some(KERNEL))[0].tasks
  {
    hide Users, Distinct, Validate, Sort;
    var users := Users(n, true);
    var cores := [Core(users, false, None)];
    UsersDistinct(n, true);
    DroppedControl(cores, KERNEL, min);
    var placed := PlaceComms(cores, KERNEL)[0].tasks;
    assert PlaceComms(cores, KERNEL) == [Core(placed, false, None)];
    OneCoreVerdict(placed, min);
    SortSorts(placed);
  }

  /** The dependencies of every registered task repaired. */
  function Repaired(s: seq<Task>): (r: seq<Task>)
    ensures |r| == |s|
  {
    seq(|s|, i requires 0 <= i < |s| => s[i].(depsMet := true))
  }

  lemma RepairedDistinct(s: seq<Task>)
    requires forall i, j :: 0 <= i < j < |s| ==> s[i].id != s[j].id
    ensures Distinct(Repaired(s))
  {
    forall i, j | 0 <= i < j < |s|
      ensures Repaired(s)[i] != Repaired(s)[j]
    {
      assert Repaired(s)[i].id == s[i].id && Repaired(s)[j].id == s[j].id;
    }
  }

  /** Distinct tasks have distinct ids. */
  ghost predicate Identified(s: seq<Task>) {
    forall x, y :: x in s && y in s && x.id == y.id ==> x == y
  }

  lemma IdsApart(s: seq<Task>)
    requires Distinct(s) && Identified(s)
    ensures forall i, j :: 0 <= i < j < |s| ==> s[i].id != s[j].id
  {
    forall i, j | 0 <= i < j < |s|
      ensures s[i].id != s[j].id
    {
      assert s[i] in s && s[j] in s;
    }
  }

  lemma UsersIdentified(n: nat, met: bool)
    ensures Identified([KERNEL.control] + ([KERNEL.comms] + Users(n, met)))
  {
  }

  /**
   * A retry that succeeds: 254 user tasks, one with an unmet dependency, fill the list
   * together with the kernel's; once that is met, building again finds no room and no fault.
   */
  lemma RetryOverFullList(min: nat)
    ensures var cores := [Core(Users(254, false), false, None)];
            var after := Arranged(cores, Some(KERNEL))[0].tasks;
            && BuildVerdict(cores, Some(KERNEL), min) == Failed(DependencyUnmet)
            && KERNEL.control in after && KERNEL.comms in after
            && BuildVerdict([Core(Repaired(after), false, None)], Some(KERNEL), min) == Built
  {
    hide Users, Distinct, Identified, Validate, Sort, Repaired;
    var cores := [Core(Users(254, false), false, None)];
    var placed := [KERNEL.control] + ([KERNEL.comms] + Users(254, false));
    UsersDistinct(254, false);
    assert Place(cores, KERNEL) == [Core(placed, false, None)];
    OneCoreVerdict(placed, min);
    assert placed[2] in placed && !placed[2].depsMet by { FirstUser(254); }
    var after := Sort(placed);
    SortDistinct(placed);
    UsersIdentified(254, false);
    SameIdentities(placed, after);
    IdsApart(after);
    RepairedDistinct(after);
    var again := [Core(Repaired(after), false, None)];
    FullDropsBoth(again, KERNEL);
    RepairedValid(after, min);
    OneCoreVerdict(Repaired(after), min);
  }

  lemma FirstUser(n: nat)
    requires n > 0
    ensures !Users(n, false)[0].depsMet
  {
  }

  lemma SameIdentities(s: seq<Task>, r: seq<Task>)
    requires Identified(s) && forall t :: t in r <==> t in s
    ensures Identified(r)
  {
  }

  lemma RepairedValid(s: seq<Task>, min: nat)
    requires forall t :: t in s ==> t.period == 0
    ensures forall t :: t in Repaired(s) ==> PeriodOk(t, min) && t.depsMet
  {
    forall t | t in Repaired(s)
      ensures PeriodOk(t, min) && t.depsMet
    {
      var i :| 0 <= i < |s| && Repaired(s)[i] == t;
      assert s[i] in s;
    }
  }

  /** What a run of registrations leaves on one core: the first 256 of them. */
  function Registered(c: Core, requests: seq<Task>): Core {
    if requests == [] then c
    else Add(Registered(c, requests[..|requests| - 1]), requests[|requests| - 1])
  }

  lemma {:induction false} RegistrationDrops(c: Core, requests: seq<Task>)
    requires |c.tasks| <= MAX_TASKS
    ensures var all := c.tasks + requests;
            Registered(c, requests).tasks == if |all| <= MAX_TASKS then all else all[..MAX_TASKS]
  {
    if requests == [] {
      assert c.tasks + requests == c.tasks;
    } else {
      var n := |requests| - 1;
      RegistrationDrops(c, requests[..n]);
      assert c.tasks + requests == c.tasks + requests[..n] + [requests[n]];
    }
  }

  // ----- build() in place -----

  /** The core objects hold the values `s`, and share nothing. */
  ghost predicate Holds(cores: seq<CoreData>, s: seq<Core>)
    reads cores, set c | c in cores :: c.tasks
  {
    && |cores| == |s|
    && (forall i, j :: 0 <= i < j < |cores| ==> cores[i] != cores[j] && cores[i].tasks != cores[j].tasks)
    && (forall c :: 0 <= c < |cores| ==> cores[c].Valid() && cores[c].State() == s[c])
  }

  class SystemBuilder {
    const cores: seq<CoreData>
    const minPeriod: nat
    var built: bool

    constructor (cores: seq<CoreData>, minPeriod: nat)
      ensures this.cores == cores && this.minPeriod == minPeriod && !built
    {
      this.cores, this.minPeriod, built := cores, minPeriod, false;
    }

    /** `None` is a refusal because an earlier build succeeded. */
    method Build(kernel: Option<Kernel>, ghost was: seq<Core>) returns (r: Option<Outcome>)
      requires cores != [] && Holds(cores, was)
      modifies this`built, cores, set c | c in cores :: c.tasks
      ensures old(built) ==> r == None && Holds(cores, was)
      ensures !old(built) ==> Holds(cores, Arranged(was, kernel)) && r == Some(BuildVerdict(was, kernel, minPeriod))
      ensures built == (old(built) || r == Some(Built))
    {
      hide Place, Validate;
      if built {
        return None;
      }
      ghost var placed := was;
      if kernel.Some? {
        PlaceKernel(kernel.value, was);
        placed := Place(was, kernel.value);
      }
      SortCores(placed);
      var outcome := Check(SortAll(placed));
      built := outcome == Built;
      r := Some(outcome);
    }

    method PlaceKernel(k: Kernel, ghost was: seq<Core>)
      requires cores != [] && Holds(cores, was)
      modifies cores, set c | c in cores :: c.tasks
      ensures Holds(cores, Place(was, k))
    {
      hide Prepend;
      if |cores| >= 2 {
        var crunch := cores[1].crunchMode;
        PrependOn(0, k.control, was);
        ghost var mid := was[0 := Prepend(was[0], k.control)];
        if crunch {
          PrependOn(0, k.comms, mid);
          assert mid[0 := Prepend(mid[0], k.comms)] == Place(was, k);
        } else {
          PrependOn(1, k.comms, mid);
        }
      } else {
        PrependOn(0, k.comms, was);
        ghost var mid := was[0 := Prepend(was[0], k.comms)];
        PrependOn(0, k.control, mid);
        assert mid[0 := Prepend(mid[0], k.control)] == Place(was, k);
      }
    }

    method PrependOn(c: nat, t: Task, ghost was: seq<Core>)
      requires c < |cores| && Holds(cores, was)
      modifies cores[c], cores[c].tasks
      ensures Holds(cores, was[c := Prepend(was[c], t)])
    {
      hide Prepend;
      cores[c].PrependTask(t);
    }

    method SortOn(c: nat, ghost was: seq<Core>)
      requires c < |cores| && Holds(cores, was)
      modifies cores[c].tasks
      ensures Holds(cores, was[c := was[c].(tasks := Sort(was[c].tasks))])
    {
      hide Sort;
      cores[c].SortByPriority();
    }

    method SortCores(ghost was: seq<Core>)
      requires Holds(cores, was)
      modifies set c | c in cores :: c.tasks
      ensures Holds(cores, SortAll(was))
    {
      hide Sort, Holds;
      HeldSize(was);
      ghost var s := was;
      for c := 0 to |cores|
        invariant |s| == |was| == |cores| && Holds(cores, s)
        invariant forall i :: 0 <= i < |s| ==> s[i] == if i < c then SortAll(was)[i] else was[i]
      {
        SortOn(c, s);
        s := s[c := s[c].(tasks := Sort(s[c].tasks))];
      }
      assert s == SortAll(was);
    }

    lemma HeldSize(s: seq<Core>)
      requires Holds(cores, s)
      ensures |s| == |cores|
    {
    }

    method Check(ghost s: seq<Core>) returns (r: Outcome)
      requires Holds(cores, s)
      ensures r == Validate(s, minPeriod)
    {
      hide PeriodsOk, NoDuplicates, DependenciesMet, AnyActive, FirstCrunchFault, Holds;
      var active := CheckActive(s);
      if !active {
        return Failed(NoTasks);
      }
      var periods := CheckPeriods(s);
      if !periods {
        return Failed(PeriodTooShort);
      }
      var unique := CheckUnique(s);
      if !unique {
        return Failed(Duplicate);
      }
      var fault := CheckCrunch(s);
      if fault.Some? {
        return Failed(fault.value);
      }
      var met := CheckDependencies(s);
      r := if met then Built else Failed(DependencyUnmet);
    }

    method CheckActive(ghost s: seq<Core>) returns (active: bool)
      requires Holds(cores, s)
      ensures active == AnyActive(s)
    {
      for c := 0 to |cores|
        invariant forall i :: 0 <= i < c ==> !Active(s[i])
      {
        if cores[c].taskCount > 0 || cores[c].crunch.Some? {
          assert Active(s[c]);
          return true;
        }
      }
      active := false;
    }

    method CheckPeriods(ghost s: seq<Core>) returns (ok: bool)
      requires Holds(cores, s)
      ensures ok == PeriodsOk(s, minPeriod)
    {
      for c := 0 to |cores|
        invariant forall i, t :: 0 <= i < c && t in s[i].tasks ==> PeriodOk(t, minPeriod)
      {
        var n := cores[c].taskCount;
        for t := 0 to n
          invariant forall i :: 0 <= i < t ==> PeriodOk(s[c].tasks[i], minPeriod)
        {
          var tsk := cores[c].tasks[t];
          assert tsk == s[c].tasks[t] && tsk in s[c].tasks;
          if tsk.scheduled && tsk.period > 0 && tsk.period < minPeriod {
            return false;
          }
        }
      }
      ok := true;
    }

    method CheckDependencies(ghost s: seq<Core>) returns (ok: bool)
      requires Holds(cores, s)
      ensures ok == DependenciesMet(s)
    {
      for c := 0 to |cores|
        invariant forall i, t :: 0 <= i < c && t in s[i].tasks ==> t.depsMet
      {
        var n := cores[c].taskCount;
        for t := 0 to n
          invariant forall i :: 0 <= i < t ==> s[c].tasks[i].depsMet
        {
          var tsk := cores[c].tasks[t];
          assert tsk == s[c].tasks[t] && tsk in s[c].tasks;
          if !tsk.depsMet {
            return false;
          }
        }
      }
      ok := true;
    }

    method CheckCrunch(ghost s: seq<Core>) returns (fault: Option<Reason>)
      requires Holds(cores, s)
      ensures fault == FirstCrunchFault(s, 0, minPeriod)
    {
      for c := 0 to |cores|
        invariant FirstCrunchFault(s, 0, minPeriod) == FirstCrunchFault(s, c, minPeriod)
      {
        var core := cores[c];
        if !core.crunchMode {
          continue;
        }
        if c == 0 {
          return Some(CrunchOnCoreZero);
        }
        if core.crunch.None? {
          return Some(NoCrunchTask);
        }
        if core.taskCount > 0 {
          return Some(CrunchNotAlone);
        }
        if 0 < core.crunch.value < minPeriod {
          return Some(CrunchPeriodTooShort);
        }
      }
      fault := None;
    }

    /** Every slot against every later one. */
    method CheckUnique(ghost s: seq<Core>) returns (unique: bool)
      requires Holds(cores, s)
      ensures unique == NoDuplicates(s)
    {
      hide Again, NoDuplicates;
      for c1 := 0 to |cores|
        invariant forall i: nat, t1: nat :: i < c1 && t1 < |s[i].tasks| ==> FirstOfItsKind(s, i, t1)
      {
        var n := cores[c1].taskCount;
        for t1 := 0 to n
          invariant forall i: nat :: i < t1 ==> FirstOfItsKind(s, c1, i)
        {
          var later := CheckLater(s, c1, t1);
          if later {
            LaterIsDuplicate(s, c1, t1);
            return false;
          }
        }
      }
      AllFirst(s);
      unique := true;
    }

    method CheckLater(ghost s: seq<Core>, c1: nat, t1: nat) returns (found: bool)
      requires Holds(cores, s) && c1 < |cores| && t1 < |s[c1].tasks|
      ensures found == !FirstOfItsKind(s, c1, t1)
    {
      var tsk := cores[c1].tasks[t1];
      for c2 := c1 to |cores|
        invariant forall c: nat, t2: nat :: c1 <= c < c2 && t2 < |s[c].tasks| && After(c1, t1, c, t2) ==>
                  s[c].tasks[t2] != tsk
      {
        var start := if c2 == c1 then t1 + 1 else 0;
        var n := cores[c2].taskCount;
        for t2 := start to n
          invariant forall i: nat :: start <= i < t2 ==> s[c2].tasks[i] != tsk
        {
          assert cores[c2].tasks[t2] == s[c2].tasks[t2];
          if cores[c2].tasks[t2] == tsk {
            return true;
          }
        }
      }
      found := false;
    }
  }

  predicate After(c1: nat, t1: nat, c2: nat, t2: nat) {
    c2 > c1 || (c2 == c1 && t2 > t1)
  }

  /** No later slot holds the same task. */
  ghost predicate FirstOfItsKind(s: seq<Core>, c1: nat, t1: nat)
    requires c1 < |s| && t1 < |s[c1].tasks|
  {
    forall c2: nat, t2: nat :: c2 < |s| && t2 < |s[c2].tasks| && After(c1, t1, c2, t2) ==>
      s[c2].tasks[t2] != s[c1].tasks[t1]
  }

  lemma LaterIsDuplicate(s: seq<Core>, c1: nat, t1: nat)
    requires c1 < |s| && t1 < |s[c1].tasks| && !FirstOfItsKind(s, c1, t1)
    ensures !NoDuplicates(s)
  {
    var c2: nat, t2: nat :| c2 < |s| && t2 < |s[c2].tasks| && After(c1, t1, c2, t2) &&
                            s[c2].tasks[t2] == s[c1].tasks[t1];
    assert Again(s, c1, t1, c2, t2);
  }

  lemma AllFirst(s: seq<Core>)
    requires forall c: nat, t: nat :: c < |s| && t < |s[c].tasks| ==> FirstOfItsKind(s, c, t)
    ensures NoDuplicates(s)
  {
    forall c1: nat, t1: nat, c2: nat, t2: nat | c1 < |s| && c2 < |s|
      ensures !Again(s, c1, t1, c2, t2)
    {
      if t1 < |s[c1].tasks| && t2 < |s[c2].tasks| {
        assert FirstOfItsKind(s, c1, t1) && FirstOfItsKind(s, c2, t2);
      }
    }
  }
}
