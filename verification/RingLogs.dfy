/**
 * The two overwriting ring logs: ErrorLogger.cpp tells full from empty by a spare slot,
 * TelemetryLogger.cpp by a count. Both hold the last 32 unread entries, oldest first.
 */
module RingLogs {
  import opened Bytes
  import opened Ring

  const CAPACITY: nat := 32
  const SLOTS: nat := 33

  // ----- the log both of them are -----

  /** What a full log keeps of `s`. */
  function Latest<E>(s: seq<E>): (r: seq<E>)
    ensures |r| <= CAPACITY
  {
    if |s| <= CAPACITY then s else s[|s| - CAPACITY..]
  }

  datatype Op<E> = Log(e: E) | Take | Clear

  /** The unread entries after `op`, and what it took. */
  function Step<E>(unread: seq<E>, op: Op<E>): (seq<E>, seq<E>) {
    match op
    case Log(e) => (Latest(unread + [e]), [])
    case Take => if unread == [] then ([], []) else (unread[1..], [unread[0]])
    case Clear => ([], [])
  }

  /** A run of the log: what is left unread, and everything taken, in order. */
  function Run<E>(unread: seq<E>, ops: seq<Op<E>>): (seq<E>, seq<E>)
    decreases |ops|
  {
    if ops == [] then (unread, [])
    else
      var (next, out) := Step(unread, ops[0]);
      var (last, outs) := Run(next, ops[1..]);
      (last, out + outs)
  }

  function Logs<E>(entries: seq<E>): seq<Op<E>> {
    seq(|entries|, i requires 0 <= i < |entries| => Log(entries[i]))
  }

  /** Entries logged on top of a full or partly full log push out the oldest, and only those. */
  lemma {:induction false} LatestSurvive<E>(unread: seq<E>, entries: seq<E>)
    requires |unread| <= CAPACITY
    ensures Run(unread, Logs(entries)) == (Latest(unread + entries), [])
    ensures var all, r := unread + entries, Run(unread, Logs(entries)).0;
            |r| == (if |all| <= 32 then |all| else 32) && r == all[|all| - |r|..]
    decreases |entries|
  {
    if entries == [] {
      assert unread + entries == unread;
    } else {
      var e, rest := entries[0], entries[1..];
      assert Logs(entries)[1..] == Logs(rest);
      LatestSurvive(Latest(unread + [e]), rest);
      assert unread + entries == unread + [e] + rest;
      assert [] + Run(Latest(unread + [e]), Logs(rest)).1 == [];
      LatestTwice(unread + [e], rest);
    }
  }

  lemma LatestTwice<E>(s: seq<E>, t: seq<E>)
    ensures Latest(Latest(s) + t) == Latest(s + t)
  {
    var n := |s| - CAPACITY;
    if n > 0 {
      var kept := s[n..];
      assert s + t == s[..n] + (kept + t);
      LatestSuffix(s[..n], kept + t);
    }
  }

  /** What comes before the last entries does not matter. */
  lemma LatestSuffix<E>(before: seq<E>, s: seq<E>)
    requires |s| >= CAPACITY
    ensures Latest(before + s) == Latest(s)
  {
    var all, n := before + s, |s| - CAPACITY;
    assert all[|before| + n..] == s[n..];
  }

  // ----- items of a ring -----

  /** The slot `i` places on from `t`. */
  function On(t: nat, i: nat, k: nat): int {
    if t + i < k then t + i else t + i - k
  }

  lemma {:induction false} ItemsAt<E>(slots: seq<E>, t: nat, n: nat, i: nat)
    requires t < |slots| && i < n <= |slots|
    ensures 0 <= On(t, i, |slots|) < |slots| && Items(slots, t, n)[i] == slots[On(t, i, |slots|)]
    decreases n
  {
    NextWraps(t, |slots|);
    if i > 0 {
      ItemsAt(slots, Next(t, |slots|), n - 1, i - 1);
    }
  }

  /** Writing the slot behind the last item appends it. */
  lemma ItemsPush<E>(slots: seq<E>, t: nat, n: nat, e: E)
    requires t < |slots| && n < |slots|
    ensures 0 <= On(t, n, |slots|) < |slots|
    ensures Items(slots[On(t, n, |slots|) := e], t, n + 1) == Items(slots, t, n) + [e]
  {
    hide Items;
    var k := |slots|;
    var h := On(t, n, k);
    var after := slots[h := e];
    forall i | 0 <= i < n + 1
      ensures Items(after, t, n + 1)[i] == (Items(slots, t, n) + [e])[i]
    {
      ItemsAt(after, t, n + 1, i);
      if i < n {
        ItemsAt(slots, t, n, i);
      }
    }
  }

  lemma ItemsDrop<E>(slots: seq<E>, t: nat, n: nat)
    requires t < |slots| && n > 0
    ensures Items(slots, t, n) == [slots[t]] + Items(slots, Next(t, |slots|), n - 1)
  {
  }

  // ----- the spare-slot ring -----

  datatype Spare<E> = Spare(slots: seq<E>, head: nat, tail: nat)

  ghost predicate SpareOk<E>(r: Spare<E>) {
    |r.slots| == SLOTS && r.head < SLOTS && r.tail < SLOTS
  }

  ghost function SpareLog<E>(r: Spare<E>): seq<E>
    requires SpareOk(r)
  {
    Items(r.slots, r.tail, Distance(r.head, r.tail, SLOTS))
  }

  function SpareStep<E>(r: Spare<E>, op: Op<E>): (Spare<E>, seq<E>)
    requires |r.slots| == SLOTS && r.head < SLOTS && r.tail < SLOTS
  {
    match op
    case Log(e) =>
      var next := Next(r.head, SLOTS);
      (Spare(r.slots[r.head := e], next, if next == r.tail then Next(r.tail, SLOTS) else r.tail), [])
    case Take =>
      if r.tail == r.head then (r, []) else (r.(tail := Next(r.tail, SLOTS)), [r.slots[r.tail]])
    case Clear => (r.(tail := r.head), [])
  }

  lemma SpareRefines<E>(r: Spare<E>, op: Op<E>)
    requires SpareOk(r)
    ensures var (t, out) := SpareStep(r, op);
            SpareOk(t) && (SpareLog(t), out) == Step(SpareLog(r), op)
  {
    hide Items;
    var k := SLOTS;
    var n := Distance(r.head, r.tail, k);
    NextWraps(r.head, k);
    NextWraps(r.tail, k);
    match op {
      case Log(e) =>
        ItemsPush(r.slots, r.tail, n, e);
        assert On(r.tail, n, k) == r.head;
        if n == CAPACITY {
          ItemsDrop(r.slots[r.head := e], r.tail, n + 1);
        }
      case Take =>
        if n > 0 {
          ItemsDrop(r.slots, r.tail, n);
        }
      case Clear =>
    }
  }

  // ----- the counted ring -----

  datatype Counted<E> = Counted(slots: seq<E>, head: nat, tail: nat, count: nat)

  ghost predicate CountedOk<E>(r: Counted<E>) {
    |r.slots| == CAPACITY && r.tail < CAPACITY && r.count <= CAPACITY && r.head == On(r.tail, r.count, CAPACITY)
  }

  ghost function CountedLog<E>(r: Counted<E>): seq<E>
    requires CountedOk(r)
  {
    Items(r.slots, r.tail, r.count)
  }

  function CountedStep<E>(r: Counted<E>, op: Op<E>): (Counted<E>, seq<E>)
    requires |r.slots| == CAPACITY && r.head < CAPACITY && r.tail < CAPACITY
  {
    match op
    case Log(e) =>
      var full := r.count == CAPACITY;
      (Counted(r.slots[r.head := e], Next(r.head, CAPACITY),
               if full then Next(r.tail, CAPACITY) else r.tail, if full then r.count else r.count + 1), [])
    case Take =>
      if r.count == 0 then (r, [])
      else (r.(tail := Next(r.tail, CAPACITY), count := r.count - 1), [r.slots[r.tail]])
    case Clear => (r.(head := 0, tail := 0, count := 0), [])
  }

  lemma CountedRefines<E>(r: Counted<E>, op: Op<E>)
    requires CountedOk(r)
    ensures var (t, out) := CountedStep(r, op);
            CountedOk(t) && (CountedLog(t), out) == Step(CountedLog(r), op)
  {
    hide Items;
    var k := CAPACITY;
    NextWraps(r.head, k);
    NextWraps(r.tail, k);
    match op {
      case Log(e) =>
        if r.count < k {
          ItemsPush(r.slots, r.tail, r.count, e);
        } else {
          FullPush(r, e);
          var log := CountedLog(r);
          assert Latest(log + [e]) == log[1..] + [e];
        }
      case Take =>
        if r.count > 0 {
          ItemsDrop(r.slots, r.tail, r.count);
          var log := CountedLog(r);
          assert log[1..] == CountedLog(CountedStep(r, op).0);
        }
      case Clear =>
    }
  }

  /** A full counted ring writes over its oldest entry. */
  lemma FullPush<E>(r: Counted<E>, e: E)
    requires CountedOk(r) && r.count == CAPACITY
    ensures Items(r.slots[r.head := e], Next(r.tail, CAPACITY), CAPACITY) == Items(r.slots, r.tail, CAPACITY)[1..] + [e]
  {
    hide Items;
    var k := CAPACITY;
    NextWraps(r.tail, k);
    forall i | 0 <= i < k
      ensures Items(r.slots[r.head := e], Next(r.tail, k), k)[i] == (Items(r.slots, r.tail, k)[1..] + [e])[i]
    {
      ItemsAt(r.slots[r.head := e], Next(r.tail, k), k, i);
      if i < k - 1 {
        ItemsAt(r.slots, r.tail, k, i + 1);
      }
    }
  }

  // ----- one log -----

  function SpareRun<E>(r: Spare<E>, ops: seq<Op<E>>): (Spare<E>, seq<E>)
    requires |r.slots| == SLOTS && r.head < SLOTS && r.tail < SLOTS
    decreases |ops|
  {
    if ops == [] then (r, [])
    else
      var (next, out) := SpareStep(r, ops[0]);
      var (last, outs) := SpareRun(next, ops[1..]);
      (last, out + outs)
  }

  function CountedRun<E>(r: Counted<E>, ops: seq<Op<E>>): (Counted<E>, seq<E>)
    requires |r.slots| == CAPACITY && r.head < CAPACITY && r.tail < CAPACITY
    decreases |ops|
  {
    if ops == [] then (r, [])
    else
      var (next, out) := CountedStep(r, ops[0]);
      var (last, outs) := CountedRun(next, ops[1..]);
      (last, out + outs)
  }

  lemma {:induction false} SpareRunRefines<E>(r: Spare<E>, ops: seq<Op<E>>)
    requires SpareOk(r)
    ensures var (t, out) := SpareRun(r, ops);
            SpareOk(t) && (SpareLog(t), out) == Run(SpareLog(r), ops)
    decreases |ops|
  {
    hide SpareLog, SpareStep, Step;
    if ops != [] {
      SpareRefines(r, ops[0]);
      SpareRunRefines(SpareStep(r, ops[0]).0, ops[1..]);
    }
  }

  lemma {:induction false} CountedRunRefines<E>(r: Counted<E>, ops: seq<Op<E>>)
    requires CountedOk(r)
    ensures r.head < CAPACITY
    ensures var (t, out) := CountedRun(r, ops);
            CountedOk(t) && (CountedLog(t), out) == Run(CountedLog(r), ops)
    decreases |ops|
  {
    hide CountedLog, CountedStep, Step;
    if ops != [] {
      CountedRefines(r, ops[0]);
      CountedRunRefines(CountedStep(r, ops[0]).0, ops[1..]);
    }
  }

  /**
   * Two representations, one log: under any run of log, take and clear, both rings hold the
   * same unread entries and hand out the same ones, those of the last-32 log.
   */
  lemma OneLog<E>(a: Spare<E>, b: Counted<E>, ops: seq<Op<E>>)
    requires SpareOk(a) && CountedOk(b) && SpareLog(a) == CountedLog(b)
    ensures b.head < CAPACITY
    ensures var (s, out) := SpareRun(a, ops);
            var (c, same) := CountedRun(b, ops);
            && SpareOk(s) && CountedOk(c)
            && SpareLog(s) == CountedLog(c) == Run(SpareLog(a), ops).0
            && out == same == Run(SpareLog(a), ops).1
  {
    hide SpareLog, CountedLog, SpareRun, CountedRun, Run;
    SpareRunRefines(a, ops);
    CountedRunRefines(b, ops);
  }

  // ----- the loggers as written -----

  class ErrorLogger<E(0)> {
    const buf: array<E>
    var head: nat
    var tail: nat

    ghost function State(): Spare<E>
      reads this, buf
    {
      Spare(buf[..], head, tail)
    }

    ghost predicate Valid()
      reads this, buf
    {
      SpareOk(State())
    }

    ghost function Unread(): seq<E>
      requires Valid()
      reads this, buf
    {
      SpareLog(State())
    }

    constructor ()
      ensures Valid() && fresh(buf) && Unread() == []
    {
      buf := new E[SLOTS];
      head, tail := 0, 0;
    }

    method Record(e: E)
      requires Valid()
      modifies this, buf
      ensures Valid() && State() == SpareStep(old(State()), Log(e)).0
      ensures Unread() == Latest(old(Unread()) + [e])
    {
      SpareRefines(State(), Log(e));
      hide SpareLog;
      var next := (head + 1) % SLOTS;
      if next == tail {
        tail := (tail + 1) % SLOTS;
      }
      buf[head] := e;
      head := next;
    }

    method Read() returns (r: Option<E>)
      requires Valid()
      modifies this
      ensures Valid() && State() == SpareStep(old(State()), Take).0
      ensures r == if old(Unread()) == [] then None else Some(old(Unread())[0])
      ensures Unread() == if old(Unread()) == [] then [] else old(Unread())[1..]
    {
      SpareRefines(State(), Take);
      hide SpareLog;
      if tail == head {
        return None;
      }
      r := Some(buf[tail]);
      tail := (tail + 1) % SLOTS;
    }

    method Count() returns (n: nat)
      requires Valid()
      ensures n == |Unread()|
    {
      n := if head >= tail then head - tail else SLOTS - tail + head;
    }

    method Clear()
      requires Valid()
      modifies this
      ensures Valid() && Unread() == [] && State() == SpareStep(old(State()), Op.Clear).0
    {
      tail := head;
    }
  }

  const TEXT_LEN: nat := 64

  datatype Entry = Entry(timestamp: nat, task: nat, level: nat, text: string)

  /** The text is cut to fit its field with a terminator. */
  function Cut(text: string): string {
    if |text| < TEXT_LEN then text else text[..TEXT_LEN - 1]
  }

  /** The text survives whole if it fits, and otherwise its first 63 characters do. */
  lemma CutExactly(text: string)
    ensures Cut(text) <= text && |Cut(text)| == if |text| <= 63 then |text| else 63
  {
  }

  /** The entries at or below the verbosity threshold, in order. */
  function Visible(entries: seq<Entry>, threshold: nat): seq<Entry> {
    if entries == [] then []
    else (if entries[0].level <= threshold then [entries[0]] else []) + Visible(entries[1..], threshold)
  }

  /** Exactly those: an entry is emitted if and only if it is in the log and not above the threshold. */
  lemma {:induction false} VisibleExactly(entries: seq<Entry>, threshold: nat, e: Entry)
    ensures e in Visible(entries, threshold) <==> e in entries && e.level <= threshold
    ensures |Visible(entries, threshold)| == |entries| <==>
            forall i :: 0 <= i < |entries| ==> entries[i].level <= threshold
    ensures |Visible(entries, threshold)| <= |entries|
  {
    if entries != [] {
      VisibleExactly(entries[1..], threshold, e);
      assert entries == [entries[0]] + entries[1..];
    }
  }

  class TelemetryLogger {
    const buf: array<Entry>
    var head: nat
    var tail: nat
    var count: nat
    var verbosity: nat

    ghost function State(): Counted<Entry>
      reads this, buf
    {
      Counted(buf[..], head, tail, count)
    }

    ghost predicate Valid()
      reads this, buf
    {
      CountedOk(State())
    }

    ghost function Unread(): seq<Entry>
      requires Valid()
      reads this, buf
    {
      CountedLog(State())
    }

    constructor ()
      ensures Valid() && fresh(buf) && Unread() == [] && verbosity == 1
    {
      buf := new Entry[CAPACITY](_ => Entry(0, 0, 0, ""));
      head, tail, count, verbosity := 0, 0, 0, 1;
    }

    method Record(task: nat, text: string, level: nat, timestamp: nat)
      requires Valid()
      modifies this, buf
      ensures Valid() && verbosity == old(verbosity)
      ensures var e := Entry(timestamp, task, level, Cut(text));
              Unread() == Latest(old(Unread()) + [e]) && State() == CountedStep(old(State()), Log(e)).0
    {
      ghost var e := Entry(timestamp, task, level, Cut(text));
      CountedRefines(State(), Log(e));
      hide CountedLog, On;
      if count == CAPACITY {
        tail := (tail + 1) % CAPACITY;
      } else {
        count := count + 1;
      }
      HeadInRange(old(State()));
      buf[head] := Entry(timestamp, task, level, Cut(text));
      head := (head + 1) % CAPACITY;
    }

    /**
     * Empties the log, handing every entry at or below the threshold to the writer; without a
     * writer it does nothing.
     */
    method Drain(hasWriter: bool) returns (emitted: seq<Entry>)
      requires Valid()
      modifies this
      ensures Valid() && verbosity == old(verbosity)
      ensures hasWriter ==> emitted == Visible(old(Unread()), verbosity) && Unread() == []
      ensures !hasWriter ==> emitted == [] && Unread() == old(Unread())
    {
      hide CountedLog, Visible;
      emitted := [];
      if !hasWriter {
        return;
      }
      ghost var start := Unread();
      ghost var k := 0;
      VisibleStart(start, verbosity);
      while count > 0
        modifies this
        invariant Valid() && verbosity == old(verbosity)
        invariant k <= |start| && Unread() == start[k..]
        invariant emitted + Visible(start[k..], verbosity) == Visible(start, verbosity)
        decreases count
      {
        CountedRefines(State(), Take);
        HeadInRange(State());
        UnreadSize();
        VisibleNext(start[k..], verbosity);
        var e := buf[tail];
        tail := (tail + 1) % CAPACITY;
        count := count - 1;
        k := k + 1;
        if e.level > verbosity {
          continue;
        }
        emitted := emitted + [e];
      }
      UnreadSize();
      VisibleNone(verbosity);
    }

    lemma UnreadSize()
      requires Valid()
      ensures |Unread()| == count
    {
    }

    method Count() returns (n: nat)
      requires Valid()
      ensures n == |Unread()|
    {
      n := count;
    }

    method Clear()
      requires Valid()
      modifies this
      ensures Valid() && Unread() == [] && verbosity == old(verbosity) &&
              State() == CountedStep(old(State()), Op.Clear).0
    {
      HeadInRange(State());
      head, tail, count := 0, 0, 0;
    }
  }

  lemma HeadInRange<E>(r: Counted<E>)
    requires CountedOk(r)
    ensures r.head < CAPACITY
  {
  }

  lemma VisibleStart(entries: seq<Entry>, threshold: nat)
    ensures [] + Visible(entries[0..], threshold) == Visible(entries, threshold) && entries[0..] == entries
  {
  }

  lemma VisibleNext(entries: seq<Entry>, threshold: nat)
    requires entries != []
    ensures Visible(entries, threshold) ==
            (if entries[0].level <= threshold then [entries[0]] else []) + Visible(entries[1..], threshold)
  {
  }

  lemma VisibleNone(threshold: nat)
    ensures Visible([], threshold) == []
  {
  }
}
