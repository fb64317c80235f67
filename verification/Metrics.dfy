/**
 * The metrics reply: the device's serializer (ResponseSerializer.h), which writes at an
 * advancing position, and the host's decoder (protocol.py). Floats travel as their four bytes.
 */
module Metrics {
  import opened Bytes
  import opened Frame
  import Cli
  import Modular

  const HEADER_SIZE: nat := 66
  const TASK_SIZE: nat := 26
  const HEADER_WIDTHS: seq<nat> := [8, 1, 4, 4, 4, 4, 2, 2, 4, 4, 4, 4, 4, 4, 4, 4, 2, 2, 1]
  const TASK_WIDTHS: seq<nat> := [1, 1, 4, 4, 4, 4, 4, 2, 2]

  /** A float field holds the number its four bytes spell. */
  datatype Task = Task(index: nat, core: nat, last: nat, min: nat, max: nat, avg: nat,
                       samples: nat, overruns: nat, misses: nat)

  datatype Snapshot = Snapshot(
    timestamp: nat, coreCount: nat, util0: nat, util1: nat, util2: nat, util3: nat,
    queueDepth: nat, queueMaxDepth: nat, queueAvgDepth: nat,
    peakHeap: nat, freeHeap: nat, stackHighWater: nat,
    totalGap: nat, maxGap: nat, avgGap: nat, tickCount: nat, overruns: nat, misses: nat,
    tasks: seq<Task>)

  // ----- little-endian fields -----

  /** Where field `n` starts. */
  function Offset(widths: seq<nat>, n: nat): nat
    requires n <= |widths|
  {
    if n == 0 then 0 else Offset(widths, n - 1) + widths[n - 1]
  }

  /** The low `width` bytes of `v`, lowest first. */
  function Le(width: nat, v: nat): (r: seq<byte>)
    ensures |r| == width
  {
    if width == 0 then [] else [v % 256] + Le(width - 1, v / 256)
  }

  function Value(bytes: seq<byte>): nat {
    if bytes == [] then 0 else (bytes[0] as int) + 256 * Value(bytes[1..])
  }

  function Limit(width: nat): (m: nat)
    ensures m > 0
  {
    if width == 0 then 1 else 256 * Limit(width - 1)
  }

  lemma {:induction false} ValueOfLe(width: nat, v: nat)
    ensures Value(Le(width, v)) == v % Limit(width)
  {
    if width > 0 {
      ValueOfLe(width - 1, v / 256);
      var bytes := Le(width, v);
      assert bytes[1..] == Le(width - 1, v / 256);
      DigitRemainder(v, Limit(width - 1));
    }
  }

  lemma DigitRemainder(v: nat, m: nat)
    requires m > 0
    ensures v % 256 + 256 * (v / 256 % m) == v % (256 * m)
  {
    var q := v / 256;
    assert v == 256 * q + v % 256 && q == m * (q / m) + q % m;
    var r := v % 256 + 256 * (q % m);
    assert v == (256 * m) * (q / m) + r by {
      assert 256 * (m * (q / m)) == (256 * m) * (q / m);
    }
    assert r < 256 * m by { Below(q % m, m); }
    Modulus(v, 256 * m, q / m, r);
  }

  lemma Below(a: nat, m: nat)
    requires a < m
    ensures 256 * a + 256 <= 256 * m
  {
  }

  lemma Modulus(x: nat, m: nat, q: nat, r: nat)
    requires r < m && x == m * q + r
    ensures x % m == r
  {
    Modular.Remainder(x, q, r, m);
  }

  /** The first `n` fields. */
  function Pack(widths: seq<nat>, values: seq<nat>, n: nat): (r: seq<byte>)
    requires n <= |values| == |widths|
    ensures |r| == Offset(widths, n)
  {
    if n == 0 then [] else Pack(widths, values, n - 1) + Le(widths[n - 1], values[n - 1])
  }

  lemma {:induction false} OffsetGrows(widths: seq<nat>, a: nat, b: nat)
    requires a <= b <= |widths|
    ensures Offset(widths, a) <= Offset(widths, b)
    decreases b
  {
    if a < b {
      OffsetGrows(widths, a, b - 1);
    }
  }

  function Field(widths: seq<nat>, bytes: seq<byte>, i: nat): nat
    requires i < |widths| && |bytes| >= Offset(widths, |widths|)
  {
    OffsetGrows(widths, i + 1, |widths|);
    Value(bytes[Offset(widths, i)..Offset(widths, i + 1)])
  }

  function Unpack(widths: seq<nat>, bytes: seq<byte>): (r: seq<nat>)
    requires |bytes| >= Offset(widths, |widths|)
    ensures |r| == |widths|
  {
    seq(|widths|, i requires 0 <= i < |widths| => Field(widths, bytes, i))
  }

  /** Each value reduced to its width on the wire. */
  function Reduced(widths: seq<nat>, values: seq<nat>): (r: seq<nat>)
    requires |values| == |widths|
    ensures |r| == |widths|
  {
    seq(|widths|, i requires 0 <= i < |widths| => values[i] % Limit(widths[i]))
  }

  lemma {:induction false} PackAt(widths: seq<nat>, values: seq<nat>, n: nat, i: nat)
    requires i < n <= |values| == |widths|
    ensures Offset(widths, i) <= Offset(widths, i + 1) <= Offset(widths, n)
    ensures Pack(widths, values, n)[Offset(widths, i)..Offset(widths, i + 1)] == Le(widths[i], values[i])
  {
    hide Le;
    OffsetGrows(widths, i + 1, n);
    PackStep(widths, values, n);
    OffsetStep(widths, i);
    hide Pack, Offset;
    var init, last := Pack(widths, values, n - 1), Le(widths[n - 1], values[n - 1]);
    if i < n - 1 {
      PackAt(widths, values, n - 1, i);
      assert (init + last)[Offset(widths, i)..Offset(widths, i + 1)] == init[Offset(widths, i)..Offset(widths, i + 1)];
    } else {
      assert (init + last)[|init|..] == last;
    }
  }

  lemma PackStep(widths: seq<nat>, values: seq<nat>, n: nat)
    requires 0 < n <= |values| == |widths|
    ensures Pack(widths, values, n) == Pack(widths, values, n - 1) + Le(widths[n - 1], values[n - 1])
  {
  }

  lemma OffsetStep(widths: seq<nat>, i: nat)
    requires i < |widths|
    ensures Offset(widths, i + 1) == Offset(widths, i) + widths[i]
  {
  }

  lemma UnpackPack(widths: seq<nat>, values: seq<nat>, rest: seq<byte>)
    requires |values| == |widths|
    ensures Unpack(widths, Pack(widths, values, |widths|) + rest) == Reduced(widths, values)
  {
    hide Le, Value, Limit, Pack, Offset;
    var n := |widths|;
    var packed := Pack(widths, values, n);
    forall i | 0 <= i < n
      ensures Field(widths, packed + rest, i) == values[i] % Limit(widths[i])
    {
      PackAt(widths, values, n, i);
      OffsetGrows(widths, i + 1, n);
      assert (packed + rest)[Offset(widths, i)..Offset(widths, i + 1)] ==
             packed[Offset(widths, i)..Offset(widths, i + 1)];
      ValueOfLe(widths[i], values[i]);
    }
  }

  // ----- the layout -----

  function TaskValues(t: Task): (r: seq<nat>)
    ensures |r| == |TASK_WIDTHS|
  {
    [t.index, t.core, t.last, t.min, t.max, t.avg, t.samples, t.overruns, t.misses]
  }

  function HeaderValues(s: Snapshot): (r: seq<nat>)
    ensures |r| == |HEADER_WIDTHS|
  {
    [s.timestamp, s.coreCount, s.util0, s.util1, s.util2, s.util3, s.queueDepth, s.queueMaxDepth, s.queueAvgDepth,
     s.peakHeap, s.freeHeap, s.stackHighWater, s.totalGap, s.maxGap, s.avgGap, s.tickCount, s.overruns, s.misses,
     |s.tasks|]
  }

  lemma Sizes()
    ensures Offset(HEADER_WIDTHS, |HEADER_WIDTHS|) == HEADER_SIZE && Offset(TASK_WIDTHS, |TASK_WIDTHS|) == TASK_SIZE
  {
    var h, t := HEADER_WIDTHS, TASK_WIDTHS;
    assert Offset(h, 3) == 13 && Offset(h, 6) == 25;
    assert Offset(h, 9) == 33;
    assert Offset(h, 12) == 45;
    assert Offset(h, 15) == 57;
    assert Offset(h, 17) == 63;
    assert Offset(t, 3) == 6;
    assert Offset(t, 6) == 18;
  }

  function TaskBytes(tasks: seq<Task>): (r: seq<byte>)
    ensures |r| == TASK_SIZE * |tasks|
  {
    Sizes();
    if tasks == [] then []
    else TaskBytes(tasks[..|tasks| - 1]) + Pack(TASK_WIDTHS, TaskValues(tasks[|tasks| - 1]), |TASK_WIDTHS|)
  }

  function Serialized(s: Snapshot): (r: seq<byte>)
    ensures |r| == HEADER_SIZE + TASK_SIZE * |s.tasks|
  {
    Sizes();
    Pack(HEADER_WIDTHS, HeaderValues(s), |HEADER_WIDTHS|) + TaskBytes(s.tasks)
  }

  function TaskFrom(v: seq<nat>): Task
    requires |v| == |TASK_WIDTHS|
  {
    Task(v[0], v[1], v[2], v[3], v[4], v[5], v[6], v[7], v[8])
  }

  function HeaderFrom(v: seq<nat>, tasks: seq<Task>): Snapshot
    requires |v| == |HEADER_WIDTHS|
  {
    Snapshot(v[0], v[1], v[2], v[3], v[4], v[5], v[6], v[7], v[8], v[9], v[10], v[11], v[12], v[13], v[14], v[15],
             v[16], v[17], tasks)
  }

  /** The task entry `i` of a payload. */
  function TaskAt(payload: seq<byte>, i: nat): Task
    requires |payload| >= HEADER_SIZE + TASK_SIZE * (i + 1)
  {
    Sizes();
    TaskFrom(Unpack(TASK_WIDTHS, payload[HEADER_SIZE + TASK_SIZE * i..]))
  }

  function Decoded(payload: seq<byte>): Option<Snapshot> {
    Sizes();
    if |payload| < HEADER_SIZE then None
    else
      var v := Unpack(HEADER_WIDTHS, payload);
      var n := v[18];
      if |payload| < HEADER_SIZE + TASK_SIZE * n then None
      else Some(HeaderFrom(v, seq(n, i requires 0 <= i < n => TaskAt(payload, i))))
  }

  // ----- what the host recovers -----

  const U8: nat := 0x100
  const U16: nat := 0x1_0000
  const U32: nat := 0x1_0000_0000
  const U64: nat := 0x1_0000_0000_0000_0000

  /** The task as its wire widths hold it. */
  function WireTask(t: Task): Task {
    Task(t.index % U8, t.core % U8, t.last % U32, t.min % U32, t.max % U32, t.avg % U32, t.samples % U32,
         t.overruns % U16, t.misses % U16)
  }

  /** The snapshot as its wire widths hold it; the count has eight bits, so `tasks` are the first of them. */
  function WireSnapshot(s: Snapshot): Snapshot {
    var n := |s.tasks| % U8;
    Snapshot(s.timestamp % U64, s.coreCount % U8, s.util0 % U32, s.util1 % U32, s.util2 % U32, s.util3 % U32,
             s.queueDepth % U16, s.queueMaxDepth % U16, s.queueAvgDepth % U32,
             s.peakHeap % U32, s.freeHeap % U32, s.stackHighWater % U32,
             s.totalGap % U32, s.maxGap % U32, s.avgGap % U32, s.tickCount % U32, s.overruns % U16, s.misses % U16,
             seq(n, i requires 0 <= i < n => WireTask(s.tasks[i])))
  }

  lemma Limits()
    ensures Limit(1) == U8 && Limit(2) == U16 && Limit(4) == U32 && Limit(8) == U64
  {
    assert Limit(2) == 256 * Limit(1) && Limit(4) == 65536 * Limit(2) && Limit(6) == 65536 * Limit(4);
  }

  lemma TaskOnWire(t: Task)
    ensures TaskFrom(Reduced(TASK_WIDTHS, TaskValues(t))) == WireTask(t)
  {
    hide Limit;
    Limits();
  }

  lemma HeaderOnWire(s: Snapshot, tasks: seq<Task>)
    ensures HeaderFrom(Reduced(HEADER_WIDTHS, HeaderValues(s)), tasks) == WireSnapshot(s).(tasks := tasks)
    ensures Reduced(HEADER_WIDTHS, HeaderValues(s))[18] == |s.tasks| % U8
  {
    hide Limit;
    Limits();
    var v, w := HeaderValues(s), HEADER_WIDTHS;
    var r := Reduced(w, v);
    assert r[0] == v[0] % U64 && r[1] == v[1] % U8 && r[18] == v[18] % U8;
    assert forall i :: 2 <= i < 6 || 8 <= i < 16 ==> r[i] == v[i] % U32;
    assert forall i :: 6 <= i < 8 || 16 <= i < 18 ==> r[i] == v[i] % U16;
  }

  lemma {:induction false} TaskBytesAt(tasks: seq<Task>, i: nat, rest: seq<byte>)
    requires i < |tasks|
    ensures var entry := Pack(TASK_WIDTHS, TaskValues(tasks[i]), |TASK_WIDTHS|);
            |entry| == TASK_SIZE && (TaskBytes(tasks) + rest)[TASK_SIZE * i..][..TASK_SIZE] == entry
    decreases |tasks|
  {
    hide Pack, Offset, TaskValues;
    Sizes();
    var n := |tasks| - 1;
    var last := Pack(TASK_WIDTHS, TaskValues(tasks[n]), |TASK_WIDTHS|);
    assert TaskBytes(tasks) == TaskBytes(tasks[..n]) + last;
    if i < n {
      TaskBytesAt(tasks[..n], i, last + rest);
      assert TaskBytes(tasks) + rest == TaskBytes(tasks[..n]) + (last + rest);
    }
  }

  lemma TaskRecovered(s: Snapshot, i: nat)
    requires i < |s.tasks|
    ensures TaskAt(Serialized(s), i) == WireTask(s.tasks[i])
  {
    hide Pack, Offset, TaskValues, TaskBytes, HeaderValues, Unpack, Reduced, TaskFrom;
    Sizes();
    var payload := Serialized(s);
    TaskBytesAt(s.tasks, i, []);
    assert TaskBytes(s.tasks) + [] == TaskBytes(s.tasks);
    var entry := Pack(TASK_WIDTHS, TaskValues(s.tasks[i]), |TASK_WIDTHS|);
    var tail := payload[HEADER_SIZE + TASK_SIZE * i..];
    assert tail == TaskBytes(s.tasks)[TASK_SIZE * i..];
    assert tail == entry + tail[TASK_SIZE..];
    UnpackPack(TASK_WIDTHS, TaskValues(s.tasks[i]), tail[TASK_SIZE..]);
    TaskOnWire(s.tasks[i]);
  }

  lemma PackNext(widths: seq<nat>, values: seq<nat>, n: nat)
    requires n < |values| == |widths|
    ensures Pack(widths, values, 0) == []
    ensures Pack(widths, values, n + 1) == Pack(widths, values, n) + Le(widths[n], values[n])
  {
  }

  /** The reply field by field: width, order and place of the header's nineteen fields. */
  lemma HeaderLayout(s: Snapshot)
    ensures Serialized(s)[..HEADER_SIZE] ==
            Le(8, s.timestamp) + Le(1, s.coreCount) +
            Le(4, s.util0) + Le(4, s.util1) + Le(4, s.util2) + Le(4, s.util3) +
            Le(2, s.queueDepth) + Le(2, s.queueMaxDepth) + Le(4, s.queueAvgDepth) +
            Le(4, s.peakHeap) + Le(4, s.freeHeap) + Le(4, s.stackHighWater) +
            Le(4, s.totalGap) + Le(4, s.maxGap) + Le(4, s.avgGap) +
            Le(4, s.tickCount) + Le(2, s.overruns) + Le(2, s.misses) + Le(1, |s.tasks|)
  {
    Sizes();
    hide Le, Offset, TaskBytes, Pack;
    var w, v := HEADER_WIDTHS, HeaderValues(s);
    PackNext(w, v, 0);
    PackNext(w, v, 1);
    PackNext(w, v, 2);
    PackNext(w, v, 3);
    PackNext(w, v, 4);
    PackNext(w, v, 5);
    PackNext(w, v, 6);
    PackNext(w, v, 7);
    PackNext(w, v, 8);
    PackNext(w, v, 9);
    PackNext(w, v, 10);
    PackNext(w, v, 11);
    PackNext(w, v, 12);
    PackNext(w, v, 13);
    PackNext(w, v, 14);
    PackNext(w, v, 15);
    PackNext(w, v, 16);
    PackNext(w, v, 17);
    PackNext(w, v, 18);
  }

  /** And the nine fields of each task's entry, 26 bytes apiece. */
  lemma TaskLayout(s: Snapshot, i: nat)
    requires i < |s.tasks|
    ensures var t := s.tasks[i];
            Serialized(s)[HEADER_SIZE + TASK_SIZE * i..][..TASK_SIZE] ==
            Le(1, t.index) + Le(1, t.core) + Le(4, t.last) + Le(4, t.min) + Le(4, t.max) + Le(4, t.avg) +
            Le(4, t.samples) + Le(2, t.overruns) + Le(2, t.misses)
  {
    Sizes();
    hide Le, Offset, TaskBytes, Pack;
    var w, v := TASK_WIDTHS, TaskValues(s.tasks[i]);
    PackNext(w, v, 0);
    PackNext(w, v, 1);
    PackNext(w, v, 2);
    PackNext(w, v, 3);
    PackNext(w, v, 4);
    PackNext(w, v, 5);
    PackNext(w, v, 6);
    PackNext(w, v, 7);
    PackNext(w, v, 8);
    TaskBytesAt(s.tasks, i, []);
    assert TaskBytes(s.tasks) + [] == TaskBytes(s.tasks);
    assert Serialized(s)[HEADER_SIZE + TASK_SIZE * i..] == TaskBytes(s.tasks)[TASK_SIZE * i..];
  }

  /**
   * The round trip: for every snapshot the host recovers each field reduced to its wire
   * width, and its tasks in order, as many as an eight-bit count says.
   */
  lemma RoundTrip(s: Snapshot)
    ensures Decoded(Serialized(s)) == Some(WireSnapshot(s))
  {
    hide Pack, Offset, TaskValues, TaskBytes, HeaderValues, Unpack, Reduced, TaskAt, WireTask, HeaderFrom;
    Sizes();
    UnpackPack(HEADER_WIDTHS, HeaderValues(s), TaskBytes(s.tasks));
    var n := |s.tasks| % U8;
    var tasks := seq(n, i requires 0 <= i < n => TaskAt(Serialized(s), i));
    HeaderOnWire(s, tasks);
    forall i | 0 <= i < n
      ensures tasks[i] == WireSnapshot(s).tasks[i]
    {
      TaskRecovered(s, i);
    }
    assert tasks == WireSnapshot(s).tasks;
  }

  /** No task is lost if and only if there are at most 255. */
  lemma AllTasksExactly(s: Snapshot)
    ensures Decoded(Serialized(s)).Some?
    ensures |Decoded(Serialized(s)).value.tasks| == |s.tasks| <==> |s.tasks| <= 255
  {
    hide Decoded, Serialized;
    RoundTrip(s);
  }

  /**
   * A metrics request is answered if and only if the snapshot has at most seven tasks: with
   * more, the reply exceeds the frame's 256-byte payload and is dropped without a word.
   */
  lemma ReplyExactly(st: Cli.State, q: byte, s: Snapshot, cfg: Cli.Config)
    requires cfg.handler && cfg.maxPayload == 256 && cfg.snapshot == Serialized(s)
    ensures var t := Cli.Dispatch(st, METRICS_REQ, q, [], cfg).0;
            && (t.sent == st.sent <==> |s.tasks| > 7)
            && (|s.tasks| <= 7 ==>
                  && t.sent == st.sent + [Cli.Sent(Message(METRICS_RESP, q, Serialized(s)))]
                  && Decoded(Serialized(s)) == Some(WireSnapshot(s))
                  && |WireSnapshot(s).tasks| == |s.tasks|)
  {
    RoundTrip(s);
    hide Decoded, Serialized, WireTask;
  }

  // ----- the device's writers -----

  class Writer {
    const buf: array<byte>
    var pos: nat

    constructor (buf: array<byte>)
      ensures this.buf == buf && pos == 0
    {
      this.buf, pos := buf, 0;
    }

    /** Casts `v` to the field's width and copies its bytes, on a little-endian machine. */
    method Put(width: nat, v: nat)
      requires pos + width <= buf.Length
      modifies this, buf
      ensures pos == old(pos) + width
      ensures buf[..pos] == old(buf[..pos]) + Le(width, v)
      ensures forall k :: pos <= k < buf.Length ==> buf[k] == old(buf[k])
    {
      var rest := v;
      ghost var written: seq<byte> := [];
      for k := 0 to width
        modifies buf
        invariant pos == old(pos) && |written| == k
        invariant written + Le(width - k, rest) == Le(width, v)
        invariant forall i :: 0 <= i < pos || pos + k <= i < buf.Length ==> buf[i] == old(buf[i])
        invariant forall i :: 0 <= i < k ==> buf[pos + i] == written[i]
      {
        buf[pos + k] := rest % 256;
        written := written + [rest % 256];
        rest := rest / 256;
      }
      pos := pos + width;
      assert written == Le(width, v);
    }

    /** The first `n` fields of the layout have been put after `base`. */
    ghost predicate At(widths: seq<nat>, values: seq<nat>, n: nat, base: seq<byte>)
      requires n <= |values| == |widths|
      reads this, buf
    {
      && pos == |base| + Offset(widths, n) && pos <= buf.Length
      && buf[..pos] == base + Pack(widths, values, n)
    }

    /** Puts field `n` of a layout that fits the buffer; bytes beyond the layout are left alone. */
    method PutField(width: nat, v: nat, ghost widths: seq<nat>, ghost values: seq<nat>, ghost n: nat,
                    ghost base: seq<byte>)
      requires n < |values| == |widths| && widths[n] == width && values[n] == v
      requires |base| + Offset(widths, |widths|) <= buf.Length && At(widths, values, n, base)
      modifies this, buf
      ensures At(widths, values, n + 1, base)
      ensures Beyond(buf[..], |base| + Offset(widths, |widths|)) ==
              old(Beyond(buf[..], |base| + Offset(widths, |widths|)))
    {
      hide Le;
      OffsetGrows(widths, n + 1, |widths|);
      Put(width, v);
      assert base + Pack(widths, values, n) + Le(width, v) == base + Pack(widths, values, n + 1);
    }

    method PutHeader(s: Snapshot)
      requires pos == 0 && buf.Length >= HEADER_SIZE
      modifies this, buf
      ensures At(HEADER_WIDTHS, HeaderValues(s), |HEADER_WIDTHS|, [])
      ensures Beyond(buf[..], HEADER_SIZE) == old(Beyond(buf[..], HEADER_SIZE))
    {
      hide Pack, HeaderValues, Offset, Beyond;
      Sizes();
      Nothing(HEADER_WIDTHS, HeaderValues(s));
      PutHeaderStart(s);
      PutHeaderMiddle(s);
      PutHeaderEnd(s);
    }

    method PutHeaderStart(s: Snapshot)
      requires buf.Length >= HEADER_SIZE && At(HEADER_WIDTHS, HeaderValues(s), 0, [])
      modifies this, buf
      ensures At(HEADER_WIDTHS, HeaderValues(s), 6, []) &&
              Beyond(buf[..], HEADER_SIZE) == old(Beyond(buf[..], HEADER_SIZE))
    {
      hide Pack, HeaderValues, At, Offset, Beyond;
      ghost var v := HeaderValues(s);
      Sizes();
      HeaderFields(s);
      PutField(8, s.timestamp, HEADER_WIDTHS, v, 0, []);
      PutField(1, s.coreCount, HEADER_WIDTHS, v, 1, []);
      PutField(4, s.util0, HEADER_WIDTHS, v, 2, []);
      PutField(4, s.util1, HEADER_WIDTHS, v, 3, []);
      PutField(4, s.util2, HEADER_WIDTHS, v, 4, []);
      PutField(4, s.util3, HEADER_WIDTHS, v, 5, []);
    }

    method PutHeaderMiddle(s: Snapshot)
      requires buf.Length >= HEADER_SIZE && At(HEADER_WIDTHS, HeaderValues(s), 6, [])
      modifies this, buf
      ensures At(HEADER_WIDTHS, HeaderValues(s), 12, []) &&
              Beyond(buf[..], HEADER_SIZE) == old(Beyond(buf[..], HEADER_SIZE))
    {
      hide Pack, HeaderValues, At, Offset, Beyond;
      ghost var v := HeaderValues(s);
      Sizes();
      HeaderFields(s);
      PutField(2, s.queueDepth, HEADER_WIDTHS, v, 6, []);
      PutField(2, s.queueMaxDepth, HEADER_WIDTHS, v, 7, []);
      PutField(4, s.queueAvgDepth, HEADER_WIDTHS, v, 8, []);
      PutField(4, s.peakHeap, HEADER_WIDTHS, v, 9, []);
      PutField(4, s.freeHeap, HEADER_WIDTHS, v, 10, []);
      PutField(4, s.stackHighWater, HEADER_WIDTHS, v, 11, []);
    }

    method PutHeaderEnd(s: Snapshot)
      requires buf.Length >= HEADER_SIZE && At(HEADER_WIDTHS, HeaderValues(s), 12, [])
      modifies this, buf
      ensures At(HEADER_WIDTHS, HeaderValues(s), 19, []) &&
              Beyond(buf[..], HEADER_SIZE) == old(Beyond(buf[..], HEADER_SIZE))
    {
      hide Pack, HeaderValues, At, Offset, Beyond;
      ghost var v := HeaderValues(s);
      Sizes();
      HeaderFields(s);
      PutField(4, s.totalGap, HEADER_WIDTHS, v, 12, []);
      PutField(4, s.maxGap, HEADER_WIDTHS, v, 13, []);
      PutField(4, s.avgGap, HEADER_WIDTHS, v, 14, []);
      PutField(4, s.tickCount, HEADER_WIDTHS, v, 15, []);
      PutField(2, s.overruns, HEADER_WIDTHS, v, 16, []);
      PutField(2, s.misses, HEADER_WIDTHS, v, 17, []);
      PutField(1, |s.tasks|, HEADER_WIDTHS, v, 18, []);
    }

    method PutTask(t: Task, ghost base: seq<byte>)
      requires |base| == pos && pos + TASK_SIZE <= buf.Length && buf[..pos] == base
      modifies this, buf
      ensures At(TASK_WIDTHS, TaskValues(t), |TASK_WIDTHS|, base)
      ensures Beyond(buf[..], |base| + TASK_SIZE) == old(Beyond(buf[..], |base| + TASK_SIZE))
    {
      Nothing(TASK_WIDTHS, TaskValues(t));
      assert base + [] == base;
      PutTaskFields(t, base);
    }

    method PutTaskFields(t: Task, ghost base: seq<byte>)
      requires |base| + TASK_SIZE <= buf.Length && At(TASK_WIDTHS, TaskValues(t), 0, base)
      modifies this, buf
      ensures At(TASK_WIDTHS, TaskValues(t), |TASK_WIDTHS|, base)
      ensures Beyond(buf[..], |base| + TASK_SIZE) == old(Beyond(buf[..], |base| + TASK_SIZE))
    {
      hide Pack, At, Offset, Beyond;
      ghost var v := TaskValues(t);
      Sizes();
      PutField(1, t.index, TASK_WIDTHS, v, 0, base);
      PutField(1, t.core, TASK_WIDTHS, v, 1, base);
      PutField(4, t.last, TASK_WIDTHS, v, 2, base);
      PutField(4, t.min, TASK_WIDTHS, v, 3, base);
      PutField(4, t.max, TASK_WIDTHS, v, 4, base);
      PutField(4, t.avg, TASK_WIDTHS, v, 5, base);
      PutField(4, t.samples, TASK_WIDTHS, v, 6, base);
      PutField(2, t.overruns, TASK_WIDTHS, v, 7, base);
      PutField(2, t.misses, TASK_WIDTHS, v, 8, base);
    }
  }

  function Beyond(bytes: seq<byte>, n: nat): seq<byte> {
    if n <= |bytes| then bytes[n..] else []
  }

  lemma Nothing(widths: seq<nat>, values: seq<nat>)
    requires |values| == |widths|
    ensures Pack(widths, values, 0) == [] && Offset(widths, 0) == 0
  {
  }

  lemma HeaderFields(s: Snapshot)
    ensures var v := HeaderValues(s);
            && |v| == 19
            && v[0] == s.timestamp && v[1] == s.coreCount && v[2] == s.util0 && v[3] == s.util1 && v[4] == s.util2
            && v[5] == s.util3 && v[6] == s.queueDepth && v[7] == s.queueMaxDepth && v[8] == s.queueAvgDepth
            && v[9] == s.peakHeap && v[10] == s.freeHeap && v[11] == s.stackHighWater && v[12] == s.totalGap
            && v[13] == s.maxGap && v[14] == s.avgGap && v[15] == s.tickCount && v[16] == s.overruns
            && v[17] == s.misses && v[18] == |s.tasks|
  {
  }

  /** Writes the whole reply, in bounds, or nothing at all; bytes beyond it stay as they were. */
  method SerializeMetrics(s: Snapshot, outBuf: array<byte>, outCap: nat) returns (n: nat)
    requires outCap <= outBuf.Length
    modifies outBuf
    ensures n == if outCap < HEADER_SIZE + TASK_SIZE * |s.tasks| then 0 else HEADER_SIZE + TASK_SIZE * |s.tasks|
    ensures n > 0 ==> n <= outBuf.Length && outBuf[..n] == Serialized(s)
    ensures forall k :: n <= k < outBuf.Length ==> outBuf[k] == old(outBuf[k])
  {
    hide Pack, HeaderValues, TaskValues;
    var needed := HEADER_SIZE + TASK_SIZE * |s.tasks|;
    if outCap < needed {
      return 0;
    }
    var p := new Writer(outBuf);
    p.PutHeader(s);
    Sizes();
    ghost var header := outBuf[..HEADER_SIZE];
    assert header + TaskBytes([]) == header;
    for t := 0 to |s.tasks|
      invariant p.buf == outBuf && p.pos == HEADER_SIZE + TASK_SIZE * t
      invariant outBuf[..p.pos] == header + TaskBytes(s.tasks[..t])
      invariant forall k :: p.pos <= k < outBuf.Length ==> outBuf[k] == old(outBuf[k])
    {
      p.PutTask(s.tasks[t], outBuf[..p.pos]);
      assert s.tasks[..t + 1][..t] == s.tasks[..t];
    }
    assert s.tasks[..|s.tasks|] == s.tasks;
    n := p.pos;
  }

  // ----- the host's decoder -----

  /** Unpacks consecutive fields from `off` on. */
  method UnpackFrom(widths: seq<nat>, payload: seq<byte>, off: nat) returns (values: seq<nat>, next: nat)
    requires off + Offset(widths, |widths|) <= |payload|
    ensures values == Unpack(widths, payload[off..]) && next == off + Offset(widths, |widths|)
  {
    hide Value;
    values, next := [], off;
    for i := 0 to |widths|
      invariant next == off + Offset(widths, i) && |values| == i
      invariant forall k :: 0 <= k < i ==> values[k] == Field(widths, payload[off..], k)
    {
      OffsetGrows(widths, i + 1, |widths|);
      var w := widths[i];
      assert payload[next..next + w] == payload[off..][Offset(widths, i)..Offset(widths, i + 1)];
      values := values + [Value(payload[next..next + w])];
      next := next + w;
    }
  }

  method DecodeMetrics(payload: seq<byte>) returns (r: Option<Snapshot>)
    ensures r == Decoded(payload)
  {
    hide Offset, Unpack, TaskFrom, HeaderFrom;
    Sizes();
    if |payload| < HEADER_SIZE {
      return None;
    }
    var v, off := UnpackFrom(HEADER_WIDTHS, payload, 0);
    assert payload[0..] == payload;
    var count := v[18];
    if |payload| < HEADER_SIZE + count * TASK_SIZE {
      return None;
    }
    var tasks: seq<Task> := [];
    for i := 0 to count
      invariant off == HEADER_SIZE + TASK_SIZE * i && |tasks| == i
      invariant forall k :: 0 <= k < i ==> tasks[k] == TaskAt(payload, k)
    {
      var fields;
      fields, off := UnpackFrom(TASK_WIDTHS, payload, off);
      assert TaskAt(payload, i) == TaskFrom(fields);
      tasks := tasks + [TaskFrom(fields)];
    }
    assert tasks == seq(count, i requires 0 <= i < count => TaskAt(payload, i));
    r := Some(HeaderFrom(v, tasks));
  }
}
