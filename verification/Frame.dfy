/**
 * The frame format (FrameConstants.h, FrameEncoder.h, FrameDecoder.h): header, payload and
 * check, COBS-encoded and closed by the 0x00 delimiter; and the decoder as a state machine.
 */
module Frame {
  import opened Bytes
  import opened Cobs
  import opened CobsCodec
  import opened Crc16
  import opened Modular
  import opened ShiftRegister

  const HEADER: nat := 4
  const TRAILER: nat := 2
  const OVERHEAD: nat := 6
  const DELIMITER: byte := 0

  // The device's message types: requests, replies, and the heartbeat of both.
  const COMMAND: byte := 0x01
  const HANDSHAKE_REQ: byte := 0x02
  const METRICS_REQ: byte := 0x03
  const EXIT_HANDSHAKE: byte := 0x04
  const ACK: byte := 0x81
  const NACK: byte := 0x82
  const HANDSHAKE_RESP: byte := 0x83
  const TELEMETRY: byte := 0x84
  const METRICS_RESP: byte := 0x85
  const LOG: byte := 0x86
  const DATA: byte := 0x87
  const PERF_DATA: byte := 0x88
  const HEARTBEAT: byte := 0xF0

  /** One of them. */
  predicate DeviceType(t: byte) {
    || t == COMMAND || t == HANDSHAKE_REQ || t == METRICS_REQ || t == EXIT_HANDSHAKE
    || t == ACK || t == NACK || t == HANDSHAKE_RESP || t == TELEMETRY || t == METRICS_RESP
    || t == LOG || t == DATA || t == PERF_DATA || t == HEARTBEAT
  }

  /** `len` is the declared payload length, of which the wire carries 16 bits. */
  function Header(msgType: byte, seqNum: byte, len: nat): seq<byte> {
    [msgType, seqNum, len % 256, len / 256 % 256]
  }

  function Trailer(crc: bv16): seq<byte> {
    LowAndHigh(crc);
    [AsByte(crc & 0xFF), AsByte(crc >> 8)]
  }

  function AsByte(c: bv16): (b: byte)
    requires c <= 0xFF
    ensures b as bv16 == c
  {
    c as int
  }

  function Stored(lo: byte, hi: byte): bv16 {
    (lo as bv16) | ((hi as bv16) << 8)
  }

  function Raw(msgType: byte, seqNum: byte, len: nat, payload: seq<byte>): seq<byte> {
    var body := Header(msgType, seqNum, len) + payload;
    body + Trailer(Crc(INIT, body))
  }

  function Wire(msgType: byte, seqNum: byte, len: nat, payload: seq<byte>): seq<byte> {
    Encode(Raw(msgType, seqNum, len, payload)) + [DELIMITER]
  }

  /** Long enough, and the stored check matches the bytes before it. */
  predicate Intact(raw: seq<byte>) {
    |raw| >= OVERHEAD &&
    Stored(raw[|raw| - 2], raw[|raw| - 1]) == Crc(INIT, raw[..|raw| - 2])
  }

  function DeclaredLen(raw: seq<byte>): nat
    requires |raw| >= HEADER
  {
    (raw[2] as int) + (raw[3] as int) * 256
  }

  /** The declared length is the length present, and within the decoder's limit. */
  predicate Sized(raw: seq<byte>, maxPayload: nat)
    requires |raw| >= OVERHEAD
  {
    DeclaredLen(raw) == |raw| - OVERHEAD <= maxPayload
  }

  datatype Result = Incomplete | Ready(msgType: byte, seqNum: byte, payload: seq<byte>) | Error

  /** The decoder's fields; `payload` is the valid part of its payload buffer. */
  datatype Decoder = Decoder(acc: seq<byte>, msgType: byte, seqNum: byte, payload: seq<byte>)

  function MaxCobs(maxPayload: nat): nat {
    MaxEncodedLen(OVERHEAD + maxPayload)
  }

  /**
   * A delimiter after a non-empty accumulator. A frame that is intact but badly sized leaves
   * its type and number behind.
   */
  function Finish(d: Decoder, maxPayload: nat): (Decoder, Result) {
    var raw := DecodeWithin(d.acc, OVERHEAD + maxPayload);
    if !Intact(raw) then (d.(acc := []), Error)
    else
      var h := d.(acc := [], msgType := raw[0], seqNum := raw[1]);
      if !Sized(raw, maxPayload) then (h, Error)
      else
        var payload := raw[HEADER..|raw| - TRAILER];
        (h.(payload := payload), Ready(raw[0], raw[1], payload))
  }

  function Feed(d: Decoder, b: byte, maxPayload: nat): (Decoder, Result) {
    if b == DELIMITER then
      if d.acc == [] then (d, Incomplete) else Finish(d, maxPayload)
    else if |d.acc| < MaxCobs(maxPayload) then (d.(acc := d.acc + [b]), Incomplete)
    else (d.(acc := []), Error)
  }

  function FeedAll(d: Decoder, bytes: seq<byte>, maxPayload: nat): (Decoder, seq<Result>)
    decreases |bytes|
  {
    if bytes == [] then (d, [])
    else
      var (e, r) := Feed(d, bytes[0], maxPayload);
      var (f, rs) := FeedAll(e, bytes[1..], maxPayload);
      (f, [r] + rs)
  }

  // ----- the check in the trailer -----

  lemma LowAndHigh(c: bv16)
    ensures (c & 0xFF) | ((c >> 8) << 8) == c && c & 0xFF <= 0xFF && c >> 8 <= 0xFF
  {
  }

  lemma StoredTrailer(c: bv16)
    ensures Stored(Trailer(c)[0], Trailer(c)[1]) == c
  {
    LowAndHigh(c);
  }

  lemma TrailerStored(lo: byte, hi: byte)
    ensures Trailer(Stored(lo, hi)) == [lo, hi]
  {
    ByteAsWord(lo);
    ByteAsWord(hi);
    SplitStored(lo as bv16, hi as bv16);
  }

  lemma SplitStored(lo: bv16, hi: bv16)
    requires lo <= 0xFF && hi <= 0xFF
    ensures (lo | (hi << 8)) & 0xFF == lo && (lo | (hi << 8)) >> 8 == hi
  {
  }

  // ----- what a raw frame carries -----

  lemma RawParts(t: byte, q: byte, len: nat, p: seq<byte>)
    ensures var r := Raw(t, q, len, p);
            && |r| == |p| + OVERHEAD && Intact(r)
            && r[0] == t && r[1] == q && r[HEADER..|r| - TRAILER] == p
            && DeclaredLen(r) == len % 65536
  {
    hide Crc, Stored, Trailer;
    var body := Header(t, q, len) + p;
    var r := Raw(t, q, len, p);
    StoredTrailer(Crc(INIT, body));
    TrailerSize(Crc(INIT, body));
    assert r[..|r| - 2] == body;
  }

  lemma TrailerSize(c: bv16)
    ensures |Trailer(c)| == TRAILER
  {
  }

  /** An intact raw frame of the declared size is the image of its own fields. */
  lemma RawFromParts(r: seq<byte>)
    requires Intact(r) && DeclaredLen(r) == |r| - OVERHEAD
    ensures r == Raw(r[0], r[1], |r| - OVERHEAD, r[HEADER..|r| - TRAILER])
    ensures |r| - OVERHEAD < 65536
  {
    hide Crc, Stored, Trailer;
    var body := r[..|r| - 2];
    TrailerStored(r[|r| - 2], r[|r| - 1]);
    assert body == Header(r[0], r[1], |r| - OVERHEAD) + r[HEADER..|r| - TRAILER];
  }

  /** Payloads the decoder can deliver: 16 bits of length, and its own limit. */
  predicate Deliverable(p: seq<byte>, maxPayload: nat) {
    |p| <= maxPayload && |p| < 65536
  }

  lemma FinishExactly(d: Decoder, maxPayload: nat, t: byte, q: byte, p: seq<byte>)
    ensures Finish(d, maxPayload).1 == Ready(t, q, p) <==>
            Deliverable(p, maxPayload) && Decode(d.acc) == Some(Raw(t, q, |p|, p))
  {
    hide Decode, Raw, Crc, Stored;
    RawParts(t, q, |p|, p);
    var raw := DecodeWithin(d.acc, OVERHEAD + maxPayload);
    if Intact(raw) && DeclaredLen(raw) == |raw| - OVERHEAD {
      RawFromParts(raw);
    }
  }

  // ----- streams -----

  function Silence(n: nat): seq<Result> {
    seq(n, _ => Incomplete)
  }

  lemma {:induction false} FeedAllConcat(d: Decoder, a: seq<byte>, b: seq<byte>, maxPayload: nat)
    ensures |FeedAll(d, a, maxPayload).1| == |a|
    ensures FeedAll(d, a + b, maxPayload) ==
            var (e, rs) := FeedAll(d, a, maxPayload);
            var (f, ss) := FeedAll(e, b, maxPayload);
            (f, rs + ss)
    decreases |a|
  {
    hide Feed;
    if a == [] {
      assert a + b == b;
      assert [] + FeedAll(d, b, maxPayload).1 == FeedAll(d, b, maxPayload).1;
    } else {
      assert (a + b)[1..] == a[1..] + b;
      var (e, r) := Feed(d, a[0], maxPayload);
      FeedAllConcat(e, a[1..], b, maxPayload);
      var (f, rs) := FeedAll(e, a[1..], maxPayload);
      var ss := FeedAll(f, b, maxPayload).1;
      assert [r] + (rs + ss) == ([r] + rs) + ss;
    }
  }

  lemma {:induction false} Accumulate(d: Decoder, seg: seq<byte>, maxPayload: nat)
    requires ZeroFree(seg) && |d.acc| + |seg| <= MaxCobs(maxPayload)
    ensures FeedAll(d, seg, maxPayload) == (d.(acc := d.acc + seg), Silence(|seg|))
    decreases |seg|
  {
    hide Finish, MaxCobs;
    if seg == [] {
      assert d.acc + seg == d.acc;
    } else {
      var e := d.(acc := d.acc + [seg[0]]);
      assert Feed(d, seg[0], maxPayload) == (e, Incomplete);
      Accumulate(e, seg[1..], maxPayload);
      assert e.acc + seg[1..] == d.acc + seg;
      assert Silence(|seg|) == [Incomplete] + Silence(|seg| - 1);
    }
  }

  /** A whole segment and its delimiter, from an empty accumulator. */
  lemma SegmentResult(d: Decoder, seg: seq<byte>, maxPayload: nat)
    requires d.acc == [] && seg != [] && ZeroFree(seg) && |seg| <= MaxCobs(maxPayload)
    ensures var (f, r) := Finish(d.(acc := seg), maxPayload);
            FeedAll(d, seg + [DELIMITER], maxPayload) == (f, Silence(|seg|) + [r])
  {
    hide Finish, MaxCobs, FeedAll;
    Accumulate(d, seg, maxPayload);
    assert [] + seg == seg;
    FeedAllConcat(d, seg, [DELIMITER], maxPayload);
    FeedOne(d.(acc := seg), DELIMITER, maxPayload);
  }

  lemma FeedOne(d: Decoder, b: byte, maxPayload: nat)
    ensures FeedAll(d, [b], maxPayload) == (Feed(d, b, maxPayload).0, [Feed(d, b, maxPayload).1])
  {
    hide Feed;
    assert [b][1..] == [];
    var r := Feed(d, b, maxPayload);
    assert FeedAll(r.0, [], maxPayload) == (r.0, []);
    assert [r.1] + [] == [r.1];
  }

  lemma FeedSnoc(d: Decoder, a: seq<byte>, b: byte, maxPayload: nat)
    ensures FeedAll(d, a + [b], maxPayload) ==
            var (e, rs) := FeedAll(d, a, maxPayload);
            var (f, r) := Feed(e, b, maxPayload);
            (f, rs + [r])
  {
    hide Feed, FeedAll;
    FeedAllConcat(d, a, [b], maxPayload);
    FeedOne(FeedAll(d, a, maxPayload).0, b, maxPayload);
  }

  /**
   * Exact acceptance. A segment is silent until its delimiter, and then yields the frame
   * (t, q, p) if and only if it is the encoding of that frame, or that encoding without a
   * redundant closing block.
   */
  lemma AcceptsExactly(d: Decoder, seg: seq<byte>, maxPayload: nat, t: byte, q: byte, p: seq<byte>)
    requires d.acc == [] && seg != [] && ZeroFree(seg) && |seg| <= MaxCobs(maxPayload)
    ensures var rs := FeedAll(d, seg + [DELIMITER], maxPayload).1;
            && |rs| == |seg| + 1 && rs[..|seg|] == Silence(|seg|)
            && (rs[|seg|] == Ready(t, q, p) <==>
                && Deliverable(p, maxPayload)
                && var e := Encode(Raw(t, q, |p|, p));
                   seg == e || (EndsFull(seg) && seg + [1] == e))
  {
    hide Finish, MaxCobs, Raw, FeedAll, Encode, Decode;
    SegmentResult(d, seg, maxPayload);
    FinishExactly(d.(acc := seg), maxPayload, t, q, p);
    DecodesToExactly(seg, Raw(t, q, |p|, p));
  }

  /** What a decoder that holds `max` bytes keeps of a zero-free segment: each overflow drops max + 1. */
  function Kept(seg: seq<byte>, max: nat): seq<byte> {
    if |seg| <= max then seg else Kept(seg[max + 1..], max)
  }

  lemma {:induction false} OverflowKeeps(d: Decoder, seg: seq<byte>, maxPayload: nat)
    requires d.acc == [] && ZeroFree(seg)
    ensures FeedAll(d, seg, maxPayload).0 == d.(acc := Kept(seg, MaxCobs(maxPayload)))
    decreases |seg|
  {
    hide FeedAll, MaxCobs;
    var max := MaxCobs(maxPayload);
    if |seg| <= max {
      Accumulate(d, seg, maxPayload);
      assert [] + seg == seg;
    } else {
      Accumulate(d, seg[..max], maxPayload);
      assert [] + seg[..max] == seg[..max];
      FeedOne(d.(acc := seg[..max]), seg[max], maxPayload);
      FeedAllConcat(d, seg[..max], [seg[max]], maxPayload);
      FeedAllConcat(d, seg[..max] + [seg[max]], seg[max + 1..], maxPayload);
      assert seg == seg[..max] + [seg[max]] + seg[max + 1..];
      OverflowKeeps(d, seg[max + 1..], maxPayload);
    }
  }

  lemma {:induction false} KeptIsShort(seg: seq<byte>, max: nat)
    ensures |Kept(seg, max)| <= |seg| && |Kept(seg, max)| <= max
  {
    if |seg| > max {
      KeptIsShort(seg[max + 1..], max);
    }
  }

  /**
   * A segment of any length: an overlong one is not skipped to its delimiter, as the
   * decoder's comment has it, but judged by what was accumulated since the last overflow.
   */
  lemma AcceptsAnyLength(d: Decoder, seg: seq<byte>, maxPayload: nat, t: byte, q: byte, p: seq<byte>)
    requires d.acc == [] && ZeroFree(seg)
    ensures var rs := FeedAll(d, seg + [DELIMITER], maxPayload).1;
            var kept := Kept(seg, MaxCobs(maxPayload));
            && |rs| == |seg| + 1
            && (rs[|seg|] == Ready(t, q, p) <==>
                && Deliverable(p, maxPayload)
                && var e := Encode(Raw(t, q, |p|, p));
                   kept == e || (EndsFull(kept) && kept + [1] == e))
  {
    hide Finish, MaxCobs, Raw, FeedAll, Encode, Decode, Kept, Deliverable;
    var kept := Kept(seg, MaxCobs(maxPayload));
    OverflowKeeps(d, seg, maxPayload);
    FeedSnoc(d, seg, DELIMITER, maxPayload);
    FeedAllConcat(d, seg, [DELIMITER], maxPayload);
    FinishExactly(d.(acc := kept), maxPayload, t, q, p);
    DecodesToExactly(kept, Raw(t, q, |p|, p));
    EncodeShape(Raw(t, q, |p|, p));
  }

  /** What is reported on the bytes of a segment before its delimiter: an error on each overflow. */
  function Reports(n: nat, max: nat): (rs: seq<Result>)
    ensures |rs| == n
    decreases n
  {
    if n <= max then Silence(n) else Silence(max) + [Error] + Reports(n - max - 1, max)
  }

  lemma {:induction false} OverflowReports(d: Decoder, seg: seq<byte>, maxPayload: nat)
    requires d.acc == [] && ZeroFree(seg)
    ensures FeedAll(d, seg, maxPayload).1 == Reports(|seg|, MaxCobs(maxPayload))
    decreases |seg|
  {
    hide FeedAll, MaxCobs;
    var max := MaxCobs(maxPayload);
    if |seg| <= max {
      Accumulate(d, seg, maxPayload);
    } else {
      Accumulate(d, seg[..max], maxPayload);
      assert [] + seg[..max] == seg[..max];
      FeedOne(d.(acc := seg[..max]), seg[max], maxPayload);
      FeedAllConcat(d, seg[..max], [seg[max]], maxPayload);
      FeedAllConcat(d, seg[..max] + [seg[max]], seg[max + 1..], maxPayload);
      assert seg == seg[..max] + [seg[max]] + seg[max + 1..];
      OverflowReports(d, seg[max + 1..], maxPayload);
    }
  }

  lemma {:induction false} ReportsAt(n: nat, max: nat, i: nat)
    requires i < n
    ensures Reports(n, max)[i] == if (i + 1) % (max + 1) == 0 then Error else Incomplete
    decreases n
  {
    if n <= max || i < max {
      Remainder(i + 1, 0, i + 1, max + 1);
    } else if i == max {
      Remainder(i + 1, 1, 0, max + 1);
    } else {
      var j, q := i - max - 1, (i - max) / (max + 1);
      ReportsAt(n - max - 1, max, j);
      assert j + 1 == (max + 1) * q + (j + 1) % (max + 1);
      assert i + 1 == (q + 1) * (max + 1) + (j + 1) % (max + 1);
      Remainder(i + 1, q + 1, (j + 1) % (max + 1), max + 1);
    }
  }

  /** The kept bytes are a frame that the decoder can deliver, in either spelling. */
  ghost predicate Spells(kept: seq<byte>, t: byte, q: byte, p: seq<byte>, maxPayload: nat) {
    && Deliverable(p, maxPayload)
    && var e := Encode(Raw(t, q, |p|, p));
       kept == e || (EndsFull(kept) && kept + [1] == e)
  }

  /**
   * Every answer of the decoder to a segment of any length. Before the delimiter it reports an
   * error on each overflow, that is on every (max + 1)-th byte, and nothing else; on the
   * delimiter it is silent if nothing is left, yields a frame if what is left spells one, and
   * reports an error otherwise.
   */
  lemma SegmentAnswered(d: Decoder, seg: seq<byte>, maxPayload: nat, i: nat)
    requires d.acc == [] && ZeroFree(seg)
    ensures var rs := FeedAll(d, seg + [DELIMITER], maxPayload).1;
            var max := MaxCobs(maxPayload);
            && |rs| == |seg| + 1
            && (i < |seg| ==> rs[i] == if (i + 1) % (max + 1) == 0 then Error else Incomplete)
            && (rs[|seg|] == Incomplete <==> Kept(seg, max) == [])
            && (rs[|seg|].Ready? <==> exists t, q, p :: Spells(Kept(seg, max), t, q, p, maxPayload))
  {
    hide Finish, MaxCobs, FeedAll, Kept, Spells;
    var max := MaxCobs(maxPayload);
    var kept := Kept(seg, max);
    OverflowKeeps(d, seg, maxPayload);
    OverflowReports(d, seg, maxPayload);
    if i < |seg| {
      ReportsAt(|seg|, max, i);
    }
    FeedSnoc(d, seg, DELIMITER, maxPayload);
    var r := Feed(d.(acc := kept), DELIMITER, maxPayload).1;
    FinishAnswers(d.(acc := kept), maxPayload);
    forall t, q, p ensures r == Ready(t, q, p) <==> Spells(kept, t, q, p, maxPayload) {
      SpellsExactly(d, seg, maxPayload, t, q, p);
    }
    if r.Ready? {
      assert Spells(kept, r.msgType, r.seqNum, r.payload, maxPayload);
    }
  }

  lemma FinishAnswers(d: Decoder, maxPayload: nat)
    ensures Finish(d, maxPayload).1 != Incomplete
  {
  }

  lemma SpellsExactly(d: Decoder, seg: seq<byte>, maxPayload: nat, t: byte, q: byte, p: seq<byte>)
    requires d.acc == [] && ZeroFree(seg)
    ensures var kept := Kept(seg, MaxCobs(maxPayload));
            Feed(d.(acc := kept), DELIMITER, maxPayload).1 == Ready(t, q, p) <==> Spells(kept, t, q, p, maxPayload)
  {
    hide Feed, MaxCobs, Raw, FeedAll, Encode, Kept, Deliverable;
    AcceptsAnyLength(d, seg, maxPayload, t, q, p);
    OverflowKeeps(d, seg, maxPayload);
    FeedSnoc(d, seg, DELIMITER, maxPayload);
    FeedAllConcat(d, seg, [], maxPayload);
  }

  lemma DelimiterEmpties(d: Decoder, maxPayload: nat)
    ensures Feed(d, DELIMITER, maxPayload).0.acc == []
  {
  }

  datatype Message = Message(msgType: byte, seqNum: byte, payload: seq<byte>)

  function WireOf(m: Message): seq<byte> {
    Wire(m.msgType, m.seqNum, |m.payload|, m.payload)
  }

  function Stream(ms: seq<Message>): seq<byte> {
    if ms == [] then [] else WireOf(ms[0]) + Stream(ms[1..])
  }

  /** One result per byte: silence, then the frame on its delimiter. */
  function Deliveries(ms: seq<Message>): seq<Result> {
    if ms == [] then []
    else Silence(|WireOf(ms[0])| - 1) + [Ready(ms[0].msgType, ms[0].seqNum, ms[0].payload)] + Deliveries(ms[1..])
  }

  lemma MessageDelivered(d: Decoder, m: Message, maxPayload: nat)
    requires d.acc == [] && Deliverable(m.payload, maxPayload)
    ensures var (e, rs) := FeedAll(d, WireOf(m), maxPayload);
            && e.acc == []
            && rs == Silence(|WireOf(m)| - 1) + [Ready(m.msgType, m.seqNum, m.payload)]
  {
    hide Raw, FeedAll, Encode, Decode, Finish;
    var raw := Raw(m.msgType, m.seqNum, |m.payload|, m.payload);
    RawParts(m.msgType, m.seqNum, |m.payload|, m.payload);
    EncodeShape(raw);
    var seg := Encode(raw);
    SegmentResult(d, seg, maxPayload);
    DecodeEncode(raw);
    FinishExactly(d.(acc := seg), maxPayload, m.msgType, m.seqNum, m.payload);
    FinishEmpties(d.(acc := seg), maxPayload);
  }

  lemma FinishEmpties(d: Decoder, maxPayload: nat)
    ensures Finish(d, maxPayload).0.acc == []
  {
  }

  lemma {:induction false} StreamDelivered(d: Decoder, ms: seq<Message>, maxPayload: nat)
    requires d.acc == [] && forall m :: m in ms ==> Deliverable(m.payload, maxPayload)
    ensures FeedAll(d, Stream(ms), maxPayload).0.acc == [] && FeedAll(d, Stream(ms), maxPayload).1 == Deliveries(ms)
    decreases |ms|
  {
    hide Wire, Deliverable;
    if ms != [] {
      MessageDelivered(d, ms[0], maxPayload);
      FeedAllConcat(d, WireOf(ms[0]), Stream(ms[1..]), maxPayload);
      StreamDelivered(FeedAll(d, WireOf(ms[0]), maxPayload).0, ms[1..], maxPayload);
    }
  }

  /**
   * Resynchronisation. Whatever state the decoder is in and whatever garbage it is fed, the
   * next delimiter puts it back in step: every frame after it is delivered, once, in order,
   * on its own last byte, and nothing else is reported.
   */
  lemma Resynchronises(d: Decoder, garbage: seq<byte>, ms: seq<Message>, maxPayload: nat)
    requires forall m :: m in ms ==> Deliverable(m.payload, maxPayload)
    ensures var rs := FeedAll(d, garbage + [DELIMITER] + Stream(ms), maxPayload).1;
            |rs| == |garbage| + 1 + |Stream(ms)| && rs[|garbage| + 1..] == Deliveries(ms)
  {
    hide Deliverable, Feed, Stream, Deliveries, FeedAll;
    var head := garbage + [DELIMITER];
    FeedAllConcat(d, head, Stream(ms), maxPayload);
    FeedAllConcat(d, garbage, [DELIMITER], maxPayload);
    var e := FeedAll(d, garbage, maxPayload).0;
    DelimiterEmpties(e, maxPayload);
    FeedOne(e, DELIMITER, maxPayload);
    var f := FeedAll(d, head, maxPayload).0;
    assert f == Feed(e, DELIMITER, maxPayload).0;
    FeedAllConcat(f, Stream(ms), [], maxPayload);
    StreamDelivered(f, ms, maxPayload);
  }

  // ----- corruption -----

  /** The two raw frames differ in an odd number of bits, header, payload and trailer together. */
  ghost predicate OddFlips(a: seq<byte>, b: seq<byte>) {
    |a| == |b| && Ones(Diff(Bits(a), Bits(b))) % 2 == 1
  }

  /** They differ by a burst in header or payload, the stored check being the same. */
  ghost predicate BodyBurst(a: seq<byte>, b: seq<byte>, from: nat) {
    && |a| == |b| >= OVERHEAD && a[|a| - 2..] == b[|a| - 2..]
    && BurstError(a[..|a| - 2], b[..|a| - 2], from)
  }

  /** Only the stored check differs. */
  ghost predicate TrailerOnly(a: seq<byte>, b: seq<byte>) {
    && |a| == |b| >= OVERHEAD && a[..|a| - 2] == b[..|a| - 2] && a != b
  }

  /** An intact frame as a whole has the parity of the initial register. */
  lemma IntactParity(raw: seq<byte>)
    requires Intact(raw)
    ensures (Ones(Bits(raw)) % 2 == 1) == Odd(INIT)
  {
    hide Crc, Odd, Stored, Trailer, Bits;
    var body, lo, hi := raw[..|raw| - 2], raw[|raw| - 2], raw[|raw| - 1];
    var crc := Crc(INIT, body);
    CrcParity(INIT, body);
    assert raw == body + [lo, hi];
    BitsConcat(body, [lo, hi]);
    OnesConcat(Bits(body), Bits([lo, hi]));
    TrailerStored(lo, hi);
    TrailerParity(crc);
  }

  lemma {:induction false} BitsConcat(a: seq<byte>, b: seq<byte>)
    ensures Bits(a + b) == Bits(a) + Bits(b)
  {
    hide ByteBits;
    if a == [] {
      assert a + b == b;
    } else {
      assert (a + b)[1..] == a[1..] + b;
      BitsConcat(a[1..], b);
    }
  }

  lemma TrailerParity(c: bv16)
    ensures (Ones(Bits(Trailer(c))) % 2 == 1) == Odd(c)
  {
    hide Word, Ones;
    var t := Trailer(c);
    assert Bits(t) == ByteBits(t[0]) + ByteBits(t[1]) by { BitsOfTwo(t); }
    OnesConcat(ByteBits(t[0]), ByteBits(t[1]));
    OddHalves(c);
    TrailerWords(c);
  }

  lemma BitsOfTwo(t: seq<byte>)
    requires |t| == 2
    ensures Bits(t) == ByteBits(t[0]) + ByteBits(t[1])
  {
    hide ByteBits;
    assert Bits(t[1..]) == ByteBits(t[1]) + [];
  }

  lemma TrailerWords(c: bv16)
    ensures Word(Trailer(c)[0]) == c << 8 && Word(Trailer(c)[1]) == c & 0xFF00
  {
    LowAndHigh(c);
    HalfWords(c);
  }

  lemma HalfWords(c: bv16)
    ensures (c & 0xFF) << 8 == c << 8 && (c >> 8) << 8 == c & 0xFF00
  {
  }

  lemma OddFlipsDetected(a: seq<byte>, b: seq<byte>)
    requires Intact(a) && OddFlips(a, b)
    ensures !Intact(b)
  {
    hide Intact, Odd, Bits;
    IntactParity(a);
    if Intact(b) {
      IntactParity(b);
    }
    OnesOfDiff(Bits(a), Bits(b));
  }

  lemma BodyBurstDetected(a: seq<byte>, b: seq<byte>, from: nat)
    requires Intact(a) && BodyBurst(a, b, from)
    ensures !Intact(b)
  {
    hide Crc, Stored;
    var n := |a| - 2;
    BurstChangesCrc(a[..n], b[..n], from, INIT);
    assert a[n] == a[n..][0] && a[n + 1] == a[n..][1] && b[n] == b[n..][0] && b[n + 1] == b[n..][1];
  }

  lemma TrailerOnlyDetected(a: seq<byte>, b: seq<byte>)
    requires Intact(a) && TrailerOnly(a, b)
    ensures !Intact(b)
  {
    hide Crc, Stored, Trailer;
    var n := |a| - 2;
    TrailerStored(a[n], a[n + 1]);
    TrailerStored(b[n], b[n + 1]);
    assert a == a[..n] + [a[n], a[n + 1]] && b == b[..n] + [b[n], b[n + 1]];
  }

  /** No corruption of these kinds leaves a frame intact. */
  lemma CorruptionDetected(a: seq<byte>, b: seq<byte>, from: nat)
    requires Intact(a)
    requires OddFlips(a, b) || BodyBurst(a, b, from) || TrailerOnly(a, b)
    ensures !Intact(b)
  {
    hide OddFlips, BodyBurst, TrailerOnly, Intact;
    if OddFlips(a, b) {
      OddFlipsDetected(a, b);
    } else if BodyBurst(a, b, from) {
      BodyBurstDetected(a, b, from);
    } else {
      TrailerOnlyDetected(a, b);
    }
  }

  /** A frame that is not intact is answered with an error, on its delimiter. */
  lemma BrokenRejected(d: Decoder, raw: seq<byte>, maxPayload: nat)
    requires d.acc == [] && !Intact(raw) && |raw| <= OVERHEAD + maxPayload
    ensures FeedAll(d, Encode(raw) + [DELIMITER], maxPayload).1 == Silence(|Encode(raw)|) + [Error]
  {
    hide Crc, Encode, FeedAll, Decode;
    EncodeShape(raw);
    DecodeEncode(raw);
    SegmentResult(d, Encode(raw), maxPayload);
  }

  /** And the decoder answers the corrupted frame with an error, on its delimiter. */
  lemma CorruptionRejected(d: Decoder, a: seq<byte>, b: seq<byte>, from: nat, maxPayload: nat)
    requires d.acc == [] && Intact(a) && |b| <= OVERHEAD + maxPayload
    requires OddFlips(a, b) || BodyBurst(a, b, from) || TrailerOnly(a, b)
    ensures FeedAll(d, Encode(b) + [DELIMITER], maxPayload).1 == Silence(|Encode(b)|) + [Error]
  {
    hide Crc, Bits, Encode, FeedAll, Decode, Intact;
    CorruptionDetected(a, b, from);
    BrokenRejected(d, b, maxPayload);
  }
}
