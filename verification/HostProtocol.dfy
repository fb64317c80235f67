/** The host's side of the frame protocol (protocol.py), and its agreement with the device. */
module HostProtocol {
  import opened Bytes
  import opened Cobs
  import opened Crc16
  import opened Frame
  import CobsHost
  import CobsCodec

  method CrcOfList(data: seq<byte>, init: bv16) returns (crc: bv16)
    ensures crc == Crc(init, data)
  {
    hide Step;
    crc := init;
    for i := 0 to |data|
      invariant Crc(crc, data[i..]) == Crc(init, data)
    {
      assert data[i..][1..] == data[i + 1..];
      crc := Reduce(crc ^ ((data[i] as bv16) << 8));
    }
  }

  /** `None` is the struct.error of a payload whose length does not fit 16 bits. */
  method EncodeFrame(msgType: byte, seqNum: byte, payload: seq<byte>) returns (r: Option<seq<byte>>)
    ensures r == if |payload| < 65536 then Some(Wire(msgType, seqNum, |payload|, payload)) else None
  {
    hide Crc, Encode, Trailer;
    if |payload| >= 65536 {
      return None;
    }
    var raw := [msgType, seqNum, |payload| % 256, |payload| / 256] + payload;
    assert raw == Header(msgType, seqNum, |payload|) + payload;
    var checksum := CrcOfList(raw, INIT);
    var encoded := CobsHost.EncodeList(raw + Trailer(checksum));
    r := Some(encoded + [DELIMITER]);
  }

  /** The values of the host's MessageType enumeration. */
  predicate KnownType(t: byte) {
    t in {0x01, 0x02, 0x03, 0x04, 0x81, 0x82, 0x83, 0x84, 0x85, 0x86, 0x87, 0x88, 0xF0}
  }

  /** The frame in a segment, if the host accepts it: it has no payload limit, but knows its types. */
  function Accepted(seg: seq<byte>): Option<Message> {
    match Decode(seg)
    case None => None
    case Some(raw) =>
      if Intact(raw) && DeclaredLen(raw) == |raw| - OVERHEAD && KnownType(raw[0])
      then Some(Message(raw[0], raw[1], raw[HEADER..|raw| - TRAILER]))
      else None
  }

  /** What the callback hears on one byte. */
  function Heard(buf: seq<byte>, b: byte): seq<Message> {
    if b == DELIMITER && buf != [] && Accepted(buf).Some? then [Accepted(buf).value] else []
  }

  /** The accumulator after `data`, and the frames passed to the callback on the way. */
  function Listen(buf: seq<byte>, data: seq<byte>): (seq<byte>, seq<Message>)
    decreases |data|
  {
    if data == [] then (buf, [])
    else
      var (b, ms) := Listen(if data[0] == DELIMITER then [] else buf + [data[0]], data[1..]);
      (b, Heard(buf, data[0]) + ms)
  }

  lemma ListenNext(sofar: seq<Message>, buf: seq<byte>, data: seq<byte>, i: nat)
    requires i < |data|
    ensures var next := Listen(if data[i] == DELIMITER then [] else buf + [data[i]], data[i + 1..]);
            && Listen(buf, data[i..]).0 == next.0
            && sofar + Listen(buf, data[i..]).1 == (sofar + Heard(buf, data[i])) + next.1
  {
    assert data[i..][1..] == data[i + 1..];
  }

  lemma ListenDone(sofar: seq<Message>, buf: seq<byte>, data: seq<byte>)
    ensures Listen(buf, data[|data|..]) == (buf, []) && sofar + [] == sofar
  {
  }

  class HostDecoder {
    var buf: seq<byte>
    var delivered: seq<Message>  // the frames the callback has received

    constructor ()
      ensures buf == [] && delivered == []
    {
      buf, delivered := [], [];
    }

    method FeedBytes(data: seq<byte>)
      modifies this
      ensures (buf, delivered) ==
              (Listen(old(buf), data).0, old(delivered) + Listen(old(buf), data).1)
    {
      hide Listen, Heard;
      ghost var end := Listen(buf, data);
      ghost var all := delivered + end.1;
      assert data[0..] == data;
      for i := 0 to |data|
        invariant Listen(buf, data[i..]).0 == end.0 && delivered + Listen(buf, data[i..]).1 == all
      {
        ListenNext(delivered, buf, data, i);
        FeedOneByte(data[i]);
      }
      ListenDone(delivered, buf, data);
    }

    method FeedOneByte(b: byte)
      modifies this
      ensures buf == if b == DELIMITER then [] else old(buf) + [b]
      ensures delivered == old(delivered) + Heard(old(buf), b)
    {
      hide Accepted;
      if b == DELIMITER {
        if |buf| > 0 {
          TryDecode();
        }
        buf := [];
      } else {
        buf := buf + [b];
      }
    }

    method TryDecode()
      modifies this
      ensures buf == old(buf)
      ensures delivered == old(delivered) + if Accepted(buf).Some? then [Accepted(buf).value] else []
    {
      hide Crc, Stored, Decode, KnownType;
      var decoded := CobsHost.DecodeList(buf);
      if decoded.None? {
        return;
      }
      var raw := decoded.value;
      if |raw| < OVERHEAD {
        return;
      }
      var frameData := raw[..|raw| - TRAILER];
      var storedCrc := Stored(raw[|raw| - 2], raw[|raw| - 1]);
      var crc := CrcOfList(frameData, INIT);
      if crc != storedCrc {
        return;
      }
      var payloadLen := (frameData[2] as int) + (frameData[3] as int) * 256;
      if HEADER + payloadLen != |frameData| {
        return;
      }
      if !KnownType(frameData[0]) {
        return;
      }
      assert frameData[HEADER..] == raw[HEADER..|raw| - TRAILER];
      delivered := delivered + [Message(frameData[0], frameData[1], frameData[HEADER..])];
    }
  }

  /** On every segment the two receivers agree, the device's payload limit and the host's type check aside. */
  lemma ReceiversAgree(d: Decoder, seg: seq<byte>, maxPayload: nat, m: Message)
    ensures (Finish(d.(acc := seg), maxPayload).1 == Ready(m.msgType, m.seqNum, m.payload) && KnownType(m.msgType))
       <==> (Accepted(seg) == Some(m) && |m.payload| <= maxPayload)
  {
    hide Decode, Crc, Stored, KnownType;
    var raw := CobsCodec.DecodeWithin(seg, OVERHEAD + maxPayload);
    if Decode(seg).Some? && |Decode(seg).value| <= OVERHEAD + maxPayload {
      assert raw == Decode(seg).value;
    }
  }

  lemma AcceptedWire(m: Message)
    requires |m.payload| < 65536 && DeviceType(m.msgType)
    ensures Accepted(Encode(Raw(m.msgType, m.seqNum, |m.payload|, m.payload))) == Some(m)
  {
    hide Raw, Decode, Encode, Intact;
    RawParts(m.msgType, m.seqNum, |m.payload|, m.payload);
    DecodeEncode(Raw(m.msgType, m.seqNum, |m.payload|, m.payload));
  }

  lemma {:induction false} ListenSegment(buf: seq<byte>, seg: seq<byte>, rest: seq<byte>)
    requires ZeroFree(seg)
    ensures Listen(buf, seg + rest) == Listen(buf + seg, rest)
    decreases |seg|
  {
    hide Accepted;
    if seg == [] {
      assert seg + rest == rest && buf + seg == buf;
    } else {
      assert (seg + rest)[1..] == seg[1..] + rest;
      assert (buf + [seg[0]]) + seg[1..] == buf + seg;
      ListenSegment(buf + [seg[0]], seg[1..], rest);
      assert [] + Listen(buf + [seg[0]], seg[1..] + rest).1 == Listen(buf + [seg[0]], seg[1..] + rest).1;
    }
  }

  /** Whatever the device streams, the host's callback receives, in order and nothing else. */
  lemma {:induction false} HostHearsDevice(ms: seq<Message>)
    requires forall m :: m in ms ==> |m.payload| < 65536 && DeviceType(m.msgType)
    ensures Listen([], Stream(ms)) == ([], ms)
    decreases |ms|
  {
    hide DeviceType, Accepted, Raw, Encode;
    if ms != [] {
      var m := ms[0];
      var raw := Raw(m.msgType, m.seqNum, |m.payload|, m.payload);
      var seg, rest := Encode(raw), Stream(ms[1..]);
      EncodeShape(raw);
      assert Stream(ms) == seg + ([DELIMITER] + rest);
      ListenSegment([], seg, [DELIMITER] + rest);
      assert [] + seg == seg;
      assert ([DELIMITER] + rest)[1..] == rest;
      AcceptedWire(m);
      HostHearsDevice(ms[1..]);
      assert ms == [m] + ms[1..];
    }
  }

  lemma {:induction false} ListenConcat(buf: seq<byte>, a: seq<byte>, b: seq<byte>)
    ensures Listen(buf, a + b) ==
            var (mid, ms) := Listen(buf, a);
            var (end, more) := Listen(mid, b);
            (end, ms + more)
    decreases |a|
  {
    hide Heard;
    if a == [] {
      assert a + b == b;
      assert [] + Listen(buf, b).1 == Listen(buf, b).1;
    } else {
      assert (a + b)[0] == a[0] && (a + b)[1..] == a[1..] + b;
      var next := if a[0] == DELIMITER then [] else buf + [a[0]];
      ListenConcat(next, a[1..], b);
      var (mid, ms) := Listen(next, a[1..]);
      var more := Listen(mid, b).1;
      assert Heard(buf, a[0]) + (ms + more) == (Heard(buf, a[0]) + ms) + more;
    }
  }

  lemma DelimiterClears(buf: seq<byte>)
    ensures Listen(buf, [DELIMITER]).0 == []
  {
    hide Heard;
    assert [DELIMITER][1..] == [];
  }

  /**
   * The host resynchronises as the device does: whatever its buffer holds and whatever
   * garbage it reads, after the next delimiter it hears exactly the frames that follow.
   */
  lemma HostResynchronises(buf: seq<byte>, garbage: seq<byte>, ms: seq<Message>)
    requires forall m :: m in ms ==> |m.payload| < 65536 && DeviceType(m.msgType)
    ensures Listen(buf, garbage + [DELIMITER] + Stream(ms)) == ([], Listen(buf, garbage + [DELIMITER]).1 + ms)
  {
    hide Listen, DeviceType, Stream;
    ListenConcat(buf, garbage, [DELIMITER]);
    DelimiterClears(Listen(buf, garbage).0);
    ListenConcat(buf, garbage + [DELIMITER], Stream(ms));
    HostHearsDevice(ms);
  }
}
