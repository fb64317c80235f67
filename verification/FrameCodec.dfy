/** The device's frame encoder (FrameEncoder.h): a staging buffer, then COBS into the caller's buffer. */
module FrameEncoding {
  import opened Bytes
  import opened Cobs
  import opened Frame
  import CobsCodec
  import opened Crc16

  class FrameEncoder {
    const maxPayload: nat

    constructor (maxPayload: nat)
      ensures this.maxPayload == maxPayload
    {
      this.maxPayload := maxPayload;
    }

    /**
     * A null payload contributes no bytes even when `payloadLen` is not 0. 0 means that the
     * payload or the frame does not fit, and then nothing is written.
     */
    method EncodeFrame(msgType: byte, seqNum: byte, payload: array?<byte>, payloadLen: nat,
                       outBuf: array<byte>, outCap: nat)
      returns (n: nat)
      requires payload != null ==> payloadLen <= payload.Length
      requires outCap <= outBuf.Length
      modifies outBuf
      ensures payloadLen > maxPayload || outCap < MaxEncodedLen(OVERHEAD + payloadLen) + 1 ==> n == 0
      ensures payloadLen <= maxPayload && outCap >= MaxEncodedLen(OVERHEAD + payloadLen) + 1 ==>
                n <= outCap &&
                outBuf[..n] ==
                Wire(msgType, seqNum, payloadLen, if payload == null then [] else old(payload[..payloadLen]))
      ensures n <= outBuf.Length && outBuf[n..] == old(outBuf[n..])
    {
      hide Encode, Raw;
      if payloadLen > maxPayload {
        return 0;
      }
      var rawLen := OVERHEAD + payloadLen;
      if outCap < MaxEncodedLen(rawLen) + 1 {
        return 0;
      }
      ghost var p := if payload == null then [] else payload[..payloadLen];
      var raw := new byte[OVERHEAD + maxPayload];
      var pos := Stage(msgType, seqNum, payload, payloadLen, raw);
      assert MaxEncodedLen(pos) <= MaxEncodedLen(rawLen);
      var cobsLen := CobsCodec.EncodeInto(raw, pos, outBuf, outCap - 1);
      if cobsLen == 0 {
        EncodeShape(raw[..pos]);
        assert false;
      }
      ghost var tail := outBuf[cobsLen..];
      outBuf[cobsLen] := DELIMITER;
      n := cobsLen + 1;
      assert outBuf[n..] == tail[1..];
      assert outBuf[..n] == Encode(raw[..pos]) + [DELIMITER];
    }

    /** Builds the raw frame in the staging buffer. */
    method Stage(msgType: byte, seqNum: byte, payload: array?<byte>, payloadLen: nat, raw: array<byte>)
      returns (pos: nat)
      requires payload != null ==> payloadLen <= payload.Length
      requires raw.Length >= OVERHEAD + payloadLen && raw != payload
      modifies raw
      ensures pos == OVERHEAD + (if payload == null then 0 else payloadLen)
      ensures raw[..pos] ==
              Raw(msgType, seqNum, payloadLen, if payload == null then [] else payload[..payloadLen])
    {
      hide Crc, Trailer;
      raw[0] := msgType;
      raw[1] := seqNum;
      raw[2] := payloadLen % 256;
      raw[3] := payloadLen / 256 % 256;
      pos := HEADER;
      if payloadLen > 0 && payload != null {
        for i := 0 to payloadLen
          invariant raw[..HEADER] == Header(msgType, seqNum, payloadLen)
          invariant raw[HEADER..HEADER + i] == payload[..i]
        {
          raw[HEADER + i] := payload[i];
          assert payload[..i + 1] == payload[..i] + [payload[i]];
          assert raw[HEADER..HEADER + i + 1] == raw[HEADER..HEADER + i] + [payload[i]];
        }
        pos := pos + payloadLen;
      }
      ghost var p := if payload == null then [] else payload[..payloadLen];
      ghost var body := Header(msgType, seqNum, payloadLen) + p;
      assert raw[..pos] == body;
      var crc := Compute(raw, pos, INIT);
      var trailer := Trailer(crc);
      TrailerSize(crc);
      raw[pos], raw[pos + 1] := trailer[0], trailer[1];
      pos := pos + 2;
      assert raw[..pos] == body + trailer;
    }
  }
}

/** The device's byte-at-a-time frame decoder (FrameDecoder.h). */
module FrameDecoding {
  import opened Bytes
  import opened Cobs
  import opened Frame
  import opened Crc16
  import CobsCodec

  class FrameDecoder {
    const maxPayload: nat
    const cobsBuf: array<byte>
    var cobsLen: nat
    var msgType: byte
    var seqNum: byte
    const payload: array<byte>
    var payloadLen: nat

    ghost predicate Valid()
      reads this
    {
      && cobsBuf.Length == MaxCobs(maxPayload) && payload.Length == maxPayload
      && cobsLen <= cobsBuf.Length && payloadLen <= payload.Length
      && cobsBuf != payload
    }

    ghost function State(): Decoder
      requires Valid()
      reads this, cobsBuf, payload
    {
      Decoder(cobsBuf[..cobsLen], msgType, seqNum, payload[..payloadLen])
    }

    constructor (maxPayload: nat)
      ensures Valid() && fresh(cobsBuf) && fresh(payload) && this.maxPayload == maxPayload
      ensures State() == Decoder([], HEARTBEAT, 0, [])
    {
      this.maxPayload := maxPayload;
      cobsBuf := new byte[MaxCobs(maxPayload)];
      payload := new byte[maxPayload];
      cobsLen, msgType, seqNum, payloadLen := 0, HEARTBEAT, 0, 0;
    }

    method Reset()
      requires Valid()
      modifies this
      ensures Valid()
      ensures State() == Decoder([], HEARTBEAT, 0, [])
    {
      cobsLen, msgType, seqNum, payloadLen := 0, HEARTBEAT, 0, 0;
    }

    method FeedByte(b: byte) returns (r: Result)
      requires Valid()
      modifies this, cobsBuf, payload
      ensures Valid()
      ensures (State(), r) == Feed(old(State()), b, maxPayload)
    {
      hide Finish;
      if b == DELIMITER {
        if cobsLen == 0 {
          return Incomplete;
        }
        r := ProcessFrame();
        return;
      }
      if cobsLen < MaxCobs(maxPayload) {
        cobsBuf[cobsLen] := b;
        cobsLen := cobsLen + 1;
        assert cobsBuf[..cobsLen] == old(cobsBuf[..cobsLen]) + [b];
        return Incomplete;
      }
      cobsLen := 0;
      r := Error;
    }

    method ProcessFrame() returns (r: Result)
      requires Valid()
      modifies this, payload
      ensures Valid()
      ensures (State(), r) == Finish(old(State()), maxPayload)
    {
      hide Crc, Stored, Decode;
      var cap := OVERHEAD + maxPayload;
      var rawBuf := new byte[cap];
      var rawLen := CobsCodec.DecodeInto(cobsBuf, cobsLen, rawBuf, cap);
      ghost var raw := rawBuf[..rawLen];
      cobsLen := 0;
      if rawLen < OVERHEAD {
        return Error;
      }
      var crcOffset := rawLen - TRAILER;
      var crcExpect := Stored(rawBuf[crcOffset], rawBuf[crcOffset + 1]);
      var crcComputed := Compute(rawBuf, crcOffset, INIT);
      assert rawBuf[..crcOffset] == raw[..crcOffset];
      if crcComputed != crcExpect {
        return Error;
      }
      msgType, seqNum := rawBuf[0], rawBuf[1];
      var pl := (rawBuf[2] as int) + (rawBuf[3] as int) * 256;
      if pl != crcOffset - HEADER {
        return Error;
      }
      if pl > maxPayload {
        return Error;
      }
      TakePayload(rawBuf, pl);
      assert rawBuf[HEADER..HEADER + pl] == raw[HEADER..crcOffset];
      r := Ready(msgType, seqNum, payload[..payloadLen]);
    }

    method TakePayload(src: array<byte>, len: nat)
      requires len <= payload.Length && HEADER + len <= src.Length && src != payload
      modifies this`payloadLen, payload
      ensures payloadLen == len && payload[..len] == src[HEADER..HEADER + len]
    {
      payloadLen := len;
      for i := 0 to payloadLen
        modifies payload
        invariant forall k :: 0 <= k < i ==> payload[k] == src[HEADER + k]
      {
        payload[i] := src[HEADER + i];
      }
    }
  }
}
