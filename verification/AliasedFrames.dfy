/**
 * Frames that the decoder accepts in two spellings: with the encoder's closing block behind a
 * full one, and without it. There are many: every 250 non-zero payload bytes can be continued
 * to one.
 */
module AliasedFrames {
  import opened Bytes
  import opened BurstBound
  import opened Cobs
  import opened Crc16
  import opened Frame

  /** Both bytes of the check are non-zero. */
  predicate NoZeroByte(c: bv16) {
    c & 0xFF != 0 && c >> 8 != 0
  }

  lemma OneOfThree(c: bv16)
    ensures NoZeroByte(c) || NoZeroByte(Xor(c, 0x3063)) || NoZeroByte(Xor(c, 0x2042))
  {
  }

  lemma LastTwo()
    ensures Fold16(Xor(Pair(1, 1), Pair(1, 2))) == 0x3063 && Fold16(Xor(Pair(1, 1), Pair(1, 3))) == 0x2042
  {
    assert Pair(1, 1) == 0x0101 && Pair(1, 2) == 0x0102 && Pair(1, 3) == 0x0103;
  }

  lemma OtherCheck(c: bv16, d: bv16, f: bv16)
    requires Xor(c, d) == f
    ensures d == Xor(c, f)
  {
  }

  /** Two more bytes that leave no zero byte in the check. */
  lemma Continue(pre: seq<byte>) returns (last: seq<byte>)
    ensures |last| == 2 && ZeroFree(last) && NoZeroByte(Crc(INIT, pre + last))
  {
    hide Crc, Xor, NoZeroByte, Fold16, Pair;
    var c := Crc(INIT, pre + [1, 1]);
    OneOfThree(c);
    LastTwo();
    TailChangesCrc(pre, [1, 1], [1, 2]);
    TailChangesCrc(pre, [1, 1], [1, 3]);
    OtherCheck(c, Crc(INIT, pre + [1, 2]), 0x3063);
    OtherCheck(c, Crc(INIT, pre + [1, 3]), 0x2042);
    last := if NoZeroByte(c) then [1, 1] else if NoZeroByte(Xor(c, 0x3063)) then [1, 2] else [1, 3];
  }

  lemma NotZero(c: bv16)
    requires c <= 0xFF && c != 0
    ensures AsByte(c) != 0
  {
  }

  lemma ZeroFreeTrailer(c: bv16)
    requires NoZeroByte(c)
    ensures |Trailer(c)| == 2 && ZeroFree(Trailer(c))
  {
    hide AsByte;
    LowAndHigh(c);
    NotZero(c & 0xFF);
    NotZero(c >> 8);
  }

  /** A header without a zero of its own, the zero of the length, and a run that fills a block. */
  lemma FullRun(head: seq<byte>, run: seq<byte>)
    requires |head| < FULL_BLOCK && ZeroFree(head) && |run| == FULL_BLOCK && ZeroFree(run)
    ensures var seg := Block(head) + Block(run);
            EndsFull(seg) && seg + [1] == Encode(head + [0] + run) && ZeroFree(seg)
  {
    EncodeBlock(head, run);
    EncodeBlock(run, []);
    assert run + [] == run && Block(run) + [] == Block(run);
    DecodeBlock(run, []);
    DecodeBlock(head, Block(run));
    assert Encode([]) == [1];
    assert Block(head) + (Block(run) + [1]) == Block(head) + Block(run) + [1];
  }

  /**
   * For every type and number other than zero, and every 250 non-zero payload bytes, there are
   * two more such that the decoder also takes the frame from a segment that is not the
   * encoder's output.
   */
  lemma AliasesExist(t: byte, q: byte, p: seq<byte>, d: Decoder, maxPayload: nat)
    returns (last: seq<byte>, seg: seq<byte>)
    requires t != 0 && q != 0 && |p| == 250 && ZeroFree(p) && d.acc == [] && maxPayload >= 252
    ensures |last| == 2 && seg + [1] == Encode(Raw(t, q, 252, p + last))
    ensures FeedAll(d, seg + [DELIMITER], maxPayload).1 == Silence(|seg|) + [Ready(t, q, p + last)]
  {
    hide Crc, Encode, Decode, FeedAll, Trailer, EndsFull, NoZeroByte;
    last := Continue(Header(t, q, 252) + p);
    var payload := p + last;
    var body := Header(t, q, 252) + payload;
    assert body == Header(t, q, 252) + p + last;
    var head, run := [t, q, 252], payload + Trailer(Crc(INIT, body));
    ZeroFreeTrailer(Crc(INIT, body));
    assert Raw(t, q, 252, payload) == head + [0] + run;
    FullRun(head, run);
    seg := Block(head) + Block(run);
    assert |seg| == 259;
    AcceptsExactly(d, seg, maxPayload, t, q, payload);
    var rs := FeedAll(d, seg + [DELIMITER], maxPayload).1;
    assert rs == rs[..|seg|] + [rs[|seg|]];
  }
}
