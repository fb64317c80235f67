/** Progress of the two codec loops, shared by the device and the host implementation. */
module CobsProgress {
  import opened Bytes
  import opened Cobs

  /** `out` is the output so far for `x[..i]`, its open block's code byte still to be patched at `codeIdx`. */
  ghost predicate Encoding(x: seq<byte>, i: nat, out: seq<byte>, codeIdx: nat) {
    && i <= |x| && codeIdx < |out| <= codeIdx + FULL_BLOCK
    && ZeroFree(out[codeIdx + 1..])
    && Encode(x) == out[..codeIdx] + EncodeFrom(out[codeIdx + 1..], x[i..])
    && |out| + |x| - i <= |Encode(x)|
  }

  /** The output after patching the open block's code byte and reserving the next one. */
  ghost function Closed(out: seq<byte>, codeIdx: nat, p: byte): seq<byte>
    requires codeIdx < |out| <= codeIdx + 255
  {
    out[codeIdx := |out| - codeIdx] + [p]
  }

  lemma StartEncoding(x: seq<byte>, p: byte)
    ensures Encoding(x, 0, [p], 0)
  {
    EncodeShape(x);
  }

  /** A zero byte, or the 254th data byte, closes the block `data` and opens the next. */
  lemma CloseBlock(x: seq<byte>, i: nat, before: seq<byte>, data: seq<byte>, p: byte)
    requires i <= |x| && |data| <= FULL_BLOCK
    requires Encode(x) == before + Block(data) + EncodeFrom([], x[i..])
    ensures Encoding(x, i, before + Block(data) + [p], |before| + |data| + 1)
  {
    EncodeFromShape([], x[i..]);
    var out := before + Block(data) + [p];
    assert out[..|before| + |data| + 1] == before + Block(data);
  }

  lemma ZeroStep(x: seq<byte>, i: nat, out: seq<byte>, codeIdx: nat, p: byte)
    requires Encoding(x, i, out, codeIdx) && i < |x| && x[i] == 0
    ensures Encoding(x, i + 1, Closed(out, codeIdx, p), |out|)
  {
    var before, open := out[..codeIdx], out[codeIdx + 1..];
    assert x[i..][1..] == x[i + 1..];
    assert before + (Block(open) + EncodeFrom([], x[i + 1..])) == before + Block(open) + EncodeFrom([], x[i + 1..]);
    CloseBlock(x, i + 1, before, open, p);
    assert out[codeIdx := |out| - codeIdx] == before + Block(open);
  }

  lemma DataStep(x: seq<byte>, i: nat, out: seq<byte>, codeIdx: nat)
    requires Encoding(x, i, out, codeIdx) && i < |x| && x[i] != 0 && |out| - codeIdx < FULL_BLOCK
    ensures Encoding(x, i + 1, out + [x[i]], codeIdx)
  {
    assert x[i..][1..] == x[i + 1..];
    assert (out + [x[i]])[codeIdx + 1..] == out[codeIdx + 1..] + [x[i]];
    assert (out + [x[i]])[..codeIdx] == out[..codeIdx];
  }

  lemma FullStep(x: seq<byte>, i: nat, out: seq<byte>, codeIdx: nat)
    requires Encoding(x, i, out, codeIdx) && i < |x| && x[i] != 0 && |out| - codeIdx == FULL_BLOCK
    ensures forall p: byte :: Encoding(x, i + 1, Closed(out + [x[i]], codeIdx, p), |out| + 1)
    ensures |out| + 1 < |Encode(x)|
  {
    var before, data := out[..codeIdx], out[codeIdx + 1..] + [x[i]];
    assert x[i..][1..] == x[i + 1..];
    assert before + (Block(data) + EncodeFrom([], x[i + 1..])) == before + Block(data) + EncodeFrom([], x[i + 1..]);
    assert (out + [x[i]])[codeIdx := 255] == before + Block(data);
    forall p: byte ensures Encoding(x, i + 1, before + Block(data) + [p], |out| + 1) {
      CloseBlock(x, i + 1, before, data, p);
    }
    EncodeFromShape([], x[i + 1..]);
  }

  lemma FinishEncoding(x: seq<byte>, out: seq<byte>, codeIdx: nat)
    requires Encoding(x, |x|, out, codeIdx)
    ensures out[codeIdx := |out| - codeIdx] == Encode(x)
  {
    assert out[codeIdx := |out| - codeIdx] == out[..codeIdx] + Block(out[codeIdx + 1..]);
  }

  /** The whole decode, when `done` is already out and `rest` is still to be read. */
  ghost function Resumed(done: seq<byte>, rest: seq<byte>): Option<seq<byte>> {
    if rest == [] then Some(done)
    else match Decode(rest) case None => None case Some(x) => Some(done + x)
  }

  lemma StartDecoding(y: seq<byte>)
    requires y != []
    ensures Decode(y) == Resumed([], y[0..])
  {
    assert y[0..] == y;
    if Decode(y).Some? {
      assert [] + Decode(y).value == Decode(y).value;
    }
  }

  lemma BlockStep(done: seq<byte>, y: seq<byte>, idx: nat, next: nat)
    requires idx < |y| && y[idx] != 0 && next == idx + y[idx] <= |y| && 0 !in y[idx + 1..next]
    ensures Resumed(done, y[idx..]) ==
            Resumed(done + y[idx + 1..next] + (if y[idx] < 255 && next < |y| then [0] else []), y[next..])
  {
    var rest, code := y[idx..], y[idx];
    assert rest[1..code] == y[idx + 1..next] && rest[code..] == y[next..];
    if next == |y| {
      assert rest[1..] == y[idx + 1..next] && y[next..] == [];
      assert done + y[idx + 1..next] + [] == done + y[idx + 1..next];
    } else if Decode(y[next..]).Some? {
      var sep: seq<byte> := if code < 255 then [0] else [];
      var x := Decode(y[next..]).value;
      assert done + (y[idx + 1..next] + sep + x) == done + y[idx + 1..next] + sep + x;
    }
  }

  lemma BadBlock(done: seq<byte>, y: seq<byte>, idx: nat)
    requires idx < |y|
    requires y[idx] == 0 || idx + y[idx] > |y| || 0 in y[idx + 1..idx + y[idx]]
    ensures Resumed(done, y[idx..]) == None
  {
    var rest, code := y[idx..], y[idx];
    if code != 0 && code <= |rest| {
      assert rest[1..code] == y[idx + 1..idx + code];
    }
  }
}

/** The device's codec (CobsCodec.h): both directions over caller-provided buffers. */
module CobsCodec {
  import opened Bytes
  import opened Cobs
  import opened CobsProgress

  /** Encodes `src[..srcLen]`; 0 means the destination is too small, and nothing is written. */
  method EncodeInto(src: array<byte>, srcLen: nat, dst: array<byte>, dstCap: nat) returns (n: nat)
    requires srcLen <= src.Length && dstCap <= dst.Length && src != dst
    modifies dst
    ensures dstCap < MaxEncodedLen(srcLen) ==> n == 0
    ensures dstCap >= MaxEncodedLen(srcLen) ==> n <= dstCap && dst[..n] == Encode(src[..srcLen])
    ensures n <= dst.Length && dst[n..] == old(dst[n..])
  {
    if dstCap < MaxEncodedLen(srcLen) {
      return 0;
    }
    ghost var x := src[..srcLen];
    EncodeShape(x);
    n := EncodeBlocks(src, srcLen, dst, x);
  }

  /** The encoding loop, once the destination is known to be large enough. */
  method EncodeBlocks(src: array<byte>, srcLen: nat, dst: array<byte>, ghost x: seq<byte>) returns (n: nat)
    requires srcLen <= src.Length && x == src[..srcLen] && |Encode(x)| <= dst.Length && src != dst
    modifies dst
    ensures n == |Encode(x)| && forall k :: 0 <= k < n ==> dst[k] == Encode(x)[k]
    ensures forall k :: n <= k < dst.Length ==> dst[k] == old(dst[k])
  {
    hide Encode, EncodeFrom;
    EncodeShape(x);
    ghost var total := |Encode(x)|;
    var writeIdx, codeIdx, code := 1, 0, 1;
    ghost var out: seq<byte> := [dst[0]];
    StartEncoding(x, dst[0]);
    for i := 0 to srcLen
      invariant codeIdx + code == writeIdx <= total && code <= FULL_BLOCK
      invariant |out| == writeIdx && Encoding(x, i, out, codeIdx)
      invariant forall k :: 0 <= k < writeIdx ==> dst[k] == out[k]
      invariant forall k :: total <= k < dst.Length ==> dst[k] == old(dst[k])
    {
      if src[i] == 0 {
        ZeroStep(x, i, out, codeIdx, dst[writeIdx]);
        dst[codeIdx] := code;
        out := Closed(out, codeIdx, dst[writeIdx]);
        codeIdx, writeIdx, code := writeIdx, writeIdx + 1, 1;
      } else {
        if code + 1 < 255 { DataStep(x, i, out, codeIdx); } else { FullStep(x, i, out, codeIdx); }
        dst[writeIdx] := src[i];
        out := out + [src[i]];
        writeIdx, code := writeIdx + 1, code + 1;
        if code == 255 {
          dst[codeIdx] := code;
          out := Closed(out, codeIdx, dst[writeIdx]);
          codeIdx, writeIdx, code := writeIdx, writeIdx + 1, 1;
        }
      }
    }
    FinishEncoding(x, out, codeIdx);
    dst[codeIdx] := code;
    n := writeIdx;
  }

  /** What decoding `y` into `cap` bytes delivers: nothing if `y` is malformed or too long. */
  function DecodeWithin(y: seq<byte>, cap: nat): seq<byte> {
    match Decode(y)
    case None => []
    case Some(x) => if |x| <= cap then x else []
  }

  /**
   * Decodes `src[..srcLen]`. The returned length is 0 both for an error and for the
   * encoding of the empty message; a failed decode may leave partial data below `dstCap`.
   */
  method DecodeInto(src: array<byte>, srcLen: nat, dst: array<byte>, dstCap: nat) returns (n: nat)
    requires srcLen <= src.Length && dstCap <= dst.Length && src != dst
    modifies dst
    ensures n <= dstCap && dst[..n] == DecodeWithin(src[..srcLen], dstCap)
    ensures dst[dstCap..] == old(dst[dstCap..])
  {
    if srcLen == 0 {
      return 0;
    }
    ghost var y := src[..srcLen];
    n := DecodeBlocks(src, srcLen, dst, dstCap, y);
    assert n > 0 ==> dst[..n] == Decode(y).value;
  }

  /** The decoding loop of a non-empty segment. */
  method DecodeBlocks(src: array<byte>, srcLen: nat, dst: array<byte>, dstCap: nat, ghost y: seq<byte>)
    returns (n: nat)
    requires 0 < srcLen <= src.Length && y == src[..srcLen] && dstCap <= dst.Length && src != dst
    modifies dst
    ensures n == |DecodeWithin(y, dstCap)| <= dstCap
    ensures forall k :: 0 <= k < n ==> dst[k] == DecodeWithin(y, dstCap)[k]
    ensures forall k :: dstCap <= k < dst.Length ==> dst[k] == old(dst[k])
  {
    hide Decode;
    var readIdx, writeIdx := 0, 0;
    ghost var out: seq<byte> := [];
    StartDecoding(y);
    while readIdx < srcLen
      invariant readIdx <= srcLen && |out| == writeIdx <= dstCap
      invariant Decode(y) == Resumed(out, y[readIdx..])
      invariant forall k :: 0 <= k < writeIdx ==> dst[k] == out[k]
      invariant forall k :: dstCap <= k < dst.Length ==> dst[k] == old(dst[k])
    {
      ghost var first := readIdx;
      var code := src[readIdx];
      readIdx := readIdx + 1;
      if code == 0 {
        BadBlock(out, y, first);
        return 0;
      }
      var dataBytes := code - 1;
      if readIdx + dataBytes > srcLen {
        BadBlock(out, y, first);
        return 0;
      }
      if writeIdx + dataBytes > dstCap {
        TooLong(out, y, first);
        return 0;
      }
      var copied := CopyData(src, readIdx, dst, writeIdx, dataBytes);
      assert y[first + 1..first + code] == src[first + 1..first + code];
      if !copied {
        BadBlock(out, y, first);
        return 0;
      }
      readIdx, writeIdx := readIdx + dataBytes, writeIdx + dataBytes;
      BlockStep(out, y, first, readIdx);
      ghost var data := out + y[first + 1..readIdx];
      assert forall k :: |out| <= k < writeIdx ==> dst[k] == data[k];
      out := data + (if code < 255 && readIdx < srcLen then [0] else []);
      if code < 255 && readIdx < srcLen {
        if writeIdx >= dstCap {
          return 0;
        }
        dst[writeIdx] := 0;
        writeIdx := writeIdx + 1;
      }
    }
    n := writeIdx;
  }

  /** The inner loop: copies one block's data, stopping at a zero byte. */
  method CopyData(src: array<byte>, from: nat, dst: array<byte>, at: nat, count: nat) returns (ok: bool)
    requires from + count <= src.Length && at + count <= dst.Length && src != dst
    modifies dst
    ensures ok <==> 0 !in src[from..from + count]
    ensures forall k :: 0 <= k < dst.Length && !(at <= k < at + count) ==> dst[k] == old(dst[k])
    ensures ok ==> forall k :: at <= k < at + count ==> dst[k] == src[k - at + from]
  {
    for j := 0 to count
      invariant forall k :: from <= k < from + j ==> src[k] != 0
      invariant forall k :: 0 <= k < dst.Length && !(at <= k < at + j) ==> dst[k] == old(dst[k])
      invariant forall k :: at <= k < at + j ==> dst[k] == src[k - at + from]
    {
      if src[from + j] == 0 {
        assert src[from..from + count][j] == 0;
        return false;
      }
      dst[at + j] := src[from + j];
    }
    ok := true;
  }

  lemma TooLong(done: seq<byte>, y: seq<byte>, idx: nat)
    requires idx < |y| && y[idx] != 0 && idx + y[idx] <= |y|
    ensures var r := Resumed(done, y[idx..]); r.Some? ==> |r.value| >= |done| + y[idx] - 1
  {
    var rest := y[idx..];
    assert |rest[1..y[idx]]| == y[idx] - 1;
  }
}

/** The host's codec (cobs.py): the same two functions over growing lists. */
module CobsHost {
  import opened Bytes
  import opened Cobs
  import opened CobsProgress

  method EncodeList(data: seq<byte>) returns (output: seq<byte>)
    ensures output == Encode(data)
  {
    if |data| == 0 {
      return [1];
    }
    var codeIdx: nat, code := 0, 1;
    output := [0];
    StartEncoding(data, 0);
    for i := 0 to |data|
      invariant codeIdx + code == |output| && code <= FULL_BLOCK
      invariant Encoding(data, i, output, codeIdx)
    {
      ghost var before := output;
      if data[i] == 0 {
        ZeroStep(data, i, before, codeIdx, 0);
        output := output[codeIdx := code];
        assert output + [0] == Closed(before, codeIdx, 0);
        codeIdx, output, code := |output|, output + [0], 1;
      } else {
        if code + 1 < 255 { DataStep(data, i, before, codeIdx); } else { FullStep(data, i, before, codeIdx); }
        output, code := output + [data[i]], code + 1;
        if code == 255 {
          output := output[codeIdx := code];
          assert output + [0] == Closed(before + [data[i]], codeIdx, 0);
          codeIdx, output, code := |output|, output + [0], 1;
        }
      }
    }
    FinishEncoding(data, output, codeIdx);
    output := output[codeIdx := code as byte];
  }

  /** `None` is the ValueError of a malformed segment. */
  method DecodeList(data: seq<byte>) returns (r: Option<seq<byte>>)
    ensures r == Decode(data)
  {
    if |data| == 0 {
      return None;
    }
    var output: seq<byte>, idx := [], 0;
    StartDecoding(data);
    while idx < |data|
      invariant idx <= |data|
      invariant Decode(data) == Resumed(output, data[idx..])
    {
      ghost var done, first := output, idx;
      var code := data[idx];
      if code == 0 {
        BadBlock(done, data, first);
        return None;
      }
      idx := idx + 1;
      for j := 0 to code - 1
        invariant idx == first + 1 + j <= |data|
        invariant output == done + data[first + 1..idx] && 0 !in data[first + 1..idx]
      {
        if idx >= |data| {
          BadBlock(done, data, first);
          return None;
        }
        if data[idx] == 0 {
          if first + code <= |data| {
            assert data[first + 1..first + code][j] == 0;
          }
          BadBlock(done, data, first);
          return None;
        }
        output, idx := output + [data[idx]], idx + 1;
      }
      BlockStep(done, data, first, idx);
      if code < 255 && idx < |data| {
        output := output + [0];
      } else {
        assert output + [] == output;
      }
    }
    r := Some(output);
  }
}
