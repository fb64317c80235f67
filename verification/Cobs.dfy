/**
 * Consistent Overhead Byte Stuffing: the codec of CobsCodec.h and its host mirror cobs.py.
 *
 * `Encode` and `Decode` are the mathematical codec; the methods are the two
 * implementations, one over caller buffers (device) and one over growing lists (host).
 */
module Cobs {
  import opened Bytes

  // A block carries at most this many data bytes; its code byte is then 0xFF.
  const FULL_BLOCK: int := 254

  function MaxEncodedLen(n: nat): nat {
    n + n / 254 + 1
  }

  /** One encoded block: the code byte counts itself and the data that follow. */
  function Block(data: seq<byte>): (r: seq<byte>)
    requires |data| <= FULL_BLOCK
  {
    [(|data| + 1) as byte] + data
  }

  /** Encoding of `rest` when `open` holds the data of the block that is still open. */
  function EncodeFrom(open: seq<byte>, rest: seq<byte>): seq<byte>
    requires |open| < FULL_BLOCK
    decreases |rest|
  {
    if rest == [] then Block(open)
    else if rest[0] == 0 then Block(open) + EncodeFrom([], rest[1..])
    else if |open| + 1 == FULL_BLOCK then Block(open + [rest[0]]) + EncodeFrom([], rest[1..])
    else EncodeFrom(open + [rest[0]], rest[1..])
  }

  function Encode(x: seq<byte>): seq<byte> {
    EncodeFrom([], x)
  }

  function Decode(y: seq<byte>): Option<seq<byte>>
    decreases |y|
  {
    if |y| == 0 || y[0] == 0 || |y| < y[0] || 0 in y[1..y[0]] then None
    else if |y| == y[0] then Some(y[1..])
    else
      match Decode(y[y[0]..])
      case None => None
      case Some(tail) => Some(y[1..y[0]] + (if y[0] < 255 then [0] else []) + tail)
  }

  /** The last block of an accepted `y` is full, so it may omit the closing empty block. */
  predicate EndsFull(y: seq<byte>)
    decreases |y|
  {
    |y| > 0 && 0 < y[0] <= |y| && (if |y| == y[0] then y[0] == 255 else EndsFull(y[y[0]..]))
  }

  // ----- size and alphabet of an encoding -----

  lemma {:induction false} EncodeFromShape(open: seq<byte>, rest: seq<byte>)
    requires |open| < FULL_BLOCK && ZeroFree(open)
    ensures ZeroFree(EncodeFrom(open, rest))
    ensures |open| + |rest| + 1 <= |EncodeFrom(open, rest)| <= MaxEncodedLen(|open| + |rest|)
    decreases |rest|
  {
    if rest == [] {
    } else if rest[0] == 0 || |open| + 1 == FULL_BLOCK {
      EncodeFromShape([], rest[1..]);
    } else {
      EncodeFromShape(open + [rest[0]], rest[1..]);
    }
  }

  /** An encoding contains no delimiter, and costs one byte plus at most one per 254. */
  lemma EncodeShape(x: seq<byte>)
    ensures ZeroFree(Encode(x))
    ensures |x| + 1 <= |Encode(x)| <= |x| + |x| / 254 + 1
  {
    EncodeFromShape([], x);
  }

  // ----- the two functions are inverse -----

  lemma DecodeBlock(data: seq<byte>, tail: seq<byte>)
    requires |data| <= FULL_BLOCK && ZeroFree(data)
    ensures tail == [] ==> Decode(Block(data) + tail) == Some(data)
    ensures tail != [] && Decode(tail).Some? ==>
              Decode(Block(data) + tail) == Some(data + (if |data| < FULL_BLOCK then [0] else []) + Decode(tail).value)
    ensures EndsFull(Block(data) + tail) == if tail == [] then |data| == FULL_BLOCK else EndsFull(tail)
  {
    var y := Block(data) + tail;
    assert y[1..y[0]] == data;
    assert y[y[0]..] == tail;
    if tail == [] {
      assert y[1..] == data;
    }
  }

  /** The encoder's next move: the open block grows, or is closed. */
  lemma EncodeNext(open: seq<byte>, rest: seq<byte>)
    requires |open| < FULL_BLOCK && rest != []
    ensures rest[0] == 0 ==> EncodeFrom(open, rest) == Block(open) + EncodeFrom([], rest[1..])
    ensures rest[0] != 0 && |open| + 1 == FULL_BLOCK ==>
              EncodeFrom(open, rest) == Block(open + [rest[0]]) + EncodeFrom([], rest[1..])
    ensures rest[0] != 0 && |open| + 1 < FULL_BLOCK ==>
            EncodeFrom(open, rest) == EncodeFrom(open + [rest[0]], rest[1..])
  {
  }

  lemma EncodeLast(open: seq<byte>)
    requires |open| < FULL_BLOCK
    ensures EncodeFrom(open, []) == Block(open) + [] && open + [] == open
  {
  }

  lemma {:induction false} DecodeEncodeFrom(open: seq<byte>, rest: seq<byte>)
    requires |open| < FULL_BLOCK && ZeroFree(open)
    ensures Decode(EncodeFrom(open, rest)) == Some(open + rest)
    ensures !EndsFull(EncodeFrom(open, rest))
    decreases |rest|
  {
    hide Decode, EndsFull, EncodeFrom, Block;
    if rest == [] {
      EncodeLast(open);
      DecodeBlock(open, []);
    } else {
      EncodeNext(open, rest);
      Regroup(open, rest);
      var b, x := rest[0], rest[1..];
      if b == 0 || |open| + 1 == FULL_BLOCK {
        DecodeEncodeFrom([], x);
        EncodeFromShape([], x);
        DecodeClosed(if b == 0 then open else open + [b], x);
      } else {
        DecodeEncodeFrom(open + [b], x);
      }
    }
  }

  lemma Regroup(open: seq<byte>, rest: seq<byte>)
    requires rest != []
    ensures open + [rest[0]] + rest[1..] == open + rest && [] + rest[1..] == rest[1..]
    ensures rest[0] == 0 ==> open + [0] + rest[1..] == open + rest
    ensures open + [rest[0]] + [] + rest[1..] == open + rest
  {
  }

  lemma DecodeClosed(data: seq<byte>, x: seq<byte>)
    requires |data| <= FULL_BLOCK && ZeroFree(data)
    requires Decode(EncodeFrom([], x)) == Some(x) && !EndsFull(EncodeFrom([], x)) && EncodeFrom([], x) != []
    ensures Decode(Block(data) + EncodeFrom([], x)) == Some(data + (if |data| < FULL_BLOCK then [0] else []) + x)
    ensures !EndsFull(Block(data) + EncodeFrom([], x))
  {
    hide Decode, EndsFull, EncodeFrom, Block;
    DecodeBlock(data, EncodeFrom([], x));
  }

  /** Round trip from the sender's side, for every input including the empty one. */
  lemma DecodeEncode(x: seq<byte>)
    ensures Decode(Encode(x)) == Some(x)
  {
    DecodeEncodeFrom([], x);
    assert [] + x == x;
  }

  /** Reading non-zero data extends the open block until it is full. */
  lemma {:induction false} EncodeFromData(open: seq<byte>, data: seq<byte>, rest: seq<byte>)
    requires |open| + |data| <= FULL_BLOCK && |open| < FULL_BLOCK && ZeroFree(data)
    ensures EncodeFrom(open, data + rest) ==
            if |open| + |data| < FULL_BLOCK then EncodeFrom(open + data, rest)
            else Block(open + data) + EncodeFrom([], rest)
    decreases |data|
  {
    if data == [] {
      assert data + rest == rest && open + data == open;
    } else {
      var all := data + rest;
      assert all[1..] == data[1..] + rest && all[0] == data[0];
      assert (open + [data[0]]) + data[1..] == open + data;
      if |open| + 1 < FULL_BLOCK {
        EncodeFromData(open + [data[0]], data[1..], rest);
      } else {
        assert data[1..] == [] && all[1..] == rest;
        assert open + [data[0]] == open + data;
      }
    }
  }

  /** One decoded block, encoded again, is that block followed by the encoding of the rest. */
  lemma EncodeBlock(data: seq<byte>, x: seq<byte>)
    requires |data| <= FULL_BLOCK && ZeroFree(data)
    ensures |data| < FULL_BLOCK ==> Encode(data + [0] + x) == Block(data) + Encode(x)
    ensures |data| == FULL_BLOCK ==> Encode(data + x) == Block(data) + Encode(x)
    ensures |data| < FULL_BLOCK ==> Encode(data) == Block(data)
  {
    assert [] + data == data && data + [] == data;
    EncodeFromData([], data, []);
    EncodeFromData([], data, x);
    EncodeFromData([], data, [0] + x);
    assert data + ([0] + x) == data + [0] + x;
    assert ([0] + x)[1..] == x;
  }

  /**
   * Round trip from the receiver's side: every accepted segment is the encoding of what
   * it decodes to, up to the one alias of a dropped empty block after a full one.
   */
  lemma {:induction false} EncodeDecode(y: seq<byte>)
    requires Decode(y).Some?
    ensures Encode(Decode(y).value) == if EndsFull(y) then y + [1] else y
    decreases |y|
  {
    assert Encode([]) == [1];
    hide Encode;
    var data, rest := y[1..y[0]], y[y[0]..];
    if rest == [] {
      assert y == Block(data) && y[1..] == data && data + [] == data;
      EncodeBlock(data, []);
    } else {
      EncodeDecode(rest);
      EncodeDecodeBlock(y, data, rest);
      assert Block(data) + (rest + [1]) == y + [1];
    }
  }

  lemma EncodeDecodeBlock(y: seq<byte>, data: seq<byte>, rest: seq<byte>)
    requires Decode(y).Some? && data == y[1..y[0]] && rest == y[y[0]..] != []
    ensures y == Block(data) + rest && Decode(rest).Some?
    ensures Encode(Decode(y).value) == Block(data) + Encode(Decode(rest).value)
  {
    hide Encode;
    var tail := Decode(rest).value;
    EncodeBlock(data, tail);
    if y[0] < 255 {
      assert Decode(y).value == data + [0] + tail;
    } else {
      assert Decode(y).value == data + tail;
    }
  }

  /** Exactly which segments decode to `x`. */
  lemma DecodesToExactly(y: seq<byte>, x: seq<byte>)
    ensures Decode(y) == Some(x) <==> y == Encode(x) || (EndsFull(y) && y + [1] == Encode(x))
  {
    DecodeEncode(x);
    if Decode(y) == Some(x) {
      EncodeDecode(y);
    }
    if EndsFull(y) && y + [1] == Encode(x) {
      DropClosingBlock(y);
    }
  }

  lemma {:induction false} DropClosingBlock(y: seq<byte>)
    requires EndsFull(y) && Decode(y + [1]).Some?
    ensures Decode(y) == Decode(y + [1])
    decreases |y|
  {
    var z := y + [1];
    assert z[1..y[0]] == y[1..y[0]];
    assert z[y[0]..] == y[y[0]..] + [1];
    if |y| == y[0] {
      assert z[y[0]..] == [1] && [1 as byte][1..] == [];
      assert y[1..y[0]] + [] + [] == y[1..];
    } else {
      DropClosingBlock(y[y[0]..]);
    }
  }

  /** The encodings of a zero, of data around one, and of the longest run that fits one block. */
  lemma KnownEncodings(run: seq<byte>)
    requires |run| == 254 && ZeroFree(run)
    ensures Encode([]) == [1] && Encode([0]) == [1, 1]
    ensures Encode([0x11, 0x22, 0, 0x33]) == [3, 0x11, 0x22, 2, 0x33]
    ensures Encode(run) == [255] + run + [1]
  {
    assert Encode([]) == [1];
    hide Encode;
    EncodeBlock([], []);
    assert [] + [0] + [] == [0] && Block([]) == [1];
    EncodeBlock([0x11, 0x22], [0x33]);
    EncodeBlock([0x33], []);
    assert [0x11, 0x22] + [0] + [0x33] == [0x11, 0x22, 0, 0x33];
    EncodeBlock(run, []);
    assert run + [] == run;
  }
}
