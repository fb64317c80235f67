/**
 * Bursts of up to 16 bits anywhere in a frame, its own check included. The check is stored
 * low byte first, so a burst that runs from the body into it may go undetected: in exactly
 * twelve ways.
 */
module BurstBound {
  import opened Bytes
  import opened ShiftRegister
  import opened Crc16
  import opened CrcOrder
  import opened ErrorBound
  import opened Frame

  // ----- words and their bits -----

  /** Two bytes as a word, the first one on top. */
  function Pair(x: byte, y: byte): bv16 {
    Word(x) | Low(y)
  }

  function Low(y: byte): bv16 {
    y as bv16
  }

  lemma LowAndWord(y: byte)
    ensures Low(y) <= 0xFF && Word(y) == Low(y) << 8
  {
    ByteAsWord(y);
  }

  lemma ShiftedLow(v: bv16)
    ensures (v << 8) & 0xFF == 0
  {
  }

  function WordBits(w: bv16): (s: seq<bool>)
    ensures |s| == 16
  {
    TopBits(Shl1, Msb, w, 16)
  }

  /** The word with only bit `k` set, counted from the top, and that with all bits from `k` on. */
  function Bit(k: nat): bv16
    requires k < 16
    decreases 16 - k
  {
    if k == 15 then 1 else Bit(k + 1) << 1
  }

  function From(k: nat): bv16
    requires k <= 16
    decreases 16 - k
  {
    if k == 16 then 0 else From(k + 1) | Bit(k)
  }

  lemma BitsAre()
    ensures Bit(15) == 0x0001 && Bit(14) == 0x0002 && Bit(13) == 0x0004 && Bit(12) == 0x0008
    ensures Bit(11) == 0x0010 && Bit(10) == 0x0020 && Bit(9) == 0x0040 && Bit(8) == 0x0080
    ensures Bit(7) == 0x0100 && Bit(6) == 0x0200 && Bit(5) == 0x0400 && Bit(4) == 0x0800
    ensures Bit(3) == 0x1000 && Bit(2) == 0x2000 && Bit(1) == 0x4000 && Bit(0) == 0x8000
  {
    assert Bit(12) == 8;
    assert Bit(8) == 0x80;
    assert Bit(4) == 0x800;
  }

  lemma FromAre()
    ensures From(15) == 0x0001 && From(14) == 0x0003 && From(13) == 0x0007 && From(12) == 0x000F
    ensures From(11) == 0x001F && From(10) == 0x003F && From(9) == 0x007F && From(8) == 0x00FF
    ensures From(7) == 0x01FF && From(6) == 0x03FF && From(5) == 0x07FF && From(4) == 0x0FFF
    ensures From(3) == 0x1FFF && From(2) == 0x3FFF && From(1) == 0x7FFF && From(0) == 0xFFFF
  {
    BitsAre();
    hide Bit;
    assert From(12) == 0xF;
    assert From(8) == 0xFF;
    assert From(4) == 0xFFF;
  }

  lemma BitPlaces(k: nat)
    requires k < 16
    ensures k > 0 ==> Bit(k) & 0x8000 == 0 && Bit(k - 1) == Bit(k) << 1
    ensures k == 0 ==> Bit(k) == 0x8000
    ensures k < 8 ==> Bit(k) & 0xFF == 0 && Bit(k) == Bit(k + 8) << 8
    ensures k >= 8 ==> Bit(k) & 0xFF00 == 0
  {
    BitsAre();
    hide Bit;
  }

  lemma ShiftedBit(w: bv16, b: bv16)
    requires b & 0x8000 == 0
    ensures Meets(Shl1(w), b << 1) <==> Meets(w, b)
  {
  }

  lemma TopBit(w: bv16)
    ensures Msb(w) <==> Meets(w, 0x8000)
  {
  }

  lemma {:induction false} BitAt(w: bv16, n: nat, k: nat)
    requires k < n <= 16
    ensures TopBits(Shl1, Msb, w, n)[k] <==> Meets(w, Bit(k))
    decreases k
  {
    hide Shl1, Msb, TopBits, Bit, Meets;
    TopBitsNext(w, n);
    BitPlaces(k);
    if k == 0 {
      TopBit(w);
    } else {
      BitAt(Shl1(w), n - 1, k - 1);
      ShiftedBit(w, Bit(k));
    }
  }

  lemma OverHigh(u: bv16, v: bv16, b: bv16)
    requires v <= 0xFF && b & 0xFF == 0
    ensures Meets(u | v, b) <==> Meets(u, b)
  {
  }

  lemma OverLow(u: bv16, v: bv16, b: bv16)
    requires u & 0xFF == 0 && b & 0xFF00 == 0
    ensures Meets(u | v, b) <==> Meets(v << 8, b << 8)
  {
  }

  lemma PairTop(x: byte, y: byte, b: bv16)
    requires b & 0xFF == 0
    ensures Meets(Pair(x, y), b) <==> Meets(Word(x), b)
  {
    hide Meets, Low, Word;
    LowAndWord(y);
    OverHigh(Word(x), Low(y), b);
  }

  lemma PairBottom(x: byte, y: byte, b: bv16)
    requires b & 0xFF00 == 0
    ensures Meets(Pair(x, y), b) <==> Meets(Word(y), b << 8)
  {
    hide Meets, Low, Word;
    LowAndWord(x);
    ShiftedLow(Low(x));
    LowAndWord(y);
    OverLow(Word(x), Low(y), b);
  }

  lemma PairBit(x: byte, y: byte, k: nat)
    requires k < 16
    ensures Meets(Pair(x, y), Bit(k)) <==> if k < 8 then Meets(Word(x), Bit(k)) else Meets(Word(y), Bit(k - 8))
  {
    hide Bit, Meets, Pair, Word;
    BitPlaces(k);
    if k < 8 {
      PairTop(x, y, Bit(k));
    } else {
      BitPlaces(k - 8);
      PairBottom(x, y, Bit(k));
    }
  }

  lemma PairBits(t: seq<byte>)
    requires |t| == 2
    ensures Bits(t) == WordBits(Pair(t[0], t[1]))
  {
    hide Bits, TopBits, Bit, Shl1, Msb, Meets, Pair, Word;
    BitsOfTwo(t);
    var w := Pair(t[0], t[1]);
    forall k: nat | k < 16 ensures Bits(t)[k] == WordBits(w)[k] {
      BitAt(w, 16, k);
      PairBit(t[0], t[1], k);
      BitAt(Word(t[if k < 8 then 0 else 1]), 8, k % 8);
    }
  }

  // ----- the twelve patterns -----

  /** What comes back into the register for the bits `x` shifted out of it. */
  function Folded(x: bv16): bv16 {
    (x << 12) ^ (x << 5) ^ x
  }

  function Fold1(r: bv16): bv16 {
    (r << 1) ^ Folded(r >> 15)
  }

  function Fold2(r: bv16): bv16 {
    (r << 2) ^ Folded(r >> 14)
  }

  /** Four shifts at once. */
  function Fold4(r: bv16): bv16 {
    (r << 4) ^ Folded(r >> 12)
  }

  /** Sixteen shifts. */
  function Fold16(r: bv16): bv16 {
    Fold4(Fold4(Fold4(Fold4(r))))
  }

  function Swapped(c: bv16): bv16 {
    (c << 8) | (c >> 8)
  }

  /** A change of the last two body bytes and the change of the stored check that hides it. */
  predicate Escaping(v: bv16, c: bv16) {
    || (v == 0x0001 && c == 0x1021) || (v == 0x0002 && c == 0x2042) || (v == 0x0003 && c == 0x3063)
    || (v == 0x0004 && c == 0x4084) || (v == 0x0005 && c == 0x50A5) || (v == 0x0006 && c == 0x60C6)
    || (v == 0x0007 && c == 0x70E7) || (v == 0x0089 && c == 0x00A1) || (v == 0x0235 && c == 0x0094)
    || (v == 0x08C5 && c == 0x0040) || (v == 0x118A && c == 0x0080) || (v == 0x194F && c == 0x00C0)
  }

  /** Every bit of `s` is higher than the highest bit of `v`. */
  predicate Separate(v: bv16, s: bv16) {
    && (Meets(v, 0x8000) ==> !Meets(s, 0xFFFF)) && (Meets(v, 0x4000) ==> !Meets(s, 0x7FFF))
    && (Meets(v, 0x2000) ==> !Meets(s, 0x3FFF)) && (Meets(v, 0x1000) ==> !Meets(s, 0x1FFF))
    && (Meets(v, 0x0800) ==> !Meets(s, 0x0FFF)) && (Meets(v, 0x0400) ==> !Meets(s, 0x07FF))
    && (Meets(v, 0x0200) ==> !Meets(s, 0x03FF)) && (Meets(v, 0x0100) ==> !Meets(s, 0x01FF))
    && (Meets(v, 0x0080) ==> !Meets(s, 0x00FF)) && (Meets(v, 0x0040) ==> !Meets(s, 0x007F))
    && (Meets(v, 0x0020) ==> !Meets(s, 0x003F)) && (Meets(v, 0x0010) ==> !Meets(s, 0x001F))
    && (Meets(v, 0x0008) ==> !Meets(s, 0x000F)) && (Meets(v, 0x0004) ==> !Meets(s, 0x0007))
    && (Meets(v, 0x0002) ==> !Meets(s, 0x0003)) && (Meets(v, 0x0001) ==> !Meets(s, 0x0001))
  }

  lemma NoOthers(v: bv16, c: bv16)
    requires v != 0 && Separate(v, Swapped(c)) && c == Fold16(v)
    ensures Escaping(v, c)
  {
  }

  lemma AllEscape(v: bv16, c: bv16)
    requires Escaping(v, c)
    ensures c == Fold16(v) && c != 0
  {
  }

  lemma CarryFolds(r: bv16)
    requires Msb(r)
    ensures Fold1(r) == (r << 1) ^ 0x1021
  {
  }

  lemma NoCarryFolds(r: bv16)
    requires !Msb(r)
    ensures Fold1(r) == r << 1
  {
  }

  lemma StepFolds(r: bv16)
    ensures Step(r) == Fold1(r)
  {
    hide Fold1, Msb;
    if Msb(r) {
      CarryFolds(r);
    } else {
      NoCarryFolds(r);
    }
  }

  lemma FoldTwice(r: bv16)
    ensures Fold1(Fold1(r)) == Fold2(r)
  {
  }

  lemma FoldFour(r: bv16)
    ensures Fold2(Fold2(r)) == Fold4(r)
  {
  }

  lemma FourFold(v: bv16)
    ensures REG.Steps(v, 4) == Fold4(v)
  {
    hide Register.Steps, Step, Fold1, Fold2, Fold4;
    FourSteps(v);
    StepFolds(v);
    StepFolds(Fold1(v));
    FoldTwice(v);
    StepFolds(Fold2(v));
    StepFolds(Fold1(Fold2(v)));
    FoldTwice(Fold2(v));
    FoldFour(v);
  }

  lemma SixteenSteps(v: bv16)
    ensures REG.Steps(v, 16) == Fold16(v)
  {
    hide Register.Steps, Fold4;
    StepsAdd(v, 4, 12);
    StepsAdd(Fold4(v), 4, 8);
    StepsAdd(Fold4(Fold4(v)), 4, 4);
    FourFold(v);
    FourFold(Fold4(v));
    FourFold(Fold4(Fold4(v)));
    FourFold(Fold4(Fold4(Fold4(v))));
  }

  lemma Disjoint(s: bv16, x: bv16, y: bv16)
    requires !Meets(s, x) && !Meets(s, y)
    ensures !Meets(s, x | y)
  {
  }

  lemma MeetsNothing(s: bv16)
    ensures !Meets(s, 0)
  {
  }

  lemma {:induction false} ClearFrom(s: bv16, k: nat)
    requires k <= 16 && forall l: nat :: k <= l < 16 ==> !Meets(s, Bit(l))
    ensures !Meets(s, From(k))
    decreases 16 - k
  {
    hide Bit, Meets;
    if k == 16 {
      MeetsNothing(s);
    } else {
      ClearFrom(s, k + 1);
      Disjoint(s, From(k + 1), Bit(k));
    }
  }

  lemma Separated(v: bv16, s: bv16)
    requires forall k: nat, l: nat :: k < 16 && l < 16 && Meets(v, Bit(k)) && Meets(s, Bit(l)) ==> l < k
    ensures Separate(v, s)
  {
    hide Bit, From, Meets;
    forall k: nat | k < 16 && Meets(v, Bit(k)) ensures !Meets(s, From(k)) {
      ClearFrom(s, k);
    }
    BitsAre();
    FromAre();
  }

  // ----- frames -----

  /** The last two bytes of the body, as a word. */
  function Tail(raw: seq<byte>): bv16
    requires |raw| >= OVERHEAD
  {
    Pair(raw[|raw| - 4], raw[|raw| - 3])
  }

  function StoredCheck(raw: seq<byte>): bv16
    requires |raw| >= OVERHEAD
  {
    Stored(raw[|raw| - 2], raw[|raw| - 1])
  }

  lemma WordBitsDiff(u: bv16, v: bv16)
    ensures Diff(WordBits(u), WordBits(v)) == WordBits(Xor(u, v))
  {
    hide Xor, Shl1, Msb, TopBits;
    TopBitsDiff(u, v, 16);
  }

  /** The check of two bytes is that of their word, shifted sixteen times. */
  lemma WordShifts(v: bv16)
    ensures REG.ShiftAll(0, WordBits(v)) == REG.Steps(v, 16)
  {
    hide Step, Xor, Msb, Shl1, TopBits, Shl, Register.Steps, Register.Shift, Register.ShiftAll;
    forall a, b ensures REG.step(REG.add(a, b)) == REG.add(REG.Shift(a, Msb(b)), Shl1(b)) {
      StepTop(a, b);
    }
    WordIsBits(REG, Shl1, Msb, 0, v, 16);
    AllShiftedOut(v);
    XorClear(REG.ShiftAll(0, WordBits(v)));
    XorSelf(0, v);
  }

  lemma AllShiftedOut(v: bv16)
    ensures Shl(Shl1, v, 16) == 0
  {
    hide Shl, Shl1;
    ShlTwice(v, 8, 8);
    ShlEight(v);
    ShlEight(v << 8);
    NothingRemains(v);
  }

  lemma {:induction false} ShlTwice(v: bv16, a: nat, b: nat)
    ensures Shl(Shl1, v, a + b) == Shl(Shl1, Shl(Shl1, v, a), b)
    decreases a
  {
    hide Shl, Shl1;
    if a == 0 {
      NoneShifted(v);
    } else {
      TopBitsNext(v, a + b);
      TopBitsNext(v, a);
      ShlTwice(Shl1(v), a - 1, b);
    }
  }

  lemma NoneShifted(v: bv16)
    ensures Shl(Shl1, v, 0) == v
  {
  }

  lemma NothingRemains(v: bv16)
    ensures (v << 8) << 8 == 0
  {
  }

  /** How the check of a message changes with its last two bytes. */
  lemma TailChangesCrc(pre: seq<byte>, s: seq<byte>, t: seq<byte>)
    requires |s| == |t| == 2
    ensures Xor(Crc(INIT, pre + s), Crc(INIT, pre + t)) == Fold16(Xor(Pair(s[0], s[1]), Pair(t[0], t[1])))
  {
    hide Step, Xor, Crc, Bits, Register.Steps, Register.ShiftAll, Pair, WordBits, Fold16;
    var r := Crc(INIT, pre);
    CrcConcat(INIT, pre, s);
    CrcConcat(INIT, pre, t);
    CrcIsBitSerial(r, s);
    CrcIsBitSerial(r, t);
    LinearRegister();
    DifferenceLaw(REG, r, r, Bits(s), Bits(t));
    XorSelf(r, 0);
    PairBits(s);
    PairBits(t);
    var u, v := Pair(s[0], s[1]), Pair(t[0], t[1]);
    WordBitsDiff(u, v);
    WordShifts(Xor(u, v));
    SixteenSteps(Xor(u, v));
  }

  /** Only the last four bytes differ. */
  ghost predicate SameHead(a: seq<byte>, b: seq<byte>) {
    |a| == |b| >= OVERHEAD && a[..|a| - 4] == b[..|a| - 4]
  }

  lemma SameHeadParts(a: seq<byte>, b: seq<byte>) returns (pre: seq<byte>, s: seq<byte>, t: seq<byte>)
    requires SameHead(a, b)
    ensures Body(a) == pre + s && Body(b) == pre + t && |s| == |t| == 2
    ensures Tail(a) == Pair(s[0], s[1]) && Tail(b) == Pair(t[0], t[1])
  {
    var m := |a| - 4;
    pre, s, t := a[..m], a[m..m + 2], b[m..m + 2];
    assert a[..m + 2] == pre + s && b[..m + 2] == pre + t;
  }

  lemma IntactAfterTail(a: seq<byte>, b: seq<byte>)
    requires Intact(a) && SameHead(a, b)
    ensures Intact(b) <==> Xor(StoredCheck(a), StoredCheck(b)) == Fold16(Xor(Tail(a), Tail(b)))
  {
    var pre, s, t := SameHeadParts(a, b);
    hide Xor, Crc, Stored, Fold16, Pair, Tail, Intact, Body;
    TailChangesCrc(pre, s, t);
    IntactByDifference(a, b);
  }

  /** Each of the twelve patterns goes undetected, in every frame. */
  lemma PatternsEscape(a: seq<byte>, b: seq<byte>)
    requires Intact(a) && SameHead(a, b) && Escaping(Xor(Tail(a), Tail(b)), Xor(StoredCheck(a), StoredCheck(b)))
    ensures Intact(b) && a != b
  {
    hide Xor, Fold16, Tail, StoredCheck, Escaping, Intact;
    IntactAfterTail(a, b);
    AllEscape(Xor(Tail(a), Tail(b)), Xor(StoredCheck(a), StoredCheck(b)));
    XorSelf(StoredCheck(a), 0);
  }

  // ----- bursts -----

  lemma SwappedStored(lo: byte, hi: byte)
    ensures Pair(lo, hi) == Swapped(Stored(lo, hi))
  {
    ByteAsWord(lo);
    ByteAsWord(hi);
    SwappedWords(lo as bv16, hi as bv16);
  }

  lemma SwappedWords(lo: bv16, hi: bv16)
    requires lo <= 0xFF && hi <= 0xFF
    ensures (lo << 8) | hi == Swapped(lo | (hi << 8))
  {
  }

  lemma SwappedXor(u: bv16, v: bv16)
    ensures Xor(Swapped(u), Swapped(v)) == Swapped(Xor(u, v))
  {
  }

  /** The differing bits of the last two body bytes, and of the check. */
  lemma LastBits(a: seq<byte>, b: seq<byte>)
    requires |a| == |b| >= OVERHEAD
    ensures var n := 8 * (|a| - 4);
            && Differ(a, b)[..n] == Differ(a[..|a| - 4], b[..|a| - 4])
            && Differ(a, b)[n..n + 16] == WordBits(Xor(Tail(a), Tail(b)))
            && Differ(a, b)[n + 16..] == WordBits(Swapped(Xor(StoredCheck(a), StoredCheck(b))))
  {
    hide Bits, WordBits, Pair, Xor, Swapped, Stored;
    var m := |a| - 4;
    var s, t := a[m..m + 2], b[m..m + 2];
    var u, v := a[m + 2..], b[m + 2..];
    assert a == a[..m] + (s + u) && b == b[..m] + (t + v);
    BitsConcat(a[..m], s + u);
    BitsConcat(s, u);
    BitsConcat(b[..m], t + v);
    BitsConcat(t, v);
    DiffConcat(Bits(a[..m]), Bits(s + u), Bits(b[..m]), Bits(t + v));
    DiffConcat(Bits(s), Bits(u), Bits(t), Bits(v));
    PairBits(s);
    PairBits(t);
    PairBits(u);
    PairBits(v);
    WordBitsDiff(Tail(a), Tail(b));
    SwappedStored(u[0], u[1]);
    SwappedStored(v[0], v[1]);
    WordBitsDiff(Pair(u[0], u[1]), Pair(v[0], v[1]));
    SwappedXor(StoredCheck(a), StoredCheck(b));
  }

  lemma CheckUntouched(a: seq<byte>, b: seq<byte>, from: nat)
    requires |a| >= OVERHEAD && BurstError(a, b, from) && from + 16 <= 8 * (|a| - TRAILER)
    ensures Check(a) == Check(b)
  {
    hide Bits;
    FrameBits(a, b);
    var n := 8 * (|a| - TRAILER);
    assert AllClear(Differ(Check(a), Check(b))) by {
      assert forall l: nat :: l < 16 ==> Differ(a, b)[n..][l] == Differ(a, b)[n + l];
    }
    NoDifference(Check(a), Check(b));
  }

  lemma BurstInBody(a: seq<byte>, b: seq<byte>, from: nat)
    requires |a| >= OVERHEAD && BurstError(a, b, from) && Body(a) != Body(b)
    ensures BurstError(Body(a), Body(b), from)
  {
    hide Bits;
    FrameBits(a, b);
    var n := 8 * (|a| - TRAILER);
    assert forall i: nat :: i < n ==> Differ(Body(a), Body(b))[i] == Differ(a, b)[i];
  }

  /** A burst that starts too early to reach the check is one in the body. */
  lemma EarlyBurst(a: seq<byte>, b: seq<byte>, from: nat)
    requires Intact(a) && BurstError(a, b, from) && from + 16 <= 8 * (|a| - TRAILER)
    ensures !Intact(b) && StoredCheck(a) == StoredCheck(b)
  {
    IntactSize(a);
    BurstSize(a, b, from);
    hide Bits, Crc, Intact, BurstError, Stored, Body, Check;
    CheckUntouched(a, b, from);
    BodyDiffers(a, b);
    BurstInBody(a, b, from);
    IsBodyBurst(a, b, from);
    hide BodyBurst;
    BodyBurstDetected(a, b, from);
  }

  lemma IsBodyBurst(a: seq<byte>, b: seq<byte>, from: nat)
    requires |a| == |b| >= OVERHEAD && Check(a) == Check(b) && BurstError(Body(a), Body(b), from)
    ensures BodyBurst(a, b, from)
  {
    hide Bits, BurstError;
    assert a[|a| - 2..] == Check(a) && b[|b| - 2..] == Check(b);
  }

  lemma BodyDiffers(a: seq<byte>, b: seq<byte>)
    requires |a| == |b| >= OVERHEAD && Check(a) == Check(b) && a != b
    ensures Body(a) != Body(b) && Stored(a[|a| - 2], a[|a| - 1]) == Stored(b[|b| - 2], b[|b| - 1])
  {
    hide Stored;
    BodySize(a);
    BodySize(b);
  }

  /** One that reaches it leaves all but the last four bytes alone, and keeps its bits together. */
  lemma LateBurst(a: seq<byte>, b: seq<byte>, from: nat)
    requires |a| >= OVERHEAD && BurstError(a, b, from) && from + 16 > 8 * (|a| - TRAILER)
    ensures SameHead(a, b)
    ensures Separate(Xor(Tail(a), Tail(b)), Swapped(Xor(StoredCheck(a), StoredCheck(b))))
  {
    hide Bits, Xor, Swapped, Tail, StoredCheck, WordBits, Separate, Bit, Meets;
    var n := 8 * (|a| - 4);
    var e := Differ(a, b);
    LastBits(a, b);
    assert AllClear(Differ(a[..|a| - 4], b[..|a| - 4])) by {
      assert forall i: nat :: i < n ==> e[..n][i] == e[i];
    }
    NoDifference(a[..|a| - 4], b[..|a| - 4]);
    var v, s := Xor(Tail(a), Tail(b)), Swapped(Xor(StoredCheck(a), StoredCheck(b)));
    forall k: nat, l: nat | k < 16 && l < 16 && Meets(v, Bit(k)) && Meets(s, Bit(l)) ensures l < k {
      SetBit(v, k);
      SetBit(s, l);
      assert e[n..n + 16][k] == e[n + k] && e[n + 16..][l] == e[n + 16 + l];
    }
    Separated(v, s);
  }

  lemma SetBit(w: bv16, k: nat)
    requires k < 16
    ensures WordBits(w)[k] <==> Meets(w, Bit(k))
  {
    hide Bit, Meets, TopBits;
    BitAt(w, 16, k);
  }

  lemma TailsDiffer(a: seq<byte>, b: seq<byte>)
    requires SameHead(a, b) && a != b
    ensures Xor(Tail(a), Tail(b)) != 0 || Xor(StoredCheck(a), StoredCheck(b)) != 0
  {
    hide Bits, Xor, Swapped, Tail, StoredCheck, WordBits;
    LastBits(a, b);
    if Xor(Tail(a), Tail(b)) == 0 && Xor(StoredCheck(a), StoredCheck(b)) == 0 {
      var n := 8 * (|a| - 4);
      var e := Differ(a, b);
      NoBitsOfZero();
      NoOwnDifferences(a[..|a| - 4]);
      assert e == e[..n] + (e[n..n + 16] + e[n + 16..]);
      NoDifference(a, b);
    }
  }

  lemma NoOwnDifferences(x: seq<byte>)
    ensures AllClear(Differ(x, x))
  {
    hide Bits;
  }

  lemma NoBitsOfZero()
    ensures AllClear(WordBits(0)) && Swapped(0) == 0
  {
    hide Xor, WordBits;
    WordBitsDiff(0, 0);
    XorSelf(0, 0);
  }

  /**
   * A burst of up to 16 bits anywhere in a frame goes undetected if and only if it is one of
   * twelve, all of which run from the end of the body into the stored check.
   */
  lemma BurstEscapesExactly(a: seq<byte>, b: seq<byte>, from: nat)
    requires Intact(a) && BurstError(a, b, from)
    ensures Intact(b) <==> Escaping(Xor(Tail(a), Tail(b)), Xor(StoredCheck(a), StoredCheck(b)))
  {
    hide BurstError, Xor, Tail, StoredCheck, Escaping, Separate, Fold16, Swapped, Intact;
    IntactSize(a);
    BurstSize(a, b, from);
    var v, c := Xor(Tail(a), Tail(b)), Xor(StoredCheck(a), StoredCheck(b));
    XorSelf(StoredCheck(a), 0);
    ZeroFolds();
    if Escaping(v, c) {
      AllEscape(v, c);
    }
    if from + 16 <= 8 * (|a| - TRAILER) {
      EarlyBurst(a, b, from);
    } else {
      LateBurst(a, b, from);
      IntactAfterTail(a, b);
      TailsDiffer(a, b);
      if v != 0 && c == Fold16(v) {
        NoOthers(v, c);
      }
    }
  }

  lemma BurstSize(a: seq<byte>, b: seq<byte>, from: nat)
    requires BurstError(a, b, from)
    ensures |a| == |b| && a != b
  {
  }

  lemma ZeroFolds()
    ensures Fold16(0) == 0
  {
  }
}
