/**
 * What the frame check guarantees against few errors: up to three flipped bits anywhere in
 * a frame, its own check included, are detected as long as the frame is shorter than the
 * register's period.
 */
module ErrorBound {
  import opened Bytes
  import opened ShiftRegister
  import opened Crc16
  import opened CrcOrder
  import opened Frame
  import Cobs

  // ----- where the errors are -----

  lemma {:induction false} NoOnes(e: seq<bool>)
    requires Ones(e) == 0
    ensures OnesAt(e, {})
  {
    if e != [] {
      NoOnes(e[1..]);
      assert forall i: nat :: 0 < i < |e| ==> e[i] == e[1..][i - 1];
    }
  }

  lemma {:induction false} OneOne(e: seq<bool>) returns (i: nat)
    requires Ones(e) == 1
    ensures i < |e| && OnesAt(e, {i})
  {
    assert forall k: nat :: 0 < k < |e| ==> e[k] == e[1..][k - 1];
    if e[0] {
      NoOnes(e[1..]);
      i := 0;
    } else {
      i := OneOne(e[1..]);
      i := i + 1;
    }
  }

  lemma {:induction false} TwoOnes(e: seq<bool>) returns (i: nat, j: nat)
    requires Ones(e) == 2
    ensures i < j < |e| && OnesAt(e, {i, j})
  {
    assert forall k: nat :: 0 < k < |e| ==> e[k] == e[1..][k - 1];
    if e[0] {
      var k := OneOne(e[1..]);
      i, j := 0, k + 1;
    } else {
      i, j := TwoOnes(e[1..]);
      i, j := i + 1, j + 1;
    }
  }

  // ----- a flipped bit of the stored check -----

  lemma {:induction false} TopBitsDiff(u: bv16, v: bv16, n: nat)
    ensures TopBits(Shl1, Msb, Xor(u, v), n) == Diff(TopBits(Shl1, Msb, u, n), TopBits(Shl1, Msb, v, n))
    decreases n
  {
    hide Xor, Shl1, Msb, TopBits;
    if n == 0 {
      NoBits(u, v);
    } else {
      ShlXor(u, v);
      MsbXor(u, v);
      TopBitsNext(u, n);
      TopBitsNext(v, n);
      TopBitsNext(Xor(u, v), n);
      TopBitsDiff(Shl1(u), Shl1(v), n - 1);
      DiffConcat([Msb(u)], TopBits(Shl1, Msb, Shl1(u), n - 1), [Msb(v)], TopBits(Shl1, Msb, Shl1(v), n - 1));
      assert Diff([Msb(u)], [Msb(v)]) == [Msb(u) != Msb(v)];
    }
  }

  lemma NoBits(u: bv16, v: bv16)
    ensures TopBits(Shl1, Msb, Xor(u, v), 0) == Diff(TopBits(Shl1, Msb, u, 0), TopBits(Shl1, Msb, v, 0))
  {
  }

  lemma ShiftedOut(v: bv16)
    ensures !Msb(v) && Shl1(v) == 0 ==> v == 0
    ensures Msb(v) && Shl1(v) == 0 ==> v == 0x8000
    ensures !Msb(v) ==> Step(v) == Shl1(v)
  {
  }

  lemma TopBitsNext(v: bv16, n: nat)
    requires n > 0
    ensures TopBits(Shl1, Msb, v, n) == [Msb(v)] + TopBits(Shl1, Msb, Shl1(v), n - 1)
    ensures Shl(Shl1, v, n) == Shl(Shl1, Shl1(v), n - 1)
  {
    hide Shl1, Msb;
  }

  lemma OnesTail(b: bool, e: seq<bool>, p: nat)
    requires OnesAt([b] + e, {p})
    ensures if p == 0 then b && AllClear(e) else !b && OnesAt(e, {p - 1})
  {
    var all := [b] + e;
    assert all[0] == b;
    forall k: nat | k < |e|
      ensures e[k] <==> k + 1 == p
    {
      assert all[k + 1] == e[k];
    }
  }

  lemma ClearTail(b: bool, e: seq<bool>)
    requires AllClear([b] + e)
    ensures !b && AllClear(e)
  {
    assert ([b] + e)[0] == b && forall k: nat :: k < |e| ==> ([b] + e)[k + 1] == e[k];
  }

  lemma {:induction false} NoTopBits(v: bv16, n: nat)
    requires AllClear(TopBits(Shl1, Msb, v, n)) && Shl(Shl1, v, n) == 0
    ensures v == 0
    decreases n
  {
    hide Shl1, Msb, Step, TopBits, AllClear;
    if n > 0 {
      TopBitsNext(v, n);
      ClearTail(Msb(v), TopBits(Shl1, Msb, Shl1(v), n - 1));
      NoTopBits(Shl1(v), n - 1);
      ShiftedOut(v);
    }
  }

  /** A word with one bit, the one at `p` from the top, is a power of x. */
  lemma {:induction false} OneTopBit(v: bv16, n: nat, p: nat)
    requires p < n <= 16 && OnesAt(TopBits(Shl1, Msb, v, n), {p}) && Shl(Shl1, v, n) == 0
    ensures v == X(15 - p)
    decreases n
  {
    hide Shl1, Msb, Step, X, Register.Steps, TopBits, Shl, OnesAt, AllClear;
    TopBitsNext(v, n);
    OnesTail(Msb(v), TopBits(Shl1, Msb, Shl1(v), n - 1), p);
    ShiftedOut(v);
    if p == 0 {
      NoTopBits(Shl1(v), n - 1);
      TopWord();
    } else {
      OneTopBit(Shl1(v), n - 1, p - 1);
      NextPower(15 - p);
      StepOnly(v, X(15 - p));
    }
  }

  lemma StepOnly(u: bv16, v: bv16)
    ensures Step(u) == Step(v) <==> u == v
  {
    hide Step, Register.Steps;
    StepsInjective(u, v, 1);
    OneStep(u);
    OneStep(v);
  }

  /** Flipping one bit of a byte changes its place in the register by one power of x. */
  lemma ByteFlip(x: byte, y: byte, p: nat)
    requires p < 8 && OnesAt(Diff(ByteBits(x), ByteBits(y)), {p})
    ensures Xor(Word(x), Word(y)) == X(15 - p)
  {
    hide Xor, Shl1, Msb, X, TopBits, Shl, OnesAt, Word;
    TopBitsDiff(Word(x), Word(y), 8);
    WordsShiftOut(x, y);
    OneTopBit(Xor(Word(x), Word(y)), 8, p);
  }

  lemma WordsShiftOut(x: byte, y: byte)
    ensures Shl(Shl1, Xor(Word(x), Word(y)), 8) == 0
  {
    hide Shl, Shl1;
    ShlEight(Xor(Word(x), Word(y)));
    WordsXor(x as bv16, y as bv16);
  }

  lemma WordsXor(u: bv16, v: bv16)
    ensures ((u << 8) ^ (v << 8)) << 8 == 0
  {
  }

  /** A small word is shifted eight places without reduction. */
  lemma SmallShifts(v: bv16)
    requires v <= 0xFF
    ensures REG.Steps(v, 8) == v << 8
  {
    hide Register.Steps;
    StepsAdd(v, 4, 4);
    FourSteps(v);
    FourSteps(v << 4);
    FourPlain(v);
    FourPlain(v << 4);
  }

  lemma FourSteps(v: bv16)
    ensures REG.Steps(v, 4) == Step(Step(Step(Step(v))))
  {
    hide Step;
    OneMoreStep(v, 4);
    OneMoreStep(Step(v), 3);
    OneMoreStep(Step(Step(v)), 2);
    OneMoreStep(Step(Step(Step(v))), 1);
    NoMoreSteps(Step(Step(Step(Step(v)))));
  }

  lemma FourPlain(v: bv16)
    requires v <= 0x0FFF
    ensures Step(Step(Step(Step(v)))) == v << 4
  {
  }

  lemma LowByteFlip(x: byte, y: byte, p: nat)
    requires p < 8 && OnesAt(Diff(ByteBits(x), ByteBits(y)), {p})
    ensures Xor(x as bv16, y as bv16) == X(7 - p)
  {
    hide OnesAt, ByteBits, Register.Steps, Xor, X, Word;
    ByteFlip(x, y, p);
    ByteAsWord(x);
    ByteAsWord(y);
    WordIs(x);
    WordIs(y);
    assert 15 - p == (7 - p) + 8;
    EightLower(x as bv16, y as bv16, 7 - p);
  }

  lemma WordIs(b: byte)
    ensures Word(b) == (b as bv16) << 8
  {
  }

  lemma EightLower(u: bv16, v: bv16, k: nat)
    requires u <= 0xFF && v <= 0xFF && Xor(u << 8, v << 8) == X(k + 8)
    ensures Xor(u, v) == X(k)
  {
    hide Register.Steps, Xor;
    SmallXor(u, v);
    SmallShifts(Xor(u, v));
    StepsAdd(1, k, 8);
    StepsInjective(Xor(u, v), X(k), 8);
  }

  lemma SmallXor(u: bv16, v: bv16)
    requires u <= 0xFF && v <= 0xFF
    ensures Xor(u, v) <= 0xFF && Xor(u, v) << 8 == Xor(u << 8, v << 8)
  {
  }

  lemma StoredXor(lo: byte, hi: byte, lo2: byte, hi2: byte)
    ensures Xor(Stored(lo, hi), Stored(lo2, hi2)) == Xor(Xor(lo as bv16, lo2 as bv16), Xor(Word(hi), Word(hi2)))
  {
    ByteAsWord(lo);
    ByteAsWord(hi);
    ByteAsWord(lo2);
    ByteAsWord(hi2);
    StoredXorWords(lo as bv16, hi as bv16, lo2 as bv16, hi2 as bv16);
  }

  lemma StoredXorWords(lo: bv16, hi: bv16, lo2: bv16, hi2: bv16)
    requires lo <= 0xFF && hi <= 0xFF && lo2 <= 0xFF && hi2 <= 0xFF
    ensures (lo | (hi << 8)) ^ (lo2 | (hi2 << 8)) == (lo ^ lo2) ^ ((hi << 8) ^ (hi2 << 8))
  {
  }

  lemma XorSelf(v: bv16, w: bv16)
    ensures Xor(v, v) == 0 && Xor(0, w) == w && Xor(w, 0) == w
  {
  }

  /** The power of x at bit `p` of the stored check, whose low byte comes first. */
  function CheckPower(p: nat): nat
    requires p < 16
  {
    if p < 8 then 7 - p else 23 - p
  }

  /** Flipping one bit of the stored check changes it by one power of x, below the sixteenth. */
  lemma StoredFlip(lo: byte, hi: byte, lo2: byte, hi2: byte, p: nat)
    requires p < 16 && OnesAt(Diff(Bits([lo, hi]), Bits([lo2, hi2])), {p})
    ensures Xor(Stored(lo, hi), Stored(lo2, hi2)) == X(CheckPower(p))
  {
    hide X, Xor, Stored, Word, ByteBits, Bits;
    BitsOfTwo([lo, hi]);
    BitsOfTwo([lo2, hi2]);
    StoredXor(lo, hi, lo2, hi2);
    XorSelf(lo as bv16, Xor(Word(hi), Word(hi2)));
    XorSelf(Word(hi), Xor(lo as bv16, lo2 as bv16));
    DiffOfTwo(ByteBits(lo), ByteBits(hi), ByteBits(lo2), ByteBits(hi2), p);
    if p < 8 {
      SameByte(hi, hi2);
      LowByteFlip(lo, lo2, p);
    } else {
      SameByte(lo, lo2);
      ByteFlip(hi, hi2, p - 8);
    }
  }

  lemma DiffOfTwo(a: seq<bool>, b: seq<bool>, c: seq<bool>, d: seq<bool>, p: nat)
    requires |a| == |b| == |c| == |d| == 8 && p < 16 && OnesAt(Diff(a + b, c + d), {p})
    ensures p < 8 ==> OnesAt(Diff(a, c), {p}) && b == d
    ensures p >= 8 ==> a == c && OnesAt(Diff(b, d), {p - 8})
  {
    var e := Diff(a + b, c + d);
    assert e[..8] == Diff(a, c) && e[8..] == Diff(b, d);
    OneSliced(e, p, 8);
    SameBits(a, c);
    SameBits(b, d);
  }

  lemma SameBits(x: seq<bool>, y: seq<bool>)
    requires |x| == |y|
    ensures AllClear(Diff(x, y)) ==> x == y
  {
  }

  lemma OneSliced(e: seq<bool>, p: nat, n: nat)
    requires n <= |e| && OnesAt(e, {p})
    ensures if p < n then OnesAt(e[..n], {p}) && AllClear(e[n..]) else AllClear(e[..n]) && OnesAt(e[n..], {p - n})
  {
    forall k: nat | k < |e| - n
      ensures e[n..][k] <==> n + k == p
    {
      assert e[n..][k] == e[n + k];
    }
  }

  lemma SameByte(x: byte, y: byte)
    ensures ByteBits(x) == ByteBits(y) ==> x == y
  {
    hide ByteBits;
    if ByteBits(x) == ByteBits(y) {
      ByteBitsInjective(x, y);
    }
  }

  // ----- two flipped bits of a frame -----

  /** Powers of x a whole number of turns apart. */
  predicate Cancels(p: nat, q: nat) {
    (p - q) % ORDER == 0
  }

  lemma PowersMeetExactly(t: nat, q: nat)
    requires q <= t
    ensures X(t) == X(q) <==> Cancels(t, q)
  {
    hide Register.Steps;
    StepsAdd(1, t - q, q);
    StepsInjective(X(t - q), 1, q);
    OneIsRestless();
    TurnExactly(1, t - q);
  }

  lemma OneFlipSteps(a: seq<byte>, b: seq<byte>, i: nat, r: bv16)
    requires i < 8 * |a| && FlippedAt(a, b, {i})
    ensures Xor(Crc(r, a), Crc(r, b)) == REG.Steps(0x8000, 8 * |a| - i)
  {
    hide Step, Xor, Crc, Bits, OnesAt, Register.Steps, Register.ShiftAll;
    LinearRegister();
    CrcIsBitSerial(r, a);
    CrcIsBitSerial(r, b);
    var x, y := Bits(a), Bits(b);
    DifferenceLaw(REG, r, r, x, y);
    XorSelf(r, 0);
    OneError(Diff(x, y), i);
  }

  lemma PowerFromTop(t: nat)
    ensures REG.Steps(0x8000, t) == X(15 + t)
  {
    hide Register.Steps;
    TopWord();
    StepsAdd(1, 15, t);
  }

  /** One flipped bit changes the check of a message by a power of x. */
  lemma OneFlip(a: seq<byte>, b: seq<byte>, i: nat, r: bv16)
    requires i < 8 * |a| && FlippedAt(a, b, {i})
    ensures Xor(Crc(r, a), Crc(r, b)) == X(15 + (8 * |a| - i))
  {
    hide Xor, Crc, Bits, OnesAt, Register.Steps, X, FlippedAt;
    OneFlipSteps(a, b, i, r);
    PowerFromTop(8 * |a| - i);
  }

  /** The differing bits of two frames, and those of their bodies and stored checks. */
  function Differ(a: seq<byte>, b: seq<byte>): (e: seq<bool>)
    requires |a| == |b|
    ensures |e| == 8 * |a|
  {
    Diff(Bits(a), Bits(b))
  }

  function Body(raw: seq<byte>): seq<byte>
    requires |raw| >= TRAILER
  {
    raw[..|raw| - TRAILER]
  }

  function Check(raw: seq<byte>): seq<byte>
    requires |raw| >= TRAILER
  {
    [raw[|raw| - 2], raw[|raw| - 1]]
  }

  lemma FrameBits(a: seq<byte>, b: seq<byte>)
    requires |a| == |b| >= TRAILER
    ensures var n := |a| - TRAILER;
            Differ(Body(a), Body(b)) == Differ(a, b)[..8 * n] && Differ(Check(a), Check(b)) == Differ(a, b)[8 * n..]
  {
    hide Bits;
    assert a == Body(a) + Check(a) && b == Body(b) + Check(b);
    BitsConcat(Body(a), Check(a));
    BitsConcat(Body(b), Check(b));
    DiffConcat(Bits(Body(a)), Bits(Check(a)), Bits(Body(b)), Bits(Check(b)));
  }

  lemma DiffConcat(x: seq<bool>, y: seq<bool>, u: seq<bool>, v: seq<bool>)
    requires |x| == |u| && |y| == |v|
    ensures Diff(x + y, u + v) == Diff(x, u) + Diff(y, v)
  {
  }

  lemma IntactIs(raw: seq<byte>)
    requires |raw| >= OVERHEAD
    ensures Intact(raw) <==> Stored(Check(raw)[0], Check(raw)[1]) == Crc(INIT, Body(raw))
  {
    hide Crc, Stored;
  }

  lemma SlicedOnes(e: seq<bool>, i: nat, j: nat, n: nat)
    requires i < j < |e| && OnesAt(e, {i, j}) && n <= |e|
    ensures j < n ==> OnesAt(e[..n], {i, j}) && AllClear(e[n..])
    ensures i < n <= j ==> OnesAt(e[..n], {i}) && OnesAt(e[n..], {j - n})
    ensures n <= i ==> AllClear(e[..n]) && e[i]
  {
    forall k: nat | k < |e| - n
      ensures e[n..][k] <==> n + k == i || n + k == j
    {
      assert e[n..][k] == e[n + k];
    }
  }

  lemma NoDifference(x: seq<byte>, y: seq<byte>)
    requires |x| == |y| && AllClear(Differ(x, y))
    ensures x == y
  {
    hide Bits;
    SameBits(Bits(x), Bits(y));
    BitsInjective(x, y);
  }

  lemma BodySize(raw: seq<byte>)
    requires |raw| >= TRAILER
    ensures |Body(raw)| == |raw| - TRAILER && |Check(raw)| == TRAILER && raw == Body(raw) + Check(raw)
  {
  }

  lemma BothInBody(a: seq<byte>, b: seq<byte>, i: nat, j: nat)
    requires Intact(a) && |a| == |b| && i < j < 8 * (|a| - TRAILER) && OnesAt(Differ(a, b), {i, j})
    ensures Intact(b) <==> (j - i) % ORDER == 0
  {
    IntactSize(a);
    hide Crc, Stored, Intact, OnesAt, AllClear, Body, Check, Bits;
    FrameBits(a, b);
    BodySize(a);
    BodySize(b);
    SlicedOnes(Differ(a, b), i, j, 8 * (|a| - TRAILER));
    NoDifference(Check(a), Check(b));
    TwoFlipsEscapeExactly(Body(a), Body(b), i, j, INIT);
    IntactIs(a);
    IntactIs(b);
  }

  lemma BothInTrailer(a: seq<byte>, b: seq<byte>, i: nat, j: nat)
    requires Intact(a) && |a| == |b| && 8 * (|a| - TRAILER) <= i < j < 8 * |a| && OnesAt(Differ(a, b), {i, j})
    ensures !Intact(b)
  {
    IntactSize(a);
    hide Differ, Intact, OnesAt, AllClear;
    FrameBits(a, b);
    SlicedOnes(Differ(a, b), i, j, 8 * (|a| - TRAILER));
    NoDifference(Body(a), Body(b));
    if a == b {
      NoOwnDifference(a, i);
    }
    TrailerOnlyDetected(a, b);
  }

  lemma NoOwnDifference(a: seq<byte>, i: nat)
    requires i < 8 * |a|
    ensures !Differ(a, a)[i]
  {
    hide Bits;
  }

  /** One flipped bit of the body and one of the stored check: how the two checks change. */
  lemma ChecksMeetExactly(x: seq<byte>, y: seq<byte>, s: seq<byte>, t: seq<byte>, i: nat, p: nat)
    requires |x| == |y| && |s| == |t| == TRAILER && i < 8 * |x| && p < 16
    requires OnesAt(Differ(x, y), {i}) && OnesAt(Differ(s, t), {p})
    ensures Xor(Crc(INIT, x), Crc(INIT, y)) == Xor(Stored(s[0], s[1]), Stored(t[0], t[1])) <==>
            Cancels(15 + (8 * |x| - i), CheckPower(p))
  {
    hide Bits, Crc, Stored, X, Xor, OnesAt, CheckPower, Cancels;
    var t0, t1 := 15 + (8 * |x| - i), CheckPower(p);
    assert Xor(Crc(INIT, x), Crc(INIT, y)) == X(t0) by { OneFlip(x, y, i, INIT); }
    assert Xor(Stored(s[0], s[1]), Stored(t[0], t[1])) == X(t1) by { CheckFlip(s, t, p); }
    CheckPowerSmall(p);
    PowersMeetExactly(t0, t1);
  }

  lemma CheckFlip(s: seq<byte>, t: seq<byte>, p: nat)
    requires |s| == |t| == TRAILER && p < 16 && OnesAt(Differ(s, t), {p})
    ensures Xor(Stored(s[0], s[1]), Stored(t[0], t[1])) == X(CheckPower(p))
  {
    hide Bits, Stored, X, Xor, OnesAt, CheckPower;
    assert s == [s[0], s[1]] && t == [t[0], t[1]];
    StoredFlip(s[0], s[1], t[0], t[1], p);
  }

  lemma CheckPowerSmall(p: nat)
    requires p < 16
    ensures CheckPower(p) < 16
  {
  }

  lemma OneFlipEach(a: seq<byte>, b: seq<byte>, i: nat, j: nat)
    requires |a| == |b| >= TRAILER && i < 8 * (|a| - TRAILER) <= j < 8 * |a| && OnesAt(Differ(a, b), {i, j})
    ensures OnesAt(Differ(Body(a), Body(b)), {i}) && OnesAt(Differ(Check(a), Check(b)), {j - 8 * (|a| - TRAILER)})
  {
    hide Differ, OnesAt, AllClear, Body, Check;
    BodySize(a);
    BodySize(b);
    FrameBits(a, b);
    SlicedOnes(Differ(a, b), i, j, 8 * (|a| - TRAILER));
  }

  lemma PartsMeetExactly(a: seq<byte>, b: seq<byte>, i: nat, j: nat)
    requires |a| == |b| >= TRAILER && i < 8 * (|a| - TRAILER) <= j < 8 * |a|
    requires OnesAt(Differ(Body(a), Body(b)), {i}) && OnesAt(Differ(Check(a), Check(b)), {j - 8 * (|a| - TRAILER)})
    ensures SameChange(a, b) <==> Cancels(Power(|a|, i), Power(|a|, j))
  {
    hide Differ, Crc, Stored, Xor, OnesAt, Cancels;
    ChecksMeetExactly(Body(a), Body(b), Check(a), Check(b), i, j - 8 * (|a| - TRAILER));
  }

  lemma OneInEach(a: seq<byte>, b: seq<byte>, i: nat, j: nat)
    requires Intact(a) && |a| == |b| && i < 8 * (|a| - TRAILER) <= j < 8 * |a| && OnesAt(Differ(a, b), {i, j})
    ensures Intact(b) <==> Cancels(Power(|a|, i), Power(|a|, j))
  {
    IntactSize(a);
    hide *;
    OneFlipEach(a, b, i, j);
    PartsMeetExactly(a, b, i, j);
    IntactByDifference(a, b);
  }

  /** Both checks, the computed and the stored one, change alike. */
  ghost predicate SameChange(a: seq<byte>, b: seq<byte>)
    requires |a| == |b| >= TRAILER
  {
    Xor(Crc(INIT, Body(a)), Crc(INIT, Body(b))) ==
    Xor(Stored(Check(a)[0], Check(a)[1]), Stored(Check(b)[0], Check(b)[1]))
  }

  /** A changed frame stays intact exactly if both its checks, computed and stored, change alike. */
  lemma IntactByDifference(a: seq<byte>, b: seq<byte>)
    requires |a| == |b| >= OVERHEAD && Intact(a)
    ensures Intact(b) <==> SameChange(a, b)
  {
    hide Crc, Stored, Intact, Body, Check, Xor;
    BodySize(a);
    BodySize(b);
    IntactIs(a);
    IntactIs(b);
    SameXor(Crc(INIT, Body(a)), Crc(INIT, Body(b)), Stored(Check(b)[0], Check(b)[1]));
  }

  lemma SameXor(u: bv16, v: bv16, w: bv16)
    ensures Xor(u, v) == Xor(u, w) <==> v == w
  {
  }

  /** The power of x by which a flipped bit of a frame of `size` bytes changes the difference of its two checks. */
  function Power(size: nat, i: nat): nat
    requires size >= TRAILER && i < 8 * size
  {
    var body := 8 * (size - TRAILER);
    if i < body then 15 + (body - i) else CheckPower(i - body)
  }

  /**
   * Two flipped bits of a frame of any length, wherever they are, go undetected if and only
   * if their powers are a multiple of 32767 apart.
   */
  lemma TwoFlipsIntactExactly(a: seq<byte>, b: seq<byte>, i: nat, j: nat)
    requires Intact(a) && |a| == |b| && i < j < 8 * |a| && OnesAt(Differ(a, b), {i, j})
    ensures Intact(b) <==> Cancels(Power(|a|, i), Power(|a|, j))
  {
    hide Differ, Intact, OnesAt;
    IntactSize(a);
    if j < 8 * (|a| - TRAILER) {
      BothInBody(a, b, i, j);
    } else if i >= 8 * (|a| - TRAILER) {
      BothInTrailer(a, b, i, j);
    } else {
      OneInEach(a, b, i, j);
    }
  }

  /** The bound of 4095 bytes is tight: in a frame of 4096 the first bit and the check's lowest cancel. */
  lemma TwoFlipsEscapeAt4096(a: seq<byte>, b: seq<byte>)
    requires Intact(a) && |a| == |b| == 4096 && OnesAt(Differ(a, b), {0, 8 * 4094 + 7})
    ensures Intact(b)
  {
    hide Differ, Intact, OnesAt;
    TwoFlipsIntactExactly(a, b, 0, 8 * 4094 + 7);
  }

  /** In a shorter frame no two powers meet. */
  lemma TwoFlipsDetected(a: seq<byte>, b: seq<byte>)
    requires Intact(a) && |a| == |b| <= 4095 && Ones(Differ(a, b)) == 2
    ensures !Intact(b)
  {
    hide Differ, Intact, OnesAt;
    IntactSize(a);
    var i, j := TwoOnes(Differ(a, b));
    TwoFlipsIntactExactly(a, b, i, j);
  }

  lemma IntactSize(raw: seq<byte>)
    requires Intact(raw)
    ensures |raw| >= OVERHEAD
  {
  }

  /**
   * No frame of up to 4095 bytes stays intact under one, two or three flipped bits anywhere
   * in it, the stored check included: intact frames of one length differ in at least four.
   */
  lemma FewFlipsDetected(a: seq<byte>, b: seq<byte>)
    requires Intact(a) && |a| == |b| <= 4095
    requires 1 <= Ones(Differ(a, b)) <= 3
    ensures !Intact(b)
  {
    hide Intact, Bits;
    if Ones(Differ(a, b)) == 2 {
      TwoFlipsDetected(a, b);
    } else {
      OddFlipsDetected(a, b);
    }
  }

  /** And the decoder answers such a frame with an error, on its delimiter. */
  lemma FewFlipsRejected(d: Decoder, a: seq<byte>, b: seq<byte>, maxPayload: nat)
    requires d.acc == [] && Intact(a) && |a| == |b| <= 4095 && |b| <= OVERHEAD + maxPayload
    requires 1 <= Ones(Differ(a, b)) <= 3
    ensures FeedAll(d, Cobs.Encode(b) + [DELIMITER], maxPayload).1 == Silence(|Cobs.Encode(b)|) + [Error]
  {
    hide Intact, Bits, Cobs.Encode, FeedAll, Cobs.Decode;
    FewFlipsDetected(a, b);
    BrokenRejected(d, b, maxPayload);
  }
}
