/**
 * Linear feedback shift registers in the abstract: what a check register remembers of the
 * bits shifted through it, and which bit errors must change it.
 */
module ShiftRegister {
  /** Registers of type `R`: `add` is bitwise difference, `step` one shift, `top` the input bit. */
  datatype Register<!R> = Register(zero: R, top: R, add: (R, R) -> R, step: R -> R) {

    function Bit(b: bool): R {
      if b then top else zero
    }

    function Shift(r: R, b: bool): R {
      step(add(r, Bit(b)))
    }

    function ShiftAll(r: R, bits: seq<bool>): R
      decreases |bits|
    {
      if bits == [] then r else ShiftAll(Shift(r, bits[0]), bits[1..])
    }

    function Steps(r: R, n: nat): R
      decreases n
    {
      if n == 0 then r else Steps(step(r), n - 1)
    }
  }

  /** `add` is a difference that shifting respects, and only a clear register shifts to clear. */
  ghost predicate Linear<R(!new)>(m: Register<R>) {
    && (forall r, s, b, c :: m.add(m.Shift(r, b), m.Shift(s, c)) == m.Shift(m.add(r, s), b != c))
    && (forall r, s :: m.add(r, s) == m.zero <==> r == s)
    && (forall r :: m.Shift(r, false) == m.zero <==> r == m.zero)
  }

  /** Where two bit strings differ. */
  function Diff(x: seq<bool>, y: seq<bool>): (d: seq<bool>)
    requires |x| == |y|
    ensures |d| == |x| && forall i :: 0 <= i < |x| ==> d[i] == (x[i] != y[i])
  {
    seq(|x|, i requires 0 <= i < |x| => x[i] != y[i])
  }

  lemma {:induction false} ShiftAllConcat<R(!new)>(m: Register<R>, r: R, a: seq<bool>, b: seq<bool>)
    ensures m.ShiftAll(r, a + b) == m.ShiftAll(m.ShiftAll(r, a), b)
    decreases |a|
  {
    if a == [] {
      assert a + b == b;
    } else {
      assert (a + b)[1..] == a[1..] + b;
      ShiftAllConcat(m, m.Shift(r, a[0]), a[1..], b);
    }
  }

  /** The difference of two registers is the register of the difference. */
  lemma {:induction false} DifferenceLaw<R(!new)>(m: Register<R>, r: R, s: R, x: seq<bool>, y: seq<bool>)
    requires Linear(m) && |x| == |y|
    ensures m.add(m.ShiftAll(r, x), m.ShiftAll(s, y)) == m.ShiftAll(m.add(r, s), Diff(x, y))
    decreases |x|
  {
    if x != [] {
      assert Diff(x, y)[1..] == Diff(x[1..], y[1..]);
      DifferenceLaw(m, m.Shift(r, x[0]), m.Shift(s, y[0]), x[1..], y[1..]);
    }
  }

  /** Exactly which errors escape: those whose own register, from clear, is clear. */
  lemma UndetectedExactly<R(!new)>(m: Register<R>, r: R, x: seq<bool>, y: seq<bool>)
    requires Linear(m) && |x| == |y|
    ensures m.ShiftAll(r, x) == m.ShiftAll(r, y) <==> m.ShiftAll(m.zero, Diff(x, y)) == m.zero
  {
    DifferenceLaw(m, r, r, x, y);
  }

  // ----- parity -----

  function Ones(bits: seq<bool>): nat {
    if bits == [] then 0 else (if bits[0] then 1 else 0) + Ones(bits[1..])
  }

  lemma {:induction false} OnesOfDiff(x: seq<bool>, y: seq<bool>)
    requires |x| == |y|
    ensures Ones(Diff(x, y)) % 2 == (Ones(x) + Ones(y)) % 2
  {
    if x != [] {
      assert Diff(x, y)[1..] == Diff(x[1..], y[1..]);
      OnesOfDiff(x[1..], y[1..]);
    }
  }

  lemma {:induction false} OnesConcat(x: seq<bool>, y: seq<bool>)
    ensures Ones(x + y) == Ones(x) + Ones(y)
  {
    if x == [] {
      assert x + y == y;
    } else {
      assert (x + y)[1..] == x[1..] + y;
      OnesConcat(x[1..], y);
    }
  }

  /** `odd` is a parity that shifting preserves. */
  ghost predicate Parity<R(!new)>(m: Register<R>, odd: R -> bool) {
    forall r, b :: odd(m.Shift(r, b)) == (odd(r) != b)
  }

  lemma {:induction false} ParityLaw<R(!new)>(m: Register<R>, odd: R -> bool, r: R, bits: seq<bool>)
    requires Parity(m, odd)
    ensures odd(m.ShiftAll(r, bits)) == (odd(r) != (Ones(bits) % 2 == 1))
    decreases |bits|
  {
    if bits != [] {
      ParityLaw(m, odd, m.Shift(r, bits[0]), bits[1..]);
    }
  }

  // ----- bursts -----

  /**
   * `live(d, k)`: a difference `d` that `k` more input bits cannot cancel.
   * A fresh error is live for `width - 1` bits.
   */
  ghost predicate Burst<R(!new)>(m: Register<R>, live: (R, nat) -> bool, width: nat) {
    && width > 0 && live(m.Shift(m.zero, true), width - 1)
    && (forall d, k: nat, b :: live(d, k + 1) ==> live(m.Shift(d, b), k))
    && (forall d, k: nat :: live(d, k + 1) ==> live(d, k))
    && (forall d :: live(d, 0) ==> d != m.zero)
  }

  ghost predicate AllClear(bits: seq<bool>) {
    forall i :: 0 <= i < |bits| ==> !bits[i]
  }

  lemma {:induction false} NoFurtherErrors<R(!new)>(m: Register<R>, d: R, e: seq<bool>)
    requires Linear(m) && d != m.zero && AllClear(e)
    ensures m.ShiftAll(d, e) != m.zero
    decreases |e|
  {
    if e != [] {
      NoFurtherErrors(m, m.Shift(d, e[0]), e[1..]);
    }
  }

  lemma {:induction false} WithinBurst<R(!new)>(m: Register<R>, live: (R, nat) -> bool, width: nat, d: R, k: nat,
                                               e: seq<bool>)
    requires Linear(m) && Burst(m, live, width) && live(d, k)
    requires forall i :: k <= i < |e| ==> !e[i]
    ensures m.ShiftAll(d, e) != m.zero
    decreases |e|, k
  {
    if k == 0 {
      NoFurtherErrors(m, d, e);
    } else if e == [] {
      WithinBurst(m, live, width, d, k - 1, e);
    } else {
      WithinBurst(m, live, width, m.Shift(d, e[0]), k - 1, e[1..]);
    }
  }

  /** An error confined to `width` consecutive bits is never cancelled. */
  lemma {:induction false} BurstDetected<R(!new)>(m: Register<R>, live: (R, nat) -> bool, width: nat, e: seq<bool>,
                                                 from: nat)
    requires Linear(m) && Burst(m, live, width) && !AllClear(e)
    requires forall i :: 0 <= i < |e| && e[i] ==> from <= i < from + width
    ensures m.ShiftAll(m.zero, e) != m.zero
    decreases |e|
  {
    if e[0] {
      WithinBurst(m, live, width, m.Shift(m.zero, true), width - 1, e[1..]);
    } else {
      BurstDetected(m, live, width, e[1..], if from == 0 then 0 else from - 1);
    }
  }

  // ----- words -----

  /** The leading `n` bits of a word, under its own shift `shl` and top-bit test `msb`. */
  function TopBits<R>(shl: R -> R, msb: R -> bool, v: R, n: nat): (s: seq<bool>)
    ensures |s| == n
    decreases n
  {
    if n == 0 then [] else [msb(v)] + TopBits(shl, msb, shl(v), n - 1)
  }

  function Shl<R>(shl: R -> R, v: R, n: nat): R
    decreases n
  {
    if n == 0 then v else Shl(shl, shl(v), n - 1)
  }

  /** A word added in one go is the same as its bits shifted in one by one. */
  lemma {:induction false} WordIsBits<R(!new)>(m: Register<R>, shl: R -> R, msb: R -> bool, r: R, v: R, n: nat)
    requires forall a, b :: m.step(m.add(a, b)) == m.add(m.Shift(a, msb(b)), shl(b))
    ensures m.Steps(m.add(r, v), n) == m.add(m.ShiftAll(r, TopBits(shl, msb, v, n)), Shl(shl, v, n))
    decreases n
  {
    if n > 0 {
      WordIsBits(m, shl, msb, m.Shift(r, msb(v)), shl(v), n - 1);
    }
  }
}
