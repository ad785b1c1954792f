/**
 * The XorShift pseudo-random generator of src/util/random.rs.
 *
 * The generator is an object with a single `u128` field that its methods
 * update in place: the class `XorShift`. The same transitions are also given
 * as functions on the state (`Step`, `Draw01`, `DrawBound`, `Mix`),
 * which is how the pure parts of the model thread the generator through a
 * computation: a function that draws takes the state and returns the state
 * it leaves behind.
 */
module Random {
  import Float

  /** 2^k. */
  function Pow2(k: nat): (p: nat)
    ensures p >= 1
  {
    if k == 0 then 1 else 2 * Pow2(k - 1)
  }

  /** 2^128: one more than the largest `u128`. */
  const MODULUS: nat := 0x1_0000_0000_0000_0000_0000_0000_0000_0000

  /** `u128`. */
  type U128 = n: nat | n < MODULUS

  /** `u32::MAX`. */
  const U32_MAX: nat := 4294967295

  /**
   * The outcome of a computation that draws from the generator through a
   * rejection loop. `Sample` carries the value and the generator state left
   * behind; `Stalled` means the loop had not accepted a draw within its fuel
   * (the source would keep drawing).
   */
  datatype Sampled<T> = Sample(value: T, state: U128) | Stalled

  /** Bitwise exclusive or, one binary digit at a time from the least significant. */
  function Xor(a: nat, b: nat): nat
    decreases a + b
  {
    if a == 0 then b
    else if b == 0 then a
    else 2 * Xor(a / 2, b / 2) + (a + b) % 2
  }

  lemma {:induction false} Pow2Add(a: nat, b: nat)
    ensures Pow2(a + b) == Pow2(a) * Pow2(b)
    decreases a
  {
    if a > 0 {
      Pow2Add(a - 1, b);
    }
  }

  lemma ModulusIsPow2()
    ensures Pow2(128) == MODULUS
  {
    assert Pow2(1) == 2;
    Pow2Add(1, 1);
    Pow2Add(2, 2);
    Pow2Add(4, 4);
    assert Pow2(8) == 0x100;
    Pow2Add(8, 8);
    assert Pow2(16) == 0x1_0000;
    Pow2Add(16, 16);
    assert Pow2(32) == 0x1_0000_0000;
    Pow2Add(32, 32);
    assert Pow2(64) == 0x1_0000_0000_0000_0000;
    Pow2Add(64, 64);
  }

  /** Integer division by a positive number never gives more than the dividend. */
  function Quotient(s: nat, p: nat): (q: nat)
    requires p >= 1
    ensures q <= s
  {
    var q := s / p;
    assert s == q * p + s % p;
    assert q * p == q + q * (p - 1);
    q
  }

  /** The exclusive or of two k-bit numbers is a k-bit number: `^` cannot overflow a `u128`. */
  lemma {:induction false} XorBelow(a: nat, b: nat, k: nat)
    requires a < Pow2(k) && b < Pow2(k)
    ensures Xor(a, b) < Pow2(k)
    decreases k
  {
    if a != 0 && b != 0 {
      XorBelow(a / 2, b / 2, k - 1);
    }
  }

  /** `u128 ^ u128`. */
  function XorWord(a: U128, b: U128): (c: U128)
    ensures c == Xor(a, b)
  {
    ModulusIsPow2();
    XorBelow(a, b, 128);
    Xor(a, b)
  }

  /** `s << k` on a `u128` (k < 128): the bits shifted past bit 127 are dropped. */
  function Shl(s: U128, k: nat): U128 {
    (s * Pow2(k)) % MODULUS
  }

  /** `s >> k` on a `u128`. */
  function Shr(s: U128, k: nat): U128 {
    Quotient(s, Pow2(k))
  }

  /** The in-place step `s ^= s << k`. */
  function XorShl(s: U128, k: nat): U128 {
    XorWord(s, Shl(s, k))
  }

  /** The in-place step `s ^= s >> k`. */
  function XorShr(s: U128, k: nat): U128 {
    XorWord(s, Shr(s, k))
  }

  /** The three xor-shift steps of `next_int`, as a function of the state. */
  function Step(s: U128): U128 {
    XorShl(XorShr(XorShl(s, 23), 17), 26)
  }

  /** The state after `k` calls of `next_int`. */
  function Iterate(s: U128, k: nat): U128
    decreases k
  {
    if k == 0 then s else Iterate(Step(s), k - 1)
  }

  /** The `u32` that `next_01` keeps: the remainder of the new state modulo `u32::MAX`. */
  function Bounded(n: U128): (b: nat)
    ensures b < U32_MAX
  {
    (n as int) % U32_MAX
  }

  /** The float `next_01` derives from the new state `n`. */
  function Unit01(n: U128): (r: real)
    ensures 0.0 <= r < 1.0
  {
    Bounded(n) as real / U32_MAX as real
  }

  /** `next_01` on the state: the drawn float and the new state. */
  function Draw01(s: U128): (r: (real, U128))
    ensures 0.0 <= r.0 < 1.0
    ensures r.1 == Step(s)
  {
    var n := Step(s);
    (Unit01(n), n)
  }

  /** `min + diff * u`: the affine map `next_bound` applies to a `next_01` draw, `diff` being `max - min`. */
  function Scale(min: real, diff: real, u: real): real {
    min + diff * u
  }

  /** A draw from [0, 1) lands in [min, max) (or (max, min] when the bounds are swapped). */
  lemma ScaleBounds(min: real, max: real, diff: real, u: real)
    requires max == min + diff
    requires 0.0 <= u < 1.0
    ensures min <= max ==> min <= Scale(min, diff, u) < max || min == max == Scale(min, diff, u)
    ensures max <= min ==> max < Scale(min, diff, u) <= min || min == max == Scale(min, diff, u)
  {
    var t := diff * u;
    assert Scale(min, diff, u) == min + t;
    if diff > 0.0 {
      Float.FractionOfPositive(diff, u);
      assert 0.0 <= t < diff;
      LinearShift(min, max, diff, t);
    } else if diff < 0.0 {
      Float.FractionOfNegative(diff, u);
      assert diff < t <= 0.0;
      LinearShift(min, max, diff, t);
    } else {
      assert diff == 0.0;
      assert t == 0.0 * u;
    }
  }

  /**
   * A `next_01` draw scaled to [-1, 1) is never 0: that would need a
   * bounded value of exactly half of `u32::MAX`, which is odd.
   */
  lemma MidpointNeverDrawn(n: U128)
    ensures Scale(-1.0, 2.0, Unit01(n)) != 0.0
  {
    var b := Bounded(n);
    var m := U32_MAX as real;
    var q := Unit01(n);
    assert q * m == b as real;
    assert 2 * b != U32_MAX by {
      assert (2 * b) % 2 == 0;
    }
    assert (2 * b - U32_MAX) as real != 0.0;
    assert (2.0 * q - 1.0) * m == 2.0 * (b as real) - m;
  }

  lemma LinearShift(min: real, max: real, diff: real, t: real)
    requires max == min + diff
    ensures 0.0 <= t < diff ==> min <= min + t < max
    ensures diff < t <= 0.0 ==> max < min + t <= min
  {
  }

  /** `next_bound(min, max)` on the state: one `next_01` draw, scaled onto [min, max). */
  function DrawBound(s: U128, min: real, max: real): (r: (real, U128))
    ensures r.1 == Step(s)
    ensures min <= max ==> min <= r.0 < max || min == max == r.0
  {
    var d := Draw01(s);
    ScaleBounds(min, max, max - min, d.0);
    (Scale(min, max - min, d.0), d.1)
  }

  /** The three post-mixing steps of `copy_reset`. */
  function Mix(r: U128): U128 {
    XorShr(XorShl(XorShr(r, 13), 5), 11)
  }

  lemma XorShlZero(k: nat)
    ensures XorShl(0, k) == 0
  {
    assert Shl(0, k) == 0;
  }

  lemma XorShrZero(k: nat)
    ensures XorShr(0, k) == 0
  {
    assert Shr(0, k) == 0;
  }

  /** One `next_int` from state 0 stays at 0. */
  lemma StepZero()
    ensures Step(0) == 0
  {
    XorShlZero(23);
    XorShrZero(17);
    XorShlZero(26);
  }

  /** `copy_reset` on a generator at state 0 yields a copy at state 0. */
  lemma ZeroCopiesZero()
    ensures Mix(XorWord(0, Step(0))) == 0
  {
    StepZero();
    XorShrZero(13);
    XorShlZero(5);
    XorShrZero(11);
  }

  /** A fixed point of one `next_int` is a fixed point of any number of them. */
  lemma {:induction false} IterateFixed(s: U128, k: nat)
    requires Step(s) == s
    ensures Iterate(s, k) == s
  {
    if k > 0 {
      IterateFixed(s, k - 1);
    }
  }

  /** State 0 is a fixed point of `next_int`, however often it is called. */
  lemma ZeroIsFixedPoint(k: nat)
    ensures Iterate(0, k) == 0
  {
    StepZero();
    IterateFixed(0, k);
  }

  /** From state 0 every `next_01` draw is 0. */
  lemma ZeroDrawsZero(k: nat)
    ensures Draw01(Iterate(0, k)) == (0.0, 0)
  {
    ZeroIsFixedPoint(k);
    StepZero();
  }

  /** Iterating `k + 1` times is stepping once more after `k` iterations. */
  lemma {:induction false} IterateSucc(s: U128, k: nat)
    decreases k
    ensures Iterate(s, k + 1) == Step(Iterate(s, k))
  {
    if k > 0 {
      IterateSucc(Step(s), k - 1);
    }
  }

  class XorShift {
    var state: U128

    /** `XorShift::new(seed)`. */
    constructor (seed: U128)
      ensures state == seed
    {
      state := seed;
    }

    /** `next_int`: three in-place xor-shift updates, then the new state is returned. */
    method NextInt() returns (n: U128)
      modifies this
      ensures state == Step(old(state))
      ensures n == state
    {
      state := XorShl(state, 23);
      state := XorShr(state, 17);
      state := XorShl(state, 26);
      n := state;
    }

    /** `next_01`: a float in [0, 1) from one `next_int`. */
    method Next01() returns (r: real)
      modifies this
      ensures (r, state) == Draw01(old(state))
    {
      var next := NextInt();
      var nextBounded := (next as int) % U32_MAX;
      var nextU32: nat := nextBounded;
      r := nextU32 as real / U32_MAX as real;
    }

    /** `next_bound(min, max)`. */
    method NextBound(min: real, max: real) returns (r: real)
      modifies this
      ensures (r, state) == DrawBound(old(state), min, max)
    {
      var diff := max - min;
      var next := Next01();
      r := min + diff * next;
      assert r == Scale(min, diff, next);
    }

    /**
     * `copy_reset`: advances this generator by one `next_int` and returns a
     * new generator seeded from the old and new states.
     */
    method CopyReset() returns (copy: XorShift)
      modifies this
      ensures fresh(copy)
      ensures state == Step(old(state))
      ensures copy.state == Mix(XorWord(old(state), state))
    {
      var selfState := state;
      var next := NextInt();
      var resetState := XorWord(selfState, next);
      resetState := XorShr(resetState, 13);
      resetState := XorShl(resetState, 5);
      resetState := XorShr(resetState, 11);
      copy := new XorShift(resetState);
    }
  }

  /** Two generators in the same state (a derived clone) draw the same value and stay equal. */
  method ClonesAgree(a: XorShift, b: XorShift) returns (x: U128, y: U128)
    requires a != b && a.state == b.state
    modifies a, b
    ensures x == y && a.state == b.state
    ensures a.state == Step(old(a.state)) && x == a.state
  {
    x := a.NextInt();
    y := b.NextInt();
  }

  /** The first `k` values `next_int` returns from state `s`: the `i`-th is the state after `i + 1` steps. */
  function Outputs(s: U128, k: nat): (xs: seq<U128>)
    ensures |xs| == k
    ensures forall i :: 0 <= i < k ==> xs[i] == Iterate(s, i + 1)
  {
    seq(k, i requires 0 <= i => Iterate(s, i + 1))
  }

  /** One more call of `next_int` appends the next state to the outputs. */
  lemma OutputsSnoc(s: U128, k: nat)
    ensures Outputs(s, k + 1) == Outputs(s, k) + [Iterate(s, k + 1)]
  {
  }

  /**
   * Two generators in the same state produce identical output sequences:
   * `k` calls of `next_int` on each give the same `k` values, the `i`-th
   * being the state after `i + 1` steps, and leave both in the same state.
   */
  method ClonesAgreeFor(a: XorShift, b: XorShift, k: nat) returns (xs: seq<U128>, ys: seq<U128>)
    requires a != b && a.state == b.state
    modifies a, b
    ensures xs == ys == Outputs(old(a.state), k)
    ensures a.state == b.state == Iterate(old(a.state), k)
  {
    xs, ys := [], [];
    ghost var s0 := a.state;
    while |xs| < k
      invariant |xs| <= k && xs == ys && a.state == b.state
      invariant a.state == Iterate(s0, |xs|)
      invariant xs == Outputs(s0, |xs|)
    {
      IterateSucc(s0, |xs|);
      var x, y := ClonesAgree(a, b);
      OutputsSnoc(s0, |xs|);
      xs, ys := xs + [x], ys + [y];
    }
  }
}
