/** Arithmetic on bit patterns held as mathematical integers: powers of two,
    bitwise OR/AND, population count, two's-complement views and the packing
    of equal-width lanes into one wide register value. */
module Bits {

  function Pow2(n: nat): (r: nat)
    ensures r >= 1
  {
    if n == 0 then 1 else 2 * Pow2(n - 1)
  }

  lemma {:induction false} Pow2Add(a: nat, b: nat)
    ensures Pow2(a + b) == Pow2(a) * Pow2(b)
  {
    if a > 0 {
      Pow2Add(a - 1, b);
      assert Pow2(a + b) == 2 * Pow2(a - 1 + b);
    }
  }

  lemma {:induction false} Pow2Monotone(a: nat, b: nat)
    requires a <= b
    ensures Pow2(a) <= Pow2(b)
  {
    if a < b {
      Pow2Monotone(a, b - 1);
    }
  }

  /** Powers of two are strictly increasing, so they determine their exponent. */
  lemma {:induction false} Pow2Below(a: nat, b: nat)
    requires Pow2(a) <= Pow2(b)
    ensures a <= b
  {
    if a > 0 {
      assert Pow2(a) == 2 * Pow2(a - 1);
      if b > 0 {
        Pow2Below(a - 1, b - 1);
      }
    }
  }

  lemma {:induction false} Pow2Exceeds(n: nat)
    ensures n < Pow2(n)
  {
    if n > 0 {
      Pow2Exceeds(n - 1);
    }
  }

  /** Division and remainder by a positive P are unique for a value written as a + P * t. */
  lemma DivModOfSum(a: int, p: int, t: int)
    requires 0 <= a < p
    ensures (a + p * t) % p == a
    ensures (a + p * t) / p == t
  {
    var q, r := (a + p * t) / p, (a + p * t) % p;
    assert (q - t) * p == a - r;
    MultipleSign(q - t, p);
  }

  /** Euclidean division facts for a positive divisor, stated once so that
      callers need not rediscover them. */
  lemma DivModNat(x: nat, p: nat)
    requires p >= 1
    ensures 0 <= x % p < p && x / p >= 0 && x == p * (x / p) + x % p
    ensures x / p <= x
  {
  }

  lemma ModSmall(a: int, p: int)
    requires 0 <= a < p
    ensures a % p == a && a / p == 0
  {
    DivModOfSum(a, p, 0);
  }

  /** Adding a multiple of `p` does not change the remainder. */
  lemma ModAddMultiple(y: int, p: int, k: int)
    requires p >= 1
    ensures (y + p * k) % p == y % p
  {
    var q, r := y / p, y % p;
    MulAdd(p, q, k);
    DivModOfSum(r, p, q + k);
  }

  /** Values congruent modulo `p` stay congruent after the same addition. */
  lemma ModAddCongruent(x: int, a: int, b: int, p: int)
    requires p >= 1 && a % p == b % p
    ensures (x + a) % p == (x + b) % p
  {
    var k := a / p - b / p;
    MulSub(p, a / p, b / p);
    assert x + a == (x + b) + p * k;
    ModAddMultiple(x + b, p, k);
  }

  lemma MulAdd(p: int, u: int, v: int)
    ensures p * u + p * v == p * (u + v)
  {
  }

  lemma MulSub(p: int, u: int, v: int)
    ensures p * u - p * v == p * (u - v)
  {
  }

  lemma MultipleSign(x: int, p: int)
    requires p > 0
    ensures x >= 1 ==> x * p >= p
    ensures x <= -1 ==> x * p <= -p
  {
  }

  // ---- constants of the widths the model uses ----

  const TWO_15: int := 0x8000
  const TWO_16: int := 0x1_0000
  const TWO_31: int := 0x8000_0000
  const TWO_32: int := 0x1_0000_0000
  const TWO_63: int := 0x8000_0000_0000_0000
  const TWO_64: int := 0x1_0000_0000_0000_0000

  lemma Pow2Small()
    ensures Pow2(8) == 0x100 && Pow2(9) == 0x200 && Pow2(10) == 0x400
    ensures Pow2(15) == TWO_15 && Pow2(16) == TWO_16
  {
  }

  lemma Pow2Wide()
    ensures Pow2(31) == TWO_31 && Pow2(32) == TWO_32
    ensures Pow2(63) == TWO_63 && Pow2(64) == TWO_64
  {
    Pow2Small();
    Pow2Add(16, 15);
    Pow2Add(16, 16);
    Pow2Add(32, 31);
    Pow2Add(32, 32);
  }

  // ---- two's complement ----

  /** The signed value of a `w`-bit pattern. */
  function Signed(x: nat, w: nat): (r: int)
    requires w >= 1 && x < Pow2(w)
    ensures -(Pow2(w - 1) as int) <= r < Pow2(w - 1)
    ensures r % Pow2(w) == x
  {
    assert Pow2(w) == 2 * Pow2(w - 1);
    if x >= Pow2(w - 1) then
      DivModOfSum(x, Pow2(w), -1);
      x - Pow2(w)
    else
      DivModOfSum(x, Pow2(w), 0);
      x
  }

  /** isIntN on a signed value: `v` is representable in `n` bits of two's complement. */
  predicate FitsSigned(v: int, n: nat)
    requires n >= 1
  {
    -(Pow2(n - 1) as int) <= v < Pow2(n - 1)
  }

  /** Sign-extends a 16-bit field to its signed value (SignExtend64<16>). */
  function SignExtend16(x: int): (r: int)
    ensures -TWO_15 <= r < TWO_15
    ensures r % TWO_16 == x % TWO_16
  {
    var low := x % TWO_16;
    if low >= TWO_15 then low - TWO_16 else low
  }

  /** The 64-bit register pattern of a 32-bit result, sign-extended as MIPS64 does. */
  function SignExtend32To64(x: int): (r: nat)
    ensures r < TWO_64
    ensures r % TWO_32 == x % TWO_32
    ensures (x % TWO_32 < TWO_31) == (r < TWO_32)
    ensures (x % TWO_32 >= TWO_31) == (r >= TWO_64 - TWO_32)
  {
    var low := x % TWO_32;
    if low >= TWO_31 then low + (TWO_64 - TWO_32) else low
  }

  // ---- bitwise operations on naturals ----

  function BitOr(a: nat, b: nat): nat
    decreases a + b
  {
    if a == 0 then b
    else if b == 0 then a
    else 2 * BitOr(a / 2, b / 2) + (if a % 2 == 1 || b % 2 == 1 then 1 else 0)
  }

  function BitAnd(a: nat, b: nat): nat
    decreases a + b
  {
    if a == 0 || b == 0 then 0
    else 2 * BitAnd(a / 2, b / 2) + (if a % 2 == 1 && b % 2 == 1 then 1 else 0)
  }

  /** `~x` on a `w`-bit pattern. */
  function BitNot(x: nat, w: nat): (r: nat)
    requires x < Pow2(w)
    ensures r < Pow2(w) && Pow2(w) - 1 - r == x
  {
    Pow2(w) - 1 - x
  }

  /** Number of set bits (APInt::countPopulation). */
  function PopCount(x: nat): nat
  {
    if x == 0 then 0 else x % 2 + PopCount(x / 2)
  }

  lemma BitOrStep(a: nat, b: nat)
    ensures BitOr(a, b) == 2 * BitOr(a / 2, b / 2) + (if a % 2 == 1 || b % 2 == 1 then 1 else 0)
  {
    if a == 0 {
      assert BitOr(a / 2, b / 2) == b / 2;
    } else if b == 0 {
      assert BitOr(a / 2, b / 2) == a / 2;
    }
  }

  lemma BitAndStep(a: nat, b: nat)
    ensures BitAnd(a, b) == 2 * BitAnd(a / 2, b / 2) + (if a % 2 == 1 && b % 2 == 1 then 1 else 0)
  {
    if a == 0 {
      assert BitAnd(a / 2, b / 2) == 0;
    } else if b == 0 {
      assert BitAnd(a / 2, b / 2) == 0;
    }
  }

  /** OR into a value whose low `k` bits are clear is addition. */
  lemma {:induction false} BitOrDisjointLow(m: nat, k: nat, b: nat)
    requires b < Pow2(k)
    ensures BitOr(m * Pow2(k), b) == m * Pow2(k) + b
  {
    if k > 0 {
      var a := m * Pow2(k);
      assert a == 2 * (m * Pow2(k - 1));
      BitOrDisjointLow(m, k - 1, b / 2);
      BitOrStep(a, b);
      assert a / 2 == m * Pow2(k - 1) && a % 2 == 0;
    }
  }

  lemma {:induction false} BitAndSelf(a: nat)
    ensures BitAnd(a, a) == a
  {
    if a > 0 {
      BitAndSelf(a / 2);
    }
  }

  lemma {:induction false} BitAndBound(a: nat, b: nat)
    ensures BitAnd(a, b) <= a
  {
    if a > 0 && b > 0 {
      BitAndBound(a / 2, b / 2);
    }
  }

  lemma {:induction false} BitAndBoundRight(a: nat, b: nat)
    ensures BitAnd(a, b) <= b
  {
    if a > 0 && b > 0 {
      BitAndBoundRight(a / 2, b / 2);
    }
  }

  /** Masking with `k` low ones keeps a value that already fits in `k` bits. */
  lemma {:induction false} BitAndLowOnes(x: nat, k: nat)
    requires x < Pow2(k)
    ensures BitAnd(x, Pow2(k) - 1) == x
  {
    if k > 0 {
      assert (Pow2(k) - 1) / 2 == Pow2(k - 1) - 1 && (Pow2(k) - 1) % 2 == 1;
      BitAndLowOnes(x / 2, k - 1);
      BitAndStep(x, Pow2(k) - 1);
    }
  }

  /** `x & ~y == x` exactly when `x & y == 0`. */
  lemma {:induction false} BitAndNot(x: nat, y: nat, w: nat)
    requires x < Pow2(w) && y < Pow2(w)
    ensures (BitAnd(x, BitNot(y, w)) == x) == (BitAnd(x, y) == 0)
  {
    if w > 0 {
      var n := BitNot(y, w);
      var h := Pow2(w - 1);
      assert Pow2(w) == 2 * h;
      assert x / 2 < h && y / 2 < h;
      var n' := BitNot(y / 2, w - 1);
      assert n == 2 * n' + (1 - y % 2);
      assert n % 2 == 1 - y % 2 && n / 2 == n';
      BitAndNot(x / 2, y / 2, w - 1);
      BitAndStep(x, n);
      BitAndStep(x, y);
      assert x == 2 * (x / 2) + x % 2;
    }
  }

  /** A run of set bits starting at bit zero. */
  predicate AllOnes(x: nat)
  {
    x == 0 || (x % 2 == 1 && AllOnes(x / 2))
  }

  /** `x & (x + 1) == 0` exactly when `x` is a run of ones from bit zero. */
  lemma {:induction false} BitAndSuccZero(x: nat)
    ensures (BitAnd(x, x + 1) == 0) == AllOnes(x)
  {
    if x > 0 {
      BitAndStep(x, x + 1);
      if x % 2 == 0 {
        assert (x + 1) / 2 == x / 2;
        BitAndSelf(x / 2);
      } else {
        assert (x + 1) / 2 == x / 2 + 1;
        BitAndSuccZero(x / 2);
      }
    }
  }

  lemma {:induction false} AllOnesValue(x: nat)
    requires AllOnes(x)
    ensures x == Pow2(PopCount(x)) - 1
  {
    if x > 0 {
      AllOnesValue(x / 2);
    }
  }

  lemma {:induction false} OnesAreAllOnes(k: nat)
    ensures AllOnes(Pow2(k) - 1)
  {
    if k > 0 {
      OnesAreAllOnes(k - 1);
      assert (Pow2(k) - 1) / 2 == Pow2(k - 1) - 1;
    }
  }

  lemma {:induction false} OnesPopCount(k: nat)
    ensures PopCount(Pow2(k) - 1) == k
  {
    if k > 0 {
      OnesPopCount(k - 1);
      assert (Pow2(k) - 1) / 2 == Pow2(k - 1) - 1;
    }
  }

  /** The top `w - k` bits of a `w`-bit pattern, as a number, and its shape. */
  lemma HighOnesShape(w: nat, k: nat)
    requires k <= w
    ensures Pow2(k) <= Pow2(w) && Pow2(w) - Pow2(k) == (Pow2(w - k) - 1) * Pow2(k)
  {
    Pow2Monotone(k, w);
    Pow2Add(w - k, k);
    assert w - k + k == w;
    MulPred(Pow2(w), Pow2(w - k), Pow2(k));
  }

  lemma MulPred(n: int, a: int, p: int)
    requires n == a * p
    ensures n - p == (a - 1) * p
  {
    MulSub(p, a, 1);
  }

  /** The pattern with the top `w - k` of `w` bits set has `w - k` set bits. */
  lemma HighOnesPopCount(w: nat, k: nat)
    requires k <= w
    ensures Pow2(k) <= Pow2(w) && PopCount(Pow2(w) - Pow2(k)) == w - k
  {
    HighOnesShape(w, k);
    var x := Pow2(w - k) - 1;
    PopCountScaled(x, k, Pow2(w) - Pow2(k));
    OnesPopCount(w - k);
  }

  lemma PopCountScaled(x: nat, k: nat, y: nat)
    requires y == x * Pow2(k)
    ensures PopCount(y) == PopCount(x)
  {
    PopCountShift(x, k);
  }

  lemma {:induction false} PopCountZero(x: nat)
    ensures (PopCount(x) == 0) == (x == 0)
  {
    if x > 0 && x % 2 == 0 {
      PopCountZero(x / 2);
    }
  }

  lemma {:induction false} PopCountShift(x: nat, k: nat)
    ensures PopCount(x * Pow2(k)) == PopCount(x)
  {
    if k > 0 {
      PopCountShift(x, k - 1);
      var m := x * Pow2(k - 1);
      MulDouble(x, Pow2(k - 1));
      DivModOfSum(0, 2, m);
    }
  }

  lemma MulDouble(x: nat, p: nat)
    ensures x * (2 * p) == 2 * (x * p)
  {
  }

  // ---- sequences ----

  /** `n` copies of `x`. */
  function Repeat(x: nat, n: nat): (r: seq<nat>)
    ensures |r| == n && forall i :: 0 <= i < n ==> r[i] == x
  {
    seq(n, _ => x)
  }

  /** A prefix of a prefix is a prefix. */
  lemma PrefixOfPrefix<T>(a: seq<T>, b: seq<T>, c: seq<T>)
    requires |a| <= |b| <= |c| && b[..|a|] == a && c[..|b|] == b
    ensures c[..|a|] == a
  {
    assert forall i :: 0 <= i < |a| ==> c[i] == b[i];
  }
}
