/**
 * C `unsigned int` words as integers in [0, 2^32), with the bitwise
 * operators the attack formulas use defined bit by bit.
 */
module Words {

  /** 2^32: `uint32_t` arithmetic is modulo this. */
  const W32: int := 0x1_0000_0000

  /** A value of C type `uint32_t`. */
  type Word = v: int | 0 <= v < W32

  /** A value of C type `uint16_t`. */
  type Word16 = v: int | 0 <= v < 0x1_0000

  /** A value of C type `uint64_t`. */
  type Word64 = v: int | 0 <= v < 0x1_0000_0000_0000_0000

  function Pow2(n: nat): (p: nat)
    ensures p >= 1
  {
    if n == 0 then 1 else 2 * Pow2(n - 1)
  }

  lemma {:induction false} Pow2Add(a: nat, b: nat)
    ensures Pow2(a + b) == Pow2(a) * Pow2(b)
  {
    if a > 0 {
      Pow2Add(a - 1, b);
    }
  }

  lemma Pow2Values()
    ensures Pow2(16) == 0x1_0000 && Pow2(32) == W32
  {
    assert Pow2(4) == 16;
    Pow2Add(4, 4);
    Pow2Add(8, 8);
    Pow2Add(16, 16);
  }

  /** The low `n` bits of the bitwise AND of `a` and `b`. */
  function AndBits(a: nat, b: nat, n: nat): (r: nat)
    ensures r < Pow2(n)
  {
    if n == 0 then 0
    else 2 * AndBits(a / 2, b / 2, n - 1) + (if a % 2 == 1 && b % 2 == 1 then 1 else 0)
  }

  /** The low `n` bits of the bitwise exclusive OR of `a` and `b`. */
  function XorBits(a: nat, b: nat, n: nat): (r: nat)
    ensures r < Pow2(n)
  {
    if n == 0 then 0
    else 2 * XorBits(a / 2, b / 2, n - 1) + (a % 2 + b % 2) % 2
  }

  lemma MulAtLeast(a: int, d: int)
    requires a >= 1 && d > 0
    ensures a * d >= d
  {
  }

  /** The remainder is determined by any quotient-remainder decomposition. */
  lemma ModUnique(v: int, d: int, q: int, r: int)
    requires d > 0 && 0 <= r < d && v == q * d + r
    ensures v % d == r && v / d == q
  {
    var q', r' := v / d, v % d;
    assert (q' - q) * d == r - r' by {
      assert q' * d + r' == q * d + r;
    }
    if q' > q {
      MulAtLeast(q' - q, d);
    } else if q' < q {
      MulAtLeast(q - q', d);
    }
  }

  /** Subtracting a multiple of the divisor leaves the remainder unchanged. */
  lemma ModShift(z: int, q: int, d: int)
    requires d > 0
    ensures (z - q * d) % d == z % d
  {
    ModUnique(z - q * d, d, z / d - q, z % d);
  }

  /** Reducing an addend first does not change a sum's remainder. */
  lemma ModOfSum(x: int, y: int, d: int)
    requires d > 0
    ensures ((x % d) + y) % d == (x + y) % d
  {
    ModShift(x + y, x / d, d);
  }

  /** Reducing a factor first does not change a product's remainder. */
  lemma ModOfProduct(x: int, k: int, d: int)
    requires d > 0
    ensures ((x % d) * k) % d == (x * k) % d
  {
    var q := x / d;
    assert (x % d) * k == x * k - (q * k) * d;
    ModShift(x * k, q * k, d);
  }

  /** Splitting off the lowest bit of a remainder by a power of two. */
  lemma ModPow2Step(v: nat, k: nat)
    requires k > 0
    ensures v % Pow2(k) == 2 * ((v / 2) % Pow2(k - 1)) + v % 2
  {
    var p := Pow2(k - 1);
    var q, r := (v / 2) / p, (v / 2) % p;
    assert v / 2 == q * p + r;
    assert v == q * (2 * p) + (2 * r + v % 2);
    ModUnique(v, 2 * p, q, 2 * r + v % 2);
  }

  /** The low `k` bits of `v`. */
  function LowBits(v: nat, k: nat): nat
  {
    if k == 0 then 0 else 2 * LowBits(v / 2, k - 1) + v % 2
  }

  /** The number whose low `k` bits are one and whose other bits are zero. */
  function Ones(k: nat): nat
  {
    if k == 0 then 0 else 2 * Ones(k - 1) + 1
  }

  /** The number whose bits `k` to `n - 1` are one and whose other bits are zero. */
  function HighOnes(k: nat, n: nat): nat
    requires k <= n
  {
    if k == 0 then Ones(n) else 2 * HighOnes(k - 1, n - 1)
  }

  lemma {:induction false} OnesValue(k: nat)
    ensures Ones(k) == Pow2(k) - 1
  {
    if k > 0 {
      OnesValue(k - 1);
    }
  }

  lemma {:induction false} HighOnesValue(k: nat, n: nat)
    requires k <= n
    ensures HighOnes(k, n) == Pow2(n) - Pow2(k)
  {
    if k == 0 {
      OnesValue(n);
    } else {
      HighOnesValue(k - 1, n - 1);
    }
  }

  /** The low `k` bits are the remainder modulo 2^k. */
  lemma {:induction false} LowBitsMod(v: nat, k: nat)
    ensures LowBits(v, k) == v % Pow2(k)
  {
    if k > 0 {
      LowBitsMod(v / 2, k - 1);
      ModPow2Step(v, k);
    }
  }

  /** ANDing with `k` low one-bits keeps the low `k` bits. */
  lemma {:induction false} AndOnes(v: nat, k: nat, n: nat)
    requires k <= n
    ensures AndBits(v, Ones(k), n) == LowBits(v, k)
  {
    if k == 0 {
      AndZero(v, n);
    } else {
      HalfAndBit(Ones(k - 1), 1);
      AndOnes(v / 2, k - 1, n - 1);
    }
  }

  /** ANDing with the ones from bit `k` to bit `n - 1` keeps those bits of `v`. */
  lemma {:induction false} AndHighOnes(v: nat, k: nat, n: nat)
    requires k <= n
    ensures AndBits(v, HighOnes(k, n), n) == LowBits(v, n) - LowBits(v, k)
  {
    if k == 0 {
      AndOnes(v, n, n);
    } else {
      HalfAndBit(HighOnes(k - 1, n - 1), 0);
      AndHighOnes(v / 2, k - 1, n - 1);
    }
  }

  /** ANDing with `k` low one-bits keeps the remainder modulo 2^k. */
  lemma AndLowMask(v: nat, k: nat, n: nat)
    requires k <= n
    ensures AndBits(v, Pow2(k) - 1, n) == v % Pow2(k)
  {
    OnesValue(k);
    AndOnes(v, k, n);
    LowBitsMod(v, k);
  }

  lemma {:induction false} AndZero(v: nat, n: nat)
    ensures AndBits(v, 0, n) == 0
  {
    if n > 0 {
      AndZero(v / 2, n - 1);
    }
  }

  /** A number is twice its half plus its lowest bit. */
  lemma HalfAndBit(x: int, bit: int)
    requires 0 <= bit < 2
    ensures (2 * x + bit) / 2 == x && (2 * x + bit) % 2 == bit
  {
  }

  /** Two naturals with the same half and the same lowest bit are equal. */
  lemma BitsDetermine(y: nat, m: nat)
    requires y / 2 == m / 2 && y % 2 == m % 2
    ensures y == m
  {
  }

  lemma ParityCancel(a: nat, b: nat)
    ensures (a % 2 + (a % 2 + b % 2) % 2) % 2 == b % 2
  {
  }

  /** One step of `XorBits`: the lowest bit, and the rest shifted down. */
  lemma XorStep(a: nat, b: nat, n: nat)
    requires n > 0
    ensures XorBits(a, b, n) / 2 == XorBits(a / 2, b / 2, n - 1)
    ensures XorBits(a, b, n) % 2 == (a % 2 + b % 2) % 2
  {
    HalfAndBit(XorBits(a / 2, b / 2, n - 1), (a % 2 + b % 2) % 2);
  }

  /** Exclusive OR with the same value twice cancels, within `n` bits. */
  lemma {:induction false} XorCancel(t: nat, m: nat, n: nat)
    requires m < Pow2(n)
    ensures XorBits(t, XorBits(t, m, n), n) == m
  {
    if n > 0 {
      var x := XorBits(t, m, n);
      var y := XorBits(t, x, n);
      XorStep(t, m, n);
      XorStep(t, x, n);
      assert m / 2 < Pow2(n - 1);
      XorCancel(t / 2, m / 2, n - 1);
      ParityCancel(t, m);
      BitsDetermine(y, m);
    }
  }

  lemma {:induction false} Pow2Monotone(k: nat, n: nat)
    requires k <= n
    ensures Pow2(k) <= Pow2(n)
  {
    if k < n {
      Pow2Monotone(k, n - 1);
    }
  }

  /** ANDing with the ones from bit `k` up to bit `n` clears the low `k` bits. */
  lemma AndHighMask(v: nat, k: nat, n: nat)
    requires k <= n
    ensures Pow2(k) <= Pow2(n)
    ensures AndBits(v, Pow2(n) - Pow2(k), n) == v % Pow2(n) - v % Pow2(k)
  {
    Pow2Monotone(k, n);
    HighOnesValue(k, n);
    AndHighOnes(v, k, n);
    LowBitsMod(v, k);
    LowBitsMod(v, n);
  }

  /** `a & b` on `uint32_t`. */
  function And32(a: Word, b: Word): Word
  {
    Pow2Values();
    AndBits(a, b, 32)
  }

  /** `a ^ b` on `uint32_t`. */
  function Xor32(a: Word, b: Word): Word
  {
    Pow2Values();
    XorBits(a, b, 32)
  }

  /** `a >> b` on `uint32_t`; a shift by the width or more is taken to yield 0. */
  function Shr32(a: Word, b: Word): Word
  {
    if b < 32 then
      var p := Pow2(b);
      DivAtMost(a, p);
      a / p
    else 0
  }

  lemma DivAtMost(a: nat, d: nat)
    requires d >= 1
    ensures 0 <= a / d <= a
  {
    ModUnique(a, d, a / d, a % d);
    if d > 1 && a / d > 0 {
      MulAtLeast(d, a / d);
    }
  }

  /** The low half of a word, as the knob-trigger mask gives it. */
  lemma LowHalf(v: Word)
    ensures And32(v, 0x0000_ffff) == v % 0x1_0000
  {
    Pow2Values();
    AndLowMask(v, 16, 32);
  }

  /** The high half of a word, as the knob-trigger mask and shift give it. */
  lemma HighHalf(v: Word)
    ensures Shr32(And32(v, 0xffff_0000), 16) == v / 0x1_0000
  {
    Pow2Values();
    Pow2Monotone(16, 32);
    AndHighMask(v, 16, 32);
    ModUnique(v - v % 0x1_0000, 0x1_0000, v / 0x1_0000, 0);
  }

  /** Exclusive OR with the same word twice gives the other word back. */
  lemma Xor32Cancel(t: Word, m: Word)
    ensures Xor32(t, Xor32(t, m)) == m
  {
    Pow2Values();
    XorCancel(t, m, 32);
  }
}
