/**
 * The fixed-width integer behaviour of Rust that the glyph loader relies on:
 * the `u8`, `u16` and `i16` types, the truncating `as` casts into them,
 * signed division (which rounds toward zero), and the bitwise `&` and `!`
 * used to round a row width up to a multiple of four.
 */
module RustInt {

  newtype u8 = x: int | 0 <= x < 0x100
  newtype u16 = x: int | 0 <= x < 0x1_0000
  newtype i16 = x: int | -0x8000 <= x < 0x8000

  /** `v as u16`: keeps the low 16 bits of any integer. */
  function WrapU16(v: int): (r: u16)
    ensures (r as int - v) % 0x1_0000 == 0
    ensures 0 <= v < 0x1_0000 ==> r as int == v
  {
    (v % 0x1_0000) as u16
  }

  /** `v as i16`: keeps the low 16 bits and reads them as two's complement. */
  function WrapI16(v: int): (r: i16)
    ensures (r as int - v) % 0x1_0000 == 0
    ensures -0x8000 <= v < 0x8000 ==> r as int == v
  {
    var low := v % 0x1_0000;
    if low < 0x8000 then low as i16 else (low - 0x1_0000) as i16
  }

  /**
   * Rust's `/` on signed integers: the quotient is rounded toward zero, so
   * the remainder takes the sign of the dividend (Dafny's own `/` is
   * Euclidean and differs for a negative dividend).
   */
  function TruncDiv(a: int, d: int): (q: int)
    requires d > 0
    ensures -d < a - q * d < d
    ensures a >= 0 ==> q >= 0 && a - q * d >= 0
    ensures a <= 0 ==> q <= 0 && a - q * d <= 0
  {
    if a >= 0 then a / d
    else
      var q := (-a) / d;
      assert -a == q * d + (-a) % d;
      -q
  }

  /** Quotient and remainder are determined by the division identity. */
  lemma DivModUnique(a: int, d: int, q: int, r: int)
    requires d > 0 && a == q * d + r && 0 <= r < d
    ensures a / d == q && a % d == r
  {
    var q0, r0 := a / d, a % d;
    var k := q - q0;
    assert k * d == r0 - r by {
      assert a == q0 * d + r0;
      assert q * d - q0 * d == (q - q0) * d;
    }
    if k > 0 {
      MulAtLeast(k, d);
    } else if k < 0 {
      MulAtLeast(-k, d);
    }
  }

  lemma MulAtLeast(k: int, d: int)
    requires k >= 1 && d > 0
    ensures k * d >= d
  {
    assert k * d == (k - 1) * d + d;
    assert (k - 1) * d >= 0;
  }

  /**
   * `n * k` as `n` additions of `k`. Offsets of rows in a bitmap are written
   * with it, so that they unfold one row at a time.
   */
  function Mul(n: nat, k: nat): nat
  {
    if n == 0 then 0 else Mul(n - 1, k) + k
  }

  lemma {:induction false} MulIsProduct(n: nat, k: nat)
    ensures Mul(n, k) == n * k
  {
    if n > 0 {
      MulIsProduct(n - 1, k);
    }
  }

  /** More rows of the same length reach at least as far. */
  lemma {:induction false} MulGrows(m: nat, n: nat, k: nat)
    requires m <= n
    ensures Mul(m, k) <= Mul(n, k)
    decreases n
  {
    if m < n {
      MulGrows(m, n - 1, k);
    }
  }

  /** As many rows, each at least as long, reach at least as far. */
  lemma {:induction false} MulWider(n: nat, k: nat, l: nat)
    requires k <= l
    ensures Mul(n, k) <= Mul(n, l)
  {
    if n > 0 {
      MulWider(n - 1, k, l);
    }
  }

  function Pow2(n: nat): (p: nat)
    ensures p >= 1
  {
    if n == 0 then 1 else 2 * Pow2(n - 1)
  }

  /** Bitwise `&` of two non-negative integers, one bit at a time from the lowest. */
  function BitAnd(a: nat, b: nat): nat
  {
    if a == 0 || b == 0 then 0
    else 2 * BitAnd(a / 2, b / 2) + (if a % 2 == 1 && b % 2 == 1 then 1 else 0)
  }

  /** Bitwise `!` of the lowest `n` bits of `a`, one bit at a time from the lowest. */
  function BitNot(a: nat, n: nat): nat
  {
    if n == 0 then 0 else 2 * BitNot(a / 2, n - 1) + (1 - a % 2)
  }

  /** Inverting `n` bits subtracts them from `n` one bits. */
  lemma {:induction false} BitNotIsComplement(a: nat, n: nat)
    ensures BitNot(a, n) == Pow2(n) - 1 - a % Pow2(n)
  {
    if n > 0 {
      var p := Pow2(n - 1);
      BitNotIsComplement(a / 2, n - 1);
      HalveMod(a, p);
    }
  }

  lemma Pow2Of16()
    ensures Pow2(16) == 0x1_0000
  {
    assert Pow2(4) == 16;
    assert Pow2(8) == 16 * Pow2(4);
    assert Pow2(12) == 16 * Pow2(8);
    assert Pow2(16) == 16 * Pow2(12);
  }

  /** Bitwise `!` on a `u16`. */
  function Not16(v: u16): u16
  {
    0xFFFF - v
  }

  /** `Not16` inverts each of the sixteen bits. */
  lemma Not16IsBitwise(v: u16)
    ensures Not16(v) as nat == BitNot(v as nat, 16)
  {
    var a := v as nat;
    BitNotIsComplement(a, 16);
    Pow2Of16();
    DivModUnique(a, 0x1_0000, 0, a);
  }

  /** Masking with `n` one bits keeps the value modulo 2^n. */
  lemma {:induction false} AndLowOnes(a: nat, n: nat)
    ensures BitAnd(a, Pow2(n) - 1) == a % Pow2(n)
  {
    if n == 0 {
    } else if a == 0 {
    } else {
      var p := Pow2(n - 1);
      var m := Pow2(n) - 1;
      assert m == 2 * (p - 1) + 1;
      assert m / 2 == p - 1 && m % 2 == 1;
      AndLowOnes(a / 2, n - 1);
      assert BitAnd(a, m) == 2 * ((a / 2) % p) + a % 2;
      HalveMod(a, p);
    }
  }

  lemma HalveMod(a: nat, p: nat)
    requires p >= 1
    ensures a % (2 * p) == 2 * ((a / 2) % p) + a % 2
  {
    var q, r := (a / 2) / p, (a / 2) % p;
    assert a / 2 == q * p + r;
    assert a == 2 * (a / 2) + a % 2;
    assert a == q * (2 * p) + (2 * r + a % 2);
    DivModUnique(a, 2 * p, q, 2 * r + a % 2);
  }

  /** Masking with an even value drops the lowest bit and masks the rest with half of it. */
  lemma AndEven(a: nat, b: nat)
    ensures BitAnd(a, 2 * b) == 2 * BitAnd(a / 2, b)
  {
    if a != 0 && b != 0 {
      assert (2 * b) / 2 == b && (2 * b) % 2 == 0;
    }
  }

  /** `v & !3` on a `u16` clears the two lowest bits. */
  lemma ClearLowTwoBits(v: u16)
    ensures BitAnd(v as nat, Not16(3) as nat) == v as int - v as int % 4
  {
    var a := v as nat;
    var h := a / 2;
    var q := h / 2;
    assert a == 4 * q + (2 * (h % 2) + a % 2);
    DivModUnique(a, 4, q, 2 * (h % 2) + a % 2);
    AndEven(a, 0x7FFE);
    AndEven(h, 0x3FFF);
    assert Pow2(14) == 0x4000;
    AndLowOnes(q, 14);
    assert q % 0x4000 == q;
  }
}
