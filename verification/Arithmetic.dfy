/**
 64-bit division built from the 32-bit `divl` instruction.

 Unsigned and signed C integers are subset types of `int`; every shift, negation,
 product and narrowing conversion that the machine performs modulo a power of two
 is written out with `Wrap`/`%`, so the proofs have to show which of them lose nothing.
 */
module Arithmetic {
  import opened Bits

  const TWO31 := 0x8000_0000
  const TWO32 := 0x1_0000_0000
  const TWO63 := 0x8000_0000_0000_0000
  const TWO64 := 0x1_0000_0000_0000_0000

  type u32 = x: int | 0 <= x < 0x1_0000_0000
  type u64 = x: int | 0 <= x < 0x1_0000_0000_0000_0000
  type i32 = x: int | -0x8000_0000 <= x < 0x8000_0000
  type i64 = x: int | -0x8000_0000_0000_0000 <= x < 0x8000_0000_0000_0000

  /** A computation either yields a value or raises the CPU's divide error (#DE). */
  datatype Outcome<+T> = Value(v: T) | DivideError

  lemma {:induction false} Pow2Add(a: nat, b: nat)
    ensures Pow2(a + b) == Pow2(a) * Pow2(b)
    decreases b
  {
    if b != 0 {
      Pow2Add(a, b - 1);
      assert Pow2(a + b) == 2 * Pow2(a + (b - 1));
      assert Pow2(a) * Pow2(b) == Pow2(a) * (2 * Pow2(b - 1));
    }
  }

  lemma Pow2Values()
    ensures Pow2(0) == 1 && Pow2(1) == 2 && Pow2(2) == 4 && Pow2(4) == 16
    ensures Pow2(8) == 0x100 && Pow2(16) == 0x1_0000
    ensures Pow2(31) == TWO31 && Pow2(32) == TWO32
  {
    assert Pow2(2) == 4;
    Pow2Add(2, 2);
    Pow2Add(4, 4);
    Pow2Add(8, 8);
    Pow2Add(16, 15);
    Pow2Add(8, 7);
    Pow2Add(4, 3);
    assert Pow2(3) == 8;
  }

  /** The two's-complement reading of `x` in 64 (32) bits. */
  function Wrap64(x: int): (r: i64)
    ensures (x - r) % TWO64 == 0
  {
    var m := x % TWO64;
    if m < TWO63 then m else m - TWO64
  }

  function Wrap32(x: int): (r: i32)
    ensures (x - r) % TWO32 == 0
  {
    var m := x % TWO32;
    if m < TWO31 then m else m - TWO32
  }

  lemma WrapSmall(x: int)
    ensures -TWO63 <= x < TWO63 ==> Wrap64(x) == x
    ensures -TWO31 <= x < TWO31 ==> Wrap32(x) == x
  {
  }

  /** The `divl` instruction: traps on a zero divisor and on a quotient of more than 32 bits. */
  function Divl(n: u64, d: u32): Outcome<u32> {
    if n >= TWO32 * d then DivideError else
    QuotientBelow(n, d, TWO32);
    Value(n / d)
  }

  /** `Divl` traps exactly on the inputs for which the quotient is undefined or too wide. */
  lemma DivlTraps(n: u64, d: u32)
    ensures Divl(n, d).DivideError? <==> d == 0 || n / d >= TWO32
  {
    if d != 0 && n >= TWO32 * d {
      DivMod(n, d);
      Cancel(TWO32, n / d + 1, d);
    }
  }

  // ---- products and quotients ---------------------------------------------------

  lemma Distr(a: int, b: int, c: int)
    ensures (a + b) * c == a * c + b * c
  {
  }

  lemma Assoc(a: int, b: int, c: int)
    ensures (a * b) * c == a * (b * c)
  {
  }

  lemma Mono(a: int, b: int, c: int)
    requires a <= b && 0 <= c
    ensures a * c <= b * c
  {
  }

  lemma StrictMono(a: int, b: int, c: int)
    requires a < b && 0 < c
    ensures a * c < b * c
  {
  }

  lemma Cancel(a: int, b: int, c: int)
    requires 0 < c && a * c < b * c
    ensures a < b
  {
    if a >= b {
      Mono(b, a, c);
    }
  }

  lemma DivMod(n: int, d: int)
    requires d > 0
    ensures n == n / d * d + n % d && 0 <= n % d < d
    ensures n / d * d <= n < (n / d + 1) * d
  {
    Distr(n / d, 1, d);
  }

  lemma QuotientBelow(n: nat, d: nat, k: nat)
    requires d > 0 && n < k * d
    ensures 0 <= n / d < k
  {
    DivMod(n, d);
    Cancel(n / d, k, d);
    Cancel(-1, n / d, d);
  }

  lemma SmallMod(x: nat, m: nat)
    requires x < m
    ensures x % m == x
  {
  }

  /** A quotient is pinned down by its bracket. */
  lemma DivUnique(n: int, d: int, q: int)
    requires d > 0 && q * d <= n < (q + 1) * d
    ensures n / d == q && n % d == n - q * d
  {
    DivMod(n, d);
    Cancel(q, n / d + 1, d);
    Cancel(n / d, q + 1, d);
  }

  lemma DivDiv(a: nat, b: nat, c: nat)
    requires b > 0 && c > 0
    ensures b * c > 0 && a / b / c == a / (b * c)
  {
    var t := a / b;
    var q := t / c;
    DivMod(a, b);
    DivMod(t, c);
    StrictMono(0, c, b);
    var bc := b * c;
    assert q * bc <= a by {
      Mono(q * c, t, b);
      Assoc(q, c, b);
    }
    assert a < (q + 1) * bc by {
      Mono(t + 1, (q + 1) * c, b);
      Assoc(q + 1, c, b);
    }
    DivUnique(a, bc, q);
  }

  lemma QuotientAtMost(n: nat, d: nat)
    requires d > 0
    ensures 0 <= n / d <= n
  {
    Mono(1, d, n + 1);
    QuotientBelow(n, d, n + 1);
  }

  // ---- nlz ---------------------------------------------------------------------

  /**
   Counts leading zero bits by halving the distance to bit 31; the shifts are 32-bit.
   */
  method Nlz(x0: u32) returns (n: nat)
    requires x0 != 0
    ensures n <= 31
    ensures TWO31 <= Shifted(x0, n) < TWO32
  {
    var x: u32 := x0;
    n := 0;
    n, x := NlzProbe(x0, n, x, 0x0000_FFFF, 16, 0x1_0000);
    n, x := NlzProbe(x0, n, x, 0x00FF_FFFF, 8, 0x100);
    n, x := NlzProbe(x0, n, x, 0x0FFF_FFFF, 4, 16);
    n, x := NlzProbe(x0, n, x, 0x3FFF_FFFF, 2, 4);
    NlzLast(x0, n, x);
    if x <= 0x7FFF_FFFF {
      n := n + 1;
    }
  }

  /** One repetition of `nlz`'s pattern: if the top `k` bits are clear, count them and shift them out. */
  method NlzProbe(ghost x0: u32, n: nat, x: u32, limit: nat, k: nat, p: nat) returns (n': nat, x': u32)
    requires (k, p) in {(16, 0x1_0000), (8, 0x100), (4, 16), (2, 4)}
    requires (limit + 1) * p == TWO32 && limit < x * p && x == Shifted(x0, n)
    ensures n <= n' <= n + k && limit < x' && x' == Shifted(x0, n')
  {
    n', x' := n, x;
    if x <= limit {
      Mono(x, limit, p);
      Distr(limit, 1, p);
      NlzStep(x0, n, x, k, p);
      n', x' := n + k, (x * p) % TWO32;
    }
  }

  /** Shifting a word left by `k` when its top `k` bits are clear loses nothing. */
  lemma NlzStep(x0: nat, n: nat, x: nat, k: nat, p: nat)
    requires (k, p) in {(16, 0x1_0000), (8, 0x100), (4, 16), (2, 4)}
    requires x == Shifted(x0, n) && x * p < TWO32
    ensures (x * p) % TWO32 == x * p == Shifted(x0, n + k)
  {
    Pow2Values();
    Pow2Add(n, k);
    ShiftedIsProduct(x0, n);
    ShiftedIsProduct(x0, n + k);
    Assoc(x0, Pow2(n), p);
  }

  lemma NlzLast(x0: nat, n: nat, x: nat)
    requires x == Shifted(x0, n) && 0x4000_0000 <= x < TWO32
    ensures TWO31 <= Shifted(x0, if x <= 0x7FFF_FFFF then n + 1 else n) < TWO32
  {
    assert Shifted(x0, n + 1) == 2 * x;
  }

  /** `x` shifted left by `n`, without a width. */
  function Shifted(x: nat, n: nat): (y: nat)
    decreases n
  {
    if n == 0 then x else 2 * Shifted(x, n - 1)
  }

  lemma {:induction false} ShiftedIsProduct(x: nat, n: nat)
    ensures Shifted(x, n) == x * Pow2(n)
    decreases n
  {
    if n != 0 {
      ShiftedIsProduct(x, n - 1);
      Assoc(x, 2, Pow2(n - 1));
      Assoc(2, x, Pow2(n - 1));
    }
  }

  /** At most one shift count normalises a nonzero word, so `Nlz` has one possible answer. */
  lemma NlzUnique(x: u32, a: nat, b: nat)
    requires a < b && TWO31 <= x * Pow2(a) < TWO32
    ensures !(TWO31 <= x * Pow2(b) < TWO32)
  {
    Pow2Add(a, b - a);
    Pow2AtLeastTwo(b - a);
    Assoc(x, Pow2(a), Pow2(b - a));
    var y := x * Pow2(a);
    Mono(2, Pow2(b - a), y);
  }

  lemma Pow2AtLeastTwo(k: nat)
    requires k > 0
    ensures Pow2(k) >= 2
  {
  }

  // ---- unsigned division --------------------------------------------------------

  /** Replacing the divisor `d` by a slightly smaller `e` overshoots the quotient by at most one. */
  lemma QuotientBracket(n: nat, d: nat, e: nat)
    requires 0 < e <= d && n * (d - e) < d * e
    ensures n / d <= n / e <= n / d + 1
  {
    var q := n / d;
    assert q * d <= n < (q + 1) * d by { DivMod(n, d); }
    assert q * e <= n by { Mono(e, d, q); }
    BelowNext(n, d, e, q);
    DivMod(n, e);
    Cancel(q, n / e + 1, e);
    Cancel(n / e, q + 2, e);
  }

  lemma BelowNext(n: nat, d: nat, e: nat, q: nat)
    requires 0 < e <= d && n * (d - e) < d * e && n < (q + 1) * d
    ensures n < (q + 2) * e
  {
    var w := (q + 2) * e;
    assert n + d < (q + 2) * d by { Distr(q + 1, 1, d); }
    assert n * d < (n + d) * e by { Distr(d - e, e, n); Distr(n, d, e); }
    assert (n + d) * e <= w * d by {
      Mono(n + d, (q + 2) * d, e);
      Assoc(q + 2, d, e);
      Assoc(q + 2, e, d);
    }
    Cancel(n, w, d);
  }

  /**
   The truncated, normalised divisor: with `d` shifted so that bit 63 is set and cut to
   its upper 32 bits `dn`, the value `dn * E` is below `d` by less than `E`, where the
   shift multiplies by `S` and `S * E` is 2^32.
   */
  lemma NormalisedDivisor(d: nat, S: nat, E: nat, dn: nat)
    requires S * E == TWO32 && TWO63 <= d * S < TWO64 && dn == d * S / TWO32
    ensures TWO31 <= dn < TWO32
    ensures dn * E <= d < (dn + 1) * E
  {
    var z := d * S;
    assert dn * TWO32 <= z < (dn + 1) * TWO32;
    assert S > 0;
    Assoc(dn, E, S);
    Assoc(dn + 1, E, S);
    Cancel(dn * E, d + 1, S) by { Distr(d, 1, S); }
    Cancel(d, (dn + 1) * E, S);
  }

  /** (E - 2)^2 >= 0, scaled: the error stays below the product of the divisors. */
  lemma ScaledSquare(E: nat, f: nat)
    requires E >= 2 && f >= TWO31 * E
    ensures f * f >= TWO64 * (E - 1)
  {
    var g := TWO31 * E;
    assert g * g <= f * f by { Mono(g, f, g); Mono(g, f, f); }
    assert g * g == (TWO31 * TWO31) * (E * E) by {
      Assoc(TWO31, E, g);
      Assoc(E, TWO31, E);
      Assoc(TWO31, E, E);
    }
    assert E * E >= 4 * (E - 1) by { Mono(0, E - 2, E - 2); Distr(E, -2, E - 2); Distr(E, -2, E); }
  }

  /** The estimate error is small enough for `QuotientBracket`, for every 64-bit dividend. */
  lemma EstimateError(n: u64, d: nat, E: nat, dn: nat)
    requires E >= 2 && TWO31 <= dn && dn * E <= d < (dn + 1) * E
    ensures 0 < dn * E && n * (d - dn * E) < d * (dn * E)
  {
    var e := dn * E;
    Mono(TWO31, dn, E);
    ScaledSquare(E, e);
    Mono(e, d, e);
    Distr(dn, 1, E);
    Mono(d - e, E - 1, n);
    StrictMono(n, TWO64, E - 1);
  }

  /** The estimate computed by one `divl` and two shifts is the quotient or one more. */
  lemma EstimateBracket(n: u64, d: u64, s: nat, dn: u32)
    requires d > 0 && s <= 31 && TWO63 <= Shifted(d, s) < TWO64 && dn == Shifted(d, s) / TWO32
    ensures dn > 0 && n / 2 < TWO32 * dn
    ensures n / d <= n / 2 / dn / Pow2(31 - s) <= n / d + 1
  {
    Pow2Values();
    Pow2Add(s, 32 - s);
    ShiftedIsProduct(d, s);
    var E, H := Pow2(32 - s), Pow2(31 - s);
    assert E == 2 * H;
    NormalisedDivisor(d, Pow2(s), E, dn);
    EstimateError(n, d, E, dn);
    QuotientBracket(n, d, dn * E);
    EstimateShifts(n, dn, H);
  }

  lemma EstimateShifts(n: nat, dn: nat, H: nat)
    requires dn > 0 && H > 0
    ensures dn * (2 * H) > 0 && n / 2 / dn / H == n / (dn * (2 * H))
  {
    DivDiv(n, 2, dn);
    DivDiv(n, 2 * dn, H);
    Assoc(dn, 2, H);
  }

  /** The narrow-divisor branch: long division in base 2^32. */
  lemma NarrowDivision(n: u64, d: u32)
    requires d != 0
    ensures TWO32 * (n / TWO32 % d) + n % TWO32 < TWO32 * d
    ensures n / d == (TWO32 * (n / TWO32 % d) + n % TWO32) / d + TWO32 * (n / TWO32 / d)
  {
    var n1, n0 := n / TWO32, n % TWO32;
    var t, m := n1 / d, n1 % d;
    DivMod(n1, d);
    var low := TWO32 * m + n0;
    var p := low / d;
    DivMod(low, d);
    var q := p + TWO32 * t;
    Assoc(TWO32, t, d);
    Distr(p, TWO32 * t, d);
    Distr(p + 1, TWO32 * t, d);
    DivUnique(n, d, q);
  }

  /**
   `udiv64`: no `divl` traps unless the divisor is zero, and the quotient is exact.
   */
  method Udiv64(n: u64, d: u64) returns (r: Outcome<u64>)
    ensures d == 0 ==> r == DivideError
    ensures d != 0 ==> r == Value(n / d)
  {
    if d / TWO32 == 0 {
      r := UdivNarrow(n, d);
    } else if n < d {
      DivUnique(n, d, 0);
      r := Value(0);
    } else {
      r := UdivWide(n, d);
    }
  }

  /** The branch of `udiv64` for divisors that fit in 32 bits. */
  method UdivNarrow(n: u64, d: u64) returns (r: Outcome<u64>)
    requires d < TWO32
    ensures d == 0 ==> r == DivideError
    ensures d != 0 ==> r == Value(n / d)
  {
    var n1: u32, n0: u32, d0: u32 := n / TWO32, n % TWO32, d % TWO32;
    assert d0 == d;
    if d0 == 0 {
      return DivideError;  // n1 % d0 already raises it
    }
    NarrowNoTrap(n, d0);
    r := NarrowQuotient(n1, n0, d0);
  }

  /** `divl (b * (n1 % d) + n0, d) + b * (n1 / d)` */
  function NarrowQuotient(n1: u32, n0: u32, d: u32): Outcome<u64>
    requires d != 0
  {
    var rest: u64 := (TWO32 * (n1 % d) + n0) % TWO64;
    match Divl(rest, d)
    case DivideError => DivideError
    case Value(low) => Value((low + TWO32 * (n1 / d)) % TWO64)
  }

  lemma NarrowNoTrap(n: u64, d: u32)
    requires d != 0
    ensures NarrowQuotient(n / TWO32, n % TWO32, d) == Value(n / d)
  {
    var n1, n0 := n / TWO32, n % TWO32;
    NarrowDivision(n, d);
    assert 0 <= n1 % d by { DivMod(n1, d); }
    var rest := TWO32 * (n1 % d) + n0;
    SmallMod(rest, TWO64);
    QuotientAtMost(n, d);
    assert Divl(rest, d) == Value(rest / d);
    SmallMod(n / d, TWO64);
  }

  /** The branch of `udiv64` for wider divisors, with its one correction. */
  method UdivWide(n: u64, d: u64) returns (r: Outcome<u64>)
    requires TWO32 <= d <= n
    ensures r == Value(n / d)
  {
    var d1: u32 := d / TWO32;
    var s := Nlz(d1);
    ShiftedDivisor(d, s);
    var dn: u32 := Shifted(d, s) % TWO64 / TWO32;
    EstimateBracket(n, d, s, dn);
    var t := Divl(n / 2, dn);
    if t.DivideError? {
      return DivideError;
    }
    QuotientAtMost(t.v, Pow2(31 - s));
    var q: u64 := t.v / Pow2(31 - s);
    r := Value(Corrected(n, d, q));
  }

  /** `n - (q - 1) * d < d ? q - 1 : q`, every operation modulo 2^64. */
  function Corrected(n: u64, d: u64, q: u64): (r: u64)
    requires 0 < d <= n && n / d <= q <= n / d + 1
    ensures r == n / d
  {
    Correction(n, d, q);
    SmallMod(q - 1, TWO64);
    var q1: u64 := (q - 1) % TWO64;
    SmallMod(q1 * d, TWO64);
    var product: u64 := q1 * d % TWO64;
    SmallMod(n - product, TWO64);
    var back: u64 := (n - product) % TWO64;
    if back < d then q1 else q
  }

  lemma ShiftedDivisor(d: u64, s: nat)
    requires s <= 31 && TWO31 <= Shifted(d / TWO32, s) < TWO32
    ensures TWO63 <= Shifted(d, s) < TWO64
  {
    var d1, S, E := d / TWO32, Pow2(s), Pow2(32 - s);
    assert E * S == TWO32 by {
      Pow2Values();
      Pow2Add(32 - s, s);
    }
    ShiftedIsProduct(d1, s);
    ShiftedIsProduct(d, s);
    ShiftedBracket(d, d1, S, E);
  }

  lemma ShiftedBracket(d: nat, d1: nat, S: nat, E: nat)
    requires S > 0 && E * S == TWO32 && TWO31 <= d1 * S < TWO32
    requires d1 * TWO32 <= d < (d1 + 1) * TWO32
    ensures TWO63 <= d * S < TWO64
  {
    // d1 * S and 2^32 are both multiples of S, so the gap between them is at least S
    Cancel(d1, E, S);
    Mono(d1 * TWO32, d, S);
    StrictMono(d, (d1 + 1) * TWO32, S);
    Mono(d1 + 1, E, S);
    Assoc(TWO32, d1, S);
    Assoc(TWO32, d1 + 1, S);
  }

  /** Comparing the back-multiplied remainder with `d` tells the two estimates apart. */
  lemma Correction(n: u64, d: u64, q: nat)
    requires 0 < d <= n && n / d <= q <= n / d + 1
    ensures 1 <= q && 0 <= (q - 1) * d <= n
    ensures n - (q - 1) * d < d <==> q == n / d + 1
  {
    var p := n / d;
    DivMod(n, d);
    Cancel(0, p, d) by { Distr(p, 1, d); }
    Distr(p - 1, 1, d);
    Mono(0, p - 1, d);
  }

  /** `umod64` returns only the low 32 bits of the remainder. */
  method Umod64(n: u64, d: u64) returns (r: Outcome<u32>)
    ensures d == 0 ==> r == DivideError
    ensures d != 0 ==> r == Value((n % d) % TWO32)
  {
    var q := Udiv64(n, d);
    if q.DivideError? {
      return DivideError;
    }
    return Value(Remainder(n, d, q.v) % TWO32);
  }

  /** `n - d * q`, modulo 2^64. */
  function Remainder(n: u64, d: u64, q: u64): (r: u64)
    requires d > 0 && q == n / d
    ensures r == n % d
  {
    DivMod(n, d);
    Mono(0, q, d);
    var product := d * q;
    SmallMod(product, TWO64);
    SmallMod(n - product, TWO64);
    (n - product % TWO64) % TWO64
  }

  /** The narrow result is the true remainder for every dividend exactly when d <= 2^32. */
  lemma UmodExactIff(d: u64)
    requires d != 0
    ensures (forall n: u64 :: (n % d) % TWO32 == n % d) <==> d <= TWO32
  {
    if d <= TWO32 {
      forall n: u64 ensures (n % d) % TWO32 == n % d {
        assert n % d < TWO32;
      }
    } else {
      var n: u64 := TWO32;
      assert n % d == TWO32 by { DivUnique(n, d, 0); }
      assert (n % d) % TWO32 != n % d;
    }
  }

  // ---- signed division ------------------------------------------------------------

  function Abs(x: int): nat {
    if x < 0 then -x else x
  }

  /** Division that truncates toward zero. */
  function TruncDiv(n: int, d: int): int
    requires d != 0
  {
    var q := Abs(n) / Abs(d);
    if (n < 0) == (d < 0) then q else -q
  }

  function TruncMod(n: int, d: int): int
    requires d != 0
  {
    n - d * TruncDiv(n, d)
  }

  /**
   What truncating division means, without a formula: the remainder is smaller than the divisor
   and leans toward zero.
   */
  lemma TruncDivMeaning(n: int, d: int)
    requires d != 0
    ensures Abs(TruncMod(n, d)) < Abs(d)
    ensures TruncMod(n, d) != 0 ==> (TruncMod(n, d) < 0 <==> n < 0)
    ensures Abs(TruncMod(n, d)) == Abs(n) % Abs(d)
  {
    DivMod(Abs(n), Abs(d));
    SignedProduct(n, d);
  }

  lemma SignedProduct(n: int, d: int)
    requires d != 0
    ensures d * TruncDiv(n, d) == if n < 0 then -(Abs(n) / Abs(d) * Abs(d)) else Abs(n) / Abs(d) * Abs(d)
  {
    var q := Abs(n) / Abs(d);
    if d < 0 {
      assert q * (-d) == -(d * q);
      assert d * (-q) == -(d * q);
    }
  }

  /** `q_abs` always fits, and only the most negative dividend over -1 leaves the signed range. */
  lemma TruncDivRange(n: i64, d: i64)
    requires d != 0
    ensures 0 <= Abs(n) / Abs(d) <= Abs(n) <= TWO63
    ensures (-TWO63 <= TruncDiv(n, d) < TWO63) <==> !(n == -TWO63 && d == -1)
  {
    QuotientAtMost(Abs(n), Abs(d));
    if Abs(d) >= 2 {
      DivMod(Abs(n), Abs(d));
      Mono(2, Abs(d), Abs(n) / Abs(d));
    }
  }

  method Sdiv64(n: i64, d: i64) returns (r: Outcome<i64>)
    ensures d == 0 ==> r == DivideError
    ensures d != 0 ==> r.Value?
    ensures d != 0 && !(n == -TWO63 && d == -1) ==> r == Value(TruncDiv(n, d))
    ensures n == -TWO63 && d == -1 ==> r == Value(-TWO63)
  {
    var nAbs: u64 := if n >= 0 then n else Negate64(n);
    var dAbs: u64 := if d >= 0 then d else Negate64(d);
    var q := Udiv64(nAbs, dAbs);
    if q.DivideError? {
      return DivideError;
    }
    TruncDivRange(n, d);
    r := Value(WithSign((n < 0) == (d < 0), q.v));
  }

  /** `-(uint64_t) n` for a negative `n`. */
  function Negate64(n: i64): (r: u64)
    requires n < 0
    ensures r == Abs(n)
  {
    var asUnsigned: u64 := n % TWO64;
    (0 - asUnsigned) % TWO64
  }

  /** `same ? (int64_t) q : -(int64_t) q` in two's complement. */
  function WithSign(same: bool, q: u64): (r: i64)
    requires q <= TWO63
    ensures q < TWO63 || !same ==> r == if same then q else 0 - q
    ensures q == TWO63 ==> r == -TWO63
  {
    var signed := Wrap64(q);
    if same then signed else Wrap64(0 - signed)
  }

  /** `smod64` narrows the remainder to 32 signed bits; even the wrapped quotient gives remainder 0. */
  method Smod64(n: i64, d: i64) returns (r: Outcome<i32>)
    ensures d == 0 ==> r == DivideError
    ensures d != 0 ==> r == Value(Wrap32(TruncMod(n, d)))
  {
    var q := Sdiv64(n, d);
    if q.DivideError? {
      return DivideError;
    }
    RemainderInRange(n, d);
    var remainder := WrappedRemainder(n, d, q.v);
    assert remainder == TruncMod(n, d);
    r := Value(Wrap32(remainder));
  }

  lemma RemainderInRange(n: i64, d: i64)
    requires d != 0
    ensures -TWO63 <= d * TruncDiv(n, d) < TWO63
    ensures -TWO63 <= TruncMod(n, d) < TWO63
    ensures n == -TWO63 && d == -1 ==> TruncMod(n, d) == 0
  {
    SignedProduct(n, d);
    DivMod(Abs(n), Abs(d));
    QuotientAtMost(Abs(n), Abs(d));
    Mono(0, Abs(n) / Abs(d), Abs(d));
  }

  /** `n - d * q` in 64-bit two's complement. */
  function WrappedRemainder(n: i64, d: i64, q: i64): (r: i64)
    requires -TWO63 <= d * q < TWO63 || (d == -1 && q == -TWO63)
    ensures -TWO63 <= d * q < TWO63 && -TWO63 <= n - d * q < TWO63 ==> r == n - d * q
    ensures n == -TWO63 && d == -1 && q == -TWO63 ==> r == 0
  {
    var product := d * q;
    WrapSmall(product);
    WrapSmall(n - product);
    Wrap64(n - Wrap64(product))
  }

  /** The signed remainder is exact for every dividend exactly when |d| <= 2^31. */
  lemma Wrap32Fits(x: int)
    ensures Wrap32(x) == x <==> -TWO31 <= x < TWO31
  {
  }

  lemma SmodExactIff(d: i64)
    requires d != 0
    ensures (forall n: i64 :: Wrap32(TruncMod(n, d)) == TruncMod(n, d)) <==> Abs(d) <= TWO31
  {
    hide Wrap32;
    if Abs(d) <= TWO31 {
      hide TruncMod;
      forall n: i64 ensures Wrap32(TruncMod(n, d)) == TruncMod(n, d) {
        TruncDivMeaning(n, d);
        Wrap32Fits(TruncMod(n, d));
      }
    } else {
      var n: i64 := TWO31;
      DivUnique(n, Abs(d), 0);
      assert TruncMod(n, d) == TWO31;
      Wrap32Fits(TWO31);
    }
  }
}
