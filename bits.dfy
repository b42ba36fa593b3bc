// 32-bit machine words as integers.  A word is an integer in [0, 2^32); the
// bitwise operations the ARM selection rules rely on (AND with masks, bit
// field extract and clear) are defined arithmetically and related to
// division and remainder by powers of two.

module Bits {

  import opened Wrappers

  const Word: int := 0x1_0000_0000

  predicate IsWord(x: int) { 0 <= x < Word }

  predicate IsInt32(x: int) { -0x8000_0000 <= x < 0x8000_0000 }

  /** The unsigned word holding the two's-complement bits of `x`. */
  function U32(x: int): (r: int)
    ensures IsWord(r)
    ensures (x - r) % Word == 0
  {
    x % Word
  }

  /** The signed reading of the low 32 bits of `x`. */
  function S32(x: int): (r: int)
    ensures IsInt32(r)
    ensures U32(r) == U32(x)
  {
    var u := x % Word;
    if u < 0x8000_0000 then u else u - Word
  }

  function Pow2(n: nat): (r: nat)
    ensures r >= 1
  {
    if n == 0 then 1 else 2 * Pow2(n - 1)
  }

  /** The mask of the `w` low bits, `0xffffffff >> (32 - w)` for w in [0, 32]. */
  function LowMask(w: nat): nat
  {
    Pow2(w) - 1
  }

  // ---------------------------------------------------------------------
  // Arithmetic facts about powers of two.

  lemma {:induction false} Pow2Add(a: nat, b: nat)
    ensures Pow2(a + b) == Pow2(a) * Pow2(b)
  {
    if a > 0 {
      Pow2Add(a - 1, b);
      assert Pow2(a + b) == 2 * Pow2(a - 1 + b);
    }
  }

  lemma {:induction false} Pow2Strict(a: nat, b: nat)
    requires a < b
    ensures Pow2(a) < Pow2(b)
  {
    if b - 1 > a {
      Pow2Strict(a, b - 1);
    }
  }

  lemma Pow2Word()
    ensures Pow2(8) == 256
    ensures Pow2(16) == 0x1_0000
    ensures Pow2(30) == 0x4000_0000
    ensures Pow2(31) == 0x8000_0000
    ensures Pow2(32) == Word
  {
    assert Pow2(8) == 256;
    Pow2Add(8, 8);
    Pow2Add(16, 8);
    Pow2Add(24, 6);
    assert Pow2(6) == 64;
    assert Pow2(7) == 128;
    Pow2Add(24, 7);
    Pow2Add(16, 16);
  }

  lemma MulAtLeast(d: int, k: int)
    requires d > 0 && k >= 1
    ensures d * k >= d
  {
  }

  lemma MulMonotone(a: int, u: int, v: int)
    requires a >= 0 && u <= v
    ensures a * u <= a * v
  {
  }

  lemma MulAddOne(x: int, p: int)
    ensures x * (p + 1) == x * p + x
  {
  }

  lemma MulSubDistributes(a: int, b: int, c: int)
    ensures (a - b) * c == a * c - b * c
  {
  }

  /** Division with remainder is unique. */
  lemma DivModUnique(x: int, d: int, q: int, r: int)
    requires d > 0 && 0 <= r < d && x == d * q + r
    ensures x / d == q && x % d == r
  {
    var q', r' := x / d, x % d;
    assert d * q' + r' == x;
    assert d * (q' - q) == r - r';
    if q' - q >= 1 {
      MulAtLeast(d, q' - q);
    } else if q - q' >= 1 {
      MulAtLeast(d, q - q');
    }
  }

  lemma DivDiv(x: nat, a: nat, b: nat)
    requires a > 0 && b > 0
    ensures x / a / b == x / (a * b)
  {
    var q, r := x / a, x % a;
    var q2, r2 := q / b, q % b;
    assert x == a * q + r;
    assert q == b * q2 + r2;
    assert a * q == (a * b) * q2 + a * r2;
    MulMonotone(a, r2, b - 1);
    assert a * (b - 1) == a * b - a;
    DivModUnique(x, a * b, q2, a * r2 + r);
  }

  /** The remainder by 2p splits into the remainder of the halved value and the low bit. */
  lemma ModDouble(x: nat, p: nat)
    requires p > 0
    ensures x % (2 * p) == 2 * ((x / 2) % p) + x % 2
    ensures (x % (2 * p)) / 2 == (x / 2) % p
    ensures (x % (2 * p)) % 2 == x % 2
  {
    var h := x / 2;
    assert x == 2 * h + x % 2;
    assert h == p * (h / p) + h % p;
    assert 2 * (p * (h / p)) == (2 * p) * (h / p);
    DivModUnique(x, 2 * p, h / p, 2 * (h % p) + x % 2);
    DivModUnique(x % (2 * p), 2, h % p, x % 2);
  }

  // ---------------------------------------------------------------------
  // Bitwise AND.

  /** 1 when both low bits are set. */
  function LowBitAnd(a: nat, b: nat): nat
  {
    if a % 2 == 1 && b % 2 == 1 then 1 else 0
  }

  /** Bitwise AND of two non-negative integers, bit by bit from the bottom. */
  function BitAnd(a: nat, b: nat): nat
    decreases a
  {
    if a == 0 || b == 0 then 0 else 2 * BitAnd(a / 2, b / 2) + LowBitAnd(a, b)
  }

  lemma BitAndStep(a: nat, b: nat)
    ensures BitAnd(a, b) == 2 * BitAnd(a / 2, b / 2) + LowBitAnd(a, b)
  {
    if a == 0 {
      assert BitAnd(a / 2, b / 2) == 0;
    } else if b == 0 {
      assert BitAnd(a / 2, b / 2) == 0;
    }
  }

  lemma {:induction false} BitAndCommutes(a: nat, b: nat)
    ensures BitAnd(a, b) == BitAnd(b, a)
  {
    if a != 0 && b != 0 {
      BitAndCommutes(a / 2, b / 2);
    }
  }

  lemma {:induction false} BitAndSelf(a: nat)
    ensures BitAnd(a, a) == a
  {
    if a != 0 {
      BitAndSelf(a / 2);
    }
  }

  lemma {:induction false} BitAndBelow(a: nat, b: nat)
    ensures BitAnd(a, b) <= a
  {
    if a != 0 && b != 0 {
      BitAndBelow(a / 2, b / 2);
    }
  }

  /** AND with the low mask of width w keeps exactly the w low bits. */
  lemma {:induction false} BitAndLowMask(x: nat, w: nat)
    ensures BitAnd(x, LowMask(w)) == x % Pow2(w)
  {
    if w > 0 {
      var m := LowMask(w);
      assert m / 2 == LowMask(w - 1) && m % 2 == 1;
      BitAndStep(x, m);
      BitAndLowMask(x / 2, w - 1);
      ModDouble(x, Pow2(w - 1));
    }
  }

  /** The bits of `x` from bit k upwards, `x >> k`. */
  function Hi(x: nat, k: nat): nat
  {
    DivNonNegative(x, Pow2(k));
    x / Pow2(k)
  }

  lemma DivNonNegative(x: nat, d: int)
    requires d >= 1
    ensures x / d >= 0
  {
  }

  /** The k low bits of `x`. */
  function Lo(x: nat, k: nat): nat
  {
    x % Pow2(k)
  }

  /** A value split at bit k into a high part `a` and a low part `b`. */
  function Join(a: nat, b: nat, k: nat): nat
  {
    a * Pow2(k) + b
  }

  lemma HiLoJoin(x: nat, k: nat)
    ensures x == Join(Hi(x, k), Lo(x, k), k)
    ensures Lo(x, k) < Pow2(k)
  {
  }

  /** Splitting a joined value gives back its parts. */
  lemma JoinHiLo(a: nat, b: nat, k: nat)
    requires b < Pow2(k)
    ensures Hi(Join(a, b, k), k) == a && Lo(Join(a, b, k), k) == b
  {
    DivModUnique(Join(a, b, k), Pow2(k), a, b);
  }

  /** Halving a mask split at bit k > 0 halves its low part. */
  lemma HalveJoin(a: nat, b: nat, k: nat)
    requires k > 0 && b < Pow2(k)
    ensures Join(a, b, k) / 2 == Join(a, b / 2, k - 1)
    ensures Join(a, b, k) % 2 == b % 2
    ensures b / 2 < Pow2(k - 1)
  {
    var p := Pow2(k - 1);
    assert a * (2 * p) == 2 * (a * p);
    assert Join(a, b, k) == 2 * Join(a, b / 2, k - 1) + b % 2;
    DivModUnique(Join(a, b, k), 2, Join(a, b / 2, k - 1), b % 2);
  }

  /** Shifting by k is halving, then shifting by k - 1. */
  lemma HalveHiLo(x: nat, k: nat)
    requires k > 0
    ensures Hi(x, k) == Hi(x / 2, k - 1)
    ensures Lo(x, k) / 2 == Lo(x / 2, k - 1)
    ensures Lo(x, k) % 2 == x % 2
  {
    DivDiv(x, 2, Pow2(k - 1));
    ModDouble(x, Pow2(k - 1));
  }

  lemma JoinDouble(h: nat, l: nat, c: nat, k: nat)
    requires k > 0
    ensures 2 * Join(h, l, k - 1) + c == Join(h, 2 * l + c, k)
  {
    var p := Pow2(k - 1);
    assert Pow2(k) == 2 * p;
    assert h * (2 * p) == 2 * (h * p);
  }

  /**
   * A mask made of a high part `a` above bit k and a low part `b` below it
   * acts separately on the bits of `x` above and below bit k.
   */
  lemma {:induction false} BitAndSplit(x: nat, a: nat, b: nat, k: nat)
    requires b < Pow2(k)
    ensures BitAnd(x, Join(a, b, k)) == Join(BitAnd(Hi(x, k), a), BitAnd(Lo(x, k), b), k)
  {
    if k > 0 {
      var m := Join(a, b, k);
      HalveJoin(a, b, k);
      HalveHiLo(x, k);
      BitAndStep(x, m);
      assert LowBitAnd(x, m) == LowBitAnd(x, b);
      BitAndSplit(x / 2, a, b / 2, k - 1);
      BitAndStep(Lo(x, k), b);
      assert LowBitAnd(Lo(x, k), b) == LowBitAnd(x, b);
      var hi, lo := BitAnd(Hi(x, k), a), BitAnd(Lo(x / 2, k - 1), b / 2);
      calc {
        BitAnd(x, m);
        2 * BitAnd(x / 2, Join(a, b / 2, k - 1)) + LowBitAnd(x, b);
        2 * Join(hi, lo, k - 1) + LowBitAnd(x, b);
        { JoinDouble(hi, lo, LowBitAnd(x, b), k); }
        Join(hi, 2 * lo + LowBitAnd(x, b), k);
        Join(hi, BitAnd(Lo(x, k), b), k);
      }
    }
  }

  // ---------------------------------------------------------------------
  // Bit fields, with the meaning ARM gives UBFX and BFC.

  /** The `w`-bit field of `x` starting at bit `lsb`, zero-extended (UBFX). */
  function Ubfx(x: nat, lsb: nat, w: nat): nat
  {
    Lo(Hi(x, lsb), w)
  }

  /** `x` with its `w`-bit field at bit `lsb` cleared (BFC). */
  function Bfc(x: nat, lsb: nat, w: nat): int
  {
    x - Ubfx(x, lsb, w) * Pow2(lsb)
  }

  /** Bitwise complement of a word. */
  function Not32(x: int): int
  {
    Word - 1 - U32(x)
  }

  /** The shifted mask `(0xffffffff >> (32 - w)) << lsb`. */
  function FieldMask(lsb: nat, w: nat): nat
  {
    Join(LowMask(w), 0, lsb)
  }

  lemma FieldMaskValue(lsb: nat, w: nat)
    ensures FieldMask(lsb, w) == Pow2(lsb + w) - Pow2(lsb)
  {
    var m, l := Pow2(w), Pow2(lsb);
    Pow2Add(w, lsb);
    MulSubDistributes(m, 1, l);
    assert FieldMask(lsb, w) == (m - 1) * l;
  }

  lemma FieldMaskIsWord(lsb: nat, w: nat)
    requires lsb + w <= 32
    ensures IsWord(FieldMask(lsb, w))
  {
    FieldMaskValue(lsb, w);
    Pow2Word();
    if lsb + w < 32 {
      Pow2Strict(lsb + w, 32);
    }
  }

  /** AND with the low mask of width w extracts the w-bit field at bit 0. */
  lemma AndLowMaskIsUbfx(x: nat, w: nat)
    ensures BitAnd(x, LowMask(w)) == Ubfx(x, 0, w)
  {
    BitAndLowMask(x, w);
  }

  /**
   * Shifting right by lsb after AND with a field mask whose bits below lsb
   * are arbitrary (`junk`) extracts the field: the junk bits are shifted out.
   */
  lemma ShrOfAndIsUbfx(x: nat, lsb: nat, w: nat, junk: nat)
    requires junk < Pow2(lsb)
    ensures Hi(BitAnd(x, Join(LowMask(w), junk, lsb)), lsb) == Ubfx(x, lsb, w)
  {
    BitAndSplit(x, LowMask(w), junk, lsb);
    BitAndBelow(Lo(x, lsb), junk);
    BitAndLowMask(Hi(x, lsb), w);
    JoinHiLo(BitAnd(Hi(x, lsb), LowMask(w)), BitAnd(Lo(x, lsb), junk), lsb);
  }

  /** AND of a right-shifted word with a low mask extracts the field. */
  lemma AndOfShrIsUbfx(x: nat, lsb: nat, w: nat)
    ensures BitAnd(Hi(x, lsb), LowMask(w)) == Ubfx(x, lsb, w)
  {
    BitAndLowMask(Hi(x, lsb), w);
  }

  lemma NotFieldMaskArith(lsb: nat, w: nat, hb: nat)
    ensures Pow2(lsb + w + hb) - 1 - FieldMask(lsb, w) == Join(FieldMask(w, hb), LowMask(lsb), lsb)
  {
    FieldMaskValue(lsb, w);
    FieldMaskValue(w, hb);
    Pow2Add(w + hb, lsb);
    Pow2Add(w, lsb);
    ComplementAlgebra(Pow2(lsb + w + hb), Pow2(lsb + w), Pow2(lsb), Pow2(w + hb), Pow2(w));
  }

  lemma ComplementAlgebra(top: int, field: int, l: int, high: int, low: int)
    requires top == high * l && field == low * l
    ensures top - 1 - (field - l) == (high - low) * l + (l - 1)
  {
    MulSubDistributes(high, low, l);
  }

  /** The complement of a field mask is a high mask above the field joined with a low mask below it. */
  lemma NotFieldMaskSplit(lsb: nat, w: nat)
    requires lsb + w <= 32
    ensures Not32(FieldMask(lsb, w)) == Join(FieldMask(w, 32 - lsb - w), LowMask(lsb), lsb)
  {
    FieldMaskIsWord(lsb, w);
    NotFieldMaskArith(lsb, w, 32 - lsb - w);
    Pow2Word();
  }

  /** A value below 2^(n+k) has fewer than n bits above bit k. */
  lemma HiBound(y: nat, n: nat, k: nat)
    requires y < Pow2(n + k)
    ensures Hi(y, k) < Pow2(n)
  {
    var p, q, h := Pow2(k), Pow2(n), Hi(y, k);
    Pow2Add(n, k);
    HiLoJoin(y, k);
    assert y == h * p + Lo(y, k);
    if h >= q {
      MulMonotone(p, q, h);
    }
  }

  /** AND with a high mask above bit w clears the w low bits of a value that fits the mask. */
  lemma AndHighMask(y: nat, hb: nat, w: nat)
    requires y < Pow2(hb + w)
    ensures BitAnd(y, FieldMask(w, hb)) == y - Lo(y, w)
  {
    BitAndSplit(y, LowMask(hb), 0, w);
    assert BitAnd(Lo(y, w), 0) == 0;
    HiBound(y, hb, w);
    BitAndLowMask(Hi(y, w), hb);
    DivModUnique(Hi(y, w), Pow2(hb), 0, Hi(y, w));
    HiLoJoin(y, w);
  }

  /** Below 2^(lsb+w+hb), AND with the mask of the bits outside the field clears the field. */
  lemma AndOutsideFieldIsBfc(x: nat, lsb: nat, w: nat, hb: nat)
    requires x < Pow2(lsb + w + hb)
    ensures BitAnd(x, Join(FieldMask(w, hb), LowMask(lsb), lsb)) == Bfc(x, lsb, w)
  {
    var y, low, p := Hi(x, lsb), Lo(x, lsb), Pow2(lsb);
    HiLoJoin(x, lsb);
    BitAndSplit(x, FieldMask(w, hb), LowMask(lsb), lsb);
    BitAndLowMask(low, lsb);
    DivModUnique(low, p, 0, low);
    assert BitAnd(low, LowMask(lsb)) == low;
    assert lsb + w + hb == hb + w + lsb;
    HiBound(x, hb + w, lsb);
    AndHighMask(y, hb, w);
    assert BitAnd(x, Join(FieldMask(w, hb), LowMask(lsb), lsb)) == Join(y - Lo(y, w), low, lsb);
    MulSubDistributes(y, Lo(y, w), p);
  }

  /** AND with the complement of a field mask clears the field. */
  lemma AndNotFieldIsBfc(x: nat, lsb: nat, w: nat)
    requires IsWord(x) && lsb + w <= 32
    ensures BitAnd(x, Not32(FieldMask(lsb, w))) == Bfc(x, lsb, w)
  {
    NotFieldMaskSplit(lsb, w);
    Pow2Word();
    AndOutsideFieldIsBfc(x, lsb, w, 32 - lsb - w);
  }

  // ---------------------------------------------------------------------
  // Recognising masks: the population-count and leading/trailing-zero tests
  // the selector applies to constants, stated as functions on naturals.

  /** Some(w) exactly when `u` is the low mask of width w. */
  function LowMaskWidth(u: nat): Option<nat>
  {
    if u == 0 then Some(0)
    else if u % 2 == 0 then None
    else match LowMaskWidth(u / 2)
      case Some(w) => Some(w + 1)
      case None => None
  }

  lemma {:induction false} LowMaskWidthSound(u: nat)
    ensures LowMaskWidth(u).Some? ==> u == LowMask(LowMaskWidth(u).value)
  {
    if u != 0 && u % 2 == 1 {
      LowMaskWidthSound(u / 2);
    }
  }

  lemma {:induction false} LowMaskWidthComplete(w: nat)
    ensures LowMaskWidth(LowMask(w)) == Some(w)
  {
    if w > 0 {
      LowMaskWidthComplete(w - 1);
      DivModUnique(LowMask(w), 2, LowMask(w - 1), 1);
    }
  }

  /** The width test succeeds on `u` with width w exactly when `u` is the w-bit low mask. */
  lemma LowMaskWidthIff(u: nat, w: nat)
    ensures LowMaskWidth(u) == Some(w) <==> u == LowMask(w)
  {
    LowMaskWidthSound(u);
    if u == LowMask(w) {
      LowMaskWidthComplete(w);
    }
  }

  /** A low mask of positive width is odd. */
  lemma LowMaskOdd(w: nat)
    requires w >= 1
    ensures LowMask(w) % 2 == 1
  {
    assert Pow2(w) == 2 * Pow2(w - 1);
  }

  /** The number of zero bits below the lowest set bit of a nonzero value. */
  function TrailingZeros(c: nat): nat
    requires c > 0
  {
    if c % 2 == 1 then 0 else 1 + TrailingZeros(c / 2)
  }

  /** Below its trailing-zero count a value is zero, and the bit there is set. */
  lemma {:induction false} TrailingZerosSplit(c: nat)
    requires c > 0
    ensures Lo(c, TrailingZeros(c)) == 0 && Hi(c, TrailingZeros(c)) % 2 == 1
  {
    if c % 2 == 0 {
      var t := TrailingZeros(c / 2);
      TrailingZerosSplit(c / 2);
      HalveHiLo(c, t + 1);
    }
  }

  /** An odd value shifted left by k has exactly k trailing zeros. */
  lemma {:induction false} TrailingZerosOfShifted(a: nat, k: nat)
    requires a % 2 == 1
    ensures Join(a, 0, k) > 0 && TrailingZeros(Join(a, 0, k)) == k
  {
    MulAtLeast(Pow2(k), a);
    if k > 0 {
      HalveJoin(a, 0, k);
      TrailingZerosOfShifted(a, k - 1);
    }
  }

  /** Some((lsb, w)) when `c` is a contiguous run of ones, w bits wide from bit lsb. */
  function FieldOf(c: nat): Option<(nat, nat)>
  {
    if c == 0 then None
    else
      var lsb := TrailingZeros(c);
      match LowMaskWidth(Hi(c, lsb))
      case Some(w) => Some((lsb, w))
      case None => None
  }

  /** The field test finds (lsb, w) exactly for the nonempty field mask at lsb of width w. */
  lemma FieldOfIff(c: nat, lsb: nat, w: nat)
    ensures FieldOf(c) == Some((lsb, w)) <==> w >= 1 && c == FieldMask(lsb, w)
  {
    if FieldOf(c) == Some((lsb, w)) {
      TrailingZerosSplit(c);
      LowMaskWidthSound(Hi(c, lsb));
      HiLoJoin(c, lsb);
    }
    if w >= 1 && c == FieldMask(lsb, w) {
      LowMaskOdd(w);
      TrailingZerosOfShifted(LowMask(w), lsb);
      JoinHiLo(LowMask(w), 0, lsb);
      LowMaskWidthComplete(w);
    }
  }

  /** Some(k) exactly when `n` is the power of two 2^k. */
  function Log2Exact(n: int): Option<nat>
    decreases if n > 0 then n else 0
  {
    if n <= 0 then None
    else if n == 1 then Some(0)
    else if n % 2 == 1 then None
    else match Log2Exact(n / 2)
      case Some(k) => Some(k + 1)
      case None => None
  }

  lemma {:induction false} Log2ExactSound(n: int)
    ensures Log2Exact(n).Some? ==> n == Pow2(Log2Exact(n).value)
    decreases if n > 0 then n else 0
  {
    if n > 1 && n % 2 == 0 {
      Log2ExactSound(n / 2);
    }
  }

  lemma {:induction false} Log2ExactComplete(k: nat)
    ensures Log2Exact(Pow2(k)) == Some(k)
  {
    if k > 0 {
      Log2ExactComplete(k - 1);
      assert Pow2(k) / 2 == Pow2(k - 1);
    }
  }

  /** The power-of-two test succeeds on `n` with exponent k exactly when n == 2^k. */
  lemma Log2ExactIff(n: int, k: nat)
    ensures Log2Exact(n) == Some(k) <==> n == Pow2(k)
  {
    Log2ExactSound(n);
    if n == Pow2(k) {
      Log2ExactComplete(k);
    }
  }

  /** No power of two lies strictly between two consecutive ones. */
  lemma Pow2Gap(k: nat, n: int)
    requires k >= 1 && Pow2(k - 1) < n < Pow2(k)
    ensures Log2Exact(n) == None
  {
    Log2ExactSound(n);
    if Log2Exact(n).Some? {
      var m := Log2Exact(n).value;
      if m < k - 1 {
        Pow2Strict(m, k - 1);
      } else if m > k - 1 && m != k {
        Pow2Strict(k, m);
      }
    }
  }

  // ---------------------------------------------------------------------
  // Words and their complements.

  lemma Not32Involutive(x: int)
    requires IsWord(x)
    ensures IsWord(Not32(x)) && Not32(Not32(x)) == x
  {
  }

  lemma LowMaskIsWord(w: nat)
    requires w <= 32
    ensures IsWord(LowMask(w))
  {
    Pow2Word();
    if w < 32 {
      Pow2Strict(w, 32);
    }
  }

  /** A nonempty field mask that is a word lies within bits 0..31. */
  lemma FieldMaskFits(lsb: nat, w: nat)
    requires w >= 1 && IsWord(FieldMask(lsb, w))
    ensures lsb + w <= 32
  {
    if lsb + w > 32 {
      FieldMaskValue(lsb, w);
      Pow2Add(lsb + w - 1, 1);
      if lsb < lsb + w - 1 {
        Pow2Strict(lsb, lsb + w - 1);
      }
      Pow2Word();
      if lsb + w - 1 > 32 {
        Pow2Strict(32, lsb + w - 1);
      }
    }
  }

  /** Ones below bit lsb under an even, nonzero high part never form a low mask. */
  lemma {:induction false} NotLowMaskWithHole(a: nat, lsb: nat)
    requires a % 2 == 0 && a != 0
    ensures LowMaskWidth(Join(a, LowMask(lsb), lsb)) == None
  {
    if lsb > 0 {
      LowMaskHalves(lsb);
      HalveJoin(a, LowMask(lsb), lsb);
      NotLowMaskWithHole(a, lsb - 1);
      OddAboveNoLowMask(Join(a, LowMask(lsb), lsb), Join(a, LowMask(lsb - 1), lsb - 1));
    } else {
      assert Join(a, LowMask(0), 0) == a;
    }
  }

  /** A low mask of a positive width is odd, and halving it drops one bit of width. */
  lemma LowMaskHalves(k: nat)
    requires k > 0
    ensures LowMask(k) < Pow2(k) && LowMask(k) % 2 == 1 && LowMask(k) / 2 == LowMask(k - 1)
  {
  }

  /** An odd number is a low mask only if its half is one. */
  lemma OddAboveNoLowMask(u: nat, v: nat)
    requires u % 2 == 1 && u / 2 == v && LowMaskWidth(v) == None
    ensures LowMaskWidth(u) == None
  {
  }

  /** The complement of a field mask that stops below bit 31 is not a low mask. */
  lemma NotFieldMaskIsNotLowMask(lsb: nat, w: nat)
    requires w >= 1 && lsb + w < 32
    ensures LowMaskWidth(Not32(FieldMask(lsb, w))) == None
  {
    var hb := 32 - lsb - w;
    NotFieldMaskSplit(lsb, w);
    var a := FieldMask(w, hb);
    assert LowMask(hb) >= 1;
    EvenProduct(LowMask(hb), Pow2(w - 1));
    assert Pow2(w) == 2 * Pow2(w - 1);
    NotLowMaskWithHole(a, lsb);
  }

  lemma EvenProduct(m: int, p: int)
    requires m >= 1 && p >= 1
    ensures m * (2 * p) % 2 == 0 && m * (2 * p) != 0
  {
    assert m * (2 * p) == 2 * (m * p);
    MulAtLeast(m, p);
  }

  /** A value of n bits above k low bits has n + k bits. */
  lemma JoinBelow(a: nat, b: nat, k: nat, n: nat)
    requires a < Pow2(n) && b < Pow2(k)
    ensures Join(a, b, k) < Pow2(n + k)
  {
    var p, q := Pow2(k), Pow2(n);
    MulMonotone(p, a, q - 1);
    MulSubDistributes(q, 1, p);
    Pow2Add(n, k);
    assert Join(a, b, k) == a * p + b;
    assert a * p <= q * p - p;
  }
}
