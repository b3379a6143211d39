/** Padmé size padding (pad.rs). */
module Pad {
  import opened Bytes

  datatype PadMode = NoPadding | Padme {
    function PaddedLen(len: nat): nat {
      match this
      case NoPadding => len
      case Padme => PadmeLen(len)
    }

    function ToByte(): byte { if this == Padme then 1 else 0 }

    /** Unknown values mean no padding. */
    static function FromByte(b: byte): PadMode { if b == 1 then Padme else NoPadding }
  }

  /** Significant bits of `x`, 0 for 0. */
  function BitLength(x: nat): nat {
    if x == 0 then 0 else 1 + BitLength(x / 2)
  }

  /** `x & !((1 << k) - 1)`: the low `k` bits of `x` cleared. */
  function ClearLow(x: nat, k: nat): nat {
    if k == 0 then x else 2 * ClearLow(x / 2, k - 1)
  }

  /** Number of low bits that rounding clears; 0 where the length is returned as it is. */
  function ClearedBits(len: nat): nat {
    if len < 4 then 0
    else
      var e := BitLength(len) - 1;
      var s := BitLength(e);
      if e <= s then 0 else e - s
  }

  function PadmeLen(len: nat): nat {
    if len < 4 then len
    else
      var e := BitLength(len) - 1;
      var s := BitLength(e);
      if e <= s then len
      else
        var mask := Pow2(e - s) - 1;
        ClearLow(len + mask, e - s)
  }

  // ---------------------------------------------------------------- bits

  lemma {:induction false} BitLengthBounds(x: nat)
    requires x > 0
    ensures BitLength(x) >= 1
    ensures Pow2(BitLength(x) - 1) <= x < Pow2(BitLength(x))
  {
    if x > 1 {
      BitLengthBounds(x / 2);
    } else {
      assert BitLength(1) == 1 && Pow2(1) == 2;
    }
  }

  lemma {:induction false} Pow2Monotone(a: nat, b: nat)
    requires a <= b
    ensures Pow2(a) <= Pow2(b)
    ensures a < b ==> 2 * Pow2(a) <= Pow2(b)
    decreases b
  {
    if a < b {
      Pow2Monotone(a, b - 1);
    }
  }

  lemma {:induction false} Pow2Add(a: nat, b: nat)
    ensures Pow2(a + b) == Pow2(a) * Pow2(b)
  {
    if b > 0 {
      Pow2Add(a, b - 1);
      assert Pow2(a + b) == 2 * Pow2(a + b - 1);
    }
  }

  /** The octave determines the bit length. */
  lemma BitLengthUnique(x: nat, b: nat)
    requires b > 0 && Pow2(b - 1) <= x < Pow2(b)
    ensures BitLength(x) == b
  {
    BitLengthBounds(x);
    var c := BitLength(x);
    if c < b {
      Pow2Monotone(c, b - 1);
    } else if c > b {
      Pow2Monotone(b, c - 1);
    }
  }

  lemma {:induction false} BitLengthMonotone(x: nat, y: nat)
    requires x <= y
    ensures BitLength(x) <= BitLength(y)
  {
    if x > 0 {
      BitLengthMonotone(x / 2, y / 2);
    }
  }

  /** Clearing the low bits rounds down to a multiple of the power of two. */
  lemma {:induction false} ClearLowRoundsDown(x: nat, k: nat)
    ensures ClearLow(x, k) == x / Pow2(k) * Pow2(k)
  {
    if k > 0 {
      ClearLowRoundsDown(x / 2, k - 1);
      HalveQuotient(x, Pow2(k - 1));
    }
  }

  lemma HalveQuotient(x: nat, p: nat)
    requires p > 0
    ensures 2 * (x / 2 / p * p) == x / (2 * p) * (2 * p)
  {
    var q := x / (2 * p);
    assert x == q * (2 * p) + x % (2 * p);
    var half := x / 2;
    assert half == q * p + x % (2 * p) / 2;
    QuotientUnique(half, q, x % (2 * p) / 2, p);
  }

  // ---------------------------------------------------------------- rounding up

  ghost predicate Multiple(x: nat, p: nat)
    requires p > 0
  {
    x % p == 0
  }

  /** `(n + (p - 1)) / p * p`, the least multiple of `p` that is not below `n`. */
  function RoundUp(n: nat, p: nat): nat
    requires p > 0
  {
    (n + (p - 1)) / p * p
  }

  lemma RoundUpIsLeast(n: nat, p: nat)
    requires p > 0
    ensures n <= RoundUp(n, p) < n + p
    ensures Multiple(RoundUp(n, p), p)
    ensures forall m: nat :: n <= m && Multiple(m, p) ==> RoundUp(n, p) <= m
  {
    var q := (n + (p - 1)) / p;
    assert n + (p - 1) == q * p + (n + (p - 1)) % p;
    QuotientUnique(q * p, q, 0, p);
    forall m: nat | n <= m && Multiple(m, p) ensures RoundUp(n, p) <= m {
      assert m == m / p * p + m % p;
      MultiplesApart(q * p, q, m, m / p, p);
    }
  }

  /** A multiple less than one step above another is not above it. */
  lemma MultiplesApart(x: nat, q: nat, y: nat, t: nat, p: nat)
    requires p > 0 && x == q * p && y == t * p && x < y + p
    ensures x <= y
  {
    var d := q - t;
    assert d * p == x - y;
    assert d >= 1 ==> d * p >= p;
    assert d <= 0 ==> d * p <= 0;
  }

  /** Rounding is to the least multiple of 2^ClearedBits. */
  lemma PadmeRoundsUp(n: nat)
    ensures PadmeLen(n) == RoundUp(n, Pow2(ClearedBits(n)))
  {
    var k := ClearedBits(n);
    if k == 0 {
      assert RoundUp(n, 1) == n;
    } else {
      ClearLowRoundsDown(n + (Pow2(k) - 1), k);
    }
  }

  /** A rounded length clears fewer bits than its own exponent. */
  lemma ClearedBelowExponent(n: nat)
    requires ClearedBits(n) > 0
    ensures n >= 4
    ensures var e := BitLength(n) - 1;
      && ClearedBits(n) == e - BitLength(e) && 1 <= BitLength(e) < e
      && Pow2(e) <= n < Pow2(e + 1)
  {
    BitLengthBounds(n);
    BitLengthBounds(BitLength(n) - 1);
  }

  /** `padme` never shrinks, rounds to a multiple of 2^(e-s), and to the least one. */
  lemma PadmeIsLeastBucket(n: nat)
    ensures n <= PadmeLen(n)
    ensures Multiple(PadmeLen(n), Pow2(ClearedBits(n)))
    ensures forall m: nat :: n <= m && Multiple(m, Pow2(ClearedBits(n))) ==> PadmeLen(n) <= m
  {
    PadmeRoundsUp(n);
    RoundUpIsLeast(n, Pow2(ClearedBits(n)));
  }

  /**
   The rule in its own terms: where `2^e` is the greatest power of two in the length and `e` has `s` bits, the length
   is rounded up to the least multiple of `2^(e-s)`, and left as it is where `e` is not above `s`.
   */
  lemma PadmeExactly(n: nat, e: nat, s: nat)
    requires 4 <= n && Pow2(e) <= n < Pow2(e + 1) && 0 < s && Pow2(s - 1) <= e < Pow2(s)
    ensures e <= s ==> PadmeLen(n) == n
    ensures e > s ==>
      var unit := Pow2(e - s);
      && n <= PadmeLen(n) && PadmeLen(n) % unit == 0
      && forall m: nat :: n <= m && Multiple(m, unit) ==> PadmeLen(n) <= m
  {
    BitLengthUnique(n, e + 1);
    BitLengthUnique(e, s);
    assert ClearedBits(n) == if e <= s then 0 else e - s;
    if e <= s {
      assert PadmeLen(n) == n;
    } else {
      hide PadmeLen, BitLength, ClearedBits, Pow2;
      PadmeIsLeastBucket(n);
    }
  }

  lemma PadmeGap(n: nat)
    ensures n <= PadmeLen(n) < n + Pow2(ClearedBits(n))
  {
    PadmeRoundsUp(n);
    RoundUpIsLeast(n, Pow2(ClearedBits(n)));
  }

  lemma PadmeIsMultiple(n: nat)
    ensures Multiple(PadmeLen(n), Pow2(ClearedBits(n)))
  {
    PadmeIsLeastBucket(n);
  }

  /** The overhead is at most 12 per cent of the length, with no allowance for small lengths. */
  lemma PadmeOverhead(n: nat)
    ensures 25 * (PadmeLen(n) - n) <= 3 * n
  {
    if ClearedBits(n) > 0 && BitLength(n) == 4 {
      SmallestRounded(n);
    } else {
      PadmeGap(n);
      BucketIsSmall(n);
    }
  }

  lemma BucketIsSmall(n: nat)
    requires ClearedBits(n) > 0 ==> BitLength(n) != 4
    ensures 25 * (Pow2(ClearedBits(n)) - 1) <= 3 * n
  {
    if ClearedBits(n) > 0 {
      ClearedBelowExponent(n);
      var e := BitLength(n) - 1;
      assert BitLength(2) == 2;
      if e >= 4 {
        MaskIsSmall(e, BitLength(e));
      }
    }
  }

  /** Lengths 8 to 15 are rounded to even ones. */
  lemma SmallestRounded(n: nat)
    requires ClearedBits(n) > 0 && BitLength(n) == 4
    ensures 25 * (PadmeLen(n) - n) <= 3 * n
  {
    SmallPowers();
    ClearedBelowExponent(n);
    assert BitLength(3) == 2;
    PadmeRoundsUp(n);
  }

  lemma SmallPowers()
    ensures Pow2(1) == 2 && Pow2(2) == 4 && Pow2(3) == 8 && Pow2(4) == 16
    ensures Pow2(5) == 32 && Pow2(6) == 64 && Pow2(7) == 128
  {
    assert Pow2(4) == 2 * Pow2(3) && Pow2(6) == 4 * Pow2(4);
  }

  /** Seven exactly attains the bound: 25 * 15 against 3 * 128. */
  lemma MaskIsSmall(e: nat, s: nat)
    requires 4 <= e && s == BitLength(e) && s < e
    ensures 25 * (Pow2(e - s) - 1) <= 3 * Pow2(e)
  {
    SmallPowers();
    if e < 8 {
      BitLengthUnique(e, 3);
    } else {
      BitLengthMonotone(8, e);
      Pow2Add(e - s, s);
      Pow2Monotone(4, s);
      ScaleUp(Pow2(e - s), 16, Pow2(s));
    }
  }

  lemma ScaleUp(x: nat, a: nat, b: nat)
    requires a <= b
    ensures x * a <= x * b
  {
  }

  lemma {:induction false} Pow2IsMultiple(a: nat, b: nat)
    requires a <= b
    ensures Multiple(Pow2(b), Pow2(a))
  {
    Pow2Add(a, b - a);
    QuotientUnique(Pow2(b), Pow2(b - a), 0, Pow2(a));
  }

  /** Rounding stays within the octave, or reaches exactly its upper end. */
  lemma PadmeStaysInOctave(n: nat)
    requires n > 0
    ensures PadmeLen(n) <= Pow2(BitLength(n))
  {
    BitLengthBounds(n);
    PadmeIsLeastBucket(n);
    ClearedAtMostLength(n);
    Pow2IsMultiple(ClearedBits(n), BitLength(n));
  }

  /**
   Only s + 1 leading bits of a rounded length can differ from zero, s being the bit length of the
   exponent: the rest of the size, seen from outside, is a power of two.
   */
  lemma PadmeMantissa(n: nat) returns (t: nat)
    requires ClearedBits(n) > 0
    ensures PadmeLen(n) == t * Pow2(ClearedBits(n))
    ensures Pow2(BitLength(BitLength(n) - 1)) <= t <= Pow2(BitLength(BitLength(n) - 1) + 1)
  {
    PadmeGap(n);
    PadmeStaysInOctave(n);
    PadmeIsMultiple(n);
    t := MantissaOf(PadmeLen(n), n);
  }

  lemma MantissaOf(x: nat, n: nat) returns (t: nat)
    requires ClearedBits(n) > 0
    requires Multiple(x, Pow2(ClearedBits(n))) && n <= x <= Pow2(BitLength(n))
    ensures x == t * Pow2(ClearedBits(n))
    ensures Pow2(BitLength(BitLength(n) - 1)) <= t <= Pow2(BitLength(BitLength(n) - 1) + 1)
  {
    ClearedBelowExponent(n);
    var e := BitLength(n) - 1;
    assert Pow2(e) <= x <= Pow2(e + 1);
    hide Pow2, BitLength, ClearedBits;
    t := TopBits(x, ClearedBits(n), BitLength(e), e);
  }

  lemma TopBits(x: nat, k: nat, s: nat, e: nat) returns (t: nat)
    requires e == s + k && Multiple(x, Pow2(k)) && Pow2(e) <= x <= Pow2(e + 1)
    ensures x == t * Pow2(k) && Pow2(s) <= t <= Pow2(s + 1)
  {
    Pow2Add(s, k);
    Pow2Add(s + 1, k);
    assert s + 1 + k == e + 1;
    t := x / Pow2(k);
    QuotientBetween(x, Pow2(k), Pow2(s), Pow2(s + 1));
  }

  lemma QuotientBetween(x: nat, p: nat, lo: nat, hi: nat)
    requires p > 0 && x % p == 0 && lo * p <= x <= hi * p
    ensures x == x / p * p && lo <= x / p <= hi
  {
    var t := x / p;
    MultiplesApart(lo * p, lo, x, t, p);
    FactorBound(lo, t, p);
    FactorBound(t, hi, p);
  }

  lemma FactorBound(a: nat, b: nat, p: nat)
    requires p > 0 && a * p <= b * p
    ensures a <= b
  {
    var d := a - b;
    assert d * p == a * p - b * p;
    assert d >= 1 ==> d * p >= p;
  }

  lemma ClearedAtMostLength(n: nat)
    ensures ClearedBits(n) <= BitLength(n)
  {
  }

  /** The number of cleared bits depends on the bit length alone. */
  lemma ClearedByBitLength(n: nat, m: nat)
    requires n >= 4 && m >= 4 && BitLength(n) == BitLength(m)
    ensures ClearedBits(n) == ClearedBits(m)
  {
  }

  /** A larger length never gets a smaller bucket. */
  lemma PadmeMonotone(n: nat, m: nat)
    requires n <= m
    ensures PadmeLen(n) <= PadmeLen(m)
  {
    PadmeIsLeastBucket(m);
    BitLengthMonotone(n, m);
    if n < 4 {
    } else if BitLength(n) == BitLength(m) {
      ClearedByBitLength(n, m);
      PadmeIsLeastBucket(n);
    } else {
      PadmeStaysInOctave(n);
      BitLengthBounds(m);
      Pow2Monotone(BitLength(n), BitLength(m) - 1);
    }
  }

  /** A multiple of the bucket size is its own bucket. */
  lemma MultipleIsFixed(p: nat)
    requires Multiple(p, Pow2(ClearedBits(p)))
    ensures PadmeLen(p) == p
  {
    PadmeIsLeastBucket(p);
  }

  /** Whether it stays in its octave or reaches the next, a padded length is a multiple of its own bucket size. */
  lemma PaddedIsMultiple(n: nat, p: nat)
    requires p == PadmeLen(n) && n >= 4 && ClearedBits(p) > 0
    ensures Multiple(p, Pow2(ClearedBits(p)))
  {
    PadmeGap(n);
    PadmeStaysInOctave(n);
    PadmeIsMultiple(n);
    if p < Pow2(BitLength(n)) {
      SameOctave(n, p, BitLength(n));
      ClearedByBitLength(n, p);
    } else {
      PowerIsMultiple(p, BitLength(n));
    }
  }

  lemma SameOctave(n: nat, p: nat, b: nat)
    requires b == BitLength(n) && 4 <= n <= p < Pow2(b)
    ensures BitLength(p) == b
  {
    BitLengthBounds(n);
    BitLengthUnique(p, b);
  }

  lemma PowerIsMultiple(p: nat, b: nat)
    requires p == Pow2(b) && ClearedBits(p) > 0
    ensures Multiple(p, Pow2(ClearedBits(p)))
  {
    Pow2Monotone(b, b + 1);
    BitLengthUnique(p, b + 1);
    ClearedBelowExponent(p);
    Pow2IsMultiple(ClearedBits(p), b);
  }

  /** Padding a padded length changes nothing. */
  lemma PadmeIdempotent(n: nat)
    ensures PadmeLen(PadmeLen(n)) == PadmeLen(n)
  {
    var p := PadmeLen(n);
    if n < 4 {
    } else if ClearedBits(p) == 0 {
      PadmeGap(p);
    } else {
      PaddedIsMultiple(n, p);
      MultipleIsFixed(p);
    }
  }

  /** The sum `len + mask` fits a 64-bit word exactly up to 2^64 - 2^57, so for every real buffer. */
  lemma PadmeFitsWord(n: nat)
    requires n <= U64_MAX
    ensures n + (Pow2(ClearedBits(n)) - 1) <= U64_MAX <==> n <= 0xFE00_0000_0000_0000
    ensures n <= ISIZE_MAX ==> PadmeLen(n) <= ISIZE_MAX + 1
  {
    Pow2Words();
    PadmeGap(n);
    if n >= Pow2(63) {
      BitLengthUnique(n, 64);
      assert BitLength(63) == 6;
      assert ClearedBits(n) == 57;
    } else if n > 0 {
      BitLengthBounds(n);
      if BitLength(n) > 63 {
        Pow2Monotone(63, BitLength(n) - 1);
      }
      PadmeStaysInOctave(n);
      Pow2Monotone(BitLength(n), 63);
      if ClearedBits(n) > 0 {
        ClearedBelowExponent(n);
        Pow2Monotone(ClearedBits(n), 62);
      }
    }
  }

  lemma Pow2Words()
    ensures Pow2(57) == 0x200_0000_0000_0000
    ensures Pow2(62) == 0x4000_0000_0000_0000
    ensures Pow2(63) == ISIZE_MAX + 1 && Pow2(64) == U64_MAX + 1
  {
    SmallPowers();
    assert Pow2(28) == 0x1000_0000 by {
      Pow2Add(7, 7);
      Pow2Add(14, 14);
    }
    Pow2Add(28, 28);
    assert Pow2(56) == 0x100_0000_0000_0000;
    assert Pow2(57) == 2 * Pow2(56);
    Pow2Add(57, 5);
    assert Pow2(63) == 2 * Pow2(62) && Pow2(64) == 2 * Pow2(63);
  }
}
