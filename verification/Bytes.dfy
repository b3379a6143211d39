/** Bytes, fixed-width integer encodings and the shared result type. */
module Bytes {

  type byte = x: int | 0 <= x < 256
  type Bytes = seq<byte>

  const U32_MAX := 0xFFFF_FFFF
  const U64_MAX := 0xFFFF_FFFF_FFFF_FFFF
  /** The longest Rust slice: `isize::MAX` bytes. */
  const ISIZE_MAX := 0x7FFF_FFFF_FFFF_FFFF

  type u32 = x: int | 0 <= x <= U32_MAX
  type u64 = x: int | 0 <= x <= U64_MAX

  /** The variants of the crate's error enumeration that the modelled code returns. */
  datatype Error =
    | NotAVault | WrongContainerKind | NewerVersion | UnsupportedKdf
    | HeaderCorrupt | HeaderAuth | HeaderTampered
    | KdfParamsOutOfRange | KdfBelowFloor
    | BodyAuth | BodyMalformed | Crypto | Hardware
    | YubiKeyStrictSave | SealedOpenFailed | Io

  datatype Option<+T> = None | Some(value: T)

  datatype Result<+T> = Ok(value: T) | Err(error: Error) {
    predicate IsFailure() { Err? }

    function PropagateFailure<U>(): Result<U>
      requires Err?
    {
      Err(error)
    }

    function Extract(): T
      requires Ok?
    {
      value
    }
  }

  datatype Unit = Unit

  function Zeros(n: nat): (r: Bytes)
    ensures |r| == n && forall i :: 0 <= i < n ==> r[i] == 0
  {
    seq(n, _ => 0)
  }

  function Min(a: int, b: int): int { if a <= b then a else b }

  function Pow2(k: nat): (r: nat)
    ensures r >= 1
  {
    if k == 0 then 1 else 2 * Pow2(k - 1)
  }

  lemma DivMod(x: int, m: int)
    requires m > 0
    ensures x == x / m * m + x % m && 0 <= x % m < m
  {
  }

  lemma ProductSign(d: int, m: int)
    requires m > 0
    ensures d >= 1 ==> d * m >= m
    ensures d <= -1 ==> d * m <= -m
  {
  }

  /** A quotient and remainder are the only ones. */
  lemma QuotientUnique(x: int, q: int, r: int, m: int)
    requires 0 <= r < m && x == q * m + r
    ensures x % m == r && x / m == q
  {
    DivMod(x, m);
    var p, s := x / m, x % m;
    var d := p - q;
    assert d * m == p * m - q * m;
    ProductSign(d, m);
  }

  /** The number of values that fit in `width` bytes. */
  function Pow256(width: nat): (r: nat)
    ensures r >= 1
  {
    if width == 0 then 1 else 256 * Pow256(width - 1)
  }

  lemma Pow256Widths()
    ensures Pow256(1) == 0x100 && Pow256(2) == 0x1_0000 && Pow256(4) == U32_MAX + 1 && Pow256(8) == U64_MAX + 1
  {
    assert Pow256(3) == 0x100_0000;
    assert Pow256(5) == 0x100 * Pow256(4);
    assert Pow256(6) == 0x100 * Pow256(5);
    assert Pow256(7) == 0x100 * Pow256(6);
  }

  /** `to_le_bytes` of an unsigned integer of `width` bytes; higher bits are cut off, as by an `as` cast. */
  function LE(n: nat, width: nat): (r: Bytes)
    ensures |r| == width
  {
    if width == 0 then [] else [n % 256] + LE(n / 256, width - 1)
  }

  /** `from_le_bytes`. */
  function FromLE(b: Bytes): (n: nat)
  {
    if b == [] then 0 else b[0] + 256 * FromLE(b[1..])
  }

  /** `to_be_bytes`. */
  function BE(n: nat, width: nat): (r: Bytes)
    ensures |r| == width
  {
    if width == 0 then [] else BE(n / 256, width - 1) + [n % 256]
  }

  /** `from_be_bytes`, for any length. */
  function FromBE(b: Bytes): (n: nat)
  {
    if b == [] then 0 else 256 * FromBE(b[..|b| - 1]) + b[|b| - 1]
  }

  lemma {:induction false} LERoundTrip(n: nat, width: nat)
    requires n < Pow256(width)
    ensures FromLE(LE(n, width)) == n
  {
    if width > 0 {
      LERoundTrip(n / 256, width - 1);
      assert LE(n, width)[1..] == LE(n / 256, width - 1);
    }
  }

  lemma {:induction false} FromLERoundTrip(b: Bytes)
    ensures FromLE(b) < Pow256(|b|)
    ensures LE(FromLE(b), |b|) == b
  {
    if b != [] {
      FromLERoundTrip(b[1..]);
      var low, high: nat := b[0], FromLE(b[1..]);
      assert FromLE(b) == low + 256 * high;
      assert FromLE(b) % 256 == low && FromLE(b) / 256 == high;
      assert b == [low] + b[1..];
    }
  }

  lemma {:induction false} BERoundTrip(n: nat, width: nat)
    requires n < Pow256(width)
    ensures FromBE(BE(n, width)) == n
  {
    if width > 0 {
      BERoundTrip(n / 256, width - 1);
      assert BE(n, width)[..width - 1] == BE(n / 256, width - 1);
    }
  }

  lemma {:induction false} FromBERoundTrip(b: Bytes)
    ensures FromBE(b) < Pow256(|b|)
    ensures BE(FromBE(b), |b|) == b
  {
    if b != [] {
      FromBERoundTrip(b[..|b| - 1]);
    }
  }

  lemma {:induction false} DivideAgain(n: nat, i: nat)
    ensures n / 256 / Pow256(i) == n / Pow256(i + 1)
  {
    var p := Pow256(i);
    var q, r := n / 256 / p, n / 256 % p;
    DivMod(n, 256);
    DivMod(n / 256, p);
    assert n == 256 * (q * p + r) + n % 256;
    assert 256 * (q * p + r) == q * (256 * p) + 256 * r;
    QuotientUnique(n, q, 256 * r + n % 256, 256 * p);
  }

  /** The lowest byte comes first: byte `i` counts the 256 to the `i`. */
  lemma {:induction false} LEByte(n: nat, width: nat, i: nat)
    requires i < width
    ensures LE(n, width)[i] == n / Pow256(i) % 256
    decreases width
  {
    if i > 0 {
      LEByte(n / 256, width - 1, i - 1);
      DivideAgain(n, i - 1);
    }
  }

  /** The lowest byte comes last. */
  lemma {:induction false} BEByte(n: nat, width: nat, i: nat)
    requires i < width
    ensures BE(n, width)[width - 1 - i] == n / Pow256(i) % 256
    decreases width
  {
    if i > 0 {
      BEByte(n / 256, width - 1, i - 1);
      DivideAgain(n, i - 1);
    }
  }

  /** Every byte of the string read is that digit of the number, which has no others. */
  lemma FromLEByte(b: Bytes, i: nat)
    requires i < |b|
    ensures FromLE(b) / Pow256(i) % 256 == b[i] && FromLE(b) < Pow256(|b|)
  {
    FromLERoundTrip(b);
    LEByte(FromLE(b), |b|, i);
  }

  lemma FromBEByte(b: Bytes, i: nat)
    requires i < |b|
    ensures FromBE(b) / Pow256(i) % 256 == b[|b| - 1 - i] && FromBE(b) < Pow256(|b|)
  {
    FromBERoundTrip(b);
    BEByte(FromBE(b), |b|, i);
  }

  /** Two and four bytes, the lowest first. */
  function U16(a: nat, b: nat): nat { a + 0x100 * b }

  function U32(a: nat, b: nat, c: nat, d: nat): nat { a + 0x100 * b + 0x1_0000 * c + 0x100_0000 * d }

  /** The widths in use, as sums. */
  lemma LESums(b: Bytes)
    ensures |b| == 2 ==> FromLE(b) == U16(b[0], b[1])
    ensures |b| == 4 ==> FromLE(b) == U32(b[0], b[1], b[2], b[3])
    ensures |b| == 8 ==> FromLE(b) == U32(b[0], b[1], b[2], b[3]) + 0x1_0000_0000 * U32(b[4], b[5], b[6], b[7])
  {
    if |b| >= 2 {
      LEFrom2(b);
      if |b| >= 4 {
        LEFrom2(b[2..]);
        if |b| == 8 {
          LEFrom2(b[4..]);
          LEFrom2(b[6..]);
          assert b[2..][2..] == b[4..] && b[4..][2..] == b[6..] && b[6..][2..] == [];
        } else if |b| == 4 {
          assert b[2..][2..] == [];
        }
      } else if |b| == 2 {
        assert b[2..] == [];
      }
    }
    hide FromLE;
  }

  lemma LEFrom2(b: Bytes)
    requires |b| >= 2
    ensures FromLE(b) == U16(b[0], b[1]) + 0x1_0000 * FromLE(b[2..])
  {
    assert b[1..][1..] == b[2..];
  }

  /** What is written of a number that fits, as sums of its bytes. */
  lemma LEWritten(n: nat, b: Bytes)
    requires n <= U64_MAX && b == LE(n, |b|)
    ensures |b| == 2 && n <= 0xFFFF ==> n == U16(b[0], b[1])
    ensures |b| == 4 && n <= U32_MAX ==> n == U32(b[0], b[1], b[2], b[3])
    ensures |b| == 8 ==> n == U32(b[0], b[1], b[2], b[3]) + 0x1_0000_0000 * U32(b[4], b[5], b[6], b[7])
  {
    Pow256Widths();
    LESums(b);
    if n < Pow256(|b|) {
      LERoundTrip(n, |b|);
    }
  }

  /** Concatenation of a list of byte strings. */
  function Concat(parts: seq<Bytes>): (r: Bytes)
  {
    if parts == [] then [] else parts[0] + Concat(parts[1..])
  }

  lemma {:induction false} ConcatAppend(parts: seq<Bytes>, last: Bytes)
    ensures Concat(parts + [last]) == Concat(parts) + last
  {
    if parts == [] {
      assert [last][1..] == [];
    } else {
      assert (parts + [last])[1..] == parts[1..] + [last];
      ConcatAppend(parts[1..], last);
    }
  }

  /** Taking fewer parts never makes the concatenation longer. */
  lemma {:induction false} ConcatTake(parts: seq<Bytes>, n: nat)
    requires n <= |parts|
    ensures |Concat(parts[..n])| <= |Concat(parts)|
  {
    if n > 0 {
      assert parts[..n][1..] == parts[1..][..n - 1];
      ConcatTake(parts[1..], n - 1);
    }
  }

  lemma ConcatNext(parts: seq<Bytes>, i: nat)
    requires i < |parts|
    ensures Concat(parts[..i + 1]) == Concat(parts[..i]) + parts[i]
  {
    ConcatAppend(parts[..i], parts[i]);
    assert parts[..i + 1] == parts[..i] + [parts[i]];
  }

  lemma Assoc(a: Bytes, b: Bytes, c: Bytes)
    ensures a + b + c == a + (b + c)
  {
  }

  /** An equal-length prefix splits a concatenation in only one way. */
  lemma SplitUnique(a: Bytes, b: Bytes, c: Bytes, d: Bytes)
    requires |a| == |c| && a + b == c + d
    ensures a == c && b == d
  {
    assert a == (a + b)[..|a|] && c == (c + d)[..|c|];
    assert b == (a + b)[|a|..] && d == (c + d)[|c|..];
  }

  /** Operating-system randomness: each draw is `n` arbitrary bytes, or a failure. */
  class Rng {
    /** Everything drawn so far. */
    ghost var log: seq<Option<Bytes>>

    constructor ()
      ensures log == []
    {
      log := [];
    }

    method Draw(n: nat) returns (r: Option<Bytes>)
      modifies this
      ensures r.Some? ==> |r.value| == n
      ensures log == old(log) + [r]
    {
      var drawn: Bytes := *;
      r := if |drawn| == n then Some(drawn) else None;
      log := log + [r];
    }
  }
}
