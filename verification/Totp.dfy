/** One-time passwords: base32 secrets, time windows and truncation (totp.rs). */
module Totp {
  import opened Bytes
  import opened Decimal

  const PERIOD := 30
  const DIGITS := 6
  const WORD := 0x1_0000_0000

  // ---------------------------------------------------------------- characters

  datatype Character = Symbol(value: nat) | Separator | Invalid

  function ToUpper(b: byte): byte { if 97 <= b <= 122 then b - 32 else b }

  /** `=`, space, tab, line feed, carriage return and `-` are passed over; `A-Z2-7` stand for 0 to 31. */
  function Classify(b: byte): (r: Character)
    ensures r.Symbol? ==> r.value < 32
  {
    var c := ToUpper(b);
    if c in {61, 32, 9, 10, 13, 45} then Separator
    else if 65 <= c <= 90 then Symbol(c - 65)
    else if 50 <= c <= 55 then Symbol(c - 50 + 26)
    else Invalid
  }

  /** The values of the symbols, unless some character is invalid. */
  function Symbols(input: Bytes): (r: Option<seq<nat>>)
    ensures r.Some? ==> AllBelow32(r.value)
  {
    if input == [] then Some([])
    else
      match (Classify(input[0]), Symbols(input[1..]))
      case (Invalid, _) => None
      case (_, None) => None
      case (Separator, Some(rest)) => Some(rest)
      case (Symbol(v), Some(rest)) => Some([v] + rest)
  }

  predicate AllBelow32(s: seq<nat>) { forall i :: 0 <= i < |s| ==> s[i] < 32 }

  /** The number the symbols spell in base 32. */
  function Numeral(s: seq<nat>): nat {
    if s == [] then 0 else 32 * Numeral(s[..|s| - 1]) + s[|s| - 1]
  }

  /** `v >> k`. */
  function ShiftRight(v: nat, k: nat): nat {
    if k == 0 then v else ShiftRight(v / 2, k - 1)
  }

  /** The whole bytes at the top of a number of `bits` bits. */
  function TopBytes(n: nat, bits: nat): (r: Bytes)
    ensures |r| == bits / 8
  {
    BE(ShiftRight(n, bits % 8), bits / 8)
  }

  /** The bits that fill whole bytes: all but the last `5n mod 8`. */
  function LeadingBytes(s: seq<nat>): (r: Bytes)
    ensures |r| == 5 * |s| / 8
  {
    TopBytes(Numeral(s), 5 * |s|)
  }

  /** What decoding gives: the leading bytes, unless there are none or a character is invalid. */
  function Decoded(input: Bytes): Option<Bytes> {
    match Symbols(input)
    case None => None
    case Some(s) => if |s| < 2 then None else Some(LeadingBytes(s))
  }

  // ---------------------------------------------------------------- the accumulator

  lemma {:induction false} ShiftOneMore(v: nat, k: nat)
    ensures ShiftRight(v, k + 1) == ShiftRight(v, k) / 2
  {
    if k > 0 {
      ShiftOneMore(v / 2, k - 1);
    }
  }

  lemma ShiftDown(v: nat, d: nat, k: nat)
    requires d < 32
    ensures ShiftRight(32 * v + d, k + 5) == ShiftRight(v, k)
  {
    var x := 32 * v + d;
    assert x / 2 == 16 * v + d / 2 && x / 2 / 2 == 8 * v + d / 4 && x / 2 / 2 / 2 == 4 * v + d / 8;
    assert x / 2 / 2 / 2 / 2 == 2 * v + d / 16 && x / 2 / 2 / 2 / 2 / 2 == v;
    assert ShiftRight(x, k + 5) == ShiftRight(x / 2, k + 4) == ShiftRight(x / 2 / 2, k + 3);
    assert ShiftRight(x / 2 / 2, k + 3) == ShiftRight(x / 2 / 2 / 2, k + 2) == ShiftRight(x / 2 / 2 / 2 / 2, k + 1);
  }

  lemma ShiftByByte(x: nat, k: nat)
    ensures ShiftRight(x, k) / 256 == ShiftRight(x, k + 8)
  {
    var y := ShiftRight(x, k);
    ShiftOneMore(x, k);
    ShiftOneMore(x, k + 1);
    ShiftOneMore(x, k + 2);
    ShiftOneMore(x, k + 3);
    ShiftOneMore(x, k + 4);
    ShiftOneMore(x, k + 5);
    ShiftOneMore(x, k + 6);
    ShiftOneMore(x, k + 7);
    hide ShiftRight;
    assert y / 2 / 2 / 2 / 2 == y / 16;
    assert y / 16 / 2 / 2 / 2 / 2 == y / 256;
  }

  /** A modulus of `k` bits more than `256 * x` has. */
  function Modulus(k: nat, x: nat): (r: nat)
    ensures x > 0 ==> r > 0
  {
    if k == 0 then 256 * x else 2 * Modulus(k - 1, x)
  }

  lemma HalveMod(v: nat, m: nat)
    requires m > 0
    ensures v % (2 * m) / 2 == v / 2 % m
  {
    var q, r := v / (2 * m), v % (2 * m);
    DivMod(v, 2 * m);
    assert q * (2 * m) == 2 * (q * m);
    assert v / 2 == q * m + r / 2;
    QuotientUnique(v / 2, q, r / 2, m);
  }

  lemma {:induction false} ShiftMod(v: nat, k: nat, x: nat)
    requires x > 0
    ensures ShiftRight(v % Modulus(k, x), k) % 256 == ShiftRight(v, k) % 256
  {
    if k == 0 {
      ModMod(v, x);
    } else {
      HalveMod(v, Modulus(k - 1, x));
      ShiftMod(v / 2, k - 1, x);
    }
  }

  /** High bits lost from the accumulator never reach a byte that is taken out of it. */
  lemma LowBitsSuffice(v: nat, k: nat)
    requires k <= 4
    ensures ShiftRight(v % WORD, k) % 256 == ShiftRight(v, k) % 256
  {
    assert Modulus(0, 0x100_0000) == WORD && Modulus(1, 0x80_0000) == WORD && Modulus(2, 0x40_0000) == WORD;
    assert Modulus(3, 0x20_0000) == WORD && Modulus(4, 0x10_0000) == 2 * Modulus(3, 0x10_0000) == WORD;
    hide ShiftRight, Modulus;
    ShiftMod(v, k, if k == 0 then 0x100_0000 else if k == 1 then 0x80_0000 else if k == 2 then 0x40_0000
                   else if k == 3 then 0x20_0000 else 0x10_0000);
  }

  lemma ModMod(v: nat, m: nat)
    requires m > 0
    ensures v % (256 * m) % 256 == v % 256
  {
    var q, r := v / (256 * m), v % (256 * m);
    DivMod(v, 256 * m);
    assert v == 256 * (q * m + r / 256) + r % 256 by {
      assert q * (256 * m) == 256 * (q * m);
    }
    QuotientUnique(v, q * m + r / 256, r % 256, 256);
  }

  /** Shifting in five bits drops the same high bits whether or not some were dropped before. */
  lemma ShiftIn(n: nat, v: nat)
    requires v < 32
    ensures n % WORD * 32 % WORD + v == (32 * n + v) % WORD
  {
    var high, low := n / WORD, n % WORD;
    var top, rest := low / (WORD / 32), low % (WORD / 32);
    QuotientUnique(low * 32, top, rest * 32, WORD);
    QuotientUnique(32 * n + v, 32 * high + top, rest * 32 + v, WORD);
  }

  lemma NumeralAppend(s: seq<nat>, v: nat)
    ensures Numeral(s + [v]) == 32 * Numeral(s) + v
  {
    assert (s + [v])[..|s|] == s;
  }

  /** One more symbol: no whole byte yet, or one more byte, read off the accumulator. */
  lemma OneMoreSymbol(s: seq<nat>, v: nat, acc: nat)
    requires v < 32 && acc == Numeral(s + [v]) % WORD
    ensures var before, after := 5 * |s| % 8, 5 * |s + [v]| % 8;
      && (before + 5 < 8 ==> after == before + 5 && LeadingBytes(s + [v]) == LeadingBytes(s))
      && (before + 5 >= 8 ==>
          after == before - 3 && LeadingBytes(s + [v]) == LeadingBytes(s) + [ShiftRight(acc, after) % 256])
  {
    hide ShiftRight, Numeral;
    NumeralAppend(s, v);
    var n, before := Numeral(s), 5 * |s| % 8;
    ShiftDown(n, v, before);
    if before + 5 >= 8 {
      var after: nat := before - 3;
      LowBitsSuffice(32 * n + v, after);
      ShiftByByte(32 * n + v, after);
    }
  }

  /** The loop's variables after the symbols `seen`. */
  ghost predicate Holds(seen: seq<nat>, acc: nat, nbits: nat, out: Bytes) {
    acc == Numeral(seen) % WORD && nbits == 5 * |seen| % 8 && out == LeadingBytes(seen)
  }

  lemma HoldsNext(seen: seq<nat>, acc: nat, nbits: nat, out: Bytes, v: nat)
    requires Holds(seen, acc, nbits, out) && v < 32
    ensures var acc' := acc * 32 % WORD + v;
      && acc' < WORD
      && (nbits + 5 < 8 ==> Holds(seen + [v], acc', nbits + 5, out))
      && (nbits + 5 >= 8 ==> Holds(seen + [v], acc', nbits + 5 - 8, out + [ShiftRight(acc', nbits + 5 - 8) % 256]))
  {
    NumeralAppend(seen, v);
    ShiftIn(Numeral(seen), v);
    hide Numeral, LeadingBytes, ShiftRight;
    OneMoreSymbol(seen, v, acc * 32 % WORD + v);
  }

  lemma HoldsAtStart()
    ensures Holds([], 0, 0, [])
  {
  }

  lemma HoldsAtEnd(seen: seq<nat>, acc: nat, nbits: nat, out: Bytes)
    requires Holds(seen, acc, nbits, out)
    ensures out == LeadingBytes(seen) && (out == [] <==> |seen| < 2)
  {
  }

  /** The symbols seen, followed by those of the rest. */
  function After(seen: seq<nat>, rest: Option<seq<nat>>): Option<seq<nat>> {
    match rest
    case None => None
    case Some(r) => Some(seen + r)
  }

  lemma AfterLaws(seen: seq<nat>, v: nat, rest: Option<seq<nat>>)
    ensures After([], rest) == rest && After(seen, Some([])) == Some(seen)
    ensures After(seen, if rest.None? then None else Some([v] + rest.value)) == After(seen + [v], rest)
  {
    assert seen + [] == seen;
    if rest.Some? {
      assert [] + rest.value == rest.value;
      assert seen + ([v] + rest.value) == seen + [v] + rest.value;
    }
  }

  /** The loop, with its 32-bit accumulator that is shifted and never masked. */
  method Base32Decode(input: Bytes) returns (r: Option<Bytes>)
    ensures r == Decoded(input)
  {
    var acc: u32, nbits: nat, out: Bytes := 0, 0, [];
    ghost var seen: seq<nat> := [];
    assert input[0..] == input;
    AfterLaws([], 0, Symbols(input));
    HoldsAtStart();
    SymbolsAtEnd(input);
    hide Symbols, Classify, Holds, After, ShiftRight, LeadingBytes, TopBytes, Numeral, BE;
    for i := 0 to |input|
      invariant Holds(seen, acc, nbits, out)
      invariant Symbols(input) == After(seen, Symbols(input[i..]))
    {
      SymbolsAt(input, i);
      match Classify(input[i])
      case Separator => continue;
      case Invalid =>
        AfterNothing(seen);
        return None;
      case Symbol(v) =>
        HoldsNext(seen, acc, nbits, out, v);
        AfterLaws(seen, v, Symbols(input[i + 1..]));
        acc := acc * 32 % WORD + v;
        nbits := nbits + 5;
        if nbits >= 8 {
          nbits := nbits - 8;
          out := out + [ShiftRight(acc, nbits) % 256];
        }
        seen := seen + [v];
    }
    AfterLaws(seen, 0, None);
    HoldsAtEnd(seen, acc, nbits, out);
    r := if out == [] then None else Some(out);
  }

  lemma AfterNothing(seen: seq<nat>)
    ensures After(seen, None).None?
  {
  }

  lemma SymbolsAt(input: Bytes, i: nat)
    requires i < |input|
    ensures Symbols(input[i..]) ==
      match Classify(input[i])
      case Invalid => None
      case Separator => Symbols(input[i + 1..])
      case Symbol(v) => if Symbols(input[i + 1..]).None? then None else Some([v] + Symbols(input[i + 1..]).value)
  {
    var rest := input[i..];
    assert rest[0] == input[i] && rest[1..] == input[i + 1..];
  }

  lemma SymbolsAtEnd(input: Bytes)
    ensures Symbols(input[|input|..]) == Some([])
  {
  }

  // ---------------------------------------------------------------- separators and case

  /** The characters that matter, in upper case. */
  function Significant(input: Bytes): Bytes {
    if input == [] then []
    else if Classify(input[0]).Separator? then Significant(input[1..])
    else [ToUpper(input[0])] + Significant(input[1..])
  }

  lemma {:induction false} SymbolsOfSignificant(input: Bytes)
    ensures Symbols(Significant(input)) == Symbols(input)
  {
    if input != [] {
      SymbolsOfSignificant(input[1..]);
      if !Classify(input[0]).Separator? {
        assert Classify(ToUpper(input[0])) == Classify(input[0]);
        var s := [ToUpper(input[0])] + Significant(input[1..]);
        assert s[0] == ToUpper(input[0]) && s[1..] == Significant(input[1..]);
      }
    }
  }

  /** Separators, padding and case make no difference to what is decoded. */
  lemma SpellingIrrelevant(a: Bytes, b: Bytes)
    requires Significant(a) == Significant(b)
    ensures Decoded(a) == Decoded(b)
  {
    SymbolsOfSignificant(a);
    SymbolsOfSignificant(b);
  }

  // ---------------------------------------------------------------- spelling, character by character

  const ALPHABET := "ABCDEFGHIJKLMNOPQRSTUVWXYZ234567"

  /** The alphabet of section 6 of RFC 4648 and its lower case; what is passed over; everything else is invalid. */
  lemma EveryCharacter(b: byte)
    ensures |ALPHABET| == 32
    ensures forall v :: 0 <= v < 32 ==> (Classify(b) == Symbol(v) <==>
      b == ALPHABET[v] as int || (v < 26 && b == ALPHABET[v] as int + 32))
    ensures Classify(b) == Separator <==> b as char in {'=', ' ', '\t', '\n', '\r', '-'}
  {
    AlphabetRanges();
    hide ALPHABET;
  }

  lemma AlphabetRanges()
    ensures |ALPHABET| == 32
    ensures forall v :: 0 <= v < 26 ==> ALPHABET[v] as int == 65 + v
    ensures forall v :: 26 <= v < 32 ==> ALPHABET[v] as int == 50 + v - 26
  {
  }

  lemma {:induction false} SymbolsConcat(a: Bytes, b: Bytes)
    ensures Symbols(a + b) == match (Symbols(a), Symbols(b))
      case (Some(x), Some(y)) => Some(x + y)
      case _ => None
  {
    hide Classify, AllBelow32;
    if a == [] {
      assert a + b == b;
      assert Symbols(b).Some? ==> [] + Symbols(b).value == Symbols(b).value;
    } else {
      assert (a + b)[1..] == a[1..] + b && (a + b)[0] == a[0];
      SymbolsConcat(a[1..], b);
      match (Classify(a[0]), Symbols(a[1..]), Symbols(b))
      case (Symbol(v), Some(x), Some(y)) => assert [v] + (x + y) == [v] + x + y;
      case _ =>
    }
  }

  lemma SymbolsAround(a: Bytes, middle: Bytes, other: Bytes, b: Bytes)
    requires Symbols(middle) == Symbols(other)
    ensures Symbols(a + middle + b) == Symbols(a + other + b)
  {
    SymbolsConcat(a, middle);
    SymbolsConcat(a, other);
    SymbolsConcat(a + middle, b);
    SymbolsConcat(a + other, b);
  }

  lemma OneSymbol(b: byte)
    ensures Symbols([b]) == match Classify(b)
      case Symbol(v) => Some([v])
      case Separator => Some([])
      case Invalid => None
  {
    var one: Bytes := [b];
    assert one[1..] == [];
    hide Classify;
    assert forall v: nat :: [v] + [] == [v];
  }

  lemma NoSymbols()
    ensures Symbols([]) == Some([])
  {
  }

  /** A space, tab, line break, `-` or `=` put in anywhere changes nothing. */
  lemma InsertedSeparator(a: Bytes, c: byte, b: Bytes)
    requires c as char in {'=', ' ', '\t', '\n', '\r', '-'}
    ensures Decoded(a + [c] + b) == Decoded(a + b)
  {
    EveryCharacter(c);
    hide Classify, Symbols, ALPHABET;
    OneSymbol(c);
    NoSymbols();
    SymbolsAround(a, [c], [], b);
    assert a + [] + b == a + b;
  }

  /** Nor does writing a letter in lower case. */
  lemma LowerCase(a: Bytes, c: byte, b: Bytes)
    requires 'a' <= c as char <= 'z'
    ensures Decoded(a + [c] + b) == Decoded(a + [c - ('a' as int - 'A' as int)] + b)
  {
    var upper: byte := c - 32;
    assert Classify(c) == Classify(upper);
    hide Classify, Symbols, ALPHABET;
    OneSymbol(c);
    OneSymbol(upper);
    SymbolsAround(a, [c], [upper], b);
  }

  /** Any other character makes the secret invalid, wherever it stands. */
  lemma OtherCharacter(a: Bytes, c: byte, b: Bytes)
    requires forall v :: 0 <= v < |ALPHABET| ==> c != ALPHABET[v] as int
    requires !('a' <= c as char <= 'z') && c as char !in {'=', ' ', '\t', '\n', '\r', '-'}
    ensures Decoded(a + [c] + b) == None
  {
    EveryCharacter(c);
    AlphabetRanges();
    hide ALPHABET;
    OneSymbol(c);
    forall v: nat | v < 32 ensures Classify(c) != Symbol(v) {
    }
    assert Classify(c).Invalid?;
    SymbolsConcat(a, [c]);
    SymbolsConcat(a + [c], b);
  }

  // ---------------------------------------------------------------- the encoder

  function ShiftLeft(v: nat, k: nat): nat
    decreases k
  {
    if k == 0 then v else ShiftLeft(2 * v, k - 1)
  }

  /** Zero bits that complete the last group of five. */
  function PadBits(len: nat): nat { (5 - 8 * len % 5) % 5 }

  function SymbolCount(len: nat): nat { (8 * len + PadBits(len)) / 5 }

  function Base32Digits(n: nat, m: nat): (r: seq<nat>)
    ensures |r| == m && AllBelow32(r)
  {
    if m == 0 then [] else Base32Digits(n / 32, m - 1) + [n % 32]
  }

  function SymbolChar(v: nat): byte
    requires v < 32
  {
    if v < 26 then 65 + v else 50 + (v - 26)
  }

  function Spell(s: seq<nat>): Bytes
    requires AllBelow32(s)
  {
    if s == [] then [] else [SymbolChar(s[0])] + Spell(s[1..])
  }

  /** `=` up to a multiple of eight characters. */
  function EqualsSigns(m: nat): Bytes { seq((8 - m % 8) % 8, _ => 61) }

  /** Section 6 of RFC 4648: groups of five bits, the last filled with zeros, `=` up to a multiple of eight. */
  function Encode(b: Bytes): Bytes {
    var m := SymbolCount(|b|);
    Spell(Base32Digits(ShiftLeft(FromBE(b), PadBits(|b|)), m)) + EqualsSigns(m)
  }

  lemma {:induction false} SymbolsOfPadding(n: nat)
    ensures Symbols(seq(n, _ => 61)) == Some([])
  {
    if n > 0 {
      var pad: Bytes := seq(n, _ => 61);
      assert pad[1..] == seq(n - 1, _ => 61);
      SymbolsOfPadding(n - 1);
    }
  }

  lemma SymbolClassified(v: nat)
    requires v < 32
    ensures Classify(SymbolChar(v)) == Symbol(v)
  {
  }

  lemma SymbolsCons(v: nat, rest: Bytes)
    requires v < 32 && Symbols(rest).Some?
    ensures Symbols([SymbolChar(v)] + rest) == Some([v] + Symbols(rest).value)
  {
    SymbolClassified(v);
    hide Classify;
    var text := [SymbolChar(v)] + rest;
    assert text[1..] == rest;
  }

  lemma {:induction false} SymbolsOfSpelling(s: seq<nat>, pad: Bytes)
    requires AllBelow32(s) && Symbols(pad) == Some([])
    ensures Symbols(Spell(s) + pad) == Some(s)
  {
    hide Classify, SymbolChar, Symbols;
    if s == [] {
      assert Spell(s) + pad == pad;
    } else {
      SymbolClassified(s[0]);
      var first, rest := [SymbolChar(s[0])], Spell(s[1..]);
      assert Spell(s) == first + rest;
      Assoc(first, rest, pad);
      SymbolsOfSpelling(s[1..], pad);
      SymbolsCons(s[0], rest + pad);
      assert [s[0]] + s[1..] == s;
    }
  }

  lemma FivePowers(k: nat)
    ensures Pow2(k + 5) == 32 * Pow2(k) && Pow2(k + 8) == 256 * Pow2(k)
  {
    assert Pow2(k + 2) == 4 * Pow2(k);
    assert Pow2(k + 4) == 4 * Pow2(k + 2);
    assert Pow2(k + 6) == 4 * Pow2(k + 4);
    assert Pow2(k + 8) == 4 * Pow2(k + 6);
  }

  lemma {:induction false} NumeralOfDigits(n: nat, m: nat)
    requires n < Pow2(5 * m)
    ensures Numeral(Base32Digits(n, m)) == n
  {
    if m > 0 {
      FivePowers(5 * (m - 1));
      NumeralOfDigits(n / 32, m - 1);
      NumeralAppend(Base32Digits(n / 32, m - 1), n % 32);
    }
  }

  lemma {:induction false} ShiftBackAndForth(v: nat, k: nat, bits: nat)
    requires v < Pow2(bits)
    ensures ShiftRight(ShiftLeft(v, k), k) == v && ShiftLeft(v, k) < Pow2(bits + k)
    decreases k
  {
    if k > 0 {
      ShiftBackAndForth(2 * v, k - 1, bits + 1);
      ShiftOneMore(ShiftLeft(2 * v, k - 1), k - 1);
    }
  }

  lemma {:induction false} BytesAsBits(len: nat)
    ensures Pow256(len) == Pow2(8 * len)
  {
    if len > 0 {
      BytesAsBits(len - 1);
      FivePowers(8 * (len - 1));
    }
  }

  lemma LeadingOfShifted(v: nat, len: nat, pad: nat, m: nat)
    requires pad < 8 && 5 * m == 8 * len + pad && v < Pow2(8 * len)
    ensures LeadingBytes(Base32Digits(ShiftLeft(v, pad), m)) == BE(v, len)
  {
    hide Pow2, ShiftLeft, ShiftRight, Numeral, BE, TopBytes, Base32Digits, AllBelow32;
    var n := ShiftLeft(v, pad);
    ShiftBackAndForth(v, pad, 8 * len);
    NumeralOfDigits(n, m);
    TopBytesAt(n, len, pad);
  }

  /** The symbols of a byte string hold its bits and then the padding bits. */
  lemma LeadingOfDigits(b: Bytes)
    requires b != []
    ensures LeadingBytes(Base32Digits(ShiftLeft(FromBE(b), PadBits(|b|)), SymbolCount(|b|))) == b
  {
    CountsFit(|b|);
    FromBERoundTrip(b);
    BytesAsBits(|b|);
    hide *;
    LeadingOfShifted(FromBE(b), |b|, PadBits(|b|), SymbolCount(|b|));
  }

  lemma TopBytesAt(n: nat, len: nat, pad: nat)
    requires pad < 8
    ensures TopBytes(n, 8 * len + pad) == BE(ShiftRight(n, pad), len)
  {
    hide ShiftRight, BE;
    QuotientUnique(8 * len + pad, len, pad, 8);
  }

  /** Decoding undoes the encoding of every non-empty byte string. */
  lemma DecodeEncoded(b: Bytes)
    requires b != []
    ensures Decoded(Encode(b)) == Some(b)
  {
    CountsFit(|b|);
    LeadingOfDigits(b);
    var m := SymbolCount(|b|);
    SymbolsOfPadding((8 - m % 8) % 8);
    hide Symbols, Spell, Base32Digits, LeadingBytes, PadBits, SymbolCount, ShiftLeft, FromBE, EqualsSigns, AllBelow32;
    SymbolsOfSpelling(Base32Digits(ShiftLeft(FromBE(b), PadBits(|b|)), m), EqualsSigns(m));
  }

  lemma CountsFit(len: nat)
    requires len > 0
    ensures PadBits(len) < 5 && 5 * SymbolCount(len) == 8 * len + PadBits(len) && SymbolCount(len) >= 2
  {
    var k, r := 8 * len / 5, 8 * len % 5;
    assert 8 * len == 5 * k + r;
    if r == 0 {
      assert PadBits(len) == 0;
    } else {
      assert PadBits(len) == 5 - r && 8 * len + (5 - r) == 5 * (k + 1);
    }
  }

  // ---------------------------------------------------------------- codes

  /** Four bytes shifted into place, the first highest. */
  function Word(a: nat, b: nat, c: nat, d: nat): nat {
    a * 0x100_0000 + b * 0x1_0000 + c * 0x100 + d
  }

  /** Dynamic truncation: four bytes from where the last nibble points, the sign bit dropped. */
  function Truncated(mac: Bytes): nat
    requires |mac| == 20
  {
    var offset := mac[19] % 16;
    Word(mac[offset] % 128, mac[offset + 1], mac[offset + 2], mac[offset + 3])
  }

  function Hotp(hmacSha1: (Bytes, Bytes) -> Bytes, key: Bytes, counter: u64): string
    requires |hmacSha1(key, BE(counter, 8))| == 20
  {
    Digits(Truncated(hmacSha1(key, BE(counter, 8))) % 1_000_000, DIGITS)
  }

  ghost predicate MacSized(hmacSha1: (Bytes, Bytes) -> Bytes) {
    forall k, m :: |hmacSha1(k, m)| == 20
  }

  datatype TotpCode = TotpCode(code: string, validForSecs: nat)

  function GenerateAt(hmacSha1: (Bytes, Bytes) -> Bytes, secret: Bytes, unixSecs: u64): Result<TotpCode>
    requires MacSized(hmacSha1)
  {
    match Decoded(secret)
    case None => Err(Crypto)
    case Some(key) => Ok(TotpCode(Hotp(hmacSha1, key, unixSecs / PERIOD), PERIOD - unixSecs % PERIOD))
  }

  /** The truncation is the 31-bit big-endian number at the offset; the code is its last six decimal digits. */
  lemma CodeIsSixDigits(hmacSha1: (Bytes, Bytes) -> Bytes, key: Bytes, counter: u64)
    requires MacSized(hmacSha1)
    ensures var mac := hmacSha1(key, BE(counter, 8)); var offset := mac[19] % 16;
      Truncated(mac) == FromBE(mac[offset..offset + 4]) % 0x8000_0000
    ensures var mac := hmacSha1(key, BE(counter, 8));
      |Hotp(hmacSha1, key, counter)| == DIGITS && Value(Hotp(hmacSha1, key, counter)) == Truncated(mac) % 1_000_000
  {
    var mac := hmacSha1(key, BE(counter, 8));
    var offset := mac[19] % 16;
    FourBytes(mac[offset..offset + 4]);
    var n := Truncated(mac) % 1_000_000;
    assert Pow10(6) == 10 * Pow10(5) && Pow10(5) == 10 * Pow10(4) && Pow10(4) == 10 * Pow10(3);
    assert Pow10(3) == 1000;
    DigitsFit(n, DIGITS);
    ValueOfDigits(n, DIGITS);
  }

  lemma FourBytes(b: Bytes)
    requires |b| == 4
    ensures FromBE(b) == Word(b[0], b[1], b[2], b[3])
    ensures FromBE(b) % 0x8000_0000 == Word(b[0] % 128, b[1], b[2], b[3])
  {
    assert b[..3][..2] == b[..2] && b[..2][..1] == b[..1] && b[..1][..0] == [];
    assert FromBE(b[..1]) == b[0];
    assert FromBE(b[..2]) == 256 * FromBE(b[..1]) + b[1];
    assert FromBE(b[..3]) == 256 * FromBE(b[..2]) + b[2];
    WordMod(b[0], b[1], b[2], b[3]);
    hide FromBE;
  }

  lemma WordMod(a: byte, b: byte, c: byte, d: byte)
    ensures Word(a, b, c, d) % 0x8000_0000 == Word(a % 128, b, c, d)
  {
    var q: nat := a / 128;
    QuotientUnique(Word(a, b, c, d), q, Word(a % 128, b, c, d), 0x8000_0000);
  }

  /** A code stays the same for exactly the seconds it is said to, and the window ends with them. */
  lemma WindowExactly(hmacSha1: (Bytes, Bytes) -> Bytes, secret: Bytes, t: u64, u: u64)
    requires MacSized(hmacSha1) && Decoded(secret).Some? && t <= u
    ensures var c := GenerateAt(hmacSha1, secret, t).value;
      && 1 <= c.validForSecs <= PERIOD
      && (u / PERIOD == t / PERIOD <==> u < t + c.validForSecs)
      && (u < t + c.validForSecs ==>
          GenerateAt(hmacSha1, secret, u).value == TotpCode(c.code, c.validForSecs - (u - t)))
  {
    var w := PERIOD - t % PERIOD;
    assert t + w == PERIOD * (t / PERIOD + 1);
  }

  /**
   Which code belongs to a time: in window `n`, counted in half minutes since 1970, it has six digits, and they are
   the last six of the 31-bit number that the MAC of the eight big-endian bytes of `n` holds where its last nibble
   points.
   */
  lemma CodeOfWindow(hmacSha1: (Bytes, Bytes) -> Bytes, secret: Bytes, n: nat, r: nat, message: Bytes)
    requires MacSized(hmacSha1) && r < 30 && 30 * n + r <= U64_MAX
    requires |message| == 8 && forall i :: 0 <= i < 8 ==> message[7 - i] == n / Pow256(i) % 256
    ensures Decoded(secret).None? ==> GenerateAt(hmacSha1, secret, 30 * n + r) == Err(Crypto)
    ensures Decoded(secret).Some? ==>
      var mac := hmacSha1(Decoded(secret).value, message); var at := mac[19] % 16;
      var code := GenerateAt(hmacSha1, secret, 30 * n + r).value;
      && GenerateAt(hmacSha1, secret, 30 * n + r).Ok? && |code.code| == 6 && code.validForSecs == 30 - r
      && Value(code.code) == U32(mac[at + 3], mac[at + 2], mac[at + 1], mac[at] % 128) % 1_000_000
  {
    QuotientUnique(30 * n + r, n, r, 30);
    BigEndianIs(n, message);
    hide Decoded, Pow256, BE, Hotp, Truncated;
    if Decoded(secret).Some? {
      CodeFromMac(hmacSha1, Decoded(secret).value, n);
    }
  }

  lemma BigEndianIs(n: nat, message: Bytes)
    requires |message| == 8 && forall i :: 0 <= i < 8 ==> message[7 - i] == n / Pow256(i) % 256
    ensures message == BE(n, 8)
  {
    hide BE, Pow256;
    forall i | 0 <= i < 8 ensures message[i] == BE(n, 8)[i] {
      BEByte(n, 8, 7 - i);
      assert message[7 - (7 - i)] == n / Pow256(7 - i) % 256;
    }
  }

  lemma CodeFromMac(hmacSha1: (Bytes, Bytes) -> Bytes, key: Bytes, n: u64)
    requires MacSized(hmacSha1)
    ensures var mac := hmacSha1(key, BE(n, 8)); var at := mac[19] % 16; var code := Hotp(hmacSha1, key, n);
      && |code| == 6
      && Value(code) == U32(mac[at + 3], mac[at + 2], mac[at + 1], mac[at] % 128) % 1_000_000
  {
    hide BE, Hotp;
    CodeIsSixDigits(hmacSha1, key, n);
  }
}
