/**
 Random passwords and passphrases by rejection sampling (gen.rs). The operating system's random values are
 a parameter: the ones it delivers, in order, before it fails.
 */
module Gen {
  import opened Bytes

  const DIGITS := "0123456789"
  const UPPER := "ABCDEFGHIJKLMNOPQRSTUVWXYZ"
  const LOWER := "abcdefghijklmnopqrstuvwxyz"
  const ALNUM := UPPER + LOWER + DIGITS
  const ASCII := "!\"#$%&'()*+,-./" + DIGITS + ":;<=>?@" + UPPER + "[\\]^_`" + LOWER + "{|}~"

  datatype Charset = Alnum | Ascii {
    function Alphabet(): (r: string)
      ensures |r| == match this case Alnum => 62 case Ascii => 94
    {
      match this
      case Alnum => ALNUM
      case Ascii => ASCII
    }
  }

  // ---------------------------------------------------------------- rejection

  /** The draws that are not rejected. */
  function Accepted(draws: seq<nat>, limit: nat): (r: seq<nat>)
    ensures |r| <= |draws|
  {
    if draws == [] then []
    else
      var before := Accepted(draws[..|draws| - 1], limit);
      if draws[|draws| - 1] < limit then before + [draws[|draws| - 1]] else before
  }

  lemma AcceptedNext(draws: seq<nat>, limit: nat, i: nat)
    requires i < |draws|
    ensures Accepted(draws[..i + 1], limit) ==
            if draws[i] < limit then Accepted(draws[..i], limit) + [draws[i]] else Accepted(draws[..i], limit)
  {
    assert draws[..i + 1][..i] == draws[..i];
  }

  lemma {:induction false} AcceptedPrefix(draws: seq<nat>, limit: nat, i: nat)
    requires i <= |draws|
    ensures Accepted(draws[..i], limit) <= Accepted(draws, limit)
    decreases |draws| - i
  {
    if i < |draws| {
      AcceptedNext(draws, limit, i);
      AcceptedPrefix(draws, limit, i + 1);
    } else {
      assert draws[..i] == draws;
    }
  }

  /** What accepted draws stand for. */
  function Images<T>(draws: seq<nat>, table: seq<T>): seq<T>
    requires |table| > 0
  {
    seq(|draws|, i requires 0 <= i < |draws| => table[draws[i] % |table|])
  }

  lemma ImagesAppend<T>(draws: seq<nat>, d: nat, table: seq<T>)
    requires |table| > 0
    ensures Images(draws + [d], table) == Images(draws, table) + [table[d % |table|]]
  {
  }

  // ---------------------------------------------------------------- passwords

  function ByteLimit(n: nat): nat
    requires n > 0
  {
    256 / n * n
  }

  /**
   The password is the image of the first `length` accepted draws, in order, whatever the draws are; no
   draw beyond the one that completes it is made. It fails only when the draws give out first.
   */
  method Password(charset: Charset, length: nat, draws: seq<byte>) returns (r: Result<string>, used: nat)
    ensures var accepted := Accepted(draws, ByteLimit(|charset.Alphabet()|));
      && (|accepted| >= length ==> r == Ok(Images(accepted[..length], charset.Alphabet())))
      && (|accepted| < length ==> r == Err(Crypto))
      && (r.Ok? ==> forall i :: 0 <= i < length ==>
            r.value[i] == charset.Alphabet()[accepted[i] % |charset.Alphabet()|])
    ensures used <= |draws|
    ensures r.Ok? ==> |r.value| == length
                      && EndsWith(256, ByteLimit(|charset.Alphabet()|), charset.Alphabet(), r.value, draws[..used])
  {
    var alphabet := charset.Alphabet();
    var n := |alphabet|;
    var limit := ByteLimit(n);
    var out := "";
    used := 0;
    assert draws[..0] == [];
    while |out| < length
      invariant used <= |draws| && |out| <= length
      invariant out == Images(Accepted(draws[..used], limit), alphabet)
      invariant |out| == length && used > 0 ==> draws[used - 1] < limit
      decreases |draws| - used
    {
      if used == |draws| {
        assert draws[..used] == draws;
        return Err(Crypto), used;
      }
      var b := draws[used];
      AcceptedNext(draws, limit, used);
      ImagesAppend(Accepted(draws[..used], limit), b, alphabet);
      used := used + 1;
      if b < limit {
        out := out + [alphabet[b % n]];
      }
    }
    AcceptedPrefix(draws, limit, used);
    assert Accepted(draws, limit)[..length] == Accepted(draws[..used], limit);
    r := Ok(out);
  }

  // ---------------------------------------------------------------- passphrases

  function WordLimit(n: nat): nat
    requires n > 0
  {
    U32_MAX / n * n
  }

  /** Words joined by `-`. */
  function Joined(words: seq<string>): string {
    if words == [] then ""
    else if |words| == 1 then words[0]
    else Joined(words[..|words| - 1]) + "-" + words[|words| - 1]
  }

  lemma JoinedAppend(words: seq<string>, w: string)
    ensures Joined(words + [w]) == (if words == [] then "" else Joined(words) + "-") + w
  {
    assert (words + [w])[..|words|] == words;
  }

  lemma PhraseNext(draws: seq<nat>, limit: nat, i: nat, table: seq<string>)
    requires i < |draws| && |table| > 0
    ensures var before, after := Accepted(draws[..i], limit), Accepted(draws[..i + 1], limit);
      && (draws[i] >= limit ==> after == before)
      && (draws[i] < limit ==>
            && |after| == |before| + 1
            && Joined(Images(after, table)) ==
               (if before == [] then "" else Joined(Images(before, table)) + "-") + table[draws[i] % |table|])
  {
    hide Joined;
    var before := Accepted(draws[..i], limit);
    AcceptedNext(draws, limit, i);
    ImagesAppend(before, draws[i], table);
    JoinedAppend(Images(before, table), table[draws[i] % |table|]);
  }

  /** The words in reach: the length of the list is cut to 32 bits. */
  function Reachable(wordlist: seq<string>): seq<string> { wordlist[..|wordlist| % (U32_MAX + 1)] }

  /**
   The words of the first `words` accepted draws, joined. Where the list's length is a multiple of 2^32 the
   code divides by zero, so such lists are excluded.
   */
  method Passphrase(words: nat, wordlist: seq<string>, draws: seq<u32>) returns (r: Result<string>, used: nat)
    requires |wordlist| >= 2 ==> |Reachable(wordlist)| > 0
    ensures |wordlist| < 2 ==> r == Err(Crypto)
    ensures |wordlist| >= 2 ==>
      var accepted := Accepted(draws, WordLimit(|Reachable(wordlist)|));
      && (|accepted| >= words ==> r == Ok(Joined(Images(accepted[..words], Reachable(wordlist)))))
      && (|accepted| < words ==> r == Err(Crypto))
      && (r.Ok? ==> used <= |draws| && EndsWith(U32_MAX + 1, WordLimit(|Reachable(wordlist)|), Reachable(wordlist),
          Images(accepted[..words], Reachable(wordlist)), draws[..used]))
  {
    used := 0;
    if |wordlist| < 2 {
      return Err(Crypto), used;
    }
    var n := |wordlist| % (U32_MAX + 1);
    ghost var table := Reachable(wordlist);
    var limit := WordLimit(n);
    var out, produced := "", 0;
    assert draws[..0] == [] && Joined(Images(Accepted([], limit), table)) == "";
    assert |table| == n && forall i :: 0 <= i < n ==> table[i] == wordlist[i];
    hide Accepted, Images, Joined, WordLimit, Reachable;
    while produced < words
      invariant used <= |draws| && produced <= words && produced == |Accepted(draws[..used], limit)|
      invariant out == Joined(Images(Accepted(draws[..used], limit), table))
      invariant produced == words && used > 0 ==> draws[used - 1] < limit
      decreases |draws| - used
    {
      if used == |draws| {
        assert draws[..used] == draws;
        return Err(Crypto), used;
      }
      var d := draws[used];
      PhraseNext(draws, limit, used, table);
      used := used + 1;
      if d < limit {
        if produced > 0 {
          out := out + "-";
        }
        out := out + wordlist[d % n];
        produced := produced + 1;
      }
    }
    AcceptedPrefix(draws, limit, used);
    assert Accepted(draws, limit)[..words] == Accepted(draws[..used], limit);
    r := Ok(out);
  }

  // ---------------------------------------------------------------- uniformity

  /** The accepted draws that stand for index `k` of a table of `n`. */
  function DrawsAt(limit: nat, n: nat, k: nat): set<nat>
    requires n > 0
  {
    set d: nat | d < limit && d % n == k
  }

  /** In `q` rounds of `n` values, every index comes up `q` times. */
  lemma {:induction false} RoundsUniform(q: nat, n: nat, k: nat)
    requires k < n
    ensures |DrawsAt(q * n, n, k)| == q
  {
    if q > 0 {
      var last := (q - 1) * n + k;
      RoundsUniform(q - 1, n, k);
      assert q * n == (q - 1) * n + n;
      forall d: nat ensures d in DrawsAt(q * n, n, k) <==> d in DrawsAt((q - 1) * n, n, k) + {last} {
        QuotientUnique(last, q - 1, k, n);
        if (q - 1) * n <= d < q * n && d % n == k {
          QuotientUnique(d, q - 1, d - (q - 1) * n, n);
        }
      }
      assert DrawsAt(q * n, n, k) == DrawsAt((q - 1) * n, n, k) + {last};
    }
  }

  lemma LimitBelow(total: nat, n: nat)
    requires n > 0
    ensures total / n * n <= total
  {
    DivMod(total, n);
  }

  /** Of all byte values, exactly `256 / n` are accepted for every index: none is favoured. */
  lemma ByteIndexUniform(n: nat, k: nat)
    requires k < n
    ensures |set b: nat | b < 256 && b < ByteLimit(n) && b % n == k| == 256 / n
  {
    LimitBelow(256, n);
    RoundsUniform(256 / n, n, k);
    assert DrawsAt(ByteLimit(n), n, k) == set b: nat | b < 256 && b < ByteLimit(n) && b % n == k;
  }

  /** Of all 32-bit words, exactly `(2^32 - 1) / n` are accepted for every index. */
  lemma WordIndexUniform(n: nat, k: nat)
    requires k < n
    ensures |set w: nat | w <= U32_MAX && w < WordLimit(n) && w % n == k| == U32_MAX / n
  {
    LimitBelow(U32_MAX, n);
    RoundsUniform(U32_MAX / n, n, k);
    assert DrawsAt(WordLimit(n), n, k) == set w: nat | w <= U32_MAX && w < WordLimit(n) && w % n == k;
  }

  // ---------------------------------------------------------------- characters and words

  ghost predicate Distinct<T>(table: seq<T>) {
    forall i, j :: 0 <= i < j < |table| ==> table[i] != table[j]
  }

  /** The string's characters have consecutive codes. */
  ghost predicate From(a: string, first: nat) {
    forall i :: 0 <= i < |a| ==> a[i] as int == first + i
  }

  lemma FromConcat(a: string, b: string, first: nat)
    requires From(a, first) && From(b, first + |a|)
    ensures From(a + b, first)
  {
  }

  lemma LettersAndDigits()
    ensures |UPPER| == |LOWER| == 26 && |DIGITS| == 10
    ensures From(UPPER, 65) && From(LOWER, 97) && From(DIGITS, 48)
  {
  }

  /** The printable alphabet is the range from `!` to `~`. */
  lemma AsciiIsRange()
    ensures |ASCII| == 94 && From(ASCII, 33)
  {
    LettersAndDigits();
    hide UPPER, LOWER, DIGITS;
    FromConcat("{|}~", [], 123);
  }

  /** Letters and digits, or everything printable but the space. */
  lemma AlphabetsExactly(c: char)
    ensures c in Alnum.Alphabet() <==> 'A' <= c <= 'Z' || 'a' <= c <= 'z' || '0' <= c <= '9'
    ensures c in Ascii.Alphabet() <==> '!' <= c <= '~'
  {
    LettersAndDigits();
    AsciiIsRange();
    hide UPPER, LOWER, DIGITS, ASCII;
    RangeExactly(UPPER, 65, c);
    RangeExactly(LOWER, 97, c);
    RangeExactly(DIGITS, 48, c);
    RangeExactly(ASCII, 33, c);
  }

  lemma RangeExactly(a: string, first: nat, c: char)
    requires From(a, first)
    ensures c in a <==> first <= c as int < first + |a|
  {
    if first <= c as int < first + |a| {
      assert a[c as int - first] == c;
    }
  }

  /** No alphabet lists a character twice. */
  lemma AlphabetsDistinct(charset: Charset)
    ensures Distinct(charset.Alphabet())
  {
    match charset
    case Alnum =>
      LettersAndDigits();
      hide UPPER, LOWER, DIGITS;
    case Ascii => AsciiIsRange();
  }

  // ---------------------------------------------------------------- whole passwords and passphrases

  function Power(b: nat, e: nat): nat { if e == 0 then 1 else b * Power(b, e - 1) }

  /** The accepted draws that stand for `x`. */
  function DrawsOf<T(==)>(limit: nat, table: seq<T>, x: T): set<nat>
    requires |table| > 0
  {
    set d: nat | d < limit && table[d % |table|] == x
  }

  lemma ValueUniform<T>(q: nat, table: seq<T>, x: T)
    requires |table| > 0 && Distinct(table)
    ensures |DrawsOf(q * |table|, table, x)| == if x in table then q else 0
  {
    var limit := q * |table|;
    if x in table {
      var k :| 0 <= k < |table| && table[k] == x;
      RoundsUniform(q, |table|, k);
      forall d: nat | d < limit ensures table[d % |table|] == x <==> d % |table| == k {
        var i := d % |table|;
        assert i < k || i == k || k < i;
      }
      assert DrawsOf(limit, table, x) == DrawsAt(limit, |table|, k);
    } else {
      assert DrawsOf(limit, table, x) == {};
    }
  }

  /** Every `d` in front of every `rest`. */
  function Fronted(heads: set<nat>, tails: set<seq<nat>>): set<seq<nat>> {
    set d, rest | d in heads && rest in tails :: [d] + rest
  }

  lemma InFronted(heads: set<nat>, tails: set<seq<nat>>, draws: seq<nat>)
    ensures draws in Fronted(heads, tails) <==> draws != [] && draws[0] in heads && draws[1..] in tails
  {
    if draws in Fronted(heads, tails) {
      var d, rest :| d in heads && rest in tails && draws == [d] + rest;
      assert draws[1..] == rest;
    }
    if draws != [] {
      assert draws == [draws[0]] + draws[1..];
    }
  }

  lemma {:induction false} FrontedByOne(d: nat, tails: set<seq<nat>>)
    ensures |Fronted({d}, tails)| == |tails|
    decreases |tails|
  {
    if tails == {} {
      assert Fronted({d}, tails) == {};
    } else {
      var t :| t in tails;
      var others := tails - {t};
      FrontedByOne(d, others);
      forall x: seq<nat> ensures x in Fronted({d}, tails) <==> x in Fronted({d}, others) + {[d] + t} {
        InFronted({d}, tails, x);
        InFronted({d}, others, x);
        assert ([d] + t)[1..] == t;
      }
      InFronted({d}, others, [d] + t);
      assert ([d] + t)[1..] == t;
      assert Fronted({d}, tails) == Fronted({d}, others) + {[d] + t};
    }
  }

  lemma FrontedSplit(heads: set<nat>, d: nat, tails: set<seq<nat>>)
    requires d !in heads
    ensures Fronted(heads + {d}, tails) == Fronted(heads, tails) + Fronted({d}, tails)
    ensures Fronted(heads, tails) !! Fronted({d}, tails)
  {
    forall x | x in Fronted(heads, tails) ensures x !in Fronted({d}, tails) {
      assert x != [] && x[0] in heads;
    }
  }

  lemma {:induction false} FrontedCount(heads: set<nat>, tails: set<seq<nat>>)
    ensures |Fronted(heads, tails)| == |heads| * |tails|
    decreases |heads|
  {
    if heads == {} {
      assert Fronted(heads, tails) == {};
    } else {
      var d :| d in heads;
      var others := heads - {d};
      FrontedCount(others, tails);
      FrontedByOne(d, tails);
      FrontedSplit(others, d, tails);
      hide Fronted;
      assert heads == others + {d} && |heads| == |others| + 1;
      assert (|others| + 1) * |tails| == |others| * |tails| + |tails|;
    }
  }

  /** The sequences of accepted draws that produce `target`, one draw for each of its elements. */
  function Producing<T(==)>(limit: nat, table: seq<T>, target: seq<T>): set<seq<nat>>
    requires |table| > 0
  {
    if target == [] then {[]} else Fronted(DrawsOf(limit, table, target[0]), Producing(limit, table, target[1..]))
  }

  lemma ImagesFirst<T>(draws: seq<nat>, table: seq<T>, target: seq<T>)
    requires |table| > 0 && draws != [] && target != []
    ensures Images(draws, table) == target
      <==> table[draws[0] % |table|] == target[0] && Images(draws[1..], table) == target[1..]
  {
    var x, rest := table[draws[0] % |table|], Images(draws[1..], table);
    assert Images(draws, table) == [x] + rest;
    assert target == [target[0]] + target[1..];
    assert ([x] + rest)[0] == x && ([x] + rest)[1..] == rest;
  }

  ghost predicate AllAccepted(draws: seq<nat>, limit: nat) {
    forall i :: 0 <= i < |draws| ==> draws[i] < limit
  }

  lemma AllAcceptedFirst(draws: seq<nat>, limit: nat)
    requires draws != []
    ensures AllAccepted(draws, limit) <==> draws[0] < limit && AllAccepted(draws[1..], limit)
  {
    assert forall i :: 0 < i < |draws| ==> draws[i] == draws[1..][i - 1];
  }

  /** They are all of them: the accepted sequences of that length whose images are the target. */
  lemma {:induction false} ProducingExactly<T>(limit: nat, table: seq<T>, target: seq<T>, draws: seq<nat>)
    requires |table| > 0
    ensures draws in Producing(limit, table, target) <==>
      && |draws| == |target| && AllAccepted(draws, limit)
      && Images(draws, table) == target
    decreases |target|
  {
    if target != [] {
      hide Fronted, Images, AllAccepted;
      InFronted(DrawsOf(limit, table, target[0]), Producing(limit, table, target[1..]), draws);
      if draws != [] {
        ProducingExactly(limit, table, target[1..], draws[1..]);
        ImagesFirst(draws, table, target);
        AllAcceptedFirst(draws, limit);
      }
    }
  }

  lemma {:induction false} EquallyLikely<T>(q: nat, table: seq<T>, target: seq<T>)
    requires |table| > 0 && Distinct(table)
    ensures |Producing(q * |table|, table, target)| ==
            if forall x :: x in target ==> x in table then Power(q, |target|) else 0
    decreases |target|
  {
    if target != [] {
      var heads, tails := DrawsOf(q * |table|, table, target[0]), Producing(q * |table|, table, target[1..]);
      ValueUniform(q, table, target[0]);
      EquallyLikely(q, table, target[1..]);
      FrontedCount(heads, tails);
      assert target == [target[0]] + target[1..];
    }
  }

  /**
   Every password of a length is as likely as every other: of the sequences of accepted bytes, exactly
   `(256 / n) ^ length` produce it, and a string with a character from outside the alphabet is produced by none.
   */
  lemma PasswordsEquallyLikely(charset: Charset, password: string)
    ensures var table := charset.Alphabet();
      |Producing(ByteLimit(|table|), table, password)| ==
      if forall c :: c in password ==> c in table then Power(256 / |table|, |password|) else 0
  {
    hide Charset.Alphabet, Producing, Distinct;
    AlphabetsDistinct(charset);
    EquallyLikely(256 / |charset.Alphabet()|, charset.Alphabet(), password);
  }

  /** Every sequence of words of a length is as likely as every other, if the list names no word twice. */
  lemma PassphrasesEquallyLikely(wordlist: seq<string>, words: seq<string>)
    requires |Reachable(wordlist)| > 0 && Distinct(Reachable(wordlist))
    ensures var n := |Reachable(wordlist)|;
      |Producing(WordLimit(n), Reachable(wordlist), words)| ==
      if forall w :: w in words ==> w in Reachable(wordlist) then Power(U32_MAX / n, |words|) else 0
  {
    hide Producing, Distinct, Reachable;
    EquallyLikely(U32_MAX / |Reachable(wordlist)|, Reachable(wordlist), words);
  }

  // ---------------------------------------------------------------- raw draws, rejected ones included

  predicate ThrownAway(d: nat, limit: nat) { d >= limit }

  function Rejected(limit: nat, total: nat): set<nat> { set d: nat | d < total && ThrownAway(d, limit) }

  lemma {:induction false} RejectedCount(limit: nat, total: nat)
    requires limit <= total
    ensures |Rejected(limit, total)| == total - limit
    decreases total
  {
    if limit < total {
      RejectedCount(limit, total - 1);
      assert Rejected(limit, total) == Rejected(limit, total - 1) + {total - 1};
    } else {
      assert Rejected(limit, total) == {};
    }
  }

  /** The loop ends with these draws, having produced `target`: no draw is missing, and none is left over. */
  ghost predicate EndsWith<T>(total: nat, limit: nat, table: seq<T>, target: seq<T>, draws: seq<nat>)
    requires |table| > 0
  {
    && AllAccepted(draws, total) && Images(Accepted(draws, limit), table) == target
    && (draws != [] ==> draws[|draws| - 1] < limit)
  }

  /** The sequences of `m` draws with which the loop ends exactly at the last one, having produced `target`. */
  function Ending<T(==)>(total: nat, limit: nat, table: seq<T>, target: seq<T>, m: nat): set<seq<nat>>
    requires |table| > 0
  {
    if target == [] then (if m == 0 then {[]} else {})
    else if m == 0 then {}
    else
      Fronted(Rejected(limit, total), Ending(total, limit, table, target, m - 1))
      + Fronted(DrawsOf(limit, table, target[0]), Ending(total, limit, table, target[1..], m - 1))
  }

  lemma {:induction false} AcceptedFirst(draws: seq<nat>, limit: nat)
    requires draws != []
    ensures Accepted(draws, limit) == (if draws[0] < limit then [draws[0]] else []) + Accepted(draws[1..], limit)
    decreases |draws|
  {
    var n := |draws|;
    if n == 1 {
      assert draws[..0] == [] && draws[1..] == [];
    } else {
      AcceptedFirst(draws[..n - 1], limit);
      assert draws[1..][..n - 2] == draws[..n - 1][1..];
    }
  }

  lemma LastAccepted(draws: seq<nat>, limit: nat)
    requires draws != [] && draws[|draws| - 1] < limit
    ensures Accepted(draws, limit) != []
  {
  }

  /** The first draw is thrown away, or stands for the first element. */
  lemma EndsWithFirst<T>(total: nat, limit: nat, table: seq<T>, target: seq<T>, draws: seq<nat>)
    requires |table| > 0 && draws != [] && target != []
    ensures draws[0] >= limit ==> (EndsWith(total, limit, table, target, draws) <==>
      draws[0] < total && draws[1..] != [] && EndsWith(total, limit, table, target, draws[1..]))
    ensures draws[0] < limit <= total ==> (EndsWith(total, limit, table, target, draws) <==>
      table[draws[0] % |table|] == target[0] && EndsWith(total, limit, table, target[1..], draws[1..]))
  {
    var rest := draws[1..];
    AcceptedFirst(draws, limit);
    AllAcceptedFirst(draws, total);
    if draws[0] < limit {
      ImagesFirst(Accepted(draws, limit), table, target);
      assert Accepted(draws, limit)[1..] == Accepted(rest, limit);
    } else {
      assert [] + Accepted(rest, limit) == Accepted(rest, limit);
    }
    if rest != [] {
      assert rest[|rest| - 1] == draws[|draws| - 1];
    }
  }

  lemma NotYet<T>(total: nat, limit: nat, table: seq<T>, target: seq<T>)
    requires |table| > 0 && target != []
    ensures !EndsWith(total, limit, table, target, [])
  {
    assert Images([], table) == [];
  }

  lemma EndsWithNothing<T>(total: nat, limit: nat, table: seq<T>, draws: seq<nat>)
    requires |table| > 0
    ensures EndsWith(total, limit, table, [], draws) <==> draws == []
  {
    if draws != [] && draws[|draws| - 1] < limit {
      LastAccepted(draws, limit);
      assert |Images(Accepted(draws, limit), table)| > 0;
    }
  }

  /** They are all of them: the sequences of `m` draws with which the loop ends, having produced the target. */
  lemma {:induction false} EndingExactly<T>(total: nat, limit: nat, table: seq<T>, target: seq<T>, m: nat,
                                            draws: seq<nat>)
    requires |table| > 0 && limit <= total
    ensures draws in Ending(total, limit, table, target, m)
      <==> |draws| == m && EndsWith(total, limit, table, target, draws)
    decreases m
  {
    hide EndsWith, Fronted, Images, Accepted, DrawsOf, Rejected;
    if target == [] {
      EndsWithNothing(total, limit, table, draws);
    } else if m == 0 {
      NotYet(total, limit, table, target);
    } else {
      var again, tails := Ending(total, limit, table, target, m - 1), Ending(total, limit, table, target[1..], m - 1);
      InFronted(Rejected(limit, total), again, draws);
      InFronted(DrawsOf(limit, table, target[0]), tails, draws);
      if draws != [] {
        EndingExactly(total, limit, table, target, m - 1, draws[1..]);
        EndingExactly(total, limit, table, target[1..], m - 1, draws[1..]);
        EndsWithFirst(total, limit, table, target, draws);
        NotYet(total, limit, table, target);
        FirstDraw(total, limit, table, target[0], draws[0]);
      }
    }
  }

  lemma FirstDraw<T>(total: nat, limit: nat, table: seq<T>, x: T, d: nat)
    requires |table| > 0
    ensures d in Rejected(limit, total) <==> limit <= d < total
    ensures d in DrawsOf(limit, table, x) <==> d < limit && table[d % |table|] == x
  {
  }

  /** How many there are: a function of the length of what is produced, and of nothing else about it. */
  function EndingCount(rejected: nat, q: nat, length: nat, m: nat): nat {
    if length == 0 then (if m == 0 then 1 else 0)
    else if m == 0 then 0
    else rejected * EndingCount(rejected, q, length, m - 1) + q * EndingCount(rejected, q, length - 1, m - 1)
  }

  lemma FrontedApart(a: set<nat>, b: set<nat>, s: set<seq<nat>>, t: set<seq<nat>>)
    requires a !! b
    ensures |Fronted(a, s) + Fronted(b, t)| == |a| * |s| + |b| * |t|
  {
    FrontedCount(a, s);
    FrontedCount(b, t);
    forall x | x in Fronted(a, s) ensures x !in Fronted(b, t) {
      InFronted(a, s, x);
      InFronted(b, t, x);
    }
  }

  lemma Apart<T>(limit: nat, total: nat, table: seq<T>, x: T)
    requires |table| > 0
    ensures Rejected(limit, total) !! DrawsOf(limit, table, x)
  {
  }

  ghost predicate Over<T>(target: seq<T>, table: seq<T>) { forall x :: x in target ==> x in table }

  lemma OverFirst<T>(target: seq<T>, table: seq<T>)
    ensures Over(target, table) <==> target == [] || (target[0] in table && Over(target[1..], table))
  {
    if target != [] {
      assert target == [target[0]] + target[1..];
    }
  }

  lemma RawStep<T>(total: nat, q: nat, limit: nat, table: seq<T>, target: seq<T>, m: nat)
    requires |table| > 0 && limit <= total && target != [] && m > 0
    requires |DrawsOf(limit, table, target[0])| == if target[0] in table then q else 0
    ensures |Ending(total, limit, table, target, m)| ==
            (total - limit) * |Ending(total, limit, table, target, m - 1)|
            + if target[0] in table then q * |Ending(total, limit, table, target[1..], m - 1)| else 0
  {
    hide Fronted, Rejected, DrawsOf;
    RejectedCount(limit, total);
    Apart(limit, total, table, target[0]);
    FrontedApart(Rejected(limit, total), DrawsOf(limit, table, target[0]),
      Ending(total, limit, table, target, m - 1), Ending(total, limit, table, target[1..], m - 1));
  }

  lemma {:induction false} RawEquallyLikely<T>(total: nat, q: nat, limit: nat, table: seq<T>, target: seq<T>, m: nat)
    requires |table| > 0 && Distinct(table) && limit == q * |table| <= total
    ensures |Ending(total, limit, table, target, m)| ==
            if Over(target, table) then EndingCount(total - limit, q, |target|, m) else 0
    decreases m
  {
    hide Fronted, Rejected, DrawsOf, Distinct, Over;
    OverFirst(target, table);
    if target != [] && m > 0 {
      hide Ending;
      ValueUniform(q, table, target[0]);
      RawStep(total, q, limit, table, target, m);
      RawEquallyLikely(total, q, limit, table, target, m - 1);
      RawEquallyLikely(total, q, limit, table, target[1..], m - 1);
    }
  }

  /**
   The loop itself, with every draw it makes: for every `m`, all passwords of one length are produced by equally
   many sequences of `m` random bytes with which it ends exactly at the last. So no password is more likely than
   another, nor does the time it takes tell them apart.
   */
  lemma PasswordsEquallyLikelyRaw(charset: Charset, password: string, m: nat)
    ensures var table := charset.Alphabet();
      |Ending(256, ByteLimit(|table|), table, password, m)| ==
      if forall c :: c in password ==> c in table
      then EndingCount(256 - ByteLimit(|table|), 256 / |table|, |password|, m) else 0
  {
    hide Charset.Alphabet, Ending, Distinct;
    AlphabetsDistinct(charset);
    LimitBelow(256, |charset.Alphabet()|);
    var n := |charset.Alphabet()|;
    RawEquallyLikely(256, 256 / n, ByteLimit(n), charset.Alphabet(), password, m);
  }

  /** The same for sequences of words, drawn as 32-bit values. */
  lemma PassphrasesEquallyLikelyRaw(wordlist: seq<string>, words: seq<string>, m: nat)
    requires |Reachable(wordlist)| > 0 && Distinct(Reachable(wordlist))
    ensures var table := Reachable(wordlist);
      |Ending(U32_MAX + 1, WordLimit(|table|), table, words, m)| ==
      if forall w :: w in words ==> w in table
      then EndingCount(U32_MAX + 1 - WordLimit(|table|), U32_MAX / |table|, |words|, m) else 0
  {
    hide Ending, Distinct, Reachable;
    LimitBelow(U32_MAX, |Reachable(wordlist)|);
    var n := |Reachable(wordlist)|;
    RawEquallyLikely(U32_MAX + 1, U32_MAX / n, WordLimit(n), Reachable(wordlist), words, m);
  }
}
