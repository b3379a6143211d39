/** Re-ranking of search hits by usage (search.rs); its floating-point numbers are real numbers here. */
module Search {
  import opened Bytes

  /** A hit: what orders it, and the highlight positions that travel with it. */
  datatype Hit = Hit(title: Bytes, id: Bytes, score: nat, matches: Bytes)

  type Usage = Bytes -> real

  const FRECENCY_WEIGHT := 8.0

  // ---------------------------------------------------------------- the order

  /** The order of Rust's strings and byte arrays. */
  predicate LexLess(a: Bytes, b: Bytes) {
    if b == [] then false
    else if a == [] then true
    else a[0] < b[0] || (a[0] == b[0] && LexLess(a[1..], b[1..]))
  }

  lemma {:induction false} LexTrichotomy(a: Bytes, b: Bytes)
    ensures LexLess(a, b) ==> a != b && !LexLess(b, a)
    ensures !LexLess(a, b) && !LexLess(b, a) ==> a == b
  {
    if a != [] && b != [] && a[0] == b[0] {
      LexTrichotomy(a[1..], b[1..]);
      assert a == [a[0]] + a[1..] && b == [b[0]] + b[1..];
    }
  }

  /** The strings agree up to `n`, and there `a` has the lesser byte. */
  ghost predicate LessAt(a: Bytes, b: Bytes, n: nat) { n < |a| && n < |b| && a[..n] == b[..n] && a[n] < b[n] }

  lemma LessAtLater(a: Bytes, b: Bytes, n: nat)
    requires a != [] && b != [] && a[0] == b[0]
    ensures LessAt(a, b, n + 1) <==> LessAt(a[1..], b[1..], n)
  {
    if n + 1 < |a| && n + 1 < |b| {
      assert a[..n + 1] == [a[0]] + a[1..][..n] && b[..n + 1] == [b[0]] + b[1..][..n];
      assert a[1..][..n] == a[..n + 1][1..] && b[1..][..n] == b[..n + 1][1..];
    }
  }

  lemma DifferAtOnce(a: Bytes, b: Bytes)
    requires a != [] && b != [] && a[0] != b[0]
    ensures forall n: nat :: LessAt(a, b, n) ==> n == 0
  {
    forall n: nat | n < |a| && n < |b| ensures n > 0 ==> a[..n] != b[..n] {
      if n > 0 {
        assert a[..n][0] == a[0] && b[..n][0] == b[0];
      }
    }
  }

  /** The first string ends where the second goes on, or is less where they first differ. */
  lemma {:induction false} LexExactly(a: Bytes, b: Bytes)
    ensures LexLess(a, b) <==> a < b || exists n: nat :: LessAt(a, b, n)
  {
    if a != [] && b != [] {
      if a[0] == b[0] {
        LexExactly(a[1..], b[1..]);
        assert a < b <==> a[1..] < b[1..] by {
          assert a == [a[0]] + a[1..] && b == [b[0]] + b[1..];
        }
        assert !LessAt(a, b, 0);
        forall n: nat ensures LessAt(a, b, n + 1) <==> LessAt(a[1..], b[1..], n) {
          LessAtLater(a, b, n);
        }
        if n: nat :| LessAt(a, b, n) {
          assert n > 0;
          LessAtLater(a, b, n - 1);
        }
        if n: nat :| LessAt(a[1..], b[1..], n) {
          assert LessAt(a, b, n + 1);
        }
        hide LessAt;
      } else {
        assert a[..0] == b[..0];
        assert a[0] < b[0] ==> LessAt(a, b, 0);
        DifferAtOnce(a, b);
      }
    }
  }

  lemma {:induction false} LexTransitive(a: Bytes, b: Bytes, c: Bytes)
    requires LexLess(a, b) && LexLess(b, c)
    ensures LexLess(a, c)
  {
    if a != [] && a[0] == b[0] == c[0] {
      LexTransitive(a[1..], b[1..], c[1..]);
    }
  }

  /** Title, then id. */
  predicate TieLess(a: Hit, b: Hit) {
    LexLess(a.title, b.title) || (a.title == b.title && LexLess(a.id, b.id))
  }

  /** What the blend is measured by: the usage function and its least and greatest value on the hits. */
  datatype Scale = Scale(usage: Usage, low: real, high: real) {
    function Norm(h: Hit): real {
      if high - low > 0.0 then (usage(h.id) - low) / (high - low) else 0.0
    }

    function Key(h: Hit): real { h.score as real + FRECENCY_WEIGHT * Norm(h) }

    /** `a` is listed before `b`: greater key first, ties by title and id. */
    predicate Precedes(a: Hit, b: Hit) {
      Key(a) > Key(b) || (Key(a) == Key(b) && TieLess(a, b))
    }

    ghost predicate Covers(h: Hit) { low <= usage(h.id) <= high }
  }

  lemma PrecedesIsOrder(k: Scale, a: Hit, b: Hit, c: Hit)
    ensures k.Precedes(a, b) ==> !k.Precedes(b, a)
    ensures k.Precedes(a, b) && k.Precedes(b, c) ==> k.Precedes(a, c)
    ensures !k.Precedes(a, b) && !k.Precedes(b, a) ==> a.title == b.title && a.id == b.id
  {
    LexTrichotomy(a.title, b.title);
    LexTrichotomy(a.id, b.id);
    if LexLess(a.title, b.title) && LexLess(b.title, c.title) {
      LexTransitive(a.title, b.title, c.title);
    }
    if LexLess(a.id, b.id) && LexLess(b.id, c.id) {
      LexTransitive(a.id, b.id, c.id);
    }
  }

  // ---------------------------------------------------------------- sorting

  /** A stable sort inserts after everything it does not precede. */
  function Insert(k: Scale, h: Hit, sorted: seq<Hit>): seq<Hit> {
    if sorted == [] then [h]
    else if k.Precedes(h, sorted[0]) then [h] + sorted
    else [sorted[0]] + Insert(k, h, sorted[1..])
  }

  function Sort(k: Scale, hits: seq<Hit>): seq<Hit> {
    if hits == [] then [] else Insert(k, hits[|hits| - 1], Sort(k, hits[..|hits| - 1]))
  }

  ghost predicate Sorted(k: Scale, hits: seq<Hit>) {
    forall i, j :: 0 <= i < j < |hits| ==> !k.Precedes(hits[j], hits[i])
  }

  lemma {:induction false} InsertPermutes(k: Scale, h: Hit, sorted: seq<Hit>)
    ensures multiset(Insert(k, h, sorted)) == multiset(sorted) + multiset{h}
  {
    if sorted != [] {
      assert sorted == [sorted[0]] + sorted[1..];
      if !k.Precedes(h, sorted[0]) {
        InsertPermutes(k, h, sorted[1..]);
      }
    }
  }

  lemma {:induction false} SortPermutes(k: Scale, hits: seq<Hit>)
    ensures multiset(Sort(k, hits)) == multiset(hits)
  {
    if hits != [] {
      var init, last := hits[..|hits| - 1], hits[|hits| - 1];
      SortPermutes(k, init);
      InsertPermutes(k, last, Sort(k, init));
      assert hits == init + [last];
    }
  }

  lemma SortedTail(k: Scale, hits: seq<Hit>)
    requires Sorted(k, hits) && hits != []
    ensures Sorted(k, hits[1..])
    ensures forall x :: x in hits[1..] ==> !k.Precedes(x, hits[0])
  {
  }

  lemma SortedHead(k: Scale, hits: seq<Hit>, x: Hit)
    requires Sorted(k, hits) && x in hits
    ensures !k.Precedes(x, hits[0])
  {
    PrecedesIsOrder(k, x, hits[0], x);
    SortedTail(k, hits);
    if x != hits[0] {
      assert x in hits[1..];
    }
  }

  lemma SortedCons(k: Scale, h: Hit, rest: seq<Hit>)
    requires Sorted(k, rest) && forall x :: x in rest ==> !k.Precedes(x, h)
    ensures Sorted(k, [h] + rest)
  {
    var all := [h] + rest;
    forall i, j | 0 <= i < j < |all| ensures !k.Precedes(all[j], all[i]) {
      assert all[j] == rest[j - 1];
      assert i > 0 ==> all[i] == rest[i - 1];
    }
  }

  lemma {:induction false} InsertSorted(k: Scale, h: Hit, sorted: seq<Hit>)
    requires Sorted(k, sorted)
    ensures Sorted(k, Insert(k, h, sorted))
  {
    if sorted == [] {
    } else if k.Precedes(h, sorted[0]) {
      forall x | x in sorted ensures !k.Precedes(x, h) {
        PrecedesIsOrder(k, x, h, sorted[0]);
        PrecedesIsOrder(k, h, sorted[0], x);
        if x != sorted[0] {
          SortedTail(k, sorted);
          assert x in sorted[1..];
        }
      }
      SortedCons(k, h, sorted);
    } else {
      SortedTail(k, sorted);
      InsertSorted(k, h, sorted[1..]);
      InsertPermutes(k, h, sorted[1..]);
      var rest := Insert(k, h, sorted[1..]);
      forall x | x in rest ensures !k.Precedes(x, sorted[0]) {
        assert x in multiset(rest);
        assert x in multiset(sorted[1..]) || x == h;
      }
      SortedCons(k, sorted[0], rest);
    }
  }

  lemma {:induction false} SortSorts(k: Scale, hits: seq<Hit>)
    ensures Sorted(k, Sort(k, hits))
  {
    if hits != [] {
      SortSorts(k, hits[..|hits| - 1]);
      InsertSorted(k, hits[|hits| - 1], Sort(k, hits[..|hits| - 1]));
    }
  }

  /** No two hits have both title and id in common. */
  ghost predicate Distinct(hits: seq<Hit>) {
    forall a, b :: a in hits && b in hits && a.title == b.title && a.id == b.id ==> a == b
  }

  /** Hits can be put in order in one way only. */
  lemma {:induction false} SortedUnique(k: Scale, a: seq<Hit>, b: seq<Hit>)
    requires Sorted(k, a) && Sorted(k, b) && multiset(a) == multiset(b) && Distinct(a)
    ensures a == b
  {
    hide Sorted;
    assert |multiset(a)| == |a| && |multiset(b)| == |b|;
    if a != [] {
      SameHead(k, a, b);
      SortedTail(k, a);
      SortedTail(k, b);
      assert a == [a[0]] + a[1..] && b == [b[0]] + b[1..];
      assert multiset(a[1..]) == multiset(a) - multiset{a[0]};
      assert multiset(b[1..]) == multiset(b) - multiset{b[0]};
      DistinctTail(a);
      hide Distinct;
      SortedUnique(k, a[1..], b[1..]);
    }
  }

  lemma DistinctTail(a: seq<Hit>)
    requires Distinct(a) && a != []
    ensures Distinct(a[1..])
  {
    assert forall x :: x in a[1..] ==> x in a;
  }

  lemma SameHead(k: Scale, a: seq<Hit>, b: seq<Hit>)
    requires Sorted(k, a) && Sorted(k, b) && multiset(a) == multiset(b) && Distinct(a) && a != [] && b != []
    ensures a[0] == b[0]
  {
    hide Sorted;
    assert a[0] in multiset(b) && b[0] in multiset(a);
    SortedHead(k, a, b[0]);
    SortedHead(k, b, a[0]);
    PrecedesIsOrder(k, a[0], b[0], b[0]);
  }

  // ---------------------------------------------------------------- the blend

  function Lowest(usage: Usage, hits: seq<Hit>): real
    requires hits != []
  {
    var last := usage(hits[|hits| - 1].id);
    if |hits| == 1 then last
    else
      var before := Lowest(usage, hits[..|hits| - 1]);
      if last < before then last else before
  }

  function Highest(usage: Usage, hits: seq<Hit>): real
    requires hits != []
  {
    var last := usage(hits[|hits| - 1].id);
    if |hits| == 1 then last
    else
      var before := Highest(usage, hits[..|hits| - 1]);
      if last > before then last else before
  }

  /** They bound the usage of every hit, and some hits reach them. */
  lemma {:induction false} Extremes(usage: Usage, hits: seq<Hit>) returns (least: Hit, most: Hit)
    requires hits != []
    ensures forall h :: h in hits ==> Lowest(usage, hits) <= usage(h.id) <= Highest(usage, hits)
    ensures least in hits && usage(least.id) == Lowest(usage, hits)
    ensures most in hits && usage(most.id) == Highest(usage, hits)
  {
    var last := hits[|hits| - 1];
    least, most := last, last;
    if |hits| > 1 {
      var init := hits[..|hits| - 1];
      var l, m := Extremes(usage, init);
      assert forall h :: h in hits ==> h in init || h == last;
      if Lowest(usage, init) <= usage(last.id) {
        least := l;
      }
      if Highest(usage, init) >= usage(last.id) {
        most := m;
      }
    }
  }

  function ScaleOf(usage: Usage, hits: seq<Hit>): Scale
    requires hits != []
  {
    Scale(usage, Lowest(usage, hits), Highest(usage, hits))
  }

  function Blended(usage: Usage, hits: seq<Hit>): seq<Hit> {
    if |hits| < 2 then hits else Sort(ScaleOf(usage, hits), hits)
  }

  method BlendFrecency(usage: Usage, hits: seq<Hit>) returns (r: seq<Hit>)
    ensures r == Blended(usage, hits)
  {
    if |hits| < 2 {
      return hits;
    }
    var low, high := usage(hits[0].id), usage(hits[0].id);
    assert hits[..1] == [hits[0]];
    for i := 1 to |hits|
      invariant low == Lowest(usage, hits[..i]) && high == Highest(usage, hits[..i])
    {
      assert hits[..i + 1][..i] == hits[..i];
      var u := usage(hits[i].id);
      if u < low {
        low := u;
      }
      if u > high {
        high := u;
      }
    }
    assert hits[..|hits|] == hits;
    hide Lowest, Highest, Insert;
    var k := Scale(usage, low, high);
    r := [];
    for i := 0 to |hits|
      invariant r == Sort(k, hits[..i])
    {
      assert hits[..i + 1][..i] == hits[..i];
      r := Insert(k, hits[i], r);
    }
  }

  lemma QuotientBounds(x: real, range: real)
    requires range > 0.0 && 0.0 <= x <= range
    ensures 0.0 <= x / range <= 1.0
  {
    var q := x / range;
    assert q * range == x;
  }

  lemma QuotientMonotone(x: real, y: real, range: real)
    requires range > 0.0 && x < y
    ensures x / range < y / range
  {
    var p, q := x / range, y / range;
    assert p * range == x && q * range == y;
  }

  lemma KeyBounds(k: Scale, h: Hit)
    requires k.Covers(h)
    ensures h.score as real <= k.Key(h) <= h.score as real + FRECENCY_WEIGHT
  {
    if k.high - k.low > 0.0 {
      QuotientBounds(k.usage(h.id) - k.low, k.high - k.low);
    }
  }

  lemma BlendedIsSorted(usage: Usage, hits: seq<Hit>)
    requires |hits| >= 2
    ensures var k := ScaleOf(usage, hits);
      && Sorted(k, Blended(usage, hits))
      && multiset(Blended(usage, hits)) == multiset(hits)
      && (forall h :: h in Blended(usage, hits) ==> k.Covers(h))
  {
    var k, out := ScaleOf(usage, hits), Blended(usage, hits);
    SortSorts(k, hits);
    SortPermutes(k, hits);
    var least, most := Extremes(usage, hits);
    forall h | h in out ensures k.Covers(h) {
      assert h in multiset(out);
      assert h in hits;
    }
  }

  /** Nothing is lost, added or altered. */
  lemma BlendedPermutes(usage: Usage, hits: seq<Hit>)
    ensures multiset(Blended(usage, hits)) == multiset(hits)
  {
    if |hits| >= 2 {
      BlendedIsSorted(usage, hits);
    }
  }

  /**
   Whatever the usage values, a hit is never listed after one whose fuzzy score is more than 8 lower; and
   among hits of equal score the more used are listed first.
   */
  lemma ScoreDominates(usage: Usage, hits: seq<Hit>, i: nat, j: nat)
    requires i < j < |Blended(usage, hits)|
    ensures Blended(usage, hits)[j].score <= Blended(usage, hits)[i].score + 8
    ensures Blended(usage, hits)[j].score == Blended(usage, hits)[i].score ==>
      usage(Blended(usage, hits)[j].id) <= usage(Blended(usage, hits)[i].id)
  {
    BlendedIsSorted(usage, hits);
    KeysDecide(ScaleOf(usage, hits), Blended(usage, hits)[i], Blended(usage, hits)[j]);
  }

  /** Where `low` and `high` are the least and the greatest usage of the hits, a hit's share of what lies between. */
  ghost function Share(usage: Usage, low: real, high: real, h: Hit): real {
    if low == high then 0.0 else (usage(h.id) - low) / (high - low)
  }

  /**
   Which hit is listed first: the one with the greater sum of score and eight times its share of the range of usage;
   of two with the same sum the one with the lesser title, and of two with the same title the one with the lesser id.
   */
  lemma ListedExactly(usage: Usage, hits: seq<Hit>, low: real, high: real, i: nat, j: nat)
    requires |hits| >= 2 && i < j < |Blended(usage, hits)|
    requires (forall h <- hits :: low <= usage(h.id) <= high)
    requires (exists h <- hits :: usage(h.id) == low) && (exists h <- hits :: usage(h.id) == high)
    ensures var (a, b) := (Blended(usage, hits)[i], Blended(usage, hits)[j]);
      var (x, y) := (a.score as real + 8.0 * Share(usage, low, high, a),
          b.score as real + 8.0 * Share(usage, low, high, b));
      && x >= y
      && (x == y ==> a.title == b.title || LexLess(a.title, b.title))
      && (x == y && a.title == b.title ==> a.id == b.id || LexLess(a.id, b.id))
  {
    BlendedIsSorted(usage, hits);
    var least, most := Extremes(usage, hits);
    var k := ScaleOf(usage, hits);
    assert k.low == low && k.high == high;
    hide Blended, ScaleOf, Lowest, Highest;
    NotPreceded(k, Blended(usage, hits)[i], Blended(usage, hits)[j]);
  }

  lemma NotPreceded(k: Scale, a: Hit, b: Hit)
    requires !k.Precedes(b, a) && k.low <= k.high
    ensures var (x, y) := (a.score as real + 8.0 * Share(k.usage, k.low, k.high, a),
                           b.score as real + 8.0 * Share(k.usage, k.low, k.high, b));
      && x >= y
      && (x == y ==> a.title == b.title || LexLess(a.title, b.title))
      && (x == y && a.title == b.title ==> a.id == b.id || LexLess(a.id, b.id))
  {
    assert k.Norm(a) == Share(k.usage, k.low, k.high, a) && k.Norm(b) == Share(k.usage, k.low, k.high, b);
    hide Scale.Norm, Share, LexLess;
    LexTrichotomy(a.title, b.title);
    LexTrichotomy(a.id, b.id);
  }

  lemma KeysDecide(k: Scale, a: Hit, b: Hit)
    requires k.Covers(a) && k.Covers(b) && !k.Precedes(b, a)
    ensures b.score <= a.score + 8
    ensures b.score == a.score ==> k.usage(b.id) <= k.usage(a.id)
  {
    KeyBounds(k, a);
    KeyBounds(k, b);
    assert k.Key(b) <= k.Key(a);
    if a.score == b.score && k.usage(a.id) < k.usage(b.id) {
      QuotientMonotone(k.usage(a.id) - k.low, k.usage(b.id) - k.low, k.high - k.low);
    }
  }

  lemma SameScale(usage: Usage, a: seq<Hit>, b: seq<Hit>)
    requires a != [] && b != [] && multiset(a) == multiset(b)
    ensures ScaleOf(usage, a) == ScaleOf(usage, b)
  {
    forall h ensures h in a <==> h in b {
      assert h in multiset(a) <==> h in multiset(b);
    }
    var leastA, mostA := Extremes(usage, a);
    var leastB, mostB := Extremes(usage, b);
  }

  /** The order hits are found in makes no difference, as long as titles and ids tell them apart. */
  lemma InputOrderIrrelevant(usage: Usage, a: seq<Hit>, b: seq<Hit>)
    requires multiset(a) == multiset(b) && Distinct(a)
    ensures Blended(usage, a) == Blended(usage, b)
  {
    assert |a| == |multiset(a)| == |multiset(b)| == |b|;
    if |a| >= 2 {
      SameScale(usage, a, b);
      BlendedIsSorted(usage, a);
      BlendedIsSorted(usage, b);
      forall h | h in Blended(usage, a) ensures h in a {
        assert h in multiset(Blended(usage, a));
      }
      SortedUnique(ScaleOf(usage, a), Blended(usage, a), Blended(usage, b));
    } else if |a| == 1 {
      assert a[0] in multiset(b);
    }
  }
}
