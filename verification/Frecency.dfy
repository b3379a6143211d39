/** The usage store as it is kept inside the payload: fixed-width records by ascending id (frecency.rs). */
module Frecency {
  import opened Bytes
  import Search

  datatype Use = Use(id: Bytes, uses: u32, lastUsed: u64)

  const USE_LEN := 28

  /** The store as its B-tree yields it: by ascending id, no id twice. */
  ghost predicate Sorted(store: seq<Use>) {
    && (forall i :: 0 <= i < |store| ==> |store[i].id| == 16)
    && (forall i, j :: 0 <= i < j < |store| ==> Search.LexLess(store[i].id, store[j].id))
  }

  function UseBytes(u: Use): Bytes { u.id + LE(u.uses, 4) + LE(u.lastUsed, 8) }

  function StoreBytes(store: seq<Use>): Bytes {
    if store == [] then [] else UseBytes(store[0]) + StoreBytes(store[1..])
  }

  /** A new id takes its place in the order; a known one is overwritten. */
  function Insert(store: seq<Use>, u: Use): seq<Use> {
    if store == [] then [u]
    else if store[0].id == u.id then [u] + store[1..]
    else if Search.LexLess(u.id, store[0].id) then [u] + store
    else [store[0]] + Insert(store[1..], u)
  }

  function UseOf(b: Bytes): Use
    requires |b| == USE_LEN
  {
    FromLERoundTrip(b[16..20]);
    FromLERoundTrip(b[20..28]);
    Pow256Widths();
    Use(b[..16], FromLE(b[16..20]), FromLE(b[20..28]))
  }

  function Loaded(b: Bytes, store: seq<Use>): seq<Use>
    requires |b| % USE_LEN == 0
    decreases |b|
  {
    if b == [] then store else Loaded(b[USE_LEN..], Insert(store, UseOf(b[..USE_LEN])))
  }

  function ParsedStore(b: Bytes): (r: Result<seq<Use>>)
    ensures r.Err? ==> r.error == BodyMalformed
  {
    if |b| % USE_LEN != 0 then Err(BodyMalformed) else Ok(Loaded(b, []))
  }

  method SerializeStore(store: seq<Use>) returns (out: Bytes)
    ensures out == StoreBytes(store)
  {
    out := [];
    assert store[0..] == store && [] + StoreBytes(store) == StoreBytes(store);
    for i := 0 to |store|
      invariant out + StoreBytes(store[i..]) == StoreBytes(store)
    {
      assert store[i..][1..] == store[i + 1..];
      Assoc(out, UseBytes(store[i]), StoreBytes(store[i + 1..]));
      out := out + UseBytes(store[i]);
    }
    assert store[|store|..] == [] && out + [] == out;
  }

  method ParseStore(b: Bytes) returns (r: Result<seq<Use>>)
    ensures r == ParsedStore(b)
  {
    if |b| % USE_LEN != 0 {
      return Err(BodyMalformed);
    }
    var store, at := [], 0;
    assert b[0..] == b;
    while at < |b|
      invariant 0 <= at <= |b| && at % USE_LEN == 0
      invariant Loaded(b[at..], store) == Loaded(b, [])
    {
      assert b[at..][..USE_LEN] == b[at..at + USE_LEN] && b[at..][USE_LEN..] == b[at + USE_LEN..];
      store := Insert(store, UseOf(b[at..at + USE_LEN]));
      at := at + USE_LEN;
    }
    r := Ok(store);
  }

  // ---------------------------------------------------------------- round trip

  lemma UseRoundTrip(u: Use, rest: Bytes)
    requires |u.id| == 16
    ensures |UseBytes(u)| == USE_LEN
    ensures (UseBytes(u) + rest)[..USE_LEN] == UseBytes(u) && (UseBytes(u) + rest)[USE_LEN..] == rest
    ensures UseOf(UseBytes(u)) == u
  {
    var b := UseBytes(u);
    Pow256Widths();
    LERoundTrip(u.uses, 4);
    LERoundTrip(u.lastUsed, 8);
    assert b[..16] == u.id && b[16..20] == LE(u.uses, 4) && b[20..28] == LE(u.lastUsed, 8);
  }

  lemma {:induction false} InsertLast(store: seq<Use>, u: Use)
    requires Sorted(store + [u])
    ensures Insert(store, u) == store + [u]
  {
    if store != [] {
      var all := store + [u];
      assert all[0] == store[0] && all[|store|] == u;
      Search.LexTrichotomy(store[0].id, u.id);
      assert all[1..] == store[1..] + [u];
      InsertLast(store[1..], u);
    }
  }

  lemma SortedPrefix(store: seq<Use>, n: nat)
    requires Sorted(store) && n <= |store|
    ensures Sorted(store[..n])
  {
  }

  lemma LoadedStep(u: Use, more: Bytes, before: seq<Use>)
    requires |u.id| == 16 && |more| % USE_LEN == 0
    ensures |UseBytes(u) + more| % USE_LEN == 0
    ensures Loaded(UseBytes(u) + more, before) == Loaded(more, Insert(before, u))
  {
    hide UseBytes, UseOf, Insert;
    UseRoundTrip(u, more);
  }

  lemma {:induction false} LoadedStore(store: seq<Use>, before: seq<Use>)
    requires Sorted(before + store)
    ensures |StoreBytes(store)| % USE_LEN == 0 && Loaded(StoreBytes(store), before) == before + store
    decreases |store|
  {
    if store == [] {
      assert before + store == before;
    } else {
      var u, rest := store[0], store[1..];
      var all := before + store;
      assert all[|before|] == u && before + [u] + rest == all;
      SortedPrefix(all, |before| + 1);
      assert before + [u] == all[..|before| + 1];
      hide Sorted, Insert, Loaded, UseBytes;
      InsertLast(before, u);
      LoadedStore(rest, before + [u]);
      LoadedStep(u, StoreBytes(rest), before);
    }
  }

  lemma StoreRoundTrip(store: seq<Use>)
    requires Sorted(store)
    ensures ParsedStore(StoreBytes(store)) == Ok(store)
  {
    assert [] + store == store;
    LoadedStore(store, []);
  }

  lemma {:induction false} StoreLength(store: seq<Use>)
    requires Sorted(store)
    ensures |StoreBytes(store)| == USE_LEN * |store|
  {
    if store != [] {
      UseRoundTrip(store[0], []);
      StoreLength(store[1..]);
    }
  }

  /** Whatever is loaded ends up in order, with no id twice. */
  lemma {:induction false} InsertSorted(store: seq<Use>, u: Use)
    requires Sorted(store) && |u.id| == 16
    ensures Sorted(Insert(store, u))
    ensures forall x :: x in Insert(store, u) ==> x == u || x in store
    decreases |store|
  {
    if store != [] {
      var first, rest := store[0], store[1..];
      Search.LexTrichotomy(u.id, first.id);
      if first.id == u.id {
        assert forall j :: 0 < j < |store| ==> Search.LexLess(u.id, store[j].id);
      } else if Search.LexLess(u.id, first.id) {
        forall j | 0 <= j < |store| ensures Search.LexLess(u.id, store[j].id) {
          if j > 0 {
            Search.LexTransitive(u.id, first.id, store[j].id);
          }
        }
      } else {
        InsertSorted(rest, u);
        var more := Insert(rest, u);
        forall j | 0 <= j < |more| ensures Search.LexLess(first.id, more[j].id) {
          assert more[j] in more;
        }
      }
    }
  }

  lemma {:induction false} LoadedSorted(b: Bytes, store: seq<Use>)
    requires |b| % USE_LEN == 0 && Sorted(store)
    ensures Sorted(Loaded(b, store))
    decreases |b|
  {
    if b != [] {
      InsertSorted(store, UseOf(b[..USE_LEN]));
      LoadedSorted(b[USE_LEN..], Insert(store, UseOf(b[..USE_LEN])));
    }
  }

  lemma {:induction false} InsertExactly(store: seq<Use>, u: Use, x: Use)
    requires Sorted(store) && |u.id| == 16
    ensures x in Insert(store, u) <==> x == u || (x in store && x.id != u.id)
    decreases |store|
  {
    if store != [] {
      var first, rest := store[0], store[1..];
      assert store == [first] + rest;
      Search.LexTrichotomy(u.id, first.id);
      forall y <- rest ensures y.id != first.id && (Search.LexLess(u.id, first.id) ==> y.id != u.id) {
        var j :| 0 < j < |store| && store[j] == y;
        Search.LexTrichotomy(first.id, y.id);
        if Search.LexLess(u.id, first.id) {
          Search.LexTransitive(u.id, first.id, y.id);
          Search.LexTrichotomy(u.id, y.id);
        }
      }
      if first.id != u.id && !Search.LexLess(u.id, first.id) {
        InsertExactly(rest, u, x);
      }
    }
  }

  /** Record `i` of a store on disk. */
  function UseAt(b: Bytes, i: nat): Use
    requires (i + 1) * USE_LEN <= |b|
  {
    UseOf(b[i * USE_LEN..(i + 1) * USE_LEN])
  }

  /** The record is on disk, and none after it has its id. */
  ghost predicate LastOfId(b: Bytes, i: nat, u: Use)
    requires i < |b| / USE_LEN
  {
    UseAt(b, i) == u && forall j :: i < j < |b| / USE_LEN ==> UseAt(b, j).id != u.id
  }

  lemma UseLater(b: Bytes, i: nat)
    requires |b| >= USE_LEN && (i + 2) * USE_LEN <= |b|
    ensures (i + 1) * USE_LEN <= |b[USE_LEN..]| && UseAt(b[USE_LEN..], i) == UseAt(b, i + 1)
  {
    assert b[USE_LEN..][i * USE_LEN..(i + 1) * USE_LEN] == b[(i + 1) * USE_LEN..(i + 2) * USE_LEN];
  }

  lemma LastOfIdLater(b: Bytes, i: nat, u: Use)
    requires |b| % USE_LEN == 0 && i + 1 < |b| / USE_LEN
    ensures i < |b[USE_LEN..]| / USE_LEN && (LastOfId(b[USE_LEN..], i, u) <==> LastOfId(b, i + 1, u))
  {
    var n := |b| / USE_LEN;
    forall j | i <= j < n - 1 ensures UseAt(b[USE_LEN..], j) == UseAt(b, j + 1) {
      UseLater(b, j);
    }
    hide UseAt;
    assert forall j :: i + 1 < j < n ==> UseAt(b, j) == UseAt(b[USE_LEN..], j - 1);
    assert forall j :: i < j < n - 1 ==> UseAt(b[USE_LEN..], j) == UseAt(b, j + 1);
  }

  lemma FirstOfMore(b: Bytes)
    requires |b| % USE_LEN == 0 && b != []
    ensures |b| >= USE_LEN && UseAt(b, 0) == UseOf(b[..USE_LEN]) && |UseAt(b, 0).id| == 16
    ensures |b[USE_LEN..]| / USE_LEN == |b| / USE_LEN - 1
  {
    assert b[0..USE_LEN] == b[..USE_LEN];
  }

  ghost predicate Recorded(b: Bytes, u: Use) { exists i: nat :: i < |b| / USE_LEN && LastOfId(b, i, u) }

  ghost predicate NoneOfId(b: Bytes, id: Bytes) { forall i: nat :: i < |b| / USE_LEN ==> UseAt(b, i).id != id }

  /** The same of a store, in terms of its first record and the others. */
  lemma FirstAndLater(b: Bytes, u: Use)
    requires |b| % USE_LEN == 0 && b != []
    ensures |b| >= USE_LEN
    ensures NoneOfId(b, u.id) <==> UseAt(b, 0).id != u.id && NoneOfId(b[USE_LEN..], u.id)
    ensures Recorded(b, u) <==> Recorded(b[USE_LEN..], u) || (UseAt(b, 0) == u && NoneOfId(b[USE_LEN..], u.id))
  {
    FirstOfMore(b);
    var rest, n := b[USE_LEN..], |b| / USE_LEN;
    forall i: nat | i < n - 1
      ensures UseAt(rest, i) == UseAt(b, i + 1) && (LastOfId(rest, i, u) <==> LastOfId(b, i + 1, u))
    {
      UseLater(b, i);
      LastOfIdLater(b, i, u);
    }
    LaterAre(b, rest, n, u);
  }

  lemma LaterAre(b: Bytes, rest: Bytes, n: nat, u: Use)
    requires 0 < n == |b| / USE_LEN && |rest| / USE_LEN == n - 1
    requires forall i: nat :: i < n - 1 ==> UseAt(rest, i) == UseAt(b, i + 1)
    requires forall i: nat :: i < n - 1 ==> (LastOfId(rest, i, u) <==> LastOfId(b, i + 1, u))
    ensures NoneOfId(b, u.id) <==> UseAt(b, 0).id != u.id && NoneOfId(rest, u.id)
    ensures Recorded(b, u) <==> Recorded(rest, u) || (UseAt(b, 0) == u && NoneOfId(rest, u.id))
  {
    hide UseAt;
    forall i: nat | 0 < i < n
      ensures UseAt(b, i) == UseAt(rest, i - 1) && (LastOfId(b, i, u) <==> LastOfId(rest, i - 1, u))
    {
      assert UseAt(rest, i - 1) == UseAt(b, i - 1 + 1);
    }
    assert LastOfId(b, 0, u) <==> UseAt(b, 0) == u && NoneOfId(rest, u.id);
    hide LastOfId;
    if Recorded(rest, u) {
      var i: nat :| i < n - 1 && LastOfId(rest, i, u);
      assert LastOfId(b, i + 1, u);
    }
    if Recorded(b, u) {
      var i: nat :| i < n && LastOfId(b, i, u);
      assert i > 0 ==> LastOfId(rest, i - 1, u);
    }
  }

  /** Of the records on disk those are loaded after which none has the same id: the later one counts. */
  lemma {:induction false} LoadedExactly(b: Bytes, store: seq<Use>, u: Use)
    requires |b| % USE_LEN == 0 && Sorted(store)
    ensures u in Loaded(b, store) <==> Recorded(b, u) || (u in store && NoneOfId(b, u.id))
    decreases |b|
  {
    if b != [] {
      FirstOfMore(b);
      FirstAndLater(b, u);
      hide Recorded, NoneOfId, Sorted, UseAt, Insert;
      InsertSorted(store, UseAt(b, 0));
      InsertExactly(store, UseAt(b, 0), u);
      LoadedExactly(b[USE_LEN..], Insert(store, UseAt(b, 0)), u);
    }
  }
}
