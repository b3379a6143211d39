/** Merging new files into an opened container: a map from path to entry, read out in order (sealed.rs). */
module Merge {
  import opened Bytes
  import opened Archive
  import opened Primitives
  import Search

  /** Later entries replace earlier ones of the same path. */
  function Inserted(m: map<Bytes, Entry>, entries: seq<Entry>): map<Bytes, Entry>
    decreases |entries|
  {
    if entries == [] then m else Inserted(m[entries[0].meta.path := entries[0]], entries[1..])
  }

  /** The last entry of a path. */
  ghost function LastOf(entries: seq<Entry>, path: Bytes): Option<Entry> {
    if entries == [] then None
    else if entries[|entries| - 1].meta.path == path then Some(entries[|entries| - 1])
    else LastOf(entries[..|entries| - 1], path)
  }

  lemma {:induction false} InsertedAppend(m: map<Bytes, Entry>, entries: seq<Entry>, e: Entry)
    ensures Inserted(m, entries + [e]) == Inserted(m, entries)[e.meta.path := e]
    decreases |entries|
  {
    var all := entries + [e];
    if entries == [] {
      assert all[1..] == [];
    } else {
      assert all[1..] == entries[1..] + [e];
      InsertedAppend(m[entries[0].meta.path := entries[0]], entries[1..], e);
    }
  }

  lemma {:induction false} InsertedIsLast(m: map<Bytes, Entry>, entries: seq<Entry>, path: Bytes)
    ensures path in Inserted(m, entries) <==> path in m || LastOf(entries, path).Some?
    ensures path in Inserted(m, entries) ==>
      Inserted(m, entries)[path] == if LastOf(entries, path).Some? then LastOf(entries, path).value else m[path]
    decreases |entries|
  {
    if entries != [] {
      var init, e := entries[..|entries| - 1], entries[|entries| - 1];
      assert entries == init + [e];
      InsertedAppend(m, init, e);
      InsertedIsLast(m, init, path);
    }
  }

  method InsertAll(m: map<Bytes, Entry>, entries: seq<Entry>) returns (r: map<Bytes, Entry>)
    ensures r == Inserted(m, entries)
  {
    r := m;
    for i := 0 to |entries|
      invariant r == Inserted(m, entries[..i])
    {
      InsertedAppend(m, entries[..i], entries[i]);
      assert entries[..i + 1] == entries[..i] + [entries[i]];
      r := r[entries[i].meta.path := entries[i]];
    }
    assert entries[..|entries|] == entries;
  }

  // ---------------------------------------------------------------- reading out in order

  ghost predicate Ascending(entries: seq<Entry>) {
    forall i, j :: 0 <= i < j < |entries| ==> Search.LexLess(entries[i].meta.path, entries[j].meta.path)
  }

  ghost predicate KeyedByPath(m: map<Bytes, Entry>) {
    forall p :: p in m ==> m[p].meta.path == p
  }

  lemma {:induction false} InsertedKeyed(m: map<Bytes, Entry>, entries: seq<Entry>)
    requires KeyedByPath(m)
    ensures KeyedByPath(Inserted(m, entries))
    decreases |entries|
  {
    if entries != [] {
      InsertedKeyed(m[entries[0].meta.path := entries[0]], entries[1..]);
    }
  }

  method Least(keys: set<Bytes>) returns (least: Bytes)
    requires keys != {}
    ensures least in keys && forall k :: k in keys && k != least ==> Search.LexLess(least, k)
  {
    least :| least in keys;
    var rest := keys - {least};
    while rest != {}
      invariant rest < keys && least in keys - rest
      invariant forall k :: k in keys - rest && k != least ==> Search.LexLess(least, k)
      decreases |rest|
    {
      var k :| k in rest;
      Search.LexTrichotomy(least, k);
      forall j | j in keys - rest && j != least && Search.LexLess(k, least) ensures Search.LexLess(k, j) {
        Search.LexTransitive(k, least, j);
      }
      rest := rest - {k};
      if Search.LexLess(k, least) {
        least := k;
      }
    }
  }

  /** The map's entries, by ascending path. */
  method IntoValues(m: map<Bytes, Entry>) returns (out: seq<Entry>)
    requires KeyedByPath(m)
    ensures Ascending(out)
    ensures forall e :: e in out <==> e.meta.path in m && m[e.meta.path] == e
  {
    out := [];
    var rest := m.Keys;
    while rest != {}
      invariant rest <= m.Keys && Ascending(out)
      invariant forall e :: e in out <==> e.meta.path in m.Keys - rest && m[e.meta.path] == e
      invariant forall e, k :: e in out && k in rest ==> Search.LexLess(e.meta.path, k)
      decreases |rest|
    {
      var k := Least(rest);
      AscendingAppend(out, m[k]);
      ghost var before := out;
      out := out + [m[k]];
      assert forall e :: e in out <==> e in before || e == m[k];
      rest := rest - {k};
    }
  }

  lemma AscendingAppend(out: seq<Entry>, e: Entry)
    requires Ascending(out) && forall x :: x in out ==> Search.LexLess(x.meta.path, e.meta.path)
    ensures Ascending(out + [e])
  {
  }

  /**
   The merged archive holds, by ascending path, the last new entry of every path that has one, and the last
   old entry of every other path; nothing else.
   */
  ghost predicate Merged(old': seq<Entry>, new': seq<Entry>, out: seq<Entry>) {
    && Ascending(out)
    && forall e :: e in out <==>
         LastOf(new', e.meta.path) == Some(e)
             || (LastOf(new', e.meta.path).None? && LastOf(old', e.meta.path) == Some(e))
  }

  method MergeEntries(old': seq<Entry>, new': seq<Entry>) returns (out: seq<Entry>)
    ensures Merged(old', new', out)
  {
    var m := InsertAll(map[], old');
    InsertedKeyed(map[], old');
    InsertedKeyed(m, new');
    var merged := InsertAll(m, new');
    out := IntoValues(merged);
    forall e: Entry ensures e in out <==>
      LastOf(new', e.meta.path) == Some(e) || (LastOf(new', e.meta.path).None? && LastOf(old', e.meta.path) == Some(e))
    {
      InsertedIsLast(map[], old', e.meta.path);
      InsertedIsLast(m, new', e.meta.path);
    }
  }

  lemma NonemptyHas(x: seq<Entry>)
    ensures x == [] || exists e :: e in x
  {
    assert x != [] ==> x[0] in x;
  }

  lemma OthersOf(x: seq<Entry>)
    requires Ascending(x) && x != []
    ensures Ascending(x[1..]) && forall e :: e in x[1..] <==> e in x && e != x[0]
  {
    forall i | 0 < i < |x| ensures x[i] != x[0] {
      Search.LexTrichotomy(x[0].meta.path, x[i].meta.path);
    }
  }

  lemma {:induction false} AscendingUnique(x: seq<Entry>, y: seq<Entry>)
    requires Ascending(x) && Ascending(y) && forall e :: e in x <==> e in y
    ensures x == y
    decreases |x|
  {
    if x == [] {
      NonemptyHas(y);
    } else {
      assert x[0] in y && y[0] in x;
      Search.LexTrichotomy(x[0].meta.path, y[0].meta.path);
      assert x[0] == y[0];
      OthersOf(x);
      OthersOf(y);
      AscendingUnique(x[1..], y[1..]);
    }
  }

  lemma {:induction false} LastOfIsEntry(entries: seq<Entry>, path: Bytes)
    ensures LastOf(entries, path).Some? ==> LastOf(entries, path).value in entries
  {
    if entries != [] {
      LastOfIsEntry(entries[..|entries| - 1], path);
    }
  }

  /**
   There is only one merged archive of two lists. If both could be written, so can it, and what is written
   parses back to it, whatever padding follows.
   */
  lemma MergedReadsBack(s: Suite, old': seq<Entry>, new': seq<Entry>, out: seq<Entry>, rest: Bytes)
    requires Merged(old', new', out)
    ensures forall other :: Merged(old', new', other) ==> other == out
    ensures StorableEntries(s, old') && StorableEntries(s, new') ==>
      ArchiveBytes(out).Ok? && ParsedAll(s, ArchiveBytes(out).value + rest) == Ok(out)
  {
    forall other | Merged(old', new', other) ensures other == out {
      AscendingUnique(other, out);
    }
    if StorableEntries(s, old') && StorableEntries(s, new') {
      forall i | 0 <= i < |out| ensures Storable(s, out[i].meta) && |out[i].body| == out[i].meta.size {
        assert out[i] in out;
        LastOfIsEntry(old', out[i].meta.path);
        LastOfIsEntry(new', out[i].meta.path);
      }
      ParseWritten(s, out, rest);
    }
  }
}
