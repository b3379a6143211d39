/**
 Extracting an archive to a directory: files are written under a staging directory and moved to their places
 once the archive has been read to its end (extract_to_dir, write_staged_file and promote_staging in sealed.rs).
 */
module Staging {
  import opened Bytes
  import opened Archive

  /** A path below the destination, as its components. */
  type Path = seq<Bytes>

  datatype File = File(body: Bytes, mode: nat)

  /** What lies below the destination. */
  datatype Tree = Tree(files: map<Path, File>, dirs: set<Path>)

  /** `.vltf-partial` */
  const STAGING_DIR: Bytes := [46, 118, 108, 116, 102, 45, 112, 97, 114, 116, 105, 97, 108]
  /** `.vltf-part` */
  const PART: Bytes := [46, 118, 108, 116, 102, 45, 112, 97, 114, 116]

  // ---------------------------------------------------------------- paths

  function LastDot(name: Bytes): (i: int)
    ensures -1 <= i < |name|
  {
    if name == [] then -1
    else if name[|name| - 1] == DOT then |name| - 1
    else LastDot(name[..|name| - 1])
  }

  /** `with_extension("vltf-part")`: what follows the last dot is replaced, unless that dot begins the name. */
  function PartName(name: Bytes): Bytes {
    (if LastDot(name) <= 0 then name else name[..LastDot(name)]) + PART
  }

  function PartOf(p: Path): (r: Path)
    requires p != []
    ensures |r| == |p|
  {
    p[..|p| - 1] + [PartName(p[|p| - 1])]
  }

  /** The directories a path lies in, the destination itself apart. */
  function Above(p: Path): set<Path> {
    set i | 0 < i < |p| :: p[..i]
  }

  lemma AboveExactly(a: Path, p: Path)
    ensures a in Above(p) <==> a != [] && a < p
  {
    if a != [] && a < p {
      assert a == p[..|a|];
    }
  }

  /** The staging directory, or something in it. */
  predicate Hidden(p: Path) { p != [] && p[0] == STAGING_DIR }

  function InStaging(p: Path): Path { [STAGING_DIR] + p }

  // ---------------------------------------------------------------- the file system

  /** Some directory the path would lie in is a file. */
  predicate Blocked(t: Tree, p: Path) { exists a | a in t.files :: a in Above(p) }

  /** Create the directories above `to` and rename `from` to it; a file there is replaced, a directory is not. */
  function Moved(t: Tree, from: Path, to: Path): Result<Tree> {
    if Blocked(t, to) || to in t.dirs || from !in t.files then Err(Io)
    else Ok(Tree((t.files - {from})[to := t.files[from]], t.dirs + Above(to)))
  }

  /** Without the staging directory. */
  function Cleared(t: Tree): Tree {
    Tree(map p | p in t.files && !Hidden(p) :: t.files[p], set p | p in t.dirs && !Hidden(p))
  }

  // ---------------------------------------------------------------- the steps of an extraction

  function FileOf(e: Entry): File { File(e.body, e.meta.mode % 0x1000) }

  function PlaceOf(e: Entry): (r: Path)
    ensures r != []
  {
    Components(e.meta.path)
  }

  /** One file: written beside its place in the staging directory, then renamed to it. */
  function Staged(t: Tree, e: Entry): Result<Tree> {
    if !PathAllowed(e.meta.path) then Err(SealedOpenFailed)
    else
      var p := InStaging(PlaceOf(e));
      if Blocked(t, p) || PartOf(p) in t.dirs + Above(p) then Err(Io)
      else Moved(Tree(t.files[PartOf(p) := FileOf(e)], t.dirs + Above(p)), PartOf(p), p)
  }

  function StagedAll(t: Tree, entries: seq<Entry>): Result<Tree> {
    if entries == [] then Ok(t)
    else
      var before :- StagedAll(t, entries[..|entries| - 1]);
      Staged(before, entries[|entries| - 1])
  }

  /** The files in the staging directory, by the places they are to go to. */
  function Waiting(t: Tree): set<Path> {
    set p | p in t.files && Hidden(p) :: p[1..]
  }

  /** The directories above a path, unless a file is in their way. */
  function WithDirs(t: Tree, p: Path): Tree { if Blocked(t, p) then t else Tree(t.files, t.dirs + Above(p)) }

  /** Move these files from the staging directory to their places; where one cannot be, the others stay moved. */
  function Promoted(t: Tree, order: seq<Path>): (Tree, Result<Unit>)
    decreases |order|
  {
    if order == [] then (t, Ok(Unit))
    else
      match Moved(t, InStaging(order[0]), order[0])
      case Err(e) => (WithDirs(t, order[0]), Err(e))
      case Ok(next) => Promoted(next, order[1..])
  }

  /** Every file that waits, once each, in the order the directory is walked in. */
  ghost predicate Lists(order: seq<Path>, t: Tree) {
    && (forall i, j :: 0 <= i < j < |order| ==> order[i] != order[j])
    && (forall p :: p in order <==> p in Waiting(t))
  }

  /** An empty staging directory, in place of any that was left behind. */
  function Prepared(t: Tree): Tree {
    Tree(Cleared(t).files, Cleared(t).dirs + {[STAGING_DIR]})
  }

  /** The whole of it, for an archive that can be read to its end. */
  function Extraction(t: Tree, entries: seq<Entry>, order: seq<Path>): (Tree, Result<Unit>) {
    if [STAGING_DIR] in t.files then (t, Err(Io))
    else
      match StagedAll(Prepared(t), entries)
      case Err(e) => (Cleared(t), Err(e))
      case Ok(staged) =>
        var (promoted, r) := Promoted(staged, order);
        (Cleared(promoted), r)
  }

  // ---------------------------------------------------------------- which files are left in the staging directory

  /** The last file archived for this place. */
  function Latest(entries: seq<Entry>, p: Path): Option<File> {
    if entries == [] then None
    else if PlaceOf(entries[|entries| - 1]) == p then Some(FileOf(entries[|entries| - 1]))
    else Latest(entries[..|entries| - 1], p)
  }

  /** The same, unless its place was then used to write another file before renaming that. */
  function Kept(entries: seq<Entry>, p: Path): Option<File> {
    if entries == [] then None
    else
      var last := PlaceOf(entries[|entries| - 1]);
      if last == p then Some(FileOf(entries[|entries| - 1]))
      else if PartOf(last) == p then None
      else Kept(entries[..|entries| - 1], p)
  }

  /** The directories above the files in the staging directory. */
  function Made(entries: seq<Entry>): set<Path> {
    if entries == [] then {}
    else Made(entries[..|entries| - 1]) + Above(InStaging(PlaceOf(entries[|entries| - 1])))
  }

  ghost predicate Fresh(t: Tree) {
    && (forall p :: p in t.files ==> !Hidden(p))
    && (forall p :: p in t.dirs && Hidden(p) ==> p == [STAGING_DIR])
  }

  /** The tree `t`, with these files waiting in its staging directory. */
  ghost predicate Holds(t: Tree, entries: seq<Entry>, staged: Tree) {
    && (forall p :: InStaging(p) in staged.files <==> Kept(entries, p).Some?)
    && (forall p :: InStaging(p) in staged.files ==> Some(staged.files[InStaging(p)]) == Kept(entries, p))
    && (forall p :: !Hidden(p) ==> (p in staged.files <==> p in t.files))
    && (forall p :: !Hidden(p) && p in t.files ==> staged.files[p] == t.files[p])
    && staged.dirs == t.dirs + Made(entries)
  }

  lemma PartInStaging(p: Path)
    requires p != []
    ensures PartOf(InStaging(p)) == InStaging(PartOf(p))
  {
  }

  lemma InStagingInjective(p: Path, q: Path)
    ensures InStaging(p) == InStaging(q) ==> p == q
    ensures Hidden(InStaging(p))
  {
    assert InStaging(p)[1..] == p && InStaging(q)[1..] == q;
  }

  lemma StagedTree(before: Tree, e: Entry)
    requires Staged(before, e).Ok?
    ensures var (after, place) := (Staged(before, e).value, PlaceOf(e));
      && after.files == (before.files - {InStaging(PartOf(place))})[InStaging(place) := FileOf(e)]
      && after.dirs == before.dirs + Above(InStaging(place))
  {
    PartInStaging(PlaceOf(e));
  }

  lemma OneMoreKept(entries: seq<Entry>, e: Entry, p: Path)
    ensures Kept(entries + [e], p) ==
            (if p == PlaceOf(e) then Some(FileOf(e)) else if p == PartOf(PlaceOf(e)) then None else Kept(entries, p))
    ensures Made(entries + [e]) == Made(entries) + Above(InStaging(PlaceOf(e)))
  {
    var all := entries + [e];
    assert all[..|all| - 1] == entries && all[|all| - 1] == e;
    hide Above, PlaceOf, PartOf, FileOf;
  }

  lemma StagedHoldsAt(t: Tree, entries: seq<Entry>, before: Tree, e: Entry, p: Path)
    requires Holds(t, entries, before) && Staged(before, e).Ok?
    ensures var (all, after) := (entries + [e], Staged(before, e).value);
      && (InStaging(p) in after.files <==> Kept(all, p).Some?)
      && (InStaging(p) in after.files ==> Some(after.files[InStaging(p)]) == Kept(all, p))
  {
    var place := PlaceOf(e);
    StagedTree(before, e);
    OneMoreKept(entries, e, p);
    InStagingInjective(p, place);
    InStagingInjective(p, PartOf(place));
    assert InStaging(p) in before.files <==> Kept(entries, p).Some?;
    hide Staged, Above, Kept, PlaceOf, PartOf, FileOf, InStaging, Hidden;
  }

  lemma StagedOutside(before: Tree, e: Entry)
    requires Staged(before, e).Ok?
    ensures var after := Staged(before, e).value;
      && (forall p :: !Hidden(p) ==> (p in after.files <==> p in before.files))
      && (forall p :: !Hidden(p) && p in before.files ==> after.files[p] == before.files[p])
      && after.dirs == before.dirs + Above(InStaging(PlaceOf(e)))
  {
    StagedTree(before, e);
    assert Hidden(InStaging(PlaceOf(e))) && Hidden(InStaging(PartOf(PlaceOf(e))));
  }

  lemma StagedHolds(t: Tree, entries: seq<Entry>, before: Tree, e: Entry)
    requires Holds(t, entries, before) && Staged(before, e).Ok?
    ensures Holds(t, entries + [e], Staged(before, e).value)
  {
    StagedOutside(before, e);
    OneMoreKept(entries, e, []);
    hide Staged, Above, Kept, Made, PlaceOf, PartOf, FileOf, InStaging, Hidden;
    forall p: Path
      ensures InStaging(p) in Staged(before, e).value.files <==> Kept(entries + [e], p).Some?
      ensures InStaging(p) in Staged(before, e).value.files ==>
        Some(Staged(before, e).value.files[InStaging(p)]) == Kept(entries + [e], p)
    {
      StagedHoldsAt(t, entries, before, e, p);
    }
  }

  lemma {:induction false} StagedAllHolds(t: Tree, entries: seq<Entry>)
    requires Fresh(t) && StagedAll(t, entries).Ok?
    ensures Holds(t, entries, StagedAll(t, entries).value)
    decreases |entries|
  {
    if entries == [] {
      assert forall p :: Hidden(InStaging(p));
    } else {
      var init, e := entries[..|entries| - 1], entries[|entries| - 1];
      assert entries == init + [e];
      hide Staged, Holds;
      StagedAllHolds(t, init);
      StagedHolds(t, init, StagedAll(t, init).value, e);
    }
  }

  // ---------------------------------------------------------------- when staging succeeds and keeps every file

  /** Paths the archive may name, no file where another's directory is, and no file written where one is. */
  ghost predicate Consistent(entries: seq<Entry>) {
    && (forall e <- entries :: PathAllowed(e.meta.path))
    && (forall e <- entries, f <- entries :: !(PlaceOf(e) < PlaceOf(f)))
    && (forall i, j :: 0 <= i < j < |entries| ==> !(PartOf(PlaceOf(entries[j])) < PlaceOf(entries[i])))
  }

  /** No file is written, on its way, over another that is not archived again. */
  ghost predicate NoneOverwritten(entries: seq<Entry>) {
    forall i, j :: 0 <= i < j < |entries| && PartOf(PlaceOf(entries[j])) == PlaceOf(entries[i]) ==>
      exists m :: j <= m < |entries| && PlaceOf(entries[m]) == PlaceOf(entries[i])
  }

  lemma {:induction false} MadeExactly(entries: seq<Entry>, d: Path)
    ensures d in Made(entries) <==> exists e :: e in entries && d in Above(InStaging(PlaceOf(e)))
    decreases |entries|
  {
    if entries != [] {
      var init, last := entries[..|entries| - 1], entries[|entries| - 1];
      assert entries == init + [last];
      hide Above, PlaceOf;
      MadeExactly(init, d);
    }
  }

  lemma AboveInStaging(p: Path, q: Path)
    requires p != []
    ensures InStaging(p) in Above(InStaging(q)) <==> p < q
  {
    AboveExactly(InStaging(p), InStaging(q));
    assert InStaging(p)[1..] == p && InStaging(q)[1..] == q;
    if p < q {
      assert InStaging(q)[..|p| + 1] == InStaging(p);
    }
    if InStaging(p) < InStaging(q) {
      assert q[..|p|] == p;
    }
  }

  /** Whether the place, or the name it is written under, is a directory in the staging area. */
  lemma DirsInStaging(t: Tree, entries: seq<Entry>, p: Path)
    requires Fresh(t) && p != []
    ensures InStaging(p) in t.dirs + Made(entries) <==> exists e :: e in entries && p < PlaceOf(e)
  {
    MadeExactly(entries, InStaging(p));
    assert InStaging(p) != [STAGING_DIR] && Hidden(InStaging(p));
    if e :| e in entries && p < PlaceOf(e) {
      AboveInStaging(p, PlaceOf(e));
    }
    if e :| e in entries && InStaging(p) in Above(InStaging(PlaceOf(e))) {
      AboveInStaging(p, PlaceOf(e));
    }
  }

  lemma BlockedByKept(t: Tree, entries: seq<Entry>, staged: Tree, p: Path) returns (q: Path)
    requires Fresh(t) && Holds(t, entries, staged) && Blocked(staged, InStaging(p))
    ensures q != [] && q < p && Kept(entries, q).Some?
  {
    NothingAtRoot(entries);
    var a :| a in staged.files && a in Above(InStaging(p));
    AboveExactly(a, InStaging(p));
    q := a[1..];
    assert a[0] == STAGING_DIR;
    assert a == InStaging(q);
    assert InStaging(q) in staged.files;
    hide Above;
    AboveInStaging(q, p);
  }

  lemma KeptBlocks(t: Tree, entries: seq<Entry>, staged: Tree, p: Path, q: Path)
    requires Holds(t, entries, staged) && q != [] && q < p && Kept(entries, q).Some?
    ensures Blocked(staged, InStaging(p))
  {
    hide Above;
    AboveInStaging(q, p);
    assert InStaging(q) in staged.files && InStaging(q) in Above(InStaging(p));
  }

  /** A file lies where a directory would have to be, among those that wait. */
  lemma BlockedInStaging(t: Tree, entries: seq<Entry>, staged: Tree, p: Path)
    requires Fresh(t) && Holds(t, entries, staged)
    ensures Blocked(staged, InStaging(p)) <==> exists q :: q != [] && q < p && Kept(entries, q).Some?
  {
    hide Holds, Kept, Blocked;
    if Blocked(staged, InStaging(p)) {
      var q := BlockedByKept(t, entries, staged, p);
    }
    forall q | q != [] && q < p && Kept(entries, q).Some? ensures Blocked(staged, InStaging(p)) {
      KeptBlocks(t, entries, staged, p, q);
    }
  }

  lemma {:induction false} NothingAtRoot(entries: seq<Entry>)
    ensures Kept(entries, []) == Latest(entries, []) == None
    decreases |entries|
  {
    if entries != [] {
      NothingAtRoot(entries[..|entries| - 1]);
    }
  }

  /** When one more file can be staged. */
  lemma StagedExactly(t: Tree, entries: seq<Entry>, staged: Tree, e: Entry)
    requires Fresh(t) && Holds(t, entries, staged)
    ensures Staged(staged, e).Ok? <==>
      && PathAllowed(e.meta.path)
      && (forall q :: q != [] && q < PlaceOf(e) ==> Kept(entries, q).None?)
      && (forall f :: f in entries ==> !(PartOf(PlaceOf(e)) < PlaceOf(f)) && !(PlaceOf(e) < PlaceOf(f)))
  {
    var p := PlaceOf(e);
    PartInStaging(p);
    BlockedInStaging(t, entries, staged, p);
    DirsInStaging(t, entries, p);
    DirsInStaging(t, entries, PartOf(p));
    AboveInStaging(p, p);
    AboveInStaging(PartOf(p), p);
    assert InStaging(PartOf(p)) !in Above(InStaging(p)) && InStaging(p) !in Above(InStaging(p));
  }

  lemma {:induction false} KeptIsLatest(entries: seq<Entry>, p: Path)
    ensures Kept(entries, p).Some? ==> Kept(entries, p) == Latest(entries, p)
    ensures Latest(entries, p).Some? <==> exists e :: e in entries && PlaceOf(e) == p
    decreases |entries|
  {
    if entries != [] {
      var init, last := entries[..|entries| - 1], entries[|entries| - 1];
      assert entries == init + [last];
      KeptIsLatest(init, p);
    }
  }

  lemma ConsistentPrefix(entries: seq<Entry>, n: nat)
    requires Consistent(entries) && n <= |entries|
    ensures Consistent(entries[..n])
  {
  }

  lemma {:induction false} ConsistentStages(t: Tree, entries: seq<Entry>)
    requires Fresh(t) && Consistent(entries)
    ensures StagedAll(t, entries).Ok?
    decreases |entries|
  {
    if entries != [] {
      var n := |entries| - 1;
      var init, e := entries[..n], entries[n];
      ConsistentPrefix(entries, n);
      ConsistentStages(t, init);
      StagedAllHolds(t, init);
      hide Staged, Holds, StagedAll;
      forall q | q != [] && q < PlaceOf(e) ensures Kept(init, q).None? {
        KeptIsLatest(init, q);
      }
      StagedExactly(t, init, StagedAll(t, init).value, e);
      OneMore(t, entries);
    }
  }

  lemma OneMore(t: Tree, entries: seq<Entry>)
    requires entries != [] && StagedAll(t, entries[..|entries| - 1]).Ok?
    ensures StagedAll(t, entries) == Staged(StagedAll(t, entries[..|entries| - 1]).value, entries[|entries| - 1])
  {
  }

  ghost predicate AllKept(entries: seq<Entry>) {
    forall p :: Latest(entries, p).Some? ==> Kept(entries, p).Some?
  }

  /** The file archived as number `i` is for this place, and no later one is written over it. */
  ghost predicate Stays(entries: seq<Entry>, i: int, p: Path)
    requires 0 <= i < |entries|
  {
    PlaceOf(entries[i]) == p && forall j :: i < j < |entries| ==> PartOf(PlaceOf(entries[j])) != p
  }

  lemma StaysNext(entries: seq<Entry>, e: Entry, i: int, p: Path)
    requires 0 <= i < |entries|
    ensures Stays(entries + [e], i, p) <==> Stays(entries, i, p) && PartOf(PlaceOf(e)) != p
  {
    var all := entries + [e];
    assert all[|entries|] == e && forall j :: 0 <= j < |entries| ==> all[j] == entries[j];
  }

  lemma {:induction false} KeptExactly(entries: seq<Entry>, p: Path)
    ensures Kept(entries, p).Some? <==> exists i :: 0 <= i < |entries| && Stays(entries, i, p)
    decreases |entries|
  {
    if entries != [] {
      var n := |entries| - 1;
      var init, e := entries[..n], entries[n];
      assert entries == init + [e];
      KeptExactly(init, p);
      forall i | 0 <= i < n ensures Stays(entries, i, p) <==> Stays(init, i, p) && PartOf(PlaceOf(e)) != p {
        StaysNext(init, e, i, p);
      }
      if PlaceOf(e) == p {
        assert Stays(entries, n, p);
      }
      hide Stays;
    }
  }

  lemma {:induction false} LastFor(entries: seq<Entry>, p: Path) returns (i: int)
    requires exists e :: e in entries && PlaceOf(e) == p
    ensures 0 <= i < |entries| && PlaceOf(entries[i]) == p
    ensures forall j :: i < j < |entries| ==> PlaceOf(entries[j]) != p
    decreases |entries|
  {
    var n := |entries| - 1;
    if PlaceOf(entries[n]) == p {
      i := n;
    } else {
      assert entries == entries[..n] + [entries[n]];
      i := LastFor(entries[..n], p);
    }
  }

  /** Every file archived is left exactly if none is written over without being archived again. */
  lemma AllKeptExactly(entries: seq<Entry>)
    ensures AllKept(entries) <==> NoneOverwritten(entries)
  {
    hide Kept, Latest, PartOf, PlaceOf;
    if NoneOverwritten(entries) {
      forall p | Latest(entries, p).Some? ensures Kept(entries, p).Some? {
        KeptIsLatest(entries, p);
        var i := LastFor(entries, p);
        KeptExactly(entries, p);
        assert Stays(entries, i, p);
      }
    }
    if AllKept(entries) {
      forall i, j | 0 <= i < j < |entries| && PartOf(PlaceOf(entries[j])) == PlaceOf(entries[i])
        ensures exists m :: j <= m < |entries| && PlaceOf(entries[m]) == PlaceOf(entries[i])
      {
        var p := PlaceOf(entries[i]);
        KeptIsLatest(entries, p);
        KeptExactly(entries, p);
        var m :| 0 <= m < |entries| && Stays(entries, m, p);
        assert j <= m;
      }
    }
  }

  lemma {:induction false} StagedEach(t: Tree, entries: seq<Entry>, j: int)
    requires Fresh(t) && StagedAll(t, entries).Ok? && 0 <= j < |entries|
    ensures var p := PlaceOf(entries[j]);
      && PathAllowed(entries[j].meta.path)
      && (forall q :: q != [] && q < p ==> Kept(entries[..j], q).None?)
      && (forall f :: f in entries[..j] ==> !(PartOf(p) < PlaceOf(f)) && !(p < PlaceOf(f)))
    decreases |entries|
  {
    var n := |entries| - 1;
    OneMore(t, entries);
    hide Kept, PartOf, PlaceOf, StagedAll, Staged, Holds;
    if j == n {
      StagedAllHolds(t, entries[..n]);
      StagedExactly(t, entries[..n], StagedAll(t, entries[..n]).value, entries[n]);
    } else {
      assert entries[..n][..j] == entries[..j];
      StagedEach(t, entries[..n], j);
    }
  }

  lemma {:induction false} StaysGone(entries: seq<Entry>, j: nat, p: Path)
    requires j <= |entries| && Kept(entries[..j], p).None?
    requires forall m :: j <= m < |entries| ==> PlaceOf(entries[m]) != p
    ensures Kept(entries, p).None?
    decreases |entries|
  {
    if j == |entries| {
      assert entries[..j] == entries;
    } else {
      var n := |entries| - 1;
      assert entries[..n][..j] == entries[..j];
      StaysGone(entries[..n], j, p);
    }
  }

  /** A file whose place becomes a directory is lost. */
  lemma NoFileAbove(t: Tree, entries: seq<Entry>, i: int, j: int)
    requires Fresh(t) && StagedAll(t, entries).Ok? && AllKept(entries)
    requires 0 <= i < |entries| && 0 <= j < |entries|
    ensures !(PlaceOf(entries[i]) < PlaceOf(entries[j]))
  {
    var p, q := PlaceOf(entries[i]), PlaceOf(entries[j]);
    hide Kept, PartOf, PlaceOf, StagedAll, Latest;
    if p < q {
      StagedEach(t, entries, i);
      assert i < j;
      StagedEach(t, entries, j);
      forall m | j <= m < |entries| ensures PlaceOf(entries[m]) != p {
        StagedEach(t, entries, m);
        assert m > j ==> entries[j] in entries[..m];
      }
      StaysGone(entries, j, p);
      KeptIsLatest(entries, p);
    }
  }

  lemma StagesOnlyConsistent(t: Tree, entries: seq<Entry>)
    requires Fresh(t) && StagedAll(t, entries).Ok? && AllKept(entries)
    ensures Consistent(entries)
  {
    hide Kept, PartOf, PlaceOf, StagedAll, AllKept;
    forall e <- entries ensures PathAllowed(e.meta.path) {
      var i :| 0 <= i < |entries| && entries[i] == e;
      StagedEach(t, entries, i);
    }
    forall e <- entries, f <- entries ensures !(PlaceOf(e) < PlaceOf(f)) {
      var i :| 0 <= i < |entries| && entries[i] == e;
      var j :| 0 <= j < |entries| && entries[j] == f;
      NoFileAbove(t, entries, i, j);
    }
    forall i, j | 0 <= i < j < |entries| ensures !(PartOf(PlaceOf(entries[j])) < PlaceOf(entries[i])) {
      StagedEach(t, entries, j);
      assert entries[i] in entries[..j];
    }
  }

  /** Staging succeeds and leaves every file archived, the last one for each place, exactly in these cases. */
  lemma StagingExactly(t: Tree, entries: seq<Entry>)
    requires Fresh(t)
    ensures (StagedAll(t, entries).Ok? && AllKept(entries)) <==> (Consistent(entries) && NoneOverwritten(entries))
  {
    hide AllKept, Consistent, NoneOverwritten, StagedAll;
    AllKeptExactly(entries);
    if Consistent(entries) {
      ConsistentStages(t, entries);
    }
    if StagedAll(t, entries).Ok? && AllKept(entries) {
      StagesOnlyConsistent(t, entries);
    }
  }

  // ---------------------------------------------------------------- moving the files to their places

  /** There is no file where a directory must be, and no directory where the file must be. */
  ghost predicate Welcomes(t: Tree, p: Path) { !Blocked(t, p) && p !in t.dirs }

  /** How many files are moved before one cannot be. */
  ghost function Movable(t: Tree, order: seq<Path>): (n: nat)
    ensures n <= |order|
  {
    if order == [] || !Welcomes(t, order[0]) then 0 else 1 + Movable(t, order[1..])
  }

  lemma {:induction false} AllMovable(t: Tree, order: seq<Path>)
    ensures Movable(t, order) == |order| <==> forall p <- order :: Welcomes(t, p)
    decreases |order|
  {
    if order != [] {
      assert order == [order[0]] + order[1..];
      AllMovable(t, order[1..]);
    }
  }

  lemma {:induction false} MovableAlike(t: Tree, u: Tree, order: seq<Path>)
    requires forall p <- order :: Welcomes(t, p) <==> Welcomes(u, p)
    ensures Movable(t, order) == Movable(u, order)
    decreases |order|
  {
    if order != [] {
      MovableAlike(t, u, order[1..]);
    }
  }

  /** Different places outside the staging directory, none of them above another. */
  ghost predicate Apart(order: seq<Path>) {
    && (forall i, j :: 0 <= i < j < |order| ==> order[i] != order[j])
    && (forall p <- order :: p != [] && !Hidden(p))
    && (forall p <- order, q <- order :: !(p < q))
  }

  ghost predicate AllWaiting(t: Tree, order: seq<Path>) { forall p <- order :: InStaging(p) in t.files }

  lemma ApartRest(order: seq<Path>)
    requires Apart(order) && order != []
    ensures Apart(order[1..]) && order[0] != [] && !Hidden(order[0])
    ensures forall p <- order[1..] ::
      p != [] && !Hidden(p) && p != order[0] && !(order[0] < p) && !(p < order[0])
  {
    var first, rest := order[0], order[1..];
    assert order == [first] + rest && first in order;
    forall i, j | 0 <= i < j < |rest| ensures rest[i] != rest[j] {
      assert order[i + 1] != order[j + 1];
    }
    forall p <- rest ensures p != first && p in order {
      var i :| 0 < i < |order| && order[i] == p;
      assert order[0] != order[i];
    }
  }

  lemma MovedOne(t: Tree, order: seq<Path>)
    requires Apart(order) && AllWaiting(t, order) && order != [] && Moved(t, InStaging(order[0]), order[0]).Ok?
    ensures var next := Moved(t, InStaging(order[0]), order[0]).value;
      && AllWaiting(next, order[1..]) && Movable(next, order[1..]) == Movable(t, order[1..])
      && forall p <- order[1..] :: next.files[InStaging(p)] == t.files[InStaging(p)]
  {
    ApartRest(order);
    hide Apart, Moved, Blocked;
    assert order == [order[0]] + order[1..];
    forall p <- order[1..]
      ensures var next := Moved(t, InStaging(order[0]), order[0]).value;
        && (Blocked(next, p) <==> Blocked(t, p)) && (p in next.dirs <==> p in t.dirs)
        && InStaging(p) in next.files && next.files[InStaging(p)] == t.files[InStaging(p)]
    {
      assert p in order;
      StillWelcome(t, order[0], p);
    }
    MovableAlike(Moved(t, InStaging(order[0]), order[0]).value, t, order[1..]);
  }

  lemma StillWelcome(t: Tree, first: Path, p: Path)
    requires first != [] && !Hidden(first) && p != [] && !Hidden(p) && p != first && !(first < p) && !(p < first)
    requires Moved(t, InStaging(first), first).Ok?
    ensures var next := Moved(t, InStaging(first), first).value;
      && (Blocked(next, p) <==> Blocked(t, p)) && (p in next.dirs <==> p in t.dirs)
      && (InStaging(p) in t.files ==> InStaging(p) in next.files && next.files[InStaging(p)] == t.files[InStaging(p)])
  {
    var from := InStaging(first);
    InStagingInjective(p, first);
    AboveExactly(first, p);
    AboveExactly(p, first);
    AboveExactly(from, p);
    hide Above;
  }

  /** The tree `t`, with these files moved from its staging directory to their places. */
  ghost predicate Has(after: Tree, t: Tree, moved: seq<Path>) {
    && (forall p :: !Hidden(p) ==> (p in after.files <==> p in t.files || p in moved))
    && (forall p <- moved :: InStaging(p) in t.files)
    && (forall p :: !Hidden(p) && p in after.files ==>
          after.files[p] == if p in moved then t.files[InStaging(p)] else t.files[p])
  }

  lemma HasFirst(t: Tree, first: Path, others: seq<Path>, after: Tree)
    requires first != [] && !Hidden(first) && Moved(t, InStaging(first), first).Ok?
    requires Has(after, Moved(t, InStaging(first), first).value, others)
    requires forall p <- others :: p != first && !Hidden(p)
    ensures Has(after, t, [first] + others)
  {
    var next := Moved(t, InStaging(first), first).value;
    forall p: Path ensures p in [first] + others <==> p == first || p in others {
    }
    assert Hidden(InStaging(first));
    forall p <- others ensures InStaging(p) in t.files && next.files[InStaging(p)] == t.files[InStaging(p)] {
      InStagingInjective(p, first);
    }
  }

  lemma PromotedNext(t: Tree, order: seq<Path>)
    requires order != [] && Welcomes(t, order[0]) && InStaging(order[0]) in t.files
    ensures var moved := Moved(t, InStaging(order[0]), order[0]);
      && moved.Ok? && Promoted(t, order) == Promoted(moved.value, order[1..])
    ensures Movable(t, order) == 1 + Movable(t, order[1..])
    ensures order[..Movable(t, order)] == [order[0]] + order[1..][..Movable(t, order[1..])]
  {
    var n := Movable(t, order[1..]);
    assert Movable(t, order) == 1 + n;
    hide Movable, Above;
    assert order[..1 + n] == [order[0]] + order[1..][..n];
  }

  /** Those files are moved that come before the first that is not welcome; what else was there stays. */
  lemma {:induction false} PromotedExactly(t: Tree, order: seq<Path>)
    requires Apart(order) && AllWaiting(t, order)
    ensures Promoted(t, order).1.Ok? <==> Movable(t, order) == |order|
    ensures Has(Promoted(t, order).0, t, order[..Movable(t, order)])
    decreases |order|
  {
    if order != [] && Welcomes(t, order[0]) {
      assert order[0] in order;
      PromotedNext(t, order);
      ApartRest(order);
      hide Welcomes, Apart, Blocked, Above, Movable, Has, Promoted;
      MovedOne(t, order);
      var next := Moved(t, InStaging(order[0]), order[0]).value;
      hide Moved, AllWaiting;
      PromotedExactly(next, order[1..]);
      HasFirst(t, order[0], order[1..][..Movable(t, order[1..])], Promoted(next, order[1..]).0);
    }
  }

  lemma {:induction false} PromotedAdds(t: Tree, order: seq<Path>)
    ensures forall p :: p in Promoted(t, order).0.files ==> p in t.files || p in order
    decreases |order|
  {
    if order != [] && Moved(t, InStaging(order[0]), order[0]).Ok? {
      assert order == [order[0]] + order[1..];
      PromotedAdds(Moved(t, InStaging(order[0]), order[0]).value, order[1..]);
      hide Promoted;
    }
  }

  // ---------------------------------------------------------------- whole extractions

  ghost predicate NoneHidden(entries: seq<Entry>) { forall e <- entries :: !Hidden(PlaceOf(e)) }

  ghost predicate WelcomesAll(t: Tree, entries: seq<Entry>) { forall e <- entries :: Welcomes(t, PlaceOf(e)) }

  /** The order is one in which the staged files may be found; where staging fails there is none to speak of. */
  ghost predicate Walk(t: Tree, entries: seq<Entry>, order: seq<Path>) {
    StagedAll(Prepared(t), entries).Ok? ==> Lists(order, StagedAll(Prepared(t), entries).value)
  }

  lemma PreparedFresh(t: Tree)
    ensures Fresh(Prepared(t))
    ensures forall p :: !Hidden(p) ==>
      && (p in Prepared(t).files <==> p in t.files) && (p in t.files ==> Prepared(t).files[p] == t.files[p])
      && (p in Prepared(t).dirs <==> p in t.dirs)
  {
  }

  /** What is moved is what was kept. */
  lemma ListsKept(t: Tree, entries: seq<Entry>, staged: Tree, order: seq<Path>)
    requires Fresh(t) && Holds(t, entries, staged) && Lists(order, staged)
    ensures forall p :: p in order <==> Kept(entries, p).Some?
    ensures AllWaiting(staged, order)
  {
    forall p ensures p in Waiting(staged) <==> InStaging(p) in staged.files {
      if q :| q in staged.files && Hidden(q) && q[1..] == p {
        assert q == InStaging(p);
      }
      if InStaging(p) in staged.files {
        assert Hidden(InStaging(p)) && InStaging(p)[1..] == p;
      }
    }
  }

  /** Two files that were kept do not lie one above the other. */
  lemma KeptNotAbove(t: Tree, entries: seq<Entry>, p: Path, q: Path)
    requires Fresh(t) && StagedAll(t, entries).Ok? && Kept(entries, p).Some? && Kept(entries, q).Some?
    ensures !(p < q)
  {
    KeptIsLatest(entries, p);
    KeptIsLatest(entries, q);
    hide PlaceOf, Kept, Latest, StagedAll;
    var i := LastFor(entries, p);
    var j := LastFor(entries, q);
    if p < q {
      StagedEach(t, entries, i);
      StagedEach(t, entries, j);
      assert i != j;
      if i < j {
        StaysGone(entries, j, p);
      }
    }
  }

  lemma KeptApart(t: Tree, entries: seq<Entry>, order: seq<Path>)
    requires Fresh(t) && StagedAll(t, entries).Ok? && NoneHidden(entries)
    requires Lists(order, StagedAll(t, entries).value)
    requires forall p :: p in order <==> Kept(entries, p).Some?
    ensures Apart(order)
  {
    ListsApart(order, StagedAll(t, entries).value);
    hide PlaceOf, Kept, Latest, StagedAll, Lists;
    forall p <- order ensures p != [] && !Hidden(p) {
      KeptIsLatest(entries, p);
    }
    forall p <- order, q <- order ensures !(p < q) {
      KeptNotAbove(t, entries, p, q);
    }
  }

  lemma ListsApart(order: seq<Path>, t: Tree)
    requires Lists(order, t)
    ensures forall i, j :: 0 <= i < j < |order| ==> order[i] != order[j]
  {
  }

  /** Staged directories lie in the staging directory; so moving depends on the destination alone. */
  lemma WelcomeAlike(t: Tree, entries: seq<Entry>, staged: Tree, p: Path)
    requires Holds(Prepared(t), entries, staged) && p != [] && !Hidden(p)
    ensures Welcomes(staged, p) <==> Welcomes(t, p)
  {
    PreparedFresh(t);
    forall a: Path | a in Above(p) ensures !Hidden(a) && (a in staged.files <==> a in t.files) {
      AboveExactly(a, p);
    }
    MadeExactly(entries, p);
    if e :| e in entries && p in Above(InStaging(PlaceOf(e))) {
      AboveExactly(p, InStaging(PlaceOf(e)));
    }
  }

  /** The directory `t` without any staging directory, and the kept files of these places put over it. */
  ghost predicate Overlays(after: Tree, t: Tree, entries: seq<Entry>, moved: seq<Path>) {
    && (forall p :: p in after.files <==> !Hidden(p) && (p in t.files || p in moved))
    && forall p :: p in after.files ==>
         Some(after.files[p]) == if p in moved then Kept(entries, p) else Some(t.files[p])
  }

  lemma ClearedOverlays(t: Tree, entries: seq<Entry>, staged: Tree, promoted: Tree, moved: seq<Path>)
    requires Holds(Prepared(t), entries, staged) && Has(promoted, staged, moved)
    ensures Overlays(Cleared(promoted), t, entries, moved)
  {
    PreparedFresh(t);
    hide Kept, Prepared;
  }

  /**
   What comes of an extraction, in whatever order the staging directory is walked. If staging fails, the directory
   is as it was, and any staging directory gone. Otherwise the files that were kept go to their places, up to the
   first whose place does not welcome it; all that was there stays, and it succeeds exactly if there is none.
   */
  lemma ExtractionExactly(t: Tree, entries: seq<Entry>, order: seq<Path>)
    requires [STAGING_DIR] !in t.files && NoneHidden(entries) && Walk(t, entries, order)
    ensures var ((after, r), staged) := (Extraction(t, entries, order), StagedAll(Prepared(t), entries));
      && (staged.Err? ==> after == Cleared(t) && r.Err?)
      && (staged.Ok? ==> forall p :: p in order <==> Kept(entries, p).Some?)
      && (staged.Ok? ==> (r.Ok? <==> Movable(t, order) == |order|))
      && (staged.Ok? ==> Overlays(after, t, entries, order[..Movable(t, order)]))
  {
    var start := Prepared(t);
    PreparedFresh(t);
    var result := StagedAll(start, entries);
    if result.Ok? {
      var staged := result.value;
      StagedAllHolds(start, entries);
      ListsKept(start, entries, staged, order);
      KeptApart(start, entries, order);
      forall p <- order ensures Welcomes(staged, p) <==> Welcomes(t, p) {
        WelcomeAlike(t, entries, staged, p);
      }
      MovableAlike(t, staged, order);
      PromotedExactly(staged, order);
      ClearedOverlays(t, entries, staged, Promoted(staged, order).0, order[..Movable(t, order)]);
      hide Kept, PlaceOf, StagedAll, Promoted, Lists, Walk, Blocked, Prepared, Movable, Above, Overlays, Cleared, Has,
        Holds;
    }
  }

  ghost predicate AllThere(t: Tree, entries: seq<Entry>) {
    forall p :: Latest(entries, p).Some? ==> p in t.files && Some(t.files[p]) == Latest(entries, p)
  }

  /** What a caller can check of the archive and the directory beforehand. */
  ghost predicate Extractable(t: Tree, entries: seq<Entry>) {
    && [STAGING_DIR] !in t.files && NoneHidden(entries) && Consistent(entries) && NoneOverwritten(entries)
    && WelcomesAll(t, entries)
  }

  lemma KeptMovable(t: Tree, entries: seq<Entry>, order: seq<Path>)
    requires WelcomesAll(t, entries) && AllKept(entries) && forall p :: p in order <==> Kept(entries, p).Some?
    ensures Movable(t, order) == |order|
    ensures forall p :: Kept(entries, p) == Latest(entries, p)
  {
    hide Kept, Latest, PlaceOf, Welcomes, Movable;
    forall p ensures Kept(entries, p) == Latest(entries, p) {
      KeptIsLatest(entries, p);
    }
    forall p <- order ensures Welcomes(t, p) {
      KeptIsLatest(entries, p);
    }
    AllMovable(t, order);
  }

  /** The directory `t` without any staging directory, and over it the last file archived for each place. */
  ghost predicate OverlaysAll(after: Tree, t: Tree, entries: seq<Entry>) {
    && AllThere(after, entries)
    && (forall p :: p in after.files <==> !Hidden(p) && (p in t.files || Latest(entries, p).Some?))
    && forall p :: p in after.files && Latest(entries, p).None? ==> after.files[p] == t.files[p]
  }

  lemma KeptOverlays(after: Tree, t: Tree, entries: seq<Entry>, order: seq<Path>)
    requires Overlays(after, t, entries, order) && NoneHidden(entries)
    requires forall p :: p in order <==> Kept(entries, p).Some?
    requires forall p :: Kept(entries, p) == Latest(entries, p)
    ensures OverlaysAll(after, t, entries)
  {
    hide Kept, Latest, PlaceOf;
    forall p | Latest(entries, p).Some? ensures !Hidden(p) {
      KeptIsLatest(entries, p);
    }
  }

  /** An archive and a directory that are `Extractable`: the directory gains exactly the archive's files. */
  lemma ExtractableSuffices(t: Tree, entries: seq<Entry>, order: seq<Path>)
    requires Extractable(t, entries) && Walk(t, entries, order)
    ensures Extraction(t, entries, order).1.Ok? && OverlaysAll(Extraction(t, entries, order).0, t, entries)
  {
    hide Kept, Latest, PlaceOf, StagedAll, Promoted, Lists, Walk, Blocked, Prepared, Movable, Above, Extraction,
      Consistent, NoneOverwritten, NoneHidden, WelcomesAll, Cleared, AllKept, Overlays, OverlaysAll, Fresh;
    PreparedFresh(t);
    StagingExactly(Prepared(t), entries);
    ExtractionExactly(t, entries, order);
    KeptMovable(t, entries, order);
    assert order[..|order|] == order;
    KeptOverlays(Extraction(t, entries, order).0, t, entries, order);
  }

  /**
   Where none of the files exist yet, an extraction succeeds and leaves every archived file in its place, in
   whatever order the staging directory is walked, if and only if the archive and the directory are `Extractable`.
   */
  lemma ExtractsExactly(t: Tree, entries: seq<Entry>, order: seq<Path>)
    requires Walk(t, entries, order)
    requires forall e <- entries :: PlaceOf(e) !in t.files
    ensures Extraction(t, entries, order).1.Ok? && AllThere(Extraction(t, entries, order).0, entries)
      <==> Extractable(t, entries)
  {
    if Extractable(t, entries) {
      ExtractableSuffices(t, entries, order);
    } else if Extraction(t, entries, order).1.Ok? && AllThere(Extraction(t, entries, order).0, entries) {
      var start := Prepared(t);
      PreparedFresh(t);
      var staged := StagedAll(start, entries).value;
      StagedAllHolds(start, entries);
      ListsKept(start, entries, staged, order);
      PromotedAdds(staged, order);
      hide Kept, Latest, PlaceOf, StagedAll, Promoted, Lists, Walk, Blocked, Movable, Above;
      forall p | Latest(entries, p).Some? ensures !Hidden(p) && Kept(entries, p).Some? {
        KeptIsLatest(entries, p);
      }
      StagingExactly(start, entries);
      forall e <- entries ensures !Hidden(PlaceOf(e)) && PlaceOf(e) in order {
        KeptIsLatest(entries, PlaceOf(e));
      }
      ExtractionExactly(t, entries, order);
      AllMovable(t, order);
    }
  }

  // ---------------------------------------------------------------- nothing is written elsewhere

  lemma {:induction false} StagedAllAllowed(t: Tree, entries: seq<Entry>, e: Entry)
    requires StagedAll(t, entries).Ok? && e in entries
    ensures PathAllowed(e.meta.path)
    decreases |entries|
  {
    var n := |entries| - 1;
    OneMore(t, entries);
    if e != entries[n] {
      assert entries == entries[..n] + [entries[n]];
      StagedAllAllowed(t, entries[..n], e);
    }
  }

  /**
   Whatever the archive names its files, an extraction to the directory `dest` that puts a file in place puts it
   where its name leads from `dest`, which is below `dest`.
   */
  lemma ExtractsBelow(t: Tree, entries: seq<Entry>, order: seq<Path>, dest: seq<Bytes>, p: Path)
    requires Walk(t, entries, order) && p in Extraction(t, entries, order).0.files && p !in t.files
    ensures exists e :: e in entries && Resolved(dest, e.meta.path) == dest + p
    ensures p != []
  {
    var start := Prepared(t);
    PreparedFresh(t);
    var staged := StagedAll(start, entries);
    if staged.Ok? {
      StagedAllHolds(start, entries);
      ListsKept(start, entries, staged.value, order);
      PromotedAdds(staged.value, order);
      var e := KeptSource(entries, p);
      hide Kept, Latest, PlaceOf, StagedAll, Promoted, Resolved;
      StagedAllAllowed(start, entries, e);
      PlaceLeads(dest, e);
    }
  }

  /** What is in a file put in place: the body of one archived for it, and the low twelve bits of its mode. */
  lemma ExtractedContents(t: Tree, entries: seq<Entry>, order: seq<Path>, p: Path) returns (e: Entry)
    requires [STAGING_DIR] !in t.files && NoneHidden(entries) && Walk(t, entries, order)
    requires p in Extraction(t, entries, order).0.files && p !in t.files
    ensures e in entries && PlaceOf(e) == p
    ensures Extraction(t, entries, order).0.files[p] == File(e.body, e.meta.mode % 4096)
  {
    ExtractionExactly(t, entries, order);
    hide Kept, PlaceOf, StagedAll, Prepared, Extraction, Movable, Walk, NoneHidden;
    e := KeptSource(entries, p);
  }

  lemma {:induction false} KeptSource(entries: seq<Entry>, p: Path) returns (e: Entry)
    requires Kept(entries, p).Some?
    ensures e in entries && PlaceOf(e) == p && Kept(entries, p) == Some(File(e.body, e.meta.mode % 4096))
    decreases |entries|
  {
    var n := |entries| - 1;
    assert entries == entries[..n] + [entries[n]];
    if PlaceOf(entries[n]) == p {
      e := entries[n];
    } else {
      e := KeptSource(entries[..n], p);
    }
  }

  lemma PlaceLeads(dest: seq<Bytes>, e: Entry)
    requires PathAllowed(e.meta.path)
    ensures Resolved(dest, e.meta.path) == dest + PlaceOf(e)
  {
    AllowedLeadsBelow(dest, e.meta.path);
  }

  // ---------------------------------------------------------------- names that are safe, and names that are not

  ghost predicate EndsInPart(p: Path) {
    p != [] && |p[|p| - 1]| >= |PART| && p[|p| - 1][|p[|p| - 1]| - |PART|..] == PART
  }

  lemma PartEndsInPart(p: Path)
    requires p != []
    ensures EndsInPart(PartOf(p))
  {
    var name := p[|p| - 1];
    var stem := if LastDot(name) <= 0 then name else name[..LastDot(name)];
    assert (stem + PART)[|stem|..] == PART;
  }

  /** An archive in which no file's name ends in `.vltf-part` loses none. */
  lemma OtherNamesSafe(entries: seq<Entry>)
    requires forall e <- entries :: !EndsInPart(PlaceOf(e))
    ensures NoneOverwritten(entries)
  {
    hide PlaceOf, EndsInPart, PartOf;
    forall i, j | 0 <= i < j < |entries| ensures PartOf(PlaceOf(entries[j])) != PlaceOf(entries[i]) {
      PartEndsInPart(PlaceOf(entries[j]));
    }
  }

  predicate PlainName(name: Bytes) { SLASH !in name && BACKSLASH !in name }

  lemma {:induction false} NameIsPath(name: Bytes)
    requires PlainName(name)
    ensures Components(name) == [name]
    ensures name != [] && name != [DOT] && name != [DOT, DOT] ==> PathAllowed(name)
  {
    if name != [] {
      NameIsPath(name[1..]);
      assert [name[0]] + name[1..] == name;
      assert Components(name) == [name];
    }
  }

  lemma {:induction false} LastDotBefore(stem: Bytes, ext: Bytes)
    requires DOT !in ext
    ensures LastDot(stem + [DOT] + ext) == |stem|
  {
    var name := stem + [DOT] + ext;
    if ext != [] {
      LastDotBefore(stem, ext[..|ext| - 1]);
      assert name[..|name| - 1] == stem + [DOT] + ext[..|ext| - 1];
    }
  }

  /** A file of the archive: the name, and a body of any length that can be archived. */
  function Named(name: Bytes, body: Bytes): Entry
    requires |body| <= U64_MAX
  {
    Entry(FileMeta(name, 0x1A4, 0, |body|), body)
  }

  lemma TwoNames(a: Entry, b: Entry)
    requires PathAllowed(a.meta.path) && PathAllowed(b.meta.path)
    requires |PlaceOf(a)| == |PlaceOf(b)| == 1 && PartOf(PlaceOf(b)) == PlaceOf(a) != PlaceOf(b)
    ensures Consistent([a, b])
    ensures forall p :: Kept([a, b], p) == if p == PlaceOf(b) then Some(FileOf(b)) else None
  {
    var both := [a, b];
    assert both[..1] == [a] && [a][..0] == [];
    hide PlaceOf, PathAllowed, FileOf, PartOf;
    forall p ensures Kept([a], p) == if p == PlaceOf(a) then Some(FileOf(a))
                                     else if p == PartOf(PlaceOf(a)) then None else None {
    }
  }

  lemma WelcomeToEmpty(order: seq<Path>)
    ensures Movable(Tree(map[], {}), order) == |order|
  {
    AllMovable(Tree(map[], {}), order);
  }

  /**
   `x.vltf-part` and then `x.zip`, or any other two names of the kind: extracting to an empty directory reports
   success, and leaves the second file alone there.
   */
  lemma FileLost(stem: Bytes, ext: Bytes, first: Bytes, second: Bytes, order: seq<Path>)
    requires stem != [] && PlainName(stem) && PlainName(ext) && DOT !in ext && [DOT] + ext != PART
    requires |first| <= U64_MAX && |second| <= U64_MAX && stem + [DOT] + ext != [DOT, DOT]
    requires Walk(Tree(map[], {}), [Named(stem + PART, first), Named(stem + [DOT] + ext, second)], order)
    ensures var both := [Named(stem + PART, first), Named(stem + [DOT] + ext, second)];
      var (after, r) := Extraction(Tree(map[], {}), both, order);
      r.Ok? && after.files == map[[stem + [DOT] + ext] := File(second, 0x1A4)]
  {
    LostNames(stem, ext);
    PlainLost(stem + PART, stem + [DOT] + ext, first, second, order);
  }

  lemma PlainLost(part: Bytes, name: Bytes, first: Bytes, second: Bytes, order: seq<Path>)
    requires PlainName(part) && PlainName(name) && PartName(name) == part != name
    requires |first| <= U64_MAX && |second| <= U64_MAX && |part| > 2 && name != [] && name != [DOT]
      && name != [DOT, DOT]
    requires part != STAGING_DIR && name != STAGING_DIR
    requires Walk(Tree(map[], {}), [Named(part, first), Named(name, second)], order)
    ensures var (after, r) := Extraction(Tree(map[], {}), [Named(part, first), Named(name, second)], order);
      r.Ok? && after.files == map[[name] := File(second, 0x1A4)]
  {
    var a, b := Named(part, first), Named(name, second);
    NamedPlace(part, first);
    NamedPlace(name, second);
    hide PathAllowed, Walk, Extraction, PlaceOf, FileOf, Named;
    assert PartOf(PlaceOf(b)) == [part];
    hide PartName;
    OnlySecondLeft(a, b, order);
  }

  lemma NamedPlace(name: Bytes, body: Bytes)
    requires PlainName(name) && |body| <= U64_MAX && name != [] && name != [DOT] && name != [DOT, DOT]
    ensures PathAllowed(Named(name, body).meta.path) && PlaceOf(Named(name, body)) == [name]
    ensures FileOf(Named(name, body)) == File(body, 0x1A4)
  {
    NameIsPath(name);
  }

  lemma LostNames(stem: Bytes, ext: Bytes)
    requires stem != [] && PlainName(stem) && PlainName(ext) && DOT !in ext && [DOT] + ext != PART
    requires stem + [DOT] + ext != [DOT, DOT]
    ensures var part, name := stem + PART, stem + [DOT] + ext;
      && PlainName(part) && PlainName(name) && PartName(name) == part != name
      && STAGING_DIR != part && STAGING_DIR != name && |part| > 2 && name != [DOT]
  {
    var part, name := stem + PART, stem + [DOT] + ext;
    LastDotBefore(stem, ext);
    assert name[..|stem|] == stem;
    assert part[|stem|..] == PART && name[|stem|..] == [DOT] + ext;
    hide LastDot;
    NotStagingDir(part, name);
  }

  lemma NotStagingDir(part: Bytes, name: Bytes)
    requires part != [] && part[|part| - 1] == PART[|PART| - 1]
    ensures part != STAGING_DIR
    ensures LastDot(name) > 0 ==> name != STAGING_DIR
  {
    LastDotBefore([], STAGING_DIR[1..]);
    assert [] + [DOT] + STAGING_DIR[1..] == STAGING_DIR;
  }

  lemma OnlySecondLeft(a: Entry, b: Entry, order: seq<Path>)
    requires PathAllowed(a.meta.path) && PathAllowed(b.meta.path)
    requires |PlaceOf(a)| == |PlaceOf(b)| == 1 && PartOf(PlaceOf(b)) == PlaceOf(a) != PlaceOf(b)
    requires !Hidden(PlaceOf(a)) && !Hidden(PlaceOf(b)) && Walk(Tree(map[], {}), [a, b], order)
    ensures var (after, r) := Extraction(Tree(map[], {}), [a, b], order);
      r.Ok? && after.files == map[PlaceOf(b) := FileOf(b)]
  {
    var empty := Tree(map[], {});
    hide PlaceOf, PathAllowed, FileOf, PartOf, Hidden, Consistent, Kept, StagedAll, Extraction, Walk;
    TwoNames(a, b);
    PreparedFresh(empty);
    ConsistentStages(Prepared(empty), [a, b]);
    ExtractionExactly(empty, [a, b], order);
    WelcomeToEmpty(order);
    assert order[..|order|] == order;
    var after := Extraction(empty, [a, b], order).0;
    assert Overlays(after, empty, [a, b], order);
    assert after.files.Keys == {PlaceOf(b)};
    assert Some(after.files[PlaceOf(b)]) == Kept([a, b], PlaceOf(b));
  }

  // ---------------------------------------------------------------- in place

  /** The staging directory is there, and a directory. */
  ghost predicate Ready(t: Tree) { [STAGING_DIR] in t.dirs && [STAGING_DIR] !in t.files }

  lemma AboveHidden(place: Path)
    requires place != []
    ensures forall a <- Above(InStaging(place)) :: Hidden(a)
    ensures Hidden(InStaging(place)) && Hidden(PartOf(InStaging(place)))
  {
    forall a <- Above(InStaging(place)) ensures Hidden(a) {
      AboveExactly(a, InStaging(place));
    }
  }

  lemma StagedClears(t: Tree, e: Entry)
    ensures Staged(t, e).Ok? ==> Cleared(Staged(t, e).value) == Cleared(t)
  {
    if Staged(t, e).Ok? {
      var p := InStaging(PlaceOf(e));
      PartInStaging(PlaceOf(e));
      AboveHidden(PlaceOf(e));
      hide Above;
      assert Cleared(Staged(t, e).value).files == Cleared(t).files;
      assert Cleared(Staged(t, e).value).dirs == Cleared(t).dirs;
    }
  }

  /** What fails on some files fails with more of them. */
  lemma {:induction false} StagedPrefix(t: Tree, entries: seq<Entry>, more: seq<Entry>)
    requires StagedAll(t, entries).Err? && entries <= more
    ensures StagedAll(t, more) == StagedAll(t, entries)
    decreases |more|
  {
    if |entries| < |more| {
      StagedPrefix(t, entries, more[..|more| - 1]);
    } else {
      assert entries == more;
    }
  }

  /** The file system below the destination. It has no symbolic links, takes every name and does not run full. */
  class Disk {
    var tree: Tree

    /** `create_dir_all` of the directory a file is to lie in. */
    method CreateDirsAbove(p: Path) returns (r: Result<Unit>)
      modifies this
      ensures r == if Blocked(old(tree), p) then Err(Io) else Ok(Unit)
      ensures tree == WithDirs(old(tree), p)
    {
      if Blocked(tree, p) {
        return Err(Io);
      }
      tree := Tree(tree.files, tree.dirs + Above(p));
      r := Ok(Unit);
    }

    /** A new file, or new contents for an old one, with whatever mode. */
    method Write(p: Path, body: Bytes) returns (r: Result<Unit>)
      modifies this
      ensures p in old(tree).dirs ==> r == Err(Io) && tree == old(tree)
      ensures p !in old(tree).dirs ==>
        && r == Ok(Unit) && tree.dirs == old(tree).dirs
        && p in tree.files && tree.files == old(tree).files[p := File(body, tree.files[p].mode)]
    {
      if p in tree.dirs {
        return Err(Io);
      }
      var mode: nat := *;
      tree := Tree(tree.files[p := File(body, mode)], tree.dirs);
      r := Ok(Unit);
    }

    method SetMode(p: Path, mode: nat)
      requires p in tree.files
      modifies this
      ensures tree == old(tree).(files := old(tree).files[p := File(old(tree).files[p].body, mode)])
    {
      tree := Tree(tree.files[p := File(tree.files[p].body, mode)], tree.dirs);
    }

    method Rename(from: Path, to: Path) returns (r: Result<Unit>)
      modifies this
      ensures to in old(tree).dirs || from !in old(tree).files ==> r == Err(Io) && tree == old(tree)
      ensures to !in old(tree).dirs && from in old(tree).files ==>
        && r == Ok(Unit)
        && tree == Tree((old(tree).files - {from})[to := old(tree).files[from]], old(tree).dirs)
    {
      if to in tree.dirs || from !in tree.files {
        return Err(Io);
      }
      tree := Tree((tree.files - {from})[to := tree.files[from]], tree.dirs);
      r := Ok(Unit);
    }

    /** Remove any staging directory and all that is in it. */
    method RemoveStaging() returns (r: Result<Unit>)
      modifies this
      ensures [STAGING_DIR] in old(tree).files ==> r == Err(Io) && tree == old(tree)
      ensures [STAGING_DIR] !in old(tree).files ==> r == Ok(Unit) && tree == Cleared(old(tree))
    {
      if [STAGING_DIR] in tree.files {
        return Err(Io);
      }
      tree := Cleared(tree);
      r := Ok(Unit);
    }

    method MakeStaging()
      modifies this
      ensures tree == old(tree).(dirs := old(tree).dirs + {[STAGING_DIR]})
    {
      tree := Tree(tree.files, tree.dirs + {[STAGING_DIR]});
    }

    /** The files found in the staging directory, in any order. */
    method WalkFiles() returns (order: seq<Path>)
      ensures Lists(order, tree)
    {
      order := [];
      var left := Waiting(tree);
      while left != {}
        invariant forall i, j :: 0 <= i < j < |order| ==> order[i] != order[j]
        invariant forall p :: p in Waiting(tree) <==> p in order || p in left
        invariant forall p :: p in order ==> p !in left
        decreases |left|
      {
        var p :| p in left;
        order, left := order + [p], left - {p};
      }
    }

    /** On an error the staging directory is as it may be, and nothing else has changed. */
    method WriteStagedFile(e: Entry) returns (r: Result<Unit>)
      modifies this
      ensures Ready(old(tree)) ==> Ready(tree)
      ensures Staged(old(tree), e).Ok? ==> r == Ok(Unit) && tree == Staged(old(tree), e).value
      ensures Staged(old(tree), e).Err? ==>
        r == Err(Staged(old(tree), e).error) && Cleared(tree) == Cleared(old(tree))
    {
      if !PathAllowed(e.meta.path) {
        return Err(SealedOpenFailed);
      }
      var p := InStaging(PlaceOf(e));
      var part := PartOf(p);
      PartInStaging(PlaceOf(e));
      AboveHidden(PlaceOf(e));
      hide Above, PlaceOf;
      var made := CreateDirsAbove(p);
      if made.Err? {
        return made;
      }
      var written := Write(part, e.body);
      if written.Err? {
        return written;
      }
      SetMode(part, e.meta.mode % 0x1000);
      r := Rename(part, p);
    }

    method PromoteStaging() returns (r: Result<Unit>, ghost order: seq<Path>)
      modifies this
      ensures Lists(order, old(tree)) && (tree, r) == Promoted(old(tree), order)
      ensures Ready(old(tree)) ==> Ready(tree)
    {
      var files := WalkFiles();
      order := files;
      for i := 0 to |files|
        invariant Promoted(old(tree), files) == Promoted(tree, files[i..])
        invariant Ready(old(tree)) ==> Ready(tree)
      {
        var from, to := InStaging(files[i]), files[i];
        assert files[i..][0] == to && files[i..][1..] == files[i + 1..];
        var made := CreateDirsAbove(to);
        if made.Err? {
          return made, order;
        }
        var renamed := Rename(from, to);
        if renamed.Err? {
          return renamed, order;
        }
      }
      r := Ok(Unit);
    }
  }
}
