/**
 The table between inode numbers and paths of a mounted volume: two hash maps meant to stay each other's
 inverse (blindkey-fuse/src/session.rs).
 */
module Inodes {
  const ROOT_INO: nat := 1

  type Path = string

  /** The two maps. */
  datatype Maps = Maps(byIno: map<nat, Path>, byPath: map<Path, nat>)

  ghost predicate Inverse(m: Maps) {
    && (forall i :: i in m.byIno ==> m.byIno[i] in m.byPath && m.byPath[m.byIno[i]] == i)
    && (forall p :: p in m.byPath ==> m.byPath[p] in m.byIno && m.byIno[m.byPath[p]] == p)
  }

  /** Join a parent directory and a child name. */
  function Join(parent: Path, name: Path): Path {
    if parent == "" then name else parent + "/" + name
  }

  /** Distinct children have distinct paths, and no child has the path of the root. */
  lemma JoinInjective(p1: Path, n1: Path, p2: Path, n2: Path)
    requires n1 != "" && n2 != "" && '/' !in n1 && '/' !in n2
    ensures Join(p1, n1) != ""
    ensures Join(p1, n1) == Join(p2, n2) ==> p1 == p2 && n1 == n2
  {
    if Join(p1, n1) == Join(p2, n2) {
      var j := Join(p1, n1);
      if |n1| > |n2| {
        ShorterName(p2, n2, j, n1);
      } else if |n2| > |n1| {
        ShorterName(p1, n1, j, n2);
      }
      assert n1 == j[|j| - |n1|..] && n2 == j[|j| - |n2|..];
      assert p1 != "" ==> j[..|j| - |n1| - 1] == p1;
      assert p2 != "" ==> j[..|j| - |n2| - 1] == p2;
    }
  }

  /** A longer last component would contain the separator. */
  lemma ShorterName(parent: Path, name: Path, joined: Path, longer: Path)
    requires joined == Join(parent, name)
    requires |name| < |longer| <= |joined| && longer == joined[|joined| - |longer|..]
    ensures '/' in longer
  {
    assert joined[|parent|] == '/';
    assert longer[|longer| - |name| - 1] == joined[|joined| - |name| - 1];
  }

  // ---------------------------------------------------------------- renaming

  /** The path is `dir` or below it. */
  predicate Under(p: Path, dir: Path) { p == dir || dir + "/" <= p }

  /** Where a path at or below `from` ends up. */
  function Moved(p: Path, from: Path, to: Path): Path
    requires Under(p, from)
  {
    if p == from then to else to + p[|from|..]
  }

  lemma MovedInjective(p: Path, q: Path, from: Path, to: Path)
    requires Under(p, from) && Under(q, from) && Moved(p, from, to) == Moved(q, from, to)
    ensures p == q
  {
    assert Moved(p, from, to)[|to|..] == p[|from|..] && Moved(q, from, to)[|to|..] == q[|from|..];
    assert p == from + p[|from|..] && q == from + q[|from|..];
  }

  lemma MovedIsUnder(p: Path, from: Path, to: Path)
    requires Under(p, from)
    ensures Under(Moved(p, from, to), to)
  {
    if p != from {
      assert p[|from|..][0] == '/';
      assert to + "/" <= to + p[|from|..];
    }
  }

  type Move = (nat, Path)

  ghost predicate AllUnder(moves: seq<Move>, from: Path) {
    forall k :: 0 <= k < |moves| ==> Under(moves[k].1, from)
  }

  function MoveOne(m: Maps, ino: nat, before: Path, after: Path): Maps {
    Maps(m.byIno[ino := after], (m.byPath - {before})[after := ino])
  }

  /** The moves carried out one after another. */
  function MoveAll(m: Maps, moves: seq<Move>, from: Path, to: Path): Maps
    requires AllUnder(moves, from)
    decreases |moves|
  {
    if moves == [] then m
    else
      var (ino, before) := moves[0];
      MoveAll(MoveOne(m, ino, before, Moved(before, from, to)), moves[1..], from, to)
  }

  /** No inode is listed twice. */
  ghost predicate Distinct(moves: seq<Move>) {
    forall i, j :: 0 <= i < j < |moves| ==> moves[i].0 != moves[j].0
  }

  /** One of the orders in which the hash map can yield the entries at or below `from`. */
  ghost predicate OrderOf(m: Maps, moves: seq<Move>, from: Path) {
    && Distinct(moves) && AllUnder(moves, from)
    && (forall k :: 0 <= k < |moves| ==> moves[k].0 in m.byIno && m.byIno[moves[k].0] == moves[k].1)
    && (forall i :: i in m.byIno && Under(m.byIno[i], from) ==> (i, m.byIno[i]) in moves)
  }

  /** Some of the entries at or below `from` have been listed in `moves`; `remaining` are the others. */
  ghost predicate Partway(m: Maps, moves: seq<Move>, from: Path, remaining: set<nat>) {
    && Distinct(moves) && AllUnder(moves, from)
    && (forall k :: 0 <= k < |moves| ==>
          moves[k].0 in m.byIno && m.byIno[moves[k].0] == moves[k].1 && moves[k].0 !in remaining)
    && (forall i :: i in remaining ==> i in m.byIno && Under(m.byIno[i], from))
    && (forall i :: i in m.byIno && Under(m.byIno[i], from) && i !in remaining ==> (i, m.byIno[i]) in moves)
  }

  lemma PartwayStep(m: Maps, moves: seq<Move>, from: Path, remaining: set<nat>, ino: nat)
    requires Partway(m, moves, from, remaining) && ino in remaining
    ensures ino in m.byIno && Under(m.byIno[ino], from)
    ensures Partway(m, moves + [(ino, m.byIno[ino])], from, remaining - {ino})
  {
    var more := moves + [(ino, m.byIno[ino])];
    forall i | i in m.byIno && Under(m.byIno[i], from) && i !in remaining - {ino} ensures (i, m.byIno[i]) in more {
      assert more[|moves|] == (ino, m.byIno[ino]);
    }
  }

  lemma PartwayUnder(m: Maps, moves: seq<Move>, from: Path, remaining: set<nat>)
    requires Partway(m, moves, from, remaining)
    ensures AllUnder(moves, from)
  {
  }

  lemma PartwayDone(m: Maps, moves: seq<Move>, from: Path)
    requires Partway(m, moves, from, {})
    ensures OrderOf(m, moves, from)
  {
  }

  /** Each entry to be moved is still in place, and nobody else has its new path. */
  ghost predicate Unobstructed(m: Maps, moves: seq<Move>, from: Path, to: Path)
    requires AllUnder(moves, from)
  {
    forall k {:trigger moves[k]} :: 0 <= k < |moves| ==>
      && moves[k].0 in m.byIno && m.byIno[moves[k].0] == moves[k].1
      && var after := Moved(moves[k].1, from, to);
         after in m.byPath ==> m.byPath[after] == moves[k].0
  }

  lemma TailOf(moves: seq<Move>, from: Path)
    requires moves != [] && Distinct(moves) && AllUnder(moves, from)
    ensures Distinct(moves[1..]) && AllUnder(moves[1..], from)
    ensures forall k :: 0 <= k < |moves| - 1 ==> moves[1..][k] == moves[k + 1]
  {
  }

  lemma MoveOneKeepsInverse(m: Maps, moves: seq<Move>, from: Path, to: Path)
    requires Inverse(m) && moves != [] && Distinct(moves) && AllUnder(moves, from) && Unobstructed(m, moves, from, to)
    ensures var m' := MoveOne(m, moves[0].0, moves[0].1, Moved(moves[0].1, from, to));
      Inverse(m') && AllUnder(moves[1..], from) && Unobstructed(m', moves[1..], from, to)
  {
    TailOf(moves, from);
    var (ino, before) := moves[0];
    var after := Moved(before, from, to);
    var m' := MoveOne(m, ino, before, after);
    assert m.byPath[before] == ino;
    forall k | 0 <= k < |moves| - 1
      ensures moves[1..][k].0 in m'.byIno && m'.byIno[moves[1..][k].0] == moves[1..][k].1
      ensures Moved(moves[1..][k].1, from, to) in m'.byPath ==>
        m'.byPath[Moved(moves[1..][k].1, from, to)] == moves[1..][k].0
    {
      var (j, q) := moves[k + 1];
      assert moves[1..][k] == moves[k + 1] && moves[0].0 != moves[k + 1].0;
      if Moved(q, from, to) == after {
        MovedInjective(q, before, from, to);
      }
    }
  }

  lemma {:induction false} MoveAllKeepsInverse(m: Maps, moves: seq<Move>, from: Path, to: Path)
    requires Inverse(m) && Distinct(moves) && AllUnder(moves, from) && Unobstructed(m, moves, from, to)
    ensures Inverse(MoveAll(m, moves, from, to))
    decreases |moves|
  {
    if moves != [] {
      TailOf(moves, from);
      MoveOneKeepsInverse(m, moves, from, to);
      MoveAllKeepsInverse(MoveOne(m, moves[0].0, moves[0].1, Moved(moves[0].1, from, to)), moves[1..], from, to);
    }
  }

  /** Whatever the order and whatever is in the way, exactly the listed inodes get their new paths. */
  lemma {:induction false} MoveAllRewrites(m: Maps, moves: seq<Move>, from: Path, to: Path)
    requires Distinct(moves) && AllUnder(moves, from)
    requires forall k :: 0 <= k < |moves| ==> moves[k].0 in m.byIno
    ensures MoveAll(m, moves, from, to).byIno.Keys == m.byIno.Keys
    ensures forall k :: 0 <= k < |moves| ==>
      MoveAll(m, moves, from, to).byIno[moves[k].0] == Moved(moves[k].1, from, to)
    ensures forall i {:trigger MoveAll(m, moves, from, to).byIno[i]} ::
      (i in m.byIno && forall k :: 0 <= k < |moves| ==> moves[k].0 != i) ==>
          MoveAll(m, moves, from, to).byIno[i] == m.byIno[i]
    decreases |moves|
  {
    if moves != [] {
      TailOf(moves, from);
      var m' := MoveOne(m, moves[0].0, moves[0].1, Moved(moves[0].1, from, to));
      assert m'.byIno.Keys == m.byIno.Keys;
      MoveAllRewrites(m', moves[1..], from, to);
      var after := MoveAll(m', moves[1..], from, to);
      assert forall k :: 0 <= k < |moves| - 1 ==> moves[1..][k].0 != moves[0].0;
      assert after.byIno[moves[0].0] == Moved(moves[0].1, from, to);
      forall k | 0 < k < |moves| ensures after.byIno[moves[k].0] == Moved(moves[k].1, from, to) {
        assert moves[1..][k - 1] == moves[k];
      }
    }
  }

  // ---------------------------------------------------------------- what a rename moves, in terms of joining

  /** At or below a directory other than the root lie the directory itself and what is joined to it. */
  lemma UnderExactly(p: Path, dir: Path)
    requires dir != ""
    ensures Under(p, dir) <==> p == dir || exists rest :: p == Join(dir, rest)
  {
    forall rest | p == Join(dir, rest) ensures dir + "/" <= p {
      assert p == dir + "/" + rest;
    }
    if dir + "/" <= p {
      assert p == Join(dir, p[|dir| + 1..]);
    }
  }

  lemma NamesApart(n: Path, other: Path, tail: Path)
    requires '/' !in n && '/' !in other && n != other && (tail == "" || tail[0] == '/')
    ensures other + tail != n && !(n + "/" <= other + tail)
  {
    var q := other + tail;
    assert q[..|other|] == other && (n + "/")[|n|] == '/' && (n + "/")[..|n|] == n;
    assert |n| < |other| ==> other[|n|] != '/';
    assert |other| < |n| ==> n[|other|] != '/';
    if |n| == |other| {
      var i :| 0 <= i < |n| && n[i] != other[i];
      assert q[i] == other[i];
    }
  }

  lemma SiblingApart(d: Path, n: Path, other: Path, rest: Path)
    requires n != "" && other != "" && '/' !in n && '/' !in other && n != other
    ensures !Under(Join(d, other), Join(d, n)) && !Under(Join(Join(d, other), rest), Join(d, n))
  {
    var base := if d == "" then "" else d + "/";
    NamesApart(n, other, "");
    NamesApart(n, other, "/" + rest);
    BaseIrrelevant(base, n, other);
    BaseIrrelevant(base, n, other + ("/" + rest));
    assert Join(d, n) == base + n && Join(d, other) == base + other;
    assert Join(Join(d, other), rest) == base + (other + ("/" + rest)) && other + "" == other;
  }

  lemma BaseIrrelevant(base: Path, n: Path, q: Path)
    ensures base + q == base + n ==> q == n
    ensures base + n + "/" <= base + q ==> n + "/" <= q
  {
    assert (base + q)[|base|..] == q && (base + n)[|base|..] == n;
    if base + n + "/" <= base + q {
      assert base + n + "/" == base + (n + "/");
      assert (base + q)[|base|..|base| + |n| + 1] == n + "/";
    }
  }

  /**
   Renaming entry `n` of a directory, in whatever order: it gets the new path, and all that is joined below it ends
   up joined the same way below the new path. An entry of the same directory by any other name stays where it was,
   whatever the two names have in common, and so does all that is below it, and the directory.
   */
  lemma RenameMovesSubtree(m: Maps, moves: seq<Move>, d: Path, n: Path, to: Path, i: nat)
    requires n != "" && '/' !in n && to != "" && OrderOf(m, moves, Join(d, n)) && i in m.byIno
    ensures var after := MoveAll(m, moves, Join(d, n), to);
      && after.byIno.Keys == m.byIno.Keys
      && (m.byIno[i] == Join(d, n) ==> after.byIno[i] == to)
      && (forall rest :: m.byIno[i] == Join(Join(d, n), rest) ==> after.byIno[i] == Join(to, rest))
      && (forall other :: other != "" && '/' !in other && other != n && m.byIno[i] == Join(d, other) ==>
            after.byIno[i] == m.byIno[i])
      && (forall other, rest ::
            other != "" && '/' !in other && other != n && m.byIno[i] == Join(Join(d, other), rest) ==>
              after.byIno[i] == m.byIno[i])
      && (m.byIno[i] == d ==> after.byIno[i] == d)
  {
    var from, p := Join(d, n), m.byIno[i];
    MovedOrNot(m, moves, from, to, i);
    MovedJoined(p, from, to);
    SiblingsApart(d, n, p);
    ShorterApart(d, n);
    hide MoveAll, OrderOf, Distinct, AllUnder, Under, Moved, Join;
  }

  lemma MovedJoined(p: Path, from: Path, to: Path)
    requires from != "" && to != ""
    ensures p == from ==> Under(p, from) && Moved(p, from, to) == to
    ensures forall rest :: p == Join(from, rest) ==> Under(p, from) && Moved(p, from, to) == Join(to, rest)
  {
    UnderExactly(p, from);
    hide Under;
    forall rest | p == Join(from, rest) ensures Under(p, from) && Moved(p, from, to) == Join(to, rest) {
      assert p[|from|..] == "/" + rest;
    }
  }

  lemma SiblingsApart(d: Path, n: Path, p: Path)
    requires n != "" && '/' !in n
    ensures forall other :: other != "" && '/' !in other && other != n && p == Join(d, other) ==> !Under(p, Join(d, n))
    ensures forall other, rest :: other != "" && '/' !in other && other != n && p == Join(Join(d, other), rest) ==>
      !Under(p, Join(d, n))
  {
    hide Under, Join;
    forall other | other != "" && '/' !in other && other != n && p == Join(d, other) ensures !Under(p, Join(d, n)) {
      SiblingApart(d, n, other, "");
    }
    forall other, rest | other != "" && '/' !in other && other != n && p == Join(Join(d, other), rest)
      ensures !Under(p, Join(d, n))
    {
      SiblingApart(d, n, other, rest);
    }
  }

  lemma ShorterApart(d: Path, n: Path)
    requires n != ""
    ensures !Under(d, Join(d, n))
  {
    assert |Join(d, n)| > |d|;
  }

  lemma MovedOrNot(m: Maps, moves: seq<Move>, from: Path, to: Path, i: nat)
    requires OrderOf(m, moves, from) && i in m.byIno
    ensures MoveAll(m, moves, from, to).byIno.Keys == m.byIno.Keys
    ensures MoveAll(m, moves, from, to).byIno[i] ==
            if Under(m.byIno[i], from) then Moved(m.byIno[i], from, to) else m.byIno[i]
  {
    MoveAllRewrites(m, moves, from, to);
    if Under(m.byIno[i], from) {
      assert (i, m.byIno[i]) in moves;
      var k :| 0 <= k < |moves| && moves[k] == (i, m.byIno[i]);
      assert moves[k].0 == i;
    }
  }

  // ---------------------------------------------------------------- exactly when renaming is sound

  /** No entry at or below `from` would take over a path that another inode has. */
  ghost predicate TargetsFree(m: Maps, from: Path, to: Path) {
    forall i {:trigger m.byIno[i]} :: i in m.byIno && Under(m.byIno[i], from) ==>
      var after := Moved(m.byIno[i], from, to);
      after in m.byPath ==> m.byPath[after] == i
  }

  lemma OrderUnobstructed(m: Maps, moves: seq<Move>, from: Path, to: Path)
    requires OrderOf(m, moves, from) && TargetsFree(m, from, to)
    ensures Unobstructed(m, moves, from, to)
  {
    forall k | 0 <= k < |moves|
      ensures Moved(moves[k].1, from, to) in m.byPath ==> m.byPath[Moved(moves[k].1, from, to)] == moves[k].0
    {
      assert Under(m.byIno[moves[k].0], from);
    }
  }

  /** A path taken away by a listed move, and given to nobody by any, ends up without an inode. */
  lemma {:induction false} PathLost(m: Maps, moves: seq<Move>, from: Path, to: Path, x: Path)
    requires AllUnder(moves, from)
    requires forall k :: 0 <= k < |moves| ==> Moved(moves[k].1, from, to) != x
    requires x !in m.byPath || exists k :: 0 <= k < |moves| && moves[k].1 == x
    ensures x !in MoveAll(m, moves, from, to).byPath
    decreases |moves|
  {
    if moves != [] {
      assert forall k :: 0 <= k < |moves| - 1 ==> moves[1..][k] == moves[k + 1];
      var m' := MoveOne(m, moves[0].0, moves[0].1, Moved(moves[0].1, from, to));
      if x in m'.byPath {
        var k :| 0 <= k < |moves| && moves[k].1 == x;
        assert k != 0 && moves[1..][k - 1].1 == x;
      }
      PathLost(m', moves[1..], from, to, x);
    }
  }

  lemma {:induction false} SomeOrder(m: Maps, from: Path, inos: set<nat>) returns (moves: seq<Move>)
    requires inos <= m.byIno.Keys && forall i :: i in inos ==> Under(m.byIno[i], from)
    ensures Distinct(moves) && AllUnder(moves, from)
    ensures forall k :: 0 <= k < |moves| ==> moves[k].0 in inos && m.byIno[moves[k].0] == moves[k].1
    ensures forall i :: i in inos ==> (i, m.byIno[i]) in moves
    decreases |inos|
  {
    if inos == {} {
      moves := [];
    } else {
      var i :| i in inos;
      var rest := SomeOrder(m, from, inos - {i});
      moves := [(i, m.byIno[i])] + rest;
      assert forall k :: 0 < k < |moves| ==> moves[k] == rest[k - 1];
      forall j | j in inos ensures (j, m.byIno[j]) in moves {
        assert j == i ==> moves[0] == (j, m.byIno[j]);
      }
    }
  }

  /** An order that carries out the move of `i` first. */
  lemma OrderStartingWith(m: Maps, from: Path, i: nat) returns (moves: seq<Move>)
    requires i in m.byIno && Under(m.byIno[i], from)
    ensures OrderOf(m, moves, from) && moves != [] && moves[0] == (i, m.byIno[i])
  {
    var inos := set j | j in m.byIno.Keys && Under(m.byIno[j], from) && j != i;
    var rest := SomeOrder(m, from, inos);
    moves := [(i, m.byIno[i])] + rest;
    assert forall k :: 0 < k < |moves| ==> moves[k] == rest[k - 1];
    forall j | j in m.byIno && Under(m.byIno[j], from) ensures (j, m.byIno[j]) in moves {
      assert j == i ==> moves[0] == (j, m.byIno[j]);
      assert j != i ==> j in inos;
    }
  }

  /** If some target is taken, some order leaves the maps no longer inverse. */
  lemma TakenTargetBreaks(m: Maps, from: Path, to: Path, i: nat) returns (moves: seq<Move>)
    requires Inverse(m) && i in m.byIno && Under(m.byIno[i], from)
    requires var after := Moved(m.byIno[i], from, to); after in m.byPath && m.byPath[after] != i
    ensures OrderOf(m, moves, from) && !Inverse(MoveAll(m, moves, from, to))
  {
    moves := OrderStartingWith(m, from, i);
    var after := Moved(m.byIno[i], from, to);
    var j := m.byPath[after];
    var last := MoveAll(m, moves, from, to);
    MoveAllRewrites(m, moves, from, to);
    assert last.byIno[moves[0].0] == after;
    if Under(after, from) {
      TailOf(moves, from);
      forall k | 0 <= k < |moves| - 1 ensures Moved(moves[1..][k].1, from, to) != after {
        if Moved(moves[k + 1].1, from, to) == after {
          MovedInjective(moves[k + 1].1, moves[0].1, from, to);
        }
      }
      assert (j, m.byIno[j]) in moves && moves[0].0 != j;
      var k :| 0 <= k < |moves| && moves[k] == (j, after);
      assert moves[1..][k - 1].1 == after;
      PathLost(MoveOne(m, i, m.byIno[i], after), moves[1..], from, to, after);
    } else {
      assert last.byIno[j] == after && last.byIno[i] == after;
    }
  }

  /**
   Renaming a subtree keeps the two maps inverse, in whatever order the hash map yields the entries, if
   and only if no entry would take over a path that another inode has.
   */
  lemma RenameKeepsInverseExactly(m: Maps, from: Path, to: Path)
    requires Inverse(m)
    ensures (forall moves: seq<Move> :: OrderOf(m, moves, from) ==> Inverse(MoveAll(m, moves, from, to)))
      <==> TargetsFree(m, from, to)
  {
    if TargetsFree(m, from, to) {
      forall moves: seq<Move> | OrderOf(m, moves, from) ensures Inverse(MoveAll(m, moves, from, to)) {
        OrderUnobstructed(m, moves, from, to);
        MoveAllKeepsInverse(m, moves, from, to);
      }
    } else {
      var i :| i in m.byIno && Under(m.byIno[i], from) &&
        var after := Moved(m.byIno[i], from, to); after in m.byPath && m.byPath[after] != i;
      var moves := TakenTargetBreaks(m, from, to, i);
    }
  }

  /** It is enough that no interned path lies at or below `to`. */
  lemma NothingBelowTarget(m: Maps, from: Path, to: Path)
    requires forall p :: p in m.byPath ==> !Under(p, to)
    ensures TargetsFree(m, from, to)
  {
    forall i | i in m.byIno && Under(m.byIno[i], from) ensures Moved(m.byIno[i], from, to) !in m.byPath {
      MovedIsUnder(m.byIno[i], from, to);
    }
  }

  /** It is not enough that `to` is a different name: replacing one file by another leaves a dead inode. */
  lemma ReplacingBreaks() returns (m: Maps)
    ensures Inverse(m) && !TargetsFree(m, "a", "b")
    ensures exists moves :: OrderOf(m, moves, "a") && !Inverse(MoveAll(m, moves, "a", "b"))
  {
    m := Maps(map[1 := "", 2 := "a", 3 := "b"], map["" := 1, "a" := 2, "b" := 3]);
    var moves := TakenTargetBreaks(m, "a", "b", 2);
  }

  // ---------------------------------------------------------------- the table

  class InodeTable {
    var byIno: map<nat, Path>
    var byPath: map<Path, nat>
    var next: nat

    ghost function View(): Maps
      reads this
    {
      Maps(byIno, byPath)
    }

    /** What every call keeps, renames that replace included. */
    ghost predicate Valid()
      reads this
    {
      Sound(View(), next)
    }

    constructor ()
      ensures Valid() && Consistent(View(), next) && View() == Maps(map[ROOT_INO := ""], map["" := ROOT_INO])
        && next == ROOT_INO + 1
    {
      byIno := map[ROOT_INO := ""];
      byPath := map["" := ROOT_INO];
      next := ROOT_INO + 1;
    }

    /** A path keeps its number; a new path gets one never handed out before. */
    method Intern(path: Path) returns (ino: nat)
      requires Valid()
      modifies this
      ensures Valid()
      ensures (View(), next, ino) == Interned(old(View()), old(next), path)
      ensures ino in byIno && byIno[ino] == path && (path !in old(byPath) ==> ino >= old(next))
      ensures old(Consistent(View(), next)) ==> Consistent(View(), next)
    {
      if path in byPath {
        return byPath[path];
      }
      ino := next;
      next := next + 1;
      byIno := byIno[ino := path];
      byPath := byPath[path := ino];
    }

    method ForgetPath(path: Path)
      requires Valid() && path != ""
      modifies this
      ensures Valid()
      ensures View() == Forgotten(old(View()), path) && next == old(next)
      ensures old(Consistent(View(), next)) ==> Consistent(View(), next)
    {
      if path in byPath {
        var ino := byPath[path];
        byPath := byPath - {path};
        byIno := byIno - {ino};
      }
    }

    /** The moves are listed first and then carried out, in the order the hash map yields them. */
    method RenameSubtree(from: Path, to: Path) returns (ghost moves: seq<Move>)
      requires Valid()
      modifies this
      ensures next == old(next) && OrderOf(old(View()), moves, from)
      ensures View() == MoveAll(old(View()), moves, from, to)
      ensures from != "" && to != "" ==> Valid()
      ensures from != "" && old(Consistent(View(), next)) && TargetsFree(old(View()), from, to) ==>
        Consistent(View(), next)
    {
      var listed := set i | i in byIno.Keys && Under(byIno[i], from);
      var paths := byIno;
      ghost var start := View();
      moves := [];
      assert Partway(start, moves, from, listed);
      hide Sound, Consistent, Inverse, TargetsFree, Partway, OrderOf, Distinct;
      while listed != {}
        invariant paths == start.byIno && next == old(next)
        invariant Partway(start, moves, from, listed) && AllUnder(moves, from)
        invariant View() == MoveAll(start, moves, from, to)
        decreases |listed|
      {
        var ino :| ino in listed;
        PartwayStep(start, moves, from, listed, ino);
        PartwayUnder(start, moves, from, listed);
        listed := listed - {ino};
        var before := paths[ino];
        var after := if before == from then to else to + before[|from|..];
        MoveAllAppend(start, moves, from, to, ino, before);
        moves := moves + [(ino, before)];
        byPath := byPath - {before};
        byIno := byIno[ino := after];
        byPath := byPath[after := ino];
      }
      PartwayDone(start, moves, from);
      if from != "" && to != "" {
        RenameSound(start, next, moves, from, to);
      }
      if from != "" && Consistent(start, next) && TargetsFree(start, from, to) {
        RenameConsistent(start, next, moves, from, to);
      }
    }
  }

  lemma {:induction false} MoveAllAppend(m: Maps, moves: seq<Move>, from: Path, to: Path, ino: nat, before: Path)
    requires AllUnder(moves, from) && Under(before, from)
    ensures AllUnder(moves + [(ino, before)], from)
    ensures MoveAll(m, moves + [(ino, before)], from, to)
         == MoveOne(MoveAll(m, moves, from, to), ino, before, Moved(before, from, to))
    decreases |moves|
  {
    var all := moves + [(ino, before)];
    if moves == [] {
      assert all[1..] == [];
    } else {
      assert all[1..] == moves[1..] + [(ino, before)];
      MoveAllAppend(MoveOne(m, moves[0].0, moves[0].1, Moved(moves[0].1, from, to)), moves[1..], from, to, ino, before);
    }
  }

  // ---------------------------------------------------------------- every reachable table

  /**
   Every known path has a number that leads back to it, the root keeps number 1, and every number in use
   has been handed out.
   */
  ghost predicate Sound(m: Maps, next: nat) {
    && (forall p :: p in m.byPath ==> m.byPath[p] in m.byIno && m.byIno[m.byPath[p]] == p)
    && ROOT_INO in m.byIno && m.byIno[ROOT_INO] == "" && "" in m.byPath && m.byPath[""] == ROOT_INO
    && ROOT_INO < next && forall i :: i in m.byIno ==> ROOT_INO <= i < next
  }

  /** And every number's path is known under that number: no inode is dead. */
  ghost predicate Consistent(m: Maps, next: nat) { Sound(m, next) && Inverse(m) }

  function Interned(m: Maps, next: nat, path: Path): (Maps, nat, nat) {
    if path in m.byPath then (m, next, m.byPath[path])
    else (Maps(m.byIno[next := path], m.byPath[path := next]), next + 1, next)
  }

  function Forgotten(m: Maps, path: Path): Maps {
    if path in m.byPath then Maps(m.byIno - {m.byPath[path]}, m.byPath - {path}) else m
  }

  /** The moves still to come find their inodes where they were listed. */
  ghost predicate InPlace(m: Maps, moves: seq<Move>) {
    forall k :: 0 <= k < |moves| ==> moves[k].0 in m.byIno && m.byIno[moves[k].0] == moves[k].1
  }

  lemma MoveOneSound(m: Maps, next: nat, moves: seq<Move>, from: Path, to: Path)
    requires Sound(m, next) && moves != [] && Distinct(moves) && AllUnder(moves, from) && InPlace(m, moves)
    requires from != "" && to != ""
    ensures var m' := MoveOne(m, moves[0].0, moves[0].1, Moved(moves[0].1, from, to));
      Sound(m', next) && AllUnder(moves[1..], from) && InPlace(m', moves[1..])
  {
    TailOf(moves, from);
    var (ino, before) := moves[0];
    var after := Moved(before, from, to);
    var m' := MoveOne(m, ino, before, after);
    assert before != "" && after != "" && ino != ROOT_INO;
    forall p | p in m'.byPath ensures m'.byPath[p] in m'.byIno && m'.byIno[m'.byPath[p]] == p {
      assert p != after ==> m'.byPath[p] != ino;
    }
  }

  lemma {:induction false} MoveAllSound(m: Maps, next: nat, moves: seq<Move>, from: Path, to: Path)
    requires Sound(m, next) && Distinct(moves) && AllUnder(moves, from) && InPlace(m, moves) && from != "" && to != ""
    ensures Sound(MoveAll(m, moves, from, to), next)
    decreases |moves|
  {
    if moves != [] {
      TailOf(moves, from);
      MoveOneSound(m, next, moves, from, to);
      MoveAllSound(MoveOne(m, moves[0].0, moves[0].1, Moved(moves[0].1, from, to)), next, moves[1..], from, to);
    }
  }

  /** Any rename, onto whatever and in whatever order, keeps the table sound. */
  lemma RenameSound(m: Maps, next: nat, moves: seq<Move>, from: Path, to: Path)
    requires Sound(m, next) && OrderOf(m, moves, from) && from != "" && to != ""
    ensures Sound(MoveAll(m, moves, from, to), next)
  {
    MoveAllSound(m, next, moves, from, to);
  }

  /** A target that is free is not the root's path. */
  lemma RenameConsistent(m: Maps, next: nat, moves: seq<Move>, from: Path, to: Path)
    requires Consistent(m, next) && OrderOf(m, moves, from) && from != "" && TargetsFree(m, from, to)
    ensures Consistent(MoveAll(m, moves, from, to), next)
  {
    OrderUnobstructed(m, moves, from, to);
    MoveAllKeepsInverse(m, moves, from, to);
    MoveAllRewrites(m, moves, from, to);
    assert forall k :: 0 <= k < |moves| ==> moves[k].0 != ROOT_INO;
  }

  datatype Op = DoIntern(path: Path) | DoForget(path: Path) | DoRename(from: Path, to: Path, moves: seq<Move>)

  /** What the file-system calls do: paths come from `Join`, so only the root's is empty. */
  ghost predicate Called(m: Maps, op: Op) {
    match op
    case DoIntern(_) => true
    case DoForget(path) => path != ""
    case DoRename(from, to, moves) => from != "" && to != "" && OrderOf(m, moves, from)
  }

  /** A rename takes over no other inode's path. */
  ghost predicate Free(m: Maps, op: Op) { op.DoRename? ==> TargetsFree(m, op.from, op.to) }

  function Step(m: Maps, next: nat, op: Op): (Maps, nat)
    requires op.DoRename? ==> AllUnder(op.moves, op.from)
  {
    match op
    case DoIntern(path) => (Interned(m, next, path).0, Interned(m, next, path).1)
    case DoForget(path) => (Forgotten(m, path), next)
    case DoRename(from, to, moves) => (MoveAll(m, moves, from, to), next)
  }

  ghost predicate CalledRun(m: Maps, next: nat, ops: seq<Op>)
    decreases |ops|
  {
    ops == [] || (Called(m, ops[0]) && CalledRun(Step(m, next, ops[0]).0, Step(m, next, ops[0]).1, ops[1..]))
  }

  ghost function Run(m: Maps, next: nat, ops: seq<Op>): (Maps, nat)
    requires CalledRun(m, next, ops)
    decreases |ops|
  {
    if ops == [] then (m, next) else Run(Step(m, next, ops[0]).0, Step(m, next, ops[0]).1, ops[1..])
  }

  /** No rename of the run takes over another inode's path. */
  ghost predicate FreeRun(m: Maps, next: nat, ops: seq<Op>)
    requires CalledRun(m, next, ops)
    decreases |ops|
  {
    ops == [] || (Free(m, ops[0]) && FreeRun(Step(m, next, ops[0]).0, Step(m, next, ops[0]).1, ops[1..]))
  }

  lemma StepSound(m: Maps, next: nat, op: Op)
    requires Sound(m, next) && Called(m, op)
    ensures Sound(Step(m, next, op).0, Step(m, next, op).1)
    ensures Consistent(m, next) && Free(m, op) ==> Consistent(Step(m, next, op).0, Step(m, next, op).1)
    ensures next <= Step(m, next, op).1
    ensures forall i :: i < next && i !in m.byIno ==> i !in Step(m, next, op).0.byIno
  {
    match op
    case DoIntern(path) =>
    case DoForget(path) =>
    case DoRename(from, to, moves) =>
      RenameSound(m, next, moves, from, to);
      MoveAllRewrites(m, moves, from, to);
      if Consistent(m, next) && Free(m, op) {
        RenameConsistent(m, next, moves, from, to);
      }
  }

  /**
   Every table any run can reach, renames that replace included, leads from each known path to a number and
   back, and a number that was handed out and forgotten never comes back. While no rename takes over another
   inode's path, the maps are each other's inverse throughout.
   */
  lemma {:induction false} RunSound(m: Maps, next: nat, ops: seq<Op>)
    requires Sound(m, next) && CalledRun(m, next, ops)
    ensures Sound(Run(m, next, ops).0, Run(m, next, ops).1)
    ensures Consistent(m, next) && FreeRun(m, next, ops) ==> Consistent(Run(m, next, ops).0, Run(m, next, ops).1)
    ensures next <= Run(m, next, ops).1
    ensures forall i :: i < next && i !in m.byIno ==> i !in Run(m, next, ops).0.byIno
    decreases |ops|
  {
    hide Sound, Consistent, Free, Step;
    if ops != [] {
      StepSound(m, next, ops[0]);
      RunSound(Step(m, next, ops[0]).0, Step(m, next, ops[0]).1, ops[1..]);
    }
  }
}
