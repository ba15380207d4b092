/**
 partition.cpp: Wipe_Data_Without_Wiping_Media_Func, which empties a directory tree except for
 excluded paths.  The disk is a map from paths, given by their names below the mount point, to kinds.
 */
module DataWipe {
  import opened Paths
  import Exclusions

  type Path = seq<string>

  /** d_type; Device stands for block and character devices, Unknown for file systems that do not tell. */
  datatype Kind = Directory | Regular | Link | Fifo | Socket | Device | Unknown

  type Nodes = map<Path, Kind>

  predicate Removable(k: Kind) {
    k == Regular || k == Link || k == Fifo || k == Socket
  }

  /** The string that the program builds for a path. */
  function PathString(mountPoint: string, p: Path): string {
    if p == [] then mountPoint else PathString(mountPoint, p[..|p| - 1]) + "/" + p[|p| - 1]
  }

  predicate Below(dir: Path, p: Path) {
    dir <= p && |dir| < |p|
  }

  predicate ChildOf(dir: Path, p: Path) {
    dir <= p && |p| == |dir| + 1
  }

  /** Everything but the mount point itself has a name and is in a directory. */
  ghost predicate IsTree(n: Nodes) {
    forall p | p in n && p != [] ::
      && IsName(p[|p| - 1])
      && p[..|p| - 1] in n && (n[p[..|p| - 1]] == Directory || n[p[..|p| - 1]] == Unknown)
  }

  /** `path`, however it is spelled, is the path `p` below the mount point. */
  predicate Spells(path: string, mountPoint: string, p: Path) {
    Components(path) == Components(mountPoint) + p && (Absolute(path) <==> mountPoint == "" || mountPoint[0] == '/')
  }

  /** Its name is left out in every directory, or its normal spelling is listed. */
  predicate Excluded(r: Exclusions.Rules, mountPoint: string, p: Path) {
    p != [] && (p[|p| - 1] in r.relative || exists path :: path in r.absolute && Normal(path) == path && Spells(path, mountPoint, p))
  }

  /** The wipe does not get past this node: it is excluded, or of a kind that is neither removed nor descended into. */
  predicate Barrier(n: Nodes, r: Exclusions.Rules, mountPoint: string, q: Path)
    requires q in n
  {
    Excluded(r, mountPoint, q) || n[q] == Device || n[q] == Unknown
  }

  /** `p` is such a node below `dir`, or lies below one, or is an ancestor of one. */
  ghost predicate Survives(n: Nodes, r: Exclusions.Rules, mountPoint: string, dir: Path, p: Path) {
    exists q :: q in n && Below(dir, q) && Barrier(n, r, mountPoint, q) && (q <= p || p <= q)
  }

  ghost predicate Stays(n: Nodes, r: Exclusions.Rules, mountPoint: string, dir: Path, p: Path) {
    p in n && (!Below(dir, p) || Survives(n, r, mountPoint, dir, p))
  }

  /** Only nodes have gone, and none of those that must stay. */
  ghost predicate Safe(n: Nodes, n': Nodes, r: Exclusions.Rules, mountPoint: string, dir: Path) {
    && (forall p | p in n' :: p in n && n'[p] == n[p])
    && (forall p | Stays(n, r, mountPoint, dir, p) :: p in n')
  }

  /** Exactly those nodes are left that must stay. */
  ghost predicate Wiped(n: Nodes, n': Nodes, r: Exclusions.Rules, mountPoint: string, dir: Path) {
    && (forall p | p in n' :: p in n && n'[p] == n[p])
    && (forall p :: p in n' <==> Stays(n, r, mountPoint, dir, p))
  }

  // ---------------------------------------------------------------- the paths that the program builds

  lemma {:induction false} PiecesAppend(current: string, path: string, name: string)
    requires '/' !in name
    ensures Pieces(current, path + "/" + name) == Pieces(current, path) + Components(name)
    decreases |path|
  {
    var whole := path + "/" + name;
    if path == "" {
      assert whole[0] == '/' && whole[1..] == name;
    } else {
      assert whole[0] == path[0] && whole[1..] == path[1..] + "/" + name;
      PiecesAppend(if path[0] == '/' then "" else current + [path[0]], path[1..], name);
    }
  }

  lemma {:induction false} SpelledByProgram(mountPoint: string, p: Path)
    requires p != [] && AllNames(p)
    ensures Spells(PathString(mountPoint, p), mountPoint, p)
  {
    var dir, name := p[..|p| - 1], p[|p| - 1];
    assert p == dir + [name];
    if dir == [] {
      assert Components(mountPoint) + dir == Components(mountPoint);
    } else {
      SpelledByProgram(mountPoint, dir);
      assert Components(PathString(mountPoint, dir)) == Components(mountPoint) + dir;
    }
    hide PathString;
    PiecesAppend("", PathString(mountPoint, dir), name);
    ComponentsName(name);
    assert Components(mountPoint) + (dir + [name]) == Components(mountPoint) + dir + [name];
  }

  lemma {:induction false} TreeNames(n: Nodes, p: Path)
    requires IsTree(n) && p in n
    ensures AllNames(p)
    decreases |p|
  {
    if p != [] {
      TreeNames(n, p[..|p| - 1]);
      assert p == p[..|p| - 1] + [p[|p| - 1]];
    }
  }

  /** check_skip_dirs, asked about the path that the program has built, tells what is excluded. */
  lemma ProgramSkips(n: Nodes, r: Exclusions.Rules, mountPoint: string, p: Path)
    requires IsTree(n) && p in n && p != []
    ensures Exclusions.Skips(r, PathString(mountPoint, p)) <==> Excluded(r, mountPoint, p)
  {
    TreeNames(n, p);
    SpelledByProgram(mountPoint, p);
    SpelledSkips(r, mountPoint, p, PathString(mountPoint, p));
  }

  lemma SpelledSkips(r: Exclusions.Rules, mountPoint: string, p: Path, path: string)
    requires p != [] && Spells(path, mountPoint, p)
    ensures Exclusions.Skips(r, path) <==> Excluded(r, mountPoint, p)
  {
    Exclusions.SkipsMeaning(r, path);
    if mountPoint != "" && mountPoint[0] != '/' {
      SomeNames(mountPoint);
    }
    assert Components(path)[|Components(path)| - 1] == p[|p| - 1];
    if Normal(path) in r.absolute {
      NormalFacts(path);
      assert Spells(Normal(path), mountPoint, p);
    }
    forall other | other in r.absolute && Normal(other) == other && Spells(other, mountPoint, p)
      ensures Normal(path) == other
    {
      SameNormalExactlyWhen(path, other);
    }
    hide Exclusions.Skips, Components, Normal, Absolute;
  }

  lemma PrefixOrBelow(c: Path, p: Path)
    requires c <= p
    ensures p == c || Below(c, p)
  {
    assert |p| == |c| ==> p[..|c|] == p;
  }

  lemma ParentPrefix(q: Path, p: Path)
    requires p != []
    ensures q <= p && q != p ==> q <= p[..|p| - 1]
    ensures p <= q ==> p[..|p| - 1] <= q
  {
    if q <= p {
      PrefixOrBelow(q, p);
    }
  }

  /** Survivors' directories survive. */
  lemma ParentSurvives(n: Nodes, r: Exclusions.Rules, mountPoint: string, dir: Path, p: Path)
    requires p != [] && Survives(n, r, mountPoint, dir, p)
    ensures Survives(n, r, mountPoint, dir, p[..|p| - 1])
  {
    var q :| q in n && Below(dir, q) && Barrier(n, r, mountPoint, q) && (q <= p || p <= q);
    ParentPrefix(q, p);
    hide Barrier;
    if q == p {
      assert p[..|p| - 1] <= q;
    }
  }

  /** Files have nothing below them. */
  lemma HoldsNodes(n: Nodes, c: Path, p: Path)
    requires IsTree(n) && c in n && p in n && Below(c, p)
    ensures !Removable(n[c])
  {
    UnderSomeChild(n, c, p);
    var child := p[..|c| + 1];
    assert child[..|child| - 1] == c;
  }

  lemma NothingBelowFile(n: Nodes, c: Path)
    requires IsTree(n) && c in n
    ensures Removable(n[c]) ==> forall p | p in n :: !Below(c, p)
  {
    forall p | p in n && Below(c, p)
      ensures !Removable(n[c])
    {
      HoldsNodes(n, c, p);
    }
  }

  // ---------------------------------------------------------------- one child of a directory

  /** Progress of the loop: children not in `remaining` have been handled. */
  ghost predicate Partly(n: Nodes, n': Nodes, r: Exclusions.Rules, mountPoint: string, dir: Path, remaining: set<Path>) {
    && (forall p | p in n' :: p in n && n'[p] == n[p])
    && (forall p :: p in n' <==> p in n && (Stays(n, r, mountPoint, dir, p) || exists c :: c in remaining && c <= p))
  }

  /** Inside a child that is not a barrier, being a survivor means the same seen from the child as from the directory. */
  lemma SurvivesInside(n: Nodes, r: Exclusions.Rules, mountPoint: string, dir: Path, c: Path, p: Path)
    requires c in n && ChildOf(dir, c) && Below(c, p) && !Barrier(n, r, mountPoint, c)
    ensures Survives(n, r, mountPoint, dir, p) <==> Survives(n, r, mountPoint, c, p)
  {
    if Survives(n, r, mountPoint, dir, p) {
      var q :| q in n && Below(dir, q) && Barrier(n, r, mountPoint, q) && (q <= p || p <= q);
      if q <= p {
        assert q == p[..|q|] && c == p[..|c|];
        assert |q| == |c| ==> q == c;
        assert Below(c, q);
      } else {
        assert c <= q;
        assert Below(c, q);
      }
    }
    if Survives(n, r, mountPoint, c, p) {
      var q :| q in n && Below(c, q) && Barrier(n, r, mountPoint, q) && (q <= p || p <= q);
      assert Below(dir, q);
    }
  }

  /** A child that is itself no barrier survives exactly when something in it does. */
  lemma ChildSurvives(n: Nodes, r: Exclusions.Rules, mountPoint: string, dir: Path, c: Path)
    requires c in n && ChildOf(dir, c) && !Barrier(n, r, mountPoint, c)
    ensures Survives(n, r, mountPoint, dir, c) <==> exists p :: p in n && Below(c, p) && Survives(n, r, mountPoint, c, p)
  {
    if Survives(n, r, mountPoint, dir, c) {
      var q :| q in n && Below(dir, q) && Barrier(n, r, mountPoint, q) && (q <= c || c <= q);
      if c <= q {
        PrefixOrBelow(c, q);
      } else {
        PrefixOrBelow(q, c);
      }
      assert Below(c, q) && Survives(n, r, mountPoint, c, q);
    }
    if p :| p in n && Below(c, p) && Survives(n, r, mountPoint, c, p) {
      var q :| q in n && Below(c, q) && Barrier(n, r, mountPoint, q) && (q <= p || p <= q);
      assert Below(dir, q) && c <= q;
    }
  }

  /** Two children of one directory have nothing below them in common. */
  lemma ChildrenApart(dir: Path, c1: Path, c2: Path, p: Path)
    requires ChildOf(dir, c1) && ChildOf(dir, c2) && c1 <= p && c2 <= p
    ensures c1 == c2
  {
    assert c1 == p[..|c1|] && c2 == p[..|c2|];
  }

  /** Everything below a directory is below one of its children. */
  lemma {:induction false} UnderSomeChild(n: Nodes, dir: Path, p: Path)
    requires IsTree(n) && p in n && Below(dir, p)
    ensures p[..|dir| + 1] in n && ChildOf(dir, p[..|dir| + 1]) && p[..|dir| + 1] <= p
    decreases |p|
  {
    if |p| == |dir| + 1 {
      assert p[..|dir| + 1] == p;
    } else {
      var parent := p[..|p| - 1];
      UnderSomeChild(n, dir, parent);
      assert parent[..|dir| + 1] == p[..|dir| + 1];
    }
  }

  // ---------------------------------------------------------------- steps of the loop

  function Children(n: Nodes, dir: Path): set<Path> {
    set p | p in n && ChildOf(dir, p)
  }

  lemma LoopStarts(n: Nodes, r: Exclusions.Rules, mountPoint: string, dir: Path)
    requires IsTree(n)
    ensures Partly(n, n, r, mountPoint, dir, Children(n, dir))
  {
    forall p | p in n && Below(dir, p)
      ensures exists c :: c in Children(n, dir) && c <= p
    {
      UnderSomeChild(n, dir, p);
      assert p[..|dir| + 1] in Children(n, dir);
    }
  }

  lemma LoopEnds(n: Nodes, n': Nodes, r: Exclusions.Rules, mountPoint: string, dir: Path)
    requires Partly(n, n', r, mountPoint, dir, {})
    ensures Wiped(n, n', r, mountPoint, dir)
  {
  }

  /** Ancestors of what is still there are still there. */
  lemma PartlyIsTree(n: Nodes, n': Nodes, r: Exclusions.Rules, mountPoint: string, dir: Path, remaining: set<Path>)
    requires IsTree(n) && Partly(n, n', r, mountPoint, dir, remaining)
    requires forall c | c in remaining :: ChildOf(dir, c)
    ensures IsTree(n')
  {
    forall p | p in n' && p != []
      ensures p[..|p| - 1] in n'
    {
      var parent := p[..|p| - 1];
      assert parent in n;
      if Below(dir, parent) {
        if c :| c in remaining && c <= p {
          ParentPrefix(c, p);
          assert c != p;
        } else {
          ParentSurvives(n, r, mountPoint, dir, p);
        }
      }
    }
    hide Survives;
  }

  /** Nothing in a child that has not been handled yet has been touched. */
  lemma ChildUntouched(n: Nodes, n1: Nodes, r: Exclusions.Rules, mountPoint: string, dir: Path, remaining: set<Path>, c: Path)
    requires Partly(n, n1, r, mountPoint, dir, remaining) && c in remaining && c in n
    ensures c in n1 && n1[c] == n[c]
    ensures forall p | c <= p :: (p in n1 <==> p in n) && (p in n ==> n1[p] == n[p])
    ensures forall p :: Survives(n1, r, mountPoint, c, p) == Survives(n, r, mountPoint, c, p)
  {
    forall p | c <= p
      ensures (p in n1 <==> p in n) && (p in n ==> n1[p] == n[p])
    {
    }
    forall p
      ensures Survives(n1, r, mountPoint, c, p) == Survives(n, r, mountPoint, c, p)
    {
      hide Partly;
      if Survives(n1, r, mountPoint, c, p) {
        var q :| q in n1 && Below(c, q) && Barrier(n1, r, mountPoint, q) && (q <= p || p <= q);
        assert Barrier(n, r, mountPoint, q);
      }
      if Survives(n, r, mountPoint, c, p) {
        var q :| q in n && Below(c, q) && Barrier(n, r, mountPoint, q) && (q <= p || p <= q);
        assert Barrier(n1, r, mountPoint, q);
      }
    }
  }

  /** How one step of the loop must change the disk for the child `c`. */
  ghost predicate ChildDone(n: Nodes, n1: Nodes, n2: Nodes, r: Exclusions.Rules, mountPoint: string, dir: Path, c: Path) {
    && (forall p | p in n2 :: p in n1 && n2[p] == n1[p])
    && (forall p | !(c <= p) :: p in n2 <==> p in n1)
    && (forall p | c <= p :: p in n2 <==> p in n && Survives(n, r, mountPoint, dir, p))
  }

  lemma ChildStep(n: Nodes, n1: Nodes, n2: Nodes, r: Exclusions.Rules, mountPoint: string, dir: Path, remaining: set<Path>, c: Path)
    requires Partly(n, n1, r, mountPoint, dir, remaining) && c in remaining && ChildOf(dir, c)
    requires forall x | x in remaining :: ChildOf(dir, x)
    requires ChildDone(n, n1, n2, r, mountPoint, dir, c)
    ensures Partly(n, n2, r, mountPoint, dir, remaining - {c})
  {
    hide Survives;
    forall p
      ensures p in n2 <==> p in n && (Stays(n, r, mountPoint, dir, p) || exists x :: x in remaining - {c} && x <= p)
    {
      if c <= p {
        assert Below(dir, p);
        forall x | x in remaining - {c} && x <= p
          ensures false
        {
          ChildrenApart(dir, c, x, p);
        }
      } else {
        if x :| x in remaining && x <= p {
          assert x in remaining - {c};
        }
      }
    }
  }

  /** An excluded child, or one of a kind that is left alone. */
  lemma KeptChild(n: Nodes, n1: Nodes, r: Exclusions.Rules, mountPoint: string, dir: Path, remaining: set<Path>, c: Path)
    requires Partly(n, n1, r, mountPoint, dir, remaining) && c in remaining && c in n && ChildOf(dir, c)
    requires Barrier(n, r, mountPoint, c)
    ensures ChildDone(n, n1, n1, r, mountPoint, dir, c)
  {
    ChildUntouched(n, n1, r, mountPoint, dir, remaining, c);
    hide Partly, Barrier;
    assert Below(dir, c);
  }

  /** A child that is unlinked. */
  lemma UnlinkedChild(n: Nodes, n1: Nodes, r: Exclusions.Rules, mountPoint: string, dir: Path, remaining: set<Path>, c: Path)
    requires IsTree(n) && Partly(n, n1, r, mountPoint, dir, remaining) && c in remaining && c in n && ChildOf(dir, c)
    requires !Barrier(n, r, mountPoint, c) && Removable(n[c])
    ensures ChildDone(n, n1, n1 - {c}, r, mountPoint, dir, c)
  {
    hide Partly, Survives, IsTree, Barrier;
    ChildUntouched(n, n1, r, mountPoint, dir, remaining, c);
    NothingBelowFile(n, c);
    ChildSurvives(n, r, mountPoint, dir, c);
    forall p | c <= p
      ensures p in n1 - {c} <==> p in n && Survives(n, r, mountPoint, dir, p)
    {
      PrefixOrBelow(c, p);
    }
  }

  /** What a wipe of a child leaves inside it is what survives in the directory. */
  lemma WipedInside(n: Nodes, n1: Nodes, n2: Nodes, r: Exclusions.Rules, mountPoint: string, dir: Path, remaining: set<Path>, c: Path)
    requires Partly(n, n1, r, mountPoint, dir, remaining) && c in remaining && c in n && ChildOf(dir, c)
    requires !Barrier(n, r, mountPoint, c) && Wiped(n1, n2, r, mountPoint, c)
    ensures forall p | Below(c, p) :: p in n2 <==> p in n && Survives(n, r, mountPoint, dir, p)
    ensures forall p | Below(c, p) :: p in n2 <==> p in n && Survives(n, r, mountPoint, c, p)
  {
    ChildUntouched(n, n1, r, mountPoint, dir, remaining, c);
    hide Partly, Barrier, Survives;
    forall p | Below(c, p)
      ensures p in n2 <==> p in n && Survives(n, r, mountPoint, c, p)
      ensures p in n2 <==> p in n && Survives(n, r, mountPoint, dir, p)
    {
      if p in n {
        SurvivesInside(n, r, mountPoint, dir, c, p);
      }
      assert p in n2 <==> Stays(n1, r, mountPoint, c, p);
    }
  }

  /** A directory that has been wiped inside and is removed if that left it empty. */
  lemma WipedChild(n: Nodes, n1: Nodes, n2: Nodes, r: Exclusions.Rules, mountPoint: string, dir: Path, remaining: set<Path>, c: Path)
    requires Partly(n, n1, r, mountPoint, dir, remaining) && c in remaining && c in n && ChildOf(dir, c)
    requires !Barrier(n, r, mountPoint, c) && Wiped(n1, n2, r, mountPoint, c)
    ensures ChildDone(n, n1, if exists p :: p in n2 && Below(c, p) then n2 else n2 - {c}, r, mountPoint, dir, c)
  {
    ChildUntouched(n, n1, r, mountPoint, dir, remaining, c);
    WipedInside(n, n1, n2, r, mountPoint, dir, remaining, c);
    ChildSurvives(n, r, mountPoint, dir, c);
    assert Stays(n1, r, mountPoint, c, c);
    forall p | !(c <= p)
      ensures p in n2 <==> p in n1
    {
      assert p in n2 <==> Stays(n1, r, mountPoint, c, p);
    }
    RmdirDone(n, n1, n2, r, mountPoint, dir, c);
    hide Partly, Barrier, Survives, Wiped;
  }

  lemma RmdirDone(n: Nodes, n1: Nodes, n2: Nodes, r: Exclusions.Rules, mountPoint: string, dir: Path, c: Path)
    requires c in n && c in n2 && forall p | p in n2 :: p in n1 && n2[p] == n1[p]
    requires forall p | !(c <= p) :: p in n2 <==> p in n1
    requires forall p | Below(c, p) :: p in n2 <==> p in n && Survives(n, r, mountPoint, dir, p)
    requires Survives(n, r, mountPoint, dir, c) <==> exists p :: p in n2 && Below(c, p)
    ensures ChildDone(n, n1, if exists p :: p in n2 && Below(c, p) then n2 else n2 - {c}, r, mountPoint, dir, c)
  {
    hide Survives;
    var n3 := if exists p :: p in n2 && Below(c, p) then n2 else n2 - {c};
    forall p | c <= p
      ensures p in n3 <==> p in n && Survives(n, r, mountPoint, dir, p)
    {
      PrefixOrBelow(c, p);
    }
  }

  /** A directory whose wipe was given up: nothing that must stay is gone. */
  lemma AbandonedChild(n: Nodes, n1: Nodes, n2: Nodes, r: Exclusions.Rules, mountPoint: string, dir: Path, remaining: set<Path>, c: Path)
    requires Partly(n, n1, r, mountPoint, dir, remaining) && c in remaining && c in n && ChildOf(dir, c)
    requires !Barrier(n, r, mountPoint, c) && Safe(n1, n2, r, mountPoint, c)
    ensures Safe(n, n2, r, mountPoint, dir)
  {
    ChildUntouched(n, n1, r, mountPoint, dir, remaining, c);
    hide Barrier, Survives;
    forall p | Stays(n, r, mountPoint, dir, p)
      ensures p in n2
    {
      assert p in n1;
      if Below(c, p) {
        SurvivesInside(n, r, mountPoint, dir, c, p);
        assert Below(dir, p);
      }
      assert Stays(n1, r, mountPoint, c, p);
    }
  }

  lemma WipedIsSafe(n: Nodes, n': Nodes, r: Exclusions.Rules, mountPoint: string, dir: Path)
    requires Wiped(n, n', r, mountPoint, dir)
    ensures Safe(n, n', r, mountPoint, dir)
  {
  }

  /** After add_absolute_dir, in any spelling, a wipe leaves the path and everything below it. */
  lemma ExcludedIsSpared(n: Nodes, n': Nodes, r: Exclusions.Rules, mountPoint: string, dir: Path, p: Path, spelling: string)
    requires Spells(spelling, mountPoint, p) && Below(dir, p) && p in n
    requires Safe(n, n', r.(absolute := r.absolute + [Normal(spelling)]), mountPoint, dir)
    ensures forall x | x in n && p <= x :: x in n' && n'[x] == n[x]
  {
    var r' := r.(absolute := r.absolute + [Normal(spelling)]);
    NormalFacts(spelling);
    NormalIdempotent(spelling);
    assert Normal(spelling) in r'.absolute && Spells(Normal(spelling), mountPoint, p);
    assert Barrier(n, r', mountPoint, p);
    hide Barrier, Spells, Normal;
    forall x | x in n && p <= x
      ensures x in n' && n'[x] == n[x]
    {
      assert Survives(n, r', mountPoint, dir, x);
      assert Stays(n, r', mountPoint, dir, x);
    }
  }

  /** A name that is left out everywhere is left in every directory, with everything below it. */
  lemma NameIsSpared(n: Nodes, n': Nodes, r: Exclusions.Rules, mountPoint: string, dir: Path, p: Path)
    requires p != [] && p[|p| - 1] in r.relative && Below(dir, p) && p in n
    requires Safe(n, n', r, mountPoint, dir)
    ensures forall x | x in n && p <= x :: x in n' && n'[x] == n[x]
  {
    assert Barrier(n, r, mountPoint, p);
    hide Barrier;
    forall x | x in n && p <= x
      ensures x in n' && n'[x] == n[x]
    {
      assert Survives(n, r, mountPoint, dir, x);
      assert Stays(n, r, mountPoint, dir, x);
    }
  }

  // ---------------------------------------------------------------- the wipe

  class Disk {
    var nodes: Nodes
    /** Directories on which opendir fails. */
    const closed: set<Path>

    constructor (nodes: Nodes, closed: set<Path>)
      ensures this.nodes == nodes && this.closed == closed
    {
      this.nodes, this.closed := nodes, closed;
    }

    method Unlink(p: Path)
      modifies this
      ensures nodes == old(nodes) - {p}
    {
      nodes := nodes - {p};
    }

    /** rmdir succeeds on empty directories only. */
    method Rmdir(p: Path)
      modifies this
      ensures nodes == if exists q :: q in old(nodes) && Below(p, q) then old(nodes) else old(nodes) - {p}
    {
      if !(exists q :: q in nodes && Below(p, q)) {
        nodes := nodes - {p};
      }
    }

    /** The body of the loop, for one entry of `dir`; `n` is what there was at the beginning. */
    method WipeChild(r: Exclusions.Rules, mountPoint: string, dir: Path, c: Path, ghost n: Nodes, ghost remaining: set<Path>) returns (ok: bool)
      requires IsTree(n) && IsTree(nodes) && Partly(n, nodes, r, mountPoint, dir, remaining)
      requires c in remaining && c in n && c in nodes && ChildOf(dir, c)
      modifies this
      ensures ok ==> ChildDone(n, old(nodes), nodes, r, mountPoint, dir, c)
      ensures !ok ==> Safe(n, nodes, r, mountPoint, dir)
      ensures (forall p | p in old(nodes) :: p !in closed) ==> ok
      decreases set p | p in n && Below(dir, p), 0
    {
      ghost var n1 := nodes;
      assert n1[c] == n[c] && forall p | p in n1 :: p in n;
      hide Survives, IsTree, Partly, Safe, Wiped, ChildDone, Excluded, PathString, Exclusions.Skips;
      ProgramSkips(n, r, mountPoint, c);
      if Exclusions.Skips(r, PathString(mountPoint, c)) {
        KeptChild(n, n1, r, mountPoint, dir, remaining, c);
        return true;
      }
      if nodes[c] == Directory {
        FewerBelow(n, n1, dir, c);
        ok := WipeDir(r, mountPoint, c);
        if !ok {
          AbandonedChild(n, n1, nodes, r, mountPoint, dir, remaining, c);
          return false;
        }
        WipedChild(n, n1, nodes, r, mountPoint, dir, remaining, c);
        Rmdir(c);
      } else if Removable(nodes[c]) {
        UnlinkedChild(n, n1, r, mountPoint, dir, remaining, c);
        Unlink(c);
      } else {
        KeptChild(n, n1, r, mountPoint, dir, remaining, c);
      }
      return true;
    }

    /** Wipe_Data_Without_Wiping_Media_Func */
    method WipeDir(r: Exclusions.Rules, mountPoint: string, dir: Path) returns (ok: bool)
      requires IsTree(nodes)
      modifies this
      ensures Safe(old(nodes), nodes, r, mountPoint, dir)
      ensures ok ==> Wiped(old(nodes), nodes, r, mountPoint, dir)
      ensures (forall p | p in old(nodes) :: p !in closed) && dir !in closed ==> ok
      decreases set p | p in nodes && Below(dir, p), 1
    {
      if dir in closed {
        return false;
      }
      ghost var n := nodes;
      var remaining := Children(nodes, dir);
      LoopStarts(n, r, mountPoint, dir);
      while remaining != {}
        invariant remaining <= Children(n, dir)
        invariant Partly(n, nodes, r, mountPoint, dir, remaining)
        decreases remaining
      {
        var c :| c in remaining;
        ghost var n1 := nodes;
        ChildUntouched(n, n1, r, mountPoint, dir, remaining, c);
        PartlyIsTree(n, n1, r, mountPoint, dir, remaining);
        assert forall p | p in n1 :: p in n;
        hide Survives, IsTree, Partly, Safe, Wiped, ChildDone;
        ok := WipeChild(r, mountPoint, dir, c, n, remaining);
        if !ok {
          return false;
        }
        ChildStep(n, n1, nodes, r, mountPoint, dir, remaining, c);
        remaining := remaining - {c};
      }
      LoopEnds(n, nodes, r, mountPoint, dir);
      WipedIsSafe(n, nodes, r, mountPoint, dir);
      return true;
    }

    /** Wipe_Data_Without_Wiping_Media */
    method WipeWithoutMedia(r: Exclusions.Rules, mountPoint: string, mounted: bool) returns (ok: bool)
      requires IsTree(nodes)
      modifies this
      ensures !mounted ==> !ok && nodes == old(nodes)
      ensures mounted ==> Safe(old(nodes), nodes, r, mountPoint, [])
      ensures ok ==> Wiped(old(nodes), nodes, r, mountPoint, [])
    {
      if !mounted {
        return false;
      }
      ok := WipeDir(r, mountPoint, []);
    }
  }

  lemma FewerBelow(n: Nodes, n1: Nodes, dir: Path, c: Path)
    requires c in n && ChildOf(dir, c) && forall p | p in n1 :: p in n
    ensures (set p | p in n1 && Below(c, p)) < (set p | p in n && Below(dir, p))
  {
    var inner, outer := set p | p in n1 && Below(c, p), set p | p in n && Below(dir, p);
    assert c in outer && c !in inner;
    assert forall p | p in inner :: p in outer;
  }
}
