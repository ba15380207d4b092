/**
 find_file.cpp: searching directories, and directories behind symbolic links, for a regular file.
 Links may form cycles; directories already searched are remembered.
 */
module FindFile {

  datatype Kind = Directory | Link | Regular | Other

  datatype DirEntry = DirEntry(name: string, kind: Kind)

  /** The listing of every path that can be opened as a directory, and the result of realpath where it succeeds. */
  datatype FileSystem = FileSystem(dirs: map<string, seq<DirEntry>>, targets: map<string, string>)

  predicate Dot(name: string) {
    name == "." || name == ".."
  }

  function Join(dir: string, name: string): (path: string)
    ensures path != ""
  {
    dir + "/" + name
  }

  /** Listing entry `e` of `dir` leads the search to `path`. */
  predicate Leads(fs: FileSystem, dir: string, e: DirEntry, path: string) {
    && !Dot(e.name)
    && match e.kind
       case Directory => path == Join(dir, e.name)
       case Link => Join(dir, e.name) in fs.targets && path == fs.targets[Join(dir, e.name)]
       case _ => false
  }

  predicate Edge(fs: FileSystem, dir: string, path: string) {
    dir in fs.dirs && exists i :: 0 <= i < |fs.dirs[dir]| && Leads(fs, dir, fs.dirs[dir][i], path)
  }

  predicate Matches(e: DirEntry, filename: string) {
    e.kind == Regular && e.name == filename && !Dot(e.name)
  }

  /** An openable directory that contains a regular file of that name. */
  predicate Contains(fs: FileSystem, dir: string, filename: string) {
    dir in fs.dirs && exists i :: 0 <= i < |fs.dirs[dir]| && Matches(fs.dirs[dir][i], filename)
  }

  predicate IsPath(fs: FileSystem, path: seq<string>) {
    forall i | 0 <= i < |path| - 1 :: Edge(fs, path[i], path[i + 1])
  }

  ghost predicate Reachable(fs: FileSystem, start: string, dir: string) {
    exists path: seq<string> :: path != [] && path[0] == start && path[|path| - 1] == dir && IsPath(fs, path)
  }

  /** One step of the search: into a real directory, or to where a link leads, but never into "." or "..". */
  lemma EdgeExactlyWhen(fs: FileSystem, dir: string, path: string)
    ensures Edge(fs, dir, path) <==>
            && dir in fs.dirs
            && (exists e | e in fs.dirs[dir] ::
                  && e.name != "." && e.name != ".."
                  && (|| (e.kind == Directory && path == dir + "/" + e.name)
                      || (e.kind == Link && dir + "/" + e.name in fs.targets && path == fs.targets[dir + "/" + e.name])))
  {
    if dir in fs.dirs {
      if i :| 0 <= i < |fs.dirs[dir]| && Leads(fs, dir, fs.dirs[dir][i], path) {
        assert fs.dirs[dir][i] in fs.dirs[dir];
      }
      if e :| e in fs.dirs[dir] && Leads(fs, dir, e, path) {
        var i :| 0 <= i < |fs.dirs[dir]| && fs.dirs[dir][i] == e;
      }
    }
  }

  /** A match is a regular file of that name in a directory that can be opened. */
  lemma ContainsExactlyWhen(fs: FileSystem, dir: string, filename: string)
    ensures Contains(fs, dir, filename) <==>
            dir in fs.dirs && DirEntry(filename, Regular) in fs.dirs[dir] && filename != "." && filename != ".."
  {
    if dir in fs.dirs {
      if i :| 0 <= i < |fs.dirs[dir]| && Matches(fs.dirs[dir][i], filename) {
        assert fs.dirs[dir][i] == DirEntry(filename, Regular);
      }
      if DirEntry(filename, Regular) in fs.dirs[dir] {
        var i :| 0 <= i < |fs.dirs[dir]| && fs.dirs[dir][i] == DirEntry(filename, Regular);
        assert filename != "." && filename != ".." ==> Matches(fs.dirs[dir][i], filename);
      }
    }
  }

  lemma ReachableSelf(fs: FileSystem, start: string)
    ensures Reachable(fs, start, start)
  {
    var path := [start];
    assert path[0] == start && path[|path| - 1] == start && IsPath(fs, path);
  }

  lemma ReachableStep(fs: FileSystem, start: string, next: string, dir: string)
    requires Edge(fs, start, next) && Reachable(fs, next, dir)
    ensures Reachable(fs, start, dir)
  {
    var path :| path != [] && path[0] == next && path[|path| - 1] == dir && IsPath(fs, path);
    var longer := [start] + path;
    forall i | 0 <= i < |longer| - 1
      ensures Edge(fs, longer[i], longer[i + 1])
    {
      if i > 0 {
        assert longer[i] == path[i - 1] && longer[i + 1] == path[i];
      }
    }
    assert longer[0] == start && longer[|longer| - 1] == dir && IsPath(fs, longer);
  }

  /** Every searched directory that is not in `open` has been dealt with: no match, and all it leads to is searched. */
  ghost predicate Dealt(fs: FileSystem, filename: string, searched: seq<string>, open: set<string>) {
    forall d | d in searched && d !in open ::
      !Contains(fs, d, filename) && forall p :: Edge(fs, d, p) ==> p in searched
  }

  lemma {:induction false} DealtCoversPath(fs: FileSystem, filename: string, searched: seq<string>, path: seq<string>, i: nat)
    requires Dealt(fs, filename, searched, {}) && IsPath(fs, path) && i < |path| && path[0] in searched
    ensures path[i] in searched
  {
    if i > 0 {
      DealtCoversPath(fs, filename, searched, path, i - 1);
      assert Edge(fs, path[i - 1], path[i - 1 + 1]);
    }
  }

  /** A searched set that has been dealt with completely contains everything reachable, and no match. */
  lemma NothingReachableMatches(fs: FileSystem, filename: string, searched: seq<string>, start: string)
    requires Dealt(fs, filename, searched, {}) && start in searched
    ensures forall d :: Reachable(fs, start, d) ==> !Contains(fs, d, filename)
  {
    forall d | Reachable(fs, start, d)
      ensures !Contains(fs, d, filename)
    {
      var path :| path != [] && path[0] == start && path[|path| - 1] == d && IsPath(fs, path);
      DealtCoversPath(fs, filename, searched, path, |path| - 1);
    }
  }

  /** The result names a regular file of the right name in a reachable directory. */
  ghost predicate Found(fs: FileSystem, filename: string, start: string, result: string) {
    exists d :: Reachable(fs, start, d) && Contains(fs, d, filename) && result == Join(d, filename)
  }

  lemma FoundStep(fs: FileSystem, filename: string, start: string, next: string, result: string)
    requires Edge(fs, start, next) && Found(fs, filename, next, result)
    ensures Found(fs, filename, start, result)
  {
    var d :| Reachable(fs, next, d) && Contains(fs, d, filename) && result == Join(d, filename);
    ReachableStep(fs, start, next, d);
  }

  function Elements(s: seq<string>): set<string> {
    set x | x in s
  }

  class Searcher {
    var searchedDirs: seq<string>

    constructor ()
      ensures searchedDirs == []
    {
      searchedDirs := [];
    }

    /** The readdir loop: the match in this directory if there is one, and otherwise where to look next. */
    method Scan(fs: FileSystem, filename: string, dir: string) returns (found: string, dirs: seq<string>, links: seq<string>)
      requires dir in fs.dirs
      ensures found != "" ==> Contains(fs, dir, filename) && found == Join(dir, filename)
      ensures found == "" ==> !Contains(fs, dir, filename)
      ensures found == "" ==> forall p :: Edge(fs, dir, p) <==> p in dirs || exists l :: l in links && l in fs.targets && p == fs.targets[l]
    {
      var entries := fs.dirs[dir];
      found, dirs, links := "", [], [];
      var k := 0;
      while k < |entries|
        invariant k <= |entries|
        invariant forall i | 0 <= i < k :: !Matches(entries[i], filename)
        invariant forall p :: p in dirs <==> exists i :: 0 <= i < k && entries[i].kind == Directory && Leads(fs, dir, entries[i], p)
        invariant forall l :: l in links <==> exists i :: 0 <= i < k && entries[i].kind == Link && !Dot(entries[i].name) && l == Join(dir, entries[i].name)
      {
        var e := entries[k];
        if Dot(e.name) {
        } else if e.kind == Directory {
          dirs := dirs + [Join(dir, e.name)];
        } else if e.kind == Link {
          links := links + [Join(dir, e.name)];
        } else if e.kind == Regular && filename == e.name {
          assert Matches(fs.dirs[dir][k], filename);
          return Join(dir, e.name), [], [];
        }
        k := k + 1;
      }
      LeadsTo(fs, dir, dirs, links);
    }

    /** Find_File::Find_Internal */
    method FindInternal(fs: FileSystem, filename: string, startingPath: string) returns (result: string)
      modifies this
      ensures old(searchedDirs) <= searchedDirs
      ensures result != "" ==> Found(fs, filename, startingPath, result)
      ensures startingPath !in old(searchedDirs) && Contains(fs, startingPath, filename) ==> result == startingPath + "/" + filename
      ensures result == "" ==> startingPath in searchedDirs && Dealt(fs, filename, searchedDirs, Elements(old(searchedDirs)))
      decreases Left(fs, searchedDirs), 0
    {
      if startingPath in searchedDirs {
        return "";
      }
      ghost var before := searchedDirs;
      searchedDirs := searchedDirs + [startingPath];
      if startingPath !in fs.dirs {
        return "";
      }
      LeftShrinks(fs, before, startingPath);
      var dirs, links;
      result, dirs, links := Scan(fs, filename, startingPath);
      if result != "" {
        ReachableSelf(fs, startingPath);
        return;
      }
      ghost var open := Elements(before) + {startingPath};
      hide Edge, Contains, Reachable, Found, Dealt, Left;
      assert Dealt(fs, filename, searchedDirs, open) by { OnlyOpen(fs, filename, before, startingPath); }
      ghost var was := searchedDirs;
      result := SearchDirs(fs, filename, startingPath, dirs);
      if result != "" {
        return;
      }
      DealtMore(fs, filename, was, searchedDirs, open);
      LeftMonotone(fs, was, searchedDirs);
      was := searchedDirs;
      result := SearchLinks(fs, filename, startingPath, links);
      if result != "" {
        return;
      }
      DealtMore(fs, filename, was, searchedDirs, open);
      DirectoryDone(fs, filename, searchedDirs, before, startingPath, dirs, links);
    }

    /** The loop over the real directories of `from`. */
    method SearchDirs(fs: FileSystem, filename: string, from: string, dirs: seq<string>) returns (result: string)
      requires forall i | 0 <= i < |dirs| :: Edge(fs, from, dirs[i])
      modifies this
      ensures old(searchedDirs) <= searchedDirs
      ensures result != "" ==> Found(fs, filename, from, result)
      ensures result == "" ==> forall i | 0 <= i < |dirs| :: dirs[i] in searchedDirs
      ensures result == "" ==> Dealt(fs, filename, searchedDirs, Elements(old(searchedDirs)))
      decreases Left(fs, searchedDirs), 1
    {
      ghost var open := Elements(searchedDirs);
      var index := 0;
      result := "";
      assert Dealt(fs, filename, searchedDirs, open);
      hide Edge, Contains, Reachable, Found, Dealt, Left;
      while index < |dirs|
        invariant index <= |dirs| && old(searchedDirs) <= searchedDirs && result == ""
        invariant forall i | 0 <= i < index :: dirs[i] in searchedDirs
        invariant Dealt(fs, filename, searchedDirs, open)
      {
        ghost var was := searchedDirs;
        LeftMonotone(fs, old(searchedDirs), searchedDirs);
        result := FindInternal(fs, filename, dirs[index]);
        if result != "" {
          FoundStep(fs, filename, from, dirs[index], result);
          return;
        }
        DealtMore(fs, filename, was, searchedDirs, open);
        index := index + 1;
      }
    }

    /** The loop over the symbolic links of `from`. */
    method SearchLinks(fs: FileSystem, filename: string, from: string, links: seq<string>) returns (result: string)
      requires forall i | 0 <= i < |links| :: links[i] in fs.targets ==> Edge(fs, from, fs.targets[links[i]])
      modifies this
      ensures old(searchedDirs) <= searchedDirs
      ensures result != "" ==> Found(fs, filename, from, result)
      ensures result == "" ==> forall i | 0 <= i < |links| :: links[i] in fs.targets ==> fs.targets[links[i]] in searchedDirs
      ensures result == "" ==> Dealt(fs, filename, searchedDirs, Elements(old(searchedDirs)))
      decreases Left(fs, searchedDirs), 1
    {
      ghost var open := Elements(searchedDirs);
      var index := 0;
      result := "";
      assert Dealt(fs, filename, searchedDirs, open);
      hide Edge, Contains, Reachable, Found, Dealt, Left;
      while index < |links|
        invariant index <= |links| && old(searchedDirs) <= searchedDirs && result == ""
        invariant forall i | 0 <= i < index :: links[i] in fs.targets ==> fs.targets[links[i]] in searchedDirs
        invariant Dealt(fs, filename, searchedDirs, open)
      {
        if links[index] in fs.targets {
          ghost var was := searchedDirs;
          LeftMonotone(fs, old(searchedDirs), searchedDirs);
          result := FindInternal(fs, filename, fs.targets[links[index]]);
          if result != "" {
            FoundStep(fs, filename, from, fs.targets[links[index]], result);
            return;
          }
          DealtMore(fs, filename, was, searchedDirs, open);
        }
        index := index + 1;
      }
    }
  }

  /** Openable directories that have not been searched; there are fewer on every level of the recursion. */
  function Left(fs: FileSystem, searched: seq<string>): set<string> {
    fs.dirs.Keys - Elements(searched)
  }

  lemma LeftShrinks(fs: FileSystem, searched: seq<string>, dir: string)
    requires dir in fs.dirs && dir !in searched
    ensures Left(fs, searched + [dir]) < Left(fs, searched)
  {
    assert dir in Left(fs, searched) && dir !in Left(fs, searched + [dir]);
  }

  lemma LeftMonotone(fs: FileSystem, was: seq<string>, now: seq<string>)
    requires was <= now
    ensures Left(fs, now) <= Left(fs, was)
  {
  }

  lemma OnlyOpen(fs: FileSystem, filename: string, before: seq<string>, start: string)
    ensures Dealt(fs, filename, before + [start], Elements(before) + {start})
  {
  }

  /** Once its entries have been searched, a directory without a match is dealt with itself. */
  lemma DirectoryDone(fs: FileSystem, filename: string, searched: seq<string>, before: seq<string>, start: string,
                      dirs: seq<string>, links: seq<string>)
    requires Dealt(fs, filename, searched, Elements(before) + {start}) && !Contains(fs, start, filename)
    requires forall i | 0 <= i < |dirs| :: dirs[i] in searched
    requires forall i | 0 <= i < |links| :: links[i] in fs.targets ==> fs.targets[links[i]] in searched
    requires forall p :: Edge(fs, start, p) <==> p in dirs || exists l :: l in links && l in fs.targets && p == fs.targets[l]
    ensures Dealt(fs, filename, searched, Elements(before))
  {
    hide Edge, Contains;
  }

  lemma LeadsTo(fs: FileSystem, dir: string, dirs: seq<string>, links: seq<string>)
    requires dir in fs.dirs
    requires var entries := fs.dirs[dir];
             && (forall p :: p in dirs <==> exists i :: 0 <= i < |entries| && entries[i].kind == Directory && Leads(fs, dir, entries[i], p))
             && (forall l :: l in links <==> exists i :: 0 <= i < |entries| && entries[i].kind == Link && !Dot(entries[i].name) && l == Join(dir, entries[i].name))
    ensures forall p :: Edge(fs, dir, p) <==> p in dirs || exists l :: l in links && l in fs.targets && p == fs.targets[l]
  {
    var entries := fs.dirs[dir];
    forall p
      ensures Edge(fs, dir, p) <==> p in dirs || exists l :: l in links && l in fs.targets && p == fs.targets[l]
    {
      if Edge(fs, dir, p) {
        var i :| 0 <= i < |entries| && Leads(fs, dir, entries[i], p);
        if entries[i].kind == Link {
          assert Join(dir, entries[i].name) in links;
        }
      } else if l :| l in links && l in fs.targets && p == fs.targets[l] {
        var i :| 0 <= i < |entries| && entries[i].kind == Link && !Dot(entries[i].name) && l == Join(dir, entries[i].name);
        assert Leads(fs, dir, entries[i], p);
      }
    }
  }

  /** What had been dealt with stays dealt with, and a recursive search deals with everything it adds. */
  lemma DealtMore(fs: FileSystem, filename: string, was: seq<string>, now: seq<string>, open: set<string>)
    requires was <= now && Dealt(fs, filename, was, open) && Dealt(fs, filename, now, Elements(was))
    ensures Dealt(fs, filename, now, open)
  {
  }

  /** Find_File::Find: the search ends, whatever the links are, and it misses nothing. */
  method Find(fs: FileSystem, filename: string, startPath: string) returns (result: string)
    ensures result != "" ==> Found(fs, filename, startPath, result)
    ensures result == "" <==> forall d :: Reachable(fs, startPath, d) ==> !Contains(fs, d, filename)
    ensures Contains(fs, startPath, filename) ==> result == startPath + "/" + filename
  {
    var searcher := new Searcher();
    result := searcher.FindInternal(fs, filename, startPath);
    if result == "" {
      NothingReachableMatches(fs, filename, searcher.searchedDirs, startPath);
    }
  }
}
