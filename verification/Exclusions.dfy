/** exclude.cpp: which paths a backup or a wipe leaves out, and how large a folder is without them. */
module Exclusions {
  import opened Machine
  import opened Paths

  /** Names that are left out in every directory, and normalised paths that are left out. */
  datatype Rules = Rules(relative: seq<string>, absolute: seq<string>)

  const NO_RULES: Rules := Rules([], [])

  /** Position of the last slash, or -1. */
  function LastSlash(s: string): (i: int)
    ensures -1 <= i < |s|
    ensures i >= 0 ==> s[i] == '/'
    ensures forall k | i < k < |s| :: s[k] != '/'
  {
    if s == "" then -1 else if s[|s| - 1] == '/' then |s| - 1 else LastSlash(s[..|s| - 1])
  }

  /** TWExclude::check_skip_dirs */
  predicate Skips(r: Rules, path: string) {
    var n := Normal(path);
    var i := LastSlash(n);
    (i >= 0 && i + 1 < |n| && n[i + 1..] in r.relative) || n in r.absolute
  }

  lemma LastSlashUnique(s: string, name: string, i: int)
    requires IsName(name) && 0 <= i < |s| && s[i] == '/' && s[i + 1..] == name
    ensures LastSlash(s) == i
  {
    assert forall k | i < k < |s| :: s[k] == name[k - i - 1] && name[k - i - 1] in name;
  }

  lemma {:induction false} LastNameOfJoin(names: seq<string>)
    requires AllNames(names) && |names| >= 2
    ensures var s := JoinNames(names); var last := names[|names| - 1];
            0 <= |s| - |last| - 1 < |s| && s[|s| - |last| - 1] == '/' && s[|s| - |last|..] == last
  {
    if |names| == 2 {
      assert JoinNames(names) == names[0] + "/" + JoinNames(names[1..]) && JoinNames(names[1..]) == names[1];
    } else {
      LastNameOfJoin(names[1..]);
    }
  }

  lemma NoSlashInName(name: string)
    requires IsName(name)
    ensures LastSlash(name) == -1
  {
    assert forall k | 0 <= k < |name| :: name[k] in name;
  }

  lemma LastBehind(front: string, joined: string, last: string)
    requires IsName(last) && |last| < |joined| && joined[|joined| - |last| - 1] == '/' && joined[|joined| - |last|..] == last
    ensures var n := front + joined; var i := LastSlash(n); 0 <= i && i + 1 < |n| && n[i + 1..] == last
  {
    var n := front + joined;
    assert n[|n| - |last|..] == last;
    LastSlashUnique(n, last, |n| - |last| - 1);
  }

  /** What check_skip_dirs finds behind the last slash of the normalised path. */
  lemma BehindLastSlash(path: string)
    ensures var names, n := Components(path), Normal(path);
            var i := LastSlash(n);
            if names != [] && (Absolute(path) || |names| > 1)
            then 0 <= i && i + 1 < |n| && n[i + 1..] == names[|names| - 1]
            else i == -1
  {
    var names, n := Components(path), Normal(path);
    PiecesAreNames("", path);
    NormalFacts(path);
    hide Components, LastSlash;
    if names != [] {
      var last := names[|names| - 1];
      assert IsName(last);
      if |names| > 1 {
        LastNameOfJoin(names);
        hide JoinNames;
        LastBehind(if Absolute(path) then "/" else "", JoinNames(names), last);
      } else if Absolute(path) {
        assert n == "/" + last && n[1..] == last;
        LastSlashUnique(n, last, 0);
      } else {
        assert n == "" + last == last;
        NoSlashInName(last);
      }
    }
  }

  /** A path is left out if its last name is a relative rule, provided it has a directory before that name, or if it is an absolute rule. */
  lemma SkipsMeaning(r: Rules, path: string)
    ensures var names := Components(path);
            Skips(r, path) <==>
              || (names != [] && (Absolute(path) || |names| > 1) && names[|names| - 1] in r.relative)
              || Normal(path) in r.absolute
  {
    hide Components, LastSlash, Normal;
    BehindLastSlash(path);
  }

  /** All spellings of a path are treated alike. */
  lemma SpellingsAgree(r: Rules, p: string, q: string)
    requires Components(p) == Components(q) && Absolute(p) == Absolute(q)
    ensures Skips(r, p) == Skips(r, q)
  {
    SameNormalExactlyWhen(p, q);
  }

  /** After add_absolute_dir, every spelling of the directory is left out. */
  lemma AddedDirIsSkipped(r: Rules, dir: string, path: string)
    requires Components(path) == Components(dir) && (Components(dir) == [] || Absolute(path) == Absolute(dir))
    ensures Skips(r.(absolute := r.absolute + [Normal(dir)]), path)
  {
    SameNormalExactlyWhen(path, dir);
  }

  // ---------------------------------------------------------------- folder sizes

  datatype Mode = Directory | Regular | Link | Fifo | Socket | CharDevice | BlockDevice

  /** One directory entry as lstat and readdir show it. */
  datatype Item = Item(name: string, mode: Mode, size: nat, statOk: bool, entries: seq<Item>)

  /** st_mode & S_IFDIR: the bit is also set in the codes of sockets and block devices. */
  predicate DirectoryBit(mode: Mode) {
    mode == Directory || mode == Socket || mode == BlockDevice
  }

  /** st_mode & S_IFREG || st_mode & S_IFLNK */
  predicate FileBits(mode: Mode) {
    mode == Regular || mode == Link || mode == Socket || mode == CharDevice || mode == BlockDevice
  }

  /** A folder's size before the 64-bit accumulator is taken into account. */
  function FolderSize(r: Rules, path: string, entries: seq<Item>): nat
    decreases entries, 0
  {
    if entries == [] then 0 else ItemSize(r, path, entries[0]) + FolderSize(r, path, entries[1..])
  }

  function ItemSize(r: Rules, path: string, e: Item): nat
    decreases e, 1
  {
    var full := path + "/" + e.name;
    if !e.statOk then 0
    else if DirectoryBit(e.mode) && !Skips(r, full) && e.mode != Socket then FolderSize(r, full, e.entries)
    else if FileBits(e.mode) then e.size
    else 0
  }

  /** Size of everything that lies below directories that are left out. */
  function SkippedSize(r: Rules, path: string, entries: seq<Item>): nat
    decreases entries, 0
  {
    if entries == [] then 0 else SkippedItem(r, path, entries[0]) + SkippedSize(r, path, entries[1..])
  }

  function SkippedItem(r: Rules, path: string, e: Item): nat
    decreases e, 1
  {
    var full := path + "/" + e.name;
    if !e.statOk || e.mode != Directory then 0
    else if Skips(r, full) then FolderSize(NO_RULES, full, e.entries)
    else SkippedSize(r, full, e.entries)
  }

  /** Only directories have entries, and block devices have no size. */
  predicate Sane(entries: seq<Item>)
    decreases entries, 0
  {
    forall i | 0 <= i < |entries| :: SaneItem(entries[i])
  }

  predicate SaneItem(e: Item)
    decreases e, 1
  {
    (e.mode == BlockDevice ==> e.entries == [] && e.size == 0) && Sane(e.entries)
  }

  /** What is counted and what is left out add up to the whole. */
  lemma {:induction false} SizesAddUp(r: Rules, path: string, entries: seq<Item>)
    requires Sane(entries)
    ensures FolderSize(r, path, entries) + SkippedSize(r, path, entries) == FolderSize(NO_RULES, path, entries)
    decreases entries, 0
  {
    if entries != [] {
      assert SaneItem(entries[0]);
      ItemAddsUp(r, path, entries[0]);
      SizesAddUp(r, path, entries[1..]);
    }
  }

  lemma {:induction false} ItemAddsUp(r: Rules, path: string, e: Item)
    requires SaneItem(e)
    ensures ItemSize(r, path, e) + SkippedItem(r, path, e) == ItemSize(NO_RULES, path, e)
    decreases e, 1
  {
    var full := path + "/" + e.name;
    hide LastSlash;
    assert !Skips(NO_RULES, full);
    SizesAddUp(r, full, e.entries);
    hide Skips;
    if e.mode == BlockDevice {
      assert FolderSize(r, full, e.entries) == 0 && FolderSize(NO_RULES, full, e.entries) == 0;
    }
  }

  predicate Includes(r: Rules, r': Rules) {
    (forall x | x in r.relative :: x in r'.relative) && (forall x | x in r.absolute :: x in r'.absolute)
  }

  lemma {:induction false} MoreIsSkipped(r: Rules, r': Rules, path: string, entries: seq<Item>)
    requires Sane(entries) && Includes(r, r')
    ensures SkippedSize(r, path, entries) <= SkippedSize(r', path, entries)
    decreases entries, 0
  {
    if entries != [] {
      assert SaneItem(entries[0]);
      MoreItemIsSkipped(r, r', path, entries[0]);
      MoreIsSkipped(r, r', path, entries[1..]);
    }
  }

  lemma {:induction false} MoreItemIsSkipped(r: Rules, r': Rules, path: string, e: Item)
    requires SaneItem(e) && Includes(r, r')
    ensures SkippedItem(r, path, e) <= SkippedItem(r', path, e)
    decreases e, 1
  {
    hide Skips, Includes;
    var full := path + "/" + e.name;
    if Skips(r, full) {
      MoreRulesSkipMore(r, r', full);
    }
    MoreIsSkipped(r, r', full, e.entries);
    SizesAddUp(r, full, e.entries);
  }

  lemma MoreRulesSkipMore(r: Rules, r': Rules, path: string)
    requires Includes(r, r') && Skips(r, path)
    ensures Skips(r', path)
  {
    hide LastSlash, Normal;
  }

  /** More rules never make a folder larger. */
  lemma MoreRulesLessSize(r: Rules, r': Rules, path: string, entries: seq<Item>)
    requires Sane(entries) && Includes(r, r')
    ensures FolderSize(r', path, entries) <= FolderSize(r, path, entries)
  {
    SizesAddUp(r, path, entries);
    SizesAddUp(r', path, entries);
    MoreIsSkipped(r, r', path, entries);
  }

  // ---------------------------------------------------------------- what the sizes are sums of

  /** The file type bits of st_mode, and the masks S_IFDIR, S_IFREG and S_IFLNK that the program tests them with. */
  function TypeBits(mode: Mode): bv16 {
    match mode
    case Directory => 0x4000
    case Regular => 0x8000
    case Link => 0xA000
    case Fifo => 0x1000
    case Socket => 0xC000
    case CharDevice => 0x2000
    case BlockDevice => 0x6000
  }

  lemma BitsDecide(mode: Mode)
    ensures DirectoryBit(mode) <==> TypeBits(mode) & 0x4000 != 0
    ensures FileBits(mode) <==> TypeBits(mode) & 0x8000 != 0 || TypeBits(mode) & 0xA000 != 0
  {
    match mode {
      case Directory => assert TypeBits(mode) & 0xA000 == 0;
      case Regular =>
      case Link =>
      case Fifo =>
      case Socket =>
      case CharDevice =>
      case BlockDevice =>
    }
  }

  /** One file or link of a tree, and the directories that it lies in. */
  datatype Leaf = Leaf(way: seq<string>, size: nat)

  function Leaves(way: seq<string>, path: string, entries: seq<Item>): seq<Leaf>
    decreases entries, 0
  {
    if entries == [] then [] else LeavesOf(way, path, entries[0]) + Leaves(way, path, entries[1..])
  }

  /** Nothing is known of an entry that cannot be looked at; pipes and block devices have no size. */
  function LeavesOf(way: seq<string>, path: string, e: Item): seq<Leaf>
    decreases e, 1
  {
    var full := path + "/" + e.name;
    if !e.statOk then []
    else
      match e.mode
      case Directory => Leaves(way + [full], full, e.entries)
      case Regular | Link | Socket | CharDevice => [Leaf(way, e.size)]
      case Fifo | BlockDevice => []
  }

  /** Some directory on the way is left out. */
  predicate LeftOut(r: Rules, way: seq<string>) {
    exists i :: 0 <= i < |way| && Skips(r, way[i])
  }

  function SumOf(leaves: seq<Leaf>): nat {
    if leaves == [] then 0 else leaves[0].size + SumOf(leaves[1..])
  }

  function NotLeftOut(r: Rules, leaves: seq<Leaf>): seq<Leaf> {
    if leaves == [] then []
    else (if LeftOut(r, leaves[0].way) then [] else [leaves[0]]) + NotLeftOut(r, leaves[1..])
  }

  lemma {:induction false} SumOfConcat(a: seq<Leaf>, b: seq<Leaf>)
    ensures SumOf(a + b) == SumOf(a) + SumOf(b)
  {
    if a == [] {
      assert a + b == b;
    } else {
      assert (a + b)[1..] == a[1..] + b;
      SumOfConcat(a[1..], b);
    }
  }

  lemma {:induction false} NotLeftOutConcat(r: Rules, a: seq<Leaf>, b: seq<Leaf>)
    ensures NotLeftOut(r, a + b) == NotLeftOut(r, a) + NotLeftOut(r, b)
  {
    if a == [] {
      assert a + b == b;
    } else {
      assert (a + b)[1..] == a[1..] + b;
      hide LeftOut;
      NotLeftOutConcat(r, a[1..], b);
    }
  }

  lemma LeftOutMore(r: Rules, way: seq<string>, full: string)
    ensures LeftOut(r, way + [full]) <==> LeftOut(r, way) || Skips(r, full)
  {
    hide Skips;
    var more := way + [full];
    assert more[|way|] == full;
    if i :| 0 <= i < |way| && Skips(r, way[i]) {
      assert more[i] == way[i];
    }
  }

  /** Behind a directory that is left out, nothing counts. */
  lemma {:induction false} LeavesLeftOut(r: Rules, way: seq<string>, path: string, entries: seq<Item>)
    ensures LeftOut(r, way) ==> NotLeftOut(r, Leaves(way, path, entries)) == []
    ensures !LeftOut(r, way) && Sane(entries) ==>
              SumOf(NotLeftOut(r, Leaves(way, path, entries))) == FolderSize(r, path, entries)
    decreases entries, 0
  {
    hide LeftOut;
    if entries != [] {
      LeafLeftOut(r, way, path, entries[0]);
      LeavesLeftOut(r, way, path, entries[1..]);
      var first, rest := LeavesOf(way, path, entries[0]), Leaves(way, path, entries[1..]);
      NotLeftOutConcat(r, first, rest);
      SumOfConcat(NotLeftOut(r, first), NotLeftOut(r, rest));
      assert Sane(entries) ==> SaneItem(entries[0]) && Sane(entries[1..]);
      hide LeavesOf, ItemSize, Skips;
    }
  }

  lemma {:induction false} LeafLeftOut(r: Rules, way: seq<string>, path: string, e: Item)
    ensures LeftOut(r, way) ==> NotLeftOut(r, LeavesOf(way, path, e)) == []
    ensures !LeftOut(r, way) && SaneItem(e) ==> SumOf(NotLeftOut(r, LeavesOf(way, path, e))) == ItemSize(r, path, e)
    decreases e, 1
  {
    hide LeftOut, Skips, SumOf, NotLeftOut;
    var full := path + "/" + e.name;
    OneLeaf(r, Leaf(way, e.size));
    if e.statOk && e.mode == Directory {
      LeavesLeftOut(r, way + [full], full, e.entries);
      LeftOutMore(r, way, full);
    }
  }

  lemma OneLeaf(r: Rules, l: Leaf)
    ensures NotLeftOut(r, []) == [] && SumOf([]) == 0 && SumOf([l]) == l.size
    ensures NotLeftOut(r, [l]) == if LeftOut(r, l.way) then [] else [l]
  {
    hide LeftOut;
    assert [l][1..] == [];
  }

  /** The size of a folder is the sum over all files and links in it with no directory on their way that is left out. */
  lemma FolderSizeIsSum(r: Rules, path: string, entries: seq<Item>)
    requires Sane(entries)
    ensures FolderSize(r, path, entries) == SumOf(NotLeftOut(r, Leaves([], path, entries)))
    ensures FolderSize(NO_RULES, path, entries) == SumOf(Leaves([], path, entries))
  {
    LeavesLeftOut(r, [], path, entries);
    LeavesLeftOut(NO_RULES, [], path, entries);
    NothingLeftOut(Leaves([], path, entries));
  }

  lemma {:induction false} NothingLeftOut(leaves: seq<Leaf>)
    ensures NotLeftOut(Rules([], []), leaves) == leaves
  {
    if leaves != [] {
      NothingLeftOut(leaves[1..]);
      hide LastSlash, Normal;
    }
  }

  // ---------------------------------------------------------------- the class

  function Without(names: seq<string>, name: string): seq<string> {
    if names == [] then []
    else if names[0] == name then Without(names[1..], name)
    else [names[0]] + Without(names[1..], name)
  }

  /** Of a list in three parts, the middle one being one name, exactly that name may go. */
  lemma WithoutInPlace(a: seq<string>, x: string, b: seq<string>, name: string)
    ensures Without(a + [x] + b, name) == Without(a, name) + (if x == name then [] else [x]) + Without(b, name)
    ensures Without([], name) == []
  {
    assert [x][1..] == [];
    WithoutConcat(a, [x], name);
    WithoutConcat(a + [x], b, name);
  }

  lemma {:induction false} WithoutConcat(a: seq<string>, b: seq<string>, name: string)
    ensures Without(a + b, name) == Without(a, name) + Without(b, name)
  {
    if a == [] {
      assert a + b == b;
    } else {
      assert (a + b)[1..] == a[1..] + b;
      WithoutConcat(a[1..], b, name);
    }
  }

  class TWExclude {
    var relativeDirs: seq<string>
    var absoluteDirs: seq<string>

    function RulesOf(): Rules
      reads this
    {
      Rules(relativeDirs, absoluteDirs)
    }

    constructor ()
      ensures RulesOf() == Rules([".", "..", "lost+found"], [])
    {
      relativeDirs, absoluteDirs := [], [];
      new;
      AddRelativeDir(".");
      AddRelativeDir("..");
      AddRelativeDir("lost+found");
    }

    method AddRelativeDir(dir: string)
      modifies this
      ensures RulesOf() == old(RulesOf()).(relative := old(relativeDirs) + [dir])
    {
      relativeDirs := relativeDirs + [dir];
    }

    /** Erases every occurrence while walking the vector. */
    method ClearRelativeDir(dir: string)
      modifies this
      ensures RulesOf() == old(RulesOf()).(relative := Without(old(relativeDirs), dir))
    {
      var i := 0;
      while i < |relativeDirs|
        invariant i <= |relativeDirs| && absoluteDirs == old(absoluteDirs)
        invariant relativeDirs[..i] + Without(relativeDirs[i..], dir) == Without(old(relativeDirs), dir)
        decreases |relativeDirs| - i
      {
        ghost var was := relativeDirs;
        if relativeDirs[i] == dir {
          relativeDirs := relativeDirs[..i] + relativeDirs[i + 1..];
          assert was[i..][1..] == was[i + 1..] == relativeDirs[i..] && relativeDirs[..i] == was[..i];
        } else {
          assert was[i..][1..] == was[i + 1..] && was[..i + 1] == was[..i] + [was[i]];
          i := i + 1;
        }
      }
      assert relativeDirs[..i] == relativeDirs;
    }

    method AddAbsoluteDir(dir: string)
      modifies this
      ensures RulesOf() == old(RulesOf()).(absolute := old(absoluteDirs) + [Normal(dir)])
    {
      var normal := RemoveTrailingSlashes(dir, false);
      assert normal == Normal(dir) + "" == Normal(dir);
      absoluteDirs := absoluteDirs + [normal];
    }

    method CheckSkipDirs(path: string) returns (skip: bool)
      ensures skip == Skips(RulesOf(), path)
    {
      var normalized := RemoveTrailingSlashes(path, false);
      assert normalized == Normal(path) + "" == Normal(path);
      var slash := LastSlash(normalized);
      if slash >= 0 && slash + 1 < |normalized| {
        if normalized[slash + 1..] in relativeDirs {
          return true;
        }
      }
      skip := normalized in absoluteDirs;
    }

    /** Get_Folder_Size; the accumulator is a uint64_t. */
    method GetFolderSize(path: string, entries: seq<Item>) returns (size: nat)
      ensures size == U64(FolderSize(RulesOf(), path, entries))
      ensures Sane(entries) ==> size == SumOf(NotLeftOut(RulesOf(), Leaves([], path, entries))) % 0x1_0000_0000_0000_0000
      decreases entries, 0
    {
      hide Sane, SumOf, NotLeftOut, Leaves;
      WrappedSum(RulesOf(), path, entries);
      hide ItemSize, U64;
      size := U64(0);
      var i := 0;
      ghost var total: nat := 0;
      while i < |entries|
        invariant i <= |entries| && size == U64(total)
        invariant total + FolderSize(RulesOf(), path, entries[i..]) == FolderSize(RulesOf(), path, entries)
      {
        assert entries[i..][1..] == entries[i + 1..];
        var n := CountItem(path, entries[i]);
        U64Add(total, ItemSize(RulesOf(), path, entries[i]));
        size := U64(size + n);
        total := total + ItemSize(RulesOf(), path, entries[i]);
        i := i + 1;
      }
    }

    /** What the loop of Get_Folder_Size adds for one entry. */
    method CountItem(path: string, e: Item) returns (n: nat)
      ensures n == U64(ItemSize(RulesOf(), path, e))
      decreases e, 1
    {
      hide Skips, U64, FolderSize;
      n := U64(0);
      if e.statOk {
        var full := path + "/" + e.name;
        var skip := CheckSkipDirs(full);
        if DirectoryBit(e.mode) && !skip && e.mode != Socket {
          n := GetFolderSize(full, e.entries);
        } else if FileBits(e.mode) {
          n := U64(e.size);
        }
      }
    }
  }

  lemma WrappedSum(r: Rules, path: string, entries: seq<Item>)
    ensures Sane(entries) ==>
              U64(FolderSize(r, path, entries)) == SumOf(NotLeftOut(r, Leaves([], path, entries))) % 0x1_0000_0000_0000_0000
  {
    hide Sane, SumOf, NotLeftOut, Leaves, FolderSize;
    if Sane(entries) {
      FolderSizeIsSum(r, path, entries);
    }
  }

  function U64(x: nat): nat {
    x % TWO64
  }

  lemma U64Add(a: nat, b: nat)
    ensures U64(U64(a) + U64(b)) == U64(a + b)
  {
  }
}
