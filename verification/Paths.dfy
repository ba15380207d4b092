/** twrp-functions.cpp: TWFunc::Remove_Trailing_Slashes and what it means for a path. */
module Paths {

  /** The names between slashes, with `current` already read of the first. */
  function Pieces(current: string, path: string): seq<string>
    decreases |path|
  {
    var done := if current == "" then [] else [current];
    if path == "" then done
    else if path[0] == '/' then done + Pieces("", path[1..])
    else Pieces(current + [path[0]], path[1..])
  }

  function Components(path: string): seq<string> {
    Pieces("", path)
  }

  predicate Absolute(path: string) {
    path != "" && path[0] == '/'
  }

  predicate IsName(s: string) {
    s != "" && '/' !in s
  }

  predicate AllNames(names: seq<string>) {
    forall i | 0 <= i < |names| :: IsName(names[i])
  }

  function JoinNames(names: seq<string>): string {
    if names == [] then "" else if |names| == 1 then names[0] else names[0] + "/" + JoinNames(names[1..])
  }

  /** One spelling for every list of names; the root directory is spelled "". */
  function Normal(path: string): string {
    var names := Components(path);
    (if Absolute(path) && names != [] then "/" else "") + JoinNames(names)
  }

  predicate NoEmptyNames(path: string) {
    && (path != "" ==> path[|path| - 1] != '/')
    && forall i | 0 <= i < |path| - 1 :: !(path[i] == '/' && path[i + 1] == '/')
  }

  // ---------------------------------------------------------------- names and slashes

  lemma {:induction false} PiecesName(current: string, name: string, rest: string)
    requires '/' !in name
    ensures Pieces(current, name + rest) == Pieces(current + name, rest)
    decreases |name|
  {
    if name == "" {
      assert name + rest == rest && current + name == current;
    } else {
      assert (name + rest)[0] == name[0] && (name + rest)[1..] == name[1..] + rest;
      assert (current + [name[0]]) + name[1..] == current + name;
      PiecesName(current + [name[0]], name[1..], rest);
    }
  }

  predicate AllSlashes(s: string) {
    forall i | 0 <= i < |s| :: s[i] == '/'
  }

  lemma {:induction false} PiecesSlashes(slashes: string, rest: string)
    requires AllSlashes(slashes)
    ensures Pieces("", slashes + rest) == Pieces("", rest)
  {
    if slashes == "" {
      assert slashes + rest == rest;
    } else {
      assert (slashes + rest)[1..] == slashes[1..] + rest;
      PiecesSlashes(slashes[1..], rest);
    }
  }

  /** A name, one or more slashes, and the rest. */
  lemma ComponentsSplit(name: string, slashes: string, rest: string)
    requires '/' !in name && AllSlashes(slashes) && slashes != ""
    ensures Components(name + slashes + rest) == (if name == "" then [] else [name]) + Components(rest)
  {
    assert name + slashes + rest == name + (slashes + rest);
    PiecesName("", name, slashes + rest);
    assert "" + name == name;
    assert (slashes + rest)[1..] == slashes[1..] + rest;
    PiecesSlashes(slashes[1..], rest);
  }

  lemma ComponentsName(name: string)
    requires '/' !in name
    ensures Components(name) == if name == "" then [] else [name]
  {
    PiecesName("", name, "");
    assert name + "" == name && "" + name == name;
  }

  lemma {:induction false} PiecesAreNames(current: string, path: string)
    requires '/' !in current
    ensures AllNames(Pieces(current, path))
    decreases |path|
  {
    if path != "" {
      PiecesAreNames(if path[0] == '/' then "" else current + [path[0]], path[1..]);
    }
  }

  lemma {:induction false} ComponentsJoin(names: seq<string>)
    requires AllNames(names)
    ensures Components(JoinNames(names)) == names
    ensures !Absolute(JoinNames(names)) && (names != [] ==> JoinNames(names) != "")
    ensures NoEmptyNames(JoinNames(names))
  {
    if names == [] {
    } else {
      var name := names[0];
      assert IsName(name);
      assert name[0] in name && name[|name| - 1] in name;
      if |names| == 1 {
        ComponentsName(name);
        assert forall i | 0 <= i < |name| :: name[i] in name;
      } else {
        var rest := JoinNames(names[1..]);
        ComponentsJoin(names[1..]);
        ComponentsSplit(name, "/", rest);
        NoEmptyJoin(name, rest);
      }
    }
  }

  lemma NoEmptyJoin(name: string, rest: string)
    requires IsName(name) && rest != "" && !Absolute(rest) && NoEmptyNames(rest)
    ensures NoEmptyNames(name + "/" + rest)
  {
    var path := name + "/" + rest;
    forall i | 0 <= i < |path| - 1
      ensures !(path[i] == '/' && path[i + 1] == '/')
    {
      if i < |name| {
        assert path[i] == name[i] && name[i] in name;
      } else if i > |name| {
        assert path[i] == rest[i - |name| - 1] && path[i + 1] == rest[i - |name|];
      }
    }
  }

  /** Normalisation keeps the list of names and absoluteness, and leaves no repeated or trailing slash. */
  lemma NormalFacts(path: string)
    ensures Components(Normal(path)) == Components(path)
    ensures Components(path) != [] ==> Absolute(Normal(path)) == Absolute(path)
    ensures Components(path) == [] ==> Normal(path) == ""
    ensures NoEmptyNames(Normal(path))
  {
    var names := Components(path);
    var joined := JoinNames(names);
    PiecesAreNames("", path);
    ComponentsJoin(names);
    hide JoinNames;
    if Absolute(path) && names != [] {
      assert Normal(path) == "/" + joined;
      ComponentsSplit("", "/", joined);
      assert "" + "/" + joined == "/" + joined;
      assert forall i | 0 < i < |Normal(path)| :: Normal(path)[i] == joined[i - 1];
    } else {
      assert "" + joined == joined;
    }
  }

  lemma NormalIdempotent(path: string)
    ensures Normal(Normal(path)) == Normal(path)
  {
    NormalFacts(path);
  }

  /** Two paths are normalised to the same string exactly when they have the same names and are both absolute or both relative. */
  lemma SameNormalExactlyWhen(p: string, q: string)
    ensures Normal(p) == Normal(q) <==>
            Components(p) == Components(q) && (Components(p) == [] || Absolute(p) == Absolute(q))
  {
    NormalFacts(p);
    NormalFacts(q);
  }

  // ---------------------------------------------------------------- the loop

  /** Position of the first slash from `from` on, or the length. */
  method FindFirstOf(path: string, from: nat) returns (idx: nat)
    requires from <= |path|
    ensures from <= idx <= |path| && '/' !in path[from..idx] && (idx < |path| ==> path[idx] == '/')
  {
    idx := from;
    while idx < |path| && path[idx] != '/'
      invariant from <= idx <= |path| && '/' !in path[from..idx]
    {
      assert path[from..idx + 1] == path[from..idx] + [path[idx]];
      idx := idx + 1;
    }
  }

  /** Position of the first other character from `from` on, or the length. */
  method FindFirstNotOf(path: string, from: nat) returns (idx: nat)
    requires from <= |path|
    ensures from <= idx <= |path| && AllSlashes(path[from..idx]) && (idx < |path| ==> path[idx] != '/')
  {
    idx := from;
    while idx < |path| && path[idx] == '/'
      invariant from <= idx <= |path| && AllSlashes(path[from..idx])
    {
      assert path[from..idx + 1] == path[from..idx] + [path[idx]];
      idx := idx + 1;
    }
  }

  /** One round of the loop: a name, slashes, and what follows. */
  lemma NormalSplit(path: string, idx: nat, next: nat)
    requires idx < next <= |path| && '/' !in path[..idx] && AllSlashes(path[idx..next])
    requires next < |path| ==> path[next] != '/'
    ensures Normal(path) == path[..idx] + (if next == |path| then "" else "/" + Normal(path[next..]))
  {
    var name, slashes, rest := path[..idx], path[idx..next], path[next..];
    assert path == name + slashes + rest;
    ComponentsSplit(name, slashes, rest);
    var names := Components(rest);
    if idx > 0 {
      assert path[0] == name[0] && name[0] in name;
      assert ([name] + names)[1..] == names;
    }
    if next < |path| {
      SomeNames(rest);
      assert Normal(rest) == JoinNames(names);
      assert idx == 0 ==> [] + names == names;
    } else {
      assert names == [];
    }
    hide Pieces;
  }

  lemma SomeNames(rest: string)
    requires rest != "" && rest[0] != '/'
    ensures Components(rest) != []
  {
    NonEmptyPieces([rest[0]], rest[1..]);
    assert "" + [rest[0]] == [rest[0]];
  }

  lemma {:induction false} NonEmptyPieces(current: string, path: string)
    requires current != ""
    ensures Pieces(current, path) != []
    decreases |path|
  {
    if path != "" && path[0] != '/' {
      NonEmptyPieces(current + [path[0]], path[1..]);
    }
  }

  lemma NormalOfName(name: string)
    requires '/' !in name
    ensures Normal(name) == name
  {
    ComponentsName(name);
    if name != "" {
      assert name[0] in name;
    }
  }

  /** TWFunc::Remove_Trailing_Slashes */
  method RemoveTrailingSlashes(path: string, leaveLast: bool) returns (res: string)
    ensures res == Normal(path) + (if leaveLast then "/" else "")
  {
    res := "";
    var lastIdx, atEnd := 0, false;
    while !atEnd
      invariant lastIdx <= |path|
      invariant !atEnd && lastIdx > 0 ==> lastIdx < |path| && path[lastIdx] != '/'
      invariant !atEnd ==> Normal(path) == res + (if lastIdx == 0 then "" else "/") + Normal(path[lastIdx..])
      invariant atEnd ==> Normal(path) == res
      decreases !atEnd, |path| - lastIdx
    {
      ghost var before, tail := res, path[lastIdx..];
      if lastIdx != 0 {
        res := res + "/";
      }
      var idx := FindFirstOf(path, lastIdx);
      if idx == |path| {
        NormalOfName(tail);
        assert path[lastIdx..idx] == tail;
        res := res + path[lastIdx..];
        break;
      }
      var next := FindFirstNotOf(path, idx);
      assert tail[..idx - lastIdx] == path[lastIdx..idx] && tail[idx - lastIdx..next - lastIdx] == path[idx..next]
             && tail[next - lastIdx..] == path[next..];
      NormalSplit(tail, idx - lastIdx, next - lastIdx);
      hide Normal;
      res := res + path[lastIdx..idx];
      lastIdx := next;
      atEnd := next == |path|;
    }
    if leaveLast {
      res := res + "/";
    }
  }
}
