/** Taking paths apart, and normalizing them, where the only delimiter is the slash. */
module Paths {
  import opened Tokenizing

  const SLASH: string := "/"

  function Components(path: string): seq<string>
  {
    Tokens(path, SLASH)
  }

  predicate IsAbsolute(path: string)
  {
    path != "" && path[0] == '/'
  }

  // ----- separate -----

  /** The last position up to hi whose character is a slash, or is not; -1 if there is none. */
  method FindLast(s: string, slash: bool, hi: int) returns (i: int)
    requires -1 <= hi < |s|
    ensures -1 <= i <= hi && (i >= 0 ==> (s[i] == '/' <==> slash))
    ensures forall k :: i < k <= hi ==> (s[k] == '/' <==> !slash)
  {
    i := hi;
    while i >= 0 && (s[i] == '/') != slash
      invariant -1 <= i <= hi
      invariant forall k :: i < k <= hi ==> (s[k] == '/' <==> !slash)
    {
      i := i - 1;
    }
  }

  /** The directory of a path, and what it names there: the last component, if there is any. */
  method SplitPath(path: string) returns (root: string, base: string)
    ensures Components(path) == Components(root) + (if base == "" then [] else [base])
    ensures |root| < |path| || (path == "" && root == "")
    ensures root <= path && Plain(base, SLASH)
    ensures root == "" || root[|root| - 1] != '/'
            || ((forall k :: 0 <= k < |root| ==> root[k] == '/') && |root| < |path| && path[|root|] != '/')
    ensures if base == "" then root == "" && forall k :: 0 <= k < |path| ==> path[k] == '/'
            else IsAbsolute(root) <==> IsAbsolute(path)
    decreases |path|
  {
    hide Tokens, Run;
    var pos := FindLast(path, true, |path| - 1);
    if pos == -1 {
      root, base := "", path;
      OnlyBase(path);
    } else if pos == |path| - 1 {
      root, base := SplitPath(path[..|path| - 1]);
      SlashBehind(path[..|path| - 1]);
      assert path == path[..|path| - 1] + SLASH;
    } else {
      var lastRootPos := FindLast(path, false, pos);
      root := if lastRootPos == -1 then path[..pos + 1] else path[..lastRootPos + 1];
      base := path[pos + 1..];
      if lastRootPos == -1 {
        SlashesBefore(root, base);
        assert path == root + base;
      } else {
        RootAndBase(root, path[lastRootPos + 1..pos + 1], base);
        assert path == root + path[lastRootPos + 1..pos + 1] + base;
      }
    }
  }

  lemma OnlyBase(path: string)
    requires forall k :: 0 <= k < |path| ==> path[k] != '/'
    ensures Components("") == [] && Components(path) == if path == "" then [] else [path]
  {
    NoTokens(SLASH);
    if path != "" {
      TokensOfPiece(path, "", SLASH);
      assert path + "" == path;
    }
  }

  lemma SlashBehind(path: string)
    ensures Components(path + SLASH) == Components(path)
  {
    TokensConcat(path, SLASH, SLASH);
    TokensBehind(SLASH, "", SLASH);
    NoTokens(SLASH);
    assert SLASH + "" == SLASH;
  }

  lemma SlashesBefore(slashes: string, base: string)
    requires (forall k :: 0 <= k < |slashes| ==> slashes[k] == '/')
    requires base != "" && forall k :: 0 <= k < |base| ==> base[k] != '/'
    ensures Components(slashes) == [] && Components(slashes + base) == [base]
  {
    OnlyBase(base);
    TokensBehind(slashes, base, SLASH);
    TokensBehind(slashes, "", SLASH);
    NoTokens(SLASH);
    assert slashes + "" == slashes;
  }

  lemma RootAndBase(root: string, slashes: string, base: string)
    requires base != "" && slashes != ""
    requires (forall k :: 0 <= k < |slashes| ==> slashes[k] == '/') && forall k :: 0 <= k < |base| ==> base[k] != '/'
    ensures Components(root + slashes + base) == Components(root) + [base]
  {
    TokensConcat(root, slashes + base, SLASH);
    SlashesBefore(slashes, base);
    assert root + slashes + base == root + (slashes + base);
  }

  function Reversed(s: seq<string>): seq<string>
  {
    if s == [] then [] else Reversed(s[1..]) + [s[0]]
  }

  lemma {:induction false} ReversedSnoc(s: seq<string>, x: string)
    ensures Reversed(s + [x]) == [x] + Reversed(s)
  {
    if s != [] {
      ReversedSnoc(s[1..], x);
      assert (s + [x])[1..] == s[1..] + [x];
    }
  }

  /** Splitting off the last component until nothing is left gives the components: the same that the
      tokenizer finds from the front. */
  method Separate(path: string) returns (pathList: seq<string>)
    ensures pathList == Components(path)
  {
    hide Tokens, Run;
    var workingPath := path;
    pathList := [];
    var root, base := SplitPath(workingPath);
    while root != workingPath
      invariant Components(workingPath) == Components(root) + (if base == "" then [] else [base])
      invariant |root| < |workingPath| || (workingPath == "" && root == "")
      invariant Components(workingPath) + Reversed(pathList) == Components(path)
      decreases |workingPath|
    {
      if base != "" {
        ReversedSnoc(pathList, base);
        pathList := pathList + [base];
      }
      workingPath := root;
      root, base := SplitPath(workingPath);
    }
    NoTokens(SLASH);
    pathList := Reversed(pathList);
  }

  // ----- normalizePath -----

  /** How far a path leads up from where it starts, and the names that it then goes down. */
  datatype Resolution = Resolution(up: nat, names: seq<string>)

  /** One component. */
  function Resolve(r: Resolution, part: string): Resolution
  {
    if part == "." then r
    else if part == ".." then
      if |r.names| > 0 then Resolution(r.up, r.names[..|r.names| - 1]) else Resolution(r.up + 1, [])
    else Resolution(r.up, r.names + [part])
  }

  function ResolveAll(r: Resolution, parts: seq<string>): Resolution
  {
    if parts == [] then r else Resolve(ResolveAll(r, parts[..|parts| - 1]), parts[|parts| - 1])
  }

  function Resolved(path: string): Resolution
  {
    ResolveAll(Resolution(0, []), Components(path))
  }

  function Ups(n: nat): string
  {
    if n == 0 then "" else if n == 1 then ".." else Ups(n - 1) + "/.."
  }

  function Downs(names: seq<string>): string
  {
    if names == [] then "" else Downs(names[..|names| - 1]) + SLASH + names[|names| - 1]
  }

  /** What normalizePath prints. */
  function Printed(absolute: bool, r: Resolution): string
  {
    (if absolute then "" else Ups(r.up)) + Downs(r.names)
  }

  function Normalized(path: string): string
  {
    Printed(IsAbsolute(path), Resolved(path))
  }

  method NormalizePath(path: string) returns (out: string)
    ensures out == Normalized(path)
  {
    hide Tokens, ResolveAll, Ups, Downs;
    var parts := Tokenize(path, SLASH);
    var upCount, pathDeque := ResolveParts(parts);
    out := "";
    if !IsAbsolute(path) {
      out := PrintUps(upCount);
    }
    var downs := PrintDowns(pathDeque);
    out := out + downs;
  }

  method ResolveParts(parts: seq<string>) returns (upCount: nat, pathDeque: seq<string>)
    ensures Resolution(upCount, pathDeque) == ResolveAll(Resolution(0, []), parts)
  {
    upCount, pathDeque := 0, [];
    var i := 0;
    while i < |parts|
      invariant 0 <= i <= |parts|
      invariant Resolution(upCount, pathDeque) == ResolveAll(Resolution(0, []), parts[..i])
    {
      assert parts[..i + 1][..i] == parts[..i];
      var part := parts[i];
      i := i + 1;
      if part == "." {
        continue;
      } else if part == ".." {
        if |pathDeque| > 0 {
          pathDeque := pathDeque[..|pathDeque| - 1];
        } else {
          upCount := upCount + 1;
        }
      } else {
        pathDeque := pathDeque + [part];
      }
    }
    assert parts[..i] == parts;
  }

  method PrintDowns(pathDeque: seq<string>) returns (out: string)
    ensures out == Downs(pathDeque)
  {
    out := "";
    var j := 0;
    while j < |pathDeque|
      invariant 0 <= j <= |pathDeque| && out == Downs(pathDeque[..j])
    {
      assert pathDeque[..j + 1][..j] == pathDeque[..j];
      out := out + SLASH + pathDeque[j];
      j := j + 1;
    }
    assert pathDeque[..j] == pathDeque;
  }

  method PrintUps(upCount: nat) returns (out: string)
    ensures out == Ups(upCount)
  {
    out := "";
    if upCount > 0 {
      out := out + "..";
    }
    var i := 1;
    while i < upCount
      invariant 1 <= i && (i <= upCount || upCount == 0) && out == if upCount == 0 then "" else Ups(i)
    {
      out := out + SLASH + "..";
      assert Ups(i) + SLASH + ".." == Ups(i) + "/..";
      i := i + 1;
    }
  }

  // ----- What normalized paths look like -----

  /** A name that is neither of the two dots. */
  predicate Name(part: string)
  {
    part != "" && Plain(part, SLASH) && part != "." && part != ".."
  }

  predicate AllNames(names: seq<string>)
  {
    forall i :: 0 <= i < |names| ==> Name(names[i])
  }

  lemma {:induction false} ResolvedNames(r: Resolution, parts: seq<string>)
    requires AllNames(r.names) && forall i :: 0 <= i < |parts| ==> parts[i] != "" && Plain(parts[i], SLASH)
    ensures AllNames(ResolveAll(r, parts).names)
  {
    if parts != [] {
      ResolvedNames(r, parts[..|parts| - 1]);
    }
  }

  lemma ResolvedIsNames(path: string)
    ensures AllNames(Resolved(path).names)
  {
    TokensArePlain(path, SLASH);
    ResolvedNames(Resolution(0, []), Components(path));
  }

  function Dots(n: nat): seq<string>
  {
    if n == 0 then [] else Dots(n - 1) + [".."]
  }

  lemma OneComponent(name: string)
    requires name != "" && Plain(name, SLASH)
    ensures Components(SLASH + name) == [name]
  {
    SlashesBefore(SLASH, name);
  }

  lemma {:induction false} ComponentsOfUps(n: nat)
    ensures Components(Ups(n)) == Dots(n)
    ensures n > 0 ==> Ups(n) != "" && Ups(n)[0] == '.'
  {
    hide Tokens;
    if n == 0 {
      NoTokens(SLASH);
    } else if n == 1 {
      OnlyBase("..");
      assert Dots(0) == [];
    } else {
      ComponentsOfUps(n - 1);
      TokensConcat(Ups(n - 1), "/..", SLASH);
      OneComponent("..");
      assert SLASH + ".." == "/..";
    }
  }

  lemma {:induction false} ComponentsOfDowns(names: seq<string>)
    requires AllNames(names)
    ensures Components(Downs(names)) == names
    ensures names != [] ==> Downs(names) != "" && Downs(names)[0] == '/'
  {
    hide Tokens;
    if names == [] {
      NoTokens(SLASH);
    } else {
      var before, last := names[..|names| - 1], names[|names| - 1];
      ComponentsOfDowns(before);
      OneComponent(last);
      TokensConcat(Downs(before), SLASH + last, SLASH);
      assert Downs(before) + SLASH + last == Downs(before) + (SLASH + last);
      assert names == before + [last];
    }
  }

  /** The components of a normalized path: as many ".." as it leads up, and then the names. */
  lemma ComponentsOfPrinted(absolute: bool, r: Resolution)
    requires AllNames(r.names)
    ensures Components(Printed(absolute, r)) == (if absolute then [] else Dots(r.up)) + r.names
    ensures IsAbsolute(Printed(absolute, r)) <==> r.names != [] && (absolute || r.up == 0)
  {
    hide Tokens;
    ComponentsOfUps(r.up);
    ComponentsOfDowns(r.names);
    TokensConcat(if absolute then "" else Ups(r.up), Downs(r.names), SLASH);
    NoTokens(SLASH);
  }

  lemma {:induction false} ResolveConcat(r: Resolution, a: seq<string>, b: seq<string>)
    ensures ResolveAll(r, a + b) == ResolveAll(ResolveAll(r, a), b)
  {
    if b == [] {
      assert a + b == a;
    } else {
      ResolveConcat(r, a, b[..|b| - 1]);
      assert (a + b)[..|a + b| - 1] == a + b[..|b| - 1];
    }
  }

  lemma {:induction false} ResolveDots(up: nat, n: nat)
    ensures ResolveAll(Resolution(up, []), Dots(n)) == Resolution(up + n, [])
  {
    if n != 0 {
      ResolveDots(up, n - 1);
      assert Dots(n)[..|Dots(n)| - 1] == Dots(n - 1);
    }
  }

  lemma {:induction false} ResolveNames(r: Resolution, names: seq<string>)
    requires AllNames(names)
    ensures ResolveAll(r, names) == Resolution(r.up, r.names + names)
  {
    if names == [] {
      assert r.names + names == r.names;
    } else {
      ResolveNames(r, names[..|names| - 1]);
      assert names == names[..|names| - 1] + [names[|names| - 1]];
    }
  }

  /** Resolving a normalized path gives its own ups and names. */
  lemma ResolvedOfPrinted(absolute: bool, r: Resolution)
    requires AllNames(r.names)
    ensures Resolved(Printed(absolute, r)) == Resolution(if absolute then 0 else r.up, r.names)
  {
    hide *;
    var up := if absolute then 0 else r.up;
    ComponentsOfPrinted(absolute, r);
    NoDots();
    ResolveConcat(Resolution(0, []), Dots(up), r.names);
    ResolveDots(0, up);
    ResolveNames(Resolution(up, []), r.names);
    ResolvedIs(Printed(absolute, r));
    assert [] + r.names == r.names;
  }

  lemma NoDots()
    ensures Dots(0) == []
  {
  }

  lemma ResolvedIs(path: string)
    ensures Resolved(path) == ResolveAll(Resolution(0, []), Components(path))
  {
  }

  /** Normalizing twice is normalizing once, for every string. */
  lemma NormalizedIsIdempotent(path: string)
    ensures Normalized(Normalized(path)) == Normalized(path)
  {
    var absolute, r := IsAbsolute(path), Resolved(path);
    ResolvedIsNames(path);
    hide Tokens, Resolved, Components;
    ComponentsOfPrinted(absolute, r);
    ResolvedOfPrinted(absolute, r);
    assert Ups(0) == "";
  }

  /** No two slashes next to each other, and none at the end. */
  predicate Tidy(s: string)
  {
    && (forall i :: 0 <= i < |s| - 1 ==> s[i] != '/' || s[i + 1] != '/')
    && (s != "" ==> s[|s| - 1] != '/')
  }

  lemma TidyConcat(a: string, b: string)
    requires Tidy(a) && b != "" && Plain(b, SLASH)
    ensures Tidy(a + SLASH + b)
  {
    var s := a + SLASH + b;
    forall i | 0 <= i < |s| - 1
      ensures s[i] != '/' || s[i + 1] != '/'
    {
      if |a| < i {
        assert s[i] == b[i - |a| - 1];
      } else if i == |a| {
        assert s[i + 1] == b[0];
      } else if i + 1 < |a| {
        assert s[i] == a[i] && s[i + 1] == a[i + 1];
      }
    }
  }

  lemma {:induction false} TidyDowns(start: string, names: seq<string>)
    requires Tidy(start) && AllNames(names)
    ensures Tidy(start + Downs(names))
  {
    if names == [] {
      assert start + "" == start;
    } else {
      var before, last := names[..|names| - 1], names[|names| - 1];
      TidyDowns(start, before);
      TidyConcat(start + Downs(before), last);
      assert start + (Downs(before) + SLASH + last) == start + Downs(before) + SLASH + last;
    }
  }

  lemma {:induction false} TidyUps(n: nat)
    ensures Tidy(Ups(n))
  {
    if 1 < n {
      TidyUps(n - 1);
      TidyConcat(Ups(n - 1), "..");
      assert Ups(n - 1) + SLASH + ".." == Ups(n - 1) + "/..";
    }
  }

  /** A normalized path has no empty components, and no slash at its end. */
  lemma NormalizedIsTidy(path: string)
    ensures forall i :: 0 <= i < |Normalized(path)| - 1 ==>
              Normalized(path)[i] != '/' || Normalized(path)[i + 1] != '/'
    ensures Normalized(path) != "" ==> Normalized(path)[|Normalized(path)| - 1] != '/'
  {
    ResolvedIsNames(path);
    hide Tokens, Resolved;
    TidyUps(Resolved(path).up);
    TidyDowns(if IsAbsolute(path) then "" else Ups(Resolved(path).up), Resolved(path).names);
  }

  /** An example. */
  lemma DotsAreResolved()
    ensures Normalized("/a/./b//../c") == "/a/c"
  {
    hide Tokens, ResolveAll;
    assert SLASH + "a" == "/a" && "/a" + "/" + "." == "/a/.";
    OneComponent("a");
    RootAndBase("/a", "/", ".");
    assert "/a/." + "/" + "b" == "/a/./b" && "/a/./b" + "//" + ".." == "/a/./b//..";
    RootAndBase("/a/.", "/", "b");
    RootAndBase("/a/./b", "//", "..");
    assert "/a/./b//.." + "/" + "c" == "/a/./b//../c";
    RootAndBase("/a/./b//..", "/", "c");
    DotsResolve();
    assert ["a", ".", "b", ".."] + ["c"] == ["a"] + ["."] + ["b"] + [".."] + ["c"];
    assert Downs([]) + SLASH + "a" + SLASH + "c" == "/a/c";
    assert ["a", "c"][..1] == ["a"] && ["a"][..0] == [];
    assert Downs(["a", "c"]) == Downs(["a"]) + SLASH + "c" && Downs(["a"]) == Downs([]) + SLASH + "a";
  }

  lemma DotsResolve()
    ensures ResolveAll(Resolution(0, []), ["a", ".", "b", ".."] + ["c"]) == Resolution(0, ["a", "c"])
  {
    var parts := ["a", ".", "b", ".."] + ["c"];
    assert parts[..1][..0] == [] && parts[..2][..1] == parts[..1] && parts[..3][..2] == parts[..2];
    assert parts[..4][..3] == parts[..3] && parts[..5][..4] == parts[..4] && parts[..5] == parts;
    assert ResolveAll(Resolution(0, []), parts[..1]) == Resolution(0, ["a"]);
    assert ResolveAll(Resolution(0, []), parts[..3]) == Resolution(0, ["a", "b"]);
    assert ResolveAll(Resolution(0, []), parts[..4]) == Resolution(0, ["a"]);
  }

  // ----- Lexical resolution, seen from the other end -----

  /** Read from the last component back: each ".." takes away the next name before it that is not taken away yet.
      What is left, and how many ".." found no name. */
  function Surviving(parts: seq<string>): Resolution
  {
    if parts == [] then Resolution(0, [])
    else
      var rest := Surviving(parts[1..]);
      if parts[0] == "." then rest
      else if parts[0] == ".." then Resolution(rest.up + 1, rest.names)
      else if rest.up > 0 then Resolution(rest.up - 1, rest.names)
      else Resolution(0, [parts[0]] + rest.names)
  }

  /** What the components do behind a path that is resolved already: they take away names from its end, then lead up
      from where it starts, and then go down. */
  function Behind(r: Resolution, s: Resolution): Resolution
  {
    if s.up <= |r.names| then Resolution(r.up, r.names[..|r.names| - s.up] + s.names)
    else Resolution(r.up + (s.up - |r.names|), s.names)
  }

  lemma ResolveFront(r: Resolution, parts: seq<string>)
    requires parts != []
    ensures ResolveAll(r, parts) == ResolveAll(Resolve(r, parts[0]), parts[1..])
  {
    ResolveConcat(r, [parts[0]], parts[1..]);
    assert parts == [parts[0]] + parts[1..];
    assert [parts[0]][..0] == [];
  }

  lemma BehindOne(r: Resolution, part: string, rest: Resolution)
    ensures Behind(Resolve(r, part), rest)
         == Behind(r, if part == "." then rest
                      else if part == ".." then Resolution(rest.up + 1, rest.names)
                      else if rest.up > 0 then Resolution(rest.up - 1, rest.names)
                      else Resolution(0, [part] + rest.names))
  {
    if part == ".." {
      BehindUp(r, rest);
    } else if part != "." {
      BehindName(r, part, rest);
    }
  }

  lemma BehindUp(r: Resolution, rest: Resolution)
    ensures Behind(Resolve(r, ".."), rest) == Behind(r, Resolution(rest.up + 1, rest.names))
  {
    var n := |r.names|;
    if 0 < n && rest.up + 1 <= n {
      assert r.names[..n - 1][..n - 1 - rest.up] == r.names[..n - (rest.up + 1)];
    }
  }

  lemma BehindName(r: Resolution, part: string, rest: Resolution)
    requires part != "." && part != ".."
    ensures Behind(Resolve(r, part), rest)
         == Behind(r, if rest.up > 0 then Resolution(rest.up - 1, rest.names) else Resolution(0, [part] + rest.names))
  {
    var n := |r.names|;
    if 0 < rest.up <= n + 1 {
      assert (r.names + [part])[..n + 1 - rest.up] == r.names[..n - (rest.up - 1)];
    } else if rest.up == 0 {
      assert (r.names + [part])[..n + 1] == r.names + [part];
      assert r.names[..n] == r.names;
      assert r.names + [part] + rest.names == r.names + ([part] + rest.names);
    }
  }

  lemma {:induction false} ResolvedIsBehind(r: Resolution, parts: seq<string>)
    ensures ResolveAll(r, parts) == Behind(r, Surviving(parts))
    decreases |parts|
  {
    if parts == [] {
      assert r.names[..|r.names|] + [] == r.names;
    } else {
      ResolveFront(r, parts);
      ResolvedIsBehind(Resolve(r, parts[0]), parts[1..]);
      BehindOne(r, parts[0], Surviving(parts[1..]));
    }
  }

  /** The components of a normalized absolute path are the names that survive in the path, none of them empty,
      "." or "..". */
  lemma NormalizedAbsolute(path: string)
    requires IsAbsolute(path)
    ensures Components(Normalized(path)) == Surviving(Components(path)).names
    ensures AllNames(Components(Normalized(path)))
  {
    ResolvedIsNames(path);
    ResolvedIsBehind(Resolution(0, []), Components(path));
    hide Tokens, ResolveAll, Surviving;
    ComponentsOfPrinted(true, Resolved(path));
    var names := Surviving(Components(path)).names;
    assert [] + names == names;
    assert [] + Resolved(path).names == Resolved(path).names;
  }

  // ----- What a path means -----

  /** One step through the directories: the root stays where it is when one goes up. */
  function Step(at: seq<string>, part: string): seq<string>
  {
    if part == "." then at
    else if part == ".." then (if |at| > 0 then at[..|at| - 1] else at)
    else at + [part]
  }

  /** The directory that is reached from a directory. */
  function Walked(from: seq<string>, parts: seq<string>): seq<string>
  {
    if parts == [] then from else Step(Walked(from, parts[..|parts| - 1]), parts[|parts| - 1])
  }

  function Meaning(from: seq<string>, path: string): seq<string>
  {
    Walked(if IsAbsolute(path) then [] else from, Components(path))
  }

  /** Walking is going up as far as the path leads up, or to the root, and then down. */
  function Reached(from: seq<string>, r: Resolution): seq<string>
  {
    (if r.up <= |from| then from[..|from| - r.up] else []) + r.names
  }

  lemma {:induction false} WalkedIsReached(from: seq<string>, parts: seq<string>)
    ensures Walked(from, parts) == Reached(from, ResolveAll(Resolution(0, []), parts))
  {
    if parts == [] {
      assert from[..|from|] + [] == from;
    } else {
      WalkedIsReached(from, parts[..|parts| - 1]);
      ReachedNext(from, ResolveAll(Resolution(0, []), parts[..|parts| - 1]), parts[|parts| - 1]);
    }
  }

  lemma ReachedNext(from: seq<string>, r: Resolution, part: string)
    ensures Reached(from, Resolve(r, part)) == Step(Reached(from, r), part)
  {
    var base := if r.up <= |from| then from[..|from| - r.up] else [];
    if part == ".." {
      if |r.names| > 0 {
        assert (base + r.names)[..|base + r.names| - 1] == base + r.names[..|r.names| - 1];
      } else {
        assert base + r.names == base;
        if r.up < |from| {
          assert base[..|base| - 1] == from[..|from| - (r.up + 1)];
        }
      }
    } else if part != "." {
      assert base + r.names + [part] == base + (r.names + [part]);
    }
  }

  lemma MeaningIs(from: seq<string>, path: string)
    ensures Meaning(from, path) == Reached(if IsAbsolute(path) then [] else from, Resolved(path))
  {
    WalkedIsReached(if IsAbsolute(path) then [] else from, Components(path));
  }

  /** The normalized path means the same in every directory if and only if it is absolute exactly when the path is. */
  lemma MeaningKeptIfSameKind(path: string)
    ensures (forall from :: Meaning(from, Normalized(path)) == Meaning(from, path))
            <==> (IsAbsolute(Normalized(path)) <==> IsAbsolute(path))
  {
    var n := Normalized(path);
    ResolvedIsNames(path);
    ResolvedOfPrinted(IsAbsolute(path), Resolved(path));
    ComponentsOfPrinted(IsAbsolute(path), Resolved(path));
    hide Tokens, Resolved, Normalized, Meaning, Components, Printed;
    if IsAbsolute(n) == IsAbsolute(path) {
      forall from
        ensures Meaning(from, n) == Meaning(from, path)
      {
        MeaningIs(from, n);
        MeaningIs(from, path);
      }
    } else {
      MeaningIs(["here"], n);
      MeaningIs(["here"], path);
    }
  }

  /** A path that normalizing does not change the meaning of: an absolute one with a name that survives, or a relative
      one that leads up or has none. */
  predicate KeepsMeaning(path: string)
  {
    var s := Surviving(Components(path));
    if IsAbsolute(path) then s.names != [] else s.names == [] || s.up > 0
  }

  /** Normalizing keeps the meaning of exactly these paths in every directory. */
  lemma MeaningKeptExactly(path: string)
    ensures (forall from :: Meaning(from, Normalized(path)) == Meaning(from, path)) <==> KeepsMeaning(path)
  {
    MeaningKeptIfSameKind(path);
    ResolvedIsNames(path);
    ResolvedIsBehind(Resolution(0, []), Components(path));
    hide Tokens, ResolveAll, Surviving, Meaning, IsAbsolute, Components;
    var s := Surviving(Components(path));
    assert [] + s.names == s.names;
    ComponentsOfPrinted(IsAbsolute(path), Resolved(path));
  }

  /** A plain name becomes absolute. */
  lemma NameBecomesAbsolute()
    ensures Normalized("a") == "/a"
    ensures Meaning(["here"], "a") == ["here", "a"] && Meaning(["here"], "/a") == ["a"]
  {
    hide Tokens;
    OnlyBase("a");
    OneComponent("a");
    ResolveNames(Resolution(0, []), ["a"]);
    assert [] + ["a"] == ["a"];
    assert SLASH + "a" == "/a";
    assert Downs([]) + SLASH + "a" == "/a";
    MeaningIs(["here"], "a");
    MeaningIs(["here"], "/a");
  }

  /** The root becomes the empty path. */
  lemma RootBecomesEmpty()
    ensures Normalized("/") == ""
    ensures Meaning(["here"], "/") == [] && Meaning(["here"], "") == ["here"]
  {
  }
}
