/** Two checks that a path stays inside a directory: by relative path and by text prefix, on POSIX paths. */
module Containment {
  import opened Wrappers
  import opened Text

  /** The segments between slashes. */
  function Segments(p: string): (parts: seq<string>)
    ensures parts != []
  {
    if p == [] then [""]
    else
      var r := Segments(p[1..]);
      if p[0] == '/' then [""] + r else [[p[0]] + r[0]] + r[1..]
  }

  /** A segment of a resolved path. */
  predicate IsName(s: string) {
    s != "" && s != "." && s != ".." && '/' !in s
  }

  predicate AreNames(path: seq<string>) {
    forall i :: 0 <= i < |path| ==> IsName(path[i])
  }

  /** Follows the segments from a directory: "." and empty segments stay, ".." goes up but not above the root. */
  function Follow(base: seq<string>, parts: seq<string>): seq<string>
    decreases |parts|
  {
    if parts == [] then base
    else if parts[0] == "" || parts[0] == "." then Follow(base, parts[1..])
    else if parts[0] == ".." then Follow(if base == [] then [] else base[..|base| - 1], parts[1..])
    else Follow(base + [parts[0]], parts[1..])
  }

  /** `path.resolve(base, p)`, as segments. */
  function Resolve(base: seq<string>, p: string): seq<string> {
    Follow(if p != "" && p[0] == '/' then [] else base, Segments(p))
  }

  /** The text of a resolved path. */
  function PathText(path: seq<string>): string {
    "/" + Join(path, "/")
  }

  function CommonLength(a: seq<string>, b: seq<string>): (n: nat)
    ensures n <= |a| && n <= |b| && a[..n] == b[..n]
  {
    if a != [] && b != [] && a[0] == b[0] then
      var n := 1 + CommonLength(a[1..], b[1..]);
      assert a[..n] == [a[0]] + a[1..][..n - 1] && b[..n] == [b[0]] + b[1..][..n - 1];
      n
    else 0
  }

  function Ups(n: nat): seq<string> {
    if n == 0 then [] else [".."] + Ups(n - 1)
  }

  /** `path.relative(a, b)` for resolved paths. */
  function Relative(a: seq<string>, b: seq<string>): string {
    var n := CommonLength(a, b);
    Join(Ups(|a| - n) + b[n..], "/")
  }

  /** The text neither goes up nor is absolute. */
  predicate RelativeTest(relative: string) {
    !(Starts(relative, "..") || Starts(relative, "/"))
  }

  predicate PrefixTest(root: seq<string>, path: seq<string>) {
    Starts(PathText(path), PathText(root) + "/") || PathText(path) == PathText(root)
  }

  const FIXTURE_DIR := "zavorth-mcp-fixture"

  /** `path.resolve(getSandboxDir())` for a working directory and a temporary directory. */
  function SandboxDir(cwd: seq<string>, tmp: string): seq<string> {
    Resolve(Resolve(cwd, tmp), FIXTURE_DIR)
  }

  /** `resolvePathInSandbox`, up to the symbolic links: None where it throws. */
  function ResolvePathInSandbox(cwd: seq<string>, tmp: string, p: string): Option<seq<string>> {
    var sandbox := SandboxDir(cwd, tmp);
    var resolved := Resolve(sandbox, p);
    if !RelativeTest(Relative(sandbox, resolved)) then None
    else if !PrefixTest(sandbox, resolved) then None
    else Some(resolved)
  }

  /** `isInside(root, target)`, with both resolved against the working directory. */
  predicate IsInside(cwd: seq<string>, root: string, target: string) {
    var relative := Relative(Resolve(cwd, root), Resolve(cwd, target));
    relative == "" || RelativeTest(relative)
  }

  // ---------------------------------------------------------------------------------
  // Resolved paths

  lemma {:induction false} SegmentsHaveNoSlash(p: string)
    ensures forall i :: 0 <= i < |Segments(p)| ==> '/' !in Segments(p)[i]
  {
    if p != [] {
      SegmentsHaveNoSlash(p[1..]);
    }
  }

  lemma {:induction false} FollowGivesNames(base: seq<string>, parts: seq<string>)
    requires AreNames(base) && forall i :: 0 <= i < |parts| ==> '/' !in parts[i]
    ensures AreNames(Follow(base, parts))
    decreases |parts|
  {
    if parts != [] {
      if parts[0] == "" || parts[0] == "." {
        FollowGivesNames(base, parts[1..]);
      } else if parts[0] == ".." {
        FollowGivesNames(if base == [] then [] else base[..|base| - 1], parts[1..]);
      } else {
        FollowGivesNames(base + [parts[0]], parts[1..]);
      }
    }
  }

  lemma ResolveGivesNames(base: seq<string>, p: string)
    requires AreNames(base)
    ensures AreNames(Resolve(base, p))
  {
    SegmentsHaveNoSlash(p);
    FollowGivesNames(if p != "" && p[0] == '/' then [] else base, Segments(p));
  }

  // ---------------------------------------------------------------------------------
  // What the tests mean

  /** The first segment below the root starts with two dots. */
  predicate DotsBelow(root: seq<string>, path: seq<string>) {
    root < path && Starts(path[|root|], "..")
  }

  lemma JoinHead(parts: seq<string>)
    requires parts != []
    ensures Join(parts, "/") == parts[0] + (if |parts| == 1 then "" else "/" + Join(parts[1..], "/"))
  {
    if |parts| == 1 {
      assert parts[0] + "" == parts[0];
    } else {
      assert parts[0] + "/" + Join(parts[1..], "/") == parts[0] + ("/" + Join(parts[1..], "/"));
    }
  }

  /** A joined path starts with two dots exactly when its first segment does. */
  lemma JoinStartsWithDots(parts: seq<string>)
    requires parts != [] && (IsName(parts[0]) || parts[0] == "..")
    ensures Starts(Join(parts, "/"), "..") <==> Starts(parts[0], "..")
    ensures !Starts(Join(parts, "/"), "/")
  {
    JoinHead(parts);
    var s, t := Join(parts, "/"), parts[0];
    assert t[0] in t && s[0] == t[0];
    if |t| >= 2 {
      assert s[..2] == t[..2];
    } else if |s| >= 2 {
      assert s[1] == '/';
      assert s[..2][1] == s[1];
    }
    assert |s| >= 1 ==> s[..1] == [s[0]];
  }

  /**
   The relative test holds exactly for the root and what is below it, but not through a name that starts with
   two dots.
   */
  lemma RelativeTestMeans(root: seq<string>, path: seq<string>)
    requires AreNames(root) && AreNames(path)
    ensures RelativeTest(Relative(root, path)) <==> root <= path && !DotsBelow(root, path)
    ensures Relative(root, path) == "" <==> root == path
  {
    var n := CommonLength(root, path);
    var parts := Ups(|root| - n) + path[n..];
    CommonIsAll(root, path);
    if parts != [] {
      JoinHead(parts);
      if n < |root| {
        assert parts[0] == "..";
        assert Starts(parts[0], "..");
      } else {
        assert parts == path[n..] && root == path[..n];
      }
      JoinStartsWithDots(parts);
    } else {
      assert n == |root| && n == |path|;
    }
  }

  lemma {:induction false} CommonIsAll(a: seq<string>, b: seq<string>)
    ensures CommonLength(a, b) == |a| <==> a <= b
  {
    if a != [] && b != [] && a[0] == b[0] {
      CommonIsAll(a[1..], b[1..]);
      assert a == [a[0]] + a[1..] && b == [b[0]] + b[1..];
    }
  }

  /** Joining names loses nothing. */
  lemma {:induction false} JoinPrefix(a: seq<string>, b: seq<string>)
    requires AreNames(a) && AreNames(b) && a != []
    ensures Starts(Join(b, "/"), Join(a, "/") + "/") <==> a < b
    ensures Join(a, "/") == Join(b, "/") <==> a == b
    decreases |a|
  {
    if b == [] {
      JoinHead(a);
    } else {
      JoinHead(a);
      JoinHead(b);
      FirstNames(a, b);
      if a[0] == b[0] {
        if |a| == 1 || |b| == 1 {
          OneName(a, b);
        } else {
          JoinPrefix(a[1..], b[1..]);
          TailPrefix(a, b);
        }
      }
    }
  }

  /** Where the first slash is, or the length of the text. */
  function SlashAt(s: string): (n: nat)
    ensures n <= |s|
  {
    if s == [] || s[0] == '/' then 0 else 1 + SlashAt(s[1..])
  }

  lemma {:induction false} SlashAfterName(x: string, u: string)
    requires '/' !in x && (u == [] || u[0] == '/')
    ensures SlashAt(x + u) == |x| && (x + u)[..|x|] == x
  {
    if x == [] {
      assert x + u == u;
    } else {
      assert (x + u)[1..] == x[1..] + u && (x + u)[0] == x[0];
      SlashAfterName(x[1..], u);
    }
  }

  /** The text of a path up to its first slash is its first name. */
  lemma FirstName(a: seq<string>, w: string)
    requires AreNames(a) && a != [] && (w == [] || w[0] == '/')
    ensures var t := Join(a, "/") + w; SlashAt(t) == |a[0]| && t[..|a[0]|] == a[0]
  {
    JoinHead(a);
    var u := if |a| == 1 then "" else "/" + Join(a[1..], "/");
    assert IsName(a[0]) && Join(a, "/") + w == a[0] + (u + w);
    SlashAfterName(a[0], u + w);
  }

  lemma FirstNames(a: seq<string>, b: seq<string>)
    requires AreNames(a) && AreNames(b) && a != [] && b != []
    ensures Starts(Join(b, "/"), Join(a, "/") + "/") || Join(a, "/") == Join(b, "/") ==> a[0] == b[0]
  {
    hide AreNames;
    var s, t := Join(a, "/"), Join(b, "/");
    FirstName(b, "");
    assert t + "" == t;
    if Starts(t, s + "/") {
      var w := "/" + t[|s| + 1..];
      FirstName(a, w);
      assert s + w == t[..|s| + 1] + t[|s| + 1..] == t;
    } else if s == t {
      FirstName(a, "");
    }
  }

  lemma OneName(a: seq<string>, b: seq<string>)
    requires AreNames(a) && AreNames(b) && a != [] && b != [] && a[0] == b[0] && (|a| == 1 || |b| == 1)
    ensures Starts(Join(b, "/"), Join(a, "/") + "/") <==> a < b
    ensures Join(a, "/") == Join(b, "/") <==> a == b
  {
    JoinHead(a);
    JoinHead(b);
    var s, t, x := Join(a, "/"), Join(b, "/"), a[0];
    if |a| == 1 && |b| == 1 {
      assert a == [x] && b == [x];
    } else if |a| == 1 {
      assert t[..|x| + 1] == x + "/";
      assert a == [x] && b[..1] == [x];
    } else {
      assert |s| > |x| && t == x;
      assert |b| == 1 && |a| > 1;
    }
  }

  lemma TailPrefix(a: seq<string>, b: seq<string>)
    requires |a| > 1 && |b| > 1 && a[0] == b[0]
    ensures Starts(Join(b, "/"), Join(a, "/") + "/") <==> Starts(Join(b[1..], "/"), Join(a[1..], "/") + "/")
    ensures Join(a, "/") == Join(b, "/") <==> Join(a[1..], "/") == Join(b[1..], "/")
    ensures a < b <==> a[1..] < b[1..]
    ensures a == b <==> a[1..] == b[1..]
  {
    var x, s, t := a[0] + "/", Join(a[1..], "/"), Join(b[1..], "/");
    assert Join(a, "/") == x + s && Join(b, "/") == x + t;
    assert (x + t)[|x|..] == t && (x + s)[|x|..] == s;
    assert x + s + "/" == x + (s + "/");
    if |s| + 1 <= |t| {
      assert (x + t)[..|x| + |s| + 1] == x + t[..|s| + 1];
      assert (x + (s + "/"))[|x|..] == s + "/" && (x + t[..|s| + 1])[|x|..] == t[..|s| + 1];
    }
    assert a == [a[0]] + a[1..] && b == [b[0]] + b[1..];
  }

  /** The prefix test holds exactly for the root and what is below it, except that nothing passes below "/". */
  lemma PrefixTestMeans(root: seq<string>, path: seq<string>)
    requires AreNames(root) && AreNames(path)
    ensures PrefixTest(root, path) <==> root == path || (root != [] && root < path)
  {
    var s, t := Join(root, "/"), Join(path, "/");
    assert PathText(root)[1..] == s && PathText(path)[1..] == t;
    if root == [] {
      RootPrefix(path);
    } else {
      JoinPrefix(root, path);
      assert PathText(root) + "/" == "/" + (s + "/");
      SlashPrefix(s + "/", t);
    }
  }

  lemma SlashPrefix(s: string, t: string)
    ensures Starts("/" + t, "/" + s) <==> Starts(t, s)
  {
    if |s| <= |t| {
      assert ("/" + t)[..|s| + 1] == "/" + t[..|s|];
      assert ("/" + s)[1..] == s && ("/" + t[..|s|])[1..] == t[..|s|];
    }
  }

  lemma RootPrefix(path: seq<string>)
    requires AreNames(path)
    ensures PrefixTest([], path) <==> path == []
  {
    if path != [] {
      JoinHead(path);
      assert IsName(path[0]) && path[0][0] in path[0];
      var t := PathText(path);
      assert t[1] == path[0][0];
      assert PathText([]) == "/" && PathText([]) + "/" == "//";
      assert t[..2][1] == t[1];
    }
  }

  // ---------------------------------------------------------------------------------
  // The two checks together

  lemma {:induction false} OneSegment(name: string)
    requires '/' !in name
    ensures Segments(name) == [name]
  {
    if name != [] {
      OneSegment(name[1..]);
      assert name == [name[0]] + name[1..];
    }
  }

  lemma ResolveName(base: seq<string>, name: string)
    requires IsName(name)
    ensures Resolve(base, name) == base + [name]
  {
    OneSegment(name);
    assert name[0] in name && [name][0] == name && [name][1..] == [];
    assert Follow(base, [name]) == Follow(base + [name], []) == base + [name];
  }

  lemma FixtureIsName()
    ensures IsName(FIXTURE_DIR)
  {
    var n: string := FIXTURE_DIR;
    assert |n| == 19;
  }

  /** The sandbox is a directory below the temporary directory, wherever that is. */
  lemma SandboxIsBelowTmp(cwd: seq<string>, tmp: string)
    requires AreNames(cwd)
    ensures SandboxDir(cwd, tmp) == Resolve(cwd, tmp) + ["zavorth-mcp-fixture"] && AreNames(SandboxDir(cwd, tmp))
  {
    FixtureIsName();
    ResolveName(Resolve(cwd, tmp), FIXTURE_DIR);
    ResolveGivesNames(cwd, tmp);
  }

  /** Exactly which paths the sandbox accepts. */
  lemma SandboxAccepts(cwd: seq<string>, tmp: string, p: string)
    requires AreNames(cwd)
    ensures var sandbox := SandboxDir(cwd, tmp); var resolved := Resolve(sandbox, p);
      ResolvePathInSandbox(cwd, tmp, p) ==
        if sandbox <= resolved && !DotsBelow(sandbox, resolved) then Some(resolved) else None
  {
    hide RelativeTest, PrefixTest, Resolve, DotsBelow;
    var sandbox := SandboxDir(cwd, tmp);
    SandboxIsBelowTmp(cwd, tmp);
    ResolveGivesNames(sandbox, p);
    RelativeTestMeans(sandbox, Resolve(sandbox, p));
    PrefixTestMeans(sandbox, Resolve(sandbox, p));
  }

  /** For directories in general the prefix test fails after the relative test only for a path below "/". */
  lemma PrefixTestFailsIff(root: seq<string>, path: seq<string>)
    requires AreNames(root) && AreNames(path) && RelativeTest(Relative(root, path))
    ensures PrefixTest(root, path) <==> root != [] || path == []
  {
    RelativeTestMeans(root, path);
    PrefixTestMeans(root, path);
  }

  /** The sandbox is never "/", so its second check never fails after the first. */
  lemma PrefixCheckIsRedundant(cwd: seq<string>, tmp: string, p: string)
    requires AreNames(cwd) && RelativeTest(Relative(SandboxDir(cwd, tmp), Resolve(SandboxDir(cwd, tmp), p)))
    ensures PrefixTest(SandboxDir(cwd, tmp), Resolve(SandboxDir(cwd, tmp), p))
  {
    hide RelativeTest, PrefixTest, Resolve;
    SandboxIsBelowTmp(cwd, tmp);
    ResolveGivesNames(SandboxDir(cwd, tmp), p);
    PrefixTestFailsIff(SandboxDir(cwd, tmp), Resolve(SandboxDir(cwd, tmp), p));
  }

  /** Below any directory but "/" the two tests differ exactly on a first inner segment that starts with two dots. */
  lemma TestsDifferIff(root: seq<string>, path: seq<string>)
    requires AreNames(root) && AreNames(path) && root != []
    ensures (RelativeTest(Relative(root, path)) <==> PrefixTest(root, path)) <==> !DotsBelow(root, path)
  {
    RelativeTestMeans(root, path);
    PrefixTestMeans(root, path);
  }

  /** Such a file lies in the sandbox, and only the first check refuses it. */
  lemma DottedNameIsRefused(cwd: seq<string>, tmp: string)
    requires AreNames(cwd)
    ensures PrefixTest(SandboxDir(cwd, tmp), SandboxDir(cwd, tmp) + ["..foo"]) &&
      Resolve(SandboxDir(cwd, tmp), "..foo") == SandboxDir(cwd, tmp) + ["..foo"] &&
      ResolvePathInSandbox(cwd, tmp, "..foo") == None
  {
    hide PrefixTest, Resolve, ResolvePathInSandbox;
    var sandbox, name: string := SandboxDir(cwd, tmp), "..foo";
    assert |name| == 5 && name[..2] == "..";
    assert IsName(name);
    ResolveName(sandbox, name);
    SandboxIsBelowTmp(cwd, tmp);
    PrefixTestMeans(sandbox, sandbox + [name]);
    assert DotsBelow(sandbox, sandbox + [name]);
    SandboxAccepts(cwd, tmp, name);
  }

  /** `isInside` accepts exactly the targets whose segments extend the root's, but not through such a segment. */
  lemma IsInsideMeans(cwd: seq<string>, root: string, target: string)
    requires AreNames(cwd)
    ensures var r, t := Resolve(cwd, root), Resolve(cwd, target);
      IsInside(cwd, root, target) <==> r <= t && !DotsBelow(r, t)
  {
    ResolveGivesNames(cwd, root);
    ResolveGivesNames(cwd, target);
    RelativeTestMeans(Resolve(cwd, root), Resolve(cwd, target));
  }
}
