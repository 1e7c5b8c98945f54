/** `path.resolve` by its laws, which determine it for every directory and text. */
module PathResolution {
  import opened Wrappers
  import opened Text
  import opened Containment

  function Parent(base: seq<string>): seq<string> {
    if base == [] then [] else base[..|base| - 1]
  }

  /** What one segment does, how two texts with a slash between them combine, and that a first slash starts over. */
  ghost predicate ResolvesPaths(f: (seq<string>, string) -> seq<string>) {
    (forall base :: f(base, "") == base && f(base, ".") == base && f(base, "..") == Parent(base)) &&
    (forall base, name :: IsName(name) ==> f(base, name) == base + [name]) &&
    (forall base, q :: f(base, "/" + q) == f([], q)) &&
    forall base, p, q :: p != "" && (q == "" || q[0] != '/') ==> f(base, p + "/" + q) == f(f(base, p), q)
  }

  lemma {:induction false} FollowAppend(base: seq<string>, a: seq<string>, b: seq<string>)
    ensures Follow(base, a + b) == Follow(Follow(base, a), b)
    decreases |a|
  {
    if a == [] {
      assert a + b == b;
    } else {
      assert (a + b)[0] == a[0] && (a + b)[1..] == a[1..] + b;
      var next :=
        if a[0] == "" || a[0] == "." then base else if a[0] == ".." then Parent(base) else base + [a[0]];
      FollowAppend(next, a[1..], b);
    }
  }

  lemma {:induction false} SegmentsConcat(p: string, q: string)
    ensures Segments(p + "/" + q) == Segments(p) + Segments(q)
  {
    if p == "" {
      assert p + "/" + q == "/" + q && ("/" + q)[1..] == q;
    } else {
      var s, r := p[1..] + "/" + q, Segments(p[1..]);
      assert p + "/" + q == [p[0]] + s;
      SegmentsConcat(p[1..], q);
      SegmentsCons(p[0], s);
      SegmentsCons(p[0], p[1..]);
      assert p == [p[0]] + p[1..];
      FirstOfBoth(p[0], r, Segments(q));
    }
  }

  lemma SegmentsCons(c: char, s: string)
    ensures var r := Segments(s);
      Segments([c] + s) == if c == '/' then [""] + r else [[c] + r[0]] + r[1..]
  {
    assert ([c] + s)[1..] == s;
  }

  lemma FirstOfBoth(c: char, a: seq<string>, b: seq<string>)
    requires a != []
    ensures [""] + (a + b) == [""] + a + b
    ensures [[c] + (a + b)[0]] + (a + b)[1..] == [[c] + a[0]] + a[1..] + b
  {
    assert (a + b)[0] == a[0] && (a + b)[1..] == a[1..] + b;
  }

  lemma ResolveOne(base: seq<string>)
    ensures Resolve(base, "") == base && Resolve(base, ".") == base && Resolve(base, "..") == Parent(base)
  {
    OneSegment(".");
    OneSegment("..");
    FollowOne(base, "");
    FollowOne(base, ".");
    FollowOne(base, "..");
  }

  lemma FollowOne(base: seq<string>, part: string)
    ensures Follow(base, [part]) ==
      if part == "" || part == "." then base else if part == ".." then Parent(base) else base + [part]
  {
    assert [part][1..] == [];
  }

  lemma ResolveFromRoot(base: seq<string>, q: string)
    ensures Resolve(base, "/" + q) == Resolve([], q)
  {
    SegmentsConcat("", q);
    assert "" + "/" + q == "/" + q;
    FollowAppend([], [""], Segments(q));
    FollowOne([], "");
  }

  lemma ResolveConcat(base: seq<string>, p: string, q: string)
    requires p != "" && (q == "" || q[0] != '/')
    ensures Resolve(base, p + "/" + q) == Resolve(Resolve(base, p), q)
  {
    SegmentsConcat(p, q);
    assert (p + "/" + q)[0] == p[0];
    FollowAppend(if p[0] == '/' then [] else base, Segments(p), Segments(q));
  }

  /** The model of `path.resolve` satisfies the laws. */
  lemma ResolveSatisfies()
    ensures ResolvesPaths(Resolve)
  {
    hide Resolve;
    forall base ensures Resolve(base, "") == base && Resolve(base, ".") == base && Resolve(base, "..") == Parent(base) {
      ResolveOne(base);
    }
    forall base, name | IsName(name) ensures Resolve(base, name) == base + [name] {
      ResolveName(base, name);
    }
    forall base, q ensures Resolve(base, "/" + q) == Resolve([], q) {
      ResolveFromRoot(base, q);
    }
    forall base, p, q | p != "" && (q == "" || q[0] != '/')
      ensures Resolve(base, p + "/" + q) == Resolve(Resolve(base, p), q)
    {
      ResolveConcat(base, p, q);
    }
  }

  /** Nothing else does: the laws say what every text resolves to. */
  lemma {:induction false} ResolveIsDetermined(f: (seq<string>, string) -> seq<string>, base: seq<string>, p: string)
    requires ResolvesPaths(f)
    ensures f(base, p) == Resolve(base, p)
    decreases |p|
  {
    hide Resolve;
    if '/' !in p {
      NoSlash(p);
      ResolveOne(base);
      if IsName(p) { ResolveName(base, p); }
    } else {
      var x, q := LastSlash(p);
      if x == "" {
        assert p == "/" + q;
        ResolveFromRoot(base, q);
        ResolveIsDetermined(f, [], q);
      } else {
        ResolveConcat(base, x, q);
        ResolveIsDetermined(f, base, x);
        ResolveIsDetermined(f, f(base, x), q);
      }
    }
  }

  lemma NoSlash(p: string)
    requires '/' !in p
    ensures p == "" || p == "." || p == ".." || IsName(p)
  {
  }

  lemma {:induction false} LastSlash(p: string) returns (x: string, q: string)
    requires '/' in p
    ensures p == x + "/" + q && (q == "" || q[0] != '/')
  {
    var init, last := p[..|p| - 1], p[|p| - 1];
    assert p == init + [last];
    if last == '/' {
      x, q := init, "";
    } else {
      var y, r := LastSlash(init);
      x, q := y, r + [last];
    }
  }

  // ---------------------------------------------------------------------------------
  // Relative paths

  lemma {:induction false} SegmentsOfJoin(parts: seq<string>)
    requires parts != [] && forall i :: 0 <= i < |parts| ==> '/' !in parts[i]
    ensures Segments(Join(parts, "/")) == parts
  {
    if |parts| == 1 {
      OneSegment(parts[0]);
      assert parts == [parts[0]];
    } else {
      SegmentsOfJoin(parts[1..]);
      SegmentsConcat(parts[0], Join(parts[1..], "/"));
      OneSegment(parts[0]);
      assert parts == [parts[0]] + parts[1..];
    }
  }

  lemma {:induction false} FollowUps(base: seq<string>, n: nat)
    requires n <= |base|
    ensures Follow(base, Ups(n)) == base[..|base| - n]
    decreases n
  {
    if n > 0 {
      FollowUps(base[..|base| - 1], n - 1);
      assert Ups(n)[1..] == Ups(n - 1);
    }
  }

  lemma {:induction false} FollowNames(base: seq<string>, names: seq<string>)
    requires AreNames(names)
    ensures Follow(base, names) == base + names
    decreases |names|
  {
    if names != [] {
      assert IsName(names[0]);
      FollowNames(base + [names[0]], names[1..]);
    }
  }

  lemma {:induction false} UpsAreUps(n: nat)
    ensures |Ups(n)| == n && forall i :: 0 <= i < n ==> Ups(n)[i] == ".."
  {
    if n > 0 { UpsAreUps(n - 1); }
  }

  lemma FollowAcross(p: seq<string>, u: seq<string>, y: seq<string>)
    requires AreNames(y)
    ensures Follow(p + u, Ups(|u|) + y) == p + y
  {
    hide AreNames, Follow;
    FollowUps(p + u, |u|);
    assert (p + u)[..|p + u| - |u|] == p;
    FollowNames(p, y);
    FollowAppend(p + u, Ups(|u|), y);
  }

  lemma NamesAfter(b: seq<string>, n: nat)
    requires AreNames(b) && n <= |b|
    ensures AreNames(b[n..]) && forall i :: n <= i < |b| ==> '/' !in b[i] && b[i] != ""
  {
  }

  lemma ResolveJoined(base: seq<string>, parts: seq<string>)
    requires parts != [] && (forall i :: 0 <= i < |parts| ==> '/' !in parts[i]) && parts[0] != ""
    ensures Resolve(base, Join(parts, "/")) == Follow(base, parts)
  {
    hide Follow, Segments;
    SegmentsOfJoin(parts);
    JoinHead(parts);
    assert Join(parts, "/")[0] == parts[0][0] && parts[0][0] in parts[0];
  }

  /** Following the relative path from the one directory leads to the other. */
  lemma RelativeLeadsBack(a: seq<string>, b: seq<string>)
    requires AreNames(a) && AreNames(b)
    ensures Resolve(a, Relative(a, b)) == b
  {
    hide Resolve, Follow, AreNames;
    var n := CommonLength(a, b);
    var ups := Ups(|a| - n);
    NamesAfter(b, n);
    FollowAcross(a[..n], a[n..], b[n..]);
    assert a == a[..n] + a[n..] && b == b[..n] + b[n..];
    UpsAreUps(|a| - n);
    if ups + b[n..] == [] {
      ResolveOne(a);
      assert a == a[..n] == b;
    } else {
      ResolveJoined(a, ups + b[n..]);
    }
  }

  /** No name next to the sandbox is let in. */
  lemma SiblingsAreRefused(cwd: seq<string>, tmp: string, name: string)
    requires AreNames(cwd) && IsName(name) && name != "zavorth-mcp-fixture"
    ensures ResolvePathInSandbox(cwd, tmp, "../" + name) == None
  {
    hide Resolve, ResolvePathInSandbox;
    var sandbox := SandboxDir(cwd, tmp);
    SandboxIsBelowTmp(cwd, tmp);
    assert "../" + name == ".." + "/" + name;
    assert name[0] in name;
    ResolveConcat(sandbox, "..", name);
    ResolveOne(sandbox);
    var above := Parent(sandbox);
    ResolveName(above, name);
    SandboxAccepts(cwd, tmp, "../" + name);
    assert sandbox[|above|] != (above + [name])[|above|];
  }
}
