/** How listings, sorting and selection behave, and what removal does to them. */
module RetentionListing {
  import opened FileTree
  import opened Retention

  // ---------------------------------------------------------------------------------
  // Filters

  /** The entries that stay when q is removed. */
  function Outside(q: Path): Candidate -> bool {
    (c: Candidate) => !(q <= c.path)
  }

  lemma {:induction false} KeepAppend(f: Candidate -> bool, a: seq<Candidate>, b: seq<Candidate>)
    ensures Keep(f, a + b) == Keep(f, a) + Keep(f, b)
  {
    if a == [] {
      assert a + b == b;
    } else {
      var h := if f(a[0]) then [a[0]] else [];
      assert (a + b)[1..] == a[1..] + b && (a + b)[0] == a[0];
      KeepAppend(f, a[1..], b);
      AppendAssoc(h, Keep(f, a[1..]), Keep(f, b));
    }
  }

  lemma AppendAssoc(a: seq<Candidate>, b: seq<Candidate>, c: seq<Candidate>)
    ensures a + (b + c) == a + b + c
  {
  }

  lemma {:induction false} KeepAll(f: Candidate -> bool, cs: seq<Candidate>)
    requires forall c :: c in cs ==> f(c)
    ensures Keep(f, cs) == cs
  {
    if cs != [] {
      KeepAll(f, cs[1..]);
      assert cs[0] in cs;
    }
  }

  lemma {:induction false} KeepNone(f: Candidate -> bool, cs: seq<Candidate>)
    requires forall c :: c in cs ==> !f(c)
    ensures Keep(f, cs) == []
  {
    if cs != [] {
      KeepNone(f, cs[1..]);
      assert cs[0] in cs;
    }
  }

  lemma {:induction false} KeepMember(f: Candidate -> bool, cs: seq<Candidate>, c: Candidate)
    ensures c in Keep(f, cs) <==> c in cs && f(c)
  {
    if cs != [] {
      KeepMember(f, cs[1..], c);
      assert cs == [cs[0]] + cs[1..];
    }
  }

  lemma {:induction false} KeepCommutes(f: Candidate -> bool, g: Candidate -> bool, cs: seq<Candidate>)
    ensures Keep(f, Keep(g, cs)) == Keep(g, Keep(f, cs))
  {
    if cs != [] {
      KeepCommutes(f, g, cs[1..]);
      KeepCons(f, cs[0], Keep(g, cs[1..]));
      KeepCons(g, cs[0], Keep(f, cs[1..]));
    }
  }

  lemma KeepCons(f: Candidate -> bool, c: Candidate, cs: seq<Candidate>)
    ensures Keep(f, [c] + cs) == (if f(c) then [c] else []) + Keep(f, cs)
    ensures [] + cs == cs
  {
    assert ([c] + cs)[1..] == cs;
  }

  // ---------------------------------------------------------------------------------
  // Sorting

  predicate Newest(cs: seq<Candidate>) {
    forall i, j :: 0 <= i < j < |cs| ==> cs[i].stats.mtime >= cs[j].stats.mtime
  }

  lemma {:induction false} InsertElements(c: Candidate, cs: seq<Candidate>)
    ensures multiset(Insert(c, cs)) == multiset{c} + multiset(cs)
  {
    if cs != [] && c.stats.mtime < cs[0].stats.mtime {
      InsertElements(c, cs[1..]);
      assert cs == [cs[0]] + cs[1..];
    }
  }

  lemma NewestCons(c: Candidate, cs: seq<Candidate>)
    requires Newest(cs) && forall d :: d in multiset(cs) ==> c.stats.mtime >= d.stats.mtime
    ensures Newest([c] + cs)
  {
    forall j | 0 <= j < |cs| ensures c.stats.mtime >= cs[j].stats.mtime {
      assert cs[j] in multiset(cs);
    }
  }

  lemma {:induction false} InsertNewest(c: Candidate, cs: seq<Candidate>)
    requires Newest(cs)
    ensures Newest(Insert(c, cs))
  {
    if cs == [] || c.stats.mtime >= cs[0].stats.mtime {
      NewestCons(c, cs);
    } else {
      var r := Insert(c, cs[1..]);
      InsertNewest(c, cs[1..]);
      InsertElements(c, cs[1..]);
      NewestCons(cs[0], r);
    }
  }

  /** The sort is newest first and loses or adds nothing. */
  lemma {:induction false} SortIsSorted(cs: seq<Candidate>)
    ensures Newest(SortNewest(cs)) && multiset(SortNewest(cs)) == multiset(cs)
  {
    if cs != [] {
      SortIsSorted(cs[1..]);
      InsertNewest(cs[0], SortNewest(cs[1..]));
      InsertElements(cs[0], SortNewest(cs[1..]));
      assert cs == [cs[0]] + cs[1..];
    }
  }

  lemma KeepHead(f: Candidate -> bool, cs: seq<Candidate>)
    requires Newest(cs) && cs != [] && Keep(f, cs) != []
    ensures cs[0].stats.mtime >= Keep(f, cs)[0].stats.mtime
  {
    var first := Keep(f, cs)[0];
    KeepMember(f, cs, first);
    var i :| 0 <= i < |cs| && cs[i] == first;
  }

  lemma {:induction false} KeepInsert(f: Candidate -> bool, c: Candidate, cs: seq<Candidate>)
    requires Newest(cs)
    ensures Keep(f, Insert(c, cs)) == if f(c) then Insert(c, Keep(f, cs)) else Keep(f, cs)
  {
    if cs == [] || c.stats.mtime >= cs[0].stats.mtime {
      KeepCons(f, c, cs);
      if cs != [] && Keep(f, cs) != [] {
        KeepHead(f, cs);
      }
    } else {
      KeepInsert(f, c, cs[1..]);
      InsertPast(f, c, cs);
    }
  }

  lemma InsertPast(f: Candidate -> bool, c: Candidate, cs: seq<Candidate>)
    requires cs != [] && c.stats.mtime < cs[0].stats.mtime
    requires Keep(f, Insert(c, cs[1..])) == if f(c) then Insert(c, Keep(f, cs[1..])) else Keep(f, cs[1..])
    ensures Keep(f, Insert(c, cs)) == if f(c) then Insert(c, Keep(f, cs)) else Keep(f, cs)
  {
    var rest := Keep(f, cs[1..]);
    KeepCons(f, cs[0], Insert(c, cs[1..]));
    if f(cs[0]) {
      assert Keep(f, cs) == [cs[0]] + rest;
      assert ([cs[0]] + rest)[1..] == rest;
    } else {
      assert Keep(f, cs) == [] + rest == rest;
    }
  }

  /** Filtering before or after the stable sort is the same. */
  lemma {:induction false} KeepSort(f: Candidate -> bool, cs: seq<Candidate>)
    ensures Keep(f, SortNewest(cs)) == SortNewest(Keep(f, cs))
  {
    if cs != [] {
      KeepSort(f, cs[1..]);
      SortIsSorted(cs[1..]);
      KeepInsert(f, cs[0], SortNewest(cs[1..]));
      var rest := Keep(f, cs[1..]);
      if f(cs[0]) {
        assert ([cs[0]] + rest)[0] == cs[0] && ([cs[0]] + rest)[1..] == rest;
      } else {
        assert Keep(f, cs) == [] + rest == rest;
      }
    }
  }

  function ModifiedAt(t: real): Candidate -> bool {
    (c: Candidate) => c.stats.mtime == t
  }

  lemma {:induction false} SortLeavesEqual(cs: seq<Candidate>, t: real)
    requires forall c :: c in cs ==> c.stats.mtime == t
    ensures SortNewest(cs) == cs
  {
    if cs != [] {
      SortLeavesEqual(cs[1..], t);
      assert cs[0] in cs && forall c :: c in cs[1..] ==> c in cs;
    }
  }

  /** Candidates of the same time keep their order. */
  lemma SortIsStable(cs: seq<Candidate>, t: real)
    ensures Keep(ModifiedAt(t), SortNewest(cs)) == Keep(ModifiedAt(t), cs)
  {
    KeepSort(ModifiedAt(t), cs);
    forall c | c in Keep(ModifiedAt(t), cs) ensures c.stats.mtime == t {
      KeepMember(ModifiedAt(t), cs, c);
    }
    SortLeavesEqual(Keep(ModifiedAt(t), cs), t);
  }

  // ---------------------------------------------------------------------------------
  // Listings

  /** A listed entry lies below the start, under a name of the listing. */
  lemma {:induction false} WalkPaths(es: Entries, at: Path, c: Candidate)
    requires c in Walk(es, at)
    ensures at < c.path && HasName(es, c.path[|at|])
  {
    var here := at + [es.name];
    var below := if es.node.Dir? then Walk(es.node.entries, here) else [];
    if c == Candidate(here, StatsOf(es.node)) {
    } else if c in below {
      WalkPaths(es.node.entries, here, c);
    } else {
      assert c in Walk(es.rest, at);
      WalkPaths(es.rest, at, c);
    }
  }

  /** What is listed is what the tree holds there. */
  lemma {:induction false} WalkLooksUp(es: Entries, at: Path, c: Candidate)
    requires Valid(es) && c in Walk(es, at)
    ensures at < c.path
    ensures var n := Lookup(es, c.path[|at|..]); n.Some? && StatsOf(n.value) == c.stats
  {
    WalkPaths(es, at, c);
    var here := at + [es.name];
    var below := if es.node.Dir? then Walk(es.node.entries, here) else [];
    var p := c.path[|at|..];
    if c == Candidate(here, StatsOf(es.node)) {
      assert p == [es.name];
    } else if c in below {
      WalkLooksUp(es.node.entries, here, c);
      assert p[0] == here[|at|] == es.name && p[1..] == c.path[|here|..];
    } else {
      assert c in Walk(es.rest, at);
      WalkLooksUp(es.rest, at, c);
      WalkPaths(es.rest, at, c);
      assert p[0] != es.name;
    }
  }

  lemma {:induction false} KeepOthers(es: Entries, at: Path, q: Path)
    requires q != [] && !HasName(es, q[0])
    ensures Keep(Outside(at + q), Walk(es, at)) == Walk(es, at)
    ensures forall c :: c in Walk(es, at) ==> !(at + q <= c.path)
  {
    forall c | c in Walk(es, at) ensures !(at + q <= c.path) {
      WalkPaths(es, at, c);
      assert (at + q)[|at|] == q[0];
    }
    KeepAll(Outside(at + q), Walk(es, at));
  }

  /** Removing q takes q and everything below it out of the listing, and nothing else. */
  lemma {:induction false} WalkAfterRemove(es: Entries, at: Path, q: Path)
    requires Valid(es) && q != []
    ensures Walk(Remove(es, q), at) == Keep(Outside(at + q), Walk(es, at))
  {
    if es.Entry? {
      var here := at + [es.name];
      var head := [Candidate(here, StatsOf(es.node))];
      var below := if es.node.Dir? then Walk(es.node.entries, here) else [];
      var rest := Walk(es.rest, at);
      var f := Outside(at + q);
      KeepAppend(f, head + below, rest);
      KeepAppend(f, head, below);
      assert at + q == at + [q[0]] + q[1..];
      if es.name != q[0] {
        OtherSubtree(es, at, q);
        WalkAfterRemove(es.rest, at, q);
      } else if |q| == 1 {
        assert at + q == here;
        KeepOthers(es.rest, at, q);
        WholeSubtree(es, at);
      } else {
        assert !(at + q <= here);
        KeepAll(f, head);
        KeepOthers(es.rest, at, q);
        if es.node.Dir? {
          assert here + q[1..] == at + q;
          WalkAfterRemove(es.node.entries, here, q[1..]);
        }
      }
    }
  }

  lemma OtherSubtree(es: Entries, at: Path, q: Path)
    requires es.Entry? && q != [] && es.name != q[0]
    ensures var here := at + [es.name];
      Keep(Outside(at + q), [Candidate(here, StatsOf(es.node))]) == [Candidate(here, StatsOf(es.node))] &&
      (es.node.Dir? ==> Keep(Outside(at + q), Walk(es.node.entries, here)) == Walk(es.node.entries, here))
  {
    var here := at + [es.name];
    assert (at + q)[|at|] == q[0] && here[|at|] == es.name;
    KeepAll(Outside(at + q), [Candidate(here, StatsOf(es.node))]);
    if es.node.Dir? {
      forall c | c in Walk(es.node.entries, here) ensures !(at + q <= c.path) {
        WalkPaths(es.node.entries, here, c);
        assert c.path[|at|] == here[|at|];
      }
      KeepAll(Outside(at + q), Walk(es.node.entries, here));
    }
  }

  lemma WholeSubtree(es: Entries, at: Path)
    requires es.Entry?
    ensures var here := at + [es.name];
      Keep(Outside(here), [Candidate(here, StatsOf(es.node))]) == [] &&
      (es.node.Dir? ==> Keep(Outside(here), Walk(es.node.entries, here)) == [])
  {
    var here := at + [es.name];
    KeepNone(Outside(here), [Candidate(here, StatsOf(es.node))]);
    if es.node.Dir? {
      forall c | c in Walk(es.node.entries, here) ensures here <= c.path {
        WalkPaths(es.node.entries, here, c);
      }
      KeepNone(Outside(here), Walk(es.node.entries, here));
    }
  }

  // ---------------------------------------------------------------------------------
  // A policy's candidates after a removal

  ghost predicate Holds(es: Entries, c: Candidate) {
    c.path != [] && Lookup(es, c.path).Some? && StatsOf(Lookup(es, c.path).value) == c.stats
  }

  /** Every entry listed below a root is what the tree holds at its path. */
  lemma ListingHolds(es: Entries, root: Path, c: Candidate)
    requires Valid(es) && root != [] && Listing(es, root).Done? && c in Listing(es, root).value
    ensures Holds(es, c) && root < c.path
  {
    if Lookup(es, root).Some? {
      var sub := Lookup(es, root).value.entries;
      LookupValid(es, root);
      WalkLooksUp(sub, root, c);
      assert c.path == root + c.path[|root|..];
      LookupThrough(es, root, c.path[|root|..]);
    }
  }

  lemma {:induction false} LookupValid(es: Entries, p: Path)
    requires Valid(es)
    ensures match Lookup(es, p) case Some(Dir(_, entries)) => Valid(entries) case _ => true
  {
    if es.Entry? && p != [] {
      if es.name != p[0] {
        LookupValid(es.rest, p);
      } else if |p| > 1 && es.node.Dir? {
        LookupValid(es.node.entries, p[1..]);
      }
    }
  }

  /** After removing q a root lists what it listed before, without q and what is below it. */
  lemma ListingAfterRemove(es: Entries, root: Path, q: Path)
    requires Valid(es) && root != [] && q != [] && Listing(es, root).Done?
    ensures Listing(Remove(es, q), root) == Done(Keep(Outside(q), Listing(es, root).value))
  {
    var all := Listing(es, root).value;
    if q <= root {
      LookupBelowRemoved(es, q, root);
      forall c | c in all ensures q <= c.path {
        ListingHolds(es, root, c);
      }
      KeepNone(Outside(q), all);
    } else if root <= q {
      LookupAboveRemoved(es, q, root);
      assert q == root + q[|root|..];
      if Lookup(es, root).Some? {
        LookupValid(es, root);
        WalkAfterRemove(Lookup(es, root).value.entries, root, q[|root|..]);
      }
    } else {
      LookupElsewhere(es, q, root);
      forall c | c in all ensures !(q <= c.path) {
        ListingHolds(es, root, c);
        NotBelowBoth(q, root, c.path);
      }
      KeepAll(Outside(q), all);
    }
  }

  lemma NotBelowBoth(q: Path, root: Path, p: Path)
    requires root <= p && !(q <= root) && !(root <= q)
    ensures !(q <= p)
  {
  }

  /** The candidates after a removal: the same ones in the same order, without what was removed. */
  lemma CandidatesAfterRemove(es: Entries, policy: Policy, q: Path)
    requires Valid(es) && policy.root != [] && q != [] && Candidates(es, policy).Done?
    ensures Candidates(Remove(es, q), policy) == Done(Keep(Outside(q), Candidates(es, policy).value))
  {
    var all := Listing(es, policy.root).value;
    ListingAfterRemove(es, policy.root, q);
    KeepCommutes(policy.selects, Outside(q), all);
    KeepSort(Outside(q), Keep(policy.selects, all));
  }
}
