/** A directory tree as the retention script sees it: listing, sizes and recursive removal. */
module FileTree {
  import opened Wrappers

  datatype Node = File(size: nat, mtime: real) | Dir(mtime: real, entries: Entries)

  /** A directory listing, in the order `readdirSync` gives it. */
  datatype Entries = Empty | Entry(name: string, node: Node, rest: Entries)

  /** The segments of a path below the workspace root; never empty for a file or directory in it. */
  type Path = seq<string>

  ghost predicate HasName(es: Entries, name: string) {
    es.Entry? && (es.name == name || HasName(es.rest, name))
  }

  /** No directory lists a name twice. */
  ghost predicate Valid(es: Entries) {
    es.Entry? ==> !HasName(es.rest, es.name) && Valid(es.rest) && (es.node.Dir? ==> Valid(es.node.entries))
  }

  function Lookup(es: Entries, p: Path): Option<Node> {
    if es.Empty? || p == [] then None
    else if es.name != p[0] then Lookup(es.rest, p)
    else if |p| == 1 then Some(es.node)
    else if es.node.File? then None
    else Lookup(es.node.entries, p[1..])
  }

  /** `fs.rmSync(path, { recursive: true, force: true })`: a missing path is no error. */
  function Remove(es: Entries, p: Path): Entries {
    if es.Empty? || p == [] then es
    else if es.name != p[0] then Entry(es.name, es.node, Remove(es.rest, p))
    else if |p| == 1 then es.rest
    else if es.node.File? then es
    else Entry(es.name, Dir(es.node.mtime, Remove(es.node.entries, p[1..])), es.rest)
  }

  function Size(es: Entries): nat {
    if es.Empty? then 0 else NodeSize(es.node) + Size(es.rest)
  }

  function NodeSize(n: Node): nat {
    match n
    case File(size, _) => size
    case Dir(_, entries) => Size(entries)
  }

  /** `directorySize(path)`: 0 when nothing is there. */
  function SizeAt(es: Entries, p: Path): nat {
    match Lookup(es, p)
    case None => 0
    case Some(n) => NodeSize(n)
  }

  // ---------------------------------------------------------------------------------
  // Removal

  lemma {:induction false} RemoveNames(es: Entries, p: Path, name: string)
    requires HasName(Remove(es, p), name)
    ensures HasName(es, name)
  {
    if es.Entry? && p != [] && es.name != p[0] && es.name != name {
      RemoveNames(es.rest, p, name);
    }
  }

  lemma {:induction false} RemoveValid(es: Entries, p: Path)
    requires Valid(es)
    ensures Valid(Remove(es, p))
  {
    if es.Entry? && p != [] {
      if es.name != p[0] {
        RemoveValid(es.rest, p);
        if HasName(Remove(es.rest, p), es.name) {
          RemoveNames(es.rest, p, es.name);
        }
      } else if |p| > 1 && es.node.Dir? {
        RemoveValid(es.node.entries, p[1..]);
      }
    }
  }

  /** What is removed is exactly what was there. */
  lemma {:induction false} RemoveConserves(es: Entries, p: Path)
    ensures Size(es) == Size(Remove(es, p)) + SizeAt(es, p)
  {
    if es.Entry? && p != [] {
      if es.name != p[0] {
        RemoveConserves(es.rest, p);
      } else if |p| > 1 && es.node.Dir? {
        RemoveConserves(es.node.entries, p[1..]);
      }
    }
  }

  lemma {:induction false} NoSuchName(es: Entries, p: Path)
    requires p != [] && !HasName(es, p[0])
    ensures Lookup(es, p) == None && Remove(es, p) == es
  {
    if es.Entry? {
      NoSuchName(es.rest, p);
    }
  }

  /** Removing q makes q and everything below it missing. */
  lemma {:induction false} LookupBelowRemoved(es: Entries, q: Path, p: Path)
    requires Valid(es) && q != [] && q <= p
    ensures Lookup(Remove(es, q), p) == None
  {
    if es.Entry? {
      if es.name != q[0] {
        LookupBelowRemoved(es.rest, q, p);
      } else if |q| == 1 {
        NoSuchName(es.rest, p);
      } else if es.node.Dir? {
        LookupBelowRemoved(es.node.entries, q[1..], p[1..]);
      }
    }
  }

  /** Removing q changes nothing at a path that is neither above nor below q. */
  lemma {:induction false} LookupElsewhere(es: Entries, q: Path, p: Path)
    requires Valid(es) && !(q <= p) && !(p <= q)
    ensures Lookup(Remove(es, q), p) == Lookup(es, p)
  {
    if es.Entry? && q != [] && p != [] {
      if es.name != q[0] {
        if es.name != p[0] {
          LookupElsewhere(es.rest, q, p);
        }
      } else if |q| == 1 {
        assert q == [q[0]];
        assert p[0] == q[0] ==> q <= p;
      } else if es.node.Dir? && es.name == p[0] && |p| > 1 {
        assert q == [q[0]] + q[1..] && p == [p[0]] + p[1..];
        LookupElsewhere(es.node.entries, q[1..], p[1..]);
      }
    }
  }

  /** A directory above q stays, without what was at q. */
  lemma {:induction false} LookupAboveRemoved(es: Entries, q: Path, p: Path)
    requires p != [] && p < q
    ensures Lookup(Remove(es, q), p) == match Lookup(es, p)
      case Some(Dir(mtime, entries)) => Some(Dir(mtime, Remove(entries, q[|p|..])))
      case other => other
  {
    if es.Entry? {
      if es.name != p[0] {
        LookupAboveRemoved(es.rest, q, p);
      } else if |p| > 1 && es.node.Dir? {
        LookupAboveRemoved(es.node.entries, q[1..], p[1..]);
        assert q[1..][|p[1..]|..] == q[|p|..];
      } else if |p| == 1 && es.node.Dir? {
        assert q[1..] == q[|p|..];
      }
    }
  }

  lemma {:induction false} LookupThrough(es: Entries, p: Path, r: Path)
    requires p != [] && r != []
    ensures Lookup(es, p + r) == match Lookup(es, p)
      case Some(Dir(_, entries)) => Lookup(entries, r)
      case _ => None
  {
    if es.Entry? {
      if es.name != p[0] {
        LookupThrough(es.rest, p, r);
      } else if |p| == 1 {
        assert (p + r)[1..] == r;
      } else {
        assert (p + r)[1..] == p[1..] + r;
        if es.node.Dir? { LookupThrough(es.node.entries, p[1..], r); }
      }
    }
  }

  /** How many bytes are left at p after removing q. */
  lemma SizeAfterRemove(es: Entries, q: Path, p: Path)
    requires Valid(es) && q != [] && p != []
    ensures SizeAt(Remove(es, q), p) ==
      if q <= p then 0 else if p <= q then SizeAt(es, p) - SizeAt(es, q) else SizeAt(es, p)
    ensures p <= q ==> SizeAt(es, q) <= SizeAt(es, p)
  {
    if p == q {
      LookupBelowRemoved(es, q, p);
    } else if q <= p {
      LookupBelowRemoved(es, q, p);
    } else if p <= q {
      LookupAboveRemoved(es, q, p);
      var r := q[|p|..];
      assert q == p + r;
      LookupThrough(es, p, r);
      match Lookup(es, p)
      case Some(Dir(_, entries)) => RemoveConserves(entries, r);
      case _ =>
    } else {
      LookupElsewhere(es, q, p);
    }
  }
}
