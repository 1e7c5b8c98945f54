/** The retention engine: which entries a policy selects and what removing them frees. */
module Retention {
  import opened Wrappers
  import opened FileTree

  datatype Stats = Stats(isDir: bool, size: nat, mtime: real)
  datatype Candidate = Candidate(path: Path, stats: Stats)

  /**
   `selects` is the predicate `include`: it sees the path below the workspace and the stats; it is a pure test
   in every listed policy.
   */
  datatype Policy = Policy(
    id: string, root: Path, maxAgeDays: nat, maxEntries: Option<nat>, selects: Candidate -> bool)

  datatype Action = Action(policyId: string, path: Path, bytes: nat, ageDays: int, removed: bool)

  /** A policy root that is a plain file makes `readdirSync` throw. */
  datatype Outcome<+T> = Done(value: T) | NotADirectory(root: Path)

  const DAY_MS: real := 24.0 * 60.0 * 60.0 * 1000.0

  function StatsOf(n: Node): Stats {
    match n
    case File(size, mtime) => Stats(false, size, mtime)
    case Dir(mtime, _) => Stats(true, 0, mtime)
  }

  /** `walk(root)`: every entry below a directory, each directory before what it holds. */
  function Walk(es: Entries, at: Path): seq<Candidate> {
    match es
    case Empty => []
    case Entry(name, node, rest) =>
      [Candidate(at + [name], StatsOf(node))] +
      (if node.Dir? then Walk(node.entries, at + [name]) else []) +
      Walk(rest, at)
  }

  function Listing(es: Entries, root: Path): Outcome<seq<Candidate>> {
    match Lookup(es, root)
    case None => Done([])
    case Some(File(_, _)) => NotADirectory(root)
    case Some(Dir(_, entries)) => Done(Walk(entries, root))
  }

  function Keep(f: Candidate -> bool, cs: seq<Candidate>): seq<Candidate> {
    if cs == [] then []
    else (if f(cs[0]) then [cs[0]] else []) + Keep(f, cs[1..])
  }

  function Insert(c: Candidate, cs: seq<Candidate>): seq<Candidate> {
    if cs == [] || c.stats.mtime >= cs[0].stats.mtime then [c] + cs
    else [cs[0]] + Insert(c, cs[1..])
  }

  /** The stable sort, newest first. */
  function SortNewest(cs: seq<Candidate>): seq<Candidate> {
    if cs == [] then [] else Insert(cs[0], SortNewest(cs[1..]))
  }

  function Candidates(es: Entries, policy: Policy): Outcome<seq<Candidate>> {
    match Listing(es, policy.root)
    case Done(all) => Done(SortNewest(Keep(policy.selects, all)))
    case NotADirectory(root) => NotADirectory(root)
  }

  predicate StaleByAge(policy: Policy, now: real, c: Candidate) {
    now - c.stats.mtime > policy.maxAgeDays as real * DAY_MS
  }

  predicate StaleByCount(policy: Policy, index: nat) {
    policy.maxEntries.Some? && index >= policy.maxEntries.value
  }

  predicate Stale(policy: Policy, now: real, c: Candidate, index: nat) {
    StaleByAge(policy, now, c) || StaleByCount(policy, index)
  }

  /** The candidates to remove, when the first of them has the given index. */
  function Select(policy: Policy, now: real, cs: seq<Candidate>, index: nat): seq<Candidate> {
    if cs == [] then []
    else
      (if Stale(policy, now, cs[0], index) then [cs[0]] else []) +
      Select(policy, now, cs[1..], index + 1)
  }

  // ---------------------------------------------------------------------------------
  // Removing

  /** The bytes `removeCandidate` reports for an entry of the tree as it is now. */
  function BytesOf(es: Entries, c: Candidate): nat {
    if c.stats.isDir then SizeAt(es, c.path) else c.stats.size
  }

  function AgeDays(now: real, c: Candidate): int {
    ((now - c.stats.mtime) / DAY_MS).Floor
  }

  function After(es: Entries, apply: bool, c: Candidate): Entries {
    if apply then Remove(es, c.path) else es
  }

  function TreeAfter(es: Entries, apply: bool, cs: seq<Candidate>): Entries
    decreases |cs|
  {
    if cs == [] then es else TreeAfter(After(es, apply, cs[0]), apply, cs[1..])
  }

  function Actions(es: Entries, policy: Policy, now: real, apply: bool, cs: seq<Candidate>): seq<Action>
    decreases |cs|
  {
    if cs == [] then [] else
      [Action(policy.id, cs[0].path, BytesOf(es, cs[0]), AgeDays(now, cs[0]), apply)] +
      Actions(After(es, apply, cs[0]), policy, now, apply, cs[1..])
  }

  function TotalBytes(actions: seq<Action>): nat {
    if actions == [] then 0 else actions[0].bytes + TotalBytes(actions[1..])
  }

  /** `scanPolicy`: the actions it reports and the tree it leaves. */
  function Scan(es: Entries, policy: Policy, now: real, apply: bool): Outcome<(Entries, seq<Action>)> {
    match Candidates(es, policy)
    case NotADirectory(root) => NotADirectory(root)
    case Done(cs) =>
      var doomed := Select(policy, now, cs, 0);
      Done((TreeAfter(es, apply, doomed), Actions(es, policy, now, apply, doomed)))
  }

  function Prepend(actions: seq<Action>, r: Outcome<(Entries, seq<Action>)>): Outcome<(Entries, seq<Action>)> {
    match r
    case NotADirectory(root) => r
    case Done((es, more)) => Done((es, actions + more))
  }

  /** `policies.flatMap(scanPolicy)`. */
  function ScanAll(es: Entries, policies: seq<Policy>, now: real, apply: bool): Outcome<(Entries, seq<Action>)>
    decreases |policies|
  {
    if policies == [] then Done((es, []))
    else
      match Scan(es, policies[0], now, apply)
      case NotADirectory(root) => NotADirectory(root)
      case Done((es', actions)) => Prepend(actions, ScanAll(es', policies[1..], now, apply))
  }

  lemma PrependTwice(a: seq<Action>, b: seq<Action>, r: Outcome<(Entries, seq<Action>)>)
    ensures Prepend(a, Prepend(b, r)) == Prepend(a + b, r) && Prepend([], r) == r
  {
    if r.Done? {
      assert a + (b + r.value.1) == (a + b) + r.value.1;
      assert [] + r.value.1 == r.value.1;
    }
  }

  lemma OneMoreAction(es: Entries, policy: Policy, now: real, apply: bool, cs: seq<Candidate>, i: nat)
    requires i < |cs|
    ensures Actions(es, policy, now, apply, cs[i..]) ==
      Actions(es, policy, now, apply, [cs[i]]) + Actions(After(es, apply, cs[i]), policy, now, apply, cs[i + 1..])
    ensures TreeAfter(es, apply, cs[i..]) == TreeAfter(After(es, apply, cs[i]), apply, cs[i + 1..])
  {
    hide BytesOf, AgeDays, After;
    assert cs[i..][0] == cs[i] && cs[i..][1..] == cs[i + 1..] && [cs[i]][1..] == [];
  }

  lemma NoMoreActions(es: Entries, policy: Policy, now: real, apply: bool)
    ensures Actions(es, policy, now, apply, []) == [] && TreeAfter(es, apply, []) == es
  {
  }

  // ---------------------------------------------------------------------------------
  // The script's own loops

  class Disk {
    var entries: Entries

    constructor (es: Entries)
      ensures entries == es
    {
      entries := es;
    }

    method RemoveCandidate(policy: Policy, now: real, apply: bool, c: Candidate) returns (action: Action)
      modifies this
      ensures [action] == Actions(old(entries), policy, now, apply, [c])
      ensures entries == After(old(entries), apply, c)
    {
      var bytes := if c.stats.isDir then SizeAt(entries, c.path) else c.stats.size;
      var ageDays := AgeDays(now, c);
      if apply {
        entries := Remove(entries, c.path);
      }
      return Action(policy.id, c.path, bytes, ageDays, apply);
    }

    /** `walk`, then `include`, then the sort. */
    method ListCandidates(policy: Policy) returns (r: Outcome<seq<Candidate>>)
      ensures r == Candidates(entries, policy)
    {
      match Lookup(entries, policy.root)
      case None => return Done([]);
      case Some(File(_, _)) => return NotADirectory(policy.root);
      case Some(Dir(_, below)) =>
        var all := WalkLoop(below, policy.root);
        return Done(SortNewest(Keep(policy.selects, all)));
    }

    method ScanPolicy(policy: Policy, now: real, apply: bool) returns (r: Outcome<seq<Action>>)
      modifies this
      ensures match Scan(old(entries), policy, now, apply)
        case Done((es, actions)) => r == Done(actions) && entries == es
        case NotADirectory(root) => r == NotADirectory(root) && entries == old(entries)
    {
      hide Actions, TreeAfter;
      ghost var es := entries;
      var listed := ListCandidates(policy);
      if listed.NotADirectory? {
        return NotADirectory(listed.root);
      }
      var doomed := Select(policy, now, listed.value, 0);
      var actions := [];
      assert doomed[0..] == doomed;
      for i := 0 to |doomed|
        invariant TreeAfter(es, apply, doomed) == TreeAfter(entries, apply, doomed[i..])
        invariant Actions(es, policy, now, apply, doomed) == actions + Actions(entries, policy, now, apply, doomed[i..])
      {
        OneMoreAction(entries, policy, now, apply, doomed, i);
        var action := RemoveCandidate(policy, now, apply, doomed[i]);
        actions := actions + [action];
      }
      NoMoreActions(entries, policy, now, apply);
      assert doomed[|doomed|..] == [] && actions + [] == actions;
      return Done(actions);
    }

    /** Runs every policy in order on the same disk, collecting the actions. */
    method Run(policies: seq<Policy>, now: real, apply: bool) returns (r: Outcome<seq<Action>>)
      modifies this
      ensures match ScanAll(old(entries), policies, now, apply)
        case Done((es, actions)) => r == Done(actions) && entries == es
        case NotADirectory(root) => r == NotADirectory(root)
    {
      ghost var start := ScanAll(entries, policies, now, apply);
      var actions := [];
      assert policies[0..] == policies;
      PrependTwice([], [], start);
      for i := 0 to |policies|
        invariant start == Prepend(actions, ScanAll(entries, policies[i..], now, apply))
      {
        assert policies[i..][0] == policies[i] && policies[i..][1..] == policies[i + 1..];
        var one := ScanPolicy(policies[i], now, apply);
        match one
        case NotADirectory(root) => return NotADirectory(root);
        case Done(some) =>
          PrependTwice(actions, some, ScanAll(entries, policies[i + 1..], now, apply));
          actions := actions + some;
      }
      assert policies[|policies|..] == [];
      assert actions + [] == actions;
      return Done(actions);
    }
  }

  lemma Regroup(a: seq<Candidate>, b: seq<Candidate>, c: seq<Candidate>, d: seq<Candidate>)
    ensures a + (b + c + d) == a + b + c + d
  {
  }

  /** `walk` as it is written: a loop over the listing that pushes onto a list. */
  method WalkLoop(es: Entries, at: Path) returns (found: seq<Candidate>)
    ensures found == Walk(es, at)
    decreases es
  {
    found := [];
    var left := es;
    while left.Entry?
      invariant left == es || left < es
      invariant found + Walk(left, at) == Walk(es, at)
      decreases left
    {
      var name, node := left.name, left.node;
      var entry, below := [Candidate(at + [name], StatsOf(node))], [];
      if node.Dir? {
        below := WalkLoop(node.entries, at + [name]);
      }
      Regroup(found, entry, below, Walk(left.rest, at));
      found := found + entry + below;
      left := left.rest;
    }
  }
}
