/** The two loaders of `.env` files: one keeps the first value of a variable, the other the last. */
module EnvFiles {
  import opened Wrappers
  import opened Text

  /** `text.split(/\r?\n/u)` */
  function Lines(s: string): (lines: seq<string>)
    ensures lines != []
    decreases |s|
  {
    if s == [] then [""]
    else if s[0] == '\n' then [""] + Lines(s[1..])
    else if s[0] == '\r' && |s| > 1 && s[1] == '\n' then [""] + Lines(s[2..])
    else
      var r := Lines(s[1..]);
      [[s[0]] + r[0]] + r[1..]
  }

  /** `s.indexOf('=')`, or the length of the text. */
  function EqualsAt(s: string): (i: nat)
    ensures i <= |s| && '=' !in s[..i] && (i < |s| ==> s[i] == '=')
  {
    if s == [] || s[0] == '=' then 0
    else
      assert s[..1 + EqualsAt(s[1..])] == [s[0]] + s[1..][..EqualsAt(s[1..])];
      1 + EqualsAt(s[1..])
  }

  predicate Quoted(v: string, q: char) {
    v != [] && v[0] == q && v[|v| - 1] == q
  }

  /** `value.slice(1, -1)`, which is empty for a single quote character. */
  function Unquote(v: string): string {
    if Quoted(v, '"') || Quoted(v, '\'') then (if |v| < 2 then "" else v[1..|v| - 1]) else v
  }

  /** The assignment a line makes, if it makes one. */
  function Entry(line: string): Option<(string, string)> {
    var trimmed := Trim(line);
    if trimmed == [] || trimmed[0] == '#' then None
    else
      var eq := EqualsAt(trimmed);
      if eq == 0 || eq == |trimmed| then None
      else Some((Trim(trimmed[..eq]), Unquote(Trim(trimmed[eq + 1..]))))
  }

  /** The value a line assigns to a variable, if it does. */
  function Assigned(line: string, k: string): seq<string> {
    match Entry(line)
    case None => []
    case Some((key, value)) => if key == k then [value] else []
  }

  /** The values the lines assign to a variable, in order. */
  function Values(lines: seq<string>, k: string): seq<string> {
    if lines == [] then [] else Values(lines[..|lines| - 1], k) + Assigned(lines[|lines| - 1], k)
  }

  function Lookup(env: map<string, string>, k: string): Option<string> {
    if k in env then Some(env[k]) else None
  }

  function FirstNonEmpty(vs: seq<string>): (r: Option<string>)
    ensures r.Some? ==> r.value != "" && r.value in vs
  {
    if vs == [] then None else if vs[0] != "" then Some(vs[0]) else FirstNonEmpty(vs[1..])
  }

  /** A nonempty value that was there before, else the first nonempty one assigned, else an empty one assigned. */
  function FirstChoice(before: Option<string>, vs: seq<string>): Option<string> {
    if before.Some? && before.value != "" then before
    else if FirstNonEmpty(vs).Some? then FirstNonEmpty(vs)
    else if vs != [] then Some("")
    else before
  }

  /** The last value assigned, else what was there before. */
  function LastChoice(before: Option<string>, vs: seq<string>): Option<string> {
    if vs == [] then before else Some(vs[|vs| - 1])
  }

  lemma {:induction false} FirstNonEmptySnoc(vs: seq<string>, v: string)
    ensures FirstNonEmpty(vs + [v]) ==
      if FirstNonEmpty(vs).Some? then FirstNonEmpty(vs) else if v != "" then Some(v) else None
  {
    if vs == [] {
      assert [v][1..] == [];
    } else {
      assert (vs + [v])[1..] == vs[1..] + [v];
      FirstNonEmptySnoc(vs[1..], v);
    }
  }

  lemma FirstChoiceSnoc(before: Option<string>, vs: seq<string>, v: string)
    ensures var now := FirstChoice(before, vs);
      FirstChoice(before, vs + [v]) == if now.None? || now.value == "" then Some(v) else now
  {
    FirstNonEmptySnoc(vs, v);
  }

  /** One more line: what is chosen so far is the value before it. */
  lemma OneMoreLine(before: Option<string>, lines: seq<string>, i: nat, k: string)
    requires i < |lines|
    ensures var vs, vs', more := Values(lines[..i], k), Values(lines[..i + 1], k), Assigned(lines[i], k);
      FirstChoice(before, vs') == FirstChoice(FirstChoice(before, vs), more) &&
      LastChoice(before, vs') == LastChoice(LastChoice(before, vs), more)
  {
    hide Entry;
    assert lines[..i + 1][..i] == lines[..i] && lines[..i + 1][i] == lines[i];
    var vs, more := Values(lines[..i], k), Assigned(lines[i], k);
    if more == [] {
      assert vs + more == vs;
    } else {
      assert more == [more[0]] && more[1..] == [];
      FirstChoiceSnoc(before, vs, more[0]);
    }
  }

  class Environment {
    var vars: map<string, string>

    function Get(k: string): Option<string>
      reads this
    {
      Lookup(vars, k)
    }

    /** The loader that keeps values: it assigns only where there is none or an empty one. */
    method LoadFirstWins(text: string)
      modifies this
      ensures forall k :: Get(k) == FirstChoice(old(Get(k)), Values(Lines(text), k))
    {
      hide Entry, Values;
      var lines := Lines(text);
      NoValues();
      for i := 0 to |lines|
        invariant forall k :: Get(k) == FirstChoice(old(Get(k)), Values(lines[..i], k))
      {
        ghost var before := vars;
        var entry := Entry(lines[i]);
        if entry.Some? {
          var (key, value) := entry.value;
          if key !in vars || vars[key] == "" {
            vars := vars[key := value];
          }
        }
        forall k ensures Get(k) == FirstChoice(old(Get(k)), Values(lines[..i + 1], k)) {
          OneMoreLine(old(Get(k)), lines, i, k);
          assert Get(k) == FirstChoice(Lookup(before, k), Assigned(lines[i], k));
        }
      }
      assert lines[..|lines|] == lines;
    }

    /** The loader that overwrites. */
    method LoadLastWins(text: string)
      modifies this
      ensures forall k :: Get(k) == LastChoice(old(Get(k)), Values(Lines(text), k))
    {
      hide Entry, Values;
      var lines := Lines(text);
      NoValues();
      for i := 0 to |lines|
        invariant forall k :: Get(k) == LastChoice(old(Get(k)), Values(lines[..i], k))
      {
        ghost var before := vars;
        var entry := Entry(lines[i]);
        if entry.Some? {
          var (key, value) := entry.value;
          vars := vars[key := value];
        }
        forall k ensures Get(k) == LastChoice(old(Get(k)), Values(lines[..i + 1], k)) {
          OneMoreLine(old(Get(k)), lines, i, k);
          assert Get(k) == LastChoice(Lookup(before, k), Assigned(lines[i], k));
        }
      }
      assert lines[..|lines|] == lines;
    }
  }

  lemma NoValues()
    ensures forall k :: Values([], k) == []
    ensures forall before :: FirstChoice(before, []) == before && LastChoice(before, []) == before
  {
  }

  // ---------------------------------------------------------------------------------
  // When the loaders agree

  /** The nonempty value a variable had, if any, and then the values assigned to it. */
  function AllValues(before: Option<string>, vs: seq<string>): seq<string> {
    (if before.Some? && before.value != "" then [before.value] else []) + vs
  }

  /**
   The loaders agree on a variable exactly when it is not assigned, or its last value is the first nonempty
   one it ever had, or it never had a nonempty one.
   */
  lemma ChoicesAgreeIff(before: Option<string>, vs: seq<string>)
    ensures FirstChoice(before, vs) == LastChoice(before, vs) <==>
      vs == [] || FirstNonEmpty(AllValues(before, vs)) in {None, Some(vs[|vs| - 1])}
  {
    if before.Some? && before.value != "" {
      assert AllValues(before, vs)[0] == before.value;
    } else {
      assert AllValues(before, vs) == vs;
    }
    if FirstNonEmpty(vs) == None {
      AllEmpty(vs);
      assert vs != [] ==> vs[|vs| - 1] in vs;
    }
  }

  lemma {:induction false} AllEmpty(vs: seq<string>)
    requires FirstNonEmpty(vs) == None
    ensures forall v :: v in vs ==> v == ""
  {
    if vs != [] {
      AllEmpty(vs[1..]);
      assert vs == [vs[0]] + vs[1..];
    }
  }

  /** The loaders leave the same environment behind. */
  ghost predicate LoadersAgree(env: map<string, string>, text: string) {
    forall k ::
      FirstChoice(Lookup(env, k), Values(Lines(text), k)) == LastChoice(Lookup(env, k), Values(Lines(text), k))
  }

  lemma LoadersAgreeIff(env: map<string, string>, text: string)
    ensures LoadersAgree(env, text) <==>
      forall k :: var vs := Values(Lines(text), k);
        vs == [] || FirstNonEmpty(AllValues(Lookup(env, k), vs)) in {None, Some(vs[|vs| - 1])}
  {
    hide FirstChoice, LastChoice, Values, Lines, FirstNonEmpty, AllValues;
    forall k {
      ChoicesAgreeIff(Lookup(env, k), Values(Lines(text), k));
    }
  }

  /** The text assigns the variable at most once, and not at all if it had a nonempty value. */
  ghost predicate AssignedFresh(env: map<string, string>, text: string, k: string) {
    var vs := Values(Lines(text), k);
    |vs| <= 1 && (vs != [] ==> k !in env || env[k] == "")
  }

  /**
   Whatever else is in the environment, the loaders agree on every text that assigns no variable twice and
   none that had a nonempty value.
   */
  lemma FreshDistinctKeysAgree(env: map<string, string>, text: string)
    requires forall k :: AssignedFresh(env, text, k)
    ensures LoadersAgree(env, text)
  {
    hide Values, Lines;
    forall k
      ensures FirstChoice(Lookup(env, k), Values(Lines(text), k)) == LastChoice(Lookup(env, k), Values(Lines(text), k))
    {
      assert AssignedFresh(env, text, k);
      OneValue(Lookup(env, k), Values(Lines(text), k));
    }
  }

  lemma OneValue(before: Option<string>, vs: seq<string>)
    requires |vs| <= 1 && (vs != [] ==> before.None? || before.value == "")
    ensures FirstChoice(before, vs) == LastChoice(before, vs)
  {
    if vs != [] {
      assert vs[1..] == [];
      assert FirstNonEmpty(vs) == if vs[0] != "" then Some(vs[0]) else None;
    }
  }

  // ---------------------------------------------------------------------------------
  // Reading a printed entry back

  /** A name that can be written before the equals sign. */
  predicate GoodKey(k: string) {
    k != "" && Trimmed(k) && '=' !in k && k[0] != '#'
  }

  function PrintEntry(k: string, v: string): string {
    k + "=\"" + v + "\""
  }

  lemma TrimmedIsFixed(s: string)
    requires Trimmed(s)
    ensures Trim(s) == s
  {
  }

  lemma {:induction false} EqualsAtAppend(k: string, rest: string)
    requires '=' !in k
    ensures EqualsAt(k + "=" + rest) == |k|
  {
    var s := k + "=" + rest;
    if k != [] {
      assert s[1..] == k[1..] + "=" + rest;
      EqualsAtAppend(k[1..], rest);
    }
  }

  lemma GoodKeyReadsBack(k: string, v: string)
    requires GoodKey(k)
    ensures Entry(PrintEntry(k, v)) == Some((k, v))
  {
    hide EqualsAt, Trim;
    var quoted := "\"" + v + "\"";
    var line := PrintEntry(k, v);
    assert line == k + "=" + quoted;
    assert line[0] == k[0] && line[|line| - 1] == '"';
    TrimmedIsFixed(line);
    EqualsAtAppend(k, quoted);
    assert line[..|k|] == k && line[|k| + 1..] == quoted;
    TrimmedIsFixed(k);
    TrimmedIsFixed(quoted);
    assert quoted[1..|quoted| - 1] == v;
  }

  lemma TrimElements(s: string)
    ensures forall c :: c in Trim(s) ==> c in s
  {
    TrimStartShape(s);
    TrimEndShape(TrimStart(s));
  }

  lemma {:induction false} TrimEndHead(s: string)
    requires s != [] && !IsSpace(s[0])
    ensures TrimEnd(s) != [] && TrimEnd(s)[0] == s[0]
  {
    if |s| > 1 && IsSpace(s[|s| - 1]) {
      TrimEndHead(s[..|s| - 1]);
    }
  }

  lemma TrimHead(s: string)
    requires s != [] && !IsSpace(s[0])
    ensures Trim(s) != [] && Trim(s)[0] == s[0]
  {
    TrimEndHead(s);
    assert TrimStart(s) == s;
  }

  /** Every key that is read is a good one. */
  lemma ReadKeysAreGood(line: string)
    requires Entry(line).Some?
    ensures GoodKey(Entry(line).value.0)
  {
    hide TrimStart, TrimEnd;
    var trimmed := Trim(line);
    var eq := EqualsAt(trimmed);
    TrimIsTrimmed(line);
    TrimIsTrimmed(trimmed[..eq]);
    TrimElements(trimmed[..eq]);
    TrimHead(trimmed[..eq]);
  }

  /** A printed entry reads back as its key and value exactly when the key is a good one, whatever the value. */
  lemma PrintedEntryReadsBackIff(k: string, v: string)
    ensures Entry(PrintEntry(k, v)) == Some((k, v)) <==> GoodKey(k)
  {
    if GoodKey(k) {
      GoodKeyReadsBack(k, v);
    } else if Entry(PrintEntry(k, v)).Some? {
      ReadKeysAreGood(PrintEntry(k, v));
    }
  }

  // ---------------------------------------------------------------------------------
  // Reading a printed file back

  predicate IsLine(s: string) {
    '\n' !in s && (s == [] || s[|s| - 1] != '\r')
  }

  lemma {:induction false} LinesOfLine(s: string)
    requires '\n' !in s
    ensures Lines(s) == [s]
  {
    if s != [] {
      LinesOfLine(s[1..]);
      assert s == [s[0]] + s[1..];
    }
  }

  lemma {:induction false} LinesAppend(s: string, rest: string)
    requires IsLine(s)
    ensures Lines(s + ("\n" + rest)) == [s] + Lines(rest)
  {
    var t := s + ("\n" + rest);
    if s == [] {
      assert t == "\n" + rest && t[1..] == rest;
    } else {
      assert t[0] == s[0] && t[1..] == s[1..] + ("\n" + rest);
      assert |s| > 1 ==> t[1] == s[1] && s[1] in s;
      assert s[0] in s;
      LinesAppend(s[1..], rest);
      var r := [s[1..]] + Lines(rest);
      assert r[0] == s[1..] && r[1..] == Lines(rest);
      assert s == [s[0]] + s[1..];
    }
  }

  lemma {:induction false} LinesOfJoin(lines: seq<string>)
    requires lines != [] && forall i :: 0 <= i < |lines| ==> IsLine(lines[i])
    ensures Lines(Join(lines, "\n")) == lines
  {
    if |lines| == 1 {
      LinesOfLine(lines[0]);
    } else {
      LinesOfJoin(lines[1..]);
      LinesAppend(lines[0], Join(lines[1..], "\n"));
      assert lines[0] + "\n" + Join(lines[1..], "\n") == lines[0] + ("\n" + Join(lines[1..], "\n"));
      assert lines == [lines[0]] + lines[1..];
    }
  }

  function PrintEach(entries: seq<(string, string)>): seq<string> {
    if entries == [] then []
    else PrintEach(entries[..|entries| - 1]) + [PrintEntry(entries[|entries| - 1].0, entries[|entries| - 1].1)]
  }

  /** The entries can stand on lines of their own. */
  ghost predicate Printable(entries: seq<(string, string)>) {
    forall i :: 0 <= i < |entries| ==> GoodKey(entries[i].0) && '\n' !in entries[i].0 && '\n' !in entries[i].1
  }

  /** The values of the entries with the given key, in order. */
  function ValuesOf(entries: seq<(string, string)>, k: string): seq<string> {
    if entries == [] then []
    else
      var last := entries[|entries| - 1];
      ValuesOf(entries[..|entries| - 1], k) + if last.0 == k then [last.1] else []
  }

  lemma PrintedIsLine(k: string, v: string)
    requires '\n' !in k && '\n' !in v
    ensures IsLine(PrintEntry(k, v))
  {
    var s := PrintEntry(k, v);
    assert s[|s| - 1] == '"';
    forall c | c in s ensures c != '\n' {
      assert c in k || c in "=\"" || c in v || c in "\"";
    }
  }

  lemma {:induction false} PrintEachLines(entries: seq<(string, string)>)
    requires Printable(entries)
    ensures |PrintEach(entries)| == |entries| && forall i :: 0 <= i < |entries| ==> IsLine(PrintEach(entries)[i])
  {
    hide IsLine, PrintEntry, GoodKey;
    if entries != [] {
      var last := entries[|entries| - 1];
      PrintEachLines(entries[..|entries| - 1]);
      PrintedIsLine(last.0, last.1);
    }
  }

  lemma ValuesSnoc(lines: seq<string>, line: string, k: string)
    ensures Values(lines + [line], k) == Values(lines, k) + Assigned(line, k)
  {
    hide Assigned;
    assert (lines + [line])[..|lines|] == lines;
  }

  lemma {:induction false} PrintedValues(entries: seq<(string, string)>, k: string)
    requires Printable(entries)
    ensures Values(PrintEach(entries), k) == ValuesOf(entries, k)
  {
    hide Entry, PrintEntry, GoodKey, Values;
    if entries == [] {
      NoValues();
    } else {
      var init, last := entries[..|entries| - 1], entries[|entries| - 1];
      PrintedValues(init, k);
      GoodKeyReadsBack(last.0, last.1);
      ValuesSnoc(PrintEach(init), PrintEntry(last.0, last.1), k);
    }
  }

  /** A printed file assigns each key its printed values in order and nothing else, whatever the values. */
  lemma PrintedFileReadsBack(entries: seq<(string, string)>, k: string)
    requires Printable(entries)
    ensures Values(Lines(Join(PrintEach(entries), "\n")), k) == ValuesOf(entries, k)
  {
    hide Values, Lines, PrintEntry, GoodKey;
    if entries == [] {
      assert PrintEach(entries) == [] && Join([], "\n") == "";
      EmptyFile(k);
    } else {
      PrintEachLines(entries);
      LinesOfJoin(PrintEach(entries));
      PrintedValues(entries, k);
    }
  }

  lemma EmptyFile(k: string)
    ensures Values(Lines(""), k) == []
  {
    assert [""][..0] == [];
    assert Values([""], k) == Values([], k) + Assigned("", k);
  }

  /** What is read from a line holds no line break, and its key is a good one. */
  lemma ReadEntryIsClean(line: string)
    requires '\n' !in line && Entry(line).Some?
    ensures var (k, v) := Entry(line).value; GoodKey(k) && '\n' !in k && '\n' !in v
  {
    hide Trim, GoodKey, Trimmed, EqualsAt, Unquote;
    ReadKeysAreGood(line);
    var trimmed := Trim(line);
    var eq := EqualsAt(trimmed);
    TrimElements(line);
    TrimElements(trimmed[..eq]);
    TrimElements(trimmed[eq + 1..]);
    UnquoteElements(Trim(trimmed[eq + 1..]));
  }

  lemma UnquoteElements(v: string)
    ensures forall c :: c in Unquote(v) ==> c in v
  {
  }

  lemma {:induction false} LinesAreClean(s: string)
    ensures forall i :: 0 <= i < |Lines(s)| ==> '\n' !in Lines(s)[i]
    decreases |s|
  {
    if s != [] {
      LinesAreClean(s[1..]);
      if s[0] == '\r' && |s| > 1 && s[1] == '\n' { LinesAreClean(s[2..]); }
    }
  }

  /** No text assigns a bad key, a key with a line break, or a value with one. */
  lemma {:induction false} ValuesAreClean(lines: seq<string>, k: string)
    requires forall i :: 0 <= i < |lines| ==> '\n' !in lines[i]
    ensures Values(lines, k) != [] ==> GoodKey(k) && '\n' !in k
    ensures forall v :: v in Values(lines, k) ==> '\n' !in v
  {
    hide Entry, GoodKey;
    if lines != [] {
      ValuesAreClean(lines[..|lines| - 1], k);
      var line := lines[|lines| - 1];
      if Entry(line).Some? { ReadEntryIsClean(line); }
    }
  }

  lemma {:induction false} EntryIsValue(entries: seq<(string, string)>, i: nat)
    requires i < |entries|
    ensures entries[i].1 in ValuesOf(entries, entries[i].0)
  {
    var init := entries[..|entries| - 1];
    if i < |init| {
      assert init[i] == entries[i];
      EntryIsValue(init, i);
    }
  }

  /** The printed file assigns every key its printed values, and nothing else. */
  ghost predicate ReadsBack(entries: seq<(string, string)>) {
    forall k :: Values(Lines(Join(PrintEach(entries), "\n")), k) == ValuesOf(entries, k)
  }

  /** A printed file reads back exactly when each key is a good one and no key or value holds a line break. */
  lemma ReadsBackIff(entries: seq<(string, string)>)
    ensures ReadsBack(entries) <==> Printable(entries)
  {
    hide Values, Lines, PrintEntry, PrintEach, GoodKey;
    if Printable(entries) {
      forall k {:trigger ValuesOf(entries, k)}
        ensures Values(Lines(Join(PrintEach(entries), "\n")), k) == ValuesOf(entries, k)
      {
        PrintedFileReadsBack(entries, k);
      }
    }
    if ReadsBack(entries) {
      var lines := Lines(Join(PrintEach(entries), "\n"));
      LinesAreClean(Join(PrintEach(entries), "\n"));
      forall i | 0 <= i < |entries|
        ensures GoodKey(entries[i].0) && '\n' !in entries[i].0 && '\n' !in entries[i].1
      {
        EntryIsValue(entries, i);
        ValuesAreClean(lines, entries[i].0);
        assert Values(lines, entries[i].0) == ValuesOf(entries, entries[i].0);
      }
    }
  }

  ghost predicate DistinctKeys(entries: seq<(string, string)>) {
    forall i, j :: 0 <= i < j < |entries| ==> entries[i].0 != entries[j].0
  }

  lemma {:induction false} DistinctValues(entries: seq<(string, string)>, k: string)
    requires DistinctKeys(entries)
    ensures |ValuesOf(entries, k)| <= 1
    ensures forall i :: 0 <= i < |entries| && entries[i].0 == k ==> ValuesOf(entries, k) == [entries[i].1]
    ensures ValuesOf(entries, k) != [] ==> exists i :: 0 <= i < |entries| && entries[i].0 == k
  {
    if entries != [] {
      var init := entries[..|entries| - 1];
      DistinctValues(init, k);
      if ValuesOf(init, k) != [] {
        var i :| 0 <= i < |init| && init[i].0 == k;
        assert entries[i].0 == k;
      }
    }
  }

  /** With distinct keys that had no value before, both loaders read the printed file back as printed. */
  lemma BothReadPrintedFile(entries: seq<(string, string)>, env: map<string, string>, i: nat)
    requires Printable(entries) && DistinctKeys(entries) && i < |entries|
    requires forall j :: 0 <= j < |entries| ==> entries[j].0 !in env || env[entries[j].0] == ""
    ensures var text, k := Join(PrintEach(entries), "\n"), entries[i].0;
      LoadersAgree(env, text) && LastChoice(Lookup(env, k), Values(Lines(text), k)) == Some(entries[i].1)
  {
    hide Values, Lines, PrintEntry, PrintEach, Join, Printable, DistinctKeys, ValuesOf, LoadersAgree;
    var text := Join(PrintEach(entries), "\n");
    forall k ensures AssignedFresh(env, text, k) {
      PrintedFileReadsBack(entries, k);
      DistinctValues(entries, k);
    }
    FreshDistinctKeysAgree(env, text);
    PrintedFileReadsBack(entries, entries[i].0);
    DistinctValues(entries, entries[i].0);
  }
}
