/** What the lines of an `.env` file are and what a line assigns, said without the functions of the loaders. */
module EnvLines {
  import opened Wrappers
  import opened Text
  import opened EnvFiles

  // ---------------------------------------------------------------------------------
  // Lines

  /** The lines in a row, with one separator between neighbours. */
  function Interleave(lines: seq<string>, seps: seq<string>): string
    requires |lines| == |seps| + 1
  {
    if seps == [] then lines[0] else lines[0] + seps[0] + Interleave(lines[1..], seps[1..])
  }

  /** A line feed, or a carriage return and a line feed; a carriage return before a line feed belongs to it. */
  predicate Separates(sep: string, line: string) {
    '\n' !in line && (sep == "\r\n" || (sep == "\n" && (line == "" || line[|line| - 1] != '\r')))
  }

  ghost predicate IsInterleaved(text: string, lines: seq<string>, seps: seq<string>) {
    |lines| == |seps| + 1 && text == Interleave(lines, seps) && '\n' !in lines[|seps|] &&
    forall i :: 0 <= i < |seps| ==> Separates(seps[i], lines[i])
  }

  lemma InterleaveCons(line: string, sep: string, text: string, lines: seq<string>, seps: seq<string>)
    requires IsInterleaved(text, lines, seps) && Separates(sep, line)
    ensures IsInterleaved(line + sep + text, [line] + lines, [sep] + seps)
  {
    hide Separates;
    assert ([line] + lines)[1..] == lines && ([sep] + seps)[1..] == seps;
  }

  lemma InterleaveGrow(c: char, text: string, lines: seq<string>, seps: seq<string>)
    requires IsInterleaved(text, lines, seps) && c != '\n' && (c == '\r' ==> text == "" || text[0] != '\n')
    ensures IsInterleaved([c] + text, [[c] + lines[0]] + lines[1..], seps)
  {
    var x := lines[0];
    assert lines == [x] + lines[1..];
    if seps == [] {
      assert '\n' !in [c] + x;
    } else {
      var tail := Interleave(lines[1..], seps[1..]);
      assert text == x + seps[0] + tail;
      assert [c] + (x + seps[0] + tail) == [c] + x + seps[0] + tail;
      assert x == "" ==> text[0] == seps[0][0];
      assert Separates(seps[0], [c] + x);
    }
  }

  lemma {:induction false} LinesInterleave(text: string) returns (seps: seq<string>)
    ensures IsInterleaved(text, Lines(text), seps)
    decreases |text|
  {
    hide IsInterleaved;
    if text == "" {
      seps := [];
      OneLine("");
    } else if text[0] == '\n' {
      var tail := LinesInterleave(text[1..]);
      seps := ["\n"] + tail;
      InterleaveCons("", "\n", text[1..], Lines(text[1..]), tail);
      assert text == "" + "\n" + text[1..];
    } else if text[0] == '\r' && |text| > 1 && text[1] == '\n' {
      var tail := LinesInterleave(text[2..]);
      seps := ["\r\n"] + tail;
      InterleaveCons("", "\r\n", text[2..], Lines(text[2..]), tail);
      assert text == "" + "\r\n" + text[2..];
    } else {
      seps := LinesInterleave(text[1..]);
      InterleaveGrow(text[0], text[1..], Lines(text[1..]), seps);
      assert text == [text[0]] + text[1..];
    }
  }

  lemma OneLine(line: string)
    requires '\n' !in line
    ensures IsInterleaved(line, [line], [])
  {
  }

  lemma {:induction false} LinesAfterReturn(s: string, rest: string)
    requires '\n' !in s
    ensures Lines(s + ("\r\n" + rest)) == [s] + Lines(rest)
  {
    var t := s + ("\r\n" + rest);
    if s == "" {
      assert t == "\r\n" + rest && t[2..] == rest;
    } else {
      assert t[0] == s[0] && t[1..] == s[1..] + ("\r\n" + rest);
      assert |s| > 1 ==> t[1] == s[1] && s[1] in s;
      assert s[0] in s;
      LinesAfterReturn(s[1..], rest);
      var r := [s[1..]] + Lines(rest);
      assert r[0] == s[1..] && r[1..] == Lines(rest);
      assert s == [s[0]] + s[1..];
    }
  }

  lemma {:induction false} InterleaveLines(text: string, lines: seq<string>, seps: seq<string>)
    requires IsInterleaved(text, lines, seps)
    ensures Lines(text) == lines
    decreases |seps|
  {
    hide Lines;
    if seps == [] {
      LinesOfLine(lines[0]);
      assert lines == [lines[0]];
    } else {
      var tail := Interleave(lines[1..], seps[1..]);
      assert Separates(seps[0], lines[0]);
      assert text == lines[0] + (seps[0] + tail);
      assert lines == [lines[0]] + lines[1..];
      InterleaveLines(tail, lines[1..], seps[1..]);
      if seps[0] == "\n" {
        LinesAppend(lines[0], tail);
      } else {
        LinesAfterReturn(lines[0], tail);
      }
    }
  }

  /** `text.split(/\r?\n/u)` is the one way to take the text apart so. */
  lemma LinesIff(text: string, lines: seq<string>)
    ensures Lines(text) == lines <==> exists seps :: IsInterleaved(text, lines, seps)
  {
    hide Lines, IsInterleaved;
    var own := LinesInterleave(text);
    forall seps | IsInterleaved(text, lines, seps) ensures Lines(text) == lines {
      InterleaveLines(text, lines, seps);
    }
  }

  // ---------------------------------------------------------------------------------
  // One line

  /** The text between equal quotes, nothing for a lone quote, and else the text as it is. */
  ghost predicate Means(written: string, v: string) {
    if exists q, inner :: IsQuotedText(written, q, inner) then exists q :: IsQuotedText(written, q, v)
    else if written == "\"" || written == "'" then v == ""
    else v == written
  }

  predicate IsQuotedText(written: string, q: char, inner: string) {
    q in "\"'" && written == [q] + inner + [q]
  }

  /** The line is a key, "=" and a written value, each with any white space around it. */
  ghost predicate IsAssignment(line: string, k: string, written: string) {
    k != "" && Trimmed(k) && '=' !in k && k[0] != '#' && Trimmed(written) &&
    exists a, b, c, d ::
      AllSpace(a) && AllSpace(b) && AllSpace(c) && AllSpace(d) &&
      line == a + (k + b + "=" + c + written) + d
  }

  ghost predicate Assigns(line: string, k: string, v: string) {
    exists written :: IsAssignment(line, k, written) && Means(written, v)
  }

  lemma NotQuoted(written: string)
    requires |written| < 2 || !(Quoted(written, '"') || Quoted(written, '\''))
    ensures forall q, u :: !IsQuotedText(written, q, u)
  {
  }

  lemma UnquoteIff(written: string, v: string)
    ensures Unquote(written) == v <==> Means(written, v)
  {
    if |written| >= 2 && (Quoted(written, '"') || Quoted(written, '\'')) {
      var q, inner := written[0], written[1..|written| - 1];
      assert written == [q] + inner + [q];
      assert IsQuotedText(written, q, inner);
      forall q', u | IsQuotedText(written, q', u) ensures u == inner {
        assert written[1..|written| - 1] == u;
      }
    } else {
      NotQuoted(written);
    }
  }

  lemma AssignmentReads(line: string, k: string, written: string)
    requires IsAssignment(line, k, written)
    ensures Entry(line) == Some((k, Unquote(written)))
  {
    hide Trim, Trimmed, AllSpace, Unquote;
    var a, b, c, d :|
      AllSpace(a) && AllSpace(b) && AllSpace(c) && AllSpace(d) && line == a + (k + b + "=" + c + written) + d;
    ReadParts(line, a, k, b, c, written, d);
  }

  /** The text from the key to the value, trimmed at the end when the value is empty. */
  lemma ReadParts(line: string, a: string, k: string, b: string, c: string, w: string, d: string)
    requires k != "" && Trimmed(k) && '=' !in k && k[0] != '#' && Trimmed(w)
    requires AllSpace(a) && AllSpace(b) && AllSpace(c) && AllSpace(d) && line == a + (k + b + "=" + c + w) + d
    ensures Entry(line) == Some((k, Unquote(w)))
  {
    hide Trim, AllSpace, Unquote;
    var tail := if w == "" then "" else c + w;
    var trimmed := k + b + "=" + tail;
    TrimmedLine(line, a, k, b, c, w, d);
    NoEquals(k, b);
    EqualsAtAppend(k + b, tail);
    assert trimmed[..|k + b|] == k + b && trimmed[|k + b| + 1..] == tail;
    SpaceAfter(k, b);
    SpaceBefore(c, w);
    assert trimmed[0] == k[0];
  }

  lemma SpaceAfter(k: string, b: string)
    requires Trimmed(k) && AllSpace(b)
    ensures Trim(k + b) == k
  {
    assert "" + k + b == k + b;
    TrimMeans("", k, b);
  }

  lemma SpaceBefore(c: string, w: string)
    requires Trimmed(w) && AllSpace(c)
    ensures Trim(if w == "" then "" else c + w) == w
  {
    assert c + w + "" == c + w;
    TrimMeans(c, w, "");
    TrimMeans("", "", "");
  }

  lemma NoEquals(k: string, b: string)
    requires '=' !in k && AllSpace(b)
    ensures '=' !in k + b
  {
  }

  lemma TrimmedLine(line: string, a: string, k: string, b: string, c: string, w: string, d: string)
    requires k != "" && Trimmed(k) && Trimmed(w)
    requires AllSpace(a) && AllSpace(b) && AllSpace(c) && AllSpace(d) && line == a + (k + b + "=" + c + w) + d
    ensures Trim(line) == k + b + "=" + if w == "" then "" else c + w
  {
    var t := k + b + "=" + if w == "" then "" else c + w;
    var after := if w == "" then c + d else d;
    assert line == a + t + after;
    assert t[0] == k[0] && t[|t| - 1] == if w == "" then '=' else w[|w| - 1];
    TrimMeans(a, t, after);
  }

  /** What a line assigns: exactly the lines of this form do, and this is the variable and its value. */
  lemma EntryIff(line: string, k: string, v: string)
    ensures Entry(line) == Some((k, v)) <==> Assigns(line, k, v)
  {
    hide Trim, Trimmed, AllSpace, EqualsAt, Unquote, Means, IsAssignment;
    if Entry(line) == Some((k, v)) {
      var written := EntryShape(line);
      UnquoteIff(written, v);
    }
    if Assigns(line, k, v) {
      var written :| IsAssignment(line, k, written) && Means(written, v);
      AssignmentReads(line, k, written);
      UnquoteIff(written, v);
    }
  }

  /** Text that does not start with white space loses it only at the end, and the other way round. */
  lemma TrimLater(s: string) returns (b: string)
    requires s != "" && !IsSpace(s[0])
    ensures AllSpace(b) && s == Trim(s) + b
  {
    hide Trim;
    var a, b' := TrimSplit(s);
    b := b';
    SpaceEnds(a, Trim(s), b);
    assert "" + Trim(s) == Trim(s);
  }

  lemma TrimEarlier(s: string) returns (a: string)
    requires s == "" || !IsSpace(s[|s| - 1])
    ensures AllSpace(a) && s == a + Trim(s)
  {
    hide Trim;
    var a', b := TrimSplit(s);
    a := a';
    SpaceEnds(a, Trim(s), b);
    assert a + Trim(s) + "" == a + Trim(s);
  }

  lemma EntryShape(line: string) returns (written: string)
    requires Entry(line).Some?
    ensures IsAssignment(line, Entry(line).value.0, written) && Unquote(written) == Entry(line).value.1
  {
    hide Trim, AllSpace, EqualsAt, Unquote;
    ReadKeysAreGood(line);
    var trimmed := Trim(line);
    var eq := EqualsAt(trimmed);
    var left, right := trimmed[..eq], trimmed[eq + 1..];
    var a, d := TrimSplit(line);
    TrimIsTrimmed(right);
    assert trimmed == left + "=" + right && left[0] == trimmed[0];
    assert right != "" ==> right[|right| - 1] == trimmed[|trimmed| - 1];
    var b := TrimLater(left);
    var c := TrimEarlier(right);
    written := Trim(right);
    var k := Trim(left);
    assert k + b + "=" + (c + written) == k + b + "=" + c + written;
    assert line == a + (k + b + "=" + c + written) + d;
  }
}
