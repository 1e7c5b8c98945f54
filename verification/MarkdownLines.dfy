/** What the converter takes for a line, for its text and for its kind, said without the converter's functions. */
module MarkdownLines {
  import opened Wrappers
  import opened Text
  import opened MarkdownBlocks

  const NEWLINES := "\n\U{B}\U{C}\r\U{85}\U{2028}\U{2029}"
  const BLANKS :=
    "\t \U{A0}\U{1680}\U{2000}\U{2001}\U{2002}\U{2003}\U{2004}\U{2005}" +
    "\U{2006}\U{2007}\U{2008}\U{2009}\U{200A}\U{202F}\U{205F}\U{3000}"

  predicate AllIn(s: string, chars: string) {
    forall i :: 0 <= i < |s| ==> s[i] in chars
  }

  predicate NoneIn(s: string, chars: string) {
    forall i :: 0 <= i < |s| ==> s[i] !in chars
  }

  // ---------------------------------------------------------------------------------
  // Lines

  /** The lines in a row, with one separator between neighbours. */
  function Interleave(lines: seq<string>, seps: string): string
    requires |lines| == |seps| + 1
  {
    if seps == "" then lines[0] else lines[0] + [seps[0]] + Interleave(lines[1..], seps[1..])
  }

  /** The document is these lines with one newline character between neighbours, and no line holds one. */
  ghost predicate IsLinesOf(markdown: string, lines: seq<string>) {
    (forall i :: 0 <= i < |lines| ==> NoneIn(lines[i], NEWLINES)) &&
    exists seps :: IsInterleaved(markdown, lines, seps)
  }

  ghost predicate IsInterleaved(markdown: string, lines: seq<string>, seps: string) {
    |lines| == |seps| + 1 && AllIn(seps, NEWLINES) && markdown == Interleave(lines, seps)
  }

  lemma NewlineIff(c: char)
    ensures IsNewline(c) <==> c in NEWLINES
  {
  }

  lemma {:induction false} LinesInterleave(markdown: string) returns (seps: string)
    ensures var lines := Lines(markdown);
      IsInterleaved(markdown, lines, seps) && forall i :: 0 <= i < |lines| ==> NoneIn(lines[i], NEWLINES)
  {
    hide IsNewline, Interleave, AllIn, NoneIn;
    if markdown == "" {
      seps := "";
      NoLine();
    } else {
      var c, r := markdown[0], Lines(markdown[1..]);
      var tail := LinesInterleave(markdown[1..]);
      NewlineIff(c);
      assert markdown == [c] + markdown[1..];
      if IsNewline(c) {
        seps := [c] + tail;
        InterleaveCons(c, r, tail);
        NoLine();
      } else {
        seps := tail;
        InterleaveGrow(c, r, tail);
      }
    }
  }

  lemma NoLine()
    ensures IsInterleaved("", [""], "") && NoneIn("", NEWLINES)
  {
  }

  lemma OneMore(c: char, seps: string)
    requires AllIn(seps, NEWLINES) && c in NEWLINES
    ensures AllIn([c] + seps, NEWLINES)
  {
  }

  lemma InterleaveCons(c: char, lines: seq<string>, seps: string)
    requires |lines| == |seps| + 1 && AllIn(seps, NEWLINES) && c in NEWLINES
    ensures IsInterleaved([c] + Interleave(lines, seps), [""] + lines, [c] + seps)
  {
    hide NoneIn, AllIn;
    OneMore(c, seps);
    assert ([""] + lines)[1..] == lines && ([c] + seps)[1..] == seps;
    assert "" + [c] + Interleave(lines, seps) == [c] + Interleave(lines, seps);
  }

  lemma InterleaveGrow(c: char, lines: seq<string>, seps: string)
    requires |lines| == |seps| + 1 && AllIn(seps, NEWLINES) && c !in NEWLINES && NoneIn(lines[0], NEWLINES)
    ensures var grown := [[c] + lines[0]] + lines[1..];
      IsInterleaved([c] + Interleave(lines, seps), grown, seps) && NoneIn(grown[0], NEWLINES)
  {
    hide AllIn, NoneIn, Interleave;
    LineGrows(c, lines[0]);
    FirstGrows([c], lines[0], lines[1..], seps);
    assert lines == [lines[0]] + lines[1..];
  }

  lemma FirstGrows(x: string, y: string, rest: seq<string>, seps: string)
    requires |rest| == |seps|
    ensures Interleave([x + y] + rest, seps) == x + Interleave([y] + rest, seps)
  {
    assert ([x + y] + rest)[1..] == rest && ([y] + rest)[1..] == rest;
    if seps != "" {
      var sep, after := [seps[0]], Interleave(rest, seps[1..]);
      Associate(x, y, sep, after);
    }
  }

  lemma Associate(x: string, y: string, z: string, u: string)
    ensures x + y + z + u == x + (y + z + u)
  {
  }

  lemma LineGrows(c: char, line: string)
    requires c !in NEWLINES && NoneIn(line, NEWLINES)
    ensures NoneIn([c] + line, NEWLINES)
  {
  }

  lemma {:induction false} InterleaveLines(lines: seq<string>, seps: string)
    requires |lines| == |seps| + 1 && AllIn(seps, NEWLINES)
    requires forall i :: 0 <= i < |lines| ==> NoneIn(lines[i], NEWLINES)
    ensures Lines(Interleave(lines, seps)) == lines
  {
    hide IsNewline, Lines, NoneIn;
    if seps == "" {
      LinesAhead(lines[0], "");
      LinesOfTail("");
      assert lines[0] + "" == lines[0];
    } else {
      var after := Interleave(lines[1..], seps[1..]);
      InterleaveLines(lines[1..], seps[1..]);
      LinesAhead(lines[0], [seps[0]] + after);
      NewlineIff(seps[0]);
      LinesOfTail([seps[0]] + after);
      assert ([seps[0]] + after)[1..] == after;
      assert Interleave(lines, seps) == lines[0] + ([seps[0]] + after);
      assert lines[0] + "" == lines[0];
      assert lines == [lines[0]] + lines[1..];
    }
  }

  lemma LinesOfTail(tail: string)
    requires tail == "" || IsNewline(tail[0])
    ensures Lines(tail) == [""] + if tail == "" then [] else Lines(tail[1..])
  {
  }

  lemma {:induction false} LinesAhead(line: string, tail: string)
    requires NoneIn(line, NEWLINES)
    ensures Lines(line + tail) == [line + Lines(tail)[0]] + Lines(tail)[1..]
  {
    hide IsNewline;
    var r := Lines(tail);
    if line == "" {
      assert line + tail == tail && "" + r[0] == r[0];
      assert r == [r[0]] + r[1..];
    } else {
      var s := line + tail;
      NewlineIff(line[0]);
      LinesAhead(line[1..], tail);
      assert s[1..] == line[1..] + tail && s[0] == line[0];
      assert [line[0]] + (line[1..] + r[0]) == line + r[0];
    }
  }

  /** `components(separatedBy: .newlines)` is the one way to take the document apart so. */
  lemma LinesIff(markdown: string, lines: seq<string>)
    ensures Lines(markdown) == lines <==> IsLinesOf(markdown, lines)
  {
    hide Lines, NoneIn;
    var own := LinesInterleave(markdown);
    if IsLinesOf(markdown, lines) {
      var seps :| IsInterleaved(markdown, lines, seps);
      InterleaveLines(lines, seps);
    }
  }

  // ---------------------------------------------------------------------------------
  // Blanks

  /** The raw line is the text with blanks around it, and the text has none at its ends. */
  ghost predicate IsTextOf(raw: string, text: string) {
    (text == "" || (text[0] !in BLANKS && text[|text| - 1] !in BLANKS)) &&
    exists a, b :: raw == a + text + b && AllIn(a, BLANKS) && AllIn(b, BLANKS)
  }

  lemma BlankIff(c: char)
    ensures IsBlank(c) <==> c in BLANKS
  {
  }

  lemma {:induction false} DropBlanksAhead(a: string, s: string)
    requires AllIn(a, BLANKS)
    ensures DropBlanks(a + s) == DropBlanks(s)
  {
    hide IsBlank;
    if a == "" {
      assert a + s == s;
    } else {
      BlankIff(a[0]);
      DropBlanksAhead(a[1..], s);
      assert (a + s)[1..] == a[1..] + s;
    }
  }

  lemma {:induction false} DropBlanksBehind(s: string, b: string)
    requires AllIn(b, BLANKS)
    ensures DropBlanksAtEnd(s + b) == DropBlanksAtEnd(s)
  {
    hide IsBlank;
    if b == "" {
      assert s + b == s;
    } else {
      BlankIff(b[|b| - 1]);
      DropBlanksBehind(s, b[..|b| - 1]);
      assert (s + b)[..|s + b| - 1] == s + b[..|b| - 1];
    }
  }

  lemma {:induction false} DropBlanksShape(s: string) returns (a: string)
    ensures s == a + DropBlanks(s) && AllIn(a, BLANKS) && (DropBlanks(s) == "" || DropBlanks(s)[0] !in BLANKS)
    ensures s != "" && s[0] in BLANKS ==> a != ""
  {
    hide IsBlank;
    a := "";
    if s != "" {
      BlankIff(s[0]);
      if IsBlank(s[0]) {
        var v := DropBlanksShape(s[1..]);
        a := [s[0]] + v;
      }
    }
  }

  lemma NoBlank()
    ensures AllIn("", BLANKS)
  {
  }

  lemma BlanksAppend(b: string, c: char)
    requires AllIn(b, BLANKS) && c in BLANKS
    ensures AllIn(b + [c], BLANKS)
  {
  }

  lemma {:induction false} DropBlanksAtEndShape(s: string)
    ensures DropBlanksAtEnd(s) <= s && AllIn(s[|DropBlanksAtEnd(s)|..], BLANKS)
    ensures var t := DropBlanksAtEnd(s); t == "" || t[|t| - 1] !in BLANKS
  {
    hide IsBlank, AllIn;
    NoBlank();
    assert s[|s|..] == "";
    if s != "" {
      var init, last := s[..|s| - 1], s[|s| - 1];
      BlankIff(last);
      if IsBlank(last) {
        DropBlanksAtEndShape(init);
        var n := |DropBlanksAtEnd(init)|;
        BlanksAppend(init[n..], last);
        assert s[n..] == init[n..] + [last];
      }
    }
  }

  /** `trimmingCharacters(in: .whitespaces)`. */
  lemma TrimBlanksIff(raw: string, text: string)
    ensures TrimBlanks(raw) == text <==> IsTextOf(raw, text)
  {
    hide DropBlanks, DropBlanksAtEnd;
    var a := DropBlanksShape(raw);
    var u := DropBlanks(raw);
    DropBlanksAtEndShape(u);
    var t := TrimBlanks(raw);
    var b := u[|t|..];
    assert raw == a + t + b;
    assert t != "" ==> t[0] == u[0];
    assert IsTextOf(raw, t);
    if IsTextOf(raw, text) {
      TrimmedIs(raw, text);
    }
  }

  lemma TrimmedIs(raw: string, text: string)
    requires IsTextOf(raw, text)
    ensures TrimBlanks(raw) == text
  {
    hide DropBlanks, DropBlanksAtEnd;
    var a, b :| raw == a + text + b && AllIn(a, BLANKS) && AllIn(b, BLANKS);
    assert raw == a + (text + b);
    DropBlanksAhead(a, text + b);
    if text == "" {
      assert text + b == b + "";
      DropBlanksAhead(b, "");
      NoBlanksLeft("");
    } else {
      assert (text + b)[0] == text[0];
      NoBlanksLeft(text + b);
      DropBlanksBehind(text, b);
    }
    NoBlanksLeft(text);
  }

  lemma NoBlanksLeft(s: string)
    ensures s == "" || s[0] !in BLANKS ==> DropBlanks(s) == s
    ensures s == "" || s[|s| - 1] !in BLANKS ==> DropBlanksAtEnd(s) == s
  {
    hide IsBlank;
    if s != "" {
      BlankIff(s[0]);
      BlankIff(s[|s| - 1]);
    }
  }

  // ---------------------------------------------------------------------------------
  // Kinds

  /** A marker, then blanks, then text. */
  ghost predicate IsMarked(line: string, marker: string, text: string) {
    text != "" && text[0] !in BLANKS &&
    exists blanks: string :: line == marker + blanks + text && blanks != "" && AllIn(blanks, BLANKS)
  }

  /** The line is a heading or a list item. */
  ghost predicate HasMarker(line: string, k: Kind) {
    match k
    case Heading(level, text) => 1 <= level <= 6 && IsMarked(line, "######"[..level], text)
    case Numbered(number, text) => number != "" && AllIn(number, "0123456789") && IsMarked(line, number + ".", text)
    case Bulleted(text) => IsMarked(line, "-", text)
    case _ => false
  }

  /** What the text of a line is outside code. */
  ghost predicate IsOfKind(line: string, k: Kind) {
    match k
    case Fence => exists rest :: line == "```" + rest
    case Empty => line == ""
    case Plain(text) =>
      text == line != "" && (forall rest :: line != "```" + rest) && forall marked :: !HasMarker(line, marked)
    case _ => HasMarker(line, k)
  }

  lemma AfterBlanksIff(s: string, text: string)
    ensures AfterBlanks(s) == Some(text) <==> IsMarked(s, "", text)
  {
    hide IsBlank, DropBlanks;
    if s != "" { BlankIff(s[0]); }
    var a := DropBlanksShape(s);
    assert s == "" + a + DropBlanks(s);
    if IsMarked(s, "", text) {
      var blanks: string :| s == "" + blanks + text && blanks != "" && AllIn(blanks, BLANKS);
      assert s == blanks + text && s[0] == blanks[0];
      DropBlanksAhead(blanks, text);
      NoBlanksLeft(text);
    }
  }

  /** A marker is cut off in front. */
  lemma MarkedAfter(line: string, marker: string, text: string)
    ensures IsMarked(line, marker, text) <==> marker <= line && IsMarked(line[|marker|..], "", text)
  {
    hide AllIn;
    if IsMarked(line, marker, text) {
      var blanks: string :| line == marker + blanks + text && blanks != "" && AllIn(blanks, BLANKS);
      assert line == marker + (blanks + text);
      CutMarker(line, marker, blanks + text);
      assert line[|marker|..] == "" + blanks + text;
    }
    if marker <= line && IsMarked(line[|marker|..], "", text) {
      var blanks: string :| line[|marker|..] == "" + blanks + text && blanks != "" && AllIn(blanks, BLANKS);
      assert line == marker + line[|marker|..] == marker + blanks + text;
    }
  }

  lemma CutMarker(line: string, marker: string, tail: string)
    requires line == marker + tail
    ensures marker <= line && line[|marker|..] == tail
  {
  }

  lemma {:induction false} CountHashesIs(s: string, n: nat)
    requires n <= |s| && AllIn(s[..n], "#") && (n < |s| ==> s[n] != '#')
    ensures CountHashes(s) == n
  {
    if n > 0 {
      assert s[0] == s[..n][0];
      assert s[1..][..n - 1] == s[..n][1..];
      CountHashesIs(s[1..], n - 1);
    }
  }

  lemma {:induction false} HashesCounted(s: string)
    ensures AllIn(s[..CountHashes(s)], "#")
  {
    if s != "" && s[0] == '#' {
      HashesCounted(s[1..]);
      assert s[..CountHashes(s)] == [s[0]] + s[1..][..CountHashes(s[1..])];
    }
  }

  lemma {:induction false} CountDigitsIs(s: string, n: nat)
    requires n <= |s| && AllIn(s[..n], "0123456789") && (n < |s| ==> s[n] !in "0123456789")
    ensures CountDigits(s) == n
  {
    if n > 0 {
      assert s[0] == s[..n][0];
      assert s[1..][..n - 1] == s[..n][1..];
      CountDigitsIs(s[1..], n - 1);
    }
  }

  lemma {:induction false} DigitsCounted(s: string)
    ensures AllIn(s[..CountDigits(s)], "0123456789")
  {
    if s != "" && IsDigit(s[0]) {
      DigitsCounted(s[1..]);
      assert s[..CountDigits(s)] == [s[0]] + s[1..][..CountDigits(s[1..])];
    }
  }

  /** What stands right after a marker is a blank. */
  lemma BlankNext(line: string, marker: string, text: string)
    requires IsMarked(line, marker, text)
    ensures marker <= line && |marker| < |line| && line[|marker|] in BLANKS
  {
    var blanks: string :| line == marker + blanks + text && blanks != "" && AllIn(blanks, BLANKS);
    assert line[|marker|] == blanks[0];
  }

  lemma HashText(n: nat)
    requires n <= 6
    ensures AllIn("######"[..n], "#")
    ensures forall s: string :: |s| == n && AllIn(s, "#") ==> s == "######"[..n]
  {
  }

  lemma HeadingIff(line: string, level: nat, text: string)
    ensures HeadingText(line) == Some(text) && CountHashes(line) == level <==> HasMarker(line, Heading(level, text))
  {
    hide CountHashes, AfterBlanks, IsMarked;
    if HasMarker(line, Heading(level, text)) {
      var marker := "######"[..level];
      HashText(level);
      BlankNext(line, marker, text);
      MarkedAfter(line, marker, text);
      AfterBlanksIff(line[level..], text);
      assert line[..level] == marker;
      CountHashesIs(line, level);
    }
    if HeadingText(line) == Some(text) && CountHashes(line) == level {
      HashesCounted(line);
      HashText(level);
      AfterBlanksIff(line[level..], text);
      MarkedAfter(line, line[..level], text);
    }
  }

  lemma NumberedIff(line: string, number: string, text: string)
    ensures NumberedText(line) == Some(text) && line[..CountDigits(line)] == number <==>
            HasMarker(line, Numbered(number, text))
  {
    hide CountDigits, AfterBlanks, IsMarked;
    var n := |number|;
    var marker := number + ".";
    if HasMarker(line, Numbered(number, text)) {
      BlankNext(line, marker, text);
      MarkedAfter(line, marker, text);
      AfterBlanksIff(line[n + 1..], text);
      assert line[..n] == marker[..n] == number && line[n] == marker[n];
      CountDigitsIs(line, n);
    }
    if NumberedText(line) == Some(text) && line[..CountDigits(line)] == number {
      DigitsCounted(line);
      assert marker <= line;
      AfterBlanksIff(line[n + 1..], text);
      MarkedAfter(line, marker, text);
    }
  }

  lemma BulletedIff(line: string, text: string)
    ensures BulletedText(line) == Some(text) <==> HasMarker(line, Bulleted(text))
  {
    hide AfterBlanks, IsMarked;
    MarkedAfter(line, "-", text);
    if line != "" {
      AfterBlanksIff(line[1..], text);
      assert "-" <= line <==> line[0] == '-';
    }
  }

  lemma FenceIff(line: string)
    ensures Starts(line, "```") <==> exists rest :: line == "```" + rest
  {
    if Starts(line, "```") {
      assert line == "```" + line[3..];
    }
  }

  /** The first characters tell the kinds apart. */
  lemma MarkerStart(line: string, k: Kind)
    requires HasMarker(line, k)
    ensures line != "" && (k.Heading? <==> line[0] == '#') && (k.Numbered? <==> line[0] in "0123456789")
    ensures k.Bulleted? <==> line[0] == '-'
  {
    hide IsMarked;
    match k
    case Heading(level, text) =>
      BlankNext(line, "######"[..level], text);
      assert line[..level] == "######"[..level];
      assert line[0] == "######"[..level][0];
    case Numbered(number, text) =>
      BlankNext(line, number + ".", text);
      assert line[0] == (number + ".")[0];
    case Bulleted(text) =>
      BlankNext(line, "-", text);
  }

  lemma KindIsMarked(line: string, k: Kind)
    requires !Starts(line, "```")
    ensures HasMarker(line, k) <==> KindOf(line) == k && !k.Empty? && !k.Plain?
  {
    hide HeadingText, NumberedText, BulletedText, CountHashes, CountDigits, HasMarker, IsMarked;
    if HasMarker(line, k) {
      MarkerStart(line, k);
    }
    var now := KindOf(line);
    if now.Heading? || now.Numbered? || now.Bulleted? {
      NowMarked(line);
      MarkerStart(line, now);
    }
    match k
    case Heading(level, text) => HeadingIff(line, level, text);
    case Numbered(number, text) => NumberedIff(line, number, text);
    case Bulleted(text) => BulletedIff(line, text);
    case _ => NoMarker(line, k);
  }

  lemma NoMarker(line: string, k: Kind)
    requires k.Fence? || k.Empty? || k.Plain?
    ensures !HasMarker(line, k)
  {
  }

  lemma NowMarked(line: string)
    requires KindOf(line).Heading? || KindOf(line).Numbered? || KindOf(line).Bulleted?
    ensures HasMarker(line, KindOf(line))
  {
    hide HeadingText, NumberedText, BulletedText, CountHashes, CountDigits, HasMarker, IsMarked;
    match KindOf(line)
    case Heading(level, text) => HeadingIff(line, level, text);
    case Numbered(number, text) => NumberedIff(line, number, text);
    case Bulleted(text) => BulletedIff(line, text);
    case _ =>
  }

  lemma KindIff(line: string, k: Kind)
    ensures KindOf(line) == k <==> IsOfKind(line, k)
  {
    hide HeadingText, NumberedText, BulletedText, CountHashes, CountDigits, HasMarker, Starts;
    FenceIff(line);
    NotBoth(line);
    if !Starts(line, "```") {
      KindIsMarked(line, k);
      if k.Plain? && KindOf(line).Plain? {
        forall marked ensures !HasMarker(line, marked) {
          KindIsMarked(line, marked);
        }
      } else if k.Plain? {
        KindIsMarked(line, KindOf(line));
      } else if k.Fence? || k.Empty? {
        NoMarker(line, k);
      }
    }
  }

  /** A fence has no marker. */
  lemma NotBoth(line: string)
    ensures Starts(line, "```") ==> line != "" && forall k :: !HasMarker(line, k)
  {
    hide HasMarker;
    if Starts(line, "```") {
      assert line[..3][0] == '`';
      forall k ensures !HasMarker(line, k) {
        if HasMarker(line, k) {
          MarkerStart(line, k);
          assert k.Fence? || k.Empty? || k.Plain?;
          NoMarker(line, k);
        }
      }
    }
  }

  /** Each line is of the one kind that its text has. */
  lemma ClassifyIff(raw: string, line: string, k: Kind)
    requires IsTextOf(raw, line)
    ensures Classify(raw) == k <==> IsOfKind(line, k)
  {
    hide TrimBlanks, KindOf, IsOfKind, IsTextOf;
    TrimBlanksIff(raw, line);
    KindIff(line, k);
  }
}
