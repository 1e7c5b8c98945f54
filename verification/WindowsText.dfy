/** What quoting, normalizing and reading an option do to the characters. */
module WindowsText {
  import opened Text
  import opened WindowsArgs

  // ---------------------------------------------------------------------------------
  // Quoting

  lemma SpecialIff(c: char)
    ensures IsSpecial(c) <==> c in "\"^&|<>()%!"
  {
  }

  /** An argument stays bare exactly when it is not empty and has no white space and none of these characters. */
  lemma StaysBareIff(v: string)
    ensures QuoteArg(v) == v <==> v != "" && forall i :: 0 <= i < |v| ==> !IsSpace(v[i]) && v[i] !in "\"^&|<>()%!"
    ensures QuoteArg(v) != v ==> QuoteArg(v) == "\"" + EscapeArg(v) + "\""
  {
    hide IsSpecial, IsSpace, EscapeArg;
    forall i | 0 <= i < |v| ensures IsSpecial(v[i]) <==> v[i] in "\"^&|<>()%!" {
      SpecialIff(v[i]);
    }
    EscapedIsLonger(v);
    if v == "" {
      assert EscapeArg("") == "" by { CaretIsPerChar("", ' ', ""); }
      assert "\"" + "" + "\"" == "\"\"";
    }
  }

  lemma {:induction false} EscapedIsLonger(v: string)
    ensures |EscapeArg(v)| >= |v|
  {
    if v != "" { EscapedIsLonger(v[1..]); }
  }

  /** Between the quotes exactly these characters get a caret, and all others are kept. */
  lemma CaretIsPerChar(a: string, c: char, b: string)
    ensures EscapeArg("") == ""
    ensures EscapeArg(a + [c] + b) ==
      EscapeArg(a) + (if c in "\"^&|<>()%!" then ['^', c] else [c]) + EscapeArg(b)
  {
    hide IsSpecial;
    SpecialIff(c);
    EscapeAppend(a + [c], b);
    EscapeAppend(a, [c]);
    assert [c][1..] == "" && EscapeChar(c) + "" == EscapeChar(c);
  }

  // ---------------------------------------------------------------------------------
  // Normalizing

  predicate AllOf(s: string, c: char) {
    forall i :: 0 <= i < |s| ==> s[i] == c
  }

  /** The text does not start or end with the character. */
  predicate FreeEnds(s: string, c: char) {
    s == "" || (s[0] != c && s[|s| - 1] != c)
  }

  lemma {:induction false} StripStartAll(a: string, s: string, c: char)
    requires AllOf(a, c) && (s == "" || s[0] != c)
    ensures StripStart(a + s, c) == s
  {
    if a == "" {
      assert a + s == s;
    } else {
      assert (a + s)[1..] == a[1..] + s;
      StripStartAll(a[1..], s, c);
    }
  }

  lemma {:induction false} StripEndAll(s: string, b: string, c: char)
    requires AllOf(b, c) && (s == "" || s[|s| - 1] != c)
    ensures StripEnd(s + b, c) == s
  {
    if b == "" {
      assert s + b == s;
    } else {
      assert (s + b)[..|s + b| - 1] == s + b[..|b| - 1];
      StripEndAll(s, b[..|b| - 1], c);
    }
  }

  lemma StripBoth(a: string, s: string, b: string, c: char)
    requires AllOf(a, c) && AllOf(b, c) && FreeEnds(s, c)
    ensures StripEnd(StripStart(a + s + b, c), c) == s
  {
    if s == "" {
      assert a + s + b == (a + b) + "";
      StripStartAll(a + b, "", c);
      StripEndAll("", "", c);
      assert "" + "" == "";
    } else {
      assert a + s + b == a + (s + b);
      StripStartAll(a, s + b, c);
      StripEndAll(s, b, c);
    }
  }

  /** White space comes off the ends, then carets, then quotes, and then all carets that are left. */
  lemma NormalizeMeans(a: string, c: string, q: string, y: string, q': string, c': string, b: string)
    requires AllSpace(a) && AllSpace(b) && AllOf(c, '^') && AllOf(c', '^') && AllOf(q, '"') && AllOf(q', '"')
    requires Trimmed(c + (q + y + q') + c') && FreeEnds(q + y + q', '^') && FreeEnds(y, '"')
    ensures NormalizeCliValue(a + (c + (q + y + q') + c') + b) == Without(y, '^')
  {
    hide Trim, StripStart, StripEnd, Without;
    TrimMeans(a, c + (q + y + q') + c', b);
    StripBoth(c, q + y + q', c', '^');
    StripBoth(q, y, q', '"');
  }

  lemma WithoutIsPerChar(a: string, d: char, b: string, c: char)
    ensures Without("", c) == ""
    ensures Without(a + [d] + b, c) == Without(a, c) + (if d == c then "" else [d]) + Without(b, c)
  {
    WithoutAppend(a + [d], b, c);
    WithoutAppend(a, [d], c);
    assert [d][1..] == "";
  }

  // ---------------------------------------------------------------------------------
  // Options

  /** A token ends the value of an option exactly when it starts with two dashes after any white space. */
  lemma IsOptionIff(token: string)
    ensures IsOption(token) <==> exists a, rest :: AllSpace(a) && token == a + "--" + rest
  {
    hide AllSpace, Trim;
    if IsOption(token) {
      var a, b := TrimSplit(token);
      var t := Trim(token);
      assert t == "--" + t[2..];
      assert token == a + "--" + (t[2..] + b);
    }
    forall a, rest | AllSpace(a) && token == a + "--" + rest ensures IsOption(token) {
      TrimDashes(a, rest);
    }
  }

  lemma TailElements(s: string, n: nat)
    requires n <= |s|
    ensures forall k :: n <= k < |s| ==> s[k] in s[n..]
  {
    forall k | n <= k < |s| ensures s[k] in s[n..] {
      assert s[n..][k - n] == s[k];
    }
  }

  lemma TrimDashes(a: string, rest: string)
    requires AllSpace(a)
    ensures "--" <= Trim(a + "--" + rest)
  {
    var s := "--" + rest;
    assert a + "--" + rest == a + s;
    TrimStartAppend(a, s);
    OnlySpace(a);
    assert s[0] == '-';
    assert TrimStart(s) == s;
    TrimEndShape(s);
    var t := TrimEnd(s);
    TailElements(s, |t|);
    assert s[1] == '-' && !IsSpace('-');
  }
}
