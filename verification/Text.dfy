/** String helpers shared by the models: JavaScript white space, trimming and joining. */
module Text {

  predicate IsDigit(c: char) {
    '0' <= c <= '9'
  }

  predicate Starts(s: string, p: string) {
    |p| <= |s| && s[..|p|] == p
  }

  predicate EndsWith(s: string, suffix: string) {
    |suffix| <= |s| && s[|s| - |suffix|..] == suffix
  }

  /** White space and line terminators as `String.prototype.trim` and the regex class `\s` see them. */
  predicate IsSpace(c: char) {
    var n := c as int;
    9 <= n <= 13 || n == 32 || n == 0xA0 || n == 0x1680 || 0x2000 <= n <= 0x200A ||
    n == 0x2028 || n == 0x2029 || n == 0x202F || n == 0x205F || n == 0x3000 || n == 0xFEFF
  }

  predicate AllSpace(s: string) {
    forall i :: 0 <= i < |s| ==> IsSpace(s[i])
  }

  function TrimStart(s: string): string {
    if s != [] && IsSpace(s[0]) then TrimStart(s[1..]) else s
  }

  function TrimEnd(s: string): string {
    if s != [] && IsSpace(s[|s| - 1]) then TrimEnd(s[..|s| - 1]) else s
  }

  function Trim(s: string): string {
    TrimEnd(TrimStart(s))
  }

  /** Neither end of the text is white space, so trimming leaves it alone. */
  predicate Trimmed(s: string) {
    s == [] || (!IsSpace(s[0]) && !IsSpace(s[|s| - 1]))
  }

  lemma {:induction false} TrimStartShape(s: string)
    ensures |TrimStart(s)| <= |s| && s[|s| - |TrimStart(s)|..] == TrimStart(s)
    ensures AllSpace(s[..|s| - |TrimStart(s)|])
    ensures TrimStart(s) == [] || !IsSpace(TrimStart(s)[0])
  {
    if s != [] && IsSpace(s[0]) {
      TrimStartShape(s[1..]);
      var n := |s| - |TrimStart(s)|;
      assert s[..n] == [s[0]] + s[1..][..n - 1];
    }
  }

  lemma {:induction false} TrimEndShape(s: string)
    ensures TrimEnd(s) <= s && AllSpace(s[|TrimEnd(s)|..])
    ensures TrimEnd(s) == [] || !IsSpace(TrimEnd(s)[|TrimEnd(s)| - 1])
  {
    if s != [] && IsSpace(s[|s| - 1]) {
      var init := s[..|s| - 1];
      TrimEndShape(init);
      assert s[|TrimEnd(s)|..] == init[|TrimEnd(s)|..] + [s[|s| - 1]];
    }
  }

  lemma TrimStartKeeps(s: string)
    requires !AllSpace(s)
    ensures TrimStart(s) != [] && !IsSpace(TrimStart(s)[0])
  {
    TrimStartShape(s);
    assert s[..|s|] == s;
  }

  lemma TrimIsTrimmed(s: string)
    ensures Trimmed(Trim(s))
  {
    TrimStartShape(s);
    TrimEndShape(TrimStart(s));
  }

  lemma {:induction false} TrimStartAppend(a: string, b: string)
    ensures TrimStart(a + b) == if AllSpace(a) then TrimStart(b) else TrimStart(a) + b
  {
    if a == [] {
      assert a + b == b;
    } else if IsSpace(a[0]) {
      assert (a + b)[1..] == a[1..] + b;
      assert AllSpace(a) <==> AllSpace(a[1..]);
      TrimStartAppend(a[1..], b);
    } else {
      assert !AllSpace(a);
    }
  }

  lemma {:induction false} TrimEndAppend(a: string, w: string)
    requires AllSpace(w)
    ensures TrimEnd(a + w) == TrimEnd(a)
  {
    if w == [] {
      assert a + w == a;
    } else {
      assert (a + w)[..|a + w| - 1] == a + w[..|w| - 1];
      TrimEndAppend(a, w[..|w| - 1]);
    }
  }

  /** Trimming takes the white space off both ends. */
  lemma TrimMeans(a: string, s: string, b: string)
    requires AllSpace(a) && Trimmed(s) && AllSpace(b)
    ensures Trim(a + s + b) == s
  {
    hide AllSpace;
    assert a + s + b == a + (s + b);
    TrimStartAppend(a, s + b);
    if s == "" {
      assert s + b == b;
      OnlySpace(b);
    } else {
      assert (s + b)[0] == s[0];
      TrimEndAppend(s, b);
    }
  }

  lemma {:induction false} OnlySpace(s: string)
    requires AllSpace(s)
    ensures TrimStart(s) == ""
  {
    if s != "" {
      OnlySpace(s[1..]);
    }
  }

  lemma SpaceEnds(a: string, x: string, b: string)
    requires AllSpace(a) && AllSpace(b)
    ensures var t := a + x + b; (a != "" ==> IsSpace(t[0])) && (b != "" ==> IsSpace(t[|t| - 1]))
  {
    var t := a + x + b;
    assert a != "" ==> t[0] == a[0];
    assert b != "" ==> t[|t| - 1] == b[|b| - 1];
  }

  lemma TrimSplit(s: string) returns (a: string, b: string)
    ensures AllSpace(a) && Trimmed(Trim(s)) && AllSpace(b) && s == a + Trim(s) + b
  {
    hide AllSpace;
    TrimStartShape(s);
    var t := TrimStart(s);
    TrimEndShape(t);
    TrimIsTrimmed(s);
    var n, m := |s| - |t|, |TrimEnd(t)|;
    a, b := s[..n], t[m..];
    assert s == s[..n] + s[n..] && t == t[..m] + t[m..];
  }

  /** The characters that count as white space. */
  lemma SpaceIff(c: char)
    ensures IsSpace(c) <==>
      c in "\t\n\U{B}\U{C}\r \U{A0}\U{1680}\U{2028}\U{2029}\U{202F}\U{205F}\U{3000}\U{FEFF}" ||
      c in "\U{2000}\U{2001}\U{2002}\U{2003}\U{2004}\U{2005}\U{2006}\U{2007}\U{2008}\U{2009}\U{200A}"
  {
  }

  /** `parts.join(sep)`. */
  function Join(parts: seq<string>, sep: string): string {
    if parts == [] then []
    else if |parts| == 1 then parts[0]
    else parts[0] + sep + Join(parts[1..], sep)
  }

  lemma {:induction false} JoinAppend(xs: seq<string>, ys: seq<string>, sep: string)
    ensures Join(xs + ys, sep) ==
      if xs == [] then Join(ys, sep) else if ys == [] then Join(xs, sep) else Join(xs, sep) + sep + Join(ys, sep)
  {
    if xs == [] {
      assert xs + ys == ys;
    } else if ys == [] {
      assert xs + ys == xs;
    } else {
      assert (xs + ys)[1..] == xs[1..] + ys;
      JoinAppend(xs[1..], ys, sep);
      if |xs| > 1 {
        var x, t, u := xs[0], Join(xs[1..], sep), Join(ys, sep);
        assert x + sep + (t + sep + u) == x + sep + t + sep + u;
      }
    }
  }

  predicate Distinct<T(==)>(xs: seq<T>) {
    forall i, j :: 0 <= i < j < |xs| ==> xs[i] != xs[j]
  }

  /** `xs.indexOf(x)` for a value that is present. */
  function IndexOf<T(==)>(xs: seq<T>, x: T): (i: nat)
    requires x in xs
    ensures i < |xs| && xs[i] == x
    ensures forall k :: 0 <= k < i ==> xs[k] != x
  {
    if xs[0] == x then 0 else 1 + IndexOf(xs[1..], x)
  }

  lemma IndexOfPrefix<T>(xs: seq<T>, ys: seq<T>, x: T)
    requires xs <= ys && x in xs
    ensures IndexOf(ys, x) == IndexOf(xs, x)
  {
    var i, j := IndexOf(xs, x), IndexOf(ys, x);
    assert ys[i] == xs[i] && (j < |xs| ==> xs[j] == ys[j]);
  }

  lemma IndexOfDistinct<T>(xs: seq<T>, i: nat)
    requires Distinct(xs) && i < |xs|
    ensures IndexOf(xs, xs[i]) == i
  {
  }

  lemma DropHead<T>(xs: seq<T>)
    requires xs != []
    ensures multiset(xs[1..]) == multiset(xs) - multiset{xs[0]}
  {
    assert xs == [xs[0]] + xs[1..];
  }

  lemma DropAt<T>(xs: seq<T>, i: nat)
    requires i < |xs|
    ensures multiset(xs[..i] + xs[i + 1..]) == multiset(xs) - multiset{xs[i]}
  {
    assert xs == xs[..i] + ([xs[i]] + xs[i + 1..]);
  }
}
