/** The de-duplication key of a cycle: its nodes sorted and joined with "->". */
module CycleKeys {
  import opened Text

  type Cycle = seq<string>

  /** The order of JavaScript's default sort: code unit by code unit. */
  predicate TextLe(a: string, b: string) {
    a == [] || (b != [] && (a[0] < b[0] || (a[0] == b[0] && TextLe(a[1..], b[1..]))))
  }

  function InsertSorted(x: string, xs: seq<string>): (r: seq<string>)
    ensures multiset(r) == multiset([x]) + multiset(xs)
  {
    if xs == [] || TextLe(x, xs[0]) then [x] + xs
    else
      assert xs == [xs[0]] + xs[1..];
      [xs[0]] + InsertSorted(x, xs[1..])
  }

  /** `[...xs].sort()`. */
  function Sorted(xs: seq<string>): (r: seq<string>)
    ensures multiset(r) == multiset(xs)
  {
    if xs == [] then []
    else
      assert xs == [xs[0]] + xs[1..];
      InsertSorted(xs[0], Sorted(xs[1..]))
  }

  const ARROW := "->"

  function CycleKey(c: Cycle): string {
    Join(Sorted(c), ARROW)
  }

  /** The text "->" does not occur in the name. */
  predicate ArrowFree(name: string) {
    forall i :: 0 <= i < |name| - 1 ==> !(name[i] == '-' && name[i + 1] == '>')
  }

  lemma ArrowFreeIff(name: string)
    ensures ArrowFree(name) <==> forall a, b :: name != a + "->" + b
  {
    if !ArrowFree(name) {
      var i :| 0 <= i < |name| - 1 && name[i] == '-' && name[i + 1] == '>';
      assert name == name[..i] + "->" + name[i + 2..];
    }
    forall a, b ensures ArrowFree(name) ==> name != a + "->" + b {
      var s := a + "->" + b;
      assert s[|a|] == '-' && s[|a| + 1] == '>';
    }
  }

  predicate AllArrowFree(names: seq<string>) {
    forall i :: 0 <= i < |names| ==> ArrowFree(names[i])
  }

  /** Where the first "->" starts, or the length of the text. */
  function FirstArrow(s: string): nat {
    if |s| < 2 then |s|
    else if s[0] == '-' && s[1] == '>' then 0
    else 1 + FirstArrow(s[1..])
  }

  lemma {:induction false} FirstArrowOfName(name: string)
    requires ArrowFree(name)
    ensures FirstArrow(name) == |name|
  {
    if |name| >= 2 {
      assert !(name[0] == '-' && name[0 + 1] == '>');
      forall i | 0 <= i < |name[1..]| - 1 ensures !(name[1..][i] == '-' && name[1..][i + 1] == '>') {
        assert !(name[i + 1] == '-' && name[i + 2] == '>');
      }
      FirstArrowOfName(name[1..]);
    }
  }

  lemma {:induction false} FirstArrowOfJoin(name: string, rest: string)
    requires ArrowFree(name)
    ensures FirstArrow(name + ARROW + rest) == |name|
  {
    var s := name + ARROW + rest;
    if name != [] {
      assert s[1..] == name[1..] + ARROW + rest;
      if |name| >= 2 {
        assert !(name[0] == '-' && name[0 + 1] == '>');
      }
      forall i | 0 <= i < |name[1..]| - 1 ensures !(name[1..][i] == '-' && name[1..][i + 1] == '>') {
        assert !(name[i + 1] == '-' && name[i + 2] == '>');
      }
      FirstArrowOfJoin(name[1..], rest);
    }
  }

  /** Without "->" in the names, the joined text determines the list. */
  lemma {:induction false} JoinIsInjective(xs: seq<string>, ys: seq<string>)
    requires AllArrowFree(xs) && AllArrowFree(ys) && xs != [] && ys != []
    requires Join(xs, ARROW) == Join(ys, ARROW)
    ensures xs == ys
  {
    var s := Join(xs, ARROW);
    if |xs| == 1 { FirstArrowOfName(xs[0]); } else { FirstArrowOfJoin(xs[0], Join(xs[1..], ARROW)); }
    if |ys| == 1 { FirstArrowOfName(ys[0]); } else { FirstArrowOfJoin(ys[0], Join(ys[1..], ARROW)); }
    assert |xs[0]| == |ys[0]|;
    assert xs[0] == s[..|xs[0]|] == ys[0];
    if |xs| > 1 && |ys| > 1 {
      assert Join(xs[1..], ARROW) == s[|xs[0]| + 2..] == Join(ys[1..], ARROW);
      JoinIsInjective(xs[1..], ys[1..]);
      assert xs == [xs[0]] + xs[1..] && ys == [ys[0]] + ys[1..];
    }
  }

  /** Equal keys mean equal nodes, each as often, when no name holds "->". */
  lemma KeyDeterminesNodes(c: Cycle, d: Cycle)
    requires c != [] && d != [] && AllArrowFree(c) && AllArrowFree(d)
    requires CycleKey(c) == CycleKey(d)
    ensures Sorted(c) == Sorted(d) && multiset(c) == multiset(d)
  {
    SortedArrowFree(c);
    SortedArrowFree(d);
    JoinIsInjective(Sorted(c), Sorted(d));
  }

  /** A list in order is what sorting any reordering of it gives. */
  lemma SortedIs(xs: seq<string>, ys: seq<string>)
    requires InOrder(ys) && multiset(xs) == multiset(ys)
    ensures Sorted(xs) == ys
  {
    SortedInOrder(xs);
    OrderedIsUnique(Sorted(xs), ys);
  }

  /** Reordering the nodes does not change the sorted list, so it does not change the key. */
  lemma KeyForgetsOrder(c: Cycle, d: Cycle)
    requires multiset(c) == multiset(d)
    ensures Sorted(c) == Sorted(d) && CycleKey(c) == CycleKey(d)
  {
    SortedInOrder(c);
    SortedInOrder(d);
    OrderedIsUnique(Sorted(c), Sorted(d));
  }

  lemma SortedArrowFree(c: seq<string>)
    requires AllArrowFree(c)
    ensures |Sorted(c)| == |c| && AllArrowFree(Sorted(c))
  {
    var r := Sorted(c);
    assert |multiset(r)| == |multiset(c)|;
    forall i | 0 <= i < |r| ensures ArrowFree(r[i]) {
      assert r[i] in multiset(r);
      assert r[i] in c;
    }
  }

  // ---------------------------------------------------------------------------------
  // The sorted list depends only on which names there are and how often

  lemma {:induction false} TextLeTotal(a: string, b: string)
    ensures TextLe(a, b) || TextLe(b, a)
    ensures TextLe(a, b) && TextLe(b, a) ==> a == b
  {
    if a != [] && b != [] && a[0] == b[0] {
      TextLeTotal(a[1..], b[1..]);
      assert a == [a[0]] + a[1..] && b == [b[0]] + b[1..];
    }
  }

  lemma {:induction false} TextLeTransitive(a: string, b: string, c: string)
    requires TextLe(a, b) && TextLe(b, c)
    ensures TextLe(a, c)
  {
    if a != [] && a[0] == b[0] == c[0] {
      TextLeTransitive(a[1..], b[1..], c[1..]);
    }
  }

  ghost predicate InOrder(xs: seq<string>) {
    forall i, j :: 0 <= i < j < |xs| ==> TextLe(xs[i], xs[j])
  }

  lemma {:induction false} InsertInOrder(x: string, xs: seq<string>)
    requires InOrder(xs)
    ensures InOrder(InsertSorted(x, xs))
  {
    var r := InsertSorted(x, xs);
    if xs == [] {
    } else if TextLe(x, xs[0]) {
      forall j | 0 <= j < |xs| ensures TextLe(x, xs[j]) {
        if j > 0 { TextLeTransitive(x, xs[0], xs[j]); }
      }
    } else {
      TextLeTotal(x, xs[0]);
      InsertInOrder(x, xs[1..]);
      var rest := InsertSorted(x, xs[1..]);
      forall j | 0 <= j < |rest| ensures TextLe(xs[0], rest[j]) {
        assert rest[j] in multiset(rest);
        assert rest[j] == x || rest[j] in xs[1..];
      }
    }
  }

  lemma {:induction false} SortedInOrder(xs: seq<string>)
    ensures InOrder(Sorted(xs))
  {
    if xs != [] {
      SortedInOrder(xs[1..]);
      InsertInOrder(xs[0], Sorted(xs[1..]));
    }
  }

  lemma OrderedHead(xs: seq<string>, ys: seq<string>)
    requires InOrder(xs) && InOrder(ys) && multiset(xs) == multiset(ys) && xs != [] && ys != []
    ensures TextLe(ys[0], xs[0])
  {
    assert xs[0] in multiset(ys);
    var i := IndexOf(ys, xs[0]);
    if i == 0 { TextLeTotal(xs[0], xs[0]); }
  }

  lemma OrderedTail(xs: seq<string>)
    requires InOrder(xs) && xs != []
    ensures InOrder(xs[1..])
  {
  }

  lemma SameTails(xs: seq<string>, ys: seq<string>)
    requires xs != [] && ys != [] && xs[0] == ys[0] && multiset(xs) == multiset(ys)
    ensures multiset(xs[1..]) == multiset(ys[1..])
  {
    DropHead(xs);
    DropHead(ys);
  }

  lemma SameLength(xs: seq<string>, ys: seq<string>)
    requires multiset(xs) == multiset(ys)
    ensures |xs| == |ys|
  {
    assert |multiset(xs)| == |xs| && |multiset(ys)| == |ys|;
  }

  lemma {:induction false} OrderedIsUnique(xs: seq<string>, ys: seq<string>)
    requires InOrder(xs) && InOrder(ys) && multiset(xs) == multiset(ys)
    ensures xs == ys
  {
    hide InOrder, TextLe;
    SameLength(xs, ys);
    if xs != [] {
      OrderedHead(xs, ys);
      OrderedHead(ys, xs);
      TextLeTotal(xs[0], ys[0]);
      SameTails(xs, ys);
      OrderedTail(xs);
      OrderedTail(ys);
      OrderedIsUnique(xs[1..], ys[1..]);
      assert xs == [xs[0]] + xs[1..] && ys == [ys[0]] + ys[1..];
    }
  }
}
