/** The sets of automaton nodes that the regex compiler keeps as sorted arrays and merges in
    place. The functions of the first half say what each pass over the arrays selects; the
    lemmas say what that means as a set. A set may repeat a node, as closures do, so order is
    stated for both cases: never descending, and strictly ascending where the inputs are. */
module NodeSets {

  function Last(s: seq<int>): int
    requires s != []
  {
    s[|s| - 1]
  }

  function Init(s: seq<int>): seq<int>
    requires s != []
  {
    s[..|s| - 1]
  }

  ghost predicate Ordered(s: seq<int>, strict: bool) {
    forall i, j | 0 <= i < j < |s| :: s[i] <= s[j] && (strict ==> s[i] != s[j])
  }

  ghost function Nodes(s: seq<int>): set<int> {
    set x | x in s
  }

  lemma NodesLast(s: seq<int>)
    requires s != []
    ensures Nodes(s) == Nodes(Init(s)) + {Last(s)}
  {
    assert s == Init(s) + [Last(s)];
  }

  lemma NodesAppend(s: seq<int>, x: int)
    ensures Nodes(s + [x]) == Nodes(s) + {x}
  {
    assert Init(s + [x]) == s;
    NodesLast(s + [x]);
  }

  lemma OrderedAppend(s: seq<int>, x: int, strict: bool)
    requires Ordered(s, strict)
    requires forall y | y in Nodes(s) :: y <= x && (strict ==> y != x)
    ensures Ordered(s + [x], strict)
  {
    forall i | 0 <= i < |s|
      ensures s[i] <= x && (strict ==> s[i] != x)
    {
      assert s[i] in Nodes(s);
    }
  }

  lemma OrderedInit(s: seq<int>, strict: bool)
    requires Ordered(s, strict) && s != []
    ensures Ordered(Init(s), strict)
    ensures forall y | y in Nodes(Init(s)) :: y <= Last(s) && (strict ==> y != Last(s))
  {
  }

  lemma OrderedTail(s: seq<int>, strict: bool)
    requires Ordered(s, strict) && s != []
    ensures Ordered(s[1..], strict)
    ensures forall y | y in Nodes(s[1..]) :: s[0] <= y && (strict ==> y != s[0])
  {
  }

  lemma NodesEmpty()
    ensures Nodes([]) == {}
  {
  }

  /** A strictly ordered array is determined by the set it stands for. */
  lemma {:induction false} CanonicalArray(s: seq<int>, t: seq<int>)
    requires Ordered(s, true) && Ordered(t, true)
    requires Nodes(s) == Nodes(t)
    ensures s == t
  {
    if s == [] {
      assert t != [] ==> Last(t) in Nodes(t);
    } else {
      assert Last(s) in Nodes(t);
      assert Last(t) in Nodes(s);
      assert Last(s) == Last(t);
      NodesLast(s);
      NodesLast(t);
      OrderedInit(s, true);
      OrderedInit(t, true);
      CanonicalArray(Init(s), Init(t));
      assert s == Init(s) + [Last(s)];
      assert t == Init(t) + [Last(t)];
    }
  }

  /** Merging two arrays from their ends; on a tie the first array's element goes on top. */
  function Merged(d: seq<int>, s: seq<int>): seq<int>
    decreases |d| + |s|
  {
    if s == [] then d
    else if d == [] then s
    else if Last(s) > Last(d) then Merged(d, Init(s)) + [Last(s)]
    else Merged(Init(d), s) + [Last(d)]
  }

  lemma {:induction false} MergedMeans(d: seq<int>, s: seq<int>, strict: bool)
    requires Ordered(d, strict) && Ordered(s, strict)
    requires strict ==> Nodes(d) !! Nodes(s)
    ensures |Merged(d, s)| == |d| + |s|
    ensures Nodes(Merged(d, s)) == Nodes(d) + Nodes(s)
    ensures Ordered(Merged(d, s), strict)
    decreases |d| + |s|
  {
    hide Nodes, Ordered;
    if d != [] && s != [] {
      NodesLast(d);
      NodesLast(s);
      OrderedInit(d, strict);
      OrderedInit(s, strict);
      if Last(s) > Last(d) {
        MergedMeans(d, Init(s), strict);
        NodesAppend(Merged(d, Init(s)), Last(s));
        OrderedAppend(Merged(d, Init(s)), Last(s), strict);
      } else {
        MergedMeans(Init(d), s, strict);
        NodesAppend(Merged(Init(d), s), Last(d));
        OrderedAppend(Merged(Init(d), s), Last(d), strict);
      }
    } else {
      NodesEmpty();
    }
  }

  /** The elements of `s` that a descending scan of both arrays does not meet in `d`. */
  function Missing(d: seq<int>, s: seq<int>): (m: seq<int>)
    ensures |m| <= |s|
    decreases |d| + |s|
  {
    if s == [] then []
    else if d == [] then s
    else if Last(d) == Last(s) then Missing(Init(d), Init(s))
    else if Last(d) < Last(s) then Missing(d, Init(s)) + [Last(s)]
    else Missing(Init(d), s)
  }

  lemma {:induction false} MissingMeans(d: seq<int>, s: seq<int>, strict: bool)
    requires Ordered(d, strict) && Ordered(s, strict)
    ensures Nodes(s) - Nodes(d) <= Nodes(Missing(d, s)) <= Nodes(s)
    ensures strict ==> Nodes(Missing(d, s)) !! Nodes(d)
    ensures Ordered(Missing(d, s), strict)
    decreases |d| + |s|
  {
    if s != [] && d != [] {
      NodesLast(d);
      NodesLast(s);
      OrderedInit(d, strict);
      OrderedInit(s, strict);
      if Last(d) == Last(s) {
        MissingMeans(Init(d), Init(s), strict);
      } else if Last(d) < Last(s) {
        MissingMeans(d, Init(s), strict);
        NodesAppend(Missing(d, Init(s)), Last(s));
        OrderedAppend(Missing(d, Init(s)), Last(s), strict);
      } else {
        MissingMeans(Init(d), s, strict);
      }
    } else {
      assert s == [] ==> Nodes(s) == {};
    }
  }

  /** `d` without its elements above `x`. */
  function NotAbove(d: seq<int>, x: int): (r: seq<int>)
    ensures r <= d && (r == [] || Last(r) <= x)
    ensures forall i | |r| <= i < |d| :: d[i] > x
  {
    if d != [] && Last(d) > x then NotAbove(Init(d), x) else d
  }

  /** The elements common to `s` and `t` that a descending scan does not meet in `d`. */
  function MissingCommon(d: seq<int>, s: seq<int>, t: seq<int>): (m: seq<int>)
    ensures |m| <= |s|
    decreases |s| + |t|
  {
    if s == [] || t == [] then []
    else if Last(s) == Last(t) then
      var r := NotAbove(d, Last(s));
      MissingCommon(r, Init(s), Init(t)) + (if r == [] || Last(r) != Last(s) then [Last(s)] else [])
    else if Last(s) < Last(t) then MissingCommon(d, s, Init(t))
    else MissingCommon(d, Init(s), t)
  }

  lemma {:induction false} MissingCommonMeans(d: seq<int>, s: seq<int>, t: seq<int>, strict: bool)
    requires Ordered(d, strict) && Ordered(s, strict) && Ordered(t, strict)
    ensures Nodes(s) * Nodes(t) - Nodes(d) <= Nodes(MissingCommon(d, s, t)) <= Nodes(s) * Nodes(t)
    ensures strict ==> Nodes(MissingCommon(d, s, t)) !! Nodes(d)
    ensures Ordered(MissingCommon(d, s, t), strict)
    decreases |s| + |t|
  {
    if s == [] {
      assert Nodes(s) == {};
    } else if t == [] {
      assert Nodes(t) == {};
    } else {
      NodesLast(s);
      NodesLast(t);
      OrderedInit(s, strict);
      OrderedInit(t, strict);
      var x := Last(s);
      if x == Last(t) {
        var r := NotAbove(d, x);
        NotAboveNodes(d, x, strict);
        var m := MissingCommon(r, Init(s), Init(t));
        MissingCommonMeans(r, Init(s), Init(t), strict);
        NodesAppend(m, x);
        if r == [] || Last(r) != x {
          OrderedAppend(m, x, strict);
          assert MissingCommon(d, s, t) == m + [x];
        } else {
          assert MissingCommon(d, s, t) == m;
        }
      } else if x < Last(t) {
        MissingCommonMeans(d, s, Init(t), strict);
      } else {
        MissingCommonMeans(d, Init(s), t, strict);
      }
    }
  }

  lemma {:induction false} NotAboveNodes(d: seq<int>, x: int, strict: bool)
    requires Ordered(d, strict)
    ensures Ordered(NotAbove(d, x), strict)
    ensures Nodes(NotAbove(d, x)) == set y | y in Nodes(d) && y <= x
    ensures x in Nodes(d) <==> NotAbove(d, x) != [] && Last(NotAbove(d, x)) == x
    decreases |d|
  {
    hide Nodes, Ordered;
    NodesEmpty();
    if d != [] {
      NodesLast(d);
      OrderedInit(d, strict);
      if Last(d) > x {
        NotAboveNodes(Init(d), x, strict);
      }
    }
  }

  /** The ascending pass that unites two arrays into a new one. */
  function United(s: seq<int>, t: seq<int>): seq<int>
    decreases |s| + |t|
  {
    if s == [] then t
    else if t == [] then s
    else if s[0] > t[0] then [t[0]] + United(s, t[1..])
    else if s[0] == t[0] then [s[0]] + United(s[1..], t[1..])
    else [s[0]] + United(s[1..], t)
  }

  lemma {:induction false} UnitedMeans(s: seq<int>, t: seq<int>, strict: bool)
    requires Ordered(s, strict) && Ordered(t, strict)
    ensures Nodes(United(s, t)) == Nodes(s) + Nodes(t)
    ensures Ordered(United(s, t), strict)
    decreases |s| + |t|
  {
    hide Nodes, Ordered;
    NodesEmpty();
    if s != [] && t != [] {
      NodesFirst(s);
      NodesFirst(t);
      OrderedTail(s, strict);
      OrderedTail(t, strict);
      if s[0] > t[0] {
        UnitedMeans(s, t[1..], strict);
        Prepended(t[0], United(s, t[1..]), strict, Nodes(s) + Nodes(t[1..]));
      } else if s[0] == t[0] {
        UnitedMeans(s[1..], t[1..], strict);
        Prepended(s[0], United(s[1..], t[1..]), strict, Nodes(s[1..]) + Nodes(t[1..]));
      } else {
        UnitedMeans(s[1..], t, strict);
        Prepended(s[0], United(s[1..], t), strict, Nodes(s[1..]) + Nodes(t));
      }
    }
  }

  lemma NodesFirst(s: seq<int>)
    requires s != []
    ensures Nodes(s) == {s[0]} + Nodes(s[1..])
  {
    assert s == [s[0]] + s[1..];
  }

  lemma Prepended(x: int, s: seq<int>, strict: bool, ns: set<int>)
    requires Ordered(s, strict) && Nodes(s) == ns
    requires forall y | y in ns :: x <= y && (strict ==> x != y)
    ensures Ordered([x] + s, strict)
    ensures Nodes([x] + s) == {x} + ns
  {
    forall i | 0 <= i < |s|
      ensures x <= s[i] && (strict ==> x != s[i])
    {
      assert s[i] in Nodes(s);
    }
    NodesFirst([x] + s);
    assert ([x] + s)[1..] == s;
  }
}
