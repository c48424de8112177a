/** parse_dup_op: repetition operators become copies of the repeated tree. */
module Repeats {
  import opened ParseTrees
  import opened Languages
  import opened TreeCopies

  /** The words made of `lo` to `hi` words of `s`; without an upper bound if `hi` is -1. */
  ghost predicate InPowers(s: Shape, lo: nat, hi: int, w: Word) {
    exists k: nat :: lo <= k && (hi == -1 || k <= hi) && InPower(s, k, w)
  }

  ghost predicate Means(t: Shape, s: Shape, lo: nat, hi: int) {
    forall w :: InLang(t, w) <==> InPowers(s, lo, hi, w)
  }

  lemma {:induction false} PowerAdd(s: Shape, a: nat, b: nat, u: Word, v: Word)
    requires InPower(s, a, u) && InPower(s, b, v)
    ensures InPower(s, a + b, u + v)
    decreases a
  {
    if a == 0 {
      assert u + v == v;
    } else {
      var i :| 0 <= i <= |u| && InLang(s, u[..i]) && InPower(s, a - 1, u[i..]);
      PowerAdd(s, a - 1, b, u[i..], v);
      assert (u + v)[..i] == u[..i] && (u + v)[i..] == u[i..] + v;
    }
  }

  lemma {:induction false} PowerSplit(s: Shape, a: nat, b: nat, w: Word) returns (i: int)
    requires InPower(s, a + b, w)
    ensures 0 <= i <= |w| && InPower(s, a, w[..i]) && InPower(s, b, w[i..])
    decreases a
  {
    i := 0;
    if a == 0 {
      assert w[0..] == w;
    } else {
      var j :| 0 <= j <= |w| && InLang(s, w[..j]) && InPower(s, a + b - 1, w[j..]);
      i := PowerSplit(s, a - 1, b, w[j..]);
      i := i + j;
      assert w[..i][..j] == w[..j] && w[..i][j..] == w[j..][..i - j] && w[i..] == w[j..][i - j..];
    }
  }

  lemma PowerOne(s: Shape, w: Word)
    ensures InPower(s, 1, w) <==> InLang(s, w)
  {
    if InPower(s, 1, w) {
      var i :| 0 <= i <= |w| && InLang(s, w[..i]) && InPower(s, 0, w[i..]);
      assert w[..i] == w;
    }
    if InLang(s, w) {
      assert w[..|w|] == w && InPower(s, 0, w[|w|..]);
    }
  }

  /** A concatenation of repetitions adds the bounds up. */
  lemma ConcatMeans(c: Shape, s: Shape, lo1: nat, hi1: int, lo2: nat, hi2: int)
    requires c.Node? && c.tok.Concat?
    requires Means(c.l, s, lo1, hi1) && Means(c.r, s, lo2, hi2)
    requires (hi1 == -1 || lo1 <= hi1) && (hi2 == -1 || lo2 <= hi2) && hi1 >= 0 && hi2 >= -1
    ensures Means(c, s, lo1 + lo2, if hi2 == -1 then -1 else hi1 + hi2)
  {
    hide Means, InPowers;
    var hi := if hi2 == -1 then -1 else hi1 + hi2;
    forall w
      ensures InLang(c, w) <==> InPowers(s, lo1 + lo2, hi, w)
    {
      if InLang(c, w) {
        ConcatAdds(c, s, lo1, hi1, lo2, hi2, w);
      }
      if InPowers(s, lo1 + lo2, hi, w) {
        ConcatParts(c, s, lo1, hi1, lo2, hi2, w);
      }
    }
    MeansAll(c, s, lo1 + lo2, hi);
  }

  lemma MeansAll(c: Shape, s: Shape, lo: nat, hi: int)
    requires forall w :: InLang(c, w) <==> InPowers(s, lo, hi, w)
    ensures Means(c, s, lo, hi)
  {
  }

  lemma ConcatAdds(c: Shape, s: Shape, lo1: nat, hi1: nat, lo2: nat, hi2: int, w: Word)
    requires c.Node? && c.tok.Concat? && Means(c.l, s, lo1, hi1) && Means(c.r, s, lo2, hi2)
    requires InLang(c, w)
    ensures InPowers(s, lo1 + lo2, if hi2 == -1 then -1 else hi1 + hi2, w)
  {
    var i :| 0 <= i <= |w| && InLang(c.l, w[..i]) && InLang(c.r, w[i..]);
    assert InPowers(s, lo1, hi1, w[..i]) && InPowers(s, lo2, hi2, w[i..]);
    var a: nat :| lo1 <= a && a <= hi1 && InPower(s, a, w[..i]);
    var b: nat :| lo2 <= b && (hi2 == -1 || b <= hi2) && InPower(s, b, w[i..]);
    PowerAdd(s, a, b, w[..i], w[i..]);
    assert w[..i] + w[i..] == w;
    assert InPower(s, a + b, w);
  }

  lemma ConcatParts(c: Shape, s: Shape, lo1: nat, hi1: nat, lo2: nat, hi2: int, w: Word)
    requires c.Node? && c.tok.Concat? && Means(c.l, s, lo1, hi1) && Means(c.r, s, lo2, hi2)
    requires lo1 <= hi1 && (hi2 == -1 || lo2 <= hi2) && InPowers(s, lo1 + lo2, if hi2 == -1 then -1 else hi1 + hi2, w)
    ensures InLang(c, w)
  {
    var k: nat :| lo1 + lo2 <= k && (hi2 == -1 || k <= hi1 + hi2) && InPower(s, k, w);
    var a: nat := if k - lo2 <= hi1 then k - lo2 else hi1;
    var b: nat := k - a;
    var i := PowerSplit(s, a, b, w);
    assert InPowers(s, lo1, hi1, w[..i]) && InPowers(s, lo2, hi2, w[i..]);
  }

  lemma ElementMeans(e: Shape, s: Shape)
    requires Isomorphic(s, e)
    ensures Means(e, s, 1, 1)
  {
    forall w
      ensures InLang(e, w) <==> InPowers(s, 1, 1, w)
    {
      SameLanguage(s, e, w);
      PowerOne(s, w);
    }
  }

  lemma StarMeans(t: Shape, s: Shape)
    requires t.Node? && t.tok.Star? && Isomorphic(s, t.l)
    ensures Means(t, s, 0, -1)
  {
    forall w
      ensures InLang(t, w) <==> InPowers(s, 0, -1, w)
    {
      forall n: nat
        ensures InPower(s, n, w) <==> InPower(t.l, n, w)
      {
        SamePowers(s, t.l, n, w);
      }
    }
  }

  /** An alternative to nothing lets a repetition begin at zero. */
  lemma OptionMeans(t: Shape, s: Shape, lo: nat, hi: nat)
    requires t.Node? && t.tok.Alt? && t.r.Nil? && Means(t.l, s, lo, hi) && lo <= 1 <= hi
    ensures Means(t, s, 0, hi)
  {
    forall w
      ensures InLang(t, w) <==> InPowers(s, 0, hi, w)
    {
      assert InPower(s, 0, w) <==> w == [];
      if InPowers(s, 0, hi, w) {
        var k: nat :| k <= hi && InPower(s, k, w);
        assert k > 0 ==> InPowers(s, lo, hi, w);
      }
    }
  }

  /** A repetition being built: the tree `tree` of shape `s`, whose last copy `elem`, of shape
      `e`, has nothing to the right of its ancestors. */
  ghost predicate Growing(tree: Tree, s: Shape, elem: Tree, e: Shape, anc: seq<Tree>)
    reads Objs(s)`parent, Objs(s)`left, Objs(s)`right, Objs(s)`token
    reads Objs(e)`parent, Objs(e)`left, Objs(e)`right, Objs(e)`token
    reads elem`parent, (set a | a in anc)`parent, (set a | a in anc)`right
  {
    && Linked(tree, null, s) && Distinct(s)
    && Linked(elem, elem.parent, e) && Distinct(e) && Objs(e) <= Objs(s)
    && RightSpine(elem, anc) && (elem.parent == null || elem.parent !in Objs(e))
  }

  /** One more copy behind the repetition. */
  method AppendCopy(tree: Tree, elem: Tree, ghost s: Shape, ghost e: Shape, ghost anc: seq<Tree>,
                    ghost all: set<Tree>, ghost part: set<Tree>)
      returns (tree': Tree, elem': Tree, ghost s': Shape, ghost e': Shape, ghost all': set<Tree>)
    requires all == Objs(s) && part == Objs(e) && Growing(tree, s, elem, e, anc)
    modifies tree`parent
    ensures all' == Objs(s') && all <= all' && fresh(all' - all) && fresh(tree')
    ensures Growing(tree', s', elem', e', [tree'])
    ensures s'.Node? && s'.tok == Concat && s'.l == s && s'.r == e' && Isomorphic(e, e') && tree'.right == elem'
  {
    hide Distinct, RightSpine;
    ghost var objs;
    elem', e', objs := DuplicateTree(elem, e, part, anc);
    tree', s' := CreateTree(tree, elem', Concat, s, e', null, elem.parent, all + objs);
    SpineOfOne(elem', tree');
    all' := all + objs + {tree'};
  }

  lemma SpineOfOne(x: Tree, p: Tree)
    requires x.parent == p && p.parent == null && (p.right == x || p.right == null)
    ensures RightSpine(x, [p])
  {
  }

  lemma SpineOfTwo(x: Tree, p: Tree, q: Tree)
    requires x.parent == p && p.parent == q && q.parent == null
    requires (p.right == x || p.right == null) && (q.right == p || q.right == null)
    ensures RightSpine(x, [p, q])
  {
  }

  lemma {:induction false} SameTree(s: Shape)
    ensures Isomorphic(s, s)
  {
    if s.Node? {
      SameTree(s.l);
      SameTree(s.r);
    }
  }

  lemma {:induction false} IsomorphicChain(s: Shape, t: Shape, u: Shape)
    requires Isomorphic(s, t) && Isomorphic(t, u)
    ensures Isomorphic(s, u)
  {
    if s.Node? {
      IsomorphicChain(s.l, t.l, u.l);
      IsomorphicChain(s.r, t.r, u.r);
    }
  }

  lemma {:induction false} SameForm(s: Shape, t: Shape)
    requires Isomorphic(s, t)
    ensures WellFormed(s) <==> WellFormed(t)
  {
    if s.Node? {
      SameForm(s.l, t.l);
      SameForm(s.r, t.r);
    }
  }

  /** The repetition built so far stands for `lo` to `hi` times the expression `s0`. */
  ghost predicate Standing(s: Shape, e: Shape, s0: Shape, lo: nat, hi: nat) {
    && lo <= hi && Isomorphic(s0, e) && Means(s, s0, lo, hi)
    && s.Node? && (WellFormed(s0) ==> WellFormed(s))
  }

  lemma StandingAppend(s: Shape, e: Shape, s0: Shape, lo: nat, hi: nat, s': Shape, e': Shape)
    requires Standing(s, e, s0, lo, hi) && Isomorphic(e, e')
    requires s'.Node? && s'.tok == Concat && s'.l == s && s'.r == e' && e'.Node?
    ensures Standing(s', e', s0, lo + 1, hi + 1)
  {
    hide Means, Isomorphic;
    IsomorphicChain(s0, e, e');
    ElementMeans(e', s0);
    ConcatMeans(s', s0, lo, hi, 1, 1);
    SameForm(s0, e');
  }

  /** "<re>{n}": the repeated part. */
  method Copies(elem: Tree, start: int, ghost s0: Shape, ghost all: set<Tree>)
      returns (tree: Tree, last: Tree, ghost s: Shape, ghost e: Shape, ghost anc: seq<Tree>, ghost objs: set<Tree>)
    requires all == Objs(s0) && s0.Node? && Linked(elem, null, s0) && Distinct(s0) && start > 0
    modifies elem`parent
    ensures Growing(tree, s, last, e, anc) && Standing(s, e, s0, start, start) && e.Node?
    ensures objs == Objs(s) && fresh(objs - all) && (tree == elem || fresh(tree))
  {
    hide Distinct, RightSpine, Standing, Growing, Linked;
    tree, last, s, e, anc, objs := elem, elem, s0, s0, [], all;
    CopiesStart(elem, s0);
    var i := 2;
    while i <= start
      invariant 2 <= i <= start + 1
      invariant Growing(tree, s, last, e, anc) && Standing(s, e, s0, i - 1, i - 1) && e.Node?
      invariant objs == Objs(s) && fresh(objs - all) && (tree == elem || fresh(tree))
    {
      ghost var s', e';
      tree, last, s', e', objs := AppendCopy(tree, last, s, e, anc, objs, Objs(e));
      StandingAppend(s, e, s0, i - 1, i - 1, s', e');
      s, e, anc := s', e', [tree];
      i := i + 1;
    }
  }

  lemma CopiesStart(elem: Tree, s0: Shape)
    requires s0.Node? && Linked(elem, null, s0) && Distinct(s0)
    ensures Growing(elem, s0, elem, s0, []) && Standing(s0, s0, s0, 1, 1)
  {
    SameTree(s0);
    ElementMeans(s0, s0);
  }

  /** "<re>{0,m}" behind its first copy `elem`: ((<re>?<re>)?<re>)? and so on. */
  method Options(elem: Tree, count: int, ghost e0: Shape, ghost s0: Shape, ghost all: set<Tree>)
      returns (tree: Tree, ghost s: Shape, ghost objs: set<Tree>)
    requires all == Objs(e0) && e0.Node? && Linked(elem, elem.parent, e0) && Distinct(e0)
    requires Isomorphic(s0, e0) && count > 0
    modifies elem`parent
    ensures Linked(tree, null, s) && Distinct(s) && objs == Objs(s) && fresh(objs - all) && fresh(tree)
    ensures s.Node? && Means(s, s0, 0, count) && (WellFormed(s0) ==> WellFormed(s))
  {
    hide Distinct, RightSpine, Standing, Growing;
    tree, s := CreateTree(elem, null, Alt, e0, Nil, elem.parent, null, all);
    OptionStart(elem, e0, s0, tree, s);
    ghost var e, anc := e0, [tree];
    objs := all + {tree};
    var last := elem;
    var i := 2;
    while i <= count
      invariant 2 <= i <= count + 1
      invariant Growing(tree, s, last, e, anc) && Standing(s, e, s0, 0, i - 1) && e.Node?
      invariant objs == Objs(s) && fresh(objs - all) && fresh(tree)
    {
      ghost var c, e';
      var concat;
      concat, last, c, e', objs := AppendCopy(tree, last, s, e, anc, objs, Objs(e));
      StandingAppend(s, e, s0, 0, i - 1, c, e');
      tree, s := AddOption(concat, last, c, e', objs, s0, i);
      objs := objs + {tree};
      e, anc := e', [concat, tree];
      i := i + 1;
    }
    EndsStanding(tree, s, last, e, anc, s0, count);
  }

  /** Makes what stands for one to `n` times stand for none as well. */
  method AddOption(concat: Tree, elem: Tree, ghost c: Shape, ghost e: Shape, ghost all: set<Tree>,
                   ghost s0: Shape, ghost n: nat) returns (tree: Tree, ghost s: Shape)
    requires all == Objs(c) && Growing(concat, c, elem, e, [concat]) && concat.right == elem
    requires Standing(c, e, s0, 1, n)
    modifies concat`parent
    ensures fresh(tree) && Objs(s) == all + {tree}
    ensures Growing(tree, s, elem, e, [concat, tree]) && Standing(s, e, s0, 0, n)
  {
    hide Distinct, Means;
    tree, s := CreateTree(concat, null, Alt, c, Nil, null, null, all);
    SpineOfTwo(elem, concat, tree);
    StandingOption(c, e, s0, n, s);
  }

  lemma StandingOption(c: Shape, e: Shape, s0: Shape, n: nat, s: Shape)
    requires Standing(c, e, s0, 1, n) && s.Node? && s.tok == Alt && s.l == c && s.r == Nil
    ensures Standing(s, e, s0, 0, n)
  {
    hide Means, Isomorphic;
    OptionMeans(s, s0, 1, n);
    assert WellFormed(s.r);
  }

  lemma OptionStart(elem: Tree, e0: Shape, s0: Shape, tree: Tree, s: Shape)
    requires s == Node(tree, Alt, e0, Nil) && Isomorphic(s0, e0) && e0.Node?
    requires Linked(tree, null, s) && Distinct(s) && tree.left == elem && tree.right == null
    ensures Growing(tree, s, elem, e0, [tree]) && Standing(s, e0, s0, 0, 1)
  {
    SpineOfOne(elem, tree);
    ElementMeans(e0, s0);
    OptionMeans(s, s0, 1, 1);
    SameForm(s0, e0);
  }

  lemma EndsStanding(tree: Tree, s: Shape, last: Tree, e: Shape, anc: seq<Tree>, s0: Shape, n: nat)
    requires Growing(tree, s, last, e, anc) && Standing(s, e, s0, 0, n)
    ensures Linked(tree, null, s) && Distinct(s) && s.Node? && Means(s, s0, 0, n) && (WellFormed(s0) ==> WellFormed(s))
  {
  }

  const RE_DUP_MAX := 0x7fff

  /** A repetition operator; the bounds of an interval are what was read between its braces,
      and `end` is -1 where the upper one is missing. */
  datatype Operator = Asterisk | Plus | Question | Interval(start: nat, end: int)

  datatype Outcome = Done | BadBr | ESize

  function Lo(op: Operator): nat {
    match op
    case Asterisk => 0
    case Plus => 1
    case Question => 0
    case Interval(start, _) => start
  }

  function Hi(op: Operator): int {
    match op
    case Asterisk => -1
    case Plus => -1
    case Question => 1
    case Interval(_, end) => end
  }

  /** parse_dup_op, from the bounds on. A missing tree is NULL on both sides. */
  method DupOp(elem: Tree?, op: Operator, ghost s0: Shape, ghost all: set<Tree>)
      returns (tree: Tree?, err: Outcome, ghost s: Shape, ghost objs: set<Tree>)
    requires all == Objs(s0) && Linked(elem, null, s0) && Distinct(s0) && (op.Interval? ==> op.end >= -1)
    modifies all`parent
    ensures err == BadBr <==> op.Interval? && op.end != -1 && op.start > op.end
    ensures err == ESize <==> err != BadBr && op.Interval? && 0x7fff < (if op.end == -1 then op.start else op.end)
    ensures err == Done ==> Linked(tree, null, s) && Distinct(s) && objs == Objs(s) && fresh(objs - all)
    ensures err == Done ==>
              match op
              case Asterisk => Means(s, s0, 0, -1)
              case Plus => Means(s, s0, 1, -1)
              case Question => Means(s, s0, 0, 1)
              case Interval(n, m) => Means(s, s0, n, m)
    ensures err == Done ==> WellFormed(s0) ==> WellFormed(s)
    ensures err != Done ==> tree == null
  {
    hide Means, Distinct, Growing, Standing, RightSpine;
    tree, err, s, objs := null, Done, Nil, {};
    var start, end := Lo(op), Hi(op);
    if op.Interval? {
      if end != -1 && start > end {
        err := BadBr;
        return;
      }
      if RE_DUP_MAX < (if end == -1 then start else end) {
        err := ESize;
        return;
      }
    }
    NothingRepeated(s0, start, end);
    if elem == null {
      return;
    }
    if start == 0 && end == 0 {
      return;
    }
    if start == 0 {
      SameTree(s0);
      tree, s, objs := Remainder(elem, end, s0, s0, all);
      return;
    }
    var oldTree, last;
    ghost var olds, e, anc, olds';
    oldTree, last, olds, e, anc, olds' := Copies(elem, start, s0, all);
    CopiesMean(oldTree, olds, last, e, anc, s0, start);
    if start == end {
      tree, s, objs := oldTree, olds, olds';
      return;
    }
    tree, s, objs := Behind(oldTree, last, start, end, olds, e, anc, s0, olds');
  }

  /** "<re>*" or "<re>{0,m}", over the copy `elem`. */
  method Remainder(elem: Tree, count: int, ghost e: Shape, ghost s0: Shape, ghost all: set<Tree>)
      returns (tree: Tree, ghost s: Shape, ghost objs: set<Tree>)
    requires all == Objs(e) && e.Node? && Linked(elem, elem.parent, e) && Distinct(e)
    requires Isomorphic(s0, e) && (count == -1 || count > 0)
    modifies elem`parent
    ensures Linked(tree, null, s) && Distinct(s) && objs == Objs(s) && fresh(objs - all) && fresh(tree)
    ensures s.Node? && Means(s, s0, 0, count) && (WellFormed(s0) ==> WellFormed(s))
  {
    hide Distinct, Means;
    if count == -1 {
      tree, s := CreateTree(elem, null, Star, e, Nil, elem.parent, null, all);
      objs := all + {tree};
      StarMeans(s, s0);
      SameForm(s0, e);
      assert WellFormed(s.r);
    } else {
      tree, s, objs := Options(elem, count, e, s0, all);
    }
  }

  /** The copies that must be there, followed by the ones that may. */
  method Behind(oldTree: Tree, last: Tree, start: int, end: int, ghost olds: Shape, ghost e: Shape,
                ghost anc: seq<Tree>, ghost s0: Shape, ghost all: set<Tree>)
      returns (tree: Tree, ghost s: Shape, ghost objs: set<Tree>)
    requires all == Objs(olds) && e.Node? && start > 0 && (end == -1 || start < end)
    requires Growing(oldTree, olds, last, e, anc) && Standing(olds, e, s0, start, start)
    modifies oldTree`parent
    ensures Linked(tree, null, s) && Distinct(s) && objs == Objs(s) && fresh(objs - all)
    ensures Means(s, s0, start, end) && (WellFormed(s0) ==> WellFormed(s))
  {
    hide Distinct, Means, RightSpine, Isomorphic, Linked, WellFormed;
    ghost var e', part, more;
    var item;
    item, e', part := DuplicateTree(last, e, Objs(e), anc);
    IsomorphicChain(s0, e, e');
    SameNode(e, e');
    tree, more, objs := Remainder(item, if end == -1 then -1 else end - start, e', s0, part);
    tree, s := InFront(oldTree, tree, olds, more, s0, start, end, all + objs);
    objs := all + objs + {tree};
  }

  method InFront(oldTree: Tree, tree: Tree, ghost olds: Shape, ghost more: Shape, ghost s0: Shape,
                 ghost start: nat, ghost end: int, ghost all: set<Tree>) returns (tree': Tree, ghost s: Shape)
    requires all == Objs(olds) + Objs(more) && Objs(olds) !! Objs(more) && Distinct(olds) && Distinct(more)
    requires Linked(oldTree, null, olds) && Linked(tree, null, more) && olds.Node? && more.Node?
    requires end == -1 || start < end
    requires Means(olds, s0, start, start) && Means(more, s0, 0, if end == -1 then -1 else end - start)
    requires WellFormed(s0) ==> WellFormed(olds) && WellFormed(more)
    modifies oldTree`parent, tree`parent
    ensures fresh(tree') && Linked(tree', null, s) && Distinct(s) && Objs(s) == all + {tree'}
    ensures Means(s, s0, start, end) && (WellFormed(s0) ==> WellFormed(s))
  {
    hide Distinct, Means, Linked;
    tree', s := CreateTree(oldTree, tree, Concat, olds, more, null, null, all);
    ConcatMeans(s, s0, start, start, 0, if end == -1 then -1 else end - start);
  }

  lemma SameNode(s: Shape, t: Shape)
    requires Isomorphic(s, t)
    ensures s.Node? <==> t.Node?
  {
  }

  lemma CopiesMean(tree: Tree, s: Shape, last: Tree, e: Shape, anc: seq<Tree>, s0: Shape, n: nat)
    requires Growing(tree, s, last, e, anc) && Standing(s, e, s0, n, n)
    ensures Linked(tree, null, s) && Distinct(s) && s.Node? && Means(s, s0, n, n) && (WellFormed(s0) ==> WellFormed(s))
  {
  }

  lemma {:induction false} NilPowers(k: nat, w: Word)
    ensures InPower(Nil, k, w) <==> w == []
    decreases k
  {
    if k > 0 {
      forall i | 0 <= i <= |w|
        ensures InPower(Nil, k - 1, w[i..]) <==> w[i..] == []
      {
        NilPowers(k - 1, w[i..]);
      }
      if w == [] {
        assert InLang(Nil, w[..0]) && w[0..] == [];
      }
    }
  }

  lemma NothingRepeated(s0: Shape, lo: nat, hi: int)
    requires hi == -1 || lo <= hi
    ensures s0.Nil? ==> Means(Nil, s0, lo, hi)
    ensures lo == 0 == hi ==> Means(Nil, s0, 0, 0)
    ensures WellFormed(Nil) && Linked(null, null, Nil) && Distinct(Nil) && Objs(Nil) == {}
  {
    if s0.Nil? {
      forall w
        ensures InLang(Nil, w) <==> InPowers(s0, lo, hi, w)
      {
        NilPowers(lo, w);
        if InPowers(s0, lo, hi, w) {
          var k: nat :| lo <= k && (hi == -1 || k <= hi) && InPower(s0, k, w);
          NilPowers(k, w);
        }
      }
    }
    if lo == 0 == hi {
      forall w
        ensures InLang(Nil, w) <==> InPowers(s0, 0, 0, w)
      {
        var z: nat := 0;
        assert InPower(s0, z, w) <==> w == [];
      }
    }
  }
}
