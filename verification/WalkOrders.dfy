/** What the two walks visit before what. */
module WalkOrders {
  import opened ParseTrees

  /** The children of `x` are two nodes of the same tree that point back to it. */
  ghost predicate Kin(all: set<Tree>, x: Tree)
    reads all`parent, x`parent, x`left, x`right
  {
    && (x.left != null ==> x.left in all && x.left.parent == x && x.left != x)
    && (x.right != null ==> x.right in all && x.right.parent == x && x.right != x && x.right != x.left)
  }

  lemma {:induction false} Kinships(t: Tree?, par: Tree?, s: Shape, all: set<Tree>)
    requires Linked(t, par, s) && Distinct(s) && Objs(s) <= all
    ensures forall x | x in Objs(s) :: Kin(all, x)
    decreases s
  {
    if s.Node? {
      Kinships(t.left, t, s.l, all);
      Kinships(t.right, t, s.r, all);
      assert t.left != null ==> t.left in Objs(s.l);
      assert t.right != null ==> t.right in Objs(s.r);
    }
  }

  ghost predicate NoDup<T>(p: seq<T>) {
    forall j, k | 0 <= j < k < |p| :: p[j] != p[k]
  }

  lemma NoDupConcat<T>(p: seq<T>, q: seq<T>)
    requires NoDup(p) && NoDup(q)
    requires (set x | x in p) !! (set x | x in q)
    ensures NoDup(p + q)
  {
    forall j, k | 0 <= j < |p| && 0 <= k < |q|
      ensures p[j] != q[k]
    {
      var ps, qs := set x | x in p, set x | x in q;
      assert p[j] in ps && q[k] in qs && ps !! qs;
    }
  }

  lemma {:induction false} OrdersNoDup(s: Shape)
    requires Distinct(s)
    ensures NoDup(Post(s)) && NoDup(Pre(s))
  {
    if s.Node? {
      OrdersNoDup(s.l);
      OrdersNoDup(s.r);
      OrdersComplete(s.l);
      OrdersComplete(s.r);
      SetOfThree(Post(s.l), Post(s.r), []);
      SetOfThree([s.obj], Pre(s.l), []);
      assert Post(s.l) + Post(s.r) + [] == Post(s.l) + Post(s.r);
      assert [s.obj] + Pre(s.l) + [] == [s.obj] + Pre(s.l);
      NoDupConcat(Post(s.l), Post(s.r));
      NoDupConcat(Post(s.l) + Post(s.r), [s.obj]);
      NoDupConcat([s.obj], Pre(s.l));
      NoDupConcat([s.obj] + Pre(s.l), Pre(s.r));
    }
  }

  /** Left children come earlier. */
  ghost predicate Upward(p: seq<Tree>)
    reads (set x | x in p)`left
  {
    forall k | 0 <= k < |p| :: p[k].left != null ==> p[k].left in p[..k]
  }

  lemma UpwardConcat(p: seq<Tree>, q: seq<Tree>)
    requires Upward(p)
    requires forall k | 0 <= k < |q| :: q[k].left != null ==> q[k].left in p || q[k].left in q[..k]
    ensures Upward(p + q)
  {
    forall k | 0 <= k < |p + q| && (p + q)[k].left != null
      ensures (p + q)[k].left in (p + q)[..k]
    {
      if k < |p| {
        assert (p + q)[..k] == p[..k];
      } else {
        assert (p + q)[..k] == p + q[..k - |p|];
      }
    }
  }

  lemma {:induction false} PostUpward(t: Tree?, par: Tree?, s: Shape)
    requires Linked(t, par, s)
    ensures Upward(Post(s))
    decreases s
  {
    if s.Node? {
      PostUpward(t.left, t, s.l);
      PostUpward(t.right, t, s.r);
      UpwardConcat(Post(s.l), Post(s.r));
      UpwardConcat(Post(s.l) + Post(s.r), [t]);
    }
  }

  /** Parents come earlier. */
  ghost predicate Downward(p: seq<Tree>, top: Tree?)
    reads (set x | x in p)`parent
  {
    forall k | 0 <= k < |p| :: p[k].parent == top || p[k].parent in p[..k]
  }

  lemma DownwardConcat(p: seq<Tree>, q: seq<Tree>, top: Tree?, top': Tree)
    requires Downward(p, top) && Downward(q, top') && top' in p
    ensures Downward(p + q, top)
  {
    forall k | 0 <= k < |p + q|
      ensures (p + q)[k].parent == top || (p + q)[k].parent in (p + q)[..k]
    {
      if k < |p| {
        assert (p + q)[..k] == p[..k];
      } else {
        assert (p + q)[..k] == p + q[..k - |p|];
      }
    }
  }

  lemma {:induction false} PreDownward(t: Tree?, par: Tree?, s: Shape)
    requires Linked(t, par, s)
    ensures Downward(Pre(s), par)
    decreases s
  {
    if s.Node? {
      PreDownward(t.left, t, s.l);
      PreDownward(t.right, t, s.r);
      DownwardConcat([t], Pre(s.l), par, t);
      DownwardConcat([t] + Pre(s.l), Pre(s.r), par, t);
    }
  }

  /** The nodes a walk has visited after `i` rounds. */
  ghost function Visited(p: seq<Tree>, i: int): set<Tree>
    requires 0 <= i <= |p|
  {
    set x | x in p[..i]
  }

  lemma VisitNext(p: seq<Tree>, i: int)
    requires 0 <= i < |p| && NoDup(p)
    ensures p[i] !in Visited(p, i) && Visited(p, i + 1) == Visited(p, i) + {p[i]}
    ensures Upward(p) && p[i].left != null ==> p[i].left in Visited(p, i)
    ensures forall top :: Downward(p, top) ==> p[i].parent == top || p[i].parent in Visited(p, i)
  {
    assert p[..i + 1] == p[..i] + [p[i]];
  }

  lemma VisitedGrows(p: seq<Tree>, i: int)
    requires 0 <= i <= |p|
    ensures Visited(p, i) <= Visited(p, |p|)
  {
  }

  lemma VisitEnds(p: seq<Tree>)
    ensures Visited(p, 0) == {} && Visited(p, |p|) == set x | x in p
  {
    assert p[..|p|] == p;
  }

  lemma PreStarts(t: Tree, par: Tree?, s: Shape)
    requires Linked(t, par, s)
    ensures Pre(s) != [] && Pre(s)[0] == t && t.parent == par && t in Objs(s)
  {
  }
}
