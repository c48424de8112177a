/** duplicate_tree: the preorder walk that builds a second tree beside the one it visits. */
module TreeCopies {
  import opened ParseTrees
  import opened Languages
  import opened WalkOrders

  /** The same tree over the objects that `m` puts in place of the old ones. */
  ghost function Renamed(s: Shape, m: map<Tree, Tree>): Shape
    requires Objs(s) <= m.Keys
  {
    if s.Nil? then Nil else Node(m[s.obj], s.tok, Renamed(s.l, m), Renamed(s.r, m))
  }

  ghost predicate Isomorphic(s: Shape, t: Shape) {
    if s.Nil? then t.Nil?
    else t.Node? && s.tok == t.tok && Isomorphic(s.l, t.l) && Isomorphic(s.r, t.r)
  }

  ghost predicate Injective(m: map<Tree, Tree>) {
    forall x, y | x in m && y in m :: m[x] == m[y] ==> x == y
  }

  lemma {:induction false} RenamedIsCopy(s: Shape, m: map<Tree, Tree>)
    requires Objs(s) <= m.Keys && Distinct(s) && Injective(m)
    ensures Isomorphic(s, Renamed(s, m)) && Distinct(Renamed(s, m))
    ensures Objs(Renamed(s, m)) == set x | x in Objs(s) :: m[x]
  {
    if s.Node? {
      RenamedIsCopy(s.l, m);
      RenamedIsCopy(s.r, m);
    }
  }

  /** Isomorphic trees have the same words. */
  lemma {:induction false} SameLanguage(s: Shape, t: Shape, w: Word)
    requires Isomorphic(s, t)
    ensures InLang(s, w) <==> InLang(t, w)
    decreases s, 0, 0
  {
    if s.Node? {
      match s.tok
      case Concat =>
        forall i | 0 <= i <= |w|
          ensures InLang(s.l, w[..i]) <==> InLang(t.l, w[..i])
          ensures InLang(s.r, w[i..]) <==> InLang(t.r, w[i..])
        {
          SameLanguage(s.l, t.l, w[..i]);
          SameLanguage(s.r, t.r, w[i..]);
        }
      case Star =>
        forall n: nat
          ensures InPower(s.l, n, w) <==> InPower(t.l, n, w)
        {
          SamePowers(s.l, t.l, n, w);
        }
      case Alt =>
        SameLanguage(s.l, t.l, w);
        SameLanguage(s.r, t.r, w);
      case Subexp(_) =>
        SameLanguage(s.l, t.l, w);
      case Bytes(_) =>
      case Open(_) =>
      case Close(_) =>
      case EndOfRe =>
    }
  }

  lemma {:induction false} SamePowers(s: Shape, t: Shape, n: nat, w: Word)
    requires Isomorphic(s, t)
    ensures InPower(s, n, w) <==> InPower(t, n, w)
    decreases s, 1, n
  {
    if n > 0 {
      forall i | 0 <= i <= |w|
        ensures InLang(s, w[..i]) <==> InLang(t, w[..i])
        ensures InPower(s, n - 1, w[i..]) <==> InPower(t, n - 1, w[i..])
      {
        SameLanguage(s, t, w[..i]);
        SamePowers(s, t, n - 1, w[i..]);
      }
    }
  }

  /** `anc` is the chain of ancestors of `x`, each of which has nothing to the right of the
      chain. */
  ghost predicate RightSpine(x: Tree, anc: seq<Tree>)
    reads x`parent, (set a | a in anc)`parent, (set a | a in anc)`right
  {
    if anc == [] then x.parent == null
    else
      && x.parent == anc[0] && anc[|anc| - 1].parent == null
      && (anc[0].right == x || anc[0].right == null)
      && forall k | 0 < k < |anc| ::
           anc[k - 1].parent == anc[k] && (anc[k].right == anc[k - 1] || anc[k].right == null)
  }

  datatype Slot = Root | Left | Right

  /** The copies made so far: `m` maps the visited nodes to them, and a copy has the children
      whose originals have been visited. */
  ghost predicate Copied(root: Tree, m: map<Tree, Tree>)
    reads root, m.Keys, m.Values
  {
    && root in m && Injective(m)
    && forall x | x in m :: CopyOf(root, m, x)
  }

  ghost predicate CopyOf(root: Tree, m: map<Tree, Tree>, x: Tree)
    requires x in m
    reads x, m[x]
  {
    && m[x].token == x.token
    && m[x].left == (if x.left != null && x.left in m then m[x.left] else null)
    && m[x].right == (if x.right != null && x.right in m then m[x.right] else null)
    && if x == root then m[x].parent == x.parent
       else x.parent != null && x.parent in m && m[x].parent == m[x.parent]
  }

  lemma {:induction false} CopyLinked(root: Tree, m: map<Tree, Tree>, t: Tree?, par: Tree?, s: Shape)
    requires Copied(root, m) && Linked(t, par, s) && Objs(s) <= m.Keys && s.Node?
    requires t != root ==> par != null && par in m
    requires root !in Objs(s.l) + Objs(s.r)
    ensures Linked(m[t], if t == root then root.parent else m[par], Renamed(s, m))
    decreases s
  {
    assert CopyOf(root, m, t);
    if s.l.Node? {
      CopyLinked(root, m, t.left, t, s.l);
    }
    if s.r.Node? {
      CopyLinked(root, m, t.right, t, s.r);
    }
  }

  /** What has been copied after `i` rounds. */
  ghost predicate CopiedUpTo(root: Tree, p: seq<Tree>, i: int, m: map<Tree, Tree>)
    reads root, m.Keys, m.Values
  {
    0 <= i <= |p| && m.Keys == Visited(p, i) && (i > 0 ==> Copied(root, m))
  }

  /** Where the next copy goes: under the copy of the parent of `node`. */
  ghost predicate Target(root: Tree, m: map<Tree, Tree>, node: Tree, slot: Slot, dupNode: Tree?)
    reads root, node, node.parent
  {
    if node == root then slot == Root && dupNode == root.parent
    else
      && node.parent != null && node.parent in m && dupNode == m[node.parent]
      && if slot == Left then node.parent.left == node && node.parent.right != node
         else slot == Right && node.parent.right == node && node.parent.left != node
  }

  lemma Extended(root: Tree, m: map<Tree, Tree>, node: Tree, x: Tree)
    requires Injective(m) && x !in m.Values && node !in m && root in m.Keys + {node}
    requires forall y | y in m :: CopyOf(root, m[node := x], y)
    requires CopyOf(root, m[node := x], node)
    ensures Copied(root, m[node := x])
  {
    var m': map<Tree, Tree> := m[node := x];
    forall y, z | y in m' && z in m' && m'[y] == m'[z]
      ensures y == z
    {
      assert y in m ==> m[y] in m.Values;
      assert z in m ==> m[z] in m.Values;
    }
    forall y | y in m'
      ensures CopyOf(root, m', y)
    {
      assert y in m || y == node;
    }
  }

  /** The next node of the walk, with nothing below it visited. */
  ghost predicate Unvisited(m: map<Tree, Tree>, root: Tree, node: Tree)
    reads node, m.Keys
  {
    && node !in m && (m != map[] ==> node != root)
    && (node.left != null ==> node.left !in m && node.left != node)
    && (node.right != null ==> node.right !in m && node.right != node)
    && (forall y | y in m :: y.left != null && y.left == node ==> y == node.parent)
    && (forall y | y in m :: y.right != null && y.right == node ==> y == node.parent)
  }

  /** Creates the copy of one node and links it to the current parent. */
  method PlaceCopy(root: Tree, node: Tree, slot: Slot, dupNode: Tree?, ghost p: seq<Tree>, ghost i: int,
                   ghost m: map<Tree, Tree>) returns (x: Tree, ghost m': map<Tree, Tree>)
    requires 0 <= i < |p| && p[i] == node && NoDup(p) && p[0] == root && CopiedUpTo(root, p, i, m)
    requires Target(root, m, node, slot, dupNode)
    requires Unvisited(m, root, node) && (i == 0 ==> node == root)
    requires m.Keys !! m.Values && root !in m.Values && node !in m.Values
    modifies m.Values
    ensures fresh(x)
    ensures m'.Keys == m.Keys + {node} && m'[node] == x && CopiedUpTo(root, p, i + 1, m')
    ensures m'.Values <= m.Values + {x} && root in m' && forall y | y in m :: m'[y] == m[y]
  {
    hide Visited, NoDup;
    assert i == 0 ==> m == map[] by {
      VisitEnds(p);
    }
    x := new Tree(null, null, node.token);
    match slot {
      case Root =>
      case Left => dupNode.left := x;
      case Right => dupNode.right := x;
    }
    x.parent := dupNode;
    VisitNext(p, i);
    m' := m[node := x];
    assert m'.Keys == m.Keys + {node};
    forall y | y in m
      ensures CopyOf(root, m', y)
    {
      assert i > 0 && old(Copied(root, m)) && old(CopyOf(root, m, y));
      assert m'[y] == m[y] && m[y] != x && m[y] in m.Values;
      if node != root && y != node.parent {
        assert m[y] != dupNode;
      }
    }
    assert CopyOf(root, m', node);
    Extended(root, m, node, x);
  }

  /** The state of the climb from the visited subtree `prev`, after `i` nodes: below the root
      (`a` is -1) `at`, at depth `d`, is what `up` is the copy of; above it both are the ancestor
      number `a` of the root. */
  ghost predicate Climbing(root: Tree, s: Shape, anc: seq<Tree>, m: map<Tree, Tree>, i: int,
                           at: Tree, up: Tree, prev: Tree?, a: int, d: nat)
    reads at
  {
    if a == -1 then
      && at in m && up == m[at]
      && if at.right == prev || at.right == null then Finished(s, at, i, d)
         else 0 <= i < |Pre(s)| && Pre(s)[i] == at.right
    else
      && 0 <= a < |anc| && at == anc[a] && up == at && i == |Pre(s)| && (at.right == prev || at.right == null)
  }

  lemma ClimbUp(root: Tree, s: Shape, anc: seq<Tree>, m: map<Tree, Tree>, i: int,
                at: Tree, up: Tree, prev: Tree?, a: int, d: nat) returns (a': int, d': nat)
    requires Linked(root, root.parent, s) && Distinct(s) && RightSpine(root, anc) && Copied(root, m)
    requires root in m && (root.parent == null || root.parent !in Objs(s))
    requires Climbing(root, s, anc, m, i, at, up, prev, a, d) && (at.right == prev || at.right == null)
    ensures at.parent == null ==> i == |Pre(s)|
    ensures at.parent != null ==> up.parent != null && Climbing(root, s, anc, m, i, at.parent, up.parent, at, a', d')
    ensures at.parent != null ==> if a == -1 then a' == 0 || (a' == -1 && d' < d) else a < a' < |anc|
  {
    hide Pre, Distinct, Injective, Linked, Finished, RightSpine, Copied, GoesUp;
    a', d' := a, d;
    if a == -1 {
      FinishedUp(root, root.parent, s, at, i, d);
      CopiedAt(root, m, at);
      if d == 0 {
        SpineAt(root, anc, -1);
        a' := 0;
      } else {
        UpSays(s, at, i, d);
        d' := d - 1;
      }
    } else {
      SpineAt(root, anc, a);
      a' := a + 1;
    }
  }

  lemma UpSays(s: Shape, x: Tree, j: int, d: nat)
    requires d > 0 && GoesUp(s, x, j, d)
    ensures x.parent != null && x.parent in Objs(s)
    ensures if x.parent.right == x || x.parent.right == null then Finished(s, x.parent, j, d - 1)
            else 0 <= j < |Pre(s)| && Pre(s)[j] == x.parent.right
  {
  }

  lemma CopiedAt(root: Tree, m: map<Tree, Tree>, x: Tree)
    requires Copied(root, m) && x in m
    ensures CopyOf(root, m, x)
  {
  }

  /** The next link of the spine, above the root (`k` is -1) or above one of its ancestors. */
  lemma SpineAt(root: Tree, anc: seq<Tree>, k: int)
    requires RightSpine(root, anc) && -1 <= k < |anc|
    ensures var x := if k == -1 then root else anc[k];
            if k + 1 == |anc| then x.parent == null
            else x.parent == anc[k + 1] && (anc[k + 1].right == x || anc[k + 1].right == null)
  {
  }

  /** `next` is the child, on the given side, of the node whose copy is `up`. */
  ghost predicate Parent(m: map<Tree, Tree>, next: Tree, slot: Slot, up: Tree?)
    reads m.Keys
  {
    exists x :: x in m && up == m[x] && if slot == Left then x.left == next else slot == Right && x.right == next
  }

  /** The next node in preorder after `node`, with the place in the copy where its own copy goes;
      `dupNode` is the copy of `node`. Above the root both sides climb the same ancestors. */
  method NextSource(root: Tree, node: Tree, dupNode: Tree, ghost s: Shape, ghost anc: seq<Tree>, ghost i: int,
                    ghost m: map<Tree, Tree>) returns (next: Tree?, slot: Slot, up: Tree?)
    requires Linked(root, root.parent, s) && Distinct(s) && RightSpine(root, anc) && Copied(root, m)
    requires root in m && (root.parent == null || root.parent !in Objs(s))
    requires 0 <= i < |Pre(s)| && Pre(s)[i] == node && node in m && dupNode == m[node]
    ensures next == if i + 1 < |Pre(s)| then Pre(s)[i + 1] else null
    ensures next != null ==> slot != Root && Parent(m, next, slot, up)
  {
    hide Pre, Distinct, Injective, Linked, Finished, RightSpine, Copied;
    ghost var d := PreStep(root, root.parent, s, i);
    if node.left != null {
      return node.left, Left, dupNode;
    }
    var at: Tree? := node;
    up := dupNode;
    var prev: Tree? := null;
    ghost var a := -1;
    while at.right == prev || at.right == null
      invariant at != null && up != null && -1 <= a < |anc|
      invariant Climbing(root, s, anc, m, i + 1, at, up, prev, a, d)
      invariant Linked(root, root.parent, s) && RightSpine(root, anc) && Copied(root, m)
      decreases if a == -1 then |anc| + 1 + d else |anc| - a
    {
      a, d := ClimbUp(root, s, anc, m, i + 1, at, up, prev, a, d);
      prev := at;
      at := at.parent;
      up := up.parent;
      if at == null {
        return null, Root, null;
      }
    }
    next, slot := at.right, Right;
  }

  lemma NextUnvisited(m: map<Tree, Tree>, root: Tree, all: set<Tree>, p: seq<Tree>, i: int)
    requires 0 <= i < |p| && NoDup(p) && Downward(p, root.parent) && p[0] == root
    requires m.Keys == Visited(p, i) && Visited(p, |p|) == all && (root.parent == null || root.parent !in all)
    requires forall x | x in all :: Kin(all, x)
    ensures Unvisited(m, root, p[i]) && p[i] in all && (i > 0 ==> p[i] != root)
  {
    var node := p[i];
    VisitNext(p, i);
    VisitedGrows(p, i);
    VisitedGrows(p, i + 1);
    assert node in all && Kin(all, node);
    forall x | x in m
      ensures x.parent != node
    {
      var k :| 0 <= k < i && p[k] == x;
      VisitNext(p, k);
      assert p[k].parent == root.parent || p[k].parent in Visited(p, k);
      assert Visited(p, k) <= Visited(p, i) by {
        assert p[..i][..k] == p[..k];
      }
    }
    if m != map[] {
      assert i > 0 by {
        VisitEnds(p);
        assert i == 0 ==> m.Keys == {};
      }
    }
    forall y | y in m
      ensures y.left != null && y.left == node ==> y == node.parent
      ensures y.right != null && y.right == node ==> y == node.parent
    {
      assert y in all && Kin(all, y);
    }
  }

  lemma ParentIsTarget(m: map<Tree, Tree>, root: Tree, all: set<Tree>, next: Tree, slot: Slot, up: Tree?)
    requires Parent(m, next, slot, up) && m.Keys <= all && next != root
    requires forall x | x in all :: Kin(all, x)
    ensures Target(root, m, next, slot, up)
  {
    var x :| x in m && up == m[x] && if slot == Left then x.left == next else slot == Right && x.right == next;
    assert Kin(all, x);
  }

  /** Before round `i`: the walk is at `node`, whose copy goes to the given place. */
  ghost predicate AtRound(root: Tree, all: set<Tree>, p: seq<Tree>, i: int, m: map<Tree, Tree>,
                          node: Tree, slot: Slot, dupNode: Tree?, dupRoot: Tree?)
    reads root, m.Keys, m.Values, node, node.parent
  {
    && 0 <= i < |p| && p[i] == node && CopiedUpTo(root, p, i, m) && Target(root, m, node, slot, dupNode)
    && m.Keys <= all && node in all
    && if i == 0 then node == root && slot == Root
       else slot != Root && root in m && dupRoot != null && m[root] == dupRoot
  }

  lemma AtFirst(root: Tree, all: set<Tree>, p: seq<Tree>)
    requires p != [] && p[0] == root && root in all && Visited(p, 0) == {}
    ensures AtRound(root, all, p, 0, map[], root, Root, root.parent, null)
  {
  }

  /** One round: copies a node and moves on. */
  method CopyOne(root: Tree, node: Tree, slot: Slot, dupNode: Tree?, dupRoot: Tree?, ghost s: Shape, ghost all: set<Tree>,
                 ghost anc: seq<Tree>, ghost p: seq<Tree>, ghost i: int, ghost m: map<Tree, Tree>)
      returns (dupRoot': Tree?, next: Tree?, slot': Slot, dupNode': Tree?, ghost m': map<Tree, Tree>)
    requires all == Objs(s) && p == Pre(s) && Linked(root, root.parent, s) && Distinct(s) && RightSpine(root, anc)
    requires root.parent == null || root.parent !in all
    requires NoDup(p) && Downward(p, root.parent) && Visited(p, |p|) == all && p != [] && p[0] == root
    requires forall x | x in all :: Kin(all, x)
    requires AtRound(root, all, p, i, m, node, slot, dupNode, dupRoot) && all !! m.Values
    requires forall a | a in anc :: a !in m.Values
    modifies m.Values
    ensures fresh(m'.Values - m.Values)
    ensures next == null ==> i + 1 == |p| && CopiedUpTo(root, p, |p|, m') && root in m' && dupRoot' == m'[root]
    ensures next != null ==> i + 1 < |p|
    ensures next != null ==> AtRound(root, all, p, i + 1, m', next, slot', dupNode', dupRoot')
  {
    hide Pre, Distinct, Injective, Linked, RightSpine, Visited, NoDup, Kin, Downward, Parent, Unvisited, Copied;
    NextUnvisited(m, root, all, p, i);
    VisitEnds(p);
    var x;
    x, m' := PlaceCopy(root, node, slot, dupNode, p, i, m);
    dupRoot' := if slot == Root then x else dupRoot;
    next, slot', dupNode' := NextSource(root, node, x, s, anc, i, m');
    if next != null {
      NextUnvisited(m', root, all, p, i + 1);
      ParentIsTarget(m', root, all, next, slot', dupNode');
    }
  }

  /** The walk: copies every node of the tree. */
  method CopyAll(root: Tree, ghost s: Shape, ghost all: set<Tree>, ghost anc: seq<Tree>, ghost p: seq<Tree>)
      returns (dup: Tree, ghost m: map<Tree, Tree>)
    requires all == Objs(s) && p == Pre(s) && Linked(root, root.parent, s) && Distinct(s) && RightSpine(root, anc)
    requires (root.parent == null || root.parent !in all) && root in all
    requires NoDup(p) && Downward(p, root.parent) && p != [] && p[0] == root
    requires Visited(p, 0) == {} && Visited(p, |p|) == all
    requires forall x | x in all :: Kin(all, x)
    ensures CopiedUpTo(root, p, |p|, m) && fresh(m.Values) && root in m && dup == m[root]
  {
    hide Pre, Distinct, Injective, Linked, RightSpine, Visited, NoDup, Kin, Downward, AtRound;
    ghost var i := 0;
    m := map[];
    var node: Tree, slot: Slot, dupNode: Tree? := root, Root, root.parent;
    var dupRoot: Tree? := null;
    VisitEnds(p);
    AtFirst(root, all, p);
    while true
      invariant Linked(root, root.parent, s) && RightSpine(root, anc) && Downward(p, root.parent)
      invariant forall x | x in all :: Kin(all, x)
      invariant 0 <= i < |p| && fresh(m.Values)
      invariant AtRound(root, all, p, i, m, node, slot, dupNode, dupRoot)
      decreases |p| - i
    {
      var next;
      dupRoot, next, slot, dupNode, m := CopyOne(root, node, slot, dupNode, dupRoot, s, all, anc, p, i, m);
      i := i + 1;
      if next == null {
        break;
      }
      node := next;
    }
    dup := dupRoot;
  }

  /** duplicate_tree: an isomorphic copy over new objects, under the parent of the original. The
      walk stops at the end of the original exactly because nothing hangs to the right of its
      ancestors. */
  method DuplicateTree(root: Tree, ghost s: Shape, ghost all: set<Tree>, ghost anc: seq<Tree>)
      returns (dup: Tree, ghost t: Shape, ghost objs: set<Tree>)
    requires all == Objs(s) && Linked(root, root.parent, s) && Distinct(s) && RightSpine(root, anc)
    requires root.parent == null || root.parent !in all
    ensures objs == Objs(t) && fresh(objs) && dup in objs && dup.parent == root.parent
    ensures Linked(dup, root.parent, t) && Distinct(t) && Isomorphic(s, t)
  {
    hide Pre, Distinct, Linked, RightSpine, Visited, NoDup, Kin, Downward;
    OrdersNoDup(s);
    OrdersComplete(s);
    Kinships(root, root.parent, s, all);
    PreStarts(root, root.parent, s);
    PreDownward(root, root.parent, s);
    VisitEnds(Pre(s));
    ghost var m;
    dup, m := CopyAll(root, s, all, anc, Pre(s));
    t, objs := CopyComplete(root, s, m);
  }

  lemma CopyComplete(root: Tree, s: Shape, m: map<Tree, Tree>) returns (t: Shape, objs: set<Tree>)
    requires Linked(root, root.parent, s) && Distinct(s) && Copied(root, m) && m.Keys == Objs(s)
    ensures Linked(m[root], root.parent, t) && Distinct(t) && Isomorphic(s, t)
    ensures objs == Objs(t) && objs <= m.Values && m[root] in objs && m[root].parent == root.parent
  {
    t := Renamed(s, m);
    RenamedIsCopy(s, m);
    CopyLinked(root, m, root, root.parent, s);
    objs := Objs(t);
  }
}
