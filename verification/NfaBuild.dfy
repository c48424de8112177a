/** The three passes that turn a lowered parse tree into an automaton. */
module NfaBuild {
  import opened ParseTrees
  import opened WalkOrders
  import opened Languages
  import opened NodeSets

  /** A node of a lowered tree, with the children its type calls for. */
  ghost predicate Family(all: set<Tree>, x: Tree)
    reads all`parent, x`parent, x`left, x`right, x`token
  {
    && Kin(all, x)
    && (x.token.Concat? ==> x.left != null && x.right != null)
    && (x.token.Star? ==> x.left != null && x.right == null)
    && !x.token.Subexp?
    && (x.token.EndOfRe? || x.token.Bytes? || x.token.Open? || x.token.Close? ==> x.left == null && x.right == null)
  }

  ghost predicate Kind(s: Shape) {
    s.Node? ==>
      && Kind(s.l) && Kind(s.r)
      && (s.tok.Concat? ==> s.l.Node? && s.r.Node?)
      && (s.tok.Star? ==> s.l.Node? && s.r.Nil?)
      && !s.tok.Subexp?
      && (s.tok.EndOfRe? || s.tok.Bytes? || s.tok.Open? || s.tok.Close? ==> s.l.Nil? && s.r.Nil?)
  }

  lemma {:induction false} ShapedKind(s: Shape)
    requires WellFormed(s) && Lowered(s)
    ensures Kind(s)
  {
    if s.Node? {
      ShapedKind(s.l);
      ShapedKind(s.r);
    }
  }

  lemma WholeKind(s: Shape)
    requires Whole(s)
    ensures Kind(s)
  {
    if s.tok.Concat? {
      ShapedKind(s.l);
    }
  }

  lemma {:induction false} Families(t: Tree?, par: Tree?, s: Shape, all: set<Tree>)
    requires Linked(t, par, s) && Distinct(s) && Kind(s) && Objs(s) <= all
    ensures forall x | x in Objs(s) :: Family(all, x)
    decreases s
  {
    if s.Node? {
      Families(t.left, t, s.l, all);
      Families(t.right, t, s.r, all);
      Kinships(t, par, s, all);
      assert t in Objs(s);
    }
  }

  class Builder {
    var nodes: seq<Token>
    var nexts: seq<int>
    var edests: seq<seq<int>>
    ghost var owner: seq<Tree>

    constructor ()
      ensures nodes == [] && nexts == [] && edests == [] && owner == []
    {
      nodes, nexts, edests, owner := [], [], [], [];
    }

    ghost predicate Valid()
      reads this
    {
      |nodes| == |nexts| == |edests| == |owner|
    }

    /** re_dfa_add_node. */
    method AddNode(token: Token, ghost from: Tree) returns (idx: int)
      requires Valid()
      modifies this
      ensures Valid() && idx == old(|nodes|)
      ensures nodes == old(nodes) + [token] && nexts == old(nexts) + [-1] && edests == old(edests) + [[]]
      ensures owner == old(owner) + [from]
    {
      idx := |nodes|;
      nodes := nodes + [token];
      nexts := nexts + [-1];
      edests := edests + [[]];
      owner := owner + [from];
    }

    /** What the first pass sets: a concatenation begins where its left side begins, and every
        other node has a node of the automaton to itself. */
    ghost predicate FirstOk(x: Tree)
      reads this, x`token, x`left, x`first, x`nodeIdx
      reads (if x.left != null then {x.left} else {})`first, (if x.left != null then {x.left} else {})`nodeIdx
    {
      if x.token.Concat? then
        x.left != null && x.left.first != null && x.first == x.left.first && x.nodeIdx == x.left.nodeIdx
      else
        && x.first == x && 0 <= x.nodeIdx < |nodes| == |owner|
        && owner[x.nodeIdx] == x && nodes[x.nodeIdx] == x.token
    }

    /** Every node of the automaton belongs to a node of the tree. */
    ghost predicate Owners(all: set<Tree>)
      reads `owner, all`nodeIdx, all`token
    {
      forall j | 0 <= j < |owner| :: owner[j] in all && owner[j].nodeIdx == j && !owner[j].token.Concat?
    }

    ghost predicate FirstUpTo(all: set<Tree>, done: set<Tree>)
      reads this, all`parent, all`left, all`right, all`token, all`first, all`nodeIdx
    {
      && Valid() && done <= all && Owners(done)
      && (forall x | x in all :: Family(all, x))
      && (forall x | x in done :: FirstOk(x) && x.first != null && (x.left != null ==> x.left in done))
      && (forall j | 0 <= j < |edests| :: edests[j] == [])
    }

    method CalcFirst(node: Tree, ghost done: set<Tree>)
      requires Valid() && node !in done && Owners(done)
      requires forall x | x in done :: FirstOk(x) && x.first != null && (x.left != null ==> x.left in done)
      requires node.left != null ==> node.left in done
      requires node.token.Concat? ==> node.left != null
      requires forall j | 0 <= j < |edests| :: edests[j] == []
      modifies this, node`first, node`nodeIdx
      ensures Valid() && Owners(done + {node})
      ensures forall x | x in done + {node} :: FirstOk(x) && x.first != null && (x.left != null ==> x.left in done + {node})
      ensures forall j | 0 <= j < |edests| :: edests[j] == []
    {
      if node.token.Concat? {
        node.first := node.left.first;
        node.nodeIdx := node.left.nodeIdx;
      } else {
        node.first := node;
        node.nodeIdx := AddNode(node.token, node);
      }
    }

    method FirstStep(node: Tree, ghost all: set<Tree>, ghost done: set<Tree>)
      requires FirstUpTo(all, done) && node in all && node !in done
      requires node.left != null ==> node.left in done
      modifies this, node`first, node`nodeIdx
      ensures FirstUpTo(all, done + {node})
    {
      hide Builder.FirstOk, Builder.Owners;
      assert Family(all, node);
      CalcFirst(node, done);
    }

    method FirstPass(root: Tree, ghost s: Shape, ghost all: set<Tree>)
      requires all == Objs(s) && Linked(root, null, s) && Distinct(s) && Kind(s)
      requires Valid() && nodes == [] && edests == []
      modifies this, all`first, all`nodeIdx
      ensures Linked(root, null, s) && FirstUpTo(all, all)
    {
      hide Post, Pre, Linked, Distinct, Kind, Family, NoDup, Upward, Visited, Builder.FirstUpTo;
      OrdersNoDup(s);
      OrdersComplete(s);
      PostUpward(root, null, s);
      Families(root, null, s, all);
      FirstStarts(all);
      VisitEnds(Post(s));
      FirstWalk(root, s, all, Post(s));
    }

    lemma FirstStarts(all: set<Tree>)
      requires Valid() && nodes == [] && edests == []
      requires forall x | x in all :: Family(all, x)
      ensures FirstUpTo(all, {})
    {
    }

    method FirstWalk(root: Tree, ghost s: Shape, ghost all: set<Tree>, ghost p: seq<Tree>)
      requires all == Objs(s) && p == Post(s) && NoDup(p) && Upward(p)
      requires Visited(p, 0) == {} && Visited(p, |p|) == all && Linked(root, null, s) && Distinct(s)
      requires FirstUpTo(all, {})
      modifies this, all`first, all`nodeIdx
      ensures Linked(root, null, s) && FirstUpTo(all, all)
    {
      hide Post, Distinct, Linked, Objs, Visited, NoDup, Upward, Family, Builder.FirstUpTo;
      var node: Tree? := Descend(root, null, s);
      ghost var i := 0;
      while node != null
        invariant Linked(root, null, s) && Upward(p)
        invariant 0 <= i <= |p| && node == if i < |p| then p[i] else null
        invariant FirstUpTo(all, Visited(p, i))
        decreases |p| - i
      {
        VisitNext(p, i);
        VisitedGrows(p, i + 1);
        FirstStep(node, all, Visited(p, i));
        node := PostNext(node, root, s, i);
        i := i + 1;
      }
    }

    /** What the second pass sets at the children of `x`. */
    ghost predicate NextOk(x: Tree)
      reads x, x.left, x.right
    {
      if x.token.Star? then x.left != null && x.left.next == x
      else if x.token.Concat? then
        && x.left != null && x.right != null
        && x.left.next == x.right.first && x.right.next == x.next
      else
        && (x.left != null ==> x.left.next == x.next)
        && (x.right != null ==> x.right.next == x.next)
    }

    method CalcNext(node: Tree, ghost all: set<Tree>, ghost done: set<Tree>)
      requires node in all && node !in done && done <= all
      requires forall x | x in all :: Family(all, x)
      requires forall x | x in done :: NextOk(x) && (x.parent != null ==> x.parent in done)
      requires node.parent != null ==> node.parent in done
      modifies all`next
      ensures forall x | x in done + {node} :: NextOk(x) && (x.parent != null ==> x.parent in done + {node})
      ensures forall x | x in all && x.parent != node :: x.next == old(x.next)
    {
      assert node.parent != node;
      if node.token.Star? {
        node.left.next := node;
      } else if node.token.Concat? {
        node.left.next := node.right.first;
        node.right.next := node.next;
      } else {
        if node.left != null {
          node.left.next := node.next;
        }
        if node.right != null {
          node.right.next := node.next;
        }
      }
    }

    method SecondPass(root: Tree, ghost s: Shape, ghost all: set<Tree>)
      requires all == Objs(s) && Linked(root, null, s) && Distinct(s) && Kind(s)
      modifies all`next
      ensures Linked(root, null, s) && root.next == old(root.next)
      ensures forall x | x in all :: NextOk(x)
    {
      hide Pre, Distinct, Kind, Downward, Linked, Objs, Visited, NoDup, Builder.NextOk, Family;
      var node: Tree? := root;
      OrdersNoDup(s);
      OrdersComplete(s);
      PreDownward(root, null, s);
      Families(root, null, s, all);
      PreStarts(root, null, s);
      ghost var p := Pre(s);
      VisitEnds(p);
      ghost var i := 0;
      while node != null
        invariant Linked(root, null, s) && Downward(p, null)
        invariant forall x | x in all :: Family(all, x)
        invariant 0 <= i <= |p| && node == if i < |p| then p[i] else null
        invariant Visited(p, i) <= all
        invariant root.parent == null && root.next == old(root.next)
        invariant forall x | x in Visited(p, i) :: NextOk(x) && (x.parent != null ==> x.parent in Visited(p, i))
        decreases |p| - i
      {
        VisitNext(p, i);
        assert node in all by {
          assert node in p;
        }
        CalcNext(node, all, Visited(p, i));
        node := PreNext(node, root, s, i);
        i := i + 1;
      }
    }

    /** What the third pass sets at the automaton node of `x`. */
    ghost predicate LinkOk(x: Tree)
      reads this, x, x.left, x.right, x.next
      reads if x.left != null then {x.left.first} else {}
      reads if x.right != null then {x.right.first} else {}
    {
      if x.token.Concat? then true
      else if x.token.EndOfRe? then 0 <= x.nodeIdx < |nodes| && Valid() && edests[x.nodeIdx] == []
      else
        && 0 <= x.nodeIdx < |nodes| && Valid()
        && if x.token.Star? || x.token.Alt? then
             && Leads(x.left, x.next) && Leads(x.right, x.next)
             && forall j :: j in edests[x.nodeIdx] <==> j == Dest(x.left, x.next) || j == Dest(x.right, x.next)
           else if x.token.Bytes? then
             x.next != null && nexts[x.nodeIdx] == x.next.nodeIdx && edests[x.nodeIdx] == []
           else
             x.next != null && edests[x.nodeIdx] == [x.next.nodeIdx]
    }

    /** A node that reads a byte and the end marker have no epsilon edges. */
    ghost predicate Unset(x: Tree)
      requires Valid() && FirstOk(x)
      reads this, x, x.left
    {
      x.token.Bytes? || x.token.EndOfRe? ==> edests[x.nodeIdx] == []
    }

    ghost predicate LinkedUpTo(all: set<Tree>, done: set<Tree>)
      reads this, all, set x | x in all && x.left != null :: x.left
      reads set x | x in all && x.right != null :: x.right
      reads set x | x in all && x.next != null :: x.next
      reads set x | x in all && x.left != null && x.left.first != null :: x.left.first
      reads set x | x in all && x.right != null && x.right.first != null :: x.right.first
    {
      && Valid() && done <= all
      && (forall x | x in all :: FirstOk(x) && Ready(x))
      && (forall x | x in done :: LinkOk(x))
      && (forall x | x in all - done :: Unset(x))
    }

    method LinkNode(node: Tree, ghost done: set<Tree>)
      requires Valid() && node !in done && FirstOk(node) && Ready(node) && !node.token.Subexp?
      requires forall x | x in done :: FirstOk(x) && LinkOk(x)
      requires Unset(node)
      modifies `nexts, `edests
      ensures Valid()
      ensures forall x | x in done + {node} :: FirstOk(x) && LinkOk(x)
      ensures !node.token.Concat? ==>
                forall j | 0 <= j < |edests| && j != node.nodeIdx :: edests[j] == old(edests[j])
      ensures node.token.Concat? ==> edests == old(edests)
    {
      var idx := node.nodeIdx;
      match node.token
      case Concat =>
      case EndOfRe =>
      case Star =>
        LinkTwo(node, idx);
      case Alt =>
        LinkTwo(node, idx);
      case Open(_) =>
        edests := edests[idx := [node.next.nodeIdx]];
      case Close(_) =>
        edests := edests[idx := [node.next.nodeIdx]];
      case Bytes(_) =>
        nexts := nexts[idx := node.next.nodeIdx];
    }

    method ThirdPass(root: Tree, ghost s: Shape, ghost all: set<Tree>)
      requires all == Objs(s) && Linked(root, null, s) && Distinct(s) && Kind(s) && Valid()
      requires forall x | x in all :: FirstOk(x) && Ready(x)
      requires forall j | 0 <= j < |edests| :: edests[j] == []
      modifies `nexts, `edests
      ensures LinkedUpTo(all, all)
    {
      OrdersNoDup(s);
      OrdersComplete(s);
      PreStarts(root, null, s);
      Families(root, null, s, all);
      ghost var p := Pre(s);
      VisitEnds(p);
      Walk(root, s, all, p);
    }

    method LinkStep(node: Tree, ghost all: set<Tree>, ghost done: set<Tree>)
      requires LinkedUpTo(all, done) && node in all - done && !node.token.Subexp?
      modifies `nexts, `edests
      ensures LinkedUpTo(all, done + {node})
    {
      hide Builder.LinkOk, Ready;
      LinkNode(node, done);
      forall x | x in all - (done + {node})
        ensures FirstOk(x) && Unset(x)
      {
        assert FirstOk(x) && old(Unset(x));
      }
    }

    method Walk(root: Tree, ghost s: Shape, ghost all: set<Tree>, ghost p: seq<Tree>)
      requires all == Objs(s) && p == Pre(s) && p != [] && p[0] == root && NoDup(p)
      requires Visited(p, 0) == {} && Visited(p, |p|) == all && Linked(root, null, s) && Distinct(s)
      requires LinkedUpTo(all, {})
      requires forall x | x in all :: !x.token.Subexp?
      modifies `nexts, `edests
      ensures LinkedUpTo(all, all)
    {
      hide Pre, Distinct, Linked, Visited, NoDup, Builder.LinkedUpTo;
      var node: Tree? := root;
      ghost var i := 0;
      while node != null
        invariant Linked(root, null, s)
        invariant 0 <= i <= |p| && node == if i < |p| then p[i] else null
        invariant LinkedUpTo(all, Visited(p, i))
        decreases |p| - i
      {
        VisitNext(p, i);
        VisitedGrows(p, i + 1);
        LinkStep(node, all, Visited(p, i));
        node := PreNext(node, root, s, i);
        i := i + 1;
      }
    }

    method LinkTwo(node: Tree, idx: int)
      requires Valid() && 0 <= idx < |edests|
      requires Leads(node.left, node.next) && Leads(node.right, node.next)
      modifies `edests
      ensures |edests| == old(|edests|)
      ensures forall k | 0 <= k < |edests| && k != idx :: edests[k] == old(edests[k])
      ensures forall j :: j in edests[idx] <==> j == Dest(node.left, node.next) || j == Dest(node.right, node.next)
      ensures Ordered(edests[idx], true)
    {
      var left := if node.left != null then node.left.first.nodeIdx else node.next.nodeIdx;
      var right := if node.right != null then node.right.first.nodeIdx else node.next.nodeIdx;
      edests := edests[idx := InitTwo(left, right)];
    }
  }

  /** The fields that the third pass follows are set. */
  ghost predicate Ready(x: Tree)
    reads x, x.left, x.right
  {
    x.token.Concat? || x.token.EndOfRe? || (x.next != null && Leads(x.left, x.next) && Leads(x.right, x.next))
  }

  ghost predicate Leads(c: Tree?, next: Tree?)
    reads c
  {
    if c != null then c.first != null else next != null
  }

  /** Where an edge towards the child `c` goes: to its first node, or to `next` without a child. */
  ghost function Dest(c: Tree?, next: Tree?): int
    requires Leads(c, next)
    reads c, if c != null then {c.first} else {next}
  {
    if c != null then c.first.nodeIdx else next.nodeIdx
  }

  /** re_node_set_init_2. */
  function InitTwo(elem1: int, elem2: int): (r: seq<int>)
    ensures Ordered(r, true)
    ensures forall j :: j in r <==> j == elem1 || j == elem2
  {
    if elem1 == elem2 then [elem1] else if elem1 < elem2 then [elem1, elem2] else [elem2, elem1]
  }
}
