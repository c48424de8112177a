/** What the three passes build accepts the language of the tree, and the epsilon closures decide
    it by sets of nodes. */
module NfaCorrect {
  import opened ParseTrees
  import opened Languages
  import opened Outlines
  import opened NfaBuild
  import opened NodeSets
  import opened ClosureRuns
  import Closures

  lemma {:induction false} FirstIs(b: Builder, t: Tree, par: Tree?, s: Shape)
    requires Linked(t, par, s) && Kind(s)
    requires forall x | x in Objs(s) :: b.FirstOk(x)
    ensures t.first == FirstObj(s) && t.nodeIdx == FirstObj(s).nodeIdx
    ensures FirstObj(s) in Objs(s) && !FirstObj(s).token.Concat?
    decreases s
  {
    assert t in Objs(s);
    if s.tok.Concat? {
      FirstIs(b, t.left, t, s.l);
    }
  }

  /** Every node in front of the end marker gets a successor. */
  lemma {:induction false} NextIsSet(b: Builder, t: Tree, par: Tree?, s: Shape, all: set<Tree>)
    requires Linked(t, par, s) && Shaped(s) && t.next in all && Objs(s) <= all
    requires forall x | x in Objs(s) :: b.FirstOk(x) && b.NextOk(x) && x.first != null
    ensures forall x | x in Objs(s) :: x.next in all && Ready(x)
    decreases s
  {
    ShapedKind(s);
    assert t in Objs(s);
    if s.l.Node? {
      if s.tok.Concat? {
        FirstIs(b, t.right, t, s.r);
      }
      NextIsSet(b, t.left, t, s.l, all);
    }
    if s.r.Node? {
      NextIsSet(b, t.right, t, s.r, all);
    }
    assert t.left != null ==> t.left in Objs(s);
    assert t.right != null ==> t.right in Objs(s);
  }

  ghost function Automaton(b: Builder): Nfa
    reads b
  {
    Nfa(b.nodes, b.nexts, b.edests)
  }

  ghost predicate Indexed(idx: map<Tree, int>, s: Shape)
    reads Objs(s)`token, Objs(s)`nodeIdx
  {
    forall x | x in Objs(s) && !x.token.Concat? :: x in idx && idx[x] == x.nodeIdx
  }

  lemma {:induction false} PassesWire(b: Builder, idx: map<Tree, int>, t: Tree, par: Tree?, s: Shape)
    requires b.Valid() && Linked(t, par, s) && Shaped(s) && t.next != null && Indexed(idx, s)
    requires forall x | x in Objs(s) :: b.FirstOk(x) && b.NextOk(x) && b.LinkOk(x) && x.first != null
    ensures FirstObj(s) in idx && idx[FirstObj(s)] == t.nodeIdx
    ensures Wired(Automaton(b), idx, s, t.next.nodeIdx)
    decreases s
  {
    hide Ready, Kind, Wired, Builder.LinkOk, Builder.NextOk;
    ShapedKind(s);
    assert t in Objs(s);
    FirstIs(b, t, par, s);
    NextIsSet(b, t, par, s, Objs(s) + {t.next});
    if s.l.Node? {
      FirstIs(b, t.left, t, s.l);
      PassesWire(b, idx, t.left, t, s.l);
    }
    if s.r.Node? {
      FirstIs(b, t.right, t, s.r);
      PassesWire(b, idx, t.right, t, s.r);
    }
    WireNode(b, idx, t, par, s);
  }

  /** One node of the tree, over subtrees that are wired. */
  lemma WireNode(b: Builder, idx: map<Tree, int>, t: Tree, par: Tree?, s: Shape)
    requires b.Valid() && Linked(t, par, s) && Shaped(s)
    requires b.FirstOk(t) && b.NextOk(t) && b.LinkOk(t) && t.next != null
    requires FirstObj(s) in idx && (!s.tok.Concat? ==> idx[s.obj] == t.nodeIdx)
    requires s.l.Node? ==>
               && t.left != null && t.left.first == FirstObj(s.l) && FirstObj(s.l) in idx && idx[FirstObj(s.l)] == FirstObj(s.l).nodeIdx
               && t.left.next != null && Wired(Automaton(b), idx, s.l, t.left.next.nodeIdx)
    requires s.r.Node? ==>
               && t.right != null && t.right.first == FirstObj(s.r) && FirstObj(s.r) in idx && idx[FirstObj(s.r)] == FirstObj(s.r).nodeIdx
               && t.right.next != null && Wired(Automaton(b), idx, s.r, t.right.next.nodeIdx)
    ensures Wired(Automaton(b), idx, s, t.next.nodeIdx)
  {
  }

  /** What the passes leave behind. */
  ghost predicate Built(b: Builder, s: Shape)
    reads b, Objs(s), set x | x in Objs(s) && x.left != null :: x.left
    reads set x | x in Objs(s) && x.right != null :: x.right
    reads set x | x in Objs(s) && x.next != null :: x.next
    reads set x | x in Objs(s) && x.left != null && x.left.first != null :: x.left.first
    reads set x | x in Objs(s) && x.right != null && x.right.first != null :: x.right.first
  {
    && b.LinkedUpTo(Objs(s), Objs(s)) && b.Owners(Objs(s))
    && forall x | x in Objs(s) :: b.NextOk(x) && x.first != null
  }

  method Passes(b: Builder, root: Tree, ghost s: Shape, ghost all: set<Tree>)
    requires all == Objs(s) && Linked(root, null, s) && Distinct(s) && Whole(s) && Kind(s)
    requires root.next == null && b.Valid() && b.nodes == [] && b.edests == []
    modifies b, all`first, all`next, all`nodeIdx
    ensures Linked(root, null, s) && Built(b, s)
  {
    hide Linked, Distinct, Kind, Whole, Builder.FirstOk, Builder.NextOk, Builder.LinkedUpTo, Objs;
    b.FirstPass(root, s, all);
    b.SecondPass(root, s, all);
    AllReady(b, root, s);
    b.ThirdPass(root, s, all);
  }

  lemma {:induction false} OccursIn(t: Tree?, par: Tree?, s: Shape, tok: Token)
    requires Linked(t, par, s)
    ensures Occurs(tok, OutlineOf(s)) <==> exists x | x in Objs(s) :: x.token == tok
    decreases s
  {
    if s.Node? {
      OccursIn(t.left, t, s.l, tok);
      OccursIn(t.right, t, s.r, tok);
      assert s.obj in Objs(s);
    }
  }

  /** The nodes of the automaton are of the types that occur in the tree, but for concatenations. */
  lemma TypesOfNodes(b: Builder, root: Tree, s: Shape, tok: Token)
    requires Linked(root, null, s) && Built(b, s)
    ensures tok in b.nodes <==> !tok.Concat? && Occurs(tok, OutlineOf(s))
  {
    hide Linked, OutlineOf, Occurs, Builder.NextOk, Builder.LinkOk;
    OccursIn(root, null, s, tok);
    if tok in b.nodes {
      var j :| 0 <= j < |b.nodes| && b.nodes[j] == tok;
      var x := b.owner[j];
      assert x in Objs(s) && b.FirstOk(x);
    }
    if !tok.Concat? && Occurs(tok, OutlineOf(s)) {
      var x :| x in Objs(s) && x.token == tok;
      assert b.FirstOk(x);
    }
  }

  /** The whole of the construction: from the node it returns, the automaton reaches the end
      marker on exactly the words of the tree. */
  method Compile(b: Builder, root: Tree, ghost s: Shape, ghost all: set<Tree>)
      returns (init: int, ghost idx: map<Tree, int>)
    requires all == Objs(s) && Linked(root, null, s) && Distinct(s) && Whole(s) && root.next == null
    requires b.Valid() && b.nodes == [] && b.edests == []
    modifies b, all`first, all`next, all`nodeIdx
    ensures b.Valid() && 0 <= init < |b.nodes|
    ensures Sane(Automaton(b))
    ensures WiredToEnd(Automaton(b), idx, s) && idx[FirstObj(s)] == init
    ensures forall tok :: tok in b.nodes <==> !tok.Concat? && Occurs(tok, OutlineOf(s))
    ensures forall w :: InLang(s, w) <==> AcceptsSome(Automaton(b), init, w)
  {
    hide Sane, Occurs, OutlineOf, Linked, Distinct, Kind, Whole, Built, InLang, AcceptsSome, FirstObj, WiredToEnd;
    WholeKind(s);
    Passes(b, root, s, all);
    AutomatonSane(b, root, s);
    init := root.nodeIdx;
    idx := map x | x in all && !x.token.Concat? :: x.nodeIdx;
    TreeIsWired(b, idx, root, s);
    forall tok
      ensures tok in b.nodes <==> !tok.Concat? && Occurs(tok, OutlineOf(s))
    {
      TypesOfNodes(b, root, s, tok);
    }
    forall w
      ensures InLang(s, w) <==> AcceptsSome(Automaton(b), init, w)
    {
      AutomatonIsLanguage(Automaton(b), idx, s, w);
    }
  }

  lemma AllReady(b: Builder, root: Tree, s: Shape)
    requires Linked(root, null, s) && Whole(s) && Kind(s)
    requires b.FirstUpTo(Objs(s), Objs(s)) && forall x | x in Objs(s) :: b.NextOk(x)
    ensures forall x | x in Objs(s) :: b.FirstOk(x) && Ready(x)
    ensures forall j | 0 <= j < |b.edests| :: b.edests[j] == []
  {
    hide Ready, Builder.FirstOk, Builder.NextOk;
    assert root in Objs(s);
    NothingToFollow(root);
    if s.tok.Concat? {
      assert root.right in Objs(s);
      NothingToFollow(root.right);
      LeftNextSet(b, root);
      FirstIs(b, root.right, root, s.r);
      NextIsSet(b, root.left, root, s.l, Objs(s));
      assert Objs(s.r) == {root.right} + {} + {};
    }
  }

  lemma NothingToFollow(x: Tree)
    requires x.token.Concat? || x.token.EndOfRe?
    ensures Ready(x)
  {
  }

  lemma LeftNextSet(b: Builder, x: Tree)
    requires x.token.Concat? && b.NextOk(x) && x.right != null && x.right.first != null
    ensures x.left != null && x.left.next == x.right.first
  {
  }

  lemma TreeIsWired(b: Builder, idx: map<Tree, int>, root: Tree, s: Shape)
    requires Linked(root, null, s) && Whole(s) && Kind(s) && Indexed(idx, s)
    requires Built(b, s)
    ensures b.Valid() && WiredToEnd(Automaton(b), idx, s) && idx[FirstObj(s)] == root.nodeIdx
    ensures 0 <= root.nodeIdx < |b.nodes|
  {
    FirstIs(b, root, null, s);
    assert root in Objs(s);
    if s.tok.Concat? {
      assert root.right in Objs(s);
      PassesWire(b, idx, root.left, root, s.l);
    }
  }

  lemma {:induction false} IndicesInRange(b: Builder, t: Tree, par: Tree?, s: Shape)
    requires Linked(t, par, s) && Kind(s)
    requires forall x | x in Objs(s) :: b.FirstOk(x)
    ensures forall x | x in Objs(s) :: 0 <= x.nodeIdx < |b.nodes| && x.first != null && 0 <= x.first.nodeIdx < |b.nodes|
    decreases s
  {
    FirstIs(b, t, par, s);
    if s.l.Node? {
      IndicesInRange(b, t.left, t, s.l);
    }
    if s.r.Node? {
      IndicesInRange(b, t.right, t, s.r);
    }
  }

  /** Every node of the tree but the top and the end marker is followed by a node of the tree. */
  lemma SuccessorsInTree(b: Builder, root: Tree, s: Shape)
    requires Linked(root, null, s) && Whole(s) && Kind(s)
    requires forall x | x in Objs(s) :: b.FirstOk(x) && b.NextOk(x) && x.first != null
    ensures forall x | x in Objs(s) :: x.token.Concat? || x.token.EndOfRe? || x.next in Objs(s)
  {
    hide Builder.FirstOk, Builder.NextOk;
    assert root in Objs(s);
    if s.tok.Concat? {
      assert root.right in Objs(s);
      LeftNextSet(b, root);
      FirstIs(b, root.right, root, s.r);
      NextIsSet(b, root.left, root, s.l, Objs(s));
      assert Objs(s.r) == {root.right} + {} + {};
    }
  }

  lemma AutomatonSane(b: Builder, root: Tree, s: Shape)
    requires Linked(root, null, s) && Distinct(s) && Whole(s) && Kind(s) && Built(b, s)
    ensures Sane(Automaton(b))
  {
    hide Sane, NodeSane, Family, Builder.FirstOk, Builder.NextOk, Builder.LinkOk, Kind, Whole, Linked, Distinct;
    SuccessorsInTree(b, root, s);
    IndicesInRange(b, root, null, s);
    Families(root, null, s, Objs(s));
    forall i | 0 <= i < |b.nodes|
      ensures NodeSane(Automaton(b), i)
    {
      var x := b.owner[i];
      assert x in Objs(s) && b.FirstOk(x) && b.LinkOk(x) && Family(Objs(s), x);
      FamilySays(Objs(s), x);
      NodeIsSane(b, x);
    }
    AllNodesSane(Automaton(b));
  }

  lemma FamilySays(all: set<Tree>, x: Tree)
    requires Family(all, x)
    ensures !x.token.Subexp?
    ensures (x.left != null ==> x.left in all) && (x.right != null ==> x.right in all)
  {
  }

  lemma AllNodesSane(a: Nfa)
    requires a.Valid() && forall i | 0 <= i < |a.tokens| :: NodeSane(a, i)
    ensures Sane(a)
  {
    forall i, j | 0 <= i < |a.edests| && 0 <= j < |a.edests[i]|
      ensures 0 <= a.edests[i][j] < |a.edests|
    {
      assert NodeSane(a, i);
    }
    forall i | 0 <= i < |a.tokens|
      ensures a.tokens[i].Bytes? ==> 0 <= a.nexts[i] < |a.tokens|
      ensures !a.IsEpsilon(i) ==> a.edests[i] == []
    {
      assert NodeSane(a, i);
    }
  }

  ghost predicate NodeSane(a: Nfa, i: int)
    requires a.Valid() && 0 <= i < |a.tokens|
  {
    && (forall j | 0 <= j < |a.edests[i]| :: 0 <= a.edests[i][j] < |a.tokens|)
    && (a.tokens[i].Bytes? ==> 0 <= a.nexts[i] < |a.tokens|)
    && (!a.IsEpsilon(i) ==> a.edests[i] == [])
  }

  lemma NodeIsSane(b: Builder, x: Tree)
    requires b.Valid() && b.FirstOk(x) && b.LinkOk(x) && !x.token.Concat? && !x.token.Subexp?
    requires x.token.EndOfRe? || (x.next != null && 0 <= x.next.nodeIdx < |b.nodes|)
    requires x.left != null ==> x.left.first != null && 0 <= x.left.first.nodeIdx < |b.nodes|
    requires x.right != null ==> x.right.first != null && 0 <= x.right.first.nodeIdx < |b.nodes|
    ensures NodeSane(Automaton(b), x.nodeIdx)
  {
    var e := b.edests[x.nodeIdx];
    forall j | 0 <= j < |e|
      ensures 0 <= e[j] < |b.nodes|
    {
      assert e[j] in e;
    }
  }

  /** The passes and the closures together: reading a word over closed sets of nodes, from the
      closure stored for the initial node, ends at the end marker exactly if the word is in the
      language of the tree. */
  method Analyze(b: Builder, root: Tree, ghost s: Shape, ghost all: set<Tree>)
      returns (init: int, dfa: Closures.Dfa, ghost idx: map<Tree, int>)
    requires all == Objs(s) && Linked(root, null, s) && Distinct(s) && Whole(s) && root.next == null
    requires b.Valid() && b.nodes == [] && b.edests == []
    modifies b, all`first, all`next, all`nodeIdx
    ensures Sane(Automaton(b)) && dfa.Valid() && dfa.edests == b.edests && 0 <= init < dfa.eclosures.Length
    ensures forall i | 0 <= i < dfa.eclosures.Length ::
              && dfa.eclosures[i].Done?
              && Closures.Holds(dfa.eclosures[i].nodes, Closures.Reach(b.edests, {}, i))
    ensures dfa.eclosures[init].nodes.Valid()
    ensures WiredToEnd(Automaton(b), idx, s) && idx[FirstObj(s)] == init
    ensures forall tok :: tok in b.nodes <==> !tok.Concat? && Occurs(tok, OutlineOf(s))
    ensures forall w :: InLang(s, w) <==> Run(Automaton(b), Nodes(dfa.eclosures[init].nodes.Contents()), w)
  {
    hide Linked, Distinct, Whole, InLang, AcceptsSome, Run, Closures.Reach, Nodes, Ordered, WiredToEnd, FirstObj, Occurs;
    init, idx := Compile(b, root, s, all);
    ghost var a := Automaton(b);
    var epsilon := seq(|b.nodes|, i requires 0 <= i < |b.nodes| reads b =>
      b.nodes[i].Alt? || b.nodes[i].Star? || b.nodes[i].Open? || b.nodes[i].Close?);
    dfa := new Closures.Dfa(epsilon, b.edests);
    assert dfa.Edges() == b.edests;
    dfa.CalcEclosure();
    forall w
      ensures InLang(s, w) <==> Run(Automaton(b), Nodes(dfa.eclosures[init].nodes.Contents()), w)
    {
      ClosuresDecide(a, init, w);
    }
  }
}
