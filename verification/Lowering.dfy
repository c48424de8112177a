/** lower_subexps: every group of a parse tree becomes a concatenation of markers and its body,
    in one postorder walk that replaces subtrees behind itself. */
module Lowering {
  import opened ParseTrees
  import opened Languages
  import opened Outlines

  /** The way from a subtree to the top of its tree, one node at a time. */
  datatype Frame = FromLeft(obj: Tree, tok: Token, sibling: Shape) | FromRight(obj: Tree, tok: Token, sibling: Shape)

  type Context = seq<Frame>

  ghost function Wrap(f: Frame, s: Shape): Shape {
    if f.FromLeft? then Node(f.obj, f.tok, s, f.sibling) else Node(f.obj, f.tok, f.sibling, s)
  }

  ghost function Plug(ctx: Context, s: Shape): Shape
    decreases |ctx|
  {
    if ctx == [] then s else Plug(ctx[1..], Wrap(ctx[0], s))
  }

  ghost predicate SameWords(s: Shape, t: Shape) {
    forall w :: InLang(s, w) <==> InLang(t, w)
  }

  /** Lowering the groups of either tree gives the same. */
  ghost predicate SameLowered(s: Shape, t: Shape, noSub: bool, used: set<int>) {
    LoweredOf(OutlineOf(s), noSub, used) == LoweredOf(OutlineOf(t), noSub, used)
  }

  lemma {:induction false} SameLoweredInContext(ctx: Context, s: Shape, t: Shape, noSub: bool, used: set<int>)
    requires SameLowered(s, t, noSub, used)
    ensures SameLowered(Plug(ctx, s), Plug(ctx, t), noSub, used)
    decreases |ctx|
  {
    if ctx != [] {
      SameLoweredInContext(ctx[1..], Wrap(ctx[0], s), Wrap(ctx[0], t), noSub, used);
    }
  }

  /** Where no group is left, lowering changes nothing. */
  lemma {:induction false} NothingToLower(s: Shape, noSub: bool, used: set<int>)
    requires Done(s) && !IsGroup(s)
    ensures LoweredOf(OutlineOf(s), noSub, used) == OutlineOf(s)
  {
    if s.Node? {
      NothingToLower(s.l, noSub, used);
      NothingToLower(s.r, noSub, used);
    }
  }

  lemma {:induction false} SamePower(s: Shape, t: Shape, n: nat, w: Word)
    requires SameWords(s, t)
    ensures InPower(s, n, w) <==> InPower(t, n, w)
    decreases n
  {
    if n > 0 {
      forall i | 0 <= i <= |w|
        ensures InLang(s, w[..i]) <==> InLang(t, w[..i])
        ensures InPower(s, n - 1, w[i..]) <==> InPower(t, n - 1, w[i..])
      {
        SamePower(s, t, n - 1, w[i..]);
      }
    }
  }

  /** A node over the same words has the same words. */
  lemma SameNode(o: Tree, k: Token, s: Shape, t: Shape, r: Shape)
    requires SameWords(s, t)
    ensures SameWords(Node(o, k, s, r), Node(o, k, t, r))
    ensures SameWords(Node(o, k, r, s), Node(o, k, r, t))
  {
    if k.Star? {
      forall w
        ensures InLang(Node(o, k, s, r), w) <==> InLang(Node(o, k, t, r), w)
      {
        forall n: nat
          ensures InPower(s, n, w) <==> InPower(t, n, w)
        {
          SamePower(s, t, n, w);
        }
      }
    }
  }

  lemma {:induction false} SamePlug(ctx: Context, s: Shape, t: Shape)
    requires SameWords(s, t)
    ensures SameWords(Plug(ctx, s), Plug(ctx, t))
    decreases |ctx|
  {
    if ctx != [] {
      SameNode(ctx[0].obj, ctx[0].tok, s, t, ctx[0].sibling);
      SamePlug(ctx[1..], Wrap(ctx[0], s), Wrap(ctx[0], t));
    }
  }

  /** The words of a group between its markers are those of its body. */
  lemma MarkersAddNothing(g: Shape, body: Shape, t: Tree, op: Tree, t1: Tree, cls: Tree, i: int)
    requires g.Node? && g.tok.Subexp? && g.l == body
    ensures SameWords(g, Node(t, Concat, Node(op, Open(i), Nil, Nil), Node(t1, Concat, body, Node(cls, Close(i), Nil, Nil))))
    ensures body.Nil? ==> SameWords(g, Node(t, Concat, Node(op, Open(i), Nil, Nil), Node(cls, Close(i), Nil, Nil)))
  {
    var o, c := Node(op, Open(i), Nil, Nil), Node(cls, Close(i), Nil, Nil);
    forall w
      ensures InLang(Node(t1, Concat, body, c), w) <==> InLang(body, w)
    {
      assert w[..|w|] == w && w[|w|..] == [];
      assert InLang(c, w[|w|..]);
      forall k | 0 <= k <= |w| && InLang(c, w[k..])
        ensures k == |w|
      {
        assert w[k..] == [];
      }
    }
    forall w, r: Shape
      ensures InLang(Node(t, Concat, o, r), w) <==> InLang(r, w)
    {
      assert w[..0] == [] && w[0..] == w;
      assert InLang(o, w[..0]);
      forall k | 0 <= k <= |w| && InLang(o, w[..k])
        ensures k == 0
      {
        assert w[..k] == [];
      }
    }
  }

  /** Below the top of `s` no group is left. */
  ghost predicate Done(s: Shape) {
    s.Node? ==> Done(s.l) && Done(s.r) && !IsGroup(s.l) && !IsGroup(s.r)
  }

  predicate IsGroup(s: Shape) {
    s.Node? && s.tok.Subexp?
  }

  /** The subtrees to the left of the way are done. */
  ghost predicate DoneBehind(ctx: Context) {
    forall i | 0 <= i < |ctx| :: ctx[i].FromRight? ==> Done(ctx[i].sibling)
  }

  lemma {:induction false} DoneIsLowered(s: Shape)
    requires Done(s) && !IsGroup(s)
    ensures Lowered(s)
  {
    if s.Node? {
      DoneIsLowered(s.l);
      DoneIsLowered(s.r);
    }
  }

  predicate EndLeaf(s: Shape) {
    s.Node? && s.tok.EndOfRe? && s.l.Nil? && s.r.Nil?
  }

  /** What the parser returns: an expression in front of the end marker, or the marker alone. */
  predicate Parsed(s: Shape) {
    s.Node? && if s.tok.Concat? then s.l.Node? && WellFormed(s.l) && EndLeaf(s.r) else EndLeaf(s)
  }

  /** A subtree may be replaced by another one without harm to the form of the tree. */
  ghost predicate FormKept(s: Shape, t: Shape) {
    && s.Node? && t.Node? && s.tok == t.tok
    && (WellFormed(s) ==> WellFormed(t)) && (Parsed(s) ==> Parsed(t)) && (EndLeaf(s) ==> EndLeaf(t))
  }

  lemma {:induction false} PlugKeepsForm(ctx: Context, s: Shape, t: Shape)
    requires FormKept(s, t)
    ensures FormKept(Plug(ctx, s), Plug(ctx, t))
    decreases |ctx|
  {
    if ctx != [] {
      PlugKeepsForm(ctx[1..], Wrap(ctx[0], s), Wrap(ctx[0], t));
    }
  }

  ghost function Up(ctx: Context): Tree? {
    if ctx == [] then null else ctx[0].obj
  }

  ghost function Around(ctx: Context): set<Tree> {
    if ctx == [] then {} else {ctx[0].obj} + Objs(ctx[0].sibling) + Around(ctx[1..])
  }

  ghost predicate Apart(ctx: Context, objs: set<Tree>)
    decreases |ctx|
  {
    ctx != [] ==>
      && ctx[0].obj !in objs && ctx[0].obj !in Objs(ctx[0].sibling) && objs !! Objs(ctx[0].sibling)
      && Distinct(ctx[0].sibling)
      && Apart(ctx[1..], objs + {ctx[0].obj} + Objs(ctx[0].sibling))
  }

  lemma {:induction false} ApartIsDisjoint(ctx: Context, objs: set<Tree>, objs': set<Tree>)
    requires Apart(ctx, objs) && objs' !! Around(ctx)
    ensures objs !! Around(ctx) && Apart(ctx, objs')
    decreases |ctx|
  {
    if ctx != [] {
      var more := {ctx[0].obj} + Objs(ctx[0].sibling);
      assert objs + {ctx[0].obj} + Objs(ctx[0].sibling) == objs + more;
      assert objs' + {ctx[0].obj} + Objs(ctx[0].sibling) == objs' + more;
      ApartIsDisjoint(ctx[1..], objs + more, {});
      ApartIsDisjoint(ctx[1..], objs + more, objs' + more);
    }
  }

  /** The way up in the heap, from the subtree at `child`. */
  ghost predicate LinkedUp(root: Tree, ctx: Context, child: Tree)
    reads Around(ctx)`parent, Around(ctx)`left, Around(ctx)`right, Around(ctx)`token
    decreases |ctx|
  {
    if ctx == [] then child == root
    else
      var f := ctx[0];
      && f.obj.token == f.tok && f.obj.parent == Up(ctx[1..])
      && (if f.FromLeft? then f.obj.left == child && Linked(f.obj.right, f.obj, f.sibling)
          else f.obj.right == child && Linked(f.obj.left, f.obj, f.sibling))
      && LinkedUp(root, ctx[1..], f.obj)
  }

  /** The walk is at `node`, whose subtree has the shape `s`. */
  ghost predicate At(root: Tree, ctx: Context, node: Tree, s: Shape)
    reads Around(ctx)`parent, Around(ctx)`left, Around(ctx)`right, Around(ctx)`token
    reads Objs(s)`parent, Objs(s)`left, Objs(s)`right, Objs(s)`token
  {
    && s.Node? && Linked(node, Up(ctx), s) && Distinct(s) && Apart(ctx, Objs(s))
    && LinkedUp(root, ctx, node)
  }

  function Size(s: Shape): nat {
    if s.Nil? then 0 else 1 + Size(s.l) + Size(s.r)
  }

  /** How many nodes come after the current one. */
  ghost function ToVisit(ctx: Context): nat {
    if ctx == [] then 0
    else 1 + (if ctx[0].FromLeft? then Size(ctx[0].sibling) else 0) + ToVisit(ctx[1..])
  }

  lemma GoUp(root: Tree, ctx: Context, node: Tree, s: Shape)
    requires At(root, ctx, node, s) && ctx != []
    ensures At(root, ctx[1..], ctx[0].obj, Wrap(ctx[0], s))
    ensures node.parent == ctx[0].obj
    ensures Objs(Wrap(ctx[0], s)) + Around(ctx[1..]) == Objs(s) + Around(ctx)
    ensures if ctx[0].FromLeft? then ctx[0].obj.right == null <==> ctx[0].sibling.Nil? else ctx[0].obj.right == node
    ensures ctx[0].FromLeft? ==> ctx[0].obj.right != node
  {
    var f := ctx[0];
    assert Objs(Wrap(f, s)) == Objs(s) + {f.obj} + Objs(f.sibling);
    assert node in Objs(s);
    if f.sibling.Node? {
      assert f.sibling.obj in Objs(f.sibling);
    }
  }

  /** From a finished left subtree over to the right one. */
  lemma GoAcross(root: Tree, ctx: Context, node: Tree, s: Shape) returns (ctx': Context)
    requires At(root, ctx, node, s) && ctx != [] && ctx[0].FromLeft? && ctx[0].sibling.Node?
    ensures ctx' == [FromRight(ctx[0].obj, ctx[0].tok, s)] + ctx[1..]
    ensures ctx[0].obj.right != null && At(root, ctx', ctx[0].obj.right, ctx[0].sibling)
    ensures Plug(ctx', ctx[0].sibling) == Plug(ctx, s)
    ensures ToVisit(ctx') + Size(ctx[0].sibling) == ToVisit(ctx)
    ensures Objs(ctx[0].sibling) + Around(ctx') == Objs(s) + Around(ctx)
  {
    var f := ctx[0];
    ctx' := [FromRight(f.obj, f.tok, s)] + ctx[1..];
    assert ctx'[1..] == ctx[1..];
    assert Objs(f.sibling) + {f.obj} + Objs(s) == Objs(s) + {f.obj} + Objs(f.sibling);
  }

  lemma GoDown(root: Tree, ctx: Context, node: Tree, s: Shape, left: bool) returns (ctx': Context)
    requires At(root, ctx, node, s) && (if left then s.l.Node? else s.r.Node?)
    ensures ctx' == [if left then FromLeft(node, s.tok, s.r) else FromRight(node, s.tok, s.l)] + ctx
    ensures if left then node.left != null && At(root, ctx', node.left, s.l)
            else node.right != null && At(root, ctx', node.right, s.r)
    ensures Plug(ctx', if left then s.l else s.r) == Plug(ctx, s)
    ensures ToVisit(ctx') == 1 + (if left then Size(s.r) else 0) + ToVisit(ctx)
    ensures Objs(if left then s.l else s.r) + Around(ctx') == Objs(s) + Around(ctx)
  {
    ctx' := [if left then FromLeft(node, s.tok, s.r) else FromRight(node, s.tok, s.l)] + ctx;
    assert ctx'[1..] == ctx;
    assert Linked(node.left, node, s.l) && Linked(node.right, node, s.r);
    if left {
      assert Objs(s.l) + {node} + Objs(s.r) == Objs(s);
    } else {
      assert Objs(s.r) + {node} + Objs(s.l) == Objs(s);
    }
  }

  /** The first node below `start` that a postorder walk visits. */
  method DescendFrom(root: Tree, start: Tree, ghost ctx0: Context, ghost s0: Shape)
      returns (node: Tree, ghost ctx: Context, ghost s: Shape)
    requires At(root, ctx0, start, s0) && DoneBehind(ctx0)
    ensures At(root, ctx, node, s) && DoneBehind(ctx) && s.l.Nil? && s.r.Nil?
    ensures Plug(ctx, s) == Plug(ctx0, s0) && ToVisit(ctx) + 1 == ToVisit(ctx0) + Size(s0)
    ensures Objs(s) + Around(ctx) == Objs(s0) + Around(ctx0)
  {
    hide At, Plug, Around;
    node, ctx, s := start, ctx0, s0;
    AtSays(root, ctx, node, s);
    while node.left != null || node.right != null
      invariant At(root, ctx, node, s) && DoneBehind(ctx)
      invariant s.Node? && (node.left == null <==> s.l.Nil?) && (node.right == null <==> s.r.Nil?)
      invariant Plug(ctx, s) == Plug(ctx0, s0) && ToVisit(ctx) + Size(s) == ToVisit(ctx0) + Size(s0)
      invariant Objs(s) + Around(ctx) == Objs(s0) + Around(ctx0)
      decreases s
    {
      if node.left != null {
        ctx := GoDown(root, ctx, node, s, true);
        node, s := node.left, s.l;
      } else {
        ctx := GoDown(root, ctx, node, s, false);
        node, s := node.right, s.r;
      }
      AtSays(root, ctx, node, s);
    }
  }

  lemma AtSays(root: Tree, ctx: Context, node: Tree, s: Shape)
    requires At(root, ctx, node, s)
    ensures s.Node? && s.obj == node && node.token == s.tok && node.parent == Up(ctx)
    ensures (node.left == null <==> s.l.Nil?) && (node.right == null <==> s.r.Nil?)
  {
    assert Linked(node.left, node, s.l) && Linked(node.right, node, s.r);
  }

  /** What may stand in for a group. */
  ghost predicate Lowers(g: Shape, t: Shape, noSub: bool, used: set<int>) {
    SameWords(g, t) && WellFormed(t) && Done(t) && !IsGroup(t) && SameLowered(g, t, noSub, used)
  }

  predicate Marker(s: Shape, tok: Token) {
    s.Node? && s.tok == tok && s.l.Nil? && s.r.Nil?
  }

  lemma MarkersLower(g: Shape, o: Shape, c: Shape, i: int, t: Shape, noSub: bool, used: set<int>)
    requires IsGroup(g) && WellFormed(g) && Done(g) && Marker(o, Open(i)) && Marker(c, Close(i)) && g.tok.idx == i
    requires !noSub || g.l.Nil? || (i < 64 && i in used)
    requires t.Node? && t.tok == Concat && t.l == o
    requires if g.l.Nil? then t.r == c else t.r.Node? && t.r.tok == Concat && t.r.l == g.l && t.r.r == c
    ensures Lowers(g, t, noSub, used)
  {
    hide SameWords, WellFormed;
    MarkersForm(g, o, c, t);
    MarkersLowered(g, o, c, t, noSub, used);
    assert o == Node(o.obj, Open(i), Nil, Nil) && c == Node(c.obj, Close(i), Nil, Nil);
    if g.l.Nil? {
      MarkersAddNothing(g, g.l, t.obj, o.obj, t.obj, c.obj, i);
      assert t == Node(t.obj, Concat, o, c);
    } else {
      MarkersAddNothing(g, g.l, t.obj, o.obj, t.r.obj, c.obj, i);
      assert t == Node(t.obj, Concat, o, Node(t.r.obj, Concat, g.l, c));
    }
  }

  lemma MarkersForm(g: Shape, o: Shape, c: Shape, t: Shape)
    requires IsGroup(g) && WellFormed(g) && Done(g) && Marker(o, Open(g.tok.idx)) && Marker(c, Close(g.tok.idx))
    requires t.Node? && t.tok == Concat && t.l == o
    requires if g.l.Nil? then t.r == c else t.r.Node? && t.r.tok == Concat && t.r.l == g.l && t.r.r == c
    ensures WellFormed(t) && Done(t) && !IsGroup(t)
  {
    assert WellFormed(o) && WellFormed(c) && Done(o) && Done(c);
    assert WellFormed(t.r) && Done(t.r);
  }

  lemma MarkersLowered(g: Shape, o: Shape, c: Shape, t: Shape, noSub: bool, used: set<int>)
    requires IsGroup(g) && Done(g) && Done(t) && t.Node? && t.tok == Concat && t.l == o
    requires Marker(o, Open(g.tok.idx)) && Marker(c, Close(g.tok.idx))
    requires if g.l.Nil? then t.r == c else t.r.Node? && t.r.tok == Concat && t.r.l == g.l && t.r.r == c
    requires !noSub || g.l.Nil? || (g.tok.idx < 64 && g.tok.idx in used)
    ensures SameLowered(g, t, noSub, used)
  {
    NothingToLower(g.l, noSub, used);
    NothingToLower(t, noSub, used);
    assert OutlineOf(o) == Leaf(o.tok) && OutlineOf(c) == Leaf(c.tok);
    if g.l.Node? {
      assert OutlineOf(t.r) == Over(Concat, OutlineOf(g.l), OutlineOf(c));
    }
  }

  lemma BodyLowers(g: Shape, noSub: bool, used: set<int>)
    requires IsGroup(g) && WellFormed(g) && Done(g) && g.l.Node?
    requires noSub && !(g.tok.idx < 64 && g.tok.idx in used)
    ensures Lowers(g, g.l, noSub, used)
  {
    NothingToLower(g.l, noSub, used);
  }

  const BITSET_WORD_BITS := 64

  /** lower_subexp: the markers stay if somebody asks for sub-matches, or a back-reference uses the
      group, or there is no body. */
  method LowerGroup(group: Tree, ghost g: Shape, noSub: bool, used: set<int>, ghost par: Tree?, ghost all: set<Tree>)
      returns (tree: Tree, ghost t: Shape, ghost objs: set<Tree>)
    requires all == Objs(g) && Linked(group, par, g) && Distinct(g) && IsGroup(g) && WellFormed(g) && Done(g)
    modifies (if group.left != null then {group.left} else {})`parent
    ensures objs == Objs(t) && t.Node? && tree in objs && fresh(objs - all)
    ensures Linked(tree, tree.parent, t) && Distinct(t) && Lowers(g, t, noSub, used)
  {
    hide Lowers, WellFormed, Done;
    var body := group.left;
    assert Linked(body, group, g.l);
    if noSub && body != null && (group.token.idx >= BITSET_WORD_BITS || group.token.idx !in used) {
      BodyLowers(g, noSub, used);
      tree, t, objs := body, g.l, Objs(g.l);
      return;
    }
    var op, cls;
    ghost var o, c, marks;
    op, cls, o, c, marks := Markers(group.token.idx);
    if body != null {
      tree, t, objs := WithMarkers(body, op, cls, g.l, o, c, group, Objs(g.l), marks);
    } else {
      tree, t := CreateTree(op, cls, Concat, o, c, null, null, marks);
      objs := marks + {tree};
    }
    MarkersLower(g, o, c, group.token.idx, t, noSub, used);
  }

  method Markers(idx: int) returns (op: Tree, cls: Tree, ghost o: Shape, ghost c: Shape, ghost objs: set<Tree>)
    ensures Marker(o, Open(idx)) && Marker(c, Close(idx)) && Linked(op, null, o) && Linked(cls, null, c)
    ensures objs == Objs(o) + Objs(c) && Objs(o) !! Objs(c) && Distinct(o) && Distinct(c) && fresh(objs)
    ensures op in objs && cls in objs
  {
    op, o := CreateTree(null, null, Open(idx), Nil, Nil, null, null, {});
    cls, c := CreateTree(null, null, Close(idx), Nil, Nil, null, null, {});
    objs := {op, cls};
  }

  method WithMarkers(body: Tree, op: Tree, cls: Tree, ghost b: Shape, ghost o: Shape, ghost c: Shape, ghost par: Tree?,
                     ghost all: set<Tree>, ghost marks: set<Tree>) returns (tree: Tree, ghost t: Shape, ghost objs: set<Tree>)
    requires all == Objs(b) && marks == Objs(o) + Objs(c) && Objs(o) !! Objs(c) && all !! marks
    requires Linked(body, par, b) && Linked(op, null, o) && Linked(cls, null, c) && o.Node? && c.Node?
    requires Distinct(b) && Distinct(o) && Distinct(c)
    modifies body`parent, op`parent, cls`parent
    ensures objs == Objs(t) && fresh(objs - all - marks) && tree in objs && Linked(tree, tree.parent, t) && Distinct(t)
    ensures t.Node? && t.tok == Concat && t.l == o && t.r.Node? && t.r.tok == Concat && t.r.l == b && t.r.r == c
  {
    hide Distinct;
    var tree1;
    ghost var t1;
    tree1, t1 := CreateTree(body, cls, Concat, b, c, par, null, all + Objs(c));
    tree, t := CreateTree(op, tree1, Concat, o, t1, null, null, all + marks + {tree1});
    objs := all + marks + {tree1, tree};
  }

  ghost predicate Ready(s: Shape) {
    s.Node? && Done(s.l) && Done(s.r) && (IsGroup(s.l) ==> WellFormed(s.l)) && (IsGroup(s.r) ==> WellFormed(s.r))
  }

  /** Lowers a group that is a child of `par` and hangs the result under `par`. */
  method LowerChild(child: Tree, par: Tree, noSub: bool, used: set<int>, ghost g: Shape, ghost part: set<Tree>)
      returns (tree: Tree, ghost t: Shape, ghost objs: set<Tree>)
    requires part == Objs(g) && Linked(child, par, g) && Distinct(g) && IsGroup(g) && WellFormed(g) && Done(g)
    modifies part`parent
    ensures objs == Objs(t) && t.Node? && fresh(objs - part)
    ensures Linked(tree, par, t) && Distinct(t) && Lowers(g, t, noSub, used)
  {
    hide Lowers, WellFormed, Done;
    assert Linked(child.left, child, g.l);
    assert child.left != null ==> child.left in Objs(g.l);
    tree, t, objs := LowerGroup(child, g, noSub, used, par, part);
    tree.parent := par;
    Reparent(tree, par, t);
  }

  method LowerLeft(root: Tree, node: Tree, noSub: bool, used: set<int>, ghost ctx: Context, ghost s: Shape,
                   ghost all: set<Tree>, ghost outer: set<Tree>) returns (ghost s': Shape, ghost all': set<Tree>)
    requires all == Objs(s) && outer == Around(ctx) && At(root, ctx, node, s) && IsGroup(s.l)
    requires WellFormed(s.l) && Done(s.l)
    modifies all`parent, node`left
    ensures At(root, ctx, node, s') && all' == Objs(s') && fresh(all' - all)
    ensures s'.Node? && s'.tok == s.tok && s'.r == s.r && Lowers(s.l, s'.l, noSub, used) && s'.l.Node?
  {
    hide Lowers, WellFormed, Done, Apart, LinkedUp, Around;
    ApartIsDisjoint(ctx, all, {});
    assert Linked(node.left, node, s.l) && Linked(node.right, node, s.r);
    ghost var part, rest, t, objs := Objs(s.l), Objs(s.r), Nil, {};
    node.left, t, objs := LowerChild(node.left, node, noSub, used, s.l, part);
    s' := Node(node, s.tok, t, s.r);
    all' := {node} + objs + rest;
    ApartIsDisjoint(ctx, all, all');
  }

  method LowerRight(root: Tree, node: Tree, noSub: bool, used: set<int>, ghost ctx: Context, ghost s: Shape,
                    ghost all: set<Tree>, ghost outer: set<Tree>) returns (ghost s': Shape, ghost all': set<Tree>)
    requires all == Objs(s) && outer == Around(ctx) && At(root, ctx, node, s) && IsGroup(s.r)
    requires WellFormed(s.r) && Done(s.r)
    modifies all`parent, node`right
    ensures At(root, ctx, node, s') && all' == Objs(s') && fresh(all' - all)
    ensures s'.Node? && s'.tok == s.tok && s'.l == s.l && Lowers(s.r, s'.r, noSub, used) && s'.r.Node?
  {
    hide Lowers, WellFormed, Done, Apart, LinkedUp, Around;
    ApartIsDisjoint(ctx, all, {});
    assert Linked(node.left, node, s.l) && Linked(node.right, node, s.r);
    ghost var part, rest, t, objs := Objs(s.r), Objs(s.l), Nil, {};
    node.right, t, objs := LowerChild(node.right, node, noSub, used, s.r, part);
    s' := Node(node, s.tok, s.l, t);
    all' := {node} + rest + objs;
    ApartIsDisjoint(ctx, all, all');
  }

  /** What is known of the subtree at a place of a parsed tree. */
  lemma {:induction false} PlaceInParsed(ctx: Context, s: Shape)
    requires s.Node? && Parsed(Plug(ctx, s))
    ensures WellFormed(s) || EndLeaf(s) || (ctx == [] && Parsed(s))
    decreases |ctx|
  {
    if ctx != [] {
      PlaceInParsed(ctx[1..], Wrap(ctx[0], s));
    }
  }

  /** The visit of one node leaves a subtree with the same words and form, and no group below. */
  ghost predicate Visited(s: Shape, t: Shape, noSub: bool, used: set<int>) {
    SameWords(s, t) && SameLowered(s, t, noSub, used) && FormKept(s, t) && Done(t)
  }

  lemma VisitMeans(s: Shape, s1: Shape, t: Shape, noSub: bool, used: set<int>)
    requires Ready(s) && (WellFormed(s) || EndLeaf(s) || Parsed(s))
    requires s1.Node? && t.Node? && s.tok == s1.tok == t.tok
    requires if IsGroup(s.l) then s1.l.Node? && Lowers(s.l, s1.l, noSub, used) else s1 == s
    requires s1.r == s.r && t.l == s1.l
    requires if IsGroup(s.r) then t.r.Node? && Lowers(s.r, t.r, noSub, used) else t == s1
    requires s1.obj == s.obj == t.obj
    ensures Visited(s, t, noSub, used)
  {
    if IsGroup(s.l) {
      SameNode(s.obj, s.tok, s.l, s1.l, s.r);
    }
    assert s == Node(s.obj, s.tok, s.l, s.r) && s1 == Node(s.obj, s.tok, s1.l, s.r) && t == Node(s.obj, s.tok, s1.l, t.r);
    if IsGroup(s.r) {
      SameNode(s.obj, s.tok, s.r, t.r, s1.l);
    }
  }

  /** lower_subexps, on one node. */
  method LowerSubexps(root: Tree, node: Tree, noSub: bool, used: set<int>, ghost ctx: Context, ghost s: Shape,
                      ghost all: set<Tree>, ghost outer: set<Tree>) returns (ghost t: Shape, ghost all': set<Tree>)
    requires all == Objs(s) && outer == Around(ctx) && At(root, ctx, node, s) && Ready(s)
    requires WellFormed(s) || EndLeaf(s) || Parsed(s)
    modifies all`parent, all`left, all`right
    ensures At(root, ctx, node, t) && all' == Objs(t) && fresh(all' - all)
    ensures Visited(s, t, noSub, used)
  {
    hide Lowers, WellFormed, Done, LinkedUp, Apart, Around;
    AtSays(root, ctx, node, s);
    ChildToken(root, ctx, node, s);
    ghost var s1, all1 := s, all;
    if node.left != null && node.left.token.Subexp? {
      s1, all1 := LowerLeft(root, node, noSub, used, ctx, s, all, outer);
    }
    AtSays(root, ctx, node, s1);
    ChildToken(root, ctx, node, s1);
    t, all' := s1, all1;
    if node.right != null && node.right.token.Subexp? {
      t, all' := LowerRight(root, node, noSub, used, ctx, s1, all1, outer);
    }
    AtSays(root, ctx, node, t);
    VisitMeans(s, s1, t, noSub, used);
  }

  lemma ChildToken(root: Tree, ctx: Context, node: Tree, s: Shape)
    requires At(root, ctx, node, s)
    ensures node in Objs(s) && s.obj == node
    ensures node.token == s.tok && (node.left != null ==> s.l.Node? && node.left.token == s.l.tok)
    ensures (node.left != null && node.left.token.Subexp?) <==> IsGroup(s.l)
    ensures (node.right != null && node.right.token.Subexp?) <==> IsGroup(s.r)
  {
    assert Linked(node.left, node, s.l) && Linked(node.right, node, s.r);
  }

  lemma ReadyHere(ctx: Context, s: Shape)
    requires s.Node? && Done(s.l) && Done(s.r) && Parsed(Plug(ctx, s))
    ensures Ready(s) && (WellFormed(s) || EndLeaf(s) || Parsed(s))
  {
    PlaceInParsed(ctx, s);
  }

  /** A tree that has taken the place of the parsed one, with some of its groups lowered. */
  ghost predicate Stands(s0: Shape, s: Shape, noSub: bool, used: set<int>) {
    SameWords(s0, s) && SameLowered(s0, s, noSub, used) && Parsed(s)
  }

  lemma VisitInContext(ctx: Context, s: Shape, t: Shape, s0: Shape, noSub: bool, used: set<int>)
    requires Visited(s, t, noSub, used) && Stands(s0, Plug(ctx, s), noSub, used)
    ensures Stands(s0, Plug(ctx, t), noSub, used) && Done(t) && t.Node?
  {
    SamePlug(ctx, s, t);
    SameLoweredInContext(ctx, s, t, noSub, used);
    PlugKeepsForm(ctx, s, t);
  }

  /** Everything the walk keeps, in front of the visit of `node`. */
  ghost predicate Walking(root: Tree, ctx: Context, node: Tree, s: Shape, s0: Shape, noSub: bool, used: set<int>)
    reads Around(ctx)`parent, Around(ctx)`left, Around(ctx)`right, Around(ctx)`token
    reads Objs(s)`parent, Objs(s)`left, Objs(s)`right, Objs(s)`token
  {
    && At(root, ctx, node, s) && DoneBehind(ctx) && Done(s.l) && Done(s.r)
    && Stands(s0, Plug(ctx, s), noSub, used)
  }

  /** The node after `node`, which has been visited and has now the subtree `t`. */
  method NextNode(root: Tree, node: Tree, ghost ctx: Context, ghost t: Shape, ghost s0: Shape, ghost noSub: bool,
                  ghost used: set<int>) returns (next: Tree?, ghost ctx': Context, ghost s': Shape)
    requires At(root, ctx, node, t) && DoneBehind(ctx) && Done(t)
    requires Stands(s0, Plug(ctx, t), noSub, used)
    ensures next == null ==> ctx == [] && node == root
    ensures next != null ==> Walking(root, ctx', next, s', s0, noSub, used) && ToVisit(ctx') < ToVisit(ctx)
    ensures next != null ==> Objs(s') + Around(ctx') == Objs(t) + Around(ctx)
  {
    hide At, Apart, LinkedUp, Stands, Around;
    ctx', s' := ctx, t;
    AtSays(root, ctx, node, t);
    if node.parent == null {
      AtTop(root, ctx, node, t);
      return null, ctx, t;
    }
    GoUp(root, ctx, node, t);
    var prev := node;
    var up := node.parent;
    if up.right == prev || up.right == null {
      next, ctx', s' := up, ctx[1..], Wrap(ctx[0], t);
      assert Done(Nil);
    } else {
      ghost var across := GoAcross(root, ctx, node, t);
      next, ctx', s' := DescendFrom(root, up.right, across, ctx[0].sibling);
      assert Done(Nil);
    }
  }

  lemma AtTop(root: Tree, ctx: Context, node: Tree, s: Shape)
    requires At(root, ctx, node, s) && Up(ctx) == null
    ensures ctx == [] && node == root
  {
  }

  /** One visit, with what the walk keeps. */
  method VisitNode(root: Tree, node: Tree, noSub: bool, used: set<int>, ghost ctx: Context, ghost s: Shape, ghost s0: Shape,
                   ghost known: set<Tree>) returns (ghost t: Shape, ghost known': set<Tree>)
    requires Walking(root, ctx, node, s, s0, noSub, used) && known == Objs(s) + Around(ctx)
    modifies known`parent, known`left, known`right
    ensures At(root, ctx, node, t) && DoneBehind(ctx) && Done(t) && t.Node?
    ensures Stands(s0, Plug(ctx, t), noSub, used)
    ensures known' == Objs(t) + Around(ctx) && fresh(known' - known)
  {
    hide At, Apart, LinkedUp, Around, Done, Visited, Plug, FormKept, SameWords, SameLowered;
    WalkingSays(root, ctx, node, s, s0, noSub, used);
    ReadyHere(ctx, s);
    ghost var all, outer, all' := Objs(s), Around(ctx), {};
    t, all' := LowerSubexps(root, node, noSub, used, ctx, s, all, outer);
    VisitInContext(ctx, s, t, s0, noSub, used);
    known' := all' + outer;
  }

  lemma WalkingSays(root: Tree, ctx: Context, node: Tree, s: Shape, s0: Shape, noSub: bool, used: set<int>)
    requires Walking(root, ctx, node, s, s0, noSub, used)
    ensures At(root, ctx, node, s) && DoneBehind(ctx) && s.Node? && Done(s.l) && Done(s.r)
    ensures Stands(s0, Plug(ctx, s), noSub, used)
  {
  }

  /** The lowering pass: every group has become what it should, and the words of the tree are the
      same. */
  method LowerPass(root: Tree, noSub: bool, used: set<int>, ghost s0: Shape, ghost all: set<Tree>)
      returns (ghost s: Shape, ghost all': set<Tree>)
    requires all == Objs(s0) && Linked(root, null, s0) && Distinct(s0) && Parsed(s0)
    modifies all`parent, all`left, all`right
    ensures Linked(root, null, s) && Distinct(s) && all' == Objs(s) && fresh(all' - all)
    ensures Whole(s) && SameWords(s0, s) && OutlineOf(s) == LoweredOf(OutlineOf(s0), noSub, used)
  {
    hide At, Apart, LinkedUp, SameWords, SameLowered, Stands, Around, Done, Plug, Walking, Whole, WellFormed;
    StartsAtTop(root, s0);
    var node: Tree;
    ghost var ctx, known;
    node, ctx, s := DescendFrom(root, root, [], s0);
    AtSays(root, ctx, node, s);
    StartsWalking(root, ctx, node, s, s0, noSub, used);
    known := all;
    while true
      invariant Walking(root, ctx, node, s, s0, noSub, used) && known == Objs(s) + Around(ctx)
      invariant fresh(known - all)
      decreases ToVisit(ctx)
    {
      ghost var t;
      t, known := VisitNode(root, node, noSub, used, ctx, s, s0, known);
      var next;
      ghost var ctx', s';
      next, ctx', s' := NextNode(root, node, ctx, t, s0, noSub, used);
      if next == null {
        s := t;
        break;
      }
      node, ctx, s := next, ctx', s';
    }
    all' := known;
    EndsWhole(root, s, s0, noSub, used);
  }

  lemma StartsAtTop(root: Tree, s0: Shape)
    requires Linked(root, null, s0) && Distinct(s0) && Parsed(s0)
    ensures At(root, [], root, s0) && Around([]) == {} && DoneBehind([]) && Plug([], s0) == s0
    ensures SameWords(s0, Plug([], s0)) && Parsed(Plug([], s0))
  {
  }

  lemma StartsWalking(root: Tree, ctx: Context, node: Tree, s: Shape, s0: Shape, noSub: bool, used: set<int>)
    requires At(root, ctx, node, s) && DoneBehind(ctx) && s.Node? && s.l.Nil? && s.r.Nil?
    requires Plug(ctx, s) == s0 && Parsed(s0)
    ensures Walking(root, ctx, node, s, s0, noSub, used)
  {
    assert Done(Nil);
  }

  lemma EndsWhole(root: Tree, s: Shape, s0: Shape, noSub: bool, used: set<int>)
    requires At(root, [], root, s) && Done(s) && Stands(s0, Plug([], s), noSub, used)
    ensures Linked(root, null, s) && Distinct(s) && Objs(s) + Around([]) == Objs(s)
    ensures Whole(s) && SameWords(s0, s) && OutlineOf(s) == LoweredOf(OutlineOf(s0), noSub, used)
  {
    assert Plug([], s) == s;
    NothingToLower(s, noSub, used);
    if s.tok.Concat? {
      DoneIsLowered(s.l);
    }
  }
}
