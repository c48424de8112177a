/** optimize_subexps: a group that is the whole of another group is stripped, in a preorder walk
    that changes the tree under its feet. */
module GroupStripping {
  import opened ParseTrees
  import opened Languages
  import opened Outlines
  import opened Lowering

  /** The walk is about to visit `node`. */
  ghost predicate Ahead(root: Tree, ctx: Context, node: Tree, s: Shape, s0: Shape)
    reads Around(ctx)`parent, Around(ctx)`left, Around(ctx)`right, Around(ctx)`token
    reads Objs(s)`parent, Objs(s)`left, Objs(s)`right, Objs(s)`token
  {
    At(root, ctx, node, s) && SameWords(s0, Plug(ctx, s)) && Parsed(Plug(ctx, s))
  }

  /** A group that holds nothing but a group. */
  predicate Nested(s: Shape) {
    IsGroup(s) && IsGroup(s.l)
  }

  ghost function Stripped(s: Shape): Shape {
    if Nested(s) then Node(s.obj, s.tok, s.l.l, s.r) else s
  }

  lemma StrippedMeans(ctx: Context, s: Shape, s0: Shape)
    requires s.Node? && SameWords(s0, Plug(ctx, s)) && Parsed(Plug(ctx, s))
    ensures SameWords(s0, Plug(ctx, Stripped(s))) && Parsed(Plug(ctx, Stripped(s)))
    ensures Size(Stripped(s)) <= Size(s) && Objs(Stripped(s)) <= Objs(s)
  {
    var t := Stripped(s);
    PlaceInParsed(ctx, s);
    assert SameWords(s, t) by {
      forall w
        ensures InLang(s, w) <==> InLang(t, w)
      {
        if Nested(s) {
          assert InLang(s, w) <==> InLang(s.l, w);
        }
      }
    }
    if Nested(s) {
      assert s.tok.Subexp? && s.l.tok.Subexp?;
      assert WellFormed(s) ==> WellFormed(s.l) && WellFormed(s.l.l) && s.r.Nil?;
      assert FormKept(s, t);
    }
    SamePlug(ctx, s, t);
    PlugKeepsForm(ctx, s, t);
  }

  /** The tree surgery. */
  method Strip(node: Tree, ghost s: Shape, ghost par: Tree?, ghost all: set<Tree>)
    requires all == Objs(s) && Linked(node, par, s) && Distinct(s) && Nested(s)
    modifies node`left, all`parent
    ensures Linked(node, par, Stripped(s)) && Distinct(Stripped(s))
  {
    assert Linked(node.left, node, s.l) && Linked(node.right, node, s.r);
    var group := node.left;
    assert Linked(group.left, group, s.l.l);
    var body := group.left;
    assert body != null ==> body in Objs(s.l.l);
    assert Objs(s.l.l) <= Objs(s.l) && Distinct(s.l) && Distinct(s.l.l);
    Hang(body, node, group, s.l.l, Objs(s.l.l));
    node.left := body;
    assert Linked(node.left, node, s.l.l) && Linked(node.right, node, s.r);
  }

  method Hang(body: Tree?, node: Tree, ghost group: Tree, ghost b: Shape, ghost inner: set<Tree>)
    requires inner == Objs(b) && Linked(body, group, b) && Distinct(b)
    modifies (if body != null then {body} else {})`parent
    ensures Linked(body, node, b)
  {
    if body != null {
      body.parent := node;
    }
    Reparent(body, node, b);
  }

  method StripHere(root: Tree, node: Tree, ghost ctx: Context, ghost s: Shape, ghost all: set<Tree>, ghost outer: set<Tree>)
    requires all == Objs(s) && outer == Around(ctx) && At(root, ctx, node, s) && Nested(s)
    modifies all`left, all`parent
    ensures At(root, ctx, node, Stripped(s))
  {
    hide Around, LinkedUp, Apart;
    AtSays(root, ctx, node, s);
    ApartIsDisjoint(ctx, all, {});
    assert node in all;
    Strip(node, s, Up(ctx), all);
    ApartIsDisjoint(ctx, all, Objs(Stripped(s)));
  }

  class Maps {
    /** Which group stands in for a stripped one, and which groups back-references use. */
    var subexpMap: map<int, int>
    var used: set<int>

    constructor (groups: set<int>, used: set<int>)
      ensures this.used == used && subexpMap.Keys == groups && forall i | i in groups :: subexpMap[i] == i
    {
      subexpMap := map i | i in groups :: i;
      this.used := used;
    }

    /** Every group of the tree has an entry. */
    ghost predicate Covers(all: set<Tree>)
      reads this, all`token
    {
      forall x | x in all && x.token.Subexp? :: x.token.idx in subexpMap
    }

    /** optimize_subexps, on one node. */
    method OptimizeSubexps(root: Tree, node: Tree, ghost ctx: Context, ghost s: Shape, ghost all: set<Tree>, ghost outer: set<Tree>,
                           ghost whole: set<Tree>)
      requires all == Objs(s) && outer == Around(ctx) && At(root, ctx, node, s) && Covers(whole) && all <= whole
      modifies this, all`left, all`parent
      ensures At(root, ctx, node, Stripped(s)) && Covers(whole)
      ensures Nested(s) ==>
                && used == old(used) - (if s.l.tok.idx < BITSET_WORD_BITS then {s.l.tok.idx} else {})
                && s.tok.idx in old(subexpMap) && subexpMap == old(subexpMap)[s.l.tok.idx := old(subexpMap)[s.tok.idx]]
      ensures !Nested(s) ==> used == old(used) && subexpMap == old(subexpMap)
    {
      hide Around, At;
      ChildToken(root, ctx, node, s);
      if node.token.Subexp? && node.left != null && node.left.token.Subexp? {
        var other := node.left.token.idx;
        StripHere(root, node, ctx, s, all, outer);
        subexpMap := subexpMap[other := subexpMap[node.token.idx]];
        if other < BITSET_WORD_BITS {
          used := used - {other};
        }
      }
    }
  }

  /** How many nodes a preorder walk still has to see behind the current subtree. */
  ghost function ToSee(ctx: Context): nat {
    if ctx == [] then 0 else (if ctx[0].FromLeft? then Size(ctx[0].sibling) else 0) + ToSee(ctx[1..])
  }

  lemma ToSeeBehind(f: Frame, ctx: Context)
    ensures ToSee([f] + ctx) == (if f.FromLeft? then Size(f.sibling) else 0) + ToSee(ctx)
  {
    assert ([f] + ctx)[1..] == ctx;
  }

  /** The whole tree at the end of the walk, if the subtree it is at ends as `f`. */
  ghost function WhenDone(ctx: Context, f: Outline): Outline
    decreases |ctx|
  {
    if ctx == [] then f
    else
      var rest := OutlineOf(ctx[0].sibling);
      WhenDone(ctx[1..], if ctx[0].FromLeft? then Over(ctx[0].tok, f, StrippedOf(rest)) else Over(ctx[0].tok, rest, f))
  }

  /** The groups the walk has still to strip behind the subtree it is at. */
  ghost function ToStrip(ctx: Context): seq<Renaming>
    decreases |ctx|
  {
    if ctx == [] then []
    else (if ctx[0].FromLeft? then Renamings(OutlineOf(ctx[0].sibling)) else []) + ToStrip(ctx[1..])
  }

  /** In front of the visit of `s`, the tree will end as `goal`, with the groups `left` to strip. */
  ghost predicate Unseen(ctx: Context, s: Shape, goal: Outline, left: seq<Renaming>) {
    goal == WhenDone(ctx, StrippedOf(OutlineOf(s))) && left == Renamings(OutlineOf(s)) + ToStrip(ctx)
  }

  /** Behind the visit of the top of `s`. */
  ghost predicate TopSeen(ctx: Context, s: Shape, goal: Outline, left: seq<Renaming>) {
    && s.Node?
    && goal == WhenDone(ctx, Over(s.tok, StrippedOf(OutlineOf(s.l)), StrippedOf(OutlineOf(s.r))))
    && left == Renamings(OutlineOf(s.l)) + Renamings(OutlineOf(s.r)) + ToStrip(ctx)
  }

  /** Behind the visit of the left subtree, and of the right one if `all`. */
  ghost predicate LeftSeen(ctx: Context, s: Shape, all: bool, goal: Outline, left: seq<Renaming>) {
    && s.Node?
    && if all then goal == WhenDone(ctx, OutlineOf(s)) && left == ToStrip(ctx)
       else && goal == WhenDone(ctx, Over(s.tok, OutlineOf(s.l), StrippedOf(OutlineOf(s.r))))
            && left == Renamings(OutlineOf(s.r)) + ToStrip(ctx)
  }

  lemma AfterVisit(ctx: Context, s: Shape, goal: Outline, left: seq<Renaming>)
    requires s.Node? && Unseen(ctx, s, goal, left)
    ensures Nested(s) ==> left != [] && left[0] == Renaming(s.l.tok.idx, s.tok.idx)
    ensures TopSeen(ctx, Stripped(s), goal, if Nested(s) then left[1..] else left)
  {
    assert OutlineOf(s) == Over(s.tok, OutlineOf(s.l), OutlineOf(s.r));
    if Nested(s) {
      assert OutlineOf(s.l) == Over(s.l.tok, OutlineOf(s.l.l), OutlineOf(s.l.r));
      assert left == [Renaming(s.l.tok.idx, s.tok.idx)] + (Renamings(OutlineOf(s.l.l)) + Renamings(OutlineOf(s.r)) + ToStrip(ctx));
    }
  }

  lemma IntoLeft(ctx: Context, f: Frame, s: Shape, goal: Outline, left: seq<Renaming>)
    requires TopSeen(ctx, s, goal, left) && f == FromLeft(s.obj, s.tok, s.r)
    ensures Unseen([f] + ctx, s.l, goal, left)
  {
    assert ([f] + ctx)[1..] == ctx;
  }

  lemma IntoRight(ctx: Context, f: Frame, s: Shape, goal: Outline, left: seq<Renaming>)
    requires LeftSeen(ctx, s, false, goal, left) && f == FromRight(s.obj, s.tok, s.l)
    ensures Unseen([f] + ctx, s.r, goal, left)
  {
    assert ([f] + ctx)[1..] == ctx;
  }

  lemma NoLeft(ctx: Context, s: Shape, goal: Outline, left: seq<Renaming>)
    requires TopSeen(ctx, s, goal, left) && s.l.Nil?
    ensures LeftSeen(ctx, s, s.r.Nil?, goal, left)
  {
    assert [] + Renamings(OutlineOf(s.r)) == Renamings(OutlineOf(s.r));
    assert s.r.Nil? ==> [] + ToStrip(ctx) == ToStrip(ctx);
  }

  lemma SeenBelow(ctx: Context, s: Shape, goal: Outline, left: seq<Renaming>)
    requires LeftSeen(ctx, s, true, goal, left) && ctx != []
    ensures LeftSeen(ctx[1..], Wrap(ctx[0], s), ctx[0].FromRight? || ctx[0].sibling.Nil?, goal, left)
  {
    assert [] + ToStrip(ctx[1..]) == ToStrip(ctx[1..]);
  }

  /** The climb behind a visited subtree: `s` at `node`, whose right subtree is still to be seen
      unless the climb came out of it. */
  ghost predicate Climbing(root: Tree, ctx: Context, node: Tree, s: Shape, prev: Tree?, bound: int)
    reads Around(ctx)`parent, Around(ctx)`left, Around(ctx)`right, Around(ctx)`token
    reads Objs(s)`parent, Objs(s)`left, Objs(s)`right, Objs(s)`token, node
  {
    && At(root, ctx, node, s)
    && (if node.right == prev then ToSee(ctx) < bound else ToSee(ctx) + Size(s.r) < bound)
  }

  lemma ClimbUp(root: Tree, ctx: Context, node: Tree, s: Shape, prev: Tree?, bound: int)
    requires Climbing(root, ctx, node, s, prev, bound) && (node.right == prev || node.right == null) && ctx != []
    ensures node.parent == ctx[0].obj
    ensures (ctx[0].obj.right == node || ctx[0].obj.right == null) <==> (ctx[0].FromRight? || ctx[0].sibling.Nil?)
    ensures Climbing(root, ctx[1..], ctx[0].obj, Wrap(ctx[0], s), node, bound)
    ensures Plug(ctx[1..], Wrap(ctx[0], s)) == Plug(ctx, s)
    ensures Objs(Wrap(ctx[0], s)) + Around(ctx[1..]) == Objs(s) + Around(ctx)
  {
    GoUp(root, ctx, node, s);
  }

  /** The next node of the preorder walk, or the whole tree at its end. */
  method NextInPreorder(root: Tree, node: Tree, ghost ctx0: Context, ghost s0: Shape, ghost goal: Outline,
                        ghost left: seq<Renaming>) returns (next: Tree?, ghost ctx: Context, ghost s: Shape)
    requires At(root, ctx0, node, s0) && TopSeen(ctx0, s0, goal, left)
    ensures next == null ==> ctx == [] && At(root, [], root, s) && LeftSeen([], s, true, goal, left)
    ensures next != null ==> Unseen(ctx, s, goal, left)
    ensures next != null ==> At(root, ctx, next, s) && ToSee(ctx) + Size(s) < ToSee(ctx0) + Size(s0)
    ensures Plug(ctx, s) == Plug(ctx0, s0) && Objs(s) + Around(ctx) == Objs(s0) + Around(ctx0)
  {
    hide At, Apart, LinkedUp, Plug, Around, TopSeen, LeftSeen, Unseen;
    AtSays(root, ctx0, node, s0);
    ghost var bound := ToSee(ctx0) + Size(s0);
    if node.left != null {
      ctx := GoDown(root, ctx0, node, s0, true);
      ToSeeBehind(ctx[0], ctx0);
      IntoLeft(ctx0, ctx[0], s0, goal, left);
      return node.left, ctx, s0.l;
    }
    NoLeft(ctx0, s0, goal, left);
    var at: Tree? := node;
    var prev: Tree? := null;
    ctx, s := ctx0, s0;
    while at.right == prev || at.right == null
      invariant at != null && Climbing(root, ctx, at, s, prev, bound)
      invariant LeftSeen(ctx, s, at.right == prev || at.right == null, goal, left)
      invariant Plug(ctx, s) == Plug(ctx0, s0) && Objs(s) + Around(ctx) == Objs(s0) + Around(ctx0)
      decreases |ctx|
    {
      AtSays(root, ctx, at, s);
      if at.parent == null {
        AtTop(root, ctx, at, s);
        return null, ctx, s;
      }
      ClimbUp(root, ctx, at, s, prev, bound);
      SeenBelow(ctx, s, goal, left);
      prev := at;
      at := at.parent;
      ctx, s := ctx[1..], Wrap(ctx[0], s);
    }
    AtSays(root, ctx, at, s);
    ghost var below := GoDown(root, ctx, at, s, false);
    ToSeeBehind(below[0], ctx);
    IntoRight(ctx, below[0], s, goal, left);
    next, ctx, s := at.right, below, s.r;
  }

  /** The numbers that stay in the set of used groups: a stripped group is taken out if its number
      fits into the word. */
  function StillUsed(used: set<int>, rs: seq<Renaming>): set<int> {
    used - set r | r in rs && r.inner < 64 :: r.inner
  }

  /** The stripping pass: the tree has the same words and stays one that the parser could have
      returned; it has lost the nested groups, no other, and both tables tell which. */
  method StripPass(maps: Maps, root: Tree, ghost s0: Shape, ghost all: set<Tree>) returns (ghost s: Shape)
    requires all == Objs(s0) && Linked(root, null, s0) && Distinct(s0) && Parsed(s0) && maps.Covers(all)
    modifies maps, all`left, all`parent
    ensures Linked(root, null, s) && Distinct(s) && Objs(s) <= all && Parsed(s) && SameWords(s0, s)
    ensures OutlineOf(s) == StrippedOf(OutlineOf(s0))
    ensures maps.subexpMap == Renamed(old(maps.subexpMap), Renamings(OutlineOf(s0)))
    ensures maps.used == StillUsed(old(maps.used), Renamings(OutlineOf(s0)))
  {
    hide At, Apart, LinkedUp, Plug, Around, SameWords, WellFormed, TopSeen, LeftSeen, Unseen, OutlineOf, StrippedOf, Renamings;
    hide Renamed, StillUsed;
    StartsAtTop(root, s0);
    assert Ahead(root, [], root, s0, s0);
    var node: Tree := root;
    ghost var ctx := [];
    s := s0;
    ghost var goal, renamings, done := StrippedOf(OutlineOf(s0)), Renamings(OutlineOf(s0)), [];
    StartsUnseen(s0, goal, renamings);
    NothingDone(maps.subexpMap, maps.used);
    while true
      invariant Ahead(root, ctx, node, s, s0) && Objs(s) + Around(ctx) <= all && maps.Covers(all)
      invariant |done| <= |renamings| && done == renamings[..|done|] && Unseen(ctx, s, goal, renamings[|done|..])
      invariant maps.subexpMap == Renamed(old(maps.subexpMap), done)
      invariant maps.used == StillUsed(old(maps.used), done)
      decreases ToSee(ctx) + Size(s)
    {
      ghost var part, outer, t := Objs(s), Around(ctx), Stripped(s);
      AtSays(root, ctx, node, s);
      StrippedMeans(ctx, s, s0);
      AfterVisit(ctx, s, goal, renamings[|done|..]);
      maps.OptimizeSubexps(root, node, ctx, s, part, outer, all);
      if Nested(s) {
        OneMore(old(maps.subexpMap), old(maps.used), renamings, |done|);
        done := renamings[..|done| + 1];
      }
      var next;
      ghost var ctx', s';
      next, ctx', s' := NextInPreorder(root, node, ctx, t, goal, renamings[|done|..]);
      if next == null {
        s := s';
        break;
      }
      node, ctx, s := next, ctx', s';
    }
    EndsAtTop(root, s, s0);
    EndsSeen(s, goal, renamings[|done|..]);
    assert renamings[..|done|] == renamings;
  }

  lemma StartsUnseen(s: Shape, goal: Outline, left: seq<Renaming>)
    requires goal == StrippedOf(OutlineOf(s)) && left == Renamings(OutlineOf(s))
    ensures Unseen([], s, goal, left)
  {
    assert left == left + [];
  }

  lemma EndsSeen(s: Shape, goal: Outline, left: seq<Renaming>)
    requires LeftSeen([], s, true, goal, left)
    ensures OutlineOf(s) == goal && left == []
  {
  }

  lemma NothingDone(m: map<int, int>, used: set<int>)
    ensures Renamed(m, []) == m && StillUsed(used, []) == used
  {
  }

  lemma OneMore(m: map<int, int>, used: set<int>, rs: seq<Renaming>, n: int)
    requires 0 <= n < |rs|
    ensures rs[..n + 1][..n] == rs[..n] && rs[n..][1..] == rs[n + 1..] && rs[n..][0] == rs[n]
    ensures Renamed(m, rs[..n + 1]) ==
            var before := Renamed(m, rs[..n]);
            if rs[n].outer in before then before[rs[n].inner := before[rs[n].outer]] else before
    ensures StillUsed(used, rs[..n + 1]) == StillUsed(used, rs[..n]) - if rs[n].inner < 64 then {rs[n].inner} else {}
  {
    assert rs[..n + 1][..n] == rs[..n];
    assert rs[..n + 1] == rs[..n] + [rs[n]];
  }

  lemma EndsAtTop(root: Tree, s: Shape, s0: Shape)
    requires At(root, [], root, s)
    ensures Linked(root, null, s) && Distinct(s) && Plug([], s) == s && Objs(s) + Around([]) == Objs(s)
  {
  }
}
