/** Parse trees with parent pointers and the two walks that need no stack. A `Shape` is the
    ghost picture of a tree in the heap. */
module ParseTrees {
  import opened FlatText

  /** The node types of an expression without anchors and back-references, in single-byte mode:
      `Bytes` stands for every type that matches one byte of a set. */
  datatype Token =
    | Bytes(ok: set<byte>)
    | Concat
    | Alt
    | Star
    | Subexp(idx: int)
    | Open(idx: int)
    | Close(idx: int)
    | EndOfRe

  class Tree {
    var parent: Tree?
    var left: Tree?
    var right: Tree?
    var first: Tree?
    var next: Tree?
    var token: Token
    var nodeIdx: int

    /** create_token_tree without the parent fields of the children. */
    constructor (left: Tree?, right: Tree?, token: Token)
      ensures this.left == left && this.right == right && this.token == token
      ensures parent == null && first == null && next == null && nodeIdx == -1
    {
      this.left, this.right, this.token := left, right, token;
      parent, first, next, nodeIdx := null, null, null, -1;
    }
  }

  datatype Shape = Nil | Node(obj: Tree, tok: Token, l: Shape, r: Shape)

  ghost function Objs(s: Shape): set<Tree> {
    if s.Nil? then {} else {s.obj} + Objs(s.l) + Objs(s.r)
  }

  /** The tree at `t` has the shape `s`, and its parent pointers are right. */
  ghost predicate Linked(t: Tree?, par: Tree?, s: Shape)
    reads Objs(s)`parent, Objs(s)`left, Objs(s)`right, Objs(s)`token
    decreases s
  {
    match s
    case Nil => t == null
    case Node(o, k, l, r) =>
      t == o && o.parent == par && o.token == k && Linked(o.left, o, l) && Linked(o.right, o, r)
  }

  /** No object is used twice. */
  ghost predicate Distinct(s: Shape) {
    s.Node? ==>
      && s.obj !in Objs(s.l) && s.obj !in Objs(s.r) && Objs(s.l) !! Objs(s.r)
      && Distinct(s.l) && Distinct(s.r)
  }

  ghost function Post(s: Shape): (p: seq<Tree>)
    ensures s.Node? ==> p != [] && p[|p| - 1] == s.obj
  {
    if s.Nil? then [] else Post(s.l) + Post(s.r) + [s.obj]
  }

  ghost function Pre(s: Shape): (p: seq<Tree>)
    ensures s.Node? ==> p != [] && p[0] == s.obj
  {
    if s.Nil? then [] else [s.obj] + Pre(s.l) + Pre(s.r)
  }

  /** Both orders list the nodes of the tree. */
  lemma {:induction false} OrdersComplete(s: Shape)
    ensures (set x | x in Post(s)) == Objs(s) == (set x | x in Pre(s))
  {
    if s.Node? {
      OrdersComplete(s.l);
      OrdersComplete(s.r);
      SetOfThree(Post(s.l), Post(s.r), [s.obj]);
      SetOfThree([s.obj], Pre(s.l), Pre(s.r));
    }
  }

  lemma SetOfThree<T>(a: seq<T>, b: seq<T>, c: seq<T>)
    ensures (set x | x in a + b + c) == (set x | x in a) + (set x | x in b) + (set x | x in c)
  {
  }

  /** Where a postorder walk goes from its `i`-th node: up to the parent, or down into the right
      subtree of the parent, of shape `sub`. */
  lemma {:induction false} PostStep(t: Tree, par: Tree?, s: Shape, i: int) returns (sub: Shape)
    requires Linked(t, par, s) && Distinct(s) && 0 <= i < |Post(s)|
    ensures i + 1 == |Post(s)| ==> Post(s)[i] == t
    ensures i + 1 < |Post(s)| ==> Post(s)[i].parent != null && Post(s)[i].parent in Objs(s)
    ensures i + 1 < |Post(s)| ==>
              var p := Post(s)[i].parent;
              if p.right == Post(s)[i] || p.right == null then Post(s)[i + 1] == p
              else sub.Node? && Linked(p.right, p, sub) && Post(sub)[0] == Post(s)[i + 1]
    decreases s
  {
    var a, b := Post(s.l), Post(s.r);
    sub := Nil;
    if i < |a| {
      OrdersComplete(s.l);
      assert Post(s)[i] == a[i] && a[i] in Objs(s.l);
      sub := PostStep(t.left, t, s.l, i);
      if i + 1 == |a| {
        sub := s.r;
        assert t.right != null ==> t.right in Objs(s.r);
        assert Post(s)[i + 1] == (b + [t])[0];
      }
    } else if i < |a| + |b| {
      assert Post(s)[i] == b[i - |a|];
      sub := PostStep(t.right, t, s.r, i - |a|);
    }
  }

  /** The first node of a postorder walk: down, to the left where there is a left child. */
  method Descend(root: Tree, ghost par: Tree?, ghost s: Shape) returns (node: Tree)
    requires Linked(root, par, s)
    ensures s.Node? && node == Post(s)[0]
  {
    node := root;
    ghost var sub, up := s, par;
    while node.left != null || node.right != null
      invariant sub.Node? && Linked(node, up, sub)
      invariant Post(sub)[0] == Post(s)[0]
      decreases sub
    {
      up := node;
      if node.left != null {
        sub := sub.l;
        node := node.left;
      } else {
        sub := sub.r;
        node := node.right;
      }
    }
  }

  /** One round of the postorder walk; null ends it. */
  method PostNext(node: Tree, ghost root: Tree, ghost s: Shape, ghost i: int) returns (next: Tree?)
    requires Linked(root, null, s) && Distinct(s) && 0 <= i < |Post(s)| && Post(s)[i] == node
    ensures next == if i + 1 < |Post(s)| then Post(s)[i + 1] else null
  {
    ghost var sub := PostStep(root, null, s, i);
    if node.parent == null {
      return null;
    }
    var prev := node;
    var up := node.parent;
    if up.right == prev || up.right == null {
      next := up;
    } else {
      next := Descend(up.right, up, sub);
    }
  }

  /** `x`, at depth `d`, is a node whose subtree is finished after `j` nodes of the preorder. */
  ghost predicate Finished(s: Shape, x: Tree, j: int, d: nat) {
    s.Node? &&
    if d == 0 then x == s.obj && j == |Pre(s)|
    else Finished(s.l, x, j - 1, d - 1) || Finished(s.r, x, j - 1 - |Pre(s.l)|, d - 1)
  }

  /** Where a preorder walk goes from its `i`-th node. A leaf finishes itself, at depth `d`. */
  ghost predicate GoesOn(s: Shape, x: Tree, i: nat, d: nat)
    reads x
  {
    if x.left != null then i + 1 < |Pre(s)| && Pre(s)[i + 1] == x.left
    else if x.right != null then i + 1 < |Pre(s)| && Pre(s)[i + 1] == x.right
    else Finished(s, x, i + 1, d)
  }

  lemma {:induction false} PreStep(t: Tree, par: Tree?, s: Shape, i: int) returns (d: nat)
    requires Linked(t, par, s) && 0 <= i < |Pre(s)|
    ensures GoesOn(s, Pre(s)[i], i, d)
    decreases s
  {
    hide GoesOn;
    var n := |Pre(s.l)|;
    if i == 0 {
      d := 0;
      GoesFromTop(t, par, s);
    } else if i <= n {
      d := PreStep(t.left, t, s.l, i - 1);
      GoesInLeft(s, i, d);
      d := d + 1;
    } else {
      d := PreStep(t.right, t, s.r, i - 1 - n);
      GoesInRight(s, i, d);
      d := d + 1;
    }
  }

  lemma GoesFromTop(t: Tree, par: Tree?, s: Shape)
    requires Linked(t, par, s) && s.Node?
    ensures Pre(s)[0] == t && GoesOn(s, t, 0, 0)
  {
    assert Pre(s)[1..] == Pre(s.l) + Pre(s.r);
  }

  lemma GoesInLeft(s: Shape, i: int, d: nat)
    requires s.Node? && 0 < i <= |Pre(s.l)| && GoesOn(s.l, Pre(s.l)[i - 1], i - 1, d)
    ensures i < |Pre(s)| && Pre(s)[i] == Pre(s.l)[i - 1] && GoesOn(s, Pre(s)[i], i, d + 1)
  {
    assert Pre(s)[1..|Pre(s.l)| + 1] == Pre(s.l);
    assert i < |Pre(s.l)| ==> Pre(s)[i + 1] == Pre(s.l)[i];
  }

  lemma GoesInRight(s: Shape, i: int, d: nat)
    requires s.Node? && 0 <= i - 1 - |Pre(s.l)| < |Pre(s.r)|
    requires GoesOn(s.r, Pre(s.r)[i - 1 - |Pre(s.l)|], i - 1 - |Pre(s.l)|, d)
    ensures i < |Pre(s)| && Pre(s)[i] == Pre(s.r)[i - 1 - |Pre(s.l)|] && GoesOn(s, Pre(s)[i], i, d + 1)
  {
    var n := |Pre(s.l)|;
    assert Pre(s)[n + 1..] == Pre(s.r);
    assert i - n < |Pre(s.r)| ==> Pre(s)[i + 1] == Pre(s.r)[i - n];
  }

  /** Where the walk goes from the finished subtree of `x`, which lies below the top of `s`. */
  ghost predicate GoesUp(s: Shape, x: Tree, j: int, d: nat)
    reads Objs(s)`parent, Objs(s)`right, x
    requires d > 0
  {
    && x.parent != null && x.parent in Objs(s)
    && var p := x.parent;
       if p.right == x || p.right == null then Finished(s, p, j, d - 1)
       else 0 <= j < |Pre(s)| && Pre(s)[j] == p.right
  }

  /** From a finished subtree the walk goes into the right subtree of the parent, or the parent
      is finished too. */
  lemma {:induction false} FinishedUp(t: Tree, par: Tree?, s: Shape, x: Tree, j: int, d: nat)
    requires Linked(t, par, s) && Distinct(s) && Finished(s, x, j, d)
    ensures d == 0 ==> x == t && x.parent == par && j == |Pre(s)|
    ensures d > 0 ==> GoesUp(s, x, j, d)
    decreases s
  {
    if d > 0 {
      var a := Pre(s.l);
      if Finished(s.l, x, j - 1, d - 1) {
        FinishedUp(t.left, t, s.l, x, j - 1, d - 1);
        if d == 1 {
          LeftFinished(t, par, s);
        } else {
          UpInLeft(s, x, j, d);
        }
      } else {
        FinishedUp(t.right, t, s.r, x, j - 1 - |a|, d - 1);
        if d == 1 {
          assert t.right == x;
        } else {
          UpInRight(s, x, j, d);
        }
      }
    }
  }

  lemma LeftFinished(t: Tree, par: Tree?, s: Shape)
    requires Linked(t, par, s) && Distinct(s) && s.l.Node?
    ensures t.left != null && t.left.parent == t
    ensures GoesUp(s, t.left, 1 + |Pre(s.l)|, 1)
  {
    if t.right != null {
      assert t.right in Objs(s.r) && t.left in Objs(s.l);
      assert Pre(s)[1 + |Pre(s.l)|..] == Pre(s.r);
    }
  }

  lemma UpInLeft(s: Shape, x: Tree, j: int, d: nat)
    requires s.Node? && d > 1 && GoesUp(s.l, x, j - 1, d - 1)
    ensures GoesUp(s, x, j, d)
  {
    var p := x.parent;
    if p.right == x || p.right == null {
    } else {
      assert Pre(s)[j] == Pre(s.l)[j - 1];
    }
  }

  lemma UpInRight(s: Shape, x: Tree, j: int, d: nat)
    requires s.Node? && d > 1 && GoesUp(s.r, x, j - 1 - |Pre(s.l)|, d - 1)
    ensures GoesUp(s, x, j, d)
  {
    var p := x.parent;
    if p.right == x || p.right == null {
    } else {
      assert Pre(s)[j] == Pre(s.r)[j - 1 - |Pre(s.l)|];
    }
  }

  /** One round of the preorder walk; null ends it. */
  method PreNext(node: Tree, ghost root: Tree, ghost s: Shape, ghost i: int) returns (next: Tree?)
    requires Linked(root, null, s) && Distinct(s) && 0 <= i < |Pre(s)| && Pre(s)[i] == node
    ensures next == if i + 1 < |Pre(s)| then Pre(s)[i + 1] else null
  {
    hide Linked, Distinct, Finished;
    ghost var d := PreStep(root, null, s, i);
    if node.left != null {
      return node.left;
    }
    var up: Tree? := node;
    var prev: Tree? := null;
    while up.right == prev || up.right == null
      invariant up != null && Linked(root, null, s)
      invariant if up.right == prev || up.right == null then Finished(s, up, i + 1, d)
                else i + 1 < |Pre(s)| && Pre(s)[i + 1] == up.right
      decreases d
    {
      FinishedUp(root, null, s, up, i + 1, d);
      prev := up;
      up := up.parent;
      if up == null {
        return null;
      }
      d := d - 1;
    }
    next := up.right;
  }

  lemma Reparent(x: Tree?, par: Tree?, s: Shape)
    requires x != null ==> s.Node? && s.obj == x && x.parent == par && x.token == s.tok
    requires x != null ==> Linked(x.left, x, s.l) && Linked(x.right, x, s.r)
    requires x == null ==> s.Nil?
    ensures Linked(x, par, s)
  {
  }

  /** create_tree. */
  method CreateTree(left: Tree?, right: Tree?, token: Token, ghost sl: Shape, ghost sr: Shape,
                    ghost pl: Tree?, ghost pr: Tree?, ghost all: set<Tree>) returns (t: Tree, ghost s: Shape)
    requires all == Objs(sl) + Objs(sr) && Objs(sl) !! Objs(sr) && Distinct(sl) && Distinct(sr)
    requires Linked(left, pl, sl) && Linked(right, pr, sr)
    modifies (if left != null then {left} else {})`parent, (if right != null then {right} else {})`parent
    ensures fresh(t) && s == Node(t, token, sl, sr)
    ensures t.left == left && t.right == right && t.parent == null && t.next == null
    ensures Linked(t, null, s) && Distinct(s) && Linked(left, t, sl) && Linked(right, t, sr)
  {
    t := new Tree(left, right, token);
    if left != null {
      left.parent := t;
    }
    if right != null {
      right.parent := t;
    }
    s := Node(t, token, sl, sr);
    Reparent(left, t, sl);
    Reparent(right, t, sr);
  }
}
