/** The language of a parse tree, and the automaton that is wired for it. */
module Languages {
  import opened FlatText
  import opened ParseTrees

  type Word = seq<byte>

  /** The words of a tree. A missing tree stands for the empty expression. */
  ghost predicate InLang(s: Shape, w: Word)
    decreases s, 0, 0
  {
    if s.Nil? then w == []
    else match s.tok
      case Bytes(ok) => |w| == 1 && w[0] in ok
      case Concat => exists i | 0 <= i <= |w| :: InLang(s.l, w[..i]) && InLang(s.r, w[i..])
      case Alt => InLang(s.l, w) || InLang(s.r, w)
      case Star => exists n: nat :: InPower(s.l, n, w)
      case Subexp(_) => InLang(s.l, w)
      case Open(_) => w == []
      case Close(_) => w == []
      case EndOfRe => w == []
  }

  /** The words made of `n` words of the tree. */
  ghost predicate InPower(s: Shape, n: nat, w: Word)
    decreases s, 1, n
  {
    if n == 0 then w == []
    else exists i | 0 <= i <= |w| :: InLang(s, w[..i]) && InPower(s, n - 1, w[i..])
  }

  /** The shape the parser and the lowering pass produce below the end marker. */
  predicate WellFormed(s: Shape) {
    s.Node? ==>
      && WellFormed(s.l) && WellFormed(s.r)
      && match s.tok
         case Concat => s.l.Node? && s.r.Node?
         case Alt => true
         case Star => s.l.Node? && s.r.Nil?
         case Subexp(_) => s.r.Nil?
         case EndOfRe => false
         case _ => s.l.Nil? && s.r.Nil?
  }

  predicate Lowered(s: Shape) {
    s.Node? ==> !s.tok.Subexp? && Lowered(s.l) && Lowered(s.r)
  }

  /** nexts[i] is where the byte of node i leads, edests[i] where its epsilon edges lead. */
  datatype Nfa = Nfa(tokens: seq<Token>, nexts: seq<int>, edests: seq<seq<int>>) {
    predicate Valid() {
      |nexts| == |tokens| && |edests| == |tokens|
    }

    predicate IsEpsilon(i: int)
      requires 0 <= i < |tokens|
    {
      tokens[i].Alt? || tokens[i].Star? || tokens[i].Open? || tokens[i].Close?
    }

    /** At most `k` steps lead from node `i` to the end marker, reading exactly `w`. */
    ghost predicate Accepts(k: nat, i: int, w: Word)
      requires Valid()
    {
      0 <= i < |tokens| &&
      if tokens[i].EndOfRe? then w == []
      else if k == 0 then false
      else if IsEpsilon(i) then exists j :: j in edests[i] && Accepts(k - 1, j, w)
      else tokens[i].Bytes? && w != [] && w[0] in tokens[i].ok && Accepts(k - 1, nexts[i], w[1..])
    }
  }

  /** The node of the automaton where a tree begins. */
  ghost function FirstObj(s: Shape): Tree
    requires s.Node?
  {
    if s.tok.Concat? && s.l.Node? then FirstObj(s.l) else s.obj
  }

  /** Node `i` is of type `tok` and has epsilon edges to `e1` and `e2` only. */
  ghost predicate Linking(a: Nfa, i: int, tok: Token, e1: int, e2: int) {
    && a.Valid() && 0 <= i < |a.tokens| && a.tokens[i] == tok
    && forall j :: j in a.edests[i] <==> j == e1 || j == e2
  }

  ghost predicate Reading(a: Nfa, i: int, tok: Token, x: int) {
    && a.Valid() && 0 <= i < |a.tokens| && a.tokens[i] == tok
    && a.edests[i] == [] && a.nexts[i] == x
  }

  /** The automaton has the nodes and edges of the tree `s` when `x` comes after it. */
  ghost predicate Wired(a: Nfa, idx: map<Tree, int>, s: Shape, x: int) {
    s.Node? && WellFormed(s) && Lowered(s) ==>
      && FirstObj(s) in idx
      && match s.tok
         case Concat => FirstObj(s.r) in idx && Wired(a, idx, s.l, idx[FirstObj(s.r)]) && Wired(a, idx, s.r, x)
         case Star =>
           && FirstObj(s.l) in idx
           && Linking(a, idx[s.obj], Star, idx[FirstObj(s.l)], x)
           && Wired(a, idx, s.l, idx[s.obj])
         case Alt =>
           && (s.l.Node? ==> FirstObj(s.l) in idx)
           && (s.r.Node? ==> FirstObj(s.r) in idx)
           && Linking(a, idx[s.obj], Alt, if s.l.Node? then idx[FirstObj(s.l)] else x,
                                          if s.r.Node? then idx[FirstObj(s.r)] else x)
           && Wired(a, idx, s.l, x) && Wired(a, idx, s.r, x)
         case Bytes(_) => Reading(a, idx[s.obj], s.tok, x)
         case _ => Linking(a, idx[s.obj], s.tok, x, x)
  }

  ghost predicate Shaped(s: Shape) {
    s.Node? && WellFormed(s) && Lowered(s)
  }

  /** Whatever is accepted from the start of a tree begins with a word of the tree, and the rest
      is accepted, in no more steps, from what comes after it. */
  lemma {:induction false} Sound(a: Nfa, idx: map<Tree, int>, s: Shape, x: int, k: nat, w: Word)
      returns (i: nat, k': nat)
    requires a.Valid() && Shaped(s) && Wired(a, idx, s, x)
    requires a.Accepts(k, idx[FirstObj(s)], w)
    ensures i <= |w| && k' <= k
    ensures InLang(s, w[..i]) && a.Accepts(k', x, w[i..])
    decreases k, s, 2
  {
    match s.tok
    case Concat =>
      i, k' := SoundConcat(a, idx, s, x, k, w);
    case Star =>
      i, k' := SoundStar(a, idx, s, x, k, w);
    case Alt =>
      i, k' := SoundAlt(a, idx, s, x, k, w);
    case Bytes(_) =>
      i, k' := 1, k - 1;
    case Open(_) =>
      i, k' := 0, k - 1;
      assert w[0..] == w;
    case Close(_) =>
      i, k' := 0, k - 1;
      assert w[0..] == w;
  }

  lemma ConcatWired(a: Nfa, idx: map<Tree, int>, s: Shape, x: int)
    requires Shaped(s) && s.tok.Concat? && Wired(a, idx, s, x)
    ensures Shaped(s.l) && Shaped(s.r) && FirstObj(s) == FirstObj(s.l)
    ensures FirstObj(s.l) in idx && FirstObj(s.r) in idx
    ensures Wired(a, idx, s.l, idx[FirstObj(s.r)]) && Wired(a, idx, s.r, x)
  {
  }

  lemma SoundJoined(a: Nfa, s: Shape, x: int, w: Word, i1: nat, i2: nat, k: nat)
    requires a.Valid() && s.Node? && s.tok.Concat? && i1 <= |w| && i2 <= |w[i1..]|
    requires InLang(s.l, w[..i1]) && InLang(s.r, w[i1..][..i2]) && a.Accepts(k, x, w[i1..][i2..])
    ensures InLang(s, w[..i1 + i2]) && a.Accepts(k, x, w[i1 + i2..])
  {
    JoinConcat(s, w, i1, i2);
    assert w[i1..][i2..] == w[i1 + i2..];
  }

  lemma {:induction false} SoundConcat(a: Nfa, idx: map<Tree, int>, s: Shape, x: int, k: nat, w: Word)
      returns (i: nat, k': nat)
    requires a.Valid() && Shaped(s) && s.tok.Concat? && Wired(a, idx, s, x)
    requires a.Accepts(k, idx[FirstObj(s)], w)
    ensures i <= |w| && k' <= k
    ensures InLang(s, w[..i]) && a.Accepts(k', x, w[i..])
    decreases k, s, 1
  {
    hide InLang, InPower, Wired, FirstObj, WellFormed, Lowered, Nfa.Accepts;
    var i1, k1 := SoundLeft(a, idx, s, x, k, w);
    var i2, k2 := SoundRight(a, idx, s, x, k1, w[i1..]);
    SoundJoined(a, s, x, w, i1, i2, k2);
    i, k' := i1 + i2, k2;
  }

  lemma {:induction false} SoundLeft(a: Nfa, idx: map<Tree, int>, s: Shape, x: int, k: nat, w: Word)
      returns (i: nat, k': nat)
    requires a.Valid() && Shaped(s) && s.tok.Concat? && Wired(a, idx, s, x)
    requires a.Accepts(k, idx[FirstObj(s)], w)
    ensures FirstObj(s.r) in idx && i <= |w| && k' <= k
    ensures InLang(s.l, w[..i]) && a.Accepts(k', idx[FirstObj(s.r)], w[i..])
    decreases k, s, 0
  {
    hide InLang, InPower, Nfa.Accepts;
    ConcatWired(a, idx, s, x);
    i, k' := Sound(a, idx, s.l, idx[FirstObj(s.r)], k, w);
  }

  lemma {:induction false} SoundRight(a: Nfa, idx: map<Tree, int>, s: Shape, x: int, k: nat, w: Word)
      returns (i: nat, k': nat)
    requires a.Valid() && Shaped(s) && s.tok.Concat? && Wired(a, idx, s, x)
    requires FirstObj(s.r) in idx && a.Accepts(k, idx[FirstObj(s.r)], w)
    ensures i <= |w| && k' <= k
    ensures InLang(s.r, w[..i]) && a.Accepts(k', x, w[i..])
    decreases k, s, 0
  {
    hide InLang, InPower, Nfa.Accepts;
    ConcatWired(a, idx, s, x);
    i, k' := Sound(a, idx, s.r, x, k, w);
  }

  lemma {:induction false} SoundStar(a: Nfa, idx: map<Tree, int>, s: Shape, x: int, k: nat, w: Word)
      returns (i: nat, k': nat)
    requires a.Valid() && Shaped(s) && s.tok.Star? && Wired(a, idx, s, x)
    requires s.obj in idx && a.Accepts(k, idx[s.obj], w)
    ensures i <= |w| && k' <= k
    ensures InLang(s, w[..i]) && a.Accepts(k', x, w[i..])
    decreases k, s, 0
  {
    hide InLang, Wired, FirstObj;
    StarWired(a, idx, s, x);
    var j :| j in a.edests[idx[s.obj]] && a.Accepts(k - 1, j, w);
    assert w[0..] == w;
    if j == x {
      i, k' := 0, k - 1;
      EmptyStar(s, w[..0]);
    } else {
      var i1, k1 := Sound(a, idx, s.l, idx[s.obj], k - 1, w);
      var i2, k2 := SoundStar(a, idx, s, x, k1, w[i1..]);
      i, k' := i1 + i2, k2;
      JoinStar(s, w, i1, i2);
      assert w[i1..][i2..] == w[i..];
    }
  }

  lemma {:induction false} SoundAlt(a: Nfa, idx: map<Tree, int>, s: Shape, x: int, k: nat, w: Word)
      returns (i: nat, k': nat)
    requires a.Valid() && Shaped(s) && s.tok.Alt? && Wired(a, idx, s, x)
    requires a.Accepts(k, idx[s.obj], w)
    ensures i <= |w| && k' <= k
    ensures InLang(s, w[..i]) && a.Accepts(k', x, w[i..])
    decreases k, s, 0
  {
    var j :| j in a.edests[idx[s.obj]] && a.Accepts(k - 1, j, w);
    assert w[0..] == w;
    if s.l.Node? && j == idx[FirstObj(s.l)] {
      i, k' := Sound(a, idx, s.l, x, k - 1, w);
    } else if s.r.Node? && j == idx[FirstObj(s.r)] {
      i, k' := Sound(a, idx, s.r, x, k - 1, w);
    } else {
      i, k' := 0, k - 1;
    }
  }

  lemma EmptyStar(s: Shape, w: Word)
    requires s.Node? && s.tok.Star? && w == []
    ensures InLang(s, w)
  {
    assert InPower(s.l, 0, w);
  }

  lemma JoinConcat(s: Shape, w: Word, i1: nat, i2: nat)
    requires s.Node? && s.tok.Concat? && i1 + i2 <= |w|
    requires InLang(s.l, w[..i1]) && InLang(s.r, w[i1..][..i2])
    ensures InLang(s, w[..i1 + i2])
  {
    var v := w[..i1 + i2];
    assert v[..i1] == w[..i1] && v[i1..] == w[i1..][..i2];
  }

  lemma JoinStar(s: Shape, w: Word, i1: nat, i2: nat)
    requires s.Node? && s.tok.Star? && i1 + i2 <= |w|
    requires InLang(s.l, w[..i1]) && InLang(s, w[i1..][..i2])
    ensures InLang(s, w[..i1 + i2])
  {
    var v := w[..i1 + i2];
    assert v[..i1] == w[..i1] && v[i1..] == w[i1..][..i2];
    var n: nat :| InPower(s.l, n, v[i1..]);
    assert InPower(s.l, n + 1, v);
  }

  /** A word of a tree, followed by what is accepted from the node after it, is accepted. */
  lemma {:induction false} Complete(a: Nfa, idx: map<Tree, int>, s: Shape, x: int, k: nat, u: Word, v: Word)
      returns (k': nat)
    requires a.Valid() && Shaped(s) && Wired(a, idx, s, x)
    requires InLang(s, u) && a.Accepts(k, x, v)
    ensures a.Accepts(k', idx[FirstObj(s)], u + v)
    decreases s, 0
  {
    match s.tok
    case Concat =>
      var i :| 0 <= i <= |u| && InLang(s.l, u[..i]) && InLang(s.r, u[i..]);
      k' := Complete(a, idx, s.r, x, k, u[i..], v);
      k' := Complete(a, idx, s.l, idx[FirstObj(s.r)], k', u[..i], u[i..] + v);
      assert u[..i] + (u[i..] + v) == u + v;
    case Star =>
      var n: nat :| InPower(s.l, n, u);
      k' := CompleteStar(a, idx, s, x, k, n, u, v);
    case Alt =>
      assert u == [] ==> u + v == v;
      k' := k + 1;
      if s.l.Node? && InLang(s.l, u) {
        k' := Complete(a, idx, s.l, x, k, u, v);
        k' := Edge(a, idx[s.obj], idx[FirstObj(s.l)], k', u + v);
      } else if s.r.Node? && InLang(s.r, u) {
        k' := Complete(a, idx, s.r, x, k, u, v);
        k' := Edge(a, idx[s.obj], idx[FirstObj(s.r)], k', u + v);
      } else {
        k' := Edge(a, idx[s.obj], x, k, v);
      }
    case Bytes(_) =>
      k' := k + 1;
      assert (u + v)[1..] == v;
    case Open(_) =>
      assert u + v == v;
      k' := Edge(a, idx[s.obj], x, k, v);
    case Close(_) =>
      assert u + v == v;
      k' := Edge(a, idx[s.obj], x, k, v);
  }

  lemma StarWired(a: Nfa, idx: map<Tree, int>, s: Shape, x: int)
    requires a.Valid() && Shaped(s) && s.tok.Star? && Wired(a, idx, s, x)
    ensures Shaped(s.l) && s.obj in idx && FirstObj(s.l) in idx && Wired(a, idx, s.l, idx[s.obj])
    ensures var i := idx[s.obj];
            Linking(a, i, Star, idx[FirstObj(s.l)], x)
  {
  }

  lemma Edge(a: Nfa, i: int, j: int, k: nat, w: Word) returns (k': nat)
    requires a.Valid() && 0 <= i < |a.tokens| && a.IsEpsilon(i) && j in a.edests[i]
    requires a.Accepts(k, j, w)
    ensures a.Accepts(k', i, w)
  {
    k' := k + 1;
  }

  lemma {:induction false} CompleteStar(a: Nfa, idx: map<Tree, int>, s: Shape, x: int, k: nat, n: nat, u: Word, v: Word)
      returns (k': nat)
    requires a.Valid() && Shaped(s) && s.tok.Star? && Wired(a, idx, s, x)
    requires InPower(s.l, n, u) && a.Accepts(k, x, v)
    ensures s.obj in idx && a.Accepts(k', idx[s.obj], u + v)
    decreases s, 0, n
  {
    hide Wired, InLang, FirstObj, Nfa.Accepts;
    StarWired(a, idx, s, x);
    if n == 0 {
      assert u + v == v;
      k' := Edge(a, idx[s.obj], x, k, v);
    } else {
      var i :| 0 <= i <= |u| && InLang(s.l, u[..i]) && InPower(s.l, n - 1, u[i..]);
      k' := CompleteStar(a, idx, s, x, k, n - 1, u[i..], v);
      k' := Complete(a, idx, s.l, idx[s.obj], k', u[..i], u[i..] + v);
      assert u[..i] + (u[i..] + v) == u + v;
      k' := Edge(a, idx[s.obj], idx[FirstObj(s.l)], k', u + v);
    }
  }

  /** The whole tree: the expression, if there is one, in front of the end marker. */
  ghost predicate Whole(s: Shape) {
    && s.Node?
    && if s.tok.Concat? then Shaped(s.l) && s.r.Node? && s.r.tok.EndOfRe? && s.r.l.Nil? && s.r.r.Nil?
       else s.tok.EndOfRe? && s.l.Nil? && s.r.Nil?
  }

  ghost predicate WiredToEnd(a: Nfa, idx: map<Tree, int>, s: Shape)
    requires Whole(s)
  {
    a.Valid() && FirstObj(s) in idx &&
    var end := if s.tok.Concat? then s.r.obj else s.obj;
    && end in idx && 0 <= idx[end] < |a.tokens| && a.tokens[idx[end]].EndOfRe?
    && (s.tok.Concat? ==> Wired(a, idx, s.l, idx[end]))
  }

  lemma AcceptedIsWord(a: Nfa, idx: map<Tree, int>, s: Shape, k: nat, w: Word)
    requires Whole(s) && WiredToEnd(a, idx, s) && a.Accepts(k, idx[FirstObj(s)], w)
    ensures InLang(s, w)
  {
    if s.tok.Concat? {
      var i, k' := Sound(a, idx, s.l, idx[s.r.obj], k, w);
      assert w[i..] == [];
      JoinConcat(s, w, i, 0);
      assert w[..i + 0] == w;
    }
  }

  lemma WordIsAccepted(a: Nfa, idx: map<Tree, int>, s: Shape, w: Word) returns (k: nat)
    requires Whole(s) && WiredToEnd(a, idx, s) && InLang(s, w)
    ensures a.Accepts(k, idx[FirstObj(s)], w)
  {
    hide Wired;
    k := 0;
    if s.tok.Concat? {
      var i :| 0 <= i <= |w| && InLang(s.l, w[..i]) && InLang(s.r, w[i..]);
      k := Complete(a, idx, s.l, idx[s.r.obj], 0, w[..i], w[i..]);
      assert w == w[..i] + w[i..];
    }
  }

  ghost predicate AcceptsSome(a: Nfa, i: int, w: Word)
    requires a.Valid()
  {
    exists k: nat :: a.Accepts(k, i, w)
  }

  /** From the first node of the tree the automaton reaches the end marker on exactly the words
      of the tree. */
  lemma AutomatonIsLanguage(a: Nfa, idx: map<Tree, int>, s: Shape, w: Word)
    requires Whole(s) && WiredToEnd(a, idx, s)
    ensures InLang(s, w) <==> AcceptsSome(a, idx[FirstObj(s)], w)
  {
    hide Wired, InLang, Nfa.Accepts;
    if InLang(s, w) {
      var k := WordIsAccepted(a, idx, s, w);
    }
    if AcceptsSome(a, idx[FirstObj(s)], w) {
      var k: nat :| a.Accepts(k, idx[FirstObj(s)], w);
      AcceptedIsWord(a, idx, s, k, w);
    }
  }
}
