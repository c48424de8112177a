/** What the closures are for: a word is accepted by an automaton exactly if reading it, one
    byte at a time, over closed sets of nodes ends in a set with the end marker. */
module ClosureRuns {
  import opened FlatText
  import opened ParseTrees
  import opened Languages
  import opened Closures

  /** Every edge leads to a node, and only epsilon nodes have epsilon edges. */
  ghost predicate Sane(a: Nfa) {
    && a.Valid() && IsGraph(a.edests)
    && (forall i | 0 <= i < |a.tokens| :: a.tokens[i].Bytes? ==> 0 <= a.nexts[i] < |a.tokens|)
    && (forall i | 0 <= i < |a.tokens| :: !a.IsEpsilon(i) ==> a.edests[i] == [])
  }

  predicate Reads(a: Nfa, i: int, c: byte) {
    0 <= i < |a.tokens| && a.tokens[i].Bytes? && c in a.tokens[i].ok
  }

  ghost function Move(a: Nfa, from: set<int>, c: byte): set<int>
    requires Sane(a)
  {
    set i, j | i in from && Reads(a, i, c) && j in Reach(a.edests, {}, a.nexts[i]) :: j
  }

  ghost predicate Run(a: Nfa, from: set<int>, w: Word)
    requires Sane(a)
    decreases |w|
  {
    if w == [] then exists e :: e in from && 0 <= e < |a.tokens| && a.tokens[e].EndOfRe?
    else Run(a, Move(a, from, w[0]), w[1..])
  }

  /** Acceptance that begins by reading a byte or by ending, without an epsilon edge. */
  ghost predicate Direct(a: Nfa, i: int, w: Word)
    requires Sane(a)
  {
    0 <= i < |a.tokens| &&
    if w == [] then a.tokens[i].EndOfRe? else Reads(a, i, w[0]) && AcceptsSome(a, a.nexts[i], w[1..])
  }

  lemma {:induction false} AcceptsReaches(a: Nfa, k: nat, i: int, w: Word) returns (j: int)
    requires Sane(a) && a.Accepts(k, i, w)
    ensures j in Reach(a.edests, {}, i) && Direct(a, j, w)
    decreases k
  {
    if a.IsEpsilon(i) {
      var i' :| i' in a.edests[i] && a.Accepts(k - 1, i', w);
      j := AcceptsReaches(a, k - 1, i', w);
      ReachThroughEdge(a.edests, i, i');
    } else {
      j := i;
      ReachesItself(a.edests, {}, i);
    }
  }

  lemma {:induction false} ReachesAccepts(a: Nfa, p: seq<int>, i: int, j: int, w: Word) returns (k: nat)
    requires Sane(a) && Leads(a.edests, p, {}, i, j) && Direct(a, j, w)
    ensures a.Accepts(k, i, w)
    decreases |p|
  {
    if |p| == 1 {
      k := 1;
      if w != [] {
        var k': nat :| a.Accepts(k', a.nexts[i], w[1..]);
        k := k' + 1;
      }
    } else {
      assert p[1] in a.edests[p[0]];
      k := ReachesAccepts(a, p[1..], p[1], j, w);
      k := k + 1;
    }
  }

  lemma AcceptsIffReaches(a: Nfa, i: int, w: Word)
    requires Sane(a)
    ensures AcceptsSome(a, i, w) <==> exists j :: j in Reach(a.edests, {}, i) && Direct(a, j, w)
  {
    if AcceptsSome(a, i, w) {
      var k: nat :| a.Accepts(k, i, w);
      var j := AcceptsReaches(a, k, i, w);
    }
    if j :| j in Reach(a.edests, {}, i) && Direct(a, j, w) {
      var p :| Leads(a.edests, p, {}, i, j);
      var k := ReachesAccepts(a, p, i, j, w);
    }
  }

  lemma {:induction false} RunIsDirect(a: Nfa, from: set<int>, w: Word)
    requires Sane(a)
    ensures Run(a, from, w) <==> exists i :: i in from && Direct(a, i, w)
    decreases |w|
  {
    hide Reach;
    if w != [] {
      var to := Move(a, from, w[0]);
      RunIsDirect(a, to, w[1..]);
      if j :| j in to && Direct(a, j, w[1..]) {
        var i :| i in from && Reads(a, i, w[0]) && j in Reach(a.edests, {}, a.nexts[i]);
        AcceptsIffReaches(a, a.nexts[i], w[1..]);
        assert Direct(a, i, w);
      }
      if i :| i in from && Direct(a, i, w) {
        AcceptsIffReaches(a, a.nexts[i], w[1..]);
        var j :| j in Reach(a.edests, {}, a.nexts[i]) && Direct(a, j, w[1..]);
        assert j in to;
      }
    }
  }

  lemma ClosuresDecide(a: Nfa, i: int, w: Word)
    requires Sane(a)
    ensures AcceptsSome(a, i, w) <==> Run(a, Reach(a.edests, {}, i), w)
  {
    hide Reach, Run, Direct, AcceptsSome;
    AcceptsIffReaches(a, i, w);
    RunIsDirect(a, Reach(a.edests, {}, i), w);
  }
}
