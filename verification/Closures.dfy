/** Epsilon closures: the re-entrant search that marks nodes in progress, and the inverse
    relation. */
module Closures {
  import opened NodeSets
  import opened NodeArrays

  /** Node i's epsilon successors are g[i]. */
  type Graph = seq<seq<int>>

  ghost predicate IsGraph(g: Graph) {
    forall i, j | 0 <= i < |g| && 0 <= j < |g[i]| :: 0 <= g[i][j] < |g|
  }

  function Below(n: int): (ns: set<int>)
    ensures forall i :: i in ns <==> 0 <= i < n
  {
    if n <= 0 then {} else Below(n - 1) + {n - 1}
  }

  ghost predicate IsPath(g: Graph, p: seq<int>, avoid: set<int>) {
    && p != []
    && (forall i | 0 <= i < |p| :: 0 <= p[i] < |g| && p[i] !in avoid)
    && (forall i | 0 <= i < |p| - 1 :: p[i + 1] in g[p[i]])
  }

  ghost predicate Leads(g: Graph, p: seq<int>, avoid: set<int>, v: int, w: int) {
    IsPath(g, p, avoid) && p[0] == v && Last(p) == w
  }

  /** What can be reached from `v` through nodes outside `avoid`. */
  ghost function Reach(g: Graph, avoid: set<int>, v: int): set<int> {
    set w | w in Below(|g|) && Reaches(g, avoid, v, w)
  }

  ghost predicate Reaches(g: Graph, avoid: set<int>, v: int, w: int) {
    exists p :: Leads(g, p, avoid, v, w)
  }

  lemma ReachesItself(g: Graph, avoid: set<int>, v: int)
    requires 0 <= v < |g| && v !in avoid
    ensures v in Reach(g, avoid, v)
  {
    assert Leads(g, [v], avoid, v, v);
  }

  lemma ReachThroughEdge(g: Graph, v: int, c: int)
    requires 0 <= v < |g| && c in g[v]
    ensures Reach(g, {}, c) <= Reach(g, {}, v)
  {
    forall w | w in Reach(g, {}, c)
      ensures w in Reach(g, {}, v)
    {
      var p :| Leads(g, p, {}, c, w);
      assert Leads(g, [v] + p, {}, v, w);
    }
  }

  /** A node that `v` reaches is `v` or is reached by a successor without coming back to `v`. */
  lemma {:induction false} ReachUnfolds(g: Graph, p: seq<int>, avoid: set<int>, v: int, w: int)
    requires Leads(g, p, avoid, v, w)
    ensures w == v || exists c :: c in g[v] && c !in avoid + {v} && w in Reach(g, avoid + {v}, c)
    decreases |p|
  {
    if |p| > 1 {
      var tail := p[1..];
      if j :| 0 <= j < |tail| && tail[j] == v {
        assert IsPath(g, tail[j..], avoid);
        ReachUnfolds(g, tail[j..], avoid, v, w);
      } else {
        assert Leads(g, tail, avoid + {v}, p[1], w);
        assert 0 <= w < |g| by {
          assert Last(p) == w;
        }
      }
    }
  }

  /** A search from `v` that has merged, for every successor it may enter, all that the successor
      reaches outside the nodes in progress, has found all that `v` reaches outside them. */
  lemma SearchCovers(g: Graph, avoid: set<int>, v: int, found: set<int>)
    requires IsGraph(g) && 0 <= v < |g|
    requires forall c | c in g[v] && c !in avoid + {v} :: Reach(g, avoid + {v}, c) <= found
    ensures Reach(g, avoid, v) <= found + {v}
  {
    forall w | w in Reach(g, avoid, v)
      ensures w in found + {v}
    {
      var p :| Leads(g, p, avoid, v, w);
      ReachUnfolds(g, p, avoid, v, w);
    }
  }

  /** Stored closures of all successors make an exact closure. */
  lemma StoredCover(g: Graph, v: int, found: set<int>)
    requires IsGraph(g) && 0 <= v < |g|
    requires forall c | c in g[v] :: Reach(g, {}, c) <= found
    ensures Reach(g, {}, v) <= found + {v}
  {
    forall c | c in g[v] && c !in {} + {v}
      ensures Reach(g, {} + {v}, c) <= found
    {
      AvoidLess(g, {} + {v}, c);
    }
    SearchCovers(g, {}, v, found);
  }

  lemma AvoidLess(g: Graph, avoid: set<int>, v: int)
    ensures Reach(g, avoid, v) <= Reach(g, {}, v)
  {
    forall w | w in Reach(g, avoid, v)
      ensures w in Reach(g, {}, v)
    {
      var p :| Leads(g, p, avoid, v, w);
      assert Leads(g, p, {}, v, w);
    }
  }

  /** `nelem` of an entry of the closure table: 0 before the closure is known, -1 while it is
      being computed. */
  datatype Slot = NotYet | InProgress | Done(nodes: NodeSet)

  ghost predicate Holds(s: NodeSet, found: set<int>)
    reads s, s.elems
  {
    s.Valid() && Ordered(s.Contents(), false) && Nodes(s.Contents()) == found
  }

  class Dfa {
    const epsilon: seq<bool>
    const edests: Graph
    const eclosures: array<Slot>

    constructor (epsilon: seq<bool>, edests: Graph)
      requires IsGraph(edests) && |epsilon| == |edests|
      ensures this.epsilon == epsilon && this.edests == edests && Valid() && fresh(eclosures)
      ensures forall i | 0 <= i < eclosures.Length :: eclosures[i].NotYet?
    {
      this.epsilon, this.edests := epsilon, edests;
      eclosures := new Slot[|edests|](_ => NotYet);
    }

    /** The epsilon edges: other nodes are not expanded. */
    ghost function Edges(): Graph {
      seq(|edests|, i requires 0 <= i < |edests| => if i < |epsilon| && epsilon[i] then edests[i] else [])
    }

    ghost predicate Valid() {
      IsGraph(edests) && |epsilon| == |edests| && eclosures.Length == |edests|
    }

    ghost function Sets(): set<NodeSet>
      reads eclosures
    {
      set i | 0 <= i < eclosures.Length && eclosures[i].Done? :: eclosures[i].nodes
    }

    /** Every stored closure is exact. */
    ghost predicate Exact()
      reads eclosures, Sets(), set s | s in Sets() :: s.elems
    {
      forall i | 0 <= i < eclosures.Length && eclosures[i].Done? ::
        eclosures[i].nodes in Sets() && Holds(eclosures[i].nodes, Reach(Edges(), {}, i))
    }

    ghost predicate Marks(busy: set<int>)
      reads eclosures
    {
      && busy <= Below(eclosures.Length)
      && forall i | 0 <= i < eclosures.Length :: eclosures[i].InProgress? <==> i in busy
    }

    /** No stored closure shares storage with `s`. */
    ghost predicate Foreign(s: NodeSet)
      reads eclosures, Sets(), s
    {
      s !in Sets() && forall t | t in Sets() :: t.elems != s.elems
    }

    /** What the search from `node` has merged after its first `i` successors: nothing that is
        not reachable, and all it was able to find. */
    ghost predicate Searched(g: Graph, busy: set<int>, node: int, i: int, incomplete: bool, found: set<int>)
      requires 0 <= node < |edests| && 0 <= i <= |edests[node]|
    {
      && found <= Reach(g, {}, node)
      && (forall j | 0 <= j < i && edests[node][j] !in busy :: Reach(g, busy, edests[node][j]) <= found)
      && (!incomplete ==> forall j | 0 <= j < i :: Reach(g, {}, edests[node][j]) <= found)
    }

    lemma SearchStarts(g: Graph, busy: set<int>, node: int)
      requires 0 <= node < |edests|
      ensures Searched(g, busy, node, 0, false, {})
    {
    }

    /** A successor in progress is passed over. */
    lemma SearchSkips(g: Graph, busy: set<int>, node: int, i: int, incomplete: bool, found: set<int>)
      requires 0 <= node < |edests| && 0 <= i < |edests[node]| && edests[node][i] in busy
      requires Searched(g, busy, node, i, incomplete, found)
      ensures Searched(g, busy, node, i + 1, true, found)
    {
    }

    lemma SearchMerges(busy: set<int>, node: int, i: int, incomplete: bool, found: set<int>, more: set<int>, exact: bool)
      requires Valid() && 0 <= node < |edests| && epsilon[node] && 0 <= i < |edests[node]|
      requires Searched(Edges(), busy, node, i, incomplete, found)
      requires Reach(Edges(), busy, edests[node][i]) <= more <= Reach(Edges(), {}, edests[node][i])
      requires exact ==> more == Reach(Edges(), {}, edests[node][i])
      ensures Searched(Edges(), busy, node, i + 1, incomplete || !exact, found + more)
    {
      hide Reach;
      ReachThroughEdge(Edges(), node, edests[node][i]);
    }

    lemma Finished(busy: set<int>, node: int, i: int, incomplete: bool, found: set<int>)
      requires Valid() && 0 <= node < |edests| && node !in busy
      requires 0 <= i <= |edests[node]| && (epsilon[node] ==> i == |edests[node]|)
      requires Searched(Edges(), busy + {node}, node, i, incomplete, found)
      ensures Reach(Edges(), busy, node) <= found + {node} <= Reach(Edges(), {}, node)
      ensures !incomplete ==> found + {node} == Reach(Edges(), {}, node)
    {
      hide Reach;
      var g := Edges();
      ReachesItself(g, {}, node);
      SearchCovers(g, busy, node, found);
      if !incomplete {
        StoredCover(g, node, found);
      }
    }

    /** Marks the node as being computed. */
    method Enter(node: int, ghost busy: set<int>)
      requires Exact() && Marks(busy) && 0 <= node < eclosures.Length && !eclosures[node].Done?
      modifies eclosures
      ensures Exact() && Marks(busy + {node}) && Sets() == old(Sets())
      ensures forall i | 0 <= i < eclosures.Length && i != node :: eclosures[i] == old(eclosures[i])
    {
      eclosures[node] := InProgress;
      assert forall i | 0 <= i < eclosures.Length && eclosures[i].Done? :: old(eclosures[i].Done?);
      assert forall i | 0 <= i < eclosures.Length && old(eclosures[i].Done?) :: eclosures[i] == old(eclosures[i]);
    }

    /** Takes the mark away, storing the closure if it is to be kept. */
    method Leave(node: int, eclosure: NodeSet, keep: bool, ghost busy: set<int>)
      requires Exact() && Marks(busy + {node}) && 0 <= node < eclosures.Length && node !in busy
      requires keep ==> Holds(eclosure, Reach(Edges(), {}, node))
      modifies eclosures
      ensures Exact() && Marks(busy)
      ensures forall i | 0 <= i < eclosures.Length && i != node :: eclosures[i] == old(eclosures[i])
      ensures eclosures[node] == if keep then Done(eclosure) else NotYet
    {
      hide Holds, Reach;
      eclosures[node] := if keep then Done(eclosure) else NotYet;
      assert Sets() <= old(Sets()) + {eclosure};
      forall i | 0 <= i < eclosures.Length && eclosures[i].Done?
        ensures eclosures[i].nodes in Sets() && Holds(eclosures[i].nodes, Reach(Edges(), {}, i))
      {
        if i != node {
          assert eclosures[i] == old(eclosures[i]);
        }
      }
    }

    method Alloc() returns (eclosure: NodeSet)
      requires Exact()
      ensures Exact() && fresh(eclosure) && fresh(eclosure.elems) && Foreign(eclosure)
      ensures eclosure.Valid() && Ordered(eclosure.Contents(), false) && Nodes(eclosure.Contents()) == {}
    {
      hide Reach;
      eclosure := new NodeSet();
    }

    /** Merges a closure into one that is being built. */
    method Absorb(eclosure: NodeSet, elem: NodeSet)
      requires Exact() && Foreign(eclosure)
      requires eclosure.Valid() && Ordered(eclosure.Contents(), false)
      requires elem.Valid() && Ordered(elem.Contents(), false)
      requires elem != eclosure && elem.elems != eclosure.elems
      modifies eclosure, eclosure.elems
      ensures Exact() && Foreign(eclosure)
      ensures eclosure.elems == old(eclosure.elems) || fresh(eclosure.elems)
      ensures eclosure.Valid() && Ordered(eclosure.Contents(), false)
      ensures Nodes(eclosure.Contents()) == old(Nodes(eclosure.Contents())) + Nodes(elem.Contents())
    {
      hide Nodes, Ordered, Reach;
      MergeIsUnion(eclosure.Contents(), elem.Contents(), false);
      eclosure.Merge(elem);
      assert forall s | s in Sets() :: s.elems == old(s.elems) && s.nelem == old(s.nelem);
      assert forall s | s in Sets() && s.Valid() :: s.Contents() == old(s.Contents());
    }

    /** Puts the node itself into its closure. */
    method AddItself(eclosure: NodeSet, node: int)
      requires Exact() && Foreign(eclosure)
      requires eclosure.Valid() && Ordered(eclosure.Contents(), false)
      modifies eclosure, eclosure.elems
      ensures Exact()
      ensures eclosure.elems == old(eclosure.elems) || fresh(eclosure.elems)
      ensures Holds(eclosure, old(Nodes(eclosure.Contents())) + {node})
    {
      hide Nodes, Ordered, Reach;
      InsertMeans(eclosure.Contents(), node, false);
      eclosure.Insert(node);
      assert forall s | s in Sets() :: s.elems == old(s.elems) && s.nelem == old(s.nelem);
      assert forall s | s in Sets() && s.Valid() :: s.Contents() == old(s.Contents());
    }

    method CalcEclosureIter(node: int, root: bool, ghost busy: set<int>) returns (newSet: NodeSet)
      requires Valid() && Exact() && Marks(busy)
      requires 0 <= node < eclosures.Length && eclosures[node].NotYet?
      requires root ==> busy == {}
      modifies eclosures
      ensures Exact() && Marks(busy)
      ensures forall i | 0 <= i < eclosures.Length && old(eclosures[i].Done?) :: eclosures[i] == old(eclosures[i])
      ensures forall i | 0 <= i < eclosures.Length && !old(eclosures[i].Done?) && eclosures[i].Done? ::
                fresh(eclosures[i].nodes) && fresh(eclosures[i].nodes.elems)
      ensures fresh(newSet) && fresh(newSet.elems)
      ensures newSet.Valid() && Ordered(newSet.Contents(), false)
      ensures Reach(Edges(), busy, node) <= Nodes(newSet.Contents()) <= Reach(Edges(), {}, node)
      ensures eclosures[node] == Done(newSet) || (eclosures[node] == NotYet && !root)
      decreases Below(|edests|) - busy, 0
    {
      hide Reach, Nodes, Ordered, Searched, Dfa.Exact;
      var eclosure := Alloc();
      SearchStarts(Edges(), busy + {node}, node);
      var incomplete := false;
      ghost var g := Edges();
      ghost var busy' := busy + {node};
      Enter(node, busy);
      var i := 0;
      while epsilon[node] && i < |edests[node]|
        invariant 0 <= i <= |edests[node]|
        invariant Exact() && Marks(busy')
        invariant fresh(eclosure) && fresh(eclosure.elems) && Foreign(eclosure)
        invariant eclosure.Valid() && Ordered(eclosure.Contents(), false)
        invariant Searched(g, busy', node, i, incomplete, Nodes(eclosure.Contents()))
        invariant forall k | 0 <= k < eclosures.Length && old(eclosures[k].Done?) :: eclosures[k] == old(eclosures[k])
        invariant forall k | 0 <= k < eclosures.Length && !old(eclosures[k].Done?) && eclosures[k].Done? ::
                    fresh(eclosures[k].nodes) && fresh(eclosures[k].nodes.elems)
        decreases |edests[node]| - i
      {
        var edest := edests[node][i];
        i := i + 1;
        if eclosures[edest].InProgress? {
          SearchSkips(g, busy', node, i - 1, incomplete, Nodes(eclosure.Contents()));
          incomplete := true;
          continue;
        }
        var elem := ClosureOf(edest, busy');
        SearchMerges(busy', node, i - 1, incomplete, Nodes(eclosure.Contents()), Nodes(elem.Contents()), eclosures[edest].Done?);
        Absorb(eclosure, elem);
        if eclosures[edest].NotYet? {
          incomplete := true;
        }
      }
      Finished(busy, node, i, incomplete, Nodes(eclosure.Contents()));
      AddItself(eclosure, node);
      Leave(node, eclosure, root || !incomplete, busy);
      newSet := eclosure;
    }

    /** The closure of a successor: the stored one, or one computed now. */
    method ClosureOf(edest: int, ghost busy: set<int>) returns (elem: NodeSet)
      requires Valid() && Exact() && Marks(busy)
      requires 0 <= edest < eclosures.Length && !eclosures[edest].InProgress?
      modifies eclosures
      ensures Exact() && Marks(busy)
      ensures forall i | 0 <= i < eclosures.Length && old(eclosures[i].Done?) :: eclosures[i] == old(eclosures[i])
      ensures forall i | 0 <= i < eclosures.Length && !old(eclosures[i].Done?) && eclosures[i].Done? ::
                fresh(eclosures[i].nodes) && fresh(eclosures[i].nodes.elems)
      ensures eclosures[edest] == NotYet || eclosures[edest] == Done(elem)
      ensures eclosures[edest].Done? ==> Nodes(elem.Contents()) == Reach(Edges(), {}, edest)
      ensures eclosures[edest] == NotYet ==> fresh(elem) && fresh(elem.elems)
      ensures elem.Valid() && Ordered(elem.Contents(), false)
      ensures Reach(Edges(), busy, edest) <= Nodes(elem.Contents()) <= Reach(Edges(), {}, edest)
      decreases Below(|edests|) - busy, 1
    {
      hide Reach, Nodes, Ordered, IsGraph;
      if eclosures[edest].NotYet? {
        elem := CalcEclosureIter(edest, false, busy);
      } else {
        elem := eclosures[edest].nodes;
        AvoidLess(Edges(), busy, edest);
      }
    }

    /** calc_eclosure: every node gets its exact closure. Each call at the root stores its result,
        so the pass over the nodes is never started again. */
    method CalcEclosure()
      requires Valid() && 0 < |edests|
      requires forall i | 0 <= i < eclosures.Length :: eclosures[i].NotYet?
      modifies eclosures
      ensures forall i | 0 <= i < eclosures.Length ::
                eclosures[i].Done? && Holds(eclosures[i].nodes, Reach(Edges(), {}, i))
    {
      hide Reach, Holds;
      var incomplete := false;
      var i := 0;
      while true
        invariant 0 <= i <= eclosures.Length && !incomplete
        invariant Exact() && Marks({})
        invariant forall k | 0 <= k < i :: eclosures[k].Done?
        decreases eclosures.Length - i
      {
        if i == eclosures.Length {
          if !incomplete {
            break;
          }
          incomplete := false;
          i := 0;
        }
        if eclosures[i].NotYet? {
          var elem := CalcEclosureIter(i, true, {});
          if eclosures[i].NotYet? {
            incomplete := true;
          }
        }
        i := i + 1;
      }
    }

    /** The inverse closure of `v` while the closure of `src` is gone through, of which `part`
        is done. */
    ghost predicate Listed(c: seq<int>, v: int, src: int, part: seq<int>) {
      && Ordered(c, false)
      && forall w :: w in Nodes(c) <==> (0 <= w < src && v in Reach(Edges(), {}, w)) || (w == src && v in part)
    }

    lemma ListsMore(c: seq<int>, v: int, src: int, part: seq<int>, e: int)
      requires Listed(c, v, src, part) && 0 <= src
      ensures Listed(if e == v then c + [src] else c, v, src, part + [e])
    {
      hide Reach, Nodes, Ordered;
      if e == v {
        NodesAppend(c, src);
        OrderedAppend(c, src, false);
      }
    }

    lemma ListsAll(c: seq<int>, v: int, src: int, part: seq<int>)
      requires Listed(c, v, src, part) && 0 <= src
      requires Nodes(part) == Reach(Edges(), {}, src)
      ensures Listed(c, v, src + 1, [])
    {
      hide Reach;
    }

    /** calc_inveclosure: node w is in the inverse closure of v exactly if v is in the closure
        of w, and the inverse closures come out sorted. */
    method CalcInveclosure() returns (inv: array<NodeSet>)
      requires Valid()
      requires forall i | 0 <= i < eclosures.Length ::
                 eclosures[i].Done? && Holds(eclosures[i].nodes, Reach(Edges(), {}, i))
      ensures inv.Length == eclosures.Length
      ensures forall v | 0 <= v < inv.Length ::
                && inv[v].Valid() && Ordered(inv[v].Contents(), false)
                && forall w :: w in Nodes(inv[v].Contents()) <==> 0 <= w < |edests| && v in Reach(Edges(), {}, w)
    {
      hide Reach, Nodes, Ordered, Listed;
      var n := eclosures.Length;
      inv := AllocSets(n);
      forall v | 0 <= v < n
        ensures Listed(inv[v].Contents(), v, 0, [])
      {
        ListsNothing(v);
      }
      var src := 0;
      while src < n
        invariant 0 <= src <= n == inv.Length && fresh(inv) && Separate(inv)
        invariant forall v | 0 <= v < n :: fresh(inv[v]) && fresh(inv[v].elems)
        invariant forall v | 0 <= v < n :: Listed(inv[v].Contents(), v, src, [])
      {
        AddSource(inv, src);
        src := src + 1;
      }
      forall v | 0 <= v < n
        ensures Ordered(inv[v].Contents(), false)
        ensures forall w :: w in Nodes(inv[v].Contents()) <==> 0 <= w < |edests| && v in Reach(Edges(), {}, w)
      {
        ListedAll(inv[v].Contents(), v);
      }
    }

    /** Goes through one closure. */
    method AddSource(inv: array<NodeSet>, src: int)
      requires Valid() && inv.Length == eclosures.Length && Separate(inv)
      requires 0 <= src < eclosures.Length
      requires eclosures[src].Done? && Holds(eclosures[src].nodes, Reach(Edges(), {}, src))
      requires forall v | 0 <= v < inv.Length :: eclosures[src].nodes != inv[v] && eclosures[src].nodes.elems != inv[v].elems
      requires forall v | 0 <= v < inv.Length :: Listed(inv[v].Contents(), v, src, [])
      modifies set v | 0 <= v < inv.Length :: inv[v]
      modifies set v | 0 <= v < inv.Length :: inv[v].elems
      ensures Separate(inv)
      ensures forall v | 0 <= v < inv.Length :: inv[v].elems == old(inv[v].elems) || fresh(inv[v].elems)
      ensures forall v | 0 <= v < inv.Length :: Listed(inv[v].Contents(), v, src + 1, [])
    {
      hide Reach, Nodes, Ordered, Listed;
      var s := eclosures[src].nodes;
      ghost var c := s.Contents();
      var idx := 0;
      while idx < s.nelem
        invariant 0 <= idx <= s.nelem && s.Valid() && s.Contents() == c && Separate(inv)
        invariant forall v | 0 <= v < inv.Length :: s != inv[v] && s.elems != inv[v].elems
        invariant forall v | 0 <= v < inv.Length :: inv[v].elems == old(inv[v].elems) || fresh(inv[v].elems)
        invariant forall v | 0 <= v < inv.Length :: Listed(inv[v].Contents(), v, src, c[..idx])
      {
        var e := s.elems[idx];
        InRange(c, idx, src);
        forall v | 0 <= v < inv.Length
          ensures Listed(if v == e then inv[v].Contents() + [src] else inv[v].Contents(), v, src, c[..idx + 1])
        {
          ListsMore(inv[v].Contents(), v, src, c[..idx], e);
          assert c[..idx + 1] == c[..idx] + [e];
        }
        Append(inv, e, src);
        idx := idx + 1;
      }
      forall v | 0 <= v < inv.Length
        ensures Listed(inv[v].Contents(), v, src + 1, [])
      {
        assert c[..idx] == c;
        ListsAll(inv[v].Contents(), v, src, c);
      }
    }

    lemma InRange(c: seq<int>, i: int, src: int)
      requires 0 <= i < |c| && Nodes(c) == Reach(Edges(), {}, src)
      ensures 0 <= c[i] < |edests|
    {
      assert c[i] in Nodes(c);
    }

    lemma ListedAll(c: seq<int>, v: int)
      requires Listed(c, v, |edests|, [])
      ensures Ordered(c, false)
      ensures forall w :: w in Nodes(c) <==> 0 <= w < |edests| && v in Reach(Edges(), {}, w)
    {
    }

    lemma ListsNothing(v: int)
      ensures Listed([], v, 0, [])
    {
    }
  }

  method AllocSets(n: nat) returns (inv: array<NodeSet>)
    ensures fresh(inv) && inv.Length == n && Separate(inv)
    ensures forall v | 0 <= v < n :: fresh(inv[v]) && fresh(inv[v].elems) && inv[v].Contents() == []
  {
    var none := new NodeSet();
    inv := new NodeSet[n](_ => none);
    var idx := 0;
    while idx < n
      invariant 0 <= idx <= n
      invariant forall v | 0 <= v < idx ::
                  fresh(inv[v]) && fresh(inv[v].elems) && inv[v].Valid() && inv[v].Contents() == []
      invariant forall v, w | 0 <= v < idx && 0 <= w < idx && v != w ::
                  inv[v] != inv[w] && inv[v].elems != inv[w].elems
    {
      var empty := new NodeSet();
      inv[idx] := empty;
      idx := idx + 1;
    }
  }

  method Append(inv: array<NodeSet>, e: int, src: int)
    requires Separate(inv) && 0 <= e < inv.Length
    modifies inv[e], inv[e].elems
    ensures Separate(inv)
    ensures inv[e].elems == old(inv[e].elems) || fresh(inv[e].elems)
    ensures inv[e].Contents() == old(inv[e].Contents()) + [src]
    ensures forall v | 0 <= v < inv.Length && v != e ::
              inv[v].elems == old(inv[v].elems) && inv[v].Contents() == old(inv[v].Contents())
  {
    inv[e].InsertLast(src);
  }

  /** No two of the sets share storage. */
  ghost predicate Separate(inv: array<NodeSet>)
    reads inv, set v | 0 <= v < inv.Length :: inv[v]
  {
    && (forall v | 0 <= v < inv.Length :: inv[v].Valid())
    && forall v, w | 0 <= v < inv.Length && 0 <= w < inv.Length && v != w ::
         inv[v] != inv[w] && inv[v].elems != inv[w].elems
  }
}
