/** The table of automaton states: a state is looked up by its set of nodes and made only when no
    other state has that set. There are no contexts, as there are no anchors. */
module StateTables {
  import opened NodeSets
  import opened ParseTrees
  import opened Languages
  import opened ClosureRuns

  /** re_hashval_t is a 32-bit unsigned integer. */
  const HASH_RANGE := 0x1_0000_0000

  function Sum(s: seq<int>): int {
    if s == [] then 0 else Sum(Init(s)) + Last(s)
  }

  function HashOf(nodes: seq<int>): int {
    (|nodes| + Sum(nodes)) % HASH_RANGE
  }

  /** calc_state_hash(). */
  method CalcStateHash(nodes: seq<int>) returns (hash: int)
    ensures hash == HashOf(nodes)
  {
    hash := |nodes| % HASH_RANGE;
    for i := 0 to |nodes|
      invariant hash == (|nodes| + Sum(nodes[..i])) % HASH_RANGE
    {
      assert Init(nodes[..i + 1]) == nodes[..i];
      hash := (hash + nodes[i]) % HASH_RANGE;
    }
    assert nodes[..|nodes|] == nodes;
  }

  /** The nodes that read a byte or end the expression. */
  function NonEpsilon(a: Nfa, nodes: seq<int>): seq<int>
    requires a.Valid() && InRange(a, nodes)
  {
    if nodes == [] then []
    else NonEpsilon(a, Init(nodes)) + if a.IsEpsilon(Last(nodes)) then [] else [Last(nodes)]
  }

  predicate InRange(a: Nfa, nodes: seq<int>) {
    forall k | 0 <= k < |nodes| :: 0 <= nodes[k] < |a.tokens|
  }

  predicate Halts(a: Nfa, nodes: seq<int>)
    requires InRange(a, nodes)
  {
    exists k | 0 <= k < |nodes| :: a.tokens[nodes[k]].EndOfRe?
  }

  class State {
    const nodes: seq<int>
    const hash: int
    const halt: bool
    const nonEpsNodes: seq<int>

    constructor (nodes: seq<int>, hash: int, halt: bool, nonEpsNodes: seq<int>)
      ensures this.nodes == nodes && this.hash == hash && this.halt == halt && this.nonEpsNodes == nonEpsNodes
    {
      this.nodes, this.hash, this.halt, this.nonEpsNodes := nodes, hash, halt, nonEpsNodes;
    }
  }

  /** What a state remembers is so of its nodes. */
  ghost predicate Right(a: Nfa, s: State) {
    && a.Valid() && s.nodes != [] && InRange(a, s.nodes) && s.hash == HashOf(s.nodes)
    && s.halt == Halts(a, s.nodes) && s.nonEpsNodes == NonEpsilon(a, s.nodes)
  }

  /** There is a place `i` in bucket `b`. */
  predicate Place(table: seq<seq<State>>, b: int, i: int) {
    0 <= b < |table| && 0 <= i < |table[b]|
  }

  /** Every state is in the bucket of its hash, and no two have the same nodes. */
  ghost predicate Filed(a: Nfa, table: seq<seq<State>>) {
    && table != []
    && (forall b, i | Place(table, b, i) :: Right(a, table[b][i]) && b == table[b][i].hash % |table|)
    && (forall b, i, c, j | Place(table, b, i) && Place(table, c, j) && table[b][i].nodes == table[c][j].nodes :: b == c && i == j)
  }

  ghost predicate Has(table: seq<seq<State>>, s: State) {
    exists b, i :: Place(table, b, i) && table[b][i] == s
  }

  ghost predicate HasNodes(table: seq<seq<State>>, nodes: seq<int>) {
    exists b, i :: Place(table, b, i) && table[b][i].nodes == nodes
  }

  /** One state more at the end of its bucket. */
  function Filing(table: seq<seq<State>>, s: State): seq<seq<State>>
    requires table != []
  {
    var b := s.hash % |table|; table[b := table[b] + [s]]
  }

  lemma FiledMore(a: Nfa, table: seq<seq<State>>, s: State)
    requires Filed(a, table) && Right(a, s) && !HasNodes(table, s.nodes)
    ensures Filed(a, Filing(table, s)) && Has(Filing(table, s), s)
  {
    var b, more := s.hash % |table|, Filing(table, s);
    assert Place(more, b, |table[b]|) && more[b][|table[b]|] == s;
    forall c, i | Place(more, c, i)
      ensures if c == b && i == |table[b]| then more[c][i] == s else Place(table, c, i) && more[c][i] == table[c][i]
    {
    }
  }

  /** In a table without two states for the same nodes, states are one per node set as long as the
      sets are kept strictly sorted. */
  lemma OneStatePerSet(a: Nfa, table: seq<seq<State>>, s: State, t: State)
    requires Filed(a, table) && Has(table, s) && Has(table, t)
    requires Ordered(s.nodes, true) && Ordered(t.nodes, true)
    ensures s == t <==> Nodes(s.nodes) == Nodes(t.nodes)
  {
    if Nodes(s.nodes) == Nodes(t.nodes) {
      CanonicalArray(s.nodes, t.nodes);
      var b, i :| Place(table, b, i) && table[b][i] == s;
      var c, j :| Place(table, c, j) && table[c][j] == t;
    }
  }

  /** The halt flag says whether the empty word is accepted, and dropping the epsilon nodes loses
      no move. */
  lemma StateRuns(a: Nfa, s: State, w: Word)
    requires Sane(a) && Right(a, s)
    ensures s.halt <==> Run(a, Nodes(s.nodes), [])
    ensures w != [] ==> (Run(a, Nodes(s.nodes), w) <==> Run(a, Nodes(s.nonEpsNodes), w))
  {
    if s.halt {
      var k :| 0 <= k < |s.nodes| && a.tokens[s.nodes[k]].EndOfRe?;
      assert s.nodes[k] in Nodes(s.nodes);
    }
    if w != [] {
      NonEpsilonMeans(a, s.nodes);
      assert Move(a, Nodes(s.nodes), w[0]) == Move(a, Nodes(s.nonEpsNodes), w[0]);
    }
  }

  lemma {:induction false} NonEpsilonMeans(a: Nfa, nodes: seq<int>)
    requires a.Valid() && InRange(a, nodes)
    ensures forall i :: i in NonEpsilon(a, nodes) <==> i in nodes && !a.IsEpsilon(i)
    decreases |nodes|
  {
    if nodes != [] {
      NonEpsilonMeans(a, Init(nodes));
      assert nodes == Init(nodes) + [Last(nodes)];
    }
  }

  class StateTable {
    const table: array<seq<State>>

    constructor (size: nat)
      requires 0 < size
      ensures fresh(table) && table.Length == size && forall a: Nfa :: Filed(a, table[..])
    {
      table := new seq<State>[size](_ => []);
    }

    /** re_acquire_state(): the one state for these nodes, null for none. */
    method AcquireState(nodes: seq<int>, a: Nfa) returns (s: State?)
      requires a.Valid() && Filed(a, table[..]) && InRange(a, nodes)
      modifies table
      ensures Filed(a, table[..])
      ensures s == null <==> nodes == []
      ensures s != null ==> s.nodes == nodes && Has(table[..], s)
      ensures table[..] == if nodes == [] || old(HasNodes(table[..], nodes)) then old(table[..]) else Filing(old(table[..]), s)
    {
      if |nodes| == 0 {
        return null;
      }
      var hash := CalcStateHash(nodes);
      var spot := hash % table.Length;
      for i := 0 to |table[spot]|
        invariant forall j | 0 <= j < i :: table[spot][j].nodes != nodes
      {
        var state := table[spot][i];
        assert Place(table[..], spot, i) && table[..][spot][i] == state;
        if hash == state.hash && state.nodes == nodes {
          return state;
        }
      }
      NotThere(a, table[..], nodes, spot);
      s := CreateState(nodes, hash, a);
      Register(s, a);
    }

    /** create_ci_newstate(): a character node has no bearing on the flags. */
    method CreateState(nodes: seq<int>, hash: int, a: Nfa) returns (s: State)
      requires a.Valid() && InRange(a, nodes) && nodes != [] && hash == HashOf(nodes)
      ensures fresh(s) && s.nodes == nodes && Right(a, s)
    {
      var halt, nonEps := false, [];
      for i := 0 to |nodes|
        invariant InRange(a, nodes[..i]) && halt == Halts(a, nodes[..i])
      {
        if a.tokens[nodes[i]].EndOfRe? {
          halt := true;
        }
        assert nodes[..i + 1][i] == nodes[i];
      }
      assert nodes[..|nodes|] == nodes;
      for i := 0 to |nodes|
        invariant InRange(a, nodes[..i]) && nonEps == NonEpsilon(a, nodes[..i])
      {
        assert Init(nodes[..i + 1]) == nodes[..i];
        if !a.IsEpsilon(nodes[i]) {
          nonEps := nonEps + [nodes[i]];
        }
      }
      s := new State(nodes, hash, halt, nonEps);
    }

    /** register_state(). */
    method Register(s: State, a: Nfa)
      requires Filed(a, table[..]) && Right(a, s) && !HasNodes(table[..], s.nodes)
      modifies table
      ensures table[..] == Filing(old(table[..]), s) && Filed(a, table[..]) && Has(table[..], s)
    {
      FiledMore(a, table[..], s);
      var spot := s.hash % table.Length;
      ghost var more := Filing(table[..], s);
      table[spot] := table[spot] + [s];
      assert table[..] == more;
    }
  }

  /** Only one bucket need be searched. */
  lemma NotThere(a: Nfa, table: seq<seq<State>>, nodes: seq<int>, b: int)
    requires Filed(a, table) && b == HashOf(nodes) % |table|
    requires forall i | 0 <= i < |table[b]| :: table[b][i].nodes != nodes
    ensures !HasNodes(table, nodes)
  {
  }
}
