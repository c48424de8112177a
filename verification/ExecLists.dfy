/** Doubly linked lists without special cases: the two ends of the list are nodes themselves. */
module ExecLists {
  import opened Sequences

  class Node {
    var next: Node?
    var prev: Node?

    constructor ()
    {
    }
  }

  function NodeAt(chain: seq<Node>, i: int): (n: Node?)
    ensures 0 <= i < |chain| ==> n == chain[i] && n != null
    ensures !(0 <= i < |chain|) ==> n == null
  {
    if 0 <= i < |chain| then chain[i] else null
  }

  /** Nodes linked both ways, each once; only the two ends have no neighbour. */
  ghost predicate Linked(chain: seq<Node>)
    reads chain
  {
    && (forall i, j | 0 <= i < j < |chain| :: chain[i] != chain[j])
    && (forall i | 0 <= i < |chain| :: NodeAt(chain, i).next == NodeAt(chain, i + 1))
    && (forall i | 0 <= i < |chain| :: NodeAt(chain, i).prev == NodeAt(chain, i - 1))
  }

  function With(chain: seq<Node>, k: nat, n: Node): seq<Node>
    requires k < |chain|
  {
    chain[..k + 1] + [n] + chain[k + 1..]
  }

  /** rem() needs no list: any node with two neighbours goes. */
  method Rem(n: Node, ghost chain: seq<Node>, ghost k: nat)
    requires Linked(chain) && 0 < k < |chain| - 1 && chain[k] == n
    modifies chain
    ensures Linked(Without(chain, k))
    ensures n.prev == old(n.prev) == chain[k - 1] && n.next == old(n.next) == chain[k + 1]
  {
    assert NodeAt(chain, k) == n && NodeAt(chain, k - 1) == chain[k - 1] && NodeAt(chain, k + 1) == chain[k + 1];
    n.prev.next := n.next;
    n.next.prev := n.prev;
    ghost var rest := Without(chain, k);
    assert forall i :: NodeAt(rest, i) == NodeAt(chain, if i < k then i else i + 1);
  }

  /** add(): any node but the last end is a valid place to add behind. */
  method Add(n: Node, pos: Node, ghost chain: seq<Node>, ghost k: nat)
    requires Linked(chain) && k < |chain| - 1 && chain[k] == pos && n !in chain
    modifies n, chain
    ensures Linked(With(chain, k, n))
  {
    assert NodeAt(chain, k) == pos && NodeAt(chain, k + 1) == chain[k + 1];
    n.next := pos.next;
    n.prev := pos;
    pos.next.prev := n;
    pos.next := n;
    ghost var more := With(chain, k, n);
    assert forall i {:trigger NodeAt(more, i)} :: NodeAt(more, i) == if i <= k then NodeAt(chain, i) else if i == k + 1 then n else NodeAt(chain, i - 1);
    forall i | 0 <= i < |more|
      ensures NodeAt(more, i).next == NodeAt(more, i + 1) && NodeAt(more, i).prev == NodeAt(more, i - 1)
    {
      if i != k + 1 {
        ghost var j := if i <= k then i else i - 1;
        assert NodeAt(more, i) == NodeAt(chain, j) == chain[j];
        assert old(NodeAt(chain, j).next) == NodeAt(chain, j + 1) && old(NodeAt(chain, j).prev) == NodeAt(chain, j - 1);
      }
    }
  }

  /** A node removed can be put back behind its old neighbour, which it still remembers. */
  method RemAndAdd(n: Node, ghost chain: seq<Node>, ghost k: nat)
    requires Linked(chain) && 0 < k < |chain| - 1 && chain[k] == n
    modifies chain
    ensures Linked(chain)
  {
    Rem(n, chain, k);
    ghost var rest := Without(chain, k);
    assert rest[k - 1] == chain[k - 1];
    assert forall i | 0 <= i < |rest| :: rest[i] == chain[if i < k then i else i + 1];
    Add(n, n.prev, rest, k - 1);
    assert With(rest, k - 1, n) == chain;
  }

  /** The list header, read as the two nodes it overlaps: `front` is the pair (head, tail) and
      `back` the pair (tail, tail_pred). */
  class List {
    const front: Node
    const back: Node
    ghost var nodes: seq<Node>

    ghost function Chain(): seq<Node>
      reads this
    {
      [front] + nodes + [back]
    }

    ghost predicate Valid()
      reads this, Chain()
    {
      Linked(Chain())
    }

    /** new_list(). */
    constructor ()
      ensures Valid() && nodes == [] && fresh(front) && fresh(back)
    {
      var f := new Node();
      var b := new Node();
      front, back, nodes := f, b, [];
      new;
      f.next, f.prev, b.next, b.prev := b, null, null, f;
    }

    /** add_head() is add() behind the front end. */
    method AddHead(n: Node)
      requires Valid() && n !in Chain()
      modifies this`nodes, n, Chain()
      ensures Valid() && nodes == [n] + old(nodes)
    {
      ghost var chain := Chain();
      assert NodeAt(chain, 0) == front && NodeAt(chain, 1) == chain[1];
      Add(n, front, chain, 0);
      nodes := [n] + nodes;
      assert Chain() == With(chain, 0, n);
    }

    /** add_tail() is add() behind the node before the back end. */
    method AddTail(n: Node)
      requires Valid() && n !in Chain()
      modifies this`nodes, n, Chain()
      ensures Valid() && nodes == old(nodes) + [n]
    {
      ghost var chain := Chain();
      ghost var last := |chain| - 1;
      assert NodeAt(chain, last) == back && NodeAt(chain, last - 1) == chain[last - 1];
      Add(n, back.prev, chain, last - 1);
      nodes := nodes + [n];
      assert Chain() == With(chain, last - 1, n);
    }

    /** nth_line_desc(): the way to the `n`-th node starts from the nearest of the two ends and the
        current node. */
    method Nth(n: int, count: int, cur: Node, curIndex: int) returns (r: Node?)
      requires Valid() && count == |nodes| && 0 <= curIndex < count && nodes[curIndex] == cur
      ensures r == if 0 <= n < count then nodes[n] else null
    {
      if n < 0 || n >= count {
        return null;
      }
      ghost var chain := Chain();
      var absolute := if n < count - 1 - n then n else count - 1 - n;
      var relative := if curIndex < n then n - curIndex else curIndex - n;
      if absolute < relative {
        if n < count / 2 {
          assert NodeAt(chain, 0) == front && NodeAt(chain, 1) == chain[1];
          r := Walk(front.next, n, true, 1);
        } else {
          assert NodeAt(chain, count + 1) == back && NodeAt(chain, count) == chain[count];
          r := Walk(back.prev, count - 1 - n, false, count);
        }
      } else if n < curIndex {
        r := Walk(cur, curIndex - n, false, curIndex + 1);
      } else {
        r := Walk(cur, n - curIndex, true, curIndex + 1);
      }
    }

    /** Follows `next` or `prev` a number of times. */
    method Walk(from: Node?, steps: int, onward: bool, ghost k: int) returns (r: Node)
      requires Valid() && 0 <= steps && 0 < k <= |nodes| && from == Chain()[k]
      requires if onward then k + steps <= |nodes| else k - steps > 0
      ensures r == Chain()[if onward then k + steps else k - steps]
    {
      r := from;
      for i := 0 to steps
        invariant r == Chain()[if onward then k + i else k - i]
      {
        ghost var at := if onward then k + i else k - i;
        assert NodeAt(Chain(), at) == r && NodeAt(Chain(), at + 1) == Chain()[at + 1] && NodeAt(Chain(), at - 1) == Chain()[at - 1];
        r := if onward then r.next else r.prev;
      }
    }
  }
}
