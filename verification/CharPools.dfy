/** Character pools: the memory in which the lines of a buffer live, and its allocation functions
    (src/buffer.c). A pool byte is free when it is zero. */
module CharPools {
  import opened Sequences
  import opened FlatText
  import opened Spans

  const STD_POOL_SIZE := 16 * 1024

  /** A block of memory. A pointer into a pool is a block and an offset. */
  type Block = array<byte>

  datatype CharPool = CharPool(pool: Block, size: int, firstUsed: int, lastUsed: int)

  /** `firstUsed` and `lastUsed` are the lowest and the highest byte that is used or lies in the
      reserved region `r`. */
  ghost predicate Tight(c: CharPool, data: seq<byte>, r: Span<Block>) {
    && 0 <= c.firstUsed <= c.lastUsed < c.size == |data|
    && (data[c.firstUsed] != 0 || In(r, c.pool, c.firstUsed))
    && (data[c.lastUsed] != 0 || In(r, c.pool, c.lastUsed))
    && (forall k | 0 <= k < c.firstUsed :: data[k] == 0 && !In(r, c.pool, k))
    && (forall k | c.lastUsed < k < |data| :: data[k] == 0 && !In(r, c.pool, k))
  }

  /** Every pool of the list has its block in `mem` and tight bounds. */
  ghost predicate AllTight(ps: seq<CharPool>, mem: Memory<Block>, r: Span<Block>) {
    ps == [] || (ps[0].pool in mem && Tight(ps[0], mem[ps[0].pool], r) && AllTight(ps[1..], mem, r))
  }

  ghost function Blocks(ps: seq<CharPool>): set<Block> {
    if ps == [] then {} else {ps[0].pool} + Blocks(ps[1..])
  }

  ghost predicate NoDup(ps: seq<CharPool>) {
    ps == [] || (ps[0].pool !in Blocks(ps[1..]) && NoDup(ps[1..]))
  }

  function Sizes(ps: seq<CharPool>): int {
    if ps == [] then 0 else ps[0].size + Sizes(ps[1..])
  }

  /** The list `ps` describes the memory `mem` exactly, `r` being a region handed out whose bytes
      need not be written yet. */
  ghost predicate PoolsOk(ps: seq<CharPool>, mem: Memory<Block>, r: Span<Block>) {
    && AllTight(ps, mem, r)
    && NoDup(ps)
    && Blocks(ps) == mem.Keys
    && Fits(mem, r)
  }

  lemma {:induction false} ListAppend(a: seq<CharPool>, b: seq<CharPool>, mem: Memory<Block>, r: Span<Block>)
    ensures Blocks(a + b) == Blocks(a) + Blocks(b)
    ensures NoDup(a + b) <==> NoDup(a) && NoDup(b) && Blocks(a) !! Blocks(b)
    ensures Sizes(a + b) == Sizes(a) + Sizes(b)
    ensures AllTight(a + b, mem, r) <==> AllTight(a, mem, r) && AllTight(b, mem, r)
  {
    if a == [] {
      assert a + b == b;
    } else {
      assert (a + b)[1..] == a[1..] + b;
      ListAppend(a[1..], b, mem, r);
    }
  }

  lemma ListCons(c: CharPool, ps: seq<CharPool>, mem: Memory<Block>, r: Span<Block>)
    ensures Blocks([c] + ps) == {c.pool} + Blocks(ps)
    ensures NoDup([c] + ps) <==> c.pool !in Blocks(ps) && NoDup(ps)
    ensures Sizes([c] + ps) == c.size + Sizes(ps)
    ensures AllTight([c] + ps, mem, r) <==> c.pool in mem && Tight(c, mem[c.pool], r) && AllTight(ps, mem, r)
  {
    assert ([c] + ps)[1..] == ps;
  }

  /** The bounds of a pool depend on its own bytes only. */
  lemma {:induction false} AllTightFrame(ps: seq<CharPool>, mem: Memory<Block>, r: Span<Block>, mem': Memory<Block>, r': Span<Block>)
    requires AllTight(ps, mem, r)
    requires forall b | b in Blocks(ps) && b in mem :: b in mem' && mem'[b] == mem[b]
    requires forall b, k | b in Blocks(ps) :: In(r, b, k) <==> In(r', b, k)
    ensures AllTight(ps, mem', r')
  {
    if ps != [] {
      AllTightFrame(ps[1..], mem, r, mem', r');
    }
  }

  lemma ListWithout(ps: seq<CharPool>, mem: Memory<Block>, i: int, r: Span<Block>)
    requires 0 <= i < |ps| && NoDup(ps) && AllTight(ps, mem, r)
    ensures var w := Without(ps, i);
      && NoDup(w) && AllTight(w, mem, r)
      && ps[i].pool in mem && Tight(ps[i], mem[ps[i].pool], r)
      && Blocks(w) == Blocks(ps) - {ps[i].pool} && ps[i].pool in Blocks(ps)
      && Sizes(ps) == ps[i].size + Sizes(w)
  {
    var a, m := ps[..i], ps[i..];
    assert ps == a + m && m == [ps[i]] + ps[i + 1..];
    ListAppend(a, m, mem, r);
    ListAppend(a, ps[i + 1..], mem, r);
    ListCons(ps[i], ps[i + 1..], mem, r);
  }

  /** The pool at `i`, with new bounds, becomes the head of the list. */
  function ToHead(ps: seq<CharPool>, i: int, c: CharPool): seq<CharPool>
    requires 0 <= i < |ps|
  {
    [c] + Without(ps, i)
  }

  /** Reserving `r` in pool `i` and moving that pool to the head. */
  lemma ReservedToHead(ps: seq<CharPool>, mem: Memory<Block>, i: int, c: CharPool, r: Span<Block>)
    requires PoolsOk(ps, mem, Empty) && 0 <= i < |ps|
    requires c.pool == ps[i].pool && c.size == ps[i].size && r.At? && r.p == c.pool && Fits(mem, r)
    requires Tight(c, mem[c.pool], r)
    ensures PoolsOk(ToHead(ps, i, c), mem, r)
    ensures Sizes(ToHead(ps, i, c)) == Sizes(ps)
  {
    ListWithout(ps, mem, i, Empty);
    AllTightFrame(Without(ps, i), mem, Empty, mem, r);
    ListCons(c, Without(ps, i), mem, r);
  }

  /** What reserving `len` bytes in front of, or behind, the used part of pool `i` gives. */
  lemma ReserveAtEdge(ps: seq<CharPool>, mem: Memory<Block>, i: int, c: CharPool, r: Span<Block>)
    requires PoolsOk(ps, mem, Empty) && 0 <= i < |ps|
    requires r.At? && 0 < r.len && r.p == ps[i].pool
    requires
      || (c == ps[i].(firstUsed := r.off) && r.len <= ps[i].firstUsed && r.off + r.len == ps[i].firstUsed)
      || (c == ps[i].(lastUsed := r.off + r.len - 1) && r.off == ps[i].lastUsed + 1 && Fits(mem, r))
    ensures PoolsOk(ToHead(ps, i, c), mem, r)
    ensures Sizes(ToHead(ps, i, c)) == Sizes(ps)
    ensures forall k | r.off <= k < r.off + r.len :: mem[r.p][k] == 0
  {
    ListWithout(ps, mem, i, Empty);
    ReservedToHead(ps, mem, i, c, r);
  }

  /** What linking a zeroed pool and reserving its first `len` bytes gives. */
  lemma AddedPool(ps: seq<CharPool>, mem: Memory<Block>, b: Block, data: seq<byte>, len: int)
    requires PoolsOk(ps, mem, Empty) && b !in mem
    requires 0 < len <= |data| && forall k | 0 <= k < |data| :: data[k] == 0
    ensures PoolsOk([CharPool(b, |data|, 0, len - 1)] + ps, mem[b := data], At(b, 0, len))
    ensures Sizes([CharPool(b, |data|, 0, len - 1)] + ps) == |data| + Sizes(ps)
    ensures Grown(mem, mem[b := data])
  {
    var c, mem', r := CharPool(b, |data|, 0, len - 1), mem[b := data], At(b, 0, len);
    AllTightFrame(ps, mem, Empty, mem', r);
    assert Tight(c, data, r);
    ListCons(c, ps, mem', r);
  }

  /** New bounds, or new bytes, for the pool at `i`. */
  lemma UpdatedPool(ps: seq<CharPool>, mem: Memory<Block>, r: Span<Block>, i: int, c: CharPool, data: seq<byte>, r': Span<Block>)
    requires PoolsOk(ps, mem, r) && 0 <= i < |ps| && c.pool == ps[i].pool && c.size == ps[i].size
    requires r.At? ==> r.p == c.pool
    requires Fits(mem[c.pool := data], r') && (r'.At? ==> r'.p == c.pool)
    requires Tight(c, data, r')
    ensures PoolsOk(ps[i := c], mem[c.pool := data], r')
    ensures Sizes(ps[i := c]) == Sizes(ps)
  {
    var mem' := mem[c.pool := data];
    var a, t := ps[..i], ps[i..];
    assert ps == a + t && t == [ps[i]] + ps[i + 1..];
    assert ps[i := c] == a + ([c] + ps[i + 1..]);
    ListAppend(a, t, mem, r);
    ListCons(ps[i], ps[i + 1..], mem, r);
    AllTightFrame(a, mem, r, mem', r');
    AllTightFrame(ps[i + 1..], mem, r, mem', r');
    ListCons(c, ps[i + 1..], mem', r');
    ListAppend(a, [c] + ps[i + 1..], mem', r');
  }

  /** A pool without used bytes leaves the list and the memory. */
  lemma RemovedPool(ps: seq<CharPool>, mem: Memory<Block>, i: int)
    requires PoolsOk(ps, mem, Empty) && 0 <= i < |ps|
    ensures PoolsOk(Without(ps, i), mem - {ps[i].pool}, Empty)
    ensures Sizes(Without(ps, i)) == Sizes(ps) - ps[i].size
  {
    ListWithout(ps, mem, i, Empty);
    AllTightFrame(Without(ps, i), mem, Empty, mem - {ps[i].pool}, Empty);
  }

  /** `t` put over the bytes from `at` on. */
  function Blit(s: seq<byte>, at: int, t: seq<byte>): (r: seq<byte>)
    requires 0 <= at && at + |t| <= |s|
    ensures |r| == |s|
    ensures forall k | 0 <= k < |s| :: r[k] == if at <= k < at + |t| then t[k - at] else s[k]
  {
    s[..at] + t + s[at + |t|..]
  }

  /** The memory with `t` copied to the bytes of block `b` from `at` on. */
  function Put(mem: Memory<Block>, b: Block, at: int, t: seq<byte>): (mem': Memory<Block>)
    requires b in mem && 0 <= at && at + |t| <= |mem[b]|
    ensures mem'.Keys == mem.Keys && |mem'[b]| == |mem[b]|
  {
    mem[b := Blit(mem[b], at, t)]
  }

  /** `s` with `b` more bytes in front of it and `a` more behind it. */
  function Around(s: Span<Block>, b: int, a: int): Span<Block>
    requires s.At?
  {
    At(s.p, s.off - b, s.len + b + a)
  }

  /** There are `b` free bytes right in front of `s` and `a` right behind it. */
  ghost predicate RoomAround(mem: Memory<Block>, s: Span<Block>, b: int, a: int)
    requires s.At? && Fits(mem, s)
  {
    && 0 <= s.off - b && s.off + s.len + a <= |mem[s.p]|
    && (forall k | s.off - b <= k < s.off :: mem[s.p][k] == 0)
    && (forall k | s.off + s.len <= k < s.off + s.len + a :: mem[s.p][k] == 0)
  }

  lemma NoRoomAround(mem: Memory<Block>, s: Span<Block>, b: int, a: int, n: int)
    requires s.At? && Fits(mem, s) && 0 <= b && 0 <= a && b + a < n
    requires s.off == b || (b < s.off && mem[s.p][s.off - b - 1] != 0)
    requires s.off + s.len + a == |mem[s.p]| || (s.off + s.len + a < |mem[s.p]| && mem[s.p][s.off + s.len + a] != 0)
    ensures forall b', a' | 0 <= b' && 0 <= a' && b' + a' == n :: !RoomAround(mem, s, b', a')
  {
    forall b', a' | 0 <= b' && 0 <= a' && b' + a' == n
      ensures !RoomAround(mem, s, b', a')
    {
      assert b' > b || a' > a;
    }
  }

  lemma ReservedAround(ps: seq<CharPool>, mem: Memory<Block>, i: int, s: Span<Block>, b: int, a: int, c: CharPool)
    requires PoolsOk(ps, mem, Empty) && 0 <= i < |ps|
    requires s.At? && s.p == ps[i].pool && Owns(mem, s)
    requires 0 <= b && 0 <= a && RoomAround(mem, s, b, a)
    requires c.pool == s.p && c.size == ps[i].size
    requires c.firstUsed == if ps[i].firstUsed == s.off then s.off - b else ps[i].firstUsed
    requires c.lastUsed == if ps[i].lastUsed == s.off + s.len - 1 then s.off + s.len - 1 + a else ps[i].lastUsed
    ensures PoolsOk(ps[i := c], mem, Around(s, b, a))
    ensures Sizes(ps[i := c]) == Sizes(ps)
  {
    ListWithout(ps, mem, i, Empty);
    var data := mem[s.p];
    assert mem[s.p := data] == mem;
    assert data[s.off] != 0 && data[s.off + s.len - 1] != 0;
    UpdatedPool(ps, mem, Empty, i, c, data, Around(s, b, a));
  }

  /** Bytes written inside a reserved region leave the bounds tight. */
  lemma BlitInRegion(ps: seq<CharPool>, mem: Memory<Block>, r: Span<Block>, at: int, t: seq<byte>)
    requires PoolsOk(ps, mem, r) && r.At? && r.off <= at && at + |t| <= r.off + r.len
    ensures PoolsOk(ps, Put(mem, r.p, at, t), r)
  {
    var i := PoolOf(ps, mem, r);
    var c, data := ps[i], Blit(mem[r.p], at, t);
    assert forall k | 0 <= k < |data| && !In(r, c.pool, k) :: data[k] == mem[r.p][k];
    UpdatedPool(ps, mem, r, i, c, data, r);
    assert ps[i := c] == ps;
  }

  lemma {:induction false} FindPool(ps: seq<CharPool>, b: Block) returns (i: int)
    requires b in Blocks(ps)
    ensures 0 <= i < |ps| && ps[i].pool == b
  {
    if ps[0].pool == b {
      i := 0;
    } else {
      i := FindPool(ps[1..], b);
      i := i + 1;
    }
  }

  lemma PoolOf(ps: seq<CharPool>, mem: Memory<Block>, r: Span<Block>) returns (i: int)
    requires PoolsOk(ps, mem, r) && r.At?
    ensures 0 <= i < |ps| && ps[i].pool == r.p && Tight(ps[i], mem[r.p], r)
  {
    i := FindPool(ps, r.p);
    ListWithout(ps, mem, i, r);
  }

  /** A region all of whose bytes have been written needs no reservation any more. */
  lemma Settled(ps: seq<CharPool>, mem: Memory<Block>, r: Span<Block>)
    requires PoolsOk(ps, mem, r) && r.At? && Owns(mem, r)
    ensures PoolsOk(ps, mem, Empty)
  {
    var i := PoolOf(ps, mem, r);
    assert mem[r.p := mem[r.p]] == mem;
    UpdatedPool(ps, mem, r, i, ps[i], mem[r.p], Empty);
    assert ps[i := ps[i]] == ps;
  }

  lemma PoolListed(ps: seq<CharPool>, mem: Memory<Block>, s: Span<Block>)
    requires PoolsOk(ps, mem, Empty) && s.At? && Fits(mem, s)
    ensures s.p in Blocks(ps)
  {
  }

  lemma EndsUsed(ps: seq<CharPool>, mem: Memory<Block>, i: int, s: Span<Block>)
    requires PoolsOk(ps, mem, Empty) && 0 <= i < |ps|
    requires s.At? && s.p == ps[i].pool && Owns(mem, s)
    ensures 0 <= ps[i].firstUsed <= s.off && s.off + s.len - 1 <= ps[i].lastUsed < |mem[s.p]|
    ensures mem[s.p][ps[i].firstUsed] != 0 && mem[s.p][ps[i].lastUsed] != 0
    ensures Tight(ps[i], mem[s.p], Empty)
  {
    ListWithout(ps, mem, i, Empty);
    assert mem[s.p][s.off] != 0 && mem[s.p][s.off + s.len - 1] != 0;
  }

  /** No byte of `r` is used in `mem`. */
  ghost predicate FreeIn(mem: Memory<Block>, r: Span<Block>) {
    forall p, k | p in mem && Used(mem, p, k) :: !In(r, p, k)
  }

  /** A write confined to a region that has just been handed out. */
  lemma RegionWritten(mem: Memory<Block>, mem1: Memory<Block>, r: Span<Block>, d: seq<byte>, t: seq<byte>)
    requires Grown(mem, mem1) && r.At? && Fits(mem1, r)
    requires |d| == |mem1[r.p]| && d[r.off..r.off + r.len] == t && NoNul(t)
    requires forall k | 0 <= k < |d| && !In(r, r.p, k) :: d[k] == mem1[r.p][k]
    ensures Written(mem, mem1[r.p := d], r, t) && Owns(mem1[r.p := d], r)
  {
    forall k | r.off <= k < r.off + r.len
      ensures d[k] != 0
    {
      assert d[k] == t[k - r.off];
    }
  }

  /** The copies that put `t` into the middle of a line grown by `b` bytes in front and `a` bytes
      behind: first the two parts of the line move apart. */
  lemma GrownBytes(d: seq<byte>, off: int, l: seq<byte>, pos: int, t: seq<byte>, b: int, a: int)
    requires 0 <= b && 0 <= a && b + a == |t| && 0 <= pos <= |l|
    requires 0 <= off - b && off + |l| + a <= |d| && d[off..off + |l|] == l
    ensures var d1 := Blit(d, off - b, l[..pos]); d1[off + pos..off + |l|] == l[pos..]
    ensures var d3 := Blit(Blit(Blit(d, off - b, l[..pos]), off + pos + a, l[pos..]), off - b + pos, t);
      && d3[off - b..off + |l| + a] == Splice(l, pos, t)
      && (forall k | 0 <= k < |d| && !(off - b <= k < off + |l| + a) :: d3[k] == d[k])
  {
    hide Blit;
    var d1 := Blit(d, off - b, l[..pos]);
    forall k | pos <= k < |l|
      ensures d1[off + k] == l[k]
    {
      assert d[off..off + |l|][k] == l[k];
    }
    var d3 := Blit(Blit(d1, off + pos + a, l[pos..]), off - b + pos, t);
    var m := Splice(l, pos, t);
    forall k | 0 <= k < |m|
      ensures d3[off - b + k] == m[k]
    {
      assert m[k] == if k < pos then l[k] else if k < pos + |t| then t[k - pos] else l[k - |t|];
      if k >= pos + |t| {
        assert d3[off - b + k] == l[pos..][k - |t| - pos];
      }
    }
  }

  /** The same for the memory. */
  lemma SplicedInPlace(m0: Memory<Block>, s: Span<Block>, pos: int, t: seq<byte>, a: int)
    requires s.At? && Owns(m0, s) && 0 <= pos <= s.len && 0 <= a <= |t|
    requires t != [] && NoNul(t) && RoomAround(m0, s, |t| - a, a)
    ensures var m1 := Put(m0, s.p, s.off - (|t| - a), Bytes(m0, s)[0..pos]);
            var m2 := Put(m1, s.p, s.off + pos + a, Bytes(m1, s)[pos..s.len]);
            var m3 := Put(m2, s.p, s.off - (|t| - a) + pos, t);
      && Written(m0, m3, Around(s, |t| - a, a), Splice(Bytes(m0, s), pos, t))
      && Owns(m3, Around(s, |t| - a, a))
  {
    hide Blit, NoNul, Written, Put, Splice, RoomAround;
    var l, d, b := Bytes(m0, s), m0[s.p], |t| - a;
    RegionSpliced(m0, s, pos, t, a);
    var d1 := Blit(d, s.off - b, l[..pos]);
    var d2 := Blit(d1, s.off + pos + a, l[pos..]);
    assert l[0..pos] == l[..pos];
    PutIs(m0, s.p, s.off - b, l[..pos]);
    var m1 := m0[s.p := d1];
    assert Bytes(m1, s)[pos..s.len] == d1[s.off + pos..s.off + |l|] == l[pos..];
    PutIs(m1, s.p, s.off + pos + a, l[pos..]);
    var m2 := m0[s.p := d2];
    assert m1[s.p := d2] == m2;
    PutIs(m2, s.p, s.off - b + pos, t);
    assert m2[s.p := Blit(d2, s.off - b + pos, t)] == m0[s.p := Blit(d2, s.off - b + pos, t)];
  }

  lemma RegionSpliced(m0: Memory<Block>, s: Span<Block>, pos: int, t: seq<byte>, a: int)
    requires s.At? && Owns(m0, s) && 0 <= pos <= s.len && 0 <= a <= |t|
    requires t != [] && NoNul(t) && RoomAround(m0, s, |t| - a, a)
    ensures var l, d, b := Bytes(m0, s), m0[s.p], |t| - a;
      && |l| == s.len && 0 <= s.off - b && s.off + |l| + a <= |d|
      && var d1 := Blit(d, s.off - b, l[..pos]);
         var d3 := Blit(Blit(d1, s.off + pos + a, l[pos..]), s.off - b + pos, t);
         && d1[s.off + pos..s.off + |l|] == l[pos..]
         && Written(m0, m0[s.p := d3], Around(s, b, a), Splice(l, pos, t))
         && Owns(m0[s.p := d3], Around(s, b, a))
  {
    hide Blit, NoNul, Written, Splice;
    var l, d, b := Bytes(m0, s), m0[s.p], |t| - a;
    LineNoNul(m0, s);
    GrownBytes(d, s.off, l, pos, t, b, a);
    SpliceNoNul(l, pos, t);
    var d3 := Blit(Blit(Blit(d, s.off - b, l[..pos]), s.off + pos + a, l[pos..]), s.off - b + pos, t);
    RegionWritten(m0, m0, Around(s, b, a), d3, Splice(l, pos, t));
  }

  lemma PutIs(mem: Memory<Block>, b: Block, at: int, t: seq<byte>)
    requires b in mem && 0 <= at && at + |t| <= |mem[b]|
    ensures Put(mem, b, at, t) == mem[b := Blit(mem[b], at, t)]
  {
  }

  lemma SpliceNoNul(l: seq<byte>, pos: int, t: seq<byte>)
    requires 0 <= pos <= |l| && NoNul(l) && NoNul(t)
    ensures NoNul(Splice(l, pos, t))
  {
  }

  lemma BlitBlit(d: seq<byte>, at: int, x: seq<byte>, y: seq<byte>)
    requires 0 <= at && at + |x| + |y| <= |d|
    ensures Blit(Blit(d, at, x), at + |x|, y) == Blit(d, at, x + y)
  {
  }

  /** The copies that put `x`, `y` and `z` one after the other into fresh characters. */
  lemma PlacedInTurn(m0: Memory<Block>, m1: Memory<Block>, r: Span<Block>, x: seq<byte>, y: seq<byte>, z: seq<byte>)
    requires Grown(m0, m1) && r.At? && Fits(m1, r) && r.len == |x| + |y| + |z|
    requires NoNul(x + y + z)
    ensures var m4 := Put(Put(Put(m1, r.p, r.off, x), r.p, r.off + |x|, y), r.p, r.off + |x| + |y|, z);
      Written(m0, m4, r, x + y + z) && Owns(m4, r)
  {
    var d, t := m1[r.p], x + y + z;
    var m4 := Put(Put(Put(m1, r.p, r.off, x), r.p, r.off + |x|, y), r.p, r.off + |x| + |y|, z);
    BlitBlit(d, r.off, x, y);
    BlitBlit(d, r.off, x + y, z);
    assert m4 == m1[r.p := Blit(d, r.off, t)];
    assert Blit(d, r.off, t)[r.off..r.off + r.len] == t;
    RegionWritten(m0, m1, r, Blit(d, r.off, t), t);
  }

  /** A line is not changed by writing into a region that was free. */
  lemma CopiedFrom(mem: Memory<Block>, r: Span<Block>, s: Span<Block>, x: seq<byte>, y: seq<byte>)
    requires s.At? && Owns(mem, s) && r.At? && Fits(mem, r) && |x| + |y| <= r.len
    requires forall k | r.off <= k < r.off + r.len :: mem[r.p][k] == 0
    ensures var m1 := Put(mem, r.p, r.off, x); var m2 := Put(m1, r.p, r.off + |x|, y);
      Fits(m1, s) && Bytes(m1, s) == Bytes(mem, s) && Fits(m2, s) && Bytes(m2, s) == Bytes(mem, s)
  {
    if s.p == r.p {
      forall k | r.off <= k < r.off + r.len
        ensures mem[r.p][k] == 0 && !(s.off <= k < s.off + s.len)
      {
      }
    }
  }

  lemma GrownKeeps(m0: Memory<Block>, m1: Memory<Block>, s: Span<Block>)
    requires Grown(m0, m1) && Fits(m0, s) && Owns(m0, s)
    ensures Fits(m1, s) && Owns(m1, s) && Bytes(m1, s) == Bytes(m0, s)
  {
  }

  lemma GrownFree(m0: Memory<Block>, m1: Memory<Block>, r: Span<Block>)
    requires Grown(m0, m1) && r.At? && Fits(m1, r)
    requires forall k | r.off <= k < r.off + r.len :: m1[r.p][k] == 0
    ensures FreeIn(m0, r)
  {
  }

  /** The copies that relocate the line `s` with `t` put in at `pos`. */
  lemma PlacedSpliced(m0: Memory<Block>, m1: Memory<Block>, r: Span<Block>, s: Span<Block>, pos: int, t: seq<byte>)
    requires Grown(m0, m1) && s.At? && Fits(m0, s) && Owns(m0, s) && 0 <= pos <= s.len && NoNul(t)
    requires r.At? && Fits(m1, r) && r.len == s.len + |t|
    requires forall k | r.off <= k < r.off + r.len :: m1[r.p][k] == 0
    ensures Fits(m1, s)
    ensures var m2 := Put(m1, r.p, r.off, Bytes(m1, s)[0..pos]);
            var m3 := Put(m2, r.p, r.off + pos, t);
            Fits(m3, s) &&
            var m4 := Put(m3, r.p, r.off + pos + |t|, Bytes(m3, s)[pos..s.len]);
      Written(m0, m4, r, Splice(Bytes(m0, s), pos, t)) && Fits(m4, r) && Owns(m4, r)
  {
    hide Put, Written, Owns, Grown;
    var l := Bytes(m0, s);
    var x, z := l[0..pos], l[pos..s.len];
    assert x + t + z == Splice(l, pos, t);
    GrownKeeps(m0, m1, s);
    CopiedFrom(m1, r, s, x, t);
    LineNoNul(m0, s);
    SpliceNoNul(l, pos, t);
    PlacedInTurn(m0, m1, r, x, t, z);
  }

  lemma LineNoNul(mem: Memory<Block>, s: Span<Block>)
    requires Fits(mem, s) && Owns(mem, s)
    ensures NoNul(Bytes(mem, s))
  {
  }

  /** A line may be taken for a reserved region. */
  lemma Unsettled(ps: seq<CharPool>, mem: Memory<Block>, s: Span<Block>)
    requires PoolsOk(ps, mem, Empty) && s.At? && Fits(mem, s) && Owns(mem, s)
    ensures PoolsOk(ps, mem, s)
  {
    var i := FindPool(ps, s.p);
    ListWithout(ps, mem, i, Empty);
    assert mem[s.p := mem[s.p]] == mem;
    assert forall k | s.off <= k < s.off + s.len :: mem[s.p][k] != 0;
    assert forall k | In(s, s.p, k) :: mem[s.p][k] != 0;
    UpdatedPool(ps, mem, Empty, i, ps[i], mem[s.p], s);
    assert ps[i := ps[i]] == ps;
  }

  lemma MovedInLine(m0: Memory<Block>, s: Span<Block>, at: int, i: int, j: int)
    requires s.At? && Fits(m0, s) && Owns(m0, s)
    requires 0 <= i <= j <= s.len && 0 <= at && at + j - i <= s.len
    ensures var m1 := Put(m0, s.p, s.off + at, Bytes(m0, s)[i..j]);
      Written(m0, m1, s, Blit(Bytes(m0, s), at, Bytes(m0, s)[i..j])) && Fits(m1, s) && Owns(m1, s)
  {
    var l := Bytes(m0, s);
    var d := Blit(m0[s.p], s.off + at, l[i..j]);
    assert d[s.off..s.off + s.len] == Blit(l, at, l[i..j]);
    LineNoNul(m0, s);
    assert Grown(m0, m0);
    RegionWritten(m0, m0, s, d, Blit(l, at, l[i..j]));
  }

  /** Freeing `s` when nothing else in its pool is used. */
  lemma FreedWhole(ps: seq<CharPool>, mem: Memory<Block>, i: int, s: Span<Block>, data: seq<byte>)
    requires PoolsOk(ps, mem, Empty) && 0 <= i < |ps|
    requires s.At? && s.p == ps[i].pool && Owns(mem, s) && data == Blit(mem[s.p], s.off, seq(s.len, _ => 0))
    requires forall k | 0 <= k < |data| :: data[k] == 0
    ensures PoolsOk(Without(ps, i), mem - {s.p}, Empty) && Erased(mem, mem - {s.p}, s)
    ensures Sizes(Without(ps, i)) == Sizes(ps) - ps[i].size
  {
    ListWithout(ps, mem, i, Empty);
    RemovedPool(ps, mem, i);
  }

  /** Freeing `s` when other bytes of its pool are used; `first` and `last` are the new bounds. */
  lemma FreedPart(ps: seq<CharPool>, mem: Memory<Block>, i: int, s: Span<Block>, data: seq<byte>, first: int, last: int)
    requires PoolsOk(ps, mem, Empty) && 0 <= i < |ps|
    requires s.At? && s.p == ps[i].pool && Owns(mem, s) && data == Blit(mem[s.p], s.off, seq(s.len, _ => 0))
    requires Tight(ps[i].(firstUsed := first, lastUsed := last), data, Empty)
    ensures var ps' := ps[i := ps[i].(firstUsed := first, lastUsed := last)];
      PoolsOk(ps', mem[s.p := data], Empty) && Erased(mem, mem[s.p := data], s) && Sizes(ps') == Sizes(ps)
  {
    UpdatedPool(ps, mem, Empty, i, ps[i].(firstUsed := first, lastUsed := last), data, Empty);
  }

  lemma TightSays(c: CharPool, d: seq<byte>)
    requires Tight(c, d, Empty)
    ensures 0 <= c.firstUsed <= c.lastUsed < |d| && d[c.firstUsed] != 0 && d[c.lastUsed] != 0
  {
  }

  /** Bounds that were moved inwards over free bytes are tight again, or nothing is used. */
  lemma Trimmed(c: CharPool, d: seq<byte>, d': seq<byte>, first: int, last: int)
    requires Tight(c, d, Empty) && |d'| == |d| && c.firstUsed <= first && last <= c.lastUsed
    requires forall k | 0 <= k < |d| && d[k] == 0 :: d'[k] == 0
    requires forall k | c.firstUsed <= k < first && k < |d| :: d'[k] == 0
    requires forall k | last < k <= c.lastUsed && 0 <= k :: d'[k] == 0
    requires first <= last ==> d'[first] != 0 && d'[last] != 0
    ensures first <= last ==> Tight(c.(firstUsed := first, lastUsed := last), d', Empty)
    ensures last < first ==> forall k | 0 <= k < |d| :: d'[k] == 0
  {
  }

  lemma OnePool(c: CharPool, mem: Memory<Block>)
    requires c.pool in mem && mem.Keys == {c.pool} && Tight(c, mem[c.pool], Empty)
    ensures PoolsOk([c], mem, Empty) && Sizes([c]) == c.size
  {
    assert [c][1..] == [];
  }

  /** The list of character pools of a buffer with its two counters. */
  class PoolList {
    var pools: seq<CharPool>
    var allocatedChars: int
    var freeChars: int
    ghost var mem: Memory<Block>  // the blocks of the pools with their contents
    ghost var gone: nat           // bytes still counted of a pool that was given back on loading

    constructor ()
      ensures Valid(Empty) && pools == [] && Live() == 0 && mem == map[] && gone == 0
    {
      pools, allocatedChars, freeChars, mem, gone := [], 0, 0, map[], 0;
    }

    /** A list of one pool, that a file was loaded into. Without a used byte the pool is given back,
        but the counters stay as they are. */
    constructor OfFile(pool: Block, freeChars: int, kept: bool, firstUsed: int, lastUsed: int)
      requires kept ==> Tight(CharPool(pool, pool.Length, firstUsed, lastUsed), pool[..], Empty)
      ensures Valid(Empty) && Live() == pool.Length - freeChars
      ensures mem == (if kept then map[pool := pool[..]] else map[]) && gone == (if kept then 0 else pool.Length)
    {
      pools := if kept then [CharPool(pool, pool.Length, firstUsed, lastUsed)] else [];
      allocatedChars, this.freeChars := pool.Length, freeChars;
      mem := if kept then map[pool := pool[..]] else map[];
      gone := if kept then 0 else pool.Length;
      new;
      if kept {
        OnePool(pools[0], mem);
      }
    }

    /** The number of bytes handed out and not freed. */
    ghost function Live(): int
      reads this
    {
      allocatedChars - freeChars
    }

    ghost predicate Valid(r: Span<Block>)
      reads this, mem.Keys
    {
      && PoolsOk(pools, mem, r) && Fits(mem, r)
      && allocatedChars == Sizes(pools) + gone
      && Synced()
    }

    ghost predicate Synced()
      reads this, mem.Keys
    {
      forall b | b in mem :: b[..] == mem[b]
    }

    /** Tries the i-th pool: before its first used byte, then after its last one. */
    method AllocIn(i: int, len: int) returns (r: Span<Block>)
      requires Valid(Empty) && 0 < len && 0 <= i < |pools|
      modifies this`pools, this`freeChars
      ensures Valid(r)
      ensures r.At? ==> r.len == len && Live() == old(Live()) + len
      ensures r.At? ==> forall k | r.off <= k < r.off + r.len :: mem[r.p][k] == 0
      ensures r.Empty? ==> pools == old(pools) && Live() == old(Live())
    {
      var c := pools[i];
      var c';
      ListWithout(pools, mem, i, Empty);
      if c.firstUsed >= len {
        c' := c.(firstUsed := c.firstUsed - len);
        r := At(c.pool, c'.firstUsed, len);
      } else if c.size - c.lastUsed > len {
        c' := c.(lastUsed := c.lastUsed + len);
        r := At(c.pool, c'.lastUsed - len + 1, len);
      } else {
        return Empty;
      }
      ReserveAtEdge(pools, mem, i, c', r);
      pools, freeChars := ToHead(pools, i, c'), freeChars - len;
    }

    /** Links a new pool with room for `len` bytes, which are handed out. */
    method AddPool(len: int) returns (r: Span<Block>)
      requires Valid(Empty) && 0 < len
      modifies this
      ensures Valid(r) && r.At? && r.len == len
      ensures forall k | r.off <= k < r.off + r.len :: mem[r.p][k] == 0
      ensures Live() == old(Live()) + len
      ensures Grown(old(mem), mem) && fresh(mem.Keys - old(mem.Keys))
    {
      hide PoolsOk, Grown;
      var size := if len < STD_POOL_SIZE then STD_POOL_SIZE else len;
      var b := new byte[size](_ => 0);
      AddedPool(pools, mem, b, b[..], len);
      pools, mem := [CharPool(b, size, 0, len - 1)] + pools, mem[b := b[..]];
      allocatedChars, freeChars := allocatedChars + size, freeChars + size - len;
      r := At(b, 0, len);
    }

    /** Allocates in the first pool that has the room, which moves to the head of the list, or
        in a new pool. */
    method AllocChars(len: int) returns (r: Span<Block>)
      requires Valid(Empty) && 0 < len
      modifies this
      ensures Valid(r) && r.At? && r.len == len
      ensures forall k | r.off <= k < r.off + r.len :: mem[r.p][k] == 0
      ensures Live() == old(Live()) + len
      ensures Grown(old(mem), mem) && fresh(mem.Keys - old(mem.Keys))
    {
      for i := 0 to |pools|
        invariant Valid(Empty) && pools == old(pools) && mem == old(mem)
        invariant Live() == old(Live())
      {
        r := AllocIn(i, len);
        if r.At? {
          return;
        }
      }
      r := AddPool(len);
    }

    /** The position in the list of the pool a pointer points into. */
    method GetCharPool(b: Block) returns (i: int)
      requires b in Blocks(pools)
      ensures 0 <= i < |pools| && pools[i].pool == b
    {
      i := 0;
      while pools[i].pool != b
        invariant 0 <= i < |pools| && b in Blocks(pools[i..])
        decreases |pools| - i
      {
        assert pools[i..][1..] == pools[i + 1..];
        i := i + 1;
      }
    }

    /** Walks over the free bytes on both sides of a line, up to `n` in all. */
    method ScanAround(s: Span<Block>, n: int, checkFirstBefore: bool) returns (b: int, a: int)
      requires Synced() && s.At? && Fits(mem, s) && 0 < n
      ensures 0 <= b && 0 <= a && b + a <= n && RoomAround(mem, s, b, a)
      ensures b + a < n ==> forall b', a' | 0 <= b' && 0 <= a' && b' + a' == n :: !RoomAround(mem, s, b', a')
    {
      var pool := s.p;
      var before, after := s.off - 1, s.off + s.len;
      if checkFirstBefore {
        while before >= 0 && pool[before] == 0 && s.off - 1 - before < n
          invariant -1 <= before < s.off && s.off - 1 - before <= n
          invariant forall k | before < k < s.off :: pool[k] == 0
        {
          before := before - 1;
        }
      }
      while after < pool.Length && pool[after] == 0 && after - (s.off + s.len) + (s.off - 1 - before) < n
        invariant s.off + s.len <= after <= pool.Length && after - (s.off + s.len) + (s.off - 1 - before) <= n
        invariant forall k | s.off + s.len <= k < after :: pool[k] == 0
      {
        after := after + 1;
      }
      if !checkFirstBefore {
        while before >= 0 && pool[before] == 0 && after - (s.off + s.len) + (s.off - 1 - before) < n
          invariant -1 <= before < s.off && after - (s.off + s.len) + (s.off - 1 - before) <= n
          invariant forall k | before < k < s.off :: pool[k] == 0
        {
          before := before - 1;
        }
      }
      b, a := s.off - 1 - before, after - (s.off + s.len);
      if b + a < n {
        NoRoomAround(mem, s, b, a, n);
      }
    }

    /** Allocates `n` bytes in the free bytes around the line `s`; the result is how many of them
        lie behind it, or -1 when there are not enough. */
    method AllocCharsAround(s: Span<Block>, n: int, checkFirstBefore: bool) returns (result: int)
      requires Valid(Empty) && s.At? && Fits(mem, s) && Owns(mem, s) && 0 < n
      modifies this`pools, this`freeChars
      ensures -1 <= result <= n
      ensures result < 0 ==> Valid(Empty) && Live() == old(Live())
      ensures result < 0 ==> forall b, a | 0 <= b && 0 <= a && b + a == n :: !RoomAround(mem, s, b, a)
      ensures result >= 0 ==> RoomAround(mem, s, n - result, result)
      ensures result >= 0 ==> Valid(Around(s, n - result, result)) && Live() == old(Live()) + n
    {
      hide PoolsOk, RoomAround, Owns, Around;
      PoolListed(pools, mem, s);
      var i := GetCharPool(s.p);
      var b, a := ScanAround(s, n, checkFirstBefore);
      if b + a != n {
        return -1;
      }
      var c := pools[i];
      var c' := c.(firstUsed := if c.firstUsed == s.off then s.off - b else c.firstUsed,
                   lastUsed := if c.lastUsed == s.off + s.len - 1 then s.off + s.len - 1 + a else c.lastUsed);
      ReservedAround(pools, mem, i, s, b, a, c');
      pools, freeChars := pools[i := c'], freeChars - n;
      result := a;
      assert Valid(Around(s, b, a));
    }

    /** Copies `t` to the bytes from `at` on, inside the reserved region `r`. */
    method CopyIn(b: Block, at: int, t: seq<byte>, ghost r: Span<Block>)
      requires Valid(r) && r.At? && r.p == b && r.off <= at && at + |t| <= r.off + r.len
      modifies this`mem, b
      ensures Valid(r) && mem == Put(old(mem), b, at, t)
    {
      hide PoolsOk;
      BlitInRegion(pools, mem, r, at, t);
      forall k | 0 <= k < |t| {
        b[at + k] := t[k];
      }
      mem := Put(mem, b, at, t);
      assert b[..] == mem[b];
    }

    /** Copies the bytes of `s` from `i` up to `j` to another place, which may overlap, inside the
        reserved region `r`. */
    method Move(b: Block, at: int, s: Span<Block>, i: int, j: int, ghost r: Span<Block>)
      requires Valid(r) && r.At? && r.p == b && r.off <= at && at + j - i <= r.off + r.len
      requires s.At? && Fits(mem, s) && 0 <= i <= j <= s.len
      modifies this`mem, b
      ensures Valid(r) && mem == Put(old(mem), b, at, Bytes(old(mem), s)[i..j])
    {
      hide PoolsOk;
      ghost var x := Bytes(mem, s)[i..j];
      BlitInRegion(pools, mem, r, at, x);
      var src := s.p;
      assert forall k | 0 <= k < j - i :: src[s.off + i + k] == mem[src][s.off + i + k] == x[k];
      forall k | 0 <= k < j - i {
        b[at + k] := src[s.off + i + k];
      }
      mem := Put(mem, b, at, x);
      assert b[..] == mem[b];
    }

    /** Zeroes the line at `off` and walks over the free bytes at the ends of the pool that the
        line reached. */
    method ZeroAndTrim(c: CharPool, off: int, len: int) returns (first: int, last: int)
      requires 0 <= c.firstUsed <= off && 0 < len && off + len - 1 <= c.lastUsed
      requires Tight(c, c.pool[..], Empty)
      modifies c.pool
      ensures c.pool[..] == Blit(old(c.pool[..]), off, seq(len, _ => 0))
      ensures first <= last ==> Tight(c.(firstUsed := first, lastUsed := last), c.pool[..], Empty)
      ensures last < first ==> forall k | 0 <= k < c.pool.Length :: c.pool[k] == 0
    {
      hide Tight, Blit;
      var pool := c.pool;
      ghost var d := pool[..];
      TightSays(c, d);
      Zero(pool, off, len);
      first, last := c.firstUsed, c.lastUsed;
      if off == first {
        while first <= last && pool[first] == 0
          invariant c.firstUsed <= first <= last + 1
          invariant forall k | c.firstUsed <= k < first :: pool[k] == 0
        {
          first := first + 1;
        }
      }
      if off + len - 1 == last {
        while pool[last] == 0 && first <= last
          invariant c.firstUsed <= first <= last + 1 && 0 <= last <= c.lastUsed
          invariant first <= c.lastUsed ==> first <= last && pool[first] != 0
          invariant forall k | last < k <= c.lastUsed :: pool[k] == 0
        {
          last := last - 1;
        }
      }
      Trimmed(c, d, pool[..], first, last);
    }

    method Zero(pool: Block, off: int, len: int)
      requires 0 <= off && 0 <= len && off + len <= pool.Length
      modifies pool
      ensures pool[..] == Blit(old(pool[..]), off, seq(len, _ => 0))
      ensures forall k | 0 <= k < pool.Length :: pool[k] == if off <= k < off + len then 0 else old(pool[k])
    {
      forall k | off <= k < off + len {
        pool[k] := 0;
      }
    }

    /** Frees the bytes of `s`, and its pool when nothing else is used there. */
    method FreeChars(s: Span<Block>)
      requires Valid(Empty) && s.At? && Fits(mem, s) && Owns(mem, s)
      modifies this, s.p
      ensures Valid(Empty) && mem.Keys <= old(mem.Keys)
      ensures Erased(old(mem), mem, s)
      ensures Live() == old(Live()) - s.len
    {
      hide PoolsOk, Erased, Tight, Blit, Owns, Without;
      PoolListed(pools, mem, s);
      var i := GetCharPool(s.p);
      EndsUsed(pools, mem, i, s);
      var c := pools[i];
      var first, last := ZeroAndTrim(c, s.off, s.len);
      ghost var data := s.p[..];
      if last < first {
        FreedWhole(pools, mem, i, s, data);
        pools, mem := Without(pools, i), mem - {s.p};
        allocatedChars, freeChars := allocatedChars - c.size, freeChars + s.len - c.size;
      } else {
        FreedPart(pools, mem, i, s, data, first, last);
        pools, mem := pools[i := c.(firstUsed := first, lastUsed := last)], mem[s.p := data];
        freeChars := freeChars + s.len;
      }
    }

    // ----- writing a line, in each of the ways the edits use

    /** Writes a line into fresh characters. */
    method PlaceNew(t: seq<byte>) returns (r: Span<Block>)
      requires Valid(Empty) && t != [] && NoNul(t)
      modifies this, mem.Keys
      ensures Valid(Empty) && r.At? && r.len == |t|
      ensures Written(old(mem), mem, r, t) && FreeIn(old(mem), r)
      ensures Live() == old(Live()) + |t| && fresh(mem.Keys - old(mem.Keys))
    {
      hide PoolsOk, Written;
      r := AllocChars(|t|);
      RegionWritten(old(mem), mem, r, Blit(mem[r.p], r.off, t), t);
      CopyIn(r.p, r.off, t, r);
      Settled(pools, mem, r);
    }

    /** Copies the line `s`, with `t` put in at `pos`, to the fresh characters `r`. */
    method CopySpliced(r: Span<Block>, s: Span<Block>, pos: int, t: seq<byte>, ghost m0: Memory<Block>)
      requires s.At? && Fits(m0, s) && Owns(m0, s) && 0 <= pos <= s.len && NoNul(t)
      requires Valid(r) && r.At? && r.len == s.len + |t| && Grown(m0, mem)
      requires forall k | r.off <= k < r.off + r.len :: mem[r.p][k] == 0
      modifies this`mem, r.p
      ensures Valid(Empty) && mem.Keys == old(mem.Keys)
      ensures Written(m0, mem, r, Splice(Bytes(m0, s), pos, t))
    {
      hide PoolsOk, Put, Blit, Written, Owns, Splice, Grown;
      PlacedSpliced(m0, mem, r, s, pos, t);
      Move(r.p, r.off, s, 0, pos, r);
      CopyIn(r.p, r.off + pos, t, r);
      Move(r.p, r.off + pos + |t|, s, pos, s.len, r);
      Settled(pools, mem, r);
    }

    /** Writes the line `s` with `t` put in at `pos` into fresh characters. */
    method PlaceSpliced(s: Span<Block>, pos: int, t: seq<byte>) returns (r: Span<Block>)
      requires Valid(Empty) && s.At? && Fits(mem, s) && Owns(mem, s) && 0 <= pos <= s.len
      requires t != [] && NoNul(t)
      modifies this, mem.Keys
      ensures Valid(Empty) && r.At? && r.len == s.len + |t|
      ensures Written(old(mem), mem, r, Splice(Bytes(old(mem), s), pos, t)) && FreeIn(old(mem), r)
      ensures Live() == old(Live()) + s.len + |t| && fresh(mem.Keys - old(mem.Keys))
    {
      hide PoolsOk, Written, Owns, Splice, Grown, FreeIn;
      r := AllocChars(s.len + |t|);
      GrownFree(old(mem), mem, r);
      CopySpliced(r, s, pos, t, old(mem));
    }

    /** Puts `t` into the line `s` at `pos`, using the room reserved around the line. */
    method SpliceInPlace(s: Span<Block>, pos: int, t: seq<byte>, a: int)
      requires s.At? && Fits(mem, s) && Owns(mem, s) && 0 <= pos <= s.len && 0 <= a <= |t|
      requires t != [] && NoNul(t)
      requires RoomAround(mem, s, |t| - a, a) && Valid(Around(s, |t| - a, a))
      modifies this`mem, s.p
      ensures Valid(Empty) && mem.Keys == old(mem.Keys)
      ensures Written(old(mem), mem, Around(s, |t| - a, a), Splice(Bytes(old(mem), s), pos, t))
    {
      hide PoolsOk, Put, Blit, Written, Owns, Splice;
      ghost var r := Around(s, |t| - a, a);
      SplicedInPlace(mem, s, pos, t, a);
      Move(s.p, s.off - (|t| - a), s, 0, pos, r);
      Move(s.p, s.off + pos + a, s, pos, s.len, r);
      CopyIn(s.p, s.off - (|t| - a) + pos, t, r);
      Settled(pools, mem, r);
    }

    /** Copies the bytes of the line `s` from `i` up to `j` to its offset `at`. */
    method MoveInLine(s: Span<Block>, at: int, i: int, j: int)
      requires Valid(Empty) && s.At? && Fits(mem, s) && Owns(mem, s)
      requires 0 <= i <= j <= s.len && 0 <= at && at + j - i <= s.len
      modifies this`mem, s.p
      ensures Valid(Empty) && mem.Keys == old(mem.Keys)
      ensures Written(old(mem), mem, s, Blit(Bytes(old(mem), s), at, Bytes(old(mem), s)[i..j]))
    {
      hide PoolsOk, Put, Blit, Written, Owns;
      Unsettled(pools, mem, s);
      MovedInLine(mem, s, at, i, j);
      Move(s.p, s.off + at, s, i, j, s);
      Settled(pools, mem, s);
    }

    /** The bytes of a line, as the copies read them. */
    function Read(s: Span<Block>): (l: seq<byte>)
      requires s.At? && Fits(mem, s) && Synced()
      reads this, mem.Keys
      ensures l == Bytes(mem, s)
    {
      s.p[s.off..s.off + s.len]
    }
  }
}
