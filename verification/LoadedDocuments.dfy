/** From a file to the text store: what the loader leaves is a document like any other. */
module LoadedDocuments {
  import opened FlatText
  import opened Spans
  import opened CharPools
  import opened TextStore
  import opened Edits
  import opened FileFormat
  import opened Loaders

  /** Byte `k` belongs to a line. */
  ghost predicate Covered(es: seq<Extent>, k: int) {
    exists n | 0 <= n < |es| :: es[n].off <= k < es[n].off + es[n].len
  }

  ghost predicate Spaced(es: seq<Extent>, start: int, end: int) {
    && es != [] && es[0].off == start
    && (forall n | 0 <= n < |es| :: start <= es[n].off && 0 <= es[n].len && es[n].off + es[n].len <= end)
    && (forall m, n | 0 <= m < n < |es| :: es[m].off + es[m].len < es[n].off)
  }

  lemma SpacedMore(e: Extent, es: seq<Extent>, start: int, end: int)
    requires 0 <= e.len && e.off + e.len < start && Spaced(es, start, end)
    ensures Spaced([e] + es, e.off, end)
  {
    var all := [e] + es;
    assert forall m | 0 < m < |all| :: all[m] == es[m - 1];
  }

  /** The lines of the rest of a file lie one behind the other, at least a byte apart; the first one
      begins at `start`. A byte from `i` on is kept if it belongs to a line, and is zero otherwise. */
  ghost predicate LaidOut(s: seq<byte>, mode: Mode, i: int, start: int, r: Loaded)
    requires 0 <= start <= i <= |s|
  {
    && |r.bytes| == |s| - i && r.lines != [] && i <= start + r.lines[0].len && Spaced(r.lines, start, |s|)
    && (forall k | i <= k < |s| :: r.bytes[k - i] == if Covered(r.lines, k) then s[k] else 0)
    && (forall k | i <= k < |s| && Covered(r.lines, k) :: !IsTerminator(mode, s[k]))
  }

  lemma {:induction false} Layout(s: seq<byte>, mode: Mode, i: int, start: int)
    requires 0 <= start <= i <= |s|
    ensures LaidOut(s, mode, i, start, Rest(s, mode, i, start))
    decreases |s| - i
  {
    if i < |s| {
      if !IsTerminator(mode, s[i]) {
        Layout(s, mode, i + 1, start);
        OneByteMore(s, mode, i, start);
      } else {
        var n := if IsPair(s, i) then 2 else 1;
        Layout(s, mode, i + n, i + n);
        OneLineMore(s, mode, i, start, n);
      }
    } else {
      hide LaidOut;
      LastLine(s, mode, start);
    }
  }

  lemma LastLine(s: seq<byte>, mode: Mode, start: int)
    requires 0 <= start <= |s|
    ensures LaidOut(s, mode, |s|, start, Rest(s, mode, |s|, start))
  {
  }

  lemma OneByteMore(s: seq<byte>, mode: Mode, i: int, start: int)
    requires 0 <= start <= i < |s| && !IsTerminator(mode, s[i])
    requires LaidOut(s, mode, i + 1, start, Rest(s, mode, i + 1, start))
    ensures LaidOut(s, mode, i, start, Rest(s, mode, i, start))
  {
    var r, r' := Rest(s, mode, i + 1, start), Rest(s, mode, i, start);
    assert r'.lines == r.lines && r'.bytes == [s[i]] + r.bytes;
    assert Covered(r.lines, i) by {
      assert r.lines[0].off <= i < r.lines[0].off + r.lines[0].len;
    }
    forall k | i <= k < |s|
      ensures r'.bytes[k - i] == if Covered(r.lines, k) then s[k] else 0
    {
      if k > i {
        assert r'.bytes[k - i] == r.bytes[k - (i + 1)];
      }
    }
  }

  /** A byte behind a line is covered exactly if it is by the lines that follow. */
  lemma CoveredBehind(e: Extent, es: seq<Extent>, k: int, from: int)
    requires e.off + e.len <= k && forall m | 0 <= m < |es| :: from <= es[m].off
    ensures Covered([e] + es, k) <==> k >= from && Covered(es, k)
  {
    var all := [e] + es;
    assert forall m | 0 <= m < |es| :: all[m + 1] == es[m];
    if Covered(es, k) {
      var m :| 0 <= m < |es| && es[m].off <= k < es[m].off + es[m].len;
      assert all[m + 1] == es[m];
    }
    if Covered(all, k) {
      var m :| 0 <= m < |all| && all[m].off <= k < all[m].off + all[m].len;
      assert m > 0 && all[m] == es[m - 1];
    }
  }

  lemma OneLineMore(s: seq<byte>, mode: Mode, i: int, start: int, n: int)
    requires 0 <= start <= i < |s| && IsTerminator(mode, s[i]) && n == if IsPair(s, i) then 2 else 1
    requires LaidOut(s, mode, i + n, i + n, Rest(s, mode, i + n, i + n))
    ensures LaidOut(s, mode, i, start, Rest(s, mode, i, start))
  {
    hide Covered, IsTerminator;
    var r, r' := Rest(s, mode, i + n, i + n), Rest(s, mode, i, start);
    var e := Extent(start, i - start);
    assert r'.lines == [e] + r.lines && r'.bytes == seq(n, _ => 0 as byte) + r.bytes;
    SpacedMore(e, r.lines, i + n, |s|);
    forall k | i <= k < |s|
      ensures Covered(r'.lines, k) <==> k >= i + n && Covered(r.lines, k)
    {
      CoveredBehind(e, r.lines, k, i + n);
    }
    forall k | i <= k < |s|
      ensures r'.bytes[k - i] == if Covered(r'.lines, k) then s[k] else 0
    {
      if k >= i + n {
        assert r'.bytes[k - i] == r.bytes[k - (i + n)];
      }
    }
  }

  /** The line descriptor of an extent: a line without characters has no pointer. */
  function SpanOf(pool: Block, e: Extent): Span<Block> {
    if e.len == 0 then Empty else At(pool, e.off, e.len)
  }

  function SpansOf(pool: Block, es: seq<Extent>): (ss: seq<Span<Block>>)
    ensures |ss| == |es| && forall n | 0 <= n < |es| :: ss[n] == SpanOf(pool, es[n])
  {
    seq(|es|, n requires 0 <= n < |es| => SpanOf(pool, es[n]))
  }

  lemma {:induction false} TotalIsSum(pool: Block, es: seq<Extent>)
    requires forall n | 0 <= n < |es| :: 0 <= es[n].len
    ensures TotalLen(SpansOf(pool, es)) == SumLen(es)
  {
    if es != [] {
      TotalIsSum(pool, es[1..]);
      assert SpansOf(pool, es)[1..] == SpansOf(pool, es[1..]);
    }
  }

  lemma {:induction false} DescribesAt(es: seq<Extent>, ls: seq<Line>, s: seq<byte>, n: nat)
    requires Describes(es, ls, s) && n < |es|
    ensures |ls| == |es| && 0 <= es[n].off && 0 <= es[n].len && es[n].off + es[n].len <= |s|
    ensures ls[n] == s[es[n].off..es[n].off + es[n].len]
  {
    DescribesLength(es, ls, s);
    if n > 0 {
      DescribesAt(es[1..], ls[1..], s, n - 1);
    }
  }

  lemma {:induction false} DescribesLength(es: seq<Extent>, ls: seq<Line>, s: seq<byte>)
    requires Describes(es, ls, s)
    ensures |ls| == |es|
  {
    if es != [] {
      DescribesLength(es[1..], ls[1..], s);
    }
  }

  /** The pool as it is after loading: the file with its terminators zeroed, and zeros behind. */
  ghost predicate Holds(data: seq<byte>, s: seq<byte>, mode: Mode) {
    |s| <= |data| && data[..|s|] == Load(s, mode).bytes && forall k | |s| <= k < |data| :: data[k] == 0
  }

  /** The extents of the file are a valid store over its pool, and hold the lines of the file. */
  lemma LoadedStore(pool: Block, data: seq<byte>, s: seq<byte>, mode: Mode)
    requires Holds(data, s, mode)
    ensures Stored(map[pool := data], SpansOf(pool, Load(s, mode).lines), LinesOf(s, mode, 0, 0))
  {
    hide LaidOut, Owns, AllApart, Rest, LinesOf, Holds;
    var es, mem := Load(s, mode).lines, map[pool := data];
    var ss := SpansOf(pool, es);
    Layout(s, mode, 0, 0);
    SpansApart(pool, s, mode);
    forall n | 0 <= n < |es|
      ensures Owns(mem, ss[n]) && Fits(mem, ss[n]) && |LinesOf(s, mode, 0, 0)| == |es| && Bytes(mem, ss[n]) == LinesOf(s, mode, 0, 0)[n]
    {
      LineKept(pool, data, s, mode, n);
    }
    forall p, k | p in mem && Used(mem, p, k)
      ensures InAny(ss, p, k)
    {
      var n := UsedInLine(data, s, mode, k);
      assert In(ss[n], p, k);
    }
    SomeLine(s, mode);
    LineKept(pool, data, s, mode, 0);
    assert Text(mem, ss) == LinesOf(s, mode, 0, 0);
  }

  lemma SomeLine(s: seq<byte>, mode: Mode)
    ensures Load(s, mode).lines != []
  {
  }

  lemma SpansApart(pool: Block, s: seq<byte>, mode: Mode)
    ensures AllApart(SpansOf(pool, Load(s, mode).lines))
  {
    Layout(s, mode, 0, 0);
    var es := Load(s, mode).lines;
    assert forall m, n | 0 <= m < n < |es| :: es[m].off + es[m].len < es[n].off;
  }

  lemma UsedInLine(data: seq<byte>, s: seq<byte>, mode: Mode, k: int) returns (n: int)
    requires Holds(data, s, mode) && 0 <= k < |data| && data[k] != 0
    ensures var es := Load(s, mode).lines; 0 <= n < |es| && es[n].off <= k < es[n].off + es[n].len
  {
    var r := Load(s, mode);
    Layout(s, mode, 0, 0);
    assert data[..|s|][k] == data[k] == r.bytes[k - 0];
    assert Covered(r.lines, k);
    n :| 0 <= n < |r.lines| && r.lines[n].off <= k < r.lines[n].off + r.lines[n].len;
  }

  lemma LineKept(pool: Block, data: seq<byte>, s: seq<byte>, mode: Mode, n: nat)
    requires Holds(data, s, mode) && n < |Load(s, mode).lines|
    ensures var ss, mem := SpansOf(pool, Load(s, mode).lines), map[pool := data];
            && Owns(mem, ss[n]) && |LinesOf(s, mode, 0, 0)| == |Load(s, mode).lines|
            && Bytes(mem, ss[n]) == LinesOf(s, mode, 0, 0)[n]
  {
    var r := Load(s, mode);
    var e := r.lines[n];
    Layout(s, mode, 0, 0);
    ExtentsAreLines(s, mode, 0, 0);
    DescribesAt(r.lines, LinesOf(s, mode, 0, 0), s, n);
    forall k | e.off <= k < e.off + e.len
      ensures data[k] == s[k] != 0
    {
      assert Covered(r.lines, k) && data[k] == data[..|s|][k];
    }
    if e.len > 0 {
      assert data[e.off..e.off + e.len] == s[e.off..e.off + e.len];
    }
  }

  lemma FirstUsed(mem: Memory<Block>, r: Span<Block>)
    requires Owns(mem, r)
    ensures r.At? ==> Used(mem, r.p, r.off)
  {
  }

  /** Without a used byte there is no line with a character, and no pool is needed. */
  lemma NothingStored(pool: Block, data: seq<byte>, s: seq<byte>, mode: Mode)
    requires Holds(data, s, mode) && forall k | 0 <= k < |data| :: data[k] == 0
    ensures Stored(map[], SpansOf(pool, Load(s, mode).lines), LinesOf(s, mode, 0, 0))
  {
    LoadedStore(pool, data, s, mode);
    var ss, mem := SpansOf(pool, Load(s, mode).lines), map[pool := data];
    var none: Memory<Block> := map[];
    forall n | 0 <= n < |ss|
      ensures ss[n] == Empty
    {
      assert Owns(mem, ss[n]);
      FirstUsed(mem, ss[n]);
    }
    assert Text(none, ss) == Text(mem, ss);
  }

  /** The in-memory part of load_fd_in_buffer(): the pool is filled with the file, and behind it
      with zeros. The buffer that results has the lines of the file. */
  method LoadDocument(pool: Block, len: int, mode: Mode, ghost s: seq<byte>) returns (store: LineStore, crlf: bool)
    requires 0 <= len <= pool.Length && pool[..len] == s && forall k | len <= k < pool.Length :: pool[k] == 0
    modifies pool
    ensures store.Valid() && store.Content() == LinesOf(s, mode, 0, 0) && crlf == Load(s, mode).crlf
    ensures fresh(store) && fresh(store.chars) && store.Repr() <= {store as object, store.chars, pool}
  {
    hide LaidOut, Stored, Rest, LinesOf, PoolsOk;
    var lines, freed;
    lines, crlf, freed := LoadInMemory(pool, len, mode, s);
    var kept, first, last := UsedBounds(pool, len, freed, mode, s);
    ghost var data := pool[..];
    assert forall k | len <= k < pool.Length :: pool[k] == pool[len..][k - len];
    assert data[..len] == pool[..len];
    TotalsAgree(pool, s, mode);
    if kept {
      LoadedStore(pool, data, s, mode);
    } else {
      NothingUsed(data, s, mode);
      NothingStored(pool, data, s, mode);
    }
    var chars := new PoolList.OfFile(pool, pool.Length - len + freed, kept, first, last);
    StoredSays(chars.mem, SpansOf(pool, lines), LinesOf(s, mode, 0, 0));
    store := new LineStore.OfFile(chars, SpansOf(pool, lines));
  }

  /** The edit operations apply to a document right after it has been loaded. */
  method LoadBuffer(pool: Block, len: int, mode: Mode, ghost s: seq<byte>) returns (b: Buffer)
    requires 0 <= len <= pool.Length && pool[..len] == s && forall k | len <= k < pool.Length :: pool[k] == 0
    modifies pool
    ensures b.Valid() && b.Content() == LinesOf(s, mode, 0, 0) && fresh(b.Repr() - {pool})
  {
    hide LinesOf, Load, LineStore.Valid, LineStore.Content;
    var store, crlf := LoadDocument(pool, len, mode, s);
    b := new Buffer.OfFile(store);
  }

  lemma StoredSays(mem: Memory<Block>, ss: seq<Span<Block>>, t: seq<Line>)
    requires Stored(mem, ss, t)
    ensures Store(mem, ss) && Text(mem, ss) == t
  {
  }

  lemma TotalsAgree(pool: Block, s: seq<byte>, mode: Mode)
    ensures TotalLen(SpansOf(pool, Load(s, mode).lines)) + Load(s, mode).freed == |s| && Load(s, mode).lines != []
  {
    Layout(s, mode, 0, 0);
    TotalIsSum(pool, Load(s, mode).lines);
    BytesAccounted(s, mode, 0, 0);
  }

  /** If every byte became free, every byte is zero. */
  lemma NothingUsed(data: seq<byte>, s: seq<byte>, mode: Mode)
    requires Holds(data, s, mode) && Load(s, mode).freed >= |s|
    ensures forall k | 0 <= k < |data| :: data[k] == 0
  {
    AllFreed(s, mode, 0, 0);
    assert forall k | 0 <= k < |s| :: data[k] == data[..|s|][k];
  }

  lemma {:induction false} AllFreed(s: seq<byte>, mode: Mode, i: int, start: int)
    requires 0 <= start <= i <= |s|
    ensures Rest(s, mode, i, start).freed <= |s| - i
    ensures Rest(s, mode, i, start).freed >= |s| - i ==> forall k | 0 <= k < |s| - i :: Rest(s, mode, i, start).bytes[k] == 0
    decreases |s| - i
  {
    if i < |s| {
      var n := if IsTerminator(mode, s[i]) && IsPair(s, i) then 2 else 1;
      AllFreed(s, mode, i + n, if IsTerminator(mode, s[i]) then i + n else start);
    }
  }
}
