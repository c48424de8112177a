/** The two loaders: the one that works on the whole file in memory, and the one that streams it
    through two half buffers. */
module Loaders {
  import opened FlatText
  import opened FileFormat

  /** The two passes of load_fd_in_buffer() over a pool that holds the file. */
  method LoadInMemory(pool: array<byte>, len: int, mode: Mode, ghost s: seq<byte>)
      returns (lines: seq<Extent>, crlf: bool, freed: int)
    requires 0 <= len <= pool.Length && pool[..len] == s
    modifies pool
    ensures Load(s, mode) == Loaded(pool[..len], lines, crlf, freed)
    ensures pool[len..] == old(pool[len..])
  {
    var numLines;
    numLines, crlf, freed := FirstPass(pool, len, mode, s);
    lines := SecondPass(pool, len, numLines, mode, s);
  }

  /** The first pass counts the lines and the bytes that will be free, and finds out whether the
      file is of CR/LF type. */
  method FirstPass(pool: array<byte>, len: int, mode: Mode, ghost s: seq<byte>) returns (numLines: int, crlf: bool, freed: int)
    requires 0 <= len <= pool.Length && pool[..len] == s
    ensures numLines == |Load(s, mode).lines| && crlf == Load(s, mode).crlf && freed == Load(s, mode).freed
  {
    hide Rest;
    numLines, crlf, freed := 0, false, 0;
    var i := 0;
    ghost var start, done := 0, Loaded([], [], false, 0);
    PartialStart(s, mode);
    while i < len
      invariant 0 <= i <= len && Partial(s, mode, i, start, done)
      invariant numLines == |done.lines| && crlf == done.crlf && freed == done.freed
    {
      PartialStep(s, mode, i, start, done);
      assert pool[i] == s[i] && (i + 1 < len ==> pool[i + 1] == s[i + 1]);
      if IsTerminator(mode, pool[i]) {
        done := Loaded(done.bytes + (if IsPair(s, i) then [0, 0] else [0]), done.lines + [Extent(start, i - start)],
                       done.crlf || IsPair(s, i), done.freed + (if IsPair(s, i) then 2 else 1));
        if i < len - 1 && pool[i] == CR && pool[i + 1] == LF {
          crlf := true;
          i := i + 1;
          freed := freed + 1;
        }
        numLines := numLines + 1;
        freed := freed + 1;
        start := i + 1;
      } else {
        done := done.(bytes := done.bytes + [s[i]]);
      }
      i := i + 1;
    }
    PartialEnd(s, mode, start, done);
    numLines := numLines + 1;
  }

  /** Sets a terminator to NUL and goes on behind it. */
  method Terminate(pool: array<byte>, len: int, p: int, q0: int, mode: Mode, ghost s: seq<byte>, ghost scanned: Loaded, ghost lines: seq<Extent>)
      returns (q: int, ghost done: Loaded)
    requires 0 <= p <= q0 < len <= pool.Length && |s| == len && pool[p..len] == s[p..] && pool[..q0] == scanned.bytes
    requires IsTerminator(mode, s[q0]) && Partial(s, mode, q0, p, scanned) && lines == scanned.lines + [Extent(p, q0 - p)]
    modifies pool
    ensures q0 < q <= len && pool[len..] == old(pool[len..])
    ensures pool[..q] == done.bytes && pool[q..len] == s[q..]
    ensures lines == done.lines && Partial(s, mode, q, q, done) && |lines| < |Load(s, mode).lines|
  {
    hide Rest, Partial, Load;
    q := q0;
    PartialStep(s, mode, q, p, scanned);
    assert pool[q] == pool[p..len][q - p] && (q + 1 < len ==> pool[q + 1] == pool[p..len][q + 1 - p]);
    done := Loaded(scanned.bytes + (if IsPair(s, q) then [0, 0] else [0]), lines,
                   scanned.crlf || IsPair(s, q), scanned.freed + (if IsPair(s, q) then 2 else 1));
    if q < len - 1 && pool[q] == CR && pool[q + 1] == LF {
      pool[q] := 0;
      q := q + 1;
    }
    pool[q] := 0;
    q := q + 1;
    assert pool[..q0] == scanned.bytes && pool[..q] == pool[..q0] + pool[q0..q];
    assert pool[q..len] == s[q..];
    PartialCounts(s, mode, q, q, done);
  }

  /** The second pass finds the lines, and sets the terminators to NUL. */
  method SecondPass(pool: array<byte>, len: int, numLines: int, mode: Mode, ghost s: seq<byte>) returns (lines: seq<Extent>)
    requires 0 <= len <= pool.Length && pool[..len] == s && numLines == |Load(s, mode).lines|
    modifies pool
    ensures lines == Load(s, mode).lines && pool[..len] == Load(s, mode).bytes
    ensures pool[len..] == old(pool[len..])
  {
    hide Rest;
    lines := [];
    var p := 0;
    ghost var done := Loaded([], [], false, 0);
    PartialStart(s, mode);
    PartialCounts(s, mode, 0, 0, done);
    while |lines| < numLines
      invariant 0 <= p <= len && pool[len..] == old(pool[len..])
      invariant pool[..p] == done.bytes && pool[p..len] == s[p..]
      invariant if |lines| < numLines then lines == done.lines && Partial(s, mode, p, p, done)
                else p == len && lines == Load(s, mode).lines && done.bytes == Load(s, mode).bytes
      decreases numLines - |lines|
    {
      var q;
      ghost var scanned;
      q, scanned := EndOfLine(pool, len, p, mode, s, done);
      lines := lines + [Extent(p, q - p)];
      if q < len {
        q, done := Terminate(pool, len, p, q, mode, s, scanned, lines);
      } else {
        PartialEnd(s, mode, p, scanned);
        done := scanned;
      }
      p := q;
    }
  }

  /** There is a line to come as long as the end has not been reached. */
  lemma PartialCounts(s: seq<byte>, mode: Mode, i: int, start: int, done: Loaded)
    requires Partial(s, mode, i, start, done)
    ensures |done.lines| < |Load(s, mode).lines|
  {
  }

  /** The inner loop of the second pass. */
  method EndOfLine(pool: array<byte>, len: int, p: int, mode: Mode, ghost s: seq<byte>, ghost done: Loaded)
      returns (q: int, ghost scanned: Loaded)
    requires 0 <= p <= len <= pool.Length && |s| == len && pool[p..len] == s[p..] && pool[..p] == done.bytes
    requires Partial(s, mode, p, p, done)
    ensures p <= q <= len && (q < len ==> IsTerminator(mode, s[q]))
    ensures Partial(s, mode, q, p, scanned) && scanned.lines == done.lines && scanned.bytes == pool[..q]
  {
    hide Rest;
    q, scanned := p, done;
    while q < len && !IsTerminator(mode, pool[q])
      invariant p <= q <= len && Partial(s, mode, q, p, scanned)
      invariant scanned.lines == done.lines && scanned.bytes == pool[..q]
    {
      assert pool[q] == pool[p..len][q - p] == s[q];
      PartialStep(s, mode, q, p, scanned);
      scanned := scanned.(bytes := scanned.bytes + [s[q]]);
      q := q + 1;
    }
    assert q < len ==> pool[q] == pool[p..len][q - p] == s[q];
  }

  /** A file with a byte that did not become free has one that is not zero. */
  lemma {:induction false} SomeUsed(s: seq<byte>, mode: Mode, i: int, start: int) returns (k: int)
    requires 0 <= start <= i <= |s| && Rest(s, mode, i, start).freed < |s| - i
    ensures 0 <= k < |s| - i && Rest(s, mode, i, start).bytes[k] != 0
    decreases |s| - i
  {
    if !IsTerminator(mode, s[i]) {
      k := 0;
    } else if IsPair(s, i) {
      k := SomeUsed(s, mode, i + 2, i + 2);
      k := k + 2;
    } else {
      k := SomeUsed(s, mode, i + 1, i + 1);
      k := k + 1;
    }
  }

  /** Where the used bytes of the pool begin and end; without any the pool is given back. */
  method UsedBounds(pool: array<byte>, len: int, freed: int, mode: Mode, ghost s: seq<byte>)
      returns (kept: bool, firstUsed: int, lastUsed: int)
    requires 0 <= len == |s| <= pool.Length && pool[..len] == Load(s, mode).bytes && freed == Load(s, mode).freed
    ensures kept <==> freed < len
    ensures kept ==> 0 <= firstUsed <= lastUsed < len && pool[firstUsed] != 0 && pool[lastUsed] != 0
    ensures kept ==> forall k | 0 <= k < firstUsed || lastUsed < k < len :: pool[k] == 0
  {
    kept, firstUsed, lastUsed := freed < len, 0, 0;
    if kept {
      ghost var used := SomeUsed(s, mode, 0, 0);
      assert pool[used] == pool[..len][used];
      while pool[firstUsed] == 0
        invariant 0 <= firstUsed <= used && forall k | 0 <= k < firstUsed :: pool[k] == 0
        decreases len - firstUsed
      {
        firstUsed := firstUsed + 1;
      }
      lastUsed := len - 1;
      while pool[lastUsed] == 0
        invariant used <= lastUsed < len && forall k | lastUsed < k < len :: pool[k] == 0
        decreases lastUsed
      {
        lastUsed := lastUsed - 1;
      }
    }
  }
}
