/** Lines as regions of pool memory. A memory maps each pool to its bytes, a zero byte being a
    free one; a span is the region a line descriptor points to, and `Empty` is the NULL line.
    `Store` is what the text store keeps at all times: every byte of a span is used, spans do
    not overlap, and every used byte belongs to a span. */
module Spans {
  import opened FlatText

  datatype Span<P> = Empty | At(p: P, off: int, len: int)

  type Memory<!P> = map<P, seq<byte>>

  function Len<P>(s: Span<P>): int {
    if s.Empty? then 0 else s.len
  }

  predicate In<P(==)>(s: Span<P>, p: P, k: int) {
    s.At? && s.p == p && s.off <= k < s.off + s.len
  }

  ghost predicate InAny<P>(ss: seq<Span<P>>, p: P, k: int) {
    exists i | 0 <= i < |ss| :: In(ss[i], p, k)
  }

  predicate Used<P>(mem: Memory<P>, p: P, k: int) {
    p in mem && 0 <= k < |mem[p]| && mem[p][k] != 0
  }

  /** Pools may have been added, with nothing in them used. */
  ghost predicate Grown<P>(mem: Memory<P>, mem': Memory<P>) {
    && (forall p | p in mem :: p in mem' && mem'[p] == mem[p])
    && (forall p, k | p in mem' && p !in mem && 0 <= k < |mem'[p]| :: mem'[p][k] == 0)
  }

  /** The span lies inside its pool. */
  predicate Fits<P>(mem: Memory<P>, s: Span<P>) {
    s.At? ==> 0 < s.len && s.p in mem && 0 <= s.off && s.off + s.len <= |mem[s.p]|
  }

  ghost predicate Owns<P>(mem: Memory<P>, s: Span<P>) {
    && Fits(mem, s)
    && forall k | s.At? && s.off <= k < s.off + s.len :: mem[s.p][k] != 0
  }

  predicate Apart<P(==)>(s: Span<P>, t: Span<P>) {
    s.At? && t.At? && s.p == t.p ==> s.off + s.len <= t.off || t.off + t.len <= s.off
  }

  ghost predicate AllApart<P>(ss: seq<Span<P>>) {
    forall i, j | 0 <= i < j < |ss| :: Apart(ss[i], ss[j])
  }

  ghost predicate Store<P>(mem: Memory<P>, ss: seq<Span<P>>) {
    && (forall i | 0 <= i < |ss| :: Owns(mem, ss[i]))
    && AllApart(ss)
    && (forall p, k | p in mem && Used(mem, p, k) :: InAny(ss, p, k))
  }

  /** The spans hold the lines `t`. */
  ghost predicate Stored<P>(mem: Memory<P>, ss: seq<Span<P>>, t: seq<Line>) {
    Store(mem, ss) && Text(mem, ss) == t
  }

  function Bytes<P>(mem: Memory<P>, s: Span<P>): (l: Line)
    requires Fits(mem, s)
    ensures |l| == Len(s)
  {
    if s.Empty? then [] else mem[s.p][s.off..s.off + s.len]
  }

  /** What the spans hold, line by line. */
  ghost function Text<P>(mem: Memory<P>, ss: seq<Span<P>>): (t: seq<Line>)
    requires forall i | 0 <= i < |ss| :: Fits(mem, ss[i])
    ensures |t| == |ss|
    ensures forall i | 0 <= i < |ss| :: t[i] == Bytes(mem, ss[i])
  {
    seq(|ss|, i requires 0 <= i < |ss| => Bytes(mem, ss[i]))
  }

  lemma TextHasNoNul<P>(mem: Memory<P>, ss: seq<Span<P>>)
    requires Store(mem, ss)
    ensures forall i | 0 <= i < |ss| :: NoNul(Text(mem, ss)[i])
  {
    forall i | 0 <= i < |ss|
      ensures NoNul(Text(mem, ss)[i])
    {
      assert Owns(mem, ss[i]);
    }
  }

  function TotalLen<P>(ss: seq<Span<P>>): int {
    if ss == [] then 0 else Len(ss[0]) + TotalLen(ss[1..])
  }

  lemma {:induction false} TotalLenAppend<P>(a: seq<Span<P>>, b: seq<Span<P>>)
    ensures TotalLen(a + b) == TotalLen(a) + TotalLen(b)
  {
    if a == [] {
      assert a + b == b;
    } else {
      assert (a + b)[1..] == a[1..] + b;
      TotalLenAppend(a[1..], b);
    }
  }

  lemma TotalLenSplit<P>(ss: seq<Span<P>>, i: int, j: int)
    requires 0 <= i <= j <= |ss|
    ensures TotalLen(ss) == TotalLen(ss[..i]) + TotalLen(ss[i..j]) + TotalLen(ss[j..])
  {
    assert ss == (ss[..i] + ss[i..j]) + ss[j..];
    TotalLenAppend(ss[..i] + ss[i..j], ss[j..]);
    TotalLenAppend(ss[..i], ss[i..j]);
  }

  /** From `mem` to `mem'`, the used bytes outside the spans `olds` stay, and nothing is used
      that is neither such a byte nor in `news`. */
  ghost predicate Moves<P>(mem: Memory<P>, mem': Memory<P>, olds: seq<Span<P>>, news: seq<Span<P>>) {
    && (forall p, k | p in mem && Used(mem, p, k) && !InAny(olds, p, k) ::
          Used(mem', p, k) && mem'[p][k] == mem[p][k])
    && (forall p, k | p in mem' && Used(mem', p, k) && !InAny(news, p, k) ::
          Used(mem, p, k) && !InAny(olds, p, k))
    // a new span takes only bytes that were free or its own
    && (forall p, k | p in mem && Used(mem, p, k) && InAny(news, p, k) :: InAny(olds, p, k))
  }

  lemma InAnyAppend<P>(a: seq<Span<P>>, b: seq<Span<P>>, p: P, k: int)
    ensures InAny(a + b, p, k) <==> InAny(a, p, k) || InAny(b, p, k)
  {
    var c := a + b;
    if InAny(a, p, k) {
      var i :| 0 <= i < |a| && In(a[i], p, k);
      assert In(c[i], p, k);
    }
    if InAny(b, p, k) {
      var i :| 0 <= i < |b| && In(b[i], p, k);
      assert In(c[|a| + i], p, k);
    }
    if InAny(c, p, k) {
      var i :| 0 <= i < |c| && In(c[i], p, k);
      assert if i < |a| then In(a[i], p, k) else In(b[i - |a|], p, k);
    }
  }

  lemma InOne<P>(s: Span<P>, p: P, k: int)
    ensures InAny([s], p, k) <==> In(s, p, k)
  {
    if In(s, p, k) {
      assert In([s][0], p, k);
    }
  }

  /** A span that keeps all of its bytes. */
  lemma SpanKept<P>(mem: Memory<P>, mem': Memory<P>, olds: seq<Span<P>>, news: seq<Span<P>>, s: Span<P>)
    requires Owns(mem, s)
    requires Moves(mem, mem', olds, news)
    requires forall n | 0 <= n < |olds| :: Apart(olds[n], s)
    requires forall n | 0 <= n < |news| :: Fits(mem', news[n])
    ensures Owns(mem', s) && Bytes(mem', s) == Bytes(mem, s)
    ensures forall n | 0 <= n < |news| :: Apart(news[n], s)
  {
    if s.At? {
      forall k | s.off <= k < s.off + s.len
        ensures Used(mem, s.p, k) && !InAny(olds, s.p, k)
      {
        assert mem[s.p][k] != 0;
      }
      assert Used(mem', s.p, s.off + s.len - 1);
      assert forall k | s.off <= k < s.off + s.len :: Used(mem, s.p, k) ==> mem'[s.p][k] == mem[s.p][k];
      forall n | 0 <= n < |news|
        ensures Apart(news[n], s)
      {
        var t := news[n];
        if !Apart(t, s) {
          var k := if s.off < t.off then t.off else s.off;
          assert In(t, s.p, k);
          assert InAny(news, s.p, k);
          assert s.off <= k < s.off + s.len;
          assert Used(mem, s.p, k);
          assert false;
        }
      }
    }
  }

  /** The used bytes are still all covered. */
  lemma ReplaceCovers<P>(mem: Memory<P>, mem': Memory<P>, ss: seq<Span<P>>, i: int, j: int, news: seq<Span<P>>)
    requires 0 <= i <= j <= |ss|
    requires forall p, k | p in mem && Used(mem, p, k) :: InAny(ss, p, k)
    requires Moves(mem, mem', ss[i..j], news)
    ensures forall p, k | p in mem' && Used(mem', p, k) :: InAny(ss[..i] + news + ss[j..], p, k)
  {
    var a, olds, b := ss[..i], ss[i..j], ss[j..];
    forall p, k | p in mem' && Used(mem', p, k)
      ensures InAny(a + news + b, p, k)
    {
      InAnyAppend(a + news, b, p, k);
      InAnyAppend(a, news, p, k);
      if !InAny(news, p, k) {
        assert Used(mem, p, k);
        assert ss == (a + olds) + b;
        InAnyAppend(a + olds, b, p, k);
        InAnyAppend(a, olds, p, k);
      }
    }
  }

  lemma ReplaceApart<P>(ss: seq<Span<P>>, i: int, j: int, news: seq<Span<P>>)
    requires 0 <= i <= j <= |ss|
    requires AllApart(ss) && AllApart(news)
    requires forall m, n | 0 <= m < |ss| && !(i <= m < j) && 0 <= n < |news| :: Apart(news[n], ss[m])
    ensures AllApart(ss[..i] + news + ss[j..])
  {
    var ss' := ss[..i] + news + ss[j..];
    forall m, n | 0 <= m < n < |ss'|
      ensures Apart(ss'[m], ss'[n])
    {
      var d := j - i - |news|;
      if n < i || i + |news| <= m {
        assert Apart(ss[if n < i then m else m + d], ss[if n < i then n else n + d]);
      } else if n < i + |news| {
        assert m < i ==> Apart(news[n - i], ss[m]);
        assert m >= i ==> Apart(news[m - i], news[n - i]);
      } else if m < i {
        assert Apart(ss[m], ss[n + d]);
      } else {
        assert Apart(news[m - i], ss[n + d]);
      }
    }
  }

  /** The one step behind every edit: the spans `ss[i..j]` give way to `news`. */
  lemma Replace<P>(mem: Memory<P>, mem': Memory<P>, ss: seq<Span<P>>, i: int, j: int, news: seq<Span<P>>)
    requires 0 <= i <= j <= |ss|
    requires Store(mem, ss)
    requires Moves(mem, mem', ss[i..j], news)
    requires forall n | 0 <= n < |news| :: Fits(mem', news[n]) && Owns(mem', news[n])
    requires AllApart(news)
    ensures Store(mem', ss[..i] + news + ss[j..])
    ensures Text(mem', ss[..i] + news + ss[j..]) == Text(mem, ss)[..i] + Text(mem', news) + Text(mem, ss)[j..]
  {
    hide Moves, Owns, Apart, AllApart;
    var ss' := ss[..i] + news + ss[j..];
    OthersKept(mem, mem', ss, i, j, news);
    ReplaceCovers(mem, mem', ss, i, j, news);
    ReplaceApart(ss, i, j, news);
    forall m | 0 <= m < |ss'|
      ensures Owns(mem', ss'[m])
    {
      assert ss'[m] == if m < i then ss[m] else if m < i + |news| then news[m - i] else ss[m - |news| - i + j];
    }
  }

  /** The spans that stay are neither touched nor met by the new ones. */
  lemma OthersKept<P>(mem: Memory<P>, mem': Memory<P>, ss: seq<Span<P>>, i: int, j: int, news: seq<Span<P>>)
    requires 0 <= i <= j <= |ss| && Store(mem, ss) && Moves(mem, mem', ss[i..j], news)
    requires forall n | 0 <= n < |news| :: Fits(mem', news[n])
    ensures forall m | 0 <= m < |ss| && !(i <= m < j) :: Owns(mem', ss[m]) && Bytes(mem', ss[m]) == Bytes(mem, ss[m])
    ensures forall m, n | 0 <= m < |ss| && !(i <= m < j) && 0 <= n < |news| :: Apart(news[n], ss[m])
  {
    hide Moves;
    var olds := ss[i..j];
    forall m | 0 <= m < |ss| && !(i <= m < j)
      ensures Owns(mem', ss[m]) && Bytes(mem', ss[m]) == Bytes(mem, ss[m])
      ensures forall n | 0 <= n < |news| :: Apart(news[n], ss[m])
    {
      forall n | 0 <= n < |olds|
        ensures Apart(olds[n], ss[m])
      {
        assert olds[n] == ss[i + n];
        assert if m < i then Apart(ss[m], ss[i + n]) else Apart(ss[i + n], ss[m]);
      }
      SpanKept(mem, mem', olds, news, ss[m]);
    }
  }

  lemma TotalLenReplace<P>(ss: seq<Span<P>>, i: int, j: int, news: seq<Span<P>>)
    requires 0 <= i <= j <= |ss|
    ensures TotalLen(ss[..i] + news + ss[j..]) == TotalLen(ss) - TotalLen(ss[i..j]) + TotalLen(news)
  {
    TotalLenSplit(ss, i, j);
    TotalLenAppend(ss[..i] + news, ss[j..]);
    TotalLenAppend(ss[..i], news);
  }

  // ----- the three kinds of step an edit is made of

  /** `s` now holds `t`; nothing else changed. */
  ghost predicate Written<P>(mem: Memory<P>, mem': Memory<P>, s: Span<P>, t: seq<byte>) {
    && Fits(mem', s) && Bytes(mem', s) == t && NoNul(t)
    && (forall p, k | p in mem && Used(mem, p, k) && !In(s, p, k) :: Used(mem', p, k) && mem'[p][k] == mem[p][k])
    && (forall p, k | p in mem' && Used(mem', p, k) && !In(s, p, k) :: Used(mem, p, k))
  }

  /** The bytes of `s` are now free; nothing else changed. */
  ghost predicate Erased<P>(mem: Memory<P>, mem': Memory<P>, s: Span<P>) {
    && (forall p, k | p in mem && Used(mem, p, k) && !In(s, p, k) :: Used(mem', p, k) && mem'[p][k] == mem[p][k])
    && (forall p, k | p in mem' && Used(mem', p, k) :: Used(mem, p, k) && !In(s, p, k))
  }

  /** Writing a span that swallows `ss[i..j]` and otherwise takes only free bytes. */
  lemma WriteStep<P>(mem: Memory<P>, mem': Memory<P>, ss: seq<Span<P>>, i: int, j: int, s: Span<P>, t: seq<byte>)
    requires 0 <= i <= j <= |ss| && Store(mem, ss) && s.At?
    requires Written(mem, mem', s, t)
    requires forall p, k | p in mem && Used(mem, p, k) && In(s, p, k) :: InAny(ss[i..j], p, k)
    requires forall p, k | p in mem && Used(mem, p, k) && InAny(ss[i..j], p, k) :: In(s, p, k)
    ensures Store(mem', ss[..i] + [s] + ss[j..])
    ensures Text(mem', ss[..i] + [s] + ss[j..]) == Text(mem, ss)[..i] + [t] + Text(mem, ss)[j..]
  {
    assert Owns(mem', s) by {
      forall k | s.off <= k < s.off + s.len
        ensures mem'[s.p][k] != 0
      {
        assert mem'[s.p][k] == t[k - s.off];
      }
    }
    forall p, k
      ensures InAny([s], p, k) <==> In(s, p, k)
    {
      InOne(s, p, k);
    }
    Replace(mem, mem', ss, i, j, [s]);
  }

  lemma EraseStep<P>(mem: Memory<P>, mem': Memory<P>, ss: seq<Span<P>>, i: int)
    requires 0 <= i < |ss| && Store(mem, ss)
    requires Erased(mem, mem', ss[i])
    ensures Store(mem', ss[..i] + ss[i + 1..])
    ensures Text(mem', ss[..i] + ss[i + 1..]) == Text(mem, ss)[..i] + Text(mem, ss)[i + 1..]
  {
    assert ss[i..i + 1] == [ss[i]];
    assert ss[..i] + [] + ss[i + 1..] == ss[..i] + ss[i + 1..];
    forall p, k
      ensures InAny([ss[i]], p, k) <==> In(ss[i], p, k)
    {
      InOne(ss[i], p, k);
    }
    Replace(mem, mem', ss, i, i + 1, []);
  }

  /** The part of a span from `a` up to `b`. */
  function Part<P>(s: Span<P>, a: int, b: int): Span<P>
    requires 0 <= a <= b <= Len(s)
  {
    if a == b then Empty else At(s.p, s.off + a, b - a)
  }

  lemma PartsCover<P>(s: Span<P>, a: int, p: P, k: int)
    requires 0 <= a <= Len(s)
    ensures InAny([Part(s, 0, a), Part(s, a, Len(s))], p, k) <==> InAny([s], p, k)
  {
    var parts := [Part(s, 0, a), Part(s, a, Len(s))];
    InOne(s, p, k);
    if In(s, p, k) {
      assert In(parts[if k < s.off + a then 0 else 1], p, k);
    }
  }

  lemma PartsMove<P>(mem: Memory<P>, s: Span<P>, a: int)
    requires 0 <= a <= Len(s)
    ensures var parts := [Part(s, 0, a), Part(s, a, Len(s))];
      && Moves(mem, mem, parts, [s]) && Moves(mem, mem, [s], parts) && AllApart(parts)
  {
    var parts := [Part(s, 0, a), Part(s, a, Len(s))];
    forall p, k
      ensures InAny(parts, p, k) <==> InAny([s], p, k)
    {
      PartsCover(s, a, p, k);
    }
  }

  lemma PartsOwned<P>(mem: Memory<P>, s: Span<P>, a: int)
    requires 0 <= a <= Len(s) && Fits(mem, s)
    ensures Fits(mem, Part(s, 0, a)) && Fits(mem, Part(s, a, Len(s)))
    ensures Bytes(mem, s) == Bytes(mem, Part(s, 0, a)) + Bytes(mem, Part(s, a, Len(s)))
    ensures Owns(mem, s) <==> Owns(mem, Part(s, 0, a)) && Owns(mem, Part(s, a, Len(s)))
  {
  }

  /** A span may be cut in two without touching memory, and two parts that meet may be joined. */
  lemma SplitStep<P>(mem: Memory<P>, ss: seq<Span<P>>, i: int, a: int)
    requires 0 <= i < |ss| && Store(mem, ss)
    requires 0 <= a <= Len(ss[i])
    ensures var s := ss[i]; var ss' := ss[..i] + [Part(s, 0, a), Part(s, a, Len(s))] + ss[i + 1..];
      && Store(mem, ss')
      && Text(mem, ss') == Text(mem, ss)[..i] + [Text(mem, ss)[i][..a], Text(mem, ss)[i][a..]] + Text(mem, ss)[i + 1..]
  {
    var s := ss[i];
    var parts := [Part(s, 0, a), Part(s, a, Len(s))];
    assert ss[i..i + 1] == [s];
    assert Owns(mem, s);
    PartsMove(mem, s, a);
    PartsOwned(mem, s, a);
    Replace(mem, mem, ss, i, i + 1, parts);
    assert Text(mem, parts) == [Text(mem, ss)[i][..a], Text(mem, ss)[i][a..]];
  }

  lemma JoinStep<P>(mem: Memory<P>, ss: seq<Span<P>>, i: int, s: Span<P>, a: int)
    requires 0 <= i && i + 1 < |ss| && Store(mem, ss)
    requires 0 <= a <= Len(s) && ss[i] == Part(s, 0, a) && ss[i + 1] == Part(s, a, Len(s))
    requires Fits(mem, s)
    ensures Store(mem, ss[..i] + [s] + ss[i + 2..])
    ensures Text(mem, ss[..i] + [s] + ss[i + 2..])
         == Text(mem, ss)[..i] + [Text(mem, ss)[i] + Text(mem, ss)[i + 1]] + Text(mem, ss)[i + 2..]
  {
    assert ss[i..i + 2] == [ss[i], ss[i + 1]];
    assert Owns(mem, ss[i]) && Owns(mem, ss[i + 1]);
    PartsMove(mem, s, a);
    PartsOwned(mem, s, a);
    Replace(mem, mem, ss, i, i + 2, [s]);
    assert Text(mem, [s]) == [Text(mem, ss)[i] + Text(mem, ss)[i + 1]];
  }
}
