/** The lines of a buffer over its character pools, and the ways in which the edit operations of
    src/buffer.c change them: filling, growing, relocating, splitting, shortening and joining. */
module TextStore {
  import opened FlatText
  import opened Spans
  import opened CharPools

  // ----- what each way of changing the lines does to the text

  lemma Filled(mem: Memory<Block>, mem': Memory<Block>, ss: seq<Span<Block>>, i: int, r: Span<Block>, t: seq<byte>)
    requires Store(mem, ss) && 0 <= i < |ss| && ss[i].Empty?
    requires r.At? && r.len == |t| && Written(mem, mem', r, t) && FreeIn(mem, r)
    ensures Stored(mem', ss[i := r], InsertInLine(Text(mem, ss), Pos(i, 0), t))
    ensures TotalLen(ss[i := r]) == TotalLen(ss) + |t|
  {
    assert ss[i..i + 1] == [Empty];
    WriteStep(mem, mem', ss, i, i + 1, r, t);
    OneReplaced(mem, mem', ss, i, r, t);
    assert Splice([], 0, t) == t;
  }

  lemma UpdateForm<T>(s: seq<T>, i: int, x: T)
    requires 0 <= i < |s|
    ensures s[..i] + [x] + s[i + 1..] == s[i := x]
  {
  }

  lemma TotalLenUpdate(ss: seq<Span<Block>>, i: int, r: Span<Block>)
    requires 0 <= i < |ss|
    ensures TotalLen(ss[i := r]) == TotalLen(ss) - Len(ss[i]) + Len(r)
  {
    assert ss[..i] + [r] + ss[i + 1..] == ss[i := r];
    assert ss[i..i + 1] == [ss[i]];
    TotalLenReplace(ss, i, i + 1, [r]);
  }

  /** From lists with one element replaced in the middle to the update notation. */
  lemma OneReplaced(mem: Memory<Block>, mem': Memory<Block>, ss: seq<Span<Block>>, i: int, r: Span<Block>, t: seq<byte>)
    requires Store(mem, ss) && 0 <= i < |ss|
    requires Stored(mem', ss[..i] + [r] + ss[i + 1..], Text(mem, ss)[..i] + [t] + Text(mem, ss)[i + 1..])
    ensures Stored(mem', ss[i := r], Text(mem, ss)[i := t])
    ensures TotalLen(ss[i := r]) == TotalLen(ss) - Len(ss[i]) + Len(r)
  {
    UpdateForm(ss, i, r);
    UpdateForm(Text(mem, ss), i, t);
    TotalLenUpdate(ss, i, r);
  }

  /** The line grows in place into the free bytes around it. */
  lemma Regrown(mem: Memory<Block>, mem': Memory<Block>, ss: seq<Span<Block>>, i: int, b: int, a: int, t: seq<byte>)
    requires Store(mem, ss) && 0 <= i < |ss| && ss[i].At? && Fits(mem, ss[i])
    requires 0 <= b && 0 <= a && RoomAround(mem, ss[i], b, a)
    requires Written(mem, mem', Around(ss[i], b, a), t)
    ensures Stored(mem', ss[i := Around(ss[i], b, a)], Text(mem, ss)[i := t])
    ensures TotalLen(ss[i := Around(ss[i], b, a)]) == TotalLen(ss) + b + a
  {
    var s, r := ss[i], Around(ss[i], b, a);
    assert ss[i..i + 1] == [s];
    forall p, k
      ensures InAny([s], p, k) <==> In(s, p, k)
    {
      InOne(s, p, k);
    }
    WriteStep(mem, mem', ss, i, i + 1, r, t);
    OneReplaced(mem, mem', ss, i, r, t);
  }

  lemma LineOwned(mem: Memory<Block>, ss: seq<Span<Block>>, i: int)
    requires Store(mem, ss) && 0 <= i < |ss|
    ensures Fits(mem, ss[i]) && Owns(mem, ss[i])
    ensures ss[i].At? ==> ss[i].p in mem
    ensures Text(mem, ss)[i] == Bytes(mem, ss[i])
  {
  }

  /** A line has been written into fresh characters, beside the old ones. */
  lemma Doubled(mem: Memory<Block>, mem': Memory<Block>, ss: seq<Span<Block>>, i: int, r: Span<Block>, t: seq<byte>)
    requires Store(mem, ss) && 0 <= i < |ss|
    requires r.At? && Written(mem, mem', r, t) && FreeIn(mem, r)
    ensures Stored(mem', ss[..i] + [r] + ss[i..], Text(mem, ss)[..i] + [t] + Text(mem, ss)[i..])
    ensures Fits(mem', ss[i]) && Owns(mem', ss[i])
  {
    assert ss[i..i] == [];
    WriteStep(mem, mem', ss, i, i, r, t);
    assert (ss[..i] + [r] + ss[i..])[i + 1] == ss[i];
  }

  lemma Relocated(mem: Memory<Block>, mem1: Memory<Block>, mem2: Memory<Block>, ss: seq<Span<Block>>, i: int, r: Span<Block>, t: seq<byte>)
    requires Store(mem, ss) && 0 <= i < |ss|
    requires r.At? && r.len == |t| && Written(mem, mem1, r, t) && FreeIn(mem, r)
    requires Erased(mem1, mem2, ss[i])
    ensures Stored(mem2, ss[i := r], Text(mem, ss)[i := t])
    ensures TotalLen(ss[i := r]) == TotalLen(ss) - Len(ss[i]) + |t|
  {
    Doubled(mem, mem1, ss, i, r, t);
    var ss1 := ss[..i] + [r] + ss[i..];
    EraseStep(mem1, mem2, ss1, i + 1);
    assert ss1[..i + 1] + ss1[i + 2..] == ss[..i] + [r] + ss[i + 1..];
    var t1 := Text(mem1, ss1);
    assert t1[..i + 1] + t1[i + 2..] == Text(mem, ss)[..i] + [t] + Text(mem, ss)[i + 1..];
    OneReplaced(mem, mem2, ss, i, r, t);
  }

  /** The line at `i` broken at `a`. */
  lemma Split(mem: Memory<Block>, ss: seq<Span<Block>>, i: int, a: int)
    requires Store(mem, ss) && 0 <= i < |ss| && 0 <= a <= Len(ss[i])
    ensures var s := ss[i]; var ss' := ss[..i] + [Part(s, 0, a), Part(s, a, Len(s))] + ss[i + 1..];
      Stored(mem, ss', BreakLine(Text(mem, ss), Pos(i, a))) && TotalLen(ss') == TotalLen(ss)
  {
    var s := ss[i];
    SplitStep(mem, ss, i, a);
    var parts := [Part(s, 0, a), Part(s, a, Len(s))];
    TotalLenReplace(ss, i, i + 1, parts);
    TotalLenPair(Part(s, 0, a), Part(s, a, Len(s)));
    assert ss[i..i + 1] == [s];
  }

  /** The tail of a line is freed. */
  lemma CutTail(mem: Memory<Block>, mem': Memory<Block>, ss: seq<Span<Block>>, i: int, a: int)
    requires Store(mem, ss) && 0 <= i < |ss| && 0 <= a < Len(ss[i])
    requires Erased(mem, mem', Part(ss[i], a, Len(ss[i])))
    ensures Stored(mem', ss[i := Part(ss[i], 0, a)], Text(mem, ss)[i := Text(mem, ss)[i][..a]])
    ensures TotalLen(ss[i := Part(ss[i], 0, a)]) == TotalLen(ss) - (Len(ss[i]) - a)
  {
    hide Erased, AllApart, Used;
    var s, u := ss[i], Text(mem, ss);
    var l, r := Part(s, 0, a), Part(s, a, Len(s));
    SplitStep(mem, ss, i, a);
    var ss1 := ss[..i] + [l, r] + ss[i + 1..];
    assert ss1[i + 1] == r;
    EraseStep(mem, mem', ss1, i + 1);
    DropOne(ss[..i], l, r, ss[i + 1..]);
    DropOne(u[..i], u[i][..a], u[i][a..], u[i + 1..]);
    OneReplaced(mem, mem', ss, i, l, u[i][..a]);
  }

  /** The head of a line is freed. */
  lemma CutHead(mem: Memory<Block>, mem': Memory<Block>, ss: seq<Span<Block>>, i: int, a: int)
    requires Store(mem, ss) && 0 <= i < |ss| && 0 < a <= Len(ss[i])
    requires Erased(mem, mem', Part(ss[i], 0, a))
    ensures Stored(mem', ss[i := Part(ss[i], a, Len(ss[i]))], Text(mem, ss)[i := Text(mem, ss)[i][a..]])
    ensures TotalLen(ss[i := Part(ss[i], a, Len(ss[i]))]) == TotalLen(ss) - a
  {
    var s := ss[i];
    var l, r := Part(s, 0, a), Part(s, a, Len(s));
    SplitStep(mem, ss, i, a);
    var ss1 := ss[..i] + [l, r] + ss[i + 1..];
    EraseStep(mem, mem', ss1, i);
    DropOne(ss[..i], l, r, ss[i + 1..]);
    var u := Text(mem, ss);
    DropOne(u[..i], u[i][..a], u[i][a..], u[i + 1..]);
    OneReplaced(mem, mem', ss, i, r, u[i][a..]);
  }

  lemma DropOne<T>(a: seq<T>, x: T, y: T, b: seq<T>)
    ensures (a + [x, y] + b)[..|a| + 1] + (a + [x, y] + b)[|a| + 2..] == a + [x] + b
    ensures (a + [x, y] + b)[..|a|] + (a + [x, y] + b)[|a| + 1..] == a + [y] + b
  {
  }

  lemma DropSecond<T>(s: seq<T>, i: int, x: T)
    requires 0 <= i && i + 1 < |s|
    ensures s[i := x][..i + 1] + s[i := x][i + 2..] == s[..i] + [x] + s[i + 2..]
  {
  }

  lemma DropFirst<T>(s: seq<T>, i: int, x: T)
    requires 0 <= i && i + 1 < |s|
    ensures s[i + 1 := x][..i] + s[i + 1 := x][i + 1..] == s[..i] + [x] + s[i + 2..]
  {
  }

  lemma TotalLenPair(x: Span<Block>, y: Span<Block>)
    ensures TotalLen([x, y]) == Len(x) + Len(y)
  {
    assert [x, y] == [x] + [y];
    TotalLenAppend([x], [y]);
  }

  /** The bytes of a line have been rearranged. */
  lemma Rewritten(mem: Memory<Block>, mem': Memory<Block>, ss: seq<Span<Block>>, i: int, t: seq<byte>)
    requires Store(mem, ss) && 0 <= i < |ss| && ss[i].At? && Written(mem, mem', ss[i], t)
    ensures Stored(mem', ss, Text(mem, ss)[i := t])
  {
    var s := ss[i];
    assert ss[i..i + 1] == [s];
    forall p, k
      ensures InAny([s], p, k) <==> In(s, p, k)
    {
      InOne(s, p, k);
    }
    WriteStep(mem, mem', ss, i, i + 1, s, t);
    OneReplaced(mem, mem', ss, i, s, t);
    assert ss[i := s] == ss;
  }

  /** Two lines that meet in memory, or one of which is empty, become one. */
  lemma JoinedInPlace(mem: Memory<Block>, ss: seq<Span<Block>>, i: int, s: Span<Block>)
    requires Store(mem, ss) && 0 <= i && i + 1 < |ss|
    requires Meeting(ss[i], ss[i + 1], s)
    ensures var ss' := ss[..i] + [s] + ss[i + 2..];
      Stored(mem, ss', JoinLines(Text(mem, ss), i)) && TotalLen(ss') == TotalLen(ss)
  {
    var a := Len(ss[i]);
    LineOwned(mem, ss, i);
    LineOwned(mem, ss, i + 1);
    assert ss[i] == Part(s, 0, a) && ss[i + 1] == Part(s, a, Len(s));
    JoinStep(mem, ss, i, s, a);
    TotalLenJoin(ss, i, s);
  }

  /** `s` is the line made of `s1` followed by `s2`, without moving either. */
  predicate Meeting(s1: Span<Block>, s2: Span<Block>, s: Span<Block>) {
    if s1.Empty? then s == s2
    else if s2.Empty? then s == s1
    else s1.p == s2.p && s1.off + s1.len == s2.off && s == At(s1.p, s1.off, s1.len + s2.len)
  }

  lemma TotalLenDrop(ss: seq<Span<Block>>, i: int)
    requires 0 <= i < |ss|
    ensures TotalLen(ss[..i] + ss[i + 1..]) == TotalLen(ss) - Len(ss[i])
  {
    assert ss[i..i + 1] == [ss[i]];
    TotalLenSplit(ss, i, i + 1);
    TotalLenAppend(ss[..i], ss[i + 1..]);
  }

  lemma Dropped(mem: Memory<Block>, mem': Memory<Block>, ss: seq<Span<Block>>, i: int)
    requires Store(mem, ss) && 0 <= i < |ss| && Erased(mem, mem', ss[i])
    ensures Stored(mem', ss[..i] + ss[i + 1..], Text(mem, ss)[..i] + Text(mem, ss)[i + 1..])
    ensures TotalLen(ss[..i] + ss[i + 1..]) == TotalLen(ss) - Len(ss[i])
  {
    EraseStep(mem, mem', ss, i);
    TotalLenDrop(ss, i);
  }

  /** The lines after a join, in the two orders in which it is done. */
  lemma JoinedThenDropped(t: seq<Line>, i: int)
    requires 0 <= i && i + 1 < |t|
    ensures var u := InsertInLine(t, Pos(i, |t[i]|), t[i + 1]); u[..i + 1] + u[i + 2..] == JoinLines(t, i)
    ensures var u := InsertInLine(t, Pos(i + 1, 0), t[i]); u[..i] + u[i + 1..] == JoinLines(t, i)
  {
    assert Splice(t[i], |t[i]|, t[i + 1]) == t[i] + t[i + 1] == Splice(t[i + 1], 0, t[i]);
    DropSecond(t, i, t[i] + t[i + 1]);
    DropFirst(t, i, t[i] + t[i + 1]);
  }

  lemma TotalLenJoin(ss: seq<Span<Block>>, i: int, r: Span<Block>)
    requires 0 <= i && i + 1 < |ss|
    ensures TotalLen(ss[..i] + [r] + ss[i + 2..]) == TotalLen(ss) - Len(ss[i]) - Len(ss[i + 1]) + Len(r)
  {
    assert ss[i..i + 2] == [ss[i], ss[i + 1]];
    TotalLenPair(ss[i], ss[i + 1]);
    TotalLenReplace(ss, i, i + 2, [r]);
  }

  /** The two ways of closing the gap left by `n` bytes deleted at `pos`. */
  lemma GapClosed(l: seq<byte>, pos: int, n: int)
    requires 0 <= pos && 0 <= n && pos + n <= |l|
    ensures Blit(l, n, l[0..pos])[n..] == Cut(l, pos, n)
    ensures Blit(l, pos, l[pos + n..|l|])[..|l| - n] == Cut(l, pos, n)
    ensures pos + n == |l| ==> l[..pos] == Cut(l, pos, n)
  {
  }

  /** The line descriptors of a buffer and the pools their lines live in. */
  class LineStore {
    const chars: PoolList
    var lines: seq<Span<Block>>  // the line descriptors: a line pointer and a length
    var numLines: int
    var isModified: bool

    /** A cleared buffer: one empty line. */
    constructor ()
      ensures Valid() && fresh(Repr())
      ensures Content() == [[]]
    {
      chars := new PoolList();
      lines, numLines, isModified := [Empty], 1, false;
    }

    /** The lines of a file over the pool it was loaded into. */
    constructor OfFile(chars: PoolList, lines: seq<Span<Block>>)
      requires chars.Valid(Empty) && Store(chars.mem, lines) && chars.Live() == TotalLen(lines) && lines != []
      ensures Valid() && this.chars == chars && Repr() == {this as object, chars} + chars.mem.Keys
      ensures Content() == Text(chars.mem, lines)
    {
      this.chars, this.lines, numLines, isModified := chars, lines, |lines|, false;
    }

    ghost function Repr(): set<object>
      reads this, chars
    {
      {this as object, chars} + chars.mem.Keys
    }

    ghost predicate Valid()
      reads Repr()
    {
      && chars.Valid(Empty)
      && Store(chars.mem, lines)
      && chars.Live() == TotalLen(lines)
      && numLines == |lines| > 0
    }

    ghost function Content(): (t: seq<Line>)
      requires Valid()
      reads Repr()
      ensures |t| == |lines| == numLines && numLines > 0
      ensures forall i | 0 <= i < |t| :: |t[i]| == Len(lines[i])
    {
      Text(chars.mem, lines)
    }

    // ----- putting characters into a line, in each of the three cases

    /** The line has no characters yet. */
    method FillLine(i: int, t: seq<byte>)
      requires Valid() && 0 <= i < |lines| && lines[i].Empty?
      requires t != [] && NoNul(t)
      modifies Repr()
      ensures Valid() && fresh(Repr() - old(Repr()))
      ensures Content() == InsertInLine(old(Content()), Pos(i, 0), t)
    {
      hide Store, Written, FreeIn, PoolsOk;
      var r := chars.PlaceNew(t);
      Filled(old(chars.mem), chars.mem, lines, i, r, t);
      lines := lines[i := r];
    }

    /** There are not enough free characters around the line: it moves elsewhere. */
    method RelocateLine(i: int, pos: int, t: seq<byte>)
      requires Valid() && 0 <= i < |lines| && lines[i].At? && 0 <= pos <= lines[i].len
      requires t != [] && NoNul(t)
      modifies Repr()
      ensures Valid() && fresh(Repr() - old(Repr()))
      ensures Content() == InsertInLine(old(Content()), Pos(i, pos), t)
    {
      hide Store, Written, FreeIn, PoolsOk, Erased, Owns;
      var s := lines[i];
      LineOwned(chars.mem, lines, i);
      ghost var mem, l := chars.mem, Splice(Bytes(chars.mem, s), pos, t);
      var r := chars.PlaceSpliced(s, pos, t);
      Doubled(mem, chars.mem, lines, i, r, l);
      ghost var mem1 := chars.mem;
      chars.FreeChars(s);
      Relocated(mem, mem1, chars.mem, lines, i, r, l);
      lines := lines[i := r];
    }

    /** Puts characters into a line that already has some. */
    method GrowLine(i: int, pos: int, t: seq<byte>)
      requires Valid() && 0 <= i < |lines| && lines[i].At? && 0 <= pos <= lines[i].len
      requires t != [] && NoNul(t)
      modifies Repr()
      ensures Valid() && fresh(Repr() - old(Repr()))
      ensures Content() == InsertInLine(old(Content()), Pos(i, pos), t)
    {
      hide Store, PoolsOk, NoNul, RoomAround;
      var ok := TryGrow(i, pos, t, pos < lines[i].len / 2);
      if !ok {
        RelocateLine(i, pos, t);
      }
    }

    /** Breaks a line in two without moving any byte. */
    method SplitLine(i: int, pos: int)
      requires Valid() && 0 <= i < |lines| && 0 <= pos <= Len(lines[i])
      modifies this
      ensures Valid() && Repr() == old(Repr())
      ensures Content() == BreakLine(old(Content()), Pos(i, pos))
    {
      hide Store, PoolsOk;
      var s := lines[i];
      Split(chars.mem, lines, i, pos);
      lines := lines[..i] + [Part(s, 0, pos), Part(s, pos, Len(s))] + lines[i + 1..];
      numLines := numLines + 1;
    }

    /** Frees the bytes of a line from `a` on. */
    method FreeTail(i: int, a: int)
      requires Valid() && 0 <= i < |lines| && 0 <= a < Len(lines[i])
      modifies Repr()
      ensures Valid() && Repr() <= old(Repr())
      ensures Content() == old(Content())[i := old(Content())[i][..a]]
    {
      hide Store, PoolsOk, Owns, Erased;
      var s := lines[i];
      LineOwned(chars.mem, lines, i);
      PartsOwned(chars.mem, s, a);
      chars.FreeChars(Part(s, a, s.len));
      CutTail(old(chars.mem), chars.mem, lines, i, a);
      lines := lines[i := Part(s, 0, a)];
    }

    /** Frees the bytes of a line in front of `a`. */
    method FreeHead(i: int, a: int)
      requires Valid() && 0 <= i < |lines| && 0 < a <= Len(lines[i])
      modifies Repr()
      ensures Valid() && Repr() <= old(Repr())
      ensures Content() == old(Content())[i := old(Content())[i][a..]]
    {
      hide Store, PoolsOk, Owns, Erased;
      var s := lines[i];
      LineOwned(chars.mem, lines, i);
      PartsOwned(chars.mem, s, a);
      chars.FreeChars(Part(s, 0, a));
      CutHead(old(chars.mem), chars.mem, lines, i, a);
      lines := lines[i := Part(s, a, s.len)];
    }

    /** Copies the bytes of a line from `from` up to `to` to offset `at` of the line. */
    method ShiftInLine(i: int, at: int, from: int, to: int)
      requires Valid() && 0 <= i < |lines| && lines[i].At?
      requires 0 <= from <= to <= lines[i].len && 0 <= at && at + to - from <= lines[i].len
      modifies Repr()
      ensures Valid() && Repr() == old(Repr()) && lines == old(lines)
      ensures var l := old(Content())[i]; Content() == old(Content())[i := Blit(l, at, l[from..to])]
    {
      hide Store, PoolsOk, Owns, Written, Blit;
      LineOwned(chars.mem, lines, i);
      var s := lines[i];
      chars.MoveInLine(s, at, from, to);
      Rewritten(old(chars.mem), chars.mem, lines, i, Blit(Bytes(old(chars.mem), s), at, Bytes(old(chars.mem), s)[from..to]));
    }

    /** Deletes `n` bytes inside a line, moving the shorter part of the rest. */
    method DeletePart(i: int, pos: int, n: int)
      requires Valid() && 0 <= i < |lines| && 0 <= pos && 0 < n && pos + n <= Len(lines[i])
      modifies Repr()
      ensures Valid() && Repr() <= old(Repr())
      ensures Content() == DeleteInLine(old(Content()), Pos(i, pos), n)
    {
      hide Store, PoolsOk, Blit, Cut;
      var len := Len(lines[i]);
      ghost var l := Content()[i];
      GapClosed(l, pos, n);
      if n == len - pos {
        FreeTail(i, pos);
      } else if pos < len / 2 {
        ShiftInLine(i, n, 0, pos);
        FreeHead(i, n);
      } else {
        ShiftInLine(i, pos, pos + n, len);
        FreeTail(i, len - n);
      }
    }

    /** Part of a line, as it is logged before it is deleted. */
    method ReadPart(i: int, pos: int, n: int) returns (s: seq<byte>)
      requires Valid() && 0 <= i < |lines| && 0 <= pos && 0 < n && pos + n <= Len(lines[i])
      ensures s == Content()[i][pos..pos + n]
    {
      hide Store, PoolsOk;
      LineOwned(chars.mem, lines, i);
      var l := chars.Read(lines[i]);
      s := l[pos..pos + n];
    }

    // ----- joining a line with the next one

    /** One of the lines is empty, or the second follows the first in memory. */
    method JoinMeeting(i: int, s: Span<Block>)
      requires Valid() && 0 <= i && i + 1 < |lines| && Meeting(lines[i], lines[i + 1], s)
      modifies this
      ensures Valid() && Repr() == old(Repr())
      ensures Content() == JoinLines(old(Content()), i)
    {
      hide Store, PoolsOk;
      JoinedInPlace(chars.mem, lines, i, s);
      lines := lines[..i] + [s] + lines[i + 2..];
      numLines := numLines - 1;
    }

    /** Frees a line and its descriptor. */
    method DropLine(i: int)
      requires Valid() && 0 <= i < |lines| && lines[i].At? && 1 < |lines|
      modifies Repr()
      ensures Valid() && Repr() <= old(Repr())
      ensures Content() == old(Content())[..i] + old(Content())[i + 1..]
    {
      hide Store, PoolsOk, Owns, Erased;
      var s := lines[i];
      LineOwned(chars.mem, lines, i);
      chars.FreeChars(s);
      Dropped(old(chars.mem), chars.mem, lines, i);
      lines := lines[..i] + lines[i + 1..];
      numLines := numLines - 1;
    }

    /** Puts characters into a line if there are enough free ones around it. */
    method TryGrow(i: int, pos: int, t: seq<byte>, checkFirstBefore: bool) returns (ok: bool)
      requires Valid() && 0 <= i < |lines| && lines[i].At? && 0 <= pos <= lines[i].len
      requires t != [] && NoNul(t)
      modifies Repr()
      ensures Valid() && Repr() == old(Repr()) && |lines| == old(|lines|)
      ensures ok ==> Content() == InsertInLine(old(Content()), Pos(i, pos), t)
      ensures ok ==> forall j | 0 <= j < |lines| && j != i :: lines[j] == old(lines[j])
      ensures !ok ==> lines == old(lines) && Content() == old(Content())
      ensures !ok ==> forall b, a | 0 <= b && 0 <= a && b + a == |t| :: !RoomAround(chars.mem, lines[i], b, a)
    {
      hide Store, Written, RoomAround, PoolsOk, Owns;
      var s := lines[i];
      LineOwned(chars.mem, lines, i);
      var result := chars.AllocCharsAround(s, |t|, checkFirstBefore);
      ok := result >= 0;
      if ok {
        ghost var mem := chars.mem;
        chars.SpliceInPlace(s, pos, t, result);
        Regrown(mem, chars.mem, lines, i, |t| - result, result, Splice(Bytes(mem, s), pos, t));
        lines := lines[i := Around(s, |t| - result, result)];
      }
    }

    /** Neither line is empty and they do not meet in memory: there is room around the first one,
        or around the second one, or both are copied elsewhere. */
    method JoinByCopy(i: int)
      requires Valid() && 0 <= i && i + 1 < |lines| && lines[i].At? && lines[i + 1].At?
      modifies Repr()
      ensures Valid() && fresh(Repr() - old(Repr()))
      ensures Content() == JoinLines(old(Content()), i)
    {
      hide Store, PoolsOk, Owns, NoNul, RoomAround;
      var s1, s2 := lines[i], lines[i + 1];
      LineOwned(chars.mem, lines, i);
      LineOwned(chars.mem, lines, i + 1);
      LineNoNul(chars.mem, s1);
      LineNoNul(chars.mem, s2);
      var t1, t2 := chars.Read(s1), chars.Read(s2);
      JoinedThenDropped(Content(), i);
      var ok := TryGrow(i, s1.len, t2, false);
      if ok {
        DropLine(i + 1);
        return;
      }
      ok := TryGrow(i + 1, 0, t1, true);
      if ok {
        DropLine(i);
        return;
      }
      RelocateLine(i, s1.len, t2);
      DropLine(i + 1);
    }

    /** Joins a line with the next one. */
    method JoinNext(i: int)
      requires Valid() && 0 <= i && i + 1 < |lines|
      modifies Repr()
      ensures Valid() && fresh(Repr() - old(Repr()))
      ensures Content() == JoinLines(old(Content()), i)
    {
      hide Store, PoolsOk;
      var s1, s2 := lines[i], lines[i + 1];
      if s1.Empty? {
        JoinMeeting(i, s2);
      } else if s2.Empty? {
        JoinMeeting(i, s1);
      } else if s1.p == s2.p && s1.off + s1.len == s2.off {
        JoinMeeting(i, At(s1.p, s1.off, s1.len + s2.len));
      } else {
        JoinByCopy(i);
      }
    }
  }
}
