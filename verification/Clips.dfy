/** Copying, cutting and pasting a block of text: the bytes between the mark and the cursor. */
module Clips {
  import opened Integers
  import opened FlatText
  import opened Characters
  import opened Spans
  import opened CharPools
  import opened Marks
  import opened TextStore
  import opened Edits
  import opened EditLaws

  // ---- What a clip should hold

  /** The text from a position to a later one, line by line. */
  function Between(t: seq<Line>, i: int, p: int, j: int, q: int): seq<byte>
    requires 0 <= i <= j < |t| && 0 <= p <= |t[i]| && 0 <= q <= |t[j]| && (i == j ==> p <= q)
    decreases j - i
  {
    if i == j then t[i][p..q] else t[i][p..] + [0] + Between(t, i + 1, 0, j, q)
  }

  /** It is a slice of the flattened text. */
  lemma BetweenIsSlice(t: seq<Line>, i: int, p: int, j: int, q: int)
    requires 0 <= i <= j < |t| && 0 <= p <= |t[i]| && 0 <= q <= |t[j]| && (i == j ==> p <= q)
    ensures var a, b := Offset(t, Pos(i, p)), Offset(t, Pos(j, q));
            a <= b <= |Flat(t)| && Flat(t)[a..b] == Between(t, i, p, j, q)
  {
    hide Offset, Flat, Between;
    BetweenSliced(t, i, p, j, q);
  }

  ghost predicate Slice(f: seq<byte>, a: int, b: int, s: seq<byte>) {
    0 <= a <= b <= |f| && f[a..b] == s
  }

  lemma {:induction false} BetweenSliced(t: seq<Line>, i: int, p: int, j: int, q: int)
    requires 0 <= i <= j < |t| && 0 <= p <= |t[i]| && 0 <= q <= |t[j]| && (i == j ==> p <= q)
    ensures Slice(Flat(t), Offset(t, Pos(i, p)), Offset(t, Pos(j, q)), Between(t, i, p, j, q))
    decreases j - i
  {
    hide Slice, Flat, Offset;
    if i == j {
      InLine(t, i, p, q);
    } else {
      BetweenSliced(t, i + 1, 0, j, q);
      EndOfLine(t, i, p);
      Joined(Flat(t), Offset(t, Pos(i, p)), Offset(t, Pos(i + 1, 0)), Offset(t, Pos(j, q)), t[i][p..] + [0], Between(t, i + 1, 0, j, q));
    }
  }

  lemma Joined(f: seq<byte>, a: int, m: int, b: int, x: seq<byte>, y: seq<byte>)
    requires Slice(f, a, m, x) && Slice(f, m, b, y)
    ensures Slice(f, a, b, x + y)
  {
    assert f[a..b] == f[a..m] + f[m..b];
  }

  lemma InLine(t: seq<Line>, i: int, p: int, q: int)
    requires 0 <= i < |t| && 0 <= p <= q <= |t[i]|
    ensures Slice(Flat(t), Offset(t, Pos(i, p)), Offset(t, Pos(i, q)), t[i][p..q])
  {
    FlatAt(t, i);
    InMiddle(Before(t[..i]), t[i], After(t[i + 1..]), p, q);
  }

  lemma InMiddle(head: seq<byte>, l: seq<byte>, rest: seq<byte>, p: int, q: int)
    requires 0 <= p <= q <= |l|
    ensures Slice(head + l + rest, |head| + p, |head| + q, l[p..q])
  {
  }

  /** The end of a line with the NUL behind it. */
  lemma EndOfLine(t: seq<Line>, i: int, p: int)
    requires 0 <= i && i + 1 < |t| && 0 <= p <= |t[i]|
    ensures Slice(Flat(t), Offset(t, Pos(i, p)), Offset(t, Pos(i + 1, 0)), t[i][p..] + [0])
  {
    hide Slice;
    FlatAt(t, i);
    NextLineStart(t, i);
    var head, rest := Before(t[..i]), t[i + 1] + After(t[i + 2..]);
    assert t[i + 1..][1..] == t[i + 2..] && After(t[i + 1..]) == [0] + rest;
    assert head + t[i] + ([0] + rest) == head + (t[i] + [0]) + rest;
    InMiddle(head, t[i] + [0], rest, p, |t[i]| + 1);
    assert (t[i] + [0])[p..|t[i]| + 1] == t[i][p..] + [0];
  }

  lemma NextLineStart(t: seq<Line>, i: int)
    requires 0 <= i && i + 1 < |t|
    ensures Offset(t, Pos(i + 1, 0)) == Offset(t, Pos(i, 0)) + |t[i]| + 1
  {
    assert t[..i + 1] == t[..i] + [t[i]];
    BeforeAppend(t[..i], [t[i]]);
    assert [t[i]][1..] == [];
  }

  /** One more line at the end. */
  lemma {:induction false} BetweenSnoc(t: seq<Line>, i: int, p: int, j: int, q: int)
    requires 0 <= i <= j && j + 1 < |t| && 0 <= p <= |t[i]| && 0 <= q <= |t[j + 1]|
    ensures Between(t, i, p, j + 1, q) == Between(t, i, p, j, |t[j]|) + [0] + t[j + 1][..q]
    decreases j - i
  {
    if i < j {
      BetweenSnoc(t, i + 1, 0, j, q);
    } else {
      assert Between(t, j + 1, 0, j + 1, q) == t[j + 1][..q];
    }
  }

  function Clamped(t: seq<Line>, p: Pos): Pos
    requires 0 <= p.line < |t| && 0 <= p.pos
  {
    Pos(p.line, Min(p.pos, |t[p.line]|))
  }

  predicate Ahead(p: Pos, q: Pos) {
    p.line < q.line || (p.line == q.line && p.pos <= q.pos)
  }

  /** The block between two positions, whichever comes first. */
  function BlockOf(t: seq<Line>, p: Pos, q: Pos): seq<byte>
    requires 0 <= p.line < |t| && 0 <= p.pos && 0 <= q.line < |t| && 0 <= q.pos
  {
    var a, b := Clamped(t, p), Clamped(t, q);
    if Ahead(a, b) then Between(t, a.line, a.pos, b.line, b.pos) else Between(t, b.line, b.pos, a.line, a.pos)
  }

  // ---- The loops

  /** The first pass backwards from the cursor: the lengths are added up. */
  method MeasureBackwards(b: Buffer, mark: Pos, cur: Pos) returns (total: int)
    requires b.Valid() && Inside(b.Content(), mark) && Inside(b.Content(), cur) && Ahead(mark, cur)
    ensures total == |Between(b.Content(), mark.line, mark.pos, cur.line, cur.pos)|
  {
    hide Store, PoolsOk, LineStore.Valid, LineStore.Content, MarkSet.Valid, MarkSet.Places, Flat;
    total := 0;
    var i := cur.line;
    while i >= mark.line
      invariant mark.line - 1 <= i <= cur.line
      invariant total == |Rest(b.Content(), mark, i + 1, cur)|
    {
      var start, end := StartOf(i, mark), EndOf(b, i, cur);
      total := total + (end - start) + if i != cur.line then 1 else 0;
      i := i - 1;
    }
  }

  /** The second pass: the bytes are written from the end of the clip to its start. */
  method CopyBackwards(b: Buffer, mark: Pos, cur: Pos) returns (clip: array<byte>)
    requires b.Valid() && Inside(b.Content(), mark) && Inside(b.Content(), cur) && Ahead(mark, cur)
    ensures fresh(clip) && clip[..] == Between(b.Content(), mark.line, mark.pos, cur.line, cur.pos)
  {
    hide Store, PoolsOk, LineStore.Valid, LineStore.Content, MarkSet.Valid, MarkSet.Places, Flat, Rest, Between;
    ghost var t := b.Content();
    var total := MeasureBackwards(b, mark, cur);
    clip := new byte[total];
    var p, i := total, cur.line;
    RestEnds(t, mark, cur);
    while i >= mark.line
      invariant mark.line - 1 <= i <= cur.line && 0 <= p <= clip.Length
      invariant |Rest(t, mark, mark.line, cur)| == clip.Length && fresh(clip)
      invariant p == clip.Length - |Rest(t, mark, i + 1, cur)| && clip[p..] == Rest(t, mark, i + 1, cur)
    {
      RestStep(t, mark, i, cur);
      RestShrinks(t, mark, i, cur);
      p := WriteBefore(b, clip, p, i, StartOf(i, mark), EndOf(b, i, cur), i != cur.line, Rest(t, mark, i + 1, cur));
      i := i - 1;
    }
  }

  /** Part of a line and perhaps a line break, in front of what has been written. */
  method WriteBefore(b: Buffer, clip: array<byte>, p0: int, i: int, start: int, end: int, sep: bool, ghost tail: seq<byte>) returns (p: int)
    requires b.Valid() && 0 <= i < |b.Content()| && 0 <= start <= end <= |b.Content()[i]| && clip !in b.Repr()
    requires 0 <= p0 - (end - start) - (if sep then 1 else 0) && p0 <= clip.Length && clip[p0..] == tail
    modifies clip
    ensures p == p0 - (end - start) - (if sep then 1 else 0)
    ensures clip[p..] == b.Content()[i][start..end] + (if sep then [0] else []) + tail
  {
    hide Store, PoolsOk, LineStore.Valid, LineStore.Content, MarkSet.Valid, MarkSet.Places;
    var s := PartOf(b, i, start, end);
    p := p0;
    if sep {
      p := p - 1;
      clip[p] := 0;
      assert clip[p..] == [0] + clip[p0..];
    }
    ghost var rest := clip[p..];
    p := p - |s|;
    CopyIn(clip, p, s, rest);
  }

  /** The bytes of a line that go into the clip. */
  method PartOf(b: Buffer, i: int, start: int, end: int) returns (s: seq<byte>)
    requires b.Valid() && 0 <= i < |b.Content()| && 0 <= start <= end <= |b.Content()[i]|
    ensures s == b.Content()[i][start..end]
  {
    hide Store, PoolsOk;
    s := [];
    if start < end {
      s := b.store.ReadPart(i, start, end - start);
    }
  }

  /** Where the block starts in a line, going back to the mark. */
  function StartOf(i: int, mark: Pos): int {
    if i == mark.line then mark.pos else 0
  }

  /** Where it ends, going back from the cursor. */
  function EndOf(b: Buffer, i: int, cur: Pos): int
    requires 0 <= i < |b.store.lines|
    reads b.store
  {
    if i == cur.line then cur.pos else Len(b.store.lines[i])
  }

  /** The block from line `i` on; nothing from behind the cursor's line on. */
  function Rest(t: seq<Line>, mark: Pos, i: int, cur: Pos): seq<byte>
    requires Inside(t, mark) && Inside(t, cur) && Ahead(mark, cur) && mark.line <= i <= cur.line + 1
  {
    if i > cur.line then [] else Between(t, i, StartOf(i, mark), cur.line, cur.pos)
  }

  lemma RestEnds(t: seq<Line>, mark: Pos, cur: Pos)
    requires Inside(t, mark) && Inside(t, cur) && Ahead(mark, cur)
    ensures Rest(t, mark, cur.line + 1, cur) == []
    ensures Rest(t, mark, mark.line, cur) == Between(t, mark.line, mark.pos, cur.line, cur.pos)
  {
  }

  lemma RestStep(t: seq<Line>, mark: Pos, i: int, cur: Pos)
    requires Inside(t, mark) && Inside(t, cur) && Ahead(mark, cur) && mark.line <= i <= cur.line
    ensures Rest(t, mark, i, cur) == t[i][StartOf(i, mark)..if i == cur.line then cur.pos else |t[i]|]
                                     + (if i != cur.line then [0] else []) + Rest(t, mark, i + 1, cur)
  {
  }

  /** From a line between mark and cursor on, there is no more than from the mark on. */
  lemma {:induction false} RestShrinks(t: seq<Line>, mark: Pos, i: int, cur: Pos)
    requires Inside(t, mark) && Inside(t, cur) && Ahead(mark, cur) && mark.line <= i <= cur.line
    ensures |Rest(t, mark, i, cur)| <= |Rest(t, mark, mark.line, cur)|
    decreases i
  {
    if i > mark.line {
      RestShrinks(t, mark, i - 1, cur);
      RestStep(t, mark, i - 1, cur);
    }
  }

  /** memcpy() in front of what has been written. */
  method CopyIn(clip: array<byte>, p: int, s: seq<byte>, ghost tail: seq<byte>)
    requires 0 <= p && p + |s| <= clip.Length && clip[p + |s|..] == tail
    modifies clip
    ensures clip[p..] == s + tail && clip[..p] == old(clip[..p])
  {
    for k := 0 to |s|
      invariant clip[p..p + k] == s[..k] && clip[p + |s|..] == tail && clip[..p] == old(clip[..p])
    {
      clip[p + k] := s[k];
      assert clip[p..p + (k + 1)] == clip[p..p + k] + [s[k]];
    }
    assert clip[p..] == clip[p..p + |s|] + clip[p + |s|..];
  }

  /** The first pass forwards from the cursor to the mark. */
  method MeasureForwards(b: Buffer, cur: Pos, mark: Pos) returns (total: int)
    requires b.Valid() && Inside(b.Content(), mark) && Inside(b.Content(), cur) && Ahead(cur, mark)
    ensures total == |Between(b.Content(), cur.line, cur.pos, mark.line, mark.pos)|
  {
    hide Store, PoolsOk, LineStore.Valid, LineStore.Content, MarkSet.Valid, MarkSet.Places, Flat, Between;
    ghost var t := b.Content();
    total := 0;
    var i := cur.line;
    while i <= mark.line
      invariant cur.line <= i <= mark.line + 1
      invariant total == if i == cur.line then 0 else |Done(t, cur, i - 1, mark)|
    {
      var start, end := StartOf(i, cur), EndOf(b, i, mark);
      DoneStep(t, cur, i, mark);
      total := total + (end - start) + if i != cur.line then 1 else 0;
      i := i + 1;
    }
  }

  /** The second pass. */
  method CopyForwards(b: Buffer, cur: Pos, mark: Pos) returns (clip: array<byte>)
    requires b.Valid() && Inside(b.Content(), mark) && Inside(b.Content(), cur) && Ahead(cur, mark)
    ensures fresh(clip) && clip[..] == Between(b.Content(), cur.line, cur.pos, mark.line, mark.pos)
  {
    hide Store, PoolsOk, LineStore.Valid, LineStore.Content, MarkSet.Valid, MarkSet.Places, Flat, Done, IsHead;
    ghost var t := b.Content();
    var total := MeasureForwards(b, cur, mark);
    clip := new byte[total];
    var p, i := 0, cur.line;
    ghost var head: seq<byte> := [];
    DoneEnds(t, cur, mark);
    HeadEnds(t, cur, mark, head);
    while i <= mark.line
      invariant cur.line <= i <= mark.line + 1 && 0 <= p <= clip.Length && fresh(clip)
      invariant |Done(t, cur, mark.line, mark)| == clip.Length && clip[..p] == head
      invariant IsHead(t, cur, i, mark, head)
    {
      HeadStep(t, cur, i, mark, head, p, clip.Length);
      p := WriteAfter(b, clip, p, i, StartOf(i, cur), EndOf(b, i, mark), i != mark.line, head);
      head := clip[..p];
      i := i + 1;
    }
    HeadEnds(t, cur, mark, head);
  }

  /** Part of a line and perhaps a line break, behind what has been written. */
  method WriteAfter(b: Buffer, clip: array<byte>, p0: int, i: int, start: int, end: int, sep: bool, ghost head: seq<byte>) returns (p: int)
    requires b.Valid() && 0 <= i < |b.Content()| && 0 <= start <= end <= |b.Content()[i]| && clip !in b.Repr()
    requires 0 <= p0 && p0 + (end - start) + (if sep then 1 else 0) <= clip.Length && clip[..p0] == head
    modifies clip
    ensures p == p0 + (end - start) + (if sep then 1 else 0)
    ensures clip[..p] == head + b.Content()[i][start..end] + (if sep then [0] else [])
  {
    hide Store, PoolsOk, LineStore.Valid, LineStore.Content, MarkSet.Valid, MarkSet.Places;
    p := p0;
    var s := PartOf(b, i, start, end);
    CopyIn(clip, p, s, clip[p + |s|..]);
    assert clip[..p + |s|] == clip[..p] + clip[p..][..|s|];
    p := p + |s|;
    ghost var done := clip[..p];
    if sep {
      clip[p] := 0;
      p := p + 1;
      assert clip[..p] == done + [0];
    }
  }

  /** The block as far as line `i`. */
  function Done(t: seq<Line>, cur: Pos, i: int, mark: Pos): seq<byte>
    requires Inside(t, mark) && Inside(t, cur) && Ahead(cur, mark) && cur.line <= i <= mark.line
  {
    Between(t, cur.line, cur.pos, i, if i == mark.line then mark.pos else |t[i]|)
  }

  /** What has been written when the loop comes to line `i`. */
  ghost predicate IsHead(t: seq<Line>, cur: Pos, i: int, mark: Pos, head: seq<byte>)
    requires Inside(t, mark) && Inside(t, cur) && Ahead(cur, mark) && cur.line <= i <= mark.line + 1
  {
    head == if i == cur.line then [] else Done(t, cur, i - 1, mark) + if i <= mark.line then [0] else []
  }

  lemma HeadStep(t: seq<Line>, cur: Pos, i: int, mark: Pos, head: seq<byte>, p: int, total: int)
    requires Inside(t, mark) && Inside(t, cur) && Ahead(cur, mark) && cur.line <= i <= mark.line
    requires IsHead(t, cur, i, mark, head) && |head| == p && |Done(t, cur, mark.line, mark)| == total
    ensures var part, sep := t[i][StartOf(i, cur)..if i == mark.line then mark.pos else |t[i]|], if i != mark.line then [0] else [];
            IsHead(t, cur, i + 1, mark, head + part + sep) && p + |part| + |sep| <= total
  {
    hide Done;
    DoneStep(t, cur, i, mark);
    DoneShorter(t, cur, i, mark);
  }

  lemma HeadEnds(t: seq<Line>, cur: Pos, mark: Pos, head: seq<byte>)
    requires Inside(t, mark) && Inside(t, cur) && Ahead(cur, mark)
    ensures IsHead(t, cur, cur.line, mark, [])
    ensures IsHead(t, cur, mark.line + 1, mark, head) ==> head == Done(t, cur, mark.line, mark)
  {
  }

  lemma DoneEnds(t: seq<Line>, cur: Pos, mark: Pos)
    requires Inside(t, mark) && Inside(t, cur) && Ahead(cur, mark)
    ensures Done(t, cur, mark.line, mark) == Between(t, cur.line, cur.pos, mark.line, mark.pos)
  {
  }

  lemma DoneStep(t: seq<Line>, cur: Pos, i: int, mark: Pos)
    requires Inside(t, mark) && Inside(t, cur) && Ahead(cur, mark) && cur.line <= i <= mark.line
    ensures var part := t[i][StartOf(i, cur)..if i == mark.line then mark.pos else |t[i]|];
            Done(t, cur, i, mark) == if i == cur.line then part else Done(t, cur, i - 1, mark) + [0] + part
  {
    if i > cur.line {
      BetweenSnoc(t, cur.line, cur.pos, i - 1, if i == mark.line then mark.pos else |t[i]|);
    }
  }

  lemma {:induction false} DoneShorter(t: seq<Line>, cur: Pos, i: int, mark: Pos)
    requires Inside(t, mark) && Inside(t, cur) && Ahead(cur, mark) && cur.line <= i <= mark.line
    ensures |Done(t, cur, i, mark)| + (if i < mark.line then 1 else 0) <= |Done(t, cur, mark.line, mark)|
    decreases mark.line - i
  {
    if i < mark.line {
      DoneStep(t, cur, i + 1, mark);
      DoneShorter(t, cur, i + 1, mark);
    }
  }

  // ---- The operations

  datatype Outcome = Ok | MarkBlockFirst | MarkOutOfBuffer | ClipDoesntExist

  /** The numbered clips. */
  class ClipList {
    var clips: map<int, seq<byte>>

    /** copy_to_clip() without cutting: positions beyond the end of their line stand for its end. */
    method CopyToClip(b: Buffer, marking: bool, mark: Pos, cur: Pos, n: int) returns (r: Outcome)
      requires b.Valid() && 0 <= cur.line < |b.Content()| && 0 <= cur.pos && 0 <= mark.line && 0 <= mark.pos
      modifies this
      ensures r == if !marking then MarkBlockFirst else if mark.line >= |b.Content()| then MarkOutOfBuffer else Ok
      ensures clips == if r == Ok then old(clips)[n := BlockOf(b.Content(), mark, cur)] else old(clips)
    {
      hide Store, PoolsOk, LineStore.Valid, LineStore.Content, MarkSet.Valid, MarkSet.Places, Between;
      if !marking {
        return MarkBlockFirst;
      }
      if mark.line >= b.store.numLines {
        return MarkOutOfBuffer;
      }
      var len := Len(b.store.lines[cur.line]);
      var c, m := Pos(cur.line, Min(cur.pos, len)), Pos(mark.line, Min(mark.pos, Len(b.store.lines[mark.line])));
      var clip;
      if cur.line == mark.line && (cur.pos == mark.pos || (cur.pos >= len && mark.pos >= len)) {
        clip := new byte[0];
        EmptyBlock(b.Content(), c);
      } else if cur.line > mark.line || (cur.line == mark.line && cur.pos > mark.pos) {
        clip := CopyBackwards(b, m, c);
      } else {
        clip := CopyForwards(b, c, m);
        OneWay(b.Content(), m, c);
      }
      clips := clips[n := clip[..]];
      return Ok;
    }

    /** copy_to_clip() with cutting. If the earlier end of the block is beyond the end of its line,
        spaces are put in up to there first. The result says where the cursor ends up. */
    method Cut(b: Buffer, mark: Pos, cur: Pos, n: int) returns (start: Pos)
      requires b.Valid() && OnLine(b.Content(), mark) && OnLine(b.Content(), cur)
      modifies this, b.Repr()
      ensures b.Valid() && fresh(b.Repr() - old(b.Repr()))
      ensures NoBlock(old(b.Content()), mark, cur) ==>
                start == cur && b.Content() == old(b.Content()) && clips == old(clips)[n := []]
      ensures !NoBlock(old(b.Content()), mark, cur) ==>
                && start == (if Ahead(mark, cur) then mark else cur)
                && clips == old(clips)[n := BlockOf(Padded(old(b.Content()), start), mark, cur)]
      ensures !NoBlock(old(b.Content()), mark, cur) ==>
                var t := Padded(old(b.Content()), start); var o := Offset(t, start);
                && o + |clips[n]| <= |Flat(t)| && Flat(t)[o..o + |clips[n]|] == clips[n]
                && Flat(b.Content()) == FlatText.Cut(Flat(t), o, |clips[n]|)
                && Inside(b.Content(), start) && Offset(b.Content(), start) == o
    {
      hide Store, PoolsOk, LineStore.Valid, LineStore.Content, MarkSet.Valid, MarkSet.Places, Flat, Between, FollowOut, BlockOf;
      var len := Len(b.store.lines[cur.line]);
      if cur.line == mark.line && (cur.pos == mark.pos || (cur.pos >= len && mark.pos >= len)) {
        clips := clips[n := []];
        return cur;
      }
      start := if Ahead(mark, cur) then mark else cur;
      Pad(b, start);
      CutOut(b, mark, cur, n, start);
    }

    /** The same once the earlier end is inside the text. */
    method CutOut(b: Buffer, mark: Pos, cur: Pos, n: int, start: Pos)
      requires b.Valid() && OnLine(b.Content(), mark) && OnLine(b.Content(), cur)
      requires start == (if Ahead(mark, cur) then mark else cur) && Inside(b.Content(), start)
      modifies this, b.Repr()
      ensures b.Valid() && fresh(b.Repr() - old(b.Repr()))
      ensures clips == old(clips)[n := BlockOf(old(b.Content()), mark, cur)]
      ensures var t := old(b.Content()); var o := Offset(t, start);
              && o + |clips[n]| <= |Flat(t)| && Flat(t)[o..o + |clips[n]|] == clips[n]
              && Flat(b.Content()) == FlatText.Cut(Flat(t), o, |clips[n]|)
              && Inside(b.Content(), start) && Offset(b.Content(), start) == o
    {
      hide Store, PoolsOk, LineStore.Valid, LineStore.Content, MarkSet.Valid, MarkSet.Places, Flat, Between, FollowOut, BlockOf;
      ghost var t := b.Content();
      var r := CopyToClip(b, true, mark, cur, n);
      BlockIsSlice(t, mark, cur);
      var size := |clips[n]|;
      if size > 0 {
        var deleted := b.DeleteStream(start.line, start.pos, size);
      } else {
        NothingCut(Flat(t), Offset(t, start));
      }
    }

    /** paste_to_buffer(); beyond the end of a line, spaces are put in up to the cursor first. */
    method Paste(b: Buffer, cur: Pos, n: int) returns (r: Outcome)
      requires b.Valid() && OnLine(b.Content(), cur)
      modifies b.Repr()
      ensures b.Valid() && fresh(b.Repr() - old(b.Repr()))
      ensures r == if n in clips then Ok else ClipDoesntExist
      ensures r == ClipDoesntExist || clips[n] == [] ==> b.Content() == old(b.Content())
      ensures r == Ok && clips[n] != [] ==> var t := Padded(old(b.Content()), cur);
              Offset(t, cur) <= |Flat(t)| && Flat(b.Content()) == Splice(Flat(t), Offset(t, cur), clips[n])
    {
      hide Store, PoolsOk, LineStore.Valid, LineStore.Content, MarkSet.Valid, MarkSet.Places, Flat, FollowIn;
      if n !in clips {
        return ClipDoesntExist;
      }
      if |clips[n]| == 0 {
        return Ok;
      }
      Pad(b, cur);
      OffsetInText(b.Content(), cur);
      var s := clips[n];
      assert s[..|s|] == s;
      var inserted := b.InsertStream(cur.line, cur.pos, s);
      return Ok;
    }

    /** Cutting a block and pasting it where it was gives back the document, line for line, but for
        the spaces that may have been put in. */
    method CutAndPaste(b: Buffer, mark: Pos, cur: Pos, n: int) returns (start: Pos)
      requires b.Valid() && OnLine(b.Content(), mark) && OnLine(b.Content(), cur)
      modifies this, b.Repr()
      ensures b.Valid() && OnLine(old(b.Content()), start)
      ensures b.Content() == if NoBlock(old(b.Content()), mark, cur) then old(b.Content()) else Padded(old(b.Content()), start)
      ensures Inside(old(b.Content()), mark) && Inside(old(b.Content()), cur) ==> b.Content() == old(b.Content())
    {
      hide Store, PoolsOk, LineStore.Valid, LineStore.Content, MarkSet.Valid, MarkSet.Places, Flat, Between, BlockOf, Padded;
      BufferLines(b);
      ghost var t0 := b.Content();
      start := Cut(b, mark, cur, n);
      if clips[n] != [] {
        ghost var t := Padded(t0, start);
        PaddedLines(t0, start);
        ghost var o := Offset(t, start);
        PaddedInside(b.Content(), start);
        var r := Paste(b, start, n);
        BufferLines(b);
        CutSpliced(Flat(t), o, |clips[n]|);
        FlatInjective(b.Content(), t);
      } else if !NoBlock(t0, mark, cur) {
        ghost var t := Padded(t0, start);
        PaddedLines(t0, start);
        NothingCut(Flat(t), Offset(t, start));
        BufferLines(b);
        FlatInjective(b.Content(), t);
      }
      if Inside(t0, start) {
        PaddedInside(t0, start);
      }
    }
  }

  /** A position on some line, perhaps beyond its end. */
  predicate OnLine(t: seq<Line>, p: Pos) {
    0 <= p.line < |t| && 0 <= p.pos
  }

  /** Mark and cursor at the same place, or both beyond the end of the same line. */
  predicate NoBlock(t: seq<Line>, mark: Pos, cur: Pos)
    requires OnLine(t, cur)
  {
    cur.line == mark.line && (cur.pos == mark.pos || (cur.pos >= |t[cur.line]| && mark.pos >= |t[cur.line]|))
  }

  function Spaces(n: nat): (s: seq<byte>)
    ensures |s| == n && NoNul(s) && forall k | 0 <= k < n :: s[k] == 0x20
  {
    seq(n, _ => SPACE)
  }

  /** The text with spaces up to a position. */
  function Padded(t: seq<Line>, p: Pos): (r: seq<Line>)
    requires OnLine(t, p)
    ensures |r| == |t| && Inside(r, p) && forall i | 0 <= i < |t| && i != p.line :: r[i] == t[i]
    ensures t[p.line] <= r[p.line] && |r[p.line]| == Max(p.pos, |t[p.line]|)
    ensures forall k | |t[p.line]| <= k < |r[p.line]| :: r[p.line][k] == 0x20
  {
    var len := |t[p.line]|;
    if p.pos > len then InsertInLine(t, Pos(p.line, len), Spaces(p.pos - len)) else t
  }

  lemma PaddedInside(t: seq<Line>, p: Pos)
    requires Inside(t, p)
    ensures Padded(t, p) == t
  {
  }

  lemma PaddedLines(t: seq<Line>, p: Pos)
    requires OnLine(t, p) && Lines(t)
    ensures Lines(Padded(t, p))
  {
  }

  /** insert_spaces(), up to a position. */
  method Pad(b: Buffer, p: Pos)
    requires b.Valid() && OnLine(b.Content(), p)
    modifies b.Repr()
    ensures b.Valid() && fresh(b.Repr() - old(b.Repr())) && b.Content() == Padded(old(b.Content()), p)
  {
    hide Store, PoolsOk, LineStore.Valid, LineStore.Content, MarkSet.Valid, MarkSet.Places, Flat, FollowIn, InsertInLine;
    var len := Len(b.store.lines[p.line]);
    if p.pos > len {
      ghost var t := b.Content();
      BufferLines(b);
      PaddedLines(t, p);
      var s := Spaces(p.pos - len);
      FlatInsert(t, Pos(p.line, len), s);
      var r := b.InsertStream(p.line, len, s);
      assert s[..|s|] == s;
      BufferLines(b);
      FlatInjective(b.Content(), Padded(t, p));
    }
  }

  lemma EmptyBlock(t: seq<Line>, p: Pos)
    requires Inside(t, p)
    ensures BlockOf(t, p, p) == []
  {
  }

  /** The block is the same seen from either end. */
  lemma OneWay(t: seq<Line>, p: Pos, q: Pos)
    requires Inside(t, p) && Inside(t, q)
    ensures BlockOf(t, p, q) == BlockOf(t, q, p)
  {
  }

  lemma BlockIsSlice(t: seq<Line>, p: Pos, q: Pos)
    requires OnLine(t, p) && OnLine(t, q) && Inside(t, if Ahead(p, q) then p else q)
    ensures var a := if Ahead(p, q) then p else q; var o, s := Offset(t, a), BlockOf(t, p, q);
            o + |s| <= |Flat(t)| && Flat(t)[o..o + |s|] == s && (s != [] ==> o < |Flat(t)|)
  {
    var a, b := if Ahead(p, q) then p else q, if Ahead(p, q) then q else p;
    var c := Clamped(t, b);
    assert Clamped(t, a) == a && Ahead(a, c);
    BetweenIsSlice(t, a.line, a.pos, c.line, c.pos);
    if Ahead(c, a) {
      assert c == a;
    }
  }

  lemma NothingCut(f: seq<byte>, o: int)
    requires 0 <= o <= |f|
    ensures FlatText.Cut(f, o, 0) == f
  {
  }

  lemma CutSpliced(f: seq<byte>, o: int, n: int)
    requires 0 <= o && 0 <= n && o + n <= |f|
    ensures Splice(FlatText.Cut(f, o, n), o, f[o..o + n]) == f
  {
    assert FlatText.Cut(f, o, n)[..o] == f[..o] && FlatText.Cut(f, o, n)[o..] == f[o + n..];
  }
}
