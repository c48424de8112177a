/** The buffer's two edit operations, insert_stream and delete_stream (src/buffer.c), over the
    text store, the marks and the undo log. */
module Edits {
  import opened Integers
  import opened FlatText
  import opened Spans
  import opened CharPools
  import opened Marks
  import opened TextStore

  datatype Status = OK | ERROR

  /** A step of the undo log. A positive length tells that this many bytes of the log were
      deleted at the position, a negative one that this many bytes were inserted there. */
  datatype UndoStep = UndoStep(line: int, pos: int, len: int)

  /** The number of bytes of `s` from `k` on that come before the next NUL. */
  method StrNLen(s: seq<byte>, k: int) returns (len: int)
    requires 0 <= k <= |s|
    ensures 0 <= len && k + len <= |s|
    ensures NoNul(s[k..k + len])
    ensures k + len < |s| ==> s[k + len] == 0
  {
    len := 0;
    while k + len < |s| && s[k + len] != 0
      invariant 0 <= len && k + len <= |s|
      invariant forall j | k <= j < k + len :: s[j] != 0
    {
      len := len + 1;
    }
  }

  /** After the first `k` bytes of a stream have been inserted. */
  ghost predicate InsertedUpTo(t0: seq<Line>, ps0: seq<Place>, t: seq<Line>, ps: seq<Place>, o: int, stream: seq<byte>, k: int) {
    && t0 != [] && t != [] && 0 <= k <= |stream| && 0 <= o <= |Flat(t0)|
    && Flat(t) == Splice(Flat(t0), o, stream[..k])
    && FollowIn(t0, ps0, t, ps, o, k)
  }

  lemma InsertedNothing(t: seq<Line>, ps: seq<Place>, at: Pos, stream: seq<byte>)
    requires Inside(t, at)
    ensures InsertedUpTo(t, ps, t, ps, Offset(t, at), stream, 0)
  {
    OffsetInText(t, at);
    assert Splice(Flat(t), Offset(t, at), []) == Flat(t);
  }

  lemma InsertedInside(t: seq<Line>, at: Pos, s: seq<byte>)
    requires Inside(t, at)
    ensures Inside(InsertInLine(t, at, s), at.(pos := at.pos + |s|))
    ensures s == [] ==> InsertInLine(t, at, s) == t
  {
    if s == [] {
      assert Splice(t[at.line], at.pos, s) == t[at.line];
    }
  }

  lemma BehindInserted(t: seq<Line>, at: Pos, s: seq<byte>)
    requires Inside(t, at) && Inside(InsertInLine(t, at, s), at.(pos := at.pos + |s|))
    ensures Offset(InsertInLine(t, at, s), at.(pos := at.pos + |s|)) == Offset(t, at) + |s|
  {
    assert InsertInLine(t, at, s)[..at.line] == t[..at.line];
  }

  /** A chunk of the stream put into the line. */
  lemma ChunkInserted(t0: seq<Line>, ps0: seq<Place>, t: seq<Line>, ps: seq<Place>, o: int, stream: seq<byte>, k: int, at: Pos, n: int)
    requires InsertedUpTo(t0, ps0, t, ps, o, stream, k) && 0 <= n && k + n <= |stream|
    requires Inside(t, at) && Offset(t, at) == o + k
    ensures var t1, ps1 := InsertInLine(t, at, stream[k..k + n]), if n == 0 then ps else MovedAll(Inserted(at, n), ps);
      InsertedUpTo(t0, ps0, t1, ps1, o, stream, k + n)
  {
    FollowChunk(t0, ps0, t, ps, o, k, at, stream[k..k + n], false);
    FlatInsert(t, at, stream[k..k + n]);
    SpliceOn(Flat(t0), o, stream[..k], stream[k..k + n]);
    assert stream[..k] + stream[k..k + n] == stream[..k + n];
  }

  /** The line broken behind the chunk. */
  lemma ChunkBroken(t0: seq<Line>, ps0: seq<Place>, t: seq<Line>, ps: seq<Place>, o: int, stream: seq<byte>, k: int, at: Pos, n: int)
    requires InsertedUpTo(t0, ps0, t, ps, o, stream, k) && 0 <= n && k + n < |stream| && stream[k + n] == 0
    requires Inside(t, at) && Offset(t, at) == o + k
    ensures var t1, ps1 := InsertInLine(t, at, stream[k..k + n]), if n == 0 then ps else MovedAll(Inserted(at, n), ps);
            var t2, ps2 := BreakLine(t1, at.(pos := at.pos + n)), MovedAll(Broken(at, n), ps1);
      && InsertedUpTo(t0, ps0, t2, ps2, o, stream, k + n + 1)
      && Inside(t2, Pos(at.line + 1, 0)) && Offset(t2, Pos(at.line + 1, 0)) == o + k + n + 1
  {
    hide FollowIn, Flat, Splice, InsertInLine, BreakLine, MovedAll, Offset, Inside;
    var chunk := stream[k..k + n];
    InsertedInside(t, at, chunk);
    BehindInserted(t, at, chunk);
    var t1, end := InsertInLine(t, at, chunk), at.(pos := at.pos + n);
    ChunkInserted(t0, ps0, t, ps, o, stream, k, at, n);
    FollowChunk(t0, ps0, t, ps, o, k, at, chunk, true);
    FlatBreak(t1, end);
    SpliceOn(Flat(t0), o, stream[..k + n], [0]);
    assert stream[..k + n] + [0] == stream[..k + n + 1];
    StartOfNext(t1, end);
  }

  lemma StartOfNext(t: seq<Line>, p: Pos)
    requires Inside(t, p)
    ensures var t' := BreakLine(t, p);
      Inside(t', Pos(p.line + 1, 0)) && Offset(t', Pos(p.line + 1, 0)) == Offset(t, p) + 1
  {
    var t' := BreakLine(t, p);
    StartBehind(t', p.line, p.line + 1);
    assert t'[..p.line] == t[..p.line] && t'[p.line + 1..p.line + 1] == [];
  }

  /** Inserting a stream in two parts, one behind the other. */
  lemma SpliceOn(f: seq<byte>, o: int, x: seq<byte>, y: seq<byte>)
    requires 0 <= o <= |f|
    ensures Splice(Splice(f, o, x), o + |x|, y) == Splice(f, o, x + y)
  {
    assert Splice(f, o, x)[..o + |x|] == f[..o] + x;
    assert Splice(f, o, x)[o + |x|..] == f[o..];
  }

  /** After `k` bytes have been deleted at a position. */
  ghost predicate DeletedUpTo(t0: seq<Line>, ps0: seq<Place>, t: seq<Line>, ps: seq<Place>, at: Pos, o: int, k: int) {
    && t0 != [] && t != [] && 0 <= o && 0 <= k && o + k <= |Flat(t0)|
    && Flat(t) == Cut(Flat(t0), o, k)
    && Inside(t, at) && Offset(t, at) == o
    && FollowOut(t0, ps0, t, ps, o, k)
  }

  lemma DeletedNothing(t: seq<Line>, ps: seq<Place>, at: Pos)
    requires Inside(t, at)
    ensures DeletedUpTo(t, ps, t, ps, at, Offset(t, at), 0)
  {
    OffsetInText(t, at);
    assert Cut(Flat(t), Offset(t, at), 0) == Flat(t);
  }

  /** Deleting on at the same place. */
  lemma CutOn(f: seq<byte>, o: int, k: int, n: int)
    requires 0 <= o && 0 <= k && 0 <= n && o + k + n <= |f|
    ensures Cut(Cut(f, o, k), o, n) == Cut(f, o, k + n)
    ensures Cut(f, o, k)[o..o + n] == f[o + k..o + k + n]
  {
    assert Cut(f, o, k)[..o] == f[..o];
    assert Cut(f, o, k)[o + n..] == f[o + k + n..];
  }

  /** `n` bytes of the line deleted. */
  lemma PartDeleted(t0: seq<Line>, ps0: seq<Place>, t: seq<Line>, ps: seq<Place>, at: Pos, o: int, k: int, n: int)
    requires DeletedUpTo(t0, ps0, t, ps, at, o, k) && 0 <= n && at.pos + n <= |t[at.line]|
    ensures DeletedUpTo(t0, ps0, DeleteInLine(t, at, n), MovedAll(Deleted(at, n), ps), at, o, k + n)
    ensures t[at.line][at.pos..at.pos + n] == Flat(t0)[o + k..o + k + n]
  {
    FollowDelete(t0, ps0, t, ps, o, k, at, n);
    FlatDelete(t, at, n);
    CutOn(Flat(t0), o, k, n);
    assert DeleteInLine(t, at, n)[..at.line] == t[..at.line];
  }

  /** The line break behind the line deleted. */
  lemma BreakDeleted(t0: seq<Line>, ps0: seq<Place>, t: seq<Line>, ps: seq<Place>, at: Pos, o: int, k: int)
    requires DeletedUpTo(t0, ps0, t, ps, at, o, k) && at.pos == |t[at.line]| && at.line + 1 < |t|
    ensures DeletedUpTo(t0, ps0, JoinLines(t, at.line), MovedAll(Joined(at.line, at.pos), ps), at, o, k + 1)
    ensures [0] == Flat(t0)[o + k..o + k + 1]
  {
    FollowJoin(t0, ps0, t, ps, o, k, at.line);
    FlatJoin(t, at.line);
    CutOn(Flat(t0), o, k, 1);
    assert JoinLines(t, at.line)[..at.line] == t[..at.line];
  }

  /** At the end of the last line there is nothing more to delete. */
  lemma AllDeleted(t0: seq<Line>, ps0: seq<Place>, t: seq<Line>, ps: seq<Place>, at: Pos, o: int, k: int)
    requires DeletedUpTo(t0, ps0, t, ps, at, o, k) && at.pos == |t[at.line]| && at.line + 1 == |t|
    ensures o + k == |Flat(t0)|
  {
    FlatAt(t, at.line);
  }

  /** A log has grown by `s`, if it is kept at all. */
  predicate Logged(before: seq<byte>, after: seq<byte>, s: seq<byte>, kept: bool) {
    after == before + if kept then s else []
  }

  lemma LoggedOn(l0: seq<byte>, l1: seq<byte>, l2: seq<byte>, kept: bool, f: seq<byte>, a: int, b: int, c: int)
    requires 0 <= a <= b <= c <= |f|
    requires Logged(l0, l1, f[a..b], kept) && Logged(l1, l2, f[b..c], kept)
    ensures Logged(l0, l2, f[a..c], kept)
  {
    assert f[a..b] + f[b..c] == f[a..c];
  }

  lemma LoggedNothing(l: seq<byte>, kept: bool, f: seq<byte>, a: int)
    requires 0 <= a <= |f|
    ensures Logged(l, l, f[a..a], kept)
  {
  }

  /** The only offset at which nothing is left is the end of the last line. */
  lemma EndOfText(t: seq<Line>, line: int, pos: int)
    requires 0 <= line < |t| && 0 <= pos
    ensures pos <= |t[line]| ==>
      (Offset(t, Pos(line, pos)) == |Flat(t)| <==> pos == |t[line]| && line + 1 == |t|)
  {
    FlatAt(t, line);
  }

  class Buffer {
    const store: LineStore
    const marks: MarkSet
    var isModified: bool
    var doUndo: bool
    var undoing: bool
    var redoing: bool
    var undoSteps: seq<UndoStep>
    var undoStream: seq<byte>
    var redoStream: seq<byte>

    constructor ()
      ensures Valid() && fresh(Repr())
      ensures Content() == [[]]
    {
      store := new LineStore();
      marks := new MarkSet();
      isModified, doUndo, undoing, redoing := false, true, false, false;
      undoSteps, undoStream, redoStream := [], [], [];
    }

    /** A buffer over lines that have just been loaded: nothing to undo, no marks. */
    constructor OfFile(store: LineStore)
      requires store.Valid()
      ensures Valid() && this.store == store && fresh(Repr() - store.Repr())
      ensures Content() == store.Content()
    {
      this.store := store;
      marks := new MarkSet();
      isModified, doUndo, undoing, redoing := false, true, false, false;
      undoSteps, undoStream, redoStream := [], [], [];
    }

    ghost function Repr(): set<object>
      reads this, store, store.chars
    {
      {this as object, marks, marks.bookmark} + store.Repr()
    }

    ghost predicate Valid()
      reads Repr()
    {
      && this !in store.Repr() && marks !in store.Repr() && marks.bookmark !in store.Repr()
      && store.Valid() && marks.Valid()
    }

    ghost function Content(): (t: seq<Line>)
      requires Valid()
      reads Repr()
    {
      store.Content()
    }

    /** Puts a chunk of a stream into a line. */
    method InsertChunk(line: int, pos: int, s: seq<byte>)
      requires Valid() && Inside(Content(), Pos(line, pos)) && s != [] && NoNul(s)
      modifies store.Repr(), marks`blockStart, marks.bookmark, this`isModified
      ensures Valid() && fresh(Repr() - old(Repr()))
      ensures isModified
      ensures Content() == InsertInLine(old(Content()), Pos(line, pos), s)
      ensures marks.Places() == MovedAll(Inserted(Pos(line, pos), |s|), old(marks.Places()))
    {
      hide Store, PoolsOk, MovedAll, NoNul, InsertInLine, LineStore.Valid, LineStore.Content;
      if store.lines[line].Empty? {
        store.FillLine(line, s);
      } else {
        store.GrowLine(line, pos, s);
      }
      isModified := true;
      marks.Adjust(Inserted(Pos(line, pos), |s|));
    }

    /** Breaks a line behind the chunk of `len` bytes that has been put into it at `pos`. */
    method BreakAfter(line: int, pos: int, len: int)
      requires Valid() && 0 <= len && 0 <= pos && Inside(Content(), Pos(line, pos + len))
      modifies store, marks`blockStart, marks.bookmark, this`isModified
      ensures Valid() && Repr() == old(Repr())
      ensures isModified
      ensures Content() == BreakLine(old(Content()), Pos(line, pos + len))
      ensures marks.Places() == MovedAll(Broken(Pos(line, pos), len), old(marks.Places()))
    {
      hide Store, PoolsOk, MovedAll, BreakLine;
      store.SplitLine(line, pos + len);
      isModified := true;
      marks.Adjust(Broken(Pos(line, pos), len));
    }

    /** One round of the insertion loop: the bytes of the stream up to the next NUL, and the line
        break that NUL stands for. */
    method InsertRound(line: int, pos: int, stream: seq<byte>, s: int, ghost t0: seq<Line>, ghost ps0: seq<Place>, ghost o: int)
      returns (len: int)
      requires Valid() && 0 <= s < |stream| && Inside(Content(), Pos(line, pos)) && Offset(Content(), Pos(line, pos)) == o + s
      requires InsertedUpTo(t0, ps0, Content(), marks.Places(), o, stream, s)
      modifies store.Repr(), marks`blockStart, marks.bookmark, this`isModified
      ensures Valid() && fresh(Repr() - old(Repr()))
      ensures isModified
      ensures 0 <= len && s + len <= |stream|
      ensures InsertedUpTo(t0, ps0, Content(), marks.Places(), o, stream, Min(s + len + 1, |stream|))
      ensures s + len < |stream| ==>
        Inside(Content(), Pos(line + 1, 0)) && Offset(Content(), Pos(line + 1, 0)) == o + s + len + 1
    {
      hide Store, PoolsOk, MovedAll, NoNul, BreakLine, InsertInLine, InsertedUpTo, Offset, LineStore.Valid, LineStore.Content;
      len := StrNLen(stream, s);
      ghost var t, ps, at := Content(), marks.Places(), Pos(line, pos);
      ChunkInserted(t0, ps0, t, ps, o, stream, s, at, len);
      InsertedInside(t, at, stream[s..s + len]);
      if len > 0 {
        InsertChunk(line, pos, stream[s..s + len]);
      }
      if s + len < |stream| {
        ChunkBroken(t0, ps0, t, ps, o, stream, s, at, len);
        BreakAfter(line, pos, len);
      }
    }

    /** The insertion loop. */
    method InsertRounds(line0: int, pos0: int, stream: seq<byte>)
      requires Valid() && Inside(Content(), Pos(line0, pos0))
      modifies store.Repr(), marks`blockStart, marks.bookmark, this`isModified
      ensures Valid() && fresh(Repr() - old(Repr()))
      ensures stream != [] ==> isModified
      ensures InsertedUpTo(old(Content()), old(marks.Places()), Content(), marks.Places(),
                           Offset(old(Content()), Pos(line0, pos0)), stream, |stream|)
    {
      hide Store, PoolsOk, InsertedUpTo, LineStore.Valid, LineStore.Content, MarkSet.Valid, MarkSet.Places;
      ghost var t0, ps0 := Content(), marks.Places();
      ghost var o := Offset(t0, Pos(line0, pos0));
      InsertedNothing(t0, ps0, Pos(line0, pos0), stream);
      var line, pos, s := line0, pos0, 0;
      while s < |stream|
        invariant Valid() && fresh(Repr() - old(Repr()))
        invariant s > 0 ==> isModified
        invariant 0 <= s && InsertedUpTo(t0, ps0, Content(), marks.Places(), o, stream, Min(s, |stream|))
        invariant s < |stream| ==> Inside(Content(), Pos(line, pos)) && Offset(Content(), Pos(line, pos)) == o + s
        decreases |stream| - s
      {
        var len := InsertRound(line, pos, stream, s, t0, ps0, o);
        line, pos, s := line + 1, 0, s + len + 1;
      }
    }

    /** Inserts a stream, a sequence of bytes in which each NUL is a line break, at a position. */
    method InsertStream(line: int, pos: int, stream: seq<byte>) returns (r: Status)
      requires Valid() && 0 <= line < |Content()| && 0 <= pos
      modifies Repr()
      ensures Valid() && fresh(Repr() - old(Repr()))
      ensures isModified == (r == OK || old(isModified))
      ensures r == if stream == [] || !Inside(old(Content()), Pos(line, pos)) then ERROR else OK
      ensures r == ERROR ==> Content() == old(Content()) && marks.Places() == old(marks.Places())
      ensures r == OK ==> InsertedUpTo(old(Content()), old(marks.Places()), Content(), marks.Places(),
                                       Offset(old(Content()), Pos(line, pos)), stream, |stream|)
      ensures undoStream == old(undoStream) && redoStream == old(redoStream)
      ensures undoSteps == old(undoSteps) + (
        if r == OK && doUndo && !(undoing || redoing) then [UndoStep(line, pos, -|stream|)] else [])
      ensures doUndo == old(doUndo) && undoing == old(undoing) && redoing == old(redoing)
    {
      hide Store, PoolsOk, InsertedUpTo, LineStore.Valid, LineStore.Content, MarkSet.Valid, MarkSet.Places;
      if stream == [] || pos > Len(store.lines[line]) {
        return ERROR;
      }
      if doUndo && !(undoing || redoing) {
        undoSteps := undoSteps + [UndoStep(line, pos, -|stream|)];
      }
      InsertRounds(line, pos, stream);
      r := OK;
    }

    /** Logs deleted bytes for undo or, while undoing, for redo. */
    method Log(s: seq<byte>)
      modifies this`undoStream, this`redoStream
      ensures Logged(old(undoStream), undoStream, s, doUndo && !undoing && !redoing)
      ensures Logged(old(redoStream), redoStream, s, undoing && !redoing)
    {
      if !redoing {
        if undoing {
          redoStream := redoStream + s;
        } else if doUndo {
          undoStream := undoStream + s;
        }
      }
    }

    /** Deletes bytes inside a line. */
    method DeleteChunk(line: int, pos: int, n: int)
      requires Valid() && Inside(Content(), Pos(line, pos)) && 0 < n && pos + n <= |Content()[line]|
      modifies store.Repr(), marks`blockStart, marks.bookmark, this`isModified, this`undoStream, this`redoStream
      ensures Valid() && fresh(Repr() - old(Repr()))
      ensures isModified
      ensures Content() == DeleteInLine(old(Content()), Pos(line, pos), n)
      ensures marks.Places() == MovedAll(Deleted(Pos(line, pos), n), old(marks.Places()))
      ensures Logged(old(undoStream), undoStream, old(Content())[line][pos..pos + n], doUndo && !undoing && !redoing)
      ensures Logged(old(redoStream), redoStream, old(Content())[line][pos..pos + n], undoing && !redoing)
    {
      hide Store, PoolsOk, MovedAll, DeleteInLine, Logged, LineStore.Valid, LineStore.Content, MarkSet.Places;
      marks.Adjust(Deleted(Pos(line, pos), n));
      var s := store.ReadPart(line, pos, n);
      Log(s);
      store.DeletePart(line, pos, n);
      isModified := true;
    }

    /** Deletes the line break behind a line. */
    method DeleteBreak(line: int)
      requires Valid() && 0 <= line && line + 1 < |Content()|
      modifies store.Repr(), marks`blockStart, marks.bookmark, this`isModified, this`undoStream, this`redoStream
      ensures Valid() && fresh(Repr() - old(Repr()))
      ensures isModified
      ensures Content() == JoinLines(old(Content()), line)
      ensures marks.Places() == MovedAll(Joined(line, |old(Content())[line]|), old(marks.Places()))
      ensures Logged(old(undoStream), undoStream, [0], doUndo && !undoing && !redoing)
      ensures Logged(old(redoStream), redoStream, [0], undoing && !redoing)
    {
      hide Store, PoolsOk, MovedAll, LineStore.Valid;
      marks.Adjust(Joined(line, Len(store.lines[line])));
      store.JoinNext(line);
      Log([0]);
      isModified := true;
    }

    /** One round of the deletion loop; the result is the number of bytes deleted, 0 at the end of
        the text. */
    method DeleteRound(line: int, pos: int, len: int, ghost t0: seq<Line>, ghost ps0: seq<Place>, ghost o: int, ghost k: int)
      returns (n: int)
      requires Valid() && 0 < len && DeletedUpTo(t0, ps0, Content(), marks.Places(), Pos(line, pos), o, k)
      requires t0 != [] && 0 <= o && 0 <= k && Inside(Content(), Pos(line, pos))
      modifies store.Repr(), marks`blockStart, marks.bookmark, this`isModified, this`undoStream, this`redoStream
      ensures Valid() && fresh(Repr() - old(Repr())) && Inside(Content(), Pos(line, pos))
      ensures isModified == (n > 0 || old(isModified))
      ensures 0 <= n <= len && o + k + n <= |Flat(t0)| && (n == 0 ==> o + k == |Flat(t0)|)
      ensures DeletedUpTo(t0, ps0, Content(), marks.Places(), Pos(line, pos), o, k + n)
      ensures Logged(old(undoStream), undoStream, Flat(t0)[o + k..o + k + n], doUndo && !undoing && !redoing)
      ensures Logged(old(redoStream), redoStream, Flat(t0)[o + k..o + k + n], undoing && !redoing)
    {
      hide Store, PoolsOk, MovedAll, Flat, FollowOut, LineStore.Valid, LineStore.Content, MarkSet.Valid, MarkSet.Places;
      ghost var t, ps, at := Content(), marks.Places(), Pos(line, pos);
      if pos == Len(store.lines[line]) {
        if line + 1 == store.numLines {
          AllDeleted(t0, ps0, t, ps, at, o, k);
          return 0;
        }
        BreakDeleted(t0, ps0, t, ps, at, o, k);
        DeleteBreak(line);
        n := 1;
      } else {
        n := Min(len, Len(store.lines[line]) - pos);
        PartDeleted(t0, ps0, t, ps, at, o, k, n);
        DeleteChunk(line, pos, n);
      }
    }

    /** The deletion loop; the result is how many of the `len` bytes were left to delete when the
        text came to its end. */
    method DeleteRounds(line: int, pos: int, len: int) returns (left: int)
      requires Valid() && Inside(Content(), Pos(line, pos)) && 0 <= len
      modifies store.Repr(), marks`blockStart, marks.bookmark, this`isModified, this`undoStream, this`redoStream
      ensures Valid() && fresh(Repr() - old(Repr()))
      ensures isModified == (left < len || old(isModified))
      ensures var t := old(Content()); var o := Offset(t, Pos(line, pos));
        && 0 <= left <= len && o + (len - left) <= |Flat(t)| && (left > 0 ==> o + (len - left) == |Flat(t)|)
        && DeletedUpTo(t, old(marks.Places()), Content(), marks.Places(), Pos(line, pos), o, len - left)
        && Logged(old(undoStream), undoStream, Flat(t)[o..o + (len - left)], doUndo && !undoing && !redoing)
        && Logged(old(redoStream), redoStream, Flat(t)[o..o + (len - left)], undoing && !redoing)
    {
      hide Offset, Inside, Store, PoolsOk, Flat, FollowOut, DeletedUpTo, Logged, LineStore.Valid, LineStore.Content, MarkSet.Valid, MarkSet.Places;
      ghost var t0, ps0, at := Content(), marks.Places(), Pos(line, pos);
      ghost var f, o := Flat(t0), Offset(t0, at);
      DeletedNothing(t0, ps0, at);
      OffsetInText(t0, at);
      LoggedNothing(undoStream, doUndo && !undoing && !redoing, f, o);
      LoggedNothing(redoStream, undoing && !redoing, f, o);
      left := len;
      while left > 0
        invariant Valid() && fresh(Repr() - old(Repr())) && Inside(Content(), at)
        invariant isModified == (left < len || old(isModified))
        invariant 0 <= left <= len && o + (len - left) <= |f|
        invariant DeletedUpTo(t0, ps0, Content(), marks.Places(), at, o, len - left)
        invariant Logged(old(undoStream), undoStream, f[o..o + (len - left)], doUndo && !undoing && !redoing)
        invariant Logged(old(redoStream), redoStream, f[o..o + (len - left)], undoing && !redoing)
        decreases left
      {
        ghost var undo1, redo1 := undoStream, redoStream;
        var n := DeleteRound(line, pos, left, t0, ps0, o, len - left);
        LoggedOn(old(undoStream), undo1, undoStream, doUndo && !undoing && !redoing, f, o, o + (len - left), o + (len - left) + n);
        LoggedOn(old(redoStream), redo1, redoStream, undoing && !redoing, f, o, o + (len - left), o + (len - left) + n);
        if n == 0 {
          break;
        }
        left := left - n;
      }
    }

    /** Deletes `len` bytes of the flattened text, or as many as there are, from a position on. */
    method DeleteStream(line: int, pos: int, len: int) returns (r: Status)
      requires Valid() && 0 <= line < |Content()| && 0 <= pos && 0 <= len
      modifies Repr()
      ensures Valid() && fresh(Repr() - old(Repr()))
      ensures isModified == (r == OK || old(isModified))
      ensures var t, at := old(Content()), Pos(line, pos);
        r == if len == 0 || !Inside(t, at) || Offset(t, at) == |Flat(t)| then ERROR else OK
      ensures r == ERROR ==>
        && Content() == old(Content()) && marks.Places() == old(marks.Places())
        && undoSteps == old(undoSteps) && undoStream == old(undoStream) && redoStream == old(redoStream)
      ensures r == OK ==> var t := old(Content()); var o := Offset(t, Pos(line, pos)); var n := Min(len, |Flat(t)| - o);
        && 0 < n && DeletedUpTo(t, old(marks.Places()), Content(), marks.Places(), Pos(line, pos), o, n)
        && (undoing && !redoing ==> redoStream == old(redoStream) + Flat(t)[o..o + n] && undoStream == old(undoStream))
        && (redoing ==> redoStream == old(redoStream) && undoStream == old(undoStream))
        && (doUndo && !undoing && !redoing ==> undoStream == old(undoStream) + Flat(t)[o..o + n] && redoStream == old(redoStream))
        && (!doUndo && !undoing && !redoing ==> undoStream == old(undoStream) && redoStream == old(redoStream))
        && undoSteps == old(undoSteps) + (if doUndo && !undoing && !redoing then [UndoStep(line, pos, n)] else [])
      ensures doUndo == old(doUndo) && undoing == old(undoing) && redoing == old(redoing)
    {
      hide Store, PoolsOk, Flat, FollowOut, DeletedUpTo, LineStore.Valid, LineStore.Content, MarkSet.Valid, MarkSet.Places;
      EndOfText(Content(), line, pos);
      if len == 0 || pos > Len(store.lines[line]) || (pos == Len(store.lines[line]) && line + 1 == store.numLines) {
        return ERROR;
      }
      OffsetInText(Content(), Pos(line, pos));
      ghost var steps := undoSteps;
      if doUndo && !(undoing || redoing) {
        undoSteps := undoSteps + [UndoStep(line, pos, len)];
      }
      var left := DeleteRounds(line, pos, len);
      if doUndo && !(undoing || redoing) {
        var last := |undoSteps| - 1;
        undoSteps := undoSteps[last := undoSteps[last].(len := undoSteps[last].len - left)];
        assert undoSteps == steps + [UndoStep(line, pos, len - left)];
      }
      r := OK;
    }
  }
}
