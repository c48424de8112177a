/** What the two edit operations undo of each other. */
module EditLaws {
  import opened Integers
  import opened FlatText
  import opened Spans
  import opened CharPools
  import opened Marks
  import opened TextStore
  import opened Edits

  ghost predicate Lines(t: seq<Line>) {
    t != [] && forall i | 0 <= i < |t| :: NoNul(t[i])
  }

  /** Putting the logged bytes back where they were deleted gives back the document. */
  lemma ReinsertRestores(t0: seq<Line>, ps0: seq<Place>, t1: seq<Line>, ps1: seq<Place>, t2: seq<Line>, ps2: seq<Place>, at: Pos, o: int, n: int)
    requires Lines(t0) && Lines(t2)
    requires DeletedUpTo(t0, ps0, t1, ps1, at, o, n)
    requires InsertedUpTo(t1, ps1, t2, ps2, o, Flat(t0)[o..o + n], n)
    ensures t2 == t0
  {
    var f := Flat(t0);
    assert f[o..o + n][..n] == f[o..o + n];
    assert Splice(Cut(f, o, n), o, f[o..o + n]) == f by {
      assert Cut(f, o, n)[..o] == f[..o] && Cut(f, o, n)[o..] == f[o + n..];
      assert f[..o] + f[o..o + n] + f[o + n..] == f;
    }
    FlatInjective(t2, t0);
  }

  /** Deleting as many bytes as were inserted gives back the document, and every mark that was
      inside it is where it was. */
  lemma DeleteUndoesInsert(t0: seq<Line>, ps0: seq<Place>, t1: seq<Line>, ps1: seq<Place>, t2: seq<Line>, ps2: seq<Place>,
                           at: Pos, o: int, stream: seq<byte>, i: int)
    requires Lines(t0) && Lines(t2)
    requires InsertedUpTo(t0, ps0, t1, ps1, o, stream, |stream|)
    requires DeletedUpTo(t1, ps1, t2, ps2, at, o, |stream|)
    requires 0 <= i < |ps0| && ps0[i].Set? && Inside(t0, ps0[i].q)
    ensures t2 == t0 && ps2[i] == ps0[i]
  {
    InsertedCut(t0, ps0, t1, ps1, o, stream);
    FlatInjective(t2, t0);
    SameOffset(t0, ps0[i].q, ps2[i].q);
  }

  lemma InsertedCut(t0: seq<Line>, ps0: seq<Place>, t1: seq<Line>, ps1: seq<Place>, o: int, stream: seq<byte>)
    requires InsertedUpTo(t0, ps0, t1, ps1, o, stream, |stream|)
    ensures o + |stream| <= |Flat(t1)| && Cut(Flat(t1), o, |stream|) == Flat(t0)
  {
    var f := Flat(t0);
    assert stream[..|stream|] == stream;
    assert Splice(f, o, stream)[..o] == f[..o] && Splice(f, o, stream)[o + |stream|..] == f[o..];
  }

  /** A place in the flattened text belongs to one position only. */
  lemma SameOffset(t: seq<Line>, p: Pos, q: Pos)
    requires Inside(t, p) && Inside(t, q) && Offset(t, p) == Offset(t, q)
    ensures p == q
  {
    if p.line < q.line {
      OffsetMonotone(t, p, q);
    } else if q.line < p.line {
      OffsetMonotone(t, q, p);
    }
  }

  /** The lines of a buffer never hold a NUL. */
  lemma BufferLines(b: Buffer)
    requires b.Valid()
    ensures Lines(b.Content())
  {
    TextHasNoNul(b.store.chars.mem, b.store.lines);
  }

  /** Deleting and putting back what the undo log holds. */
  method DeleteAndRestore(b: Buffer, line: int, pos: int, len: int) returns (r: Status)
    requires b.Valid() && 0 <= line < |b.Content()| && 0 <= pos && 0 <= len
    requires b.doUndo && !b.undoing && !b.redoing
    modifies b.Repr()
    ensures b.Valid() && b.Content() == old(b.Content())
  {
    hide Store, PoolsOk, Flat, FollowIn, FollowOut, DeletedUpTo, InsertedUpTo, LineStore.Valid, LineStore.Content, MarkSet.Valid, MarkSet.Places;
    ghost var t0, ps0 := b.Content(), b.marks.Places();
    BufferLines(b);
    var logged := |b.undoStream|;
    r := b.DeleteStream(line, pos, len);
    if r == OK {
      ghost var t1, ps1 := b.Content(), b.marks.Places();
      ghost var o := Offset(t0, Pos(line, pos));
      ghost var n := Min(len, |Flat(t0)| - o);
      var bytes := b.undoStream[logged..];
      assert bytes == Flat(t0)[o..o + n];
      StillInside(t0, ps0, t1, ps1, Pos(line, pos), o, n);
      r := b.InsertStream(line, pos, bytes);
      BufferLines(b);
      ReinsertRestores(t0, ps0, t1, ps1, b.Content(), b.marks.Places(), Pos(line, pos), o, n);
    }
  }

  /** The same while an insertion is being undone: what was deleted is at the end of the redo log. */
  method UndoAndRestore(b: Buffer, line: int, pos: int, len: int) returns (r: Status)
    requires b.Valid() && 0 <= line < |b.Content()| && 0 <= pos && 0 <= len
    requires b.undoing && !b.redoing
    modifies b.Repr()
    ensures b.Valid() && b.Content() == old(b.Content()) && b.undoStream == old(b.undoStream)
  {
    hide Store, PoolsOk, Flat, FollowIn, FollowOut, DeletedUpTo, InsertedUpTo, LineStore.Valid, LineStore.Content, MarkSet.Valid, MarkSet.Places;
    ghost var t0, ps0 := b.Content(), b.marks.Places();
    BufferLines(b);
    var logged := |b.redoStream|;
    r := b.DeleteStream(line, pos, len);
    if r == OK {
      ghost var t1, ps1 := b.Content(), b.marks.Places();
      ghost var o := Offset(t0, Pos(line, pos));
      ghost var n := Min(len, |Flat(t0)| - o);
      var bytes := b.redoStream[logged..];
      assert bytes == Flat(t0)[o..o + n];
      StillInside(t0, ps0, t1, ps1, Pos(line, pos), o, n);
      r := b.InsertStream(line, pos, bytes);
      BufferLines(b);
      ReinsertRestores(t0, ps0, t1, ps1, b.Content(), b.marks.Places(), Pos(line, pos), o, n);
    }
  }

  lemma StillInside(t0: seq<Line>, ps0: seq<Place>, t: seq<Line>, ps: seq<Place>, at: Pos, o: int, k: int)
    requires DeletedUpTo(t0, ps0, t, ps, at, o, k)
    ensures t != [] && Inside(t, at) && Offset(t, at) == o
  {
  }
}
