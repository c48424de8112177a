/** Bookmarks and the block mark. Each step of an edit moves them (src/buffer.c); what matters is
    that a mark keeps its place in the flattened text. */
module Marks {
  import opened FlatText

  /** The steps as the adjustment loops see them. A break comes after `len` bytes have been
      inserted at `at`, and a join appends line `line + 1` to line `line` of length `len`. */
  datatype Edit =
    | Inserted(at: Pos, len: int)
    | Broken(at: Pos, len: int)
    | Deleted(at: Pos, n: int)
    | Joined(line: int, len: int)

  /** Where the adjustment loops put a mark. */
  function Moved(e: Edit, q: Pos): Pos {
    match e
    case Inserted(at, len) =>
      if q.line == at.line && q.pos > at.pos then q.(pos := q.pos + len) else q
    case Broken(at, len) =>
      if q.line == at.line && q.pos > at.pos then Pos(q.line + 1, q.pos - (at.pos + len))
      else if q.line > at.line then q.(line := q.line + 1)
      else q
    case Deleted(at, n) =>
      if q.line == at.line && q.pos >= at.pos then
        if q.pos < at.pos + n then q.(pos := at.pos) else q.(pos := q.pos - n)
      else q
    case Joined(line, len) =>
      if q.line == line + 1 then Pos(q.line - 1, q.pos + len)
      else if q.line > line then q.(line := q.line - 1)
      else q
  }

  /** What an insertion of `n` bytes at `o` does to a place in the flattened text. */
  function ShiftIn(x: int, o: int, n: int): int {
    if x <= o then x else x + n
  }

  /** What a deletion of `n` bytes at `o` does to a place in the flattened text. */
  function ShiftOut(x: int, o: int, n: int): int {
    if x <= o then x else if x < o + n then o else x - n
  }

  /** The start of a line behind line `i`. */
  lemma StartBehind(t: seq<Line>, i: int, j: int)
    requires 0 <= i < j <= |t|
    ensures |Before(t[..j])| == |Before(t[..i])| + |t[i]| + 1 + |Before(t[i + 1..j])|
  {
    var a, b := t[..i], t[i + 1..j];
    assert t[..j] == a + ([t[i]] + b);
    assert ([t[i]] + b)[1..] == b;
    BeforeAppend(a, [t[i]] + b);
  }

  lemma MarkInserted(t: seq<Line>, at: Pos, s: seq<byte>, q: Pos)
    requires Inside(t, at) && Inside(t, q)
    ensures var t', q' := InsertInLine(t, at, s), Moved(Inserted(at, |s|), q);
      && Inside(t', q')
      && Offset(t', q') == ShiftIn(Offset(t, q), Offset(t, at), |s|)
  {
    var t' := InsertInLine(t, at, s);
    var i := at.line;
    if q.line > i {
      StartBehind(t, i, q.line);
      StartBehind(t', i, q.line);
      assert t'[..i] == t[..i] && t'[i + 1..q.line] == t[i + 1..q.line];
    } else {
      assert t'[..q.line] == t[..q.line];
      if q.line < i {
        StartBehind(t, q.line, i);
      }
    }
  }

  lemma MarkBroken(t: seq<Line>, at: Pos, len: int, q: Pos)
    requires Inside(t, at) && Inside(t, q) && 0 <= len && at.pos + len <= |t[at.line]|
    requires q.line == at.line ==> q.pos <= at.pos || at.pos + len < q.pos
    ensures var t', q' := BreakLine(t, at.(pos := at.pos + len)), Moved(Broken(at, len), q);
      && Inside(t', q')
      && Offset(t', q') == ShiftIn(Offset(t, q), Offset(t, at) + len, 1)
  {
    var i, p := at.line, at.pos + len;
    var t' := BreakLine(t, at.(pos := p));
    assert t'[..i] == t[..i];
    if q.line > i {
      StartBehind(t, i, q.line);
      StartBehind(t', i, q.line + 1);
      var m := t'[i + 1..q.line + 1];
      assert m == [t[i][p..]] + t[i + 1..q.line];
      assert m[1..] == t[i + 1..q.line];
    } else if q.line == i {
      if q.pos > at.pos {
        StartBehind(t', i, i + 1);
        assert t'[i + 1..i + 1] == [];
      }
    } else {
      assert t'[..q.line] == t[..q.line];
      StartBehind(t, q.line, i);
    }
  }

  lemma MarkDeleted(t: seq<Line>, at: Pos, n: int, q: Pos)
    requires Inside(t, at) && Inside(t, q) && 0 <= n && at.pos + n <= |t[at.line]|
    ensures var t', q' := DeleteInLine(t, at, n), Moved(Deleted(at, n), q);
      && Inside(t', q')
      && Offset(t', q') == ShiftOut(Offset(t, q), Offset(t, at), n)
  {
    var t' := DeleteInLine(t, at, n);
    var i := at.line;
    if q.line > i {
      StartBehind(t, i, q.line);
      StartBehind(t', i, q.line);
      assert t'[..i] == t[..i] && t'[i + 1..q.line] == t[i + 1..q.line];
    } else {
      assert t'[..q.line] == t[..q.line];
      if q.line < i {
        StartBehind(t, q.line, i);
      }
    }
  }

  lemma MarkJoined(t: seq<Line>, i: int, q: Pos)
    requires 0 <= i && i + 1 < |t| && Inside(t, q)
    ensures var t', q' := JoinLines(t, i), Moved(Joined(i, |t[i]|), q);
      && Inside(t', q')
      && Offset(t', q') == ShiftOut(Offset(t, q), Offset(t, Pos(i, |t[i]|)), 1)
  {
    var t' := JoinLines(t, i);
    assert t'[..i] == t[..i];
    if q.line > i + 1 {
      StartBehind(t, i, q.line);
      StartBehind(t', i, q.line - 1);
      var m := t[i + 1..q.line];
      assert m[1..] == t'[i + 1..q.line - 1];
    } else if q.line == i + 1 {
      StartBehind(t, i, i + 1);
      assert t[i + 1..i + 1] == [];
    } else {
      assert t'[..q.line] == t[..q.line];
      if q.line < i {
        StartBehind(t, q.line, i);
      }
    }
  }

  // ----- all marks of a buffer at once

  datatype Place = Unset | Set(q: Pos)

  function MovedAll(e: Edit, ps: seq<Place>): (ps': seq<Place>)
    ensures |ps'| == |ps|
    ensures forall i | 0 <= i < |ps| :: ps'[i] == if ps[i].Set? then Set(Moved(e, ps[i].q)) else Unset
  {
    seq(|ps|, i requires 0 <= i < |ps| => if ps[i].Set? then Set(Moved(e, ps[i].q)) else Unset)
  }

  /** The marks that were inside the text `t` have kept their places under an insertion of `n`
      bytes at offset `o`. */
  ghost predicate FollowIn(t: seq<Line>, ps: seq<Place>, t': seq<Line>, ps': seq<Place>, o: int, n: int) {
    && |ps'| == |ps|
    && forall i | 0 <= i < |ps| ::
      && ps'[i].Set? == ps[i].Set?
      && (ps[i].Set? && Inside(t, ps[i].q) ==>
        Inside(t', ps'[i].q) && Offset(t', ps'[i].q) == ShiftIn(Offset(t, ps[i].q), o, n))
  }

  /** The same for a deletion of `n` bytes at offset `o`. */
  ghost predicate FollowOut(t: seq<Line>, ps: seq<Place>, t': seq<Line>, ps': seq<Place>, o: int, n: int) {
    && |ps'| == |ps|
    && forall i | 0 <= i < |ps| ::
      && ps'[i].Set? == ps[i].Set?
      && (ps[i].Set? && Inside(t, ps[i].q) ==>
        Inside(t', ps'[i].q) && Offset(t', ps'[i].q) == ShiftOut(Offset(t, ps[i].q), o, n))
  }

  /** One chunk of a stream: `s` is inserted, and the line is broken behind it if `brk`. */
  lemma FollowChunk(t0: seq<Line>, ps0: seq<Place>, t: seq<Line>, ps: seq<Place>, o: int, k: int, at: Pos, s: seq<byte>, brk: bool)
    requires FollowIn(t0, ps0, t, ps, o, k) && 0 <= k
    requires Inside(t, at) && Offset(t, at) == o + k
    ensures var t1, ps1 := InsertInLine(t, at, s), if s == [] then ps else MovedAll(Inserted(at, |s|), ps);
      if brk then
        FollowIn(t0, ps0, BreakLine(t1, at.(pos := at.pos + |s|)), MovedAll(Broken(at, |s|), ps1), o, k + |s| + 1)
      else
        FollowIn(t0, ps0, t1, ps1, o, k + |s|)
  {
    var t1, ps1 := InsertInLine(t, at, s), if s == [] then ps else MovedAll(Inserted(at, |s|), ps);
    var end := at.(pos := at.pos + |s|);
    forall i | 0 <= i < |ps0| && ps0[i].Set? && Inside(t0, ps0[i].q)
      ensures Inside(t1, ps1[i].q) && Offset(t1, ps1[i].q) == ShiftIn(Offset(t0, ps0[i].q), o, k + |s|)
      ensures brk ==> var t2, q2 := BreakLine(t1, end), Moved(Broken(at, |s|), ps1[i].q);
        Inside(t2, q2) && Offset(t2, q2) == ShiftIn(Offset(t0, ps0[i].q), o, k + |s| + 1)
    {
      MarkChunk(t, at, s, brk, ps[i].q);
    }
  }

  lemma MarkChunk(t: seq<Line>, at: Pos, s: seq<byte>, brk: bool, q: Pos)
    requires Inside(t, at) && Inside(t, q)
    ensures var t1, q1 := InsertInLine(t, at, s), if s == [] then q else Moved(Inserted(at, |s|), q);
      && Inside(t1, q1) && Offset(t1, q1) == ShiftIn(Offset(t, q), Offset(t, at), |s|)
      && (brk ==> var t2, q2 := BreakLine(t1, at.(pos := at.pos + |s|)), Moved(Broken(at, |s|), q1);
            Inside(t2, q2) && Offset(t2, q2) == ShiftIn(Offset(t, q), Offset(t, at), |s| + 1))
  {
    var t1, q1 := InsertInLine(t, at, s), if s == [] then q else Moved(Inserted(at, |s|), q);
    assert Moved(Inserted(at, 0), q) == q;
    MarkInserted(t, at, s, q);
    assert Offset(t1, at) == Offset(t, at) by {
      assert t1[..at.line] == t[..at.line];
    }
    MarkBroken(t1, at, |s|, q1);
  }

  /** Bytes deleted inside a line. */
  lemma FollowDelete(t0: seq<Line>, ps0: seq<Place>, t: seq<Line>, ps: seq<Place>, o: int, k: int, at: Pos, n: int)
    requires FollowOut(t0, ps0, t, ps, o, k) && 0 <= k && 0 <= n
    requires Inside(t, at) && Offset(t, at) == o && at.pos + n <= |t[at.line]|
    ensures FollowOut(t0, ps0, DeleteInLine(t, at, n), MovedAll(Deleted(at, n), ps), o, k + n)
  {
    forall i | 0 <= i < |ps0| && ps0[i].Set? && Inside(t0, ps0[i].q)
      ensures var t', q' := DeleteInLine(t, at, n), Moved(Deleted(at, n), ps[i].q);
        Inside(t', q') && Offset(t', q') == ShiftOut(Offset(t0, ps0[i].q), o, k + n)
    {
      MarkDeleted(t, at, n, ps[i].q);
    }
  }

  /** A line break deleted. */
  lemma FollowJoin(t0: seq<Line>, ps0: seq<Place>, t: seq<Line>, ps: seq<Place>, o: int, k: int, line: int)
    requires FollowOut(t0, ps0, t, ps, o, k) && 0 <= k
    requires 0 <= line && line + 1 < |t| && Offset(t, Pos(line, |t[line]|)) == o
    ensures FollowOut(t0, ps0, JoinLines(t, line), MovedAll(Joined(line, |t[line]|), ps), o, k + 1)
  {
    forall i | 0 <= i < |ps0| && ps0[i].Set? && Inside(t0, ps0[i].q)
      ensures var t', q' := JoinLines(t, line), Moved(Joined(line, |t[line]|), ps[i].q);
        Inside(t', q') && Offset(t', q') == ShiftOut(Offset(t0, ps0[i].q), o, k + 1)
    {
      MarkJoined(t, line, ps[i].q);
    }
  }

  // ----- the marks of a buffer and the loop that adjusts them

  const NUM_BOOKMARKS := 14

  predicate Bit(mask: nat, i: nat) {
    if i == 0 then mask % 2 == 1 else Bit(mask / 2, i - 1)
  }

  lemma {:induction false} NoBit(i: nat)
    ensures !Bit(0, i)
  {
    if i > 0 {
      NoBit(i - 1);
    }
  }

  /** `mask` is what is left of `whole` after `i` shifts. */
  ghost predicate Shifted(mask: nat, whole: nat, i: nat) {
    forall j: nat :: Bit(mask, j) == Bit(whole, i + j)
  }

  lemma ShiftOnce(mask: nat, whole: nat, i: nat)
    requires Shifted(mask, whole, i)
    ensures Shifted(mask / 2, whole, i + 1)
    ensures (mask % 2 == 1) == Bit(whole, i)
  {
    assert Bit(mask, 0) == Bit(whole, i + 0);
    forall j: nat
      ensures Bit(mask / 2, j) == Bit(whole, i + 1 + j)
    {
      assert Bit(mask, j + 1) == Bit(whole, i + (j + 1));
    }
  }

  lemma ShiftedOut(whole: nat, i: nat, j: nat)
    requires Shifted(0, whole, i) && i <= j
    ensures !Bit(whole, j)
  {
    assert Bit(0, j - i) == Bit(whole, i + (j - i));
    NoBit(j - i);
  }

  class MarkSet {
    var marking: bool
    var blockStart: Pos
    const bookmark: array<Pos>
    var bookmarkMask: nat

    constructor ()
      ensures Valid() && fresh(bookmark)
      ensures !marking && bookmarkMask == 0
    {
      marking, blockStart, bookmarkMask := false, Pos(0, 0), 0;
      bookmark := new Pos[NUM_BOOKMARKS](_ => Pos(0, 0));
      new;
      forall i: nat
        ensures !Bit(0, i)
      {
        NoBit(i);
      }
    }

    ghost predicate Valid()
      reads this
    {
      && bookmark.Length == NUM_BOOKMARKS
      && (forall i: nat | Bit(bookmarkMask, i) :: i < NUM_BOOKMARKS)
    }

    /** All marks: the bookmarks, then the start of the marked block. */
    ghost function Places(): (ps: seq<Place>)
      reads this, bookmark
      ensures |ps| == bookmark.Length + 1
    {
      seq(bookmark.Length, i requires 0 <= i < bookmark.Length reads this, bookmark =>
        if Bit(bookmarkMask, i) then Set(bookmark[i]) else Unset)
      + [if marking then Set(blockStart) else Unset]
    }

    /** Moves the start of the block, if there is one, and every bookmark that is set. */
    method Adjust(e: Edit)
      requires Valid()
      modifies this`blockStart, bookmark
      ensures Places() == MovedAll(e, old(Places()))
    {
      hide Moved, Bit, Shifted;
      if marking {
        blockStart := Moved(e, blockStart);
      }
      var i, mask := 0, bookmarkMask;
      StartShift(mask);
      while mask != 0
        invariant 0 <= i && Shifted(mask, bookmarkMask, i)
        invariant blockStart == if marking then Moved(e, old(blockStart)) else old(blockStart)
        invariant forall j | 0 <= j < bookmark.Length ::
          bookmark[j] == if j < i && Bit(bookmarkMask, j) then Moved(e, old(bookmark[j])) else old(bookmark[j])
        decreases mask
      {
        ShiftOnce(mask, bookmarkMask, i);
        if mask % 2 == 1 {
          bookmark[i] := Moved(e, bookmark[i]);
        }
        i, mask := i + 1, mask / 2;
      }
      forall j | i <= j < bookmark.Length
        ensures !Bit(bookmarkMask, j)
      {
        ShiftedOut(bookmarkMask, i, j);
      }
    }
  }

  lemma StartShift(mask: nat)
    ensures Shifted(mask, mask, 0)
  {
  }
}
