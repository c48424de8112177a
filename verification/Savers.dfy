/** The two savers: through a block buffer, and line by line when there is no memory for it. */
module Savers {
  import opened FlatText
  import opened FileFormat

  const SAVE_BLOCK_LEN := 16 * 1024 - 1

  lemma {:induction false} SavedNext(ls: seq<Line>, i: int, sep: seq<byte>)
    requires 0 <= i < |ls|
    ensures Saved(ls[i..], sep) == ls[i] + (if i + 1 < |ls| then sep else []) + Saved(ls[i + 1..], sep)
  {
    assert ls[i..][1..] == ls[i + 1..];
  }

  method SaveByLine(ls: seq<Line>, mode: Mode, crlf: bool) returns (out: seq<byte>)
    ensures out == Saved(ls, Separator(mode, crlf))
  {
    ghost var sep := Separator(mode, crlf);
    out := [];
    var i := 0;
    assert ls[0..] == ls;
    while i < |ls|
      invariant 0 <= i <= |ls| && out + Saved(ls[i..], sep) == Saved(ls, sep)
    {
      SavedNext(ls, i, sep);
      ghost var was := out;
      out := out + ls[i];
      i := i + 1;
      if i < |ls| {
        if !mode.Binary? && crlf {
          out := out + [CR];
        }
        out := out + [if mode.Binary? then 0 else LF];
        assert out == was + ls[i - 1] + sep;
      }
      assert out + Saved(ls[i..], sep) == was + Saved(ls[i - 1..], sep);
    }
  }

  lemma SavedNothing(sep: seq<byte>)
    ensures Saved([], sep) == []
  {
  }

  class BlockSaver {
    const p: array<byte>
    var used: int
    var out: seq<byte>

    constructor ()
      ensures Valid() && Emitted() == [] && fresh(p)
    {
      p := new byte[SAVE_BLOCK_LEN + 1];
      used, out := 0, [];
    }

    /** There is always room for the two bytes of a CR/LF pair. */
    ghost predicate Valid()
      reads this
    {
      p.Length == SAVE_BLOCK_LEN + 1 && 0 <= used < SAVE_BLOCK_LEN
    }

    /** What has been written and what waits in the block. */
    ghost function Emitted(): seq<byte>
      requires 0 <= used <= p.Length
      reads this, p
    {
      out + p[..used]
    }

    method Memcpy(l: seq<byte>)
      requires 0 <= used && used + |l| <= p.Length
      modifies p
      ensures p[..used + |l|] == old(p[..used]) + l
    {
      var k := 0;
      while k < |l|
        invariant 0 <= k <= |l| && p[..used + k] == old(p[..used]) + l[..k]
      {
        p[used + k] := l[k];
        k := k + 1;
      }
      assert l[..|l|] == l;
    }

    /** Fills the block up and writes it out. */
    method FillBlock(part: seq<byte>)
      requires Valid() && used + |part| == SAVE_BLOCK_LEN
      modifies this, p
      ensures Valid() && used == 0 && Emitted() == old(Emitted()) + part
    {
      Memcpy(part);
      used := 0;
      out := out + p[..SAVE_BLOCK_LEN];
      assert p[..0] == [];
    }

    /** The inner loop: a line goes into the block, which is written out whenever it is full. */
    method AddLine(line: Line)
      requires Valid()
      modifies this, p
      ensures Valid() && Emitted() == old(Emitted()) + line
    {
      var l, len := 0, |line|;
      assert line[..0] == [];
      while len > 0
        invariant Valid() && 0 <= len && l == |line| - len
        invariant Emitted() == old(Emitted()) + line[..l]
        decreases len
      {
        ghost var was, before := Emitted(), l;
        if SAVE_BLOCK_LEN - used > len {
          Memcpy(line[l..]);
          used := used + len;
          l, len := |line|, 0;
          assert Emitted() == was + line[before..l];
        } else {
          var room := SAVE_BLOCK_LEN - used;
          FillBlock(line[l..l + room]);
          len := len - room;
          l := l + room;
        }
        assert line[..l] == line[..before] + line[before..l];
      }
      assert line[..l] == line;
    }

    /** The line terminator, after which a full block is written out. */
    method EndLine(more: bool, mode: Mode, crlf: bool)
      requires Valid()
      modifies this, p
      ensures Valid() && Emitted() == old(Emitted()) + (if more then Separator(mode, crlf) else [])
    {
      ghost var was := Emitted();
      if more {
        if mode.Binary? {
          p[used] := 0;
          used := used + 1;
        } else {
          if crlf {
            p[used] := CR;
            used := used + 1;
          }
          p[used] := LF;
          used := used + 1;
        }
        assert Emitted() == was + Separator(mode, crlf);
      }
      if used >= SAVE_BLOCK_LEN {
        out := out + p[..used];
        used := 0;
        assert p[..0] == [];
      }
    }

    method Save(ls: seq<Line>, mode: Mode, crlf: bool) returns (file: seq<byte>)
      requires Valid() && Emitted() == []
      modifies this, p
      ensures file == Saved(ls, Separator(mode, crlf))
    {
      hide Saved, Separator;
      ghost var sep := Separator(mode, crlf);
      var i := 0;
      assert ls[0..] == ls;
      SavedNothing(sep);
      while i < |ls|
        invariant 0 <= i <= |ls| && Valid() && Emitted() + Saved(ls[i..], sep) == Saved(ls, sep)
      {
        SavedNext(ls, i, sep);
        ghost var was := Emitted();
        AddLine(ls[i]);
        i := i + 1;
        EndLine(i < |ls|, mode, crlf);
        assert Emitted() + Saved(ls[i..], sep) == was + Saved(ls[i - 1..], sep);
      }
      assert ls[i..] == [];
      file := out;
      if used != 0 {
        file := file + p[..used];
      }
    }
  }
}
