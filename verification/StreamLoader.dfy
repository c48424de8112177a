/** The streaming loader: two half buffers, written out and read again in turn. */
module StreamLoader {
  import opened FlatText
  import opened FileFormat

  const HALF := 8 * 1024
  const LD_BUFFER_COUNT := 256

  class Stream {
    const input: seq<byte>
    const buffer: array<byte>
    var taken: int
    var out: seq<byte>
    var i: int
    var cur: int
    /** The bytes behind `cur` as they will be in the file that is written, and where the half
        buffer in use begins, in the buffer and in the file. */
    ghost var done: seq<byte>
    ghost var first: int
    ghost var base: int

    /** The state with `at` as the place in the buffer; it may be the end of its half. */
    ghost predicate Core(at: int)
      reads `taken, `out, `cur, `done, `first, `base, buffer
    {
      && buffer.Length == 2 * HALF && (first == 0 || first == HALF)
      && 0 <= base <= cur <= |input| && cur <= base + HALF
      && at == first + cur - base && |done| == cur && out == done[..base]
      && taken == (if base + 2 * HALF < |input| then base + 2 * HALF else |input|)
      && (forall j | first <= j < at :: buffer[j] == done[base + j - first])
      && (forall j | at <= j < first + HALF && base + j - first < |input| :: buffer[j] == input[base + j - first])
      && (forall j | HALF - first <= j < 2 * HALF - first && base + first + j < |input| ::
            buffer[j] == input[base + first + j])
    }

    ghost predicate Valid()
      reads this, buffer
    {
      Core(i) && cur < base + HALF
    }

    constructor (input: seq<byte>)
      ensures Valid() && this.input == input && cur == 0 && done == [] && fresh(buffer)
    {
      var toDo := if |input| < 2 * HALF then |input| else 2 * HALF;
      this.input := input;
      buffer := new byte[2 * HALF](j requires 0 <= j < 2 * HALF => if j < toDo then input[j] else 0);
      taken, out, i, cur := toDo, [], 0, 0;
      done, first, base := [], 0, 0;
    }

    /** The byte behind the current one is in the buffer, on whichever side of it. */
    lemma Peek()
      requires Valid() && cur < |input|
      ensures buffer.Length == 2 * HALF && 0 <= i < 2 * HALF && buffer[i] == input[cur]
      ensures cur + 1 < |input| ==> buffer[(i + 1) % (2 * HALF)] == input[cur + 1]
    {
    }

    /** read(), into the half buffer at `p`. */
    method Read(p: int)
      requires (p == 0 || p == HALF) && buffer.Length == 2 * HALF && 0 <= taken <= |input|
      modifies buffer, `taken
      ensures taken == (if old(taken) + HALF < |input| then old(taken) + HALF else |input|)
      ensures forall j | p <= j < p + taken - old(taken) :: buffer[j] == input[old(taken) + j - p]
      ensures forall j | 0 <= j < 2 * HALF && !(p <= j < p + HALF) :: buffer[j] == old(buffer[j])
    {
      var remaining := |input| - taken;
      var toDo := if remaining < HALF then remaining else HALF;
      var j := 0;
      while j < toDo
        invariant 0 <= j <= toDo
        invariant forall k | p <= k < p + j :: buffer[k] == input[taken + k - p]
        invariant forall k | 0 <= k < 2 * HALF && !(p <= k < p + HALF) :: buffer[k] == old(buffer[k])
        modifies buffer
      {
        buffer[p + j] := input[taken + j];
        j := j + 1;
      }
      taken := taken + toDo;
    }

    /** Goes on by one byte, zeroing it if it is a terminator. At the end of a half buffer that
        half is written out and read again. */
    method Advance(zero: bool)
      requires Valid() && cur < |input|
      modifies this, buffer
      ensures Valid() && cur == old(cur) + 1
      ensures done == old(done) + [if zero then 0 else input[old(cur)]]
    {
      hide Stream.Core;
      Places();
      Mark(zero);
      i := (i + 1) % (2 * HALF);
      if i % HALF == 0 {
        Flip();
      }
    }

    lemma Places()
      requires Valid() && cur < |input|
      ensures buffer.Length == 2 * HALF && (first == 0 || first == HALF) && 0 <= i < 2 * HALF
      ensures var next := (i + 1) % (2 * HALF);
              if cur + 1 == base + HALF then next == HALF - first && next % HALF == 0 && i + 1 == first + HALF
              else cur + 1 < base + HALF && next == i + 1 && next % HALF != 0
    {
    }

    method Mark(zero: bool)
      requires Valid() && cur < |input|
      modifies `done, `cur, buffer
      ensures Core(i + 1) && cur == old(cur) + 1
      ensures done == old(done) + [if zero then 0 else input[old(cur)]]
    {
      if zero {
        buffer[i] := 0;
      }
      done := done + [buffer[i]];
      cur := cur + 1;
    }

    /** The buffer flip-flop. */
    method Flip()
      requires Core(first + HALF) && cur == base + HALF && i == HALF - first
      modifies this, buffer
      ensures Valid() && cur == old(cur) && done == old(done)
    {
      var p := if i == 0 then HALF else 0;
      assert p == first;
      out := out + buffer[p..p + HALF];
      Read(p);
      base := base + HALF;
      first := HALF - first;
      assert done[..base] == out;
    }

    /** create_mmap_files(): what it writes to the two files, and what it adds to the counters of
        the document. */
    method Load(mode: Mode) returns (chars: seq<byte>, lines: seq<Extent>, numLines: int, crlf: bool, freed: int)
      requires Valid() && cur == 0 && done == [] && 0 < |input|
      modifies this, buffer
      ensures FileFormat.Load(input, mode) == Loaded(chars, lines, crlf, freed) && numLines == |lines|
    {
      hide Rest, Partial, Stream.Core, Stream.Valid;
      var ldBuffer: seq<Extent> := [];
      lines, numLines, crlf, freed := [], 0, false, 0;
      var startOfLine := 0;
      PartialStart(input, mode);
      assert lines + ldBuffer == [];
      while cur < |input|
        invariant Valid() && 0 <= cur <= |input| && |ldBuffer| < LD_BUFFER_COUNT
        invariant Partial(input, mode, cur, startOfLine, Loaded(done, lines + ldBuffer, crlf, freed))
        invariant numLines == |lines| + |ldBuffer|
        decreases |input| - cur
      {
        Peek();
        PartialStep(input, mode, cur, startOfLine, Loaded(done, lines + ldBuffer, crlf, freed));
        ghost var was, wasDone, wasLines := cur, done, lines + ldBuffer;
        if IsTerminator(mode, buffer[i]) {
          var endOfLine := cur;
          if cur < |input| - 1 && buffer[i] == CR && buffer[(i + 1) % (2 * HALF)] == LF {
            crlf := true;
            freed := freed + 1;
            Advance(true);
            assert wasDone + [0] + [0] == wasDone + [0, 0];
          }
          numLines := numLines + 1;
          ldBuffer := ldBuffer + [Extent(startOfLine, endOfLine - startOfLine)];
          if |ldBuffer| == LD_BUFFER_COUNT {
            lines, ldBuffer := lines + ldBuffer, [];
          }
          assert lines + ldBuffer == wasLines + [Extent(startOfLine, endOfLine - startOfLine)];
          freed := freed + 1;
          startOfLine := cur + 1;
          Advance(true);
        } else {
          Advance(false);
        }
      }
      PartialEnd(input, mode, startOfLine, Loaded(done, lines + ldBuffer, crlf, freed));
      chars := Flush();
      numLines := numLines + 1;
      ldBuffer := ldBuffer + [Extent(startOfLine, cur - startOfLine)];
      assert lines + ldBuffer == (lines + ldBuffer[..|ldBuffer| - 1]) + [Extent(startOfLine, cur - startOfLine)];
      lines := lines + ldBuffer;
    }

    /** The last write, of what has been processed of the half buffer in use. */
    method Flush() returns (chars: seq<byte>)
      requires Valid() && cur == |input|
      ensures chars == done
    {
      chars := out;
      if i % HALF != 0 {
        var half := if i >= HALF then HALF else 0;
        chars := out + buffer[half..half + i % HALF];
      }
      assert i % HALF == cur - base;
      assert done == done[..base] + done[base..];
    }
  }
}
