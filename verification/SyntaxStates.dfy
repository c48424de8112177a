/** The initial syntax state of every line: recomputed as a whole, or from an edit on until the
    old states are met again. The parser is any function of a line and a state. */
module SyntaxStates {

  /** A saved string is compared up to its NUL, so it is a string here. */
  datatype State = State(state: int, stack: int, saved: string)

  const START := State(0, 0, "")

  type Parser<!L> = (L, State) -> State

  /** Line i leads to the state in front of line i + 1. */
  ghost predicate Linked<L>(parse: Parser<L>, lines: seq<L>, states: seq<State>, i: int)
    requires |states| == |lines| && 0 <= i < |lines|
  {
    i + 1 < |lines| ==> states[i + 1] == parse(lines[i], states[i])
  }

  ghost predicate Coherent<L>(parse: Parser<L>, lines: seq<L>, states: seq<State>) {
    && |states| == |lines| && (lines != [] ==> states[0] == START)
    && forall i | 0 <= i < |lines| :: Linked(parse, lines, states, i)
  }

  /** The lines determine their states. */
  lemma {:induction false} CoherentUnique<L>(parse: Parser<L>, lines: seq<L>, a: seq<State>, b: seq<State>, n: nat)
    requires Coherent(parse, lines, a) && Coherent(parse, lines, b) && n <= |lines|
    ensures a[..n] == b[..n]
  {
    if n > 0 {
      CoherentUnique(parse, lines, a, b, n - 1);
      if n > 1 {
        assert Linked(parse, lines, a, n - 2) && Linked(parse, lines, b, n - 2);
        assert a[..n - 1][n - 2] == b[..n - 1][n - 2];
      }
      assert a[..n] == a[..n - 1] + [a[n - 1]] && b[..n] == b[..n - 1] + [b[n - 1]];
    }
  }

  class Document<!L> {
    const parse: Parser<L>
    var lines: seq<L>
    var highlight: array<State>
    /** Whether the state behind the current line is known, and what it is. */
    var attrLen: int
    var nextState: State
    var needAttrUpdate: bool

    constructor (parse: Parser<L>, lines: seq<L>)
      ensures this.lines == lines && this.parse == parse && highlight.Length == |lines| && fresh(highlight)
      ensures attrLen == -1 && needAttrUpdate
    {
      this.parse, this.lines := parse, lines;
      highlight := new State[|lines|](_ => START);
      attrLen, nextState, needAttrUpdate := -1, START, true;
    }

    /** reset_syntax_states(): every line, from the first on. */
    method Reset()
      requires highlight.Length == |lines|
      modifies highlight, `attrLen
      ensures Coherent(parse, lines, highlight[..]) && attrLen == -1
    {
      var next := START;
      var i := 0;
      while i < |lines|
        invariant 0 <= i <= |lines|
        invariant i > 0 ==> highlight[0] == START && next == parse(lines[i - 1], highlight[i - 1])
        invariant i == 0 ==> next == START
        invariant forall k | 0 <= k < i - 1 :: highlight[k + 1] == parse(lines[k], highlight[k])
      {
        highlight[i] := next;
        next := parse(lines[i], next);
        i := i + 1;
      }
      attrLen := -1;
    }

    /** What an edit of lines `row` to `end` leaves: the states are right up to line `row`, and
        behind line `end` each one still follows from the one before. */
    ghost predicate Edited(row: int, end: int)
      reads this, highlight
    {
      && highlight.Length == |lines| && 0 <= row <= end < |lines| && highlight[0] == START
      && (forall i | 0 <= i < row :: Linked(parse, lines, highlight[..], i))
      && (forall i | end < i < |lines| :: Linked(parse, lines, highlight[..], i))
    }

    /** How far an edit may have gone: to the line of the call if end_ld is NULL, to end_ld if that
        is a later line, and anywhere otherwise, as end_ld is then never met. */
    function EndOfEdit(row: int, endLine: int): int
      reads this
    {
      if endLine == -1 then row else if row < endLine < |lines| then endLine else |lines| - 1
    }

    /** update_syntax_states() without the screen. `endLine` is -1 for a NULL end_ld. It stops at the
        first line whose state agrees already. */
    method Update(row: int, endLine: int)
      requires -1 <= endLine <= |lines| && Edited(row, EndOfEdit(row, endLine))
      requires attrLen >= 0 ==> nextState == parse(lines[row], highlight[row])
      modifies highlight, `needAttrUpdate
      ensures old(needAttrUpdate) ==> Coherent(parse, lines, highlight[..])
      ensures !old(needAttrUpdate) ==> highlight[..] == old(highlight[..])
      ensures highlight[..row + 1] == old(highlight[..row + 1]) && !needAttrUpdate
    {
      if needAttrUpdate {
        ghost var end := EndOfEdit(row, endLine);
        var gotEnd := endLine == -1;
        var next := if attrLen < 0 then parse(lines[row], highlight[row]) else nextState;
        var ld := row + 1;
        forall i | (0 <= i < row || end < i) && i < |lines| - 1
          ensures highlight[i + 1] == parse(lines[i], highlight[i])
        {
          assert Linked(parse, lines, highlight[..], i);
        }
        while ld < |lines| && !(highlight[ld] == next && gotEnd)
          invariant row < ld <= |lines| && highlight.Length == |lines|
          invariant next == parse(lines[ld - 1], highlight[ld - 1])
          invariant highlight[0] == START
          invariant forall i | 0 <= i < ld - 1 :: highlight[i + 1] == parse(lines[i], highlight[i])
          invariant forall i | ld <= i < |lines| - 1 && end < i :: highlight[i + 1] == parse(lines[i], highlight[i])
          invariant gotEnd <==> endLine == -1 || row < endLine < ld
          invariant highlight[..row + 1] == old(highlight[..row + 1])
        {
          highlight[ld] := next;
          next := parse(lines[ld], highlight[ld]);
          if ld == endLine {
            gotEnd := true;
          }
          ld := ld + 1;
        }
        needAttrUpdate := false;
      }
    }
  }

  /** Stopping early makes no difference: the states are those of a full recomputation. */
  method UpdateOrReset<L>(d: Document<L>, e: Document<L>, row: int, endLine: int)
    requires d != e && d.highlight != e.highlight && d.lines == e.lines && d.parse == e.parse
    requires -1 <= endLine <= |d.lines| && d.Edited(row, d.EndOfEdit(row, endLine)) && d.needAttrUpdate
    requires d.attrLen >= 0 ==> d.nextState == d.parse(d.lines[row], d.highlight[row])
    requires e.highlight.Length == |e.lines|
    modifies d, d.highlight, e, e.highlight
    ensures d.highlight[..] == e.highlight[..]
  {
    d.Update(row, endLine);
    e.Reset();
    CoherentUnique(d.parse, d.lines, d.highlight[..], e.highlight[..], |d.lines|);
    assert d.highlight[..][..|d.lines|] == d.highlight[..] && e.highlight[..][..|d.lines|] == e.highlight[..];
  }
}
