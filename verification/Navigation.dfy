/** Cursor motion: the position in the text, the place on the screen and the column the cursor
    goes for when it changes line. One byte is one character. */
module Navigation {
  import opened Integers
  import opened FlatText
  import opened Characters
  import opened Paragraphs

  /** The column of a position, which may be beyond the end of the line in free-form mode. */
  function Column(l: Line, pos: int, tab: int): int
    requires 0 <= pos && 0 < tab
  {
    if pos <= |l| then Width(l, pos, tab) else Width(l, |l|, tab) + pos - |l|
  }

  lemma ColumnGrows(l: Line, p: int, q: int, tab: int)
    requires 0 <= p < q && 0 < tab
    ensures Column(l, p, tab) < Column(l, q, tab)
  {
    if p < |l| {
      WidthGrows(l, p, if q < |l| then q else |l|, tab);
    }
  }

  /** Where column `x` puts the cursor: on the character that covers it, or else at the end of
      the line, or as far behind it in free-form mode. */
  predicate Covers(l: Line, pos: int, x: int, freeForm: bool, tab: int)
    requires 0 < tab
  {
    && 0 <= pos && Column(l, pos, tab) <= x
    && (if pos < |l| then x < Column(l, pos + 1, tab) else if freeForm then Column(l, pos, tab) == x else pos == |l|)
  }

  /** No column puts the cursor in two places. */
  lemma CoversOnce(l: Line, p: int, q: int, x: int, freeForm: bool, tab: int)
    requires 0 < tab && Covers(l, p, x, freeForm, tab) && Covers(l, q, x, freeForm, tab)
    ensures p == q
  {
    var a, b := if p < q then p else q, if p < q then q else p;
    if a < b {
      ColumnGrows(l, a, b, tab);
      if a < |l| && a + 1 < b {
        ColumnGrows(l, a + 1, b, tab);
      }
    }
  }

  /** A position is where its own column puts the cursor. */
  lemma OwnColumn(l: Line, pos: int, freeForm: bool, tab: int)
    requires 0 < tab && 0 <= pos && (freeForm || pos <= |l|)
    ensures Covers(l, pos, Column(l, pos, tab), freeForm, tab)
  {
    ColumnGrows(l, pos, pos + 1, tab);
  }

  /** The other two ways a column is covered: inside a TAB, and beyond the end of the line. */
  lemma CoversTab(l: Line, pos: int, x: int, freeForm: bool, tab: int)
    requires 0 < tab && 0 <= pos < |l| && Column(l, pos, tab) < x < Column(l, pos + 1, tab)
    ensures Covers(l, pos, x, freeForm, tab)
  {
  }

  lemma CoversInside(l: Line, pos: int, x: int, freeForm: bool, tab: int)
    requires 0 < tab && Covers(l, pos, x, freeForm, tab)
    ensures freeForm || pos <= |l|
  {
  }

  lemma CoversEnd(l: Line, x: int, tab: int)
    requires 0 < tab && Column(l, |l|, tab) <= x
    ensures Covers(l, |l|, x, false, tab)
  {
  }

  lemma BeyondEnd(l: Line, pos: int, tab: int)
    requires 0 < tab && |l| <= pos
    ensures Column(l, pos, tab) == Column(l, |l|, tab) + pos - |l|
  {
  }

  // ---- One character on, one character back

  /** The position char_right() goes to, or the same one where it fails. */
  function Right(t: seq<Line>, p: Pos, freeForm: bool): Pos
    requires 0 <= p.line < |t|
  {
    if p.pos == |t[p.line]| && !freeForm then
      if p.line + 1 < |t| then Pos(p.line + 1, 0) else p
    else Pos(p.line, p.pos + 1)
  }

  /** The position char_left() goes to, or the same one where it fails. */
  function Left(t: seq<Line>, p: Pos): Pos
    requires 0 <= p.line < |t|
  {
    if p.pos > 0 then Pos(p.line, p.pos - 1)
    else if p.line > 0 then Pos(p.line - 1, |t[p.line - 1]|)
    else p
  }

  /** Going right and back left is going nowhere, across line ends too. The other way round it is
      so unless left crossed a line end in free-form mode. */
  lemma ThereAndBack(t: seq<Line>, p: Pos, freeForm: bool)
    requires 0 <= p.line < |t| && 0 <= p.pos && (freeForm || p.pos <= |t[p.line]|)
    ensures Right(t, p, freeForm) != p ==> Left(t, Right(t, p, freeForm)) == p
    ensures Left(t, p) != p ==> (Right(t, Left(t, p), freeForm) == p <==> p.pos > 0 || !freeForm)
  {
  }

  // ---- The window

  predicate Aligned(x: int, tab: int)
    requires 0 < tab
  {
    x % tab == 0
  }

  /** The TAB stop at or before a column, and the one behind it. */
  function StopAt(x: int, tab: int): int
    requires 0 < tab
  {
    x - x % tab
  }

  function NextStop(x: int, tab: int): int
    requires 0 < tab
  {
    x + (tab - x % tab)
  }

  lemma Stops(x: int, tab: int)
    requires 0 < tab
    ensures Aligned(StopAt(x, tab), tab) && x - tab < StopAt(x, tab) <= x && (0 <= x ==> 0 <= StopAt(x, tab))
    ensures Aligned(NextStop(x, tab), tab) && x < NextStop(x, tab) <= x + tab
  {
    var q := x / tab;
    assert x == q * tab + x % tab && (q + 1) * tab == q * tab + tab;
    ModOfMultiple(q, tab);
    ModOfMultiple(q + 1, tab);
    MulBig(q, tab);
  }

  /** The window moves by two stops at a time. */
  lemma Shifted(x: int, tab: int)
    requires 0 < tab && Aligned(x, tab)
    ensures Aligned(x + 2 * tab, tab) && Aligned(x - 2 * tab, tab) && Aligned(0, tab)
    ensures x > 0 ==> x >= tab
  {
    var q := x / tab;
    assert x == q * tab && (q + 2) * tab == x + 2 * tab && (q - 2) * tab == x - 2 * tab;
    ModOfMultiple(q + 2, tab);
    ModOfMultiple(q - 2, tab);
    ModOfMultiple(0, tab);
    MulBig(q, tab);
  }

  /** No stop lies strictly inside the space a TAB takes. */
  lemma NoStopInside(w: int, m: int, tab: int)
    requires 0 < tab && Aligned(m, tab) && m < NextStop(w, tab)
    ensures m <= w
  {
    var q, k := w / tab, m / tab;
    assert w == q * tab + w % tab && m == k * tab;
    assert (k - q) * tab == k * tab - q * tab;
    MulBig(k - q, tab);
  }

  lemma NextColumn(l: Line, pos: int, tab: int)
    requires 0 <= pos && 0 < tab
    ensures Column(l, pos + 1, tab) == if pos < |l| && l[pos] == TAB then NextStop(Column(l, pos, tab), tab) else Column(l, pos, tab) + 1
    ensures Column(l, 0, tab) == 0 && Column(l, pos, tab) < Column(l, pos + 1, tab)
  {
    Stops(Column(l, pos, tab), tab);
  }

  /** The part of a buffer that cursor motion reads and changes. */
  class View {
    const lines: seq<Line>
    const tab: int
    const neColumns: int
    const neLines: int
    const freeForm: bool
    var curLine: int
    var curPos: int
    var curX: int
    var curY: int
    var winX: int
    var winY: int
    var xWanted: bool
    var wantedX: int

    ghost predicate Sized() {
      lines != [] && 0 < tab < neColumns / 2 && 2 <= neLines
    }

    /** The column the cursor goes for. */
    function Goal(): int
      reads this
    {
      if xWanted then wantedX else winX + curX
    }

    ghost predicate OnScreen()
      reads this
    {
      && Sized() && 0 <= winY && 0 <= curY <= neLines - 2 && curLine == winY + curY < |lines|
      && 0 <= winX && Aligned(winX, tab) && 0 <= curX < neColumns
      && (xWanted ==> winX + curX <= wantedX && (freeForm ==> wantedX - winX < neColumns))
    }

    /** The cursor is where its goal column puts it, and shown there. */
    ghost predicate Valid()
      reads this
    {
      && OnScreen() && 0 <= curPos && winX + curX == Column(lines[curLine], curPos, tab)
      && Covers(lines[curLine], curPos, Goal(), freeForm, tab)
    }

    /** resync_pos(): the cursor moves to the character at the goal column. */
    method ResyncPos()
      requires OnScreen()
      modifies this`curPos, this`curX, this`winX, this`xWanted, this`wantedX
      ensures Valid() && Goal() == old(Goal())
      ensures xWanted ==> old(xWanted) || winX + curX < Goal()
      ensures Goal() > 0 ==> (xWanted <==> winX + curX < Goal())
    {
      hide Aligned, Column, Covers, NextStop;
      var x := Goal();
      var l := lines[curLine];
      NextColumn(l, 0, tab);
      if x == 0 {
        curPos := 0;
        OwnColumn(l, 0, freeForm, tab);
        return;
      }
      var pos, width := 0, 0;
      while pos < |l|
        invariant 0 <= pos <= |l| && width == Column(l, pos, tab) < x
        invariant unchanged(this)
        decreases |l| - pos
      {
        NextColumn(l, pos, tab);
        var last := if l[pos] == TAB then NextStop(width, tab) - width else 1;
        width := width + last;
        if width == x {
          LandOn(pos + 1, x);
          return;
        }
        if width > x {
          StopBefore(pos, width - last, x);
          return;
        }
        pos := pos + 1;
      }
      if freeForm {
        curPos := |l| + x - width;
        curX := x - winX;
        xWanted := false;
        BeyondEnd(l, curPos, tab);
        OwnColumn(l, curPos, freeForm, tab);
      } else {
        wantedX := x;
        MoveToEol();
        xWanted := true;
        CoversEnd(l, x, tab);
      }
    }

    /** The goal column is inside a TAB: the cursor stops at its start and remembers the goal. */
    method StopBefore(pos: int, width: int, x: int)
      requires OnScreen() && x == Goal() && 0 <= pos < |lines[curLine]|
      requires width == Column(lines[curLine], pos, tab) < x < Column(lines[curLine], pos + 1, tab)
      modifies this`curPos, this`curX, this`winX, this`xWanted, this`wantedX
      ensures Valid() && Goal() == x && winX + curX < x
    {
      hide Aligned, Column, Covers, NextStop;
      NextColumn(lines[curLine], pos, tab);
      ColumnNat(lines[curLine], pos, tab);
      NoStopInside(width, winX, tab);
      CoversTab(lines[curLine], pos, x, freeForm, tab);
      curPos, xWanted, wantedX := pos, true, x;
      if width - winX < 0 {
        // The window would have to begin inside a TAB.
        assert false;
      } else if width - winX < neColumns {
        curX := width - winX;
      } else {
        Stops(width - neColumns, tab);
        winX := NextStop(width - neColumns, tab);
        curX := width - winX;
      }
    }

    /** The goal column is the column of a position: there is nothing to remember. */
    method LandOn(pos: int, x: int)
      requires OnScreen() && x == Goal()
      requires 0 <= pos <= |lines[curLine]| && x == Column(lines[curLine], pos, tab)
      modifies this`curPos, this`curX, this`winX, this`xWanted
      ensures Valid() && Goal() == x && !xWanted
    {
      hide Aligned, Column, Covers, NextStop;
      curPos := pos;
      OwnColumn(lines[curLine], pos, freeForm, tab);
      if xWanted {
        xWanted := false;
        if x - winX < neColumns {
          curX := x - winX;
        } else {
          Stops(x - neColumns + 1, tab);
          winX := NextStop(x - neColumns + 1, tab);
          curX := x - winX;
        }
      }
    }

    /** move_to_sol(). */
    method MoveToSol()
      requires OnScreen()
      modifies this`curPos, this`curX, this`winX, this`xWanted
      ensures Valid() && curPos == 0 && !xWanted
    {
      xWanted, winX, curX, curPos := false, 0, 0, 0;
      ZeroAligned(tab);
      OwnColumn(lines[curLine], 0, freeForm, tab);
    }

    /** move_to_eol(). */
    method MoveToEol()
      requires OnScreen()
      modifies this`curPos, this`curX, this`winX, this`xWanted
      ensures Valid() && curPos == |lines[curLine]| && !xWanted
    {
      hide Aligned, Column, Covers, StopAt, NextStop;
      var l := lines[curLine];
      xWanted := false;
      if |l| == 0 {
        MoveToSol();
        return;
      }
      var total := Column(l, |l|, tab);
      NextColumn(l, 0, tab);
      OwnColumn(l, |l|, freeForm, tab);
      if winX <= total < winX + neColumns {
        curX := total - winX;
        curPos := |l|;
        return;
      }
      var pos, width := 0, 0;
      while pos < |l|
        invariant 0 <= pos <= |l| && width == Column(l, pos, tab) && unchanged(this`curX, this`winX, this`curPos)
        invariant !xWanted && 0 <= width && (pos > 0 ==> total - width >= neColumns - tab)
        decreases |l| - pos
      {
        NextColumn(l, pos, tab);
        width := width + if l[pos] == TAB then NextStop(width, tab) - width else 1;
        if total - width < neColumns - tab {
          Stops(width, tab);
          if pos + 1 < |l| {
            ColumnGrows(l, pos + 1, |l|, tab);
          }
          winX := StopAt(width, tab);
          curX := total - winX;
          curPos := |l|;
          return;
        }
        pos := pos + 1;
      }
      assert false;
    }

    /** line_up(): the goal column stays, whatever the lines passed are like. */
    method LineUp() returns (ok: bool)
      requires Valid()
      modifies this
      ensures Valid() && Goal() == old(Goal()) && ok == (old(curLine) > 0)
      ensures curLine == if ok then old(curLine) - 1 else old(curLine)
      ensures !ok ==> curPos == old(curPos)
    {
      if curY > 0 {
        curY, curLine := curY - 1, curLine - 1;
        ResyncPos();
        return true;
      } else if winY > 0 {
        winY, curLine := winY - 1, curLine - 1;
        ResyncPos();
        return true;
      }
      return false;
    }

    /** line_down(). */
    method LineDown() returns (ok: bool)
      requires Valid()
      modifies this
      ensures Valid() && Goal() == old(Goal()) && ok == (old(curLine) + 1 < |lines|)
      ensures curLine == if ok then old(curLine) + 1 else old(curLine)
      ensures !ok ==> curPos == old(curPos)
      ensures xWanted ==> old(xWanted) || winX + curX < Goal()
    {
      if curY < neLines - 2 && curLine < |lines| - 1 {
        curY, curLine := curY + 1, curLine + 1;
        ResyncPos();
        return true;
      } else if winY < |lines| - neLines + 1 {
        winY, curLine := winY + 1, curLine + 1;
        ResyncPos();
        return true;
      }
      return false;
    }

    /** Up and down again is going nowhere, though the line above may be too short for the goal
        column or have a TAB across it. */
    method UpAndDown() returns (ok: bool)
      requires Valid()
      modifies this
      ensures Valid() && curLine == old(curLine) && curPos == old(curPos) && Goal() == old(Goal())
      ensures ok == (curLine > 0)
    {
      ok := LineUp();
      if ok {
        var down := LineDown();
        CoversOnce(lines[curLine], curPos, old(curPos), Goal(), freeForm, tab);
      }
    }

    /** block_left(). */
    method BlockLeft()
      requires Sized() && 0 <= winX && Aligned(winX, tab)
      modifies this`winX, this`curX
      ensures 0 <= winX && Aligned(winX, tab) && winX + curX == old(winX + curX)
      ensures winX == if old(winX) < 2 * tab then 0 else old(winX) - 2 * tab
    {
      hide Aligned;
      Shifted(winX, tab);
      var t := winX;
      winX := winX - 2 * tab;
      if winX < 0 {
        winX := 0;
      }
      curX := curX + t - winX;
    }

    /** char_left(). */
    method CharLeft() returns (ok: bool)
      requires Valid()
      modifies this
      ensures Valid() && !xWanted
      ensures Pos(curLine, curPos) == Left(lines, Pos(old(curLine), old(curPos)))
      ensures ok <==> Pos(curLine, curPos) != Pos(old(curLine), old(curPos))
    {
      hide Aligned, Column, Covers, NextStop;
      CoversInside(lines[curLine], curPos, Goal(), freeForm, tab);
      xWanted := false;
      OwnColumn(lines[curLine], curPos, freeForm, tab);
      if curPos > 0 {
        var l := lines[curLine];
        OwnColumn(l, curPos - 1, freeForm, tab);
        NextColumn(l, curPos - 1, tab);
        var width := Column(l, curPos - 1, tab);
        Stops(width, tab);
        var disp := if curPos <= |l| && l[curPos - 1] == TAB then NextStop(width, tab) - width else 1;
        if curX < disp {
          Shifted(winX, tab);
          ColumnNat(l, curPos - 1, tab);
          BlockLeft();
        }
        curX := curX - disp;
        curPos := curPos - 1;
        return true;
      } else if curLine > 0 {
        ok := LineUp();
        MoveToEol();
        return true;
      }
      return false;
    }

    method ToNextLine()
      requires OnScreen() && curLine + 1 < |lines|
      modifies this
      ensures Valid() && !xWanted && curLine == old(curLine) + 1 && curPos == 0
    {
      hide Aligned, Column, Covers;
      MoveToSol();
      NextColumn(lines[curLine], 0, tab);
      var ok := LineDown();
      NextColumn(lines[curLine], 0, tab);
      OwnColumn(lines[curLine], 0, freeForm, tab);
      CoversOnce(lines[curLine], curPos, 0, 0, freeForm, tab);
    }

    /** char_right(). */
    method CharRight() returns (ok: bool)
      requires Valid()
      modifies this
      ensures Valid() && !xWanted
      ensures Pos(curLine, curPos) == Right(lines, Pos(old(curLine), old(curPos)), freeForm)
      ensures ok <==> Pos(curLine, curPos) != Pos(old(curLine), old(curPos))
    {
      hide Aligned, Column, Covers, NextStop;
      var l := lines[curLine];
      var width := Column(l, curPos, tab);
      CoversInside(l, curPos, Goal(), freeForm, tab);
      NextColumn(l, curPos, tab);
      Stops(width, tab);
      var disp := if curPos < |l| && l[curPos] == TAB then NextStop(width, tab) - width else 1;
      xWanted := false;
      OwnColumn(l, curPos, freeForm, tab);
      if curPos == |l| && !freeForm {
        if curLine + 1 == |lines| {
          return false;
        }
        ToNextLine();
        return true;
      }
      curX := curX + disp;
      curPos := curPos + 1;
      OwnColumn(l, curPos, freeForm, tab);
      if curX >= neColumns || (curPos < |l| && curX + 1 > neColumns) {
        Shifted(winX, tab);
        winX, curX := winX + 2 * tab, curX - 2 * tab;
      }
      return true;
    }

    /** goto_column(). */
    method GotoColumn(n: int)
      requires Valid() && 0 <= n
      modifies this
      ensures Valid() && Goal() == n && curLine == old(curLine)
    {
      xWanted := false;
      OwnColumn(lines[curLine], curPos, freeForm, tab);
      if n == winX + curX {
        return;
      }
      Show(n);
      ResyncPos();
    }

    /** Puts column `n` in the middle of the window. */
    method CentreOn(n: int)
      requires Sized() && 0 <= n
      modifies this`winX, this`curX
      ensures 0 <= winX && Aligned(winX, tab) && 0 <= curX < neColumns && winX + curX == n
    {
      hide Aligned, StopAt;
      winX := n - neColumns / 2;
      if winX < 0 {
        winX := 0;
      }
      Stops(winX, tab);
      winX := StopAt(winX, tab);
      curX := n - winX;
    }

    /** goto_pos(). */
    method GotoPos(pos: int)
      requires OnScreen() && 0 <= pos
      modifies this`curPos, this`curX, this`winX, this`xWanted, this`wantedX
      ensures Valid() && curPos == (if pos > |lines[curLine]| && !freeForm then |lines[curLine]| else pos)
      ensures Goal() == Column(lines[curLine], pos, tab) && (xWanted <==> pos > |lines[curLine]| && !freeForm)
    {
      hide Aligned, Column, Covers, NextStop;
      var l := lines[curLine];
      NextColumn(l, 0, tab);
      BeyondEnd(l, if pos > |l| then pos else |l|, tab);
      assert 0 <= winX && Aligned(winX, tab) && 0 <= curX < neColumns;
      CoversEnd(l, Column(l, |l|, tab), tab);
      var last := if pos < |l| then pos else |l|;
      var col, at := 0, 0;
      while at < last
        invariant 0 <= at <= last && col == Column(l, at, tab) && unchanged(this)
        decreases last - at
      {
        NextColumn(l, at, tab);
        col := col + if l[at] == TAB then NextStop(col, tab) - col else 1;
        at := at + 1;
      }
      xWanted := false;
      if pos > |l| {
        if freeForm {
          col := col + pos - |l|;
          curPos := pos;
        } else {
          curPos := |l|;
          xWanted, wantedX := true, col + pos - |l|;
          CoversEnd(l, wantedX, tab);
        }
      } else {
        curPos := at;
      }
      OwnColumn(l, curPos, freeForm, tab);
      ColumnNat(l, curPos, tab);
      assert col == Column(l, curPos, tab) && Covers(l, curPos, if xWanted then wantedX else col, freeForm, tab);
      Show(col);
    }

    /** Brings column `col` into the window. */
    method Show(col: int)
      requires Sized() && 0 <= col && 0 <= winX && Aligned(winX, tab) && 0 <= curX < neColumns
      modifies this`winX, this`curX
      ensures 0 <= winX && Aligned(winX, tab) && 0 <= curX < neColumns && winX + curX == col
    {
      if col == winX + curX {
        return;
      }
      if winX <= col < winX + neColumns {
        curX := col - winX;
        return;
      }
      CentreOn(col);
    }

    /** Brings line `n` into the window. */
    method ShowLine(n: int)
      requires OnScreen() && 0 <= n < |lines|
      modifies this`winY, this`curY, this`curLine
      ensures OnScreen() && curLine == n
      ensures old(winY) <= n < old(winY) + neLines - 1 ==> winY == old(winY)
      ensures !(old(winY) <= n < old(winY) + neLines - 1) ==>
                && (winY == n - (neLines - 1) / 2 || winY == Max(0, |lines| - (neLines - 1)) || (winY == 0 && n < neLines / 2))
                && (winY == 0 || winY + neLines - 1 <= |lines|)
    {
      hide Aligned;
      if winY <= n < winY + neLines - 1 {
        curY, curLine := n - winY, n;
      } else {
        winY := n - (neLines - 1) / 2;
        if winY > |lines| - (neLines - 1) {
          winY := |lines| - (neLines - 1);
        }
        if winY < 0 {
          winY := 0;
        }
        curY, curLine := n - winY, n;
      }
    }

    /** goto_line_pos(); a negative `pos` stands for keeping the column. */
    method GotoLinePos(n: int, pos: int)
      requires Valid() && 0 <= n && -1 <= pos
      modifies this
      ensures Valid()
      ensures curLine == if n < |lines| then n else old(curLine)
      ensures n < |lines| && pos >= 0 ==> curPos == if pos > |lines[n]| && !freeForm then |lines[n]| else pos
      ensures pos == -1 ==> Goal() == old(Goal())
      ensures n >= |lines| || old(winY) <= n < old(winY) + neLines - 1 ==> winY == old(winY)
      ensures n < |lines| && !(old(winY) <= n < old(winY) + neLines - 1) ==>
                && (winY == n - (neLines - 1) / 2 || winY == Max(0, |lines| - (neLines - 1)) || (winY == 0 && n < neLines / 2))
                && (winY == 0 || winY + neLines - 1 <= |lines|)
    {
      hide Aligned, NextStop;
      if n >= |lines| || (n == curLine && pos == curPos) {
        return;
      }
      if n == curLine && pos == -1 {
        ResyncPos();
        return;
      }
      ShowLine(n);
      if pos != -1 {
        GotoPos(pos);
      } else {
        ResyncPos();
      }
    }
  }

  lemma ZeroAligned(tab: int)
    requires 0 < tab
    ensures Aligned(0, tab)
  {
  }

  lemma ColumnNat(l: Line, pos: int, tab: int)
    requires 0 <= pos && 0 < tab
    ensures pos <= Column(l, pos, tab)
  {
  }
}
