/** The search over the lines of a document, with one optional wrap. */
module LineSearch {
  import opened FlatText
  import opened Horspool

  /** No occurrence at `from` or behind it. */
  ghost predicate FreeFrom(text: seq<byte>, pat: seq<byte>, f: Fold, from: int) {
    forall k | from <= k :: !Occurs(text, pat, f, k)
  }

  ghost predicate FreeUpTo(text: seq<byte>, pat: seq<byte>, f: Fold, from: int) {
    forall k | k <= from :: !Occurs(text, pat, f, k)
  }

  ghost predicate Free(text: seq<byte>, pat: seq<byte>, f: Fold) {
    forall k :: !Occurs(text, pat, f, k)
  }

  /** Lines `a` up to `b` hold no occurrence. */
  ghost predicate AllFree(lines: seq<Line>, pat: seq<byte>, f: Fold, a: int, b: int) {
    forall y | 0 <= a <= y < b <= |lines| :: Free(lines[y], pat, f)
  }

  /** The place `(y, k)` is the first occurrence a forward search from `(y0, from)` meets; there is
      none if `y` is -1. After a wrap the line of the start is searched again as a whole. */
  ghost predicate NearestForward(lines: seq<Line>, pat: seq<byte>, f: Fold, y0: int, from: int, wrap: bool, y: int, k: int)
    requires 0 <= y0 < |lines|
  {
    if y == -1 then
      && FreeFrom(lines[y0], pat, f, from) && AllFree(lines, pat, f, y0 + 1, |lines|)
      && (wrap ==> AllFree(lines, pat, f, 0, y0 + 1))
    else
      && 0 <= y < |lines| && 0 <= k
      && if y == y0 && IsFirst(lines[y], pat, f, from, k) then true
         else if y > y0 then
           && FreeFrom(lines[y0], pat, f, from) && AllFree(lines, pat, f, y0 + 1, y)
           && IsFirst(lines[y], pat, f, 0, k)
         else
           && wrap && FreeFrom(lines[y0], pat, f, from) && AllFree(lines, pat, f, y0 + 1, |lines|)
           && AllFree(lines, pat, f, 0, y) && IsFirst(lines[y], pat, f, 0, k)
  }

  /** The same for a backward search: the first one met is the last one in the text. */
  ghost predicate NearestBackward(lines: seq<Line>, pat: seq<byte>, f: Fold, y0: int, from: int, wrap: bool, y: int, k: int)
    requires 0 <= y0 < |lines|
  {
    if y == -1 then
      && FreeUpTo(lines[y0], pat, f, from) && AllFree(lines, pat, f, 0, y0)
      && (wrap ==> AllFree(lines, pat, f, y0, |lines|))
    else
      && 0 <= y < |lines| && 0 <= k
      && if y == y0 && IsLast(lines[y], pat, f, from, k) then true
         else if y < y0 then
           && FreeUpTo(lines[y0], pat, f, from) && AllFree(lines, pat, f, y + 1, y0)
           && IsLast(lines[y], pat, f, |lines[y]|, k)
         else
           && wrap && FreeUpTo(lines[y0], pat, f, from) && AllFree(lines, pat, f, 0, y0)
           && AllFree(lines, pat, f, y + 1, |lines|) && IsLast(lines[y], pat, f, |lines[y]|, k)
  }

  /** Whatever the table, a place that is found is where the scan of its line ends. */
  ghost predicate Scanned(lines: seq<Line>, pat: seq<byte>, f: Fold, t: Table, y0: int, from: int, y: int, k: int)
    requires 0 < |pat| && 0 <= y < |lines| && 0 <= from
  {
    k == Forward(lines[y], |pat| - 1, pat, t, f) || (y == y0 && k == Forward(lines[y], from + |pat| - 1, pat, t, f))
  }

  lemma FreeInFront(text: seq<byte>, pat: seq<byte>, f: Fold)
    requires FreeFrom(text, pat, f, 0) || FreeUpTo(text, pat, f, |text|)
    ensures Free(text, pat, f)
  {
    forall k
      ensures !Occurs(text, pat, f, k)
    {
      assert Occurs(text, pat, f, k) ==> 0 <= k <= |text|;
    }
  }

  /** Searches one line forwards; a line shorter than the pattern is passed over. */
  method SearchLineForward(line: Line, p: int, pat: seq<byte>, d: array<int>, f: Fold, ghost t: Table) returns (k: int)
    requires 0 < |pat| && |pat| - 1 <= p && d[..] == t
    ensures k == Forward(line, p, pat, t, f) && (k == -1 || Occurs(line, pat, f, k))
    ensures Bounded(t, pat) && FitsForward(t, pat, f) ==> IsFirst(line, pat, f, p - |pat| + 1, k)
  {
    k := -1;
    if |line| >= |pat| {
      k := ScanForward(line, p, pat, d, f, t);
      ForwardSound(line, p, pat, t, f);
      if Bounded(t, pat) && FitsForward(t, pat, f) {
        ForwardFinds(line, p, pat, t, f);
      }
    }
  }

  /** Whatever the table, a place that is found is an occurrence. */
  lemma {:induction false} ForwardSound(text: seq<byte>, p: int, pat: seq<byte>, d: Table, f: Fold)
    requires 0 < |pat| && |pat| - 1 <= p
    ensures var k := Forward(text, p, pat, d, f); k == -1 || Occurs(text, pat, f, k)
    decreases |text| - p
  {
    if p < |text| && !Occurs(text, pat, f, p - |pat| + 1) {
      ForwardSound(text, p + d[Conv(f, text[p]) as int], pat, d, f);
    }
  }

  lemma {:induction false} BackwardSound(text: seq<byte>, p: int, pat: seq<byte>, d: Table, f: Fold)
    requires 0 < |pat| && p + |pat| <= |text|
    ensures var k := Backward(text, p, pat, d, f); k == -1 || Occurs(text, pat, f, k)
    decreases p
  {
    if p >= 0 && !Occurs(text, pat, f, p) {
      BackwardSound(text, p - d[Conv(f, text[p]) as int], pat, d, f);
    }
  }

  method FindForward(lines: seq<Line>, y0: int, pos: int, skipFirst: bool, wrap: bool, pat: seq<byte>,
                     d: array<int>, f: Fold, ghost t: Table) returns (y: int, k: int)
    requires 0 < |pat| && 0 <= y0 < |lines| && 0 <= pos
    requires d[..] == t
    ensures y == -1 == k || (0 <= y < |lines| && Occurs(lines[y], pat, f, k))
    ensures y != -1 ==> Scanned(lines, pat, f, t, y0, pos + (if skipFirst then 1 else 0), y, k)
    ensures Bounded(t, pat) && FitsForward(t, pat, f) ==>
              NearestForward(lines, pat, f, y0, pos + (if skipFirst then 1 else 0), wrap, y, k)
  {
    ghost var fits := Bounded(t, pat) && FitsForward(t, pat, f);
    ghost var from := pos + (if skipFirst then 1 else 0);
    var n, m := |lines|, |pat|;
    var p := pos + m - 1 + (if skipFirst then 1 else 0);
    var wrapOnce, wrapLinesLeft := wrap, n + 1;
    y := y0;
    ghost var wrapped := false;
    while y < n && wrapLinesLeft != 0
      invariant 0 <= y <= n && (wrapped ==> wrap) && wrapOnce == (wrap && !wrapped)
      invariant wrapLinesLeft == (if wrapped then y0 + 1 - y else n + 1 - (y - y0))
      invariant if wrapped then y <= y0 + 1 else y0 <= y
      invariant fits ==>
                  if wrapped then
                    && FreeFrom(lines[y0], pat, f, from) && AllFree(lines, pat, f, y0 + 1, n)
                    && AllFree(lines, pat, f, 0, y)
                  else
                    y > y0 ==> FreeFrom(lines[y0], pat, f, from) && AllFree(lines, pat, f, y0 + 1, y)
      invariant p == m - 1 + (if !wrapped && y == y0 then from else 0) || y == n
      invariant y == n ==> !wrapOnce
      decreases wrapLinesLeft
    {
      wrapLinesLeft := wrapLinesLeft - 1;
      k := SearchLineForward(lines[y], p, pat, d, f, t);
      if k != -1 {
        return;
      }
      if fits && (wrapped || y > y0) {
        FreeInFront(lines[y], pat, f);
      }
      y := y + 1;
      if y < n {
        p := m - 1;
      } else if wrapOnce {
        wrapOnce := false;
        wrapped := true;
        p := m - 1;
        y := 0;
      }
    }
    y, k := -1, -1;
  }

  method SearchLineBackward(line: Line, p: int, pat: seq<byte>, d: array<int>, f: Fold, ghost t: Table) returns (k: int)
    requires 0 < |pat| && p + |pat| <= |line| && d[..] == t
    ensures k == -1 || Occurs(line, pat, f, k)
    ensures Bounded(t, pat) && FitsBackward(t, pat, f) ==> IsLast(line, pat, f, p, k)
  {
    k := -1;
    if |line| >= |pat| {
      k := ScanBackward(line, p, pat, d, f, t);
      BackwardSound(line, p, pat, t, f);
      if Bounded(t, pat) && FitsBackward(t, pat, f) {
        BackwardFinds(line, p, pat, t, f);
      }
    }
  }

  /** A window cannot begin behind the last place where the pattern still fits. */
  lemma LastUpTo(line: Line, pat: seq<byte>, f: Fold, p: int, from: int, k: int)
    requires IsLast(line, pat, f, p, k) && p <= from && (p == from || p == |line| - |pat|)
    ensures IsLast(line, pat, f, from, k)
  {
  }

  method FindBackward(lines: seq<Line>, y0: int, pos: int, skipFirst: bool, wrap: bool, pat: seq<byte>,
                      d: array<int>, f: Fold, ghost t: Table) returns (y: int, k: int)
    requires 0 < |pat| && 0 <= y0 < |lines| && 0 <= pos
    requires d[..] == t
    ensures y == -1 == k || (0 <= y < |lines| && Occurs(lines[y], pat, f, k))
    ensures Bounded(t, pat) && FitsBackward(t, pat, f) ==>
              NearestBackward(lines, pat, f, y0, pos - (if skipFirst then 1 else 0), wrap, y, k)
  {
    ghost var fits := Bounded(t, pat) && FitsBackward(t, pat, f);
    ghost var from := pos - (if skipFirst then 1 else 0);
    var n, m := |lines|, |pat|;
    var p := if pos > |lines[y0]| - m then |lines[y0]| - m else pos + (if skipFirst then -1 else 0);
    var wrapOnce, wrapLinesLeft := wrap, n + 1;
    y := y0;
    ghost var wrapped := false;
    while y >= 0 && wrapLinesLeft != 0
      invariant -1 <= y < n && (wrapped ==> wrap) && wrapOnce == (wrap && !wrapped)
      invariant wrapLinesLeft == (if wrapped then y - y0 + 1 else n + 1 - (y0 - y))
      invariant if wrapped then y0 - 1 <= y else y <= y0
      invariant fits ==>
                  if wrapped then
                    && FreeUpTo(lines[y0], pat, f, from) && AllFree(lines, pat, f, 0, y0)
                    && AllFree(lines, pat, f, y + 1, n)
                  else
                    y < y0 ==> FreeUpTo(lines[y0], pat, f, from) && AllFree(lines, pat, f, y + 1, y0)
      invariant y >= 0 && (wrapped || y < y0) ==> p == |lines[y]| - m
      invariant !wrapped && y == y0 ==> p <= from && (p == from || p == |lines[y]| - m) && p + m <= |lines[y]|
      invariant y == -1 ==> !wrapOnce
      decreases wrapLinesLeft
    {
      wrapLinesLeft := wrapLinesLeft - 1;
      k := SearchLineBackward(lines[y], p, pat, d, f, t);
      if fits {
        LastUpTo(lines[y], pat, f, p, if !wrapped && y == y0 then from else |lines[y]|, k);
      }
      if k != -1 {
        return;
      }
      if fits && (wrapped || y < y0) {
        FreeInFront(lines[y], pat, f);
      }
      y := y - 1;
      if y >= 0 {
        p := |lines[y]| - m;
      } else if wrapOnce {
        wrapOnce := false;
        wrapped := true;
        y := n - 1;
        p := |lines[y]| - m;
      }
    }
    y, k := -1, -1;
  }
}
