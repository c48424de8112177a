/** The pages of a requester: which entries go on which page, and where on it. */
module Requester {
  import opened Integers

  const MAX_REQ_COLS := 16

  datatype Page = Page(first: int, entries: int, cols: int, rows: int, widths: seq<int>)

  /** Row and column of the `i`-th entry of a page laid out for `cols` times `rows` entries. */
  function RowOf(byColumn: bool, cols: int, rows: int, i: int): int
    requires cols > 0 && rows > 0 && i >= 0
  {
    if byColumn then i % rows else i / cols
  }

  function ColOf(byColumn: bool, cols: int, rows: int, i: int): int
    requires cols > 0 && rows > 0 && i >= 0
  {
    if byColumn then i / rows else i % cols
  }

  /** How many columns and rows `n` entries take up. */
  function TightCols(byColumn: bool, cols: int, rows: int, n: int): int
    requires cols > 0 && rows > 0 && n >= 0
  {
    if n == 0 then 0 else if byColumn then (n - 1) / rows + 1 else Min(cols, n)
  }

  function TightRows(byColumn: bool, cols: int, rows: int, n: int): int
    requires cols > 0 && rows > 0 && n >= 0
  {
    if n == 0 then 0 else if byColumn then Min(rows, n) else (n - 1) / cols + 1
  }

  function Sum(s: seq<int>): int {
    if s == [] then 0 else s[0] + Sum(s[1..])
  }

  lemma {:induction false} SumUpdate(s: seq<int>, i: int, v: int)
    requires 0 <= i < |s|
    ensures Sum(s[i := v]) == Sum(s) + v - s[i]
  {
    if i == 0 {
      assert s[0 := v][1..] == s[1..];
    } else {
      assert s[i := v][1..] == s[1..][i - 1 := v];
      SumUpdate(s[1..], i - 1, v);
    }
  }

  lemma {:induction false} SumZero(n: nat)
    ensures Sum(seq(n, _ => 0)) == 0
  {
    if n > 0 {
      assert seq(n, _ => 0)[1..] == seq(n - 1, _ => 0);
      SumZero(n - 1);
    }
  }

  lemma ColInRange(byColumn: bool, cols: int, rows: int, n: int, i: int)
    requires 0 < cols && 0 < rows && 0 <= i < n <= cols * rows
    ensures 0 <= ColOf(byColumn, cols, rows, i) < cols && 0 <= RowOf(byColumn, cols, rows, i) < rows
  {
    if byColumn {
      DivBelow(i, cols, rows);
    } else {
      DivBelow(i, rows, cols);
    }
  }

  /** From one index to the next: the next place in a run of `d`, or the first of a new run. */
  lemma NextPlace(n: int, d: int)
    requires 0 < n && 0 < d
    ensures var q, r := (n - 1) / d, (n - 1) % d;
            if r + 1 < d then n / d == q && n % d == r + 1 else n / d == q + 1 && n % d == 0
  {
    var q, r := (n - 1) / d, (n - 1) % d;
    assert n - 1 == q * d + r;
    if r + 1 < d {
      DivIs(n, d, q, r + 1);
    } else {
      assert (q + 1) * d == q * d + d;
      DivIs(n, d, q + 1, 0);
    }
  }

  /** The fuller part of a tight rectangle: min(d, n) places in use, in (n - 1) / d + 1 runs. */
  lemma RunsGrow(n: int, d: int)
    requires 0 <= n && 0 < d
    ensures 0 <= n % d < d && 0 <= n / d
    ensures n == 0 ==> n % d == 0 && n / d == 0
    ensures n > 0 ==> Max(Min(d, n), n % d + 1) == Min(d, n + 1)
    ensures n > 0 ==> Max((n - 1) / d + 1, n / d + 1) == n / d + 1
  {
    if n == 0 {
      DivIs(0, d, 0, 0);
    } else {
      NextPlace(n, d);
      if n < d {
        DivIs(n, d, 0, n);
      }
    }
  }

  /** Going on by one entry keeps the rectangle tight. */
  lemma TightStep(byColumn: bool, cols: int, rows: int, n: int)
    requires 0 < cols && 0 < rows && 0 <= n
    ensures TightCols(byColumn, cols, rows, n + 1) == Max(TightCols(byColumn, cols, rows, n), ColOf(byColumn, cols, rows, n) + 1)
    ensures TightRows(byColumn, cols, rows, n + 1) == Max(TightRows(byColumn, cols, rows, n), RowOf(byColumn, cols, rows, n) + 1)
  {
    RunsGrow(n, if byColumn then rows else cols);
  }

  /** Column widths once the first `n` entries of a page have been placed. */
  function LaidWidths(lengths: seq<int>, n0: int, n: int, byColumn: bool, cols: int, rows: int): (w: seq<int>)
    requires 0 < cols <= MAX_REQ_COLS && 0 < rows && 0 <= n <= cols * rows && 0 <= n0 && n0 + n <= |lengths|
    ensures |w| == MAX_REQ_COLS
    decreases n
  {
    if n == 0 then Zeros()
    else
      ColInRange(byColumn, cols, rows, n, n - 1);
      var w := LaidWidths(lengths, n0, n - 1, byColumn, cols, rows);
      Widened(w, ColOf(byColumn, cols, rows, n - 1), lengths[n0 + n - 1])
  }

  function Zeros(): (w: seq<int>)
    ensures |w| == MAX_REQ_COLS && forall c | 0 <= c < |w| :: w[c] == 0
  {
    seq(MAX_REQ_COLS, _ => 0)
  }

  function Widened(w: seq<int>, c: int, length: int): (r: seq<int>)
    requires 0 <= c < |w|
    ensures |r| == |w|
  {
    w[c := Max(w[c], length)]
  }

  /** A column is as wide as its widest entry. */
  lemma {:induction false} WidestEntry(lengths: seq<int>, n0: int, n: int, byColumn: bool, cols: int, rows: int, c: int)
    requires 0 < cols <= MAX_REQ_COLS && 0 < rows && 0 <= n <= cols * rows && 0 <= n0 && n0 + n <= |lengths|
    requires 0 <= c < MAX_REQ_COLS && forall i | 0 <= i < |lengths| :: lengths[i] >= 0
    ensures var w := LaidWidths(lengths, n0, n, byColumn, cols, rows)[c];
            && (forall i | 0 <= i < n :: ColOf(byColumn, cols, rows, i) == c ==> lengths[n0 + i] <= w)
            && (w == 0 || exists i | 0 <= i < n :: ColOf(byColumn, cols, rows, i) == c && lengths[n0 + i] == w)
    decreases n
  {
    hide RowOf, ColOf;
    if n > 0 {
      WidestEntry(lengths, n0, n - 1, byColumn, cols, rows, c);
      ColInRange(byColumn, cols, rows, n, n - 1);
      var v := LaidWidths(lengths, n0, n - 1, byColumn, cols, rows)[c];
      var w := LaidWidths(lengths, n0, n, byColumn, cols, rows)[c];
      if w != v {
        assert ColOf(byColumn, cols, rows, n - 1) == c && lengths[n0 + (n - 1)] == w;
      } else if w != 0 {
        var i :| 0 <= i < n - 1 && ColOf(byColumn, cols, rows, i) == c && lengths[n0 + i] == v;
        assert 0 <= i < n;
      }
    }
  }

  /** Placing more entries never narrows the page. */
  lemma {:induction false} WidthsGrow(lengths: seq<int>, n0: int, m: int, n: int, byColumn: bool, cols: int, rows: int)
    requires 0 < cols <= MAX_REQ_COLS && 0 < rows && 0 <= m <= n <= cols * rows && 0 <= n0 && n0 + n <= |lengths|
    ensures Sum(LaidWidths(lengths, n0, m, byColumn, cols, rows)) <= Sum(LaidWidths(lengths, n0, n, byColumn, cols, rows))
    decreases n
  {
    hide RowOf, ColOf, Sum;
    if m < n {
      WidthsGrow(lengths, n0, m, n - 1, byColumn, cols, rows);
      ColInRange(byColumn, cols, rows, n, n - 1);
      var w, c := LaidWidths(lengths, n0, n - 1, byColumn, cols, rows), ColOf(byColumn, cols, rows, n - 1);
      SumUpdate(w, c, Max(w[c], lengths[n0 + n - 1]));
    }
  }

  /** Two layouts that put every entry in the same column give the same widths. */
  lemma {:induction false} SameColumns(lengths: seq<int>, n0: int, n: int, byColumn: bool, cols: int, rows: int, cols': int, rows': int)
    requires 0 < cols <= MAX_REQ_COLS && 0 < rows && 0 <= n <= cols * rows && 0 <= n0 && n0 + n <= |lengths|
    requires 0 < cols' <= MAX_REQ_COLS && 0 < rows' && n <= cols' * rows'
    requires forall i | 0 <= i < n :: ColOf(byColumn, cols, rows, i) == ColOf(byColumn, cols', rows', i)
    ensures LaidWidths(lengths, n0, n, byColumn, cols, rows) == LaidWidths(lengths, n0, n, byColumn, cols', rows')
    decreases n
  {
    hide RowOf, ColOf;
    if n > 0 {
      SameColumns(lengths, n0, n - 1, byColumn, cols, rows, cols', rows');
    }
  }

  /** Does a page of `n` entries in `cols` columns go on the screen? One column always does. */
  predicate Fits(lengths: seq<int>, n0: int, n: int, byColumn: bool, cols: int, rows: int, neColumns: int)
    requires 0 < cols <= MAX_REQ_COLS && 0 < rows && 0 <= n <= cols * rows && 0 <= n0 && n0 + n <= |lengths|
  {
    cols == 1 || Sum(LaidWidths(lengths, n0, n, byColumn, cols, rows)) <= neColumns
  }

  function Laid(lengths: seq<int>, n0: int, n: int, byColumn: bool, cols: int, rows: int): Page
    requires 0 < cols <= MAX_REQ_COLS && 0 < rows && 0 <= n <= cols * rows && 0 <= n0 && n0 + n <= |lengths|
  {
    Page(n0, n, TightCols(byColumn, cols, rows, n), TightRows(byColumn, cols, rows, n), LaidWidths(lengths, n0, n, byColumn, cols, rows))
  }

  /** fit_page(): it gives up as soon as the columns are too wide together, which decides the
      question for all the entries. */
  method FitPage(lengths: seq<int>, n0: int, entries: int, cols: int, rows: int, byColumn: bool, neColumns: int)
      returns (fits: bool, page: Page)
    requires 0 < cols <= MAX_REQ_COLS && 0 < rows && 0 <= entries <= cols * rows && 0 <= n0 && n0 + entries <= |lengths|
    ensures fits == Fits(lengths, n0, entries, byColumn, cols, rows, neColumns)
    ensures fits ==> page == Laid(lengths, n0, entries, byColumn, cols, rows)
  {
    hide TightCols, TightRows, RowOf, ColOf, Sum;
    var widths, cc, rr := Zeros(), 0, 0;
    var i, combined := 0, 0;
    TightStart(byColumn, cols, rows);
    while i < entries && (cols == 1 || combined <= neColumns)
      invariant 0 <= i <= entries && combined == Sum(widths)
      invariant Page(n0, i, cc, rr, widths) == Laid(lengths, n0, i, byColumn, cols, rows)
    {
      ColInRange(byColumn, cols, rows, entries, i);
      TightStep(byColumn, cols, rows, i);
      var row, col := RowOf(byColumn, cols, rows, i), ColOf(byColumn, cols, rows, i);
      if widths[col] < lengths[n0 + i] {
        SumUpdate(widths, col, lengths[n0 + i]);
        combined := combined + lengths[n0 + i] - widths[col];
        widths := widths[col := lengths[n0 + i]];
      }
      i := i + 1;
      if cc < col + 1 {
        cc := col + 1;
      }
      if rr < row + 1 {
        rr := row + 1;
      }
    }
    WidthsGrow(lengths, n0, i, entries, byColumn, cols, rows);
    page := Page(n0, i, cc, rr, widths);
    fits := i == entries && (cols == 1 || combined <= neColumns);
  }

  lemma TightStart(byColumn: bool, cols: int, rows: int)
    requires 0 < cols && 0 < rows
    ensures TightCols(byColumn, cols, rows, 0) == TightRows(byColumn, cols, rows, 0) == 0 && Sum(Zeros()) == 0
  {
    SumZero(MAX_REQ_COLS);
  }

  /** Places in runs of `d` are places in runs of min(d, n), for the first `n`. */
  lemma RunsTight(n: int, d: int, i: int)
    requires 0 <= i < n && 0 < d
    ensures 0 < Min(d, n) && i / Min(d, n) == i / d && i % Min(d, n) == i % d
    ensures 0 <= i / d < (n - 1) / d + 1 && n <= ((n - 1) / d + 1) * Min(d, n)
  {
    if n < d {
      DivIs(i, n, 0, i);
      DivIs(i, d, 0, i);
      DivIs(n - 1, d, 0, n - 1);
    } else {
      var q := (n - 1) / d;
      assert n - 1 == q * d + (n - 1) % d && (q + 1) * d == q * d + d;
      DivBelow(i, q + 1, d);
    }
  }

  /** The tight rectangle puts every entry where the roomier one put it. */
  lemma TightPlaces(byColumn: bool, cols: int, rows: int, n: int, i: int)
    requires 0 < cols && 0 < rows && 0 <= i < n <= cols * rows
    ensures var c, r := TightCols(byColumn, cols, rows, n), TightRows(byColumn, cols, rows, n);
            && 0 < c <= cols && 0 < r <= rows && n <= c * r
            && ColOf(byColumn, c, r, i) == ColOf(byColumn, cols, rows, i) < c
            && RowOf(byColumn, c, r, i) == RowOf(byColumn, cols, rows, i) < r
  {
    ColInRange(byColumn, cols, rows, n, n - 1);
    RunsTight(n, if byColumn then rows else cols, i);
    ColInRange(byColumn, TightCols(byColumn, cols, rows, n), TightRows(byColumn, cols, rows, n), n, i);
  }
}
