/** The requester's table of pages: building it, and finding an entry's place in it. */
module RequestPages {
  import opened Integers
  import opened Requester

  /** The shape of the terminal and the way entries run over it. */
  datatype Screen = Screen(byColumn: bool, neColumns: int, neLines: int) {
    predicate Usable() {
      neColumns >= 0 && neLines >= 2
    }

    /** Three columns of the terminal for each column of entries, and no more than a page can hold. */
    function MaxCols(): (c: int)
      ensures 3 * c <= neColumns && c <= 16 && (c == 16 || neColumns < 3 * (c + 1))
    {
      Min(neColumns / 3, MAX_REQ_COLS)
    }

    /** All lines but the status bar. */
    function MaxRows(): (r: int)
      ensures r + 1 == neLines
    {
      neLines - 1
    }
  }

  const BLANK := Page(0, 0, 0, 0, Zeros())

  // ---- One page

  /** The page shows its entries in a rectangle without an empty row or column, no taller than the
      screen, and no wider unless it is a single column. */
  ghost predicate PageOk(p: Page, lengths: seq<int>, scr: Screen)
    requires scr.Usable()
  {
    && 0 < p.entries && 0 <= p.first && p.first + p.entries <= |lengths|
    && 0 < p.cols <= MAX_REQ_COLS && 0 < p.rows <= scr.MaxRows() && p.entries <= p.cols * p.rows
    && p == Laid(lengths, p.first, p.entries, scr.byColumn, p.cols, p.rows)
    && Fits(lengths, p.first, p.entries, scr.byColumn, p.cols, p.rows, scr.neColumns)
  }

  /** A rectangle already tight stays as it is. */
  lemma TightTwice(byColumn: bool, cols: int, rows: int, n: int)
    requires 0 < cols && 0 < rows && 0 < n <= cols * rows
    ensures var c, r := TightCols(byColumn, cols, rows, n), TightRows(byColumn, cols, rows, n);
            0 < c && 0 < r && TightCols(byColumn, c, r, n) == c && TightRows(byColumn, c, r, n) == r
  {
    RunsTight(n, if byColumn then rows else cols, n - 1);
  }

  /** What fit_page() accepts is a good page. */
  lemma AcceptedIsOk(lengths: seq<int>, first: int, n: int, cols: int, rows: int, scr: Screen)
    requires scr.Usable() && 0 < cols <= MAX_REQ_COLS && 0 < rows <= scr.MaxRows()
    requires 0 < n <= cols * rows && 0 <= first && first + n <= |lengths|
    requires Fits(lengths, first, n, scr.byColumn, cols, rows, scr.neColumns)
    ensures PageOk(Laid(lengths, first, n, scr.byColumn, cols, rows), lengths, scr)
  {
    hide TightCols, TightRows, RowOf, ColOf, Sum, LaidWidths;
    var c, r := TightCols(scr.byColumn, cols, rows, n), TightRows(scr.byColumn, cols, rows, n);
    TightTwice(scr.byColumn, cols, rows, n);
    TightPlaces(scr.byColumn, cols, rows, n, 0);
    forall i | 0 <= i < n
      ensures ColOf(scr.byColumn, cols, rows, i) == ColOf(scr.byColumn, c, r, i)
    {
      TightPlaces(scr.byColumn, cols, rows, n, i);
    }
    SameColumns(lengths, first, n, scr.byColumn, cols, rows, c, r);
  }

  /** How many entries a page of `cols` full columns takes, of those left. */
  function Share(total: int, first: int, cols: int, scr: Screen): (n: int)
    ensures n <= total - first && n <= cols * (scr.neLines - 1) && (n == total - first || n == cols * (scr.neLines - 1))
  {
    Min(cols * scr.MaxRows(), total - first)
  }

  lemma ShareFits(total: int, first: int, cols: int, scr: Screen)
    requires scr.Usable() && 0 <= first < total && 0 < cols
    ensures 0 < Share(total, first, cols, scr) <= cols * scr.MaxRows() && first + Share(total, first, cols, scr) <= total
  {
    MulBig(cols, scr.MaxRows());
  }

  predicate FitsWith(lengths: seq<int>, first: int, cols: int, scr: Screen)
    requires scr.Usable() && 0 <= first < |lengths| && 0 < cols <= MAX_REQ_COLS
  {
    ShareFits(|lengths|, first, cols, scr);
    Fits(lengths, first, Share(|lengths|, first, cols, scr), scr.byColumn, cols, scr.MaxRows(), scr.neColumns)
  }

  /** The largest number of columns, up to `most`, that goes on the screen. */
  function WidestFit(lengths: seq<int>, first: int, most: int, scr: Screen): (c: int)
    requires scr.Usable() && 0 <= first < |lengths| && 0 < most <= MAX_REQ_COLS
    ensures 0 < c <= most && FitsWith(lengths, first, c, scr)
    ensures forall d | c < d <= most :: !FitsWith(lengths, first, d, scr)
    decreases most
  {
    if most == 1 || FitsWith(lengths, first, most, scr) then most else WidestFit(lengths, first, most - 1, scr)
  }

  /** The page built at `first`. */
  function WidestPage(lengths: seq<int>, first: int, scr: Screen): Page
    requires scr.Usable() && 0 <= first < |lengths| && 0 < scr.MaxCols()
  {
    var c := WidestFit(lengths, first, scr.MaxCols(), scr);
    ShareFits(|lengths|, first, c, scr);
    Laid(lengths, first, Share(|lengths|, first, c, scr), scr.byColumn, c, scr.MaxRows())
  }

  lemma WidestPageOk(lengths: seq<int>, first: int, scr: Screen)
    requires scr.Usable() && 0 <= first < |lengths| && 0 < scr.MaxCols()
    ensures PageOk(WidestPage(lengths, first, scr), lengths, scr)
  {
    hide Fits, Laid;
    var c := WidestFit(lengths, first, scr.MaxCols(), scr);
    ShareFits(|lengths|, first, c, scr);
    AcceptedIsOk(lengths, first, Share(|lengths|, first, c, scr), c, scr.MaxRows(), scr);
  }

  // ---- A run of pages

  /** The first `k` pages follow each other from entry 0 on, none of them empty. */
  ghost predicate Chain(s: seq<Page>, k: nat)
    requires k <= |s|
  {
    forall j | 0 <= j < k :: s[j].entries > 0 && s[j].first == End(s, j)
  }

  function End(s: seq<Page>, k: nat): int
    requires k <= |s|
  {
    if k == 0 then 0 else s[k - 1].first + s[k - 1].entries
  }

  lemma ChainStart(s: seq<Page>)
    ensures Chain(s, 0) && End(s, 0) == 0
  {
  }

  lemma {:induction false} ChainOrder(s: seq<Page>, k: nat, i: nat, j: nat)
    requires i <= j <= k <= |s| && Chain(s, k)
    ensures 0 <= End(s, i) <= End(s, j) && (i < j ==> End(s, i) < End(s, j))
    decreases j
  {
    if j > 0 {
      ChainOrder(s, k, if i < j then i else j - 1, j - 1);
    }
  }

  predicate OnPage(p: Page, n: int) {
    p.first <= n < p.first + p.entries
  }

  /** Where a page of the chain lies. */
  lemma Extent(s: seq<Page>, k: nat, j: nat)
    requires j < k <= |s| && Chain(s, k)
    ensures s[j].entries > 0 && s[j].first == End(s, j) >= 0
    ensures End(s, j + 1) == s[j].first + s[j].entries <= End(s, k)
  {
    ChainOrder(s, k, 0, j);
    ChainOrder(s, k, j + 1, k);
  }

  lemma Apart(s: seq<Page>, k: nat, i: nat, j: nat)
    requires i < j < k <= |s| && Chain(s, k)
    ensures s[i].first + s[i].entries <= s[j].first
  {
    ChainOrder(s, k, i + 1, j);
  }

  /** The pages partition the entries: each is on one page, and on one only. */
  lemma OnePage(s: seq<Page>, k: nat, n: int)
    requires k <= |s| && Chain(s, k)
    ensures 0 <= n < End(s, k) <==> exists j | 0 <= j < k :: OnPage(s[j], n)
    ensures forall i, j | 0 <= i < k && 0 <= j < k && OnPage(s[i], n) && OnPage(s[j], n) :: i == j
  {
    hide Chain, End;
    forall i, j | 0 <= i < k && 0 <= j < k && OnPage(s[i], n) && OnPage(s[j], n)
      ensures i == j
    {
      if i != j {
        Apart(s, k, Min(i, j), Max(i, j));
      }
    }
    forall j | 0 <= j < k && OnPage(s[j], n)
      ensures 0 <= n < End(s, k)
    {
      Extent(s, k, j);
    }
    if 0 <= n < End(s, k) {
      var j := PageAt(s, k, n);
    }
  }

  lemma {:induction false} PageAt(s: seq<Page>, k: nat, n: int) returns (j: nat)
    requires k <= |s| && Chain(s, k) && 0 <= n < End(s, k)
    ensures j < k && OnPage(s[j], n)
    decreases k
  {
    if n >= End(s, k - 1) {
      j := k - 1;
    } else {
      j := PageAt(s, k - 1, n);
    }
  }

  // ---- Places

  /** pcr2n(): the entry at a column and row of a page. */
  function IndexAt(p: Page, byColumn: bool, c: int, r: int): int {
    if byColumn then p.first + p.rows * c + r else p.first + p.cols * r + c
  }

  /** The `n`-th entry is at a place of its page, and the entry at that place is the `n`-th. */
  lemma IndexOfPlace(p: Page, lengths: seq<int>, scr: Screen, n: int)
    requires scr.Usable() && PageOk(p, lengths, scr) && OnPage(p, n)
    ensures var c, r := ColOf(scr.byColumn, p.cols, p.rows, n - p.first), RowOf(scr.byColumn, p.cols, p.rows, n - p.first);
            0 <= c < p.cols <= |p.widths| && 0 <= r < p.rows && IndexAt(p, scr.byColumn, c, r) == n
  {
    hide Fits, TightCols, TightRows, LaidWidths;
    ColInRange(scr.byColumn, p.cols, p.rows, p.entries, n - p.first);
  }

  /** The entry shown at a place of a page has that place. */
  lemma PlaceOfIndex(p: Page, lengths: seq<int>, scr: Screen, c: int, r: int)
    requires scr.Usable() && PageOk(p, lengths, scr) && 0 <= c < p.cols && 0 <= r < p.rows
    ensures p.first <= IndexAt(p, scr.byColumn, c, r)
    ensures var i := IndexAt(p, scr.byColumn, c, r) - p.first;
            0 <= i && ColOf(scr.byColumn, p.cols, p.rows, i) == c && RowOf(scr.byColumn, p.cols, p.rows, i) == r
  {
    hide Laid, Fits;
    if scr.byColumn {
      PlacesInRuns(c, p.rows, r);
    } else {
      PlacesInRuns(r, p.cols, c);
    }
  }

  lemma PlacesInRuns(q: int, d: int, r: int)
    requires 0 <= q && 0 <= r < d
    ensures 0 <= d * q + r && (d * q + r) / d == q && (d * q + r) % d == r
  {
    MulBig(q, d);
    assert d * q == q * d;
    DivIs(d * q + r, d, q, r);
  }

  lemma {:induction false} SumSnoc(s: seq<int>, i: nat)
    requires i < |s|
    ensures Sum(s[..i + 1]) == Sum(s[..i]) + s[i]
  {
    if i == 0 {
      assert s[..1][1..] == [] && s[..0] == [];
      assert Sum(s[..1][1..]) == 0;
    } else {
      SumSnoc(s[1..], i - 1);
      assert s[..i + 1][1..] == s[1..][..i] && s[..i][1..] == s[1..][..i - 1];
    }
  }

  /** sum_ints(). */
  method SumInts(n: nat, s: seq<int>) returns (sum: int)
    requires n <= |s|
    ensures sum == Sum(s[..n])
  {
    sum := 0;
    for i := 0 to n
      invariant sum == Sum(s[..i])
    {
      SumSnoc(s, i);
      sum := sum + s[i];
    }
  }

  // ---- Building the table

  /** The first `k` pages are good ones over a prefix of the entries; from `start` on they are the
      widest that fit; the rest of the table is zero. */
  ghost predicate Built(s: seq<Page>, start: nat, k: nat, lengths: seq<int>, scr: Screen)
    requires scr.Usable()
  {
    && k <= |s| && Chain(s, k) && End(s, k) <= |lengths|
    && (forall j | 0 <= j < k :: PageOk(s[j], lengths, scr))
    && (forall j | start <= j < k :: IsWidest(s[j], lengths, scr))
    && (forall j | k <= j < |s| :: s[j].entries == 0)
  }

  ghost predicate IsWidest(p: Page, lengths: seq<int>, scr: Screen)
    requires scr.Usable()
  {
    0 < scr.MaxCols() && 0 <= p.first < |lengths| && p == WidestPage(lengths, p.first, scr)
  }

  lemma OnePageMore(s: seq<Page>, s': seq<Page>, start: nat, k: nat, lengths: seq<int>, scr: Screen)
    requires scr.Usable() && Built(s, start, k, lengths, scr) && k < |s| == |s'| && End(s, k) < |lengths| && 0 < scr.MaxCols()
    requires forall j | 0 <= j < |s| && j != k :: s'[j] == s[j]
    requires 0 <= End(s, k) && s'[k] == WidestPage(lengths, End(s, k), scr)
    ensures Built(s', start, k + 1, lengths, scr)
  {
    hide PageOk, WidestPage;
    WidestPageOk(lengths, End(s, k), scr);
    WidestExtent(lengths, End(s, k), scr);
    SameEnds(s, s', k);
  }

  lemma WidestExtent(lengths: seq<int>, first: int, scr: Screen)
    requires scr.Usable() && 0 <= first < |lengths| && 0 < scr.MaxCols()
    ensures var p := WidestPage(lengths, first, scr);
            p.first == first && 0 < p.entries && first + p.entries <= |lengths|
  {
    hide Fits, FitsWith;
    ShareFits(|lengths|, first, WidestFit(lengths, first, scr.MaxCols(), scr), scr);
  }

  /** Another page of the same extent, good too, may take the last one's place. */
  lemma LastPageChanged(s: seq<Page>, s': seq<Page>, start: nat, k: nat, lengths: seq<int>, scr: Screen)
    requires scr.Usable() && Built(s, start, k, lengths, scr) && 0 < k && |s'| == |s| && start < k
    requires forall j | 0 <= j < |s| && j != k - 1 :: s'[j] == s[j]
    requires s'[k - 1].first == s[k - 1].first && s'[k - 1].entries == s[k - 1].entries && PageOk(s'[k - 1], lengths, scr)
    requires scr.byColumn ==> IsReshaped(s[k - 1], s'[k - 1], lengths, scr)
    ensures Finished(s', start, k, lengths, scr) && End(s', k) == End(s, k)
  {
    hide PageOk, IsWidest, IsReshaped;
    SameEnds(s, s', k - 1);
    assert IsWidest(s[k - 1], lengths, scr);
    WidestFirst(s[k - 1], lengths, scr);
  }

  lemma WidestFirst(p: Page, lengths: seq<int>, scr: Screen)
    requires scr.Usable() && IsWidest(p, lengths, scr)
    ensures 0 <= p.first < |lengths| && 0 < scr.MaxCols() && p == WidestPage(lengths, p.first, scr)
  {
  }

  /** `n` entries by column fit on the page in a rectangle. */
  ghost predicate FitsIn(lengths: seq<int>, first: int, n: int, cols: int, rows: int, scr: Screen) {
    && 0 < cols <= MAX_REQ_COLS && 0 < rows && 0 < n <= cols * rows && 0 <= first && first + n <= |lengths|
    && Fits(lengths, first, n, true, cols, rows, scr.neColumns)
  }

  /** The last page may have so many rows: it is narrower, for its height, than the terminal, or as
      high as the terminal. */
  ghost predicate Slender(lengths: seq<int>, first: int, n: int, rows: int, scr: Screen)
    requires scr.Usable() && 0 < n && 0 < rows
  {
    var cols := Columns(n, rows);
    && cols < 16 && FitsIn(lengths, first, n, cols, rows, scr)
    && var p := Laid(lengths, first, n, true, cols, rows);
       && 0 <= p.cols <= |p.widths| && 0 < p.rows
       && (rows == scr.neLines - 1 || Sum(p.widths[..p.cols]) * 1000 / p.rows < scr.neColumns * 1000 / (scr.neLines - 1))
  }

  lemma SlenderMeans(lengths: seq<int>, first: int, n: int, rows: int, scr: Screen)
    requires scr.Usable() && 0 < n && 0 < rows && 0 <= first && first + n <= |lengths|
    ensures Columns(n, rows) >= 16 ==> !Slender(lengths, first, n, rows, scr)
    ensures 0 < Columns(n, rows) && n <= Columns(n, rows) * rows
    ensures var cols := Columns(n, rows);
            cols < 16 ==>
              var p := Laid(lengths, first, n, true, cols, rows);
              && 0 < p.cols <= |p.widths| && 0 < p.rows
              && (Slender(lengths, first, n, rows, scr) <==>
                    && Fits(lengths, first, n, true, cols, rows, scr.neColumns)
                    && (rows == scr.neLines - 1 || Sum(p.widths[..p.cols]) * 1000 / p.rows < scr.neColumns * 1000 / (scr.neLines - 1)))
  {
    hide Columns, Fits, Laid, Sum;
    ColumnsMeans(n, rows);
    if Columns(n, rows) < 16 {
      LaidShape(lengths, first, n, Columns(n, rows), rows);
    }
  }

  /** `good` rows, counting down from `rows`, are the fewest that the same columns fit in. */
  ghost predicate Fewest(lengths: seq<int>, first: int, n: int, cols: int, rows: int, good: int, scr: Screen) {
    && 0 < good <= rows && FitsIn(lengths, first, n, cols, good, scr)
    && (forall h | good < h <= rows :: FitsIn(lengths, first, n, cols, h, scr))
    && !FitsIn(lengths, first, n, cols, good - 1, scr)
  }

  /** The last page by column: the first number of rows that makes it slender tells the columns, and
      the rows are the fewest for them. A page that would always have too many columns stays. */
  ghost predicate IsReshaped(was: Page, p: Page, lengths: seq<int>, scr: Screen)
    requires scr.Usable()
  {
    0 < was.entries &&
    if Columns(was.entries, scr.MaxRows()) >= 16 then p == was
    else exists rows, good :: ReshapedTo(was, p, lengths, scr, rows, good)
  }

  ghost predicate ReshapedTo(was: Page, p: Page, lengths: seq<int>, scr: Screen, rows: int, good: int)
    requires scr.Usable() && 0 < was.entries
  {
    && 0 < rows < scr.neLines && Slender(lengths, was.first, was.entries, rows, scr)
    && (forall r | 0 < r < rows :: !Slender(lengths, was.first, was.entries, r, scr))
    && Fewest(lengths, was.first, was.entries, Columns(was.entries, rows), rows, good, scr)
    && p == Laid(lengths, was.first, was.entries, true, Columns(was.entries, rows), good)
  }

  /** As Built, but the last page by column is a reshaped one. */
  ghost predicate Finished(s: seq<Page>, start: nat, k: nat, lengths: seq<int>, scr: Screen)
    requires scr.Usable()
  {
    && 0 < k <= |s| && start < k && Chain(s, k) && 0 < scr.MaxCols()
    && (forall j | 0 <= j < k :: PageOk(s[j], lengths, scr))
    && (forall j | start <= j < k - 1 :: IsWidest(s[j], lengths, scr))
    && 0 <= s[k - 1].first < |lengths| && s[k - 1].entries == WidestPage(lengths, s[k - 1].first, scr).entries
    && (scr.byColumn ==> IsReshaped(WidestPage(lengths, s[k - 1].first, scr), s[k - 1], lengths, scr))
    && (forall j | k <= j < |s| :: s[j].entries == 0)
  }

  /** ceil(n / rows). */
  function Columns(n: int, rows: int): int
    requires 0 < n && 0 < rows
  {
    n / rows + if n % rows != 0 then 1 else 0
  }

  lemma ColumnsMeans(n: int, rows: int)
    requires 0 < n && 0 < rows
    ensures Columns(n, rows) == (n - 1) / rows + 1 > 0 && n <= Columns(n, rows) * rows
  {
    NextPlace(n, rows);
    RunsTight(n, rows, n - 1);
    var q := (n - 1) / rows;
    assert n - 1 == q * rows + (n - 1) % rows && (q + 1) * rows == q * rows + rows;
  }

  lemma FewerColumns(n: int, rows: int, more: int)
    requires 0 < n && 0 < rows <= more
    ensures Columns(n, more) <= Columns(n, rows)
  {
    hide Columns;
    ColumnsMeans(n, rows);
    ColumnsMeans(n, more);
    DivShrinks(n - 1, rows, more);
  }

  lemma DivShrinks(m: int, d: int, more: int)
    requires 0 <= m && 0 < d <= more
    ensures m / more <= m / d
  {
    var a, b := m / more, m / d;
    assert m == a * more + m % more && m == b * d + m % d;
    assert a * (more - d) == a * more - a * d && (a - b) * d == a * d - b * d;
    MulBig(a - b, d);
    if a > b {
      ProductNat(a, more - d);
      assert false;
    }
  }

  lemma ProductNat(a: int, b: int)
    requires 0 <= a && 0 <= b
    ensures 0 <= a * b
  {
  }

  /** A widest page by column also fits in as few columns as its entries fill, of full height. */
  lemma FullHeightFits(p: Page, lengths: seq<int>, scr: Screen)
    requires scr.Usable() && scr.byColumn && IsWidest(p, lengths, scr) && PageOk(p, lengths, scr)
    ensures var c := Columns(p.entries, scr.MaxRows());
            && 0 < c && p.entries <= c * scr.MaxRows()
            && (c <= MAX_REQ_COLS ==> Fits(lengths, p.first, p.entries, true, c, scr.MaxRows(), scr.neColumns))
  {
    hide RowOf, Sum, LaidWidths, WidestFit;
    var n, d := p.entries, scr.MaxRows();
    ColumnsMeans(n, d);
    var c := Columns(n, d);
    assert p.cols == c;
    if c <= MAX_REQ_COLS {
      forall i | 0 <= i < n
        ensures ColOf(true, p.cols, p.rows, i) == ColOf(true, c, d, i)
      {
        RunsTight(n, d, i);
      }
      SameColumns(lengths, p.first, n, true, p.cols, p.rows, c, d);
    }
  }

  /** The array of pages and how many of them are in use. */
  class PageTable {
    var table: array<Page>
    ghost var used: nat

    constructor ()
      ensures Kept() && fresh(table) && used == 0
    {
      table := new Page[0];
      used := 0;
    }

    ghost predicate Kept()
      reads this, table
    {
      used <= table.Length && Chain(table[..], used) && forall j | used <= j < table.Length :: table[j].entries == 0
    }

    /** req_page_table_expand(). */
    method Expand()
      modifies this`table
      ensures fresh(table) && table.Length == old(table.Length) + MAX_REQ_COLS
      ensures table[..] == old(table[..]) + seq(MAX_REQ_COLS, _ => BLANK)
    {
      var was := table;
      table := new Page[was.Length + MAX_REQ_COLS](i reads was => if 0 <= i < was.Length then was[i] else BLANK);
    }

    /** The loop of n2pcrx(). */
    method FindPage(n: int) returns (pg: nat)
      requires Kept() && n >= 0
      ensures n < End(table[..], used) ==> pg < used && OnPage(table[pg], n)
      ensures n >= End(table[..], used) ==> pg == 0
    {
      hide Chain, End;
      ghost var s := table[..];
      ChainStart(s);
      pg := 0;
      while pg < table.Length && table[pg].entries != 0
        invariant pg <= used && End(s, pg) <= n
      {
        Extent(s, used, pg);
        if table[pg].first + table[pg].entries > n {
          return;
        }
        pg := pg + 1;
      }
      assert pg == used by {
        if pg < used {
          Extent(s, used, pg);
        }
      }
      pg := 0;
    }

    /** n2pcrx(): the page, column, row and horizontal position of the `n`-th entry. */
    method Locate(n: int, lengths: seq<int>, scr: Screen) returns (p: nat, c: int, r: int, x: int)
      requires Kept() && n >= 0 && scr.Usable()
      requires forall j | 0 <= j < used :: PageOk(table[j], lengths, scr)
      ensures n < End(table[..], used) ==>
                && p < used && OnPage(table[p], n)
                && 0 <= c < table[p].cols && 0 <= r < table[p].rows && IndexAt(table[p], scr.byColumn, c, r) == n
                && c <= |table[p].widths| && x == Sum(table[p].widths[..c])
      ensures n >= End(table[..], used) ==> p == c == r == x == 0
    {
      hide Chain, End, PageOk, ColOf, RowOf;
      p := FindPage(n);
      if p < table.Length && table[p].entries != 0 && table[p].first + table[p].entries > n {
        var pp := table[p];
        assert p < used;
        Extent(table[..], used, p);
        IndexOfPlace(pp, lengths, scr, n);
        var dn := n - pp.first;
        r := RowOf(scr.byColumn, pp.cols, pp.rows, dn);
        c := ColOf(scr.byColumn, pp.cols, pp.rows, dn);
        x := SumInts(c, pp.widths);
      } else {
        p, c, r, x := 0, 0, 0, 0;
      }
    }

    /** The memset() of reset_req_pages(). */
    method ClearFrom(k: nat)
      requires k <= table.Length
      modifies table
      ensures forall j | 0 <= j < table.Length :: table[j] == if j < k then old(table[j]) else BLANK
    {
      for i := k to table.Length
        invariant forall j | 0 <= j < table.Length :: table[j] == if k <= j < i then BLANK else old(table[j])
      {
        table[i] := BLANK;
      }
    }

    /** The loop over numbers of columns, for the page at `pg`. */
    method WidestAt(pg: nat, first: int, lengths: seq<int>, scr: Screen) returns (cols: int)
      requires pg < table.Length && scr.Usable() && 0 <= first < |lengths|
      modifies table
      ensures forall j | 0 <= j < table.Length && j != pg :: table[j] == old(table[j])
      ensures scr.MaxCols() <= 0 ==> cols <= 0 && table[pg] == old(table[pg])
      ensures scr.MaxCols() > 0 ==> cols > 0 && table[pg] == WidestPage(lengths, first, scr)
    {
      hide Laid, Fits, LaidWidths;
      cols := scr.MaxCols();
      while cols > 0
        invariant cols <= scr.MaxCols() && (scr.MaxCols() > 0 ==> cols > 0)
        invariant cols > 0 ==> WidestFit(lengths, first, cols, scr) == WidestFit(lengths, first, scr.MaxCols(), scr)
        invariant forall j | 0 <= j < table.Length && j != pg :: table[j] == old(table[j])
        invariant cols <= 0 ==> table[pg] == old(table[pg])
        decreases cols
      {
        ShareFits(|lengths|, first, cols, scr);
        var fits, page := FitPage(lengths, first, Share(|lengths|, first, cols, scr), cols, scr.MaxRows(), scr.byColumn, scr.neColumns);
        table[pg] := page;
        if fits {
          break;
        }
        OneColumnFits(lengths, first, scr);
        cols := cols - 1;
      }
    }

    /** The while loop of reset_req_pages(), from page `start`. */
    method BuildPages(start: nat, lengths: seq<int>, scr: Screen) returns (pages: nat, ok: bool)
      requires scr.Usable() && Built(table[..], start, start, lengths, scr)
      modifies this`table, table
      ensures table == old(table) || fresh(table)
      ensures Built(table[..], start, pages, lengths, scr) && start <= pages
      ensures forall j | 0 <= j < start :: j < table.Length && table[j] == old(table[..])[j]
      ensures ok ==> End(table[..], pages) == |lengths|
      ensures ok <==> End(old(table[..]), start) == |lengths| || 0 < scr.MaxCols()
      ensures !ok ==> pages == start
    {
      hide PageOk, IsWidest, WidestPage, Chain;
      var first := End(table[..], start);
      pages := start;
      while first < |lengths|
        invariant table == old(table) || fresh(table)
        invariant Built(table[..], start, pages, lengths, scr) && start <= pages && first == End(table[..], pages)
        invariant forall j | 0 <= j < start :: j < table.Length && table[j] == old(table[..])[j]
        invariant pages > start ==> 0 < scr.MaxCols()
        invariant pages == start ==> first == End(old(table[..]), start)
        decreases |lengths| - first
      {
        if pages >= table.Length {
          ghost var was := table[..];
          Expand();
          Longer(was, table[..], start, pages, lengths, scr);
        }
        ghost var before := table[..];
        ChainOrder(before, pages, 0, pages);
        var cols := WidestAt(pages, first, lengths, scr);
        if cols <= 0 {
          assert table[..] == before;
          ok := false;
          return;
        }
        OnePageMore(before, table[..], start, pages, lengths, scr);
        Nonempty(table[..], start, pages + 1, lengths, scr);
        first := first + table[pages].entries;
        pages := pages + 1;
      }
      ok := true;
    }

    /** The inner loop of the final reshaping: fewer rows for the same columns, while they fit. */
    method FewerRows(pg: nat, first: int, needed: int, cols: int, rows: int, lengths: seq<int>, scr: Screen)
        returns (ghost good: int)
      requires pg < table.Length && scr.Usable() && scr.byColumn && 0 <= first && first + needed <= |lengths|
      requires 0 < cols <= MAX_REQ_COLS && 0 < rows <= scr.MaxRows() && 0 < needed <= cols * rows
      requires Fits(lengths, first, needed, true, cols, rows, scr.neColumns)
      modifies table
      ensures forall j | 0 <= j < table.Length && j != pg :: table[j] == old(table[j])
      ensures table[pg].first == first && table[pg].entries == needed && PageOk(table[pg], lengths, scr)
      ensures Fewest(lengths, first, needed, cols, rows, good, scr) && table[pg] == Laid(lengths, first, needed, true, cols, good)
    {
      hide Fits, PageOk, LaidWidths, TightCols, TightRows;
      var goodRows, fits, page := rows, true, BLANK;
      while goodRows > 1 && cols * (goodRows - 1) >= needed && fits
        invariant 0 < goodRows <= rows && needed <= cols * goodRows
        invariant forall h | goodRows <= h <= rows :: FitsIn(lengths, first, needed, cols, h, scr)
        invariant FitsIn(lengths, first, needed, cols, goodRows, scr)
        invariant !fits ==> !FitsIn(lengths, first, needed, cols, goodRows - 1, scr)
        invariant forall j | 0 <= j < table.Length && j != pg :: table[j] == old(table[j])
        decreases goodRows, fits
      {
        fits, page := FitPage(lengths, first, needed, cols, goodRows - 1, true, scr.neColumns);
        table[pg] := page;
        if fits {
          goodRows := goodRows - 1;
        }
      }
      fits, page := FitPage(lengths, first, needed, cols, goodRows, true, scr.neColumns);
      table[pg] := page;
      AcceptedIsOk(lengths, first, needed, cols, goodRows, scr);
      good := goodRows;
    }

    /** The final reshaping of reset_req_pages(): a failed attempt overwrites the page, yet the page
        left at the end is always a good one with the same entries. */
    method ReshapeLast(pg: nat, lengths: seq<int>, scr: Screen)
      requires pg < table.Length && scr.Usable() && scr.byColumn
      requires IsWidest(table[pg], lengths, scr) && PageOk(table[pg], lengths, scr)
      modifies table
      ensures forall j | 0 <= j < table.Length && j != pg :: table[j] == old(table[j])
      ensures table[pg].first == old(table[pg]).first && table[pg].entries == old(table[pg]).entries
      ensures PageOk(table[pg], lengths, scr) && IsReshaped(old(table[pg]), table[pg], lengths, scr)
    {
      hide Fits, Laid, LaidWidths, IsWidest, Columns, Sum, FitsIn, Fewest;
      ghost var before := table[pg];
      var needed, first, maxRows := table[pg].entries, table[pg].first, scr.MaxRows();
      FullHeightFits(before, lengths, scr);
      for rows := 1 to maxRows + 1
        invariant forall j | 0 <= j < table.Length && j != pg :: table[j] == old(table[j])
        invariant table[pg] == before || Columns(needed, maxRows) < MAX_REQ_COLS
        invariant forall r | 0 < r < rows :: !Slender(lengths, first, needed, r, scr)
        invariant rows > maxRows ==> Columns(needed, maxRows) >= MAX_REQ_COLS
      {
        var cols := Columns(needed, rows);
        SlenderMeans(lengths, first, needed, rows, scr);
        if cols >= MAX_REQ_COLS {
          continue;
        }
        ColumnsMeans(needed, rows);
        FewerColumns(needed, rows, maxRows);
        var fits, page := FitPage(lengths, first, needed, cols, rows, true, scr.neColumns);
        table[pg] := page;
        if fits {
          LaidShape(lengths, first, needed, cols, rows);
          var width := SumInts(page.cols, page.widths);
          if rows == maxRows || width * 1000 / page.rows < scr.neColumns * 1000 / (scr.neLines - 1) {
            ghost var good := FewerRows(pg, first, needed, cols, rows, lengths, scr);
            assert ReshapedTo(before, table[pg], lengths, scr, rows, good);
            return;
          }
        }
      }
    }

    /** Finds the page of entry `n0` and clears the table from there on. */
    method Restart(n0: int, lengths: seq<int>, scr: Screen) returns (cur: nat)
      requires Kept() && scr.Usable() && 0 <= n0 && (n0 > 0 ==> n0 < End(table[..], used) && n0 < |lengths|)
      requires forall j | 0 <= j < used :: table[j].first + table[j].entries <= n0 ==> PageOk(table[j], lengths, scr)
      modifies this, table
      ensures table == old(table) || fresh(table)
      ensures Built(table[..], cur, cur, lengths, scr) && End(table[..], cur) <= n0 && cur <= old(table.Length)
      ensures forall j | 0 <= j < cur :: table[j] == old(table[..])[j]
    {
      hide PageOk, IsWidest, WidestPage, Chain, End;
      if table.Length == 0 {
        Expand();
        ChainStart(table[..]);
      }
      cur := FindPage(n0);
      ghost var before := table[..];
      StartOfPage(before, used, n0, cur);
      ClearFrom(cur);
      ShorterChain(before, used, cur);
      ClearedBuilt(before, table[..], cur, n0, lengths, scr);
      SameEnds(before, table[..], cur);
    }

    /** reset_req_pages(): from the page that holds entry `n0` on, the table is built anew. */
    method ResetPages(n0: int, lengths: seq<int>, scr: Screen) returns (pages: int, ghost start: nat)
      requires Kept() && scr.Usable() && (scr.byColumn ==> 0 < |lengths|)
      requires 0 <= n0 && (n0 > 0 ==> n0 < End(table[..], used) && n0 < |lengths|)
      requires forall j | 0 <= j < used :: table[j].first + table[j].entries <= n0 ==> PageOk(table[j], lengths, scr)
      modifies this, table
      ensures Kept()
      ensures pages == 0 <==> |lengths| == 0 || scr.MaxCols() <= 0
      ensures pages > 0 ==> pages == used && Finished(table[..], start, used, lengths, scr) && End(table[..], used) == |lengths|
      ensures pages > 0 && !scr.byColumn ==> Built(table[..], start, used, lengths, scr)
      ensures start <= table.Length && start <= old(table.Length) && End(table[..], start) <= n0
      ensures forall j | 0 <= j < start :: table[j] == old(table[..])[j]
    {
      hide PageOk, IsWidest, WidestPage, Chain, End;
      var cur := Restart(n0, lengths, scr);
      start := cur;
      ghost var cleared := table[..];
      var ok;
      cur, ok := BuildPages(cur, lengths, scr);
      used := cur;
      SameEnds(cleared, table[..], start);
      if !ok {
        pages := 0;
        return;
      }
      pages := cur;
      ghost var built := table[..];
      if cur > 0 {
        Reach(built, start, cur, n0, lengths, scr);
        LastIsWidest(built, start, cur, lengths, scr);
        if scr.byColumn {
          ReshapeLast(cur - 1, lengths, scr);
        }
        LastPageChanged(built, table[..], start, cur, lengths, scr);
        SameEnds(built, table[..], start);
      }
    }
  }

  lemma OneColumnFits(lengths: seq<int>, first: int, scr: Screen)
    requires scr.Usable() && 0 <= first < |lengths|
    ensures FitsWith(lengths, first, 1, scr)
  {
  }

  lemma Nonempty(s: seq<Page>, start: nat, k: nat, lengths: seq<int>, scr: Screen)
    requires scr.Usable() && Built(s, start, k, lengths, scr) && 0 < k
    ensures s[k - 1].entries > 0 && End(s, k) == End(s, k - 1) + s[k - 1].entries <= |lengths|
  {
  }

  lemma Longer(s: seq<Page>, s': seq<Page>, start: nat, k: nat, lengths: seq<int>, scr: Screen)
    requires scr.Usable() && Built(s, start, k, lengths, scr) && s' == s + seq(MAX_REQ_COLS, _ => BLANK)
    ensures Built(s', start, k, lengths, scr) && End(s', k) == End(s, k)
  {
    hide PageOk, IsWidest;
    SameEnds(s, s', k);
  }

  lemma SameEnds(s: seq<Page>, s': seq<Page>, k: nat)
    requires k <= |s| && k <= |s'| && forall j | 0 <= j < k :: s[j] == s'[j]
    ensures forall j | 0 <= j <= k :: End(s, j) == End(s', j)
  {
  }

  lemma ShorterChain(s: seq<Page>, k: nat, j: nat)
    requires j <= k <= |s| && Chain(s, k)
    ensures Chain(s, j)
  {
  }

  /** Where rebuilding starts: at or before `n0`, with all earlier pages ending there. */
  lemma StartOfPage(s: seq<Page>, k: nat, n0: int, pg: nat)
    requires k <= |s| && Chain(s, k) && 0 <= n0 && 0 < |s|
    requires n0 < End(s, k) ==> pg < k && OnPage(s[pg], n0)
    requires n0 >= End(s, k) ==> pg == 0
    ensures pg <= k && End(s, pg) <= n0
    ensures forall j | 0 <= j < pg :: s[j].first + s[j].entries <= n0
  {
    if n0 < End(s, k) {
      Extent(s, k, pg);
    }
    forall j | 0 <= j < pg
      ensures s[j].first + s[j].entries <= n0
    {
      Apart(s, k, j, pg);
    }
  }

  lemma ClearedBuilt(s: seq<Page>, s': seq<Page>, k: nat, n0: int, lengths: seq<int>, scr: Screen)
    requires scr.Usable() && k <= |s| == |s'| && Chain(s, k) && End(s, k) <= n0 <= |lengths|
    requires forall j | 0 <= j < |s| :: s'[j] == if j < k then s[j] else BLANK
    requires forall j | 0 <= j < k :: s[j].first + s[j].entries <= n0 && PageOk(s[j], lengths, scr)
    ensures Built(s', k, k, lengths, scr)
  {
    hide PageOk, IsWidest;
    SameEnds(s, s', k);
  }

  lemma Reach(s: seq<Page>, start: nat, k: nat, n0: int, lengths: seq<int>, scr: Screen)
    requires scr.Usable() && Built(s, start, k, lengths, scr) && start <= k && 0 < k
    requires End(s, start) <= n0 && End(s, k) == |lengths| && (n0 > 0 ==> n0 < |lengths|)
    ensures start < k && 0 < |lengths|
  {
    hide PageOk, IsWidest;
    ChainOrder(s, k, 0, k);
  }

  lemma LastIsWidest(s: seq<Page>, start: nat, k: nat, lengths: seq<int>, scr: Screen)
    requires scr.Usable() && Built(s, start, k, lengths, scr) && start < k
    ensures IsWidest(s[k - 1], lengths, scr) && PageOk(s[k - 1], lengths, scr)
  {
    hide PageOk, IsWidest;
  }

  lemma LaidShape(lengths: seq<int>, first: int, n: int, cols: int, rows: int)
    requires 0 < cols <= MAX_REQ_COLS && 0 < rows && 0 < n <= cols * rows && 0 <= first && first + n <= |lengths|
    ensures var p := Laid(lengths, first, n, true, cols, rows);
            0 < p.cols <= MAX_REQ_COLS && 0 < p.rows && |p.widths| == MAX_REQ_COLS
  {
    TightPlaces(true, cols, rows, n, 0);
  }
}
