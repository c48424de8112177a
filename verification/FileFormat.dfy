/** What a file means as a document: where its lines begin and end, and which of its bytes turn
    into free ones. */
module FileFormat {
  import opened FlatText

  const CR: byte := 0x0D
  const LF: byte := 0x0A

  /** Binary documents end lines with NUL only; with PreserveCr a CR is an ordinary byte. */
  datatype Mode = Plain | PreserveCr | Binary

  predicate IsTerminator(mode: Mode, c: byte) {
    c == 0 || (!mode.Binary? && c == LF) || (mode.Plain? && c == CR)
  }

  datatype Extent = Extent(off: int, len: int)

  /** The bytes with their terminators zeroed, the extents of the lines, whether a CR/LF pair was
      met, and how many bytes became free. */
  datatype Loaded = Loaded(bytes: seq<byte>, lines: seq<Extent>, crlf: bool, freed: int)

  predicate IsPair(s: seq<byte>, i: int) {
    0 <= i < |s| - 1 && s[i] == CR && s[i + 1] == LF
  }

  /** The rest of a file from `i` on, in a line that began at `start`. */
  function Rest(s: seq<byte>, mode: Mode, i: int, start: int): (r: Loaded)
    requires 0 <= start <= i <= |s|
    ensures |r.bytes| == |s| - i && r.lines != []
    decreases |s| - i
  {
    if i == |s| then Loaded([], [Extent(start, i - start)], false, 0)
    else if IsTerminator(mode, s[i]) then
      if IsPair(s, i) then
        var r := Rest(s, mode, i + 2, i + 2);
        Loaded([0, 0] + r.bytes, [Extent(start, i - start)] + r.lines, true, 2 + r.freed)
      else
        var r := Rest(s, mode, i + 1, i + 1);
        Loaded([0] + r.bytes, [Extent(start, i - start)] + r.lines, r.crlf, 1 + r.freed)
    else
      var r := Rest(s, mode, i + 1, start);
      Loaded([s[i]] + r.bytes, r.lines, r.crlf, r.freed)
  }

  function Load(s: seq<byte>, mode: Mode): Loaded {
    Rest(s, mode, 0, 0)
  }

  /** Part of a loader's work is done: `done` is what it has produced and `Rest` what is left. */
  ghost predicate Partial(s: seq<byte>, mode: Mode, i: int, start: int, done: Loaded) {
    && 0 <= start <= i <= |s|
    && var r := Rest(s, mode, i, start);
       Load(s, mode) == Loaded(done.bytes + r.bytes, done.lines + r.lines, done.crlf || r.crlf, done.freed + r.freed)
  }

  lemma PartialStart(s: seq<byte>, mode: Mode)
    ensures Partial(s, mode, 0, 0, Loaded([], [], false, 0))
  {
  }

  /** One byte, or a CR/LF pair, is behind the loader. */
  lemma PartialStep(s: seq<byte>, mode: Mode, i: int, start: int, done: Loaded)
    requires i < |s| && Partial(s, mode, i, start, done)
    ensures if !IsTerminator(mode, s[i]) then
              Partial(s, mode, i + 1, start, done.(bytes := done.bytes + [s[i]]))
            else if IsPair(s, i) then
              Partial(s, mode, i + 2, i + 2, Loaded(done.bytes + [0, 0], done.lines + [Extent(start, i - start)], true, done.freed + 2))
            else
              Partial(s, mode, i + 1, i + 1, Loaded(done.bytes + [0], done.lines + [Extent(start, i - start)], done.crlf, done.freed + 1))
  {
    if !IsTerminator(mode, s[i]) {
      var r := Rest(s, mode, i + 1, start);
      assert done.bytes + ([s[i]] + r.bytes) == done.bytes + [s[i]] + r.bytes;
    } else if IsPair(s, i) {
      var r := Rest(s, mode, i + 2, i + 2);
      assert done.bytes + ([0, 0] + r.bytes) == done.bytes + [0, 0] + r.bytes;
      assert done.lines + ([Extent(start, i - start)] + r.lines) == done.lines + [Extent(start, i - start)] + r.lines;
    } else {
      var r := Rest(s, mode, i + 1, i + 1);
      assert done.bytes + ([0] + r.bytes) == done.bytes + [0] + r.bytes;
      assert done.lines + ([Extent(start, i - start)] + r.lines) == done.lines + [Extent(start, i - start)] + r.lines;
    }
  }

  lemma PartialEnd(s: seq<byte>, mode: Mode, start: int, done: Loaded)
    requires Partial(s, mode, |s|, start, done)
    ensures Load(s, mode) == done.(lines := done.lines + [Extent(start, |s| - start)])
  {
    assert done.bytes + [] == done.bytes;
  }

  function SumLen(es: seq<Extent>): int {
    if es == [] then 0 else es[0].len + SumLen(es[1..])
  }

  /** The lines as byte sequences. */
  function LinesOf(s: seq<byte>, mode: Mode, i: int, start: int): (ls: seq<Line>)
    requires 0 <= start <= i <= |s|
    ensures ls != []
    decreases |s| - i
  {
    if i == |s| then [s[start..i]]
    else if IsTerminator(mode, s[i]) then
      var n := if IsPair(s, i) then 2 else 1;
      [s[start..i]] + LinesOf(s, mode, i + n, i + n)
    else LinesOf(s, mode, i + 1, start)
  }

  /** The extents are those of the lines. */
  ghost predicate Describes(es: seq<Extent>, ls: seq<Line>, s: seq<byte>) {
    if es == [] || ls == [] then es == [] && ls == []
    else
      && 0 <= es[0].off && 0 <= es[0].len && es[0].off + es[0].len <= |s|
      && ls[0] == s[es[0].off..es[0].off + es[0].len]
      && Describes(es[1..], ls[1..], s)
  }

  lemma {:induction false} ExtentsAreLines(s: seq<byte>, mode: Mode, i: int, start: int)
    requires 0 <= start <= i <= |s|
    ensures Describes(Rest(s, mode, i, start).lines, LinesOf(s, mode, i, start), s)
    decreases |s| - i
  {
    if i == |s| {
      assert Describes([], [], s);
    } else if !IsTerminator(mode, s[i]) {
      ExtentsAreLines(s, mode, i + 1, start);
    } else {
      var n := if IsPair(s, i) then 2 else 1;
      ExtentsAreLines(s, mode, i + n, i + n);
      assert Rest(s, mode, i, start).lines[1..] == Rest(s, mode, i + n, i + n).lines;
    }
  }

  /** Every byte belongs to a line or became free. */
  lemma {:induction false} BytesAccounted(s: seq<byte>, mode: Mode, i: int, start: int)
    requires 0 <= start <= i <= |s|
    ensures SumLen(Rest(s, mode, i, start).lines) + Rest(s, mode, i, start).freed == |s| - start
    decreases |s| - i
  {
    if i == |s| {
      assert Rest(s, mode, i, start).lines[1..] == [];
    } else if !IsTerminator(mode, s[i]) {
      BytesAccounted(s, mode, i + 1, start);
    } else {
      var n := if IsPair(s, i) then 2 else 1;
      BytesAccounted(s, mode, i + n, i + n);
      assert Rest(s, mode, i, start).lines[1..] == Rest(s, mode, i + n, i + n).lines;
    }
  }

  /** No loaded line holds a terminator. */
  lemma {:induction false} LinesAreClean(s: seq<byte>, mode: Mode, i: int, start: int)
    requires 0 <= start <= i <= |s|
    requires forall k | start <= k < i :: !IsTerminator(mode, s[k])
    ensures forall k | 0 <= k < |LinesOf(s, mode, i, start)| :: Clean(LinesOf(s, mode, i, start)[k], mode)
    decreases |s| - i
  {
    if i < |s| {
      if !IsTerminator(mode, s[i]) {
        LinesAreClean(s, mode, i + 1, start);
      } else {
        var n := if IsPair(s, i) then 2 else 1;
        LinesAreClean(s, mode, i + n, i + n);
      }
    }
  }

  ghost predicate Clean(l: Line, mode: Mode) {
    forall k | 0 <= k < |l| :: !IsTerminator(mode, l[k])
  }

  /** What is written between two lines. */
  function Separator(mode: Mode, crlf: bool): seq<byte> {
    if mode.Binary? then [0] else if crlf then [CR, LF] else [LF]
  }

  function Saved(ls: seq<Line>, sep: seq<byte>): seq<byte> {
    if ls == [] then [] else if |ls| == 1 then ls[0] else ls[0] + sep + Saved(ls[1..], sep)
  }

  /** Loading what was saved, behind a prefix that has been loaded already. */
  lemma {:induction false} LoadSaved(pre: seq<byte>, ls: seq<Line>, mode: Mode, crlf: bool)
    requires ls != [] && forall k | 0 <= k < |ls| :: Clean(ls[k], mode)
    requires mode.PreserveCr? && crlf ==> |ls| == 1
    ensures LinesOf(pre + Saved(ls, Separator(mode, crlf)), mode, |pre|, |pre|) == ls
    decreases |ls|
  {
    hide LinesOf, IsTerminator;
    var sep := Separator(mode, crlf);
    if |ls| == 1 {
      LastLoaded(pre, ls[0], mode);
    } else {
      var pre' := pre + ls[0] + sep;
      assert pre + Saved(ls, sep) == pre' + Saved(ls[1..], sep);
      LineLoaded(pre, ls[0], mode, crlf, Saved(ls[1..], sep));
      LoadSaved(pre', ls[1..], mode, crlf);
    }
  }

  lemma LastLoaded(pre: seq<byte>, l: Line, mode: Mode)
    requires Clean(l, mode)
    ensures LinesOf(pre + l, mode, |pre|, |pre|) == [l]
  {
    var s := pre + l;
    assert forall k | 0 <= k < |l| :: s[|pre| + k] == l[k];
    SkipClean(s, mode, |pre|, |pre|, |s|);
    assert s[|pre|..|s|] == l;
  }

  lemma LineLoaded(pre: seq<byte>, l: Line, mode: Mode, crlf: bool, rest: seq<byte>)
    requires Clean(l, mode) && !(mode.PreserveCr? && crlf)
    ensures var before := pre + l + Separator(mode, crlf);
            LinesOf(before + rest, mode, |pre|, |pre|) == [l] + LinesOf(before + rest, mode, |before|, |before|)
  {
    var sep := Separator(mode, crlf);
    var s, e := pre + l + sep + rest, |pre| + |l|;
    assert forall k | 0 <= k < |l| :: s[|pre| + k] == l[k];
    SkipClean(s, mode, |pre|, |pre|, e);
    assert s[|pre|..e] == l && s[e] == sep[0] && (|sep| == 2 ==> s[e + 1] == sep[1]);
  }

  lemma {:induction false} SkipClean(s: seq<byte>, mode: Mode, start: int, i: int, e: int)
    requires 0 <= start <= i <= e <= |s|
    requires forall k | i <= k < e :: !IsTerminator(mode, s[k])
    ensures LinesOf(s, mode, i, start) == LinesOf(s, mode, e, start)
    decreases e - i
  {
    if i < e {
      SkipClean(s, mode, start, i + 1, e);
    }
  }

  /** With CR kept as text, the first of several lines comes back from a CR/LF file with a CR. */
  lemma LoadKeepsCr(ls: seq<Line>)
    requires |ls| > 1 && Clean(ls[0], PreserveCr)
    ensures LinesOf(Saved(ls, [CR, LF]), PreserveCr, 0, 0)[0] == ls[0] + [CR]
  {
    var s := Saved(ls, [CR, LF]);
    var e := |ls[0]| + 1;
    assert forall k | 0 <= k < |ls[0]| :: s[k] == ls[0][k];
    assert s[e - 1] == CR && s[e] == LF;
    SkipClean(s, PreserveCr, 0, 0, e);
    assert s[0..e] == ls[0] + [CR];
  }

  /** Saving and loading give back the lines exactly if no line holds a terminator of the mode and
      the pairs written between lines are terminators as a whole. */
  lemma RoundTrip(ls: seq<Line>, mode: Mode, crlf: bool)
    requires ls != []
    ensures LinesOf(Saved(ls, Separator(mode, crlf)), mode, 0, 0) == ls <==>
            && (forall k | 0 <= k < |ls| :: Clean(ls[k], mode))
            && (mode.PreserveCr? && crlf ==> |ls| == 1)
  {
    var s := Saved(ls, Separator(mode, crlf));
    LinesAreClean(s, mode, 0, 0);
    if forall k | 0 <= k < |ls| :: Clean(ls[k], mode) {
      if mode.PreserveCr? && crlf && |ls| > 1 {
        LoadKeepsCr(ls);
      } else {
        LoadSaved([], ls, mode, crlf);
        assert [] + s == s;
      }
    }
  }

  // ---- Loading and saving a file

  /** A CR has an LF behind it, and an LF has a CR in front of it. */
  predicate Paired(s: seq<byte>, start: int, k: int)
    requires 0 <= start <= k < |s|
  {
    (s[k] == 0x0D ==> k + 1 < |s| && s[k + 1] == 0x0A) && (s[k] == 0x0A ==> start < k && s[k - 1] == 0x0D)
  }

  predicate PairsOnly(s: seq<byte>) {
    forall k | 0 <= k < |s| :: Paired(s, 0, k)
  }

  /** All lines of the file end alike: with NUL in a binary file; with LF, or all of them with CR and
      LF, in a text file; with LF if CR is text. */
  predicate Uniform(s: seq<byte>, mode: Mode) {
    match mode
    case Binary => true
    case PreserveCr => 0 !in s
    case Plain => 0 !in s && (0x0D !in s || PairsOnly(s))
  }

  /** Saving what was loaded gives back the file, byte for byte, exactly if all its lines end alike. */
  lemma FileKept(s: seq<byte>, mode: Mode)
    ensures Saved(LinesOf(s, mode, 0, 0), Separator(mode, Load(s, mode).crlf)) == s <==> Uniform(s, mode)
  {
    var ls := LinesOf(s, mode, 0, 0);
    LinesAreClean(s, mode, 0, 0);
    FlagMeans(s, mode);
    if Load(s, mode).crlf {
      SavedPairs(ls);
      if Uniform(s, mode) {
        PairsBack(s, 0, 0);
      }
    } else {
      var end := if mode.Binary? then 0 else LF;
      SavedSingles(ls, mode, end);
      if Uniform(s, mode) {
        SinglesBack(s, mode, end, 0, 0);
      }
    }
  }

  /** The flag of a file that ends its lines alike tells how. */
  lemma FlagMeans(s: seq<byte>, mode: Mode)
    ensures Load(s, mode).crlf ==> mode.Plain? && 0x0D in s
    ensures !Load(s, mode).crlf && mode.Plain? && PairsOnly(s) ==> 0x0D !in s
  {
    FlagIffPair(s, mode, 0, 0);
    if Load(s, mode).crlf {
      var k :| 0 <= k && IsPair(s, k);
      assert s[k] == 0x0D;
    } else if 0x0D in s && PairsOnly(s) {
      var k :| 0 <= k < |s| && s[k] == 0x0D;
      assert Paired(s, 0, k) && IsPair(s, k);
    }
  }

  /** The flag of a loaded file: a pair was met, in a mode where CR ends lines. */
  lemma {:induction false} FlagIffPair(s: seq<byte>, mode: Mode, i: int, start: int)
    requires 0 <= start <= i <= |s|
    ensures Rest(s, mode, i, start).crlf <==> mode.Plain? && exists k :: i <= k && IsPair(s, k)
    decreases |s| - i
  {
    if i < |s| {
      if IsTerminator(mode, s[i]) {
        var n := if IsPair(s, i) then 2 else 1;
        FlagIffPair(s, mode, i + n, i + n);
      } else {
        FlagIffPair(s, mode, i + 1, start);
      }
    }
  }

  lemma {:induction false} SinglesBack(s: seq<byte>, mode: Mode, end: byte, i: int, start: int)
    requires 0 <= start <= i <= |s|
    requires forall k | i <= k < |s| && IsTerminator(mode, s[k]) :: s[k] == end != CR
    ensures Saved(LinesOf(s, mode, i, start), [end]) == s[start..]
    decreases |s| - i
  {
    if i < |s| {
      if IsTerminator(mode, s[i]) {
        SinglesBack(s, mode, end, i + 1, i + 1);
        assert LinesOf(s, mode, i, start)[1..] == LinesOf(s, mode, i + 1, i + 1);
        assert s[start..] == s[start..i] + [end] + s[i + 1..];
      } else {
        SinglesBack(s, mode, end, i + 1, start);
      }
    }
  }

  lemma {:induction false} PairsBack(s: seq<byte>, i: int, start: int)
    requires 0 <= start <= i <= |s| && 0 !in s
    requires forall k | start <= k < |s| :: Paired(s, start, k)
    requires forall k | start <= k < i :: !IsTerminator(Plain, s[k])
    ensures Saved(LinesOf(s, Plain, i, start), [CR, LF]) == s[start..]
    decreases |s| - i
  {
    if i < |s| {
      if IsTerminator(Plain, s[i]) {
        assert Paired(s, start, i) && s[i] in s;
        assert start < i ==> !IsTerminator(Plain, s[i - 1]);
        PairedBehind(s, start, i, i + 2);
        PairsBack(s, i + 2, i + 2);
        assert LinesOf(s, Plain, i, start)[1..] == LinesOf(s, Plain, i + 2, i + 2);
        assert s[start..] == s[start..i] + [CR, LF] + s[i + 2..];
      } else {
        PairsBack(s, i + 1, start);
      }
    }
  }

  lemma PairedBehind(s: seq<byte>, start: int, i: int, next: int)
    requires 0 <= start <= i && IsPair(s, i) && next == i + 2 && forall k | start <= k < |s| :: Paired(s, start, k)
    ensures forall k | next <= k < |s| :: Paired(s, next, k)
  {
    forall k | next <= k < |s|
      ensures Paired(s, next, k)
    {
      assert Paired(s, start, k);
    }
  }

  lemma {:induction false} SavedSingles(ls: seq<Line>, mode: Mode, end: byte)
    requires forall k | 0 <= k < |ls| :: Clean(ls[k], mode)
    ensures forall b | b in Saved(ls, [end]) :: b == end || !IsTerminator(mode, b)
  {
    if |ls| > 1 {
      SavedSingles(ls[1..], mode, end);
    }
  }

  lemma {:induction false} SavedPairs(ls: seq<Line>)
    requires forall k | 0 <= k < |ls| :: Clean(ls[k], Plain)
    ensures PairsOnly(Saved(ls, [CR, LF])) && 0 !in Saved(ls, [CR, LF])
  {
    if |ls| > 1 {
      SavedPairs(ls[1..]);
      PairsBehind(ls[0], Saved(ls[1..], [CR, LF]));
    }
  }

  lemma PairsBehind(l: Line, s: seq<byte>)
    requires Clean(l, Plain) && PairsOnly(s)
    ensures PairsOnly(l + [CR, LF] + s)
  {
    var t, n := l + [CR, LF] + s, |l| + 2;
    forall k | 0 <= k < |t|
      ensures Paired(t, 0, k)
    {
      if k >= n {
        assert t[k] == s[k - n] && Paired(s, 0, k - n);
        assert k + 1 < |t| ==> t[k + 1] == s[k - n + 1];
        assert k > n ==> t[k - 1] == s[k - n - 1];
      }
    }
  }
}
