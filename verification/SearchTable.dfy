/** The skip table that all documents share, and the serial numbers that say whether it may be
    used again without being built. */
module SearchTable {
  import opened Integers
  import opened FlatText
  import opened Horspool
  import opened LineSearch

  const WIDTH := 0x1_0000_0000

  /** The euro sign in UTF-8. */
  const EURO: seq<byte> := [0xE2, 0x82, 0xAC]

  /** ((n & ~1) + 2) | 2 on 32 bits. */
  function NextSerial(n: int): int
    requires 0 <= n < WIDTH
  {
    var even := n - n % 2;
    var sum := (even + 2) % WIDTH;
    if sum / 2 % 2 == 1 then sum else sum + 2
  }

  /** The serial number after `n` compilations. */
  function SerialAt(n: nat): (s: int)
    ensures 2 <= s < WIDTH && s % 4 == 2
  {
    (2 + 4 * n) % WIDTH
  }

  lemma SerialSteps(n: nat)
    ensures NextSerial(SerialAt(n)) == SerialAt(n + 1)
  {
    var s, q := SerialAt(n), (2 + 4 * n) / WIDTH;
    assert 2 + 4 * n == q * WIDTH + s;
    if s + 2 < WIDTH {
      DivIs(2 + 4 * (n + 1), WIDTH, q, s + 4);
    } else {
      DivIs(2 + 4 * (n + 1), WIDTH, q + 1, 2);
    }
  }

  /** How many compilations it takes until serial numbers are the same again. */
  const PERIOD := 0x4000_0000

  /** Two compilations have the same serial number exactly if they are a multiple of 2^30 apart. */
  lemma SerialPeriod(a: nat, b: nat)
    requires a <= b
    ensures SerialAt(a) == SerialAt(b) <==> (b - a) % PERIOD == 0
  {
    SameRemainder(2 + 4 * a, 2 + 4 * b, 4 * PERIOD);
    Quartered(b - a, PERIOD);
    assert (2 + 4 * b) - (2 + 4 * a) == 4 * (b - a);
  }

  lemma SameRemainder(x: int, y: int, w: int)
    requires 0 < w
    ensures x % w == y % w <==> (y - x) % w == 0
  {
    var p, q, n := x / w, y / w, (y - x) / w;
    assert x == p * w + x % w && y == q * w + y % w && y - x == n * w + (y - x) % w;
    if x % w == y % w {
      assert y - x == (q - p) * w;
      ModOfMultiple(q - p, w);
    }
    if (y - x) % w == 0 {
      assert y == (p + n) * w + x % w;
      DivIs(y, w, p + n, x % w);
    }
  }

  lemma Quartered(n: int, w: int)
    requires 0 < w
    ensures (4 * n) % (4 * w) == 0 <==> n % w == 0
  {
    var q, r := n / w, n % w;
    assert n == q * w + r && 4 * n == q * (4 * w) + 4 * r;
    DivIs(4 * n, 4 * w, q, 4 * r);
  }

  function Identity(): Fold {
    seq(256, i requires 0 <= i < 256 => i as byte)
  }

  /** ascii_up_case. */
  function AsciiUp(): Fold {
    seq(256, i requires 0 <= i < 256 => (if 0x61 <= i <= 0x7A then i - 0x20 else i) as byte)
  }

  datatype Encoding = Ascii | EightBit | Utf8

  datatype Status = Ok | Error | NotFound

  /** The string, byte for byte. */
  predicate Stands(l: Line, s: seq<byte>, k: int) {
    0 <= k && k + |s| <= |l| && l[k..k + |s|] == s
  }

  lemma StandsAt(l: Line, s: seq<byte>, k: int)
    ensures Stands(l, s, k) <==> 0 <= k && k + |s| <= |l| && forall j | 0 <= j < |s| :: s[j] == l[k + j]
  {
    if 0 <= k && k + |s| <= |l| {
      var w := l[k..k + |s|];
      assert forall j | 0 <= j < |s| :: w[j] == l[k + j];
    }
  }

  class Document {
    var lines: seq<Line>
    var curLine: int
    var curPos: int
    var findString: seq<byte>
    var findStringChanged: int
    var lastWasRegexp: bool
    var caseSearch: bool
    var searchBack: bool
    var encoding: Encoding
    /** The compilation that set findStringChanged, and the folding it used. */
    ghost var stamp: nat
    ghost var builtFold: Fold

    ghost predicate Valid()
      reads this
    {
      0 <= curLine < |lines| && 0 <= curPos
    }

    constructor (lines: seq<Line>)
      requires lines != []
      ensures Valid() && findStringChanged == 0 && this.lines == lines
    {
      this.lines, curLine, curPos, findString := lines, 0, 0, [];
      findStringChanged, lastWasRegexp, caseSearch, searchBack, encoding := 0, false, false, false, Ascii;
      stamp, builtFold := 0, Identity();
    }
  }

  class Finder {
    var serial: int
    const d: array<int>
    const localised: Fold
    ghost var steps: nat

    constructor (localised: Fold)
      ensures Valid({}) && this.localised == localised && fresh(d) && steps == 0
    {
      serial := 2;
      d := new int[256](_ => 1);
      this.localised := localised;
      steps := 0;
    }

    /** CONV for the document: its case setting and encoding choose the table. */
    function FoldOf(b: Document): Fold
      reads b
    {
      if b.caseSearch then Identity() else if b.encoding == Utf8 then AsciiUp() else localised
    }

    /** Which bytes a search takes for the same: only equal ones if case matters, in UTF-8 otherwise a
        small ASCII letter and its capital, and what the locale says in any other encoding. */
    lemma FoldCompares(b: Document, c: byte, d: byte)
      ensures b.caseSearch ==> (Conv(FoldOf(b), c) == Conv(FoldOf(b), d) <==> c == d)
      ensures !b.caseSearch && b.encoding == Utf8 ==>
                (Conv(FoldOf(b), c) == Conv(FoldOf(b), d) <==>
                 c == d || (0x61 <= c <= 0x7A && c as int == d as int + 0x20) || (0x61 <= d <= 0x7A && d as int == c as int + 0x20))
      ensures !b.caseSearch && b.encoding != Utf8 ==> FoldOf(b) == localised
    {
    }

    /** An occurrence where case matters is the string itself. */
    lemma OccursExactly(b: Document, l: Line, k: int)
      requires b.caseSearch
      ensures Occurs(l, b.findString, FoldOf(b), k) <==> Stands(l, b.findString, k)
    {
      forall c: byte
        ensures Conv(FoldOf(b), c) == c
      {
      }
      StandsAt(l, b.findString, k);
    }

    /** What a search that minds case finds, and what there is if it finds nothing. */
    ghost predicate MindsCase(b: Document, y0: int, k0: int, skipFirst: bool, wrapOnce: bool, r: Status)
      reads this, d, b
    {
      b.caseSearch ==>
        && (r == Ok ==> 0 <= b.curLine < |b.lines| && Stands(b.lines[b.curLine], b.findString, b.curPos))
        && (r == NotFound && Fits(b) ==>
              forall y, k | 0 <= y < |b.lines| && Searched(b, y0, k0, skipFirst, wrapOnce, y, k) :: !Stands(b.lines[y], b.findString, k))
    }

    /** The places that a search looks at; after a wrap, the whole of the line it began in too. */
    predicate Searched(b: Document, y0: int, k0: int, skipFirst: bool, wrapOnce: bool, y: int, k: int)
      reads b
    {
      var skip := if skipFirst then 1 else 0;
      if b.searchBack then y < y0 || (y == y0 && k <= k0 - skip) || (wrapOnce && y >= y0)
      else y > y0 || (y == y0 && k >= k0 + skip) || (wrapOnce && y <= y0)
    }

    lemma CaseMinded(b: Document, y0: int, k0: int, skipFirst: bool, wrapOnce: bool, r: Status)
      requires 0 <= y0 < |b.lines| && 0 <= b.curLine < |b.lines|
      requires r == Ok ==> Occurs(b.lines[b.curLine], b.findString, FoldOf(b), b.curPos)
      requires r == NotFound && Fits(b) ==> Nearest(b, y0, k0, skipFirst, wrapOnce, -1, -1)
      ensures MindsCase(b, y0, k0, skipFirst, wrapOnce, r)
    {
      if b.caseSearch {
        OccursExactly(b, b.lines[b.curLine], b.curPos);
        if r == NotFound && Fits(b) {
          forall y, k | 0 <= y < |b.lines| && Searched(b, y0, k0, skipFirst, wrapOnce, y, k)
            ensures !Stands(b.lines[y], b.findString, k)
          {
            OccursExactly(b, b.lines[y], k);
          }
        }
      }
    }

    /** The next find() on `b` will use the table as it is. */
    ghost predicate Reuses(b: Document)
      reads this, b
    {
      b.findStringChanged == serial && !b.lastWasRegexp && b.findString != []
    }

    /** At most one document may reuse the table, and the table is then one that was built for its
        string and direction, with a folding that was the document's at the time. */
    ghost predicate Valid(docs: set<Document>)
      reads this, d, docs
    {
      && Numbered(docs)
      && forall b | b in docs :: Reuses(b) ==> Built(d[..], b.findString, b.builtFold, b.searchBack)
    }

    /** No two documents carry the current serial number. */
    ghost predicate Numbered(docs: set<Document>)
      reads this, d, docs
    {
      && d.Length == 256 && serial == SerialAt(steps)
      && (forall b | b in docs :: b.Valid() && Stamped(b))
      && (forall b, c | b in docs && c in docs :: b.findStringChanged == serial == c.findStringChanged ==> b == c)
    }

    /** The table is right for every document but possibly `b`. */
    ghost predicate ValidExcept(b: Document, docs: set<Document>)
      reads this, d, docs
    {
      && Numbered(docs)
      && forall c | c in docs && c != b :: Reuses(c) ==> Built(d[..], c.findString, c.builtFold, c.searchBack)
    }

    /** The serial number of the next compilation is not one that a document other than `b` still
        carries from a multiple of 2^30 compilations ago. */
    ghost predicate Distinguished(b: Document, docs: set<Document>)
      reads this, docs
    {
      forall c | c in docs && c != b && c.findStringChanged > 1 :: (steps + 1 - c.stamp) % PERIOD != 0
    }

    ghost predicate Stamped(b: Document)
      reads this, b
    {
      b.findStringChanged == 0 || b.findStringChanged == 1 || (b.findStringChanged == SerialAt(b.stamp) && b.stamp <= steps)
    }

    ghost predicate Fits(b: Document)
      reads this, d, b
    {
      && d.Length == 256 && (forall c | 0 <= c < 256 :: d[c] > 0)
      && Bounded(d[..], b.findString)
      && if b.searchBack then FitsBackward(d[..], b.findString, FoldOf(b)) else FitsForward(d[..], b.findString, FoldOf(b))
    }

    /** `(y, k)` is where the search of `b` from the given place must end. */
    ghost predicate Nearest(b: Document, curLine: int, curPos: int, skipFirst: bool, wrapOnce: bool, y: int, k: int)
      reads b
      requires 0 <= curLine < |b.lines|
    {
      var skip := if skipFirst then 1 else 0;
      if b.searchBack then NearestBackward(b.lines, b.findString, FoldOf(b), curLine, curPos - skip, wrapOnce, y, k)
      else NearestForward(b.lines, b.findString, FoldOf(b), curLine, curPos + skip, wrapOnce, y, k)
    }

    /** The scan, over the table as it is. */
    method Look(b: Document, skipFirst: bool, wrapOnce: bool, f: Fold) returns (y: int, k: int)
      requires b.Valid() && b.findString != [] && f == FoldOf(b)
      requires d.Length == 256 && forall c | 0 <= c < 256 :: d[c] > 0
      ensures y == -1 == k || (0 <= y < |b.lines| && Occurs(b.lines[y], b.findString, f, k))
      ensures y != -1 && !b.searchBack ==> Scanned(b.lines, b.findString, f, d[..], b.curLine, b.curPos + (if skipFirst then 1 else 0), y, k)
      ensures Fits(b) ==> Nearest(b, b.curLine, b.curPos, skipFirst, wrapOnce, y, k)
    {
      ghost var t: Table := d[..];
      if !b.searchBack {
        y, k := FindForward(b.lines, b.curLine, b.curPos, skipFirst, wrapOnce, b.findString, d, f, t);
      } else {
        y, k := FindBackward(b.lines, b.curLine, b.curPos, skipFirst, wrapOnce, b.findString, d, f, t);
      }
    }

    /** find() with its string taken from the document. */
    method Find(b: Document, skipFirst: bool, wrapOnce: bool, ghost docs: set<Document>) returns (r: Status)
      requires Valid(docs) && b in docs && ((b.findStringChanged == serial && !b.lastWasRegexp) || Distinguished(b, docs))
      modifies this, d, b`curLine, b`curPos, b`findStringChanged, b`stamp, b`builtFold
      ensures Valid(docs) && steps <= old(steps) + 1
      ensures r == Error <==> b.findString == []
      ensures MindsCase(b, old(b.curLine), old(b.curPos), skipFirst, wrapOnce, r)
      ensures r != Error ==> b.findStringChanged == serial && Built(d[..], b.findString, b.builtFold, b.searchBack)
      ensures r != Error && (!old(Reuses(b)) || old(b.builtFold) == FoldOf(b)) ==> b.builtFold == FoldOf(b) && Fits(b)
      ensures r != Error && old(Reuses(b)) ==> d[..] == old(d[..]) && b.builtFold == old(b.builtFold)
      ensures r == Ok ==> Occurs(b.lines[b.curLine], b.findString, FoldOf(b), b.curPos)
      ensures r == Ok && !b.searchBack ==>
                Scanned(b.lines, b.findString, FoldOf(b), d[..], old(b.curLine), old(b.curPos) + (if skipFirst then 1 else 0), b.curLine, b.curPos)
      ensures r != Ok ==> b.curLine == old(b.curLine) && b.curPos == old(b.curPos)
      ensures r != Error && Fits(b) ==>
                Nearest(b, old(b.curLine), old(b.curPos), skipFirst, wrapOnce,
                        if r == Ok then b.curLine else -1, if r == Ok then b.curPos else -1)
    {
      hide Built, NearestForward, NearestBackward, Bounded, FitsForward, FitsBackward, Finder.Valid, Finder.Fits, Finder.Reuses;
      hide Scanned;
      ValidSays(b, docs);
      var ready := Prepare(b, docs);
      if !ready {
        return Error;
      }
      ValidSays(b, docs);
      var y, k := Look(b, skipFirst, wrapOnce, FoldOf(b));
      if y == -1 {
        CaseMinded(b, b.curLine, b.curPos, skipFirst, wrapOnce, NotFound);
        return NotFound;
      }
      MoveTo(b, y, k, docs);
      CaseMinded(b, old(b.curLine), old(b.curPos), skipFirst, wrapOnce, Ok);
      r := Ok;
    }

    lemma ValidSays(b: Document, docs: set<Document>)
      requires Valid(docs) && b in docs
      ensures b.Valid() && d.Length == 256
    {
    }

    /** goto_line_pos(). */
    method MoveTo(b: Document, y: int, k: int, ghost docs: set<Document>)
      requires Valid(docs) && b in docs && 0 <= y < |b.lines| && 0 <= k
      modifies b`curLine, b`curPos
      ensures Valid(docs) && b.curLine == y && b.curPos == k
      ensures old(Fits(b)) <==> Fits(b)
    {
      b.curLine, b.curPos := y, k;
      assert Fits(b) <==> old(Fits(b));
    }

    /** Builds the table unless it can be used again. */
    method Prepare(b: Document, ghost docs: set<Document>) returns (ready: bool)
      requires Valid(docs) && b in docs && ((b.findStringChanged == serial && !b.lastWasRegexp) || Distinguished(b, docs))
      modifies this, d, b`findStringChanged, b`stamp, b`builtFold
      ensures Valid(docs) && steps <= old(steps) + 1
      ensures ready <==> b.findString != []
      ensures ready ==> b.findStringChanged == serial && Built(d[..], b.findString, b.builtFold, b.searchBack)
      ensures ready && old(Reuses(b)) ==> d[..] == old(d[..]) && b.builtFold == old(b.builtFold)
      ensures ready ==> forall c | 0 <= c < 256 :: d[c] > 0
      ensures ready && (!old(Reuses(b)) || old(b.builtFold) == FoldOf(b)) ==> b.builtFold == FoldOf(b) && Fits(b)
    {
      hide Built, Bounded, FitsForward, FitsBackward;
      var recompile := b.findStringChanged != serial || b.lastWasRegexp;
      if recompile {
        Forget(b, docs);
      }
      if b.findString == [] {
        return false;
      }
      if recompile {
        Rebuild(b, FoldOf(b), docs);
      }
      BuiltPositive(d[..], b.findString, b.builtFold, b.searchBack);
      if b.builtFold == FoldOf(b) {
        BuiltFits(d[..], b.findString, b.builtFold, b.searchBack);
      }
      ready := true;
    }

    /** The first half of a compilation: takes a new serial number. */
    method Forget(b: Document, ghost docs: set<Document>)
      requires Numbered(docs) && b in docs && Distinguished(b, docs)
      modifies this, b`findStringChanged
      ensures Valid(docs) && steps == old(steps) + 1
      ensures serial == NextSerial(old(serial)) && b.findStringChanged == 0
      ensures forall c | c in docs :: c.findStringChanged != serial
    {
      SerialSteps(steps);
      b.findStringChanged := 0;
      serial := NextSerial(serial);
      steps := steps + 1;
      forall c | c in docs
        ensures c.findStringChanged != serial
      {
        if c.findStringChanged > 1 {
          SerialPeriod(c.stamp, steps);
        }
      }
    }

    /** The second half: fills the table for the document. */
    method Rebuild(b: Document, f: Fold, ghost docs: set<Document>)
      requires Valid(docs) && b in docs && b.findString != []
      requires forall c | c in docs :: c.findStringChanged != serial
      modifies d, b`findStringChanged, b`stamp, b`builtFold
      ensures Valid(docs) && b.findStringChanged == serial && b.builtFold == f
      ensures Built(d[..], b.findString, f, b.searchBack)
    {
      if !b.searchBack {
        BuildForward(d, b.findString, f);
      } else {
        BuildBackward(d, b.findString, f);
      }
      b.findStringChanged := serial;
      b.stamp, b.builtFold := steps, f;
    }

    /** The part of find_regexp() that matters to the table: the regex compiler writes its fast map
        over it. `scribble` is what it leaves there, `compiles` whether it accepts the expression,
        and `foldChanged` whether the folding is another one than at its last compilation. */
    method FindRegexp(b: Document, foldChanged: bool, scribble: seq<int>, compiles: bool, ghost docs: set<Document>)
        returns (r: Status)
      requires ValidExcept(b, docs) && b in docs && ((b.findStringChanged == serial && b.lastWasRegexp) || Distinguished(b, docs)) && |scribble| == 256
      modifies this, d, b`findStringChanged, b`stamp
      ensures ValidExcept(b, docs) && steps <= old(steps) + 1
      ensures old(b.findStringChanged) != old(serial) ==> forall c | c in docs && c.findStringChanged == serial :: c == b
      ensures var renewed := old(b.findStringChanged) != old(serial) || !b.lastWasRegexp;
              && serial == (if renewed then NextSerial(old(serial)) else old(serial))
              && (r == Error <==> b.findString == [] || ((renewed || foldChanged) && !compiles))
              && d[..] == (if b.findString != [] && (renewed || foldChanged) then scribble else old(d[..]))
              && b.findStringChanged == (if r != Error then serial else if renewed then 0 else old(serial))
    {
      var recompile := b.findStringChanged != serial || !b.lastWasRegexp;
      if recompile {
        Forget(b, docs);
      }
      if b.findString == [] {
        return Error;
      }
      recompile := recompile || foldChanged;
      if recompile {
        Overwrite(scribble);
        if !compiles {
          return Error;
        }
      }
      b.findStringChanged := serial;
      b.stamp := steps;
      r := NotFound;
    }

    method Overwrite(scribble: seq<int>)
      requires d.Length == 256 == |scribble|
      modifies d
      ensures d[..] == scribble
    {
      var i := 0;
      while i < 256
        invariant 0 <= i <= 256 && forall c | 0 <= c < i :: d[c] == scribble[c]
      {
        d[i] := scribble[i];
        i := i + 1;
      }
    }

    /** The command has asked for a new string. */
    method NewString(b: Document, p: seq<byte>, ghost docs: set<Document>)
      requires Valid(docs) && b in docs && Distinguished(b, docs)
      modifies b`findString, b`findStringChanged
      ensures Valid(docs) && Distinguished(b, docs) && b.findString == p && b.findStringChanged == 1 && !Reuses(b)
    {
      hide Built;
      b.findString := p;
      b.findStringChanged := 1;
    }

    /** The Find command: a new string, searched for at once. */
    method FindCommand(b: Document, p: seq<byte>, ghost docs: set<Document>) returns (r: Status)
      requires Valid(docs) && b in docs && Distinguished(b, docs)
      modifies this, d, b
      ensures Valid(docs) && steps <= old(steps) + 1
      ensures MindsCase(b, old(b.curLine), old(b.curPos), false, false, r) && (r != Error ==> Fits(b))
      ensures b.lines == old(b.lines) && b.findString == p && (r == Error <==> p == []) && !b.lastWasRegexp
      ensures b.searchBack == old(b.searchBack) && b.caseSearch == old(b.caseSearch) && b.encoding == old(b.encoding)
      ensures r != Error ==> Reuses(b) && b.builtFold == FoldOf(b) && Built(d[..], p, b.builtFold, b.searchBack)
      ensures r != Error ==>
                Nearest(b, old(b.curLine), old(b.curPos), false, false,
                        if r == Ok then b.curLine else -1, if r == Ok then b.curPos else -1)
    {
      hide Built, NearestForward, NearestBackward, FitsForward, FitsBackward, Bounded, Scanned;
      NewString(b, p, docs);
      r := Find(b, false, false, docs);
      b.lastWasRegexp := false;
    }

    /** The FindRegExp command. */
    method FindRegexpCommand(b: Document, p: seq<byte>, foldChanged: bool, scribble: seq<int>, compiles: bool,
                             ghost docs: set<Document>) returns (r: Status)
      requires Valid(docs) && b in docs && Distinguished(b, docs) && |scribble| == 256
      modifies this, d, b
      ensures Valid(docs) && steps <= old(steps) + 1 && b.lastWasRegexp && forall c | c in docs :: !Reuses(c)
      ensures b.findString == p && (r == Error <==> p == [] || !compiles) && (p != [] ==> d[..] == scribble)
    {
      hide Built;
      NewString(b, p, docs);
      r := FindRegexp(b, foldChanged, scribble, compiles, docs);
      b.lastWasRegexp := true;
    }

    /** RepeatLast, and each round of Replace: the string is searched for again. It is found as a
        byte-by-byte search would if the folding is the one the table was built with, and more
        generally if the table fits. */
    method SearchAgain(b: Document, skipFirst: bool, wrapOnce: bool, foldChanged: bool, scribble: seq<int>, compiles: bool,
                       ghost docs: set<Document>) returns (r: Status)
      requires Valid(docs) && b in docs && (b.findStringChanged == serial || Distinguished(b, docs)) && |scribble| == 256
      modifies this, d, b`curLine, b`curPos, b`findStringChanged, b`stamp, b`builtFold
      ensures Valid(docs) && steps <= old(steps) + 1
      ensures !b.lastWasRegexp ==> (r == Error <==> b.findString == [])
      ensures !b.lastWasRegexp ==> MindsCase(b, old(b.curLine), old(b.curPos), skipFirst, wrapOnce, r)
      ensures !b.lastWasRegexp && r != Error ==> Built(d[..], b.findString, b.builtFold, b.searchBack)
      ensures r != Ok ==> b.curLine == old(b.curLine) && b.curPos == old(b.curPos)
      ensures !b.lastWasRegexp && r != Error && old(Reuses(b)) ==> d[..] == old(d[..])
      ensures !b.lastWasRegexp && r == Ok && !b.searchBack ==>
                Scanned(b.lines, b.findString, FoldOf(b), d[..], old(b.curLine), old(b.curPos) + (if skipFirst then 1 else 0), b.curLine, b.curPos)
      ensures !b.lastWasRegexp && r != Error && (!old(Reuses(b)) || old(b.builtFold) == FoldOf(b)) ==> Fits(b)
      ensures !b.lastWasRegexp && r != Error && Fits(b) ==>
                Nearest(b, old(b.curLine), old(b.curPos), skipFirst, wrapOnce,
                        if r == Ok then b.curLine else -1, if r == Ok then b.curPos else -1)
    {
      if b.lastWasRegexp {
        r := FindRegexp(b, foldChanged, scribble, compiles, docs);
      } else {
        r := Find(b, skipFirst, wrapOnce, docs);
      }
    }

    /** The CaseSearch and SearchBack flags. */
    method SetFlags(b: Document, caseSearch: bool, searchBack: bool, ghost docs: set<Document>)
      requires Valid(docs) && b in docs
      modifies b`caseSearch, b`searchBack, b`findStringChanged
      ensures Valid(docs) && !Reuses(b) && b.caseSearch == caseSearch && b.searchBack == searchBack
    {
      b.caseSearch, b.searchBack := caseSearch, searchBack;
      b.findStringChanged := 1;
    }

    /** Text and cursor change, and the encoding may: with the first byte above 127, by the UTF8
        command, or when the file is loaded again. Nothing tells the table about it. */
    method Edit(b: Document, lines: seq<Line>, y: int, k: int, encoding: Encoding, ghost docs: set<Document>)
      requires Valid(docs) && b in docs && 0 <= y < |lines| && 0 <= k
      modifies b`lines, b`curLine, b`curPos, b`encoding
      ensures Valid(docs) && Reuses(b) == old(Reuses(b)) && b.builtFold == old(b.builtFold)
      ensures b.lines == lines && b.curLine == y && b.curPos == k && b.encoding == encoding
    {
      b.lines, b.curLine, b.curPos, b.encoding := lines, y, k, encoding;
    }

    /** A new document takes the strings of the one it was opened from. */
    method Open(lines: seq<Line>, from: Document, ghost docs: set<Document>) returns (b: Document)
      requires Valid(docs) && from in docs && lines != []
      ensures fresh(b) && Valid(docs + {b}) && !Reuses(b)
      ensures b.lines == lines && b.findString == from.findString && b.lastWasRegexp == from.lastWasRegexp
    {
      b := new Document(lines);
      b.findString := from.findString;
      b.lastWasRegexp := from.lastWasRegexp;
    }
  }

  lemma BuiltPositive(d: seq<int>, pat: seq<byte>, f: Fold, back: bool)
    requires Built(d, pat, f, back)
    ensures |d| == 256 && forall c | 0 <= c < 256 :: d[c] > 0
  {
  }

  /** Some place of the pattern that the scan reaches no later than `i` folds under `f` to what
      place `i` folds to under `g`. */
  ghost predicate Covered(pat: seq<byte>, f: Fold, g: Fold, back: bool, i: int)
    requires 0 <= i < |pat|
  {
    if back then exists j :: 0 < j <= i && Conv(f, pat[j]) == Conv(g, pat[i])
    else exists j :: i <= j < |pat| - 1 && Conv(f, pat[j]) == Conv(g, pat[i])
  }

  /** When a table built with the folding `f` serves `g`. */
  ghost predicate FoldsAgree(pat: seq<byte>, f: Fold, g: Fold, back: bool) {
    forall i | 0 <= i < |pat| && i != (if back then 0 else |pat| - 1) :: Covered(pat, f, g, back, i)
  }

  /** A table that was built with the folding `f` fits the folding `g`, and so finds what it should
      in every text, exactly if every place of the pattern has, at that place or nearer to the end
      the scan reads first, one whose `f`-folding is its `g`-folding. */
  lemma ReusedFitsIff(d: Table, pat: seq<byte>, f: Fold, g: Fold, back: bool)
    requires Built(d, pat, f, back)
    ensures (if back then FitsBackward(d, pat, g) else FitsForward(d, pat, g)) <==> FoldsAgree(pat, f, g, back)
  {
    forall c | 0 <= c < 256
      ensures IsSkip(d[c], pat, f, c, back)
    {
    }
    if back {
      forall i | 0 < i < |pat|
        ensures d[Conv(g, pat[i]) as int] <= i <==> Covered(pat, f, g, true, i)
      {
        var s := d[Conv(g, pat[i]) as int];
        assert IsSkip(s, pat, f, Conv(g, pat[i]) as int, true);
        if s <= i {
          assert 0 < s <= i && Conv(f, pat[s]) == Conv(g, pat[i]);
        }
      }
    } else {
      forall i | 0 <= i < |pat| - 1
        ensures d[Conv(g, pat[i]) as int] <= |pat| - 1 - i <==> Covered(pat, f, g, false, i)
      {
        var s := d[Conv(g, pat[i]) as int];
        assert IsSkip(s, pat, f, Conv(g, pat[i]) as int, false);
        if s <= |pat| - 1 - i {
          assert i <= |pat| - 1 - s < |pat| - 1 && Conv(f, pat[|pat| - 1 - s]) == Conv(g, pat[i]);
        }
      }
    }
  }

  /** A table built while the document was plain ASCII, in a locale whose upper case takes E2 to
      C2, and used again after the document has become UTF-8: the three bytes of the euro sign
      are passed over. */
  lemma PromotionMisses(d: Table, latin: Fold)
    requires Conv(latin, 0xE2) == 0xC2 && Conv(latin, 0x82) == 0x82
    requires Built(d, EURO, latin, false)
    ensures var text: seq<byte> := [0x78, 0x78, 0xE2, 0x82, 0xAC];
            && Occurs(text, EURO, AsciiUp(), 2) && Forward(text, 2, EURO, d, AsciiUp()) == -1
  {
    var pat := EURO;
    var text: seq<byte> := [0x78, 0x78, 0xE2, 0x82, 0xAC];
    var up := AsciiUp();
    assert Conv(up, 0xE2) == 0xE2 && Conv(up, 0x82) == 0x82 && Conv(up, 0xAC) == 0xAC && Conv(up, 0x78) == 0x58;
    assert IsSkip(d[0xE2], pat, latin, 0xE2, false);
    NoMatch(text, pat, up, 0, 0);
    assert d[0xE2] >= 3;
  }

  /** The same with the commands: the euro sign is searched for while the document is ASCII, the
      document becomes UTF-8 and has it, and searching on does not find it. */
  method PromotionReplayed(f: Finder, b: Document, ghost docs: set<Document>) returns (r: Status)
    requires f.Valid(docs) && b in docs && f.Distinguished(b, docs)
    requires Conv(f.localised, 0xE2) == 0xC2 && Conv(f.localised, 0x82) == 0x82
    requires b.encoding == Ascii && !b.caseSearch && !b.searchBack
    modifies f, f.d, b
    ensures f.Valid(docs) && b.encoding == Utf8 && b.findString == EURO
    ensures Occurs(b.lines[0], EURO, f.FoldOf(b), 2) && b.curLine == b.curPos == 0 && r == NotFound
  {
    hide Built, NearestForward, NearestBackward, FitsForward, FitsBackward, Bounded, Occurs, Forward, Finder.Fits;
    r := f.FindCommand(b, EURO, docs);
    var text: Line := [0x78, 0x78, 0xE2, 0x82, 0xAC];
    f.Edit(b, [text], 0, 0, Utf8, docs);
    assert f.FoldOf(b) == AsciiUp();
    BuiltPositive(f.d[..], EURO, f.localised, false);
    PromotionMisses(f.d[..], f.localised);
    r := f.SearchAgain(b, false, false, false, seq(256, _ => 0), true, docs);
  }
}
