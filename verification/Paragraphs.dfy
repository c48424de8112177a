/** Reformatting a paragraph: lines are joined and split until each is short enough. */
module Paragraphs {
  import opened FlatText
  import opened Characters

  /** A byte that is not blank, and whether it begins a word. */
  datatype Mark = Mark(c: byte, begins: bool)

  /** The words of a text, as the bytes that are not blank; `begins` says whether a word begins. */
  function InkFrom(l: seq<byte>, begins: bool): seq<Mark> {
    if l == [] then []
    else if IsSpace(l[0]) then InkFrom(l[1..], true)
    else [Mark(l[0], begins)] + InkFrom(l[1..], false)
  }

  function Ink(l: Line): seq<Mark> {
    InkFrom(l, true)
  }

  /** The words of the document; a line end separates words. */
  function InkOf(ls: seq<Line>): seq<Mark> {
    if ls == [] then [] else Ink(ls[0]) + InkOf(ls[1..])
  }

  predicate Begins(l: seq<byte>, begins: bool) {
    if l == [] then begins else IsSpace(l[|l| - 1])
  }

  lemma {:induction false} InkAppend(a: seq<byte>, b: seq<byte>, begins: bool)
    ensures InkFrom(a + b, begins) == InkFrom(a, begins) + InkFrom(b, Begins(a, begins))
  {
    if a == [] {
      assert a + b == b;
    } else {
      assert (a + b)[1..] == a[1..] + b;
      InkAppend(a[1..], b, IsSpace(a[0]));
    }
  }

  lemma {:induction false} InkOfAppend(a: seq<Line>, b: seq<Line>)
    ensures InkOf(a + b) == InkOf(a) + InkOf(b)
  {
    if a == [] {
      assert a + b == b;
    } else {
      assert (a + b)[1..] == a[1..] + b;
      InkOfAppend(a[1..], b);
    }
  }

  predicate Blank(l: seq<byte>) {
    forall k | 0 <= k < |l| :: IsSpace(l[k])
  }

  lemma {:induction false} NoInk(l: seq<byte>, begins: bool)
    ensures Blank(l) <==> InkFrom(l, begins) == []
    ensures Blank(l) && (begins || l != []) ==> Begins(l, begins)
  {
    if l != [] {
      NoInk(l[1..], IsSpace(l[0]));
      assert Blank(l) <==> IsSpace(l[0]) && Blank(l[1..]);
    }
  }

  /** The column behind the first `pos` bytes. */
  function Width(l: seq<byte>, pos: int, tab: int): (w: int)
    requires 0 <= pos <= |l| && 0 < tab
    ensures pos <= w
  {
    if pos == 0 then 0
    else
      var w := Width(l, pos - 1, tab);
      if l[pos - 1] == TAB then w + (tab - w % tab) else w + 1
  }

  lemma {:induction false} WidthGrows(l: seq<byte>, p: int, q: int, tab: int)
    requires 0 <= p < q <= |l| && 0 < tab
    ensures Width(l, p, tab) < Width(l, q, tab)
    decreases q
  {
    if p < q - 1 {
      WidthGrows(l, p, q - 1, tab);
    }
  }

  lemma {:induction false} WidthWithoutTabs(l: seq<byte>, pos: int, tab: int)
    requires 0 <= pos <= |l| && 0 < tab && TAB !in l
    ensures Width(l, pos, tab) == pos
  {
    if pos > 0 {
      WidthWithoutTabs(l, pos - 1, tab);
    }
  }

  lemma {:induction false} WidthOfPrefix(l: seq<byte>, a: int, pos: int, tab: int)
    requires 0 <= pos <= a <= |l| && 0 < tab
    ensures Width(l[..a], pos, tab) == Width(l, pos, tab)
  {
    if pos > 0 {
      WidthOfPrefix(l, a, pos - 1, tab);
    }
  }

  /** The white space a line begins with, and the column of what follows. */
  function Lead(l: seq<byte>): (n: nat)
    ensures n <= |l| && Blank(l[..n]) && (n < |l| ==> !IsSpace(l[n]))
  {
    if l != [] && IsSpace(l[0]) then
      assert l[1..][..Lead(l[1..])] == l[..1 + Lead(l[1..])][1..];
      1 + Lead(l[1..])
    else 0
  }

  lemma LeadIs(l: seq<byte>, n: nat)
    requires n <= |l| && (forall k | 0 <= k < n :: IsSpace(l[k])) && (n < |l| ==> !IsSpace(l[n]))
    ensures Lead(l) == n
  {
    var m := Lead(l);
    forall k | 0 <= k < m
      ensures IsSpace(l[k])
    {
      assert l[..m][k] == l[k];
    }
  }

  function Indent(l: seq<byte>, tab: int): int
    requires 0 < tab
  {
    Width(l, Lead(l), tab)
  }

  /** A line of a paragraph with the given indentation: not blank, and indented as much. */
  predicate PartOf(l: seq<byte>, indent: int, tab: int)
    requires 0 < tab
  {
    Lead(l) < |l| && Indent(l, tab) == indent
  }

  /** A line that goes on as `l` does at least to its first word is part of what `l` is part of. */
  lemma PartOfLonger(l: seq<byte>, l': seq<byte>, indent: int, tab: int)
    requires 0 < tab && PartOf(l, indent, tab) && Lead(l) < |l'| && l'[..Lead(l) + 1] == l[..Lead(l) + 1]
    ensures PartOf(l', indent, tab)
  {
    var n := Lead(l);
    assert forall k | 0 <= k <= n :: l'[k] == l[..n + 1][k] == l[k];
    assert forall k | 0 <= k < n :: l[..n][k] == l[k];
    LeadIs(l', n);
    WidthOfPrefix(l, n, n, tab);
    WidthOfPrefix(l', n, n, tab);
    assert l'[..n] == l[..n];
  }

  /** A word behind the saved white space. */
  lemma PartOfIndented(space: seq<byte>, rest: seq<byte>, tab: int)
    requires 0 < tab && Blank(space) && rest != [] && !IsSpace(rest[0])
    ensures PartOf(space + rest, Width(space, |space|, tab), tab)
  {
    var l := space + rest;
    assert forall k | 0 <= k < |space| :: l[k] == space[k];
    LeadIs(l, |space|);
    WidthOfPrefix(l, |space|, |space|, tab);
    assert l[..|space|] == space;
  }

  /** What is cut off a line at its end leaves its first word begun. */
  lemma PartOfTrimmed(l: seq<byte>, n: int, indent: int, tab: int)
    requires 0 < tab && PartOf(l, indent, tab) && 0 <= n <= |l| && Blank(l[n..])
    ensures PartOf(l[..n], indent, tab)
  {
    forall k | n <= k < |l|
      ensures IsSpace(l[k])
    {
      assert l[n..][k - n] == l[k];
    }
    assert l[..n][..Lead(l) + 1] == l[..Lead(l) + 1];
    PartOfLonger(l, l[..n], indent, tab);
  }

  /** The same for a cut behind a word. */
  lemma PartOfCut(l: seq<byte>, n: int, indent: int, tab: int)
    requires 0 < tab && PartOf(l, indent, tab) && 0 < n <= |l| && !IsSpace(l[n - 1])
    ensures PartOf(l[..n], indent, tab)
  {
    forall k | 0 <= k < Lead(l)
      ensures IsSpace(l[k])
    {
      assert l[..Lead(l)][k] == l[k];
    }
    assert l[..n][..Lead(l) + 1] == l[..Lead(l) + 1];
    PartOfLonger(l, l[..n], indent, tab);
  }

  // ---- Full lines

  /** White space between two words of a line. */
  ghost predicate Gap(l: seq<byte>, a: int, b: int) {
    0 < a < b < |l| && !IsSpace(l[a - 1]) && !IsSpace(l[b]) && Blank(l[a..b])
  }

  /** What may stand between two words: white space that did in one of these lines, or the blank
      put between two lines. */
  ghost predicate IsGap(ls: seq<Line>, g: seq<byte>) {
    g == [SPACE] || exists k, a, b :: 0 <= k < |ls| && Gap(ls[k], a, b) && g == ls[k][a..b]
  }

  ghost predicate GapsFrom(l: seq<byte>, ls: seq<Line>) {
    forall a, b | Gap(l, a, b) :: IsGap(ls, l[a..b])
  }

  /** The bytes up to the next white space. */
  function Word(l: seq<byte>): (w: seq<byte>)
    ensures w <= l && (forall k | 0 <= k < |w| :: !IsSpace(l[k])) && (|w| < |l| ==> IsSpace(l[|w|]))
  {
    if l == [] || IsSpace(l[0]) then []
    else
      assert l == [l[0]] + l[1..];
      [l[0]] + Word(l[1..])
  }

  function FirstWord(l: seq<byte>): seq<byte> {
    Word(l[Lead(l)..])
  }

  /** No word could be moved up: the first one of the next line would reach the margin, behind what
      stood in front of it. Or the line is a single word that is too wide. */
  ghost predicate Full(l: Line, next: Line, was: seq<Line>, margin: int, tab: int)
    requires 0 < tab
  {
    || (SingleWord(l) && Width(l, |l|, tab) > margin)
    || exists g :: IsGap(was, g) && Reaches(l + g + FirstWord(next), margin, tab)
  }

  predicate Reaches(l: seq<byte>, margin: int, tab: int)
    requires 0 < tab
  {
    Width(l, |l|, tab) >= margin
  }

  /** In lines whose words are one blank apart, that is one blank. */
  lemma FullBySpaces(l: Line, next: Line, was: seq<Line>, margin: int, tab: int)
    requires 0 < tab && Full(l, next, was, margin, tab)
    requires forall k, a, b | 0 <= k < |was| && Gap(was[k], a, b) :: was[k][a..b] == [SPACE]
    ensures (SingleWord(l) && Width(l, |l|, tab) > margin) || Reaches(l + [SPACE] + FirstWord(next), margin, tab)
  {
    if !(SingleWord(l) && Width(l, |l|, tab) > margin) {
      var g :| IsGap(was, g) && Reaches(l + g + FirstWord(next), margin, tab);
      assert g == [SPACE];
    }
  }

  lemma GapsOfPrefix(l: seq<byte>, n: int, ls: seq<Line>)
    requires 0 <= n <= |l| && GapsFrom(l, ls)
    ensures GapsFrom(l[..n], ls)
  {
    forall a, b | Gap(l[..n], a, b)
      ensures IsGap(ls, l[..n][a..b])
    {
      assert l[..n][a..b] == l[a..b];
      assert Gap(l, a, b);
    }
  }

  /** Behind white space: a line that begins with the rest of another one has no new gap. */
  lemma GapsBehind(space: seq<byte>, l: seq<byte>, n: int, ls: seq<Line>)
    requires Blank(space) && 0 <= n < |l| && !IsSpace(l[n]) && GapsFrom(l, ls)
    ensures GapsFrom(space + l[n..], ls)
  {
    var m, d := space + l[n..], n - |space|;
    forall k | 0 <= k < |space|
      ensures IsSpace(m[k])
    {
      assert m[k] == space[k];
    }
    forall a, b | Gap(m, a, b)
      ensures IsGap(ls, m[a..b])
    {
      GapShifted(l, m, a, b, d);
    }
  }

  lemma GapShifted(l: seq<byte>, m: seq<byte>, a: int, b: int, d: int)
    requires Gap(m, a, b) && 0 < a + d && b + d < |l|
    requires forall k | a - 1 <= k <= b :: m[k] == l[k + d]
    ensures Gap(l, a + d, b + d) && m[a..b] == l[a + d..b + d]
  {
    assert m[a - 1] == l[a - 1 + d] && m[b] == l[b + d];
    assert forall k | 0 <= k < b - a :: m[a..b][k] == l[a + d..b + d][k];
    assert m[a..b] == l[a + d..b + d];
  }

  /** Two lines one behind the other, with a blank between them. */
  lemma GapsPulled(l: seq<byte>, next: seq<byte>, pos: int, ls: seq<Line>)
    requires (l != [] ==> !IsSpace(l[|l| - 1])) && 0 <= pos < |next| && !IsSpace(next[pos])
    requires GapsFrom(l, ls) && GapsFrom(next, ls)
    ensures GapsFrom(l + [SPACE] + next[pos..], ls)
  {
    var m := l + [SPACE] + next[pos..];
    forall a, b | Gap(m, a, b)
      ensures IsGap(ls, m[a..b])
    {
      GapInPulled(l, next, pos, a, b);
    }
  }

  lemma GapInPulled(l: seq<byte>, next: seq<byte>, pos: int, a: int, b: int)
    requires (l != [] ==> !IsSpace(l[|l| - 1])) && 0 <= pos < |next| && !IsSpace(next[pos])
    requires Gap(l + [SPACE] + next[pos..], a, b)
    ensures var m, d := l + [SPACE] + next[pos..], pos - |l| - 1;
            || m[a..b] == [SPACE]
            || (Gap(l, a, b) && m[a..b] == l[a..b])
            || (Gap(next, a + d, b + d) && m[a..b] == next[a + d..b + d])
  {
    var m, n, d := l + [SPACE] + next[pos..], |l|, pos - |l| - 1;
    if b < n {
      GapShifted(l, m, a, b, 0);
    } else if a > n + 1 {
      GapShifted(next, m, a, b, d);
    } else {
      BlankBetween(l, next[pos..], a, b);
    }
  }

  lemma BlankBetween(l: seq<byte>, r: seq<byte>, a: int, b: int)
    requires (l != [] ==> !IsSpace(l[|l| - 1])) && r != [] && !IsSpace(r[0])
    requires Gap(l + [SPACE] + r, a, b) && a <= |l| + 1 && |l| <= b
    ensures (l + [SPACE] + r)[a..b] == [SPACE]
  {
    var m, n := l + [SPACE] + r, |l|;
    forall k | a <= k < b
      ensures IsSpace(m[k])
    {
      assert m[a..b][k - a] == m[k];
    }
    assert m[n] == SPACE && m[n + 1] == r[0] && (n > 0 ==> m[n - 1] == l[n - 1]);
    assert a == n && b == n + 1;
  }

  /** The first word stays what it is when white space follows the line, and more behind it. */
  lemma FirstWordKept(l: seq<byte>, more: seq<byte>)
    requires Lead(l) < |l| && (more != [] ==> IsSpace(more[0]))
    ensures FirstWord(l + more) == FirstWord(l)
  {
    hide Lead, Word, IsSpace, Blank;
    LeadKept(l, more);
    assert (l + more)[Lead(l)..] == l[Lead(l)..] + more;
    WordKept(l[Lead(l)..], more);
  }

  lemma {:induction false} LeadKept(l: seq<byte>, more: seq<byte>)
    requires Lead(l) < |l|
    ensures Lead(l + more) == Lead(l)
  {
    if IsSpace(l[0]) {
      assert (l + more)[1..] == l[1..] + more;
      LeadKept(l[1..], more);
    }
  }

  lemma {:induction false} WordKept(l: seq<byte>, more: seq<byte>)
    requires more != [] ==> IsSpace(more[0])
    ensures Word(l + more) == Word(l)
  {
    if l == [] {
      assert l + more == more;
    } else if !IsSpace(l[0]) {
      assert (l + more)[1..] == l[1..] + more;
      WordKept(l[1..], more);
    }
  }

  /** The line still begins with the word it began with. */
  ghost predicate SameStart(l: seq<byte>, l': seq<byte>) {
    Lead(l) < |l| ==> Lead(l') < |l'| && FirstWord(l') == FirstWord(l)
  }

  lemma StartOfPrefix(l: seq<byte>, n: int)
    requires 0 <= n <= |l| && (n < |l| ==> IsSpace(l[n]))
    requires Blank(l[n..]) || (0 < n && !IsSpace(l[n - 1]))
    ensures SameStart(l, l[..n])
  {
    if Lead(l) < |l| {
      LeadInPrefix(l, n);
      assert l == l[..n] + l[n..];
      FirstWordKept(l[..n], l[n..]);
    }
  }

  lemma LeadInPrefix(l: seq<byte>, n: int)
    requires 0 <= n <= |l| && Lead(l) < |l|
    requires Blank(l[n..]) || (0 < n && !IsSpace(l[n - 1]))
    ensures Lead(l[..n]) < n
  {
    var m := Lead(l);
    forall k | 0 <= k < m
      ensures IsSpace(l[k])
    {
      assert l[..m][k] == l[k];
    }
    forall k | n <= k < |l| && Blank(l[n..])
      ensures IsSpace(l[k])
    {
      assert l[n..][k - n] == l[k];
    }
    assert m < n;
    LeadIs(l[..n], m);
  }

  lemma StartBehind(space: seq<byte>, rest: seq<byte>)
    requires Blank(space) && rest != [] && !IsSpace(rest[0])
    ensures Lead(space + rest) == |space| && FirstWord(space + rest) == Word(rest)
  {
    assert forall k | 0 <= k < |space| :: (space + rest)[k] == space[k];
    LeadIs(space + rest, |space|);
    assert (space + rest)[|space|..] == rest;
  }

  /** A split is where it has to be: the word behind it reaches the margin. */
  lemma FullAtSplit(l: Line, a: int, b: int, was: seq<Line>, margin: int, tab: int)
    requires 0 < tab && Gap(l, a, b) && GapsFrom(l, was) && Width(l, |l|, tab) > margin
    requires forall k | b <= k < |l| && IsSpace(l[k]) :: Width(l, k, tab) >= margin
    ensures forall next: Line | FirstWord(next) == Word(l[b..]) :: Full(l[..a], next, was, margin, tab)
  {
    hide Width, Word, FirstWord;
    var e := EndOfWord(l, a, b);
    WidthOfPrefix(l, e, e, tab);
    assert IsGap(was, l[a..b]) && Reaches(l[..a] + l[a..b] + Word(l[b..]), margin, tab);
  }

  lemma EndOfWord(l: Line, a: int, b: int) returns (e: int)
    requires 0 <= a <= b <= |l|
    ensures b <= e <= |l| && (e < |l| ==> IsSpace(l[e])) && l[..e] == l[..a] + l[a..b] + Word(l[b..])
  {
    hide Word;
    var w := Word(l[b..]);
    e := b + |w|;
    assert w == l[b..][..|w|] == l[b..e];
    assert e < |l| ==> l[b..][|w|] == l[e];
  }

  lemma FullStill(l: Line, next: Line, next': Line, was: seq<Line>, margin: int, indent: int, tab: int)
    requires 0 < tab && Full(l, next, was, margin, tab) && PartOf(next, indent, tab) && SameStart(next, next')
    ensures Full(l, next', was, margin, tab)
  {
  }

  /** Four letters, four blanks, two letters, a blank and two letters. */
  const WideGap: Line := [97, 97, 97, 97, SPACE, SPACE, SPACE, SPACE, 98, 98, SPACE, 99, 99]

  /** The white space between the words of all lines from line `i` on. */
  ghost predicate Drawn(ls: seq<Line>, i: int, was: seq<Line>)
    requires 0 <= i
  {
    forall k | i <= k < |ls| :: GapsFrom(ls[k], was)
  }

  lemma DrawnWhenPulled(before: seq<Line>, after: seq<Line>, i: int, pos: int, was: seq<Line>)
    requires 0 <= i && i + 1 < |before| && |after| == |before| - 1 && Drawn(before, i, was)
    requires (before[i] != [] ==> !IsSpace(before[i][|before[i]| - 1]))
    requires 0 <= pos < |before[i + 1]| && !IsSpace(before[i + 1][pos])
    requires after[i] == before[i] + [SPACE] + before[i + 1][pos..] && after[i + 1..] == before[i + 2..]
    ensures Drawn(after, i, was)
  {
    hide GapsFrom;
    GapsPulled(before[i], before[i + 1], pos, was);
    assert forall k | i < k < |after| :: after[k] == after[i + 1..][k - i - 1] == before[k + 1];
  }

  lemma DrawnWhenSplit(before: seq<Line>, after: seq<Line>, i: int, space: seq<byte>, pos: int, was: seq<Line>)
    requires 0 <= i < |before| && |after| == |before| + 1 && Drawn(before, i, was)
    requires Blank(space) && 0 <= pos < |before[i]| && !IsSpace(before[i][pos])
    requires after[i + 1] == space + before[i][pos..] && after[i + 2..] == before[i + 1..]
    ensures Drawn(after, i + 1, was)
  {
    hide GapsFrom;
    GapsBehind(space, before[i], pos, was);
    assert forall k | i + 1 < k < |after| :: after[k] == after[i + 2..][k - i - 2] == before[k - 1];
  }

  lemma StartItself(l: seq<byte>)
    ensures SameStart(l, l)
  {
  }

  lemma SameStartTwice(a: seq<byte>, b: seq<byte>, c: seq<byte>)
    requires SameStart(a, b) && SameStart(b, c)
    ensures SameStart(a, c)
  {
  }

  lemma StartWhenPulled(l: seq<byte>, next: seq<byte>, pos: int)
    requires 0 <= pos <= |next|
    ensures SameStart(l, l + [SPACE] + next[pos..])
  {
    if Lead(l) < |l| {
      LeadKept(l, [SPACE] + next[pos..]);
      FirstWordKept(l, [SPACE] + next[pos..]);
      assert l + [SPACE] + next[pos..] == l + ([SPACE] + next[pos..]);
    }
  }

  lemma DrawnFromThemselves(ls: seq<Line>, i: int)
    requires 0 <= i
    ensures Drawn(ls, i, ls)
  {
  }

  /** The paragraph that ends with line `i` ends there. */
  predicate EndsAt(ls: seq<Line>, i: int, indent: int, tab: int)
    requires 0 < tab && 0 <= i < |ls|
  {
    i + 1 == |ls| || !PartOf(ls[i + 1], indent, tab)
  }

  /** The lines behind line `i` of `ls` are the last ones of `was`. */
  ghost predicate TailKept(ls: seq<Line>, i: int, was: seq<Line>, j: int)
    requires 0 <= i < |ls| && 0 <= j < |was|
  {
    |ls| - i <= |was| - j && ls[i + 1..] == was[|was| - (|ls| - i - 1)..]
  }

  lemma TailTwice(a: seq<Line>, i: int, b: seq<Line>, j: int, c: seq<Line>, k: int)
    requires 0 <= i < |a| && 0 <= j < |b| && 0 <= k < |c| && TailKept(a, i, b, j) && TailKept(b, j, c, k)
    ensures TailKept(a, i, c, k)
  {
    var x, y, n := a[i + 1..], b[j + 1..], |a| - i - 1;
    assert x == b[|b| - n..] == y[|y| - n..];
    assert y[|y| - n..] == c[|c| - |y|..][|y| - n..] == c[|c| - n..];
  }

  /** One word, perhaps behind white space. */
  ghost predicate SingleWord(l: seq<byte>) {
    exists a :: 0 <= a <= |l| && Blank(l[..a]) && forall k | a <= k < |l| :: !IsSpace(l[k])
  }

  ghost predicate Fits(l: seq<byte>, margin: int, tab: int)
    requires 0 < tab
  {
    Width(l, |l|, tab) <= margin || SingleWord(l)
  }

  lemma InkOfOne(l: Line)
    ensures InkOf([l]) == Ink(l)
  {
    assert [l][1..] == [];
  }

  lemma InkOfTwo(l: Line, m: Line)
    ensures InkOf([l, m]) == Ink(l) + Ink(m)
  {
    assert [l, m][1..] == [m];
    InkOfOne(m);
  }

  lemma InkOfPulled(l: Line, next: Line, pos: int, rest: seq<Line>)
    requires 0 <= pos <= |next| && Blank(next[..pos])
    ensures InkOf([l + [SPACE] + next[pos..]] + rest) == InkOf([l, next] + rest)
  {
    assert next == next[..pos] + next[pos..];
    InkAppend(next[..pos], next[pos..], true);
    NoInk(next[..pos], true);
    InkAppend(l + [SPACE], next[pos..], true);
    InkAppend(l, [SPACE], true);
    NoInk([SPACE], Begins(l, true));
    InkOfAppend([l + [SPACE] + next[pos..]], rest);
    InkOfAppend([l, next], rest);
    InkOfOne(l + [SPACE] + next[pos..]);
    InkOfTwo(l, next);
  }

  /** Cutting a line at white space, and indenting what follows, keeps its words. */
  lemma InkOfSplit(l: Line, a: int, b: int, indent: seq<byte>)
    requires 0 <= a < b <= |l| && Blank(l[a..b]) && Blank(indent)
    ensures Ink(l) == Ink(l[..a]) + Ink(indent + l[b..])
  {
    assert l == l[..a] + (l[a..b] + l[b..]);
    InkAppend(l[..a], l[a..b] + l[b..], true);
    InkAppend(l[a..b], l[b..], Begins(l[..a], true));
    NoInk(l[a..b], Begins(l[..a], true));
    InkAppend(indent, l[b..], true);
    NoInk(indent, true);
  }

  lemma InkOfBroken(l: Line, a: int, b: int, indent: seq<byte>, rest: seq<Line>)
    requires 0 <= a < b <= |l| && Blank(l[a..b]) && Blank(indent)
    ensures InkOf([l[..a], indent + l[b..]] + rest) == InkOf([l] + rest)
  {
    InkOfSplit(l, a, b, indent);
    InkOfOne(l);
    InkOfTwo(l[..a], indent + l[b..]);
    InkOfAppend([l], rest);
    InkOfAppend([l[..a], indent + l[b..]], rest);
  }

  /** The edits of a split, one after the other. */
  function SplitEdits(ls: seq<Line>, i: int, a: int, n: int, indent: seq<byte>): seq<Line>
    requires 0 <= i < |ls| && 0 <= a && 0 <= n && a + n <= |ls[i]|
  {
    var cut := if n != 0 then DeleteInLine(ls, Pos(i, a), n) else ls;
    var broken := BreakLine(cut, Pos(i, a));
    if indent != [] then InsertInLine(broken, Pos(i + 1, 0), indent) else broken
  }

  lemma SplitForm(ls: seq<Line>, i: int, a: int, n: int, indent: seq<byte>)
    requires 0 <= i < |ls| && 0 <= a && 0 <= n && a + n <= |ls[i]|
    ensures SplitEdits(ls, i, a, n, indent) == ls[..i] + [ls[i][..a], indent + ls[i][a + n..]] + ls[i + 1..]
  {
    var l := ls[i];
    var cut := if n != 0 then DeleteInLine(ls, Pos(i, a), n) else ls;
    assert l == l[..a] + l[a..];
    assert cut == ls[i := l[..a] + l[a + n..]];
    assert (l[..a] + l[a + n..])[..a] == l[..a] && (l[..a] + l[a + n..])[a..] == l[a + n..];
    var broken := BreakLine(cut, Pos(i, a));
    assert broken == ls[..i] + [l[..a], l[a + n..]] + ls[i + 1..];
    assert Splice(l[a + n..], 0, indent) == indent + l[a + n..];
    assert InsertInLine(broken, Pos(i + 1, 0), indent) == ls[..i] + [l[..a], indent + l[a + n..]] + ls[i + 1..];
    assert indent == [] ==> indent + l[a + n..] == l[a + n..];
  }

  lemma TailOf(ls: seq<Line>, i: int, mid: seq<Line>, rest: seq<Line>)
    requires 0 <= i <= |ls| && ls == ls[..i] + mid + rest
    ensures ls[i..] == mid + rest
  {
  }

  /** A byte that is not blank is part of a word. */
  lemma HasInk(l: Line, k: int)
    requires 0 <= k < |l| && !IsSpace(l[k])
    ensures Ink(l) != []
  {
    NoInk(l, true);
  }

  class Document {
    var lines: seq<Line>
    const tab: int
    const margin: int
    var paSpace: seq<byte>
    var paSpaceLen: int

    constructor (lines: seq<Line>, tab: int, rightMargin: int, columns: int)
      requires 0 < tab && 0 <= rightMargin && 0 < columns
      ensures this.lines == lines && this.tab == tab && Valid()
      ensures margin == if rightMargin != 0 then rightMargin else columns
    {
      this.lines, this.tab, paSpace, paSpaceLen := lines, tab, [], 0;
      margin := if rightMargin != 0 then rightMargin else columns;
    }

    ghost predicate Valid()
      reads this
    {
      0 < tab && 0 < margin && Blank(paSpace)
    }

    /** The saved white space goes to the column of the paragraph. */
    ghost predicate SpaceSaved()
      reads this
    {
      Valid() && Width(paSpace, |paSpace|, tab) == paSpaceLen
    }

    /** The lines behind line `from` are indented as the paragraph is, up to line `i`. */
    ghost predicate Indented(from: int, i: int)
      reads this
    {
      0 < tab && 0 <= from && i < |lines| && forall k | from < k <= i :: PartOf(lines[k], paSpaceLen, tab)
    }

    /** The first byte of line `i`, from `pos` on, that is not blank. */
    method SkipSpace(l: Line, from: int) returns (pos: int)
      requires 0 <= from <= |l|
      ensures from <= pos <= |l| && (pos < |l| ==> !IsSpace(l[pos]))
      ensures forall k | from <= k < pos :: IsSpace(l[k])
    {
      pos := from;
      while pos < |l| && IsSpace(l[pos])
        invariant from <= pos <= |l| && forall k | from <= k < pos :: IsSpace(l[k])
      {
        pos := pos + 1;
      }
    }

    /** save_space(). */
    method SaveSpace(i: int) returns (ok: bool)
      requires Valid() && 0 <= i < |lines|
      modifies `paSpace, `paSpaceLen
      ensures Valid() && (ok <==> !Blank(lines[i]))
      ensures ok ==> paSpace == lines[i][..Lead(lines[i])] && paSpaceLen == Indent(lines[i], tab) && SpaceSaved()
      ensures !ok ==> paSpace == [] && paSpaceLen == 0
    {
      paSpace, paSpaceLen := [], 0;
      var l := lines[i];
      if l == [] {
        return false;
      }
      var pos := SkipSpace(l, 0);
      if pos == |l| {
        return false;
      }
      paSpaceLen := Width(l, pos, tab);
      if pos != 0 {
        paSpace := l[..pos];
      }
      assert l[..pos] == paSpace;
      LeadIs(l, pos);
      WidthOfPrefix(l, pos, pos, tab);
      ok := true;
    }

    /** is_part_of_paragraph(). */
    method IsPart(i: int) returns (part: bool, pos: int)
      requires Valid() && 0 <= i < |lines|
      ensures part <==> PartOf(lines[i], paSpaceLen, tab)
      ensures pos == if part then Lead(lines[i]) else -1
    {
      var l := lines[i];
      pos := SkipSpace(l, 0);
      LeadIs(l, pos);
      part := pos < |l| && Width(l, pos, tab) == paSpaceLen;
      if !part {
        pos := -1;
      }
    }

    /** trim_trailing_space(). */
    method TrimTrailing(i: int)
      requires Valid() && 0 <= i < |lines|
      modifies `lines
      ensures |lines| == old(|lines|) && lines == old(lines)[i := lines[i]]
      ensures lines[i] <= old(lines[i]) && (lines[i] != [] ==> !IsSpace(lines[i][|lines[i]| - 1]))
      ensures Blank(old(lines[i])[|lines[i]|..])
      ensures old(PartOf(lines[i], paSpaceLen, tab)) ==> PartOf(lines[i], paSpaceLen, tab)
      ensures SameStart(old(lines[i]), lines[i])
      ensures forall ls :: old(Drawn(lines, i, ls)) ==> Drawn(lines, i, ls)
      ensures Ink(lines[i]) == old(Ink(lines[i])) && InkOf(lines[i..]) == old(InkOf(lines[i..]))
    {
      hide SameStart, GapsFrom;
      var l := lines[i];
      var pos := |l|;
      while pos > 0 && IsSpace(l[pos - 1])
        invariant 0 <= pos <= |l| && Blank(l[pos..]) && (pos < |l| ==> IsSpace(l[pos]))
      {
        pos := pos - 1;
      }
      StartOfPrefix(l, pos);
      assert l == l[..pos] + l[pos..];
      InkAppend(l[..pos], l[pos..], true);
      NoInk(l[pos..], Begins(l[..pos], true));
      if PartOf(l, paSpaceLen, tab) {
        PartOfTrimmed(l, pos, paSpaceLen, tab);
      }
      forall ls | GapsFrom(l, ls)
        ensures GapsFrom(l[..pos], ls)
      {
        GapsOfPrefix(l, pos, ls);
      }
      lines := lines[i := l[..pos]];
      assert lines[i..] == [l[..pos]] + old(lines)[i..][1..];
    }

    /** Pulls the next line, which continues the paragraph at `pos`, up behind a space. */
    method PullUp(i: int, pos: int)
      requires Valid() && 0 <= i && i + 1 < |lines| && 0 <= pos <= |lines[i + 1]| && Blank(lines[i + 1][..pos])
      modifies `lines
      ensures |lines| == old(|lines|) - 1 && lines[..i] == old(lines[..i]) && lines[i + 1..] == old(lines[i + 2..])
      ensures lines[i] == old(lines[i] + [SPACE] + lines[i + 1][pos..])
      ensures InkOf(lines[i..]) == old(InkOf(lines[i..])) && TailKept(lines, i, old(lines), i)
    {
      var l, next := lines[i], lines[i + 1];
      lines := InsertInLine(lines, Pos(i, |l|), [SPACE]);
      assert lines[i] == l + [SPACE];
      if pos != 0 {
        lines := DeleteInLine(lines, Pos(i + 1, 0), pos);
      }
      assert lines[i + 1] == next[pos..];
      lines := JoinLines(lines, i);
      InkOfPulled(l, next, pos, old(lines)[i + 2..]);
      assert lines[i..] == [l + [SPACE] + next[pos..]] + old(lines)[i + 2..];
      assert old(lines)[i..] == [l, next] + old(lines)[i + 2..];
    }

    method CountSpace(l: Line, from: int) returns (pos: int, spaces: int)
      requires 0 <= from <= |l|
      ensures from <= pos <= |l| && spaces == pos - from && (pos < |l| ==> !IsSpace(l[pos]))
      ensures Blank(l[from..pos]) && forall k | from <= k < pos :: IsSpace(l[k])
    {
      pos, spaces := from, 0;
      while pos < |l| && IsSpace(l[pos])
        invariant from <= pos <= |l| && spaces == pos - from && forall k | from <= k < pos :: IsSpace(l[k])
      {
        pos := pos + 1;
        spaces := spaces + 1;
      }
    }

    /** Looks for the place to split a line that is too wide: the last white space before the
        margin, or else the first one behind the first word. 0 stands for none. */
    method FindSplit(l: Line) returns (splitPos: int, spaces: int)
      requires Valid() && l != [] && !IsSpace(l[|l| - 1])
      ensures splitPos == 0 ==> SingleWord(l)
      ensures splitPos != 0 ==> 0 < splitPos && 0 < spaces && splitPos + spaces < |l|
      ensures splitPos != 0 ==> !IsSpace(l[splitPos - 1]) && Blank(l[splitPos..splitPos + spaces])
      ensures splitPos != 0 ==> !IsSpace(l[splitPos + spaces]) && Fits(l[..splitPos], margin, tab)
      ensures splitPos != 0 ==> forall k | splitPos + spaces <= k < |l| && IsSpace(l[k]) :: Width(l, k, tab) >= margin
    {
      var pos := SkipSpace(l, 0);
      ghost var lead := pos;
      splitPos, spaces := 0, 0;
      while pos < |l| && (Width(l, pos, tab) < margin || splitPos == 0)
        invariant lead <= pos <= |l| && Blank(l[..lead])
        invariant splitPos == 0 ==> forall k | lead <= k < pos :: !IsSpace(l[k])
        invariant splitPos != 0 ==> lead < splitPos && 0 < spaces && splitPos + spaces <= pos && splitPos + spaces < |l|
        invariant splitPos != 0 ==> !IsSpace(l[splitPos - 1]) && Blank(l[splitPos..splitPos + spaces])
        invariant splitPos != 0 ==> !IsSpace(l[splitPos + spaces])
        invariant splitPos != 0 ==> forall k | splitPos + spaces <= k < pos :: !IsSpace(l[k])
        invariant splitPos != 0 ==> Width(l, splitPos, tab) < margin || forall k | lead <= k < splitPos :: !IsSpace(l[k])
        invariant lead < pos && (splitPos == 0 || splitPos + spaces < pos) ==> !IsSpace(l[pos - 1])
        decreases |l| - pos
      {
        if IsSpace(l[pos]) {
          splitPos := pos;
          pos, spaces := CountSpace(l, pos);
        } else {
          pos := pos + 1;
        }
      }
      if splitPos == 0 {
        assert Blank(l[..lead]) && forall k | lead <= k < |l| :: !IsSpace(l[k]);
      } else {
        SplitFits(l, lead, splitPos);
        WiderBehind(l, pos, splitPos + spaces);
      }
    }

    /** A line may be split at white space that is wider than the one blank lines are joined with:
        with that blank the word behind it would have stayed below the margin. */
    method SplitAtWideGap() returns (splitPos: int)
      requires Valid() && tab == 8 && margin == 9
      ensures splitPos == 4 && WideGap[4..8] == [SPACE, SPACE, SPACE, SPACE]
      ensures !Reaches(WideGap[..4] + [SPACE] + WideGap[8..10], margin, tab)
    {
      var spaces;
      var l := WideGap;
      splitPos, spaces := FindSplit(l);
      WidthWithoutTabs(l[..10], 10, tab);
      WidthWithoutTabs(l[..4] + [SPACE] + l[8..10], 7, tab);
      assert !SingleWord(l[..10]) && !SingleWord(l) by {
        forall a | 0 < a <= 10
          ensures !Blank(l[..a]) && !Blank(l[..10][..a])
        {
          assert l[..a][0] == 97 && l[..10][..a][0] == 97;
        }
        assert IsSpace(l[..10][4]) && IsSpace(l[4]) && !IsSpace(l[11]) && !IsSpace(l[12]);
      }
      assert splitPos != 0 ==> IsSpace(l[splitPos]) by {
        assert splitPos != 0 ==> l[splitPos] == l[splitPos..splitPos + spaces][0];
      }
      assert l[4..8] == [SPACE, SPACE, SPACE, SPACE];
    }

    lemma WiderBehind(l: Line, pos: int, from: int)
      requires Valid() && 0 <= from <= pos <= |l| && (pos < |l| ==> Width(l, pos, tab) >= margin)
      requires forall k | from <= k < pos :: !IsSpace(l[k])
      ensures forall k | from <= k < |l| && IsSpace(l[k]) :: Width(l, k, tab) >= margin
    {
      forall k | pos < k < |l|
        ensures Width(l, k, tab) >= margin
      {
        WidthGrows(l, pos, k, tab);
      }
    }

    lemma SplitFits(l: Line, lead: int, a: int)
      requires Valid() && 0 <= lead < a <= |l| && Blank(l[..lead])
      requires Width(l, a, tab) < margin || forall k | lead <= k < a :: !IsSpace(l[k])
      ensures Fits(l[..a], margin, tab)
    {
      WidthOfPrefix(l, a, a, tab);
      if forall k | lead <= k < a :: !IsSpace(l[k]) {
        var f := l[..a];
        assert f[..lead] == l[..lead];
        assert SingleWord(f);
      }
    }

    /** Removes the white space at the split point, breaks the line there and indents the rest. */
    method SplitLine(i: int, splitPos: int, spaces: int, ghost was: seq<Line>)
      requires Valid() && 0 <= i < |lines| && 0 <= splitPos && 0 < spaces && splitPos + spaces < |lines[i]|
      requires Blank(lines[i][splitPos..splitPos + spaces]) && !IsSpace(lines[i][|lines[i]| - 1])
      requires !IsSpace(lines[i][splitPos + spaces]) && Drawn(lines, i, was)
      modifies `lines
      ensures |lines| == old(|lines|) + 1 && lines[..i] == old(lines[..i])
      ensures lines[i] == old(lines[i][..splitPos])
      ensures InkOf(lines[i..]) == old(InkOf(lines[i..])) && TailKept(lines, i + 1, old(lines), i)
      ensures SpaceSaved() ==> PartOf(lines[i + 1], paSpaceLen, tab)
      ensures Lead(lines[i + 1]) < |lines[i + 1]|
      ensures FirstWord(lines[i + 1]) == Word(old(lines[i][splitPos + spaces..])) && Drawn(lines, i + 1, was)
    {
      hide Blank, Drawn, FirstWord;
      ghost var l, rest, before := lines[i], lines[i + 1..], lines;
      ghost var indent := Break(i, splitPos, spaces);
      InkOfBroken(l, splitPos, splitPos + spaces, indent, rest);
      TailOf(before, i, [l], rest);
      TailOf(lines, i, [l[..splitPos], indent + l[splitPos + spaces..]], rest);
      ghost var broken := lines;
      if SpaceSaved() {
        PartOfIndented(indent, l[splitPos + spaces..], tab);
      }
      assert broken[i + 2..] == rest && before[i + 1..] == rest;
      StartBehind(indent, l[splitPos + spaces..]);
      DrawnWhenSplit(before, lines, i, indent, splitPos + spaces, was);
      TrimSecond(i, was);
      assert lines[..i] == lines[..i + 1][..i] && lines[i] == lines[..i + 1][i];
    }

    method Break(i: int, splitPos: int, spaces: int) returns (indent: seq<byte>)
      requires Valid() && 0 <= i < |lines| && 0 <= splitPos && 0 <= spaces && splitPos + spaces <= |lines[i]|
      modifies `lines
      ensures Blank(indent) && (SpaceSaved() ==> Width(indent, |indent|, tab) == paSpaceLen)
      ensures lines == old(lines[..i]) + [old(lines[i])[..splitPos], indent + old(lines[i])[splitPos + spaces..]] + old(lines[i + 1..])
    {
      indent := if paSpaceLen != 0 then paSpace else [];
      SplitForm(lines, i, splitPos, spaces, indent);
      if spaces != 0 {
        lines := DeleteInLine(lines, Pos(i, splitPos), spaces);
      }
      lines := BreakLine(lines, Pos(i, splitPos));
      if indent != [] {
        lines := InsertInLine(lines, Pos(i + 1, 0), indent);
      }
    }

    /** Trimming the line behind `i` keeps line `i` and the words from there on. */
    method TrimSecond(i: int, ghost was: seq<Line>)
      requires Valid() && 0 <= i && i + 1 < |lines| && Drawn(lines, i + 1, was)
      modifies `lines
      ensures |lines| == old(|lines|) && lines[..i + 1] == old(lines[..i + 1]) && lines[i + 2..] == old(lines[i + 2..])
      ensures old(PartOf(lines[i + 1], paSpaceLen, tab)) ==> PartOf(lines[i + 1], paSpaceLen, tab)
      ensures SameStart(old(lines[i + 1]), lines[i + 1]) && Drawn(lines, i + 1, was)
      ensures InkOf(lines[i..]) == old(InkOf(lines[i..]))
    {
      TrimTrailing(i + 1);
      assert lines[i..] == [lines[i]] + lines[i + 1..];
      assert old(lines[i..]) == [lines[i]] + old(lines[i + 1..]);
    }

    /** The finished lines, up to line `i`: each is narrow enough or a single word, and full. */
    ghost predicate Finished(from: int, i: int, was: seq<Line>)
      reads this
    {
      0 < tab && 0 <= from && i < |lines| &&
      forall k | from <= k < i :: Fits(lines[k], margin, tab) && Full(lines[k], lines[k + 1], was, margin, tab)
    }

    /** Appends the lines that follow while the line is narrow enough and they are part of the
        paragraph. */
    method PullUpLines(i: int, ghost was: seq<Line>) returns (pulled: bool)
      requires Valid() && 0 <= i < |lines| && Trimmed(lines[i]) && Drawn(lines, i, was)
      modifies `lines
      ensures 0 <= i < |lines| && lines[..i] == old(lines[..i]) && Trimmed(lines[i])
      ensures InkOf(lines[i..]) == old(InkOf(lines[i..]))
      ensures if pulled then |lines| < old(|lines|) else lines == old(lines)
      ensures TailKept(lines, i, old(lines), i)
      ensures Width(lines[i], |lines[i]|, tab) > margin || EndsAt(lines, i, paSpaceLen, tab)
      ensures old(PartOf(lines[i], paSpaceLen, tab)) ==> PartOf(lines[i], paSpaceLen, tab)
      ensures SameStart(old(lines[i]), lines[i]) && Drawn(lines, i, was)
    {
      hide Drawn, SameStart, Gap, GapsFrom, Word, FirstWord, Blank, InkOf;
      StartItself(lines[i]);
      pulled := false;
      var part, pos := true, -1;
      while part && Width(lines[i], |lines[i]|, tab) <= margin && i + 1 < |lines|
        invariant 0 <= i < |lines| <= old(|lines|) && lines[..i] == old(lines[..i]) && Trimmed(lines[i])
        invariant InkOf(lines[i..]) == old(InkOf(lines[i..]))
        invariant if pulled then |lines| < old(|lines|) else lines == old(lines)
        invariant TailKept(lines, i, old(lines), i) && (!part ==> EndsAt(lines, i, paSpaceLen, tab))
        invariant old(PartOf(lines[i], paSpaceLen, tab)) ==> PartOf(lines[i], paSpaceLen, tab)
        invariant SameStart(old(lines[i]), lines[i]) && Drawn(lines, i, was)
        decreases |lines|, part
      {
        part, pos := IsPart(i + 1);
        if part {
          ghost var before := lines;
          PullUp(i, pos);
          if PartOf(before[i], paSpaceLen, tab) {
            PartOfLonger(before[i], lines[i], paSpaceLen, tab);
          }
          DrawnWhenPulled(before, lines, i, pos, was);
          StartWhenPulled(before[i], before[i + 1], pos);
          ghost var longer := lines[i];
          TrimTrailing(i);
          SameStartTwice(before[i], longer, lines[i]);
          SameStartTwice(old(lines[i]), before[i], lines[i]);
          TailTwice(lines, i, before, i, old(lines), i);
          pulled := true;
        }
      }
    }

    ghost predicate Trimmed(l: Line) {
      l != [] ==> !IsSpace(l[|l| - 1])
    }

    /** One round on line `i`: whether there is more to do, and on which line. */
    method Round(i: int, ghost from: int, ghost was: seq<Line>) returns (done: bool, next: int)
      requires SpaceSaved() && 0 <= from <= i < |lines| && Finished(from, i, was) && Indented(from, i)
      requires Drawn(lines, i, was)
      modifies `lines
      ensures i <= next < |lines| && lines[..i] == old(lines[..i])
      ensures Finished(from, next, was) && Indented(from, next) && Drawn(lines, next, was)
      ensures InkOf(lines[i..]) == old(InkOf(lines[i..]))
      ensures TailKept(lines, next, old(lines), i)
      ensures done ==> next == i && Fits(lines[i], margin, tab) && EndsAt(lines, i, paSpaceLen, tab)
      ensures !done ==> |InkOf(lines[next..])| < old(|InkOf(lines[i..])|) ||
                        (next == i && |lines| < old(|lines|))
    {
      hide InkOf, Fits, PartOf, TailKept, Full, SameStart, Drawn;
      ghost var before := lines;
      done, next := RoundAt(i, was);
      forall k | from <= k < i
        ensures lines[k] == before[k] && Full(lines[k], lines[k + 1], was, margin, tab)
      {
        assert lines[k] == lines[..i][k] == before[k];
        assert k + 1 < i ==> lines[k + 1] == lines[..i][k + 1] == before[k + 1];
        if k + 1 == i {
          assert PartOf(before[i], paSpaceLen, tab);
          FullStill(lines[k], before[i], lines[i], was, margin, paSpaceLen, tab);
        }
      }
    }

    method RoundAt(i: int, ghost was: seq<Line>) returns (done: bool, next: int)
      requires SpaceSaved() && 0 <= i < |lines| && Drawn(lines, i, was)
      modifies `lines
      ensures i <= next < |lines| && next <= i + 1 && lines[..i] == old(lines[..i])
      ensures next == i + 1 ==> Fits(lines[i], margin, tab) && PartOf(lines[i + 1], paSpaceLen, tab)
      ensures next == i + 1 ==> Full(lines[i], lines[i + 1], was, margin, tab)
      ensures SameStart(old(lines[i]), lines[i]) && Drawn(lines, next, was)
      ensures old(PartOf(lines[i], paSpaceLen, tab)) ==> PartOf(lines[i], paSpaceLen, tab)
      ensures InkOf(lines[i..]) == old(InkOf(lines[i..]))
      ensures TailKept(lines, next, old(lines), i)
      ensures done ==> next == i && Fits(lines[i], margin, tab) && EndsAt(lines, i, paSpaceLen, tab)
      ensures !done ==> |InkOf(lines[next..])| < old(|InkOf(lines[i..])|) ||
                        (next == i && |lines| < old(|lines|))
    {
      hide InkOf, SingleWord, PartOf, TailKept, Drawn, SameStart, Full;
      TrimTrailing(i);
      assert lines[..i] == old(lines[..i]);
      TailAfterTrim(lines, i, old(lines));
      ghost var trimmed := lines;
      var pulled := PullUpLines(i, was);
      TailTwice(lines, i, trimmed, i, old(lines), i);
      SameStartTwice(old(lines[i]), trimmed[i], lines[i]);
      done, next := !pulled, i;
      if Width(lines[i], |lines[i]|, tab) > margin {
        ghost var wide := lines;
        var split := SplitWide(i, was);
        if split {
          done, next := false, i + 1;
          TailTwice(lines, i + 1, wide, i, old(lines), i);
          SameStartTwice(old(lines[i]), wide[i], lines[i]);
        } else if i + 1 < |lines| {
          var part, pos := IsPart(i + 1);
          if part {
            next := i + 1;
            TailShorter(lines, i, old(lines));
            FullOfOne(lines, i, was);
            done := false;
            InkLeft(lines, i, |lines[i]| - 1);
          }
        }
      }
    }

    /** Splits a line that is too wide, unless it is a single word. */
    method SplitWide(i: int, ghost was: seq<Line>) returns (split: bool)
      requires SpaceSaved() && 0 <= i < |lines| && Drawn(lines, i, was)
      requires Trimmed(lines[i]) && Width(lines[i], |lines[i]|, tab) > margin
      modifies `lines
      ensures !split ==> lines == old(lines) && SingleWord(lines[i])
      ensures split ==> |lines| == old(|lines|) + 1 && lines[..i] == old(lines[..i]) && Drawn(lines, i + 1, was)
      ensures split ==> Fits(lines[i], margin, tab) && Full(lines[i], lines[i + 1], was, margin, tab)
      ensures split ==> SameStart(old(lines[i]), lines[i]) && PartOf(lines[i + 1], paSpaceLen, tab)
      ensures old(PartOf(lines[i], paSpaceLen, tab)) ==> PartOf(lines[i], paSpaceLen, tab)
      ensures InkOf(lines[i..]) == old(InkOf(lines[i..]))
      ensures split ==> |InkOf(lines[i + 1..])| < |InkOf(lines[i..])| && TailKept(lines, i + 1, old(lines), i)
    {
      hide InkOf, PartOf, TailKept, Drawn, SameStart, Full, Fits, SingleWord, Lead, Word, FirstWord, Blank, Gap, GapsFrom;
      var splitPos, spaces := FindSplit(lines[i]);
      split := splitPos != 0;
      if split {
        ghost var l := lines[i];
        if PartOf(l, paSpaceLen, tab) {
          PartOfCut(l, splitPos, paSpaceLen, tab);
        }
        StartWhenCut(lines, i, splitPos, spaces, was);
        FullAtSplit(l, splitPos, splitPos + spaces, was, margin, tab);
        SplitLine(i, splitPos, spaces, was);
        assert Full(l[..splitPos], lines[i + 1], was, margin, tab);
        InkLeft(lines, i, splitPos - 1);
      }
    }

    lemma StartWhenCut(ls: seq<Line>, i: int, a: int, spaces: int, was: seq<Line>)
      requires 0 <= i < |ls| && 0 < a && 0 < spaces && a + spaces < |ls[i]| && Drawn(ls, i, was)
      requires !IsSpace(ls[i][a - 1]) && Blank(ls[i][a..a + spaces]) && !IsSpace(ls[i][a + spaces])
      ensures SameStart(ls[i], ls[i][..a])
      ensures Gap(ls[i], a, a + spaces) && GapsFrom(ls[i], was)
    {
      assert IsSpace(ls[i][a..a + spaces][0]);
      StartOfPrefix(ls[i], a);
    }

    lemma FullOfOne(ls: seq<Line>, i: int, was: seq<Line>)
      requires Valid() && 0 <= i && i + 1 < |ls| && Drawn(ls, i, was)
      requires SingleWord(ls[i]) && Width(ls[i], |ls[i]|, tab) > margin
      ensures Full(ls[i], ls[i + 1], was, margin, tab) && Drawn(ls, i + 1, was)
    {
    }

    lemma TailAfterTrim(ls: seq<Line>, i: int, was: seq<Line>)
      requires 0 <= i < |ls| == |was| && ls == was[i := ls[i]]
      ensures TailKept(ls, i, was, i)
    {
    }

    lemma TailShorter(ls: seq<Line>, i: int, was: seq<Line>)
      requires 0 <= i < |was| && i + 1 < |ls| && TailKept(ls, i, was, i)
      ensures TailKept(ls, i + 1, was, i)
    {
      assert ls[i + 2..] == ls[i + 1..][1..];
    }

    lemma InkLeft(ls: seq<Line>, i: int, k: int)
      requires 0 <= i && i + 1 <= |ls| && 0 <= k < |ls[i]| && !IsSpace(ls[i][k])
      ensures |InkOf(ls[i + 1..])| < |InkOf(ls[i..])|
    {
      HasInk(ls[i], k);
      assert ls[i..] == [ls[i]] + ls[i + 1..];
    }

    /** paragraph(), without the cursor: `start` is the current line. The document keeps its words,
        the lines from `start` to `last` are narrow enough or hold a single word and, behind the first,
        have the indentation of the paragraph; it ends with `last`, and the lines behind are those
        that were there. */
    method Paragraph(start: int) returns (worked: bool, last: int)
      requires Valid() && 0 <= start < |lines|
      modifies this
      ensures 0 < tab && start < |lines| && InkOf(lines) == old(InkOf(lines)) && lines[..start] == old(lines[..start])
      ensures worked <==> old(lines[start]) != [] && (!Blank(old(lines[start])) ||
                          (start + 1 < old(|lines|) && !Blank(old(lines[start + 1]))))
      ensures !worked ==> lines == old(lines)
      ensures worked ==> paSpace == []
      ensures worked ==> start <= last < |lines| && forall k | start <= k <= last :: Fits(lines[k], margin, tab)
      ensures worked ==> forall k | start <= k < last :: Full(lines[k], lines[k + 1], old(lines), margin, tab)
      ensures worked ==> forall k | start < k <= last :: PartOf(lines[k], IndentAt(old(lines), start), tab)
      ensures worked ==>
                && TailKept(lines, last, old(lines), start)
                && EndsAt(lines, last, IndentAt(old(lines), start), tab)
    {
      worked, last := false, start;
      if lines[start] == [] {
        return;
      }
      var saved := false;
      if start + 1 < |lines| {
        saved := SaveSpace(start + 1);
      }
      if !saved {
        saved := SaveSpace(start);
      }
      if !saved {
        return;
      }
      worked := true;
      last := Reformat(start);
      paSpace := [];
    }

    /** The indentation of the paragraph is that of its second line, or of the first one if the
        second is blank or missing. */
    function IndentAt(ls: seq<Line>, start: int): int
      requires 0 < tab && 0 <= start < |ls|
    {
      Indent(if start + 1 < |ls| && !Blank(ls[start + 1]) then ls[start + 1] else ls[start], tab)
    }

    method Reformat(start: int) returns (line: int)
      requires SpaceSaved() && 0 <= start < |lines|
      modifies `lines
      ensures start < |lines| && InkOf(lines) == old(InkOf(lines)) && lines[..start] == old(lines[..start])
      ensures start <= line < |lines| && forall k | start <= k <= line :: Fits(lines[k], margin, tab)
      ensures forall k | start <= k < line :: Full(lines[k], lines[k + 1], old(lines), margin, tab)
      ensures TailKept(lines, line, old(lines), start) && EndsAt(lines, line, paSpaceLen, tab)
      ensures forall k | start < k <= line :: PartOf(lines[k], paSpaceLen, tab)
    {
      hide PartOf, TailKept, Drawn, Full;
      line := start;
      var done := false;
      TailAfterTrim(lines, start, lines);
      DrawnFromThemselves(lines, start);
      while !done
        invariant start <= line < |lines| && Finished(start, line, old(lines)) && Indented(start, line)
        invariant Drawn(lines, line, old(lines))
        invariant TailKept(lines, line, old(lines), start)
        invariant done ==> EndsAt(lines, line, paSpaceLen, tab)
        invariant done ==> Fits(lines[line], margin, tab)
        invariant InkOf(lines) == old(InkOf(lines)) && lines[..start] == old(lines[..start])
        decreases !done, |InkOf(lines[line..])|, |lines|
      {
        ghost var was, at := lines, line;
        done, line := Round(line, start, old(lines));
        TailTwice(lines, line, was, at, old(lines), start);
        InkSplit(was, at);
        InkSplit(lines, at);
        assert lines[..start] == lines[..at][..start];
      }
    }

    lemma InkSplit(ls: seq<Line>, i: int)
      requires 0 <= i <= |ls|
      ensures InkOf(ls) == InkOf(ls[..i]) + InkOf(ls[i..])
    {
      assert ls == ls[..i] + ls[i..];
      InkOfAppend(ls[..i], ls[i..]);
    }
  }
}
