/** The specification above the text store: a document is a non-empty sequence of lines, and
    flattening it separates the lines with NUL bytes. A stream, as the editor calls it, is a
    piece of flattened text. */
module FlatText {

  newtype byte = x: int | 0 <= x < 0x100

  type Line = seq<byte>

  /** A line and a byte offset inside it. */
  datatype Pos = Pos(line: int, pos: int)

  /** The lines in front of some line, each with its separator. */
  function Before(ls: seq<Line>): seq<byte> {
    if ls == [] then [] else ls[0] + [0] + Before(ls[1..])
  }

  /** The lines behind some line, each with the separator in front of it. */
  function After(ls: seq<Line>): seq<byte> {
    if ls == [] then [] else [0] + ls[0] + After(ls[1..])
  }

  function Flat(t: seq<Line>): seq<byte>
    requires t != []
  {
    t[0] + After(t[1..])
  }

  predicate Inside(t: seq<Line>, p: Pos) {
    0 <= p.line < |t| && 0 <= p.pos <= |t[p.line]|
  }

  /** The place of a position in the flattened text. */
  function Offset(t: seq<Line>, p: Pos): nat
    requires Inside(t, p)
  {
    |Before(t[..p.line])| + p.pos
  }

  function Splice(s: seq<byte>, o: int, ins: seq<byte>): seq<byte>
    requires 0 <= o <= |s|
  {
    s[..o] + ins + s[o..]
  }

  function Cut(s: seq<byte>, o: int, n: int): seq<byte>
    requires 0 <= o && 0 <= n && o + n <= |s|
  {
    s[..o] + s[o + n..]
  }

  lemma {:induction false} BeforeAppend(a: seq<Line>, b: seq<Line>)
    ensures Before(a + b) == Before(a) + Before(b)
  {
    if a == [] {
      assert a + b == b;
    } else {
      assert (a + b)[1..] == a[1..] + b;
      BeforeAppend(a[1..], b);
    }
  }

  /** Any line can be taken as the middle one. */
  lemma {:induction false} FlatAround(a: seq<Line>, l: Line, b: seq<Line>)
    ensures Flat(a + [l] + b) == Before(a) + l + After(b)
  {
    var t := a + [l] + b;
    if a == [] {
      assert t == [l] + b;
      assert t[1..] == b;
    } else {
      var r := a[1..] + [l] + b;
      assert t[1..] == r;
      FlatAround(a[1..], l, b);
      assert After(r) == [0] + Flat(r);
    }
  }

  lemma FlatAt(t: seq<Line>, i: int)
    requires 0 <= i < |t|
    ensures Flat(t) == Before(t[..i]) + t[i] + After(t[i + 1..])
  {
    assert t == t[..i] + [t[i]] + t[i + 1..];
    FlatAround(t[..i], t[i], t[i + 1..]);
  }

  lemma OffsetInText(t: seq<Line>, p: Pos)
    requires Inside(t, p)
    ensures Offset(t, p) <= |Flat(t)|
  {
    FlatAt(t, p.line);
  }

  /** Offsets order positions as reading order does. */
  lemma OffsetMonotone(t: seq<Line>, p: Pos, q: Pos)
    requires Inside(t, p) && Inside(t, q)
    requires p.line < q.line
    ensures Offset(t, p) < Offset(t, q)
  {
    var a, b := t[..p.line], t[p.line..q.line];
    assert t[..q.line] == a + b;
    BeforeAppend(a, b);
    assert b[0] == t[p.line];
  }

  /** Flattening loses nothing: texts whose lines hold no NUL are equal when their flattened
      forms are. */
  ghost predicate NoNul(s: seq<byte>) {
    forall k | 0 <= k < |s| :: s[k] != 0
  }

  lemma {:induction false} FlatInjective(t: seq<Line>, u: seq<Line>)
    requires t != [] && u != []
    requires forall i | 0 <= i < |t| :: NoNul(t[i])
    requires forall i | 0 <= i < |u| :: NoNul(u[i])
    requires Flat(t) == Flat(u)
    ensures t == u
  {
    var f := Flat(t);
    var n, m := |t[0]|, |u[0]|;
    assert f[..n] == t[0] && f[..m] == u[0];
    assert |t| > 1 ==> f[n] == 0;
    assert |u| > 1 ==> f[m] == 0;
    assert n == m;
    assert After(t[1..]) == f[n..] == After(u[1..]);
    if |t| > 1 {
      assert f[n + 1..] == Flat(t[1..]);
      assert f[n + 1..] == Flat(u[1..]);
      FlatInjective(t[1..], u[1..]);
    }
  }

  // ----- the four steps edits are made of, on lines and on flattened text

  function InsertInLine(t: seq<Line>, p: Pos, s: seq<byte>): seq<Line>
    requires Inside(t, p)
  {
    t[p.line := Splice(t[p.line], p.pos, s)]
  }

  function BreakLine(t: seq<Line>, p: Pos): seq<Line>
    requires Inside(t, p)
  {
    t[..p.line] + [t[p.line][..p.pos], t[p.line][p.pos..]] + t[p.line + 1..]
  }

  function DeleteInLine(t: seq<Line>, p: Pos, n: int): seq<Line>
    requires Inside(t, p) && 0 <= n && p.pos + n <= |t[p.line]|
  {
    t[p.line := Cut(t[p.line], p.pos, n)]
  }

  function JoinLines(t: seq<Line>, i: int): seq<Line>
    requires 0 <= i && i + 1 < |t|
  {
    t[..i] + [t[i] + t[i + 1]] + t[i + 2..]
  }

  lemma SpliceMiddle(a: seq<byte>, l: seq<byte>, r: seq<byte>, b: seq<byte>, s: seq<byte>)
    ensures Splice(a + (l + r) + b, |a| + |l|, s) == a + (l + s + r) + b
  {
    assert (a + (l + r) + b)[..|a| + |l|] == a + l;
    assert (a + (l + r) + b)[|a| + |l|..] == r + b;
  }

  lemma CutMiddle(a: seq<byte>, l: seq<byte>, m: seq<byte>, r: seq<byte>, b: seq<byte>)
    ensures Cut(a + (l + m + r) + b, |a| + |l|, |m|) == a + (l + r) + b
    ensures (a + (l + m + r) + b)[|a| + |l|..|a| + |l| + |m|] == m
  {
    assert (a + (l + m + r) + b)[..|a| + |l|] == a + l;
    assert (a + (l + m + r) + b)[|a| + |l| + |m|..] == r + b;
  }

  lemma FlatInsert(t: seq<Line>, p: Pos, s: seq<byte>)
    requires Inside(t, p)
    ensures Offset(t, p) <= |Flat(t)|
    ensures Flat(InsertInLine(t, p, s)) == Splice(Flat(t), Offset(t, p), s)
  {
    var t' := InsertInLine(t, p, s);
    var l, r := t[p.line][..p.pos], t[p.line][p.pos..];
    FlatAt(t, p.line);
    FlatAt(t', p.line);
    assert t'[..p.line] == t[..p.line] && t'[p.line + 1..] == t[p.line + 1..];
    assert t[p.line] == l + r;
    SpliceMiddle(Before(t[..p.line]), l, r, After(t[p.line + 1..]), s);
  }

  lemma FlatBreak(t: seq<Line>, p: Pos)
    requires Inside(t, p)
    ensures Offset(t, p) <= |Flat(t)|
    ensures Flat(BreakLine(t, p)) == Splice(Flat(t), Offset(t, p), [0])
  {
    var t' := BreakLine(t, p);
    var l, r, c := t[p.line][..p.pos], t[p.line][p.pos..], t[p.line + 1..];
    FlatAt(t, p.line);
    FlatAt(t', p.line);
    assert t'[..p.line] == t[..p.line] && t'[p.line + 1..] == [r] + c;
    assert ([r] + c)[1..] == c;
    assert t[p.line] == l + r;
    var a, b := Before(t[..p.line]), After(c);
    SpliceMiddle(a, l, r, b, [0]);
    assert a + l + ([0] + r + b) == a + (l + [0] + r) + b;
  }

  lemma FlatDelete(t: seq<Line>, p: Pos, n: int)
    requires Inside(t, p) && 0 <= n && p.pos + n <= |t[p.line]|
    ensures Offset(t, p) + n <= |Flat(t)|
    ensures Flat(DeleteInLine(t, p, n)) == Cut(Flat(t), Offset(t, p), n)
    ensures Flat(t)[Offset(t, p)..Offset(t, p) + n] == t[p.line][p.pos..p.pos + n]
  {
    var t' := DeleteInLine(t, p, n);
    var l, m, r := t[p.line][..p.pos], t[p.line][p.pos..p.pos + n], t[p.line][p.pos + n..];
    FlatAt(t, p.line);
    FlatAt(t', p.line);
    assert t'[..p.line] == t[..p.line] && t'[p.line + 1..] == t[p.line + 1..];
    assert t[p.line] == l + m + r && t'[p.line] == l + r;
    CutMiddle(Before(t[..p.line]), l, m, r, After(t[p.line + 1..]));
  }

  lemma FlatJoin(t: seq<Line>, i: int)
    requires 0 <= i && i + 1 < |t|
    ensures var o := Offset(t, Pos(i, |t[i]|));
      && o + 1 <= |Flat(t)|
      && Flat(JoinLines(t, i)) == Cut(Flat(t), o, 1)
      && Flat(t)[o..o + 1] == [0]
  {
    var t' := JoinLines(t, i);
    var p := Pos(i, |t[i]|);
    assert BreakLine(t', p) == t;
    assert Offset(t', p) == Offset(t, p) by {
      assert t'[..i] == t[..i];
    }
    FlatBreak(t', p);
    var o := Offset(t, p);
    assert Cut(Splice(Flat(t'), o, [0]), o, 1) == Flat(t');
  }
}
