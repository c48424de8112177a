/** Parse trees as values, and what becomes of the groups in them. */
module Outlines {
  import opened ParseTrees

  /** A tree without the objects that hold it. */
  datatype Outline = Missing | Over(tok: Token, l: Outline, r: Outline)

  ghost function OutlineOf(s: Shape): Outline {
    if s.Nil? then Missing else Over(s.tok, OutlineOf(s.l), OutlineOf(s.r))
  }

  function Leaf(tok: Token): Outline {
    Over(tok, Missing, Missing)
  }

  predicate Occurs(tok: Token, f: Outline) {
    f.Over? && (f.tok == tok || Occurs(tok, f.l) || Occurs(tok, f.r))
  }

  /** A group has its body on the left, and nothing on the right. */
  predicate Tidy(f: Outline) {
    f.Over? ==> Tidy(f.l) && Tidy(f.r) && (f.tok.Subexp? ==> f.r.Missing?)
  }

  /** The tree with every group replaced by its body, between an opening and a closing marker unless
      nobody asks for the group. */
  function LoweredOf(f: Outline, noSub: bool, used: set<int>): (t: Outline)
    ensures t.Missing? <==> f.Missing?
  {
    if f.Missing? then Missing
    else
      var l := LoweredOf(f.l, noSub, used);
      if !f.tok.Subexp? then Over(f.tok, l, LoweredOf(f.r, noSub, used))
      else if noSub && f.l.Over? && !(f.tok.idx < 64 && f.tok.idx in used) then l
      else
        var cls := Leaf(Close(f.tok.idx));
        Over(Concat, Leaf(Open(f.tok.idx)), if f.l.Missing? then cls else Over(Concat, l, cls))
  }

  /** Some group `i` is asked for: sub-matches are wanted, or it has no body, or a back-reference
      uses it. */
  predicate Asked(f: Outline, i: int, noSub: bool, used: set<int>) {
    f.Over? &&
    (|| (f.tok == Subexp(i) && (!noSub || f.l.Missing? || (i < 64 && i in used)))
     || Asked(f.l, i, noSub, used)
     || Asked(f.r, i, noSub, used))
  }

  /** The markers of a group are in the lowered tree exactly if the group is asked for. */
  lemma {:induction false} MarkersIffAsked(f: Outline, i: int, noSub: bool, used: set<int>)
    requires Tidy(f)
    ensures Occurs(Open(i), LoweredOf(f, noSub, used)) <==> Occurs(Open(i), f) || Asked(f, i, noSub, used)
    ensures Occurs(Close(i), LoweredOf(f, noSub, used)) <==> Occurs(Close(i), f) || Asked(f, i, noSub, used)
  {
    if f.Over? {
      MarkersIffAsked(f.l, i, noSub, used);
      MarkersIffAsked(f.r, i, noSub, used);
      if f.tok.Subexp? {
        var l := LoweredOf(f.l, noSub, used);
        InMarkers(Open(i), f.tok.idx, l);
        InMarkers(Close(i), f.tok.idx, l);
      }
    }
  }

  lemma InMarkers(tok: Token, i: int, l: Outline)
    requires !tok.Concat?
    ensures Occurs(tok, Over(Concat, Leaf(Open(i)), Over(Concat, l, Leaf(Close(i))))) <==>
            tok == Open(i) || tok == Close(i) || Occurs(tok, l)
    ensures Occurs(tok, Over(Concat, Leaf(Open(i)), Leaf(Close(i)))) <==> tok == Open(i) || tok == Close(i)
  {
    assert Occurs(tok, Leaf(Open(i))) <==> tok == Open(i);
    assert Occurs(tok, Leaf(Close(i))) <==> tok == Close(i);
    assert Occurs(tok, Over(Concat, l, Leaf(Close(i)))) <==> Occurs(tok, l) || tok == Close(i);
  }

  /** The tree without the groups that are the whole of another group: each group loses the one it
      holds, if it holds nothing else. */
  function StrippedOf(f: Outline): Outline {
    if f.Missing? then Missing
    else if f.tok.Subexp? && f.l.Over? && f.l.tok.Subexp? then Over(f.tok, StrippedOf(f.l.l), StrippedOf(f.r))
    else Over(f.tok, StrippedOf(f.l), StrippedOf(f.r))
  }

  /** The group that is stripped, and the one around it. */
  datatype Renaming = Renaming(inner: int, outer: int)

  /** The groups that are stripped, in preorder. */
  function Renamings(f: Outline): seq<Renaming> {
    if f.Missing? then []
    else if f.tok.Subexp? && f.l.Over? && f.l.tok.Subexp? then
      [Renaming(f.l.tok.idx, f.tok.idx)] + Renamings(f.l.l) + Renamings(f.r)
    else Renamings(f.l) + Renamings(f.r)
  }

  /** Every stripped group stands for what the group around it stood for at that time. */
  function Renamed(m: map<int, int>, rs: seq<Renaming>): map<int, int> {
    if rs == [] then m
    else
      var r := rs[|rs| - 1];
      var before := Renamed(m, rs[..|rs| - 1]);
      if r.outer in before then before[r.inner := before[r.outer]] else before
  }
}
