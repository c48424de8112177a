/** The compiler as a whole, from the tree the parser returns to the closed sets that read a word. */
module RegexCompiler {
  import opened ParseTrees
  import opened Languages
  import opened Outlines
  import opened Lowering
  import opened GroupStripping
  import opened NfaBuild
  import opened NfaCorrect
  import opened ClosureRuns
  import opened NodeSets
  import Closures

  /** analyze(): nested groups are stripped, the others lowered, the automaton is built, and the
      closures of its nodes are computed. Reading a word over closed sets, from the closure of the
      initial node, ends at the end marker exactly if the word is in the language of the parsed
      expression, whatever sub-matches and back-references ask for. The automaton is that of the
      tree `t`, which has the groups that are asked for between their markers and no other marker. */
  method CompileTree(root: Tree, noSub: bool, maps: Maps, ghost s0: Shape, ghost all: set<Tree>)
      returns (b: Builder, init: int, dfa: Closures.Dfa, ghost t: Shape, ghost idx: map<Tree, int>)
    requires all == Objs(s0) && Linked(root, null, s0) && Distinct(s0) && Parsed(s0) && root.next == null
    requires maps.Covers(all)
    modifies maps, all
    ensures maps.used == StillUsed(old(maps.used), Renamings(OutlineOf(s0)))
    ensures maps.subexpMap == Renamed(old(maps.subexpMap), Renamings(OutlineOf(s0)))
    ensures OutlineOf(t) == LoweredOf(StrippedOf(OutlineOf(s0)), noSub, maps.used)
    ensures Whole(t) && WiredToEnd(Automaton(b), idx, t) && idx[FirstObj(t)] == init
    ensures var kept := StrippedOf(OutlineOf(s0));
            forall i ::
              && (Open(i) in b.nodes <==> Occurs(Open(i), kept) || Asked(kept, i, noSub, maps.used))
              && (Close(i) in b.nodes <==> Occurs(Close(i), kept) || Asked(kept, i, noSub, maps.used))
    ensures Sane(Automaton(b)) && dfa.edests == b.edests && 0 <= init < dfa.eclosures.Length
    ensures forall i | 0 <= i < dfa.eclosures.Length ::
              dfa.eclosures[i].Done? && Closures.Holds(dfa.eclosures[i].nodes, Closures.Reach(b.edests, {}, i))
    ensures dfa.eclosures[init].Done? && dfa.eclosures[init].nodes.Valid()
    ensures forall w :: InLang(s0, w) <==> Run(Automaton(b), Nodes(dfa.eclosures[init].nodes.Contents()), w)
  {
    hide Linked, Distinct, Parsed, Whole, InLang, Run, Sane, Nodes, WiredToEnd, FirstObj, Occurs, OutlineOf, StrippedOf;
    hide LoweredOf, Renamings, Renamed, StillUsed, Asked;
    ghost var s1 := StripPass(maps, root, s0, all);
    ghost var all';
    t, all' := LowerPass(root, noSub, maps.used, s1, Objs(s1));
    b := new Builder();
    init, dfa, idx := Analyze(b, root, t, all');
    ParsedIsTidy(s1);
    ghost var kept := StrippedOf(OutlineOf(s0));
    forall i
      ensures Open(i) in b.nodes <==> Occurs(Open(i), kept) || Asked(kept, i, noSub, maps.used)
      ensures Close(i) in b.nodes <==> Occurs(Close(i), kept) || Asked(kept, i, noSub, maps.used)
    {
      MarkersIffAsked(kept, i, noSub, maps.used);
    }
    forall w
      ensures InLang(s0, w) <==> Run(Automaton(b), Nodes(dfa.eclosures[init].nodes.Contents()), w)
    {
      assert SameWords(s0, s1) && SameWords(s1, t);
    }
  }

  lemma ParsedIsTidy(s: Shape)
    requires Parsed(s)
    ensures Tidy(OutlineOf(s))
  {
    if s.tok.Concat? {
      WellFormedIsTidy(s.l);
      assert Tidy(OutlineOf(s.r));
    }
  }

  lemma {:induction false} WellFormedIsTidy(s: Shape)
    requires WellFormed(s)
    ensures Tidy(OutlineOf(s))
  {
    if s.Node? {
      WellFormedIsTidy(s.l);
      WellFormedIsTidy(s.r);
    }
  }
}
