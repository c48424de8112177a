# A verified model of ne's core

ne is a text editor. This project models what lies beneath its user interface and proves that it
does what the rest of the program relies on. It has five parts.

**The text store.** A document is a list of line descriptors that point into pools of characters,
where a zero byte is a free one. `Edits.Buffer` models the two edit operations, with the pools as
arrays, their bounds, the counters, the bookmarks, the mark and the undo log. Its specification is
in `FlatText`: a document is a sequence of lines, flattened to one byte sequence with a NUL between
lines. Inserting splices a stream into that sequence, deleting cuts a slice out of it, whichever way
the store finds room: in a new pool, in the free bytes around a line, by moving a line, by splitting
a line without copying, or by joining two lines that happen to be adjacent. Marks keep their place,
the bytes logged for undo are the bytes removed, and putting them back restores the document.
`Clips` builds cut and paste on top, `ExecLists` has the sentinel lists, and `FileFormat`, `Loaders`,
`StreamLoader` and `Savers` show that the two loaders agree, that the two savers agree, and exactly
when loading what was saved gives back the same lines. `LoadedDocuments` ties the two halves together:
a loaded file is a text store to which the edit operations apply.

**The regular expression compiler.** `RegexCompiler.CompileTree` is the end-to-end theorem: for
every tree the parser can make (one byte per character, without anchors and back-references), after
the optimisation of groups, the lowering of groups, the three passes over the tree and the
computation of closures, running the closures over a word succeeds on exactly the words of the tree,
and the automaton marks exactly the groups that are asked for (`Outlines`). The tree is a heap of
nodes with parent pointers and is walked without a stack. Below this theorem are the in-place set
operations (`NodeArrays`), the re-entrant closure search over graphs with cycles (`Closures`), the
duplication of trees (`TreeCopies`), the expansion of the repetition operators of section 9.4.6 of
the XBD volume of IEEE Std 1003.1 (`Repeats`) and the table of states (`StateTables`).

**Search.** `Horspool` proves, for either direction, exactly which skip tables never skip an
occurrence; `LineSearch` lifts this to many lines with wrap; `SearchTable` is the protocol by which
one global table is shared by all documents and by the regular expression code.

**Whole-buffer transformations and incremental state.** Reformatting a paragraph keeps the words,
goes on to its end, and leaves every line short enough or a single word, and no shorter than it has
to be (`Paragraphs`); updating syntax states line by line gives what a recomputation of the whole
buffer gives (`SyntaxStates`); the in-place macro optimiser changes the commands but not what they
do, under an exact condition on their arguments (`Macros`).

**Index arithmetic.** Cursor motion keeps the cursor, the window and the wanted column consistent
(`Navigation`); the requester's pages partition its entries (`Requester`, `RequestPages`) and its
reordering map stays a permutation in step with what is shown (`RequestLists`).

## What the proofs found

- *The skip table can be stale.* The serial number records that the table was built for this document
  since the string, the direction or the case setting last changed. It does not record the encoding.
  When the encoding changes between two searches, by an edit that promotes an ASCII document, by the
  UTF8 command or by loading the file again, a table built with the case folding of the locale is
  reused with ASCII folding, or the other way round, and may skip an occurrence:
  `SearchTable.PromotionReplayed` has the commands, and `SearchTable.ReusedFitsIff` the exact condition
  under which a reused table is right, which can be checked from the pattern before the call.
- *Serial numbers repeat* after 2^30 compilations (`SearchTable.SerialPeriod`), so that a document that
  was not searched for exactly that long may take another one's table for its own.
- *The macro optimiser reads numbers in its own way.* It merges `InsertChar +65`, which the command
  parser refuses, and `InsertChar 0x100000041`, which inserts another character
  (`Macros.PlusSignMisread`, `Macros.LargeNumberMisread`). Otherwise it changes nothing
  (`Macros.OptimizeMacro` is an equivalence).
- *A pool can be counted after it is gone.* A file without any character but line ends gives its pool
  back when it has been loaded, but `allocated_chars` and `free_chars` still count it. Their difference
  is right all the same (`CharPools.PoolList.OfFile`, with the difference in `gone`).
- *A failed fit overwrites the last page.* When the requester reshapes its last page, every attempt
  that does not fit has already overwritten the page. `RequestPages.PageTable.ReshapeLast` shows that
  the page left at the end is nevertheless a good one with the same entries.
- *Preserved CRs pile up.* With CR preserved, a document of more than one line that is saved with
  CR/LF line ends gains a CR on each line but the last when it is loaded back
  (`FileFormat.RoundTrip` is an equivalence).
- *Lines are filled by the gaps they had.* A paragraph is split at the last gap before the margin, as
  wide as it is, and joined with one blank. With words further apart, a line can end although one
  blank and the next word would still fit (`Paragraphs.Document.SplitAtWideGap`); with words one blank
  apart it cannot (`Paragraphs.FullBySpaces`).
- *Only uniform files survive unchanged.* A file that mixes line ends is not written back as it was
  read (`FileFormat.FileKept` is an equivalence).
- *Moving right does not always undo moving left.* In free-form mode, going left over a line start and
  then right leads beyond the end of the line above (`Navigation.ThereAndBack`).
- The assertion at `src/ne.h:323` compares `first_used` with itself; the model keeps
  `first_used <= last_used`.

## Model

| member | source | states |
|---|---|---|
| FlatText.FlatInjective | src/buffer.c:693-702 | two documents whose flattened forms are equal have the same lines, so that the flattened text is a full specification |
| FlatText.FlatBreak | src/buffer.c:848-864 | breaking a line is inserting one NUL at the offset of the break |
| FlatText.FlatJoin | src/buffer.c:997-1051 | joining a line with the next one is deleting the NUL between them |
| CharPools.PoolList.AllocChars | src/buffer.c:536-596 | a new region of the wanted length, all of whose bytes were free, in an old pool or a fresh one; the live byte count grows by the length and every other byte is as before |
| CharPools.PoolList.AllocCharsAround | src/buffer.c:603-654 | how many bytes were taken on either side of a line, if they were free there; failure means that no division of the bytes between the two sides had room |
| CharPools.PoolList.FreeChars | src/buffer.c:661-690 | exactly the region's bytes become zero, the bounds are again the lowest and highest used byte of the pool, and an empty pool goes away |
| CharPools.PoolList.GetCharPool | src/buffer.c:119-131 | the pool a byte is in |
| CharPools.PoolList.SpliceInPlace | src/buffer.c:830-837 | growing a line into the free bytes around it leaves the line with the stream spliced in, whatever part of the line had to move |
| CharPools.PoolList.PlaceSpliced | src/buffer.c:813-829 | relocating a line to a new region gives the same spliced line in bytes that were free before |
| TextStore.LineStore.GrowLine | src/buffer.c:808-838 | in place or relocated, the document has the bytes inserted in that line and nothing else changed |
| TextStore.LineStore.SplitLine | src/buffer.c:848-864 | a line is split into two by pointers alone: no byte is written |
| TextStore.LineStore.DeletePart | src/buffer.c:1091-1105 | deleting from the head, the tail or the middle of a line removes just those bytes |
| TextStore.LineStore.JoinNext | src/buffer.c:997-1051 | the next line is appended, with no copy if one is empty or they meet in memory, by growing or relocating otherwise |
| Marks.MarkSet.Adjust | src/buffer.c:841-888 | every bookmark that is set and the mark move as the edit says, and no other |
| Marks.MarkInserted | src/buffer.c:841-845 | a mark keeps its flattened offset at or before an insertion and moves by its length after it |
| Marks.MarkBroken | src/buffer.c:869-888 | the same for a line break, also for marks that end up in the new line |
| Marks.MarkDeleted | src/buffer.c:1069-1084 | a mark inside a deletion moves to its start, one behind it moves back by its length |
| Marks.MarkJoined | src/buffer.c:979-995 | the same for the join of two lines |
| Edits.Buffer.InsertStream | src/buffer.c:770-901 | the flattened text becomes prefix, stream, suffix; all marks inside the text follow; one undo step is recorded; the document counts as modified; ERROR exactly for an empty stream or a position outside the line, and then nothing changes |
| Edits.Buffer.DeleteStream | src/buffer.c:951-1116 | exactly min(len, bytes left) bytes of the flattened text are removed there; they are appended to the redo log while undoing, to neither log while redoing, and else to the undo log if undo is on; all marks follow; the document counts as modified; ERROR exactly when there is nothing to delete |
| Edits.Buffer.DeleteRound | src/buffer.c:974-1108 | one round removes a line break or a piece of a line, appends it to the same log, and ends only at the end of the text |
| EditLaws.ReinsertRestores | src/buffer.c:1053-1089 | inserting the logged bytes where they were deleted gives back the document |
| EditLaws.DeleteUndoesInsert | src/buffer.c:788-897 | inserting a stream and deleting its length there gives back the document and every mark inside it |
| EditLaws.DeleteAndRestore | src/buffer.c:951-1116 | both calls in a row, through the log, restore the text store's content |
| EditLaws.UndoAndRestore | src/buffer.c:1054-1089 | deleting while undoing and putting the end of the redo log back restores the text store's content |
| Clips.BetweenIsSlice | src/clips.c:103-107 | the lines between two positions, with a NUL between them, are a slice of the flattened text |
| Clips.CopyBackwards | src/clips.c:137-200 | the loop from the cursor back to the mark fills a clip of the measured length, from its end, with that slice |
| Clips.CopyForwards | src/clips.c:201-258 | the loop from the cursor on to the mark fills it from its start |
| Clips.ClipList.CopyToClip | src/clips.c:109-261 | the clip holds the block, whichever end the cursor is at; positions beyond a line end count as the line end; other clips are untouched; the two errors |
| Clips.Padded | src/clips.c:149-155 | the line is filled with spaces at its end up to the position, and no other line changes |
| Clips.ClipList.Cut | src/clips.c:176-243 | spaces are put in up to the earlier end of the block if it is beyond its line; then the bytes removed from the flattened text are exactly those now in the clip |
| Clips.ClipList.Paste | src/clips.c:337-371 | the clip is spliced in at the cursor, behind spaces if the cursor is beyond its line; a missing or empty clip changes nothing |
| Clips.ClipList.CutAndPaste | src/clips.c:109-371 | cutting and pasting at the same place gives back the document line for line, but for such spaces |
| ExecLists.Rem | src/exec.c:63-68 | a node is taken out of any list knowing only the node, which keeps its old neighbours |
| ExecLists.Add | src/exec.c:71-79 | a node is linked in behind any node but the last end |
| ExecLists.List.AddHead | src/exec.c:41-49 | a node is linked in at the head of the list |
| ExecLists.List.AddTail | src/exec.c:52-60 | a node is linked in at the tail of the list |
| ExecLists.RemAndAdd | src/exec.c:63-79 | a node taken out and put back behind its old neighbour gives the same list |
| ExecLists.List.Nth | src/buffer.c:1129-1153 | the node found from the nearest of head, tail and current line is the n-th, and null is returned out of range |
| FileFormat.ExtentsAreLines | src/buffer.c:1439-1479 | the offsets and lengths a load produces describe the lines of the file, for every file and mode |
| FileFormat.BytesAccounted | src/buffer.c:1439-1479 | line lengths and free bytes add up to the length of the file |
| FileFormat.LinesAreClean | src/buffer.c:1439-1479 | no loaded line contains a terminator of the mode |
| FileFormat.RoundTrip | src/buffer.c:1596-1674 | loading what was saved gives back the same lines if and only if no line holds a terminator of the mode and CR/LF is not written while CR is preserved, but for a single line |
| FileFormat.FileKept | src/buffer.c:1596-1674 | saving what was loaded, with the separator for the CR/LF flag of the loaded file, gives back the file byte for byte if and only if all its lines end alike: binary files always, text files with LF only or with CR/LF only and no NUL |
| Loaders.LoadInMemory | src/buffer.c:1439-1479 | the two passes over the pool give the bytes, extents, CR/LF flag and free count that the file format defines, for the empty file too |
| Loaders.UsedBounds | src/buffer.c:1501-1513 | a pool is kept exactly if a byte is used, and the bounds are then the first and the last used byte |
| LoadedDocuments.Layout | src/buffer.c:1439-1479 | the extents of a load lie one behind the other with a terminator between them, and a byte is kept exactly if a line covers it |
| LoadedDocuments.LoadedStore | src/buffer.c:1439-1513 | the extents over the pool are a valid store, no two overlapping and every used byte covered, and hold the lines of the file |
| LoadedDocuments.LoadDocument | src/buffer.c:1427-1513 | what the loader leaves is a text store with the lines of the file as its content |
| LoadedDocuments.LoadBuffer | src/buffer.c:1427-1521 | so that the edit operations, and all that is proved about them, apply to a document right after loading |
| StreamLoader.Stream.Load | src/buffer.c:1195-1285 | reading through two half buffers refilled in turn gives the same bytes, extents, line count, flag and free count, also for a CR/LF pair across a half boundary |
| StreamLoader.Stream.Advance | src/buffer.c:1256-1266 | one byte on, whether or not a half is written out and refilled, appends that byte or a zero to what was written |
| Savers.SaveByLine | src/buffer.c:1650-1673 | the file is the lines with the separator between them |
| Savers.BlockSaver.Save | src/buffer.c:1585-1644 | the block-buffered saver writes the same file without running over its block |
| Savers.BlockSaver.AddLine | src/buffer.c:1597-1618 | a line of any length goes through the block whole, leaving room for a separator |
| NodeSets.CanonicalArray | src/regex_internal.c:1352-1361 | strictly sorted arrays that hold the same nodes are equal, so that comparing arrays compares sets |
| NodeArrays.NodeSet.Merge | src/regex_internal.c:1192-1269 | in one array, with the missing elements collected at its top and settled from the top down, the result is the merge; the scratch area never meets unread data |
| NodeArrays.MergeIsUnion | src/regex_internal.c:1192-1269 | that merge is the union, strictly sorted if the inputs are |
| NodeArrays.NodeSet.AddIntersect | src/regex_internal.c:1048-1134 | the same for the elements two other sets have in common |
| NodeArrays.AddIntersectMeans | src/regex_internal.c:1048-1134 | that is dest ∪ (src1 ∩ src2), strictly sorted if the inputs are |
| NodeArrays.NodeSet.InitUnion | src/regex_internal.c:1141-1187 | the two-pointer walk builds the same array as the in-place merge |
| NodeSets.UnitedMeans | src/regex_internal.c:1141-1187 | which is the union in order |
| NodeArrays.NodeSet.Insert | src/regex_internal.c:1275-1321 | larger elements are shifted up and the new one put in its place |
| NodeArrays.InsertMeans | src/regex_internal.c:1275-1321 | the set grows by the element; strict order is kept exactly if the element was new |
| NodeArrays.NodeSet.InsertLast | src/regex_internal.c:1326-1345 | the element is appended |
| NodeArrays.NodeSet.Compare | src/regex_internal.c:1350-1361 | true exactly for equal contents |
| NodeArrays.NodeSet.Contains | src/regex_internal.c:1364-1385 | binary search: 0 exactly for a missing element, else one more than its first index, also in arrays with repetitions |
| NfaBuild.InitTwo | src/regex_internal.c:993-1021 | one or two elements, strictly sorted |
| Closures.SearchCovers | src/regcomp.c:1704-1777 | what a search that avoids nodes in progress finds below a node, plus the node, is all that can be reached while avoiding them |
| Closures.Dfa.CalcEclosureIter | src/regcomp.c:1701-1777 | the set returned holds everything reachable that avoids the nodes in progress, and nothing unreachable; it is stored only if it is exact; the marks of nodes in progress are as before |
| Closures.Dfa.CalcEclosure | src/regcomp.c:1656-1699 | for every epsilon graph, cycles included, the loop ends with every node's exact closure |
| Closures.Dfa.CalcInveclosure | src/regcomp.c:1634-1654 | the inverse closure of v holds exactly the nodes whose closure holds v |
| ParseTrees.CreateTree | src/regcomp.c:3810-3854 | a fresh node above two disjoint trees, whose parent pointers now lead to it |
| ParseTrees.PostNext | src/regcomp.c:1231-1262 | the stackless step leads from each node to the next in postorder, and from the root out |
| ParseTrees.PreNext | src/regcomp.c:1264-1292 | the same for preorder |
| ParseTrees.OrdersComplete | src/regcomp.c:1231-1292 | both orders visit exactly the nodes of the tree |
| NfaBuild.Builder.AddNode | src/regex_internal.c:1404-1454 | a new automaton node without edges, behind all others |
| NfaBuild.Builder.FirstPass | src/regcomp.c:1385-1406 | after the walk in postorder, every node has its first node and every node but a concatenation its automaton node |
| NfaBuild.Builder.SecondPass | src/regcomp.c:1408-1429 | after the walk in preorder, every node's children have the right successor |
| NfaBuild.Builder.LinkNode | src/regcomp.c:1431-1486 | a node's edges are set for its type, and no other node's change |
| NfaBuild.Builder.ThirdPass | src/regcomp.c:1431-1486 | the third walk links every node |
| NfaCorrect.PassesWire | src/regcomp.c:1385-1486 | the fields the passes set make the automaton of a tree lead from its first node to its successor along the structure of the tree |
| NfaCorrect.TypesOfNodes | src/regcomp.c:1385-1407 | the types of the automaton's nodes are exactly those that occur in the tree, but for concatenations |
| Languages.Sound | src/regcomp.c:1431-1486 | whatever a wired automaton accepts begins with a word of the tree, the rest being accepted from behind it in no more steps; nested stars and empty sides of alternations included |
| Languages.Complete | src/regcomp.c:1431-1486 | every word of the tree leads through its automaton |
| Languages.AutomatonIsLanguage | src/regcomp.c:1385-1486 | from the first node to END_OF_RE, the automaton accepts exactly the language of the tree |
| NfaCorrect.Compile | src/regcomp.c:1204-1210 | the three passes over any lowered tree give the automaton wired for it, with nodes of exactly its types, for exactly its language |
| NfaCorrect.Analyze | src/regcomp.c:1204-1214 | and the closures of that automaton, all exact, decide it when run over a word byte by byte |
| ClosureRuns.ClosuresDecide | src/regcomp.c:1656-1777 | reading a word over closed sets of nodes, and accepting when the last holds the end marker, is acceptance by the automaton |
| TreeCopies.DuplicateTree | src/regcomp.c:3899-3937 | an isomorphic copy of fresh nodes, the walk up stopping with the root, for every root on the right spine of its ancestors |
| TreeCopies.SameLanguage | src/regcomp.c:3899-3937 | isomorphic trees have the same words |
| Repeats.DupOp | src/regcomp.c:2524-2668 | the words of the tree are the k-th powers of the element for all k from 0 on for *, from 1 on for +, 0 or 1 for ?, and from n to m, or n on, for an interval; an interval fails exactly when n > m or the greater bound exceeds 0x7fff, and the other operators never |
| Repeats.Copies | src/regcomp.c:2605-2615 | n copies in a row, kept on the right spine so that the last can be duplicated again |
| Repeats.Options | src/regcomp.c:2635-2658 | the optional copies are nested so that any number of them up to the bound may match |
| Repeats.PowerSplit | src/regcomp.c:2605-2661 | a word of a + b repetitions is one of a followed by one of b |
| GroupStripping.StripPass | src/regcomp.c:1294-1324 | removing groups directly inside groups, in place, keeps the words of the tree; the tree that is left is the recursively stripped one, and the table of names and the set of used groups tell exactly which groups went |
| GroupStripping.Maps.OptimizeSubexps | src/regcomp.c:1294-1324 | the inner group is renamed to the outer one and no longer counts as used |
| Lowering.LowerGroup | src/regcomp.c:1350-1383 | a group becomes its body alone if sub-matches are not asked for, it has a body, and no back-reference below 64 uses it; its body between two markers otherwise; the words are the same and no group is left |
| Lowering.MarkersAddNothing | src/regcomp.c:1366-1383 | the markers read nothing, with or without a body |
| Lowering.LowerPass | src/regcomp.c:1326-1348 | the walk leaves the tree in which, recursively, exactly the groups that are asked for stand between their markers, with the same words, although it replaces children of the node it stands on |
| Outlines.MarkersIffAsked | src/regcomp.c:1350-1383 | an opening or closing marker i is in the lowered tree exactly if sub-matches are asked for, or the body of a group i is missing, or i is below 64 and used, for some group i, or the marker was there before |
| RegexCompiler.CompileTree | src/regcomp.c:1166-1227 | analyze(): for every parsed tree, the closures of the automaton built from it are all exact, and a run over them succeeds on exactly the words of the tree; the automaton is wired for the stripped and lowered tree, and has the markers of exactly the groups left by stripping that are asked for |
| StateTables.CalcStateHash | src/regex_internal.c:1456-1465 | the hash is the count and the sum of the nodes, wrapping at 32 bits |
| StateTables.StateTable.AcquireState | src/regex_internal.c:1476-1512 | the state returned has these nodes; one is made only if none has them, and no two states ever have the same nodes |
| StateTables.StateTable.CreateState | src/regex_internal.c:1620-1665 | a fresh state that halts exactly if a node is the end marker |
| StateTables.StateTable.Register | src/regex_internal.c:1565-1599 | the new state is added to the bucket of its hash |
| StateTables.OneStatePerSet | src/regex_internal.c:1476-1512 | for strictly sorted arrays, two states of the table are the same exactly if their sets are |
| StateTables.StateRuns | src/regex_internal.c:1565-1665 | a state halts exactly if its set accepts the empty word, and its nodes without epsilon nodes make the same moves |
| Horspool.ScanForward | src/search.c:139-154 | the inner loop forwards, as a function of text, table and folding |
| Horspool.ScanBackward | src/search.c:185-201 | the inner loop backwards |
| Horspool.ForwardExactIffFits | src/search.c:114-154 | a table finds the first occurrence in every text if and only if it never allows a longer skip than the pattern does |
| Horspool.BackwardExactIffFits | src/search.c:170-201 | the same backwards, for the last occurrence |
| Horspool.MissedForward | src/search.c:114-154 | for any entry that is too large there is a text in which the occurrence is missed |
| Horspool.MissedBackward | src/search.c:170-201 | the same backwards |
| Horspool.BuildForward | src/search.c:114-127 | the table is filled as defined, later places of the pattern overwriting earlier ones |
| Horspool.BuildBackward | src/search.c:170-173 | the same for the other direction |
| Horspool.BuiltFits | src/search.c:114-173 | a table so built never skips an occurrence |
| LineSearch.FindForward | src/search.c:129-166 | with a table that fits, the nearest occurrence in search order over all lines and at most one wrap, or none; with any table, what is found is an occurrence |
| LineSearch.FindBackward | src/search.c:175-217 | the same backwards |
| SearchTable.SerialSteps | src/search.c:106-109 | the serial numbers in order, with the zero and the overflow they avoid |
| SearchTable.SerialPeriod | src/search.c:106-109 | two compilations have the same serial number exactly if they are a multiple of 2^30 apart |
| SearchTable.Finder.Find | src/search.c:96-217 | from every state that a run over any documents can reach, the table in use is one built for this document's string and direction; the cursor lands on the nearest occurrence whenever the table fits, and it fits whenever it is rebuilt or the folding is still the one it was built with; what it lands on is an occurrence in any case; when case counts, an occurrence is the string byte for byte |
| SearchTable.Finder.FoldCompares | src/search.c:116-117 | two bytes count as the same only if they are equal when case counts; in UTF-8 also if one is a letter from a to z and the other its capital; and as the locale folds them otherwise |
| SearchTable.Finder.FindRegexp | src/search.c:283-306 | a new serial number is taken exactly when the document's is another one or its last search was a plain one, and then no other document carries it; the table is overwritten exactly when the expression is compiled; ERROR exactly for an empty or refused expression |
| SearchTable.Finder.FindCommand | src/actions.c:1123-1130 | a Find with a new string always lands on the nearest occurrence, byte for byte when case counts |
| SearchTable.Finder.FindRegexpCommand | src/actions.c:1123-1130 | the document has the new expression, the table is the compiler's, and no document will use it as it is |
| SearchTable.Finder.SearchAgain | src/actions.c:1281-1287 | repeating a search lands on the nearest occurrence under the condition on the folding, byte for byte when case counts |
| SearchTable.Finder.SetFlags | src/actions.c:1475-1483 | changing case sensitivity or direction makes the next search rebuild the table |
| SearchTable.Finder.Edit | src/actions.c:1434-1449 | edits, moves and changes of encoding, of which the UTF8 command makes any, leave who owns the table as it was |
| SearchTable.Finder.Open | src/actions.c:1064-1074 | a new document takes over the string and the kind of search of the old one but does not own the table |
| SearchTable.ReusedFitsIff | src/search.c:106-127 | a reused table is right for a new folding if and only if every place of the pattern is covered by one nearer to the start of the scan, or itself, that folds the same |
| SearchTable.PromotionMisses | src/search.c:106-154 | a table, a pattern and a text on which the stale table misses an occurrence |
| SearchTable.PromotionReplayed | src/actions.c:1262-1290 | the same with the commands: Find, a change to UTF-8, and searching on end at NOT_FOUND in front of an occurrence |
| SyntaxStates.CoherentUnique | src/buffer.c:1525-1535 | the lines determine their states |
| SyntaxStates.Document.Reset | src/buffer.c:1525-1535 | recomputing from the first line gives coherent states |
| SyntaxStates.Document.Update | src/display.c:91-142 | after an edit confined to the lines up to end_ld, stopping at the first line that agrees leaves all states coherent; an end_ld that is never met makes it go on to the last line |
| SyntaxStates.UpdateOrReset | src/display.c:91-142 | the incremental update and the full recomputation give the same states for every line |
| Paragraphs.Document.SaveSpace | src/edit.c:311-337 | the leading blanks of the first line that is not blank, and their width |
| Paragraphs.Document.TrimTrailing | src/edit.c:343-348 | the longest part of the line that does not end in a blank |
| Paragraphs.Document.IsPart | src/edit.c:357-368 | true exactly if the line is not blank and its first word begins in the saved column, with the place of that word |
| Paragraphs.Document.FindSplit | src/edit.c:435-452 | where to split: between two words, the part in front fitting the margin, and every later blank at a column of at least the margin; or nowhere, for a single word |
| Paragraphs.Document.PullUpLines | src/edit.c:421-430 | lines are appended with one blank, keeping the words, until the line is too wide or the paragraph ends; the lines behind are as they were |
| Paragraphs.Document.Reformat | src/edit.c:416-477 | the loop ends; the document's words are kept, in order and with their boundaries; every finished line fits or is a single word, and behind the first has the saved indentation; every one but the last is full, as the first word of the next line would reach the margin behind it, or is a single word beyond the margin; the last one is followed by no line of the paragraph, and the lines behind it are the old ones |
| Paragraphs.FullBySpaces | src/edit.c:423-450 | if the words of the document are one blank apart, a full line with a blank and the first word of the next line reaches the margin |
| Paragraphs.Document.SplitAtWideGap | src/edit.c:435-450 | a line with a wider gap is split there although one blank and the next word would have fitted |
| Paragraphs.Document.Paragraph | src/edit.c:389-513 | the same for the command, with the indentation that makes a line part of the paragraph, and with exactly when it does anything |
| Macros.CharStream.InsertIn | src/streams.c:123-141 | the bytes are spliced into the stream, growing it if need be; behind the end nothing is inserted, and that is the only failure |
| Macros.CharStream.DeleteFrom | src/streams.c:148-159 | the bytes, at most as many as the stream has, are cut from it in place |
| Macros.CommandsOf | src/command.c:441-457 | every NUL-terminated stream is a sequence of commands |
| Macros.CommandsUnique | src/command.c:441-457 | there is only one such sequence |
| Macros.Vet | src/command.c:441-457 | true exactly if all commands from here on are safe |
| Macros.StringCommandActs | src/command.c:466-494 | the InsertString command built from characters acts as one InsertChar for each |
| Macros.AgreesIff | src/command.c:290-312 | a command the optimiser reads as the insertion of a character does insert that character if and only if its argument begins with a hexadecimal digit or an x and is less than 2^31 |
| Macros.NumberReadBack | src/command.c:309 | a number written in decimal, in octal behind 0 or in hexadecimal behind 0x is read back, with either sign, within the limits of a long, and up to the first byte that is no digit |
| Macros.MeantIsDenoted | src/command.c:413-494 | what the optimiser takes a macro for is what it does if and only if that holds of every command it merges |
| Macros.Rewrite | src/command.c:472-490 | one command is deleted and its character put into the run being built; the loop goes on at the next command boundary, from the terminator in front of it |
| Macros.OptimizeMacro | src/command.c:466-494 | for every macro, the commands after are the optimised ones; what they do is unchanged if and only if every command that is merged has an argument that begins as the command parser wants it and is less than 2^31 |
| Macros.PlusSignMisread | src/command.c:413-433 | an input on which the actions change: a number with a plus sign is refused when executed but merged |
| Macros.LargeNumberMisread | src/command.c:413-433 | another one: 2^32 + 65 is cut to an int and merged as 65 |
| Navigation.CoversOnce | src/navigation.c:84-160 | a column puts the cursor in one place only |
| Navigation.ThereAndBack | src/navigation.c:270-345 | left undoes right, across line ends too; right undoes left but for the line start in free-form mode |
| Navigation.NoStopInside | src/navigation.c:120-138 | the window never begins inside a TAB, so that the branch for it is never taken |
| Navigation.View.ResyncPos | src/navigation.c:84-160 | the cursor lands on the character at the wanted column, on the screen, and the wanted column is kept, whatever the line is like; a wanted column is remembered exactly when the cursor falls short of it, unless it is 0 |
| Navigation.View.MoveToEol | src/navigation.c:820-860 | the end of the line is shown, and the loop that looks for a window never runs out |
| Navigation.View.LineUp | src/navigation.c:164-190 | one line up with the wanted column kept; it fails on the first line only |
| Navigation.View.LineDown | src/navigation.c:194-220 | one line down, failing on the last line only |
| Navigation.View.UpAndDown | src/navigation.c:164-220 | up and down again leads back to the same byte, though the line above may be too short |
| Navigation.View.CharLeft | src/navigation.c:270-301 | the position in the text goes one back, the column relation holds, and the cursor stays in a window at a multiple of the TAB size |
| Navigation.View.CharRight | src/navigation.c:316-345 | the same one on |
| Navigation.View.GotoColumn | src/navigation.c:732-754 | the wanted column is the one asked for |
| Navigation.View.GotoPos | src/navigation.c:763-801 | the cursor is at the byte asked for, or at the end of the line, and the wanted column is the one of the byte asked for in either case |
| Navigation.View.GotoLinePos | src/navigation.c:684-727 | the cursor is on the line and byte asked for; the window stays if it covers the line, and else has it in the middle, or is at either end of the document |
| Requester.FitPage | src/request.c:143-166 | giving up early decides the question for all entries; a page that fits is the tight rectangle with each column as wide as its widest entry |
| Requester.WidestEntry | src/request.c:155-161 | the width of a column is that of its widest entry |
| Requester.TightPlaces | src/request.c:179-202 | computed from the tight rectangle, every entry is in the column whose width was measured for it |
| RequestPages.OnePage | src/request.c:247-286 | consecutive pages put every entry on exactly one page |
| RequestPages.IndexOfPlace | src/request.c:179-210 | from an entry to its place and back is the identity |
| RequestPages.PlaceOfIndex | src/request.c:179-210 | from a place to its entry and back is the identity |
| RequestPages.Screen.MaxCols | src/request.c:252 | the greatest number of columns of which each has three columns of the terminal, up to 16 |
| RequestPages.Share | src/request.c:258 | a page tried with so many columns takes what fills them on all lines but the last, or all entries left |
| RequestPages.WidestFit | src/request.c:256-260 | the number of columns tried first that fits is the largest |
| RequestPages.PageTable.Locate | src/request.c:179-202 | the page that holds the entry, its place on it, and the widths in front of its column |
| RequestPages.PageTable.ReshapeLast | src/request.c:266-284 | the last page keeps its entries and still fits, though failed attempts overwrite it; its columns are those of the first number of rows that makes it slender, and its rows the fewest, counting down, that these columns fit in |
| RequestPages.PageTable.ResetPages | src/request.c:247-286 | the pages partition all entries, fit the screen, and are the widest possible, but for the last one by column, which is reshaped from the widest; pages in front of n0 are untouched; it fails exactly when the screen has fewer than three columns and there are entries |
| RequestLists.InsertionPoint | src/request.c:1525-1545 | bisection finds a place that keeps the list sorted, and finds an equal string exactly if there is one |
| RequestLists.ReqList.Add | src/request.c:1520-1603 | a duplicate is refused exactly if duplicates are not allowed; else the string is inserted and the list stays sorted |
| RequestLists.DroppedIsPermutation | src/request.c:1398-1404 | closing the gap a deleted entry leaves keeps the map a permutation |
| RequestLists.SelectDoc.Reorder | src/request.c:544-572 | the entry is moved with its length by one place, round the end if need be, and the map still refers every entry to its original |
| RequestLists.SelectDoc.Renumber | src/request.c:1398-1404 | the map is closed up in place |
| RequestLists.SelectDoc.Close | src/request.c:1223-1268 | closing a document, found by its address, removes the same entry from both lists with its length and keeps the map in step |
| RequestLists.SelectDoc.DropEntry | src/request.c:1242-1252 | the loop over the working list drops that entry and its length, in place |
| RequestLists.SelectDoc.Relink | src/request.c:1331-1350 | the documents end up in the order shown, the original list being overwritten on the way |

## Left out

- Edits.Buffer.InsertStream: positions beyond the end of a line (free-form mode) are refused as in the code; the spaces its callers insert first are not modelled, and allocation never fails.
- Edits.Buffer.DeleteStream: undo chains, the undo buffer's own allocation and signals are not modelled; `undo.c` appears as a list of steps and two logs.
- SearchTable.Finder.Find: where it compiles, no other document may carry a serial number from a multiple of 2^30 compilations ago, as the code cannot tell them apart; explicit patterns, which no caller passes, interruption, and the preference commands that set direction and case without clearing `find_string_changed` are not steps of the model.
- SearchTable.Finder.FindRegexp: only its effect on the table is modelled, not the matching.
- RegexCompiler.CompileTree: anchors, back-references, multibyte characters and complex brackets, contexts, and marks for optional or duplicated groups are not modelled; a bracket is the set of bytes it matches; the inverse closures, which analyze() computes for the matcher only, are `Closures.Dfa.CalcInveclosure`.
- NfaBuild.Builder.AddNode: the parallel arrays are sequences, so that their doubling is not modelled.
- TreeCopies.DuplicateTree: nothing is said of a root that is not on the right spine, for which no caller asks.
- Repeats.DupOp: the tokenizer in front of it is not modelled; the bounds are its input.
- StateTables.StateTable.AcquireState: a bucket is a sequence, and the mask a remainder, as the table size is a power of two; context-dependent states are left out with the anchors.
- RequestPages.PageTable.ResetPages: by column it needs an entry, as the code indexes page -1 when there is none.
- RequestLists.SelectDoc.Reorder: strings are addresses; the character buffer behind them, whose addresses shift when one is deleted, and the pruned list are not modelled.
- Clips.ClipList.Cut: vertical blocks, paste bookmarks, encodings and undo chains are not modelled.
- Paragraphs.Document.Paragraph: where the cursor ends up and the insertion and deletion made for undo are not modelled; one byte is one column.
- Macros.OptimizeMacro: the command tables are parameters, and so is which commands are known ones other than Undo; a long has 64 bits and an int 32.
- SyntaxStates.Document.Update: the syntax parser is an uninterpreted function, and the refresh of the screen is left out.
- Navigation.View.ResyncPos: one byte is one character; syntax refresh and scrolling are left out, and free-form mode does not change in the middle of a run.
- The list of lines in the text store is a sequence of descriptors; the linked nodes are modelled on their own in `ExecLists`, and the pools of line descriptors are not. A pointer into a pool is the pool and an offset.
- Encoding detection, memory maps, file descriptors and write errors of the loaders and savers.
- The fast map of first characters, `parse_expression` and what feeds it, and the matcher.
- `find_matching_bracket`, `word_wrap`, `replace_regexp`, the rewriting of UTF-8 patterns, `shift`, paging commands and `adjust_view`, command line parsing and reading streams from files: they would add members that are easier than those above.
