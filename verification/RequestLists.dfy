/** Lists of strings a requester shows: adding in order, and reordering with a map kept to the
    original order. Strings in a working list are known by their addresses. */
module RequestLists {
  import opened Sequences

  // ---- Adding

  /** `cmp` orders strings as strcmp() and its kin do. */
  ghost predicate Comparison(cmp: (string, string) -> int) {
    && (forall a, b :: cmp(a, b) > 0 <==> cmp(b, a) < 0)
    && (forall a, b, c :: cmp(a, b) <= 0 && cmp(b, c) <= 0 ==> cmp(a, c) <= 0)
  }

  ghost predicate Sorted(s: seq<string>, cmp: (string, string) -> int) {
    forall i, j | 0 <= i <= j < |s| :: cmp(s[i], s[j]) <= 0
  }

  function Inserted<T>(s: seq<T>, k: nat, x: T): (r: seq<T>)
    requires k <= |s|
    ensures multiset(r) == multiset(s) + multiset{x}
  {
    assert s == s[..k] + s[k..];
    s[..k] + [x] + s[k..]
  }

  /** Where req_list_add() puts a string: after an equal one if the bisection meets one. */
  method InsertionPoint(s: seq<string>, str: string, cmp: (string, string) -> int) returns (ins: nat, met: int)
    requires Comparison(cmp) && Sorted(s, cmp)
    ensures ins <= |s| && Sorted(Inserted(s, ins, str), cmp)
    ensures met >= 0 ==> met < |s| && ins == met + 1 && cmp(str, s[met]) == 0
    ensures met < 0 <==> forall i | 0 <= i < |s| :: cmp(str, s[i]) != 0
  {
    var l, m, r := 0, 0, |s| - 1;
    met := -1;
    while l <= r
      invariant 0 <= l <= r + 1 <= |s| && met == -1
      invariant forall i | 0 <= i < l :: cmp(str, s[i]) > 0
      invariant forall i | r < i < |s| :: cmp(str, s[i]) < 0
      invariant l > r ==> if r < m then m == l else m + 1 == l
      invariant l > r ==> 0 <= m
      decreases r - l
    {
      m := (r + l) / 2;
      var c := cmp(str, s[m]);
      if c < 0 {
        r := m - 1;
      } else if c > 0 {
        l := m + 1;
      } else {
        met := m;
        ins := m + 1;
        InsertedSorted(s, ins, str, cmp);
        return;
      }
    }
    ins := if r < m then m else m + 1;
    InsertedSorted(s, ins, str, cmp);
  }

  lemma InsertedSorted(s: seq<string>, k: nat, str: string, cmp: (string, string) -> int)
    requires Comparison(cmp) && Sorted(s, cmp) && k <= |s|
    requires forall i | 0 <= i < k :: cmp(s[i], str) <= 0
    requires forall i | k <= i < |s| :: cmp(str, s[i]) <= 0
    ensures Sorted(Inserted(s, k, str), cmp)
  {
  }

  /** The list while it is being built. */
  class ReqList {
    const ordered: bool
    const cmp: (string, string) -> int
    const allowDupes: bool
    const suffix: bool
    var entries: seq<string>
    var lengths: seq<int>

    ghost predicate Valid()
      reads this
    {
      |entries| == |lengths| && (ordered ==> Comparison(cmp) && Sorted(entries, cmp))
    }

    /** Whether the list takes two strings for the same. */
    predicate Same(a: string, b: string) {
      if ordered then cmp(a, b) == 0 else b == a
    }

    /** req_list_add(): the index of the string added, or of the one it duplicates. */
    method Add(str: string, marked: bool) returns (at: nat)
      requires Valid()
      modifies this
      ensures Valid() && at < |entries|
      ensures var dup := !allowDupes && exists i | 0 <= i < |old(entries)| :: Same(str, old(entries)[i]);
              if dup then entries == old(entries) && lengths == old(lengths) && Same(str, entries[at])
              else at <= |old(entries)| && (!ordered ==> at == |old(entries)|)
                   && entries == Inserted(old(entries), at, str)
                   && lengths == Inserted(old(lengths), at, |str| + if suffix && marked then 3 else 2)
    {
      var ins, met;
      if ordered {
        ins, met := InsertionPoint(entries, str, cmp);
      } else {
        ins, met := |entries|, -1;
        if !allowDupes {
          for i := 0 to |entries|
            invariant forall j | 0 <= j < i :: entries[j] != str
          {
            if entries[i] == str {
              return i;
            }
          }
        }
      }
      if met >= 0 && !allowDupes {
        assert Same(str, entries[met]);
        return met;
      }
      entries := Inserted(entries, ins, str);
      lengths := Inserted(lengths, ins, |str| + if suffix && marked then 3 else 2);
      return ins;
    }
  }

  // ---- Reordering

  /** `r` numbers the places 0 to |r| - 1, each once. */
  ghost predicate Permutation(r: seq<int>) {
    && (forall i | 0 <= i < |r| :: 0 <= r[i] < |r|)
    && (forall i, j | 0 <= i < j < |r| :: r[i] != r[j])
  }

  /** The element at `a` is taken out and put back at `b`. */
  function Moved<T>(s: seq<T>, a: nat, b: nat): seq<T>
    requires a < |s| && b < |s|
  {
    Without(s, a)[..b] + [s[a]] + Without(s, a)[b..]
  }

  lemma MovedAt<T>(s: seq<T>, a: nat, b: nat, i: nat)
    requires a < |s| && b < |s| && i < |s|
    ensures |Moved(s, a, b)| == |s|
    ensures Moved(s, a, b)[i] == if i == b then s[a] else if a <= i < b then s[i + 1] else if b < i <= a then s[i - 1] else s[i]
  {
  }

  lemma MovedNowhere<T>(s: seq<T>, a: nat)
    requires a < |s|
    ensures Moved(s, a, a) == s
  {
  }

  /** One swap further on. */
  lemma MovedStep<T>(s: seq<T>, a: nat, b: nat, c: nat)
    requires a < |s| && b < |s| && c < |s| && (a <= b == c - 1 || c + 1 == b <= a)
    ensures |Moved(s, a, b)| == |s|
    ensures Moved(s, a, c) == Moved(s, a, b)[b := Moved(s, a, b)[c]][c := Moved(s, a, b)[b]]
  {
    MovedAt(s, a, b, b);
    MovedAt(s, a, b, c);
    forall i | 0 <= i < |s|
      ensures Moved(s, a, c)[i] == Moved(s, a, b)[b := Moved(s, a, b)[c]][c := Moved(s, a, b)[b]][i]
    {
      MovedAt(s, a, b, i);
      MovedAt(s, a, c, i);
    }
    MovedAt(s, a, c, 0);
  }

  /** The numbers a permutation leaves when one of its places is given up. */
  function Dropped(r: seq<int>, k: nat): seq<int>
    requires k < |r|
  {
    var s := Without(r, k);
    seq(|s|, i requires 0 <= i < |s| => if s[i] < r[k] then s[i] else s[i] - 1)
  }

  lemma DroppedIsPermutation(r: seq<int>, k: nat)
    requires k < |r| && Permutation(r)
    ensures Permutation(Dropped(r, k))
  {
    var s, d := Without(r, k), Dropped(r, k);
    forall i | 0 <= i < |s|
      ensures s[i] != r[k] && 0 <= s[i] < |r| && 0 <= d[i] < |d|
    {
      assert s[i] == r[if i < k then i else i + 1];
    }
    forall i, j | 0 <= i < j < |d|
      ensures d[i] != d[j]
    {
      assert s[i] == r[if i < k then i else i + 1] && s[j] == r[if j < k then j else j + 1];
    }
  }

  /** Element `i` of `orig` is shown at `reorder[i]`. */
  ghost predicate Shown<T>(shown: seq<T>, orig: seq<T>, reorder: seq<int>) {
    |shown| == |orig| == |reorder| && Permutation(reorder) && forall i | 0 <= i < |orig| :: shown[reorder[i]] == orig[i]
  }

  predicate Apart(s: seq<int>) {
    forall i, j | 0 <= i < j < |s| :: s[i] != s[j]
  }

  lemma ApartDropped(s: seq<int>, k: nat)
    requires k < |s| && Apart(s)
    ensures Apart(Without(s, k))
  {
    forall i | 0 <= i < |s| - 1
      ensures Without(s, k)[i] == s[if i < k then i else i + 1]
    {
    }
  }

  /** Strings at different addresses are shown at different places. */
  lemma OneAddress(shown: seq<int>, orig: seq<int>, reorder: seq<int>, n: nat)
    requires Shown(shown, orig, reorder) && Apart(orig) && n < |shown|
    ensures forall k | 0 <= k < |shown| && k != n :: shown[k] != shown[n]
  {
    var i := EveryPlace(reorder, n);
    forall k | 0 <= k < |shown| && k != n
      ensures shown[k] != shown[n]
    {
      var j := EveryPlace(reorder, k);
      assert orig[i] != orig[j];
    }
  }

  /** Is `name` in the list and `doc` the document it names? */
  ghost predicate Names(names: seq<int>, docs: seq<int>, name: int, doc: int) {
    exists i | 0 <= i < |names| && i < |docs| :: names[i] == name && docs[i] == doc
  }

  /** Swapping two places of the list and the two numbers that refer to them. */
  lemma SwapShown<T>(shown: seq<T>, orig: seq<T>, reorder: seq<int>, a: nat, b: nat)
    requires Shown(shown, orig, reorder) && a < |orig| && b < |orig| && a != b
    ensures 0 <= reorder[a] < |orig| && 0 <= reorder[b] < |orig|
    ensures Shown(shown[reorder[a] := shown[reorder[b]]][reorder[b] := shown[reorder[a]]], orig,
                  reorder[a := reorder[b]][b := reorder[a]])
  {
  }

  /** Dropping an element and its place. */
  lemma DropShown<T>(shown: seq<T>, orig: seq<T>, reorder: seq<int>, k: nat)
    requires Shown(shown, orig, reorder) && k < |orig|
    ensures 0 <= reorder[k] < |orig| && Shown(Without(shown, reorder[k]), Without(orig, k), Dropped(reorder, k))
  {
    DroppedIsPermutation(reorder, k);
    var d, v := Dropped(reorder, k), reorder[k];
    forall i | 0 <= i < |d|
      ensures Without(shown, v)[d[i]] == Without(orig, k)[i]
    {
      var j := if i < k then i else i + 1;
      assert Without(reorder, k)[i] == reorder[j] && Without(orig, k)[i] == orig[j] && reorder[j] != v;
    }
  }

  /** Every place is some element's. */
  lemma {:induction false} EveryPlace(r: seq<int>, n: int) returns (i: nat)
    requires Permutation(r) && 0 <= n < |r|
    ensures i < |r| && r[i] == n
    decreases |r|
  {
    var last := |r| - 1;
    if r[last] == n {
      return last;
    }
    DroppedIsPermutation(r, last);
    var m := if n < r[last] then n else n - 1;
    i := EveryPlace(Dropped(r, last), m);
    assert Without(r, last)[i] == r[i] && r[i] != r[last];
  }

  /** The document requester: the working list, the original list and the map between them. */
  class SelectDoc {
    var entries: array<int>
    var lengths: array<int>
    var orig: array<int>
    var origLengths: array<int>
    var reorder: array<int>
    var count: nat

    ghost predicate Sized()
      reads this
    {
      && count <= entries.Length && count <= lengths.Length && count <= orig.Length
      && count <= origLengths.Length && count <= reorder.Length
      && entries != lengths && entries != orig && entries != origLengths && entries != reorder
      && lengths != orig && lengths != origLengths && lengths != reorder
      && orig != origLengths && orig != reorder && origLengths != reorder
    }

    /** The strings are at different addresses, and shown where the map says, with their lengths. */
    ghost predicate Valid()
      reads this, entries, lengths, orig, origLengths, reorder
    {
      && Sized() && Shown(entries[..count], orig[..count], reorder[..count])
      && Shown(lengths[..count], origLengths[..count], reorder[..count]) && Apart(orig[..count])
    }

    /** reorder_referent(): the original index of the `n`-th string shown. */
    method Referent(n: nat) returns (i: nat)
      requires Valid() && n < count
      ensures i < count && reorder[i] == n && orig[i] == entries[n]
    {
      ghost var w := EveryPlace(reorder[..count], n);
      i := 0;
      while i < count
        invariant i <= w
      {
        if reorder[i] == n {
          return;
        }
        i := i + 1;
      }
    }

    /** One round of the loop of request_reorder(). */
    method Swap(cur: nat, nxt: nat)
      requires Valid() && cur < count && nxt < count && cur != nxt
      modifies entries, lengths, reorder
      ensures Valid()
      ensures entries[..count] == old(entries[..count])[cur := old(entries[nxt])][nxt := old(entries[cur])]
      ensures lengths[..count] == old(lengths[..count])[cur := old(lengths[nxt])][nxt := old(lengths[cur])]
    {
      var a := Referent(cur);
      var b := Referent(nxt);
      SwapShown(entries[..count], orig[..count], reorder[..count], a, b);
      SwapShown(lengths[..count], origLengths[..count], reorder[..count], a, b);
      ghost var r := reorder[..count][a := nxt][b := cur];
      reorder[a], reorder[b] := nxt, cur;
      ghost var e := entries[..count][cur := entries[nxt]][nxt := entries[cur]];
      entries[cur], entries[nxt] := entries[nxt], entries[cur];
      ghost var l := lengths[..count][cur := lengths[nxt]][nxt := lengths[cur]];
      lengths[cur], lengths[nxt] := lengths[nxt], lengths[cur];
      assert reorder[..count] == r && entries[..count] == e && lengths[..count] == l;
    }

    /** request_reorder(): moves an entry one place on, round the end if need be. */
    method Reorder(n0: nat, dir: int) returns (fin: nat)
      requires Valid() && n0 < count && 2 <= count && (dir == 1 || dir == -1)
      modifies entries, lengths, reorder
      ensures Valid() && fin == (n0 + dir) % count
      ensures entries[..count] == Moved(old(entries[..count]), n0, fin)
      ensures lengths[..count] == Moved(old(lengths[..count]), n0, fin)
    {
      hide Shown, Moved, Permutation;
      fin := (n0 + dir + count) % count;
      Wrapped(n0, dir, count);
      var step := if n0 > fin then -1 else 1;
      ghost var was, wasLengths := entries[..count], lengths[..count];
      var cur := n0;
      MovedNowhere(was, n0);
      MovedNowhere(wasLengths, n0);
      while cur != fin
        invariant Valid() && 0 <= cur < count && (if n0 > fin then fin <= cur <= n0 else n0 <= cur <= fin)
        invariant entries[..count] == Moved(was, n0, cur) && lengths[..count] == Moved(wasLengths, n0, cur)
        decreases if cur < fin then fin - cur else cur - fin
      {
        MovedStep(was, n0, cur, cur + step);
        MovedStep(wasLengths, n0, cur, cur + step);
        Swap(cur, cur + step);
        cur := cur + step;
      }
    }

    /** The original index of the string at an address. */
    method Find(p: int, ghost w: nat) returns (o: nat)
      requires Sized() && Apart(orig[..count]) && w < count && orig[w] == p
      ensures o == w
    {
      o := 0;
      while o < count && orig[o] != p
        invariant o <= w
      {
        o := o + 1;
      }
      assert orig[..count][o] == orig[..count][w];
    }

    /** Drops the string at address `p`, the `n`-th, with its length from the working list. */
    method DropEntry(p: int, ghost n: nat)
      requires Sized() && n < count && entries[n] == p && forall k | 0 <= k < count && k != n :: entries[k] != p
      modifies entries, lengths
      ensures entries[..count - 1] == Without(old(entries[..count]), n)
      ensures lengths[..count - 1] == Without(old(lengths[..count]), n)
    {
      ghost var es, ls := entries[..count], lengths[..count];
      var j := 0;
      for i := 0 to count
        invariant j == if i <= n then i else i - 1
        invariant forall k | i <= k < count :: entries[k] == es[k] && lengths[k] == ls[k]
        invariant forall k | 0 <= k < j :: entries[k] == es[if k < n then k else k + 1] && lengths[k] == ls[if k < n then k else k + 1]
      {
        if p != entries[i] {
          entries[j], lengths[j] := entries[i], lengths[i];
          j := j + 1;
        }
      }
      assert forall k | 0 <= k < count - 1 :: Without(es, n)[k] == es[if k < n then k else k + 1];
      assert forall k | 0 <= k < count - 1 :: Without(ls, n)[k] == ls[if k < n then k else k + 1];
    }

    /** Closing the document shown at `n`: handle_closedoc() drops it from the working list and
        req_list_del() from the original one and the map. */
    method Close(n: nat) returns (o: nat)
      requires Valid() && n < count
      modifies this`count, entries, lengths, orig, origLengths, reorder
      ensures Valid() && count == old(count) - 1
      ensures o < old(count) && old(orig[o]) == old(entries[n])
      ensures entries[..count] == Without(old(entries[..count]), n) && lengths[..count] == Without(old(lengths[..count]), n)
      ensures orig[..count] == Without(old(orig[..count]), o) && origLengths[..count] == Without(old(origLengths[..count]), o)
      ensures reorder[..count] == Dropped(old(reorder[..count]), o)
    {
      hide Permutation, Shown, Without, Dropped;
      var p := entries[n];
      ghost var w := Referent(n);
      o := Find(p, w);
      ghost var shown, shownLengths, were, wereLengths, map0 := entries[..count], lengths[..count], orig[..count], origLengths[..count], reorder[..count];
      DropShown(shown, were, map0, o);
      DropShown(shownLengths, wereLengths, map0, o);
      ApartDropped(were, o);
      OneAddress(shown, were, map0, n);
      DropEntry(p, n);
      Renumber(o);
      Compact(orig, o, count);
      Compact(origLengths, o, count);
      count := count - 1;
    }

    /** The loop of req_list_del() over the map, in place. */
    method Renumber(nth: nat)
      requires Sized() && nth < count
      modifies reorder
      ensures reorder[..count - 1] == Dropped(old(reorder[..count]), nth)
    {
      var val := reorder[nth];
      var i, j := 0, 0;
      while i < count
        invariant i <= count && j == (if i <= nth then i else i - 1)
        invariant forall k | i <= k < count :: reorder[k] == old(reorder[k])
        invariant forall k | 0 <= k < j ::
          var v := old(reorder[..count])[if k < nth then k else k + 1]; reorder[k] == if v < val then v else v - 1
      {
        if i == nth {
          j := j - 1;
        } else {
          reorder[j] := if reorder[i] < val then reorder[i] else reorder[i] - 1;
        }
        i, j := i + 1, j + 1;
      }
      forall k | 0 <= k < count - 1
        ensures reorder[k] == Dropped(old(reorder[..count]), nth)[k]
      {
        assert Without(old(reorder[..count]), nth)[k] == old(reorder[..count])[if k < nth then k else k + 1];
      }
    }

    /** The end of request_document(): the documents, in the order of the original list, are relinked
        in the order shown, the original list being overwritten on the way. Document `j` of `docs` is the one named by `orig[j]`. */
    method Relink(docs: seq<int>) returns (linked: seq<int>)
      requires Valid() && |docs| == count
      modifies orig
      ensures Shown(linked, docs, reorder[..count])
      ensures forall j | 0 <= j < count :: Names(old(orig[..count]), docs, entries[j], linked[j])
    {
      ghost var shown, names := entries[..count], orig[..count];
      for j := 0 to count
        invariant forall i | 0 <= i < j :: orig[reorder[i]] == docs[i]
      {
        var place := reorder[..count][j];
        orig[place] := docs[j];
      }
      linked := [];
      for j := 0 to count
        invariant |linked| == j && forall i | 0 <= i < j :: linked[i] == orig[i]
      {
        linked := linked + [orig[j]];
      }
      forall j | 0 <= j < count
        ensures Names(names, docs, entries[j], linked[j])
      {
        var i := EveryPlace(reorder[..count], j);
        assert reorder[..count][i] == reorder[i] == j;
        assert shown[reorder[..count][i]] == names[i];
        assert names[i] == entries[j] && linked[j] == docs[i];
      }
    }
  }

  /** memmove() of what follows an element onto it. */
  method Compact(a: array<int>, k: nat, n: nat)
    requires k < n <= a.Length
    modifies a
    ensures a[..n - 1] == Without(old(a[..n]), k)
  {
    for i := k + 1 to n
      invariant forall j | 0 <= j < k :: a[j] == old(a[j])
      invariant forall j | k <= j < i - 1 :: a[j] == old(a[j + 1])
      invariant forall j | i <= j < n :: a[j] == old(a[j])
    {
      a[i - 1] := a[i];
    }
    ghost var rest := Without(old(a[..n]), k);
    assert |rest| == n - 1 && forall j | 0 <= j < n - 1 :: rest[j] == old(a[if j < k then j else j + 1]);
    assert forall j | 0 <= j < n - 1 :: a[j] == rest[j];
  }

  lemma Wrapped(n0: nat, dir: int, count: nat)
    requires n0 < count && 2 <= count && (dir == 1 || dir == -1)
    ensures var f := (n0 + dir + count) % count;
            f == (n0 + dir) % count
            && f == if n0 + dir < 0 then count - 1 else if n0 + dir == count then 0 else n0 + dir
  {
  }
}
