/** The in-place set operations of the regex compiler over a growing array. */
module NodeArrays {
  import opened NodeSets

  lemma InitOfPrefix(s: seq<int>, i: int)
    requires 0 <= i < |s|
    ensures s[..i + 1] != [] && Init(s[..i + 1]) == s[..i] && Last(s[..i + 1]) == s[i]
  {
  }

  lemma MergedLength(d: seq<int>, s: seq<int>)
    ensures |Merged(d, s)| == |d| + |s|
    decreases |d| + |s|
  {
  }

  /** What is left to do of the downward merge towards `r`: the first `i` and `j` elements. */
  ghost predicate ToMerge(r: seq<int>, d: seq<int>, s: seq<int>, i: int, j: int) {
    && 0 <= i <= |d| && 0 <= j <= |s| && i + j <= |r|
    && r[..i + j] == Merged(d[..i], s[..j])
  }

  lemma MergeStart(d: seq<int>, s: seq<int>)
    ensures |Merged(d, s)| == |d| + |s|
    ensures ToMerge(Merged(d, s), d, s, |d|, |s|)
  {
    MergedLength(d, s);
    var r := Merged(d, s);
    assert d[..|d|] == d && s[..|s|] == s && r[..|r|] == r;
  }

  lemma MergeStep(d: seq<int>, s: seq<int>, i: int, j: int, r: seq<int>)
    requires 0 < i && 0 < j && ToMerge(r, d, s, i, j)
    ensures i <= |d| && j <= |s| && i + j <= |r|
    ensures if s[j - 1] > d[i - 1]
            then r[i + j - 1] == s[j - 1] && ToMerge(r, d, s, i, j - 1)
            else r[i + j - 1] == d[i - 1] && ToMerge(r, d, s, i - 1, j)
  {
    InitOfPrefix(d, i - 1);
    InitOfPrefix(s, j - 1);
    MergedLength(d[..i], s[..j]);
    var m := r[..i + j];
    assert r[i + j - 1] == m[i + j - 1] && r[..i + j - 1] == m[..i + j - 1];
  }

  lemma MergeEnd(d: seq<int>, s: seq<int>, i: int, j: int, r: seq<int>)
    requires (i == 0 || j == 0) && ToMerge(r, d, s, i, j)
    ensures 0 <= i <= |d| && 0 <= j <= |s| && i + j <= |r|
    ensures forall k | 0 <= k < i :: r[k] == d[k]
    ensures forall k | 0 <= k < j :: r[k] == s[k]
  {
    var m := Merged(d[..i], s[..j]);
    assert m == if j == 0 then d[..i] else s[..j];
    assert forall k | 0 <= k < i + j :: r[k] == m[k];
  }

  /** What is left to find of the elements `m` missing: those among the first `i` and `j`. */
  ghost predicate ToFind(m: seq<int>, d: seq<int>, s: seq<int>, i: int, j: int, c: int) {
    && 0 <= i <= |d| && 0 <= j <= |s| && 0 <= c <= |m|
    && m[..c] == Missing(d[..i], s[..j])
  }

  lemma FindStart(d: seq<int>, s: seq<int>)
    ensures ToFind(Missing(d, s), d, s, |d|, |s|, |Missing(d, s)|)
  {
    var m := Missing(d, s);
    assert d[..|d|] == d && s[..|s|] == s && m[..|m|] == m;
  }

  lemma FindStep(d: seq<int>, s: seq<int>, i: int, j: int, m: seq<int>, c: int)
    requires 0 < i && 0 < j && ToFind(m, d, s, i, j, c)
    ensures i <= |d| && j <= |s| && c <= |m|
    ensures if d[i - 1] == s[j - 1] then ToFind(m, d, s, i - 1, j - 1, c)
            else if d[i - 1] < s[j - 1] then 0 < c && m[c - 1] == s[j - 1] && ToFind(m, d, s, i, j - 1, c - 1)
            else ToFind(m, d, s, i - 1, j, c)
  {
    InitOfPrefix(d, i - 1);
    InitOfPrefix(s, j - 1);
    var p := m[..c];
    if d[i - 1] < s[j - 1] {
      assert m[c - 1] == p[c - 1] && m[..c - 1] == p[..c - 1];
    }
  }

  lemma FindEnd(d: seq<int>, s: seq<int>, i: int, j: int, m: seq<int>, c: int)
    requires (i == 0 || j == 0) && ToFind(m, d, s, i, j, c)
    ensures c == j <= |s| && c <= |m|
    ensures forall k | 0 <= k < j :: m[k] == s[k]
  {
    var p := m[..c];
    assert p == s[..j];
    assert forall k | 0 <= k < c :: m[k] == p[k];
  }

  class NodeSet {
    var elems: array<int>
    var nelem: int

    ghost predicate Valid()
      reads this
    {
      0 <= nelem <= elems.Length
    }

    ghost function Contents(): seq<int>
      requires Valid()
      reads this, elems
    {
      elems[..nelem]
    }

    /** The area `[from, to)` of the array holds `s`. */
    ghost predicate Stacked(s: seq<int>, from: int, to: int)
      reads this, elems
    {
      && 0 <= from && to == from + |s| && to <= elems.Length
      && forall k | from <= k < to :: elems[k] == s[k - from]
    }

    constructor ()
      ensures Valid() && fresh(elems) && Contents() == []
    {
      elems := new int[0];
      nelem := 0;
    }

    method Realloc(size: int)
      requires Valid() && elems.Length <= size
      modifies this
      ensures Valid() && fresh(elems) && elems.Length == size && nelem == old(nelem)
      ensures Contents() == old(Contents())
    {
      var bigger := new int[size];
      var i := 0;
      while i < elems.Length
        invariant 0 <= i <= elems.Length
        invariant bigger[..i] == elems[..i]
        modifies bigger
      {
        bigger[i] := elems[i];
        i := i + 1;
      }
      elems := bigger;
    }

    /** Copies `len` bytes inside the array; the source calls memcpy, so the areas must be apart. */
    method Memcpy(to: int, from: int, len: int)
      requires 0 <= len && 0 <= to && to + len <= from && from + len <= elems.Length
      modifies elems
      ensures forall k | to <= k < to + len :: elems[k] == old(elems[k - to + from])
      ensures forall k | 0 <= k < to || to + len <= k < elems.Length :: elems[k] == old(elems[k])
    {
      var i := 0;
      while i < len
        invariant 0 <= i <= len
        invariant forall k | to <= k < to + i :: elems[k] == old(elems[k - to + from])
        invariant forall k | 0 <= k < to || to + i <= k < elems.Length :: elems[k] == old(elems[k])
      {
        elems[to + i] := elems[from + i];
        i := i + 1;
      }
    }

    /** The second half of both merges: the scratch area `[top - count, top)` is merged into the
        elements below it, downwards from the top of the result. The scratch that is still to be
        read stays above the place that is written. */
    method Settle(top: int, count: int, ghost s: seq<int>)
      requires Stacked(s, top - count, top)
      requires Valid() && 0 <= count && nelem + count <= top - count && top <= elems.Length
      modifies this`nelem, elems
      ensures Valid() && nelem == old(nelem) + count
      ensures Contents() == Merged(old(Contents()), s)
    {
      hide Merged, ToMerge;
      var a := elems;
      var n, sbase := nelem, top - count;
      var id, si, delta := n - 1, top - 1, count;
      ghost var d := a[..n];
      ghost var r := Merged(d, s);
      MergeStart(d, s);
      nelem := nelem + delta;
      while delta > 0 && id >= 0
        invariant -1 <= id < n && 0 <= delta <= count && si == sbase + delta - 1
        invariant forall k | 0 <= k <= id :: a[k] == d[k]
        invariant forall k | sbase <= k < sbase + delta :: a[k] == s[k - sbase]
        invariant forall k | id + delta < k < n + count :: a[k] == r[k]
        invariant ToMerge(r, d, s, id + 1, delta)
        modifies a
      {
        MergeStep(d, s, id + 1, delta, r);
        assert id + delta < sbase;
        if a[si] > a[id] {
          a[id + delta] := a[si];
          si := si - 1;
          delta := delta - 1;
        } else {
          a[id + delta] := a[id];
          id := id - 1;
        }
      }
      MergeEnd(d, s, id + 1, delta, r);
      assert forall k | delta <= k < n + count :: a[k] == r[k];
      assert forall k | 0 <= k < delta :: a[sbase + k] == r[k];
      Memcpy(0, sbase, delta);
      assert forall k | 0 <= k < n + count :: a[k] == r[k];
      assert a[..n + count] == r;
    }

    /** re_node_set_merge. */
    method Merge(src: NodeSet)
      requires Valid() && src.Valid() && src != this && src.elems != elems
      modifies this, elems
      ensures Valid() && (elems == old(elems) || fresh(elems))
      ensures Contents() == Merged(old(Contents()), Missing(old(Contents()), src.Contents()))
    {
      hide Merged;
      ghost var d, s := Contents(), src.Contents();
      if src.nelem == 0 {
        MergedNothing(d);
        return;
      }
      if elems.Length < 2 * src.nelem + nelem {
        Realloc(2 * (src.nelem + elems.Length));
      }
      if nelem == 0 {
        CopyFrom(src, 0, src.nelem);
        nelem := src.nelem;
        MergedIntoNothing(s);
        return;
      }
      var top := nelem + 2 * src.nelem;
      var sbase := CollectMissing(src);
      Settle(top, top - sbase, Missing(d, s));
    }

    /** Copies the first `len` elements of `src` to position `to`. */
    method CopyFrom(src: NodeSet, to: int, len: int)
      requires src.Valid() && src.elems != elems
      requires 0 <= len <= src.nelem && 0 <= to && to + len <= elems.Length
      modifies elems
      ensures forall k | to <= k < to + len :: elems[k] == src.elems[k - to]
      ensures forall k | 0 <= k < to || to + len <= k < elems.Length :: elems[k] == old(elems[k])
    {
      var i := 0;
      while i < len
        invariant 0 <= i <= len
        invariant forall k | to <= k < to + i :: elems[k] == src.elems[k - to]
        invariant forall k | 0 <= k < to || to + i <= k < elems.Length :: elems[k] == old(elems[k])
      {
        elems[to + i] := src.elems[i];
        i := i + 1;
      }
    }

    /** The scan of the merge: what `src` adds goes below `top`, until one side is used up; what
        is left of `src` then is missing as well. */
    method ScanMissing(src: NodeSet, top: int, ghost m: seq<int>) returns (sbase: int, si: int)
      requires Valid() && src.Valid() && src.elems != elems
      requires nelem + 2 * src.nelem == top <= elems.Length
      requires m == Missing(Contents(), src.Contents())
      modifies elems
      ensures -1 <= si < src.nelem && nelem + src.nelem + si + 1 <= sbase <= top
      ensures |m| == top - sbase + si + 1
      ensures forall k | 0 <= k < nelem :: elems[k] == old(elems[k])
      ensures forall k | 0 <= k <= si :: m[k] == src.elems[k]
      ensures Stacked(m[si + 1..], sbase, top)
    {
      hide Missing, ToFind;
      var a := elems;
      ghost var d, s := Contents(), src.Contents();
      FindStart(d, s);
      ghost var low := top - |m|;
      sbase := top;
      var id := nelem - 1;
      si := src.nelem - 1;
      while si >= 0 && id >= 0
        invariant -1 <= si < src.nelem && -1 <= id < nelem
        invariant nelem + src.nelem + si + 1 <= sbase <= top && low <= sbase
        invariant forall k | 0 <= k < nelem :: a[k] == d[k]
        invariant forall k | sbase <= k < top :: a[k] == m[k - low]
        invariant ToFind(m, d, s, id + 1, si + 1, sbase - low)
      {
        FindStep(d, s, id + 1, si + 1, m, sbase - low);
        if a[id] == src.elems[si] {
          si := si - 1;
          id := id - 1;
        } else if a[id] < src.elems[si] {
          sbase := sbase - 1;
          a[sbase] := src.elems[si];
          si := si - 1;
        } else {
          id := id - 1;
        }
      }
      FindEnd(d, s, id + 1, si + 1, m, sbase - low);
    }

    /** The first half of the merge: leaves what `src` adds in `[sbase, top)`. */
    method CollectMissing(src: NodeSet) returns (sbase: int)
      requires Valid() && src.Valid() && src.elems != elems
      requires nelem + 2 * src.nelem <= elems.Length
      modifies elems
      ensures nelem + src.nelem <= sbase <= nelem + 2 * src.nelem
      ensures elems[..nelem] == old(elems[..nelem])
      ensures Stacked(Missing(elems[..nelem], src.Contents()), sbase, nelem + 2 * src.nelem)
    {
      hide Missing;
      ghost var d, m := Contents(), Missing(Contents(), src.Contents());
      var si;
      sbase, si := ScanMissing(src, nelem + 2 * src.nelem, m);
      if si >= 0 {
        sbase := sbase - (si + 1);
        CopyFrom(src, sbase, si + 1);
      }
      assert forall k | 0 <= k < nelem :: elems[k] == d[k];
      assert elems[..nelem] == d;
      assert Stacked(m, sbase, nelem + 2 * src.nelem);
    }

    /** re_node_set_add_intersect. */
    method AddIntersect(src1: NodeSet, src2: NodeSet)
      requires Valid() && src1.Valid() && src2.Valid()
      requires src1 != this && src2 != this && src1.elems != elems && src2.elems != elems
      modifies this, elems
      ensures Valid() && (elems == old(elems) || fresh(elems))
      ensures Contents() == Merged(old(Contents()), MissingCommon(old(Contents()), src1.Contents(), src2.Contents()))
    {
      hide Merged, MissingCommon;
      ghost var d, s, t := Contents(), src1.Contents(), src2.Contents();
      if src1.nelem == 0 || src2.nelem == 0 {
        NothingCommon(d, s, t);
        return;
      }
      if src1.nelem + src2.nelem + nelem > elems.Length {
        Realloc(src1.nelem + src2.nelem + elems.Length);
      }
      var top := nelem + src1.nelem + src2.nelem;
      ghost var m := MissingCommon(d, s, t);
      var sbase := CollectCommon(src1, src2, top, m);
      assert elems[..nelem] == d;
      Settle(top, top - sbase, m);
    }

    /** Goes down from `start` past the elements above `x`. */
    method SkipAbove(start: int, x: int) returns (id: int)
      requires Valid() && -1 <= start < nelem
      ensures -1 <= id <= start && (id == -1 || elems[id] <= x)
      ensures forall k | id < k <= start :: elems[k] > x
    {
      id := start;
      while id >= 0 && elems[id] > x
        invariant -1 <= id <= start
        invariant forall k | id < k <= start :: elems[k] > x
      {
        id := id - 1;
      }
    }

    /** The first loop of the intersection: leaves what is to be added in `[sbase, top)`. */
    method CollectCommon(src1: NodeSet, src2: NodeSet, top: int, ghost m: seq<int>) returns (sbase: int)
      requires Valid() && src1.Valid() && src2.Valid() && src1.elems != elems && src2.elems != elems
      requires nelem + src1.nelem + src2.nelem == top <= elems.Length
      requires m == MissingCommon(Contents(), src1.Contents(), src2.Contents())
      modifies elems
      ensures nelem + (top - sbase) <= sbase <= top
      ensures forall k | 0 <= k < nelem :: elems[k] == old(elems[k])
      ensures Stacked(m, sbase, top)
    {
      hide MissingCommon, ToPick;
      var a := elems;
      ghost var d, s, t := Contents(), src1.Contents(), src2.Contents();
      PickStart(d, s, t);
      ghost var low := top - |m|;
      sbase := top;
      var i1, i2, id := src1.nelem - 1, src2.nelem - 1, nelem - 1;
      while i1 >= 0 && i2 >= 0
        invariant -1 <= i1 < src1.nelem && -1 <= i2 < src2.nelem && -1 <= id < nelem
        invariant top - sbase < src1.nelem - i1 && top - sbase < src2.nelem - i2 && low <= sbase <= top
        invariant forall k | 0 <= k < nelem :: a[k] == d[k]
        invariant forall k | sbase <= k < top :: a[k] == m[k - low]
        invariant ToPick(m, d, s, t, id + 1, i1 + 1, i2 + 1, sbase - low)
        decreases i1 + i2
      {
        var x := src1.elems[i1];
        if x == src2.elems[i2] {
          ghost var h := id + 1;
          id := SkipAbove(id, x);
          PickSame(d, s, t, h, id + 1, i1 + 1, i2 + 1, m, sbase - low);
          if id < 0 || a[id] != x {
            sbase := sbase - 1;
            a[sbase] := x;
          }
          i1 := i1 - 1;
          i2 := i2 - 1;
        } else if x < src2.elems[i2] {
          PickOther(d, s, t, id + 1, i1 + 1, i2 + 1, m, sbase - low);
          i2 := i2 - 1;
        } else {
          PickOther(d, s, t, id + 1, i1 + 1, i2 + 1, m, sbase - low);
          i1 := i1 - 1;
        }
      }
      PickEnd(d, s, t, id + 1, i1 + 1, i2 + 1, m, sbase - low);
    }

    /** re_node_set_init_union, on sets that are not NULL. */
    method InitUnion(src1: NodeSet, src2: NodeSet)
      requires src1.Valid() && src2.Valid() && src1 != this && src2 != this
      modifies this
      ensures Valid() && fresh(elems)
      ensures Contents() == United(src1.Contents(), src2.Contents())
    {
      hide United;
      ghost var s, t := src1.Contents(), src2.Contents();
      nelem := 0;
      elems := new int[src1.nelem + src2.nelem];
      var a := elems;
      var i1, i2, id := 0, 0, 0;
      ghost var r := United(s, t);
      UniteStart(s, t);
      while i1 < src1.nelem && i2 < src2.nelem
        invariant 0 <= i1 <= src1.nelem && 0 <= i2 <= src2.nelem && 0 <= id <= i1 + i2
        invariant id <= |r| && forall k | 0 <= k < id :: a[k] == r[k]
        invariant ToUnite(r, s, t, i1, i2, id)
        modifies elems
      {
        UniteStep(r, s, t, i1, i2, id);
        if src1.elems[i1] > src2.elems[i2] {
          a[id] := src2.elems[i2];
          id := id + 1;
          i2 := i2 + 1;
        } else {
          if src1.elems[i1] == src2.elems[i2] {
            i2 := i2 + 1;
          }
          a[id] := src1.elems[i1];
          id := id + 1;
          i1 := i1 + 1;
        }
      }
      UniteEnd(r, s, t, i1, i2, id);
      if i1 < src1.nelem {
        CopyTail(src1, i1, id);
        id := id + src1.nelem - i1;
      } else if i2 < src2.nelem {
        CopyTail(src2, i2, id);
        id := id + src2.nelem - i2;
      }
      nelem := id;
    }

    /** Copies the elements of `src` from `from` on to position `to`. */
    method CopyTail(src: NodeSet, from: int, to: int)
      requires src.Valid() && src.elems != elems
      requires 0 <= from <= src.nelem && 0 <= to && to + src.nelem - from <= elems.Length
      modifies elems
      ensures forall k | to <= k < to + src.nelem - from :: elems[k] == src.elems[k - to + from]
      ensures forall k | 0 <= k < to :: elems[k] == old(elems[k])
    {
      var i := from;
      while i < src.nelem
        invariant from <= i <= src.nelem
        invariant forall k | to <= k < to + i - from :: elems[k] == src.elems[k - to + from]
        invariant forall k | 0 <= k < to :: elems[k] == old(elems[k])
      {
        elems[to + i - from] := src.elems[i];
        i := i + 1;
      }
    }

    /** re_node_set_insert, which leaves an element that is there already in place. */
    method Insert(elem: int)
      requires Valid() && Ordered(Contents(), false)
      modifies this, elems
      ensures Valid() && (elems == old(elems) || fresh(elems))
      ensures Contents() == Inserted(old(Contents()), elem)
    {
      hide Inserted, Place;
      ghost var c := Contents();
      if elems.Length == 0 {
        elems := new int[1];
        elems[0] := elem;
        nelem := 1;
        InsertedForm(Contents(), c, elem);
        return;
      }
      if nelem == 0 {
        elems[0] := elem;
        nelem := 1;
        InsertedForm(Contents(), c, elem);
        return;
      }
      if elems.Length == nelem {
        Realloc(elems.Length * 2);
      }
      var idx := ShiftUp(elem);
      elems[idx] := elem;
      nelem := nelem + 1;
      InsertedForm(Contents(), c, elem);
    }

    /** Moves the elements that follow the new one; the first element is compared separately,
        so that the second loop needs no other check. */
    method ShiftUp(elem: int) returns (idx: int)
      requires Valid() && Ordered(Contents(), false) && 0 < nelem < elems.Length
      modifies elems
      ensures idx == Place(old(Contents()), elem)
      ensures forall k | 0 <= k < idx :: elems[k] == old(elems[k])
      ensures forall k | idx < k <= nelem :: elems[k] == old(elems[k - 1])
    {
      hide Place;
      ghost var c := Contents();
      if elem < elems[0] {
        idx := ShiftAll(c);
        assert forall k | 0 <= k < nelem :: c[0] <= c[k];
      } else {
        idx := ShiftAbove(elem, c);
      }
      PlaceIs(c, elem, idx);
    }

    method ShiftAll(ghost c: seq<int>) returns (idx: int)
      requires Valid() && c == Contents() && nelem < elems.Length
      modifies elems
      ensures idx == 0 && forall k | 0 < k <= nelem :: elems[k] == c[k - 1]
    {
      var a := elems;
      idx := nelem;
      while idx > 0
        invariant 0 <= idx <= nelem
        invariant forall k | 0 <= k < idx :: a[k] == c[k]
        invariant forall k | idx < k <= nelem :: a[k] == c[k - 1]
      {
        a[idx] := a[idx - 1];
        idx := idx - 1;
      }
    }

    method ShiftAbove(elem: int, ghost c: seq<int>) returns (idx: int)
      requires Valid() && c == Contents() && 0 < nelem < elems.Length && elems[0] <= elem
      modifies elems
      ensures 0 < idx <= nelem && c[idx - 1] <= elem && forall k | idx <= k < nelem :: c[k] > elem
      ensures forall k | 0 <= k < idx :: elems[k] == c[k]
      ensures forall k | idx < k <= nelem :: elems[k] == c[k - 1]
    {
      var a := elems;
      idx := nelem;
      while a[idx - 1] > elem
        invariant 0 < idx <= nelem && a[0] == c[0]
        invariant forall k | 0 <= k < idx :: a[k] == c[k]
        invariant forall k | idx < k <= nelem :: a[k] == c[k - 1]
        invariant forall k | idx <= k < nelem :: c[k] > elem
        decreases idx
      {
        a[idx] := a[idx - 1];
        idx := idx - 1;
      }
    }

    /** re_node_set_insert_last. */
    method InsertLast(elem: int)
      requires Valid()
      modifies this, elems
      ensures Valid() && (elems == old(elems) || fresh(elems))
      ensures Contents() == old(Contents()) + [elem]
    {
      if elems.Length == nelem {
        Realloc((elems.Length + 1) * 2);
      }
      elems[nelem] := elem;
      nelem := nelem + 1;
    }

    /** re_node_set_contains: one more than the first place of `elem`, or 0. */
    method Contains(elem: int) returns (r: int)
      requires Valid() && Ordered(Contents(), false)
      ensures r == 0 <==> elem !in Contents()
      ensures r != 0 ==> 0 < r <= nelem && elems[r - 1] == elem && elem !in elems[..r - 1]
    {
      if nelem <= 0 {
        return 0;
      }
      ghost var c := Contents();
      var idx, right := 0, nelem - 1;
      while idx < right
        invariant 0 <= idx <= right < nelem
        invariant forall k | 0 <= k < idx :: c[k] < elem
        invariant right < nelem - 1 ==> elem <= c[right]
      {
        var mid := (idx + right) / 2;
        if elems[mid] < elem {
          idx := mid + 1;
        } else {
          right := mid;
        }
      }
      return if elems[idx] == elem then idx + 1 else 0;
    }

    /** re_node_set_compare, on sets that are not NULL. */
    method Compare(other: NodeSet) returns (same: bool)
      requires Valid() && other.Valid()
      ensures same <==> Contents() == other.Contents()
    {
      if nelem != other.nelem {
        return false;
      }
      var i := nelem - 1;
      while i >= 0
        invariant -1 <= i < nelem
        invariant forall k | i < k < nelem :: elems[k] == other.elems[k]
      {
        if elems[i] != other.elems[i] {
          assert Contents()[i] != other.Contents()[i];
          return false;
        }
        i := i - 1;
      }
      same := true;
    }
  }

  /** Where `x` goes: behind the last element that is not greater. */
  ghost function Place(s: seq<int>, x: int): (i: int)
    ensures 0 <= i <= |s| && (i == 0 || s[i - 1] <= x)
    ensures forall k | i <= k < |s| :: s[k] > x
  {
    if s != [] && Last(s) > x then Place(Init(s), x) else |s|
  }

  lemma PlaceIs(s: seq<int>, x: int, i: int)
    requires Ordered(s, false) && 0 <= i <= |s| && (i == 0 || s[i - 1] <= x)
    requires forall k | i <= k < |s| :: s[k] > x
    ensures i == Place(s, x)
  {
    hide Place;
    var j := Place(s, x);
    if i < j {
      assert false;
    }
  }

  ghost function Inserted(s: seq<int>, x: int): seq<int> {
    s[..Place(s, x)] + [x] + s[Place(s, x)..]
  }

  lemma InsertedForm(r: seq<int>, s: seq<int>, x: int)
    requires |r| == |s| + 1 && r[Place(s, x)] == x
    requires forall k | 0 <= k < Place(s, x) :: r[k] == s[k]
    requires forall k | Place(s, x) < k < |r| :: r[k] == s[k - 1]
    ensures r == Inserted(s, x)
  {
  }

  /** Insertion adds one element to the set and keeps the order; an array without repetitions
      stays so exactly if the element is new. */
  lemma InsertMeans(s: seq<int>, x: int, strict: bool)
    requires Ordered(s, strict)
    ensures Nodes(Inserted(s, x)) == Nodes(s) + {x}
    ensures Ordered(Inserted(s, x), false)
    ensures strict ==> (Ordered(Inserted(s, x), true) <==> x !in Nodes(s))
  {
    hide Nodes, Ordered, Inserted;
    InsertNodes(s, x);
    Relaxed(s, strict);
    InsertOrder(s, x, false);
    if x in Nodes(s) {
      InsertRepeats(s, x, strict);
    } else if strict {
      InsertOrder(s, x, true);
    }
  }

  lemma Relaxed(s: seq<int>, strict: bool)
    requires Ordered(s, strict)
    ensures Ordered(s, false)
  {
  }

  lemma InsertNodes(s: seq<int>, x: int)
    ensures Nodes(Inserted(s, x)) == Nodes(s) + {x}
  {
    hide Place;
    assert s == s[..Place(s, x)] + s[Place(s, x)..];
  }

  lemma InsertOrder(s: seq<int>, x: int, strict: bool)
    requires Ordered(s, strict) && (strict ==> x !in Nodes(s))
    ensures Ordered(Inserted(s, x), strict)
  {
    hide Place, Nodes;
    var i, r := Place(s, x), Inserted(s, x);
    forall k | 0 <= k < i
      ensures s[k] <= x && (strict ==> s[k] != x)
    {
      assert s[k] <= s[i - 1];
      InNodes(s, k);
    }
    forall k | 0 <= k < |r|
      ensures r[k] == if k < i then s[k] else if k == i then x else s[k - 1]
    {
    }
  }

  lemma InNodes(s: seq<int>, k: int)
    requires 0 <= k < |s|
    ensures s[k] in Nodes(s)
  {
  }

  lemma InsertRepeats(s: seq<int>, x: int, strict: bool)
    requires Ordered(s, strict) && x in Nodes(s)
    ensures !Ordered(Inserted(s, x), true)
  {
    hide Place;
    var i, r := Place(s, x), Inserted(s, x);
    var k :| 0 <= k < |s| && s[k] == x;
    assert k < i && r[k] == x && r[i] == x;
  }

  /** What is left to pick from `s` and `t`: the common elements among the first `i` and `j` that
      are not among the first `h` of `d`. */
  ghost predicate ToPick(m: seq<int>, d: seq<int>, s: seq<int>, t: seq<int>, h: int, i: int, j: int, c: int) {
    && 0 <= h <= |d| && 0 <= i <= |s| && 0 <= j <= |t| && 0 <= c <= |m|
    && m[..c] == MissingCommon(d[..h], s[..i], t[..j])
  }

  lemma PickStart(d: seq<int>, s: seq<int>, t: seq<int>)
    ensures ToPick(MissingCommon(d, s, t), d, s, t, |d|, |s|, |t|, |MissingCommon(d, s, t)|)
  {
    var m := MissingCommon(d, s, t);
    assert d[..|d|] == d && s[..|s|] == s && t[..|t|] == t && m[..|m|] == m;
  }

  lemma {:induction false} NotAboveAt(d: seq<int>, x: int, h: int)
    requires 0 <= h <= |d| && (h == 0 || d[h - 1] <= x)
    requires forall k | h <= k < |d| :: d[k] > x
    ensures NotAbove(d, x) == d[..h]
  {
    if h < |d| {
      NotAboveAt(Init(d), x, h);
    }
  }

  lemma PickSame(d: seq<int>, s: seq<int>, t: seq<int>, h: int, h': int, i: int, j: int, m: seq<int>, c: int)
    requires 0 < i && 0 < j && ToPick(m, d, s, t, h, i, j, c)
    requires s[i - 1] == t[j - 1]
    requires 0 <= h' <= h && (h' == 0 || d[h' - 1] <= s[i - 1])
    requires forall k | h' <= k < h :: d[k] > s[i - 1]
    ensures if h' == 0 || d[h' - 1] != s[i - 1]
            then 0 < c <= |m| && m[c - 1] == s[i - 1] && ToPick(m, d, s, t, h', i - 1, j - 1, c - 1)
            else ToPick(m, d, s, t, h', i - 1, j - 1, c)
  {
    InitOfPrefix(s, i - 1);
    InitOfPrefix(t, j - 1);
    var r := NotAbove(d[..h], s[i - 1]);
    NotAboveAt(d[..h], s[i - 1], h');
    assert r == d[..h'];
    var p := m[..c];
    if h' == 0 || d[h' - 1] != s[i - 1] {
      assert m[c - 1] == p[c - 1] && m[..c - 1] == p[..c - 1];
    }
  }

  lemma PickOther(d: seq<int>, s: seq<int>, t: seq<int>, h: int, i: int, j: int, m: seq<int>, c: int)
    requires 0 < i && 0 < j && ToPick(m, d, s, t, h, i, j, c)
    requires s[i - 1] != t[j - 1]
    ensures if s[i - 1] < t[j - 1] then ToPick(m, d, s, t, h, i, j - 1, c) else ToPick(m, d, s, t, h, i - 1, j, c)
  {
    InitOfPrefix(s, i - 1);
    InitOfPrefix(t, j - 1);
  }

  lemma PickEnd(d: seq<int>, s: seq<int>, t: seq<int>, h: int, i: int, j: int, m: seq<int>, c: int)
    requires (i == 0 || j == 0) && ToPick(m, d, s, t, h, i, j, c)
    ensures c == 0
  {
    assert |m[..c]| == 0;
  }

  /** The rest of the ascending union after `i` and `j` elements, of which `c` were kept. */
  ghost predicate ToUnite(r: seq<int>, s: seq<int>, t: seq<int>, i: int, j: int, c: int) {
    && 0 <= i <= |s| && 0 <= j <= |t| && 0 <= c <= |r|
    && r[c..] == United(s[i..], t[j..])
  }

  lemma UniteStart(s: seq<int>, t: seq<int>)
    ensures ToUnite(United(s, t), s, t, 0, 0, 0)
  {
    assert s[0..] == s && t[0..] == t;
  }

  lemma UniteStep(r: seq<int>, s: seq<int>, t: seq<int>, i: int, j: int, c: int)
    requires i < |s| && j < |t| && ToUnite(r, s, t, i, j, c)
    ensures 0 <= i && 0 <= j && 0 <= c < |r|
    ensures if s[i] > t[j] then r[c] == t[j] && ToUnite(r, s, t, i, j + 1, c + 1)
            else r[c] == s[i] && ToUnite(r, s, t, i + 1, if s[i] == t[j] then j + 1 else j, c + 1)
  {
    assert s[i..][1..] == s[i + 1..] && t[j..][1..] == t[j + 1..];
    var p := r[c..];
    assert r[c + 1..] == p[1..] && r[c] == p[0];
  }

  lemma UniteEnd(r: seq<int>, s: seq<int>, t: seq<int>, i: int, j: int, c: int)
    requires (i == |s| || j == |t|) && ToUnite(r, s, t, i, j, c)
    ensures 0 <= i <= |s| && 0 <= j <= |t| && |r| == c + |s| - i + |t| - j
    ensures forall k | c <= k < |r| :: r[k] == if i < |s| then s[k - c + i] else t[k - c + j]
  {
    var p := r[c..];
    assert p == if i < |s| then s[i..] else t[j..];
    assert forall k | c <= k < |r| :: r[k] == p[k - c];
  }

  lemma NothingCommon(d: seq<int>, s: seq<int>, t: seq<int>)
    requires s == [] || t == []
    ensures Merged(d, MissingCommon(d, s, t)) == d
  {
  }

  /** What the in-place merge leaves: a sorted array of the union, and for arrays without
      repetitions the very array that the ascending pass builds. */
  lemma MergeIsUnion(d: seq<int>, s: seq<int>, strict: bool)
    requires Ordered(d, strict) && Ordered(s, strict)
    ensures Nodes(Merged(d, Missing(d, s))) == Nodes(d) + Nodes(s)
    ensures Ordered(Merged(d, Missing(d, s)), strict)
    ensures strict ==> Merged(d, Missing(d, s)) == United(d, s)
  {
    hide Nodes, Ordered, Missing, Merged, United;
    MissingMeans(d, s, strict);
    MergedMeans(d, Missing(d, s), strict);
    UnitedMeans(d, s, strict);
    if strict {
      CanonicalArray(Merged(d, Missing(d, s)), United(d, s));
    }
  }

  lemma AddIntersectMeans(d: seq<int>, s: seq<int>, t: seq<int>, strict: bool)
    requires Ordered(d, strict) && Ordered(s, strict) && Ordered(t, strict)
    ensures Nodes(Merged(d, MissingCommon(d, s, t))) == Nodes(d) + Nodes(s) * Nodes(t)
    ensures Ordered(Merged(d, MissingCommon(d, s, t)), strict)
  {
    hide Nodes, Ordered, MissingCommon, Merged;
    MissingCommonMeans(d, s, t, strict);
    MergedMeans(d, MissingCommon(d, s, t), strict);
  }

  lemma MergedNothing(d: seq<int>)
    ensures Merged(d, Missing(d, [])) == d
  {
  }

  lemma MergedIntoNothing(s: seq<int>)
    ensures Merged([], Missing([], s)) == s
  {
  }
}
