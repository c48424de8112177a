/** The scan of one line by the simplified Boyer-Moore search, in both directions, over a skip
    table that need not have been built for the same pattern and case folding. */
module Horspool {
  import opened FlatText

  /** A case folding of bytes; the identity when case counts. */
  type Fold = f: seq<byte> | |f| == 256 witness seq(256, i => 0)

  function Conv(f: Fold, c: byte): byte {
    f[c as int]
  }

  /** The pattern `pat` stands at `k` up to folding. */
  ghost predicate Occurs(text: seq<byte>, pat: seq<byte>, f: Fold, k: int) {
    && 0 <= k && k + |pat| <= |text|
    && forall i | 0 <= i < |pat| :: Conv(f, text[k + i]) == Conv(f, pat[i])
  }

  type Table = d: seq<int> | |d| == 256 && (forall c | 0 <= c < 256 :: d[c] > 0) witness seq(256, i => 1)

  /** No shift is longer than the pattern, as in every table built for a pattern of its length. */
  ghost predicate Bounded(d: Table, pat: seq<byte>) {
    forall c | 0 <= c < 256 :: d[c] <= |pat|
  }

  /** What the table must promise for a forward scan: no shift passes over a place in the pattern
      that holds the byte just read. */
  ghost predicate FitsForward(d: Table, pat: seq<byte>, f: Fold) {
    forall i | 0 <= i < |pat| - 1 :: d[Conv(f, pat[i]) as int] <= |pat| - 1 - i
  }

  ghost predicate FitsBackward(d: Table, pat: seq<byte>, f: Fold) {
    forall i | 0 < i < |pat| :: d[Conv(f, pat[i]) as int] <= i
  }

  /** The window ending at `p` is compared from the end. */
  method CompareBack(text: seq<byte>, p: int, pat: seq<byte>, f: Fold) returns (same: bool)
    requires 0 < |pat| && |pat| - 1 <= p < |text|
    requires Conv(f, text[p]) == Conv(f, pat[|pat| - 1])
    ensures same <==> Occurs(text, pat, f, p - |pat| + 1)
  {
    var m, i := |pat|, 1;
    while i < m
      invariant 1 <= i <= m
      invariant forall j | m - i <= j < m :: Conv(f, text[p - m + 1 + j]) == Conv(f, pat[j])
    {
      if Conv(f, text[p - i]) != Conv(f, pat[m - i - 1]) {
        assert Conv(f, text[p - m + 1 + (m - i - 1)]) != Conv(f, pat[m - i - 1]);
        return false;
      }
      i := i + 1;
    }
    same := true;
  }

  /** The forward scan: the result of the scan from window end `p`, or -1. */
  ghost function Forward(text: seq<byte>, p: int, pat: seq<byte>, d: Table, f: Fold): int
    requires 0 < |pat| && |pat| - 1 <= p
    decreases |text| - p
  {
    if p >= |text| then -1
    else if Occurs(text, pat, f, p - |pat| + 1) then p - |pat| + 1
    else Forward(text, p + d[Conv(f, text[p]) as int], pat, d, f)
  }

  method ScanForward(text: seq<byte>, start: int, pat: seq<byte>, d: array<int>, f: Fold, ghost t: Table) returns (r: int)
    requires 0 < |pat| && |pat| - 1 <= start && d[..] == t
    ensures r == Forward(text, start, pat, t, f)
  {
    var p := start;
    var firstChar := Conv(f, pat[|pat| - 1]);
    while p < |text|
      invariant |pat| - 1 <= p
      invariant Forward(text, start, pat, t, f) == Forward(text, p, pat, t, f)
      decreases |text| - p
    {
      var c := Conv(f, text[p]);
      assert d[c as int] == t[c as int];
      if c != firstChar {
        assert !Occurs(text, pat, f, p - |pat| + 1) by {
          assert Conv(f, text[p - |pat| + 1 + (|pat| - 1)]) != Conv(f, pat[|pat| - 1]);
        }
        p := p + d[c as int];
      } else {
        var same := CompareBack(text, p, pat, f);
        if same {
          return p - |pat| + 1;
        }
        p := p + d[c as int];
      }
    }
    return -1;
  }

  /** `r` is the first occurrence from `from` on, or -1 if there is none. */
  ghost predicate IsFirst(text: seq<byte>, pat: seq<byte>, f: Fold, from: int, r: int) {
    && (r == -1 || (from <= r && Occurs(text, pat, f, r)))
    && forall k | from <= k && (r == -1 || k < r) :: !Occurs(text, pat, f, k)
  }

  /** `r` is the last occurrence up to `from`, or -1 if there is none. */
  ghost predicate IsLast(text: seq<byte>, pat: seq<byte>, f: Fold, from: int, r: int) {
    && (r == -1 || (r <= from && Occurs(text, pat, f, r)))
    && forall k | r < k <= from :: !Occurs(text, pat, f, k)
  }

  /** With a fitting table the scan finds what a byte-by-byte scan would find. */
  lemma {:induction false} ForwardFinds(text: seq<byte>, p: int, pat: seq<byte>, d: Table, f: Fold)
    requires 0 < |pat| && |pat| - 1 <= p && FitsForward(d, pat, f) && Bounded(d, pat)
    ensures IsFirst(text, pat, f, p - |pat| + 1, Forward(text, p, pat, d, f))
    decreases |text| - p
  {
    var m := |pat|;
    if p < |text| && !Occurs(text, pat, f, p - m + 1) {
      var s := d[Conv(f, text[p]) as int];
      ForwardFinds(text, p + s, pat, d, f);
      forall k | p - m + 1 < k < p + s - m + 1
        ensures !Occurs(text, pat, f, k)
      {
        if k + m <= |text| {
          assert d[Conv(f, pat[p - k]) as int] <= m - 1 - (p - k);
          NoMatch(text, pat, f, k, p - k);
        }
      }
    }
  }

  /** A text the forward scan gets wrong with a table that does not fit: the pattern behind
      `m - 1 - i` bytes that keep the first window from matching. */
  lemma MissedForward(d: Table, pat: seq<byte>, f: Fold, i: int, other: byte) returns (text: seq<byte>)
    requires 0 <= i < |pat| - 1 && d[Conv(f, pat[i]) as int] > |pat| - 1 - i
    requires Conv(f, other) != Conv(f, pat[0])
    ensures Occurs(text, pat, f, |pat| - 1 - i)
    ensures Forward(text, |pat| - 1, pat, d, f) == -1
    ensures forall k | 0 <= k < |text| :: text[k] == other || text[k] in pat
  {
    var m, s := |pat|, |pat| - 1 - i;
    text := seq(s, _ => other) + pat;
    assert forall k | 0 <= k < m :: text[s + k] == pat[k];
    NoMatch(text, pat, f, 0, 0);
    assert text[s + i] == pat[i];
    assert Forward(text, m - 1, pat, d, f) == Forward(text, m - 1 + d[Conv(f, pat[i]) as int], pat, d, f);
  }

  lemma NoMatch(text: seq<byte>, pat: seq<byte>, f: Fold, k: int, i: int)
    requires 0 <= k && k + |pat| <= |text| && 0 <= i < |pat| && Conv(f, text[k + i]) != Conv(f, pat[i])
    ensures !Occurs(text, pat, f, k)
  {
  }

  /** The forward scan is right on every text exactly if the table fits. Any byte that folds
      differently from the first one of the pattern will do as `other`. */
  lemma ForwardExactIffFits(d: Table, pat: seq<byte>, f: Fold, other: byte)
    requires 0 < |pat| && Bounded(d, pat) && Conv(f, other) != Conv(f, pat[0])
    ensures FitsForward(d, pat, f) <==>
            forall text, p | |pat| - 1 <= p :: IsFirst(text, pat, f, p - |pat| + 1, Forward(text, p, pat, d, f))
  {
    hide Forward, IsFirst, Occurs, Conv, Bounded;
    if FitsForward(d, pat, f) {
      forall text, p | |pat| - 1 <= p
        ensures IsFirst(text, pat, f, p - |pat| + 1, Forward(text, p, pat, d, f))
      {
        ForwardFinds(text, p, pat, d, f);
      }
    } else {
      var i :| 0 <= i < |pat| - 1 && d[Conv(f, pat[i]) as int] > |pat| - 1 - i;
      var text := MissedForward(d, pat, f, i, other);
      var p := |pat| - 1;
      NotFirst(text, pat, f, p - |pat| + 1, p - i);
      assert !IsFirst(text, pat, f, p - |pat| + 1, Forward(text, p, pat, d, f));
    }
  }

  lemma NotFirst(text: seq<byte>, pat: seq<byte>, f: Fold, from: int, k: int)
    requires from <= k && Occurs(text, pat, f, k)
    ensures !IsFirst(text, pat, f, from, -1)
  {
  }

  /** The window beginning at `p` is compared from its start. */
  method CompareOn(text: seq<byte>, p: int, pat: seq<byte>, f: Fold) returns (same: bool)
    requires 0 < |pat| && 0 <= p && p + |pat| <= |text|
    requires Conv(f, text[p]) == Conv(f, pat[0])
    ensures same <==> Occurs(text, pat, f, p)
  {
    var m, i := |pat|, 1;
    while i < m
      invariant 1 <= i <= m
      invariant forall j | 0 <= j < i :: Conv(f, text[p + j]) == Conv(f, pat[j])
    {
      if Conv(f, text[p + i]) != Conv(f, pat[i]) {
        return false;
      }
      i := i + 1;
    }
    same := true;
  }

  ghost function Backward(text: seq<byte>, p: int, pat: seq<byte>, d: Table, f: Fold): int
    requires 0 < |pat| && p + |pat| <= |text|
    decreases p
  {
    if p < 0 then -1
    else if Occurs(text, pat, f, p) then p
    else Backward(text, p - d[Conv(f, text[p]) as int], pat, d, f)
  }

  method ScanBackward(text: seq<byte>, start: int, pat: seq<byte>, d: array<int>, f: Fold, ghost t: Table) returns (r: int)
    requires 0 < |pat| && start + |pat| <= |text| && d[..] == t
    ensures r == Backward(text, start, pat, t, f)
  {
    var p := start;
    var firstChar := Conv(f, pat[0]);
    while p >= 0
      invariant p + |pat| <= |text|
      invariant Backward(text, start, pat, t, f) == Backward(text, p, pat, t, f)
      decreases p
    {
      var c := Conv(f, text[p]);
      assert d[c as int] == t[c as int];
      if c != firstChar {
        NoMatch(text, pat, f, p, 0);
        p := p - d[c as int];
      } else {
        var same := CompareOn(text, p, pat, f);
        if same {
          return p;
        }
        p := p - d[c as int];
      }
    }
    return -1;
  }

  lemma {:induction false} BackwardFinds(text: seq<byte>, p: int, pat: seq<byte>, d: Table, f: Fold)
    requires 0 < |pat| && p + |pat| <= |text| && FitsBackward(d, pat, f) && Bounded(d, pat)
    ensures IsLast(text, pat, f, p, Backward(text, p, pat, d, f))
    decreases p
  {
    if p >= 0 && !Occurs(text, pat, f, p) {
      var s := d[Conv(f, text[p]) as int];
      BackwardFinds(text, p - s, pat, d, f);
      forall k | p - s < k < p && 0 <= k
        ensures !Occurs(text, pat, f, k)
      {
        assert d[Conv(f, pat[p - k]) as int] <= p - k;
        NoMatch(text, pat, f, k, p - k);
      }
    }
  }

  lemma MissedBackward(d: Table, pat: seq<byte>, f: Fold, i: int, other: byte) returns (text: seq<byte>)
    requires 0 < i < |pat| && d[Conv(f, pat[i]) as int] > i
    requires Conv(f, other) != Conv(f, pat[|pat| - 1])
    ensures |text| == |pat| + i && Occurs(text, pat, f, 0)
    ensures Backward(text, i, pat, d, f) == -1
  {
    text := pat + seq(i, _ => other);
    assert forall k | 0 <= k < |pat| :: text[0 + k] == pat[k];
    NoMatch(text, pat, f, i, |pat| - 1);
    assert Backward(text, i, pat, d, f) == Backward(text, i - d[Conv(f, pat[i]) as int], pat, d, f);
  }

  lemma BackwardExactIffFits(d: Table, pat: seq<byte>, f: Fold, other: byte)
    requires 0 < |pat| && Bounded(d, pat) && Conv(f, other) != Conv(f, pat[|pat| - 1])
    ensures FitsBackward(d, pat, f) <==>
            forall text, p | p + |pat| <= |text| :: IsLast(text, pat, f, p, Backward(text, p, pat, d, f))
  {
    if FitsBackward(d, pat, f) {
      forall text, p | p + |pat| <= |text|
        ensures IsLast(text, pat, f, p, Backward(text, p, pat, d, f))
      {
        BackwardFinds(text, p, pat, d, f);
      }
    } else {
      var i :| 0 < i < |pat| && d[Conv(f, pat[i]) as int] > i;
      var text := MissedBackward(d, pat, f, i, other);
      assert !IsLast(text, pat, f, i, Backward(text, i, pat, d, f));
    }
  }

  /** The table as find() builds it for its direction. */
  ghost predicate Built(d: seq<int>, pat: seq<byte>, f: Fold, back: bool) {
    && |d| == 256
    && (forall c | 0 <= c < 256 :: 1 <= d[c] <= |pat|)
    && if back then
         forall c | 0 <= c < 256 :: IsSkip(d[c], pat, f, c, true)
       else
         forall c | 0 <= c < 256 :: IsSkip(d[c], pat, f, c, false)
  }

  /** The distance from the end of the window, or from its start, to the nearest place of the
      pattern, other than that end, that holds the folded byte `c`. */
  ghost predicate IsSkip(s: int, pat: seq<byte>, f: Fold, c: int, back: bool) {
    if back then
      && (s < |pat| ==> 0 < s && Conv(f, pat[s]) as int == c)
      && forall i | 0 < i < |pat| && Conv(f, pat[i]) as int == c :: s <= i
    else
      && (s < |pat| ==> 0 < s && Conv(f, pat[|pat| - 1 - s]) as int == c)
      && forall i | 0 <= i < |pat| - 1 && Conv(f, pat[i]) as int == c :: s <= |pat| - 1 - i
  }

  method Fill(d: array<int>, m: int)
    modifies d
    ensures forall c | 0 <= c < d.Length :: d[c] == m
  {
    var i := 0;
    while i < d.Length
      invariant 0 <= i <= d.Length && forall c | 0 <= c < i :: d[c] == m
    {
      d[i] := m;
      i := i + 1;
    }
  }

  method BuildForward(d: array<int>, pat: seq<byte>, f: Fold)
    requires 0 < |pat| && d.Length == 256
    modifies d
    ensures Built(d[..], pat, f, false)
  {
    var m, i := |pat|, 0;
    Fill(d, m);
    i := 0;
    while i < m - 1
      invariant 0 <= i && (i <= m - 1)
      invariant forall c | 0 <= c < 256 :: 1 <= d[c] <= m && (d[c] < m ==> Conv(f, pat[m - 1 - d[c]]) as int == c)
      invariant forall j | 0 <= j < i :: d[Conv(f, pat[j]) as int] <= m - 1 - j
    {
      d[Conv(f, pat[i]) as int] := m - i - 1;
      i := i + 1;
    }
  }

  method BuildBackward(d: array<int>, pat: seq<byte>, f: Fold)
    requires 0 < |pat| && d.Length == 256
    modifies d
    ensures Built(d[..], pat, f, true)
  {
    var m, i := |pat|, 0;
    Fill(d, m);
    i := m - 1;
    while i > 0
      invariant 0 <= i < m
      invariant forall c | 0 <= c < 256 :: 1 <= d[c] <= m && (d[c] < m ==> Conv(f, pat[d[c]]) as int == c)
      invariant forall j | i < j < m :: d[Conv(f, pat[j]) as int] <= j
    {
      d[Conv(f, pat[i]) as int] := i;
      i := i - 1;
    }
  }

  /** A table built for a folding fits it. */
  lemma BuiltFits(d: Table, pat: seq<byte>, f: Fold, back: bool)
    requires Built(d, pat, f, back)
    ensures Bounded(d, pat) && (if back then FitsBackward(d, pat, f) else FitsForward(d, pat, f))
  {
    if back {
      forall i | 0 < i < |pat|
        ensures d[Conv(f, pat[i]) as int] <= i
      {
        assert IsSkip(d[Conv(f, pat[i]) as int], pat, f, Conv(f, pat[i]) as int, true);
      }
    } else {
      forall i | 0 <= i < |pat| - 1
        ensures d[Conv(f, pat[i]) as int] <= |pat| - 1 - i
      {
        assert IsSkip(d[Conv(f, pat[i]) as int], pat, f, Conv(f, pat[i]) as int, false);
      }
    }
  }
}
