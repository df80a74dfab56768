/** The interval list of one piece: which bytes of the piece have been received. */
module Ranges {

  /** A half-open interval [first, second), ordered as a pair: by `first`, then by `second`. */
  datatype Segment = Segment(first: int, second: int)

  predicate Less(a: Segment, b: Segment) {
    a.first < b.first || (a.first == b.first && a.second < b.second)
  }

  ghost predicate Sorted(s: seq<Segment>) {
    forall i, j :: 0 <= i < j < |s| ==> !Less(s[j], s[i])
  }

  ghost predicate Proper(s: seq<Segment>) {
    forall i :: 0 <= i < |s| ==> s[i].first < s[i].second
  }

  /** Byte `x` lies in some interval of the list. */
  ghost predicate Covers(s: seq<Segment>, x: int) {
    exists i :: 0 <= i < |s| && s[i].first <= x < s[i].second
  }

  /** Consecutive intervals leave a real gap between them. */
  ghost predicate Separated(s: seq<Segment>) {
    forall i, j :: 0 <= i < j < |s| ==> s[i].second < s[j].first
  }

  ghost predicate Canonical(s: seq<Segment>) {
    Proper(s) && Separated(s)
  }

  ghost predicate Within(s: seq<Segment>, lo: int, hi: int) {
    forall i :: 0 <= i < |s| ==> lo <= s[i].first && s[i].second <= hi
  }

  /** No byte of `seg` is in the list. */
  ghost predicate Fresh(s: seq<Segment>, seg: Segment) {
    forall x :: seg.first <= x < seg.second ==> !Covers(s, x)
  }

  /** What a binary search on a sorted list must find: the first position not below `seg`. */
  function LowerBound(s: seq<Segment>, seg: Segment): (k: nat)
    ensures k <= |s|
    ensures forall i :: 0 <= i < k ==> Less(s[i], seg)
    ensures k < |s| ==> !Less(s[k], seg)
  {
    if |s| == 0 || !Less(s[0], seg) then 0 else 1 + LowerBound(s[1..], seg)
  }

  /** A list cut at the lower bound of `seg`; `left` and `right` hold the neighbour that `seg`
      touches on that side, if there is one. */
  datatype Parts = Parts(before: seq<Segment>, left: seq<Segment>, right: seq<Segment>, after: seq<Segment>)

  function Split(s: seq<Segment>, seg: Segment): Parts {
    var k := LowerBound(s, seg);
    var a := if k > 0 && s[k - 1].second == seg.first then k - 1 else k;
    var b := if k < |s| && s[k].first == seg.second then k + 1 else k;
    Parts(s[..a], s[a..k], s[k..b], s[b..])
  }

  /** `s` is `before`, `left`, `right` and `after` one after the other. */
  ghost predicate Cut(s: seq<Segment>, p: Parts) {
    && |p.left| <= 1 && |p.right| <= 1
    && |s| == |p.before| + |p.left| + |p.right| + |p.after|
    && (forall i :: 0 <= i < |p.before| ==> p.before[i] == s[i])
    && (|p.left| == 1 ==> p.left[0] == s[|p.before|])
    && (|p.right| == 1 ==> p.right[0] == s[|s| - |p.after| - 1])
    && (forall i :: 0 <= i < |p.after| ==> p.after[i] == s[|s| - |p.after| + i])
  }

  /** What the cut of `s` around `seg` guarantees. */
  ghost predicate Fits(s: seq<Segment>, p: Parts, seg: Segment) {
    && Cut(s, p)
    && (|p.left| == 1 ==> p.left[0].second == seg.first)
    && (|p.right| == 1 ==> p.right[0].first == seg.second)
    && (|p.left| == 0 && |p.before| > 0 ==> p.before[|p.before| - 1].second != seg.first)
    && (|p.right| == 0 && |p.after| > 0 ==> p.after[0].first != seg.second)
    && (forall i :: 0 <= i < |p.before| ==> Less(p.before[i], seg))
    && (forall i :: 0 <= i < |p.after| ==> !Less(p.after[i], seg))
  }

  lemma PartsCut(s: seq<Segment>, a: nat, k: nat, b: nat)
    requires a <= k <= a + 1 && k <= b <= k + 1 && b <= |s|
    ensures Cut(s, Parts(s[..a], s[a..k], s[k..b], s[b..]))
  {
  }

  lemma {:induction false} SplitCuts(s: seq<Segment>, seg: Segment)
    ensures Cut(s, Split(s, seg))
  {
    var k := LowerBound(s, seg);
    PartsCut(s, if k > 0 && s[k - 1].second == seg.first then k - 1 else k, k,
             if k < |s| && s[k].first == seg.second then k + 1 else k);
  }

  lemma {:induction false} SplitOrders(s: seq<Segment>, seg: Segment, i: nat)
    requires Sorted(s)
    ensures i < |Split(s, seg).before| ==> Less(Split(s, seg).before[i], seg)
    ensures i < |Split(s, seg).after| ==> !Less(Split(s, seg).after[i], seg)
  {
    var k, p := LowerBound(s, seg), Split(s, seg);
    if i < |p.before| {
      assert p.before[i] == s[i];
    }
    if i < |p.after| {
      var j := |s| - |p.after| + i;
      assert p.after[i] == s[j] && (j == k || !Less(s[j], s[k]));
    }
  }

  lemma {:induction false} SplitFits(s: seq<Segment>, seg: Segment)
    requires Sorted(s)
    ensures Fits(s, Split(s, seg), seg)
  {
    var p := Split(s, seg);
    SplitCuts(s, seg);
    forall i | 0 <= i < |p.before| ensures Less(p.before[i], seg) {
      SplitOrders(s, seg, i);
    }
    forall i | 0 <= i < |p.after| ensures !Less(p.after[i], seg) {
      SplitOrders(s, seg, i);
    }
  }

  function Merged(p: Parts, seg: Segment): Segment {
    Segment(if |p.left| > 0 then p.left[0].first else seg.first,
            if |p.right| > 0 then p.right[0].second else seg.second)
  }

  /** The list with `seg` put at its lower bound and glued to the neighbours it touches. */
  function Added(s: seq<Segment>, seg: Segment): seq<Segment> {
    var p := Split(s, seg);
    p.before + [Merged(p, seg)] + p.after
  }

  function BytesAvailable(s: seq<Segment>): int {
    if |s| == 0 || s[0].first != 0 then 0 else s[0].second - s[0].first
  }

  // ---------------------------------------------------------------- one insertion

  lemma CoversConcat(s: seq<Segment>, t: seq<Segment>, x: int)
    ensures Covers(s + t, x) <==> Covers(s, x) || Covers(t, x)
  {
    if Covers(s + t, x) {
      var i :| 0 <= i < |s + t| && (s + t)[i].first <= x < (s + t)[i].second;
      assert if i < |s| then s[i] == (s + t)[i] else t[i - |s|] == (s + t)[i];
    }
    if Covers(s, x) {
      var i :| 0 <= i < |s| && s[i].first <= x < s[i].second;
      assert (s + t)[i] == s[i];
    }
    if Covers(t, x) {
      var i :| 0 <= i < |t| && t[i].first <= x < t[i].second;
      assert (s + t)[|s| + i] == t[i];
    }
  }

  lemma CoversAround(b: seq<Segment>, m: Segment, a: seq<Segment>, x: int)
    ensures Covers(b + [m] + a, x) <==> Covers(b, x) || m.first <= x < m.second || Covers(a, x)
  {
    CoversConcat(b + [m], a, x);
    CoversConcat(b, [m], x);
    assert Covers([m], x) <==> [m][0].first <= x < [m][0].second;
  }

  lemma CutCovers(s: seq<Segment>, p: Parts, x: int)
    requires Cut(s, p)
    ensures Covers(s, x) <==> Covers(p.before, x) || Covers(p.left, x) || Covers(p.right, x) || Covers(p.after, x)
  {
    var n, o := |p.before|, |s| - |p.after|;
    if Covers(s, x) {
      var i :| 0 <= i < |s| && s[i].first <= x < s[i].second;
      if i < n {
        assert p.before[i] == s[i];
      } else if i >= o {
        assert p.after[i - o] == s[i];
      }
    }
    if Covers(p.before, x) {
      var i :| 0 <= i < n && p.before[i].first <= x < p.before[i].second;
      assert s[i] == p.before[i];
    }
    if Covers(p.after, x) {
      var i :| 0 <= i < |p.after| && p.after[i].first <= x < p.after[i].second;
      assert s[o + i] == p.after[i];
    }
  }

  lemma PartsCover(s: seq<Segment>, p: Parts, seg: Segment, x: int)
    requires Proper(s) && Fits(s, p, seg) && seg.first < seg.second
    ensures Covers(p.before + [Merged(p, seg)] + p.after, x)
            <==> Covers(s, x) || seg.first <= x < seg.second
  {
    CutCovers(s, p, x);
    CoversAround(p.before, Merged(p, seg), p.after, x);
    assert |p.left| == 1 ==> (Covers(p.left, x) <==> p.left[0].first <= x < p.left[0].second);
    assert |p.right| == 1 ==> (Covers(p.right, x) <==> p.right[0].first <= x < p.right[0].second);
  }

  /** For every interval, overlapping ones included: the covered bytes become exactly the old
      ones and the new ones. */
  lemma {:induction false} AddedCovers(s: seq<Segment>, seg: Segment, x: int)
    requires Sorted(s) && Proper(s) && seg.first < seg.second
    ensures Covers(Added(s, seg), x) <==> Covers(s, x) || seg.first <= x < seg.second
  {
    SplitFits(s, seg);
    PartsCover(s, Split(s, seg), seg, x);
  }

  lemma SortedAround(b: seq<Segment>, m: Segment, a: seq<Segment>)
    requires Sorted(b) && Sorted(a)
    requires forall i :: 0 <= i < |b| ==> !Less(m, b[i])
    requires forall i :: 0 <= i < |a| ==> !Less(a[i], m)
    ensures Sorted(b + [m] + a)
  {
    var r, n := b + [m] + a, |b|;
    forall i, j | 0 <= i < j < |r| ensures !Less(r[j], r[i]) {
      assert !Less(m, r[i]) || i > n;
      assert !Less(r[j], m) || j < n;
    }
  }

  lemma SeparatedAround(b: seq<Segment>, m: Segment, a: seq<Segment>)
    requires Separated(b) && Separated(a) && m.first < m.second
    requires forall i :: 0 <= i < |b| ==> b[i].second < m.first
    requires forall i :: 0 <= i < |a| ==> m.second < a[i].first
    ensures Separated(b + [m] + a)
  {
    var r, n := b + [m] + a, |b|;
    forall i, j | 0 <= i < j < |r| ensures r[i].second < r[j].first {
      assert r[i].second < m.first || i >= n;
      assert m.second < r[j].first || j <= n;
    }
  }

  lemma PartsKeepOrder(s: seq<Segment>, p: Parts, seg: Segment, lo: int, hi: int)
    requires Sorted(s) && Proper(s) && Within(s, lo, hi) && Fits(s, p, seg)
    requires lo <= seg.first < seg.second <= hi
    ensures Sorted(p.before + [Merged(p, seg)] + p.after)
    ensures Proper(p.before + [Merged(p, seg)] + p.after)
    ensures Within(p.before + [Merged(p, seg)] + p.after, lo, hi)
  {
    assert Sorted(p.before) && Sorted(p.after);
    forall i | 0 <= i < |p.before| ensures !Less(Merged(p, seg), p.before[i]) {
      assert |p.left| == 1 ==> !Less(s[|p.before|], s[i]);
    }
    forall i | 0 <= i < |p.after| ensures !Less(p.after[i], Merged(p, seg)) {
      MergedBelowAfter(s, p, seg, i);
    }
    SortedAround(p.before, Merged(p, seg), p.after);
    BoundsAround(p.before, Merged(p, seg), p.after, lo, hi);
  }

  lemma MergedBelowAfter(s: seq<Segment>, p: Parts, seg: Segment, i: nat)
    requires Sorted(s) && Fits(s, p, seg) && Proper(s) && seg.first < seg.second && i < |p.after|
    ensures !Less(p.after[i], Merged(p, seg))
  {
    var o := |s| - |p.after|;
    assert |p.right| == 1 ==> !Less(s[o + i], s[o - 1]);
  }

  lemma BoundsAround(b: seq<Segment>, m: Segment, a: seq<Segment>, lo: int, hi: int)
    requires Proper(b) && Proper(a) && m.first < m.second
    requires Within(b, lo, hi) && Within(a, lo, hi) && lo <= m.first && m.second <= hi
    ensures Proper(b + [m] + a) && Within(b + [m] + a, lo, hi)
  {
  }

  lemma {:induction false} AddedToEmpty(seg: Segment)
    ensures Added([], seg) == [seg]
  {
    assert Split([], seg) == Parts([], [], [], []);
  }

  /** For every interval: the list stays sorted, its intervals non-empty and inside the bounds. */
  lemma {:induction false} AddedKeepsOrder(s: seq<Segment>, seg: Segment, lo: int, hi: int)
    requires Sorted(s) && Proper(s) && Within(s, lo, hi)
    requires lo <= seg.first < seg.second <= hi
    ensures Sorted(Added(s, seg)) && Proper(Added(s, seg)) && Within(Added(s, seg), lo, hi)
  {
    SplitFits(s, seg);
    PartsKeepOrder(s, Split(s, seg), seg, lo, hi);
  }

  /** A canonical list stays canonical exactly when the new interval shares no byte with it. */
  lemma {:induction false} AddedCanonicalIffFresh(s: seq<Segment>, seg: Segment)
    requires Canonical(s) && seg.first < seg.second
    ensures Canonical(Added(s, seg)) <==> Fresh(s, seg)
  {
    SplitFits(s, seg);
    if Fresh(s, seg) {
      FreshStaysCanonical(s, Split(s, seg), seg);
    } else {
      OverlapBreaksCanonical(s, Split(s, seg), seg);
    }
  }

  lemma FreshStaysCanonical(s: seq<Segment>, p: Parts, seg: Segment)
    requires Canonical(s) && Fits(s, p, seg) && Fresh(s, seg) && seg.first < seg.second
    ensures Canonical(p.before + [Merged(p, seg)] + p.after)
  {
    GapsAround(s, p, seg);
    assert Proper(p.before) && Proper(p.after) && Separated(p.before) && Separated(p.after);
    SeparatedAround(p.before, Merged(p, seg), p.after);
  }

  lemma GapsAround(s: seq<Segment>, p: Parts, seg: Segment)
    requires Canonical(s) && Fits(s, p, seg) && Fresh(s, seg) && seg.first < seg.second
    ensures Merged(p, seg).first < Merged(p, seg).second
    ensures forall i :: 0 <= i < |p.before| ==> p.before[i].second < Merged(p, seg).first
    ensures forall i :: 0 <= i < |p.after| ==> Merged(p, seg).second < p.after[i].first
  {
    assert !Covers(s, seg.first);
    forall i | 0 <= i < |p.before| ensures p.before[i].second < Merged(p, seg).first {
      GapBefore(s, p, seg, i);
    }
    forall i | 0 <= i < |p.after| ensures Merged(p, seg).second < p.after[i].first {
      GapAfter(s, p, seg, i);
    }
  }

  lemma GapBefore(s: seq<Segment>, p: Parts, seg: Segment, i: nat)
    requires Canonical(s) && Fits(s, p, seg) && !Covers(s, seg.first) && i < |p.before|
    ensures p.before[i].second < Merged(p, seg).first
  {
    var n := |p.before|;
    assert p.before[i] == s[i] && p.before[n - 1] == s[n - 1];
    assert i < n - 1 ==> s[i].second < s[n - 1].first;
  }

  lemma GapAfter(s: seq<Segment>, p: Parts, seg: Segment, i: nat)
    requires Canonical(s) && Fits(s, p, seg) && Fresh(s, seg) && i < |p.after|
    ensures Merged(p, seg).second < p.after[i].first
  {
    var o := |s| - |p.after|;
    assert p.after[i] == s[o + i] && p.after[0] == s[o];
    assert Covers(s, s[o + i].first) && Covers(s, s[o].first);
    assert i > 0 ==> s[o].second < s[o + i].first;
  }

  lemma AroundSeparates(b: seq<Segment>, m: Segment, a: seq<Segment>)
    requires Separated(b + [m] + a)
    ensures forall i :: 0 <= i < |b| ==> b[i].second < m.first
    ensures forall i :: 0 <= i < |a| ==> m.second < a[i].first
  {
    var r, n := b + [m] + a, |b|;
    forall i | 0 <= i < n ensures b[i].second < m.first {
      assert r[i] == b[i] && r[n] == m;
    }
    forall i | 0 <= i < |a| ensures m.second < a[i].first {
      assert r[n + 1 + i] == a[i] && r[n] == m;
    }
  }

  lemma OverlapBreaksCanonical(s: seq<Segment>, p: Parts, seg: Segment)
    requires Canonical(s) && Fits(s, p, seg) && !Fresh(s, seg)
    ensures !Canonical(p.before + [Merged(p, seg)] + p.after)
  {
    var x :| seg.first <= x < seg.second && Covers(s, x);
    CutCovers(s, p, x);
    if Separated(p.before + [Merged(p, seg)] + p.after) {
      AroundSeparates(p.before, Merged(p, seg), p.after);
    }
  }

  // ---------------------------------------------------------------- the first run of bytes

  /** In any list, `BytesAvailable` only counts received bytes. */
  lemma AvailableIsCovered(s: seq<Segment>, x: int)
    requires 0 <= x < BytesAvailable(s)
    ensures Covers(s, x)
  {
    assert s[0].first <= x < s[0].second;
  }

  /** The byte behind those that `BytesAvailable` counts has not been received. */
  ghost predicate Exact(s: seq<Segment>) {
    !Covers(s, BytesAvailable(s))
  }

  /** That means that the count is the greatest one. */
  lemma ExactIsGreatest(s: seq<Segment>, n: nat)
    requires Proper(s) && Exact(s)
    ensures (forall x :: 0 <= x < n ==> Covers(s, x)) <==> n <= BytesAvailable(s)
  {
    if n <= BytesAvailable(s) {
      forall x | 0 <= x < n ensures Covers(s, x) { AvailableIsCovered(s, x); }
    }
  }

  /** In a canonical list of non-negative intervals `BytesAvailable` is the greatest such count. */
  lemma AvailableIsGreatest(s: seq<Segment>, n: nat)
    requires Canonical(s) && (forall i :: 0 <= i < |s| ==> 0 <= s[i].first)
    ensures (forall x :: 0 <= x < n ==> Covers(s, x)) <==> n <= BytesAvailable(s)
  {
    CanonicalIsExact(s);
    ExactIsGreatest(s, n);
  }

  lemma CanonicalIsExact(s: seq<Segment>)
    requires Canonical(s) && (forall i :: 0 <= i < |s| ==> 0 <= s[i].first)
    ensures Exact(s)
  {
    var m := BytesAvailable(s);
    forall i | 0 <= i < |s| ensures !(s[i].first <= m < s[i].second) {
      assert i == 0 || s[0].second < s[i].first;
    }
  }

  // ---------------------------------------------------------------- the canonical form is unique

  lemma {:induction false} CanonicalIsUnique(s: seq<Segment>, t: seq<Segment>)
    requires Canonical(s) && Canonical(t)
    requires forall x :: Covers(s, x) <==> Covers(t, x)
    ensures s == t
  {
    if |s| == 0 || |t| == 0 {
      assert |s| > 0 ==> Covers(s, s[0].first);
      assert |t| > 0 ==> Covers(t, t[0].first);
    } else {
      SameHead(s, t);
      forall x ensures Covers(s[1..], x) <==> Covers(t[1..], x) {
        TailCovers(s, x);
        TailCovers(t, x);
      }
      CanonicalIsUnique(s[1..], t[1..]);
      assert s == [s[0]] + s[1..] && t == [t[0]] + t[1..];
    }
  }

  lemma TailCovers(s: seq<Segment>, x: int)
    requires Canonical(s) && |s| > 0
    ensures Covers(s[1..], x) <==> Covers(s, x) && s[0].second <= x
  {
    if Covers(s[1..], x) {
      var i :| 0 <= i < |s| - 1 && s[1..][i].first <= x < s[1..][i].second;
      assert s[i + 1].first <= x < s[i + 1].second && s[0].second < s[i + 1].first;
    }
    if Covers(s, x) && s[0].second <= x {
      var i :| 0 <= i < |s| && s[i].first <= x < s[i].second;
      assert s[1..][i - 1] == s[i];
    }
  }

  lemma SameHead(s: seq<Segment>, t: seq<Segment>)
    requires Canonical(s) && Canonical(t) && |s| > 0 && |t| > 0
    requires forall x :: Covers(s, x) <==> Covers(t, x)
    ensures s[0] == t[0]
  {
    HeadReaches(s, t);
    HeadReaches(t, s);
  }

  lemma HeadReaches(s: seq<Segment>, t: seq<Segment>)
    requires Canonical(s) && Canonical(t) && |s| > 0 && |t| > 0
    requires forall x :: Covers(s, x) <==> Covers(t, x)
    ensures t[0].first <= s[0].first
    ensures s[0].first == t[0].first ==> s[0].second <= t[0].second
  {
    assert Covers(s, s[0].first);
    var i :| 0 <= i < |t| && t[i].first <= s[0].first < t[i].second;
    assert i == 0 || t[0].second < t[i].first;
    forall j | 0 <= j < |t| ensures !(t[j].first <= t[0].second < t[j].second) {
      assert j == 0 || t[0].second < t[j].first;
    }
    assert !Covers(s, t[0].second);
  }

  // ---------------------------------------------------------------- any order of arrival

  /** The intervals of `xs` added one after the other. */
  function AddAll(s: seq<Segment>, xs: seq<Segment>): seq<Segment>
    decreases |xs|
  {
    if |xs| == 0 then s else AddAll(Added(s, xs[0]), xs[1..])
  }

  ghost predicate PairwiseDisjoint(xs: seq<Segment>) {
    forall i, j :: 0 <= i < j < |xs| ==> xs[i].second <= xs[j].first || xs[j].second <= xs[i].first
  }

  /** No byte of any interval of `xs` is in the list. */
  ghost predicate AllFresh(s: seq<Segment>, xs: seq<Segment>) {
    forall i :: 0 <= i < |xs| ==> Fresh(s, xs[i])
  }

  lemma {:induction false} AddAllCovers(s: seq<Segment>, xs: seq<Segment>)
    requires Sorted(s) && Proper(s) && Proper(xs)
    ensures Sorted(AddAll(s, xs)) && Proper(AddAll(s, xs))
    ensures forall x :: Covers(AddAll(s, xs), x) <==> Covers(s, x) || Covers(xs, x)
    ensures Canonical(s) && AllFresh(s, xs) && PairwiseDisjoint(xs) ==> Canonical(AddAll(s, xs))
    decreases |xs|
  {
    if |xs| > 0 {
      var t := Added(s, xs[0]);
      var lo, hi := Bounds(s, xs[0]);
      AddedKeepsOrder(s, xs[0], lo, hi);
      AddAllCovers(t, xs[1..]);
      forall x ensures Covers(AddAll(s, xs), x) <==> Covers(s, x) || Covers(xs, x) {
        AddedCovers(s, xs[0], x);
        CoversCons(xs, x);
      }
      if Canonical(s) && AllFresh(s, xs) && PairwiseDisjoint(xs) {
        AddedCanonicalIffFresh(s, xs[0]);
        RestIsFresh(s, xs);
      }
    }
  }

  lemma RestIsFresh(s: seq<Segment>, xs: seq<Segment>)
    requires Sorted(s) && Proper(s) && Proper(xs) && |xs| > 0
    requires AllFresh(s, xs) && PairwiseDisjoint(xs)
    ensures AllFresh(Added(s, xs[0]), xs[1..]) && PairwiseDisjoint(xs[1..])
  {
    var ys := xs[1..];
    forall i, x | 0 <= i < |ys| && ys[i].first <= x < ys[i].second ensures !Covers(Added(s, xs[0]), x) {
      AddedCovers(s, xs[0], x);
      assert ys[i] == xs[i + 1];
    }
    forall i, j | 0 <= i < j < |ys|
      ensures ys[i].second <= ys[j].first || ys[j].second <= ys[i].first
    {
      assert ys[i] == xs[i + 1] && ys[j] == xs[j + 1];
    }
  }

  lemma {:induction false} Bounds(s: seq<Segment>, seg: Segment) returns (lo: int, hi: int)
    ensures Within(s, lo, hi) && lo <= seg.first && seg.second <= hi
  {
    if |s| == 0 {
      lo, hi := seg.first, seg.second;
    } else {
      var e := s[|s| - 1];
      lo, hi := Bounds(s[..|s| - 1], seg);
      lo, hi := if lo < e.first then lo else e.first, if hi > e.second then hi else e.second;
    }
  }

  lemma CoversCons(xs: seq<Segment>, x: int)
    requires |xs| > 0
    ensures Covers(xs, x) <==> xs[0].first <= x < xs[0].second || Covers(xs[1..], x)
  {
    assert xs == [xs[0]] + xs[1..];
    CoversConcat([xs[0]], xs[1..], x);
    assert Covers([xs[0]], x) <==> [xs[0]][0].first <= x < [xs[0]][0].second;
  }

  /** Onto any canonical list, any two arrival orders of the same fresh, pairwise disjoint intervals
      give the identical list. */
  lemma ArrivalOrderIsIrrelevant(s: seq<Segment>, xs: seq<Segment>, ys: seq<Segment>)
    requires Canonical(s) && Proper(xs) && PairwiseDisjoint(xs) && AllFresh(s, xs)
    requires multiset(xs) == multiset(ys)
    ensures AddAll(s, xs) == AddAll(s, ys)
  {
    PermutationKeepsDisjoint(xs, ys);
    forall i | 0 <= i < |ys| ensures Fresh(s, ys[i]) {
      assert ys[i] in multiset(xs);
    }
    AddAllCovers(s, xs);
    AddAllCovers(s, ys);
    forall x ensures Covers(xs, x) <==> Covers(ys, x) {
      if Covers(xs, x) { SameMembersCover(xs, ys, x); }
      if Covers(ys, x) { SameMembersCover(ys, xs, x); }
    }
    CanonicalIsUnique(AddAll(s, xs), AddAll(s, ys));
  }

  lemma SameMembersCover(xs: seq<Segment>, ys: seq<Segment>, x: int)
    requires multiset(xs) == multiset(ys) && Covers(xs, x)
    ensures Covers(ys, x)
  {
    var i :| 0 <= i < |xs| && xs[i].first <= x < xs[i].second;
    assert xs[i] in multiset(ys);
    var j :| 0 <= j < |ys| && ys[j] == xs[i];
  }

  lemma PermutationKeepsDisjoint(xs: seq<Segment>, ys: seq<Segment>)
    requires Proper(xs) && PairwiseDisjoint(xs) && multiset(xs) == multiset(ys)
    ensures Proper(ys) && PairwiseDisjoint(ys)
  {
    forall i | 0 <= i < |ys| ensures ys[i].first < ys[i].second {
      assert ys[i] in multiset(xs);
    }
    forall i, j | 0 <= i < j < |ys|
      ensures ys[i].second <= ys[j].first || ys[j].second <= ys[i].first
    {
      assert ys[i] in multiset(xs) && ys[j] in multiset(xs);
      var a :| 0 <= a < |xs| && xs[a] == ys[i];
      var b :| 0 <= b < |xs| && xs[b] == ys[j];
      if a == b {
        TwiceInMultiset(ys, i, j);
        OnceInMultiset(xs, a);
      }
    }
  }

  lemma TwiceInMultiset(ys: seq<Segment>, i: nat, j: nat)
    requires i < j < |ys| && ys[i] == ys[j]
    ensures multiset(ys)[ys[i]] >= 2
  {
    assert ys == ys[..i] + [ys[i]] + ys[i + 1..j] + [ys[j]] + ys[j + 1..];
  }

  lemma OnceInMultiset(xs: seq<Segment>, a: nat)
    requires Proper(xs) && PairwiseDisjoint(xs) && a < |xs|
    ensures multiset(xs)[xs[a]] == 1
  {
    var v, l, r := xs[a], xs[..a], xs[a + 1..];
    assert xs == l + [v] + r;
    assert v !in l && v !in r;
  }

  // ---------------------------------------------------------------- the object

  class Range {
    var segments: seq<Segment>

    constructor (initial: seq<Segment>)
      ensures segments == initial
    {
      segments := initial;
    }

    method Available() returns (n: int)
      ensures n == BytesAvailable(segments)
    {
      if |segments| == 0 || segments[0].first != 0 {
        n := 0;
      } else {
        n := segments[0].second - segments[0].first;
      }
    }

    /** The halving search of `qLowerBound`. */
    method FindInsertion(seg: Segment) returns (ins: nat)
      requires Sorted(segments)
      ensures ins == LowerBound(segments, seg)
    {
      ins := 0;
      var n := |segments|;
      while n > 0
        invariant 0 <= n && ins + n <= |segments|
        invariant forall i :: 0 <= i < ins ==> Less(segments[i], seg)
        invariant forall i :: ins + n <= i < |segments| ==> !Less(segments[i], seg)
      {
        var half := n / 2;
        if Less(segments[ins + half], seg) {
          forall i | 0 <= i < ins + half ensures Less(segments[i], seg) {
            assert !Less(segments[ins + half], segments[i]);
          }
          ins := ins + half + 1;
          n := n - half - 1;
        } else {
          forall i | ins + half < i < |segments| ensures !Less(segments[i], seg) {
            assert !Less(segments[i], segments[ins + half]);
          }
          n := half;
        }
      }
      assert ins < |segments| ==> !Less(segments[ins], seg);
      assert !(LowerBound(segments, seg) < ins) && !(ins < LowerBound(segments, seg));
    }

    method AddSegment(seg: Segment)
      requires Sorted(segments) && seg.first < seg.second
      modifies this
      ensures segments == Added(old(segments), seg)
    {
      ghost var s := segments;
      var ins := FindInsertion(seg);
      if ins < |segments| && segments[ins].first == seg.second {
        segments := segments[ins := Segment(seg.first, segments[ins].second)];
      } else {
        segments := segments[..ins] + [seg] + segments[ins..];
      }
      assert segments == Inserted(s, seg, ins);
      EditsAreAdded(s, seg);
      if ins != 0 {
        ins := ins - 1;
        if segments[ins].second == seg.first {
          var first := segments[ins].first;
          segments := segments[..ins] + segments[ins + 1..];
          segments := segments[ins := Segment(first, segments[ins].second)];
        }
      }
    }
  }

  /** The list between the two edits of `AddSegment`: joined on the right, or inserted. */
  ghost function Inserted(s: seq<Segment>, seg: Segment, k: nat): (t: seq<Segment>)
    requires k <= |s|
    ensures |t| > k
  {
    if k < |s| && s[k].first == seg.second
    then s[k := Segment(seg.first, s[k].second)]
    else s[..k] + [seg] + s[k..]
  }

  /** `Added` by cases: whether the new interval touches a neighbour on either side. */
  lemma {:induction false} AddedByCases(s: seq<Segment>, seg: Segment, touchesLeft: bool, touchesRight: bool)
    requires var k := LowerBound(s, seg);
             && (touchesLeft <==> k > 0 && s[k - 1].second == seg.first)
             && (touchesRight <==> k < |s| && s[k].first == seg.second)
    ensures var k := LowerBound(s, seg);
            Added(s, seg) == (if touchesLeft then s[..k - 1] else s[..k])
                             + [Segment(if touchesLeft then s[k - 1].first else seg.first,
                                        if touchesRight then s[k].second else seg.second)]
                             + (if touchesRight then s[k + 1..] else s[k..])
  {
    var k, p := LowerBound(s, seg), Split(s, seg);
    assert |p.left| == (if touchesLeft then 1 else 0);
    assert |p.right| == (if touchesRight then 1 else 0);
  }

  /** Erasing the left neighbour and writing its start into the next interval gives `Added`. */
  lemma {:induction false} EditsAreAdded(s: seq<Segment>, seg: Segment)
    ensures var k := LowerBound(s, seg);
            var t := Inserted(s, seg, k);
            Added(s, seg) == if k > 0 && t[k - 1].second == seg.first
                             then (t[..k - 1] + t[k..])[k - 1 := Segment(t[k - 1].first, t[k].second)]
                             else t
  {
    var k := LowerBound(s, seg);
    var touchesRight := k < |s| && s[k].first == seg.second;
    var rest := if touchesRight then s[k + 1..] else s[k..];
    var joined := Segment(seg.first, if touchesRight then s[k].second else seg.second);
    var touchesLeft := k > 0 && s[k - 1].second == seg.first;
    AddedByCases(s, seg, touchesLeft, touchesRight);
    InsertedByCases(s, seg, k, joined, rest);
    if touchesLeft {
      DropLeft(s, k, joined, rest, Inserted(s, seg, k));
    }
  }

  lemma InsertedByCases(s: seq<Segment>, seg: Segment, k: nat, joined: Segment, rest: seq<Segment>)
    requires k <= |s|
    requires var touchesRight := k < |s| && s[k].first == seg.second;
             && rest == (if touchesRight then s[k + 1..] else s[k..])
             && joined == Segment(seg.first, if touchesRight then s[k].second else seg.second)
    ensures Inserted(s, seg, k) == s[..k] + [joined] + rest
    ensures k > 0 ==> Inserted(s, seg, k)[k - 1] == s[k - 1]
  {
  }

  lemma DropLeft(s: seq<Segment>, k: nat, m: Segment, rest: seq<Segment>, t: seq<Segment>)
    requires 0 < k <= |s| && t == s[..k] + [m] + rest
    ensures t[k] == m
    ensures (t[..k - 1] + t[k..])[k - 1 := Segment(t[k - 1].first, t[k].second)]
            == s[..k - 1] + [Segment(s[k - 1].first, m.second)] + rest
  {
    assert t[..k - 1] == s[..k - 1] && t[k..] == [m] + rest;
  }
}
