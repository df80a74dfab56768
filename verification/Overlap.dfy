/** Overlapping and repeated intervals: what they do to the count of available bytes, and exactly when
    they do no harm. */
module Overlaps {
  import opened Ranges

  /** There are real gaps up to the first interval that reaches the end `len` of the piece; what stands
      behind that one lies inside it. */
  predicate Settled(s: seq<Segment>, len: int) {
    || |s| == 0
    || s[0].second >= len
    || ((|s| > 1 ==> s[0].second < s[1].first) && Settled(s[1..], len))
  }

  predicate Meet(a: Segment, b: Segment) {
    a.first < b.second && b.first < a.second
  }

  predicate Apart(s: seq<Segment>, seg: Segment) {
    forall i :: 0 <= i < |s| ==> !Meet(s[i], seg)
  }

  /** The new interval is new; or it stands behind one that reaches the end of the piece; or it reaches
      that end itself and stands before all that it meets. */
  predicate Harmless(s: seq<Segment>, seg: Segment, len: int) {
    || Apart(s, seg)
    || (exists i :: 0 <= i < |s| && s[i].second == len && Less(s[i], seg))
    || (seg.second == len && forall i :: 0 <= i < |s| && Meet(s[i], seg) ==> !Less(s[i], seg))
  }

  /** A list that may be held for a piece of `len` bytes. */
  ghost predicate Held(s: seq<Segment>, len: int) {
    Sorted(s) && Proper(s) && Within(s, 0, len)
  }

  predicate Fitting(seg: Segment, len: int) {
    0 <= seg.first < seg.second <= len
  }

  lemma FreshIsApart(s: seq<Segment>, seg: Segment)
    requires Proper(s) && seg.first < seg.second
    ensures Fresh(s, seg) <==> Apart(s, seg)
  {
    forall i | 0 <= i < |s| && Meet(s[i], seg) ensures !Fresh(s, seg) {
      var x := if s[i].first <= seg.first then seg.first else s[i].first;
      assert Covers(s, x);
    }
  }

  lemma {:induction false} CanonicalIsSettled(s: seq<Segment>, len: int)
    requires Canonical(s)
    ensures Settled(s, len)
  {
    if |s| > 0 {
      CanonicalIsSettled(s[1..], len);
    }
  }

  /** A settled list counts exactly the bytes of its first received run. */
  lemma {:induction false} SettledIsExact(s: seq<Segment>, len: int)
    requires Held(s, len) && Settled(s, len)
    ensures Exact(s)
  {
    if |s| > 0 && s[0].first == 0 && s[0].second < len {
      forall i | 0 < i < |s| ensures s[0].second < s[i].first {
        assert i > 1 ==> !Less(s[i], s[1]);
      }
    }
  }

  // ---------------------------------------------------------------- one addition, from the front

  /** An addition at the very front. */
  lemma {:induction false} AddedFront(s: seq<Segment>, seg: Segment)
    requires |s| == 0 || !Less(s[0], seg)
    ensures Added(s, seg) == if |s| > 0 && s[0].first == seg.second
                             then [Segment(seg.first, s[0].second)] + s[1..]
                             else [seg] + s
  {
    AddedByCases(s, seg, false, |s| > 0 && s[0].first == seg.second);
  }

  /** An addition behind the first interval: into the rest, unless it touches that interval. */
  lemma {:induction false} AddedBehind(s: seq<Segment>, seg: Segment)
    requires |s| > 0 && Less(s[0], seg)
    ensures |Added(s[1..], seg)| > 0
    ensures var u := Added(s[1..], seg);
            Added(s, seg) == if s[0].second == seg.first && LowerBound(s[1..], seg) == 0
                             then [Segment(s[0].first, u[0].second)] + u[1..]
                             else [s[0]] + u
  {
    AddedHeadFirst(s[1..], seg);
    if LowerBound(s[1..], seg) == 0 {
      AddedSecond(s, seg);
    } else {
      AddedFarther(s, seg);
    }
  }

  lemma AddedHeadFirst(s: seq<Segment>, seg: Segment)
    ensures |Added(s, seg)| > 0
  {
  }

  lemma {:induction false} AddedSecond(s: seq<Segment>, seg: Segment)
    requires |s| > 0 && Less(s[0], seg) && LowerBound(s[1..], seg) == 0
    requires |Added(s[1..], seg)| > 0
    ensures var u := Added(s[1..], seg);
            Added(s, seg) == if s[0].second == seg.first then [Segment(s[0].first, u[0].second)] + u[1..] else [s[0]] + u
  {
    AddedFront(s[1..], seg);
    AddedByCases(s, seg, s[0].second == seg.first, |s| > 1 && s[1].first == seg.second);
  }

  lemma {:induction false} AddedFarther(s: seq<Segment>, seg: Segment)
    requires |s| > 0 && Less(s[0], seg) && LowerBound(s[1..], seg) > 0
    ensures Added(s, seg) == [s[0]] + Added(s[1..], seg)
  {
    var rest, k := s[1..], LowerBound(s[1..], seg);
    var touchesLeft, touchesRight := rest[k - 1].second == seg.first, k < |rest| && rest[k].first == seg.second;
    AddedByCases(s, seg, touchesLeft, touchesRight);
    AddedByCases(rest, seg, touchesLeft, touchesRight);
    Behind(s, k);
    Behind(s, k - 1);
    assert s[k + 1..] == rest[k..];
    assert touchesRight ==> s[k + 2..] == rest[k + 1..];
    var m := Segment(if touchesLeft then rest[k - 1].first else seg.first,
                     if touchesRight then rest[k].second else seg.second);
    Regroup(s[0], rest[..if touchesLeft then k - 1 else k], [m], rest[if touchesRight then k + 1 else k..]);
  }

  lemma Behind(s: seq<Segment>, k: nat)
    requires k < |s|
    ensures s[..k + 1] == [s[0]] + s[1..][..k]
  {
  }

  lemma Regroup(x: Segment, a: seq<Segment>, b: seq<Segment>, c: seq<Segment>)
    ensures ([x] + a) + b + c == [x] + (a + b + c)
  {
  }

  lemma AddedHead(s: seq<Segment>, seg: Segment)
    ensures |Added(s, seg)| > 0
    ensures Added(s, seg)[0].first == if |s| > 0 && Less(s[0], seg) then s[0].first else seg.first
  {
    if |s| > 0 && Less(s[0], seg) {
      AddedBehind(s, seg);
    } else {
      AddedFront(s, seg);
    }
  }

  lemma TailIsHeld(s: seq<Segment>, len: int)
    requires Held(s, len) && |s| > 0
    ensures Held(s[1..], len)
  {
  }

  lemma HarmlessTail(s: seq<Segment>, seg: Segment, len: int)
    requires Held(s, len) && Settled(s, len) && Fitting(seg, len)
    requires |s| > 0 && Less(s[0], seg) && s[0].second < len
    ensures Harmless(s, seg, len) <==> !Meet(s[0], seg) && Harmless(s[1..], seg, len)
  {
    var u := s[1..];
    assert forall i :: 0 < i < |s| ==> s[i] == u[i - 1];
    if i :| 0 <= i < |s| && s[i].second == len && Less(s[i], seg) {
      assert i > 1 ==> !Less(s[i], s[1]);
      assert u[i - 1] == s[i] && !Meet(s[0], seg);
    }
  }

  lemma {:induction false} FrontSettlesIffHarmless(s: seq<Segment>, seg: Segment, len: int)
    requires Held(s, len) && Settled(s, len) && Fitting(seg, len) && (|s| > 0 ==> !Less(s[0], seg))
    ensures Settled(Added(s, seg), len) <==> Harmless(s, seg, len)
  {
    AddedFront(s, seg);
    forall i | 0 <= i < |s| ensures !Less(s[i], seg) && s[0].first <= s[i].first {
      assert i > 0 ==> !Less(s[i], s[0]);
    }
    var t := Added(s, seg);
    if |s| > 0 && s[0].first == seg.second {
      assert t[1..] == s[1..];
    } else {
      assert t[1..] == s;
      assert Apart(s, seg) <==> |s| == 0 || !Meet(s[0], seg);
    }
  }

  /** The exact condition for an addition to keep a list settled. It can be checked on the list and the
      interval before the addition. */
  lemma {:induction false} SettledIffHarmless(s: seq<Segment>, seg: Segment, len: int)
    requires Held(s, len) && Settled(s, len) && Fitting(seg, len)
    ensures Settled(Added(s, seg), len) <==> Harmless(s, seg, len)
  {
    if |s| == 0 || !Less(s[0], seg) {
      FrontSettlesIffHarmless(s, seg, len);
    } else {
      var t, u := Added(s, seg), Added(s[1..], seg);
      AddedBehind(s, seg);
      AddedHead(s[1..], seg);
      assert t[1..] == u || t[1..] == u[1..];
      if s[0].second < len {
        TailIsHeld(s, len);
        SettledIffHarmless(s[1..], seg, len);
        HarmlessTail(s, seg, len);
      }
    }
  }

  lemma AdditionIsHeld(s: seq<Segment>, seg: Segment, len: int)
    requires Held(s, len) && Fitting(seg, len)
    ensures Held(Added(s, seg), len)
  {
    AddedKeepsOrder(s, seg, 0, len);
  }

  // ---------------------------------------------------------------- the count right after

  /** The exact condition for the count to be right just after an addition: where the new interval
      starts against the bytes counted so far decides. */
  lemma {:induction false} ExactAfterIff(s: seq<Segment>, seg: Segment, len: int)
    requires Held(s, len) && Settled(s, len) && Fitting(seg, len)
    ensures var b := BytesAvailable(s);
            Exact(Added(s, seg)) <==>
              if seg.first > b then true
              else if seg.first == b then Apart(s, seg) || !Covers(s, seg.second)
              else seg.second <= b && (seg.first == 0 ==> seg.second == b)
  {
    var b, t := BytesAvailable(s), Added(s, seg);
    SettledIsExact(s, len);
    AddedCovers(s, seg, BytesAvailable(t));
    AddedHead(s, seg);
    if seg.first == b {
      ExtendingIsExactIff(s, seg, len);
    } else if seg.first > b {
      if |s| > 0 && s[0].first == 0 {
        AddedBehind(s, seg);
      }
    } else if Less(s[0], seg) {
      AddedBehind(s, seg);
    } else {
      AddedFront(s, seg);
      assert seg.second < b ==> s[0].first <= seg.second < s[0].second;
    }
  }

  /** The new interval starts where the counted bytes end. */
  lemma {:induction false} ExtendingIsExactIff(s: seq<Segment>, seg: Segment, len: int)
    requires Held(s, len) && Settled(s, len) && Fitting(seg, len) && seg.first == BytesAvailable(s)
    ensures Exact(Added(s, seg)) <==> Apart(s, seg) || !Covers(s, seg.second)
  {
    var t := Added(s, seg);
    AddedCovers(s, seg, BytesAvailable(t));
    if Apart(s, seg) {
      SettledIffHarmless(s, seg, len);
      AdditionIsHeld(s, seg, len);
      SettledIsExact(t, len);
    } else {
      var r := if |s| > 0 && s[0].first == 0 then s[1..] else s;
      var i :| 0 <= i < |s| && Meet(s[i], seg);
      assert i > 0 ==> !Less(s[i], s[0]) && s[i] == s[1..][i - 1];
      assert |r| > 0 && i > 1 ==> !Less(s[i], s[1]);
      AddedFront(r, seg);
      if r != s {
        AddedBehind(s, seg);
      }
      assert BytesAvailable(t) == seg.second;
    }
  }

  // ---------------------------------------------------------------- a frozen count

  /** The first interval is followed by one that starts inside it, and ends at `c` or before. */
  predicate Frozen(s: seq<Segment>, c: int) {
    |s| > 1 && s[0].first == 0 && s[0].second <= c && s[1].first < s[0].second
  }

  /** Any addition that meets the counted bytes freezes the count. */
  lemma {:induction false} OverlapFreezes(s: seq<Segment>, seg: Segment)
    requires Sorted(s) && |s| > 0 && s[0].first == 0
    requires 0 <= seg.first < seg.second && seg.first < BytesAvailable(s)
    ensures Frozen(Added(s, seg), BytesAvailable(s))
  {
    if Less(s[0], seg) {
      AddedBehind(s, seg);
      AddedHead(s[1..], seg);
    } else {
      AddedFront(s, seg);
    }
  }

  /** No addition whatever raises a frozen count again. */
  lemma {:induction false} FrozenStays(s: seq<Segment>, seg: Segment, c: int)
    requires Sorted(s) && Frozen(s, c) && 0 <= seg.first < seg.second
    ensures Frozen(Added(s, seg), c) && BytesAvailable(Added(s, seg)) <= c
  {
    if Less(s[0], seg) {
      AddedBehind(s, seg);
      AddedHead(s[1..], seg);
    } else {
      AddedFront(s, seg);
    }
  }

  // ---------------------------------------------------------------- the count for ever after

  /** Intervals that may still arrive for a piece of `len` bytes without repeating anything. */
  ghost predicate Arriving(s: seq<Segment>, xs: seq<Segment>, len: int) {
    Proper(xs) && Within(xs, 0, len) && PairwiseDisjoint(xs) && AllFresh(s, xs)
  }

  lemma {:induction false} SettledStaysExact(s: seq<Segment>, xs: seq<Segment>, len: int)
    requires Held(s, len) && Settled(s, len) && Arriving(s, xs, len)
    ensures Exact(AddAll(s, xs))
    decreases |xs|
  {
    if |xs| == 0 {
      SettledIsExact(s, len);
    } else {
      FreshIsApart(s, xs[0]);
      SettledIffHarmless(s, xs[0], len);
      AdditionIsHeld(s, xs[0], len);
      RestIsFresh(s, xs);
      SettledStaysExact(Added(s, xs[0]), xs[1..], len);
    }
  }

  lemma ArrivingFirst(s: seq<Segment>, x: Segment, xs: seq<Segment>, len: int)
    requires Held(s, len) && Fitting(x, len) && Apart(s, x) && Arriving(Added(s, x), xs, len)
    ensures Arriving(s, [x] + xs, len) && AddAll(s, [x] + xs) == AddAll(Added(s, x), xs)
  {
    var ys := [x] + xs;
    assert ys[1..] == xs;
    FreshIsApart(s, x);
    forall i | 0 <= i < |xs| ensures Fresh(s, xs[i]) && !Meet(x, xs[i]) {
      forall y | xs[i].first <= y < xs[i].second ensures !Covers(s, y) && !(x.first <= y < x.second) {
        AddedCovers(s, x, y);
      }
      var y := if x.first <= xs[i].first then xs[i].first else x.first;
      assert Meet(x, xs[i]) ==> !Covers(s, y);
    }
    forall i | 0 <= i < |ys| ensures Fresh(s, ys[i]) {
      assert i > 0 ==> ys[i] == xs[i - 1];
    }
  }

  /** If a list is not settled, some intervals that may still arrive hide received bytes: filling the
      gaps before the first overlap does, or filling on behind it. */
  lemma {:induction false} UnsettledBreaks(s: seq<Segment>, len: int) returns (xs: seq<Segment>)
    requires Held(s, len) && !Settled(s, len)
    ensures Arriving(s, xs, len) && !Exact(AddAll(s, xs))
    decreases |s|, s[0].first
  {
    var e := s[0].second;
    if s[0].first > 0 {
      xs := FillFirst(s, Segment(0, s[0].first), len);
    } else if |s| > 1 && e < s[1].first {
      xs := FillFirst(s, Segment(e, s[1].first), len);
    } else if Covers(s, e) {
      xs := [];
    } else {
      var x := Segment(e, e + 1);
      assert s[1].first < e by {
        assert s[1].first <= e < s[1].second || s[1].first < e;
      }
      AddedBehind(s, x);
      AddedCovers(s, x, e);
      FreshIsApart(s, x);
      ArrivingFirst(s, x, [], len);
      xs := [x] + [];
    }
  }

  /** Filling the first gap. */
  lemma {:induction false} FillFirst(s: seq<Segment>, x: Segment, len: int) returns (xs: seq<Segment>)
    requires Held(s, len) && !Settled(s, len)
    requires if s[0].first > 0 then x == Segment(0, s[0].first)
             else |s| > 1 && s[0].second < s[1].first && x == Segment(s[0].second, s[1].first)
    ensures Arriving(s, xs, len) && !Exact(AddAll(s, xs))
    decreases |s|, s[0].first, 0
  {
    var t := Added(s, x);
    forall i | 0 <= i < |s| ensures !Meet(s[i], x) {
      assert i > 0 ==> !Less(s[i], s[0]);
      assert i > 1 ==> !Less(s[i], s[1]);
    }
    if s[0].first > 0 {
      AddedFront(s, x);
      assert t[1..] == s[1..];
    } else {
      AddedFront(s[1..], x);
      AddedBehind(s, x);
      assert t == [Segment(0, s[1].second)] + s[2..];
      assert t[1..] == s[1..][1..];
    }
    AdditionIsHeld(s, x, len);
    xs := UnsettledBreaks(t, len);
    ArrivingFirst(s, x, xs, len);
    xs := [x] + xs;
  }

  /** The exact condition for an addition to do no harm, now or later: whatever may still arrive, the
      count of available bytes is right if and only if the addition is harmless. */
  lemma HarmlessIffExactForEver(s: seq<Segment>, seg: Segment, len: int)
    requires Held(s, len) && Settled(s, len) && Fitting(seg, len)
    ensures Harmless(s, seg, len) <==>
              forall xs :: Arriving(Added(s, seg), xs, len) ==> Exact(AddAll(Added(s, seg), xs))
  {
    var t := Added(s, seg);
    SettledIffHarmless(s, seg, len);
    AdditionIsHeld(s, seg, len);
    if Harmless(s, seg, len) {
      forall xs | Arriving(t, xs, len) ensures Exact(AddAll(t, xs)) {
        SettledStaysExact(t, xs, len);
      }
    } else {
      var xs := UnsettledBreaks(t, len);
    }
  }

  // ---------------------------------------------------------------- a repeated interval

  /** Intervals that start together are not merged: one that repeats the first comes to stand first. */
  lemma {:induction false} RepeatGoesFirst(s: seq<Segment>, seg: Segment)
    requires |s| == 1 && seg.first == s[0].first < seg.second <= s[0].second
    ensures |Added(s, seg)| == 2 && Added(s, seg)[0] == seg && Added(s, seg)[1] == s[0]
  {
    AddedFront(s, seg);
  }

  lemma {:induction false} LaterJoinsOnly(s: seq<Segment>, later: Segment)
    requires |s| == 1 && s[0].first < s[0].second == later.first < later.second
    ensures Added(s, later) == [Segment(s[0].first, later.second)]
  {
    AddedFront(s[1..], later);
    AddedBehind(s, later);
  }

  /** What then follows is glued to the second. */
  lemma {:induction false} LaterJoinsSecond(s: seq<Segment>, later: Segment)
    requires |s| == 2 && s[0].first == s[1].first < s[0].second <= s[1].second == later.first < later.second
    ensures |Added(s, later)| == 2 && Added(s, later)[0] == s[0]
    ensures Added(s, later)[1] == Segment(s[1].first, later.second)
  {
    LaterJoinsOnly(s[1..], later);
    AddedBehind(s, later);
  }

  /** An instance: all of [0, c) is covered, but only the repeated bytes count as available. */
  lemma {:induction false} RepeatHidesBytes(s: seq<Segment>, seg: Segment, later: Segment)
    requires |s| == 1 && 0 == seg.first == s[0].first < seg.second <= s[0].second == later.first < later.second
    ensures var t := Added(Added(s, seg), later);
            && (forall x :: 0 <= x < later.second ==> Covers(t, x))
            && BytesAvailable(t) == seg.second && Frozen(t, seg.second)
  {
    RepeatGoesFirst(s, seg);
    LaterJoinsSecond(Added(s, seg), later);
    var t := Added(Added(s, seg), later);
    forall x | 0 <= x < later.second ensures Covers(t, x) {
      assert t[1].first <= x < t[1].second;
    }
  }
}
