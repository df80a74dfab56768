/** The pool of reference-counted video frames handed to the decoder. */
module FramePool {

  /** A frame's control block; every frame that is made gets a new one. */
  type FrameId = nat

  /** A `shared_ptr`: empty, or one of the owners of a frame. */
  datatype Pointer = Null | To(frame: FrameId)

  /** The stream's fields, the copies held by outputs, and the counters of all living frames. */
  datatype Pool = Pool(frames: seq<FrameId>, lockedFrames: seq<FrameId>, renderFrame: Pointer,
                       outputs: seq<FrameId>, useCount: map<FrameId, nat>, nextFrame: FrameId)

  // ---------------------------------------------------------------- counters

  function Counter(m: map<FrameId, nat>, f: FrameId): nat {
    if f in m then m[f] else 0
  }

  /** Copying a `shared_ptr`. */
  function Retain(m: map<FrameId, nat>, f: FrameId): map<FrameId, nat> {
    m[f := Counter(m, f) + 1]
  }

  /** Resetting or destroying a `shared_ptr`; its last owner destroys the frame. */
  function Release(m: map<FrameId, nat>, f: FrameId): map<FrameId, nat> {
    if Counter(m, f) <= 1 then m - {f} else m[f := Counter(m, f) - 1]
  }

  function ReleaseAll(m: map<FrameId, nat>, s: seq<FrameId>): map<FrameId, nat> {
    if |s| == 0 then m else ReleaseAll(Release(m, s[0]), s[1..])
  }

  function ReleasePointer(m: map<FrameId, nat>, p: Pointer): map<FrameId, nat> {
    if p.To? then Release(m, p.frame) else m
  }

  /** How many members of a list own the frame. */
  function Times(s: seq<FrameId>, f: FrameId): nat {
    if |s| == 0 then 0 else (if s[0] == f then 1 else 0) + Times(s[1..], f)
  }

  function Points(p: Pointer, f: FrameId): nat {
    if p == To(f) then 1 else 0
  }

  /** The list after `std::find` and `erase`. */
  function Without(s: seq<FrameId>, f: FrameId): seq<FrameId> {
    if |s| == 0 then [] else if s[0] == f then s[1..] else [s[0]] + Without(s[1..], f)
  }

  lemma {:induction false} TimesAppend(s: seq<FrameId>, g: FrameId, f: FrameId)
    ensures Times(s + [g], f) == Times(s, f) + (if f == g then 1 else 0)
  {
    if |s| == 0 {
      assert s + [g] == [g];
    } else {
      assert (s + [g])[1..] == s[1..] + [g];
      TimesAppend(s[1..], g, f);
    }
  }

  lemma {:induction false} TimesWithout(s: seq<FrameId>, g: FrameId, f: FrameId)
    requires Times(s, g) > 0
    ensures Times(Without(s, g), f) == Times(s, f) - (if f == g then 1 else 0)
  {
    if s[0] != g {
      TimesWithout(s[1..], g, f);
      assert ([s[0]] + Without(s[1..], g))[1..] == Without(s[1..], g);
    }
  }

  lemma {:induction false} TimesAt(s: seq<FrameId>, i: nat)
    requires i < |s|
    ensures Times(s, s[i]) > 0
  {
    if i > 0 {
      TimesAt(s[1..], i - 1);
    }
  }

  lemma {:induction false} ReleaseAllCounts(m: map<FrameId, nat>, s: seq<FrameId>, f: FrameId)
    requires forall g :: Counter(m, g) >= Times(s, g)
    ensures Counter(ReleaseAll(m, s), f) == Counter(m, f) - Times(s, f)
    decreases |s|
  {
    if |s| > 0 {
      forall g ensures Counter(Release(m, s[0]), g) >= Times(s[1..], g) {
        assert Counter(m, g) >= Times(s, g);
        assert Counter(m, s[0]) >= Times(s, s[0]);
      }
      assert Counter(m, s[0]) >= Times(s, s[0]);
      ReleaseAllCounts(Release(m, s[0]), s[1..], f);
    }
  }

  lemma {:induction false} ReleaseAllKeys(m: map<FrameId, nat>, s: seq<FrameId>)
    requires forall f :: f in m ==> m[f] > 0
    ensures ReleaseAll(m, s).Keys <= m.Keys
    ensures forall f :: f in ReleaseAll(m, s) ==> ReleaseAll(m, s)[f] > 0
    decreases |s|
  {
    if |s| > 0 {
      ReleaseAllKeys(Release(m, s[0]), s[1..]);
    }
  }

  // ---------------------------------------------------------------- the callbacks

  /** All `shared_ptr`s to a frame. */
  function Owners(p: Pool, f: FrameId): nat {
    Times(p.frames, f) + Holders(p, f)
  }

  /** The `shared_ptr`s to a frame outside the pool's own list. */
  function Holders(p: Pool, f: FrameId): nat {
    Times(p.lockedFrames, f) + Points(p.renderFrame, f) + Times(p.outputs, f)
  }

  function Empty(): Pool {
    Pool([], [], Null, [], map[], 0)
  }

  /** A new frame at the end of the pool, owned by the pool alone. */
  function NewFrame(p: Pool): Pool {
    p.(frames := p.frames + [p.nextFrame], useCount := Retain(p.useCount, p.nextFrame), nextFrame := p.nextFrame + 1)
  }

  /** The scan of lockCallback: the first frame whose count is not above one. */
  function FirstFree(p: Pool, i: nat): (k: nat)
    requires i <= |p.frames|
    ensures i <= k <= |p.frames|
    ensures k < |p.frames| ==> Counter(p.useCount, p.frames[k]) <= 1
    ensures forall j :: i <= j < k ==> Counter(p.useCount, p.frames[j]) > 1
    decreases |p.frames| - i
  {
    if i < |p.frames| && Counter(p.useCount, p.frames[i]) > 1 then FirstFree(p, i + 1) else i
  }

  function Lock(p: Pool): Pool {
    var k := FirstFree(p, 0);
    var q := if k == |p.frames| then NewFrame(p) else p;
    q.(lockedFrames := q.lockedFrames + [q.frames[k]], useCount := Retain(q.useCount, q.frames[k]))
  }

  function Unlock(p: Pool, picture: nat): Pool {
    if picture >= |p.frames| then p
    else p.(lockedFrames := Without(p.lockedFrames, p.frames[picture]),
            useCount := Release(p.useCount, p.frames[picture]))
  }

  /** Assigning a `shared_ptr` copies the new one before it lets the old one go. */
  function Display(p: Pool, picture: nat): Pool {
    if picture >= |p.frames| then p
    else p.(renderFrame := To(p.frames[picture]),
            useCount := ReleasePointer(Retain(p.useCount, p.frames[picture]), p.renderFrame))
  }

  function TakeOutput(p: Pool): Pool {
    if p.renderFrame.Null? then p
    else p.(outputs := p.outputs + [p.renderFrame.frame], useCount := Retain(p.useCount, p.renderFrame.frame))
  }

  function DropOutput(p: Pool, f: FrameId): Pool {
    p.(outputs := Without(p.outputs, f), useCount := Release(p.useCount, f))
  }

  function CleanUp(p: Pool): Pool {
    p.(renderFrame := Null, lockedFrames := [], frames := [],
       useCount := ReleaseAll(ReleaseAll(ReleasePointer(p.useCount, p.renderFrame), p.lockedFrames), p.frames))
  }

  // ---------------------------------------------------------------- the accounting

  ghost predicate Accounted(p: Pool) {
    && (forall f :: Counter(p.useCount, f) == Owners(p, f))
    && (forall f :: f in p.useCount ==> p.useCount[f] > 0 && f < p.nextFrame)
  }

  /** Nothing is in the pool twice, and what is locked or shown is in the pool, locked once. */
  ghost predicate Orderly(p: Pool) {
    && (forall f :: Times(p.lockedFrames, f) <= Times(p.frames, f) <= 1)
    && (p.renderFrame.To? ==> Times(p.frames, p.renderFrame.frame) == 1)
  }

  ghost predicate Inv(p: Pool) {
    Accounted(p) && Orderly(p)
  }

  /** The counter of a pool frame: one for the pool and one for each other holder. */
  lemma PoolFrameCount(p: Pool, k: nat)
    requires Inv(p) && k < |p.frames|
    ensures p.frames[k] in p.useCount && p.useCount[p.frames[k]] == 1 + Holders(p, p.frames[k])
    ensures Times(p.frames, p.frames[k]) == 1
  {
    TimesAt(p.frames, k);
    assert Times(p.frames, p.frames[k]) <= 1;
    assert Counter(p.useCount, p.frames[k]) == Owners(p, p.frames[k]);
  }

  lemma NewFrameOk(p: Pool)
    requires Inv(p)
    ensures Inv(NewFrame(p)) && Holders(NewFrame(p), p.nextFrame) == 0
  {
    var q := NewFrame(p);
    assert Counter(p.useCount, p.nextFrame) == Owners(p, p.nextFrame);
    forall f ensures Times(q.frames, f) == Times(p.frames, f) + (if f == p.nextFrame then 1 else 0) {
      TimesAppend(p.frames, p.nextFrame, f);
    }
    forall f ensures Counter(q.useCount, f) == Owners(q, f) {
      assert Counter(p.useCount, f) == Owners(p, f);
    }
    forall f ensures Times(q.lockedFrames, f) <= Times(q.frames, f) <= 1 {
      assert Times(p.lockedFrames, f) <= Times(p.frames, f) <= 1;
    }
  }

  /** The scan stops at a frame nobody holds; if it reaches the end, every pool frame is held. */
  lemma ScanFindsFree(p: Pool)
    requires Inv(p)
    ensures var k := FirstFree(p, 0);
            && (k < |p.frames| ==> Holders(p, p.frames[k]) == 0)
            && (forall j :: 0 <= j < k ==> Holders(p, p.frames[j]) > 0)
  {
    var k := FirstFree(p, 0);
    if k < |p.frames| {
      PoolFrameCount(p, k);
    }
    forall j | 0 <= j < k ensures Holders(p, p.frames[j]) > 0 {
      PoolFrameCount(p, j);
    }
  }

  /** lockCallback hands out a frame that at this moment nobody else holds, and reuses the pool
      whenever one of its frames is free. */
  lemma LockIsExclusive(p: Pool)
    requires Inv(p)
    ensures Inv(Lock(p))
    ensures var k, q := FirstFree(p, 0), Lock(p);
            && k < |q.frames| && p.frames <= q.frames
            && q.lockedFrames == p.lockedFrames + [q.frames[k]]
            && Holders(p, q.frames[k]) == 0 && Holders(q, q.frames[k]) == 1
            && (|q.frames| > |p.frames| <==> forall j :: 0 <= j < |p.frames| ==> Holders(p, p.frames[j]) > 0)
  {
    var k := FirstFree(p, 0);
    ScanFindsFree(p);
    var q := if k == |p.frames| then NewFrame(p) else p;
    NewFrameOk(p);
    assert q.frames[k] == if k == |p.frames| then p.nextFrame else p.frames[k];
    LockFrameOk(q, k);
  }

  lemma LockFrameOk(p: Pool, k: nat)
    requires Inv(p) && k < |p.frames| && Holders(p, p.frames[k]) == 0
    ensures var q := p.(lockedFrames := p.lockedFrames + [p.frames[k]], useCount := Retain(p.useCount, p.frames[k]));
            Inv(q) && Holders(q, p.frames[k]) == 1
  {
    var g := p.frames[k];
    var q := p.(lockedFrames := p.lockedFrames + [g], useCount := Retain(p.useCount, g));
    PoolFrameCount(p, k);
    forall f ensures Times(q.lockedFrames, f) == Times(p.lockedFrames, f) + (if f == g then 1 else 0) {
      TimesAppend(p.lockedFrames, g, f);
    }
    forall f ensures Counter(q.useCount, f) == Owners(q, f) {
      assert Counter(p.useCount, f) == Owners(p, f);
    }
    forall f ensures Times(q.lockedFrames, f) <= Times(q.frames, f) <= 1 {
      assert Times(p.lockedFrames, f) <= Times(p.frames, f) <= 1;
    }
  }

  lemma UnlockOk(p: Pool, picture: nat)
    requires Inv(p) && (picture < |p.frames| ==> Times(p.lockedFrames, p.frames[picture]) > 0)
    ensures Inv(Unlock(p, picture))
    ensures picture < |p.frames| ==> Times(Unlock(p, picture).lockedFrames, p.frames[picture]) == 0
  {
    if picture < |p.frames| {
      var g, q := p.frames[picture], Unlock(p, picture);
      PoolFrameCount(p, picture);
      assert Times(p.lockedFrames, g) <= Times(p.frames, g);
      forall f ensures Times(q.lockedFrames, f) == Times(p.lockedFrames, f) - (if f == g then 1 else 0) {
        TimesWithout(p.lockedFrames, g, f);
      }
      forall f ensures Counter(q.useCount, f) == Owners(q, f) {
        assert Counter(p.useCount, f) == Owners(p, f);
      }
      forall f ensures Times(q.lockedFrames, f) <= Times(q.frames, f) <= 1 {
        assert Times(p.lockedFrames, f) <= Times(p.frames, f) <= 1;
      }
    }
  }

  lemma DisplayOk(p: Pool, picture: nat)
    requires Inv(p)
    ensures Inv(Display(p, picture))
  {
    if picture < |p.frames| {
      var g, q := p.frames[picture], Display(p, picture);
      PoolFrameCount(p, picture);
      if p.renderFrame.To? {
        assert Counter(p.useCount, p.renderFrame.frame) == Owners(p, p.renderFrame.frame);
      }
      forall f ensures Counter(q.useCount, f) == Owners(q, f) {
        assert Counter(p.useCount, f) == Owners(p, f);
      }
      forall f ensures Times(q.lockedFrames, f) <= Times(q.frames, f) <= 1 {
        assert Times(p.lockedFrames, f) <= Times(p.frames, f) <= 1;
      }
    }
  }

  lemma TakeOutputOk(p: Pool)
    requires Inv(p)
    ensures Inv(TakeOutput(p))
  {
    if p.renderFrame.To? {
      var g, q := p.renderFrame.frame, TakeOutput(p);
      assert Counter(p.useCount, g) == Owners(p, g);
      forall f ensures Counter(q.useCount, f) == Owners(q, f) {
        TimesAppend(p.outputs, g, f);
        assert Counter(p.useCount, f) == Owners(p, f);
      }
      forall f ensures Times(q.lockedFrames, f) <= Times(q.frames, f) <= 1 {
        assert Times(p.lockedFrames, f) <= Times(p.frames, f) <= 1;
      }
    }
  }

  lemma DropOutputOk(p: Pool, g: FrameId)
    requires Inv(p) && Times(p.outputs, g) > 0
    ensures Inv(DropOutput(p, g))
  {
    var q := DropOutput(p, g);
    assert Counter(p.useCount, g) == Owners(p, g);
    forall f ensures Counter(q.useCount, f) == Owners(q, f) {
      TimesWithout(p.outputs, g, f);
      assert Counter(p.useCount, f) == Owners(p, f);
    }
    forall f ensures Times(q.lockedFrames, f) <= Times(q.frames, f) <= 1 {
      assert Times(p.lockedFrames, f) <= Times(p.frames, f) <= 1;
    }
  }

  /** After a cleanup exactly the frames held by outputs are still alive. */
  lemma CleanUpOk(p: Pool)
    requires Inv(p)
    ensures Inv(CleanUp(p))
    ensures forall f :: Counter(CleanUp(p).useCount, f) == Times(p.outputs, f)
  {
    var q := CleanUp(p);
    var m1 := ReleasePointer(p.useCount, p.renderFrame);
    var m2 := ReleaseAll(m1, p.lockedFrames);
    forall f ensures Counter(m1, f) == Times(p.frames, f) + Times(p.lockedFrames, f) + Times(p.outputs, f) {
      assert Counter(p.useCount, f) == Owners(p, f);
      assert p.renderFrame.To? ==>
          Counter(p.useCount, p.renderFrame.frame) == Owners(p, p.renderFrame.frame);
    }
    forall f ensures Counter(m2, f) == Times(p.frames, f) + Times(p.outputs, f) {
      ReleaseAllCounts(m1, p.lockedFrames, f);
    }
    forall f ensures Counter(q.useCount, f) == Times(p.outputs, f) {
      ReleaseAllCounts(m2, p.frames, f);
    }
    ReleaseAllKeys(m1, p.lockedFrames);
    ReleaseAllKeys(m2, p.frames);
  }

  // ---------------------------------------------------------------- runs

  datatype Event =
    | FormatEvent
    | LockEvent
    | UnlockEvent(picture: nat)
    | DisplayEvent(picture: nat)
    | TakeEvent
    | DropEvent(frame: FrameId)
    | CleanUpEvent

  /** A pool with its history since the last cleanup: the largest number of pool frames held at
      once, and the number of format calls. */
  datatype History = History(pool: Pool, peak: nat, formats: nat)

  /** The contract of the decoder and the outputs: frames are locked after a format call, and only
      what was locked or taken is given back. */
  predicate Allowed(p: Pool, e: Event) {
    match e
    case LockEvent => |p.frames| > 0
    case UnlockEvent(picture) => picture < |p.frames| ==> Times(p.lockedFrames, p.frames[picture]) > 0
    case DropEvent(frame) => Times(p.outputs, frame) > 0
    case _ => true
  }

  function After(p: Pool, e: Event): Pool {
    match e
    case FormatEvent => NewFrame(p)
    case LockEvent => Lock(p)
    case UnlockEvent(picture) => Unlock(p, picture)
    case DisplayEvent(picture) => Display(p, picture)
    case TakeEvent => TakeOutput(p)
    case DropEvent(frame) => DropOutput(p, frame)
    case CleanUpEvent => CleanUp(p)
  }

  /** How many of the listed frames somebody holds. */
  function HeldAmong(p: Pool, s: seq<FrameId>): nat {
    if |s| == 0 then 0 else (if Holders(p, s[0]) > 0 then 1 else 0) + HeldAmong(p, s[1..])
  }

  function Step(h: History, e: Event): History {
    var p := After(h.pool, e);
    var held := HeldAmong(p, p.frames);
    if e.CleanUpEvent? then History(p, 0, 0)
    else History(p, if held > h.peak then held else h.peak, if e.FormatEvent? then h.formats + 1 else h.formats)
  }

  /** A list of events is a run if each is allowed when it happens. */
  predicate IsRun(h: History, events: seq<Event>)
    decreases |events|
  {
    |events| == 0 || (Allowed(h.pool, events[0]) && IsRun(Step(h, events[0]), events[1..]))
  }

  function Final(h: History, events: seq<Event>): History
    decreases |events|
  {
    if |events| == 0 then h else Final(Step(h, events[0]), events[1..])
  }

  /** Beyond the frames that were ever held at once, the pool has at most one frame for each format call but
      one; after a single call that is max(1, peak). */
  predicate Bounded(h: History) {
    if h.formats == 0 then |h.pool.frames| == 0
    else |h.pool.frames| <= if h.peak > 0 then h.peak + h.formats - 1 else h.formats
  }

  /** Whether an event changes what is shown: a display of an index in range, or a cleanup. */
  predicate Shows(p: Pool, e: Event) {
    e.CleanUpEvent? || (e.DisplayEvent? && e.picture < |p.frames|)
  }

  /** All that an event does, apart from the counters: to the pool's list, to what is locked, to what is shown
      and to what outputs hold. With `Accounted` this fixes the counters as well. */
  lemma EventEffect(p: Pool, e: Event, f: FrameId)
    requires Inv(p) && Allowed(p, e)
    ensures var q := After(p, e);
            q.frames == match e
                        case CleanUpEvent => []
                        case FormatEvent => p.frames + [p.nextFrame]
                        case LockEvent =>
                          if forall j :: 0 <= j < |p.frames| ==> Holders(p, p.frames[j]) > 0 then p.frames + [p.nextFrame]
                          else p.frames
                        case _ => p.frames
    ensures After(p, e).renderFrame
            == if e.CleanUpEvent? then Null else if Shows(p, e) then To(p.frames[e.picture]) else p.renderFrame
    ensures Times(After(p, e).outputs, f)
            == Times(p.outputs, f) + (if e.TakeEvent? && p.renderFrame == To(f) then 1 else 0)
               - (if e == DropEvent(f) then 1 else 0)
    ensures e.CleanUpEvent? ==> After(p, e).lockedFrames == []
    ensures e.UnlockEvent? ==>
              Times(After(p, e).lockedFrames, f)
              == if e.picture < |p.frames| && p.frames[e.picture] == f then 0 else Times(p.lockedFrames, f)
    ensures !e.CleanUpEvent? && !e.UnlockEvent? && !e.LockEvent? ==> After(p, e).lockedFrames == p.lockedFrames
  {
    match e
    case LockEvent => LockIsExclusive(p);
    case UnlockEvent(picture) =>
      if picture < |p.frames| {
        UnlockOk(p, picture);
        TimesWithout(p.lockedFrames, p.frames[picture], f);
      }
    case TakeEvent =>
      if p.renderFrame.To? {
        TimesAppend(p.outputs, p.renderFrame.frame, f);
      }
    case DropEvent(frame) => TimesWithout(p.outputs, frame, f);
    case _ =>
  }

  /** A display of an index in range shows that frame, whether it is locked or not: its owners grow by the new
      rendering, the owners of the frame shown before shrink by the old one, and nothing else changes. */
  lemma DisplayShows(p: Pool, picture: nat, f: FrameId)
    requires Inv(p) && picture < |p.frames|
    ensures var q := Display(p, picture);
            && q.renderFrame == To(p.frames[picture])
            && q.frames == p.frames && q.lockedFrames == p.lockedFrames && q.outputs == p.outputs
            && Counter(q.useCount, f) == Counter(p.useCount, f)
                                         + (if p.frames[picture] == f then 1 else 0)
                                         - (if p.renderFrame == To(f) then 1 else 0)
  {
    DisplayOk(p, picture);
    assert Counter(Display(p, picture).useCount, f) == Owners(Display(p, picture), f);
    assert Counter(p.useCount, f) == Owners(p, f);
  }

  /** The frame shown after a run: the one of its last display in range, unless a cleanup came after. */
  function LastShown(h: History, events: seq<Event>): Pointer
    decreases |events|
  {
    if |events| == 0 then h.pool.renderFrame
    else
      var most, last := events[..|events| - 1], events[|events| - 1];
      var p := Final(h, most).pool;
      if last.CleanUpEvent? then Null
      else if last.DisplayEvent? && last.picture < |p.frames| then To(p.frames[last.picture])
      else LastShown(h, most)
  }

  lemma {:induction false} FinalLast(h: History, events: seq<Event>)
    requires |events| > 0
    ensures var most, last := events[..|events| - 1], events[|events| - 1];
            Final(h, events) == Step(Final(h, most), last)
            && (IsRun(h, events) <==> IsRun(h, most) && Allowed(Final(h, most).pool, last))
    decreases |events|
  {
    if |events| > 1 {
      var rest := events[1..];
      assert rest[..|rest| - 1] == events[..|events| - 1][1..] && rest[|rest| - 1] == events[|events| - 1];
      FinalLast(Step(h, events[0]), rest);
    } else {
      assert events[1..] == [];
    }
  }

  lemma {:induction false} RenderedIsLastShown(h: History, events: seq<Event>)
    requires Inv(h.pool) && IsRun(h, events)
    ensures Inv(Final(h, events).pool) && Final(h, events).pool.renderFrame == LastShown(h, events)
    decreases |events|
  {
    if |events| > 0 {
      var most, last := events[..|events| - 1], events[|events| - 1];
      FinalLast(h, events);
      RenderedIsLastShown(h, most);
      EventEffect(Final(h, most).pool, last, 0);
      StepOk(Final(h, most), last);
    }
  }

  /** The ordinary cycle, from a stream without frames: a decoder that locks, unlocks and then displays a
      picture shows it. */
  lemma OrdinaryCycleShows(h: History, events: seq<Event>)
    requires Inv(h.pool) && |h.pool.frames| == 0
    requires events == [FormatEvent, LockEvent, UnlockEvent(0), DisplayEvent(0)]
    ensures IsRun(h, events) && Final(h, events).pool.renderFrame == To(h.pool.nextFrame)
  {
    OneLocked(h.pool);
    RunOfFour(h, events);
  }

  lemma RunOfFour(h: History, events: seq<Event>)
    requires |events| == 4
    ensures var h1 := Step(h, events[0]); var h2 := Step(h1, events[1]); var h3 := Step(h2, events[2]);
            var h4 := Step(h3, events[3]);
            && Final(h, events) == h4
            && (IsRun(h, events) <==>
                  Allowed(h.pool, events[0]) && Allowed(h1.pool, events[1]) && Allowed(h2.pool, events[2])
                  && Allowed(h3.pool, events[3]))
  {
    var e1, e2, e3 := events[1..], events[2..], events[3..];
    assert e1[1..] == e2 && e2[1..] == e3 && e3[1..] == [];
    var h1 := Step(h, events[0]); var h2 := Step(h1, events[1]); var h3 := Step(h2, events[2]);
    assert Final(h3, e3) == Step(h3, events[3]) && Final(h2, e2) == Final(h3, e3) && Final(h1, e1) == Final(h2, e2);
    assert IsRun(h3, e3) <==> Allowed(h3.pool, events[3]);
    assert IsRun(h2, e2) <==> Allowed(h2.pool, events[2]) && IsRun(h3, e3);
  }

  /** The number of held frames among frames that do not repeat. */
  lemma {:induction false} HeldAmongIsCount(p: Pool, s: seq<FrameId>)
    requires forall f :: Times(s, f) <= 1
    ensures HeldAmong(p, s) == |set f | f in s && Holders(p, f) > 0|
  {
    var held := set f | f in s && Holders(p, f) > 0;
    if |s| > 0 {
      var rest := set f | f in s[1..] && Holders(p, f) > 0;
      forall f ensures Times(s[1..], f) <= 1 {
        assert Times(s, f) <= 1;
      }
      HeldAmongIsCount(p, s[1..]);
      assert s[0] !in s[1..] by {
        assert Times(s, s[0]) <= 1;
        if s[0] in s[1..] {
          var i :| 0 <= i < |s| - 1 && s[1..][i] == s[0];
          TimesAt(s[1..], i);
        }
      }
      assert forall f :: f in s <==> f == s[0] || f in s[1..];
      if Holders(p, s[0]) > 0 {
        assert held == rest + {s[0]};
      } else {
        assert held == rest;
      }
    } else {
      assert held == {};
    }
  }

  /** The peak is the largest number of pool frames held at once since the last cleanup: over a run without
      one it is the largest of the peak before and the numbers in the states of the run. */
  lemma {:induction false} PeakIsLargest(h: History, events: seq<Event>)
    requires forall i :: 0 <= i < |events| ==> !events[i].CleanUpEvent?
    ensures var peak := Final(h, events).peak;
            && h.peak <= peak
            && (forall n :: 0 < n <= |events| ==> HeldAt(h, events, n) <= peak)
            && (peak == h.peak || exists n :: 0 < n <= |events| && HeldAt(h, events, n) == peak)
    decreases |events|
  {
    if |events| > 0 {
      var most, peak := events[..|events| - 1], Final(h, events).peak;
      FinalLast(h, events);
      PeakIsLargest(h, most);
      assert events[..|events|] == events;
      forall n | 0 < n < |events| ensures HeldAt(h, events, n) == HeldAt(h, most, n) {
        assert most[..n] == events[..n];
      }
      if peak != h.peak && peak != HeldAt(h, events, |events|) {
        var n :| 0 < n <= |most| && HeldAt(h, most, n) == peak;
        assert HeldAt(h, events, n) == peak;
      }
    }
  }

  /** The number of pool frames held after the first `n` events. */
  function HeldAt(h: History, events: seq<Event>, n: nat): nat
    requires n <= |events|
  {
    var p := Final(h, events[..n]).pool;
    HeldAmong(p, p.frames)
  }

  lemma StepOk(h: History, e: Event)
    requires Inv(h.pool) && Allowed(h.pool, e)
    ensures Inv(Step(h, e).pool)
  {
    match e
    case FormatEvent => NewFrameOk(h.pool);
    case LockEvent => LockIsExclusive(h.pool);
    case UnlockEvent(picture) => UnlockOk(h.pool, picture);
    case DisplayEvent(picture) => DisplayOk(h.pool, picture);
    case TakeEvent => TakeOutputOk(h.pool);
    case DropEvent(frame) => DropOutputOk(h.pool, frame);
    case CleanUpEvent => CleanUpOk(h.pool);
  }

  lemma {:induction false} AllHeld(p: Pool, s: seq<FrameId>)
    requires forall i :: 0 <= i < |s| ==> Holders(p, s[i]) > 0
    ensures HeldAmong(p, s) == |s|
  {
    if |s| > 0 {
      AllHeld(p, s[1..]);
    }
  }

  /** When the pool grows, all of its frames are held at that moment. */
  lemma GrowingMeansAllHeld(p: Pool)
    requires Inv(p) && |Lock(p).frames| > |p.frames|
    ensures HeldAmong(Lock(p), Lock(p).frames) == |Lock(p).frames|
  {
    var q := Lock(p);
    LockIsExclusive(p);
    forall i | 0 <= i < |q.frames| ensures Holders(q, q.frames[i]) > 0 {
      TimesAppend(p.lockedFrames, q.frames[FirstFree(p, 0)], q.frames[i]);
      if i < |p.frames| {
        assert q.frames[i] == p.frames[i];
      }
    }
    AllHeld(q, q.frames);
  }

  lemma StepBounded(h: History, e: Event)
    requires Inv(h.pool) && Allowed(h.pool, e) && Bounded(h)
    ensures Bounded(Step(h, e))
  {
    if e.LockEvent? && |Lock(h.pool).frames| > |h.pool.frames| {
      GrowingMeansAllHeld(h.pool);
    }
  }

  /** In every run the counters are exact, no frame is locked twice, what is locked or shown belongs
      to the pool, and the pool is no larger than its bound. */
  lemma {:induction false} RunsAreAccounted(h: History, events: seq<Event>)
    requires Inv(h.pool) && Bounded(h) && IsRun(h, events)
    ensures Inv(Final(h, events).pool) && Bounded(Final(h, events))
    decreases |events|
  {
    if |events| > 0 {
      StepOk(h, events[0]);
      StepBounded(h, events[0]);
      RunsAreAccounted(Step(h, events[0]), events[1..]);
    }
  }

  /** Until the next cleanup an index returned by a lock keeps denoting the same frame. */
  lemma {:induction false} IndicesAreStable(h: History, events: seq<Event>, picture: nat)
    requires Inv(h.pool) && IsRun(h, events) && picture < |h.pool.frames|
    requires forall i :: 0 <= i < |events| ==> !events[i].CleanUpEvent?
    ensures var frames := Final(h, events).pool.frames;
            picture < |frames| && frames[picture] == h.pool.frames[picture]
    decreases |events|
  {
    if |events| > 0 {
      StepOk(h, events[0]);
      IndicesAreStable(Step(h, events[0]), events[1..], picture);
    }
  }

  /** Between giving a frame back and showing it, the frame may have no holder. Exactly when the next lock
      hands it out again: nobody but the pool and the lock owned it, and every earlier frame is held. */
  lemma RelockIff(p: Pool, picture: nat)
    requires Inv(p) && picture < |p.frames| && Times(p.lockedFrames, p.frames[picture]) == 1
    ensures FirstFree(Unlock(p, picture), 0) == picture <==>
              && Owners(p, p.frames[picture]) == 2
              && forall j :: 0 <= j < picture ==> Holders(p, p.frames[j]) > 0
  {
    var u, k := Unlock(p, picture), FirstFree(Unlock(p, picture), 0);
    UnlockOk(p, picture);
    ScanFindsFree(u);
    PoolFrameCount(p, picture);
    forall j | 0 <= j <= picture
      ensures Holders(u, p.frames[j]) == Holders(p, p.frames[j]) - (if j == picture then 1 else 0)
    {
      TimesWithout(p.lockedFrames, p.frames[picture], p.frames[j]);
      PoolFrameCount(p, j);
      if j < picture {
        TwiceIfEqual(p.frames, j, picture);
      }
    }
  }

  /** A member that stands at two places is counted twice. */
  lemma {:induction false} TwiceIfEqual(s: seq<FrameId>, i: nat, j: nat)
    requires i < j < |s|
    ensures s[i] == s[j] ==> Times(s, s[j]) >= 2
  {
    if i == 0 {
      TimesAt(s[1..], j - 1);
    } else {
      TwiceIfEqual(s[1..], i - 1, j - 1);
    }
  }

  /** What is then shown is locked, and decoded into, in exactly that case. */
  lemma RelockBeforeDisplay(p: Pool, picture: nat)
    requires Inv(p) && picture < |p.frames| && Times(p.lockedFrames, p.frames[picture]) == 1
    ensures var q := Display(Lock(Unlock(p, picture)), picture);
            && q.renderFrame == To(p.frames[picture])
            && (Times(q.lockedFrames, p.frames[picture]) == 1 <==>
                  && Owners(p, p.frames[picture]) == 2
                  && forall j :: 0 <= j < picture ==> Holders(p, p.frames[j]) > 0)
  {
    var u := Unlock(p, picture);
    var k, l := FirstFree(u, 0), Lock(u);
    UnlockOk(p, picture);
    LockIsExclusive(u);
    RelockIff(p, picture);
    TimesAppend(u.lockedFrames, l.frames[k], p.frames[picture]);
    if k < picture {
      TwiceIfEqual(p.frames, k, picture);
      PoolFrameCount(p, picture);
    } else if k > picture {
      PoolFrameCount(l, k);
      TwiceIfEqual(l.frames, picture, k);
    }
  }

  /** A format call and a lock, from a pool without frames. */
  lemma OneLocked(p: Pool)
    requires Inv(p) && |p.frames| == 0
    ensures var q, f := Lock(NewFrame(p)), p.nextFrame;
            && Inv(q) && |NewFrame(p).frames| == |q.frames| == 1 && q.frames[0] == f
            && Times(q.lockedFrames, f) == 1 && Owners(q, f) == 2
  {
    var p1, f := NewFrame(p), p.nextFrame;
    NewFrameOk(p);
    LockIsExclusive(p1);
    assert p1.frames[0] == f;
    assert Holders(p1, p1.frames[0]) == 0;
    assert Lock(p1).frames[0] == f;
    TimesAppend(p.lockedFrames, f, f);
    assert Times(p.lockedFrames, f) <= Times(p.frames, f);
    PoolFrameCount(Lock(p1), 0);
  }

  /** The shortest run in which it happens, from a stream without frames, such as a new one. */
  lemma RelockOccurs(h: History, events: seq<Event>)
    requires Inv(h.pool) && |h.pool.frames| == 0
    requires events == [FormatEvent, LockEvent, UnlockEvent(0), LockEvent, DisplayEvent(0)]
    ensures IsRun(h, events)
    ensures var q := Final(h, events).pool;
            q.renderFrame == To(h.pool.nextFrame) && Times(q.lockedFrames, h.pool.nextFrame) == 1
  {
    OneLocked(h.pool);
    RelockBeforeDisplay(Lock(NewFrame(h.pool)), 0);
    RunOfFive(h, events);
  }

  lemma RunOfFive(h: History, events: seq<Event>)
    requires |events| == 5
    ensures var h1 := Step(h, events[0]); var h2 := Step(h1, events[1]); var h3 := Step(h2, events[2]);
            var h4 := Step(h3, events[3]); var h5 := Step(h4, events[4]);
            && Final(h, events) == h5
            && (IsRun(h, events) <==>
                  Allowed(h.pool, events[0]) && Allowed(h1.pool, events[1]) && Allowed(h2.pool, events[2])
                  && Allowed(h3.pool, events[3]) && Allowed(h4.pool, events[4]))
  {
    var e1, e2, e3, e4 := events[1..], events[2..], events[3..], events[4..];
    assert e1[1..] == e2 && e2[1..] == e3 && e3[1..] == e4 && e4[1..] == [];
    var h1 := Step(h, events[0]); var h2 := Step(h1, events[1]); var h3 := Step(h2, events[2]);
    var h4 := Step(h3, events[3]); var h5 := Step(h4, events[4]);
    assert Final(h4, e4) == Final(h5, e4[1..]) && Final(h3, e3) == Final(h4, e4);
    assert Final(h2, e2) == Final(h3, e3) && Final(h1, e1) == Final(h2, e2);
    assert IsRun(h4, e4) <==> Allowed(h4.pool, events[4]);
    assert IsRun(h3, e3) <==> Allowed(h3.pool, events[3]) && IsRun(h4, e4);
    assert IsRun(h2, e2) <==> Allowed(h2.pool, events[2]) && IsRun(h3, e3);
  }

  // ---------------------------------------------------------------- the object

  class VideoStream {
    var frames: seq<FrameId>
    var lockedFrames: seq<FrameId>
    var renderFrame: Pointer
    var outputs: seq<FrameId>
    var useCount: map<FrameId, nat>
    var nextFrame: FrameId

    function View(): Pool
      reads this
    {
      Pool(frames, lockedFrames, renderFrame, outputs, useCount, nextFrame)
    }

    constructor ()
      ensures View() == Empty() && Inv(View())
    {
      frames, lockedFrames, renderFrame, outputs, useCount, nextFrame := [], [], Null, [], map[], 0;
    }

    method CopyPointer(f: FrameId)
      modifies this`useCount
      ensures useCount == Retain(old(useCount), f)
    {
      useCount := useCount[f := Counter(useCount, f) + 1];
    }

    method DropPointer(f: FrameId)
      modifies this`useCount
      ensures useCount == Release(old(useCount), f)
    {
      if Counter(useCount, f) <= 1 {
        useCount := useCount - {f};
      } else {
        useCount := useCount[f := Counter(useCount, f) - 1];
      }
    }

    /** formatCallback */
    method FormatCallback()
      requires Inv(View())
      modifies this
      ensures View() == NewFrame(old(View())) && Inv(View())
      ensures frames == old(frames) + [old(nextFrame)] && lockedFrames == old(lockedFrames)
      ensures renderFrame == old(renderFrame) && outputs == old(outputs) && Holders(View(), old(nextFrame)) == 0
    {
      NewFrameOk(View());
      EmplaceFrame();
    }

    method EmplaceFrame()
      modifies this
      ensures View() == NewFrame(old(View()))
    {
      var f := nextFrame;
      nextFrame := nextFrame + 1;
      CopyPointer(f);
      frames := frames + [f];
    }

    /** lockCallback: returns the position of the frame handed out. */
    method LockCallback() returns (picture: nat)
      requires Inv(View()) && |frames| > 0
      modifies this
      ensures View() == Lock(old(View())) && Inv(View())
      ensures picture < |frames| && Holders(old(View()), frames[picture]) == 0
      ensures lockedFrames == old(lockedFrames) + [frames[picture]]
      ensures renderFrame == old(renderFrame) && outputs == old(outputs)
    {
      LockIsExclusive(View());
      picture := 0;
      while picture < |frames| && Counter(useCount, frames[picture]) > 1
        invariant picture <= |frames| && FirstFree(View(), 0) == FirstFree(View(), picture)
      {
        picture := picture + 1;
      }
      if picture == |frames| {
        EmplaceFrame();
      }
      CopyPointer(frames[picture]);
      lockedFrames := lockedFrames + [frames[picture]];
    }

    /** unlockCallback */
    method UnlockCallback(picture: nat)
      requires Inv(View()) && (picture < |frames| ==> Times(lockedFrames, frames[picture]) > 0)
      modifies this
      ensures View() == Unlock(old(View()), picture) && Inv(View())
      ensures frames == old(frames) && renderFrame == old(renderFrame) && outputs == old(outputs)
    {
      UnlockOk(View(), picture);
      if picture >= |frames| {
        return;
      }
      EraseLocked(frames[picture]);
      DropPointer(frames[picture]);
    }

    /** `std::find` in the lock list, then `erase`. */
    method EraseLocked(frame: FrameId)
      requires Times(lockedFrames, frame) > 0
      modifies this`lockedFrames
      ensures lockedFrames == Without(old(lockedFrames), frame)
    {
      var i := 0;
      assert lockedFrames[0..] == lockedFrames;
      while lockedFrames[i] != frame
        invariant lockedFrames == old(lockedFrames)
        invariant i < |lockedFrames| && Times(lockedFrames[i..], frame) > 0
        invariant Without(lockedFrames, frame) == lockedFrames[..i] + Without(lockedFrames[i..], frame)
        decreases |lockedFrames| - i
      {
        StepOver(lockedFrames, i, frame);
        i := i + 1;
      }
      assert lockedFrames[i..][0] == frame && lockedFrames[i..][1..] == lockedFrames[i + 1..];
      assert Without(lockedFrames[i..], frame) == lockedFrames[i + 1..];
      lockedFrames := lockedFrames[..i] + lockedFrames[i + 1..];
    }

    /** displayCallback */
    method DisplayCallback(picture: nat)
      requires Inv(View())
      modifies this
      ensures View() == Display(old(View()), picture) && Inv(View())
      ensures frames == old(frames) && lockedFrames == old(lockedFrames) && outputs == old(outputs)
      ensures renderFrame == if picture < |frames| then To(frames[picture]) else old(renderFrame)
    {
      DisplayOk(View(), picture);
      if picture >= |frames| {
        return;
      }
      CopyPointer(frames[picture]);
      if renderFrame.To? {
        DropPointer(renderFrame.frame);
      }
      renderFrame := To(frames[picture]);
    }

    /** An output copies the rendered frame. */
    method RenderFrame() returns (p: Pointer)
      requires Inv(View())
      modifies this
      ensures View() == TakeOutput(old(View())) && Inv(View()) && p == renderFrame == old(renderFrame)
      ensures outputs == old(outputs) + (if p.To? then [p.frame] else [])
    {
      TakeOutputOk(View());
      p := renderFrame;
      if renderFrame.To? {
        CopyPointer(renderFrame.frame);
        outputs := outputs + [renderFrame.frame];
      }
    }

    /** formatCleanUpCallback */
    method FormatCleanUpCallback()
      requires Inv(View())
      modifies this
      ensures View() == CleanUp(old(View())) && Inv(View())
      ensures frames == lockedFrames == [] && renderFrame == Null && outputs == old(outputs)
      ensures forall f :: Counter(useCount, f) == Times(outputs, f)
    {
      CleanUpOk(View());
      if renderFrame.To? {
        DropPointer(renderFrame.frame);
      }
      renderFrame := Null;
      ghost var cleared := ReleaseAll(useCount, lockedFrames);
      while |lockedFrames| > 0
        invariant ReleaseAll(useCount, lockedFrames) == cleared
        invariant frames == old(frames) && outputs == old(outputs) && nextFrame == old(nextFrame) && renderFrame == Null
        decreases |lockedFrames|
      {
        DropPointer(lockedFrames[0]);
        lockedFrames := lockedFrames[1..];
      }
      cleared := ReleaseAll(useCount, frames);
      while |frames| > 0
        invariant ReleaseAll(useCount, frames) == cleared
        invariant lockedFrames == [] && outputs == old(outputs) && nextFrame == old(nextFrame) && renderFrame == Null
        decreases |frames|
      {
        DropPointer(frames[0]);
        frames := frames[1..];
      }
    }
  }

  /** Passing a member that is not the one looked for. */
  lemma {:induction false} StepOver(s: seq<FrameId>, i: nat, f: FrameId)
    requires i < |s| && s[i] != f && Times(s[i..], f) > 0
    ensures i + 1 < |s| && Times(s[i + 1..], f) > 0
    ensures s[..i] + Without(s[i..], f) == s[..i + 1] + Without(s[i + 1..], f)
  {
    var t, w := s[i..], Without(s[i + 1..], f);
    assert t[0] == s[i] && t[1..] == s[i + 1..];
    assert Without(t, f) == [s[i]] + w;
    Regroup(s[..i], s[i], w);
    assert s[..i + 1] == s[..i] + [s[i]];
  }

  lemma Regroup(a: seq<FrameId>, x: FrameId, b: seq<FrameId>)
    ensures a + ([x] + b) == (a + [x]) + b
  {
  }
}
