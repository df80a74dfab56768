/** Concrete runs: the states the general results warn about do occur. */
module Witnesses {
  import opened Arithmetic
  import opened Ranges
  import opened Ring
  import opened Slots
  import opened Protocol
  import opened Runs
  import opened Overlaps
  import Storage

  /** The one interval of a full one-byte piece. */
  function Full(): seq<Segment> {
    [Segment(0, 1)]
  }

  ghost predicate OneBytePieces(g: Geometry) {
    g.Valid() && g.pieceLen == 1 && g.fOffset == 0
  }

  lemma {:induction false} CreditOne(slots: seq<Slot>, k: nat, seg: Segment)
    requires k < |slots| && slots[k].segments == [] && seg == Segment(0, 1)
    ensures Credited(slots, k, seg) == slots[k := Slot(slots[k].piece, Full())]
  {
    AddedToEmpty(seg);
  }

  lemma {:induction false} AdvanceOne(g: Geometry, slots: seq<Slot>, k: nat, w: int)
    requires OneBytePieces(g) && k < |slots|
    ensures slots[k].segments == [] ==> Advance(g, slots, k, w) == w
    ensures slots[k].segments == Full() ==>
              Advance(g, slots, k, w) == Advance(g, slots, k + 1, if w == slots[k].piece then w + 1 else w)
  {
  }

  lemma {:induction false} FindIn(slots: seq<Slot>, k: nat)
    requires Contiguous(slots) && k < |slots|
    ensures FindSlot(slots, slots[k].piece) == k
  {
    assert !(LowerSlot(slots, slots[k].piece) < k);
  }

  /** The first two steps of storing the one byte of the piece in slot `k`. */
  lemma {:induction false} FillOne(g: Geometry, content: Content, mode: Lookup, rules: Rules,
                                   s: State, steps: seq<Step>, t: State, k: nat)
    returns (steps': seq<Step>, t': State)
    requires OneBytePieces(g) && Exec(g, content, mode, rules, s, steps) == Reached(t)
    requires Contiguous(t.slots) && k < |t.slots| && t.slots[k].segments == [] && t.writer.Idle?
    ensures Exec(g, content, mode, rules, s, steps') == Reached(t')
    ensures var piece := t.slots[k].piece;
            t' == t.(writer := Filling(piece, 0, [content(piece)], 0, k), updatingBuffer := true)
  {
    var piece := t.slots[k].piece;
    var step := WriteBegin([content(piece)], 0, piece);
    FindIn(t.slots, k);
    assert g.PieceAbsPos(piece) == piece;
    Extend(g, content, mode, rules, s, steps, t, step);
    steps', t' := steps + [step], Apply(g, mode, t, step);
  }

  lemma {:induction false} CommitOne(g: Geometry, content: Content, mode: Lookup, rules: Rules,
                                     s: State, steps: seq<Step>, t: State, piece: int, itr: nat)
    returns (steps': seq<Step>, t': State)
    requires OneBytePieces(g) && Exec(g, content, mode, rules, s, steps) == Reached(t)
    requires t.writer == Filling(piece, 0, [content(piece)], 0, itr)
    requires mode == ByIterator && itr < |t.slots| && t.slots[itr].segments == []
    ensures Exec(g, content, mode, rules, s, steps') == Reached(t')
    ensures var slots := t.slots[itr := Slot(t.slots[itr].piece, Full())];
            t' == t.(ring := Poke(t.ring, g.PosInCacheByPiece(piece), content(piece)), slots := slots,
                     absWPos := Advance(g, slots, itr, t.absWPos), writer := Idle, updatingBuffer := false)
  {
    var cell := g.PosInCacheByPiece(piece);
    Extend(g, content, mode, rules, s, steps, t, WriteByte);
    var u := t.(ring := Poke(t.ring, cell, content(piece)), writer := Filling(piece, 0, [content(piece)], 1, itr));
    assert u == Apply(g, mode, t, WriteByte);
    steps', t' := CommitByte(g, content, mode, rules, s, steps + [WriteByte], u, piece, itr);
  }

  lemma {:induction false} CommitByte(g: Geometry, content: Content, mode: Lookup, rules: Rules,
                                      s: State, steps: seq<Step>, t: State, piece: int, itr: nat)
    returns (steps': seq<Step>, t': State)
    requires OneBytePieces(g) && Exec(g, content, mode, rules, s, steps) == Reached(t)
    requires t.writer == Filling(piece, 0, [content(piece)], 1, itr)
    requires mode == ByIterator && itr < |t.slots| && t.slots[itr].segments == []
    ensures Exec(g, content, mode, rules, s, steps') == Reached(t')
    ensures var slots := t.slots[itr := Slot(t.slots[itr].piece, Full())];
            t' == t.(slots := slots, absWPos := Advance(g, slots, itr, t.absWPos), writer := Idle, updatingBuffer := false)
  {
    Extend(g, content, mode, rules, s, steps, t, WriteCommit);
    CreditOne(t.slots, itr, BlockSegment(t.writer));
    steps', t' := steps + [WriteCommit], Apply(g, mode, t, WriteCommit);
  }

  /** The window of a fresh start: empty slots from the first piece on. */
  lemma {:induction false} StartSlots(g: Geometry, ring: seq<Byte>, i: nat)
    requires OneBytePieces(g) && i < WindowLength(g, 0)
    ensures Start(g, ring).slots[i] == Slot(i, [])
  {
    assert g.FirstPiece() == 0;
    assert Start(g, ring).slots[i] == Slot(i, RangeOf([], i));
  }

  /** The ring can fill up completely: then the two positions fall on the same cell, the distance
      the source asserts to be non-zero is zero, and a read is possible all the same. */
  lemma {:induction false} FullRingOccurs(g: Geometry, content: Content, rules: Rules, ring: seq<Byte>)
    requires g == Geometry(1, 1, 0, 1) && |ring| == 1
    ensures exists steps ::
              var o := Exec(g, content, ByIterator, rules, Start(g, ring), steps);
              && o.Reached?
              && o.state.absWPos - o.state.absRPos == g.CacheSize()
              && g.PosInCacheByAbsPos(o.state.absWPos) == g.PosInCacheByAbsPos(o.state.absRPos)
              && Enabled(g, content, ByIterator, o.state, ReadBegin(1))
  {
    var s0 := Start(g, ring);
    StartSlots(g, ring, 0);
    assert Exec(g, content, ByIterator, rules, s0, []) == Reached(s0);
    var steps1, s1 := FillOne(g, content, ByIterator, rules, s0, [], s0, 0);
    var steps2, s2 := CommitOne(g, content, ByIterator, rules, s0, steps1, s1, 0, 0);
    AdvanceOne(g, s2.slots, 0, 0);
  }

  // ---------------------------------------------------------------- the kept list position

  function Three(piece: int, a: seq<Segment>, b: seq<Segment>, c: seq<Segment>): seq<Slot> {
    [Slot(piece, a), Slot(piece + 1, b), Slot(piece + 2, c)]
  }

  /** A read of the first byte that commits while piece 1 is being stored. */
  lemma {:induction false} ReadDuringWrite(g: Geometry, content: Content, rules: Rules, s: State, steps: seq<Step>, t: State)
    returns (steps': seq<Step>, t': State)
    requires g == Geometry(1, 3, 0, 5) && rules == Rules(FreshBlock, false, true, NoSeek)
    requires Exec(g, content, ByIterator, rules, s, steps) == Reached(t)
    requires |t.ring| == 3 && t.absRPos == 0 && t.absWPos == 1 && t.slots == Three(0, Full(), [], [])
    requires t.writer.Idle? && t.reader.Ready? && t.log == []
    ensures Exec(g, content, ByIterator, rules, s, steps') == Reached(t')
    ensures t'.ring == t.ring && t'.absRPos == 1 && t'.absWPos == 1 && t'.slots == Three(1, [], [], [])
    ensures t'.writer == Filling(1, 0, [content(1)], 0, 1) && t'.reader.Ready? && |t'.log| == 1
  {
    Extend(g, content, ByIterator, rules, s, steps, t, ReadBegin(1));
    var t1 := Apply(g, ByIterator, t, ReadBegin(1));
    assert t1.reader == Copying(1, 0, 1, 1, []);
    Extend(g, content, ByIterator, rules, s, steps + [ReadBegin(1)], t1, ReadByte);
    var t2 := Apply(g, ByIterator, t1, ReadByte);
    var steps3, t3 := FillOne(g, content, ByIterator, rules, s, steps + [ReadBegin(1)] + [ReadByte], t2, 1);
    Extend(g, content, ByIterator, rules, s, steps3, t3, ReadCommit);
    steps', t' := steps3 + [ReadCommit], Apply(g, ByIterator, t3, ReadCommit);
    EmptyAfterFirst(g, t3.slots);
  }

  lemma {:induction false} EmptyAfterFirst(g: Geometry, slots: seq<Slot>)
    requires g == Geometry(1, 3, 0, 5) && slots == Three(0, Full(), [], [])
    ensures Window(g, slots, 1) == Three(1, [], [], [])
  {
    assert WindowLength(g, 1) == 3;
    forall i | 0 <= i < 3 ensures Window(g, slots, 1)[i] == Three(1, [], [], [])[i] {
      assert Window(g, slots, 1)[i] == Slot(1 + i, RangeOf(slots, 1 + i));
    }
  }

  lemma {:induction false} ReadTwo(g: Geometry, content: Content, rules: Rules, s: State, steps: seq<Step>, t: State)
    returns (steps': seq<Step>, t': State)
    requires g == Geometry(1, 3, 0, 5) && rules.seeks == NoSeek
    requires Exec(g, content, ByIterator, rules, s, steps) == Reached(t)
    requires |t.ring| == 3 && t.absRPos == 1 && t.absWPos == 3 && t.reader.Ready? && t.writer.Idle? && |t.log| == 1
    ensures Exec(g, content, ByIterator, rules, s, steps') == Reached(t')
    ensures |t'.log| == 2 && t'.log[1] == Delivery(1, [t.ring[1], t.ring[2]])
  {
    Extend(g, content, ByIterator, rules, s, steps, t, ReadBegin(2));
    var t1 := Apply(g, ByIterator, t, ReadBegin(2));
    assert t1.reader == Copying(3, 1, 0, 2, []);
    Extend(g, content, ByIterator, rules, s, steps + [ReadBegin(2)], t1, ReadByte);
    var t2 := Apply(g, ByIterator, t1, ReadByte);
    assert t2.reader == Copying(3, 1, 0, 2, [t.ring[1]]);
    Extend(g, content, ByIterator, rules, s, steps + [ReadBegin(2)] + [ReadByte], t2, ReadByte);
    var t3 := Apply(g, ByIterator, t2, ReadByte);
    assert t3.reader == Copying(3, 1, 0, 2, [t.ring[1], t.ring[2]]);
    Extend(g, content, ByIterator, rules, s, steps + [ReadBegin(2)] + [ReadByte] + [ReadByte], t3, ReadCommit);
    steps' := steps + [ReadBegin(2)] + [ReadByte] + [ReadByte] + [ReadCommit];
    t' := Apply(g, ByIterator, t3, ReadCommit);
  }

  /** The first piece is stored; then a read moves the window while piece 1 is being stored. */
  lemma {:induction false} UpToTheRead(g: Geometry, content: Content, rules: Rules, ring: seq<Byte>)
    returns (steps': seq<Step>, t': State)
    requires g == Geometry(1, 3, 0, 5) && rules == Rules(FreshBlock, false, true, NoSeek) && |ring| == 3
    ensures Exec(g, content, ByIterator, rules, Start(g, ring), steps') == Reached(t')
    ensures |t'.ring| == 3 && t'.ring[2] == ring[2] && t'.absRPos == 1 && t'.absWPos == 1
    ensures t'.slots == Three(1, [], [], []) && t'.reader.Ready? && |t'.log| == 1
    ensures t'.writer == Filling(1, 0, [content(1)], 0, 1)
  {
    var s0 := Start(g, ring);
    assert WindowLength(g, 0) == 3;
    StartSlots(g, ring, 0);
    StartSlots(g, ring, 1);
    StartSlots(g, ring, 2);
    assert Exec(g, content, ByIterator, rules, s0, []) == Reached(s0);
    var steps1, s1 := FillOne(g, content, ByIterator, rules, s0, [], s0, 0);
    var steps2, s2 := CommitOne(g, content, ByIterator, rules, s0, steps1, s1, 0, 0);
    AdvanceOne(g, s2.slots, 0, 0);
    AdvanceOne(g, s2.slots, 1, 1);
    steps', t' := ReadDuringWrite(g, content, rules, s0, steps2, s2);
  }

  /** The commit credits piece 2 with the block of piece 1; when piece 1 itself is stored, the
      write position climbs over both. */
  lemma {:induction false} PastTheWrongCredit(g: Geometry, content: Content, rules: Rules, s: State, steps: seq<Step>, t: State)
    returns (steps': seq<Step>, t': State)
    requires g == Geometry(1, 3, 0, 5) && rules == Rules(FreshBlock, false, true, NoSeek)
    requires Exec(g, content, ByIterator, rules, s, steps) == Reached(t)
    requires |t.ring| == 3 && t.absRPos == 1 && t.absWPos == 1 && t.slots == Three(1, [], [], [])
    requires t.reader.Ready? && |t.log| == 1 && t.writer == Filling(1, 0, [content(1)], 0, 1)
    ensures Exec(g, content, ByIterator, rules, s, steps') == Reached(t')
    ensures |t'.ring| == 3 && t'.ring[2] == t.ring[2] && t'.absRPos == 1 && t'.absWPos == 3
    ensures t'.reader.Ready? && t'.writer.Idle? && |t'.log| == 1
  {
    assert g.PosInCacheByPiece(1) == 1;
    var steps1, s1 := CommitOne(g, content, ByIterator, rules, s, steps, t, 1, 1);
    AdvanceOne(g, s1.slots, 1, 1);
    AdvanceOne(g, s1.slots, 2, 1);
    var steps2, s2 := FillOne(g, content, ByIterator, rules, s, steps1, s1, 0);
    steps', t' := CommitOne(g, content, ByIterator, rules, s, steps2, s2, 1, 0);
    AdvanceOne(g, t'.slots, 0, 1);
    AdvanceOne(g, t'.slots, 1, 2);
    AdvanceOne(g, t'.slots, 2, 3);
  }

  /** Blocks are true and fresh and nothing seeks, yet with the kept list position a read that
      commits during a write makes a later read deliver a byte that was never received: the block
      of piece 1 is credited to piece 2. */
  lemma {:induction false} IteratorRunDeliversGarbage(g: Geometry, content: Content, rules: Rules, ring: seq<Byte>)
    requires g == Geometry(1, 3, 0, 5) && rules == Rules(FreshBlock, false, true, NoSeek)
    requires |ring| == 3 && ring[2] != content(2)
    ensures exists steps ::
              var o := Exec(g, content, ByIterator, rules, Start(g, ring), steps);
              o.Reached? && |o.state.log| == 2 && !Genuine(content, o.state.log[1])
  {
    var steps1, s1 := UpToTheRead(g, content, rules, ring);
    var steps2, s2 := PastTheWrongCredit(g, content, rules, Start(g, ring), steps1, s1);
    var steps3, s3 := ReadTwo(g, content, rules, Start(g, ring), steps2, s2);
    assert s3.log[1].bytes[1] != content(s3.log[1].from + 1);
  }

  // ---------------------------------------------------------------- the stalled reader

  /** The first two pieces are received and nothing is read. */
  lemma {:induction false} TwoPieces(g: Geometry, content: Content, rules: Rules, ring: seq<Byte>)
    returns (steps': seq<Step>, t': State)
    requires g == Geometry(1, 3, 0, 5) && |ring| == 3
    requires rules == Rules(FreshBlock, true, true, AnySeek)
    ensures Exec(g, content, ByIterator, rules, Start(g, ring), steps') == Reached(t')
    ensures t'.absRPos == 0 && t'.absWPos == 2 && t'.slots == Three(0, Full(), Full(), [])
    ensures t'.writer.Idle? && t'.reader.Ready? && !t'.updatingBuffer
  {
    var s0 := Start(g, ring);
    assert WindowLength(g, 0) == 3;
    StartSlots(g, ring, 0);
    StartSlots(g, ring, 1);
    StartSlots(g, ring, 2);
    assert s0.slots == Three(0, [], [], []);
    assert Exec(g, content, ByIterator, rules, s0, []) == Reached(s0);
    var steps1, s1 := FillOne(g, content, ByIterator, rules, s0, [], s0, 0);
    var steps2, s2 := CommitOne(g, content, ByIterator, rules, s0, steps1, s1, 0, 0);
    AdvanceOne(g, s2.slots, 0, 0);
    AdvanceOne(g, s2.slots, 1, 1);
    assert s2.slots == Three(0, Full(), [], []) && s2.absWPos == 1;
    var steps3, s3 := FillOne(g, content, ByIterator, rules, s0, steps2, s2, 1);
    steps', t' := CommitOne(g, content, ByIterator, rules, s0, steps3, s3, 1, 1);
    AdvanceOne(g, t'.slots, 1, 1);
    AdvanceOne(g, t'.slots, 2, 2);
  }

  /** A seek back to the very start, into received data, leaves the reader stalled. */
  lemma {:induction false} StallOccurs(g: Geometry, content: Content, rules: Rules, ring: seq<Byte>)
    requires g == Geometry(1, 3, 0, 5) && rules == Rules(FreshBlock, true, true, AnySeek) && |ring| == 3
    ensures exists steps ::
              var o := Exec(g, content, ByIterator, rules, Start(g, ring), steps);
              && o.Reached? && Enabled(g, content, ByIterator, o.state, Seek(0))
              && o.state.absRPos < o.state.absWPos && Stalled(g, SeekTo(g, o.state, 0))
  {
    var steps1, s1 := TwoPieces(g, content, rules, ring);
    assert SeekTo(g, s1, 0).slots[0] == Slot(0, RangeOf(s1.slots, 0));
  }

  // ---------------------------------------------------------------- the repeated block

  /** A file that is one piece, in a ring of one piece. */
  ghost predicate OnePiece(g: Geometry) {
    g.Valid() && g.pieces == 1 && g.fOffset == 0 && g.fSize == g.pieceLen
  }

  lemma OnePieceFacts(g: Geometry, w: int)
    requires OnePiece(g) && 0 <= w < g.pieceLen
    ensures g.FirstPiece() == 0 && g.LastPiece() == 0 && g.PieceAbsPos(0) == 0 && g.PieceOf(w) == 0
    ensures g.CacheSize() == g.pieceLen && WindowLength(g, 0) == 1
  {
    DivModUnique(w, g.pieceLen, 0, w);
    DivModUnique(g.pieceLen - 1, g.pieceLen, 0, g.pieceLen - 1);
  }

  /** Its one slot with these intervals and this write position, and nothing under way. */
  ghost predicate Single(s: State, segs: seq<Segment>, w: int) {
    s.slots == [Slot(0, segs)] && s.absWPos == w && s.writer.Idle?
  }

  function Block(content: Content, seg: Segment): seq<Byte>
    requires seg.first < seg.second
  {
    seq(seg.second - seg.first, i => content(seg.first + i))
  }

  lemma {:induction false} AdvanceSingle(g: Geometry, slots: seq<Slot>, w: int)
    requires OnePiece(g) && |slots| == 1 && slots[0].piece == 0 && 0 <= w < g.pieceLen
    ensures Advance(g, slots, 0, w) == Max(w, BytesAvailable(slots[0].segments))
  {
    OnePieceFacts(g, w);
    assert Advance(g, slots, 1, Max(w, BytesAvailable(slots[0].segments))) == Max(w, BytesAvailable(slots[0].segments));
  }

  lemma {:induction false} FindSingle(s: State, segs: seq<Segment>, w: int)
    requires Single(s, segs, w)
    ensures FindSlot(s.slots, 0) == 0
  {
  }

  /** A whole write to it. */
  lemma {:induction false} WriteSingle(g: Geometry, content: Content, rules: Rules, ring: seq<Byte>, steps: seq<Step>, t: State,
                                       seg: Segment, segs: seq<Segment>, segs': seq<Segment>, w: int)
    returns (steps': seq<Step>, t': State)
    requires OnePiece(g) && |ring| == g.CacheSize() && rules == Rules(AnyBlock, true, true, NoSeek)
    requires Exec(g, content, ByIterator, rules, Start(g, ring), steps) == Reached(t)
    requires Single(t, segs, w) && 0 <= w < g.pieceLen && Fitting(seg, g.pieceLen) && segs' == Added(segs, seg)
    ensures Exec(g, content, ByIterator, rules, Start(g, ring), steps') == Reached(t')
    ensures Single(t', segs', Max(w, BytesAvailable(segs')))
  {
    var block := Block(content, seg);
    OnePieceFacts(g, w);
    StartOk(g, content, ring);
    RunIsSound(g, content, ByIterator, rules, Start(g, ring), steps);
    FindSingle(t, segs, w);
    assert TrueBlock(g, content, block, seg.first, 0);
    var more := Storage.WriteIsRun(g, content, ByIterator, rules, t, block, seg.first, 0);
    Follow(g, content, ByIterator, rules, Start(g, ring), steps, t, more);
    steps', t' := steps + more, Storage.AfterWrite(g, t, block, seg.first, 0);
    AfterSingle(g, t, block, seg, segs, segs', w);
  }

  lemma AfterSingle(g: Geometry, t: State, block: seq<Byte>, seg: Segment, segs: seq<Segment>, segs': seq<Segment>, w: int)
    requires OnePiece(g) && |t.ring| == g.CacheSize() && FindSlot(t.slots, 0) == 0
    requires Single(t, segs, w) && 0 <= w < g.pieceLen && Fitting(seg, g.pieceLen) && segs' == Added(segs, seg)
    requires |block| == seg.second - seg.first
    ensures Single(Storage.AfterWrite(g, t, block, seg.first, 0), segs', Max(w, BytesAvailable(segs')))
  {
    Storage.AfterWriteFields(g, t, block, seg.first, 0);
    var slots := Credited(t.slots, 0, seg);
    assert slots == [Slot(0, segs')];
    AdvanceSingle(g, slots, w);
  }

  lemma {:induction false} StartSingle(g: Geometry, content: Content, rules: Rules, ring: seq<Byte>)
    requires OnePiece(g) && |ring| == g.CacheSize()
    ensures Exec(g, content, ByIterator, rules, Start(g, ring), []) == Reached(Start(g, ring))
    ensures Single(Start(g, ring), [], 0)
  {
    OnePieceFacts(g, 0);
    assert Start(g, ring).slots[0] == Slot(0, RangeOf([], 0));
  }

  /** The lists that arise when the first part of a piece is stored twice, and then the rest. */
  lemma {:induction false} RepeatLists(first: Segment, rest: Segment) returns (once: seq<Segment>, twice: seq<Segment>, all: seq<Segment>)
    requires first.first == 0 < first.second == rest.first < rest.second
    ensures once == Added([], first) && twice == Added(once, first) && all == Added(twice, rest)
    ensures BytesAvailable(once) == BytesAvailable(twice) == BytesAvailable(all) == first.second
    ensures Frozen(all, first.second) && forall x :: 0 <= x < rest.second ==> Covers(all, x)
  {
    once := [first];
    twice := Added(once, first);
    all := Added(twice, rest);
    AddedToEmpty(first);
    RepeatGoesFirst(once, first);
    RepeatHidesBytes(once, first, rest);
  }

  /** The first `h` bytes of a piece are stored twice, then the rest: all of the piece is received, and yet
      only `h` bytes count as available, and the slot is frozen there. */
  lemma {:induction false} RepeatFreezes(g: Geometry, content: Content, rules: Rules, ring: seq<Byte>, h: int)
    requires OnePiece(g) && rules == Rules(AnyBlock, true, true, NoSeek) && |ring| == g.CacheSize() && 0 < h < g.pieceLen
    ensures exists steps ::
              var o := Exec(g, content, ByIterator, rules, Start(g, ring), steps);
              && o.Reached? && CoveredTo(g, o.state.slots, g.pieceLen)
              && o.state.absWPos == h && FrozenAt(g, o.state, 0, h)
  {
    var first, rest := Segment(0, h), Segment(h, g.pieceLen);
    var once, twice, all := RepeatLists(first, rest);
    StartSingle(g, content, rules, ring);
    var steps1, s1 := WriteSingle(g, content, rules, ring, [], Start(g, ring), first, [], once, 0);
    var steps2, s2 := WriteSingle(g, content, rules, ring, steps1, s1, first, once, twice, h);
    var steps3, s3 := WriteSingle(g, content, rules, ring, steps2, s2, rest, twice, all, h);
    OnePieceFacts(g, 0);
    assert FrozenAt(g, s3, 0, h);
  }
}
