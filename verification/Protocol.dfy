/** The streaming cache as a step system. `read` and `write` hold the mutex only at their two ends;
    in between each copies byte by byte, so every copied byte is a step of its own. */
module Protocol {
  import opened Arithmetic
  import opened Ranges
  import opened Ring
  import opened Slots

  /** The bytes of the torrent, by absolute position. */
  type Content = int -> Byte

  /** A finished read: the bytes handed to the player, and the position they were read from. */
  datatype Delivery = Delivery(from: int, bytes: seq<Byte>)

  /** The source thread: between the two locked sections it has stored `done` bytes of the block
      and remembers the list position `itr` of the slot it found. */
  datatype Writer = Idle | Filling(piece: int, offset: int, block: seq<Byte>, done: nat, itr: nat)

  /** The player thread: between its two locked sections it works on the positions it saw. */
  datatype Reader = Ready | Copying(upto: int, localR: int, localW: int, len: int, out: seq<Byte>)

  datatype State = State(ring: seq<Byte>, absRPos: int, absWPos: int, updatingBuffer: bool,
                         slots: seq<Slot>, writer: Writer, reader: Reader, log: seq<Delivery>)

  datatype Step =
    | WriteBegin(block: seq<Byte>, offset: int, piece: int)
    | WriteByte
    | WriteCommit
    | ReadBegin(len: int)
    | ReadByte
    | ReadCommit
    | Seek(pos: int)

  /** How the commit finds the slot to credit: by the list position kept from the first locked
      section, as the source does, or by looking the piece up again. */
  datatype Lookup = ByIterator | ByPiece

  // ---------------------------------------------------------------- the copy plan of a read

  function Min(a: int, b: int): int {
    if a <= b then a else b
  }

  function Max(a: int, b: int): int {
    if a >= b then a else b
  }

  /** The formula the source computes beforehand and asserts against. */
  function BytesToBeCopied(g: Geometry, localR: int, localW: int, len: int): int
    requires g.Valid()
  {
    if localW - localR > 0 then Min(len, localW - localR)
    else (g.CacheSize() - localR) + Min(len - g.CacheSize() + localR, localW)
  }

  /** The read goes forward only: to the write position, or not beyond the end of the ring. */
  predicate OneStretch(g: Geometry, localR: int, localW: int, len: int)
    requires g.Valid()
  {
    localW - localR > 0 || g.CacheSize() - localR > len
  }

  /** The number of bytes the copy branches obtain. */
  function CopyCount(g: Geometry, localR: int, localW: int, len: int): int
    requires g.Valid()
  {
    if OneStretch(g, localR, localW, len)
    then Min(len, if localW - localR > 0 then localW - localR else g.CacheSize() - localR)
    else Min(len - (g.CacheSize() - localR), localW) + (g.CacheSize() - localR)
  }

  /** The ring cell the `k`-th byte of the read comes from. */
  function CopyCell(g: Geometry, localR: int, localW: int, len: int, k: int): int
    requires g.Valid()
  {
    if OneStretch(g, localR, localW, len) || k < g.CacheSize() - localR
    then localR + k
    else k - (g.CacheSize() - localR)
  }

  /** All three copy paths: exactly the bytes asked for and available, from the right cells, in
      agreement with the precomputed formula; and the asserted distance is non-zero unless the
      ring is completely full. */
  lemma CopyPlan(g: Geometry, absRPos: int, absWPos: int, len: int)
    requires g.Valid() && 0 < absWPos - absRPos <= g.CacheSize() && len > 0
    ensures var localR, localW := g.PosInCacheByAbsPos(absRPos), g.PosInCacheByAbsPos(absWPos);
            && CopyCount(g, localR, localW, len) == Min(len, absWPos - absRPos)
            && BytesToBeCopied(g, localR, localW, len) == CopyCount(g, localR, localW, len)
            && (localW - localR != 0 <==> absWPos - absRPos < g.CacheSize())
            && forall k :: 0 <= k < CopyCount(g, localR, localW, len) ==>
                 CopyCell(g, localR, localW, len, k) == g.PosInCacheByAbsPos(absRPos + k)
  {
    var a, n := absRPos - g.FirstPieceOffset(), g.CacheSize();
    ModAdvance(a, absWPos - absRPos, n);
    var localR, localW := g.PosInCacheByAbsPos(absRPos), g.PosInCacheByAbsPos(absWPos);
    assert localW == (a + (absWPos - absRPos)) % n;
    forall k | 0 <= k < CopyCount(g, localR, localW, len)
      ensures CopyCell(g, localR, localW, len, k) == g.PosInCacheByAbsPos(absRPos + k)
    {
      ModAdvance(a, k, n);
      assert g.PosInCacheByAbsPos(absRPos + k) == (a + k) % n;
    }
  }

  // ---------------------------------------------------------------- the steps

  /** The list position `std::lower_bound` finds for a piece. */
  function LowerSlot(slots: seq<Slot>, piece: int): (k: nat)
    ensures k <= |slots|
    ensures forall i :: 0 <= i < k ==> slots[i].piece < piece
    ensures k < |slots| ==> slots[k].piece >= piece
  {
    if |slots| == 0 || slots[0].piece >= piece then 0 else 1 + LowerSlot(slots[1..], piece)
  }

  /** The list position whose slot holds the piece; the end of the list if there is none. */
  function FindSlot(slots: seq<Slot>, piece: int): (k: nat)
    ensures k <= |slots|
    ensures k < |slots| ==> slots[k].piece == piece
  {
    var k := LowerSlot(slots, piece);
    if k < |slots| && slots[k].piece == piece then k else |slots|
  }

  function Peek(ring: seq<Byte>, cell: int): Byte {
    if 0 <= cell < |ring| then ring[cell] else 0
  }

  function Poke(ring: seq<Byte>, cell: int, b: Byte): seq<Byte> {
    if 0 <= cell < |ring| then ring[cell := b] else ring
  }

  /** The block carries the torrent's bytes at its place in the piece. */
  ghost predicate TrueBlock(g: Geometry, content: Content, block: seq<Byte>, offset: int, piece: int) {
    forall i :: 0 <= i < |block| ==> block[i] == content(g.PieceAbsPos(piece) + offset + i)
  }

  /** Which steps are possible. A seek waits, but only once, for a write to end; so another write may have
      begun when it goes on, and here it may happen at any time. */
  ghost predicate Enabled(g: Geometry, content: Content, mode: Lookup, s: State, step: Step)
    requires g.Valid()
  {
    match step
    case WriteBegin(block, offset, piece) =>
      && s.writer.Idle? && |block| > 0 && 0 <= offset && offset + |block| <= g.pieceLen
      && TrueBlock(g, content, block, offset, piece)
    case WriteByte => s.writer.Filling? && s.writer.done < |s.writer.block|
    case WriteCommit =>
      && s.writer.Filling? && s.writer.done == |s.writer.block|
      && (mode == ByIterator ==> s.writer.itr < |s.slots|)
    case ReadBegin(len) => s.reader.Ready? && s.absRPos < s.absWPos && len > 0
    case ReadByte => s.reader.Copying? && |s.reader.out| < Wanted(g, s.reader)
    case ReadCommit => s.reader.Copying? && |s.reader.out| == Wanted(g, s.reader)
    case Seek(pos) => s.reader.Ready? && pos >= 0
  }

  function Wanted(g: Geometry, r: Reader): int
    requires g.Valid() && r.Copying?
  {
    CopyCount(g, r.localR, r.localW, r.len)
  }

  function WriteCell(g: Geometry, w: Writer): int
    requires g.Valid() && w.Filling?
  {
    g.PosInCacheByPiece(w.piece) + w.offset + w.done
  }

  function ReadCell(g: Geometry, r: Reader): int
    requires g.Valid() && r.Copying?
  {
    CopyCell(g, r.localR, r.localW, r.len, |r.out|)
  }

  function CommitSlot(mode: Lookup, s: State): nat
    requires s.writer.Filling?
  {
    if mode == ByIterator then s.writer.itr else FindSlot(s.slots, s.writer.piece)
  }

  /** The slots after one of them is credited with an interval. */
  function Credited(slots: seq<Slot>, k: nat, seg: Segment): (r: seq<Slot>)
    requires k < |slots|
    ensures |r| == |slots|
  {
    slots[k := Slot(slots[k].piece, Added(slots[k].segments, seg))]
  }

  function BlockSegment(w: Writer): Segment
    requires w.Filling?
  {
    Segment(w.offset, w.offset + |w.block|)
  }

  /** The second locked section of `write`, crediting the slot at list position `k`. */
  function Commit(g: Geometry, s: State, k: nat): State
    requires g.Valid() && s.writer.Filling?
  {
    if k >= |s.slots| then s.(writer := Idle, updatingBuffer := false)
    else
      var slots := Credited(s.slots, k, BlockSegment(s.writer));
      s.(slots := slots, absWPos := Advance(g, slots, k, s.absWPos), writer := Idle, updatingBuffer := false)
  }

  function SeekTo(g: Geometry, s: State, pos: int): State
    requires g.Valid()
  {
    var newAbsPos := pos + g.fOffset;
    var newPiece := g.PieceOf(newAbsPos);
    s.(absRPos := newAbsPos,
       absWPos := if g.PieceOf(s.absWPos) == newPiece then s.absWPos else g.PieceAbsPos(newPiece),
       slots := Window(g, s.slots, newPiece))
  }

  function Apply(g: Geometry, mode: Lookup, s: State, step: Step): State
    requires g.Valid()
  {
    match step
    case WriteBegin(block, offset, piece) =>
      var k := FindSlot(s.slots, piece);
      if k < |s.slots| then s.(writer := Filling(piece, offset, block, 0, k), updatingBuffer := true) else s
    case WriteByte =>
      if s.writer.Filling? && s.writer.done < |s.writer.block|
      then s.(ring := Poke(s.ring, WriteCell(g, s.writer), s.writer.block[s.writer.done]),
              writer := s.writer.(done := s.writer.done + 1))
      else s
    case WriteCommit =>
      if s.writer.Filling? then Commit(g, s, CommitSlot(mode, s)) else s
    case ReadBegin(len) =>
      s.(reader := Copying(s.absWPos, g.PosInCacheByAbsPos(s.absRPos), g.PosInCacheByAbsPos(s.absWPos), len, []))
    case ReadByte =>
      if s.reader.Copying?
      then s.(reader := s.reader.(out := s.reader.out + [Peek(s.ring, ReadCell(g, s.reader))]))
      else s
    case ReadCommit =>
      if s.reader.Copying?
      then
        var absRPos := s.absRPos + Wanted(g, s.reader);
        s.(absRPos := absRPos, slots := Window(g, s.slots, g.PieceOf(absRPos)), reader := Ready,
           log := s.log + [Delivery(s.absRPos, s.reader.out)])
      else s
    case Seek(pos) => SeekTo(g, s, pos)
  }

  /** The constructor followed by the first slot request; the ring holds arbitrary bytes. */
  function Start(g: Geometry, ring: seq<Byte>): State
    requires g.Valid()
  {
    State(ring, g.fOffset, g.FirstPieceOffset(), false, Window(g, [], g.FirstPiece()), Idle, Ready, [])
  }

  // ---------------------------------------------------------------- the invariant

  ghost predicate WindowOk(g: Geometry, s: State)
    requires g.Valid()
  {
    && s.absRPos >= g.fOffset
    && |s.slots| == WindowLength(g, g.PieceOf(s.absRPos))
    && (forall i :: 0 <= i < |s.slots| ==> s.slots[i].piece == g.PieceOf(s.absRPos) + i)
    && SlotsInBounds(g, s.slots)
  }

  /** Every byte a slot claims is in the ring, and is the torrent's byte. */
  ghost predicate Backed(g: Geometry, content: Content, ring: seq<Byte>, slots: seq<Slot>)
    requires g.Valid() && |ring| == g.CacheSize()
  {
    forall i, x :: 0 <= i < |slots| && 0 <= x < g.pieceLen && Covers(slots[i].segments, x)
      ==> ring[g.Cell(slots[i].piece, x)] == content(g.PieceAbsPos(slots[i].piece) + x)
  }

  ghost predicate FrontierOk(g: Geometry, s: State)
    requires g.Valid()
  {
    && g.PieceAbsPos(g.PieceOf(s.absRPos)) <= s.absWPos
    && s.absWPos <= g.PieceAbsPos(g.PieceOf(s.absRPos) + |s.slots|)
    && CoveredTo(g, s.slots, s.absWPos)
  }

  /** Slots that share ring cells with `piece` hold nothing. */
  ghost predicate AliasesEmpty(g: Geometry, slots: seq<Slot>, piece: int)
    requires g.Valid()
  {
    forall i :: 0 <= i < |slots| && slots[i].piece != piece && g.Cell(slots[i].piece, 0) == g.Cell(piece, 0)
      ==> slots[i].segments == []
  }

  ghost predicate WriterOk(g: Geometry, content: Content, s: State)
    requires g.Valid() && |s.ring| == g.CacheSize()
  {
    && s.updatingBuffer == s.writer.Filling?
    && (s.writer.Filling? ==>
          var w := s.writer;
          && 0 <= w.offset && |w.block| > 0 && w.offset + |w.block| <= g.pieceLen && w.done <= |w.block|
          && TrueBlock(g, content, w.block, w.offset, w.piece)
          && (forall x :: w.offset <= x < w.offset + w.done ==>
                s.ring[g.Cell(w.piece, x)] == content(g.PieceAbsPos(w.piece) + x))
          && AliasesEmpty(g, s.slots, w.piece))
  }

  ghost predicate ReaderOk(g: Geometry, content: Content, s: State)
    requires g.Valid()
  {
    s.reader.Copying? ==>
      var r := s.reader;
      && s.absRPos < r.upto <= s.absWPos && r.len > 0
      && r.localR == g.PosInCacheByAbsPos(s.absRPos) && r.localW == g.PosInCacheByAbsPos(r.upto)
      && |r.out| <= Wanted(g, r)
      && Genuine(content, Delivery(s.absRPos, r.out))
  }

  /** A delivery consists of the torrent's bytes from the position it was read at. */
  ghost predicate Genuine(content: Content, d: Delivery) {
    forall k :: 0 <= k < |d.bytes| ==> d.bytes[k] == content(d.from + k)
  }

  ghost predicate Inv(g: Geometry, content: Content, s: State)
    requires g.Valid()
  {
    && |s.ring| == g.CacheSize()
    && WindowOk(g, s)
    && Backed(g, content, s.ring, s.slots)
    && FrontierOk(g, s)
    && WriterOk(g, content, s)
    && ReaderOk(g, content, s)
    && forall i :: 0 <= i < |s.log| ==> Genuine(content, s.log[i])
  }

  /** The commit credits the slot of the piece that was written, if it credits any. */
  ghost predicate CreditsOwnPiece(mode: Lookup, s: State) {
    s.writer.Filling? ==>
      var k := CommitSlot(mode, s);
      k < |s.slots| ==> s.slots[k].piece == s.writer.piece
  }

  // ---------------------------------------------------------------- every step keeps it

  lemma StartOk(g: Geometry, content: Content, ring: seq<Byte>)
    requires g.Valid() && |ring| == g.CacheSize()
    ensures Inv(g, content, Start(g, ring))
  {
    var first, s := g.FirstPiece(), Start(g, ring);
    forall i | 0 <= i < |s.slots| ensures s.slots[i].segments == [] {
      assert s.slots[i] == Slot(first + i, RangeOf([], first + i));
    }
    MulMonotone(first, first + |s.slots|, g.pieceLen);
    NothingBefore(g, s.slots, first);
  }

  /** No slot of a window holds a position before the window. */
  lemma NothingBefore(g: Geometry, slots: seq<Slot>, start: int)
    requires g.Valid() && forall i :: 0 <= i < |slots| ==> slots[i].piece == start + i
    ensures CoveredTo(g, slots, g.PieceAbsPos(start))
  {
    forall i | 0 <= i < |slots| ensures g.PieceAbsPos(slots[i].piece) >= g.PieceAbsPos(start) {
      MulMonotone(start, start + i, g.pieceLen);
    }
  }

  /** The write position is never more than one ring ahead of the read position. */
  lemma AtMostOneRing(g: Geometry, s: State)
    requires g.Valid() && WindowOk(g, s) && FrontierOk(g, s)
    ensures s.absWPos - s.absRPos <= g.CacheSize()
  {
    var front := g.PieceOf(s.absRPos);
    PieceSpread(g, front + |s.slots| - 1, front);
    Distribute(front + |s.slots| - 1, 1, g.pieceLen);
    var piece, x := PieceAndOffset(g, s.absRPos);
  }

  /** A byte between the two positions is in the ring, and is the torrent's byte. */
  lemma ReadableByte(g: Geometry, content: Content, s: State, pos: int)
    requires g.Valid() && |s.ring| == g.CacheSize() && WindowOk(g, s) && FrontierOk(g, s)
    requires Backed(g, content, s.ring, s.slots)
    requires s.absRPos <= pos < s.absWPos
    ensures s.ring[g.PosInCacheByAbsPos(pos)] == content(pos)
  {
    var front := g.PieceOf(s.absRPos);
    var piece, x := PieceAndOffset(g, pos);
    PieceOfBound(g, s.absRPos, front);
    PieceOfBound(g, pos, front);
    PieceOfBound(g, pos, front + |s.slots|);
    assert Covers(s.slots[piece - front].segments, x);
    assert g.Cell(piece, x) == g.PosInCacheByAbsPos(pos);
  }

  lemma FindSlotInWindow(g: Geometry, s: State, piece: int)
    requires g.Valid() && WindowOk(g, s)
    ensures var front := g.PieceOf(s.absRPos);
            FindSlot(s.slots, piece) == if front <= piece < front + |s.slots| then piece - front else |s.slots|
  {
    var front, k := g.PieceOf(s.absRPos), LowerSlot(s.slots, piece);
    if front <= piece < front + |s.slots| {
      assert s.slots[piece - front].piece == piece;
    }
  }

  lemma WriteBeginOk(g: Geometry, content: Content, mode: Lookup, s: State, step: Step)
    requires g.Valid() && Inv(g, content, s) && step.WriteBegin? && Enabled(g, content, mode, s, step)
    ensures Inv(g, content, Apply(g, mode, s, step))
  {
    var k := FindSlot(s.slots, step.piece);
    if k < |s.slots| {
      forall i | 0 <= i < |s.slots| && g.Cell(s.slots[i].piece, 0) == g.Cell(step.piece, 0)
        ensures s.slots[i].piece == step.piece
      {
        CellIsInjective(g, s.slots[i].piece, 0, step.piece, 0);
      }
    }
  }

  /** Storing a true byte of a piece cannot damage what any slot claims. */
  lemma StoreKeepsBacked(g: Geometry, content: Content, ring: seq<Byte>, slots: seq<Slot>, piece: int, x: int)
    requires g.Valid() && |ring| == g.CacheSize() && Backed(g, content, ring, slots)
    requires AliasesEmpty(g, slots, piece) && 0 <= x < g.pieceLen
    ensures Backed(g, content, ring[g.Cell(piece, x) := content(g.PieceAbsPos(piece) + x)], slots)
  {
    var cell := g.Cell(piece, x);
    var stored := ring[cell := content(g.PieceAbsPos(piece) + x)];
    forall i, y | 0 <= i < |slots| && 0 <= y < g.pieceLen && Covers(slots[i].segments, y)
      ensures stored[g.Cell(slots[i].piece, y)] == content(g.PieceAbsPos(slots[i].piece) + y)
    {
      if g.Cell(slots[i].piece, y) == cell {
        CellAlias(g, slots[i].piece, y, piece, x);
      }
    }
  }

  lemma StoreExtends(g: Geometry, content: Content, ring: seq<Byte>, piece: int, lo: int, x: int)
    requires g.Valid() && |ring| == g.CacheSize() && 0 <= lo <= x < g.pieceLen
    requires forall y :: lo <= y < x ==> ring[g.Cell(piece, y)] == content(g.PieceAbsPos(piece) + y)
    ensures var stored := ring[g.Cell(piece, x) := content(g.PieceAbsPos(piece) + x)];
            forall y :: lo <= y < x + 1 ==> stored[g.Cell(piece, y)] == content(g.PieceAbsPos(piece) + y)
  {
    forall y | lo <= y < x ensures g.Cell(piece, y) != g.Cell(piece, x) {
      CellIsInjective(g, piece, x, piece, y);
    }
  }

  lemma WriteByteOk(g: Geometry, content: Content, mode: Lookup, s: State)
    requires g.Valid() && Inv(g, content, s) && Enabled(g, content, mode, s, WriteByte)
    ensures Inv(g, content, Apply(g, mode, s, WriteByte))
    ensures 0 <= WriteCell(g, s.writer) < |s.ring|
  {
    var w, x := s.writer, s.writer.offset + s.writer.done;
    assert WriteCell(g, w) == g.Cell(w.piece, x);
    assert w.block[w.done] == content(g.PieceAbsPos(w.piece) + x);
    StoreKeepsBacked(g, content, s.ring, s.slots, w.piece, x);
    StoreExtends(g, content, s.ring, w.piece, w.offset, x);
  }

  /** A credit adds the interval's bytes to its slot and changes no other slot. */
  lemma CreditCovers(g: Geometry, slots: seq<Slot>, k: nat, seg: Segment, i: nat, x: int)
    requires SlotsInBounds(g, slots) && seg.first < seg.second && k < |slots| && i < |slots|
    ensures Credited(slots, k, seg)[i].piece == slots[i].piece
    ensures Covers(Credited(slots, k, seg)[i].segments, x) <==>
            Covers(slots[i].segments, x) || (i == k && seg.first <= x < seg.second)
  {
    if i == k {
      AddedCovers(slots[k].segments, seg, x);
    }
  }

  lemma CreditIsBacked(g: Geometry, content: Content, ring: seq<Byte>, slots: seq<Slot>, k: nat, seg: Segment)
    requires g.Valid() && |ring| == g.CacheSize() && Backed(g, content, ring, slots) && SlotsInBounds(g, slots)
    requires k < |slots| && 0 <= seg.first < seg.second <= g.pieceLen
    requires forall x :: seg.first <= x < seg.second ==>
               ring[g.Cell(slots[k].piece, x)] == content(g.PieceAbsPos(slots[k].piece) + x)
    ensures Backed(g, content, ring, Credited(slots, k, seg))
  {
    var r := Credited(slots, k, seg);
    forall i, x | 0 <= i < |r| && 0 <= x < g.pieceLen && Covers(r[i].segments, x)
      ensures ring[g.Cell(r[i].piece, x)] == content(g.PieceAbsPos(r[i].piece) + x)
    {
      CreditCovers(g, slots, k, seg, i, x);
      assert r[i].piece == slots[i].piece;
      if i == k && seg.first <= x < seg.second {
        assert ring[g.Cell(slots[k].piece, x)] == content(g.PieceAbsPos(slots[k].piece) + x);
      } else {
        assert Covers(slots[i].segments, x);
      }
    }
  }

  lemma CreditKeepsBounds(g: Geometry, slots: seq<Slot>, k: nat, seg: Segment, pos: int)
    requires SlotsInBounds(g, slots) && k < |slots| && 0 <= seg.first < seg.second <= g.pieceLen
    ensures SlotsInBounds(g, Credited(slots, k, seg))
    ensures CoveredTo(g, slots, pos) ==> CoveredTo(g, Credited(slots, k, seg), pos)
  {
    AddedKeepsOrder(slots[k].segments, seg, 0, g.pieceLen);
    if CoveredTo(g, slots, pos) {
      var r := Credited(slots, k, seg);
      forall i, x | 0 <= i < |r| && 0 <= x < g.pieceLen && g.PieceAbsPos(r[i].piece) + x < pos
        ensures Covers(r[i].segments, x)
      {
        CreditCovers(g, slots, k, seg, i, x);
      }
    }
  }

  lemma WriteCommitOk(g: Geometry, content: Content, mode: Lookup, s: State)
    requires g.Valid() && Inv(g, content, s) && Enabled(g, content, mode, s, WriteCommit)
    requires CreditsOwnPiece(mode, s)
    ensures Inv(g, content, Apply(g, mode, s, WriteCommit))
  {
    var k := CommitSlot(mode, s);
    if k < |s.slots| {
      CommitOk(g, content, s, k);
    }
  }

  /** A commit that credits the slot of the piece it wrote. */
  lemma CommitOk(g: Geometry, content: Content, s: State, k: nat)
    requires g.Valid() && Inv(g, content, s) && s.writer.Filling? && s.writer.done == |s.writer.block|
    requires k < |s.slots| && s.slots[k].piece == s.writer.piece
    ensures Inv(g, content, Commit(g, s, k))
    ensures s.absWPos <= Commit(g, s, k).absWPos
  {
    var slots := Credited(s.slots, k, BlockSegment(s.writer));
    var w := Advance(g, slots, k, s.absWPos);
    CreditedOk(g, content, s, k);
    assert slots[0].piece == g.PieceOf(s.absRPos);
    AdvanceIsSafe(g, slots, k, s.absWPos);
    MovedWriterOk(g, content, s, slots, w);
  }

  lemma MovedWriterOk(g: Geometry, content: Content, s: State, slots: seq<Slot>, absWPos: int)
    requires g.Valid() && Inv(g, content, s)
    requires var t := s.(slots := slots, absWPos := absWPos);
             WindowOk(g, t) && Backed(g, content, s.ring, slots) && FrontierOk(g, t)
    requires s.absWPos <= absWPos
    ensures Inv(g, content, s.(slots := slots, absWPos := absWPos, writer := Idle, updatingBuffer := false))
  {
  }

  lemma CreditedOk(g: Geometry, content: Content, s: State, k: nat)
    requires g.Valid() && Inv(g, content, s) && s.writer.Filling? && s.writer.done == |s.writer.block|
    requires k < |s.slots| && s.slots[k].piece == s.writer.piece
    ensures var slots := Credited(s.slots, k, BlockSegment(s.writer));
            && Backed(g, content, s.ring, slots)
            && SlotsInBounds(g, slots)
            && CoveredTo(g, slots, s.absWPos)
            && (forall i :: 0 <= i < |slots| ==> slots[i].piece == g.PieceOf(s.absRPos) + i)
  {
    CreditIsBacked(g, content, s.ring, s.slots, k, BlockSegment(s.writer));
    CreditKeepsBounds(g, s.slots, k, BlockSegment(s.writer), s.absWPos);
  }

  lemma ReadBeginOk(g: Geometry, content: Content, mode: Lookup, s: State, step: Step)
    requires g.Valid() && Inv(g, content, s) && step.ReadBegin? && Enabled(g, content, mode, s, step)
    ensures Inv(g, content, Apply(g, mode, s, step))
  {
    AtMostOneRing(g, s);
    CopyPlan(g, s.absRPos, s.absWPos, step.len);
  }

  lemma ReadByteOk(g: Geometry, content: Content, mode: Lookup, s: State)
    requires g.Valid() && Inv(g, content, s) && Enabled(g, content, mode, s, ReadByte)
    ensures Inv(g, content, Apply(g, mode, s, ReadByte))
    ensures 0 <= ReadCell(g, s.reader) < |s.ring|
  {
    var r, k := s.reader, |s.reader.out|;
    AtMostOneRing(g, s);
    CopyPlan(g, s.absRPos, r.upto, r.len);
    assert CopyCell(g, r.localR, r.localW, r.len, k) == g.PosInCacheByAbsPos(s.absRPos + k);
    ReadableByte(g, content, s, s.absRPos + k);
  }

  /** A slot of the moved window is a slot of the old one, or empty. */
  lemma WindowOrigin(g: Geometry, s: State, start: int, i: nat)
    requires g.Valid() && WindowOk(g, s) && i < WindowLength(g, start)
    ensures var slot, j := Window(g, s.slots, start)[i], start + i - g.PieceOf(s.absRPos);
            && slot.piece == start + i
            && if 0 <= j < |s.slots| then slot == s.slots[j] else slot.segments == []
  {
    assert |s.slots| > 0 ==> s.slots[0].piece == g.PieceOf(s.absRPos);
    assert Window(g, s.slots, start)[i] == Slot(start + i, RangeOf(s.slots, start + i));
  }

  /** Moving the window anywhere keeps what the surviving slots claim. */
  lemma WindowMoves(g: Geometry, content: Content, s: State, start: int)
    requires g.Valid() && |s.ring| == g.CacheSize() && WindowOk(g, s)
    requires Backed(g, content, s.ring, s.slots)
    ensures Backed(g, content, s.ring, Window(g, s.slots, start))
    ensures SlotsInBounds(g, Window(g, s.slots, start))
  {
    var w, front := Window(g, s.slots, start), g.PieceOf(s.absRPos);
    forall i, x | 0 <= i < |w| && 0 <= x < g.pieceLen && Covers(w[i].segments, x)
      ensures s.ring[g.Cell(w[i].piece, x)] == content(g.PieceAbsPos(w[i].piece) + x)
    {
      WindowOrigin(g, s, start, i);
      assert Covers(s.slots[start + i - front].segments, x);
    }
    forall i | 0 <= i < |w|
      ensures Sorted(w[i].segments) && Proper(w[i].segments) && Within(w[i].segments, 0, g.pieceLen)
    {
      WindowOrigin(g, s, start, i);
    }
  }

  lemma WindowKeepsAliases(g: Geometry, s: State, start: int, piece: int)
    requires g.Valid() && WindowOk(g, s) && AliasesEmpty(g, s.slots, piece)
    ensures AliasesEmpty(g, Window(g, s.slots, start), piece)
  {
    forall i | 0 <= i < WindowLength(g, start)
      ensures Window(g, s.slots, start)[i].segments == []
              || start + i == piece || g.Cell(start + i, 0) != g.Cell(piece, 0)
    {
      WindowOrigin(g, s, start, i);
    }
  }

  /** A position covered before the move is covered after it, if its piece is still held. */
  lemma WindowKeepsCovered(g: Geometry, s: State, start: int, pos: int)
    requires g.Valid() && WindowOk(g, s) && CoveredTo(g, s.slots, pos)
    requires g.PieceOf(s.absRPos) <= start || pos <= g.PieceAbsPos(start)
    requires pos <= g.PieceAbsPos(g.PieceOf(s.absRPos) + |s.slots|) || pos <= g.PieceAbsPos(start)
    ensures CoveredTo(g, Window(g, s.slots, start), pos)
  {
    var w, front := Window(g, s.slots, start), g.PieceOf(s.absRPos);
    forall i, x | 0 <= i < |w| && 0 <= x < g.pieceLen && g.PieceAbsPos(w[i].piece) + x < pos
      ensures Covers(w[i].segments, x)
    {
      WindowOrigin(g, s, start, i);
      MulMonotone(start, start + i, g.pieceLen);
      if start + i >= front + |s.slots| {
        MulMonotone(front + |s.slots|, start + i, g.pieceLen);
      }
      assert s.slots[start + i - front].piece == w[i].piece;
    }
  }

  lemma ReadCommitOk(g: Geometry, content: Content, mode: Lookup, s: State)
    requires g.Valid() && Inv(g, content, s) && Enabled(g, content, mode, s, ReadCommit)
    ensures Inv(g, content, Apply(g, mode, s, ReadCommit))
  {
    var r, t := s.reader, Apply(g, mode, s, ReadCommit);
    AtMostOneRing(g, s);
    CopyPlan(g, s.absRPos, r.upto, r.len);
    WindowMoves(g, content, s, g.PieceOf(t.absRPos));
    if s.writer.Filling? {
      WindowKeepsAliases(g, s, g.PieceOf(t.absRPos), s.writer.piece);
    }
    ForwardKeepsFrontier(g, s, t.absRPos);
  }

  /** Reading up to a position not beyond the write position keeps the write position in the
      window and everything before it covered. */
  lemma ForwardKeepsFrontier(g: Geometry, s: State, absRPos: int)
    requires g.Valid() && WindowOk(g, s) && FrontierOk(g, s) && s.absRPos <= absRPos <= s.absWPos
    ensures var slots := Window(g, s.slots, g.PieceOf(absRPos));
            FrontierOk(g, s.(absRPos := absRPos, slots := slots))
  {
    var front, start := g.PieceOf(s.absRPos), g.PieceOf(absRPos);
    PieceOfBound(g, s.absRPos, start);
    PieceOfBound(g, absRPos, start);
    PieceOfBound(g, absRPos, front);
    PieceOfBound(g, s.absRPos, front);
    PieceOfBound(g, absRPos, front + |s.slots| + 1);
    PieceOrder(g, front + |s.slots|, front + |s.slots| + 1);
    WindowEndsGrow(g, s, start);
    MulMonotone(front + |s.slots|, start + WindowLength(g, start), g.pieceLen);
    WindowKeepsCovered(g, s, start, s.absWPos);
  }

  /** Moving forward never brings the end of the window back, short of leaving the file. */
  lemma WindowEndsGrow(g: Geometry, s: State, start: int)
    requires g.Valid() && WindowOk(g, s) && g.PieceOf(s.absRPos) <= start
    requires start <= g.PieceOf(s.absRPos) + |s.slots|
    ensures g.PieceOf(s.absRPos) + |s.slots| <= start + WindowLength(g, start)
  {
  }

  lemma SeekOk(g: Geometry, content: Content, mode: Lookup, s: State, step: Step)
    requires g.Valid() && Inv(g, content, s) && step.Seek? && Enabled(g, content, mode, s, step)
    ensures Inv(g, content, Apply(g, mode, s, step))
  {
    var t := Apply(g, mode, s, step);
    var start := g.PieceOf(t.absRPos);
    WindowMoves(g, content, s, start);
    if s.writer.Filling? {
      WindowKeepsAliases(g, s, start, s.writer.piece);
    }
    SeekKeepsFrontier(g, s, step.pos);
  }

  lemma SeekKeepsFrontier(g: Geometry, s: State, pos: int)
    requires g.Valid() && WindowOk(g, s) && FrontierOk(g, s) && pos >= 0
    ensures FrontierOk(g, SeekTo(g, s, pos))
  {
    var t := SeekTo(g, s, pos);
    var front, start := g.PieceOf(s.absRPos), g.PieceOf(t.absRPos);
    PieceOfBound(g, t.absRPos, g.FirstPiece());
    PieceOfBound(g, g.fOffset, g.FirstPiece());
    MulMonotone(start, start + |t.slots|, g.pieceLen);
    if g.PieceOf(s.absWPos) == start {
      PieceOfBound(g, s.absWPos, start);
      PieceOfBound(g, s.absWPos, start + 1);
      PieceOfBound(g, s.absWPos, front);
      SamePieceInWindow(g, s, start);
      WindowKeepsCovered(g, s, start, s.absWPos);
    } else {
      NothingBefore(g, t.slots, start);
    }
  }

  /** If the write position lies in piece `start`, the window from `start` reaches it. */
  lemma SamePieceInWindow(g: Geometry, s: State, start: int)
    requires g.Valid() && WindowOk(g, s) && FrontierOk(g, s) && g.PieceOf(s.absWPos) == start
    ensures s.absWPos <= g.PieceAbsPos(start + WindowLength(g, start))
  {
    var front := g.PieceOf(s.absRPos);
    PieceOfBound(g, s.absWPos, start);
    PieceOfBound(g, s.absWPos, start + 1);
    PieceOfBound(g, s.absWPos, front + |s.slots|);
    if WindowLength(g, start) >= 1 {
      MulMonotone(start + 1, start + WindowLength(g, start), g.pieceLen);
    } else {
      MulMonotone(front + |s.slots|, start, g.pieceLen);
    }
  }

  /** Every step keeps the invariant, whatever the interleaving, as long as commits credit the
      slot of the piece they wrote. */
  lemma StepKeepsInv(g: Geometry, content: Content, mode: Lookup, s: State, step: Step)
    requires g.Valid() && Inv(g, content, s) && Enabled(g, content, mode, s, step)
    requires step.WriteCommit? ==> CreditsOwnPiece(mode, s)
    ensures Inv(g, content, Apply(g, mode, s, step))
  {
    match step
    case WriteBegin(_, _, _) => WriteBeginOk(g, content, mode, s, step);
    case WriteByte => WriteByteOk(g, content, mode, s);
    case WriteCommit => WriteCommitOk(g, content, mode, s);
    case ReadBegin(_) => ReadBeginOk(g, content, mode, s, step);
    case ReadByte => ReadByteOk(g, content, mode, s);
    case ReadCommit => ReadCommitOk(g, content, mode, s);
    case Seek(_) => SeekOk(g, content, mode, s, step);
  }
}
