/** The cache object, called from one thread at a time: each call is a run of the step system. */
module Storage {
  import opened Ranges
  import opened Ring
  import opened Slots
  import opened Protocol
  import opened Runs
  import opened History

  // ---------------------------------------------------------------- whole calls as runs

  /** `ring` with `bytes` copied to `at`. */
  function Blit(ring: seq<Byte>, at: int, bytes: seq<Byte>): seq<Byte>
    requires 0 <= at && at + |bytes| <= |ring|
  {
    ring[..at] + bytes + ring[at + |bytes|..]
  }

  /** The state of a writer that found its slot and stored the first `n` bytes of its block. */
  ghost function Stored(g: Geometry, s: State, block: seq<Byte>, offset: int, piece: int, n: nat): State
    requires g.Valid() && |s.ring| == g.CacheSize() && n <= |block|
    requires 0 <= offset && offset + |block| <= g.pieceLen
  {
    BlockFits(g, offset, |block|, piece);
    s.(ring := Blit(s.ring, g.PosInCacheByPiece(piece) + offset, block[..n]),
       writer := Filling(piece, offset, block, n, FindSlot(s.slots, piece)), updatingBuffer := true)
  }

  lemma BlockFits(g: Geometry, offset: int, len: int, piece: int)
    requires g.Valid() && 0 <= offset && len >= 0 && offset + len <= g.pieceLen
    ensures 0 <= g.PosInCacheByPiece(piece)
    ensures g.PosInCacheByPiece(piece) + offset + len <= g.CacheSize()
  {
    PositionsAgree(g, piece, 0);
    PositionsAgree(g, piece, g.pieceLen - 1);
  }

  /** A whole `write` of a block whose piece is in the window. */
  ghost function AfterWrite(g: Geometry, s: State, block: seq<Byte>, offset: int, piece: int): State
    requires g.Valid() && |s.ring| == g.CacheSize()
    requires 0 <= offset && offset + |block| <= g.pieceLen
  {
    Commit(g, Stored(g, s, block, offset, piece, |block|), FindSlot(s.slots, piece))
  }

  /** A whole `read`. */
  ghost function AfterRead(g: Geometry, s: State, len: int): State
    requires g.Valid()
  {
    var localR, localW := g.PosInCacheByAbsPos(s.absRPos), g.PosInCacheByAbsPos(s.absWPos);
    var n := CopyCount(g, localR, localW, len);
    s.(absRPos := s.absRPos + n, slots := Window(g, s.slots, g.PieceOf(s.absRPos + n)),
       log := s.log + [Delivery(s.absRPos, Copied(g, s, localR, localW, len, n))])
  }

  ghost function Copied(g: Geometry, s: State, localR: int, localW: int, len: int, n: int): seq<Byte>
    requires g.Valid()
  {
    if n <= 0 then [] else seq(n, k => Peek(s.ring, CopyCell(g, localR, localW, len, k)))
  }

  lemma {:induction false} StoreRun(g: Geometry, content: Content, mode: Lookup, rules: Rules, s: State,
                                    block: seq<Byte>, offset: int, piece: int, n: nat)
    returns (steps: seq<Step>)
    requires g.Valid() && Inv(g, content, s) && s.writer.Idle? && FindSlot(s.slots, piece) < |s.slots|
    requires Enabled(g, content, mode, s, WriteBegin(block, offset, piece))
    requires Permitted(g, rules, s, WriteBegin(block, offset, piece)) && n <= |block|
    ensures Exec(g, content, mode, rules, s, steps) == Reached(Stored(g, s, block, offset, piece, n))
  {
    BlockFits(g, offset, |block|, piece);
    var at := g.PosInCacheByPiece(piece) + offset;
    if n == 0 {
      assert Exec(g, content, mode, rules, s, []) == Reached(s);
      Extend(g, content, mode, rules, s, [], s, WriteBegin(block, offset, piece));
      assert Blit(s.ring, at, block[..0]) == s.ring;
      steps := [] + [WriteBegin(block, offset, piece)];
    } else {
      steps := StoreRun(g, content, mode, rules, s, block, offset, piece, n - 1);
      StoreOneMore(g, content, mode, rules, s, block, offset, piece, n);
      Extend(g, content, mode, rules, s, steps, Stored(g, s, block, offset, piece, n - 1), WriteByte);
      steps := steps + [WriteByte];
    }
  }

  lemma StoreOneMore(g: Geometry, content: Content, mode: Lookup, rules: Rules, s: State,
                     block: seq<Byte>, offset: int, piece: int, n: nat)
    requires g.Valid() && |s.ring| == g.CacheSize() && 0 < n <= |block|
    requires 0 <= offset && offset + |block| <= g.pieceLen
    ensures var t := Stored(g, s, block, offset, piece, n - 1);
            && Enabled(g, content, mode, t, WriteByte) && Permitted(g, rules, t, WriteByte)
            && Apply(g, mode, t, WriteByte) == Stored(g, s, block, offset, piece, n)
  {
    BlockFits(g, offset, |block|, piece);
    BlitMore(s.ring, g.PosInCacheByPiece(piece) + offset, block, n);
  }

  lemma BlitMore(ring: seq<Byte>, at: int, block: seq<Byte>, n: nat)
    requires 0 < n <= |block| && 0 <= at && at + |block| <= |ring|
    ensures Blit(ring, at, block[..n - 1])[at + n - 1 := block[n - 1]] == Blit(ring, at, block[..n])
  {
  }

  /** A whole `write` is a run: begin, one step for each byte, commit. */
  lemma WriteIsRun(g: Geometry, content: Content, mode: Lookup, rules: Rules, s: State,
                   block: seq<Byte>, offset: int, piece: int)
    returns (steps: seq<Step>)
    requires g.Valid() && Inv(g, content, s) && s.writer.Idle? && FindSlot(s.slots, piece) < |s.slots|
    requires |block| > 0 && 0 <= offset && offset + |block| <= g.pieceLen && TrueBlock(g, content, block, offset, piece)
    requires Permitted(g, rules, s, WriteBegin(block, offset, piece))
    ensures Exec(g, content, mode, rules, s, steps) == Reached(AfterWrite(g, s, block, offset, piece))
  {
    steps := StoreRun(g, content, mode, rules, s, block, offset, piece, |block|);
    Extend(g, content, mode, rules, s, steps, Stored(g, s, block, offset, piece, |block|), WriteCommit);
    steps := steps + [WriteCommit];
  }

  lemma {:induction false} CopyRun(g: Geometry, content: Content, mode: Lookup, rules: Rules, s: State, len: int, n: nat)
    returns (steps: seq<Step>)
    requires g.Valid() && Inv(g, content, s) && Enabled(g, content, mode, s, ReadBegin(len))
    requires n <= CopyCount(g, g.PosInCacheByAbsPos(s.absRPos), g.PosInCacheByAbsPos(s.absWPos), len)
    ensures var localR, localW := g.PosInCacheByAbsPos(s.absRPos), g.PosInCacheByAbsPos(s.absWPos);
            Exec(g, content, mode, rules, s, steps)
            == Reached(s.(reader := Copying(s.absWPos, localR, localW, len, Copied(g, s, localR, localW, len, n))))
  {
    var localR, localW := g.PosInCacheByAbsPos(s.absRPos), g.PosInCacheByAbsPos(s.absWPos);
    if n == 0 {
      assert Exec(g, content, mode, rules, s, []) == Reached(s);
      Extend(g, content, mode, rules, s, [], s, ReadBegin(len));
      steps := [] + [ReadBegin(len)];
    } else {
      steps := CopyRun(g, content, mode, rules, s, len, n - 1);
      var t := s.(reader := Copying(s.absWPos, localR, localW, len, Copied(g, s, localR, localW, len, n - 1)));
      Extend(g, content, mode, rules, s, steps, t, ReadByte);
      assert Copied(g, s, localR, localW, len, n)
          == Copied(g, s, localR, localW, len, n - 1) + [Peek(s.ring, CopyCell(g, localR, localW, len, n - 1))];
      steps := steps + [ReadByte];
    }
  }

  /** A whole `read` is a run: snapshot, one step for each byte, commit. */
  lemma ReadIsRun(g: Geometry, content: Content, mode: Lookup, rules: Rules, s: State, len: int)
    returns (steps: seq<Step>)
    requires g.Valid() && Inv(g, content, s) && s.writer.Idle? && s.reader.Ready? && s.absRPos < s.absWPos && len > 0
    ensures Exec(g, content, mode, rules, s, steps) == Reached(AfterRead(g, s, len))
  {
    var localR, localW := g.PosInCacheByAbsPos(s.absRPos), g.PosInCacheByAbsPos(s.absWPos);
    AtMostOneRing(g, s);
    CopyPlan(g, s.absRPos, s.absWPos, len);
    var n := CopyCount(g, localR, localW, len);
    steps := CopyRun(g, content, mode, rules, s, len, n);
    var t := s.(reader := Copying(s.absWPos, localR, localW, len, Copied(g, s, localR, localW, len, n)));
    Extend(g, content, mode, rules, s, steps, t, ReadCommit);
    steps := steps + [ReadCommit];
  }

  /** The fields a whole write changes. */
  lemma AfterWriteFields(g: Geometry, s: State, block: seq<Byte>, offset: int, piece: int)
    requires g.Valid() && |s.ring| == g.CacheSize() && s.writer.Idle?
    requires 0 <= offset && offset + |block| <= g.pieceLen
    requires FindSlot(s.slots, piece) < |s.slots|
    ensures var at, k := g.PosInCacheByPiece(piece) + offset, FindSlot(s.slots, piece);
            && 0 <= at && at + |block| <= |s.ring|
            && var slots := Credited(s.slots, k, Segment(offset, offset + |block|));
               AfterWrite(g, s, block, offset, piece)
               == s.(ring := Blit(s.ring, at, block), slots := slots,
                     absWPos := Advance(g, slots, k, s.absWPos), updatingBuffer := false)
  {
    BlockFits(g, offset, |block|, piece);
    assert block[..|block|] == block;
  }

  lemma WindowIsContiguous(g: Geometry, content: Content, s: State)
    requires g.Valid() && Inv(g, content, s)
    ensures Contiguous(s.slots)
    ensures forall i :: 0 <= i < |s.slots| ==> NotBeyondFile(g, s.slots[i].piece) && Sorted(s.slots[i].segments)
  {
    forall i | 0 <= i < |s.slots| ensures NotBeyondFile(g, s.slots[i].piece) {
      LastPieceIs(g, s.slots[i].piece);
    }
    assert |s.slots| > 0 ==> s.slots[0].piece == g.PieceOf(s.absRPos);
  }

  /** The piece of a block is found in the list exactly when it is in reach. */
  lemma FoundIffInReach(g: Geometry, s: State, piece: int)
    requires g.Valid() && WindowOk(g, s)
    ensures FindSlot(s.slots, piece) < |s.slots| <==> InReach(g, s.absRPos, piece)
  {
    ListsReach(g, s, piece);
    FindSlotInWindow(g, s, piece);
  }

  lemma AfterWriteOk(g: Geometry, content: Content, s: State, block: seq<Byte>, offset: int, piece: int)
    requires g.Valid() && Inv(g, content, s) && s.writer.Idle? && FindSlot(s.slots, piece) < |s.slots|
    requires |block| > 0 && 0 <= offset && offset + |block| <= g.pieceLen && TrueBlock(g, content, block, offset, piece)
    ensures Inv(g, content, AfterWrite(g, s, block, offset, piece))
    ensures AddsBytes(s.slots, AfterWrite(g, s, block, offset, piece).slots, piece, offset, |block|)
  {
    WindowIsContiguous(g, content, s);
    AfterWriteFields(g, s, block, offset, piece);
    CreditAddsBytes(g, s.slots, FindSlot(s.slots, piece), Segment(offset, offset + |block|));
    var rules := Rules(AnyBlock, false, false, AnySeek);
    var steps := WriteIsRun(g, content, ByPiece, rules, s, block, offset, piece);
    RunIsSound(g, content, ByPiece, rules, s, steps);
  }

  lemma AfterReadOk(g: Geometry, content: Content, s: State, len: int)
    requires g.Valid() && Inv(g, content, s) && s.writer.Idle? && s.reader.Ready? && s.absRPos < s.absWPos && len > 0
    ensures Inv(g, content, AfterRead(g, s, len))
    ensures KeepsInReach(g, s.slots, AfterRead(g, s, len).slots, AfterRead(g, s, len).absRPos)
  {
    var rules := Rules(AnyBlock, false, false, AnySeek);
    var steps := ReadIsRun(g, content, ByPiece, rules, s, len);
    RunIsSound(g, content, ByPiece, rules, s, steps);
    MovedKeepsInReach(g, s, AfterRead(g, s, len));
  }

  /** What a whole read hands over: the torrent's bytes, as many as asked for and received. */
  lemma AfterReadDelivers(g: Geometry, content: Content, s: State, len: int)
    requires g.Valid() && Inv(g, content, s) && s.writer.Idle? && s.reader.Ready? && s.absRPos < s.absWPos && len > 0
    ensures var t := AfterRead(g, s, len);
            && t.absRPos == s.absRPos + Min(len, s.absWPos - s.absRPos) && t.absWPos == s.absWPos
            && |t.log| == |s.log| + 1 && Genuine(content, t.log[|s.log|])
            && t.log[|s.log|].from == s.absRPos && |t.log[|s.log|].bytes| == t.absRPos - s.absRPos
  {
    AfterReadOk(g, content, s, len);
    AtMostOneRing(g, s);
    CopyPlan(g, s.absRPos, s.absWPos, len);
  }

  // ---------------------------------------------------------------- requesting slots

  /** The first piece behind the list. */
  function EndPiece(slots: seq<Slot>): int {
    if |slots| == 0 then 0 else slots[0].piece + |slots|
  }

  /** The first piece behind the slots that are kept when the window is to start at `start`; `start` itself
      when none is. */
  function KeptEnd(g: Geometry, slots: seq<Slot>, start: int): (e: int)
    requires g.Valid()
    ensures start <= e <= start + g.pieces
  {
    var e := Min(EndPiece(slots), start + g.pieces);
    if |slots| > 0 && slots[0].piece < e && start < e then e else start
  }

  function RequestedLength(g: Geometry, slots: seq<Slot>, start: int): (n: int)
    requires g.Valid()
    ensures 0 <= n <= g.pieces
  {
    Max(KeptEnd(g, slots, start) - start, WindowLength(g, start))
  }

  /** What a request makes of any contiguous list: the window from `start`, and as much more as kept slots
      beyond the last piece reach. */
  function Requested(g: Geometry, slots: seq<Slot>, start: int): (r: seq<Slot>)
    requires g.Valid()
    ensures |r| == RequestedLength(g, slots, start)
  {
    seq(RequestedLength(g, slots, start), i => Slot(start + i, RangeOf(slots, start + i)))
  }

  /** Without slots beyond the last piece it is the window. */
  lemma RequestedIsWindow(g: Geometry, slots: seq<Slot>, start: int)
    requires g.Valid() && Contiguous(slots)
    ensures (forall i :: 0 <= i < |slots| ==> NotBeyondFile(g, slots[i].piece)) ==>
              Requested(g, slots, start) == Window(g, slots, start)
  {
    forall i | 0 <= i < |slots| ensures slots[i].piece <= g.LastPiece() <==> NotBeyondFile(g, slots[i].piece) {
      LastPieceIs(g, slots[i].piece);
    }
    assert |slots| > 0 ==> slots[|slots| - 1].piece == EndPiece(slots) - 1;
  }

  /** What a request leaves listed, and claimed. */
  lemma RequestedLists(g: Geometry, slots: seq<Slot>, start: int)
    requires g.Valid() && Contiguous(slots)
    ensures (forall i :: 0 <= i < |slots| ==> NotBeyondFile(g, slots[i].piece)) ==>
              forall piece :: Lists(Requested(g, slots, start), piece) <==>
                start <= piece < start + g.pieces && NotBeyondFile(g, piece)
    ensures forall piece, x :: Lists(Requested(g, slots, start), piece) ==>
              (Holds(Requested(g, slots, start), piece, x) <==> Holds(slots, piece, x))
  {
    var r := Requested(g, slots, start);
    RequestedIsWindow(g, slots, start);
    forall piece ensures Lists(Window(g, slots, start), piece) <==> start <= piece < start + g.pieces && NotBeyondFile(g, piece) {
      WindowLists(g, slots, start, piece);
    }
    forall piece, x | Lists(r, piece) ensures Holds(r, piece, x) <==> Holds(slots, piece, x) {
      HoldsIs(slots, piece, x);
      HoldsIs(r, piece, x);
    }
  }

  // ---------------------------------------------------------------- the object

  method Memcpy(dst: array<Byte>, at: int, src: array<Byte>, from: int, n: int)
    requires dst != src && 0 <= n && 0 <= at && at + n <= dst.Length && 0 <= from && from + n <= src.Length
    modifies dst
    ensures dst[..] == Blit(old(dst[..]), at, src[from..from + n])
  {
    for i := 0 to n
      invariant forall j :: at <= j < at + i ==> dst[j] == src[from + j - at]
      invariant forall j :: 0 <= j < dst.Length && !(at <= j < at + i) ==> dst[j] == old(dst[j])
    {
      dst[at + i] := src[from + i];
    }
    assert dst[at..at + n] == src[from..from + n];
  }

  class FlatPieceMemoryStorage {
    const geometry: Geometry
    const buffer: array<Byte>
    var absRPos: int
    var absWPos: int
    var updatingBuffer: bool
    var slotList: seq<Slot>
    ghost const content: Content
    ghost var log: seq<Delivery>

    ghost function View(): State
      reads this, buffer
    {
      State(buffer[..], absRPos, absWPos, updatingBuffer, slotList, Idle, Ready, log)
    }

    ghost predicate Valid()
      reads this, buffer
    {
      geometry.Valid() && Inv(geometry, content, View())
    }

    constructor (g: Geometry, ghost torrent: Content)
      requires g.Valid()
      ensures geometry == g && content == torrent && fresh(buffer) && buffer.Length == g.CacheSize()
      ensures absRPos == g.fOffset && absWPos == g.FirstPieceOffset()
      ensures !updatingBuffer && slotList == [] && log == []
    {
      geometry, content := g, torrent;
      buffer := new Byte[g.CacheSize()];
      absRPos, absWPos := g.fOffset, g.FirstPieceOffset();
      updatingBuffer, slotList, log := false, [], [];
    }

    /** Asks for the window from piece `start`: erases what lies before it, cuts what falls out of
        the ring, then prepends and appends empty slots. */
    method RequestSlots(start: int)
      requires geometry.Valid() && Contiguous(slotList)
      modifies this`slotList
      ensures slotList == Requested(geometry, old(slotList), start)
      ensures (forall i :: 0 <= i < |old(slotList)| ==> NotBeyondFile(geometry, old(slotList)[i].piece)) ==>
                slotList == Window(geometry, old(slotList), start)
                && (forall piece :: Lists(slotList, piece) <==>
                      start <= piece < start + geometry.pieces && NotBeyondFile(geometry, piece))
      ensures forall piece, x :: Lists(slotList, piece) ==> (Holds(slotList, piece, x) <==> Holds(old(slotList), piece, x))
    {
      ghost var given := slotList;
      RequestedIsWindow(geometry, given, start);
      RequestedLists(geometry, given, start);
      EraseBefore(start, given);
      CutToRing(start, given);
      var next := start;
      if |slotList| > 0 {
        PrependTo(start, given);
        next := slotList[|slotList| - 1].piece + 1;
      }
      AppendFrom(next, start, given);
      SelectionIsRequested(geometry, given, slotList, start);
    }

    /** The halving search of `std::lower_bound` over the slot list. */
    method LowerBoundSlot(piece: int) returns (itr: nat)
      requires Contiguous(slotList)
      ensures itr == LowerSlot(slotList, piece)
    {
      itr := 0;
      var n := |slotList|;
      while n > 0
        invariant 0 <= n && itr + n <= |slotList|
        invariant forall i :: 0 <= i < itr ==> slotList[i].piece < piece
        invariant forall i :: itr + n <= i < |slotList| ==> slotList[i].piece >= piece
      {
        var half := n / 2;
        if slotList[itr + half].piece < piece {
          itr := itr + half + 1;
          n := n - half - 1;
        } else {
          n := half;
        }
      }
      assert itr < |slotList| ==> slotList[itr].piece >= piece;
      assert !(LowerSlot(slotList, piece) < itr) && !(itr < LowerSlot(slotList, piece));
    }

    /** Stores a block: `len` bytes of `buf` at `offset` of piece `piece`, if the piece is in the
        window; a block outside the window is skipped. */
    method Write(buf: array<Byte>, len: int, offset: int, piece: int) returns (inRange: bool)
      requires Valid() && buf != buffer
      requires 0 < len <= buf.Length && 0 <= offset && offset + len <= geometry.pieceLen
      requires TrueBlock(geometry, content, buf[..len], offset, piece)
      modifies this`absWPos, this`updatingBuffer, this`slotList, buffer
      ensures Valid()
      ensures inRange <==> InReach(geometry, absRPos, piece)
      ensures inRange ==> AddsBytes(old(slotList), slotList, piece, offset, len)
      ensures inRange ==> View() == AfterWrite(geometry, old(View()), old(buf[..len]), offset, piece)
      ensures !inRange ==> View() == old(View())
    {
      ghost var s := View();
      WindowIsContiguous(geometry, content, s);
      FoundIffInReach(geometry, s, piece);
      var itr := LowerBoundSlot(piece);
      inRange := itr < |slotList| && slotList[itr].piece == piece;
      if inRange {
        AfterWriteOk(geometry, content, s, buf[..len], offset, piece);
        WriteFound(itr, buf, len, offset, piece);
      }
    }

    method WriteFound(itr: nat, buf: array<Byte>, len: int, offset: int, piece: int)
      requires geometry.Valid() && buffer.Length == geometry.CacheSize() && buf != buffer
      requires 0 < len <= buf.Length && 0 <= offset && offset + len <= geometry.pieceLen
      requires itr < |slotList| && itr == FindSlot(slotList, piece) && Sorted(slotList[itr].segments)
      modifies this`absWPos, this`updatingBuffer, this`slotList, buffer
      ensures View() == AfterWrite(geometry, old(View()), old(buf[..len]), offset, piece)
    {
      AfterWriteFields(geometry, View(), buf[..len], offset, piece);
      StoreBlock(itr, buf, len, offset, piece);
    }

    method StoreBlock(itr: nat, buf: array<Byte>, len: int, offset: int, piece: int)
      requires geometry.Valid() && buffer.Length == geometry.CacheSize() && buf != buffer
      requires 0 < len <= buf.Length && 0 <= offset && offset + len <= geometry.pieceLen
      requires itr < |slotList| && Sorted(slotList[itr].segments)
      requires 0 <= geometry.PosInCacheByPiece(piece) + offset
      requires geometry.PosInCacheByPiece(piece) + offset + len <= buffer.Length
      modifies this`absWPos, this`updatingBuffer, this`slotList, buffer
      ensures buffer[..] == Blit(old(buffer[..]), geometry.PosInCacheByPiece(piece) + offset, old(buf[..len]))
      ensures slotList == Credited(old(slotList), itr, Segment(offset, offset + len))
      ensures absWPos == Advance(geometry, slotList, itr, old(absWPos)) && !updatingBuffer
    {
      updatingBuffer := true;
      var dataPos := geometry.PosInCacheByPiece(piece) + offset;
      BlockFits(geometry, offset, len, piece);
      Memcpy(buffer, dataPos, buf, 0, len);
      assert buf[0..0 + len] == buf[..len];
      CommitBlock(itr, offset, len);
      updatingBuffer := false;
    }

    /** The second locked section of a write: credits the slot and moves the write position. */
    method CommitBlock(itr: nat, offset: int, len: int)
      requires geometry.Valid() && itr < |slotList| && len > 0 && Sorted(slotList[itr].segments)
      modifies this`slotList, this`absWPos
      ensures slotList == Credited(old(slotList), itr, Segment(offset, offset + len))
      ensures absWPos == Advance(geometry, slotList, itr, old(absWPos))
    {
      var range := new Range(slotList[itr].segments);
      range.AddSegment(Segment(offset, offset + len));
      slotList := slotList[itr := Slot(slotList[itr].piece, range.segments)];
      var k := itr;
      var full := true;
      while k < |slotList| && full
        invariant itr <= k <= |slotList| && slotList == Credited(old(slotList), itr, Segment(offset, offset + len))
        invariant Advance(geometry, slotList, itr, old(absWPos))
                  == if full then Advance(geometry, slotList, k, absWPos) else absWPos
        decreases |slotList| - k, full
      {
        var slot := slotList[k];
        var available := BytesAvailable(slot.segments);
        if geometry.PieceOf(absWPos) == slot.piece {
          absWPos := Max(geometry.PieceAbsPos(slot.piece) + available, absWPos);
        }
        if available < geometry.pieceLen {
          full := false;
        } else {
          k := k + 1;
        }
      }
    }

    /** Copies up to `len` bytes from the read position to `buf`. Without a byte to read the source waits
        for one; here the call then ends with `waits` and has done nothing. */
    method Read(buf: array<Byte>, len: int) returns (waits: bool, n: int)
      requires Valid() && buf != buffer && 0 < len <= buf.Length
      modifies this`absRPos, this`slotList, this`log, buf
      ensures Valid()
      ensures waits <==> old(absRPos) >= absWPos
      ensures waits ==> View() == old(View()) && buf[..] == old(buf[..])
      ensures !waits ==> n == Min(len, absWPos - old(absRPos))
      ensures !waits ==> forall k :: 0 <= k < n ==> buf[k] == content(old(absRPos) + k)
      ensures !waits ==> forall k :: n <= k < buf.Length ==> buf[k] == old(buf[k])
      ensures !waits ==> KeepsInReach(geometry, old(slotList), slotList, absRPos)
      ensures !waits ==> View() == AfterRead(geometry, old(View()), len)
    {
      waits, n := absRPos >= absWPos, 0;
      if !waits {
        ghost var s := View();
        WindowIsContiguous(geometry, content, s);
        AfterReadOk(geometry, content, s, len);
        n := Deliver(buf, len);
        AfterReadDelivers(geometry, content, s, len);
      }
    }

    method Deliver(buf: array<Byte>, len: int) returns (n: int)
      requires geometry.Valid() && buffer.Length == geometry.CacheSize() && buf != buffer && 0 < len <= buf.Length
      requires Contiguous(slotList)
      requires forall i :: 0 <= i < |slotList| ==> NotBeyondFile(geometry, slotList[i].piece)
      modifies this`absRPos, this`slotList, this`log, buf
      ensures View() == AfterRead(geometry, old(View()), len)
      ensures absRPos == old(absRPos) + n && 0 < n <= len
      ensures buf[..n] == log[|log| - 1].bytes
      ensures forall k :: n <= k < buf.Length ==> buf[k] == old(buf[k])
    {
      ghost var s := View();
      var localR := geometry.PosInCacheByAbsPos(absRPos);
      var localW := geometry.PosInCacheByAbsPos(absWPos);
      n := CopyOut(buf, len, localR, localW);
      absRPos := absRPos + n;
      RequestSlots(geometry.PieceOf(absRPos));
      log := log + [Delivery(s.absRPos, Copied(geometry, s, localR, localW, len, n))];
    }

    /** The three copy paths. */
    method CopyOut(buf: array<Byte>, len: int, localR: int, localW: int) returns (n: int)
      requires geometry.Valid() && buf != buffer && buffer.Length == geometry.CacheSize()
      requires 0 < len <= buf.Length && 0 <= localR < geometry.CacheSize() && 0 <= localW < geometry.CacheSize()
      modifies buf
      ensures n == CopyCount(geometry, localR, localW, len) && 0 < n <= len
      ensures forall k :: 0 <= k < n ==> buf[k] == Peek(buffer[..], CopyCell(geometry, localR, localW, len, k))
      ensures forall k :: n <= k < buf.Length ==> buf[k] == old(buf[k])
    {
      if localW - localR > 0 || geometry.CacheSize() - localR > len {
        n := Min(len, if localW - localR > 0 then localW - localR else geometry.CacheSize() - localR);
        Memcpy(buf, 0, buffer, localR, n);
      } else {
        var tailBytes := geometry.CacheSize() - localR;
        if tailBytes > 0 {
          Memcpy(buf, 0, buffer, localR, tailBytes);
        }
        n := Min(len - tailBytes, localW);
        if n > 0 {
          Memcpy(buf, tailBytes, buffer, 0, n);
        }
        n := n + tailBytes;
      }
    }

    /** Moves the read position; the write position follows when it leaves its piece. */
    method Seek(pos: int)
      requires Valid() && pos >= 0
      modifies this`absRPos, this`absWPos, this`slotList
      ensures Valid()
      ensures absRPos == geometry.fOffset + pos && KeepsInReach(geometry, old(slotList), slotList, absRPos)
      ensures View() == SeekTo(geometry, old(View()), pos)
    {
      WindowIsContiguous(geometry, content, View());
      SeekOk(geometry, content, ByPiece, View(), Step.Seek(pos));
      MovedKeepsInReach(geometry, View(), SeekTo(geometry, View(), pos));
      var newAbsPos := pos + geometry.fOffset;
      absRPos := newAbsPos;
      var newPieceIndex := geometry.PieceOf(newAbsPos);
      absWPos := if geometry.PieceOf(absWPos) == newPieceIndex then absWPos else geometry.PieceAbsPos(newPieceIndex);
      RequestSlots(newPieceIndex);
    }

    /** Keeps the slots that are not below `start`. */
    method EraseBefore(start: int, ghost given: seq<Slot>)
      requires geometry.Valid() && Contiguous(slotList) && slotList == given
      modifies this`slotList
      ensures Selection(geometry, given, slotList, start)
      ensures |slotList| > 0 ==> start <= slotList[0].piece && slotList[0].piece + |slotList| == EndPiece(given)
      ensures |slotList| > 0 <==> |given| > 0 && start < EndPiece(given)
      ensures |slotList| > 0 ==> slotList[0].piece == Max(given[0].piece, start)
    {
      var kept, i := [], 0;
      while i < |slotList|
        invariant 0 <= i <= |slotList|
        invariant |kept| <= i && kept == given[i - |kept|..i]
        invariant forall j :: 0 <= j < i - |kept| ==> given[j].piece < start
        invariant |kept| > 0 ==> start <= kept[0].piece
        invariant |kept| == 0 ==> forall j :: 0 <= j < i ==> given[j].piece < start
      {
        if !(slotList[i].piece < start) {
          kept := kept + [slotList[i]];
        }
        i := i + 1;
      }
      assert i == |given| && kept == given[|given| - |kept|..];
      SuffixIsSelection(geometry, given, kept, start);
      ghost var o := |given| - |kept|;
      assert |kept| > 0 ==> kept[0] == given[o];
      assert o > 0 ==> given[o - 1].piece < start && given[o - 1].piece == given[0].piece + o - 1;
      slotList := kept;
    }

    /** Clears the list, or drops its last slots, when it reaches beyond the ring from `start`. */
    method CutToRing(start: int, ghost given: seq<Slot>)
      requires geometry.Valid() && Selection(geometry, given, slotList, start)
      requires |slotList| > 0 ==> start <= slotList[0].piece && slotList[0].piece + |slotList| == EndPiece(given)
      requires |slotList| > 0 <==> |given| > 0 && start < EndPiece(given)
      requires |slotList| > 0 ==> slotList[0].piece == Max(given[0].piece, start)
      modifies this`slotList
      ensures Selection(geometry, given, slotList, start)
      ensures |slotList| > 0 ==> start <= slotList[0].piece && slotList[0].piece - start + |slotList| <= geometry.pieces
      ensures if |slotList| > 0 then slotList[0].piece + |slotList| == KeptEnd(geometry, given, start)
              else KeptEnd(geometry, given, start) == start
    {
      if |slotList| > 0 {
        var gap := slotList[0].piece - start;
        if gap >= geometry.pieces {
          slotList := [];
        } else {
          while gap + |slotList| > geometry.pieces
            invariant |slotList| > 0 && slotList[0].piece == start + gap
            invariant Min(EndPiece(given), start + geometry.pieces) <= start + gap + |slotList| <= EndPiece(given)
            invariant Selection(geometry, given, slotList, start)
          {
            slotList := slotList[..|slotList| - 1];
          }
        }
      }
    }

    method PrependTo(start: int, ghost given: seq<Slot>)
      requires geometry.Valid() && Selection(geometry, given, slotList, start) && |slotList| > 0
      requires start <= slotList[0].piece && slotList[0].piece - start + |slotList| <= geometry.pieces
      modifies this`slotList
      ensures Selection(geometry, given, slotList, start)
      ensures 0 < |slotList| <= geometry.pieces && slotList[0].piece == start
      ensures start + |slotList| == old(slotList[0].piece + |slotList|)
    {
      var slotIndex := slotList[0].piece;
      while slotIndex != start
        invariant start <= slotIndex && |slotList| > 0 && slotList[0].piece == slotIndex
        invariant slotIndex - start + |slotList| <= geometry.pieces
        invariant slotIndex + |slotList| == old(slotList[0].piece + |slotList|)
        invariant Selection(geometry, given, slotList, start)
        decreases slotIndex - start
      {
        Prepended(geometry, given, slotList, start);
        slotIndex := slotIndex - 1;
        slotList := [Slot(slotIndex, [])] + slotList;
      }
    }

    method AppendFrom(from: int, start: int, ghost given: seq<Slot>)
      requires geometry.Valid() && Selection(geometry, given, slotList, start)
      requires from == start + |slotList| && |slotList| <= geometry.pieces
      requires |slotList| > 0 ==> slotList[0].piece == start
      modifies this`slotList
      ensures Selection(geometry, given, slotList, start)
      ensures |slotList| > 0 ==> slotList[0].piece == start
      ensures |slotList| == Max(old(|slotList|), WindowLength(geometry, start))
    {
      var next := from;
      while |slotList| < geometry.pieces && next <= geometry.LastPiece()
        invariant next == start + |slotList| && |slotList| <= geometry.pieces
        invariant |slotList| == old(|slotList|) || |slotList| <= WindowLength(geometry, start)
        invariant |slotList| > 0 ==> slotList[0].piece == start
        invariant Selection(geometry, given, slotList, start)
        decreases geometry.pieces - |slotList|
      {
        Appended(geometry, given, slotList, start);
        slotList := slotList + [Slot(next, [])];
        next := next + 1;
      }
    }
  }

  /** A cache is used after one request for the slots of the file's first piece. */
  method OpenStorage(g: Geometry, ghost torrent: Content) returns (s: FlatPieceMemoryStorage)
    requires g.Valid()
    ensures fresh(s) && fresh(s.buffer) && s.geometry == g && s.content == torrent
    ensures s.Valid() && s.View() == Start(g, s.buffer[..])
  {
    s := new FlatPieceMemoryStorage(g, torrent);
    s.RequestSlots(g.FirstPiece());
    StartOk(g, torrent, s.buffer[..]);
  }

  /** `part` is contiguous, holds for each of its pieces what `given` holds, and misses nothing that
      `given` holds in the ring's reach from `start`. */
  ghost predicate Selection(g: Geometry, given: seq<Slot>, part: seq<Slot>, start: int)
    requires g.Valid()
  {
    && Contiguous(part)
    && (forall i :: 0 <= i < |part| ==> part[i].segments == RangeOf(given, part[i].piece))
    && (forall piece :: start <= piece < start + g.pieces && RangeOf(given, piece) != [] ==>
          |part| > 0 && part[0].piece <= piece < part[0].piece + |part|)
  }

  lemma SuffixIsSelection(g: Geometry, given: seq<Slot>, part: seq<Slot>, start: int)
    requires g.Valid() && Contiguous(given) && |part| <= |given| && part == given[|given| - |part|..]
    requires forall i :: 0 <= i < |given| - |part| ==> given[i].piece < start
    ensures Selection(g, given, part, start)
  {
    var o := |given| - |part|;
    assert |given| > 0 ==> given[0].piece == given[0].piece;
    forall i | 0 <= i < |part|
      ensures part[i].piece == given[0].piece + o + i && part[i].segments == RangeOf(given, part[i].piece)
    {
      assert part[i] == given[o + i];
    }
    forall piece | start <= piece && RangeOf(given, piece) != []
      ensures |part| > 0 && given[0].piece + o <= piece < given[0].piece + |given|
    {
      var j := piece - given[0].piece;
      assert given[j].piece == piece;
    }
  }

  lemma Prepended(g: Geometry, given: seq<Slot>, part: seq<Slot>, start: int)
    requires g.Valid() && Selection(g, given, part, start) && |part| > 0
    requires start < part[0].piece < start + g.pieces
    ensures Selection(g, given, [Slot(part[0].piece - 1, [])] + part, start)
  {
    var r := [Slot(part[0].piece - 1, [])] + part;
    assert forall i :: 0 < i < |r| ==> r[i] == part[i - 1];
  }

  lemma Appended(g: Geometry, given: seq<Slot>, part: seq<Slot>, start: int)
    requires g.Valid() && Selection(g, given, part, start)
    requires |part| > 0 ==> part[0].piece == start
    requires |part| < g.pieces
    ensures Selection(g, given, part + [Slot(start + |part|, [])], start)
  {
    var r := part + [Slot(start + |part|, [])];
    assert forall i :: 0 <= i < |part| ==> r[i] == part[i];
    assert RangeOf(given, start + |part|) == [];
  }

  lemma SelectionIsRequested(g: Geometry, given: seq<Slot>, part: seq<Slot>, start: int)
    requires g.Valid() && Selection(g, given, part, start)
    requires |part| > 0 ==> part[0].piece == start
    requires |part| == RequestedLength(g, given, start)
    ensures part == Requested(g, given, start)
  {
    forall i | 0 <= i < |part| ensures part[i] == Requested(g, given, start)[i] {
      assert part[i] == Slot(start + i, RangeOf(given, start + i));
    }
  }
}
