/** The sliding window of piece slots and the write position that climbs over it. */
module Slots {
  import opened Arithmetic
  import opened Ranges
  import opened Overlaps
  import opened Ring

  datatype Slot = Slot(piece: int, segments: seq<Segment>)

  /** The slots hold consecutive pieces (checkSlotsInvariant). */
  ghost predicate Contiguous(slots: seq<Slot>) {
    forall i :: 0 <= i < |slots| ==> slots[i].piece == slots[0].piece + i
  }

  /** The intervals held for a piece; none when the piece has no slot. */
  function RangeOf(slots: seq<Slot>, piece: int): seq<Segment> {
    if |slots| > 0 && 0 <= piece - slots[0].piece < |slots|
    then slots[piece - slots[0].piece].segments
    else []
  }

  function WindowLength(g: Geometry, start: int): (n: int)
    requires g.Valid()
    ensures 0 <= n <= g.pieces
  {
    if start > g.LastPiece() then 0
    else if g.LastPiece() - start + 1 < g.pieces then g.LastPiece() - start + 1
    else g.pieces
  }

  /** The window that must be held when reading is in piece `start`: every slot that survives
      keeps its intervals, every other slot is empty. */
  function Window(g: Geometry, slots: seq<Slot>, start: int): (w: seq<Slot>)
    requires g.Valid()
    ensures |w| == WindowLength(g, start)
    ensures Contiguous(w)
    ensures |w| > 0 ==> w[0].piece == start
  {
    seq(WindowLength(g, start), i => Slot(start + i, RangeOf(slots, start + i)))
  }

  /** The list has a slot for the piece. */
  ghost predicate Lists(slots: seq<Slot>, piece: int) {
    exists i :: 0 <= i < |slots| && slots[i].piece == piece
  }

  /** A slot of the piece claims its byte `x`. */
  ghost predicate Holds(slots: seq<Slot>, piece: int, x: int) {
    exists i :: 0 <= i < |slots| && slots[i].piece == piece && Covers(slots[i].segments, x)
  }

  /** Some byte of the file lies in the piece, or the piece lies before the file. */
  predicate NotBeyondFile(g: Geometry, piece: int) {
    piece * g.pieceLen <= g.fOffset + g.fSize - 1
  }

  /** The read position lies in the piece, or in one of the ring's length before it; and the piece is not
      beyond the file. */
  predicate InReach(g: Geometry, absRPos: int, piece: int) {
    && (piece - g.pieces + 1) * g.pieceLen <= absRPos < (piece + 1) * g.pieceLen
    && NotBeyondFile(g, piece)
  }

  lemma LastPieceIs(g: Geometry, piece: int)
    requires g.Valid()
    ensures piece <= g.LastPiece() <==> NotBeyondFile(g, piece)
  {
    DivAtLeast(g.fOffset + g.fSize - 1, g.pieceLen, piece);
  }

  /** Which pieces a window lists, in bytes. */
  lemma WindowLists(g: Geometry, slots: seq<Slot>, start: int, piece: int)
    requires g.Valid()
    ensures Lists(Window(g, slots, start), piece) <==> start <= piece < start + g.pieces && NotBeyondFile(g, piece)
  {
    var w := Window(g, slots, start);
    LastPieceIs(g, piece);
    if start <= piece < start + |w| {
      assert w[piece - start].piece == piece;
    }
  }

  lemma ReachIs(g: Geometry, absRPos: int, piece: int)
    requires g.Valid()
    ensures InReach(g, absRPos, piece) <==>
              g.PieceOf(absRPos) <= piece < g.PieceOf(absRPos) + g.pieces && NotBeyondFile(g, piece)
  {
    PieceOfBound(g, absRPos, piece + 1);
    PieceOfBound(g, absRPos, piece - g.pieces + 1);
  }

  /** A contiguous list claims what `RangeOf` finds. */
  lemma HoldsIs(slots: seq<Slot>, piece: int, x: int)
    requires Contiguous(slots)
    ensures Holds(slots, piece, x) <==> Covers(RangeOf(slots, piece), x)
  {
    if Covers(RangeOf(slots, piece), x) {
      assert slots[piece - slots[0].piece].piece == piece;
    }
  }

  /** Moving the window keeps every claim of the pieces in the new window, and makes none. */
  lemma WindowHolds(g: Geometry, slots: seq<Slot>, start: int, piece: int, x: int)
    requires g.Valid() && Contiguous(slots)
    ensures Holds(Window(g, slots, start), piece, x) <==>
              Holds(slots, piece, x) && start <= piece < start + g.pieces && NotBeyondFile(g, piece)
  {
    HoldsIs(Window(g, slots, start), piece, x);
    HoldsIs(slots, piece, x);
    WindowKeeps(g, slots, start, piece);
    LastPieceIs(g, piece);
  }

  /** Moving the window keeps a piece's intervals exactly when the new window holds the piece. */
  lemma WindowKeeps(g: Geometry, slots: seq<Slot>, start: int, piece: int)
    requires g.Valid()
    ensures RangeOf(Window(g, slots, start), piece)
            == if start <= piece < start + WindowLength(g, start) then RangeOf(slots, piece) else []
  {
  }

  /** Asking for the same window again changes nothing. */
  lemma WindowIsIdempotent(g: Geometry, slots: seq<Slot>, start: int)
    requires g.Valid()
    ensures Window(g, Window(g, slots, start), start) == Window(g, slots, start)
  {
    forall i | 0 <= i < WindowLength(g, start)
      ensures Window(g, Window(g, slots, start), start)[i] == Window(g, slots, start)[i]
    {
      WindowKeeps(g, slots, start, start + i);
    }
  }

  /** Going from one window to another and back loses exactly the pieces outside the other. */
  lemma WindowThereAndBack(g: Geometry, slots: seq<Slot>, from: int, to: int, piece: int)
    requires g.Valid()
    ensures RangeOf(Window(g, Window(g, Window(g, slots, from), to), from), piece)
            == if from <= piece < from + WindowLength(g, from) && to <= piece < to + WindowLength(g, to)
               then RangeOf(slots, piece) else []
  {
    WindowKeeps(g, slots, from, piece);
    WindowKeeps(g, Window(g, slots, from), to, piece);
    WindowKeeps(g, Window(g, Window(g, slots, from), to), from, piece);
  }

  // ---------------------------------------------------------------- the write position

  /** The write position after the commit loop, entered at slot `k`. */
  function Advance(g: Geometry, slots: seq<Slot>, k: nat, absWPos: int): int
    requires g.Valid()
    decreases |slots| - k
  {
    if k >= |slots| then absWPos
    else
      var reached := g.PieceAbsPos(slots[k].piece) + BytesAvailable(slots[k].segments);
      var pos := if g.PieceOf(absWPos) == slots[k].piece && reached > absWPos then reached else absWPos;
      if BytesAvailable(slots[k].segments) < g.pieceLen then pos
      else Advance(g, slots, k + 1, pos)
  }

  ghost predicate SlotsInBounds(g: Geometry, slots: seq<Slot>) {
    forall i :: 0 <= i < |slots| ==>
      Sorted(slots[i].segments) && Proper(slots[i].segments) && Within(slots[i].segments, 0, g.pieceLen)
  }

  ghost predicate SlotsCanonical(slots: seq<Slot>) {
    forall i :: 0 <= i < |slots| ==> Canonical(slots[i].segments)
  }

  /** Every slot counts its first received run exactly, and will as long as additions are harmless. */
  ghost predicate SlotsSettled(g: Geometry, slots: seq<Slot>) {
    forall i :: 0 <= i < |slots| ==> Settled(slots[i].segments, g.pieceLen)
  }

  /** The slots from piece `from` on do. */
  ghost predicate SettledFrom(g: Geometry, slots: seq<Slot>, from: int) {
    forall i :: 0 <= i < |slots| && slots[i].piece >= from ==> Settled(slots[i].segments, g.pieceLen)
  }

  /** Every byte of the slots before torrent position `pos` has been received. */
  ghost predicate CoveredTo(g: Geometry, slots: seq<Slot>, pos: int) {
    forall i, x :: 0 <= i < |slots| && 0 <= x < g.pieceLen && g.PieceAbsPos(slots[i].piece) + x < pos
      ==> Covers(slots[i].segments, x)
  }

  /** The byte at torrent position `pos`, if a slot holds its piece, has not been received. */
  ghost predicate MissingAt(g: Geometry, slots: seq<Slot>, pos: int) {
    forall i, x :: 0 <= i < |slots| && 0 <= x < g.pieceLen && g.PieceAbsPos(slots[i].piece) + x == pos
      ==> !Covers(slots[i].segments, x)
  }

  lemma AvailableInBounds(s: seq<Segment>, len: int)
    requires Proper(s) && Within(s, 0, len) && len >= 0
    ensures 0 <= BytesAvailable(s) <= len
  {
  }

  /** The first torrent position after the window. */
  function EndOf(g: Geometry, slots: seq<Slot>): int
    requires |slots| > 0
  {
    g.PieceAbsPos(slots[0].piece + |slots|)
  }

  /** One round of the loop never claims a byte that was not received. */
  lemma RaiseIsSafe(g: Geometry, slots: seq<Slot>, k: nat, absWPos: int)
    requires g.Valid() && Contiguous(slots) && SlotsInBounds(g, slots)
    requires k < |slots| && g.PieceOf(absWPos) == slots[k].piece && CoveredTo(g, slots, absWPos)
    ensures CoveredTo(g, slots, g.PieceAbsPos(slots[k].piece) + BytesAvailable(slots[k].segments))
    ensures g.PieceAbsPos(slots[k].piece) + BytesAvailable(slots[k].segments) <= EndOf(g, slots)
  {
    var base, n := g.PieceAbsPos(slots[k].piece), BytesAvailable(slots[k].segments);
    AvailableInBounds(slots[k].segments, g.pieceLen);
    PieceOrder(g, slots[k].piece, slots[0].piece + |slots|);
    forall i, x | 0 <= i < |slots| && 0 <= x < g.pieceLen && g.PieceAbsPos(slots[i].piece) + x < base + n
      ensures Covers(slots[i].segments, x)
    {
      if i < k {
        PieceOrder(g, slots[i].piece, slots[k].piece);
        PieceOfBound(g, absWPos, slots[k].piece);
      } else if i == k {
        AvailableIsCovered(slots[k].segments, x);
      } else {
        PieceOrder(g, slots[k].piece, slots[i].piece);
      }
    }
  }

  /** The commit loop only moves forward, stays in the window, and passes received bytes only. */
  lemma {:induction false} AdvanceIsSafe(g: Geometry, slots: seq<Slot>, k: nat, absWPos: int)
    requires g.Valid() && |slots| > 0 && Contiguous(slots) && SlotsInBounds(g, slots)
    requires CoveredTo(g, slots, absWPos) && absWPos <= EndOf(g, slots)
    ensures absWPos <= Advance(g, slots, k, absWPos) <= EndOf(g, slots)
    ensures CoveredTo(g, slots, Advance(g, slots, k, absWPos))
    decreases |slots| - k
  {
    if k < |slots| {
      var reached := g.PieceAbsPos(slots[k].piece) + BytesAvailable(slots[k].segments);
      var raise := g.PieceOf(absWPos) == slots[k].piece && reached > absWPos;
      if raise {
        RaiseIsSafe(g, slots, k, absWPos);
      }
      AdvanceIsSafe(g, slots, k + 1, if raise then reached else absWPos);
    }
  }

  /** With a settled slot, a write position inside a slot's piece is at most what the slot holds. */
  lemma ReachedIsGreatest(g: Geometry, slots: seq<Slot>, k: nat, absWPos: int)
    requires g.Valid() && Contiguous(slots) && SlotsInBounds(g, slots)
    requires k < |slots| && g.PieceOf(absWPos) == slots[k].piece && CoveredTo(g, slots, absWPos)
    requires Settled(slots[k].segments, g.pieceLen)
    ensures absWPos <= g.PieceAbsPos(slots[k].piece) + BytesAvailable(slots[k].segments)
    ensures BytesAvailable(slots[k].segments) < g.pieceLen ==>
              MissingAt(g, slots, g.PieceAbsPos(slots[k].piece) + BytesAvailable(slots[k].segments))
  {
    var piece, s := slots[k].piece, slots[k].segments;
    var base, n := g.PieceAbsPos(piece), BytesAvailable(s);
    SettledIsExact(s, g.pieceLen);
    PieceOfBound(g, absWPos, piece);
    PieceOfBound(g, absWPos, piece + 1);
    PieceOrder(g, piece, piece + 1);
    Distribute(piece, 1, g.pieceLen);
    assert forall x :: 0 <= x < absWPos - base ==> Covers(slots[k].segments, x);
    ExactIsGreatest(s, absWPos - base);
    if n < g.pieceLen {
      forall i, x | 0 <= i < |slots| && 0 <= x < g.pieceLen && g.PieceAbsPos(slots[i].piece) + x == base + n
        ensures !Covers(slots[i].segments, x)
      {
        PieceOfByte(g, slots[i].piece, x);
        PieceOfByte(g, piece, n);
      }
    }
  }

  lemma NothingAtEnd(g: Geometry, slots: seq<Slot>, k: nat)
    requires g.Valid() && Contiguous(slots) && k + 1 == |slots|
    ensures MissingAt(g, slots, g.PieceAbsPos(slots[k].piece + 1))
  {
    forall i | 0 <= i < |slots|
      ensures g.PieceAbsPos(slots[i].piece) + g.pieceLen <= g.PieceAbsPos(slots[k].piece + 1)
    {
      PieceOrder(g, slots[i].piece, slots[k].piece + 1);
    }
  }

  /** With settled slots from the write position's piece on, the commit loop stops exactly at the first
      missing byte, provided the byte at the old write position was missing or lies in the slot just
      written. */
  lemma {:induction false} AdvanceIsExact(g: Geometry, slots: seq<Slot>, k: nat, absWPos: int)
    requires g.Valid() && Contiguous(slots) && SlotsInBounds(g, slots)
    requires SettledFrom(g, slots, g.PieceOf(absWPos))
    requires |slots| > 0 && CoveredTo(g, slots, absWPos) && absWPos <= EndOf(g, slots)
    requires MissingAt(g, slots, absWPos) || (k < |slots| && g.PieceOf(absWPos) == slots[k].piece)
    ensures MissingAt(g, slots, Advance(g, slots, k, absWPos))
    decreases |slots| - k
  {
    if k < |slots| {
      var piece, n := slots[k].piece, BytesAvailable(slots[k].segments);
      AvailableInBounds(slots[k].segments, g.pieceLen);
      if g.PieceOf(absWPos) == piece {
        ReachedIsGreatest(g, slots, k, absWPos);
        RaiseIsSafe(g, slots, k, absWPos);
        if n == g.pieceLen {
          Distribute(piece, 1, g.pieceLen);
          assert g.PieceAbsPos(piece) + n == g.PieceAbsPos(piece + 1);
          PieceOfByte(g, piece + 1, 0);
          if k + 1 == |slots| {
            NothingAtEnd(g, slots, k);
          }
          AdvanceIsExact(g, slots, k + 1, g.PieceAbsPos(piece + 1));
        }
      } else if n == g.pieceLen {
        AdvanceIsExact(g, slots, k + 1, absWPos);
      }
    }
  }

  /** Exactly where the commit loop leaves the write position, for any lists: entered at slot `k`, with `j` the
      first slot from there whose count is short of its piece, it climbs to what slot `j` counts, or to the
      end of the window, if the write position's piece is between the two, and stays otherwise. */
  lemma {:induction false} AdvanceClimbs(g: Geometry, slots: seq<Slot>, k: nat, absWPos: int, j: nat)
    requires g.Valid() && Contiguous(slots) && SlotsInBounds(g, slots) && |slots| > 0 && k <= j <= |slots|
    requires forall i :: k <= i < j ==> BytesAvailable(slots[i].segments) == g.pieceLen
    requires j < |slots| ==> BytesAvailable(slots[j].segments) < g.pieceLen
    ensures var a := g.PieceOf(absWPos) - slots[0].piece;
            Advance(g, slots, k, absWPos) ==
              if !(k <= a <= j) || a == |slots| then absWPos
              else if j == |slots| then EndOf(g, slots)
              else var reached := g.PieceAbsPos(slots[j].piece) + BytesAvailable(slots[j].segments);
                   if reached > absWPos then reached else absWPos
    decreases j - k
  {
    if k < |slots| {
      var piece, a := slots[k].piece, g.PieceOf(absWPos) - slots[0].piece;
      AvailableInBounds(slots[k].segments, g.pieceLen);
      PieceOfBound(g, absWPos, piece + 1);
      PieceOrder(g, piece, piece + 1);
      if k < j {
        Distribute(piece, 1, g.pieceLen);
        var next := g.PieceAbsPos(piece + 1);
        if a == k {
          PieceOfByte(g, piece + 1, 0);
          AdvanceClimbs(g, slots, k + 1, next, j);
          if j < |slots| && k + 1 < j {
            AvailableInBounds(slots[j].segments, g.pieceLen);
            PieceOrder(g, piece + 1, slots[j].piece);
          }
          if j < |slots| {
            AvailableInBounds(slots[j].segments, g.pieceLen);
          }
        } else {
          AdvanceClimbs(g, slots, k + 1, absWPos, j);
        }
      }
    }
  }

  /** The loop never passes a slot whose count stays below the end of its piece. */
  lemma {:induction false} AdvanceStops(g: Geometry, slots: seq<Slot>, k: nat, absWPos: int, j: nat, c: int)
    requires g.Valid() && Contiguous(slots) && SlotsInBounds(g, slots)
    requires j < |slots| && BytesAvailable(slots[j].segments) <= c < g.pieceLen
    requires c >= 0 && absWPos <= g.PieceAbsPos(slots[j].piece) + c
    ensures Advance(g, slots, k, absWPos) <= g.PieceAbsPos(slots[j].piece) + c
    decreases |slots| - k
  {
    if k < |slots| {
      var piece, n := slots[k].piece, BytesAvailable(slots[k].segments);
      var reached := g.PieceAbsPos(piece) + n;
      AvailableInBounds(slots[k].segments, g.pieceLen);
      if k < j {
        PieceOrder(g, piece, slots[j].piece);
        AdvanceStops(g, slots, k + 1, if g.PieceOf(absWPos) == piece && reached > absWPos then reached else absWPos, j, c);
      } else if k > j {
        PieceOrder(g, slots[j].piece, piece);
        PieceOfBound(g, absWPos, piece);
        AdvanceStops(g, slots, k + 1, absWPos, j, c);
      }
    }
  }

  /** When the write position lies before slot `k`, a commit there leaves it alone. */
  lemma {:induction false} AdvanceAheadIsIdle(g: Geometry, slots: seq<Slot>, k: nat, absWPos: int)
    requires g.Valid() && Contiguous(slots) && |slots| > 0
    requires k < |slots| ==> g.PieceOf(absWPos) < slots[k].piece
    ensures Advance(g, slots, k, absWPos) == absWPos
    decreases |slots| - k
  {
    if k < |slots| {
      AdvanceAheadIsIdle(g, slots, k + 1, absWPos);
    }
  }
}
