/** What the slots claim, against the blocks that were stored. */
module History {
  import opened Arithmetic
  import opened Ranges
  import opened Ring
  import opened Slots
  import opened Protocol
  import opened Runs

  /** The step ends the storing of a block with byte `x` of the piece. */
  ghost predicate Stores(s: State, step: Step, piece: int, x: int) {
    && step.WriteCommit? && s.writer.Filling? && s.writer.piece == piece
    && s.writer.offset <= x < s.writer.offset + |s.writer.block|
  }

  lemma HeldMeansReach(g: Geometry, s: State, piece: int, x: int)
    requires g.Valid() && WindowOk(g, s) && Holds(s.slots, piece, x)
    ensures InReach(g, s.absRPos, piece)
  {
    var i :| 0 <= i < |s.slots| && s.slots[i].piece == piece && Covers(s.slots[i].segments, x);
    assert Lists(s.slots, piece);
    ListsReach(g, s, piece);
  }

  lemma MovedHolds(g: Geometry, s: State, t: State, piece: int, x: int)
    requires g.Valid() && WindowOk(g, s) && t.slots == Window(g, s.slots, g.PieceOf(t.absRPos))
    ensures Holds(t.slots, piece, x) <==> Holds(s.slots, piece, x) && InReach(g, t.absRPos, piece)
  {
    assert |s.slots| > 0 ==> s.slots[0].piece == g.PieceOf(s.absRPos);
    WindowHolds(g, s.slots, g.PieceOf(t.absRPos), piece, x);
    ReachIs(g, t.absRPos, piece);
  }

  /** A read's commit keeps what was received for every piece that stays in reach, ahead of the write position
      and behind it, and claims nothing new. */
  lemma ReadKeepsReceived(g: Geometry, content: Content, mode: Lookup, s: State, piece: int, x: int)
    requires g.Valid() && Inv(g, content, s) && Enabled(g, content, mode, s, ReadCommit)
    ensures var t := Apply(g, mode, s, ReadCommit);
            Holds(t.slots, piece, x) <==> Holds(s.slots, piece, x) && InReach(g, t.absRPos, piece)
  {
    MovedHolds(g, s, Apply(g, mode, s, ReadCommit), piece, x);
  }

  /** So does a seek. */
  lemma SeekKeepsReceived(g: Geometry, content: Content, s: State, pos: int, piece: int, x: int)
    requires g.Valid() && Inv(g, content, s) && pos >= 0
    ensures Holds(SeekTo(g, s, pos).slots, piece, x) <==> Holds(s.slots, piece, x) && InReach(g, pos + g.fOffset, piece)
  {
    MovedHolds(g, s, SeekTo(g, s, pos), piece, x);
  }

  /** A commit claims the block's bytes for its piece, if that is listed, and nothing else. */
  lemma CommitAddsBlock(g: Geometry, content: Content, mode: Lookup, s: State, piece: int, x: int)
    requires g.Valid() && Inv(g, content, s) && Enabled(g, content, mode, s, WriteCommit) && CreditsOwnPiece(mode, s)
    ensures Holds(Apply(g, mode, s, WriteCommit).slots, piece, x) <==>
              Holds(s.slots, piece, x) || (InReach(g, s.absRPos, piece) && Stores(s, WriteCommit, piece, x))
  {
    var k, t := CommitSlot(mode, s), Apply(g, mode, s, WriteCommit);
    ListsReach(g, s, piece);
    if k < |s.slots| {
      forall i | 0 <= i < |s.slots|
        ensures t.slots[i].piece == s.slots[i].piece
        ensures Covers(t.slots[i].segments, x) <==>
                  Covers(s.slots[i].segments, x) || (i == k && s.writer.offset <= x < s.writer.offset + |s.writer.block|)
      {
        CreditCovers(g, s.slots, k, BlockSegment(s.writer), i, x);
      }
      if Holds(s.slots, piece, x) {
        var i :| 0 <= i < |s.slots| && s.slots[i].piece == piece && Covers(s.slots[i].segments, x);
        assert Covers(t.slots[i].segments, x);
      }
      if Stores(s, WriteCommit, piece, x) {
        assert t.slots[k].piece == piece && Covers(t.slots[k].segments, x);
      }
    } else {
      FindSlotInWindow(g, s, s.writer.piece);
    }
  }

  lemma ReceivedStep(g: Geometry, content: Content, mode: Lookup, s: State, step: Step, piece: int, x: int)
    requires g.Valid() && Inv(g, content, s) && Enabled(g, content, mode, s, step) && CreditsOwnPiece(mode, s)
    ensures var t := Apply(g, mode, s, step);
            Holds(t.slots, piece, x) <==>
              InReach(g, t.absRPos, piece) && (Holds(s.slots, piece, x) || Stores(s, step, piece, x))
  {
    if Holds(s.slots, piece, x) {
      HeldMeansReach(g, s, piece, x);
    }
    match step
    case WriteCommit => CommitAddsBlock(g, content, mode, s, piece, x);
    case ReadCommit => ReadKeepsReceived(g, content, mode, s, piece, x);
    case Seek(pos) => SeekKeepsReceived(g, content, s, pos, piece, x);
    case _ =>
  }

  /** `after` lists the pieces in reach, and claims exactly what `before` claims of them. */
  ghost predicate KeepsInReach(g: Geometry, before: seq<Slot>, after: seq<Slot>, absRPos: int) {
    && (forall piece :: Lists(after, piece) <==> InReach(g, absRPos, piece))
    && (forall piece, x :: Holds(after, piece, x) <==> Holds(before, piece, x) && InReach(g, absRPos, piece))
  }

  /** `after` lists the same pieces, and claims these bytes of one piece as well. */
  ghost predicate AddsBytes(before: seq<Slot>, after: seq<Slot>, to: int, offset: int, len: int) {
    && (forall piece :: Lists(after, piece) <==> Lists(before, piece))
    && (forall piece, x :: Holds(after, piece, x) <==>
          Holds(before, piece, x) || (piece == to && offset <= x < offset + len))
  }

  lemma MovedKeepsInReach(g: Geometry, s: State, t: State)
    requires g.Valid() && WindowOk(g, s) && WindowOk(g, t) && t.slots == Window(g, s.slots, g.PieceOf(t.absRPos))
    ensures KeepsInReach(g, s.slots, t.slots, t.absRPos)
  {
    forall piece ensures Lists(t.slots, piece) <==> InReach(g, t.absRPos, piece) {
      ListsReach(g, t, piece);
    }
    forall piece, x ensures Holds(t.slots, piece, x) <==> Holds(s.slots, piece, x) && InReach(g, t.absRPos, piece) {
      MovedHolds(g, s, t, piece, x);
    }
  }

  lemma CreditAddsBytes(g: Geometry, slots: seq<Slot>, k: nat, seg: Segment)
    requires SlotsInBounds(g, slots) && Contiguous(slots) && k < |slots| && seg.first < seg.second
    ensures AddsBytes(slots, Credited(slots, k, seg), slots[k].piece, seg.first, seg.second - seg.first)
  {
    var r := Credited(slots, k, seg);
    assert forall i :: 0 <= i < |slots| ==> r[i].piece == slots[i].piece;
    forall piece, x
      ensures Holds(r, piece, x) <==> Holds(slots, piece, x) || (piece == slots[k].piece && seg.first <= x < seg.second)
    {
      forall i | 0 <= i < |slots|
        ensures Covers(r[i].segments, x) <==> Covers(slots[i].segments, x) || (i == k && seg.first <= x < seg.second)
      {
        CreditCovers(g, slots, k, seg, i, x);
      }
      if Holds(slots, piece, x) {
        var i :| 0 <= i < |slots| && slots[i].piece == piece && Covers(slots[i].segments, x);
        assert Covers(r[i].segments, x);
      }
      if piece == slots[k].piece && seg.first <= x < seg.second {
        assert Covers(r[k].segments, x);
      }
    }
  }

  // ---------------------------------------------------------------- over runs

  /** Whether the cache must have byte `x` of the piece after the steps, by what was stored alone: a byte is
      got with the block it comes in, and lost when its piece gets out of reach. */
  ghost predicate Got(g: Geometry, mode: Lookup, s: State, steps: seq<Step>, piece: int, x: int, got: bool)
    requires g.Valid()
    decreases |steps|
  {
    if |steps| == 0 then got
    else
      var t := Apply(g, mode, s, steps[0]);
      Got(g, mode, t, steps[1..], piece, x,
          InReach(g, t.absRPos, piece) && (got || Stores(s, steps[0], piece, x)))
  }

  lemma {:induction false} RunHoldsWhatItGot(g: Geometry, content: Content, mode: Lookup, rules: Rules, s: State, steps: seq<Step>,
                                             piece: int, x: int)
    requires g.Valid() && Sound(g, content, mode, s) && (mode == ByPiece || rules.still)
    requires Exec(g, content, mode, rules, s, steps).Reached?
    ensures Holds(Exec(g, content, mode, rules, s, steps).state.slots, piece, x)
            <==> Got(g, mode, s, steps, piece, x, Holds(s.slots, piece, x))
    decreases |steps|
  {
    if |steps| > 0 {
      SoundStep(g, content, mode, rules, s, steps[0]);
      ReceivedStep(g, content, mode, s, steps[0], piece, x);
      RunHoldsWhatItGot(g, content, mode, rules, Apply(g, mode, s, steps[0]), steps[1..], piece, x);
    }
  }

  /** In every state of every run, seeks included, the slots claim exactly the bytes that were stored since
      their piece last came into reach: nothing is forgotten, and nothing is claimed that was not stored. */
  lemma SlotsAreTheHistory(g: Geometry, content: Content, mode: Lookup, rules: Rules, ring: seq<Byte>, steps: seq<Step>,
                           piece: int, x: int)
    requires g.Valid() && |ring| == g.CacheSize() && (mode == ByPiece || rules.still)
    requires Exec(g, content, mode, rules, Start(g, ring), steps).Reached?
    ensures Holds(Exec(g, content, mode, rules, Start(g, ring), steps).state.slots, piece, x)
            <==> Got(g, mode, Start(g, ring), steps, piece, x, false)
  {
    StartHoldsNothing(g, content, mode, ring, piece, x);
    RunHoldsWhatItGot(g, content, mode, rules, Start(g, ring), steps, piece, x);
  }

  lemma StartHoldsNothing(g: Geometry, content: Content, mode: Lookup, ring: seq<Byte>, piece: int, x: int)
    requires g.Valid() && |ring| == g.CacheSize()
    ensures Sound(g, content, mode, Start(g, ring)) && !Holds(Start(g, ring).slots, piece, x)
  {
    FreshStart(g, content, mode, ring);
  }

  /** The state after the first `n` steps. */
  ghost function StateAt(g: Geometry, mode: Lookup, s: State, steps: seq<Step>, n: nat): State
    requires g.Valid() && n <= |steps|
    decreases n
  {
    if n == 0 then s else StateAt(g, mode, Apply(g, mode, s, steps[0]), steps[1..], n - 1)
  }

  /** Some step of the run stored byte `x` of the piece while the piece was in reach. */
  ghost predicate StoredBefore(g: Geometry, mode: Lookup, s: State, steps: seq<Step>, piece: int, x: int)
    requires g.Valid()
  {
    exists n :: 0 <= n < |steps| && StoredAt(g, mode, s, steps, piece, x, n)
  }

  ghost predicate StoredAt(g: Geometry, mode: Lookup, s: State, steps: seq<Step>, piece: int, x: int, n: nat)
    requires g.Valid() && n < |steps|
  {
    var u := StateAt(g, mode, s, steps, n);
    Stores(u, steps[n], piece, x) && InReach(g, u.absRPos, piece)
  }

  lemma StoredBeforeStep(g: Geometry, mode: Lookup, s: State, steps: seq<Step>, piece: int, x: int)
    requires g.Valid() && |steps| > 0
    ensures StoredBefore(g, mode, s, steps, piece, x) <==>
              (Stores(s, steps[0], piece, x) && InReach(g, s.absRPos, piece))
              || StoredBefore(g, mode, Apply(g, mode, s, steps[0]), steps[1..], piece, x)
  {
    var t, rest := Apply(g, mode, s, steps[0]), steps[1..];
    if n :| 0 <= n < |steps| && StoredAt(g, mode, s, steps, piece, x, n) {
      if n > 0 {
        assert rest[n - 1] == steps[n];
        assert StoredAt(g, mode, t, rest, piece, x, n - 1);
      }
    }
    if Stores(s, steps[0], piece, x) && InReach(g, s.absRPos, piece) {
      assert StoredAt(g, mode, s, steps, piece, x, 0);
    }
    if n :| 0 <= n < |rest| && StoredAt(g, mode, t, rest, piece, x, n) {
      assert steps[n + 1] == rest[n];
      assert StoredAt(g, mode, s, steps, piece, x, n + 1);
    }
  }

  /** Without seeks the read position never goes back, so what is in reach at both ends of a run is in reach all
      along. */
  lemma {:induction false} ForwardRun(g: Geometry, content: Content, mode: Lookup, rules: Rules, s: State, steps: seq<Step>)
    requires g.Valid() && Sound(g, content, mode, s) && (mode == ByPiece || rules.still) && rules.seeks == NoSeek
    requires Exec(g, content, mode, rules, s, steps).Reached?
    ensures s.absRPos <= Exec(g, content, mode, rules, s, steps).state.absRPos
    decreases |steps|
  {
    if |steps| > 0 {
      SoundStep(g, content, mode, rules, s, steps[0]);
      if steps[0].ReadCommit? {
        ReadHandsOver(g, content, mode, s);
      }
      ForwardRun(g, content, mode, rules, Apply(g, mode, s, steps[0]), steps[1..]);
    }
  }

  lemma {:induction false} GotIffStored(g: Geometry, content: Content, mode: Lookup, rules: Rules, s: State, steps: seq<Step>,
                                        piece: int, x: int, got: bool)
    requires g.Valid() && Sound(g, content, mode, s) && (mode == ByPiece || rules.still) && rules.seeks == NoSeek
    requires Exec(g, content, mode, rules, s, steps).Reached?
    requires got ==> InReach(g, s.absRPos, piece)
    requires InReach(g, Exec(g, content, mode, rules, s, steps).state.absRPos, piece)
    ensures Got(g, mode, s, steps, piece, x, got) <==> got || StoredBefore(g, mode, s, steps, piece, x)
    decreases |steps|
  {
    if |steps| > 0 {
      var t, stores := Apply(g, mode, s, steps[0]), Stores(s, steps[0], piece, x);
      SoundStep(g, content, mode, rules, s, steps[0]);
      StoredBeforeStep(g, mode, s, steps, piece, x);
      ForwardRun(g, content, mode, rules, s, [steps[0]]);
      ForwardRun(g, content, mode, rules, t, steps[1..]);
      GotIffStored(g, content, mode, rules, t, steps[1..], piece, x, InReach(g, t.absRPos, piece) && (got || stores));
    }
  }

  /** Over every seek-free run: a byte of a piece in reach is claimed if and only if some block with it was
      stored while the piece was in reach. */
  lemma HeldIffStored(g: Geometry, content: Content, mode: Lookup, rules: Rules, ring: seq<Byte>, steps: seq<Step>,
                      piece: int, x: int)
    requires g.Valid() && |ring| == g.CacheSize() && (mode == ByPiece || rules.still) && rules.seeks == NoSeek
    requires Exec(g, content, mode, rules, Start(g, ring), steps).Reached?
    requires InReach(g, Exec(g, content, mode, rules, Start(g, ring), steps).state.absRPos, piece)
    ensures Holds(Exec(g, content, mode, rules, Start(g, ring), steps).state.slots, piece, x)
            <==> StoredBefore(g, mode, Start(g, ring), steps, piece, x)
  {
    SlotsAreTheHistory(g, content, mode, rules, ring, steps, piece, x);
    StartHoldsNothing(g, content, mode, ring, piece, x);
    GotIffStored(g, content, mode, rules, Start(g, ring), steps, piece, x, false);
  }

  // ---------------------------------------------------------------- the longest run of what was stored

  /** Every byte before `pos` of the pieces in reach of the read position `absRPos` was got. */
  ghost predicate GotTo(g: Geometry, mode: Lookup, s: State, steps: seq<Step>, absRPos: int, pos: int)
    requires g.Valid()
  {
    forall piece, x :: 0 <= x < g.pieceLen && InReach(g, absRPos, piece) && g.PieceAbsPos(piece) + x < pos
      ==> Got(g, mode, s, steps, piece, x, false)
  }

  lemma CoveredIsGot(g: Geometry, content: Content, mode: Lookup, rules: Rules, ring: seq<Byte>, steps: seq<Step>, pos: int)
    requires g.Valid() && |ring| == g.CacheSize() && (mode == ByPiece || rules.still)
    requires Exec(g, content, mode, rules, Start(g, ring), steps).Reached?
    ensures var t := Exec(g, content, mode, rules, Start(g, ring), steps).state;
            CoveredTo(g, t.slots, pos) <==> GotTo(g, mode, Start(g, ring), steps, t.absRPos, pos)
  {
    var s, t := Start(g, ring), Exec(g, content, mode, rules, Start(g, ring), steps).state;
    StartHoldsNothing(g, content, mode, ring, 0, 0);
    RunIsSound(g, content, mode, rules, s, steps);
    if CoveredTo(g, t.slots, pos) {
      forall piece, x | 0 <= x < g.pieceLen && InReach(g, t.absRPos, piece) && g.PieceAbsPos(piece) + x < pos
        ensures Got(g, mode, s, steps, piece, x, false)
      {
        SlotsAreTheHistory(g, content, mode, rules, ring, steps, piece, x);
        ListsReach(g, t, piece);
        var i :| 0 <= i < |t.slots| && t.slots[i].piece == piece;
        assert Covers(t.slots[i].segments, x);
      }
    }
    if GotTo(g, mode, s, steps, t.absRPos, pos) {
      forall i, x | 0 <= i < |t.slots| && 0 <= x < g.pieceLen && g.PieceAbsPos(t.slots[i].piece) + x < pos
        ensures Covers(t.slots[i].segments, x)
      {
        var piece := t.slots[i].piece;
        assert Lists(t.slots, piece);
        ListsReach(g, t, piece);
        SlotsAreTheHistory(g, content, mode, rules, ring, steps, piece, x);
        var j :| 0 <= j < |t.slots| && t.slots[j].piece == piece && Covers(t.slots[j].segments, x);
        assert i == j;
      }
    }
  }

  /** The write position against the blocks that were stored: over the runs in which it is exact, it is the
      greatest position in the window such that every byte before it was stored. */
  lemma WritePositionIsLongestStored(g: Geometry, content: Content, mode: Lookup, rules: Rules, ring: seq<Byte>, steps: seq<Step>,
                                     pos: int)
    requires g.Valid() && |ring| == g.CacheSize() && (mode == ByPiece || rules.still) && ExactRules(rules)
    requires Exec(g, content, mode, rules, Start(g, ring), steps).Reached?
    requires var t := Exec(g, content, mode, rules, Start(g, ring), steps).state;
             pos <= g.PieceAbsPos(g.PieceOf(t.absRPos) + |t.slots|)
    ensures var t := Exec(g, content, mode, rules, Start(g, ring), steps).state;
            GotTo(g, mode, Start(g, ring), steps, t.absRPos, pos) <==> pos <= t.absWPos
  {
    WritePositionIsExact(g, content, mode, rules, ring, steps);
    CoveredIsGot(g, content, mode, rules, ring, steps, pos);
  }
}
