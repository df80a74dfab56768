/** What holds over whole runs of the streaming cache, and exactly when. */
module Runs {
  import opened Arithmetic
  import opened Ranges
  import opened Overlaps
  import opened Ring
  import opened Slots
  import opened Protocol

  /** A seek is clean when the write position it leaves is still the first missing byte: it stays
      in its piece, or the target piece holds nothing at its start. */
  datatype SeekRule = AnySeek | CleanSeek | NoSeek

  /** A fresh block repeats no byte its slot holds; a harmless one may, where that hides nothing; one that is
      harmless ahead may do anything to a piece that the write position has passed. */
  datatype BlockRule = AnyBlock | HarmlessAhead | HarmlessBlock | FreshBlock

  /** What a run promises beyond the steps being enabled.
      `still`: no read that commits during a write moves the window, and no seek.
      `guarded`: no seek happens during a write, as the source asserts. */
  datatype Rules = Rules(blocks: BlockRule, still: bool, guarded: bool, seeks: SeekRule)

  datatype Outcome = Blocked | Reached(state: State)

  ghost predicate FreshBegin(s: State, step: Step) {
    step.WriteBegin? ==>
      var k := FindSlot(s.slots, step.piece);
      k < |s.slots| ==> Fresh(s.slots[k].segments, Segment(step.offset, step.offset + |step.block|))
  }

  /** A block for piece `from` or a later one is harmless. */
  ghost predicate HarmlessBegin(g: Geometry, s: State, step: Step, from: int) {
    step.WriteBegin? ==>
      var k := FindSlot(s.slots, step.piece);
      k < |s.slots| ==>
        step.piece < from
        || Harmless(s.slots[k].segments, Segment(step.offset, step.offset + |step.block|), g.pieceLen)
  }

  /** A read that commits while a block is being stored, or a seek that comes between, stays in its piece. */
  ghost predicate Still(g: Geometry, s: State, step: Step)
    requires g.Valid()
  {
    s.writer.Filling? ==>
      && (step.ReadCommit? && s.reader.Copying? ==>
            g.PieceOf(s.absRPos + Wanted(g, s.reader)) == g.PieceOf(s.absRPos))
      && (step.Seek? ==> g.PieceOf(step.pos + g.fOffset) == g.PieceOf(s.absRPos))
  }

  ghost predicate IsCleanSeek(g: Geometry, s: State, step: Step)
    requires g.Valid()
  {
    step.Seek? ==>
      var newPiece := g.PieceOf(step.pos + g.fOffset);
      g.PieceOf(s.absWPos) == newPiece || BytesAvailable(RangeOf(s.slots, newPiece)) == 0
  }

  ghost predicate Permitted(g: Geometry, rules: Rules, s: State, step: Step)
    requires g.Valid()
  {
    && (rules.blocks == FreshBlock ==> FreshBegin(s, step))
    && (rules.blocks == HarmlessBlock ==> HarmlessBegin(g, s, step, g.FirstPiece()))
    && (rules.blocks == HarmlessAhead ==> HarmlessBegin(g, s, step, g.PieceOf(s.absWPos)))
    && (rules.still ==> Still(g, s, step))
    && (rules.guarded ==> step.Seek? ==> !s.updatingBuffer)
    && (rules.seeks == CleanSeek ==> IsCleanSeek(g, s, step))
    && (rules.seeks == NoSeek ==> !step.Seek?)
  }

  /** Any interleaving is a sequence of steps; it is blocked if a step is not possible. */
  ghost function Exec(g: Geometry, content: Content, mode: Lookup, rules: Rules, s: State, steps: seq<Step>): Outcome
    requires g.Valid()
    decreases |steps|
  {
    if |steps| == 0 then Reached(s)
    else if Enabled(g, content, mode, s, steps[0]) && Permitted(g, rules, s, steps[0])
    then Exec(g, content, mode, rules, Apply(g, mode, s, steps[0]), steps[1..])
    else Blocked
  }

  /** A run after a run. */
  lemma {:induction false} Follow(g: Geometry, content: Content, mode: Lookup, rules: Rules,
                                  s: State, steps: seq<Step>, t: State, more: seq<Step>)
    requires g.Valid() && Exec(g, content, mode, rules, s, steps) == Reached(t)
    ensures Exec(g, content, mode, rules, s, steps + more) == Exec(g, content, mode, rules, t, more)
    decreases |steps|
  {
    if |steps| == 0 {
      assert steps + more == more;
    } else {
      assert (steps + more)[1..] == steps[1..] + more;
      Follow(g, content, mode, rules, Apply(g, mode, s, steps[0]), steps[1..], t, more);
    }
  }

  /** One more step at the end of a run. */
  lemma {:induction false} Extend(g: Geometry, content: Content, mode: Lookup, rules: Rules,
                                  s: State, steps: seq<Step>, t: State, step: Step)
    requires g.Valid() && Exec(g, content, mode, rules, s, steps) == Reached(t)
    requires Enabled(g, content, mode, t, step) && Permitted(g, rules, t, step)
    ensures Exec(g, content, mode, rules, s, steps + [step]) == Reached(Apply(g, mode, t, step))
    decreases |steps|
  {
    if |steps| == 0 {
      assert steps + [step] == [step];
    } else {
      assert (steps + [step])[1..] == steps[1..] + [step];
      Extend(g, content, mode, rules, Apply(g, mode, s, steps[0]), steps[1..], t, step);
    }
  }

  // ---------------------------------------------------------------- the kept list position

  /** The kept list position still denotes the slot of the piece being written. */
  ghost predicate IteratorCurrent(s: State) {
    s.writer.Filling? ==> s.writer.itr < |s.slots| && s.slots[s.writer.itr].piece == s.writer.piece
  }

  /** The exact condition: a read committing during a write, or a seek in between, leaves the kept list
      position valid if and only if it does not move the window to another piece. */
  lemma IteratorSurvivesIffStill(g: Geometry, content: Content, mode: Lookup, s: State, step: Step)
    requires g.Valid() && Inv(g, content, s) && Enabled(g, content, mode, s, step)
    requires (step.ReadCommit? || step.Seek?) && s.writer.Filling? && IteratorCurrent(s)
    ensures IteratorCurrent(Apply(g, mode, s, step)) <==> Still(g, s, step)
  {
    var t := Apply(g, mode, s, step);
    StepKeepsInv(g, content, mode, s, step);
    assert t.writer.itr < |t.slots| ==> t.slots[t.writer.itr].piece == g.PieceOf(t.absRPos) + t.writer.itr;
    assert s.slots[s.writer.itr].piece == g.PieceOf(s.absRPos) + s.writer.itr;
  }

  lemma IteratorStep(g: Geometry, content: Content, mode: Lookup, s: State, step: Step)
    requires g.Valid() && Inv(g, content, s) && Enabled(g, content, mode, s, step)
    requires IteratorCurrent(s) && Still(g, s, step)
    ensures IteratorCurrent(Apply(g, mode, s, step))
  {
    if (step.ReadCommit? || step.Seek?) && s.writer.Filling? {
      IteratorSurvivesIffStill(g, content, mode, s, step);
    }
  }

  /** Until the commit, whatever reads and seeks do, the write under way is the one that began. */
  lemma {:induction false} WriteGoesOn(g: Geometry, content: Content, mode: Lookup, rules: Rules, s: State, steps: seq<Step>)
    requires g.Valid() && Inv(g, content, s) && s.writer.Filling?
    requires WriteCommit !in steps && Exec(g, content, mode, rules, s, steps).Reached?
    ensures var t := Exec(g, content, mode, rules, s, steps).state;
            && Inv(g, content, t) && t.writer.Filling?
            && t.writer.piece == s.writer.piece && t.writer.itr == s.writer.itr
            && t.writer.offset == s.writer.offset && t.writer.block == s.writer.block
    decreases |steps|
  {
    if |steps| > 0 {
      assert steps[0] in steps;
      StepKeepsInv(g, content, mode, s, steps[0]);
      WriteGoesOn(g, content, mode, rules, Apply(g, mode, s, steps[0]), steps[1..]);
    }
  }

  /** From the beginning of a write to its commit, over any reads and seeks in between: the kept list position
      denotes the slot of the piece that was written if and only if the read position has come back to, or
      never left, the piece it was in. */
  lemma CommitCreditsOwnIff(g: Geometry, content: Content, mode: Lookup, rules: Rules, s: State, begin: Step, steps: seq<Step>)
    requires g.Valid() && Inv(g, content, s) && Enabled(g, content, mode, s, begin)
    requires begin.WriteBegin? && FindSlot(s.slots, begin.piece) < |s.slots|
    requires WriteCommit !in steps && Exec(g, content, mode, rules, Apply(g, mode, s, begin), steps).Reached?
    ensures var t := Exec(g, content, mode, rules, Apply(g, mode, s, begin), steps).state;
            && t.writer.Filling? && t.writer.piece == begin.piece
            && t.writer.offset == begin.offset && t.writer.block == begin.block
            && (t.writer.itr < |t.slots| ==>
                  (t.slots[t.writer.itr].piece == begin.piece <==> g.PieceOf(t.absRPos) == g.PieceOf(s.absRPos)))
  {
    WriteBeginOk(g, content, mode, s, begin);
    WriteGoesOn(g, content, mode, rules, Apply(g, mode, s, begin), steps);
  }

  /** A commit through a list position that denotes another piece claims the block's bytes for that piece, and
      for no other, its own included. The claim is true only where the ring happens to hold the right bytes. */
  lemma ShiftedCommitCreditsAnother(g: Geometry, content: Content, s: State)
    requires g.Valid() && Inv(g, content, s) && s.writer.Filling? && s.writer.itr < |s.slots|
    requires s.slots[s.writer.itr].piece != s.writer.piece
    ensures var k, w := s.writer.itr, s.writer;
            var t := Commit(g, s, k);
            && |t.slots| == |s.slots| && t.slots[k].piece == s.slots[k].piece
            && (forall x :: w.offset <= x < w.offset + |w.block| ==> Covers(t.slots[k].segments, x))
            && (forall i :: 0 <= i < |s.slots| && i != k ==> t.slots[i] == s.slots[i])
            && (Backed(g, content, t.ring, t.slots) <==>
                  forall x :: w.offset <= x < w.offset + |w.block| ==>
                    s.ring[g.Cell(s.slots[k].piece, x)] == content(g.PieceAbsPos(s.slots[k].piece) + x))
  {
    var k, seg := s.writer.itr, BlockSegment(s.writer);
    var slots := Credited(s.slots, k, seg);
    forall x | seg.first <= x < seg.second ensures Covers(slots[k].segments, x) {
      CreditCovers(g, s.slots, k, seg, k, x);
    }
    if forall x :: seg.first <= x < seg.second ==>
         s.ring[g.Cell(s.slots[k].piece, x)] == content(g.PieceAbsPos(s.slots[k].piece) + x) {
      CreditIsBacked(g, content, s.ring, s.slots, k, seg);
    }
  }

  /** What has to be carried along a run. */
  ghost predicate Sound(g: Geometry, content: Content, mode: Lookup, s: State)
    requires g.Valid()
  {
    Inv(g, content, s) && (mode == ByIterator ==> IteratorCurrent(s))
  }

  lemma SoundStep(g: Geometry, content: Content, mode: Lookup, rules: Rules, s: State, step: Step)
    requires g.Valid() && Sound(g, content, mode, s) && (mode == ByPiece || rules.still)
    requires Enabled(g, content, mode, s, step) && Permitted(g, rules, s, step)
    ensures CreditsOwnPiece(mode, s)
    ensures Sound(g, content, mode, Apply(g, mode, s, step))
  {
    StepKeepsInv(g, content, mode, s, step);
    if mode == ByIterator {
      IteratorStep(g, content, mode, s, step);
    }
  }

  /** Safety over every interleaving: with a fresh lookup always, with the kept list position as
      long as no read and no seek moves the window during a write. */
  lemma {:induction false} RunIsSound(g: Geometry, content: Content, mode: Lookup, rules: Rules, s: State, steps: seq<Step>)
    requires g.Valid() && Sound(g, content, mode, s) && (mode == ByPiece || rules.still)
    requires Exec(g, content, mode, rules, s, steps).Reached?
    ensures Sound(g, content, mode, Exec(g, content, mode, rules, s, steps).state)
    decreases |steps|
  {
    if |steps| > 0 {
      SoundStep(g, content, mode, rules, s, steps[0]);
      RunIsSound(g, content, mode, rules, Apply(g, mode, s, steps[0]), steps[1..]);
    }
  }

  /** What a reader of the cache relies on. */
  ghost predicate Safe(g: Geometry, content: Content, s: State)
    requires g.Valid()
  {
    && |s.ring| == g.CacheSize()
    && (forall i :: 0 <= i < |s.log| ==> Genuine(content, s.log[i]))
    && s.absWPos - s.absRPos <= g.CacheSize()
    && FrontierOk(g, s)
    && Backed(g, content, s.ring, s.slots)
    && s.slots == Window(g, s.slots, g.PieceOf(s.absRPos))
    && forall piece :: Lists(s.slots, piece) <==> InReach(g, s.absRPos, piece)
  }

  /** The slots are exactly those of the pieces in reach of the read position. */
  lemma ListsReach(g: Geometry, s: State, piece: int)
    requires g.Valid() && WindowOk(g, s)
    ensures Lists(s.slots, piece) <==> InReach(g, s.absRPos, piece)
  {
    ReachIs(g, s.absRPos, piece);
    LastPieceIs(g, piece);
    var i := piece - g.PieceOf(s.absRPos);
    if 0 <= i < |s.slots| {
      assert s.slots[i].piece == piece;
    }
  }

  lemma InvIsSafe(g: Geometry, content: Content, s: State)
    requires g.Valid() && Inv(g, content, s)
    ensures Safe(g, content, s)
  {
    AtMostOneRing(g, s);
    forall i | 0 <= i < |s.slots| ensures s.slots[i] == Window(g, s.slots, g.PieceOf(s.absRPos))[i] {
      WindowOrigin(g, s, g.PieceOf(s.absRPos), i);
    }
    forall piece ensures Lists(s.slots, piece) <==> InReach(g, s.absRPos, piece) {
      ListsReach(g, s, piece);
    }
  }

  /** Every read of every run delivers exactly the torrent's bytes; the slots are exactly the window
      of the read position; every byte before the write position was received and is in the ring. */
  lemma RunsDeliverTheTorrent(g: Geometry, content: Content, mode: Lookup, rules: Rules, ring: seq<Byte>, steps: seq<Step>)
    requires g.Valid() && |ring| == g.CacheSize() && (mode == ByPiece || rules.still)
    requires Exec(g, content, mode, rules, Start(g, ring), steps).Reached?
    ensures Safe(g, content, Exec(g, content, mode, rules, Start(g, ring), steps).state)
  {
    StartOk(g, content, ring);
    RunIsSound(g, content, mode, rules, Start(g, ring), steps);
    InvIsSafe(g, content, Exec(g, content, mode, rules, Start(g, ring), steps).state);
  }

  /** A read hands over exactly as many bytes as were asked for and received when it began, from
      where the read position stands, and moves the read position behind them. */
  lemma ReadHandsOver(g: Geometry, content: Content, mode: Lookup, s: State)
    requires g.Valid() && Inv(g, content, s) && Enabled(g, content, mode, s, ReadCommit)
    ensures var t := Apply(g, mode, s, ReadCommit);
            && t.log == s.log + [Delivery(s.absRPos, s.reader.out)]
            && |s.reader.out| == Min(s.reader.len, s.reader.upto - s.absRPos)
            && t.absRPos == s.absRPos + |s.reader.out|
            && Genuine(content, Delivery(s.absRPos, s.reader.out))
  {
    AtMostOneRing(g, s);
    CopyPlan(g, s.absRPos, s.reader.upto, s.reader.len);
  }

  /** Until its commit, whatever is written meanwhile, a read works on what it saw at its beginning. */
  lemma {:induction false} ReadGoesOn(g: Geometry, content: Content, mode: Lookup, rules: Rules, s: State, steps: seq<Step>)
    requires g.Valid() && Sound(g, content, mode, s) && (mode == ByPiece || rules.still) && s.reader.Copying?
    requires ReadCommit !in steps && Exec(g, content, mode, rules, s, steps).Reached?
    ensures var t := Exec(g, content, mode, rules, s, steps).state;
            && Sound(g, content, mode, t) && t.reader.Copying? && t.absRPos == s.absRPos && t.log == s.log
            && t.reader.upto == s.reader.upto && t.reader.len == s.reader.len
    decreases |steps|
  {
    if |steps| > 0 {
      assert steps[0] in steps;
      SoundStep(g, content, mode, rules, s, steps[0]);
      ReadGoesOn(g, content, mode, rules, Apply(g, mode, s, steps[0]), steps[1..]);
    }
  }

  /** From its beginning to its commit, over anything written in between: a read hands over exactly as many bytes
      as were asked for and received when it began, from where the read position stood then. */
  lemma ReadHandsOverItsSnapshot(g: Geometry, content: Content, mode: Lookup, rules: Rules, s: State, len: int, steps: seq<Step>)
    requires g.Valid() && Sound(g, content, mode, s) && (mode == ByPiece || rules.still)
    requires Enabled(g, content, mode, s, ReadBegin(len)) && ReadCommit !in steps
    requires Exec(g, content, mode, rules, Apply(g, mode, s, ReadBegin(len)), steps).Reached?
    requires Enabled(g, content, mode, Exec(g, content, mode, rules, Apply(g, mode, s, ReadBegin(len)), steps).state, ReadCommit)
    ensures var t := Apply(g, mode, Exec(g, content, mode, rules, Apply(g, mode, s, ReadBegin(len)), steps).state, ReadCommit);
            && t.absRPos == s.absRPos + Min(len, s.absWPos - s.absRPos)
            && |t.log| == |s.log| + 1 && t.log[..|s.log|] == s.log
            && t.log[|s.log|].from == s.absRPos && |t.log[|s.log|].bytes| == t.absRPos - s.absRPos
            && Genuine(content, t.log[|s.log|])
  {
    var begun := Apply(g, mode, s, ReadBegin(len));
    ReadBeginOk(g, content, mode, s, ReadBegin(len));
    ReadGoesOn(g, content, mode, rules, begun, steps);
    ReadHandsOver(g, content, mode, Exec(g, content, mode, rules, begun, steps).state);
  }

  /** A read can begin exactly when a received byte stands at the read position and no read is under way;
      and what is under way can always go on, by exactly one step. */
  lemma NothingIsStuck(g: Geometry, content: Content, s: State, len: int)
    requires g.Valid() && Inv(g, content, s) && len > 0
    ensures Enabled(g, content, ByPiece, s, ReadBegin(len)) <==> !s.reader.Copying? && s.absRPos < s.absWPos
    ensures s.reader.Copying? ==>
              (Enabled(g, content, ByPiece, s, ReadByte) <==> !Enabled(g, content, ByPiece, s, ReadCommit))
              && (Enabled(g, content, ByPiece, s, ReadByte) <==> |s.reader.out| < Min(s.reader.len, s.reader.upto - s.absRPos))
    ensures s.writer.Filling? ==>
              (Enabled(g, content, ByPiece, s, WriteByte) <==> !Enabled(g, content, ByPiece, s, WriteCommit))
              && (Enabled(g, content, ByPiece, s, WriteByte) <==> s.writer.done < |s.writer.block|)
  {
    AtMostOneRing(g, s);
    if s.reader.Copying? {
      CopyPlan(g, s.absRPos, s.reader.upto, s.reader.len);
    }
  }

  // ---------------------------------------------------------------- the stream of a seek-free run

  /** All delivered bytes, one after the other. */
  function Stream(log: seq<Delivery>): seq<Byte> {
    if |log| == 0 then [] else Stream(log[..|log| - 1]) + log[|log| - 1].bytes
  }

  /** The deliveries after the first `base` are the torrent's bytes from `from` to the read position. */
  ghost predicate StreamOk(content: Content, s: State, base: nat, from: int) {
    && base <= |s.log|
    && s.absRPos == from + |Stream(s.log[base..])|
    && Genuine(content, Delivery(from, Stream(s.log[base..])))
  }

  lemma {:induction false} StreamStep(g: Geometry, content: Content, mode: Lookup, s: State, step: Step, base: nat, from: int)
    requires g.Valid() && Inv(g, content, s) && StreamOk(content, s, base, from)
    requires Enabled(g, content, mode, s, step) && !step.Seek?
    ensures StreamOk(content, Apply(g, mode, s, step), base, from)
  {
    var t := Apply(g, mode, s, step);
    if step.ReadCommit? {
      StreamMore(s.log, base, Delivery(s.absRPos, s.reader.out));
      GenuineMore(content, from, Stream(s.log[base..]), s.reader.out);
    } else {
      assert t.log == s.log && t.absRPos == s.absRPos;
    }
  }

  lemma {:induction false} StreamMore(log: seq<Delivery>, base: nat, d: Delivery)
    requires base <= |log|
    ensures Stream((log + [d])[base..]) == Stream(log[base..]) + d.bytes
  {
    var more := (log + [d])[base..];
    assert more[..|more| - 1] == log[base..] && more[|more| - 1] == d;
  }

  lemma GenuineMore(content: Content, from: int, a: seq<Byte>, b: seq<Byte>)
    requires Genuine(content, Delivery(from, a)) && Genuine(content, Delivery(from + |a|, b))
    ensures Genuine(content, Delivery(from, a + b))
  {
    forall k | 0 <= k < |a + b| ensures (a + b)[k] == content(from + k) {
      if k >= |a| {
        assert b[k - |a|] == content(from + |a| + (k - |a|));
      }
    }
  }

  lemma {:induction false} RunKeepsStream(g: Geometry, content: Content, mode: Lookup, rules: Rules, s: State, steps: seq<Step>,
                                          base: nat, from: int)
    requires g.Valid() && Sound(g, content, mode, s) && StreamOk(content, s, base, from)
    requires (mode == ByPiece || rules.still) && rules.seeks == NoSeek
    requires Exec(g, content, mode, rules, s, steps).Reached?
    ensures StreamOk(content, Exec(g, content, mode, rules, s, steps).state, base, from)
    decreases |steps|
  {
    if |steps| > 0 {
      SoundStep(g, content, mode, rules, s, steps[0]);
      StreamStep(g, content, mode, s, steps[0], base, from);
      RunKeepsStream(g, content, mode, rules, Apply(g, mode, s, steps[0]), steps[1..], base, from);
    }
  }

  /** On every seek-free run the reads together are the file's bytes from its start up to the read
      position: none lost, none repeated, none out of order. */
  lemma SeekFreeRunsStreamTheFile(g: Geometry, content: Content, mode: Lookup, rules: Rules, ring: seq<Byte>, steps: seq<Step>)
    requires g.Valid() && |ring| == g.CacheSize() && (mode == ByPiece || rules.still) && rules.seeks == NoSeek
    requires Exec(g, content, mode, rules, Start(g, ring), steps).Reached?
    ensures var s := Exec(g, content, mode, rules, Start(g, ring), steps).state;
            && |Stream(s.log)| == s.absRPos - g.fOffset
            && forall k :: 0 <= k < |Stream(s.log)| ==> Stream(s.log)[k] == content(g.fOffset + k)
  {
    StartOk(g, content, ring);
    RunKeepsStream(g, content, mode, rules, Start(g, ring), steps, 0, g.fOffset);
    var log := Exec(g, content, mode, rules, Start(g, ring), steps).state.log;
    assert log[0..] == log;
  }

  /** After any run, a seek and then a seek-free run: the reads since the seek together are the file's
      bytes from the offset that was sought, whatever was in the cache before. */
  lemma SeekThenStream(g: Geometry, content: Content, mode: Lookup, rules: Rules, later: Rules, ring: seq<Byte>,
                       before: seq<Step>, pos: int, steps: seq<Step>)
    requires g.Valid() && |ring| == g.CacheSize() && later.seeks == NoSeek
    requires mode == ByPiece || (rules.still && later.still)
    requires Exec(g, content, mode, rules, Start(g, ring), before).Reached?
    requires Enabled(g, content, mode, Exec(g, content, mode, rules, Start(g, ring), before).state, Seek(pos))
    requires mode == ByPiece || Still(g, Exec(g, content, mode, rules, Start(g, ring), before).state, Seek(pos))
    requires Exec(g, content, mode, later, SeekTo(g, Exec(g, content, mode, rules, Start(g, ring), before).state, pos), steps).Reached?
    ensures var s := Exec(g, content, mode, rules, Start(g, ring), before).state;
            var t := Exec(g, content, mode, later, SeekTo(g, s, pos), steps).state;
            && |s.log| <= |t.log|
            && var heard := Stream(t.log[|s.log|..]);
               && |heard| == t.absRPos - (g.fOffset + pos)
               && forall k :: 0 <= k < |heard| ==> heard[k] == content(g.fOffset + pos + k)
  {
    var s := Exec(g, content, mode, rules, Start(g, ring), before).state;
    StartOk(g, content, ring);
    RunIsSound(g, content, mode, rules, Start(g, ring), before);
    SeekOk(g, content, mode, s, Seek(pos));
    if mode == ByIterator {
      IteratorStep(g, content, mode, s, Seek(pos));
    }
    RunKeepsStream(g, content, mode, later, SeekTo(g, s, pos), steps, |s.log|, pos + g.fOffset);
  }

  // ---------------------------------------------------------------- fresh blocks

  /** Slots are canonical, and the block being stored is new to its slot. */
  ghost predicate Tidy(s: State) {
    && SlotsCanonical(s.slots)
    && (s.writer.Filling? ==>
          var k := FindSlot(s.slots, s.writer.piece);
          k < |s.slots| ==> Fresh(s.slots[k].segments, BlockSegment(s.writer)))
  }

  /** The slot of the block being stored is still there. */
  ghost predicate Listed(s: State) {
    s.writer.Filling? ==> FindSlot(s.slots, s.writer.piece) < |s.slots|
  }

  /** The write position never passes a fresh block that is still being stored. */
  lemma FreshBlockIsAhead(g: Geometry, content: Content, s: State)
    requires g.Valid() && Inv(g, content, s) && Tidy(s) && Listed(s) && s.writer.Filling?
    ensures s.absWPos <= g.PieceAbsPos(s.writer.piece) + s.writer.offset
  {
    var k := FindSlot(s.slots, s.writer.piece);
    assert !Covers(s.slots[k].segments, s.writer.offset);
  }

  /** A read that commits while a fresh block is being stored never evicts the block's slot. */
  lemma FreshSlotIsKept(g: Geometry, content: Content, mode: Lookup, s: State)
    requires g.Valid() && Inv(g, content, s) && Tidy(s) && Listed(s) && s.writer.Filling?
    requires Enabled(g, content, mode, s, ReadCommit)
    ensures var t := Apply(g, mode, s, ReadCommit);
            var k, k' := FindSlot(s.slots, s.writer.piece), FindSlot(t.slots, s.writer.piece);
            k < |s.slots| && k' < |t.slots| && t.slots[k'] == s.slots[k]
  {
    var t, piece := Apply(g, mode, s, ReadCommit), s.writer.piece;
    var front, start := g.PieceOf(s.absRPos), g.PieceOf(t.absRPos);
    ReadCommitOk(g, content, mode, s);
    FreshBlockIsAhead(g, content, s);
    AtMostOneRing(g, s);
    CopyPlan(g, s.absRPos, s.reader.upto, s.reader.len);
    PieceOfBound(g, t.absRPos, piece + 1);
    Distribute(piece, 1, g.pieceLen);
    FindSlotInWindow(g, s, piece);
    FindSlotInWindow(g, t, piece);
    ForwardStart(g, s, t.absRPos);
    WindowEndsGrow(g, s, start);
    WindowOrigin(g, s, start, piece - start);
  }

  lemma ListedStep(g: Geometry, content: Content, mode: Lookup, s: State, step: Step)
    requires g.Valid() && Inv(g, content, s) && Tidy(s) && Listed(s)
    requires Enabled(g, content, mode, s, step) && (step.Seek? ==> !s.updatingBuffer)
    ensures Listed(Apply(g, mode, s, step))
  {
    if step.ReadCommit? && s.writer.Filling? {
      FreshSlotIsKept(g, content, mode, s);
    }
  }

  lemma ForwardStart(g: Geometry, s: State, absRPos: int)
    requires g.Valid() && WindowOk(g, s) && FrontierOk(g, s) && s.absRPos <= absRPos <= s.absWPos
    ensures g.PieceOf(s.absRPos) <= g.PieceOf(absRPos) <= g.PieceOf(s.absRPos) + |s.slots|
  {
    var front := g.PieceOf(s.absRPos);
    PieceOfBound(g, s.absRPos, front);
    PieceOfBound(g, absRPos, front);
    PieceOfBound(g, absRPos, front + |s.slots| + 1);
    PieceOrder(g, front + |s.slots|, front + |s.slots| + 1);
  }

  lemma WindowStaysCanonical(g: Geometry, s: State, start: int)
    requires g.Valid() && WindowOk(g, s) && SlotsCanonical(s.slots)
    ensures SlotsCanonical(Window(g, s.slots, start))
  {
    forall i | 0 <= i < WindowLength(g, start) ensures Canonical(Window(g, s.slots, start)[i].segments) {
      WindowOrigin(g, s, start, i);
    }
  }

  lemma CreditStaysCanonical(slots: seq<Slot>, k: nat, seg: Segment)
    requires SlotsCanonical(slots) && k < |slots| && seg.first < seg.second && Fresh(slots[k].segments, seg)
    ensures SlotsCanonical(Credited(slots, k, seg))
  {
    AddedCanonicalIffFresh(slots[k].segments, seg);
  }

  lemma CommitIndex(g: Geometry, mode: Lookup, s: State)
    requires g.Valid() && WindowOk(g, s) && s.writer.Filling?
    requires CreditsOwnPiece(mode, s) && CommitSlot(mode, s) < |s.slots|
    ensures CommitSlot(mode, s) == FindSlot(s.slots, s.writer.piece)
  {
    FindSlotInWindow(g, s, s.writer.piece);
  }

  /** A slot found in the moved window is empty, or the one found before. */
  lemma FoundInWindow(g: Geometry, s: State, start: int, piece: int)
    requires g.Valid() && WindowOk(g, s)
    ensures var w := Window(g, s.slots, start);
            var k, k' := FindSlot(s.slots, piece), FindSlot(w, piece);
            k' < |w| ==> w[k'].segments == [] || (k < |s.slots| && w[k'].segments == s.slots[k].segments)
  {
    var k' := FindSlot(Window(g, s.slots, start), piece);
    if k' < WindowLength(g, start) {
      WindowOrigin(g, s, start, k');
      FindSlotInWindow(g, s, piece);
    }
  }

  lemma TidyStep(g: Geometry, content: Content, mode: Lookup, s: State, step: Step)
    requires g.Valid() && Inv(g, content, s) && Tidy(s) && CreditsOwnPiece(mode, s)
    requires Enabled(g, content, mode, s, step) && FreshBegin(s, step)
    ensures Tidy(Apply(g, mode, s, step))
  {
    match step
    case WriteCommit =>
      var k := CommitSlot(mode, s);
      if k < |s.slots| {
        CommitIndex(g, mode, s);
        CreditStaysCanonical(s.slots, k, BlockSegment(s.writer));
      }
    case ReadCommit => MovedStaysTidy(g, s, Apply(g, mode, s, step), g.PieceOf(s.absRPos + Wanted(g, s.reader)));
    case Seek(pos) => MovedStaysTidy(g, s, Apply(g, mode, s, step), g.PieceOf(pos + g.fOffset));
    case _ =>
  }

  lemma MovedStaysTidy(g: Geometry, s: State, t: State, start: int)
    requires g.Valid() && WindowOk(g, s) && Tidy(s)
    requires t.slots == Window(g, s.slots, start) && t.writer == s.writer
    ensures Tidy(t)
  {
    WindowStaysCanonical(g, s, start);
    if s.writer.Filling? {
      FoundInWindow(g, s, start, s.writer.piece);
    }
  }

  /** The ring cell of byte `x` of the piece being stored. */
  function BlockCell(g: Geometry, w: Writer, x: int): int
    requires g.Valid() && w.Filling?
  {
    g.PosInCacheByPiece(w.piece) + x
  }

  ghost predicate StoresTo(g: Geometry, w: Writer, cell: int)
    requires g.Valid() && w.Filling?
  {
    exists x :: w.offset <= x < w.offset + |w.block| && BlockCell(g, w, x) == cell
  }

  ghost predicate CopiesFrom(g: Geometry, r: Reader, cell: int)
    requires g.Valid() && r.Copying?
  {
    exists k :: 0 <= k < Wanted(g, r) && CopyCell(g, r.localR, r.localW, r.len, k) == cell
  }

  lemma CellsAreApart(g: Geometry, content: Content, s: State, x: int, k: int)
    requires g.Valid() && Inv(g, content, s) && Tidy(s) && s.writer.Filling? && s.reader.Copying?
    requires s.writer.offset <= x < s.writer.offset + |s.writer.block|
    requires 0 <= k < Wanted(g, s.reader)
    ensures BlockCell(g, s.writer, x) != CopyCell(g, s.reader.localR, s.reader.localW, s.reader.len, k)
  {
    var r, piece, front := s.reader, s.writer.piece, g.PieceOf(s.absRPos);
    AtMostOneRing(g, s);
    CopyPlan(g, s.absRPos, r.upto, r.len);
    var piece', y := PieceAndOffset(g, s.absRPos + k);
    ReadIsCovered(g, s, piece', y);
    assert g.Cell(piece', y) == g.PosInCacheByAbsPos(s.absRPos + k);
    if g.Cell(piece, x) == g.Cell(piece', y) {
      CellAlias(g, piece, x, piece', y);
      FindSlotInWindow(g, s, piece);
    }
  }

  /** A byte between the two positions is held by the slot of its piece. */
  lemma ReadIsCovered(g: Geometry, s: State, piece: int, x: int)
    requires g.Valid() && WindowOk(g, s) && FrontierOk(g, s) && 0 <= x < g.pieceLen
    requires s.absRPos <= g.PieceAbsPos(piece) + x < s.absWPos
    ensures 0 <= piece - g.PieceOf(s.absRPos) < |s.slots|
    ensures Covers(s.slots[piece - g.PieceOf(s.absRPos)].segments, x)
  {
    var front, pos := g.PieceOf(s.absRPos), g.PieceAbsPos(piece) + x;
    PieceOfByte(g, piece, x);
    PieceOfBound(g, s.absRPos, front);
    PieceOfBound(g, pos, front);
    PieceOfBound(g, pos, front + |s.slots|);
    assert s.slots[piece - front].piece == piece;
  }

  /** While a fresh block is being stored, its ring cells and the cells being read are apart. */
  lemma WriterAndReaderAreApart(g: Geometry, content: Content, s: State, cell: int)
    requires g.Valid() && Inv(g, content, s) && Tidy(s) && s.writer.Filling? && s.reader.Copying?
    requires StoresTo(g, s.writer, cell)
    ensures !CopiesFrom(g, s.reader, cell)
  {
    var x :| s.writer.offset <= x < s.writer.offset + |s.writer.block| && BlockCell(g, s.writer, x) == cell;
    forall k | 0 <= k < Wanted(g, s.reader)
      ensures CopyCell(g, s.reader.localR, s.reader.localW, s.reader.len, k) != cell
    {
      CellsAreApart(g, content, s, x, k);
    }
  }

  /** Over every run with fresh blocks: slots stay canonical and the block being stored stays fresh; and its slot
      is still there, unless a seek came in between. */
  lemma {:induction false} FreshRunIsTidy(g: Geometry, content: Content, mode: Lookup, rules: Rules, s: State, steps: seq<Step>)
    requires g.Valid() && Sound(g, content, mode, s) && Tidy(s) && (mode == ByPiece || rules.still) && rules.blocks == FreshBlock
    requires Exec(g, content, mode, rules, s, steps).Reached?
    ensures Tidy(Exec(g, content, mode, rules, s, steps).state)
    ensures Listed(s) && (rules.guarded || rules.seeks == NoSeek) ==> Listed(Exec(g, content, mode, rules, s, steps).state)
    decreases |steps|
  {
    if |steps| > 0 {
      SoundStep(g, content, mode, rules, s, steps[0]);
      TidyStep(g, content, mode, s, steps[0]);
      if Listed(s) && (rules.guarded || rules.seeks == NoSeek) {
        ListedStep(g, content, mode, s, steps[0]);
      }
      FreshRunIsTidy(g, content, mode, rules, Apply(g, mode, s, steps[0]), steps[1..]);
    }
  }

  lemma FreshStart(g: Geometry, content: Content, mode: Lookup, ring: seq<Byte>)
    requires g.Valid() && |ring| == g.CacheSize()
    ensures Sound(g, content, mode, Start(g, ring)) && Tidy(Start(g, ring)) && Listed(Start(g, ring))
    ensures forall i :: 0 <= i < |Start(g, ring).slots| ==> Start(g, ring).slots[i].segments == []
  {
    var s := Start(g, ring);
    StartOk(g, content, ring);
    forall i | 0 <= i < |s.slots| ensures s.slots[i].segments == [] {
      assert s.slots[i] == Slot(g.FirstPiece() + i, RangeOf([], g.FirstPiece() + i));
    }
  }

  /** In every state of every run with fresh blocks: no cell of a block being stored is a cell of the read under
      way; and the block's slot is in the list, unless a seek came in between. */
  lemma FreshRunsKeepApart(g: Geometry, content: Content, mode: Lookup, rules: Rules, ring: seq<Byte>, steps: seq<Step>)
    requires g.Valid() && |ring| == g.CacheSize() && (mode == ByPiece || rules.still) && rules.blocks == FreshBlock
    requires Exec(g, content, mode, rules, Start(g, ring), steps).Reached?
    ensures var s := Exec(g, content, mode, rules, Start(g, ring), steps).state;
            s.writer.Filling? ==>
              && (rules.guarded || rules.seeks == NoSeek ==> FindSlot(s.slots, s.writer.piece) < |s.slots|)
              && (s.reader.Copying? ==>
                    forall cell :: StoresTo(g, s.writer, cell) ==> !CopiesFrom(g, s.reader, cell))
  {
    var s := Exec(g, content, mode, rules, Start(g, ring), steps).state;
    FreshStart(g, content, mode, ring);
    RunIsSound(g, content, mode, rules, Start(g, ring), steps);
    FreshRunIsTidy(g, content, mode, rules, Start(g, ring), steps);
    if s.writer.Filling? && s.reader.Copying? {
      forall cell | StoresTo(g, s.writer, cell) ensures !CopiesFrom(g, s.reader, cell) {
        WriterAndReaderAreApart(g, content, s, cell);
      }
    }
  }

  // ---------------------------------------------------------------- the exact write position

  /** The write position is the end of the longest received run from the window's start. */
  ghost predicate LongestRun(g: Geometry, s: State)
    requires g.Valid()
  {
    && CoveredTo(g, s.slots, s.absWPos)
    && forall pos :: pos <= g.PieceAbsPos(g.PieceOf(s.absRPos) + |s.slots|) && CoveredTo(g, s.slots, pos)
         ==> pos <= s.absWPos
  }

  lemma MissingMeansLongest(g: Geometry, s: State)
    requires g.Valid() && WindowOk(g, s) && FrontierOk(g, s)
    ensures MissingAt(g, s.slots, s.absWPos) <==> LongestRun(g, s)
  {
    var front, w := g.PieceOf(s.absRPos), s.absWPos;
    if MissingAt(g, s.slots, w) {
      forall pos | w < pos <= g.PieceAbsPos(front + |s.slots|) ensures !CoveredTo(g, s.slots, pos) {
        MissingStops(g, s, pos);
      }
    } else {
      var k, x :| 0 <= k < |s.slots| && 0 <= x < g.pieceLen && g.PieceAbsPos(s.slots[k].piece) + x == w
                  && Covers(s.slots[k].segments, x);
      CoveredOneMore(g, s, k, x);
      PieceOrder(g, s.slots[k].piece, front + |s.slots|);
    }
  }

  lemma MissingStops(g: Geometry, s: State, pos: int)
    requires g.Valid() && WindowOk(g, s) && FrontierOk(g, s) && MissingAt(g, s.slots, s.absWPos)
    requires s.absWPos < pos <= g.PieceAbsPos(g.PieceOf(s.absRPos) + |s.slots|)
    ensures !CoveredTo(g, s.slots, pos)
  {
    var front := g.PieceOf(s.absRPos);
    var piece, x := PieceAndOffset(g, s.absWPos);
    PieceOfBound(g, s.absWPos, front);
    PieceOfBound(g, s.absWPos, front + |s.slots|);
    assert s.slots[piece - front].piece == piece;
    assert !Covers(s.slots[piece - front].segments, x);
  }

  /** A torrent position is one byte of one piece. */
  lemma BytePosUnique(g: Geometry, p: int, x: int, q: int, y: int)
    requires g.Valid() && 0 <= x < g.pieceLen && 0 <= y < g.pieceLen
    requires g.PieceAbsPos(p) + x == g.PieceAbsPos(q) + y
    ensures p == q && x == y
  {
    PieceOfByte(g, p, x);
    PieceOfByte(g, q, y);
  }

  lemma CoveredOneMore(g: Geometry, s: State, k: nat, x: int)
    requires g.Valid() && WindowOk(g, s) && k < |s.slots| && 0 <= x < g.pieceLen
    requires g.PieceAbsPos(s.slots[k].piece) + x == s.absWPos
    requires CoveredTo(g, s.slots, s.absWPos) && Covers(s.slots[k].segments, x)
    ensures CoveredTo(g, s.slots, s.absWPos + 1)
  {
    forall i, y | 0 <= i < |s.slots| && 0 <= y < g.pieceLen && g.PieceAbsPos(s.slots[i].piece) + y < s.absWPos + 1
      ensures Covers(s.slots[i].segments, y)
    {
      if g.PieceAbsPos(s.slots[i].piece) + y == s.absWPos {
        BytePosUnique(g, s.slots[i].piece, y, s.slots[k].piece, x);
      }
    }
  }

  lemma FirstByteHeld(g: Geometry, s: seq<Segment>)
    requires Held(s, g.pieceLen) && Settled(s, g.pieceLen)
    ensures Covers(s, 0) <==> BytesAvailable(s) > 0
  {
    SettledIsExact(s, g.pieceLen);
    ExactIsGreatest(s, 1);
  }

  /** A seek leaves an exact write position exact if and only if it is clean. */
  lemma SeekIsExactIffClean(g: Geometry, content: Content, s: State, pos: int)
    requires g.Valid() && Inv(g, content, s) && SlotsSettled(g, s.slots) && LongestRun(g, s) && pos >= 0
    ensures LongestRun(g, SeekTo(g, s, pos)) <==> IsCleanSeek(g, s, Seek(pos))
  {
    var t := SeekTo(g, s, pos);
    var start := g.PieceOf(t.absRPos);
    MissingMeansLongest(g, s);
    SeekKeepsFrontier(g, s, pos);
    SeekWindowOk(g, content, s, pos);
    MissingMeansLongest(g, t);
    if g.PieceOf(s.absWPos) == start {
      WindowKeepsMissing(g, s, start, s.absWPos);
    } else {
      SeekMissingIff(g, s, pos);
    }
  }

  lemma SeekWindowOk(g: Geometry, content: Content, s: State, pos: int)
    requires g.Valid() && Inv(g, content, s) && pos >= 0
    ensures WindowOk(g, SeekTo(g, s, pos))
  {
    WindowMoves(g, content, s, g.PieceOf(pos + g.fOffset));
  }

  lemma WindowKeepsMissing(g: Geometry, s: State, start: int, pos: int)
    requires g.Valid() && WindowOk(g, s) && MissingAt(g, s.slots, pos)
    ensures MissingAt(g, Window(g, s.slots, start), pos)
  {
    var w, front := Window(g, s.slots, start), g.PieceOf(s.absRPos);
    forall i, x | 0 <= i < |w| && 0 <= x < g.pieceLen && g.PieceAbsPos(w[i].piece) + x == pos
      ensures !Covers(w[i].segments, x)
    {
      WindowOrigin(g, s, start, i);
      var j := start + i - front;
      assert 0 <= j < |s.slots| ==> s.slots[j].piece == w[i].piece;
    }
  }

  lemma SeekMissingIff(g: Geometry, s: State, pos: int)
    requires g.Valid() && WindowOk(g, s) && SlotsSettled(g, s.slots)
    requires g.PieceOf(s.absWPos) != g.PieceOf(pos + g.fOffset)
    ensures MissingAt(g, SeekTo(g, s, pos).slots, SeekTo(g, s, pos).absWPos)
            <==> BytesAvailable(RangeOf(s.slots, g.PieceOf(pos + g.fOffset))) == 0
  {
    var start := g.PieceOf(pos + g.fOffset);
    var w, front := Window(g, s.slots, start), g.PieceOf(s.absRPos);
    assert |s.slots| > 0 ==> s.slots[0].piece == front;
    if |w| > 0 {
      WindowOrigin(g, s, start, 0);
      assert w[0] == Slot(start, RangeOf(s.slots, start));
      assert Held(w[0].segments, g.pieceLen) && Settled(w[0].segments, g.pieceLen);
      FirstByteHeld(g, w[0].segments);
      OnlyFirstByte(g, w, start);
    }
  }

  /** At the start of a window only its first byte can be missing. */
  lemma OnlyFirstByte(g: Geometry, w: seq<Slot>, start: int)
    requires g.Valid() && |w| > 0 && forall i :: 0 <= i < |w| ==> w[i].piece == start + i
    ensures MissingAt(g, w, g.PieceAbsPos(start)) <==> !Covers(w[0].segments, 0)
  {
    if !Covers(w[0].segments, 0) {
      forall i, x | 0 <= i < |w| && 0 <= x < g.pieceLen && g.PieceAbsPos(w[i].piece) + x == g.PieceAbsPos(start)
        ensures !Covers(w[i].segments, x)
      {
        BytePosUnique(g, w[i].piece, x, start, 0);
      }
    }
  }

  /** The slots from piece `from` on are settled, and so they stay when the block being stored is credited. */
  ghost predicate Calm(g: Geometry, s: State, from: int) {
    && SettledFrom(g, s.slots, from)
    && (s.writer.Filling? ==>
          var k := FindSlot(s.slots, s.writer.piece);
          k < |s.slots| ==>
            s.writer.piece < from || Harmless(s.slots[k].segments, BlockSegment(s.writer), g.pieceLen))
  }

  lemma FreshIsHarmless(g: Geometry, content: Content, mode: Lookup, s: State, step: Step, from: int)
    requires g.Valid() && Inv(g, content, s) && Enabled(g, content, mode, s, step) && FreshBegin(s, step)
    ensures HarmlessBegin(g, s, step, from)
  {
    if step.WriteBegin? {
      var k := FindSlot(s.slots, step.piece);
      if k < |s.slots| {
        FreshIsApart(s.slots[k].segments, Segment(step.offset, step.offset + |step.block|));
      }
    }
  }

  lemma CreditStaysSettled(g: Geometry, slots: seq<Slot>, k: nat, seg: Segment, from: int)
    requires SlotsInBounds(g, slots) && SettledFrom(g, slots, from) && k < |slots| && Fitting(seg, g.pieceLen)
    requires slots[k].piece < from || Harmless(slots[k].segments, seg, g.pieceLen)
    ensures SettledFrom(g, Credited(slots, k, seg), from)
  {
    if slots[k].piece >= from {
      SettledIffHarmless(slots[k].segments, seg, g.pieceLen);
    }
  }

  lemma MovedStaysCalm(g: Geometry, s: State, t: State, start: int, from: int)
    requires g.Valid() && WindowOk(g, s) && Calm(g, s, from)
    requires t.slots == Window(g, s.slots, start) && t.writer == s.writer
    ensures Calm(g, t, from)
  {
    forall i | 0 <= i < |t.slots| && t.slots[i].piece >= from ensures Settled(t.slots[i].segments, g.pieceLen) {
      WindowOrigin(g, s, start, i);
    }
    if s.writer.Filling? {
      FoundInWindow(g, s, start, s.writer.piece);
    }
  }

  lemma CommitStaysCalm(g: Geometry, s: State, k: nat, from: int)
    requires g.Valid() && WindowOk(g, s) && Calm(g, s, from)
    requires s.writer.Filling? && k < |s.slots| && k == FindSlot(s.slots, s.writer.piece)
    requires Fitting(BlockSegment(s.writer), g.pieceLen)
    ensures Calm(g, Commit(g, s, k), from)
  {
    CreditStaysSettled(g, s.slots, k, BlockSegment(s.writer), from);
  }

  lemma CalmStep(g: Geometry, content: Content, mode: Lookup, s: State, step: Step, from: int)
    requires g.Valid() && Inv(g, content, s) && Calm(g, s, from) && CreditsOwnPiece(mode, s)
    requires Enabled(g, content, mode, s, step) && HarmlessBegin(g, s, step, from)
    ensures Calm(g, Apply(g, mode, s, step), from)
  {
    match step
    case WriteCommit =>
      var k := CommitSlot(mode, s);
      if k < |s.slots| {
        CommitIndex(g, mode, s);
        CommitStaysCalm(g, s, k, from);
      }
    case ReadCommit =>
      MovedStaysCalm(g, s, Apply(g, mode, s, step), g.PieceOf(s.absRPos + Wanted(g, s.reader)), from);
    case Seek(pos) => MovedStaysCalm(g, s, Apply(g, mode, s, step), g.PieceOf(pos + g.fOffset), from);
    case _ =>
  }

  /** No listed piece lies before the file's first one. */
  lemma AllSettled(g: Geometry, s: State)
    requires g.Valid() && WindowOk(g, s) && SettledFrom(g, s.slots, g.FirstPiece())
    ensures SlotsSettled(g, s.slots)
  {
    DivMonotone(g.fOffset, s.absRPos, g.pieceLen);
  }

  lemma ExactSeek(g: Geometry, s: State, pos: int)
    requires g.Valid() && WindowOk(g, s) && SlotsSettled(g, s.slots) && MissingAt(g, s.slots, s.absWPos)
    requires IsCleanSeek(g, s, Seek(pos))
    ensures MissingAt(g, SeekTo(g, s, pos).slots, SeekTo(g, s, pos).absWPos)
  {
    if g.PieceOf(s.absWPos) == g.PieceOf(pos + g.fOffset) {
      WindowKeepsMissing(g, s, g.PieceOf(pos + g.fOffset), s.absWPos);
    } else {
      SeekMissingIff(g, s, pos);
    }
  }

  lemma ExactWriteCommit(g: Geometry, content: Content, mode: Lookup, s: State, from: int)
    requires g.Valid() && Inv(g, content, s) && Calm(g, s, from) && CreditsOwnPiece(mode, s)
    requires Enabled(g, content, mode, s, WriteCommit) && MissingAt(g, s.slots, s.absWPos)
    requires from <= g.PieceOf(s.absWPos)
    ensures MissingAt(g, Apply(g, mode, s, WriteCommit).slots, Apply(g, mode, s, WriteCommit).absWPos)
  {
    var k := CommitSlot(mode, s);
    if k < |s.slots| {
      CommitIndex(g, mode, s);
      CommitIsExact(g, content, s, k, from);
    }
  }

  lemma ExactStep(g: Geometry, content: Content, mode: Lookup, s: State, step: Step, from: int)
    requires g.Valid() && Inv(g, content, s) && Calm(g, s, from) && CreditsOwnPiece(mode, s)
    requires Enabled(g, content, mode, s, step) && IsCleanSeek(g, s, step)
    requires MissingAt(g, s.slots, s.absWPos) && from <= g.PieceOf(s.absWPos)
    requires step.Seek? ==> from == g.FirstPiece()
    ensures MissingAt(g, Apply(g, mode, s, step).slots, Apply(g, mode, s, step).absWPos)
  {
    match step
    case WriteCommit => ExactWriteCommit(g, content, mode, s, from);
    case ReadCommit => WindowKeepsMissing(g, s, g.PieceOf(s.absRPos + Wanted(g, s.reader)), s.absWPos);
    case Seek(pos) =>
      AllSettled(g, s);
      ExactSeek(g, s, pos);
    case _ =>
  }

  /** A credit to another piece than the one of a missing byte leaves it missing. */
  lemma CreditElsewhereKeepsMissing(g: Geometry, slots: seq<Slot>, k: nat, seg: Segment, pos: int)
    requires g.Valid() && SlotsInBounds(g, slots) && seg.first < seg.second && k < |slots|
    requires MissingAt(g, slots, pos) && g.PieceOf(pos) != slots[k].piece
    ensures MissingAt(g, Credited(slots, k, seg), pos)
  {
    forall i, x | 0 <= i < |slots| && 0 <= x < g.pieceLen && g.PieceAbsPos(slots[i].piece) + x == pos
      ensures !Covers(Credited(slots, k, seg)[i].segments, x)
    {
      PieceOfByte(g, slots[i].piece, x);
      CreditCovers(g, slots, k, seg, i, x);
    }
  }

  /** A commit that is harmless, or is for a piece the write position has passed, keeps the write position
      exact. */
  lemma CommitIsExact(g: Geometry, content: Content, s: State, k: nat, from: int)
    requires g.Valid() && Inv(g, content, s) && Calm(g, s, from) && MissingAt(g, s.slots, s.absWPos)
    requires s.writer.Filling? && s.writer.done == |s.writer.block| && from <= g.PieceOf(s.absWPos)
    requires k == FindSlot(s.slots, s.writer.piece) && k < |s.slots|
    ensures MissingAt(g, Commit(g, s, k).slots, Commit(g, s, k).absWPos)
  {
    var slots := Credited(s.slots, k, BlockSegment(s.writer));
    CreditedOk(g, content, s, k);
    CreditStaysSettled(g, s.slots, k, BlockSegment(s.writer), from);
    if g.PieceOf(s.absWPos) != slots[k].piece {
      CreditElsewhereKeepsMissing(g, s.slots, k, BlockSegment(s.writer), s.absWPos);
    }
    AdvanceIsExact(g, slots, k, s.absWPos);
  }

  /** The blocks and seeks under which the write position stays exact: without seeks, blocks that are harmless
      for the pieces not passed yet; with clean seeks, harmless blocks. */
  predicate ExactRules(rules: Rules) {
    match rules.blocks
    case AnyBlock => false
    case HarmlessAhead => rules.seeks == NoSeek
    case _ => rules.seeks != AnySeek
  }

  /** The first piece whose slot has to be settled. */
  function From(g: Geometry, rules: Rules, s: State): int
    requires g.Valid()
  {
    if rules.blocks == HarmlessAhead then g.PieceOf(s.absWPos) else g.FirstPiece()
  }

  lemma FromIsReached(g: Geometry, content: Content, mode: Lookup, rules: Rules, s: State, step: Step)
    requires g.Valid() && Inv(g, content, s) && CreditsOwnPiece(mode, s) && ExactRules(rules)
    requires Enabled(g, content, mode, s, step) && Permitted(g, rules, s, step)
    ensures From(g, rules, s) <= g.PieceOf(s.absWPos)
    ensures From(g, rules, s) <= From(g, rules, Apply(g, mode, s, step))
  {
    DivMonotone(g.fOffset, s.absRPos, g.pieceLen);
    PieceOfBound(g, s.absWPos, g.PieceOf(s.absRPos));
    if step.WriteCommit? && CommitSlot(mode, s) < |s.slots| {
      CommitOk(g, content, s, CommitSlot(mode, s));
      DivMonotone(s.absWPos, Apply(g, mode, s, step).absWPos, g.pieceLen);
    }
  }

  lemma {:induction false} RunKeepsExact(g: Geometry, content: Content, mode: Lookup, rules: Rules, s: State, steps: seq<Step>)
    requires g.Valid() && Sound(g, content, mode, s) && Calm(g, s, From(g, rules, s)) && MissingAt(g, s.slots, s.absWPos)
    requires (mode == ByPiece || rules.still) && ExactRules(rules)
    requires Exec(g, content, mode, rules, s, steps).Reached?
    ensures var t := Exec(g, content, mode, rules, s, steps).state;
            Sound(g, content, mode, t) && Calm(g, t, From(g, rules, t)) && MissingAt(g, t.slots, t.absWPos)
    decreases |steps|
  {
    if |steps| > 0 {
      var from := From(g, rules, s);
      SoundStep(g, content, mode, rules, s, steps[0]);
      if rules.blocks == FreshBlock {
        FreshIsHarmless(g, content, mode, s, steps[0], from);
      }
      FromIsReached(g, content, mode, rules, s, steps[0]);
      CalmStep(g, content, mode, s, steps[0], from);
      ExactStep(g, content, mode, s, steps[0], from);
      RunKeepsExact(g, content, mode, rules, Apply(g, mode, s, steps[0]), steps[1..]);
    }
  }

  /** Whatever the order in which fresh or harmlessly repeated blocks arrive, and however reads and
      clean seeks interleave with them, the write position is exactly the end of the longest received
      run. Without seeks, any blocks may arrive for pieces that the write position has passed. */
  lemma WritePositionIsExact(g: Geometry, content: Content, mode: Lookup, rules: Rules, ring: seq<Byte>, steps: seq<Step>)
    requires g.Valid() && |ring| == g.CacheSize() && (mode == ByPiece || rules.still) && ExactRules(rules)
    requires Exec(g, content, mode, rules, Start(g, ring), steps).Reached?
    ensures LongestRun(g, Exec(g, content, mode, rules, Start(g, ring), steps).state)
  {
    var s0 := Start(g, ring);
    FreshStart(g, content, mode, ring);
    RunKeepsExact(g, content, mode, rules, s0, steps);
    MissingMeansLongest(g, Exec(g, content, mode, rules, s0, steps).state);
  }

  /** The one commit of a block whose bytes the slot already holds changes neither what is covered nor,
      if it was exact, the write position. What it does to later commits is another matter. */
  lemma RepeatedCommitMovesNothing(g: Geometry, content: Content, s: State, k: nat)
    requires g.Valid() && Inv(g, content, s) && LongestRun(g, s)
    requires s.writer.Filling? && s.writer.done == |s.writer.block|
    requires k < |s.slots| && s.slots[k].piece == s.writer.piece
    requires forall x :: s.writer.offset <= x < s.writer.offset + |s.writer.block| ==> Covers(s.slots[k].segments, x)
    ensures var t := Commit(g, s, k);
            && t.absWPos == s.absWPos && |t.slots| == |s.slots|
            && forall i, x :: 0 <= i < |s.slots| ==> (Covers(t.slots[i].segments, x) <==> Covers(s.slots[i].segments, x))
  {
    var seg, t := BlockSegment(s.writer), Commit(g, s, k);
    CreditedOk(g, content, s, k);
    AdvanceIsSafe(g, t.slots, k, s.absWPos);
    forall i, x | 0 <= i < |s.slots| ensures Covers(t.slots[i].segments, x) <==> Covers(s.slots[i].segments, x) {
      CreditCovers(g, s.slots, k, seg, i, x);
    }
    assert CoveredTo(g, s.slots, t.absWPos);
  }

  // ---------------------------------------------------------------- blocks that are not harmless

  /** Piece `piece` is listed, its count is frozen at `c`, and the write position is not beyond. */
  ghost predicate FrozenAt(g: Geometry, s: State, piece: int, c: int) {
    && 0 <= c < g.pieceLen
    && Frozen(RangeOf(s.slots, piece), c)
    && s.absWPos <= g.PieceAbsPos(piece) + c
  }

  /** Where a listed piece stands. */
  lemma RangeIsSlot(g: Geometry, s: State, piece: int)
    requires g.Valid() && WindowOk(g, s) && RangeOf(s.slots, piece) != []
    ensures var j := piece - g.PieceOf(s.absRPos);
            0 <= j < |s.slots| && s.slots[j] == Slot(piece, RangeOf(s.slots, piece))
  {
  }

  /** A block that overlaps the counted bytes of an incomplete piece freezes its count, unless the write
      position is beyond them already, which in a settled slot it never is. */
  lemma OverlapFreezesSlot(g: Geometry, content: Content, s: State, k: nat)
    requires g.Valid() && Inv(g, content, s) && s.writer.Filling?
    requires k < |s.slots| && s.slots[k].piece == s.writer.piece
    requires s.writer.offset < BytesAvailable(s.slots[k].segments) < g.pieceLen
    requires || Settled(s.slots[k].segments, g.pieceLen)
             || s.absWPos <= g.PieceAbsPos(s.writer.piece) + BytesAvailable(s.slots[k].segments)
    ensures FrozenAt(g, Commit(g, s, k), s.writer.piece, BytesAvailable(s.slots[k].segments))
  {
    var seg, c, piece := BlockSegment(s.writer), BytesAvailable(s.slots[k].segments), s.writer.piece;
    var slots := Credited(s.slots, k, seg);
    if Settled(s.slots[k].segments, g.pieceLen) {
      SettledIsExact(s.slots[k].segments, g.pieceLen);
      assert g.PieceAbsPos(piece) + c >= s.absWPos;
    }
    OverlapFreezes(s.slots[k].segments, seg);
    CreditKeepsBounds(g, s.slots, k, seg, s.absWPos);
    AdvanceStops(g, slots, k, s.absWPos, k, c);
    assert RangeOf(slots, piece) == slots[k].segments;
  }

  lemma FrozenCredit(g: Geometry, slots: seq<Slot>, k: nat, seg: Segment, j: nat, c: int, absWPos: int)
    requires g.Valid() && Contiguous(slots) && SlotsInBounds(g, slots) && Fitting(seg, g.pieceLen)
    requires k < |slots| && j < |slots| && 0 <= c < g.pieceLen && Frozen(slots[j].segments, c)
    requires absWPos <= g.PieceAbsPos(slots[j].piece) + c
    ensures Frozen(Credited(slots, k, seg)[j].segments, c)
    ensures Advance(g, Credited(slots, k, seg), k, absWPos) <= g.PieceAbsPos(slots[j].piece) + c
  {
    FrozenStays(slots[j].segments, seg, c);
    CreditKeepsBounds(g, slots, k, seg, absWPos);
    AdvanceStops(g, Credited(slots, k, seg), k, absWPos, j, c);
  }

  lemma FrozenCommit(g: Geometry, s: State, k: nat, piece: int, c: int)
    requires g.Valid() && WindowOk(g, s) && FrozenAt(g, s, piece, c)
    requires s.writer.Filling? && k < |s.slots| && Fitting(BlockSegment(s.writer), g.pieceLen)
    ensures FrozenAt(g, Commit(g, s, k), piece, c)
  {
    var j := piece - g.PieceOf(s.absRPos);
    RangeIsSlot(g, s, piece);
    FrozenCredit(g, s.slots, k, BlockSegment(s.writer), j, c, s.absWPos);
    assert RangeOf(Commit(g, s, k).slots, piece) == Credited(s.slots, k, BlockSegment(s.writer))[j].segments;
  }

  lemma FrozenRead(g: Geometry, content: Content, mode: Lookup, s: State, piece: int, c: int)
    requires g.Valid() && Inv(g, content, s) && FrozenAt(g, s, piece, c)
    requires Enabled(g, content, mode, s, ReadCommit)
    ensures var t := Apply(g, mode, s, ReadCommit);
            FrozenAt(g, t, piece, c) && t.absRPos <= g.PieceAbsPos(piece) + c
  {
    var t := Apply(g, mode, s, ReadCommit);
    var start := g.PieceOf(t.absRPos);
    RangeIsSlot(g, s, piece);
    ReadHandsOver(g, content, mode, s);
    PieceOfBound(g, t.absRPos, piece + 1);
    Distribute(piece, 1, g.pieceLen);
    ForwardStart(g, s, t.absRPos);
    WindowEndsGrow(g, s, start);
    WindowKeeps(g, s.slots, start, piece);
  }

  lemma FrozenStep(g: Geometry, content: Content, mode: Lookup, s: State, step: Step, piece: int, c: int)
    requires g.Valid() && Inv(g, content, s) && CreditsOwnPiece(mode, s) && FrozenAt(g, s, piece, c)
    requires Enabled(g, content, mode, s, step) && !step.Seek?
    ensures FrozenAt(g, Apply(g, mode, s, step), piece, c)
    ensures Apply(g, mode, s, step).absRPos <= Max(s.absRPos, g.PieceAbsPos(piece) + c)
  {
    match step
    case WriteCommit =>
      var k := CommitSlot(mode, s);
      if k < |s.slots| {
        FrozenCommit(g, s, k, piece, c);
      }
    case ReadCommit => FrozenRead(g, content, mode, s, piece, c);
    case _ =>
  }

  /** A frozen count stays frozen: whatever blocks arrive, in every run without a seek the slot is never
      evicted, and neither the write position nor the reader ever gets beyond byte `c` of the piece. */
  lemma {:induction false} FrozenUntilSeek(g: Geometry, content: Content, mode: Lookup, rules: Rules, s: State, steps: seq<Step>,
                                           piece: int, c: int)
    requires g.Valid() && Sound(g, content, mode, s) && FrozenAt(g, s, piece, c)
    requires (mode == ByPiece || rules.still) && rules.seeks == NoSeek
    requires Exec(g, content, mode, rules, s, steps).Reached?
    ensures var t := Exec(g, content, mode, rules, s, steps).state;
            FrozenAt(g, t, piece, c) && t.absRPos <= Max(s.absRPos, g.PieceAbsPos(piece) + c)
    decreases |steps|
  {
    if |steps| > 0 {
      SoundStep(g, content, mode, rules, s, steps[0]);
      FrozenStep(g, content, mode, s, steps[0], piece, c);
      FrozenUntilSeek(g, content, mode, rules, Apply(g, mode, s, steps[0]), steps[1..], piece, c);
    }
  }

  // ---------------------------------------------------------------- seeking into received data

  /** The reader has nothing to read although its whole piece has been received. */
  ghost predicate Stalled(g: Geometry, s: State)
    requires g.Valid()
  {
    && s.reader.Ready? && |s.slots| > 0
    && s.absWPos == g.PieceAbsPos(g.PieceOf(s.absRPos))
    && BytesAvailable(s.slots[0].segments) == g.pieceLen
  }

  /** Exactly when a seek leaves the reader stalled, from any state: the piece it enters is complete, and
      the write position comes to the piece's start or stands there already. */
  lemma SeekStallsIff(g: Geometry, content: Content, s: State, pos: int)
    requires g.Valid() && Inv(g, content, s) && s.reader.Ready? && pos >= 0
    ensures var newPiece := g.PieceOf(pos + g.fOffset);
            Stalled(g, SeekTo(g, s, pos)) <==>
              && BytesAvailable(RangeOf(s.slots, newPiece)) == g.pieceLen
              && (g.PieceOf(s.absWPos) != newPiece || s.absWPos == g.PieceAbsPos(newPiece))
  {
    var t, start := SeekTo(g, s, pos), g.PieceOf(pos + g.fOffset);
    assert |s.slots| > 0 ==> s.slots[0].piece == g.PieceOf(s.absRPos);
    if |t.slots| > 0 {
      assert t.slots[0] == Slot(start, RangeOf(s.slots, start));
    }
  }

  /** A stalled reader stays stalled over the commit of any block but one for its own piece, which is always a
      repeat, and which raises the write position. */
  lemma StalledCommitIff(g: Geometry, content: Content, s: State, k: nat)
    requires g.Valid() && Inv(g, content, s) && Stalled(g, s)
    requires s.writer.Filling? && s.writer.done == |s.writer.block|
    requires k < |s.slots| && s.slots[k].piece == s.writer.piece
    ensures Stalled(g, Commit(g, s, k)) <==> k > 0
    ensures Commit(g, s, k).absWPos > s.absWPos <==> k == 0
  {
    var piece, seg := g.PieceOf(s.absRPos), BlockSegment(s.writer);
    var slots := Credited(s.slots, k, seg);
    CreditedOk(g, content, s, k);
    PieceOfByte(g, piece, 0);
    if k > 0 {
      AdvanceAheadIsIdle(g, slots, k, s.absWPos);
    } else {
      AddedHead(s.slots[0].segments, seg);
      assert slots[0].piece == piece && BytesAvailable(slots[0].segments) > 0;
      RaiseIsSafe(g, slots, 0, s.absWPos);
      AdvanceIsSafe(g, slots, 1, g.PieceAbsPos(piece) + BytesAvailable(slots[0].segments));
    }
  }

  lemma StalledStep(g: Geometry, content: Content, mode: Lookup, s: State, step: Step)
    requires g.Valid() && Inv(g, content, s) && CreditsOwnPiece(mode, s) && Stalled(g, s)
    requires Enabled(g, content, mode, s, step) && !step.Seek?
    ensures var t := Apply(g, mode, s, step);
            && (Stalled(g, t) <==> !(step.WriteCommit? && s.writer.piece == g.PieceOf(s.absRPos)))
            && t.log == s.log && t.absRPos == s.absRPos && (Stalled(g, t) ==> t.absWPos == s.absWPos)
  {
    var piece, x := PieceAndOffset(g, s.absRPos);
    if step.WriteCommit? {
      var k := CommitSlot(mode, s);
      FindSlotInWindow(g, s, s.writer.piece);
      if k < |s.slots| {
        StalledCommitIff(g, content, s, k);
      }
    }
  }

  /** The reader is stalled in every state of the run. */
  ghost predicate StalledThroughout(g: Geometry, mode: Lookup, s: State, steps: seq<Step>)
    requires g.Valid()
    decreases |steps|
  {
    Stalled(g, s) && (|steps| > 0 ==> StalledThroughout(g, mode, Apply(g, mode, s, steps[0]), steps[1..]))
  }

  /** Some step of the run commits a block for the piece. */
  ghost predicate CommitsTo(g: Geometry, mode: Lookup, s: State, steps: seq<Step>, piece: int)
    requires g.Valid()
    decreases |steps|
  {
    |steps| > 0 &&
    ((steps[0].WriteCommit? && s.writer.Filling? && s.writer.piece == piece)
     || CommitsTo(g, mode, Apply(g, mode, s, steps[0]), steps[1..], piece))
  }

  /** Whatever blocks arrive: over a run without a seek a stalled reader stays stalled throughout, and reads
      nothing, if and only if no block for its own, complete piece is stored again. */
  lemma {:induction false} StalledThroughoutIff(g: Geometry, content: Content, mode: Lookup, rules: Rules, s: State, steps: seq<Step>)
    requires g.Valid() && Sound(g, content, mode, s) && Stalled(g, s)
    requires (mode == ByPiece || rules.still) && rules.seeks == NoSeek
    requires Exec(g, content, mode, rules, s, steps).Reached?
    ensures StalledThroughout(g, mode, s, steps) <==> !CommitsTo(g, mode, s, steps, g.PieceOf(s.absRPos))
    ensures var t := Exec(g, content, mode, rules, s, steps).state;
            StalledThroughout(g, mode, s, steps) ==>
              Stalled(g, t) && t.log == s.log && t.absRPos == s.absRPos && t.absWPos == s.absWPos
    decreases |steps|
  {
    if |steps| > 0 {
      var t := Apply(g, mode, s, steps[0]);
      SoundStep(g, content, mode, rules, s, steps[0]);
      StalledStep(g, content, mode, s, steps[0]);
      if Stalled(g, t) {
        StalledThroughoutIff(g, content, mode, rules, t, steps[1..]);
      }
    }
  }

  lemma FreshBlockIsElsewhere(g: Geometry, content: Content, s: State)
    requires g.Valid() && Inv(g, content, s) && Tidy(s) && Stalled(g, s) && s.writer.Filling?
    ensures s.writer.piece != g.PieceOf(s.absRPos)
  {
    FindSlotInWindow(g, s, s.writer.piece);
    AvailableIsCovered(s.slots[0].segments, s.writer.offset);
  }

  /** In particular no sequence of fresh blocks ever lets a stalled reader read a byte again before the next
      seek. */
  lemma {:induction false} StalledUntilSeek(g: Geometry, content: Content, mode: Lookup, rules: Rules, s: State, steps: seq<Step>)
    requires g.Valid() && Sound(g, content, mode, s) && Tidy(s) && Stalled(g, s)
    requires (mode == ByPiece || rules.still) && rules.blocks == FreshBlock && rules.seeks == NoSeek
    requires Exec(g, content, mode, rules, s, steps).Reached?
    ensures var t := Exec(g, content, mode, rules, s, steps).state;
            Stalled(g, t) && t.log == s.log && t.absRPos == s.absRPos && t.absWPos == s.absWPos
    decreases |steps|
  {
    if |steps| > 0 {
      SoundStep(g, content, mode, rules, s, steps[0]);
      TidyStep(g, content, mode, s, steps[0]);
      if s.writer.Filling? {
        FreshBlockIsElsewhere(g, content, s);
      }
      StalledStep(g, content, mode, s, steps[0]);
      StalledUntilSeek(g, content, mode, rules, Apply(g, mode, s, steps[0]), steps[1..]);
    }
  }
}
