# Streaming cache, frame pool and layout arithmetic of qtplayer

A Dafny model of the parts of the player where several mechanisms have to agree, with proofs of what
they promise together. `dafny verify dfyconfig.toml` checks everything.

## What is modelled

**The streaming piece cache** (`Range`, `Overlap`, `Ring`, `Slots`, `Protocol`, `Runs`, `History`,
`Witnesses`, `Storage`).
A source thread writes torrent blocks, in any order, into a ring buffer of pieces; a player thread
reads a contiguous byte stream from it and may seek. `read` and `write` hold the mutex only at their
two ends, so `Protocol` is a step system: a write is begin, one step for each byte stored, commit; a
read is snapshot, one step for each byte copied, commit; a seek is one step. A run is any sequence of
enabled steps, so every interleaving of copies is covered, byte by byte. What is delivered is compared
with a function `content` from torrent positions to bytes, and what the slots claim with the history of
the blocks that were stored (`History`). `Storage` is the same object called from
one thread at a time: a class over an `array`, with the loops of the source, whose methods are equal
to runs of the step system.

**The frame pool** (`FramePool`): every copy and every release of a `shared_ptr` changes an explicit
counter, so that the accounting is a theorem.

**Arithmetic and refinement**: `PiecePriority` (files to pieces, first and last piece marking),
`FileStream` (a buffered file reader against a plain one), `PlaneAlignment` (plane alignment by least
common multiples), `FramePlanes` (plane offsets in a frame buffer), `Session` (three torrent tables
against one status per hash). `Arithmetic` holds the facts on products and quotients they share.

Objects that the source updates in place are classes; each method's `ensures` equates the new state
with a specification function of the old one, and the lemmas are about those functions.

## Assumptions

- `Geometry.Valid`: `pieceLen >= 1`, `pieces >= 1`, `fOffset >= 0`, `fSize >= 1`. Integers are
  unbounded: neither `int` nor `qlonglong` overflow nor a narrowing cast is modelled. `/` and `%` of the
  cache only meet non-negative operands in reachable states; `TruncDiv` in `PiecePriority` rounds toward
  zero where an operand can be negative.
- A cache is used after one `requestSlots(firstPiece())`, as storage_test/FlatPieceMemoryStorageTest.cpp:107
  does. There is one writer; reads and seeks share a thread (src/FlatPieceMemoryStorage.h:88-96).
- The wait of a read (src/FlatPieceMemoryStorage.cpp:32-37) is a guard: a read begins only when
  `absRPos < absWPos`. The wait of a seek (:156) is an `if`: another write may have begun when the seek goes
  on, which only the assertion after it would notice. So a seek may happen at any time here; statements that
  need the assertion to hold ask for `guarded` runs.
- A block is not empty, lies inside its piece and carries the torrent's bytes. It may overlap or repeat
  what is already there, except where a statement asks for fresh blocks (`FreshBlock`, `Tidy`: none of the
  bytes is held) or harmless ones (`HarmlessBlock`, `Calm`: the exact condition under which the count of the
  piece's available bytes can never become wrong). `HarmlessAhead` asks that only of pieces the write
  position has not passed, which is enough for the write position of runs without seeks.
- Both arguments of `lcm` are positive. `GCD` is a macro of a VLC header that is not part of this model;
  Euclid's algorithm stands for it.
- Debug output is on, as nothing in the project's build files turns it off: its arguments are evaluated. With
  fewer than three pieces the writes at src/bittorrent/session.cpp:1786-1788 are out of bounds as well; the
  model lets the call end as it does at :1793.
- The decoder calls `lock` only after `format`, unlocks only what it locked, and an output gives up only
  a frame it holds (`FramePool.Allowed`).

## What turned out not to hold, and exactly when it does

- **The kept list position in `write`.** `write` finds its slot, drops the mutex while copying, and then
  credits the slot through the list iterator found before (src/FlatPieceMemoryStorage.cpp:106-121). A read
  that commits in between and moves the window shifts the list, and the iterator then denotes another
  piece; so does a seek in between. `IteratorSurvivesIffStill` gives the exact condition for one such step,
  `CommitCreditsOwnIff` for everything between a write's beginning and its commit: the right piece is
  credited if and only if the read position is in the same piece at both. Otherwise the commit claims bytes
  for a piece they were not stored for (`ShiftedCommitCreditsAnother`); `IteratorRunDeliversGarbage` is a run
  with true, unrepeated blocks and no seek in which a byte that was never received is delivered. All safety
  results are stated for both lookups: `ByPiece` (look the piece up again) on every interleaving,
  `ByIterator` (the source) on every interleaving in which no read or seek moves the window during a write.
- **`assert(distance != 0)`** (line 57) fails exactly when the ring is full (`CopyPlan`), which happens
  (`FullRingOccurs`); the copy arithmetic is right there too.
- **A seek resets `absWPos`** to the start of the new piece even if its slot already holds bytes (line
  163). An exact write position stays exact if and only if the seek is clean (`SeekIsExactIffClean`). From
  any state, a seek leaves the reader with nothing to read in a complete piece if and only if the piece it
  enters is complete and the write position lies in another piece, or stands at that piece's start already
  (`SeekStallsIff`, `StallOccurs`). Before the next seek nothing but a repeated block for that very piece
  changes that (`StalledThroughoutIff`); no fresh block ever does (`StalledUntilSeek`).
- **`Range` merges touching intervals, not overlapping ones.** The covered set is right for every interval
  (`AddedCovers`), and real gaps survive exactly when the new interval is disjoint
  (`AddedCanonicalIffFresh`). An addition can hide received bytes: `ExactAfterIff` says exactly when the
  count of available bytes is wrong just after it, `HarmlessIffExactForEver` exactly when it can become
  wrong by anything that still arrives. In the cache, a block that overlaps the counted bytes of an
  incomplete piece freezes its slot (`OverlapFreezesSlot`): whatever blocks follow, neither the write
  position nor the reader passes that point before the next seek (`FrozenUntilSeek`). `RepeatFreezes` is
  such a run. With harmless blocks the write position is exact, and without seeks it is enough that blocks
  are harmless for pieces it has not passed (`WritePositionIsExact`).
- **The frame pool** can hand out a frame again between its unlock and its display: exactly when only the
  pool and the lock owned it and all earlier frames are held (`RelockIff`, `RelockBeforeDisplay`); a run in
  which it happens is `RelockOccurs`. The size bound max(1, peak) is for one format call since the last
  cleanup; each further call adds at most one frame.
- **First and last piece priority**: after enabling, the query answers no for an empty first wanted file
  unless both ends of its range had the top priority or are marked by some wanted file (`EnableThenQuery`,
  over the files and the priorities before the change); `EmptyFileHidesMarks` is an instance. An empty file
  at a piece boundary moreover trips the assertion at src/bittorrent/indexrange.h:45; the model goes on as
  the program does without assertions.
- **Frame sizes** are stored in 16 bits: the even size covers the picture if and only if it is at most
  65534 (`EvenSizeCoversIff`).
- **Adding a torrent** that is in no table ends with an exception, and changes nothing, unless it comes from a
  file with more than 3808 pieces. For a link the number of pieces is -1 (src/bittorrent/torrentinfo.cpp:202),
  and the list of priorities for it cannot be made (src/bittorrent/session.cpp:1784); for a file of 3808
  pieces or fewer the debug output reads the list with a bounds check behind its end (:1790-1793). So an
  unknown hash becomes known exactly by a preload or by a larger file (`UnknownStaysIff`), and a link reaches
  the session only after a preload (`LinkNeedsPreload`); `AddThrows` is the shortest instance.
- **A failed add alert** leaves its hash in the adding table, and adding it again is refused
  (`FailedAddBlocksHash`, `FailedAddOccurs`). A hash leaves that table in exactly the runs with a successful
  add alert for it (`AddingStaysIff`). A preloaded link whose handle the library no longer finds gets into
  that table without any request to the library (`LostPreloadBlocksHash`, `AskedIffAdded`).

## Model

| member | source | states |
|---|---|---|
| Ranges.AddedCovers | src/Range.h:29-47 | adding any interval, overlapping ones included, makes the covered bytes exactly the old ones and the new ones, in all four merge cases |
| Ranges.AddedKeepsOrder | src/Range.h:29-47 | adding any interval keeps the list sorted, its intervals non-empty and inside their bounds |
| Ranges.AddedCanonicalIffFresh | src/Range.h:29-47 | a list with real gaps keeps real gaps if and only if the new interval shares no byte with it |
| Ranges.CanonicalIsUnique | src/Range.h:17-21 | two lists with real gaps that cover the same bytes are the same list |
| Ranges.AddAllCovers | src/Range.h:13-16 | any sequence of additions to a list covers exactly the old and the added bytes; fresh, pairwise disjoint intervals keep real gaps |
| Ranges.ArrivalOrderIsIrrelevant | src/Range.h:29-47 | onto any list with real gaps, two orders of the same fresh, pairwise disjoint intervals give the identical list |
| Ranges.AvailableIsGreatest | src/Range.h:23-26 | in a canonical list of non-negative intervals, `[0, n)` is fully covered if and only if n is at most `bytesAvailable` |
| Ranges.AvailableIsCovered | src/Range.h:23-26 | in any list whatever, `bytesAvailable` counts covered bytes only |
| Ranges.ExactIsGreatest | src/Range.h:23-26 | if the byte behind the counted ones is missing, the count is the greatest n with `[0, n)` covered |
| Overlaps.SettledIsExact | src/Range.h:23-26 | a list with real gaps up to the first interval that reaches the end of the piece counts its first received run exactly |
| Overlaps.SettledIffHarmless | src/Range.h:29-47 | an addition keeps such a list such if and only if it is harmless: new, or behind an interval that reaches the end, or reaching the end itself and before all it overlaps |
| Overlaps.ExactAfterIff | src/Range.h:23-47 | the exact condition, on the list and the interval before, for the count to be right just after any addition |
| Overlaps.HarmlessIffExactForEver | src/Range.h:23-47 | an addition is harmless if and only if the count stays right whatever intervals not repeating anything still arrive |
| Overlaps.OverlapFreezes | src/Range.h:29-47 | any addition that overlaps the counted bytes freezes the count |
| Overlaps.FrozenStays | src/Range.h:29-47 | no addition whatever raises a frozen count |
| Overlaps.RepeatHidesBytes | src/Range.h:23-47 | an instance: all of `[0, c)` is covered, and only the repeated bytes count |
| Ranges.Range.AddSegment | src/Range.h:29-47 | binary search, insert or edit, erase and edit leave exactly the specified list |
| Ranges.Range.FindInsertion | src/Range.h:31 | the halving search finds the first interval not below the new one |
| Ranges.Range.Available | src/Range.h:23-26 | the query equals the specification that `AvailableIsGreatest` explains |
| Ring.PositionsAgree | src/FlatPieceMemoryStorage.h:56-70 | the address by piece plus offset is the address by torrent position, and lies in the ring |
| Ring.AddressingIsInjective | src/FlatPieceMemoryStorage.h:64-66 | on any ring length of consecutive positions two positions share a cell only if they are equal |
| Ring.CellIsInjective | src/FlatPieceMemoryStorage.h:64-70 | cells of pieces less than a ring apart coincide only for the same byte of the same piece |
| Ring.CellAlias | src/FlatPieceMemoryStorage.h:68-70 | cells that coincide have the same offset in their pieces, for pieces any distance apart |
| Slots.WindowKeeps | src/FlatPieceMemoryStorage.cpp:191-228 | moving the window keeps the intervals of exactly the pieces in the new window |
| Slots.WindowIsIdempotent | src/FlatPieceMemoryStorage.cpp:191-228 | asking for the same window twice changes nothing the second time |
| Slots.WindowThereAndBack | src/FlatPieceMemoryStorage.cpp:191-228 | moving away and back loses exactly the pieces outside the window in between |
| Slots.WindowLists | src/FlatPieceMemoryStorage.cpp:191-228 | in bytes: a window lists exactly the pieces from its start within the ring's length that do not begin behind the file's last byte |
| Slots.WindowHolds | src/FlatPieceMemoryStorage.cpp:191-228 | moving the window keeps every claimed byte of the pieces in the new window, and claims nothing else |
| Slots.AdvanceIsSafe | src/FlatPieceMemoryStorage.cpp:123-137 | the commit loop never moves the write position back, out of the window, or past a byte that was not received |
| Slots.AdvanceIsExact | src/FlatPieceMemoryStorage.cpp:123-137 | with settled slots the loop, entered at the credited slot, stops at the first missing byte, across pieces completed out of order |
| Slots.AdvanceStops | src/FlatPieceMemoryStorage.cpp:123-137 | the loop never passes a slot whose count stays below the end of its piece |
| Slots.AdvanceClimbs | src/FlatPieceMemoryStorage.cpp:123-137 | exactly where the loop leaves the write position, for any lists: at the count of the first slot from the credited one that is not full, or the window's end, if the write position's piece lies between, and unchanged otherwise |
| Slots.AdvanceAheadIsIdle | src/FlatPieceMemoryStorage.cpp:123-137 | a commit in the slot of a later piece than the write position's never moves the write position |
| Protocol.CopyPlan | src/FlatPieceMemoryStorage.cpp:39-87 | for every distance up to a full ring the three copy paths obtain exactly min(len, absWPos - absRPos) bytes, from the cells of consecutive positions, in agreement with the precomputed formula; the asserted distance is non-zero if and only if the ring is not full |
| Protocol.StartOk | storage_test/FlatPieceMemoryStorageTest.cpp:102-107 | a new cache after its first slot request satisfies the invariant, whatever the ring holds |
| Protocol.AtMostOneRing | src/FlatPieceMemoryStorage.cpp:54-56 | the write position is at most one ring ahead of the read position |
| Protocol.ReadableByte | src/FlatPieceMemoryStorage.cpp:60-84 | every byte between the two positions is in its ring cell and is the torrent's |
| Protocol.WriteByteOk | src/FlatPieceMemoryStorage.cpp:110-116 | each byte stored outside the mutex lies inside the ring and damages nothing that a slot claims or the reader has copied |
| Protocol.WriteCommitOk | src/FlatPieceMemoryStorage.cpp:118-145 | crediting the written slot and moving the write position keeps the invariant, even if the window moved meanwhile |
| Protocol.ReadByteOk | src/FlatPieceMemoryStorage.cpp:60-84 | each byte copied outside the mutex comes from inside the ring and is the torrent's byte at its position, even if commits happened since the snapshot |
| Protocol.ReadCommitOk | src/FlatPieceMemoryStorage.cpp:89-95 | the read's commit keeps the invariant, also while a block is being stored |
| Protocol.SeekOk | src/FlatPieceMemoryStorage.cpp:154-166 | a seek to any position, inside or beyond the file, also while a block is being stored, keeps the invariant |
| Protocol.StepKeepsInv | src/FlatPieceMemoryStorage.cpp:27-167 | every enabled step keeps: slots are exactly the window, claimed bytes are in the ring and true, everything before the write position is received, both copies under way are sound |
| Runs.IteratorSurvivesIffStill | src/FlatPieceMemoryStorage.cpp:106-121 | the list position kept by a write survives a read's commit or a seek if and only if that does not move the window to another piece |
| Runs.CommitCreditsOwnIff | src/FlatPieceMemoryStorage.cpp:106-121 | over any reads and seeks between a write's beginning and its commit, the kept list position denotes the piece that was written if and only if the read position is in the same piece at both |
| Runs.ShiftedCommitCreditsAnother | src/FlatPieceMemoryStorage.cpp:118-121 | otherwise the commit claims the block's bytes for another piece and for no other, and the claim is true only where the ring happens to hold that piece's bytes |
| Runs.RunIsSound | src/FlatPieceMemoryStorage.cpp:27-167 | the invariant over every run: on all interleavings with a fresh lookup, and with the kept position as long as no read or seek moves the window during a write |
| Runs.RunsDeliverTheTorrent | src/FlatPieceMemoryStorage.cpp:27-167 | in every state of every such run all reads so far delivered the torrent's bytes, the slots are exactly those of the pieces from the read position's on that lie within the ring's length and not behind the file's last byte, the write position lies in the window and everything in it before that was received and is in the ring, and the two positions are at most a ring apart |
| Runs.ReadHandsOver | src/FlatPieceMemoryStorage.cpp:86-97 | a read hands over exactly as many bytes as asked for and received at its snapshot, from the read position, and moves the read position behind them |
| Runs.ReadHandsOverItsSnapshot | src/FlatPieceMemoryStorage.cpp:27-98 | from a read's beginning to its commit, over anything written in between, it hands over min(len, available at its beginning) true bytes from where the read position stood |
| Runs.NothingIsStuck | src/FlatPieceMemoryStorage.cpp:27-121 | a read can begin exactly when a byte is available, and a read or a write under way can always go on by exactly one step |
| Runs.SeekFreeRunsStreamTheFile | storage_test/FlatPieceMemoryStorageTest.cpp:173-229 | on every seek-free run the reads one after the other are the file's bytes from its start to the read position |
| Runs.SeekThenStream | src/FlatPieceMemoryStorage.cpp:27-167 | after any such run and a seek, the reads of a seek-free run are the file's bytes from the sought offset on, whatever the cache held |
| Runs.FreshSlotIsKept | src/FlatPieceMemoryStorage.cpp:110-121 | a read that commits while a fresh block is being stored never evicts the block's slot nor touches its intervals |
| Runs.WriterAndReaderAreApart | src/FlatPieceMemoryStorage.cpp:39-87 | no ring cell of a fresh block being stored is a cell of the read under way |
| Runs.FreshRunsKeepApart | src/FlatPieceMemoryStorage.cpp:39-121 | the same in every state of every run with fresh blocks, seeks at any time included; and the slot being written is still listed unless a seek came in between |
| Runs.FreshRunIsTidy | src/FlatPieceMemoryStorage.cpp:100-152 | over runs with fresh blocks slots keep real gaps and a fresh block stays fresh until its commit; its slot stays listed unless a seek comes in between |
| Runs.MissingMeansLongest | src/FlatPieceMemoryStorage.cpp:123-137 | the write position is the end of the longest received run if and only if the byte there is missing |
| Runs.WritePositionIsExact | storage_test/FlatPieceMemoryStorageTest.cpp:231-291 | over every run with fresh or harmless blocks in any order and clean seeks the write position is exactly the end of the longest received run from the first slot's start; without seeks, any blocks may arrive for pieces already passed |
| History.ReadKeepsReceived | src/FlatPieceMemoryStorage.cpp:89-93 | a read's commit keeps every received byte of the pieces that stay in reach, ahead of the write position too, and claims nothing new |
| History.SeekKeepsReceived | src/FlatPieceMemoryStorage.cpp:158-164 | so does a seek |
| History.CommitAddsBlock | src/FlatPieceMemoryStorage.cpp:118-121 | a commit claims exactly the block's bytes in addition, if its piece is in reach |
| History.SlotsAreTheHistory | src/FlatPieceMemoryStorage.cpp:27-167 | in every state of every run, seeks included, a byte is claimed if and only if a block with it was stored since its piece last came into reach |
| History.HeldIffStored | src/FlatPieceMemoryStorage.cpp:27-152 | over seek-free runs, a byte of a piece in reach is claimed if and only if some commit of the run stored a block with it while the piece was in reach |
| History.WritePositionIsLongestStored | storage_test/FlatPieceMemoryStorageTest.cpp:231-291 | where the write position is exact, it is the greatest position in the window such that every byte before it was stored, by the history alone |
| Runs.SeekIsExactIffClean | src/FlatPieceMemoryStorage.cpp:161-164 | a seek leaves an exact write position exact if and only if it stays in the write position's piece or enters a piece that holds nothing at its start |
| Runs.RepeatedCommitMovesNothing | storage_test/FlatPieceMemoryStorageTest.cpp:129-132 | the one commit of a block whose bytes the slot holds changes neither an exact write position nor what is covered |
| Runs.OverlapFreezesSlot | src/FlatPieceMemoryStorage.cpp:120-137 | the commit of a block that overlaps the counted bytes of an incomplete piece freezes its slot, if the slot is settled or the write position is not beyond those bytes |
| Runs.FrozenUntilSeek | src/FlatPieceMemoryStorage.cpp:89-137 | over every seek-free run, whatever blocks arrive, a frozen slot is never evicted, and neither the write position nor the reader passes the frozen count |
| Runs.SeekStallsIff | src/FlatPieceMemoryStorage.cpp:161-164 | from any state a seek leaves the reader stalled if and only if the piece it enters is complete and the write position lies in another piece or at its start |
| Runs.StalledCommitIff | src/FlatPieceMemoryStorage.cpp:120-137 | a stalled reader stays stalled over a commit if and only if that is not for the stalled piece, and exactly then the write position does not rise |
| Runs.StalledThroughoutIff | src/FlatPieceMemoryStorage.cpp:32-37 | over any seek-free run, whatever blocks arrive, a stalled reader stays stalled and reads nothing if and only if no block for its own piece is committed |
| Runs.StalledUntilSeek | src/FlatPieceMemoryStorage.cpp:32-37 | in particular over every run of fresh blocks without a seek |
| Witnesses.FullRingOccurs | src/FlatPieceMemoryStorage.cpp:57 | a run after which the asserted distance is zero and a read is possible |
| Witnesses.IteratorRunDeliversGarbage | src/FlatPieceMemoryStorage.cpp:106-121 | a run with true fresh blocks and no seek, with the kept list position, that delivers a byte never received |
| Witnesses.StallOccurs | src/FlatPieceMemoryStorage.cpp:154-166 | a run after which seeking back into received data stalls the reader |
| Witnesses.RepeatFreezes | src/FlatPieceMemoryStorage.cpp:120-137 | for every one-piece cache and split point: the first part stored twice, then the rest; all is received, and the slot is frozen at the split |
| Storage.WriteIsRun | src/FlatPieceMemoryStorage.cpp:100-152 | a whole write of a listed piece is a run of the step system |
| Storage.ReadIsRun | src/FlatPieceMemoryStorage.cpp:27-98 | a whole read is a run of the step system |
| Storage.AfterReadDelivers | src/FlatPieceMemoryStorage.cpp:27-98 | a whole read delivers min(len, available) true bytes from the read position and moves it behind them |
| Storage.FlatPieceMemoryStorage.constructor | src/FlatPieceMemoryStorage.cpp:9-21 | the initial fields and a ring of the cache size |
| Storage.FlatPieceMemoryStorage.RequestSlots | src/FlatPieceMemoryStorage.cpp:191-228 | for every contiguous slot list the loops end with the specified list; without slots beyond the file it lists exactly the pieces from the start within the ring's length that do not begin behind the file's last byte; listed pieces keep exactly their claims |
| Storage.RequestedIsWindow | src/FlatPieceMemoryStorage.cpp:191-228 | what a request makes of a list without pieces beyond the file is the window |
| Storage.FlatPieceMemoryStorage.LowerBoundSlot | src/FlatPieceMemoryStorage.cpp:104-110 | the halving search finds the first slot not below the piece |
| Storage.FlatPieceMemoryStorage.Write | src/FlatPieceMemoryStorage.cpp:100-152 | a piece in reach: the state after the whole write run, with exactly the block's bytes claimed in addition; another piece: nothing changes |
| Storage.FlatPieceMemoryStorage.CommitBlock | src/FlatPieceMemoryStorage.cpp:120-137 | the credit and the loop over the slots give the specified slots and write position |
| Storage.FlatPieceMemoryStorage.CopyOut | src/FlatPieceMemoryStorage.cpp:60-87 | the copy branches fill the buffer with the planned cells and nothing beyond |
| Storage.FlatPieceMemoryStorage.Read | src/FlatPieceMemoryStorage.cpp:27-98 | the caller's buffer receives the torrent's bytes from the read position, min(len, available) of them, and nothing beyond; what was received for the pieces still in reach is kept; without a byte to read the call waits and changes nothing |
| Storage.FlatPieceMemoryStorage.Seek | src/FlatPieceMemoryStorage.cpp:154-166 | the state after the seek step: the read position is the offset in the file, and what was received for the pieces in reach is kept |
| Storage.OpenStorage | storage_test/FlatPieceMemoryStorageTest.cpp:102-107 | constructing and requesting the first slots gives the start state of the step system |
| FramePool.PoolFrameCount | src/vlcqt/core/VideoStream.cpp:78-88 | a pool frame's counter is one plus its occurrences as locked, rendered or held by an output |
| FramePool.LockIsExclusive | src/vlcqt/core/VideoStream.cpp:78-95 | the frame handed out is held by nobody else at that moment, and the pool grows if and only if all its frames are held |
| FramePool.UnlockOk | src/vlcqt/core/VideoStream.cpp:97-109 | unlocking keeps the accounting and leaves the frame unlocked |
| FramePool.DisplayOk | src/vlcqt/core/VideoStream.cpp:111-124 | showing a frame, the shown one included, keeps the accounting |
| FramePool.DisplayShows | src/vlcqt/core/VideoStream.cpp:111-124 | an index in range is shown, locked or not; nothing else changes, and each frame's owners by exactly the new and the old rendering |
| FramePool.EventEffect | src/vlcqt/core/VideoStream.cpp:53-124 | what each event does to the pool's list, the locked frames, the rendered frame and the outputs' copies |
| FramePool.RenderedIsLastShown | src/vlcqt/core/VideoStream.cpp:69-124 | over every run the rendered frame is the one of the last display in range, unless a cleanup came after |
| FramePool.OrdinaryCycleShows | src/vlcqt/core/VideoStream.cpp:53-124 | format, lock, unlock, display is allowed and shows the frame |
| FramePool.CleanUpOk | src/vlcqt/core/VideoStream.cpp:69-76 | after a cleanup exactly the frames held by outputs are alive, each counted exactly |
| FramePool.RunsAreAccounted | src/vlcqt/core/VideoStream.cpp:53-124 | over every run all counters equal the number of owners, no frame is locked twice, and the pool stays within its bound |
| FramePool.GrowingMeansAllHeld | src/vlcqt/core/VideoStream.cpp:78-95 | when the pool grows, every frame of the grown pool is held |
| FramePool.StepBounded | src/vlcqt/core/VideoStream.cpp:53-95 | every event keeps the pool within max(1, peak) after one format call, and one frame more for each further call |
| FramePool.PeakIsLargest | src/vlcqt/core/VideoStream.cpp:78-95 | the peak in that bound is the largest number of frames held at once since the last cleanup |
| FramePool.HeldAmongIsCount | src/vlcqt/core/VideoStream.cpp:78-88 | where that number counts the pool's frames that somebody else holds, each once |
| FramePool.IndicesAreStable | src/vlcqt/core/VideoStream.cpp:78-124 | until the next cleanup an index returned by lock denotes the same frame |
| FramePool.RelockIff | src/vlcqt/core/VideoStream.cpp:78-109 | in any pool a frame just unlocked is the next one handed out if and only if only the pool and the lock owned it and every earlier frame is held |
| FramePool.RelockBeforeDisplay | src/vlcqt/core/VideoStream.cpp:78-124 | and the frame then shown is locked in exactly that case |
| FramePool.RelockOccurs | src/vlcqt/core/VideoStream.cpp:53-124 | the run format, lock, unlock, lock, display is allowed and shows a locked frame |
| FramePool.VideoStream.FormatCallback | src/vlcqt/core/VideoStream.cpp:53-67 | one new frame owned by the pool alone |
| FramePool.VideoStream.LockCallback | src/vlcqt/core/VideoStream.cpp:78-95 | the scan, and the returned position denotes a frame nobody held |
| FramePool.VideoStream.UnlockCallback | src/vlcqt/core/VideoStream.cpp:97-109 | find and erase, and one owner less; an index out of range changes nothing |
| FramePool.VideoStream.DisplayCallback | src/vlcqt/core/VideoStream.cpp:111-124 | an index in range becomes the rendered frame, with the counters; the other lists stay; an index out of range changes nothing |
| FramePool.VideoStream.RenderFrame | src/vlcqt/core/VideoStream.h:85 | an output's copy of the rendered frame is one more owner |
| FramePool.VideoStream.FormatCleanUpCallback | src/vlcqt/core/VideoStream.cpp:69-76 | all of the stream's own pointers are released one by one |
| PiecePriority.FilePiecesAreExact | src/bittorrent/torrentinfo.cpp:329-344 | for a non-empty file the range is exactly the pieces that share a byte with the file |
| PiecePriority.EmptyRange | src/bittorrent/torrentinfo.cpp:342-343 | for an empty file the range runs from the piece of the byte where it stands to the piece of the byte before |
| PiecePriority.NoSuchFile | src/bittorrent/torrentinfo.cpp:334-337 | for a file index out of range no piece is in the range |
| PiecePriority.EdgesStayInFile | src/bittorrent/torrenthandle.cpp:1212-1232 | for a non-empty file at least one piece is marked at each end, never more than the file has, all inside the torrent |
| PiecePriority.EdgeIsOnePercent | src/bittorrent/torrenthandle.cpp:1212-1232 | the number of marked pieces is the least that holds one percent of the file |
| PiecePriority.MarkedIffAtEdge | src/bittorrent/torrenthandle.cpp:1219-1227 | in bytes: a file's loop marks exactly its pieces that begin within its first percent, or as near to its last piece |
| PiecePriority.LastMarkDecides | src/bittorrent/torrenthandle.cpp:1202-1232 | a piece marked by wanted files gets the top priority when enabling, and the last such file's own priority when disabling |
| PiecePriority.OtherPiecesUnchanged | src/bittorrent/torrenthandle.cpp:1202-1232 | a piece of no wanted, non-empty file keeps its priority |
| PiecePriority.SetFirstLastPiecePriority | src/bittorrent/torrenthandle.cpp:1202-1232 | at each piece the last wanted file at whose edge, in bytes, it lies decides, otherwise it keeps its priority; no write leaves the array |
| PiecePriority.HasFirstLastPiecePriority | src/bittorrent/torrenthandle.cpp:699-716 | the search answers by both ends of the first wanted file |
| PiecePriority.EnabledTopIff | src/bittorrent/torrenthandle.cpp:1202-1232 | a piece has the top priority after enabling if and only if it had it before or a wanted file marks it |
| PiecePriority.DisabledTopIff | src/bittorrent/torrenthandle.cpp:1202-1232 | and after disabling if and only if the last wanted file that marks it has it, or none does and it had it before |
| PiecePriority.EnableThenQuery | src/bittorrent/torrenthandle.cpp:699-716 | the query's exact answer after enabling, from the files and the priorities before: yes whenever the first wanted file is not empty |
| PiecePriority.DisableThenQuery | src/bittorrent/torrenthandle.cpp:1202-1232 | the query's exact answer after disabling, from the files and the priorities before |
| PiecePriority.DisableUndoesEnable | src/bittorrent/torrenthandle.cpp:1202-1232 | with a non-empty first wanted file and no file of top priority, disabling makes the query answer no |
| PiecePriority.EmptyFileHidesMarks | src/bittorrent/torrenthandle.cpp:699-716 | an instance, with an empty file inside a piece, in which a wanted file is marked and the query answers no |
| FileStream.BufferedReadRefinesPlain | src/FileMediaStream.cpp:37-54 | a buffered read hands over the file's bytes at the player's position, moves the position behind them, and for len > 0 hands over nothing exactly at the end of the file |
| FileStream.GivenCount | src/FileMediaStream.cpp:37-54 | how many bytes a read hands over: min(len, unread), or after a refill min(len, buffer size, left in the file) |
| FileStream.ReadsAreContiguous | src/FileMediaStream.cpp:37-54 | any sequence of reads of any lengths hands over the file's bytes from the position on, no gap, no repetition |
| FileStream.SeekThenReads | src/FileMediaStream.cpp:56-67 | after any calls, an accepted seek and reads: the file's bytes from the offset on, and the position behind them |
| FileStream.PartIsPlainRead | src/FileMediaStream.cpp:37-54 | the per-byte description used above is the plain read of that length |
| FileStream.FileMediaStream.Read | src/FileMediaStream.cpp:37-54 | the caller's buffer receives exactly that many of the file's bytes at the position; closed: -1 and nothing changes |
| FileStream.FileMediaStream.Seek | src/FileMediaStream.cpp:56-67 | the buffer is dropped and the position is the offset, or the file's start if the file refuses; closed: -1 |
| PlaneAlignment.GcdDivides | src/vlcqt/core/VideoMemoryStream.cpp:35-38 | the greatest common divisor divides both numbers |
| PlaneAlignment.GcdIsCombination | src/vlcqt/core/VideoMemoryStream.cpp:35-38 | and is an integer combination of them, so every common divisor divides it |
| PlaneAlignment.LcmIsMultiple | src/vlcqt/core/VideoMemoryStream.cpp:35-38 | `a * b / GCD` is a positive common multiple |
| PlaneAlignment.LcmIsLeast | src/vlcqt/core/VideoMemoryStream.cpp:35-38 | every common multiple is a multiple of it |
| PlaneAlignment.ModuloIsLeastCommon | src/vlcqt/core/VideoMemoryStream.cpp:50-61 | for any number of planes, a number is a multiple of every plane's 8 * den if and only if it is a multiple of the accumulated modulus |
| PlaneAlignment.WidthAlignedIsLeast | src/vlcqt/core/VideoMemoryStream.cpp:63-65 | the aligned width is the least number not below the width that fits every plane |
| PlaneAlignment.HeightAlignedIsLeast | src/vlcqt/core/VideoMemoryStream.cpp:63-65 | the aligned height likewise, and a multiple of 32 |
| PlaneAlignment.PitchIsExact | src/vlcqt/core/VideoMemoryStream.cpp:67-81 | the division of each pitch has no remainder, and the pitch covers the visible one |
| PlaneAlignment.LinesCoverVisible | src/vlcqt/core/VideoMemoryStream.cpp:67-81 | each plane has at least its visible lines |
| PlaneAlignment.PlaneShares | src/vlcqt/core/VideoMemoryStream.cpp:67-81 | visible pitch and lines are the plane's share of the picture rounded down; lines are its share of the aligned height with twice the largest denominator added |
| PlaneAlignment.BufferIsSum | src/vlcqt/core/VideoMemoryStream.cpp:79-81 | the buffer size is the sum of the planes' pitch times lines |
| PlaneAlignment.PlanesFillBuffer | src/vlcqt/core/VideoMemoryStream.cpp:67-81 | planes of these sizes one after the other exactly fill the returned size, without overlap |
| PlaneAlignment.BufferHoldsVisible | src/vlcqt/core/VideoMemoryStream.cpp:67-81 | the returned size has room for the visible part of every plane |
| PlaneAlignment.SetPitchAndLines | src/vlcqt/core/VideoMemoryStream.cpp:40-82 | the two loops fill the arrays with these pitches and lines and return the sum of the products of the filled arrays |
| FramePlanes.EvenSizeCoversIff | src/vlcqt/core/YUVVideoFrame.cpp:24-51 | the stored even size covers the picture if and only if the picture is at most 65534 |
| FramePlanes.PitchesCover | src/vlcqt/core/YUVVideoFrame.cpp:24-51 | pitches are the least multiples of four that cover the even width, half of it for chroma; lines are the even height and half of it |
| FramePlanes.PlanesPartitionBuffer | src/vlcqt/core/AbstractVideoFrame.cpp:51-62 | for any number of planes every byte of the buffer is in one plane, no byte outside is in any, none is in two |
| FramePlanes.SameLayout | src/vlcqt/core/AbstractVideoFrame.cpp:64-74 | plane sizes determine the offsets |
| FramePlanes.VideoFrame.constructor | src/vlcqt/core/YUVVideoFrame.cpp:24-51 | planes lie consecutively from the buffer's start and the buffer size is the sum of their sizes |
| FramePlanes.VideoFrame.Clone | src/vlcqt/core/YUVVideoFrame.cpp:55-64 | a clone has the same sizes and identical offsets |
| FramePlanes.VideoFrame.SetPitchesAndLines | src/vlcqt/core/AbstractVideoFrame.cpp:51-62 | the loop makes consecutive planes of size pitch times lines |
| Session.RunsKeepTablesDisjoint | src/bittorrent/session.cpp:1696-1899 | over every run of calls and alerts each info hash is in at most one of the three tables |
| Session.RunsFollowStatus | src/bittorrent/session.cpp:1497-1899 | over every run the tables hold for each hash exactly the status reached by the events about it alone; adding an unknown torrent succeeds for files of more than 3808 pieces only |
| Session.UnknownStaysIff | src/bittorrent/session.cpp:1784-1841 | an unknown hash stays so throughout exactly the runs without an accepted preload of it and without an add of it from a file of more than 3808 pieces |
| Session.LinkNeedsPreload | src/bittorrent/session.cpp:1784 | a hash only ever added by links becomes known only by an accepted preload |
| Session.AddThrows | src/bittorrent/session.cpp:1784-1793 | from empty tables, adding a link or a file of 3808 pieces or fewer ends with an exception and changes nothing |
| Session.AskedIffAdded | src/bittorrent/session.cpp:1841-1843 | the library is asked exactly when an add takes an unknown hash into the adding table |
| Session.AddingStaysIff | src/bittorrent/session.cpp:3269-3334 | a hash being added stays so throughout exactly the runs without a successful add alert for it |
| Session.AddingIsRefused | src/bittorrent/session.cpp:1759-1761 | while a hash is being added, adding or preloading it is refused and changes nothing |
| Session.FailedAddBlocksHash | src/bittorrent/session.cpp:3324-3334 | after an accepted add of an unknown torrent and its failed alert, adding the hash is refused in every run until an add alert for it succeeds |
| Session.LostPreloadBlocksHash | src/bittorrent/session.cpp:1712-1727 | adding a preloaded link whose handle is not found is accepted, asks nothing of the library, and blocks the hash in the same way |
| Session.FailedAddOccurs | src/bittorrent/session.cpp:1761-1841 | the run from empty tables, for a file of more than 3808 pieces: an add, its failed alert, and the same add refused |
| Session.TorrentSession.LoadMetadata | src/bittorrent/session.cpp:1849-1899 | accepts exactly a valid link the library accepts whose hash is in no table, which then loads; no other hash moves |
| Session.TorrentSession.CancelLoadMetadata | src/bittorrent/session.cpp:1509-1521 | a loading hash becomes unknown, no other hash moves; answers whether the library knew it |
| Session.TorrentSession.AddTorrentImpl | src/bittorrent/session.cpp:1696-1845 | true, false or an exception in each status of the hash, for links and files, and the new status; no other hash moves |
| Session.TorrentSession.TakeAdding | src/bittorrent/session.cpp:3269-3277 | moves a hash from adding to the session, if it is there, and nothing else |
| Session.TorrentSession.DeleteTorrent | src/bittorrent/session.cpp:1497-1508 | an active hash becomes unknown, no other hash moves; answers whether it was active |
| Session.TorrentSession.HandleAddTorrentAlert | src/bittorrent/session.cpp:3324-3334 | an adding hash becomes active if the add did not fail, no other hash moves |
| Session.TorrentSession.HandleTorrentRemovedAlert | src/bittorrent/session.cpp:3336-3347 | a loading hash becomes unknown, no other hash moves |
| Session.TorrentSession.HandleMetadataReceivedAlert | src/bittorrent/session.cpp:3367-3377 | a loading hash keeps loading, now with its metadata; no hash moves |

## Left out

- Real threads: condition variables, spurious wake-ups, fairness, and whether a blocked reader wakes. A
  wake-up with `absRPos >= absWPos`, which would trip the assert at src/FlatPieceMemoryStorage.cpp:37, does
  not occur in the model.
- Machine integers: overflow and narrowing casts of `int`, `qlonglong` and `size_t`, the cast of `read`'s
  result included. The 16-bit fields of frame sizes are modelled.
- The dangling list iterator itself: a kept position beyond the end of the list makes the commit step
  impossible in `ByIterator` mode; what the program then does is undefined.
- Seek offsets so large that they become negative when converted: `pos` is a natural number, and
  `pos + fOffset` never falls before the file.
- `Range` over other element types than integers, and its `getSegments` accessor.
- `maxPieces`, `bytesInLastPiece` and the clamping of a read at the end of the file, which the source does
  not do: a read may return later bytes of the last piece.
- Signals (`piecesRequested`, `pieceOutOfRangeReceived`) except the answer of `Write` whether the piece was
  listed, and all debug output.
- Storage.FlatPieceMemoryStorage.Write: calls one thread at a time; the interleaved form is the step system.
- Storage.FlatPieceMemoryStorage.Read: what follows a wait for a byte; the call ends there, for the same
  reason.
- FramePool.RunsAreAccounted: picture buffers, plane pointers, the mutex and the chroma string of a format
  call are not modelled, nor its failure branch; frames are identities with counters.
- FramePlanes.VideoFrame.constructor: plane addresses are offsets into the frame buffer.
- PiecePriority.SetFirstLastPiecePriority: torrents with metadata only; the one percent of a file is the
  exact rational rounded up, where the source uses floating point; sending the priorities to the library is
  not modelled.
- FileStream.FileMediaStream.Read: one open session, without read errors; closing and opening again, which
  keeps the old buffer counters, is not modelled. The buffer size is any positive number.
- Session.TorrentSession.AddTorrentImpl: trackers, limits and the parameters of the library call, except
  whether their list of priorities can be made and read, on which the outcome turns; a handle the library
  does not find is `found == false`; `m_extraLimit` and the queue priorities.
- Session.RunsFollowStatus: the hash a handle reports is the hash it was added under.
- Everything behind libvlc, libtorrent, QML and OpenGL, settings, magnet parsing and file system helpers.
