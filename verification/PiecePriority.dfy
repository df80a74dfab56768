/** First and last piece priority over the files of a torrent. */
module PiecePriority {
  import opened Arithmetic

  /** A closed interval of indices. */
  datatype IndexInterval = IndexInterval(first: int, last: int)

  /** A first index and a size. */
  datatype IndexRange = IndexRange(first: int, size: int) {
    function Last(): int {
      first + size - 1
    }
  }

  function RangeOf(interval: IndexInterval): IndexRange {
    IndexRange(interval.first, interval.last - interval.first + 1)
  }

  /** The files lie one after the other in the torrent. */
  datatype Torrent = Torrent(sizes: seq<nat>, pieceLength: int)

  predicate Valid(t: Torrent) {
    t.pieceLength >= 1
  }

  function FileOffset(t: Torrent, i: nat): nat
    requires i <= |t.sizes|
  {
    if i == 0 then 0 else FileOffset(t, i - 1) + t.sizes[i - 1]
  }

  function TotalSize(t: Torrent): nat {
    FileOffset(t, |t.sizes|)
  }

  function PieceCount(t: Torrent): int
    requires Valid(t)
  {
    (TotalSize(t) + t.pieceLength - 1) / t.pieceLength
  }

  /** Integer division of the source, which rounds toward zero. */
  function TruncDiv(a: int, b: int): int
    requires b >= 1
  {
    if a >= 0 then a / b else -(-a / b)
  }

  /** filePieces: a file index outside the torrent gives the empty range. */
  function FilePieces(t: Torrent, i: int): IndexRange
    requires Valid(t)
  {
    if i < 0 || i >= |t.sizes| then IndexRange(0, 0)
    else RangeOf(IndexInterval(TruncDiv(FileOffset(t, i), t.pieceLength),
                               TruncDiv(FileOffset(t, i) + t.sizes[i] - 1, t.pieceLength)))
  }

  /** One percent of the file in pieces, rounded up. */
  function EdgePieces(t: Torrent, i: nat): (n: int)
    requires Valid(t) && i < |t.sizes|
    ensures n >= 0
  {
    DivBounds(t.sizes[i] + 100 * t.pieceLength - 1, 100 * t.pieceLength);
    (t.sizes[i] + 100 * t.pieceLength - 1) / (100 * t.pieceLength)
  }

  /** It is the least number of pieces that hold at least one percent of the file. */
  lemma EdgeIsOnePercent(t: Torrent, i: nat, n: int)
    requires Valid(t) && i < |t.sizes|
    ensures 100 * (n * t.pieceLength) >= t.sizes[i] <==> n >= EdgePieces(t, i)
  {
    var d := 100 * t.pieceLength;
    DivAtLeast(t.sizes[i] + d - 1, d, n + 1);
    Distribute(n, 1, d);
    Commute(100, t.pieceLength);
    Associate(n, t.pieceLength, 100);
  }

  lemma {:induction false} OffsetBound(t: Torrent, i: nat, j: nat)
    requires i <= j <= |t.sizes|
    ensures FileOffset(t, i) <= FileOffset(t, j)
    decreases j - i
  {
    if i < j {
      OffsetBound(t, i, j - 1);
    }
  }

  /** Byte `b` of the torrent belongs to file `i`. */
  predicate InFile(t: Torrent, i: nat, b: int)
    requires i < |t.sizes|
  {
    FileOffset(t, i) <= b < FileOffset(t, i) + t.sizes[i]
  }

  /** For a non-empty file `filePieces` is exactly the set of pieces sharing a byte with the file. */
  lemma FilePiecesAreExact(t: Torrent, i: nat, piece: int)
    requires Valid(t) && i < |t.sizes| && t.sizes[i] > 0
    ensures FilePieces(t, i).first <= piece <= FilePieces(t, i).Last()
            <==> exists b :: InFile(t, i, b) && b / t.pieceLength == piece
  {
    var d, lo := t.pieceLength, FileOffset(t, i);
    var hi := lo + t.sizes[i] - 1;
    if lo / d <= piece <= hi / d {
      DivAtLeast(hi, d, piece);
      DivBounds(lo, d);
      var b := if piece * d < lo then lo else piece * d;
      assert InFile(t, i, b);
      if piece * d < lo {
        DivAtLeast(lo, d, piece);
      } else {
        DivAtLeast(b, d, piece);
        DivAtLeast(b, d, piece + 1);
      }
    }
    forall b | InFile(t, i, b) ensures lo / d <= b / d <= hi / d {
      DivMonotone(lo, b, d);
      DivMonotone(b, hi, d);
    }
  }

  /** For an empty file the range runs from the piece of the byte where it stands to the piece of the byte before:
      one piece inside a piece, none at a boundary. At the very start of a torrent the division rounds up to
      piece 0, if pieces are longer than a byte. */
  lemma EmptyRange(t: Torrent, i: nat, first: int, last: int)
    requires Valid(t) && i < |t.sizes| && t.sizes[i] == 0
    requires first == FilePieces(t, i).first && last == FilePieces(t, i).Last()
    ensures var lo, d := FileOffset(t, i), t.pieceLength;
            && first * d <= lo < first * d + d
            && (if lo > 0 || d == 1 then last * d <= lo - 1 < last * d + d else last == 0)
  {
    RangeEnds(t, i, FileOffset(t, i));
    TruncDivIs(FileOffset(t, i), t.pieceLength);
    TruncDivIs(FileOffset(t, i) - 1, t.pieceLength);
  }

  lemma RangeEnds(t: Torrent, i: nat, lo: int)
    requires Valid(t) && i < |t.sizes| && lo == FileOffset(t, i)
    ensures FilePieces(t, i).first == TruncDiv(lo, t.pieceLength)
    ensures FilePieces(t, i).Last() == TruncDiv(lo + t.sizes[i] - 1, t.pieceLength)
  {
    var first, last := TruncDiv(lo, t.pieceLength), TruncDiv(lo + t.sizes[i] - 1, t.pieceLength);
    assert FilePieces(t, i) == RangeOf(IndexInterval(first, last));
    LastOfRange(first, last);
  }

  /** An interval survives its conversion to a first index and a size. */
  lemma LastOfRange(first: int, last: int)
    ensures RangeOf(IndexInterval(first, last)).first == first && RangeOf(IndexInterval(first, last)).Last() == last
  {
  }

  lemma TruncDivIs(a: int, d: int)
    requires a >= -1 && d >= 1
    ensures a >= 0 || d == 1 ==> TruncDiv(a, d) * d <= a < TruncDiv(a, d) * d + d
    ensures a < 0 && d > 1 ==> TruncDiv(a, d) == 0
  {
    if a >= 0 {
      DivBounds(a, d);
    } else if d > 1 {
      DivModUnique(1, d, 0, 1);
    }
  }

  /** For a file index that the torrent does not have the range is empty. */
  lemma NoSuchFile(t: Torrent, i: int, p: int)
    requires Valid(t) && !(0 <= i < |t.sizes|)
    ensures !(FilePieces(t, i).first <= p <= FilePieces(t, i).Last())
  {
    var r := FilePieces(t, i);
    assert r == IndexRange(0, 0) && r.Last() == -1;
  }

  /** For a non-empty file: its pieces are pieces of the torrent, at least one piece is marked at
      each end, and never more pieces than the file has. */
  lemma EdgesStayInFile(t: Torrent, i: nat)
    requires Valid(t) && i < |t.sizes| && t.sizes[i] > 0
    ensures 0 <= FilePieces(t, i).first <= FilePieces(t, i).Last() < PieceCount(t)
    ensures 1 <= EdgePieces(t, i) <= FilePieces(t, i).size
  {
    var d, lo := t.pieceLength, FileOffset(t, i);
    var hi := lo + t.sizes[i] - 1;
    DivMonotone(lo, hi, d);
    DivBounds(lo, d);
    OffsetBound(t, i + 1, |t.sizes|);
    DivBounds(hi, d);
    LastPieceInside(hi, TotalSize(t), d);
    DivAtLeast(t.sizes[i] + 100 * d - 1, 100 * d, 1);
    EdgeAtMostPieces(lo, t.sizes[i], d);
  }

  lemma LastPieceInside(hi: int, total: int, d: int)
    requires d >= 1 && 0 <= hi < total
    ensures hi / d < (total + d - 1) / d
  {
    DivBounds(hi, d);
    DivAtLeast(total + d - 1, d, hi / d + 1);
  }

  lemma EdgeAtMostPieces(lo: int, size: int, d: int)
    requires d >= 1 && lo >= 0 && size >= 1
    ensures (size + 100 * d - 1) / (100 * d) <= (lo + size - 1) / d - lo / d + 1
  {
    var n := (size + 100 * d - 1) / (100 * d);
    var first, last := lo / d, (lo + size - 1) / d;
    DivBounds(size + 100 * d - 1, 100 * d);
    DivBounds(lo, d);
    DivMonotone(lo, lo + size - 1, d);
    if n >= 2 {
      // (n - 1) * 100 * d < size, so the file reaches beyond piece first + n - 2
      assert n * (100 * d) == 100 * (n * d);
      assert (first + (n - 1)) * d == first * d + (n - 1) * d;
      assert (n - 1) * d == n * d - d;
      MulMonotone(1, n - 1, d);
      DivAtLeast(lo + size - 1, d, first + (n - 1));
    }
  }

  /** Piece `p` is one of the first or last `n` marked pieces of file `i`. */
  predicate Marked(t: Torrent, i: nat, n: int, p: int)
    requires Valid(t) && i < |t.sizes|
  {
    var r := FilePieces(t, i);
    r.first <= p < r.first + n || r.Last() - n < p <= r.Last()
  }

  /** Piece `p` of file `i` lies less than one percent of the file from one of its ends, in pieces and bytes:
      fewer bytes than that stand between its first byte and the start of the file's first piece, or the
      other way round. */
  predicate AtEdge(t: Torrent, i: nat, p: int)
    requires Valid(t) && i < |t.sizes|
  {
    var first, last := FilePieces(t, i).first, FilePieces(t, i).Last();
    && t.sizes[i] > 0 && first <= p <= last
    && (100 * ((p - first) * t.pieceLength) < t.sizes[i] || 100 * ((last - p) * t.pieceLength) < t.sizes[i])
  }

  /** The loop over the two ends of a file marks exactly those pieces, and of an empty file none. */
  lemma MarkedIffAtEdge(t: Torrent, i: nat, p: int)
    requires Valid(t) && i < |t.sizes|
    ensures Marked(t, i, EdgePieces(t, i), p) <==> AtEdge(t, i, p)
  {
    var r, n := FilePieces(t, i), EdgePieces(t, i);
    if t.sizes[i] == 0 {
      NoEdges(t, i);
    } else {
      EdgesStayInFile(t, i);
      EdgeIsOnePercent(t, i, p - r.first);
      EdgeIsOnePercent(t, i, r.Last() - p);
      TwoEnds(r.first, r.Last(), n, p);
    }
  }

  lemma TwoEnds(first: int, last: int, n: int, p: int)
    requires 0 <= n <= last - first + 1
    ensures first <= p < first + n || last - n < p <= last <==>
              first <= p <= last && (p - first < n || last - p < n)
  {
  }

  /** What the loop over the first `n` files leaves at piece `p`: the last wanted file that marks it
      decides, and without one the old priority stays. */
  function NewPriority(t: Torrent, filePriorities: seq<int>, enabled: bool, n: nat, p: int, before: int): int
    requires Valid(t) && n <= |filePriorities| <= |t.sizes|
  {
    if n == 0 then before
    else if filePriorities[n - 1] > 0 && Marked(t, n - 1, EdgePieces(t, n - 1), p)
    then if enabled then 7 else filePriorities[n - 1]
    else NewPriority(t, filePriorities, enabled, n - 1, p, before)
  }

  /** What the priority of piece `p` must be afterwards: the last wanted file at whose edge it lies decides, and
      without one it keeps the old one. */
  ghost predicate IsDecided(t: Torrent, filePriorities: seq<int>, enabled: bool, p: int, before: int, after: int)
    requires Valid(t) && |filePriorities| <= |t.sizes|
  {
    && ((forall i :: 0 <= i < |filePriorities| && filePriorities[i] > 0 ==> !AtEdge(t, i, p)) ==> after == before)
    && (forall i :: 0 <= i < |filePriorities| && filePriorities[i] > 0 && AtEdge(t, i, p)
                    && (forall j :: i < j < |filePriorities| && filePriorities[j] > 0 ==> !AtEdge(t, j, p))
          ==> after == if enabled then 7 else filePriorities[i])
  }

  lemma NewPriorityIsDecided(t: Torrent, filePriorities: seq<int>, enabled: bool, p: int, before: int)
    requires Valid(t) && |filePriorities| <= |t.sizes|
    ensures IsDecided(t, filePriorities, enabled, p, before,
                      NewPriority(t, filePriorities, enabled, |filePriorities|, p, before))
  {
    forall i | 0 <= i < |filePriorities| ensures Marked(t, i, EdgePieces(t, i), p) <==> AtEdge(t, i, p) {
      MarkedIffAtEdge(t, i, p);
    }
    NoMarkKeeps(t, filePriorities, enabled, |filePriorities|, p, before);
    forall i | 0 <= i < |filePriorities| && filePriorities[i] > 0 && AtEdge(t, i, p)
               && (forall j :: i < j < |filePriorities| && filePriorities[j] > 0 ==> !AtEdge(t, j, p))
      ensures NewPriority(t, filePriorities, enabled, |filePriorities|, p, before) == if enabled then 7 else filePriorities[i]
    {
      LastMarkDecides(t, filePriorities, enabled, |filePriorities|, i, p, before);
    }
  }

  lemma {:induction false} NoMarkKeeps(t: Torrent, filePriorities: seq<int>, enabled: bool, n: nat, p: int, before: int)
    requires Valid(t) && n <= |filePriorities| <= |t.sizes|
    ensures (forall i :: 0 <= i < n && filePriorities[i] > 0 ==> !Marked(t, i, EdgePieces(t, i), p)) ==>
              NewPriority(t, filePriorities, enabled, n, p, before) == before
  {
    if n > 0 {
      NoMarkKeeps(t, filePriorities, enabled, n - 1, p, before);
    }
  }

  /** setFirstLastPiecePriorityImpl, for a torrent with metadata. */
  method SetFirstLastPiecePriority(t: Torrent, filePriorities: seq<int>, enabled: bool, piecePriorities: array<int>)
    requires Valid(t) && |filePriorities| <= |t.sizes| && piecePriorities.Length == PieceCount(t)
    modifies piecePriorities
    ensures forall p :: 0 <= p < piecePriorities.Length ==>
              piecePriorities[p] == NewPriority(t, filePriorities, enabled, |filePriorities|, p, old(piecePriorities[p]))
    ensures forall p :: 0 <= p < piecePriorities.Length ==>
              IsDecided(t, filePriorities, enabled, p, old(piecePriorities[p]), piecePriorities[p])
  {
    forall p | 0 <= p < piecePriorities.Length
      ensures IsDecided(t, filePriorities, enabled, p, old(piecePriorities[p]),
                        NewPriority(t, filePriorities, enabled, |filePriorities|, p, old(piecePriorities[p])))
    {
      NewPriorityIsDecided(t, filePriorities, enabled, p, old(piecePriorities[p]));
    }
    for index := 0 to |filePriorities|
      invariant forall p :: 0 <= p < piecePriorities.Length ==>
                  piecePriorities[p] == NewPriority(t, filePriorities, enabled, index, p, old(piecePriorities[p]))
    {
      var filePrio := filePriorities[index];
      if filePrio <= 0 {
        continue;
      }
      MarkFile(t, index, if enabled then 7 else filePrio, piecePriorities);
    }
  }

  /** The inner loop: marks both ends of one file. */
  method MarkFile(t: Torrent, index: nat, newPrio: int, piecePriorities: array<int>)
    requires Valid(t) && index < |t.sizes| && piecePriorities.Length == PieceCount(t)
    modifies piecePriorities
    ensures forall p :: 0 <= p < piecePriorities.Length ==>
              piecePriorities[p] == if Marked(t, index, EdgePieces(t, index), p) then newPrio else old(piecePriorities[p])
  {
    var extremities := FilePieces(t, index);
    var nNumPieces := EdgePieces(t, index);
    if t.sizes[index] > 0 {
      EdgesStayInFile(t, index);
    } else {
      NoEdges(t, index);
    }
    for i := 0 to nNumPieces
      invariant forall p :: 0 <= p < piecePriorities.Length ==>
                  piecePriorities[p] == if Marked(t, index, i, p) then newPrio else old(piecePriorities[p])
    {
      piecePriorities[extremities.first + i] := newPrio;
      piecePriorities[extremities.Last() - i] := newPrio;
    }
  }

  /** An empty file has no piece to mark. */
  lemma NoEdges(t: Torrent, i: nat)
    requires Valid(t) && i < |t.sizes| && t.sizes[i] == 0
    ensures EdgePieces(t, i) == 0
  {
    DivAtLeast(100 * t.pieceLength - 1, 100 * t.pieceLength, 1);
  }

  /** Only pieces of wanted, non-empty files change: any other piece keeps its priority. */
  lemma {:induction false} OtherPiecesUnchanged(t: Torrent, filePriorities: seq<int>, enabled: bool, n: nat, p: int, before: int)
    requires Valid(t) && n <= |filePriorities| <= |t.sizes|
    requires forall i :: 0 <= i < n && filePriorities[i] > 0 && t.sizes[i] > 0 ==>
               !(FilePieces(t, i).first <= p <= FilePieces(t, i).Last())
    ensures NewPriority(t, filePriorities, enabled, n, p, before) == before
  {
    if n > 0 {
      OtherPiecesUnchanged(t, filePriorities, enabled, n - 1, p, before);
      if t.sizes[n - 1] > 0 {
        EdgesStayInFile(t, n - 1);
      } else {
        NoEdges(t, n - 1);
      }
    }
  }

  /** Among the wanted files that mark a piece the last one decides. */
  lemma {:induction false} LastMarkDecides(t: Torrent, filePriorities: seq<int>, enabled: bool, n: nat, i: nat, p: int, before: int)
    requires Valid(t) && i < n <= |filePriorities| <= |t.sizes|
    requires filePriorities[i] > 0 && Marked(t, i, EdgePieces(t, i), p)
    requires forall j :: i < j < n && filePriorities[j] > 0 ==> !Marked(t, j, EdgePieces(t, j), p)
    ensures NewPriority(t, filePriorities, enabled, n, p, before) == if enabled then 7 else filePriorities[i]
  {
    if i < n - 1 {
      LastMarkDecides(t, filePriorities, enabled, n - 1, i, p, before);
    }
  }

  /** The first wanted file. */
  function FirstWanted(filePriorities: seq<int>): (w: nat)
    ensures w <= |filePriorities|
    ensures w < |filePriorities| ==> filePriorities[w] > 0
    ensures forall i :: 0 <= i < w ==> filePriorities[i] <= 0
  {
    if |filePriorities| == 0 || filePriorities[0] > 0 then 0 else 1 + FirstWanted(filePriorities[1..])
  }

  /** A piece's priority as the native handle reports it; `outside` is its answer for a piece the
      torrent does not have. */
  function Answer(piecePriorities: seq<int>, p: int, outside: int): int {
    if 0 <= p < |piecePriorities| then piecePriorities[p] else outside
  }

  /** hasFirstLastPiecePriority, for a torrent with metadata. */
  method HasFirstLastPiecePriority(t: Torrent, filePriorities: seq<int>, piecePriorities: seq<int>, outside: int)
    returns (has: bool)
    requires Valid(t)
    ensures has == Has(t, filePriorities, piecePriorities, outside)
  {
    var i := 0;
    while i < |filePriorities|
      invariant i <= |filePriorities|
      invariant i <= FirstWanted(filePriorities)
    {
      if filePriorities[i] <= 0 {
        i := i + 1;
        continue;
      }
      var extremities := FilePieces(t, i);
      var firstPiecePrio := Answer(piecePriorities, extremities.first, outside);
      var lastPiecePrio := Answer(piecePriorities, extremities.Last(), outside);
      return firstPiecePrio == 7 && lastPiecePrio == 7;
    }
    return false;
  }

  predicate Has(t: Torrent, filePriorities: seq<int>, piecePriorities: seq<int>, outside: int)
    requires Valid(t)
  {
    var w := FirstWanted(filePriorities);
    && w < |filePriorities|
    && Answer(piecePriorities, FilePieces(t, w).first, outside) == 7
    && Answer(piecePriorities, FilePieces(t, w).Last(), outside) == 7
  }

  /** `after` is what setting the priority makes of `before`. */
  ghost predicate IsSet(t: Torrent, filePriorities: seq<int>, enabled: bool, before: seq<int>, after: seq<int>)
    requires Valid(t) && |filePriorities| <= |t.sizes|
  {
    && |before| == |after| == PieceCount(t)
    && forall p :: 0 <= p < |after| ==>
         after[p] == NewPriority(t, filePriorities, enabled, |filePriorities|, p, before[p])
  }

  /** File `j` is wanted and marks piece `p`. */
  predicate Marks(t: Torrent, filePriorities: seq<int>, j: nat, p: int)
    requires Valid(t) && j < |filePriorities| <= |t.sizes|
  {
    filePriorities[j] > 0 && Marked(t, j, EdgePieces(t, j), p)
  }

  /** Some of the first `n` files marks the piece. */
  predicate SomeMarks(t: Torrent, filePriorities: seq<int>, n: nat, p: int)
    requires Valid(t) && n <= |filePriorities| <= |t.sizes|
  {
    exists j :: 0 <= j < n && Marks(t, filePriorities, j, p)
  }

  /** The last of the first `n` files that marks the piece has the top priority itself. */
  predicate LastMarkIsTop(t: Torrent, filePriorities: seq<int>, n: nat, p: int)
    requires Valid(t) && n <= |filePriorities| <= |t.sizes|
  {
    exists i :: 0 <= i < n && filePriorities[i] == 7 && Marks(t, filePriorities, i, p)
                && forall j :: i < j < n ==> !Marks(t, filePriorities, j, p)
  }

  /** When a piece has the top priority after enabling: it had it before, or a wanted file marks it. */
  lemma {:induction false} EnabledTopIff(t: Torrent, filePriorities: seq<int>, n: nat, p: int, before: int)
    requires Valid(t) && n <= |filePriorities| <= |t.sizes|
    ensures NewPriority(t, filePriorities, true, n, p, before) == 7 <==>
              before == 7 || SomeMarks(t, filePriorities, n, p)
  {
    if n > 0 {
      EnabledTopIff(t, filePriorities, n - 1, p, before);
      assert Marks(t, filePriorities, n - 1, p) || !Marks(t, filePriorities, n - 1, p);
    }
  }

  /** And after disabling: the last wanted file that marks it has the top priority itself, or none marks
      it and it had the top priority before. */
  lemma {:induction false} DisabledTopIff(t: Torrent, filePriorities: seq<int>, n: nat, p: int, before: int)
    requires Valid(t) && n <= |filePriorities| <= |t.sizes|
    ensures NewPriority(t, filePriorities, false, n, p, before) == 7 <==>
              LastMarkIsTop(t, filePriorities, n, p) || (before == 7 && !SomeMarks(t, filePriorities, n, p))
  {
    if n > 0 {
      DisabledTopIff(t, filePriorities, n - 1, p, before);
      if Marks(t, filePriorities, n - 1, p) {
        assert LastMarkIsTop(t, filePriorities, n, p) <==> filePriorities[n - 1] == 7;
      } else {
        assert LastMarkIsTop(t, filePriorities, n, p) <==> LastMarkIsTop(t, filePriorities, n - 1, p) by {
          LastMarkStays(t, filePriorities, n, p);
        }
      }
    }
  }

  lemma LastMarkStays(t: Torrent, filePriorities: seq<int>, n: nat, p: int)
    requires Valid(t) && 0 < n <= |filePriorities| <= |t.sizes| && !Marks(t, filePriorities, n - 1, p)
    ensures LastMarkIsTop(t, filePriorities, n, p) <==> LastMarkIsTop(t, filePriorities, n - 1, p)
  {
    if i :| 0 <= i < n - 1 && filePriorities[i] == 7 && Marks(t, filePriorities, i, p)
            && forall j :: i < j < n - 1 ==> !Marks(t, filePriorities, j, p) {
      assert forall j :: i < j < n ==> !Marks(t, filePriorities, j, p);
    }
  }

  /** What a caller can tell of the top priority of piece `p` before the change. */
  predicate EndIsTop(t: Torrent, filePriorities: seq<int>, enabled: bool, before: seq<int>, p: int, outside: int)
    requires Valid(t) && |filePriorities| <= |t.sizes|
  {
    if !(0 <= p < |before|) then outside == 7
    else if enabled then before[p] == 7 || SomeMarks(t, filePriorities, |filePriorities|, p)
    else LastMarkIsTop(t, filePriorities, |filePriorities|, p)
         || (before[p] == 7 && !SomeMarks(t, filePriorities, |filePriorities|, p))
  }

  lemma EndIsTopAfter(t: Torrent, filePriorities: seq<int>, enabled: bool, before: seq<int>, after: seq<int>, p: int, outside: int)
    requires Valid(t) && |filePriorities| <= |t.sizes| && IsSet(t, filePriorities, enabled, before, after)
    ensures Answer(after, p, outside) == 7 <==> EndIsTop(t, filePriorities, enabled, before, p, outside)
  {
    if 0 <= p < |before| {
      EnabledTopIff(t, filePriorities, |filePriorities|, p, before[p]);
      DisabledTopIff(t, filePriorities, |filePriorities|, p, before[p]);
    }
  }

  /** The exact answer of the query after enabling, from what is known before: yes if and only if a file is
      wanted, and the first such file is not empty, or both of its ends had the top priority or are marked
      by some wanted file. */
  lemma EnableThenQuery(t: Torrent, filePriorities: seq<int>, before: seq<int>, after: seq<int>, outside: int)
    requires Valid(t) && |filePriorities| <= |t.sizes| && IsSet(t, filePriorities, true, before, after)
    ensures var w := FirstWanted(filePriorities);
            Has(t, filePriorities, after, outside) <==>
              w < |filePriorities|
              && (t.sizes[w] > 0 ||
                  (EndIsTop(t, filePriorities, true, before, FilePieces(t, w).first, outside)
                   && EndIsTop(t, filePriorities, true, before, FilePieces(t, w).Last(), outside)))
  {
    var w := FirstWanted(filePriorities);
    if w < |filePriorities| {
      var r := FilePieces(t, w);
      EndIsTopAfter(t, filePriorities, true, before, after, r.first, outside);
      EndIsTopAfter(t, filePriorities, true, before, after, r.Last(), outside);
      if t.sizes[w] > 0 {
        EdgesStayInFile(t, w);
        assert Marks(t, filePriorities, w, r.first) && Marks(t, filePriorities, w, r.Last());
      }
    }
  }

  /** The exact answer after disabling: yes if and only if a file is wanted and each end of the first one is
      last marked by a file of top priority, or is not marked and had the top priority before. */
  lemma DisableThenQuery(t: Torrent, filePriorities: seq<int>, before: seq<int>, after: seq<int>, outside: int)
    requires Valid(t) && |filePriorities| <= |t.sizes| && IsSet(t, filePriorities, false, before, after)
    ensures var w := FirstWanted(filePriorities);
            Has(t, filePriorities, after, outside) <==>
              w < |filePriorities|
              && EndIsTop(t, filePriorities, false, before, FilePieces(t, w).first, outside)
              && EndIsTop(t, filePriorities, false, before, FilePieces(t, w).Last(), outside)
  {
    var w := FirstWanted(filePriorities);
    if w < |filePriorities| {
      var r := FilePieces(t, w);
      EndIsTopAfter(t, filePriorities, false, before, after, r.first, outside);
      EndIsTopAfter(t, filePriorities, false, before, after, r.Last(), outside);
    }
  }

  /** Toggling off undoes toggling on for the query: if no file has the top priority itself and the first
      wanted file is not empty, then after disabling the query answers no. */
  lemma DisableUndoesEnable(t: Torrent, filePriorities: seq<int>, before: seq<int>, after: seq<int>, outside: int)
    requires Valid(t) && |filePriorities| <= |t.sizes| && IsSet(t, filePriorities, false, before, after)
    requires forall j :: 0 <= j < |filePriorities| ==> filePriorities[j] != 7
    requires var w := FirstWanted(filePriorities); w < |filePriorities| ==> t.sizes[w] > 0
    ensures !Has(t, filePriorities, after, outside)
  {
    var w := FirstWanted(filePriorities);
    DisableThenQuery(t, filePriorities, before, after, outside);
    if w < |filePriorities| {
      EdgesStayInFile(t, w);
      assert Marks(t, filePriorities, w, FilePieces(t, w).first);
    }
  }

  /** An empty first wanted file inside a piece of an unwanted one: files of 1, 0, 1 and 2 bytes in pieces of
      2 bytes, the second and the last file wanted. The last file is marked, and the query answers no. */
  lemma EmptyFileHidesMarks(t: Torrent, filePriorities: seq<int>, before: seq<int>, after: seq<int>, outside: int)
    requires t == Torrent([1, 0, 1, 2], 2) && filePriorities == [0, 1, 0, 1]
    requires before == [0, 0] && IsSet(t, filePriorities, true, before, after)
    ensures !Has(t, filePriorities, after, outside) && after[FilePieces(t, 3).first] == 7
  {
    FourFiles(t);
    EdgesStayInFile(t, 3);
    NoEdges(t, 1);
    EnableThenQuery(t, filePriorities, before, after, outside);
    assert FirstWanted(filePriorities) == 1;
    forall j | 0 <= j < 4 ensures !Marks(t, filePriorities, j, 0) {
    }
    assert Marks(t, filePriorities, 3, 1);
    EnabledTopIff(t, filePriorities, 4, 1, before[1]);
  }

  lemma FourFiles(t: Torrent)
    requires t == Torrent([1, 0, 1, 2], 2)
    ensures FileOffset(t, 1) == FileOffset(t, 2) == 1 && FileOffset(t, 3) == 2 && PieceCount(t) == 2
    ensures FilePieces(t, 1) == IndexRange(0, 1) && FilePieces(t, 3) == IndexRange(1, 1)
  {
    assert FileOffset(t, 2) == 1;
    assert FileOffset(t, 3) == 2;
    assert FileOffset(t, 4) == 4;
  }
}
