/** Addressing of the piece cache: torrent positions, pieces, and cells of the ring buffer. */
module Ring {
  import opened Arithmetic

  newtype Byte = x: int | 0 <= x < 256

  /** The constructor arguments of the cache: piece length, ring size in pieces, and the place of
      the file in the torrent. */
  datatype Geometry = Geometry(pieceLen: int, pieces: int, fOffset: int, fSize: int) {

    predicate Valid() {
      pieceLen >= 1 && pieces >= 1 && fOffset >= 0 && fSize >= 1
    }

    function PieceOf(pos: int): int
      requires Valid()
    {
      pos / pieceLen
    }

    function FirstPiece(): (p: int)
      requires Valid()
      ensures p >= 0
    {
      DivBounds(fOffset, pieceLen);
      fOffset / pieceLen
    }

    function LastPiece(): int
      requires Valid()
    {
      (fOffset + fSize - 1) / pieceLen
    }

    function CacheSize(): (n: int)
      requires Valid()
      ensures n >= 1
    {
      ProductPositive(pieceLen, pieces);
      pieceLen * pieces
    }

    function PieceAbsPos(piece: int): int {
      piece * pieceLen
    }

    function FirstPieceOffset(): int
      requires Valid()
    {
      PieceAbsPos(FirstPiece())
    }

    function PosInCacheByAbsPos(pos: int): (cell: int)
      requires Valid()
      ensures 0 <= cell < CacheSize()
    {
      (pos - FirstPieceOffset()) % CacheSize()
    }

    function PosInCacheByPiece(piece: int): int
      requires Valid()
    {
      ((piece - FirstPiece()) % pieces) * pieceLen
    }

    /** The ring cell of byte `x` of a piece. */
    function Cell(piece: int, x: int): (cell: int)
      requires Valid() && 0 <= x < pieceLen
      ensures 0 <= cell < CacheSize()
      ensures cell == PosInCacheByAbsPos(PieceAbsPos(piece) + x)
    {
      PositionsAgree(this, piece, x);
      PosInCacheByPiece(piece) + x
    }
  }

  /** The remainder of a block-aligned address: first the block, then the place inside it. */
  lemma BlockMod(k: int, o: int, len: int, n: int)
    requires len >= 1 && n >= 1 && 0 <= o < len
    ensures len * n >= 1
    ensures (k * len + o) % (len * n) == (k % n) * len + o
    ensures 0 <= (k % n) * len + o < len * n
  {
    ProductPositive(len, n);
    var q, m := k / n, k % n;
    assert k == q * n + m;
    MulMonotone(0, m, len);
    MulMonotone(m + 1, n, len);
    assert (m + 1) * len == m * len + len;
    assert n * len == len * n;
    calc {
      k * len + o;
      (q * n + m) * len + o;
      { Distribute(q * n, m, len); }
      (q * n) * len + m * len + o;
      { Associate(q, n, len); Commute(n, len); }
      q * (len * n) + (m * len + o);
    }
    DivModUnique(k * len + o, len * n, q, m * len + o);
  }

  /** The two ring addressings agree: by piece plus offset, and by torrent position. */
  lemma PositionsAgree(g: Geometry, piece: int, o: int)
    requires g.Valid() && 0 <= o < g.pieceLen
    ensures g.PosInCacheByPiece(piece) + o == g.PosInCacheByAbsPos(g.PieceAbsPos(piece) + o)
    ensures 0 <= g.PosInCacheByPiece(piece) + o < g.CacheSize()
  {
    var k := piece - g.FirstPiece();
    BlockMod(k, o, g.pieceLen, g.pieces);
    Distribute(piece, -g.FirstPiece(), g.pieceLen);
    assert -g.FirstPiece() * g.pieceLen == -(g.FirstPiece() * g.pieceLen);
  }

  /** Advancing by at most one ring length wraps at most once. */
  lemma ModAdvance(a: int, d: int, n: int)
    requires n >= 1 && 0 <= d <= n
    ensures (a + d) % n == if a % n + d < n then a % n + d else a % n + d - n
  {
    var q, r := a / n, a % n;
    assert a == q * n + r;
    if r + d < n {
      DivModUnique(a + d, n, q, r + d);
    } else {
      assert (q + 1) * n == q * n + n;
      if r + d - n < n {
        DivModUnique(a + d, n, q + 1, r + d - n);
      }
    }
  }

  /** Addressing is injective on any ring length of consecutive positions. */
  lemma AddressingIsInjective(g: Geometry, a: int, b: int)
    requires g.Valid() && a <= b < a + g.CacheSize()
    ensures g.PosInCacheByAbsPos(a) == g.PosInCacheByAbsPos(b) <==> a == b
  {
    ModAdvance(a - g.FirstPieceOffset(), b - a, g.CacheSize());
  }

  /** Every position is a byte of exactly one piece. */
  lemma PieceAndOffset(g: Geometry, pos: int) returns (piece: int, x: int)
    requires g.Valid()
    ensures piece == g.PieceOf(pos) && 0 <= x < g.pieceLen && pos == g.PieceAbsPos(piece) + x
  {
    piece, x := pos / g.pieceLen, pos % g.pieceLen;
  }

  lemma PieceOfByte(g: Geometry, piece: int, x: int)
    requires g.Valid() && 0 <= x < g.pieceLen
    ensures g.PieceOf(g.PieceAbsPos(piece) + x) == piece
  {
    DivModUnique(piece * g.pieceLen + x, g.pieceLen, piece, x);
  }

  lemma PieceOrder(g: Geometry, a: int, b: int)
    requires g.Valid() && a < b
    ensures g.PieceAbsPos(a) + g.pieceLen <= g.PieceAbsPos(b)
  {
    MulMonotone(a + 1, b, g.pieceLen);
    assert (a + 1) * g.pieceLen == a * g.pieceLen + g.pieceLen;
  }

  /** Positions below the start of piece `p` lie in earlier pieces, and the others do not. */
  lemma PieceOfBound(g: Geometry, pos: int, p: int)
    requires g.Valid()
    ensures g.PieceOf(pos) < p <==> pos < g.PieceAbsPos(p)
  {
    var q, x := PieceAndOffset(g, pos);
    if q < p {
      PieceOrder(g, q, p);
    } else if p < q {
      PieceOrder(g, p, q);
    }
  }

  /** Cells of pieces less than one ring apart coincide only for the same byte. */
  lemma CellIsInjective(g: Geometry, p: int, x: int, q: int, y: int)
    requires g.Valid() && 0 <= x < g.pieceLen && 0 <= y < g.pieceLen
    requires -g.pieces < p - q < g.pieces
    ensures g.Cell(p, x) == g.Cell(q, y) <==> p == q && x == y
  {
    if p != q || x != y {
      var a, b := g.PieceAbsPos(p) + x, g.PieceAbsPos(q) + y;
      PieceSpread(g, p, q);
      PieceSpread(g, q, p);
      if a <= b {
        AddressingIsInjective(g, a, b);
      } else {
        AddressingIsInjective(g, b, a);
      }
      PieceOfByte(g, p, x);
      PieceOfByte(g, q, y);
    }
  }

  lemma PieceSpread(g: Geometry, p: int, q: int)
    requires g.Valid() && p - q < g.pieces
    ensures g.PieceAbsPos(p) + g.pieceLen <= g.PieceAbsPos(q) + g.CacheSize()
  {
    MulMonotone(p + 1, q + g.pieces, g.pieceLen);
    Distribute(p, 1, g.pieceLen);
    Distribute(q, g.pieces, g.pieceLen);
    assert g.pieces * g.pieceLen == g.pieceLen * g.pieces;
  }

  /** Cells that coincide have the same offset, and so do all cells of the two pieces. */
  lemma CellAlias(g: Geometry, p: int, x: int, q: int, y: int)
    requires g.Valid() && 0 <= x < g.pieceLen && 0 <= y < g.pieceLen
    requires g.Cell(p, x) == g.Cell(q, y)
    ensures x == y && g.Cell(p, 0) == g.Cell(q, 0)
  {
    var i, j := (p - g.FirstPiece()) % g.pieces, (q - g.FirstPiece()) % g.pieces;
    if i < j {
      MulMonotone(i + 1, j, g.pieceLen);
      Distribute(i, 1, g.pieceLen);
    } else if j < i {
      MulMonotone(j + 1, i, g.pieceLen);
      Distribute(j, 1, g.pieceLen);
    }
  }
}
