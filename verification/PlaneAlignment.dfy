/** Pitches, lines and buffer size of a picture with any number of planes. */
module PlaneAlignment {
  import opened Arithmetic
  import FramePlanes

  /** Greatest common divisor, by Euclid. */
  function Gcd(a: int, b: int): (d: int)
    requires a >= 0 && b >= 0 && (a > 0 || b > 0)
    ensures d >= 1
    decreases b
  {
    if b == 0 then a else Gcd(b, a % b)
  }

  ghost predicate Divides(d: int, n: int) {
    exists k :: n == k * d
  }

  lemma DividesBy(d: int, n: int, k: int)
    requires n == k * d
    ensures Divides(d, n)
  {
  }

  lemma DividesSum(d: int, a: int, b: int, c: int)
    requires Divides(d, a) && Divides(d, b)
    ensures Divides(d, a + c * b)
  {
    var i :| a == i * d;
    var j :| b == j * d;
    assert a + c * b == (i + c * j) * d by {
      Associate(c, j, d);
      Distribute(i, c * j, d);
    }
    DividesBy(d, a + c * b, i + c * j);
  }

  lemma {:induction false} GcdDivides(a: int, b: int)
    requires a >= 0 && b >= 0 && (a > 0 || b > 0)
    ensures Divides(Gcd(a, b), a) && Divides(Gcd(a, b), b)
    decreases b
  {
    if b == 0 {
      DividesBy(a, a, 1);
      DividesBy(a, 0, 0);
    } else {
      GcdDivides(b, a % b);
      DividesSum(Gcd(a, b), a % b, b, a / b);
      assert a % b + (a / b) * b == a;
    }
  }

  /** Bezout's identity. */
  lemma {:induction false} GcdIsCombination(a: int, b: int) returns (x: int, y: int)
    requires a >= 0 && b >= 0 && (a > 0 || b > 0)
    ensures Gcd(a, b) == x * a + y * b
    decreases b
  {
    if b == 0 {
      x, y := 1, 0;
    } else {
      var u, v := GcdIsCombination(b, a % b);
      var q := a / b;
      x, y := v, u - v * q;
      assert a % b == a - q * b;
      EuclidStep(a, b, q, u, v);
    }
  }

  lemma EuclidStep(a: int, b: int, q: int, u: int, v: int)
    ensures u * b + v * (a - q * b) == v * a + (u - v * q) * b
  {
    Subtract(v, a, q * b);
    Associate(v, q, b);
    Distribute(u, -(v * q), b);
    Negate(v * q, b);
  }

  lemma Negate(a: int, b: int)
    ensures (-a) * b == -(a * b)
  {
  }

  lemma Subtract(v: int, a: int, b: int)
    ensures v * (a - b) == v * a - v * b
  {
  }

  function Lcm(a: int, b: int): int
    requires a >= 1 && b >= 1
  {
    a * b / Gcd(a, b)
  }

  /** `a * b / gcd` is a positive common multiple. */
  lemma LcmIsMultiple(a: int, b: int)
    requires a >= 1 && b >= 1
    ensures Lcm(a, b) >= 1 && Divides(a, Lcm(a, b)) && Divides(b, Lcm(a, b))
  {
    var d := Gcd(a, b);
    GcdDivides(a, b);
    var i :| a == i * d;
    var j :| b == j * d;
    PositiveFactor(i, d);
    PositiveFactor(j, d);
    Associate(a, j, d);
    DivModUnique(a * b, d, a * j, 0);
    DividesBy(a, a * j, j);
    assert a * j == (i * d) * j == i * (d * j) == i * b by {
      Associate(i, d, j);
    }
    DividesBy(b, a * j, i);
    ProductPositive(a, j);
  }

  lemma PositiveFactor(i: int, d: int)
    requires d >= 1 && i * d >= 1
    ensures i >= 1
  {
    if i <= 0 {
      MulMonotone(i, 0, d);
    }
  }

  /** Every common multiple is a multiple of it. */
  lemma LcmIsLeast(a: int, b: int, m: int)
    requires a >= 1 && b >= 1 && Divides(a, m) && Divides(b, m)
    ensures Divides(Lcm(a, b), m)
  {
    var d := Gcd(a, b);
    GcdDivides(a, b);
    var j :| b == j * d;
    Associate(a, j, d);
    DivModUnique(a * b, d, a * j, 0);
    var s :| m == s * a;
    var t :| m == t * b;
    var x, y := GcdIsCombination(a, b);
    Combine(m, a, b, s, t, x, y);
    var k := t * x + s * y;
    assert m * d == k * (a * b);
    Associate(k, a * j, d);
    CancelFactor(m, k * (a * j), d);
    DividesBy(Lcm(a, b), m, k);
  }

  lemma Combine(m: int, a: int, b: int, s: int, t: int, x: int, y: int)
    requires m == s * a && m == t * b
    ensures m * (x * a + y * b) == (t * x + s * y) * (a * b)
  {
    Rotate(t, b, x, a);
    Rotate(s, a, y, b);
    Commute(b, a);
    Distribute(t * x, s * y, a * b);
    var p, q := x * a, y * b;
    Commute(m, p + q);
    Distribute(p, q, m);
    Commute(p, m);
    Commute(q, m);
  }

  lemma Rotate(t: int, b: int, x: int, a: int)
    ensures (t * b) * (x * a) == (t * x) * (a * b)
  {
    Associate(t, b, x * a);
    Associate(b, x, a);
    Commute(b, x);
    Associate(x, b, a);
    Commute(b, a);
    Associate(t, x, a * b);
  }

  lemma CancelFactor(m: int, n: int, d: int)
    requires d >= 1 && m * d == n * d
    ensures m == n
  {
    if m < n {
      MulMonotone(m + 1, n, d);
      Distribute(m, 1, d);
    } else if n < m {
      MulMonotone(n + 1, m, d);
      Distribute(n, 1, d);
    }
  }

  // ---------------------------------------------------------------- the picture

  /** A plane's scale against the picture, as two fractions. */
  datatype Plane = Plane(wNum: int, wDen: int, hNum: int, hDen: int)

  datatype Chroma = Chroma(planes: seq<Plane>, pixelSize: int)

  predicate ValidChroma(desc: Chroma) {
    && desc.pixelSize >= 0
    && forall i :: 0 <= i < |desc.planes| ==>
         var p := desc.planes[i]; p.wNum >= 0 && p.wDen >= 1 && p.hNum >= 0 && p.hDen >= 1
  }

  /** The least `n` that is a multiple of `modulo` and at least `size`. */
  function AlignUp(size: int, modulo: int): int
    requires modulo >= 1
  {
    (size + modulo - 1) / modulo * modulo
  }

  lemma AlignUpIsLeast(size: int, modulo: int)
    requires modulo >= 1
    ensures Divides(modulo, AlignUp(size, modulo)) && size <= AlignUp(size, modulo)
    ensures forall n :: Divides(modulo, n) && size <= n ==> AlignUp(size, modulo) <= n
  {
    var q, r := (size + modulo - 1) / modulo, (size + modulo - 1) % modulo;
    assert size + modulo - 1 == q * modulo + r;
    DividesBy(modulo, AlignUp(size, modulo), q);
    forall n | Divides(modulo, n) && size <= n ensures q * modulo <= n {
      var k :| n == k * modulo;
      if k < q {
        MulMonotone(k + 1, q, modulo);
        Distribute(k, 1, modulo);
      } else {
        MulMonotone(q, k, modulo);
      }
    }
  }

  function WidthDens(desc: Chroma): (dens: seq<int>)
    requires ValidChroma(desc)
    ensures |dens| == |desc.planes| && forall i :: 0 <= i < |dens| ==> dens[i] == desc.planes[i].wDen >= 1
  {
    seq(|desc.planes|, i requires 0 <= i < |desc.planes| => desc.planes[i].wDen)
  }

  function HeightDens(desc: Chroma): (dens: seq<int>)
    requires ValidChroma(desc)
    ensures |dens| == |desc.planes| && forall i :: 0 <= i < |dens| ==> dens[i] == desc.planes[i].hDen >= 1
  {
    seq(|desc.planes|, i requires 0 <= i < |desc.planes| => desc.planes[i].hDen)
  }

  predicate Positive(dens: seq<int>) {
    forall i :: 0 <= i < |dens| ==> dens[i] >= 1
  }

  /** The modulus the first loop accumulates over the first `n` planes. */
  function Modulo(dens: seq<int>, n: nat): (m: int)
    requires Positive(dens) && n <= |dens|
    ensures m >= 1
  {
    if n == 0 then 1
    else
      LcmIsMultiple(Modulo(dens, n - 1), 8 * dens[n - 1]);
      Lcm(Modulo(dens, n - 1), 8 * dens[n - 1])
  }

  /** Every plane's `8 * den` divides `m`. */
  ghost predicate FitsPlanes(dens: seq<int>, n: nat, m: int)
    requires n <= |dens|
  {
    forall i :: 0 <= i < n ==> Divides(8 * dens[i], m)
  }

  lemma DividesTrans(a: int, b: int, c: int)
    requires Divides(a, b) && Divides(b, c)
    ensures Divides(a, c)
  {
    var i :| b == i * a;
    var j :| c == j * b;
    Associate(j, i, a);
    DividesBy(a, c, j * i);
  }

  /** The modulus is the least common multiple of the planes' `8 * den`: a number fits all planes
      exactly when it is a multiple of the modulus. */
  lemma {:induction false} ModuloIsLeastCommon(dens: seq<int>, n: nat, m: int)
    requires Positive(dens) && n <= |dens|
    ensures Divides(Modulo(dens, n), m) <==> FitsPlanes(dens, n, m)
  {
    if n == 0 {
      DividesBy(1, m, m);
    } else {
      var a, b := Modulo(dens, n - 1), 8 * dens[n - 1];
      ModuloIsLeastCommon(dens, n - 1, m);
      LcmIsMultiple(a, b);
      if Divides(Modulo(dens, n), m) {
        DividesTrans(a, Lcm(a, b), m);
        DividesTrans(b, Lcm(a, b), m);
      } else if Divides(a, m) && Divides(b, m) {
        LcmIsLeast(a, b, m);
      }
    }
  }

  function WidthAligned(desc: Chroma, width: int): int
    requires ValidChroma(desc)
  {
    AlignUp(width, Modulo(WidthDens(desc), |desc.planes|))
  }

  function HeightModulo(desc: Chroma): (m: int)
    requires ValidChroma(desc)
    ensures m >= 1
  {
    LcmIsMultiple(Modulo(HeightDens(desc), |desc.planes|), 32);
    Lcm(Modulo(HeightDens(desc), |desc.planes|), 32)
  }

  function HeightAligned(desc: Chroma, height: int): int
    requires ValidChroma(desc)
  {
    AlignUp(height, HeightModulo(desc))
  }

  /** The aligned width is the least number not below the width that fits every plane. */
  lemma WidthAlignedIsLeast(desc: Chroma, width: int)
    requires ValidChroma(desc)
    ensures width <= WidthAligned(desc, width) && FitsPlanes(WidthDens(desc), |desc.planes|, WidthAligned(desc, width))
    ensures forall n :: width <= n && FitsPlanes(WidthDens(desc), |desc.planes|, n) ==> WidthAligned(desc, width) <= n
  {
    var dens, k := WidthDens(desc), |desc.planes|;
    AlignUpIsLeast(width, Modulo(dens, k));
    ModuloIsLeastCommon(dens, k, WidthAligned(desc, width));
    forall n | width <= n && FitsPlanes(dens, k, n) ensures WidthAligned(desc, width) <= n {
      ModuloIsLeastCommon(dens, k, n);
    }
  }

  /** The aligned height is the least such number that is a multiple of 32 as well. */
  lemma HeightAlignedIsLeast(desc: Chroma, height: int)
    requires ValidChroma(desc)
    ensures height <= HeightAligned(desc, height) && Divides(32, HeightAligned(desc, height))
    ensures FitsPlanes(HeightDens(desc), |desc.planes|, HeightAligned(desc, height))
    ensures forall n :: height <= n && Divides(32, n) && FitsPlanes(HeightDens(desc), |desc.planes|, n)
              ==> HeightAligned(desc, height) <= n
  {
    var dens, k := HeightDens(desc), |desc.planes|;
    var m, h := Modulo(dens, k), HeightAligned(desc, height);
    LcmIsMultiple(m, 32);
    AlignUpIsLeast(height, HeightModulo(desc));
    DividesTrans(m, HeightModulo(desc), h);
    DividesTrans(32, HeightModulo(desc), h);
    ModuloIsLeastCommon(dens, k, h);
    forall n | height <= n && Divides(32, n) && FitsPlanes(dens, k, n) ensures h <= n {
      ModuloIsLeastCommon(dens, k, n);
      LcmIsLeast(m, 32, n);
    }
  }

  // ---------------------------------------------------------------- the planes

  function RatioH(desc: Chroma, n: nat): (r: int)
    requires ValidChroma(desc) && n <= |desc.planes|
    ensures r >= 1
    ensures forall i :: 0 <= i < n ==> desc.planes[i].hDen <= r
    ensures r == 1 || exists i :: 0 <= i < n && desc.planes[i].hDen == r
  {
    if n == 0 then 1
    else
      var r := RatioH(desc, n - 1);
      if r < desc.planes[n - 1].hDen then desc.planes[n - 1].hDen else r
  }

  function Pitch(desc: Chroma, width: int, i: nat): int
    requires ValidChroma(desc) && i < |desc.planes|
  {
    WidthAligned(desc, width) * desc.planes[i].wNum / desc.planes[i].wDen * desc.pixelSize
  }

  function VisiblePitch(desc: Chroma, width: int, i: nat): int
    requires ValidChroma(desc) && i < |desc.planes|
  {
    width * desc.planes[i].wNum / desc.planes[i].wDen * desc.pixelSize
  }

  function Lines(desc: Chroma, height: int, i: nat): int
    requires ValidChroma(desc) && i < |desc.planes|
  {
    (HeightAligned(desc, height) + 2 * RatioH(desc, |desc.planes|)) * desc.planes[i].hNum / desc.planes[i].hDen
  }

  function VisibleLines(desc: Chroma, height: int, i: nat): int
    requires ValidChroma(desc) && i < |desc.planes|
  {
    height * desc.planes[i].hNum / desc.planes[i].hDen
  }

  function BufferSize(desc: Chroma, width: int, height: int, n: nat): int
    requires ValidChroma(desc) && n <= |desc.planes|
  {
    if n == 0 then 0
    else BufferSize(desc, width, height, n - 1) + Pitch(desc, width, n - 1) * Lines(desc, height, n - 1)
  }

  lemma ScaleMonotone(a: int, b: int, num: int, den: int)
    requires 0 <= a <= b && num >= 0 && den >= 1
    ensures 0 <= a * num / den <= b * num / den
  {
    MulMonotone(a, b, num);
    MulMonotone(0, a, num);
    DivMonotone(a * num, b * num, den);
    DivMonotone(0, a * num, den);
  }

  /** The division in a pitch leaves no remainder: the pitch is the plane's share of the aligned
      width, and a multiple of 8 pixels of the plane; and it covers the visible part. */
  lemma PitchIsExact(desc: Chroma, width: int, i: nat)
    requires ValidChroma(desc) && i < |desc.planes| && width >= 0
    ensures var p := desc.planes[i];
            exists k :: WidthAligned(desc, width) == k * (8 * p.wDen) && Pitch(desc, width, i) == 8 * k * p.wNum * desc.pixelSize
    ensures Pitch(desc, width, i) >= VisiblePitch(desc, width, i) >= 0
  {
    var p, w := desc.planes[i], WidthAligned(desc, width);
    WidthAlignedIsLeast(desc, width);
    assert Divides(8 * WidthDens(desc)[i], w);
    var k :| w == k * (8 * p.wDen);
    Associate(k, 8, p.wDen);
    Rearrange(k * 8, p.wDen, p.wNum);
    DivModUnique(w * p.wNum, p.wDen, 8 * k * p.wNum, 0);
    ScaleMonotone(width, w, p.wNum, p.wDen);
    MulMonotone(width * p.wNum / p.wDen, w * p.wNum / p.wDen, desc.pixelSize);
    MulMonotone(0, width * p.wNum / p.wDen, desc.pixelSize);
  }

  lemma Rearrange(a: int, den: int, num: int)
    ensures (a * den) * num == (a * num) * den
  {
    Associate(a, den, num);
    Commute(den, num);
    Associate(a, num, den);
  }

  /** Every plane has at least its visible lines. */
  lemma LinesCoverVisible(desc: Chroma, height: int, i: nat)
    requires ValidChroma(desc) && i < |desc.planes| && height >= 0
    ensures Lines(desc, height, i) >= VisibleLines(desc, height, i) >= 0
  {
    HeightAlignedIsLeast(desc, height);
    ScaleMonotone(height, HeightAligned(desc, height) + 2 * RatioH(desc, |desc.planes|),
                  desc.planes[i].hNum, desc.planes[i].hDen);
  }

  /** The buffer has room for the visible part of all planes. */
  lemma {:induction false} BufferHoldsVisible(desc: Chroma, width: int, height: int, n: nat, i: nat)
    requires ValidChroma(desc) && n <= |desc.planes| && i < n && width >= 0 && height >= 0
    ensures 0 <= VisiblePitch(desc, width, i) * VisibleLines(desc, height, i) <= BufferSize(desc, width, height, n)
  {
    PitchIsExact(desc, width, n - 1);
    LinesCoverVisible(desc, height, n - 1);
    ProductMonotone(VisiblePitch(desc, width, n - 1), Pitch(desc, width, n - 1),
                    VisibleLines(desc, height, n - 1), Lines(desc, height, n - 1));
    if i < n - 1 {
      BufferHoldsVisible(desc, width, height, n - 1, i);
    } else {
      BufferNonNegative(desc, width, height, n - 1);
    }
  }

  lemma {:induction false} BufferNonNegative(desc: Chroma, width: int, height: int, n: nat)
    requires ValidChroma(desc) && n <= |desc.planes| && width >= 0 && height >= 0
    ensures BufferSize(desc, width, height, n) >= 0
  {
    if n > 0 {
      BufferNonNegative(desc, width, height, n - 1);
      PitchIsExact(desc, width, n - 1);
      LinesCoverVisible(desc, height, n - 1);
      ProductMonotone(0, Pitch(desc, width, n - 1), 0, Lines(desc, height, n - 1));
    }
  }

  lemma ProductMonotone(a: int, b: int, c: int, d: int)
    requires 0 <= a <= b && 0 <= c <= d
    ensures 0 <= a * c <= b * d
  {
    MulMonotone(a, b, c);
    MulMonotone(c, d, b);
    MulMonotone(0, a, c);
    Commute(b, c);
    Commute(b, d);
  }

  /** `share` is `num / den` of `total`, rounded down. */
  predicate IsShare(total: int, num: int, den: int, share: int) {
    share * den <= total * num < share * den + den
  }

  /** The largest vertical denominator of the planes, at least 1. */
  predicate IsRatio(desc: Chroma, r: int) {
    && r >= 1 && (forall i :: 0 <= i < |desc.planes| ==> desc.planes[i].hDen <= r)
    && (r == 1 || exists i :: 0 <= i < |desc.planes| && desc.planes[i].hDen == r)
  }

  /** What each plane is given: its share of the picture is visible, and its lines are its share of the aligned
      height with two more lines for each step of the coarsest plane. */
  lemma PlaneShares(desc: Chroma, width: int, height: int, i: nat) returns (visible: int, ratio: int)
    requires ValidChroma(desc) && i < |desc.planes|
    ensures var p := desc.planes[i];
            && IsShare(width, p.wNum, p.wDen, visible) && VisiblePitch(desc, width, i) == visible * desc.pixelSize
            && IsShare(height, p.hNum, p.hDen, VisibleLines(desc, height, i))
            && IsRatio(desc, ratio)
            && IsShare(HeightAligned(desc, height) + 2 * ratio, p.hNum, p.hDen, Lines(desc, height, i))
  {
    var p := desc.planes[i];
    visible, ratio := width * p.wNum / p.wDen, RatioH(desc, |desc.planes|);
    DivBounds(width * p.wNum, p.wDen);
    DivBounds(height * p.hNum, p.hDen);
    DivBounds((HeightAligned(desc, height) + 2 * ratio) * p.hNum, p.hDen);
  }

  /** These are the pitches and lines of the first planes. */
  ghost predicate AreFilled(desc: Chroma, width: int, height: int, pitches: seq<int>, lines: seq<int>)
    requires ValidChroma(desc)
  {
    && |pitches| == |lines| <= |desc.planes|
    && forall i :: 0 <= i < |pitches| ==> pitches[i] == Pitch(desc, width, i) && lines[i] == Lines(desc, height, i)
  }

  /** The returned size is the sum of the planes' pitch times lines. */
  lemma {:induction false} BufferIsSum(desc: Chroma, width: int, height: int, pitches: seq<int>, lines: seq<int>)
    requires ValidChroma(desc) && AreFilled(desc, width, height, pitches, lines)
    ensures BufferSize(desc, width, height, |pitches|) == FramePlanes.Sum(FramePlanes.Products(pitches, lines))
    decreases |pitches|
  {
    var n, sizes := |pitches|, FramePlanes.Products(pitches, lines);
    if n > 0 {
      BufferIsSum(desc, width, height, pitches[..n - 1], lines[..n - 1]);
      assert sizes[..n - 1] == FramePlanes.Products(pitches[..n - 1], lines[..n - 1]);
    }
  }

  /** Planes of these sizes, laid one after the other, exactly fill a buffer of the returned size: each byte of
      it is in one plane, and none outside is in any. */
  lemma PlanesFillBuffer(desc: Chroma, width: int, height: int, pitches: seq<int>, lines: seq<int>, offsets: seq<int>, b: int)
    requires ValidChroma(desc) && width >= 0 && height >= 0
    requires AreFilled(desc, width, height, pitches, lines) && |pitches| == |desc.planes|
    requires FramePlanes.Consecutive(offsets, FramePlanes.Products(pitches, lines))
    ensures 0 <= b < BufferSize(desc, width, height, |desc.planes|)
            <==> exists i :: 0 <= i < |offsets| && FramePlanes.InPlane(offsets, FramePlanes.Products(pitches, lines), i, b)
    ensures forall i, j :: 0 <= i < j < |offsets| && FramePlanes.InPlane(offsets, FramePlanes.Products(pitches, lines), i, b)
              ==> !FramePlanes.InPlane(offsets, FramePlanes.Products(pitches, lines), j, b)
  {
    var sizes := FramePlanes.Products(pitches, lines);
    BufferIsSum(desc, width, height, pitches, lines);
    forall i | 0 <= i < |sizes| ensures sizes[i] >= 0 {
      PitchIsExact(desc, width, i);
      LinesCoverVisible(desc, height, i);
      ProductMonotone(0, pitches[i], 0, lines[i]);
    }
    FramePlanes.PlanesPartitionBuffer(offsets, sizes, b);
  }

  /** setPitchAndLines: fills the planes' pitches and lines and returns the buffer size. */
  method SetPitchAndLines(desc: Chroma, width: int, height: int, pitches: array<int>, lines: array<int>,
                          visiblePitches: array?<int>, visibleLines: array?<int>)
    returns (bufferSize: int)
    requires ValidChroma(desc) && width >= 0 && height >= 0
    requires pitches.Length >= |desc.planes| && lines.Length >= |desc.planes|
    requires visiblePitches != null ==> visiblePitches.Length >= |desc.planes|
    requires visibleLines != null ==> visibleLines.Length >= |desc.planes|
    requires pitches != lines && pitches != visiblePitches && pitches != visibleLines
    requires lines != visiblePitches && lines != visibleLines
    requires visiblePitches == visibleLines ==> visiblePitches == null
    modifies pitches, lines, visiblePitches, visibleLines
    ensures forall i :: 0 <= i < |desc.planes| ==> pitches[i] == Pitch(desc, width, i) && lines[i] == Lines(desc, height, i)
    ensures visiblePitches != null ==> forall i :: 0 <= i < |desc.planes| ==> visiblePitches[i] == VisiblePitch(desc, width, i)
    ensures visibleLines != null ==> forall i :: 0 <= i < |desc.planes| ==> visibleLines[i] == VisibleLines(desc, height, i)
    ensures bufferSize == FramePlanes.Sum(FramePlanes.Products(pitches[..|desc.planes|], lines[..|desc.planes|]))
    ensures bufferSize == BufferSize(desc, width, height, |desc.planes|)
  {
    var moduloW, moduloH, ratioH := Moduli(desc);
    LcmIsMultiple(moduloH, 32);
    moduloH := Lcm(moduloH, 32);
    var widthAligned := (width + moduloW - 1) / moduloW * moduloW;
    var heightAligned := (height + moduloH - 1) / moduloH * moduloH;
    var heightExtra := 2 * ratioH;
    bufferSize := 0;
    for i := 0 to |desc.planes|
      invariant forall j :: 0 <= j < i ==> pitches[j] == Pitch(desc, width, j) && lines[j] == Lines(desc, height, j)
      invariant visiblePitches != null ==> forall j :: 0 <= j < i ==> visiblePitches[j] == VisiblePitch(desc, width, j)
      invariant visibleLines != null ==> forall j :: 0 <= j < i ==> visibleLines[j] == VisibleLines(desc, height, j)
      invariant bufferSize == BufferSize(desc, width, height, i)
    {
      FillPlane(desc, i, width, height, widthAligned, heightAligned + heightExtra,
                pitches, lines, visiblePitches, visibleLines);
      bufferSize := bufferSize + pitches[i] * lines[i];
    }
    BufferIsSum(desc, width, height, pitches[..|desc.planes|], lines[..|desc.planes|]);
  }

  /** One round of the second loop. */
  method FillPlane(desc: Chroma, i: nat, width: int, height: int, widthAligned: int, heightPadded: int,
                   pitches: array<int>, lines: array<int>, visiblePitches: array?<int>, visibleLines: array?<int>)
    requires ValidChroma(desc) && i < |desc.planes|
    requires widthAligned == WidthAligned(desc, width)
    requires heightPadded == HeightAligned(desc, height) + 2 * RatioH(desc, |desc.planes|)
    requires i < pitches.Length && i < lines.Length
    requires visiblePitches != null ==> i < visiblePitches.Length
    requires visibleLines != null ==> i < visibleLines.Length
    requires pitches != lines && pitches != visiblePitches && pitches != visibleLines
    requires lines != visiblePitches && lines != visibleLines
    requires visiblePitches == visibleLines ==> visiblePitches == null
    modifies pitches, lines, visiblePitches, visibleLines
    ensures pitches[i] == Pitch(desc, width, i) && lines[i] == Lines(desc, height, i)
    ensures visiblePitches != null ==> visiblePitches[i] == VisiblePitch(desc, width, i)
    ensures visibleLines != null ==> visibleLines[i] == VisibleLines(desc, height, i)
    ensures forall j :: 0 <= j < pitches.Length && j != i ==> pitches[j] == old(pitches[j])
    ensures forall j :: 0 <= j < lines.Length && j != i ==> lines[j] == old(lines[j])
    ensures visiblePitches != null ==>
              forall j :: 0 <= j < visiblePitches.Length && j != i ==> visiblePitches[j] == old(visiblePitches[j])
    ensures visibleLines != null ==>
              forall j :: 0 <= j < visibleLines.Length && j != i ==> visibleLines[j] == old(visibleLines[j])
  {
    var p := desc.planes[i];
    pitches[i] := widthAligned * p.wNum / p.wDen * desc.pixelSize;
    if visiblePitches != null {
      visiblePitches[i] := width * p.wNum / p.wDen * desc.pixelSize;
    }
    lines[i] := heightPadded * p.hNum / p.hDen;
    if visibleLines != null {
      visibleLines[i] := height * p.hNum / p.hDen;
    }
  }

  /** The first loop. */
  method Moduli(desc: Chroma) returns (moduloW: int, moduloH: int, ratioH: int)
    requires ValidChroma(desc)
    ensures moduloW == Modulo(WidthDens(desc), |desc.planes|) && moduloH == Modulo(HeightDens(desc), |desc.planes|)
    ensures ratioH == RatioH(desc, |desc.planes|)
  {
    moduloW, moduloH, ratioH := 1, 1, 1;
    for i := 0 to |desc.planes|
      invariant moduloW == Modulo(WidthDens(desc), i) && moduloH == Modulo(HeightDens(desc), i)
      invariant ratioH == RatioH(desc, i)
    {
      moduloW := Lcm(moduloW, 8 * desc.planes[i].wDen);
      moduloH := Lcm(moduloH, 8 * desc.planes[i].hDen);
      if ratioH < desc.planes[i].hDen {
        ratioH := desc.planes[i].hDen;
      }
    }
  }
}
