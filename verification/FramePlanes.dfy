/** The plane layout of a YUV frame in its one buffer. */
module FramePlanes {

  /** Rounding a 32-bit size up to even, stored in 16 bits. */
  function EvenSize(size: int): (even: int)
    ensures 0 <= even < 0x1_0000
  {
    (size + (if size % 2 == 1 then 1 else 0)) % 0x1_0000
  }

  /** The 16-bit field holds an even size that covers the picture exactly up to 65534; from 65535 on
      the stored size is too small. */
  lemma EvenSizeCoversIff(size: int)
    requires size >= 0
    ensures EvenSize(size) % 2 == 0
    ensures size <= EvenSize(size) <==> size <= 65534
    ensures size <= 65534 ==> EvenSize(size) <= size + 1
  {
    var n := size + (if size % 2 == 1 then 1 else 0);
    assert n % 2 == 0;
    if size <= 65534 {
      assert EvenSize(size) == n;
    } else {
      var q := n / 0x1_0000;
      assert EvenSize(size) == n - 0x1_0000 * q == n - 2 * (0x8000 * q);
    }
  }

  function RoundToFour(n: int): int {
    if n % 4 != 0 then n + (4 - n % 4) else n
  }

  /** The pitches and lines of the three planes. */
  function Pitches(width: int): seq<int> {
    var even := EvenSize(width);
    [RoundToFour(even), RoundToFour(even / 2), RoundToFour(even / 2)]
  }

  function PlaneLines(height: int): seq<int> {
    var even := EvenSize(height);
    [even, even / 2, even / 2]
  }

  function Products(a: seq<int>, b: seq<int>): (p: seq<int>)
    requires |a| == |b|
    ensures |p| == |a| && forall i :: 0 <= i < |p| ==> p[i] == a[i] * b[i]
  {
    seq(|a|, i requires 0 <= i < |a| => a[i] * b[i])
  }

  function Sum(s: seq<int>): int {
    if |s| == 0 then 0 else Sum(s[..|s| - 1]) + s[|s| - 1]
  }

  /** The planes follow one another from the start of the buffer. */
  ghost predicate Consecutive(offsets: seq<int>, sizes: seq<int>) {
    && |offsets| == |sizes|
    && (|offsets| > 0 ==> offsets[0] == 0)
    && forall i :: 0 < i < |offsets| ==> offsets[i] == offsets[i - 1] + sizes[i - 1]
  }

  lemma {:induction false} OffsetIsSum(offsets: seq<int>, sizes: seq<int>, i: nat)
    requires Consecutive(offsets, sizes) && i < |offsets|
    ensures offsets[i] == Sum(sizes[..i])
  {
    if i > 0 {
      OffsetIsSum(offsets, sizes, i - 1);
      assert sizes[..i][..i - 1] == sizes[..i - 1];
    }
  }

  lemma {:induction false} SumMonotone(s: seq<int>, i: nat, j: nat)
    requires i <= j <= |s| && forall k :: 0 <= k < |s| ==> s[k] >= 0
    ensures 0 <= Sum(s[..i]) <= Sum(s[..j])
    decreases j
  {
    if j > 0 {
      assert s[..j][..j - 1] == s[..j - 1];
      if i < j {
        SumMonotone(s, i, j - 1);
      } else {
        SumMonotone(s, i - 1, j - 1);
      }
    }
  }

  predicate InPlane(offsets: seq<int>, sizes: seq<int>, i: nat, b: int)
    requires i < |offsets| && i < |sizes|
  {
    offsets[i] <= b < offsets[i] + sizes[i]
  }

  /** Consecutive planes do not overlap and exactly fill a buffer of the sum of their sizes: every
      byte of the buffer is in one plane, no byte outside is in any, and no byte is in two. */
  lemma {:induction false} PlanesPartitionBuffer(offsets: seq<int>, sizes: seq<int>, b: int)
    requires Consecutive(offsets, sizes) && forall k :: 0 <= k < |sizes| ==> sizes[k] >= 0
    ensures 0 <= b < Sum(sizes) <==> exists i :: 0 <= i < |offsets| && InPlane(offsets, sizes, i, b)
    ensures forall i, j :: 0 <= i < j < |offsets| && InPlane(offsets, sizes, i, b) ==> !InPlane(offsets, sizes, j, b)
  {
    assert sizes[..|sizes|] == sizes;
    forall i | 0 <= i < |offsets|
      ensures offsets[i] == Sum(sizes[..i]) && Sum(sizes[..i + 1]) == offsets[i] + sizes[i]
      ensures 0 <= offsets[i] && offsets[i] + sizes[i] <= Sum(sizes)
    {
      OffsetIsSum(offsets, sizes, i);
      assert sizes[..i + 1][..i] == sizes[..i];
      SumMonotone(sizes, 0, i);
      SumMonotone(sizes, i + 1, |sizes|);
    }
    forall i, j | 0 <= i < j < |offsets| ensures offsets[i] + sizes[i] <= offsets[j] {
      SumMonotone(sizes, i + 1, j);
    }
    if 0 <= b < Sum(sizes) {
      var i := FindPlane(sizes, b, |sizes|);
      assert InPlane(offsets, sizes, i, b);
    }
  }

  lemma {:induction false} FindPlane(sizes: seq<int>, b: int, n: nat) returns (i: nat)
    requires n <= |sizes| && 0 <= b < Sum(sizes[..n])
    ensures i < n && Sum(sizes[..i]) <= b < Sum(sizes[..i + 1])
  {
    assert sizes[..n][..n - 1] == sizes[..n - 1];
    if b < Sum(sizes[..n - 1]) {
      i := FindPlane(sizes, b, n - 1);
    } else {
      i := n - 1;
    }
  }

  lemma RoundToFourIsLeast(n: int)
    ensures RoundToFour(n) % 4 == 0 && n <= RoundToFour(n) < n + 4
  {
  }

  /** Pitches are the least multiples of four that cover the even width, half of it for chroma, and
      lines are the even height and half of it; up to 65534 they cover the picture. */
  lemma {:induction false} PitchesCover(width: int, height: int)
    requires width >= 0 && height >= 0
    ensures var p, l, even := Pitches(width), PlaneLines(height), EvenSize(width);
            && p[0] % 4 == 0 && even <= p[0] < even + 4
            && p[1] % 4 == 0 && even <= 2 * p[1] < even + 8 && p[1] == p[2]
            && 2 * l[1] == l[0] && l[1] == l[2]
            && (width <= 65534 ==> width <= p[0] < width + 5 && width <= 2 * p[1] < width + 9)
            && (height <= 65534 <==> height <= l[0])
            && (height <= 65534 ==> l[0] % 2 == 0 && l[0] < height + 2)
  {
    EvenSizeCoversIff(width);
    EvenSizeCoversIff(height);
    RoundToFourIsLeast(EvenSize(width));
    RoundToFourIsLeast(EvenSize(width) / 2);
    Halves(EvenSize(width));
    Halves(EvenSize(height));
  }

  lemma Halves(n: int)
    requires n % 2 == 0
    ensures 2 * (n / 2) == n
  {
  }

  class VideoFrame {
    /** Plane starts, as offsets into the frame buffer. */
    const planes: array<int>
    const planeSizes: array<int>
    var bufferSize: int
    var width: int
    var height: int

    ghost predicate Valid()
      reads this, planes, planeSizes
    {
      && planes != planeSizes && Consecutive(planes[..], planeSizes[..])
      && bufferSize == Sum(planeSizes[..])
    }

    /** A frame for the announced size; reports the pitches and lines it chose. */
    constructor (w: int, h: int, pitches: array<int>, lines: array<int>)
      requires 0 <= w && 0 <= h && pitches != lines && pitches.Length == 3 && lines.Length == 3
      modifies pitches, lines
      ensures Valid() && fresh(planes) && fresh(planeSizes)
      ensures width == EvenSize(w) && height == EvenSize(h)
      ensures pitches[..] == Pitches(w) && lines[..] == PlaneLines(h)
      ensures planeSizes[..] == Products(Pitches(w), PlaneLines(h))
    {
      var evenWidth, evenHeight := EvenSize(w), EvenSize(h);
      pitches[0] := evenWidth;
      if pitches[0] % 4 != 0 {
        pitches[0] := pitches[0] + (4 - pitches[0] % 4);
      }
      pitches[1] := evenWidth / 2;
      if pitches[1] % 4 != 0 {
        pitches[1] := pitches[1] + (4 - pitches[1] % 4);
      }
      pitches[2] := pitches[1];
      lines[0] := evenHeight;
      lines[1] := evenHeight / 2;
      lines[2] := lines[1];
      bufferSize := pitches[0] * lines[0] + pitches[1] * lines[1] + pitches[2] * lines[2];
      width, height := evenWidth, evenHeight;
      planes := new int[3];
      planeSizes := new int[3];
      new;
      assert pitches[..] == Pitches(w) && lines[..] == PlaneLines(h);
      SetPitchesAndLines(pitches, lines);
      ThreeSum(planeSizes[..]);
    }

    /** A copy of another frame's layout. */
    constructor Clone(frame: VideoFrame)
      requires frame.Valid() && frame.planes.Length == 3
      ensures Valid() && fresh(planes) && fresh(planeSizes)
      ensures width == frame.width && height == frame.height && bufferSize == frame.bufferSize
      ensures planes[..] == frame.planes[..] && planeSizes[..] == frame.planeSizes[..]
    {
      bufferSize, width, height := frame.bufferSize, frame.width, frame.height;
      planes := new int[3];
      planeSizes := new int[3];
      new;
      CopySizes(frame.planeSizes);
      SameLayout(planes[..], frame.planes[..], planeSizes[..]);
    }

    method SetPitchesAndLines(pitches: array<int>, lines: array<int>)
      requires planes != planeSizes && planes.Length == planeSizes.Length == pitches.Length == lines.Length
      requires pitches != planes && pitches != planeSizes && lines != planes && lines != planeSizes
      modifies planes, planeSizes
      ensures Consecutive(planes[..], planeSizes[..])
      ensures planeSizes[..] == Products(pitches[..], lines[..])
    {
      for i := 0 to planes.Length
        invariant Consecutive(planes[..i], planeSizes[..i])
        invariant forall j :: 0 <= j < i ==> planeSizes[j] == pitches[j] * lines[j]
        invariant unchanged(pitches) && unchanged(lines)
      {
        planes[i] := if i > 0 then planes[i - 1] + planeSizes[i - 1] else 0;
        planeSizes[i] := pitches[i] * lines[i];
      }
      assert planes[..planes.Length] == planes[..] && planeSizes[..planes.Length] == planeSizes[..];
    }

    method CopySizes(sizes: array<int>)
      requires planes != planeSizes && planes.Length == planeSizes.Length == sizes.Length
      requires sizes != planes && sizes != planeSizes
      modifies planes, planeSizes
      ensures Consecutive(planes[..], planeSizes[..]) && planeSizes[..] == sizes[..]
    {
      for i := 0 to planes.Length
        invariant Consecutive(planes[..i], planeSizes[..i])
        invariant forall j :: 0 <= j < i ==> planeSizes[j] == sizes[j]
      {
        planes[i] := if i > 0 then planes[i - 1] + planeSizes[i - 1] else 0;
        planeSizes[i] := sizes[i];
      }
      assert planes[..planes.Length] == planes[..] && planeSizes[..planes.Length] == planeSizes[..];
    }
  }

  lemma ThreeSum(s: seq<int>)
    requires |s| == 3
    ensures Sum(s) == s[0] + s[1] + s[2]
  {
    assert s[..2][..1] == s[..1];
    assert Sum(s[..1]) == Sum(s[..1][..0]) + s[0];
  }

  /** The layout is determined by the sizes. */
  lemma {:induction false} SameLayout(a: seq<int>, b: seq<int>, sizes: seq<int>)
    requires Consecutive(a, sizes) && Consecutive(b, sizes)
    ensures a == b
  {
    forall i | 0 <= i < |a| ensures a[i] == b[i] {
      OffsetIsSum(a, sizes, i);
      OffsetIsSum(b, sizes, i);
    }
  }
}
