/** Where the samples of an I420 frame lie in its one data block. */
module I420Layout {
  import opened RefCounting

  const INT_RANGE := 0x8000_0000

  datatype Plane = Y | U | V

  datatype Sample = Sample(plane: Plane, x: int, y: int)

  function HalfUp(n: int): int { (n + 1) / 2 }

  function DataSize(g: Geometry): int {
    g.strideY * g.height + (g.strideU + g.strideV) * HalfUp(g.height)
  }

  /** Half the number, rounded up. */
  lemma HalfUpIs(n: int)
    ensures 2 * HalfUp(n) - 1 <= n <= 2 * HalfUp(n)
  {
  }

  /** At compact strides and for even sizes the block holds three bytes for every two pixels. */
  lemma CompactSize(g: Geometry)
    requires g.width % 2 == 0 && g.height % 2 == 0
    requires g.strideY == g.width && 2 * g.strideU == g.width && g.strideV == g.strideU
    ensures 2 * DataSize(g) == 3 * (g.width * g.height)
    ensures g.width == 640 && g.height == 480 ==> DataSize(g) == 460800
  {
    HalfUpIs(g.height);
    assert g.strideU + g.strideV == g.width;
    assert 2 * HalfUp(g.height) == g.height;
    TwiceHalf(g.width, HalfUp(g.height));
  }

  lemma TwiceHalf(a: int, b: int)
    ensures 2 * (a * b) == a * (2 * b)
  {
  }

  function DataOffset(g: Geometry, plane: Plane): int {
    match plane
    case Y => 0
    case U => g.strideY * g.height
    case V => g.strideY * g.height + g.strideU * HalfUp(g.height)
  }

  function Stride(g: Geometry, plane: Plane): int {
    match plane
    case Y => g.strideY
    case U => g.strideU
    case V => g.strideV
  }

  function Columns(g: Geometry, plane: Plane): int { if plane == Y then g.width else HalfUp(g.width) }

  function Rows(g: Geometry, plane: Plane): int { if plane == Y then g.height else HalfUp(g.height) }

  predicate InRange(g: Geometry, s: Sample) {
    0 <= s.x < Columns(g, s.plane) && 0 <= s.y < Rows(g, s.plane)
  }

  /** The byte of a sample. */
  function Offset(g: Geometry, s: Sample): int {
    DataOffset(g, s.plane) + s.y * Stride(g, s.plane) + s.x
  }

  /** The documented conditions on the strides. */
  predicate WideEnough(g: Geometry) {
    g.strideY >= g.width && g.strideU >= HalfUp(g.width) && g.strideV >= HalfUp(g.width)
  }

  predicate NonEmpty(g: Geometry) {
    g.width > 0 && g.height > 0 && g.strideY >= 0 && g.strideU >= 0 && g.strideV >= 0
  }

  /** Every sample has a byte of its own inside the block. */
  ghost predicate Injective(g: Geometry) {
    && (forall s :: InRange(g, s) ==> 0 <= Offset(g, s) < DataSize(g))
    && forall s, t :: InRange(g, s) && InRange(g, t) && Offset(g, s) == Offset(g, t) ==> s == t
  }

  lemma NonNegative(a: int, b: int)
    requires 0 <= a && 0 <= b
    ensures 0 <= a * b
  {
  }

  lemma RowsApart(y: int, z: int, stride: int)
    requires y < z && 0 <= stride
    ensures y * stride + stride <= z * stride
  {
    NonNegative(z - y - 1, stride);
    assert z * stride - (y * stride + stride) == (z - y - 1) * stride;
  }

  lemma RowsFit(y: int, rows: int, stride: int)
    requires 0 <= y < rows && 0 <= stride
    ensures 0 <= y * stride && y * stride + stride <= rows * stride
  {
    NonNegative(y, stride);
    RowsApart(y, rows, stride);
  }

  /** Where a plane ends. */
  function PlaneEnd(g: Geometry, plane: Plane): int {
    DataOffset(g, plane) + Rows(g, plane) * Stride(g, plane)
  }

  lemma PlanesInOrder(g: Geometry)
    requires NonEmpty(g)
    ensures PlaneEnd(g, Y) == DataOffset(g, U) >= 0
    ensures PlaneEnd(g, U) == DataOffset(g, V) >= DataOffset(g, U)
    ensures PlaneEnd(g, V) == DataSize(g) >= DataOffset(g, V)
  {
    var half := HalfUp(g.height);
    assert half >= 0;
    hide HalfUp;
    NonNegative(g.strideY, g.height);
    NonNegative(g.strideU, half);
    NonNegative(g.strideV, half);
    Distributes(g.strideU, g.strideV, half);
    Commutes(g.strideY, g.height);
    Commutes(g.strideU, half);
    Commutes(g.strideV, half);
  }

  lemma Distributes(a: int, b: int, c: int)
    ensures (a + b) * c == a * c + b * c
  {
  }

  lemma Commutes(a: int, b: int)
    ensures a * b == b * a
  {
  }

  lemma InPlane(g: Geometry, s: Sample)
    requires NonEmpty(g) && WideEnough(g) && InRange(g, s)
    ensures DataOffset(g, s.plane) <= Offset(g, s) < PlaneEnd(g, s.plane)
  {
    RowsFit(s.y, Rows(g, s.plane), Stride(g, s.plane));
  }

  lemma InBlock(g: Geometry, s: Sample)
    requires NonEmpty(g) && WideEnough(g) && InRange(g, s)
    ensures 0 <= Offset(g, s) < DataSize(g)
  {
    hide Offset, DataSize, PlaneEnd;
    PlanesInOrder(g);
    InPlane(g, s);
  }

  lemma SamplesApart(g: Geometry, s: Sample, t: Sample)
    requires NonEmpty(g) && WideEnough(g) && InRange(g, s) && InRange(g, t) && Offset(g, s) == Offset(g, t)
    ensures s == t
  {
    hide DataOffset, PlaneEnd;
    PlanesInOrder(g);
    InPlane(g, s);
    InPlane(g, t);
    assert s.plane == t.plane;
    if s.y < t.y {
      RowsApart(s.y, t.y, Stride(g, s.plane));
    } else if t.y < s.y {
      RowsApart(t.y, s.y, Stride(g, s.plane));
    }
  }

  /** A stride that is too short lets the sample just past it in the last row fall on what follows the plane. */
  lemma ShortStride(g: Geometry, plane: Plane)
    requires NonEmpty(g) && Stride(g, plane) < Columns(g, plane)
    ensures !Injective(g)
  {
    var s := Sample(plane, Stride(g, plane), Rows(g, plane) - 1);
    var next := Sample(if plane == Y then U else V, 0, 0);
    assert InRange(g, s) && InRange(g, next);
    JustPast(g, s);
    FirstSample(g, next);
    PlanesInOrder(g);
    hide DataOffset, DataSize, PlaneEnd, Offset;
    assert plane != V ==> Offset(g, next) == Offset(g, s) && s != next;
    assert plane == V ==> Offset(g, s) == DataSize(g);
  }

  lemma JustPast(g: Geometry, s: Sample)
    requires s.x == Stride(g, s.plane) && s.y == Rows(g, s.plane) - 1
    ensures Offset(g, s) == PlaneEnd(g, s.plane)
  {
    hide DataOffset, Stride, Rows;
    var rows, stride := Rows(g, s.plane), Stride(g, s.plane);
    OneRowMore(rows - 1, stride);
  }

  lemma OneRowMore(y: int, stride: int)
    ensures (y + 1) * stride == y * stride + stride
  {
  }

  lemma FirstSample(g: Geometry, s: Sample)
    requires s.x == 0 && s.y == 0
    ensures Offset(g, s) == DataOffset(g, s.plane)
  {
    hide DataOffset, Stride;
    assert 0 * Stride(g, s.plane) == 0;
  }

  /** The planes never overlap exactly when the strides are as wide as documented. */
  lemma LayoutExactly(g: Geometry)
    requires NonEmpty(g)
    ensures Injective(g) <==> WideEnough(g)
  {
    hide Offset, DataSize, DataOffset, PlaneEnd;
    if WideEnough(g) {
      forall s | InRange(g, s)
        ensures 0 <= Offset(g, s) < DataSize(g)
      {
        InBlock(g, s);
      }
      forall s, t | InRange(g, s) && InRange(g, t) && Offset(g, s) == Offset(g, t)
        ensures s == t
      {
        SamplesApart(g, s, t);
      }
    } else if g.strideY < g.width {
      ShortStride(g, Y);
    } else if g.strideU < HalfUp(g.width) {
      ShortStride(g, U);
    } else {
      ShortStride(g, V);
    }
  }

  /** If the size fits an int, so does everything computed on the way to it and to the planes. */
  lemma NoOverflow(g: Geometry)
    requires NonEmpty(g) && DataSize(g) < INT_RANGE
    ensures 0 <= g.strideY * g.height < INT_RANGE
    ensures 0 <= g.strideU + g.strideV < INT_RANGE
    ensures 0 <= (g.strideU + g.strideV) * HalfUp(g.height) < INT_RANGE
    ensures forall p :: 0 <= DataOffset(g, p) < INT_RANGE
  {
    PlanesInOrder(g);
    RowsFit(0, HalfUp(g.height), g.strideU + g.strideV);
  }
}
