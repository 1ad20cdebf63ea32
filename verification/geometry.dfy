/**
  Pure geometry of the mosaic layout: the mapping between screen coordinates
  (x, y) and grid axes (bound, unbound), the capacity of the bound axis, item
  footprints, pixel frames, insets and the content size.

  Pixel lengths are integers (the unit cell size is a positive number of
  pixels); the casts `Int(a / b)` and `UInt(a / b)` of the source truncate
  toward zero and are modelled by `TruncDiv`. Frames are `real` because the
  centring padding is halved.
*/
module Geometry {

  type Positive = n: int | 1 <= n witness 1

  /** The scroll direction; the bound axis is the other one. */
  datatype Direction = Vertical | Horizontal

  /** A grid position in screen coordinates (a CGPoint holding whole cells). */
  datatype Point = Point(x: int, y: int)

  /** A grid position in axis coordinates. */
  datatype Cell = Cell(bound: int, unbound: int)

  /** An item's footprint in grid cells, as the delegate reports it. */
  datatype GridSize = GridSize(width: Positive, height: Positive)

  /** The pixel size of one grid cell (`cellSize`). */
  datatype UnitSize = UnitSize(width: Positive, height: Positive)

  /** An item's footprint measured along the bound and the unbound axis. */
  datatype Span = Span(bound: Positive, unbound: Positive)

  datatype Insets = Insets(top: int, left: int, bottom: int, right: int)

  datatype Frame = Frame(x: real, y: real, width: real, height: real)

  datatype PixelSize = PixelSize(width: int, height: int)

  const Origin: Point := Point(0, 0)

  const ZeroInsets: Insets := Insets(0, 0, 0, 0)

  // ---------------------------------------------------------------------------
  // Axis mapping

  /** Screen position to (bound, unbound): the bound axis is x when scrolling
      vertically and y when scrolling horizontally. */
  function ToCell(dir: Direction, p: Point): (c: Cell)
    ensures ToPoint(dir, c) == p
  {
    match dir
    case Vertical => Cell(p.x, p.y)
    case Horizontal => Cell(p.y, p.x)
  }

  /** (bound, unbound) back to a screen position. */
  function ToPoint(dir: Direction, c: Cell): Point
  {
    match dir
    case Vertical => Point(c.bound, c.unbound)
    case Horizontal => Point(c.unbound, c.bound)
  }

  lemma CellPointRoundTrip(dir: Direction, c: Cell)
    ensures ToCell(dir, ToPoint(dir, c)) == c
  {
  }

  /** An item's grid size seen along the two axes: the axes are assigned
      as for a point, so a size read as a screen point gives its span as a
      cell. */
  function SpanOf(dir: Direction, size: GridSize): (s: Span)
    ensures ToCell(dir, Point(size.width, size.height)) == Cell(s.bound, s.unbound)
  {
    match dir
    case Vertical => Span(size.width, size.height)
    case Horizontal => Span(size.height, size.width)
  }

  /** The cell `c` belongs to the footprint anchored at `a` with span `s`. */
  predicate Covers(a: Cell, s: Span, c: Cell)
  {
    a.bound <= c.bound < a.bound + s.bound && a.unbound <= c.unbound < a.unbound + s.unbound
  }

  /** The screen point `p` lies in the width x height rectangle anchored at `a`. */
  predicate InScreenRect(a: Point, size: GridSize, p: Point)
  {
    a.x <= p.x < a.x + size.width && a.y <= p.y < a.y + size.height
  }

  /** The footprint walked in screen coordinates is the footprint in axis
      coordinates, whatever the scroll direction. */
  lemma CoversInScreen(dir: Direction, a: Point, size: GridSize, p: Point)
    ensures Covers(ToCell(dir, a), SpanOf(dir, size), ToCell(dir, p)) <==> InScreenRect(a, size, p)
  {
  }

  /** The last cell of a footprint, in screen coordinates. */
  function FarCorner(a: Point, size: GridSize): (p: Point)
    ensures InScreenRect(a, size, p)
    ensures forall q :: InScreenRect(a, size, q) ==> q.x <= p.x && q.y <= p.y
  {
    Point(a.x + size.width - 1, a.y + size.height - 1)
  }

  // ---------------------------------------------------------------------------
  // Integer conversions and capacity

  /** `Int(a / b)` for a positive divisor: division truncating toward zero. */
  function TruncDiv(a: int, b: Positive): (q: int)
    ensures 0 <= a ==> 0 <= q && q * b <= a < q * b + b
    ensures a < 0 ==> q <= 0 && q * b - b < a <= q * b
  {
    if 0 <= a then a / b else -((-a) / b)
  }

  /** The content-rect extent along the bound axis. */
  function BoundExtent(dir: Direction, contentWidth: nat, contentHeight: nat): nat
  {
    match dir
    case Vertical => contentWidth
    case Horizontal => contentHeight
  }

  /** The unit cell's pixel length along the bound axis. */
  function BoundUnit(dir: Direction, unit: UnitSize): Positive
  {
    match dir
    case Vertical => unit.width
    case Horizontal => unit.height
  }

  /** The unit cell's pixel length along the scroll axis. */
  function ScrollUnit(dir: Direction, unit: UnitSize): Positive
  {
    match dir
    case Vertical => unit.height
    case Horizontal => unit.width
  }

  /** `maximumNumberOfCellsInBounds`: how many whole unit cells fit in the
      content rect across the scroll direction, clamped to 1 when none fits. */
  function CellsInBounds(extent: nat, unit: Positive): (r: int)
    ensures 1 <= r
    ensures unit <= extent ==> r * unit <= extent < r * unit + unit
    ensures extent < unit ==> r == 1
  {
    var q := extent / unit;
    if q == 0 then 1 else q
  }

  // ---------------------------------------------------------------------------
  // Frames

  /** The centring padding: half of what is left of the bound extent once
      `cap` unit cells are laid side by side. */
  function Padding(extent: int, cap: int, unit: Positive): (pad: real)
    ensures 2.0 * pad + (cap * unit) as real == extent as real
  {
    (extent - cap * unit) as real / 2.0
  }

  /** `rectForIndexPath` once the anchor is known: the anchor scaled by the
      unit size, shifted by the padding along the bound axis only, sized by
      the item's grid size times the unit size. */
  function FrameAt(dir: Direction, anchor: Point, size: GridSize, unit: UnitSize,
                   contentWidth: nat, contentHeight: nat, cap: int): Frame
  {
    var pad := Padding(BoundExtent(dir, contentWidth, contentHeight), cap, BoundUnit(dir, unit));
    match dir
    case Vertical =>
      Frame((anchor.x * unit.width) as real + pad, (anchor.y * unit.height) as real,
            (size.width * unit.width) as real, (size.height * unit.height) as real)
    case Horizontal =>
      Frame((anchor.x * unit.width) as real, (anchor.y * unit.height) as real + pad,
            (size.width * unit.width) as real, (size.height * unit.height) as real)
  }

  /** `UIEdgeInsetsInsetRect`: the frame shrunk by the insets on each side. */
  function InsetRect(f: Frame, i: Insets): (r: Frame)
    ensures i == ZeroInsets ==> r == f
    ensures 0 <= i.left && 0 <= i.right ==> f.x <= r.x && r.x + r.width <= f.x + f.width
    ensures 0 <= i.top && 0 <= i.bottom ==> f.y <= r.y && r.y + r.height <= f.y + f.height
  {
    Frame(f.x + i.left as real, f.y + i.top as real,
          f.width - (i.left + i.right) as real, f.height - (i.top + i.bottom) as real)
  }

  /** A frame seen along the two axes: across the scroll direction it starts
      at the anchor's bound index in units, shifted by the padding, and is
      as long as the item's bound span in units; along the scroll direction
      it ends where the item's last unbound row ends. */
  lemma FrameOnAxes(dir: Direction, anchor: Point, size: GridSize, unit: UnitSize,
                    contentWidth: nat, contentHeight: nat, cap: int)
    ensures var f := FrameAt(dir, anchor, size, unit, contentWidth, contentHeight, cap);
            var a := ToCell(dir, anchor);
            var s := SpanOf(dir, size);
            var u := BoundUnit(dir, unit);
            && BoundStart(dir, f) == (a.bound * u) as real + Padding(BoundExtent(dir, contentWidth, contentHeight), cap, u)
            && BoundLength(dir, f) == (s.bound * u) as real
            && ScrollStart(dir, f) == (a.unbound * ScrollUnit(dir, unit)) as real
            && ScrollEnd(dir, f) == ((a.unbound + s.unbound) * ScrollUnit(dir, unit)) as real
  {
  }

  /** Where a frame starts along the bound axis, and how long it is there. */
  function BoundStart(dir: Direction, f: Frame): real
  {
    match dir
    case Vertical => f.x
    case Horizontal => f.y
  }

  function BoundLength(dir: Direction, f: Frame): real
  {
    match dir
    case Vertical => f.width
    case Horizontal => f.height
  }

  /** Where a frame starts along the scroll axis. */
  function ScrollStart(dir: Direction, f: Frame): real
  {
    match dir
    case Vertical => f.y
    case Horizontal => f.x
  }

  /** Where a frame ends along the scroll axis. */
  function ScrollEnd(dir: Direction, f: Frame): real
  {
    match dir
    case Vertical => f.y + f.height
    case Horizontal => f.x + f.width
  }

  /** Two frames whose interiors do not intersect. */
  predicate Apart(f: Frame, g: Frame)
  {
    || f.x + f.width <= g.x || g.x + g.width <= f.x
    || f.y + f.height <= g.y || g.y + g.height <= f.y
  }

  /** Centring: an item whose footprint stays within the capacity columns has
      a frame inside the content rect along the bound axis. */
  lemma FrameWithinContent(dir: Direction, anchor: Point, size: GridSize, unit: UnitSize,
                           contentWidth: nat, contentHeight: nat)
    requires BoundUnit(dir, unit) <= BoundExtent(dir, contentWidth, contentHeight)
    requires 0 <= ToCell(dir, anchor).bound
    requires ToCell(dir, anchor).bound + SpanOf(dir, size).bound
             <= CellsInBounds(BoundExtent(dir, contentWidth, contentHeight), BoundUnit(dir, unit))
    ensures var cap := CellsInBounds(BoundExtent(dir, contentWidth, contentHeight), BoundUnit(dir, unit));
            var f := FrameAt(dir, anchor, size, unit, contentWidth, contentHeight, cap);
            0.0 <= BoundStart(dir, f)
            && BoundStart(dir, f) + BoundLength(dir, f) <= BoundExtent(dir, contentWidth, contentHeight) as real
  {
    var extent := BoundExtent(dir, contentWidth, contentHeight);
    var u := BoundUnit(dir, unit);
    var cap := CellsInBounds(extent, u);
    var b := ToCell(dir, anchor).bound;
    var s := SpanOf(dir, size).bound;
    var pad := Padding(extent, cap, u);
    var f := FrameAt(dir, anchor, size, unit, contentWidth, contentHeight, cap);
    MulNonNegative(b, u);
    MulMonotone(b + s, cap, u);
    assert b * u + s * u == (b + s) * u;
    CentredFits(b * u, s * u, cap * u, extent, pad);
    FrameOnAxes(dir, anchor, size, unit, contentWidth, contentHeight, cap);
  }

  /** The linear core of centring: a span inside the first `cu` pixels,
      shifted by half of what is left of the extent, stays inside it. */
  lemma CentredFits(bu: int, su: int, cu: int, extent: int, pad: real)
    requires 0 <= bu && bu + su <= cu <= extent
    requires 2.0 * pad + cu as real == extent as real
    ensures 0.0 <= bu as real + pad && bu as real + pad + su as real <= extent as real
  {
  }

  /** Grid rectangles with no common cell have frames with disjoint interiors:
      scaling by the unit size and shifting by the padding keep them apart. */
  lemma FramesApart(dir: Direction, a1: Point, s1: GridSize, a2: Point, s2: GridSize,
                    unit: UnitSize, contentWidth: nat, contentHeight: nat, cap: int)
    requires forall p :: InScreenRect(a1, s1, p) ==> !InScreenRect(a2, s2, p)
    ensures Apart(FrameAt(dir, a1, s1, unit, contentWidth, contentHeight, cap),
                  FrameAt(dir, a2, s2, unit, contentWidth, contentHeight, cap))
  {
    var common := Point(if a1.x < a2.x then a2.x else a1.x, if a1.y < a2.y then a2.y else a1.y);
    var pad := Padding(BoundExtent(dir, contentWidth, contentHeight), cap, BoundUnit(dir, unit));
    if a1.x + s1.width <= a2.x {
      EdgeBefore(a1.x, s1.width, a2.x, unit.width, pad);
    } else if a2.x + s2.width <= a1.x {
      EdgeBefore(a2.x, s2.width, a1.x, unit.width, pad);
    } else if a1.y + s1.height <= a2.y {
      EdgeBefore(a1.y, s1.height, a2.y, unit.height, pad);
    } else if a2.y + s2.height <= a1.y {
      EdgeBefore(a2.y, s2.height, a1.y, unit.height, pad);
    } else {
      assert InScreenRect(a1, s1, common) && InScreenRect(a2, s2, common);
      assert false;
    }
  }

  /** A footprint ending at or before cell `b` has a scaled far edge at or
      before the scaled edge of `b`, with or without the same padding. */
  lemma EdgeBefore(a: int, span: int, b: int, unit: Positive, pad: real)
    requires a + span <= b
    ensures (a * unit) as real + (span * unit) as real <= (b * unit) as real
    ensures (a * unit) as real + pad + (span * unit) as real <= (b * unit) as real + pad
  {
    MulMonotone(a + span, b, unit);
    assert a * unit + span * unit == (a + span) * unit;
  }

  /** `collectionViewContentSize`: the content rect's extent across the
      scroll direction, and one unit past the furthest cell along it. */
  function ContentSize(dir: Direction, furthest: Point, unit: UnitSize,
                       contentWidth: nat, contentHeight: nat): (r: PixelSize)
    ensures (if dir == Vertical then r.width else r.height) == BoundExtent(dir, contentWidth, contentHeight)
    ensures 0 <= furthest.x && 0 <= furthest.y ==>
              ScrollUnit(dir, unit) <= (if dir == Vertical then r.height else r.width)
  {
    match dir
    case Vertical => PixelSize(contentWidth, (furthest.y + 1) * unit.height)
    case Horizontal => PixelSize((furthest.x + 1) * unit.width, contentHeight)
  }

  /** The content size covers, along the scroll axis, the frame of every item
      whose footprint lies below the furthest cell. */
  lemma ContentCoversFrame(dir: Direction, furthest: Point, anchor: Point, size: GridSize,
                           unit: UnitSize, contentWidth: nat, contentHeight: nat, cap: int)
    requires FarCorner(anchor, size).x <= furthest.x && FarCorner(anchor, size).y <= furthest.y
    ensures var f := FrameAt(dir, anchor, size, unit, contentWidth, contentHeight, cap);
            var c := ContentSize(dir, furthest, unit, contentWidth, contentHeight);
            ScrollEnd(dir, f) <= (if dir == Vertical then c.height else c.width) as real
  {
    MulMonotone(anchor.y + size.height, furthest.y + 1, unit.height);
    MulMonotone(anchor.x + size.width, furthest.x + 1, unit.width);
    assert anchor.y * unit.height + size.height * unit.height == (anchor.y + size.height) * unit.height;
    assert anchor.x * unit.width + size.width * unit.width == (anchor.x + size.width) * unit.width;
  }

  lemma MulMonotone(a: int, b: int, k: Positive)
    requires a <= b
    ensures a * k <= b * k
  {
    assert b * k - a * k == (b - a) * k;
    MulNonNegative(b - a, k);
  }

  lemma MulNonNegative(a: int, k: Positive)
    requires 0 <= a
    ensures 0 <= a * k
  {
  }
}
