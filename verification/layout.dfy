/**
  The mosaic layout object: its occupancy maps, scan cursor, furthest cell,
  insertion cursor and rectangle cache, and the operations that pack items
  onto the grid and answer geometry queries.

  The collection view it lays out is represented by constants: its frame
  size, the content rect left after its content insets, the number of items
  in each section (the data source) and the optional delegate. The delegate's
  optional methods are optional functions.
*/
module Layout {
  import opened Wrappers
  import opened Geometry
  import opened Items
  import opened Packing

  /** `Int.max`, the target row of preemptive rendering. */
  const IntMax: int := 0x7fff_ffff_ffff_ffff

  /** The delegate: an optional grid size per item, optional insets per item. */
  datatype Delegate = Delegate(sizeFor: Option<IndexPath -> GridSize>, insetsFor: Option<IndexPath -> Insets>)

  /** A query rectangle in pixels. */
  datatype Rect = Rect(x: int, y: int, width: int, height: int)

  const RectZero: Rect := Rect(0, 0, 0, 0)

  /** UICollectionViewLayoutAttributes reduced to what the layout sets. */
  datatype Attributes = Attributes(indexPath: IndexPath, frame: Frame)

  /** The packing state as a value: scan cursor, furthest cell, occupancy
      and anchors. */
  datatype PackState = PackState(fos: Point, furthest: Point, owner: Occupancy, anchors: map<IndexPath, Point>)

  function Max(a: int, b: int): int
  {
    if a < b then b else a
  }

  function Abs(n: int): (r: nat)
    ensures r == n || r == -n
  {
    if n < 0 then -n else n
  }

  function PointMax(p: Point, q: Point): (r: Point)
    ensures Dominated(p, r) && Dominated(q, r)
    ensures forall s :: Dominated(p, s) && Dominated(q, s) ==> Dominated(r, s)
  {
    Point(Max(p.x, q.x), Max(p.y, q.y))
  }

  predicate Dominated(p: Point, q: Point)
  {
    p.x <= q.x && p.y <= q.y
  }

  /** The `didSet` observer of `furthestCellPosition`: an assignment of the
      origin is kept as is, any other assignment keeps the component-wise
      maximum of the new and the previous value. */
  function ObserveFurthest(previous: Point, newValue: Point): (r: Point)
    ensures newValue == Origin ==> r == Origin
    ensures newValue != Origin ==> Dominated(previous, r) && Dominated(newValue, r)
    ensures newValue != Origin ==> forall s :: Dominated(previous, s) && Dominated(newValue, s) ==> Dominated(r, s)
  {
    if newValue == Origin then Origin else PointMax(newValue, previous)
  }

  class MosaicLayout {
    // The collection view, as the layout sees it.
    const frameWidth: nat
    const frameHeight: nat
    const contentWidth: nat
    const contentHeight: nat
    const itemCounts: seq<nat>
    const delegate: Option<Delegate>

    // Configuration.
    var preemptivelyRenderLayout: bool
    var scrollDirection: Direction
    var cellSize: UnitSize

    // Packing state.
    var firstOpenSpace: Point
    var furthestCellPosition: Point
    var indexPathByPosition: map<Cell, IndexPath>
    var positionByIndexPath: map<IndexPath, Point>

    // Caches.
    var layoutAttributesCache: set<Attributes>
    var layoutRectCache: Rect
    var indexPathCache: IndexPath

    // -------------------------------------------------------------------------
    // Derived values

    /** `maximumNumberOfCellsInBounds`. */
    function Capacity(): (r: int)
      reads this`scrollDirection, this`cellSize
      ensures 1 <= r
    {
      CellsInBounds(BoundExtent(scrollDirection, contentWidth, contentHeight), BoundUnit(scrollDirection, cellSize))
    }

    function CellOf(p: Point): Cell
      reads this`scrollDirection
    {
      ToCell(scrollDirection, p)
    }

    function FosCell(): Cell
      reads this`scrollDirection, this`firstOpenSpace
    {
      ToCell(scrollDirection, firstOpenSpace)
    }

    /** `sizeForCellAtIndexPath`: the delegate's grid size, 1x1 without one. */
    function SizeFor(ip: IndexPath): GridSize
    {
      if delegate.Some? && delegate.value.sizeFor.Some? then delegate.value.sizeFor.value(ip) else GridSize(1, 1)
    }

    /** The delegate's insets for an item, zero without them. */
    function InsetsFor(ip: IndexPath): Insets
    {
      if delegate.Some? && delegate.value.insetsFor.Some? then delegate.value.insetsFor.value(ip) else ZeroInsets
    }

    function SpanFor(ip: IndexPath): Span
      reads this`scrollDirection
    {
      SpanOf(scrollDirection, SizeFor(ip))
    }

    function AnchorCell(ip: IndexPath): Cell
      requires ip in positionByIndexPath
      reads this`scrollDirection, this`positionByIndexPath
    {
      ToCell(scrollDirection, positionByIndexPath[ip])
    }

    /** `indexPathForPosition`: the owner of the cell at a screen position. */
    function IndexPathForPosition(p: Point): Option<IndexPath>
      reads this`scrollDirection, this`indexPathByPosition
    {
      var c := CellOf(p);
      if c in indexPathByPosition then Some(indexPathByPosition[c]) else None
    }

    /** `collectionViewContentSize`. */
    function ContentSize(): PixelSize
      reads this`scrollDirection, this`cellSize, this`furthestCellPosition
    {
      Geometry.ContentSize(scrollDirection, furthestCellPosition, cellSize, contentWidth, contentHeight)
    }

    /** The anchor `positionForIndexPath` resolves once packing is done: the
        stored one, or the origin when the item has none. */
    static function ResolvedPosition(anchors: map<IndexPath, Point>, ip: IndexPath): Point
    {
      if ip in anchors then anchors[ip] else Origin
    }

    /** `rectForIndexPath` once packing is done, with scroll direction `dir`,
        unit size `unit` and anchors `anchors`. */
    function ResolvedFrame(dir: Direction, unit: UnitSize, anchors: map<IndexPath, Point>, ip: IndexPath): Frame
    {
      FrameAt(dir, ResolvedPosition(anchors, ip), SizeFor(ip), unit, contentWidth, contentHeight,
              CellsInBounds(BoundExtent(dir, contentWidth, contentHeight), BoundUnit(dir, unit)))
    }

    /** `layoutAttributesForItemAtIndexPath` once packing is done. */
    function ItemAttributes(dir: Direction, unit: UnitSize, anchors: map<IndexPath, Point>, ip: IndexPath)
      : Option<Attributes>
    {
      if delegate.None? then None else Some(Attributes(ip, InsetRect(ResolvedFrame(dir, unit, anchors, ip), InsetsFor(ip))))
    }

    /** Without a size method every item is one unit cell: its footprint is
        its anchor cell alone, and its frame is one unit cell wide and high. */
    lemma DefaultSizeIsOneCell(dir: Direction, unit: UnitSize, anchors: map<IndexPath, Point>,
                               ip: IndexPath, p: Point)
      requires delegate.None? || delegate.value.sizeFor.None?
      ensures var a := ResolvedPosition(anchors, ip);
              Covers(ToCell(dir, a), SpanOf(dir, SizeFor(ip)), ToCell(dir, p)) <==> p == a
      ensures ResolvedFrame(dir, unit, anchors, ip).width == unit.width as real
      ensures ResolvedFrame(dir, unit, anchors, ip).height == unit.height as real
    {
      CoversInScreen(dir, ResolvedPosition(anchors, ip), SizeFor(ip), p);
    }

    /** The attributes' frame is the item's frame without an insets method,
        and lies inside it when the insets are not negative. */
    lemma InsetFrame(dir: Direction, unit: UnitSize, anchors: map<IndexPath, Point>, ip: IndexPath)
      requires delegate.Some?
      ensures var f := ResolvedFrame(dir, unit, anchors, ip);
              var g := ItemAttributes(dir, unit, anchors, ip).value.frame;
              var i := InsetsFor(ip);
              && (delegate.value.insetsFor.None? ==> g == f)
              && (0 <= i.left && 0 <= i.right ==> f.x <= g.x && g.x + g.width <= f.x + f.width)
              && (0 <= i.top && 0 <= i.bottom ==> f.y <= g.y && g.y + g.height <= f.y + f.height)
    {
    }

    /** The attributes contributed by one cell of a queried row. */
    function AttributesAt(dir: Direction, unit: UnitSize, owner: Occupancy, anchors: map<IndexPath, Point>, c: Cell)
      : set<Attributes>
    {
      if c in owner && ItemAttributes(dir, unit, anchors, owner[c]).Some?
      then {ItemAttributes(dir, unit, anchors, owner[c]).value}
      else {}
    }

    /** The attributes of bounds [0, b) of row u. */
    function RowAttributes(dir: Direction, unit: UnitSize, owner: Occupancy, anchors: map<IndexPath, Point>,
                           u: int, b: int): set<Attributes>
      decreases b
    {
      if b <= 0 then {} else RowAttributes(dir, unit, owner, anchors, u, b - 1) + AttributesAt(dir, unit, owner, anchors, Cell(b - 1, u))
    }

    /** The attributes of rows [start, end), bounds [0, capacity). */
    function RowsAttributes(dir: Direction, unit: UnitSize, owner: Occupancy, anchors: map<IndexPath, Point>,
                            start: int, end: int): set<Attributes>
      decreases end - start
    {
      if end <= start then {}
      else RowsAttributes(dir, unit, owner, anchors, start, end - 1)
           + RowAttributes(dir, unit, owner, anchors, end - 1,
                           CellsInBounds(BoundExtent(dir, contentWidth, contentHeight), BoundUnit(dir, unit)))
    }

    /** The first row of a query rectangle. */
    static function QueryStart(dir: Direction, unit: UnitSize, rect: Rect): int
    {
      match dir
      case Vertical => TruncDiv(rect.y, unit.height)
      case Horizontal => TruncDiv(rect.x, unit.width)
    }

    /** `UInt(length / unit)` is defined: the quotient is not negative. */
    static predicate QueryLengthDefined(dir: Direction, unit: UnitSize, rect: Rect)
    {
      match dir
      case Vertical => 0 <= TruncDiv(rect.height, unit.height)
      case Horizontal => 0 <= TruncDiv(rect.width, unit.width)
    }

    /** The number of rows of a query: one more when scrolling horizontally. */
    static function QueryLength(dir: Direction, unit: UnitSize, rect: Rect): int
    {
      match dir
      case Vertical => TruncDiv(rect.height, unit.height)
      case Horizontal => TruncDiv(rect.width, unit.width) + 1
    }

    /** The first row of a query holds the rectangle's leading edge along
        the scroll axis, the quotient truncated toward zero. */
    static lemma QueryStartOfRect(dir: Direction, unit: UnitSize, rect: Rect)
      ensures var offset := if dir == Vertical then rect.y else rect.x;
              var u := ScrollUnit(dir, unit);
              var start := QueryStart(dir, unit, rect);
              && (0 <= offset ==> start * u <= offset < start * u + u)
              && (offset < 0 ==> start * u - u < offset <= start * u)
    {
      var offset := if dir == Vertical then rect.y else rect.x;
      assert QueryStart(dir, unit, rect) == TruncDiv(offset, ScrollUnit(dir, unit));
    }

    /** The length of a query is the number of whole rows in the
        rectangle's extent along the scroll axis, one more when scrolling
        horizontally; it is defined exactly when the extent is more than
        minus one unit. */
    static lemma QueryLengthOfRect(dir: Direction, unit: UnitSize, rect: Rect)
      ensures var extent := if dir == Vertical then rect.height else rect.width;
              var u: int := ScrollUnit(dir, unit);
              var len := QueryLength(dir, unit, rect);
              && (QueryLengthDefined(dir, unit, rect) <==> -u < extent)
              && (0 <= extent && dir == Vertical ==> len * u <= extent < len * u + u)
              && (0 <= extent && dir == Horizontal ==> (len - 1) * u <= extent < len * u)
              && (-u < extent < 0 ==> len == if dir == Vertical then 0 else 1)
    {
      var extent := if dir == Vertical then rect.height else rect.width;
      var u := ScrollUnit(dir, unit);
      var q := TruncDiv(extent, u);
      assert QueryLengthDefined(dir, unit, rect) == (0 <= q);
      assert QueryLength(dir, unit, rect) == if dir == Vertical then q else q + 1;
      if q < 0 {
        MulMonotone(q, -1, u);
      }
      assert (q + 1) * u == q * u + u;
    }

    /** The row `prepareLayout` packs to: one past the bottom (or right)
        edge of the visible frame, or everything in preemptive mode. */
    function PrepareTarget(dir: Direction, unit: UnitSize, preemptive: bool, contentOffsetX: int, contentOffsetY: int): int
    {
      if preemptive then IntMax
      else match dir
        case Vertical => TruncDiv(contentOffsetY + frameHeight + unit.height, unit.height)
        case Horizontal => TruncDiv(contentOffsetX + frameWidth + unit.width, unit.width)
    }

    /** Outside preemptive mode `prepareLayout` packs to one row past the
        row that holds the visible frame's far edge along the scroll axis. */
    lemma PrepareTargetPastFrame(dir: Direction, unit: UnitSize, preemptive: bool,
                                 contentOffsetX: int, contentOffsetY: int)
      ensures preemptive ==> PrepareTarget(dir, unit, preemptive, contentOffsetX, contentOffsetY) == IntMax
      ensures var edge := if dir == Vertical then contentOffsetY + frameHeight else contentOffsetX + frameWidth;
              var u := ScrollUnit(dir, unit);
              var t := PrepareTarget(dir, unit, preemptive, contentOffsetX, contentOffsetY);
              !preemptive && 0 <= edge ==> 1 <= t && (t - 1) * u <= edge < t * u
    {
    }

    // -------------------------------------------------------------------------
    // Invariants

    /** Every cell of the footprint of `ip` anchored at `anchor` is owned by `ip`. */
    ghost predicate Owns(dir: Direction, owner: Occupancy, anchor: Point, ip: IndexPath)
    {
      forall c {:trigger Covers(ToCell(dir, anchor), SpanOf(dir, SizeFor(ip)), c)} ::
        Covers(ToCell(dir, anchor), SpanOf(dir, SizeFor(ip)), c) ==> c in owner && owner[c] == ip
    }

    /** The packing invariant, on the values of the packing state. */
    ghost predicate Consistent(dir: Direction, cap: int, fos: Point, furthest: Point,
                               owner: Occupancy, anchors: map<IndexPath, Point>)
    {
      // the scan cursor is a cell the scan can offer, and every cell before it is taken
      && InScan(cap, 0, ToCell(dir, fos))
      && TakenBefore(owner, cap, 0, ToCell(dir, fos))
      // every owner has an anchor, and the furthest cell dominates every occupied cell
      && (forall c {:trigger c in owner} :: c in owner ==>
            owner[c] in anchors && Dominated(ToPoint(dir, c), furthest))
      // every anchor is on screen and its footprint is owned by it; a footprint
      // leaves the capacity only from bound 0
      && (forall ip :: ip in anchors ==>
            && 0 <= anchors[ip].x && 0 <= anchors[ip].y
            && Owns(dir, owner, anchors[ip], ip)
            && (ToCell(dir, anchors[ip]).bound == 0 || ToCell(dir, anchors[ip]).bound + SpanOf(dir, SizeFor(ip)).bound <= cap))
      // the first placement of an epoch takes the origin
      && (Cell(0, 0) !in owner ==> owner == map[] && fos == Origin && furthest == Origin)
    }

    /** What the scan of `traverseOpenCells` needs: the cursor row is not
        negative and no occupied cell lies past the furthest row. */
    ghost predicate ScanBounded(dir: Direction, fos: Point, furthest: Point, owner: Occupancy)
    {
      && 0 <= ToCell(dir, fos).unbound
      && forall c :: c in owner ==> c.unbound <= ToCell(dir, furthest).unbound
    }

    lemma ConsistentBoundsScan(dir: Direction, cap: int, fos: Point, furthest: Point,
                               owner: Occupancy, anchors: map<IndexPath, Point>)
      requires Consistent(dir, cap, fos, furthest, owner, anchors)
      ensures ScanBounded(dir, fos, furthest, owner)
    {
      forall c | c in owner ensures c.unbound <= ToCell(dir, furthest).unbound {
        assert Dominated(ToPoint(dir, c), furthest);
      }
    }

    ghost predicate Valid()
      reads this`scrollDirection, this`cellSize, this`firstOpenSpace, this`furthestCellPosition,
            this`indexPathByPosition, this`positionByIndexPath
    {
      Consistent(scrollDirection, Capacity(), firstOpenSpace, furthestCellPosition, indexPathByPosition, positionByIndexPath)
    }

    /** Every occupied cell lies in the footprint of its owner's current
        anchor. It holds along `insertCellsToUnboundIndex`, but not after
        `insertCellsToIndexPath` re-places its target. */
    ghost predicate ExactCover()
      reads this`scrollDirection, this`indexPathByPosition, this`positionByIndexPath
    {
      Covered(scrollDirection, indexPathByPosition, positionByIndexPath)
    }

    ghost predicate Covered(dir: Direction, owner: Occupancy, anchors: map<IndexPath, Point>)
    {
      forall c {:trigger c in owner} :: c in owner ==>
        owner[c] in anchors && Covers(ToCell(dir, anchors[owner[c]]), SpanOf(dir, SizeFor(owner[c])), c)
    }

    /** Every placed item is at or before the insertion cursor. */
    ghost predicate AnchoredBefore()
      reads this`positionByIndexPath, this`indexPathCache
    {
      forall ip :: ip in positionByIndexPath ==> ip == indexPathCache || Precedes(ip, indexPathCache)
    }

    ghost predicate ItemZeroUnplaced()
      reads this`positionByIndexPath
    {
      IndexPath(0, 0) !in positionByIndexPath
    }

    /** The state of a fresh epoch. */
    ghost predicate Reset()
      reads this
    {
      && indexPathCache == IndexPath(0, 0)
      && layoutAttributesCache == {}
      && furthestCellPosition == Origin
      && layoutRectCache == RectZero
      && firstOpenSpace == Origin
      && indexPathByPosition == map[]
      && positionByIndexPath == map[]
    }

    /** Packing only moves forward: no occupied cell is overwritten, and the
        scan row and the furthest cell never decrease. */
    static ghost predicate Advanced(dir: Direction, fos0: Point, furthest0: Point, owner0: Occupancy,
                                    fos: Point, furthest: Point, owner: Occupancy)
    {
      && (forall c :: c in owner0 ==> c in owner && owner[c] == owner0[c])
      && ToCell(dir, fos0).unbound <= ToCell(dir, fos).unbound
      && Dominated(furthest0, furthest)
    }

    static lemma AdvancedTrans(dir: Direction, fos0: Point, furthest0: Point, owner0: Occupancy,
                               fos1: Point, furthest1: Point, owner1: Occupancy,
                               fos: Point, furthest: Point, owner: Occupancy)
      requires Advanced(dir, fos0, furthest0, owner0, fos1, furthest1, owner1)
      requires Advanced(dir, fos1, furthest1, owner1, fos, furthest, owner)
      ensures Advanced(dir, fos0, furthest0, owner0, fos, furthest, owner)
    {
      forall c | c in owner0 ensures c in owner && owner[c] == owner0[c] {
        assert c in owner1 && owner1[c] == owner0[c];
      }
    }

    twostate predicate Grew()
      reads this`scrollDirection, this`firstOpenSpace, this`furthestCellPosition, this`indexPathByPosition
    {
      Advanced(scrollDirection, old(firstOpenSpace), old(furthestCellPosition), old(indexPathByPosition),
               firstOpenSpace, furthestCellPosition, indexPathByPosition)
    }

    /** What every packing entry point promises about the packing state:
        the invariants still hold, packing only moved forward, anchored
        items stay anchored, and the exact cover and the anchoring before
        the cursor survive when they held before. */
    twostate predicate PackedForward()
      reads this`scrollDirection, this`cellSize, this`firstOpenSpace, this`furthestCellPosition,
            this`indexPathByPosition, this`positionByIndexPath, this`indexPathCache
    {
      PackedFrom(old(firstOpenSpace), old(furthestCellPosition), old(indexPathByPosition),
                 old(positionByIndexPath), old(ExactCover()) && old(AnchoredBefore()))
    }

    /** The current packing state is a forward step from the given earlier
        one; `exact0` says whether the earlier state had an exact cover
        anchored before its cursor. `PackedForward() == true` in a contract
        keeps it one proof obligation, as for `Progress`. */
    ghost predicate PackedFrom(fos0: Point, furthest0: Point, owner0: Occupancy,
                               anchors0: map<IndexPath, Point>, exact0: bool)
      reads this`scrollDirection, this`cellSize, this`firstOpenSpace, this`furthestCellPosition,
            this`indexPathByPosition, this`positionByIndexPath, this`indexPathCache
    {
      && Valid() && ItemZeroUnplaced()
      && Advanced(scrollDirection, fos0, furthest0, owner0, firstOpenSpace, furthestCellPosition, indexPathByPosition)
      && (forall x :: x in anchors0 ==> x in positionByIndexPath)
      && (exact0 ==> ExactCover() && AnchoredBefore())
    }

    /** One first-fit placement of `ip`, by a scan from row `u0`, took the
        occupancy, the anchors and the furthest cell from the values ending
        in 0 to the others. */
    ghost predicate Placed(dir: Direction, cap: int, u0: int, furthest0: Point,
                           owner0: Occupancy, anchors0: map<IndexPath, Point>,
                           furthest: Point, owner: Occupancy, anchors: map<IndexPath, Point>,
                           ip: IndexPath)
    {
      && ip in anchors
      && anchors == anchors0[ip := anchors[ip]]
      && var a := ToCell(dir, anchors[ip]);
         var s := SpanOf(dir, SizeFor(ip));
         // the anchor is the first fit of a scan from row u0
         && IsFirstFit(owner0, cap, u0, s, a)
         // exactly the footprint is added, owned by ip
         && (forall c :: c in owner <==> c in owner0 || Covers(a, s, c))
         && (forall c :: c in owner0 ==> owner[c] == owner0[c])
         && (forall c :: Covers(a, s, c) ==> owner[c] == ip)
         // the furthest cell now also covers the footprint's far corner
         && furthest == if anchors[ip] == Origin then FarCorner(Origin, SizeFor(ip))
                        else PointMax(furthest0, FarCorner(anchors[ip], SizeFor(ip)))
    }

    /** One call of `insertCellAtIndexPath`: a first-fit placement by a scan
        from the cursor row, with the cursor moved to the first free cell
        the scan met, at or before the anchor. */
    twostate predicate PlacedFirstFit(ip: IndexPath)
      reads this`scrollDirection, this`cellSize, this`firstOpenSpace, this`furthestCellPosition,
            this`indexPathByPosition, this`positionByIndexPath
    {
      Inserted(scrollDirection, Capacity(), old(State()), State(), ip)
    }

    function State(): PackState
      reads this`firstOpenSpace, this`furthestCellPosition, this`indexPathByPosition, this`positionByIndexPath
    {
      PackState(firstOpenSpace, furthestCellPosition, indexPathByPosition, positionByIndexPath)
    }

    /** One call of `insertCellAtIndexPath` for `ip` takes packing state `s0`
        to `s`: a first-fit placement by a scan from the cursor row of `s0`,
        with the cursor moved to the first free cell the scan met, at or
        before the new anchor. The new state is determined by `s0` and `ip`. */
    ghost predicate Inserted(dir: Direction, cap: int, s0: PackState, s: PackState, ip: IndexPath)
    {
      var u0 := ToCell(dir, s0.fos).unbound;
      && Placed(dir, cap, u0, s0.furthest, s0.owner, s0.anchors, s.furthest, s.owner, s.anchors, ip)
      && IsFirstFree(s0.owner, cap, u0, ToCell(dir, s.fos))
      && !Before(ToCell(dir, s.anchors[ip]), ToCell(dir, s.fos))
    }

    /** `trace` is the packing states along a run of `insertCellAtIndexPath`
        calls, one for each item of `items`, in order. */
    ghost predicate Steps(dir: Direction, cap: int, trace: seq<PackState>, items: seq<IndexPath>)
    {
      && |trace| == |items| + 1
      && forall i :: 0 <= i < |items| ==> StepAt(dir, cap, trace, items, i)
    }

    /** Step `i` of such a run: the insertion of `items[i]` took `trace[i]`
        to `trace[i + 1]`. */
    ghost predicate StepAt(dir: Direction, cap: int, trace: seq<PackState>, items: seq<IndexPath>, i: int)
      requires 0 <= i < |items| && |trace| == |items| + 1
    {
      Inserted(dir, cap, trace[i], trace[i + 1], items[i])
    }

    /** `trace` is a run of insertions of `items` from state `s0` to state
        `s`. Loop invariants state it as `Trace(...) == true`, like
        `Progress`. */
    ghost predicate Trace(dir: Direction, cap: int, s0: PackState, items: seq<IndexPath>, trace: seq<PackState>, s: PackState)
    {
      Steps(dir, cap, trace, items) && trace[0] == s0 && trace[|items|] == s
    }

    /** A run of insertions extends by one more. */
    lemma TraceExtend(dir: Direction, cap: int, s0: PackState, items: seq<IndexPath>, trace: seq<PackState>,
                      s1: PackState, ip: IndexPath, s: PackState)
      requires Trace(dir, cap, s0, items, trace, s1)
      requires Inserted(dir, cap, s1, s, ip)
      ensures Trace(dir, cap, s0, items + [ip], trace + [s], s)
    {
      var t, p := trace + [s], items + [ip];
      forall i | 0 <= i < |p|
        ensures StepAt(dir, cap, t, p, i)
      {
        if i < |items| {
          assert StepAt(dir, cap, trace, items, i);
          assert t[i] == trace[i] && t[i + 1] == trace[i + 1] && p[i] == items[i];
        }
      }
    }

    /** An insertion is deterministic: the state after inserting `ip` is
        fixed by the state before. */
    lemma InsertedUnique(dir: Direction, cap: int, s0: PackState, s: PackState, t: PackState, ip: IndexPath)
      requires Inserted(dir, cap, s0, s, ip) && Inserted(dir, cap, s0, t, ip)
      ensures s == t
    {
      var u0 := ToCell(dir, s0.fos).unbound;
      var span := SpanOf(dir, SizeFor(ip));
      FirstFitUnique(s0.owner, cap, u0, span, ToCell(dir, s.anchors[ip]), ToCell(dir, t.anchors[ip]));
      assert s.anchors[ip] == ToPoint(dir, ToCell(dir, t.anchors[ip])) == t.anchors[ip];
      FirstFreeUnique(s0.owner, cap, u0, ToCell(dir, s.fos), ToCell(dir, t.fos));
      assert s.fos == ToPoint(dir, ToCell(dir, t.fos)) == t.fos;
      assert s.owner == t.owner;
    }

    /** Two runs of insertions from the same state agree on their states as
        long as they insert the same items. */
    lemma {:induction false} TracesAgree(dir: Direction, cap: int, p: seq<IndexPath>, trace: seq<PackState>,
                                         q: seq<IndexPath>, other: seq<PackState>, j: nat)
      requires Steps(dir, cap, trace, p) && Steps(dir, cap, other, q) && trace[0] == other[0]
      requires j <= |p| && j <= |q| && forall i :: 0 <= i < j ==> p[i] == q[i]
      ensures trace[j] == other[j]
      decreases j
    {
      if 0 < j {
        TracesAgree(dir, cap, p, trace, q, other, j - 1);
        assert StepAt(dir, cap, trace, p, j - 1);
        assert StepAt(dir, cap, other, q, j - 1);
        InsertedUnique(dir, cap, trace[j - 1], trace[j], other[j], p[j - 1]);
      }
    }

    // -------------------------------------------------------------------------
    // Construction and reset

    /** `init()`: vertical scrolling, 100x100 unit cells, an empty epoch. The
        content rect is the frame less the content insets; `CGRectGetWidth`
        and `CGRectGetHeight` report its extents as absolute values, so
        insets wider than the frame leave a content rect as wide as the
        excess. */
    constructor (frameWidth: nat, frameHeight: nat, contentInset: Insets,
                 itemCounts: seq<nat>, delegate: Option<Delegate>)
      ensures this.frameWidth == frameWidth && this.frameHeight == frameHeight
      ensures contentWidth == Abs(frameWidth - contentInset.left - contentInset.right)
      ensures contentHeight == Abs(frameHeight - contentInset.top - contentInset.bottom)
      ensures this.itemCounts == itemCounts && this.delegate == delegate
      ensures scrollDirection == Vertical && cellSize == UnitSize(100, 100) && !preemptivelyRenderLayout
      ensures Reset()
      ensures Valid() && ExactCover() && AnchoredBefore() && ItemZeroUnplaced()
    {
      this.frameWidth := frameWidth;
      this.frameHeight := frameHeight;
      contentWidth := Abs(frameWidth - contentInset.left - contentInset.right);
      contentHeight := Abs(frameHeight - contentInset.top - contentInset.bottom);
      this.itemCounts := itemCounts;
      this.delegate := delegate;
      scrollDirection := Vertical;
      preemptivelyRenderLayout := false;
      cellSize := UnitSize(100, 100);
      layoutAttributesCache := {};
      layoutRectCache := RectZero;
      indexPathCache := IndexPath(0, 0);
      firstOpenSpace := Origin;
      furthestCellPosition := Origin;
      indexPathByPosition := map[];
      positionByIndexPath := map[];
    }

    /** `invalidateLayout`: a new epoch. */
    method InvalidateLayout()
      modifies this`indexPathCache, this`layoutAttributesCache, this`furthestCellPosition,
               this`layoutRectCache, this`firstOpenSpace, this`indexPathByPosition, this`positionByIndexPath
      ensures Reset()
      ensures Valid() && ExactCover() && AnchoredBefore() && ItemZeroUnplaced()
      ensures ContentSize() == if scrollDirection == Vertical then PixelSize(contentWidth, cellSize.height)
                               else PixelSize(cellSize.width, contentHeight)
    {
      indexPathCache := IndexPath(0, 0);
      layoutAttributesCache := {};
      furthestCellPosition := ObserveFurthest(furthestCellPosition, Origin);
      layoutRectCache := RectZero;
      firstOpenSpace := Origin;
      indexPathByPosition := map[];
      positionByIndexPath := map[];
    }

    /** Setting `scrollDirection` invalidates the layout. */
    method SetScrollDirection(direction: Direction)
      modifies this`scrollDirection, this`indexPathCache, this`layoutAttributesCache, this`furthestCellPosition,
               this`layoutRectCache, this`firstOpenSpace, this`indexPathByPosition, this`positionByIndexPath
      ensures scrollDirection == direction && Reset()
      ensures Valid() && ExactCover() && AnchoredBefore() && ItemZeroUnplaced()
    {
      scrollDirection := direction;
      InvalidateLayout();
    }

    /** Setting `cellSize` invalidates the layout. */
    method SetCellSize(size: UnitSize)
      modifies this`cellSize, this`indexPathCache, this`layoutAttributesCache, this`furthestCellPosition,
               this`layoutRectCache, this`firstOpenSpace, this`indexPathByPosition, this`positionByIndexPath
      ensures cellSize == size && Reset()
      ensures Valid() && ExactCover() && AnchoredBefore() && ItemZeroUnplaced()
    {
      cellSize := size;
      InvalidateLayout();
    }

    // -------------------------------------------------------------------------
    // Footprint walks (`traverseCellsForPosition`, x outer, y inner)

    /** The walk with the feasibility closure of `insertCellAtIndexPath`. */
    method FootprintFits(anchor: Point, size: GridSize) returns (fits: bool)
      ensures fits == Fits(indexPathByPosition, Capacity(), CellOf(anchor), SpanOf(scrollDirection, size))
    {
      var anchorCell := CellOf(anchor);
      var column := anchor.x;
      while column < anchor.x + size.width
        invariant anchor.x <= column <= anchor.x + size.width
        invariant forall p :: InScreenRect(anchor, size, p) && p.x < column ==>
                    Admits(indexPathByPosition, Capacity(), anchorCell, CellOf(p))
      {
        var row := anchor.y;
        while row < anchor.y + size.height
          invariant anchor.y <= row <= anchor.y + size.height
          invariant forall p :: InScreenRect(anchor, size, p) && (p.x < column || (p.x == column && p.y < row)) ==>
                      Admits(indexPathByPosition, Capacity(), anchorCell, CellOf(p))
        {
          var position := Point(column, row);
          var hasSpaceAvailable := IndexPathForPosition(position).None?;
          var isInBounds := CellOf(position).bound < Capacity();
          var hasMaximumBoundSize := anchorCell.bound == 0;
          var passes := if hasSpaceAvailable && hasMaximumBoundSize && !isInBounds then true
                        else hasSpaceAvailable && isInBounds;
          if !passes {
            CoversInScreen(scrollDirection, anchor, size, position);
            return false;
          }
          row := row + 1;
        }
        column := column + 1;
      }
      forall c | Covers(anchorCell, SpanOf(scrollDirection, size), c)
        ensures Admits(indexPathByPosition, Capacity(), anchorCell, c)
      {
        CellPointRoundTrip(scrollDirection, c);
        CoversInScreen(scrollDirection, anchor, size, ToPoint(scrollDirection, c));
      }
      return true;
    }

    /** `setPosition(_:forIndexPath:)`: the cell at `position` now belongs to
        `ip`; no other cell changes hands. */
    method SetPosition(position: Point, ip: IndexPath)
      modifies this`indexPathByPosition
      ensures indexPathByPosition == old(indexPathByPosition)[CellOf(position) := ip]
      ensures IndexPathForPosition(position) == Some(ip)
      ensures forall p :: CellOf(p) != CellOf(position) ==> IndexPathForPosition(p) == old(IndexPathForPosition(p))
    {
      indexPathByPosition := indexPathByPosition[CellOf(position) := ip];
    }

    /** `setIndexPath(_:forPosition:)`: `ip` is now anchored at `position`. */
    method SetIndexPath(ip: IndexPath, position: Point)
      modifies this`positionByIndexPath
      ensures positionByIndexPath == old(positionByIndexPath)[ip := position]
    {
      positionByIndexPath := positionByIndexPath[ip := position];
    }

    /** An assignment to `furthestCellPosition`, through its observer. */
    method SetFurthest(newValue: Point)
      modifies this`furthestCellPosition
      ensures furthestCellPosition == ObserveFurthest(old(furthestCellPosition), newValue)
    {
      furthestCellPosition := ObserveFurthest(furthestCellPosition, newValue);
    }

    /** `setIndexPath`, then the walk with the committing closure: every
        footprint cell is mapped to the item and assigned to
        `furthestCellPosition` through its observer. */
    method CommitFootprint(ip: IndexPath, anchor: Point, size: GridSize)
      requires 0 <= anchor.x && 0 <= anchor.y
      requires forall c :: Covers(CellOf(anchor), SpanOf(scrollDirection, size), c) ==> c !in indexPathByPosition
      modifies this`indexPathByPosition, this`positionByIndexPath, this`furthestCellPosition
      ensures positionByIndexPath == old(positionByIndexPath)[ip := anchor]
      ensures forall c :: c in indexPathByPosition <==>
                c in old(indexPathByPosition) || Covers(CellOf(anchor), SpanOf(scrollDirection, size), c)
      ensures forall c :: c in old(indexPathByPosition) ==> indexPathByPosition[c] == old(indexPathByPosition)[c]
      ensures forall c :: Covers(CellOf(anchor), SpanOf(scrollDirection, size), c) ==> indexPathByPosition[c] == ip
      ensures furthestCellPosition == if anchor == Origin then FarCorner(anchor, size)
                                      else PointMax(old(furthestCellPosition), FarCorner(anchor, size))
    {
      ghost var owner0, furthest0 := indexPathByPosition, furthestCellPosition;
      SetIndexPath(ip, anchor);
      var column := anchor.x;
      while column < anchor.x + size.width
        invariant anchor.x <= column <= anchor.x + size.width
        invariant positionByIndexPath == old(positionByIndexPath)[ip := anchor]
        invariant Committed(scrollDirection, indexPathByPosition, furthestCellPosition,
                            ip, anchor, size, column, anchor.y, owner0, furthest0)
      {
        CommitColumn(ip, anchor, size, column, owner0, furthest0);
        column := column + 1;
      }
      CommitDone(scrollDirection, indexPathByPosition, furthestCellPosition, ip, anchor, size, owner0, furthest0);
    }

    /** The state of a commit walk from occupancy `owner0` and furthest cell
        `furthest0` that is at column `column`, row `row`: exactly the cells
        visited so far were added, all owned by `ip`, and the furthest cell
        tracks them. */
    static ghost predicate Committed(dir: Direction, owner: Occupancy, furthest: Point,
                                     ip: IndexPath, anchor: Point, size: GridSize, column: int, row: int,
                                     owner0: Occupancy, furthest0: Point)
    {
      && (forall c :: c in owner <==> c in owner0 || Written(anchor, size, ToPoint(dir, c), column, row))
      && (forall c :: c in owner0 ==> owner[c] == owner0[c])
      && (forall c :: Written(anchor, size, ToPoint(dir, c), column, row) ==> owner[c] == ip)
      && furthest == Track(furthest0, anchor, size, column, row)
    }

    /** A finished walk has written exactly the footprint. */
    static lemma CommitDone(dir: Direction, owner: Occupancy, furthest: Point,
                            ip: IndexPath, anchor: Point, size: GridSize, owner0: Occupancy, furthest0: Point)
      requires Committed(dir, owner, furthest, ip, anchor, size, anchor.x + size.width, anchor.y, owner0, furthest0)
      ensures forall c :: c in owner <==> c in owner0 || Covers(ToCell(dir, anchor), SpanOf(dir, size), c)
      ensures forall c :: c in owner0 ==> owner[c] == owner0[c]
      ensures forall c :: Covers(ToCell(dir, anchor), SpanOf(dir, size), c) ==> owner[c] == ip
      ensures furthest == if anchor == Origin then FarCorner(anchor, size) else PointMax(furthest0, FarCorner(anchor, size))
    {
      forall c ensures Covers(ToCell(dir, anchor), SpanOf(dir, size), c) <==>
                       Written(anchor, size, ToPoint(dir, c), anchor.x + size.width, anchor.y)
      {
        CellPointRoundTrip(dir, c);
        CoversInScreen(dir, anchor, size, ToPoint(dir, c));
      }
    }

    /** One column of the walk. */
    method CommitColumn(ip: IndexPath, anchor: Point, size: GridSize, column: int,
                        ghost owner0: Occupancy, ghost furthest0: Point)
      requires 0 <= anchor.x && 0 <= anchor.y
      requires anchor.x <= column < anchor.x + size.width
      requires forall c :: Covers(CellOf(anchor), SpanOf(scrollDirection, size), c) ==> c !in owner0
      requires Committed(scrollDirection, indexPathByPosition, furthestCellPosition,
                         ip, anchor, size, column, anchor.y, owner0, furthest0)
      modifies this`indexPathByPosition, this`furthestCellPosition
      ensures Committed(scrollDirection, indexPathByPosition, furthestCellPosition,
                        ip, anchor, size, column + 1, anchor.y, owner0, furthest0)
    {
      var row := anchor.y;
      while row < anchor.y + size.height
        invariant anchor.y <= row <= anchor.y + size.height
        invariant Committed(scrollDirection, indexPathByPosition, furthestCellPosition,
                            ip, anchor, size, column, row, owner0, furthest0)
      {
        CommitCell(ip, anchor, size, column, row, owner0, furthest0);
        row := row + 1;
      }
      ColumnEnd(scrollDirection, indexPathByPosition, furthestCellPosition, ip, anchor, size, column, owner0, furthest0);
    }

    /** The end of a column of the walk is the start of the next one. */
    static lemma ColumnEnd(dir: Direction, owner: Occupancy, furthest: Point,
                           ip: IndexPath, anchor: Point, size: GridSize, column: int, owner0: Occupancy, furthest0: Point)
      requires anchor.x <= column < anchor.x + size.width
      requires Committed(dir, owner, furthest, ip, anchor, size, column, anchor.y + size.height, owner0, furthest0)
      ensures Committed(dir, owner, furthest, ip, anchor, size, column + 1, anchor.y, owner0, furthest0)
    {
    }

    /** One visit of the committing closure, at column `column`, row `row`. */
    method CommitCell(ip: IndexPath, anchor: Point, size: GridSize, column: int, row: int,
                      ghost owner0: Occupancy, ghost furthest0: Point)
      requires 0 <= anchor.x && 0 <= anchor.y
      requires anchor.x <= column < anchor.x + size.width && anchor.y <= row < anchor.y + size.height
      requires forall c :: Covers(CellOf(anchor), SpanOf(scrollDirection, size), c) ==> c !in owner0
      requires Committed(scrollDirection, indexPathByPosition, furthestCellPosition,
                         ip, anchor, size, column, row, owner0, furthest0)
      modifies this`indexPathByPosition, this`furthestCellPosition
      ensures Committed(scrollDirection, indexPathByPosition, furthestCellPosition,
                        ip, anchor, size, column, row + 1, owner0, furthest0)
    {
      var position := Point(column, row);
      CoversInScreen(scrollDirection, anchor, size, position);
      forall c ensures c == CellOf(position) <==> ToPoint(scrollDirection, c) == position {
        CellPointRoundTrip(scrollDirection, c);
      }
      TrackStep(furthest0, anchor, size, column, row);
      SetPosition(position, ip);
      SetFurthest(position);
    }

    /** The screen point p of the footprint has been visited by a walk that
        is at column `column`, row `row`. */
    static predicate Written(anchor: Point, size: GridSize, p: Point, column: int, row: int)
    {
      InScreenRect(anchor, size, p) && (p.x < column || (p.x == column && p.y < row))
    }

    /** The furthest cell once a commit walk from `previous` is at column
        `column`, row `row`: unchanged before the first cell, otherwise the
        last cell visited, joined with `previous` unless the walk started at
        the origin (whose assignment resets it). */
    static function Track(previous: Point, anchor: Point, size: GridSize, column: int, row: int): Point
    {
      if column == anchor.x && row == anchor.y then previous
      else
        var last := Point(if anchor.y < row then column else column - 1,
                          if anchor.x < column then anchor.y + size.height - 1 else row - 1);
        if anchor == Origin then last else PointMax(previous, last)
    }

    /** One committing visit advances the tracked furthest cell. */
    static lemma TrackStep(previous: Point, anchor: Point, size: GridSize, column: int, row: int)
      requires 0 <= anchor.x && 0 <= anchor.y
      requires anchor.x <= column < anchor.x + size.width && anchor.y <= row < anchor.y + size.height
      ensures ObserveFurthest(Track(previous, anchor, size, column, row), Point(column, row))
              == Track(previous, anchor, size, column, row + 1)
    {
    }

    // -------------------------------------------------------------------------
    // Placement

    /** The closure `insertCellAtIndexPath` hands to `traverseOpenCells`:
        test the footprint anchored at `cellOrigin` and, when it fits, commit
        it and stop the scan. */
    method TryAnchor(ip: IndexPath, size: GridSize, cellOrigin: Point, ghost u0: int) returns (keepScanning: bool)
      requires 0 <= cellOrigin.x && 0 <= cellOrigin.y
      requires size == SizeFor(ip)
      requires InScan(Capacity(), u0, CellOf(cellOrigin))
      requires NoFitBefore(indexPathByPosition, Capacity(), u0, SpanOf(scrollDirection, size), CellOf(cellOrigin))
      modifies this`indexPathByPosition, this`positionByIndexPath, this`furthestCellPosition
      ensures keepScanning == !Fits(old(indexPathByPosition), Capacity(), CellOf(cellOrigin), SpanOf(scrollDirection, size))
      ensures keepScanning ==>
                && indexPathByPosition == old(indexPathByPosition)
                && positionByIndexPath == old(positionByIndexPath)
                && furthestCellPosition == old(furthestCellPosition)
      ensures !keepScanning ==>
                && Placed(scrollDirection, Capacity(), u0, old(furthestCellPosition),
                          old(indexPathByPosition), old(positionByIndexPath),
                          furthestCellPosition, indexPathByPosition, positionByIndexPath, ip)
                && AnchorCell(ip) == CellOf(cellOrigin)
    {
      var didTraverseAllCells := FootprintFits(cellOrigin, size);
      if !didTraverseAllCells {
        return true;
      }
      CommitFootprint(ip, cellOrigin, size);
      return false;
    }

    /** One candidate of `traverseOpenCells`: skip it when occupied;
        otherwise move the cursor to it if it is the first free cell of the
        scan, and offer it to the closure of `insertCellAtIndexPath`. */
    method VisitCell(ip: IndexPath, size: GridSize, here: Cell, takenSoFar: bool, ghost u0: int)
      returns (keepScanning: bool, allTakenBefore: bool)
      requires 0 <= u0 <= here.unbound && 0 <= here.bound < Capacity()
      requires size == SizeFor(ip)
      requires NoFitBefore(indexPathByPosition, Capacity(), u0, SpanOf(scrollDirection, size), here)
      requires takenSoFar ==> TakenBefore(indexPathByPosition, Capacity(), u0, here)
      requires !takenSoFar ==> IsFirstFree(indexPathByPosition, Capacity(), u0, FosCell()) && Before(FosCell(), here)
      modifies this`indexPathByPosition, this`positionByIndexPath, this`firstOpenSpace, this`furthestCellPosition
      ensures allTakenBefore ==> takenSoFar && firstOpenSpace == old(firstOpenSpace)
      ensures here.bound == 0 && (forall c :: c in old(indexPathByPosition) ==> c.unbound < here.unbound) ==> !keepScanning
      ensures keepScanning ==>
                var next := Cell(here.bound + 1, here.unbound);
                && indexPathByPosition == old(indexPathByPosition)
                && positionByIndexPath == old(positionByIndexPath)
                && furthestCellPosition == old(furthestCellPosition)
                && NoFitBefore(indexPathByPosition, Capacity(), u0, SpanOf(scrollDirection, size), next)
                && (allTakenBefore ==> TakenBefore(indexPathByPosition, Capacity(), u0, next))
                && (!allTakenBefore ==> IsFirstFree(indexPathByPosition, Capacity(), u0, FosCell()) && Before(FosCell(), next))
      ensures !keepScanning ==>
                && Placed(scrollDirection, Capacity(), u0, old(furthestCellPosition),
                          old(indexPathByPosition), old(positionByIndexPath),
                          furthestCellPosition, indexPathByPosition, positionByIndexPath, ip)
                && IsFirstFree(old(indexPathByPosition), Capacity(), u0, FosCell())
                && !Before(AnchorCell(ip), FosCell())
    {
      ghost var owner0 := indexPathByPosition;
      ghost var cap := Capacity();
      ghost var span := SpanOf(scrollDirection, size);
      var position := ToPoint(scrollDirection, here);
      CellPointRoundTrip(scrollDirection, here);
      if here.bound == 0 && forall c :: c in owner0 ==> c.unbound < here.unbound {
        EmptyRowAccepts(owner0, cap, here.unbound, span);
      }
      allTakenBefore := takenSoFar;
      if IndexPathForPosition(position).Some? {
        SkipOccupied(owner0, cap, u0, span, here);
        if allTakenBefore {
          TakenAdvance(owner0, cap, u0, here);
        }
        return true, allTakenBefore;
      }
      if allTakenBefore {
        firstOpenSpace := position;
        allTakenBefore := false;
      }
      keepScanning := TryAnchor(ip, size, position, u0);
      if keepScanning {
        NoFitAdvance(owner0, cap, u0, span, here);
      }
    }

    /** One row of `traverseOpenCells`: its inner loop over the bound axis.
        A row past every occupied cell always ends the scan. */
    method ScanRow(ip: IndexPath, size: GridSize, unboundIndex: int, takenSoFar: bool, ghost u0: int)
      returns (placed: bool, allTakenBefore: bool)
      requires 0 <= u0 <= unboundIndex
      requires size == SizeFor(ip)
      requires NoFitBefore(indexPathByPosition, Capacity(), u0, SpanOf(scrollDirection, size), Cell(0, unboundIndex))
      requires takenSoFar ==> TakenBefore(indexPathByPosition, Capacity(), u0, Cell(0, unboundIndex))
      requires !takenSoFar ==> IsFirstFree(indexPathByPosition, Capacity(), u0, FosCell())
                               && Before(FosCell(), Cell(0, unboundIndex))
      modifies this`indexPathByPosition, this`positionByIndexPath, this`firstOpenSpace, this`furthestCellPosition
      ensures allTakenBefore ==> takenSoFar && firstOpenSpace == old(firstOpenSpace)
      ensures !placed ==>
                && indexPathByPosition == old(indexPathByPosition)
                && positionByIndexPath == old(positionByIndexPath)
                && furthestCellPosition == old(furthestCellPosition)
                && NoFitBefore(indexPathByPosition, Capacity(), u0, SpanOf(scrollDirection, size), Cell(0, unboundIndex + 1))
                && (allTakenBefore ==> TakenBefore(indexPathByPosition, Capacity(), u0, Cell(0, unboundIndex + 1)))
                && (!allTakenBefore ==> IsFirstFree(indexPathByPosition, Capacity(), u0, FosCell())
                                        && Before(FosCell(), Cell(0, unboundIndex + 1)))
                && exists c :: c in indexPathByPosition && unboundIndex <= c.unbound
      ensures placed ==>
                && Placed(scrollDirection, Capacity(), u0, old(furthestCellPosition),
                          old(indexPathByPosition), old(positionByIndexPath),
                          furthestCellPosition, indexPathByPosition, positionByIndexPath, ip)
                && IsFirstFree(old(indexPathByPosition), Capacity(), u0, FosCell())
                && !Before(AnchorCell(ip), FosCell())
    {
      ghost var owner0 := indexPathByPosition;
      ghost var cap := Capacity();
      ghost var span := SpanOf(scrollDirection, size);
      allTakenBefore := takenSoFar;
      var boundIndex := 0;
      while boundIndex < Capacity()
        invariant 0 <= boundIndex <= cap
        invariant indexPathByPosition == owner0 && positionByIndexPath == old(positionByIndexPath)
        invariant furthestCellPosition == old(furthestCellPosition)
        invariant NoFitBefore(owner0, cap, u0, span, Cell(boundIndex, unboundIndex))
        invariant allTakenBefore ==> takenSoFar && firstOpenSpace == old(firstOpenSpace)
        invariant allTakenBefore ==> TakenBefore(owner0, cap, u0, Cell(boundIndex, unboundIndex))
        invariant !allTakenBefore ==> IsFirstFree(owner0, cap, u0, FosCell()) && Before(FosCell(), Cell(boundIndex, unboundIndex))
        invariant 0 < boundIndex ==> exists c :: c in owner0 && unboundIndex <= c.unbound
      {
        var keepScanning;
        keepScanning, allTakenBefore := VisitCell(ip, size, Cell(boundIndex, unboundIndex), allTakenBefore, u0);
        if !keepScanning {
          return true, allTakenBefore;
        }
        boundIndex := boundIndex + 1;
      }
      NextRow(owner0, cap, u0, span, unboundIndex);
      return false, allTakenBefore;
    }

    /** `traverseOpenCells` driven by the closure of `insertCellAtIndexPath`:
        offer the free cells row by row from the cursor row until an anchor
        fits. The scan only ends by committing: no occupied cell lies past
        the furthest row, and the first row past it accepts any item. */
    method TraverseOpenCells(ip: IndexPath, size: GridSize) returns (exhausted: bool)
      requires ScanBounded(scrollDirection, firstOpenSpace, furthestCellPosition, indexPathByPosition)
      requires size == SizeFor(ip)
      modifies this`indexPathByPosition, this`positionByIndexPath, this`firstOpenSpace, this`furthestCellPosition
      ensures !exhausted
      ensures PlacedFirstFit(ip)
    {
      ghost var owner0 := indexPathByPosition;
      ghost var fos0 := firstOpenSpace;
      ghost var u0 := FosCell().unbound;
      ghost var far := CellOf(furthestCellPosition).unbound;
      ghost var cap := Capacity();
      ghost var span := SpanOf(scrollDirection, size);
      var allTakenBefore := true;
      var unboundIndex := FosCell().unbound;
      while true
        invariant u0 <= unboundIndex
        invariant indexPathByPosition == owner0 && positionByIndexPath == old(positionByIndexPath)
        invariant furthestCellPosition == old(furthestCellPosition)
        invariant NoFitBefore(owner0, cap, u0, span, Cell(0, unboundIndex))
        invariant allTakenBefore ==> firstOpenSpace == fos0
        invariant allTakenBefore ==> TakenBefore(owner0, cap, u0, Cell(0, unboundIndex))
        invariant !allTakenBefore ==> IsFirstFree(owner0, cap, u0, FosCell()) && Before(FosCell(), Cell(0, unboundIndex))
        decreases far + 1 - unboundIndex
      {
        var placed;
        placed, allTakenBefore := ScanRow(ip, size, unboundIndex, allTakenBefore, u0);
        if placed {
          assert Capacity() == cap && old(FosCell()).unbound == u0;
          return false;
        }
        unboundIndex := unboundIndex + 1;
      }
    }

    /** Moving the cursor to the first free cell of a scan from the cursor
        row keeps the packing invariant. */
    lemma CursorMoves(dir: Direction, cap: int, fos0: Point, furthest: Point,
                      owner: Occupancy, anchors: map<IndexPath, Point>, here: Cell)
      requires Consistent(dir, cap, fos0, furthest, owner, anchors)
      requires InScan(cap, ToCell(dir, fos0).unbound, here) && here !in owner
      requires TakenBefore(owner, cap, ToCell(dir, fos0).unbound, here)
      ensures Consistent(dir, cap, ToPoint(dir, here), furthest, owner, anchors)
    {
      var u0 := ToCell(dir, fos0).unbound;
      CellPointRoundTrip(dir, here);
      forall c | InScan(cap, 0, c) && Before(c, here) ensures c in owner {
        if c.unbound < u0 {
          assert Before(c, ToCell(dir, fos0));
        } else {
          assert InScan(cap, u0, c);
        }
      }
      if Cell(0, 0) !in owner {
        // an empty epoch scans from the origin, which is then the first free cell
        assert InScan(cap, u0, Cell(0, 0));
        assert !Before(Cell(0, 0), here);
      }
    }

    /** A first-fit placement, with the cursor moved to the first free cell
        of its scan, keeps the packing invariant and only moves forward. */
    lemma PlacedKeepsConsistent(dir: Direction, cap: int, fos0: Point, furthest0: Point,
                                owner0: Occupancy, anchors0: map<IndexPath, Point>,
                                fos: Point, furthest: Point, owner: Occupancy, anchors: map<IndexPath, Point>,
                                ip: IndexPath)
      requires Consistent(dir, cap, fos0, furthest0, owner0, anchors0)
      requires Placed(dir, cap, ToCell(dir, fos0).unbound, furthest0, owner0, anchors0, furthest, owner, anchors, ip)
      requires IsFirstFree(owner0, cap, ToCell(dir, fos0).unbound, ToCell(dir, fos))
      ensures Consistent(dir, cap, fos, furthest, owner, anchors)
      ensures Advanced(dir, fos0, furthest0, owner0, fos, furthest, owner)
    {
      var u0 := ToCell(dir, fos0).unbound;
      var here := ToCell(dir, anchors[ip]);
      assert anchors[ip] == ToPoint(dir, here);
      CursorMoves(dir, cap, fos0, furthest0, owner0, anchors0, ToCell(dir, fos));
      PlacementKeepsOwners(dir, cap, u0, owner0, anchors0, owner, ip, here);
      PlacementKeepsFurthest(dir, cap, u0, fos, furthest0, owner0, furthest, owner, ip, here);
      TakenGrows(owner0, owner, cap, 0, ToCell(dir, fos));
    }

    /** The ownership conjuncts of a first-fit commit. */
    lemma PlacementKeepsOwners(dir: Direction, cap: int, u0: int,
                               owner0: Occupancy, anchors0: map<IndexPath, Point>,
                               owner: Occupancy, ip: IndexPath, here: Cell)
      requires 0 <= u0
      requires forall c :: c in owner0 ==> owner0[c] in anchors0
      requires forall i :: i in anchors0 ==> 0 <= anchors0[i].x && 0 <= anchors0[i].y
      requires forall i :: i in anchors0 ==> Owns(dir, owner0, anchors0[i], i)
      requires forall i :: i in anchors0 ==>
                 ToCell(dir, anchors0[i]).bound == 0 || ToCell(dir, anchors0[i]).bound + SpanOf(dir, SizeFor(i)).bound <= cap
      requires IsFirstFit(owner0, cap, u0, SpanOf(dir, SizeFor(ip)), here)
      requires forall c :: c in owner <==> c in owner0 || Covers(here, SpanOf(dir, SizeFor(ip)), c)
      requires forall c :: c in owner0 ==> owner[c] == owner0[c]
      requires forall c :: Covers(here, SpanOf(dir, SizeFor(ip)), c) ==> owner[c] == ip
      ensures var anchors := anchors0[ip := ToPoint(dir, here)];
        && (forall c :: c in owner ==> owner[c] in anchors)
        && (forall i :: i in anchors ==> 0 <= anchors[i].x && 0 <= anchors[i].y)
        && (forall i :: i in anchors ==> Owns(dir, owner, anchors[i], i))
        && (forall i :: i in anchors ==>
              ToCell(dir, anchors[i]).bound == 0 || ToCell(dir, anchors[i]).bound + SpanOf(dir, SizeFor(i)).bound <= cap)
    {
      var span := SpanOf(dir, SizeFor(ip));
      var anchors := anchors0[ip := ToPoint(dir, here)];
      CellPointRoundTrip(dir, here);
      // the footprint stays within the capacity unless anchored at bound 0
      if here.bound != 0 {
        assert Covers(here, span, Cell(here.bound + span.bound - 1, here.unbound));
      }
      // other items keep their anchors and their cells
      forall other | other in anchors ensures Owns(dir, owner, anchors[other], other) {
        if other != ip {
          assert Owns(dir, owner0, anchors0[other], other);
        }
      }
    }

    /** The furthest-cell conjuncts of a first-fit commit. */
    lemma PlacementKeepsFurthest(dir: Direction, cap: int, u0: int, fos: Point, furthest0: Point, owner0: Occupancy,
                                 furthest: Point, owner: Occupancy, ip: IndexPath, here: Cell)
      requires 1 <= cap
      requires 0 <= u0 <= ToCell(dir, fos).unbound
      requires forall c :: c in owner0 ==> Dominated(ToPoint(dir, c), furthest0)
      requires Cell(0, 0) !in owner0 ==> owner0 == map[] && fos == Origin && furthest0 == Origin
      requires IsFirstFit(owner0, cap, u0, SpanOf(dir, SizeFor(ip)), here)
      requires forall c :: c in owner <==> c in owner0 || Covers(here, SpanOf(dir, SizeFor(ip)), c)
      requires furthest == if ToPoint(dir, here) == Origin then FarCorner(Origin, SizeFor(ip))
                           else PointMax(furthest0, FarCorner(ToPoint(dir, here), SizeFor(ip)))
      ensures forall c :: c in owner ==> Dominated(ToPoint(dir, c), furthest)
      ensures Cell(0, 0) in owner
      ensures Dominated(furthest0, furthest)
    {
      var span := SpanOf(dir, SizeFor(ip));
      var anchor := ToPoint(dir, here);
      CellPointRoundTrip(dir, here);
      // the first placement of an epoch is at the origin
      if Cell(0, 0) !in owner0 {
        EmptyRowAccepts(owner0, cap, 0, span);
        FirstFitUnique(owner0, cap, u0, span, here, Cell(0, 0));
        assert Covers(here, span, Cell(0, 0));
      }
      assert Covers(here, span, here);
      if anchor == Origin {
        assert here == Cell(0, 0);
        assert furthest0 == Origin;
      }
      // the footprint is dominated by its far corner
      forall c | Covers(here, span, c)
        ensures Dominated(ToPoint(dir, c), furthest)
      {
        CellPointRoundTrip(dir, c);
        CoversInScreen(dir, anchor, SizeFor(ip), ToPoint(dir, c));
      }
    }

    /** `insertCellAtIndexPath`: place one item; it always succeeds. */
    method InsertCell(ip: IndexPath) returns (inserted: bool)
      requires Valid()
      modifies this`indexPathByPosition, this`positionByIndexPath, this`firstOpenSpace, this`furthestCellPosition
      ensures Valid()
      ensures inserted
      ensures Grew()
      ensures forall x :: x in positionByIndexPath <==> x in old(positionByIndexPath) || x == ip
      ensures ip !in old(positionByIndexPath) && old(ExactCover()) ==> ExactCover()
      ensures Inserted(scrollDirection, Capacity(), old(State()), State(), ip)
    {
      var aCellSize := SizeFor(ip);
      ConsistentBoundsScan(scrollDirection, Capacity(), firstOpenSpace, furthestCellPosition,
                           indexPathByPosition, positionByIndexPath);
      var exhausted := TraverseOpenCells(ip, aCellSize);
      PlacedKeepsConsistent(scrollDirection, Capacity(), old(firstOpenSpace), old(furthestCellPosition),
                            old(indexPathByPosition), old(positionByIndexPath),
                            firstOpenSpace, furthestCellPosition, indexPathByPosition, positionByIndexPath, ip);
      if ip !in old(positionByIndexPath) && old(ExactCover()) {
        PlacementKeepsCover(scrollDirection, Capacity(), old(FosCell()).unbound, old(furthestCellPosition),
                            old(indexPathByPosition), old(positionByIndexPath),
                            furthestCellPosition, indexPathByPosition, positionByIndexPath, ip);
      }
      inserted := !exhausted;
    }

    /** Placing an item that had no anchor keeps every occupied cell inside
        the footprint of its owner's anchor. */
    lemma PlacementKeepsCover(dir: Direction, cap: int, u0: int, furthest0: Point,
                              owner0: Occupancy, anchors0: map<IndexPath, Point>,
                              furthest: Point, owner: Occupancy, anchors: map<IndexPath, Point>,
                              ip: IndexPath)
      requires Placed(dir, cap, u0, furthest0, owner0, anchors0, furthest, owner, anchors, ip)
      requires ip !in anchors0
      requires Covered(dir, owner0, anchors0)
      ensures Covered(dir, owner, anchors)
    {
      forall c | c in owner
        ensures owner[c] in anchors && Covers(ToCell(dir, anchors[owner[c]]), SpanOf(dir, SizeFor(owner[c])), c)
      {
        if c in owner0 {
          assert owner[c] == owner0[c] && owner0[c] in anchors0;
        }
      }
    }

    // -------------------------------------------------------------------------
    // Incremental drivers

    /** The state along `insertCellsToUnboundIndex` started from insertion
        cursor `start` and packing state `*S`: the invariants hold (the exact
        cover and anchoring before the cursor if `exact`), packing
        moved forward, `placed` are the items placed so far, in visiting
        order, `trace` is the run of their insertions from the state `*S`
        to the current one, and every inner state of it has its scan cursor
        before row `target`. Contracts state it as `Progress(...) == true`: that form keeps
        the verifier from splitting the predicate into its conjuncts, one
        proof obligation each. */
    ghost predicate Progress(start: IndexPath, fosS: Point, furthestS: Point, ownerS: Occupancy,
                             anchorsS: map<IndexPath, Point>, placed: seq<IndexPath>, exact: bool,
                             trace: seq<PackState>, target: int)
      reads this
    {
      && Valid() && ItemZeroUnplaced() && (exact ==> ExactCover() && AnchoredBefore())
      && Advanced(scrollDirection, fosS, furthestS, ownerS, firstOpenSpace, furthestCellPosition, indexPathByPosition)
      && Chain(itemCounts, start, placed) && indexPathCache == Last(start, placed)
      && (forall ip :: ip in positionByIndexPath <==> ip in anchorsS || ip in placed)
      && Trace(scrollDirection, Capacity(), PackState(fosS, furthestS, ownerS, anchorsS), placed, trace, State())
      && BelowTarget(scrollDirection, trace, target)
    }

    /** `n` copies of `ip`: the items a run of `insertCellsToIndexPath`
        visits are all placements of its target. */
    function Repeat(ip: IndexPath, n: nat): (r: seq<IndexPath>)
      ensures |r| == n && forall i :: 0 <= i < n ==> r[i] == ip
    {
      seq(n, _ => ip)
    }

    /** Inserting an item that already has an anchor leaves its earlier
        cells occupied: after two insertions of the same item in a row, the
        cell of its first anchor is still owned by it but lies outside the
        footprint of its new anchor, so the occupancy is no longer an exact
        cover. */
    lemma ReplacementBreaksCover(dir: Direction, cap: int, s0: PackState, s1: PackState, s2: PackState, ip: IndexPath)
      requires Inserted(dir, cap, s0, s1, ip) && Inserted(dir, cap, s1, s2, ip)
      ensures !Covered(dir, s2.owner, s2.anchors)
    {
      var span := SpanOf(dir, SizeFor(ip));
      var a1, a2 := ToCell(dir, s1.anchors[ip]), ToCell(dir, s2.anchors[ip]);
      assert Covers(a1, span, a1);
      assert a1 in s1.owner && s1.owner[a1] == ip;
      assert s2.owner[a1] == ip;
      assert !Covers(a2, span, a1);
    }

    /** A run of `insertCellsToIndexPath` that places its target more than
        once ends without an exact cover. */
    lemma RepeatedInsertionBreaksCover(dir: Direction, cap: int, trace: seq<PackState>, ip: IndexPath)
      requires 2 < |trace| && Steps(dir, cap, trace, Repeat(ip, |trace| - 1))
      ensures !Covered(dir, trace[|trace| - 1].owner, trace[|trace| - 1].anchors)
    {
      var n := |trace| - 1;
      assert StepAt(dir, cap, trace, Repeat(ip, n), n - 2);
      assert StepAt(dir, cap, trace, Repeat(ip, n), n - 1);
      ReplacementBreaksCover(dir, cap, trace[n - 2], trace[n - 1], trace[n], ip);
    }

    /** Every state of `trace` but the first and the last has its scan
        cursor before row `target`. */
    ghost predicate BelowTarget(dir: Direction, trace: seq<PackState>, target: int)
    {
      forall i :: 1 <= i < |trace| - 1 ==> ToCell(dir, trace[i].fos).unbound < target
    }

    /** Whatever state comes next, the last one joins them when its scan
        cursor is before the target too. */
    lemma BelowTargetExtend(dir: Direction, trace: seq<PackState>, target: int, s: PackState)
      requires BelowTarget(dir, trace, target)
      requires 1 < |trace| ==> ToCell(dir, trace[|trace| - 1].fos).unbound < target
      ensures BelowTarget(dir, trace + [s], target)
    {
      forall i | 1 <= i < |trace|
        ensures ToCell(dir, (trace + [s])[i].fos).unbound < target
      {
        assert (trace + [s])[i] == trace[i];
      }
    }

    /** A whole run of `insertCellsToUnboundIndex(target)` from insertion
        cursor `start` and packing state `s0`, ending with insertion cursor
        `cursor` and packing state `s`: the items after `start` are placed in
        visiting order, each by one insertion step recorded in `trace`;
        every placement but the last left the scan cursor before the target;
        at least one item is placed when any is left; and the run ends with
        the scan cursor at or past the target unless no item is left.
        `UnboundRunUnique` shows that this fixes the run. Contracts state it
        as `UnboundRun(...) == true`, like `Progress`. */
    ghost predicate UnboundRun(dir: Direction, cap: int, counts: seq<nat>, target: int, start: IndexPath,
                               s0: PackState, placed: seq<IndexPath>, trace: seq<PackState>,
                               cursor: IndexPath, s: PackState)
    {
      && Chain(counts, start, placed) && cursor == Last(start, placed)
      && Trace(dir, cap, s0, placed, trace, s)
      && BelowTarget(dir, trace, target)
      && (NextItem(counts, start).Some? ==> 0 < |placed|)
      && (NextItem(counts, cursor).Some? ==> target <= ToCell(dir, s.fos).unbound)
    }

    /** A run of `insertCellsToUnboundIndex` is fixed by where it starts and
        its target: two runs place the same items, pass through the same
        states and end in the same state. So a contract stating the run
        states the whole new packing state, and neither more nor less
        packing. */
    lemma UnboundRunUnique(dir: Direction, cap: int, counts: seq<nat>, target: int, start: IndexPath, s0: PackState,
                           p: seq<IndexPath>, trace: seq<PackState>, cursor: IndexPath, s: PackState,
                           q: seq<IndexPath>, other: seq<PackState>, cursor': IndexPath, s': PackState)
      requires UnboundRun(dir, cap, counts, target, start, s0, p, trace, cursor, s)
      requires UnboundRun(dir, cap, counts, target, start, s0, q, other, cursor', s')
      ensures p == q && trace == other && cursor == cursor' && s == s'
    {
      UnboundRunNotShorter(dir, cap, counts, target, start, s0, p, trace, cursor, s, q, other, cursor', s');
      UnboundRunNotShorter(dir, cap, counts, target, start, s0, q, other, cursor', s', p, trace, cursor, s);
      ChainsAgree(counts, start, p, q, |p|);
      forall j | 0 <= j < |trace| ensures trace[j] == other[j] {
        TracesAgree(dir, cap, p, trace, q, other, j);
      }
    }

    /** A run stops no later than any other run from the same start: the
        longer one would have to go on after a placement that reached the
        target. */
    lemma UnboundRunNotShorter(dir: Direction, cap: int, counts: seq<nat>, target: int, start: IndexPath, s0: PackState,
                               p: seq<IndexPath>, trace: seq<PackState>, cursor: IndexPath, s: PackState,
                               q: seq<IndexPath>, other: seq<PackState>, cursor': IndexPath, s': PackState)
      requires UnboundRun(dir, cap, counts, target, start, s0, p, trace, cursor, s)
      requires UnboundRun(dir, cap, counts, target, start, s0, q, other, cursor', s')
      ensures |q| <= |p|
    {
      if |p| < |q| {
        UnboundRunContinued(dir, cap, counts, target, start, s0, p, trace, cursor, s, q, other);
        assert false;
      }
    }

    /** Any longer run of insertions along the same chain of items reaches
        the target with the placement that ends `p`'s run: `p` places
        something when anything is left, and it stops only at the target
        or when nothing is left. */
    lemma UnboundRunContinued(dir: Direction, cap: int, counts: seq<nat>, target: int, start: IndexPath, s0: PackState,
                              p: seq<IndexPath>, trace: seq<PackState>, cursor: IndexPath, s: PackState,
                              q: seq<IndexPath>, other: seq<PackState>)
      requires UnboundRun(dir, cap, counts, target, start, s0, p, trace, cursor, s)
      requires Chain(counts, start, q) && Steps(dir, cap, other, q) && other[0] == s0 && |p| < |q|
      ensures 0 < |p| && target <= ToCell(dir, other[|p|].fos).unbound
    {
      var n := |p|;
      assert NextItem(counts, Prev(start, q, 0)) == Some(q[0]);
      ChainsAgree(counts, start, p, q, n);
      assert NextItem(counts, Prev(start, q, n)) == Some(q[n]);
      assert Prev(start, q, n) == cursor;
      TracesAgree(dir, cap, p, trace, q, other, n);
    }

    /** `insertCellsToUnboundIndex`: resume after the insertion cursor and
        place items in order, moving the insertion cursor to each, until a
        placement leaves the scan cursor at or past row `unboundIndex`, or the
        items run out. `trace` is the packing states along the way, one
        `insertCellAtIndexPath` step per placed item. The test follows the
        insertion: when anything is left to place, at least one item is
        placed, even if the scan cursor is already past the target; and
        every placement but the last left the scan cursor before the
        target. */
    method InsertCellsToUnboundIndex(unboundIndex: int) returns (ghost placed: seq<IndexPath>, ghost trace: seq<PackState>)
      requires Valid() && ItemZeroUnplaced()
      modifies this`indexPathByPosition, this`positionByIndexPath, this`firstOpenSpace, this`furthestCellPosition,
               this`indexPathCache
      ensures Valid() && ItemZeroUnplaced()
      ensures old(ExactCover()) && old(AnchoredBefore()) ==> ExactCover() && AnchoredBefore()
      ensures Grew()
      ensures forall ip :: ip in positionByIndexPath <==> ip in old(positionByIndexPath) || ip in placed
      ensures UnboundRun(scrollDirection, Capacity(), itemCounts, unboundIndex, old(indexPathCache), old(State()),
                         placed, trace, indexPathCache, State()) == true
    {
      ghost var start, fosS, furthestS := indexPathCache, firstOpenSpace, furthestCellPosition;
      ghost var ownerS, anchorsS := indexPathByPosition, positionByIndexPath;
      ghost var exact := old(ExactCover()) && old(AnchoredBefore());
      placed, trace := [], [State()];
      var section: nat := indexPathCache.section;
      var stop := false;
      while section < |itemCounts| && !stop
        invariant Progress(start, fosS, furthestS, ownerS, anchorsS, placed, exact, trace, unboundIndex) == true
        invariant stop ==> 0 < |placed| && unboundIndex <= FosCell().unbound
        invariant !stop ==> (0 < |placed| ==> FosCell().unbound < unboundIndex)
                            && NextItem(itemCounts, indexPathCache) == NextFrom(itemCounts, section, indexPathCache.row + 1)
        decreases |itemCounts| - section
      {
        stop, placed, trace := InsertSection(section, unboundIndex, start, fosS, furthestS, ownerS, anchorsS, exact,
                                             placed, trace);
        section := section + 1;
      }
    }

    /** The state of the row loop of `section` before row `row`: the
        packing has progressed as `Progress` says, and either a placement
        reached the target (`stop`) or the loop goes on from the row after
        the insertion cursor's. Stated as `RowLoop(...) == true`, like
        `Progress`. */
    ghost predicate RowLoop(section: nat, row: int, stop: bool, unboundIndex: int, start: IndexPath, fosS: Point,
                            furthestS: Point, ownerS: Occupancy, anchorsS: map<IndexPath, Point>, exact: bool,
                            placed: seq<IndexPath>, trace: seq<PackState>)
      reads this
    {
      && Progress(start, fosS, furthestS, ownerS, anchorsS, placed, exact, trace, unboundIndex)
      && (stop ==> 0 < |placed| && unboundIndex <= FosCell().unbound)
      && (!stop ==> (0 < |placed| ==> FosCell().unbound < unboundIndex)
                    && row == indexPathCache.row + 1
                    && NextItem(itemCounts, indexPathCache) == NextFrom(itemCounts, section, row))
    }

    /** One section of `insertCellsToUnboundIndex`: its row loop, starting
        after the insertion cursor's row. `stop` reports that a placement
        reached the target row. */
    method InsertSection(section: nat, unboundIndex: int, ghost start: IndexPath, ghost fosS: Point,
                         ghost furthestS: Point, ghost ownerS: Occupancy, ghost anchorsS: map<IndexPath, Point>,
                         ghost exact: bool, ghost placed0: seq<IndexPath>, ghost trace0: seq<PackState>)
      returns (stop: bool, ghost placed: seq<IndexPath>, ghost trace: seq<PackState>)
      requires section < |itemCounts|
      requires Progress(start, fosS, furthestS, ownerS, anchorsS, placed0, exact, trace0, unboundIndex) == true
      requires 0 < |placed0| ==> FosCell().unbound < unboundIndex
      requires NextItem(itemCounts, indexPathCache) == NextFrom(itemCounts, section, indexPathCache.row + 1)
      modifies this`indexPathByPosition, this`positionByIndexPath, this`firstOpenSpace, this`furthestCellPosition,
               this`indexPathCache
      ensures Progress(start, fosS, furthestS, ownerS, anchorsS, placed, exact, trace, unboundIndex) == true
      ensures stop ==> 0 < |placed| && unboundIndex <= FosCell().unbound
      ensures !stop ==> (0 < |placed| ==> FosCell().unbound < unboundIndex)
                        && NextItem(itemCounts, indexPathCache) == NextFrom(itemCounts, section + 1, indexPathCache.row + 1)
    {
      placed, trace := placed0, trace0;
      stop := false;
      var row := indexPathCache.row + 1;
      while row < itemCounts[section] && !stop
        invariant RowLoop(section, row, stop, unboundIndex, start, fosS, furthestS, ownerS, anchorsS, exact,
                          placed, trace) == true
        decreases itemCounts[section] - row
      {
        stop, placed, trace := InsertStep(section, row, unboundIndex, start, fosS, furthestS, ownerS, anchorsS, exact,
                                          placed, trace);
        row := row + 1;
      }
      if !stop {
        NextFromSkip(itemCounts, section, row);
      }
    }

    /** The trace bookkeeping of one placement in `insertCellsToUnboundIndex`:
        the run of insertions grows by one, and the state it leaves behind
        had its scan cursor before the target. */
    lemma TraceStep(dir: Direction, cap: int, s0: PackState, items: seq<IndexPath>, trace: seq<PackState>,
                    s1: PackState, ip: IndexPath, s: PackState, target: int)
      requires Trace(dir, cap, s0, items, trace, s1) == true
      requires BelowTarget(dir, trace, target) == true
      requires 0 < |items| ==> ToCell(dir, s1.fos).unbound < target
      requires Inserted(dir, cap, s1, s, ip) == true
      ensures Trace(dir, cap, s0, items + [ip], trace + [s], s) == true
      ensures BelowTarget(dir, trace + [s], target) == true
    {
      TraceExtend(dir, cap, s0, items, trace, s1, ip, s);
      BelowTargetExtend(dir, trace, target, s);
    }

    /** One iteration of the row loop, with its ghost bookkeeping; `stop` is
        the test that follows the insertion. */
    method InsertStep(section: nat, row: nat, unboundIndex: int, ghost start: IndexPath, ghost fosS: Point,
                      ghost furthestS: Point, ghost ownerS: Occupancy, ghost anchorsS: map<IndexPath, Point>,
                      ghost exact: bool, ghost placed0: seq<IndexPath>, ghost trace0: seq<PackState>)
      returns (stop: bool, ghost placed: seq<IndexPath>, ghost trace: seq<PackState>)
      requires section < |itemCounts| && row < itemCounts[section]
      requires RowLoop(section, row, false, unboundIndex, start, fosS, furthestS, ownerS, anchorsS, exact,
                       placed0, trace0) == true
      modifies this`indexPathByPosition, this`positionByIndexPath, this`firstOpenSpace, this`furthestCellPosition,
               this`indexPathCache
      ensures RowLoop(section, row + 1, stop, unboundIndex, start, fosS, furthestS, ownerS, anchorsS, exact,
                      placed, trace) == true
      ensures placed == placed0 + [IndexPath(section, row)]
      ensures indexPathCache == IndexPath(section, row)
      ensures stop <==> unboundIndex <= FosCell().unbound
    {
      var indexPath := IndexPath(section, row);
      assert NextFrom(itemCounts, section, row) == Some(indexPath);
      ghost var fos0, furthest0, owner0 := firstOpenSpace, furthestCellPosition, indexPathByPosition;
      InsertNext(indexPath, unboundIndex, PackState(fosS, furthestS, ownerS, anchorsS), placed0, trace0);
      AdvancedTrans(scrollDirection, fosS, furthestS, ownerS,
                    fos0, furthest0, owner0, firstOpenSpace, furthestCellPosition, indexPathByPosition);
      ChainExtend(itemCounts, start, placed0, indexPath);
      placed, trace := placed0 + [indexPath], trace0 + [State()];
      stop := FosCell().unbound >= unboundIndex;
    }

    /** What an iteration of `insertCellsToUnboundIndex` starts from: the
        invariants hold, `indexPath` is the next item, `trace0` is the run of
        insertions of `items0` from `s0` to the current state, its inner
        states are before row `target`, and so is the current one when
        anything was placed. Stated as `NextReady(...) == true`, like
        `Progress`. */
    ghost predicate NextReady(indexPath: IndexPath, target: int, s0: PackState, items0: seq<IndexPath>,
                              trace0: seq<PackState>)
      reads this
    {
      && Valid() && ItemZeroUnplaced()
      && NextItem(itemCounts, indexPathCache) == Some(indexPath)
      && Trace(scrollDirection, Capacity(), s0, items0, trace0, State())
      && BelowTarget(scrollDirection, trace0, target)
      && (0 < |items0| ==> FosCell().unbound < target)
    }

    /** One iteration of `insertCellsToUnboundIndex`: place the next item and
        move the insertion cursor to it. The run of insertions `trace0` from
        `s0`, whose inner states are before row `target`, grows by this one;
        the state it leaves behind is before the target when anything was
        placed before. */
    method InsertNext(indexPath: IndexPath, ghost target: int, ghost s0: PackState, ghost items0: seq<IndexPath>,
                      ghost trace0: seq<PackState>)
      requires NextReady(indexPath, target, s0, items0, trace0) == true
      modifies this`indexPathByPosition, this`positionByIndexPath, this`firstOpenSpace, this`furthestCellPosition,
               this`indexPathCache
      ensures Valid() && ItemZeroUnplaced()
      ensures old(ExactCover() && AnchoredBefore()) ==> ExactCover() && AnchoredBefore()
      ensures Grew()
      ensures indexPathCache == indexPath
      ensures forall ip :: ip in positionByIndexPath <==> ip in old(positionByIndexPath) || ip == indexPath
      ensures Trace(scrollDirection, Capacity(), s0, items0 + [indexPath], trace0 + [State()], State()) == true
      ensures BelowTarget(scrollDirection, trace0 + [State()], target) == true
    {
      ghost var owner0, anchors0 := indexPathByPosition, positionByIndexPath;
      ghost var fos0, furthest0 := firstOpenSpace, furthestCellPosition;
      var inserted := InsertCell(indexPath);
      TraceStep(scrollDirection, Capacity(), s0, items0, trace0, old(State()), indexPath, State(), target);
      if old(AnchoredBefore()) {
        assert indexPath !in anchors0;
      }
      if inserted {
        indexPathCache := indexPath;
      }
    }

    // -------------------------------------------------------------------------
    // Queries

    /** `positionForIndexPath`: the stored anchor; an item without one is
        first packed by `insertCellsToIndexPath`, whose run is `visited` and
        `trace`, and the origin stands in when that still leaves it without
        an anchor. */
    method PositionForIndexPath(ip: IndexPath) returns (position: Point, ghost visited: seq<IndexPath>,
                                                        ghost trace: seq<PackState>)
      requires Valid() && ItemZeroUnplaced()
      modifies this`indexPathByPosition, this`positionByIndexPath, this`firstOpenSpace, this`furthestCellPosition,
               this`indexPathCache
      ensures Valid() && ItemZeroUnplaced()
      ensures Grew()
      ensures forall x :: x in old(positionByIndexPath) ==> x in positionByIndexPath
      ensures position == ResolvedPosition(positionByIndexPath, ip)
      ensures ip in old(positionByIndexPath) ==>
                && position == old(positionByIndexPath)[ip] && visited == []
                && indexPathByPosition == old(indexPathByPosition) && positionByIndexPath == old(positionByIndexPath)
                && firstOpenSpace == old(firstOpenSpace) && furthestCellPosition == old(furthestCellPosition)
                && indexPathCache == old(indexPathCache)
      ensures ip !in old(positionByIndexPath) ==>
                (ip in positionByIndexPath <==>
                   NextItem(itemCounts, old(indexPathCache)).Some? && !Past(NextItem(itemCounts, old(indexPathCache)).value, ip))
      ensures ip !in old(positionByIndexPath) ==>
                IndexRun(scrollDirection, Capacity(), itemCounts, ip, old(indexPathCache), old(State()),
                         visited, trace, indexPathCache, State()) == true
    {
      if ip in positionByIndexPath {
        position, visited, trace := positionByIndexPath[ip], [], [State()];
      } else {
        ghost var start := indexPathCache;
        visited, trace := InsertCellsToIndexPath(ip);
        if 0 < |visited| {
          assert Prev(start, visited, 0) == start;
          assert visited[0] in visited;
        }
        position := if ip in positionByIndexPath then positionByIndexPath[ip] else Origin;
      }
    }

    /** `rectForIndexPath`: the frame of the item at its (possibly freshly
        packed) anchor; `visited` and `trace` are the packing run, if any. */
    method RectForIndexPath(ip: IndexPath) returns (frame: Frame, ghost visited: seq<IndexPath>, ghost trace: seq<PackState>)
      requires Valid() && ItemZeroUnplaced()
      modifies this`indexPathByPosition, this`positionByIndexPath, this`firstOpenSpace, this`furthestCellPosition,
               this`indexPathCache
      ensures Valid() && ItemZeroUnplaced()
      ensures Grew()
      ensures forall x :: x in old(positionByIndexPath) ==> x in positionByIndexPath
      ensures frame == ResolvedFrame(scrollDirection, cellSize, positionByIndexPath, ip)
      ensures ip in old(positionByIndexPath) ==>
                && visited == []
                && indexPathByPosition == old(indexPathByPosition) && positionByIndexPath == old(positionByIndexPath)
                && firstOpenSpace == old(firstOpenSpace) && furthestCellPosition == old(furthestCellPosition)
                && indexPathCache == old(indexPathCache)
      ensures ip !in old(positionByIndexPath) ==>
                IndexRun(scrollDirection, Capacity(), itemCounts, ip, old(indexPathCache), old(State()),
                         visited, trace, indexPathCache, State()) == true
    {
      var position;
      position, visited, trace := PositionForIndexPath(ip);
      var aCellSize := SizeFor(ip);
      frame := FrameAt(scrollDirection, position, aCellSize, cellSize, contentWidth, contentHeight, Capacity());
    }

    /** `layoutAttributesForItemAtIndexPath`: nothing without a delegate;
        otherwise the item's frame shrunk by the delegate's insets.
        `visited` and `trace` are the packing run, if any. */
    method LayoutAttributesForItem(ip: IndexPath) returns (attributes: Option<Attributes>, ghost visited: seq<IndexPath>,
                                                           ghost trace: seq<PackState>)
      requires Valid() && ItemZeroUnplaced()
      modifies this`indexPathByPosition, this`positionByIndexPath, this`firstOpenSpace, this`furthestCellPosition,
               this`indexPathCache
      ensures Valid() && ItemZeroUnplaced()
      ensures Grew()
      ensures forall x :: x in old(positionByIndexPath) ==> x in positionByIndexPath
      ensures attributes == ItemAttributes(scrollDirection, cellSize, positionByIndexPath, ip)
      ensures delegate.None? || ip in old(positionByIndexPath) ==>
                && visited == []
                && indexPathByPosition == old(indexPathByPosition) && positionByIndexPath == old(positionByIndexPath)
                && firstOpenSpace == old(firstOpenSpace) && furthestCellPosition == old(furthestCellPosition)
                && indexPathCache == old(indexPathCache)
      ensures delegate.Some? && ip !in old(positionByIndexPath) ==>
                IndexRun(scrollDirection, Capacity(), itemCounts, ip, old(indexPathCache), old(State()),
                         visited, trace, indexPathCache, State()) == true
    {
      if delegate.None? {
        return None, [], [State()];
      }
      var insets := InsetsFor(ip);
      var frame;
      frame, visited, trace := RectForIndexPath(ip);
      attributes := Some(Attributes(ip, InsetRect(frame, insets)));
    }

    /** One row of the query loop of `layoutAttributesForElementsInRect`:
        the attributes of the owners of its cells within the capacity. The
        owners all have anchors, so the per-item query changes nothing. */
    method QueryRow(unboundIndex: int) returns (attributes: set<Attributes>)
      requires Valid() && ItemZeroUnplaced()
      modifies this`indexPathByPosition, this`positionByIndexPath, this`firstOpenSpace, this`furthestCellPosition,
               this`indexPathCache
      ensures attributes == RowAttributes(scrollDirection, cellSize, indexPathByPosition, positionByIndexPath, unboundIndex, Capacity())
      ensures indexPathByPosition == old(indexPathByPosition) && positionByIndexPath == old(positionByIndexPath)
      ensures firstOpenSpace == old(firstOpenSpace) && furthestCellPosition == old(furthestCellPosition)
      ensures indexPathCache == old(indexPathCache)
    {
      attributes := {};
      var boundIndex := 0;
      while boundIndex < Capacity()
        invariant 0 <= boundIndex <= Capacity()
        invariant attributes == RowAttributes(scrollDirection, cellSize, indexPathByPosition, positionByIndexPath, unboundIndex, boundIndex)
        invariant indexPathByPosition == old(indexPathByPosition) && positionByIndexPath == old(positionByIndexPath)
        invariant firstOpenSpace == old(firstOpenSpace) && furthestCellPosition == old(furthestCellPosition)
        invariant indexPathCache == old(indexPathCache)
      {
        var position := ToPoint(scrollDirection, Cell(boundIndex, unboundIndex));
        CellPointRoundTrip(scrollDirection, Cell(boundIndex, unboundIndex));
        var indexPath := IndexPathForPosition(position);
        if indexPath.Some? {
          var attribute;
          ghost var visited, trace;
          attribute, visited, trace := LayoutAttributesForItem(indexPath.value);
          if attribute.Some? {
            attributes := attributes + {attribute.value};
          }
        }
        boundIndex := boundIndex + 1;
      }
    }

    /** The scan of `layoutAttributesForElementsInRect`: the attributes of
        rows [start, end), row by row. */
    method CollectRows(start: int, end: int) returns (attributes: set<Attributes>)
      requires Valid() && ItemZeroUnplaced()
      modifies this`indexPathByPosition, this`positionByIndexPath, this`firstOpenSpace, this`furthestCellPosition,
               this`indexPathCache
      ensures attributes == RowsAttributes(scrollDirection, cellSize, indexPathByPosition, positionByIndexPath, start, end)
      ensures indexPathByPosition == old(indexPathByPosition) && positionByIndexPath == old(positionByIndexPath)
      ensures firstOpenSpace == old(firstOpenSpace) && furthestCellPosition == old(furthestCellPosition)
      ensures indexPathCache == old(indexPathCache)
    {
      attributes := {};
      var unboundIndex := start;
      while unboundIndex < end
        invariant start <= unboundIndex && (unboundIndex <= end || unboundIndex == start)
        invariant attributes == RowsAttributes(scrollDirection, cellSize, indexPathByPosition, positionByIndexPath, start, unboundIndex)
        invariant indexPathByPosition == old(indexPathByPosition) && positionByIndexPath == old(positionByIndexPath)
        invariant firstOpenSpace == old(firstOpenSpace) && furthestCellPosition == old(furthestCellPosition)
        invariant indexPathCache == old(indexPathCache)
      {
        var row := QueryRow(unboundIndex);
        attributes := attributes + row;
        unboundIndex := unboundIndex + 1;
      }
    }

    /** `layoutAttributesForElementsInRect`: the cached answer for the cached
        rectangle, otherwise a fresh answer; `placed` and `trace` are the
        packing run of a cache miss. */
    method LayoutAttributesForElementsInRect(rect: Rect) returns (attributes: set<Attributes>,
                                                                  ghost placed: seq<IndexPath>, ghost trace: seq<PackState>)
      requires Valid() && ItemZeroUnplaced()
      requires rect != layoutRectCache ==> QueryLengthDefined(scrollDirection, cellSize, rect)
      modifies this`indexPathByPosition, this`positionByIndexPath, this`firstOpenSpace, this`furthestCellPosition,
               this`indexPathCache, this`layoutRectCache, this`layoutAttributesCache
      ensures Valid() && ItemZeroUnplaced()
      ensures Grew()
      ensures forall x :: x in old(positionByIndexPath) ==> x in positionByIndexPath
      ensures old(ExactCover()) && old(AnchoredBefore()) ==> ExactCover() && AnchoredBefore()
      ensures rect == old(layoutRectCache) ==>
                && attributes == old(layoutAttributesCache) && layoutAttributesCache == old(layoutAttributesCache)
                && placed == []
                && indexPathByPosition == old(indexPathByPosition) && positionByIndexPath == old(positionByIndexPath)
                && firstOpenSpace == old(firstOpenSpace) && furthestCellPosition == old(furthestCellPosition)
                && indexPathCache == old(indexPathCache)
      ensures rect != old(layoutRectCache) ==>
                var start := QueryStart(scrollDirection, cellSize, rect);
                && attributes == RowsAttributes(scrollDirection, cellSize, indexPathByPosition, positionByIndexPath,
                                                start, start + QueryLength(scrollDirection, cellSize, rect))
                && layoutAttributesCache == attributes
                && UnboundRun(scrollDirection, Capacity(), itemCounts, (if preemptivelyRenderLayout then IntMax
                                               else start + QueryLength(scrollDirection, cellSize, rect)),
                           old(indexPathCache), old(State()), placed, trace, indexPathCache, State()) == true
      ensures layoutRectCache == rect
    {
      if rect == layoutRectCache {
        attributes, placed, trace := layoutAttributesCache, [], [State()];
      } else {
        attributes, placed, trace := RefreshAttributes(rect);
      }
    }

    /** A cache miss of `layoutAttributesForElementsInRect`: pack up to the
        rectangle's last row (or everything in preemptive mode), collect the
        attributes of its rows over the whole capacity, and cache the
        rectangle and the answer. A negative length traps in the conversion to an
        unsigned integer. `placed` and `trace` are the packing run. */
    method RefreshAttributes(rect: Rect) returns (attributes: set<Attributes>,
                                                  ghost placed: seq<IndexPath>, ghost trace: seq<PackState>)
      requires Valid() && ItemZeroUnplaced()
      requires QueryLengthDefined(scrollDirection, cellSize, rect)
      modifies this`indexPathByPosition, this`positionByIndexPath, this`firstOpenSpace, this`furthestCellPosition,
               this`indexPathCache, this`layoutRectCache, this`layoutAttributesCache
      ensures PackedForward() == true
      ensures var start := QueryStart(scrollDirection, cellSize, rect);
              && attributes == RowsAttributes(scrollDirection, cellSize, indexPathByPosition, positionByIndexPath,
                                              start, start + QueryLength(scrollDirection, cellSize, rect))
              && UnboundRun(scrollDirection, Capacity(), itemCounts, (if preemptivelyRenderLayout then IntMax
                                             else start + QueryLength(scrollDirection, cellSize, rect)),
                           old(indexPathCache), old(State()), placed, trace, indexPathCache, State()) == true
      ensures layoutAttributesCache == attributes && layoutRectCache == rect
    {
      layoutRectCache := rect;
      var unboundIndexStart := QueryStart(scrollDirection, cellSize, rect);
      var length := QueryLength(scrollDirection, cellSize, rect);
      attributes, placed, trace := QueryRows(unboundIndexStart, unboundIndexStart + length);
    }

    /** The packing and the scan of a cache miss: pack up to row `end` (or
        everything in preemptive mode), then collect the attributes of rows
        [start, end) and cache them. `placed` and `trace` are the packing run. */
    method QueryRows(start: int, end: int) returns (attributes: set<Attributes>,
                                                    ghost placed: seq<IndexPath>, ghost trace: seq<PackState>)
      requires Valid() && ItemZeroUnplaced()
      modifies this`indexPathByPosition, this`positionByIndexPath, this`firstOpenSpace, this`furthestCellPosition,
               this`indexPathCache, this`layoutAttributesCache
      ensures PackedForward() == true
      ensures UnboundRun(scrollDirection, Capacity(), itemCounts, if preemptivelyRenderLayout then IntMax else end,
                           old(indexPathCache), old(State()), placed, trace, indexPathCache, State()) == true
      ensures attributes == RowsAttributes(scrollDirection, cellSize, indexPathByPosition, positionByIndexPath, start, end)
      ensures layoutAttributesCache == attributes
    {
      placed, trace := PackForQuery(end);
      attributes := CollectRows(start, end);
      layoutAttributesCache := attributes;
    }

    /** The packing of a cache miss: up to row `end`, or everything in
        preemptive mode. `placed` and `trace` are the run of
        `insertCellsToUnboundIndex`. */
    method PackForQuery(end: int) returns (ghost placed: seq<IndexPath>, ghost trace: seq<PackState>)
      requires Valid() && ItemZeroUnplaced()
      modifies this`indexPathByPosition, this`positionByIndexPath, this`firstOpenSpace, this`furthestCellPosition,
               this`indexPathCache
      ensures PackedForward() == true
      ensures UnboundRun(scrollDirection, Capacity(), itemCounts, if preemptivelyRenderLayout then IntMax else end,
                           old(indexPathCache), old(State()), placed, trace, indexPathCache, State()) == true
    {
      if preemptivelyRenderLayout {
        placed, trace := InsertCellsToUnboundIndex(IntMax);
      } else {
        placed, trace := InsertCellsToUnboundIndex(end);
      }
    }

    /** `prepareLayout`: without a delegate nothing happens; otherwise pack
        up to one row past the visible frame's far edge along the scroll
        axis, or everything in preemptive mode. `placed` and `trace` are the
        run of `insertCellsToUnboundIndex`, if any. */
    method PrepareLayout(contentOffsetX: int, contentOffsetY: int)
      returns (ghost placed: seq<IndexPath>, ghost trace: seq<PackState>)
      requires Valid() && ItemZeroUnplaced()
      modifies this`indexPathByPosition, this`positionByIndexPath, this`firstOpenSpace, this`furthestCellPosition,
               this`indexPathCache
      ensures Valid() && ItemZeroUnplaced()
      ensures Grew()
      ensures forall x :: x in old(positionByIndexPath) ==> x in positionByIndexPath
      ensures old(ExactCover()) && old(AnchoredBefore()) ==> ExactCover() && AnchoredBefore()
      ensures delegate.None? ==>
                && placed == []
                && indexPathByPosition == old(indexPathByPosition) && positionByIndexPath == old(positionByIndexPath)
                && firstOpenSpace == old(firstOpenSpace) && furthestCellPosition == old(furthestCellPosition)
                && indexPathCache == old(indexPathCache)
      ensures delegate.Some? ==>
                UnboundRun(scrollDirection, Capacity(), itemCounts, PrepareTarget(scrollDirection, cellSize, preemptivelyRenderLayout,
                                                                     contentOffsetX, contentOffsetY),
                           old(indexPathCache), old(State()), placed, trace, indexPathCache, State()) == true
    {
      if delegate.None? {
        return [], [State()];
      }
      var unboundIndex := PrepareTarget(scrollDirection, cellSize, preemptivelyRenderLayout, contentOffsetX, contentOffsetY);
      placed, trace := InsertCellsToUnboundIndex(unboundIndex);
    }

    // -------------------------------------------------------------------------
    // Properties of the packed layout

    /** The anchor of a placed item is one of its own cells. */
    lemma AnchorOwnedByItem(ip: IndexPath)
      requires Valid()
      requires ip in positionByIndexPath
      ensures IndexPathForPosition(positionByIndexPath[ip]) == Some(ip)
    {
      var a := positionByIndexPath[ip];
      assert Owns(scrollDirection, indexPathByPosition, a, ip);
      assert Covers(CellOf(a), SpanFor(ip), CellOf(a));
    }

    /** Under the packing invariant the owner found at a position is a placed
        item, and a position inside a placed item's footprint finds that
        item. */
    lemma LookupFindsPlacedItem(p: Point, ip: IndexPath)
      requires Valid()
      ensures IndexPathForPosition(p).Some? ==> IndexPathForPosition(p).value in positionByIndexPath
      ensures ip in positionByIndexPath && InScreenRect(positionByIndexPath[ip], SizeFor(ip), p) ==>
                IndexPathForPosition(p) == Some(ip)
    {
      if IndexPathForPosition(p).Some? {
        assert CellOf(p) in indexPathByPosition;
      }
      if ip in positionByIndexPath && InScreenRect(positionByIndexPath[ip], SizeFor(ip), p) {
        CoversInScreen(scrollDirection, positionByIndexPath[ip], SizeFor(ip), p);
        assert Owns(scrollDirection, indexPathByPosition, positionByIndexPath[ip], ip);
      }
    }

    /** Under the packing invariant the content size spans the content rect
        across the scroll direction and at least one unit cell along it. */
    lemma ContentSizeAtLeastOneRow()
      requires Valid()
      ensures var s := ContentSize();
              if scrollDirection == Vertical then s.width == contentWidth && cellSize.height <= s.height
              else s.height == contentHeight && cellSize.width <= s.width
    {
      if Cell(0, 0) in indexPathByPosition {
        assert Dominated(ToPoint(scrollDirection, Cell(0, 0)), furthestCellPosition);
      }
    }

    /** While every occupied cell lies in its owner's footprint, the owner
        of a position is an item whose footprint holds the position. */
    lemma OwnerCoversPosition(p: Point)
      requires ExactCover()
      ensures IndexPathForPosition(p).Some? ==>
                var ip := IndexPathForPosition(p).value;
                ip in positionByIndexPath && InScreenRect(positionByIndexPath[ip], SizeFor(ip), p)
    {
      if IndexPathForPosition(p).Some? {
        var ip := IndexPathForPosition(p).value;
        assert CellOf(p) in indexPathByPosition;
        CoversInScreen(scrollDirection, positionByIndexPath[ip], SizeFor(ip), p);
      }
    }

    /** Distinct placed items have frames with disjoint interiors: no two
        items overlap on screen. */
    lemma PlacedFramesApart(a: IndexPath, b: IndexPath)
      requires Valid()
      requires a in positionByIndexPath && b in positionByIndexPath && a != b
      ensures Apart(ResolvedFrame(scrollDirection, cellSize, positionByIndexPath, a),
                    ResolvedFrame(scrollDirection, cellSize, positionByIndexPath, b))
    {
      var pa, pb := positionByIndexPath[a], positionByIndexPath[b];
      assert Owns(scrollDirection, indexPathByPosition, pa, a);
      assert Owns(scrollDirection, indexPathByPosition, pb, b);
      forall p | InScreenRect(pa, SizeFor(a), p) ensures !InScreenRect(pb, SizeFor(b), p) {
        CoversInScreen(scrollDirection, pa, SizeFor(a), p);
        CoversInScreen(scrollDirection, pb, SizeFor(b), p);
      }
      FramesApart(scrollDirection, pa, SizeFor(a), pb, SizeFor(b), cellSize, contentWidth, contentHeight, Capacity());
    }

    /** A placed item whose footprint fits within the capacity (every item
        not anchored at bound 0 does) has its frame inside the content rect
        across the scroll direction, when at least one unit cell fits. */
    lemma PlacedFrameWithinContent(ip: IndexPath)
      requires Valid()
      requires ip in positionByIndexPath
      requires BoundUnit(scrollDirection, cellSize) <= BoundExtent(scrollDirection, contentWidth, contentHeight)
      ensures AnchorCell(ip).bound != 0 || SpanFor(ip).bound <= Capacity() ==>
                var f := ResolvedFrame(scrollDirection, cellSize, positionByIndexPath, ip);
                0.0 <= BoundStart(scrollDirection, f)
                && BoundStart(scrollDirection, f) + BoundLength(scrollDirection, f)
                   <= BoundExtent(scrollDirection, contentWidth, contentHeight) as real
    {
      if AnchorCell(ip).bound != 0 || SpanFor(ip).bound <= Capacity() {
        FrameWithinContent(scrollDirection, positionByIndexPath[ip], SizeFor(ip), cellSize, contentWidth, contentHeight);
      }
    }

    /** The content size reaches past the frame of every placed item along
        the scroll direction. */
    lemma ContentCoversPlaced(ip: IndexPath)
      requires Valid()
      requires ip in positionByIndexPath
      ensures var f := ResolvedFrame(scrollDirection, cellSize, positionByIndexPath, ip);
              ScrollEnd(scrollDirection, f)
              <= (if scrollDirection == Vertical then ContentSize().height else ContentSize().width) as real
    {
      var a := positionByIndexPath[ip];
      var far := FarCorner(a, SizeFor(ip));
      assert Owns(scrollDirection, indexPathByPosition, a, ip);
      CoversInScreen(scrollDirection, a, SizeFor(ip), far);
      assert CellOf(far) in indexPathByPosition;
      assert Dominated(ToPoint(scrollDirection, CellOf(far)), furthestCellPosition);
      ContentCoversFrame(scrollDirection, furthestCellPosition, a, SizeFor(ip), cellSize, contentWidth, contentHeight, Capacity());
    }

    /** The attributes of bounds [0, b) of row u are those of its cells. */
    lemma {:induction false} RowAttributesMembers(dir: Direction, unit: UnitSize, owner: Occupancy,
                                                  anchors: map<IndexPath, Point>, u: int, b: int, x: Attributes)
      ensures x in RowAttributes(dir, unit, owner, anchors, u, b) <==>
                exists k :: 0 <= k < b && x in AttributesAt(dir, unit, owner, anchors, Cell(k, u))
      decreases b
    {
      if 0 < b {
        RowAttributesMembers(dir, unit, owner, anchors, u, b - 1, x);
      }
    }

    /** The attributes of rows [start, end) are those of their cells within
        the capacity. */
    lemma {:induction false} RowsAttributesMembers(dir: Direction, unit: UnitSize, owner: Occupancy,
                                                   anchors: map<IndexPath, Point>, start: int, end: int, x: Attributes)
      ensures var cap := CellsInBounds(BoundExtent(dir, contentWidth, contentHeight), BoundUnit(dir, unit));
              x in RowsAttributes(dir, unit, owner, anchors, start, end) <==>
                exists c: Cell :: start <= c.unbound < end && 0 <= c.bound < cap && x in AttributesAt(dir, unit, owner, anchors, c)
      decreases end - start
    {
      var cap := CellsInBounds(BoundExtent(dir, contentWidth, contentHeight), BoundUnit(dir, unit));
      if start < end {
        RowsAttributesMembers(dir, unit, owner, anchors, start, end - 1, x);
        RowAttributesMembers(dir, unit, owner, anchors, end - 1, cap, x);
        if x in RowAttributes(dir, unit, owner, anchors, end - 1, cap) {
          var k :| 0 <= k < cap && x in AttributesAt(dir, unit, owner, anchors, Cell(k, end - 1));
          assert Cell(k, end - 1).unbound == end - 1;
        }
      }
    }

    /** The answer to a rectangle query holds exactly the attributes of the
        placed items with a cell in the rectangle's rows within the
        capacity, one per item, each the item's own attributes. */
    lemma QueryAttributes(start: int, end: int)
      requires Valid()
      ensures var result := RowsAttributes(scrollDirection, cellSize, indexPathByPosition, positionByIndexPath, start, end);
              && (forall x :: x in result ==>
                    x.indexPath in positionByIndexPath
                    && ItemAttributes(scrollDirection, cellSize, positionByIndexPath, x.indexPath) == Some(x))
              && (forall x, y :: x in result && y in result && x.indexPath == y.indexPath ==> x == y)
              && (forall c: Cell :: (start <= c.unbound < end && 0 <= c.bound < Capacity() && c in indexPathByPosition
                                     && delegate.Some?) ==>
                    ItemAttributes(scrollDirection, cellSize, positionByIndexPath, indexPathByPosition[c]).value in result)
    {
      var result := RowsAttributes(scrollDirection, cellSize, indexPathByPosition, positionByIndexPath, start, end);
      forall x | x in result
        ensures x.indexPath in positionByIndexPath
        ensures ItemAttributes(scrollDirection, cellSize, positionByIndexPath, x.indexPath) == Some(x)
      {
        RowsAttributesMembers(scrollDirection, cellSize, indexPathByPosition, positionByIndexPath, start, end, x);
      }
      forall c: Cell | start <= c.unbound < end && 0 <= c.bound < Capacity() && c in indexPathByPosition && delegate.Some?
        ensures ItemAttributes(scrollDirection, cellSize, positionByIndexPath, indexPathByPosition[c]).value in result
      {
        var x := ItemAttributes(scrollDirection, cellSize, positionByIndexPath, indexPathByPosition[c]).value;
        RowsAttributesMembers(scrollDirection, cellSize, indexPathByPosition, positionByIndexPath, start, end, x);
        assert x in AttributesAt(scrollDirection, cellSize, indexPathByPosition, positionByIndexPath, c);
      }
    }

    /** Without a delegate, or before anything is placed, a rectangle query
        finds nothing. */
    lemma QueryFindsNothing(dir: Direction, unit: UnitSize, owner: Occupancy, anchors: map<IndexPath, Point>,
                            start: int, end: int)
      ensures delegate.None? || owner == map[] ==> RowsAttributes(dir, unit, owner, anchors, start, end) == {}
    {
      if delegate.None? || owner == map[] {
        forall x | x in RowsAttributes(dir, unit, owner, anchors, start, end) ensures false {
          RowsAttributesMembers(dir, unit, owner, anchors, start, end, x);
        }
      }
    }

    /** Item (0, 0) is never packed, so its position falls back to the
        origin. Under an exact cover (the unbound-index path, with no
        repeated insertion), once anything is placed the origin cell belongs
        to another item anchored there, and the two frames overlap. */
    lemma ItemZeroShadowsOrigin()
      requires Valid() && ItemZeroUnplaced() && ExactCover()
      requires indexPathByPosition != map[]
      ensures IndexPathForPosition(Origin).Some?
      ensures var ip := IndexPathForPosition(Origin).value;
              && ip != IndexPath(0, 0) && ip in positionByIndexPath && positionByIndexPath[ip] == Origin
              && !Apart(ResolvedFrame(scrollDirection, cellSize, positionByIndexPath, IndexPath(0, 0)),
                        ResolvedFrame(scrollDirection, cellSize, positionByIndexPath, ip))
    {
      assert CellOf(Origin) == Cell(0, 0);
      var ip := indexPathByPosition[Cell(0, 0)];
      var a := positionByIndexPath[ip];
      assert Covers(CellOf(a), SpanFor(ip), Cell(0, 0));
      assert a == Origin;
      var zero := IndexPath(0, 0);
      MulMonotone(1, SizeFor(zero).width, cellSize.width);
      MulMonotone(1, SizeFor(zero).height, cellSize.height);
      MulMonotone(1, SizeFor(ip).width, cellSize.width);
      MulMonotone(1, SizeFor(ip).height, cellSize.height);
    }

    /** The state along `insertCellsToIndexPath(target)` started from
        insertion cursor `start` and packing state `*S`: the packing
        invariant holds, packing moved forward, `visited` are the items
        visited so far, in order, none of them past the target, and the
        target has an anchor exactly when something was visited. Like
        `Progress`, it is stated as `Approach(...) == true` so that it is
        proved as one obligation. */
    ghost predicate Approach(target: IndexPath, start: IndexPath, fosS: Point, furthestS: Point, ownerS: Occupancy,
                             anchorsS: map<IndexPath, Point>, visited: seq<IndexPath>)
      reads this
    {
      && Valid() && ItemZeroUnplaced()
      && Advanced(scrollDirection, fosS, furthestS, ownerS, firstOpenSpace, furthestCellPosition, indexPathByPosition)
      && Chain(itemCounts, start, visited) && indexPathCache == Last(start, visited)
      && (forall v :: v in visited ==> !Past(v, target))
      && (forall ip :: ip in positionByIndexPath <==> ip in anchorsS || (0 < |visited| && ip == target))
    }

    /** A whole run of `insertCellsToIndexPath(target)` from insertion
        cursor `start` and packing state `s0`, ending with insertion cursor
        `cursor` and packing state `s`: the items after `start` are visited
        in order up to the first one past the target, and each visit is one
        more insertion of the target, recorded in `trace`. `IndexRunUnique`
        shows that this fixes the run. Contracts state it as
        `IndexRun(...) == true`, like `Progress`. */
    ghost predicate IndexRun(dir: Direction, cap: int, counts: seq<nat>, target: IndexPath, start: IndexPath,
                             s0: PackState, visited: seq<IndexPath>, trace: seq<PackState>,
                             cursor: IndexPath, s: PackState)
    {
      && Chain(counts, start, visited) && cursor == Last(start, visited)
      && (forall v :: v in visited ==> !Past(v, target))
      && (NextItem(counts, cursor).Some? ==> Past(NextItem(counts, cursor).value, target))
      && Trace(dir, cap, s0, Repeat(target, |visited|), trace, s)
    }

    /** A run of `insertCellsToIndexPath` is fixed by where it starts and
        its target: two runs visit the same items, pass through the same
        states and end in the same state. */
    lemma IndexRunUnique(dir: Direction, cap: int, counts: seq<nat>, target: IndexPath, start: IndexPath, s0: PackState,
                         v: seq<IndexPath>, trace: seq<PackState>, cursor: IndexPath, s: PackState,
                         w: seq<IndexPath>, other: seq<PackState>, cursor': IndexPath, s': PackState)
      requires IndexRun(dir, cap, counts, target, start, s0, v, trace, cursor, s)
      requires IndexRun(dir, cap, counts, target, start, s0, w, other, cursor', s')
      ensures v == w && trace == other && cursor == cursor' && s == s'
    {
      IndexRunNotShorter(dir, cap, counts, target, start, s0, v, trace, cursor, s, w, other, cursor', s');
      IndexRunNotShorter(dir, cap, counts, target, start, s0, w, other, cursor', s', v, trace, cursor, s);
      ChainsAgree(counts, start, v, w, |v|);
      forall j | 0 <= j < |trace| ensures trace[j] == other[j] {
        TracesAgree(dir, cap, Repeat(target, |v|), trace, Repeat(target, |w|), other, j);
      }
    }

    /** A run returns no later than any other run from the same start: the
        longer one would have visited an item past the target. */
    lemma IndexRunNotShorter(dir: Direction, cap: int, counts: seq<nat>, target: IndexPath, start: IndexPath, s0: PackState,
                             v: seq<IndexPath>, trace: seq<PackState>, cursor: IndexPath, s: PackState,
                             w: seq<IndexPath>, other: seq<PackState>, cursor': IndexPath, s': PackState)
      requires IndexRun(dir, cap, counts, target, start, s0, v, trace, cursor, s)
      requires IndexRun(dir, cap, counts, target, start, s0, w, other, cursor', s')
      ensures |w| <= |v|
    {
      if |v| < |w| {
        IndexRunContinued(dir, cap, counts, target, start, s0, v, trace, cursor, s, w);
        assert false;
      }
    }

    /** Any longer chain of visits from the same start goes on to an item
        past the target. */
    lemma IndexRunContinued(dir: Direction, cap: int, counts: seq<nat>, target: IndexPath, start: IndexPath, s0: PackState,
                            v: seq<IndexPath>, trace: seq<PackState>, cursor: IndexPath, s: PackState, w: seq<IndexPath>)
      requires IndexRun(dir, cap, counts, target, start, s0, v, trace, cursor, s)
      requires Chain(counts, start, w) && |v| < |w|
      ensures Past(w[|v|], target)
    {
      var n := |v|;
      ChainsAgree(counts, start, v, w, n);
      assert NextItem(counts, Prev(start, w, n)) == Some(w[n]);
      assert Prev(start, w, n) == cursor;
    }

    /** `insertCellsToIndexPath`: resume after the insertion cursor and visit
        items in order, returning at the first one past the target. For each
        visited item it places the TARGET again (not the visited item) and
        moves the insertion cursor to the visited item. So the target gets a
        new anchor on every visit, its earlier cells stay occupied, and the
        visited items themselves are never placed. Item (0, 0) visits
        nothing. `trace` is the packing states along the way, one
        `insertCellAtIndexPath` step of the target per visit; a second
        visit leaves the occupancy without an exact cover. */
    method InsertCellsToIndexPath(target: IndexPath) returns (ghost visited: seq<IndexPath>, ghost trace: seq<PackState>)
      requires Valid() && ItemZeroUnplaced()
      modifies this`indexPathByPosition, this`positionByIndexPath, this`firstOpenSpace, this`furthestCellPosition,
               this`indexPathCache
      ensures Valid() && ItemZeroUnplaced()
      ensures Grew()
      ensures forall ip :: ip in positionByIndexPath <==> ip in old(positionByIndexPath) || (0 < |visited| && ip == target)
      ensures IndexRun(scrollDirection, Capacity(), itemCounts, target, old(indexPathCache), old(State()),
                       visited, trace, indexPathCache, State()) == true
      ensures 1 < |visited| ==> !ExactCover()
    {
      ghost var start, fosS, furthestS := indexPathCache, firstOpenSpace, furthestCellPosition;
      ghost var ownerS, anchorsS := indexPathByPosition, positionByIndexPath;
      visited, trace := [], [State()];
      var section: nat := indexPathCache.section;
      var stop := false;
      while section < |itemCounts| && !stop
        invariant Approach(target, start, fosS, furthestS, ownerS, anchorsS, visited) == true
        invariant Trace(scrollDirection, Capacity(), old(State()), Repeat(target, |visited|), trace, State()) == true
        invariant stop ==> NextItem(itemCounts, indexPathCache).Some? && Past(NextItem(itemCounts, indexPathCache).value, target)
        invariant !stop ==> NextItem(itemCounts, indexPathCache) == NextFrom(itemCounts, section, indexPathCache.row + 1)
        decreases |itemCounts| - section
      {
        stop, visited, trace := ApproachSection(section, target, start, fosS, furthestS, ownerS, anchorsS, old(State()),
                                                visited, trace);
        section := section + 1;
      }
      if 1 < |visited| {
        RepeatedInsertionBreaksCover(scrollDirection, Capacity(), trace, target);
      }
    }

    /** One section of `insertCellsToIndexPath`: its row loop, starting
        after the insertion cursor's row. `stop` reports the return at an
        item past the target. */
    method ApproachSection(section: nat, target: IndexPath, ghost start: IndexPath, ghost fosS: Point,
                           ghost furthestS: Point, ghost ownerS: Occupancy, ghost anchorsS: map<IndexPath, Point>,
                           ghost s0: PackState, ghost visited0: seq<IndexPath>, ghost trace0: seq<PackState>)
      returns (stop: bool, ghost visited: seq<IndexPath>, ghost trace: seq<PackState>)
      requires section < |itemCounts|
      requires Approach(target, start, fosS, furthestS, ownerS, anchorsS, visited0) == true
      requires Trace(scrollDirection, Capacity(), s0, Repeat(target, |visited0|), trace0, State()) == true
      requires NextItem(itemCounts, indexPathCache) == NextFrom(itemCounts, section, indexPathCache.row + 1)
      modifies this`indexPathByPosition, this`positionByIndexPath, this`firstOpenSpace, this`furthestCellPosition,
               this`indexPathCache
      ensures Approach(target, start, fosS, furthestS, ownerS, anchorsS, visited) == true
      ensures Trace(scrollDirection, Capacity(), s0, Repeat(target, |visited|), trace, State()) == true
      ensures stop ==> NextItem(itemCounts, indexPathCache).Some? && Past(NextItem(itemCounts, indexPathCache).value, target)
      ensures !stop ==> NextItem(itemCounts, indexPathCache) == NextFrom(itemCounts, section + 1, indexPathCache.row + 1)
    {
      visited, trace := visited0, trace0;
      stop := false;
      var row := indexPathCache.row + 1;
      while row < itemCounts[section] && !stop
        invariant Approach(target, start, fosS, furthestS, ownerS, anchorsS, visited) == true
        invariant Trace(scrollDirection, Capacity(), s0, Repeat(target, |visited|), trace, State()) == true
        invariant stop ==> NextItem(itemCounts, indexPathCache).Some? && Past(NextItem(itemCounts, indexPathCache).value, target)
        invariant !stop ==> row == indexPathCache.row + 1 && NextItem(itemCounts, indexPathCache) == NextFrom(itemCounts, section, row)
        decreases itemCounts[section] - row, if stop then 0 else 1
      {
        if section >= target.section && row > target.row {
          assert NextFrom(itemCounts, section, row) == Some(IndexPath(section, row));
          stop := true;
        } else {
          visited, trace := ApproachStep(section, row, target, start, fosS, furthestS, ownerS, anchorsS, s0, visited, trace);
          row := row + 1;
        }
      }
      if !stop {
        NextFromSkip(itemCounts, section, row);
      }
    }

    /** One visit of `insertCellsToIndexPath`: place the target, and move
        the insertion cursor to the visited item. The run of insertions
        `trace0` from `s0` grows by one insertion of the target. */
    method ApproachStep(section: nat, row: nat, target: IndexPath, ghost start: IndexPath, ghost fosS: Point,
                        ghost furthestS: Point, ghost ownerS: Occupancy, ghost anchorsS: map<IndexPath, Point>,
                        ghost s0: PackState, ghost visited0: seq<IndexPath>, ghost trace0: seq<PackState>)
      returns (ghost visited: seq<IndexPath>, ghost trace: seq<PackState>)
      requires Approach(target, start, fosS, furthestS, ownerS, anchorsS, visited0) == true
      requires Trace(scrollDirection, Capacity(), s0, Repeat(target, |visited0|), trace0, State()) == true
      requires section < |itemCounts| && row < itemCounts[section]
      requires NextItem(itemCounts, indexPathCache) == NextFrom(itemCounts, section, row)
      requires !Past(IndexPath(section, row), target)
      modifies this`indexPathByPosition, this`positionByIndexPath, this`firstOpenSpace, this`furthestCellPosition,
               this`indexPathCache
      ensures Approach(target, start, fosS, furthestS, ownerS, anchorsS, visited) == true
      ensures Trace(scrollDirection, Capacity(), s0, Repeat(target, |visited|), trace, State()) == true
      ensures visited == visited0 + [IndexPath(section, row)] && trace == trace0 + [State()]
      ensures indexPathCache == IndexPath(section, row)
      ensures NextItem(itemCounts, indexPathCache) == NextFrom(itemCounts, section, row + 1)
    {
      var newIndexPath := IndexPath(section, row);
      assert NextFrom(itemCounts, section, row) == Some(newIndexPath);
      // the item (0, 0) is past itself: a target that is not past a visited item is not (0, 0)
      assert target != IndexPath(0, 0);
      ghost var fos0, furthest0, owner0 := firstOpenSpace, furthestCellPosition, indexPathByPosition;
      ApproachVisit(target, newIndexPath, s0, |visited0|, trace0);
      AdvancedTrans(scrollDirection, fosS, furthestS, ownerS,
                    fos0, furthest0, owner0, firstOpenSpace, furthestCellPosition, indexPathByPosition);
      ChainExtend(itemCounts, start, visited0, newIndexPath);
      visited, trace := visited0 + [newIndexPath], trace0 + [State()];
    }

    /** The body of one visit: `insertCellAtIndexPath(target)`, and the
        insertion cursor moves to the visited item. The run of `n`
        insertions of the target `trace0` from `s0` grows by one. */
    method ApproachVisit(target: IndexPath, newIndexPath: IndexPath, ghost s0: PackState, ghost n: nat,
                         ghost trace0: seq<PackState>)
      requires Valid()
      requires Trace(scrollDirection, Capacity(), s0, Repeat(target, n), trace0, State()) == true
      modifies this`indexPathByPosition, this`positionByIndexPath, this`firstOpenSpace, this`furthestCellPosition,
               this`indexPathCache
      ensures Valid()
      ensures Grew()
      ensures forall x :: x in positionByIndexPath <==> x in old(positionByIndexPath) || x == target
      ensures indexPathCache == newIndexPath
      ensures Trace(scrollDirection, Capacity(), s0, Repeat(target, n + 1), trace0 + [State()], State()) == true
    {
      var inserted := InsertCell(target);
      TraceExtend(scrollDirection, Capacity(), s0, Repeat(target, n), trace0, old(State()), target, State());
      assert Repeat(target, n) + [target] == Repeat(target, n + 1);
      if inserted {
        indexPathCache := newIndexPath;
      }
    }
  }
}
