# MosaicLayout in Dafny

A verified model of `MosaicLayout`. It is a collection-view layout that packs
items of whole-cell sizes (width x height grid units, as the delegate
reports them) onto a grid. The grid is bounded across the scroll direction
and grows without bound along it. The layout packs lazily: only as far as
the current viewport or query needs. It also caches the answer to the last
rectangle query.

Along the scroll direction the grid is indexed by the *unbound* index; across
it, by the *bound* index. When scrolling vertically, bound is x and unbound
is y; when scrolling horizontally, the other way round. The *capacity*
(`maximumNumberOfCellsInBounds`) is the number of whole unit cells that fit
across the inset content rect, and never less than 1.

The state of a layout is:

- the occupancy map `indexPathByPosition`, from cell to owning item;
- the anchor map `positionByIndexPath`;
- the scan cursor `firstOpenSpace`;
- `furthestCellPosition`, with its `didSet` observer;
- the insertion cursor `indexPathCache`;
- the rectangle cache.

The model keeps these as fields of the class `MosaicLayout`, and each method
changes them as the source does.

Files:

- `wrappers.dfy`: `Option`.
- `geometry.dfy`: the axis mapping, footprints, truncating casts, the
  capacity, frames with centring padding and insets, and the content size.
  It also proves the geometric facts: frames stay inside the content rect,
  distinct footprints give frames with disjoint interiors, and the content
  size covers a frame.
- `items.dfy`: index paths and the order in which both insertion drivers
  visit items (`NextItem`, `Chain`). This includes the restart of every
  section's row loop at `indexPathCache.row + 1`.
- `packing.dfy`: the first-fit rule stated declaratively. A footprint fits
  at an anchor when its cells are free and within the capacity, or the
  anchor is at bound 0. The packer takes the first fitting anchor in
  row-major scan order, and the first free cell of the scan.
- `layout.dfy`: the class `MosaicLayout`, written as imperative Dafny
  following the source's loops:
  - the footprint walk and the commit;
  - the open-cell scan;
  - the single-item insert;
  - both insertion drivers;
  - the per-item, rectangle and prepare entry points;
  - the invariants these preserve;
  - the properties of the packed layout.

The invariant `Valid` holds in every state a public operation leaves:

- every occupied cell's owner has an anchor;
- every anchor's footprint is owned by it;
- footprints leave the capacity only from bound 0;
- the furthest cell dominates every occupied cell;
- every scan candidate before the scan cursor is occupied.

Along `insertCellsToUnboundIndex` two more properties hold:

- `ExactCover`: every occupied cell lies in its owner's footprint.
- `AnchoredBefore`: every placed item is at or before the insertion cursor.

The source's behaviour is modelled as written, including these quirks:

- `insertCellsToIndexPath` calls `insertCellAtIndexPath` with the TARGET
  index path, not with the item being visited. Each visit therefore gives
  the target a new anchor, its earlier cells stay occupied, and the visited
  items are never placed. Only the insertion cursor moves to them.
  `InsertCellsToIndexPath` states this through the run of insertions it
  returns: every step is an insertion of the target. A second visit leaves
  the occupancy without an exact cover (`RepeatedInsertionBreaksCover`), so
  `ExactCover` is kept only on the other path.
- Item (0, 0) is never packed, because both drivers resume after the cursor
  and the cursor starts at (0, 0). `positionForIndexPath` falls back to the
  origin for it. `ItemZeroShadowsOrigin` shows that, under an exact cover,
  this frame overlaps the item anchored at the origin.
- `insertCellsToUnboundIndex` tests its stop condition after each insertion.
  A call whose target is already reached therefore still places one item,
  so the driver is not idempotent.
- A rectangle query counts one extra row when scrolling horizontally.
- The open-cell scan is an unbounded `repeat … while(true)`. It terminates
  because a row past the furthest occupied row accepts any item at bound 0.
- Assigning the origin to `furthestCellPosition` resets it, because the
  observer skips the maximum for the zero point. `invalidateLayout` relies
  on this.

Three further facts about the code:

- First-fit does not keep items in order along the scroll axis:
  `LaterItemCanLandOnEarlierRow` exhibits a later item placed on an
  earlier row.
- The insertion drivers are not idempotent (see the third quirk above).
- The rectangle cache returns the cached answer for an equal rectangle,
  even after other calls have packed more items.

## Model

| member | source | states |
|---|---|---|
| Geometry.ToCell | Library/MosaicLayout.swift:344-358 | mapping a screen position to (bound, unbound) and back gives the position again, in both scroll directions |
| Geometry.CellPointRoundTrip | Library/MosaicLayout.swift:165-174 | the screen position the query loop (and the open-cell scan) builds from a (bound, unbound) cell maps back to that cell, so the lookup reads the cell the loop meant, in both scroll directions |
| Geometry.SpanOf | Library/MosaicLayout.swift:561-575 | an item's width and height fall on the bound and unbound axes the same way a screen position's x and y do, so the footprint walk over widths and heights is a walk over spans |
| Geometry.CoversInScreen | Library/MosaicLayout.swift:561-575 | the cells the x-outer, y-inner footprint walk visits are exactly the footprint cells in (bound, unbound) terms, whatever the scroll direction |
| Geometry.FarCorner | Library/MosaicLayout.swift:432-441 | the last cell the footprint walk visits lies in the footprint and dominates every cell of it |
| Geometry.TruncDiv | Library/MosaicLayout.swift:139-149 | the `Int(a / b)` casts truncate toward zero: the quotient bounds the dividend from below for non-negative values and from above for negative ones |
| Geometry.CellsInBounds | Library/MosaicLayout.swift:52-75 | the capacity is at least 1; it is the whole number of unit cells that fit in the extent when at least one fits, and exactly 1 when none fits |
| Geometry.Padding | Library/MosaicLayout.swift:289-309 | twice the padding plus the capacity's pixel length equals the bound extent, so the grid is centred |
| Geometry.FrameOnAxes | Library/MosaicLayout.swift:286-309 | across the scroll direction the frame starts at the anchor's bound index in units plus the centring padding and is the item's bound span in units long; along it, the frame starts at the anchor's row in units and ends where the item's last row ends |
| Geometry.InsetRect | Library/MosaicLayout.swift:197-205 | zero insets leave the frame unchanged, and non-negative insets shrink it within the original frame on each axis |
| Geometry.FrameWithinContent | Library/MosaicLayout.swift:278-313 | a footprint within the capacity gives a frame inside the content rect across the scroll direction, padding included |
| Geometry.FramesApart | Library/MosaicLayout.swift:278-313 | footprints with no common cell give frames with disjoint interiors |
| Geometry.ContentCoversFrame | Library/MosaicLayout.swift:110-130 | the content size reaches past the frame of every footprint the furthest cell dominates, along the scroll direction |
| Geometry.ContentSize | Library/MosaicLayout.swift:110-130 | the content size spans the content rect across the scroll direction and, for a furthest cell on screen, at least one unit along it |
| Items.NextFrom | Library/MosaicLayout.swift:480-483 | the next item the row loop reaches is in a section at or after the starting one, on the given row, and that row exists in its section |
| Items.NextFromFirst | Library/MosaicLayout.swift:480-483 | the section found is the first from the starting one that holds the row: every section passed over is too short, and nothing is found exactly when every section is too short |
| Items.NextFromSkip | Library/MosaicLayout.swift:480-483 | a section with too few items for the row is skipped entirely |
| Items.NextItem | Library/MosaicLayout.swift:480-488 | the item a driver visits after the cursor follows it in order and is on the row after the cursor's row, in a section that has that row |
| Items.NextItemFirst | Library/MosaicLayout.swift:480-488 | the item visited after the cursor is in the first section from the cursor's that has the cursor's row + 1, and there is none exactly when no such section exists |
| Items.ChainIncreasing | Library/MosaicLayout.swift:476-509 | the drivers visit items in strictly increasing order, all after the cursor they started from, and never row 0 of a section |
| Items.ChainPrefix | Library/MosaicLayout.swift:476-509 | every visited item comes after the starting cursor and after every item visited before it |
| Items.ChainExtend | Library/MosaicLayout.swift:486-488 | visiting the next item and moving the cursor to it extends the visit sequence |
| Items.ChainsAgree | Library/MosaicLayout.swift:480-488 | two visit sequences from the same cursor agree as far as both go: the visiting order is fixed by the item counts |
| Items.ItemZeroNeverVisited | Library/MosaicLayout.swift:460-465 | no driver visits item (0, 0), and every visited item is past (0, 0) for the early return of `insertCellsToIndexPath` |
| Items.LaterSectionSkipped | Library/MosaicLayout.swift:480-483 | restarting each section at the cursor's row + 1 can skip a whole section: with two sections of three items and the cursor on the last item of the first, nothing more is visited |
| Packing.TakenGrows | Library/MosaicLayout.swift:541-548 | occupying more cells keeps every candidate before the scan cursor occupied |
| Packing.NoFitAdvance | Library/MosaicLayout.swift:550-553 | a candidate the feasibility walk rejects is passed over and the scan moves on |
| Packing.SkipOccupied | Library/MosaicLayout.swift:541-543 | an occupied candidate cannot be an anchor, so skipping it keeps the first-fit order |
| Packing.TakenAdvance | Library/MosaicLayout.swift:541-543 | skipping an occupied candidate keeps every earlier candidate occupied |
| Packing.NextRow | Library/MosaicLayout.swift:529-556 | the scan continues at bound 0 of the next row after the last bound of a row |
| Packing.FirstFitUnique | Library/MosaicLayout.swift:514-559 | there is at most one first-fit anchor |
| Packing.FirstFreeUnique | Library/MosaicLayout.swift:514-559 | there is at most one first free cell, so the scan cursor after an insertion is fixed |
| Packing.FirstFreeNotAfterFit | Library/MosaicLayout.swift:545-548 | the first free cell the scan meets never comes after the anchor it accepts |
| Packing.EmptyRowAccepts | Library/MosaicLayout.swift:417-420 | a row past every occupied cell accepts any item at bound 0, even one wider than the capacity, so the unbounded scan ends there |
| Packing.LaterItemCanLandOnEarlierRow | Library/MosaicLayout.swift:514-559 | first-fit does not keep items in order along the scroll axis: a later 1x1 item can land on an earlier row |
| Layout.PointMax | Library/MosaicLayout.swift:34-37 | the component-wise maximum dominates both points and is the least point that does |
| Layout.ObserveFurthest | Library/MosaicLayout.swift:30-40 | an assignment of the origin resets the furthest cell; any other assignment keeps the least point dominating the old and the new value |
| Layout.MosaicLayout.Capacity | Library/MosaicLayout.swift:52-75 | the number of cells in bounds is never 0 |
| Layout.MosaicLayout.DefaultSizeIsOneCell | Library/MosaicLayout.swift:314-322 | without a delegate or its size method an item is one unit cell: its footprint is its anchor cell alone and its frame is one unit wide and high |
| Layout.MosaicLayout.InsetFrame | Library/MosaicLayout.swift:197-205 | without the insets method the attributes' frame is the item's frame; with non-negative insets it lies inside it |
| Layout.MosaicLayout.QueryStartOfRect | Library/MosaicLayout.swift:139-149 | the first queried row holds the rectangle's leading edge along the scroll axis, the quotient truncated toward zero for negative offsets |
| Layout.MosaicLayout.QueryLengthOfRect | Library/MosaicLayout.swift:139-152 | the query length is the number of whole rows in the rectangle's extent, one more when scrolling horizontally, and the `UInt` conversion is defined exactly when the extent exceeds minus one unit |
| Layout.MosaicLayout.PrepareTargetPastFrame | Library/MosaicLayout.swift:217-236 | outside preemptive mode, for a non-negative far edge, the prepare target is one row past the row holding the visible frame's far edge; in preemptive mode it is `Int.max` |
| Layout.MosaicLayout.ConsistentBoundsScan | Library/MosaicLayout.swift:526-558 | under the packing invariant the scan cursor row is not negative and no occupied cell lies past the furthest row, which bounds the unbounded scan |
| Layout.MosaicLayout.AdvancedTrans | Library/MosaicLayout.swift:476-509 | moving forward twice is moving forward: cells keep their owners, and the scan row and the furthest cell do not go back |
| Layout.MosaicLayout.constructor | Library/MosaicLayout.swift:77-90 | the initial state is vertical scrolling, 100x100 unit cells, no preemptive rendering, and an empty epoch satisfying every invariant; the content rect's extents are absolute values, as `CGRectGetWidth` and `CGRectGetHeight` report them |
| Layout.MosaicLayout.InvalidateLayout | Library/MosaicLayout.swift:262-273 | the insertion cursor returns to (0, 0); the caches, both maps, the scan cursor and the furthest cell are cleared; the invariants hold; the content size is one unit along the scroll direction |
| Layout.MosaicLayout.SetScrollDirection | Library/MosaicLayout.swift:16-20 | changing the scroll direction starts a new, empty epoch |
| Layout.MosaicLayout.SetCellSize | Library/MosaicLayout.swift:22-26 | changing the unit cell size starts a new, empty epoch |
| Layout.MosaicLayout.FootprintFits | Library/MosaicLayout.swift:400-424 | the feasibility walk passes exactly when every footprint cell is free and inside the capacity, or the anchor is at bound 0 |
| Layout.MosaicLayout.SetPosition | Library/MosaicLayout.swift:363-381 | the cell at the position now maps to the item and every other cell keeps its owner |
| Layout.MosaicLayout.SetIndexPath | Library/MosaicLayout.swift:383-389 | the item is now anchored at the position and no other anchor changes |
| Layout.MosaicLayout.SetFurthest | Library/MosaicLayout.swift:30-40 | an assignment to `furthestCellPosition` goes through its observer |
| Layout.MosaicLayout.CommitFootprint | Library/MosaicLayout.swift:430-441 | the commit records the anchor and adds exactly the footprint cells, all owned by the item, overwriting nothing; the furthest cell becomes the far corner joined with the old one, or the far corner alone at the origin |
| Layout.MosaicLayout.CommitDone | Library/MosaicLayout.swift:566-574 | a finished commit walk has written exactly the footprint |
| Layout.MosaicLayout.CommitColumn | Library/MosaicLayout.swift:566-572 | one column of the commit walk writes that column's cells of the footprint |
| Layout.MosaicLayout.ColumnEnd | Library/MosaicLayout.swift:566-567 | the end of one column of the walk is the start of the next |
| Layout.MosaicLayout.CommitCell | Library/MosaicLayout.swift:435-440 | one visit of the committing closure maps one more footprint cell to the item and folds it into the furthest cell |
| Layout.MosaicLayout.TrackStep | Library/MosaicLayout.swift:437 | folding the visited cell into the furthest cell through the observer gives the furthest cell of the longer walk |
| Layout.MosaicLayout.TryAnchor | Library/MosaicLayout.swift:398-444 | the closure keeps scanning exactly when the footprint does not fit, changing nothing; otherwise it commits a first-fit placement at the candidate |
| Layout.MosaicLayout.VisitCell | Library/MosaicLayout.swift:530-553 | an occupied candidate is skipped; the first free one becomes the scan cursor; a candidate is offered only after every earlier one failed to fit |
| Layout.MosaicLayout.ScanRow | Library/MosaicLayout.swift:529-554 | a row either ends the scan with a first-fit placement or passes on, with nothing changed, to the next row, having met an occupied cell |
| Layout.MosaicLayout.TraverseOpenCells | Library/MosaicLayout.swift:514-559 | the scan always ends with a placement at the first-fit anchor from the cursor row, and the scan cursor moves to the first free cell it met, at or before the anchor |
| Layout.MosaicLayout.CursorMoves | Library/MosaicLayout.swift:545-548 | moving the scan cursor to the first free cell keeps the packing invariant |
| Layout.MosaicLayout.PlacedKeepsConsistent | Library/MosaicLayout.swift:395-446 | a first-fit placement keeps the packing invariant, and the cells, the scan row and the furthest cell only move forward |
| Layout.MosaicLayout.PlacementKeepsOwners | Library/MosaicLayout.swift:404-441 | after a placement every item still owns its whole footprint, and footprints leave the capacity only from bound 0 |
| Layout.MosaicLayout.PlacementKeepsFurthest | Library/MosaicLayout.swift:432-441 | after a placement the furthest cell dominates every occupied cell and has not decreased, and the origin cell is occupied |
| Layout.MosaicLayout.InsertCell | Library/MosaicLayout.swift:395-446 | inserting always succeeds, keeps the packing invariant and only moves forward; the new state is one insertion step (`Inserted`): the item is anchored at the first fit from the scan cursor's row, exactly its footprint is added and owned by it, no other cell or anchor changes, the furthest cell takes in the far corner, and the scan cursor moves to the first free cell met, at or before the anchor |
| Layout.MosaicLayout.InsertedUnique | Library/MosaicLayout.swift:395-446 | one insertion is deterministic: the state after inserting an item is fixed by the state before |
| Layout.MosaicLayout.TracesAgree | Library/MosaicLayout.swift:395-446 | runs of insertions of the same items from the same state pass through the same states |
| Layout.MosaicLayout.PlacementKeepsCover | Library/MosaicLayout.swift:430-441 | placing an item that had no anchor keeps every occupied cell inside its owner's footprint |
| Layout.MosaicLayout.InsertCellsToUnboundIndex | Library/MosaicLayout.swift:476-509 | the new state is one run (`UnboundRun`): items are visited in order from the cursor, each placed and the cursor moved to it; the trace holds the packing state after each placement, each one insertion step of the placed item from the one before; every placement but the last leaves the scan cursor before the target row; at least one item is placed when any is left; it stops once the scan cursor reaches the target row or the items run out; keeps every invariant |
| Layout.MosaicLayout.UnboundRunUnique | Library/MosaicLayout.swift:476-509 | two runs of `insertCellsToUnboundIndex` from the same cursor and state to the same target place the same items, pass through the same states and end in the same state: the run contract fixes the new state, so no more and no less is packed |
| Layout.MosaicLayout.UnboundRunContinued | Library/MosaicLayout.swift:490-503 | any longer run along the same items has reached the target with the placement that ends the shorter run, so the stop test returns there |
| Layout.MosaicLayout.InsertSection | Library/MosaicLayout.swift:480-507 | one section's row loop, restarting at the cursor's row + 1, places items in order, extending the trace by one insertion step each, and stops at the first placement that leaves the scan cursor at or past the target row |
| Layout.MosaicLayout.InsertStep | Library/MosaicLayout.swift:483-503 | one iteration places the next item, moves the cursor to it, extends the visit sequence and the trace, and reports whether the scan cursor reached the target row |
| Layout.MosaicLayout.InsertNext | Library/MosaicLayout.swift:484-488 | placing the next item keeps the exact cover and the anchoring before the cursor, moves the cursor to the item, and adds one insertion step of the item to the trace |
| Layout.MosaicLayout.PositionForIndexPath | Library/MosaicLayout.swift:324-341 | a stored anchor is returned with nothing changed and nothing visited; otherwise the new state is exactly one run of `insertCellsToIndexPath` from the old state (`IndexRun`: the items visited, one insertion of the item per visit, the return at the first item past it), the item gets an anchor exactly when the next item after the cursor exists and is not past it, and the origin stands in when it gets none |
| Layout.MosaicLayout.RectForIndexPath | Library/MosaicLayout.swift:278-313 | the frame is the item's frame at its resolved anchor; nothing changes when the item was already placed, and otherwise the new state is exactly the `insertCellsToIndexPath` run of `positionForIndexPath` |
| Layout.MosaicLayout.LayoutAttributesForItem | Library/MosaicLayout.swift:189-208 | nothing without a delegate; otherwise the item's frame shrunk by its insets; nothing changes without a delegate or when the item was already placed, and otherwise the new state is exactly the `insertCellsToIndexPath` run of `positionForIndexPath` |
| Layout.MosaicLayout.QueryRow | Library/MosaicLayout.swift:166-181 | one row of the query collects the attributes of the owners of its cells within the capacity and changes nothing |
| Layout.MosaicLayout.CollectRows | Library/MosaicLayout.swift:165-182 | the query loop collects the attributes of the owners of the cells in rows [start, end) and changes nothing |
| Layout.MosaicLayout.LayoutAttributesForElementsInRect | Library/MosaicLayout.swift:132-187 | for the cached rectangle, the cached answer with nothing packed; for any other, exactly one run of `insertCellsToUnboundIndex` to its end row (or `Int.max` in preemptive mode), as `UnboundRun` states it, then the attributes of its rows, which are cached with the rectangle |
| Layout.MosaicLayout.RefreshAttributes | Library/MosaicLayout.swift:137-186 | a cache miss caches the rectangle and answers the rows from the truncated start for the (horizontally one longer) length; the packing is exactly one run of `insertCellsToUnboundIndex` to the end row (or `Int.max`), and keeps every packing invariant and every anchor |
| Layout.MosaicLayout.QueryRows | Library/MosaicLayout.swift:154-185 | the packing is exactly one run of `insertCellsToUnboundIndex` to the end row (or `Int.max`) and keeps the invariants and the anchors; then the answer is the rows' attributes, which are cached |
| Layout.MosaicLayout.PackForQuery | Library/MosaicLayout.swift:154-160 | the packing for a query is exactly one run of `insertCellsToUnboundIndex` to the end row (or `Int.max` in preemptive mode): the items placed, one insertion step each, every placement but the last before the target, and the stop; it keeps the invariants, only moves forward and keeps every anchor |
| Layout.MosaicLayout.PrepareLayout | Library/MosaicLayout.swift:210-240 | nothing happens without a delegate; otherwise the packing is exactly one run of `insertCellsToUnboundIndex` to one row past the visible frame (or `Int.max` in preemptive mode), as `UnboundRun` states it |
| Layout.MosaicLayout.AnchorOwnedByItem | Library/MosaicLayout.swift:344-358 | looking up the anchor of a placed item gives the item back |
| Layout.MosaicLayout.OwnerCoversPosition | Library/MosaicLayout.swift:344-358 | along the unbound-index path, the owner found at a position is a placed item whose footprint holds the position |
| Layout.MosaicLayout.LookupFindsPlacedItem | Library/MosaicLayout.swift:344-358 | under the packing invariant the owner found at a position is a placed item, and a position inside a placed item's footprint finds that item |
| Layout.MosaicLayout.ContentSizeAtLeastOneRow | Library/MosaicLayout.swift:110-130 | in every state the operations leave, the content size spans the content rect across the scroll direction and at least one unit cell along it |
| Layout.MosaicLayout.PlacedFramesApart | Library/MosaicLayout.swift:278-313 | the frames of two distinct placed items never overlap |
| Layout.MosaicLayout.PlacedFrameWithinContent | Library/MosaicLayout.swift:278-313 | a placed item within the capacity has its frame inside the content rect across the scroll direction |
| Layout.MosaicLayout.ContentCoversPlaced | Library/MosaicLayout.swift:110-130 | the content size reaches past the frame of every placed item along the scroll direction |
| Layout.MosaicLayout.RowAttributesMembers | Library/MosaicLayout.swift:166-181 | an attribute is in a row's answer exactly when some cell of the row within the bound range contributes it |
| Layout.MosaicLayout.RowsAttributesMembers | Library/MosaicLayout.swift:165-182 | an attribute is in the answer for rows [start, end) exactly when some cell in those rows within the capacity contributes it |
| Layout.MosaicLayout.QueryAttributes | Library/MosaicLayout.swift:162-186 | the answer holds one attribute per item, each a placed item's own attributes, and the attributes of every owner of a cell in the queried rows within the capacity |
| Layout.MosaicLayout.QueryFindsNothing | Library/MosaicLayout.swift:189-193 | without a delegate, or with nothing placed, a rectangle query finds nothing |
| Layout.MosaicLayout.ItemZeroShadowsOrigin | Library/MosaicLayout.swift:324-341 | under an exact cover (the unbound-index path), once anything is placed, the origin is owned by another item anchored there, and the frame item (0, 0) falls back to overlaps it |
| Layout.MosaicLayout.InsertCellsToIndexPath | Library/MosaicLayout.swift:448-474 | the new state is one run (`IndexRun`): items are visited in order from the cursor, returning at the first one past the target; the cursor moves to each visited item; the trace has one insertion step of the TARGET per visit; the target is anchored exactly when something was visited; nothing else gains an anchor; after two or more visits the occupancy is not an exact cover |
| Layout.MosaicLayout.IndexRunUnique | Library/MosaicLayout.swift:447-474 | two runs of `insertCellsToIndexPath` from the same cursor and state for the same target visit the same items, pass through the same states and end in the same state |
| Layout.MosaicLayout.IndexRunContinued | Library/MosaicLayout.swift:462-465 | any longer chain of visits goes on to an item past the target, where the driver returns |
| Layout.MosaicLayout.ApproachSection | Library/MosaicLayout.swift:457-473 | one section's row loop, restarting at the cursor's row + 1, returns at the first item past the target, extending the trace by one insertion of the target per visit |
| Layout.MosaicLayout.ApproachStep | Library/MosaicLayout.swift:467-471 | one visit inserts the target again (one insertion step of the target in the trace) and moves the cursor to the visited item |
| Layout.MosaicLayout.ApproachVisit | Library/MosaicLayout.swift:469-471 | the body of a visit: `insertCellAtIndexPath(target)`, one more insertion step of the target, then the cursor moves to the visited item |
| Layout.MosaicLayout.ReplacementBreaksCover | Library/MosaicLayout.swift:430-441 | inserting an item twice in a row leaves its first anchor's cell owned by it but outside its new footprint, so the occupancy is no longer an exact cover |
| Layout.MosaicLayout.RepeatedInsertionBreaksCover | Library/MosaicLayout.swift:463-471 | a run of `insertCellsToIndexPath` with two or more visits ends without an exact cover |

## Left out

- The collection view is fixed per layout object. Its frame size, content
  insets, item counts and delegate are constants, so the `collectionView ==
  nil` guards and their zero answers are not modelled.
- UIKit types are reduced to records. Attributes hold only the index path
  and the frame. The attribute array is held as a set, which is what the
  source builds before converting it to an array.
- Pixel values are integers and frames are reals. `CGFloat` rounding is not
  modelled; the `Int(...)` and `UInt(...)` casts truncate toward zero.
  Scroll offsets, unit sizes and the content rect are whole pixels.
- A rectangle whose extent along the scroll axis is minus one unit or less
  makes `UInt(...)` trap. The rectangle query requires a defined length
  (`QueryLengthDefined`) instead of modelling the trap. The cache hit path
  needs no such condition.
- `shouldInvalidateLayoutForBoundsChange` is a framework hook that compares
  two sizes. It is not part of this model.
- `prepareForCollectionViewUpdates` only forwards insert and move targets to
  `insertCellsToIndexPath`, which is modelled. The update loop itself is not.
- The `print` diagnostics of the capacity clamp and the oversized-item
  fallback are not modelled.
- `respondsToSelector` probing becomes optional delegate functions.
  `Library/MosaicLayoutDelegate.swift` declares only that protocol.
- Superclass calls and the `NSCoder` initializer are not modelled. That
  initializer sets the same state as `init()`.
- Grid sizes from the delegate and unit cell sizes are positive whole
  numbers (`Positive`). The source accepts any `CGSize`. With a zero or
  negative width or height, the footprint walk visits no cells, yet the
  item is still anchored with no cell owned. The model leaves this case out.
- LayoutAttributesForElementsInRect: on a cache hit the answer is the cached
  set, which can be stale if other calls packed more items since. The model
  reproduces this and claims nothing about it.
