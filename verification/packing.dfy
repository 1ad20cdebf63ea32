/**
  The first-fit placement rule of `insertCellAtIndexPath`, stated on an
  occupancy map from cells (bound, unbound) to the item that owns them.

  A candidate anchor is accepted when every cell of the item's footprint is
  free and lies within the capacity of the bound axis, except that cells
  beyond the capacity are tolerated when the anchor sits at bound 0 (the
  oversized-item fallback). Candidates are offered row by row along the
  unbound axis, bound 0 to capacity - 1 within a row.
*/
module Packing {
  import opened Geometry
  import opened Items

  type Occupancy = map<Cell, IndexPath>

  /** The per-cell test of the feasibility closure. */
  predicate Admits(owner: Occupancy, cap: int, anchor: Cell, c: Cell)
  {
    c !in owner && (c.bound < cap || anchor.bound == 0)
  }

  /** Every footprint cell passes the per-cell test. */
  ghost predicate Fits(owner: Occupancy, cap: int, anchor: Cell, s: Span)
  {
    forall c :: Covers(anchor, s, c) ==> Admits(owner, cap, anchor, c)
  }

  /** Row-major order: by unbound row, then by bound index. */
  predicate Before(c: Cell, d: Cell)
  {
    c.unbound < d.unbound || (c.unbound == d.unbound && c.bound < d.bound)
  }

  /** The cells a scan starting at row `u0` offers. */
  predicate InScan(cap: int, u0: int, c: Cell)
  {
    0 <= c.bound < cap && u0 <= c.unbound
  }

  /** `a` is the first anchor that fits, in scan order from row `u0`. */
  ghost predicate IsFirstFit(owner: Occupancy, cap: int, u0: int, s: Span, a: Cell)
  {
    && InScan(cap, u0, a)
    && Fits(owner, cap, a, s)
    && forall c {:trigger Fits(owner, cap, c, s)} :: InScan(cap, u0, c) && Before(c, a) ==> !Fits(owner, cap, c, s)
  }

  /** No candidate offered before `cur` fits. */
  ghost predicate NoFitBefore(owner: Occupancy, cap: int, u0: int, s: Span, cur: Cell)
  {
    forall c {:trigger Fits(owner, cap, c, s)} :: InScan(cap, u0, c) && Before(c, cur) ==> !Fits(owner, cap, c, s)
  }

  /** Every candidate offered before `cur` is occupied. */
  ghost predicate TakenBefore(owner: Occupancy, cap: int, u0: int, cur: Cell)
  {
    forall c {:trigger InScan(cap, u0, c), Before(c, cur)} :: InScan(cap, u0, c) && Before(c, cur) ==> c in owner
  }

  /** `f` is the first free cell, in scan order from row `u0`. */
  ghost predicate IsFirstFree(owner: Occupancy, cap: int, u0: int, f: Cell)
  {
    && InScan(cap, u0, f)
    && f !in owner
    && TakenBefore(owner, cap, u0, f)
  }

  /** Occupying more cells keeps every earlier candidate occupied. */
  lemma TakenGrows(owner0: Occupancy, owner: Occupancy, cap: int, u0: int, cur: Cell)
    requires TakenBefore(owner0, cap, u0, cur)
    requires forall c :: c in owner0 ==> c in owner
    ensures TakenBefore(owner, cap, u0, cur)
  {
    forall c | InScan(cap, u0, c) && Before(c, cur) ensures c in owner {
      assert c in owner0;
    }
  }

  /** The scan steps past a candidate that does not fit. */
  lemma NoFitAdvance(owner: Occupancy, cap: int, u0: int, s: Span, here: Cell)
    requires NoFitBefore(owner, cap, u0, s, here) && !Fits(owner, cap, here, s)
    ensures NoFitBefore(owner, cap, u0, s, Cell(here.bound + 1, here.unbound))
  {
    forall c | InScan(cap, u0, c) && Before(c, Cell(here.bound + 1, here.unbound))
      ensures !Fits(owner, cap, c, s)
    {
      if c != here {
        assert Before(c, here);
      }
    }
  }

  /** No item fits at an occupied anchor, so the scan steps past it. */
  lemma SkipOccupied(owner: Occupancy, cap: int, u0: int, s: Span, here: Cell)
    requires NoFitBefore(owner, cap, u0, s, here) && here in owner
    ensures NoFitBefore(owner, cap, u0, s, Cell(here.bound + 1, here.unbound))
  {
    assert Covers(here, s, here);
    NoFitAdvance(owner, cap, u0, s, here);
  }

  /** The scan steps past an occupied candidate. */
  lemma TakenAdvance(owner: Occupancy, cap: int, u0: int, here: Cell)
    requires TakenBefore(owner, cap, u0, here) && here in owner
    ensures TakenBefore(owner, cap, u0, Cell(here.bound + 1, here.unbound))
  {
    forall c | InScan(cap, u0, c) && Before(c, Cell(here.bound + 1, here.unbound))
      ensures c in owner
    {
      if c != here {
        assert Before(c, here);
      }
    }
  }

  /** Past the last bound of a row, the scan continues at the next row. */
  lemma NextRow(owner: Occupancy, cap: int, u0: int, s: Span, u: int)
    ensures NoFitBefore(owner, cap, u0, s, Cell(cap, u)) ==> NoFitBefore(owner, cap, u0, s, Cell(0, u + 1))
    ensures TakenBefore(owner, cap, u0, Cell(cap, u)) ==> TakenBefore(owner, cap, u0, Cell(0, u + 1))
  {
    if NoFitBefore(owner, cap, u0, s, Cell(cap, u)) {
      forall c | InScan(cap, u0, c) && Before(c, Cell(0, u + 1)) ensures !Fits(owner, cap, c, s) {
        assert Before(c, Cell(cap, u));
      }
    }
    if TakenBefore(owner, cap, u0, Cell(cap, u)) {
      forall c | InScan(cap, u0, c) && Before(c, Cell(0, u + 1)) ensures c in owner {
        assert Before(c, Cell(cap, u));
      }
    }
  }

  /** There is at most one first fit. */
  lemma FirstFitUnique(owner: Occupancy, cap: int, u0: int, s: Span, a: Cell, b: Cell)
    requires IsFirstFit(owner, cap, u0, s, a) && IsFirstFit(owner, cap, u0, s, b)
    ensures a == b
  {
    assert !Before(a, b);
    assert !Before(b, a);
  }

  /** The first free cell is unique. */
  lemma FirstFreeUnique(owner: Occupancy, cap: int, u0: int, f: Cell, g: Cell)
    requires IsFirstFree(owner, cap, u0, f) && IsFirstFree(owner, cap, u0, g)
    ensures f == g
  {
    assert !Before(f, g);
    assert !Before(g, f);
  }

  /** The first free cell never comes after the first fit: an anchor is a
      footprint cell, so it is free itself. */
  lemma FirstFreeNotAfterFit(owner: Occupancy, cap: int, u0: int, s: Span, a: Cell, f: Cell)
    requires IsFirstFit(owner, cap, u0, s, a) && IsFirstFree(owner, cap, u0, f)
    ensures !Before(a, f)
  {
    assert Covers(a, s, a);
  }

  /** A row past every occupied cell accepts any item at bound 0, even one
      wider than the capacity: the scan always terminates there. */
  lemma {:induction false} EmptyRowAccepts(owner: Occupancy, cap: int, u: int, s: Span)
    requires 1 <= cap
    requires forall c :: c in owner ==> c.unbound < u
    ensures IsFirstFit(owner, cap, u, s, Cell(0, u))
  {
    forall c | Covers(Cell(0, u), s, c) ensures Admits(owner, cap, Cell(0, u), c) {
      assert c !in owner;
    }
  }

  /** First-fit does not keep items in order along the scroll axis: with
      capacity 4, after a 3-wide item at row 0 and a 2-wide item pushed to
      row 1, a following 1x1 item lands back on row 0. */
  lemma LaterItemCanLandOnEarlierRow()
    ensures var a := IndexPath(0, 1);
            var b := IndexPath(0, 2);
            var owner := map[Cell(0, 0) := a, Cell(1, 0) := a, Cell(2, 0) := a,
                             Cell(0, 1) := b, Cell(1, 1) := b];
            IsFirstFit(owner, 4, 0, Span(1, 1), Cell(3, 0))
  {
    var a := IndexPath(0, 1);
    var b := IndexPath(0, 2);
    var owner := map[Cell(0, 0) := a, Cell(1, 0) := a, Cell(2, 0) := a,
                     Cell(0, 1) := b, Cell(1, 1) := b];
    forall c | InScan(4, 0, c) && Before(c, Cell(3, 0))
      ensures !Fits(owner, 4, c, Span(1, 1))
    {
      assert Covers(c, Span(1, 1), c);
      assert c == Cell(0, 0) || c == Cell(1, 0) || c == Cell(2, 0);
    }
    forall c | Covers(Cell(3, 0), Span(1, 1), c) ensures Admits(owner, 4, Cell(3, 0), c) {
      assert c == Cell(3, 0);
    }
  }
}
