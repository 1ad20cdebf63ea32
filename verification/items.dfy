/**
  Item identifiers and the order in which the insertion drivers visit them.

  Both drivers resume from the insertion cursor `indexPathCache` and start the
  row loop of EVERY section at `indexPathCache.row + 1`, re-reading the cursor
  each time a section starts. Since a placement always succeeds and moves the
  cursor to the item just placed, the item a driver visits after cursor `c` is
  `NextItem(counts, c)`: row `c.row + 1` of the first section, from
  `c.section` on, that has more than `c.row + 1` items.
*/
module Items {
  import opened Wrappers

  /** NSIndexPath: a row within a section. */
  datatype IndexPath = IndexPath(section: nat, row: nat)

  /** Strict lexicographic order on index paths. */
  predicate Precedes(a: IndexPath, b: IndexPath)
  {
    a.section < b.section || (a.section == b.section && a.row < b.row)
  }

  /** Row `row` of the first section from `section` on that holds it. */
  function NextFrom(counts: seq<nat>, section: nat, row: nat): (r: Option<IndexPath>)
    ensures r.Some? ==> section <= r.value.section < |counts| && r.value.row == row
                        && row < counts[r.value.section]
    decreases |counts| - section
  {
    if |counts| <= section then None
    else if row < counts[section] then Some(IndexPath(section, row))
    else NextFrom(counts, section + 1, row)
  }

  /** A section too short for the row is skipped. */
  lemma NextFromSkip(counts: seq<nat>, section: nat, row: nat)
    requires section < |counts| && counts[section] <= row
    ensures NextFrom(counts, section, row) == NextFrom(counts, section + 1, row)
  {
  }

  /** `NextFrom` finds the first section holding the row: every section it
      passes over is too short for it, and it finds nothing exactly when
      every section from `section` on is too short. */
  lemma {:induction false} NextFromFirst(counts: seq<nat>, section: nat, row: nat)
    ensures NextFrom(counts, section, row).Some? ==>
              forall s :: section <= s < NextFrom(counts, section, row).value.section ==> counts[s] <= row
    ensures NextFrom(counts, section, row).None? <==> forall s :: section <= s < |counts| ==> counts[s] <= row
    decreases |counts| - section
  {
    if section < |counts| && counts[section] <= row {
      NextFromFirst(counts, section + 1, row);
    }
  }

  /** The item a driver places after the cursor `cursor`. */
  function NextItem(counts: seq<nat>, cursor: IndexPath): (r: Option<IndexPath>)
    ensures r.Some? ==> Precedes(cursor, r.value) && r.value.row == cursor.row + 1
    ensures r.Some? ==> r.value.section < |counts| && r.value.row < counts[r.value.section]
  {
    NextFrom(counts, cursor.section, cursor.row + 1)
  }

  /** The item visited after the cursor is on the cursor's row + 1 in the
      first section from the cursor's on that has that row; there is none
      exactly when no such section exists. */
  lemma NextItemFirst(counts: seq<nat>, cursor: IndexPath)
    ensures NextItem(counts, cursor).Some? ==>
              forall s :: cursor.section <= s < NextItem(counts, cursor).value.section ==> counts[s] <= cursor.row + 1
    ensures NextItem(counts, cursor).None? <==> forall s :: cursor.section <= s < |counts| ==> counts[s] <= cursor.row + 1
  {
    NextFromFirst(counts, cursor.section, cursor.row + 1);
  }

  /** The cursor before visiting `items[i]`, from cursor `start`. */
  function Prev(start: IndexPath, items: seq<IndexPath>, i: nat): IndexPath
    requires i <= |items|
  {
    if i == 0 then start else items[i - 1]
  }

  /** `items` is the sequence of items visited, in order, from cursor `start`. */
  ghost predicate Chain(counts: seq<nat>, start: IndexPath, items: seq<IndexPath>)
  {
    forall i {:trigger Prev(start, items, i)} :: 0 <= i < |items| ==> NextItem(counts, Prev(start, items, i)) == Some(items[i])
  }

  /** The cursor after visiting `items` from `start`. */
  function Last(start: IndexPath, items: seq<IndexPath>): IndexPath
  {
    if |items| == 0 then start else items[|items| - 1]
  }

  /** `insertCellsToIndexPath` returns as soon as it meets an item in a section
      at or after the target's whose row is past the target's row. */
  predicate Past(p: IndexPath, target: IndexPath)
  {
    p.section >= target.section && p.row > target.row
  }

  /** The drivers visit items in strictly increasing order, all after the
      cursor they started from, and never row 0 of any section. */
  lemma {:induction false} ChainIncreasing(counts: seq<nat>, start: IndexPath, items: seq<IndexPath>)
    requires Chain(counts, start, items)
    ensures forall i :: 0 <= i < |items| ==> Precedes(start, items[i]) && 1 <= items[i].row
    ensures forall i, j :: 0 <= i < j < |items| ==> Precedes(items[i], items[j])
  {
    forall j | 0 <= j < |items| ensures Precedes(start, items[j]) && 1 <= items[j].row
                                 && forall i :: 0 <= i < j ==> Precedes(items[i], items[j])
    {
      ChainPrefix(counts, start, items, j);
    }
  }

  /** Every item of a chain comes after all the items before it. */
  lemma {:induction false} ChainPrefix(counts: seq<nat>, start: IndexPath, items: seq<IndexPath>, j: nat)
    requires Chain(counts, start, items) && j < |items|
    ensures Precedes(start, items[j]) && 1 <= items[j].row
    ensures forall i :: 0 <= i < j ==> Precedes(items[i], items[j])
    decreases j
  {
    assert NextItem(counts, Prev(start, items, j)) == Some(items[j]);
    if 0 < j {
      ChainPrefix(counts, start, items, j - 1);
    }
  }

  /** Two chains from the same cursor agree as far as both go: the order
      of the visits is fixed by the item counts. */
  lemma {:induction false} ChainsAgree(counts: seq<nat>, start: IndexPath, p: seq<IndexPath>, q: seq<IndexPath>, j: nat)
    requires Chain(counts, start, p) && Chain(counts, start, q) && j <= |p| && j <= |q|
    ensures forall i :: 0 <= i < j ==> p[i] == q[i]
    decreases j
  {
    if 0 < j {
      ChainsAgree(counts, start, p, q, j - 1);
      assert Prev(start, p, j - 1) == Prev(start, q, j - 1);
      assert NextItem(counts, Prev(start, p, j - 1)) == Some(p[j - 1]);
      assert NextItem(counts, Prev(start, q, j - 1)) == Some(q[j - 1]);
    }
  }

  /** Extending a chain by the next item keeps it a chain. */
  lemma ChainExtend(counts: seq<nat>, start: IndexPath, items: seq<IndexPath>, next: IndexPath)
    requires Chain(counts, start, items)
    requires NextItem(counts, Last(start, items)) == Some(next)
    ensures Chain(counts, start, items + [next])
    ensures Last(start, items + [next]) == next
  {
    var longer := items + [next];
    forall i | 0 <= i < |longer| ensures NextItem(counts, Prev(start, longer, i)) == Some(longer[i]) {
      if i < |items| {
        assert Prev(start, longer, i) == Prev(start, items, i);
      }
    }
  }

  /** Item (0, 0) is past itself for `insertCellsToIndexPath`, and no driver
      ever visits it: its index path is never packed. */
  lemma ItemZeroNeverVisited(counts: seq<nat>, cursor: IndexPath)
    ensures NextItem(counts, cursor).Some? ==> NextItem(counts, cursor).value != IndexPath(0, 0)
    ensures NextItem(counts, cursor).Some? ==> Past(NextItem(counts, cursor).value, IndexPath(0, 0))
  {
  }

  /** Restarting at `cursor.row + 1` skips whole sections: with two sections of
      three items and the cursor on the last item of the first, nothing of the
      second section is ever visited. */
  lemma {:induction false} LaterSectionSkipped()
    ensures NextItem([3, 3], IndexPath(0, 2)) == None
    ensures NextItem([3, 3], IndexPath(0, 0)) == Some(IndexPath(0, 1))
  {
    assert NextFrom([3, 3], 2, 3) == None;
    assert NextFrom([3, 3], 1, 3) == None;
  }
}
