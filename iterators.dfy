/**
 * The two iterators of ConcurrentHashMapDML1 (the entry set's and the value
 * collection's). Each walks the table that was the read view when it was
 * created: it loads the first non-null bucket into `row` and then scans that
 * row. `row` is never set back to null, so once a row is loaded the walk
 * keeps coming back to it; `hasNext` then never answers false, and on a row
 * without a usable item it never returns at all. The loop is therefore run
 * with a bound on its rounds, and None reports that the bound ran out.
 */
module Iterators {
  import opened Rows
  import opened Buckets
  import opened HashMaps

  /**
   * The slot of a loaded row that hasNext settles on: the one at the item
   * index when it holds an item; otherwise the scan restarts, and every
   * later round looks at the row's first slot.
   */
  ghost function ScanIndex<K, V>(row: Row<K, V>, itemIdx: nat): nat
  {
    if itemIdx < |row| && row[itemIdx] != null then itemIdx else 0
  }

  /** A step that leaves the map's own objects alone leaves it valid and holding what it held. */
  twostate lemma OwnerKept<K(!new), V>(owner: ConcurrentHashMapDML1<K, V>)
    requires old(owner.Valid()) && unchanged(owner) && unchanged(owner.Repr) && unchanged(owner.Cells)
    ensures owner.Valid() && owner.Contents() == old(owner.Contents())
    ensures owner.writeView.size == old(owner.writeView.size)
  {
  }

  /** Iterator over the items (entries) of the table it was created on. */
  class EntryIterator<K(==, !new), V(==)> {
    const owner: ConcurrentHashMapDML1<K, V>
    const table: Table<K, V>
    var tableIdx: nat
    var itemIdx: nat
    var row: Option<Row<K, V>>
    var next: Item?<K, V>
    /** the item next() last handed out, for remove(); None is Java's null */
    var prev: Option<Item<K, V>>

    /** Until a row is loaded the bucket index stays within the table; a pending item comes from the row. */
    ghost predicate Valid()
      reads this
    {
      && (row.None? ==> tableIdx <= table.buckets.Length)
      && (next != null ==> row.Some? && next in row.value)
    }

    /** A fresh iterator starts before the first bucket of the map's read view. */
    constructor (owner: ConcurrentHashMapDML1<K, V>)
      ensures Valid() && this.owner == owner && table == owner.readView
      ensures tableIdx == 0 && itemIdx == 0 && row.None? && next == null && prev.None?
    {
      this.owner := owner;
      table := owner.readView;
      tableIdx := 0;
      itemIdx := 0;
      row := None;
      next := null;
      prev := None;
    }

    /**
     * The inner loop of hasNext: while no row is loaded, the bucket at
     * tableIdx is read and tableIdx advanced; None when the table ends
     * before a non-null bucket is found.
     */
    method LoadRow() returns (items: Option<Row<K, V>>)
      requires Valid() && next == null
      modifies this
      ensures Valid() && items == row && next == null && prev == old(prev) && itemIdx == old(itemIdx)
      ensures old(row).Some? ==> row == old(row) && tableIdx == old(tableIdx)
      ensures items.None? ==>
                && old(row).None? && tableIdx == table.buckets.Length
                && forall b :: old(tableIdx) <= b < table.buckets.Length ==> table.buckets[b].None?
      ensures old(row).None? && items.Some? ==>
                exists b :: old(tableIdx) <= b < table.buckets.Length && row == table.buckets[b]
                            && forall c :: old(tableIdx) <= c < b ==> table.buckets[c].None?
    {
      items := row;
      while items.None?
        invariant items == row && Valid() && next == null && prev == old(prev) && itemIdx == old(itemIdx)
        invariant old(row).Some? ==> row == old(row) && tableIdx == old(tableIdx)
        invariant row.None? ==> old(tableIdx) <= tableIdx && forall b :: old(tableIdx) <= b < tableIdx ==> table.buckets[b].None?
        invariant old(row).None? && row.Some? ==>
                    exists b :: old(tableIdx) <= b < table.buckets.Length && row == table.buckets[b]
                                && forall c :: old(tableIdx) <= c < b ==> table.buckets[c].None?
        decreases table.buckets.Length - tableIdx
      {
        if table.buckets.Length == tableIdx {
          return;
        }
        items := table.buckets[tableIdx];
        row := items;
        tableIdx := tableIdx + 1;
      }
    }

    /**
     * One round of hasNext on the loaded row: the slot at itemIdx, when in
     * range, becomes next and itemIdx moves past it; true when that slot
     * holds an item. Otherwise the scan restarts at 0 and tableIdx advances.
     */
    method VisitSlot(items: Row<K, V>) returns (found: bool)
      requires Valid() && row == Some(items) && next == null
      modifies this
      ensures Valid() && row == old(row) && prev == old(prev)
      ensures var i := old(itemIdx);
              && (found <==> i < |items| && items[i] != null)
              && next == (if found then items[i] else null)
              && itemIdx == (if found then i + 1 else 0)
              && tableIdx == old(tableIdx) + (if found then 0 else 1)
    {
      var len := |items|;
      if itemIdx < len {
        next := items[itemIdx];
        itemIdx := itemIdx + 1;
        if next != null {
          return true;
        }
      }
      itemIdx := 0;
      tableIdx := tableIdx + 1;
      found := false;
    }

    /**
     * hasNext, for at most `fuel` rounds of its outer loop. A pending item
     * answers true at once. Otherwise, while no row is loaded, buckets are
     * read in order until a non-null one is found, and false is answered
     * when the table ends first; then each round looks at one slot of the
     * loaded row, the one at itemIdx, and after a miss (a null slot or the
     * row's end) the scan restarts at 0 on the same row. True comes with a
     * non-null item of the loaded row.
     */
    method HasNext(fuel: nat) returns (r: Option<bool>)
      requires Valid()
      modifies this
      ensures Valid() && prev == old(prev)
      ensures old(next) != null ==> r == Some(true) && unchanged(this)
      ensures r == Some(true) ==> next != null && row.Some? && next in row.value
      ensures r == Some(false) ==>
                && next == null && old(row).None? && row.None? && tableIdx == table.buckets.Length
                && forall b :: old(tableIdx) <= b < table.buckets.Length ==> table.buckets[b].None?
      ensures old(row).Some? ==> row == old(row) && r != Some(false)
      ensures old(row).None? && row.Some? ==>
                exists b :: old(tableIdx) <= b < table.buckets.Length && row == table.buckets[b]
                            && forall c :: old(tableIdx) <= c < b ==> table.buckets[c].None?
      ensures r == Some(true) && old(next) == null ==>
                && row.Some? && 1 <= itemIdx <= |row.value|
                && itemIdx == ScanIndex(row.value, old(itemIdx)) + 1 && next == row.value[itemIdx - 1]
      ensures old(next) == null && old(row).None? && fuel >= 1 ==>
                (forall b :: old(tableIdx) <= b < table.buckets.Length ==> table.buckets[b].None?) ==> r == Some(false)
      ensures r.None? ==> old(next) == null && (fuel <= 1 || (row.Some? && (|row.value| == 0 || row.value[0] == null)))
    {
      ghost var i0 := itemIdx;
      var steps := 0;
      while next == null && steps < fuel
        invariant Valid() && prev == old(prev) && steps <= fuel
        invariant old(next) != null ==> unchanged(this)
        invariant old(next) == null ==> next == null
        invariant steps == 0 ==> itemIdx == i0 && row == old(row) && tableIdx == old(tableIdx)
        invariant steps >= 1 ==> row.Some? && itemIdx == 0 && !(i0 < |row.value| && row.value[i0] != null)
        invariant steps >= 2 ==> |row.value| == 0 || row.value[0] == null
        invariant old(row).Some? ==> row == old(row)
        invariant old(row).None? && row.Some? ==>
                    exists b :: old(tableIdx) <= b < table.buckets.Length && row == table.buckets[b]
                                && forall c :: old(tableIdx) <= c < b ==> table.buckets[c].None?
        decreases fuel - steps
      {
        steps := steps + 1;
        var items := LoadRow();
        if items.None? {
          return Some(false);
        }
        var found := VisitSlot(items.value);
        if found {
          return Some(true);
        }
      }
      if next == null {
        return None;
      }
      r := Some(true);
    }

    /**
     * next: the item hasNext found, which becomes the one remove() acts on;
     * NoSuchElementException when hasNext answers false.
     */
    method Next(fuel: nat) returns (r: Option<Result<Item<K, V>>>)
      requires Valid()
      modifies this
      ensures Valid()
      ensures r == Some(Err(NoSuchElement)) ==> prev == old(prev) && next == null
      ensures r.Some? && r.value.Ok? ==> prev == Some(r.value.value) && next == null && row.Some? && r.value.value in row.value
      ensures r.Some? ==> r.value.Err? ==> r.value.error == NoSuchElement
      ensures old(next) != null ==> r == Some(Ok(old(next)))
      ensures old(row).Some? ==> r != Some(Err(NoSuchElement))
      ensures r == Some(Err(NoSuchElement)) ==>
                && old(next) == null && old(row).None?
                && forall b :: old(tableIdx) <= b < table.buckets.Length ==> table.buckets[b].None?
      ensures r.Some? && r.value.Ok? && old(next) == null ==>
                && row.Some? && ScanIndex(row.value, old(itemIdx)) < |row.value|
                && r.value.value == row.value[ScanIndex(row.value, old(itemIdx))]
      ensures old(next) == null && old(row).None? && fuel >= 1 ==>
                (forall b :: old(tableIdx) <= b < table.buckets.Length ==> table.buckets[b].None?) ==> r == Some(Err(NoSuchElement))
      ensures r.None? ==> old(next) == null && (fuel <= 1 || (row.Some? && (|row.value| == 0 || row.value[0] == null)))
    {
      var more := HasNext(fuel);
      if more.None? {
        return None;
      }
      if !more.value {
        return Some(Err(NoSuchElement));
      }
      r := Some(Ok(next));
      prev := Some(next);
      next := null;
    }

    /**
     * remove(): without an item from next() since the last remove(),
     * NoSuchElementException; otherwise removeItem on that item. Either way
     * no item is left for a second remove().
     */
    method Remove() returns (r: Result<()>)
      requires Valid() && owner.Valid()
      modifies this, owner.writeView, owner.writeView.buckets, owner.Cells
      ensures Valid() && prev.None? && owner.Valid()
      ensures old(prev).None? ==> r == Err(NoSuchElement) && owner.Contents() == old(owner.Contents())
      ensures old(prev).Some? ==>
                && (r.Ok? <==> old(ItemOf(owner.Rows(), owner.hashOf, prev.value.key)) == old(prev))
                && (r.Err? ==> r.error == IllegalState && owner.Contents() == old(owner.Contents()))
                && (r.Ok? ==> owner.Contents() == old(owner.Contents()) - {old(prev).value.key})
      ensures owner.writeView == old(owner.writeView)
      ensures owner.writeView.size == old(owner.writeView.size) - (if old(prev).Some? && r.Ok? then 1 else 0)
      ensures r.Err? ==> unchanged(owner.writeView, owner.writeView.buckets) && unchanged(owner.Cells)
      ensures old(prev).Some? && r.Ok? ==> old(prev).value.value == Doornail && unchanged(owner.Cells - {old(prev).value})
      ensures row == old(row) && next == old(next) && tableIdx == old(tableIdx) && itemIdx == old(itemIdx)
    {
      if prev.None? {
        return Err(NoSuchElement);
      }
      r := owner.RemoveItem(prev.value);
      label removed:
      prev := None;
      OwnerKept@removed(owner);
    }
  }

  /**
   * Iterator over the values of the table it was created on. Like the entry
   * iterator, but an item found holding DOORNAIL is not answered at once: the
   * scan moves on as at a row's end, yet with that item still pending the
   * outer loop stops and hasNext answers true, so next() hands out DOORNAIL.
   */
  class ValueIterator<K(==, !new), V(==)> {
    const owner: ConcurrentHashMapDML1<K, V>
    const table: Table<K, V>
    var tableIdx: nat
    var itemIdx: nat
    var row: Option<Row<K, V>>
    var next: Item?<K, V>
    /** the item next() last handed out, for remove(); None is Java's null */
    var prev: Option<Item<K, V>>
    /** the value read from next; Live(None) is Java's null */
    var nextVal: Slot<V>

    /** Until a row is loaded the bucket index stays within the table; a pending item comes from the row. */
    ghost predicate Valid()
      reads this
    {
      && (row.None? ==> tableIdx <= table.buckets.Length)
      && (next != null ==> row.Some? && next in row.value)
    }

    /** A fresh iterator starts before the first bucket of the map's read view. */
    constructor (owner: ConcurrentHashMapDML1<K, V>)
      ensures Valid() && this.owner == owner && table == owner.readView
      ensures tableIdx == 0 && itemIdx == 0 && row.None? && next == null && prev.None? && nextVal == Live(None)
    {
      this.owner := owner;
      table := owner.readView;
      tableIdx := 0;
      itemIdx := 0;
      row := None;
      next := null;
      prev := None;
      nextVal := Live(None);
    }

    /**
     * The inner loop of hasNext: while no row is loaded, the bucket at
     * tableIdx is read and tableIdx advanced; None when the table ends
     * before a non-null bucket is found.
     */
    method LoadRow() returns (items: Option<Row<K, V>>)
      requires Valid() && next == null
      modifies this
      ensures Valid() && items == row && next == null && prev == old(prev) && itemIdx == old(itemIdx) && nextVal == old(nextVal)
      ensures old(row).Some? ==> row == old(row) && tableIdx == old(tableIdx)
      ensures items.None? ==>
                && old(row).None? && tableIdx == table.buckets.Length
                && forall b :: old(tableIdx) <= b < table.buckets.Length ==> table.buckets[b].None?
      ensures old(row).None? && items.Some? ==>
                exists b :: old(tableIdx) <= b < table.buckets.Length && row == table.buckets[b]
                            && forall c :: old(tableIdx) <= c < b ==> table.buckets[c].None?
    {
      items := row;
      while items.None?
        invariant items == row && Valid() && next == null && prev == old(prev) && itemIdx == old(itemIdx) && nextVal == old(nextVal)
        invariant old(row).Some? ==> row == old(row) && tableIdx == old(tableIdx)
        invariant row.None? ==> old(tableIdx) <= tableIdx && forall b :: old(tableIdx) <= b < tableIdx ==> table.buckets[b].None?
        invariant old(row).None? && row.Some? ==>
                    exists b :: old(tableIdx) <= b < table.buckets.Length && row == table.buckets[b]
                                && forall c :: old(tableIdx) <= c < b ==> table.buckets[c].None?
        decreases table.buckets.Length - tableIdx
      {
        if table.buckets.Length == tableIdx {
          return;
        }
        items := table.buckets[tableIdx];
        row := items;
        tableIdx := tableIdx + 1;
      }
    }

    /**
     * One round of hasNext on the loaded row: the slot at itemIdx, when in
     * range, becomes next and itemIdx moves past it; true when that slot
     * holds an item whose value is not DOORNAIL, whose value is kept in
     * nextVal. Otherwise the scan restarts at 0 and tableIdx advances.
     */
    method VisitSlot(items: Row<K, V>) returns (found: bool)
      requires Valid() && row == Some(items) && next == null
      modifies this
      ensures Valid() && row == old(row) && prev == old(prev)
      ensures var i := old(itemIdx);
              && (i < |items| && items[i] != null ==> next == items[i] && nextVal == next.value)
              && (!(i < |items| && items[i] != null) ==> next == null && nextVal == old(nextVal))
              && (found <==> i < |items| && items[i] != null && items[i].value != Doornail)
              && itemIdx == (if found then i + 1 else 0)
              && tableIdx == old(tableIdx) + (if found then 0 else 1)
    {
      var len := |items|;
      if itemIdx < len {
        next := items[itemIdx];
        itemIdx := itemIdx + 1;
        if next != null {
          nextVal := next.value;
          if nextVal != Doornail {
            return true;
          }
        }
      }
      itemIdx := 0;
      tableIdx := tableIdx + 1;
      found := false;
    }

    /**
     * hasNext, for at most `fuel` rounds of its outer loop: as the entry
     * iterator's, except that an item is answered at once only when it is
     * live, and its value is kept in nextVal. False clears nextVal.
     */
    method HasNext(fuel: nat) returns (r: Option<bool>)
      requires Valid()
      modifies this
      ensures Valid() && prev == old(prev)
      ensures old(next) != null ==> r == Some(true) && unchanged(this)
      ensures r == Some(true) ==> next != null && row.Some? && next in row.value
      ensures r == Some(true) && old(next) == null ==> nextVal == next.value
      ensures r == Some(false) ==>
                && next == null && nextVal == Live(None) && old(row).None? && row.None? && tableIdx == table.buckets.Length
                && forall b :: old(tableIdx) <= b < table.buckets.Length ==> table.buckets[b].None?
      ensures old(row).Some? ==> row == old(row) && r != Some(false)
      ensures old(row).None? && row.Some? ==>
                exists b :: old(tableIdx) <= b < table.buckets.Length && row == table.buckets[b]
                            && forall c :: old(tableIdx) <= c < b ==> table.buckets[c].None?
      ensures r == Some(true) && old(next) == null ==>
                && row.Some? && ScanIndex(row.value, old(itemIdx)) < |row.value|
                && next == row.value[ScanIndex(row.value, old(itemIdx))]
                && itemIdx == if nextVal == Doornail then 0 else ScanIndex(row.value, old(itemIdx)) + 1
      ensures old(next) == null && old(row).None? && fuel >= 1 ==>
                (forall b :: old(tableIdx) <= b < table.buckets.Length ==> table.buckets[b].None?) ==> r == Some(false)
      ensures r.None? ==> old(next) == null && (fuel <= 1 || (row.Some? && (|row.value| == 0 || row.value[0] == null)))
    {
      ghost var i0 := itemIdx;
      var steps := 0;
      while next == null && steps < fuel
        invariant Valid() && prev == old(prev) && steps <= fuel
        invariant old(next) != null ==> unchanged(this)
        invariant old(next) == null && next != null ==>
                    && nextVal == next.value == Doornail && steps >= 1 && row.Some? && itemIdx == 0
                    && ScanIndex(row.value, i0) < |row.value| && next == row.value[ScanIndex(row.value, i0)]
        invariant steps == 0 ==> itemIdx == i0 && row == old(row) && tableIdx == old(tableIdx)
        invariant next == null && steps >= 1 ==> row.Some? && itemIdx == 0 && !(i0 < |row.value| && row.value[i0] != null)
        invariant next == null && steps >= 2 ==> |row.value| == 0 || row.value[0] == null
        invariant old(row).Some? ==> row == old(row)
        invariant old(row).None? && row.Some? ==>
                    exists b :: old(tableIdx) <= b < table.buckets.Length && row == table.buckets[b]
                                && forall c :: old(tableIdx) <= c < b ==> table.buckets[c].None?
        decreases fuel - steps
      {
        steps := steps + 1;
        var items := LoadRow();
        if items.None? {
          next := null;
          nextVal := Live(None);
          return Some(false);
        }
        var found := VisitSlot(items.value);
        if found {
          return Some(true);
        }
      }
      if next == null {
        return None;
      }
      r := Some(true);
    }

    /**
     * next: the value hasNext read, its item becoming the one remove() acts
     * on; NoSuchElementException when hasNext answers false.
     */
    method Next(fuel: nat) returns (r: Option<Result<Slot<V>>>)
      requires Valid()
      modifies this
      ensures Valid() && nextVal == Live(None)
      ensures r == Some(Err(NoSuchElement)) ==> prev == old(prev) && next == null
      ensures r.Some? && r.value.Ok? ==> prev.Some? && next == null && row.Some? && prev.value in row.value
      ensures r.Some? && r.value.Ok? && old(next) == null ==> r.value.value == prev.value.value
      ensures r.Some? ==> r.value.Err? ==> r.value.error == NoSuchElement
      ensures old(next) != null ==> r == Some(Ok(old(nextVal))) && prev.Some? && prev.value == old(next)
      ensures old(row).Some? ==> r != Some(Err(NoSuchElement))
      ensures r == Some(Err(NoSuchElement)) ==>
                && old(next) == null && old(row).None?
                && forall b :: old(tableIdx) <= b < table.buckets.Length ==> table.buckets[b].None?
      ensures r.Some? && r.value.Ok? && old(next) == null ==>
                && row.Some? && ScanIndex(row.value, old(itemIdx)) < |row.value|
                && prev.value == row.value[ScanIndex(row.value, old(itemIdx))]
      ensures old(next) == null && old(row).None? && fuel >= 1 ==>
                (forall b :: old(tableIdx) <= b < table.buckets.Length ==> table.buckets[b].None?) ==> r == Some(Err(NoSuchElement))
      ensures r.None? ==> old(next) == null && (fuel <= 1 || (row.Some? && (|row.value| == 0 || row.value[0] == null)))
    {
      var more := HasNext(fuel);
      if more.None? {
        nextVal := Live(None);
        return None;
      }
      if !more.value {
        return Some(Err(NoSuchElement));
      }
      r := Some(Ok(nextVal));
      prev := Some(next);
      nextVal := Live(None);
      next := null;
    }

    /**
     * remove(): without an item from next() since the last remove(),
     * NoSuchElementException; otherwise removeItem on that item. Either way
     * no item is left for a second remove().
     */
    method Remove() returns (r: Result<()>)
      requires Valid() && owner.Valid()
      modifies this, owner.writeView, owner.writeView.buckets, owner.Cells
      ensures Valid() && prev.None? && owner.Valid()
      ensures old(prev).None? ==> r == Err(NoSuchElement) && owner.Contents() == old(owner.Contents())
      ensures old(prev).Some? ==>
                && (r.Ok? <==> old(ItemOf(owner.Rows(), owner.hashOf, prev.value.key)) == old(prev))
                && (r.Err? ==> r.error == IllegalState && owner.Contents() == old(owner.Contents()))
                && (r.Ok? ==> owner.Contents() == old(owner.Contents()) - {old(prev).value.key})
      ensures owner.writeView == old(owner.writeView)
      ensures owner.writeView.size == old(owner.writeView.size) - (if old(prev).Some? && r.Ok? then 1 else 0)
      ensures r.Err? ==> unchanged(owner.writeView, owner.writeView.buckets) && unchanged(owner.Cells)
      ensures old(prev).Some? && r.Ok? ==> old(prev).value.value == Doornail && unchanged(owner.Cells - {old(prev).value})
      ensures row == old(row) && next == old(next) && tableIdx == old(tableIdx) && itemIdx == old(itemIdx)
      ensures nextVal == old(nextVal)
    {
      if prev.None? {
        return Err(NoSuchElement);
      }
      r := owner.RemoveItem(prev.value);
      label removed:
      prev := None;
      OwnerKept@removed(owner);
    }
  }
}
