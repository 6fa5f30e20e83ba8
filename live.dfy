/**
 * The write view's table as a value: the invariant every write keeps (a
 * well-formed table of live items whose size field counts them), the map
 * it represents, and what insertion, unlinking, a value update and resize
 * do to both.
 */
module LiveTables {
  import opened Rows
  import opened Buckets

  lemma MaxCapacityIsPowerOfTwo()
    ensures IsPowerOfTwo(MaxCapacity)
  {
    // six halvings at a time
    assert IsPowerOfTwo(0x40);
    assert IsPowerOfTwo(0x1000);
    assert IsPowerOfTwo(0x4_0000);
    assert IsPowerOfTwo(0x100_0000);
  }

  /** A power of two below another is at most half of it. */
  lemma {:induction false} DoublingStaysBelow(c: nat, m: nat)
    requires IsPowerOfTwo(c) && IsPowerOfTwo(m) && c < m
    ensures 2 * c <= m
    decreases c
  {
    if c > 1 {
      DoublingStaysBelow(c / 2, m / 2);
    }
  }

  /** The value slot of each of the given items. */
  ghost function Slots<K, V>(cells: set<Item<K, V>>): map<Item<K, V>, Slot<V>>
    reads cells
  {
    map x | x in cells :: x.value
  }

  /** A new item joins the slots with its own, and the other items' slots stay as they were. */
  twostate lemma SlotsAdd<K, V>(cells: set<Item<K, V>>, new x: Item<K, V>)
    requires unchanged(cells) && !old(allocated(x))
    ensures x !in old(Slots(cells))
    ensures Slots(cells + {x}) == old(Slots(cells))[x := x.value]
  {
  }

  /** Items none of which is written keep their slots. */
  twostate lemma SlotsKept<K, V>(cells: set<Item<K, V>>)
    requires unchanged(cells)
    ensures Slots(cells) == old(Slots(cells))
  {
  }

  /** An item whose slot is written: its own slot changes, the other items' stay as they were. */
  twostate lemma SlotsSet<K, V>(cells: set<Item<K, V>>, new x: Item<K, V>)
    requires unchanged(cells - {x}) && x in cells
    ensures Slots(cells) == old(Slots(cells))[x := x.value]
  {
  }

  /** Every item in the given buckets has a slot in slots, and it holds a live value, not DOORNAIL. */
  ghost predicate AllLive<K, V>(rows: seq<Option<Row<K, V>>>, slots: map<Item<K, V>, Slot<V>>)
  {
    forall i, j :: 0 <= i < |rows| && 0 <= j < |Items(rows[i])| ==>
      Items(rows[i])[j] != null && Items(rows[i])[j] in slots && slots[Items(rows[i])[j]].Live?
  }

  /**
   * The invariant of the write view: a well-formed table whose size field
   * counts its items, all of them live, and whose threshold cannot be
   * reached at maximum capacity.
   */
  ghost predicate LiveTable<K, V>(rows: seq<Option<Row<K, V>>>, size: int, threshold: int,
                                  slots: map<Item<K, V>, Slot<V>>, hashOf: K -> bv32)
  {
    && WellFormed(rows, hashOf)
    && size == Count(rows)
    && (|rows| == MaxCapacity ==> threshold == IntMax)
    && AllLive(rows, slots)
  }

  /** An item that has a slot in slots, and a live one. */
  ghost predicate LiveIn<K, V>(x: Option<Item<K, V>>, slots: map<Item<K, V>, Slot<V>>)
  {
    x.Some? && x.value in slots && slots[x.value].Live?
  }

  /** What a table gives key: the value of key's item when that item is live, None when there is none. */
  ghost function ValueOf<K, V>(rows: seq<Option<Row<K, V>>>, hashOf: K -> bv32, slots: map<Item<K, V>, Slot<V>>, key: K): Option<Option<V>>
    requires |rows| >= 1
  {
    var x := ItemOf(rows, hashOf, key);
    if LiveIn(x, slots) then Some(slots[x.value].v) else None
  }

  /** The map holding k exactly when f(k) is a value, and then that value. */
  ghost function Tabulate<K(!new), U>(f: K -> Option<U>): imap<K, U>
  {
    imap k | f(k).Some? :: f(k).value
  }

  /** Tabulating two functions that agree except at key gives maps that agree except at key. */
  lemma TabulateChanged<K(!new), U>(f: K -> Option<U>, g: K -> Option<U>, key: K)
    requires forall k :: k != key ==> g(k) == f(k)
    ensures g(key).Some? ==> Tabulate(g) == Tabulate(f)[key := g(key).value]
    ensures g(key).None? ==> Tabulate(g) == Tabulate(f) - {key}
  {
    var expected := if g(key).Some? then Tabulate(f)[key := g(key).value] else Tabulate(f) - {key};
    forall k ensures (k in Tabulate(g) <==> k in expected) && (k in Tabulate(g) ==> Tabulate(g)[k] == expected[k]) {
    }
    assert Tabulate(g) == expected;
  }

  /** Tabulating two functions that agree everywhere gives the same map. */
  lemma TabulateSame<K(!new), U>(f: K -> Option<U>, g: K -> Option<U>)
    requires forall k :: g(k) == f(k)
    ensures Tabulate(g) == Tabulate(f)
  {
    assert forall k :: k in Tabulate(g) <==> k in Tabulate(f);
  }

  /** Tabulating a function that is nowhere a value gives the empty map. */
  lemma TabulateNone<K(!new), U>(f: K -> Option<U>)
    requires forall k :: f(k).None?
    ensures Tabulate(f) == imap[]
  {
    assert forall k :: k !in Tabulate(f);
  }

  /**
   * The map a table represents: every key whose item is live, to the value
   * of that item (None for a null value).
   */
  ghost function MapOf<K(!new), V>(rows: seq<Option<Row<K, V>>>, hashOf: K -> bv32, slots: map<Item<K, V>, Slot<V>>): imap<K, Option<V>>
    requires |rows| >= 1
  {
    Tabulate(k => ValueOf(rows, hashOf, slots, k))
  }

  /**
   * Two tables that agree on every key but one represent maps that differ
   * at most at that key: it is updated or removed as the second table has it.
   */
  lemma MapOfChanged<K(!new), V>(rows: seq<Option<Row<K, V>>>, slots: map<Item<K, V>, Slot<V>>,
                                 rows': seq<Option<Row<K, V>>>, slots': map<Item<K, V>, Slot<V>>, hashOf: K -> bv32, key: K)
    requires |rows| >= 1 && |rows'| >= 1
    requires forall k :: k != key ==> ValueOf(rows', hashOf, slots', k) == ValueOf(rows, hashOf, slots, k)
    ensures ValueOf(rows', hashOf, slots', key).Some? ==>
              MapOf(rows', hashOf, slots') == MapOf(rows, hashOf, slots)[key := ValueOf(rows', hashOf, slots', key).value]
    ensures ValueOf(rows', hashOf, slots', key).None? ==> MapOf(rows', hashOf, slots') == MapOf(rows, hashOf, slots) - {key}
  {
    TabulateChanged(k => ValueOf(rows, hashOf, slots, k), k => ValueOf(rows', hashOf, slots', k), key);
  }

  /** In a table of live items, every key that has an item is in the map the table represents. */
  lemma ItemsLive<K, V>(rows: seq<Option<Row<K, V>>>, hashOf: K -> bv32, slots: map<Item<K, V>, Slot<V>>)
    requires |rows| >= 1 && AllLive(rows, slots)
    ensures forall key :: ItemOf(rows, hashOf, key).Some? ==> LiveIn(ItemOf(rows, hashOf, key), slots)
  {
    forall key | ItemOf(rows, hashOf, key).Some? ensures LiveIn(ItemOf(rows, hashOf, key), slots) {
      var b := BucketIndex(hashOf(key), |rows|);
      var j :| 0 <= j < |Items(rows[b])| && Items(rows[b])[j] == ItemOf(rows, hashOf, key).value;
    }
  }

  /**
   * A new live value in the item key finds: the map gives key that value
   * and every other key what it gave.
   */
  lemma SetMapOf<K(!new), V>(rows: seq<Option<Row<K, V>>>, hashOf: K -> bv32, slots: map<Item<K, V>, Slot<V>>, x: Item<K, V>, v: Option<V>)
    requires |rows| >= 1 && AllLive(rows, slots) && ItemOf(rows, hashOf, x.key) == Some(x)
    ensures AllLive(rows, slots[x := Live(v)])
    ensures MapOf(rows, hashOf, slots[x := Live(v)]) == MapOf(rows, hashOf, slots)[x.key := v]
  {
    ItemsLive(rows, hashOf, slots);
    MapOfChanged(rows, slots, rows, slots[x := Live(v)], hashOf, x.key);
  }

  /** Appending an item with a live slot to its bucket keeps every item live. */
  lemma InsertAllLive<K, V>(rows: seq<Option<Row<K, V>>>, x: Item<K, V>, slots: map<Item<K, V>, Slot<V>>, v: Option<V>)
    requires |rows| >= 1 && AllLive(rows, slots)
    ensures var b := BucketIndex(x.hash, |rows|);
            AllLive(rows[b := Some(AddItem(rows[b], x))], slots[x := Live(v)])
  {
    var b := BucketIndex(x.hash, |rows|);
    var rows' := rows[b := Some(AddItem(rows[b], x))];
    var slots' := slots[x := Live(v)];
    forall i, j | 0 <= i < |rows'| && 0 <= j < |Items(rows'[i])|
      ensures Items(rows'[i])[j] != null && Items(rows'[i])[j] in slots' && slots'[Items(rows'[i])[j]].Live?
    {
      if i != b || j < |Items(rows[b])| {
        assert Items(rows'[i])[j] == Items(rows[i])[j];
      }
    }
  }

  /**
   * put of a key the map lacks: appending a new live item for it to its
   * bucket keeps the table live and well formed, adds one to the count, and
   * adds the key with the item's value to the map, nothing else.
   */
  lemma InsertMapOf<K(!new), V>(rows: seq<Option<Row<K, V>>>, hashOf: K -> bv32, slots: map<Item<K, V>, Slot<V>>, x: Item<K, V>, v: Option<V>)
    requires WellFormed(rows, hashOf) && AllLive(rows, slots)
    requires x.hash == hashOf(x.key) && x !in slots && x.key !in MapOf(rows, hashOf, slots)
    ensures var b := BucketIndex(x.hash, |rows|);
            var rows' := rows[b := Some(AddItem(rows[b], x))];
            var slots' := slots[x := Live(v)];
            && WellFormed(rows', hashOf) && Count(rows') == Count(rows) + 1 && AllLive(rows', slots')
            && MapOf(rows', hashOf, slots') == MapOf(rows, hashOf, slots)[x.key := v]
  {
    var b := BucketIndex(x.hash, |rows|);
    var rows' := rows[b := Some(AddItem(rows[b], x))];
    var slots' := slots[x := Live(v)];
    AbsentItemOf(rows, hashOf, slots, x.key);
    ItemsLive(rows, hashOf, slots);
    InsertItemOf(rows, x, hashOf);
    InsertAllLive(rows, x, slots, v);
    InsertValueOf(rows, rows', hashOf, slots, x, v);
    MapOfChanged(rows, slots, rows', slots', hashOf, x.key);
  }

  /** A key the map of a table of live items lacks has no item in the table. */
  lemma AbsentItemOf<K(!new), V>(rows: seq<Option<Row<K, V>>>, hashOf: K -> bv32, slots: map<Item<K, V>, Slot<V>>, key: K)
    requires |rows| >= 1 && AllLive(rows, slots) && key !in MapOf(rows, hashOf, slots)
    ensures ItemOf(rows, hashOf, key).None?
  {
    ItemsLive(rows, hashOf, slots);
  }

  /**
   * A table whose lookups differ from those of a table of live items only in
   * finding a new item for its key: with that item live, the key gets its
   * value and every other key keeps its value.
   */
  lemma InsertValueOf<K, V>(rows: seq<Option<Row<K, V>>>, rows': seq<Option<Row<K, V>>>, hashOf: K -> bv32,
                            slots: map<Item<K, V>, Slot<V>>, x: Item<K, V>, v: Option<V>)
    requires |rows| >= 1 && |rows'| >= 1 && x !in slots
    requires forall k :: ItemOf(rows, hashOf, k).Some? ==> LiveIn(ItemOf(rows, hashOf, k), slots)
    requires forall k :: ItemOf(rows', hashOf, k) == if k == x.key then Some(x) else ItemOf(rows, hashOf, k)
    ensures forall k :: ValueOf(rows', hashOf, slots[x := Live(v)], k) ==
                          if k == x.key then Some(v) else ValueOf(rows, hashOf, slots, k)
  {
    forall k ensures ValueOf(rows', hashOf, slots[x := Live(v)], k) ==
                       if k == x.key then Some(v) else ValueOf(rows, hashOf, slots, k)
    {
      var y := ItemOf(rows, hashOf, k);
      if k != x.key && y.Some? {
        // y has a slot and x does not, so the new slot leaves y's alone
        assert y.value in slots && y.value != x;
      }
    }
  }

  /** Unlinking an item and marking it DOORNAIL keeps every other item live, when no item left carries its key. */
  lemma DeleteAllLive<K, V>(rows: seq<Option<Row<K, V>>>, i: nat, p: nat, slots: map<Item<K, V>, Slot<V>>, hashOf: K -> bv32)
    requires AllLive(rows, slots) && i < |rows| && p < |Items(rows[i])|
    requires var rows' := rows[i := RemoveAt(Items(rows[i]), p)];
             WellFormed(rows', hashOf) && Items(rows[i])[p] != null && ItemOf(rows', hashOf, Items(rows[i])[p].key) == None
    ensures AllLive(rows[i := RemoveAt(Items(rows[i]), p)], slots[Items(rows[i])[p] := Doornail])
  {
    var x := Items(rows[i])[p];
    var rows' := rows[i := RemoveAt(Items(rows[i]), p)];
    var slots' := slots[x := Doornail];
    forall a, c | 0 <= a < |rows'| && 0 <= c < |Items(rows'[a])|
      ensures Items(rows'[a])[c] != null && Items(rows'[a])[c] in slots' && slots'[Items(rows'[a])[c]].Live?
    {
      PlacedItemOf(rows', hashOf, a, c);
      if a != i || c < p {
        assert Items(rows'[a])[c] == Items(rows[a])[c];
      } else {
        assert Items(rows'[a])[c] == Items(rows[a])[c + 1];
      }
    }
  }

  /**
   * remove of a key the map holds: unlinking its item and marking it
   * DOORNAIL keeps the table live and well formed, takes one from the
   * count, and removes the key from the map, nothing else.
   */
  lemma DeleteMapOf<K(!new), V>(rows: seq<Option<Row<K, V>>>, hashOf: K -> bv32, slots: map<Item<K, V>, Slot<V>>, i: nat, p: nat)
    requires WellFormed(rows, hashOf) && AllLive(rows, slots) && i < |rows| && p < |Items(rows[i])|
    ensures Items(rows[i])[p] != null
    ensures var x := Items(rows[i])[p];
            var rows' := rows[i := RemoveAt(Items(rows[i]), p)];
            var slots' := slots[x := Doornail];
            && WellFormed(rows', hashOf) && Count(rows') == Count(rows) - 1 && AllLive(rows', slots')
            && x.key in MapOf(rows, hashOf, slots)
            && MapOf(rows', hashOf, slots') == MapOf(rows, hashOf, slots) - {x.key}
  {
    var x := Items(rows[i])[p];
    var rows' := rows[i := RemoveAt(Items(rows[i]), p)];
    var slots' := slots[x := Doornail];
    DeleteItemOf(rows, i, p, hashOf);
    PlacedItemOf(rows, hashOf, i, p);
    DeleteAllLive(rows, i, p, slots, hashOf);
    ItemsLive(rows, hashOf, slots);
    DeleteValueOf(rows, rows', hashOf, slots, x);
    MapOfChanged(rows, slots, rows', slots', hashOf, x.key);
  }

  /**
   * A table whose lookups differ from those of a table of live items only in
   * finding nothing for the key of one of its items: with that item dead, the
   * key loses its value and every other key keeps its value.
   */
  lemma DeleteValueOf<K, V>(rows: seq<Option<Row<K, V>>>, rows': seq<Option<Row<K, V>>>, hashOf: K -> bv32,
                            slots: map<Item<K, V>, Slot<V>>, x: Item<K, V>)
    requires |rows| >= 1 && |rows'| >= 1 && ItemOf(rows, hashOf, x.key) == Some(x)
    requires forall k :: ItemOf(rows, hashOf, k).Some? ==> LiveIn(ItemOf(rows, hashOf, k), slots)
    requires forall k :: ItemOf(rows', hashOf, k) == if k == x.key then None else ItemOf(rows, hashOf, k)
    ensures ValueOf(rows, hashOf, slots, x.key).Some?
    ensures forall k :: ValueOf(rows', hashOf, slots[x := Doornail], k) ==
                          if k == x.key then None else ValueOf(rows, hashOf, slots, k)
  {
  }

  /** Unlinking an item and marking it DOORNAIL keeps the views of a map valid. */
  lemma DeleteViewsOk<K, V>(initialCapacity: nat, rows: seq<Option<Row<K, V>>>, size: int, threshold: int,
                            slots: map<Item<K, V>, Slot<V>>, hashOf: K -> bv32, readRows: seq<Option<Row<K, V>>>,
                            sameView: bool, i: nat, p: nat)
    requires ViewsOk(initialCapacity, rows, size, threshold, slots, hashOf, readRows, sameView)
    requires i < |rows| && p < |Items(rows[i])|
    requires WellFormed(rows[i := RemoveAt(Items(rows[i]), p)], hashOf)
    requires Count(rows[i := RemoveAt(Items(rows[i]), p)]) == Count(rows) - 1
    requires Items(rows[i])[p] != null && AllLive(rows[i := RemoveAt(Items(rows[i]), p)], slots[Items(rows[i])[p] := Doornail])
    ensures var rows' := rows[i := RemoveAt(Items(rows[i]), p)];
            ViewsOk(initialCapacity, rows', size - 1, threshold, slots[Items(rows[i])[p] := Doornail], hashOf,
                    if sameView then rows' else readRows, sameView)
  {
  }

  /** A fresh table of null buckets is live and empty. */
  lemma EmptyLiveTable<K, V>(n: nat, threshold: int, slots: map<Item<K, V>, Slot<V>>, hashOf: K -> bv32)
    requires IsPowerOfTwo(n) && 1 <= n <= MaxCapacity && (n == MaxCapacity ==> threshold == IntMax)
    ensures LiveTable(EmptyTable<K, V>(n), 0, threshold, slots, hashOf)
  {
    EmptyTableOk<K, V>(n, hashOf);
    EmptyTableAllNone<K, V>(n);
  }

  /** A fresh table of null buckets represents the empty map. */
  lemma EmptyMapOf<K(!new), V>(n: nat, slots: map<Item<K, V>, Slot<V>>, hashOf: K -> bv32)
    requires n >= 1
    ensures MapOf(EmptyTable<K, V>(n), hashOf, slots) == imap[]
  {
    EmptyItemOf<K, V>(n, hashOf);
    TabulateNone(k => ValueOf(EmptyTable<K, V>(n), hashOf, slots, k));
  }

  /** Every bucket of a retired table is frozen. */
  ghost predicate Retired<K, V>(rows: seq<Option<Row<K, V>>>)
  {
    forall i :: 0 <= i < |rows| ==> Frozen(rows[i])
  }

  /**
   * The state of a map's two views: the initial capacity a power of two in
   * range, the write view a live table, and the read view a table of at
   * least one bucket that is either the write view itself or one that
   * resize has retired.
   */
  ghost predicate ViewsOk<K, V>(initialCapacity: nat, rows: seq<Option<Row<K, V>>>, size: int, threshold: int,
                                slots: map<Item<K, V>, Slot<V>>, hashOf: K -> bv32,
                                readRows: seq<Option<Row<K, V>>>, sameView: bool)
  {
    && IsPowerOfTwo(initialCapacity) && 1 <= initialCapacity <= MaxCapacity
    && LiveTable(rows, size, threshold, slots, hashOf)
    && |readRows| >= 1
    && (!sameView ==> Retired(readRows))
  }

  /** A table holding exactly the items of a table of live items holds only live items. */
  lemma SameItemsAllLive<K, V>(rows: seq<Option<Row<K, V>>>, m: seq<Option<Row<K, V>>>, slots: map<Item<K, V>, Slot<V>>)
    requires AllLive(rows, slots) && multiset(Flatten(m)) == multiset(Flatten(rows))
    ensures AllLive(m, slots)
  {
    forall i, j | 0 <= i < |m| && 0 <= j < |Items(m[i])|
      ensures Items(m[i])[j] != null && Items(m[i])[j] in slots && slots[Items(m[i])[j]].Live?
    {
      var x := Items(m[i])[j];
      FlattenMember(m, x);
      SameMember(Flatten(m), Flatten(rows), x);
      FlattenMember(rows, x);
      var p :| 0 <= p < |rows| && x in Items(rows[p]);
      var q :| 0 <= q < |Items(rows[p])| && Items(rows[p])[q] == x;
    }
  }

  /**
   * What resize builds, stated on values: the table of twice the capacity is
   * well formed, holds the old items and finds for every key the item the
   * old table found.
   */
  lemma ResizedTable<K, V>(rows: seq<Option<Row<K, V>>>, hashOf: K -> bv32)
    requires WellFormed(rows, hashOf) && |rows| < MaxCapacity
    ensures NoNulls(Flatten(rows))
    ensures var m := Migrate(rows, 2 * |rows|, hashOf);
            && WellFormed(m, hashOf) && |m| == 2 * |rows| && Count(m) == Count(rows)
            && multiset(Flatten(m)) == multiset(Flatten(rows))
            && forall key :: ItemOf(m, hashOf, key) == ItemOf(rows, hashOf, key)
  {
    MaxCapacityIsPowerOfTwo();
    DoublingStaysBelow(|rows|, MaxCapacity);
    DoubledPowerOfTwo(|rows|);
    MigrateKeepsMap(rows, 2 * |rows|, hashOf);
    MigrateItemOf(rows, 2 * |rows|, hashOf);
  }

  /**
   * Resize keeps the table live: the doubled table is a live table of the
   * same count.
   */
  lemma ResizedLiveTable<K, V>(rows: seq<Option<Row<K, V>>>, size: int, threshold: int, newThreshold: int,
                               slots: map<Item<K, V>, Slot<V>>, hashOf: K -> bv32)
    requires LiveTable(rows, size, threshold, slots, hashOf) && |rows| < MaxCapacity
    requires 2 * |rows| == MaxCapacity ==> newThreshold == IntMax
    ensures NoNulls(Flatten(rows))
    ensures var m := Migrate(rows, 2 * |rows|, hashOf);
            LiveTable(m, size, newThreshold, slots, hashOf) && |m| == 2 * |rows|
  {
    ResizedTable(rows, hashOf);
    SameItemsAllLive(rows, Migrate(rows, 2 * |rows|, hashOf), slots);
  }

  /**
   * Resize keeps the views valid: the doubled table is a live table of the
   * same count, and a read view that was the old table is now retired.
   */
  lemma ResizedViewsOk<K, V>(initialCapacity: nat, rows: seq<Option<Row<K, V>>>, size: int, threshold: int, newThreshold: int,
                             slots: map<Item<K, V>, Slot<V>>, hashOf: K -> bv32, readRows: seq<Option<Row<K, V>>>, sameView: bool)
    requires ViewsOk(initialCapacity, rows, size, threshold, slots, hashOf, readRows, sameView)
    requires |rows| < MaxCapacity && (2 * |rows| == MaxCapacity ==> newThreshold == IntMax)
    ensures NoNulls(Flatten(rows))
    ensures ViewsOk(initialCapacity, Migrate(rows, 2 * |rows|, hashOf), size, newThreshold, slots, hashOf,
                    if sameView then FreezeAll(rows) else readRows, false)
  {
    ResizedLiveTable(rows, size, threshold, newThreshold, slots, hashOf);
    FrozenRetired(rows, hashOf);
  }

  /** Resize keeps the map: the doubled table represents the map the old one did. */
  lemma ResizedMapOf<K(!new), V>(rows: seq<Option<Row<K, V>>>, slots: map<Item<K, V>, Slot<V>>, hashOf: K -> bv32)
    requires WellFormed(rows, hashOf) && |rows| < MaxCapacity
    ensures NoNulls(Flatten(rows))
    ensures var m := Migrate(rows, 2 * |rows|, hashOf);
            |m| == 2 * |rows| && MapOf(m, hashOf, slots) == MapOf(rows, hashOf, slots)
  {
    ResizedTable(rows, hashOf);
    var m := Migrate(rows, 2 * |rows|, hashOf);
    TabulateSame(k => ValueOf(rows, hashOf, slots, k), k => ValueOf(m, hashOf, slots, k));
  }

  /** Every bucket of a table frozen, as resize leaves the table it replaces. */
  function FreezeAll<K, V>(rows: seq<Option<Row<K, V>>>): seq<Option<Row<K, V>>>
  {
    seq(|rows|, p requires 0 <= p < |rows| => Freeze(rows[p]))
  }

  /** The table resize leaves behind, every bucket frozen, is retired. */
  lemma FrozenRetired<K, V>(rows: seq<Option<Row<K, V>>>, hashOf: K -> bv32)
    requires WellFormed(rows, hashOf)
    ensures Retired(FreezeAll(rows))
  {
    forall p | 0 <= p < |rows| ensures Frozen(FreezeAll(rows)[p]) {
      assert BucketOk(rows[p], p, |rows|, hashOf);
      FreezeIsFrozen(rows[p]);
    }
  }

  /** No bucket of the table holds a null. */
  ghost predicate RowsNoNulls<K, V>(rows: seq<Option<Row<K, V>>>)
  {
    forall p :: 0 <= p < |rows| ==> NoNulls(Items(rows[p]))
  }

  lemma WellFormedRowsNoNulls<K, V>(rows: seq<Option<Row<K, V>>>, hashOf: K -> bv32)
    requires WellFormed(rows, hashOf)
    ensures RowsNoNulls(rows)
  {
    forall p | 0 <= p < |rows| ensures NoNulls(Items(rows[p])) {
      assert BucketOk(rows[p], p, |rows|, hashOf);
    }
  }

  /**
   * The effect of a successful resize on values: rows, the old buckets, are
   * left frozen and their items fill m, a table of twice the capacity.
   */
  ghost predicate Resized<K, V>(rows: seq<Option<Row<K, V>>>, frozen: seq<Option<Row<K, V>>>, m: seq<Option<Row<K, V>>>, hashOf: K -> bv32)
  {
    && NoNulls(Flatten(rows))
    && frozen == FreezeAll(rows)
    && |rows| >= 1 && m == Migrate(rows, 2 * |rows|, hashOf)
  }

  lemma DoubledPowerOfTwo(c: nat)
    requires IsPowerOfTwo(c)
    ensures IsPowerOfTwo(2 * c)
  {
    assert (2 * c) / 2 == c;
  }

  lemma SameMember<T>(a: seq<T>, b: seq<T>, x: T)
    requires multiset(a) == multiset(b) && x in a
    ensures x in b
  {
    assert x in multiset(a);
  }

}
