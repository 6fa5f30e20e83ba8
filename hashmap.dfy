/**
 * ConcurrentHashMapDML1 run by a single thread: a table of buckets, each a
 * row of items that is replaced wholesale on every change, reached through a
 * read view and a write view. With one thread every compare-and-set succeeds
 * on its first attempt and the write view is never found empty.
 */
module HashMaps {
  import opened Rows
  import opened Buckets
  import opened LiveTables

  /** One generation of the bucket array, with its live count and resize threshold. */
  class Table<K, V> {
    const buckets: array<Option<Row<K, V>>>
    const threshold: int
    var size: int

    /** A table of `capacity` null buckets; a table of maximum capacity never reaches its threshold. */
    constructor (capacity: nat, thresholdOf: nat -> nat)
      requires capacity >= 1
      ensures fresh(buckets) && buckets[..] == EmptyTable(capacity)
      ensures threshold == if capacity == MaxCapacity then IntMax else thresholdOf(capacity)
      ensures size == 0
    {
      buckets := new Option<Row<K, V>>[capacity](_ => None);
      threshold := if capacity == MaxCapacity then IntMax else thresholdOf(capacity);
      size := 0;
      new;
      forall i | 0 <= i < capacity ensures buckets[i] == EmptyTable<K, V>(capacity)[i] {
        EmptyTableIsEmpty<K, V>(capacity, i);
      }
    }
  }

  /**
   * The capacity the constructor settles on: the least power of two not below
   * the requested capacity, which is first capped at MAXIMUM_CAPACITY; a
   * negative request is refused.
   */
  method NormalizeCapacity(initialCapacity: int) returns (r: Result<nat>)
    ensures initialCapacity < 0 <==> r == Err(IllegalArgument)
    ensures r.Ok? ==> IsPowerOfTwo(r.value) && 1 <= r.value <= MaxCapacity
    ensures r.Ok? ==> r.value >= initialCapacity || r.value == MaxCapacity
    ensures r.Ok? ==> r.value == 1 || r.value < 2 * initialCapacity
  {
    if initialCapacity < 0 {
      return Err(IllegalArgument);
    }
    var requested := initialCapacity;
    if requested > MaxCapacity {
      requested := MaxCapacity;
    }
    var capacity := 1;
    while capacity < requested
      invariant IsPowerOfTwo(capacity) && 1 <= capacity <= MaxCapacity
      invariant capacity == 1 || capacity < 2 * requested
      decreases requested - capacity
    {
      MaxCapacityIsPowerOfTwo();
      DoublingStaysBelow(capacity, MaxCapacity);
      DoubledPowerOfTwo(capacity);
      capacity := 2 * capacity;
    }
    r := Ok(capacity);
  }

  lemma PrefixSnoc<T>(done: seq<T>, items: seq<T>, j: nat)
    requires j < |items|
    ensures done + items[..j + 1] == (done + items[..j]) + [items[j]]
  {
    assert items[..j + 1] == items[..j] + [items[j]];
  }

  lemma PrefixAll<T>(done: seq<T>, items: seq<T>)
    ensures done + items[..|items|] == done + items
  {
    assert items[..|items|] == items;
  }

  /** Distributing the items migrated so far and then item j of the row. */
  lemma DistributeNext<K, V>(done: Row<K, V>, items: Row<K, V>, j: nat, capacity: nat, hashOf: K -> bv32)
    requires capacity >= 1 && j < |items| && items[j] != null && NoNulls(done + items[..j])
    ensures NoNulls(done + items[..j + 1])
    ensures var d := Distribute(done + items[..j], capacity, hashOf);
            var i := BucketIndex(hashOf(items[j].key), capacity);
            Distribute(done + items[..j + 1], capacity, hashOf) == d[i := Some(AddItem(d[i], items[j]))]
  {
    PrefixSnoc(done, items, j);
    DistributeSnoc(done + items[..j], items[j], capacity, hashOf);
  }

  /**
   * The item loop of resize for one old row: each item is appended to the
   * bucket its key's hash selects in the new array.
   */
  method MigrateRow<K, V>(ghost done: Row<K, V>, items: Row<K, V>, newArray: array<Option<Row<K, V>>>, hashOf: K -> bv32)
    requires newArray.Length >= 1 && NoNulls(done) && NoNulls(items)
    requires newArray[..] == Distribute(done, newArray.Length, hashOf)
    modifies newArray
    ensures NoNulls(done + items)
    ensures newArray[..] == Distribute(done + items, newArray.Length, hashOf)
  {
    var j := 0;
    assert done + items[..0] == done;
    while j < |items|
      invariant 0 <= j <= |items|
      invariant NoNulls(done + items[..j])
      invariant newArray[..] == Distribute(done + items[..j], newArray.Length, hashOf)
    {
      var item := items[j];
      var idx := BucketIndex(hashOf(item.key), newArray.Length);
      var bucket := Some(AddItem(newArray[idx], item));
      ghost var d := newArray[..];
      newArray[idx] := bucket;
      assert newArray[..] == d[idx := bucket];
      DistributeNext(done, items, j, newArray.Length, hashOf);
      j := j + 1;
    }
    PrefixAll(done, items);
  }

  /**
   * One round of the bucket loop of resize: bucket i of the old array is
   * replaced by its frozen form (EMPTY_MARKER for a null bucket, the row with
   * a trailing null otherwise) and the items it held are migrated after those
   * of the buckets before it; their number is returned.
   */
  method MigrateBucket<K, V>(origArray: array<Option<Row<K, V>>>, i: nat, newArray: array<Option<Row<K, V>>>,
                             hashOf: K -> bv32, ghost rows: seq<Option<Row<K, V>>>) returns (count: nat)
    requires origArray != newArray && newArray.Length >= 1 && i < origArray.Length == |rows|
    requires origArray[i] == rows[i] && NoNulls(Items(rows[i]))
    requires NoNulls(Flatten(rows[..i])) && newArray[..] == Distribute(Flatten(rows[..i]), newArray.Length, hashOf)
    modifies origArray, newArray
    ensures origArray[i] == Freeze(rows[i])
    ensures forall p :: 0 <= p < origArray.Length && p != i ==> origArray[p] == old(origArray[p])
    ensures NoNulls(Flatten(rows[..i + 1]))
    ensures newArray[..] == Distribute(Flatten(rows[..i + 1]), newArray.Length, hashOf)
    ensures Count(rows[..i + 1]) == Count(rows[..i]) + count
  {
    FlattenSnoc(rows, i);
    var row := origArray[i];
    origArray[i] := if row.None? then Some(EmptyMarker()) else Some(AddItem(row, null));
    if row.Some? {
      MigrateRow(Flatten(rows[..i]), row.value, newArray, hashOf);
      count := |row.value|;
    } else {
      assert Flatten(rows[..i]) + Items(row) == Flatten(rows[..i]);
      count := 0;
    }
  }

  /**
   * The bucket loop of resize: every old bucket is replaced by its frozen
   * form (EMPTY_MARKER for a null bucket, the row with a trailing null
   * otherwise) and its items are migrated; the number of items moved is
   * returned.
   */
  method FreezeAndMigrate<K, V>(origArray: array<Option<Row<K, V>>>, newArray: array<Option<Row<K, V>>>, hashOf: K -> bv32)
    returns (newSize: nat)
    requires origArray != newArray && newArray.Length >= 1
    requires RowsNoNulls(origArray[..])
    requires newArray[..] == EmptyTable(newArray.Length)
    modifies origArray, newArray
    ensures origArray[..] == FreezeAll(old(origArray[..]))
    ensures NoNulls(Flatten(old(origArray[..])))
    ensures newArray[..] == Migrate(old(origArray[..]), newArray.Length, hashOf)
    ensures newSize == Count(old(origArray[..]))
  {
    ghost var rows := origArray[..];
    newSize := 0;
    assert rows[..0] == [];
    var i := 0;
    while i < origArray.Length
      invariant 0 <= i <= origArray.Length
      invariant forall p :: 0 <= p < origArray.Length ==> origArray[p] == if p < i then Freeze(rows[p]) else rows[p]
      invariant NoNulls(Flatten(rows[..i]))
      invariant newArray[..] == Distribute(Flatten(rows[..i]), newArray.Length, hashOf)
      invariant newSize == Count(rows[..i])
    {
      var count := MigrateBucket(origArray, i, newArray, hashOf, rows);
      newSize := newSize + count;
      i := i + 1;
    }
    assert rows[..i] == rows;
    assert origArray[..] == FreezeAll(rows);
  }

  /**
   * The body of resize once its compare-and-set has succeeded: a table of
   * twice the capacity receives every item of the old one, whose buckets
   * are frozen; its size is the number of items moved.
   */
  method Grow<K, V>(origArray: array<Option<Row<K, V>>>, hashOf: K -> bv32, thresholdOf: nat -> nat)
    returns (newTable: Table<K, V>)
    requires WellFormed(origArray[..], hashOf) && origArray.Length < MaxCapacity
    modifies origArray
    ensures fresh(newTable) && fresh(newTable.buckets)
    ensures newTable.threshold == if newTable.buckets.Length == MaxCapacity then IntMax else thresholdOf(newTable.buckets.Length)
    ensures Resized(old(origArray[..]), origArray[..], newTable.buckets[..], hashOf)
    ensures newTable.size == Count(old(origArray[..]))
  {
    ghost var rows := origArray[..];
    WellFormedRowsNoNulls(rows, hashOf);
    var newCapacity := 2 * origArray.Length;
    newTable := new Table<K, V>(newCapacity, thresholdOf);
    var newArray := newTable.buckets;
    var newSize := FreezeAndMigrate(origArray, newArray, hashOf);
    ghost var m := newArray[..];
    assert Resized(rows, origArray[..], m, hashOf);
    newTable.size := newSize;
  }

  class ConcurrentHashMapDML1<K(==, !new), V(==)> {
    /** key.hashCode(), the bit pattern of the Java int */
    const hashOf: K -> bv32
    /** (int)(capacity * loadFactor), the threshold of a table below maximum capacity */
    const thresholdOf: nat -> nat
    /** the normalized capacity of the first table and of every table clear installs */
    const initialCapacity: nat
    /** the table lookups, size() and the iterators use */
    var readView: Table<K, V>
    /** the table every write goes to */
    var writeView: Table<K, V>
    /** the map object, its tables and their bucket arrays */
    ghost var Repr: set<object>
    /** every item the map has created; those of the write view among them */
    ghost var Cells: set<Item<K, V>>

    /**
     * The write view is a live table (well formed, its size counting its
     * items, all of them live). The read view is the write view, or an
     * older table that resize has frozen bucket by bucket.
     */
    ghost predicate Valid()
      reads this, Repr, Cells
    {
      && Repr == {this, readView, writeView, readView.buckets, writeView.buckets}
      && (readView != writeView ==> readView.buckets != writeView.buckets)
      && ViewsOk(initialCapacity, writeView.buckets[..], writeView.size, writeView.threshold, Slots(Cells), hashOf,
                 readView.buckets[..], readView == writeView)
    }

    /** The buckets of the write view. */
    ghost function Rows(): seq<Option<Row<K, V>>>
      reads this, writeView.buckets
    {
      writeView.buckets[..]
    }

    /** The map the write view represents. */
    ghost function Contents(): imap<K, Option<V>>
      requires Valid()
      reads this, Repr, Cells
    {
      MapOf(Rows(), hashOf, Slots(Cells))
    }

    /**
     * Both views start on the same empty table of the given (normalized)
     * capacity.
     */
    constructor (capacity: nat, hashOf: K -> bv32, thresholdOf: nat -> nat)
      requires IsPowerOfTwo(capacity) && 1 <= capacity <= MaxCapacity
      ensures Valid() && fresh(Repr) && Cells == {}
      ensures readView == writeView && writeView.buckets.Length == capacity && initialCapacity == capacity
      ensures this.hashOf == hashOf && this.thresholdOf == thresholdOf
      ensures Contents() == imap[]
    {
      this.hashOf := hashOf;
      this.thresholdOf := thresholdOf;
      initialCapacity := capacity;
      var table := new Table<K, V>(capacity, thresholdOf);
      readView := table;
      writeView := table;
      new;
      Repr := {this, table, table.buckets};
      Cells := {};
      EmptyLiveTable<K, V>(capacity, table.threshold, Slots(Cells), hashOf);
      EmptyMapOf<K, V>(capacity, Slots(Cells), hashOf);
    }

    /**
     * The four-argument constructor, load factor aside: a negative initial
     * capacity is refused, any other is capped at MAXIMUM_CAPACITY and rounded
     * up to a power of two.
     */
    static method Create(initialCapacity: int, hashOf: K -> bv32, thresholdOf: nat -> nat)
      returns (r: Result<ConcurrentHashMapDML1<K, V>>)
      ensures initialCapacity < 0 <==> r == Err(IllegalArgument)
      ensures r.Ok? ==> r.value.Valid() && fresh(r.value.Repr) && r.value.readView == r.value.writeView
      ensures r.Ok? ==> r.value.Contents() == imap[]
      ensures r.Ok? ==> r.value.hashOf == hashOf && r.value.thresholdOf == thresholdOf
      ensures r.Ok? ==> r.value.writeView.buckets.Length == r.value.initialCapacity
      ensures r.Ok? ==> var c := r.value.initialCapacity;
                        && (c >= initialCapacity || c == MaxCapacity)
                        && (c == 1 || c / 2 < initialCapacity)
    {
      var capacity := NormalizeCapacity(initialCapacity);
      if capacity.Err? {
        return Err(capacity.error);
      }
      var m := new ConcurrentHashMapDML1(capacity.value, hashOf, thresholdOf);
      r := Ok(m);
    }

    /** The bucket of the read view where key belongs. */
    ghost function ReadSlot(key: K): Option<Row<K, V>>
      requires Valid()
      reads this, Repr, Cells
    {
      readView.buckets[BucketIndex(hashOf(key), readView.buckets.Length)]
    }

    /**
     * get: the value of key's item in the read view, null for a removed item;
     * a null key, a missing key and a frozen bucket without the key all throw.
     * On the live table, get answers exactly what the map holds, and throws
     * for an absent key.
     */
    method Get(key: Option<K>) returns (r: Result<Option<V>>)
      requires Valid()
      ensures key.None? ==> r == Err(NullPointer)
      ensures key.Some? ==> match Find(ReadSlot(key.value), key.value)
                            case Ok(Some(x)) => r == Ok(if x.value.Doornail? then None else x.value.v)
                            case _ => r == Err(NullPointer)
      ensures key.Some? && readView == writeView ==>
                (r.Ok? <==> key.value in Contents()) && (r.Ok? ==> r.value == Contents()[key.value])
      ensures r.Err? ==> r.error == NullPointer
    {
      if key.None? {
        return Err(NullPointer);
      }
      var k := key.value;
      var item := DoGet(readView.buckets, k);
      if item.Err? || item.value.None? {
        return Err(NullPointer);
      }
      var value := item.value.value.value;
      r := Ok(if value.Doornail? then None else value.v);
    }

    /**
     * doGet(table, key): the row of key's bucket scanned for key; a null
     * bucket holds nothing.
     */
    method DoGet(buckets: array<Option<Row<K, V>>>, key: K) returns (r: Result<Option<Item<K, V>>>)
      requires buckets.Length >= 1
      ensures r == Find(buckets[BucketIndex(hashOf(key), buckets.Length)], key)
    {
      var row := buckets[BucketIndex(hashOf(key), buckets.Length)];
      if row.None? {
        return Ok(None);
      }
      var i := IndexOfKey(row.value, key);
      match i
      case Err(e) => r := Err(e);
      case Ok(i) => r := if i < |row.value| then Ok(Some(row.value[i])) else Ok(None);
    }

    /**
     * containsKey: whether key's item in the read view is there and not
     * removed; a null key, or a frozen bucket without the key, throws.
     */
    method ContainsKey(key: Option<K>) returns (r: Result<bool>)
      requires Valid()
      ensures key.None? ==> r == Err(NullPointer)
      ensures key.Some? ==> match Find(ReadSlot(key.value), key.value)
                            case Err(e) => r == Err(e)
                            case Ok(None) => r == Ok(false)
                            case Ok(Some(x)) => r == Ok(x.value.Live?)
      ensures key.Some? && readView == writeView ==> r == Ok(key.value in Contents())
    {
      if key.None? {
        return Err(NullPointer);
      }
      var item := DoGet(readView.buckets, key.value);
      match item
      case Err(e) => r := Err(e);
      case Ok(None) => r := Ok(false);
      case Ok(Some(x)) => r := Ok(x.value.Live?);
    }

    /**
     * EntrySet.contains: whether the read view holds a live item with other's
     * key and a null-aware-equal value; a non-item argument (here null) is
     * never contained, and a key the read view lacks throws.
     */
    method ContainsEntry(other: Item?<K, V>) returns (r: Result<bool>)
      requires Valid()
      ensures other == null ==> r == Ok(false)
      ensures other != null ==> match Find(ReadSlot(other.key), other.key)
                                case Ok(Some(x)) =>
                                  r == Ok(x.value.Live? && other.value.Live? && NullAwareEquals(x.value.v, other.value.v))
                                case _ => r == Err(NullPointer)
      ensures other != null && readView == writeView ==>
                (r.Ok? <==> other.key in Contents())
                && (r.Ok? ==> (r.value <==> other.value.Live? && Contents()[other.key] == other.value.v))
    {
      if other == null {
        return Ok(false);
      }
      var item := DoGet(readView.buckets, other.key);
      if item.Err? || item.value.None? {
        return Err(NullPointer);
      }
      var x := item.value.value;
      var itemVal := x.value;
      var otherVal := other.value;
      r := Ok(itemVal.Live? && otherVal.Live? && other.key == x.key && NullAwareEquals(itemVal.v, otherVal.v));
    }

    /** size(): the read view's count, which is the number of keys while the read view is the live table. */
    method Size() returns (r: int)
      requires Valid()
      ensures r == readView.size
      ensures readView == writeView ==> r == Count(Rows()) == |KeysOf(Rows())|
    {
      r := readView.size;
      if readView == writeView {
        KeyCount(writeView.buckets[..], hashOf);
      }
    }

    /** clear: both views move to one fresh empty table of the initial capacity. */
    method Clear()
      requires Valid()
      modifies this
      ensures Valid() && fresh(Repr - {this}) && Cells == old(Cells)
      ensures readView == writeView && writeView.buckets.Length == initialCapacity
      ensures Contents() == imap[]
    {
      var newTable := new Table<K, V>(initialCapacity, thresholdOf);
      readView := newTable;
      writeView := newTable;
      Repr := {this, newTable, newTable.buckets};
      SlotsKept(Cells);
      EmptyLiveTable<K, V>(initialCapacity, newTable.threshold, Slots(Cells), hashOf);
      EmptyMapOf<K, V>(initialCapacity, Slots(Cells), hashOf);
    }

    /**
     * resize(origTable), run by the put that found the size at the threshold.
     * Unless the write view has already moved on, every bucket of the old
     * table is frozen, every old item is appended to its bucket in a table of
     * twice the capacity, and that table, with the number of items moved as
     * its size, becomes the write view. The read view stays where it was,
     * and the map holds what it held.
     */
    method Resize(origTable: Table<K, V>)
      requires Valid()
      requires origTable == writeView ==> origTable.buckets.Length < MaxCapacity
      modifies this, origTable.buckets
      ensures Valid() && fresh(Repr - old(Repr)) && Cells == old(Cells) && readView == old(readView)
      ensures old(writeView) != origTable ==> writeView == old(writeView) && Repr == old(Repr) && unchanged(origTable.buckets)
      ensures old(writeView) == origTable ==>
                && fresh(writeView) && fresh(writeView.buckets)
                && Resized(old(origTable.buckets[..]), origTable.buckets[..], Rows(), hashOf)
                && writeView.size == old(writeView.size)
      ensures Contents() == old(Contents())
    {
      if writeView != origTable {
        // the compare-and-set of the write view fails: someone else resized
        return;
      }
      var origArray := origTable.buckets;
      ghost var rows := origArray[..];
      ghost var slots := Slots(Cells);
      ghost var readRows := readView.buckets[..];
      ghost var sameView := readView == writeView;
      var newTable := Grow(origArray, hashOf, thresholdOf);
      writeView := newTable;
      Repr := {this, readView, newTable, readView.buckets, newTable.buckets};
      ResizedViewsOk(initialCapacity, rows, newTable.size, origTable.threshold, newTable.threshold, slots, hashOf, readRows, sameView);
      ResizedMapOf(rows, slots, hashOf);
      SlotsKept(Cells);
      assert readView.buckets[..] == if sameView then origArray[..] else readRows;
    }

    /**
     * The scan every write starts with: key's bucket in the write view and
     * the position in its row of the item carrying key, the row's length
     * when there is none. Every item of the write view is live, so the item
     * found holds the value the map has for key.
     */
    method Locate(key: K) returns (idx: nat, row: Option<Row<K, V>>, rowIdx: nat)
      requires Valid()
      ensures idx == BucketIndex(hashOf(key), |Rows()|) && row == Rows()[idx]
      ensures rowIdx <= |Items(row)|
      ensures rowIdx < |Items(row)| <==> key in Contents()
      ensures rowIdx < |Items(row)| ==>
                && Items(row)[rowIdx] != null && Items(row)[rowIdx] in Cells
                && ItemOf(Rows(), hashOf, key).value == Items(row)[rowIdx]
                && Items(row)[rowIdx].value == Live(Contents()[key])
    {
      var buckets := writeView.buckets;
      idx := BucketIndex(hashOf(key), buckets.Length);
      row := buckets[idx];
      ItemOfAbsent(Rows(), hashOf, key);
      ItemsLive(Rows(), hashOf, Slots(Cells));
      var found := IndexOfKey(Items(row), key);
      match found
      case Err(_) => assert false;
      case Ok(i) => rowIdx := i;
    }

    /**
     * The insertion branch of put: a new item for key, holding value, is
     * appended to the row of key's bucket and the size goes up by one; the
     * size before the increment is returned.
     */
    method Append(key: K, value: Option<V>, idx: nat, oldRow: Option<Row<K, V>>) returns (oldSize: int)
      requires Valid() && key !in Contents()
      requires idx == BucketIndex(hashOf(key), |Rows()|) && oldRow == Rows()[idx]
      modifies this, writeView, writeView.buckets
      ensures Valid() && Repr == old(Repr) && readView == old(readView) && writeView == old(writeView)
      ensures oldSize == old(writeView.size) && writeView.size == oldSize + 1
      ensures Contents() == old(Contents())[key := value]
      ensures old(readView) != old(writeView) ==> unchanged(readView, readView.buckets)
    {
      ghost var rows := Rows();
      ghost var slots := Slots(Cells);
      ghost var readRows := readView.buckets[..];
      var newItem := new Item(key, hashOf(key), value);
      assert newItem !in slots;
      InsertMapOf(rows, hashOf, slots, newItem, value);
      ghost var rows' := rows[idx := Some(AddItem(oldRow, newItem))];
      ghost var slots' := slots[newItem := Live(value)];
      var buckets := writeView.buckets;
      buckets[idx] := Some(AddItem(oldRow, newItem));
      assert buckets[..] == rows';
      Cells := Cells + {newItem};
      oldSize := writeView.size;
      writeView.size := oldSize + 1;
      SlotsAdd(old(Cells), newItem);
      assert Slots(Cells) == slots';
      assert readView.buckets[..] == if readView == writeView then rows' else readRows;
    }

    /**
     * The unlinking that ends remove(key), remove(key, value) and removeItem:
     * the item at rowIdx of bucket idx gets DOORNAIL, the bucket gets the row
     * without it, and the size goes down by one.
     */
    method Unlink(x: Item<K, V>, idx: nat, row: Row<K, V>, rowIdx: nat)
      requires Valid() && idx < |Rows()| && Rows()[idx] == Some(row) && rowIdx < |row| && row[rowIdx] == x
      modifies writeView, writeView.buckets, x
      ensures Valid() && readView == old(readView) && writeView == old(writeView)
      ensures writeView.size == old(writeView.size) - 1 && x.value == Doornail
      ensures Contents() == old(Contents()) - {x.key}
      ensures old(readView) != old(writeView) ==> unchanged(readView, readView.buckets)
      ensures unchanged(old(Cells) - {x})
    {
      ghost var rows := Rows();
      ghost var slots := Slots(Cells);
      ghost var readRows := readView.buckets[..];
      DeleteMapOf(rows, hashOf, slots, idx, rowIdx);
      DeleteViewsOk(initialCapacity, rows, writeView.size, writeView.threshold, slots, hashOf, readRows, readView == writeView, idx, rowIdx);
      ghost var rows' := rows[idx := RemoveAt(row, rowIdx)];
      x.value := Doornail;
      var buckets := writeView.buckets;
      buckets[idx] := RemoveAt(row, rowIdx);
      writeView.size := writeView.size - 1;
      SlotsSet(Cells, x);
      assert Slots(Cells) == slots[x := Doornail];
      assert buckets[..] == rows';
      assert readView.buckets[..] == if readView == writeView then rows' else readRows;
    }

    /** The compare-and-set of an existing item's value, as put, replace and item setValue do it. */
    method SetSlot(x: Item<K, V>, value: Option<V>)
      requires Valid() && ItemOf(Rows(), hashOf, x.key) == Some(x)
      modifies x
      ensures Valid() && Contents() == old(Contents())[x.key := value]
    {
      ghost var slots := Slots(Cells);
      ItemsLive(Rows(), hashOf, slots);
      SetMapOf(Rows(), hashOf, slots, x, value);
      x.value := Live(value);
      SlotsSet(Cells, x);
      assert Slots(Cells) == slots[x := Live(value)];
    }

    /**
     * doPut(key, value, ifAbsent): a null key is refused. For a key the map
     * holds, the old value is returned and, unless ifAbsent, replaced. For a
     * new key an item is appended to its bucket, NOT_PRESENT (here None) is
     * returned, and a size that was at the threshold before the increment
     * sets off a resize.
     */
    method DoPut(key: Option<K>, value: Option<V>, ifAbsent: bool) returns (r: Result<Option<Option<V>>>)
      requires Valid() && writeView.size < IntMax
      modifies this, writeView, writeView.buckets, Cells
      ensures Valid() && fresh(Repr - old(Repr)) && readView == old(readView)
      ensures key.None? ==> r == Err(IllegalArgument) && writeView == old(writeView) && Contents() == old(Contents())
      ensures key.Some? ==>
                var k := key.value;
                && r == Ok(if k in old(Contents()) then Some(old(Contents())[k]) else None)
                && Contents() == (if k in old(Contents()) && ifAbsent then old(Contents()) else old(Contents())[k := value])
                && writeView.size == old(writeView.size) + (if k in old(Contents()) then 0 else 1)
                && (writeView != old(writeView) <==> k !in old(Contents()) && old(writeView.size) == old(writeView.threshold))
      ensures old(readView) != old(writeView) ==> unchanged(readView, readView.buckets)
      ensures key.Some? && key.value in old(Contents()) ==>
                old(ItemOf(Rows(), hashOf, key.value)).Some?
                && unchanged(old(Cells) - {old(ItemOf(Rows(), hashOf, key.value)).value})
      ensures !(key.Some? && key.value in old(Contents())) || ifAbsent ==> unchanged(old(Cells))
    {
      if key.None? {
        return Err(IllegalArgument);
      }
      var k := key.value;
      var table := writeView;
      var idx, oldRow, rowIdx := Locate(k);
      if rowIdx < |Items(oldRow)| {
        var prev := PutPresent(Items(oldRow)[rowIdx], value, ifAbsent);
        return Ok(Some(prev));
      }
      PutAbsent(k, value, idx, oldRow);
      r := Ok(None);
    }

    /**
     * The branch of doPut for a key the map holds: the old value is returned
     * and, unless ifAbsent, replaced. The item found is live, so the retry
     * that a DOORNAIL value would set off cannot happen.
     */
    method PutPresent(x: Item<K, V>, value: Option<V>, ifAbsent: bool) returns (prev: Option<V>)
      requires Valid() && ItemOf(Rows(), hashOf, x.key) == Some(x) && x.key in Contents()
      requires x.value == Live(Contents()[x.key])
      modifies x
      ensures unchanged(readView, readView.buckets) && unchanged(writeView, writeView.buckets)
      ensures Valid() && prev == old(Contents())[x.key]
      ensures Contents() == if ifAbsent then old(Contents()) else old(Contents())[x.key := value]
      ensures unchanged(old(Cells) - {x}) && (ifAbsent ==> unchanged(x))
    {
      var oldValue := x.value;
      if !ifAbsent {
        SetSlot(x, value);
      }
      prev := oldValue.v;
    }

    /**
     * The insertion branch of doPut: the new item is appended, and a size
     * that was at the threshold before the increment sets off a resize.
     */
    method PutAbsent(key: K, value: Option<V>, idx: nat, oldRow: Option<Row<K, V>>)
      requires Valid() && writeView.size < IntMax && key !in Contents()
      requires idx == BucketIndex(hashOf(key), |Rows()|) && oldRow == Rows()[idx]
      modifies this, writeView, writeView.buckets
      ensures Valid() && fresh(Repr - old(Repr)) && readView == old(readView)
      ensures Contents() == old(Contents())[key := value]
      ensures writeView.size == old(writeView.size) + 1
      ensures writeView != old(writeView) <==> old(writeView.size) == old(writeView.threshold)
      ensures old(readView) != old(writeView) ==> unchanged(readView, readView.buckets)
      ensures unchanged(old(Cells))
    {
      var table := writeView;
      var oldSize := Append(key, value, idx, oldRow);
      if oldSize == table.threshold {
        Resize(table);
      }
    }

    /** put: doPut with NOT_PRESENT reported as null; the key then maps to value. */
    method Put(key: Option<K>, value: Option<V>) returns (r: Result<Option<V>>)
      requires Valid() && writeView.size < IntMax
      modifies this, writeView, writeView.buckets, Cells
      ensures Valid() && fresh(Repr - old(Repr)) && readView == old(readView)
      ensures key.None? ==> r == Err(IllegalArgument) && Contents() == old(Contents())
      ensures key.Some? ==> && r == Ok(if key.value in old(Contents()) then old(Contents())[key.value] else None)
                            && Contents() == old(Contents())[key.value := value]
      ensures old(readView) != old(writeView) ==> unchanged(readView, readView.buckets)
      ensures key.Some? && key.value in old(Contents()) ==>
                old(ItemOf(Rows(), hashOf, key.value)).Some?
                && unchanged(old(Cells) - {old(ItemOf(Rows(), hashOf, key.value)).value})
      ensures !(key.Some? && key.value in old(Contents())) ==> unchanged(old(Cells))
    {
      var result := DoPut(key, value, false);
      r := match result
           case Err(e) => Err(e)
           case Ok(None) => Ok(None)
           case Ok(Some(v)) => Ok(v);
    }

    /**
     * putIfAbsent: a null key is refused; otherwise the value the key had,
     * null when it had none, and the key gets value only if it had none.
     */
    method PutIfAbsent(key: Option<K>, value: Option<V>) returns (r: Result<Option<V>>)
      requires Valid() && writeView.size < IntMax
      modifies this, writeView, writeView.buckets, Cells
      ensures Valid() && fresh(Repr - old(Repr)) && readView == old(readView)
      ensures key.None? ==> r == Err(IllegalArgument) && Contents() == old(Contents())
      ensures key.Some? ==> && r == Ok(if key.value in old(Contents()) then old(Contents())[key.value] else None)
                            && Contents() == if key.value in old(Contents()) then old(Contents())
                                             else old(Contents())[key.value := value]
      ensures old(readView) != old(writeView) ==> unchanged(readView, readView.buckets)
      ensures unchanged(old(Cells))
    {
      if key.None? {
        return Err(IllegalArgument);
      }
      var result := DoPut(key, value, true);
      r := match result
           case Err(e) => Err(e)
           case Ok(None) => Ok(None)
           case Ok(Some(v)) => Ok(v);
    }

    /**
     * remove(key): null for a null key and for a key the map lacks;
     * otherwise the key's value, after its item is marked DOORNAIL and
     * unlinked.
     */
    method Remove(key: Option<K>) returns (r: Option<V>)
      requires Valid()
      modifies writeView, writeView.buckets, Cells
      ensures Valid() && Repr == old(Repr) && readView == old(readView) && writeView == old(writeView)
      ensures r == if key.Some? && key.value in old(Contents()) then old(Contents())[key.value] else None
      ensures Contents() == if key.Some? then old(Contents()) - {key.value} else old(Contents())
      ensures writeView.size == old(writeView.size) - if key.Some? && key.value in old(Contents()) then 1 else 0
      ensures old(readView) != old(writeView) ==> unchanged(readView, readView.buckets)
      ensures key.Some? && key.value in old(Contents()) ==>
                && old(ItemOf(Rows(), hashOf, key.value)).Some?
                && old(ItemOf(Rows(), hashOf, key.value)).value.value == Doornail
                && unchanged(old(Cells) - {old(ItemOf(Rows(), hashOf, key.value)).value})
      ensures !(key.Some? && key.value in old(Contents())) ==> unchanged(writeView, writeView.buckets) && unchanged(Cells)
    {
      if key.None? {
        return None;
      }
      var k := key.value;
      var idx, oldRow, rowIdx := Locate(k);
      if oldRow.None? || rowIdx == |oldRow.value| {
        return None;
      }
      var oldItem := oldRow.value[rowIdx];
      // the value getAndSet(DOORNAIL) returns, live
      var oldValue := oldItem.value;
      assert old(ItemOf(Rows(), hashOf, k)).Some? && old(ItemOf(Rows(), hashOf, k)).value == oldItem;
      Unlink(oldItem, idx, oldRow.value, rowIdx);
      r := oldValue.v;
    }

    /**
     * remove(key, value): true, with the key removed, exactly when the map
     * maps key to a value equal to value (null-aware); a null key is false.
     */
    method RemoveValue(key: Option<K>, value: Option<V>) returns (r: bool)
      requires Valid()
      modifies writeView, writeView.buckets, Cells
      ensures Valid() && Repr == old(Repr) && readView == old(readView) && writeView == old(writeView)
      ensures r <==> key.Some? && key.value in old(Contents()) && old(Contents())[key.value] == value
      ensures Contents() == if r then old(Contents()) - {key.value} else old(Contents())
      ensures writeView.size == old(writeView.size) - if r then 1 else 0
      ensures old(readView) != old(writeView) ==> unchanged(readView, readView.buckets)
      ensures r ==>
                && old(ItemOf(Rows(), hashOf, key.value)).Some?
                && old(ItemOf(Rows(), hashOf, key.value)).value.value == Doornail
                && unchanged(old(Cells) - {old(ItemOf(Rows(), hashOf, key.value)).value})
      ensures !r ==> unchanged(writeView, writeView.buckets) && unchanged(Cells)
    {
      if key.None? {
        return false;
      }
      var k := key.value;
      var idx, oldRow, rowIdx := Locate(k);
      if oldRow.None? || rowIdx == |oldRow.value| {
        return false;
      }
      var oldItem := oldRow.value[rowIdx];
      if !SlotEquals(value, oldItem.value) {
        return false;
      }
      Unlink(oldItem, idx, oldRow.value, rowIdx);
      r := true;
    }

    /**
     * removeItem(item), behind the iterators' remove: the item is looked up
     * by identity in the bucket its own hash selects in the write view; when
     * it is not there IllegalStateException, otherwise it is marked DOORNAIL
     * and unlinked, so that its key is removed.
     */
    method RemoveItem(item: Item<K, V>) returns (r: Result<()>)
      requires Valid()
      modifies writeView, writeView.buckets, Cells
      ensures Valid() && Repr == old(Repr) && readView == old(readView) && writeView == old(writeView)
      ensures r.Ok? <==> old(ItemOf(Rows(), hashOf, item.key)) == Some(item)
      ensures r.Err? ==> r.error == IllegalState && Contents() == old(Contents())
      ensures r.Ok? ==> Contents() == old(Contents()) - {item.key} && item.value == Doornail
      ensures old(readView) != old(writeView) ==> unchanged(readView, readView.buckets)
      ensures writeView.size == old(writeView.size) - (if r.Ok? then 1 else 0)
      ensures r.Err? ==> unchanged(writeView, writeView.buckets) && unchanged(Cells)
      ensures r.Ok? ==> unchanged(old(Cells) - {item})
    {
      ItemOfPlaced(Rows(), hashOf, item);
      var buckets := writeView.buckets;
      var idx := BucketIndex(item.hash, buckets.Length);
      var oldRow := buckets[idx];
      if oldRow.None? {
        return Err(IllegalState);
      }
      var rowIdx := IndexOfItem(oldRow.value, item);
      if rowIdx == |oldRow.value| {
        assert oldRow.value[..rowIdx] == oldRow.value;
        return Err(IllegalState);
      }
      // getAndSet(DOORNAIL) finds the item live
      Unlink(item, idx, oldRow.value, rowIdx);
      r := Ok(());
    }

    /**
     * replace(key, oldValue, newValue): true, with the key mapped to
     * newValue, exactly when the map maps key to a value equal to oldValue
     * (null-aware); a null key is false.
     */
    method ReplaceValue(key: Option<K>, oldValue: Option<V>, newValue: Option<V>) returns (r: bool)
      requires Valid()
      modifies Cells
      ensures unchanged(readView, readView.buckets) && unchanged(writeView, writeView.buckets)
      ensures Valid() && Repr == old(Repr) && readView == old(readView) && writeView == old(writeView)
      ensures r <==> key.Some? && key.value in old(Contents()) && old(Contents())[key.value] == oldValue
      ensures Contents() == if r then old(Contents())[key.value := newValue] else old(Contents())
      ensures r ==> old(ItemOf(Rows(), hashOf, key.value)).Some?
                    && unchanged(old(Cells) - {old(ItemOf(Rows(), hashOf, key.value)).value})
      ensures !r ==> unchanged(Cells)
    {
      if key.None? {
        return false;
      }
      var k := key.value;
      var idx, oldRow, rowIdx := Locate(k);
      if oldRow.None? || rowIdx == |oldRow.value| {
        return false;
      }
      var oldItem := oldRow.value[rowIdx];
      if !SlotEquals(oldValue, oldItem.value) {
        return false;
      }
      SetSlot(oldItem, newValue);
      r := true;
    }

    /**
     * replace(key, value): a null key is refused; a key the map lacks gives
     * null and changes nothing; otherwise the key is mapped to value and its
     * old value returned.
     */
    method Replace(key: Option<K>, value: Option<V>) returns (r: Result<Option<V>>)
      requires Valid()
      modifies Cells
      ensures unchanged(readView, readView.buckets) && unchanged(writeView, writeView.buckets)
      ensures Valid() && Repr == old(Repr) && readView == old(readView) && writeView == old(writeView)
      ensures key.None? ==> r == Err(IllegalArgument) && Contents() == old(Contents())
      ensures key.Some? ==> && r == Ok(if key.value in old(Contents()) then old(Contents())[key.value] else None)
                            && Contents() == if key.value in old(Contents()) then old(Contents())[key.value := value]
                                             else old(Contents())
      ensures key.Some? && key.value in old(Contents()) ==>
                old(ItemOf(Rows(), hashOf, key.value)).Some?
                && unchanged(old(Cells) - {old(ItemOf(Rows(), hashOf, key.value)).value})
      ensures !(key.Some? && key.value in old(Contents())) ==> unchanged(Cells)
    {
      if key.None? {
        return Err(IllegalArgument);
      }
      var k := key.value;
      var idx, oldRow, rowIdx := Locate(k);
      if oldRow.None? || rowIdx == |oldRow.value| {
        return Ok(None);
      }
      var oldItem := oldRow.value[rowIdx];
      // the value getAndSet(value) returns, live
      var oldRowValue := oldItem.value;
      SetSlot(oldItem, value);
      r := Ok(oldRowValue.v);
    }
  }
}
