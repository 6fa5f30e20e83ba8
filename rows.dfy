/**
 * The entries of ConcurrentHashMapDML1 and the rows that hold them.
 *
 * A bucket of a table holds a row: an immutable array of Item references that
 * is never changed in place but replaced wholesale by a new array (addItem,
 * remove(row, idx), or the frozen copy resize installs). A bucket may also be
 * null. Rows of the live table never contain null; a frozen row ends in one.
 */
module Rows {

  datatype Option<T> = None | Some(value: T)

  /** The exceptions the modelled code throws. */
  datatype Error = NullPointer | IllegalArgument | IllegalState | NoSuchElement

  datatype Result<T> = Ok(value: T) | Err(error: Error)

  /**
   * The value slot of an Item: a live value (Java's null value is None), or
   * DOORNAIL, the tombstone that whoever removes the item sets.
   */
  datatype Slot<V> = Live(v: Option<V>) | Doornail

  /** A key/value entry; only its value is ever updated. */
  class Item<K, V> {
    const key: K
    const hash: bv32
    var value: Slot<V>

    constructor (key: K, hash: bv32, value: Option<V>)
      ensures this.key == key && this.hash == hash && this.value == Live(value)
    {
      this.key := key;
      this.hash := hash;
      this.value := Live(value);
    }

    /**
     * Item.setValue: a removed item refuses a new value; a live one takes it
     * and hands back the value it had.
     */
    method SetValue(newValue: Option<V>) returns (r: Result<Option<V>>)
      modifies this
      ensures old(value).Doornail? ==> r == Err(IllegalState) && value == old(value)
      ensures old(value).Live? ==> r == Ok(old(value).v) && value == Live(newValue)
    {
      var oldValue := value;
      if oldValue.Doornail? {
        return Err(IllegalState);
      }
      // the compare-and-set from oldValue succeeds on its first attempt
      value := Live(newValue);
      r := Ok(oldValue.v);
    }
  }

  type Row<K, V> = seq<Item?<K, V>>

  /** The items a bucket holds; a null bucket holds none. */
  function Items<K, V>(slot: Option<Row<K, V>>): Row<K, V>
  {
    if slot.None? then [] else slot.value
  }

  ghost predicate NoNulls<K, V>(row: Row<K, V>)
  {
    forall j :: 0 <= j < |row| ==> row[j] != null
  }

  ghost predicate DistinctKeys<K, V>(row: Row<K, V>)
  {
    forall i, j :: 0 <= i < j < |row| && row[i] != null && row[j] != null ==> row[i].key != row[j].key
  }

  /**
   * addItem: a new row one longer than the old, its earlier items unchanged
   * and in order and newItem last; a null row yields a one-element row.
   */
  function AddItem<K, V>(row: Option<Row<K, V>>, newItem: Item?<K, V>): (r: Row<K, V>)
    ensures |r| == |Items(row)| + 1
    ensures r[..|Items(row)|] == Items(row) && r[|Items(row)|] == newItem
  {
    match row
    case None => [newItem]
    case Some(items) => items + [newItem]
  }

  /**
   * remove(row, idx): the row without its idx-th item, the rest in their
   * order; null when the row had exactly one item.
   */
  function RemoveAt<K, V>(row: Row<K, V>, idx: nat): (r: Option<Row<K, V>>)
    requires idx < |row|
    ensures r.None? <==> |row| == 1
    ensures |Items(r)| == |row| - 1
    ensures forall j :: 0 <= j < idx ==> Items(r)[j] == row[j]
    ensures forall j :: idx <= j < |row| - 1 ==> Items(r)[j] == row[j + 1]
    ensures multiset(Items(r)) == multiset(row) - multiset{row[idx]}
  {
    SplitAt(row, idx);
    if |row| == 1 then None else Some(row[..idx] + row[idx + 1..])
  }

  /** A row is what precedes position idx, the item there, and what follows it. */
  lemma SplitAt<T>(row: seq<T>, idx: nat)
    requires idx < |row|
    ensures multiset(row[..idx] + row[idx + 1..]) == multiset(row) - multiset{row[idx]}
  {
    assert row == row[..idx] + [row[idx]] + row[idx + 1..];
  }

  /** Removing the item addItem has just appended gives the old row back. */
  lemma RemoveAtUndoesAddItem<K, V>(row: Option<Row<K, V>>, newItem: Item?<K, V>)
    requires row != Some([])
    ensures RemoveAt(AddItem(row, newItem), |Items(row)|) == row
  {
    var r := AddItem(row, newItem);
    if row.Some? {
      assert r[..|Items(row)|] + r[|Items(row)| + 1..] == row.value;
    }
  }

  /** The one-slot row resize installs in place of a null bucket. */
  function EmptyMarker<K, V>(): Row<K, V>
  {
    [null]
  }

  /**
   * The frozen row resize installs in an old bucket: EMPTY_MARKER for a null
   * bucket, otherwise the row with a trailing null.
   */
  function Freeze<K, V>(row: Option<Row<K, V>>): Option<Row<K, V>>
  {
    if row.None? then Some(EmptyMarker()) else Some(AddItem(row, null))
  }

  /**
   * The scan of doGet(row, key) and of the key loops of put, remove and
   * replace: the position of the first item whose key equals key, |row| when
   * there is none; dereferencing a null slot met first throws.
   */
  function Search<K(==), V>(row: Row<K, V>, key: K): (r: Result<nat>)
    ensures r.Err? ==> r.error == NullPointer
    ensures r.Ok? ==> r.value <= |row|
    ensures r.Ok? ==> forall j :: 0 <= j < r.value ==> row[j] != null && row[j].key != key
    ensures r.Ok? && r.value < |row| ==> row[r.value] != null && row[r.value].key == key
    ensures r.Err? ==> exists j :: 0 <= j < |row| && row[j] == null && forall i :: 0 <= i < j ==> row[i] != null && row[i].key != key
  {
    if |row| == 0 then Ok(0)
    else if row[0] == null then Err(NullPointer)
    else if row[0].key == key then Ok(0)
    else
      match Search(row[1..], key)
      case Ok(i) => Ok(i + 1)
      case Err(e) =>
        assert exists j :: 0 <= j < |row| - 1 && row[1..][j] == null && forall i :: 0 <= i < j ==> row[1..][i] != null && row[1..][i].key != key;
        var j :| 0 <= j < |row| - 1 && row[1..][j] == null && forall i :: 0 <= i < j ==> row[1..][i] != null && row[1..][i].key != key;
        assert row[j + 1] == null && forall i :: 0 <= i < j + 1 ==> row[i] != null && row[i].key != key;
        Err(e)
  }

  /** The scan as the source writes it, a loop over the row. */
  method IndexOfKey<K(==), V>(row: Row<K, V>, key: K) returns (r: Result<nat>)
    ensures r == Search(row, key)
  {
    var i := 0;
    while i < |row|
      invariant 0 <= i <= |row|
      invariant forall j :: 0 <= j < i ==> row[j] != null && row[j].key != key
    {
      if row[i] == null {
        return Err(NullPointer);
      }
      if row[i].key == key {
        return Ok(i);
      }
      i := i + 1;
    }
    r := Ok(|row|);
  }

  /**
   * The identity scan of removeItem: the position of the first slot holding
   * exactly item, |row| when there is none.
   */
  method IndexOfItem<K, V>(row: Row<K, V>, item: Item<K, V>) returns (r: nat)
    ensures r <= |row| && item !in row[..r]
    ensures r < |row| ==> row[r] == item
  {
    r := 0;
    while r < |row| && row[r] != item
      invariant r <= |row| && item !in row[..r]
    {
      assert row[..r + 1] == row[..r] + [row[r]];
      r := r + 1;
    }
  }

  /**
   * doGet on a bucket: the first item of the bucket whose key equals key, or
   * none; a null bucket holds none.
   */
  function Find<K(==), V>(slot: Option<Row<K, V>>, key: K): (r: Result<Option<Item<K, V>>>)
    ensures r.Ok? && r.value.Some? ==> r.value.value in Items(slot) && r.value.value.key == key
    ensures NoNulls(Items(slot)) ==> r.Ok?
    ensures NoNulls(Items(slot)) ==> (r.value.None? <==> forall j :: 0 <= j < |Items(slot)| ==> Items(slot)[j].key != key)
  {
    var row := Items(slot);
    match Search(row, key)
    case Err(e) => Err(e)
    case Ok(i) => if i < |row| then Ok(Some(row[i])) else Ok(None)
  }

  /** In a row whose keys are distinct, the item found for key is the only one. */
  lemma FindUnique<K, V>(slot: Option<Row<K, V>>, key: K, j: nat)
    requires NoNulls(Items(slot)) && DistinctKeys(Items(slot))
    requires j < |Items(slot)| && Items(slot)[j].key == key
    ensures Find(slot, key) == Ok(Some(Items(slot)[j]))
  {
    var row := Items(slot);
    var i := Search(row, key).value;
    assert i <= j;
  }

  /** Scanning a concatenation scans the first part, then the second. */
  lemma {:induction false} SearchConcat<K, V>(a: Row<K, V>, b: Row<K, V>, key: K)
    requires NoNulls(a)
    ensures Search(a + b, key) ==
      if Search(a, key).value < |a| then Search(a, key)
      else match Search(b, key)
        case Ok(i) => Ok(i + |a|)
        case Err(e) => Err(e)
  {
    if |a| > 0 && a[0].key != key {
      assert (a + b)[1..] == a[1..] + b;
      SearchConcat(a[1..], b, key);
    } else if |a| == 0 {
      assert a + b == b;
    }
  }

  /** Looking a key up in two null-free rows joined: the first row's item if it has one, else the second's. */
  lemma FindConcat<K, V>(a: Row<K, V>, b: Row<K, V>, key: K)
    requires NoNulls(a) && NoNulls(b)
    ensures NoNulls(a + b)
    ensures Find(Some(a + b), key) == if Find(Some(a), key).value.Some? then Find(Some(a), key) else Find(Some(b), key)
  {
    SearchConcat(a, b, key);
    forall j | 0 <= j < |a + b| ensures (a + b)[j] != null {
      if j >= |a| {
        assert (a + b)[j] == b[j - |a|];
      }
    }
    if Search(a, key).value == |a| {
      var i := Search(b, key).value;
      if i < |b| {
        assert (a + b)[i + |a|] == b[i];
      }
    }
  }

  /**
   * Looking a key up after addItem: the earlier items are found as before,
   * and the new item is found when it carries the key and nothing earlier does.
   */
  lemma FindAddItem<K, V>(slot: Option<Row<K, V>>, newItem: Item<K, V>, key: K)
    requires NoNulls(Items(slot))
    ensures Find(Some(AddItem(slot, newItem)), key) ==
      if Find(slot, key).value.Some? then Find(slot, key)
      else if newItem.key == key then Ok(Some(newItem))
      else Ok(None)
  {
    SearchConcat(Items(slot), [newItem], key);
    assert AddItem(slot, newItem) == Items(slot) + [newItem];
  }

  /** addItem of an item of another key leaves the lookup of key as it was. */
  lemma FindAddOther<K, V>(slot: Option<Row<K, V>>, newItem: Item<K, V>, key: K)
    requires NoNulls(Items(slot)) && newItem.key != key
    ensures Find(Some(AddItem(slot, newItem)), key) == Find(slot, key)
  {
    FindAddItem(slot, newItem, key);
  }

  /** addItem of the same item to two rows that look key up alike keeps them alike. */
  lemma FindAddBoth<K, V>(a: Option<Row<K, V>>, b: Option<Row<K, V>>, newItem: Item<K, V>, key: K)
    requires NoNulls(Items(a)) && NoNulls(Items(b)) && Find(a, key) == Find(b, key)
    ensures Find(Some(AddItem(a, newItem)), key) == Find(Some(AddItem(b, newItem)), key)
  {
    FindAddItem(a, newItem, key);
    FindAddItem(b, newItem, key);
  }

  /**
   * Looking a key up after remove(row, idx) in a row of distinct keys: the
   * removed item's key is gone and every other key is found as before.
   */
  lemma FindRemoveAt<K, V>(row: Row<K, V>, idx: nat, key: K)
    requires idx < |row| && NoNulls(row) && DistinctKeys(row)
    ensures NoNulls(Items(RemoveAt(row, idx))) && DistinctKeys(Items(RemoveAt(row, idx)))
    ensures Find(RemoveAt(row, idx), key) ==
      if row[idx].key == key then Ok(None) else Find(Some(row), key)
  {
    var r := RemoveAt(row, idx);
    var rest := Items(r);
    RemoveAtKeepsRow(row, idx);
    if row[idx].key == key {
      assert forall j :: 0 <= j < |rest| ==> rest[j].key != key by {
        forall j | 0 <= j < |rest| ensures rest[j].key != key {
          assert rest[j] == row[if j < idx then j else j + 1];
        }
      }
    } else if j :| 0 <= j < |row| && row[j].key == key {
      FindUnique(Some(row), key, j);
      FindUnique(r, key, if j < idx then j else j - 1);
    } else {
      assert forall j :: 0 <= j < |rest| ==> rest[j].key != key by {
        forall j | 0 <= j < |rest| ensures rest[j].key != key {
          assert rest[j] == row[if j < idx then j else j + 1];
        }
      }
    }
  }

  /** Removing an item from a null-free row of distinct keys leaves such a row. */
  lemma RemoveAtKeepsRow<K, V>(row: Row<K, V>, idx: nat)
    requires idx < |row| && NoNulls(row) && DistinctKeys(row)
    ensures NoNulls(Items(RemoveAt(row, idx))) && DistinctKeys(Items(RemoveAt(row, idx)))
  {
    var rest := Items(RemoveAt(row, idx));
    forall a, b | 0 <= a < b < |rest| ensures rest[a] != null && rest[b] != null && rest[a].key != rest[b].key {
      assert rest[a] == row[if a < idx then a else a + 1];
      assert rest[b] == row[if b < idx then b else b + 1];
    }
    assert forall j :: 0 <= j < |rest| ==> rest[j] == row[if j < idx then j else j + 1];
  }

  /**
   * A frozen row still yields the items it held, but a key it does not hold
   * runs into the trailing null and throws.
   */
  lemma FindFrozen<K, V>(slot: Option<Row<K, V>>, key: K)
    requires NoNulls(Items(slot))
    ensures Find(Freeze(slot), key) ==
      if Find(slot, key).value.Some? then Find(slot, key) else Err(NullPointer)
  {
    SearchConcat(Items(slot), [null], key);
    assert Freeze(slot).value == Items(slot) + [null];
  }

  /** ConcurrentHashMapDML1.equals: null-aware equality of two values. */
  function NullAwareEquals<V(==)>(left: Option<V>, right: Option<V>): (r: bool)
    ensures r <==> left == right
  {
    if left.None? then right.None? else right.Some? && left.value == right.value
  }

  /**
   * Whether an item's current slot holds the expected value; DOORNAIL equals
   * no value, null included.
   */
  function SlotEquals<V(==)>(expected: Option<V>, slot: Slot<V>): (r: bool)
    ensures r <==> slot == Live(expected)
  {
    match slot
    case Doornail => false
    case Live(v) => NullAwareEquals(expected, v)
  }
}
