/**
 * The bucket arrays of ConcurrentHashMapDML1's tables, as values: a table's
 * contents is a sequence of buckets, each a row or null. This module states
 * where an item belongs, what a well-formed table is, and what resize builds.
 */
module Buckets {
  import opened Rows

  /** MAXIMUM_CAPACITY, 1 << 30. */
  const MaxCapacity: nat := 0x4000_0000

  /** Integer.MAX_VALUE, the threshold of a table at maximum capacity. */
  const IntMax: int := 0x7fff_ffff

  predicate IsPowerOfTwo(n: nat)
  {
    n == 1 || (n >= 2 && n % 2 == 0 && IsPowerOfTwo(n / 2))
  }

  /**
   * Java's `&` on the unsigned values of two bit patterns, one binary digit
   * at a time: a digit of the result is 1 exactly when both operands' are.
   */
  function BitAnd(a: nat, b: nat): nat
    decreases a
  {
    if a == 0 || b == 0 then 0
    else 2 * BitAnd(a / 2, b / 2) + (if a % 2 == 1 && b % 2 == 1 then 1 else 0)
  }

  /**
   * The bucket of a hash, `hash & (capacity - 1)`. Capacities are powers of
   * two, and there that mask is the remainder of the hash's unsigned value
   * by the capacity (BucketIndexIsMask), which is what is computed here.
   */
  function BucketIndex(hash: bv32, capacity: nat): (i: nat)
    requires capacity >= 1
    ensures i < capacity
  {
    (hash as int) % capacity
  }

  /** For a power-of-two capacity the bucket is the mask `hash & (capacity - 1)`. */
  lemma BucketIndexIsMask(hash: bv32, capacity: nat)
    requires IsPowerOfTwo(capacity)
    ensures BucketIndex(hash, capacity) == BitAnd(hash as int, capacity - 1)
  {
    MaskIsRemainder(hash as int, capacity);
  }

  /** Masking with c - 1 keeps the remainder by c when c is a power of two. */
  lemma {:induction false} MaskIsRemainder(h: nat, c: nat)
    requires IsPowerOfTwo(c)
    ensures BitAnd(h, c - 1) == h % c
    decreases c
  {
    if c == 1 {
      assert BitAnd(h, 0) == 0 == h % 1;
    } else if h == 0 {
      assert BitAnd(0, c - 1) == 0 == 0 % c;
    } else {
      MaskIsRemainder(h / 2, c / 2);
      MaskDigit(h, c);
      HalvingRemainder(h, c);
    }
  }

  /** An even mask c - 1 keeps the low digit of h and masks its half with c / 2 - 1. */
  lemma MaskDigit(h: nat, c: nat)
    requires h > 0 && c >= 2 && c % 2 == 0
    ensures BitAnd(h, c - 1) == 2 * BitAnd(h / 2, c / 2 - 1) + h % 2
  {
    var m := c - 1;
    assert m / 2 == c / 2 - 1 && m % 2 == 1;
  }

  /** The remainder by an even c is twice the remainder of the half by c / 2, plus the low digit. */
  lemma HalvingRemainder(h: nat, c: nat)
    requires c >= 2 && c % 2 == 0
    ensures h % c == 2 * ((h / 2) % (c / 2)) + h % 2
  {
    var p := c / 2;
    var q, b := h / 2, h % 2;
    var t, rq := q / p, q % p;
    assert h == 2 * q + b;
    assert q == p * t + rq;
    assert h == c * t + (2 * rq + b);
    RemainderUnique(h, c, t, 2 * rq + b);
  }

  lemma RemainderUnique(h: int, d: int, q: int, r: int)
    requires d > 0 && h == d * q + r && 0 <= r < d
    ensures h % d == r
  {
    var q', r' := h / d, h % d;
    assert h == d * q' + r';
    MultipleBound(d, q' - q);
    assert d * (q' - q) == d * q' - d * q;
  }

  lemma MultipleBound(d: int, t: int)
    requires d > 0
    ensures t >= 1 ==> d * t >= d
    ensures t <= -1 ==> d * t <= -d
  {
    if t >= 1 {
      assert d * t == d * (t - 1) + d;
      assert d * (t - 1) >= 0;
    } else if t <= -1 {
      assert d * t == d * (t + 1) - d;
      assert d * (t + 1) <= 0;
    }
  }

  /** The buckets of rows[..] that hold the items of this map in bucket i of a table of the given capacity. */
  ghost predicate BucketOk<K, V>(slot: Option<Row<K, V>>, i: nat, capacity: nat, hashOf: K -> bv32)
    requires capacity >= 1
  {
    && (slot.Some? ==> |slot.value| > 0)
    && NoNulls(Items(slot))
    && DistinctKeys(Items(slot))
    && forall j :: 0 <= j < |Items(slot)| ==>
         Items(slot)[j].hash == hashOf(Items(slot)[j].key) && BucketIndex(Items(slot)[j].hash, capacity) == i
  }

  ghost predicate BucketsOk<K, V>(rows: seq<Option<Row<K, V>>>, capacity: nat, hashOf: K -> bv32)
    requires capacity >= 1
  {
    forall i {:trigger BucketOk(rows[i], i, capacity, hashOf)} :: 0 <= i < |rows| ==> BucketOk(rows[i], i, capacity, hashOf)
  }

  /**
   * The bucket invariant of a live table: a power-of-two capacity of at most
   * MAXIMUM_CAPACITY; every item in the bucket its hash selects, with the
   * hash of its key; no null slots, no empty rows, no duplicate keys in a bucket.
   */
  ghost predicate WellFormed<K, V>(rows: seq<Option<Row<K, V>>>, hashOf: K -> bv32)
  {
    && IsPowerOfTwo(|rows|) && |rows| <= MaxCapacity
    && BucketsOk(rows, |rows|, hashOf)
  }

  /** All items of the table, bucket after bucket. */
  function Flatten<K, V>(rows: seq<Option<Row<K, V>>>): Row<K, V>
  {
    if |rows| == 0 then [] else Flatten(rows[..|rows| - 1]) + Items(rows[|rows| - 1])
  }

  /** The number of items in the table. */
  function Count<K, V>(rows: seq<Option<Row<K, V>>>): nat
  {
    |Flatten(rows)|
  }

  lemma {:induction false} FlattenMember<K, V>(rows: seq<Option<Row<K, V>>>, x: Item?<K, V>)
    ensures x in Flatten(rows) <==> exists i :: 0 <= i < |rows| && x in Items(rows[i])
  {
    if |rows| > 0 {
      var n := |rows| - 1;
      FlattenMember(rows[..n], x);
      if x in Flatten(rows) && x !in Items(rows[n]) {
        var i :| 0 <= i < n && x in Items(rows[..n][i]);
        assert x in Items(rows[i]);
      }
      if exists i :: 0 <= i < |rows| && x in Items(rows[i]) {
        var i :| 0 <= i < |rows| && x in Items(rows[i]);
        if i < n {
          assert x in Items(rows[..n][i]);
        }
      }
    }
  }

  lemma {:induction false} FlattenConcat<K, V>(a: seq<Option<Row<K, V>>>, b: seq<Option<Row<K, V>>>)
    ensures Flatten(a + b) == Flatten(a) + Flatten(b)
  {
    if |b| == 0 {
      assert a + b == a;
    } else {
      var n := |b| - 1;
      assert (a + b)[..|a + b| - 1] == a + b[..n];
      FlattenConcat(a, b[..n]);
    }
  }

  lemma FlattenSingle<K, V>(slot: Option<Row<K, V>>)
    ensures Flatten([slot]) == Items(slot)
  {
    assert [slot][..0] == [];
  }

  /** The items of a table are those of the buckets before i, of bucket i, and of the buckets after it. */
  lemma FlattenSplit<K, V>(rows: seq<Option<Row<K, V>>>, i: nat)
    requires i < |rows|
    ensures Flatten(rows) == Flatten(rows[..i]) + Items(rows[i]) + Flatten(rows[i + 1..])
  {
    FlattenSnoc(rows, i);
    FlattenTake(rows, i + 1);
  }

  /** The items of a table: those of its first n buckets, then those of the rest. */
  lemma FlattenTake<K, V>(rows: seq<Option<Row<K, V>>>, n: nat)
    requires n <= |rows|
    ensures Flatten(rows) == Flatten(rows[..n]) + Flatten(rows[n..])
  {
    assert rows == rows[..n] + rows[n..];
    FlattenConcat(rows[..n], rows[n..]);
  }

  /** Replacing one bucket changes the table's items by that bucket's items only. */
  lemma FlattenUpdate<K, V>(rows: seq<Option<Row<K, V>>>, i: nat, slot: Option<Row<K, V>>)
    requires i < |rows|
    ensures multiset(Flatten(rows[i := slot])) + multiset(Items(rows[i])) == multiset(Flatten(rows)) + multiset(Items(slot))
    ensures Count(rows[i := slot]) + |Items(rows[i])| == Count(rows) + |Items(slot)|
  {
    var rows' := rows[i := slot];
    FlattenSplit(rows, i);
    FlattenSplit(rows', i);
    assert rows'[..i] == rows[..i] && rows'[i + 1..] == rows[i + 1..];
  }

  /**
   * The items of a table whose first buckets are well placed are distinct in
   * key, carry the hash of their key, and sit in a bucket before |rows|.
   */
  lemma {:induction false} FlattenOk<K, V>(rows: seq<Option<Row<K, V>>>, capacity: nat, hashOf: K -> bv32)
    requires capacity >= 1 && BucketsOk(rows, capacity, hashOf)
    ensures NoNulls(Flatten(rows)) && DistinctKeys(Flatten(rows))
    ensures forall x :: x in Flatten(rows) ==> x != null && x.hash == hashOf(x.key) && BucketIndex(x.hash, capacity) < |rows|
  {
    if |rows| > 0 {
      var n := |rows| - 1;
      assert BucketsOk(rows[..n], capacity, hashOf) by {
        forall i | 0 <= i < n ensures BucketOk(rows[..n][i], i, capacity, hashOf) {
          assert rows[..n][i] == rows[i];
        }
      }
      FlattenOk(rows[..n], capacity, hashOf);
      var a, b := Flatten(rows[..n]), Items(rows[n]);
      assert BucketOk(rows[n], n, capacity, hashOf);
      assert Flatten(rows) == a + b;
      forall x | x in b ensures x != null && x.hash == hashOf(x.key) && BucketIndex(x.hash, capacity) == n {
        var j :| 0 <= j < |b| && b[j] == x;
      }
      forall p, q | 0 <= p < q < |a + b| ensures (a + b)[p].key != (a + b)[q].key {
        if q >= |a| && p < |a| {
          assert (a + b)[p] in a && (a + b)[q] in b;
        }
      }
    }
  }

  /** Every item of a well-placed table sits in the bucket its hash selects. */
  lemma FlattenPlaced<K, V>(rows: seq<Option<Row<K, V>>>, capacity: nat, hashOf: K -> bv32, x: Item?<K, V>)
    requires capacity >= 1 && BucketsOk(rows, capacity, hashOf) && x in Flatten(rows)
    ensures x != null && x.hash == hashOf(x.key)
    ensures BucketIndex(x.hash, capacity) < |rows| && x in Items(rows[BucketIndex(x.hash, capacity)])
  {
    FlattenMember(rows, x);
    var i :| 0 <= i < |rows| && x in Items(rows[i]);
    assert BucketOk(rows[i], i, capacity, hashOf);
    var j :| 0 <= j < |Items(rows[i])| && Items(rows[i])[j] == x;
  }

  /** The buckets lo..hi of a well-placed table hold no item of a key whose bucket lies elsewhere. */
  lemma SliceAvoidsKey<K, V>(rows: seq<Option<Row<K, V>>>, capacity: nat, hashOf: K -> bv32, key: K, lo: nat, hi: nat)
    requires capacity >= 1 && BucketsOk(rows, capacity, hashOf) && lo <= hi <= |rows|
    requires !(lo <= BucketIndex(hashOf(key), capacity) < hi)
    ensures NoNulls(Flatten(rows[lo..hi]))
    ensures forall j :: 0 <= j < |Flatten(rows[lo..hi])| ==> Flatten(rows[lo..hi])[j].key != key
  {
    var f := Flatten(rows[lo..hi]);
    forall j | 0 <= j < |f| ensures f[j] != null && f[j].key != key {
      var x := f[j];
      FlattenMember(rows[lo..hi], x);
      var i :| 0 <= i < hi - lo && x in Items(rows[lo..hi][i]);
      assert rows[lo..hi][i] == rows[lo + i];
      assert BucketOk(rows[lo + i], lo + i, capacity, hashOf);
      var p :| 0 <= p < |Items(rows[lo + i])| && Items(rows[lo + i])[p] == x;
    }
  }

  /**
   * Looking a key up in all items of a well-placed table gives what looking
   * it up in the key's own bucket gives.
   */
  lemma FindFlatten<K, V>(rows: seq<Option<Row<K, V>>>, capacity: nat, hashOf: K -> bv32, key: K)
    requires capacity >= 1 && BucketsOk(rows, capacity, hashOf)
    ensures NoNulls(Flatten(rows))
    ensures Find(Some(Flatten(rows)), key) ==
      var i := BucketIndex(hashOf(key), capacity);
      if i < |rows| then Find(rows[i], key) else Ok(None)
  {
    var k := BucketIndex(hashOf(key), capacity);
    if k < |rows| {
      FindInBucket(rows, capacity, hashOf, key, k);
    } else {
      assert rows == rows[0..|rows|];
      SliceAvoidsKey(rows, capacity, hashOf, key, 0, |rows|);
    }
  }

  lemma FindInBucket<K, V>(rows: seq<Option<Row<K, V>>>, capacity: nat, hashOf: K -> bv32, key: K, k: nat)
    requires capacity >= 1 && BucketsOk(rows, capacity, hashOf)
    requires k == BucketIndex(hashOf(key), capacity) < |rows|
    ensures NoNulls(Flatten(rows))
    ensures Find(Some(Flatten(rows)), key) == Find(rows[k], key)
  {
    assert rows[..k] == rows[0..k];
    assert rows[k + 1..] == rows[k + 1..|rows|];
    FlattenSplit(rows, k);
    SliceAvoidsKey(rows, capacity, hashOf, key, 0, k);
    SliceAvoidsKey(rows, capacity, hashOf, key, k + 1, |rows|);
    assert BucketOk(rows[k], k, capacity, hashOf);
    var a, x, b := Flatten(rows[..k]), Items(rows[k]), Flatten(rows[k + 1..]);
    assert NoNulls(x);
    assert Find(Some(a), key) == Ok(None);
    assert Find(Some(b), key) == Ok(None);
    assert Find(Some(x), key) == Find(rows[k], key);
    FindConcat(a, x, key);
    FindConcat(a + x, b, key);
  }

  /** The bucket array of a new table: every bucket null. */
  function EmptyTable<K, V>(n: nat): (t: seq<Option<Row<K, V>>>)
    ensures |t| == n
  {
    if n == 0 then [] else EmptyTable(n - 1) + [None]
  }

  lemma {:induction false} EmptyTableIsEmpty<K, V>(n: nat, i: nat)
    requires i < n
    ensures EmptyTable<K, V>(n)[i] == None
  {
    if i < n - 1 {
      EmptyTableIsEmpty<K, V>(n - 1, i);
    }
  }

  lemma EmptyTableAllNone<K, V>(n: nat)
    ensures forall i :: 0 <= i < n ==> EmptyTable<K, V>(n)[i] == None
  {
    forall i | 0 <= i < n ensures EmptyTable<K, V>(n)[i] == None {
      EmptyTableIsEmpty<K, V>(n, i);
    }
  }

  /** No key has an item in a fresh table. */
  lemma EmptyItemOf<K, V>(n: nat, hashOf: K -> bv32)
    requires n >= 1
    ensures forall key :: ItemOf(EmptyTable<K, V>(n), hashOf, key) == None
  {
    forall key ensures ItemOf(EmptyTable<K, V>(n), hashOf, key) == None {
      EmptyTableIsEmpty<K, V>(n, BucketIndex(hashOf(key), n));
    }
  }

  /** A fresh table of a power-of-two capacity of at most 2^30 is well formed and empty. */
  lemma EmptyTableOk<K, V>(capacity: nat, hashOf: K -> bv32)
    requires IsPowerOfTwo(capacity) && 1 <= capacity <= MaxCapacity
    ensures WellFormed(EmptyTable<K, V>(capacity), hashOf)
    ensures Count(EmptyTable<K, V>(capacity)) == 0
  {
    var t := EmptyTable<K, V>(capacity);
    assert |t| == capacity;
    EmptyBucketsOk<K, V>(capacity, hashOf);
    FlattenEmptyTable<K, V>(capacity);
  }

  lemma EmptyBucketsOk<K, V>(capacity: nat, hashOf: K -> bv32)
    requires capacity >= 1
    ensures BucketsOk(EmptyTable<K, V>(capacity), capacity, hashOf)
  {
    forall i | 0 <= i < capacity ensures BucketOk(EmptyTable<K, V>(capacity)[i], i, capacity, hashOf) {
      EmptyTableIsEmpty<K, V>(capacity, i);
    }
  }

  /** The keys of the items of a row. */
  ghost function RowKeys<K, V>(s: Row<K, V>): set<K>
  {
    set x | x in s && x != null :: x.key
  }

  /** The keys a table holds. */
  ghost function KeysOf<K, V>(rows: seq<Option<Row<K, V>>>): set<K>
  {
    RowKeys(Flatten(rows))
  }

  /** In a well-formed table the count of items is the number of distinct keys. */
  lemma KeyCount<K, V>(rows: seq<Option<Row<K, V>>>, hashOf: K -> bv32)
    requires WellFormed(rows, hashOf)
    ensures Count(rows) == |KeysOf(rows)|
  {
    FlattenOk(rows, |rows|, hashOf);
    DistinctKeyCount(Flatten(rows));
  }

  lemma {:induction false} DistinctKeyCount<K, V>(s: Row<K, V>)
    requires NoNulls(s) && DistinctKeys(s)
    ensures |s| == |RowKeys(s)|
  {
    if |s| > 0 {
      LastKeyFresh(s);
      DistinctKeyCount(s[..|s| - 1]);
      RowKeysSnoc(s);
    }
  }

  /** Without its last item a row of distinct keys stays one, and lacks that item's key. */
  lemma LastKeyFresh<K, V>(s: Row<K, V>)
    requires |s| > 0 && NoNulls(s) && DistinctKeys(s)
    ensures NoNulls(s[..|s| - 1]) && DistinctKeys(s[..|s| - 1])
    ensures s[|s| - 1].key !in RowKeys(s[..|s| - 1])
  {
    var s' := s[..|s| - 1];
    forall y | y in s' && y != null ensures y.key != s[|s| - 1].key {
      var p :| 0 <= p < |s'| && s'[p] == y;
      assert s[p] == y;
    }
  }

  /** The keys of a row: those of all but its last item, and the last item's. */
  lemma RowKeysSnoc<K, V>(s: Row<K, V>)
    requires |s| > 0 && s[|s| - 1] != null
    ensures RowKeys(s) == RowKeys(s[..|s| - 1]) + {s[|s| - 1].key}
  {
    Snoc(s);
  }

  /**
   * What the migration loop of resize builds from the items s, taken in order:
   * each is appended (addItem) to bucket `hashCode & (capacity - 1)` of a
   * fresh table of the given capacity.
   */
  function Distribute<K, V>(s: Row<K, V>, capacity: nat, hashOf: K -> bv32): (d: seq<Option<Row<K, V>>>)
    requires capacity >= 1 && NoNulls(s)
    ensures |d| == capacity
  {
    if |s| == 0 then EmptyTable(capacity)
    else
      var d := Distribute(s[..|s| - 1], capacity, hashOf);
      var x := s[|s| - 1];
      var i := BucketIndex(hashOf(x.key), capacity);
      d[i := Some(AddItem(d[i], x))]
  }

  /** Resize's new table: every item of the old one, distributed over `capacity` buckets. */
  function Migrate<K, V>(rows: seq<Option<Row<K, V>>>, capacity: nat, hashOf: K -> bv32): seq<Option<Row<K, V>>>
    requires capacity >= 1 && NoNulls(Flatten(rows))
  {
    Distribute(Flatten(rows), capacity, hashOf)
  }

  /** A fresh table holds no item. */
  lemma {:induction false} FlattenEmptyTable<K, V>(n: nat)
    ensures Flatten(EmptyTable<K, V>(n)) == []
  {
    if n > 0 {
      assert EmptyTable<K, V>(n)[..n - 1] == EmptyTable<K, V>(n - 1);
      FlattenEmptyTable<K, V>(n - 1);
    }
  }

  lemma MultisetCancel<T>(a: multiset<T>, b: multiset<T>, c: multiset<T>)
    requires a + b == c + b
    ensures a == c
  {
    forall y ensures a[y] == c[y] {
      assert (a + b)[y] == (c + b)[y];
    }
  }

  lemma Snoc<T>(s: seq<T>)
    requires |s| > 0
    ensures s == s[..|s| - 1] + [s[|s| - 1]]
  {
  }

  lemma SnocMultiset<T>(s: seq<T>)
    requires |s| > 0
    ensures multiset(s) == multiset(s[..|s| - 1]) + multiset{s[|s| - 1]}
  {
    assert s == s[..|s| - 1] + [s[|s| - 1]];
  }

  /** Distributing loses and duplicates no item. */
  lemma {:induction false} DistributeKeepsItems<K, V>(s: Row<K, V>, capacity: nat, hashOf: K -> bv32)
    requires capacity >= 1 && NoNulls(s)
    ensures multiset(Flatten(Distribute(s, capacity, hashOf))) == multiset(s)
  {
    if |s| == 0 {
      FlattenEmptyTable<K, V>(capacity);
    } else {
      var s' := s[..|s| - 1];
      DistributeKeepsItems(s', capacity, hashOf);
      var d := Distribute(s', capacity, hashOf);
      var x := s[|s| - 1];
      var i := BucketIndex(hashOf(x.key), capacity);
      var row := AddItem(d[i], x);
      var d' := d[i := Some(row)];
      assert Distribute(s, capacity, hashOf) == d';
      FlattenUpdate(d, i, Some(row));
      SnocMultiset(row);
      SnocMultiset(s);
      MultisetCancel(multiset(Flatten(d')), multiset(Items(d[i])), multiset(s));
    }
  }

  /** Appending to a well-placed bucket an item of a new key that belongs there keeps it well placed. */
  lemma AddItemOk<K, V>(slot: Option<Row<K, V>>, x: Item<K, V>, i: nat, capacity: nat, hashOf: K -> bv32)
    requires capacity >= 1 && BucketOk(slot, i, capacity, hashOf)
    requires x.hash == hashOf(x.key) && BucketIndex(x.hash, capacity) == i
    requires forall j :: 0 <= j < |Items(slot)| ==> Items(slot)[j].key != x.key
    ensures BucketOk(Some(AddItem(slot, x)), i, capacity, hashOf)
  {
    var row := AddItem(slot, x);
    assert forall j :: 0 <= j < |Items(slot)| ==> row[j] == Items(slot)[j];
  }

  /** Replacing a bucket of a well-placed table by a well-placed row keeps the table well placed. */
  lemma BucketsOkUpdate<K, V>(rows: seq<Option<Row<K, V>>>, i: nat, slot: Option<Row<K, V>>, capacity: nat, hashOf: K -> bv32)
    requires capacity >= 1 && BucketsOk(rows, capacity, hashOf) && i < |rows| && BucketOk(slot, i, capacity, hashOf)
    ensures BucketsOk(rows[i := slot], capacity, hashOf)
  {
  }

  /**
   * Distributing items of distinct keys, each carrying the hash of its key,
   * gives a well-placed table.
   */
  lemma {:induction false} DistributeOk<K, V>(s: Row<K, V>, capacity: nat, hashOf: K -> bv32)
    requires capacity >= 1 && NoNulls(s) && DistinctKeys(s)
    requires forall j :: 0 <= j < |s| ==> s[j].hash == hashOf(s[j].key)
    ensures BucketsOk(Distribute(s, capacity, hashOf), capacity, hashOf)
  {
    if |s| == 0 {
      forall i | 0 <= i < capacity ensures BucketOk(EmptyTable<K, V>(capacity)[i], i, capacity, hashOf) {
        EmptyTableIsEmpty<K, V>(capacity, i);
      }
    } else {
      var s' := s[..|s| - 1];
      var x := s[|s| - 1];
      LastKeyFresh(s);
      DistributeOk(s', capacity, hashOf);
      Snoc(s);
      DistributeOkSnoc(s', x, capacity, hashOf);
    }
  }

  /** Distributing one more item, of a key not yet distributed and carrying its hash, keeps the table well placed. */
  lemma DistributeOkSnoc<K, V>(s: Row<K, V>, x: Item<K, V>, capacity: nat, hashOf: K -> bv32)
    requires capacity >= 1 && NoNulls(s) && BucketsOk(Distribute(s, capacity, hashOf), capacity, hashOf)
    requires x.hash == hashOf(x.key) && x.key !in RowKeys(s)
    ensures NoNulls(s + [x]) && BucketsOk(Distribute(s + [x], capacity, hashOf), capacity, hashOf)
  {
    DistributeSnoc(s, x, capacity, hashOf);
    var d := Distribute(s, capacity, hashOf);
    var i := BucketIndex(hashOf(x.key), capacity);
    assert BucketOk(d[i], i, capacity, hashOf);
    DistributedKeysFresh(s, x, capacity, hashOf, i);
    AddItemOk(d[i], x, i, capacity, hashOf);
    BucketsOkUpdate(d, i, Some(AddItem(d[i], x)), capacity, hashOf);
  }

  /** No bucket of a table distributed from items s holds a key that none of s carries. */
  lemma DistributedKeysFresh<K, V>(s: Row<K, V>, x: Item<K, V>, capacity: nat, hashOf: K -> bv32, i: nat)
    requires capacity >= 1 && NoNulls(s) && x.key !in RowKeys(s) && i < capacity
    ensures var slot := Distribute(s, capacity, hashOf)[i];
      forall j :: 0 <= j < |Items(slot)| ==> Items(slot)[j] != null && Items(slot)[j].key != x.key
  {
    DistributeKeepsItems(s, capacity, hashOf);
    var d := Distribute(s, capacity, hashOf);
    forall j | 0 <= j < |Items(d[i])| ensures Items(d[i])[j] != null && Items(d[i])[j].key != x.key {
      var y := Items(d[i])[j];
      FlattenMember(d, y);
      assert y in multiset(s);
      assert y in s;
    }
  }

  /**
   * After distributing, a key is found in its bucket of the new table exactly
   * as it is found among the items distributed.
   */
  lemma {:induction false} FindDistribute<K, V>(s: Row<K, V>, capacity: nat, hashOf: K -> bv32, key: K)
    requires capacity >= 1 && NoNulls(s)
    requires forall j :: 0 <= j < |s| ==> s[j].hash == hashOf(s[j].key)
    ensures NoNulls(Items(Distribute(s, capacity, hashOf)[BucketIndex(hashOf(key), capacity)]))
    ensures Find(Distribute(s, capacity, hashOf)[BucketIndex(hashOf(key), capacity)], key) == Find(Some(s), key)
  {
    var k := BucketIndex(hashOf(key), capacity);
    if |s| == 0 {
      EmptyTableIsEmpty<K, V>(capacity, k);
    } else {
      var s' := s[..|s| - 1];
      var x := s[|s| - 1];
      FindDistribute(s', capacity, hashOf, key);
      Snoc(s);
      FindDistributeSnoc(s', x, capacity, hashOf, key);
    }
  }

  /** Distributing one more item keeps the bucket of a key finding what the items distributed find. */
  lemma FindDistributeSnoc<K, V>(s: Row<K, V>, x: Item<K, V>, capacity: nat, hashOf: K -> bv32, key: K)
    requires capacity >= 1 && NoNulls(s) && NoNulls(s + [x])
    requires var slot := Distribute(s, capacity, hashOf)[BucketIndex(hashOf(key), capacity)];
      NoNulls(Items(slot)) && Find(slot, key) == Find(Some(s), key)
    ensures var slot := Distribute(s + [x], capacity, hashOf)[BucketIndex(hashOf(key), capacity)];
      NoNulls(Items(slot)) && Find(slot, key) == Find(Some(s + [x]), key)
  {
    if x.key == key || BucketIndex(hashOf(x.key), capacity) == BucketIndex(hashOf(key), capacity) {
      FindDistributeSame(s, x, capacity, hashOf, key);
    } else {
      FindDistributeOther(s, x, capacity, hashOf, key);
    }
  }

  /** The new item lands in the bucket of key: that bucket and the items distributed both gain it last. */
  lemma FindDistributeSame<K, V>(s: Row<K, V>, x: Item<K, V>, capacity: nat, hashOf: K -> bv32, key: K)
    requires capacity >= 1 && NoNulls(s) && NoNulls(s + [x])
    requires BucketIndex(hashOf(x.key), capacity) == BucketIndex(hashOf(key), capacity)
    requires var slot := Distribute(s, capacity, hashOf)[BucketIndex(hashOf(key), capacity)];
      NoNulls(Items(slot)) && Find(slot, key) == Find(Some(s), key)
    ensures var slot := Distribute(s + [x], capacity, hashOf)[BucketIndex(hashOf(key), capacity)];
      NoNulls(Items(slot)) && Find(slot, key) == Find(Some(s + [x]), key)
  {
    var d := Distribute(s, capacity, hashOf);
    var k := BucketIndex(hashOf(key), capacity);
    DistributeSnoc(s, x, capacity, hashOf);
    FindAddBoth(d[k], Some(s), x, key);
  }

  /** The new item, of another key, lands elsewhere: neither lookup of key changes. */
  lemma FindDistributeOther<K, V>(s: Row<K, V>, x: Item<K, V>, capacity: nat, hashOf: K -> bv32, key: K)
    requires capacity >= 1 && NoNulls(s) && NoNulls(s + [x]) && x.key != key
    requires BucketIndex(hashOf(x.key), capacity) != BucketIndex(hashOf(key), capacity)
    requires var slot := Distribute(s, capacity, hashOf)[BucketIndex(hashOf(key), capacity)];
      NoNulls(Items(slot)) && Find(slot, key) == Find(Some(s), key)
    ensures var slot := Distribute(s + [x], capacity, hashOf)[BucketIndex(hashOf(key), capacity)];
      NoNulls(Items(slot)) && Find(slot, key) == Find(Some(s + [x]), key)
  {
    DistributeSnoc(s, x, capacity, hashOf);
    FindAddOther(Some(s), x, key);
  }

  /** Distributing one more item appends it to the bucket its key selects. */
  lemma DistributeSnoc<K, V>(s: Row<K, V>, x: Item<K, V>, capacity: nat, hashOf: K -> bv32)
    requires capacity >= 1 && NoNulls(s)
    ensures NoNulls(s + [x])
    ensures var d := Distribute(s, capacity, hashOf);
            var i := BucketIndex(hashOf(x.key), capacity);
            Distribute(s + [x], capacity, hashOf) == d[i := Some(AddItem(d[i], x))]
  {
    assert (s + [x])[..|s|] == s;
  }

  /** The items of the first i + 1 buckets: those of the first i, then those of bucket i. */
  lemma FlattenSnoc<K, V>(rows: seq<Option<Row<K, V>>>, i: nat)
    requires i < |rows|
    ensures Flatten(rows[..i + 1]) == Flatten(rows[..i]) + Items(rows[i])
  {
    assert rows[..i + 1][..i] == rows[..i];
  }

  lemma PrefixOk<K, V>(rows: seq<Option<Row<K, V>>>, i: nat, capacity: nat, hashOf: K -> bv32)
    requires capacity >= 1 && BucketsOk(rows, capacity, hashOf) && i <= |rows|
    ensures BucketsOk(rows[..i], capacity, hashOf)
  {
    forall p | 0 <= p < i ensures BucketOk(rows[..i][p], p, capacity, hashOf) {
      assert rows[..i][p] == rows[p];
    }
  }

  /**
   * Inserting into its bucket an item whose key the table does not hold keeps
   * the table well formed, adds one to the count, and makes the key find the
   * new item while every other key finds what it found.
   */
  lemma InsertOk<K, V>(rows: seq<Option<Row<K, V>>>, x: Item<K, V>, hashOf: K -> bv32)
    requires WellFormed(rows, hashOf) && x.hash == hashOf(x.key)
    requires Find(rows[BucketIndex(x.hash, |rows|)], x.key) == Ok(None)
    ensures var i := BucketIndex(x.hash, |rows|);
            var rows' := rows[i := Some(AddItem(rows[i], x))];
            && WellFormed(rows', hashOf)
            && Count(rows') == Count(rows) + 1
            && forall k :: Find(rows'[i], k) == if k == x.key then Ok(Some(x)) else Find(rows[i], k)
  {
    var i := BucketIndex(x.hash, |rows|);
    var slot := Some(AddItem(rows[i], x));
    assert BucketOk(rows[i], i, |rows|, hashOf);
    AddItemOk(rows[i], x, i, |rows|, hashOf);
    BucketsOkUpdate(rows, i, slot, |rows|, hashOf);
    FlattenUpdate(rows, i, slot);
    forall k ensures Find(slot, k) == if k == x.key then Ok(Some(x)) else Find(rows[i], k) {
      FindAddItem(rows[i], x, k);
    }
  }

  /**
   * Unlinking the p-th item of bucket i keeps the table well formed, takes one
   * from the count, and makes that item's key find nothing while every other
   * key finds what it found.
   */
  lemma DeleteOk<K, V>(rows: seq<Option<Row<K, V>>>, i: nat, p: nat, hashOf: K -> bv32)
    requires WellFormed(rows, hashOf) && i < |rows| && p < |Items(rows[i])|
    ensures Items(rows[i])[p] != null
    ensures var rows' := rows[i := RemoveAt(Items(rows[i]), p)];
            && WellFormed(rows', hashOf)
            && Count(rows') == Count(rows) - 1
            && forall k :: Find(rows'[i], k) == if k == Items(rows[i])[p].key then Ok(None) else Find(rows[i], k)
  {
    var row := Items(rows[i]);
    var slot := RemoveAt(row, p);
    assert BucketOk(rows[i], i, |rows|, hashOf);
    FindRemoveAt(row, p, row[p].key);
    assert forall j :: 0 <= j < |Items(slot)| ==> Items(slot)[j] == row[if j < p then j else j + 1];
    assert BucketOk(slot, i, |rows|, hashOf);
    BucketsOkUpdate(rows, i, slot, |rows|, hashOf);
    FlattenUpdate(rows, i, slot);
    forall k ensures Find(slot, k) == if k == row[p].key then Ok(None) else Find(rows[i], k) {
      FindRemoveAt(row, p, k);
    }
  }

  /**
   * A frozen bucket: a row of items followed by one trailing null, the form
   * resize leaves in every bucket of the table it replaces.
   */
  ghost predicate Frozen<K, V>(slot: Option<Row<K, V>>)
  {
    slot.Some? && |slot.value| > 0 && slot.value[|slot.value| - 1] == null && NoNulls(slot.value[..|slot.value| - 1])
  }

  lemma FreezeIsFrozen<K, V>(slot: Option<Row<K, V>>)
    requires NoNulls(Items(slot))
    ensures Frozen(Freeze(slot))
  {
  }

  /**
   * Looking up a key in a frozen bucket never answers "absent": it finds the
   * key's item among the frozen items, or runs into the trailing null and
   * throws.
   */
  lemma FindInFrozen<K, V>(slot: Option<Row<K, V>>, key: K)
    requires Frozen(slot)
    ensures var items := slot.value[..|slot.value| - 1];
            Find(slot, key) == if Find(Some(items), key).value.Some? then Find(Some(items), key) else Err(NullPointer)
  {
    var items := slot.value[..|slot.value| - 1];
    assert slot.value == items + [null];
    assert Freeze(Some(items)) == slot;
    FindFrozen(Some(items), key);
  }

  /**
   * Resize's migration, stated for the whole table: the new table is well
   * formed and holds exactly the old items.
   */
  lemma MigrateKeepsMap<K, V>(rows: seq<Option<Row<K, V>>>, capacity: nat, hashOf: K -> bv32)
    requires WellFormed(rows, hashOf) && capacity >= 1 && IsPowerOfTwo(capacity) && capacity <= MaxCapacity
    ensures NoNulls(Flatten(rows))
    ensures WellFormed(Migrate(rows, capacity, hashOf), hashOf)
    ensures multiset(Flatten(Migrate(rows, capacity, hashOf))) == multiset(Flatten(rows))
    ensures Count(Migrate(rows, capacity, hashOf)) == Count(rows)
  {
    FlattenOk(rows, |rows|, hashOf);
    var s := Flatten(rows);
    DistributeOk(s, capacity, hashOf);
    DistributeKeepsItems(s, capacity, hashOf);
    var m := Migrate(rows, capacity, hashOf);
    assert |multiset(Flatten(m))| == |multiset(s)|;
  }

  /** After migration every key is found in its new bucket exactly as it was found in its old one. */
  lemma FindMigrate<K, V>(rows: seq<Option<Row<K, V>>>, capacity: nat, hashOf: K -> bv32, key: K)
    requires WellFormed(rows, hashOf) && capacity >= 1
    ensures NoNulls(Flatten(rows))
    ensures Find(Migrate(rows, capacity, hashOf)[BucketIndex(hashOf(key), capacity)], key)
         == Find(rows[BucketIndex(hashOf(key), |rows|)], key)
  {
    FlattenOk(rows, |rows|, hashOf);
    FindDistribute(Flatten(rows), capacity, hashOf, key);
    FindFlatten(rows, |rows|, hashOf, key);
  }

  /** The item a table holds for key: the one doGet finds in key's bucket, if any. */
  function ItemOf<K(==), V>(rows: seq<Option<Row<K, V>>>, hashOf: K -> bv32, key: K): (r: Option<Item<K, V>>)
    requires |rows| >= 1
    ensures r.Some? ==> r.value.key == key && r.value in Items(rows[BucketIndex(hashOf(key), |rows|)])
  {
    var found := Find(rows[BucketIndex(hashOf(key), |rows|)], key);
    if found.Ok? && found.value.Some? then Some(found.value.value) else None
  }

  /** In a well-formed table a key has no item exactly when no item of its bucket carries it. */
  lemma ItemOfAbsent<K, V>(rows: seq<Option<Row<K, V>>>, hashOf: K -> bv32, key: K)
    requires WellFormed(rows, hashOf)
    ensures var slot := rows[BucketIndex(hashOf(key), |rows|)];
            NoNulls(Items(slot)) &&
            (ItemOf(rows, hashOf, key).None? <==> forall j :: 0 <= j < |Items(slot)| ==> Items(slot)[j].key != key)
  {
    var b := BucketIndex(hashOf(key), |rows|);
    assert BucketOk(rows[b], b, |rows|, hashOf);
  }

  /** Resize keeps every key's item: the doubled table finds the same item the old one did. */
  lemma MigrateItemOf<K, V>(rows: seq<Option<Row<K, V>>>, capacity: nat, hashOf: K -> bv32)
    requires WellFormed(rows, hashOf) && capacity >= 1
    ensures NoNulls(Flatten(rows))
    ensures forall key :: ItemOf(Migrate(rows, capacity, hashOf), hashOf, key) == ItemOf(rows, hashOf, key)
  {
    FlattenOk(rows, |rows|, hashOf);
    forall key ensures ItemOf(Migrate(rows, capacity, hashOf), hashOf, key) == ItemOf(rows, hashOf, key) {
      FindMigrate(rows, capacity, hashOf, key);
    }
  }

  /** Every item of a well-formed table is the one its own key finds, in the bucket its hash selects. */
  lemma PlacedItemOf<K, V>(rows: seq<Option<Row<K, V>>>, hashOf: K -> bv32, i: nat, j: nat)
    requires WellFormed(rows, hashOf) && i < |rows| && j < |Items(rows[i])|
    ensures Items(rows[i])[j] != null
    ensures Items(rows[i])[j].hash == hashOf(Items(rows[i])[j].key) && i == BucketIndex(Items(rows[i])[j].hash, |rows|)
    ensures var r := ItemOf(rows, hashOf, Items(rows[i])[j].key); r.Some? && r.value == Items(rows[i])[j]
  {
    assert BucketOk(rows[i], i, |rows|, hashOf);
    FindUnique(rows[i], Items(rows[i])[j].key, j);
  }

  /**
   * put of a key the table lacks: appending the new item to its bucket keeps
   * the table well formed and adds one to the count; the key now finds the
   * new item and every other key finds what it found.
   */
  lemma InsertItemOf<K, V>(rows: seq<Option<Row<K, V>>>, x: Item<K, V>, hashOf: K -> bv32)
    requires WellFormed(rows, hashOf) && x.hash == hashOf(x.key) && ItemOf(rows, hashOf, x.key).None?
    ensures var i := BucketIndex(x.hash, |rows|);
            var rows' := rows[i := Some(AddItem(rows[i], x))];
            && WellFormed(rows', hashOf) && Count(rows') == Count(rows) + 1
            && forall key :: ItemOf(rows', hashOf, key) == if key == x.key then Some(x) else ItemOf(rows, hashOf, key)
  {
    ItemOfAbsent(rows, hashOf, x.key);
    InsertOk(rows, x, hashOf);
  }

  /**
   * remove of a key the table holds: unlinking its item keeps the table well
   * formed and takes one from the count; the key now finds nothing and every
   * other key finds what it found.
   */
  lemma DeleteItemOf<K, V>(rows: seq<Option<Row<K, V>>>, i: nat, p: nat, hashOf: K -> bv32)
    requires WellFormed(rows, hashOf) && i < |rows| && p < |Items(rows[i])|
    ensures Items(rows[i])[p] != null
    ensures var x := Items(rows[i])[p];
            var rows' := rows[i := RemoveAt(Items(rows[i]), p)];
            && WellFormed(rows', hashOf) && Count(rows') == Count(rows) - 1
            && forall key :: ItemOf(rows', hashOf, key) == if key == x.key then None else ItemOf(rows, hashOf, key)
  {
    var x := Items(rows[i])[p];
    var rows' := rows[i := RemoveAt(Items(rows[i]), p)];
    PlacedItemOf(rows, hashOf, i, p);
    DeleteOk(rows, i, p, hashOf);
    forall key ensures ItemOf(rows', hashOf, key) == if key == x.key then None else ItemOf(rows, hashOf, key) {
      var b := BucketIndex(hashOf(key), |rows|);
      if key == x.key {
        assert b == i && Find(rows'[i], key) == Ok(None);
      } else if b == i {
        assert Find(rows'[i], key) == Find(rows[i], key);
      } else {
        assert rows'[b] == rows[b];
      }
    }
  }

  /**
   * removeItem's test: an item is the one its key finds exactly when it sits
   * in the bucket its own hash selects.
   */
  lemma ItemOfPlaced<K, V>(rows: seq<Option<Row<K, V>>>, hashOf: K -> bv32, x: Item<K, V>)
    requires WellFormed(rows, hashOf)
    ensures ItemOf(rows, hashOf, x.key) == Some(x) <==> x in Items(rows[BucketIndex(x.hash, |rows|)])
  {
    var b := BucketIndex(x.hash, |rows|);
    if x in Items(rows[b]) {
      var j :| 0 <= j < |Items(rows[b])| && Items(rows[b])[j] == x;
      PlacedItemOf(rows, hashOf, b, j);
    }
    if ItemOf(rows, hashOf, x.key) == Some(x) {
      var c := BucketIndex(hashOf(x.key), |rows|);
      var j :| 0 <= j < |Items(rows[c])| && Items(rows[c])[j] == x;
      PlacedItemOf(rows, hashOf, c, j);
    }
  }
}
