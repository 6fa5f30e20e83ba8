# ConcurrentHashMapDML1, single-threaded, in Dafny

This project models `ConcurrentHashMapDML1` run by one thread. It is a hash map whose table is an array of
buckets. Each bucket holds an immutable row of `Item`s, and every change replaces the row wholesale.
The map reaches its table through two views:

- lookups, `size()` and the iterators go through `readView`;
- every write goes through `writeView`.

An item that is removed first gets the tombstone value DOORNAIL and is then unlinked from its row.
When an insertion finds the size (before its increment) at the table's threshold, `resize` runs. It:

- freezes every old bucket (the row with a trailing null, or the one-slot EMPTY_MARKER);
- appends every old item to its bucket in a table of twice the capacity;
- installs that table as the write view.

The read view is not moved. The project also models the bit mixer of `SpreadingHasher.hashCode`, and
`DefaultHasher.hashCode` as its baseline.

With one thread, every compare-and-set succeeds on its first attempt and the write view is never
found null. The modules are:

- `Rows` (`rows.dfy`) covers:
  - the entry class `Item` and its `setValue`;
  - a row as a sequence of nullable item references;
  - `addItem`, `remove(row, idx)`, and the linear scan of `doGet`;
  - null-aware `equals`.
- `Buckets` (`buckets.dfy`) covers bucket placement `hash & (capacity - 1)`, the well-formedness of a table, and
  what a table finds for a key (`ItemOf`). It also holds the value-level account of resize's migration
  (`Distribute`, `Migrate`) and its proofs.
- `LiveTables` (`live.dfy`) covers:
  - the item slots (`Slots`) and the invariant of the write view (`LiveTable`);
  - the two views together (`ViewsOk`);
  - the map a table represents (`MapOf`);
  - lemmas that tie insertion, unlinking and resize to that map.
- `HashMaps` (`hashmap.dfy`) has the class `Table` and the imperative resize (`MigrateRow`, `MigrateBucket`,
  `FreezeAndMigrate`, `Grow`). It also has the class `ConcurrentHashMapDML1`, which holds the two views
  and every public operation. Each operation is specified against `Contents()`, the map the write view
  represents.
- `Iterators` (`iterators.dfy`) has the entry iterator and the value iterator, each with hasNext, next and remove.
- `Hashing` (`hashing.dfy`) covers `SpreadingHasher.hashCode` as six bit-vector steps, each with its inverse.
  The proofs show that spreading is injective, so the spreading hasher identifies exactly the keys the
  default hasher identifies.

These choices are modelling decisions:

- Keys are compared with `==`, which stands for `equals`.
- `hashCode` is the map's function `hashOf: K -> bv32`, which is the bit pattern of the Java `int`.
- Java's null value is `None`.
- A null key argument is `Option<K>.None`.
- A thrown exception is `Err` of `Result`.

Behaviour of the code that the model keeps:

- A resize fires when the size *before* the increment equals the threshold (`getAndIncrement`).
- `get` on a key with no item dereferences null. `EntrySet.contains` does the same. Both end in
  NullPointerException.
- An initial capacity of 0 is accepted and becomes 1. Only a negative capacity is refused.
- remove() on an iterator without a preceding next(), or a second remove(), throws
  NoSuchElementException. removeItem on an item that is no longer in the write view throws
  IllegalStateException.
- removeItem finds the item by identity, in the bucket that the item's own hash selects.
- The iterators never set `row` back to null. Once a row is loaded, they come back to it on every
  later round, so they do not enumerate each entry exactly once.
- `size()` reads the read view's count. After a resize, that is the count of the retired table.

## Model

| member | source | states |
|---|---|---|
| Rows.Item.SetValue | src/main/java/com/flurg/crap/experimental/hashmaps/ConcurrentHashMapDML1.java:839-848 | a DOORNAIL item throws IllegalStateException and keeps its value; a live item takes the new value and returns the old one |
| Rows.AddItem | src/main/java/com/flurg/crap/experimental/hashmaps/ConcurrentHashMapDML1.java:187-196 | the new row is one longer, its earlier items unchanged and in order, the new item last; a null row gives a one-item row |
| Rows.RemoveAt | src/main/java/com/flurg/crap/experimental/hashmaps/ConcurrentHashMapDML1.java:290-305 | the row without its idx-th item, the items before and after it in order; null exactly when the row had one item; the multiset loses exactly that item |
| Rows.RemoveAtUndoesAddItem | src/main/java/com/flurg/crap/experimental/hashmaps/ConcurrentHashMapDML1.java:187-196 | removing the item addItem appended gives back the original row (null included) |
| Rows.Search | src/main/java/com/flurg/crap/experimental/hashmaps/ConcurrentHashMapDML1.java:177-184 | the position of the first item with the key, every earlier item non-null with another key; the row length when there is none; a null slot met first throws |
| Rows.IndexOfKey | src/main/java/com/flurg/crap/experimental/hashmaps/ConcurrentHashMapDML1.java:410-417 | the key loop of the removals and replaces computes exactly Search |
| Rows.IndexOfItem | src/main/java/com/flurg/crap/experimental/hashmaps/ConcurrentHashMapDML1.java:473-480 | the first position holding exactly the item, the row length when the item does not occur |
| Rows.Find | src/main/java/com/flurg/crap/experimental/hashmaps/ConcurrentHashMapDML1.java:167-184 | the item found carries the key and comes from the bucket; a null-free bucket never throws and finds nothing exactly when no item carries the key |
| Rows.FindUnique | src/main/java/com/flurg/crap/experimental/hashmaps/ConcurrentHashMapDML1.java:177-184 | in a row of distinct keys the item found for a key is the one item carrying it |
| Rows.SearchConcat | src/main/java/com/flurg/crap/experimental/hashmaps/ConcurrentHashMapDML1.java:177-184 | scanning two rows joined scans the first, then the second with positions shifted |
| Rows.FindConcat | src/main/java/com/flurg/crap/experimental/hashmaps/ConcurrentHashMapDML1.java:177-184 | looking up in two null-free rows joined finds the first row's item if it has one, else the second's |
| Rows.FindAddItem | src/main/java/com/flurg/crap/experimental/hashmaps/ConcurrentHashMapDML1.java:187-196 | after addItem a key is found as before, and the new item is found for its key when nothing earlier carries it |
| Rows.FindAddOther | src/main/java/com/flurg/crap/experimental/hashmaps/ConcurrentHashMapDML1.java:187-196 | appending an item of another key leaves a key's lookup unchanged |
| Rows.FindAddBoth | src/main/java/com/flurg/crap/experimental/hashmaps/ConcurrentHashMapDML1.java:187-196 | appending one item to two rows that agree on a key keeps them agreeing |
| Rows.FindRemoveAt | src/main/java/com/flurg/crap/experimental/hashmaps/ConcurrentHashMapDML1.java:290-305 | after remove(row, idx) the removed item's key finds nothing, every other key finds what it found, and the row keeps distinct keys |
| Rows.RemoveAtKeepsRow | src/main/java/com/flurg/crap/experimental/hashmaps/ConcurrentHashMapDML1.java:290-305 | removing an item keeps a row null-free with distinct keys |
| Rows.FindFrozen | src/main/java/com/flurg/crap/experimental/hashmaps/ConcurrentHashMapDML1.java:270-275 | a frozen row finds the items it held, and a key it does not hold runs into the trailing null and throws |
| Rows.NullAwareEquals | src/main/java/com/flurg/crap/experimental/hashmaps/ConcurrentHashMapDML1.java:698-700 | true exactly when both values are null or both are present and equal |
| Rows.SlotEquals | src/main/java/com/flurg/crap/experimental/hashmaps/ConcurrentHashMapDML1.java:339-340 | a slot equals the expected value exactly when it is live with that value; DOORNAIL equals nothing |
| Buckets.BucketIndex | src/main/java/com/flurg/crap/experimental/hashmaps/ConcurrentHashMapDML1.java:209 | the bucket of a hash lies in [0, capacity) |
| Buckets.BucketIndexIsMask | src/main/java/com/flurg/crap/experimental/hashmaps/ConcurrentHashMapDML1.java:209 | for a power-of-two capacity the bucket is `hash & (capacity - 1)`, with `&` taken digit by digit on the hash's unsigned value |
| Buckets.MaskIsRemainder | src/main/java/com/flurg/crap/experimental/hashmaps/ConcurrentHashMapDML1.java:209 | masking with c - 1 is the remainder by c when c is a power of two |
| Buckets.FlattenOk | src/main/java/com/flurg/crap/experimental/hashmaps/ConcurrentHashMapDML1.java:209-221 | the items of a well-placed table are non-null, distinct in key, and carry their key's hash |
| Buckets.FindFlatten | src/main/java/com/flurg/crap/experimental/hashmaps/ConcurrentHashMapDML1.java:167-171 | looking a key up among all items of a well-placed table finds what its own bucket finds |
| Buckets.EmptyTableOk | src/main/java/com/flurg/crap/experimental/hashmaps/ConcurrentHashMapDML1.java:814-817 | a fresh table of a power-of-two capacity up to 2^30 is well formed and holds no item |
| Buckets.EmptyItemOf | src/main/java/com/flurg/crap/experimental/hashmaps/ConcurrentHashMapDML1.java:814-817 | no key has an item in a fresh table |
| Buckets.KeyCount | src/main/java/com/flurg/crap/experimental/hashmaps/ConcurrentHashMapDML1.java:612-614 | in a well-formed table the item count is the number of distinct keys |
| Buckets.DistributeKeepsItems | src/main/java/com/flurg/crap/experimental/hashmaps/ConcurrentHashMapDML1.java:276-280 | the migration loop loses and duplicates no item (equal multisets) |
| Buckets.DistributeOk | src/main/java/com/flurg/crap/experimental/hashmaps/ConcurrentHashMapDML1.java:276-280 | migrating items of distinct keys, each carrying its hash, gives a well-placed table |
| Buckets.FindDistribute | src/main/java/com/flurg/crap/experimental/hashmaps/ConcurrentHashMapDML1.java:276-280 | after migration a key is found in its new bucket exactly as among the items migrated |
| Buckets.InsertOk | src/main/java/com/flurg/crap/experimental/hashmaps/ConcurrentHashMapDML1.java:237-243 | appending an item of a new key to its bucket keeps the table well formed, adds one to the count, and changes only that key's lookup |
| Buckets.DeleteOk | src/main/java/com/flurg/crap/experimental/hashmaps/ConcurrentHashMapDML1.java:431-432 | unlinking an item keeps the table well formed, takes one from the count, and makes only its key find nothing |
| Buckets.FreezeIsFrozen | src/main/java/com/flurg/crap/experimental/hashmaps/ConcurrentHashMapDML1.java:274 | the frozen form of a bucket is its items followed by one trailing null |
| Buckets.FindInFrozen | src/main/java/com/flurg/crap/experimental/hashmaps/ConcurrentHashMapDML1.java:178-179 | a frozen bucket never answers "absent": it finds the key's item or throws at the trailing null |
| Buckets.MigrateKeepsMap | src/main/java/com/flurg/crap/experimental/hashmaps/ConcurrentHashMapDML1.java:269-283 | the migrated table is well formed, holds exactly the old items, and has the old count |
| Buckets.FindMigrate | src/main/java/com/flurg/crap/experimental/hashmaps/ConcurrentHashMapDML1.java:269-283 | every key is found in its new bucket exactly as in its old one |
| Buckets.ItemOfAbsent | src/main/java/com/flurg/crap/experimental/hashmaps/ConcurrentHashMapDML1.java:212-221 | a key has no item exactly when no item of its bucket carries it |
| Buckets.MigrateItemOf | src/main/java/com/flurg/crap/experimental/hashmaps/ConcurrentHashMapDML1.java:269-283 | the doubled table finds for every key the item the old table found |
| Buckets.PlacedItemOf | src/main/java/com/flurg/crap/experimental/hashmaps/ConcurrentHashMapDML1.java:209-221 | every item of a well-formed table sits in the bucket its hash selects and is the item its key finds |
| Buckets.InsertItemOf | src/main/java/com/flurg/crap/experimental/hashmaps/ConcurrentHashMapDML1.java:237-243 | inserting an item of an absent key keeps the table well formed, adds one to the count, makes the key find the new item and leaves every other key as it was |
| Buckets.DeleteItemOf | src/main/java/com/flurg/crap/experimental/hashmaps/ConcurrentHashMapDML1.java:423-432 | unlinking an item keeps the table well formed, takes one from the count, makes its key find nothing and leaves every other key as it was |
| Buckets.ItemOfPlaced | src/main/java/com/flurg/crap/experimental/hashmaps/ConcurrentHashMapDML1.java:459-484 | removeItem's test: an item is the one its key finds exactly when it sits in the bucket its own hash selects |
| LiveTables.MaxCapacityIsPowerOfTwo | src/main/java/com/flurg/crap/experimental/hashmaps/ConcurrentHashMapDML1.java:52 | MAXIMUM_CAPACITY, 1 << 30, is a power of two |
| LiveTables.DoublingStaysBelow | src/main/java/com/flurg/crap/experimental/hashmaps/ConcurrentHashMapDML1.java:104-108 | doubling a power of two below another stays at most that other |
| LiveTables.SetMapOf | src/main/java/com/flurg/crap/experimental/hashmaps/ConcurrentHashMapDML1.java:600-602 | a new live value in a key's item changes the map at that key only |
| LiveTables.InsertAllLive | src/main/java/com/flurg/crap/experimental/hashmaps/ConcurrentHashMapDML1.java:238-243 | appending an item with a live value keeps every item of the table live |
| LiveTables.InsertMapOf | src/main/java/com/flurg/crap/experimental/hashmaps/ConcurrentHashMapDML1.java:237-248 | inserting a new key's item keeps the table live and well formed, adds one to the count, and adds exactly that key and value to the map |
| LiveTables.AbsentItemOf | src/main/java/com/flurg/crap/experimental/hashmaps/ConcurrentHashMapDML1.java:212-222 | a key the map lacks has no item in the write view |
| LiveTables.InsertValueOf | src/main/java/com/flurg/crap/experimental/hashmaps/ConcurrentHashMapDML1.java:237-243 | with the new item found only for its key, that key gets the new value and every other key keeps its value |
| LiveTables.DeleteAllLive | src/main/java/com/flurg/crap/experimental/hashmaps/ConcurrentHashMapDML1.java:423-432 | marking an unlinked item DOORNAIL leaves every item still in the table live |
| LiveTables.DeleteMapOf | src/main/java/com/flurg/crap/experimental/hashmaps/ConcurrentHashMapDML1.java:423-452 | unlinking a key's item keeps the table live and well formed, takes one from the count, and removes exactly that key from the map |
| LiveTables.DeleteValueOf | src/main/java/com/flurg/crap/experimental/hashmaps/ConcurrentHashMapDML1.java:423-432 | with the key's item dead and unlinked, that key loses its value and every other key keeps its value |
| LiveTables.DeleteViewsOk | src/main/java/com/flurg/crap/experimental/hashmaps/ConcurrentHashMapDML1.java:430-449 | an unlink with the size decremented keeps both views valid |
| LiveTables.EmptyLiveTable | src/main/java/com/flurg/crap/experimental/hashmaps/ConcurrentHashMapDML1.java:813-817 | a fresh table with size 0 is a live table |
| LiveTables.EmptyMapOf | src/main/java/com/flurg/crap/experimental/hashmaps/ConcurrentHashMapDML1.java:113-115 | a fresh table represents the empty map |
| LiveTables.ResizedTable | src/main/java/com/flurg/crap/experimental/hashmaps/ConcurrentHashMapDML1.java:258-284 | the doubled table is well formed, twice as large, holds the old items with the old count, and finds every key's old item |
| LiveTables.ResizedLiveTable | src/main/java/com/flurg/crap/experimental/hashmaps/ConcurrentHashMapDML1.java:258-284 | the doubled table with the migrated count is again a live table |
| LiveTables.ResizedViewsOk | src/main/java/com/flurg/crap/experimental/hashmaps/ConcurrentHashMapDML1.java:258-287 | after resize the views are valid: the new table is the write view and a read view that was the old table is now retired |
| LiveTables.ResizedMapOf | src/main/java/com/flurg/crap/experimental/hashmaps/ConcurrentHashMapDML1.java:258-284 | the doubled table represents the same map as the old one |
| LiveTables.FrozenRetired | src/main/java/com/flurg/crap/experimental/hashmaps/ConcurrentHashMapDML1.java:269-275 | the old table after freezing has every bucket frozen |
| LiveTables.DoubledPowerOfTwo | src/main/java/com/flurg/crap/experimental/hashmaps/ConcurrentHashMapDML1.java:265 | twice a power of two is a power of two |
| HashMaps.Table.constructor | src/main/java/com/flurg/crap/experimental/hashmaps/ConcurrentHashMapDML1.java:814-817 | every bucket null, size 0, threshold Integer.MAX_VALUE at maximum capacity and the load-factor threshold otherwise |
| HashMaps.NormalizeCapacity | src/main/java/com/flurg/crap/experimental/hashmaps/ConcurrentHashMapDML1.java:94-108 | a negative capacity is refused; otherwise the least power of two not below the request capped at 2^30 (1 for 0) |
| HashMaps.MigrateRow | src/main/java/com/flurg/crap/experimental/hashmaps/ConcurrentHashMapDML1.java:276-280 | the new array is the migration of the items done so far followed by the row's items |
| HashMaps.MigrateBucket | src/main/java/com/flurg/crap/experimental/hashmaps/ConcurrentHashMapDML1.java:271-280 | the old bucket becomes its frozen form, no other old bucket changes, and its items are migrated after the earlier buckets' items |
| HashMaps.FreezeAndMigrate | src/main/java/com/flurg/crap/experimental/hashmaps/ConcurrentHashMapDML1.java:269-281 | every old bucket frozen, the new array the migration of all old items, and the count returned is the number of old items |
| HashMaps.Grow | src/main/java/com/flurg/crap/experimental/hashmaps/ConcurrentHashMapDML1.java:263-283 | a fresh table of twice the capacity holds the old items, the old buckets frozen, its size the old count; its threshold is the one its capacity gives (IntMax at maximum capacity) |
| HashMaps.ConcurrentHashMapDML1.constructor | src/main/java/com/flurg/crap/experimental/hashmaps/ConcurrentHashMapDML1.java:110-115 | both views on one fresh table of the given capacity; the map is empty |
| HashMaps.ConcurrentHashMapDML1.Create | src/main/java/com/flurg/crap/experimental/hashmaps/ConcurrentHashMapDML1.java:93-115 | a negative capacity is IllegalArgument; otherwise an empty map whose capacity is the least power of two not below the request, capped at 2^30, using the given hasher and threshold function |
| HashMaps.ConcurrentHashMapDML1.Get | src/main/java/com/flurg/crap/experimental/hashmaps/ConcurrentHashMapDML1.java:621-624 | the read view's item value, null for DOORNAIL; a null key, a missing key or a frozen bucket throws; on the live view, the map's value and a throw exactly for absent keys |
| HashMaps.ConcurrentHashMapDML1.DoGet | src/main/java/com/flurg/crap/experimental/hashmaps/ConcurrentHashMapDML1.java:167-175 | the lookup of key in the bucket its hash selects |
| HashMaps.ConcurrentHashMapDML1.ContainsKey | src/main/java/com/flurg/crap/experimental/hashmaps/ConcurrentHashMapDML1.java:616-619 | whether the read view's item is there and not DOORNAIL; on the live view, exactly membership in the map |
| HashMaps.ConcurrentHashMapDML1.ContainsEntry | src/main/java/com/flurg/crap/experimental/hashmaps/ConcurrentHashMapDML1.java:682-691 | a non-item is never contained; a key the read view lacks throws; otherwise both live and values null-aware equal; on the live view, whether the map maps the key to that value |
| HashMaps.ConcurrentHashMapDML1.Size | src/main/java/com/flurg/crap/experimental/hashmaps/ConcurrentHashMapDML1.java:612-614 | the read view's count, which on the live view is the number of keys in the map |
| HashMaps.ConcurrentHashMapDML1.Clear | src/main/java/com/flurg/crap/experimental/hashmaps/ConcurrentHashMapDML1.java:631-639 | both views on one fresh table of the initial capacity; the map is empty |
| HashMaps.ConcurrentHashMapDML1.Resize | src/main/java/com/flurg/crap/experimental/hashmaps/ConcurrentHashMapDML1.java:258-288 | when the write view has moved on, nothing changes; otherwise the old buckets frozen, the new write view the doubled table with the same size; the read view and the map unchanged |
| HashMaps.ConcurrentHashMapDML1.Locate | src/main/java/com/flurg/crap/experimental/hashmaps/ConcurrentHashMapDML1.java:207-221 | key's bucket in the write view and the position of its item, found exactly when the key is in the map, holding the map's value |
| HashMaps.ConcurrentHashMapDML1.Append | src/main/java/com/flurg/crap/experimental/hashmaps/ConcurrentHashMapDML1.java:237-246 | the key is added with its value, the size goes up by one, and the old size is returned; a retired read view keeps its buckets and size |
| HashMaps.ConcurrentHashMapDML1.Unlink | src/main/java/com/flurg/crap/experimental/hashmaps/ConcurrentHashMapDML1.java:423-449 | the item is DOORNAIL, its key is gone from the map, and the size goes down by one; a retired read view keeps its buckets and size; every other item keeps its value |
| HashMaps.ConcurrentHashMapDML1.SetSlot | src/main/java/com/flurg/crap/experimental/hashmaps/ConcurrentHashMapDML1.java:225-231 | the key of the item is mapped to the new value, nothing else changes |
| HashMaps.ConcurrentHashMapDML1.DoPut | src/main/java/com/flurg/crap/experimental/hashmaps/ConcurrentHashMapDML1.java:199-253 | a null key is IllegalArgument; the old value or NOT_PRESENT; put overwrites, putIfAbsent keeps a present value; a new key adds one to the size; the write view changes exactly when a new key found the size at the threshold; a retired read view keeps its buckets and size; no item other than the key's own changes its value, and none does for putIfAbsent or a new key |
| HashMaps.ConcurrentHashMapDML1.PutPresent | src/main/java/com/flurg/crap/experimental/hashmaps/ConcurrentHashMapDML1.java:222-233 | a present key returns its value and, unless ifAbsent, takes the new one; neither table changes; no other item changes, and with ifAbsent not even this one |
| HashMaps.ConcurrentHashMapDML1.PutAbsent | src/main/java/com/flurg/crap/experimental/hashmaps/ConcurrentHashMapDML1.java:237-251 | an absent key is added with its value, the size goes up by one, and a resize happens exactly when the old size was the threshold; a retired read view keeps its buckets and size; no existing item changes its value |
| HashMaps.ConcurrentHashMapDML1.Put | src/main/java/com/flurg/crap/experimental/hashmaps/ConcurrentHashMapDML1.java:626-629 | a null key is IllegalArgument; otherwise the previous value (null when absent) and the key mapped to the value; a retired read view keeps its buckets and size; no item other than the key's own changes its value |
| HashMaps.ConcurrentHashMapDML1.PutIfAbsent | src/main/java/com/flurg/crap/experimental/hashmaps/ConcurrentHashMapDML1.java:307-313 | a null key is IllegalArgument; otherwise the previous value (null when absent), and the key gets the value only when it was absent; a retired read view keeps its buckets and size; no existing item changes its value |
| HashMaps.ConcurrentHashMapDML1.Remove | src/main/java/com/flurg/crap/experimental/hashmaps/ConcurrentHashMapDML1.java:390-453 | the key's old value, or null for a null or missing key; the key is gone; the size goes down by one exactly when it was present; a retired read view keeps its buckets and size; the key's item is marked DOORNAIL and every other item keeps its value; for a null or missing key the write view, its buckets and every item stay as they were |
| HashMaps.ConcurrentHashMapDML1.RemoveValue | src/main/java/com/flurg/crap/experimental/hashmaps/ConcurrentHashMapDML1.java:315-388 | true exactly when the key maps to a null-aware equal value; then the key is gone and the size down by one, else nothing changes; a retired read view keeps its buckets and size; on success the key's item is marked DOORNAIL and every other item keeps its value; on failure the write view, its buckets and every item stay as they were |
| HashMaps.ConcurrentHashMapDML1.RemoveItem | src/main/java/com/flurg/crap/experimental/hashmaps/ConcurrentHashMapDML1.java:455-515 | succeeds exactly when the item is the one its key finds in the write view, then removes that key and takes one from the size; otherwise IllegalStateException with the write view, its buckets and the map unchanged; a retired read view keeps its buckets and size; on success the item is DOORNAIL and every other item keeps its value, on failure every item stays as it was |
| HashMaps.ConcurrentHashMapDML1.ReplaceValue | src/main/java/com/flurg/crap/experimental/hashmaps/ConcurrentHashMapDML1.java:517-567 | true exactly when the key maps to a null-aware equal value; then the key maps to the new value, else nothing changes; neither table changes, only the item value; on success only the key's item changes, on failure no item does |
| HashMaps.ConcurrentHashMapDML1.Replace | src/main/java/com/flurg/crap/experimental/hashmaps/ConcurrentHashMapDML1.java:569-610 | a null key is IllegalArgument; a missing key gives null and changes nothing; otherwise the old value, the key mapped to the new one; neither table changes, only the item value; for a present key only its item changes, otherwise no item does |
| Iterators.EntryIterator.constructor | src/main/java/com/flurg/crap/experimental/hashmaps/ConcurrentHashMapDML1.java:758-764 | the iterator walks the read view from bucket 0 with nothing pending |
| Iterators.EntryIterator.LoadRow | src/main/java/com/flurg/crap/experimental/hashmaps/ConcurrentHashMapDML1.java:769-775 | while no row is loaded, the next bucket is read; the row loaded is the first non-null bucket from tableIdx on; None exactly when the table ends first, every bucket read being null |
| Iterators.EntryIterator.VisitSlot | src/main/java/com/flurg/crap/experimental/hashmaps/ConcurrentHashMapDML1.java:776-783 | found exactly when the slot at the item index is in range and holds an item, which becomes pending with the index past it; otherwise the index restarts at 0 and tableIdx advances |
| Iterators.EntryIterator.HasNext | src/main/java/com/flurg/crap/experimental/hashmaps/ConcurrentHashMapDML1.java:766-786 | true with the pending item: the loaded row's slot at the item index when it holds an item, else the row's first slot, and the item index just past it; false exactly when no row is loaded and every remaining bucket is null (given one round); out of fuel only after one round, or when the row's first slot is null; a pending item or a loaded row is kept |
| Iterators.EntryIterator.Next | src/main/java/com/flurg/crap/experimental/hashmaps/ConcurrentHashMapDML1.java:788-796 | the pending item, which becomes the one remove acts on, chosen as in hasNext; NoSuchElementException exactly when hasNext is false |
| Iterators.EntryIterator.Remove | src/main/java/com/flurg/crap/experimental/hashmaps/ConcurrentHashMapDML1.java:798-806 | NoSuchElementException without a preceding next; otherwise removeItem on the item, the size going down by one exactly when it succeeds; on failure the write view is untouched; either way nothing is left for a second remove; on success the item is DOORNAIL and every other item keeps its value, on failure no item changes; the cursor (tableIdx, itemIdx, row, next) stays where it was |
| Iterators.ValueIterator.constructor | src/main/java/com/flurg/crap/experimental/hashmaps/ConcurrentHashMapDML1.java:702-709 | the iterator walks the read view from bucket 0 with nothing pending |
| Iterators.ValueIterator.LoadRow | src/main/java/com/flurg/crap/experimental/hashmaps/ConcurrentHashMapDML1.java:714-722 | while no row is loaded, the next bucket is read; the row loaded is the first non-null bucket from tableIdx on; None exactly when the table ends first, every bucket read being null |
| Iterators.ValueIterator.VisitSlot | src/main/java/com/flurg/crap/experimental/hashmaps/ConcurrentHashMapDML1.java:723-730 | an item in the slot at the item index becomes pending with its value read; found exactly when that value is not DOORNAIL, the index then past it; otherwise the index restarts at 0 and tableIdx advances |
| Iterators.ValueIterator.HasNext | src/main/java/com/flurg/crap/experimental/hashmaps/ConcurrentHashMapDML1.java:711-733 | as the entry iterator's, with the pending item's value kept; a DOORNAIL item is pending with the item index back at 0; false clears the pending value |
| Iterators.ValueIterator.Next | src/main/java/com/flurg/crap/experimental/hashmaps/ConcurrentHashMapDML1.java:735-744 | the value read by hasNext, its item (chosen as in hasNext) becoming the one remove acts on; NoSuchElementException exactly when hasNext is false |
| Iterators.ValueIterator.Remove | src/main/java/com/flurg/crap/experimental/hashmaps/ConcurrentHashMapDML1.java:746-754 | NoSuchElementException without a preceding next; otherwise removeItem on the item, the size going down by one exactly when it succeeds; on failure the write view is untouched; either way nothing is left for a second remove; on success the item is DOORNAIL and every other item keeps its value, on failure no item changes; the cursor (tableIdx, itemIdx, row, next, nextVal) stays where it was |
| Hashing.AddShifted15 | src/main/java/com/flurg/crap/experimental/hashmaps/Hasher.java:88 | the step `h += (h << 15) ^ 0xffffcd7d` is undone by its inverse |
| Hashing.UndoAddShifted15Inverts | src/main/java/com/flurg/crap/experimental/hashmaps/Hasher.java:88 | the inverse recovers h from the step's result |
| Hashing.XorShift10 | src/main/java/com/flurg/crap/experimental/hashmaps/Hasher.java:89 | the step `h ^= h >>> 10` is undone by its inverse |
| Hashing.UndoXorShift10Inverts | src/main/java/com/flurg/crap/experimental/hashmaps/Hasher.java:89 | the inverse recovers h from the step's result |
| Hashing.AddShifted3 | src/main/java/com/flurg/crap/experimental/hashmaps/Hasher.java:90 | the step `h += h << 3` is undone by multiplying with the inverse of 9 modulo 2^32 |
| Hashing.XorShift6 | src/main/java/com/flurg/crap/experimental/hashmaps/Hasher.java:91 | the step `h ^= h >>> 6` is undone by its inverse |
| Hashing.UndoXorShift6Inverts | src/main/java/com/flurg/crap/experimental/hashmaps/Hasher.java:91 | the inverse recovers h from the step's result |
| Hashing.AddShifted2And14 | src/main/java/com/flurg/crap/experimental/hashmaps/Hasher.java:92 | the step `h += (h << 2) + (h << 14)` is multiplication by 16389 modulo 2^32 |
| Hashing.UndoTimes16389 | src/main/java/com/flurg/crap/experimental/hashmaps/Hasher.java:92 | multiplying by the inverse of 16389 recovers h |
| Hashing.FinalMix | src/main/java/com/flurg/crap/experimental/hashmaps/Hasher.java:93 | `h ^ (h >>> 16)` is undone by itself |
| Hashing.UndoFinalMixInverts | src/main/java/com/flurg/crap/experimental/hashmaps/Hasher.java:93 | applying the final step twice gives h back |
| Hashing.FinalMixBits | src/main/java/com/flurg/crap/experimental/hashmaps/Hasher.java:93 | the final step keeps the top 16 bits and XORs them into the low 16 bits |
| Hashing.UnspreadSpread | src/main/java/com/flurg/crap/experimental/hashmaps/Hasher.java:86-93 | the original hash code is recovered from the spread hash |
| Hashing.SpreadInjective | src/main/java/com/flurg/crap/experimental/hashmaps/Hasher.java:86-93 | two hash codes spread to the same value exactly when they are equal |
| Hashing.SpreadingAgreesWithDefault | src/main/java/com/flurg/crap/experimental/hashmaps/Hasher.java:73-93 | DefaultHasher returns hashCode() unchanged and the spreading hasher depends only on it: two keys get equal spread hashes exactly when their default hashes are equal |

## Left out

- Concurrency is not modelled. With one thread, every compare-and-set succeeds first time, so the following are left out:
  - the compare-and-set retry loops;
  - `volatile` and `lazySet` visibility;
  - the wait and notifyAll handoff of `getWriteView`;
  - the `synchronized` block of `clear`;
  - the frozen-row redirect loops of the three removals (lines 368-381, 433-446 and 496-509). On a retry these loops
    recompute the row index as the key's bucket index (lines 379, 444 and 507), not the item's position in the row.
    That quirk is left unmodelled with them.
- The following branches cannot be reached with one thread, and the model shows that they cannot:
  - the `continue OUTER` retry in doPut on a DOORNAIL item;
  - the DOORNAIL answer of getAndSet in the removals and replace.
- Float arithmetic is left out:
  - The threshold `(int)(capacity * loadFactor)` is the parameter `thresholdOf`. At maximum capacity, Integer.MAX_VALUE is used, as in the code.
  - The load-factor validation of the constructor is left out.
  - The one-argument constructors are left out. They only pass defaults on.
- ValueSet, EntrySet.size, clear and add, and the AbstractMap adapters are thin glue and are not modelled.
  EntrySet.contains is modelled as ContainsEntry. `Item.getKey`, `getValue`, `hashCode` and `equals` are plain accessors.
- `Object.hashCode` and `equals` on keys are the map's `hashOf` and Dafny equality. Their bodies are not part of this model.
  Equaller.java, the identity, byte-array and char-array hashers, and the `readResolve` singletons are not part of this model.
- DoPut: the requires `writeView.size < IntMax` excludes a size counter that wraps past Integer.MAX_VALUE.
  - Put and PutIfAbsent carry the same requires.
  - Sizes are unbounded integers elsewhere. Iterator indices are unbounded integers as well.
- HashMaps.ConcurrentHashMapDML1.Resize: the requires that a resized table is below MAXIMUM_CAPACITY excludes the overflow of
  `origCapacity << 1`. Doubling MAXIMUM_CAPACITY would overflow, but a table at maximum capacity has threshold
  Integer.MAX_VALUE, which the size never reaches under the requires above.
- Iterators.EntryIterator.HasNext: the loop runs for at most `fuel` rounds and answers None when they run out.
  - It cannot terminate in general, because once a row is loaded `hasNext` keeps coming back to it.
  - Every answer given within the bound is the code's answer.
  - Exactly-once enumeration is not claimed, because the code does not provide it.
- Iterators.ValueIterator.HasNext: bounded by `fuel` in the same way.
- Iterators.EntryIterator.Next and Iterators.ValueIterator.Next: None means the fuel of hasNext ran out.
- HashMaps.ConcurrentHashMapDML1.Create: the bound on the capacity is stated as "at least the request and less than twice
  it". "Least power of two" is not stated with a separate minimality clause.
- The model does not claim that the read and write views stay in step after a resize. The read view keeps the retired table,
  and Get, ContainsKey, ContainsEntry and Size state their answer on it through `Find` on that table. Every write states
  that a retired read view keeps its buckets and size.
  The retired table shares its items with the write view, so a removal's DOORNAIL and a replaced value show through it.
  The writes state which items changed and that no others did. They do not restate the retired table's lookups as a map.
- The class invariant `Valid` only requires that a table at maximum capacity has threshold Integer.MAX_VALUE. Below that,
  the tie between the write view's threshold and `thresholdOf` of its capacity is stated where tables are made, by the
  Table constructor and Grow. The threshold is a constant of its table, so the tie holds for the table's lifetime.
- Buckets.BucketIndexIsMask: `&` is stated as BitAnd, digit by digit on the unsigned value of the hash's bit pattern.
  The model does not prove that BitAnd agrees with Dafny's `bv32` operator `&`. Relating bit-vector and integer values at
  32 bits is beyond what the solver can do here.
