# Paging index and Oak long keys, modelled in Dafny

This project models two parts of the hsqldbbench repository and proves properties of them.

**The bitmap-backed paging index** (`PagingIndex.java`). It is a TreeMap from a column value to a Roaring bitmap of the ids of the rows holding that value.
- It is built by folding every partition's `(id, value)` rows into a HashMap of bitmaps. The partition maps are then or-ed into one TreeMap.
- It is queried with `lookup(limit, offset)`. That method walks the buckets in key order. It skips whole buckets that end before `offset`, using their cardinality. It then pulls ids by positional `select` into an insertion-ordered set.

**The 64-bit key codec and order used for the Oak map** (`OakLongSerializer.java`, `OakLongComparator.java`).
- A long key is stored as the eight bytes `ByteBuffer.putLong` writes at the buffer's position, and read back with `getLong`.
- Keys, and serialized keys, are compared by the natural order of longs.

Modules, one concern each:
- `Bitmaps` (bitmaps.dfy): a bitmap is the ascending, duplicate-free listing of its ids.
  - It provides cardinality, select, add and or.
  - The listing is canonical, so or is commutative, associative and idempotent as value equality.
- `TreeMaps` (tree_maps.dfy): the TreeMap is the key-ascending sequence of its entries.
  - `AsMap` is its map view.
  - `Upsert` is `computeIfAbsent(key, ..).or(b)`.
- `IndexBuild` (index_build.dfy): the per-partition fold, the merge loop, and `constructIndex` without its thread pool.
- `LookupWalk` (lookup_walk.dfy) holds the functions that describe `lookup`:
  - `WalkFrom` and `Scan` follow its two loops step by step.
  - `AsWritten` states in closed form what they return.
  - `Reference` is the intended page: the ids listed bucket by bucket in key order, `offset` of them dropped and `limit` taken.
  - The lemmas relate the three.
- `Paging` (paging_index.dfy): the `PagingIndex` class.
  - It has `size`, `keys`, `get` and `build`.
  - `Lookup` is `lookup` exactly as written, proved equal to `AsWritten`.
  - `LookupIntended` is the corrected lookup. It is proved equal to `IntendedFrom`, the corrected loops, and those are proved equal to `Reference` when no id occurs twice.
- `LongCodec`, `ByteBuffers`, `OakLongSerializer`, `OakLongComparator`: the eight-byte two's-complement encoding, a heap byte buffer with absolute `getLong`/`putLong`, the serializer and the comparator.

`lookup(limit, offset)` asks, through its two parameters, for one page of the key-ordered listing of all ids: `offset` ids skipped and at most `limit` taken. The loops of the code do not always return that page; the cases are listed under Findings.
- `Lookup` models the code as written.
- `LookupIntended` corrects the two loops so that they return that page.

Every source path below is relative to the repository root.

## Model

| member | source | states |
|---|---|---|
| Bitmaps.Bitmap.Cardinality | src/main/java/com/mode/PagingIndex.java:46 | getLongCardinality is the number of distinct ids in the bitmap |
| Bitmaps.Bitmap.Select | src/main/java/com/mode/PagingIndex.java:62 | select(i), for 0 <= i < cardinality, is a member with exactly i members below it (the i-th smallest) |
| Bitmaps.Bitmap.Add | src/main/java/com/mode/PagingIndex.java:99-100 | add(x) gives a well-formed bitmap holding the old ids and x |
| Bitmaps.Bitmap.Or | src/main/java/com/mode/PagingIndex.java:123-124 | or gives a well-formed bitmap holding exactly the union of both |
| Bitmaps.Empty | src/main/java/com/mode/PagingIndex.java:99-100 | new Roaring64NavigableMap() is a well-formed bitmap holding no id |
| Bitmaps.Canonical | src/main/java/com/mode/PagingIndex.java:17 | two bitmaps with the same ids are the same value |
| Bitmaps.OrCommutative | src/main/java/com/mode/PagingIndex.java:123-124 | a.or(b) equals b.or(a) |
| Bitmaps.OrAssociative | src/main/java/com/mode/PagingIndex.java:123-124 | (a or b) or c equals a or (b or c) |
| Bitmaps.OrIdempotent | src/main/java/com/mode/PagingIndex.java:123-124 | a or a equals a |
| Bitmaps.EmptyOr | src/main/java/com/mode/PagingIndex.java:123-124 | or-ing into a freshly created bitmap copies the argument |
| TreeMaps.SizeIsKeyCount | src/main/java/com/mode/PagingIndex.java:23-25 | the number of entries equals the number of distinct keys of the map |
| TreeMaps.Find | src/main/java/com/mode/PagingIndex.java:31-33 | get finds a bitmap exactly when the key is mapped, and it is the mapped bitmap |
| TreeMaps.KeyList | src/main/java/com/mode/PagingIndex.java:27-29 | the key set lists exactly the mapped keys, strictly ascending |
| TreeMaps.Upsert | src/main/java/com/mode/PagingIndex.java:123-124 | computeIfAbsent(key, new).or(b) keeps a TreeMap and maps key to the old bucket (empty if absent) or-ed with b, every other key unchanged |
| TreeMaps.FirstIsLeast | src/main/java/com/mode/PagingIndex.java:39 | iteration starts at the least key |
| TreeMaps.Canonical | src/main/java/com/mode/PagingIndex.java:17 | two TreeMaps with the same map view are the same entry sequence |
| IndexBuild.FoldPartition | src/main/java/com/mode/PagingIndex.java:93-101 | after the fold each key occurring in the rows maps to exactly the ids of the rows with that value, and no other key is present |
| IndexBuild.MergePart | src/main/java/com/mode/PagingIndex.java:122-125 | or-ing one partition map's entries, in any iteration order of its keys, adds that map's keys and ids to the TreeMap |
| IndexBuild.MergePartitions | src/main/java/com/mode/PagingIndex.java:120-126 | the merged TreeMap's keys are the union of all partition keys, and each bucket is the union of every partition's bucket for that key |
| IndexBuild.MergeOrderIndependent | src/main/java/com/mode/PagingIndex.java:120-126 | any two merges of the same partition maps, in any order, give identical TreeMaps |
| IndexBuild.MergeOfFolds | src/main/java/com/mode/PagingIndex.java:93-126 | merging the folds gathers, per value, the ids of all partitions' rows holding it |
| IndexBuild.ConstructIndex | src/main/java/com/mode/PagingIndex.java:75-129 | the built index is a TreeMap whose keys are the values of all rows and whose buckets are exactly the ids of the rows holding each value |
| LookupWalk.AddIfAbsent | src/main/java/com/mode/PagingIndex.java:62 | LinkedHashSet.add leaves the ids already there in their places and either changes nothing or appends x last |
| LookupWalk.AddIfAbsentIsSetAdd | src/main/java/com/mode/PagingIndex.java:62 | as a set the page gains exactly x, and it is left unchanged exactly when x was already on it |
| LookupWalk.Scan | src/main/java/com/mode/PagingIndex.java:56-63 | the inner loop never shrinks the page and does not take it past limit ids (a page already at limit is left as it is), and select fails only at a position outside the bucket |
| LookupWalk.WalkFrom | src/main/java/com/mode/PagingIndex.java:39-65 | the outer loop, from any bucket, never shrinks the page and does not take it past limit ids |
| LookupWalk.Resume | src/main/java/com/mode/PagingIndex.java:56-65 | a select failure in a bucket's inner loop ends lookup with that failure; otherwise the outer loop goes on from the next bucket, keeping the page within limit |
| LookupWalk.ScanRun | src/main/java/com/mode/PagingIndex.java:56-63 | when the bucket's ids from seek on are pairwise distinct, the inner loop from position p appends the ids at p, p+1, ... in order up to the point where limit ids are on the page or the bound cardinality - seek is reached, and seen grows by one per id |
| LookupWalk.BucketScan | src/main/java/com/mode/PagingIndex.java:52-63 | a well-formed bucket entered at seek >= 0 gives the Taken(cardinality, seek, limit) ids from position seek on, in ascending order, and seen grows by that many |
| LookupWalk.SkipTo | src/main/java/com/mode/PagingIndex.java:48-56 | buckets ending strictly before offset append nothing and advance seen by their cardinality, so the walk reaches the entry bucket (the first one ending at or after offset) with seen at its start and an empty page |
| LookupWalk.EnterScan | src/main/java/com/mode/PagingIndex.java:52-63 | a well-formed entry bucket is read from seek = offset - seen, between 0 and its cardinality (equal to it when the bucket ends exactly at offset, so no id is taken); the inner loop appends the Taken ids from seek on and the walk goes on at the next bucket with seen = offset plus their number |
| LookupWalk.AfterTaking | src/main/java/com/mode/PagingIndex.java:52-62 | once ids have been appended and limit is not met, the next bucket gets seek = -(ids appended) and select fails there |
| LookupWalk.FromOffset | src/main/java/com/mode/PagingIndex.java:48-63 | with seen equal to offset and nothing appended, empty buckets are passed and the next non-empty one is read from position 0 |
| LookupWalk.EnterBucket | src/main/java/com/mode/PagingIndex.java:48-63 | from the entry bucket on, the walk ends as the closed form says |
| LookupWalk.LookupAsWritten | src/main/java/com/mode/PagingIndex.java:35-68 | the loops of lookup compute exactly the closed form AsWritten |
| LookupWalk.NegativeOffset | src/main/java/com/mode/PagingIndex.java:52-62 | a negative offset gives the first bucket seek = offset, and its select fails at that position |
| LookupWalk.AsWrittenShape | src/main/java/com/mode/PagingIndex.java:39-42 | lookup returns at most limit ids, none when limit <= 0 or the index is empty, and select fails only at negative positions |
| LookupWalk.AsWrittenIsWindow | src/main/java/com/mode/PagingIndex.java:39 | a returned page is a run of consecutive ids of the key-ordered listing at or after offset, so ids of smaller keys precede ids of larger keys |
| LookupWalk.AsWrittenOneBucket | src/main/java/com/mode/PagingIndex.java:52-62 | a returned page never holds ids of two different buckets |
| LookupWalk.AgreesWithReference | src/main/java/com/mode/PagingIndex.java:39-63 | when offset >= 0 and the entry bucket has 2*seek + limit <= cardinality, lookup returns exactly the intended page |
| LookupWalk.FirstPageAgrees | src/main/java/com/mode/PagingIndex.java:39-63 | lookup(limit, 0) with limit no more than the first bucket's cardinality returns that bucket's first limit ids, the intended page |
| LookupWalk.PastEnd | src/main/java/com/mode/PagingIndex.java:48-56 | an offset at or past the number of ids gives an empty page, as intended |
| LookupWalk.LoopBoundDropsIds | src/main/java/com/mode/PagingIndex.java:53 | on {1: [10, 11, 12]}, lookup(1, 2) returns nothing while the intended page is [12] |
| LookupWalk.OvershootFails | src/main/java/com/mode/PagingIndex.java:52-62 | on {1: [10, 11, 12], 2: [20], 3: [30, 31]}, lookup(2, 1) fails at select(-1) while the intended page is [11, 12] |
| LookupWalk.IntendedScanPage | src/main/java/com/mode/PagingIndex.java:56-63 | with distinct ids, the corrected inner loop, entered at or after position offset, extends the page to the window clipped from all ids up to the end of the bucket |
| LookupWalk.IntendedBucket | src/main/java/com/mode/PagingIndex.java:39-64 | with distinct ids, one bucket of the corrected outer loop, skipped or read, extends the page to the window clipped from the ids up to that bucket's end |
| LookupWalk.IntendedFromPage | src/main/java/com/mode/PagingIndex.java:39-65 | with distinct ids, the corrected loops continued from any bucket, with the page clipped from the ids before it, end with the intended page |
| LookupWalk.LookupIntendedIsReference | src/main/java/com/mode/PagingIndex.java:35-68 | with distinct ids, the corrected lookup returns exactly the intended page |
| LookupWalk.IntendedFromBound | src/main/java/com/mode/PagingIndex.java:40-42 | the corrected loops never return more than limit ids |
| LookupWalk.ReferenceLength | src/main/java/com/mode/PagingIndex.java:35 | the intended page holds limit ids, or what is left after offset when fewer remain |
| LookupWalk.PagesCover | src/main/java/com/mode/PagingIndex.java:35 | the intended pages at offsets 0, size, 2*size, ... concatenate to the key-ordered listing of all ids |
| Paging.PagingIndex.constructor | src/main/java/com/mode/PagingIndex.java:19-21 | the object wraps the given TreeMap |
| Paging.PagingIndex.Build | src/main/java/com/mode/PagingIndex.java:71-73 | build returns a new index over the merged folds of the partitions' rows |
| Paging.PagingIndex.Size | src/main/java/com/mode/PagingIndex.java:23-25 | size is the number of distinct column values |
| Paging.PagingIndex.Keys | src/main/java/com/mode/PagingIndex.java:27-29 | keys lists exactly the column values, ascending |
| Paging.PagingIndex.Get | src/main/java/com/mode/PagingIndex.java:31-33 | get returns the bucket for a present key and nothing for an absent one |
| Paging.PagingIndex.Lookup | src/main/java/com/mode/PagingIndex.java:35-68 | the method, with its breaks and its select failure, returns exactly AsWritten |
| Paging.PagingIndex.LookupIntended | src/main/java/com/mode/PagingIndex.java:35-68 | the corrected lookup computes IntendedFrom, returns at most limit ids, and with distinct ids exactly the intended page |
| LongCodec.DecodeEncode | src/main/java/com/mode/OakLongSerializer.java:9-16 | reading eight bytes written for v in the same byte order gives v |
| LongCodec.Encode | src/main/java/com/mode/OakLongSerializer.java:10 | putLong writes exactly Long.BYTES = 8 bytes |
| LongCodec.Decode | src/main/java/com/mode/OakLongSerializer.java:14-16 | getLong reads eight bytes as the long whose encoding, in the same byte order, is exactly those bytes |
| LongCodec.EncodeInjective | src/main/java/com/mode/OakLongSerializer.java:10 | different longs are written as different bytes |
| LongCodec.EncodeIsTwosComplement | src/main/java/com/mode/OakLongSerializer.java:10 | the big-endian bytes read as an unsigned number are v modulo 2^64, and the little-endian bytes are them reversed |
| ByteBuffers.ByteBuffer.GetLong | src/main/java/com/mode/OakLongSerializer.java:15 | getLong(index) fails unless 0 <= index and index + 8 <= limit, and otherwise returns the long whose encoding is the eight bytes at index |
| ByteBuffers.ByteBuffer.PutLong | src/main/java/com/mode/OakLongSerializer.java:10 | putLong(index, v) fails, changing nothing, unless the eight bytes fit below limit; otherwise exactly those bytes become v's encoding and getLong(index) returns v |
| OakLongSerializer.Serialize | src/main/java/com/mode/OakLongSerializer.java:9-11 | serialize writes v's eight bytes at the position and nothing else, fails when fewer than eight bytes lie before the limit, and deserialize then returns v |
| OakLongSerializer.Deserialize | src/main/java/com/mode/OakLongSerializer.java:14-16 | deserialize fails when fewer than eight bytes lie before the limit, and otherwise returns the long encoded at the position |
| OakLongSerializer.CalculateSize | src/main/java/com/mode/OakLongSerializer.java:19-21 | the size is the length of the encoding, in either byte order |
| OakLongSerializer.DeserializeEncoded | src/main/java/com/mode/OakLongSerializer.java:14-16 | a buffer holding k's encoding at its position deserializes to k |
| OakLongComparator.CompareKeys | src/main/java/com/mode/OakLongComparator.java:9-11 | the result is -1, 0 or 1, negative, zero or positive exactly when key1 <, = or > key2 |
| OakLongComparator.CompareAntisymmetric | src/main/java/com/mode/OakLongComparator.java:10 | compareKeys(a, b) = -compareKeys(b, a) |
| OakLongComparator.CompareTransitive | src/main/java/com/mode/OakLongComparator.java:10 | a <= b and b <= c in the comparator's order give a <= c |
| OakLongComparator.CompareSerializedKeys | src/main/java/com/mode/OakLongComparator.java:14-18 | the result is compareKeys of the longs read at each buffer's position, and fails exactly when a read does |
| OakLongComparator.CompareSerializedKeyAndKey | src/main/java/com/mode/OakLongComparator.java:20-23 | the result is compareKeys of the long read at the position and key2, and fails exactly when the read does |
| OakLongComparator.SerializedOrderAgrees | src/main/java/com/mode/OakLongComparator.java:14-18 | two buffers holding the encodings of k1 and k2 compare as k1 and k2 do |
| OakLongComparator.SerializedKeyAndKeyAgrees | src/main/java/com/mode/OakLongComparator.java:20-23 | a buffer holding k1's encoding compares with k2 as k1 does |

## Left out

- The thread pool, the futures and the 30-second `awaitTermination` of `constructIndex` are not modelled. The partitions' rows are given as sequences, and the partition maps are merged in partition order; `MergeOrderIndependent` shows the order does not matter.
- The VoltDB `@AdHoc` query, its status check, and its exceptions and logging are not modelled. Each partition's result rows are the input.
- HashMap iteration order is not modelled as Java's hash order. `FoldPartition` hands out the keys in the order they first occur, and `MergePart` accepts any duplicate-free listing of the keys.
- Java `long` overflow of `seen`, `offset - seen` and `cardinality - seek` is not modelled, nor the `Integer` result of `size`: integers are unbounded.
- `Roaring64NavigableMap` is modelled as an ordered set of ids, without its compression. The model orders ids as signed integers and agrees with the bitmap for non-negative row ids.
- What `select` does at a position outside the bitmap is modelled only as the `SelectOutOfRange` outcome.
- Paging.PagingIndex.LookupIntended: equals the intended page only when no id occurs twice in the index. The LinkedHashSet skips a repeated id, so a page could otherwise hold ids from further along.
- `keys()` returns a live view of the key set; it is modelled as the ascending list of keys.
- Read-only and direct byte buffers, and the relative `getLong()` and `putLong(value)`, are not modelled. So is Oak's management of the buffers it passes to the serializer and comparator. Only heap buffers with absolute reads and writes are.
- OakPaginatorIndex.java, OakByteBufferSerializer.java, Benchmark.java and BenchmarkTaxi.java are not part of this model. They are concurrent Oak insertion, a delegating serializer, and database benchmark harnesses.

## Findings

| source | as written | input that shows it | evidently intended | confidence | as-written member | corrected member |
|---|---|---|---|---|---|---|
| src/main/java/com/mode/PagingIndex.java:53 | the inner loop runs while pos < cardinality - seek, so a bucket entered at seek loses its last seek ids, and all of them once 2*seek >= cardinality | lookup(1, 2) on {1: [10, 11, 12]} returns an empty page | run to the cardinality: [12] | high; not executed | LookupWalk.LoopBoundDropsIds | Paging.PagingIndex.LookupIntended |
| src/main/java/com/mode/PagingIndex.java:52-61 | seen is raised to offset and then by one per id taken, so after a partly read bucket it exceeds offset and the next bucket gets a negative seek, passed to select | lookup(2, 1) on {1: [10, 11, 12], 2: [20], 3: [30, 31]} calls select(-1) on bucket 2 | seek clamped at 0 and seen advanced by whole buckets: [11, 12] | high; not executed | LookupWalk.OvershootFails | Paging.PagingIndex.LookupIntended |
