/** Building the index (constructIndex in PagingIndex.java): every partition's
    rows are folded into a HashMap from column value to bitmap, and the partition
    maps are then or-ed into one TreeMap. The thread pool that runs the partition
    scans and the database query that produces the rows are not modelled: each
    partition's rows are given as a sequence. */
module IndexBuild {
  import opened Bitmaps
  import opened TreeMaps

  /** One row of a partition's result: its id (column 0) and the indexed
      column value (column 1). */
  datatype Row = Row(id: int, key: int)

  /** The column values that occur in rows. */
  function RowKeys(rows: seq<Row>): set<int> {
    set r | r in rows :: r.key
  }

  /** The ids of the rows whose column value is k. */
  function RowIds(rows: seq<Row>, k: int): set<int> {
    set r | r in rows && r.key == k :: r.id
  }

  /** m maps each column value occurring in rows, and nothing else, to a
      bitmap of exactly the ids of the rows holding that value. */
  ghost predicate Folds(m: map<int, Bitmap>, rows: seq<Row>) {
    && m.Keys == RowKeys(rows)
    && forall k :: k in m ==> m[k].Valid() && m[k].Elements() == RowIds(rows, k)
  }

  /** Distinct entries: no key is listed twice. */
  predicate Distinct(keys: seq<int>) {
    forall i, j :: 0 <= i < j < |keys| ==> keys[i] != keys[j]
  }

  /** keys lists the keys of m, each once: the order in which the partition's
      HashMap hands out its entries. */
  predicate ListsKeys(keys: seq<int>, m: map<int, Bitmap>) {
    && Distinct(keys)
    && (forall k :: k in keys ==> k in m)
    && (forall k :: k in m ==> k in keys)
  }

  /** The per-partition fold: keyMap.computeIfAbsent(key, ..).add(value) for
      every row, in row order. keyOrder is the order in which the HashMap's
      entries are later iterated; it is modelled as the order in which the keys
      first occur, and the merge below accepts any listing of the keys. */
  method FoldPartition(rows: seq<Row>) returns (keyMap: map<int, Bitmap>, keyOrder: seq<int>)
    ensures Folds(keyMap, rows)
    ensures ListsKeys(keyOrder, keyMap)
  {
    keyMap := map[];
    keyOrder := [];
    for i := 0 to |rows|
      invariant Folds(keyMap, rows[..i])
      invariant ListsKeys(keyOrder, keyMap)
    {
      var key := rows[i].key;
      var value := rows[i].id;
      if key !in keyMap {
        keyOrder := keyOrder + [key];
      }
      var bucket := if key in keyMap then keyMap[key] else Empty();
      keyMap := keyMap[key := bucket.Add(value)];
      assert rows[..i + 1] == rows[..i] + [rows[i]];
    }
    assert rows[..|rows|] == rows;
  }

  /** Every bitmap in every partition map is well formed. */
  predicate ValidParts(parts: seq<map<int, Bitmap>>) {
    forall i, k :: 0 <= i < |parts| && k in parts[i] ==> parts[i][k].Valid()
  }

  /** The keys of all partition maps together. */
  function MergedKeys(parts: seq<map<int, Bitmap>>): set<int> {
    if parts == [] then {} else MergedKeys(parts[..|parts| - 1]) + parts[|parts| - 1].Keys
  }

  /** The union of every partition's bucket for k. */
  function MergedIds(parts: seq<map<int, Bitmap>>, k: int): set<int> {
    if parts == [] then {}
    else
      var last := parts[|parts| - 1];
      MergedIds(parts[..|parts| - 1], k) + (if k in last then last[k].Elements() else {})
  }

  /** t is the merge of parts: its keys are all partitions' keys and each of
      its buckets is the union of the partitions' buckets for that key. */
  ghost predicate IsMergeOf(t: seq<Bucket>, parts: seq<map<int, Bitmap>>) {
    && IsTreeMap(t)
    && AsMap(t).Keys == MergedKeys(parts)
    && forall k :: k in AsMap(t) ==> AsMap(t)[k].Elements() == MergedIds(parts, k)
  }

  /** Midway through or-ing part into t: the keys of part not in remaining
      have been merged on top of the merge of before. */
  ghost predicate PartlyMerged(t: seq<Bucket>, before: seq<map<int, Bitmap>>,
                               part: map<int, Bitmap>, remaining: set<int>) {
    && IsTreeMap(t)
    && AsMap(t).Keys == MergedKeys(before) + (part.Keys - remaining)
    && forall k :: k in AsMap(t) ==>
         AsMap(t)[k].Elements() == MergedIds(before, k) + (if k in part && k !in remaining then part[k].Elements() else {})
  }

  /** A key no partition holds has no ids. */
  lemma {:induction false} MergedIdsOutsideKeys(parts: seq<map<int, Bitmap>>, k: int)
    requires k !in MergedKeys(parts)
    ensures MergedIds(parts, k) == {}
  {
    if parts != [] {
      MergedIdsOutsideKeys(parts[..|parts| - 1], k);
    }
  }

  lemma StartPart(t: seq<Bucket>, before: seq<map<int, Bitmap>>, part: map<int, Bitmap>)
    requires IsMergeOf(t, before)
    ensures PartlyMerged(t, before, part, part.Keys)
  {
  }

  lemma MergeOneKey(t: seq<Bucket>, before: seq<map<int, Bitmap>>, part: map<int, Bitmap>,
                    remaining: set<int>, key: int)
    requires PartlyMerged(t, before, part, remaining)
    requires key in remaining && remaining <= part.Keys && part[key].Valid()
    ensures PartlyMerged(Upsert(t, key, part[key]), before, part, remaining - {key})
  {
    var t' := Upsert(t, key, part[key]);
    ValuesValid(t);
    forall k | k in AsMap(t')
      ensures AsMap(t')[k].Elements() == MergedIds(before, k) + (if k in part && k !in remaining - {key} then part[k].Elements() else {})
    {
      if k == key && key in AsMap(t) {
        assert AsMap(t')[k] == AsMap(t)[k].Or(part[key]);
      } else if k == key {
        MergedIdsOutsideKeys(before, key);
      }
    }
  }

  lemma FinishPart(t: seq<Bucket>, before: seq<map<int, Bitmap>>, part: map<int, Bitmap>)
    requires PartlyMerged(t, before, part, {})
    ensures IsMergeOf(t, before + [part])
  {
    assert (before + [part])[..|before|] == before;
  }

  /** Or every entry of one partition map into the TreeMap, in the order the
      map hands them out (any listing of its keys). */
  method MergePart(t: seq<Bucket>, ghost before: seq<map<int, Bitmap>>,
                   part: map<int, Bitmap>, keyOrder: seq<int>)
    returns (merged: seq<Bucket>)
    requires forall k :: k in part ==> part[k].Valid()
    requires ListsKeys(keyOrder, part)
    requires PartlyMerged(t, before, part, part.Keys)
    ensures PartlyMerged(merged, before, part, {})
  {
    merged := t;
    ListedKeys(keyOrder, part);
    for j := 0 to |keyOrder|
      invariant PartlyMerged(merged, before, part, Members(keyOrder[j..]))
    {
      var key := keyOrder[j];
      ListedKeysFrom(keyOrder, part, j);
      MergeOneKey(merged, before, part, Members(keyOrder[j..]), key);
      merged := Upsert(merged, key, part[key]);
    }
  }

  lemma ListedKeys(keys: seq<int>, m: map<int, Bitmap>)
    requires ListsKeys(keys, m)
    ensures m.Keys == Members(keys[0..])
  {
    assert keys[0..] == keys;
    forall k | k in m.Keys ensures k in Members(keys) {
      assert k in m;
    }
    forall k | k in Members(keys) ensures k in m.Keys {
      assert k in keys;
    }
    assert m.Keys == Members(keys);
  }

  /** Taking the entry at j off the keys still to merge leaves those after it. */
  lemma ListedKeysFrom(keys: seq<int>, m: map<int, Bitmap>, j: int)
    requires ListsKeys(keys, m) && 0 <= j < |keys|
    ensures keys[j] in Members(keys[j..]) && Members(keys[j..]) <= m.Keys
    ensures Members(keys[j..]) - {keys[j]} == Members(keys[j + 1..])
  {
    assert keys[j..] == [keys[j]] + keys[j + 1..];
  }

  /** The merge loop: every entry of every partition map, partition by
      partition, is or-ed into the TreeMap. */
  method MergePartitions(parts: seq<map<int, Bitmap>>, orders: seq<seq<int>>)
    returns (merged: seq<Bucket>)
    requires ValidParts(parts)
    requires |orders| == |parts|
    requires forall i :: 0 <= i < |parts| ==> ListsKeys(orders[i], parts[i])
    ensures IsMergeOf(merged, parts)
  {
    merged := [];
    for i := 0 to |parts|
      invariant IsMergeOf(merged, parts[..i])
    {
      var part := parts[i];
      StartPart(merged, parts[..i], part);
      merged := MergePart(merged, parts[..i], part, orders[i]);
      FinishPart(merged, parts[..i], part);
      assert parts[..i + 1] == parts[..i] + [part];
    }
    assert parts[..|parts|] == parts;
  }

  lemma {:induction false} MergedKeysMembers(parts: seq<map<int, Bitmap>>, k: int)
    ensures k in MergedKeys(parts) <==> exists p :: p in parts && k in p
  {
    if parts != [] {
      var init := parts[..|parts| - 1];
      MergedKeysMembers(init, k);
      assert parts == init + [parts[|parts| - 1]];
    }
  }

  lemma {:induction false} MergedIdsMembers(parts: seq<map<int, Bitmap>>, k: int, x: int)
    ensures x in MergedIds(parts, k) <==> exists p: map<int, Bitmap> :: p in parts && k in p && x in p[k].Elements()
  {
    if parts != [] {
      var init := parts[..|parts| - 1];
      MergedIdsMembers(init, k, x);
      assert parts == init + [parts[|parts| - 1]];
    }
  }

  /** The merged index depends only on which partition maps are merged, not on
      their order (nor on the order of each map's entries, which the merge loop
      already leaves open): any two merges of the same partition maps are equal. */
  lemma MergeOrderIndependent(t1: seq<Bucket>, parts1: seq<map<int, Bitmap>>,
                              t2: seq<Bucket>, parts2: seq<map<int, Bitmap>>)
    requires forall p :: p in parts1 <==> p in parts2
    requires IsMergeOf(t1, parts1) && IsMergeOf(t2, parts2)
    ensures t1 == t2
  {
    forall k ensures k in MergedKeys(parts1) <==> k in MergedKeys(parts2) {
      MergedKeysMembers(parts1, k);
      MergedKeysMembers(parts2, k);
    }
    ValuesValid(t1);
    ValuesValid(t2);
    forall k | k in AsMap(t1) ensures AsMap(t1)[k] == AsMap(t2)[k] {
      forall x ensures x in MergedIds(parts1, k) <==> x in MergedIds(parts2, k) {
        MergedIdsMembers(parts1, k, x);
        MergedIdsMembers(parts2, k, x);
      }
      Bitmaps.Canonical(AsMap(t1)[k], AsMap(t2)[k]);
    }
    TreeMaps.Canonical(t1, t2);
  }

  /** All partitions' rows, partition after partition. */
  function AllRows(partitions: seq<seq<Row>>): seq<Row> {
    if partitions == [] then []
    else AllRows(partitions[..|partitions| - 1]) + partitions[|partitions| - 1]
  }

  /** Merging the folds of the partitions gathers, for every column value, the
      ids of the rows of every partition that hold it. */
  lemma {:induction false} MergeOfFolds(parts: seq<map<int, Bitmap>>, partitions: seq<seq<Row>>, k: int)
    requires |parts| == |partitions|
    requires forall j :: 0 <= j < |parts| ==> Folds(parts[j], partitions[j])
    ensures k in MergedKeys(parts) <==> k in RowKeys(AllRows(partitions))
    ensures MergedIds(parts, k) == RowIds(AllRows(partitions), k)
  {
    if parts != [] {
      var n := |parts| - 1;
      MergeOfFolds(parts[..n], partitions[..n], k);
      assert partitions[..n] == partitions[..|partitions| - 1];
      var before := AllRows(partitions[..n]);
      assert AllRows(partitions) == before + partitions[n];
      assert RowIds(before + partitions[n], k) == RowIds(before, k) + RowIds(partitions[n], k);
      assert RowKeys(before + partitions[n]) == RowKeys(before) + RowKeys(partitions[n]);
    }
  }

  /** constructIndex without its thread pool: fold every partition, then merge
      the partition maps in partition order. */
  method ConstructIndex(partitions: seq<seq<Row>>) returns (merged: seq<Bucket>)
    ensures IsTreeMap(merged)
    ensures AsMap(merged).Keys == RowKeys(AllRows(partitions))
    ensures forall k :: k in AsMap(merged) ==> AsMap(merged)[k].Elements() == RowIds(AllRows(partitions), k)
  {
    var parts: seq<map<int, Bitmap>> := [];
    var orders: seq<seq<int>> := [];
    for i := 0 to |partitions|
      invariant |parts| == |orders| == i
      invariant forall j :: 0 <= j < i ==> Folds(parts[j], partitions[j])
      invariant forall j :: 0 <= j < i ==> ListsKeys(orders[j], parts[j])
    {
      var keyMap, keyOrder := FoldPartition(partitions[i]);
      parts := parts + [keyMap];
      orders := orders + [keyOrder];
    }
    merged := MergePartitions(parts, orders);
    forall k ensures k in MergedKeys(parts) <==> k in RowKeys(AllRows(partitions)) {
      MergeOfFolds(parts, partitions, k);
    }
    forall k | k in AsMap(merged) ensures AsMap(merged)[k].Elements() == RowIds(AllRows(partitions), k) {
      MergeOfFolds(parts, partitions, k);
    }
  }
}
