/** The PagingIndex class: a TreeMap from column value to bitmap of row ids,
    with its accessors, its build and its paged lookup. */
module Paging {
  import opened Bitmaps
  import opened TreeMaps
  import opened IndexBuild
  import opened LookupWalk

  class PagingIndex {
    /** The private final TreeMap, entries in ascending key order. */
    const index: seq<Bucket>

    predicate Valid() {
      IsTreeMap(index)
    }

    constructor(index: seq<Bucket>)
      requires IsTreeMap(index)
      ensures this.index == index && Valid()
    {
      this.index := index;
    }

    /** build: construct the index from the partitions' rows and wrap it. */
    static method Build(partitions: seq<seq<Row>>) returns (p: PagingIndex)
      ensures fresh(p) && p.Valid()
      ensures AsMap(p.index).Keys == RowKeys(AllRows(partitions))
      ensures forall k :: k in AsMap(p.index) ==> AsMap(p.index)[k].Elements() == RowIds(AllRows(partitions), k)
    {
      var merged := ConstructIndex(partitions);
      p := new PagingIndex(merged);
    }

    /** size(): the number of distinct column values. */
    function Size(): (n: int)
      requires Valid()
      ensures n == |AsMap(index).Keys|
    {
      SizeIsKeyCount(index);
      |index|
    }

    /** keys(): the column values, in ascending order. */
    function Keys(): (ks: seq<int>)
      requires Valid()
      ensures Ascending(ks)
      ensures forall k :: k in ks <==> k in AsMap(index)
    {
      KeyList(index)
    }

    /** get(key): the bitmap under key, or nothing. */
    function Get(key: int): (r: Option<Bitmap>)
      requires Valid()
      ensures r.Some? <==> key in AsMap(index)
      ensures r.Some? ==> r.value == AsMap(index)[key] && r.value.Valid()
    {
      ValuesValid(index);
      Find(index, key)
    }

    /** lookup(limit, offset) as written: buckets in key order, whole buckets
        ending before offset skipped on their cardinality, then ids taken by
        positional select from seek = offset - seen up to cardinality - seek. */
    method Lookup(limit: int, offset: int) returns (outcome: Outcome)
      requires Valid()
      ensures outcome == AsWritten(index, limit, offset)
    {
      var seen := 0;
      var result: seq<int> := [];
      for i := 0 to |index|
        invariant WalkFrom(index, i, limit, offset, seen, result) == WalkFrom(index, 0, limit, offset, 0, [])
      {
        if |result| >= limit {
          break;
        }
        var values := index[i].ids;
        var cardinality := values.Cardinality();
        if seen + cardinality < offset {
          seen := seen + cardinality;
        } else {
          var seek := offset - seen;
          var length := cardinality - seek;
          seen := seen + seek;
          var pos := seek;
          while pos < length
            invariant Resume(index, i, limit, offset, Scan(values, pos, length, limit, seen, result))
                   == WalkFrom(index, 0, limit, offset, 0, [])
            decreases length - pos
          {
            if |result| >= limit {
              break;
            }
            seen := seen + 1;
            if pos < 0 || pos >= cardinality {
              LookupAsWritten(index, limit, offset);
              return SelectOutOfRange(pos);
            }
            result := AddIfAbsent(result, values.Select(pos));
            pos := pos + 1;
          }
        }
      }
      LookupAsWritten(index, limit, offset);
      return Paged(result);
    }

    /** lookup with the inner loop running to the bucket's cardinality, seek
        never negative and seen advanced by whole buckets: with distinct ids it
        returns exactly the intended page. */
    method LookupIntended(limit: int, offset: int) returns (result: seq<int>)
      requires Valid()
      ensures |result| <= Max(0, limit)
      ensures result == IntendedFrom(index, 0, limit, offset, 0, [])
      ensures DistinctIds(index) ==> result == Reference(index, limit, offset)
    {
      var seen := 0;
      result := [];
      for i := 0 to |index|
        invariant IntendedFrom(index, i, limit, offset, seen, result) == IntendedFrom(index, 0, limit, offset, 0, [])
      {
        if |result| >= limit {
          break;
        }
        var values := index[i].ids;
        var cardinality := values.Cardinality();
        if seen + cardinality >= offset {
          var pos := if offset - seen < 0 then 0 else offset - seen;
          while pos < cardinality
            invariant 0 <= pos <= cardinality
            invariant IntendedFrom(index, i + 1, limit, offset, seen + cardinality, IntendedScan(values, pos, limit, result))
                   == IntendedFrom(index, 0, limit, offset, 0, [])
          {
            if |result| >= limit {
              break;
            }
            result := AddIfAbsent(result, values.Select(pos));
            pos := pos + 1;
          }
        }
        seen := seen + cardinality;
      }
      IntendedFromBound(index, 0, limit, offset, 0, []);
      if DistinctIds(index) {
        LookupIntendedIsReference(index, limit, offset);
      }
    }
  }
}
