/** What PagingIndex.lookup(limit, offset) computes. WalkFrom and Scan follow
    the two loops of the source step by step; AsWritten says in closed form
    what they return; Reference is the page the method is meant to return (all
    ids listed bucket by bucket in key order, offset of them dropped, limit of
    them taken). The lemmas relate the three. */
module LookupWalk {
  import opened Bitmaps
  import opened TreeMaps

  /** How lookup ends: the ids of the LinkedHashSet in insertion order, or the
      exception thrown by select at a position outside the bucket. */
  datatype Outcome = Paged(ids: seq<int>) | SelectOutOfRange(position: int)

  /** State after the inner loop over one bucket: the counter and the page so
      far, or the position at which select failed. */
  datatype Scanned = Running(seen: int, result: seq<int>) | Crashed(position: int)

  function Min(a: int, b: int): int { if a <= b then a else b }

  function Max(a: int, b: int): int { if a <= b then b else a }

  /** LinkedHashSet.add: the ids already there keep their places, and a new
      id goes last. */
  function AddIfAbsent(s: seq<int>, x: int): (r: seq<int>)
    ensures r == s || r == s + [x]
  {
    if x in s then s else s + [x]
  }

  /** As a set the page gains exactly x, and it changes only when x is new. */
  lemma AddIfAbsentIsSetAdd(s: seq<int>, x: int)
    ensures Members(AddIfAbsent(s, x)) == Members(s) + {x}
    ensures AddIfAbsent(s, x) == s <==> x in s
  {
  }

  /** The inner loop of lookup, from position pos: stop at length or once the
      page holds limit ids, otherwise count the id and append select(pos),
      which is the id at pos of the bucket's ascending listing and fails
      outside it. */
  function Scan(b: Bitmap, pos: int, length: int, limit: int, seen: int, result: seq<int>): (s: Scanned)
    ensures s.Running? ==> |result| <= |s.result| <= Max(|result|, limit)
    ensures s.Crashed? ==> s.position < 0 || s.position >= |b.ids|
    decreases length - pos
  {
    if pos >= length || |result| >= limit then Running(seen, result)
    else if pos < 0 || pos >= |b.ids| then Crashed(pos)
    else Scan(b, pos + 1, length, limit, seen + 1, AddIfAbsent(result, b.ids[pos]))
  }

  /** The outer loop of lookup, from bucket i on: stop once the page holds limit
      ids; skip a bucket that ends before offset; otherwise run the inner loop
      from seek = offset - seen up to cardinality - seek. */
  function WalkFrom(index: seq<Bucket>, i: int, limit: int, offset: int, seen: int, result: seq<int>): (o: Outcome)
    requires 0 <= i <= |index|
    ensures o.Paged? ==> |result| <= |o.ids| <= Max(|result|, limit)
    decreases |index| - i, 1
  {
    if i == |index| || |result| >= limit then Paged(result)
    else
      var c := |index[i].ids.ids|;
      if seen + c < offset then WalkFrom(index, i + 1, limit, offset, seen + c, result)
      else
        var seek := offset - seen;
        Resume(index, i, limit, offset, Scan(index[i].ids, seek, c - seek, limit, seen + seek, result))
  }

  /** Carry on with the bucket after i once bucket i's inner loop is done. */
  function Resume(index: seq<Bucket>, i: int, limit: int, offset: int, s: Scanned): (o: Outcome)
    requires 0 <= i < |index|
    ensures s.Crashed? ==> o == SelectOutOfRange(s.position)
    ensures s.Running? && o.Paged? ==> |s.result| <= |o.ids| <= Max(|s.result|, limit)
    decreases |index| - i, 0
  {
    match s
    case Crashed(p) => SelectOutOfRange(p)
    case Running(seen, result) => WalkFrom(index, i + 1, limit, offset, seen, result)
  }

  /** Every bucket of the index is a well-formed bitmap. */
  predicate BucketsValid(index: seq<Bucket>) {
    forall i :: 0 <= i < |index| ==> index[i].ids.Valid()
  }

  /** The ids of the first k buckets, bucket after bucket. */
  function Listing(index: seq<Bucket>, k: int): seq<int>
    requires 0 <= k <= |index|
  {
    if k == 0 then [] else Listing(index, k - 1) + index[k - 1].ids.ids
  }

  /** Every id of the index in key order, each bucket in ascending order. */
  function Full(index: seq<Bucket>): seq<int> {
    Listing(index, |index|)
  }

  /** The position in Full of bucket k's first id: the cardinalities of the
      buckets before it added up. */
  function Start(index: seq<Bucket>, k: int): int
    requires 0 <= k <= |index|
  {
    |Listing(index, k)|
  }

  /** No id occurs in two places of the index. */
  predicate DistinctIds(index: seq<Bucket>) {
    forall p, q :: 0 <= p < q < |Full(index)| ==> Full(index)[p] != Full(index)[q]
  }

  /** The positions [offset, offset + limit) of s that s has, negative offset
      and limit counting as 0. */
  function Clip(s: seq<int>, limit: int, offset: int): (r: seq<int>)
    ensures |r| <= Max(0, limit)
  {
    var from := Max(0, offset);
    var to := from + Max(0, limit);
    Run(s, Min(from, |s|), Min(to, |s|))
  }

  /** The window is the slice of s between its clipped ends. */
  lemma ClipIsSlice(s: seq<int>, limit: int, offset: int)
    ensures Clip(s, limit, offset) == s[Min(Max(0, offset), |s|)..Min(Max(0, offset) + Max(0, limit), |s|)]
  {
    RunIsSlice(s, Min(Max(0, offset), |s|), Min(Max(0, offset) + Max(0, limit), |s|));
  }

  /** The intended page: drop offset ids of the key-ordered listing, take limit. */
  function Reference(index: seq<Bucket>, limit: int, offset: int): seq<int> {
    Clip(Full(index), limit, offset)
  }

  /** The first bucket from i on that reaches offset, where lookup stops
      skipping (|index| if none does). */
  function Entry(index: seq<Bucket>, offset: int, i: int): (j: int)
    requires 0 <= i <= |index|
    ensures i <= j <= |index|
    ensures j < |index| ==> offset <= Start(index, j + 1)
    ensures Start(index, i) <= offset ==> Start(index, j) <= offset
    decreases |index| - i
  {
    if i == |index| || offset <= Start(index, i + 1) then i else Entry(index, offset, i + 1)
  }

  /** The first non-empty bucket from i on (|index| if none is). */
  function NextNonEmpty(index: seq<Bucket>, i: int): (k: int)
    requires 0 <= i <= |index|
    ensures i <= k <= |index|
    ensures k < |index| ==> index[k].ids.ids != []
    decreases |index| - i
  {
    if i == |index| || index[i].ids.ids != [] then i else NextNonEmpty(index, i + 1)
  }

  /** How many ids the inner loop takes from a bucket of c ids entered at seek:
      it runs from seek up to c - seek, and at most limit times. */
  function Taken(c: int, seek: int, limit: int): int {
    Max(0, Min(limit, c - 2 * seek))
  }

  /** After a ids were taken from bucket j starting at seek, seen exceeds offset
      by a: the walk ends with that page if it is full or j is the last bucket,
      and otherwise the next bucket is entered at seek -a and select fails. */
  function Finish(index: seq<Bucket>, limit: int, j: int, seek: int, a: int): Outcome
    requires 0 <= j < |index| && 0 <= seek && 0 < a && seek + a <= |index[j].ids.ids|
  {
    var page := index[j].ids.ids[seek..seek + a];
    if limit <= a || j + 1 == |index| then Paged(page) else SelectOutOfRange(-a)
  }

  /** What lookup(limit, offset) returns, in closed form. */
  function AsWritten(index: seq<Bucket>, limit: int, offset: int): Outcome {
    if limit <= 0 || |index| == 0 then Paged([])
    else if offset < 0 then SelectOutOfRange(offset)
    else
      var j := Entry(index, offset, 0);
      if j == |index| then Paged([])
      else
        var seek := offset - Start(index, j);
        var a := Taken(|index[j].ids.ids|, seek, limit);
        if a > 0 then Finish(index, limit, j, seek, a)
        else
          var k := NextNonEmpty(index, j + 1);
          if k == |index| then Paged([])
          else Finish(index, limit, k, 0, Min(limit, |index[k].ids.ids|))
  }

  /** The ids at positions lo, lo + 1, ..., hi - 1 of s, appended one at a
      time as the inner loop appends them. */
  function Run(s: seq<int>, lo: int, hi: int): (r: seq<int>)
    requires 0 <= lo <= hi <= |s|
    ensures |r| == hi - lo
    decreases hi - lo
  {
    if hi == lo then [] else Run(s, lo, hi - 1) + [s[hi - 1]]
  }

  lemma {:induction false} RunIsSlice(s: seq<int>, lo: int, hi: int)
    requires 0 <= lo <= hi <= |s|
    ensures Run(s, lo, hi) == s[lo..hi]
    decreases hi - lo
  {
    if lo < hi {
      RunIsSlice(s, lo, hi - 1);
      assert s[lo..hi] == s[lo..hi - 1] + [s[hi - 1]];
    }
  }

  /** No id of s[lo..hi] occurs before it in that run. */
  predicate FreshFrom(s: seq<int>, lo: int, hi: int)
    requires 0 <= lo <= hi <= |s|
  {
    forall q {:trigger Run(s, lo, q)} :: lo <= q < hi ==> s[q] !in Run(s, lo, q)
  }

  /** An ascending listing has no id twice. */
  lemma AscendingFresh(s: seq<int>, lo: int, hi: int)
    requires Ascending(s) && 0 <= lo <= hi <= |s|
    ensures FreshFrom(s, lo, hi)
  {
    forall q | lo <= q < hi ensures s[q] !in Run(s, lo, q) {
      RunIsSlice(s, lo, q);
      var prefix := s[lo..q];
      forall k | 0 <= k < |prefix| ensures prefix[k] != s[q] {
        assert prefix[k] == s[lo + k];
      }
    }
  }

  /** The inner loop over a bucket entered at seek >= 0 takes the ids at
      positions seek, seek + 1, ... in order, counting each, up to the position
      end where it reaches length or the page holds limit ids. */
  lemma {:induction false} ScanRun(b: Bitmap, seek: int, p: int, end: int, length: int, limit: int, seen: int)
    requires 0 <= seek <= p <= end <= |b.ids| && FreshFrom(b.ids, seek, end)
    requires end == seek || (end <= length && end - seek <= limit)
    requires end >= length || end - seek >= limit
    ensures Scan(b, p, length, limit, seen, Run(b.ids, seek, p)) == Running(seen + end - p, Run(b.ids, seek, end))
    decreases end - p
  {
    var r := Run(b.ids, seek, p);
    if p < end {
      assert p < length && |r| < limit && p < |b.ids|;
      assert b.ids[p] !in r;
      assert AddIfAbsent(r, b.ids[p]) == Run(b.ids, seek, p + 1);
      ScanRun(b, seek, p + 1, end, length, limit, seen + 1);
      assert Scan(b, p, length, limit, seen, r) == Scan(b, p + 1, length, limit, seen + 1, Run(b.ids, seek, p + 1));
    } else {
      assert p >= length || |r| >= limit;
    }
  }

  /** Bucket k's ids follow those of the buckets before it. */
  lemma StartStep(index: seq<Bucket>, k: int)
    requires 0 <= k < |index|
    ensures Listing(index, k + 1) == Listing(index, k) + index[k].ids.ids
    ensures Start(index, k + 1) == Start(index, k) + |index[k].ids.ids|
  {
  }

  /** Buckets that end strictly before offset add nothing and advance seen by
      their cardinality, so the walk reaches the entry bucket (the first one
      ending at or after offset) with seen at its start and an empty page. */
  lemma {:induction false} SkipTo(index: seq<Bucket>, limit: int, offset: int, i: int)
    requires 0 <= i <= |index| && 0 < limit && Start(index, i) <= offset
    ensures WalkFrom(index, i, limit, offset, Start(index, i), [])
         == WalkFrom(index, Entry(index, offset, i), limit, offset, Start(index, Entry(index, offset, i)), [])
    decreases |index| - i
  {
    if i < |index| && Start(index, i + 1) < offset {
      StartStep(index, i);
      SkipTo(index, limit, offset, i + 1);
    }
  }

  /** Once bucket j has put r on the page, seen is offset + |r|: the walk ends
      there if the page is full or no bucket follows, and otherwise fails at
      position -|r| of the next bucket. */
  lemma AfterTaking(index: seq<Bucket>, limit: int, offset: int, j: int, r: seq<int>)
    requires 0 <= j < |index| && r != []
    ensures WalkFrom(index, j + 1, limit, offset, offset + |r|, r)
         == if limit <= |r| || j + 1 == |index| then Paged(r) else SelectOutOfRange(-|r|)
  {
    if j + 1 < |index| && |r| < limit {
      var b := index[j + 1].ids;
      assert Scan(b, -|r|, |b.ids| + |r|, limit, offset, r) == Crashed(-|r|);
    }
  }

  /** With seen at offset and nothing on the page, empty buckets are passed over
      and the first non-empty one is read from position 0. */
  lemma {:induction false} FromOffset(index: seq<Bucket>, limit: int, offset: int, i: int)
    requires BucketsValid(index) && 0 <= i <= |index| && 0 < limit
    ensures WalkFrom(index, i, limit, offset, offset, [])
         == var k := NextNonEmpty(index, i);
            if k == |index| then Paged([]) else Finish(index, limit, k, 0, Min(limit, |index[k].ids.ids|))
    decreases |index| - i
  {
    if i < |index| {
      var b := index[i].ids;
      if b.ids == [] {
        assert Scan(b, 0, 0, limit, offset, []) == Running(offset, []);
        FromOffset(index, limit, offset, i + 1);
      } else {
        BucketScan(b, 0, limit, offset);
        AfterTaking(index, limit, offset, i, b.ids[0..Min(limit, |b.ids|)]);
      }
    }
  }

  /** The bucket where the walk reaches offset is read from seek = offset -
      seen; what follows depends on whether it gave any id. */
  lemma EnterBucket(index: seq<Bucket>, limit: int, offset: int, j: int)
    requires BucketsValid(index) && 0 <= j < |index| && 0 < limit
    requires Start(index, j) <= offset <= Start(index, j + 1)
    ensures WalkFrom(index, j, limit, offset, Start(index, j), [])
         == var seek := offset - Start(index, j);
            var a := Taken(|index[j].ids.ids|, seek, limit);
            if a > 0 then Finish(index, limit, j, seek, a)
            else
              var k := NextNonEmpty(index, j + 1);
              if k == |index| then Paged([])
              else Finish(index, limit, k, 0, Min(limit, |index[k].ids.ids|))
  {
    var b := index[j].ids;
    var seek := offset - Start(index, j);
    var a := Taken(|b.ids|, seek, limit);
    EnterScan(index, limit, offset, j);
    if a > 0 {
      AfterTaking(index, limit, offset, j, b.ids[seek..seek + a]);
    } else {
      assert b.ids[seek..seek + a] == [];
      FromOffset(index, limit, offset, j + 1);
    }
  }

  /** The entry bucket is read from seek = offset - seen, which lies between 0
      and its cardinality (the cardinality itself when the bucket ends exactly
      at offset, which then gives no id); its inner loop appends the Taken ids
      from seek on and leaves seen at offset plus their number. */
  lemma EnterScan(index: seq<Bucket>, limit: int, offset: int, j: int)
    requires 0 <= j < |index| && 0 < limit && index[j].ids.Valid()
    requires Start(index, j) <= offset <= Start(index, j + 1)
    ensures var seek := offset - Start(index, j);
            0 <= seek <= |index[j].ids.ids| && seek + Taken(|index[j].ids.ids|, seek, limit) <= |index[j].ids.ids|
    ensures WalkFrom(index, j, limit, offset, Start(index, j), [])
         == (var seek := offset - Start(index, j);
             var a := Taken(|index[j].ids.ids|, seek, limit);
             WalkFrom(index, j + 1, limit, offset, offset + a, index[j].ids.ids[seek..seek + a]))
  {
    var b := index[j].ids;
    var seek := offset - Start(index, j);
    StartStep(index, j);
    BucketScan(b, seek, limit, offset);
    var a := Taken(|b.ids|, seek, limit);
    EnterStep(index, limit, offset, j, offset + a, b.ids[seek..seek + a]);
  }

  /** The walk does not skip the entry bucket: it runs the inner loop there
      from seek = offset - seen, with seen raised to offset, and goes on at the
      next bucket with what that loop leaves. */
  lemma EnterStep(index: seq<Bucket>, limit: int, offset: int, j: int, seen: int, r: seq<int>)
    requires 0 <= j < |index| && 0 < limit
    requires Start(index, j) <= offset <= Start(index, j + 1)
    requires var b := index[j].ids;
             var seek := offset - Start(index, j);
             Scan(b, seek, |b.ids| - seek, limit, offset, []) == Running(seen, r)
    ensures WalkFrom(index, j, limit, offset, Start(index, j), []) == WalkFrom(index, j + 1, limit, offset, seen, r)
  {
    StartStep(index, j);
  }

  /** A well-formed bucket entered at seek gives its Taken ids from seek on. */
  lemma BucketScan(b: Bitmap, seek: int, limit: int, seen: int)
    requires b.Valid() && 0 <= seek <= |b.ids| && 0 < limit
    ensures seek + Taken(|b.ids|, seek, limit) <= |b.ids|
    ensures Scan(b, seek, |b.ids| - seek, limit, seen, [])
         == Running(seen + Taken(|b.ids|, seek, limit), b.ids[seek..seek + Taken(|b.ids|, seek, limit)])
  {
    var c := |b.ids|;
    var a := Taken(c, seek, limit);
    TakenBounds(c, seek, limit);
    AscendingFresh(b.ids, seek, seek + a);
    ScanRun(b, seek, seek, seek + a, c - seek, limit, seen);
    RunIsSlice(b.ids, seek, seek + a);
  }

  /** The inner loop stops after Taken ids: at its bound c - seek or at limit. */
  lemma TakenBounds(c: int, seek: int, limit: int)
    requires 0 <= seek <= c && 0 < limit
    ensures var a := Taken(c, seek, limit);
            0 <= a && seek + a <= c
            && (a == 0 || (seek + a <= c - seek && a <= limit))
            && (seek + a >= c - seek || a >= limit)
  {
  }

  /** The loops of lookup compute AsWritten. */
  lemma LookupAsWritten(index: seq<Bucket>, limit: int, offset: int)
    requires BucketsValid(index)
    ensures WalkFrom(index, 0, limit, offset, 0, []) == AsWritten(index, limit, offset)
  {
    if limit <= 0 || |index| == 0 {
    } else if offset < 0 {
      NegativeOffset(index, limit, offset);
    } else {
      assert Start(index, 0) == 0;
      SkipTo(index, limit, offset, 0);
      var j := Entry(index, offset, 0);
      if j < |index| {
        EnterBucket(index, limit, offset, j);
      } else {
        assert WalkFrom(index, j, limit, offset, Start(index, j), []) == Paged([]);
      }
    }
  }

  /** A negative offset sends the first bucket's select to position offset. */
  lemma NegativeOffset(index: seq<Bucket>, limit: int, offset: int)
    requires 0 < limit && |index| > 0 && offset < 0
    ensures WalkFrom(index, 0, limit, offset, 0, []) == SelectOutOfRange(offset)
  {
    var b := index[0].ids;
    assert Scan(b, offset, |b.ids| - offset, limit, offset, []) == Crashed(offset);
  }

  /** The listing of the first k buckets is a prefix of that of the first m. */
  lemma {:induction false} ListingPrefix(index: seq<Bucket>, k: int, m: int)
    requires 0 <= k <= m <= |index|
    ensures Start(index, k) <= Start(index, m)
    ensures Listing(index, m)[..Start(index, k)] == Listing(index, k)
    decreases m
  {
    if k < m {
      ListingPrefix(index, k, m - 1);
      StartStep(index, m - 1);
    }
  }

  /** Bucket j's ids sit in Full at positions Start(j), Start(j) + 1, ... */
  lemma BucketInFull(index: seq<Bucket>, j: int, lo: int, hi: int)
    requires 0 <= j < |index| && 0 <= lo <= hi <= |index[j].ids.ids|
    ensures Start(index, j) + hi <= |Full(index)|
    ensures Full(index)[Start(index, j) + lo..Start(index, j) + hi] == index[j].ids.ids[lo..hi]
  {
    ListingPrefix(index, j + 1, |index|);
    StartStep(index, j);
    var l := Listing(index, j + 1);
    assert Full(index)[Start(index, j) + lo..Start(index, j) + hi] == l[Start(index, j) + lo..Start(index, j) + hi];
  }

  /** lookup never returns more than limit ids, returns none when limit is not
      positive or the index is empty, and select fails only below position 0. */
  lemma AsWrittenShape(index: seq<Bucket>, limit: int, offset: int)
    ensures AsWritten(index, limit, offset).Paged? ==> |AsWritten(index, limit, offset).ids| <= Max(0, limit)
    ensures AsWritten(index, limit, offset).SelectOutOfRange? ==> AsWritten(index, limit, offset).position < 0
    ensures limit <= 0 || |index| == 0 ==> AsWritten(index, limit, offset) == Paged([])
  {
  }

  /** r lies in Full as one run of positions, starting at s. */
  predicate WindowAt(index: seq<Bucket>, r: seq<int>, s: int) {
    0 <= s && s + |r| <= |Full(index)| && Full(index)[s..s + |r|] == r
  }

  /** The page Finish returns lies in Full where bucket j's seek-th id does. */
  lemma FinishWindow(index: seq<Bucket>, limit: int, j: int, seek: int, a: int)
    requires 0 <= j < |index| && 0 <= seek && 0 < a && seek + a <= |index[j].ids.ids|
    ensures Finish(index, limit, j, seek, a).Paged? ==>
              WindowAt(index, Finish(index, limit, j, seek, a).ids, Start(index, j) + seek)
  {
    BucketInFull(index, j, seek, seek + a);
  }

  /** A page lookup returns is a run of consecutive ids of the key-ordered
      listing starting at or after offset; so every id from a smaller key comes
      before every id from a larger key, and ids of one bucket ascend. */
  lemma AsWrittenIsWindow(index: seq<Bucket>, limit: int, offset: int)
    ensures var o := AsWritten(index, limit, offset);
            o.Paged? && o.ids != [] ==> exists s :: offset <= s && WindowAt(index, o.ids, s)
  {
    var o := AsWritten(index, limit, offset);
    if o.Paged? && o.ids != [] {
      var j := Entry(index, offset, 0);
      var seek := offset - Start(index, j);
      var a := Taken(|index[j].ids.ids|, seek, limit);
      if a > 0 {
        FinishWindow(index, limit, j, seek, a);
        assert WindowAt(index, o.ids, offset);
      } else {
        var k := NextNonEmpty(index, j + 1);
        FinishWindow(index, limit, k, 0, Min(limit, |index[k].ids.ids|));
        ListingPrefix(index, j + 1, k);
        assert WindowAt(index, o.ids, Start(index, k));
      }
    }
  }

  /** A page lookup returns never holds ids of two different buckets. */
  lemma AsWrittenOneBucket(index: seq<Bucket>, limit: int, offset: int)
    ensures var o := AsWritten(index, limit, offset);
            o.Paged? && o.ids != [] ==> exists j :: 0 <= j < |index| && Members(o.ids) <= index[j].ids.Elements()
  {
    var o := AsWritten(index, limit, offset);
    if o.Paged? && o.ids != [] {
      var j := Entry(index, offset, 0);
      var seek := offset - Start(index, j);
      var a := Taken(|index[j].ids.ids|, seek, limit);
      var k := if a > 0 then j else NextNonEmpty(index, j + 1);
      assert Members(o.ids) <= index[k].ids.Elements();
    }
  }

  /** lookup returns the intended page when offset is not negative and the
      bucket holding position offset still has limit ids past twice its seek. */
  lemma AgreesWithReference(index: seq<Bucket>, limit: int, offset: int)
    requires 0 <= offset && 0 < limit
    requires var j := Entry(index, offset, 0);
             j < |index| && 2 * (offset - Start(index, j)) + limit <= |index[j].ids.ids|
    ensures AsWritten(index, limit, offset) == Paged(Reference(index, limit, offset))
  {
    var j := Entry(index, offset, 0);
    var seek := offset - Start(index, j);
    FullBucketPage(index, limit, offset);
    BucketInFull(index, j, seek, seek + limit);
    assert Start(index, j) + seek == offset;
    ReferenceInside(Full(index), limit, offset);
  }

  /** When the entry bucket holds the whole page, lookup returns it from there. */
  lemma FullBucketPage(index: seq<Bucket>, limit: int, offset: int)
    requires 0 <= offset && 0 < limit
    requires var j := Entry(index, offset, 0);
             j < |index| && 2 * (offset - Start(index, j)) + limit <= |index[j].ids.ids|
    ensures var j := Entry(index, offset, 0);
            var seek := offset - Start(index, j);
            0 <= seek && AsWritten(index, limit, offset) == Paged(index[j].ids.ids[seek..seek + limit])
  {
    var j := Entry(index, offset, 0);
    var seek := offset - Start(index, j);
    assert Taken(|index[j].ids.ids|, seek, limit) == limit;
  }

  /** A window that lies inside the listing is its slice. */
  lemma ReferenceInside(f: seq<int>, limit: int, offset: int)
    requires 0 <= offset && 0 < limit && offset + limit <= |f|
    ensures Clip(f, limit, offset) == f[offset..offset + limit]
  {
    ClipIsSlice(f, limit, offset);
  }

  /** In particular the first page is right whenever the first bucket can fill it. */
  lemma FirstPageAgrees(index: seq<Bucket>, limit: int)
    requires index != [] && 0 < limit <= |index[0].ids.ids|
    ensures AsWritten(index, limit, 0) == Paged(Reference(index, limit, 0))
    ensures Reference(index, limit, 0) == index[0].ids.ids[..limit]
  {
    StartStep(index, 0);
    AgreesWithReference(index, limit, 0);
    BucketInFull(index, 0, 0, limit);
  }

  /** Start(k) reaching the total means every bucket from k on is empty. */
  lemma {:induction false} EmptyFrom(index: seq<Bucket>, k: int)
    requires 0 <= k <= |index| && Start(index, k) == Start(index, |index|)
    ensures NextNonEmpty(index, k) == |index|
    decreases |index| - k
  {
    if k < |index| {
      StartStep(index, k);
      ListingPrefix(index, k + 1, |index|);
      EmptyFrom(index, k + 1);
    }
  }

  /** An offset at or past the last id yields an empty page, as intended. */
  lemma PastEnd(index: seq<Bucket>, limit: int, offset: int)
    requires |Full(index)| <= offset
    ensures AsWritten(index, limit, offset) == Paged([])
    ensures Reference(index, limit, offset) == []
  {
    if 0 < limit && index != [] {
      var j := Entry(index, offset, 0);
      if j < |index| {
        ListingPrefix(index, j + 1, |index|);
        StartStep(index, j);
        EmptyFrom(index, j + 1);
      }
    }
  }

  /** One bucket {1: [10, 11, 12]}. */
  function OneBucket(): seq<Bucket> {
    [Bucket(1, Bitmap([10, 11, 12]))]
  }

  /** Buckets {1: [10, 11, 12], 2: [20], 3: [30, 31]}. */
  function ThreeBuckets(): seq<Bucket> {
    [Bucket(1, Bitmap([10, 11, 12])), Bucket(2, Bitmap([20])), Bucket(3, Bitmap([30, 31]))]
  }

  /** The inner loop bound cardinality - seek stops short of the bucket's end:
      lookup(1, 2) on OneBucket returns nothing instead of [12]. */
  lemma LoopBoundDropsIds()
    ensures AsWritten(OneBucket(), 1, 2) == Paged([])
    ensures Reference(OneBucket(), 1, 2) == [12]
  {
    var index := OneBucket();
    assert Start(index, 1) == 3;
    assert Entry(index, 2, 0) == 0;
    assert Full(index) == [10, 11, 12];
  }

  /** seen runs past offset in the entry bucket, so the next bucket is entered
      at a negative seek: lookup(2, 1) on ThreeBuckets fails at position -1
      instead of returning [11, 12]. */
  lemma OvershootFails()
    ensures AsWritten(ThreeBuckets(), 2, 1) == SelectOutOfRange(-1)
    ensures Reference(ThreeBuckets(), 2, 1) == [11, 12]
  {
    var index := ThreeBuckets();
    assert Start(index, 1) == 3;
    assert Entry(index, 1, 0) == 0;
    assert Listing(index, 2) == [10, 11, 12, 20];
    assert Full(index) == [10, 11, 12, 20, 30, 31];
  }

  /** Appending an id at a position inside the window extends the window by it. */
  lemma ClipAppend(s: seq<int>, x: int, limit: int, offset: int)
    requires Max(0, offset) <= |s| < Max(0, offset) + Max(0, limit)
    ensures Clip(s + [x], limit, offset) == Clip(s, limit, offset) + [x]
  {
    ClipIsSlice(s, limit, offset);
    ClipIsSlice(s + [x], limit, offset);
  }

  /** A prefix that already covers the window, or is everything, clips alike. */
  lemma ClipOfPrefix(s: seq<int>, t: seq<int>, limit: int, offset: int)
    requires |s| <= |t| && t[..|s|] == s
    requires limit <= 0 || Max(0, offset) + limit <= |s| || |s| == |t|
    ensures Clip(s, limit, offset) == Clip(t, limit, offset)
  {
    ClipIsSlice(s, limit, offset);
    ClipIsSlice(t, limit, offset);
  }

  /** The first i buckets and pos ids of bucket i are where Full begins. */
  lemma PrefixOfFull(index: seq<Bucket>, i: int, pos: int)
    requires 0 <= i < |index| && 0 <= pos <= |index[i].ids.ids|
    ensures Start(index, i) + pos <= |Full(index)|
    ensures Listing(index, i) + index[i].ids.ids[..pos] == Full(index)[..Start(index, i) + pos]
  {
    ListingPrefix(index, i + 1, |index|);
    StartStep(index, i);
    assert Listing(index, i) + index[i].ids.ids[..pos] == Listing(index, i + 1)[..Start(index, i) + pos];
  }

  /** With distinct ids, the id at a position is not yet on a page clipped from
      the positions before it. */
  lemma FreshId(index: seq<Bucket>, i: int, pos: int, limit: int, offset: int)
    requires DistinctIds(index) && 0 <= i < |index| && 0 <= pos < |index[i].ids.ids|
    ensures index[i].ids.ids[pos] !in Clip(Listing(index, i) + index[i].ids.ids[..pos], limit, offset)
  {
    var s := Listing(index, i) + index[i].ids.ids[..pos];
    var n := Start(index, i) + pos;
    PrefixOfFull(index, i, pos);
    BucketInFull(index, i, pos, pos + 1);
    assert Full(index)[n] == index[i].ids.ids[pos];
    var c := Clip(s, limit, offset);
    var m := Min(Max(0, offset), |s|);
    ClipIsSlice(s, limit, offset);
    forall q | 0 <= q < |c| ensures c[q] != Full(index)[n] {
      assert c[q] == s[m + q] == Full(index)[m + q];
    }
  }

  /** Steps of the corrected lookup, each keeping the page equal to the window
      clipped from the ids passed so far. */

  /** A bucket ending before offset leaves the window empty. */
  lemma IntendedSkip(index: seq<Bucket>, i: int, limit: int, offset: int)
    requires 0 <= i < |index| && Start(index, i + 1) < offset
    ensures Clip(Listing(index, i), limit, offset) == [] == Clip(Listing(index, i + 1), limit, offset)
  {
    StartStep(index, i);
  }

  /** Entering bucket i at seek: the positions before seek lie before offset. */
  lemma IntendedEnter(index: seq<Bucket>, i: int, seek: int, limit: int, offset: int)
    requires 0 <= i < |index| && offset <= Start(index, i + 1)
    requires seek == Max(0, offset - Start(index, i))
    ensures seek <= |index[i].ids.ids|
    ensures Clip(Listing(index, i) + index[i].ids.ids[..seek], limit, offset) == Clip(Listing(index, i), limit, offset)
  {
    StartStep(index, i);
    if seek == 0 {
      assert Listing(index, i) + index[i].ids.ids[..seek] == Listing(index, i);
    }
  }

  /** Taking the id at pos of bucket i appends it to the page. */
  lemma IntendedTake(index: seq<Bucket>, i: int, pos: int, limit: int, offset: int, result: seq<int>)
    requires DistinctIds(index) && 0 <= i < |index|
    requires Max(0, offset - Start(index, i)) <= pos < |index[i].ids.ids|
    requires result == Clip(Listing(index, i) + index[i].ids.ids[..pos], limit, offset)
    requires |result| < limit
    ensures AddIfAbsent(result, index[i].ids.ids[pos]) == Clip(Listing(index, i) + index[i].ids.ids[..pos + 1], limit, offset)
  {
    var s := Listing(index, i) + index[i].ids.ids[..pos];
    var x := index[i].ids.ids[pos];
    FreshId(index, i, pos, limit, offset);
    ClipAppend(s, x, limit, offset);
    assert Listing(index, i) + index[i].ids.ids[..pos + 1] == s + [x];
  }

  /** Leaving bucket i, at its end or with a full page. */
  lemma IntendedLeave(index: seq<Bucket>, i: int, pos: int, limit: int, offset: int, result: seq<int>)
    requires 0 <= i < |index| && 0 <= pos <= |index[i].ids.ids|
    requires result == Clip(Listing(index, i) + index[i].ids.ids[..pos], limit, offset)
    requires pos == |index[i].ids.ids| || limit <= |result|
    ensures result == Clip(Listing(index, i + 1), limit, offset)
  {
    StartStep(index, i);
    var s := Listing(index, i) + index[i].ids.ids[..pos];
    assert Listing(index, i + 1)[..|s|] == s;
    ClipIsSlice(s, limit, offset);
    ClipOfPrefix(s, Listing(index, i + 1), limit, offset);
  }

  /** Stopping after bucket i, at the end or with a full page. */
  lemma IntendedDone(index: seq<Bucket>, i: int, limit: int, offset: int, result: seq<int>)
    requires 0 <= i <= |index|
    requires result == Clip(Listing(index, i), limit, offset)
    requires i == |index| || limit <= |result|
    ensures result == Reference(index, limit, offset)
  {
    ListingPrefix(index, i, |index|);
    ClipOfPrefix(Listing(index, i), Full(index), limit, offset);
  }

  /** The inner loop of the corrected lookup: bucket b from pos to its end,
      while the page has room. */
  function IntendedScan(b: Bitmap, pos: int, limit: int, result: seq<int>): seq<int>
    requires 0 <= pos <= |b.ids|
    decreases |b.ids| - pos
  {
    if pos == |b.ids| || limit <= |result| then result
    else IntendedScan(b, pos + 1, limit, AddIfAbsent(result, b.ids[pos]))
  }

  /** The outer loop of the corrected lookup from bucket i on: a bucket ending
      before offset is skipped, any other is entered at max(0, offset - seen),
      and seen advances by whole buckets. */
  function IntendedFrom(index: seq<Bucket>, i: int, limit: int, offset: int, seen: int, result: seq<int>): seq<int>
    requires 0 <= i <= |index|
    decreases |index| - i
  {
    if i == |index| || limit <= |result| then result
    else
      var c := |index[i].ids.ids|;
      if seen + c < offset then IntendedFrom(index, i + 1, limit, offset, seen + c, result)
      else IntendedFrom(index, i + 1, limit, offset, seen + c, IntendedScan(index[i].ids, Max(0, offset - seen), limit, result))
  }

  /** The corrected lookup never returns more than limit ids. */
  lemma {:induction false} IntendedFromBound(index: seq<Bucket>, i: int, limit: int, offset: int, seen: int, result: seq<int>)
    requires 0 <= i <= |index| && |result| <= Max(0, limit)
    ensures |IntendedFrom(index, i, limit, offset, seen, result)| <= Max(0, limit)
    decreases |index| - i
  {
    if i < |index| && |result| < limit {
      var c := |index[i].ids.ids|;
      if seen + c < offset {
        IntendedFromBound(index, i + 1, limit, offset, seen + c, result);
      } else {
        var scanned := IntendedScan(index[i].ids, Max(0, offset - seen), limit, result);
        IntendedScanBound(index[i].ids, Max(0, offset - seen), limit, result);
        IntendedFromBound(index, i + 1, limit, offset, seen + c, scanned);
      }
    }
  }

  lemma {:induction false} IntendedScanBound(b: Bitmap, pos: int, limit: int, result: seq<int>)
    requires 0 <= pos <= |b.ids| && |result| <= Max(0, limit)
    ensures |IntendedScan(b, pos, limit, result)| <= Max(0, limit)
    decreases |b.ids| - pos
  {
    if pos < |b.ids| && |result| < limit {
      IntendedScanBound(b, pos + 1, limit, AddIfAbsent(result, b.ids[pos]));
    }
  }

  /** With distinct ids, scanning bucket i from a position at or past offset
      completes the window clipped from the ids up to the bucket's end. */
  lemma {:induction false} IntendedScanPage(index: seq<Bucket>, i: int, pos: int, limit: int, offset: int, result: seq<int>)
    requires DistinctIds(index) && 0 <= i < |index|
    requires Max(0, offset - Start(index, i)) <= pos <= |index[i].ids.ids|
    requires result == Clip(Listing(index, i) + index[i].ids.ids[..pos], limit, offset)
    ensures IntendedScan(index[i].ids, pos, limit, result) == Clip(Listing(index, i + 1), limit, offset)
    decreases |index[i].ids.ids| - pos
  {
    if pos == |index[i].ids.ids| || limit <= |result| {
      IntendedLeave(index, i, pos, limit, offset, result);
    } else {
      IntendedTake(index, i, pos, limit, offset, result);
      IntendedScanPage(index, i, pos + 1, limit, offset, AddIfAbsent(result, index[i].ids.ids[pos]));
    }
  }

  /** With distinct ids, the corrected lookup continued from bucket i, with the
      window clipped from the buckets before it, ends with the intended page. */
  lemma {:induction false} IntendedFromPage(index: seq<Bucket>, i: int, limit: int, offset: int, result: seq<int>)
    requires DistinctIds(index) && 0 <= i <= |index|
    requires result == Clip(Listing(index, i), limit, offset)
    ensures IntendedFrom(index, i, limit, offset, Start(index, i), result) == Reference(index, limit, offset)
    decreases |index| - i
  {
    if i == |index| || limit <= |result| {
      IntendedDone(index, i, limit, offset, result);
    } else {
      var next := IntendedBucket(index, i, limit, offset, result);
      IntendedFromPage(index, i + 1, limit, offset, next);
    }
  }

  /** One bucket of the corrected lookup, skipped or scanned, extends the
      window by that bucket's ids. */
  lemma IntendedBucket(index: seq<Bucket>, i: int, limit: int, offset: int, result: seq<int>) returns (next: seq<int>)
    requires DistinctIds(index) && 0 <= i < |index| && |result| < limit
    requires result == Clip(Listing(index, i), limit, offset)
    ensures next == Clip(Listing(index, i + 1), limit, offset)
    ensures IntendedFrom(index, i, limit, offset, Start(index, i), result)
         == IntendedFrom(index, i + 1, limit, offset, Start(index, i + 1), next)
  {
    StartStep(index, i);
    var seen := Start(index, i);
    if seen + |index[i].ids.ids| < offset {
      IntendedSkip(index, i, limit, offset);
      next := result;
    } else {
      var seek := Max(0, offset - seen);
      IntendedEnter(index, i, seek, limit, offset);
      IntendedScanPage(index, i, seek, limit, offset, result);
      next := IntendedScan(index[i].ids, seek, limit, result);
    }
  }

  /** The corrected lookup returns the intended page whenever no id occurs twice. */
  lemma LookupIntendedIsReference(index: seq<Bucket>, limit: int, offset: int)
    requires DistinctIds(index)
    ensures IntendedFrom(index, 0, limit, offset, 0, []) == Reference(index, limit, offset)
  {
    IntendedFromPage(index, 0, limit, offset, []);
  }

  /** A page holds limit ids, or fewer when the listing ends before them. */
  lemma ReferenceLength(index: seq<Bucket>, limit: int, offset: int)
    requires 0 <= offset && 0 <= limit
    ensures |Reference(index, limit, offset)| == Max(0, Min(limit, |Full(index)| - offset))
  {
  }

  /** The first m pages of size `size`, one after another. */
  function Pages(index: seq<Bucket>, size: int, m: nat): seq<int> {
    if m == 0 then [] else Pages(index, size, m - 1) + Reference(index, size, (m - 1) * size)
  }

  /** Paging through with offsets 0, size, 2 * size, ... lists every id of
      the index once, in key order, and nothing else. */
  lemma {:induction false} PagesCover(index: seq<Bucket>, size: int, m: nat)
    requires 0 < size
    ensures Pages(index, size, m) == Full(index)[..Min(|Full(index)|, m * size)]
  {
    if m > 0 {
      PagesCover(index, size, m - 1);
      PageOffsets(m, size);
      NextPage(Full(index), size, (m - 1) * size);
    }
  }

  /** Page m - 1 starts at a position that is not negative and ends where page m starts. */
  lemma PageOffsets(m: nat, size: int)
    requires 0 < m && 0 < size
    ensures 0 <= (m - 1) * size && (m - 1) * size + size == m * size
  {
  }

  /** The page at lo continues the listing up to lo where it left off. */
  lemma NextPage(f: seq<int>, size: int, lo: int)
    requires 0 < size && 0 <= lo
    ensures f[..Min(|f|, lo)] + Clip(f, size, lo) == f[..Min(|f|, lo + size)]
  {
    ClipIsSlice(f, size, lo);
    SliceJoin(f, Min(|f|, lo), Min(|f|, lo + size));
  }

  /** A prefix of s and the slice after it make up the longer prefix. */
  lemma SliceJoin(s: seq<int>, lo: int, hi: int)
    requires 0 <= lo <= hi <= |s|
    ensures s[..lo] + s[lo..hi] == s[..hi]
  {
  }
}
