/** The index proper: a TreeMap from column value to bitmap, modelled as the
    sequence of its entries in ascending key order, which is the order in which
    the source iterates it. */
module TreeMaps {
  import opened Bitmaps

  /** One entry of the index: a column value and the ids of the rows holding it. */
  datatype Bucket = Bucket(key: int, ids: Bitmap)

  datatype Option<T> = None | Some(value: T)

  predicate KeysAscending(t: seq<Bucket>) {
    forall i, j :: 0 <= i < j < |t| ==> t[i].key < t[j].key
  }

  /** What every TreeMap<Long, Roaring64NavigableMap> is: keys strictly
      ascending, each value a well-formed bitmap. */
  predicate IsTreeMap(t: seq<Bucket>) {
    KeysAscending(t) && forall i :: 0 <= i < |t| ==> t[i].ids.Valid()
  }

  /** The map the entry sequence stands for. */
  function AsMap(t: seq<Bucket>): (m: map<int, Bitmap>)
    ensures forall i :: 0 <= i < |t| ==> t[i].key in m
  {
    if t == [] then map[] else AsMap(t[1..])[t[0].key := t[0].ids]
  }

  /** A bound below every entry's key bounds every key of the map. */
  lemma {:induction false} KeysAbove(t: seq<Bucket>, lo: int)
    requires forall i :: 0 <= i < |t| ==> lo < t[i].key
    ensures forall k :: k in AsMap(t) ==> lo < k
  {
    if t != [] {
      KeysAbove(t[1..], lo);
    }
  }

  /** Every value of a TreeMap is a well-formed bitmap. */
  lemma {:induction false} ValuesValid(t: seq<Bucket>)
    requires forall i :: 0 <= i < |t| ==> t[i].ids.Valid()
    ensures forall k :: k in AsMap(t) ==> AsMap(t)[k].Valid()
  {
    if t != [] {
      ValuesValid(t[1..]);
    }
  }

  /** Without its first entry a TreeMap is still one, holding every key but the least. */
  lemma Tail(t: seq<Bucket>)
    requires IsTreeMap(t) && t != []
    ensures IsTreeMap(t[1..])
    ensures AsMap(t) == AsMap(t[1..])[t[0].key := t[0].ids]
    ensures forall k :: k in AsMap(t[1..]) ==> t[0].key < k
  {
    KeysAbove(t[1..], t[0].key);
  }

  /** In a TreeMap each entry is what the map holds under its key. */
  lemma {:induction false} EntryIsMapped(t: seq<Bucket>, i: int)
    requires IsTreeMap(t) && 0 <= i < |t|
    ensures AsMap(t)[t[i].key] == t[i].ids
  {
    Tail(t);
    if i > 0 {
      assert t[1..][i - 1] == t[i];
      EntryIsMapped(t[1..], i - 1);
    }
  }

  /** TreeMap.size() counts the distinct keys. */
  lemma {:induction false} SizeIsKeyCount(t: seq<Bucket>)
    requires IsTreeMap(t)
    ensures |AsMap(t).Keys| == |t|
  {
    if t != [] {
      Tail(t);
      SizeIsKeyCount(t[1..]);
      assert AsMap(t).Keys == AsMap(t[1..]).Keys + {t[0].key};
    }
  }

  /** TreeMap.get(key): the bitmap stored under key, or nothing (Java's null). */
  function Find(t: seq<Bucket>, key: int): (r: Option<Bitmap>)
    ensures r.Some? <==> key in AsMap(t)
    ensures r.Some? ==> r.value == AsMap(t)[key]
  {
    if t == [] then None
    else if t[0].key == key then Some(t[0].ids)
    else Find(t[1..], key)
  }

  /** The keys in ascending order (TreeMap.keySet()). */
  function KeyList(t: seq<Bucket>): (ks: seq<int>)
    requires IsTreeMap(t)
    ensures Ascending(ks)
    ensures forall k :: k in ks <==> k in AsMap(t)
  {
    if t == [] then []
    else
      Tail(t);
      var rest := KeyList(t[1..]);
      Prepend(t[0].key, rest);
      [t[0].key] + rest
  }

  /** The bucket stored under key after or-ing b into it. */
  function Joined(m: map<int, Bitmap>, key: int, b: Bitmap): Bitmap
    requires key in m ==> m[key].Valid()
    requires b.Valid()
  {
    if key in m then m[key].Or(b) else Empty().Or(b)
  }

  /** merged.computeIfAbsent(key, k -> new Roaring64NavigableMap()).or(b): the
      bucket under key becomes its union with b, created empty if absent. */
  function Upsert(t: seq<Bucket>, key: int, b: Bitmap): (r: seq<Bucket>)
    requires IsTreeMap(t) && b.Valid()
    ensures key in AsMap(t) ==> AsMap(t)[key].Valid()
    ensures IsTreeMap(r)
    ensures AsMap(r) == AsMap(t)[key := Joined(AsMap(t), key, b)]
  {
    ValuesValid(t);
    if t == [] then [Bucket(key, Empty().Or(b))]
    else if key < t[0].key then
      UpsertBefore(t, key, b);
      [Bucket(key, Empty().Or(b))] + t
    else if key == t[0].key then
      UpsertAt(t, b);
      [Bucket(key, t[0].ids.Or(b))] + t[1..]
    else
      Tail(t);
      ValuesValid(t[1..]);
      var rest := Upsert(t[1..], key, b);
      UpsertAfter(t, key, b, rest);
      [t[0]] + rest
  }

  lemma UpsertBefore(t: seq<Bucket>, key: int, b: Bitmap)
    requires IsTreeMap(t) && b.Valid() && t != [] && key < t[0].key
    ensures IsTreeMap([Bucket(key, Empty().Or(b))] + t)
    ensures key !in AsMap(t)
    ensures AsMap([Bucket(key, Empty().Or(b))] + t) == AsMap(t)[key := Empty().Or(b)]
  {
    KeysAbove(t, key);
    assert ([Bucket(key, Empty().Or(b))] + t)[1..] == t;
  }

  lemma UpsertAt(t: seq<Bucket>, b: Bitmap)
    requires IsTreeMap(t) && b.Valid() && t != []
    ensures t[0].ids.Valid()
    ensures IsTreeMap([Bucket(t[0].key, t[0].ids.Or(b))] + t[1..])
    ensures AsMap(t)[t[0].key] == t[0].ids
    ensures AsMap([Bucket(t[0].key, t[0].ids.Or(b))] + t[1..]) == AsMap(t)[t[0].key := t[0].ids.Or(b)]
  {
    var k := t[0].key;
    var joined := t[0].ids.Or(b);
    var r := [Bucket(k, joined)] + t[1..];
    assert r[1..] == t[1..];
    forall i | 1 <= i < |r| ensures r[i] == t[i] {
    }
    assert KeysAscending(r);
    assert AsMap(r) == AsMap(t[1..])[k := joined];
    assert AsMap(t) == AsMap(t[1..])[k := t[0].ids];
  }

  lemma UpsertAfter(t: seq<Bucket>, key: int, b: Bitmap, rest: seq<Bucket>)
    requires IsTreeMap(t) && b.Valid() && t != [] && t[0].key < key
    requires IsTreeMap(t[1..]) && IsTreeMap(rest)
    requires forall k :: k in AsMap(t[1..]) ==> AsMap(t[1..])[k].Valid()
    requires AsMap(rest) == AsMap(t[1..])[key := Joined(AsMap(t[1..]), key, b)]
    ensures forall k :: k in AsMap(t) ==> AsMap(t)[k].Valid()
    ensures IsTreeMap([t[0]] + rest)
    ensures AsMap([t[0]] + rest) == AsMap(t)[key := Joined(AsMap(t), key, b)]
  {
    Tail(t);
    ValuesValid(t);
    ConsTreeMap(t[0], rest);
    assert Joined(AsMap(t[1..]), key, b) == Joined(AsMap(t), key, b);
  }

  /** An entry whose key is below every key of a TreeMap goes in front of it. */
  lemma ConsTreeMap(e: Bucket, rest: seq<Bucket>)
    requires IsTreeMap(rest) && e.ids.Valid()
    requires forall k :: k in AsMap(rest) ==> e.key < k
    ensures IsTreeMap([e] + rest)
    ensures AsMap([e] + rest) == AsMap(rest)[e.key := e.ids]
  {
    var r := [e] + rest;
    assert r[1..] == rest;
    forall j | 0 <= j < |rest| ensures e.key < rest[j].key {
      assert rest[j].key in AsMap(rest);
    }
  }

  /** The first entry of a non-empty TreeMap holds its least key. */
  lemma FirstIsLeast(t: seq<Bucket>)
    requires IsTreeMap(t) && t != []
    ensures t[0].key in AsMap(t)
    ensures forall k :: k in AsMap(t) ==> t[0].key <= k
    ensures AsMap(t)[t[0].key] == t[0].ids
    ensures AsMap(t[1..]) == AsMap(t) - {t[0].key}
  {
    Tail(t);
    KeysAbove(t, t[0].key - 1);
  }

  /** A TreeMap is determined by the map it stands for. */
  lemma {:induction false} Canonical(t1: seq<Bucket>, t2: seq<Bucket>)
    requires IsTreeMap(t1) && IsTreeMap(t2)
    requires AsMap(t1) == AsMap(t2)
    ensures t1 == t2
  {
    SizeIsKeyCount(t1);
    SizeIsKeyCount(t2);
    if t1 != [] {
      FirstIsLeast(t1);
      FirstIsLeast(t2);
      assert t1[0] == t2[0];
      Tail(t1);
      Tail(t2);
      Canonical(t1[1..], t2[1..]);
      assert t1 == [t1[0]] + t1[1..] && t2 == [t2[0]] + t2[1..];
    }
  }
}
