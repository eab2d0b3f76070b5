/** OakLongComparator: the natural order of longs, applied to two keys, to two
    serialized keys, or to a serialized key and a key. The serialized forms are
    read with absolute getLong calls, so comparing changes no buffer. */
module OakLongComparator {
  import opened LongCodec
  import opened ByteBuffers
  import opened OakLongSerializer

  /** compareKeys: Long.compareTo, which answers -1, 0 or 1. */
  function CompareKeys(key1: Long, key2: Long): (c: int)
    ensures c == -1 || c == 0 || c == 1
    ensures c < 0 <==> key1 < key2
    ensures c == 0 <==> key1 == key2
    ensures c > 0 <==> key1 > key2
  {
    if key1 < key2 then -1 else if key1 == key2 then 0 else 1
  }

  lemma CompareAntisymmetric(key1: Long, key2: Long)
    ensures CompareKeys(key1, key2) == -CompareKeys(key2, key1)
  {
  }

  lemma CompareTransitive(key1: Long, key2: Long, key3: Long)
    requires CompareKeys(key1, key2) <= 0 && CompareKeys(key2, key3) <= 0
    ensures CompareKeys(key1, key3) <= 0
  {
  }

  /** compareSerializedKeys: compareKeys of the longs read at each buffer's
      position; fails if either read does. */
  function CompareSerializedKeys(serializedKey1: ByteBuffer, serializedKey2: ByteBuffer): (r: Result<int>)
    reads serializedKey1, serializedKey1.hb, serializedKey2, serializedKey2.hb
    requires serializedKey1.Valid() && serializedKey2.Valid()
    ensures r.Success? <==> Deserialize(serializedKey1).Success? && Deserialize(serializedKey2).Success?
    ensures r.Success? ==> r.value == CompareKeys(Deserialize(serializedKey1).value, Deserialize(serializedKey2).value)
  {
    match serializedKey1.GetLong(serializedKey1.position)
    case Failure(e) => Failure(e)
    case Success(key1) =>
      match serializedKey2.GetLong(serializedKey2.position)
      case Failure(e) => Failure(e)
      case Success(key2) => Success(CompareKeys(key1, key2))
  }

  /** compareSerializedKeyAndKey: compareKeys of the long read at the buffer's
      position and key2; fails if the read does. */
  function CompareSerializedKeyAndKey(serializedKey: ByteBuffer, key2: Long): (r: Result<int>)
    reads serializedKey, serializedKey.hb
    requires serializedKey.Valid()
    ensures r.Success? <==> Deserialize(serializedKey).Success?
    ensures r.Success? ==> r.value == CompareKeys(Deserialize(serializedKey).value, key2)
  {
    match serializedKey.GetLong(serializedKey.position)
    case Failure(e) => Failure(e)
    case Success(key1) => Success(CompareKeys(key1, key2))
  }

  /** Comparing two serialized keys orders them as the keys themselves, each
      buffer in its own byte order. */
  lemma SerializedOrderAgrees(serializedKey1: ByteBuffer, key1: Long, serializedKey2: ByteBuffer, key2: Long)
    requires serializedKey1.Valid() && serializedKey2.Valid()
    requires serializedKey1.position + LONG_BYTES <= serializedKey1.limit
    requires serializedKey2.position + LONG_BYTES <= serializedKey2.limit
    requires serializedKey1.hb[serializedKey1.position..serializedKey1.position + LONG_BYTES] == Encode(key1, serializedKey1.order)
    requires serializedKey2.hb[serializedKey2.position..serializedKey2.position + LONG_BYTES] == Encode(key2, serializedKey2.order)
    ensures CompareSerializedKeys(serializedKey1, serializedKey2) == Success(CompareKeys(key1, key2))
  {
    DeserializeEncoded(serializedKey1, key1);
    DeserializeEncoded(serializedKey2, key2);
  }

  /** Comparing a serialized key with a key orders them as the two keys. */
  lemma SerializedKeyAndKeyAgrees(serializedKey: ByteBuffer, key1: Long, key2: Long)
    requires serializedKey.Valid() && serializedKey.position + LONG_BYTES <= serializedKey.limit
    requires serializedKey.hb[serializedKey.position..serializedKey.position + LONG_BYTES] == Encode(key1, serializedKey.order)
    ensures CompareSerializedKeyAndKey(serializedKey, key2) == Success(CompareKeys(key1, key2))
  {
    DeserializeEncoded(serializedKey, key1);
  }
}
