/** OakLongSerializer: a long key is stored as the eight bytes putLong writes
    at the target buffer's position, and read back with getLong there. */
module OakLongSerializer {
  import opened LongCodec
  import opened ByteBuffers

  /** serialize(value, targetBuffer): an absolute putLong at the position. */
  method Serialize(value: Long, targetBuffer: ByteBuffer) returns (r: Result<()>)
    requires targetBuffer.Valid()
    modifies targetBuffer.hb
    ensures r.Success? <==> targetBuffer.position + LONG_BYTES <= targetBuffer.limit
    ensures r.Success? ==>
              var p := targetBuffer.position;
              targetBuffer.hb[..] == old(targetBuffer.hb[..])[..p] + Encode(value, targetBuffer.order) + old(targetBuffer.hb[..])[p + LONG_BYTES..]
    ensures r.Failure? ==> targetBuffer.hb[..] == old(targetBuffer.hb[..])
    ensures r.Success? ==> Deserialize(targetBuffer) == Success(value)
  {
    r := targetBuffer.PutLong(targetBuffer.position, value);
  }

  /** deserialize(byteBuffer): an absolute getLong at the position. */
  function Deserialize(byteBuffer: ByteBuffer): (r: Result<Long>)
    reads byteBuffer, byteBuffer.hb
    requires byteBuffer.Valid()
    ensures r.Success? <==> byteBuffer.position + LONG_BYTES <= byteBuffer.limit
    ensures r.Success? ==>
              Encode(r.value, byteBuffer.order) == byteBuffer.hb[byteBuffer.position..byteBuffer.position + LONG_BYTES]
  {
    byteBuffer.GetLong(byteBuffer.position)
  }

  /** calculateSize(value): Long.BYTES, the length of every encoding. */
  function CalculateSize(value: Long): (n: int)
    ensures n == |Encode(value, BigEndian)| == |Encode(value, LittleEndian)|
  {
    LONG_BYTES
  }

  /** A buffer holding a key's bytes at its position deserializes to that key,
      whatever else it holds. */
  lemma DeserializeEncoded(byteBuffer: ByteBuffer, key: Long)
    requires byteBuffer.Valid() && byteBuffer.position + LONG_BYTES <= byteBuffer.limit
    requires byteBuffer.hb[byteBuffer.position..byteBuffer.position + LONG_BYTES] == Encode(key, byteBuffer.order)
    ensures Deserialize(byteBuffer) == Success(key)
  {
    EncodeInjective(Deserialize(byteBuffer).value, key, byteBuffer.order);
  }
}
