/** The two fixed records of the memory index (`idx::memory::vecmap`, `idx::memory::meta`): the owner of a
    vector id, and the id allocator. */
module MemoryFormats {
  import opened Bytes
  import opened Results
  import opened Checksum

  const VECMAP_MAGIC: nat := 0x4D56_4D50
  const META_MAGIC: nat := 0x4D4D_4554
  const VERSION: nat := 1
  const VECMAP_HEADER_LEN: nat := 14
  const META_LEN: nat := 18

  datatype VecMapEntry = VecMapEntry(agent: Bytes, id: Bytes)

  function VecMapBody(e: VecMapEntry): Bytes {
    Le(VECMAP_MAGIC, 4) + Le(VERSION, 2) + Le(|e.agent|, 4) + Le(|e.id|, 4) + e.agent + e.id
  }

  function VecMapBytes(e: VecMapEntry): Bytes {
    VecMapBody(e) + CrcBytes(VecMapBody(e))
  }

  /** Lengths that do not fit are refused, not truncated. */
  method EncodeVecMap(e: VecMapEntry) returns (res: Result<Bytes>)
    ensures res == if |e.agent| < U32_LIMIT && |e.id| < U32_LIMIT then Success(VecMapBytes(e))
                   else Failure(CorruptMemoryVecMap)
  {
    if |e.agent| >= U32_LIMIT || |e.id| >= U32_LIMIT {
      return Failure(CorruptMemoryVecMap);
    }
    var buf := Le(VECMAP_MAGIC, 4);
    buf := buf + Le(VERSION, 2);
    buf := buf + Le(|e.agent|, 4);
    buf := buf + Le(|e.id|, 4);
    buf := buf + e.agent;
    buf := buf + e.id;
    var crc := Crc32(buf);
    buf := buf + Le(Value(crc), 4);
    return Success(buf);
  }

  function DecodeVecMap(buf: Bytes): Result<VecMapEntry> {
    if |buf| < VECMAP_HEADER_LEN + 4 then Failure(CorruptMemoryVecMap)
    else
      var crcAt := |buf| - 4;
      if !CrcMatches(buf, crcAt) then Failure(CorruptMemoryVecMap)
      else if FromLe(buf[0..4]) != VECMAP_MAGIC then Failure(CorruptMemoryVecMap)
      else if FromLe(buf[4..6]) != VERSION then Failure(UnsupportedFormatVersion(VERSION, FromLe(buf[4..6])))
      else
        var agentLen, idLen := FromLe(buf[6..10]), FromLe(buf[10..14]);
        if VECMAP_HEADER_LEN + agentLen + idLen != crcAt then Failure(CorruptMemoryVecMap)
        else Success(VecMapEntry(buf[14..14 + agentLen], buf[14 + agentLen..crcAt]))
  }

  lemma VecMapRoundTrip(e: VecMapEntry)
    requires |e.agent| < U32_LIMIT && |e.id| < U32_LIMIT
    ensures DecodeVecMap(VecMapBytes(e)) == Success(e)
  {
    hide Le, FromLe, Crc, CrcBytes, Value, CrcMatches;
    var buf, body := VecMapBytes(e), VecMapBody(e);
    var m, v, a, i := Le(VECMAP_MAGIC, 4), Le(VERSION, 2), Le(|e.agent|, 4), Le(|e.id|, 4);
    SpanLiterals();
    LeRoundTrip(VECMAP_MAGIC, 4);
    LeRoundTrip(VERSION, 2);
    LeRoundTrip(|e.agent|, 4);
    LeRoundTrip(|e.id|, 4);
    StoredCrcMatches(body, []);
    assert buf == body + CrcBytes(body) + [];
    assert [] + m == m;
    FieldAt(buf, [], m);
    FieldAt(buf, m, v);
    FieldAt(buf, m + v, a);
    FieldAt(buf, m + v + a, i);
    FieldAt(buf, m + v + a + i, e.agent);
    FieldAt(buf, m + v + a + i + e.agent, e.id);
  }

  function MetaBody(next: nat): Bytes {
    Le(META_MAGIC, 4) + Le(VERSION, 2) + Le(next, 8)
  }

  function MetaBytes(next: nat): Bytes {
    MetaBody(next) + CrcBytes(MetaBody(next))
  }

  function DecodeMeta(buf: Bytes): Result<nat> {
    if |buf| != META_LEN then Failure(CorruptMemoryIndexMeta)
    else if !CrcMatches(buf, META_LEN - 4) then Failure(CorruptMemoryIndexMeta)
    else if FromLe(buf[0..4]) != META_MAGIC then Failure(CorruptMemoryIndexMeta)
    else if FromLe(buf[4..6]) != VERSION then Failure(UnsupportedFormatVersion(VERSION, FromLe(buf[4..6])))
    else Success(FromLe(buf[6..14]))
  }

  lemma MetaRoundTrip(next: nat)
    requires next < U64_LIMIT
    ensures DecodeMeta(MetaBytes(next)) == Success(next)
  {
    hide Le, FromLe, Crc, CrcBytes, Value, CrcMatches;
    var buf, body := MetaBytes(next), MetaBody(next);
    var m, v, n := Le(META_MAGIC, 4), Le(VERSION, 2), Le(next, 8);
    SpanLiterals();
    LeRoundTrip(META_MAGIC, 4);
    LeRoundTrip(VERSION, 2);
    LeRoundTrip(next, 8);
    StoredCrcMatches(body, []);
    assert buf == body + CrcBytes(body) + [];
    assert [] + m == m;
    FieldAt(buf, [], m);
    FieldAt(buf, m, v);
    FieldAt(buf, m + v, n);
  }
}
