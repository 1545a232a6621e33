/** The node blocks and the metadata record of the vector index (`idx::vector::node`, `idx::vector::meta`). */
module VectorFormats {
  import opened Bytes
  import opened Results
  import opened Checksum

  const VECTOR_NODE_MAGIC: nat := 0x564E_4F44
  const VECTOR_NODE_VERSION: nat := 2
  const NODE_HEADER_LEN: nat := 11
  const VECTOR_META_MAGIC: nat := 0x564D_4554
  const VECTOR_META_VERSION: nat := 1
  const VECTOR_META_LEN: nat := 44
  const DEFAULT_MAX_DEGREE: nat := 32
  const DEFAULT_BEAM_WIDTH: nat := 128
  const DEFAULT_ALPHA: f32 := 0x3F99_999A

  /** A 32-bit float by its bits; no arithmetic on it matters here. */
  type f32 = x: nat | x < U32_LIMIT
  type u64 = x: nat | x < U64_LIMIT

  datatype VectorNode = VectorNode(vector: seq<f32>, neighbors: seq<u64>, deleted: bool)

  datatype VectorParams = VectorParams(dim: nat, maxDegree: nat, beamWidth: nat, alpha: f32) {
    predicate Fits() {
      dim < U16_LIMIT && maxDegree < U16_LIMIT && beamWidth < U16_LIMIT
    }
  }

  datatype VectorIndexMeta = VectorIndexMeta(params: VectorParams, epoch: u64, count: u64, entryPoint: Option<u64>)

  function WithDim(dim: nat): VectorParams {
    VectorParams(dim, DEFAULT_MAX_DEGREE, DEFAULT_BEAM_WIDTH, DEFAULT_ALPHA)
  }

  // ── arrays of numbers ──────────────────────────────────────────────────

  function LeAll(numbers: seq<nat>, width: nat): (r: Bytes)
    ensures |r| == |numbers| * width
  {
    if numbers == [] then []
    else
      var n := |numbers| - 1;
      LeAll(numbers[..n], width) + Le(numbers[n], width)
  }

  function FromLeAll(bytes: Bytes, width: nat, count: nat): (r: seq<nat>)
    requires |bytes| == count * width
    ensures |r| == count && forall i :: 0 <= i < count ==> r[i] < Span(width)
  {
    if count == 0 then []
    else
      var at := (count - 1) * width;
      FromLeCanonical(bytes[at..]);
      FromLeAll(bytes[..at], width, count - 1) + [FromLe(bytes[at..])]
  }

  lemma {:induction false} LeAllRoundTrip(numbers: seq<nat>, width: nat)
    requires forall i :: 0 <= i < |numbers| ==> numbers[i] < Span(width)
    ensures FromLeAll(LeAll(numbers, width), width, |numbers|) == numbers
  {
    hide Le, FromLe;
    if numbers != [] {
      var n := |numbers| - 1;
      LeAllRoundTrip(numbers[..n], width);
      LeRoundTrip(numbers[n], width);
      FromLeAllSnoc(LeAll(numbers[..n], width), Le(numbers[n], width), width, n);
    }
  }

  lemma FromLeAllSnoc(bytes: Bytes, last: Bytes, width: nat, count: nat)
    requires |bytes| == count * width && |last| == width
    ensures |bytes + last| == (count + 1) * width
    ensures FromLeAll(bytes + last, width, count + 1) == FromLeAll(bytes, width, count) + [FromLe(last)]
  {
    hide FromLe;
    assert (bytes + last)[count * width..] == last && (bytes + last)[..count * width] == bytes;
  }

  function Floats(bytes: Bytes, count: nat): (r: seq<f32>)
    requires |bytes| == 4 * count
    ensures r == FromLeAll(bytes, 4, count)
  {
    SpanLiterals();
    FromLeAll(bytes, 4, count)
  }

  function Ids(bytes: Bytes, count: nat): (r: seq<u64>)
    requires |bytes| == 8 * count
    ensures r == FromLeAll(bytes, 8, count)
  {
    SpanLiterals();
    FromLeAll(bytes, 8, count)
  }

  // ── node blocks ────────────────────────────────────────────────────────

  predicate NodeFits(n: VectorNode) {
    |n.vector| < U16_LIMIT && |n.neighbors| < U16_LIMIT
  }

  function NodeHeader(n: VectorNode): Bytes {
    Le(VECTOR_NODE_MAGIC, 4) + Le(VECTOR_NODE_VERSION, 2) + [if n.deleted then 1 else 0] + Le(|n.vector|, 2)
    + Le(|n.neighbors|, 2)
  }

  function NodeBody(n: VectorNode): Bytes {
    NodeHeader(n) + LeAll(n.vector, 4) + LeAll(n.neighbors, 8)
  }

  function NodeBytes(n: VectorNode): Bytes {
    NodeBody(n) + CrcBytes(NodeBody(n))
  }

  function EncodedNode(n: VectorNode): Result<Bytes> {
    if NodeFits(n) then Success(NodeBytes(n)) else Failure(CorruptVectorNode)
  }

  lemma LeAllSnoc(numbers: seq<nat>, i: nat, width: nat)
    requires i < |numbers|
    ensures LeAll(numbers[..i + 1], width) == LeAll(numbers[..i], width) + Le(numbers[i], width)
  {
    assert numbers[..i + 1][..i] == numbers[..i];
  }

  method EncodeNode(n: VectorNode) returns (res: Result<Bytes>)
    ensures res == EncodedNode(n)
  {
    hide Le, LeAll;
    if |n.vector| >= U16_LIMIT || |n.neighbors| >= U16_LIMIT {
      return Failure(CorruptVectorNode);
    }
    var buf := Le(VECTOR_NODE_MAGIC, 4);
    buf := buf + Le(VECTOR_NODE_VERSION, 2);
    buf := buf + [if n.deleted then 1 else 0];
    buf := buf + Le(|n.vector|, 2);
    buf := buf + Le(|n.neighbors|, 2);
    LeNone();
    for i := 0 to |n.vector|
      invariant buf == NodeHeader(n) + LeAll(n.vector[..i], 4)
    {
      LeAllSnoc(n.vector, i, 4);
      buf := buf + Le(n.vector[i], 4);
    }
    assert n.vector[..|n.vector|] == n.vector;
    for i := 0 to |n.neighbors|
      invariant buf == NodeHeader(n) + LeAll(n.vector, 4) + LeAll(n.neighbors[..i], 8)
    {
      LeAllSnoc(n.neighbors, i, 8);
      buf := buf + Le(n.neighbors[i], 8);
    }
    assert n.neighbors[..|n.neighbors|] == n.neighbors;
    var crc := Crc32(buf);
    buf := buf + Le(Value(crc), 4);
    return Success(buf);
  }

  lemma LeNone()
    ensures LeAll([], 4) == [] && LeAll([], 8) == []
  {
  }

  function DecodeNode(buf: Bytes): Result<VectorNode> {
    if |buf| < NODE_HEADER_LEN + CRC_LEN then Failure(CorruptVectorNode)
    else
      var crcAt := |buf| - CRC_LEN;
      if !CrcMatches(buf, crcAt) then Failure(CorruptVectorNode)
      else if FromLe(buf[0..4]) != VECTOR_NODE_MAGIC then Failure(CorruptVectorNode)
      else if FromLe(buf[4..6]) != VECTOR_NODE_VERSION then
        Failure(UnsupportedFormatVersion(VECTOR_NODE_VERSION, FromLe(buf[4..6])))
      else if buf[6] > 1 then Failure(CorruptVectorNode)
      else
        var dim, count := FromLe(buf[7..9]), FromLe(buf[9..11]);
        var middle := NODE_HEADER_LEN + 4 * dim;
        if crcAt != middle + 8 * count then Failure(CorruptVectorNode)
        else
          Success(VectorNode(Floats(buf[NODE_HEADER_LEN..middle], dim), Ids(buf[middle..crcAt], count), buf[6] == 1))
  }

  /** A node reads back as it was written. */
  lemma NodeRoundTrip(n: VectorNode)
    requires NodeFits(n)
    ensures DecodeNode(NodeBytes(n)) == Success(n)
  {
    hide Le, FromLe, Crc, CrcBytes, Value, CrcMatches, LeAll, FromLeAll;
    var buf, body := NodeBytes(n), NodeBody(n);
    var m, v, f: Bytes := Le(VECTOR_NODE_MAGIC, 4), Le(VECTOR_NODE_VERSION, 2), [if n.deleted then 1 else 0];
    var d, c := Le(|n.vector|, 2), Le(|n.neighbors|, 2);
    var vs, ns := LeAll(n.vector, 4), LeAll(n.neighbors, 8);
    SpanLiterals();
    LeRoundTrip(VECTOR_NODE_MAGIC, 4);
    LeRoundTrip(VECTOR_NODE_VERSION, 2);
    LeRoundTrip(|n.vector|, 2);
    LeRoundTrip(|n.neighbors|, 2);
    LeAllRoundTrip(n.vector, 4);
    LeAllRoundTrip(n.neighbors, 8);
    StoredCrcMatches(body, []);
    assert buf == body + CrcBytes(body) + [];
    assert [] + m == m;
    FieldAt(buf, [], m);
    FieldAt(buf, m, v);
    FieldAt(buf, m + v, f);
    FieldAt(buf, m + v + f, d);
    FieldAt(buf, m + v + f + d, c);
    FieldAt(buf, m + v + f + d + c, vs);
    FieldAt(buf, m + v + f + d + c + vs, ns);
    assert buf[6..7] == f && buf[6] == buf[6..7][0];
  }

  // ── the metadata record ────────────────────────────────────────────────

  function VectorMetaBody(m: VectorIndexMeta): Bytes {
    Le(VECTOR_META_MAGIC, 4) + Le(VECTOR_META_VERSION, 2) + Le(m.params.dim, 2) + Le(m.params.maxDegree, 2)
    + Le(m.params.beamWidth, 2) + Le(m.params.alpha, 4) + Le(m.epoch, 8) + Le(m.count, 8)
    + Le(if m.entryPoint.Some? then m.entryPoint.value else 0, 8)
  }

  function VectorMetaBytes(m: VectorIndexMeta): Bytes {
    VectorMetaBody(m) + CrcBytes(VectorMetaBody(m))
  }

  /** Parameters that do not fit their fields are refused, not truncated. */
  function EncodedMeta(m: VectorIndexMeta): Result<Bytes> {
    if m.params.Fits() then Success(VectorMetaBytes(m)) else Failure(CorruptVectorIndexMeta)
  }

  function DecodeVectorMeta(buf: Bytes): Result<VectorIndexMeta> {
    if |buf| != VECTOR_META_LEN then Failure(CorruptVectorIndexMeta)
    else if !CrcMatches(buf, VECTOR_META_LEN - CRC_LEN) then Failure(CorruptVectorIndexMeta)
    else if FromLe(buf[0..4]) != VECTOR_META_MAGIC then Failure(CorruptVectorIndexMeta)
    else if FromLe(buf[4..6]) != VECTOR_META_VERSION then
      Failure(UnsupportedFormatVersion(VECTOR_META_VERSION, FromLe(buf[4..6])))
    else
      WireRanges(buf);
      var params := VectorParams(FromLe(buf[6..8]), FromLe(buf[8..10]), FromLe(buf[10..12]), FromLe(buf[12..16]));
      var count := FromLe(buf[24..32]);
      Success(VectorIndexMeta(params, FromLe(buf[16..24]), count, if count > 0 then Some(FromLe(buf[32..40])) else None))
  }

  lemma WireRanges(buf: Bytes)
    requires |buf| == VECTOR_META_LEN
    ensures FromLe(buf[6..8]) < U16_LIMIT && FromLe(buf[8..10]) < U16_LIMIT && FromLe(buf[10..12]) < U16_LIMIT
    ensures FromLe(buf[12..16]) < U32_LIMIT && FromLe(buf[16..24]) < U64_LIMIT && FromLe(buf[24..32]) < U64_LIMIT
    ensures FromLe(buf[32..40]) < U64_LIMIT
  {
    hide FromLe;
    SpanLiterals();
    FromLeCanonical(buf[6..8]);
    FromLeCanonical(buf[8..10]);
    FromLeCanonical(buf[10..12]);
    FromLeCanonical(buf[12..16]);
    FromLeCanonical(buf[16..24]);
    FromLeCanonical(buf[24..32]);
    FromLeCanonical(buf[32..40]);
  }

  /** Whatever decodes fits its fields again. */
  lemma DecodedMetaFits(buf: Bytes)
    requires DecodeVectorMeta(buf).Success?
    ensures DecodeVectorMeta(buf).value.params.Fits()
  {
    hide FromLe, CrcMatches;
    WireRanges(buf);
  }

  /** A record reads back as it was written exactly when it has an entry point if and only if it counts a node. */
  lemma VectorMetaRoundTrip(m: VectorIndexMeta)
    requires m.params.Fits()
    ensures DecodeVectorMeta(VectorMetaBytes(m)) == Success(m) <==> (m.entryPoint.Some? <==> m.count > 0)
    ensures DecodeVectorMeta(VectorMetaBytes(m)).Success?
  {
    hide Le, FromLe, Crc, CrcBytes, Value, CrcMatches;
    var buf, body := VectorMetaBytes(m), VectorMetaBody(m);
    var x, v, d, r := Le(VECTOR_META_MAGIC, 4), Le(VECTOR_META_VERSION, 2), Le(m.params.dim, 2), Le(m.params.maxDegree, 2);
    var w, a, e, c := Le(m.params.beamWidth, 2), Le(m.params.alpha, 4), Le(m.epoch, 8), Le(m.count, 8);
    var entry := if m.entryPoint.Some? then m.entryPoint.value else 0;
    var p := Le(entry, 8);
    SpanLiterals();
    LeRoundTrip(VECTOR_META_MAGIC, 4);
    LeRoundTrip(VECTOR_META_VERSION, 2);
    LeRoundTrip(m.params.dim, 2);
    LeRoundTrip(m.params.maxDegree, 2);
    LeRoundTrip(m.params.beamWidth, 2);
    LeRoundTrip(m.params.alpha, 4);
    LeRoundTrip(m.epoch, 8);
    LeRoundTrip(m.count, 8);
    LeRoundTrip(entry, 8);
    StoredCrcMatches(body, []);
    assert buf == body + CrcBytes(body) + [];
    assert [] + x == x;
    FieldAt(buf, [], x);
    FieldAt(buf, x, v);
    FieldAt(buf, x + v, d);
    FieldAt(buf, x + v + d, r);
    FieldAt(buf, x + v + d + r, w);
    FieldAt(buf, x + v + d + r + w, a);
    FieldAt(buf, x + v + d + r + w + a, e);
    FieldAt(buf, x + v + d + r + w + a + e, c);
    FieldAt(buf, x + v + d + r + w + a + e + c, p);
  }
}
