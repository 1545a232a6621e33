/** The write-ahead-log record codec (`format::wal`): single records and batches. */
module WalFormat {
  import opened Bytes
  import opened Checksum
  import opened Results

  const WAL_MAGIC: nat := 0x4241_5345
  const WAL_RECORD_VERSION: nat := 2
  const HEADER_LEN: nat := 15
  const MAX_BATCH_OPS: nat := 10_000

  datatype WalOp = Put | Delete | Batch

  datatype WalRecord = WalRecord(op: WalOp, key: Bytes, value: Option<Bytes>)

  /** A sub-operation of a batch. */
  datatype BatchOp = BatchOp(op: WalOp, key: Bytes, value: Option<Bytes>)

  function Tag(op: WalOp): byte {
    match op
    case Put => 1
    case Delete => 2
    case Batch => 3
  }

  function FromTag(tag: byte): Option<WalOp> {
    match tag
    case 1 => Some(Put)
    case 2 => Some(Delete)
    case 3 => Some(Batch)
    case _ => None
  }

  /** `value.unwrap_or(&[])` */
  function Payload(value: Option<Bytes>): Bytes {
    if value.Some? then value.value else []
  }

  // ── the bytes of a record ──────────────────────────────────────────────

  function Header(op: WalOp, keyLen: nat, valLen: nat): (r: Bytes)
    ensures |r| == HEADER_LEN
  {
    Le(WAL_MAGIC, 4) + Le(WAL_RECORD_VERSION, 2) + [Tag(op)] + Le(keyLen, 4) + Le(valLen, 4)
  }

  function Body(r: WalRecord): Bytes {
    Header(r.op, |r.key|, |Payload(r.value)|) + r.key + Payload(r.value)
  }

  function Encoded(r: WalRecord): Bytes {
    Body(r) + CrcBytes(Body(r))
  }

  predicate LengthsFit(r: WalRecord) {
    |r.key| < U32_LIMIT && |Payload(r.value)| < U32_LIMIT
  }

  /** The records whose shape the decoder accepts. */
  predicate Acceptable(r: WalRecord) {
    && (r.op.Delete? ==> Payload(r.value) == [])
    && (r.op.Batch? ==> r.key == [])
  }

  /** How an accepted record comes back: the operation alone decides whether there is a value. */
  function Normal(r: WalRecord): WalRecord {
    r.(value := if r.op.Delete? then None else Some(Payload(r.value)))
  }

  predicate WellFormed(r: WalRecord) {
    LengthsFit(r) && Acceptable(r) && Normal(r) == r
  }

  /** Decodes one record from the front of `buf`: `None` is a torn tail, an error is corruption. */
  function Decode(buf: Bytes): (res: Result<Option<(WalRecord, nat)>>)
    ensures res.Success? && res.value.Some? ==> HEADER_LEN < res.value.value.1 <= |buf|
  {
    if |buf| < HEADER_LEN then Success(None)
    else if FromLe(buf[0..4]) != WAL_MAGIC then Failure(CorruptWal)
    else if FromLe(buf[4..6]) != WAL_RECORD_VERSION then
      Failure(UnsupportedFormatVersion(WAL_RECORD_VERSION, FromLe(buf[4..6])))
    else match FromTag(buf[6])
      case None => Failure(CorruptWal)
      case Some(op) =>
        var keyLen, valLen := FromLe(buf[7..11]), FromLe(buf[11..15]);
        var bodyEnd := HEADER_LEN + keyLen + valLen;
        if |buf| < bodyEnd + CRC_LEN then Success(None)
        else if op.Delete? && valLen != 0 then Failure(CorruptWal)
        else if op.Batch? && keyLen != 0 then Failure(CorruptWal)
        else if Value(Crc(buf[..bodyEnd])) != FromLe(buf[bodyEnd..bodyEnd + CRC_LEN]) then Failure(CorruptWal)
        else
          var key := buf[HEADER_LEN..HEADER_LEN + keyLen];
          var value := if op.Delete? then None else Some(buf[HEADER_LEN + keyLen..bodyEnd]);
          Success(Some((WalRecord(op, key, value), bodyEnd + CRC_LEN)))
  }

  method Encode(op: WalOp, key: Bytes, value: Option<Bytes>) returns (buf: Bytes)
    ensures buf == Encoded(WalRecord(op, key, value))
  {
    var valBytes := Payload(value);
    buf := Le(WAL_MAGIC, 4);
    buf := buf + Le(WAL_RECORD_VERSION, 2);
    buf := buf + [Tag(op)];
    buf := buf + Le(|key|, 4);
    buf := buf + Le(|valBytes|, 4);
    buf := buf + key;
    buf := buf + valBytes;
    var crc := Crc32(buf);
    buf := buf + Le(Value(crc), 4);
  }

  lemma HeaderFields(op: WalOp, keyLen: nat, valLen: nat)
    requires keyLen < U32_LIMIT && valLen < U32_LIMIT
    ensures var h := Header(op, keyLen, valLen);
      && FromLe(h[0..4]) == WAL_MAGIC && FromLe(h[4..6]) == WAL_RECORD_VERSION && FromTag(h[6]) == Some(op)
      && FromLe(h[7..11]) == keyLen && FromLe(h[11..15]) == valLen
  {
    hide Le;
    var h := Header(op, keyLen, valLen);
    SpanLiterals();
    var m, v, k, l := Le(WAL_MAGIC, 4), Le(WAL_RECORD_VERSION, 2), Le(keyLen, 4), Le(valLen, 4);
    assert h[0..4] == m;
    Middle(m, v, [Tag(op)] + k + l);
    assert h == m + v + ([Tag(op)] + k + l);
    Middle(m + v + [Tag(op)], k, l);
    Middle(m + v + [Tag(op)] + k, l, []);
    assert h == (m + v + [Tag(op)] + k) + l + [];
    LeRoundTrip(WAL_MAGIC, 4);
    LeRoundTrip(WAL_RECORD_VERSION, 2);
    LeRoundTrip(keyLen, 4);
    LeRoundTrip(valLen, 4);
  }

  /** What decoding makes of any encoded record, whatever bytes follow it. */
  lemma DecodeEncoded(r: WalRecord, tail: Bytes)
    requires LengthsFit(r)
    ensures Decode(Encoded(r) + tail) ==
            if Acceptable(r) then Success(Some((Normal(r), |Encoded(r)|))) else Failure(CorruptWal)
  {
    hide Crc, CrcBytes, Value, Le, FromLe;
    var buf, val := Encoded(r) + tail, Payload(r.value);
    var h := Header(r.op, |r.key|, |val|);
    HeaderFields(r.op, |r.key|, |val|);
    assert buf[..HEADER_LEN] == h;
    assert buf[0..4] == h[0..4] && buf[4..6] == h[4..6] && buf[7..11] == h[7..11] && buf[11..15] == h[11..15];
    var bodyEnd := HEADER_LEN + |r.key| + |val|;
    assert buf[..bodyEnd] == Body(r);
    assert buf[bodyEnd..bodyEnd + CRC_LEN] == CrcBytes(Body(r));
    StoredCrc(Body(r));
    assert buf[HEADER_LEN..HEADER_LEN + |r.key|] == r.key;
    assert buf[HEADER_LEN + |r.key|..bodyEnd] == val;
  }

  lemma EncodedNonEmpty(r: WalRecord)
    ensures |Encoded(r)| == HEADER_LEN + |r.key| + |Payload(r.value)| + CRC_LEN
  {
  }

  /** A record cut short anywhere reads as a torn tail, never as an error. */
  lemma DecodeTorn(r: WalRecord, cut: nat)
    requires LengthsFit(r) && cut < |Encoded(r)|
    ensures Decode(Encoded(r)[..cut]) == Success(None)
  {
    hide Crc, CrcBytes, Value, Le, FromLe;
    if HEADER_LEN <= cut {
      var buf, val := Encoded(r)[..cut], Payload(r.value);
      var h := Header(r.op, |r.key|, |val|);
      HeaderFields(r.op, |r.key|, |val|);
      assert buf[..HEADER_LEN] == h;
      assert buf[0..4] == h[0..4] && buf[4..6] == h[4..6] && buf[7..11] == h[7..11] && buf[11..15] == h[11..15];
    }
  }

  /** Decoding is canonical: the consumed bytes are exactly the encoding of the result. */
  lemma DecodeCanonical(buf: Bytes)
    requires Decode(buf).Success? && Decode(buf).value.Some?
    ensures var (r, consumed) := Decode(buf).value.value;
      WellFormed(r) && buf[..consumed] == Encoded(r)
  {
    hide Crc, Value, Le, FromLe;
    var (r, consumed) := Decode(buf).value.value;
    var keyLen, valLen := FromLe(buf[7..11]), FromLe(buf[11..15]);
    var bodyEnd := HEADER_LEN + keyLen + valLen;
    SpanLiterals();
    FromLeCanonical(buf[0..4]);
    FromLeCanonical(buf[4..6]);
    FromLeCanonical(buf[7..11]);
    FromLeCanonical(buf[11..15]);
    FromLeCanonical(buf[bodyEnd..bodyEnd + CRC_LEN]);
    assert buf[..HEADER_LEN] == buf[0..4] + buf[4..6] + [buf[6]] + buf[7..11] + buf[11..15];
    assert buf[..bodyEnd] == buf[..HEADER_LEN] + r.key + Payload(r.value);
    assert buf[..consumed] == buf[..bodyEnd] + buf[bodyEnd..bodyEnd + CRC_LEN];
  }

  // ── batches ────────────────────────────────────────────────────────────

  function SubOp(op: BatchOp): Bytes {
    [Tag(op.op)] + Le(|op.key|, 4) + Le(|Payload(op.value)|, 4) + op.key + Payload(op.value)
  }

  function SubOps(ops: seq<BatchOp>): Bytes {
    if ops == [] then [] else SubOp(ops[0]) + SubOps(ops[1..])
  }

  function BatchPayload(ops: seq<BatchOp>): Bytes {
    Le(|ops|, 4) + SubOps(ops)
  }

  predicate SubOpWellFormed(op: BatchOp) {
    && !op.op.Batch?
    && (op.op.Delete? <==> op.value.None?)
    && |op.key| < U32_LIMIT && |Payload(op.value)| < U32_LIMIT
  }

  predicate SubOpsWellFormed(ops: seq<BatchOp>) {
    forall i :: 0 <= i < |ops| ==> SubOpWellFormed(ops[i])
  }

  /** One sub-operation from the front of `buf`, and the bytes it takes. */
  function ParseSubOp(buf: Bytes): (res: Result<(BatchOp, nat)>)
    ensures res.Success? ==> 9 <= res.value.1 <= |buf|
  {
    if |buf| < 9 then Failure(CorruptWal)
    else match FromTag(buf[0])
      case None => Failure(CorruptWal)
      case Some(op) =>
        var keyLen, valLen := FromLe(buf[1..5]), FromLe(buf[5..9]);
        if op.Batch? then Failure(CorruptWal)
        else if |buf| < 9 + keyLen + valLen then Failure(CorruptWal)
        else if op.Delete? && valLen != 0 then Failure(CorruptWal)
        else
          var value := if op.Delete? then None else Some(buf[9 + keyLen..9 + keyLen + valLen]);
          Success((BatchOp(op, buf[9..9 + keyLen], value), 9 + keyLen + valLen))
  }

  /** `count` sub-operations that use up `buf` exactly. */
  function ParseSubOps(buf: Bytes, count: nat): Result<seq<BatchOp>>
    decreases count
  {
    if count == 0 then
      if buf == [] then Success([]) else Failure(CorruptWal)
    else
      var (op, used) :- ParseSubOp(buf);
      After([op], ParseSubOps(buf[used..], count - 1))
  }

  function ParseBatch(buf: Bytes): Result<seq<BatchOp>> {
    if |buf| < 4 then Failure(CorruptWal)
    else if FromLe(buf[0..4]) > MAX_BATCH_OPS then Failure(CorruptWal)
    else ParseSubOps(buf[4..], FromLe(buf[0..4]))
  }

  method EncodeBatch(ops: seq<BatchOp>) returns (buf: Bytes)
    ensures buf == BatchPayload(ops)
  {
    buf := Le(|ops|, 4);
    for i := 0 to |ops|
      invariant buf + SubOps(ops[i..]) == BatchPayload(ops)
    {
      hide Le;
      var entry := ops[i];
      var valBytes := Payload(entry.value);
      ghost var before := buf;
      buf := buf + [Tag(entry.op)];
      buf := buf + Le(|entry.key|, 4);
      buf := buf + Le(|valBytes|, 4);
      buf := buf + entry.key;
      buf := buf + valBytes;
      SubOpsStep(before, ops, i);
    }
  }

  lemma SubOpsStep(before: Bytes, ops: seq<BatchOp>, i: nat)
    requires i < |ops|
    ensures before + SubOp(ops[i]) + SubOps(ops[i + 1..]) == before + SubOps(ops[i..])
    ensures before + SubOp(ops[i])
         == before + [Tag(ops[i].op)] + Le(|ops[i].key|, 4) + Le(|Payload(ops[i].value)|, 4) + ops[i].key + Payload(ops[i].value)
  {
    hide Le;
    assert ops[i..][1..] == ops[i + 1..];
  }

  /** `ParseSubOp` seen from a position inside the whole payload. */
  lemma ParseSubOpAt(buf: Bytes, at: nat)
    requires at <= |buf|
    ensures var res := ParseSubOp(buf[at..]);
      if |buf| < at + 9 then res == Failure(CorruptWal)
      else
        var tag, keyLen, valLen := FromTag(buf[at]), FromLe(buf[at + 1..at + 5]), FromLe(buf[at + 5..at + 9]);
        if tag.None? || tag.value.Batch? || |buf| < at + 9 + keyLen + valLen || (tag.value.Delete? && valLen != 0)
        then res == Failure(CorruptWal)
        else res == Success((BatchOp(tag.value, buf[at + 9..at + 9 + keyLen],
                                     if tag.value.Delete? then None
                                     else Some(buf[at + 9 + keyLen..at + 9 + keyLen + valLen])),
                             9 + keyLen + valLen))
  {
    hide FromLe;
    var front := buf[at..];
    if 9 <= |front| {
      assert front[1..5] == buf[at + 1..at + 5] && front[5..9] == buf[at + 5..at + 9];
      var keyLen, valLen := FromLe(front[1..5]), FromLe(front[5..9]);
      if 9 + keyLen + valLen <= |front| {
        assert front[9..9 + keyLen] == buf[at + 9..at + 9 + keyLen];
        assert front[9 + keyLen..9 + keyLen + valLen] == buf[at + 9 + keyLen..at + 9 + keyLen + valLen];
      }
    }
  }

  lemma ParseSubOpsStep(buf: Bytes, at: nat, count: nat, done: seq<BatchOp>)
    requires at <= |buf| && count > 0
    ensures var step := ParseSubOp(buf[at..]);
      After(done, ParseSubOps(buf[at..], count))
      == if step.Failure? then step.PropagateFailure()
         else After(done + [step.value.0], ParseSubOps(buf[at + step.value.1..], count - 1))
  {
    hide ParseSubOp;
    var step := ParseSubOp(buf[at..]);
    if step.Success? {
      var (op, used) := step.value;
      assert buf[at..][used..] == buf[at + used..];
      AfterStep(done, op, ParseSubOps(buf[at + used..], count - 1));
    }
  }

  method DecodeBatch(buf: Bytes) returns (res: Result<seq<BatchOp>>)
    ensures res == ParseBatch(buf)
  {
    hide FromLe, ParseSubOp, ParseSubOps, After;
    if |buf| < 4 {
      return Failure(CorruptWal);
    }
    var count := FromLe(buf[0..4]);
    if count > MAX_BATCH_OPS {
      return Failure(CorruptWal);
    }
    var offset, ops: seq<BatchOp> := 4, [];
    AfterNothing(ParseSubOps(buf[4..], count));
    for i := 0 to count
      invariant 4 <= offset <= |buf|
      invariant ParseBatch(buf) == After(ops, ParseSubOps(buf[offset..], count - i))
    {
      ParseSubOpAt(buf, offset);
      ParseSubOpsStep(buf, offset, count - i, ops);
      if |buf| < offset + 9 {
        return Failure(CorruptWal);
      }
      var tag := FromTag(buf[offset]);
      if tag.None? {
        return Failure(CorruptWal);
      }
      var op := tag.value;
      if op.Batch? {
        return Failure(CorruptWal);
      }
      var keyLen := FromLe(buf[offset + 1..offset + 5]);
      var valLen := FromLe(buf[offset + 5..offset + 9]);
      offset := offset + 9;
      if |buf| < offset + keyLen + valLen {
        return Failure(CorruptWal);
      }
      if op.Delete? && valLen != 0 {
        return Failure(CorruptWal);
      }
      var key := buf[offset..offset + keyLen];
      offset := offset + keyLen;
      var value := if op.Delete? then None else Some(buf[offset..offset + valLen]);
      offset := offset + valLen;
      ops := ops + [BatchOp(op, key, value)];
    }
    ParseSubOpsDone(buf[offset..], ops);
    if offset != |buf| {
      return Failure(CorruptWal);
    }
    return Success(ops);
  }

  lemma ParseSubOpsDone(buf: Bytes, done: seq<BatchOp>)
    ensures After(done, ParseSubOps(buf, 0)) == if buf == [] then Success(done) else Failure(CorruptWal)
  {
    assert done + [] == done;
  }

  lemma ParseSubOpEncoded(op: BatchOp, tail: Bytes)
    requires SubOpWellFormed(op)
    ensures ParseSubOp(SubOp(op) + tail) == Success((op, |SubOp(op)|))
  {
    var buf, val := SubOp(op) + tail, Payload(op.value);
    SpanLiterals();
    LeRoundTrip(|op.key|, 4);
    LeRoundTrip(|val|, 4);
    assert buf[1..5] == Le(|op.key|, 4) && buf[5..9] == Le(|val|, 4);
    assert buf[9..9 + |op.key|] == op.key;
    assert buf[9 + |op.key|..9 + |op.key| + |val|] == val;
  }

  lemma {:induction false} ParseSubOpsEncoded(ops: seq<BatchOp>)
    requires SubOpsWellFormed(ops)
    ensures ParseSubOps(SubOps(ops), |ops|) == Success(ops)
  {
    hide ParseSubOp, SubOp;
    if ops != [] {
      var first, rest := SubOp(ops[0]), SubOps(ops[1..]);
      ParseSubOpEncoded(ops[0], rest);
      ParseSubOpsEncoded(ops[1..]);
      assert (first + rest)[|first|..] == rest;
      assert ops == [ops[0]] + ops[1..];
    }
  }

  /** Batches round-trip exactly up to the operation limit; a longer one is refused on replay. */
  lemma BatchRoundTrip(ops: seq<BatchOp>)
    requires SubOpsWellFormed(ops) && |ops| < U32_LIMIT
    ensures ParseBatch(BatchPayload(ops)) == if |ops| <= 10_000 then Success(ops) else Failure(CorruptWal)
  {
    SpanLiterals();
    LeRoundTrip(|ops|, 4);
    assert BatchPayload(ops)[0..4] == Le(|ops|, 4) && BatchPayload(ops)[4..] == SubOps(ops);
    ParseSubOpsEncoded(ops);
  }

  lemma ParseSubOpCanonical(buf: Bytes)
    requires ParseSubOp(buf).Success?
    ensures var (op, used) := ParseSubOp(buf).value; SubOpWellFormed(op) && buf[..used] == SubOp(op)
  {
    hide Le, FromLe;
    var (op, used) := ParseSubOp(buf).value;
    SpanLiterals();
    FromLeCanonical(buf[1..5]);
    FromLeCanonical(buf[5..9]);
    Grow(buf, 1, 5);
    Grow(buf, 5, 9);
    Grow(buf, 9, 9 + |op.key|);
    Grow(buf, 9 + |op.key|, used);
  }

  lemma {:induction false} ParseSubOpsCanonical(buf: Bytes, count: nat)
    requires ParseSubOps(buf, count).Success?
    ensures var ops := ParseSubOps(buf, count).value;
      SubOpsWellFormed(ops) && |ops| == count && SubOps(ops) == buf
    decreases count
  {
    hide ParseSubOp, SubOp;
    if count > 0 {
      var (op, used) := ParseSubOp(buf).value;
      var ops := ParseSubOps(buf, count).value;
      ParseSubOpCanonical(buf);
      ParseSubOpsCanonical(buf[used..], count - 1);
      var rest := ParseSubOps(buf[used..], count - 1).value;
      assert ops == [op] + rest && ops[1..] == rest;
      assert buf == buf[..used] + buf[used..];
    }
  }

  lemma BatchCanonical(buf: Bytes)
    requires ParseBatch(buf).Success?
    ensures var ops := ParseBatch(buf).value;
      SubOpsWellFormed(ops) && |ops| <= 10_000 && BatchPayload(ops) == buf
  {
    ParseSubOpsCanonical(buf[4..], FromLe(buf[0..4]));
    FromLeCanonical(buf[0..4]);
    assert buf == buf[0..4] + buf[4..];
  }
}
