/** On-disk layouts of the block-based SST (`format::sst_block`): header, data block,
    block index, bloom filter and footer, each with its own checksum. */
module SstFormat {
  import opened Bytes
  import opened Checksum
  import opened Results
  import opened Tables


  // ── SstHeader ──────────────────────────────────────────────────────────

  const SST_HEADER_MAGIC: nat := 0x5342_4844
  const SST_HEADER_VERSION: nat := 2
  const SST_HEADER_LEN: nat := 30
  const SST_HEADER_TOTAL_LEN: nat := 34

  datatype SstHeader = SstHeader(sstId: nat, blockSize: nat, entryCount: nat, dim: nat) {
    predicate InRange() {
      sstId < U64_LIMIT && blockSize < U32_LIMIT && entryCount < U64_LIMIT && dim < U32_LIMIT
    }
  }

  function HeaderBody(h: SstHeader): (r: Bytes)
    ensures |r| == SST_HEADER_LEN
  {
    Le(SST_HEADER_MAGIC, 4) + Le(SST_HEADER_VERSION, 2) + Le(h.sstId, 8) + Le(h.blockSize, 4)
    + Le(h.entryCount, 8) + Le(h.dim, 4)
  }

  function HeaderBytes(h: SstHeader): (r: Bytes)
    ensures |r| == SST_HEADER_TOTAL_LEN
  {
    HeaderBody(h) + CrcBytes(HeaderBody(h))
  }

  method EncodeSstHeader(h: SstHeader) returns (buf: Bytes)
    ensures buf == HeaderBytes(h)
  {
    buf := Le(SST_HEADER_MAGIC, 4);
    buf := buf + Le(SST_HEADER_VERSION, 2);
    buf := buf + Le(h.sstId, 8);
    buf := buf + Le(h.blockSize, 4);
    buf := buf + Le(h.entryCount, 8);
    buf := buf + Le(h.dim, 4);
    var crc := Crc32(buf);
    buf := buf + Le(Value(crc), 4);
  }

  function DecodeSstHeader(buf: Bytes): (res: Result<SstHeader>)
    ensures res.Success? ==> res.value.InRange() && res.value.blockSize > 0
  {
    if |buf| != SST_HEADER_TOTAL_LEN then Failure(CorruptSstHeader)
    else if !CrcMatches(buf, SST_HEADER_LEN) then Failure(CorruptSstHeader)
    else if FromLe(buf[0..4]) != SST_HEADER_MAGIC then Failure(CorruptSstHeader)
    else if FromLe(buf[4..6]) != SST_HEADER_VERSION then
      Failure(UnsupportedSstHeaderVersion(SST_HEADER_VERSION, FromLe(buf[4..6])))
    else if FromLe(buf[14..18]) == 0 then Failure(CorruptSstHeader)
    else
      SpanLiterals();
      FromLeCanonical(buf[6..14]);
      FromLeCanonical(buf[14..18]);
      FromLeCanonical(buf[18..26]);
      FromLeCanonical(buf[26..30]);
      Success(SstHeader(FromLe(buf[6..14]), FromLe(buf[14..18]), FromLe(buf[18..26]), FromLe(buf[26..30])))
  }

  lemma HeaderFields(h: SstHeader)
    requires h.InRange()
    ensures var b := HeaderBody(h);
      && FromLe(b[0..4]) == SST_HEADER_MAGIC && FromLe(b[4..6]) == SST_HEADER_VERSION
      && FromLe(b[6..14]) == h.sstId && FromLe(b[14..18]) == h.blockSize
      && FromLe(b[18..26]) == h.entryCount && FromLe(b[26..30]) == h.dim
  {
    hide Le, FromLe;
    var b := HeaderBody(h);
    var p1 := Le(SST_HEADER_MAGIC, 4);
    var p2 := p1 + Le(SST_HEADER_VERSION, 2);
    var p3 := p2 + Le(h.sstId, 8);
    var p4 := p3 + Le(h.blockSize, 4);
    var p5 := p4 + Le(h.entryCount, 8);
    assert b == p5 + Le(h.dim, 4);
    assert b[0..4] == p1[0..4] == p1;
    assert b[4..6] == p2[4..6] == Le(SST_HEADER_VERSION, 2);
    assert b[6..14] == p3[6..14] == Le(h.sstId, 8);
    assert b[14..18] == p4[14..18] == Le(h.blockSize, 4);
    assert b[18..26] == p5[18..26] == Le(h.entryCount, 8);
    assert b[26..30] == Le(h.dim, 4);
    SpanLiterals();
    LeRoundTrip(SST_HEADER_MAGIC, 4);
    LeRoundTrip(SST_HEADER_VERSION, 2);
    LeRoundTrip(h.sstId, 8);
    LeRoundTrip(h.blockSize, 4);
    LeRoundTrip(h.entryCount, 8);
    LeRoundTrip(h.dim, 4);
  }

  /** A header decodes to itself, except that a zero block size is refused. */
  lemma HeaderRoundTrip(h: SstHeader)
    requires h.InRange()
    ensures DecodeSstHeader(HeaderBytes(h)) == if h.blockSize > 0 then Success(h) else Failure(CorruptSstHeader)
  {
    hide Le, FromLe, Crc, CrcBytes, Value, CrcMatches;
    var buf, b := HeaderBytes(h), HeaderBody(h);
    HeaderFields(h);
    StoredCrcMatches(b, []);
    assert b + CrcBytes(b) + [] == buf;
    assert buf[0..4] == b[0..4] && buf[4..6] == b[4..6] && buf[6..14] == b[6..14];
    assert buf[14..18] == b[14..18] && buf[18..26] == b[18..26] && buf[26..30] == b[26..30];
  }

  lemma HeaderCorruption(h: SstHeader, bad: Bytes, at: nat, width: nat)
    requires CorruptedWithin(HeaderBytes(h), bad, at, width) && Detectable(SST_HEADER_LEN, at, width)
    ensures DecodeSstHeader(bad) == Failure(CorruptSstHeader)
  {
    hide Le, FromLe, Crc, CrcBytes, Value, CrcMatches;
    var b := HeaderBody(h);
    StoredCrcMatches(b, []);
    assert b + CrcBytes(b) + [] == HeaderBytes(h);
    ChecksumDetects(HeaderBytes(h), bad, SST_HEADER_LEN, at, width);
  }

  // ── SstDataBlock ───────────────────────────────────────────────────────

  const SST_DATA_BLOCK_MAGIC: nat := 0x5342_4C4B
  const SST_DATA_BLOCK_VERSION: nat := 1
  const BLOCK_HEADER_LEN: nat := 10
  const BLOCK_ENTRY_HEADER_LEN: nat := 9

  datatype SstOp = Put | Tombstone

  function OpTag(op: SstOp): byte {
    match op
    case Put => 1
    case Tombstone => 2
  }

  function OpFromTag(tag: byte): Option<SstOp> {
    match tag
    case 1 => Some(Put)
    case 2 => Some(Tombstone)
    case _ => None
  }

  function SlotOp(value: Slot): SstOp {
    if value.Some? then Put else Tombstone
  }

  function SlotBytes(value: Slot): Bytes {
    if value.Some? then value.value else []
  }

  function EntryBytes(e: Entry): Bytes {
    [OpTag(SlotOp(e.value))] + Le(|e.key|, 4) + Le(|SlotBytes(e.value)|, 4) + e.key + SlotBytes(e.value)
  }

  function EntriesBytes(entries: seq<Entry>): Bytes {
    if entries == [] then [] else EntryBytes(entries[0]) + EntriesBytes(entries[1..])
  }

  function BlockBody(entries: seq<Entry>): Bytes {
    Le(SST_DATA_BLOCK_MAGIC, 4) + Le(SST_DATA_BLOCK_VERSION, 2) + Le(|entries|, 4) + EntriesBytes(entries)
  }

  function BlockBytes(entries: seq<Entry>): Bytes {
    BlockBody(entries) + CrcBytes(BlockBody(entries))
  }

  predicate EntryFits(e: Entry) {
    |e.key| < U32_LIMIT && |SlotBytes(e.value)| < U32_LIMIT
  }

  predicate EntriesFit(entries: seq<Entry>) {
    forall i :: 0 <= i < |entries| ==> EntryFits(entries[i])
  }

  /** One entry from the front of `area`, and the bytes it takes. The value bytes of a tombstone are skipped. */
  function ParseEntry(area: Bytes): (res: Result<(Entry, nat)>)
    ensures res.Success? ==> BLOCK_ENTRY_HEADER_LEN <= res.value.1 <= |area|
  {
    if |area| < BLOCK_ENTRY_HEADER_LEN then Failure(CorruptSstDataBlock)
    else match OpFromTag(area[0])
      case None => Failure(CorruptSstDataBlock)
      case Some(op) =>
        var keyLen, valLen := FromLe(area[1..5]), FromLe(area[5..9]);
        if |area| < 9 + keyLen + valLen then Failure(CorruptSstDataBlock)
        else
          var value := if op.Put? then Some(area[9 + keyLen..9 + keyLen + valLen]) else None;
          Success((Entry(area[9..9 + keyLen], value), 9 + keyLen + valLen))
  }

  function ParseEntries(area: Bytes, count: nat): Result<seq<Entry>>
    decreases count
  {
    if count == 0 then
      if area == [] then Success([]) else Failure(CorruptSstDataBlock)
    else
      var (e, used) :- ParseEntry(area);
      After([e], ParseEntries(area[used..], count - 1))
  }

  function ParseBlock(buf: Bytes): Result<seq<Entry>> {
    if |buf| < BLOCK_HEADER_LEN + CRC_LEN then Failure(CorruptSstDataBlock)
    else
      var crcAt := |buf| - CRC_LEN;
      if !CrcMatches(buf, crcAt) then Failure(CorruptSstDataBlock)
      else if FromLe(buf[0..4]) != SST_DATA_BLOCK_MAGIC then Failure(CorruptSstDataBlock)
      else if FromLe(buf[4..6]) != SST_DATA_BLOCK_VERSION then
        Failure(UnsupportedSstDataBlockVersion(SST_DATA_BLOCK_VERSION, FromLe(buf[4..6])))
      else if FromLe(buf[6..10]) > (crcAt - BLOCK_HEADER_LEN) / BLOCK_ENTRY_HEADER_LEN then Failure(CorruptSstDataBlock)
      else ParseEntries(buf[BLOCK_HEADER_LEN..crcAt], FromLe(buf[6..10]))
  }

  method EncodeSstDataBlock(entries: seq<Entry>) returns (buf: Bytes)
    ensures buf == BlockBytes(entries)
  {
    hide Le, Crc, Value;
    buf := Le(SST_DATA_BLOCK_MAGIC, 4);
    buf := buf + Le(SST_DATA_BLOCK_VERSION, 2);
    buf := buf + Le(|entries|, 4);
    for i := 0 to |entries|
      invariant buf + EntriesBytes(entries[i..]) == BlockBody(entries)
    {
      var entry := entries[i];
      var op, valBytes := SlotOp(entry.value), SlotBytes(entry.value);
      ghost var before := buf;
      buf := buf + [OpTag(op)];
      buf := buf + Le(|entry.key|, 4);
      buf := buf + Le(|valBytes|, 4);
      buf := buf + entry.key;
      buf := buf + valBytes;
      EntriesStep(before, entries, i);
    }
    assert buf == BlockBody(entries);
    var crc := Crc32(buf);
    buf := buf + Le(Value(crc), 4);
  }

  lemma EntriesStep(before: Bytes, entries: seq<Entry>, i: nat)
    requires i < |entries|
    ensures before + EntryBytes(entries[i]) + EntriesBytes(entries[i + 1..]) == before + EntriesBytes(entries[i..])
    ensures before + EntryBytes(entries[i])
         == before + [OpTag(SlotOp(entries[i].value))] + Le(|entries[i].key|, 4)
            + Le(|SlotBytes(entries[i].value)|, 4) + entries[i].key + SlotBytes(entries[i].value)
  {
    hide Le;
    assert entries[i..][1..] == entries[i + 1..];
  }

  /** `ParseEntry` seen from a position inside the whole block. */
  lemma ParseEntryAt(buf: Bytes, at: nat, end: nat)
    requires at <= end <= |buf|
    ensures var res := ParseEntry(buf[at..end]);
      if end < at + 9 then res == Failure(CorruptSstDataBlock)
      else
        var op, keyLen, valLen := OpFromTag(buf[at]), FromLe(buf[at + 1..at + 5]), FromLe(buf[at + 5..at + 9]);
        if op.None? || end < at + 9 + keyLen + valLen then res == Failure(CorruptSstDataBlock)
        else res == Success((Entry(buf[at + 9..at + 9 + keyLen],
                                   if op.value.Put? then Some(buf[at + 9 + keyLen..at + 9 + keyLen + valLen]) else None),
                             9 + keyLen + valLen))
  {
    hide FromLe;
    var front := buf[at..end];
    if 9 <= |front| {
      SubSlice(buf, at, end, 1, 5);
      SubSlice(buf, at, end, 5, 9);
      var keyLen, valLen := FromLe(front[1..5]), FromLe(front[5..9]);
      if 9 + keyLen + valLen <= |front| {
        SubSlice(buf, at, end, 9, 9 + keyLen);
        SubSlice(buf, at, end, 9 + keyLen, 9 + keyLen + valLen);
      }
    }
  }

  lemma ParseEntriesStep(buf: Bytes, at: nat, end: nat, count: nat, done: seq<Entry>)
    requires at <= end <= |buf| && count > 0
    ensures var step := ParseEntry(buf[at..end]);
      After(done, ParseEntries(buf[at..end], count))
      == if step.Failure? then step.PropagateFailure()
         else After(done + [step.value.0], ParseEntries(buf[at + step.value.1..end], count - 1))
  {
    hide ParseEntry;
    var step := ParseEntry(buf[at..end]);
    if step.Success? {
      var (e, used) := step.value;
      assert buf[at..end][used..] == buf[at + used..end];
      AfterStep(done, e, ParseEntries(buf[at + used..end], count - 1));
    }
  }

  lemma ParseEntriesDone(area: Bytes, done: seq<Entry>)
    ensures After(done, ParseEntries(area, 0)) == if area == [] then Success(done) else Failure(CorruptSstDataBlock)
  {
    assert done + [] == done;
  }

  method DecodeSstDataBlock(buf: Bytes) returns (res: Result<seq<Entry>>)
    ensures res == ParseBlock(buf)
  {
    hide FromLe, ParseEntry, ParseEntries, After, Crc, Value;
    if |buf| < BLOCK_HEADER_LEN + CRC_LEN {
      return Failure(CorruptSstDataBlock);
    }
    var crcAt := |buf| - CRC_LEN;
    var actual := Crc32(buf[..crcAt]);
    assert buf[crcAt..] == buf[crcAt..crcAt + 4];
    if Value(actual) != FromLe(buf[crcAt..]) {
      return Failure(CorruptSstDataBlock);
    }
    if FromLe(buf[0..4]) != SST_DATA_BLOCK_MAGIC {
      return Failure(CorruptSstDataBlock);
    }
    if FromLe(buf[4..6]) != SST_DATA_BLOCK_VERSION {
      return Failure(UnsupportedSstDataBlockVersion(SST_DATA_BLOCK_VERSION, FromLe(buf[4..6])));
    }
    var count := FromLe(buf[6..10]);
    if count > (crcAt - BLOCK_HEADER_LEN) / BLOCK_ENTRY_HEADER_LEN {
      return Failure(CorruptSstDataBlock);
    }
    var pos, entries: seq<Entry> := BLOCK_HEADER_LEN, [];
    AfterNothing(ParseEntries(buf[pos..crcAt], count));
    for i := 0 to count
      invariant BLOCK_HEADER_LEN <= pos <= crcAt
      invariant ParseBlock(buf) == After(entries, ParseEntries(buf[pos..crcAt], count - i))
    {
      ParseEntryAt(buf, pos, crcAt);
      ParseEntriesStep(buf, pos, crcAt, count - i, entries);
      if pos + BLOCK_ENTRY_HEADER_LEN > crcAt {
        return Failure(CorruptSstDataBlock);
      }
      var op := OpFromTag(buf[pos]);
      if op.None? {
        return Failure(CorruptSstDataBlock);
      }
      var keyLen := FromLe(buf[pos + 1..pos + 5]);
      var valLen := FromLe(buf[pos + 5..pos + 9]);
      pos := pos + 9;
      if pos + keyLen + valLen > crcAt {
        return Failure(CorruptSstDataBlock);
      }
      var key := buf[pos..pos + keyLen];
      pos := pos + keyLen;
      var value := if op.value.Put? then Some(buf[pos..pos + valLen]) else None;
      pos := pos + valLen;
      entries := entries + [Entry(key, value)];
    }
    ParseEntriesDone(buf[pos..crcAt], entries);
    if pos != crcAt {
      return Failure(CorruptSstDataBlock);
    }
    return Success(entries);
  }

  lemma ParseEntryEncoded(e: Entry, tail: Bytes)
    requires EntryFits(e)
    ensures ParseEntry(EntryBytes(e) + tail) == Success((e, |EntryBytes(e)|))
  {
    hide Le, FromLe;
    var buf, val := EntryBytes(e) + tail, SlotBytes(e.value);
    SpanLiterals();
    LeRoundTrip(|e.key|, 4);
    LeRoundTrip(|val|, 4);
    assert buf[1..5] == Le(|e.key|, 4) && buf[5..9] == Le(|val|, 4);
    assert buf[9..9 + |e.key|] == e.key;
    assert buf[9 + |e.key|..9 + |e.key| + |val|] == val;
  }

  lemma {:induction false} ParseEntriesEncoded(entries: seq<Entry>)
    requires EntriesFit(entries)
    ensures ParseEntries(EntriesBytes(entries), |entries|) == Success(entries)
    ensures BLOCK_ENTRY_HEADER_LEN * |entries| <= |EntriesBytes(entries)|
  {
    hide ParseEntry;
    if entries != [] {
      var first, rest := EntryBytes(entries[0]), EntriesBytes(entries[1..]);
      ParseEntryEncoded(entries[0], rest);
      ParseEntriesEncoded(entries[1..]);
      assert (first + rest)[|first|..] == rest;
      assert entries == [entries[0]] + entries[1..];
    }
  }

  /** A data block decodes to what was encoded; the entry-count bound never refuses a genuine block. */
  lemma BlockRoundTrip(entries: seq<Entry>)
    requires EntriesFit(entries) && |entries| < U32_LIMIT
    ensures ParseBlock(BlockBytes(entries)) == Success(entries)
  {
    hide Le, FromLe, Crc, CrcBytes, Value, CrcMatches, ParseEntries, EntriesBytes;
    var buf, b, area := BlockBytes(entries), BlockBody(entries), EntriesBytes(entries);
    var crcAt := |buf| - CRC_LEN;
    var m, v, n := Le(SST_DATA_BLOCK_MAGIC, 4), Le(SST_DATA_BLOCK_VERSION, 2), Le(|entries|, 4);
    StoredCrcMatches(b, []);
    assert b + CrcBytes(b) + [] == buf;
    assert b == m + v + n + area;
    assert buf[0..4] == m && buf[4..6] == v && buf[6..10] == n && buf[BLOCK_HEADER_LEN..crcAt] == area;
    SpanLiterals();
    LeRoundTrip(SST_DATA_BLOCK_MAGIC, 4);
    LeRoundTrip(SST_DATA_BLOCK_VERSION, 2);
    LeRoundTrip(|entries|, 4);
    ParseEntriesEncoded(entries);
  }

  lemma BlockCorruption(entries: seq<Entry>, bad: Bytes, at: nat, width: nat)
    requires CorruptedWithin(BlockBytes(entries), bad, at, width) && Detectable(|BlockBody(entries)|, at, width)
    ensures ParseBlock(bad) == Failure(CorruptSstDataBlock)
  {
    hide Le, FromLe, Crc, CrcBytes, Value, CrcMatches;
    var b := BlockBody(entries);
    StoredCrcMatches(b, []);
    assert b + CrcBytes(b) + [] == BlockBytes(entries);
    ChecksumDetects(BlockBytes(entries), bad, |b|, at, width);
  }

  // ── which accepted blocks re-encode to themselves ──────────────────────

  lemma ParseEntryBack(area: Bytes)
    requires ParseEntry(area).Success?
    ensures var (e, used) := ParseEntry(area).value;
      EntryFits(e) && |EntryBytes(e)| <= used && (|EntryBytes(e)| == used ==> area[..used] == EntryBytes(e))
  {
    hide Le, FromLe;
    var (e, used) := ParseEntry(area).value;
    SpanLiterals();
    FromLeCanonical(area[1..5]);
    FromLeCanonical(area[5..9]);
    if |EntryBytes(e)| == used {
      Grow(area, 1, 5);
      Grow(area, 5, 9);
      Grow(area, 9, 9 + |e.key|);
      Grow(area, 9 + |e.key|, used);
    }
  }

  lemma {:induction false} ParseEntriesBack(area: Bytes, count: nat)
    requires ParseEntries(area, count).Success?
    ensures var es := ParseEntries(area, count).value;
      && EntriesFit(es) && |es| == count && |EntriesBytes(es)| <= |area|
      && (|EntriesBytes(es)| == |area| ==> EntriesBytes(es) == area)
    decreases count
  {
    hide ParseEntry, EntryBytes;
    if count > 0 {
      var (e, used) := ParseEntry(area).value;
      var es := ParseEntries(area, count).value;
      var rest := ParseEntries(area[used..], count - 1).value;
      ParseEntryBack(area);
      ParseEntriesBack(area[used..], count - 1);
      assert es == [e] + rest && es[1..] == rest;
      assert area == area[..used] + area[used..];
    }
  }

  /** Among the first `count` entries of `area` no tombstone declares a value. */
  predicate Bare(area: Bytes, count: nat)
    decreases count
  {
    count == 0
    || (|area| >= BLOCK_ENTRY_HEADER_LEN
        && var keyLen, valLen := FromLe(area[1..5]), FromLe(area[5..9]);
           && |area| >= 9 + keyLen + valLen
           && (area[0] == OpTag(Tombstone) ==> valLen == 0)
           && Bare(area[9 + keyLen + valLen..], count - 1))
  }

  lemma EntryShrinksIff(area: Bytes, count: nat)
    requires count > 0 && ParseEntry(area).Success?
    ensures var (e, used) := ParseEntry(area).value;
      Bare(area, count) <==> |EntryBytes(e)| == used && Bare(area[used..], count - 1)
  {
    hide FromLe;
    SpanLiterals();
  }

  lemma {:induction false} BareIff(area: Bytes, count: nat)
    requires ParseEntries(area, count).Success?
    ensures Bare(area, count) <==> |EntriesBytes(ParseEntries(area, count).value)| == |area|
    decreases count
  {
    hide EntryBytes, Bare, ParseEntry;
    if count == 0 {
      NoneBare(area);
    } else {
      var (e, used) := ParseEntry(area).value;
      var es := ParseEntries(area, count).value;
      var rest := ParseEntries(area[used..], count - 1).value;
      ParseEntryBack(area);
      EntryShrinksIff(area, count);
      ParseEntriesBack(area[used..], count - 1);
      BareIff(area[used..], count - 1);
      assert es == [e] + rest && es[1..] == rest;
    }
  }

  lemma NoneBare(area: Bytes)
    ensures Bare(area, 0)
  {
  }

  lemma BlockBack(buf: Bytes)
    requires ParseBlock(buf).Success?
    ensures var es := ParseBlock(buf).value;
      && EntriesFit(es) && |BlockBytes(es)| <= |buf|
      && (BlockBytes(es) == buf <==> |BlockBytes(es)| == |buf|)
      && |BlockBytes(es)| == BLOCK_HEADER_LEN + |EntriesBytes(es)| + CRC_LEN
  {
    hide Le, FromLe, Crc, CrcBytes, Value, CrcMatches, EntriesBytes, ParseEntries;
    var es, crcAt := ParseBlock(buf).value, |buf| - CRC_LEN;
    ParseEntriesBack(buf[BLOCK_HEADER_LEN..crcAt], FromLe(buf[6..10]));
    if |BlockBytes(es)| == |buf| {
      FromLeCanonical(buf[0..4]);
      FromLeCanonical(buf[4..6]);
      FromLeCanonical(buf[6..10]);
      MatchingCrcIsStored(buf, crcAt);
      assert buf[..crcAt] == buf[0..4] + buf[4..6] + buf[6..10] + buf[BLOCK_HEADER_LEN..crcAt];
      assert buf == buf[..crcAt] + buf[crcAt..crcAt + 4];
    }
  }

  /** An accepted block is the encoding of its entries if and only if no tombstone of it declares a value; all
      such a block has too much are these ignored bytes. */
  lemma BlockCanonicalIff(buf: Bytes)
    requires ParseBlock(buf).Success?
    ensures var es := ParseBlock(buf).value;
      && EntriesFit(es) && |BlockBytes(es)| <= |buf|
      && (BlockBytes(es) == buf <==> |BlockBytes(es)| == |buf|)
      && (BlockBytes(es) == buf <==> Bare(buf[BLOCK_HEADER_LEN..|buf| - CRC_LEN], FromLe(buf[6..10])))
  {
    hide FromLe, CrcMatches, EntriesBytes, ParseEntries, Bare, BlockBytes;
    BlockBack(buf);
    BareIff(buf[BLOCK_HEADER_LEN..|buf| - CRC_LEN], FromLe(buf[6..10]));
  }

  function TombstoneWithValue(key: Bytes, junk: Bytes): Bytes {
    [OpTag(Tombstone)] + Le(|key|, 4) + Le(|junk|, 4) + key + junk
  }

  function BlockOf(count: nat, area: Bytes): Bytes {
    var body := Le(SST_DATA_BLOCK_MAGIC, 4) + Le(SST_DATA_BLOCK_VERSION, 2) + Le(count, 4) + area;
    body + CrcBytes(body)
  }

  lemma ParseBlockOf(count: nat, area: Bytes)
    requires count < U32_LIMIT
    ensures ParseBlock(BlockOf(count, area))
         == if count > |area| / BLOCK_ENTRY_HEADER_LEN then Failure(CorruptSstDataBlock) else ParseEntries(area, count)
  {
    hide Le, FromLe, Crc, CrcBytes, Value, CrcMatches, ParseEntries;
    var m, v, n := Le(SST_DATA_BLOCK_MAGIC, 4), Le(SST_DATA_BLOCK_VERSION, 2), Le(count, 4);
    var body := m + v + n + area;
    var buf := BlockOf(count, area);
    var crcAt := |buf| - CRC_LEN;
    StoredCrcMatches(body, []);
    assert body + CrcBytes(body) + [] == buf;
    assert buf[0..4] == m && buf[4..6] == v && buf[6..10] == n && buf[BLOCK_HEADER_LEN..crcAt] == area;
    SpanLiterals();
    LeRoundTrip(SST_DATA_BLOCK_MAGIC, 4);
    LeRoundTrip(SST_DATA_BLOCK_VERSION, 2);
    LeRoundTrip(count, 4);
  }

  /** Decoding data blocks is not injective: a tombstone that declares any value bytes decodes like one without. */
  lemma TombstoneValueIgnored(key: Bytes, junk: Bytes)
    requires |key| < U32_LIMIT && 0 < |junk| < U32_LIMIT
    ensures var buf := BlockOf(1, TombstoneWithValue(key, junk));
      ParseBlock(buf) == Success([Entry(key, None)]) && buf != BlockBytes([Entry(key, None)])
  {
    hide Le, FromLe, Crc, CrcBytes, Value, CrcMatches;
    var area := TombstoneWithValue(key, junk);
    SpanLiterals();
    LeRoundTrip(|key|, 4);
    LeRoundTrip(|junk|, 4);
    assert area[1..5] == Le(|key|, 4) && area[5..9] == Le(|junk|, 4) && area[9..9 + |key|] == key;
    assert ParseEntry(area) == Success((Entry(key, None), |area|));
    assert ParseEntries(area[|area|..], 0) == Success([]);
    assert ParseEntries(area, 1) == After([Entry(key, None)], Success([]));
    assert [Entry(key, None)] + [] == [Entry(key, None)];
    assert |area| == 9 + |key| + |junk| && 1 <= |area| / BLOCK_ENTRY_HEADER_LEN;
    ParseBlockOf(1, area);
    SingleEntryLength(Entry(key, None));
    assert |BlockOf(1, area)| == 14 + |area|;
  }

  lemma SingleEntryLength(e: Entry)
    ensures |BlockBytes([e])| == 14 + |EntryBytes(e)|
  {
    hide Crc, CrcBytes, Value;
    assert EntriesBytes([e]) == EntryBytes(e) + EntriesBytes([]);
  }

  // ── SstFooter ──────────────────────────────────────────────────────────

  const SST_FOOTER_MAGIC: nat := 0x5342_4654
  const SST_FOOTER_VERSION: nat := 1
  const SST_FOOTER_LEN: nat := 42
  const FOOTER_CRC_AT: nat := 34
  const FOOTER_MAGIC_AT: nat := 38

  datatype SstFooter = SstFooter(indexOffset: nat, indexLen: nat, bloomOffset: nat, bloomLen: nat, blockCount: nat) {
    predicate InRange() {
      && indexOffset < U64_LIMIT && indexLen < U32_LIMIT
      && bloomOffset < U64_LIMIT && bloomLen < U32_LIMIT && blockCount < U32_LIMIT
    }
  }

  function FooterBody(f: SstFooter): (r: Bytes)
    ensures |r| == FOOTER_CRC_AT
  {
    Le(SST_FOOTER_MAGIC, 4) + Le(SST_FOOTER_VERSION, 2) + Le(f.indexOffset, 8) + Le(f.indexLen, 4)
    + Le(f.bloomOffset, 8) + Le(f.bloomLen, 4) + Le(f.blockCount, 4)
  }

  function FooterBytes(f: SstFooter): (r: Bytes)
    ensures |r| == SST_FOOTER_LEN
  {
    FooterBody(f) + CrcBytes(FooterBody(f)) + Le(SST_FOOTER_MAGIC, 4)
  }

  method EncodeSstFooter(f: SstFooter) returns (buf: Bytes)
    ensures buf == FooterBytes(f)
  {
    buf := Le(SST_FOOTER_MAGIC, 4);
    buf := buf + Le(SST_FOOTER_VERSION, 2);
    buf := buf + Le(f.indexOffset, 8);
    buf := buf + Le(f.indexLen, 4);
    buf := buf + Le(f.bloomOffset, 8);
    buf := buf + Le(f.bloomLen, 4);
    buf := buf + Le(f.blockCount, 4);
    var crc := Crc32(buf);
    buf := buf + Le(Value(crc), 4);
    buf := buf + Le(SST_FOOTER_MAGIC, 4);
  }

  function DecodeSstFooter(buf: Bytes): (res: Result<SstFooter>)
    ensures res.Success? ==> res.value.InRange()
  {
    if |buf| != SST_FOOTER_LEN then Failure(CorruptSstFooter)
    else if FromLe(buf[FOOTER_MAGIC_AT..]) != SST_FOOTER_MAGIC then Failure(CorruptSstFooter)
    else if !CrcMatches(buf, FOOTER_CRC_AT) then Failure(CorruptSstFooter)
    else if FromLe(buf[0..4]) != SST_FOOTER_MAGIC then Failure(CorruptSstFooter)
    else if FromLe(buf[4..6]) != SST_FOOTER_VERSION then
      Failure(UnsupportedSstFooterVersion(SST_FOOTER_VERSION, FromLe(buf[4..6])))
    else
      SpanLiterals();
      FromLeCanonical(buf[6..14]);
      FromLeCanonical(buf[14..18]);
      FromLeCanonical(buf[18..26]);
      FromLeCanonical(buf[26..30]);
      FromLeCanonical(buf[30..34]);
      Success(SstFooter(FromLe(buf[6..14]), FromLe(buf[14..18]), FromLe(buf[18..26]),
                        FromLe(buf[26..30]), FromLe(buf[30..34])))
  }

  lemma FooterFields(f: SstFooter)
    requires f.InRange()
    ensures var b := FooterBody(f);
      && FromLe(b[0..4]) == SST_FOOTER_MAGIC && FromLe(b[4..6]) == SST_FOOTER_VERSION
      && FromLe(b[6..14]) == f.indexOffset && FromLe(b[14..18]) == f.indexLen
      && FromLe(b[18..26]) == f.bloomOffset && FromLe(b[26..30]) == f.bloomLen && FromLe(b[30..34]) == f.blockCount
  {
    hide Le, FromLe;
    var b := FooterBody(f);
    var p1 := Le(SST_FOOTER_MAGIC, 4);
    var p2 := p1 + Le(SST_FOOTER_VERSION, 2);
    var p3 := p2 + Le(f.indexOffset, 8);
    var p4 := p3 + Le(f.indexLen, 4);
    var p5 := p4 + Le(f.bloomOffset, 8);
    var p6 := p5 + Le(f.bloomLen, 4);
    assert b == p6 + Le(f.blockCount, 4);
    assert b[0..4] == p1[0..4] == p1;
    assert b[4..6] == p2[4..6] == Le(SST_FOOTER_VERSION, 2);
    assert b[6..14] == p3[6..14] == Le(f.indexOffset, 8);
    assert b[14..18] == p4[14..18] == Le(f.indexLen, 4);
    assert b[18..26] == p5[18..26] == Le(f.bloomOffset, 8);
    assert b[26..30] == p6[26..30] == Le(f.bloomLen, 4);
    assert b[30..34] == Le(f.blockCount, 4);
    SpanLiterals();
    LeRoundTrip(SST_FOOTER_MAGIC, 4);
    LeRoundTrip(SST_FOOTER_VERSION, 2);
    LeRoundTrip(f.indexOffset, 8);
    LeRoundTrip(f.indexLen, 4);
    LeRoundTrip(f.bloomOffset, 8);
    LeRoundTrip(f.bloomLen, 4);
    LeRoundTrip(f.blockCount, 4);
  }

  lemma FooterRoundTrip(f: SstFooter)
    requires f.InRange()
    ensures DecodeSstFooter(FooterBytes(f)) == Success(f)
  {
    hide Le, FromLe, Crc, CrcBytes, Value, CrcMatches;
    var buf, b := FooterBytes(f), FooterBody(f);
    FooterFields(f);
    SpanLiterals();
    LeRoundTrip(SST_FOOTER_MAGIC, 4);
    StoredCrcMatches(b, Le(SST_FOOTER_MAGIC, 4));
    assert buf[FOOTER_MAGIC_AT..] == Le(SST_FOOTER_MAGIC, 4);
    assert buf[0..4] == b[0..4] && buf[4..6] == b[4..6] && buf[6..14] == b[6..14] && buf[14..18] == b[14..18];
    assert buf[18..26] == b[18..26] && buf[26..30] == b[26..30] && buf[30..34] == b[30..34];
  }

  /** Body, checksum and trailing magic: damage confined to one of them never goes unnoticed. */
  lemma FooterCorruption(f: SstFooter, bad: Bytes, at: nat, width: nat)
    requires CorruptedWithin(FooterBytes(f), bad, at, width)
    requires Detectable(FOOTER_CRC_AT, at, width) || FOOTER_MAGIC_AT <= at
    ensures DecodeSstFooter(bad) == Failure(CorruptSstFooter)
  {
    hide Le, FromLe, Crc, CrcBytes, Value, CrcMatches;
    var good, magic := FooterBytes(f), Le(SST_FOOTER_MAGIC, 4);
    if FOOTER_MAGIC_AT <= at {
      assert good == good[..FOOTER_MAGIC_AT] + magic && bad == bad[..FOOTER_MAGIC_AT] + bad[FOOTER_MAGIC_AT..];
      assert good[..FOOTER_MAGIC_AT] == bad[..FOOTER_MAGIC_AT];
      OnlyMagicReadsAsMagic(bad[FOOTER_MAGIC_AT..]);
    } else {
      StoredCrcMatches(FooterBody(f), magic);
      ChecksumDetects(good, bad, FOOTER_CRC_AT, at, width);
    }
  }

  lemma OnlyMagicReadsAsMagic(bytes: Bytes)
    requires |bytes| == 4 && bytes != Le(SST_FOOTER_MAGIC, 4)
    ensures FromLe(bytes) != SST_FOOTER_MAGIC
  {
    hide Le, FromLe;
    FromLeCanonical(bytes);
  }
}
