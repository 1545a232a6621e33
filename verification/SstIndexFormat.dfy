/** The two lookup sections of an SST (`format::sst_block`): block index and bloom filter. */
module SstIndexFormat {
  import opened Bytes
  import opened Checksum
  import opened Results


  // ── SstBlockIndex ──────────────────────────────────────────────────────

  const SST_BLOCK_INDEX_MAGIC: nat := 0x5342_4958
  const SST_BLOCK_INDEX_VERSION: nat := 2
  const INDEX_HEADER_LEN: nat := 10
  const INDEX_ENTRY_MIN_LEN: nat := 28

  datatype IndexEntry = IndexEntry(firstKey: Bytes, lastKey: Bytes, offset: nat, len: nat, entryCount: nat,
                                   tombstoneCount: nat) {
    predicate InRange() {
      && |firstKey| < U32_LIMIT && |lastKey| < U32_LIMIT && offset < U64_LIMIT
      && len < U32_LIMIT && entryCount < U32_LIMIT && tombstoneCount < U32_LIMIT
    }
  }

  predicate AllInRange(entries: seq<IndexEntry>) {
    forall i :: 0 <= i < |entries| ==> entries[i].InRange()
  }

  function NumbersBytes(e: IndexEntry): (r: Bytes)
    ensures |r| == 20
  {
    Le(e.offset, 8) + Le(e.len, 4) + Le(e.entryCount, 4) + Le(e.tombstoneCount, 4)
  }

  function IndexEntryBytes(e: IndexEntry): Bytes {
    Le(|e.firstKey|, 4) + e.firstKey + Le(|e.lastKey|, 4) + e.lastKey + NumbersBytes(e)
  }

  function IndexEntriesBytes(entries: seq<IndexEntry>): Bytes {
    if entries == [] then [] else IndexEntryBytes(entries[0]) + IndexEntriesBytes(entries[1..])
  }

  function IndexBody(entries: seq<IndexEntry>): Bytes {
    Le(SST_BLOCK_INDEX_MAGIC, 4) + Le(SST_BLOCK_INDEX_VERSION, 2) + Le(|entries|, 4) + IndexEntriesBytes(entries)
  }

  function IndexBytes(entries: seq<IndexEntry>): Bytes {
    IndexBody(entries) + CrcBytes(IndexBody(entries))
  }

  /** A length-prefixed key from the front of `area`, and the bytes it takes. */
  function ParseKey(area: Bytes): (res: Result<(Bytes, nat)>)
    ensures res.Success? ==> 4 <= res.value.1 <= |area| && res.value.1 == 4 + |res.value.0|
  {
    if |area| < 4 then Failure(CorruptSstBlockIndex)
    else
      var len := FromLe(area[0..4]);
      if |area| < 4 + len then Failure(CorruptSstBlockIndex) else Success((area[4..4 + len], 4 + len))
  }

  function ParseNumbers(area: Bytes, firstKey: Bytes, lastKey: Bytes): Result<IndexEntry> {
    if |area| < 20 then Failure(CorruptSstBlockIndex)
    else Success(IndexEntry(firstKey, lastKey, FromLe(area[0..8]), FromLe(area[8..12]), FromLe(area[12..16]),
                            FromLe(area[16..20])))
  }

  function ParseIndexEntry(area: Bytes): (res: Result<(IndexEntry, nat)>)
    ensures res.Success? ==> INDEX_ENTRY_MIN_LEN <= res.value.1 <= |area|
  {
    var (firstKey, used1) :- ParseKey(area);
    var (lastKey, used2) :- ParseKey(area[used1..]);
    var e :- ParseNumbers(area[used1 + used2..], firstKey, lastKey);
    Success((e, used1 + used2 + 20))
  }

  function ParseIndexEntries(area: Bytes, count: nat): Result<seq<IndexEntry>>
    decreases count
  {
    if count == 0 then
      if area == [] then Success([]) else Failure(CorruptSstBlockIndex)
    else
      var (e, used) :- ParseIndexEntry(area);
      After([e], ParseIndexEntries(area[used..], count - 1))
  }

  function ParseIndex(buf: Bytes): Result<seq<IndexEntry>> {
    if |buf| < INDEX_HEADER_LEN + CRC_LEN then Failure(CorruptSstBlockIndex)
    else
      var crcAt := |buf| - CRC_LEN;
      if !CrcMatches(buf, crcAt) then Failure(CorruptSstBlockIndex)
      else if FromLe(buf[0..4]) != SST_BLOCK_INDEX_MAGIC then Failure(CorruptSstBlockIndex)
      else if FromLe(buf[4..6]) != SST_BLOCK_INDEX_VERSION then
        Failure(UnsupportedSstBlockIndexVersion(SST_BLOCK_INDEX_VERSION, FromLe(buf[4..6])))
      else if FromLe(buf[6..10]) > (crcAt - INDEX_HEADER_LEN) / INDEX_ENTRY_MIN_LEN then Failure(CorruptSstBlockIndex)
      else ParseIndexEntries(buf[INDEX_HEADER_LEN..crcAt], FromLe(buf[6..10]))
  }

  method EncodeSstBlockIndex(entries: seq<IndexEntry>) returns (buf: Bytes)
    ensures buf == IndexBytes(entries)
  {
    hide Le, Crc, Value;
    buf := Le(SST_BLOCK_INDEX_MAGIC, 4);
    buf := buf + Le(SST_BLOCK_INDEX_VERSION, 2);
    buf := buf + Le(|entries|, 4);
    for i := 0 to |entries|
      invariant buf + IndexEntriesBytes(entries[i..]) == IndexBody(entries)
    {
      var entry := entries[i];
      ghost var before := buf;
      buf := buf + Le(|entry.firstKey|, 4);
      buf := buf + entry.firstKey;
      buf := buf + Le(|entry.lastKey|, 4);
      buf := buf + entry.lastKey;
      buf := buf + Le(entry.offset, 8);
      buf := buf + Le(entry.len, 4);
      buf := buf + Le(entry.entryCount, 4);
      buf := buf + Le(entry.tombstoneCount, 4);
      IndexStep(before, entries, i);
    }
    assert buf == IndexBody(entries);
    var crc := Crc32(buf);
    buf := buf + Le(Value(crc), 4);
  }

  lemma IndexStep(before: Bytes, entries: seq<IndexEntry>, i: nat)
    requires i < |entries|
    ensures before + IndexEntryBytes(entries[i]) + IndexEntriesBytes(entries[i + 1..])
         == before + IndexEntriesBytes(entries[i..])
    ensures before + IndexEntryBytes(entries[i])
         == before + Le(|entries[i].firstKey|, 4) + entries[i].firstKey + Le(|entries[i].lastKey|, 4) + entries[i].lastKey
            + Le(entries[i].offset, 8) + Le(entries[i].len, 4) + Le(entries[i].entryCount, 4)
            + Le(entries[i].tombstoneCount, 4)
  {
    hide Le;
    assert entries[i..][1..] == entries[i + 1..];
  }

  lemma ParseKeyAt(buf: Bytes, at: nat, end: nat)
    requires at <= end <= |buf|
    ensures var res := ParseKey(buf[at..end]);
      if end < at + 4 then res == Failure(CorruptSstBlockIndex)
      else if end < at + 4 + FromLe(buf[at..at + 4]) then res == Failure(CorruptSstBlockIndex)
      else res == Success((buf[at + 4..at + 4 + FromLe(buf[at..at + 4])], 4 + FromLe(buf[at..at + 4])))
  {
    hide FromLe;
    if at + 4 <= end {
      SubSlice(buf, at, end, 0, 4);
      var len := FromLe(buf[at..at + 4]);
      if at + 4 + len <= end {
        SubSlice(buf, at, end, 4, 4 + len);
      }
    }
  }

  lemma ParseNumbersAt(buf: Bytes, at: nat, end: nat, firstKey: Bytes, lastKey: Bytes)
    requires at <= end <= |buf|
    ensures ParseNumbers(buf[at..end], firstKey, lastKey)
         == if end < at + 20 then Failure(CorruptSstBlockIndex)
            else Success(IndexEntry(firstKey, lastKey, FromLe(buf[at..at + 8]), FromLe(buf[at + 8..at + 12]),
                                    FromLe(buf[at + 12..at + 16]), FromLe(buf[at + 16..at + 20])))
  {
    hide FromLe;
    if at + 20 <= end {
      SubSlice(buf, at, end, 0, 8);
      SubSlice(buf, at, end, 8, 12);
      SubSlice(buf, at, end, 12, 16);
      SubSlice(buf, at, end, 16, 20);
    }
  }

  lemma ParseIndexEntryAt(buf: Bytes, at: nat, end: nat)
    requires at <= end <= |buf|
    ensures var res, first := ParseIndexEntry(buf[at..end]), ParseKey(buf[at..end]);
      if first.Failure? then res == first.PropagateFailure()
      else
        var last := ParseKey(buf[at + first.value.1..end]);
        if last.Failure? then res == last.PropagateFailure()
        else
          var used := first.value.1 + last.value.1;
          var e := ParseNumbers(buf[at + used..end], first.value.0, last.value.0);
          res == if e.Failure? then e.PropagateFailure() else Success((e.value, used + 20))
  {
    hide ParseKey, ParseNumbers;
    var first := ParseKey(buf[at..end]);
    if first.Success? {
      assert buf[at..end][first.value.1..] == buf[at + first.value.1..end];
      var last := ParseKey(buf[at + first.value.1..end]);
      if last.Success? {
        assert buf[at..end][first.value.1 + last.value.1..] == buf[at + first.value.1 + last.value.1..end];
      }
    }
  }

  lemma ParseIndexEntriesStep(buf: Bytes, at: nat, end: nat, count: nat, done: seq<IndexEntry>)
    requires at <= end <= |buf| && count > 0
    ensures var step := ParseIndexEntry(buf[at..end]);
      After(done, ParseIndexEntries(buf[at..end], count))
      == if step.Failure? then step.PropagateFailure()
         else After(done + [step.value.0], ParseIndexEntries(buf[at + step.value.1..end], count - 1))
  {
    hide ParseIndexEntry;
    var step := ParseIndexEntry(buf[at..end]);
    if step.Success? {
      var (e, used) := step.value;
      assert buf[at..end][used..] == buf[at + used..end];
      AfterStep(done, e, ParseIndexEntries(buf[at + used..end], count - 1));
    }
  }

  lemma ParseIndexEntriesDone(area: Bytes, done: seq<IndexEntry>)
    ensures After(done, ParseIndexEntries(area, 0)) == if area == [] then Success(done) else Failure(CorruptSstBlockIndex)
  {
    assert done + [] == done;
  }

  method DecodeSstBlockIndex(buf: Bytes) returns (res: Result<seq<IndexEntry>>)
    ensures res == ParseIndex(buf)
  {
    hide FromLe, ParseKey, ParseNumbers, ParseIndexEntry, ParseIndexEntries, After, Crc, Value;
    if |buf| < INDEX_HEADER_LEN + CRC_LEN {
      return Failure(CorruptSstBlockIndex);
    }
    var crcAt := |buf| - CRC_LEN;
    var actual := Crc32(buf[..crcAt]);
    assert buf[crcAt..] == buf[crcAt..crcAt + 4];
    if Value(actual) != FromLe(buf[crcAt..]) {
      return Failure(CorruptSstBlockIndex);
    }
    if FromLe(buf[0..4]) != SST_BLOCK_INDEX_MAGIC {
      return Failure(CorruptSstBlockIndex);
    }
    if FromLe(buf[4..6]) != SST_BLOCK_INDEX_VERSION {
      return Failure(UnsupportedSstBlockIndexVersion(SST_BLOCK_INDEX_VERSION, FromLe(buf[4..6])));
    }
    var count := FromLe(buf[6..10]);
    if count > (crcAt - INDEX_HEADER_LEN) / INDEX_ENTRY_MIN_LEN {
      return Failure(CorruptSstBlockIndex);
    }
    var pos, entries: seq<IndexEntry> := INDEX_HEADER_LEN, [];
    AfterNothing(ParseIndexEntries(buf[pos..crcAt], count));
    for i := 0 to count
      invariant INDEX_HEADER_LEN <= pos <= crcAt
      invariant ParseIndex(buf) == After(entries, ParseIndexEntries(buf[pos..crcAt], count - i))
    {
      ParseIndexEntryAt(buf, pos, crcAt);
      ParseIndexEntriesStep(buf, pos, crcAt, count - i, entries);
      ParseKeyAt(buf, pos, crcAt);
      if pos + 4 > crcAt {
        return Failure(CorruptSstBlockIndex);
      }
      var firstKeyLen := FromLe(buf[pos..pos + 4]);
      pos := pos + 4;
      if pos + firstKeyLen > crcAt {
        return Failure(CorruptSstBlockIndex);
      }
      var firstKey := buf[pos..pos + firstKeyLen];
      pos := pos + firstKeyLen;

      ParseKeyAt(buf, pos, crcAt);
      if pos + 4 > crcAt {
        return Failure(CorruptSstBlockIndex);
      }
      var lastKeyLen := FromLe(buf[pos..pos + 4]);
      pos := pos + 4;
      if pos + lastKeyLen > crcAt {
        return Failure(CorruptSstBlockIndex);
      }
      var lastKey := buf[pos..pos + lastKeyLen];
      pos := pos + lastKeyLen;

      ParseNumbersAt(buf, pos, crcAt, firstKey, lastKey);
      if pos + 20 > crcAt {
        return Failure(CorruptSstBlockIndex);
      }
      var offset := FromLe(buf[pos..pos + 8]);
      pos := pos + 8;
      var len := FromLe(buf[pos..pos + 4]);
      pos := pos + 4;
      var entryCount := FromLe(buf[pos..pos + 4]);
      pos := pos + 4;
      var tombstoneCount := FromLe(buf[pos..pos + 4]);
      pos := pos + 4;
      entries := entries + [IndexEntry(firstKey, lastKey, offset, len, entryCount, tombstoneCount)];
    }
    ParseIndexEntriesDone(buf[pos..crcAt], entries);
    if pos != crcAt {
      return Failure(CorruptSstBlockIndex);
    }
    return Success(entries);
  }

  lemma ParseKeyEncoded(key: Bytes, tail: Bytes)
    requires |key| < U32_LIMIT
    ensures ParseKey(Le(|key|, 4) + key + tail) == Success((key, 4 + |key|))
  {
    hide Le, FromLe;
    var buf := Le(|key|, 4) + key + tail;
    SpanLiterals();
    LeRoundTrip(|key|, 4);
    assert buf[0..4] == Le(|key|, 4) && buf[4..4 + |key|] == key;
  }

  lemma ParseNumbersEncoded(e: IndexEntry, tail: Bytes)
    requires e.InRange()
    ensures ParseNumbers(NumbersBytes(e) + tail, e.firstKey, e.lastKey) == Success(e)
  {
    hide Le, FromLe;
    var buf := NumbersBytes(e) + tail;
    var p1 := Le(e.offset, 8);
    var p2 := p1 + Le(e.len, 4);
    var p3 := p2 + Le(e.entryCount, 4);
    assert NumbersBytes(e) == p3 + Le(e.tombstoneCount, 4);
    assert buf[0..8] == p1[0..8] == p1 && buf[8..12] == p2[8..12] == Le(e.len, 4);
    assert buf[12..16] == p3[12..16] == Le(e.entryCount, 4) && buf[16..20] == Le(e.tombstoneCount, 4);
    SpanLiterals();
    LeRoundTrip(e.offset, 8);
    LeRoundTrip(e.len, 4);
    LeRoundTrip(e.entryCount, 4);
    LeRoundTrip(e.tombstoneCount, 4);
  }

  lemma ParseIndexEntryEncoded(e: IndexEntry, tail: Bytes)
    requires e.InRange()
    ensures ParseIndexEntry(IndexEntryBytes(e) + tail) == Success((e, |IndexEntryBytes(e)|))
  {
    hide Le, ParseKey, ParseNumbers, NumbersBytes;
    var buf, n := IndexEntryBytes(e) + tail, NumbersBytes(e);
    var k1, k2 := Le(|e.firstKey|, 4) + e.firstKey, Le(|e.lastKey|, 4) + e.lastKey;
    assert buf == k1 + (k2 + n + tail);
    ParseKeyEncoded(e.firstKey, k2 + n + tail);
    assert buf[|k1|..] == k2 + (n + tail);
    ParseKeyEncoded(e.lastKey, n + tail);
    assert buf[|k1| + |k2|..] == n + tail;
    ParseNumbersEncoded(e, tail);
  }

  lemma {:induction false} ParseIndexEntriesEncoded(entries: seq<IndexEntry>)
    requires AllInRange(entries)
    ensures ParseIndexEntries(IndexEntriesBytes(entries), |entries|) == Success(entries)
    ensures INDEX_ENTRY_MIN_LEN * |entries| <= |IndexEntriesBytes(entries)|
  {
    hide ParseIndexEntry;
    if entries != [] {
      var first, rest := IndexEntryBytes(entries[0]), IndexEntriesBytes(entries[1..]);
      ParseIndexEntryEncoded(entries[0], rest);
      ParseIndexEntriesEncoded(entries[1..]);
      assert (first + rest)[|first|..] == rest;
      assert entries == [entries[0]] + entries[1..];
    }
  }

  /** A block index decodes to what was encoded; the block-count bound never refuses a genuine index. */
  lemma IndexRoundTrip(entries: seq<IndexEntry>)
    requires AllInRange(entries) && |entries| < U32_LIMIT
    ensures ParseIndex(IndexBytes(entries)) == Success(entries)
  {
    hide Le, FromLe, Crc, CrcBytes, Value, CrcMatches, ParseIndexEntries, IndexEntriesBytes;
    var buf, b, area := IndexBytes(entries), IndexBody(entries), IndexEntriesBytes(entries);
    var crcAt := |buf| - CRC_LEN;
    var m, v, n := Le(SST_BLOCK_INDEX_MAGIC, 4), Le(SST_BLOCK_INDEX_VERSION, 2), Le(|entries|, 4);
    StoredCrcMatches(b, []);
    assert b + CrcBytes(b) + [] == buf;
    assert b == m + v + n + area;
    assert buf[0..4] == m && buf[4..6] == v && buf[6..10] == n && buf[INDEX_HEADER_LEN..crcAt] == area;
    SpanLiterals();
    LeRoundTrip(SST_BLOCK_INDEX_MAGIC, 4);
    LeRoundTrip(SST_BLOCK_INDEX_VERSION, 2);
    LeRoundTrip(|entries|, 4);
    ParseIndexEntriesEncoded(entries);
  }

  lemma ParseKeyBack(area: Bytes)
    requires ParseKey(area).Success?
    ensures var (key, used) := ParseKey(area).value;
      |key| < U32_LIMIT && area[..used] == Le(|key|, 4) + key
  {
    SpanLiterals();
    FromLeCanonical(area[0..4]);
    var (key, used) := ParseKey(area).value;
    assert area[..used] == area[0..4] + area[4..used];
  }

  lemma ParseNumbersBack(area: Bytes, firstKey: Bytes, lastKey: Bytes)
    requires ParseNumbers(area, firstKey, lastKey).Success?
    ensures var e := ParseNumbers(area, firstKey, lastKey).value;
      && e.firstKey == firstKey && e.lastKey == lastKey
      && area[..20] == NumbersBytes(e) && e.offset < U64_LIMIT
      && e.len < U32_LIMIT && e.entryCount < U32_LIMIT && e.tombstoneCount < U32_LIMIT
  {
    hide Le, FromLe;
    SpanLiterals();
    FromLeCanonical(area[0..8]);
    FromLeCanonical(area[8..12]);
    FromLeCanonical(area[12..16]);
    FromLeCanonical(area[16..20]);
    assert area[..20] == area[0..8] + area[8..12] + area[12..16] + area[16..20];
  }

  lemma ParseIndexEntryBack(area: Bytes)
    requires ParseIndexEntry(area).Success?
    ensures var (e, used) := ParseIndexEntry(area).value; e.InRange() && area[..used] == IndexEntryBytes(e)
  {
    hide Le, ParseKey, ParseNumbers, NumbersBytes;
    var (e, used) := ParseIndexEntry(area).value;
    var (k1, u1) := ParseKey(area).value;
    var (k2, u2) := ParseKey(area[u1..]).value;
    ParseKeyBack(area);
    ParseKeyBack(area[u1..]);
    ParseNumbersBack(area[u1 + u2..], k1, k2);
    assert area[..used] == area[..u1] + area[u1..][..u2] + area[u1 + u2..][..20];
    assert IndexEntryBytes(e) == (Le(|k1|, 4) + k1) + (Le(|k2|, 4) + k2) + NumbersBytes(e);
  }

  lemma {:induction false} ParseIndexEntriesBack(area: Bytes, count: nat)
    requires ParseIndexEntries(area, count).Success?
    ensures var es := ParseIndexEntries(area, count).value;
      AllInRange(es) && |es| == count && IndexEntriesBytes(es) == area
    decreases count
  {
    hide ParseIndexEntry, IndexEntryBytes;
    if count > 0 {
      var (e, used) := ParseIndexEntry(area).value;
      var es := ParseIndexEntries(area, count).value;
      var rest := ParseIndexEntries(area[used..], count - 1).value;
      ParseIndexEntryBack(area);
      ParseIndexEntriesBack(area[used..], count - 1);
      assert es == [e] + rest && es[1..] == rest;
      assert area == area[..used] + area[used..];
    }
  }

  /** Accepted block-index bytes are exactly the encoding of what they decode to. */
  lemma IndexCanonical(buf: Bytes)
    requires ParseIndex(buf).Success?
    ensures var es := ParseIndex(buf).value; AllInRange(es) && IndexBytes(es) == buf
  {
    hide Le, FromLe, Crc, CrcBytes, Value, CrcMatches, IndexEntriesBytes, ParseIndexEntries;
    var crcAt := |buf| - CRC_LEN;
    ParseIndexEntriesBack(buf[INDEX_HEADER_LEN..crcAt], FromLe(buf[6..10]));
    FromLeCanonical(buf[0..4]);
    FromLeCanonical(buf[4..6]);
    FromLeCanonical(buf[6..10]);
    MatchingCrcIsStored(buf, crcAt);
    assert buf[..crcAt] == buf[0..4] + buf[4..6] + buf[6..10] + buf[INDEX_HEADER_LEN..crcAt];
    assert buf == buf[..crcAt] + buf[crcAt..crcAt + 4];
  }

  lemma IndexCorruption(entries: seq<IndexEntry>, bad: Bytes, at: nat, width: nat)
    requires CorruptedWithin(IndexBytes(entries), bad, at, width) && Detectable(|IndexBody(entries)|, at, width)
    ensures ParseIndex(bad) == Failure(CorruptSstBlockIndex)
  {
    hide Le, FromLe, Crc, CrcBytes, Value, CrcMatches;
    var b := IndexBody(entries);
    StoredCrcMatches(b, []);
    assert b + CrcBytes(b) + [] == IndexBytes(entries);
    ChecksumDetects(IndexBytes(entries), bad, |b|, at, width);
  }

  // ── SstBloomFilter ─────────────────────────────────────────────────────

  const SST_BLOOM_MAGIC: nat := 0x5342_4C4D
  const SST_BLOOM_VERSION: nat := 1
  const BLOOM_HEADER_LEN: nat := 22

  datatype BloomFilter = BloomFilter(numBits: nat, numHashes: nat, bits: Bytes) {
    predicate InRange() {
      numBits < U64_LIMIT && numHashes < U32_LIMIT && |bits| < U32_LIMIT
    }
  }

  function DivCeil8(n: nat): nat { (n + 7) / 8 }

  function BloomHead(f: BloomFilter): (r: Bytes)
    ensures |r| == BLOOM_HEADER_LEN
  {
    Le(SST_BLOOM_MAGIC, 4) + Le(SST_BLOOM_VERSION, 2) + Le(f.numBits, 8) + Le(f.numHashes, 4) + Le(|f.bits|, 4)
  }

  function BloomBody(f: BloomFilter): Bytes {
    BloomHead(f) + f.bits
  }

  function BloomBytes(f: BloomFilter): Bytes {
    BloomBody(f) + CrcBytes(BloomBody(f))
  }

  method EncodeSstBloomFilter(f: BloomFilter) returns (buf: Bytes)
    ensures buf == BloomBytes(f)
  {
    buf := Le(SST_BLOOM_MAGIC, 4);
    buf := buf + Le(SST_BLOOM_VERSION, 2);
    buf := buf + Le(f.numBits, 8);
    buf := buf + Le(f.numHashes, 4);
    buf := buf + Le(|f.bits|, 4);
    buf := buf + f.bits;
    var crc := Crc32(buf);
    buf := buf + Le(Value(crc), 4);
  }

  function DecodeSstBloomFilter(buf: Bytes): Result<BloomFilter> {
    if |buf| < BLOOM_HEADER_LEN + CRC_LEN then Failure(CorruptSstBloomFilter)
    else
      var crcAt := |buf| - CRC_LEN;
      if !CrcMatches(buf, crcAt) then Failure(CorruptSstBloomFilter)
      else if FromLe(buf[0..4]) != SST_BLOOM_MAGIC then Failure(CorruptSstBloomFilter)
      else if FromLe(buf[4..6]) != SST_BLOOM_VERSION then
        Failure(UnsupportedSstBloomFilterVersion(SST_BLOOM_VERSION, FromLe(buf[4..6])))
      else if FromLe(buf[18..22]) != DivCeil8(FromLe(buf[6..14])) then Failure(CorruptSstBloomFilter)
      else if FromLe(buf[18..22]) != crcAt - BLOOM_HEADER_LEN then Failure(CorruptSstBloomFilter)
      else Success(BloomFilter(FromLe(buf[6..14]), FromLe(buf[14..18]), buf[BLOOM_HEADER_LEN..crcAt]))
  }

  lemma BloomFields(f: BloomFilter)
    requires f.InRange()
    ensures var h := BloomHead(f);
      && FromLe(h[0..4]) == SST_BLOOM_MAGIC && FromLe(h[4..6]) == SST_BLOOM_VERSION
      && FromLe(h[6..14]) == f.numBits && FromLe(h[14..18]) == f.numHashes && FromLe(h[18..22]) == |f.bits|
  {
    hide Le, FromLe;
    var h := BloomHead(f);
    var p1 := Le(SST_BLOOM_MAGIC, 4);
    var p2 := p1 + Le(SST_BLOOM_VERSION, 2);
    var p3 := p2 + Le(f.numBits, 8);
    var p4 := p3 + Le(f.numHashes, 4);
    assert h == p4 + Le(|f.bits|, 4);
    assert h[0..4] == p1[0..4] == p1 && h[4..6] == p2[4..6] == Le(SST_BLOOM_VERSION, 2);
    assert h[6..14] == p3[6..14] == Le(f.numBits, 8) && h[14..18] == p4[14..18] == Le(f.numHashes, 4);
    assert h[18..22] == Le(|f.bits|, 4);
    SpanLiterals();
    LeRoundTrip(SST_BLOOM_MAGIC, 4);
    LeRoundTrip(SST_BLOOM_VERSION, 2);
    LeRoundTrip(f.numBits, 8);
    LeRoundTrip(f.numHashes, 4);
    LeRoundTrip(|f.bits|, 4);
  }

  /** A filter decodes to itself exactly when its bit count and its bytes agree. */
  lemma BloomRoundTrip(f: BloomFilter)
    requires f.InRange()
    ensures DecodeSstBloomFilter(BloomBytes(f))
         == if f.numBits <= 8 * |f.bits| < f.numBits + 8 then Success(f) else Failure(CorruptSstBloomFilter)
  {
    hide Le, FromLe, Crc, CrcBytes, Value, CrcMatches;
    var buf, b, h := BloomBytes(f), BloomBody(f), BloomHead(f);
    var crcAt := |buf| - CRC_LEN;
    BloomFields(f);
    StoredCrcMatches(b, []);
    assert b + CrcBytes(b) + [] == buf;
    assert buf[0..4] == h[0..4] && buf[4..6] == h[4..6] && buf[6..14] == h[6..14];
    assert buf[14..18] == h[14..18] && buf[18..22] == h[18..22];
    assert buf[BLOOM_HEADER_LEN..crcAt] == f.bits;
  }

  lemma BloomCanonical(buf: Bytes)
    requires DecodeSstBloomFilter(buf).Success?
    ensures var f := DecodeSstBloomFilter(buf).value;
      f.InRange() && |f.bits| == DivCeil8(f.numBits) && BloomBytes(f) == buf
  {
    hide Le, FromLe, Crc, CrcBytes, Value, CrcMatches;
    var crcAt := |buf| - CRC_LEN;
    SpanLiterals();
    FromLeCanonical(buf[0..4]);
    FromLeCanonical(buf[4..6]);
    FromLeCanonical(buf[6..14]);
    FromLeCanonical(buf[14..18]);
    FromLeCanonical(buf[18..22]);
    MatchingCrcIsStored(buf, crcAt);
    assert buf[..BLOOM_HEADER_LEN] == buf[0..4] + buf[4..6] + buf[6..14] + buf[14..18] + buf[18..22];
    assert buf[..crcAt] == buf[..BLOOM_HEADER_LEN] + buf[BLOOM_HEADER_LEN..crcAt];
    assert buf == buf[..crcAt] + buf[crcAt..crcAt + 4];
  }

  lemma BloomCorruption(f: BloomFilter, bad: Bytes, at: nat, width: nat)
    requires CorruptedWithin(BloomBytes(f), bad, at, width) && Detectable(|BloomBody(f)|, at, width)
    ensures DecodeSstBloomFilter(bad) == Failure(CorruptSstBloomFilter)
  {
    hide Le, FromLe, Crc, CrcBytes, Value, CrcMatches;
    var b := BloomBody(f);
    StoredCrcMatches(b, []);
    assert b + CrcBytes(b) + [] == BloomBytes(f);
    ChecksumDetects(BloomBytes(f), bad, |b|, at, width);
  }
}
