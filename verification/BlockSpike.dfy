/** The prototype of the block file (`bin/block_spike`): big-endian, an index of last keys only, a bloom filter
    sized to a power of two, and a linear search with early exit inside the block. A panic of the reader is
    `None`. A cipher is whatever opens what it sealed for the same section and number. */
module BlockSpike {
  import opened Bytes
  import opened Results
  import opened Tables
  import opened Keys
  import opened SstFile
  import R = SstReader
  import B = Bloom
  import C = Checksum

  datatype Cipher = Cipher(seal: (Bytes, nat, nat) -> Bytes, open: (Bytes, nat, nat) -> Bytes) {
    ghost predicate Inverts() {
      forall plain, section, no :: open(seal(plain, section, no), section, no) == plain
    }
  }

  type Sealing = Option<Cipher>

  ghost predicate Usable(sealing: Sealing) {
    sealing.Some? ==> sealing.value.Inverts()
  }

  // ── sections ───────────────────────────────────────────────────────────

  function NonceOf(section: nat, no: nat): (r: Bytes)
    ensures |r| == 24
  {
    [section % 256] + [0, 0, 0, 0, 0, 0, 0] + Be(no, 8) + [0, 0, 0, 0, 0, 0, 0, 0]
  }

  function OnDisk(sealing: Sealing, plain: Bytes, section: nat, no: nat): Bytes {
    match sealing
    case None => plain
    case Some(cipher) => NonceOf(section, no) + Field(cipher.seal(plain, section, no))
  }

  function Opened(sealing: Sealing, raw: Bytes, section: nat, no: nat): Option<Bytes> {
    match sealing
    case None => Some(raw)
    case Some(cipher) =>
      var ct := FieldFrom(raw, 24);
      if ct.None? then None else Some(cipher.open(ct.value.0, section, no))
  }

  predicate Sealable(sealing: Sealing, plain: Bytes, section: nat, no: nat) {
    sealing.Some? ==> Fits(sealing.value.seal(plain, section, no))
  }

  lemma SectionRoundTrip(sealing: Sealing, plain: Bytes, section: nat, no: nat)
    requires Usable(sealing) && Sealable(sealing, plain, section, no)
    ensures Opened(sealing, OnDisk(sealing, plain, section, no), section, no) == Some(plain)
  {
    hide Field, FieldFrom;
    if sealing.Some? {
      var nonce, ct := NonceOf(section, no), sealing.value.seal(plain, section, no);
      FieldReads(nonce, ct, []);
      assert nonce + Field(ct) + [] == nonce + Field(ct);
    }
  }

  // ── blocks ─────────────────────────────────────────────────────────────

  /** The prototype has no tombstones. */
  predicate Puts(entries: seq<Entry>) {
    forall i :: 0 <= i < |entries| ==> entries[i].value.Some?
  }

  function ValueOf(e: Entry): Bytes {
    if e.value.Some? then e.value.value else []
  }

  function PairBytes(e: Entry): Bytes {
    Field(e.key) + Field(ValueOf(e))
  }

  function Pairs(entries: seq<Entry>): Bytes {
    if entries == [] then [] else PairBytes(entries[0]) + Pairs(entries[1..])
  }

  function BlockBytes(entries: seq<Entry>): Bytes {
    Be(|entries|, 4) + Pairs(entries)
  }

  method EncodeBlock(entries: seq<Entry>) returns (out: Bytes)
    ensures out == BlockBytes(entries)
  {
    hide Be;
    out := Be(|entries|, 4);
    for i := 0 to |entries|
      invariant out + Pairs(entries[i..]) == BlockBytes(entries)
    {
      var e := entries[i];
      PairStep(out, entries, i);
      out := out + Be(|e.key|, 4);
      out := out + e.key;
      out := out + Be(|ValueOf(e)|, 4);
      out := out + ValueOf(e);
    }
  }

  lemma PairStep(out: Bytes, entries: seq<Entry>, i: nat)
    requires i < |entries|
    ensures var e := entries[i];
      out + Be(|e.key|, 4) + e.key + Be(|ValueOf(e)|, 4) + ValueOf(e) + Pairs(entries[i + 1..]) == out + Pairs(entries[i..])
  {
    hide Be;
    assert entries[i..][0] == entries[i] && entries[i..][1..] == entries[i + 1..];
  }

  /** From entry position `at` with `n` entries to go: the value, or nothing; an early exit once keys are past. */
  function SearchFrom(plain: Bytes, at: nat, n: nat, key: Bytes): Option<Option<Bytes>>
    decreases n
  {
    if n == 0 then Some(None)
    else
      var k := FieldFrom(plain, at);
      if k.None? || |plain| < k.value.1 + 4 then None
      else
        var start := k.value.1 + 4;
        var end := start + FromBe(plain[k.value.1..start]);
        if k.value.0 == key then if |plain| < end then None else Some(Some(plain[start..end]))
        else if Lt(key, k.value.0) then Some(None)
        else SearchFrom(plain, end, n - 1, key)
  }

  method SearchBlock(plain: Bytes, key: Bytes) returns (res: Option<Option<Bytes>>)
    ensures res == if |plain| < 4 then None else SearchFrom(plain, 4, FromBe(plain[0..4]), key)
  {
    hide FromBe, FieldFrom;
    if |plain| < 4 {
      return None;
    }
    var n := FromBe(plain[0..4]);
    var at: nat := 4;
    for i := 0 to n
      invariant SearchFrom(plain, 4, n, key) == SearchFrom(plain, at, n - i, key)
    {
      var k := FieldFrom(plain, at);
      if k.None? || |plain| < k.value.1 + 4 {
        return None;
      }
      var start := k.value.1 + 4;
      var end := start + FromBe(plain[k.value.1..start]);
      if k.value.0 == key {
        return if |plain| < end then None else Some(Some(plain[start..end]));
      }
      if Lt(key, k.value.0) {
        return Some(None);
      }
      at := end;
    }
    return Some(None);
  }

  predicate PairFits(e: Entry) {
    Fits(e.key) && Fits(ValueOf(e))
  }

  predicate AllFit(entries: seq<Entry>) {
    |entries| < U32_LIMIT && forall i :: 0 <= i < |entries| ==> PairFits(entries[i])
  }

  function Value(hit: Option<Slot>): Option<Bytes> {
    if hit.Some? then hit.value else None
  }

  lemma PairReads(p: Bytes, e: Entry, x: Bytes)
    requires PairFits(e)
    ensures var whole := p + PairBytes(e) + x;
      var keyEnd := |p| + |Field(e.key)|;
      var start := keyEnd + 4;
      && FieldFrom(whole, |p|) == Some((e.key, keyEnd)) && start <= |whole|
      && FromBe(whole[keyEnd..start]) == |ValueOf(e)|
      && start + |ValueOf(e)| == |p + PairBytes(e)| && whole[start..start + |ValueOf(e)|] == ValueOf(e)
  {
    hide Be, FromBe, FieldFrom;
    var whole, v := p + PairBytes(e) + x, ValueOf(e);
    FieldReads(p, e.key, Field(v) + x);
    assert whole == p + Field(e.key) + (Field(v) + x);
    var head := p + Field(e.key);
    SpanLiterals();
    BeRoundTrip(|v|, 4);
    assert whole == head + Be(|v|, 4) + (v + x);
    Middle(head, Be(|v|, 4), v + x);
    assert whole == head + Be(|v|, 4) + v + x;
    Middle(head + Be(|v|, 4), v, x);
  }

  /** In a sorted block the early exit loses nothing: the search is a linear search of the entries. */
  lemma {:induction false} SearchPairs(p: Bytes, entries: seq<Entry>, key: Bytes)
    requires StrictlySorted(entries) && Puts(entries) && forall i :: 0 <= i < |entries| ==> PairFits(entries[i])
    ensures SearchFrom(p + Pairs(entries), |p|, |entries|, key) == Some(Value(Find(entries, key)))
    decreases |entries|
  {
    hide PairBytes, FieldFrom, FromBe, PairFits, Field;
    if entries != [] {
      var e, rest := entries[0], entries[1..];
      PairReads(p, e, Pairs(rest));
      assert p + Pairs(entries) == p + PairBytes(e) + Pairs(rest);
      if e.key != key {
        if Lt(key, e.key) {
          forall i | 0 <= i < |entries|
            ensures entries[i].key != key
          {
            if i > 0 {
              LtTransitive(key, e.key, entries[i].key);
            }
            LtIrreflexive(key);
          }
          FindNowhere(entries, key);
        } else {
          SearchPairs(p + PairBytes(e), rest, key);
        }
      }
    }
  }

  lemma SearchWritten(entries: seq<Entry>, key: Bytes)
    requires StrictlySorted(entries) && Puts(entries) && AllFit(entries)
    ensures var plain := BlockBytes(entries);
      && |plain| >= 4 && FromBe(plain[0..4]) == |entries|
      && SearchFrom(plain, 4, |entries|, key) == Some(Value(Find(entries, key)))
  {
    hide Be, FromBe, Pairs;
    SpanLiterals();
    BeRoundTrip(|entries|, 4);
    assert BlockBytes(entries)[0..4] == Be(|entries|, 4);
    SearchPairs(Be(|entries|, 4), entries, key);
  }

  // ── the index ──────────────────────────────────────────────────────────

  datatype Row = Row(lastKey: Bytes, offset: nat, len: nat)

  predicate RowFits(row: Row) {
    Fits(row.lastKey) && row.offset < U64_LIMIT && row.len < U32_LIMIT
  }

  function RowBytes(row: Row): Bytes {
    Field(row.lastKey) + Be(row.offset, 8) + Be(row.len, 4)
  }

  function RowsBytes(rows: seq<Row>): Bytes {
    if rows == [] then [] else RowBytes(rows[0]) + RowsBytes(rows[1..])
  }

  function IndexBytes(rows: seq<Row>): Bytes {
    Be(|rows|, 4) + RowsBytes(rows)
  }

  function ParseRow(bytes: Bytes, at: nat): Option<(Row, nat)> {
    var key := FieldFrom(bytes, at);
    if key.None? || |bytes| < key.value.1 + 12 then None
    else
      var i := key.value.1;
      Some((Row(key.value.0, FromBe(bytes[i..i + 8]), FromBe(bytes[i + 8..i + 12])), i + 12))
  }

  function ParseRows(bytes: Bytes, at: nat, n: nat): Option<seq<Row>>
    decreases n
  {
    if n == 0 then Some([])
    else
      var row := ParseRow(bytes, at);
      if row.None? then None
      else
        var rest := ParseRows(bytes, row.value.1, n - 1);
        if rest.None? then None else Some([row.value.0] + rest.value)
  }

  function ParseIndex(bytes: Bytes): Option<seq<Row>> {
    if |bytes| < 4 then None else ParseRows(bytes, 4, FromBe(bytes[0..4]))
  }

  method DecodeIndex(bytes: Bytes) returns (res: Option<seq<Row>>)
    ensures res == ParseIndex(bytes)
  {
    hide FromBe, FieldFrom, ParseRow;
    if |bytes| < 4 {
      return None;
    }
    var n := FromBe(bytes[0..4]);
    var index: seq<Row>, at: nat := [], 4;
    for i := 0 to n
      invariant ParseIndex(bytes) == Prefixed(index, ParseRows(bytes, at, n - i))
    {
      var row := ParseRow(bytes, at);
      if row.None? {
        return None;
      }
      PrefixedStep(index, row.value.0, ParseRows(bytes, row.value.1, n - i - 1));
      index := index + [row.value.0];
      at := row.value.1;
    }
    assert index + [] == index;
    return Some(index);
  }

  function Prefixed(done: seq<Row>, rest: Option<seq<Row>>): Option<seq<Row>> {
    if rest.None? then None else if done == [] then rest else Some(done + rest.value)
  }

  lemma PrefixedStep(done: seq<Row>, row: Row, rest: Option<seq<Row>>)
    ensures Prefixed(done, if rest.None? then None else Some([row] + rest.value)) == Prefixed(done + [row], rest)
  {
    if rest.Some? {
      assert done + ([row] + rest.value) == done + [row] + rest.value;
      assert [] + [row] == [row];
    }
  }

  lemma RowReads(p: Bytes, row: Row, x: Bytes)
    requires RowFits(row)
    ensures ParseRow(p + RowBytes(row) + x, |p|) == Some((row, |p + RowBytes(row)|))
  {
    hide Be, FromBe, FieldFrom, Field;
    var o, l, whole := Be(row.offset, 8), Be(row.len, 4), p + RowBytes(row) + x;
    var head := p + Field(row.lastKey);
    FieldReads(p, row.lastKey, o + l + x);
    assert whole == head + (o + l + x);
    assert whole == head + o + (l + x);
    Middle(head, o, l + x);
    assert whole == head + o + l + x;
    Middle(head + o, l, x);
    SpanLiterals();
    BeRoundTrip(row.offset, 8);
    BeRoundTrip(row.len, 4);
  }

  lemma {:induction false} RowsRoundTrip(p: Bytes, rows: seq<Row>)
    requires forall i :: 0 <= i < |rows| ==> RowFits(rows[i])
    ensures ParseRows(p + RowsBytes(rows), |p|, |rows|) == Some(rows)
    decreases |rows|
  {
    hide ParseRow, RowBytes, RowFits;
    if rows != [] {
      RowReads(p, rows[0], RowsBytes(rows[1..]));
      assert p + RowsBytes(rows) == p + RowBytes(rows[0]) + RowsBytes(rows[1..]);
      RowsRoundTrip(p + RowBytes(rows[0]), rows[1..]);
      assert rows == [rows[0]] + rows[1..];
    }
  }

  lemma IndexRoundTrip(rows: seq<Row>)
    requires |rows| < U32_LIMIT && forall i :: 0 <= i < |rows| ==> RowFits(rows[i])
    ensures ParseIndex(IndexBytes(rows)) == Some(rows)
  {
    hide Be, FromBe, RowsBytes, RowFits;
    SpanLiterals();
    BeRoundTrip(|rows|, 4);
    assert IndexBytes(rows)[0..4] == Be(|rows|, 4);
    RowsRoundTrip(Be(|rows|, 4), rows);
  }

  // ── the file ───────────────────────────────────────────────────────────

  /** What a pair adds to the size of the block being filled. */
  function PairSize(e: Entry): nat {
    |e.key| + |ValueOf(e)| + 8
  }

  /** The blocks the writer makes. */
  function Split(entries: seq<Entry>, blockSize: nat): (r: seq<seq<Entry>>)
    ensures Flat(r) == entries && NonEmpty(r)
  {
    BlocksPartition(entries, [], 0, blockSize, PairSize);
    assert [] + entries == entries;
    Blocks(entries, [], 0, blockSize, PairSize)
  }

  lemma {:induction false} BlockSizeIs(block: seq<Entry>)
    ensures |BlockBytes(block)| == 4 + Wires(block, PairSize)
  {
    if block != [] {
      var n := |block| - 1;
      BlockSizeIs(block[..n]);
      PairsSnoc(block[..n], block[n]);
      assert block == block[..n] + [block[n]];
    }
  }

  lemma {:induction false} PairsSnoc(block: seq<Entry>, e: Entry)
    ensures Pairs(block + [e]) == Pairs(block) + PairBytes(e)
  {
    if block == [] {
      assert [e][1..] == [];
    } else {
      assert (block + [e])[1..] == block[1..] + [e];
      PairsSnoc(block[1..], e);
    }
  }

  /** A block is closed by the pair with which its encoded pairs reach the block size, the count in front aside. */
  lemma SplitFills(entries: seq<Entry>, blockSize: nat)
    ensures var blocks := Split(entries, blockSize);
      && (forall i :: 0 <= i < |blocks| - 1 ==> |BlockBytes(blocks[i])| >= 4 + blockSize)
      && (forall i :: 0 <= i < |blocks| && |blocks[i]| > 1 ==>
            |BlockBytes(blocks[i][..|blocks[i]| - 1])| < 4 + blockSize)
  {
    hide BlockBytes, Wires, Blocks;
    assert Wires([], PairSize) == 0 by { BlockSizeIs([]); NoPairs(); }
    BlocksFill(entries, [], 0, blockSize, PairSize);
    forall block
      ensures |BlockBytes(block)| == 4 + Wires(block, PairSize)
    {
      BlockSizeIs(block);
    }
  }

  lemma NoPairs()
    ensures |BlockBytes([])| == 4
  {
  }

  function BlockOnDisk(sealing: Sealing, block: seq<Entry>, no: nat): Bytes {
    OnDisk(sealing, BlockBytes(block), 0, no)
  }

  function Data(sealing: Sealing, blocks: seq<seq<Entry>>): Bytes {
    if blocks == [] then []
    else
      var n := |blocks| - 1;
      Data(sealing, blocks[..n]) + BlockOnDisk(sealing, blocks[n], n)
  }

  function Rows(sealing: Sealing, blocks: seq<seq<Entry>>): (rows: seq<Row>)
    requires NonEmpty(blocks)
    ensures |rows| == |blocks|
  {
    if blocks == [] then []
    else
      var n := |blocks| - 1;
      Rows(sealing, blocks[..n])
      + [Row(R.LastKey(blocks[n]), |Data(sealing, blocks[..n])|, |BlockOnDisk(sealing, blocks[n], n)|)]
  }

  function NextPowerOfTwo(n: nat, p: nat): (r: nat)
    requires p > 0
    ensures r >= n && r >= p
    decreases n - p
  {
    if n <= p then p else NextPowerOfTwo(n, 2 * p)
  }

  /** The least power of two, from `p` on, that reaches `n`. */
  lemma {:induction false} NextPowerOfTwoIs(n: nat, p: nat) returns (e: nat)
    requires p > 0
    ensures NextPowerOfTwo(n, p) == C.Pow2(e) * p && (e > 0 ==> C.Pow2(e - 1) * p < n)
    decreases n - p
  {
    if n <= p {
      e := 0;
    } else {
      var more := NextPowerOfTwoIs(n, 2 * p);
      e := more + 1;
      assert C.Pow2(more) * (2 * p) == C.Pow2(e) * p;
      if more > 0 {
        assert C.Pow2(more - 1) * (2 * p) == C.Pow2(more) * p;
      }
    }
  }

  /** The filter takes the least power of two of bits with ten for every key, and its bits are raised by its keys. */
  lemma FilterIs(entries: seq<Entry>, hasher: B.Hasher) returns (e: nat)
    requires entries != []
    ensures var bits := FilterBits(entries, hasher);
      && 8 * |bits| == C.Pow2(e) && e > 0 && C.Pow2(e - 1) < 10 * |entries| <= C.Pow2(e)
      && forall k :: 0 <= k < 8 * |bits| ==>
           (B.HasBit(bits, k) <==> exists j :: 0 <= j < |entries| && B.Probes(hasher, 8 * |bits|, entries[j].key, k))
  {
    hide B.HasBit, B.InsertedAll, B.Probes, C.Pow2;
    e := NextPowerOfTwoIs(|entries| * B.BLOOM_BITS_PER_KEY, 1);
    SmallPowers(e);
    var bits, keys := FilterBits(entries, hasher), SstFile.Keys(entries);
    forall k | 0 <= k < 8 * |bits|
      ensures B.HasBit(bits, k)
          <==> exists j :: 0 <= j < |entries| && B.Probes(hasher, 8 * |bits|, entries[j].key, k)
    {
      NoBit(|bits|, k);
      B.FilterBits(Zeros(|bits|), 8 * |bits|, hasher, keys, k);
    }
  }

  lemma SmallPowers(e: nat)
    ensures e <= 2 ==> C.Pow2(e) < 10
    ensures e > 2 ==> C.Pow2(e) % 8 == 0
    ensures C.Pow2(0) == 1
  {
    if e > 2 {
      assert C.Pow2(e) == 2 * C.Pow2(e - 1) && C.Pow2(e - 1) == 2 * C.Pow2(e - 2);
      assert C.Pow2(e - 2) == 2 * C.Pow2(e - 3);
    }
  }

  /** Ten bits a key, rounded up to a power of two; no bits at all without keys. */
  function FilterBits(entries: seq<Entry>, hasher: B.Hasher): (bits: Bytes)
    ensures entries != [] ==> |bits| > 0
  {
    var size := NextPowerOfTwo(|entries| * B.BLOOM_BITS_PER_KEY, 1) / 8;
    if size == 0 then [] else B.InsertedAll(Zeros(size), 8 * size, hasher, SstFile.Keys(entries))
  }

  function Footer(indexOff: nat, indexLen: nat, bloomLen: nat): (r: Bytes)
    ensures |r| == 32
  {
    Be(indexOff, 8) + Be(indexLen, 8) + Be(indexOff + indexLen, 8) + Be(bloomLen, 8)
  }

  function FileBytes(sealing: Sealing, blocks: seq<seq<Entry>>, bits: Bytes): Bytes
    requires NonEmpty(blocks)
  {
    var data, index, bloom := Data(sealing, blocks), OnDisk(sealing, IndexBytes(Rows(sealing, blocks)), 1, 0),
                              OnDisk(sealing, bits, 2, 0);
    data + index + bloom + Footer(|data|, |index|, |bloom|)
  }

  method WriteFile(entries: seq<Entry>, blockSize: nat, hasher: B.Hasher, sealing: Sealing) returns (file: Bytes)
    ensures file == FileBytes(sealing, Split(entries, blockSize), FilterBits(entries, hasher))
  {
    hide B.Inserted, BlockBytes, OnDisk, Footer, IndexBytes, Blocks, FilterUpTo, B.InsertedAll, SstFile.Keys, Data, Rows, PairSize;
    ghost var blocks := Split(entries, blockSize);
    var size := NextPowerOfTwo(|entries| * B.BLOOM_BITS_PER_KEY, 1) / 8;
    var bits := Zeros(size);
    var data: Bytes, index: seq<Row>, block: seq<Entry> := [], [], [];
    var payload: nat, blockNo: nat := 0, 0;
    ghost var done: seq<seq<Entry>> := [];
    NothingWritten(sealing);
    FilterStart(entries, size, hasher);
    assert entries[0..] == entries;
    for i := 0 to |entries|
      invariant done + Blocks(entries[i..], block, payload, blockSize, PairSize) == blocks && NonEmpty(done)
      invariant data == Data(sealing, done) && index == Rows(sealing, done) && blockNo == |done|
      invariant size > 0 ==> bits == FilterUpTo(entries, i, size, hasher)
      invariant size == 0 ==> bits == []
    {
      var e := entries[i];
      FilterStep(entries, i, size, hasher);
      bits := B.Insert(bits, 8 * size, hasher, e.key);
      BlocksStep(done, entries, i, block, payload, blockSize, PairSize);
      block := block + [e];
      payload := payload + PairSize(e);
      if payload >= blockSize {
        data, index := FlushBlock(sealing, done, block, data, index);
        done, blockNo := done + [block], blockNo + 1;
        block, payload := [], 0;
      }
    }
    BlocksEnd(done, entries, block, payload, blockSize, PairSize);
    if block != [] {
      data, index := FlushBlock(sealing, done, block, data, index);
      done := done + [block];
    }
    FilterEnd(entries, size, hasher);
    var indexBytes := EncodeIndex(index);
    indexBytes := OnDisk(sealing, indexBytes, 1, 0);
    var bloomBytes := OnDisk(sealing, bits, 2, 0);
    file := data + indexBytes;
    file := file + bloomBytes;
    file := file + Footer(|data|, |indexBytes|, |bloomBytes|);
  }

  lemma FilterStart(entries: seq<Entry>, size: nat, hasher: B.Hasher)
    requires size == NextPowerOfTwo(|entries| * B.BLOOM_BITS_PER_KEY, 1) / 8
    ensures entries != [] <==> size > 0
    ensures size > 0 ==> FilterUpTo(entries, 0, size, hasher) == Zeros(size)
  {
    if size > 0 {
      FilterStep(entries, 0, size, hasher);
    }
  }

  lemma FilterEnd(entries: seq<Entry>, size: nat, hasher: B.Hasher)
    requires size == NextPowerOfTwo(|entries| * B.BLOOM_BITS_PER_KEY, 1) / 8
    ensures FilterBits(entries, hasher) == if size > 0 then FilterUpTo(entries, |entries|, size, hasher) else []
  {
    FilterStart(entries, size, hasher);
    if size > 0 {
      FilterStep(entries, |entries|, size, hasher);
    }
  }

  lemma NothingWritten(sealing: Sealing)
    ensures Data(sealing, []) == [] && Rows(sealing, []) == []
  {
  }

  /** Seals and appends one block, and its index row. */
  method FlushBlock(sealing: Sealing, ghost done: seq<seq<Entry>>, block: seq<Entry>, data: Bytes, index: seq<Row>)
    returns (data': Bytes, index': seq<Row>)
    requires NonEmpty(done) && block != [] && data == Data(sealing, done) && index == Rows(sealing, done)
    ensures NonEmpty(done + [block])
    ensures data' == Data(sealing, done + [block]) && index' == Rows(sealing, done + [block])
  {
    hide BlockBytes, OnDisk;
    assert (done + [block])[..|done|] == done;
    var plain := EncodeBlock(block);
    var bytes := OnDisk(sealing, plain, 0, |index|);
    data' := data + bytes;
    index' := index + [Row(R.LastKey(block), |data|, |bytes|)];
  }

  method EncodeIndex(index: seq<Row>) returns (out: Bytes)
    ensures out == IndexBytes(index)
  {
    hide Be;
    out := Be(|index|, 4);
    for i := 0 to |index|
      invariant out + RowsBytes(index[i..]) == IndexBytes(index)
    {
      var row := index[i];
      RowStep(out, index, i);
      out := out + Be(|row.lastKey|, 4);
      out := out + row.lastKey;
      out := out + Be(row.offset, 8);
      out := out + Be(row.len, 4);
    }
  }

  lemma RowStep(out: Bytes, index: seq<Row>, i: nat)
    requires i < |index|
    ensures var row := index[i];
      out + Be(|row.lastKey|, 4) + row.lastKey + Be(row.offset, 8) + Be(row.len, 4) + RowsBytes(index[i + 1..])
      == out + RowsBytes(index[i..])
  {
    hide Be;
    assert index[i..][0] == index[i] && index[i..][1..] == index[i + 1..];
  }

  // ── the reader ─────────────────────────────────────────────────────────

  datatype Reader = Reader(index: seq<Row>, bits: Bytes)

  function Span(file: Bytes, offset: nat, len: nat): Option<Bytes> {
    if offset + len <= |file| then Some(file[offset..offset + len]) else None
  }

  function Section(file: Bytes, sealing: Sealing, offset: nat, len: nat, section: nat, no: nat): Option<Bytes> {
    var raw := Span(file, offset, len);
    if raw.None? then None else Opened(sealing, raw.value, section, no)
  }

  function Open(file: Bytes, sealing: Sealing): Option<Reader> {
    if |file| < 32 then None
    else
      var footer := file[|file| - 32..];
      var index := Section(file, sealing, FromBe(footer[0..8]), FromBe(footer[8..16]), 1, 0);
      var bloom := Section(file, sealing, FromBe(footer[16..24]), FromBe(footer[24..32]), 2, 0);
      if index.None? || bloom.None? then None
      else
        var rows := ParseIndex(index.value);
        if rows.None? then None else Some(Reader(rows.value, bloom.value))
  }

  /** How many leading blocks end before `key`. */
  function PartitionPoint(index: seq<Row>, key: Bytes): (p: nat)
    ensures p <= |index|
  {
    if index == [] || !Lt(index[0].lastKey, key) then 0 else 1 + PartitionPoint(index[1..], key)
  }

  /** The value, if any, and the bytes read from disk. */
  method Lookup(file: Bytes, reader: Reader, hasher: B.Hasher, sealing: Sealing, key: Bytes)
    returns (res: Option<(Option<Bytes>, nat)>)
    ensures res == LookupIn(file, reader, hasher, sealing, key)
  {
    hide FromBe, Opened, B.Contains, PartitionPoint;
    if reader.bits == [] {
      return None;
    }
    if !B.Contains(reader.bits, 8 * |reader.bits|, hasher, key) {
      return Some((None, 0));
    }
    var blockIdx := PartitionPoint(reader.index, key);
    if blockIdx == |reader.index| {
      return Some((None, 0));
    }
    var row := reader.index[blockIdx];
    var bytes := Span(file, row.offset, row.len);
    if bytes.None? {
      return None;
    }
    var plain := Opened(sealing, bytes.value, 0, blockIdx);
    if plain.None? {
      return None;
    }
    var found := SearchBlock(plain.value, key);
    return if found.None? then None else Some((found.value, |bytes.value|));
  }

  function LookupIn(file: Bytes, reader: Reader, hasher: B.Hasher, sealing: Sealing, key: Bytes): Option<(Option<Bytes>, nat)> {
    if reader.bits == [] then None
    else if !B.Contains(reader.bits, 8 * |reader.bits|, hasher, key) then Some((None, 0))
    else
      var at := PartitionPoint(reader.index, key);
      if at == |reader.index| then Some((None, 0))
      else
        var plain := Section(file, sealing, reader.index[at].offset, reader.index[at].len, 0, at);
        if plain.None? || |plain.value| < 4 then None
        else
          var found := SearchFrom(plain.value, 4, FromBe(plain.value[0..4]), key);
          if found.None? then None else Some((found.value, reader.index[at].len))
  }

  /** The number of entries in the first `n` blocks. */
  function CountIn(file: Bytes, reader: Reader, sealing: Sealing, n: nat): Option<nat>
    requires n <= |reader.index|
  {
    if n == 0 then Some(0)
    else
      var before, row := CountIn(file, reader, sealing, n - 1), reader.index[n - 1];
      var plain := Section(file, sealing, row.offset, row.len, 0, n - 1);
      if before.None? || plain.None? || |plain.value| < 4 then None
      else Some(before.value + FromBe(plain.value[0..4]))
  }

  method ScanAll(file: Bytes, reader: Reader, sealing: Sealing) returns (res: Option<nat>)
    ensures res == CountIn(file, reader, sealing, |reader.index|)
  {
    hide FromBe, Section;
    var total: nat := 0;
    for i := 0 to |reader.index|
      invariant CountIn(file, reader, sealing, i) == Some(total)
    {
      var row := reader.index[i];
      var plain := Section(file, sealing, row.offset, row.len, 0, i);
      if plain.None? || |plain.value| < 4 {
        NeverCounts(file, reader, sealing, i + 1, |reader.index|);
        return None;
      }
      total := total + FromBe(plain.value[0..4]);
    }
    return Some(total);
  }

  lemma {:induction false} NeverCounts(file: Bytes, reader: Reader, sealing: Sealing, i: nat, n: nat)
    requires i <= n <= |reader.index| && CountIn(file, reader, sealing, i).None?
    ensures CountIn(file, reader, sealing, n).None?
  {
    if i < n {
      NeverCounts(file, reader, sealing, i, n - 1);
    }
  }

  // ── reading what was written ───────────────────────────────────────────

  /** Every length, count and offset fits the field it is cast to. */
  ghost predicate InRange(sealing: Sealing, blocks: seq<seq<Entry>>, bits: Bytes)
    requires NonEmpty(blocks)
  {
    var rows := Rows(sealing, blocks);
    && |blocks| < U32_LIMIT && |FileBytes(sealing, blocks, bits)| < U64_LIMIT
    && (forall i :: 0 <= i < |blocks| ==>
          AllFit(blocks[i]) && Sealable(sealing, BlockBytes(blocks[i]), 0, i)
          && |BlockOnDisk(sealing, blocks[i], i)| < U32_LIMIT)
    && Sealable(sealing, IndexBytes(rows), 1, 0) && Sealable(sealing, bits, 2, 0)
  }

  lemma {:induction false} RowAt(sealing: Sealing, blocks: seq<seq<Entry>>, i: nat)
    requires NonEmpty(blocks) && i < |blocks|
    ensures Rows(sealing, blocks)[i]
         == Row(R.LastKey(blocks[i]), |Data(sealing, blocks[..i])|, |BlockOnDisk(sealing, blocks[i], i)|)
    ensures Data(sealing, blocks[..i]) + BlockOnDisk(sealing, blocks[i], i) <= Data(sealing, blocks)
  {
    hide BlockOnDisk;
    var n := |blocks| - 1;
    if i < n {
      RowAt(sealing, blocks[..n], i);
      assert blocks[..n][..i] == blocks[..i];
    }
  }

  lemma FooterReads(a: nat, b: nat, c: nat)
    requires a + b < U64_LIMIT && c < U64_LIMIT
    ensures var f := Footer(a, b, c);
      FromBe(f[0..8]) == a && FromBe(f[8..16]) == b && FromBe(f[16..24]) == a + b && FromBe(f[24..32]) == c
  {
    hide Be, FromBe;
    SpanLiterals();
    BeRoundTrip(a, 8);
    BeRoundTrip(b, 8);
    BeRoundTrip(a + b, 8);
    BeRoundTrip(c, 8);
    var f := Footer(a, b, c);
    assert f[0..8] == Be(a, 8) && f[8..16] == Be(b, 8) && f[16..24] == Be(a + b, 8) && f[24..32] == Be(c, 8);
  }

  lemma FileParts(sealing: Sealing, blocks: seq<seq<Entry>>, bits: Bytes)
    requires NonEmpty(blocks)
    ensures var file, data := FileBytes(sealing, blocks, bits), Data(sealing, blocks);
      var index, bloom := OnDisk(sealing, IndexBytes(Rows(sealing, blocks)), 1, 0), OnDisk(sealing, bits, 2, 0);
      && |file| == |data| + |index| + |bloom| + 32
      && file[|file| - 32..] == Footer(|data|, |index|, |bloom|)
      && file[..|data|] == data && file[|data|..|data| + |index|] == index
      && file[|data| + |index|..|data| + |index| + |bloom|] == bloom
  {
    hide OnDisk, IndexBytes, Footer, Data, Rows;
  }

  lemma RowsFit(sealing: Sealing, blocks: seq<seq<Entry>>, bits: Bytes)
    requires NonEmpty(blocks) && InRange(sealing, blocks, bits)
    ensures forall i :: 0 <= i < |blocks| ==> RowFits(Rows(sealing, blocks)[i])
  {
    hide OnDisk, IndexBytes, BlockBytes, Data, Rows, Sealable;
    forall i | 0 <= i < |blocks|
      ensures RowFits(Rows(sealing, blocks)[i])
    {
      RowAt(sealing, blocks, i);
      FileParts(sealing, blocks, bits);
      assert PairFits(blocks[i][|blocks[i]| - 1]);
    }
  }

  /** A written file opens to its own index and filter. */
  lemma OpenWritten(sealing: Sealing, blocks: seq<seq<Entry>>, bits: Bytes)
    requires NonEmpty(blocks) && Usable(sealing) && InRange(sealing, blocks, bits)
    ensures Open(FileBytes(sealing, blocks, bits), sealing) == Some(Reader(Rows(sealing, blocks), bits))
  {
    hide OnDisk, Opened, IndexBytes, ParseIndex, Footer, Data, Rows, FromBe, BlockBytes, Sealable;
    var rows := Rows(sealing, blocks);
    var index, bloom := OnDisk(sealing, IndexBytes(rows), 1, 0), OnDisk(sealing, bits, 2, 0);
    FileParts(sealing, blocks, bits);
    FooterReads(|Data(sealing, blocks)|, |index|, |bloom|);
    SectionRoundTrip(sealing, IndexBytes(rows), 1, 0);
    SectionRoundTrip(sealing, bits, 2, 0);
    RowsFit(sealing, blocks, bits);
    IndexRoundTrip(rows);
  }

  /** Every indexed block reads back as the bytes it was written from. */
  lemma BlockReads(sealing: Sealing, blocks: seq<seq<Entry>>, bits: Bytes, i: nat)
    requires NonEmpty(blocks) && Usable(sealing) && InRange(sealing, blocks, bits) && i < |blocks|
    ensures var row := Rows(sealing, blocks)[i];
      Section(FileBytes(sealing, blocks, bits), sealing, row.offset, row.len, 0, i) == Some(BlockBytes(blocks[i]))
  {
    hide OnDisk, Opened, IndexBytes, Footer, Data, Rows, BlockBytes, Sealable, AllFit, FileBytes;
    var file, before, own := FileBytes(sealing, blocks, bits), Data(sealing, blocks[..i]), BlockOnDisk(sealing, blocks[i], i);
    RowAt(sealing, blocks, i);
    FileParts(sealing, blocks, bits);
    var data := Data(sealing, blocks);
    assert before + own <= data && data <= file;
    FieldAt(file, before, own);
    SectionRoundTrip(sealing, BlockBytes(blocks[i]), 0, i);
  }

  lemma {:induction false} PartitionPointIs(index: seq<Row>, key: Bytes)
    ensures var p := PartitionPoint(index, key);
      && (forall i :: 0 <= i < p ==> Lt(index[i].lastKey, key))
      && (p < |index| ==> !Lt(index[p].lastKey, key))
  {
    if index != [] && Lt(index[0].lastKey, key) {
      PartitionPointIs(index[1..], key);
      assert forall i :: 0 < i < |index| ==> index[i] == index[1..][i - 1];
    }
  }

  lemma FilterMiss(entries: seq<Entry>, hasher: B.Hasher, key: Bytes)
    requires entries != []
    requires var bits := FilterBits(entries, hasher); !B.Contains(bits, 8 * |bits|, hasher, key)
    ensures Find(entries, key) == None
  {
    hide B.Contains, B.InsertedAll, NextPowerOfTwo;
    var size := NextPowerOfTwo(|entries| * B.BLOOM_BITS_PER_KEY, 1) / 8;
    forall i | 0 <= i < |entries|
      ensures entries[i].key != key
    {
      B.NoFalseNegatives(Zeros(size), 8 * size, hasher, SstFile.Keys(entries), i);
    }
    FindNowhere(entries, key);
  }

  /** What a written file is: a nonempty sorted list of puts, split anywhere, with the filter of its keys. */
  ghost predicate WrittenFrom(entries: seq<Entry>, hasher: B.Hasher, sealing: Sealing, blocks: seq<seq<Entry>>, bits: Bytes) {
    && entries != [] && StrictlySorted(entries) && Puts(entries) && Usable(sealing)
    && NonEmpty(blocks) && Flat(blocks) == entries && bits == FilterBits(entries, hasher)
    && InRange(sealing, blocks, bits)
  }

  /** A file without a cipher is always usable. */
  lemma PlainIsUsable(plain: Bytes, section: nat, no: nat)
    ensures Usable(None) && Sealable(None, plain, section, no)
  {
  }

  /** Looking any key up in a written file gives what a linear search of the entries gives, for every block size,
      hash functions and cipher; it reads one block or nothing. */
  lemma LookupWritten(entries: seq<Entry>, hasher: B.Hasher, sealing: Sealing, blocks: seq<seq<Entry>>, bits: Bytes,
                      key: Bytes)
    requires WrittenFrom(entries, hasher, sealing, blocks, bits)
    ensures var res := LookupIn(FileBytes(sealing, blocks, bits), Reader(Rows(sealing, blocks), bits), hasher, sealing, key);
      && res.Some? && res.value.0 == Value(Find(entries, key))
      && (res.value.1 == 0 || exists i :: 0 <= i < |blocks| && res.value.1 == |BlockOnDisk(sealing, blocks[i], i)|)
  {
    hide B.Contains, FilterBits, Section, Rows, Flat, Find, PartitionPoint, StrictlySorted, BlockBytes, OnDisk, FileBytes;
    hide SearchFrom, FromBe, Puts, Sealable, AllFit;
    if !B.Contains(bits, 8 * |bits|, hasher, key) {
      FilterMiss(entries, hasher, key);
    } else {
      var rows := Rows(sealing, blocks);
      var p := PartitionPoint(rows, key);
      PartitionPointIs(rows, key);
      forall i | 0 <= i < |blocks|
        ensures rows[i].lastKey == R.LastKey(blocks[i]) && rows[i].len == |BlockOnDisk(sealing, blocks[i], i)|
      {
        RowAt(sealing, blocks, i);
      }
      R.FindInBlock(blocks, p, key);
      if p < |blocks| {
        BlockReads(sealing, blocks, bits, p);
        R.BlockSorted(blocks, p);
        PutsInBlock(blocks, p);
        SearchWritten(blocks[p], key);
      }
    }
  }

  lemma {:induction false} PutsInBlock(blocks: seq<seq<Entry>>, i: nat)
    requires Puts(Flat(blocks)) && i < |blocks|
    ensures Puts(blocks[i])
  {
    var first, rest := blocks[0], Flat(blocks[1..]);
    assert forall j :: 0 <= j < |first| ==> Flat(blocks)[j] == first[j];
    assert forall j :: 0 <= j < |rest| ==> Flat(blocks)[|first| + j] == rest[j];
    if i > 0 {
      PutsInBlock(blocks[1..], i - 1);
    }
  }

  /** The scan counts every entry. */
  lemma {:induction false} ScanCounts(entries: seq<Entry>, hasher: B.Hasher, sealing: Sealing, blocks: seq<seq<Entry>>,
                                      bits: Bytes, n: nat)
    requires WrittenFrom(entries, hasher, sealing, blocks, bits) && n <= |blocks|
    ensures CountIn(FileBytes(sealing, blocks, bits), Reader(Rows(sealing, blocks), bits), sealing, n)
         == Some(|Flat(blocks[..n])|)
  {
    hide Section, Rows, StrictlySorted, BlockBytes, OnDisk, FileBytes, FromBe, Puts, Sealable, FilterBits;
    if n > 0 {
      ScanCounts(entries, hasher, sealing, blocks, bits, n - 1);
      BlockReads(sealing, blocks, bits, n - 1);
      CountWritten(blocks[n - 1]);
      assert blocks[..n] == blocks[..n - 1] + [blocks[n - 1]];
      FlatConcat(blocks[..n - 1], [blocks[n - 1]]);
      FlatOne(blocks[n - 1]);
    }
  }

  lemma FlatOne(block: seq<Entry>)
    ensures Flat([block]) == block
  {
    assert [block][1..] == [];
    assert block + [] == block;
  }

  lemma CountWritten(entries: seq<Entry>)
    requires |entries| < U32_LIMIT
    ensures |BlockBytes(entries)| >= 4 && FromBe(BlockBytes(entries)[0..4]) == |entries|
  {
    hide Be, FromBe, Pairs;
    SpanLiterals();
    BeRoundTrip(|entries|, 4);
    assert BlockBytes(entries)[0..4] == Be(|entries|, 4);
  }

  /** End to end: what the writer writes opens, every lookup is a linear search, and the scan sees every entry. */
  lemma SpikeRoundTrip(entries: seq<Entry>, blockSize: nat, hasher: B.Hasher, sealing: Sealing, key: Bytes)
    requires entries != [] && StrictlySorted(entries) && Puts(entries) && Usable(sealing)
    requires InRange(sealing, Split(entries, blockSize), FilterBits(entries, hasher))
    ensures var file := FileBytes(sealing, Split(entries, blockSize), FilterBits(entries, hasher));
      && Open(file, sealing).Some?
      && var reader := Open(file, sealing).value;
         && LookupIn(file, reader, hasher, sealing, key).Some?
         && LookupIn(file, reader, hasher, sealing, key).value.0 == Value(Find(entries, key))
         && CountIn(file, reader, sealing, |reader.index|) == Some(|entries|)
  {
    hide FileBytes, FilterBits, Open, LookupIn, CountIn, StrictlySorted, Puts, Find, InRange, Flat;
    var blocks, bits := Split(entries, blockSize), FilterBits(entries, hasher);
    OpenWritten(sealing, blocks, bits);
    LookupWritten(entries, hasher, sealing, blocks, bits, key);
    ScanCounts(entries, hasher, sealing, blocks, bits, |blocks|);
    assert blocks[..|blocks|] == blocks;
  }

  /** Without entries a file opens too, and counts nothing; but the filter has no bits, and every lookup divides
      by zero. */
  lemma SpikeEmpty(blockSize: nat, hasher: B.Hasher, sealing: Sealing, key: Bytes)
    requires Usable(sealing) && InRange(sealing, Split([], blockSize), FilterBits([], hasher))
    ensures var file := FileBytes(sealing, Split([], blockSize), FilterBits([], hasher));
      && Open(file, sealing) == Some(Reader([], []))
      && LookupIn(file, Reader([], []), hasher, sealing, key) == None
      && CountIn(file, Reader([], []), sealing, 0) == Some(0)
  {
    hide FileBytes, Open, InRange;
    OpenWritten(sealing, Split([], blockSize), FilterBits([], hasher));
  }
}
