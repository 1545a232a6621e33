/** The block-based SST writer (`store::sst_block`), plaintext or with every section but the header sealed. */
module SstFile {
  import opened Bytes
  import opened Results
  import opened Tables
  import opened SstFormat
  import opened Aead
  import opened SstSections
  import E = CryptoFormat
  import B = Bloom
  import I = SstIndexFormat
  import C = Checksum

  // ── splitting into blocks ──────────────────────────────────────────────

  function EntryWireSize(e: Entry): nat {
    9 + |e.key| + |SlotBytes(e.value)|
  }

  /** The blocks still to be written when `current`, of size `size` as `wire` measures it, is being filled. */
  function Blocks(entries: seq<Entry>, current: seq<Entry>, size: nat, blockSize: nat, wire: Entry -> nat)
    : seq<seq<Entry>>
    decreases |entries|
  {
    if entries == [] then if current == [] then [] else [current]
    else
      var grown, grownSize := current + [entries[0]], size + wire(entries[0]);
      if grownSize >= blockSize then [grown] + Blocks(entries[1..], [], 0, blockSize, wire)
      else Blocks(entries[1..], grown, grownSize, blockSize, wire)
  }

  function Flat(blocks: seq<seq<Entry>>): seq<Entry> {
    if blocks == [] then [] else blocks[0] + Flat(blocks[1..])
  }

  ghost predicate NonEmpty(blocks: seq<seq<Entry>>) {
    forall i :: 0 <= i < |blocks| ==> blocks[i] != []
  }

  /** Splitting loses nothing, keeps the order, and never makes an empty block. */
  lemma {:induction false} BlocksPartition(entries: seq<Entry>, current: seq<Entry>, size: nat, blockSize: nat,
                                           wire: Entry -> nat)
    ensures Flat(Blocks(entries, current, size, blockSize, wire)) == current + entries
    ensures NonEmpty(Blocks(entries, current, size, blockSize, wire))
    decreases |entries|
  {
    if entries == [] {
      assert current + [] == current;
    } else {
      var grown, grownSize := current + [entries[0]], size + wire(entries[0]);
      assert grown + entries[1..] == current + entries;
      if grownSize >= blockSize {
        BlocksPartition(entries[1..], [], 0, blockSize, wire);
        assert [] + entries[1..] == entries[1..];
        var rest := Blocks(entries[1..], [], 0, blockSize, wire);
        assert ([grown] + rest)[1..] == rest;
      } else {
        BlocksPartition(entries[1..], grown, grownSize, blockSize, wire);
      }
    }
  }

  function Wires(block: seq<Entry>, wire: Entry -> nat): nat {
    if block == [] then 0 else Wires(block[..|block| - 1], wire) + wire(block[|block| - 1])
  }

  /** Every block but the last reaches the block size, and none would without its last entry. */
  ghost predicate Filled(blocks: seq<seq<Entry>>, blockSize: nat, wire: Entry -> nat) {
    && (forall i :: 0 <= i < |blocks| - 1 ==> Wires(blocks[i], wire) >= blockSize)
    && (forall i :: 0 <= i < |blocks| && |blocks[i]| > 1 ==> Wires(blocks[i][..|blocks[i]| - 1], wire) < blockSize)
  }

  lemma {:induction false} BlocksFill(entries: seq<Entry>, current: seq<Entry>, size: nat, blockSize: nat,
                                      wire: Entry -> nat)
    requires size == Wires(current, wire) && (current == [] || size < blockSize)
    requires |current| > 1 ==> Wires(current[..|current| - 1], wire) < blockSize
    ensures Filled(Blocks(entries, current, size, blockSize, wire), blockSize, wire)
    decreases |entries|
  {
    if entries != [] {
      var grown, grownSize := current + [entries[0]], size + wire(entries[0]);
      assert grown[..|grown| - 1] == current;
      if grownSize >= blockSize {
        BlocksFill(entries[1..], [], 0, blockSize, wire);
        FilledCons(grown, Blocks(entries[1..], [], 0, blockSize, wire), blockSize, wire);
      } else {
        BlocksFill(entries[1..], grown, grownSize, blockSize, wire);
      }
    }
  }

  lemma FilledCons(block: seq<Entry>, rest: seq<seq<Entry>>, blockSize: nat, wire: Entry -> nat)
    requires Filled(rest, blockSize, wire) && Wires(block, wire) >= blockSize
    requires |block| > 1 ==> Wires(block[..|block| - 1], wire) < blockSize
    ensures Filled([block] + rest, blockSize, wire)
  {
    hide Wires;
    var blocks := [block] + rest;
    forall i | 0 <= i < |blocks|
      ensures i < |blocks| - 1 ==> Wires(blocks[i], wire) >= blockSize
      ensures |blocks[i]| > 1 ==> Wires(blocks[i][..|blocks[i]| - 1], wire) < blockSize
    {
      if i > 0 {
        assert blocks[i] == rest[i - 1];
      }
    }
  }

  lemma {:induction false} BlockSizeIs(block: seq<Entry>)
    ensures |BlockBytes(block)| == 14 + Wires(block, EntryWireSize)
  {
    hide BlockBytes, EntryBytes, EntriesBytes;
    Framed(block);
    if block == [] {
      NoEntries();
    } else {
      var n := |block| - 1;
      BlockSizeIs(block[..n]);
      Framed(block[..n]);
      EntriesSnoc(block[..n], block[n]);
      EntrySizeIs(block[n]);
      assert block == block[..n] + [block[n]];
    }
  }

  lemma Framed(block: seq<Entry>)
    ensures |BlockBytes(block)| == 14 + |EntriesBytes(block)|
  {
    hide EntriesBytes, C.Crc, C.Value;
  }

  lemma EntrySizeIs(e: Entry)
    ensures |EntryBytes(e)| == EntryWireSize(e)
  {
  }

  lemma {:induction false} EntriesSnoc(block: seq<Entry>, e: Entry)
    ensures EntriesBytes(block + [e]) == EntriesBytes(block) + EntryBytes(e)
  {
    if block == [] {
      assert [e][1..] == [];
    } else {
      assert (block + [e])[1..] == block[1..] + [e];
      EntriesSnoc(block[1..], e);
    }
  }

  /** A block is closed by the entry with which its encoded entries reach the block size; its header and checksum, 14
      bytes, are not counted. Only the last block may fall short. */
  lemma BlocksFilled(entries: seq<Entry>, blockSize: nat)
    ensures var blocks := Blocks(entries, [], 0, blockSize, EntryWireSize);
      && (forall i :: 0 <= i < |blocks| - 1 ==> |BlockBytes(blocks[i])| >= 14 + blockSize)
      && (forall i :: 0 <= i < |blocks| && |blocks[i]| > 1 ==>
            |BlockBytes(blocks[i][..|blocks[i]| - 1])| < 14 + blockSize)
  {
    hide BlockBytes, Wires, Blocks;
    assert Wires([], EntryWireSize) == 0 by { BlockSizeIs([]); NoEntries(); }
    BlocksFill(entries, [], 0, blockSize, EntryWireSize);
    forall block
      ensures |BlockBytes(block)| == 14 + Wires(block, EntryWireSize)
    {
      BlockSizeIs(block);
    }
  }

  lemma NoEntries()
    ensures |BlockBytes([])| == 14
  {
  }

  lemma {:induction false} FlatConcat(a: seq<seq<Entry>>, b: seq<seq<Entry>>)
    ensures Flat(a + b) == Flat(a) + Flat(b)
  {
    if a == [] {
      assert a + b == b;
    } else {
      assert (a + b)[1..] == a[1..] + b;
      FlatConcat(a[1..], b);
    }
  }

  function Keys(entries: seq<Entry>): (r: seq<Bytes>)
    ensures |r| == |entries| && forall i :: 0 <= i < |entries| ==> r[i] == entries[i].key
  {
    seq(|entries|, i requires 0 <= i < |entries| => entries[i].key)
  }

  // ── the file ───────────────────────────────────────────────────────────

  /** A file on disk: its number, its bytes, and the context its sections are opened with. */
  datatype SstOnDisk = SstOnDisk(id: nat, file: Bytes, crypto: Crypto)

  /** What the writer turns a section into; the identity in a plaintext store, an envelope around whatever the
      cipher and the random source came up with otherwise. */
  type Sealer = (E.SstSectionType, nat, Bytes) -> Bytes

  const PLAIN_SEALER: Sealer := (section: E.SstSectionType, no: nat, plain: Bytes) => plain

  function Joined(raw: seq<Bytes>): Bytes {
    if raw == [] then [] else Joined(raw[..|raw| - 1]) + raw[|raw| - 1]
  }

  /** The data blocks as they go to disk. */
  function RawBlocks(blocks: seq<seq<Entry>>, sealer: Sealer): (raw: seq<Bytes>)
    ensures |raw| == |blocks|
  {
    if blocks == [] then []
    else
      var n := |blocks| - 1;
      RawBlocks(blocks[..n], sealer) + [sealer(E.Data, n, BlockBytes(blocks[n]))]
  }

  function Tombstones(block: seq<Entry>): (n: nat)
    ensures n <= |block|
  {
    if block == [] then 0 else (if block[0].value.None? then 1 else 0) + Tombstones(block[1..])
  }

  /** Every entry that deletes its key counts one, and no other counts. */
  lemma {:induction false} TombstonesAre(block: seq<Entry>, more: seq<Entry>, e: Entry)
    ensures Tombstones(block + more) == Tombstones(block) + Tombstones(more)
    ensures Tombstones([e]) == match e.value { case None => 1 case Some(_) => 0 }
  {
    assert [e][1..] == [];
    if block == [] {
      assert block + more == more;
    } else {
      assert (block + more)[1..] == block[1..] + more;
      TombstonesAre(block[1..], more, e);
    }
  }

  function BlockEntry(block: seq<Entry>, len: nat, offset: nat): I.IndexEntry
    requires block != []
  {
    I.IndexEntry(block[0].key, block[|block| - 1].key, offset, len, |block|, Tombstones(block))
  }

  /** One entry per block; offsets and lengths are those on disk. */
  function IndexOf(blocks: seq<seq<Entry>>, raw: seq<Bytes>): (r: seq<I.IndexEntry>)
    requires NonEmpty(blocks) && |raw| == |blocks|
    ensures |r| == |blocks|
  {
    if blocks == [] then []
    else
      var n := |blocks| - 1;
      IndexOf(blocks[..n], raw[..n])
      + [BlockEntry(blocks[n], |raw[n]|, SST_HEADER_TOTAL_LEN + |Joined(raw[..n])|)]
  }

  /** `Bloom::new`: ten bits per key in whole bytes, at least 64. */
  function BloomBytesFor(keys: nat): (r: nat)
    ensures r >= 8
  {
    var numBits := if keys * B.BLOOM_BITS_PER_KEY > 64 then keys * B.BLOOM_BITS_PER_KEY else 64;
    (numBits + 7) / 8
  }

  function Zeros(count: nat): (r: Bytes)
    ensures |r| == count
  {
    seq(count, _ => 0)
  }

  function FilterOf(entries: seq<Entry>, hasher: B.Hasher): I.BloomFilter {
    var n := BloomBytesFor(|entries|);
    I.BloomFilter(8 * n, B.BLOOM_NUM_HASHES, B.InsertedAll(Zeros(n), 8 * n, hasher, Keys(entries)))
  }

  /** The smallest whole number of bytes with ten bits for every key and 64 bits in all, of which exactly those are
      raised that one of the seven hashes of a key finds. */
  lemma FilterIs(entries: seq<Entry>, hasher: B.Hasher)
    ensures var f := FilterOf(entries, hasher);
      && f.numHashes == 7 && f.numBits == 8 * |f.bits| && 64 <= f.numBits && 10 * |entries| <= f.numBits
      && (f.numBits < 72 || f.numBits < 10 * |entries| + 8)
      && forall k :: 0 <= k < f.numBits ==>
           (B.HasBit(f.bits, k) <==> exists j :: 0 <= j < |entries| && B.Probes(hasher, f.numBits, entries[j].key, k))
  {
    hide B.HasBit, B.InsertedAll, B.Probes;
    var f, keys := FilterOf(entries, hasher), Keys(entries);
    forall k | 0 <= k < f.numBits
      ensures B.HasBit(f.bits, k) <==> exists j :: 0 <= j < |entries| && B.Probes(hasher, f.numBits, entries[j].key, k)
    {
      NoBit(|f.bits|, k);
      B.FilterBits(Zeros(|f.bits|), f.numBits, hasher, keys, k);
    }
  }

  lemma NoBit(count: nat, k: nat)
    requires k < 8 * count
    ensures !B.HasBit(Zeros(count), k)
  {
    NoBitInZero(8, k % 8);
  }

  lemma {:induction false} NoBitInZero(count: nat, k: nat)
    requires k < count
    ensures !C.ToBits(0, count)[k]
  {
    if k > 0 {
      NoBitInZero(count - 1, k - 1);
    }
  }

  /** EVERYTHING `write_new` puts in a file: the contents, and every section as it goes to disk. */
  datatype Layout = Layout(id: nat, blockSize: nat, blocks: seq<seq<Entry>>, filter: I.BloomFilter,
                           raw: seq<Bytes>, rawIndex: Bytes, rawBloom: Bytes, rawFooter: Bytes)
  {
    ghost predicate Valid() { NonEmpty(blocks) && |raw| == |blocks| }

    function Index(): seq<I.IndexEntry>
      requires Valid()
    {
      IndexOf(blocks, raw)
    }

    function Header(): SstHeader {
      SstHeader(id, blockSize, |Flat(blocks)|, 0)
    }

    function IndexOffset(): nat { SST_HEADER_TOTAL_LEN + |Joined(raw)| }

    function Footer(): SstFooter {
      SstFooter(IndexOffset(), |rawIndex|, IndexOffset() + |rawIndex|, |rawBloom|, |blocks|)
    }

    function Bytes(): Bytes {
      HeaderBytes(Header()) + Joined(raw) + rawIndex + rawBloom + rawFooter
    }

    /** Every section on disk is the sealed form of what it stands for. */
    ghost predicate Seals(crypto: Crypto)
      requires Valid()
    {
      && FreshCrypto(crypto)
      && (forall i :: 0 <= i < |blocks| ==> SealedAs(crypto, raw[i], BlockBytes(blocks[i]), id, E.Data, i))
      && SealedAs(crypto, rawIndex, I.IndexBytes(Index()), id, E.Index, 0)
      && SealedAs(crypto, rawBloom, I.BloomBytes(filter), id, E.Bloom, 0)
      && SealedAs(crypto, rawFooter, FooterBytes(Footer()), id, E.Footer, 0)
    }

    /** Every length and count fits the field it is cast to. */
    ghost predicate InRange()
      requires Valid()
    {
      && Header().InRange() && Footer().InRange()
      && filter.InRange() && |filter.bits| == I.DivCeil8(filter.numBits)
      && forall i :: 0 <= i < |blocks| ==>
           EntriesFit(blocks[i]) && |BlockBytes(blocks[i])| < U32_LIMIT && |raw[i]| < U32_LIMIT
    }
  }

  /** Sealing the sections of a finished file, in the order they are written. */
  function Sealed(id: nat, blockSize: nat, blocks: seq<seq<Entry>>, filter: I.BloomFilter, sealer: Sealer): (r: Layout)
    requires NonEmpty(blocks)
    ensures r.Valid() && r.blocks == blocks
  {
    var open := Layout(id, blockSize, blocks, filter, RawBlocks(blocks, sealer), [], [], []);
    var indexed := open.(rawIndex := sealer(E.Index, 0, I.IndexBytes(open.Index())),
                         rawBloom := sealer(E.Bloom, 0, I.BloomBytes(filter)));
    indexed.(rawFooter := sealer(E.Footer, 0, FooterBytes(indexed.Footer())))
  }

  function LayoutOf(id: nat, entries: seq<Entry>, blockSize: nat, hasher: B.Hasher, sealer: Sealer): (r: Layout)
    ensures r.Valid() && Flat(r.blocks) == entries
  {
    BlocksPartition(entries, [], 0, blockSize, EntryWireSize);
    assert [] + entries == entries;
    Sealed(id, blockSize, Blocks(entries, [], 0, blockSize, EntryWireSize), FilterOf(entries, hasher), sealer)
  }

  lemma {:induction false} RawPlain(blocks: seq<seq<Entry>>, i: nat)
    requires i < |blocks|
    ensures RawBlocks(blocks, PLAIN_SEALER)[i] == BlockBytes(blocks[i])
  {
    hide BlockBytes;
    var n := |blocks| - 1;
    if i < n {
      RawPlain(blocks[..n], i);
    }
  }

  /** A plaintext file is its own sealed form. */
  lemma PlainSeals(id: nat, entries: seq<Entry>, blockSize: nat, hasher: B.Hasher)
    ensures LayoutOf(id, entries, blockSize, hasher, PLAIN_SEALER).Seals(None)
  {
    hide BlockBytes, I.IndexBytes, I.BloomBytes, FooterBytes, FilterOf, IndexOf, Joined, Blocks, Flat;
    var layout := LayoutOf(id, entries, blockSize, hasher, PLAIN_SEALER);
    forall i | 0 <= i < |layout.blocks|
      ensures layout.raw[i] == BlockBytes(layout.blocks[i])
    {
      RawPlain(layout.blocks, i);
    }
  }

  /** The row of one block, and where its bytes lie. */
  lemma {:induction false} IndexOfAt(blocks: seq<seq<Entry>>, raw: seq<Bytes>, i: nat)
    requires NonEmpty(blocks) && |raw| == |blocks| && i < |blocks|
    ensures IndexOf(blocks, raw)[i] == BlockEntry(blocks[i], |raw[i]|, SST_HEADER_TOTAL_LEN + |Joined(raw[..i])|)
    ensures Joined(raw[..i]) + raw[i] <= Joined(raw)
  {
    hide BlockEntry;
    var n := |blocks| - 1;
    if i < n {
      IndexOfAt(blocks[..n], raw[..n], i);
      assert raw[..n][..i] == raw[..i];
    }
  }

  /** Seals and appends one block, if there is one. */
  method FlushBlock(current: seq<Entry>, fileBytes: Bytes, cursor: nat, index: seq<I.IndexEntry>, blockNo: nat,
                    sealer: Sealer)
    returns (fileBytes': Bytes, cursor': nat, index': seq<I.IndexEntry>, blockNo': nat)
    ensures if current == [] then fileBytes' == fileBytes && cursor' == cursor && index' == index && blockNo' == blockNo
            else
              var raw := sealer(E.Data, blockNo, BlockBytes(current));
              && fileBytes' == fileBytes + raw && cursor' == cursor + |raw|
              && index' == index + [BlockEntry(current, |raw|, cursor)] && blockNo' == blockNo + 1
  {
    fileBytes', cursor', index', blockNo' := fileBytes, cursor, index, blockNo;
    if current == [] {
      return;
    }
    var firstKey, lastKey := current[0].key, current[|current| - 1].key;
    var plain := EncodeSstDataBlock(current);
    var sealed := sealer(E.Data, blockNo, plain);
    index' := index + [I.IndexEntry(firstKey, lastKey, cursor, |sealed|, |current|, Tombstones(current))];
    fileBytes' := fileBytes + sealed;
    cursor' := cursor + |sealed|;
    blockNo' := blockNo + 1;
  }

  /** The part of the file that blocks `done` make. */
  ghost predicate WroteBlocks(done: seq<seq<Entry>>, sealer: Sealer, fileBytes: Bytes, cursor: nat,
                              index: seq<I.IndexEntry>, blockNo: nat)
  {
    && NonEmpty(done) && blockNo == |done|
    && fileBytes == Joined(RawBlocks(done, sealer)) && cursor == SST_HEADER_TOTAL_LEN + |fileBytes|
    && index == IndexOf(done, RawBlocks(done, sealer))
  }

  lemma FlushStep(done: seq<seq<Entry>>, block: seq<Entry>, sealer: Sealer, fileBytes: Bytes, cursor: nat,
                  index: seq<I.IndexEntry>)
    requires WroteBlocks(done, sealer, fileBytes, cursor, index, |done|) && block != []
    ensures var raw := sealer(E.Data, |done|, BlockBytes(block));
      WroteBlocks(done + [block], sealer, fileBytes + raw, cursor + |raw|,
                  index + [BlockEntry(block, |raw|, cursor)], |done| + 1)
  {
    hide BlockBytes, BlockEntry;
    var all := done + [block];
    var raws := RawBlocks(all, sealer);
    assert all[..|done|] == done;
    assert raws[..|done|] == RawBlocks(done, sealer);
  }

  /** One more entry: it joins the current block, which is written once it is large enough. */
  lemma BlocksStep(done: seq<seq<Entry>>, entries: seq<Entry>, i: nat, current: seq<Entry>, size: nat, blockSize: nat,
                   wire: Entry -> nat)
    requires i < |entries|
    ensures var grown, grownSize := current + [entries[i]], size + wire(entries[i]);
      done + Blocks(entries[i..], current, size, blockSize, wire)
      == if grownSize >= blockSize then done + [grown] + Blocks(entries[i + 1..], [], 0, blockSize, wire)
         else done + Blocks(entries[i + 1..], grown, grownSize, blockSize, wire)
  {
    assert entries[i..][0] == entries[i] && entries[i..][1..] == entries[i + 1..];
    var grown := current + [entries[i]];
    assert done + ([grown] + Blocks(entries[i + 1..], [], 0, blockSize, wire))
        == done + [grown] + Blocks(entries[i + 1..], [], 0, blockSize, wire);
  }

  lemma BlocksEnd(done: seq<seq<Entry>>, entries: seq<Entry>, current: seq<Entry>, size: nat, blockSize: nat,
                  wire: Entry -> nat)
    ensures done + Blocks(entries[|entries|..], current, size, blockSize, wire)
         == if current == [] then done else done + [current]
  {
    assert done + [] == done;
  }

  /** The filter after the first `i` keys. */
  function FilterUpTo(entries: seq<Entry>, i: nat, numBytes: nat, hasher: B.Hasher): (bits: Bytes)
    requires i <= |entries| && numBytes > 0
    ensures |bits| == numBytes
  {
    B.InsertedAll(Zeros(numBytes), 8 * numBytes, hasher, Keys(entries[..i]))
  }

  lemma FilterStep(entries: seq<Entry>, i: nat, numBytes: nat, hasher: B.Hasher)
    requires i <= |entries| && numBytes > 0
    ensures i == 0 ==> FilterUpTo(entries, i, numBytes, hasher) == Zeros(numBytes)
    ensures i < |entries| ==>
              FilterUpTo(entries, i + 1, numBytes, hasher)
              == B.Inserted(FilterUpTo(entries, i, numBytes, hasher), 8 * numBytes, hasher, entries[i].key, B.BLOOM_NUM_HASHES)
    ensures i == |entries| ==>
              FilterUpTo(entries, i, numBytes, hasher) == B.InsertedAll(Zeros(numBytes), 8 * numBytes, hasher, Keys(entries))
  {
    hide B.Inserted;
    if i < |entries| {
      KeysStep(entries, i);
    }
    assert entries[..|entries|] == entries;
  }

  /** The loop of `write_new`: every block and its index row, and the filter. */
  method WriteBlocks(entries: seq<Entry>, blockSize: nat, hasher: B.Hasher, sealer: Sealer)
    returns (blockBytes: Bytes, cursor: nat, index: seq<I.IndexEntry>, blockNo: nat, bits: Bytes)
    ensures WroteBlocks(Blocks(entries, [], 0, blockSize, EntryWireSize), sealer, blockBytes, cursor, index, blockNo)
    ensures bits == FilterUpTo(entries, |entries|, BloomBytesFor(|entries|), hasher)
  {
    hide BlockBytes, BlockEntry, EntryWireSize, B.Inserted, B.InsertedAll, WroteBlocks, Blocks, FilterUpTo, Keys;
    var current: seq<Entry>, size: nat := [], 0;
    blockBytes, index, cursor, blockNo := [], [], SST_HEADER_TOTAL_LEN, 0;
    var numBytes := BloomBytesFor(|entries|);
    bits := Zeros(numBytes);
    ghost var done: seq<seq<Entry>> := [];
    ghost var blocks := Blocks(entries, [], 0, blockSize, EntryWireSize);
    NothingWritten(sealer);
    FilterStep(entries, 0, numBytes, hasher);
    assert entries[0..] == entries;
    for i := 0 to |entries|
      invariant done + Blocks(entries[i..], current, size, blockSize, EntryWireSize) == blocks
      invariant WroteBlocks(done, sealer, blockBytes, cursor, index, blockNo)
      invariant bits == FilterUpTo(entries, i, numBytes, hasher)
    {
      var e := entries[i];
      FilterStep(entries, i, numBytes, hasher);
      bits := B.Insert(bits, 8 * numBytes, hasher, e.key);
      BlocksStep(done, entries, i, current, size, blockSize, EntryWireSize);
      size := size + EntryWireSize(e);
      current := current + [e];
      if size >= blockSize {
        BlocksWritten(done, sealer, blockBytes, cursor, index, blockNo);
        FlushStep(done, current, sealer, blockBytes, cursor, index);
        blockBytes, cursor, index, blockNo := FlushBlock(current, blockBytes, cursor, index, blockNo, sealer);
        done := done + [current];
        current, size := [], 0;
      }
    }
    BlocksEnd(done, entries, current, size, blockSize, EntryWireSize);
    BlocksWritten(done, sealer, blockBytes, cursor, index, blockNo);
    if current != [] {
      FlushStep(done, current, sealer, blockBytes, cursor, index);
    }
    blockBytes, cursor, index, blockNo := FlushBlock(current, blockBytes, cursor, index, blockNo, sealer);
  }

  method WriteNew(id: nat, entries: seq<Entry>, blockSize: nat, hasher: B.Hasher, sealer: Sealer) returns (file: Bytes)
    ensures file == LayoutOf(id, entries, blockSize, hasher, sealer).Bytes()
  {
    hide WroteBlocks, Blocks, FilterUpTo, Layout.Bytes, B.InsertedAll;
    var blockBytes, cursor, index, blockNo, bits := WriteBlocks(entries, blockSize, hasher, sealer);
    FilterStep(entries, |entries|, BloomBytesFor(|entries|), hasher);
    FlatOfSplit(entries, blockSize);
    file := Assemble(Blocks(entries, [], 0, blockSize, EntryWireSize), id, blockSize, |entries|, blockBytes, cursor, index,
                     I.BloomFilter(8 * BloomBytesFor(|entries|), B.BLOOM_NUM_HASHES, bits), blockNo, sealer);
  }

  lemma NothingWritten(sealer: Sealer)
    ensures WroteBlocks([], sealer, [], SST_HEADER_TOTAL_LEN, [], 0)
  {
  }

  lemma BlocksWritten(done: seq<seq<Entry>>, sealer: Sealer, fileBytes: Bytes, cursor: nat, index: seq<I.IndexEntry>,
                      blockNo: nat)
    requires WroteBlocks(done, sealer, fileBytes, cursor, index, blockNo)
    ensures blockNo == |done|
  {
  }

  lemma FlatOfSplit(entries: seq<Entry>, blockSize: nat)
    ensures Flat(Blocks(entries, [], 0, blockSize, EntryWireSize)) == entries
  {
    BlocksPartition(entries, [], 0, blockSize, EntryWireSize);
    assert [] + entries == entries;
  }

  /** The last part of `write_new`: index, filter, header and footer around the finished blocks. */
  method Assemble(ghost blocks: seq<seq<Entry>>, id: nat, blockSize: nat, entryCount: nat, blockBytes: Bytes, cursor: nat,
                  index: seq<I.IndexEntry>, filter: I.BloomFilter, blockNo: nat, sealer: Sealer) returns (file: Bytes)
    requires WroteBlocks(blocks, sealer, blockBytes, cursor, index, blockNo) && entryCount == |Flat(blocks)|
    ensures NonEmpty(blocks) && file == Sealed(id, blockSize, blocks, filter, sealer).Bytes()
  {
    hide HeaderBytes, FooterBytes, I.IndexBytes, I.BloomBytes, Joined, Flat, IndexOf, RawBlocks;
    var indexPlain := I.EncodeSstBlockIndex(index);
    var indexSealed := sealer(E.Index, 0, indexPlain);
    var bloomPlain := I.EncodeSstBloomFilter(filter);
    var bloomSealed := sealer(E.Bloom, 0, bloomPlain);
    var headerBytes := EncodeSstHeader(SstHeader(id, blockSize, entryCount, 0));
    var indexOffset := cursor;
    var bloomOffset := indexOffset + |indexSealed|;
    var footerPlain := EncodeSstFooter(SstFooter(indexOffset, |indexSealed|, bloomOffset, |bloomSealed|, |index|));
    var footerSealed := sealer(E.Footer, 0, footerPlain);
    file := headerBytes + blockBytes + indexSealed + bloomSealed + footerSealed;
  }

  lemma KeysStep(entries: seq<Entry>, i: nat)
    requires i < |entries|
    ensures Keys(entries[..i + 1])[..i] == Keys(entries[..i]) && Keys(entries[..i + 1])[i] == entries[i].key
  {
  }
}
