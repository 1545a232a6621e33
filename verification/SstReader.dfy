/** The lazy SST reader (`store::sst_block`): open from metadata only, then point lookups and scans
    that decode single blocks. Blocks come straight from the file; the cache in front of them is
    `BlockCache`. */
module SstReader {
  import opened Bytes
  import opened Results
  import opened Tables
  import opened SstFormat
  import opened SstFile
  import opened Aead
  import opened SstSections
  import E = CryptoFormat
  import B = Bloom
  import I = SstIndexFormat

  /** What stays resident after opening a file. */
  datatype Sst = Sst(id: nat, entryCount: nat, index: seq<I.IndexEntry>, filter: I.BloomFilter)

  function ReadSpan(file: Bytes, offset: nat, len: nat): (res: Result<Bytes>)
    ensures res.Success? ==> |res.value| == len
  {
    if offset + len <= |file| then Success(file[offset..offset + len]) else Failure(Io)
  }

  function SumEntries(index: seq<I.IndexEntry>): nat {
    if index == [] then 0 else index[0].entryCount + SumEntries(index[1..])
  }

  /** Opens a file from its header, footer, block index and bloom filter; no data block is read. */
  function Load(f: SstOnDisk): (res: Result<Sst>)
    ensures res.Success? ==> res.value.id == f.id
  {
    var file, footerLen := f.file, OnDiskLen(f.crypto, SST_FOOTER_LEN);
    if |file| < SST_HEADER_TOTAL_LEN then Failure(CorruptSstHeader)
    else
      var header :- DecodeSstHeader(file[..SST_HEADER_TOTAL_LEN]);
      if header.sstId != f.id then Failure(CorruptSstHeader)
      else if |file| < footerLen then Failure(CorruptSstFooter)
      else
        var footerPlain :- OpenSection(f.crypto, file[|file| - footerLen..], f.id, E.Footer, 0);
        var footer :- DecodeSstFooter(footerPlain);
        var indexRaw :- ReadSpan(file, footer.indexOffset, footer.indexLen);
        var indexPlain :- OpenSection(f.crypto, indexRaw, f.id, E.Index, 0);
        var index :- I.ParseIndex(indexPlain);
        var bloomRaw :- ReadSpan(file, footer.bloomOffset, footer.bloomLen);
        var bloomPlain :- OpenSection(f.crypto, bloomRaw, f.id, E.Bloom, 0);
        var filter :- I.DecodeSstBloomFilter(bloomPlain);
        if |index| % U32_LIMIT != footer.blockCount then Failure(CorruptSstBlockIndex)
        else if SumEntries(index) != header.entryCount then Failure(CorruptSstHeader)
        else Success(Sst(f.id, header.entryCount, index, filter))
  }

  /** Reads block `no` and checks it against its index entry. */
  function ReadBlock(f: SstOnDisk, no: nat, entry: I.IndexEntry): (res: Result<seq<Entry>>)
    ensures res.Success? ==> res.value != []
  {
    var raw :- ReadSpan(f.file, entry.offset, entry.len);
    var plain :- OpenSection(f.crypto, raw, f.id, E.Data, no);
    var block :- ParseBlock(plain);
    if block == [] then Failure(CorruptSstBlockIndex)
    else if block[0].key != entry.firstKey || block[|block| - 1].key != entry.lastKey then Failure(CorruptSstBlockIndex)
    else if |block| != entry.entryCount then Failure(CorruptSstBlockIndex)
    else Success(block)
  }

  /** `partition_point`: how many leading blocks end before `key`. */
  function PartitionPoint(index: seq<I.IndexEntry>, key: Bytes): (r: nat)
    ensures r <= |index|
  {
    if index == [] || !Lt(index[0].lastKey, key) then 0 else 1 + PartitionPoint(index[1..], key)
  }

  /** Point lookup: bloom filter, then the one block that could hold the key. Also the number of blocks read. */
  function Get(f: SstOnDisk, sst: Sst, hasher: B.Hasher, key: Bytes): Result<(Option<Slot>, nat)>
    requires B.Sized(sst.filter.bits, sst.filter.numBits)
  {
    if !B.Contains(sst.filter.bits, sst.filter.numBits, hasher, key) then Success((None, 0))
    else
      var idx := PartitionPoint(sst.index, key);
      if idx == |sst.index| then Success((None, 0))
      else if Lt(key, sst.index[idx].firstKey) then Success((None, 0))
      else
        var block :- ReadBlock(f, idx, sst.index[idx]);
        Success((Find(block, key), 1))
  }

  // ── reading back a written file ────────────────────────────────────────

  /** The file of a layout, opened in the context its sections were sealed in. */
  function OnDisk(layout: Layout, crypto: Crypto): SstOnDisk {
    SstOnDisk(layout.id, layout.Bytes(), crypto)
  }

  lemma FileSections(layout: Layout)
    requires layout.Valid()
    ensures var file, index, bloom, footer := layout.Bytes(), layout.rawIndex, layout.rawBloom, layout.rawFooter;
      && |file| == layout.IndexOffset() + |index| + |bloom| + |footer|
      && file[..SST_HEADER_TOTAL_LEN] == HeaderBytes(layout.Header())
      && HeaderBytes(layout.Header()) + Joined(layout.raw) <= file
      && file[layout.IndexOffset()..layout.IndexOffset() + |index|] == index
      && file[layout.IndexOffset() + |index|..layout.IndexOffset() + |index| + |bloom|] == bloom
      && file[|file| - |footer|..] == footer
  {
    hide HeaderBytes, Joined, Flat;
    var h, d, i := HeaderBytes(layout.Header()), Joined(layout.raw), layout.rawIndex;
    var b, f := layout.rawBloom, layout.rawFooter;
    var file := layout.Bytes();
    assert file == h + d + (i + b + f);
    Middle(h + d, i, b + f);
    assert file == h + d + i + (b + f);
    Middle(h + d + i, b, f);
  }

  lemma {:induction false} SumConcat(a: seq<I.IndexEntry>, b: seq<I.IndexEntry>)
    ensures SumEntries(a + b) == SumEntries(a) + SumEntries(b)
  {
    if a == [] {
      assert a + b == b;
    } else {
      assert (a + b)[1..] == a[1..] + b;
      SumConcat(a[1..], b);
    }
  }

  lemma {:induction false} SumOfIndex(blocks: seq<seq<Entry>>, raw: seq<Bytes>)
    requires NonEmpty(blocks) && |raw| == |blocks|
    ensures SumEntries(IndexOf(blocks, raw)) == |Flat(blocks)|
  {
    if blocks != [] {
      var n := |blocks| - 1;
      var last := IndexOf(blocks, raw)[n];
      SumOfIndex(blocks[..n], raw[..n]);
      SumConcat(IndexOf(blocks[..n], raw[..n]), [last]);
      assert SumEntries([last][1..]) == 0;
      assert blocks == blocks[..n] + [blocks[n]];
      FlatConcat(blocks[..n], [blocks[n]]);
      assert Flat([blocks[n]][1..]) == [];
    }
  }

  lemma BlockCountBelowSize(block: seq<Entry>)
    ensures |block| <= |BlockBytes(block)|
  {
    hide EntryBytes, C.CrcBytes;
    EntriesAtLeastOneByte(block);
  }

  lemma {:induction false} EntriesAtLeastOneByte(entries: seq<Entry>)
    ensures |entries| <= |EntriesBytes(entries)|
  {
    if entries != [] {
      EntriesAtLeastOneByte(entries[1..]);
    }
  }

  lemma IndexInRange(layout: Layout)
    requires layout.Valid() && layout.InRange()
    ensures I.AllInRange(layout.Index())
  {
    hide BlockBytes, I.IndexBytes, I.BloomBytes, Flat, IndexOf, Joined;
    forall i | 0 <= i < |layout.blocks|
      ensures layout.Index()[i].InRange()
    {
      var block := layout.blocks[i];
      IndexOfAt(layout.blocks, layout.raw, i);
      BlockCountBelowSize(block);
      assert EntryFits(block[0]) && EntryFits(block[|block| - 1]);
    }
  }

  /** A written file opens to its own index and filter, unless it was written with block size zero. */
  lemma LoadWritten(layout: Layout, crypto: Crypto)
    requires layout.Valid() && layout.InRange() && layout.Seals(crypto)
    ensures Load(OnDisk(layout, crypto))
         == if layout.blockSize > 0
            then Success(Sst(layout.id, |Flat(layout.blocks)|, layout.Index(), layout.filter))
            else Failure(CorruptSstHeader)
  {
    hide HeaderBytes, FooterBytes, I.IndexBytes, I.BloomBytes, IndexOf, Flat, Joined, OpenSection, SealedAs;
    hide DecodeSstHeader, DecodeSstFooter, I.ParseIndex, I.DecodeSstBloomFilter, FreshCrypto;
    FileSections(layout);
    HeaderRoundTrip(layout.Header());
    FooterRoundTrip(layout.Footer());
    SectionReads(crypto, layout.rawFooter, FooterBytes(layout.Footer()), layout.id, E.Footer, 0);
    SectionReads(crypto, layout.rawIndex, I.IndexBytes(layout.Index()), layout.id, E.Index, 0);
    SectionReads(crypto, layout.rawBloom, I.BloomBytes(layout.filter), layout.id, E.Bloom, 0);
    IndexInRange(layout);
    I.IndexRoundTrip(layout.Index());
    I.BloomRoundTrip(layout.filter);
    SumOfIndex(layout.blocks, layout.raw);
  }

  /** Every indexed block of a written file reads back as the entries it was written from. */
  lemma ReadWrittenBlock(layout: Layout, crypto: Crypto, i: nat)
    requires layout.Valid() && layout.InRange() && layout.Seals(crypto) && i < |layout.blocks|
    ensures ReadBlock(OnDisk(layout, crypto), i, layout.Index()[i]) == Success(layout.blocks[i])
  {
    hide BlockBytes, HeaderBytes, FooterBytes, I.IndexBytes, I.BloomBytes, Joined, Flat, ParseBlock, IndexOf;
    hide OpenSection, SealedAs, FreshCrypto, EntriesFit;
    var block, file, head := layout.blocks[i], layout.Bytes(), HeaderBytes(layout.Header());
    IndexOfAt(layout.blocks, layout.raw, i);
    FileSections(layout);
    assert head + (Joined(layout.raw[..i]) + layout.raw[i]) <= head + Joined(layout.raw) <= file;
    assert head + (Joined(layout.raw[..i]) + layout.raw[i]) == head + Joined(layout.raw[..i]) + layout.raw[i];
    FieldAt(file, head + Joined(layout.raw[..i]), layout.raw[i]);
    SectionReads(crypto, layout.raw[i], BlockBytes(block), layout.id, E.Data, i);
    BlockCountBelowSize(block);
    BlockRoundTrip(block);
  }

  // ── lookups agree with a linear search ─────────────────────────────────

  function LastKey(block: seq<Entry>): Bytes
    requires block != []
  {
    block[|block| - 1].key
  }

  lemma SortedParts(a: seq<Entry>, b: seq<Entry>)
    requires StrictlySorted(a + b)
    ensures StrictlySorted(a) && StrictlySorted(b)
    ensures forall i, j :: 0 <= i < |a| && 0 <= j < |b| ==> Lt(a[i].key, b[j].key)
  {
    var s := a + b;
    assert forall i :: 0 <= i < |a| ==> s[i] == a[i];
    assert forall j :: 0 <= j < |b| ==> s[|a| + j] == b[j];
    forall i, j | 0 <= i < j < |b|
      ensures Lt(b[i].key, b[j].key)
    {
      assert Lt(s[|a| + i].key, s[|a| + j].key);
    }
  }

  lemma UpToLast(block: seq<Entry>, i: nat)
    requires StrictlySorted(block) && i < |block|
    ensures AtMost(block[i].key, LastKey(block)) && AtMost(block[0].key, block[i].key)
  {
  }

  /** A key past the end of a block is not in it. */
  lemma AboveBlock(block: seq<Entry>, key: Bytes)
    requires block != [] && StrictlySorted(block) && Lt(LastKey(block), key)
    ensures Find(block, key) == None
  {
    forall i | 0 <= i < |block|
      ensures block[i].key != key
    {
      UpToLast(block, i);
      AtMostTransitive(block[i].key, LastKey(block), key);
      LtIrreflexive(key);
    }
    FindNowhere(block, key);
  }

  /** The first block that does not end before the key is the only one that can hold it. */
  lemma {:induction false} FindInBlock(blocks: seq<seq<Entry>>, p: nat, key: Bytes)
    requires NonEmpty(blocks) && StrictlySorted(Flat(blocks)) && p <= |blocks|
    requires forall i :: 0 <= i < p ==> Lt(LastKey(blocks[i]), key)
    requires p < |blocks| ==> !Lt(LastKey(blocks[p]), key)
    ensures Find(Flat(blocks), key) == if p < |blocks| then Find(blocks[p], key) else None
  {
    if blocks != [] {
      var first, rest := blocks[0], Flat(blocks[1..]);
      SortedParts(first, rest);
      FindConcat(first, rest, key);
      if p == 0 {
        NotLtIsAtMost(LastKey(first), key);
        forall j | 0 <= j < |rest|
          ensures rest[j].key != key
        {
          AtMostTransitive(key, LastKey(first), rest[j].key);
          LtIrreflexive(key);
        }
        FindNowhere(rest, key);
      } else {
        AboveBlock(first, key);
        FindInBlock(blocks[1..], p - 1, key);
      }
    }
  }

  lemma {:induction false} PartitionPointIs(index: seq<I.IndexEntry>, key: Bytes)
    ensures var p := PartitionPoint(index, key);
      && (forall i :: 0 <= i < p ==> Lt(index[i].lastKey, key))
      && (p < |index| ==> !Lt(index[p].lastKey, key))
  {
    if index != [] && Lt(index[0].lastKey, key) {
      PartitionPointIs(index[1..], key);
      assert forall i :: 0 < i < |index| ==> index[i] == index[1..][i - 1];
    }
  }

  lemma {:induction false} BlockSorted(blocks: seq<seq<Entry>>, i: nat)
    requires StrictlySorted(Flat(blocks)) && i < |blocks|
    ensures StrictlySorted(blocks[i])
  {
    SortedParts(blocks[0], Flat(blocks[1..]));
    if i > 0 {
      BlockSorted(blocks[1..], i - 1);
    }
  }

  /** The resident metadata a written file opens to. */
  function Opened(layout: Layout): Sst
    requires layout.Valid()
  {
    Sst(layout.id, |Flat(layout.blocks)|, layout.Index(), layout.filter)
  }

  ghost predicate WrittenFrom(layout: Layout, entries: seq<Entry>, hasher: B.Hasher) {
    && layout.Valid() && Flat(layout.blocks) == entries && layout.filter == FilterOf(entries, hasher)
  }

  lemma BloomMiss(entries: seq<Entry>, hasher: B.Hasher, key: Bytes)
    requires !B.Contains(FilterOf(entries, hasher).bits, FilterOf(entries, hasher).numBits, hasher, key)
    ensures Find(entries, key) == None
  {
    hide B.Contains, B.InsertedAll;
    var n := BloomBytesFor(|entries|);
    forall i | 0 <= i < |entries|
      ensures entries[i].key != key
    {
      B.NoFalseNegatives(Zeros(n), 8 * n, hasher, Keys(entries), i);
    }
    FindNowhere(entries, key);
  }

  /** A point lookup in a written file is a linear search of the entries, and reads at most one block. */
  lemma GetWritten(layout: Layout, crypto: Crypto, entries: seq<Entry>, hasher: B.Hasher, key: Bytes)
    requires WrittenFrom(layout, entries, hasher) && layout.InRange() && layout.Seals(crypto) && StrictlySorted(entries)
    ensures var res := Get(OnDisk(layout, crypto), Opened(layout), hasher, key);
      res.Success? && res.value.0 == Find(entries, key) && res.value.1 <= 1
  {
    hide B.Contains, FilterOf, ReadBlock, I.IndexBytes, Joined, BlockEntry, IndexOf, Flat, Find, PartitionPoint;
    hide StrictlySorted, EntriesFit, BlockBytes, HeaderBytes, FooterBytes, I.BloomBytes, SealedAs;
    var index, blocks, filter := layout.Index(), layout.blocks, layout.filter;
    assert B.Sized(filter.bits, filter.numBits) by { FilterSized(entries, hasher); }
    if !B.Contains(filter.bits, filter.numBits, hasher, key) {
      BloomMiss(entries, hasher, key);
    } else {
      var p := PartitionPoint(index, key);
      PartitionPointIs(index, key);
      forall i | 0 <= i < |blocks|
        ensures index[i].lastKey == LastKey(blocks[i]) && index[i].firstKey == blocks[i][0].key
      {
        IndexEntryKeys(layout, i);
      }
      FindInBlock(blocks, p, key);
      if p < |blocks| {
        ReadWrittenBlock(layout, crypto, p);
        BlockSorted(blocks, p);
        if Lt(key, index[p].firstKey) {
          BelowBlock(blocks[p], key);
        }
      }
    }
  }

  lemma FilterSized(entries: seq<Entry>, hasher: B.Hasher)
    ensures B.Sized(FilterOf(entries, hasher).bits, FilterOf(entries, hasher).numBits)
  {
  }

  lemma IndexEntryKeys(layout: Layout, i: nat)
    requires layout.Valid() && i < |layout.blocks|
    ensures layout.Index()[i].lastKey == LastKey(layout.blocks[i])
    ensures layout.Index()[i].firstKey == layout.blocks[i][0].key
  {
    IndexOfAt(layout.blocks, layout.raw, i);
  }

  lemma BelowBlock(block: seq<Entry>, key: Bytes)
    requires block != [] && StrictlySorted(block) && Lt(key, block[0].key)
    ensures Find(block, key) == None
  {
    forall i | 0 <= i < |block|
      ensures block[i].key != key
    {
      UpToLast(block, i);
      AtMostTransitive(key, block[0].key, block[i].key);
      LtIrreflexive(key);
    }
    FindNowhere(block, key);
  }
}
