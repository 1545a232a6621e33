/** Index-driven scans of one SST (`store::sst_block`): skip the blocks that end too early, stop at
    the first that starts too late, filter the boundary blocks. */
module SstScan {
  import opened Bytes
  import opened Results
  import opened Tables
  import opened SstFormat
  import opened SstFile
  import opened SstReader
  import opened Aead
  import opened SstSections
  import B = Bloom
  import I = SstIndexFormat

  function Select(entries: seq<Entry>, keep: Bytes -> bool): (r: seq<Entry>)
    ensures |r| <= |entries|
  {
    if entries == [] then []
    else if keep(entries[0].key) then [entries[0]] + Select(entries[1..], keep)
    else Select(entries[1..], keep)
  }

  lemma {:induction false} SelectConcat(a: seq<Entry>, b: seq<Entry>, keep: Bytes -> bool)
    ensures Select(a + b, keep) == Select(a, keep) + Select(b, keep)
  {
    if a == [] {
      assert a + b == b;
    } else {
      assert (a + b)[1..] == a[1..] + b;
      SelectConcat(a[1..], b, keep);
    }
  }

  lemma SelectOne(e: Entry, keep: Bytes -> bool)
    ensures Select([e], keep) == if keep(e.key) then [e] else []
  {
    assert Select([e][1..], keep) == [];
  }

  lemma {:induction false} SelectNothing(entries: seq<Entry>, keep: Bytes -> bool)
    requires forall i :: 0 <= i < |entries| ==> !keep(entries[i].key)
    ensures Select(entries, keep) == []
  {
    if entries != [] {
      SelectNothing(entries[1..], keep);
    }
  }

  /** The blocks from number `no` up to the first that `stop` ends the walk at, filtered. */
  function Scan(f: SstOnDisk, index: seq<I.IndexEntry>, no: nat, stop: I.IndexEntry -> bool, keep: Bytes -> bool)
    : Result<seq<Entry>>
    decreases |index| - no
  {
    if no >= |index| || stop(index[no]) then Success([])
    else
      var block :- ReadBlock(f, no, index[no]);
      After(Select(block, keep), Scan(f, index, no + 1, stop, keep))
  }

  function InRangeOf(start: Bytes, end: Bytes): Bytes -> bool {
    key => !Lt(key, start) && Lt(key, end)
  }

  function CarriesPrefix(prefix: Bytes): Bytes -> bool {
    key => StartsWith(key, prefix)
  }

  function PastEnd(end: Bytes): I.IndexEntry -> bool {
    (entry: I.IndexEntry) => !Lt(entry.firstKey, end)
  }

  function PastPrefix(prefix: Bytes): I.IndexEntry -> bool {
    (entry: I.IndexEntry) => Lt(prefix, entry.firstKey) && !StartsWith(entry.firstKey, prefix)
  }

  // ── the scan loops ─────────────────────────────────────────────────────

  lemma ScanStep(f: SstOnDisk, index: seq<I.IndexEntry>, i: nat, stop: I.IndexEntry -> bool, keep: Bytes -> bool,
                 out: seq<Entry>)
    requires i < |index|
    ensures After(out, Scan(f, index, i, stop, keep))
         == if stop(index[i]) then Success(out)
            else match ReadBlock(f, i, index[i])
                 case Failure(e) => Failure(e)
                 case Success(block) => After(out + Select(block, keep), Scan(f, index, i + 1, stop, keep))
  {
    hide ReadBlock, Select;
    if stop(index[i]) {
      assert out + [] == out;
    } else if ReadBlock(f, i, index[i]).Success? {
      var rest := Scan(f, index, i + 1, stop, keep);
      var matches := Select(ReadBlock(f, i, index[i]).value, keep);
      if rest.Success? {
        assert out + (matches + rest.value) == out + matches + rest.value;
      }
    }
  }

  method EntriesWithPrefix(f: SstOnDisk, sst: Sst, prefix: Bytes) returns (res: Result<(seq<Entry>, nat)>)
    ensures var from := PartitionPoint(sst.index, prefix);
      match Scan(f, sst.index, from, PastPrefix(prefix), CarriesPrefix(prefix))
      case Failure(e) => res == Failure(e)
      case Success(out) => res.Success? && res.value.0 == out && res.value.1 <= |sst.index| - from
  {
    hide ReadBlock, Select, Scan, PartitionPoint;
    var stop, keep := PastPrefix(prefix), CarriesPrefix(prefix);
    var start := PartitionPoint(sst.index, prefix);
    var out: seq<Entry>, blocksRead := [], 0;
    AfterNothing(Scan(f, sst.index, start, stop, keep));
    var blockNo := start;
    while blockNo < |sst.index|
      invariant start <= blockNo <= |sst.index| && blocksRead == blockNo - start
      invariant Scan(f, sst.index, start, stop, keep) == After(out, Scan(f, sst.index, blockNo, stop, keep))
    {
      var entry := sst.index[blockNo];
      ScanStep(f, sst.index, blockNo, stop, keep, out);
      if Lt(prefix, entry.firstKey) && !StartsWith(entry.firstKey, prefix) {
        return Success((out, blocksRead));
      }
      var decoded := ReadBlock(f, blockNo, entry);
      if decoded.Failure? {
        return Failure(decoded.error);
      }
      blocksRead := blocksRead + 1;
      out := out + Select(decoded.value, keep);
      blockNo := blockNo + 1;
    }
    ScanEnd(f, sst.index, stop, keep, out);
    return Success((out, blocksRead));
  }

  lemma ScanEnd(f: SstOnDisk, index: seq<I.IndexEntry>, stop: I.IndexEntry -> bool, keep: Bytes -> bool, out: seq<Entry>)
    ensures After(out, Scan(f, index, |index|, stop, keep)) == Success(out)
  {
    assert out + [] == out;
  }

  method EntriesWithRange(f: SstOnDisk, sst: Sst, start: Bytes, end: Bytes) returns (res: Result<(seq<Entry>, nat)>)
    ensures var from := PartitionPoint(sst.index, start);
      if !Lt(start, end) then res == Success(([], 0))
      else match Scan(f, sst.index, from, PastEnd(end), InRangeOf(start, end))
           case Failure(e) => res == Failure(e)
           case Success(out) => res.Success? && res.value.0 == out && res.value.1 <= |sst.index| - from
  {
    hide ReadBlock, Select, Scan, PartitionPoint;
    if !Lt(start, end) {
      return Success(([], 0));
    }
    var stop, keep := PastEnd(end), InRangeOf(start, end);
    var from := PartitionPoint(sst.index, start);
    var out: seq<Entry>, blocksRead := [], 0;
    AfterNothing(Scan(f, sst.index, from, stop, keep));
    var blockNo := from;
    while blockNo < |sst.index|
      invariant from <= blockNo <= |sst.index| && blocksRead == blockNo - from
      invariant Scan(f, sst.index, from, stop, keep) == After(out, Scan(f, sst.index, blockNo, stop, keep))
    {
      var entry := sst.index[blockNo];
      ScanStep(f, sst.index, blockNo, stop, keep, out);
      if !Lt(entry.firstKey, end) {
        return Success((out, blocksRead));
      }
      var decoded := ReadBlock(f, blockNo, entry);
      if decoded.Failure? {
        return Failure(decoded.error);
      }
      blocksRead := blocksRead + 1;
      out := out + Select(decoded.value, keep);
      blockNo := blockNo + 1;
    }
    ScanEnd(f, sst.index, stop, keep, out);
    return Success((out, blocksRead));
  }

  // ── scans of a written file ────────────────────────────────────────────

  /** Keys below `start` are unwanted, and once `stop` holds at a block all later keys are. */
  ghost predicate Prunes(start: Bytes, stop: I.IndexEntry -> bool, keep: Bytes -> bool) {
    && (forall key :: Lt(key, start) ==> !keep(key))
    && (forall entry, key :: stop(entry) && AtMost(entry.firstKey, key) ==> !keep(key))
  }

  lemma RangePrunes(start: Bytes, end: Bytes)
    ensures Prunes(start, PastEnd(end), InRangeOf(start, end))
  {
    forall entry: I.IndexEntry, key | !Lt(entry.firstKey, end) && AtMost(entry.firstKey, key)
      ensures !Lt(key, end)
    {
      NotLtIsAtMost(entry.firstKey, end);
      AtMostTransitive(end, entry.firstKey, key);
      NotLtIsAtMost(key, end);
    }
  }

  lemma PrefixPrunes(prefix: Bytes)
    ensures Prunes(prefix, PastPrefix(prefix), CarriesPrefix(prefix))
  {
    forall key | Lt(key, prefix)
      ensures !StartsWith(key, prefix)
    {
      if StartsWith(key, prefix) {
        PrefixNotAbove(key, prefix);
      }
    }
    forall entry: I.IndexEntry, key |
      Lt(prefix, entry.firstKey) && !StartsWith(entry.firstKey, prefix) && AtMost(entry.firstKey, key)
      ensures !StartsWith(key, prefix)
    {
      PrefixInterval(prefix, entry.firstKey, key);
    }
  }

  lemma {:induction false} FlatFromFirst(blocks: seq<seq<Entry>>, j: nat)
    requires NonEmpty(blocks) && StrictlySorted(Flat(blocks)) && blocks != [] && j < |Flat(blocks)|
    ensures AtMost(blocks[0][0].key, Flat(blocks)[j].key)
  {
    var all := Flat(blocks);
    assert all[0] == blocks[0][0];
    if j > 0 {
      assert Lt(all[0].key, all[j].key);
    }
  }

  /** Blocks that end before `start` hold nothing wanted. */
  lemma {:induction false} SkippedBlocks(blocks: seq<seq<Entry>>, start: Bytes, keep: Bytes -> bool)
    requires NonEmpty(blocks) && StrictlySorted(Flat(blocks))
    requires forall i :: 0 <= i < |blocks| ==> Lt(LastKey(blocks[i]), start)
    requires forall key :: Lt(key, start) ==> !keep(key)
    ensures Select(Flat(blocks), keep) == []
  {
    if blocks != [] {
      var first, rest := blocks[0], Flat(blocks[1..]);
      SortedParts(first, rest);
      SkippedBlocks(blocks[1..], start, keep);
      forall i | 0 <= i < |first|
        ensures !keep(first[i].key)
      {
        UpToLast(first, i);
        AtMostTransitive(first[i].key, LastKey(first), start);
      }
      SelectNothing(first, keep);
      SelectConcat(first, rest, keep);
    }
  }

  lemma {:induction false} ScanSuffix(layout: Layout, crypto: Crypto, i: nat, start: Bytes,
                                      stop: I.IndexEntry -> bool, keep: Bytes -> bool)
    requires layout.Valid() && layout.InRange() && layout.Seals(crypto)
    requires StrictlySorted(Flat(layout.blocks)) && i <= |layout.blocks| && Prunes(start, stop, keep)
    ensures Scan(OnDisk(layout, crypto), layout.Index(), i, stop, keep) == Success(Select(Flat(layout.blocks[i..]), keep))
    decreases |layout.blocks| - i
  {
    hide ReadBlock, IndexOf, I.IndexBytes, I.BloomBytes, Joined, BlockBytes, HeaderBytes, FooterBytes, EntriesFit;
    hide SealedAs, FreshCrypto;
    var blocks, index := layout.blocks, layout.Index();
    if i < |blocks| {
      FlatSuffixSorted(blocks, i);
      assert blocks[i..][0] == blocks[i] && blocks[i..][1..] == blocks[i + 1..];
      IndexEntryKeys(layout, i);
      if stop(index[i]) {
        var all := Flat(blocks[i..]);
        forall j | 0 <= j < |all|
          ensures !keep(all[j].key)
        {
          FlatFromFirst(blocks[i..], j);
        }
        SelectNothing(all, keep);
      } else {
        ReadWrittenBlock(layout, crypto, i);
        ScanSuffix(layout, crypto, i + 1, start, stop, keep);
        SelectConcat(blocks[i], Flat(blocks[i + 1..]), keep);
      }
    }
  }

  lemma FlatSuffixSorted(blocks: seq<seq<Entry>>, i: nat)
    requires StrictlySorted(Flat(blocks)) && i <= |blocks|
    ensures StrictlySorted(Flat(blocks[i..])) && StrictlySorted(Flat(blocks[..i]))
    ensures Flat(blocks) == Flat(blocks[..i]) + Flat(blocks[i..])
  {
    hide Flat, StrictlySorted;
    assert blocks == blocks[..i] + blocks[i..];
    FlatConcat(blocks[..i], blocks[i..]);
    SortedParts(Flat(blocks[..i]), Flat(blocks[i..]));
  }

  /** A pruned scan of a written file finds exactly the wanted entries, in order. */
  lemma ScanWritten(layout: Layout, crypto: Crypto, start: Bytes, stop: I.IndexEntry -> bool, keep: Bytes -> bool)
    requires layout.Valid() && layout.InRange() && layout.Seals(crypto)
    requires StrictlySorted(Flat(layout.blocks)) && Prunes(start, stop, keep)
    ensures Scan(OnDisk(layout, crypto), layout.Index(), PartitionPoint(layout.Index(), start), stop, keep)
         == Success(Select(Flat(layout.blocks), keep))
  {
    hide IndexOf, I.IndexBytes, I.BloomBytes, Joined, BlockBytes, HeaderBytes, FooterBytes, EntriesFit, Scan;
    hide PartitionPoint, Flat, Select, SealedAs, FreshCrypto;
    var blocks, index := layout.blocks, layout.Index();
    var from := PartitionPoint(index, start);
    PartitionPointIs(index, start);
    FlatSuffixSorted(blocks, from);
    forall i | 0 <= i < from
      ensures Lt(LastKey(blocks[..from][i]), start)
    {
      IndexEntryKeys(layout, i);
    }
    SkippedBlocks(blocks[..from], start, keep);
    SelectConcat(Flat(blocks[..from]), Flat(blocks[from..]), keep);
    ScanSuffix(layout, crypto, from, start, stop, keep);
    assert [] + Select(Flat(blocks[from..]), keep) == Select(Flat(blocks[from..]), keep);
  }

  // ── reading a whole file ───────────────────────────────────────────────

  const EVERYTHING: Bytes -> bool := (key: Bytes) => true
  const NEVER: I.IndexEntry -> bool := (entry: I.IndexEntry) => false

  lemma {:induction false} SelectEverything(entries: seq<Entry>)
    ensures Select(entries, EVERYTHING) == entries
  {
    if entries != [] {
      SelectEverything(entries[1..]);
    }
  }

  /** The full scan compaction makes: every block, in order. */
  method Entries(f: SstOnDisk, sst: Sst) returns (res: Result<seq<Entry>>)
    ensures res == Scan(f, sst.index, 0, NEVER, EVERYTHING)
  {
    hide ReadBlock, Scan;
    var out: seq<Entry> := [];
    AfterNothing(Scan(f, sst.index, 0, NEVER, EVERYTHING));
    for blockNo := 0 to |sst.index|
      invariant Scan(f, sst.index, 0, NEVER, EVERYTHING) == After(out, Scan(f, sst.index, blockNo, NEVER, EVERYTHING))
    {
      ScanStep(f, sst.index, blockNo, NEVER, EVERYTHING, out);
      var decoded := ReadBlock(f, blockNo, sst.index[blockNo]);
      if decoded.Failure? {
        return Failure(decoded.error);
      }
      SelectEverything(decoded.value);
      out := out + decoded.value;
    }
    ScanEnd(f, sst.index, NEVER, EVERYTHING, out);
    return Success(out);
  }

  /** What a file holds, read through its metadata and every block. */
  function ReadTable(f: SstOnDisk): Result<Table> {
    var sst :- Load(f);
    var entries :- Scan(f, sst.index, 0, NEVER, EVERYTHING);
    Success(AsTable(entries))
  }

  /** `layout` is how the writer laid out table `t` in file `f`. */
  ghost predicate LaidOut(f: SstOnDisk, hasher: B.Hasher, t: Table, layout: Layout) {
    && layout.Valid() && layout.InRange() && layout.Seals(f.crypto) && layout.id == f.id && layout.blockSize > 0
    && WrittenFrom(layout, Flat(layout.blocks), hasher) && StrictlySorted(Flat(layout.blocks))
    && AsTable(Flat(layout.blocks)) == t && f == OnDisk(layout, f.crypto)
  }

  /** `f` is a file the writer produced for table `t`, sealed for the context it is opened with. */
  ghost predicate Genuine(f: SstOnDisk, hasher: B.Hasher, t: Table) {
    exists layout: Layout :: LaidOut(f, hasher, t, layout)
  }

  /** Writing a sorted table makes a genuine file. */
  lemma WriteIsGenuine(id: nat, t: Table, blockSize: nat, hasher: B.Hasher, sealer: Sealer, crypto: Crypto)
    requires blockSize > 0 && LayoutOf(id, Ascending(t), blockSize, hasher, sealer).InRange()
    requires LayoutOf(id, Ascending(t), blockSize, hasher, sealer).Seals(crypto)
    ensures Genuine(SstOnDisk(id, LayoutOf(id, Ascending(t), blockSize, hasher, sealer).Bytes(), crypto), hasher, t)
  {
    hide FilterOf, SealedAs, FreshCrypto;
    AscendingSorted(t);
    var layout := LayoutOf(id, Ascending(t), blockSize, hasher, sealer);
    assert WrittenFrom(layout, Flat(layout.blocks), hasher);
    assert LaidOut(OnDisk(layout, crypto), hasher, t, layout);
  }

  lemma NothingPruned()
    ensures Prunes([], NEVER, EVERYTHING)
  {
  }

  lemma GenuineEntries(f: SstOnDisk, hasher: B.Hasher, t: Table)
    requires Genuine(f, hasher, t)
    ensures Load(f).Success?
    ensures var res := Scan(f, Load(f).value.index, 0, NEVER, EVERYTHING);
      res.Success? && StrictlySorted(res.value) && AsTable(res.value) == t
  {
    hide Load, Scan, FilterOf, Flat, IndexOf, Select, AsTable, Joined, I.IndexBytes, I.BloomBytes;
    hide HeaderBytes, FooterBytes, StrictlySorted, EntriesFit, BlockBytes, SealedAs, FreshCrypto;
    var layout :| LaidOut(f, hasher, t, layout);
    LoadWritten(layout, f.crypto);
    NothingPruned();
    ScanSuffix(layout, f.crypto, 0, [], NEVER, EVERYTHING);
    assert layout.blocks[0..] == layout.blocks;
    SelectEverything(Flat(layout.blocks));
  }

  /** A genuine file reads back as the table it was written from. */
  lemma GenuineReads(f: SstOnDisk, hasher: B.Hasher, t: Table)
    requires Genuine(f, hasher, t)
    ensures ReadTable(f) == Success(t)
  {
    hide Load, Scan, Genuine, AsTable;
    GenuineEntries(f, hasher, t);
  }

  /** A point lookup in a genuine file is a lookup in its table. */
  lemma GenuineGet(f: SstOnDisk, hasher: B.Hasher, t: Table, key: Bytes)
    requires Genuine(f, hasher, t)
    ensures Load(f).Success?
    ensures var sst := Load(f).value;
      && B.Sized(sst.filter.bits, sst.filter.numBits)
      && var res := Get(f, sst, hasher, key);
         res.Success? && res.value.0 == Tables.Lookup(t, key) && res.value.1 <= 1
  {
    hide Load, Scan, FilterOf, Get, SealedAs, FreshCrypto, Joined, IndexOf, I.IndexBytes, I.BloomBytes, HeaderBytes;
    hide FooterBytes, StrictlySorted, EntriesFit, BlockBytes, Flat, AsTable, Find;
    var layout :| LaidOut(f, hasher, t, layout);
    LoadWritten(layout, f.crypto);
    FilterSized(Flat(layout.blocks), hasher);
    GetWritten(layout, f.crypto, Flat(layout.blocks), hasher, key);
    FindIsLookup(Flat(layout.blocks), key);
  }

  /** A pruned scan of a genuine file selects from the entries of its table. */
  lemma GenuineScan(f: SstOnDisk, hasher: B.Hasher, t: Table, start: Bytes, stop: I.IndexEntry -> bool,
                    keep: Bytes -> bool) returns (entries: seq<Entry>)
    requires Genuine(f, hasher, t) && Prunes(start, stop, keep)
    ensures StrictlySorted(entries) && AsTable(entries) == t && Load(f).Success?
    ensures var index := Load(f).value.index;
      Scan(f, index, PartitionPoint(index, start), stop, keep) == Success(Select(entries, keep))
  {
    hide Load, Scan, FilterOf, IndexOf, Select, Joined, I.IndexBytes, I.BloomBytes, Prunes, SealedAs, FreshCrypto;
    hide HeaderBytes, FooterBytes, StrictlySorted, EntriesFit, BlockBytes, PartitionPoint, AsTable, Flat;
    var layout :| LaidOut(f, hasher, t, layout);
    entries := Flat(layout.blocks);
    LoadWritten(layout, f.crypto);
    ScanWritten(layout, f.crypto, start, stop, keep);
  }

  /** Every indexed block of a genuine file reads back, in key order. */
  lemma GenuineBlock(f: SstOnDisk, hasher: B.Hasher, t: Table, no: nat)
    requires Genuine(f, hasher, t) && Load(f).Success? && no < |Load(f).value.index|
    ensures var res := ReadBlock(f, no, Load(f).value.index[no]);
      res.Success? && StrictlySorted(res.value)
  {
    hide Load, FilterOf, IndexOf, Joined, I.IndexBytes, I.BloomBytes, ReadBlock, SealedAs, FreshCrypto;
    hide HeaderBytes, FooterBytes, StrictlySorted, EntriesFit, BlockBytes, AsTable, Flat;
    var layout :| LaidOut(f, hasher, t, layout);
    LoadWritten(layout, f.crypto);
    ReadWrittenBlock(layout, f.crypto, no);
    BlockSorted(layout.blocks, no);
  }
}
