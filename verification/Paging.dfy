/** Bounded pages of a range scan (`Engine::scan_range_page`): every source is read only so far, and the
    page ends at the frontier up to which all of them are complete. */
module Paging {
  import opened Bytes
  import opened Results
  import opened Tables
  import opened Layers
  import opened Store
  import opened SstFile
  import opened Reads
  import SstReader
  import SstScan
  import I = SstIndexFormat
  import B = Bloom

  /** What one SST or the memtable contributed, and whether it stopped early. */
  datatype Source = Source(out: seq<Entry>, truncated: bool)

  /** Whole blocks from number `no` on until `limit` entries are collected. */
  function ScanLimited(f: SstOnDisk, index: seq<I.IndexEntry>, no: nat, end: Bytes, keep: Bytes -> bool, limit: nat,
                       have: nat): Result<Source>
    decreases |index| - no
  {
    if no >= |index| || !Lt(index[no].firstKey, end) then Success(Source([], false))
    else if have >= limit then Success(Source([], true))
    else
      var block :- SstReader.ReadBlock(f, no, index[no]);
      var matches := SstScan.Select(block, keep);
      var rest :- ScanLimited(f, index, no + 1, end, keep, limit, have + |matches|);
      Success(Source(matches + rest.out, rest.truncated))
  }

  function LimitedIn(sst: SstOnDisk, start: Bytes, end: Bytes, limit: nat): Result<Source> {
    var loaded :- SstReader.Load(sst);
    ScanLimited(sst, loaded.index, SstReader.PartitionPoint(loaded.index, start), end, SstScan.InRangeOf(start, end),
                limit, 0)
  }

  function SourcesIn(listed: seq<SstOnDisk>, start: Bytes, end: Bytes, limit: nat): Result<seq<Source>> {
    if listed == [] then Success([])
    else
      var older :- SourcesIn(listed[..|listed| - 1], start, end, limit);
      var newest :- LimitedIn(listed[|listed| - 1], start, end, limit);
      Success(older + [newest])
  }

  function MemLimited(mem: Table, start: Bytes, end: Bytes, limit: nat): Source {
    var all := Ascending(Restrict(mem, SstScan.InRangeOf(start, end)));
    if |all| <= limit then Source(all, false) else Source(all[..limit], true)
  }

  function Last(src: Source): Bytes {
    if src.out == [] then [] else src.out[|src.out| - 1].key
  }

  /** The smallest last key of a source that stopped early. */
  function Frontier(sources: seq<Source>): Option<Bytes> {
    if sources == [] then None
    else
      var src, others := sources[|sources| - 1], Frontier(sources[..|sources| - 1]);
      if !src.truncated || (others.Some? && Lt(others.value, Last(src))) then others else Some(Last(src))
  }

  function MergeSources(sources: seq<Source>): Table {
    if sources == [] then map[]
    else InsertAll(MergeSources(sources[..|sources| - 1]), sources[|sources| - 1].out)
  }

  function UpTo(frontier: Bytes): Bytes -> bool {
    key => AtMost(key, frontier)
  }

  /** Live entries and the start of the next page, if any. */
  datatype ScanPage = ScanPage(entries: seq<Entry>, nextStart: Option<Bytes>)

  function Page(mem: Table, listed: seq<SstOnDisk>, start: Bytes, end: Bytes, limit: nat): Result<ScanPage> {
    if !Lt(start, end) || limit == 0 then Success(ScanPage([], None))
    else
      var older :- SourcesIn(listed, start, end, limit);
      var sources := older + [MemLimited(mem, start, end, limit)];
      var merged := MergeSources(sources);
      match Frontier(sources)
      case None => Success(ScanPage(Ascending(LiveOnly(merged)), None))
      case Some(f) => Success(ScanPage(Ascending(LiveOnly(Restrict(merged, UpTo(f)))), Some(f + [0])))
  }

  // ── reading one source ─────────────────────────────────────────────────

  method EntriesWithRangeLimited(f: SstOnDisk, sst: SstReader.Sst, start: Bytes, end: Bytes, limit: nat)
    returns (res: Result<Source>)
    ensures res == if !Lt(start, end) || limit == 0 then Success(Source([], false))
                   else ScanLimited(f, sst.index, SstReader.PartitionPoint(sst.index, start), end,
                                    SstScan.InRangeOf(start, end), limit, 0)
  {
    hide SstReader.ReadBlock, SstScan.Select, ScanLimited, SstReader.PartitionPoint;
    if !Lt(start, end) || limit == 0 {
      return Success(Source([], false));
    }
    var keep := SstScan.InRangeOf(start, end);
    var from := SstReader.PartitionPoint(sst.index, start);
    var out: seq<Entry> := [];
    ghost var whole := ScanLimited(f, sst.index, from, end, keep, limit, 0);
    GatheredNothing(whole);
    for blockNo := from to |sst.index|
      invariant whole == Gathered(out, ScanLimited(f, sst.index, blockNo, end, keep, limit, |out|))
    {
      var entry := sst.index[blockNo];
      LimitedStep(f, sst.index, blockNo, end, keep, limit, out);
      if !Lt(entry.firstKey, end) {
        return Success(Source(out, false));
      }
      if |out| >= limit {
        return Success(Source(out, true));
      }
      var decoded := SstReader.ReadBlock(f, blockNo, entry);
      if decoded.Failure? {
        return Failure(decoded.error);
      }
      out := out + SstScan.Select(decoded.value, keep);
    }
    LimitedEnd(f, sst.index, end, keep, limit, out);
    return Success(Source(out, false));
  }

  /** What the rest of a limited scan adds to what is collected. */
  function Gathered(out: seq<Entry>, rest: Result<Source>): Result<Source> {
    match rest
    case Failure(e) => Failure(e)
    case Success(src) => Success(Source(out + src.out, src.truncated))
  }

  lemma GatheredNothing(rest: Result<Source>)
    ensures Gathered([], rest) == rest
  {
    if rest.Success? {
      assert [] + rest.value.out == rest.value.out;
    }
  }

  lemma LimitedEnd(f: SstOnDisk, index: seq<I.IndexEntry>, end: Bytes, keep: Bytes -> bool, limit: nat, out: seq<Entry>)
    ensures Gathered(out, ScanLimited(f, index, |index|, end, keep, limit, |out|)) == Success(Source(out, false))
  {
    assert out + [] == out;
  }

  lemma LimitedStep(f: SstOnDisk, index: seq<I.IndexEntry>, i: nat, end: Bytes, keep: Bytes -> bool, limit: nat,
                    out: seq<Entry>)
    requires i < |index|
    ensures Gathered(out, ScanLimited(f, index, i, end, keep, limit, |out|))
         == if !Lt(index[i].firstKey, end) then Success(Source(out, false))
            else if |out| >= limit then Success(Source(out, true))
            else match SstReader.ReadBlock(f, i, index[i])
                 case Failure(e) => Failure(e)
                 case Success(block) =>
                   var more := out + SstScan.Select(block, keep);
                   Gathered(more, ScanLimited(f, index, i + 1, end, keep, limit, |more|))
  {
    hide SstReader.ReadBlock, SstScan.Select;
    assert out + [] == out;
    if Lt(index[i].firstKey, end) && |out| < limit && SstReader.ReadBlock(f, i, index[i]).Success? {
      var matches := SstScan.Select(SstReader.ReadBlock(f, i, index[i]).value, keep);
      var rest := ScanLimited(f, index, i + 1, end, keep, limit, |out + matches|);
      if rest.Success? {
        assert out + (matches + rest.value.out) == out + matches + rest.value.out;
      }
    }
  }

  lemma RestrictedAscending(entries: seq<Entry>, keep: Bytes -> bool)
    requires StrictlySorted(entries)
    ensures Ascending(Restrict(AsTable(entries), keep)) == SstScan.Select(entries, keep)
  {
    hide StrictlySorted, AsTable, Restrict;
    SelectSorted(entries, keep);
    AscendingUnique(SstScan.Select(entries, keep));
  }

  lemma SelectUpTo(entries: seq<Entry>, i: nat, keep: Bytes -> bool)
    requires i < |entries|
    ensures SstScan.Select(entries[..i + 1], keep)
         == SstScan.Select(entries[..i], keep) + if keep(entries[i].key) then [entries[i]] else []
  {
    hide SstScan.Select;
    assert entries[..i + 1] == entries[..i] + [entries[i]];
    SstScan.SelectConcat(entries[..i], [entries[i]], keep);
    SstScan.SelectOne(entries[i], keep);
  }

  lemma SelectPrefix(entries: seq<Entry>, i: nat, keep: Bytes -> bool)
    requires i <= |entries|
    ensures SstScan.Select(entries[..i], keep) <= SstScan.Select(entries, keep)
  {
    hide SstScan.Select;
    assert entries == entries[..i] + entries[i..];
    SstScan.SelectConcat(entries[..i], entries[i..], keep);
  }

  /** The first `limit` in-range entries of the memtable, and whether there was one more. */
  method TakeFromMemtable(entries: seq<Entry>, start: Bytes, end: Bytes, limit: nat) returns (src: Source)
    requires StrictlySorted(entries)
    ensures src == MemLimited(AsTable(entries), start, end, limit)
  {
    hide StrictlySorted, AsTable, Restrict, Ascending;
    var keep := SstScan.InRangeOf(start, end);
    var taken: seq<Entry> := [];
    RestrictedAscending(entries, keep);
    for i := 0 to |entries|
      invariant taken == SstScan.Select(entries[..i], keep) && |taken| <= limit
    {
      SelectUpTo(entries, i, keep);
      SelectPrefix(entries, i + 1, keep);
      if Lt(entries[i].key, start) || !Lt(entries[i].key, end) {
        continue;
      }
      if |taken| == limit {
        return Source(taken, true);
      }
      taken := taken + [entries[i]];
    }
    assert entries[..|entries|] == entries;
    return Source(taken, false);
  }

  // ── sources are complete up to their last key ──────────────────────────

  /** `src` starts the ascending list of `t`, and has at least one entry if it does not finish it. */
  ghost predicate Starts(src: Source, t: Table) {
    && src.out <= Ascending(t)
    && if src.truncated then src.out != [] else src.out == Ascending(t)
  }

  lemma {:induction false} LimitedStarts(f: SstOnDisk, index: seq<I.IndexEntry>, no: nat, end: Bytes,
                                         keep: Bytes -> bool, limit: nat, have: nat, full: seq<Entry>)
    requires SstScan.Scan(f, index, no, SstScan.PastEnd(end), keep) == Success(full)
    ensures var res := ScanLimited(f, index, no, end, keep, limit, have);
      && res.Success? && res.value.out <= full
      && if res.value.truncated then have + |res.value.out| >= limit else res.value.out == full
    decreases |index| - no
  {
    hide SstReader.ReadBlock, SstScan.Select;
    if no < |index| && Lt(index[no].firstKey, end) && have < limit {
      var matches := SstScan.Select(SstReader.ReadBlock(f, no, index[no]).value, keep);
      assert full[|matches|..] == SstScan.Scan(f, index, no + 1, SstScan.PastEnd(end), keep).value;
      LimitedStarts(f, index, no + 1, end, keep, limit, have + |matches|, full[|matches|..]);
    }
  }

  lemma LimitedSound(sst: SstOnDisk, c: Config, start: Bytes, end: Bytes, limit: nat)
    requires Sound(sst, c) && limit > 0
    ensures var res := LimitedIn(sst, start, end, limit);
      res.Success? && Starts(res.value, Restrict(TableIn(sst), SstScan.InRangeOf(start, end)))
  {
    hide SstReader.Load, SstScan.Scan, ScanLimited, TableIn, Restrict, StrictlySorted, AsTable, Sound;
    var q := RangeQuery(start, end);
    SstScan.RangePrunes(start, end);
    MatchesSound(sst, c, q);
    var full := MatchesIn(sst, q).value;
    AscendingUnique(full);
    var loaded := SstReader.Load(sst).value;
    LimitedStarts(sst, loaded.index, SstReader.PartitionPoint(loaded.index, start), end,
                  SstScan.InRangeOf(start, end), limit, 0, full);
  }

  /** The in-range part of every layer, oldest first. */
  function Ranges(listed: seq<SstOnDisk>, keep: Bytes -> bool): (r: seq<Table>)
    ensures |r| == |listed|
  {
    if listed == [] then []
    else Ranges(listed[..|listed| - 1], keep) + [Restrict(TableIn(listed[|listed| - 1]), keep)]
  }

  lemma {:induction false} RangesMerge(listed: seq<SstOnDisk>, keep: Bytes -> bool)
    ensures Merge(Ranges(listed, keep)) == Restrict(Stack(listed), keep)
  {
    hide Restrict, Stack, TableIn, Merge;
    if listed == [] {
      StackOne(SstOnDisk(0, [], None));
      RestrictParts(map[], map[], keep);
      MergeNothing();
    } else {
      var n := |listed| - 1;
      RangesMerge(listed[..n], keep);
      StackSplit(listed);
      MergeOne(Ranges(listed[..n], keep), Restrict(TableIn(listed[n]), keep));
      RestrictParts(Stack(listed[..n]), TableIn(listed[n]), keep);
    }
  }

  ghost predicate AllStart(sources: seq<Source>, tables: seq<Table>) {
    |sources| == |tables| && forall i :: 0 <= i < |sources| ==> Starts(sources[i], tables[i])
  }

  lemma {:induction false} SourcesStart(listed: seq<SstOnDisk>, c: Config, start: Bytes, end: Bytes, limit: nat)
    requires AllSound(listed, c) && limit > 0
    ensures var res := SourcesIn(listed, start, end, limit);
      res.Success? && AllStart(res.value, Ranges(listed, SstScan.InRangeOf(start, end)))
  {
    hide LimitedIn, TableIn, Restrict, Starts, Sound;
    if listed != [] {
      var n := |listed| - 1;
      assert Sound(listed[n], c);
      LimitedSound(listed[n], c, start, end, limit);
      SourcesStart(listed[..n], c, start, end, limit);
    }
  }

  lemma MemStarts(mem: Table, start: Bytes, end: Bytes, limit: nat)
    requires limit > 0
    ensures Starts(MemLimited(mem, start, end, limit), Restrict(mem, SstScan.InRangeOf(start, end)))
  {
    hide Restrict, Ascending;
  }

  /** Up to its last key a source that stopped early knows everything. */
  lemma StartsLookup(src: Source, t: Table, key: Bytes)
    requires Starts(src, t) && (src.truncated ==> AtMost(key, Last(src)))
    ensures StrictlySorted(src.out) && Lookup(AsTable(src.out), key) == Lookup(t, key)
  {
    hide Ascending, AsTable;
    var all := Ascending(t);
    AscendingSorted(t);
    var rest := all[|src.out|..];
    assert all == src.out + rest;
    SstReader.SortedParts(src.out, rest);
    FindIsLookup(all, key);
    FindIsLookup(src.out, key);
    FindConcat(src.out, rest, key);
    forall j | 0 <= j < |rest|
      ensures rest[j].key != key
    {
      AtMostTransitive(key, Last(src), rest[j].key);
      LtIrreflexive(key);
    }
    FindNowhere(rest, key);
  }

  predicate Reached(sources: seq<Source>, key: Bytes) {
    forall i :: 0 <= i < |sources| && sources[i].truncated ==> AtMost(key, Last(sources[i]))
  }

  lemma {:induction false} MergeLookup(sources: seq<Source>, tables: seq<Table>, key: Bytes)
    requires AllStart(sources, tables) && Reached(sources, key)
    ensures Lookup(MergeSources(sources), key) == Lookup(Merge(tables), key)
  {
    hide Starts, AsTable, StrictlySorted, InsertAll;
    if sources != [] {
      var n := |sources| - 1;
      assert Starts(sources[n], tables[n]);
      MergeLookup(sources[..n], tables[..n], key);
      StartsLookup(sources[n], tables[n], key);
      InsertSorted(MergeSources(sources[..n]), sources[n].out);
    }
  }

  lemma {:induction false} FrontierIs(sources: seq<Source>)
    ensures var f := Frontier(sources);
      match f
      case None => forall i :: 0 <= i < |sources| ==> !sources[i].truncated
      case Some(k) =>
        && (exists i :: 0 <= i < |sources| && sources[i].truncated && Last(sources[i]) == k)
        && (forall i :: 0 <= i < |sources| && sources[i].truncated ==> AtMost(k, Last(sources[i])))
  {
    hide Last;
    if sources != [] {
      var n := |sources| - 1;
      var others := Frontier(sources[..n]);
      FrontierIs(sources[..n]);
      assert forall i :: 0 <= i < n ==> sources[..n][i] == sources[i];
      if others.Some? {
        NotLtIsAtMost(others.value, Last(sources[n]));
        var i :| 0 <= i < n && sources[..n][i].truncated && Last(sources[..n][i]) == others.value;
        assert sources[i].truncated && Last(sources[i]) == others.value;
        forall j | 0 <= j < n && sources[j].truncated && !Lt(others.value, Last(sources[n]))
          ensures AtMost(Last(sources[n]), Last(sources[j]))
        {
          AtMostTransitive(Last(sources[n]), others.value, Last(sources[j]));
        }
      }
    }
  }

  /** `key + [0]` is the next byte string after `key`. */
  lemma {:induction false} Successor(key: Bytes, other: Bytes)
    ensures AtMost(other, key) <==> Lt(other, key + [0])
  {
    if key != [] && other != [] && other[0] == key[0] {
      assert (key + [0])[1..] == key[1..] + [0];
      assert key == [key[0]] + key[1..] && other == [other[0]] + other[1..];
      Successor(key[1..], other[1..]);
    }
  }

  // ── pages against the contents ─────────────────────────────────────────

  /** EVERYTHING a range could still meet: tombstones included. */
  function InReach(s: State, start: Bytes, end: Bytes): Table {
    Restrict(Stack(s.listed) + s.mem, SstScan.InRangeOf(start, end))
  }

  lemma FrontierInReach(sources: seq<Source>, tables: seq<Table>, i: nat, start: Bytes, end: Bytes, whole: Table)
    requires AllStart(sources, tables) && i < |sources| && sources[i].truncated
    requires Merge(tables) == Restrict(whole, SstScan.InRangeOf(start, end))
    requires Frontier(sources) == Some(Last(sources[i]))
    ensures var f := Last(sources[i]); f in whole && !Lt(f, start) && Lt(f, end)
  {
    hide AsTable, Merge, Ascending, StrictlySorted, InsertAll;
    var f, src := Last(sources[i]), sources[i];
    FrontierIs(sources);
    assert Starts(src, tables[i]);
    var last := |src.out| - 1;
    assert Ascending(tables[i])[last] == src.out[last] && f in tables[i];
    KeyInMerge(tables, i, f);
    assert f in Merge(tables);
  }

  lemma {:induction false} KeyInMerge(tables: seq<Table>, i: nat, key: Bytes)
    requires i < |tables| && key in tables[i]
    ensures key in Merge(tables)
  {
    var n := |tables| - 1;
    if i < n {
      KeyInMerge(tables[..n], i, key);
    }
  }

  /** The merged sources, up to the frontier, are the layers up to the frontier. */
  lemma MergedUpTo(sources: seq<Source>, tables: seq<Table>, whole: Table)
    requires AllStart(sources, tables) && Merge(tables) == whole
    ensures match Frontier(sources)
      case None => MergeSources(sources) == whole
      case Some(f) => Restrict(MergeSources(sources), UpTo(f)) == Restrict(whole, UpTo(f))
  {
    hide Starts, MergeSources, Merge;
    FrontierIs(sources);
    var f := Frontier(sources);
    forall key | f.Some? ==> AtMost(key, f.value)
      ensures Lookup(MergeSources(sources), key) == Lookup(whole, key)
    {
      forall i | 0 <= i < |sources| && sources[i].truncated
        ensures AtMost(key, Last(sources[i]))
      {
        AtMostTransitive(key, f.value, Last(sources[i]));
      }
      MergeLookup(sources, tables, key);
    }
    SameLookups(MergeSources(sources), whole, f);
  }

  lemma SameLookups(a: Table, b: Table, f: Option<Bytes>)
    requires forall key :: (f.Some? ==> AtMost(key, f.value)) ==> Lookup(a, key) == Lookup(b, key)
    ensures if f.Some? then Restrict(a, UpTo(f.value)) == Restrict(b, UpTo(f.value)) else a == b
  {
    if f.Some? {
      forall key
        ensures Lookup(Restrict(a, UpTo(f.value)), key) == Lookup(Restrict(b, UpTo(f.value)), key)
      {
        if AtMost(key, f.value) {
          assert Lookup(a, key) == Lookup(b, key);
        }
      }
      SameTable(Restrict(a, UpTo(f.value)), Restrict(b, UpTo(f.value)));
    } else {
      SameTable(a, b);
    }
  }

  lemma SameTable(a: Table, b: Table)
    requires forall key :: Lookup(a, key) == Lookup(b, key)
    ensures a == b
  {
    forall key
      ensures key in a <==> key in b
      ensures key in a ==> a[key] == b[key]
    {
      assert Lookup(a, key) == Lookup(b, key);
    }
  }

  /** `entries` is what `db` holds in `[start, upper)`. */
  ghost predicate Spans(entries: seq<Entry>, db: Db, start: Bytes, upper: Bytes) {
    Lists(entries, db, SstScan.InRangeOf(start, upper))
  }

  lemma SpansRange(whole: Table, start: Bytes, upper: Bytes)
    ensures Spans(Ascending(LiveOnly(Restrict(whole, SstScan.InRangeOf(start, upper)))), Live(whole), start, upper)
  {
    hide Restrict, Live, LiveOnly, Ascending, AsTable, StrictlySorted;
    var keep := SstScan.InRangeOf(start, upper);
    AscendingSorted(LiveOnly(Restrict(whole, keep)));
    forall key
      ensures Lookup(LiveOnly(Restrict(whole, keep)), key)
           == if key in Live(whole) && keep(key) then Some(Some(Live(whole)[key])) else None
    {
      LiveRestricted(whole, keep, key);
    }
  }

  lemma CutRange(whole: Table, start: Bytes, end: Bytes, f: Bytes)
    requires Lt(f, end)
    ensures Restrict(Restrict(whole, SstScan.InRangeOf(start, end)), UpTo(f))
         == Restrict(whole, SstScan.InRangeOf(start, f + [0]))
    ensures AtMost(f + [0], end)
  {
    forall key
      ensures AtMost(key, f) && Lt(key, end) <==> Lt(key, f + [0])
    {
      Successor(f, key);
      if AtMost(key, f) {
        AtMostTransitive(key, f, end);
      }
    }
    NotLtIsAtMost(end, f + [0]);
    if Lt(end, f + [0]) {
      Successor(f, end);
      NotLtIsAtMost(f, end);
      AtMostTransitive(end, f, end);
      LtIrreflexive(end);
    }
  }

  /** A page lists exactly the recoverable entries of `[start, upper)`, where `upper` is the start of the
      next page, or the end of the range when there is none; a next page starts just after a key in reach. */
  lemma PageIsContents(s: State, c: Config, start: Bytes, end: Bytes, limit: nat)
    requires Inv(s, c) && s.phase.Ready? && Lt(start, end) && limit > 0
    ensures var res := Page(s.mem, s.listed, start, end, limit);
      && res.Success?
      && var next := res.value.nextStart;
         && Spans(res.value.entries, Contents(s.disk, c.crypto), start, if next.Some? then next.value else end)
         && (next.Some? ==>
               && Lt(start, next.value) && AtMost(next.value, end)
               && exists f :: f in InReach(s, start, end) && next.value == f + [0])
  {
    hide Sound, LogWhole, Stack, Logged, StrictlySorted, Restrict, Live, LiveOnly, Ascending, AsTable, Merge;
    hide SourcesIn, MemLimited, MergeSources, Frontier, Spans, Ranges, AllStart, UpTo;
    var orphan :| RunningInv(s, orphan, c);
    ListedSound(s, orphan, c);
    Directory(s, orphan, c);
    var keep, whole := SstScan.InRangeOf(start, end), Stack(s.listed) + s.mem;
    var sources, tables := PageSources(s, c, start, end, limit);
    assert Contents(s.disk, c.crypto) == Live(whole);
    MergedUpTo(sources, tables, Restrict(whole, keep));
    FrontierIs(sources);
    match Frontier(sources)
    case None =>
      SpansRange(whole, start, end);
    case Some(f) =>
      var i :| 0 <= i < |sources| && sources[i].truncated && Last(sources[i]) == f;
      FrontierInReach(sources, tables, i, start, end, whole);
      CutRange(whole, start, end, f);
      SpansRange(whole, start, f + [0]);
      assert f in InReach(s, start, end) by { KeyInRange(whole, keep, f); }
      Successor(f, start);
      NotLtIsAtMost(f, start);
  }

  lemma KeyInRange(whole: Table, keep: Bytes -> bool, key: Bytes)
    ensures key in Restrict(whole, keep) <==> key in whole && keep(key)
  {
  }

  lemma PageSources(s: State, c: Config, start: Bytes, end: Bytes, limit: nat)
    returns (sources: seq<Source>, tables: seq<Table>)
    requires AllSound(s.listed, c) && limit > 0
    ensures var older := SourcesIn(s.listed, start, end, limit);
      older.Success? && sources == older.value + [MemLimited(s.mem, start, end, limit)]
    ensures AllStart(sources, tables)
    ensures Merge(tables) == Restrict(Stack(s.listed) + s.mem, SstScan.InRangeOf(start, end))
  {
    hide Sound, Stack, Restrict, Merge, SourcesIn, MemLimited, Ranges, Starts;
    var keep := SstScan.InRangeOf(start, end);
    SourcesStart(s.listed, c, start, end, limit);
    MemStarts(s.mem, start, end, limit);
    var older := Ranges(s.listed, keep);
    sources := SourcesIn(s.listed, start, end, limit).value + [MemLimited(s.mem, start, end, limit)];
    tables := older + [Restrict(s.mem, keep)];
    RangesMerge(s.listed, keep);
    MergeOne(older, Restrict(s.mem, keep));
    RestrictParts(Stack(s.listed), s.mem, keep);
  }

  // ── paging to the end ──────────────────────────────────────────────────

  lemma ReachShrinks(s: State, start: Bytes, end: Bytes, f: Bytes)
    requires f in InReach(s, start, end) && Lt(start, f + [0])
    ensures |InReach(s, f + [0], end)| < |InReach(s, start, end)|
  {
    var before, after := InReach(s, start, end), InReach(s, f + [0], end);
    Successor(f, f);
    forall key | key in after
      ensures key in before
    {
      NotLtIsAtMost(key, f + [0]);
      AtMostTransitive(start, f + [0], key);
      NotLtIsAtMost(key, start);
    }
    assert after.Keys < before.Keys;
    KeyCount(after.Keys, before.Keys);
    assert |after.Keys| == |after| && |before.Keys| == |before|;
  }

  lemma KeyCount(a: set<Bytes>, b: set<Bytes>)
    requires a < b
    ensures |a| < |b|
  {
    assert b == a + (b - a);
  }

  /** Calling for pages until there is no next one. */
  ghost function AllPages(s: State, c: Config, start: Bytes, end: Bytes, limit: nat): seq<Entry>
    requires Inv(s, c) && s.phase.Ready? && Lt(start, end) && limit > 0
    decreases |InReach(s, start, end)|
  {
    PageIsContents(s, c, start, end, limit);
    var page := Page(s.mem, s.listed, start, end, limit).value;
    if page.nextStart.None? || !Lt(page.nextStart.value, end) then page.entries
    else
      var f :| f in InReach(s, start, end) && page.nextStart.value == f + [0];
      ReachShrinks(s, start, end, f);
      page.entries + AllPages(s, c, page.nextStart.value, end, limit)
  }

  lemma SpansUnique(a: seq<Entry>, b: seq<Entry>, db: Db, start: Bytes, end: Bytes)
    requires Spans(a, db, start, end) && Spans(b, db, start, end)
    ensures a == b
  {
    hide StrictlySorted, AsTable;
    SameTable(AsTable(a), AsTable(b));
    AscendingUnique(a);
    AscendingUnique(b);
  }

  lemma {:induction false} ListedInRange(entries: seq<Entry>, db: Db, start: Bytes, upper: Bytes, i: nat)
    requires Spans(entries, db, start, upper) && i < |entries|
    ensures !Lt(entries[i].key, start) && Lt(entries[i].key, upper)
  {
    hide AsTable;
    var key := entries[i].key;
    KeysListed(entries, key);
    assert Lookup(AsTable(entries), key).Some?;
  }

  lemma SpansConcat(a: seq<Entry>, b: seq<Entry>, db: Db, start: Bytes, middle: Bytes, end: Bytes)
    requires Spans(a, db, start, middle) && Spans(b, db, middle, end) && AtMost(start, middle) && AtMost(middle, end)
    ensures Spans(a + b, db, start, end)
  {
    hide AsTable;
    var all := a + b;
    forall i, j | 0 <= i < j < |all|
      ensures Lt(all[i].key, all[j].key)
    {
      if i < |a| <= j {
        ListedInRange(a, db, start, middle, i);
        ListedInRange(b, db, middle, end, j - |a|);
        NotLtIsAtMost(b[j - |a|].key, middle);
        AtMostTransitive(a[i].key, middle, b[j - |a|].key);
      }
    }
    forall key
      ensures Lookup(AsTable(all), key)
           == if key in db && SstScan.InRangeOf(start, end)(key) then Some(Some(db[key])) else None
    {
      FindIsLookup(all, key);
      FindIsLookup(a, key);
      FindIsLookup(b, key);
      FindConcat(a, b, key);
      RangeSplits(start, middle, end, key);
    }
  }

  lemma RangeSplits(start: Bytes, middle: Bytes, end: Bytes, key: Bytes)
    requires AtMost(start, middle) && AtMost(middle, end)
    ensures SstScan.InRangeOf(start, end)(key)
            <==> SstScan.InRangeOf(start, middle)(key) || SstScan.InRangeOf(middle, end)(key)
  {
    NotLtIsAtMost(key, start);
    NotLtIsAtMost(key, middle);
    if Lt(key, middle) {
      AtMostTransitive(key, middle, end);
    } else {
      AtMostTransitive(start, middle, key);
    }
  }

  /** Paging through a range, whatever the page limit, gives exactly what one scan of it gives. */
  lemma {:induction false} PagesReassemble(s: State, c: Config, start: Bytes, end: Bytes, limit: nat)
    requires Inv(s, c) && s.phase.Ready? && Lt(start, end) && limit > 0
    ensures ScanAll(s.mem, s.listed, RangeQuery(start, end)) == Success(AllPages(s, c, start, end, limit))
  {
    hide Inv, Page, ScanAll, Lists, Contents, AllPages;
    var db, pages := Contents(s.disk, c.crypto), AllPages(s, c, start, end, limit);
    PagesList(s, c, start, end, limit);
    SstScan.RangePrunes(start, end);
    ScanIsContents(s, c, RangeQuery(start, end));
    var scanned := ScanAll(s.mem, s.listed, RangeQuery(start, end)).value;
    assert Spans(scanned, db, start, end);
    SpansUnique(scanned, pages, db, start, end);
  }

  lemma {:induction false} PagesList(s: State, c: Config, start: Bytes, end: Bytes, limit: nat)
    requires Inv(s, c) && s.phase.Ready? && Lt(start, end) && limit > 0
    ensures Spans(AllPages(s, c, start, end, limit), Contents(s.disk, c.crypto), start, end)
    decreases |InReach(s, start, end)|
  {
    hide Inv, Page, Spans, Contents, InReach;
    PageIsContents(s, c, start, end, limit);
    var page, db := Page(s.mem, s.listed, start, end, limit).value, Contents(s.disk, c.crypto);
    if page.nextStart.Some? {
      var next := page.nextStart.value;
      if Lt(next, end) {
        var f :| f in InReach(s, start, end) && next == f + [0];
        ReachShrinks(s, start, end, f);
        PagesList(s, c, next, end, limit);
        SpansConcat(page.entries, AllPages(s, c, next, end, limit), db, start, next, end);
      } else {
        NotLtIsAtMost(next, end);
        AtMostTransitive(next, end, next);
        LtIrreflexive(end);
      }
    }
  }
}
