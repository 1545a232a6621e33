/** Reads of a running store (`Engine::get`, `scan_prefix`, `scan_range`): the memtable over the SSTs,
    newest layer first. */
module Reads {
  import opened Bytes
  import opened Results
  import opened Tables
  import opened Layers
  import opened Store
  import opened SstFile
  import SstReader
  import SstScan
  import I = SstIndexFormat
  import B = Bloom

  lemma SoundGet(sst: SstOnDisk, c: Config, key: Bytes)
    requires Sound(sst, c)
    ensures var loaded := SstReader.Load(sst);
      && loaded.Success? && B.Sized(loaded.value.filter.bits, loaded.value.filter.numBits)
      && var res := SstReader.Get(sst, loaded.value, c.hasher, key);
         res.Success? && res.value.0 == Lookup(TableIn(sst), key) && res.value.1 <= 1
  {
    hide SstReader.Load, SstReader.Get, TableIn;
    SstScan.GenuineGet(sst, c.hasher, TableIn(sst), key);
  }

  /** Files newest to oldest; the first that mentions the key, tombstones included, decides. */
  function GetIn(listed: seq<SstOnDisk>, c: Config, key: Bytes): Result<Slot>
    requires AllSound(listed, c)
  {
    if listed == [] then Success(None)
    else
      var newest := listed[|listed| - 1];
      SoundGet(newest, c, key);
      var sst :- SstReader.Load(newest);
      var (hit, _) :- SstReader.Get(newest, sst, c.hasher, key);
      if hit.Some? then Success(hit.value) else GetIn(listed[..|listed| - 1], c, key)
  }

  function Get(mem: Table, listed: seq<SstOnDisk>, c: Config, key: Bytes): Result<Slot>
    requires AllSound(listed, c)
  {
    if key in mem then Success(mem[key]) else GetIn(listed, c, key)
  }

  lemma StackSplit(ssts: seq<SstOnDisk>)
    requires ssts != []
    ensures Stack(ssts) == Stack(ssts[..|ssts| - 1]) + TableIn(ssts[|ssts| - 1])
  {
    hide Stack, TableIn;
    var n := |ssts| - 1;
    assert ssts == ssts[..n] + [ssts[n]];
    StackConcat(ssts[..n], [ssts[n]]);
    StackOne(ssts[n]);
  }

  lemma {:induction false} GetInStack(listed: seq<SstOnDisk>, c: Config, key: Bytes)
    requires AllSound(listed, c)
    ensures GetIn(listed, c, key)
         == Success(if key in Stack(listed) then Stack(listed)[key] else None)
  {
    hide SstReader.Load, SstReader.Get, TableIn, B.Sized, Merge, Sound;
    if listed == [] {
      StackOne(SstOnDisk(0, [], None));
    } else {
      var n := |listed| - 1;
      SoundGet(listed[n], c, key);
      GetInStack(listed[..n], c, key);
      StackSplit(listed);
    }
  }

  /** Between calls, a point lookup answers exactly what a reopen would recover. */
  lemma GetIsContents(s: State, c: Config, key: Bytes)
    requires Inv(s, c) && s.phase.Ready?
    ensures AllSound(s.listed, c)
    ensures var db := Contents(s.disk, c.crypto);
      Get(s.mem, s.listed, c, key) == Success(if key in db then Some(db[key]) else None)
  {
    hide Sound, LogWhole, Stack, Logged, GetIn;
    var orphan :| RunningInv(s, orphan, c);
    ListedSound(s, orphan, c);
    Directory(s, orphan, c);
    GetInStack(s.listed, c, key);
  }

  lemma ListedSound(s: State, orphan: seq<SstOnDisk>, c: Config)
    requires Inv(s, c) && RunningInv(s, orphan, c) && s.phase.Ready?
    ensures AllSound(s.listed, c)
  {
    hide Sound, LogWhole, Shows;
    assert forall i :: 0 <= i < |s.listed| ==> s.disk.ssts[|s.leftover| + i] == s.listed[i];
  }

  // ── scans ──────────────────────────────────────────────────────────────

  function Restrict(t: Table, keep: Bytes -> bool): Table {
    map key | key in t && keep(key) :: t[key]
  }

  /** One insertion after another, later ones winning. */
  function InsertAll(t: Table, entries: seq<Entry>): Table {
    if entries == [] then t
    else
      var n := |entries| - 1;
      InsertAll(t, entries[..n])[entries[n].key := entries[n].value]
  }

  /** Where a scan starts in the index, where it stops, and what it keeps. */
  datatype Query = Query(start: Bytes, stop: I.IndexEntry -> bool, keep: Bytes -> bool) {
    ghost predicate Valid() { SstScan.Prunes(start, stop, keep) }
  }

  function PrefixQuery(prefix: Bytes): Query {
    Query(prefix, SstScan.PastPrefix(prefix), SstScan.CarriesPrefix(prefix))
  }

  function RangeQuery(start: Bytes, end: Bytes): Query {
    Query(start, SstScan.PastEnd(end), SstScan.InRangeOf(start, end))
  }

  function MatchesIn(sst: SstOnDisk, q: Query): Result<seq<Entry>> {
    var loaded :- SstReader.Load(sst);
    SstScan.Scan(sst, loaded.index, SstReader.PartitionPoint(loaded.index, q.start), q.stop, q.keep)
  }

  /** The matches of every file, oldest first, the newest state per key winning. */
  function ScanIn(listed: seq<SstOnDisk>, q: Query): Result<Table> {
    if listed == [] then Success(map[])
    else
      var merged :- ScanIn(listed[..|listed| - 1], q);
      var matches :- MatchesIn(listed[|listed| - 1], q);
      Success(InsertAll(merged, matches))
  }

  /** The live entries of a scan in ascending key order. */
  function ScanAll(mem: Table, listed: seq<SstOnDisk>, q: Query): Result<seq<Entry>> {
    var merged :- ScanIn(listed, q);
    Success(Ascending(LiveOnly(merged + Restrict(mem, q.keep))))
  }

  lemma {:induction false} InsertSorted(t: Table, entries: seq<Entry>)
    requires StrictlySorted(entries)
    ensures InsertAll(t, entries) == t + AsTable(entries)
  {
    hide StrictlySorted, AsTable;
    if entries == [] {
      NoEntries();
      assert t + map[] == t;
    } else {
      var n := |entries| - 1;
      var before, last := entries[..n], entries[n];
      assert entries == before + [last];
      SstReader.SortedParts(before, [last]);
      InsertSorted(t, before);
      AsTableSnoc(before, last);
    }
  }

  lemma NoEntries()
    ensures AsTable([]) == map[]
  {
  }

  lemma {:induction false} AsTableSnoc(entries: seq<Entry>, last: Entry)
    requires StrictlySorted(entries + [last])
    ensures AsTable(entries + [last]) == AsTable(entries)[last.key := last.value]
  {
    if entries == [] {
      assert entries + [last] == [last] && [last][1..] == [];
    } else {
      var whole := entries + [last];
      assert whole[1..] == entries[1..] + [last];
      SstReader.SortedParts([whole[0]], whole[1..]);
      assert whole == [whole[0]] + whole[1..];
      AsTableSnoc(entries[1..], last);
      assert Lt(whole[0].key, whole[|entries|].key);
      LtIrreflexive(last.key);
    }
  }

  /** What a selection keeps of a sorted list. */
  ghost predicate Selected(entries: seq<Entry>, keep: Bytes -> bool, chosen: seq<Entry>) {
    && StrictlySorted(chosen) && AsTable(chosen) == Restrict(AsTable(entries), keep)
    && forall i :: 0 <= i < |chosen| ==> chosen[i] in entries && keep(chosen[i].key)
  }

  lemma {:induction false} SelectSorted(entries: seq<Entry>, keep: Bytes -> bool)
    requires StrictlySorted(entries)
    ensures Selected(entries, keep, SstScan.Select(entries, keep))
  {
    hide Selected, StrictlySorted;
    if entries == [] {
      SelectNone(keep);
    } else {
      var first, rest := entries[0], entries[1..];
      assert entries == [first] + rest;
      SstReader.SortedParts([first], rest);
      SelectSorted(rest, keep);
      SelectFirst(first, rest, keep, SstScan.Select(rest, keep));
    }
  }

  lemma SelectNone(keep: Bytes -> bool)
    ensures Selected([], keep, [])
  {
  }

  lemma SelectFirst(first: Entry, rest: seq<Entry>, keep: Bytes -> bool, chosen: seq<Entry>)
    requires Selected(rest, keep, chosen) && StrictlySorted([first] + rest)
    ensures Selected([first] + rest, keep, if keep(first.key) then [first] + chosen else chosen)
  {
    var entries, all := [first] + rest, [first] + chosen;
    assert entries[1..] == rest && all[1..] == chosen;
    assert forall j :: 0 < j < |entries| ==> entries[j] == rest[j - 1];
    FirstIsLeast(entries);
    RestrictStep(AsTable(rest), first, keep);
    hide AsTable, Restrict, IsLeast;
    forall i, j | 0 <= i < j < |all|
      ensures Lt(all[i].key, all[j].key)
    {
      assert all[j] == chosen[j - 1] && chosen[j - 1] in rest;
      if i == 0 {
        var k :| 0 <= k < |rest| && rest[k] == all[j];
        assert Lt(entries[0].key, entries[k + 1].key);
      } else {
        assert all[i] == chosen[i - 1];
      }
    }
  }

  lemma RestrictStep(t: Table, first: Entry, keep: Bytes -> bool)
    requires first.key !in t
    ensures var grown := t[first.key := first.value];
      Restrict(grown, keep)
      == if keep(first.key) then Restrict(t, keep)[first.key := first.value] else Restrict(t, keep)
  {
  }

  lemma MatchesSound(sst: SstOnDisk, c: Config, q: Query)
    requires Sound(sst, c) && q.Valid()
    ensures var res := MatchesIn(sst, q);
      res.Success? && StrictlySorted(res.value) && AsTable(res.value) == Restrict(TableIn(sst), q.keep)
  {
    hide SstReader.Load, SstScan.Scan, TableIn, Restrict, SstScan.Select, StrictlySorted, AsTable, SstScan.Prunes;
    var entries := SstScan.GenuineScan(sst, c.hasher, TableIn(sst), q.start, q.stop, q.keep);
    SelectSorted(entries, q.keep);
  }

  lemma {:induction false} ScanInStack(listed: seq<SstOnDisk>, c: Config, q: Query)
    requires AllSound(listed, c) && q.Valid()
    ensures ScanIn(listed, q) == Success(Restrict(Stack(listed), q.keep))
  {
    hide MatchesIn, TableIn, Sound, Stack, AsTable, StrictlySorted, InsertAll, Restrict;
    if listed == [] {
      StackOne(SstOnDisk(0, [], None));
      RestrictParts(map[], map[], q.keep);
    } else {
      var n := |listed| - 1;
      var older, newest := Restrict(Stack(listed[..n]), q.keep), MatchesIn(listed[n], q);
      assert Sound(listed[n], c);
      MatchesSound(listed[n], c, q);
      ScanInStack(listed[..n], c, q);
      StackSplit(listed);
      InsertSorted(older, newest.value);
      RestrictParts(Stack(listed[..n]), TableIn(listed[n]), q.keep);
    }
  }

  lemma RestrictParts(below: Table, above: Table, keep: Bytes -> bool)
    ensures Restrict(below + above, keep) == Restrict(below, keep) + Restrict(above, keep)
    ensures Restrict(map[], keep) == map[]
  {
  }

  /** A strictly ascending list of exactly the entries of `db` whose keys are wanted. */
  ghost predicate Lists(entries: seq<Entry>, db: Db, keep: Bytes -> bool) {
    && StrictlySorted(entries)
    && forall key :: Lookup(AsTable(entries), key) == if key in db && keep(key) then Some(Some(db[key])) else None
  }

  /** Between calls, a scan lists exactly the recoverable entries it selects, in ascending key order. */
  lemma ScanIsContents(s: State, c: Config, q: Query)
    requires Inv(s, c) && s.phase.Ready? && q.Valid()
    ensures var res, db := ScanAll(s.mem, s.listed, q), Contents(s.disk, c.crypto);
      res.Success? && Lists(res.value, db, q.keep)
  {
    hide Sound, LogWhole, Stack, Logged, ScanIn, StrictlySorted, Restrict, Live, LiveOnly, Ascending, AsTable;
    var orphan :| RunningInv(s, orphan, c);
    ListedSound(s, orphan, c);
    Directory(s, orphan, c);
    ScanInStack(s.listed, c, q);
    var stack := Stack(s.listed);
    RestrictParts(stack, s.mem, q.keep);
    AscendingSorted(LiveOnly(Restrict(stack, q.keep) + Restrict(s.mem, q.keep)));
    forall key
      ensures Lookup(LiveOnly(Restrict(stack + s.mem, q.keep)), key)
           == if key in Live(stack + s.mem) && q.keep(key) then Some(Some(Live(stack + s.mem)[key])) else None
    {
      LiveRestricted(stack + s.mem, q.keep, key);
    }
  }

  lemma LiveRestricted(t: Table, keep: Bytes -> bool, key: Bytes)
    ensures Lookup(LiveOnly(Restrict(t, keep)), key)
         == if key in Live(t) && keep(key) then Some(Some(Live(t)[key])) else None
  {
  }
}
