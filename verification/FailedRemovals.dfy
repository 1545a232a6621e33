/** What happens to deleted keys when an old file cannot be removed after a merge (`store::engine::compact`). */
module FailedRemovals {
  import opened Bytes
  import opened Results
  import opened Tables
  import opened Layers
  import opened WalLog
  import opened Store
  import opened SstFile
  import opened StoreRuns
  import F = WalFormat
  import SstFormat
  import I = SstIndexFormat
  import B = Bloom
  import Checksum

  // ── which survivors are harmless ───────────────────────────────────────

  function Kept<T>(items: seq<T>, keep: seq<bool>): seq<T>
    requires |items| == |keep|
  {
    if items == [] then []
    else
      var n := |items| - 1;
      Kept(items[..n], keep[..n]) + if keep[n] then [items[n]] else []
  }

  /** What an earlier merge left over, and the layers `keep` that survive this one, hold no live key that the
      merge of all layers says is gone. */
  ghost predicate Survivable(leftover: Table, layers: seq<Table>, keep: seq<bool>)
    requires |layers| == |keep|
  {
    NoResurrection(leftover + Merge(Kept(layers, keep)), LiveOnly(Merge(layers)))
  }

  /** Whenever a file survives, so do all newer ones. */
  predicate UpwardClosed(keep: seq<bool>) {
    forall i, j :: 0 <= i < j < |keep| && keep[i] ==> keep[j]
  }

  lemma {:induction false} KeptNone<T>(items: seq<T>, keep: seq<bool>)
    requires |items| == |keep| && forall i :: 0 <= i < |keep| ==> !keep[i]
    ensures Kept(items, keep) == []
  {
    if items != [] {
      var n := |items| - 1;
      KeptNone(items[..n], keep[..n]);
    }
  }

  // ── the removals of one merge, as steps ────────────────────────────────

  /** The removals after a merge, oldest file first; those `keep` marks fail. */
  ghost predicate Removes(states: seq<State>, keep: seq<bool>, c: Config) {
    && |states| == |keep| + 1
    && forall i :: 0 <= i < |keep| ==> Step(states[i], if keep[i] then RemoveFails else RemoveOld, states[i + 1], c)
  }

  lemma {:induction false} TablesKept(ssts: seq<SstOnDisk>, keep: seq<bool>)
    requires |ssts| == |keep|
    ensures TablesOf(Kept(ssts, keep)) == Kept(TablesOf(ssts), keep)
  {
    hide TableIn;
    if ssts != [] {
      var n := |ssts| - 1;
      TablesKept(ssts[..n], keep[..n]);
      TablesConcat(Kept(ssts[..n], keep[..n]), if keep[n] then [ssts[n]] else []);
      TablesConcat(ssts[..n], [ssts[n]]);
      assert ssts == ssts[..n] + [ssts[n]];
      assert [ssts[n]][1..] == [];
      assert TablesOf([ssts[n]]) == [TableIn(ssts[n])] + TablesOf([]) == [TableIn(ssts[n])];
      assert TablesOf(ssts)[..n] == TablesOf(ssts[..n]) && TablesOf(ssts)[n] == TableIn(ssts[n]);
    } else {
      assert Kept(ssts, keep) == [];
    }
  }

  lemma OneRemoval(s: State, s': State, fails: bool, c: Config)
    requires Step(s, if fails then RemoveFails else RemoveOld, s', c)
    requires s.disk.ssts == Below(s) + s.listed && AscendingIds(s.disk.ssts)
    ensures s.phase.Merging? && s.phase.stale != []
    ensures var stale := s.phase.stale;
      && s' == s.(disk := s'.disk, phase := Merging(stale[1..]),
                  leftover := s.leftover + if fails then [stale[0]] else [])
      && s'.disk == s.disk.(ssts := Below(s') + s'.listed) && AscendingIds(s'.disk.ssts)
  {
    hide Unlinked, AscendingIds;
    var sst, newer := s.phase.stale[0], s.phase.stale[1..] + s.listed;
    assert s.disk.ssts == s.leftover + [sst] + newer;
    if !fails {
      UnlinkedMiddle(s.leftover, sst, newer);
      assert s.leftover + [] == s.leftover;
    }
    assert s'.disk.ssts == Below(s') + s'.listed;
  }

  lemma KeptNext<T>(items: seq<T>, keep: seq<bool>, k: nat)
    requires |items| == |keep| && k < |keep|
    ensures Kept(items[..k + 1], keep[..k + 1])
         == Kept(items[..k], keep[..k]) + if keep[k] then [items[k]] else []
  {
    assert items[..k + 1][..k] == items[..k] && keep[..k + 1][..k] == keep[..k];
  }

  /** The first `k` removals leave the files marked so far, in order, below the rest. */
  lemma {:induction false} RemovalsLeave(states: seq<State>, keep: seq<bool>, k: nat, c: Config)
    requires Removes(states, keep, c) && k <= |keep|
    requires var s := states[0];
      s.phase.Merging? && |s.phase.stale| == |keep| && s.disk.ssts == Below(s) + s.listed && AscendingIds(s.disk.ssts)
    ensures var s, s' := states[0], states[k];
      && s' == s.(disk := s'.disk, phase := Merging(s.phase.stale[k..]),
                  leftover := s.leftover + Kept(s.phase.stale[..k], keep[..k]))
      && s'.disk == s.disk.(ssts := Below(s') + s'.listed) && AscendingIds(s'.disk.ssts)
  {
    hide Step, AscendingIds, Kept;
    var s := states[0];
    var stale := s.phase.stale;
    if k == 0 {
      KeptNone(stale[..0], keep[..0]);
      assert stale[0..] == stale && s.leftover + [] == s.leftover;
    } else {
      RemovalsLeave(states, keep, k - 1, c);
      var before, sst := states[k - 1], stale[k - 1];
      OneRemoval(before, states[k], keep[k - 1], c);
      assert stale[k - 1..][0] == sst && stale[k - 1..][1..] == stale[k..];
      KeptNext(stale, keep, k - 1);
      var last := if keep[k - 1] then [sst] else [];
      assert before.leftover + last == s.leftover + (Kept(stale[..k - 1], keep[..k - 1]) + last);
    }
  }

  /** What a merge and its removals, some of them failing, leave on disk, and what a reopen shows of it. */
  lemma AfterRemovals(s: State, file: Bytes, states: seq<State>, keep: seq<bool>, c: Config)
    requires Inv(s, c) && |keep| == |s.listed| && Removes(states, keep, c)
    requires Step(s, MergeRename(file), states[0], c)
    ensures var s', merged := states[|keep|], [SstOnDisk(s.nextId, file, c.crypto)];
      && s'.phase == Merging([]) && s'.leftover == s.leftover + Kept(s.listed, keep) && s'.listed == merged
      && s'.disk.ssts == s'.leftover + merged
      && Contents(s'.disk, c.crypto) == Live(Stack(s'.leftover) + LiveOnly(Stack(s.listed)))
      && Contents(s.disk, c.crypto) == Live(LiveOnly(Stack(s.listed)))
  {
    hide Live, LiveOnly, Merge, TableIn, Sound, LogWhole, Placed, Unlinked, Written, NoResurrection, Step, Inv, Kept;
    hide AscendingIds;
    var s1, s', merged := states[0], states[|keep|], [SstOnDisk(s.nextId, file, c.crypto)];
    Merged(s, file, s1, c);
    RemovalsLeave(states, keep, |keep|, c);
    assert s.listed[|keep|..] == [] && s.listed[..|keep|] == s.listed && keep[..|keep|] == keep;
    assert s'.leftover + [] == s'.leftover;
    StackConcat(s'.leftover, merged);
    var below := Stack(s'.leftover);
    assert below + Stack(merged) + map[] == below + Stack(merged);
  }

  /** A merge and its removals, some of them failing: what is left on disk, and exactly when a reopen still
      shows what was there before. */
  lemma MergeRemovalsIff(s: State, file: Bytes, states: seq<State>, keep: seq<bool>, c: Config)
    requires Inv(s, c) && |keep| == |s.listed| && Removes(states, keep, c)
    requires Step(s, MergeRename(file), states[0], c)
    ensures var s', merged := states[|keep|], [SstOnDisk(s.nextId, file, c.crypto)];
      && s'.phase == Merging([]) && s'.leftover == s.leftover + Kept(s.listed, keep) && s'.listed == merged
      && s'.disk.ssts == s'.leftover + merged
      && (Contents(s'.disk, c.crypto) == Contents(s.disk, c.crypto)
          <==> Survivable(Stack(s.leftover), TablesOf(s.listed), keep))
  {
    hide Live, LiveOnly, Merge, TableIn, Inv, Step, NoResurrection, Survivable, Contents, Kept;
    AfterRemovals(s, file, states, keep, c);
    StackConcat(s.leftover, Kept(s.listed, keep));
    TablesKept(s.listed, keep);
    HiddenIff(Stack(states[|keep|].leftover), LiveOnly(Stack(s.listed)));
    Survives(Stack(s.leftover), TablesOf(s.listed), keep);
  }

  lemma Survives(leftover: Table, layers: seq<Table>, keep: seq<bool>)
    requires |layers| == |keep|
    ensures Survivable(leftover, layers, keep)
        <==> NoResurrection(leftover + Merge(Kept(layers, keep)), LiveOnly(Merge(layers)))
  {
    hide Merge, Live, LiveOnly, NoResurrection;
  }

  /** The state a merge leaves before its removals. */
  lemma Merged(s: State, file: Bytes, s1: State, c: Config)
    requires Inv(s, c) && Step(s, MergeRename(file), s1, c)
    ensures s1.phase == Merging(s.listed) && s1.leftover == s.leftover
    ensures s1.listed == [SstOnDisk(s.nextId, file, c.crypto)]
    ensures s1.disk.ssts == Below(s1) + s1.listed && AscendingIds(s1.disk.ssts)
    ensures Logged(s1.disk.wal, c.crypto) == map[] && Stack(s1.listed) == LiveOnly(Stack(s.listed))
    ensures Contents(s.disk, c.crypto) == Live(Stack(s1.listed))
  {
    hide Live, LiveOnly, Merge, TableIn, Sound, LogWhole, Placed, Unlinked, Written, NoResurrection;
    var orphan :| RunningInv(s, orphan, c);
    NewFile(s, orphan, file, LiveOnly(Stack(s.listed)), c);
    Directory(s, orphan, c);
    MergedShows(Stack(s.leftover), Stack(s.listed));
  }

  /** After failed removals the process goes on; the next merge drops the tombstones that still hid what was left
      over. Even if all of its own removals succeed, the contents stay exactly when every live key left over is
      still live. */
  lemma NextMergeIff(s: State, file: Bytes, states: seq<State>, c: Config)
    requires Inv(s, c) && Removes(states, seq(|s.listed|, _ => false), c)
    requires Step(s, MergeRename(file), states[0], c)
    ensures var s' := states[|s.listed|];
      && s'.leftover == s.leftover
      && (Contents(s'.disk, c.crypto) == Contents(s.disk, c.crypto)
          <==> NoResurrection(Stack(s.leftover), LiveOnly(Stack(s.listed))))
  {
    hide Inv, Step, Contents, Live, LiveOnly, Merge, TableIn, NoResurrection;
    var keep := seq(|s.listed|, _ => false);
    MergeRemovalsIff(s, file, states, keep, c);
    KeptNone(s.listed, keep);
    KeptNone(TablesOf(s.listed), keep);
    MergeNothing();
    assert s.leftover + [] == s.leftover;
    var below := Stack(s.leftover);
    assert below + map[] == below;
  }

  /** Steps of a process that goes on, whatever it writes, flushes and merges: it neither opens the store again nor
      fails to remove another file. */
  ghost predicate GoesOn(states: seq<State>, events: seq<Event>, c: Config) {
    && |states| == |events| + 1
    && forall i :: 0 <= i < |events| ==>
         Step(states[i], events[i], states[i + 1], c) && !events[i].Reopen? && !events[i].RemoveFails?
  }

  lemma {:induction false} LeftoverStays(states: seq<State>, events: seq<Event>, c: Config)
    requires GoesOn(states, events, c)
    ensures states[|events|].leftover == states[0].leftover
  {
    hide Frames, UnitWellFormed, UnitRecord, UnitOps, ApplyOps, Written, Placed, Unlinked, Stack, Store.Open, LiveOnly;
    if events != [] {
      var n := |events| - 1;
      LeftoverStays(states[..n + 1], events[..n], c);
      assert Step(states[n], events[n], states[n + 1], c);
    }
  }

  lemma LeftBeneath(leftover: Table, listed: Table)
    ensures Live(leftover + LiveOnly(listed)) == Live(leftover) + Live(LiveOnly(listed))
  {
  }

  lemma BeneathIff(left: Db, db: Db)
    ensures left + db == db <==> left.Keys <= db.Keys
  {
    if left + db == db {
      assert (left + db).Keys == left.Keys + db.Keys;
    }
  }

  /** Whatever is written in between: the next merge of the process puts every live key left over beneath what a
      reopen showed before, even if its own removals all succeed. Nothing changes exactly if all of them are live. */
  lemma LeftoverUntilNextMerge(before: seq<State>, events: seq<Event>, file: Bytes, states: seq<State>, c: Config)
    requires GoesOn(before, events, c) && Inv(before[|events|], c)
    requires Removes(states, seq(|before[|events|].listed|, _ => false), c)
    requires Step(before[|events|], MergeRename(file), states[0], c)
    ensures var s, s', left := before[|events|], states[|before[|events|].listed|], Live(Stack(before[0].leftover));
      && s'.leftover == before[0].leftover
      && Contents(s'.disk, c.crypto) == left + Contents(s.disk, c.crypto)
      && (Contents(s'.disk, c.crypto) == Contents(s.disk, c.crypto) <==> left.Keys <= Contents(s.disk, c.crypto).Keys)
  {
    hide Live, LiveOnly, Merge, TableIn, Step, Inv, Contents, Kept;
    var s := before[|events|];
    var keep := seq(|s.listed|, _ => false);
    LeftoverStays(before, events, c);
    AfterRemovals(s, file, states, keep, c);
    KeptNone(s.listed, keep);
    assert s.leftover + [] == s.leftover;
    LeftBeneath(Stack(s.leftover), Stack(s.listed));
    BeneathIff(Live(Stack(s.leftover)), Contents(s.disk, c.crypto));
  }

  /** The failure step by step: the removal of a file with a put fails, the removal of the newer file with its
      delete succeeds, and after a crash the deleted key is back. */
  lemma RemovalFailureResurrects(s: State, older: SstOnDisk, newer: SstOnDisk, key: Bytes, value: Bytes, c: Config)
    returns (s1: State, s2: State, s3: State)
    requires Inv(s, c) && s.phase == Merging([older, newer])
    requires TableIn(older) == map[key := Some(value)] && TableIn(newer) == map[key := None]
    requires Stack(s.listed) == map[]
    ensures Step(s, RemoveFails, s1, c) && Step(s1, RemoveOld, s2, c) && Step(s2, Crash, s3, c)
    ensures key !in Contents(s.disk, c.crypto) && key in Contents(s3.disk, c.crypto)
  {
    hide LogWhole, LogTorn, Sound, Logged, TableIn, Merge, Stack, Live, LiveOnly, Unlinked, Step, NoResurrection;
    var orphan :| RunningInv(s, orphan, c);
    s1 := s.(phase := Merging([newer]), leftover := s.leftover + [older]);
    s2 := s1.(disk := s.disk.(ssts := Unlinked(s.disk.ssts, newer.id)), phase := Merging([]));
    s3 := s2.(phase := Down);
    assert [newer][1..] == [] && [older, newer][1..] == [newer];
    RemoveFailsStep(s, s1, c);
    RemoveStep(s1, s2, c);
    CrashStep(s2, c);
    Directory(s, orphan, c);
    assert s.disk.ssts == s1.leftover + [newer] + s.listed;
    UnlinkedMiddle(s1.leftover, newer, s.listed);
    StackConcat(s1.leftover, s.listed);
    StackConcat(s.leftover, [older]);
    StackOne(older);
    PutUncovered(Stack(s.leftover), key, value);
  }

  lemma PutUncovered(below: Table, key: Bytes, value: Bytes)
    ensures var put: Table := map[key := Some(value)];
      key in Live(below + put + map[] + map[]) && key !in Live(map[] + map[] + map[])
  {
  }

  // ── such a store, concretely ───────────────────────────────────────────

  /** At most one key, of one byte, deleted or with value `[2]`. */
  predicate Small(t: Table) {
    t == map[] || exists b :: SmallAt(t, b)
  }

  predicate SmallAt(t: Table, b: byte) {
    t == map[[b] := None] || t == map[[b] := Some([2])]
  }

  lemma SmallEntries(t: Table)
    requires Small(t) && t != map[]
    ensures exists b: byte :: [b] in t && Ascending(t) == [Entry([b], t[[b]])] && (t[[b]] == None || t[[b]] == Some([2]))
  {
    var b :| SmallAt(t, b);
    var e := Ascending(t)[0];
    assert |Ascending(t)| == 1 && e.key in t;
    AscendingSorted(t);
    assert AsTable(Ascending(t))[e.key] == e.value;
  }

  lemma SmallBlock(e: Entry)
    requires |e.key| == 1 && (e.value == None || e.value == Some([2]))
    ensures |SstFormat.BlockBytes([e])| <= 25 && SstFormat.EntriesFit([e])
    ensures Blocks([e], [], 0, 1, EntryWireSize) == [[e]]
  {
    hide Checksum.Crc, Checksum.CrcBytes;
    SstFormat.SingleEntryLength(e);
    assert [e][1..] == [] && [] + [e] == [e];
  }

  lemma SmallRow(row: I.IndexEntry)
    requires |row.firstKey| == 1 && |row.lastKey| == 1
    ensures |I.IndexBytes([row])| == 44
  {
    hide Checksum.Crc, Checksum.CrcBytes;
    assert [row][1..] == [];
    assert |I.IndexEntryBytes(row)| == 30;
    assert I.IndexEntriesBytes([row]) == I.IndexEntryBytes(row) + I.IndexEntriesBytes([]);
  }

  lemma NoRows()
    ensures |I.IndexBytes([])| == 14
  {
    hide Checksum.Crc, Checksum.CrcBytes;
  }

  lemma SmallSections(layout: Layout)
    requires layout.Valid() && |layout.blocks| <= 1
    requires |layout.blocks| == 1 ==> |layout.raw[0]| <= 25 && |layout.blocks[0]| == 1 && |layout.blocks[0][0].key| == 1
    ensures |Joined(layout.raw)| <= 25 && |I.IndexBytes(layout.Index())| <= 44
  {
    hide I.IndexBytes;
    if layout.blocks == [] {
      NoRows();
      assert layout.Index() == [] && layout.raw == [];
    } else {
      IndexOfAt(layout.blocks, layout.raw, 0);
      var row := layout.Index()[0];
      assert layout.Index() == [row];
      SmallRow(row);
      assert layout.raw[..0] == [];
    }
  }

  lemma SmallFilter(entries: seq<Entry>, hasher: B.Hasher)
    requires |entries| <= 1
    ensures var f := FilterOf(entries, hasher);
      f.InRange() && |f.bits| == I.DivCeil8(f.numBits) && |I.BloomBytes(f)| == 34
  {
    hide Checksum.Crc, Checksum.CrcBytes, B.InsertedAll;
  }

  /** The file the writer makes of a small table, with one byte as the block size. */
  function SmallFile(id: nat, t: Table, hasher: B.Hasher): SstOnDisk {
    SstOnDisk(id, LayoutOf(id, Ascending(t), 1, hasher, PLAIN_SEALER).Bytes(), None)
  }

  lemma SmallFileWritten(id: nat, t: Table, hasher: B.Hasher)
    requires Small(t) && id < U64_LIMIT
    ensures Written(SmallFile(id, t, hasher).file, id, t, Config(1, hasher, None))
  {
    hide SstFormat.BlockBytes, I.IndexBytes, I.BloomBytes, SstFormat.FooterBytes, SstFormat.HeaderBytes, FilterOf;
    hide SstFormat.EntriesFit, IndexOf, Joined, Ascending;
    var layout := LayoutOf(id, Ascending(t), 1, hasher, PLAIN_SEALER);
    PlainSeals(id, Ascending(t), 1, hasher);
    SmallFilter(Ascending(t), hasher);
    if t == map[] {
      assert Ascending(t) == [] && layout.blocks == [];
    } else {
      SmallEntries(t);
      var b: byte :| [b] in t && Ascending(t) == [Entry([b], t[[b]])] && (t[[b]] == None || t[[b]] == Some([2]));
      var e := Entry([b], t[[b]]);
      SmallBlock(e);
      assert layout.blocks == [[e]];
      RawPlain(layout.blocks, 0);
    }
    SmallSections(layout);
    assert layout.InRange();
    assert WrittenWith(layout.Bytes(), id, t, Config(1, hasher, None), PLAIN_SEALER);
  }

  // ── reachable merges ───────────────────────────────────────────────────

  /** What layer `k` is made from: `[1]` is put in layer `i` and deleted in layer `j`. */
  function LayerUnit(k: nat, i: nat, j: nat): Unit {
    One(if k == i then F.WalRecord(F.Put, [1], Some([2]))
        else if k == j then F.WalRecord(F.Delete, [1], None)
        else F.WalRecord(F.Put, [0], Some([2])))
  }

  function LayerTable(k: nat, i: nat, j: nat): (t: Table)
    ensures t != map[] && Small(t)
  {
    var b: byte := if k == i || k == j then 1 else 0;
    var t: Table := map[[b] := if k != i && k == j then None else Some([2])];
    assert SmallAt(t, b) && [b] in t;
    t
  }

  function LayerTables(count: nat, i: nat, j: nat): (r: seq<Table>)
    ensures |r| == count
  {
    if count == 0 then [] else LayerTables(count - 1, i, j) + [LayerTable(count - 1, i, j)]
  }

  function LayerFiles(count: nat, i: nat, j: nat, hasher: B.Hasher): (r: seq<SstOnDisk>)
    ensures |r| == count
  {
    if count == 0 then []
    else LayerFiles(count - 1, i, j, hasher) + [SmallFile(count - 1, LayerTable(count - 1, i, j), hasher)]
  }

  /** The store after `count` rounds of one write and one flush. */
  function Layered(count: nat, i: nat, j: nat, hasher: B.Hasher): State {
    var files := LayerFiles(count, i, j, hasher);
    State(Disk([], files), Ready, map[], files, count, None, [])
  }

  function LayerLedger(count: nat, i: nat, j: nat): seq<Promise> {
    if count == 0 then [] else LayerLedger(count - 1, i, j) + [Promise(LayerUnit(count - 1, i, j), true)]
  }

  lemma LayerOps(k: nat, i: nat, j: nat)
    ensures UnitWellFormed(LayerUnit(k, i, j)) && ApplyOps(UnitOps(LayerUnit(k, i, j)), map[]) == LayerTable(k, i, j)
  {
    var ops := UnitOps(LayerUnit(k, i, j));
    assert ops[..0] == [];
  }

  /** One acknowledged write and the flush after it. */
  lemma WriteAndFlush(s: State, ledger: seq<Promise>, unit: Unit, t: Table, file: Bytes, c: Config)
    returns (s': State)
    requires Reaches(s, ledger, c) && c.crypto.None? && UnitWellFormed(unit)
    requires s == State(Disk([], s.listed), Ready, map[], s.listed, s.nextId, None, [])
    requires t == ApplyOps(UnitOps(unit), map[]) && t != map[] && Written(file, s.nextId, t, c)
    ensures var files := s.listed + [SstOnDisk(s.nextId, file, None)];
      s' == State(Disk([], files), Ready, map[], files, s.nextId + 1, None, [])
    ensures Reaches(s', ledger + [Promise(unit, true)], c)
  {
    hide Step, Inv, Reaches, UnitWellFormed, UnitOps, ApplyOps, Frames, UnitRecord, F.Encoded, Written, Placed, Contents;
    var frame, sst := F.Encoded(UnitRecord(unit)), SstOnDisk(s.nextId, file, None);
    var pending := ledger + [Promise(unit, false)];
    var s1 := s.(disk := s.disk.(wal := s.disk.wal + frame), phase := Appended, inFlight := Some(unit));
    var s2 := s1.(phase := Ready, mem := t);
    var s3 := s2.(inFlight := None);
    PlainFrame(unit);
    AppendStep(s, unit, frame, c);
    ReachStep(s, ledger, Append(unit, frame), s1, c);
    ReachStep(s1, pending, Update, s2, c);
    ReturnStep(s2, true, c);
    ReachStep(s2, pending, Return(true), s3, c);
    var done := Record(pending, Return(true));
    assert done == ledger + [Promise(unit, true)];
    ReachesInv(s3, done, c);
    var s4 := s3.(disk := s3.disk.(ssts := Placed(s3.disk.ssts, sst)), phase := Renamed);
    RenameStep(s3, file, c);
    ReachStep(s3, done, FlushRename(file), s4, c);
    var s5 := s4.(disk := s4.disk.(wal := []), phase := Truncated);
    TruncateStep(s4, c);
    ReachStep(s4, done, FlushTruncate, s5, c);
    s' := s5.(phase := Ready, mem := map[], listed := s.listed + [sst], nextId := s.nextId + 1);
    assert s5.disk.ssts == s5.leftover + s5.listed + [sst] == s.listed + [sst];
    FlushFinishStep(s5, sst, c);
    ReachStep(s5, done, FlushFinish, s', c);
  }

  lemma {:induction false} LayeredReached(count: nat, i: nat, j: nat, hasher: B.Hasher)
    requires count <= U64_LIMIT
    ensures Reaches(Layered(count, i, j, hasher), LayerLedger(count, i, j), Config(1, hasher, None))
  {
    hide Reaches, SmallFile, LayerTable, LayerUnit, Written;
    var c := Config(1, hasher, None);
    if count == 0 {
      EmptyOpened(c);
    } else {
      var k := count - 1;
      LayeredReached(k, i, j, hasher);
      LayerOps(k, i, j);
      var t := LayerTable(k, i, j);
      SmallFileWritten(k, t, hasher);
      SmallFileIs(k, t, hasher);
      var s' := WriteAndFlush(Layered(k, i, j, hasher), LayerLedger(k, i, j), LayerUnit(k, i, j), t,
                              SmallFile(k, t, hasher).file, c);
    }
  }

  lemma SmallFileIs(id: nat, t: Table, hasher: B.Hasher)
    ensures SmallFile(id, t, hasher).id == id && SmallFile(id, t, hasher).crypto == None
  {
  }

  lemma SmallFileReads(id: nat, t: Table, hasher: B.Hasher)
    requires Small(t) && id < U64_LIMIT
    ensures TableIn(SmallFile(id, t, hasher)) == t
  {
    hide Written, Sound, TableIn, LayoutOf;
    SmallFileWritten(id, t, hasher);
    WrittenIsSound(SmallFile(id, t, hasher).file, id, t, Config(1, hasher, None));
  }

  lemma {:induction false} LayersRead(count: nat, i: nat, j: nat, hasher: B.Hasher)
    requires count <= U64_LIMIT
    ensures TablesOf(LayerFiles(count, i, j, hasher)) == LayerTables(count, i, j)
  {
    hide TableIn, SmallFile, LayerTable;
    if count > 0 {
      var k := count - 1;
      var file := SmallFile(k, LayerTable(k, i, j), hasher);
      LayersRead(k, i, j, hasher);
      SmallFileReads(k, LayerTable(k, i, j), hasher);
      TablesConcat(LayerFiles(k, i, j, hasher), [file]);
      assert [file][1..] == [];
      assert TablesOf([file]) == [TableIn(file)] + TablesOf([]) == [TableIn(file)];
    }
  }

  /** All layers: whatever was put elsewhere, and the put or the delete of `[1]`, whichever came last. */
  lemma {:induction false} LayersMerge(count: nat, i: nat, j: nat)
    requires i < j
    ensures var t := Merge(LayerTables(count, i, j));
      && (forall key :: key in t ==> key == [0] || key == [1])
      && ([0] in t ==> t[[0]] == Some([2]))
      && ([1] in t <==> i < count) && ([1] in t ==> t[[1]] == if count <= j then Some([2]) else None)
  {
    hide Merge;
    if count == 0 {
      MergeNothing();
    } else {
      LayersMerge(count - 1, i, j);
      MergeOne(LayerTables(count - 1, i, j), LayerTable(count - 1, i, j));
    }
  }

  lemma KeptLayers(n: nat, i: nat, j: nat, keep: seq<bool>)
    requires |keep| == n + 1
    ensures var older := Merge(Kept(LayerTables(n, i, j), keep[..n]));
      Merge(Kept(LayerTables(n + 1, i, j), keep)) == if keep[n] then older + LayerTable(n, i, j) else older
  {
    hide Merge, LayerTable;
    var layers := LayerTables(n + 1, i, j);
    assert layers[..n] == LayerTables(n, i, j) && layers[n] == LayerTable(n, i, j);
    var older := Kept(layers[..n], keep[..n]);
    assert older + [] == older;
    MergeOne(older, layers[n]);
  }

  /** With the put kept and the delete removed, the key is alive again. */
  lemma {:induction false} PutSurvives(count: nat, i: nat, j: nat, keep: seq<bool>)
    requires |keep| == count && i < j && (i < count ==> keep[i]) && (j < count ==> !keep[j])
    ensures var t := Merge(Kept(LayerTables(count, i, j), keep)); i < count ==> [1] in t && t[[1]] == Some([2])
  {
    hide Merge, Kept, LayerTables;
    if count > 0 {
      PutSurvives(count - 1, i, j, keep[..count - 1]);
      KeptLayers(count - 1, i, j, keep);
    }
  }

  lemma LayersNotSurvivable(i: nat, j: nat, keep: seq<bool>)
    requires i < j < |keep| && keep[i] && !keep[j]
    ensures !Survivable(map[], LayerTables(|keep|, i, j), keep)
  {
    hide Merge, LayerTables, Kept;
    var layers := LayerTables(|keep|, i, j);
    LayersMerge(|keep|, i, j);
    PutSurvives(|keep|, i, j, keep);
    var below := map[] + Merge(Kept(layers, keep));
    assert [1] in below && [1] !in LiveOnly(Merge(layers)) && below[[1]].Some?;
  }

  lemma MergedIsSmall(count: nat, i: nat, j: nat)
    requires i < j < count
    ensures Small(LiveOnly(Merge(LayerTables(count, i, j))))
  {
    hide Merge, LayerTables;
    LayersMerge(count, i, j);
    var t := LiveOnly(Merge(LayerTables(count, i, j)));
    if [0] in t {
      assert t == map[[0] := Some([2])];
      assert SmallAt(t, 0);
    } else {
      assert t == map[];
    }
  }

  // ── exactly which failures are harmless ────────────────────────────────

  /** A merge of a reachable store and its removals, those `keep` marks failing. */
  ghost predicate MergesFrom(s: State, ledger: seq<Promise>, file: Bytes, states: seq<State>, keep: seq<bool>, c: Config) {
    && Reaches(s, ledger, c) && |s.listed| == |keep| && Removes(states, keep, c)
    && Step(s, MergeRename(file), states[0], c)
  }

  lemma AlwaysSafe(s: State, e: Event)
    requires !e.RemoveOld? && !e.AppendFails?
    ensures Safe(s, e)
  {
  }

  /** Where no file survives a newer one, a reopen shows the same at every point of the removals. */
  lemma {:induction false} UpwardClosedKeeps(s: State, file: Bytes, states: seq<State>, keep: seq<bool>, k: nat, c: Config)
    requires Inv(s, c) && s.leftover == [] && |s.listed| == |keep| && Removes(states, keep, c) && k <= |keep|
    requires Step(s, MergeRename(file), states[0], c) && UpwardClosed(keep)
    ensures Inv(states[k], c) && Contents(states[k].disk, c.crypto) == Contents(s.disk, c.crypto)
  {
    hide Inv, Contents, Step, Safe, AscendingIds, UpwardClosed;
    if k == 0 {
      StepKeeps(s, MergeRename(file), states[0], c);
      AlwaysSafe(s, MergeRename(file));
    } else {
      var before, s', e := states[k - 1], states[k], if keep[k - 1] then RemoveFails else RemoveOld;
      UpwardClosedKeeps(s, file, states, keep, k - 1, c);
      assert Step(before, e, s', c);
      NextRemovalSafe(s, file, states, keep, k - 1, c);
      StepKeeps(before, e, s', c);
    }
  }

  /** The next removal comes while nothing is left over, or fails. */
  lemma NextRemovalSafe(s: State, file: Bytes, states: seq<State>, keep: seq<bool>, k: nat, c: Config)
    requires Inv(s, c) && s.leftover == [] && |s.listed| == |keep| && Removes(states, keep, c) && k < |keep|
    requires Step(s, MergeRename(file), states[0], c) && UpwardClosed(keep) && Inv(states[k], c)
    ensures Safe(states[k], if keep[k] then RemoveFails else RemoveOld)
  {
    hide Inv, Step, Stack, Live, AscendingIds, RemovalSafe, UpwardClosed, Kept, Contents, Logged, NoResurrection;
    if !keep[k] {
      Merged(s, file, states[0], c);
      RemovalsLeave(states, keep, k, c);
      NoneBefore(keep, k);
      KeptNone(states[0].phase.stale[..k], keep[..k]);
      StackOne(SstOnDisk(0, [], None));
      NothingLive();
      assert states[k].leftover == [];
      CleanRemovalSafe(states[k], c);
    }
  }

  lemma NoneBefore(keep: seq<bool>, k: nat)
    requires UpwardClosed(keep) && k < |keep| && !keep[k]
    ensures forall i :: 0 <= i < k ==> !keep[i] && !keep[..k][i]
  {
  }

  /** The states of the removals after a merge. */
  function RemovalStates(s: State, keep: seq<bool>): (r: seq<State>)
    requires s.phase.Merging? && |keep| <= |s.phase.stale|
    ensures |r| == |keep| + 1 && r[0] == s && r[|keep|].phase == Merging(s.phase.stale[|keep|..])
  {
    if keep == [] then [s]
    else
      var n := |keep| - 1;
      var before := RemovalStates(s, keep[..n]);
      var last, sst := before[n], s.phase.stale[n];
      var more := Merging(s.phase.stale[n + 1..]);
      before + [if keep[n] then last.(phase := more, leftover := last.leftover + [sst])
                else last.(phase := more, disk := last.disk.(ssts := Unlinked(last.disk.ssts, sst.id)))]
  }

  lemma {:induction false} RemovalStatesRemove(s: State, keep: seq<bool>, c: Config)
    requires s.phase.Merging? && |keep| <= |s.phase.stale|
    ensures Removes(RemovalStates(s, keep), keep, c)
  {
    hide Step, Unlinked;
    if keep != [] {
      var n, states := |keep| - 1, RemovalStates(s, keep);
      var before := RemovalStates(s, keep[..n]);
      RemovalStatesRemove(s, keep[..n], c);
      assert s.phase.stale[n..][1..] == s.phase.stale[n + 1..];
      if keep[n] {
        RemoveFailsStep(before[n], states[n + 1], c);
      } else {
        RemoveStep(before[n], states[n + 1], c);
      }
      assert forall i :: 0 <= i <= n ==> states[i] == before[i];
      assert forall i :: 0 <= i < n ==> keep[..n][i] == keep[i];
    }
  }

  /** A reachable store of as many files as `keep` has marks, in which the put of a key survives its delete. */
  lemma LostDelete(keep: seq<bool>, i: nat, j: nat, hasher: B.Hasher)
    returns (s: State, ledger: seq<Promise>, file: Bytes, states: seq<State>)
    requires |keep| < U64_LIMIT && i < j < |keep| && keep[i] && !keep[j]
    ensures var c := Config(1, hasher, None);
      && MergesFrom(s, ledger, file, states, keep, c)
      && Contents(states[|keep|].disk, None) != Contents(s.disk, None)
  {
    hide Reaches, Inv, Step, Contents, SmallFile, Written, Small, Survivable, Placed, Merge, TableIn, LiveOnly, Removes;
    var c, n := Config(1, hasher, None), |keep|;
    s, ledger := Layered(n, i, j, hasher), LayerLedger(n, i, j);
    LayeredReached(n, i, j, hasher);
    ReachesInv(s, ledger, c);
    LayersRead(n, i, j, hasher);
    MergedIsSmall(n, i, j);
    var merged := LiveOnly(Stack(s.listed));
    file := SmallFile(n, merged, hasher).file;
    SmallFileWritten(n, merged, hasher);
    var sst := SstOnDisk(n, file, None);
    var s1 := s.(disk := s.disk.(ssts := Placed(s.disk.ssts, sst)), phase := Merging(s.listed), listed := [sst],
                 nextId := n + 1);
    MergeStep(s, file, c);
    states := RemovalStates(s1, keep);
    RemovalStatesRemove(s1, keep, c);
    MergeRemovalsIff(s, file, states, keep, c);
    StackOne(sst);
    LayersNotSurvivable(i, j, keep);
  }

  /** A merge survives failed removals, whatever the store holds, if and only if no file survives a newer one.
      Removing oldest first keeps this at every crash; skipping a file that cannot be removed does not. */
  lemma SurvivesIff(keep: seq<bool>, hasher: B.Hasher)
    requires |keep| < U64_LIMIT
    ensures var c := Config(1, hasher, None);
      (forall s, ledger, file, states: seq<State>, k: nat :: MergesFrom(s, ledger, file, states, keep, c) && k <= |keep| ==>
         Contents(states[k].disk, None) == Contents(s.disk, None))
      <==> UpwardClosed(keep)
  {
    hide Reaches, Inv, Step, Contents;
    var c := Config(1, hasher, None);
    if UpwardClosed(keep) {
      forall s, ledger, file, states: seq<State>, k: nat | MergesFrom(s, ledger, file, states, keep, c) && k <= |keep|
        ensures Contents(states[k].disk, None) == Contents(s.disk, None)
      {
        ReachesInv(s, ledger, c);
        UpwardClosedKeeps(s, file, states, keep, k, c);
      }
    } else {
      var i, j :| 0 <= i < j < |keep| && keep[i] && !keep[j];
      var s, ledger, file, states := LostDelete(keep, i, j, hasher);
      assert MergesFrom(s, ledger, file, states, keep, c);
    }
  }

  /** The store after two rounds, in the middle of the merge. */
  lemma HalfMerged(hasher: B.Hasher) returns (s1: State, states: seq<State>, events: seq<Event>)
    ensures var c := Config(1, hasher, None);
      && Run(states, events, c) && Final(states) == s1 && Ledger(events) == LayerLedger(2, 0, 1) && Inv(s1, c)
      && Contents(s1.disk, None) == ApplyAllToDb(LedgerOps(Ledger(events)), map[])
    ensures s1.phase.Merging? && |s1.phase.stale| == 2 && Stack(s1.listed) == map[]
    ensures TableIn(s1.phase.stale[0]) == map[[1] := Some([2])] && TableIn(s1.phase.stale[1]) == map[[1] := None]
  {
    hide Step, Inv, Contents, LedgerOps, ApplyAllToDb, Written, SmallFile, Placed, Merge, TableIn, LiveOnly, Reaches;
    hide Run, Ledger;
    var c, ledger, s := Config(1, hasher, None), LayerLedger(2, 0, 1), Layered(2, 0, 1, hasher);
    LayeredReached(2, 0, 1, hasher);
    ReachesInv(s, ledger, c);
    TwoLayers(hasher);
    var file := SmallFile(2, map[], hasher).file;
    SmallFileWritten(2, map[], hasher);
    SmallFileReads(2, map[], hasher);
    SmallFileIs(2, map[], hasher);
    var sst := SstOnDisk(2, file, None);
    s1 := s.(disk := s.disk.(ssts := Placed(s.disk.ssts, sst)), phase := Merging(s.listed), listed := [sst], nextId := 3);
    MergeStep(s, file, c);
    StepKeeps(s, MergeRename(file), s1, c);
    StackOne(sst);
    ReachStep(s, ledger, MergeRename(file), s1, c);
    states, events := Reached(s1, ledger, c);
  }

  lemma TwoLayers(hasher: B.Hasher)
    ensures var files := LayerFiles(2, 0, 1, hasher);
      && TableIn(files[0]) == map[[1] := Some([2])] && TableIn(files[1]) == map[[1] := None]
      && LiveOnly(Stack(files)) == map[]
  {
    hide TableIn, SmallFile, Merge;
    SmallFileReads(0, LayerTable(0, 0, 1), hasher);
    SmallFileReads(1, LayerTable(1, 0, 1), hasher);
    LayersRead(2, 0, 1, hasher);
    LayersMerge(2, 0, 1);
    MergeOne(LayerTables(1, 0, 1), LayerTable(1, 0, 1));
    MergeOne([], LayerTable(0, 0, 1));
    MergeNothing();
  }

  /** A whole run of the store: `[1]` is put and flushed, deleted and flushed, both acknowledged; the merge of
      the two files cannot remove the older one; and after a crash the deleted key is back. */
  lemma DeletedKeyReturns(hasher: B.Hasher) returns (states: seq<State>, events: seq<Event>)
    ensures Run(states, events, Config(1, hasher, None))
    ensures var put, deleted := F.WalRecord(F.Put, [1], Some([2])), F.WalRecord(F.Delete, [1], None);
      Ledger(events) == [Promise(One(put), true), Promise(One(deleted), true)]
    ensures [1] !in ApplyAllToDb(LedgerOps(Ledger(events)), map[]) && [1] in Contents(Final(states).disk, None)
  {
    hide Step, Inv, Contents, LedgerOps, ApplyAllToDb, Stack, TableIn, Run, Ledger;
    var c := Config(1, hasher, None);
    var s, before, done := HalfMerged(hasher);
    var stale := s.phase.stale;
    assert stale == [stale[0], stale[1]];
    var s1, s2, s3 := RemovalFailureResurrects(s, stale[0], stale[1], [1], [2], c);
    RunSnoc(before, done, RemoveFails, s1, c);
    RunSnoc(before + [s1], done + [RemoveFails], RemoveOld, s2, c);
    RunSnoc(before + [s1] + [s2], done + [RemoveFails] + [RemoveOld], Crash, s3, c);
    states, events := before + [s1] + [s2] + [s3], done + [RemoveFails] + [RemoveOld] + [Crash];
  }

  /** One more safe step of a run, and what a reopen then shows. */
  lemma SafelyExtended(states: seq<State>, events: seq<Event>, e: Event, s': State, c: Config)
    returns (states': seq<State>, events': seq<Event>)
    requires Run(states, events, c) && Inv(Final(states), c) && Step(Final(states), e, s', c) && Safe(Final(states), e)
    ensures Run(states', events', c) && Final(states') == s' && Ledger(events') == Record(Ledger(events), e)
    ensures Inv(s', c) && Contents(s'.disk, c.crypto) == Effect(e, Contents(Final(states).disk, c.crypto))
  {
    hide Run, Step, Ledger, Inv, Safe, Contents, Effect;
    StepKeeps(Final(states), e, s', c);
    states', events' := Extended(states, events, e, s', c);
  }

  /** The store after a put of `[1]`, a flush, and a merge that could not remove the flushed file. */
  lemma PutLeftOver(hasher: B.Hasher) returns (s: State, states: seq<State>, events: seq<Event>)
    ensures var c, file := Config(1, hasher, None), SmallFile(0, LayerTable(0, 0, 1), hasher);
      && Run(states, events, c) && Final(states) == s && Ledger(events) == LayerLedger(1, 0, 1) && Inv(s, c)
      && s.phase == Ready && s.mem == map[] && s.inFlight == None && s.nextId == 2 && s.disk.wal == []
      && s.leftover == [file] && s.disk.ssts == [file] + s.listed && |s.listed| == 1
      && Stack(s.listed) == map[[1] := Some([2])]
  {
    hide Step, Inv, Contents, Written, SmallFile, Placed, Merge, TableIn, LiveOnly, Reaches, Run, Ledger, Safe, Unlinked;
    var c, table := Config(1, hasher, None), LayerTable(0, 0, 1);
    var s0, older := Layered(1, 0, 1, hasher), SmallFile(0, table, hasher);
    LayeredReached(1, 0, 1, hasher);
    ReachesInv(s0, LayerLedger(1, 0, 1), c);
    states, events := Reached(s0, LayerLedger(1, 0, 1), c);
    assert s0.listed == [] + [older] == [older];
    StackOne(older);
    SmallFileReads(0, table, hasher);
    OneLive();
    var file := SmallFile(1, table, hasher).file;
    SmallFileWritten(1, table, hasher);
    SmallFileReads(1, table, hasher);
    SmallFileIs(1, table, hasher);
    var sst := SstOnDisk(1, file, None);
    StackOne(sst);
    var s1 := s0.(disk := s0.disk.(ssts := Placed(s0.disk.ssts, sst)), phase := Merging(s0.listed), listed := [sst],
                  nextId := 2);
    MergeStep(s0, file, c);
    AlwaysSafe(s0, MergeRename(file));
    states, events := SafelyExtended(states, events, MergeRename(file), s1, c);
    MergedDirectory(s0, file, s1, c);
    var s2 := s1.(phase := Merging([]), leftover := [older]);
    assert [older][1..] == [] && [] + [older] == [older];
    RemoveFailsStep(s1, s2, c);
    AlwaysSafe(s1, RemoveFails);
    states, events := SafelyExtended(states, events, RemoveFails, s2, c);
    s := s2.(phase := Ready);
    FinishStep(s2, c);
    AlwaysSafe(s2, MergeFinish);
    states, events := SafelyExtended(states, events, MergeFinish, s, c);
  }

  lemma OneLive()
    ensures LiveOnly(map[[1] := Some([2])]) == map[[1] := Some([2])]
  {
  }

  lemma MergedDirectory(s: State, file: Bytes, s1: State, c: Config)
    requires Inv(s, c) && Step(s, MergeRename(file), s1, c) && s.leftover == []
    ensures s1.disk.ssts == s.listed + [SstOnDisk(s.nextId, file, c.crypto)]
  {
    hide Inv, Step, Placed, AscendingIds, Stack, LiveOnly;
    Merged(s, file, s1, c);
  }

  /** A delete of `[1]` on such a store, acknowledged and flushed. */
  lemma DeleteFlushed(hasher: B.Hasher) returns (s: State, states: seq<State>, events: seq<Event>)
    ensures var c, older := Config(1, hasher, None), SmallFile(0, LayerTable(0, 0, 1), hasher);
      && Run(states, events, c) && Final(states) == s && Ledger(events) == LayerLedger(2, 0, 1) && Inv(s, c)
      && s.phase == Ready && s.mem == map[] && s.inFlight == None && s.nextId == 3
      && s.leftover == [older] && |s.listed| == 2 && LiveOnly(Stack(s.listed)) == map[]
  {
    hide Step, Inv, Contents, Written, SmallFile, Placed, Merge, TableIn, LiveOnly, Run, Ledger, Safe, Frames, Unlinked;
    hide F.Encoded, UnitWellFormed, UnitRecord, UnitOps, ApplyOps;
    var c, unit, table := Config(1, hasher, None), LayerUnit(1, 0, 1), LayerTable(1, 0, 1);
    var frame, file := F.Encoded(UnitRecord(unit)), SmallFile(2, table, hasher).file;
    var s0, before, done := PutLeftOver(hasher);
    LayerOps(1, 0, 1);
    PlainFrame(unit);
    SmallFileWritten(2, table, hasher);
    SmallFileReads(2, table, hasher);
    SmallFileIs(2, table, hasher);
    var s1 := s0.(disk := s0.disk.(wal := s0.disk.wal + frame), phase := Appended, inFlight := Some(unit));
    var s2 := s1.(phase := Ready, mem := table);
    var s3 := s2.(inFlight := None);
    AppendStep(s0, unit, frame, c);
    AlwaysSafe(s0, Append(unit, frame));
    states, events := SafelyExtended(before, done, Append(unit, frame), s1, c);
    AlwaysSafe(s1, Update);
    states, events := SafelyExtended(states, events, Update, s2, c);
    ReturnStep(s2, true, c);
    AlwaysSafe(s2, Return(true));
    states, events := SafelyExtended(states, events, Return(true), s3, c);
    var sst := SstOnDisk(2, file, None);
    var s4 := s3.(disk := s3.disk.(ssts := Placed(s3.disk.ssts, sst)), phase := Renamed);
    RenameStep(s3, file, c);
    AlwaysSafe(s3, FlushRename(file));
    states, events := SafelyExtended(states, events, FlushRename(file), s4, c);
    var s5 := s4.(disk := s4.disk.(wal := []), phase := Truncated);
    TruncateStep(s4, c);
    AlwaysSafe(s4, FlushTruncate);
    states, events := SafelyExtended(states, events, FlushTruncate, s5, c);
    s := s5.(phase := Ready, mem := map[], listed := s0.listed + [sst], nextId := 3);
    FlushFinishStep(s5, sst, c);
    AlwaysSafe(s5, FlushFinish);
    states, events := SafelyExtended(states, events, FlushFinish, s, c);
    DeletedLayer(Stack(s0.listed));
    TwoPromises();
  }

  lemma DeletedLayer(listed: Table)
    requires listed == map[[1] := Some([2])]
    ensures LiveOnly(listed + LayerTable(1, 0, 1)) == map[]
  {
  }

  lemma TwoPromises()
    ensures var put, deleted := Promise(LayerUnit(0, 0, 1), true), Promise(LayerUnit(1, 0, 1), true);
      LayerLedger(1, 0, 1) == [put] && LayerLedger(2, 0, 1) == [put, deleted]
  {
    assert LayerLedger(0, 0, 1) == [];
  }

  /** Removals fail in one merge and succeed in the next: `[1]` is put, flushed and merged, the flushed file staying
      behind; it is deleted, acknowledged and flushed; the next merge removes all its files, and a reopen shows the
      deleted key. */
  lemma NextMergeReturns(hasher: B.Hasher) returns (states: seq<State>, events: seq<Event>)
    ensures Run(states, events, Config(1, hasher, None)) && Final(states).phase == Merging([])
    ensures var put, deleted := F.WalRecord(F.Put, [1], Some([2])), F.WalRecord(F.Delete, [1], None);
      Ledger(events) == [Promise(One(put), true), Promise(One(deleted), true)]
    ensures [1] !in ApplyAllToDb(LedgerOps(Ledger(events)), map[]) && [1] in Contents(Final(states).disk, None)
  {
    hide Step, Inv, Contents, Written, SmallFile, Placed, Merge, TableIn, LiveOnly, Run, Ledger, Safe, Unlinked, Reaches;
    hide LedgerOps, ApplyAllToDb;
    var c, table := Config(1, hasher, None), LayerTable(0, 0, 1);
    var s, before, done := DeleteFlushed(hasher);
    var older, file := SmallFile(0, table, hasher), SmallFile(3, map[], hasher).file;
    SmallFileWritten(3, map[], hasher);
    var s1 := s.(disk := s.disk.(ssts := Placed(s.disk.ssts, SstOnDisk(3, file, None))), phase := Merging(s.listed),
                 listed := [SstOnDisk(3, file, None)], nextId := 4);
    MergeStep(s, file, c);
    var keep := seq(|s.listed|, _ => false);
    var removals := RemovalStates(s1, keep);
    RemovalStatesRemove(s1, keep, c);
    assert GoesOn([s], [], c);
    LeftoverUntilNextMerge([s], [], file, removals, c);
    StackOne(older);
    SmallFileReads(0, table, hasher);
    LeftAlive(Stack(s.leftover));
    states, events := Extended(before, done, MergeRename(file), s1, c);
    states, events := Extended(states, events, RemoveOld, removals[1], c);
    states, events := Extended(states, events, RemoveOld, removals[2], c);
    TwoPromises();
    LayeredReached(2, 0, 1, hasher);
    ReachesInv(Layered(2, 0, 1, hasher), LayerLedger(2, 0, 1), c);
    NothingLayered(hasher);
  }

  lemma LeftAlive(left: Table)
    requires left == map[[1] := Some([2])]
    ensures [1] in Live(left)
  {
  }

  lemma NothingLayered(hasher: B.Hasher)
    ensures Contents(Layered(2, 0, 1, hasher).disk, None) == map[]
  {
    hide TableIn, SmallFile, Merge, LiveOnly, Stack;
    TwoLayers(hasher);
    EmptyLog(None);
    NothingAlive(Stack(LayerFiles(2, 0, 1, hasher)));
  }

  lemma NothingAlive(t: Table)
    requires LiveOnly(t) == map[]
    ensures Live(t + map[]) == map[]
  {
    forall key | key in t
      ensures t[key].None?
    {
      assert key !in LiveOnly(t);
    }
  }
}
