/** The single-writer engine (`store::engine`): the same step order as the source, every durable step recorded
    as one step of `Store`, in either mode, with the I/O errors of each call. */
module Engines {
  import opened Bytes
  import opened Results
  import opened Aead
  import opened Tables
  import opened Memtables
  import opened Layers
  import opened WalLog
  import opened Store
  import opened SstFile
  import opened StoreRuns
  import opened BlockCaches
  import Reads
  import Paging
  import CachedReads
  import FailedRemovals
  import F = WalFormat
  import B = Bloom
  import SstReader
  import SstScan

  datatype Options = Options(memtableFlushThreshold: nat, compactionSstThreshold: nat, blockCacheCapacityBytes: nat)

  /** What the random source and the cipher come up with during one call, for the log record, the flushed file
      and the merged file, and which of the old files, oldest first, the file system will not remove. */
  datatype Draws = Draws(nonce: Bytes, ciphertext: Bytes, flush: Sealer, merge: Sealer, stuck: seq<bool>)

  predicate Stuck(draws: Draws, i: nat) { i < |draws.stuck| && draws.stuck[i] }

  /** Which of `count` old files stay. */
  function Staying(draws: Draws, count: nat): (keep: seq<bool>)
    ensures |keep| == count && forall i :: 0 <= i < count ==> keep[i] == Stuck(draws, i)
  {
    seq(count, i requires 0 <= i < count => Stuck(draws, i))
  }

  predicate Unhindered(draws: Draws) {
    forall i :: 0 <= i < |draws.stuck| ==> !draws.stuck[i]
  }

  /** Where the first I/O error of a call strikes. */
  datatype Fault =
    | NoFault
    | AppendFault(cut: nat)                // `cut` bytes of the frame get out; when all do, its sync fails
    | FlushWriteFault                      // no file is in place yet
    | FlushTruncateFault(truncated: bool)  // the file is in place; the log is as it was, or truncated but not synced
    | MergeWriteFault(renamed: bool)       // reading or writing failed, or the merged file is in place

  function UnitOf(op: F.WalOp, key: Bytes, value: Option<Bytes>): Unit {
    One(F.WalRecord(op, key, value))
  }

  /** The bytes a unit takes in the log. */
  function FrameOf(unit: Unit, crypto: Crypto, draws: Draws): Bytes {
    if |draws.nonce| == NONCE_LEN then OnDisk(F.Encoded(UnitRecord(unit)), crypto, draws.nonce, draws.ciphertext) else []
  }

  /** The record of `unit` is sealed to what was drawn, and no more bytes get out than it has. */
  ghost predicate Appendable(unit: Unit, crypto: Crypto, draws: Draws, fault: Fault) {
    && Sealing(F.Encoded(UnitRecord(unit)), crypto, draws.nonce, draws.ciphertext)
    && (fault.AppendFault? ==> fault.cut <= |FrameOf(unit, crypto, draws)|)
  }

  /** Every length and count of the SST for `t` fits its field, and its sections are sealed. */
  ghost predicate Writable(id: nat, t: Table, c: Config, sealer: Sealer) {
    var layout := LayoutOf(id, Ascending(t), c.blockSize, c.hasher, sealer);
    c.blockSize > 0 && layout.InRange() && layout.Seals(c.crypto)
  }

  /** Writes a sorted list of entries, each key once, as an SST. */
  method WriteSst(id: nat, entries: seq<Entry>, c: Config, sealer: Sealer) returns (sst: SstOnDisk)
    requires StrictlySorted(entries) && Writable(id, AsTable(entries), c, sealer)
    ensures sst.id == id && sst.crypto == c.crypto && Written(sst.file, id, AsTable(entries), c)
  {
    hide AsTable, StrictlySorted, LayoutOf, Layout.InRange, Layout.Seals, Layout.Bytes;
    AscendingUnique(entries);
    var file := WriteNew(id, entries, c.blockSize, c.hasher, sealer);
    assert WrittenWith(file, id, AsTable(entries), c, sealer);
    sst := SstOnDisk(id, file, c.crypto);
  }

  /** Rebuilds the memtable from replayed operations. */
  method ReplayInto(memtable: Memtable, records: seq<F.WalRecord>)
    modifies memtable
    ensures memtable.entries == ApplyOps(records, old(memtable.entries))
  {
    hide F.Payload;
    for i := 0 to |records|
      invariant memtable.entries == ApplyOps(records[..i], old(memtable.entries))
    {
      var record := records[i];
      assert records[..i + 1][..i] == records[..i];
      if record.op.Delete? {
        memtable.Delete(record.key);
      } else {
        memtable.Put(record.key, F.Payload(record.value));
      }
    }
    assert records[..|records|] == records;
  }

  // ── the open files, for the block cache ────────────────────────────────

  function FilesOf(ssts: seq<SstOnDisk>): CachedReads.Files {
    if ssts == [] then map[]
    else
      var n := |ssts| - 1;
      FilesOf(ssts[..n])[ssts[n].id := ssts[n]]
  }

  predicate HasId(ssts: seq<SstOnDisk>, id: nat) {
    exists i :: 0 <= i < |ssts| && ssts[i].id == id
  }

  lemma {:induction false} FilesOfHas(ssts: seq<SstOnDisk>, id: nat)
    ensures id in FilesOf(ssts) <==> HasId(ssts, id)
  {
    if ssts != [] {
      var n := |ssts| - 1;
      FilesOfHas(ssts[..n], id);
      assert forall i :: 0 <= i < n ==> ssts[..n][i] == ssts[i];
    }
  }

  lemma {:induction false} FilesOfAt(ssts: seq<SstOnDisk>, i: nat)
    requires AscendingIds(ssts) && i < |ssts|
    ensures ssts[i].id in FilesOf(ssts) && FilesOf(ssts)[ssts[i].id] == ssts[i]
  {
    var n := |ssts| - 1;
    if i < n {
      FilesOfAt(ssts[..n], i);
    }
  }

  /** Opening a file more changes nothing that is resident. */
  lemma CoherentGrows(list: Recency, ssts: seq<SstOnDisk>, sst: SstOnDisk)
    requires CachedReads.Coherent(list, FilesOf(ssts)) && AscendingIds(ssts + [sst])
    ensures CachedReads.Coherent(list, FilesOf(ssts + [sst]))
  {
    hide CachedReads.BlockOf;
    var all := ssts + [sst];
    assert all[..|ssts|] == ssts;
    assert forall i :: 0 <= i < |ssts| ==> all[i] == ssts[i] && all[i].id < all[|ssts|].id;
    FilesOfHas(ssts, sst.id);
    forall x | x in list
      ensures CachedReads.BlockOf(FilesOf(all), x.key) == Some(x.block)
    {
      assert CachedReads.BlockOf(FilesOf(ssts), x.key) == Some(x.block);
      OtherFile(FilesOf(ssts), sst, x.key);
    }
  }

  lemma OtherFile(files: CachedReads.Files, sst: SstOnDisk, key: BlockKey)
    requires sst.id !in files && CachedReads.BlockOf(files, key).Some?
    ensures CachedReads.BlockOf(files[sst.id := sst], key) == CachedReads.BlockOf(files, key)
  {
    hide SstReader.Load, SstReader.ReadBlock;
  }

  /** Dropping the blocks of the oldest file with the file. */
  lemma CoherentShrinks(list: Recency, ssts: seq<SstOnDisk>)
    requires ssts != [] && CachedReads.Coherent(list, FilesOf(ssts)) && AscendingIds(ssts)
    ensures CachedReads.Coherent(Purged(list, ssts[0].id), FilesOf(ssts[1..]))
  {
    hide CachedReads.BlockOf, Purged, FilesOf, AscendingIds;
    PurgedIs(list, ssts[0].id);
    var before, after := FilesOf(ssts), FilesOf(ssts[1..]);
    forall x | x in Purged(list, ssts[0].id)
      ensures CachedReads.BlockOf(after, x.key) == Some(x.block)
    {
      assert CachedReads.BlockOf(before, x.key) == Some(x.block);
      FilesOfHas(ssts, x.key.sst);
      if HasId(ssts, x.key.sst) {
        var i :| 0 <= i < |ssts| && ssts[i].id == x.key.sst;
        FilesOfAt(ssts, i);
        SuffixAscends(ssts);
        FilesOfAt(ssts[1..], i - 1);
      }
      SameFile(before, after, x.key);
    }
  }

  lemma SuffixAscends(ssts: seq<SstOnDisk>)
    requires ssts != [] && AscendingIds(ssts)
    ensures AscendingIds(ssts[1..])
  {
  }

  lemma SameFile(before: CachedReads.Files, after: CachedReads.Files, key: BlockKey)
    requires key.sst in before ==> key.sst in after && after[key.sst] == before[key.sst]
    requires CachedReads.BlockOf(before, key).Some?
    ensures CachedReads.BlockOf(after, key) == CachedReads.BlockOf(before, key)
  {
    hide SstReader.Load, SstReader.ReadBlock;
  }

  class Engine {
    const config: Config
    const options: Options
    const wal: Wal
    const memtable: Memtable
    const blockCache: BlockCache
    /** The directory, and the open files in it, oldest first. */
    var directory: seq<SstOnDisk>
    var ssts: seq<SstOnDisk>
    var nextSstId: nat
    /** What could not be removed: in the directory, below every open file, and forgotten by the process. */
    ghost var leftover: seq<SstOnDisk>
    /** The run so far. */
    ghost var states: seq<State>
    ghost var events: seq<Event>

    ghost function Snapshot(phase: Phase, inFlight: Option<Unit>): State
      reads this, wal, memtable
    {
      State(Disk(wal.file, directory), phase, memtable.entries, ssts, nextSstId, inFlight, leftover)
    }

    ghost predicate At(phase: Phase, inFlight: Option<Unit>)
      reads this, wal, memtable
    {
      && wal.crypto == config.crypto && FreshCrypto(config.crypto)
      && GentleRun(states, events, config) && Final(states) == Snapshot(phase, inFlight)
    }

    /** The same without the claim that every step was safe. */
    ghost predicate Recorded(phase: Phase, inFlight: Option<Unit>)
      reads this, wal, memtable
    {
      && wal.crypto == config.crypto && FreshCrypto(config.crypto)
      && Run(states, events, config) && Final(states) == Snapshot(phase, inFlight)
    }

    /** No file left over has a live key that the open files lack. */
    ghost predicate Survived()
      reads this
    {
      NoResurrection(Stack(leftover), Stack(ssts))
    }

    /** Every resident block is the content of an open file, or of one in `stale`. */
    ghost predicate CacheHolds(stale: seq<SstOnDisk>)
      reads this, blockCache
    {
      blockCache.Valid() && CachedReads.Coherent(blockCache.order, FilesOf(stale + ssts))
    }

    /** Between calls. */
    ghost predicate Valid()
      reads this, wal, memtable, blockCache
    {
      At(Ready, None) && CacheHolds([])
    }

    /** What a reopen would recover; `Get` and the scans agree with it. */
    ghost function Shown(): Db
      reads this, wal
    {
      Contents(Disk(wal.file, directory), config.crypto)
    }

    /** Every length and count fits its field in the SSTs the next flush and merge would write. */
    ghost predicate Room(entries: Table, draws: Draws)
      reads this
    {
      && Writable(nextSstId, entries, config, draws.flush)
      && Writable(nextSstId + 1, LiveOnly(Stack(ssts) + entries), config, draws.merge)
    }

    ghost predicate RoomToMerge(draws: Draws)
      reads this
    {
      Writable(nextSstId, LiveOnly(Stack(ssts)), config, draws.merge)
    }

    /** Opens what an earlier run left behind. */
    constructor Open(config: Config, options: Options, disk: Disk, ghost states: seq<State>, ghost events: seq<Event>)
      requires FreshCrypto(config.crypto) && GentleRun(states, events, config)
      requires Final(states).phase.Down? && Final(states).disk == disk
      ensures Valid() && fresh(wal) && fresh(memtable) && fresh(blockCache)
      ensures this.config == config && this.options == options
      ensures this.events == events + [Reopen] && this.states == states + [Snapshot(Ready, None)]
      ensures Shown() == Contents(disk, config.crypto)
    {
      this.config, this.options := config, options;
      wal := new Wal(disk.wal, config.crypto);
      memtable := new Memtable();
      blockCache := new BlockCache(options.blockCacheCapacityBytes);
      directory, ssts, leftover := disk.ssts, disk.ssts, [];
      nextSstId := NextId(disk.ssts);
      this.states, this.events := states, events;
      new;
      hide GentleRun, NextId, Contents, FilesOf, FreshCrypto, Final, CachedReads.Coherent;
      NothingCached(FilesOf([] + ssts));
      Recover();
    }

    /** Replays the log into the memtable, cutting its torn tail off. */
    method Recover()
      requires wal.crypto == config.crypto && FreshCrypto(config.crypto) && GentleRun(states, events, config)
      requires Final(states).phase.Down? && Final(states).disk == Disk(wal.file, directory)
      requires memtable.entries == map[] && ssts == directory && nextSstId == NextId(directory) && leftover == []
      modifies wal, memtable, this`states, this`events
      ensures At(Ready, None) && Shown() == old(Shown())
      ensures events == old(events) + [Reopen] && states == old(states) + [Snapshot(Ready, None)]
    {
      hide Step, LoadAll, Ledger, GentleRun, ReplayLog, ApplyOps, NextId, Contents, Interruptions, FreshCrypto, Final;
      Reopened(states, events, config);
      var replayed := wal.Replay();
      ReplayInto(memtable, replayed.value);
      Note(Reopen, Ready, None);
    }

    /** Records the step just taken. */
    ghost method Note(e: Event, phase: Phase, inFlight: Option<Unit>)
      requires GentleRun(states, events, config) && Safe(Final(states), e)
      requires Step(Final(states), e, Snapshot(phase, inFlight), config)
      modifies this`states, this`events
      ensures GentleRun(states, events, config) && Final(states) == Snapshot(phase, inFlight)
      ensures events == old(events) + [e] && states == old(states) + [Snapshot(phase, inFlight)]
      ensures Ledger(events) == Record(Ledger(old(events)), e)
      ensures Interruptions(events) == Interruptions(old(events)) + if Interrupts(e) then 1 else 0
    {
      hide Step, GentleRun, Ledger, Interruptions, Safe;
      states, events := states + [Snapshot(phase, inFlight)], events + [e];
      RunGrows(old(states), old(events), states, events, config);
    }

    /** Records the step just taken, safe or not. */
    ghost method Log(e: Event, phase: Phase, inFlight: Option<Unit>)
      requires Run(states, events, config) && Step(Final(states), e, Snapshot(phase, inFlight), config)
      modifies this`states, this`events
      ensures Run(states, events, config) && Final(states) == Snapshot(phase, inFlight)
      ensures Ledger(events) == Record(Ledger(old(events)), e)
      ensures Interruptions(events) == Interruptions(old(events)) + if Interrupts(e) then 1 else 0
      ensures Gentle(states, events) <==> old(Gentle(states, events)) && Safe(Final(old(states)), e)
    {
      hide Step, Run, Ledger, Interruptions, Safe, Gentle;
      states, events := states + [Snapshot(phase, inFlight)], events + [e];
      RunLengths(old(states), old(events), config);
      RunRecords(old(states), old(events), states, events, config);
    }

    /** Records a step that is safe whatever came before. */
    ghost method NoteAny(e: Event, phase: Phase, inFlight: Option<Unit>)
      requires wal.crypto == config.crypto && FreshCrypto(config.crypto) && Run(states, events, config)
      requires Step(Final(states), e, Snapshot(phase, inFlight), config) && !e.RemoveOld? && !e.AppendFails?
      modifies this`states, this`events
      ensures Recorded(phase, inFlight) && (GentleRun(states, events, config) <==> old(GentleRun(states, events, config)))
      ensures Ledger(events) == Record(Ledger(old(events)), e)
      ensures Interruptions(events) == Interruptions(old(events)) + if Interrupts(e) then 1 else 0
    {
      hide Step, Run, Gentle, GentleRun, Ledger, Interruptions, Safe, FreshCrypto;
      GentleIs(states, events, config);
      FailedRemovals.AlwaysSafe(Final(states), e);
      Log(e, phase, inFlight);
      GentleIs(states, events, config);
    }

    /** The store shows what the ledger of its run says. */
    lemma ShownIsLedger(phase: Phase, inFlight: Option<Unit>)
      requires At(phase, inFlight)
      ensures Inv(Snapshot(phase, inFlight), config)
      ensures Shown() == ApplyAllToDb(LedgerOps(Ledger(events)), map[])
    {
      hide Step, Inv, Ledger, Contents, GentleRun;
      CrashConsistency(states, events, config);
    }

    lemma AtSurvives(inFlight: Option<Unit>)
      requires At(Ready, inFlight)
      ensures Recorded(Ready, inFlight) && Survived()
    {
      hide Step, Ledger, Contents, GentleRun, Run, LogWhole, Sound, Stack, Logged, Live, Shows;
      ShownIsLedger(Ready, inFlight);
      GentleIsRun(states, events, config);
      NothingReturns(Snapshot(Ready, inFlight), config);
    }

    /** The steps since `old` promised nothing and were not interrupted. */
    twostate predicate Quiet()
      reads this
    {
      Ledger(events) == Ledger(old(events)) && Interruptions(events) == Interruptions(old(events))
    }

    /** Writes the memtable to a new file and renames it into place. */
    method WriteMemtable(draws: Draws, ghost inFlight: Option<Unit>)
      requires At(Ready, inFlight) && Room(memtable.entries, draws) && memtable.entries != map[]
      modifies this`directory, this`states, this`events
      ensures At(Renamed, inFlight) && Quiet() && directory != []
      ensures var newSst := directory[|directory| - 1];
        directory == leftover + ssts + [newSst] && Stack(ssts + [newSst]) == Stack(ssts) + memtable.entries
    {
      hide Step, Inv, Ledger, Contents, GentleRun, Interruptions, Placed, AsTable, Stack, LiveOnly, Written, Writable;
      hide LedgerOps, ApplyAllToDb, FreshCrypto, Final, StrictlySorted, NextId, Ascending;
      ShownIsLedger(Ready, inFlight);
      ghost var s0 := Snapshot(Ready, inFlight);
      var newSst := WriteSst(nextSstId, memtable.Iter(), config, draws.flush);
      directory := Placed(directory, newSst);
      NextRename(s0, newSst, config);
      Note(FlushRename(newSst.file), Renamed, inFlight);
    }

    method TruncateLog(ghost inFlight: Option<Unit>)
      requires At(Renamed, inFlight)
      modifies wal, this`states, this`events
      ensures At(Truncated, inFlight) && Quiet()
    {
      hide Step, Ledger, GentleRun, Interruptions, FreshCrypto;
      ghost var s0 := Snapshot(Renamed, inFlight);
      wal.Reset();
      TruncateStep(s0, config);
      Note(FlushTruncate, Truncated, inFlight);
    }

    /** The call gives up: the file stays in the directory, unlisted, and the memtable as it is. */
    ghost method GiveUp(phase: Phase, inFlight: Option<Unit>)
      requires At(phase, inFlight) && (phase.Renamed? || phase.Truncated?)
      modifies this`states, this`events
      ensures At(Ready, inFlight) && Quiet()
    {
      hide Step, Ledger, GentleRun, Interruptions, FreshCrypto;
      FlushErrorStep(Snapshot(phase, inFlight), config);
      Note(FlushError, Ready, inFlight);
    }

    method FinishFlush(newSst: SstOnDisk, ghost inFlight: Option<Unit>)
      requires At(Truncated, inFlight) && directory == leftover + ssts + [newSst] && CacheHolds([])
      modifies memtable, this`nextSstId, this`ssts, this`states, this`events
      ensures At(Ready, inFlight) && Quiet() && CacheHolds([]) && memtable.entries == map[]
      ensures ssts == old(ssts) + [newSst] && nextSstId == old(nextSstId) + 1
    {
      hide Step, Ledger, GentleRun, Interruptions, FreshCrypto, FilesOf, CachedReads.Coherent, Inv, Contents;
      hide LedgerOps, ApplyAllToDb, Final;
      ghost var s0 := Snapshot(Truncated, inFlight);
      ShownIsLedger(Truncated, inFlight);
      DirectoryAscends(s0, config);
      assert leftover + (ssts + [newSst]) == directory;
      SuffixOf(leftover, ssts + [newSst]);
      assert [] + ssts == ssts;
      CoherentGrows(blockCache.order, ssts, newSst);
      nextSstId := nextSstId + 1;
      ssts := ssts + [newSst];
      assert [] + ssts == ssts;
      memtable.Clear();
      FlushFinishStep(s0, newSst, config);
      Note(FlushFinish, Ready, inFlight);
    }

    /** Writes the memtable out and truncates the log, in that order. */
    method FlushMemtable(draws: Draws, fault: Fault, ghost inFlight: Option<Unit>) returns (res: Result<()>)
      requires At(Ready, inFlight) && CacheHolds([]) && Room(memtable.entries, draws) && memtable.entries != map[]
      modifies this, wal, memtable
      ensures At(Ready, inFlight) && CacheHolds([]) && Quiet() && leftover == old(leftover)
      ensures if fault.FlushWriteFault? || fault.FlushTruncateFault? then res == Failure(Io) else res == Success(())
      ensures if res.Success?
              then memtable.entries == map[] && |ssts| == |old(ssts)| + 1 && RoomToMerge(draws)
              else memtable.entries == old(memtable.entries) && ssts == old(ssts) && nextSstId == old(nextSstId)
    {
      hide Ledger, Contents, GentleRun, Interruptions, Stack, Inv, Writable, LiveOnly, Step, LedgerOps, ApplyAllToDb;
      hide FreshCrypto, CachedReads.Coherent, FilesOf;
      ghost var id, whole := nextSstId, Stack(ssts) + memtable.entries;
      assert Writable(id + 1, LiveOnly(whole), config, draws.merge);
      if fault.FlushWriteFault? {
        return Failure(Io);
      }
      WriteMemtable(draws, inFlight);
      ghost var newSst := directory[|directory| - 1];
      assert nextSstId == id && Stack(ssts + [newSst]) == whole;
      if fault == FlushTruncateFault(false) {
        GiveUp(Renamed, inFlight);
        return Failure(Io);
      }
      TruncateLog(inFlight);
      if fault == FlushTruncateFault(true) {
        GiveUp(Truncated, inFlight);
        return Failure(Io);
      }
      FinishFlush(directory[|directory| - 1], inFlight);
      return Success(());
    }

    /** Whether `fault` is reached by a flush of `entries`, and the merge that may follow it. */
    predicate Strikes(fault: Fault, entries: Table)
      reads this
    {
      match fault
      case NoFault => false
      case AppendFault(_) => false
      case FlushWriteFault => entries != map[]
      case FlushTruncateFault(_) => entries != map[]
      case MergeWriteFault(_) => entries != map[] && |ssts| + 1 > options.compactionSstThreshold
    }

    /** How a call that may flush and merge leaves the store: if a file could not be removed, the engine still goes
        on, but a reopen need not show the same any more. */
    twostate predicate Went(draws: Draws, inFlight: Option<Unit>)
      reads this, wal, memtable, blockCache
    {
      && Recorded(Ready, inFlight) && CacheHolds([]) && Quiet()
      && (At(Ready, inFlight) <==> Survived()) && (Survived() ==> Shown() == old(Shown()))
      && (Unhindered(draws) ==> leftover == old(leftover))
    }

    method Flush(draws: Draws, fault: Fault, ghost inFlight: Option<Unit>) returns (res: Result<()>)
      requires At(Ready, inFlight) && CacheHolds([]) && Room(memtable.entries, draws)
      modifies this, wal, memtable, blockCache
      ensures Went(draws, inFlight)
      ensures res == if old(Strikes(fault, memtable.entries)) then Failure(Io) else Success(())
      ensures res.Success? ==> memtable.entries == map[]
    {
      hide Ledger, Contents, GentleRun, Interruptions, Stack, Inv, Room, RoomToMerge, Step, LedgerOps, ApplyAllToDb;
      hide FreshCrypto, CachedReads.Coherent, FilesOf, Run, NoResurrection;
      ShownIsLedger(Ready, inFlight);
      res := Success(());
      AtSurvives(inFlight);
      if |memtable.entries| > 0 {
        res := FlushMemtable(draws, fault, inFlight);
        ShownIsLedger(Ready, inFlight);
        AtSurvives(inFlight);
        if res.Success? && |ssts| > options.compactionSstThreshold {
          res := Compact(draws, fault, inFlight);
        }
      }
    }

    /** Every entry of every listed file, later files winning. */
    method MergeAll() returns (merged: Table)
      requires AllSound(ssts, config)
      ensures merged == Stack(ssts)
    {
      hide AllSound, Sound, Stack, StrictlySorted, AsTable, Reads.InsertAll, Ascending;
      merged := map[];
      StackOne(SstOnDisk(0, [], None));
      for i := 0 to |ssts|
        invariant merged == Stack(ssts[..i])
      {
        Reads.StackSplit(ssts[..i + 1]);
        assert ssts[..i + 1][..i] == ssts[..i];
        var sst := ssts[i];
        SoundEntries(ssts, i, config);
        var loaded := SstReader.Load(sst).value;
        var entries := SstScan.Entries(sst, loaded);
        Reads.InsertSorted(merged, entries.value);
        merged := Reads.InsertAll(merged, entries.value);
      }
      assert ssts[..|ssts|] == ssts;
    }

    /** The merge of every listed file, tombstones dropped, as a new file. */
    method MergedFile(draws: Draws, ghost inFlight: Option<Unit>) returns (newSst: SstOnDisk)
      requires At(Ready, inFlight) && RoomToMerge(draws)
      ensures newSst.id == nextSstId && newSst.crypto == config.crypto
      ensures Written(newSst.file, nextSstId, LiveOnly(Stack(ssts)), config)
    {
      hide Step, Inv, Ledger, Contents, GentleRun, Interruptions, AsTable, Stack, LiveOnly, Written, Writable;
      hide FreshCrypto;
      ShownIsLedger(Ready, inFlight);
      ListedAreSound(Snapshot(Ready, inFlight), config);
      var merged := MergeAll();
      AscendingSorted(LiveOnly(merged));
      newSst := WriteSst(nextSstId, Ascending(LiveOnly(merged)), config, draws.merge);
    }

    /** The merged file is in place and listed instead of all others. */
    method ListMerged(newSst: SstOnDisk, ghost inFlight: Option<Unit>)
      requires At(Ready, inFlight) && CacheHolds([]) && memtable.entries == map[] && ssts != []
      requires newSst.id == nextSstId && newSst.crypto == config.crypto
      requires Written(newSst.file, nextSstId, LiveOnly(Stack(ssts)), config)
      modifies this
      ensures At(Merging(old(ssts)), inFlight) && CacheHolds(old(ssts)) && Quiet() && |ssts| == 1
      ensures leftover == old(leftover) && directory == leftover + old(ssts) + ssts && AscendingIds(directory)
      ensures Stack(ssts) == LiveOnly(Stack(old(ssts))) && Logged(wal.file, config.crypto) == map[]
      ensures old(Shown()) == Live(Stack(ssts))
    {
      hide Step, Inv, Ledger, Contents, GentleRun, Interruptions, Placed, Stack, LiveOnly, Written, LedgerOps;
      hide FreshCrypto, CachedReads.Coherent, FilesOf, ApplyAllToDb, Live, Logged, AscendingIds;
      ShownIsLedger(Ready, inFlight);
      ghost var s0 := Snapshot(Ready, inFlight);
      directory := Placed(directory, newSst);
      nextSstId := nextSstId + 1;
      ssts := [newSst];
      MergeStep(s0, newSst.file, config);
      Note(MergeRename(newSst.file), Merging(s0.listed), inFlight);
      FailedRemovals.Merged(s0, newSst.file, Snapshot(Merging(s0.listed), inFlight), config);
      assert directory == leftover + s0.listed + ssts == leftover + (s0.listed + [newSst]);
      SuffixOf(leftover, s0.listed + [newSst]);
      assert [] + s0.listed == s0.listed;
      CoherentGrows(blockCache.order, s0.listed, newSst);
    }

    method DropBlocks(stale: seq<SstOnDisk>)
      requires CacheHolds(stale) && stale != [] && AscendingIds(stale + ssts)
      modifies blockCache
      ensures CacheHolds(stale[1..])
    {
      hide FilesOf, CachedReads.Coherent, AscendingIds, Purged;
      CoherentShrinks(blockCache.order, stale + ssts);
      assert (stale + ssts)[1..] == stale[1..] + ssts;
      blockCache.InvalidateSst(stale[0].id);
    }

    /** The oldest stale file goes. */
    method Unlink(stale: seq<SstOnDisk>, ghost inFlight: Option<Unit>)
      requires Recorded(Merging(stale), inFlight) && stale != []
      requires directory == leftover + stale + ssts && AscendingIds(directory)
      modifies this`directory, this`states, this`events
      ensures Recorded(Merging(stale[1..]), inFlight) && Quiet()
      ensures directory == leftover + stale[1..] + ssts && AscendingIds(directory)
      ensures Gentle(states, events)
         <==> old(Gentle(states, events)) && NoResurrection(Stack(leftover + stale[1..]), Stack(ssts))
    {
      hide Step, Ledger, Run, Gentle, Interruptions, Unlinked, FreshCrypto, AscendingIds, Stack, NoResurrection;
      ghost var s0, newer := Snapshot(Merging(stale), inFlight), stale[1..] + ssts;
      assert directory == leftover + [stale[0]] + newer;
      UnlinkedMiddle(leftover, stale[0], newer);
      directory := Unlinked(directory, stale[0].id);
      RemoveStep(s0, Snapshot(Merging(stale[1..]), inFlight), config);
      Log(RemoveOld, Merging(stale[1..]), inFlight);
    }

    /** The oldest stale file stays. */
    ghost method Forget(stale: seq<SstOnDisk>, inFlight: Option<Unit>)
      requires Recorded(Merging(stale), inFlight) && stale != [] && directory == leftover + stale + ssts
      modifies this`leftover, this`states, this`events
      ensures Recorded(Merging(stale[1..]), inFlight) && Quiet() && directory == leftover + stale[1..] + ssts
      ensures leftover == old(leftover) + [stale[0]] && (Gentle(states, events) <==> old(Gentle(states, events)))
    {
      hide Step, Ledger, Run, Gentle, Interruptions, FreshCrypto;
      var s0 := Snapshot(Merging(stale), inFlight);
      leftover := leftover + [stale[0]];
      RemoveFailsStep(s0, Snapshot(Merging(stale[1..]), inFlight), config);
      Log(RemoveFails, Merging(stale[1..]), inFlight);
    }

    /** Removes the oldest stale file, unless that fails, and drops its blocks in either case. */
    method Remove(stale: seq<SstOnDisk>, fails: bool, ghost inFlight: Option<Unit>)
      requires Recorded(Merging(stale), inFlight) && CacheHolds(stale) && stale != []
      requires directory == leftover + stale + ssts && AscendingIds(directory)
      modifies this`directory, this`leftover, this`states, this`events, blockCache
      ensures Recorded(Merging(stale[1..]), inFlight) && CacheHolds(stale[1..]) && Quiet()
      ensures directory == leftover + stale[1..] + ssts && AscendingIds(directory)
      ensures leftover == old(leftover) + if fails then [stale[0]] else []
      ensures Gentle(states, events)
         <==> old(Gentle(states, events))
              && (fails || NoResurrection(Stack(old(leftover) + stale[1..]), Stack(ssts)))
    {
      hide Ledger, Run, Gentle, Interruptions, FreshCrypto, CachedReads.Coherent, FilesOf, AscendingIds, Stack;
      hide NoResurrection;
      assert directory == leftover + (stale + ssts);
      SuffixOf(leftover, stale + ssts);
      if fails {
        Forget(stale, inFlight);
      } else {
        Unlink(stale, inFlight);
      }
      DropBlocks(stale);
    }

    /** The old files go, oldest first, but for those that cannot be removed. */
    method RemoveAll(draws: Draws, oldSsts: seq<SstOnDisk>, ghost inFlight: Option<Unit>)
      requires At(Merging(oldSsts), inFlight) && CacheHolds(oldSsts)
      requires directory == leftover + oldSsts + ssts && AscendingIds(directory)
      requires Stack(ssts) == LiveOnly(Stack(oldSsts))
      modifies this`directory, this`leftover, this`states, this`events, blockCache
      ensures Recorded(Merging([]), inFlight) && CacheHolds([]) && Quiet() && directory == leftover + ssts
      ensures leftover == old(leftover) + FailedRemovals.Kept(oldSsts, Staying(draws, |oldSsts|))
      ensures Gentle(states, events) <==> Survived()
    {
      hide Step, Ledger, Run, Gentle, GentleRun, Interruptions, FreshCrypto, CachedReads.Coherent, FilesOf, AscendingIds;
      hide Stack, NoResurrection, LiveOnly, FailedRemovals.Kept, Staying, Revives, Inv, Contents;
      ghost var keep := Staying(draws, |oldSsts|);
      GentleIsRun(states, events, config);
      GentleIs(states, events, config);
      FailedRemovals.KeptNone(oldSsts[..0], keep[..0]);
      assert oldSsts[0..] == oldSsts && leftover + [] == leftover;
      for i := 0 to |oldSsts|
        invariant Recorded(Merging(oldSsts[i..]), inFlight) && CacheHolds(oldSsts[i..]) && Quiet()
        invariant directory == leftover + oldSsts[i..] + ssts && AscendingIds(directory) && ssts == old(ssts)
        invariant leftover == old(leftover) + FailedRemovals.Kept(oldSsts[..i], keep[..i])
        invariant !Gentle(states, events) ==> Revives(Stack(leftover), Stack(oldSsts[i..]), Stack(ssts))
      {
        assert oldSsts[i..][0] == oldSsts[i] && oldSsts[i..][1..] == oldSsts[i + 1..];
        RevivesNext(leftover, oldSsts, i, ssts, Stuck(draws, i));
        FailedRemovals.KeptNext(oldSsts, keep, i);
        Remove(oldSsts[i..], Stuck(draws, i), inFlight);
        assert leftover == old(leftover)
             + (FailedRemovals.Kept(oldSsts[..i], keep[..i]) + if keep[i] then [oldSsts[i]] else []);
      }
      assert oldSsts[|oldSsts|..] == [] && oldSsts[..|oldSsts|] == oldSsts && keep[..|keep|] == keep;
      if Gentle(states, events) {
        GentleIs(states, events, config);
        ShownIsLedger(Merging([]), inFlight);
        NothingReturns(Snapshot(Merging([]), inFlight), config);
      } else {
        RevivesEnds(Stack(leftover), Stack(ssts));
      }
      assert leftover + [] == leftover;
    }

    /** The merged file instead of all others, in the list and, as far as they can be removed, on disk. */
    method ReplaceAll(newSst: SstOnDisk, draws: Draws, ghost inFlight: Option<Unit>)
      requires At(Ready, inFlight) && CacheHolds([]) && memtable.entries == map[] && ssts != []
      requires newSst.id == nextSstId && newSst.crypto == config.crypto
      requires Written(newSst.file, nextSstId, LiveOnly(Stack(ssts)), config)
      modifies this, blockCache
      ensures Went(draws, inFlight) && |ssts| == 1 && Stack(ssts) == LiveOnly(Stack(old(ssts)))
      ensures leftover == old(leftover) + FailedRemovals.Kept(old(ssts), Staying(draws, |old(ssts)|))
      ensures Shown() == Live(Stack(leftover)) + old(Shown())
    {
      hide Step, Inv, Ledger, Contents, GentleRun, Interruptions, FreshCrypto, CachedReads.Coherent, FilesOf, Written;
      hide Stack, LiveOnly, Live, Logged, Run, Gentle, NoResurrection, AscendingIds, FailedRemovals.Kept, Staying;
      var stale := ssts;
      ListMerged(newSst, inFlight);
      RemoveAll(draws, stale, inFlight);
      GentleIs(states, events, config);
      FinishStep(Snapshot(Merging([]), inFlight), config);
      NoteAny(MergeFinish, Ready, inFlight);
      MergedShown(leftover, ssts, wal.file, Stack(stale), config.crypto);
      AllRemoved(stale, draws);
      assert old(leftover) + [] == old(leftover);
    }

    /** Folds every listed file into one without tombstones, then removes the old ones, oldest first. */
    method Compact(draws: Draws, fault: Fault, ghost inFlight: Option<Unit>) returns (res: Result<()>)
      requires At(Ready, inFlight) && CacheHolds([]) && memtable.entries == map[] && ssts != [] && RoomToMerge(draws)
      modifies this, blockCache
      ensures Went(draws, inFlight)
      ensures if fault.MergeWriteFault?
              then res == Failure(Io) && ssts == old(ssts) && leftover == old(leftover) && Shown() == old(Shown())
              else
                && res == Success(()) && |ssts| == 1 && Stack(ssts) == LiveOnly(Stack(old(ssts)))
                && leftover == old(leftover) + FailedRemovals.Kept(old(ssts), Staying(draws, |old(ssts)|))
                && Shown() == Live(Stack(leftover)) + old(Shown())
    {
      hide Step, Inv, Ledger, Contents, GentleRun, Interruptions, LedgerOps, ApplyAllToDb, RoomToMerge, FreshCrypto;
      hide CachedReads.Coherent, FilesOf, Written, Placed, Stack, LiveOnly, Run, Gentle, NoResurrection;
      ShownIsLedger(Ready, inFlight);
      AtSurvives(inFlight);
      if fault == MergeWriteFault(false) {
        return Failure(Io);
      }
      var newSst := MergedFile(draws, inFlight);
      if fault == MergeWriteFault(true) {
        MergeErrorStep(Snapshot(Ready, inFlight), newSst.file, config);
        directory := Placed(directory, newSst);
        Note(MergeError(newSst.file), Ready, inFlight);
        ShownIsLedger(Ready, inFlight);
        AtSurvives(inFlight);
        return Failure(Io);
      }
      ReplaceAll(newSst, draws, inFlight);
      return Success(());
    }

    method MaybeFlush(draws: Draws, fault: Fault, ghost inFlight: Option<Unit>) returns (res: Result<()>)
      requires At(Ready, inFlight) && CacheHolds([]) && Room(memtable.entries, draws)
      modifies this, wal, memtable, blockCache
      ensures Went(draws, inFlight)
      ensures res == if old(|memtable.entries| >= options.memtableFlushThreshold && Strikes(fault, memtable.entries))
                     then Failure(Io) else Success(())
    {
      hide Ledger, Contents, GentleRun, Interruptions, Room, FreshCrypto, CachedReads.Coherent, FilesOf, Run;
      hide NoResurrection, Stack;
      res := Success(());
      AtSurvives(inFlight);
      if |memtable.entries| >= options.memtableFlushThreshold {
        res := Flush(draws, fault, inFlight);
      }
    }

    /** One unit more in the ledger and nothing else, acknowledged or reported as an error; the contents change by
        just that unit, unless a file that could not be removed brings back a key. */
    twostate predicate Committed(unit: Unit, acknowledged: bool, draws: Draws)
      reads this, wal, memtable, blockCache
    {
      && Recorded(Ready, None) && CacheHolds([])
      && Ledger(events) == Ledger(old(events)) + [Promise(unit, acknowledged)]
      && Interruptions(events) == Interruptions(old(events)) + (if acknowledged then 0 else 1)
      && (Valid() <==> Survived()) && (Survived() ==> Shown() == ApplyAllToDb(UnitOps(unit), old(Shown())))
      && (Unhindered(draws) ==> leftover == old(leftover))
    }

    /** `cut` bytes of the frame are in the log and nothing else changed; the engine can go on exactly
        when that was safe. */
    twostate predicate AppendFailed(unit: Unit, frame: Bytes, cut: nat)
      reads this, wal, memtable, blockCache
    {
      && cut <= |frame| && wal.file == old(wal.file) + frame[..cut] && memtable.entries == old(memtable.entries)
      && directory == old(directory) && ssts == old(ssts) && nextSstId == old(nextSstId) && leftover == old(leftover)
      && Run(states, events, config) && Final(states) == Snapshot(Ready, None)
      && events == old(events) + [AppendFails(unit, frame, cut)]
      && Shown() == Effect(AppendFails(unit, frame, cut), old(Shown()))
      && (Valid() <==> AppendSafe(memtable.entries, unit, frame, cut))
    }

    /** How a call that writes `unit` ends, where `strikes` says that flushing after it fails. */
    twostate predicate Outcome(unit: Unit, draws: Draws, fault: Fault, strikes: bool)
      reads this, wal, memtable, blockCache
    {
      if fault.AppendFault? then AppendFailed(unit, FrameOf(unit, config.crypto, draws), fault.cut)
      else Committed(unit, !strikes, draws)
    }

    /** Whether a write that leaves the memtable at `entries` flushes it and `fault` strikes then. */
    predicate FlushStrikes(fault: Fault, entries: Table)
      reads this
    {
      |entries| >= options.memtableFlushThreshold && Strikes(fault, entries)
    }

    /** The log already holds `unit`: the steps up to the memtable update. */
    ghost method NoteUnit(s0: State, unit: Unit, frame: Bytes)
      requires wal.crypto == config.crypto && FreshCrypto(config.crypto)
      requires GentleRun(states, events, config) && Final(states) == s0
      requires s0.phase.Ready? && s0.inFlight.None? && UnitWellFormed(unit)
      requires wal.file == s0.disk.wal + frame && Frames(frame, UnitRecord(unit), config.crypto)
      requires Snapshot(Ready, None).(disk := s0.disk) == s0.(mem := ApplyOps(UnitOps(unit), s0.mem))
      requires directory == s0.disk.ssts
      modifies this`states, this`events
      ensures At(Ready, Some(unit))
      ensures Ledger(events) == Ledger(old(events)) + [Promise(unit, false)]
      ensures Interruptions(events) == Interruptions(old(events))
    {
      hide Step, Ledger, GentleRun, Interruptions, UnitOps, ApplyOps, UnitWellFormed, UnitRecord, Frames, FreshCrypto;
      AppendStep(s0, unit, frame, config);
      states, events := states + [s0.(disk := s0.disk.(wal := wal.file), phase := Appended, inFlight := Some(unit))],
                        events + [Append(unit, frame)];
      RunGrows(old(states), old(events), states, events, config);
      Note(Update, Ready, Some(unit));
    }

    /** The log holds `cut` bytes of the frame and the call reports the error. */
    ghost method NoteFailedAppend(s0: State, unit: Unit, frame: Bytes, cut: nat)
      requires wal.crypto == config.crypto && FreshCrypto(config.crypto) && CacheHolds([])
      requires GentleRun(states, events, config) && Final(states) == s0 && Inv(s0, config)
      requires s0.phase.Ready? && s0.inFlight.None? && UnitWellFormed(unit) && cut <= |frame|
      requires wal.file == s0.disk.wal + frame[..cut] && Frames(frame, UnitRecord(unit), config.crypto)
      requires Snapshot(Ready, None).(disk := s0.disk) == s0 && directory == s0.disk.ssts
      modifies this`states, this`events
      ensures events == old(events) + [AppendFails(unit, frame, cut)]
      ensures Run(states, events, config) && Final(states) == Snapshot(Ready, None)
      ensures Shown() == Effect(AppendFails(unit, frame, cut), Contents(s0.disk, config.crypto))
      ensures Valid() <==> AppendSafe(memtable.entries, unit, frame, cut)
    {
      hide Step, Ledger, Interruptions, UnitOps, ApplyOps, UnitWellFormed, UnitRecord, Frames, FreshCrypto, Inv;
      hide AppendSafe, Contents, FilesOf, CachedReads.Coherent, Run, ApplyAllToDb, GentleRun;
      var e, s' := AppendFails(unit, frame, cut), Snapshot(Ready, None);
      GentleIsRun(states, events, config);
      AppendFailsStep(s0, e, s', config);
      AppendedWhole(s0, e, config);
      states, events := states + [s'], events + [e];
      RunSnoc(old(states), old(events), e, s', config);
      if AppendSafe(memtable.entries, unit, frame, cut) {
        RunGrows(old(states), old(events), states, events, config);
      }
      if GentleRun(states, events, config) {
        LastIsSafe(old(states), old(events), s', e, config);
      }
    }

    /** The rest of a write whose unit is in the log and the memtable. */
    method Complete(ghost unit: Unit, ghost before: seq<Promise>, draws: Draws, fault: Fault) returns (res: Result<()>)
      requires At(Ready, Some(unit)) && CacheHolds([]) && Room(memtable.entries, draws)
      requires Ledger(events) == before + [Promise(unit, false)]
      modifies this, wal, memtable, blockCache
      ensures res == if old(FlushStrikes(fault, memtable.entries)) then Failure(Io) else Success(())
      ensures Recorded(Ready, None) && CacheHolds([]) && Ledger(events) == before + [Promise(unit, res.Success?)]
      ensures Interruptions(events) == Interruptions(old(events)) + if res.Success? then 0 else 1
      ensures (Valid() <==> Survived()) && (Unhindered(draws) ==> leftover == old(leftover))
      ensures Survived() ==> Shown() == ApplyAllToDb(UnitOps(unit), ApplyAllToDb(LedgerOps(before), map[]))
    {
      hide Ledger, Contents, GentleRun, Interruptions, Inv, Room, Step, LedgerOps, ApplyAllToDb, UnitOps, FreshCrypto;
      hide CachedReads.Coherent, FilesOf, Strikes, Run, Gentle, Stack, NoResurrection;
      res := MaybeFlush(draws, fault, Some(unit));
      ReturnStep(Snapshot(Ready, Some(unit)), res.Success?, config);
      NoteAny(Return(res.Success?), Ready, None);
      LedgerSnoc(before, Promise(unit, res.Success?));
      ApplyAllConcat(LedgerOps(before), UnitOps(unit), map[]);
      if Survived() {
        ShownIsLedger(Ready, None);
      }
    }

    /** What follows the log record and the memtable update of `unit`. */
    method Finish(ghost s0: State, ghost unit: Unit, ghost frame: Bytes, draws: Draws, fault: Fault)
      returns (res: Result<()>)
      requires wal.crypto == config.crypto && FreshCrypto(config.crypto) && CacheHolds([])
      requires GentleRun(states, events, config) && Final(states) == s0
      requires s0.phase.Ready? && s0.inFlight.None? && UnitWellFormed(unit)
      requires wal.file == s0.disk.wal + frame && Frames(frame, UnitRecord(unit), config.crypto)
      requires Snapshot(Ready, None).(disk := s0.disk) == s0.(mem := ApplyOps(UnitOps(unit), s0.mem))
      requires directory == s0.disk.ssts && Room(memtable.entries, draws)
      requires Contents(s0.disk, config.crypto) == ApplyAllToDb(LedgerOps(Ledger(events)), map[])
      modifies this, wal, memtable, blockCache
      ensures res == if old(FlushStrikes(fault, memtable.entries)) then Failure(Io) else Success(())
      ensures Recorded(Ready, None) && CacheHolds([])
      ensures Ledger(events) == Ledger(old(events)) + [Promise(unit, res.Success?)]
      ensures Interruptions(events) == Interruptions(old(events)) + if res.Success? then 0 else 1
      ensures (Valid() <==> Survived()) && (Unhindered(draws) ==> leftover == old(leftover))
      ensures Survived() ==> Shown() == ApplyAllToDb(UnitOps(unit), Contents(s0.disk, config.crypto))
    {
      hide Ledger, Contents, GentleRun, Interruptions, Inv, Writable, Stack, LiveOnly, Step, LedgerOps, ApplyAllToDb;
      hide CachedReads.Coherent, FilesOf, Frames, ApplyOps, UnitWellFormed, UnitRecord, UnitOps, FreshCrypto, Run;
      hide NoResurrection;
      ghost var before := Ledger(events);
      NoteUnit(s0, unit, frame);
      res := Complete(unit, before, draws, fault);
    }

    method Put(key: Bytes, value: Bytes, draws: Draws, fault: Fault) returns (res: Result<()>)
      requires Valid() && |key| < U32_LIMIT && |value| < U32_LIMIT
      requires Room(memtable.entries[key := Some(value)], draws)
      requires Appendable(UnitOf(F.Put, key, Some(value)), config.crypto, draws, fault)
      modifies this, wal, memtable, blockCache
      ensures var unit := UnitOf(F.Put, key, Some(value));
        Outcome(unit, draws, fault,
                old(FlushStrikes(fault, memtable.entries[key := Some(value)])))
      ensures res == if fault.AppendFault? || old(FlushStrikes(fault, memtable.entries[key := Some(value)]))
                     then Failure(Io) else Success(())
      ensures !fault.AppendFault? && Survived() ==> Shown() == old(Shown())[key := value]
    {
      hide Ledger, Contents, GentleRun, Interruptions, Inv, Room, Step, LedgerOps, F.Encoded, ApplyOps, ApplyAllToDb;
      hide FreshCrypto, CachedReads.Coherent, FilesOf, Frames, Run, AppendSafe, OnDisk, FlushStrikes;
      ghost var s0, unit := Snapshot(Ready, None), UnitOf(F.Put, key, Some(value));
      ghost var frame := FrameOf(unit, config.crypto, draws);
      ShownIsLedger(Ready, None);
      OnDiskFrames(unit, config.crypto, draws.nonce, draws.ciphertext);
      var written := wal.Append(F.Put, key, Some(value), draws.nonce, draws.ciphertext, CutOf(fault));
      if written.Failure? {
        NoteFailedAppend(s0, unit, frame, fault.cut);
        return Failure(Io);
      }
      memtable.Put(key, value);
      PutOps(key, value, s0.mem, Shown());
      res := Finish(s0, unit, frame, draws, fault);
      PutOps(key, value, s0.mem, old(Shown()));
    }

    method Delete(key: Bytes, draws: Draws, fault: Fault) returns (res: Result<()>)
      requires Valid() && |key| < U32_LIMIT && Room(memtable.entries[key := None], draws)
      requires Appendable(UnitOf(F.Delete, key, None), config.crypto, draws, fault)
      modifies this, wal, memtable, blockCache
      ensures var unit := UnitOf(F.Delete, key, None);
        Outcome(unit, draws, fault,
                old(FlushStrikes(fault, memtable.entries[key := None])))
      ensures res == if fault.AppendFault? || old(FlushStrikes(fault, memtable.entries[key := None]))
                     then Failure(Io) else Success(())
      ensures !fault.AppendFault? && Survived() ==> Shown() == old(Shown()) - {key}
    {
      hide Ledger, Contents, GentleRun, Interruptions, Inv, Room, Step, LedgerOps, F.Encoded, ApplyOps, ApplyAllToDb;
      hide FreshCrypto, CachedReads.Coherent, FilesOf, Frames, Run, AppendSafe, OnDisk, FlushStrikes;
      ghost var s0, unit := Snapshot(Ready, None), UnitOf(F.Delete, key, None);
      ghost var frame := FrameOf(unit, config.crypto, draws);
      ShownIsLedger(Ready, None);
      OnDiskFrames(unit, config.crypto, draws.nonce, draws.ciphertext);
      var written := wal.Append(F.Delete, key, None, draws.nonce, draws.ciphertext, CutOf(fault));
      if written.Failure? {
        NoteFailedAppend(s0, unit, frame, fault.cut);
        return Failure(Io);
      }
      memtable.Delete(key);
      DeleteOps(key, s0.mem, Shown());
      res := Finish(s0, unit, frame, draws, fault);
      DeleteOps(key, s0.mem, old(Shown()));
    }

    predicate BatchStrikes(batch: seq<(Bytes, Slot)>, fault: Fault)
      reads this, memtable
    {
      FlushStrikes(fault, ApplyOps(FlatAll(BatchOps(batch)), memtable.entries))
    }

    /** All of a batch or, when it is empty or too long, nothing. */
    method ApplyBatch(batch: seq<(Bytes, Slot)>, draws: Draws, fault: Fault) returns (res: Result<()>)
      requires Valid() && BatchFits(batch)
      requires Room(ApplyOps(FlatAll(BatchOps(batch)), memtable.entries), draws)
      requires Appendable(Group(BatchOps(batch)), config.crypto, draws, fault)
      modifies this, wal, memtable, blockCache
      ensures var unit, strikes := Group(BatchOps(batch)), old(BatchStrikes(batch, fault));
        if batch == [] || |batch| > 10_000 then Valid() && Quiet() && Shown() == old(Shown())
        else Outcome(unit, draws, fault, strikes)
      ensures res == if batch == [] then Success(())
                     else if |batch| > 10_000 then Failure(WalBatchTooLarge(|batch|, 10_000))
                     else if fault.AppendFault? || old(BatchStrikes(batch, fault)) then Failure(Io)
                     else Success(())
    {
      hide Ledger, Contents, GentleRun, Interruptions, Inv, Room, Step, LedgerOps, F.Encoded, ApplyOps, ApplyAllToDb;
      hide FreshCrypto, CachedReads.Coherent, FilesOf, Frames, Run, AppendSafe, OnDisk, FlushStrikes;
      hide F.BatchPayload, FlatAll, BatchOps;
      if batch == [] {
        return Success(());
      }
      ghost var s0, unit := Snapshot(Ready, None), Group(BatchOps(batch));
      ghost var frame := FrameOf(unit, config.crypto, draws);
      ShownIsLedger(Ready, None);
      var written := wal.AppendBatch(BatchOps(batch), draws.nonce, draws.ciphertext, CutOf(fault));
      if |batch| > F.MAX_BATCH_OPS {
        return Failure(written.error);
      }
      BatchOpsWellFormed(batch);
      OnDiskFrames(unit, config.crypto, draws.nonce, draws.ciphertext);
      if written.Failure? {
        NoteFailedAppend(s0, unit, frame, fault.cut);
        return Failure(Io);
      }
      UpdateMemtable(memtable, batch);
      res := Finish(s0, unit, frame, draws, fault);
    }

    /** Memtable first, then the files from newest to oldest, each through the block cache; the first that
        mentions the key decides. */
    method Get(key: Bytes) returns (value: Slot)
      requires Valid()
      modifies blockCache
      ensures Valid() && value == if key in Shown() then Some(Shown()[key]) else None
    {
      hide Ledger, Contents, GentleRun, Interruptions, Inv, Step, Reads.Get, Sound, Stack, FreshCrypto;
      hide CachedReads.Coherent, FilesOf;
      ShownIsLedger(Ready, None);
      Reads.GetIsContents(Snapshot(Ready, None), config, key);
      assert Reads.Get(memtable.entries, ssts, config, key)
          == Success(if key in Shown() then Some(Shown()[key]) else None);
      ListedAscend(Snapshot(Ready, None), config);
      value := Lookups(key);
    }

    method Lookups(key: Bytes) returns (value: Slot)
      requires AllSound(ssts, config) && AscendingIds(ssts) && CacheHolds([])
      modifies blockCache
      ensures CacheHolds([]) && Reads.Get(memtable.entries, ssts, config, key) == Success(value)
    {
      hide Reads.GetIn, Sound, AscendingIds, AllSound, CacheHolds;
      var hit := memtable.Get(key);
      if hit.Some? {
        return hit.value;
      }
      var i := |ssts|;
      assert ssts[..i] == ssts;
      while i > 0
        invariant 0 <= i <= |ssts| && CacheHolds([]) && AllSound(ssts[..i], config)
        invariant Reads.GetIn(ssts, config, key) == Reads.GetIn(ssts[..i], config, key)
      {
        i := i - 1;
        LookupStep(ssts, i, config, key);
        var found := LookupIn(i, key);
        if found.Some? {
          return found.value;
        }
      }
      LookupEnd(config, key);
      assert ssts[..0] == [];
      return None;
    }

    /** One file's part of a lookup. */
    method LookupIn(i: nat, key: Bytes) returns (found: Option<Slot>)
      requires i < |ssts| && Sound(ssts[i], config) && AscendingIds(ssts) && CacheHolds([])
      modifies blockCache
      ensures CacheHolds([]) && found == Lookup(TableIn(ssts[i]), key)
    {
      hide SstReader.Load, SstReader.Get, TableIn, CachedReads.Coherent, FilesOf, SstScan.Genuine, AscendingIds;
      assert [] + ssts == ssts;
      FilesOfAt(ssts, i);
      Reads.SoundGet(ssts[i], config, key);
      var loaded := SstReader.Load(ssts[i]).value;
      var blocksRead;
      found, blocksRead :=
        CachedReads.GetThrough(blockCache, FilesOf(ssts), ssts[i], loaded, config.hasher, TableIn(ssts[i]), key);
    }

    /** Every live key with `prefix`, in ascending order, with its current value. */
    method ScanPrefix(prefix: Bytes) returns (entries: seq<Entry>)
      requires Valid()
      ensures Reads.Lists(entries, Shown(), SstScan.CarriesPrefix(prefix))
    {
      hide Ledger, Contents, GentleRun, Interruptions, Inv, Step, Sound, Stack, Ascending, AsTable, StrictlySorted, LiveOnly;
      hide FreshCrypto, CachedReads.Coherent, FilesOf;
      hide Reads.ScanAll, SstScan.Prunes;
      var q := Reads.PrefixQuery(prefix);
      ShownIsLedger(Ready, None);
      ListedAreSound(Snapshot(Ready, None), config);
      SstScan.PrefixPrunes(prefix);
      Reads.ScanIsContents(Snapshot(Ready, None), config, q);
      ghost var spec := Reads.ScanAll(memtable.entries, ssts, q);
      var merged: Table := map[];
      StackNothing(q);
      for i := 0 to |ssts|
        invariant Reads.ScanIn(ssts[..i], q) == Success(merged)
      {
        ScanStep(ssts, i, config, q);
        var loaded := SstReader.Load(ssts[i]).value;
        var matches := SstScan.EntriesWithPrefix(ssts[i], loaded, prefix);
        merged := Reads.InsertAll(merged, matches.value.0);
      }
      assert ssts[..|ssts|] == ssts;
      merged := InsertKept(merged, memtable.Iter(), q.keep);
      entries := LiveEntries(memtable.entries, ssts, q, merged);
    }

    /** Every live key in `[start, end)`, in ascending order, with its current value. */
    method ScanRange(start: Bytes, end: Bytes) returns (entries: seq<Entry>)
      requires Valid()
      ensures Reads.Lists(entries, Shown(), SstScan.InRangeOf(start, end))
    {
      hide Ledger, Contents, GentleRun, Interruptions, Inv, Step, Sound, Stack, Ascending, AsTable, StrictlySorted, LiveOnly;
      hide FreshCrypto, CachedReads.Coherent, FilesOf;
      hide Reads.ScanAll, SstScan.Prunes;
      if !Lt(start, end) {
        NothingInRange(Shown(), start, end);
        return [];
      }
      var q := Reads.RangeQuery(start, end);
      ShownIsLedger(Ready, None);
      ListedAreSound(Snapshot(Ready, None), config);
      SstScan.RangePrunes(start, end);
      Reads.ScanIsContents(Snapshot(Ready, None), config, q);
      var merged: Table := map[];
      StackNothing(q);
      for i := 0 to |ssts|
        invariant Reads.ScanIn(ssts[..i], q) == Success(merged)
      {
        ScanStep(ssts, i, config, q);
        var loaded := SstReader.Load(ssts[i]).value;
        var matches := SstScan.EntriesWithRange(ssts[i], loaded, start, end);
        merged := Reads.InsertAll(merged, matches.value.0);
      }
      assert ssts[..|ssts|] == ssts;
      merged := InsertKept(merged, memtable.Iter(), q.keep);
      entries := LiveEntries(memtable.entries, ssts, q, merged);
    }

    /** One page of a range scan; `Paging.PageIsContents` says what it covers. */
    method ScanRangePage(start: Bytes, end: Bytes, limit: nat) returns (page: Paging.ScanPage)
      requires Valid()
      ensures Paging.Page(memtable.entries, ssts, start, end, limit) == Success(page)
    {
      hide Ledger, Contents, GentleRun, Interruptions, Inv, Step, Sound, Ascending, AsTable, StrictlySorted, LiveOnly;
      hide FreshCrypto, CachedReads.Coherent, FilesOf;
      hide Paging.LimitedIn, Reads.InsertAll, Paging.UpTo, Reads.Restrict, TableIn;
      if !Lt(start, end) || limit == 0 {
        return Paging.ScanPage([], None);
      }
      ShownIsLedger(Ready, None);
      ListedAreSound(Snapshot(Ready, None), config);
      var merged: Table, frontier: Option<Bytes> := map[], None;
      ghost var sources: seq<Paging.Source> := [];
      for i := 0 to |ssts|
        invariant Paging.SourcesIn(ssts[..i], start, end, limit) == Success(sources)
        invariant merged == Paging.MergeSources(sources) && frontier == Paging.Frontier(sources)
      {
        PageStep(ssts, i, config, start, end, limit);
        var loaded := SstReader.Load(ssts[i]).value;
        var matches := Paging.EntriesWithRangeLimited(ssts[i], loaded, start, end, limit);
        merged, frontier := Collect(sources, matches.value, merged, frontier);
        sources := sources + [matches.value];
      }
      assert ssts[..|ssts|] == ssts;
      var taken := Paging.TakeFromMemtable(memtable.Iter(), start, end, limit);
      merged, frontier := Collect(sources, taken, merged, frontier);
      match frontier
      case None => page := Paging.ScanPage(Ascending(LiveOnly(merged)), None);
      case Some(f) =>
        page := Paging.ScanPage(Ascending(LiveOnly(Reads.Restrict(merged, Paging.UpTo(f)))), Some(f + [0]));
    }
  }

  /** How many bytes of a failing append get out. */
  function CutOf(fault: Fault): Option<nat> {
    if fault.AppendFault? then Some(fault.cut) else None
  }

  /** Inserts what one more source returned and clips the frontier to it. */
  method Collect(ghost sources: seq<Paging.Source>, src: Paging.Source, merged: Table, frontier: Option<Bytes>)
    returns (merged': Table, frontier': Option<Bytes>)
    requires merged == Paging.MergeSources(sources) && frontier == Paging.Frontier(sources)
    ensures merged' == Paging.MergeSources(sources + [src]) && frontier' == Paging.Frontier(sources + [src])
  {
    hide Reads.InsertAll;
    assert (sources + [src])[..|sources|] == sources;
    merged' := Reads.InsertAll(merged, src.out);
    frontier' := frontier;
    if src.truncated {
      var last := Paging.Last(src);
      if frontier.None? || !Lt(frontier.value, last) {
        frontier' := Some(last);
      }
    }
  }

  lemma PageStep(ssts: seq<SstOnDisk>, i: nat, c: Config, start: Bytes, end: Bytes, limit: nat)
    requires AllSound(ssts, c) && i < |ssts| && limit > 0
    ensures SstReader.Load(ssts[i]).Success? && Paging.LimitedIn(ssts[i], start, end, limit).Success?
    ensures var loaded := SstReader.Load(ssts[i]).value;
      Paging.LimitedIn(ssts[i], start, end, limit)
      == Paging.ScanLimited(ssts[i], loaded.index, SstReader.PartitionPoint(loaded.index, start), end,
                            SstScan.InRangeOf(start, end), limit, 0)
    ensures Paging.SourcesIn(ssts[..i], start, end, limit).Success? ==>
              Paging.SourcesIn(ssts[..i + 1], start, end, limit)
              == Success(Paging.SourcesIn(ssts[..i], start, end, limit).value
                         + [Paging.LimitedIn(ssts[i], start, end, limit).value])
  {
    hide SstReader.Load, Paging.ScanLimited, Paging.Starts, TableIn;
    assert Sound(ssts[i], c);
    Paging.LimitedSound(ssts[i], c, start, end, limit);
    assert ssts[..i + 1][..i] == ssts[..i];
  }

  lemma NothingInRange(db: Db, start: Bytes, end: Bytes)
    requires !Lt(start, end)
    ensures Reads.Lists([], db, SstScan.InRangeOf(start, end))
  {
    forall key
      ensures !SstScan.InRangeOf(start, end)(key)
    {
      NotLtIsAtMost(start, end);
      NotLtIsAtMost(key, start);
      if AtMost(start, key) {
        AtMostTransitive(end, start, key);
        NotLtIsAtMost(key, end);
      }
    }
  }

  lemma StackNothing(q: Reads.Query)
    ensures Reads.ScanIn([], q) == Success(map[])
  {
  }

  /** The next file of a scan. */
  lemma ScanStep(ssts: seq<SstOnDisk>, i: nat, c: Config, q: Reads.Query)
    requires AllSound(ssts, c) && i < |ssts| && q.Valid()
    ensures SstReader.Load(ssts[i]).Success? && Reads.MatchesIn(ssts[i], q).Success?
    ensures Reads.ScanIn(ssts[..i], q).Success? ==>
              Reads.ScanIn(ssts[..i + 1], q)
              == Success(Reads.InsertAll(Reads.ScanIn(ssts[..i], q).value, Reads.MatchesIn(ssts[i], q).value))
  {
    hide SstReader.Load, SstScan.Scan, SstScan.Prunes, Reads.InsertAll;
    assert Sound(ssts[i], c);
    Reads.MatchesSound(ssts[i], c, q);
    assert ssts[..i + 1][..i] == ssts[..i];
  }

  /** The memtable's part of a scan, on top. */
  method InsertKept(base: Table, entries: seq<Entry>, keep: Bytes -> bool) returns (merged: Table)
    requires StrictlySorted(entries)
    ensures merged == base + Reads.Restrict(AsTable(entries), keep)
  {
    hide AsTable, StrictlySorted, Reads.Restrict;
    merged := base;
    for i := 0 to |entries|
      invariant merged == Reads.InsertAll(base, SstScan.Select(entries[..i], keep))
    {
      SelectNext(base, entries, i, keep);
      if keep(entries[i].key) {
        merged := merged[entries[i].key := entries[i].value];
      }
    }
    assert entries[..|entries|] == entries;
    Reads.SelectSorted(entries, keep);
    Reads.InsertSorted(base, SstScan.Select(entries, keep));
  }

  lemma SelectNext(base: Table, entries: seq<Entry>, i: nat, keep: Bytes -> bool)
    requires i < |entries|
    ensures var before := SstScan.Select(entries[..i], keep);
      Reads.InsertAll(base, SstScan.Select(entries[..i + 1], keep))
      == if keep(entries[i].key) then Reads.InsertAll(base, before)[entries[i].key := entries[i].value]
         else Reads.InsertAll(base, before)
  {
    hide Reads.InsertAll;
    var before, one := SstScan.Select(entries[..i], keep), [entries[i]];
    assert entries[..i + 1] == entries[..i] + one;
    SstScan.SelectConcat(entries[..i], one, keep);
    SstScan.SelectOne(entries[i], keep);
    if keep(entries[i].key) {
      InsertSnoc(base, before, entries[i]);
    } else {
      assert before + [] == before;
    }
  }

  lemma InsertSnoc(base: Table, entries: seq<Entry>, last: Entry)
    ensures Reads.InsertAll(base, entries + [last]) == Reads.InsertAll(base, entries)[last.key := last.value]
  {
    assert (entries + [last])[..|entries|] == entries;
  }

  /** The merged states in key order, tombstones dropped. */
  method LiveEntries(ghost mem: Table, ghost ssts: seq<SstOnDisk>, ghost q: Reads.Query, merged: Table)
    returns (entries: seq<Entry>)
    requires Reads.ScanIn(ssts, q).Success? && merged == Reads.ScanIn(ssts, q).value + Reads.Restrict(mem, q.keep)
    ensures Reads.ScanAll(mem, ssts, q) == Success(entries)
  {
    hide Reads.ScanIn;
    entries := Ascending(LiveOnly(merged));
  }

  /** The log form of a staged batch. */
  function BatchOps(batch: seq<(Bytes, Slot)>): (r: seq<F.BatchOp>)
    ensures |r| == |batch|
  {
    if batch == [] then []
    else
      var n := |batch| - 1;
      BatchOps(batch[..n]) + [F.BatchOp(if batch[n].1.Some? then F.Put else F.Delete, batch[n].0, batch[n].1)]
  }

  /** Every length and the whole record fit their fields. */
  predicate BatchFits(batch: seq<(Bytes, Slot)>) {
    && (forall i :: 0 <= i < |batch| ==>
          |batch[i].0| < U32_LIMIT && (batch[i].1.Some? ==> |batch[i].1.value| < U32_LIMIT))
    && |F.BatchPayload(BatchOps(batch))| < U32_LIMIT
  }

  lemma {:induction false} BatchOpsWellFormed(batch: seq<(Bytes, Slot)>)
    requires forall i :: 0 <= i < |batch| ==>
               |batch[i].0| < U32_LIMIT && (batch[i].1.Some? ==> |batch[i].1.value| < U32_LIMIT)
    ensures F.SubOpsWellFormed(BatchOps(batch))
  {
    if batch != [] {
      BatchOpsWellFormed(batch[..|batch| - 1]);
    }
  }

  lemma {:induction false} FlatAllSnoc(ops: seq<F.BatchOp>, last: F.BatchOp)
    ensures FlatAll(ops + [last]) == FlatAll(ops) + [WalLog.Flat(last)]
  {
    if ops == [] {
      assert ops + [last] == [last] && [last][1..] == [];
    } else {
      assert (ops + [last])[1..] == ops[1..] + [last];
      FlatAllSnoc(ops[1..], last);
    }
  }

  method UpdateMemtable(memtable: Memtable, batch: seq<(Bytes, Slot)>)
    modifies memtable
    ensures memtable.entries == ApplyOps(FlatAll(BatchOps(batch)), old(memtable.entries))
  {
    hide BatchOps, FlatAll;
    UpdateNothing(memtable.entries);
    for i := 0 to |batch|
      invariant memtable.entries == ApplyOps(FlatAll(BatchOps(batch[..i])), old(memtable.entries))
    {
      var (key, value) := batch[i];
      UpdateOne(batch, i, old(memtable.entries));
      match value
      case Some(v) => memtable.Put(key, v);
      case None => memtable.Delete(key);
    }
    assert batch[..|batch|] == batch;
  }

  lemma UpdateNothing(t: Table)
    ensures ApplyOps(FlatAll(BatchOps([])), t) == t
  {
  }

  lemma UpdateOne(batch: seq<(Bytes, Slot)>, i: nat, t: Table)
    requires i < |batch|
    ensures ApplyOps(FlatAll(BatchOps(batch[..i + 1])), t)
         == ApplyOps(FlatAll(BatchOps(batch[..i])), t)[batch[i].0 := batch[i].1]
  {
    var ops := BatchOps(batch[..i]);
    var last := F.BatchOp(if batch[i].1.Some? then F.Put else F.Delete, batch[i].0, batch[i].1);
    assert batch[..i + 1][..i] == batch[..i];
    assert BatchOps(batch[..i + 1]) == ops + [last];
    FlatAllSnoc(ops, last);
    assert (FlatAll(ops) + [WalLog.Flat(last)])[..|ops|] == FlatAll(ops);
  }

  lemma PutOps(key: Bytes, value: Bytes, t: Table, db: Db)
    ensures var ops := UnitOps(UnitOf(F.Put, key, Some(value)));
      ApplyOps(ops, t) == t[key := Some(value)] && ApplyAllToDb(ops, db) == db[key := value]
  {
    var ops := UnitOps(UnitOf(F.Put, key, Some(value)));
    assert ops[..0] == [];
  }

  lemma DeleteOps(key: Bytes, t: Table, db: Db)
    ensures var ops := UnitOps(UnitOf(F.Delete, key, None));
      ApplyOps(ops, t) == t[key := None] && ApplyAllToDb(ops, db) == db - {key}
  {
    var ops := UnitOps(UnitOf(F.Delete, key, None));
    assert ops[..0] == [];
  }

  lemma NothingCached(files: CachedReads.Files)
    ensures CachedReads.Coherent([], files)
  {
    hide CachedReads.BlockOf;
  }

  /** What an open after any run finds and does. */
  lemma Reopened(states: seq<State>, events: seq<Event>, c: Config)
    requires GentleRun(states, events, c) && Final(states).phase.Down?
    ensures var disk, replayed := Final(states).disk, ReplayLog(Final(states).disk.wal, c.crypto);
      && replayed.Success?
      && var s' := State(disk.(wal := disk.wal[..replayed.value.1]), Ready, ApplyOps(replayed.value.0, map[]), disk.ssts,
                         NextId(disk.ssts), None, []);
         Step(Final(states), Reopen, s', c) && Contents(s'.disk, c.crypto) == Contents(disk, c.crypto)
  {
    hide Step, Inv, LoadAll, Ledger, GentleRun, ReplayLog, ApplyOps, NextId, Contents, Interruptions, Final;
    CrashConsistency(states, events, c);
    var s := Final(states);
    ReopenSucceeds(s, c);
    var s' := Store.Open(s.disk, c.crypto).value;
    ReopenStep(s, s', c);
    StepKeeps(s, Reopen, s', c);
  }

  lemma NextRename(s: State, sst: SstOnDisk, c: Config)
    requires Inv(s, c) && s.phase.Ready? && s.mem != map[]
    requires Written(sst.file, s.nextId, s.mem, c) && sst.id == s.nextId && sst.crypto == c.crypto
    ensures Placed(s.disk.ssts, sst) == s.leftover + s.listed + [sst] && Stack(s.listed + [sst]) == Stack(s.listed) + s.mem
    ensures Step(s, FlushRename(sst.file),
                 s.(disk := s.disk.(ssts := s.leftover + s.listed + [sst]), phase := Renamed), c)
  {
    hide Inv, Step, Written, Stack, Placed;
    RenameStep(s, sst.file, c);
    assert SstOnDisk(s.nextId, sst.file, c.crypto) == sst;
  }

  lemma DirectoryAscends(s: State, c: Config)
    requires Inv(s, c)
    ensures AscendingIds(s.disk.ssts)
  {
  }

  lemma SuffixOf(a: seq<SstOnDisk>, b: seq<SstOnDisk>)
    requires AscendingIds(a + b)
    ensures AscendingIds(b)
  {
    assert forall i :: 0 <= i < |b| ==> (a + b)[|a| + i] == b[i];
  }

  /** In a store whose steps were all safe, nothing alive is left over that the open files lack. */
  lemma NothingReturns(s: State, c: Config)
    requires Inv(s, c) && (s.phase.Ready? || s.phase == Merging([]))
    ensures NoResurrection(Stack(s.leftover), Stack(s.listed))
  {
    hide LogWhole, Sound, Stack, Logged, Shows, NoResurrection;
    var orphan :| RunningInv(s, orphan, c);
    assert s.leftover + [] == s.leftover;
  }

  lemma RunLengths(states: seq<State>, events: seq<Event>, c: Config)
    requires Run(states, events, c)
    ensures |states| == |events| + 1 && states[|events|] == Final(states)
  {
    hide Step;
  }

  lemma GentleIs(states: seq<State>, events: seq<Event>, c: Config)
    requires Run(states, events, c)
    ensures GentleRun(states, events, c) <==> Gentle(states, events)
  {
    hide Step, Safe;
  }

  lemma AllRemoved(stale: seq<SstOnDisk>, draws: Draws)
    ensures Unhindered(draws) ==> FailedRemovals.Kept(stale, Staying(draws, |stale|)) == []
  {
    if Unhindered(draws) {
      FailedRemovals.KeptNone(stale, Staying(draws, |stale|));
    }
  }

  /** Some key of the files left over lives, and neither the files yet to be removed nor the merged one mention it. */
  ghost predicate Revives(leftover: Table, stale: Table, merged: Table) {
    exists key :: key in leftover && leftover[key].Some? && key !in stale && key !in merged
  }

  lemma RevivesEnds(leftover: Table, merged: Table)
    requires Revives(leftover, Stack([]), merged)
    ensures !NoResurrection(leftover, merged)
  {
  }

  /** An unsafe removal brings a key back for good, whatever is removed after it. */
  lemma RevivesNext(leftover: seq<SstOnDisk>, oldSsts: seq<SstOnDisk>, i: nat, listed: seq<SstOnDisk>, fails: bool)
    requires i < |oldSsts| && Stack(listed) == LiveOnly(Stack(oldSsts))
    ensures var rest, merged := Stack(oldSsts[i + 1..]), Stack(listed);
      var left' := Stack(leftover + if fails then [oldSsts[i]] else []);
      && (Revives(Stack(leftover), Stack(oldSsts[i..]), merged) ==> Revives(left', rest, merged))
      && (!fails && !NoResurrection(Stack(leftover + oldSsts[i + 1..]), merged) ==> Revives(left', rest, merged))
  {
    hide TableIn, Merge, LiveOnly;
    var one, more := [oldSsts[i]], oldSsts[i + 1..];
    assert oldSsts[i..] == one + more && oldSsts == oldSsts[..i + 1] + more && leftover + [] == leftover;
    StackConcat(one, more);
    StackConcat(oldSsts[..i + 1], more);
    StackConcat(leftover, one);
    StackConcat(leftover, more);
    RevivesOn(Stack(leftover), Stack(one), Stack(oldSsts[..i + 1]), Stack(more), fails);
  }

  lemma RevivesOn(leftover: Table, one: Table, done: Table, more: Table, fails: bool)
    ensures var merged := LiveOnly(done + more);
      && (Revives(leftover, one + more, merged) ==> Revives(if fails then leftover + one else leftover, more, merged))
      && (!NoResurrection(leftover + more, merged) ==> Revives(leftover, more, merged))
  {
    hide LiveOnly;
    var merged, left' := LiveOnly(done + more), if fails then leftover + one else leftover;
    if Revives(leftover, one + more, merged) {
      var key :| key in leftover && leftover[key].Some? && key !in one + more && key !in merged;
      assert key in left' && left'[key].Some? && key !in more;
    }
    if !NoResurrection(leftover + more, merged) {
      var key :| key in leftover + more && key !in merged && (leftover + more)[key].Some?;
      if key in more {
        TopLives(done, more, key);
        assert false;
      }
    }
  }

  lemma TopLives(done: Table, more: Table, key: Bytes)
    requires key in more && more[key].Some?
    ensures key in LiveOnly(done + more)
  {
  }

  /** What a reopen shows after a merge: what was left over lies beneath what it showed before. */
  lemma MergedShown(leftover: seq<SstOnDisk>, listed: seq<SstOnDisk>, wal: Bytes, before: Table, crypto: Crypto)
    requires Stack(listed) == LiveOnly(before) && Logged(wal, crypto) == map[]
    ensures var shown := Contents(Disk(wal, leftover + listed), crypto);
      && shown == Live(Stack(leftover)) + Live(Stack(listed))
      && (NoResurrection(Stack(leftover), Stack(listed)) ==> shown == Live(Stack(listed)))
  {
    hide Live, LiveOnly, Stack, NoResurrection, Logged;
    StackConcat(leftover, listed);
    FailedRemovals.LeftBeneath(Stack(leftover), before);
    HiddenIff(Stack(leftover), Stack(listed));
    var shown := Stack(leftover) + Stack(listed);
    assert shown + map[] == shown;
  }

  lemma SoundEntries(ssts: seq<SstOnDisk>, i: nat, c: Config)
    requires AllSound(ssts, c) && i < |ssts|
    ensures var loaded := SstReader.Load(ssts[i]);
      loaded.Success?
      && var res := SstScan.Scan(ssts[i], loaded.value.index, 0, SstScan.NEVER, SstScan.EVERYTHING);
         res.Success? && StrictlySorted(res.value) && AsTable(res.value) == TableIn(ssts[i])
  {
    hide SstReader.Load, SstScan.Scan, StrictlySorted, AsTable;
    assert Sound(ssts[i], c);
    SstScan.GenuineEntries(ssts[i], c.hasher, TableIn(ssts[i]));
  }

  lemma ListedAscend(s: State, c: Config)
    requires Inv(s, c) && s.phase.Ready?
    ensures AscendingIds(s.listed)
  {
    hide LogWhole, Sound, Stack, Logged, NoResurrection, AscendingIds, Shows;
    var orphan :| RunningInv(s, orphan, c);
    assert s.disk.ssts == s.leftover + s.listed + orphan;
    PrefixAscends(s.leftover + s.listed, orphan);
    SuffixOf(s.leftover, s.listed);
  }

  lemma PrefixAscends(a: seq<SstOnDisk>, b: seq<SstOnDisk>)
    requires AscendingIds(a + b)
    ensures AscendingIds(a)
  {
    assert forall i :: 0 <= i < |a| ==> (a + b)[i] == a[i];
  }

  /** Asking the next older file. */
  lemma LookupStep(ssts: seq<SstOnDisk>, i: nat, c: Config, key: Bytes)
    requires i < |ssts| && AllSound(ssts[..i + 1], c)
    ensures Sound(ssts[i], c) && AllSound(ssts[..i], c)
    ensures var hit := Lookup(TableIn(ssts[i]), key);
      Reads.GetIn(ssts[..i + 1], c, key) == if hit.Some? then Success(hit.value) else Reads.GetIn(ssts[..i], c, key)
  {
    hide SstReader.Load, SstReader.Get, TableIn, Sound;
    assert ssts[..i + 1][..i] == ssts[..i] && ssts[..i + 1][i] == ssts[i];
    Reads.SoundGet(ssts[i], c, key);
  }

  lemma LookupEnd(c: Config, key: Bytes)
    ensures Reads.GetIn([], c, key) == Success(None)
  {
  }

  lemma ListedAreSound(s: State, c: Config)
    requires Inv(s, c) && s.phase.Ready?
    ensures AllSound(s.listed, c)
  {
    hide Sound, LogWhole, Shows;
    var orphan :| RunningInv(s, orphan, c);
    Reads.ListedSound(s, orphan, c);
  }
}
