/** Rebuilding the derived indexes (`store::repair::rebuild_indexes`): mappings and allocator, full-text index, vector
    graph. What a run keeps at every crash, when it succeeds, and what a run after a crash does. */
module Repairs {
  import opened Bytes
  import opened Results
  import opened Tables
  import opened Layers
  import opened Keys
  import opened MemoryFormats
  import opened VectorFormats
  import opened Reindexing
  import opened VectorRebuilds
  import F = WalFormat

  datatype Report =
    Report(mappings: nat, documents: nat, vectorGraph: bool, reembedding: seq<(Bytes, Bytes)>)

  function Documents(records: seq<Record>): nat {
    if records == [] then 0
    else
      var n := |records| - 1;
      Documents(records[..n]) + if records[n].stored.content == [] then 0 else 1
  }

  function RecordsOf(db: Db, parts: Parts): seq<Record> {
    if LoadRecords(db, parts).Success? then LoadRecords(db, parts).value else []
  }

  function ReportOf(records: seq<Record>, missing: seq<(Bytes, Bytes)>, vectors: Result<bool>): Result<Report> {
    match vectors
    case Failure(e) => Failure(e)
    case Success(rebuilt) => Success(Report(|records|, Documents(records), rebuilt, missing))
  }

  function Rebuild(db: Db, parts: Parts): Outcome<Report> {
    var indexed := Reindex(db, parts);
    match indexed.res
    case Failure(e) => Outcome(indexed.commits, Failure(e))
    case Success(missing) =>
      var vectors := VectorRun(FinalOf(db, indexed), parts);
      Outcome(indexed.commits + vectors.commits, ReportOf(RecordsOf(db, parts), missing, vectors.res))
  }

  // ── primary data ───────────────────────────────────────────────────────

  /** Everything the rebuild does not own. */
  predicate Primary(key: Bytes) {
    Untouched(key) && !IsVector(key)
  }

  function PrimaryPart(db: Db): Db {
    map key | key in db && Primary(key) :: db[key]
  }

  lemma VectorIsUntouched(key: Bytes)
    ensures IsVector(key) ==> Untouched(key)
  {
    hide Ascii;
    KeyClasses(key);
  }

  lemma UntouchedAt(a: Db, b: Db, key: Bytes)
    requires UntouchedPart(a) == UntouchedPart(b) && Untouched(key)
    ensures ValueAt(a, key) == ValueAt(b, key)
  {
    hide IsMapping, IsFts, Ascii;
    assert key in UntouchedPart(a) <==> key in a;
    assert key in UntouchedPart(b) <==> key in b;
  }

  lemma SameVectorKeys(a: Db, b: Db)
    requires UntouchedPart(a) == UntouchedPart(b)
    ensures forall key :: IsVector(key) ==> ValueAt(a, key) == ValueAt(b, key)
    ensures ValueAt(a, VECTOR_META_KEY) == ValueAt(b, VECTOR_META_KEY)
  {
    hide UntouchedPart, IsNode, ValueAt, Ascii;
    forall key | IsVector(key)
      ensures ValueAt(a, key) == ValueAt(b, key)
    {
      VectorIsUntouched(key);
      UntouchedAt(a, b, key);
    }
    assert IsVector(VECTOR_META_KEY);
  }

  lemma PrimaryOfUntouched(a: Db, b: Db)
    requires UntouchedPart(a) == UntouchedPart(b)
    ensures PrimaryPart(a) == PrimaryPart(b)
  {
    hide UntouchedPart, IsVector, Ascii;
    forall key | Primary(key)
      ensures ValueAt(a, key) == ValueAt(b, key)
    {
      UntouchedAt(a, b, key);
    }
    SamePrimaryAt(a, b);
  }

  lemma SamePrimaryAt(a: Db, b: Db)
    requires forall key :: Primary(key) ==> ValueAt(a, key) == ValueAt(b, key)
    ensures PrimaryPart(a) == PrimaryPart(b)
  {
    hide Primary;
  }

  /** The first two phases leave the vector index alone. */
  lemma SameVectors(a: Db, b: Db)
    requires UntouchedPart(a) == UntouchedPart(b)
    ensures PrimaryPart(a) == PrimaryPart(b) && LivePart(a) == LivePart(b) && (NodesFine(a) <==> NodesFine(b))
    ensures ScanPrefix(a, NODE_PREFIX) == ScanPrefix(b, NODE_PREFIX) && BlockDims(a) == BlockDims(b)
    ensures ValueAt(a, VECTOR_META_KEY) == ValueAt(b, VECTOR_META_KEY)
  {
    hide UntouchedPart, PrimaryPart, LivePart, NodesFine, BlockDims, ScanPrefix, ValueAt, IsVector, Ascii;
    SameScan(a, b, NODE_PREFIX);
    PrimaryOfUntouched(a, b);
    SameVectorKeys(a, b);
    NodesAreVectors(a, b);
  }

  lemma NodesAreVectors(a: Db, b: Db)
    requires forall key :: IsVector(key) ==> ValueAt(a, key) == ValueAt(b, key)
    ensures LivePart(a) == LivePart(b) && (NodesFine(a) <==> NodesFine(b)) && BlockDims(a) == BlockDims(b)
  {
    hide IsNode, Ascii, DecodeNode, NodeId;
    forall key | IsNode(key)
      ensures key in a <==> key in b
      ensures key in a ==> a[key] == b[key]
    {
      assert IsVector(key);
    }
  }

  /** The vector phase depends on the vector index only. */
  lemma SameVectorPhase(a: Db, b: Db)
    requires ScanPrefix(a, NODE_PREFIX) == ScanPrefix(b, NODE_PREFIX) && LivePart(a) == LivePart(b)
    requires (NodesFine(a) <==> NodesFine(b)) && ValueAt(a, VECTOR_META_KEY) == ValueAt(b, VECTOR_META_KEY)
    ensures StoredMeta(a) == StoredMeta(b) && ParamsOf(a) == ParamsOf(b)
    ensures VectorsRebuildable(a) <==> VectorsRebuildable(b)
  {
    hide LivePart, NodesFine, ScanPrefix, DecodeVectorMeta, Ascii;
  }

  lemma KeepsPrimary(db: Db, d: Db)
    requires Keeps(db, d)
    ensures PrimaryPart(d) == PrimaryPart(db)
  {
    hide Untouched, IsVector;
    assert PrimaryPart(d) == PrimaryPart(OffVector(d)) && PrimaryPart(db) == PrimaryPart(OffVector(db));
  }

  /** Where in its phases a run is after `k` batches. */
  lemma Phases(db: Db, parts: Parts, k: nat)
    requires k <= |Rebuild(db, parts).commits|
    ensures var o, indexed := Rebuild(db, parts), Reindex(db, parts);
      && (k <= |indexed.commits| ==> OnDisk(db, o, k) == OnDisk(db, indexed, k))
      && (k > |indexed.commits| ==>
            && indexed.res.Success?
            && OnDisk(db, o, k) in VectorRun(FinalOf(db, indexed), parts).commits)
  {
    hide Reindex, VectorRun, RecordsOf;
    var o, indexed := Rebuild(db, parts), Reindex(db, parts);
    if k > |indexed.commits| {
      var vectors := VectorRun(FinalOf(db, indexed), parts);
      assert o.commits[k - 1] == vectors.commits[k - 1 - |indexed.commits|];
    }
  }

  /** Crash a rebuild after any of its batches, succeed or fail: no primary data has changed and every live vector
      is there. */
  lemma RebuildKeepsPrimary(db: Db, parts: Parts, k: nat)
    requires FtsOnly(parts) && Faithful(parts) && k <= |Rebuild(db, parts).commits|
    ensures var d := OnDisk(db, Rebuild(db, parts), k);
      && PrimaryPart(d) == PrimaryPart(db) && LivePart(d) == LivePart(db) && (NodesFine(db) ==> NodesFine(d))
      && BlockDims(d) <= BlockDims(db)
  {
    hide Rebuild, Reindex, VectorRun, PrimaryPart, UntouchedPart, LivePart, NodesFine, FtsOnly, Faithful, BlockDims;
    hide Keeps, FinalOf;
    var indexed := Reindex(db, parts);
    var d := OnDisk(db, Rebuild(db, parts), k);
    Phases(db, parts, k);
    if k <= |indexed.commits| {
      ReindexUntouched(db, parts, k);
      SameVectors(d, db);
    } else {
      IndexedSame(db, parts);
      var mid := FinalOf(db, indexed);
      VectorRunIs(mid, parts);
      AllKeepAt(mid, VectorRun(mid, parts), d);
      KeepsPrimary(mid, d);
    }
  }

  lemma AllKeepAt<T>(db: Db, o: Outcome<T>, d: Db)
    requires AllKeep(db, o) && d in o.commits
    ensures Keeps(db, d) && LivePart(d) == LivePart(db) && (NodesFine(db) ==> NodesFine(d)) && BlockDims(d) <= BlockDims(db)
    ensures OffVector(d) == OffVector(db)
  {
    hide LivePart, NodesFine, BlockDims, OffVector;
  }

  /** After the first two phases. */
  lemma IndexedSame(db: Db, parts: Parts)
    requires FtsOnly(parts)
    ensures var mid := FinalOf(db, Reindex(db, parts));
      && UntouchedPart(mid) == UntouchedPart(db)
      && PrimaryPart(mid) == PrimaryPart(db) && LivePart(mid) == LivePart(db) && (NodesFine(mid) <==> NodesFine(db))
      && BlockDims(mid) == BlockDims(db) && StoredMeta(mid) == StoredMeta(db) && ParamsOf(mid) == ParamsOf(db)
      && (VectorsRebuildable(mid) <==> VectorsRebuildable(db))
  {
    hide Reindex, PrimaryPart, UntouchedPart, LivePart, NodesFine, FtsOnly, BlockDims, StoredMeta, ParamsOf;
    hide VectorsRebuildable, ScanPrefix;
    var o := Reindex(db, parts);
    ReindexUntouched(db, parts, |o.commits|);
    SameVectors(FinalOf(db, o), db);
    SameVectorPhase(FinalOf(db, o), db);
  }

  // ── the live ids ───────────────────────────────────────────────────────

  function IdsOf(live: map<Bytes, seq<f32>>): set<nat> {
    set key | key in live && NodeId(key).Some? :: NodeId(key).value
  }

  lemma {:induction false} LiveInIs(entries: seq<Entry>)
    ensures LiveIn(entries).Success?
        <==> forall i :: 0 <= i < |entries| ==> NodeId(entries[i].key).Some? && BlockIn(entries[i]).Success?
    ensures LiveIn(entries).Success? ==>
              forall id :: id in LiveIn(entries).value <==> LiveEntry(entries, id)
  {
    hide NodeId, DecodeNode;
    if entries != [] {
      var e, rest := entries[0], entries[1..];
      LiveInIs(rest);
      assert forall i :: 0 < i < |entries| ==> entries[i] == rest[i - 1];
      assert forall i :: 0 <= i < |rest| ==> rest[i] == entries[i + 1];
      if LiveIn(entries).Success? {
        forall id
          ensures id in LiveIn(entries).value <==> LiveEntry(entries, id)
        {
          LiveEntryCons(entries, id);
        }
      }
    }
  }

  ghost predicate LiveEntry(entries: seq<Entry>, id: nat) {
    exists i :: 0 <= i < |entries| && NodeId(entries[i].key) == Some(id) && BlockIn(entries[i]).Success?
      && !BlockIn(entries[i]).value.deleted
  }

  lemma LiveEntryCons(entries: seq<Entry>, id: nat)
    requires entries != []
    ensures LiveEntry(entries, id)
        <==> LiveEntry(entries[1..], id)
             || (NodeId(entries[0].key) == Some(id) && BlockIn(entries[0]).Success? && !BlockIn(entries[0]).value.deleted)
  {
    hide NodeId, BlockIn;
    var rest := entries[1..];
    if LiveEntry(rest, id) {
      var i :| 0 <= i < |rest| && NodeId(rest[i].key) == Some(id) && BlockIn(rest[i]).Success?
        && !BlockIn(rest[i]).value.deleted;
      assert entries[i + 1] == rest[i];
    }
    if LiveEntry(entries, id) {
      var i :| 0 <= i < |entries| && NodeId(entries[i].key) == Some(id) && BlockIn(entries[i]).Success?
        && !BlockIn(entries[i]).value.deleted;
      if i > 0 {
        assert rest[i - 1] == entries[i];
      }
    }
  }

  /** Loading the live ids goes through exactly when every node block is sound, and gives the ids of the live ones. */
  lemma LiveNodeIdsAre(db: Db)
    ensures LiveNodeIds(db).Success? <==> NodesFine(db)
    ensures NodesFine(db) ==> LiveNodeIds(db).value == IdsOf(LivePart(db))
  {
    hide ScanPrefix, NodeId, DecodeNode, Ascii, StartsWith, LiveIn;
    var entries := ScanPrefix(db, NODE_PREFIX);
    LiveInIs(entries);
    forall i | 0 <= i < |entries|
      ensures entries[i].key in db && IsNode(entries[i].key) && BlockIn(entries[i]) == DecodeNode(db[entries[i].key])
    {
      EntryBlock(db, i);
    }
    if LiveNodeIds(db).Success? {
      forall key | key in db && IsNode(key)
        ensures NodeId(key).Some? && DecodeNode(db[key]).Success?
      {
        var i := EntryAt(db, key);
      }
      forall id
        ensures id in LiveNodeIds(db).value <==> id in IdsOf(LivePart(db))
      {
        LiveIdIs(db, id);
      }
    }
  }

  lemma LiveIdIs(db: Db, id: nat)
    requires NodesFine(db)
    ensures LiveEntry(ScanPrefix(db, NODE_PREFIX), id) <==> id in IdsOf(LivePart(db))
  {
    hide ScanPrefix, NodeId, DecodeNode, Ascii, StartsWith;
    var entries := ScanPrefix(db, NODE_PREFIX);
    if LiveEntry(entries, id) {
      var i :| 0 <= i < |entries| && NodeId(entries[i].key) == Some(id) && BlockIn(entries[i]).Success?
        && !BlockIn(entries[i]).value.deleted;
      EntryBlock(db, i);
      assert entries[i].key in LivePart(db);
    }
    if id in IdsOf(LivePart(db)) {
      var key :| key in LivePart(db) && NodeId(key) == Some(id);
      var i := EntryAt(db, key);
      EntryBlock(db, i);
    }
  }

  // ── success ────────────────────────────────────────────────────────────

  /** A rebuild goes through exactly when its first two phases do and the live vectors have the dimension of the
      index; nothing else can stop it. */
  lemma RebuildSucceedsIff(db: Db, parts: Parts)
    requires FtsOnly(parts) && Faithful(parts)
    ensures Rebuild(db, parts).res.Success? <==> Reindexable(db, parts) && VectorsRebuildable(db)
    ensures Rebuild(db, parts).res.Success? ==>
              var mid := FinalOf(db, Reindex(db, parts));
              && LoadRecords(db, parts).Success? && LiveNodeIds(db).Success? && ParamsOf(db).Success?
              && var records := LoadRecords(db, parts).value;
              && Rebuild(db, parts).commits == Reindex(db, parts).commits + VectorRun(mid, parts).commits
              && |Rebuild(db, parts).commits| > 0
              && FinalOf(db, Rebuild(db, parts)) == FinalOf(mid, VectorRun(mid, parts))
              && VectorRun(mid, parts).res.Success?
              && Rebuild(db, parts).res
                 == Success(Report(|records|, Documents(records), ParamsOf(db).value.Some?,
                                   Missing(records, LiveNodeIds(db).value)))
  {
    hide Reindex, VectorRun, LoadRecords, LiveNodeIds, VectorsRebuildable, FtsOnly, Faithful, Documents, Missing, ParamsOf;
    hide UntouchedPart, PrimaryPart, LivePart, NodesFine, BlockDims, StoredMeta, MappingError, Clean, InsertRecords, ScanPrefix;
    hide AllKeep, Whole, MetaIs;
    ReindexSucceedsIff(db, parts);
    IndexedSame(db, parts);
    var indexed := Reindex(db, parts);
    var mid := FinalOf(db, indexed);
    VectorRunIs(mid, parts);
    FinalOfBoth(db, indexed.commits, VectorRun(mid, parts));
  }

  lemma FinalOfBoth<T>(db: Db, before: seq<Db>, o: Outcome<T>)
    ensures var start: Outcome<T>, both: Outcome<T> := Outcome(before, o.res), Outcome(before + o.commits, o.res);
      FinalOf(db, both) == FinalOf(FinalOf(db, start), o)
  {
  }

  // ── a run after a crash ────────────────────────────────────────────────

  /** Nothing primary and no live vector differs, and every node block is sound. */
  ghost predicate Alike(a: Db, b: Db) {
    PrimaryPart(a) == PrimaryPart(b) && LivePart(a) == LivePart(b) && NodesFine(a) && NodesFine(b)
  }

  lemma RecordsArePrimary(key: Bytes)
    ensures StartsWith(key, RECORD_PREFIX) ==> Primary(key)
  {
    hide Ascii;
    KeyClasses(key);
    if StartsWith(key, RECORD_PREFIX) && IsVector(key) {
      if IsNode(key) {
        KeyspacesDisjoint(key, Records, Nodes);
      } else {
        KeyspacesDisjoint(key, Records, VectorMeta);
      }
    }
  }

  lemma PrimaryAt(a: Db, b: Db, key: Bytes)
    requires PrimaryPart(a) == PrimaryPart(b) && Primary(key)
    ensures ValueAt(a, key) == ValueAt(b, key)
  {
    hide Untouched, IsVector;
    assert key in PrimaryPart(a) <==> key in a;
    assert key in PrimaryPart(b) <==> key in b;
  }

  lemma SameRecords(a: Db, b: Db, parts: Parts)
    requires PrimaryPart(a) == PrimaryPart(b)
    ensures LoadRecords(a, parts) == LoadRecords(b, parts)
  {
    hide PrimaryPart, Primary, Ascii, StartsWith, LoadAll, ValueAt;
    forall key | StartsWith(key, RECORD_PREFIX)
      ensures ValueAt(a, key) == ValueAt(b, key)
    {
      RecordsArePrimary(key);
      PrimaryAt(a, b, key);
    }
    SameEntries(a, b, RECORD_PREFIX);
  }

  lemma SameLiveIds(a: Db, b: Db)
    requires Alike(a, b)
    ensures LiveNodeIds(a) == LiveNodeIds(b) && LiveNodeIds(a).Success?
  {
    hide LivePart, NodesFine, PrimaryPart, LiveNodeIds, IdsOf;
    LiveNodeIdsAre(a);
    LiveNodeIdsAre(b);
  }

  lemma CleanAt(db: Db, records: seq<Record>, key: Bytes)
    ensures IsFts(key) ==> key !in Clean(db, records)
    ensures ValueAt(Clean(db, records), key)
         == if key == MEMORY_META_KEY then Some(MetaBytes(NextVecId(records)))
            else if key in MappingMap(records) then Some(MappingMap(records)[key])
            else if Untouched(key) then ValueAt(db, key) else None
  {
    hide MetaBytes, NextVecId, MappingMap, Ascii, StartsWith;
    KeyClasses(key);
    if key in MappingMap(records) {
      MappingKeys(records, key);
    }
  }

  lemma CleanAlike(a: Db, b: Db, records: seq<Record>)
    requires PrimaryPart(a) == PrimaryPart(b)
    ensures OffVector(Clean(a, records)) == OffVector(Clean(b, records))
    ensures FtsPart(Clean(a, records)) == map[] && FtsPart(Clean(b, records)) == map[]
  {
    hide Clean, PrimaryPart, IsFts, Ascii, Untouched, IsVector, MappingMap, MetaBytes, NextVecId, ValueAt;
    var ca, cb := Clean(a, records), Clean(b, records);
    forall key
      ensures IsFts(key) ==> key !in ca && key !in cb
      ensures !IsVector(key) ==> ValueAt(ca, key) == ValueAt(cb, key)
    {
      CleanAt(a, records, key);
      CleanAt(b, records, key);
      if Untouched(key) && !IsVector(key) {
        PrimaryAt(a, b, key);
      }
    }
    SameOffVector(ca, cb);
  }

  lemma SameOffVector(a: Db, b: Db)
    requires forall key :: !IsVector(key) ==> ValueAt(a, key) == ValueAt(b, key)
    ensures OffVector(a) == OffVector(b)
  {
    hide IsVector;
  }

  lemma NonFtsAfter(db: Db, records: seq<Record>, parts: Parts)
    requires FtsOnly(parts)
    ensures NonFts(FinalOf(db, InsertRecords(db, records, parts))) == NonFts(db)
  {
    hide NonFts, InsertRecords, FtsOnly;
    InsertKeeps(db, records, parts);
    var o := InsertRecords(db, records, parts);
    if o.commits != [] {
      assert o.commits[|o.commits| - 1] in o.commits;
    }
  }

  lemma OffVectorOf(a: Db, b: Db, a0: Db, b0: Db)
    requires NonFts(a) == NonFts(a0) && NonFts(b) == NonFts(b0)
    requires OffVector(a0) == OffVector(b0) && FtsPart(a) == FtsPart(b)
    ensures OffVector(a) == OffVector(b)
  {
    hide IsVector, IsFts;
    forall key | !IsVector(key)
      ensures ValueAt(a, key) == ValueAt(b, key)
    {
      if IsFts(key) {
        assert ValueAt(FtsPart(a), key) == ValueAt(a, key) && ValueAt(FtsPart(b), key) == ValueAt(b, key);
      } else {
        assert ValueAt(NonFts(a), key) == ValueAt(a, key) && ValueAt(NonFts(b), key) == ValueAt(b, key);
        assert ValueAt(NonFts(a0), key) == ValueAt(a0, key) && ValueAt(NonFts(b0), key) == ValueAt(b0, key);
        assert ValueAt(OffVector(a0), key) == ValueAt(a0, key) && ValueAt(OffVector(b0), key) == ValueAt(b0, key);
      }
    }
    SameOffVector(a, b);
  }

  /** The first two phases do the same on stores that are alike. */
  lemma ReindexAlike(a: Db, b: Db, parts: Parts)
    requires FtsOnly(parts) && Alike(a, b)
    ensures LoadRecords(a, parts) == LoadRecords(b, parts) && LiveNodeIds(a) == LiveNodeIds(b)
    ensures forall records ::
              InsertRecords(Clean(a, records), records, parts).res == InsertRecords(Clean(b, records), records, parts).res
    ensures Reindex(a, parts).res.Success? && Reindex(b, parts).res.Success? ==>
              OffVector(FinalOf(a, Reindex(a, parts))) == OffVector(FinalOf(b, Reindex(b, parts)))
              && Reindex(a, parts).res == Reindex(b, parts).res
  {
    hide Reindex, LoadRecords, LiveNodeIds, Clean, InsertRecords, PrimaryPart, LivePart, NodesFine, FtsOnly, OffVector;
    hide FtsPart, NonFts, MappingError, ScanPrefix, Missing, FinalOf;
    SameRecords(a, b, parts);
    SameLiveIds(a, b);
    forall records
      ensures InsertRecords(Clean(a, records), records, parts).res == InsertRecords(Clean(b, records), records, parts).res
    {
      CleanAlike(a, b, records);
      SameFtsInserts(Clean(a, records), Clean(b, records), records, parts);
    }
    ReindexSucceedsIff(a, parts);
    ReindexSucceedsIff(b, parts);
    if Reindex(a, parts).res.Success? && Reindex(b, parts).res.Success? {
      var records := LoadRecords(a, parts).value;
      var ca, cb := Clean(a, records), Clean(b, records);
      CleanAlike(a, b, records);
      SameFtsInserts(ca, cb, records, parts);
      NonFtsAfter(ca, records, parts);
      NonFtsAfter(cb, records, parts);
      OffVectorOf(FinalOf(ca, InsertRecords(ca, records, parts)), FinalOf(cb, InsertRecords(cb, records, parts)), ca, cb);
    }
  }

  /** A store a run has left, at any point. */
  lemma LeftAlike(db: Db, parts: Parts, k: nat)
    requires FtsOnly(parts) && Faithful(parts) && Rebuild(db, parts).res.Success? && k <= |Rebuild(db, parts).commits|
    ensures Alike(db, OnDisk(db, Rebuild(db, parts), k))
  {
    hide Rebuild, Reindex, LoadRecords, PrimaryPart, LivePart, NodesFine, FtsOnly, Faithful, Reindexable, VectorRun;
    hide VectorsRebuildable, BlockDims;
    RebuildSucceedsIff(db, parts);
    LiveNodeIdsAre(db);
    RebuildKeepsPrimary(db, parts, k);
  }

  /** Where a successful run ends. */
  lemma FinalIs(db: Db, parts: Parts)
    requires FtsOnly(parts) && Faithful(parts) && Rebuild(db, parts).res.Success?
    ensures var final, mid := FinalOf(db, Rebuild(db, parts)), FinalOf(db, Reindex(db, parts));
      && OffVector(final) == OffVector(mid) && LivePart(final) == LivePart(db) && NodesFine(final) && NodesFine(db)
      && Reindex(db, parts).res.Success? && ParamsOf(db).Success?
      && (ParamsOf(db).value.Some? ==> Whole(final, ParamsOf(db).value.value, NextEpoch(Some(OpenEpoch(db))), parts))
      && (ParamsOf(db).value.None? ==> final == mid)
  {
    hide Rebuild, Reindex, LoadRecords, LivePart, NodesFine, FtsOnly, Faithful, Reindexable, VectorRun, OffVector;
    hide VectorsRebuildable, BlockDims, Keeps, Whole, StoredMeta, ParamsOf, PrimaryPart, UntouchedPart, OpensClean, Resolves;
    hide Missing, Documents, LiveNodeIds;
    var mid := FinalOf(db, Reindex(db, parts));
    RebuildSucceedsIff(db, parts);
    ReindexSucceedsIff(db, parts);
    IndexedSame(db, parts);
    VectorRunIs(mid, parts);
    SameLive(mid, VectorRun(mid, parts));
    SameEpoch(db, parts);
    LiveNodeIdsAre(db);
    FineWhenLoaded(db, parts);
  }

  lemma FineWhenLoaded(db: Db, parts: Parts)
    requires Reindexable(db, parts)
    ensures LiveNodeIds(db).Success?
  {
    hide LiveNodeIds, LoadRecords, InsertRecords, Clean, ScanPrefix, MappingError;
  }

  lemma SameEpoch(db: Db, parts: Parts)
    requires FtsOnly(parts)
    ensures OpenEpoch(FinalOf(db, Reindex(db, parts))) == OpenEpoch(db)
  {
    hide Reindex, UntouchedPart, FtsOnly, DecodeVectorMeta, Ascii, IsNode;
    var mid := FinalOf(db, Reindex(db, parts));
    ReindexUntouched(db, parts, |Reindex(db, parts).commits|);
    SameVectorKeys(mid, db);
    forall id: u64
      ensures NodeKey(id) in mid <==> NodeKey(id) in db
    {
      NodeKeyIs(id);
      assert IsVector(NodeKey(id));
    }
  }

  /** The same but for the epoch that the vector index counts. */
  ghost predicate SameButEpoch(a: Db, b: Db) {
    && a - {VECTOR_META_KEY} == b - {VECTOR_META_KEY}
    && if StoredMeta(a).Some? && StoredMeta(b).Some?
       then StoredMeta(a).value.(epoch := 0) == StoredMeta(b).value.(epoch := 0)
       else ValueAt(a, VECTOR_META_KEY) == ValueAt(b, VECTOR_META_KEY)
  }

  lemma SameElsewhere(a: Db, b: Db)
    requires OffVector(a) == OffVector(b) && forall key :: IsNode(key) ==> ValueAt(a, key) == ValueAt(b, key)
    ensures a - {VECTOR_META_KEY} == b - {VECTOR_META_KEY}
  {
    hide Ascii, IsNode;
    forall key | key != VECTOR_META_KEY
      ensures key in a <==> key in b
      ensures key in a ==> a[key] == b[key]
    {
      assert !IsVector(key) ==>
               ValueAt(OffVector(a), key) == ValueAt(a, key) && ValueAt(OffVector(b), key) == ValueAt(b, key);
      assert ValueAt(a, key) == ValueAt(b, key);
    }
  }

  /** Whole indexes over the same live vectors, with the same parameters. */
  lemma WholeSame(a: Db, b: Db, params: VectorParams, epoch: u64, epoch': u64, parts: Parts)
    requires Whole(a, params, epoch, parts) && Whole(b, params, epoch', parts)
    requires OffVector(a) == OffVector(b) && LivePart(a) == LivePart(b)
    ensures SameButEpoch(a, b)
  {
    hide LivePart, StoredMeta, Graphed, OffVector, IsNode, Ascii;
    GraphedSame(a, b, params, parts);
    forall key | IsNode(key)
      ensures ValueAt(a, key) == ValueAt(b, key)
    {
      assert ValueAt(NodePart(a), key) == ValueAt(a, key) && ValueAt(NodePart(b), key) == ValueAt(b, key);
    }
    SameElsewhere(a, b);
  }

  /** A store whose vector index, junk or nothing, no phase has touched. */
  lemma UntouchedSame(a: Db, b: Db)
    requires OffVector(a) == OffVector(b) && UntouchedPart(a) == UntouchedPart(b)
    ensures SameButEpoch(a, b)
  {
    hide OffVector, UntouchedPart, DecodeVectorMeta, Ascii, StartsWith;
    SameVectorKeys(a, b);
    SameElsewhere(a, b);
  }

  /** A successful run leaves metadata if and only if it found an index, and with the parameters it found. */
  lemma IndexLeft(db: Db, parts: Parts)
    requires FtsOnly(parts) && Faithful(parts) && Rebuild(db, parts).res.Success?
    ensures var final := FinalOf(db, Rebuild(db, parts));
      && ParamsOf(db).Success? && (StoredMeta(final).Some? <==> ParamsOf(db).value.Some?)
      && (StoredMeta(final).Some? ==> StoredMeta(final).value.params == ParamsOf(db).value.value)
  {
    hide Rebuild, Reindex, FtsOnly, Faithful, LivePart, NodesFine, OffVector, OpenEpoch, Graphed, FinalOf, UntouchedPart;
    hide PrimaryPart, BlockDims, VectorsRebuildable, ScanPrefix, DecodeVectorMeta, Ascii, Resolves;
    FinalIs(db, parts);
    IndexedSame(db, parts);
  }

  /** Without an index a run never touches the keys of one. */
  lemma NoIndexStays(db: Db, parts: Parts, k: nat)
    requires FtsOnly(parts) && Faithful(parts) && Rebuild(db, parts).res.Success? && k <= |Rebuild(db, parts).commits|
    requires ParamsOf(db) == Success(None)
    ensures UntouchedPart(OnDisk(db, Rebuild(db, parts), k)) == UntouchedPart(db)
    ensures UntouchedPart(FinalOf(db, Rebuild(db, parts))) == UntouchedPart(db)
  {
    hide Rebuild, Reindex, FtsOnly, Faithful, LivePart, NodesFine, OffVector, OpenEpoch, UntouchedPart, VectorRun;
    hide PrimaryPart, BlockDims, VectorsRebuildable, ParamsOf, StoredMeta, LoadRecords, LiveNodeIds, Documents, Missing;
    hide Reindexable, AllKeep, Whole, MetaIs, FinalOf;
    RebuildSucceedsIff(db, parts);
    IndexedSame(db, parts);
    VectorRunIs(FinalOf(db, Reindex(db, parts)), parts);
    FinalIs(db, parts);
    Phases(db, parts, k);
    ReindexUntouched(db, parts, k);
  }

  /** A run after a crash, if it goes through, ends where the uninterrupted run ends: the same live vectors and the
      same report; and the same store down to the edges of the graph, but for the epoch, if and only if the crash
      has left an index with the same parameters. */
  lemma RebuildResumes(db: Db, parts: Parts, k: nat)
    requires FtsOnly(parts) && Faithful(parts) && Rebuild(db, parts).res.Success? && k <= |Rebuild(db, parts).commits|
    ensures var d, o := OnDisk(db, Rebuild(db, parts), k), Rebuild(db, parts);
      Rebuild(d, parts).res.Success? ==>
        var final, again := FinalOf(db, o), FinalOf(d, Rebuild(d, parts));
        && OffVector(again) == OffVector(final) && LivePart(again) == LivePart(final) == LivePart(db)
        && (SameButEpoch(again, final) <==> ParamsOf(d) == ParamsOf(db))
        && ParamsOf(d).Success? && ParamsOf(db).Success?
        && Rebuild(d, parts).res.value == o.res.value.(vectorGraph := ParamsOf(d).value.Some?)
        && o.res.value.vectorGraph == ParamsOf(db).value.Some?
  {
    hide Rebuild, Reindex, LoadRecords, LivePart, NodesFine, FtsOnly, Faithful, Reindexable, VectorRun, OffVector;
    hide VectorsRebuildable, Keeps, Whole, StoredMeta, ParamsOf, PrimaryPart, LiveNodeIds, Missing, Documents, OpenEpoch;
    hide SameButEpoch;
    var d := OnDisk(db, Rebuild(db, parts), k);
    LeftAlike(db, parts, k);
    if Rebuild(d, parts).res.Success? {
      ReindexAlike(db, d, parts);
      FinalIs(db, parts);
      FinalIs(d, parts);
      RebuildSucceedsIff(db, parts);
      RebuildSucceedsIff(d, parts);
      SameParamsIff(db, d, parts, k);
    }
  }

  lemma SameParamsIff(db: Db, d: Db, parts: Parts, k: nat)
    requires FtsOnly(parts) && Faithful(parts) && Rebuild(db, parts).res.Success? && k <= |Rebuild(db, parts).commits|
    requires d == OnDisk(db, Rebuild(db, parts), k) && Rebuild(d, parts).res.Success?
    requires var final, again := FinalOf(db, Rebuild(db, parts)), FinalOf(d, Rebuild(d, parts));
      OffVector(again) == OffVector(final) && LivePart(again) == LivePart(final)
    ensures SameButEpoch(FinalOf(d, Rebuild(d, parts)), FinalOf(db, Rebuild(db, parts))) <==> ParamsOf(d) == ParamsOf(db)
  {
    hide Rebuild, Reindex, LivePart, NodesFine, FtsOnly, Faithful, OffVector, Whole, StoredMeta, ParamsOf, OpenEpoch;
    hide UntouchedPart, FinalOf;
    var final, again := FinalOf(db, Rebuild(db, parts)), FinalOf(d, Rebuild(d, parts));
    IndexLeft(db, parts);
    IndexLeft(d, parts);
    SameMetaParams(again, final);
    if ParamsOf(d) == ParamsOf(db) {
      if ParamsOf(db).value.Some? {
        FinalIs(db, parts);
        FinalIs(d, parts);
        WholeSame(again, final, ParamsOf(db).value.value,
                  NextEpoch(Some(OpenEpoch(d))), NextEpoch(Some(OpenEpoch(db))), parts);
      } else {
        NoIndexStays(db, parts, k);
        NoIndexStays(d, parts, 0);
        UntouchedSame(again, final);
      }
    }
  }

  lemma SameMetaParams(a: Db, b: Db)
    ensures SameButEpoch(a, b) ==>
              && (StoredMeta(a).Some? <==> StoredMeta(b).Some?)
              && (StoredMeta(a).Some? ==> StoredMeta(a).value.params == StoredMeta(b).value.params)
  {
    hide DecodeVectorMeta, Ascii;
  }

  /** The dimension a rebuild of the vector index would ask of every live vector. */
  function IndexDim(db: Db): Option<nat> {
    if ParamsOf(db).Success? && ParamsOf(db).value.Some? then Some(ParamsOf(db).value.value.dim) else None
  }

  lemma NoNodesNoLive(db: Db)
    requires ScanPrefix(db, NODE_PREFIX) == []
    ensures LivePart(db) == map[]
  {
    hide ScanPrefix, DecodeNode, NodeId, Ascii, StartsWith;
    if key :| key in LivePart(db) {
      var i := EntryAt(db, key);
      assert false;
    }
  }

  lemma RebuildableDim(db: Db)
    requires NodesFine(db)
    ensures ParamsOf(db).Success?
    ensures VectorsRebuildable(db) <==> LivePart(db) == map[] || (IndexDim(db).Some? && AllDim(db, IndexDim(db).value))
  {
    hide ScanPrefix, NodesFine, LivePart, StoredMeta, Ascii, StartsWith, DecodeNode;
    if ScanPrefix(db, NODE_PREFIX) == [] {
      NoNodesNoLive(db);
    } else {
      FirstDecodes(db);
    }
  }

  lemma FirstDecodes(db: Db)
    requires NodesFine(db) && ScanPrefix(db, NODE_PREFIX) != []
    ensures BlockIn(ScanPrefix(db, NODE_PREFIX)[0]).Success?
    ensures |BlockIn(ScanPrefix(db, NODE_PREFIX)[0]).value.vector| in BlockDims(db)
  {
    hide ScanPrefix, Ascii, StartsWith, DecodeNode, NodeId;
    EntryBlock(db, 0);
  }

  lemma SameCounts(a: Db, b: Db)
    requires OffVector(a) == OffVector(b)
    ensures Count(a, VECMAP_PREFIX) == Count(b, VECMAP_PREFIX)
  {
    hide Ascii, StartsWith, ScanPrefix;
    forall key | IsMapping(key)
      ensures ValueAt(a, key) == ValueAt(b, key)
    {
      KeyClasses(key);
      MappingsOffVector(key);
      assert ValueAt(OffVector(a), key) == ValueAt(a, key) && ValueAt(OffVector(b), key) == ValueAt(b, key);
    }
    SameEntries(a, b, VECMAP_PREFIX);
  }

  lemma MappingsOffVector(key: Bytes)
    ensures IsMapping(key) ==> !IsVector(key)
  {
    hide Ascii;
    if IsMapping(key) && IsVector(key) {
      if IsNode(key) {
        KeyspacesDisjoint(key, Vecmaps, Nodes);
      } else {
        KeyspacesDisjoint(key, Vecmaps, VectorMeta);
      }
    }
  }

  /** Once the first batch of a run is on disk, so are the mappings of its records, and no others. */
  lemma MappingsOnDisk(db: Db, parts: Parts, k: nat)
    requires FtsOnly(parts) && Faithful(parts) && Rebuild(db, parts).res.Success? && 0 < k <= |Rebuild(db, parts).commits|
    ensures LoadRecords(db, parts).Success?
    ensures Count(OnDisk(db, Rebuild(db, parts), k), VECMAP_PREFIX) == |LoadRecords(db, parts).value|
  {
    hide Rebuild, Reindex, LoadRecords, FtsOnly, Faithful, VectorRun, OffVector, Count, LivePart, NodesFine, Keeps, NonFts;
    hide Mapped, MappingError, UntouchedPart, PrimaryPart, BlockDims, StoredMeta, ParamsOf, VectorsRebuildable, Reindexable;
    hide Missing, Documents, LiveNodeIds, Whole, MetaIs, Clean, InsertRecords;
    var indexed, d := Reindex(db, parts), OnDisk(db, Rebuild(db, parts), k);
    Phases(db, parts, k);
    RebuildSucceedsIff(db, parts);
    ReindexSucceedsIff(db, parts);
    CleanlyLoaded(db, parts);
    var records := LoadRecords(db, parts).value;
    var at := if k <= |indexed.commits| then k else |indexed.commits|;
    ReindexKeeps(db, parts, at);
    var mid := OnDisk(db, indexed, at);
    MappingsLeft(db, records, mid);
    if k > |indexed.commits| {
      VectorRunIs(mid, parts);
      AllKeepAt(mid, VectorRun(mid, parts), d);
      SameCounts(d, mid);
    }
  }

  /** The mapping batch, the first durable step of a run, sets the allocator; no later step touches it. So of the
      rebuilds a plan can name, the one it does name for a stale allocator is the one that writes it. */
  lemma AllocatorOnDisk(db: Db, parts: Parts, k: nat)
    requires FtsOnly(parts) && Faithful(parts) && Rebuild(db, parts).res.Success? && 0 < k <= |Rebuild(db, parts).commits|
    ensures LoadRecords(db, parts).Success?
    ensures ValueAt(OnDisk(db, Rebuild(db, parts), k), MEMORY_META_KEY)
         == Some(MetaBytes(NextVecId(LoadRecords(db, parts).value)))
  {
    hide Rebuild, Reindex, LoadRecords, FtsOnly, Faithful, VectorRun, OffVector, LivePart, NodesFine, Keeps, NonFts, Ascii;
    hide Mapped, MappingError, UntouchedPart, PrimaryPart, BlockDims, StoredMeta, ParamsOf, VectorsRebuildable, Reindexable;
    hide Missing, Documents, LiveNodeIds, Whole, MetaIs, Clean, InsertRecords, NextVecId, MetaBytes, MappingMap;
    var indexed, d, key := Reindex(db, parts), OnDisk(db, Rebuild(db, parts), k), MEMORY_META_KEY;
    Phases(db, parts, k);
    RebuildSucceedsIff(db, parts);
    ReindexSucceedsIff(db, parts);
    CleanlyLoaded(db, parts);
    var records := LoadRecords(db, parts).value;
    var at := if k <= |indexed.commits| then k else |indexed.commits|;
    ReindexKeeps(db, parts, at);
    var mid := OnDisk(db, indexed, at);
    MappedAt(db, records);
    SameNonFts(mid, Mapped(db, records), key);
    if k > |indexed.commits| {
      VectorRunIs(mid, parts);
      AllKeepAt(mid, VectorRun(mid, parts), d);
      MemoryMetaOffVector();
      SameOff(d, mid, key);
    }
  }

  lemma SameNonFts(a: Db, b: Db, key: Bytes)
    requires NonFts(a) == NonFts(b) && !IsFts(key)
    ensures ValueAt(a, key) == ValueAt(b, key)
  {
    assert ValueAt(a, key) == ValueAt(NonFts(a), key) && ValueAt(b, key) == ValueAt(NonFts(b), key);
  }

  lemma SameOff(a: Db, b: Db, key: Bytes)
    requires OffVector(a) == OffVector(b) && !IsVector(key)
    ensures ValueAt(a, key) == ValueAt(b, key)
  {
    assert ValueAt(OffVector(a), key) == ValueAt(a, key) && ValueAt(OffVector(b), key) == ValueAt(b, key);
  }

  lemma CleanlyLoaded(db: Db, parts: Parts)
    requires Reindexable(db, parts)
    ensures LoadRecords(db, parts).Success? && MappingError(LoadRecords(db, parts).value).None?
  {
    hide LiveNodeIds, LoadRecords, InsertRecords, Clean, ScanPrefix, MappingError;
  }

  /** Exactly when a run after a crash, or after a completed run, goes through: one mapping batch has to delete every
      mapping already written and write them all again, one purge has to empty the full-text index, and if there are
      live vectors, the index must still ask for their dimension. */
  lemma RerunSucceedsIff(db: Db, parts: Parts, k: nat)
    requires FtsOnly(parts) && Faithful(parts) && Rebuild(db, parts).res.Success? && 0 < k <= |Rebuild(db, parts).commits|
    ensures LoadRecords(db, parts).Success?
    ensures var d, n := OnDisk(db, Rebuild(db, parts), k), |LoadRecords(db, parts).value|;
      Rebuild(d, parts).res.Success?
      <==> 2 * n + 2 <= 10_000 && Count(d, FTS_PREFIX) <= 10_000
           && (LivePart(db) == map[] || IndexDim(d) == IndexDim(db))
  {
    hide Rebuild, Reindex, LoadRecords, FtsOnly, Faithful, VectorRun, OffVector, Count, LivePart, NodesFine, IndexDim;
    hide VectorsRebuildable, Missing, Documents, LiveNodeIds, ParamsOf, PrimaryPart, Clean, InsertRecords, MappingError;
    var d := OnDisk(db, Rebuild(db, parts), k);
    LeftAlike(db, parts, k);
    ReindexAlike(db, d, parts);
    MappingsOnDisk(db, parts, k);
    RebuildSucceedsIff(db, parts);
    RebuildSucceedsIff(d, parts);
    RerunDim(db, d);
  }

  lemma RerunDim(db: Db, d: Db)
    requires Alike(db, d) && VectorsRebuildable(db)
    ensures VectorsRebuildable(d) <==> LivePart(db) == map[] || IndexDim(d) == IndexDim(db)
  {
    hide LivePart, NodesFine, ParamsOf, PrimaryPart, VectorsRebuildable, IndexDim;
    RebuildableDim(db);
    RebuildableDim(d);
    SomeParams(db);
    SomeParams(d);
  }

  lemma SomeParams(db: Db)
    requires NodesFine(db)
    ensures LivePart(db) != map[] ==> IndexDim(db).Some?
  {
    hide LivePart, ScanPrefix, StoredMeta, Ascii, StartsWith, DecodeNode, NodesFine;
    if ScanPrefix(db, NODE_PREFIX) == [] {
      NoNodesNoLive(db);
    } else {
      FirstDecodes(db);
    }
  }

  // ── the index parameters ───────────────────────────────────────────────

  /** Metadata a run leaves on disk, if it decodes, has the parameters the run started from. */
  lemma MetaOnDisk(db: Db, parts: Parts, k: nat)
    requires FtsOnly(parts) && Faithful(parts) && Rebuild(db, parts).res.Success? && k <= |Rebuild(db, parts).commits|
    ensures var d := OnDisk(db, Rebuild(db, parts), k);
      ParamsOf(db).Success?
      && (StoredMeta(d).Some? ==> ParamsOf(db).value.Some? && StoredMeta(d).value.params == ParamsOf(db).value.value)
  {
    hide Rebuild, Reindex, LoadRecords, FtsOnly, Faithful, VectorRun, OffVector, LivePart, NodesFine, Keeps, Reindexable;
    hide UntouchedPart, PrimaryPart, BlockDims, VectorsRebuildable, Missing, Documents, LiveNodeIds, Whole, ScanPrefix;
    hide DecodeVectorMeta, Ascii;
    var indexed, d := Reindex(db, parts), OnDisk(db, Rebuild(db, parts), k);
    Phases(db, parts, k);
    RebuildSucceedsIff(db, parts);
    IndexedSame(db, parts);
    if k <= |indexed.commits| {
      ReindexUntouched(db, parts, k);
      SameVectors(d, db);
    } else {
      VectorRunIs(FinalOf(db, indexed), parts);
    }
  }

  /** Where all node blocks, tombstones included, have the dimension of the index, a run after a crash asks for it
      again: only the batch bounds can stop it. */
  lemma UniformRerunIff(db: Db, parts: Parts, k: nat)
    requires FtsOnly(parts) && Faithful(parts) && Rebuild(db, parts).res.Success? && 0 < k <= |Rebuild(db, parts).commits|
    requires IndexDim(db).Some? ==> BlockDims(db) <= {IndexDim(db).value}
    ensures LoadRecords(db, parts).Success?
    ensures var d, n := OnDisk(db, Rebuild(db, parts), k), |LoadRecords(db, parts).value|;
      Rebuild(d, parts).res.Success? <==> 2 * n + 2 <= 10_000 && Count(d, FTS_PREFIX) <= 10_000
  {
    hide Rebuild, LoadRecords, FtsOnly, Faithful, Count, LivePart, NodesFine, BlockDims, PrimaryPart, ScanPrefix;
    hide StoredMeta;
    var d := OnDisk(db, Rebuild(db, parts), k);
    RerunSucceedsIff(db, parts, k);
    LeftAlike(db, parts, k);
    MetaOnDisk(db, parts, k);
    RebuildKeepsPrimary(db, parts, k);
    SomeParams(db);
    if StoredMeta(d).None? {
      if ScanPrefix(d, NODE_PREFIX) == [] {
        NoNodesNoLive(d);
      } else {
        FirstDecodes(d);
      }
    }
  }

  /** The batches of the vector phase, when the index opens as it is: metadata away first and back last. */
  lemma VectorCommits(db: Db, parts: Parts)
    requires FtsOnly(parts) && Faithful(parts) && Rebuild(db, parts).res.Success? && OpensClean(db)
    ensures var mid, params := FinalOf(db, Reindex(db, parts)), StoredMeta(db).value.params;
      var rebuilt := RebuildStore(mid, params, Some(OpenEpoch(mid)), parts);
      && Rebuild(db, parts).commits == Reindex(db, parts).commits + rebuilt.commits
      && MetaLast(rebuilt) && rebuilt.commits[0] == mid - {VECTOR_META_KEY}
  {
    hide Reindex, FtsOnly, Faithful, LivePart, NodesFine, Reindexable, LoadRecords, RebuildStore, StoredMeta, BlockDims;
    hide UntouchedPart, PrimaryPart, VectorsRebuildable, Missing, Documents, LiveNodeIds, Resolves, FinalOf, ScanPrefix;
    hide AllKeep, MetaIs, Whole, MetaLast;
    var indexed := Reindex(db, parts);
    var mid := FinalOf(db, indexed);
    RebuildSucceedsIff(db, parts);
    IndexedSame(db, parts);
    CleanAfter(db, parts);
    var params := StoredMeta(mid).value.params;
    ParamsFit(mid);
    OpenRuns(mid, params, parts);
    var index := OpenIndex(mid, params, parts);
    CleanIsSame(mid, index);
    RebuildStoreRuns(mid, params, Some(OpenEpoch(mid)), parts);
    var rebuilt := RebuildStore(mid, params, Some(OpenEpoch(mid)), parts);
    assert VectorRun(mid, parts).commits == rebuilt.commits by { assert [] + rebuilt.commits + [] == rebuilt.commits; }
  }

  lemma CleanAfter(db: Db, parts: Parts)
    requires FtsOnly(parts) && OpensClean(db)
    ensures OpensClean(FinalOf(db, Reindex(db, parts)))
  {
    hide Reindex, UntouchedPart, FtsOnly, DecodeVectorMeta, Ascii, IsNode;
    var mid := FinalOf(db, Reindex(db, parts));
    ReindexUntouched(db, parts, |Reindex(db, parts).commits|);
    SameVectorKeys(mid, db);
    forall id: u64
      ensures NodeKey(id) in mid <==> NodeKey(id) in db
    {
      NodeKeyIs(id);
      assert IsVector(NodeKey(id));
    }
  }

  /** Whether the crash falls after the vector phase has deleted the metadata and before it has written it back. */
  predicate Exposed(db: Db, parts: Parts, k: nat) {
    |Reindex(db, parts).commits| < k < |Rebuild(db, parts).commits|
  }

  /** Just then there is no metadata on disk; before and after it has the parameters of the index. */
  lemma MetaExposed(db: Db, parts: Parts, k: nat)
    requires FtsOnly(parts) && Faithful(parts) && Rebuild(db, parts).res.Success? && OpensClean(db)
    requires k <= |Rebuild(db, parts).commits|
    ensures var d := OnDisk(db, Rebuild(db, parts), k);
      && (Exposed(db, parts, k) ==> StoredMeta(d).None?)
      && (!Exposed(db, parts, k) ==>
            StoredMeta(d).Some? && StoredMeta(d).value.params == StoredMeta(db).value.params)
      && (k == |Reindex(db, parts).commits| + 1 ==> ScanPrefix(d, NODE_PREFIX) == ScanPrefix(db, NODE_PREFIX))
    ensures |Reindex(db, parts).commits| < |Rebuild(db, parts).commits|
  {
    hide Rebuild, Reindex, FtsOnly, Faithful, LivePart, NodesFine, UntouchedPart, PrimaryPart, BlockDims, ScanPrefix;
    hide DecodeVectorMeta, Ascii, Resolves, OpenEpoch, RebuildStore;
    var o, indexed := Rebuild(db, parts), Reindex(db, parts);
    var m, mid, d := |indexed.commits|, FinalOf(db, indexed), OnDisk(db, o, k);
    VectorCommits(db, parts);
    SameNodeScan(db, parts);
    MetaGone(mid);
    if k <= m {
      Phases(db, parts, k);
      ReindexUntouched(db, parts, k);
      SameVectors(d, db);
    } else if k == |o.commits| {
      IndexLeft(db, parts);
    }
  }

  /** The parameters are the defaults for the dimension of the first node block. */
  predicate DefaultsFrom(db: Db, params: VectorParams) {
    var entries := ScanPrefix(db, NODE_PREFIX);
    entries != [] && BlockIn(entries[0]).Success? && params == VectorParams(|BlockIn(entries[0]).value.vector|, 32, 128, 0x3F99_999A)
  }

  /** A crash while there is no metadata loses the parameters of the index: a later run builds the graph with them
      again if and only if they were the defaults for the dimension of the first block then on disk; where all blocks
      have the dimension of the index, for it. If the index opens as it is, that is between the first batch of the
      vector phase and the last. */
  lemma ParamsSurviveIff(db: Db, parts: Parts, k: nat)
    requires FtsOnly(parts) && Faithful(parts) && Rebuild(db, parts).res.Success? && k <= |Rebuild(db, parts).commits|
    requires ParamsOf(db).Success? && ParamsOf(db).value.Some?
    ensures var d, params := OnDisk(db, Rebuild(db, parts), k), ParamsOf(db).value.value;
      && (Rebuild(d, parts).res.Success? ==>
            var again := StoredMeta(FinalOf(d, Rebuild(d, parts)));
            again.Some? && again.value.params == params <==> StoredMeta(d).Some? || DefaultsFrom(d, params))
      && (BlockDims(db) <= {params.dim} && LivePart(db) != map[] ==>
            (DefaultsFrom(d, params) <==> params == VectorParams(params.dim, 32, 128, 0x3F99_999A)))
      && (OpensClean(db) ==>
            && |Reindex(db, parts).commits| < |Rebuild(db, parts).commits|
            && (StoredMeta(d).None? <==> Exposed(db, parts, k))
            && (k == |Reindex(db, parts).commits| + 1 ==> (DefaultsFrom(d, params) <==> DefaultsFrom(db, params))))
  {
    hide Rebuild, Reindex, LoadRecords, FtsOnly, Faithful, VectorRun, OffVector, LivePart, NodesFine, Reindexable;
    hide UntouchedPart, PrimaryPart, BlockDims, VectorsRebuildable, Missing, Documents, LiveNodeIds, ScanPrefix, FinalOf;
    hide StoredMeta, OpensClean, OpenEpoch, DecodeNode, Exposed;
    var d, params := OnDisk(db, Rebuild(db, parts), k), ParamsOf(db).value.value;
    MetaOnDisk(db, parts, k);
    LeftAlike(db, parts, k);
    RebuildKeepsPrimary(db, parts, k);
    if OpensClean(db) {
      MetaExposed(db, parts, k);
    }
    if ScanPrefix(d, NODE_PREFIX) == [] {
      NoNodesNoLive(d);
    } else {
      FirstDecodes(d);
    }
    if Rebuild(d, parts).res.Success? {
      IndexLeft(d, parts);
    }
  }

  lemma SameNodeScan(db: Db, parts: Parts)
    requires FtsOnly(parts)
    ensures ScanPrefix(FinalOf(db, Reindex(db, parts)), NODE_PREFIX) == ScanPrefix(db, NODE_PREFIX)
  {
    hide Reindex, UntouchedPart, FtsOnly, ScanPrefix, LivePart, NodesFine, BlockDims, PrimaryPart;
    ReindexUntouched(db, parts, |Reindex(db, parts).commits|);
    SameVectors(FinalOf(db, Reindex(db, parts)), db);
  }

  // ── too large to rebuild twice ─────────────────────────────────────────

  /** From five thousand records on, no run after the first batch of another goes through, whatever the parts: the
      promise that a later call completes the work holds for smaller stores only. */
  lemma RerunRefused(db: Db, parts: Parts, k: nat)
    requires FtsOnly(parts) && Faithful(parts) && Rebuild(db, parts).res.Success? && 0 < k <= |Rebuild(db, parts).commits|
    requires LoadRecords(db, parts).Success? && |LoadRecords(db, parts).value| >= 5000
    ensures Rebuild(OnDisk(db, Rebuild(db, parts), k), parts).res.Failure?
  {
    hide Rebuild, LoadRecords, FtsOnly, Faithful, Count, LivePart, IndexDim;
    RerunSucceedsIff(db, parts, k);
  }

  lemma PlainParts()
    ensures FtsOnly(PLAIN_PARTS) && Faithful(PLAIN_PARTS)
  {
    hide FtsPart, IsFts;
    forall params: VectorParams, vectors: seq<(u64, seq<f32>)>
      ensures FaithfulOn(params, vectors, PLAIN_PARTS.build(params, vectors))
    {
      UnlinkedIsFaithful(params, vectors);
    }
  }

  lemma UnlinkedIsFaithful(params: VectorParams, vectors: seq<(u64, seq<f32>)>)
    ensures FaithfulOn(params, vectors, Unlinked(vectors))
  {
    var graph := Unlinked(vectors);
    forall n | n in graph.nodes
      ensures !n.1.deleted && n.1.neighbors == [] && (n.0, n.1.vector) in vectors
    {
      var i :| 0 <= i < |graph.nodes| && graph.nodes[i] == n;
      assert (n.0, n.1.vector) == vectors[i];
    }
    forall v | v in vectors
      ensures HasNode(graph.nodes, v.0)
    {
      var i :| 0 <= i < |vectors| && vectors[i] == v;
      assert graph.nodes[i] in graph.nodes;
    }
  }

  /** There are such stores: five thousand records rebuild once and never again. */
  lemma RebuildNotResumable()
    ensures var db := Many(5000);
      && FtsOnly(PLAIN_PARTS) && Faithful(PLAIN_PARTS)
      && Rebuild(db, PLAIN_PARTS).res.Success? && |Rebuild(db, PLAIN_PARTS).commits| > 0
      && Rebuild(OnDisk(db, Rebuild(db, PLAIN_PARTS), 1), PLAIN_PARTS).res.Failure?
  {
    hide Many, LoadRecords, MappingError, Clean, Rebuild, InsertRecords, ScanPrefix, Ascii, StartsWith, FtsOnly, Faithful;
    hide StoredMeta, DecodeVectorMeta;
    var db := Many(5000);
    PlainParts();
    ManyRecords(5000);
    forall key | key in db
      ensures !StartsWith(key, NODE_PREFIX) && !StartsWith(key, VECMAP_PREFIX) && !StartsWith(key, FTS_PREFIX)
      ensures key != VECTOR_META_KEY
    {
      KeyClasses(key);
      RecordsArePrimary(key);
    }
    ScanNothing(db, NODE_PREFIX);
    ScanNothing(db, VECMAP_PREFIX);
    ScanNothing(db, FTS_PREFIX);
    NoIndex(db);
    var records := LoadRecords(db, PLAIN_PARTS).value;
    NothingStaged(Clean(db, records), records);
    RebuildSucceedsIff(db, PLAIN_PARTS);
    RerunRefused(db, PLAIN_PARTS, 1);
  }

  lemma NoIndex(db: Db)
    requires ScanPrefix(db, NODE_PREFIX) == [] && VECTOR_META_KEY !in db
    ensures ParamsOf(db) == Success(None) && LiveNodeIds(db).Success?
  {
    hide ScanPrefix, Ascii, DecodeVectorMeta;
  }

  // ── what a finished rebuild leaves ─────────────────────────────────────

  lemma FinalMappings(db: Db, parts: Parts, key: Bytes)
    requires FtsOnly(parts) && Faithful(parts) && Rebuild(db, parts).res.Success?
    requires IsMapping(key) || key == MEMORY_META_KEY
    ensures ValueAt(FinalOf(db, Rebuild(db, parts)), key) == ValueAt(FinalOf(db, Reindex(db, parts)), key)
  {
    hide Rebuild, Reindex, FtsOnly, Faithful, LivePart, NodesFine, Whole, ParamsOf, IsNode, Ascii;
    FinalIs(db, parts);
    MappingsOffVector(key);
    MemoryMetaOffVector();
    var final, mid := FinalOf(db, Rebuild(db, parts)), FinalOf(db, Reindex(db, parts));
    assert ValueAt(OffVector(final), key) == ValueAt(final, key) && ValueAt(OffVector(mid), key) == ValueAt(mid, key);
  }

  lemma MemoryMetaOffVector()
    ensures !IsVector(MEMORY_META_KEY)
  {
    hide Ascii;
    var key := MEMORY_META_KEY;
    if IsVector(key) {
      if IsNode(key) {
        KeyspacesDisjoint(key, MemoryMeta, Nodes);
      } else {
        KeyspacesDisjoint(key, MemoryMeta, VectorMeta);
      }
    }
  }

  lemma WholeLeads(db: Db, final: Db, epoch: u64, parts: Parts)
    requires Faithful(parts) && ParamsOf(db).Success? && ParamsOf(db).value.Some?
    requires Whole(final, ParamsOf(db).value.value, epoch, parts)
    ensures EdgesLead(final, ParamsOf(db).value.value)
  {
    hide Faithful, ParamsOf, EdgesLead, Graphed, LivePart;
    ParamsFit(db);
    GraphedLeads(final, ParamsOf(db).value.value, parts);
  }

  /** One past the greatest vector id in use, as far as there is one. */
  ghost predicate PastAll(db: Db, parts: Parts, next: nat) {
    && (forall r :: Holds(db, parts, r) ==> r.stored.vecId < next || r.stored.vecId == next == U64_LIMIT - 1)
    && if exists r :: Holds(db, parts, r)
       then exists r :: Holds(db, parts, r) && (next == r.stored.vecId + 1 || next == r.stored.vecId == U64_LIMIT - 1)
       else next == 0
  }

  lemma NextIsPastAll(db: Db, parts: Parts)
    requires LoadRecords(db, parts).Success?
    ensures PastAll(db, parts, NextVecId(LoadRecords(db, parts).value))
  {
    hide LoadRecords, Holds, NextVecId;
    var records := LoadRecords(db, parts).value;
    LoadedIsHeld(db, parts);
    NextVecIdIs(records);
    if records != [] {
      var r :| r in records && NextVecId(records) == SaturatingSucc64(r.stored.vecId);
      assert Holds(db, parts, r);
    }
  }

  /** After a rebuild the vector id of every record in the store, found by its key, maps back to its agent and id, no
      other mapping is left, the allocator reads back as one past the greatest id, and the vector index, if there is
      one, is whole and one epoch on, every edge of it leading from a live node to another. */
  lemma RebuildResult(db: Db, parts: Parts)
    requires FtsOnly(parts) && Faithful(parts) && Rebuild(db, parts).res.Success?
    ensures LoadRecords(db, parts).Success? && ParamsOf(db).Success?
    ensures var final, records := FinalOf(db, Rebuild(db, parts)), LoadRecords(db, parts).value;
      && LoadRecords(final, parts) == Success(records) && LivePart(final) == LivePart(db)
      && (forall r :: r in records <==> Holds(db, parts, r))
      && (forall r :: Holds(db, parts, r) ==>
            var key := VecmapKey(r.stored.vecId);
            key in final && DecodeVecMap(final[key]) == Success(VecMapEntry(r.agent, r.id)))
      && (forall key :: key in final && IsMapping(key) ==>
            exists r :: Holds(db, parts, r) && VecmapKey(r.stored.vecId) == key)
      && MEMORY_META_KEY in final && DecodeMeta(final[MEMORY_META_KEY]) == Success(NextVecId(records))
      && PastAll(db, parts, NextVecId(records))
      && (ParamsOf(db).value.Some? ==>
            var params := ParamsOf(db).value.value;
            Whole(final, params, NextEpoch(Some(OpenEpoch(db))), parts) && EdgesLead(final, params))
  {
    hide Rebuild, Reindex, LoadRecords, FtsOnly, Faithful, LivePart, NodesFine, Whole, ParamsOf, IsMapping, PrimaryPart;
    hide EdgesLead, Graphed, Holds, PastAll;
    hide NextVecId, DecodeVecMap, DecodeMeta, VecmapKey, Ascii, OffVector, OpenEpoch, BlockDims;
    var final, mid := FinalOf(db, Rebuild(db, parts)), FinalOf(db, Reindex(db, parts));
    FinalIs(db, parts);
    if ParamsOf(db).value.Some? {
      WholeLeads(db, final, NextEpoch(Some(OpenEpoch(db))), parts);
    }
    ReindexResult(db, parts);
    LoadedIsHeld(db, parts);
    NextIsPastAll(db, parts);
    RebuildKeepsPrimary(db, parts, |Rebuild(db, parts).commits|);
    SameRecords(final, db, parts);
    forall key | IsMapping(key) || key == MEMORY_META_KEY
      ensures ValueAt(final, key) == ValueAt(mid, key)
    {
      FinalMappings(db, parts, key);
    }
    forall r | r in LoadRecords(db, parts).value
      ensures IsMapping(VecmapKey(r.stored.vecId))
    {
      VecmapKeyIsMapping(r.stored.vecId);
    }
  }

  /** The metadata a finished rebuild leaves: the same parameters, the live vectors counted, and the epoch one on from
      what opening the index left, which is itself one on, from zero if there is no metadata, unless it opens as it is. */
  lemma RebuiltMeta(db: Db, parts: Parts)
    requires FtsOnly(parts) && Faithful(parts) && Rebuild(db, parts).res.Success?
    requires ParamsOf(db).Success? && ParamsOf(db).value.Some?
    ensures var meta, before := StoredMeta(FinalOf(db, Rebuild(db, parts))), StoredMeta(db);
      && meta.Some? && meta.value.params == ParamsOf(db).value.value
      && (|LivePart(db)| < 0x1_0000_0000_0000_0000 ==> meta.value.count == |LivePart(db)|)
      && (|LivePart(db)| >= 0x1_0000_0000_0000_0000 ==> meta.value.count == 0xFFFF_FFFF_FFFF_FFFF)
      && meta.value.epoch == if before.None? then 2
                             else if OpensClean(db) then (before.value.epoch + 1) % 0x1_0000_0000_0000_0000
                             else (before.value.epoch + 2) % 0x1_0000_0000_0000_0000
  {
    hide Rebuild, Reindex, LoadRecords, FtsOnly, Faithful, LivePart, NodesFine, ParamsOf, StoredMeta, OpensClean, Graphed;
    hide Resolves, IsNode, OffVector;
    FinalIs(db, parts);
  }

  /** The records without a live vector under their id. */
  ghost predicate Unembedded(db: Db, parts: Parts, agent: Bytes, id: Bytes) {
    exists stored :: Holds(db, parts, Record(agent, id, stored)) && NodeKey(stored.vecId) !in LivePart(db)
  }

  function ContentKeys(db: Db, parts: Parts): set<Bytes> {
    set key | key in db && StartsWith(key, RECORD_PREFIX) && parts.decodeRecord(db[key]).Success?
              && parts.decodeRecord(db[key]).value.content != []
  }

  lemma {:induction false} MissingAre(records: seq<Record>, live: set<nat>, agent: Bytes, id: Bytes)
    ensures (agent, id) in Missing(records, live)
       <==> exists r :: r in records && r.agent == agent && r.id == id && r.stored.vecId as nat !in live
  {
    if records != [] {
      var first, rest := records[0], records[1..];
      MissingAre(rest, live, agent, id);
      assert forall r :: r in records <==> r == first || r in rest;
    }
  }

  function WithContent(records: seq<Record>, keys: seq<Bytes>): set<Bytes>
    requires |records| == |keys|
  {
    if records == [] then {}
    else
      var n := |records| - 1;
      WithContent(records[..n], keys[..n]) + if records[n].stored.content == [] then {} else {keys[n]}
  }

  lemma {:induction false} WithContentIs(records: seq<Record>, keys: seq<Bytes>, key: Bytes)
    requires |records| == |keys|
    ensures key in WithContent(records, keys)
       <==> exists i :: 0 <= i < |keys| && keys[i] == key && records[i].stored.content != []
  {
    if records != [] {
      var n := |records| - 1;
      WithContentIs(records[..n], keys[..n], key);
      assert forall i :: 0 <= i < n ==> records[..n][i] == records[i] && keys[..n][i] == keys[i];
    }
  }

  lemma {:induction false} CountDocuments(records: seq<Record>, keys: seq<Bytes>)
    requires |records| == |keys| && forall i, j :: 0 <= i < j < |keys| ==> keys[i] != keys[j]
    ensures Documents(records) == |WithContent(records, keys)|
  {
    if records != [] {
      var n := |records| - 1;
      CountDocuments(records[..n], keys[..n]);
      WithContentIs(records[..n], keys[..n], keys[n]);
      assert forall i :: 0 <= i < n ==> keys[..n][i] == keys[i];
    }
  }

  lemma DocumentsAre(db: Db, parts: Parts)
    requires LoadRecords(db, parts).Success?
    ensures Documents(LoadRecords(db, parts).value) == |ContentKeys(db, parts)|
  {
    hide ScanPrefix, LoadRecord, RecordKey, StartsWith, Ascii, Documents, WithContent;
    var entries, records := ScanPrefix(db, RECORD_PREFIX), LoadRecords(db, parts).value;
    ScannedKeys(db, RECORD_PREFIX);
    LoadAllIs(entries, parts);
    var keys := seq(|entries|, i requires 0 <= i < |entries| => entries[i].key);
    forall i, j | 0 <= i < j < |keys|
      ensures keys[i] != keys[j]
    {
      LtIrreflexive(keys[i]);
    }
    CountDocuments(records, keys);
    forall i | 0 <= i < |entries|
      ensures keys[i] in db && StartsWith(keys[i], RECORD_PREFIX)
      ensures parts.decodeRecord(db[keys[i]]) == Success(records[i].stored)
    {
      assert entries[i] in entries;
      LoadRecordIs(entries[i], parts, records[i]);
    }
    forall key
      ensures key in ContentKeys(db, parts) <==> key in WithContent(records, keys)
    {
      WithContentIs(records, keys, key);
      if key in ContentKeys(db, parts) {
        assert key in KeySet(entries);
        var e :| e in entries && e.key == key;
        var i :| 0 <= i < |entries| && entries[i] == e;
        assert keys[i] == key;
      }
    }
    assert ContentKeys(db, parts) == WithContent(records, keys);
  }

  lemma LiveIdIff(db: Db, id: u64)
    ensures id as nat in IdsOf(LivePart(db)) <==> NodeKey(id) in LivePart(db)
  {
    hide LivePart, NodeKey, NodeId, Ascii;
    NodeKeyIs(id);
    if id as nat in IdsOf(LivePart(db)) {
      var key :| key in LivePart(db) && NodeId(key) == Some(id as nat);
      KeyOfId(key);
    }
  }

  /** The report of a successful run, counted over the store: its record keys, those with content, and just the
      records without a live vector. */
  lemma ReportIs(db: Db, parts: Parts)
    requires FtsOnly(parts) && Faithful(parts) && Rebuild(db, parts).res.Success?
    ensures var report := Rebuild(db, parts).res.value;
      && report.mappings == |RecordKeys(db)| && report.documents == |ContentKeys(db, parts)|
      && (forall agent, id :: (agent, id) in report.reembedding <==> Unembedded(db, parts, agent, id))
      && InKeyOrder(report.reembedding)
      && ParamsOf(db).Success? && report.vectorGraph == ParamsOf(db).value.Some?
  {
    hide Rebuild, Reindex, LoadRecords, FtsOnly, Faithful, LivePart, ParamsOf, Holds, Missing, Documents, LiveNodeIds;
    hide VectorRun, Reindexable, VectorsRebuildable, IdsOf, NodeKey, RecordKeys, ContentKeys, InKeyOrder;
    RebuildSucceedsIff(db, parts);
    LoadedIsHeld(db, parts);
    LoadedInOrder(db, parts);
    MissingInOrder(LoadRecords(db, parts).value, LiveNodeIds(db).value);
    DocumentsAre(db, parts);
    LiveNodeIdsAre(db);
    var records, live := LoadRecords(db, parts).value, LiveNodeIds(db).value;
    forall agent, id
      ensures (agent, id) in Missing(records, live) <==> Unembedded(db, parts, agent, id)
    {
      MissingAre(records, live, agent, id);
      forall r | r in records
        ensures r.stored.vecId as nat in live <==> NodeKey(r.stored.vecId) in LivePart(db)
      {
        LiveIdIff(db, r.stored.vecId);
      }
      if Unembedded(db, parts, agent, id) {
        var stored :| Holds(db, parts, Record(agent, id, stored)) && NodeKey(stored.vecId) !in LivePart(db);
        assert Record(agent, id, stored) in records;
      }
      if r :| r in records && r.agent == agent && r.id == id && r.stored.vecId as nat !in live {
        assert Holds(db, parts, Record(agent, id, r.stored));
      }
    }
  }

  /** The allocator is above every id in use, of a node block or of a mapping. */
  ghost predicate AllBelow(db: Db, next: nat) {
    forall key :: key in db ==>
      (NodeId(key).Some? ==> NodeId(key).value < next) && (VecmapId(key).Some? ==> VecmapId(key).value < next)
  }

  /** A finished rebuild leaves no tombstone. */
  lemma NodesAreLive(db: Db, parts: Parts, key: Bytes)
    requires FtsOnly(parts) && Faithful(parts) && Rebuild(db, parts).res.Success?
    requires key in FinalOf(db, Rebuild(db, parts)) && NodeId(key).Some?
    ensures key in LivePart(FinalOf(db, Rebuild(db, parts)))
  {
    hide Rebuild, Reindex, FtsOnly, Faithful, LivePart, NodesFine, ScanPrefix, StoredMeta, FinalOf, DecodeNode, Ascii;
    hide OpenEpoch, OffVector;
    FinalIs(db, parts);
    if ParamsOf(db).value.None? {
      SameNodeScan(db, parts);
      var i := EntryAt(FinalOf(db, Rebuild(db, parts)), key);
      assert false;
    }
  }

  lemma NodesBelow(db: Db, next: nat)
    requires forall key :: key in db && NodeId(key).Some? ==> key in LivePart(db)
    ensures (forall key :: key in db && NodeId(key).Some? ==> NodeId(key).value < next)
        <==> forall id :: id in IdsOf(LivePart(db)) ==> id < next
  {
    hide NodeId, DecodeNode, IsNode;
    if forall key :: key in db && NodeId(key).Some? ==> NodeId(key).value < next {
      forall id | id in IdsOf(LivePart(db))
        ensures id < next
      {
        var key :| key in LivePart(db) && NodeId(key) == Some(id);
      }
    }
    forall key | key in db && NodeId(key).Some?
      ensures NodeId(key).value in IdsOf(LivePart(db))
    {
    }
  }

  /** A finished rebuild has cured the allocator, so that no id in use is handed out again, if and only if every live
      vector's id was at most some record's, and no record has the last id. */
  lemma AllocatorCuredIff(db: Db, parts: Parts)
    requires FtsOnly(parts) && Faithful(parts) && Rebuild(db, parts).res.Success?
    ensures LoadRecords(db, parts).Success? && LiveNodeIds(db).Success?
    ensures var final, records := FinalOf(db, Rebuild(db, parts)), LoadRecords(db, parts).value;
      && MEMORY_META_KEY in final && DecodeMeta(final[MEMORY_META_KEY]).Success?
      && LiveNodeIds(final) == LiveNodeIds(db)
      && (AllBelow(final, DecodeMeta(final[MEMORY_META_KEY]).value)
          <==> && (forall id :: id in LiveNodeIds(db).value ==> exists r :: r in records && id <= r.stored.vecId)
               && (forall r :: r in records ==> r.stored.vecId != U64_LIMIT - 1))
  {
    hide Rebuild, Reindex, LoadRecords, FtsOnly, Faithful, LivePart, NodesFine, Whole, ParamsOf, LiveNodeIds, PrimaryPart;
    hide NextVecId, DecodeVecMap, DecodeMeta, VecmapKey, VecmapId, Ascii, OffVector, OpenEpoch, IdsOf, StartsWith, NodeId;
    RebuildResult(db, parts);
    FinalIs(db, parts);
    var final, records := FinalOf(db, Rebuild(db, parts)), LoadRecords(db, parts).value;
    LiveNodeIdsAre(db);
    LiveNodeIdsAre(final);
    forall key | key in final && VecmapId(key).Some?
      ensures exists r :: r in records && VecmapId(key) == Some(r.stored.vecId as nat)
    {
      VecmapIsMapping(key);
      var r :| r in records && VecmapKey(r.stored.vecId) == key;
      VecmapKeyInjective(r.stored.vecId, r.stored.vecId);
    }
    forall r | r in records
      ensures VecmapKey(r.stored.vecId) in final && VecmapId(VecmapKey(r.stored.vecId)) == Some(r.stored.vecId as nat)
    {
      VecmapKeyInjective(r.stored.vecId, r.stored.vecId);
    }
    forall key | key in final && NodeId(key).Some?
      ensures key in LivePart(final)
    {
      NodesAreLive(db, parts, key);
    }
    NodesBelow(final, NextVecId(records));
    AllocatorFreshIff(records, LiveNodeIds(final).value);
  }

  lemma VecmapIsMapping(key: Bytes)
    ensures VecmapId(key).Some? ==> IsMapping(key)
  {
    hide FromBe, Ascii;
  }

  // ── an allocator the rebuild leaves stale ──────────────────────────────

  const LONE_VECTOR: VectorNode := VectorNode([0], [], false)

  /** No records, and one live vector under id 5. */
  function Orphaned(): Db {
    map[NodeKey(5) := NodeBytes(LONE_VECTOR)]
  }

  lemma OrphanedIs()
    ensures var db := Orphaned();
      && NodesFine(db) && LivePart(db) == map[NodeKey(5) := [0]] && IdsOf(LivePart(db)) == {5}
      && LoadRecords(db, PLAIN_PARTS) == Success([]) && VECTOR_META_KEY !in db
      && Count(db, VECMAP_PREFIX) == 0 && Count(db, FTS_PREFIX) == 0
  {
    hide NodeKey, NodeBytes, DecodeNode, StartsWith, NodeId, Ascii;
    var db, key := Orphaned(), NodeKey(5);
    NodeKeyIs(5);
    NodeRoundTrip(LONE_VECTOR);
    KeyClasses(key);
    if StartsWith(key, RECORD_PREFIX) {
      KeyspacesDisjoint(key, Records, Nodes);
    }
    ScanNothing(db, RECORD_PREFIX);
    ScanNothing(db, VECMAP_PREFIX);
    ScanNothing(db, FTS_PREFIX);
  }

  /** A live vector above all records: the rebuild of this store goes through and hands its id out again. */
  lemma AllocatorStaysStale()
    ensures var db := Orphaned();
      && FtsOnly(PLAIN_PARTS) && Faithful(PLAIN_PARTS) && Rebuild(db, PLAIN_PARTS).res.Success?
      && var final := FinalOf(db, Rebuild(db, PLAIN_PARTS));
      && MEMORY_META_KEY in final && DecodeMeta(final[MEMORY_META_KEY]) == Success(0)
      && LiveNodeIds(final) == Success({5})
  {
    hide Rebuild, Reindex, LoadRecords, FtsOnly, Faithful, LivePart, NodesFine, ParamsOf, Orphaned, VecmapKey, ScanPrefix;
    hide DecodeMeta, DecodeVecMap, Clean, Ascii, IdsOf, LiveNodeIds, StartsWith, Whole;
    var db := Orphaned();
    PlainParts();
    OrphanedIs();
    LiveNodeIdsAre(db);
    RebuildableDim(db);
    LoneDim(db);
    NoMappings();
    assert Reindexable(db, PLAIN_PARTS) by { NothingMissing(db); }
    RebuildSucceedsIff(db, PLAIN_PARTS);
    RebuildResult(db, PLAIN_PARTS);
    AllocatorCuredIff(db, PLAIN_PARTS);
  }

  lemma NothingMissing(db: Db)
    ensures MappingError([]).None? && InsertRecords(Clean(db, []), [], PLAIN_PARTS).res.Success? && NextVecId([]) == 0
  {
    hide Clean;
  }

  lemma LoneDim(db: Db)
    requires db == Orphaned()
    ensures IndexDim(db) == Some(1) && AllDim(db, 1)
  {
    hide ScanPrefix, DecodeNode, NodeBytes, NodeKey, Ascii, StartsWith, NodeId;
    OrphanedIs();
    NodeKeyIs(5);
    NodeRoundTrip(LONE_VECTOR);
    if ScanPrefix(db, NODE_PREFIX) == [] {
      NoNodesNoLive(db);
    } else {
      FirstDecodes(db);
      EntryBlock(db, 0);
    }
  }

  // ── the rebuild as the engine runs it ──────────────────────────────────

  /** From `db`, with `commits` durable before, the steps of `o` were taken and its result returned. */
  ghost predicate Ran<T>(o: Outcome<T>, db: Db, commits: seq<Db>, db': Db, commits': seq<Db>, res: Result<T>) {
    db' == FinalOf(db, o) && commits' == commits + o.commits && res == o.res
  }

  class Store {
    var db: Db
    /** The states made durable so far. */
    ghost var commits: seq<Db>

    constructor (db: Db)
      ensures this.db == db && commits == []
    {
      this.db, commits := db, [];
    }

    method ApplyBatch(batch: Batch) returns (res: Result<()>)
      modifies this
      ensures Ran(Commit(old(db), batch), old(db), old(commits), db, commits, res)
    {
      if batch == [] {
        return Success(());
      }
      if |batch| > F.MAX_BATCH_OPS {
        return Failure(WalBatchTooLarge(|batch|, F.MAX_BATCH_OPS));
      }
      var next := db;
      for i := 0 to |batch|
        invariant next == Applied(db, batch[..i]) && db == old(db) && commits == old(commits)
      {
        assert batch[..i + 1][..i] == batch[..i];
        var (key, value) := batch[i];
        if value.Some? {
          next := next[key := value.value];
        } else {
          next := next - {key};
        }
      }
      assert batch[..|batch|] == batch;
      db, commits := next, commits + [next];
      return Success(());
    }

    method RebuildMappings(records: seq<Record>) returns (res: Result<()>)
      modifies this
      ensures Ran(MappingRun(old(db), records), old(db), old(commits), db, commits, res)
    {
      hide Applied, MetaBytes, VecMapBytes, VecmapKey, Ascii, ScanPrefix, MappingError, VecIds, Mappings, NextVecId;
      NothingMapped();
      var batch := StageDeletes(ScanPrefix(db, VECMAP_PREFIX));
      batch := batch + [(MEMORY_META_KEY, None)];
      ghost var start := batch;
      var ids: set<nat>, greatest: Option<u64> := {}, None;
      for i := 0 to |records|
        invariant MappingError(records[..i]).None? && ids == VecIds(records[..i])
        invariant batch == start + Mappings(records[..i])
        invariant NextVecId(records[..i]) == if greatest.None? then 0 else SaturatingSucc64(greatest.value)
        invariant db == old(db) && commits == old(commits)
      {
        var r := records[i];
        MappingStep(records, i);
        if r.stored.vecId as nat in ids {
          StopsAt(records, i);
          return Failure(CorruptMemoryRecord);
        }
        ids := ids + {r.stored.vecId as nat};
        var mapping := EncodeVecMap(VecMapEntry(r.agent, r.id));
        if mapping.Failure? {
          StopsAt(records, i);
          return Failure(mapping.error);
        }
        batch := batch + [(VecmapKey(r.stored.vecId), Some(mapping.value))];
        if greatest.None? || greatest.value < r.stored.vecId {
          greatest := Some(r.stored.vecId);
        }
      }
      assert records[..|records|] == records;
      var next := if greatest.None? then 0 else SaturatingSucc64(greatest.value);
      batch := batch + [(MEMORY_META_KEY, Some(MetaBytes(next)))];
      res := ApplyBatch(batch);
    }

    method RebuildFts(records: seq<Record>, parts: Parts) returns (res: Result<()>)
      modifies this
      ensures Ran(FtsRun(old(db), records, parts), old(db), old(commits), db, commits, res)
    {
      hide Applied, ScanPrefix, Ascii, Commit, InsertRecords, FtsRun;
      ghost var whole := FtsRun(db, records, parts);
      FtsRunParts(db, records, parts);
      var purge := StageDeletes(ScanPrefix(db, FTS_PREFIX));
      res := ApplyBatch(purge);
      ghost var done := Commit(old(db), PurgeBatch(old(db))).commits;
      if res.Failure? {
        return;
      }
      assert records[0..] == records;
      for i := 0 to |records|
        invariant commits == old(commits) + done && Continues(whole, done, db, InsertRecords(db, records[i..], parts), old(db))
      {
        var r := records[i];
        InsertStep(db, records, i, parts);
        var staged := parts.stageInsert(db, r.agent, r.stored.vecId, r.stored.content);
        if staged.Failure? {
          return Failure(staged.error);
        }
        ghost var first := Commit(db, staged.value);
        ContinuesStep(whole, done, db, first, InsertRecords(FinalOf(db, first), records[i + 1..], parts), old(db));
        res := ApplyBatch(staged.value);
        done := done + first.commits;
        if res.Failure? {
          return;
        }
      }
      InsertEnd(db, records, parts);
      return Success(());
    }

    method FlushGraph(nodes: seq<(u64, VectorNode)>) returns (res: Result<()>)
      modifies this
      ensures Ran(FlushNodes(old(db), nodes), old(db), old(commits), db, commits, res)
    {
      hide Applied, Commit, FlushNodes, Puts, Continues, Then, FinalOf;
      ghost var whole, done := FlushNodes(db, nodes), [];
      var rest := nodes;
      ContinuesStart(whole, db);
      while rest != []
        invariant commits == old(commits) + done && Continues(whole, done, db, FlushNodes(db, rest), old(db))
        decreases |rest|
      {
        FlushStep(db, rest);
        var n := Chunk(|rest|);
        var batch := StagePuts(rest[..n]);
        if batch.Failure? {
          ContinuesEnd(whole, done, db, FlushNodes(db, rest), old(db));
          return Failure(batch.error);
        }
        ghost var first := Commit(db, batch.value);
        ContinuesStep(whole, done, db, first, FlushNodes(FinalOf(db, first), rest[n..]), old(db));
        res := ApplyBatch(batch.value);
        done := done + first.commits;
        if res.Failure? {
          return;
        }
        rest := rest[n..];
      }
      FlushStep(db, rest);
      ContinuesEnd(whole, done, db, FlushNodes(db, rest), old(db));
      return Success(());
    }

    method PurgeTombstones(ids: seq<u64>) returns (res: Result<()>)
      modifies this
      ensures Ran(PurgeNodes(old(db), ids), old(db), old(commits), db, commits, res)
    {
      hide Applied, Commit, PurgeNodes, NodeDeletes, Continues, Then, FinalOf;
      ghost var whole, done := PurgeNodes(db, ids), [];
      var rest := ids;
      ContinuesStart(whole, db);
      while rest != []
        invariant commits == old(commits) + done && Continues(whole, done, db, PurgeNodes(db, rest), old(db))
        decreases |rest|
      {
        PurgeStep(db, rest);
        var n := Chunk(|rest|);
        var batch := StageNodeDeletes(rest[..n]);
        ghost var first := Commit(db, batch);
        ContinuesStep(whole, done, db, first, PurgeNodes(FinalOf(db, first), rest[n..]), old(db));
        res := ApplyBatch(batch);
        done := done + first.commits;
        if res.Failure? {
          return;
        }
        rest := rest[n..];
      }
      PurgeStep(db, rest);
      ContinuesEnd(whole, done, db, PurgeNodes(db, rest), old(db));
      return Success(());
    }

    method WriteMetadata(meta: VectorIndexMeta) returns (res: Result<u64>)
      modifies this
      ensures Ran(WriteMeta(old(db), meta), old(db), old(commits), db, commits, res)
    {
      hide Applied, EncodedMeta, Ascii, Commit;
      var bytes := EncodedMeta(meta);
      if bytes.Failure? {
        return Failure(bytes.error);
      }
      var written := ApplyBatch([(VECTOR_META_KEY, Some(bytes.value))]);
      if written.Failure? {
        return Failure(written.error);
      }
      return Success(meta.epoch);
    }

    /** The graph built and flushed, the tombstones out, the metadata last. */
    method RegrowGraph(params: VectorParams, prior: Option<u64>, survivors: Survivors, parts: Parts)
      returns (res: Result<u64>)
      modifies this
      ensures Ran(Regrow(old(db), params, prior, survivors, parts), old(db), old(commits), db, commits, res)
    {
      hide FlushNodes, PurgeNodes, WriteMeta, Ran, Then, FinalOf;
      var graph := parts.build(params, survivors.vectors);
      ghost var db0, c0, flush := db, commits, FlushNodes(db, graph.nodes);
      var flushed := FlushGraph(graph.nodes);
      ghost var db1, c1 := db, commits;
      ghost var purge := PurgeNodes(db1, survivors.tombstones);
      RanFinal(flush, db0, c0, db1, c1, flushed);
      ghost var both := Rewritten(db0, survivors, graph);
      var meta := FreshMeta(params, prior, survivors.vectors, graph);
      if flushed.Failure? {
        RanStops(flush, purge, db0, c0, db1, c1, flushed);
        RanStops(both, WriteMeta(FinalOf(db0, both), meta), db0, c0, db1, c1, flushed);
        return Failure(flushed.error);
      }
      var purged := PurgeTombstones(survivors.tombstones);
      RanThen(flush, purge, db0, c0, db1, c1, flushed, db, commits, purged);
      RanFinal(both, db0, c0, db, commits, purged);
      ghost var db2, c2 := db, commits;
      if purged.Failure? {
        RanStops(both, WriteMeta(db2, meta), db0, c0, db2, c2, purged);
        return Failure(purged.error);
      }
      res := WriteMetadata(meta);
      RanThen(both, WriteMeta(db2, meta), db0, c0, db2, c2, purged, db, commits, res);
    }

    /** Metadata away, survey, build, blocks back in chunks, tombstones out, metadata last. */
    method RebuildFromStore(params: VectorParams, prior: Option<u64>, parts: Parts) returns (res: Result<u64>)
      modifies this
      ensures Ran(RebuildStore(old(db), params, prior, parts), old(db), old(commits), db, commits, res)
    {
      hide Commit, Regrow, Survey, ScanPrefix, Ran, Then, FinalOf, Ascii;
      ghost var db0, c0, start := db, commits, Commit(db, [(VECTOR_META_KEY, None)]);
      var started := ApplyBatch([(VECTOR_META_KEY, None)]);
      ghost var db1, c1 := db, commits;
      ghost var next := Regrown(db1, params, prior, parts);
      RanFinal(start, db0, c0, db1, c1, started);
      if started.Failure? {
        RanStops(start, next, db0, c0, db1, c1, started);
        return Failure(started.error);
      }
      var survey := SurveyNodes(ScanPrefix(db, NODE_PREFIX), params.dim);
      if survey.Failure? {
        RanNothing(next, db1, c1);
        res := Failure(survey.error);
      } else {
        res := RegrowGraph(params, prior, survey.value, parts);
      }
      RanThen(start, next, db0, c0, db1, c1, started, db, commits, res);
    }

    method OpenVectors(params: VectorParams, parts: Parts) returns (res: Result<(VectorParams, u64)>)
      modifies this
      ensures Ran(OpenIndex(old(db), params, parts), old(db), old(commits), db, commits, res)
    {
      hide RebuildStore, ScanPrefix, DecodeVectorMeta, Ascii, NodeKey;
      assert commits + [] == commits;
      var stored := StoredMeta(db);
      if VECTOR_META_KEY !in db && ScanPrefix(db, NODE_PREFIX) == [] {
        return Success((params, 0));
      }
      if stored.Some? {
        if stored.value.params.dim != params.dim {
          return Failure(VectorDimensionMismatch(stored.value.params.dim, params.dim));
        }
        if Resolves(db, stored.value) {
          return Success((stored.value.params, stored.value.epoch));
        }
      }
      var epoch := RebuildFromStore(params, if stored.Some? then Some(stored.value.epoch) else None, parts);
      if epoch.Failure? {
        return Failure(epoch.error);
      }
      return Success((params, epoch.value));
    }

    /** Opening the index, and rebuilding it whatever the open found. */
    method RebuildVectors(parts: Parts) returns (res: Result<bool>)
      modifies this
      ensures Ran(VectorRun(old(db), parts), old(db), old(commits), db, commits, res)
    {
      hide OpenIndex, RebuildStore, ParamsOf;
      var params := ParamsOf(db);
      assert commits + [] == commits;
      if params.Failure? {
        return Failure(params.error);
      }
      if params.value.None? {
        return Success(false);
      }
      ghost var db0, c0, index := db, commits, OpenIndex(db, params.value.value, parts);
      var found := OpenVectors(params.value.value, parts);
      if found.Failure? {
        return Failure(found.error);
      }
      ghost var db1, c1 := db, commits;
      ghost var rebuilt := RebuildStore(db1, found.value.0, Some(found.value.1), parts);
      var epoch := RebuildFromStore(found.value.0, Some(found.value.1), parts);
      RanThen(index, rebuilt, db0, c0, db1, c1, found, db, commits, epoch);
      ghost var done: Outcome<bool> := Outcome([], Success(true));
      if epoch.Failure? {
        RanStops(Then(index, rebuilt), done, db0, c0, db, commits, epoch);
        return Failure(epoch.error);
      }
      res := Success(true);
      RanNothing(done, db, commits);
      RanThen(Then(index, rebuilt), done, db0, c0, db, commits, epoch, db, commits, res);
    }

    /** The first two phases, and the records whose vector is gone. */
    method RebuildRecords(parts: Parts) returns (res: Result<seq<(Bytes, Bytes)>>)
      modifies this
      ensures Ran(Reindex(old(db), parts), old(db), old(commits), db, commits, res)
    {
      hide ScanPrefix, Ascii, MappingRun, FtsRun;
      var loaded := LoadRecords(db, parts);
      if loaded.Failure? {
        return Failure(loaded.error);
      }
      var live := LiveNodeIds(db);
      if live.Failure? {
        return Failure(live.error);
      }
      var missing: seq<(Bytes, Bytes)> := [];
      assert loaded.value[0..] == loaded.value;
      for i := 0 to |loaded.value|
        invariant missing + Missing(loaded.value[i..], live.value) == Missing(loaded.value, live.value)
        invariant db == old(db) && commits == old(commits)
      {
        var r := loaded.value[i];
        assert loaded.value[i..][0] == r && loaded.value[i..][1..] == loaded.value[i + 1..];
        if r.stored.vecId !in live.value {
          missing := missing + [(r.agent, r.id)];
        }
      }
      assert missing + [] == missing;
      ghost var first, second := MappingRun(db, loaded.value), FtsRun(FinalOf(db, MappingRun(db, loaded.value)), loaded.value, parts);
      assert first.commits + second.commits + [] == first.commits + second.commits;
      assert old(commits) + first.commits + second.commits == old(commits) + (first.commits + second.commits);
      var mapped := RebuildMappings(loaded.value);
      if mapped.Failure? {
        return Failure(mapped.error);
      }
      var filled := RebuildFts(loaded.value, parts);
      if filled.Failure? {
        return Failure(filled.error);
      }
      return Success(missing);
    }

    /** The three phases in turn, and the report. */
    method RebuildIndexes(parts: Parts) returns (res: Result<Report>)
      modifies this
      ensures Ran(Rebuild(old(db), parts), old(db), old(commits), db, commits, res)
    {
      hide Reindex, VectorRun, LoadRecords;
      var records := RecordsOf(db, parts);
      ghost var indexed, c0 := Reindex(db, parts), commits;
      var missing := RebuildRecords(parts);
      if missing.Failure? {
        return Failure(missing.error);
      }
      var documents := 0;
      for i := 0 to |records|
        invariant documents == Documents(records[..i])
        invariant Ran(indexed, old(db), old(commits), db, commits, missing)
      {
        assert records[..i + 1][..i] == records[..i];
        if records[i].stored.content != [] {
          documents := documents + 1;
        }
      }
      assert records[..|records|] == records;
      ghost var vectors := VectorRun(db, parts);
      assert c0 + indexed.commits + vectors.commits == c0 + (indexed.commits + vectors.commits);
      var rebuilt := RebuildVectors(parts);
      if rebuilt.Failure? {
        return Failure(rebuilt.error);
      }
      return Success(Report(|records|, documents, rebuilt.value, missing.value));
    }
  }

  lemma RanFinal<T>(o: Outcome<T>, db: Db, commits: seq<Db>, db': Db, commits': seq<Db>, res: Result<T>)
    requires Ran(o, db, commits, db', commits', res)
    ensures db' == FinalOf(db, o) && o.res == res
  {
  }

  lemma RanNothing<T>(o: Outcome<T>, db: Db, commits: seq<Db>)
    requires o.commits == []
    ensures Ran(o, db, commits, db, commits, o.res)
  {
    assert commits + [] == commits;
  }

  lemma RanStops<T, U>(first: Outcome<T>, next: Outcome<U>, db: Db, c: seq<Db>, db1: Db, c1: seq<Db>, res: Result<T>)
    requires Ran(first, db, c, db1, c1, res) && res.Failure?
    ensures Ran(Then(first, next), db, c, db1, c1, Failure(res.error))
  {
  }

  lemma RanThen<T, U>(first: Outcome<T>, next: Outcome<U>, db: Db, c: seq<Db>, db1: Db, c1: seq<Db>, res: Result<T>,
                      db2: Db, c2: seq<Db>, res2: Result<U>)
    requires Ran(first, db, c, db1, c1, res) && res.Success? && Ran(next, db1, c1, db2, c2, res2)
    ensures Ran(Then(first, next), db, c, db2, c2, res2)
  {
    assert c + first.commits + next.commits == c + (first.commits + next.commits);
  }

  /** The run `whole` from `start` has made `done` durable, is at `db`, and `rest` is what remains of it. */
  ghost predicate Continues(whole: Outcome<()>, done: seq<Db>, db: Db, rest: Outcome<()>, start: Db) {
    && whole.commits == done + rest.commits && whole.res == rest.res
    && db == if done == [] then start else done[|done| - 1]
  }

  lemma FtsRunParts(db: Db, records: seq<Record>, parts: Parts)
    ensures var purged, whole := Commit(db, PurgeBatch(db)), FtsRun(db, records, parts);
      if purged.res.Failure? then Ran(whole, db, [], FinalOf(db, purged), purged.commits, Failure(purged.res.error))
      else Continues(whole, purged.commits, FinalOf(db, purged), InsertRecords(FinalOf(db, purged), records, parts), db)
  {
    hide InsertRecords, Applied, PurgeBatch;
    assert [] + Commit(db, PurgeBatch(db)).commits == Commit(db, PurgeBatch(db)).commits;
  }

  lemma InsertStep(db: Db, records: seq<Record>, i: nat, parts: Parts)
    requires i < |records|
    ensures var r, o := records[i], InsertRecords(db, records[i..], parts);
      var staged := parts.stageInsert(db, r.agent, r.stored.vecId, r.stored.content);
      if staged.Failure? then o == Outcome([], Failure(staged.error))
      else
        var first := Commit(db, staged.value);
        o == Then(first, InsertRecords(FinalOf(db, first), records[i + 1..], parts))
  {
    hide Commit;
    assert records[i..][0] == records[i] && records[i..][1..] == records[i + 1..];
  }

  lemma InsertEnd(db: Db, records: seq<Record>, parts: Parts)
    ensures InsertRecords(db, records[|records|..], parts) == Outcome([], Success(()))
  {
  }

  lemma ContinuesStep(whole: Outcome<()>, done: seq<Db>, db: Db, first: Outcome<()>, rest: Outcome<()>, start: Db)
    requires Continues(whole, done, db, Then(first, rest), start)
    ensures first.res.Success? ==> Continues(whole, done + first.commits, FinalOf(db, first), rest, start)
    ensures first.res.Failure? ==> whole.commits == done + first.commits && whole.res == first.res
    ensures first.res.Failure? ==> FinalOf(db, first) == FinalOf(start, whole)
  {
    if first.res.Success? {
      assert done + (first.commits + rest.commits) == done + first.commits + rest.commits;
    }
  }

  method StageDeletes(entries: seq<Entry>) returns (batch: Batch)
    ensures batch == Deletes(entries)
  {
    batch := [];
    for i := 0 to |entries|
      invariant batch == Deletes(entries[..i])
    {
      DeletesSnoc(entries[..i], entries[i]);
      assert entries[..i + 1] == entries[..i] + [entries[i]];
      batch := batch + [(entries[i].key, None)];
    }
    assert entries[..|entries|] == entries;
  }

  lemma {:induction false} DeletesSnoc(entries: seq<Entry>, last: Entry)
    ensures Deletes(entries + [last]) == Deletes(entries) + [(last.key, None)]
  {
    if entries == [] {
      assert entries + [last] == [last] && [last][1..] == [];
    } else {
      assert (entries + [last])[1..] == entries[1..] + [last];
      DeletesSnoc(entries[1..], last);
    }
  }

  lemma NothingMapped()
    ensures MappingError([]).None? && VecIds([]) == {} && Mappings([]) == [] && NextVecId([]) == 0
  {
  }

  lemma MappingStep(records: seq<Record>, i: nat)
    requires i < |records|
    ensures Mappings(records[..i + 1]) == Mappings(records[..i]) + [MappingOf(records[i])]
    ensures VecIds(records[..i + 1]) == VecIds(records[..i]) + {records[i].stored.vecId as nat}
    ensures MappingError(records[..i + 1])
         == if MappingError(records[..i]).Some? then MappingError(records[..i])
            else if records[i].stored.vecId as nat in VecIds(records[..i]) then Some(CorruptMemoryRecord)
            else if !Encodable(records[i]) then Some(CorruptMemoryVecMap) else None
    ensures var own := SaturatingSucc64(records[i].stored.vecId);
      NextVecId(records[..i + 1]) == if NextVecId(records[..i]) < own then own else NextVecId(records[..i])
  {
    hide VecmapKey, VecMapBytes;
    assert records[..i + 1][..i] == records[..i];
    assert records[..i + 1] == records[..i] + [records[i]];
  }

  /** The first record that stops the loop decides the outcome. */
  lemma {:induction false} StopsAt(records: seq<Record>, i: nat)
    requires i < |records| && MappingError(records[..i + 1]).Some?
    ensures MappingError(records) == MappingError(records[..i + 1])
    decreases |records|
  {
    var n := |records| - 1;
    if i < n {
      assert records[..n][..i + 1] == records[..i + 1];
      StopsAt(records[..n], i);
    } else {
      assert records[..i + 1] == records;
    }
  }

  lemma ContinuesStart(whole: Outcome<()>, db: Db)
    ensures Continues(whole, [], db, whole, db)
  {
    assert [] + whole.commits == whole.commits;
  }

  lemma ContinuesEnd(whole: Outcome<()>, done: seq<Db>, db: Db, rest: Outcome<()>, start: Db)
    requires Continues(whole, done, db, rest, start) && rest.commits == []
    ensures whole.commits == done && whole.res == rest.res && FinalOf(start, whole) == db
  {
    assert done + [] == done;
  }

  lemma FlushStep(db: Db, nodes: seq<(u64, VectorNode)>)
    ensures if nodes == [] then FlushNodes(db, nodes) == Outcome([], Success(()))
            else
              var batch := Puts(nodes[..Chunk(|nodes|)]);
              if batch.Failure? then FlushNodes(db, nodes) == Outcome([], Failure(batch.error))
              else
                var first := Commit(db, batch.value);
                FlushNodes(db, nodes) == Then(first, FlushNodes(FinalOf(db, first), nodes[Chunk(|nodes|)..]))
  {
    hide Commit, Puts;
  }

  lemma PurgeStep(db: Db, ids: seq<u64>)
    ensures if ids == [] then PurgeNodes(db, ids) == Outcome([], Success(()))
            else
              var first := Commit(db, NodeDeletes(ids[..Chunk(|ids|)]));
              PurgeNodes(db, ids) == Then(first, PurgeNodes(FinalOf(db, first), ids[Chunk(|ids|)..]))
  {
    hide Commit, NodeDeletes;
  }

  method StagePuts(nodes: seq<(u64, VectorNode)>) returns (res: Result<Batch>)
    ensures res == Puts(nodes)
  {
    hide EncodedNode, NodeKey;
    var batch: Batch := [];
    for i := 0 to |nodes|
      invariant Puts(nodes[..i]) == Success(batch)
    {
      assert nodes[..i + 1][..i] == nodes[..i];
      var block := EncodeNode(nodes[i].1);
      if block.Failure? {
        PutsStop(nodes, i + 1);
        return Failure(block.error);
      }
      batch := batch + [(NodeKey(nodes[i].0), Some(block.value))];
    }
    assert nodes[..|nodes|] == nodes;
    return Success(batch);
  }

  lemma {:induction false} PutsStop(nodes: seq<(u64, VectorNode)>, i: nat)
    requires i <= |nodes| && Puts(nodes[..i]).Failure?
    ensures Puts(nodes) == Puts(nodes[..i])
    decreases |nodes|
  {
    hide EncodedNode, NodeKey;
    if i < |nodes| {
      var n := |nodes| - 1;
      assert nodes[..n][..i] == nodes[..i];
      PutsStop(nodes[..n], i);
    } else {
      assert nodes[..i] == nodes;
    }
  }

  method StageNodeDeletes(ids: seq<u64>) returns (batch: Batch)
    ensures batch == NodeDeletes(ids)
  {
    hide NodeKey;
    batch := [];
    for i := 0 to |ids|
      invariant batch == NodeDeletes(ids[..i])
    {
      assert ids[..i + 1][..i] == ids[..i];
      batch := batch + [(NodeKey(ids[i]), None)];
    }
    assert ids[..|ids|] == ids;
  }

  /** Sorts the node blocks into live vectors and tombstones; the first bad one stops it. */
  method SurveyNodes(entries: seq<Entry>, dim: nat) returns (res: Result<Survivors>)
    ensures res == Survey(entries, dim)
  {
    hide NodeId, DecodeNode;
    var found := Survivors([], []);
    for i := 0 to |entries|
      invariant Survey(entries[..i], dim) == Success(found)
    {
      assert entries[..i + 1][..i] == entries[..i];
      var next := Surveyed(found, entries[i], dim);
      if next.Failure? {
        SurveyStops(entries, i + 1, dim);
        return Failure(next.error);
      }
      found := next.value;
    }
    assert entries[..|entries|] == entries;
    return Success(found);
  }

  lemma {:induction false} SurveyStops(entries: seq<Entry>, i: nat, dim: nat)
    requires i <= |entries| && Survey(entries[..i], dim).Failure?
    ensures Survey(entries, dim) == Survey(entries[..i], dim)
    decreases |entries|
  {
    hide Surveyed;
    if i < |entries| {
      var n := |entries| - 1;
      assert entries[..n][..i] == entries[..i];
      SurveyStops(entries[..n], i, dim);
    } else {
      assert entries[..i] == entries;
    }
  }
}
