/** The first two phases of rebuilding the derived indexes (`store::repair`): reverse mappings and allocator in one
    batch, then the full-text index emptied and filled record by record. */
module Reindexing {
  import opened Bytes
  import opened Results
  import opened Tables
  import opened Layers
  import opened Keys
  import opened MemoryFormats
  import opened VectorFormats
  import F = WalFormat

  /** What the rebuild needs of a memory record. */
  datatype Stored = Stored(vecId: u64, content: Bytes)

  datatype Record = Record(agent: Bytes, id: Bytes, stored: Stored)

  type Batch = seq<(Bytes, Slot)>

  datatype Graph = Graph(nodes: seq<(u64, VectorNode)>, entryPoint: Option<u64>)

  /** The parts that belong to other components: the record codec, what staging one document adds to a batch given
      the store it reads, and the graph construction over vectors in ascending id order. */
  datatype Parts = Parts(decodeRecord: Bytes -> Result<Stored>, stageInsert: (Db, Bytes, nat, Bytes) -> Result<Batch>,
                         build: (VectorParams, seq<(u64, seq<f32>)>) -> Graph)

  // ── reading the store ──────────────────────────────────────────────────

  /** The part of a store under a prefix, as a table. */
  function Under(db: Db, prefix: Bytes): (t: Table)
    ensures t.Keys == set key | key in db && StartsWith(key, prefix)
    ensures forall key :: key in t ==> t[key] == Some(db[key])
    decreases |db|
  {
    if db == map[] then map[]
    else
      var k := LeastKey(db.Keys);
      Shrinks(db, k);
      var rest := Under(db - {k}, prefix);
      if StartsWith(k, prefix) then rest[k := Some(db[k])] else rest
  }

  /** Live entries under a prefix, ascending. */
  function ScanPrefix(db: Db, prefix: Bytes): seq<Entry> {
    Ascending(Under(db, prefix))
  }

  function ValueAt(db: Db, key: Bytes): Slot {
    if key in db then Some(db[key]) else None
  }

  lemma SameEntries(a: Db, b: Db, prefix: Bytes)
    requires forall key :: StartsWith(key, prefix) ==> ValueAt(a, key) == ValueAt(b, key)
    ensures ScanPrefix(a, prefix) == ScanPrefix(b, prefix)
  {
    hide StartsWith, Ascending, Under;
    assert forall key :: StartsWith(key, prefix) ==> (key in a <==> key in b);
    assert Under(a, prefix) == Under(b, prefix);
  }

  function ParseRecordKey(key: Bytes): Option<(Bytes, Bytes)> {
    if !StartsWith(key, RECORD_PREFIX) then None
    else
      var field := FieldFrom(key, |RECORD_PREFIX|);
      if field.None? then None else Some((field.value.0, key[field.value.1..]))
  }

  function LoadRecord(e: Entry, parts: Parts): Result<Record> {
    var parsed := ParseRecordKey(e.key);
    if parsed.None? || e.value.None? then Failure(CorruptMemoryRecord)
    else
      var stored :- parts.decodeRecord(e.value.value);
      Success(Record(parsed.value.0, parsed.value.1, stored))
  }

  function LoadAll(entries: seq<Entry>, parts: Parts): (res: Result<seq<Record>>)
    ensures res.Success? ==> |res.value| == |entries|
  {
    if entries == [] then Success([])
    else
      var first :- LoadRecord(entries[0], parts);
      After([first], LoadAll(entries[1..], parts))
  }

  function LoadRecords(db: Db, parts: Parts): Result<seq<Record>> {
    LoadAll(ScanPrefix(db, RECORD_PREFIX), parts)
  }

  function LiveIn(entries: seq<Entry>): Result<set<nat>> {
    if entries == [] then Success({})
    else if NodeId(entries[0].key).None? || entries[0].value.None? then Failure(CorruptVectorNode)
    else
      var node :- DecodeNode(entries[0].value.value);
      var rest :- LiveIn(entries[1..]);
      Success(if node.deleted then rest else {NodeId(entries[0].key).value} + rest)
  }

  function LiveNodeIds(db: Db): Result<set<nat>> {
    LiveIn(ScanPrefix(db, NODE_PREFIX))
  }

  /** Records whose vector did not survive, for the caller to embed again. */
  function Missing(records: seq<Record>, live: set<nat>): seq<(Bytes, Bytes)> {
    if records == [] then []
    else
      var rest := Missing(records[1..], live);
      if records[0].stored.vecId in live then rest else [(records[0].agent, records[0].id)] + rest
  }

  // ── batches ────────────────────────────────────────────────────────────

  function ApplyOne(db: Db, op: (Bytes, Slot)): Db {
    if op.1.Some? then db[op.0 := op.1.value] else db - {op.0}
  }

  function Applied(db: Db, batch: Batch): Db {
    if batch == [] then db else ApplyOne(Applied(db, batch[..|batch| - 1]), batch[|batch| - 1])
  }

  function Deletes(entries: seq<Entry>): (r: Batch)
    ensures |r| == |entries|
  {
    if entries == [] then [] else [(entries[0].key, None)] + Deletes(entries[1..])
  }

  predicate Encodable(r: Record) {
    |r.agent| < U32_LIMIT && |r.id| < U32_LIMIT
  }

  function MappingOf(r: Record): (Bytes, Slot) {
    (VecmapKey(r.stored.vecId), Some(VecMapBytes(VecMapEntry(r.agent, r.id))))
  }

  function Mappings(records: seq<Record>): (r: Batch)
    ensures |r| == |records|
  {
    if records == [] then []
    else
      var n := |records| - 1;
      Mappings(records[..n]) + [MappingOf(records[n])]
  }

  function VecIds(records: seq<Record>): set<nat> {
    set r | r in records :: r.stored.vecId as nat
  }

  function SaturatingSucc64(n: u64): u64 {
    if n == U64_LIMIT - 1 then n else n + 1
  }

  /** One past the greatest vector id of a record, saturating; zero without records. */
  function NextVecId(records: seq<Record>): u64 {
    if records == [] then 0
    else
      var n := |records| - 1;
      var rest, own := NextVecId(records[..n]), SaturatingSucc64(records[n].stored.vecId);
      if rest < own then own else rest
  }

  /** What stops the mapping loop: the first record that repeats an id or whose owner does not encode. */
  function MappingError(records: seq<Record>): Option<EngineError> {
    if records == [] then None
    else
      var n := |records| - 1;
      var earlier := MappingError(records[..n]);
      if earlier.Some? then earlier
      else if records[n].stored.vecId as nat in VecIds(records[..n]) then Some(CorruptMemoryRecord)
      else if !Encodable(records[n]) then Some(CorruptMemoryVecMap)
      else None
  }

  /** Every mapping and the allocator removed, then one mapping per record and the allocator. */
  function MappingBatch(db: Db, records: seq<Record>): Batch {
    Deletes(ScanPrefix(db, VECMAP_PREFIX)) + [(MEMORY_META_KEY, None)] + Mappings(records)
    + [(MEMORY_META_KEY, Some(MetaBytes(NextVecId(records))))]
  }

  function PurgeBatch(db: Db): Batch {
    Deletes(ScanPrefix(db, FTS_PREFIX))
  }

  // ── the rebuild, one durable state after another ───────────────────────

  /** The stores left by each applied batch, in order, and how the run ended. */
  datatype Outcome<T> = Outcome(commits: seq<Db>, res: Result<T>)

  function FinalOf<T>(db: Db, o: Outcome<T>): Db {
    if o.commits == [] then db else o.commits[|o.commits| - 1]
  }

  /** A batch of the engine: durable as a whole, refused as a whole when too long. */
  function Commit(db: Db, batch: Batch): Outcome<()> {
    if batch == [] then Outcome([], Success(()))
    else if |batch| > F.MAX_BATCH_OPS then Outcome([], Failure(WalBatchTooLarge(|batch|, F.MAX_BATCH_OPS)))
    else Outcome([Applied(db, batch)], Success(()))
  }

  function Then<T, U>(first: Outcome<T>, next: Outcome<U>): Outcome<U> {
    match first.res
    case Failure(e) => Outcome(first.commits, Failure(e))
    case Success(_) => Outcome(first.commits + next.commits, next.res)
  }

  function InsertRecords(db: Db, records: seq<Record>, parts: Parts): Outcome<()>
    decreases |records|
  {
    if records == [] then Outcome([], Success(()))
    else
      var r := records[0];
      match parts.stageInsert(db, r.agent, r.stored.vecId, r.stored.content)
      case Failure(e) => Outcome([], Failure(e))
      case Success(batch) =>
        var first := Commit(db, batch);
        Then(first, InsertRecords(FinalOf(db, first), records[1..], parts))
  }

  function FtsRun(db: Db, records: seq<Record>, parts: Parts): Outcome<()> {
    var purged := Commit(db, PurgeBatch(db));
    Then(purged, InsertRecords(FinalOf(db, purged), records, parts))
  }

  function MappingRun(db: Db, records: seq<Record>): Outcome<()> {
    var error := MappingError(records);
    if error.Some? then Outcome([], Failure(error.value)) else Commit(db, MappingBatch(db, records))
  }

  function Reindex(db: Db, parts: Parts): Outcome<seq<(Bytes, Bytes)>> {
    match LoadRecords(db, parts)
    case Failure(e) => Outcome([], Failure(e))
    case Success(records) =>
      match LiveNodeIds(db)
      case Failure(e) => Outcome([], Failure(e))
      case Success(live) =>
        var mapped := MappingRun(db, records);
        var filled := FtsRun(FinalOf(db, mapped), records, parts);
        Then(Then(mapped, filled), Outcome([], Success(Missing(records, live))))
  }

  /** What is on disk after `k` batches of a run. */
  function OnDisk<T>(db: Db, o: Outcome<T>, k: nat): Db
    requires k <= |o.commits|
  {
    if k == 0 then db else o.commits[k - 1]
  }

  // ── which keys belong to whom ──────────────────────────────────────────

  predicate IsMapping(key: Bytes) { StartsWith(key, VECMAP_PREFIX) }

  predicate IsFts(key: Bytes) { StartsWith(key, FTS_PREFIX) }

  /** What these two phases do not own; the vector index among it. */
  predicate Untouched(key: Bytes) {
    !IsMapping(key) && key != MEMORY_META_KEY && !IsFts(key)
  }

  function UntouchedPart(db: Db): Db {
    map key | key in db && Untouched(key) :: db[key]
  }

  function Count(db: Db, prefix: Bytes): nat {
    |ScanPrefix(db, prefix)|
  }

  function FtsPart(db: Db): Db {
    map key | key in db && IsFts(key) :: db[key]
  }

  /** Staging a document reads and writes only full-text keys. */
  ghost predicate FtsOnly(parts: Parts) {
    && (forall db, agent, vecId, content, op ::
          var staged := parts.stageInsert(db, agent, vecId, content);
          staged.Success? && op in staged.value ==> IsFts(op.0))
    && (forall a, b, agent, vecId, content :: FtsPart(a) == FtsPart(b) ==>
          parts.stageInsert(a, agent, vecId, content) == parts.stageInsert(b, agent, vecId, content))
  }

  lemma KeyClasses(key: Bytes)
    ensures StartsWith(key, RECORD_PREFIX) || StartsWith(key, NODE_PREFIX) || key == VECTOR_META_KEY ==> Untouched(key)
    ensures IsMapping(key) ==> !IsFts(key) && key != MEMORY_META_KEY
    ensures !IsFts(MEMORY_META_KEY) && !IsMapping(MEMORY_META_KEY)
  {
    hide Ascii;
    PrefixMarks(Records);
    PrefixMarks(Nodes);
    PrefixMarks(Vecmaps);
    PrefixMarks(MemoryMeta);
    PrefixMarks(VectorMeta);
    var meta := MEMORY_META_KEY;
    var fts := FTS_PREFIX;
    assert |fts| == 8 && fts[4] == 'f' as int;
    Carried(key, RECORD_PREFIX);
    Carried(key, NODE_PREFIX);
    Carried(key, VECTOR_META_KEY);
    Carried(key, VECMAP_PREFIX);
    Carried(key, FTS_PREFIX);
    Carried(meta, FTS_PREFIX);
    Carried(meta, VECMAP_PREFIX);
  }

  lemma Carried(key: Bytes, prefix: Bytes)
    ensures StartsWith(key, prefix) ==> forall i :: 0 <= i < |prefix| ==> ByteAt(key, i) == ByteAt(prefix, i)
  {
  }

  // ── batches on a store ─────────────────────────────────────────────────

  lemma {:induction false} AppliedConcat(db: Db, a: Batch, b: Batch)
    ensures Applied(db, a + b) == Applied(Applied(db, a), b)
  {
    if b == [] {
      assert a + b == a;
    } else {
      assert (a + b)[..|a + b| - 1] == a + b[..|b| - 1];
      AppliedConcat(db, a, b[..|b| - 1]);
    }
  }

  lemma AppliedSingle(db: Db, op: (Bytes, Slot))
    ensures Applied(db, [op]) == ApplyOne(db, op)
  {
    assert [op][..0] == [];
  }

  function KeySet(entries: seq<Entry>): set<Bytes> {
    set e | e in entries :: e.key
  }

  lemma {:induction false} AppliedDeletes(db: Db, entries: seq<Entry>)
    ensures Applied(db, Deletes(entries)) == db - KeySet(entries)
  {
    if entries != [] {
      var first, rest := entries[0], entries[1..];
      AppliedConcat(db, [(first.key, None)], Deletes(rest));
      AppliedSingle(db, (first.key, None));
      AppliedDeletes(db - {first.key}, rest);
      assert KeySet(entries) == {first.key} + KeySet(rest);
    }
  }

  lemma ScannedKeys(db: Db, prefix: Bytes)
    ensures KeySet(ScanPrefix(db, prefix)) == set key | key in db && StartsWith(key, prefix)
    ensures StrictlySorted(ScanPrefix(db, prefix))
    ensures forall e :: e in ScanPrefix(db, prefix) ==>
              e.key in db && StartsWith(e.key, prefix) && e.value == Some(db[e.key])
  {
    hide Ascending, AsTable, StrictlySorted;
    var t := Under(db, prefix);
    var entries := ScanPrefix(db, prefix);
    AscendingSorted(t);
    forall key
      ensures key in t <==> key in KeySet(entries)
    {
      KeysListed(entries, key);
      if i :| 0 <= i < |entries| && entries[i].key == key {
        assert entries[i] in entries;
      }
    }
    forall e | e in entries
      ensures e.key in t && e.value == t[e.key]
    {
      var i :| 0 <= i < |entries| && entries[i] == e;
      KeysListed(entries, e.key);
      FindAt(entries, i);
      FindIsLookup(entries, e.key);
    }
  }

  // ── the records a store holds ──────────────────────────────────────────

  /** The parser accepts exactly the record keys, each with the agent and the id it was built from. */
  lemma ParseRecordKeyExact(key: Bytes, agent: Bytes, id: Bytes)
    ensures ParseRecordKey(key) == Some((agent, id)) <==> RecordKey(agent, id) == Success(key)
  {
    hide Field, Ascii, FieldFrom;
    if RecordKey(agent, id) == Success(key) {
      FieldReads(RECORD_PREFIX, agent, id);
      assert key == RECORD_PREFIX + Field(agent) + id == RECORD_PREFIX + (Field(agent) + id);
      assert key[|RECORD_PREFIX + Field(agent)|..] == id;
    }
    if ParseRecordKey(key) == Some((agent, id)) {
      var end := FieldFrom(key, |RECORD_PREFIX|).value.1;
      FieldCanonical(key, |RECORD_PREFIX|);
      assert key == key[..|RECORD_PREFIX|] + key[|RECORD_PREFIX|..end] + key[end..];
      assert key[..|RECORD_PREFIX|] == RECORD_PREFIX && key[|RECORD_PREFIX|..end] == Field(agent) && key[end..] == id;
    }
  }

  /** The store has this record under its own key. */
  ghost predicate Holds(db: Db, parts: Parts, r: Record) {
    var key := RecordKey(r.agent, r.id);
    key.Success? && key.value in db && parts.decodeRecord(db[key.value]) == Success(r.stored)
  }

  function RecordKeys(db: Db): set<Bytes> {
    set key | key in db && StartsWith(key, RECORD_PREFIX)
  }

  lemma LoadRecordIs(e: Entry, parts: Parts, r: Record)
    ensures LoadRecord(e, parts) == Success(r)
       <==> RecordKey(r.agent, r.id) == Success(e.key) && e.value.Some? && parts.decodeRecord(e.value.value) == Success(r.stored)
  {
    hide ParseRecordKey, RecordKey;
    ParseRecordKeyExact(e.key, r.agent, r.id);
  }

  lemma {:induction false} LoadAllIs(entries: seq<Entry>, parts: Parts)
    ensures LoadAll(entries, parts).Success? <==> forall i :: 0 <= i < |entries| ==> LoadRecord(entries[i], parts).Success?
    ensures LoadAll(entries, parts).Success? ==>
              forall i :: 0 <= i < |entries| ==> LoadRecord(entries[i], parts) == Success(LoadAll(entries, parts).value[i])
  {
    hide LoadRecord;
    if entries != [] {
      LoadAllIs(entries[1..], parts);
      assert forall i :: 0 < i < |entries| ==> entries[i] == entries[1..][i - 1];
      assert forall i :: 0 <= i < |entries[1..]| ==> entries[1..][i] == entries[i + 1];
    }
  }

  lemma {:induction false} CountKeys(entries: seq<Entry>)
    requires StrictlySorted(entries)
    ensures |KeySet(entries)| == |entries|
  {
    if entries == [] {
      assert KeySet(entries) == {};
    } else {
      var n := |entries| - 1;
      var older, last := entries[..n], entries[n];
      CountKeys(older);
      forall e | e in older
        ensures e.key != last.key
      {
        LtIrreflexive(last.key);
      }
      assert entries == older + [last];
      assert KeySet(entries) == KeySet(older) + {last.key};
    }
  }

  /** What is loaded is exactly what the store holds, one record a key. */
  lemma LoadedIsHeld(db: Db, parts: Parts)
    requires LoadRecords(db, parts).Success?
    ensures var records := LoadRecords(db, parts).value;
      && (forall r :: r in records <==> Holds(db, parts, r))
      && |records| == |RecordKeys(db)|
  {
    hide ScanPrefix, LoadRecord, RecordKey, StrictlySorted, StartsWith, Ascii;
    var entries, records := ScanPrefix(db, RECORD_PREFIX), LoadRecords(db, parts).value;
    ScannedKeys(db, RECORD_PREFIX);
    CountKeys(entries);
    LoadAllIs(entries, parts);
    forall r
      ensures r in records <==> Holds(db, parts, r)
    {
      if r in records {
        var i :| 0 <= i < |records| && records[i] == r;
        assert entries[i] in entries;
        LoadRecordIs(entries[i], parts, r);
      }
      if Holds(db, parts, r) {
        var key := RecordKey(r.agent, r.id).value;
        RecordKeyStarts(r.agent, r.id);
        assert key in KeySet(entries);
        var e :| e in entries && e.key == key;
        var i :| 0 <= i < |entries| && entries[i] == e;
        LoadRecordIs(e, parts, r);
        assert records[i] == r;
      }
    }
  }

  /** Loading goes through exactly when every record key is one that can be built and its value decodes. */
  lemma LoadsIff(db: Db, parts: Parts)
    ensures LoadRecords(db, parts).Success?
       <==> forall key :: key in RecordKeys(db) ==>
              exists r :: Holds(db, parts, r) && RecordKey(r.agent, r.id) == Success(key)
  {
    hide ScanPrefix, LoadRecord, RecordKey, StrictlySorted, StartsWith, Ascii;
    var entries := ScanPrefix(db, RECORD_PREFIX);
    ScannedKeys(db, RECORD_PREFIX);
    LoadAllIs(entries, parts);
    if LoadRecords(db, parts).Success? {
      forall key | key in RecordKeys(db)
        ensures exists r :: Holds(db, parts, r) && RecordKey(r.agent, r.id) == Success(key)
      {
        assert key in KeySet(entries);
        var e :| e in entries && e.key == key;
        var i :| 0 <= i < |entries| && entries[i] == e;
        LoadRecordIs(e, parts, LoadRecords(db, parts).value[i]);
      }
    }
    if forall key :: key in RecordKeys(db) ==> exists r :: Holds(db, parts, r) && RecordKey(r.agent, r.id) == Success(key) {
      forall i | 0 <= i < |entries|
        ensures LoadRecord(entries[i], parts).Success?
      {
        assert entries[i] in entries && entries[i].key in RecordKeys(db);
        var r :| Holds(db, parts, r) && RecordKey(r.agent, r.id) == Success(entries[i].key);
        LoadRecordIs(entries[i], parts, r);
      }
    }
  }

  // ── the order of the report ────────────────────────────────────────────

  function KeyOf(agent: Bytes, id: Bytes): Bytes {
    Scope(RECORD_PREFIX, agent) + id
  }

  /** In the order of their record keys, so each once. */
  ghost predicate InKeyOrder(owners: seq<(Bytes, Bytes)>) {
    forall i, j :: 0 <= i < j < |owners| ==> Lt(KeyOf(owners[i].0, owners[i].1), KeyOf(owners[j].0, owners[j].1))
  }

  function OwnersOf(records: seq<Record>): (r: seq<(Bytes, Bytes)>)
    ensures |r| == |records| && forall i :: 0 <= i < |r| ==> r[i] == (records[i].agent, records[i].id)
  {
    seq(|records|, i requires 0 <= i < |records| => (records[i].agent, records[i].id))
  }

  lemma {:induction false} MissingInOrder(records: seq<Record>, live: set<nat>)
    requires InKeyOrder(OwnersOf(records))
    ensures InKeyOrder(Missing(records, live))
    ensures forall owner :: owner in Missing(records, live) ==> owner in OwnersOf(records)
  {
    hide KeyOf, Lt;
    if records != [] {
      var all, rest, missing := OwnersOf(records), OwnersOf(records[1..]), Missing(records[1..], live);
      assert forall i :: 0 <= i < |rest| ==> rest[i] == all[i + 1];
      MissingInOrder(records[1..], live);
      forall j | 0 <= j < |missing|
        ensures Lt(KeyOf(all[0].0, all[0].1), KeyOf(missing[j].0, missing[j].1)) && missing[j] in all
      {
        assert missing[j] in missing;
        var i :| 0 <= i < |rest| && rest[i] == missing[j];
        assert all[i + 1] == missing[j];
      }
      assert all[0] in all;
    }
  }

  lemma LoadedInOrder(db: Db, parts: Parts)
    requires LoadRecords(db, parts).Success?
    ensures InKeyOrder(OwnersOf(LoadRecords(db, parts).value))
  {
    hide ScanPrefix, LoadRecord, StartsWith, Ascii, Lt;
    var entries, records := ScanPrefix(db, RECORD_PREFIX), LoadRecords(db, parts).value;
    ScannedKeys(db, RECORD_PREFIX);
    LoadAllIs(entries, parts);
    forall i | 0 <= i < |entries|
      ensures KeyOf(records[i].agent, records[i].id) == entries[i].key
    {
      LoadRecordIs(entries[i], parts, records[i]);
    }
  }

  lemma RecordKeyStarts(agent: Bytes, id: Bytes)
    ensures RecordKey(agent, id).Success? ==> StartsWith(RecordKey(agent, id).value, RECORD_PREFIX)
  {
    hide Field, Ascii;
    assert Scope(RECORD_PREFIX, agent) + id == RECORD_PREFIX + (Field(agent) + id);
  }

  function Cleared(db: Db, prefix: Bytes): Db {
    map key | key in db && !StartsWith(key, prefix) :: db[key]
  }

  lemma PrefixDeleted(db: Db, prefix: Bytes)
    ensures Applied(db, Deletes(ScanPrefix(db, prefix))) == Cleared(db, prefix)
  {
    hide ScanPrefix, Deletes, Applied;
    AppliedDeletes(db, ScanPrefix(db, prefix));
    ScannedKeys(db, prefix);
  }

  function MappingMap(records: seq<Record>): Db {
    Applied(map[], Mappings(records))
  }

  lemma MappingMapSnoc(records: seq<Record>)
    requires records != []
    ensures var n := |records| - 1;
      MappingMap(records) == MappingMap(records[..n])[VecmapKey(records[n].stored.vecId) := MappingOf(records[n]).1.value]
      && forall db: Db :: Applied(db, Mappings(records))
                       == Applied(db, Mappings(records[..n]))[VecmapKey(records[n].stored.vecId) := MappingOf(records[n]).1.value]
  {
    hide VecmapKey, VecMapBytes;
    var n := |records| - 1;
    assert Mappings(records)[..n] == Mappings(records[..n]);
  }

  lemma {:induction false} AppliedMappings(db: Db, records: seq<Record>)
    ensures Applied(db, Mappings(records)) == db + MappingMap(records)
  {
    hide VecmapKey, VecMapBytes, MappingOf;
    if records == [] {
      assert db + map[] == db;
    } else {
      hide Applied, Mappings, MappingMap;
      AppliedMappings(db, records[..|records| - 1]);
      MappingMapSnoc(records);
    }
  }

  lemma {:induction false} MappingKeys(records: seq<Record>, key: Bytes)
    requires key in MappingMap(records)
    ensures IsMapping(key)
  {
    hide VecmapKey, VecMapBytes;
    if records != [] {
      var n := |records| - 1;
      MappingMapSnoc(records);
      VecmapKeyIsMapping(records[n].stored.vecId);
      if key != VecmapKey(records[n].stored.vecId) {
        MappingKeys(records[..n], key);
      }
    }
  }

  lemma VecmapKeyIsMapping(id: u64)
    ensures IsMapping(VecmapKey(id))
  {
    hide Ascii, Be;
  }

  /** The store after the mapping batch. */
  function Mapped(db: Db, records: seq<Record>): Db {
    (Cleared(db, VECMAP_PREFIX) - {MEMORY_META_KEY}) + MappingMap(records)[MEMORY_META_KEY := MetaBytes(NextVecId(records))]
  }

  lemma MappingBatchApplied(db: Db, records: seq<Record>)
    ensures Applied(db, MappingBatch(db, records)) == Mapped(db, records)
    ensures |MappingBatch(db, records)| == Count(db, VECMAP_PREFIX) + |records| + 2
  {
    hide Applied, Deletes, Mappings, ScanPrefix, MetaBytes, NextVecId, Cleared, Ascii, IsMapping, MappingMap;
    var a, b, m := Deletes(ScanPrefix(db, VECMAP_PREFIX)), (MEMORY_META_KEY, None), Mappings(records);
    var z := (MEMORY_META_KEY, Some(MetaBytes(NextVecId(records))));
    var db1 := Cleared(db, VECMAP_PREFIX);
    var db2 := db1 - {MEMORY_META_KEY};
    PrefixDeleted(db, VECMAP_PREFIX);
    AppliedConcat(db, a, [b]);
    AppliedSingle(db1, b);
    AppliedConcat(db, a + [b], m);
    AppliedMappings(db2, records);
    AppliedConcat(db, a + [b] + m, [z]);
    AppliedSingle(db2 + MappingMap(records), z);
  }

  /** The store with nothing derived but the mappings of its records. */
  function Clean(db: Db, records: seq<Record>): Db {
    UntouchedPart(db) + MappingMap(records)[MEMORY_META_KEY := MetaBytes(NextVecId(records))]
  }

  lemma Purged(db: Db, records: seq<Record>)
    ensures Applied(Mapped(db, records), PurgeBatch(Mapped(db, records))) == Clean(db, records)
    ensures PurgeBatch(Mapped(db, records)) == PurgeBatch(db)
    ensures |PurgeBatch(db)| == Count(db, FTS_PREFIX)
  {
    hide Applied, Deletes, MetaBytes, NextVecId, Ascii, MappingMap, ScanPrefix;
    PrefixDeleted(Mapped(db, records), FTS_PREFIX);
    ClearedIsClean(db, records);
    SameFts(db, records);
  }

  lemma ClearedIsClean(db: Db, records: seq<Record>)
    ensures Cleared(Mapped(db, records), FTS_PREFIX) == Clean(db, records)
  {
    hide MetaBytes, NextVecId, Ascii, MappingMap, StartsWith;
    forall key
      ensures key in MappingMap(records) ==> !IsFts(key)
      ensures !IsFts(MEMORY_META_KEY)
    {
      KeyClasses(key);
      if key in MappingMap(records) {
        MappingKeys(records, key);
      }
    }
  }

  lemma SameFts(db: Db, records: seq<Record>)
    ensures ScanPrefix(Mapped(db, records), FTS_PREFIX) == ScanPrefix(db, FTS_PREFIX)
  {
    hide MetaBytes, NextVecId, Ascii, MappingMap, ScanPrefix, StartsWith;
    var mapped := Mapped(db, records);
    forall key
      ensures IsFts(key) ==> key !in MappingMap(records) && !IsMapping(key) && key != MEMORY_META_KEY
    {
      KeyClasses(key);
      if key in MappingMap(records) {
        MappingKeys(records, key);
      }
    }
    SameEntries(mapped, db, FTS_PREFIX);
  }

  // ── what every batch of a run keeps ────────────────────────────────────

  function NonFts(db: Db): Db {
    map key | key in db && !IsFts(key) :: db[key]
  }

  lemma {:induction false} FtsBatch(db: Db, batch: Batch)
    requires forall op :: op in batch ==> IsFts(op.0)
    ensures NonFts(Applied(db, batch)) == NonFts(db)
  {
    hide Ascii, StartsWith;
    if batch != [] {
      var n := |batch| - 1;
      assert batch[n] in batch;
      FtsBatch(db, batch[..n]);
    }
  }

  lemma CommitKeeps(db: Db, batch: Batch)
    requires forall op :: op in batch ==> IsFts(op.0)
    ensures forall c :: c in Commit(db, batch).commits ==> NonFts(c) == NonFts(db)
    ensures NonFts(FinalOf(db, Commit(db, batch))) == NonFts(db)
  {
    FtsBatch(db, batch);
  }

  lemma {:induction false} InsertKeeps(db: Db, records: seq<Record>, parts: Parts)
    requires FtsOnly(parts)
    ensures forall c :: c in InsertRecords(db, records, parts).commits ==> NonFts(c) == NonFts(db)
    decreases |records|
  {
    hide NonFts, IsFts, Commit;
    if records != [] {
      var r := records[0];
      var staged := parts.stageInsert(db, r.agent, r.stored.vecId, r.stored.content);
      if staged.Success? {
        StagedOnlyFts(parts, db, r, staged.value);
        CommitKeeps(db, staged.value);
        InsertKeeps(FinalOf(db, Commit(db, staged.value)), records[1..], parts);
      }
    }
  }

  lemma StagedOnlyFts(parts: Parts, db: Db, r: Record, staged: Batch)
    requires FtsOnly(parts) && parts.stageInsert(db, r.agent, r.stored.vecId, r.stored.content) == Success(staged)
    ensures forall op :: op in staged ==> IsFts(op.0)
  {
  }

  lemma {:induction false} FtsPartApplied(db: Db, batch: Batch)
    requires forall op :: op in batch ==> IsFts(op.0)
    ensures FtsPart(Applied(db, batch)) == Applied(FtsPart(db), batch)
  {
    hide Ascii, StartsWith;
    if batch != [] {
      var n := |batch| - 1;
      assert batch[n] in batch;
      FtsPartApplied(db, batch[..n]);
    }
  }

  /** Filling the full-text index depends on nothing but what is in it. */
  lemma {:induction false} SameFtsInserts(a: Db, b: Db, records: seq<Record>, parts: Parts)
    requires FtsOnly(parts) && FtsPart(a) == FtsPart(b)
    ensures var o, p := InsertRecords(a, records, parts), InsertRecords(b, records, parts);
      o.res == p.res && FtsPart(FinalOf(a, o)) == FtsPart(FinalOf(b, p))
    decreases |records|
  {
    hide FtsPart, IsFts, Applied, FtsOnly, Commit, Then, FinalOf;
    if records == [] {
      NothingInserted(a, b, parts);
    } else {
      var r := records[0];
      var staged := parts.stageInsert(a, r.agent, r.stored.vecId, r.stored.content);
      SameStaged(a, b, r, parts);
      if staged.Success? {
        StagedOnlyFts(parts, a, r, staged.value);
        var first, second := Commit(a, staged.value), Commit(b, staged.value);
        SameCommit(a, b, staged.value);
        SameFtsInserts(FinalOf(a, first), FinalOf(b, second), records[1..], parts);
        ThenFinal(a, first, InsertRecords(FinalOf(a, first), records[1..], parts));
        ThenFinal(b, second, InsertRecords(FinalOf(b, second), records[1..], parts));
      } else {
        NothingCommitted(a, Failure(staged.error));
        NothingCommitted(b, Failure(staged.error));
      }
    }
  }

  lemma NothingInserted(a: Db, b: Db, parts: Parts)
    requires FtsPart(a) == FtsPart(b)
    ensures var o, p := InsertRecords(a, [], parts), InsertRecords(b, [], parts);
      o.res == p.res && FtsPart(FinalOf(a, o)) == FtsPart(FinalOf(b, p))
  {
    hide FtsPart;
  }

  lemma NothingCommitted(db: Db, res: Result<()>)
    ensures FinalOf(db, Outcome([], res)) == db
  {
  }

  lemma SameCommit(a: Db, b: Db, batch: Batch)
    requires FtsPart(a) == FtsPart(b) && forall op :: op in batch ==> IsFts(op.0)
    ensures Commit(a, batch).res == Commit(b, batch).res
    ensures FtsPart(FinalOf(a, Commit(a, batch))) == FtsPart(FinalOf(b, Commit(b, batch)))
  {
    hide FtsPart, IsFts, Applied;
    FtsPartApplied(a, batch);
    FtsPartApplied(b, batch);
  }

  lemma ThenFinal(db: Db, first: Outcome<()>, next: Outcome<()>)
    ensures var both := Then(first, next);
      if first.res.Failure? then both.res == first.res && FinalOf(db, both) == FinalOf(db, first)
      else both.res == next.res && FinalOf(db, both) == FinalOf(FinalOf(db, first), next)
  {
  }

  lemma SameStaged(a: Db, b: Db, r: Record, parts: Parts)
    requires FtsOnly(parts) && FtsPart(a) == FtsPart(b)
    ensures parts.stageInsert(a, r.agent, r.stored.vecId, r.stored.content)
         == parts.stageInsert(b, r.agent, r.stored.vecId, r.stored.content)
  {
    hide FtsPart, IsFts;
  }

  lemma {:induction false} DeletesOf(entries: seq<Entry>, op: (Bytes, Slot))
    requires op in Deletes(entries)
    ensures exists e :: e in entries && e.key == op.0
  {
    if op != (entries[0].key, None) {
      DeletesOf(entries[1..], op);
      var e :| e in entries[1..] && e.key == op.0;
      assert e in entries;
    }
  }

  lemma FtsRunKeeps(db: Db, records: seq<Record>, parts: Parts)
    requires FtsOnly(parts)
    ensures forall c :: c in FtsRun(db, records, parts).commits ==> NonFts(c) == NonFts(db)
  {
    hide NonFts, Commit, InsertRecords, Deletes, ScanPrefix, Ascii, StartsWith;
    ScannedKeys(db, FTS_PREFIX);
    forall op | op in PurgeBatch(db)
      ensures IsFts(op.0)
    {
      DeletesOf(ScanPrefix(db, FTS_PREFIX), op);
    }
    CommitKeeps(db, PurgeBatch(db));
    InsertKeeps(FinalOf(db, Commit(db, PurgeBatch(db))), records, parts);
  }

  /** A run as its three phases. */
  lemma ReindexShape(db: Db, parts: Parts)
    ensures var o := Reindex(db, parts);
      match LoadRecords(db, parts)
      case Failure(_) => o.commits == [] && o.res.Failure?
      case Success(records) =>
        if LiveNodeIds(db).Failure? || MappingError(records).Some?
           || Count(db, VECMAP_PREFIX) + |records| + 2 > F.MAX_BATCH_OPS
        then o.commits == [] && o.res.Failure?
        else
          var filled := FtsRun(Mapped(db, records), records, parts);
          && o.commits == [Mapped(db, records)] + filled.commits
          && o.res == match filled.res
                      case Failure(e) => Failure(e)
                      case Success(_) => Success(Missing(records, LiveNodeIds(db).value))
  {
    hide LoadRecords, LiveNodeIds, Mapped, FtsRun, MappingBatch, MappingError, Applied, ScanPrefix, Missing;
    var loaded := LoadRecords(db, parts);
    if loaded.Success? {
      var records := loaded.value;
      MappingBatchApplied(db, records);
      var filled := FtsRun(Mapped(db, records), records, parts);
      assert filled.commits + [] == filled.commits;
      assert [Mapped(db, records)] + filled.commits + [] == [Mapped(db, records)] + filled.commits;
    }
  }

  /** Every state a run leaves on disk, after its first batch, has the mappings of its records and the primary
      data it started from; full-text keys aside. */
  lemma ReindexKeeps(db: Db, parts: Parts, k: nat)
    requires FtsOnly(parts) && 0 < k <= |Reindex(db, parts).commits|
    ensures LoadRecords(db, parts).Success?
    ensures NonFts(OnDisk(db, Reindex(db, parts), k)) == NonFts(Mapped(db, LoadRecords(db, parts).value))
  {
    hide NonFts, LoadRecords, LiveNodeIds, Mapped, FtsRun, Reindex, MappingError, ScanPrefix, FtsOnly;
    ReindexShape(db, parts);
    var records := LoadRecords(db, parts).value;
    FtsRunKeeps(Mapped(db, records), records, parts);
    var o, filled := Reindex(db, parts), FtsRun(Mapped(db, records), records, parts);
    if k > 1 {
      assert o.commits[k - 1] == filled.commits[k - 2];
      assert filled.commits[k - 2] in filled.commits;
    }
  }

  lemma MappingErrorSnoc(records: seq<Record>)
    requires records != [] && MappingError(records).None?
    ensures var n := |records| - 1;
      && MappingError(records[..n]).None? && Encodable(records[n])
      && forall r :: r in records[..n] ==>
           r.stored.vecId != records[n].stored.vecId && VecmapKey(r.stored.vecId) != VecmapKey(records[n].stored.vecId)
  {
    hide VecmapKey;
    var n := |records| - 1;
    forall r | r in records[..n]
      ensures r.stored.vecId != records[n].stored.vecId
      ensures VecmapKey(r.stored.vecId) != VecmapKey(records[n].stored.vecId)
    {
      assert r.stored.vecId as nat in VecIds(records[..n]);
      VecmapKeyInjective(r.stored.vecId, records[n].stored.vecId);
    }
  }

  lemma {:induction false} MappingCount(records: seq<Record>)
    requires MappingError(records).None?
    ensures |MappingMap(records)| == |records|
    ensures forall key :: key in MappingMap(records) ==> exists r :: r in records && VecmapKey(r.stored.vecId) == key
  {
    hide VecmapKey, VecMapBytes, MappingError, MappingMap;
    if records == [] {
      assert MappingMap([]) == map[] by { NoMappings(); }
    } else {
      var n := |records| - 1;
      var last, older, newer := records[n], MappingMap(records[..n]), MappingMap(records);
      MappingErrorSnoc(records);
      MappingCount(records[..n]);
      MappingMapSnoc(records);
      assert VecmapKey(last.stored.vecId) !in older;
      assert newer.Keys == older.Keys + {VecmapKey(last.stored.vecId)};
      assert |older.Keys| == |older| && |newer.Keys| == |newer|;
      forall key | key in newer
        ensures exists r :: r in records && VecmapKey(r.stored.vecId) == key
      {
        if key in older {
          var r :| r in records[..n] && VecmapKey(r.stored.vecId) == key;
          assert r in records;
        } else {
          assert last in records;
        }
      }
    }
  }

  lemma NoMappings()
    ensures MappingMap([]) == map[]
  {
  }

  lemma {:induction false} MappingAt(records: seq<Record>, r: Record)
    requires MappingError(records).None? && r in records
    ensures var key, mapping := VecmapKey(r.stored.vecId), MappingMap(records);
      key in mapping && mapping[key] == VecMapBytes(VecMapEntry(r.agent, r.id)) && Encodable(r)
  {
    hide VecmapKey, VecMapBytes, MappingError, MappingMap;
    var n := |records| - 1;
    MappingErrorSnoc(records);
    MappingMapSnoc(records);
    if r in records[..n] {
      MappingAt(records[..n], r);
    }
  }

  lemma VecmapKeyInjective(a: u64, b: u64)
    ensures VecmapKey(a) == VecmapKey(b) ==> a == b
    ensures VecmapId(VecmapKey(a)) == Some(a as nat)
  {
    hide Ascii, Be, FromBe;
    IdKeyExact(VECMAP_PREFIX, VecmapKey(a), a);
    IdKeyExact(VECMAP_PREFIX, VecmapKey(b), b);
  }

  // ── primary data ───────────────────────────────────────────────────────

  lemma UntouchedOfMapped(db: Db, records: seq<Record>)
    ensures UntouchedPart(Mapped(db, records)) == UntouchedPart(db)
  {
    hide MetaBytes, NextVecId, MappingMap, StartsWith, Ascii;
    forall key
      ensures key in MappingMap(records) ==> !Untouched(key)
    {
      if key in MappingMap(records) {
        MappingKeys(records, key);
      }
    }
  }

  lemma UntouchedOfNonFts(a: Db, b: Db)
    requires NonFts(a) == NonFts(b)
    ensures UntouchedPart(a) == UntouchedPart(b)
    ensures Cleared(a, FTS_PREFIX) == NonFts(a)
  {
    assert UntouchedPart(a) == UntouchedPart(NonFts(a));
    assert UntouchedPart(b) == UntouchedPart(NonFts(b));
  }

  /** Crash a rebuild after any of its batches, succeed or fail: nothing primary has changed. */
  lemma ReindexUntouched(db: Db, parts: Parts, k: nat)
    requires FtsOnly(parts) && k <= |Reindex(db, parts).commits|
    ensures UntouchedPart(OnDisk(db, Reindex(db, parts), k)) == UntouchedPart(db)
  {
    hide UntouchedPart, NonFts, Mapped, Reindex, LoadRecords, FtsOnly;
    if k > 0 {
      ReindexKeeps(db, parts, k);
      var records := LoadRecords(db, parts).value;
      UntouchedOfNonFts(OnDisk(db, Reindex(db, parts), k), Mapped(db, records));
      UntouchedOfMapped(db, records);
    }
  }

  lemma SameScan(a: Db, b: Db, prefix: Bytes)
    requires UntouchedPart(a) == UntouchedPart(b) && (prefix == RECORD_PREFIX || prefix == NODE_PREFIX)
    ensures ScanPrefix(a, prefix) == ScanPrefix(b, prefix)
  {
    hide StartsWith, Ascii, ScanPrefix;
    forall key | StartsWith(key, prefix)
      ensures ValueAt(a, key) == ValueAt(b, key)
    {
      KeyClasses(key);
      assert ValueAt(UntouchedPart(a), key) == ValueAt(a, key) && ValueAt(UntouchedPart(b), key) == ValueAt(b, key);
    }
    SameEntries(a, b, prefix);
  }

  /** The records, the live nodes and the clean state depend on primary data only. */
  lemma SameUntouched(a: Db, b: Db, parts: Parts)
    requires UntouchedPart(a) == UntouchedPart(b)
    ensures LoadRecords(a, parts) == LoadRecords(b, parts) && LiveNodeIds(a) == LiveNodeIds(b)
    ensures forall records :: Clean(a, records) == Clean(b, records)
  {
    SameScan(a, b, RECORD_PREFIX);
    SameScan(a, b, NODE_PREFIX);
  }

  // ── success and the final state ────────────────────────────────────────

  lemma FtsRunEnds(db: Db, records: seq<Record>, parts: Parts)
    ensures var o, clean := FtsRun(Mapped(db, records), records, parts), Clean(db, records);
      if Count(db, FTS_PREFIX) > F.MAX_BATCH_OPS then o.res.Failure?
      else
        var filled := InsertRecords(clean, records, parts);
        o.res == filled.res && FinalOf(Mapped(db, records), o) == FinalOf(clean, filled)
  {
    hide Mapped, Clean, InsertRecords, Applied, PurgeBatch, ScanPrefix;
    var mapped, clean := Mapped(db, records), Clean(db, records);
    Purged(db, records);
    var purged := Commit(mapped, PurgeBatch(mapped));
    if PurgeBatch(mapped) == [] {
      NothingApplied(mapped);
    }
    if purged.res.Success? {
      assert FinalOf(mapped, purged) == clean;
      var filled := InsertRecords(clean, records, parts);
      assert purged.commits + filled.commits == if purged.commits == [] then filled.commits else [clean] + filled.commits;
    }
  }

  lemma NothingApplied(db: Db)
    ensures Applied(db, []) == db
  {
  }

  /** What a rebuild needs, batch sizes included: nothing else can stop it. */
  ghost predicate Reindexable(db: Db, parts: Parts) {
    && LoadRecords(db, parts).Success? && LiveNodeIds(db).Success?
    && var records := LoadRecords(db, parts).value;
    && MappingError(records).None?
    && Count(db, VECMAP_PREFIX) + |records| + 2 <= 10_000
    && Count(db, FTS_PREFIX) <= 10_000
    && InsertRecords(Clean(db, records), records, parts).res.Success?
  }

  lemma ReindexSucceedsIff(db: Db, parts: Parts)
    ensures Reindex(db, parts).res.Success? <==> Reindexable(db, parts)
    ensures Reindexable(db, parts) ==>
              var records := LoadRecords(db, parts).value;
              && Reindex(db, parts).commits != []
              && FinalOf(db, Reindex(db, parts)) == FinalOf(Clean(db, records), InsertRecords(Clean(db, records), records, parts))
              && Reindex(db, parts).res == Success(Missing(records, LiveNodeIds(db).value))
  {
    hide Reindex, LoadRecords, LiveNodeIds, Mapped, Clean, FtsRun, InsertRecords, MappingError, ScanPrefix, Missing;
    ReindexShape(db, parts);
    if LoadRecords(db, parts).Success? {
      var records := LoadRecords(db, parts).value;
      FtsRunEnds(db, records, parts);
      var filled := FtsRun(Mapped(db, records), records, parts);
      assert filled.commits != [] ==> ([Mapped(db, records)] + filled.commits)[|filled.commits|] == FinalOf(Mapped(db, records), filled);
    }
  }

  lemma CountIs(db: Db, prefix: Bytes, keys: set<Bytes>)
    requires forall key :: key in db && StartsWith(key, prefix) <==> key in keys
    ensures Count(db, prefix) == |keys|
  {
    hide StartsWith, Ascending, Under;
    var t := Under(db, prefix);
    assert t.Keys == keys && |t.Keys| == |t|;
  }

  lemma MappingsLeft(db: Db, records: seq<Record>, d: Db)
    requires MappingError(records).None? && NonFts(d) == NonFts(Mapped(db, records))
    ensures Count(d, VECMAP_PREFIX) == |records|
  {
    hide MetaBytes, NextVecId, MappingMap, StartsWith, Ascii, Count;
    var mapping := MappingMap(records);
    MappingCount(records);
    forall key
      ensures IsMapping(key) ==> !IsFts(key) && key != MEMORY_META_KEY
      ensures key in mapping ==> IsMapping(key)
    {
      KeyClasses(key);
      if key in mapping {
        MappingKeys(records, key);
      }
    }
    forall key | IsMapping(key)
      ensures key in d <==> key in mapping
    {
      assert key in d <==> key in NonFts(d);
      assert key in Mapped(db, records) <==> key in NonFts(Mapped(db, records));
    }
    CountIs(d, VECMAP_PREFIX, mapping.Keys);
    assert |mapping.Keys| == |mapping|;
  }

  // ── what a finished rebuild leaves ─────────────────────────────────────

  lemma {:induction false} NextVecIdIs(records: seq<Record>)
    ensures forall r :: r in records ==> r.stored.vecId < NextVecId(records) || r.stored.vecId == U64_LIMIT - 1
    ensures forall r :: r in records ==> SaturatingSucc64(r.stored.vecId) <= NextVecId(records)
    ensures records != [] ==> exists r :: r in records && NextVecId(records) == SaturatingSucc64(r.stored.vecId)
    ensures records == [] ==> NextVecId(records) == 0
  {
    if records != [] {
      var n := |records| - 1;
      NextVecIdIs(records[..n]);
      assert records == records[..n] + [records[n]];
      assert records[n] in records;
      if NextVecId(records) != SaturatingSucc64(records[n].stored.vecId) {
        var r :| r in records[..n] && NextVecId(records[..n]) == SaturatingSucc64(r.stored.vecId);
        assert r in records;
      }
    }
  }

  lemma FinalNonFts(db: Db, parts: Parts)
    requires FtsOnly(parts) && Reindex(db, parts).res.Success?
    ensures LoadRecords(db, parts).Success? && MappingError(LoadRecords(db, parts).value).None?
    ensures NonFts(FinalOf(db, Reindex(db, parts))) == NonFts(Mapped(db, LoadRecords(db, parts).value))
  {
    hide Reindex, LoadRecords, LiveNodeIds, Mapped, InsertRecords, MappingError, ScanPrefix, Missing, NonFts, FtsOnly, Clean;
    ReindexSucceedsIff(db, parts);
    ReindexKeeps(db, parts, |Reindex(db, parts).commits|);
  }

  /** After a rebuild every record's vector id maps back to that record, no other mapping is left, and the
      allocator reads back as one past the greatest id. */
  lemma ReindexResult(db: Db, parts: Parts)
    requires FtsOnly(parts) && Reindex(db, parts).res.Success?
    ensures LoadRecords(db, parts).Success?
    ensures var final, records := FinalOf(db, Reindex(db, parts)), LoadRecords(db, parts).value;
      && LoadRecords(final, parts) == Success(records)
      && (forall r :: r in records ==>
            var key := VecmapKey(r.stored.vecId);
            key in final && DecodeVecMap(final[key]) == Success(VecMapEntry(r.agent, r.id)))
      && (forall key :: key in final && IsMapping(key) ==> exists r :: r in records && VecmapKey(r.stored.vecId) == key)
      && MEMORY_META_KEY in final && DecodeMeta(final[MEMORY_META_KEY]) == Success(NextVecId(records))
  {
    hide Reindex, LoadRecords, LiveNodeIds, MappingError, ScanPrefix, Missing, FtsOnly, MappingMap, StartsWith;
    hide NextVecId, MetaBytes, VecMapBytes, DecodeVecMap, DecodeMeta, VecmapKey, Ascii;
    FinalNonFts(db, parts);
    var final, records := FinalOf(db, Reindex(db, parts)), LoadRecords(db, parts).value;
    ReindexSucceedsIff(db, parts);
    ReindexUntouched(db, parts, |Reindex(db, parts).commits|);
    SameUntouched(db, final, parts);
    MappingCount(records);
    forall key | !IsFts(key)
      ensures ValueAt(final, key) == ValueAt(Mapped(db, records), key)
    {
      assert ValueAt(final, key) == ValueAt(NonFts(final), key);
      assert ValueAt(Mapped(db, records), key) == ValueAt(NonFts(Mapped(db, records)), key);
    }
    MappedAt(db, records);
    MetaRoundTrip(NextVecId(records));
    forall r | r in records
      ensures var key := VecmapKey(r.stored.vecId);
        key in final && DecodeVecMap(final[key]) == Success(VecMapEntry(r.agent, r.id))
    {
      var key := VecmapKey(r.stored.vecId);
      MappingAt(records, r);
      VecMapRoundTrip(VecMapEntry(r.agent, r.id));
      assert ValueAt(Mapped(db, records), key) == ValueAt(MappingMap(records), key);
    }
  }

  lemma MappedAt(db: Db, records: seq<Record>)
    ensures forall key :: IsMapping(key) ==> !IsFts(key) && ValueAt(Mapped(db, records), key) == ValueAt(MappingMap(records), key)
    ensures !IsFts(MEMORY_META_KEY)
    ensures ValueAt(Mapped(db, records), MEMORY_META_KEY) == Some(MetaBytes(NextVecId(records)))
    ensures forall key :: key in MappingMap(records) ==> IsMapping(key)
  {
    hide MetaBytes, NextVecId, MappingMap, StartsWith, Ascii;
    forall key
      ensures IsMapping(key) ==> !IsFts(key) && key != MEMORY_META_KEY
      ensures !IsFts(MEMORY_META_KEY)
      ensures key in MappingMap(records) ==> IsMapping(key)
    {
      KeyClasses(key);
      if key in MappingMap(records) {
        MappingKeys(records, key);
      }
    }
  }

  // ── a store too large to rebuild twice ─────────────────────────────────

  function RecordAt(i: nat): Bytes {
    Scope(RECORD_PREFIX, []) + Be(i, 8)
  }

  /** `count` records of one agent, each value its own vector id, and nothing derived yet. */
  function Many(count: nat): Db {
    if count == 0 then map[] else Many(count - 1)[RecordAt(count - 1) := Be(count - 1, 8)]
  }

  /** The graph without edges. */
  function Unlinked(vectors: seq<(u64, seq<f32>)>): Graph {
    Graph(seq(|vectors|, i requires 0 <= i < |vectors| => (vectors[i].0, VectorNode(vectors[i].1, [], false))),
          if vectors == [] then None else Some(vectors[0].0))
  }

  const PLAIN_PARTS: Parts :=
    Parts((bytes: Bytes) => Success(Stored(FromBe(bytes) % U64_LIMIT, [])),
          (db: Db, agent: Bytes, vecId: nat, content: Bytes) => Success([]),
          (params: VectorParams, vectors: seq<(u64, seq<f32>)>) => Unlinked(vectors))

  lemma RecordAtInjective(i: nat, j: nat)
    requires i < U64_LIMIT && j < U64_LIMIT && RecordAt(i) == RecordAt(j)
    ensures i == j
  {
    hide Be, FromBe, Ascii, Field;
    var p := Scope(RECORD_PREFIX, []);
    assert RecordAt(i)[|p|..] == Be(i, 8) && RecordAt(j)[|p|..] == Be(j, 8);
    SpanLiterals();
    BeRoundTrip(i, 8);
    BeRoundTrip(j, 8);
  }

  lemma {:induction false} ManyHolds(count: nat)
    requires count < U64_LIMIT
    ensures |Many(count)| == count
    ensures forall key :: key in Many(count) ==> exists i: nat :: i < count && key == RecordAt(i) && Many(count)[key] == Be(i, 8)
  {
    hide RecordAt, Be;
    if count > 0 {
      ManyHolds(count - 1);
      var before, last := Many(count - 1), RecordAt(count - 1);
      if last in before {
        var i: nat :| i < count - 1 && last == RecordAt(i) && before[last] == Be(i, 8);
        RecordAtInjective(i, count - 1);
      }
      assert Many(count).Keys == before.Keys + {last};
      assert |Many(count).Keys| == |Many(count)| && |before.Keys| == |before|;
      forall key | key in Many(count)
        ensures exists i: nat :: i < count && key == RecordAt(i) && Many(count)[key] == Be(i, 8)
      {
        if key != last {
          var i: nat :| i < count - 1 && key == RecordAt(i) && before[key] == Be(i, 8);
          assert Many(count)[key] == Be(i, 8);
        }
      }
    }
  }

  /** `entries` are such records, each once, and `records` what they load as. */
  ghost predicate LoadsAs(entries: seq<Entry>, records: seq<Record>) {
    && |entries| == |records|
    && forall k :: 0 <= k < |entries| ==>
         entries[k] == Entry(RecordAt(records[k].stored.vecId), Some(Be(records[k].stored.vecId, 8)))
         && records[k].agent == [] && |records[k].id| == 8
  }

  lemma LoadOne(e: Entry, i: nat)
    requires i < U64_LIMIT && e == Entry(RecordAt(i), Some(Be(i, 8)))
    ensures LoadRecord(e, PLAIN_PARTS) == Success(Record([], Be(i, 8), Stored(i, [])))
  {
    hide Be, FromBe, Ascii, Field;
    var p := Scope(RECORD_PREFIX, []);
    SpanLiterals();
    BeRoundTrip(i, 8);
    assert RecordAt(i) == RECORD_PREFIX + Field([]) + Be(i, 8);
    FieldReads(RECORD_PREFIX, [], Be(i, 8));
    assert RecordAt(i)[|p|..] == Be(i, 8);
    assert StartsWith(RecordAt(i), RECORD_PREFIX);
  }

  lemma {:induction false} LoadMany(entries: seq<Entry>)
    requires forall k :: 0 <= k < |entries| ==>
               exists i: nat :: i < U64_LIMIT && entries[k] == Entry(RecordAt(i), Some(Be(i, 8)))
    ensures LoadAll(entries, PLAIN_PARTS).Success? && LoadsAs(entries, LoadAll(entries, PLAIN_PARTS).value)
  {
    hide RecordAt, Be, LoadRecord;
    if entries != [] {
      var i: nat :| i < U64_LIMIT && entries[0] == Entry(RecordAt(i), Some(Be(i, 8)));
      LoadOne(entries[0], i);
      LoadMany(entries[1..]);
      var rest := LoadAll(entries[1..], PLAIN_PARTS).value;
      assert LoadAll(entries, PLAIN_PARTS).value == [Record([], Be(i, 8), Stored(i, []))] + rest;
    }
  }

  lemma {:induction false} NoMappingError(entries: seq<Entry>, records: seq<Record>)
    requires LoadsAs(entries, records) && StrictlySorted(entries)
    ensures MappingError(records).None?
  {
    hide RecordAt, Be;
    if records != [] {
      var n := |records| - 1;
      NoMappingError(entries[..n], records[..n]);
      if records[n].stored.vecId as nat in VecIds(records[..n]) {
        var r :| r in records[..n] && r.stored.vecId == records[n].stored.vecId;
        var k :| 0 <= k < n && records[k] == r;
        assert entries[k].key == entries[n].key && Lt(entries[k].key, entries[n].key);
        LtIrreflexive(entries[n].key);
      }
    }
  }

  lemma {:induction false} NothingStaged(db: Db, records: seq<Record>)
    ensures InsertRecords(db, records, PLAIN_PARTS) == Outcome([], Success(()))
    decreases |records|
  {
    if records != [] {
      NothingStaged(db, records[1..]);
    }
  }

  lemma ScanNothing(db: Db, prefix: Bytes)
    requires forall key :: key in db ==> !StartsWith(key, prefix)
    ensures ScanPrefix(db, prefix) == []
  {
    assert Under(db, prefix) == map[];
  }

  lemma ManyRecords(count: nat)
    requires count < U64_LIMIT
    ensures LoadRecords(Many(count), PLAIN_PARTS).Success?
    ensures |LoadRecords(Many(count), PLAIN_PARTS).value| == count
    ensures MappingError(LoadRecords(Many(count), PLAIN_PARTS).value).None?
    ensures forall key :: key in Many(count) ==> StartsWith(key, RECORD_PREFIX)
  {
    hide RecordAt, Be, MappingError, LoadAll, ScanPrefix, StrictlySorted, Ascii;
    var db := Many(count);
    var entries := ScanPrefix(db, RECORD_PREFIX);
    ManyHolds(count);
    ScannedKeys(db, RECORD_PREFIX);
    forall key | key in db
      ensures StartsWith(key, RECORD_PREFIX)
    {
      var i: nat :| i < count && key == RecordAt(i) && db[key] == Be(i, 8);
      RecordAtPrefix(i);
    }
    forall k | 0 <= k < |entries|
      ensures exists i: nat :: i < U64_LIMIT && entries[k] == Entry(RecordAt(i), Some(Be(i, 8)))
    {
      assert entries[k] in entries;
      var i: nat :| i < count && entries[k].key == RecordAt(i) && db[entries[k].key] == Be(i, 8);
    }
    LoadMany(entries);
    NoMappingError(entries, LoadAll(entries, PLAIN_PARTS).value);
    WholeCount(db, RECORD_PREFIX);
  }

  lemma RecordAtPrefix(i: nat)
    ensures StartsWith(RecordAt(i), RECORD_PREFIX)
  {
    hide Be, Ascii;
    assert RecordAt(i) == RECORD_PREFIX + (Field([]) + Be(i, 8));
  }

  lemma WholeCount(db: Db, prefix: Bytes)
    requires forall key :: key in db ==> StartsWith(key, prefix)
    ensures Count(db, prefix) == |db|
  {
    CountIs(db, prefix, db.Keys);
    assert |db.Keys| == |db|;
  }

  /** A vector that outlives every record with its id or a greater one leaves the rebuilt allocator stale: it is
      above all vectors in use if and only if each is at most some record's id and no record has the last one. */
  lemma AllocatorFreshIff(records: seq<Record>, vectors: set<nat>)
    ensures (forall v :: v in vectors ==> v < NextVecId(records)) && (forall r :: r in records ==> r.stored.vecId < NextVecId(records))
            <==> && (forall v :: v in vectors ==> exists r :: r in records && v <= r.stored.vecId)
                 && (forall r :: r in records ==> r.stored.vecId != U64_LIMIT - 1)
  {
    NextVecIdIs(records);
    var next := NextVecId(records);
    if (forall v :: v in vectors ==> v < next) && (forall r :: r in records ==> r.stored.vecId < next) {
      forall v | v in vectors
        ensures exists r :: r in records && v <= r.stored.vecId
      {
        var r :| r in records && next == SaturatingSucc64(r.stored.vecId);
        assert v <= r.stored.vecId;
      }
    }
  }
}
