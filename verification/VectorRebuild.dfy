/** The last phase of rebuilding the derived indexes: the vector graph made again from the vectors in its own node
    blocks (`PersistentVectorIndex::open`, `rebuild_from_store`). */
module VectorRebuilds {
  import opened Bytes
  import opened Results
  import opened Tables
  import opened Layers
  import opened Keys
  import opened VectorFormats
  import opened Reindexing
  import F = WalFormat
  import Checksum

  const REBUILD_CHUNK: nat := 512

  // ── what the store says ────────────────────────────────────────────────

  function StoredMeta(db: Db): Option<VectorIndexMeta> {
    if VECTOR_META_KEY in db && DecodeVectorMeta(db[VECTOR_META_KEY]).Success?
    then Some(DecodeVectorMeta(db[VECTOR_META_KEY]).value) else None
  }

  function BlockIn(e: Entry): Result<VectorNode> {
    if e.value.None? then Failure(CorruptVectorNode) else DecodeNode(e.value.value)
  }

  /** The parameters of the metadata record, if it decodes; else the defaults with the dimension of the first node
      block, tombstones included; nothing without either. */
  function ParamsOf(db: Db): Result<Option<VectorParams>> {
    if StoredMeta(db).Some? then Success(Some(StoredMeta(db).value.params))
    else
      var entries := ScanPrefix(db, NODE_PREFIX);
      if entries == [] then Success(None)
      else
        var node :- BlockIn(entries[0]);
        Success(Some(WithDim(|node.vector|)))
  }

  /** The vectors of the live blocks and the ids of the tombstones, in key order. */
  datatype Survivors = Survivors(vectors: seq<(u64, seq<f32>)>, tombstones: seq<u64>)

  function Survey(entries: seq<Entry>, dim: nat): Result<Survivors> {
    if entries == [] then Success(Survivors([], []))
    else
      var n := |entries| - 1;
      var before :- Survey(entries[..n], dim);
      Surveyed(before, entries[n], dim)
  }

  function Surveyed(before: Survivors, e: Entry, dim: nat): Result<Survivors> {
    if NodeId(e.key).None? then Failure(CorruptVectorNode)
    else
      IdKeyCanonical(NODE_PREFIX, e.key);
      var id: u64 := NodeId(e.key).value;
      var node :- BlockIn(e);
      if node.deleted then Success(before.(tombstones := before.tombstones + [id]))
      else if |node.vector| != dim then Failure(VectorDimensionMismatch(dim, |node.vector|))
      else Success(before.(vectors := before.vectors + [(id, node.vector)]))
  }

  // ── the phase, one durable state after another ─────────────────────────

  function Puts(nodes: seq<(u64, VectorNode)>): Result<Batch> {
    if nodes == [] then Success([])
    else
      var n := |nodes| - 1;
      var before :- Puts(nodes[..n]);
      var block :- EncodedNode(nodes[n].1);
      Success(before + [(NodeKey(nodes[n].0), Some(block))])
  }

  function Chunk(count: nat): (n: nat)
    ensures n <= count && (count > 0 ==> n > 0)
  {
    if count < REBUILD_CHUNK then count else REBUILD_CHUNK
  }

  function FlushNodes(db: Db, nodes: seq<(u64, VectorNode)>): Outcome<()>
    decreases |nodes|
  {
    if nodes == [] then Outcome([], Success(()))
    else
      var n := Chunk(|nodes|);
      match Puts(nodes[..n])
      case Failure(e) => Outcome([], Failure(e))
      case Success(batch) =>
        var first := Commit(db, batch);
        Then(first, FlushNodes(FinalOf(db, first), nodes[n..]))
  }

  function NodeDeletes(ids: seq<u64>): (r: Batch)
    ensures |r| == |ids|
  {
    if ids == [] then []
    else
      var n := |ids| - 1;
      NodeDeletes(ids[..n]) + [(NodeKey(ids[n]), None)]
  }

  function PurgeNodes(db: Db, ids: seq<u64>): Outcome<()>
    decreases |ids|
  {
    if ids == [] then Outcome([], Success(()))
    else
      var n := Chunk(|ids|);
      var first := Commit(db, NodeDeletes(ids[..n]));
      Then(first, PurgeNodes(FinalOf(db, first), ids[n..]))
  }

  function NextEpoch(prior: Option<u64>): u64 {
    if prior.None? then 1 else (prior.value + 1) % U64_LIMIT
  }

  function Saturated(count: nat): u64 {
    if count < U64_LIMIT then count else U64_LIMIT - 1
  }

  function FreshMeta(params: VectorParams, prior: Option<u64>, vectors: seq<(u64, seq<f32>)>, graph: Graph): VectorIndexMeta {
    VectorIndexMeta(params, NextEpoch(prior), Saturated(|vectors|), graph.entryPoint)
  }

  function WriteMeta(db: Db, meta: VectorIndexMeta): Outcome<u64> {
    match EncodedMeta(meta)
    case Failure(e) => Outcome([], Failure(e))
    case Success(bytes) => Then(Commit(db, [(VECTOR_META_KEY, Some(bytes))]), Outcome([], Success(meta.epoch)))
  }

  /** The blocks of the graph over the old ones, the tombstones out, in chunks, and no metadata meanwhile. */
  function Rewritten(db: Db, s: Survivors, graph: Graph): Outcome<()> {
    var flushed := FlushNodes(db, graph.nodes);
    Then(flushed, PurgeNodes(FinalOf(db, flushed), s.tombstones))
  }

  /** The graph and the purge of what is not in it, metadata last. */
  function Regrow(db: Db, params: VectorParams, prior: Option<u64>, survivors: Survivors, parts: Parts): Outcome<u64> {
    var graph := parts.build(params, survivors.vectors);
    var first := Rewritten(db, survivors, graph);
    Then(first, WriteMeta(FinalOf(db, first), FreshMeta(params, prior, survivors.vectors, graph)))
  }

  function Regrown(db: Db, params: VectorParams, prior: Option<u64>, parts: Parts): Outcome<u64> {
    match Survey(ScanPrefix(db, NODE_PREFIX), params.dim)
    case Failure(e) => Outcome([], Failure(e))
    case Success(survivors) => Regrow(db, params, prior, survivors, parts)
  }

  /** The metadata record is deleted first, so an interrupted rebuild is noticed. */
  function RebuildStore(db: Db, params: VectorParams, prior: Option<u64>, parts: Parts): Outcome<u64> {
    var start := Commit(db, [(VECTOR_META_KEY, None)]);
    Then(start, Regrown(FinalOf(db, start), params, prior, parts))
  }

  /** Whether the entry point of a decoded metadata record is there. */
  predicate Resolves(db: Db, meta: VectorIndexMeta) {
    match meta.entryPoint
    case Some(id) => NodeKey(id) in db
    case None => meta.count == 0
  }

  function Kept(params: VectorParams, rebuilt: Outcome<u64>): Outcome<(VectorParams, u64)> {
    match rebuilt.res
    case Failure(e) => Outcome(rebuilt.commits, Failure(e))
    case Success(epoch) => Outcome(rebuilt.commits, Success((params, epoch)))
  }

  /** Opening an index rebuilds it when its metadata is lost, does not decode or points nowhere. */
  function OpenIndex(db: Db, params: VectorParams, parts: Parts): Outcome<(VectorParams, u64)> {
    if VECTOR_META_KEY in db then
      match StoredMeta(db)
      case None => Kept(params, RebuildStore(db, params, None, parts))
      case Some(stored) =>
        if stored.params.dim != params.dim then
          Outcome([], Failure(VectorDimensionMismatch(stored.params.dim, params.dim)))
        else if !Resolves(db, stored) then Kept(params, RebuildStore(db, params, Some(stored.epoch), parts))
        else Outcome([], Success((stored.params, stored.epoch)))
    else if ScanPrefix(db, NODE_PREFIX) == [] then Outcome([], Success((params, 0)))
    else Kept(params, RebuildStore(db, params, None, parts))
  }

  function Reopened(db: Db, index: Outcome<(VectorParams, u64)>, parts: Parts): Outcome<bool> {
    match index.res
    case Failure(e) => Outcome(index.commits, Failure(e))
    case Success((params, epoch)) =>
      Then(Then(index, RebuildStore(FinalOf(db, index), params, Some(epoch), parts)), Outcome([], Success(true)))
  }

  /** The whole phase; whether there was an index to rebuild. */
  function VectorRun(db: Db, parts: Parts): Outcome<bool> {
    match ParamsOf(db)
    case Failure(e) => Outcome([], Failure(e))
    case Success(None) => Outcome([], Success(false))
    case Success(Some(params)) => Reopened(db, OpenIndex(db, params, parts), parts)
  }

  // ── what every step of the phase keeps ─────────────────────────────────

  predicate IsNode(key: Bytes) { StartsWith(key, NODE_PREFIX) }

  predicate IsVector(key: Bytes) { IsNode(key) || key == VECTOR_META_KEY }

  function OffVector(db: Db): Db {
    map key | key in db && !IsVector(key) :: db[key]
  }

  predicate LiveBlock(key: Bytes, block: Bytes) {
    IsNode(key) && NodeId(key).Some? && DecodeNode(block).Success? && !DecodeNode(block).value.deleted
  }

  /** The live vectors, by node key. */
  function LivePart(db: Db): map<Bytes, seq<f32>> {
    map key | key in db && LiveBlock(key, db[key]) :: DecodeNode(db[key]).value.vector
  }

  predicate NodesFine(db: Db) {
    forall key :: key in db && IsNode(key) ==> NodeId(key).Some? && DecodeNode(db[key]).Success?
  }

  /** The dimensions of all node blocks, tombstones included. */
  function BlockDims(db: Db): set<nat> {
    set key | key in db && IsNode(key) && DecodeNode(db[key]).Success? :: |DecodeNode(db[key]).value.vector|
  }

  /** Nothing but the vector index changed, and in it no live vector. */
  ghost predicate Keeps(db: Db, d: Db) {
    && OffVector(d) == OffVector(db) && LivePart(d) == LivePart(db) && (NodesFine(db) ==> NodesFine(d))
    && BlockDims(d) <= BlockDims(db)
  }

  /** Metadata, a live block with the vector it had, or a block gone that was not live. */
  predicate Harmless(live: map<Bytes, seq<f32>>, op: (Bytes, Slot)) {
    op.0 == VECTOR_META_KEY
    || if op.1.Some?
       then LiveBlock(op.0, op.1.value) && op.0 in live && live[op.0] == DecodeNode(op.1.value).value.vector
       else IsNode(op.0) && op.0 !in live
  }

  lemma MetaIsNoNode()
    ensures !IsNode(VECTOR_META_KEY)
  {
    hide Ascii;
    if IsNode(VECTOR_META_KEY) {
      KeyspacesDisjoint(VECTOR_META_KEY, Nodes, VectorMeta);
    }
  }

  lemma HarmlessOp(db: Db, op: (Bytes, Slot))
    requires Harmless(LivePart(db), op)
    ensures Keeps(db, ApplyOne(db, op))
  {
    hide DecodeNode, StartsWith, NodeId, Ascii;
    MetaIsNoNode();
  }

  lemma {:induction false} HarmlessBatch(db: Db, batch: Batch)
    requires forall op :: op in batch ==> Harmless(LivePart(db), op)
    ensures Keeps(db, Applied(db, batch))
  {
    hide LivePart, Harmless, OffVector, NodesFine, BlockDims;
    if batch != [] {
      var n := |batch| - 1;
      assert batch[n] in batch;
      HarmlessBatch(db, batch[..n]);
      HarmlessOp(Applied(db, batch[..n]), batch[n]);
    }
  }

  ghost predicate AllKeep<T>(db: Db, o: Outcome<T>) {
    Keeps(db, FinalOf(db, o)) && forall c :: c in o.commits ==> Keeps(db, c)
  }

  lemma KeepsItself(db: Db)
    ensures Keeps(db, db)
  {
  }

  lemma HarmlessCommit(db: Db, batch: Batch)
    requires forall op :: op in batch ==> Harmless(LivePart(db), op)
    requires |batch| <= F.MAX_BATCH_OPS
    ensures Commit(db, batch).res == Success(()) && AllKeep(db, Commit(db, batch))
    ensures FinalOf(db, Commit(db, batch)) == Applied(db, batch)
  {
    hide Keeps, Harmless, LivePart;
    KeepsItself(db);
    HarmlessBatch(db, batch);
  }

  /** One outcome after another. */
  lemma ThenKeeps<T, U>(db: Db, first: Outcome<T>, next: Outcome<U>)
    requires AllKeep(db, first) && (first.res.Success? ==> AllKeep(FinalOf(db, first), next))
    ensures AllKeep(db, Then(first, next))
    ensures first.res.Success? ==> FinalOf(db, Then(first, next)) == FinalOf(FinalOf(db, first), next)
  {
    hide Keeps;
    forall c | c in next.commits && first.res.Success?
      ensures Keeps(db, c)
    {
      KeepsTransitive(db, FinalOf(db, first), c);
    }
    if first.res.Success? {
      KeepsTransitive(db, FinalOf(db, first), FinalOf(FinalOf(db, first), next));
    }
  }

  lemma KeepsTransitive(a: Db, b: Db, c: Db)
    requires Keeps(a, b)
    ensures Keeps(b, c) ==> Keeps(a, c)
  {
  }

  // ── the survey ─────────────────────────────────────────────────────────

  /** A block the survey accepts. */
  predicate Accepted(e: Entry, dim: nat) {
    && NodeId(e.key).Some? && BlockIn(e).Success?
    && (BlockIn(e).value.deleted || |BlockIn(e).value.vector| == dim)
  }

  /** Where an accepted block went. */
  predicate Listed(s: Survivors, e: Entry)
    requires NodeId(e.key).Some? && BlockIn(e).Success?
  {
    IdKeyCanonical(NODE_PREFIX, e.key);
    var id, node := NodeId(e.key).value, BlockIn(e).value;
    if node.deleted then id in s.tombstones else (id, node.vector) in s.vectors
  }

  ghost predicate VectorOf(entries: seq<Entry>, v: (u64, seq<f32>)) {
    exists i :: 0 <= i < |entries| && entries[i].key == NodeKey(v.0) && BlockIn(entries[i]).Success?
      && !BlockIn(entries[i]).value.deleted && BlockIn(entries[i]).value.vector == v.1
  }

  ghost predicate TombstoneOf(entries: seq<Entry>, id: u64) {
    exists i :: 0 <= i < |entries| && entries[i].key == NodeKey(id) && BlockIn(entries[i]).Success?
      && BlockIn(entries[i]).value.deleted
  }

  lemma {:induction false} SurveyIs(entries: seq<Entry>, dim: nat)
    ensures Survey(entries, dim).Success? <==> forall i :: 0 <= i < |entries| ==> Accepted(entries[i], dim)
    ensures Survey(entries, dim).Success? ==>
              var s := Survey(entries, dim).value;
              && (forall i :: 0 <= i < |entries| ==> Listed(s, entries[i]))
              && (forall v :: v in s.vectors ==> VectorOf(entries, v) && |v.1| == dim)
              && (forall id :: id in s.tombstones ==> TombstoneOf(entries, id))
  {
    hide BlockIn, NodeId, NodeKey;
    if entries != [] {
      var n := |entries| - 1;
      var older, e := entries[..n], entries[n];
      SurveyIs(older, dim);
      assert forall i :: 0 <= i < n ==> older[i] == entries[i];
      if Survey(older, dim).Success? {
        SurveyedIs(Survey(older, dim).value, e, dim);
      }
      if Survey(entries, dim).Success? {
        SurveySnoc(entries, dim);
      }
    }
  }

  lemma SurveyedIs(before: Survivors, e: Entry, dim: nat)
    ensures Surveyed(before, e, dim).Success? <==> Accepted(e, dim)
    ensures Accepted(e, dim) ==>
              var s, node := Surveyed(before, e, dim).value, BlockIn(e).value;
              && NodeId(e.key).value < U64_LIMIT && NodeKey(NodeId(e.key).value) == e.key && Listed(s, e)
              && s == if node.deleted then before.(tombstones := before.tombstones + [NodeId(e.key).value])
                      else before.(vectors := before.vectors + [(NodeId(e.key).value, node.vector)])
  {
    hide BlockIn, Be, FromBe, Ascii;
    if NodeId(e.key).Some? {
      IdKeyCanonical(NODE_PREFIX, e.key);
    }
  }

  /** The first block that is not acceptable decides the error. */
  lemma {:induction false} SurveyFails(entries: seq<Entry>, i: nat, dim: nat)
    requires i < |entries| && !Accepted(entries[i], dim) && forall j :: 0 <= j < i ==> Accepted(entries[j], dim)
    ensures Survey(entries, dim).Failure?
    ensures var e := entries[i];
      Survey(entries, dim).error
      == if NodeId(e.key).None? then CorruptVectorNode
         else if BlockIn(e).Failure? then BlockIn(e).error
         else VectorDimensionMismatch(dim, |BlockIn(e).value.vector|)
  {
    hide Surveyed, Accepted;
    var n := |entries| - 1;
    if i < n {
      SurveyFails(entries[..n], i, dim);
    } else {
      SurveyIs(entries[..n], dim);
      SurveyedFails(Survey(entries[..n], dim).value, entries[n], dim);
    }
  }

  lemma SurveyedFails(before: Survivors, e: Entry, dim: nat)
    requires !Accepted(e, dim)
    ensures Surveyed(before, e, dim)
         == Failure(if NodeId(e.key).None? then CorruptVectorNode
                    else if BlockIn(e).Failure? then BlockIn(e).error
                    else VectorDimensionMismatch(dim, |BlockIn(e).value.vector|))
  {
    hide BlockIn, Be, FromBe, Ascii;
    if NodeId(e.key).Some? {
      IdKeyCanonical(NODE_PREFIX, e.key);
    }
  }

  lemma SurveySnoc(entries: seq<Entry>, dim: nat)
    requires entries != [] && Survey(entries, dim).Success?
    requires var older := entries[..|entries| - 1];
      && Survey(older, dim).Success?
      && var s := Survey(older, dim).value;
      && (forall i :: 0 <= i < |older| ==> Accepted(older[i], dim) && Listed(s, older[i]))
      && (forall v :: v in s.vectors ==> VectorOf(older, v) && |v.1| == dim)
      && (forall id :: id in s.tombstones ==> TombstoneOf(older, id))
    ensures var s := Survey(entries, dim).value;
      && (forall i :: 0 <= i < |entries| ==> Accepted(entries[i], dim) && Listed(s, entries[i]))
      && (forall v :: v in s.vectors ==> VectorOf(entries, v) && |v.1| == dim)
      && (forall id :: id in s.tombstones ==> TombstoneOf(entries, id))
  {
    hide BlockIn, NodeId, NodeKey, Surveyed, VectorOf, TombstoneOf;
    var n := |entries| - 1;
    var older, e := entries[..n], entries[n];
    var before, s := Survey(older, dim).value, Survey(entries, dim).value;
    SurveyedIs(before, e, dim);
    assert forall i :: 0 <= i < n ==> older[i] == entries[i];
    forall v | v in s.vectors
      ensures VectorOf(entries, v) && |v.1| == dim
    {
      WiderSurvey(entries, v, 0);
    }
    forall id | id in s.tombstones
      ensures TombstoneOf(entries, id)
    {
      WiderSurvey(entries, (0, []), id);
    }
  }

  /** A later entry changes nothing about the earlier ones. */
  lemma WiderSurvey(entries: seq<Entry>, v: (u64, seq<f32>), id: u64)
    requires entries != []
    ensures var n, e := |entries| - 1, entries[|entries| - 1];
      && (VectorOf(entries[..n], v) ==> VectorOf(entries, v))
      && (TombstoneOf(entries[..n], id) ==> TombstoneOf(entries, id))
      && (e.key == NodeKey(v.0) && BlockIn(e).Success? && !BlockIn(e).value.deleted && BlockIn(e).value.vector == v.1
          ==> VectorOf(entries, v))
      && (e.key == NodeKey(id) && BlockIn(e).Success? && BlockIn(e).value.deleted ==> TombstoneOf(entries, id))
  {
    hide BlockIn, NodeKey;
    var n := |entries| - 1;
    assert forall i :: 0 <= i < n ==> entries[..n][i] == entries[i];
  }

  /** Every live vector has this dimension. */
  predicate AllDim(db: Db, dim: nat) {
    forall key :: key in LivePart(db) ==> |LivePart(db)[key]| == dim
  }

  /** What a survey of the store found. */
  ghost predicate Found(db: Db, s: Survivors, dim: nat) {
    && (forall v :: v in s.vectors ==>
          NodeKey(v.0) in LivePart(db) && LivePart(db)[NodeKey(v.0)] == v.1 && |v.1| == dim)
    && (forall key :: key in LivePart(db) ==> exists v :: v in s.vectors && NodeKey(v.0) == key)
    && (forall id :: id in s.tombstones ==> NodeKey(id) in db && NodeKey(id) !in LivePart(db))
    && (forall key :: key in db && IsNode(key) && key !in LivePart(db) ==> exists id :: id in s.tombstones && NodeKey(id) == key)
  }

  lemma EntryAt(db: Db, key: Bytes) returns (i: nat)
    requires key in db && IsNode(key)
    ensures i < |ScanPrefix(db, NODE_PREFIX)| && ScanPrefix(db, NODE_PREFIX)[i] == Entry(key, Some(db[key]))
  {
    hide ScanPrefix, Ascii, StartsWith;
    var entries := ScanPrefix(db, NODE_PREFIX);
    ScannedKeys(db, NODE_PREFIX);
    assert key in KeySet(entries);
    var e :| e in entries && e.key == key;
    i :| 0 <= i < |entries| && entries[i] == e;
  }

  /** The survey goes through exactly when every node block is sound and every live one has the dimension. */
  lemma SurveyOfStore(db: Db, dim: nat)
    ensures var res := Survey(ScanPrefix(db, NODE_PREFIX), dim);
      && (res.Success? <==> NodesFine(db) && AllDim(db, dim))
      && (res.Success? ==> Found(db, res.value, dim))
  {
    hide ScanPrefix, Ascii, StartsWith, DecodeNode, NodeId, NodeKey, Survey, Found;
    var entries := ScanPrefix(db, NODE_PREFIX);
    SurveyIs(entries, dim);
    ScannedKeys(db, NODE_PREFIX);
    if forall i :: 0 <= i < |entries| ==> Accepted(entries[i], dim) {
      forall key | key in db && IsNode(key)
        ensures NodeId(key).Some? && DecodeNode(db[key]).Success?
        ensures DecodeNode(db[key]).value.deleted || |DecodeNode(db[key]).value.vector| == dim
      {
        var i := EntryAt(db, key);
        assert Accepted(entries[i], dim);
      }
    }
    if NodesFine(db) && AllDim(db, dim) {
      forall i | 0 <= i < |entries|
        ensures Accepted(entries[i], dim)
      {
        var e := entries[i];
        assert e in entries;
        assert !DecodeNode(db[e.key]).value.deleted ==> e.key in LivePart(db);
      }
    }
    if Survey(entries, dim).Success? {
      SurveyFound(db, dim);
    }
  }

  /** The block of an entry of the scan. */
  lemma EntryBlock(db: Db, i: nat)
    requires i < |ScanPrefix(db, NODE_PREFIX)|
    ensures var e := ScanPrefix(db, NODE_PREFIX)[i];
      e.key in db && IsNode(e.key) && BlockIn(e) == DecodeNode(db[e.key])
  {
    hide ScanPrefix, Ascii, StartsWith, DecodeNode;
    var entries := ScanPrefix(db, NODE_PREFIX);
    ScannedKeys(db, NODE_PREFIX);
    assert entries[i] in entries;
  }

  lemma SurveyFound(db: Db, dim: nat)
    requires Survey(ScanPrefix(db, NODE_PREFIX), dim).Success? && NodesFine(db)
    ensures Found(db, Survey(ScanPrefix(db, NODE_PREFIX), dim).value, dim)
  {
    hide ScanPrefix, Ascii, IsNode, DecodeNode, NodeKey, Survey, BlockIn, Listed, NodeId;
    var entries := ScanPrefix(db, NODE_PREFIX);
    var s := Survey(entries, dim).value;
    SurveyIs(entries, dim);
    forall v | v in s.vectors
      ensures NodeKey(v.0) in LivePart(db) && LivePart(db)[NodeKey(v.0)] == v.1 && |v.1| == dim
    {
      assert VectorOf(entries, v);
      var i :| 0 <= i < |entries| && entries[i].key == NodeKey(v.0) && BlockIn(entries[i]).Success?
        && !BlockIn(entries[i]).value.deleted && BlockIn(entries[i]).value.vector == v.1;
      EntryBlock(db, i);
    }
    forall id | id in s.tombstones
      ensures NodeKey(id) in db && NodeKey(id) !in LivePart(db)
    {
      assert TombstoneOf(entries, id);
      var i :| 0 <= i < |entries| && entries[i].key == NodeKey(id) && BlockIn(entries[i]).Success?
        && BlockIn(entries[i]).value.deleted;
      EntryBlock(db, i);
    }
    forall key | key in db && IsNode(key)
      ensures key in LivePart(db) ==> exists v :: v in s.vectors && NodeKey(v.0) == key
      ensures key !in LivePart(db) ==> exists id :: id in s.tombstones && NodeKey(id) == key
    {
      KeyFound(db, s, key, dim);
    }
  }

  lemma KeyFound(db: Db, s: Survivors, key: Bytes, dim: nat)
    requires Survey(ScanPrefix(db, NODE_PREFIX), dim) == Success(s) && NodesFine(db) && key in db && IsNode(key)
    ensures key in LivePart(db) ==> exists v :: v in s.vectors && NodeKey(v.0) == key
    ensures key !in LivePart(db) ==> exists id :: id in s.tombstones && NodeKey(id) == key
  {
    hide ScanPrefix, Ascii, StartsWith, DecodeNode, NodeId, NodeKey, Survey;
    SurveyIs(ScanPrefix(db, NODE_PREFIX), dim);
    var i := EntryAt(db, key);
    assert Listed(s, ScanPrefix(db, NODE_PREFIX)[i]);
    KeyOfId(key);
  }

  lemma KeyOfId(key: Bytes)
    ensures NodeId(key).Some? ==> NodeId(key).value < U64_LIMIT && NodeKey(NodeId(key).value) == key
  {
    hide Be, FromBe, Ascii;
    if NodeId(key).Some? {
      IdKeyCanonical(NODE_PREFIX, key);
    }
  }

  // ── writing the graph back ─────────────────────────────────────────────

  /** Every node is live, fits its block, and has the vector its id had. */
  ghost predicate Restores(live: map<Bytes, seq<f32>>, nodes: seq<(u64, VectorNode)>) {
    forall n :: n in nodes ==>
      NodeFits(n.1) && !n.1.deleted && NodeKey(n.0) in live && live[NodeKey(n.0)] == n.1.vector
  }

  lemma NodeKeyIs(id: u64)
    ensures IsNode(NodeKey(id)) && NodeId(NodeKey(id)) == Some(id as nat) && NodeKey(id) != VECTOR_META_KEY
  {
    hide Be, FromBe, Ascii;
    IdKeyExact(NODE_PREFIX, NodeKey(id), id);
    MetaIsNoNode();
  }

  lemma {:induction false} PutsAre(live: map<Bytes, seq<f32>>, nodes: seq<(u64, VectorNode)>)
    requires Restores(live, nodes)
    ensures Puts(nodes).Success? && |Puts(nodes).value| == |nodes|
    ensures forall op :: op in Puts(nodes).value ==>
              Harmless(live, op) && op.1.Some? && op.0 in live && op.0 != VECTOR_META_KEY
  {
    hide NodeBytes, DecodeNode, NodeKey, NodeId, StartsWith, Ascii;
    if nodes != [] {
      var last := nodes[|nodes| - 1];
      assert last in nodes;
      PutsAre(live, nodes[..|nodes| - 1]);
      NodeRoundTrip(last.1);
      NodeKeyIs(last.0);
    }
  }

  lemma {:induction false} OnlyPuts(db: Db, batch: Batch)
    requires forall op :: op in batch ==> op.1.Some? && op.0 in db && op.0 != VECTOR_META_KEY
    ensures Applied(db, batch).Keys == db.Keys && ValueAt(Applied(db, batch), VECTOR_META_KEY) == ValueAt(db, VECTOR_META_KEY)
  {
    hide Ascii;
    if batch != [] {
      assert batch[|batch| - 1] in batch;
      OnlyPuts(db, batch[..|batch| - 1]);
    }
  }

  /** No step of the outcome touches the metadata. */
  ghost predicate SameMeta(db: Db, o: Outcome<()>) {
    && ValueAt(FinalOf(db, o), VECTOR_META_KEY) == ValueAt(db, VECTOR_META_KEY)
    && forall c :: c in o.commits ==> ValueAt(c, VECTOR_META_KEY) == ValueAt(db, VECTOR_META_KEY)
  }

  lemma MetaSame(db: Db, first: Outcome<()>, next: Outcome<()>)
    requires first.res.Success? && (forall c :: c in first.commits ==> c == FinalOf(db, first))
    requires ValueAt(FinalOf(db, first), VECTOR_META_KEY) == ValueAt(db, VECTOR_META_KEY) && SameMeta(FinalOf(db, first), next)
    ensures SameMeta(db, Then(first, next))
  {
  }

  lemma OneCommit(db: Db, batch: Batch)
    ensures forall c :: c in Commit(db, batch).commits ==> c == FinalOf(db, Commit(db, batch))
  {
  }

  /** The node blocks of a graph. */
  function BlocksOf(nodes: seq<(u64, VectorNode)>): Db {
    if nodes == [] then map[]
    else
      var n := |nodes| - 1;
      BlocksOf(nodes[..n])[NodeKey(nodes[n].0) := NodeBytes(nodes[n].1)]
  }

  lemma {:induction false} PutsApplied(db: Db, nodes: seq<(u64, VectorNode)>)
    requires Puts(nodes).Success?
    ensures Applied(db, Puts(nodes).value) == db + BlocksOf(nodes)
  {
    hide NodeBytes, NodeKey, Ascii;
    if nodes != [] {
      PutsApplied(db, nodes[..|nodes| - 1]);
    }
  }

  lemma {:induction false} BlocksConcat(a: seq<(u64, VectorNode)>, b: seq<(u64, VectorNode)>)
    ensures BlocksOf(a + b) == BlocksOf(a) + BlocksOf(b)
  {
    hide NodeBytes, NodeKey;
    if b == [] {
      assert a + b == a;
    } else {
      BlocksConcat(a, b[..|b| - 1]);
      assert (a + b)[..|a + b| - 1] == a + b[..|b| - 1];
    }
  }

  lemma {:induction false} BlockFrom(nodes: seq<(u64, VectorNode)>, key: Bytes)
    ensures key in BlocksOf(nodes) <==> exists n :: n in nodes && NodeKey(n.0) == key
    ensures key in BlocksOf(nodes) ==>
              exists n :: n in nodes && NodeKey(n.0) == key && BlocksOf(nodes)[key] == NodeBytes(n.1)
  {
    hide NodeBytes, NodeKey;
    if nodes != [] {
      var n := |nodes| - 1;
      BlockFrom(nodes[..n], key);
      assert nodes == nodes[..n] + [nodes[n]];
      assert nodes[n] in nodes;
    }
  }

  lemma {:induction false} FlushRuns(db: Db, nodes: seq<(u64, VectorNode)>)
    requires Restores(LivePart(db), nodes)
    ensures var o := FlushNodes(db, nodes);
      && o.res == Success(()) && AllKeep(db, o)
      && FinalOf(db, o).Keys == db.Keys && SameMeta(db, o) && FinalOf(db, o) == db + BlocksOf(nodes)
    decreases |nodes|
  {
    hide Keeps, LivePart, Harmless, Puts, Commit, NodeKey, NodeFits, Ascii, AllKeep, ValueAt, FinalOf, Then, SameMeta;
    hide BlocksOf;
    if nodes == [] {
      NothingDone(db);
      SameMetaNone(db);
      NoBlocks(db);
    } else {
      var n := Chunk(|nodes|);
      BlocksConcat(nodes[..n], nodes[n..]);
      assert nodes == nodes[..n] + nodes[n..];
      assert db + BlocksOf(nodes[..n]) + BlocksOf(nodes[n..]) == db + BlocksOf(nodes);
      PutsAre(LivePart(db), nodes[..n]);
      PutsApplied(db, nodes[..n]);
      var batch := Puts(nodes[..n]).value;
      var first := Commit(db, batch);
      HarmlessCommit(db, batch);
      LiveIsThere(db, batch);
      OnlyPuts(db, batch);
      var db' := FinalOf(db, first);
      SameLive(db, first);
      FlushRuns(db', nodes[n..]);
      OneCommit(db, batch);
      MetaSame(db, first, FlushNodes(db', nodes[n..]));
      ThenKeeps(db, first, FlushNodes(db', nodes[n..]));
      ThenRes(first, FlushNodes(db', nodes[n..]));
    }
  }

  /** The graph goes to disk 512 blocks at a time, the tombstones leave it 512 at a time. */
  lemma {:induction false} FlushSteps(db: Db, nodes: seq<(u64, VectorNode)>)
    requires forall i :: 0 <= i < |nodes| ==> NodeFits(nodes[i].1)
    ensures FlushNodes(db, nodes).res.Success? && |FlushNodes(db, nodes).commits| == (|nodes| + 511) / 512
    decreases |nodes|
  {
    hide Puts, Commit;
    if nodes != [] {
      var n := Chunk(|nodes|);
      PutsFit(nodes[..n]);
      var first := Commit(db, Puts(nodes[..n]).value);
      ChunkCommits(db, Puts(nodes[..n]).value);
      FlushSteps(FinalOf(db, first), nodes[n..]);
    }
  }

  lemma {:induction false} PurgeSteps(db: Db, ids: seq<u64>)
    ensures PurgeNodes(db, ids).res.Success? && |PurgeNodes(db, ids).commits| == (|ids| + 511) / 512
    decreases |ids|
  {
    hide Commit;
    if ids != [] {
      var n := Chunk(|ids|);
      ChunkCommits(db, NodeDeletes(ids[..n]));
      PurgeSteps(FinalOf(db, Commit(db, NodeDeletes(ids[..n]))), ids[n..]);
    }
  }

  lemma {:induction false} PutsFit(nodes: seq<(u64, VectorNode)>)
    requires forall i :: 0 <= i < |nodes| ==> NodeFits(nodes[i].1)
    ensures Puts(nodes).Success? && |Puts(nodes).value| == |nodes|
  {
    if nodes != [] {
      PutsFit(nodes[..|nodes| - 1]);
    }
  }

  lemma ChunkCommits(db: Db, batch: Batch)
    requires 0 < |batch| <= 512
    ensures Commit(db, batch).res.Success? && |Commit(db, batch).commits| == 1
  {
  }

  lemma NoBlocks(db: Db)
    ensures db + BlocksOf([]) == db
  {
  }

  lemma NothingDone(db: Db)
    ensures var none: Outcome<()> := Outcome([], Success(())); AllKeep(db, none) && FinalOf(db, none) == db
  {
    KeepsItself(db);
  }

  lemma SameMetaNone(db: Db)
    ensures SameMeta(db, Outcome([], Success(())))
  {
  }

  lemma LiveIsThere(db: Db, batch: Batch)
    requires forall op :: op in batch ==> op.0 in LivePart(db)
    ensures forall op :: op in batch ==> op.0 in db
  {
  }

  lemma SameLive<T>(db: Db, o: Outcome<T>)
    requires AllKeep(db, o)
    ensures LivePart(FinalOf(db, o)) == LivePart(db) && OffVector(FinalOf(db, o)) == OffVector(db)
    ensures NodesFine(db) ==> NodesFine(FinalOf(db, o))
  {
    hide LivePart, OffVector, NodesFine, BlockDims;
  }

  lemma ThenRes<T, U>(first: Outcome<T>, next: Outcome<U>)
    ensures first.res.Success? ==> Then(first, next).res == next.res
    ensures first.res.Failure? ==> Then(first, next).res == Failure(first.res.error)
    ensures first.res.Failure? ==> Then(first, next).commits == first.commits
    ensures first.res.Success? ==> Then(first, next).commits == first.commits + next.commits
  {
  }

  function KeysOf(ids: seq<u64>): set<Bytes> {
    set id | id in ids :: NodeKey(id)
  }

  lemma {:induction false} NodeDeletesHarmless(live: map<Bytes, seq<f32>>, ids: seq<u64>)
    requires forall id :: id in ids ==> NodeKey(id) !in live
    ensures forall op :: op in NodeDeletes(ids) ==> Harmless(live, op)
  {
    hide NodeKey, IsNode, NodeId, Ascii, DecodeNode;
    if ids != [] {
      NodeKeyIs(ids[|ids| - 1]);
      NodeDeletesHarmless(live, ids[..|ids| - 1]);
    }
  }

  lemma {:induction false} NodeDeletesApplied(db: Db, ids: seq<u64>)
    ensures Applied(db, NodeDeletes(ids)) == db - KeysOf(ids)
  {
    hide NodeKey, Ascii;
    if ids != [] {
      var n := |ids| - 1;
      NodeDeletesApplied(db, ids[..n]);
      assert ids == ids[..n] + [ids[n]];
      assert KeysOf(ids) == KeysOf(ids[..n]) + {NodeKey(ids[n])};
    } else {
      assert db - KeysOf([]) == db;
    }
  }

  lemma {:induction false} PurgeRuns(db: Db, ids: seq<u64>)
    requires forall id :: id in ids ==> NodeKey(id) !in LivePart(db)
    ensures var o := PurgeNodes(db, ids);
      && o.res == Success(()) && AllKeep(db, o)
      && FinalOf(db, o) == db - KeysOf(ids)
      && SameMeta(db, o)
    decreases |ids|
  {
    hide Keeps, LivePart, Harmless, NodeDeletes, Commit, NodeKey, Ascii, AllKeep, FinalOf, Then, SameMeta;
    if ids == [] {
      NothingDone(db);
      SameMetaNone(db);
    } else {
      var n := Chunk(|ids|);
      var first := Commit(db, NodeDeletes(ids[..n]));
      NodeDeletesHarmless(LivePart(db), ids[..n]);
      NodeDeletesApplied(db, ids[..n]);
      HarmlessCommit(db, NodeDeletes(ids[..n]));
      var db' := FinalOf(db, first);
      SameLive(db, first);
      PurgeRuns(db', ids[n..]);
      MetaNotOf(ids[..n]);
      OneCommit(db, NodeDeletes(ids[..n]));
      MetaSame(db, first, PurgeNodes(db', ids[n..]));
      ThenKeeps(db, first, PurgeNodes(db', ids[n..]));
      ThenRes(first, PurgeNodes(db', ids[n..]));
      assert ids == ids[..n] + ids[n..];
      assert db - KeysOf(ids[..n]) - KeysOf(ids[n..]) == db - KeysOf(ids);
    }
  }

  lemma MetaNotOf(ids: seq<u64>)
    ensures VECTOR_META_KEY !in KeysOf(ids)
  {
    hide NodeKey, Ascii;
    forall id | id in ids
      ensures NodeKey(id) != VECTOR_META_KEY
    {
      NodeKeyIs(id);
    }
  }

  // ── a rebuild from the store ───────────────────────────────────────────

  predicate IdsAscend(vectors: seq<(u64, seq<f32>)>) {
    forall i, j :: 0 <= i < j < |vectors| ==> vectors[i].0 < vectors[j].0
  }

  /** The most edges a node is given: choosing neighbours stops once there are as many as allowed, but not before
      the first. */
  function MaxEdges(params: VectorParams): (r: nat)
    ensures r >= 1 && r >= params.maxDegree && (r == 1 || r == params.maxDegree)
  {
    if params.maxDegree == 0 then 1 else params.maxDegree
  }

  predicate HasId(vectors: seq<(u64, seq<f32>)>, id: u64) {
    exists v :: v in vectors && v.0 == id
  }

  predicate HasNode(nodes: seq<(u64, VectorNode)>, id: u64) {
    exists n :: n in nodes && n.0 == id
  }

  /** No more edges than the parameters allow, each to another of the ids. */
  predicate Linked(id: u64, node: VectorNode, params: VectorParams, vectors: seq<(u64, seq<f32>)>) {
    |node.neighbors| <= MaxEdges(params) && forall m :: m in node.neighbors ==> m != id && HasId(vectors, m)
  }

  /** What the graph construction promises: over vectors of the right dimension, each id once, a live node for each
      of these ids and no others, with its vector and its edges among them, entered at the first. */
  ghost predicate Faithful(parts: Parts) {
    forall params, vectors :: FaithfulOn(params, vectors, parts.build(params, vectors))
  }

  ghost predicate FaithfulOn(params: VectorParams, vectors: seq<(u64, seq<f32>)>, graph: Graph) {
    IdsAscend(vectors) && (forall v :: v in vectors ==> |v.1| == params.dim) ==>
      && (forall n :: n in graph.nodes ==>
            !n.1.deleted && (n.0, n.1.vector) in vectors && Linked(n.0, n.1, params, vectors))
      && (forall v :: v in vectors ==> HasNode(graph.nodes, v.0))
      && graph.entryPoint == if vectors == [] then None else Some(vectors[0].0)
  }

  lemma {:induction false} SurveyAscends(entries: seq<Entry>, dim: nat)
    requires StrictlySorted(entries) && Survey(entries, dim).Success?
    ensures IdsAscend(Survey(entries, dim).value.vectors)
  {
    hide BlockIn, NodeKey, Surveyed, NodeId, Listed;
    if entries != [] {
      var n := |entries| - 1;
      var older, e := entries[..n], entries[n];
      SurveyAscends(older, dim);
      SurveyIs(older, dim);
      SurveyIs(entries, dim);
      var before, s := Survey(older, dim).value, Survey(entries, dim).value;
      SurveyedIs(before, e, dim);
      assert Accepted(e, dim) && NodeId(e.key).Some?;
      NextAbove(entries, before.vectors);
      assert s == Surveyed(before, e, dim).value;
      assert s.vectors == before.vectors
          || s.vectors == before.vectors + [(NodeId(e.key).value, BlockIn(e).value.vector)];
    }
  }

  /** The id of the last key is above all before it. */
  lemma NextAbove(entries: seq<Entry>, vectors: seq<(u64, seq<f32>)>)
    requires entries != [] && StrictlySorted(entries)
    requires forall v :: v in vectors ==> VectorOf(entries[..|entries| - 1], v)
    ensures var id := NodeId(entries[|entries| - 1].key);
      id.Some? ==> forall i :: 0 <= i < |vectors| ==> vectors[i].0 < id.value
  {
    hide BlockIn, NodeKey, NodeId;
    var n := |entries| - 1;
    var older, e := entries[..n], entries[n];
    KeyOfId(e.key);
    forall i | 0 <= i < |vectors| && NodeId(e.key).Some?
      ensures vectors[i].0 < NodeId(e.key).value
    {
      var v := vectors[i];
      assert v in vectors && VectorOf(older, v);
      var k :| 0 <= k < |older| && older[k].key == NodeKey(v.0);
      assert older[k] == entries[k] && Lt(entries[k].key, entries[n].key);
      NodeKeyOrder(v.0, NodeId(e.key).value);
    }
  }

  lemma NodeKeyOrder(a: u64, b: u64)
    requires Lt(NodeKey(a), NodeKey(b))
    ensures a < b
  {
    hide Be, Ascii;
    IdKeyOrder(NODE_PREFIX, a, b);
  }

  lemma CountLive(db: Db, s: Survivors, dim: nat)
    requires Found(db, s, dim) && IdsAscend(s.vectors)
    ensures |LivePart(db)| == |s.vectors|
  {
    hide NodeKey, LivePart;
    assert LivePart(db).Keys == VectorKeys(s.vectors);
    assert |LivePart(db).Keys| == |LivePart(db)|;
    CountKeys(s.vectors);
  }

  function VectorKeys(vectors: seq<(u64, seq<f32>)>): set<Bytes> {
    set v | v in vectors :: NodeKey(v.0)
  }

  lemma {:induction false} CountKeys(vectors: seq<(u64, seq<f32>)>)
    requires IdsAscend(vectors)
    ensures |VectorKeys(vectors)| == |vectors|
  {
    hide NodeKey;
    if vectors == [] {
      assert VectorKeys(vectors) == {};
    } else {
      var n := |vectors| - 1;
      var older, last := vectors[..n], vectors[n];
      CountKeys(older);
      forall v | v in older
        ensures NodeKey(v.0) != NodeKey(last.0)
      {
        NodeKeyIs(v.0);
        NodeKeyIs(last.0);
      }
      assert vectors == older + [last];
      assert VectorKeys(vectors) == VectorKeys(older) + {NodeKey(last.0)};
    }
  }

  lemma GraphRestores(db: Db, params: VectorParams, s: Survivors, parts: Parts)
    requires Faithful(parts) && params.Fits() && Found(db, s, params.dim) && IdsAscend(s.vectors)
    ensures Restores(LivePart(db), parts.build(params, s.vectors).nodes)
    ensures parts.build(params, s.vectors).entryPoint == if s.vectors == [] then None else Some(s.vectors[0].0)
  {
    hide LivePart, NodeKey;
    assert FaithfulOn(params, s.vectors, parts.build(params, s.vectors));
  }

  /** The vectors of a store, listed in ascending id order. */
  ghost predicate Lists(vectors: seq<(u64, seq<f32>)>, live: map<Bytes, seq<f32>>) {
    IdsAscend(vectors) && forall v: (u64, seq<f32>) :: v in vectors <==> NodeKey(v.0) in live && live[NodeKey(v.0)] == v.1
  }

  lemma FoundLists(db: Db, s: Survivors, dim: nat)
    requires Found(db, s, dim) && IdsAscend(s.vectors)
    ensures Lists(s.vectors, LivePart(db))
  {
    hide LivePart, NodeKey, NodeId, Ascii;
    forall v: (u64, seq<f32>) | NodeKey(v.0) in LivePart(db) && LivePart(db)[NodeKey(v.0)] == v.1
      ensures v in s.vectors
    {
      var w :| w in s.vectors && NodeKey(w.0) == NodeKey(v.0);
      NodeKeyIs(v.0);
      NodeKeyIs(w.0);
      assert w == v;
    }
  }

  lemma LastIs(a: seq<(u64, seq<f32>)>, b: seq<(u64, seq<f32>)>)
    requires IdsAscend(a) && IdsAscend(b) && a != [] && b != [] && forall v :: v in a <==> v in b
    ensures a[|a| - 1] == b[|b| - 1]
  {
    var x, y := a[|a| - 1], b[|b| - 1];
    assert x in a && y in b;
    var i :| 0 <= i < |b| && b[i] == x;
    var j :| 0 <= j < |a| && a[j] == y;
  }

  lemma NotEmpty(a: seq<(u64, seq<f32>)>, b: seq<(u64, seq<f32>)>)
    requires a != [] && forall v :: v in a ==> v in b
    ensures b != []
  {
    assert a[0] in b;
  }

  /** So listed there is one list only. */
  lemma {:induction false} ListedOnce(a: seq<(u64, seq<f32>)>, b: seq<(u64, seq<f32>)>)
    requires IdsAscend(a) && IdsAscend(b) && forall v :: v in a <==> v in b
    ensures a == b
  {
    if a != [] || b != [] {
      if a != [] {
        NotEmpty(a, b);
      } else {
        NotEmpty(b, a);
      }
      LastIs(a, b);
      var n, m := |a| - 1, |b| - 1;
      assert a == a[..n] + [a[n]] && b == b[..m] + [b[m]];
      assert a[n] !in a[..n] && b[m] !in b[..m];
      forall v
        ensures v in a[..n] <==> v in b[..m]
      {
        assert v in a <==> v in a[..n] || v == a[n];
        assert v in b <==> v in b[..m] || v == b[m];
      }
      ListedOnce(a[..n], b[..m]);
    }
  }

  /** The node blocks. */
  function NodePart(db: Db): Db {
    map key | key in db && IsNode(key) :: db[key]
  }

  /** The node blocks are those of the graph over the live vectors, and the metadata enters where it does. */
  ghost predicate Graphed(db: Db, params: VectorParams, parts: Parts) {
    exists vectors :: GraphOf(db, params, vectors, parts.build(params, vectors))
  }

  ghost predicate GraphOf(db: Db, params: VectorParams, vectors: seq<(u64, seq<f32>)>, graph: Graph) {
    && Lists(vectors, LivePart(db)) && (forall v :: v in vectors ==> |v.1| == params.dim)
    && NodePart(db) == BlocksOf(graph.nodes)
    && StoredMeta(db).Some? && StoredMeta(db).value.entryPoint == graph.entryPoint
  }

  /** The same live vectors and parameters make the same blocks, byte for byte. */
  lemma GraphedSame(a: Db, b: Db, params: VectorParams, parts: Parts)
    requires Graphed(a, params, parts) && Graphed(b, params, parts) && LivePart(a) == LivePart(b)
    ensures NodePart(a) == NodePart(b) && StoredMeta(a).Some? && StoredMeta(b).Some?
    ensures StoredMeta(a).value.entryPoint == StoredMeta(b).value.entryPoint
  {
    hide LivePart, NodeKey, BlocksOf, NodePart, StoredMeta;
    var v :| GraphOf(a, params, v, parts.build(params, v));
    var w :| GraphOf(b, params, w, parts.build(params, w));
    ListedOnce(v, w);
  }

  /** Every edge leads from a live node to another one. */
  ghost predicate EdgesLead(db: Db, params: VectorParams) {
    forall key :: key in db && IsNode(key) ==> Leads(db, key, params)
  }

  predicate Leads(db: Db, key: Bytes, params: VectorParams)
    requires key in db
  {
    var node := DecodeNode(db[key]);
    && node.Success? && |node.value.neighbors| <= (if params.maxDegree == 0 then 1 else params.maxDegree)
    && forall m :: m in node.value.neighbors ==> NodeKey(m) != key && NodeKey(m) in LivePart(db)
  }

  lemma GraphedLeads(db: Db, params: VectorParams, parts: Parts)
    requires Faithful(parts) && params.Fits() && Graphed(db, params, parts)
    ensures EdgesLead(db, params)
  {
    hide LivePart, NodeKey, BlocksOf, StoredMeta, Leads, IsNode, FaithfulOn;
    var vectors :| GraphOf(db, params, vectors, parts.build(params, vectors));
    var graph := parts.build(params, vectors);
    assert FaithfulOn(params, vectors, graph);
    forall key | key in db && IsNode(key)
      ensures Leads(db, key, params)
    {
      assert key in NodePart(db);
      BlockLeads(db, key, params, vectors, graph);
    }
  }

  lemma BlockLeads(db: Db, key: Bytes, params: VectorParams, vectors: seq<(u64, seq<f32>)>, graph: Graph)
    requires params.Fits() && FaithfulOn(params, vectors, graph) && GraphOf(db, params, vectors, graph)
    requires key in db && key in NodePart(db)
    ensures Leads(db, key, params)
  {
    hide LivePart, NodeKey, NodeId, BlocksOf, StoredMeta, NodeBytes, DecodeNode, IsNode, Ascii;
    BlockFrom(graph.nodes, key);
    var n :| n in graph.nodes && NodeKey(n.0) == key && BlocksOf(graph.nodes)[key] == NodeBytes(n.1);
    assert db[key] == NodePart(db)[key] == NodeBytes(n.1);
    NodeRoundTrip(n.1);
    forall m | m in n.1.neighbors
      ensures NodeKey(m) != key && NodeKey(m) in LivePart(db)
    {
      assert HasId(vectors, m);
      var v :| v in vectors && v.0 == m;
      NodeKeyIs(m);
      NodeKeyIs(n.0);
    }
  }

  /** The graph has a block for each live vector, and no other. */
  lemma BlocksCover(live: map<Bytes, seq<f32>>, params: VectorParams, vectors: seq<(u64, seq<f32>)>, graph: Graph)
    requires Lists(vectors, live) && FaithfulOn(params, vectors, graph)
    requires forall v :: v in vectors ==> |v.1| == params.dim
    requires forall key :: key in live ==> exists v :: v in vectors && NodeKey(v.0) == key
    ensures BlocksOf(graph.nodes).Keys == live.Keys
  {
    hide NodeKey, BlocksOf;
    forall key
      ensures key in BlocksOf(graph.nodes) <==> key in live
    {
      BlockFrom(graph.nodes, key);
      if key in live {
        var v :| v in vectors && NodeKey(v.0) == key;
        assert HasNode(graph.nodes, v.0);
      }
    }
  }

  /** What is left when the blocks of the graph are written over the old ones and the tombstones purged. */
  lemma RegrownGraph(db: Db, params: VectorParams, s: Survivors, parts: Parts, final: Db, bytes: Bytes)
    requires Faithful(parts) && params.Fits() && Found(db, s, params.dim) && IdsAscend(s.vectors)
    requires var graph := parts.build(params, s.vectors);
      && final == (db + BlocksOf(graph.nodes) - KeysOf(s.tombstones))[VECTOR_META_KEY := bytes]
      && StoredMeta(final).Some? && StoredMeta(final).value.entryPoint == graph.entryPoint
    requires LivePart(final) == LivePart(db) && forall key :: key in final && IsNode(key) ==> key in LivePart(final)
    ensures Graphed(final, params, parts)
  {
    hide LivePart, NodeKey, NodeId, BlocksOf, StoredMeta, Ascii, IsNode, FaithfulOn, KeysOf, Found, NodePart, Lists;
    var graph := parts.build(params, s.vectors);
    assert FaithfulOn(params, s.vectors, graph);
    FoundLists(db, s, params.dim);
    FoundCovers(db, s, params.dim);
    BlocksCover(LivePart(db), params, s.vectors, graph);
    forall key | key in LivePart(final)
      ensures key in final && IsNode(key)
    {
      LiveInStore(final, key);
    }
    OnlyBlocks(db, BlocksOf(graph.nodes), KeysOf(s.tombstones), final, bytes);
    assert GraphOf(final, params, s.vectors, graph);
  }

  lemma FoundCovers(db: Db, s: Survivors, dim: nat)
    requires Found(db, s, dim)
    ensures forall key :: key in LivePart(db) ==> exists v :: v in s.vectors && NodeKey(v.0) == key
    ensures forall v :: v in s.vectors ==> |v.1| == dim
  {
    hide LivePart, NodeKey;
  }

  lemma OnlyBlocks(db: Db, blocks: Db, gone: set<Bytes>, final: Db, bytes: Bytes)
    requires final == (db + blocks - gone)[VECTOR_META_KEY := bytes]
    requires forall key :: key in blocks <==> key in final && IsNode(key)
    ensures NodePart(final) == blocks
  {
    hide IsNode, Ascii;
    MetaIsNoNode();
  }

  /** The index is whole: every node block is live and of the graph, and the metadata counts them and enters at one
      of them. */
  ghost predicate Whole(db: Db, params: VectorParams, epoch: u64, parts: Parts) {
    && (forall key :: key in db && IsNode(key) ==> key in LivePart(db))
    && Graphed(db, params, parts) && StoredMeta(db).Some?
    && var m := StoredMeta(db).value;
       m.params == params && m.epoch == epoch && m.count == Saturated(|LivePart(db)|) && Resolves(db, m)
  }

  lemma MetaOp(db: Db, slot: Slot)
    ensures var o := Commit(db, [(VECTOR_META_KEY, slot)]);
      && o.res == Success(()) && AllKeep(db, o) && o.commits == [FinalOf(db, o)]
      && FinalOf(db, o) == if slot.Some? then db[VECTOR_META_KEY := slot.value] else db - {VECTOR_META_KEY}
  {
    hide Keeps, LivePart, Ascii;
    var batch := [(VECTOR_META_KEY, slot)];
    AppliedSingle(db, (VECTOR_META_KEY, slot));
    HarmlessCommit(db, batch);
  }

  lemma WriteMetaRuns(db: Db, m: VectorIndexMeta)
    requires m.params.Fits() && (m.entryPoint.Some? <==> m.count > 0)
    ensures var o := WriteMeta(db, m);
      && o.res == Success(m.epoch) && AllKeep(db, o) && StoredMeta(FinalOf(db, o)) == Some(m)
      && FinalOf(db, o) == db[VECTOR_META_KEY := VectorMetaBytes(m)] && o.commits == [FinalOf(db, o)]
  {
    hide Keeps, VectorMetaBytes, DecodeVectorMeta, Ascii, AllKeep, Commit;
    VectorMetaRoundTrip(m);
    var first := Commit(db, [(VECTOR_META_KEY, Some(VectorMetaBytes(m)))]);
    var done: Outcome<u64> := Outcome([], Success(m.epoch));
    MetaOp(db, Some(VectorMetaBytes(m)));
    NothingMore(FinalOf(db, first), done);
    ThenKeeps(db, first, done);
    assert first.commits + [] == first.commits;
  }

  lemma NothingMore<T>(db: Db, o: Outcome<T>)
    requires o.commits == []
    ensures AllKeep(db, o) && FinalOf(db, o) == db
  {
    KeepsItself(db);
  }

  lemma RewrittenRuns(db: Db, params: VectorParams, s: Survivors, graph: Graph)
    requires Restores(LivePart(db), graph.nodes) && Found(db, s, params.dim) && VECTOR_META_KEY !in db
    ensures var o := Rewritten(db, s, graph);
      && o.res == Success(()) && AllKeep(db, o) && MetaIs(o, params)
      && (forall c :: c in o.commits ==> VECTOR_META_KEY !in c)
      && FinalOf(db, o) == db + BlocksOf(graph.nodes) - KeysOf(s.tombstones)
      && FinalOf(db, o).Keys == db.Keys - KeysOf(s.tombstones)
  {
    hide Keeps, LivePart, Found, FlushNodes, PurgeNodes, NodeKey, Ascii, AllKeep, Restores, StoredMeta, FinalOf, Then;
    hide MetaIs, BlocksOf, KeysOf, SameMeta;
    var flushed := FlushNodes(db, graph.nodes);
    FlushRuns(db, graph.nodes);
    SameLive(db, flushed);
    FoundDead(db, s, params.dim);
    var db1 := FinalOf(db, flushed);
    var purged := PurgeNodes(db1, s.tombstones);
    PurgeRuns(db1, s.tombstones);
    ThenKeeps(db, flushed, purged);
    ThenRes(flushed, purged);
    NoMeta(db, flushed, params);
    NoMeta(db1, purged, params);
    MetaThen(flushed, purged, params);
    NotYet(flushed, purged);
  }

  lemma RegrowRuns(db: Db, params: VectorParams, prior: Option<u64>, s: Survivors, parts: Parts)
    requires Faithful(parts) && params.Fits() && Found(db, s, params.dim) && IdsAscend(s.vectors)
    requires VECTOR_META_KEY !in db
    ensures var o := Regrow(db, params, prior, s, parts);
      && o.res == Success(NextEpoch(prior)) && AllKeep(db, o) && Whole(FinalOf(db, o), params, NextEpoch(prior), parts)
      && MetaIs(o, params) && MetaLast(o)
  {
    hide Keeps, LivePart, Found, Rewritten, WriteMeta, NodeKey, Ascii, AllKeep, Restores, Faithful, BlocksOf, KeysOf;
    hide StoredMeta, FinalOf, Then, MetaLast, Whole, Graphed, VectorMetaBytes, IsNode;
    var graph := parts.build(params, s.vectors);
    var first, m := Rewritten(db, s, graph), FreshMeta(params, prior, s.vectors, graph);
    GraphRestores(db, params, s, parts);
    RewrittenRuns(db, params, s, graph);
    SameLive(db, first);
    var mid := FinalOf(db, first);
    var last := WriteMeta(mid, m);
    WriteMetaRuns(mid, m);
    SameLive(mid, last);
    ThenKeeps(db, first, last);
    ThenRes(first, last);
    MetaThen(first, last, params);
    OneIsLast(last);
    OnlyLast(first, last);
    RegrownIsWhole(db, params, s, parts, FinalOf(mid, last), m);
  }

  lemma RegrownIsWhole(db: Db, params: VectorParams, s: Survivors, parts: Parts, final: Db, m: VectorIndexMeta)
    requires Faithful(parts) && params.Fits() && Found(db, s, params.dim) && IdsAscend(s.vectors)
    requires var graph := parts.build(params, s.vectors);
      && m == VectorIndexMeta(params, m.epoch, Saturated(|s.vectors|), graph.entryPoint)
      && final == (db + BlocksOf(graph.nodes) - KeysOf(s.tombstones))[VECTOR_META_KEY := VectorMetaBytes(m)]
      && final.Keys == db.Keys - KeysOf(s.tombstones) + {VECTOR_META_KEY}
    requires StoredMeta(final) == Some(m) && LivePart(final) == LivePart(db)
    ensures Whole(final, params, m.epoch, parts)
  {
    hide LivePart, Found, NodeKey, Ascii, Faithful, BlocksOf, KeysOf, StoredMeta, Whole, Graphed, VectorMetaBytes, IsNode;
    GraphRestores(db, params, s, parts);
    CountLive(db, s, params.dim);
    RegrownLive(db, s, params.dim, final);
    RegrownGraph(db, params, s, parts, final, VectorMetaBytes(m));
    RegrownWhole(db, s, params, final, m, parts);
  }

  /** The metadata record comes with the last commit and not before. */
  ghost predicate MetaLast<T>(o: Outcome<T>) {
    o.commits != [] && forall i :: 0 <= i < |o.commits| - 1 ==> VECTOR_META_KEY !in o.commits[i]
  }

  lemma OnlyLast<T, U>(first: Outcome<T>, next: Outcome<U>)
    requires first.res.Success? && (forall c :: c in first.commits ==> VECTOR_META_KEY !in c) && MetaLast(next)
    ensures MetaLast(Then(first, next))
  {
    hide Ascii;
    var o, n := Then(first, next), |first.commits|;
    forall i | 0 <= i < |o.commits| - 1
      ensures VECTOR_META_KEY !in o.commits[i]
    {
      if i < n {
        assert o.commits[i] == first.commits[i];
        assert first.commits[i] in first.commits;
      } else {
        assert o.commits[i] == next.commits[i - n];
      }
    }
  }

  lemma NotYet<T, U>(first: Outcome<T>, next: Outcome<U>)
    requires forall c :: c in first.commits ==> VECTOR_META_KEY !in c
    requires forall c :: c in next.commits ==> VECTOR_META_KEY !in c
    ensures forall c :: c in Then(first, next).commits ==> VECTOR_META_KEY !in c
  {
    hide Ascii;
  }

  lemma OneIsLast<T>(o: Outcome<T>)
    requires |o.commits| == 1
    ensures MetaLast(o)
  {
  }

  /** No commit shows metadata with other parameters. */
  ghost predicate MetaIs<T>(o: Outcome<T>, params: VectorParams) {
    forall c :: c in o.commits ==> StoredMeta(c).None? || StoredMeta(c).value.params == params
  }

  lemma NoMeta(db: Db, o: Outcome<()>, params: VectorParams)
    requires SameMeta(db, o) && VECTOR_META_KEY !in db
    ensures MetaIs(o, params) && VECTOR_META_KEY !in FinalOf(db, o)
    ensures forall c :: c in o.commits ==> VECTOR_META_KEY !in c
  {
    hide Ascii, DecodeVectorMeta;
    forall c | c in o.commits
      ensures StoredMeta(c).None? && VECTOR_META_KEY !in c
    {
      assert ValueAt(c, VECTOR_META_KEY) == ValueAt(db, VECTOR_META_KEY);
    }
  }

  lemma MetaThen<T, U>(first: Outcome<T>, next: Outcome<U>, params: VectorParams)
    requires MetaIs(first, params) && MetaIs(next, params)
    ensures MetaIs(Then(first, next), params)
  {
    hide StoredMeta;
  }

  /** Deleting the metadata record changes nothing else. */
  lemma MetaGone(db: Db)
    ensures var d := db - {VECTOR_META_KEY};
      && LivePart(d) == LivePart(db) && (NodesFine(d) <==> NodesFine(db)) && BlockDims(d) == BlockDims(db)
      && ScanPrefix(d, NODE_PREFIX) == ScanPrefix(db, NODE_PREFIX)
  {
    hide Ascii, DecodeNode, StartsWith, NodeId, ScanPrefix;
    MetaIsNoNode();
    SameEntries(db - {VECTOR_META_KEY}, db, NODE_PREFIX);
  }

  lemma RegrownRuns(db: Db, params: VectorParams, prior: Option<u64>, parts: Parts)
    requires Faithful(parts) && params.Fits() && VECTOR_META_KEY !in db
    ensures var o := Regrown(db, params, prior, parts);
      && AllKeep(db, o) && MetaIs(o, params) && (o.res.Success? <==> NodesFine(db) && AllDim(db, params.dim))
      && (o.res.Success? ==>
            o.res.value == NextEpoch(prior) && Whole(FinalOf(db, o), params, NextEpoch(prior), parts) && MetaLast(o))
  {
    hide MetaLast, ScanPrefix, Survey, Regrow, AllKeep, Whole, Faithful, Found, NodesFine, AllDim, Ascii, StoredMeta;
    var entries := ScanPrefix(db, NODE_PREFIX);
    SurveyOfStore(db, params.dim);
    if Survey(entries, params.dim).Success? {
      ScannedKeys(db, NODE_PREFIX);
      SurveyAscends(entries, params.dim);
      RegrowRuns(db, params, prior, Survey(entries, params.dim).value, parts);
    } else {
      NothingMore(db, Regrown(db, params, prior, parts));
    }
  }

  /** A rebuild from the store keeps every live vector at every point; it goes through exactly when every node
      block is sound and every live vector has the dimension; and it leaves a whole index. */
  lemma RebuildStoreRuns(db: Db, params: VectorParams, prior: Option<u64>, parts: Parts)
    requires Faithful(parts) && params.Fits()
    ensures var o := RebuildStore(db, params, prior, parts);
      && AllKeep(db, o) && MetaIs(o, params) && o.commits != [] && o.commits[0] == db - {VECTOR_META_KEY}
      && (o.res.Success? <==> NodesFine(db) && AllDim(db, params.dim))
      && (o.res.Success? ==>
            o.res.value == NextEpoch(prior) && Whole(FinalOf(db, o), params, NextEpoch(prior), parts) && MetaLast(o))
  {
    hide Regrown, AllKeep, Whole, Faithful, NodesFine, LivePart, Ascii, DecodeVectorMeta, Commit, Then, FinalOf, MetaLast;
    hide ScanPrefix, BlockDims, Keeps;
    var start := Commit(db, [(VECTOR_META_KEY, None)]);
    MetaOp(db, None);
    MetaGone(db);
    var db' := FinalOf(db, start);
    RegrownRuns(db', params, prior, parts);
    var next := Regrown(db', params, prior, parts);
    ThenKeeps(db, start, next);
    ThenRes(start, next);
    assert MetaIs(start, params);
    MetaThen(start, next, params);
    if next.res.Success? {
      OnlyLast(start, next);
    }
  }

  lemma FoundDead(db: Db, s: Survivors, dim: nat)
    requires Found(db, s, dim)
    ensures forall id :: id in s.tombstones ==> NodeKey(id) !in LivePart(db)
  {
  }

  lemma RegrownLive(db: Db, s: Survivors, dim: nat, final: Db)
    requires Found(db, s, dim) && LivePart(final) == LivePart(db)
    requires final.Keys == db.Keys - KeysOf(s.tombstones) + {VECTOR_META_KEY}
    ensures forall key :: key in final && IsNode(key) ==> key in LivePart(final)
  {
    hide LivePart, NodeKey, IsNode, Ascii;
    MetaIsNoNode();
    forall key | key in final && IsNode(key)
      ensures key in LivePart(final)
    {
      assert key in db && key !in KeysOf(s.tombstones);
    }
  }

  lemma RegrownWhole(db: Db, s: Survivors, params: VectorParams, final: Db, m: VectorIndexMeta, parts: Parts)
    requires Found(db, s, params.dim) && LivePart(final) == LivePart(db) && |LivePart(db)| == |s.vectors|
    requires (forall key :: key in final && IsNode(key) ==> key in LivePart(final)) && Graphed(final, params, parts)
    requires StoredMeta(final) == Some(m) && m.params == params && m.count == Saturated(|s.vectors|)
    requires m.entryPoint == if s.vectors == [] then None else Some(s.vectors[0].0)
    ensures Whole(final, params, m.epoch, parts)
  {
    hide LivePart, NodeKey, StoredMeta, Ascii, Graphed, IsNode;
    if s.vectors != [] {
      assert s.vectors[0] in s.vectors;
      LiveInStore(final, NodeKey(s.vectors[0].0));
    }
  }

  lemma LiveInStore(db: Db, key: Bytes)
    requires key in LivePart(db)
    ensures key in db && IsNode(key)
  {
  }

  // ── the whole phase ────────────────────────────────────────────────────

  lemma ParamsFit(db: Db)
    requires ParamsOf(db).Success? && ParamsOf(db).value.Some?
    ensures ParamsOf(db).value.value.Fits()
  {
    hide ScanPrefix, Ascii, DecodeVectorMeta;
    if StoredMeta(db).Some? {
      DecodedMetaFits(db[VECTOR_META_KEY]);
    } else {
      var e := ScanPrefix(db, NODE_PREFIX)[0];
      DecodedNodeFits(e.value.value);
    }
  }

  lemma DecodedNodeFits(block: Bytes)
    requires DecodeNode(block).Success?
    ensures NodeFits(DecodeNode(block).value)
  {
    hide FromLe, Checksum.CrcMatches, FromLeAll;
    SpanLiterals();
    FromLeCanonical(block[7..9]);
    FromLeCanonical(block[9..11]);
  }

  /** The metadata decodes and its entry point is there. */
  predicate OpensClean(db: Db) {
    StoredMeta(db).Some? && Resolves(db, StoredMeta(db).value)
  }

  /** The epoch an open finds or makes. */
  function OpenEpoch(db: Db): u64 {
    if StoredMeta(db).Some? then
      var epoch := StoredMeta(db).value.epoch;
      if OpensClean(db) then epoch else NextEpoch(Some(epoch))
    else NextEpoch(None)
  }

  /** Every live vector has the dimension of the index, and every block is sound. */
  predicate VectorsRebuildable(db: Db) {
    match ParamsOf(db)
    case Failure(_) => false
    case Success(None) => true
    case Success(Some(params)) => NodesFine(db) && AllDim(db, params.dim)
  }

  lemma OpenRuns(db: Db, params: VectorParams, parts: Parts)
    requires Faithful(parts) && ParamsOf(db) == Success(Some(params))
    ensures var o := OpenIndex(db, params, parts);
      && AllKeep(db, o) && MetaIs(o, params)
      && (o.res.Success? <==> OpensClean(db) || (NodesFine(db) && AllDim(db, params.dim)))
      && (o.res.Success? ==> o.res.value == (params, OpenEpoch(db)))
      && (OpensClean(db) ==> o.commits == [])
  {
    hide RebuildStore, AllKeep, Whole, Faithful, NodesFine, LivePart, AllDim, Ascii, DecodeVectorMeta, ScanPrefix, Fits;
    ParamsFit(db);
    var prior := if StoredMeta(db).Some? then Some(StoredMeta(db).value.epoch) else None;
    RebuildStoreRuns(db, params, prior, parts);
    KeptRuns(db, params, RebuildStore(db, params, prior, parts));
    if OpensClean(db) {
      NothingMore(db, OpenIndex(db, params, parts));
    }
  }

  lemma KeptRuns(db: Db, params: VectorParams, o: Outcome<u64>)
    requires AllKeep(db, o) && MetaIs(o, params)
    ensures var k := Kept(params, o);
      && AllKeep(db, k) && MetaIs(k, params) && k.commits == o.commits
      && (k.res.Success? <==> o.res.Success?) && (o.res.Success? ==> k.res.value == (params, o.res.value))
  {
    hide Keeps, StoredMeta;
  }

  /** The vector phase: nothing outside the index and no live vector changes at any point; it goes through exactly
      when the live vectors have the index's dimension; and it leaves a whole index one epoch on. */
  lemma VectorRunIs(db: Db, parts: Parts)
    requires Faithful(parts)
    ensures var o := VectorRun(db, parts);
      && AllKeep(db, o) && (o.res.Success? <==> VectorsRebuildable(db))
      && (o.res.Success? ==>
            && ParamsOf(db).Success? && o.res.value == ParamsOf(db).value.Some?
            && (ParamsOf(db).value.None? ==> o.commits == [])
            && (ParamsOf(db).value.Some? ==>
                  var params := ParamsOf(db).value.value;
                  MetaIs(o, params) && Whole(FinalOf(db, o), params, NextEpoch(Some(OpenEpoch(db))), parts)))
  {
    hide OpenIndex, RebuildStore, AllKeep, Whole, Faithful, NodesFine, LivePart, Ascii, StoredMeta, ParamsOf, FinalOf;
    hide AllDim, OpenEpoch, OpensClean, Then, MetaIs;
    if ParamsOf(db).Success? && ParamsOf(db).value.Some? {
      var params := ParamsOf(db).value.value;
      var index := OpenIndex(db, params, parts);
      ParamsFit(db);
      OpenRuns(db, params, parts);
      if index.res.Success? {
        SecondRebuild(db, params, OpenEpoch(db), index, parts);
      } else {
        SameCommits(db, index, VectorRun(db, parts));
      }
    } else {
      NothingMore(db, VectorRun(db, parts));
    }
  }

  lemma SameCommits<T, U>(db: Db, a: Outcome<T>, b: Outcome<U>)
    requires AllKeep(db, a) && a.commits == b.commits
    ensures AllKeep(db, b)
  {
    hide Keeps;
  }

  lemma SecondRebuild(db: Db, params: VectorParams, epoch: u64, index: Outcome<(VectorParams, u64)>, parts: Parts)
    requires Faithful(parts) && params.Fits() && AllKeep(db, index) && MetaIs(index, params)
    requires index.res == Success((params, epoch)) && (OpensCleanly(index) || (NodesFine(db) && AllDim(db, params.dim)))
    ensures var o := Reopened(db, index, parts);
      && AllKeep(db, o) && MetaIs(o, params) && (o.res.Success? <==> NodesFine(db) && AllDim(db, params.dim))
      && (o.res.Success? ==> o.res.value && Whole(FinalOf(db, o), params, NextEpoch(Some(epoch)), parts))
  {
    hide RebuildStore, AllKeep, Whole, Faithful, NodesFine, LivePart, Ascii, StoredMeta, FinalOf, Then, MetaIs, NextEpoch;
    var db' := FinalOf(db, index);
    var rebuilt := RebuildStore(db', params, Some(epoch), parts);
    var done: Outcome<bool> := Outcome([], Success(true));
    RebuildStoreRuns(db', params, Some(epoch), parts);
    SameLive(db, index);
    SameDims(db, db', params.dim);
    CleanIsSame(db, index);
    ThenKeeps(db, index, rebuilt);
    ThenRes(index, rebuilt);
    MetaThen(index, rebuilt, params);
    var both := Then(index, rebuilt);
    NothingMore(FinalOf(db, both), done);
    ThenKeeps(db, both, done);
    ThenRes(both, done);
    MetaNone(params);
    MetaThen(both, done, params);
  }

  /** The open wrote nothing. */
  predicate OpensCleanly(index: Outcome<(VectorParams, u64)>) {
    index.commits == []
  }

  lemma CleanIsSame(db: Db, index: Outcome<(VectorParams, u64)>)
    ensures OpensCleanly(index) ==> FinalOf(db, index) == db
  {
  }

  lemma MetaNone(params: VectorParams)
    ensures var done: Outcome<bool> := Outcome([], Success(true)); MetaIs(done, params)
  {
  }

  lemma SameDims(db: Db, d: Db, dim: nat)
    requires LivePart(d) == LivePart(db)
    ensures AllDim(d, dim) <==> AllDim(db, dim)
  {
    hide LivePart;
  }
}
