/** Point lookups through the block cache (`BlockSstFile::get`), and what the cache holds over whole runs
    in which SST files are created and deleted. */
module CachedReads {
  import opened Bytes
  import opened Results
  import opened Tables
  import opened BlockCaches
  import opened SstFile
  import SstReader
  import SstScan
  import B = Bloom
  import I = SstIndexFormat

  /** The files of the directory, by number. */
  type Files = map<nat, SstOnDisk>

  /** The block a cache entry stands for. */
  function BlockOf(files: Files, key: BlockKey): Option<Block> {
    if key.sst !in files then None
    else
      var loaded := SstReader.Load(files[key.sst]);
      if loaded.Failure? || key.no >= |loaded.value.index| then None
      else
        var block := SstReader.ReadBlock(files[key.sst], key.no, loaded.value.index[key.no]);
        if block.Success? then Some(block.value) else None
  }

  /** Every resident block is the content of its file. */
  ghost predicate Coherent(list: Recency, files: Files) {
    forall x :: x in list ==> BlockOf(files, x.key) == Some(x.block)
  }

  // ── runs ───────────────────────────────────────────────────────────────

  datatype Event =
    | Lookup(key: BlockKey)
    | Fill(key: BlockKey)               // insert the block just read from disk
    | Create(sst: nat, file: SstOnDisk)     // a file appears under a number not in use
    | Delete(sst: nat)                  // a file is removed and its blocks invalidated

  datatype World = World(files: Files, list: Recency, hits: nat, misses: nat)

  const EMPTY: World := World(map[], [], 0, 0)

  predicate Enabled(w: World, e: Event) {
    match e
    case Lookup(_) => true
    case Fill(key) => BlockOf(w.files, key).Some?
    case Create(sst, _) => sst !in w.files
    case Delete(_) => true
  }

  function Next(w: World, e: Event, capacity: nat): World
    requires Enabled(w, e)
  {
    match e
    case Lookup(key) =>
      var hit := Holding(w.list, key).Some?;
      w.(list := Touched(w.list, key), hits := w.hits + (if hit then 1 else 0),
         misses := w.misses + (if hit then 0 else 1))
    case Fill(key) => w.(list := Inserted(w.list, key, BlockOf(w.files, key).value, capacity))
    case Create(sst, file) => w.(files := w.files[sst := file])
    case Delete(sst) => w.(files := w.files - {sst}, list := Purged(w.list, sst))
  }

  ghost predicate Run(worlds: seq<World>, events: seq<Event>, capacity: nat) {
    && |worlds| == |events| + 1 && worlds[0] == EMPTY
    && forall i :: 0 <= i < |events| ==>
         Enabled(worlds[i], events[i]) && worlds[i + 1] == Next(worlds[i], events[i], capacity)
  }

  function Lookups(events: seq<Event>): nat {
    if events == [] then 0
    else Lookups(events[..|events| - 1]) + if events[|events| - 1].Lookup? then 1 else 0
  }

  lemma {:induction false} HoldingIn(list: Recency, key: BlockKey)
    ensures Holding(list, key).Some? ==> Cached(key, Holding(list, key).value) in list
  {
    if list != [] && list[0].key != key {
      HoldingIn(list[1..], key);
    }
  }

  lemma {:induction false} WithoutIn(list: Recency, key: BlockKey)
    ensures forall x :: x in Without(list, key) ==> x in list
  {
    if list != [] {
      WithoutIn(list[1..], key);
    }
  }

  lemma {:induction false} EvictedIn(list: Recency, bytes: nat, capacity: nat)
    ensures forall x :: x in Evicted(list, bytes, capacity) ==> x in list
  {
    var k := EvictsShortestRun(list, bytes, capacity);
  }

  lemma StepCoherent(w: World, e: Event, capacity: nat)
    requires Enabled(w, e) && Coherent(w.list, w.files)
    ensures var w' := Next(w, e, capacity); Coherent(w'.list, w'.files)
  {
    hide SstReader.Load, SstReader.ReadBlock, Evicted, Without, Purged;
    match e
    case Lookup(key) =>
      HoldingIn(w.list, key);
      WithoutIn(w.list, key);
    case Fill(key) =>
      EvictedIn(w.list, BlockCaches.BlockBytes(BlockOf(w.files, key).value), capacity);
    case Create(sst, file) =>
      forall x | x in w.list
        ensures BlockOf(w.files[sst := file], x.key) == Some(x.block)
      {
        assert BlockOf(w.files, x.key) == Some(x.block);
      }
    case Delete(sst) =>
      PurgedIs(w.list, sst);
  }

  /** Whatever is read, filled, created and deleted, numbers reused or not: every resident block is the
      content of the file now on disk, so every hit is what a disk read would give; nothing of a deleted
      file is resident; and each lookup is counted once. */
  lemma {:induction false} CacheCoherence(worlds: seq<World>, events: seq<Event>, capacity: nat)
    requires Run(worlds, events, capacity)
    ensures var w := worlds[|events|];
      && Coherent(w.list, w.files)
      && (forall key :: Holding(w.list, key).Some? ==> Holding(w.list, key) == BlockOf(w.files, key))
      && w.hits + w.misses == Lookups(events)
  {
    hide BlockOf, Holding, Purged, Inserted, Touched, Enabled;
    var n := |events|;
    if n > 0 {
      CacheCoherence(worlds[..n], events[..n - 1], capacity);
      StepCoherent(worlds[n - 1], events[n - 1], capacity);
    }
    forall key | Holding(worlds[n].list, key).Some?
      ensures Holding(worlds[n].list, key) == BlockOf(worlds[n].files, key)
    {
      HoldingIn(worlds[n].list, key);
    }
  }

  // ── lookups through the cache ──────────────────────────────────────────

  /** Binary search in a decoded block. */
  method SearchBlock(block: Block, key: Bytes) returns (hit: Option<Slot>)
    requires StrictlySorted(block)
    ensures hit == Find(block, key)
  {
    var lo, hi := 0, |block|;
    while lo < hi
      invariant 0 <= lo <= hi <= |block|
      invariant forall i :: 0 <= i < lo ==> Lt(block[i].key, key)
      invariant forall i :: hi <= i < |block| ==> Lt(key, block[i].key)
    {
      var mid := (lo + hi) / 2;
      if block[mid].key == key {
        FindAt(block, mid);
        return Some(block[mid].value);
      }
      LtTotal(block[mid].key, key);
      if Lt(block[mid].key, key) {
        forall i | 0 <= i < mid
          ensures Lt(block[i].key, key)
        {
          LtTransitive(block[i].key, block[mid].key, key);
        }
        lo := mid + 1;
      } else {
        forall i | mid < i < |block|
          ensures Lt(key, block[i].key)
        {
          LtTransitive(key, block[mid].key, block[i].key);
        }
        hi := mid;
      }
    }
    LtIrreflexive(key);
    FindNowhere(block, key);
    return None;
  }

  /** One SST's part of a point lookup: the answer of its table, whatever is resident, with at most one
      block read from disk, none when the block was resident. */
  method GetThrough(cache: BlockCache, ghost files: Files, file: SstOnDisk, sst: SstReader.Sst, hasher: B.Hasher,
                    ghost t: Table, key: Bytes)
    returns (hit: Option<Slot>, blocksRead: nat)
    requires cache.Valid() && Coherent(cache.order, files)
    requires sst.id in files && files[sst.id] == file && SstReader.Load(file) == Success(sst)
    requires SstScan.Genuine(file, hasher, t)
    modifies cache
    ensures cache.Valid() && Coherent(cache.order, files)
    ensures hit == Tables.Lookup(t, key) && blocksRead <= 1
    ensures cache.misses == old(cache.misses) + blocksRead
  {
    hide SstReader.Load, SstReader.ReadBlock, SstScan.Genuine, Evicted, Without, Coherent, B.Contains;
    hide SstReader.PartitionPoint, StrictlySorted, Find;
    SstScan.GenuineGet(file, hasher, t, key);
    if !B.Contains(sst.filter.bits, sst.filter.numBits, hasher, key) {
      return None, 0;
    }
    var idx := SstReader.PartitionPoint(sst.index, key);
    if idx == |sst.index| {
      return None, 0;
    }
    var entry := sst.index[idx];
    if Lt(key, entry.firstKey) {
      return None, 0;
    }
    SstScan.GenuineBlock(file, hasher, t, idx);
    var at := BlockKey(sst.id, idx);
    var cached := cache.Get(sst.id, idx);
    ResidentBlock(old(cache.order), files, at);
    var block;
    if cached.Some? {
      block, blocksRead := cached.value, 0;
    } else {
      block, blocksRead := SstReader.ReadBlock(file, idx, entry).value, 1;
      cache.Insert(sst.id, idx, block);
      InsertCoherent(old(cache.order), files, at, block, cache.capacityBytes);
    }
    hit := SearchBlock(block, key);
  }

  lemma ResidentBlock(list: Recency, files: Files, key: BlockKey)
    requires Coherent(list, files)
    ensures Coherent(Touched(list, key), files)
    ensures Holding(list, key).Some? ==> Holding(list, key) == BlockOf(files, key)
  {
    hide BlockOf, Without;
    HoldingIn(list, key);
    WithoutIn(list, key);
  }

  lemma InsertCoherent(list: Recency, files: Files, key: BlockKey, block: Block, capacity: nat)
    requires Coherent(list, files) && BlockOf(files, key) == Some(block)
    ensures Coherent(Inserted(list, key, block, capacity), files)
  {
    hide BlockOf, Evicted;
    EvictedIn(list, BlockCaches.BlockBytes(block), capacity);
  }
}
