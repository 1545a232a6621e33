/** The byte-budgeted LRU cache of decoded blocks (`store::block_cache`), proved against a list of
    blocks in order of recency. The lock around every call is not modelled: each call is one step. */
module BlockCaches {
  import opened Bytes
  import opened Results
  import opened Tables
  import S = SstFormat

  /** A block of an SST file. */
  datatype BlockKey = BlockKey(sst: nat, no: nat)

  type Block = seq<Tables.Entry>

  function BlockBytes(block: Block): nat {
    if block == [] then 0
    else |block[0].key| + (if block[0].value.Some? then |block[0].value.value| else 0) + BlockBytes(block[1..])
  }

  datatype Cached = Cached(key: BlockKey, block: Block)

  // ── the reference: blocks, least recently used first ───────────────────

  type Recency = seq<Cached>

  function Total(list: Recency): nat {
    if list == [] then 0 else BlockBytes(list[0].block) + Total(list[1..])
  }

  function Holding(list: Recency, key: BlockKey): Option<Block> {
    if list == [] then None
    else if list[0].key == key then Some(list[0].block)
    else Holding(list[1..], key)
  }

  function Without(list: Recency, key: BlockKey): (r: Recency)
    ensures |r| <= |list|
  {
    if list == [] then []
    else if list[0].key == key then Without(list[1..], key)
    else [list[0]] + Without(list[1..], key)
  }

  /** A hit makes the block the most recent one. */
  function Touched(list: Recency, key: BlockKey): Recency {
    var block := Holding(list, key);
    if block.None? then list else Without(list, key) + [Cached(key, block.value)]
  }

  /** Drops least recently used blocks while `bytes` more do not fit. */
  function Evicted(list: Recency, bytes: nat, capacity: nat): Recency {
    if list == [] || Total(list) + bytes <= capacity then list else Evicted(list[1..], bytes, capacity)
  }

  /** A block already resident is left where it is. */
  function Inserted(list: Recency, key: BlockKey, block: Block, capacity: nat): Recency {
    if Holding(list, key).Some? then list
    else Evicted(list, BlockBytes(block), capacity) + [Cached(key, block)]
  }

  function Purged(list: Recency, sst: nat): Recency {
    if list == [] then []
    else if list[0].key.sst == sst then Purged(list[1..], sst)
    else [list[0]] + Purged(list[1..], sst)
  }

  /** No block is listed twice. */
  ghost predicate Distinct(list: Recency) {
    forall i, j :: 0 <= i < j < |list| ==> list[i].key != list[j].key
  }

  // ── what the reference promises ────────────────────────────────────────

  lemma {:induction false} HoldingIs(list: Recency, key: BlockKey)
    ensures Holding(list, key).Some? <==> exists i :: 0 <= i < |list| && list[i].key == key
    ensures forall i :: 0 <= i < |list| && list[i].key == key && Distinct(list) ==>
              Holding(list, key) == Some(list[i].block)
  {
    if list != [] {
      HoldingIs(list[1..], key);
      assert forall i :: 0 < i < |list| ==> list[i] == list[1..][i - 1];
      if j :| 0 <= j < |list[1..]| && list[1..][j].key == key {
        assert list[j + 1].key == key;
      }
    }
  }

  // ── what the budget counts ─────────────────────────────────────────────

  /** The key bytes and value bytes of a block, one after another. */
  function Carried(block: Block): Bytes {
    if block == [] then [] else block[0].key + S.SlotBytes(block[0].value) + Carried(block[1..])
  }

  /** Those of every resident block. */
  function Payload(list: Recency): Bytes {
    if list == [] then [] else Carried(list[0].block) + Payload(list[1..])
  }

  /** A block counts as its keys and values, which is what it encodes to without the framing of block and entries. */
  lemma {:induction false} BlockBytesIs(block: Block)
    ensures BlockBytes(block) == |Carried(block)|
    ensures |S.BlockBytes(block)| == 14 + 9 * |block| + BlockBytes(block)
  {
    if block != [] {
      BlockBytesIs(block[1..]);
    }
  }

  lemma {:induction false} TotalIs(list: Recency)
    ensures Total(list) == |Payload(list)|
  {
    hide BlockBytes;
    if list != [] {
      BlockBytesIs(list[0].block);
      TotalIs(list[1..]);
    }
  }

  /** Eviction drops the shortest run of least recent blocks that makes room for `bytes` more bytes of keys and values. */
  lemma EvictsShortestRun(list: Recency, bytes: nat, capacity: nat) returns (k: nat)
    ensures k <= |list| && Evicted(list, bytes, capacity) == list[k..]
    ensures k < |list| ==> |Payload(list[k..])| + bytes <= capacity
    ensures forall j :: 0 <= j < k ==> |Payload(list[j..])| + bytes > capacity
  {
    hide Payload, Total;
    k := ShortestRun(list, bytes, capacity);
    forall j | 0 <= j <= |list|
      ensures Total(list[j..]) == |Payload(list[j..])|
    {
      TotalIs(list[j..]);
    }
  }

  lemma {:induction false} ShortestRun(list: Recency, bytes: nat, capacity: nat) returns (k: nat)
    ensures k <= |list| && Evicted(list, bytes, capacity) == list[k..]
    ensures k < |list| ==> Total(list[k..]) + bytes <= capacity
    ensures forall j :: 0 <= j < k ==> Total(list[j..]) + bytes > capacity
  {
    k := 0;
    if list != [] && Total(list) + bytes > capacity {
      var n := ShortestRun(list[1..], bytes, capacity);
      k := n + 1;
      assert list[1..][n..] == list[k..];
      forall j | 0 <= j < k
        ensures Total(list[j..]) + bytes > capacity
      {
        if j > 0 {
          assert list[1..][j - 1..] == list[j..];
        } else {
          assert list[0..] == list;
        }
      }
    }
  }

  /** After an insert of a block that is not resident, no more bytes of keys and values are resident than the budget
      allows, or the new block is the only one. */
  lemma InsertFits(list: Recency, key: BlockKey, block: Block, capacity: nat)
    requires Holding(list, key).None?
    ensures var after := Inserted(list, key, block, capacity);
      |Payload(after)| <= capacity || after == [Cached(key, block)]
  {
    hide Payload;
    var k := ShortestRun(list, BlockBytes(block), capacity);
    TotalConcat(list[k..], [Cached(key, block)]);
    TotalIs(Inserted(list, key, block, capacity));
    assert Total([Cached(key, block)]) == BlockBytes(block) + Total([]);
  }

  lemma {:induction false} TotalConcat(a: Recency, b: Recency)
    ensures Total(a + b) == Total(a) + Total(b)
  {
    if a == [] {
      assert a + b == b;
    } else {
      assert (a + b)[1..] == a[1..] + b;
      TotalConcat(a[1..], b);
    }
  }

  lemma DistinctCons(list: Recency)
    requires list != [] && Distinct(list)
    ensures Distinct(list[1..]) && forall x :: x in list[1..] ==> x.key != list[0].key
  {
    forall x | x in list[1..]
      ensures x.key != list[0].key
    {
      var i :| 0 <= i < |list[1..]| && list[1..][i] == x;
      assert list[i + 1] == x;
    }
  }

  lemma {:induction false} PurgedIs(list: Recency, sst: nat)
    ensures forall x :: x in Purged(list, sst) <==> x in list && x.key.sst != sst
    ensures Distinct(list) ==> Distinct(Purged(list, sst))
  {
    if list != [] {
      PurgedIs(list[1..], sst);
      var rest := Purged(list[1..], sst);
      if Distinct(list) {
        DistinctCons(list);
        if list[0].key.sst != sst {
          assert forall i :: 0 <= i < |rest| ==> rest[i] in list[1..];
        }
      }
    }
  }

  // ── the cache ──────────────────────────────────────────────────────────

  datatype Resident = Resident(block: Block, bytes: nat, lastUsed: nat)

  predicate Matches(x: Cached, entries: map<BlockKey, Resident>) {
    x.key in entries && entries[x.key].block == x.block && entries[x.key].bytes == BlockBytes(x.block)
  }

  /** Every listed block is resident, and the ticks ascend along the list, above `low` and up to `high`. */
  predicate Ascends(list: Recency, entries: map<BlockKey, Resident>, low: nat, high: nat) {
    list == []
    || (Matches(list[0], entries) && low < entries[list[0].key].lastUsed <= high
        && Ascends(list[1..], entries, entries[list[0].key].lastUsed, high))
  }

  /** `list` is the resident blocks in the order of their ticks. */
  ghost predicate Tracks(list: Recency, entries: map<BlockKey, Resident>, tick: nat) {
    && Ascends(list, entries, 0, tick)
    && forall key :: key in entries ==> Holding(list, key).Some?
  }

  lemma {:induction false} AscendsHolding(list: Recency, entries: map<BlockKey, Resident>, low: nat, high: nat,
                                          key: BlockKey)
    requires Ascends(list, entries, low, high) && Holding(list, key).Some?
    ensures Matches(Cached(key, Holding(list, key).value), entries) && low < entries[key].lastUsed <= high
  {
    hide BlockBytes;
    if list[0].key != key {
      AscendsHolding(list[1..], entries, entries[list[0].key].lastUsed, high, key);
    }
  }

  /** A key listed once is not listed again. */
  lemma HeadIsUnique(list: Recency, entries: map<BlockKey, Resident>, low: nat, high: nat)
    requires list != [] && Ascends(list, entries, low, high)
    ensures Holding(list[1..], list[0].key).None?
  {
    hide BlockBytes;
    if Holding(list[1..], list[0].key).Some? {
      AscendsHolding(list[1..], entries, entries[list[0].key].lastUsed, high, list[0].key);
    }
  }

  lemma {:induction false} AscendsDistinct(list: Recency, entries: map<BlockKey, Resident>, low: nat, high: nat)
    requires Ascends(list, entries, low, high)
    ensures Distinct(list)
  {
    hide BlockBytes;
    if list != [] {
      HeadIsUnique(list, entries, low, high);
      AscendsDistinct(list[1..], entries, entries[list[0].key].lastUsed, high);
      HoldingIs(list[1..], list[0].key);
      assert forall i :: 0 < i < |list| ==> list[i] == list[1..][i - 1];
    }
  }

  /** Only the resident blocks that are listed matter, and the bounds may widen. */
  lemma {:induction false} AscendsFrame(list: Recency, entries: map<BlockKey, Resident>, low: nat, high: nat,
                                        entries': map<BlockKey, Resident>, low': nat, high': nat)
    requires Ascends(list, entries, low, high) && low' <= low && high <= high'
    requires forall key :: Holding(list, key).Some? && key in entries ==> key in entries' && entries'[key] == entries[key]
    ensures Ascends(list, entries', low', high')
  {
    hide BlockBytes;
    if list != [] {
      var at := entries[list[0].key].lastUsed;
      assert Holding(list, list[0].key).Some?;
      assert forall key :: Holding(list[1..], key).Some? ==> Holding(list, key).Some?;
      AscendsFrame(list[1..], entries, at, high, entries', at, high');
    }
  }

  lemma {:induction false} AscendsWithout(list: Recency, entries: map<BlockKey, Resident>, low: nat, high: nat,
                                          key: BlockKey)
    requires Ascends(list, entries, low, high)
    ensures Ascends(Without(list, key), entries, low, high)
    ensures forall k :: Holding(Without(list, key), k) == if k == key then None else Holding(list, k)
    ensures Holding(list, key).Some? ==>
              Total(list) == Total(Without(list, key)) + BlockBytes(Holding(list, key).value)
    ensures Holding(list, key).None? ==> Without(list, key) == list
  {
    hide BlockBytes;
    if list != [] {
      var at := entries[list[0].key].lastUsed;
      HeadIsUnique(list, entries, low, high);
      AscendsWithout(list[1..], entries, at, high, key);
      var rest := Without(list[1..], key);
      if list[0].key == key {
        AscendsFrame(rest, entries, at, high, entries, low, high);
      } else {
        assert Without(list, key)[1..] == rest;
      }
    }
  }

  lemma {:induction false} AscendsSnoc(list: Recency, entries: map<BlockKey, Resident>, low: nat, high: nat, x: Cached)
    requires low < high && Ascends(list, entries, low, high - 1)
    requires Matches(x, entries) && entries[x.key].lastUsed == high
    ensures Ascends(list + [x], entries, low, high)
    ensures forall k :: Holding(list + [x], k)
                     == if Holding(list, k).Some? then Holding(list, k) else if k == x.key then Some(x.block) else None
  {
    hide BlockBytes;
    if list == [] {
      assert list + [x] == [x] && [x][1..] == [];
    } else {
      assert (list + [x])[1..] == list[1..] + [x];
      AscendsSnoc(list[1..], entries, entries[list[0].key].lastUsed, high, x);
    }
  }

  lemma TracksHolding(list: Recency, entries: map<BlockKey, Resident>, tick: nat, key: BlockKey)
    requires Tracks(list, entries, tick)
    ensures Holding(list, key) == if key in entries then Some(entries[key].block) else None
    ensures key in entries ==> entries[key].bytes == BlockBytes(entries[key].block) && 0 < entries[key].lastUsed <= tick
  {
    hide BlockBytes;
    if Holding(list, key).Some? {
      AscendsHolding(list, entries, 0, tick, key);
    }
  }

  class BlockCache {
    const capacityBytes: nat
    var entries: map<BlockKey, Resident>
    var residentBytes: nat
    var tick: nat
    var hits: nat
    var misses: nat
    /** The resident blocks, least recently used first. */
    ghost var order: Recency

    ghost predicate Valid()
      reads this
    {
      Tracks(order, entries, tick) && residentBytes == Total(order)
    }

    constructor (capacityBytes: nat)
      ensures Valid() && this.capacityBytes == capacityBytes && order == [] && hits == 0 && misses == 0
    {
      this.capacityBytes := capacityBytes;
      entries, residentBytes, tick, hits, misses := map[], 0, 0, 0, 0;
      order := [];
    }

    method Get(sst: nat, no: nat) returns (hit: Option<Block>)
      requires Valid()
      modifies this
      ensures Valid()
      ensures hit == Holding(old(order), BlockKey(sst, no)) && order == Touched(old(order), BlockKey(sst, no))
      ensures hits == old(hits) + (if hit.Some? then 1 else 0)
      ensures misses == old(misses) + (if hit.Some? then 0 else 1)
    {
      hide BlockBytes, Total, Ascends, Without;
      var key := BlockKey(sst, no);
      TracksHolding(order, entries, tick, key);
      tick := tick + 1;
      if key in entries {
        TouchedTracks(order, entries, tick, key);
        order := Touched(order, key);
        entries := entries[key := entries[key].(lastUsed := tick)];
        hits := hits + 1;
        return Some(entries[key].block);
      } else {
        AscendsFrame(order, entries, 0, tick - 1, entries, 0, tick);
        misses := misses + 1;
        return None;
      }
    }

    method Insert(sst: nat, no: nat, block: Block)
      requires Valid()
      modifies this
      ensures Valid()
      ensures order == Inserted(old(order), BlockKey(sst, no), block, capacityBytes)
      ensures hits == old(hits) && misses == old(misses)
    {
      hide BlockBytes, Total, Ascends, Without;
      var key, bytes := BlockKey(sst, no), BlockBytes(block);
      TracksHolding(order, entries, tick, key);
      if key in entries {
        return;
      }
      tick := tick + 1;
      while residentBytes + bytes > capacityBytes && entries != map[]
        invariant tick > 0 && Tracks(order, entries, tick - 1) && residentBytes == Total(order) && key !in entries
        invariant Evicted(order, bytes, capacityBytes) == Evicted(old(order), bytes, capacityBytes)
        invariant tick == old(tick) + 1 && hits == old(hits) && misses == old(misses)
        decreases |order|
      {
        HeadIsLeast(order, entries, tick - 1);
        var victim :| victim in entries && forall k :: k in entries ==> entries[victim].lastUsed <= entries[k].lastUsed;
        LeastRecent(order, entries, tick - 1, victim);
        RemoveTracks(order, entries, tick - 1, victim);
        residentBytes := residentBytes - entries[victim].bytes;
        entries := entries - {victim};
        order := order[1..];
      }
      if entries == map[] {
        NothingListed(order, entries, tick - 1);
      }
      AppendTracks(order, entries, tick, key, block);
      residentBytes := residentBytes + bytes;
      entries := entries[key := Resident(block, bytes, tick)];
      order := order + [Cached(key, block)];
    }

    /** Drops every block of `sst`. */
    method InvalidateSst(sst: nat)
      requires Valid()
      modifies this
      ensures Valid() && order == Purged(old(order), sst)
      ensures hits == old(hits) && misses == old(misses)
    {
      hide BlockBytes, Total, Ascends, Without, Purged;
      var todo := entries.Keys;
      while todo != {}
        invariant todo <= entries.Keys && Tracks(order, entries, tick) && residentBytes == Total(order)
        invariant Purged(order, sst) == Purged(old(order), sst)
        invariant forall key :: key in entries && key !in todo ==> key.sst != sst
        invariant hits == old(hits) && misses == old(misses) && tick == old(tick)
        decreases |todo|
      {
        var key :| key in todo;
        if key.sst == sst {
          RemoveTracks(order, entries, tick, key);
          PurgedWithout(order, key);
          residentBytes := residentBytes - entries[key].bytes;
          entries := entries - {key};
          order := Without(order, key);
        }
        todo := todo - {key};
      }
      forall key | Holding(order, key).Some?
        ensures key.sst != sst
      {
        TracksHolding(order, entries, tick, key);
      }
      NothingPurged(order, sst);
    }
  }

  lemma NothingListed(order: Recency, entries: map<BlockKey, Resident>, tick: nat)
    requires Tracks(order, entries, tick) && entries == map[]
    ensures order == []
  {
    hide BlockBytes;
  }

  lemma HeadIsLeast(order: Recency, entries: map<BlockKey, Resident>, tick: nat)
    requires Tracks(order, entries, tick) && entries != map[]
    ensures order != [] && order[0].key in entries
    ensures forall k :: k in entries ==> entries[order[0].key].lastUsed <= entries[k].lastUsed
  {
    hide BlockBytes;
    var key :| key in entries;
    assert Holding(order, key).Some?;
    var first := order[0].key;
    forall k | k in entries
      ensures entries[first].lastUsed <= entries[k].lastUsed
    {
      if k != first {
        assert Holding(order, k).Some?;
        AscendsHolding(order[1..], entries, entries[first].lastUsed, tick, k);
      }
    }
  }

  lemma TotalOne(x: Cached)
    ensures Total([x]) == BlockBytes(x.block)
  {
    assert Total([x][1..]) == 0;
  }

  lemma RemoveTracks(order: Recency, entries: map<BlockKey, Resident>, tick: nat, key: BlockKey)
    requires Tracks(order, entries, tick) && key in entries
    ensures Tracks(Without(order, key), entries - {key}, tick)
    ensures Total(order) == Total(Without(order, key)) + entries[key].bytes
  {
    hide BlockBytes, Ascends, Total;
    var r := Without(order, key);
    AscendsWithout(order, entries, 0, tick, key);
    TracksHolding(order, entries, tick, key);
    AscendsFrame(r, entries, 0, tick, entries - {key}, 0, tick);
  }

  /** The scan for the least tick finds the head of the list. */
  lemma LeastRecent(order: Recency, entries: map<BlockKey, Resident>, tick: nat, victim: BlockKey)
    requires Tracks(order, entries, tick) && victim in entries
    requires forall k :: k in entries ==> entries[victim].lastUsed <= entries[k].lastUsed
    ensures order != [] && order[0].key == victim && Without(order, victim) == order[1..]
  {
    hide BlockBytes;
    TracksHolding(order, entries, tick, victim);
    var first := order[0];
    if first.key != victim {
      AscendsHolding(order[1..], entries, entries[first.key].lastUsed, tick, victim);
    }
    HeadIsUnique(order, entries, 0, tick);
    AscendsWithout(order[1..], entries, entries[first.key].lastUsed, tick, victim);
  }

  lemma AppendTracks(order: Recency, entries: map<BlockKey, Resident>, tick: nat, key: BlockKey, block: Block)
    requires tick > 0 && Tracks(order, entries, tick - 1) && key !in entries
    ensures Tracks(order + [Cached(key, block)], entries[key := Resident(block, BlockBytes(block), tick)], tick)
    ensures Total(order + [Cached(key, block)]) == Total(order) + BlockBytes(block)
  {
    hide BlockBytes, Ascends, Total;
    var x, entries' := Cached(key, block), entries[key := Resident(block, BlockBytes(block), tick)];
    TracksHolding(order, entries, tick - 1, key);
    AscendsFrame(order, entries, 0, tick - 1, entries', 0, tick - 1);
    AscendsSnoc(order, entries', 0, tick, x);
    TotalConcat(order, [x]);
    TotalOne(x);
  }

  lemma TouchedTracks(order: Recency, entries: map<BlockKey, Resident>, tick: nat, key: BlockKey)
    requires tick > 0 && Tracks(order, entries, tick - 1) && key in entries
    ensures Tracks(Touched(order, key), entries[key := entries[key].(lastUsed := tick)], tick)
    ensures Total(Touched(order, key)) == Total(order)
  {
    hide BlockBytes, Ascends, Total;
    var block := entries[key].block;
    TracksHolding(order, entries, tick - 1, key);
    RemoveTracks(order, entries, tick - 1, key);
    AppendTracks(Without(order, key), entries - {key}, tick, key, block);
    assert (entries - {key})[key := Resident(block, BlockBytes(block), tick)]
        == entries[key := entries[key].(lastUsed := tick)];
  }

  lemma {:induction false} NothingPurged(list: Recency, sst: nat)
    requires forall key: BlockKey :: Holding(list, key).Some? ==> key.sst != sst
    ensures Purged(list, sst) == list
  {
    if list != [] {
      assert Holding(list, list[0].key).Some?;
      assert forall key :: Holding(list[1..], key).Some? ==> Holding(list, key).Some?;
      NothingPurged(list[1..], sst);
    }
  }

  lemma {:induction false} PurgedWithout(list: Recency, key: BlockKey)
    ensures Purged(Without(list, key), key.sst) == Purged(list, key.sst)
  {
    if list != [] {
      PurgedWithout(list[1..], key);
    }
  }
}
