/** The temporal-expiry query (`idx::memory::persistent::scan_expiring`): a range scan of the engine over the keys of
    one agent. */
module ExpiryScans {
  import opened Bytes
  import opened Results
  import opened Tables
  import opened Layers
  import opened Engines
  import K = Keys
  import Reads
  import SstScan

  /** One memory's id and the time it is valid until. */
  type Expiry = (Bytes, K.i64)

  function Bounds(agent: Bytes, at: K.i64): (Bytes, Bytes)
    requires K.Fits(agent)
  {
    (K.ExpiryAgentPrefix(agent).value, K.ExpiryUpperBound(agent, at).value)
  }

  function InBounds(agent: Bytes, at: K.i64): Bytes -> bool
    requires K.Fits(agent)
  {
    SstScan.InRangeOf(Bounds(agent, at).0, Bounds(agent, at).1)
  }

  /** Too short to hold a time. */
  predicate Malformed(key: Bytes, agent: Bytes) {
    |key| < |K.Scope(K.EXPIRY_PREFIX, agent)| + 8
  }

  predicate Earlier(a: Expiry, b: Expiry) {
    a.1 < b.1 || (a.1 == b.1 && Lt(a.0, b.0))
  }

  /** Exactly the agent's entries below the saturated successor of `at`, by time and then id, each once. */
  ghost predicate Lists(found: seq<Expiry>, db: Db, agent: Bytes, at: K.i64) {
    && (forall e: Expiry :: e in found <==> K.Entry(agent, e.1, e.0) in db && e.1 < K.SaturatingSucc(at))
    && (forall i, j :: 0 <= i < j < |found| ==> Earlier(found[i], found[j]))
  }

  lemma FlipTwice(u: nat)
    requires u < U64_LIMIT
    ensures K.FlipSign(u) < U64_LIMIT && K.FlipSign(K.FlipSign(u)) == u && K.AsU64(K.AsI64(u)) == u
  {
  }

  /** Every eight bytes are some time's. */
  lemma SortableCanonical(bytes: Bytes)
    requires |bytes| == 8
    ensures K.Sortable(K.FromSortable(bytes)) == bytes
  {
    hide Be, FromBe, K.FlipSign, K.AsU64, K.AsI64;
    SpanLiterals();
    FromBeCanonical(bytes);
    var u := FromBe(bytes);
    FlipTwice(u);
    FlipTwice(K.FlipSign(u));
  }

  /** A key in the agent's range that is not too short is an entry of the agent, and decodes to it. */
  lemma InRangeIsEntry(key: Bytes, agent: Bytes, at: K.i64)
    requires K.Fits(agent) && InBounds(agent, at)(key) && !Malformed(key, agent)
    ensures var decoded := K.ExpiryDecode(|K.Scope(K.EXPIRY_PREFIX, agent)|, key);
      && decoded.Some? && key == K.Entry(agent, decoded.value.0, decoded.value.1)
      && decoded.value.0 < K.SaturatingSucc(at)
  {
    hide K.Field, K.Sortable, K.FromSortable, K.Ascii;
    var scope := K.Scope(K.EXPIRY_PREFIX, agent);
    K.BetweenPrefixAndExtension(key, scope, K.Sortable(K.SaturatingSucc(at)));
    assert key == scope + key[|scope|..|scope| + 8] + key[|scope| + 8..];
    SortableCanonical(key[|scope|..|scope| + 8]);
    assert key[..|K.EXPIRY_PREFIX|] == scope[..|K.EXPIRY_PREFIX|];
    var (v, id) := K.ExpiryDecode(|scope|, key).value;
    K.ExpiryInRange(agent, at, agent, v, id);
  }

  lemma EntryInRange(agent: Bytes, at: K.i64, e: Expiry)
    requires K.Fits(agent)
    ensures InBounds(agent, at)(K.Entry(agent, e.1, e.0)) <==> e.1 < K.SaturatingSucc(at)
    ensures K.ExpiryDecode(|K.Scope(K.EXPIRY_PREFIX, agent)|, K.Entry(agent, e.1, e.0)) == Some((e.1, e.0))
    ensures !Malformed(K.Entry(agent, e.1, e.0), agent)
  {
    hide K.Field, K.Sortable, K.FromSortable, K.Ascii, K.Scope;
    K.ExpiryInRange(agent, at, agent, e.1, e.0);
    K.ExpiryRoundTrip(agent, e.1, e.0);
  }

  function DecodedOne(key: Bytes, agent: Bytes): Option<Expiry> {
    var decoded := K.ExpiryDecode(|K.Scope(K.EXPIRY_PREFIX, agent)|, key);
    if decoded.Some? then Some((decoded.value.1, decoded.value.0)) else None
  }

  /** Each key decoded in turn; a malformed one is an error, never skipped. */
  function Decoded(entries: seq<Entry>, agent: Bytes): Result<seq<Expiry>> {
    if entries == [] then Success([])
    else
      var n := |entries| - 1;
      var before :- Decoded(entries[..n], agent);
      var last := DecodedOne(entries[n].key, agent);
      if last.Some? then Success(before + [last.value]) else Failure(CorruptMemoryRecord)
  }

  lemma {:induction false} DecodedEach(entries: seq<Entry>, agent: Bytes)
    ensures Decoded(entries, agent).Success? <==> forall i :: 0 <= i < |entries| ==> DecodedOne(entries[i].key, agent).Some?
    ensures Decoded(entries, agent).Failure? ==> Decoded(entries, agent) == Failure(CorruptMemoryRecord)
    ensures Decoded(entries, agent).Success? ==>
              var found := Decoded(entries, agent).value;
              |found| == |entries| && forall i :: 0 <= i < |entries| ==> DecodedOne(entries[i].key, agent) == Some(found[i])
  {
    hide DecodedOne;
    if entries != [] {
      var n := |entries| - 1;
      DecodedEach(entries[..n], agent);
      assert forall i :: 0 <= i < n ==> entries[..n][i] == entries[i];
    }
  }

  lemma ListedKey(entries: seq<Entry>, db: Db, keep: Bytes -> bool, key: Bytes)
    requires Reads.Lists(entries, db, keep)
    ensures key in db && keep(key) <==> exists i :: 0 <= i < |entries| && entries[i].key == key
  {
    hide AsTable, StrictlySorted;
    KeysListed(entries, key);
    assert Lookup(AsTable(entries), key).Some? <==> key in AsTable(entries);
  }

  lemma DecodesInRange(key: Bytes, agent: Bytes, at: K.i64)
    requires K.Fits(agent) && InBounds(agent, at)(key)
    ensures DecodedOne(key, agent).Some? <==> !Malformed(key, agent)
    ensures DecodedOne(key, agent).Some? ==>
              var e := DecodedOne(key, agent).value; key == K.Entry(agent, e.1, e.0) && e.1 < K.SaturatingSucc(at)
  {
    hide K.Field, K.Sortable, K.FromSortable, K.Ascii, K.Entry, K.Scope;
    if !Malformed(key, agent) {
      InRangeIsEntry(key, agent, at);
    }
  }

  /** What a range scan of any store over the agent's bounds decodes to: an error if and only if a key there is too
      short, and otherwise exactly the agent's expired entries in order. */
  lemma DecodedLists(entries: seq<Entry>, db: Db, agent: Bytes, at: K.i64)
    requires K.Fits(agent) && Reads.Lists(entries, db, InBounds(agent, at))
    ensures Decoded(entries, agent).Success? <==> forall key :: key in db && InBounds(agent, at)(key) ==> !Malformed(key, agent)
    ensures Decoded(entries, agent).Failure? ==> Decoded(entries, agent) == Failure(CorruptMemoryRecord)
    ensures Decoded(entries, agent).Success? ==> Lists(Decoded(entries, agent).value, db, agent, at)
  {
    hide K.Entry, K.Scope, DecodedOne, Malformed, InBounds, Reads.Lists, Decoded, K.SaturatingSucc;
    var keep := InBounds(agent, at);
    DecodedEach(entries, agent);
    forall i | 0 <= i < |entries|
      ensures entries[i].key in db && keep(entries[i].key)
      ensures DecodedOne(entries[i].key, agent).Some? <==> !Malformed(entries[i].key, agent)
    {
      ListedKey(entries, db, keep, entries[i].key);
      DecodesInRange(entries[i].key, agent, at);
    }
    forall key | key in db && keep(key)
      ensures exists i :: 0 <= i < |entries| && entries[i].key == key
    {
      ListedKey(entries, db, keep, key);
    }
    if Decoded(entries, agent).Success? {
      FoundExactly(entries, db, agent, at);
      FoundInOrder(entries, db, agent, at);
    }
  }

  lemma FoundExactly(entries: seq<Entry>, db: Db, agent: Bytes, at: K.i64)
    requires K.Fits(agent) && Reads.Lists(entries, db, InBounds(agent, at)) && Decoded(entries, agent).Success?
    ensures forall e: Expiry ::
              e in Decoded(entries, agent).value <==> K.Entry(agent, e.1, e.0) in db && e.1 < K.SaturatingSucc(at)
  {
    hide K.Entry, K.Scope, Malformed, InBounds, Reads.Lists, Decoded, K.SaturatingSucc, K.ExpiryDecode;
    var keep, found := InBounds(agent, at), Decoded(entries, agent).value;
    DecodedEach(entries, agent);
    forall e: Expiry
      ensures e in found <==> K.Entry(agent, e.1, e.0) in db && e.1 < K.SaturatingSucc(at)
    {
      var key := K.Entry(agent, e.1, e.0);
      EntryInRange(agent, at, e);
      ListedKey(entries, db, keep, key);
      if e in found {
        var i :| 0 <= i < |found| && found[i] == e;
        ListedKey(entries, db, keep, entries[i].key);
        DecodesInRange(entries[i].key, agent, at);
      }
      if key in db && keep(key) {
        var i :| 0 <= i < |entries| && entries[i].key == key;
        assert found[i] == e;
      }
    }
  }

  lemma FoundInOrder(entries: seq<Entry>, db: Db, agent: Bytes, at: K.i64)
    requires K.Fits(agent) && Reads.Lists(entries, db, InBounds(agent, at)) && Decoded(entries, agent).Success?
    ensures var found := Decoded(entries, agent).value;
      forall i, j :: 0 <= i < j < |found| ==> Earlier(found[i], found[j])
  {
    hide K.Entry, K.Scope, Malformed, InBounds, Decoded, DecodedOne, K.SaturatingSucc, AsTable, Lt;
    var keep, found := InBounds(agent, at), Decoded(entries, agent).value;
    DecodedEach(entries, agent);
    forall i, j | 0 <= i < j < |found|
      ensures Earlier(found[i], found[j])
    {
      ListedKey(entries, db, keep, entries[i].key);
      ListedKey(entries, db, keep, entries[j].key);
      DecodesInRange(entries[i].key, agent, at);
      DecodesInRange(entries[j].key, agent, at);
      assert Lt(entries[i].key, entries[j].key);
      K.ExpiryOrder(agent, found[i].1, found[i].0, found[j].1, found[j].0);
    }
  }

  /** Every memory of `agent` that expires at or before `at`, but for the largest time there is; the store must hold
      no key in the agent's range that is too short. */
  method ScanExpiring(engine: Engine, agent: Bytes, at: K.i64) returns (res: Result<seq<Expiry>>)
    requires engine.Valid()
    ensures var db := engine.Shown();
      if !K.Fits(agent) then res == Failure(KeyTooLong(|agent|))
      else if exists key :: key in db && InBounds(agent, at)(key) && Malformed(key, agent)
      then res == Failure(CorruptMemoryRecord)
      else res.Success? && Lists(res.value, db, agent, at)
  {
    hide Reads.Lists, Decoded, Lists, Malformed, DecodedOne, K.Scope, K.ExpiryDecode, K.Sortable;
    if |agent| >= U32_LIMIT {
      return Failure(KeyTooLong(|agent|));
    }
    var (start, end) := Bounds(agent, at);
    var entries := engine.ScanRange(start, end);
    DecodedLists(entries, engine.Shown(), agent, at);
    var found: seq<Expiry> := [];
    NothingDecoded(agent);
    for i := 0 to |entries|
      invariant Decoded(entries[..i], agent) == Success(found)
    {
      DecodedNext(entries, i, agent);
      var one := DecodedOne(entries[i].key, agent);
      if one.None? {
        DecodedStops(entries, i + 1, agent);
        return Failure(CorruptMemoryRecord);
      }
      found := found + [one.value];
    }
    assert entries[..|entries|] == entries;
    return Success(found);
  }

  lemma NothingDecoded(agent: Bytes)
    ensures Decoded([], agent) == Success([])
  {
  }

  lemma DecodedNext(entries: seq<Entry>, i: nat, agent: Bytes)
    requires i < |entries| && Decoded(entries[..i], agent).Success?
    ensures var one := DecodedOne(entries[i].key, agent);
      Decoded(entries[..i + 1], agent)
      == if one.Some? then Success(Decoded(entries[..i], agent).value + [one.value]) else Failure(CorruptMemoryRecord)
  {
    hide DecodedOne;
    assert entries[..i + 1][..i] == entries[..i];
  }

  lemma DecodedStops(entries: seq<Entry>, i: nat, agent: Bytes)
    requires i <= |entries| && Decoded(entries[..i], agent).Failure?
    ensures Decoded(entries, agent) == Failure(CorruptMemoryRecord)
  {
    hide DecodedOne;
    DecodedEach(entries, agent);
    DecodedEach(entries[..i], agent);
    assert forall k :: 0 <= k < i ==> entries[..i][k] == entries[k];
  }
}
