/** Sorted tables of keys: the entries of a memtable or SST, and what a table maps a key to. */
module Tables {
  import opened Bytes
  import opened Results

  /** `None` is a tombstone: an explicit delete recorded at this layer. */
  type Slot = Option<Bytes>

  datatype Entry = Entry(key: Bytes, value: Slot)

  type Table = map<Bytes, Slot>

  ghost predicate StrictlySorted(entries: seq<Entry>) {
    forall i, j :: 0 <= i < j < |entries| ==> Lt(entries[i].key, entries[j].key)
  }

  /** Linear search; `None` when the key is not listed. */
  function Find(entries: seq<Entry>, key: Bytes): Option<Slot> {
    if entries == [] then None
    else if entries[0].key == key then Some(entries[0].value)
    else Find(entries[1..], key)
  }

  function AsTable(entries: seq<Entry>): Table {
    if entries == [] then map[] else AsTable(entries[1..])[entries[0].key := entries[0].value]
  }

  function Lookup(t: Table, key: Bytes): Option<Slot> {
    if key in t then Some(t[key]) else None
  }

  lemma {:induction false} FindIsLookup(entries: seq<Entry>, key: Bytes)
    ensures Find(entries, key) == Lookup(AsTable(entries), key)
  {
    if entries != [] {
      FindIsLookup(entries[1..], key);
    }
  }

  lemma {:induction false} FindAt(entries: seq<Entry>, i: nat)
    requires StrictlySorted(entries) && i < |entries|
    ensures Find(entries, entries[i].key) == Some(entries[i].value)
  {
    if i > 0 {
      LtIrreflexive(entries[i].key);
      FindAt(entries[1..], i - 1);
    }
  }

  lemma {:induction false} FindNowhere(entries: seq<Entry>, key: Bytes)
    requires forall i :: 0 <= i < |entries| ==> entries[i].key != key
    ensures Find(entries, key) == None
  {
    if entries != [] {
      FindNowhere(entries[1..], key);
    }
  }

  lemma {:induction false} FindConcat(a: seq<Entry>, b: seq<Entry>, key: Bytes)
    ensures Find(a + b, key) == if Find(a, key).Some? then Find(a, key) else Find(b, key)
  {
    if a == [] {
      assert a + b == b;
    } else {
      assert (a + b)[1..] == a[1..] + b;
      FindConcat(a[1..], b, key);
    }
  }

  // ── ascending iteration ────────────────────────────────────────────────

  lemma {:induction false} LeastKeyExists(keys: set<Bytes>)
    requires keys != {}
    ensures exists k :: IsLeast(k, keys)
  {
    var k :| k in keys;
    if keys == {k} {
      assert IsLeast(k, keys);
    } else {
      var rest := keys - {k};
      LeastKeyExists(rest);
      var m :| IsLeast(m, rest);
      LtTotal(k, m);
      if Lt(m, k) {
        assert IsLeast(m, keys);
      } else {
        forall x | x in keys
          ensures AtMost(k, x)
        {
          if x != k && x != m {
            assert x in rest && m != k;
            LtTransitive(k, m, x);
          }
        }
        assert IsLeast(k, keys);
      }
    }
  }

  function LeastKey(keys: set<Bytes>): (k: Bytes)
    requires keys != {}
    ensures IsLeast(k, keys)
  {
    LeastKeyExists(keys);
    LeastKeyUnique(keys);
    var k :| IsLeast(k, keys);
    k
  }

  predicate IsLeast(k: Bytes, keys: set<Bytes>) {
    k in keys && forall x :: x in keys ==> AtMost(k, x)
  }

  lemma LeastKeyUnique(keys: set<Bytes>)
    ensures forall a, b :: IsLeast(a, keys) && IsLeast(b, keys) ==> a == b
  {
    forall a, b | IsLeast(a, keys) && IsLeast(b, keys)
      ensures a == b
    {
      if a != b {
        LtAsymmetric(a, b);
      }
    }
  }

  lemma Shrinks<V>(t: map<Bytes, V>, k: Bytes)
    requires k in t
    ensures |t - {k}| == |t| - 1
  {
    assert (t - {k}).Keys == t.Keys - {k};
    assert |(t - {k}).Keys| == |t - {k}| && |t.Keys| == |t|;
  }

  /** The entries of a table in ascending key order. */
  function Ascending(t: Table): (entries: seq<Entry>)
    ensures |entries| == |t|
    ensures forall i :: 0 <= i < |entries| ==> entries[i].key in t
    decreases |t|
  {
    if t == map[] then []
    else
      var k := LeastKey(t.Keys);
      Shrinks(t, k);
      [Entry(k, t[k])] + Ascending(t - {k})
  }

  lemma {:induction false} AscendingSorted(t: Table)
    ensures StrictlySorted(Ascending(t))
    ensures AsTable(Ascending(t)) == t
    decreases |t|
  {
    if t != map[] {
      var k := LeastKey(t.Keys);
      var rest := t - {k};
      Shrinks(t, k);
      AscendingSorted(rest);
      var entries := Ascending(t);
      assert entries[1..] == Ascending(rest);
      forall i, j | 0 <= i < j < |entries|
        ensures Lt(entries[i].key, entries[j].key)
      {
        if i == 0 {
          assert Ascending(rest)[j - 1].key in rest;
          assert AtMost(k, entries[j].key);
        } else {
          assert Lt(entries[1..][i - 1].key, entries[1..][j - 1].key);
        }
      }
    }
  }

  /** The first key of a strictly sorted list is the least, and not repeated. */
  lemma FirstIsLeast(entries: seq<Entry>)
    requires StrictlySorted(entries) && entries != []
    ensures var k := entries[0].key;
      IsLeast(k, AsTable(entries).Keys) && k !in AsTable(entries[1..])
  {
    var k := entries[0].key;
    forall x | x in AsTable(entries).Keys
      ensures AtMost(k, x)
    {
      KeysListed(entries, x);
    }
    KeysListed(entries[1..], k);
    if i :| 0 <= i < |entries[1..]| && entries[1..][i].key == k {
      assert Lt(entries[0].key, entries[i + 1].key);
      LtIrreflexive(k);
    }
  }

  /** A strictly sorted list is the only one with its contents. */
  lemma {:induction false} AscendingUnique(entries: seq<Entry>)
    requires StrictlySorted(entries)
    ensures Ascending(AsTable(entries)) == entries
    decreases |entries|
  {
    if entries == [] {
      assert AsTable(entries) == map[];
    } else {
      var t, rest, k := AsTable(entries), entries[1..], entries[0].key;
      FirstIsLeast(entries);
      LeastKeyUnique(t.Keys);
      assert LeastKey(t.Keys) == k;
      assert t - {k} == AsTable(rest);
      assert forall j :: 0 <= j < |rest| ==> rest[j] == entries[j + 1];
      AscendingUnique(rest);
    }
  }

  lemma {:induction false} KeysListed(entries: seq<Entry>, key: Bytes)
    ensures key in AsTable(entries) <==> exists i :: 0 <= i < |entries| && entries[i].key == key
  {
    if entries != [] {
      KeysListed(entries[1..], key);
      if key in AsTable(entries[1..]) {
        var i :| 0 <= i < |entries[1..]| && entries[1..][i].key == key;
        assert entries[i + 1].key == key;
      }
      if i :| 0 < i < |entries| && entries[i].key == key {
        assert entries[1..][i - 1].key == key;
      }
    }
  }
}

/** The in-memory table of the write path (`store::memtable`). */
module Memtables {
  import opened Bytes
  import opened Results
  import opened Tables

  class Memtable {
    var entries: Table

    constructor ()
      ensures entries == map[]
    {
      entries := map[];
    }

    method Put(key: Bytes, value: Bytes)
      modifies this
      ensures entries == old(entries)[key := Some(value)]
    {
      entries := entries[key := Some(value)];
    }

    method Delete(key: Bytes)
      modifies this
      ensures entries == old(entries)[key := None]
    {
      entries := entries[key := None];
    }

    /** Absent (ask the SSTs), a tombstone (definitively deleted), or a value. */
    function Get(key: Bytes): (r: Option<Slot>)
      reads this
      ensures r.None? <==> key !in entries
      ensures r.Some? ==> r.value == entries[key]
    {
      if key in entries then Some(entries[key]) else None
    }

    method Clear()
      modifies this
      ensures entries == map[]
    {
      entries := map[];
    }

    /** Ascending key order, as an SST is written. */
    function Iter(): (r: seq<Entry>)
      reads this
      ensures StrictlySorted(r) && AsTable(r) == entries
    {
      AscendingSorted(entries);
      Ascending(entries)
    }
  }
}
