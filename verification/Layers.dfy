/** Layered tables: the newest layer that mentions a key decides it, and a tombstone hides it. */
module Layers {
  import opened Bytes
  import opened Results
  import opened Tables
  import F = WalFormat

  /** What a client of the store sees. */
  type Db = map<Bytes, Bytes>

  /** Layers oldest to newest, the newest state per key winning. */
  function Merge(layers: seq<Table>): Table {
    if layers == [] then map[] else Merge(layers[..|layers| - 1]) + layers[|layers| - 1]
  }

  /** Tombstones dropped. */
  function Live(t: Table): Db {
    map key | key in t && t[key].Some? :: t[key].value
  }

  /** The same, as a table again: what a full merge writes. */
  function LiveOnly(t: Table): Table {
    map key | key in t && t[key].Some? :: t[key]
  }

  function ApplyOp(op: F.WalRecord, t: Table): Table {
    t[op.key := if op.op.Delete? then None else Some(F.Payload(op.value))]
  }

  function ApplyOps(ops: seq<F.WalRecord>, t: Table): Table {
    if ops == [] then t else ApplyOp(ops[|ops| - 1], ApplyOps(ops[..|ops| - 1], t))
  }

  function ApplyToDb(op: F.WalRecord, db: Db): Db {
    if op.op.Delete? then db - {op.key} else db[op.key := F.Payload(op.value)]
  }

  function ApplyAllToDb(ops: seq<F.WalRecord>, db: Db): Db {
    if ops == [] then db else ApplyToDb(ops[|ops| - 1], ApplyAllToDb(ops[..|ops| - 1], db))
  }

  lemma {:induction false} ApplyOpsConcat(a: seq<F.WalRecord>, b: seq<F.WalRecord>, t: Table)
    ensures ApplyOps(a + b, t) == ApplyOps(b, ApplyOps(a, t))
  {
    if b == [] {
      assert a + b == a;
    } else {
      assert (a + b)[..|a + b| - 1] == a + b[..|b| - 1];
      ApplyOpsConcat(a, b[..|b| - 1], t);
    }
  }

  lemma {:induction false} ApplyAllConcat(a: seq<F.WalRecord>, b: seq<F.WalRecord>, db: Db)
    ensures ApplyAllToDb(a + b, db) == ApplyAllToDb(b, ApplyAllToDb(a, db))
  {
    if b == [] {
      assert a + b == a;
    } else {
      assert (a + b)[..|a + b| - 1] == a + b[..|b| - 1];
      ApplyAllConcat(a, b[..|b| - 1], db);
    }
  }

  /** Operations on a table are an overlay built from nothing. */
  lemma {:induction false} OpsAreOverlay(ops: seq<F.WalRecord>, t: Table)
    ensures ApplyOps(ops, t) == t + ApplyOps(ops, map[])
  {
    if ops != [] {
      OpsAreOverlay(ops[..|ops| - 1], t);
    } else {
      assert t + map[] == t;
    }
  }

  /** Applying operations to tables is applying them to what clients see. */
  lemma {:induction false} LiveOfOps(ops: seq<F.WalRecord>, t: Table)
    ensures Live(ApplyOps(ops, t)) == ApplyAllToDb(ops, Live(t))
  {
    if ops != [] {
      var op, before := ops[|ops| - 1], ApplyOps(ops[..|ops| - 1], t);
      LiveOfOps(ops[..|ops| - 1], t);
      assert Live(ApplyOp(op, before)) == ApplyToDb(op, Live(before));
    }
  }

  lemma MergeNothing()
    ensures Merge([]) == map[]
  {
  }

  lemma MergeOne(layers: seq<Table>, t: Table)
    ensures Merge(layers + [t]) == Merge(layers) + t
  {
    assert (layers + [t])[..|layers|] == layers;
  }

  lemma {:induction false} MergeConcat(a: seq<Table>, b: seq<Table>)
    ensures Merge(a + b) == Merge(a) + Merge(b)
  {
    if b == [] {
      assert a + b == a;
      assert Merge(a) + map[] == Merge(a);
    } else {
      var init, last := b[..|b| - 1], b[|b| - 1];
      assert a + b == (a + init) + [last];
      MergeOne(a + init, last);
      MergeConcat(a, init);
      assert Merge(a) + Merge(init) + last == Merge(a) + (Merge(init) + last);
    }
  }

  /** A full merge on top of the layers it was made from changes nothing a client sees. */
  lemma LiveOnlyOnTop(t: Table)
    ensures Live(t + LiveOnly(t)) == Live(t) && Live(LiveOnly(t)) == Live(t)
  {
  }

  /** Every key the old layers mention is either in the merged table or hidden by a tombstone. */
  ghost predicate NoResurrection(below: Table, merged: Table) {
    forall key :: key in below && key !in merged ==> below[key].None?
  }

  /** Old layers below a merged table stay invisible exactly when they hold no live key that it lacks. */
  lemma HiddenIff(below: Table, merged: Table)
    ensures Live(below + merged) == Live(merged) <==> NoResurrection(below, merged)
  {
    if !NoResurrection(below, merged) {
      var key :| key in below && key !in merged && below[key].Some?;
      assert key in Live(below + merged) && key !in Live(merged);
    }
  }

  /** Whatever is added on top, hidden layers stay hidden. */
  lemma HiddenUnder(below: Table, merged: Table, more: Table)
    requires NoResurrection(below, merged)
    ensures NoResurrection(below, merged + more)
    ensures Live(below + merged + more) == Live(merged + more)
  {
    HiddenIff(below, merged + more);
    assert below + merged + more == below + (merged + more);
  }
}
