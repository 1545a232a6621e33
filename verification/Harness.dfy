/** The deterministic crash schedules (`harness`): closed forms that let a writer and its driver agree on what
    was done, proved against a sequential replay. Steps stay far below 2^64, so no arithmetic wraps. */
module Harness {
  datatype ChurnOp = Insert(id: nat) | Delete(id: nat) | Consolidate

  const CHURN_DELETE_PERIOD: nat := 7
  const CHURN_CONSOLIDATE_PERIOD: nat := 43

  function ChurnConsolidatesBefore(step: nat): nat {
    step / CHURN_CONSOLIDATE_PERIOD
  }

  lemma DeletesNotNegative(step: nat)
    ensures step / 301 <= step / 7 && step / 7 - step / 301 + step / 43 <= step
  {
  }

  function ChurnDeletesBefore(step: nat): nat {
    DeletesNotNegative(step);
    step / CHURN_DELETE_PERIOD - step / (CHURN_DELETE_PERIOD * CHURN_CONSOLIDATE_PERIOD)
  }

  function ChurnInsertsBefore(step: nat): nat {
    DeletesNotNegative(step);
    step - ChurnDeletesBefore(step) - ChurnConsolidatesBefore(step)
  }

  function ChurnOpAt(step: nat): ChurnOp {
    if step % CHURN_CONSOLIDATE_PERIOD == CHURN_CONSOLIDATE_PERIOD - 1 then Consolidate
    else if step % CHURN_DELETE_PERIOD == CHURN_DELETE_PERIOD - 1 then Delete(3 * ChurnDeletesBefore(step))
    else Insert(ChurnInsertsBefore(step))
  }

  /** What a straight replay of the first `step` steps has done. */
  datatype Churned = Churned(inserts: nat, deletes: nat, consolidates: nat, inserted: set<nat>, deleted: set<nat>)

  function ChurnReplay(step: nat): Churned {
    if step == 0 then Churned(0, 0, 0, {}, {})
    else
      var before := ChurnReplay(step - 1);
      match ChurnOpAt(step - 1)
      case Insert(id) => before.(inserts := before.inserts + 1, inserted := before.inserted + {id})
      case Delete(id) => before.(deletes := before.deletes + 1, deleted := before.deleted + {id})
      case Consolidate => before.(consolidates := before.consolidates + 1)
  }

  /** A quotient grows exactly on the last residue. */
  lemma QuotientSteps(step: nat)
    ensures (step + 1) / 5 == step / 5 + if step % 5 == 4 then 1 else 0
    ensures (step + 1) / 7 == step / 7 + if step % 7 == 6 then 1 else 0
    ensures (step + 1) / 43 == step / 43 + if step % 43 == 42 then 1 else 0
    ensures (step + 1) / 301 == step / 301 + if step % 301 == 300 then 1 else 0
  {
  }

  lemma RulesMeet(step: nat)
    requires step % 7 == 6 && step % 43 == 42
    ensures step % 301 == 300
  {
    var a, b := step / 7 + 1, step / 43 + 1;
    assert step + 1 == 7 * a && step + 1 == 43 * b;
    assert step + 1 == 301 * (a - 6 * b);
  }

  lemma RulesSplit(step: nat)
    requires step % 301 == 300
    ensures step % 7 == 6 && step % 43 == 42
  {
    var c := step / 301;
    assert step == 301 * c + 300;
    Rest(step, 7, 43 * c + 42, 6);
    Rest(step, 43, 7 * c + 6, 42);
  }

  lemma Rest(step: nat, m: nat, q: nat, r: nat)
    requires (m == 7 || m == 43) && step == m * q + r && r < m
    ensures step % m == r
  {
    if m == 7 {
      assert step == 7 * q + r;
    } else {
      assert step == 43 * q + r;
    }
  }

  /** Both rules claim a step exactly when it is the last residue of the combined period. */
  lemma BothRules(step: nat)
    ensures step % 301 == 300 <==> step % 7 == 6 && step % 43 == 42
  {
    if step % 301 == 300 {
      RulesSplit(step);
    }
    if step % 7 == 6 && step % 43 == 42 {
      RulesMeet(step);
    }
  }

  lemma ChurnCounts(step: nat)
    ensures var op := ChurnOpAt(step);
      && ChurnConsolidatesBefore(step + 1) == ChurnConsolidatesBefore(step) + (if op.Consolidate? then 1 else 0)
      && ChurnDeletesBefore(step + 1) == ChurnDeletesBefore(step) + (if op.Delete? then 1 else 0)
      && ChurnInsertsBefore(step + 1) == ChurnInsertsBefore(step) + (if op.Insert? then 1 else 0)
  {
    QuotientSteps(step);
    BothRules(step);
  }

  lemma NothingBefore()
    ensures ChurnInsertsBefore(0) == ChurnDeletesBefore(0) == ChurnConsolidatesBefore(0) == 0
  {
  }

  lemma ChurnInFigures(step: nat)
    ensures ChurnConsolidatesBefore(step) == step / 43 && ChurnDeletesBefore(step) == step / 7 - step / 301
    ensures ChurnInsertsBefore(step) + ChurnDeletesBefore(step) + ChurnConsolidatesBefore(step) == step
  {
  }

  lemma ChurnOpIs(step: nat)
    ensures match ChurnOpAt(step)
      case Insert(id) => id == ChurnInsertsBefore(step)
      case Delete(id) => id == 3 * ChurnDeletesBefore(step)
      case Consolidate => true
  {
  }

  /** When a delete is due, its target was inserted long ago. */
  lemma DeleteTargetInserted(step: nat)
    requires ChurnOpAt(step).Delete?
    ensures 3 * ChurnDeletesBefore(step) < ChurnInsertsBefore(step)
  {
    var q := step / 7;
    assert step == 7 * q + 6;
  }

  lemma {:induction false} ChurnReplayIs(step: nat)
    ensures var done := ChurnReplay(step);
      && done.inserts == ChurnInsertsBefore(step) && done.deletes == ChurnDeletesBefore(step)
      && done.consolidates == ChurnConsolidatesBefore(step)
      && (forall id :: id in done.inserted <==> 0 <= id < ChurnInsertsBefore(step))
      && (forall id :: id in done.deleted <==> 0 <= id < 3 * ChurnDeletesBefore(step) && id % 3 == 0)
  {
    hide ChurnInsertsBefore, ChurnDeletesBefore, ChurnConsolidatesBefore, ChurnOpAt;
    if step == 0 {
      NothingBefore();
    } else {
      ChurnReplayIs(step - 1);
      ChurnCounts(step - 1);
      ChurnOpIs(step - 1);
    }
  }

  /** The closed forms are the counts of a sequential replay: every 43rd step consolidates, every 7th of the others
      deletes, the rest insert. The ids inserted are exactly those below the insert count, the ids deleted exactly the
      multiples of three below three times the delete count. */
  lemma ChurnClosedForms(step: nat)
    ensures var done := ChurnReplay(step);
      && done.inserts == ChurnInsertsBefore(step) && done.deletes == ChurnDeletesBefore(step)
      && done.consolidates == ChurnConsolidatesBefore(step)
      && done.consolidates == step / 43 && done.deletes == step / 7 - step / 301
      && done.inserts + done.deletes + done.consolidates == step
      && (forall id :: id in done.inserted <==> 0 <= id < done.inserts)
      && (forall id :: id in done.deleted <==> 0 <= id < 3 * done.deletes && id % 3 == 0)
  {
    hide ChurnInsertsBefore, ChurnDeletesBefore, ChurnConsolidatesBefore, ChurnReplay;
    ChurnReplayIs(step);
    ChurnInFigures(step);
  }

  /** Every delete hits an id inserted before and not deleted yet; every insert takes an id never used. */
  lemma ChurnSound(step: nat)
    ensures var done := ChurnReplay(step);
      match ChurnOpAt(step)
      case Insert(id) => id !in done.inserted && id !in done.deleted && step % 43 != 42 && step % 7 != 6
      case Delete(id) => id in done.inserted && id !in done.deleted && step % 43 != 42 && step % 7 == 6
      case Consolidate => step % 43 == 42
  {
    ChurnClosedForms(step);
    if ChurnOpAt(step).Delete? {
      DeleteTargetInserted(step);
    } else if ChurnOpAt(step).Insert? {
      DeletedWereInserted(step);
    }
  }

  /** Deleted ids are a subset of inserted ones at every step. */
  lemma {:induction false} DeletedWereInserted(step: nat)
    ensures ChurnReplay(step).deleted <= ChurnReplay(step).inserted
  {
    if step > 0 {
      DeletedWereInserted(step - 1);
      ChurnClosedForms(step - 1);
      if ChurnOpAt(step - 1).Delete? {
        DeleteTargetInserted(step - 1);
      }
    }
  }

  // ── the graph chain ────────────────────────────────────────────────────

  datatype GraphOp = UpsertEntity(id: nat) | UpsertEdge(src: nat, dst: nat)

  function GraphOpAt(step: nat): GraphOp {
    if step % 2 == 0 then UpsertEntity(step / 2 + 1) else UpsertEdge(step / 2, step / 2 + 1)
  }

  /** Entities of a replay; entity 0 is there before it starts. */
  function GraphEntities(step: nat): set<nat> {
    if step == 0 then {0}
    else match GraphOpAt(step - 1)
      case UpsertEntity(id) => GraphEntities(step - 1) + {id}
      case UpsertEdge(_, _) => GraphEntities(step - 1)
  }

  lemma {:induction false} GraphEntitiesAre(step: nat)
    ensures forall id :: id in GraphEntities(step) <==> 0 <= id <= (step + 1) / 2
  {
    if step > 0 {
      GraphEntitiesAre(step - 1);
    }
  }

  /** Even steps add the next entity, odd steps link it to the one before: every edge follows both of its
      endpoints, and every entity is new. */
  lemma GraphSound(step: nat)
    ensures match GraphOpAt(step)
      case UpsertEntity(id) => step % 2 == 0 && id !in GraphEntities(step) && id - 1 in GraphEntities(step)
      case UpsertEdge(src, dst) =>
        step % 2 == 1 && src in GraphEntities(step) && dst in GraphEntities(step) && dst == src + 1
        && dst !in GraphEntities(step - 1)
  {
    GraphEntitiesAre(step);
    if step > 0 {
      GraphEntitiesAre(step - 1);
    }
  }

  // ── memories ───────────────────────────────────────────────────────────

  datatype MemoryOp = Put(id: nat) | Forget(id: nat)

  const MEMORY_FORGET_PERIOD: nat := 5

  function MemoryForgetsBefore(step: nat): nat {
    step / MEMORY_FORGET_PERIOD
  }

  function MemoryPutsBefore(step: nat): nat {
    step - MemoryForgetsBefore(step)
  }

  function MemoryOpAt(step: nat): MemoryOp {
    if step % MEMORY_FORGET_PERIOD == MEMORY_FORGET_PERIOD - 1 then Forget(2 * MemoryForgetsBefore(step))
    else Put(MemoryPutsBefore(step))
  }

  datatype Remembered = Remembered(puts: nat, forgets: nat, stored: set<nat>, forgotten: set<nat>)

  function MemoryReplay(step: nat): Remembered {
    if step == 0 then Remembered(0, 0, {}, {})
    else
      var before := MemoryReplay(step - 1);
      match MemoryOpAt(step - 1)
      case Put(id) => before.(puts := before.puts + 1, stored := before.stored + {id})
      case Forget(id) => before.(forgets := before.forgets + 1, forgotten := before.forgotten + {id})
  }

  lemma MemoryCounts(step: nat)
    ensures MemoryPutsBefore(0) == MemoryForgetsBefore(0) == 0
    ensures match MemoryOpAt(step)
      case Put(id) =>
        && id == MemoryPutsBefore(step) && MemoryPutsBefore(step + 1) == MemoryPutsBefore(step) + 1
        && MemoryForgetsBefore(step + 1) == MemoryForgetsBefore(step)
      case Forget(id) =>
        && id == 2 * MemoryForgetsBefore(step) && MemoryForgetsBefore(step + 1) == MemoryForgetsBefore(step) + 1
        && MemoryPutsBefore(step + 1) == MemoryPutsBefore(step)
  {
    QuotientSteps(step);
  }

  lemma MemoryInFigures(step: nat)
    ensures MemoryForgetsBefore(step) == step / 5 && MemoryPutsBefore(step) + MemoryForgetsBefore(step) == step
  {
  }

  lemma {:induction false} MemoryClosedForms(step: nat)
    ensures var done := MemoryReplay(step);
      && done.puts == MemoryPutsBefore(step) && done.forgets == MemoryForgetsBefore(step)
      && done.forgets == step / 5 && done.puts + done.forgets == step
      && (forall id :: id in done.stored <==> 0 <= id < MemoryPutsBefore(step))
      && (forall id :: id in done.forgotten <==> 0 <= id < 2 * MemoryForgetsBefore(step) && id % 2 == 0)
  {
    hide MemoryPutsBefore, MemoryForgetsBefore, MemoryOpAt;
    MemoryInFigures(step);
    MemoryCounts(if step > 0 then step - 1 else 0);
    if step > 0 {
      MemoryClosedForms(step - 1);
    }
  }

  /** Every forget hits a memory put before and not forgotten yet; every put takes the next fresh id. */
  lemma MemorySound(step: nat)
    ensures var done := MemoryReplay(step);
      match MemoryOpAt(step)
      case Put(id) => id == done.puts && id !in done.stored && id !in done.forgotten && step % 5 != 4
      case Forget(id) => id == 2 * done.forgets && id in done.stored && id !in done.forgotten && step % 5 == 4
  {
    MemoryClosedForms(step);
    if MemoryOpAt(step).Put? {
      assert 2 * MemoryForgetsBefore(step) <= MemoryPutsBefore(step) + 1;
    }
  }
}
