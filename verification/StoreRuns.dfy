/** Whole runs of the store: what was promised to callers, and what survives. */
module StoreRuns {
  import opened Bytes
  import opened Results
  import opened Tables
  import opened Layers
  import opened WalLog
  import opened Store
  import opened SstFile
  import F = WalFormat

  /** An empty directory. */
  const FRESH: State := State(Disk([], []), Down, map[], [], 0, None, [])

  function Final(states: seq<State>): State {
    if states == [] then FRESH else states[|states| - 1]
  }

  ghost predicate Run(states: seq<State>, events: seq<Event>, c: Config) {
    && |states| == |events| + 1 && states[0] == FRESH
    && forall i :: 0 <= i < |events| ==> Step(states[i], events[i], states[i + 1], c)
  }

  /** Every step of the run is safe; `StepKeeps` and `Safe` say which are not. */
  ghost predicate Gentle(states: seq<State>, events: seq<Event>) {
    |states| == |events| + 1 && forall i :: 0 <= i < |events| ==> Safe(states[i], events[i])
  }

  ghost predicate GentleRun(states: seq<State>, events: seq<Event>, c: Config) {
    Run(states, events, c) && Gentle(states, events)
  }

  /** No removal failed, and no append failed in a process that then went on. */
  predicate FaultFree(events: seq<Event>) {
    forall i :: 0 <= i < |events| ==> !events[i].RemoveFails? && !events[i].AppendFails?
  }

  /** One unit that reached the log, and whether its caller was told so. */
  datatype Promise = Promise(unit: Unit, acknowledged: bool)

  function Record(before: seq<Promise>, e: Event): seq<Promise> {
    match e
    case Append(unit, _) => before + [Promise(unit, false)]
    case AppendTorn(unit, frame, cut) => if cut == |frame| then before + [Promise(unit, false)] else before
    case AppendFails(unit, frame, cut) => if cut == |frame| then before + [Promise(unit, false)] else before
    case Return(ok) =>
      if ok && before != [] then before[|before| - 1 := before[|before| - 1].(acknowledged := true)] else before
    case _ => before
  }

  /** The units of a run in the order they were written. */
  function Ledger(events: seq<Event>): seq<Promise> {
    if events == [] then [] else Record(Ledger(events[..|events| - 1]), events[|events| - 1])
  }

  function LedgerOps(ledger: seq<Promise>): seq<F.WalRecord> {
    if ledger == [] then [] else LedgerOps(ledger[..|ledger| - 1]) + UnitOps(ledger[|ledger| - 1].unit)
  }

  function Unacknowledged(ledger: seq<Promise>): nat {
    if ledger == [] then 0
    else Unacknowledged(ledger[..|ledger| - 1]) + if ledger[|ledger| - 1].acknowledged then 0 else 1
  }

  predicate Interrupts(e: Event) {
    e.Crash? || e.AppendTorn? || e.AppendFails? || (e.Return? && !e.ok)
  }

  /** Crashes, and calls that reported an error. */
  function Interruptions(events: seq<Event>): nat {
    if events == [] then 0
    else Interruptions(events[..|events| - 1]) + if Interrupts(events[|events| - 1]) then 1 else 0
  }

  /** A unit is in flight between its record and the return of its call. */
  predicate Pending(s: State) {
    !s.phase.Down? && s.inFlight.Some?
  }

  lemma FreshInv(c: Config)
    ensures Inv(FRESH, c) && Contents(FRESH.disk, c.crypto) == map[]
  {
    hide LogWhole, LogTorn, Logged, Merge;
    EmptyLog(c.crypto);
    WholeIsTorn([], c.crypto);
    StackOne(SstOnDisk(0, [], None));
  }

  lemma LedgerSnoc(before: seq<Promise>, p: Promise)
    ensures LedgerOps(before + [p]) == LedgerOps(before) + UnitOps(p.unit)
    ensures Unacknowledged(before + [p]) == Unacknowledged(before) + if p.acknowledged then 0 else 1
  {
    hide UnitOps;
    assert (before + [p])[..|before|] == before;
  }

  /** What the ledger says about the unit in flight. */
  predicate InFlightIsLast(ledger: seq<Promise>, s: State) {
    Pending(s) ==> ledger != [] && ledger[|ledger| - 1] == Promise(s.inFlight.value, false)
  }

  /** Recording one step. */
  lemma RecordStep(ledger: seq<Promise>, s: State, e: Event, s': State, db: Db, c: Config)
    requires Step(s, e, s', c) && InFlightIsLast(ledger, s) && db == ApplyAllToDb(LedgerOps(ledger), map[])
    ensures var after := Record(ledger, e);
      && InFlightIsLast(after, s') && Effect(e, db) == ApplyAllToDb(LedgerOps(after), map[])
      && Unacknowledged(after) + (if Pending(s) then 1 else 0)
         <= Unacknowledged(ledger) + (if Interrupts(e) then 1 else 0) + (if Pending(s') then 1 else 0)
  {
    hide UnitOps, ApplyAllToDb, LedgerOps, Frames, Written, Placed, Stack, ReplayLog, LoadAll, UnitWellFormed;
    hide NextId, UnitRecord, Unlinked, LiveOnly, ApplyOps, Unacknowledged;
    if e.Append? || ((e.AppendTorn? || e.AppendFails?) && e.cut == |e.frame|) {
      LedgerSnoc(ledger, Promise(e.unit, false));
      ApplyAllConcat(LedgerOps(ledger), UnitOps(e.unit), map[]);
    } else if e.Return? && e.ok {
      var before, last := ledger[..|ledger| - 1], ledger[|ledger| - 1];
      assert ledger == before + [last];
      assert Record(ledger, e) == before + [last.(acknowledged := true)];
      LedgerSnoc(before, last);
      LedgerSnoc(before, last.(acknowledged := true));
    }
  }

  /** Crash consistency over whole runs: after any safe steps, with any number of crashes at any durable
      boundary or inside an append and any failures that are safe, a reopen recovers exactly the units that
      reached the log, whole and in order. Every acknowledged unit is one of them, and each interruption
      leaves at most one unacknowledged unit behind. */
  lemma {:induction false} CrashConsistency(states: seq<State>, events: seq<Event>, c: Config)
    requires GentleRun(states, events, c)
    ensures var s, ledger := Final(states), Ledger(events);
      && Inv(s, c) && InFlightIsLast(ledger, s)
      && Contents(s.disk, c.crypto) == ApplyAllToDb(LedgerOps(ledger), map[])
      && Unacknowledged(ledger) <= Interruptions(events) + if Pending(s) then 1 else 0
  {
    hide Inv, Step, Contents, LedgerOps, Unacknowledged, Safe;
    if events == [] {
      FreshInv(c);
      NoPromises();
    } else {
      var n := |events| - 1;
      CrashConsistency(states[..n + 1], events[..n], c);
      var s, e, s' := states[n], events[n], states[n + 1];
      assert Step(s, e, s', c) && Safe(s, e);
      StepKeeps(s, e, s', c);
      RecordStep(Ledger(events[..n]), s, e, s', Contents(s.disk, c.crypto), c);
    }
  }

  /** A run whose removals and appends all succeed, or crash with the process, is safe throughout. */
  lemma {:induction false} FaultFreeIsGentle(states: seq<State>, events: seq<Event>, c: Config)
    requires Run(states, events, c) && FaultFree(events)
    ensures GentleRun(states, events, c) && Final(states).leftover == []
  {
    hide Inv, Step, Contents, Safe;
    if events != [] {
      var n := |events| - 1;
      FaultFreeIsGentle(states[..n + 1], events[..n], c);
      CrashConsistency(states[..n + 1], events[..n], c);
      var s, e, s' := states[n], events[n], states[n + 1];
      assert Step(s, e, s', c);
      FaultFreeStep(s, e, s', c);
      assert forall i :: 0 <= i < n ==> Safe(states[..n + 1][i], events[..n][i]);
    }
  }

  lemma FaultFreeStep(s: State, e: Event, s': State, c: Config)
    requires Inv(s, c) && Step(s, e, s', c) && s.leftover == [] && !e.RemoveFails? && !e.AppendFails?
    ensures Safe(s, e) && s'.leftover == []
  {
    hide Inv, RemovalSafe, Frames, Written, Placed, Stack, ReplayLog, LoadAll, UnitWellFormed, NextId, Live;
    if e.RemoveOld? {
      StackOne(SstOnDisk(0, [], None));
      NothingLive();
      CleanRemovalSafe(s, c);
    }
  }

  lemma NothingLive()
    ensures Live(map[]) == map[]
  {
  }

  /** Some run without failures ends in `s` with this ledger. */
  ghost predicate Reaches(s: State, ledger: seq<Promise>, c: Config) {
    exists states, events ::
      Run(states, events, c) && FaultFree(events) && Final(states) == s && Ledger(events) == ledger
  }

  lemma RunSnoc(states: seq<State>, events: seq<Event>, e: Event, s': State, c: Config)
    requires Run(states, events, c) && Step(Final(states), e, s', c)
    ensures Run(states + [s'], events + [e], c) && Final(states + [s']) == s'
    ensures Ledger(events + [e]) == Record(Ledger(events), e)
  {
    hide Step, Record;
    assert (events + [e])[..|events|] == events;
  }

  lemma Extended(states: seq<State>, events: seq<Event>, e: Event, s': State, c: Config)
    returns (states': seq<State>, events': seq<Event>)
    requires Run(states, events, c) && Step(Final(states), e, s', c)
    ensures Run(states', events', c) && Final(states') == s' && Ledger(events') == Record(Ledger(events), e)
  {
    hide Run, Step, Ledger;
    RunSnoc(states, events, e, s', c);
    states', events' := states + [s'], events + [e];
  }

  lemma ReachStep(s: State, ledger: seq<Promise>, e: Event, s': State, c: Config)
    requires Reaches(s, ledger, c) && Step(s, e, s', c) && !e.RemoveFails? && !e.AppendFails?
    ensures Reaches(s', Record(ledger, e), c)
  {
    hide Step, Ledger, Record, Run;
    var states, events :|
      Run(states, events, c) && FaultFree(events) && Final(states) == s && Ledger(events) == ledger;
    RunSnoc(states, events, e, s', c);
    assert FaultFree(events + [e]);
  }

  lemma ReachesInv(s: State, ledger: seq<Promise>, c: Config)
    requires Reaches(s, ledger, c)
    ensures Inv(s, c) && s.leftover == [] && Contents(s.disk, c.crypto) == ApplyAllToDb(LedgerOps(ledger), map[])
  {
    hide Step, Ledger, Inv, Contents, GentleRun, Run;
    var states, events :|
      Run(states, events, c) && FaultFree(events) && Final(states) == s && Ledger(events) == ledger;
    FaultFreeIsGentle(states, events, c);
    CrashConsistency(states, events, c);
  }

  lemma FreshRun(c: Config)
    ensures Reaches(FRESH, [], c)
  {
    hide Step;
    assert Run([FRESH], [], c) && FaultFree([]) && Final([FRESH]) == FRESH && Ledger([]) == [];
  }

  lemma OpenEmpty(c: Config)
    ensures Open(Disk([], []), c.crypto) == Success(State(Disk([], []), Ready, map[], [], 0, None, []))
  {
    ReplayEmpty(c.crypto);
  }

  lemma EmptyOpened(c: Config)
    ensures Reaches(State(Disk([], []), Ready, map[], [], 0, None, []), [], c)
  {
    hide Step, LoadAll, ReplayLog;
    var s := State(Disk([], []), Ready, map[], [], 0, None, []);
    FreshRun(c);
    ReplayEmpty(c.crypto);
    OpenEmpty(c);
    ReopenStep(FRESH, s, c);
    ReachStep(FRESH, [], Reopen, s, c);
  }

  lemma Reached(s: State, ledger: seq<Promise>, c: Config) returns (states: seq<State>, events: seq<Event>)
    requires Reaches(s, ledger, c)
    ensures Run(states, events, c) && FaultFree(events) && Final(states) == s && Ledger(events) == ledger
  {
    hide Run, Ledger;
    states, events :| Run(states, events, c) && FaultFree(events) && Final(states) == s && Ledger(events) == ledger;
  }

  /** One more safe step. */
  lemma RunGrows(states: seq<State>, events: seq<Event>, states': seq<State>, events': seq<Event>, c: Config)
    requires GentleRun(states, events, c) && |states'| == |states| + 1 && |events'| == |events| + 1
    requires states'[..|states|] == states && events'[..|events|] == events
    requires Safe(Final(states), events'[|events|])
    requires Step(Final(states), events'[|events|], states'[|states|], c)
    ensures GentleRun(states', events', c) && Final(states') == states'[|states|]
    ensures Ledger(events') == Record(Ledger(events), events'[|events|])
    ensures Interruptions(events') == Interruptions(events) + if Interrupts(events'[|events|]) then 1 else 0
  {
    hide Step, Safe;
  }

  /** One more step of any run. */
  lemma RunRecords(states: seq<State>, events: seq<Event>, states': seq<State>, events': seq<Event>, c: Config)
    requires Run(states, events, c) && |states'| == |states| + 1 && |events'| == |events| + 1
    requires states'[..|states|] == states && events'[..|events|] == events
    requires Step(Final(states), events'[|events|], states'[|states|], c)
    ensures Run(states', events', c) && Final(states') == states'[|states|]
    ensures Ledger(events') == Record(Ledger(events), events'[|events|])
    ensures Interruptions(events') == Interruptions(events) + if Interrupts(events'[|events|]) then 1 else 0
    ensures Gentle(states', events') <==> Gentle(states, events) && Safe(Final(states), events'[|events|])
  {
    hide Step, Safe;
    if Gentle(states', events') {
      assert Safe(states'[|events|], events'[|events|]);
      forall i | 0 <= i < |events|
        ensures Safe(states[i], events[i])
      {
        assert Safe(states'[i], events'[i]);
      }
    }
  }

  lemma GentleIsRun(states: seq<State>, events: seq<Event>, c: Config)
    requires GentleRun(states, events, c)
    ensures Run(states, events, c)
  {
    hide Run, Gentle;
  }

  lemma LastIsSafe(states: seq<State>, events: seq<Event>, s': State, e: Event, c: Config)
    requires Run(states, events, c) && GentleRun(states + [s'], events + [e], c)
    ensures Safe(Final(states), e)
  {
    hide Step, Safe;
    assert (events + [e])[|events|] == e && (states + [s'])[|events|] == Final(states);
  }

  lemma NoPromises()
    ensures LedgerOps([]) == [] && Unacknowledged([]) == 0
  {
  }

  /** An uninterrupted run loses and invents nothing: all of its calls but the running one are acknowledged. */
  lemma UninterruptedRun(states: seq<State>, events: seq<Event>, c: Config)
    requires GentleRun(states, events, c) && Interruptions(events) == 0 && !Pending(Final(states))
    ensures forall i :: 0 <= i < |Ledger(events)| ==> Ledger(events)[i].acknowledged
  {
    hide Inv, Step, Contents, Ledger, GentleRun;
    CrashConsistency(states, events, c);
    NoneUnacknowledged(Ledger(events));
  }

  lemma {:induction false} NoneUnacknowledged(ledger: seq<Promise>)
    requires Unacknowledged(ledger) == 0
    ensures forall i :: 0 <= i < |ledger| ==> ledger[i].acknowledged
  {
    if ledger != [] {
      var before := ledger[..|ledger| - 1];
      NoneUnacknowledged(before);
      assert forall i :: 0 <= i < |before| ==> before[i] == ledger[i];
    }
  }
}
