/** The crash protocol of the store (`store::engine`): every durable step of `put`, `delete`,
    `apply_batch`, `flush`, `compact` and `open` as a transition over the bytes on disk. */
module Store {
  import opened Bytes
  import opened Results
  import opened Tables
  import opened Layers
  import opened WalLog
  import F = WalFormat
  import opened Aead
  import opened SstFile
  import SstReader
  import SstScan
  import B = Bloom

  datatype Config = Config(blockSize: nat, hasher: B.Hasher, crypto: Crypto)

  /** The log and the SSTs in ascending id order, as `scan_existing` lists them. */
  datatype Disk = Disk(wal: Bytes, ssts: seq<SstOnDisk>)

  datatype Phase =
    | Down
    | Ready
    | Appended                     // the unit in flight is durable, the memtable not yet updated
    | Renamed                      // a flushed SST is in place, the log not yet truncated
    | Truncated                    // ... and the log is empty, the memtable not yet cleared
    | Merging(stale: seq<SstOnDisk>) // a merged SST is in place and listed, `stale` still to be removed

  /** `inFlight` is the unit whose call has written its record but not returned. `leftover` is what removals
      that failed left in the directory: older than every listed file, read by nobody until a reopen. */
  datatype State = State(disk: Disk, phase: Phase, mem: Table, listed: seq<SstOnDisk>, nextId: nat,
                         inFlight: Option<Unit>, leftover: seq<SstOnDisk>)

  // ── what is on disk ────────────────────────────────────────────────────

  function TableIn(sst: SstOnDisk): Table {
    var res := SstScan.ReadTable(sst);
    if res.Success? then res.value else map[]
  }

  function TablesOf(ssts: seq<SstOnDisk>): (r: seq<Table>)
    ensures |r| == |ssts|
  {
    if ssts == [] then [] else [TableIn(ssts[0])] + TablesOf(ssts[1..])
  }

  /** Everything the listed files say, newest first. */
  function Stack(ssts: seq<SstOnDisk>): Table {
    Merge(TablesOf(ssts))
  }

  function LogOps(wal: Bytes, crypto: Crypto): seq<F.WalRecord> {
    var res := ReplayLog(wal, crypto);
    if res.Success? then res.value.0 else []
  }

  function Logged(wal: Bytes, crypto: Crypto): Table {
    ApplyOps(LogOps(wal, crypto), map[])
  }

  /** The contents an `open` would recover from `disk`. */
  function Contents(disk: Disk, crypto: Crypto): Db {
    Live(Stack(disk.ssts) + Logged(disk.wal, crypto))
  }

  function LoadAll(ssts: seq<SstOnDisk>): Result<seq<SstReader.Sst>> {
    if ssts == [] then Success([])
    else
      var first :- SstReader.Load(ssts[0]);
      After([first], LoadAll(ssts[1..]))
  }

  /** `max(id + 1)`, or zero for an empty directory. */
  function NextId(ssts: seq<SstOnDisk>): nat {
    if ssts == [] then 0
    else
      var next := NextId(ssts[..|ssts| - 1]);
      var own := ssts[|ssts| - 1].id + 1;
      if own < next then next else own
  }

  /** Load every SST, then replay the log, cutting its torn tail off. */
  function Open(disk: Disk, crypto: Crypto): Result<State> {
    var loaded :- LoadAll(disk.ssts);
    var (ops, reach) :- ReplayLog(disk.wal, crypto);
    Success(State(disk.(wal := disk.wal[..reach]), Ready, ApplyOps(ops, map[]), disk.ssts, NextId(disk.ssts), None, []))
  }

  /** Renaming a temporary file to `<id>.sst`: it replaces the file of that id, if there is one. */
  function Placed(ssts: seq<SstOnDisk>, sst: SstOnDisk): seq<SstOnDisk> {
    if ssts == [] then [sst]
    else if ssts[0].id == sst.id then [sst] + ssts[1..]
    else if sst.id < ssts[0].id then [sst] + ssts
    else [ssts[0]] + Placed(ssts[1..], sst)
  }

  function Unlinked(ssts: seq<SstOnDisk>, id: nat): seq<SstOnDisk> {
    if ssts == [] then []
    else if ssts[0].id == id then ssts[1..]
    else [ssts[0]] + Unlinked(ssts[1..], id)
  }

  // ── steps ──────────────────────────────────────────────────────────────

  datatype Event =
    | Reopen
    | Append(unit: Unit, frame: Bytes)
    | AppendTorn(unit: Unit, frame: Bytes, cut: nat)  // a crash inside the append
    | AppendFails(unit: Unit, frame: Bytes, cut: nat) // the append reports an I/O error and the process goes on
    | Update
    | Return(ok: bool)
    | FlushRename(file: Bytes)
    | FlushTruncate
    | FlushFinish
    | FlushError                                      // the call reports an I/O error and stays open
    | MergeRename(file: Bytes)
    | MergeError(file: Bytes)                         // the merged file is in place, the call reports an error
    | RemoveOld
    | RemoveFails
    | MergeFinish
    | Crash

  /** `file` is what the writer produces for table `t` under number `id`. */
  ghost predicate Written(file: Bytes, id: nat, t: Table, c: Config) {
    exists sealer: Sealer :: WrittenWith(file, id, t, c, sealer)
  }

  ghost predicate WrittenWith(file: Bytes, id: nat, t: Table, c: Config, sealer: Sealer) {
    var layout := LayoutOf(id, Ascending(t), c.blockSize, c.hasher, sealer);
    c.blockSize > 0 && layout.InRange() && layout.Seals(c.crypto) && file == layout.Bytes()
  }

  ghost predicate Step(s: State, e: Event, s': State, c: Config) {
    match e
    case Reopen =>
      s.phase.Down? && Open(s.disk, c.crypto) == Success(s')
    case Append(unit, frame) =>
      && s.phase.Ready? && s.inFlight.None? && UnitWellFormed(unit) && Frames(frame, UnitRecord(unit), c.crypto)
      && s' == s.(disk := s.disk.(wal := s.disk.wal + frame), phase := Appended, inFlight := Some(unit))
    case AppendTorn(unit, frame, cut) =>
      && s.phase.Ready? && s.inFlight.None? && UnitWellFormed(unit) && Frames(frame, UnitRecord(unit), c.crypto)
      && cut <= |frame|
      && s' == s.(disk := s.disk.(wal := s.disk.wal + frame[..cut]), phase := Down)
    case AppendFails(unit, frame, cut) =>
      && s.phase.Ready? && s.inFlight.None? && UnitWellFormed(unit) && Frames(frame, UnitRecord(unit), c.crypto)
      && cut <= |frame| && s' == s.(disk := s.disk.(wal := s.disk.wal + frame[..cut]))
    case Update =>
      s.phase.Appended? && s.inFlight.Some?
      && s' == s.(phase := Ready, mem := ApplyOps(UnitOps(s.inFlight.value), s.mem))
    case Return(_) =>
      s.phase.Ready? && s.inFlight.Some? && s' == s.(inFlight := None)
    case FlushRename(file) =>
      && s.phase.Ready? && s.mem != map[] && Written(file, s.nextId, s.mem, c)
      && s' == s.(disk := s.disk.(ssts := Placed(s.disk.ssts, SstOnDisk(s.nextId, file, c.crypto))), phase := Renamed)
    case FlushTruncate =>
      s.phase.Renamed? && s' == s.(disk := s.disk.(wal := []), phase := Truncated)
    case FlushFinish =>
      && s.phase.Truncated? && s.disk.ssts != []
      && s' == s.(phase := Ready, mem := map[], listed := s.listed + [s.disk.ssts[|s.disk.ssts| - 1]],
                  nextId := s.nextId + 1)
    case FlushError =>
      (s.phase.Renamed? || s.phase.Truncated?) && s' == s.(phase := Ready)
    case MergeRename(file) =>
      && s.phase.Ready? && s.mem == map[] && s.listed != []
      && Written(file, s.nextId, LiveOnly(Stack(s.listed)), c)
      && var sst := SstOnDisk(s.nextId, file, c.crypto);
         s' == s.(disk := s.disk.(ssts := Placed(s.disk.ssts, sst)), phase := Merging(s.listed),
                  listed := [sst], nextId := s.nextId + 1)
    case MergeError(file) =>
      && s.phase.Ready? && s.mem == map[] && s.listed != []
      && Written(file, s.nextId, LiveOnly(Stack(s.listed)), c)
      && s' == s.(disk := s.disk.(ssts := Placed(s.disk.ssts, SstOnDisk(s.nextId, file, c.crypto))))
    case RemoveOld =>
      && s.phase.Merging? && s.phase.stale != []
      && s' == s.(disk := s.disk.(ssts := Unlinked(s.disk.ssts, s.phase.stale[0].id)),
                  phase := Merging(s.phase.stale[1..]))
    case RemoveFails =>
      && s.phase.Merging? && s.phase.stale != []
      && s' == s.(phase := Merging(s.phase.stale[1..]), leftover := s.leftover + [s.phase.stale[0]])
    case MergeFinish =>
      s.phase.Merging? && s.phase.stale == [] && s' == s.(phase := Ready)
    case Crash =>
      !s.phase.Down? && s' == s.(phase := Down)
  }

  /** The effect a step is allowed to have on what a reopen would show. */
  function Effect(e: Event, db: Db): Db {
    match e
    case Append(unit, _) => ApplyAllToDb(UnitOps(unit), db)
    case AppendTorn(unit, frame, cut) => if cut == |frame| then ApplyAllToDb(UnitOps(unit), db) else db
    case AppendFails(unit, frame, cut) => if cut == |frame| then ApplyAllToDb(UnitOps(unit), db) else db
    case _ => db
  }

  /** What is older than every listed file. */
  function Below(s: State): seq<SstOnDisk> {
    if s.phase.Merging? then s.leftover + s.phase.stale else s.leftover
  }

  /** Without its oldest stale file, nothing below the merged file is alive that the merged file lacks. */
  ghost predicate RemovalSafe(s: State) {
    && s.phase.Merging? && s.phase.stale != []
    && NoResurrection(Stack(s.leftover + s.phase.stale[1..]), Stack(s.listed))
  }

  /** Nothing of the frame was written, or all of it and it says nothing new. */
  predicate AppendSafe(mem: Table, unit: Unit, frame: Bytes, cut: nat) {
    cut == 0 || (cut == |frame| && Agrees(ApplyOps(UnitOps(unit), map[]), mem))
  }

  ghost predicate Safe(s: State, e: Event) {
    match e
    case RemoveOld => RemovalSafe(s)
    case AppendFails(unit, frame, cut) => AppendSafe(s.mem, unit, frame, cut)
    case _ => true
  }

  // ── the invariant ──────────────────────────────────────────────────────

  ghost predicate LogIs(wal: Bytes, units: seq<Unit>, frames: seq<Bytes>, crypto: Crypto) {
    && |units| == |frames| && UnitsWellFormed(units) && wal == Concat(frames)
    && forall i :: 0 <= i < |units| ==> Frames(frames[i], UnitRecord(units[i]), crypto)
  }

  ghost predicate LogWhole(wal: Bytes, crypto: Crypto) {
    exists units, frames :: LogIs(wal, units, frames, crypto)
  }

  /** Some log, cut short anywhere. */
  ghost predicate LogTorn(wal: Bytes, crypto: Crypto) {
    exists whole, cut :: LogWhole(whole, crypto) && 0 <= cut <= |whole| && wal == whole[..cut]
  }

  ghost predicate AllSound(ssts: seq<SstOnDisk>, c: Config) {
    forall i :: 0 <= i < |ssts| ==> Sound(ssts[i], c)
  }

  ghost predicate Sound(sst: SstOnDisk, c: Config) {
    sst.crypto == c.crypto && SstScan.Genuine(sst, c.hasher, TableIn(sst))
  }

  predicate AscendingIds(ssts: seq<SstOnDisk>) {
    forall i, j :: 0 <= i < j < |ssts| ==> ssts[i].id < ssts[j].id
  }

  predicate IdsBelow(ssts: seq<SstOnDisk>, id: nat) {
    forall i :: 0 <= i < |ssts| ==> ssts[i].id < id
  }

  /** The memtable knows at least what the log says, about the same keys. */
  predicate Agrees(logged: Table, mem: Table) {
    forall key :: key in logged ==> key in mem && mem[key] == logged[key]
  }

  /** On disk but unlisted: what an interrupted flush or merge left under the next number. */
  predicate OrphanOf(s: State, orphan: seq<SstOnDisk>) {
    |orphan| <= 1 && forall i :: 0 <= i < |orphan| ==> orphan[i].id == s.nextId
  }

  /** With memtable `mem`, the store shows what a reopen would recover. */
  predicate Shows(s: State, orphan: seq<SstOnDisk>, mem: Table, crypto: Crypto) {
    var logged := Logged(s.disk.wal, crypto);
    Agrees(logged, mem) && Live(Stack(s.listed) + Stack(orphan) + logged) == Live(Stack(s.listed) + mem)
  }

  ghost predicate RunningInv(s: State, orphan: seq<SstOnDisk>, c: Config) {
    && LogWhole(s.disk.wal, c.crypto) && OrphanOf(s, orphan) && IdsBelow(Below(s) + s.listed, s.nextId)
    && s.disk.ssts == Below(s) + s.listed + orphan && NoResurrection(Stack(Below(s)), Stack(s.listed))
    && match s.phase
       case Ready => Shows(s, orphan, s.mem, c.crypto)
       case Appended => s.inFlight.Some? && Shows(s, orphan, ApplyOps(UnitOps(s.inFlight.value), s.mem), c.crypto)
       case Renamed => Agrees(Logged(s.disk.wal, c.crypto), s.mem) && |orphan| == 1 && TableIn(orphan[0]) == s.mem
       case Truncated => s.disk.wal == [] && |orphan| == 1 && TableIn(orphan[0]) == s.mem
       case Merging(stale) =>
         s.mem == map[] && Logged(s.disk.wal, c.crypto) == map[] && orphan == []
       case Down => true
  }

  ghost predicate Inv(s: State, c: Config) {
    && AllSound(s.disk.ssts, c) && AscendingIds(s.disk.ssts)
    && if s.phase.Down? then LogTorn(s.disk.wal, c.crypto)
       else exists orphan :: RunningInv(s, orphan, c)
  }

  // ── the log ────────────────────────────────────────────────────────────

  lemma {:induction false} ConcatSnoc(frames: seq<Bytes>, frame: Bytes)
    ensures Concat(frames + [frame]) == Concat(frames) + frame
  {
    if frames == [] {
      assert frames + [frame] == [frame] && [frame][1..] == [];
      assert Concat([frame]) == frame + [] && Concat(frames) == [];
      assert frame + [] == frame && [] + frame == frame;
    } else {
      assert (frames + [frame])[1..] == frames[1..] + [frame];
      ConcatSnoc(frames[1..], frame);
      assert frames[0] + (Concat(frames[1..]) + frame) == frames[0] + Concat(frames[1..]) + frame;
    }
  }

  lemma {:induction false} WholeSnoc(frames: seq<Bytes>, frame: Bytes, cut: nat)
    requires cut <= |frame| && frame != []
    ensures Whole(frames + [frame], |Concat(frames)| + cut) == |frames| + if cut == |frame| then 1 else 0
  {
    if frames == [] {
      assert frames + [frame] == [frame] && [frame][1..] == [];
    } else {
      assert (frames + [frame])[1..] == frames[1..] + [frame];
      WholeSnoc(frames[1..], frame, cut);
    }
  }

  lemma {:induction false} WholeFits(frames: seq<Bytes>, cut: nat)
    ensures |Concat(frames[..Whole(frames, cut)])| <= cut
    ensures Concat(frames[..Whole(frames, cut)]) <= Concat(frames)
  {
    if frames != [] && |frames[0]| <= cut {
      var k := Whole(frames[1..], cut - |frames[0]|);
      WholeFits(frames[1..], cut - |frames[0]|);
      assert frames[..k + 1][0] == frames[0] && frames[..k + 1][1..] == frames[1..][..k];
    }
  }

  lemma WholeLogReplays(wal: Bytes, units: seq<Unit>, frames: seq<Bytes>, crypto: Crypto)
    requires LogIs(wal, units, frames, crypto)
    ensures ReplayLog(wal, crypto) == Success((Flatten(units), |wal|))
  {
    hide Frames, ReplayLog, UnitsWellFormed, Concat;
    ReplayPrefix(units, frames, crypto, |wal|);
    WholeAll(frames);
    assert wal[..|wal|] == wal && units[..|units|] == units && frames[..|frames|] == frames;
  }

  /** A whole log with one more frame, itself perhaps cut short. */
  lemma AppendToLog(wal: Bytes, unit: Unit, frame: Bytes, cut: nat, crypto: Crypto)
    requires LogWhole(wal, crypto) && UnitWellFormed(unit) && Frames(frame, UnitRecord(unit), crypto) && cut <= |frame|
    ensures ReplayLog(wal, crypto).Success? && LogTorn(wal + frame[..cut], crypto)
    ensures var (ops, reach) := ReplayLog(wal, crypto).value;
      ReplayLog(wal + frame[..cut], crypto)
      == Success(if cut == |frame| then (ops + UnitOps(unit), reach + |frame|) else (ops, reach))
    ensures cut == |frame| ==> LogWhole(wal + frame, crypto)
  {
    hide Frames, ReplayLog, UnitWellFormed, UnitOps, Flatten, UnitRecord, LogTorn, LogIs;
    var units, frames :| LogIs(wal, units, frames, crypto);
    AppendAs(wal, units, frames, unit, frame, cut, crypto);
  }

  lemma AppendAs(wal: Bytes, units: seq<Unit>, frames: seq<Bytes>, unit: Unit, frame: Bytes, cut: nat, crypto: Crypto)
    requires LogIs(wal, units, frames, crypto) && UnitWellFormed(unit) && Frames(frame, UnitRecord(unit), crypto)
    requires cut <= |frame|
    ensures LogTorn(wal + frame[..cut], crypto) && LogWhole(wal + frame, crypto)
    ensures ReplayLog(wal, crypto) == Success((Flatten(units), |wal|))
    ensures ReplayLog(wal + frame[..cut], crypto)
         == Success(if cut == |frame| then (Flatten(units) + UnitOps(unit), |wal| + |frame|) else (Flatten(units), |wal|))
  {
    hide Frames, ReplayLog, UnitWellFormed, UnitOps, Flatten, UnitRecord, LogTorn, LogIs;
    LogSnoc(wal, units, frames, unit, frame, crypto);
    assert LogWhole(wal + frame, crypto);
    hide LogWhole;
    CutIsTorn(wal, frame, cut, crypto);
    SnocReplays(wal, units, frames, unit, frame, cut, crypto);
  }

  lemma CutIsTorn(wal: Bytes, frame: Bytes, cut: nat, crypto: Crypto)
    requires LogWhole(wal + frame, crypto) && cut <= |frame|
    ensures LogTorn(wal + frame[..cut], crypto)
  {
    hide LogWhole;
    assert (wal + frame)[..|wal| + cut] == wal + frame[..cut];
  }

  lemma LogSnoc(wal: Bytes, units: seq<Unit>, frames: seq<Bytes>, unit: Unit, frame: Bytes, crypto: Crypto)
    requires LogIs(wal, units, frames, crypto) && UnitWellFormed(unit) && Frames(frame, UnitRecord(unit), crypto)
    ensures LogIs(wal + frame, units + [unit], frames + [frame], crypto) && frame != []
  {
    hide Frames, UnitWellFormed, Concat, UnitRecord;
    FrameNonEmpty(frame, UnitRecord(unit), crypto);
    ConcatSnoc(frames, frame);
  }

  lemma FrameNonEmpty(frame: Bytes, record: F.WalRecord, crypto: Crypto)
    requires Frames(frame, record, crypto)
    ensures frame != []
  {
  }

  lemma SnocReplays(wal: Bytes, units: seq<Unit>, frames: seq<Bytes>, unit: Unit, frame: Bytes, cut: nat, crypto: Crypto)
    requires LogIs(wal, units, frames, crypto) && LogIs(wal + frame, units + [unit], frames + [frame], crypto)
    requires cut <= |frame| && frame != []
    ensures ReplayLog(wal, crypto) == Success((Flatten(units), |wal|))
    ensures ReplayLog(wal + frame[..cut], crypto)
         == Success(if cut == |frame| then (Flatten(units) + UnitOps(unit), |wal| + |frame|) else (Flatten(units), |wal|))
  {
    hide Frames, ReplayLog, UnitsWellFormed, Concat, UnitOps, Whole;
    var units', frames' := units + [unit], frames + [frame];
    WholeLogReplays(wal, units, frames, crypto);
    assert wal == Concat(frames);
    WholeSnoc(frames, frame, cut);
    ReplayPrefix(units', frames', crypto, |wal| + cut);
    assert (wal + frame)[..|wal| + cut] == wal + frame[..cut];
    FlattenConcat(units, [unit]);
    FlattenOne(unit);
    assert units'[..|units|] == units && frames'[..|frames|] == frames;
    assert units'[..|units'|] == units' && frames'[..|frames'|] == frames';
  }

  lemma FlattenOne(unit: Unit)
    ensures Flatten([unit]) == UnitOps(unit)
  {
    assert UnitOps(unit) + [] == UnitOps(unit);
  }

  /** What replay keeps of a torn log is a whole log with the same operations. */
  lemma TornLogReplays(wal: Bytes, crypto: Crypto)
    requires LogTorn(wal, crypto)
    ensures ReplayLog(wal, crypto).Success?
    ensures var (ops, reach) := ReplayLog(wal, crypto).value;
      LogWhole(wal[..reach], crypto) && ReplayLog(wal[..reach], crypto) == Success((ops, reach))
  {
    hide Frames, ReplayLog, UnitsWellFormed;
    var whole, cut :| LogWhole(whole, crypto) && 0 <= cut <= |whole| && wal == whole[..cut];
    var units, frames :| LogIs(whole, units, frames, crypto);
    ReplayPrefix(units, frames, crypto, cut);
    var k := Whole(frames, cut);
    WholeFits(frames, cut);
    var kept := Concat(frames[..k]);
    assert wal[..|kept|] == kept;
    assert LogIs(kept, units[..k], frames[..k], crypto) by { PrefixWellFormed(units, k); }
    WholeLogReplays(kept, units[..k], frames[..k], crypto);
  }

  lemma PrefixWellFormed(units: seq<Unit>, k: nat)
    requires UnitsWellFormed(units) && k <= |units|
    ensures UnitsWellFormed(units[..k])
  {
  }

  lemma WholeIsTorn(wal: Bytes, crypto: Crypto)
    requires LogWhole(wal, crypto)
    ensures LogTorn(wal, crypto)
  {
    hide LogWhole;
    assert wal[..|wal|] == wal;
  }

  lemma EmptyLog(crypto: Crypto)
    ensures LogWhole([], crypto) && Logged([], crypto) == map[]
  {
    assert LogIs([], [], [], crypto);
    ReplayEmpty(crypto);
  }

  // ── the directory ──────────────────────────────────────────────────────

  lemma {:induction false} TablesConcat(a: seq<SstOnDisk>, b: seq<SstOnDisk>)
    ensures TablesOf(a + b) == TablesOf(a) + TablesOf(b)
  {
    if a == [] {
      assert a + b == b;
    } else {
      assert (a + b)[1..] == a[1..] + b;
      TablesConcat(a[1..], b);
    }
  }

  lemma StackConcat(a: seq<SstOnDisk>, b: seq<SstOnDisk>)
    ensures Stack(a + b) == Stack(a) + Stack(b)
  {
    TablesConcat(a, b);
    MergeConcat(TablesOf(a), TablesOf(b));
  }

  lemma StackOne(sst: SstOnDisk)
    ensures Stack([sst]) == TableIn(sst) && Stack([]) == map[]
  {
    assert TablesOf([sst]) == [TableIn(sst)] + TablesOf([]);
    MergeOne([], TableIn(sst));
    assert [] + [TableIn(sst)] == [TableIn(sst)];
  }

  lemma {:induction false} PlacedLast(listed: seq<SstOnDisk>, orphan: seq<SstOnDisk>, sst: SstOnDisk)
    requires IdsBelow(listed, sst.id) && |orphan| <= 1 && (|orphan| == 1 ==> orphan[0].id == sst.id)
    ensures Placed(listed + orphan, sst) == listed + [sst]
  {
    if listed == [] {
      assert listed + orphan == orphan;
    } else {
      assert (listed + orphan)[1..] == listed[1..] + orphan;
      PlacedLast(listed[1..], orphan, sst);
    }
  }

  lemma {:induction false} NextIdAbove(ssts: seq<SstOnDisk>)
    ensures IdsBelow(ssts, NextId(ssts))
  {
    if ssts != [] {
      NextIdAbove(ssts[..|ssts| - 1]);
      assert forall i :: 0 <= i < |ssts| - 1 ==> ssts[i] == ssts[..|ssts| - 1][i];
    }
  }

  lemma WrittenIsSound(file: Bytes, id: nat, t: Table, c: Config)
    requires Written(file, id, t, c)
    ensures TableIn(SstOnDisk(id, file, c.crypto)) == t && Sound(SstOnDisk(id, file, c.crypto), c)
  {
    hide LayoutOf, SstScan.Genuine, SstScan.ReadTable, Layout.Seals, Layout.InRange, Layout.Bytes;
    var sealer :| WrittenWith(file, id, t, c, sealer);
    SstScan.WriteIsGenuine(id, t, c.blockSize, c.hasher, sealer, c.crypto);
    SstScan.GenuineReads(SstOnDisk(id, file, c.crypto), c.hasher, t);
  }

  lemma {:induction false} LoadAllSound(ssts: seq<SstOnDisk>, c: Config)
    requires AllSound(ssts, c)
    ensures LoadAll(ssts).Success? && |LoadAll(ssts).value| == |ssts|
  {
    hide SstReader.Load, SstScan.Genuine, TableIn;
    if ssts != [] {
      assert Sound(ssts[0], c);
      SstScan.GenuineGet(ssts[0], c.hasher, TableIn(ssts[0]), []);
      LoadAllSound(ssts[1..], c);
    }
  }

  // ── tables under tables ────────────────────────────────────────────────

  lemma LiveOver(x: Table, y: Table, above: Table)
    requires Live(x) == Live(y)
    ensures Live(x + above) == Live(y + above)
  {
    forall key
      ensures key in Live(x + above) <==> key in Live(y + above)
      ensures key in Live(x + above) ==> Live(x + above)[key] == Live(y + above)[key]
    {
      assert key in Live(x) <==> key in Live(y);
      assert key in Live(x) ==> Live(x)[key] == Live(y)[key];
    }
  }

  lemma AgreesAbsorbs(below: Table, logged: Table, mem: Table)
    requires Agrees(logged, mem)
    ensures below + mem + logged == below + mem
  {
  }

  /** New operations reach the log and the memtable alike. */
  lemma AppendShows(listed: Table, orphan: Table, logged: Table, mem: Table, change: Table)
    requires Agrees(logged, mem) && Live(listed + orphan + logged) == Live(listed + mem)
    ensures Agrees(logged + change, mem + change)
    ensures Live(listed + orphan + (logged + change)) == Live(listed + (mem + change))
  {
    LiveOver(listed + orphan + logged, listed + mem, change);
    hide Live;
    OverlayAssociates(listed + orphan, logged, change);
    OverlayAssociates(listed, mem, change);
  }

  lemma OverlayAssociates(a: Table, b: Table, c: Table)
    ensures a + (b + c) == a + b + c
  {
  }

  lemma ApplyIsOverlay(below: Table, ops: seq<F.WalRecord>, more: seq<F.WalRecord>)
    ensures ApplyOps(ops + more, map[]) == ApplyOps(ops, map[]) + ApplyOps(more, map[])
    ensures Live(below + ApplyOps(ops + more, map[])) == ApplyAllToDb(more, Live(below + ApplyOps(ops, map[])))
  {
    hide Live, ApplyOps, ApplyAllToDb;
    var before, change := ApplyOps(ops, map[]), ApplyOps(more, map[]);
    ApplyOpsConcat(ops, more, map[]);
    OpsAreOverlay(more, before);
    OpsAreOverlay(more, below + before);
    LiveOfOps(more, below + before);
    assert below + (before + change) == below + before + change;
  }

  // ── what each step keeps ───────────────────────────────────────────────

  /** The step keeps the invariant and changes what a reopen would show as `Effect` says. */
  ghost predicate Keeps(s: State, e: Event, s': State, c: Config) {
    Inv(s', c) && Contents(s'.disk, c.crypto) == Effect(e, Contents(s.disk, c.crypto))
  }

  lemma LogGrows(wal: Bytes, unit: Unit, frame: Bytes, cut: nat, below: Table, c: Config)
    requires LogWhole(wal, c.crypto) && UnitWellFormed(unit) && Frames(frame, UnitRecord(unit), c.crypto)
    requires cut <= |frame|
    ensures LogTorn(wal + frame[..cut], c.crypto)
    ensures cut == |frame| ==> LogWhole(wal + frame, c.crypto)
    ensures var before, after := Logged(wal, c.crypto), Logged(wal + frame[..cut], c.crypto);
      if cut < |frame| then after == before
      else
        && after == before + ApplyOps(UnitOps(unit), map[])
        && Live(below + after) == ApplyAllToDb(UnitOps(unit), Live(below + before))
  {
    hide ReplayLog, Frames, UnitWellFormed, UnitRecord, UnitOps, ApplyOps, ApplyAllToDb, Live, LogWhole, LogTorn;
    AppendToLog(wal, unit, frame, cut, c.crypto);
    ApplyIsOverlay(below, LogOps(wal, c.crypto), UnitOps(unit));
  }

  lemma AppendKeeps(s: State, e: Event, s': State, c: Config)
    requires Inv(s, c) && Step(s, e, s', c) && e.Append?
    ensures Keeps(s, e, s', c)
  {
    hide Written, Frames, UnitWellFormed, UnitRecord, UnitOps, ApplyOps, ApplyAllToDb, Live, LogWhole, LogTorn;
    hide Stack, Sound, Logged, Placed, LiveOnly, Unlinked;
    var orphan :| RunningInv(s, orphan, c);
    var ops, wal := UnitOps(e.unit), s.disk.wal;
    assert e.frame[..|e.frame|] == e.frame;
    LogGrows(wal, e.unit, e.frame, |e.frame|, Stack(s.disk.ssts), c);
    OpsAreOverlay(ops, s.mem);
    AppendShows(Stack(s.listed), Stack(orphan), Logged(wal, c.crypto), s.mem, ApplyOps(ops, map[]));
    assert RunningInv(s', orphan, c);
  }

  lemma AppendTornKeeps(s: State, e: Event, s': State, c: Config)
    requires Inv(s, c) && Step(s, e, s', c) && e.AppendTorn?
    ensures Keeps(s, e, s', c)
  {
    hide Written, Frames, UnitWellFormed, UnitRecord, UnitOps, ApplyOps, ApplyAllToDb, Live, LogWhole, LogTorn;
    hide Stack, Sound, Logged, Placed, LiveOnly, Unlinked;
    var orphan :| RunningInv(s, orphan, c);
    LogGrows(s.disk.wal, e.unit, e.frame, e.cut, Stack(s.disk.ssts), c);
  }

  /** What a reopen makes of a frame, or a part of one, behind the log of a running store. */
  lemma AppendedWhole(s: State, e: Event, c: Config)
    requires Inv(s, c) && s.phase.Ready? && e.AppendFails? && e.cut <= |e.frame|
    requires UnitWellFormed(e.unit) && Frames(e.frame, UnitRecord(e.unit), c.crypto)
    ensures Contents(s.disk.(wal := s.disk.wal + e.frame[..e.cut]), c.crypto)
         == if e.cut == |e.frame| then ApplyAllToDb(UnitOps(e.unit), Contents(s.disk, c.crypto))
            else Contents(s.disk, c.crypto)
  {
    hide Sound, Stack, Live, Logged, Frames, UnitWellFormed, UnitRecord, UnitOps, LogWhole, ApplyOps;
    var orphan :| RunningInv(s, orphan, c);
    LogGrows(s.disk.wal, e.unit, e.frame, e.cut, Stack(s.disk.ssts), c);
  }

  /** Only a log without a torn record is whole. */
  lemma WholeIff(wal: Bytes, unit: Unit, frame: Bytes, cut: nat, c: Config)
    requires LogWhole(wal, c.crypto) && UnitWellFormed(unit) && Frames(frame, UnitRecord(unit), c.crypto)
    requires cut <= |frame|
    ensures LogWhole(wal + frame[..cut], c.crypto) <==> cut == 0 || cut == |frame|
  {
    hide ReplayLog, Frames, UnitWellFormed, UnitRecord, UnitOps, LogTorn, LogIs;
    var units, frames :| LogIs(wal, units, frames, c.crypto);
    WholeLogReplays(wal, units, frames, c.crypto);
    AppendToLog(wal, unit, frame, cut, c.crypto);
    assert frame[..0] == [] && wal + [] == wal && frame[..|frame|] == frame;
    if LogWhole(wal + frame[..cut], c.crypto) {
      var units', frames' :| LogIs(wal + frame[..cut], units', frames', c.crypto);
      WholeLogReplays(wal + frame[..cut], units', frames', c.crypto);
    }
  }

  lemma AppendFailsKeeps(s: State, e: Event, s': State, c: Config)
    requires Inv(s, c) && Step(s, e, s', c) && e.AppendFails?
    ensures Keeps(s, e, s', c) <==> AppendSafe(s.mem, e.unit, e.frame, e.cut)
  {
    hide Written, Frames, UnitWellFormed, UnitRecord, UnitOps, ApplyOps, ApplyAllToDb, Live, LogWhole, LogTorn;
    hide Stack, Sound, Logged, Placed, LiveOnly, Unlinked, NoResurrection;
    var orphan :| RunningInv(s, orphan, c);
    var wal, wal' := s.disk.wal, s'.disk.wal;
    WholeIff(wal, e.unit, e.frame, e.cut, c);
    LogGrows(wal, e.unit, e.frame, e.cut, Stack(s.disk.ssts), c);
    var logged, change := Logged(wal, c.crypto), ApplyOps(UnitOps(e.unit), map[]);
    if AppendSafe(s.mem, e.unit, e.frame, e.cut) {
      if e.cut == 0 {
        assert wal + e.frame[..0] == wal;
      } else {
        AppendShows(Stack(s.listed), Stack(orphan), logged, s.mem, change);
        assert s.mem + change == s.mem;
      }
      assert RunningInv(s', orphan, c);
    }
    if Inv(s', c) {
      var orphan' :| RunningInv(s', orphan', c);
      assert Agrees(Logged(wal', c.crypto), s.mem);
      assert forall key :: key in change ==> key in logged + change && (logged + change)[key] == change[key];
    }
  }

  lemma ReopenKeeps(s: State, e: Event, s': State, c: Config)
    requires Inv(s, c) && Step(s, e, s', c) && e.Reopen?
    ensures Keeps(s, e, s', c)
  {
    hide Written, ApplyOps, Live, LogWhole, LogTorn, ReplayLog, NextId;
    hide Sound, Placed, LiveOnly, Unlinked, LoadAll, Merge;
    TornLogReplays(s.disk.wal, c.crypto);
    NextIdAbove(s.disk.ssts);
    StackOne(SstOnDisk(0, [], None));
    var stack, logged := Stack(s.disk.ssts), Logged(s.disk.wal, c.crypto);
    assert stack + map[] == stack;
    assert s'.listed + [] == s'.disk.ssts && [] + s'.listed == s'.listed;
    assert Stack([]) == map[];
    assert RunningInv(s', [], c);
  }

  /** What a running store's directory holds, and what a reopen would make of it: the files below the listed
      ones stay hidden. */
  lemma Directory(s: State, orphan: seq<SstOnDisk>, c: Config)
    requires RunningInv(s, orphan, c)
    ensures s.disk.ssts == Below(s) + s.listed + orphan
    ensures Contents(s.disk, c.crypto) == Live(Stack(s.listed) + Stack(orphan) + Logged(s.disk.wal, c.crypto))
  {
    hide Live, Stack, Logged, LogWhole, ApplyOps;
    var below, listed, top, logged := Stack(Below(s)), Stack(s.listed), Stack(orphan), Logged(s.disk.wal, c.crypto);
    StackConcat(Below(s) + s.listed, orphan);
    StackConcat(Below(s), s.listed);
    HiddenUnder(below, listed, top + logged);
    OverlayAssociates(below + listed, top, logged);
    OverlayAssociates(listed, top, logged);
  }

  /** Renaming a new file into place keeps all others but whatever had its number. */
  lemma NewFile(s: State, orphan: seq<SstOnDisk>, file: Bytes, t: Table, c: Config)
    requires Inv(s, c) && RunningInv(s, orphan, c) && s.phase.Ready? && Written(file, s.nextId, t, c)
    ensures var sst := SstOnDisk(s.nextId, file, c.crypto);
      && TableIn(sst) == t && Stack([sst]) == t && Sound(sst, c)
      && Placed(s.disk.ssts, sst) == s.leftover + s.listed + [sst]
      && Stack(s.listed + [sst]) == Stack(s.listed) + t
      && AllSound(s.leftover + s.listed + [sst], c) && AscendingIds(s.leftover + s.listed + [sst])
  {
    hide Written, Live, LogWhole, Sound, TableIn, Logged, ApplyOps, NoResurrection, Stack, AllSound, AscendingIds;
    var sst, older := SstOnDisk(s.nextId, file, c.crypto), s.leftover + s.listed;
    WrittenIsSound(file, s.nextId, t, c);
    PlacedLast(older, orphan, sst);
    StackConcat(s.listed, [sst]);
    StackOne(sst);
    NewLast(older, orphan, sst, c);
  }

  lemma NewLast(older: seq<SstOnDisk>, orphan: seq<SstOnDisk>, sst: SstOnDisk, c: Config)
    requires AllSound(older + orphan, c) && AscendingIds(older + orphan) && IdsBelow(older, sst.id) && Sound(sst, c)
    ensures AllSound(older + [sst], c) && AscendingIds(older + [sst])
  {
    hide Sound;
    assert forall i :: 0 <= i < |older| ==> (older + orphan)[i] == older[i] == (older + [sst])[i];
  }

  /** The new file is listed. */
  lemma Listing(s: State, sst: SstOnDisk, t: Table)
    requires IdsBelow(s.leftover + s.listed, s.nextId) && sst.id == s.nextId
    requires NoResurrection(Stack(s.leftover), Stack(s.listed)) && Stack(s.listed + [sst]) == Stack(s.listed) + t
    ensures IdsBelow(s.leftover + (s.listed + [sst]), s.nextId + 1)
    ensures NoResurrection(Stack(s.leftover), Stack(s.listed + [sst]))
  {
    hide Stack, Live;
    HiddenUnder(Stack(s.leftover), Stack(s.listed), t);
    var older, all := s.leftover + s.listed, s.leftover + (s.listed + [sst]);
    assert forall i :: 0 <= i < |older| ==> all[i] == older[i];
  }

  lemma FlushRenameKeeps(s: State, e: Event, s': State, c: Config)
    requires Inv(s, c) && Step(s, e, s', c) && e.FlushRename?
    ensures Keeps(s, e, s', c)
  {
    hide Written, Live, LogWhole, Sound, TableIn, Logged, Stack, Placed, LiveOnly, Unlinked, NoResurrection;
    var orphan :| RunningInv(s, orphan, c);
    var sst, logged := SstOnDisk(s.nextId, e.file, c.crypto), Logged(s.disk.wal, c.crypto);
    NewFile(s, orphan, e.file, s.mem, c);
    Directory(s, orphan, c);
    AgreesAbsorbs(Stack(s.listed), logged, s.mem);
    assert RunningInv(s', [sst], c);
    Directory(s', [sst], c);
  }

  lemma FlushTruncateKeeps(s: State, e: Event, s': State, c: Config)
    requires Inv(s, c) && Step(s, e, s', c) && e.FlushTruncate?
    ensures Keeps(s, e, s', c)
  {
    hide Written, Live, LogWhole, Sound, TableIn, Logged, Stack, Placed, LiveOnly, Unlinked, NoResurrection;
    var orphan :| RunningInv(s, orphan, c);
    assert orphan == [orphan[0]];
    StackOne(orphan[0]);
    Directory(s, orphan, c);
    AgreesAbsorbs(Stack(s.listed), Logged(s.disk.wal, c.crypto), s.mem);
    EmptyLog(c.crypto);
    assert RunningInv(s', orphan, c);
    Directory(s', orphan, c);
    assert Stack(s.listed) + s.mem + map[] == Stack(s.listed) + s.mem;
  }

  lemma FlushFinishKeeps(s: State, e: Event, s': State, c: Config)
    requires Inv(s, c) && Step(s, e, s', c) && e.FlushFinish?
    ensures Keeps(s, e, s', c)
  {
    hide Written, Live, LogWhole, Sound, TableIn, Logged, Stack, Placed, LiveOnly, Unlinked, NoResurrection;
    var orphan :| RunningInv(s, orphan, c);
    var sst := orphan[0];
    assert orphan == [sst] && s.disk.ssts[|s.disk.ssts| - 1] == sst;
    EmptyLog(c.crypto);
    StackOne(sst);
    StackConcat(s.listed, [sst]);
    Listing(s, sst, s.mem);
    assert s.leftover + s.listed + orphan == s.leftover + s'.listed == s.leftover + s'.listed + [];
    var stack := Stack(s'.listed);
    assert stack + map[] + map[] == stack + map[];
    assert RunningInv(s', [], c);
  }

  lemma FlushErrorKeeps(s: State, e: Event, s': State, c: Config)
    requires Inv(s, c) && Step(s, e, s', c) && e.FlushError?
    ensures Keeps(s, e, s', c)
  {
    hide Written, Live, LogWhole, Sound, TableIn, Logged, Stack, Placed, LiveOnly, Unlinked, NoResurrection;
    var orphan :| RunningInv(s, orphan, c);
    assert orphan == [orphan[0]];
    EmptyLog(c.crypto);
    StackOne(orphan[0]);
    AgreesAbsorbs(Stack(s.listed), Logged(s.disk.wal, c.crypto), s.mem);
    assert RunningInv(s', orphan, c);
  }

  /** A full merge shows what its inputs showed, and hides whatever its inputs hid. */
  lemma MergedShows(below: Table, stack: Table)
    requires NoResurrection(below, stack)
    ensures Live(stack + LiveOnly(stack) + map[]) == Live(stack) == Live(stack + map[] + map[]) == Live(stack + map[])
    ensures Live(LiveOnly(stack)) == Live(stack) && NoResurrection(below + stack, LiveOnly(stack))
  {
    LiveOnlyOnTop(stack);
    assert stack + LiveOnly(stack) + map[] == stack + LiveOnly(stack) && stack + map[] == stack;
  }

  lemma MergeRenameKeeps(s: State, e: Event, s': State, c: Config)
    requires Inv(s, c) && Step(s, e, s', c) && e.MergeRename?
    ensures Keeps(s, e, s', c)
  {
    hide Written, Live, LogWhole, Sound, TableIn, Logged, Stack, Placed, LiveOnly, Unlinked, NoResurrection;
    var orphan :| RunningInv(s, orphan, c);
    var sst, stack := SstOnDisk(s.nextId, e.file, c.crypto), Stack(s.listed);
    NewFile(s, orphan, e.file, LiveOnly(stack), c);
    Directory(s, orphan, c);
    assert Logged(s.disk.wal, c.crypto) == map[];
    MergedShows(Stack(s.leftover), stack);
    StackConcat(s.leftover, s.listed);
    StackOne(sst);
    assert s'.disk.ssts == Below(s') + s'.listed + [];
    assert RunningInv(s', [], c);
    Directory(s', [], c);
    var merged := LiveOnly(stack);
    assert merged + map[] + map[] == merged;
  }

  lemma MergeErrorKeeps(s: State, e: Event, s': State, c: Config)
    requires Inv(s, c) && Step(s, e, s', c) && e.MergeError?
    ensures Keeps(s, e, s', c)
  {
    hide Written, Live, LogWhole, Sound, TableIn, Logged, Stack, Placed, LiveOnly, Unlinked, NoResurrection;
    var orphan :| RunningInv(s, orphan, c);
    var sst, stack := SstOnDisk(s.nextId, e.file, c.crypto), Stack(s.listed);
    NewFile(s, orphan, e.file, LiveOnly(stack), c);
    Directory(s, orphan, c);
    assert Logged(s.disk.wal, c.crypto) == map[];
    MergedShows(Stack(s.leftover), stack);
    assert RunningInv(s', [sst], c);
    Directory(s', [sst], c);
  }

  /** Removing one file from the middle of a directory. */
  lemma {:induction false} UnlinkedMiddle(older: seq<SstOnDisk>, sst: SstOnDisk, newer: seq<SstOnDisk>)
    requires AscendingIds(older + [sst] + newer)
    ensures Unlinked(older + [sst] + newer, sst.id) == older + newer && AscendingIds(older + newer)
  {
    var all := older + [sst] + newer;
    MiddleAscends(older, sst, newer);
    hide AscendingIds;
    if older == [] {
      assert all[0] == sst && all[1..] == newer == older + newer;
    } else {
      assert all[0] == older[0] && older[0].id != sst.id;
      assert all[1..] == older[1..] + [sst] + newer;
      UnlinkedMiddle(older[1..], sst, newer);
      assert older + newer == [older[0]] + (older[1..] + newer);
    }
  }

  lemma MiddleAscends(older: seq<SstOnDisk>, sst: SstOnDisk, newer: seq<SstOnDisk>)
    requires AscendingIds(older + [sst] + newer)
    ensures AscendingIds(older + newer)
    ensures older != [] ==> older[0].id != sst.id && AscendingIds(older[1..] + [sst] + newer)
  {
    var all := older + [sst] + newer;
    assert forall i :: 0 <= i < |older + newer| ==> (older + newer)[i] == all[if i < |older| then i else i + 1];
    if older != [] {
      assert all[0] == older[0] && all[|older|] == sst;
      assert all[1..] == older[1..] + [sst] + newer;
    }
  }

  /** What the directory is once the next stale file is gone. */
  lemma Removal(s: State, e: Event, s': State, c: Config)
    requires Inv(s, c) && Step(s, e, s', c) && e.RemoveOld?
    ensures s'.disk.ssts == Below(s') + s.listed && AllSound(s'.disk.ssts, c) && AscendingIds(s'.disk.ssts)
    ensures IdsBelow(s'.disk.ssts, s.nextId)
    ensures Contents(s.disk, c.crypto) == Live(Stack(s.listed))
    ensures Contents(s'.disk, c.crypto) == Live(Stack(Below(s')) + Stack(s.listed))
  {
    hide Written, Live, LogWhole, Sound, TableIn, Logged, Placed, LiveOnly, Stack, Unlinked, NoResurrection;
    var orphan :| RunningInv(s, orphan, c);
    var sst, newer := s.phase.stale[0], s.phase.stale[1..] + s.listed;
    assert s.disk.ssts == s.leftover + [sst] + newer;
    UnlinkedMiddle(s.leftover, sst, newer);
    assert s'.disk.ssts == s.leftover + newer == Below(s') + s.listed;
    assert forall i :: 0 <= i < |s'.disk.ssts| ==>
        s'.disk.ssts[i] == s.disk.ssts[if i < |s.leftover| then i else i + 1];
    assert s.disk.ssts == Below(s) + s.listed;
    Directory(s, orphan, c);
    StackConcat(Below(s'), s.listed);
    StackOne(sst);
    var listed, both := Stack(s.listed), Stack(Below(s')) + Stack(s.listed);
    assert listed + map[] + map[] == listed && both + map[] == both;
  }

  lemma RemoveOldKeeps(s: State, e: Event, s': State, c: Config)
    requires Inv(s, c) && Step(s, e, s', c) && e.RemoveOld?
    ensures Keeps(s, e, s', c) <==> RemovalSafe(s)
    ensures RemovalSafe(s) <==> Contents(s'.disk, c.crypto) == Contents(s.disk, c.crypto)
  {
    hide Written, Live, LogWhole, Sound, TableIn, Logged, Placed, LiveOnly, Merge, Stack, Frames, Unlinked;
    hide NoResurrection;
    var orphan :| RunningInv(s, orphan, c);
    Removal(s, e, s', c);
    HiddenIff(Stack(Below(s')), Stack(s.listed));
    if RemovalSafe(s) {
      assert s'.disk.ssts == Below(s') + s'.listed + [];
      assert RunningInv(s', [], c);
    }
  }

  lemma RemoveFailsKeeps(s: State, e: Event, s': State, c: Config)
    requires Inv(s, c) && Step(s, e, s', c) && e.RemoveFails?
    ensures Keeps(s, e, s', c)
  {
    hide Written, Live, LogWhole, Sound, TableIn, Logged, Placed, LiveOnly, Stack, NoResurrection;
    var orphan :| RunningInv(s, orphan, c);
    var stale := s.phase.stale;
    assert Below(s') == Below(s);
    assert RunningInv(s', orphan, c);
  }

  lemma MergeFinishKeeps(s: State, e: Event, s': State, c: Config)
    requires Inv(s, c) && Step(s, e, s', c) && e.MergeFinish?
    ensures Keeps(s, e, s', c)
  {
    hide Written, Live, LogWhole, Sound, TableIn, Logged, Placed, LiveOnly, Stack, NoResurrection;
    var orphan :| RunningInv(s, orphan, c);
    StackOne(SstOnDisk(0, [], None));
    var stack := Stack(s.listed);
    assert stack + map[] + map[] == stack + map[];
    assert s.leftover + [] == s.leftover;
    assert RunningInv(s', [], c);
  }

  lemma UpdateKeeps(s: State, e: Event, s': State, c: Config)
    requires Inv(s, c) && Step(s, e, s', c) && (e.Update? || e.Return? || e.Crash?)
    ensures Keeps(s, e, s', c)
  {
    hide Written, Live, LogWhole, LogTorn, Sound, TableIn, Logged, Placed, LiveOnly, Stack, NoResurrection;
    var orphan :| RunningInv(s, orphan, c);
    if e.Crash? {
      WholeIsTorn(s.disk.wal, c.crypto);
    } else {
      assert RunningInv(s', orphan, c);
    }
  }

  /** Every step, crashes and failures included, keeps the invariant and changes what a reopen would show
      only by a whole record written to the log, exactly when it is safe. Only two steps can be unsafe:
      removing a file that hid a live key of an older one whose removal failed, and going on after an
      append that failed with some of its bytes written. */
  lemma StepKeeps(s: State, e: Event, s': State, c: Config)
    requires Inv(s, c) && Step(s, e, s', c)
    ensures Keeps(s, e, s', c) <==> Safe(s, e)
  {
    hide Inv, Step, Keeps, RemovalSafe, AppendSafe;
    match e
    case Reopen => ReopenKeeps(s, e, s', c);
    case Append(_, _) => AppendKeeps(s, e, s', c);
    case AppendTorn(_, _, _) => AppendTornKeeps(s, e, s', c);
    case AppendFails(_, _, _) => AppendFailsKeeps(s, e, s', c);
    case Update => UpdateKeeps(s, e, s', c);
    case Return(_) => UpdateKeeps(s, e, s', c);
    case FlushRename(_) => FlushRenameKeeps(s, e, s', c);
    case FlushTruncate => FlushTruncateKeeps(s, e, s', c);
    case FlushFinish => FlushFinishKeeps(s, e, s', c);
    case FlushError => FlushErrorKeeps(s, e, s', c);
    case MergeRename(_) => MergeRenameKeeps(s, e, s', c);
    case MergeError(_) => MergeErrorKeeps(s, e, s', c);
    case RemoveOld => RemoveOldKeeps(s, e, s', c);
    case RemoveFails => RemoveFailsKeeps(s, e, s', c);
    case MergeFinish => MergeFinishKeeps(s, e, s', c);
    case Crash => UpdateKeeps(s, e, s', c);
  }

  /** While nothing alive is left over, removing the oldest stale file is safe. */
  lemma CleanRemovalSafe(s: State, c: Config)
    requires Inv(s, c) && s.phase.Merging? && s.phase.stale != [] && Live(Stack(s.leftover)) == map[]
    ensures RemovalSafe(s)
  {
    hide LogWhole, Sound, Logged, TableIn, Stack;
    var orphan :| RunningInv(s, orphan, c);
    var oldest, more := [s.phase.stale[0]], s.phase.stale[1..];
    assert s.phase.stale == oldest + more;
    StackConcat(s.leftover, s.phase.stale);
    StackConcat(oldest, more);
    StackConcat(s.leftover, more);
    LifelessBelow(Stack(s.leftover), Stack(oldest), Stack(more), Stack(s.listed));
  }

  lemma LifelessBelow(leftover: Table, oldest: Table, more: Table, merged: Table)
    requires Live(leftover) == map[] && NoResurrection(leftover + (oldest + more), merged)
    ensures NoResurrection(leftover + more, merged)
  {
    forall key | key in leftover + more && key !in merged
      ensures (leftover + more)[key].None?
    {
      assert key in leftover + (oldest + more);
      assert key !in Live(leftover);
    }
  }

  lemma RemoveStep(s: State, s': State, c: Config)
    requires s.phase.Merging? && s.phase.stale != []
    requires s' == s.(disk := s.disk.(ssts := Unlinked(s.disk.ssts, s.phase.stale[0].id)),
                      phase := Merging(s.phase.stale[1..]))
    ensures Step(s, RemoveOld, s', c)
  {
    hide Unlinked;
  }

  lemma RemoveFailsStep(s: State, s': State, c: Config)
    requires s.phase.Merging? && s.phase.stale != []
    requires s' == s.(phase := Merging(s.phase.stale[1..]), leftover := s.leftover + [s.phase.stale[0]])
    ensures Step(s, RemoveFails, s', c)
  {
  }

  lemma ReopenStep(s: State, s': State, c: Config)
    requires s.phase.Down? && Open(s.disk, c.crypto) == Success(s')
    ensures Step(s, Reopen, s', c)
  {
  }

  lemma AppendStep(s: State, unit: Unit, frame: Bytes, c: Config)
    requires s.phase.Ready? && s.inFlight.None? && UnitWellFormed(unit) && Frames(frame, UnitRecord(unit), c.crypto)
    ensures var s1 := s.(disk := s.disk.(wal := s.disk.wal + frame), phase := Appended, inFlight := Some(unit));
      var s2 := s1.(phase := Ready, mem := ApplyOps(UnitOps(unit), s.mem));
      Step(s, Append(unit, frame), s1, c) && Step(s1, Update, s2, c)
  {
    hide UnitWellFormed, Frames, UnitOps, ApplyOps;
  }

  lemma ReturnStep(s: State, ok: bool, c: Config)
    requires s.phase.Ready? && s.inFlight.Some?
    ensures Step(s, Return(ok), s.(inFlight := None), c)
  {
  }

  lemma RenameStep(s: State, file: Bytes, c: Config)
    requires Inv(s, c) && s.phase.Ready? && s.mem != map[] && Written(file, s.nextId, s.mem, c)
    ensures var sst := SstOnDisk(s.nextId, file, c.crypto);
      var s' := s.(disk := s.disk.(ssts := Placed(s.disk.ssts, sst)), phase := Renamed);
      && Step(s, FlushRename(file), s', c)
      && s'.disk.ssts == s.leftover + s.listed + [sst] && Stack(s.listed + [sst]) == Stack(s.listed) + s.mem
  {
    hide Written, LogWhole, Sound, Stack, Logged, Placed, Frames, TableIn, AllSound;
    var orphan :| RunningInv(s, orphan, c);
    NewFile(s, orphan, file, s.mem, c);
  }

  lemma TruncateStep(s: State, c: Config)
    requires s.phase.Renamed?
    ensures Step(s, FlushTruncate, s.(disk := s.disk.(wal := []), phase := Truncated), c)
  {
  }

  lemma FlushFinishStep(s: State, sst: SstOnDisk, c: Config)
    requires s.phase.Truncated? && s.disk.ssts == s.leftover + s.listed + [sst]
    ensures Step(s, FlushFinish,
                 s.(phase := Ready, mem := map[], listed := s.listed + [sst], nextId := s.nextId + 1), c)
  {
  }

  lemma MergeStep(s: State, file: Bytes, c: Config)
    requires Inv(s, c) && s.phase.Ready? && s.mem == map[] && s.listed != []
    requires Written(file, s.nextId, LiveOnly(Stack(s.listed)), c)
    ensures var sst := SstOnDisk(s.nextId, file, c.crypto);
      Step(s, MergeRename(file),
           s.(disk := s.disk.(ssts := Placed(s.disk.ssts, sst)), phase := Merging(s.listed), listed := [sst],
              nextId := s.nextId + 1), c)
  {
    hide Written, LogWhole, Sound, Stack, Logged, Placed, Frames, Inv;
  }

  lemma FlushErrorStep(s: State, c: Config)
    requires s.phase.Renamed? || s.phase.Truncated?
    ensures Step(s, FlushError, s.(phase := Ready), c)
  {
  }

  lemma MergeErrorStep(s: State, file: Bytes, c: Config)
    requires s.phase.Ready? && s.mem == map[] && s.listed != []
    requires Written(file, s.nextId, LiveOnly(Stack(s.listed)), c)
    ensures var sst := SstOnDisk(s.nextId, file, c.crypto);
      Step(s, MergeError(file), s.(disk := s.disk.(ssts := Placed(s.disk.ssts, sst))), c)
  {
    hide Written, Stack, Placed, Frames;
  }

  lemma AppendFailsStep(s: State, e: Event, s': State, c: Config)
    requires e.AppendFails? && s.phase.Ready? && s.inFlight.None? && e.cut <= |e.frame|
    requires UnitWellFormed(e.unit) && Frames(e.frame, UnitRecord(e.unit), c.crypto)
    requires s' == s.(disk := s.disk.(wal := s.disk.wal + e.frame[..e.cut]))
    ensures Step(s, e, s', c)
  {
    hide UnitWellFormed, Frames, UnitRecord;
  }

  lemma FinishStep(s: State, c: Config)
    requires s.phase == Merging([])
    ensures Step(s, MergeFinish, s.(phase := Ready), c)
  {
  }

  lemma CrashStep(s: State, c: Config)
    requires !s.phase.Down?
    ensures Step(s, Crash, s.(phase := Down), c)
  {
  }

  /** After any crash an open succeeds. */
  lemma ReopenSucceeds(s: State, c: Config)
    requires Inv(s, c) && s.phase.Down?
    ensures Open(s.disk, c.crypto).Success?
  {
    hide LogTorn, ReplayLog, Sound, LoadAll, NextId;
    LoadAllSound(s.disk.ssts, c);
    TornLogReplays(s.disk.wal, c.crypto);
    var loaded, replayed := LoadAll(s.disk.ssts), ReplayLog(s.disk.wal, c.crypto);
    assert !loaded.IsFailure() && !replayed.IsFailure();
  }
}
