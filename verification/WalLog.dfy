/** The log file (`store::wal`): append, torn-tail tolerant replay, reset; plain or sealed. */
module WalLog {
  import opened Bytes
  import opened Results
  import opened Aead
  import opened CryptoFormat
  import F = WalFormat

  /** What one append writes: a single put or delete, or a whole batch. */
  datatype Unit = One(record: F.WalRecord) | Group(ops: seq<F.BatchOp>)

  function UnitRecord(u: Unit): F.WalRecord {
    match u
    case One(record) => record
    case Group(ops) => F.WalRecord(F.Batch, [], Some(F.BatchPayload(ops)))
  }

  function Flat(op: F.BatchOp): F.WalRecord {
    F.WalRecord(op.op, op.key, op.value)
  }

  function FlatAll(ops: seq<F.BatchOp>): (r: seq<F.WalRecord>)
    ensures |r| == |ops|
  {
    if ops == [] then [] else [Flat(ops[0])] + FlatAll(ops[1..])
  }

  /** The single operations a unit stands for. */
  function UnitOps(u: Unit): seq<F.WalRecord> {
    match u
    case One(record) => [record]
    case Group(ops) => FlatAll(ops)
  }

  function Flatten(units: seq<Unit>): seq<F.WalRecord> {
    if units == [] then [] else UnitOps(units[0]) + Flatten(units[1..])
  }

  /** What the engine hands to the log. */
  predicate UnitWellFormed(u: Unit) {
    match u
    case One(record) => F.WellFormed(record) && !record.op.Batch?
    case Group(ops) =>
      F.SubOpsWellFormed(ops) && |ops| <= F.MAX_BATCH_OPS && |F.BatchPayload(ops)| < U32_LIMIT
  }

  predicate UnitsWellFormed(units: seq<Unit>) {
    forall i :: 0 <= i < |units| ==> UnitWellFormed(units[i])
  }

  // ── replay ─────────────────────────────────────────────────────────────

  function DecodeNext(buf: Bytes, crypto: Crypto): (res: Result<Option<(F.WalRecord, nat)>>)
    ensures res.Success? && res.value.Some? ==> 0 < res.value.value.1 <= |buf|
  {
    if crypto.None? then F.Decode(buf)
    else
      var envelope :- DecodeWalEnvelope(buf);
      if envelope.None? then Success(None)
      else
        var (nonce, ciphertext, consumed) := envelope.value;
        var plain := crypto.value.OpenSealed(nonce, ciphertext, WalEnvelopeAad());
        if plain.None? then Failure(CorruptWal)
        else
          var inner :- F.Decode(plain.value);
          if inner.Some? && inner.value.1 == |plain.value| then Success(Some((inner.value.0, consumed)))
          else Failure(CorruptWal)
  }

  function Expand(record: F.WalRecord): Result<seq<F.WalRecord>> {
    if record.op.Batch? then
      var ops :- F.ParseBatch(F.Payload(record.value));
      Success(FlatAll(ops))
    else Success([record])
  }

  /** The operations of every complete record at the front of `buf`, and how far those records reach. */
  function ReplayLog(buf: Bytes, crypto: Crypto): (res: Result<(seq<F.WalRecord>, nat)>)
    ensures res.Success? ==> res.value.1 <= |buf|
    decreases |buf|
  {
    if buf == [] then Success(([], 0))
    else
      var next :- DecodeNext(buf, crypto);
      if next.None? then Success(([], 0))
      else
        var (record, consumed) := next.value;
        var ops :- Expand(record);
        var (more, reach) :- ReplayLog(buf[consumed..], crypto);
        Success((ops + more, consumed + reach))
  }

  /** `frame` is one appended record: it reads back as `record` whatever follows, and cut short it is a torn tail. */
  ghost predicate Frames(frame: Bytes, record: F.WalRecord, crypto: Crypto) {
    && frame != []
    && (forall tail :: DecodeNext(frame + tail, crypto) == Success(Some((record, |frame|))))
    && (forall cut: nat :: cut < |frame| ==> DecodeNext(frame[..cut], crypto) == Success(None))
  }

  function Concat(frames: seq<Bytes>): Bytes {
    if frames == [] then [] else frames[0] + Concat(frames[1..])
  }

  /** How many frames lie wholly within the first `cut` bytes. */
  function Whole(frames: seq<Bytes>, cut: nat): (k: nat)
    ensures k <= |frames|
  {
    if frames == [] || cut < |frames[0]| then 0 else 1 + Whole(frames[1..], cut - |frames[0]|)
  }

  /** A unit comes back as its operations: a batch is expanded to all of its sub-operations. */
  lemma ExpandUnit(u: Unit)
    requires UnitWellFormed(u)
    ensures Expand(UnitRecord(u)) == Success(UnitOps(u))
  {
    if u.Group? {
      F.BatchRoundTrip(u.ops);
    }
  }

  lemma ConcatTake(frames: seq<Bytes>, cut: nat)
    requires frames != [] && |frames[0]| <= cut <= |Concat(frames)|
    ensures cut - |frames[0]| <= |Concat(frames[1..])|
    ensures Concat(frames)[..cut] == frames[0] + Concat(frames[1..])[..cut - |frames[0]|]
  {
  }

  lemma TakeOneMore(units: seq<Unit>, frames: seq<Bytes>, k: nat)
    requires units != [] && frames != [] && k < |units| && k < |frames|
    ensures Flatten(units[..k + 1]) == UnitOps(units[0]) + Flatten(units[1..][..k])
    ensures |Concat(frames[..k + 1])| == |frames[0]| + |Concat(frames[1..][..k])|
  {
    hide UnitOps;
    assert units[..k + 1][0] == units[0] && units[..k + 1][1..] == units[1..][..k];
    assert frames[..k + 1][0] == frames[0] && frames[..k + 1][1..] == frames[1..][..k];
  }

  /** One complete frame at the front of the log. */
  lemma ReplayFrame(u: Unit, frame: Bytes, tail: Bytes, crypto: Crypto)
    requires UnitWellFormed(u) && Frames(frame, UnitRecord(u), crypto)
    ensures ReplayLog(frame + tail, crypto)
         == match ReplayLog(tail, crypto)
            case Failure(e) => Failure(e)
            case Success((more, reach)) => Success((UnitOps(u) + more, |frame| + reach))
  {
    hide DecodeNext, Expand, UnitRecord, UnitOps, UnitWellFormed;
    assert (frame + tail)[|frame|..] == tail;
    ExpandUnit(u);
  }

  lemma ReplayTorn(frame: Bytes, record: F.WalRecord, crypto: Crypto, cut: nat)
    requires Frames(frame, record, crypto) && cut < |frame|
    ensures ReplayLog(frame[..cut], crypto) == Success(([], 0))
  {
    hide DecodeNext, Expand;
  }

  /** Replaying any byte prefix of a log gives the operations of exactly the records it wholly
      contains, and never an error; since a batch is one record, all or none of it is replayed. */
  lemma {:induction false} ReplayPrefix(units: seq<Unit>, frames: seq<Bytes>, crypto: Crypto, cut: nat)
    requires |units| == |frames| && UnitsWellFormed(units) && cut <= |Concat(frames)|
    requires forall i :: 0 <= i < |units| ==> Frames(frames[i], UnitRecord(units[i]), crypto)
    ensures var k := Whole(frames, cut);
      ReplayLog(Concat(frames)[..cut], crypto) == Success((Flatten(units[..k]), |Concat(frames[..k])|))
  {
    hide ReplayLog, Frames, UnitRecord, UnitOps, UnitWellFormed;
    if frames == [] {
      ReplayEmpty(crypto);
    } else if cut < |frames[0]| {
      ReplayTorn(frames[0], UnitRecord(units[0]), crypto, cut);
      assert Concat(frames)[..cut] == frames[0][..cut];
    } else {
      var rest := cut - |frames[0]|;
      ConcatTake(frames, cut);
      ReplayFrame(units[0], frames[0], Concat(frames[1..])[..rest], crypto);
      ReplayPrefix(units[1..], frames[1..], crypto, rest);
      TakeOneMore(units, frames, Whole(frames[1..], rest));
    }
  }

  lemma ReplayEmpty(crypto: Crypto)
    ensures ReplayLog([], crypto) == Success(([], 0))
  {
  }

  // ── frames of the two modes ────────────────────────────────────────────

  lemma PlainFrame(u: Unit)
    requires UnitWellFormed(u)
    ensures Frames(F.Encoded(UnitRecord(u)), UnitRecord(u), None)
  {
    hide F.Decode, F.Encoded;
    var record := UnitRecord(u);
    var frame := F.Encoded(record);
    forall tail
      ensures DecodeNext(frame + tail, None) == Success(Some((record, |frame|)))
    {
      F.DecodeEncoded(record, tail);
    }
    forall cut: nat | cut < |frame|
      ensures DecodeNext(frame[..cut], None) == Success(None)
    {
      F.DecodeTorn(record, cut);
    }
    F.EncodedNonEmpty(record);
  }

  /** The seal an encrypted log makes of one record. */
  ghost predicate SealOf(s: Seal, record: F.WalRecord, ctx: CryptoContext) {
    && s in ctx.seals && s.key == ctx.dek && s.aad == WalEnvelopeAad()
    && s.plain == F.Encoded(record) && |s.ciphertext| < U32_LIMIT
  }

  lemma SealedFrame(u: Unit, s: Seal, ctx: CryptoContext)
    requires UnitWellFormed(u) && Fresh(ctx.seals) && SealOf(s, UnitRecord(u), ctx) && |s.nonce| == NONCE_LEN
    ensures Frames(WalEnvelope(s.nonce, s.ciphertext), UnitRecord(u), Some(ctx))
  {
    hide F.Decode, F.Encoded, DecodeWalEnvelope, WalEnvelopeAad;
    var record := UnitRecord(u);
    var frame := WalEnvelope(s.nonce, s.ciphertext);
    OpenExactly(ctx.seals, s, ctx.dek, WalEnvelopeAad());
    F.DecodeEncoded(record, []);
    assert F.Encoded(record) + [] == F.Encoded(record);
    forall tail
      ensures DecodeNext(frame + tail, Some(ctx)) == Success(Some((record, |frame|)))
    {
      WalEnvelopeRoundTrip(s.nonce, s.ciphertext, tail);
    }
    forall cut: nat | cut < |frame|
      ensures DecodeNext(frame[..cut], Some(ctx)) == Success(None)
    {
      WalEnvelopeTorn(s.nonce, s.ciphertext, cut);
    }
  }

  // ── whole logs ─────────────────────────────────────────────────────────

  function PlainFrames(units: seq<Unit>): (r: seq<Bytes>)
    ensures |r| == |units|
  {
    if units == [] then [] else [F.Encoded(UnitRecord(units[0]))] + PlainFrames(units[1..])
  }

  /** The bytes of a plaintext log. */
  function Log(units: seq<Unit>): Bytes {
    Concat(PlainFrames(units))
  }

  lemma {:induction false} PlainFramesAre(units: seq<Unit>, i: nat)
    requires UnitsWellFormed(units) && i < |units|
    ensures PlainFrames(units)[i] == F.Encoded(UnitRecord(units[i]))
    ensures Frames(PlainFrames(units)[i], UnitRecord(units[i]), None)
  {
    hide F.Encoded, UnitRecord, Frames;
    if i == 0 {
      PlainFrame(units[0]);
    } else {
      PlainFramesAre(units[1..], i - 1);
    }
  }

  lemma {:induction false} PlainFramesPrefix(units: seq<Unit>, k: nat)
    requires k <= |units|
    ensures PlainFrames(units)[..k] == PlainFrames(units[..k])
  {
    hide F.Encoded, UnitRecord;
    if k > 0 {
      PlainFramesPrefix(units[1..], k - 1);
      assert units[..k][0] == units[0] && units[..k][1..] == units[1..][..k - 1];
    }
  }

  /** A crash can leave any prefix of the log: replay then yields the whole units of that prefix. */
  lemma PlainReplayPrefix(units: seq<Unit>, cut: nat)
    requires UnitsWellFormed(units) && cut <= |Log(units)|
    ensures var k := Whole(PlainFrames(units), cut);
      ReplayLog(Log(units)[..cut], None) == Success((Flatten(units[..k]), |Log(units[..k])|))
  {
    hide Frames, F.Encoded, ReplayLog;
    forall i | 0 <= i < |units|
      ensures Frames(PlainFrames(units)[i], UnitRecord(units[i]), None)
    {
      PlainFramesAre(units, i);
    }
    ReplayPrefix(units, PlainFrames(units), None, cut);
    PlainFramesPrefix(units, Whole(PlainFrames(units), cut));
  }

  function SealedFrames(seals: seq<Seal>): (r: seq<Bytes>)
    requires forall i :: 0 <= i < |seals| ==> |seals[i].nonce| == NONCE_LEN
    ensures |r| == |seals|
    ensures forall i :: 0 <= i < |seals| ==> r[i] == WalEnvelope(seals[i].nonce, seals[i].ciphertext)
  {
    if seals == [] then [] else [WalEnvelope(seals[0].nonce, seals[0].ciphertext)] + SealedFrames(seals[1..])
  }

  /** Any prefix of an encrypted log replays like the plain log cut at the same record boundary. */
  lemma SealedReplayPrefix(units: seq<Unit>, seals: seq<Seal>, ctx: CryptoContext, cut: nat)
    requires UnitsWellFormed(units) && |seals| == |units| && Fresh(ctx.seals)
    requires forall i :: 0 <= i < |seals| ==> |seals[i].nonce| == NONCE_LEN
    requires forall i :: 0 <= i < |units| ==> SealOf(seals[i], UnitRecord(units[i]), ctx)
    requires cut <= |Concat(SealedFrames(seals))|
    ensures var k := Whole(SealedFrames(seals), cut);
      && ReplayLog(Concat(SealedFrames(seals))[..cut], Some(ctx))
         == Success((Flatten(units[..k]), |Concat(SealedFrames(seals)[..k])|))
      && Log(units[..k]) <= Log(units)
      && ReplayLog(Log(units[..k]), None) == Success((Flatten(units[..k]), |Log(units[..k])|))
  {
    hide Frames, F.Encoded, ReplayLog, SealOf, WalEnvelope;
    var frames := SealedFrames(seals);
    forall i | 0 <= i < |units|
      ensures Frames(frames[i], UnitRecord(units[i]), Some(ctx))
    {
      SealedFrame(units[i], seals[i], ctx);
    }
    ReplayPrefix(units, frames, Some(ctx), cut);
    var k := Whole(frames, cut);
    LogPrefix(units, k);
    ReplayWhole(units[..k]);
  }

  lemma {:induction false} WholeAll(frames: seq<Bytes>)
    ensures Whole(frames, |Concat(frames)|) == |frames|
  {
    if frames != [] {
      WholeAll(frames[1..]);
    }
  }

  lemma {:induction false} LogConcat(a: seq<Unit>, b: seq<Unit>)
    ensures Log(a + b) == Log(a) + Log(b)
  {
    hide F.Encoded, UnitRecord;
    if a == [] {
      assert a + b == b;
    } else {
      hide Log;
      assert (a + b)[1..] == a[1..] + b && (a + b)[0] == a[0];
      LogConcat(a[1..], b);
      LogStep(a + b);
      LogStep(a);
      var first, more, rest := F.Encoded(UnitRecord(a[0])), Log(a[1..]), Log(b);
      assert first + (more + rest) == (first + more) + rest;
    }
  }

  lemma LogStep(units: seq<Unit>)
    requires units != []
    ensures Log(units) == F.Encoded(UnitRecord(units[0])) + Log(units[1..])
  {
    hide F.Encoded, UnitRecord;
    var frames := PlainFrames(units);
    assert frames[0] == F.Encoded(UnitRecord(units[0])) && frames[1..] == PlainFrames(units[1..]);
  }

  lemma LogPrefix(units: seq<Unit>, k: nat)
    requires k <= |units|
    ensures |Log(units[..k])| <= |Log(units)| && Log(units)[..|Log(units[..k])|] == Log(units[..k])
  {
    assert units == units[..k] + units[k..];
    LogConcat(units[..k], units[k..]);
  }

  lemma {:induction false} FlattenConcat(a: seq<Unit>, b: seq<Unit>)
    ensures Flatten(a + b) == Flatten(a) + Flatten(b)
  {
    if a == [] {
      assert a + b == b;
    } else {
      assert (a + b)[1..] == a[1..] + b;
      FlattenConcat(a[1..], b);
    }
  }

  /** A complete log replays to everything that was appended to it. */
  lemma ReplayWhole(units: seq<Unit>)
    requires UnitsWellFormed(units)
    ensures ReplayLog(Log(units), None) == Success((Flatten(units), |Log(units)|))
  {
    hide ReplayLog;
    PlainReplayPrefix(units, |Log(units)|);
    WholeAll(PlainFrames(units));
    assert Log(units)[..|Log(units)|] == Log(units) && units[..|units|] == units;
  }

  lemma UnitRecordInjective(a: Unit, b: Unit)
    requires UnitWellFormed(a) && UnitWellFormed(b) && UnitRecord(a) == UnitRecord(b)
    ensures a == b
  {
    if a.Group? {
      F.BatchRoundTrip(a.ops);
      F.BatchRoundTrip(b.ops);
    }
  }

  /** Two different well-formed sequences of appends never produce the same log. */
  lemma {:induction false} LogInjective(a: seq<Unit>, b: seq<Unit>)
    requires UnitsWellFormed(a) && UnitsWellFormed(b) && Log(a) == Log(b)
    ensures a == b
  {
    hide F.Encoded, UnitRecord, F.Decode;
    if a == [] || b == [] {
      var c := if a == [] then b else a;
      if c != [] {
        LogStep(c);
        F.EncodedNonEmpty(UnitRecord(c[0]));
      }
    } else {
      var x, y := UnitRecord(a[0]), UnitRecord(b[0]);
      LogStep(a);
      LogStep(b);
      UnitRecordWellFormed(a[0]);
      UnitRecordWellFormed(b[0]);
      F.DecodeEncoded(x, Log(a[1..]));
      F.DecodeEncoded(y, Log(b[1..]));
      assert x == y;
      UnitRecordInjective(a[0], b[0]);
      assert Log(a)[|F.Encoded(x)|..] == Log(a[1..]) && Log(b)[|F.Encoded(y)|..] == Log(b[1..]);
      LogInjective(a[1..], b[1..]);
      assert a == [a[0]] + a[1..] && b == [b[0]] + b[1..];
    }
  }

  lemma UnitRecordWellFormed(u: Unit)
    requires UnitWellFormed(u)
    ensures F.WellFormed(UnitRecord(u))
  {
  }

  lemma UnitOfRecord(buf: Bytes) returns (unit: Unit)
    requires DecodeNext(buf, None).Success? && DecodeNext(buf, None).value.Some?
    requires Expand(DecodeNext(buf, None).value.value.0).Success?
    ensures var (record, consumed) := DecodeNext(buf, None).value.value;
      && UnitWellFormed(unit) && UnitRecord(unit) == record
      && Expand(record) == Success(UnitOps(unit)) && buf[..consumed] == F.Encoded(record)
  {
    hide F.Decode, F.Encoded, F.ParseBatch;
    var (record, consumed) := DecodeNext(buf, None).value.value;
    F.DecodeCanonical(buf);
    if record.op.Batch? {
      F.BatchCanonical(F.Payload(record.value));
      unit := Group(F.ParseBatch(F.Payload(record.value)).value);
    } else {
      unit := One(record);
    }
  }

  /** Whatever bytes replay accepts, the accepted part is the log of some sequence of appends. */
  lemma {:induction false} ReplayCanonical(buf: Bytes) returns (units: seq<Unit>)
    requires ReplayLog(buf, None).Success?
    ensures var (ops, reach) := ReplayLog(buf, None).value;
      UnitsWellFormed(units) && Log(units) == buf[..reach] && Flatten(units) == ops
    decreases |buf|
  {
    hide DecodeNext, Expand, F.Encoded, UnitRecord, UnitOps, UnitWellFormed;
    units := [];
    if buf != [] && DecodeNext(buf, None).value.Some? {
      var (record, consumed) := DecodeNext(buf, None).value.value;
      var unit := UnitOfRecord(buf);
      var rest := ReplayCanonical(buf[consumed..]);
      units := [unit] + rest;
      LogStep(units);
      assert units[1..] == rest;
      SplitSlice(buf, consumed, ReplayLog(buf[consumed..], None).value.1);
    }
  }

  lemma SplitSlice(buf: Bytes, i: nat, j: nat)
    requires i + j <= |buf|
    ensures buf[..i + j] == buf[..i] + buf[i..][..j]
  {
  }

  // ── the log file ───────────────────────────────────────────────────────

  /** What drawing `nonce` and sealing an encoded record to `ciphertext` adds to the seals ever made. */
  ghost predicate Sealing(record: Bytes, crypto: Crypto, nonce: Bytes, ciphertext: Bytes) {
    && |nonce| == NONCE_LEN
    && match crypto
       case None => true
       case Some(ctx) =>
         && Fresh(ctx.seals) && |ciphertext| < U32_LIMIT
         && Seal(ctx.dek, nonce, WalEnvelopeAad(), record, ciphertext) in ctx.seals
  }

  /** A plain log grows by the record itself, a sealed one by its envelope. */
  function OnDisk(record: Bytes, crypto: Crypto, nonce: Bytes, ciphertext: Bytes): Bytes
    requires |nonce| == NONCE_LEN
  {
    if crypto.None? then record else WalEnvelope(nonce, ciphertext)
  }

  /** In either mode, what is written for a unit is a frame of it. */
  lemma OnDiskFrames(u: Unit, crypto: Crypto, nonce: Bytes, ciphertext: Bytes)
    requires UnitWellFormed(u) && Sealing(F.Encoded(UnitRecord(u)), crypto, nonce, ciphertext)
    ensures Frames(OnDisk(F.Encoded(UnitRecord(u)), crypto, nonce, ciphertext), UnitRecord(u), crypto)
  {
    hide Frames, F.Encoded, UnitRecord, UnitWellFormed, Fresh, WalEnvelopeAad, WalEnvelope;
    if crypto.None? {
      PlainFrame(u);
    } else {
      var s := Seal(crypto.value.dek, nonce, WalEnvelopeAad(), F.Encoded(UnitRecord(u)), ciphertext);
      assert SealOf(s, UnitRecord(u), crypto.value);
      SealedFrame(u, s, crypto.value);
    }
  }

  /** `fault` is how many bytes of a failing write reach the file; all of them when only the sync fails. */
  predicate Wrote(file: Bytes, onDisk: Bytes, fault: Option<nat>, file': Bytes, res: Result<nat>) {
    match fault
    case None => res == Success(|onDisk|) && file' == file + onDisk
    case Some(cut) => res == Failure(Io) && cut <= |onDisk| && file' == file + onDisk[..cut]
  }

  class Wal {
    var file: Bytes
    const crypto: Crypto

    constructor (file: Bytes, crypto: Crypto)
      ensures this.file == file && this.crypto == crypto
    {
      this.file, this.crypto := file, crypto;
    }

    /** Appends one encoded record; sealing draws `nonce` and produces `ciphertext`. */
    method WriteRecord(record: Bytes, nonce: Bytes, ciphertext: Bytes, fault: Option<nat>) returns (res: Result<nat>)
      requires |nonce| == NONCE_LEN
      requires fault.Some? ==> fault.value <= |OnDisk(record, crypto, nonce, ciphertext)|
      modifies this
      ensures Wrote(old(file), OnDisk(record, crypto, nonce, ciphertext), fault, file, res)
    {
      var onDisk := record;
      if crypto.Some? {
        onDisk := EncodeWalEnvelope(nonce, ciphertext);
      }
      if fault.Some? {
        file := file + onDisk[..fault.value];
        return Failure(Io);
      }
      file := file + onDisk;
      return Success(|onDisk|);
    }

    method Append(op: F.WalOp, key: Bytes, value: Option<Bytes>, nonce: Bytes, ciphertext: Bytes, fault: Option<nat>)
      returns (res: Result<nat>)
      requires |nonce| == NONCE_LEN
      requires fault.Some? ==>
                 fault.value <= |OnDisk(F.Encoded(F.WalRecord(op, key, value)), crypto, nonce, ciphertext)|
      modifies this
      ensures Wrote(old(file), OnDisk(F.Encoded(F.WalRecord(op, key, value)), crypto, nonce, ciphertext), fault, file, res)
    {
      var record := F.Encode(op, key, value);
      res := WriteRecord(record, nonce, ciphertext, fault);
    }

    /** Appends a whole batch as one record; a batch replay would refuse is refused here, unwritten. */
    method AppendBatch(ops: seq<F.BatchOp>, nonce: Bytes, ciphertext: Bytes, fault: Option<nat>)
      returns (res: Result<nat>)
      requires |nonce| == NONCE_LEN
      requires fault.Some? ==>
                 fault.value <= |OnDisk(F.Encoded(UnitRecord(Group(ops))), crypto, nonce, ciphertext)|
      modifies this
      ensures if |ops| > 10_000
              then res == Failure(WalBatchTooLarge(|ops|, 10_000)) && file == old(file)
              else Wrote(old(file), OnDisk(F.Encoded(UnitRecord(Group(ops))), crypto, nonce, ciphertext), fault, file, res)
    {
      if |ops| > F.MAX_BATCH_OPS {
        return Failure(WalBatchTooLarge(|ops|, F.MAX_BATCH_OPS));
      }
      var payload := F.EncodeBatch(ops);
      var record := F.Encode(F.Batch, [], Some(payload));
      res := WriteRecord(record, nonce, ciphertext, fault);
    }

    /** Reads every complete record and cuts the torn tail off; on corruption the file is left alone. */
    method Replay() returns (res: Result<seq<F.WalRecord>>)
      modifies this
      ensures match ReplayLog(old(file), crypto)
              case Failure(e) => res == Failure(e) && file == old(file)
              case Success((ops, reach)) => res == Success(ops) && file == old(file)[..reach]
    {
      hide DecodeNext, ReplayLog;
      var buf, records, offset := file, [], 0;
      assert buf[0..] == buf;
      ResumeNothing(ReplayLog(buf, crypto));
      var torn := false;
      while offset < |buf| && !torn
        invariant 0 <= offset <= |buf| && file == buf
        invariant ReplayLog(buf, crypto)
               == if torn then Success((records, offset)) else Resume(records, offset, ReplayLog(buf[offset..], crypto))
        decreases |buf| - offset, !torn
      {
        ReplayStep(buf, offset, records, crypto);
        var next := DecodeNext(buf[offset..], crypto);
        if next.Failure? {
          return Failure(next.error);
        }
        if next.value.None? {
          torn := true;
        } else {
          var (record, consumed) := next.value.value;
          if record.op.Batch? {
            var ops := F.DecodeBatch(F.Payload(record.value));
            if ops.Failure? {
              return Failure(ops.error);
            }
            records := records + FlatAll(ops.value);
          } else {
            records := records + [record];
          }
          offset := offset + consumed;
        }
      }
      ResumeEnd(buf, records, crypto);
      file := file[..offset];
      return Success(records);
    }

    method Reset()
      modifies this
      ensures file == []
    {
      file := [];
    }
  }

  type Replayed = Result<(seq<F.WalRecord>, nat)>

  function Resume(done: seq<F.WalRecord>, offset: nat, rest: Replayed): Replayed {
    match rest
    case Failure(e) => Failure(e)
    case Success((more, reach)) => Success((done + more, offset + reach))
  }

  lemma ResumeNothing(rest: Replayed)
    ensures Resume([], 0, rest) == rest
  {
    if rest.Success? {
      assert [] + rest.value.0 == rest.value.0;
    }
  }

  lemma ResumeEnd(buf: Bytes, done: seq<F.WalRecord>, crypto: Crypto)
    ensures Resume(done, |buf|, ReplayLog(buf[|buf|..], crypto)) == Success((done, |buf|))
  {
    assert done + [] == done;
  }

  lemma ReplayStep(buf: Bytes, offset: nat, done: seq<F.WalRecord>, crypto: Crypto)
    requires offset < |buf|
    ensures var res := Resume(done, offset, ReplayLog(buf[offset..], crypto));
      match DecodeNext(buf[offset..], crypto)
      case Failure(e) => res == Failure(e)
      case Success(None) => res == Success((done, offset))
      case Success(Some((record, consumed))) =>
        res == match Expand(record)
               case Failure(e) => Failure(e)
               case Success(ops) =>
                 Resume(done + ops, offset + consumed, ReplayLog(buf[offset + consumed..], crypto))
  {
    hide DecodeNext, Expand;
    var next := DecodeNext(buf[offset..], crypto);
    if next.Success? && next.value.Some? {
      var (record, consumed) := next.value.value;
      assert buf[offset..][consumed..] == buf[offset + consumed..];
      var ops, rest := Expand(record), ReplayLog(buf[offset + consumed..], crypto);
      if ops.Success? && rest.Success? {
        assert done + (ops.value + rest.value.0) == done + ops.value + rest.value.0;
      }
    } else {
      assert done + [] == done;
    }
  }
}
