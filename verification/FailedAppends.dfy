/** What follows an append that reports an I/O error in a process that then goes on (`store::wal::write_record`):
    the next record is written behind whatever bytes got out. */
module FailedAppends {
  import opened Bytes
  import opened Checksum
  import opened Results
  import opened Tables
  import opened Layers
  import opened Aead
  import opened WalLog
  import opened Store
  import opened StoreRuns
  import Reads
  import F = WalFormat
  import E = CryptoFormat
  import B = Bloom

  /** The part of a frame that says how long it is. */
  function FrameHeader(crypto: Crypto): nat {
    if crypto.None? then F.HEADER_LEN else E.ENVELOPE_HEADER_LEN
  }

  /** Where those lengths begin. */
  function LengthsAt(crypto: Crypto): nat {
    if crypto.None? then 7 else 30
  }

  /** Up to here a cut leaves a magic, a version or an operation that no frame has. */
  function Unreadable(crypto: Crypto): nat {
    if crypto.None? then 6 else 5
  }

  /** How long the header of `buf` says its record is. */
  function Claimed(buf: Bytes, crypto: Crypto): nat
    requires |buf| >= FrameHeader(crypto)
  {
    if crypto.None? then F.HEADER_LEN + FromLe(buf[7..11]) + FromLe(buf[11..15]) + CRC_LEN
    else E.ENVELOPE_HEADER_LEN + FromLe(buf[30..34])
  }

  /** `bytes` are exactly one record of a log, its checksum right, or its seal one that was made. */
  ghost predicate Genuine(bytes: Bytes, crypto: Crypto) {
    if crypto.None? then exists r :: F.WellFormed(r) && bytes == F.Encoded(r)
    else exists r, s :: F.WellFormed(r) && SealOf(s, r, crypto.value) && Enveloped(bytes, s)
  }

  predicate Enveloped(bytes: Bytes, s: Seal) {
    |s.nonce| == NONCE_LEN && bytes == E.WalEnvelope(s.nonce, s.ciphertext)
  }

  // ── a torn frame with another record behind it ─────────────────────────

  lemma FrameStarts(frame: Bytes, record: F.WalRecord, crypto: Crypto)
    requires Frames(frame, record, crypto)
    ensures DecodeNext(frame, crypto) == Success(Some((record, |frame|)))
  {
    hide DecodeNext;
    assert frame + [] == frame;
  }

  lemma SameFields(buf: Bytes, frame: Bytes, n: nat)
    requires 15 <= n <= |buf| && n <= |frame| && buf[..n] == frame[..n]
    ensures buf[0..4] == frame[0..4] && buf[4..6] == frame[4..6] && buf[6] == frame[6]
    ensures buf[7..11] == frame[7..11] && buf[11..15] == frame[11..15]
    ensures n >= 34 ==> buf[6..30] == frame[6..30] && buf[30..34] == frame[30..34]
  {
    SameSlice(buf, frame, n, 0, 4);
    SameSlice(buf, frame, n, 4, 6);
    SameSlice(buf, frame, n, 7, 11);
    SameSlice(buf, frame, n, 11, 15);
    assert buf[6] == buf[..n][6] == frame[..n][6] == frame[6];
    if n >= 34 {
      SameSlice(buf, frame, n, 6, 30);
      SameSlice(buf, frame, n, 30, 34);
    }
  }

  lemma SameSlice(buf: Bytes, frame: Bytes, n: nat, i: nat, j: nat)
    requires i <= j <= n <= |buf| && n <= |frame| && buf[..n] == frame[..n]
    ensures buf[i..j] == frame[i..j]
  {
    assert buf[i..j] == buf[..n][i..j] && frame[i..j] == frame[..n][i..j];
  }

  function Magic(crypto: Crypto): (m: Bytes)
    ensures |m| == 4 && m[0] == 0x45 && forall i :: 1 <= i < 4 ==> m[i] != 0x45
  {
    if crypto.None? then [0x45, 0x53, 0x41, 0x42] else [0x45, 0x4C, 0x57, 0x42]
  }

  function Version(crypto: Crypto): (v: Bytes)
    ensures |v| == 2 && v[0] != 0x45 && v[1] != 0x45
  {
    if crypto.None? then [2, 0] else [1, 0]
  }

  lemma MagicIs(crypto: Crypto)
    ensures FromLe(Magic(crypto)) == if crypto.None? then F.WAL_MAGIC else E.WAL_ENVELOPE_MAGIC
    ensures FromLe(Version(crypto)) == if crypto.None? then F.WAL_RECORD_VERSION else E.WAL_ENVELOPE_VERSION
  {
    var m, v := Magic(crypto), Version(crypto);
    assert m[1..][1..] == m[2..] && m[2..][1..] == m[3..] && m[3..][1..] == [];
    assert FromLe(m[3..]) == m[3] && FromLe(m[2..]) == m[2] + 256 * FromLe(m[3..]);
    assert FromLe(m[1..]) == m[1] + 256 * FromLe(m[2..]);
    assert v[1..][1..] == [] && FromLe(v[1..]) == v[1];
  }

  /** Equal little-endian numbers of equal width are equal bytes. */
  lemma FromLeInjective(a: Bytes, b: Bytes)
    requires |a| == |b| && FromLe(a) == FromLe(b)
    ensures a == b
  {
    FromLeCanonical(a);
    FromLeCanonical(b);
  }

  /** Whatever decodes at all starts with the magic and the version. */
  lemma DecodableStarts(buf: Bytes, crypto: Crypto)
    requires |buf| >= FrameHeader(crypto) && DecodeNext(buf, crypto).Success?
    ensures buf[..4] == Magic(crypto) && buf[4..6] == Version(crypto) && (crypto.None? ==> F.FromTag(buf[6]).Some?)
  {
    hide FromLe, Crc, Value, Magic, Version;
    MagicIs(crypto);
    assert buf[0..4] == buf[..4];
    FromLeInjective(buf[..4], Magic(crypto));
    FromLeInjective(buf[4..6], Version(crypto));
  }

  /** Cut inside the magic, the version or the operation, the torn frame makes the log unreadable. */
  lemma TornRefuses(frame: Bytes, record: F.WalRecord, next: Bytes, record': F.WalRecord, crypto: Crypto,
                   cut: nat, tail: Bytes)
    requires Frames(frame, record, crypto) && Frames(next, record', crypto) && 0 < cut <= Unreadable(crypto)
    requires cut < |frame|
    ensures DecodeNext(frame[..cut] + (next + tail), crypto).Failure?
  {
    hide DecodeNext, Magic, Version;
    var buf := frame[..cut] + (next + tail);
    FrameStarts(next, record', crypto);
    FrameFits(next, record', crypto);
    DecodableStarts(next, crypto);
    assert buf[cut] == next[0] == next[..4][0] == 0x45;
    assert cut < 4 ==> buf[..4][cut] == 0x45;
    assert 4 <= cut < 6 ==> buf[4..6][cut - 4] == 0x45;
    if DecodeNext(buf, crypto).Success? {
      DecodableStarts(buf, crypto);
      assert false;
    }
  }

  lemma FrameFits(frame: Bytes, record: F.WalRecord, crypto: Crypto)
    requires DecodeNext(frame, crypto) == Success(Some((record, |frame|)))
    ensures |frame| >= FrameHeader(crypto)
  {
    hide FromLe, Crc, Value;
  }

  // ── what the torn frame then reads as ──────────────────────────────────

  /** The fields before the lengths are those of a frame. */
  predicate Readable(buf: Bytes, crypto: Crypto) {
    && |buf| >= FrameHeader(crypto) && buf[..4] == Magic(crypto) && buf[4..6] == Version(crypto)
    && (crypto.None? ==> F.FromTag(buf[6]).Some?)
  }

  lemma PlainReads(buf: Bytes)
    requires Readable(buf, None)
    ensures var n := Claimed(buf, None);
      if |buf| < n then F.Decode(buf) == Success(None) else F.Decode(buf).Success? <==> Genuine(buf[..n], None)
  {
    hide FromLe, Crc, Value, Magic, Version, F.Encoded;
    MagicIs(None);
    assert buf[0..4] == buf[..4];
    var n := Claimed(buf, None);
    if n <= |buf| && F.Decode(buf).Success? {
      F.DecodeCanonical(buf);
    }
    if n <= |buf| && Genuine(buf[..n], None) {
      var r :| F.WellFormed(r) && buf[..n] == F.Encoded(r);
      F.DecodeEncoded(r, buf[n..]);
      assert buf == buf[..n] + buf[n..];
    }
  }

  lemma SealedReads(buf: Bytes, ctx: CryptoContext)
    requires Readable(buf, Some(ctx)) && Fresh(ctx.seals)
    ensures var n := Claimed(buf, Some(ctx));
      if |buf| < n then DecodeNext(buf, Some(ctx)) == Success(None)
      else DecodeNext(buf, Some(ctx)).Success? <==> Genuine(buf[..n], Some(ctx))
  {
    hide FromLe, Magic, Version, F.Encoded, F.Decode, E.WalEnvelopeAad, E.WalEnvelope, E.DecodeWalEnvelope, Aead.Open;
    MagicIs(Some(ctx));
    assert buf[0..4] == buf[..4];
    var n := Claimed(buf, Some(ctx));
    EnvelopeReads(buf, n);
    if n <= |buf| {
      var nonce, ciphertext := buf[6..30], buf[34..n];
      if DecodeNext(buf, Some(ctx)).Success? {
        OpenMeansSealed(ctx.seals, ctx.dek, nonce, ciphertext, E.WalEnvelopeAad());
        var plain := ctx.OpenSealed(nonce, ciphertext, E.WalEnvelopeAad()).value;
        var seal := Seal(ctx.dek, nonce, E.WalEnvelopeAad(), plain, ciphertext);
        F.DecodeCanonical(plain);
        var r := F.Decode(plain).value.value.0;
        assert plain[..|plain|] == plain;
        assert SealOf(seal, r, ctx) && Enveloped(buf[..n], seal);
      }
      if Genuine(buf[..n], Some(ctx)) {
        var r, s :| F.WellFormed(r) && SealOf(s, r, ctx) && Enveloped(buf[..n], s);
        SealedOneReads(r, s, ctx, buf[n..]);
        assert buf == buf[..n] + buf[n..];
      }
    }
  }

  lemma EnvelopeReads(buf: Bytes, n: nat)
    requires |buf| >= E.ENVELOPE_HEADER_LEN && n == E.ENVELOPE_HEADER_LEN + FromLe(buf[30..34])
    requires FromLe(buf[0..4]) == E.WAL_ENVELOPE_MAGIC && FromLe(buf[4..6]) == E.WAL_ENVELOPE_VERSION
    ensures |buf| < n ==> E.DecodeWalEnvelope(buf) == Success(None)
    ensures n <= |buf| ==>
              && E.DecodeWalEnvelope(buf) == Success(Some((buf[6..30], buf[34..n], n)))
              && buf[..n] == E.WalEnvelope(buf[6..30], buf[34..n]) && |buf[34..n]| < U32_LIMIT
  {
    hide FromLe, Le;
    SpanLiterals();
    FromLeCanonical(buf[0..4]);
    FromLeCanonical(buf[4..6]);
    FromLeCanonical(buf[30..34]);
    if n <= |buf| {
      assert buf[..n] == buf[0..4] + buf[4..6] + buf[6..30] + buf[30..34] + buf[34..n];
    }
  }

  lemma SealedOneReads(r: F.WalRecord, s: Seal, ctx: CryptoContext, tail: Bytes)
    requires F.WellFormed(r) && SealOf(s, r, ctx) && Fresh(ctx.seals) && |s.nonce| == NONCE_LEN
    ensures DecodeNext(E.WalEnvelope(s.nonce, s.ciphertext) + tail, Some(ctx)).Success?
  {
    hide F.Decode, F.Encoded, E.DecodeWalEnvelope, E.WalEnvelopeAad, Aead.Open;
    OpenExactly(ctx.seals, s, ctx.dek, E.WalEnvelopeAad());
    F.DecodeEncoded(r, []);
    assert F.Encoded(r) + [] == F.Encoded(r);
    E.WalEnvelopeRoundTrip(s.nonce, s.ciphertext, tail);
  }

  /** A readable header and what is behind it: a torn tail if that is too short, else a record or corruption. */
  lemma ReadsIff(buf: Bytes, crypto: Crypto)
    requires Readable(buf, crypto) && FreshCrypto(crypto)
    ensures var n := Claimed(buf, crypto);
      if |buf| < n then DecodeNext(buf, crypto) == Success(None)
      else DecodeNext(buf, crypto).Success? <==> Genuine(buf[..n], crypto)
  {
    hide Claimed, Readable, F.Decode, DecodeNext, Genuine;
    if crypto.None? {
      PlainReads(buf);
      PlainNext(buf);
    } else {
      SealedReads(buf, crypto.value);
    }
  }

  lemma PlainNext(buf: Bytes)
    ensures DecodeNext(buf, None) == F.Decode(buf)
  {
    hide F.Decode;
  }

  lemma HighByte(bytes: Bytes)
    requires |bytes| == 4
    ensures FromLe(bytes) >= 0x100_0000 * (bytes[3] as nat)
  {
    assert bytes[1..][1..] == bytes[2..] && bytes[2..][1..] == bytes[3..] && bytes[3..][1..] == [];
    assert FromLe(bytes[3..]) == bytes[3] && FromLe(bytes[2..]) == bytes[2] + 256 * FromLe(bytes[3..]);
    assert FromLe(bytes[1..]) == bytes[1] + 256 * FromLe(bytes[2..]);
  }

  /** Torn inside its lengths, a frame claims more than a gigabyte: the top byte of a length is one of the magic
      behind it. Torn later, it claims what it should have been. */
  lemma TornClaims(frame: Bytes, record: F.WalRecord, next: Bytes, record': F.WalRecord, crypto: Crypto,
                   cut: nat, tail: Bytes)
    requires Frames(frame, record, crypto) && Frames(next, record', crypto)
    requires Unreadable(crypto) < cut < |frame|
    ensures var buf := frame[..cut] + (next + tail);
      && Readable(buf, crypto)
      && (LengthsAt(crypto) <= cut < FrameHeader(crypto) ==> Claimed(buf, crypto) >= 0x4100_0000)
      && (FrameHeader(crypto) <= cut ==> Claimed(buf, crypto) == |frame|)
  {
    hide DecodeNext, Magic, Version, FromLe;
    var buf, n := frame[..cut] + (next + tail), FrameHeader(crypto);
    FrameStarts(next, record', crypto);
    FrameFits(next, record', crypto);
    DecodableStarts(next, crypto);
    FrameStarts(frame, record, crypto);
    FrameFits(frame, record, crypto);
    DecodableStarts(frame, crypto);
    assert buf[..cut] == frame[..cut];
    SameSlice(buf, frame, cut, 0, 4);
    SameSlice(buf, frame, cut, 4, 6);
    assert buf[0..4] == buf[..4] && frame[0..4] == frame[..4];
    assert crypto.None? ==> buf[6] == frame[6];
    if n <= cut {
      assert buf[..n] == buf[..cut][..n] == frame[..n];
      SameFields(buf, frame, n);
      ClaimsItself(frame, record, crypto);
    } else if LengthsAt(crypto) <= cut {
      var last := if crypto.None? && cut < 11 then 10 else n - 1;
      assert buf[last] == next[last - cut] == next[..4][last - cut] == Magic(crypto)[last - cut];
      MagicHigh(crypto);
      HighByte(buf[last - 3..last + 1]);
    }
  }

  lemma MagicHigh(crypto: Crypto)
    ensures forall i :: 0 <= i < 4 ==> Magic(crypto)[i] >= 0x41
  {
  }

  lemma ClaimsItself(frame: Bytes, record: F.WalRecord, crypto: Crypto)
    requires DecodeNext(frame, crypto) == Success(Some((record, |frame|))) && |frame| >= FrameHeader(crypto)
    ensures Claimed(frame, crypto) == |frame|
  {
    hide FromLe, Crc, Value, Aead.Open;
  }

  /** Torn behind its header, a frame reads as a record again only if nothing is wrong with the mixture: in a
      plaintext log, if the checksum happens to match; in a sealed one, if the missing bytes follow. */
  lemma TornMixes(frame: Bytes, record: F.WalRecord, crypto: Crypto, cut: nat, more: Bytes)
    requires Frames(frame, record, crypto) && FreshCrypto(crypto)
    requires FrameHeader(crypto) <= cut < |frame| <= cut + |more|
    ensures var mixed := (frame[..cut] + more)[..|frame|];
      && |frame| >= CRC_LEN
      && (Genuine(mixed, crypto) ==> if crypto.None? then CrcMatches(mixed, |frame| - CRC_LEN) else mixed == frame)
  {
    hide F.Decode, F.Encoded, DecodeNext, E.WalEnvelopeAad, Enveloped;
    var mixed := (frame[..cut] + more)[..|frame|];
    FrameStarts(frame, record, crypto);
    FrameFits(frame, record, crypto);
    if crypto.None? {
      PlainNext(frame);
      PlainFits(frame, record);
      if Genuine(mixed, crypto) {
        var r :| F.WellFormed(r) && mixed == F.Encoded(r);
        EncodedMatches(r);
      }
    } else if Genuine(mixed, crypto) {
      SealedFrameIs(frame, record, crypto.value);
      assert mixed[..E.ENVELOPE_HEADER_LEN] == frame[..E.ENVELOPE_HEADER_LEN];
      SameSeal(frame, mixed, crypto.value);
    }
  }

  /** The header names the nonce, the nonce the seal. */
  lemma SameSeal(a: Bytes, b: Bytes, ctx: CryptoContext)
    requires Genuine(a, Some(ctx)) && Genuine(b, Some(ctx)) && Fresh(ctx.seals)
    requires |a| >= E.ENVELOPE_HEADER_LEN && |b| >= E.ENVELOPE_HEADER_LEN
    requires a[..E.ENVELOPE_HEADER_LEN] == b[..E.ENVELOPE_HEADER_LEN]
    ensures a == b
  {
    hide F.Encoded, E.WalEnvelopeAad;
    var r, s :| F.WellFormed(r) && SealOf(s, r, ctx) && Enveloped(a, s);
    var r', s' :| F.WellFormed(r') && SealOf(s', r', ctx) && Enveloped(b, s');
    NonceAt(s);
    NonceAt(s');
    SameSlice(a, b, E.ENVELOPE_HEADER_LEN, 6, 30);
    FreshMeansSame(ctx.seals, s, s');
  }

  lemma FreshMeansSame(seals: seq<Seal>, s: Seal, s': Seal)
    requires Fresh(seals) && s in seals && s' in seals && s.nonce == s'.nonce
    ensures s == s'
  {
    var i :| 0 <= i < |seals| && seals[i] == s;
    var j :| 0 <= j < |seals| && seals[j] == s';
    assert i == j;
  }

  lemma NonceAt(s: Seal)
    requires |s.nonce| == NONCE_LEN
    ensures E.WalEnvelope(s.nonce, s.ciphertext)[6..30] == s.nonce
  {
    hide Le;
    var m := Le(E.WAL_ENVELOPE_MAGIC, 4) + Le(E.WAL_ENVELOPE_VERSION, 2);
    var rest := Le(|s.ciphertext|, 4) + s.ciphertext;
    Middle(m, s.nonce, rest);
    assert E.WalEnvelope(s.nonce, s.ciphertext) == m + s.nonce + rest;
  }

  lemma EncodedMatches(r: F.WalRecord)
    ensures var bytes := F.Encoded(r); |bytes| >= CRC_LEN && CrcMatches(bytes, |bytes| - CRC_LEN)
  {
    hide Crc, CrcBytes, Value, CrcMatches, F.Body;
    StoredCrcMatches(F.Body(r), []);
    assert F.Body(r) + CrcBytes(F.Body(r)) + [] == F.Encoded(r);
  }

  /** A whole frame is itself a record of the log. */
  lemma SealedFrameIs(frame: Bytes, record: F.WalRecord, ctx: CryptoContext)
    requires Frames(frame, record, Some(ctx)) && Fresh(ctx.seals)
    ensures Genuine(frame, Some(ctx))
  {
    hide DecodeNext, Claimed, Readable, Genuine;
    FrameStarts(frame, record, Some(ctx));
    FrameFits(frame, record, Some(ctx));
    DecodableStarts(frame, Some(ctx));
    ClaimsItself(frame, record, Some(ctx));
    ReadableIs(frame, Some(ctx));
    ReadsIff(frame, Some(ctx));
    assert frame[..|frame|] == frame;
  }

  lemma ReadableIs(buf: Bytes, crypto: Crypto)
    requires |buf| >= FrameHeader(crypto) && buf[..4] == Magic(crypto) && buf[4..6] == Version(crypto)
    requires crypto.None? ==> F.FromTag(buf[6]).Some?
    ensures Readable(buf, crypto)
  {
  }

  lemma PlainFits(frame: Bytes, record: F.WalRecord)
    requires F.Decode(frame) == Success(Some((record, |frame|)))
    ensures F.HEADER_LEN + CRC_LEN <= |frame|
  {
    hide FromLe, Crc, Value;
  }

  // ── the log ────────────────────────────────────────────────────────────

  /** What is behind a whole log is replayed after it. */
  lemma {:induction false} ReplayBehind(units: seq<Unit>, frames: seq<Bytes>, tail: Bytes, crypto: Crypto)
    requires |units| == |frames| && UnitsWellFormed(units)
    requires forall i :: 0 <= i < |units| ==> Frames(frames[i], UnitRecord(units[i]), crypto)
    ensures ReplayLog(Concat(frames) + tail, crypto)
         == match ReplayLog(tail, crypto)
            case Failure(e) => Failure(e)
            case Success((ops, reach)) => Success((Flatten(units) + ops, |Concat(frames)| + reach))
  {
    hide Frames, ReplayLog, UnitRecord, UnitWellFormed, UnitOps;
    if frames == [] {
      assert [] + tail == tail;
      var res := ReplayLog(tail, crypto);
      if res.Success? {
        assert [] + res.value.0 == res.value.0;
      }
    } else {
      var more := Concat(frames[1..]) + tail;
      ReplayBehind(units[1..], frames[1..], tail, crypto);
      assert Concat(frames) + tail == frames[0] + more;
      ReplayFrame(units[0], frames[0], more, crypto);
      var res := ReplayLog(tail, crypto);
      if res.Success? {
        assert UnitOps(units[0]) + (Flatten(units[1..]) + res.value.0) == Flatten(units) + res.value.0;
      }
    }
  }

  lemma ReplayStops(buf: Bytes, crypto: Crypto)
    ensures buf != [] && DecodeNext(buf, crypto) == Success(None) ==> ReplayLog(buf, crypto) == Success(([], 0))
    ensures buf != [] && DecodeNext(buf, crypto).Failure? ==> ReplayLog(buf, crypto).Failure?
  {
    hide DecodeNext, Expand;
  }

  /** Units written behind a torn record, wherever it is torn: a reopen refuses the log; or takes all of them for the
      rest of the torn record and drops them, as it does whenever the lengths are torn and not a gigabyte follows; or
      accepts what starts there as a record, which it then is, checksum and seal included. */
  lemma TornThenMore(wal: Bytes, unit: Unit, frame: Bytes, cut: nat,
                     later: Bytes, units: seq<Unit>, frames: seq<Bytes>, crypto: Crypto)
    requires LogWhole(wal, crypto) && Frames(frame, UnitRecord(unit), crypto) && 0 < cut < |frame|
    requires LogIs(later, units, frames, crypto) && units != [] && FreshCrypto(crypto)
    ensures var torn := frame[..cut] + later;
      var res := ReplayLog(wal + torn, crypto);
      && |torn| >= FrameHeader(crypto)
      && var n := Claimed(torn, crypto);
         && (cut <= Unreadable(crypto) ==> res.Failure?)
         && (cut > Unreadable(crypto) && |torn| < n ==> res == ReplayLog(wal, crypto))
         && (cut > Unreadable(crypto) && n <= |torn| && res.Success? ==> Genuine(torn[..n], crypto))
         && (LengthsAt(crypto) <= cut < FrameHeader(crypto) ==> n >= 0x4100_0000)
         && (FrameHeader(crypto) <= cut ==> n == |frame| >= CRC_LEN)
         && (FrameHeader(crypto) <= cut && n <= |torn| && res.Success? ==>
               if crypto.None? then CrcMatches(torn[..n], n - CRC_LEN) else torn[..n] == frame)
  {
    hide Frames, ReplayLog, UnitsWellFormed, UnitRecord, DecodeNext, UnitOps, CrcMatches, Claimed, Genuine, Readable;
    var before, done :| LogIs(wal, before, done, crypto);
    var torn, rest := frame[..cut] + later, Concat(frames[1..]);
    ReplayBehind(before, done, torn, crypto);
    WholeLogReplays(wal, before, done, crypto);
    ReplayStops(torn, crypto);
    assert Flatten(before) + [] == Flatten(before);
    assert later == frames[0] + rest;
    NextFits(frames[0], UnitRecord(units[0]), crypto);
    if cut <= Unreadable(crypto) {
      TornRefuses(frame, UnitRecord(unit), frames[0], UnitRecord(units[0]), crypto, cut, rest);
      NextFits(frame, UnitRecord(unit), crypto);
    } else {
      TornClaims(frame, UnitRecord(unit), frames[0], UnitRecord(units[0]), crypto, cut, rest);
      ReadsIff(torn, crypto);
      if FrameHeader(crypto) <= cut && |frame| <= |torn| {
        TornMixes(frame, UnitRecord(unit), crypto, cut, later);
      }
      NextFits(frame, UnitRecord(unit), crypto);
    }
  }

  lemma NextFits(frame: Bytes, record: F.WalRecord, crypto: Crypto)
    requires Frames(frame, record, crypto)
    ensures |frame| >= FrameHeader(crypto) && |frame| >= CRC_LEN
  {
    hide DecodeNext;
    FrameStarts(frame, record, crypto);
    FrameFits(frame, record, crypto);
  }

  // ── the store ──────────────────────────────────────────────────────────

  /** A failed append whose frame got out whole: readers go on without the unit, a reopen shows it. */
  lemma UnsyncedUnit(s: State, e: Event, s': State, c: Config, key: Bytes)
    requires Inv(s, c) && Step(s, e, s', c) && e.AppendFails? && e.cut == |e.frame|
    ensures var db := Contents(s.disk, c.crypto);
      && AllSound(s'.listed, c)
      && Reads.Get(s'.mem, s'.listed, c, key) == Success(if key in db then Some(db[key]) else None)
      && Contents(s'.disk, c.crypto) == ApplyAllToDb(UnitOps(e.unit), db)
  {
    hide Inv, Reads.Get, Sound, Stack, Live, Logged, Frames, UnitWellFormed, UnitRecord, UnitOps, LogWhole;
    Reads.GetIsContents(s, c, key);
    AppendedWhole(s, e, c);
  }

  /** A failed append, cut anywhere, and the next one, which succeeds: a reopen refuses the store; or shows it without
      the unit its caller was told is safe; or what starts at the cut is itself a record of a log. */
  lemma AppendBehindTorn(s: State, failed: Event, s1: State, next: Event, s2: State, c: Config)
    requires Inv(s, c) && FreshCrypto(c.crypto) && Step(s, failed, s1, c) && Step(s1, next, s2, c)
    requires failed.AppendFails? && 0 < failed.cut < |failed.frame| && next.Append?
    ensures var torn := failed.frame[..failed.cut] + next.frame;
      && |torn| >= FrameHeader(c.crypto)
      && var n := Claimed(torn, c.crypto);
         && (failed.cut <= Unreadable(c.crypto) ==> Store.Open(s2.disk, c.crypto).Failure?)
         && (failed.cut > Unreadable(c.crypto) && |torn| < n ==>
               Store.Open(s2.disk, c.crypto).Success? && Contents(s2.disk, c.crypto) == Contents(s.disk, c.crypto))
         && (failed.cut > Unreadable(c.crypto) && n <= |torn| && Store.Open(s2.disk, c.crypto).Success? ==>
               Genuine(torn[..n], c.crypto))
         && (LengthsAt(c.crypto) <= failed.cut < FrameHeader(c.crypto) ==> n >= 0x4100_0000)
         && (FrameHeader(c.crypto) <= failed.cut ==> n == |failed.frame| >= CRC_LEN)
         && (FrameHeader(c.crypto) <= failed.cut && n <= |torn| && Store.Open(s2.disk, c.crypto).Success? ==>
               if c.crypto.None? then CrcMatches(torn[..n], n - CRC_LEN) else torn[..n] == failed.frame)
  {
    hide Sound, Stack, Live, Frames, UnitWellFormed, UnitRecord, UnitOps, LogWhole, ApplyOps, ReplayLog, LoadAll;
    hide CrcMatches, NextId, Written, Placed, Claimed, Genuine;
    var orphan :| RunningInv(s, orphan, c);
    OneFrame(next.unit, next.frame, c.crypto);
    var wal, torn := s.disk.wal, failed.frame[..failed.cut] + next.frame;
    TornThenMore(wal, failed.unit, failed.frame, failed.cut, next.frame, [next.unit], [next.frame], c.crypto);
    assert s2.disk.wal == wal + failed.frame[..failed.cut] + next.frame == wal + torn;
    LoadAllSound(s.disk.ssts, c);
    WholeReplays(wal, c.crypto);
  }

  lemma OneFrame(unit: Unit, frame: Bytes, crypto: Crypto)
    requires UnitWellFormed(unit) && Frames(frame, UnitRecord(unit), crypto)
    ensures LogIs(frame, [unit], [frame], crypto)
  {
    hide Frames, UnitWellFormed, UnitRecord;
    var frames := [frame];
    assert frames[1..] == [] && Concat(frames) == frame + Concat([]) && frame + [] == frame;
  }

  lemma WholeReplays(wal: Bytes, crypto: Crypto)
    requires LogWhole(wal, crypto)
    ensures ReplayLog(wal, crypto).Success?
  {
    hide ReplayLog, LogIs;
    var units, frames :| LogIs(wal, units, frames, crypto);
    WholeLogReplays(wal, units, frames, crypto);
  }

  // ── such runs, concretely ──────────────────────────────────────────────

  /** A put of `size` bytes that fails, and a put of one byte that succeeds. */
  function LongPut(size: nat): Unit {
    One(F.WalRecord(F.Put, [1], Some(seq(size, _ => 0))))
  }

  const SHORT_PUT: Unit := One(F.WalRecord(F.Put, [0], Some([2])))

  lemma PutFrames(size: nat)
    requires size < U32_LIMIT
    ensures UnitWellFormed(LongPut(size)) && UnitWellFormed(SHORT_PUT)
    ensures var long, short := F.Encoded(UnitRecord(LongPut(size))), F.Encoded(UnitRecord(SHORT_PUT));
      && |long| == 20 + size && |short| == 21
      && Frames(long, UnitRecord(LongPut(size)), None) && Frames(short, UnitRecord(SHORT_PUT), None)
  {
    hide F.Encoded, Frames;
    PlainFrame(LongPut(size));
    PlainFrame(SHORT_PUT);
    F.EncodedNonEmpty(UnitRecord(LongPut(size)));
    F.EncodedNonEmpty(UnitRecord(SHORT_PUT));
  }

  /** A whole run of a fresh plaintext store in which one append fails after `cut` bytes, wherever that is
      in the record, and the next one is acknowledged: after a crash the store does not open, or opens without the
      acknowledged unit. */
  lemma AcknowledgedUnitLost(size: nat, cut: nat, c: Config) returns (states: seq<State>, events: seq<Event>)
    requires c.crypto.None? && size < U32_LIMIT && 0 < cut < size - 1
    ensures Run(states, events, c) && Final(states).phase.Down? && Ledger(events) == [Promise(SHORT_PUT, true)]
    ensures ApplyAllToDb(LedgerOps(Ledger(events)), map[]) == map[[0] := [2]]
    ensures if cut <= 6 then Store.Open(Final(states).disk, None).Failure?
            else Store.Open(Final(states).disk, None).Success? && Contents(Final(states).disk, None) == map[]
  {
    hide Step, Inv, Frames, F.Encoded, UnitWellFormed, Store.Open, Contents, Run, Ledger, UnitRecord, UnitOps, ApplyOps;
    var long, short := F.Encoded(UnitRecord(LongPut(size))), F.Encoded(UnitRecord(SHORT_PUT));
    PutFrames(size);
    EmptyOpened(c);
    var s := State(Disk([], []), Ready, map[], [], 0, None, []);
    ReachesInv(s, [], c);
    states, events := Reached(s, [], c);
    var failed, next := AppendFails(LongPut(size), long, cut), Append(SHORT_PUT, short);
    var s1 := s.(disk := Disk([] + long[..cut], []));
    AppendFailsStep(s, failed, s1, c);
    AppendStep(s1, SHORT_PUT, short, c);
    var s2 := s1.(disk := Disk(s1.disk.wal + short, []), phase := Appended, inFlight := Some(SHORT_PUT));
    var s3 := s2.(phase := Ready, mem := ApplyOps(UnitOps(SHORT_PUT), map[]));
    var s4 := s3.(inFlight := None);
    ReturnStep(s3, true, c);
    CrashStep(s4, c);
    AppendBehindTorn(s, failed, s1, next, s2, c);
    states, events := Extended(states, events, failed, s1, c);
    states, events := Extended(states, events, next, s2, c);
    states, events := Extended(states, events, Update, s3, c);
    states, events := Extended(states, events, Return(true), s4, c);
    states, events := Extended(states, events, Crash, s4.(phase := Down), c);
    ShortPutLedger();
  }

  lemma ShortPutLedger()
    ensures ApplyAllToDb(LedgerOps([Promise(SHORT_PUT, true)]), map[]) == map[[0] := [2]]
  {
    var ledger := [Promise(SHORT_PUT, true)];
    var ops := UnitOps(SHORT_PUT);
    assert ledger[..0] == [] && LedgerOps(ledger) == [] + ops == ops && ops[..0] == [];
  }
}
