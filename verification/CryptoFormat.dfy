/** Byte layouts of encryption at rest (`format::crypto`): `crypto.meta`, the WAL envelope,
    the per-section SST envelope, and the associated data each seal is bound to. */
module CryptoFormat {
  import opened Bytes
  import opened Checksum
  import opened Results
  import opened Aead

  const CRYPTO_META_MAGIC: nat := 0x424B_4559
  const CRYPTO_META_VERSION: nat := 1
  const WAL_ENVELOPE_MAGIC: nat := 0x4257_4C45
  const WAL_ENVELOPE_VERSION: nat := 1
  const ENCRYPTED_SST_BLOCK_MAGIC: nat := 0x4253_4245
  const ENCRYPTED_SST_BLOCK_VERSION: nat := 1
  const SALT_LEN: nat := 16

  datatype SstSectionType = Data | Index | Bloom | Footer

  function SectionTag(section: SstSectionType): byte {
    match section
    case Data => 0
    case Index => 1
    case Bloom => 2
    case Footer => 3
  }

  // ── associated data ────────────────────────────────────────────────────

  function WalEnvelopeAad(): Bytes {
    Le(WAL_ENVELOPE_MAGIC, 4) + Le(WAL_ENVELOPE_VERSION, 2)
  }

  function EncryptedSstBlockAad(sstId: nat, section: SstSectionType, sectionNo: nat): Bytes {
    Le(ENCRYPTED_SST_BLOCK_MAGIC, 4) + Le(ENCRYPTED_SST_BLOCK_VERSION, 2)
    + Le(sstId, 8) + [SectionTag(section)] + Le(sectionNo, 4)
  }

  /** The associated data names the section: no two coordinates share it. */
  lemma SstBlockAadInjective(id: nat, s: SstSectionType, no: nat, id': nat, s': SstSectionType, no': nat)
    requires id < U64_LIMIT && id' < U64_LIMIT && no < U32_LIMIT && no' < U32_LIMIT
    requires EncryptedSstBlockAad(id, s, no) == EncryptedSstBlockAad(id', s', no')
    ensures id == id' && s == s' && no == no'
  {
    hide Le;
    var a, b := EncryptedSstBlockAad(id, s, no), EncryptedSstBlockAad(id', s', no');
    var p := Le(ENCRYPTED_SST_BLOCK_MAGIC, 4) + Le(ENCRYPTED_SST_BLOCK_VERSION, 2);
    Middle(p, Le(id, 8), [SectionTag(s)] + Le(no, 4));
    Middle(p, Le(id', 8), [SectionTag(s')] + Le(no', 4));
    assert a == p + Le(id, 8) + ([SectionTag(s)] + Le(no, 4));
    assert b == p + Le(id', 8) + ([SectionTag(s')] + Le(no', 4));
    assert a[14] == SectionTag(s) && b[14] == SectionTag(s');
    assert a[15..] == Le(no, 4) && b[15..] == Le(no', 4);
    SpanLiterals();
    LeInjective(id, id', 8);
    LeInjective(no, no', 4);
  }

  // ── envelopes ──────────────────────────────────────────────────────────

  const ENVELOPE_HEADER_LEN: nat := 34

  function EnvelopeHeader(magic: nat, version: nat, nonce: Bytes, ctLen: nat): (r: Bytes)
    requires |nonce| == NONCE_LEN
    ensures |r| == ENVELOPE_HEADER_LEN
  {
    Le(magic, 4) + Le(version, 2) + nonce + Le(ctLen, 4)
  }

  lemma EnvelopeFields(magic: nat, version: nat, nonce: Bytes, ctLen: nat)
    requires magic < U32_LIMIT && version < U16_LIMIT && |nonce| == NONCE_LEN && ctLen < U32_LIMIT
    ensures var h := EnvelopeHeader(magic, version, nonce, ctLen);
      FromLe(h[0..4]) == magic && FromLe(h[4..6]) == version && h[6..30] == nonce && FromLe(h[30..34]) == ctLen
  {
    hide Le;
    var h, m, v, c := EnvelopeHeader(magic, version, nonce, ctLen), Le(magic, 4), Le(version, 2), Le(ctLen, 4);
    Middle([], m, v + nonce + c);
    assert h == [] + m + (v + nonce + c);
    Middle(m, v, nonce + c);
    assert h == m + v + (nonce + c);
    Middle(m + v, nonce, c);
    Middle(m + v + nonce, c, []);
    assert h == m + v + nonce + c + [];
    SpanLiterals();
    LeRoundTrip(magic, 4);
    LeRoundTrip(version, 2);
    LeRoundTrip(ctLen, 4);
  }

  function WalEnvelope(nonce: Bytes, ciphertext: Bytes): Bytes
    requires |nonce| == NONCE_LEN
  {
    EnvelopeHeader(WAL_ENVELOPE_MAGIC, WAL_ENVELOPE_VERSION, nonce, |ciphertext|) + ciphertext
  }

  method EncodeWalEnvelope(nonce: Bytes, ciphertext: Bytes) returns (buf: Bytes)
    requires |nonce| == NONCE_LEN
    ensures buf == WalEnvelope(nonce, ciphertext)
  {
    buf := Le(WAL_ENVELOPE_MAGIC, 4);
    buf := buf + Le(WAL_ENVELOPE_VERSION, 2);
    buf := buf + nonce;
    buf := buf + Le(|ciphertext|, 4);
    buf := buf + ciphertext;
  }

  /** Nonce, ciphertext and length of the envelope at the front of `buf`; `None` is a torn tail. */
  function DecodeWalEnvelope(buf: Bytes): (res: Result<Option<(Bytes, Bytes, nat)>>)
    ensures res.Success? && res.value.Some? ==>
              ENVELOPE_HEADER_LEN <= res.value.value.2 <= |buf| && |res.value.value.0| == NONCE_LEN
  {
    if |buf| < 4 then Success(None)
    else if FromLe(buf[0..4]) != WAL_ENVELOPE_MAGIC then Failure(CorruptWal)
    else if |buf| < ENVELOPE_HEADER_LEN then Success(None)
    else if FromLe(buf[4..6]) != WAL_ENVELOPE_VERSION then
      Failure(UnsupportedFormatVersion(WAL_ENVELOPE_VERSION, FromLe(buf[4..6])))
    else
      var end := ENVELOPE_HEADER_LEN + FromLe(buf[30..34]);
      if |buf| < end then Success(None)
      else Success(Some((buf[6..30], buf[ENVELOPE_HEADER_LEN..end], end)))
  }

  lemma WalEnvelopeRoundTrip(nonce: Bytes, ciphertext: Bytes, tail: Bytes)
    requires |nonce| == NONCE_LEN && |ciphertext| < U32_LIMIT
    ensures DecodeWalEnvelope(WalEnvelope(nonce, ciphertext) + tail)
         == Success(Some((nonce, ciphertext, |WalEnvelope(nonce, ciphertext)|)))
  {
    hide Le, FromLe;
    var h := EnvelopeHeader(WAL_ENVELOPE_MAGIC, WAL_ENVELOPE_VERSION, nonce, |ciphertext|);
    var buf := WalEnvelope(nonce, ciphertext) + tail;
    EnvelopeFields(WAL_ENVELOPE_MAGIC, WAL_ENVELOPE_VERSION, nonce, |ciphertext|);
    assert buf[0..4] == h[0..4] && buf[4..6] == h[4..6] && buf[6..30] == h[6..30] && buf[30..34] == h[30..34];
    assert buf[ENVELOPE_HEADER_LEN..ENVELOPE_HEADER_LEN + |ciphertext|] == ciphertext;
  }

  lemma WalEnvelopeTorn(nonce: Bytes, ciphertext: Bytes, cut: nat)
    requires |nonce| == NONCE_LEN && |ciphertext| < U32_LIMIT && cut < |WalEnvelope(nonce, ciphertext)|
    ensures DecodeWalEnvelope(WalEnvelope(nonce, ciphertext)[..cut]) == Success(None)
  {
    hide Le, FromLe;
    var h := EnvelopeHeader(WAL_ENVELOPE_MAGIC, WAL_ENVELOPE_VERSION, nonce, |ciphertext|);
    var buf := WalEnvelope(nonce, ciphertext)[..cut];
    EnvelopeFields(WAL_ENVELOPE_MAGIC, WAL_ENVELOPE_VERSION, nonce, |ciphertext|);
    if 4 <= cut {
      assert buf[0..4] == h[0..4];
    }
    if ENVELOPE_HEADER_LEN <= cut {
      assert buf[4..6] == h[4..6] && buf[30..34] == h[30..34];
    }
  }

  function EncryptedSstBlock(nonce: Bytes, ciphertext: Bytes): Bytes
    requires |nonce| == NONCE_LEN
  {
    EnvelopeHeader(ENCRYPTED_SST_BLOCK_MAGIC, ENCRYPTED_SST_BLOCK_VERSION, nonce, |ciphertext|) + ciphertext
  }

  function EncryptedSstBlockSealedLen(plainLen: nat): nat {
    ENVELOPE_HEADER_LEN + plainLen + AEAD_TAG_LEN
  }

  /** No torn tail here: a section is read at a known offset and length. */
  function DecodeEncryptedSstBlock(buf: Bytes): (res: Result<(Bytes, Bytes)>)
    ensures res.Success? ==> |res.value.0| == NONCE_LEN
  {
    if |buf| < ENVELOPE_HEADER_LEN then Failure(CorruptEncryptedSstBlock)
    else if FromLe(buf[0..4]) != ENCRYPTED_SST_BLOCK_MAGIC then Failure(CorruptEncryptedSstBlock)
    else if FromLe(buf[4..6]) != ENCRYPTED_SST_BLOCK_VERSION then
      Failure(UnsupportedEncryptedSstBlockVersion(ENCRYPTED_SST_BLOCK_VERSION, FromLe(buf[4..6])))
    else if FromLe(buf[30..34]) != |buf| - ENVELOPE_HEADER_LEN then Failure(CorruptEncryptedSstBlock)
    else Success((buf[6..30], buf[ENVELOPE_HEADER_LEN..]))
  }

  lemma EncryptedSstBlockRoundTrip(nonce: Bytes, ciphertext: Bytes)
    requires |nonce| == NONCE_LEN && |ciphertext| < U32_LIMIT
    ensures DecodeEncryptedSstBlock(EncryptedSstBlock(nonce, ciphertext)) == Success((nonce, ciphertext))
  {
    hide Le, FromLe;
    var h := EnvelopeHeader(ENCRYPTED_SST_BLOCK_MAGIC, ENCRYPTED_SST_BLOCK_VERSION, nonce, |ciphertext|);
    var buf := EncryptedSstBlock(nonce, ciphertext);
    EnvelopeFields(ENCRYPTED_SST_BLOCK_MAGIC, ENCRYPTED_SST_BLOCK_VERSION, nonce, |ciphertext|);
    assert buf[0..4] == h[0..4] && buf[4..6] == h[4..6] && buf[6..30] == h[6..30] && buf[30..34] == h[30..34];
    assert buf[ENVELOPE_HEADER_LEN..] == ciphertext;
  }

  lemma EncryptedSstBlockCanonical(buf: Bytes)
    requires DecodeEncryptedSstBlock(buf).Success?
    ensures var (nonce, ciphertext) := DecodeEncryptedSstBlock(buf).value;
      buf == EncryptedSstBlock(nonce, ciphertext) && |ciphertext| < U32_LIMIT
  {
    hide Le, FromLe;
    SpanLiterals();
    FromLeCanonical(buf[0..4]);
    FromLeCanonical(buf[4..6]);
    FromLeCanonical(buf[30..34]);
    assert buf == buf[0..4] + buf[4..6] + buf[6..30] + buf[30..34] + buf[34..];
  }

  // ── crypto.meta ────────────────────────────────────────────────────────

  datatype CryptoMeta = CryptoMeta(salt: Bytes, wrapNonce: Bytes, wrappedDek: Bytes) {
    predicate Shaped() {
      |salt| == SALT_LEN && |wrapNonce| == NONCE_LEN && |wrappedDek| < U32_LIMIT
    }

    /** Binds the key seal to this file's header. */
    function WrapAad(): Bytes {
      Le(CRYPTO_META_MAGIC, 4) + Le(CRYPTO_META_VERSION, 2) + salt
    }
  }

  const CRYPTO_META_HEADER_LEN: nat := 50

  function MetaBody(meta: CryptoMeta): Bytes {
    Le(CRYPTO_META_MAGIC, 4) + Le(CRYPTO_META_VERSION, 2) + meta.salt + meta.wrapNonce
    + Le(|meta.wrappedDek|, 4) + meta.wrappedDek
  }

  function MetaFile(meta: CryptoMeta): Bytes {
    MetaBody(meta) + CrcBytes(MetaBody(meta))
  }

  method EncodeCryptoMeta(meta: CryptoMeta) returns (buf: Bytes)
    ensures buf == MetaFile(meta)
  {
    buf := Le(CRYPTO_META_MAGIC, 4);
    buf := buf + Le(CRYPTO_META_VERSION, 2);
    buf := buf + meta.salt;
    buf := buf + meta.wrapNonce;
    buf := buf + Le(|meta.wrappedDek|, 4);
    buf := buf + meta.wrappedDek;
    var crc := Crc32(buf);
    buf := buf + Le(Value(crc), 4);
  }

  function DecodeCryptoMeta(buf: Bytes): (res: Result<CryptoMeta>)
    ensures res.Success? ==> |res.value.salt| == SALT_LEN && |res.value.wrapNonce| == NONCE_LEN
  {
    if |buf| < CRYPTO_META_HEADER_LEN + CRC_LEN then Failure(CorruptCryptoMeta)
    else
      var crcAt := |buf| - CRC_LEN;
      if FromLe(buf[crcAt..]) != Value(Crc(buf[..crcAt])) then Failure(CorruptCryptoMeta)
      else if FromLe(buf[0..4]) != CRYPTO_META_MAGIC then Failure(CorruptCryptoMeta)
      else if FromLe(buf[4..6]) != CRYPTO_META_VERSION then
        Failure(UnsupportedFormatVersion(CRYPTO_META_VERSION, FromLe(buf[4..6])))
      else if FromLe(buf[46..50]) != crcAt - CRYPTO_META_HEADER_LEN then Failure(CorruptCryptoMeta)
      else Success(CryptoMeta(buf[6..22], buf[22..46], buf[50..crcAt]))
  }

  lemma CryptoMetaRoundTrip(meta: CryptoMeta)
    requires meta.Shaped()
    ensures DecodeCryptoMeta(MetaFile(meta)) == Success(meta)
  {
    hide Le, FromLe, Crc, CrcBytes, Value;
    var buf, body := MetaFile(meta), MetaBody(meta);
    var m, v, n := Le(CRYPTO_META_MAGIC, 4), Le(CRYPTO_META_VERSION, 2), Le(|meta.wrappedDek|, 4);
    var crcAt := |buf| - CRC_LEN;
    SpanLiterals();
    LeRoundTrip(CRYPTO_META_MAGIC, 4);
    LeRoundTrip(CRYPTO_META_VERSION, 2);
    LeRoundTrip(|meta.wrappedDek|, 4);
    StoredCrc(body);
    assert buf[crcAt..] == CrcBytes(body) && buf[..crcAt] == body;
    var p2 := m + v;
    var p3 := p2 + meta.salt;
    var p4 := p3 + meta.wrapNonce;
    var p5 := p4 + n;
    assert body == p5 + meta.wrappedDek && buf == body + CrcBytes(body);
    assert [] + m == m;
    FieldAt(buf, [], m);
    FieldAt(buf, m, v);
    FieldAt(buf, p2, meta.salt);
    FieldAt(buf, p3, meta.wrapNonce);
    FieldAt(buf, p4, n);
    FieldAt(buf, p5, meta.wrappedDek);
  }
}
