/** The bytes every format begins with, written out: what `format.lock` freezes about magics, versions, tags and
    prefixes, and why bytes of one format never pass for another's. */
module WireLayouts {
  import opened Bytes
  import opened Results
  import opened Tables
  import opened Keys
  import C = CryptoFormat
  import F = WalFormat
  import I = SstIndexFormat
  import M = MemoryFormats
  import S = SstFormat
  import V = VectorFormats

  datatype Format =
    | WalRecord | WalEnvelope | CryptoMeta | EncryptedSstBlock
    | SstHeader | SstDataBlock | SstBlockIndex | SstBloomFilter | SstFooter
    | VectorNode | VectorIndexMeta | MemoryVecMap | MemoryIndexMeta

  /** Magic and version: six bytes. */
  function Lead(format: Format): (r: Bytes)
    ensures |r| == 6
  {
    match format
    case WalRecord => [0x45, 0x53, 0x41, 0x42, 2, 0]
    case WalEnvelope => [0x45, 0x4C, 0x57, 0x42, 1, 0]
    case CryptoMeta => [0x59, 0x45, 0x4B, 0x42, 1, 0]
    case EncryptedSstBlock => [0x45, 0x42, 0x53, 0x42, 1, 0]
    case SstHeader => [0x44, 0x48, 0x42, 0x53, 2, 0]
    case SstDataBlock => [0x4B, 0x4C, 0x42, 0x53, 1, 0]
    case SstBlockIndex => [0x58, 0x49, 0x42, 0x53, 2, 0]
    case SstBloomFilter => [0x4D, 0x4C, 0x42, 0x53, 1, 0]
    case SstFooter => [0x54, 0x46, 0x42, 0x53, 1, 0]
    case VectorNode => [0x44, 0x4F, 0x4E, 0x56, 2, 0]
    case VectorIndexMeta => [0x54, 0x45, 0x4D, 0x56, 1, 0]
    case MemoryVecMap => [0x50, 0x4D, 0x56, 0x4D, 1, 0]
    case MemoryIndexMeta => [0x54, 0x45, 0x4D, 0x4D, 1, 0]
  }

  /** What the decoder of a format makes of `buf` is a value. */
  ghost predicate Accepts(format: Format, buf: Bytes) {
    match format
    case WalRecord => F.Decode(buf).Success? && F.Decode(buf).value.Some?
    case WalEnvelope => C.DecodeWalEnvelope(buf).Success? && C.DecodeWalEnvelope(buf).value.Some?
    case CryptoMeta => C.DecodeCryptoMeta(buf).Success?
    case EncryptedSstBlock => C.DecodeEncryptedSstBlock(buf).Success?
    case SstHeader => S.DecodeSstHeader(buf).Success?
    case SstDataBlock => S.ParseBlock(buf).Success?
    case SstBlockIndex => I.ParseIndex(buf).Success?
    case SstBloomFilter => I.DecodeSstBloomFilter(buf).Success?
    case SstFooter => S.DecodeSstFooter(buf).Success?
    case VectorNode => V.DecodeNode(buf).Success?
    case VectorIndexMeta => V.DecodeVectorMeta(buf).Success?
    case MemoryVecMap => M.DecodeVecMap(buf).Success?
    case MemoryIndexMeta => M.DecodeMeta(buf).Success?
  }

  lemma LeadIs(buf: Bytes, magic: nat, version: nat)
    requires |buf| >= 6 && FromLe(buf[0..4]) == magic && FromLe(buf[4..6]) == version
    ensures buf[..6] == Le(magic, 4) + Le(version, 2)
  {
    hide Le, FromLe;
    FromLeCanonical(buf[0..4]);
    FromLeCanonical(buf[4..6]);
    assert buf[..6] == buf[0..4] + buf[4..6];
  }

  /** The two constants a format's encoder writes first and its decoder compares with. */
  function Constants(format: Format): (nat, nat) {
    match format
    case WalRecord => (F.WAL_MAGIC, F.WAL_RECORD_VERSION)
    case WalEnvelope => (C.WAL_ENVELOPE_MAGIC, C.WAL_ENVELOPE_VERSION)
    case CryptoMeta => (C.CRYPTO_META_MAGIC, C.CRYPTO_META_VERSION)
    case EncryptedSstBlock => (C.ENCRYPTED_SST_BLOCK_MAGIC, C.ENCRYPTED_SST_BLOCK_VERSION)
    case SstHeader => (S.SST_HEADER_MAGIC, S.SST_HEADER_VERSION)
    case SstDataBlock => (S.SST_DATA_BLOCK_MAGIC, S.SST_DATA_BLOCK_VERSION)
    case SstBlockIndex => (I.SST_BLOCK_INDEX_MAGIC, I.SST_BLOCK_INDEX_VERSION)
    case SstBloomFilter => (I.SST_BLOOM_MAGIC, I.SST_BLOOM_VERSION)
    case SstFooter => (S.SST_FOOTER_MAGIC, S.SST_FOOTER_VERSION)
    case VectorNode => (V.VECTOR_NODE_MAGIC, V.VECTOR_NODE_VERSION)
    case VectorIndexMeta => (V.VECTOR_META_MAGIC, V.VECTOR_META_VERSION)
    case MemoryVecMap => (M.VECMAP_MAGIC, M.VERSION)
    case MemoryIndexMeta => (M.META_MAGIC, M.VERSION)
  }

  lemma ConstantsAre(format: Format)
    ensures Le(Constants(format).0, 4) + Le(Constants(format).1, 2) == Lead(format)
  {
    var magic, version, lead := Constants(format).0, Constants(format).1, Lead(format);
    FourBytes(magic, lead[0], lead[1], lead[2], lead[3]);
    TwoBytes(version);
  }

  lemma FourBytes(n: nat, b0: byte, b1: byte, b2: byte, b3: byte)
    requires n == b0 + 256 * (b1 + 256 * (b2 + 256 * b3))
    ensures Le(n, 4) == [b0, b1, b2, b3]
  {
    var n1, n2 := b1 + 256 * (b2 + 256 * b3), b2 + 256 * b3;
    assert n / 256 == n1 && n1 / 256 == n2;
    assert Le(n2, 2) == [b2, b3] && Le(n1, 3) == [b1] + Le(n2, 2);
  }

  lemma TwoBytes(n: nat)
    requires n < 256
    ensures Le(n, 2) == [n, 0]
  {
  }

  /** A decoder takes only bytes that begin as its own format does. */
  lemma AcceptedBegins(format: Format, buf: Bytes)
    requires Accepts(format, buf)
    ensures |buf| >= 6 && buf[..6] == Lead(format)
  {
    hide Le, FromLe, Lead;
    LeadIs(buf, Constants(format).0, Constants(format).1);
    ConstantsAre(format);
  }

  /** What the two log decoders take for a torn tail: whatever is too short to have a header, or a magic, and beyond that
      only what begins as a log does. */
  lemma TornBegins(buf: Bytes)
    ensures |buf| < 15 ==> F.Decode(buf) == Success(None)
    ensures F.Decode(buf) == Success(None) && |buf| >= 15 ==> buf[..6] == Lead(WalRecord)
    ensures |buf| < 4 ==> C.DecodeWalEnvelope(buf) == Success(None)
    ensures C.DecodeWalEnvelope(buf) == Success(None) && |buf| >= 4 ==> buf[..4] == Lead(WalEnvelope)[..4]
    ensures C.DecodeWalEnvelope(buf) == Success(None) && |buf| >= 34 ==> buf[..6] == Lead(WalEnvelope)
  {
    hide Le, FromLe, Lead;
    ConstantsAre(WalRecord);
    ConstantsAre(WalEnvelope);
    if |buf| >= 15 && F.Decode(buf) == Success(None) {
      LeadIs(buf, F.WAL_MAGIC, F.WAL_RECORD_VERSION);
    }
    if |buf| >= 4 && C.DecodeWalEnvelope(buf) == Success(None) {
      FromLeCanonical(buf[0..4]);
      assert buf[..4] == Le(C.WAL_ENVELOPE_MAGIC, 4) == Lead(WalEnvelope)[..4];
      if |buf| >= 34 {
        LeadIs(buf, C.WAL_ENVELOPE_MAGIC, C.WAL_ENVELOPE_VERSION);
      }
    }
  }

  /** So nothing that one format's decoder takes is taken by another's. */
  lemma FormatsDisjoint(a: Format, b: Format, buf: Bytes)
    requires Accepts(a, buf) && Accepts(b, buf)
    ensures a == b
  {
    hide Accepts;
    AcceptedBegins(a, buf);
    AcceptedBegins(b, buf);
    LeadsDistinct(a, b);
  }

  lemma LeadsDistinct(a: Format, b: Format)
    requires Lead(a) == Lead(b)
    ensures a == b
  {
    var x, y := Lead(a), Lead(b);
    assert x[0] == y[0] && x[1] == y[1] && x[2] == y[2] && x[3] == y[3];
  }

  // ── associated data ────────────────────────────────────────────────────

  /** What each seal is bound to; no two artifacts share it. */
  lemma AssociatedData(meta: C.CryptoMeta, id: nat, section: C.SstSectionType, no: nat)
    ensures C.WalEnvelopeAad() == [0x45, 0x4C, 0x57, 0x42, 1, 0]
    ensures meta.WrapAad() == [0x59, 0x45, 0x4B, 0x42, 1, 0] + meta.salt
    ensures C.EncryptedSstBlockAad(id, section, no)
         == [0x45, 0x42, 0x53, 0x42, 1, 0] + Le(id, 8)
            + [if section.Data? then 0 else if section.Index? then 1 else if section.Bloom? then 2 else 3] + Le(no, 4)
    ensures C.WalEnvelopeAad() != meta.WrapAad() && C.WalEnvelopeAad() != C.EncryptedSstBlockAad(id, section, no)
    ensures meta.WrapAad() != C.EncryptedSstBlockAad(id, section, no)
  {
    hide Le;
    ConstantsAre(WalEnvelope);
    ConstantsAre(CryptoMeta);
    ConstantsAre(EncryptedSstBlock);
    assert meta.WrapAad()[0] == 0x59 && C.EncryptedSstBlockAad(id, section, no)[0] == 0x45;
    assert C.EncryptedSstBlockAad(id, section, no)[1] == 0x42 && C.WalEnvelopeAad()[1] == 0x4C;
  }

  // ── keys ───────────────────────────────────────────────────────────────

  /** The names of the keyspaces, put first by every key constructor. */
  lemma VectorAndGraphNames()
    ensures NODE_PREFIX == Ascii("idx/vector/node/") && VECTOR_META_KEY == Ascii("idx/vector/meta")
    ensures ENTITY_PREFIX == Ascii("idx/graph/entity/") && EDGE_PREFIX == Ascii("idx/graph/edge/")
  {
  }

  /** The keyspaces of the disjointness law are these. */
  lemma Prefixes()
    ensures PrefixOf(Nodes) == NODE_PREFIX && PrefixOf(VectorMeta) == VECTOR_META_KEY && PrefixOf(Edges) == EDGE_PREFIX
    ensures PrefixOf(Entities) == ENTITY_PREFIX && PrefixOf(Records) == RECORD_PREFIX && PrefixOf(Vecmaps) == VECMAP_PREFIX
    ensures PrefixOf(MemoryMeta) == MEMORY_META_KEY && PrefixOf(Postings) == POSTINGS_PREFIX
    ensures PrefixOf(DocTerms) == DOCTERMS_PREFIX && PrefixOf(FtsMeta) == FTS_META_PREFIX
    ensures PrefixOf(Expiries) == EXPIRY_PREFIX && PrefixOf(Registry) == REGISTRY_PREFIX
  {
    hide Ascii;
  }

  lemma MemoryNames()
    ensures RECORD_PREFIX == Ascii("idx/memory/rec/") && VECMAP_PREFIX == Ascii("idx/memory/vecmap/")
    ensures MEMORY_META_KEY == Ascii("idx/memory/meta") && REGISTRY_PREFIX == Ascii("meta/agents/")
  {
  }

  lemma TextNames()
    ensures POSTINGS_PREFIX == Ascii("idx/fts/postings/") && DOCTERMS_PREFIX == Ascii("idx/fts/docterms/")
    ensures FTS_META_PREFIX == Ascii("idx/fts/meta/") && FTS_PREFIX == Ascii("idx/fts/")
  {
  }

  lemma ExpiryName()
    ensures EXPIRY_PREFIX == Ascii("idx/temporal/expiry/")
  {
  }
}
