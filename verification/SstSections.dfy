/** One section of an SST as it lies on disk (`store::sst_block::{seal_section, open_section}`): as it is in a
    plaintext store, in its own envelope in an encrypted one. */
module SstSections {
  import opened Bytes
  import opened Results
  import opened Aead
  import opened CryptoFormat

  function OpenSection(crypto: Crypto, raw: Bytes, id: nat, section: SstSectionType, no: nat): Result<Bytes> {
    match crypto
    case None => Success(raw)
    case Some(ctx) =>
      var envelope :- DecodeEncryptedSstBlock(raw);
      var plain := ctx.OpenSealed(envelope.0, envelope.1, EncryptedSstBlockAad(id, section, no));
      if plain.None? then Failure(CorruptEncryptedSstBlock) else Success(plain.value)
  }

  /** `raw` is what sealing `plain` at the given coordinates wrote. */
  ghost predicate SealedBy(ctx: CryptoContext, raw: Bytes, plain: Bytes, id: nat, section: SstSectionType, no: nat) {
    exists s :: s in ctx.seals && s.key == ctx.dek && s.plain == plain && s.aad == EncryptedSstBlockAad(id, section, no)
                && |s.nonce| == NONCE_LEN && |s.ciphertext| < U32_LIMIT && raw == EncryptedSstBlock(s.nonce, s.ciphertext)
  }

  ghost predicate SealedAs(crypto: Crypto, raw: Bytes, plain: Bytes, id: nat, section: SstSectionType, no: nat) {
    match crypto
    case None => raw == plain
    case Some(ctx) => SealedBy(ctx, raw, plain, id, section, no)
  }

  /** The length a section takes on disk. */
  function OnDiskLen(crypto: Crypto, plainLen: nat): nat {
    if crypto.None? then plainLen else EncryptedSstBlockSealedLen(plainLen)
  }

  predicate Coordinates(id: nat, no: nat) {
    id < U64_LIMIT && no < U32_LIMIT
  }

  /** A sealed section opens with its own coordinates, to what was sealed, and with no others: a section moved
      to another file, another place or another role is refused. */
  lemma SectionOpensExactly(ctx: CryptoContext, raw: Bytes, plain: Bytes, id: nat, section: SstSectionType, no: nat,
                            id': nat, section': SstSectionType, no': nat)
    requires Fresh(ctx.seals) && SealedBy(ctx, raw, plain, id, section, no)
    requires Coordinates(id, no) && Coordinates(id', no')
    ensures OpenSection(Some(ctx), raw, id', section', no')
         == if id' == id && section' == section && no' == no then Success(plain) else Failure(CorruptEncryptedSstBlock)
    ensures |raw| == EncryptedSstBlockSealedLen(|plain|) == |plain| + 50
  {
    hide EncryptedSstBlockAad, DecodeEncryptedSstBlock;
    var s :| s in ctx.seals && s.key == ctx.dek && s.plain == plain && s.aad == EncryptedSstBlockAad(id, section, no)
             && |s.nonce| == NONCE_LEN && |s.ciphertext| < U32_LIMIT && raw == EncryptedSstBlock(s.nonce, s.ciphertext);
    EncryptedSstBlockRoundTrip(s.nonce, s.ciphertext);
    OpenExactly(ctx.seals, s, ctx.dek, EncryptedSstBlockAad(id', section', no'));
    if EncryptedSstBlockAad(id', section', no') == EncryptedSstBlockAad(id, section, no) {
      SstBlockAadInjective(id', section', no', id, section, no);
    }
    assert s.Shaped();
  }

  /** Whatever bytes open at some coordinates are exactly what sealing wrote for those coordinates: no tampered
      section opens. */
  lemma OnlySealedOpens(ctx: CryptoContext, raw: Bytes, id: nat, section: SstSectionType, no: nat)
    requires OpenSection(Some(ctx), raw, id, section, no).Success?
    ensures SealedBy(ctx, raw, OpenSection(Some(ctx), raw, id, section, no).value, id, section, no)
  {
    hide EncryptedSstBlockAad, DecodeEncryptedSstBlock, EncryptedSstBlock;
    var (nonce, ciphertext) := DecodeEncryptedSstBlock(raw).value;
    EncryptedSstBlockCanonical(raw);
    OpenMeansSealed(ctx.seals, ctx.dek, nonce, ciphertext, EncryptedSstBlockAad(id, section, no));
  }

  /** In either mode a section reads back as what was written, and has the expected length. */
  lemma SectionReads(crypto: Crypto, raw: Bytes, plain: Bytes, id: nat, section: SstSectionType, no: nat)
    requires FreshCrypto(crypto) && SealedAs(crypto, raw, plain, id, section, no) && Coordinates(id, no)
    ensures OpenSection(crypto, raw, id, section, no) == Success(plain) && |raw| == OnDiskLen(crypto, |plain|)
  {
    hide OpenSection, SealedBy;
    if crypto.Some? {
      SectionOpensExactly(crypto.value, raw, plain, id, section, no, id, section, no);
    } else {
      PlainOpens(raw, id, section, no);
    }
  }

  lemma PlainOpens(raw: Bytes, id: nat, section: SstSectionType, no: nat)
    ensures OpenSection(None, raw, id, section, no) == Success(raw)
  {
  }
}
