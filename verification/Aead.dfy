/** The ideal authenticated cipher the stores are sealed with. XChaCha20-Poly1305 itself is not
    modelled: sealing is an entry in the list of everything sealed so far, and opening succeeds
    exactly for an entry of that list, under the same key, nonce, associated data and ciphertext. */
module Aead {
  import opened Bytes
  import opened Results

  const NONCE_LEN: nat := 24
  const AEAD_TAG_LEN: nat := 16

  datatype Seal = Seal(key: Bytes, nonce: Bytes, aad: Bytes, plain: Bytes, ciphertext: Bytes) {
    predicate Shaped() {
      |nonce| == NONCE_LEN && |ciphertext| == |plain| + AEAD_TAG_LEN
    }
  }

  /** No nonce was ever drawn twice. */
  predicate Fresh(seals: seq<Seal>) {
    && (forall i :: 0 <= i < |seals| ==> seals[i].Shaped())
    && (forall i, j :: 0 <= i < j < |seals| ==> seals[i].nonce != seals[j].nonce)
  }

  function Open(seals: seq<Seal>, key: Bytes, nonce: Bytes, ciphertext: Bytes, aad: Bytes): Option<Bytes> {
    if seals == [] then None
    else
      var s := seals[0];
      if s.key == key && s.nonce == nonce && s.ciphertext == ciphertext && s.aad == aad then Some(s.plain)
      else Open(seals[1..], key, nonce, ciphertext, aad)
  }

  /** With fresh nonces, a ciphertext opens only with everything it was sealed with. */
  lemma {:induction false} OpenExactly(seals: seq<Seal>, s: Seal, key: Bytes, aad: Bytes)
    requires Fresh(seals) && s in seals
    ensures Open(seals, key, s.nonce, s.ciphertext, aad) ==
            if key == s.key && aad == s.aad then Some(s.plain) else None
  {
    var i :| 0 <= i < |seals| && seals[i] == s;
    if i == 0 {
      NeverSealed(seals[1..], key, s.nonce, s.ciphertext, aad);
    } else {
      assert seals[1..][i - 1] == s;
      OpenExactly(seals[1..], s, key, aad);
    }
  }

  lemma {:induction false} NeverSealed(seals: seq<Seal>, key: Bytes, nonce: Bytes, ciphertext: Bytes, aad: Bytes)
    requires forall i :: 0 <= i < |seals| ==> seals[i].nonce != nonce
    ensures Open(seals, key, nonce, ciphertext, aad) == None
  {
    if seals != [] {
      NeverSealed(seals[1..], key, nonce, ciphertext, aad);
    }
  }

  /** Nothing opens that was not sealed. */
  lemma {:induction false} OpenMeansSealed(seals: seq<Seal>, key: Bytes, nonce: Bytes, ciphertext: Bytes, aad: Bytes)
    requires Open(seals, key, nonce, ciphertext, aad).Some?
    ensures Seal(key, nonce, aad, Open(seals, key, nonce, ciphertext, aad).value, ciphertext) in seals
  {
    var s := seals[0];
    if !(s.key == key && s.nonce == nonce && s.ciphertext == ciphertext && s.aad == aad) {
      OpenMeansSealed(seals[1..], key, nonce, ciphertext, aad);
    }
  }

  /** The unsealed data key of an opened store, in a world where `seals` have been made. */
  datatype CryptoContext = CryptoContext(dek: Bytes, seals: seq<Seal>) {
    function OpenSealed(nonce: Bytes, ciphertext: Bytes, aad: Bytes): Option<Bytes> {
      Open(seals, dek, nonce, ciphertext, aad)
    }
  }

  /** `None` is a plaintext store. */
  type Crypto = Option<CryptoContext>

  /** Nothing this store's key ever sealed shares a nonce. */
  predicate FreshCrypto(crypto: Crypto) {
    crypto.Some? ==> Fresh(crypto.value.seals)
  }
}
