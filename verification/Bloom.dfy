/** The bloom filter of an SST (`store::sst_block`, and its prototype in the block-size spike):
    double hashing over a bit array, for whatever two hash functions it is given. */
module Bloom {
  import opened Bytes
  import opened Checksum

  const BLOOM_BITS_PER_KEY: nat := 10
  const BLOOM_NUM_HASHES: nat := 7

  /** The two hashes of a key; the second is made odd. */
  datatype Hasher = Hasher(h1: Bytes -> nat, h2: Bytes -> nat) {
    /** The `i`-th bit of `key`, in wrapping 64-bit arithmetic. */
    function Position(key: Bytes, i: nat, numBits: nat): (r: nat)
      requires numBits > 0
      ensures r < numBits
    {
      var step := h2(key) - h2(key) % 2 + 1;
      (h1(key) + i * step % U64_LIMIT) % U64_LIMIT % numBits
    }
  }

  predicate HasBit(bits: Bytes, at: nat)
    requires at < 8 * |bits|
  {
    ToBits(bits[at / 8], 8)[at % 8]
  }

  /** `bits[at / 8] |= 1 << (at % 8)` */
  function SetBit(bits: Bytes, at: nat): (r: Bytes)
    requires at < 8 * |bits|
    ensures |r| == |bits|
  {
    var raised := ToBits(bits[at / 8], 8)[at % 8 := true];
    ToBitsValue(raised);
    assert Pow2(8) == 256;
    bits[at / 8 := Value(raised)]
  }

  lemma SetBitSetsOnly(bits: Bytes, at: nat, k: nat)
    requires at < 8 * |bits| && k < 8 * |bits|
    ensures HasBit(SetBit(bits, at), k) <==> k == at || HasBit(bits, k)
  {
    ToBitsValue(ToBits(bits[at / 8], 8)[at % 8 := true]);
    if k / 8 == at / 8 && k != at {
      assert k % 8 != at % 8;
    }
  }

  /** The bit count a filter works with, which may leave a few bits of the last byte unused. */
  predicate Sized(bits: Bytes, numBits: nat) {
    0 < numBits <= 8 * |bits|
  }

  predicate Contains(bits: Bytes, numBits: nat, hasher: Hasher, key: Bytes)
    requires Sized(bits, numBits)
  {
    forall i :: 0 <= i < BLOOM_NUM_HASHES ==> HasBit(bits, hasher.Position(key, i, numBits))
  }

  ghost predicate Covers(more: Bytes, bits: Bytes) {
    |more| == |bits| && forall k :: 0 <= k < 8 * |bits| && HasBit(bits, k) ==> HasBit(more, k)
  }

  /** The bits after the first `count` hash positions of `key` are raised. */
  function Inserted(bits: Bytes, numBits: nat, hasher: Hasher, key: Bytes, count: nat): (r: Bytes)
    requires Sized(bits, numBits)
    ensures |r| == |bits|
  {
    if count == 0 then bits
    else SetBit(Inserted(bits, numBits, hasher, key, count - 1), hasher.Position(key, count - 1, numBits))
  }

  /** Inserting makes the key a member and takes no member away. */
  method Insert(bits: Bytes, numBits: nat, hasher: Hasher, key: Bytes) returns (r: Bytes)
    requires Sized(bits, numBits)
    ensures r == Inserted(bits, numBits, hasher, key, BLOOM_NUM_HASHES)
    ensures Covers(r, bits) && Contains(r, numBits, hasher, key)
  {
    r := bits;
    for i := 0 to BLOOM_NUM_HASHES
      invariant r == Inserted(bits, numBits, hasher, key, i)
    {
      var at := hasher.Position(key, i, numBits);
      r := SetBit(r, at);
    }
    InsertedContains(bits, numBits, hasher, key, BLOOM_NUM_HASHES);
  }

  /** Which bit is probed: `h1 + i * (h2 | 1)` reduced to 64 bits, then to the number of bits. */
  lemma PositionIs(hasher: Hasher, key: Bytes, i: nat, numBits: nat, total: nat)
    requires numBits > 0 && total < 0x1_0000_0000_0000_0000
    requires var odd := if hasher.h2(key) % 2 == 1 then hasher.h2(key) else hasher.h2(key) + 1;
      (hasher.h1(key) + i * odd - total) % 0x1_0000_0000_0000_0000 == 0
    ensures hasher.Position(key, i, numBits) == total % numBits
  {
    var step := hasher.h2(key) - hasher.h2(key) % 2 + 1;
    Wraps(hasher.h1(key), i * step, total);
  }

  lemma Wraps(a: nat, b: nat, total: nat)
    requires total < U64_LIMIT && (a + b - total) % U64_LIMIT == 0
    ensures (a + b % U64_LIMIT) % U64_LIMIT == total
  {
  }

  lemma RaisedBit(before: Bytes, after: Bytes, at: nat)
    requires at < 8 * |before| && after == SetBit(before, at)
    ensures Covers(after, before) && HasBit(after, at)
  {
    hide HasBit, SetBit;
    forall k | 0 <= k < 8 * |before| && HasBit(before, k)
      ensures HasBit(after, k)
    {
      SetBitSetsOnly(before, at, k);
    }
    SetBitSetsOnly(before, at, at);
  }

  lemma {:induction false} InsertedContains(bits: Bytes, numBits: nat, hasher: Hasher, key: Bytes, count: nat)
    requires Sized(bits, numBits)
    ensures var r := Inserted(bits, numBits, hasher, key, count);
      && Covers(r, bits)
      && forall i :: 0 <= i < count ==> HasBit(r, hasher.Position(key, i, numBits))
  {
    hide HasBit, SetBit;
    if count > 0 {
      InsertedContains(bits, numBits, hasher, key, count - 1);
      var before := Inserted(bits, numBits, hasher, key, count - 1);
      RaisedBit(before, Inserted(bits, numBits, hasher, key, count), hasher.Position(key, count - 1, numBits));
    }
  }

  /** The bits after inserting every key in turn. */
  function InsertedAll(bits: Bytes, numBits: nat, hasher: Hasher, keys: seq<Bytes>): (r: Bytes)
    requires Sized(bits, numBits)
    ensures |r| == |bits|
  {
    if keys == [] then bits
    else Inserted(InsertedAll(bits, numBits, hasher, keys[..|keys| - 1]), numBits, hasher, keys[|keys| - 1],
                  BLOOM_NUM_HASHES)
  }

  lemma {:induction false} InsertedBits(bits: Bytes, numBits: nat, hasher: Hasher, key: Bytes, count: nat, k: nat)
    requires Sized(bits, numBits) && k < 8 * |bits|
    ensures HasBit(Inserted(bits, numBits, hasher, key, count), k)
        <==> HasBit(bits, k) || exists i: nat :: i < count && hasher.Position(key, i, numBits) == k
  {
    hide HasBit, SetBit;
    if count > 0 {
      InsertedBits(bits, numBits, hasher, key, count - 1, k);
      SetBitSetsOnly(Inserted(bits, numBits, hasher, key, count - 1), hasher.Position(key, count - 1, numBits), k);
    }
  }

  /** One of the seven bits of `key` is `k`. */
  ghost predicate Probes(hasher: Hasher, numBits: nat, key: Bytes, k: nat)
    requires numBits > 0
  {
    exists i: nat :: i < 7 && hasher.Position(key, i, numBits) == k
  }

  /** A bit is raised exactly if some inserted key probes it. */
  lemma {:induction false} FilterBits(bits: Bytes, numBits: nat, hasher: Hasher, keys: seq<Bytes>, k: nat)
    requires Sized(bits, numBits) && k < 8 * |bits|
    ensures HasBit(InsertedAll(bits, numBits, hasher, keys), k)
        <==> HasBit(bits, k) || exists j :: 0 <= j < |keys| && Probes(hasher, numBits, keys[j], k)
  {
    hide HasBit, SetBit, Inserted;
    if keys != [] {
      var n := |keys| - 1;
      FilterBits(bits, numBits, hasher, keys[..n], k);
      var before := InsertedAll(bits, numBits, hasher, keys[..n]);
      InsertedBits(before, numBits, hasher, keys[n], 7, k);
      assert InsertedAll(bits, numBits, hasher, keys) == Inserted(before, numBits, hasher, keys[n], 7);
      forall j | 0 <= j < n
        ensures keys[..n][j] == keys[j]
      {
      }
    }
  }

  /** A key is a member exactly if all of its seven bits are raised by members. */
  lemma MemberIff(bits: Bytes, numBits: nat, hasher: Hasher, keys: seq<Bytes>, key: Bytes)
    requires Sized(bits, numBits) && forall k :: 0 <= k < 8 * |bits| ==> !HasBit(bits, k)
    ensures Contains(InsertedAll(bits, numBits, hasher, keys), numBits, hasher, key)
        <==> forall k: nat :: k < 8 * |bits| && Probes(hasher, numBits, key, k) ==>
               exists j :: 0 <= j < |keys| && Probes(hasher, numBits, keys[j], k)
  {
    hide HasBit, InsertedAll;
    var r := InsertedAll(bits, numBits, hasher, keys);
    forall k: nat | k < 8 * |bits|
      ensures HasBit(r, k) <==> exists j :: 0 <= j < |keys| && Probes(hasher, numBits, keys[j], k)
    {
      FilterBits(bits, numBits, hasher, keys, k);
    }
    forall i: nat | i < 7
      ensures Probes(hasher, numBits, key, hasher.Position(key, i, numBits))
    {
    }
  }

  /** No false negatives: every inserted key is a member, whatever the hash functions. */
  lemma {:induction false} NoFalseNegatives(bits: Bytes, numBits: nat, hasher: Hasher, keys: seq<Bytes>, i: nat)
    requires Sized(bits, numBits) && i < |keys|
    ensures Contains(InsertedAll(bits, numBits, hasher, keys), numBits, hasher, keys[i])
  {
    hide HasBit, SetBit, Inserted;
    var init := keys[..|keys| - 1];
    var before := InsertedAll(bits, numBits, hasher, init);
    InsertedContains(before, numBits, hasher, keys[|keys| - 1], BLOOM_NUM_HASHES);
    if i < |keys| - 1 {
      NoFalseNegatives(bits, numBits, hasher, init, i);
    }
  }
}
