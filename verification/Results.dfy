/** Failure-compatible results and the engine's typed errors (without paths and messages). */
module Results {
  datatype Option<+T> = None | Some(value: T)

  datatype Result<+T> = Success(value: T) | Failure(error: EngineError)
  {
    predicate IsFailure() { Failure? }

    function PropagateFailure<U>(): Result<U>
      requires Failure?
    {
      Failure(this.error)
    }

    function Extract(): T
      requires Success?
    {
      value
    }
  }

  datatype EngineError =
    | CorruptWal
    | UnsupportedFormatVersion(expected: nat, found: nat)
    | WalBatchTooLarge(len: nat, max: nat)
    | CorruptSstHeader
    | UnsupportedSstHeaderVersion(expected: nat, found: nat)
    | CorruptSstDataBlock
    | UnsupportedSstDataBlockVersion(expected: nat, found: nat)
    | CorruptSstBlockIndex
    | UnsupportedSstBlockIndexVersion(expected: nat, found: nat)
    | CorruptSstBloomFilter
    | UnsupportedSstBloomFilterVersion(expected: nat, found: nat)
    | CorruptSstFooter
    | UnsupportedSstFooterVersion(expected: nat, found: nat)
    | CorruptEncryptedSstBlock
    | UnsupportedEncryptedSstBlockVersion(expected: nat, found: nat)
    | CorruptCryptoMeta
    | WrongEncryptionKey
    | CorruptMemoryRecord
    | CorruptMemoryVecMap
    | CorruptMemoryIndexMeta
    | CorruptVectorNode
    | VectorDimensionMismatch(expected: nat, found: nat)
    | CorruptVectorIndexMeta
    | KeyTooLong(len: nat)
    | Io

  /** The result of a loop that has already collected `done`. */
  function After<T>(done: seq<T>, rest: Result<seq<T>>): Result<seq<T>> {
    match rest
    case Success(more) => Success(done + more)
    case Failure(e) => Failure(e)
  }

  lemma AfterStep<T>(done: seq<T>, x: T, rest: Result<seq<T>>)
    ensures After(done, After([x], rest)) == After(done + [x], rest)
  {
    if rest.Success? {
      assert done + ([x] + rest.value) == done + [x] + rest.value;
    }
  }

  lemma AfterNothing<T>(rest: Result<seq<T>>)
    ensures After([], rest) == rest
  {
    if rest.Success? {
      assert [] + rest.value == rest.value;
    }
  }
}
