/** `crypto.meta` and key rotation (`crypto`). The key derivation is a parameter; nothing is assumed of it but
    that it separates the keys in question. */
module CryptoStore {
  import opened Bytes
  import opened Results
  import opened Aead
  import opened CryptoFormat

  const DEK_LEN: nat := 32

  // ── crypto.meta ────────────────────────────────────────────────────────

  /** Key encryption key of a user key and a salt. */
  type Derivation = (Bytes, Bytes) -> Bytes

  /** The data key that `userKey` unwraps from the file, with every wrap ever made in `seals`. */
  function LoadMeta(file: Bytes, userKey: Bytes, seals: seq<Seal>, derive: Derivation): Result<Bytes> {
    var meta :- DecodeCryptoMeta(file);
    var dek := Aead.Open(seals, derive(userKey, meta.salt), meta.wrapNonce, meta.wrappedDek, meta.WrapAad());
    if dek.None? then Failure(WrongEncryptionKey)
    else if |dek.value| != DEK_LEN then Failure(CorruptCryptoMeta)
    else Success(dek.value)
  }

  /** `meta` wraps `dek` for `owner`, and its seal is one of those made. */
  ghost predicate Wraps(meta: CryptoMeta, owner: Bytes, dek: Bytes, seals: seq<Seal>, derive: Derivation) {
    && meta.Shaped() && |dek| == DEK_LEN
    && Seal(derive(owner, meta.salt), meta.wrapNonce, meta.WrapAad(), dek, meta.wrappedDek) in seals
  }

  /** What loading makes of a file whose wrap was made: the key is told right from wrong, then its length is checked. */
  lemma LoadIs(meta: CryptoMeta, key: Bytes, dek: Bytes, userKey: Bytes, seals: seq<Seal>, derive: Derivation)
    requires meta.Shaped() && Fresh(seals) && Seal(key, meta.wrapNonce, meta.WrapAad(), dek, meta.wrappedDek) in seals
    ensures LoadMeta(MetaFile(meta), userKey, seals, derive)
         == if derive(userKey, meta.salt) != key then Failure(WrongEncryptionKey)
            else if |dek| == 32 then Success(dek) else Failure(CorruptCryptoMeta)
  {
    hide DecodeCryptoMeta, MetaFile;
    CryptoMetaRoundTrip(meta);
    OpenExactly(seals, Seal(key, meta.wrapNonce, meta.WrapAad(), dek, meta.wrappedDek), derive(userKey, meta.salt),
                meta.WrapAad());
  }

  /** The owner's key recovers the data key; any key derived differently under this salt is told it is wrong. */
  lemma LoadExactly(meta: CryptoMeta, owner: Bytes, dek: Bytes, userKey: Bytes, seals: seq<Seal>, derive: Derivation)
    requires Wraps(meta, owner, dek, seals, derive) && Fresh(seals)
    ensures LoadMeta(MetaFile(meta), userKey, seals, derive)
         == if derive(userKey, meta.salt) == derive(owner, meta.salt) then Success(dek) else Failure(WrongEncryptionKey)
  {
    LoadIs(meta, derive(owner, meta.salt), dek, userKey, seals, derive);
  }

  // ── rotation ───────────────────────────────────────────────────────────

  datatype Dir = Dir(meta: Bytes, tmp: Option<Bytes>)

  datatype Phase =
    | Idle
    | Wrapped(key: Bytes, meta: CryptoMeta)  // the new wrap is made, its file not yet complete
    | Synced(key: Bytes, meta: CryptoMeta)   // the temporary file holds it durably

  /** `owner` is the key the committed file was wrapped for. */
  datatype World = World(dir: Dir, phase: Phase, seals: seq<Seal>, owner: Bytes, dek: Bytes)

  datatype Event =
    | Wrap(key: Bytes, meta: CryptoMeta)
    | WriteTmp(upTo: nat)
    | SyncTmp
    | Rename
    | SealData(seal: Seal)           // the store seals records and sections meanwhile
    | Crash(tmp: Option<Bytes>)      // whatever is left of the temporary file

  function WrapOf(w: World, key: Bytes, meta: CryptoMeta, derive: Derivation): Seal {
    Seal(derive(key, meta.salt), meta.wrapNonce, meta.WrapAad(), w.dek, meta.wrappedDek)
  }

  ghost predicate Step(w: World, e: Event, w': World, derive: Derivation) {
    match e
    case Wrap(key, meta) =>
      && w.phase.Idle? && meta.Shaped() && Fresh(w.seals + [WrapOf(w, key, meta, derive)])
      && w' == w.(phase := Wrapped(key, meta), seals := w.seals + [WrapOf(w, key, meta, derive)])
    case WriteTmp(upTo) =>
      && w.phase.Wrapped? && upTo <= |MetaFile(w.phase.meta)|
      && w' == w.(dir := w.dir.(tmp := Some(MetaFile(w.phase.meta)[..upTo])))
    case SyncTmp =>
      && w.phase.Wrapped? && w.dir.tmp == Some(MetaFile(w.phase.meta))
      && w' == w.(phase := Synced(w.phase.key, w.phase.meta))
    case Rename =>
      && w.phase.Synced? && w.dir.tmp.Some?
      && w' == w.(dir := Dir(w.dir.tmp.value, None), phase := Idle, owner := w.phase.key)
    case SealData(seal) =>
      Fresh(w.seals + [seal]) && w' == w.(seals := w.seals + [seal])
    case Crash(tmp) =>
      w' == w.(dir := w.dir.(tmp := tmp), phase := Idle)
  }

  ghost predicate Inv(w: World, derive: Derivation) {
    && Fresh(w.seals)
    && (exists meta :: Wraps(meta, w.owner, w.dek, w.seals, derive) && w.dir.meta == MetaFile(meta))
    && match w.phase
       case Idle => true
       case Wrapped(key, meta) => Wraps(meta, key, w.dek, w.seals, derive)
       case Synced(key, meta) => Wraps(meta, key, w.dek, w.seals, derive) && w.dir.tmp == Some(MetaFile(meta))
  }

  /** Every step keeps the committed file loadable by its owner, with the same data key. */
  lemma StepKeeps(w: World, e: Event, w': World, derive: Derivation)
    requires Inv(w, derive) && Step(w, e, w', derive)
    ensures Inv(w', derive) && w'.dek == w.dek && w.seals <= w'.seals
    ensures w'.owner == if e.Rename? then w.phase.key else w.owner
  {
    hide MetaFile, Fresh;
    var meta :| Wraps(meta, w.owner, w.dek, w.seals, derive) && w.dir.meta == MetaFile(meta);
    if e.Rename? {
      assert Wraps(w.phase.meta, w'.owner, w'.dek, w'.seals, derive) && w'.dir.meta == MetaFile(w.phase.meta);
    } else {
      assert Wraps(meta, w'.owner, w'.dek, w'.seals, derive) && w'.dir.meta == MetaFile(meta);
    }
  }

  ghost predicate Run(worlds: seq<World>, events: seq<Event>, derive: Derivation) {
    && |worlds| == |events| + 1
    && forall i :: 0 <= i < |events| ==> Step(worlds[i], events[i], worlds[i + 1], derive)
  }

  /** Every wrap of the run is for one and the same new key. */
  predicate RotatesTo(events: seq<Event>, key: Bytes) {
    forall i :: 0 <= i < |events| && events[i].Wrap? ==> events[i].key == key
  }

  lemma {:induction false} RunKeeps(worlds: seq<World>, events: seq<Event>, derive: Derivation, key: Bytes)
    requires Run(worlds, events, derive) && Inv(worlds[0], derive) && RotatesTo(events, key)
    requires worlds[0].phase.Idle?
    ensures var w := worlds[|events|];
      && Inv(w, derive) && w.dek == worlds[0].dek && worlds[0].seals <= w.seals
      && (w.owner == worlds[0].owner || w.owner == key)
      && (!w.phase.Idle? ==> w.phase.key == key)
  {
    hide Inv, MetaFile, Fresh;
    var n := |events|;
    if n > 0 {
      RunKeeps(worlds[..n], events[..n - 1], derive, key);
      assert Step(worlds[n - 1], events[n - 1], worlds[n], derive);
      StepKeeps(worlds[n - 1], events[n - 1], worlds[n], derive);
    }
  }

  /** The two keys are never derived to the same key encryption key. */
  ghost predicate Separates(derive: Derivation, a: Bytes, b: Bytes) {
    forall salt :: |salt| == SALT_LEN ==> derive(a, salt) != derive(b, salt)
  }

  /** Crash a rotation anywhere, retry it as often as you like: exactly one of the old and the new key recovers
      the data key, which never changes, and the other is told it is wrong. */
  lemma RotationCrash(worlds: seq<World>, events: seq<Event>, derive: Derivation, newKey: Bytes)
    requires Run(worlds, events, derive) && Inv(worlds[0], derive) && RotatesTo(events, newKey)
    requires worlds[0].phase.Idle? && Separates(derive, worlds[0].owner, newKey)
    ensures var w, oldKey := worlds[|events|], worlds[0].owner;
      var other := if w.owner == oldKey then newKey else oldKey;
      && (w.owner == oldKey || w.owner == newKey)
      && LoadMeta(w.dir.meta, w.owner, w.seals, derive) == Success(worlds[0].dek)
      && LoadMeta(w.dir.meta, other, w.seals, derive) == Failure(WrongEncryptionKey)
  {
    hide LoadMeta, MetaFile, Fresh;
    RunKeeps(worlds, events, derive, newKey);
    var w := worlds[|events|];
    var meta :| Wraps(meta, w.owner, w.dek, w.seals, derive) && w.dir.meta == MetaFile(meta);
    LoadExactly(meta, w.owner, w.dek, worlds[0].owner, w.seals, derive);
    LoadExactly(meta, w.owner, w.dek, newKey, w.seals, derive);
    assert derive(worlds[0].owner, meta.salt) != derive(newKey, meta.salt);
  }

  /** What was sealed before a rotation opens after it. */
  lemma DataSurvivesRotation(worlds: seq<World>, events: seq<Event>, derive: Derivation, newKey: Bytes, s: Seal)
    requires Run(worlds, events, derive) && Inv(worlds[0], derive) && RotatesTo(events, newKey)
    requires worlds[0].phase.Idle? && s in worlds[0].seals && s.key == worlds[0].dek
    ensures var w := worlds[|events|];
      CryptoContext(w.dek, w.seals).OpenSealed(s.nonce, s.ciphertext, s.aad) == Some(s.plain)
  {
    hide MetaFile;
    RunKeeps(worlds, events, derive, newKey);
    var w := worlds[|events|];
    OpenExactly(w.seals, s, w.dek, s.aad);
  }

  // ── the files as the engine writes them ────────────────────────────────

  class KeyDir {
    var meta: Bytes
    var tmp: Option<Bytes>
    ghost var seals: seq<Seal>
    ghost var owner: Bytes
    const dek: Bytes
    /** The run so far. */
    ghost var worlds: seq<World>
    ghost var events: seq<Event>

    ghost function Snapshot(phase: Phase): World
      reads this
    {
      World(Dir(meta, tmp), phase, seals, owner, dek)
    }

    ghost predicate At(phase: Phase, derive: Derivation)
      reads this
    {
      && |worlds| == |events| + 1 && Run(worlds, events, derive) && worlds[0].phase.Idle? && Inv(worlds[0], derive)
      && worlds[|events|] == Snapshot(phase)
    }

    ghost method Note(e: Event, phase: Phase, derive: Derivation)
      requires |worlds| == |events| + 1
      requires Run(worlds, events, derive) && worlds[0].phase.Idle? && Inv(worlds[0], derive)
      requires Step(worlds[|events|], e, Snapshot(phase), derive)
      modifies this`worlds, this`events
      ensures At(phase, derive) && events == old(events) + [e] && worlds == old(worlds) + [Snapshot(phase)]
    {
      hide Step, Inv;
      worlds, events := worlds + [Snapshot(phase)], events + [e];
    }

    /** Wraps the data key for `userKey`: seal, temporary file, fsync, rename. Salt, nonce and ciphertext are
        what the random source and the cipher came up with. */
    method WriteMeta(userKey: Bytes, salt: Bytes, nonce: Bytes, ciphertext: Bytes, ghost derive: Derivation)
      requires At(Idle, derive)
      requires CryptoMeta(salt, nonce, ciphertext).Shaped()
      requires Fresh(seals + [WrapOf(Snapshot(Idle), userKey, CryptoMeta(salt, nonce, ciphertext), derive)])
      modifies this
      ensures At(Idle, derive) && owner == userKey && meta == MetaFile(CryptoMeta(salt, nonce, ciphertext))
      ensures worlds[0] == old(worlds[0])
      ensures var wrap := CryptoMeta(salt, nonce, ciphertext);
        events == old(events) + [Wrap(userKey, wrap)] + [WriteTmp(|MetaFile(wrap)|)] + [SyncTmp] + [Rename]
    {
      hide MetaFile, Fresh, Inv, Run;
      var wrap := CryptoMeta(salt, nonce, ciphertext);
      seals := seals + [WrapOf(Snapshot(Idle), userKey, wrap, derive)];
      Note(Wrap(userKey, wrap), Wrapped(userKey, wrap), derive);
      var bytes := EncodeCryptoMeta(wrap);
      assert bytes[..|bytes|] == bytes;
      tmp := Some(bytes);
      Note(WriteTmp(|bytes|), Wrapped(userKey, wrap), derive);
      Note(SyncTmp, Synced(userKey, wrap), derive);
      meta, tmp := bytes, None;
      owner := userKey;
      Note(Rename, Idle, derive);
    }
  }
}
