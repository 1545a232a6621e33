/** The reserved keyspaces (`key`): length-prefixed fields, sign-flipped timestamps and computed range
    bounds over byte-ordered keys. Identifiers are byte strings; UTF-8 validation is not modelled. */
module Keys {
  import opened Bytes
  import opened Results

  const I64_LIMIT: int := 0x8000_0000_0000_0000
  const I64_MAX: int := I64_LIMIT - 1

  type i64 = x: int | -I64_LIMIT <= x < I64_LIMIT

  function Ascii(s: string): (r: Bytes)
    requires forall i :: 0 <= i < |s| ==> s[i] < '\U{80}'
    ensures |r| == |s| && forall i :: 0 <= i < |s| ==> r[i] == s[i] as int
  {
    seq(|s|, i requires 0 <= i < |s| => s[i] as int)
  }

  const NODE_PREFIX: Bytes := Ascii("idx/vector/node/")
  const ENTITY_PREFIX: Bytes := Ascii("idx/graph/entity/")
  const EDGE_PREFIX: Bytes := Ascii("idx/graph/edge/")
  const RECORD_PREFIX: Bytes := Ascii("idx/memory/rec/")
  const VECMAP_PREFIX: Bytes := Ascii("idx/memory/vecmap/")
  const MEMORY_META_KEY: Bytes := Ascii("idx/memory/meta")
  const VECTOR_META_KEY: Bytes := Ascii("idx/vector/meta")
  const FTS_PREFIX: Bytes := Ascii("idx/fts/")
  const POSTINGS_PREFIX: Bytes := Ascii("idx/fts/postings/")
  const DOCTERMS_PREFIX: Bytes := Ascii("idx/fts/docterms/")
  const FTS_META_PREFIX: Bytes := Ascii("idx/fts/meta/")
  const EXPIRY_PREFIX: Bytes := Ascii("idx/temporal/expiry/")
  const REGISTRY_PREFIX: Bytes := Ascii("meta/agents/")

  // ── length-prefixed fields ─────────────────────────────────────────────

  function Field(bytes: Bytes): Bytes {
    Be(|bytes|, 4) + bytes
  }

  /** Refuses a length that would not fit instead of truncating it. */
  method PushLenPrefixed(buf: Bytes, bytes: Bytes) returns (res: Result<Bytes>)
    ensures res == Pushed(buf, bytes)
  {
    if |bytes| >= U32_LIMIT {
      return Failure(KeyTooLong(|bytes|));
    }
    var grown := buf + Be(|bytes|, 4);
    grown := grown + bytes;
    assert grown == buf + Field(bytes);
    return Success(grown);
  }

  function Pushed(buf: Bytes, bytes: Bytes): Result<Bytes> {
    IfFits(bytes, Scope(buf, bytes))
  }

  predicate Fits(bytes: Bytes) {
    |bytes| < U32_LIMIT
  }

  /** A length-prefixed field is recognised whatever follows it, and only by itself. */
  lemma FieldDecides(a: Bytes, b: Bytes, x: Bytes)
    requires Fits(a) && Fits(b)
    ensures StartsWith(Field(a) + x, Field(b)) <==> a == b
  {
    hide Be;
    if StartsWith(Field(a) + x, Field(b)) {
      var whole := Field(a) + x;
      assert whole[..4] == Be(|a|, 4) && Field(b)[..4] == Be(|b|, 4);
      assert Field(b) == whole[..|Field(b)|];
      assert Be(|a|, 4) == Be(|b|, 4);
      SpanLiterals();
      BeRoundTrip(|a|, 4);
      BeRoundTrip(|b|, 4);
      assert whole[4..4 + |a|] == a && Field(b)[4..] == b;
    }
  }

  lemma StartsWithParts(p: Bytes, a: Bytes, b: Bytes)
    ensures StartsWith(p + a, p + b) <==> StartsWith(a, b)
  {
    if StartsWith(a, b) {
      assert a == b + a[|b|..];
      assert p + a == p + b + a[|b|..];
    }
    if StartsWith(p + a, p + b) {
      assert a == (p + a)[|p|..] && b == (p + b)[|p|..];
      assert (p + a)[..|p + b|] == p + b;
      assert b == a[..|b|];
    }
  }

  /** The field after a common prefix decides what the key starts with. */
  lemma ScopedByField(p: Bytes, a: Bytes, b: Bytes, x: Bytes)
    requires Fits(a) && Fits(b)
    ensures StartsWith(p + Field(a) + x, p + Field(b)) <==> a == b
  {
    hide Field;
    assert p + Field(a) + x == p + (Field(a) + x);
    StartsWithParts(p, Field(a) + x, Field(b));
    FieldDecides(a, b, x);
  }

  /** Reads a length-prefixed field back from `at`: the field and where it ends. */
  function FieldFrom(bytes: Bytes, at: nat): (r: Option<(Bytes, nat)>)
    ensures r.Some? ==> at + 4 <= r.value.1 <= |bytes|
  {
    if |bytes| < at + 4 then None
    else
      var len := FromBe(bytes[at..at + 4]);
      if |bytes| < at + 4 + len then None
      else Some((bytes[at + 4..at + 4 + len], at + 4 + len))
  }

  lemma FieldReads(p: Bytes, a: Bytes, x: Bytes)
    requires Fits(a)
    ensures FieldFrom(p + Field(a) + x, |p|) == Some((a, |p| + |Field(a)|))
  {
    hide Be, FromBe;
    var whole := p + Field(a) + x;
    SpanLiterals();
    BeRoundTrip(|a|, 4);
    assert whole[|p|..|p| + 4] == Be(|a|, 4);
    assert whole[|p| + 4..|p| + 4 + |a|] == a;
  }

  lemma FieldCanonical(bytes: Bytes, at: nat)
    requires FieldFrom(bytes, at).Some?
    ensures var (a, end) := FieldFrom(bytes, at).value;
      Fits(a) && bytes[at..end] == Field(a)
  {
    hide Be, FromBe;
    var (a, end) := FieldFrom(bytes, at).value;
    SpanLiterals();
    FromBeCanonical(bytes[at..at + 4]);
    assert bytes[at..end] == bytes[at..at + 4] + bytes[at + 4..end];
  }

  // ── prefix intervals ───────────────────────────────────────────────────

  /** The rightmost byte below 0xff incremented, what follows it dropped. */
  function UpperBound(prefix: Bytes): Option<Bytes> {
    if prefix == [] then None
    else
      var n := |prefix| - 1;
      if prefix[n] < 0xff then Some(prefix[..n] + [prefix[n] + 1]) else UpperBound(prefix[..n])
  }

  predicate InInterval(key: Bytes, start: Bytes, end: Option<Bytes>) {
    !Lt(key, start) && (end.Some? ==> Lt(key, end.value))
  }

  lemma {:induction false} UpperBoundTail(first: byte, prefix: Bytes)
    ensures UpperBound([first] + prefix)
         == if UpperBound(prefix).Some? then Some([first] + UpperBound(prefix).value)
            else if first < 0xff then Some([first + 1]) else None
  {
    var whole := [first] + prefix;
    if prefix == [] {
      assert whole[..0] == [] && [] + [first + 1] == [first + 1];
    } else {
      var n := |prefix| - 1;
      assert whole[..n + 1] == [first] + prefix[..n];
      if prefix[n] < 0xff {
        assert whole[..n + 1] + [prefix[n] + 1] == [first] + (prefix[..n] + [prefix[n] + 1]);
      } else {
        UpperBoundTail(first, prefix[..n]);
      }
    }
  }

  /** The interval from any prefix to its bound is exactly the keys with that prefix; when there is no bound,
      every key from the prefix on has it. */
  lemma {:induction false} PrefixIntervalExact(key: Bytes, prefix: Bytes)
    ensures InInterval(key, prefix, UpperBound(prefix)) <==> StartsWith(key, prefix)
  {
    if prefix != [] {
      var first, rest := prefix[0], prefix[1..];
      assert prefix == [first] + rest;
      UpperBoundTail(first, rest);
      if key != [] {
        PrefixIntervalExact(key[1..], rest);
        StartsWithParts([key[0]], key[1..], rest);
        assert key == [key[0]] + key[1..];
        assert StartsWith(key, prefix) <==> key[0] == first && StartsWith(key[1..], rest);
        var bound := UpperBound(rest);
        if bound.Some? {
          assert ([first] + bound.value)[1..] == bound.value;
          assert Lt(key, [first] + bound.value) <==> key[0] < first || (key[0] == first && Lt(key[1..], bound.value));
        } else if first < 0xff {
          assert Lt(key, [first + 1]) <==> key[0] <= first;
        }
      }
    }
  }

  // ── memory records ─────────────────────────────────────────────────────

  /** The keyspace of one owner: what every key of it starts with. */
  function Scope(prefix: Bytes, owner: Bytes): Bytes {
    prefix + Field(owner)
  }

  /** Builders refuse an owner that is too long. */
  function IfFits(owner: Bytes, key: Bytes): Result<Bytes> {
    if Fits(owner) then Success(key) else Failure(KeyTooLong(|owner|))
  }

  function RecordAgentPrefix(agent: Bytes): Result<Bytes> {
    IfFits(agent, Scope(RECORD_PREFIX, agent))
  }

  function RecordKey(agent: Bytes, id: Bytes): Result<Bytes> {
    IfFits(agent, Scope(RECORD_PREFIX, agent) + id)
  }

  function RecordId(prefixLen: nat, key: Bytes): Option<Bytes> {
    if !StartsWith(key, RECORD_PREFIX) || |key| < prefixLen then None else Some(key[prefixLen..])
  }

  /** Pops trailing 0xff bytes until one can be incremented. */
  method RecordAgentUpperBound(agent: Bytes) returns (res: Result<Bytes>)
    ensures res == match RecordAgentPrefix(agent)
                   case Failure(e) => Failure(e)
                   case Success(prefix) =>
                     if UpperBound(prefix).Some? then Success(UpperBound(prefix).value) else Failure(CorruptMemoryRecord)
  {
    hide Scope, Ascii;
    var pushed := PushLenPrefixed(RECORD_PREFIX, agent);
    if pushed.Failure? {
      return pushed;
    }
    var bound := pushed.value;
    while bound != []
      invariant UpperBound(bound) == UpperBound(pushed.value)
      decreases |bound|
    {
      var last := bound[|bound| - 1];
      bound := bound[..|bound| - 1];
      if last < 0xff {
        bound := bound + [last + 1];
        return Success(bound);
      }
    }
    return Failure(CorruptMemoryRecord);
  }

  lemma {:induction false} BoundExists(prefix: Bytes, i: nat)
    requires i < |prefix| && prefix[i] < 0xff
    ensures UpperBound(prefix).Some?
  {
    var n := |prefix| - 1;
    if prefix[n] == 0xff {
      BoundExists(prefix[..n], i);
    }
  }

  /** A record key lies between an agent's prefix and its computed bound if and only if it is that agent's;
      the bound always exists. */
  lemma RecordIntervalExact(agent: Bytes, other: Bytes, id: Bytes)
    requires Fits(agent) && Fits(other)
    ensures UpperBound(Scope(RECORD_PREFIX, agent)).Some?
    ensures InInterval(Scope(RECORD_PREFIX, other) + id, Scope(RECORD_PREFIX, agent),
                       UpperBound(Scope(RECORD_PREFIX, agent)))
            <==> other == agent
  {
    ScopeIntervalExact(RECORD_PREFIX, agent, other, id);
    assert RECORD_PREFIX[0] == 'i' as int;
    BoundExists(Scope(RECORD_PREFIX, agent), 0);
  }

  lemma ScopeIntervalExact(prefix: Bytes, agent: Bytes, other: Bytes, rest: Bytes)
    requires Fits(agent) && Fits(other)
    ensures InInterval(Scope(prefix, other) + rest, Scope(prefix, agent), UpperBound(Scope(prefix, agent)))
            <==> other == agent
  {
    hide Field, InInterval;
    PrefixIntervalExact(Scope(prefix, other) + rest, Scope(prefix, agent));
    ScopedByField(prefix, other, agent, rest);
  }

  /** Keys of a keyspace are equal only for the same owner and the same rest, and the rest is what follows
      the owner's scope. */
  lemma ScopeInjective(prefix: Bytes, a: Bytes, x: Bytes, b: Bytes, y: Bytes)
    requires Fits(a) && Fits(b)
    ensures Scope(prefix, a) + x == Scope(prefix, b) + y <==> a == b && x == y
    ensures (Scope(prefix, a) + x)[|Scope(prefix, a)|..] == x && StartsWith(Scope(prefix, a) + x, prefix)
  {
    hide Field;
    assert Scope(prefix, a) + x == prefix + (Field(a) + x);
    if Scope(prefix, a) + x == Scope(prefix, b) + y {
      ScopedByField(prefix, a, b, x);
      assert StartsWith(Scope(prefix, b) + y, Scope(prefix, b));
      assert (Scope(prefix, b) + y)[|Scope(prefix, b)|..] == y;
    }
  }

  /** Under its own agent's prefix length a record key gives back its id, and no other record has its key. */
  lemma RecordRoundTrip(agent: Bytes, id: Bytes, agent': Bytes, id': Bytes)
    requires Fits(agent) && Fits(agent')
    ensures RecordId(|Scope(RECORD_PREFIX, agent)|, Scope(RECORD_PREFIX, agent) + id) == Some(id)
    ensures RecordKey(agent, id) == RecordKey(agent', id') <==> agent == agent' && id == id'
  {
    hide Field, Ascii, Scope;
    ScopeInjective(RECORD_PREFIX, agent, id, agent', id');
  }

  // ── fixed-width ids ────────────────────────────────────────────────────

  function NodeKey(id: nat): Bytes
    requires id < U64_LIMIT
  {
    NODE_PREFIX + Be(id, 8)
  }

  function VecmapKey(id: nat): Bytes
    requires id < U64_LIMIT
  {
    VECMAP_PREFIX + Be(id, 8)
  }

  /** The id after `prefix`, if exactly eight bytes follow it. */
  function IdAfter(prefix: Bytes, key: Bytes): Option<nat> {
    if StartsWith(key, prefix) && |key| == |prefix| + 8 then Some(FromBe(key[|prefix|..])) else None
  }

  function NodeId(key: Bytes): Option<nat> { IdAfter(NODE_PREFIX, key) }

  function VecmapId(key: Bytes): Option<nat> { IdAfter(VECMAP_PREFIX, key) }

  /** Exactly the keys built from an id decode, to that id. */
  lemma IdKeyExact(prefix: Bytes, key: Bytes, id: nat)
    requires id < U64_LIMIT
    ensures IdAfter(prefix, key) == Some(id) <==> key == prefix + Be(id, 8)
  {
    hide Be, FromBe;
    SpanLiterals();
    BeRoundTrip(id, 8);
    assert (prefix + Be(id, 8))[|prefix|..] == Be(id, 8);
    if IdAfter(prefix, key) == Some(id) {
      FromBeCanonical(key[|prefix|..]);
      assert key == key[..|prefix|] + key[|prefix|..];
    }
  }

  /** Whatever decodes is a key of some 64-bit id. */
  lemma IdKeyCanonical(prefix: Bytes, key: Bytes)
    requires IdAfter(prefix, key).Some?
    ensures IdAfter(prefix, key).value < U64_LIMIT && key == prefix + Be(IdAfter(prefix, key).value, 8)
  {
    hide Be, FromBe;
    SpanLiterals();
    FromBeCanonical(key[|prefix|..]);
    assert key == key[..|prefix|] + key[|prefix|..];
  }

  /** Byte order of the keys is the order of the ids. */
  lemma IdKeyOrder(prefix: Bytes, a: nat, b: nat)
    requires a < U64_LIMIT && b < U64_LIMIT
    ensures Lt(prefix + Be(a, 8), prefix + Be(b, 8)) <==> a < b
  {
    hide Be;
    LtCommonPrefix(prefix, Be(a, 8), Be(b, 8));
    BeOrderExact(a, b, 8, [], []);
    assert Be(a, 8) + [] == Be(a, 8) && Be(b, 8) + [] == Be(b, 8);
  }

  /** The fixed-width number decides first, then what follows it. */
  lemma BeOrderExact(m: nat, n: nat, width: nat, a: Bytes, b: Bytes)
    requires m < Span(width) && n < Span(width)
    ensures Lt(Be(m, width) + a, Be(n, width) + b) <==> m < n || (m == n && Lt(a, b))
  {
    hide Be;
    if m < n {
      BeOrder(m, n, width, a, b);
    } else if n < m {
      BeOrder(n, m, width, b, a);
      LtAsymmetric(Be(n, width) + b, Be(m, width) + a);
    } else {
      LtCommonPrefix(Be(m, width), a, b);
    }
  }

  // ── expiry entries ─────────────────────────────────────────────────────

  function AsU64(value: i64): nat {
    if value < 0 then value + 2 * I64_LIMIT else value
  }

  /** `u ^ (1 << 63)` */
  function FlipSign(u: nat): nat
    requires u < U64_LIMIT
  {
    if u < I64_LIMIT then u + I64_LIMIT else u - I64_LIMIT
  }

  function AsI64(u: nat): i64
    requires u < U64_LIMIT
  {
    if u < I64_LIMIT then u else u - 2 * I64_LIMIT
  }

  function Sortable(value: i64): (r: Bytes)
    ensures |r| == 8
  {
    Be(FlipSign(AsU64(value)), 8)
  }

  function FromSortable(bytes: Bytes): i64
    requires |bytes| == 8
  {
    SpanLiterals();
    FromBeCanonical(bytes);
    AsI64(FlipSign(FromBe(bytes)))
  }

  function SaturatingSucc(value: i64): i64 {
    if value == I64_MAX then value else value + 1
  }

  function ExpiryAgentPrefix(agent: Bytes): Result<Bytes> {
    IfFits(agent, Scope(EXPIRY_PREFIX, agent))
  }

  function ExpiryKey(agent: Bytes, validUntil: i64, id: Bytes): Result<Bytes> {
    IfFits(agent, Entry(agent, validUntil, id))
  }

  function ExpiryUpperBound(agent: Bytes, at: i64): Result<Bytes> {
    IfFits(agent, Scope(EXPIRY_PREFIX, agent) + Sortable(SaturatingSucc(at)))
  }

  function Entry(agent: Bytes, validUntil: i64, id: Bytes): Bytes {
    Scope(EXPIRY_PREFIX, agent) + Sortable(validUntil) + id
  }

  /** In the range a scan for expiries up to `at` reads. */
  predicate Expires(key: Bytes, agent: Bytes, at: i64)
    requires Fits(agent)
  {
    InInterval(key, ExpiryAgentPrefix(agent).value, Some(ExpiryUpperBound(agent, at).value))
  }

  function ExpiryDecode(prefixLen: nat, key: Bytes): Option<(i64, Bytes)> {
    if !StartsWith(key, EXPIRY_PREFIX) || |key| < prefixLen + 8 then None
    else Some((FromSortable(key[prefixLen..prefixLen + 8]), key[prefixLen + 8..]))
  }

  lemma SortableRoundTrip(value: i64)
    ensures FromSortable(Sortable(value)) == value
  {
    hide Be, FromBe;
    SpanLiterals();
    BeRoundTrip(FlipSign(AsU64(value)), 8);
  }

  /** Byte order of flipped timestamps is numeric order over all of `i64`, then what follows decides. */
  lemma SortableOrder(v: i64, w: i64, a: Bytes, b: Bytes)
    ensures Lt(Sortable(v) + a, Sortable(w) + b) <==> v < w || (v == w && Lt(a, b))
  {
    hide Be;
    SpanLiterals();
    BeOrderExact(FlipSign(AsU64(v)), FlipSign(AsU64(w)), 8, a, b);
  }

  lemma ExpiryRoundTrip(agent: Bytes, validUntil: i64, id: Bytes)
    requires Fits(agent)
    ensures ExpiryDecode(|Scope(EXPIRY_PREFIX, agent)|, Entry(agent, validUntil, id)) == Some((validUntil, id))
  {
    hide Field, Ascii, Sortable, FromSortable;
    var prefix, key, mark := Scope(EXPIRY_PREFIX, agent), Entry(agent, validUntil, id), Sortable(validUntil);
    assert key[|prefix|..|prefix| + 8] == mark && key[|prefix| + 8..] == id;
    assert key == EXPIRY_PREFIX + (Field(agent) + mark + id);
    SortableRoundTrip(validUntil);
  }

  /** Keys of one agent sort by expiry, then by id. */
  lemma ExpiryOrder(agent: Bytes, v: i64, id: Bytes, w: i64, other: Bytes)
    ensures Lt(Entry(agent, v, id), Entry(agent, w, other)) <==> v < w || (v == w && Lt(id, other))
  {
    hide Field, Ascii, Sortable, Scope, Lt;
    var prefix := Scope(EXPIRY_PREFIX, agent);
    assert prefix + Sortable(v) + id == prefix + (Sortable(v) + id);
    assert prefix + Sortable(w) + other == prefix + (Sortable(w) + other);
    LtCommonPrefix(prefix, Sortable(v) + id, Sortable(w) + other);
    SortableOrder(v, w, id, other);
  }

  /** Every key between a prefix and an extension of it carries the prefix. */
  lemma BetweenPrefixAndExtension(key: Bytes, prefix: Bytes, more: Bytes)
    requires !Lt(key, prefix) && Lt(key, prefix + more)
    ensures StartsWith(key, prefix)
  {
    LtTotal(key, prefix);
    if Lt(prefix, key) && !StartsWith(key, prefix) {
      PrefixInterval(prefix, key, prefix + more);
    }
  }

  /** The range scanned for expiries up to `at` holds an entry if and only if it is the agent's own and below
      the saturated successor of `at`. */
  lemma ExpiryInRange(agent: Bytes, at: i64, other: Bytes, validUntil: i64, id: Bytes)
    requires Fits(agent) && Fits(other)
    ensures Expires(ExpiryKey(other, validUntil, id).value, agent, at)
            <==> other == agent && validUntil < SaturatingSucc(at)
  {
    hide Field, Ascii, Sortable, Lt;
    var start, mark := Scope(EXPIRY_PREFIX, agent), Sortable(SaturatingSucc(at));
    var key, rest := Entry(other, validUntil, id), Sortable(validUntil) + id;
    assert key == Scope(EXPIRY_PREFIX, other) + rest;
    ScopedByField(EXPIRY_PREFIX, other, agent, rest);
    if other == agent {
      assert key == start + rest;
      PrefixNotAbove(key, start);
      LtCommonPrefix(start, rest, mark);
      assert mark + [] == mark;
      SortableOrder(validUntil, SaturatingSucc(at), id, []);
      assert !Lt(id, []) by { NothingBelowEmpty(id); }
      assert Lt(rest, mark) <==> validUntil < SaturatingSucc(at);
    } else if Expires(key, agent, at) {
      BetweenPrefixAndExtension(key, start, mark);
    }
  }

  lemma NothingBelowEmpty(key: Bytes)
    ensures !Lt(key, [])
  {
  }

  /** The range for `at` is exactly the agent's entries with `valid_until <= at`, whatever entries there are. */
  ghost predicate RangeExact(agent: Bytes, at: i64)
    requires Fits(agent)
  {
    forall other: Bytes, validUntil: i64, id: Bytes :: Fits(other) ==>
      (Expires(ExpiryKey(other, validUntil, id).value, agent, at) <==> other == agent && validUntil <= at)
  }

  /** It is so if and only if `at` is below the largest timestamp: there the saturated bound leaves out what
      expires at that very time. */
  lemma ExpiryRangeExact(agent: Bytes, at: i64)
    requires Fits(agent)
    ensures RangeExact(agent, at) <==> at < I64_MAX
  {
    hide Expires, Entry;
    if at < I64_MAX {
      forall other: Bytes, validUntil: i64, id: Bytes | Fits(other)
        ensures Expires(ExpiryKey(other, validUntil, id).value, agent, at) <==> other == agent && validUntil <= at
      {
        ExpiryInRange(agent, at, other, validUntil, id);
      }
      assert RangeExact(agent, at);
    } else {
      ExpiryInRange(agent, at, agent, at, []);
      assert !Expires(ExpiryKey(agent, at, []).value, agent, at);
      assert !RangeExact(agent, at);
    }
  }

  // ── graph edges and postings: two fields, then the rest ────────────────

  function EdgeKey(agent: Bytes, src: Bytes, relation: Bytes, dst: Bytes): Result<Bytes> {
    var ofAgent :- Pushed(EDGE_PREFIX, agent);
    var ofSrc :- Pushed(ofAgent, src);
    var ofRelation :- Pushed(ofSrc, relation);
    Success(ofRelation + dst)
  }

  function EdgeSrcPrefix(agent: Bytes, src: Bytes): Result<Bytes> {
    var ofAgent :- Pushed(EDGE_PREFIX, agent);
    Pushed(ofAgent, src)
  }

  function EdgeRelationDst(prefixLen: nat, key: Bytes): Option<(Bytes, Bytes)> {
    if |key| < prefixLen then None
    else
      var field := FieldFrom(key, prefixLen);
      if field.None? then None else Some((field.value.0, key[field.value.1..]))
  }

  function EdgeSrcRelationDst(prefixLen: nat, key: Bytes): Option<(Bytes, Bytes, Bytes)> {
    if |key| < prefixLen then None
    else
      var src := FieldFrom(key, prefixLen);
      if src.None? then None
      else
        var rest := EdgeRelationDst(src.value.1, key);
        if rest.None? then None else Some((src.value.0, rest.value.0, rest.value.1))
  }

  function PostingsKey(agent: Bytes, term: Bytes, vecId: nat): Result<Bytes>
    requires vecId < U64_LIMIT
  {
    var ofAgent :- Pushed(POSTINGS_PREFIX, agent);
    var ofTerm :- Pushed(ofAgent, term);
    Success(ofTerm + Be(vecId, 8))
  }

  /** Scoping by two owners: an outgoing edge of `(agent, src)`, a posting of `(agent, term)`. */
  function Scope2(prefix: Bytes, a: Bytes, b: Bytes): Bytes {
    Scope(Scope(prefix, a), b)
  }

  /** A key carries the scope of two owners if and only if both are its own. */
  lemma Scope2Decides(prefix: Bytes, a: Bytes, b: Bytes, x: Bytes, a': Bytes, b': Bytes)
    requires Fits(a) && Fits(b) && Fits(a') && Fits(b')
    ensures StartsWith(Scope2(prefix, a, b) + x, Scope2(prefix, a', b')) <==> a == a' && b == b'
  {
    hide Field;
    var key := Scope2(prefix, a, b) + x;
    assert key == Scope(prefix, a) + (Field(b) + x);
    ScopedByField(prefix, a, a', Field(b) + x);
    if StartsWith(key, Scope2(prefix, a', b')) {
      StartsWithTransitive(key, Scope(prefix, a') + Field(b'), Scope(prefix, a'));
    }
    ScopedByField(Scope(prefix, a), b, b', x);
  }

  lemma StartsWithTransitive(key: Bytes, longer: Bytes, shorter: Bytes)
    requires StartsWith(key, longer) && StartsWith(longer, shorter)
    ensures StartsWith(key, shorter)
  {
  }

  /** The adjacency scan of one node finds its own outgoing edges and no others; an edge key decodes, from the
      prefix of its node or of its agent, to what it was built from, and belongs to no other edge. */
  lemma EdgeKeysExact(agent: Bytes, src: Bytes, relation: Bytes, dst: Bytes,
                      agent': Bytes, src': Bytes, relation': Bytes, dst': Bytes)
    requires Fits(agent) && Fits(src) && Fits(relation) && Fits(agent') && Fits(src') && Fits(relation')
    ensures var key, scope := EdgeKey(agent, src, relation, dst), EdgeSrcPrefix(agent', src');
      && key.Success? && scope.Success?
      && (StartsWith(key.value, scope.value) <==> agent == agent' && src == src')
      && EdgeRelationDst(|Scope2(EDGE_PREFIX, agent, src)|, key.value) == Some((relation, dst))
      && EdgeSrcRelationDst(|Scope(EDGE_PREFIX, agent)|, key.value) == Some((src, relation, dst))
      && (key == EdgeKey(agent', src', relation', dst')
          <==> agent == agent' && src == src' && relation == relation' && dst == dst')
  {
    hide Field, Ascii, FieldFrom;
    var ofAgent, ofSrc := Scope(EDGE_PREFIX, agent), Scope2(EDGE_PREFIX, agent, src);
    var key := Scope(ofSrc, relation) + dst;
    assert key == ofSrc + (Field(relation) + dst);
    Scope2Decides(EDGE_PREFIX, agent, src, Field(relation) + dst, agent', src');
    FieldReads(ofSrc, relation, dst);
    assert key[|Scope(ofSrc, relation)|..] == dst;
    assert key == ofAgent + Field(src) + (Field(relation) + dst);
    FieldReads(ofAgent, src, Field(relation) + dst);
    var other := Scope(Scope2(EDGE_PREFIX, agent', src'), relation') + dst';
    if key == other {
      assert other == Scope2(EDGE_PREFIX, agent', src') + (Field(relation') + dst');
      assert StartsWith(other, Scope2(EDGE_PREFIX, agent', src'));
      ScopeInjective(ofSrc, relation, dst, relation', dst');
    }
  }

  /** Malformed keys aside, the decoder reads exactly what was written after the prefix. */
  lemma EdgeDecodeCanonical(prefixLen: nat, key: Bytes)
    requires EdgeRelationDst(prefixLen, key).Some?
    ensures var (relation, dst) := EdgeRelationDst(prefixLen, key).value;
      Fits(relation) && key[prefixLen..] == Field(relation) + dst
  {
    hide Field, FieldFrom;
    FieldCanonical(key, prefixLen);
    var end := FieldFrom(key, prefixLen).value.1;
    assert key[prefixLen..] == key[prefixLen..end] + key[end..];
  }

  /** Scanning one term of one agent finds its own postings and no others, in ascending vector id. */
  lemma PostingsExact(agent: Bytes, term: Bytes, vecId: nat, agent': Bytes, term': Bytes, vecId': nat)
    requires Fits(agent) && Fits(term) && Fits(agent') && Fits(term') && vecId < U64_LIMIT && vecId' < U64_LIMIT
    ensures var key := PostingsKey(agent, term, vecId);
      && key == Success(Scope2(POSTINGS_PREFIX, agent, term) + Be(vecId, 8))
      && (StartsWith(key.value, Scope2(POSTINGS_PREFIX, agent', term')) <==> agent == agent' && term == term')
      && IdAfter(Scope2(POSTINGS_PREFIX, agent, term), key.value) == Some(vecId)
      && (agent == agent' && term == term' ==>
            (Lt(key.value, PostingsKey(agent', term', vecId').value) <==> vecId < vecId'))
  {
    hide Field, Ascii, Be, FromBe, Lt, IdAfter;
    var scope := Scope2(POSTINGS_PREFIX, agent, term);
    Scope2Decides(POSTINGS_PREFIX, agent, term, Be(vecId, 8), agent', term');
    IdKeyExact(scope, scope + Be(vecId, 8), vecId);
    IdKeyOrder(scope, vecId, vecId');
  }

  // ── the agent registry ─────────────────────────────────────────────────

  function AgentKey(agent: Bytes): Result<Bytes> {
    Pushed(REGISTRY_PREFIX, agent)
  }

  function AgentDecode(key: Bytes): Option<Bytes> {
    if !StartsWith(key, REGISTRY_PREFIX) then None
    else
      var field := FieldFrom(key, |REGISTRY_PREFIX|);
      if field.None? || field.value.1 != |key| then None else Some(field.value.0)
  }

  /** The decoder accepts exactly the registry keys, each as its own agent. */
  lemma RegistryExact(key: Bytes, agent: Bytes)
    ensures AgentDecode(key) == Some(agent) <==> AgentKey(agent) == Success(key)
  {
    hide Field, Ascii, FieldFrom;
    var p := REGISTRY_PREFIX;
    if AgentDecode(key) == Some(agent) {
      FieldCanonical(key, |p|);
      assert key == key[..|p|] + key[|p|..|key|];
      assert key == Scope(p, agent);
    }
    if AgentKey(agent) == Success(key) {
      FieldReads(p, agent, []);
      assert p + Field(agent) + [] == key;
    }
  }

  // ── keyspaces ──────────────────────────────────────────────────────────

  datatype Keyspace =
    | Nodes | Entities | Edges | Records | Vecmaps | Postings | DocTerms | FtsMeta | Expiries | Registry
    | VectorMeta | MemoryMeta

  function PrefixOf(space: Keyspace): Bytes {
    match space
    case Nodes => NODE_PREFIX
    case Entities => ENTITY_PREFIX
    case Edges => EDGE_PREFIX
    case Records => RECORD_PREFIX
    case Vecmaps => VECMAP_PREFIX
    case Postings => POSTINGS_PREFIX
    case DocTerms => DOCTERMS_PREFIX
    case FtsMeta => FTS_META_PREFIX
    case Expiries => EXPIRY_PREFIX
    case Registry => REGISTRY_PREFIX
    case VectorMeta => VECTOR_META_KEY
    case MemoryMeta => MEMORY_META_KEY
  }

  function ByteAt(key: Bytes, i: nat): int {
    if i < |key| then key[i] else -1
  }

  /** The characters of the reserved names at the places where they differ. */
  function Marks(space: Keyspace): (char, char, char, char) {
    match space
    case Nodes => ('i', 'v', 'o', 'n')
    case Entities => ('i', 'g', 'h', 'n')
    case Edges => ('i', 'g', 'h', 'd')
    case Records => ('i', 'm', 'r', 'r')
    case Vecmaps => ('i', 'm', 'r', 'v')
    case Postings => ('i', 'f', 'p', 't')
    case DocTerms => ('i', 'f', 'd', 't')
    case FtsMeta => ('i', 'f', 'm', 'a')
    case Expiries => ('i', 't', 'o', 'l')
    case Registry => ('m', '/', 'n', '/')
    case VectorMeta => ('i', 'v', 'o', 'm')
    case MemoryMeta => ('i', 'm', 'r', 'm')
  }

  lemma PrefixMarks(space: Keyspace)
    ensures var p, marks := PrefixOf(space), Marks(space);
      ByteAt(p, 0) == marks.0 as int && ByteAt(p, 4) == marks.1 as int && ByteAt(p, 8) == marks.2 as int
      && ByteAt(p, 11) == marks.3 as int
  {
    hide Ascii;
  }

  /** No key lies in two keyspaces, the two metadata keys among them. */
  lemma KeyspacesDisjoint(key: Bytes, a: Keyspace, b: Keyspace)
    requires StartsWith(key, PrefixOf(a)) && StartsWith(key, PrefixOf(b))
    ensures a == b
  {
    hide PrefixOf;
    PrefixMarks(a);
    PrefixMarks(b);
    var p, q := PrefixOf(a), PrefixOf(b);
    assert forall i :: 0 <= i < |p| ==> p[i] == key[i];
    assert forall i :: 0 <= i < |q| ==> q[i] == key[i];
    assert Marks(a) == Marks(b);
  }
}
