/** Byte strings, fixed-width integers and the byte order that keys are sorted by. */
module Bytes {
  type byte = x: int | 0 <= x < 256
  type Bytes = seq<byte>

  const U16_LIMIT: nat := 0x1_0000
  const U32_LIMIT: nat := 0x1_0000_0000
  const U64_LIMIT: nat := 0x1_0000_0000_0000_0000

  /** 256 to the power `width`: the number of values `width` bytes can hold. */
  function Span(width: nat): (r: nat)
    ensures r > 0
  {
    if width == 0 then 1 else 256 * Span(width - 1)
  }

  lemma SpanLiterals()
    ensures Span(2) == U16_LIMIT && Span(4) == U32_LIMIT && Span(8) == U64_LIMIT
  {
    assert Span(2) == 256 * 256 * Span(0);
    assert Span(4) == 256 * 256 * Span(2);
    assert Span(6) == 256 * 256 * Span(4);
    assert Span(8) == 256 * 256 * Span(6);
  }

  // ── little-endian ──────────────────────────────────────────────────────

  /** The low `width` bytes of `n`, least significant first; like `as u32`, it drops what does not fit. */
  function Le(n: nat, width: nat): (r: Bytes)
    ensures |r| == width
  {
    if width == 0 then [] else [n % 256] + Le(n / 256, width - 1)
  }

  function FromLe(bytes: Bytes): nat {
    if bytes == [] then 0 else bytes[0] + 256 * FromLe(bytes[1..])
  }

  lemma {:induction false} LeRoundTrip(n: nat, width: nat)
    requires n < Span(width)
    ensures FromLe(Le(n, width)) == n
  {
    if width > 0 {
      LeRoundTrip(n / 256, width - 1);
      assert Le(n, width)[1..] == Le(n / 256, width - 1);
    }
  }

  lemma {:induction false} FromLeCanonical(bytes: Bytes)
    ensures FromLe(bytes) < Span(|bytes|)
    ensures Le(FromLe(bytes), |bytes|) == bytes
  {
    if bytes != [] {
      var rest := FromLe(bytes[1..]);
      FromLeCanonical(bytes[1..]);
      assert FromLe(bytes) == bytes[0] + 256 * rest;
      assert FromLe(bytes) % 256 == bytes[0] && FromLe(bytes) / 256 == rest;
      assert bytes == [bytes[0]] + bytes[1..];
    }
  }

  lemma LeInjective(a: nat, b: nat, width: nat)
    requires a < Span(width) && b < Span(width) && Le(a, width) == Le(b, width)
    ensures a == b
  {
    LeRoundTrip(a, width);
    LeRoundTrip(b, width);
  }

  // ── big-endian ─────────────────────────────────────────────────────────

  /** The low `width` bytes of `n`, most significant first. */
  function Be(n: nat, width: nat): (r: Bytes)
    ensures |r| == width
  {
    if width == 0 then [] else Be(n / 256, width - 1) + [n % 256]
  }

  function FromBe(bytes: Bytes): nat {
    if bytes == [] then 0 else 256 * FromBe(bytes[..|bytes| - 1]) + bytes[|bytes| - 1]
  }

  lemma {:induction false} BeRoundTrip(n: nat, width: nat)
    requires n < Span(width)
    ensures FromBe(Be(n, width)) == n
  {
    if width > 0 {
      BeRoundTrip(n / 256, width - 1);
      assert Be(n, width)[..width - 1] == Be(n / 256, width - 1);
    }
  }

  lemma {:induction false} FromBeCanonical(bytes: Bytes)
    ensures FromBe(bytes) < Span(|bytes|)
    ensures Be(FromBe(bytes), |bytes|) == bytes
  {
    if bytes != [] {
      var init, last := bytes[..|bytes| - 1], bytes[|bytes| - 1];
      FromBeCanonical(init);
      assert FromBe(bytes) % 256 == last && FromBe(bytes) / 256 == FromBe(init);
      assert bytes == init + [last];
    }
  }

  /** Reading back the middle of three pieces. */
  lemma Middle(a: Bytes, b: Bytes, c: Bytes)
    ensures (a + b + c)[|a|..|a| + |b|] == b
  {
  }

  /** Reading back the last piece of a prefix. */
  lemma FieldAt(whole: Bytes, p: Bytes, x: Bytes)
    requires p + x <= whole
    ensures whole[|p|..|p| + |x|] == x
  {
    assert whole == p + x + whole[|p| + |x|..];
    Middle(p, x, whole[|p| + |x|..]);
  }

  lemma Grow(s: Bytes, i: nat, j: nat)
    requires i <= j <= |s|
    ensures s[..i] + s[i..j] == s[..j]
  {
  }

  lemma SubSlice(s: Bytes, at: nat, end: nat, i: nat, j: nat)
    requires at <= end <= |s| && i <= j && at + j <= end
    ensures s[at..end][i..j] == s[at + i..at + j]
  {
    var a, b := s[at..end][i..j], s[at + i..at + j];
    forall k | 0 <= k < j - i
      ensures a[k] == b[k]
    {
      assert a[k] == s[at..end][i + k] == s[at + i + k] == b[k];
    }
  }

  // ── lexicographic order ────────────────────────────────────────────────

  /** Strict lexicographic order on raw bytes: a proper prefix sorts first. */
  predicate Lt(a: Bytes, b: Bytes) {
    b != [] && (a == [] || a[0] < b[0] || (a[0] == b[0] && Lt(a[1..], b[1..])))
  }

  predicate AtMost(a: Bytes, b: Bytes) {
    a == b || Lt(a, b)
  }

  lemma {:induction false} LtTotal(a: Bytes, b: Bytes)
    ensures a == b || Lt(a, b) || Lt(b, a)
  {
    if a != [] && b != [] && a[0] == b[0] {
      LtTotal(a[1..], b[1..]);
      if a[1..] == b[1..] {
        assert a == [a[0]] + a[1..] && b == [b[0]] + b[1..];
      }
    }
  }

  lemma {:induction false} LtIrreflexive(a: Bytes)
    ensures !Lt(a, a)
  {
    if a != [] {
      LtIrreflexive(a[1..]);
    }
  }

  lemma {:induction false} LtTransitive(a: Bytes, b: Bytes, c: Bytes)
    requires Lt(a, b) && Lt(b, c)
    ensures Lt(a, c)
  {
    if a != [] && a[0] == b[0] == c[0] {
      LtTransitive(a[1..], b[1..], c[1..]);
    }
  }

  lemma LtAsymmetric(a: Bytes, b: Bytes)
    requires Lt(a, b)
    ensures !Lt(b, a)
  {
    if Lt(b, a) {
      LtTransitive(a, b, a);
      LtIrreflexive(a);
    }
  }

  /** A common prefix does not influence the order. */
  lemma {:induction false} LtCommonPrefix(p: Bytes, a: Bytes, b: Bytes)
    ensures Lt(p + a, p + b) <==> Lt(a, b)
  {
    if p == [] {
      assert p + a == a && p + b == b;
    } else {
      assert (p + a)[1..] == p[1..] + a && (p + b)[1..] == p[1..] + b;
      LtCommonPrefix(p[1..], a, b);
    }
  }

  /** The first differing byte decides, whatever follows it. */
  lemma LtFirstDifference(p: Bytes, x: byte, y: byte, a: Bytes, b: Bytes)
    requires x < y
    ensures Lt(p + ([x] + a), p + ([y] + b))
  {
    LtCommonPrefix(p, [x] + a, [y] + b);
  }

  /** Big-endian integers of one width sort like the numbers they encode, whatever follows them. */
  lemma {:induction false} BeOrder(m: nat, n: nat, width: nat, a: Bytes, b: Bytes)
    requires m < n < Span(width)
    ensures Lt(Be(m, width) + a, Be(n, width) + b)
  {
    var x, y := m % 256, n % 256;
    assert Be(m, width) + a == Be(m / 256, width - 1) + ([x] + a);
    assert Be(n, width) + b == Be(n / 256, width - 1) + ([y] + b);
    if m / 256 == n / 256 {
      LtFirstDifference(Be(m / 256, width - 1), x, y, a, b);
    } else {
      BeOrder(m / 256, n / 256, width - 1, [x] + a, [y] + b);
    }
  }

  // ── prefixes ───────────────────────────────────────────────────────────

  predicate StartsWith(key: Bytes, prefix: Bytes) {
    prefix <= key
  }

  /** Keys carrying a prefix do not sort before it. */
  lemma {:induction false} PrefixNotAbove(key: Bytes, prefix: Bytes)
    requires StartsWith(key, prefix)
    ensures !Lt(key, prefix)
  {
    if prefix != [] {
      PrefixNotAbove(key[1..], prefix[1..]);
    }
  }

  /** Past a key that sorts after a prefix without carrying it, no key carries the prefix. */
  lemma {:induction false} PrefixInterval(prefix: Bytes, gap: Bytes, key: Bytes)
    requires Lt(prefix, gap) && !StartsWith(gap, prefix) && AtMost(gap, key)
    ensures !StartsWith(key, prefix)
  {
    if gap != key && StartsWith(key, prefix) && prefix != [] && gap[0] == prefix[0] {
      assert gap == [gap[0]] + gap[1..] && prefix == [prefix[0]] + prefix[1..];
      PrefixInterval(prefix[1..], gap[1..], key[1..]);
    }
  }

  lemma AtMostTransitive(a: Bytes, b: Bytes, c: Bytes)
    requires AtMost(a, b) && AtMost(b, c)
    ensures AtMost(a, c)
    ensures Lt(a, b) || Lt(b, c) ==> Lt(a, c)
  {
    if Lt(a, b) && Lt(b, c) {
      LtTransitive(a, b, c);
    }
  }

  lemma NotLtIsAtMost(a: Bytes, b: Bytes)
    ensures !Lt(a, b) <==> AtMost(b, a)
  {
    LtTotal(a, b);
    LtIrreflexive(a);
    if Lt(a, b) && Lt(b, a) {
      LtAsymmetric(a, b);
    }
  }
}
