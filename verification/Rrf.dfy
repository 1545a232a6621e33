/** Reciprocal rank fusion (`retrieval::rrf_fuse`), with exact reals for scores, for every
    `k` that no rank in the rankings turns into a division by zero. */
module Rrf {
  import opened Bytes

  datatype Ranking = Ranking(signal: string, ids: seq<Bytes>)

  datatype Fused = Fused(id: Bytes, score: real, contributions: seq<string>)

  // ── what fusion means ──────────────────────────────────────────────────

  function Denominator(k: real, rank: nat): real {
    k + rank as real
  }

  /** None of the first `count` ranks divides by zero. */
  ghost predicate NoPole(k: real, count: nat) {
    forall rank: nat :: rank < count ==> Denominator(k, rank) != 0.0
  }

  /** No rank that occurs does; so for every positive `k`. */
  ghost predicate NoPoles(k: real, rankings: seq<Ranking>) {
    forall i :: 0 <= i < |rankings| ==> NoPole(k, |rankings[i].ids|)
  }

  /** The sum of `1 / (k + rank)` over every place `id` takes in one ranking. */
  function ScoreIn(ids: seq<Bytes>, k: real, id: Bytes): real
    requires NoPole(k, |ids|)
  {
    if ids == [] then 0.0
    else
      var n := |ids| - 1;
      ScoreIn(ids[..n], k, id) + if ids[n] == id then 1.0 / Denominator(k, n) else 0.0
  }

  function Score(rankings: seq<Ranking>, k: real, id: Bytes): real
    requires NoPoles(k, rankings)
  {
    if rankings == [] then 0.0
    else
      var n := |rankings| - 1;
      Score(rankings[..n], k, id) + ScoreIn(rankings[n].ids, k, id)
  }

  function Noted(signals: seq<string>, signal: string): seq<string> {
    if signal in signals then signals else signals + [signal]
  }

  /** The signals that list `id`, each once, in the order they first do. */
  function Contributions(rankings: seq<Ranking>, id: Bytes): seq<string> {
    if rankings == [] then []
    else
      var n := |rankings| - 1;
      var before := Contributions(rankings[..n], id);
      if id in rankings[n].ids then Noted(before, rankings[n].signal) else before
  }

  predicate Seen(rankings: seq<Ranking>, id: Bytes) {
    exists r :: r in rankings && id in r.ids
  }

  function FusedOf(rankings: seq<Ranking>, k: real, id: Bytes): Fused
    requires NoPoles(k, rankings)
  {
    Fused(id, Score(rankings, k, id), Contributions(rankings, id))
  }

  /** Higher score first, then the smaller id. */
  predicate Precedes(a: Fused, b: Fused) {
    a.score > b.score || (a.score == b.score && Lt(a.id, b.id))
  }

  ghost predicate Ordered(list: seq<Fused>) {
    forall i, j :: 0 <= i < j < |list| ==> Precedes(list[i], list[j])
  }

  /** `list` is the fusion of `rankings`: every id of theirs and no other, with its score and its signals. */
  ghost predicate Fuses(list: seq<Fused>, rankings: seq<Ranking>, k: real)
    requires NoPoles(k, rankings)
  {
    && Ordered(list) && (forall i, j :: 0 <= i < j < |list| ==> list[i].id != list[j].id)
    && forall f: Fused :: f in list <==> Seen(rankings, f.id) && f == FusedOf(rankings, k, f.id)
  }

  lemma PrecedesTransitive(a: Fused, b: Fused, c: Fused)
    requires Precedes(a, b) && Precedes(b, c)
    ensures Precedes(a, c)
  {
    if a.score == b.score == c.score {
      LtTransitive(a.id, b.id, c.id);
    }
  }

  lemma PrecedesTotal(a: Fused, b: Fused)
    requires a.id != b.id
    ensures Precedes(a, b) || Precedes(b, a)
  {
    LtTotal(a.id, b.id);
  }

  lemma PrecedesIrreflexive(a: Fused, b: Fused)
    requires a.id == b.id && a.score == b.score
    ensures !Precedes(a, b)
  {
    LtIrreflexive(a.id);
  }

  // ── consequences ───────────────────────────────────────────────────────

  lemma {:induction false} ScoreWithout(rankings: seq<Ranking>, i: nat, k: real, id: Bytes)
    requires NoPoles(k, rankings) && i < |rankings|
    ensures NoPoles(k, rankings[..i] + rankings[i + 1..])
    ensures Score(rankings, k, id) == Score(rankings[..i] + rankings[i + 1..], k, id) + ScoreIn(rankings[i].ids, k, id)
  {
    var n := |rankings| - 1;
    if i == n {
      assert rankings[..i] + rankings[i + 1..] == rankings[..n];
    } else {
      var less := rankings[..i] + rankings[i + 1..];
      ScoreWithout(rankings[..n], i, k, id);
      assert less[..|less| - 1] == rankings[..n][..i] + rankings[..n][i + 1..];
    }
  }

  /** The order in which the rankings are given does not touch a score. */
  lemma {:induction false} ScorePermuted(a: seq<Ranking>, b: seq<Ranking>, k: real, id: Bytes)
    requires NoPoles(k, a) && NoPoles(k, b) && multiset(a) == multiset(b)
    ensures Score(a, k, id) == Score(b, k, id)
  {
    hide ScoreIn;
    if a == [] {
      assert |multiset(b)| == 0;
    } else {
      var n := |a| - 1;
      var i := LastIn(a, b);
      ScorePermuted(a[..n], b[..i] + b[i + 1..], k, id);
      ScoreWithout(b, i, k, id);
    }
  }

  lemma LastIn(a: seq<Ranking>, b: seq<Ranking>) returns (i: nat)
    requires a != [] && multiset(a) == multiset(b)
    ensures i < |b| && b[i] == a[|a| - 1]
    ensures multiset(a[..|a| - 1]) == multiset(b[..i] + b[i + 1..])
  {
    var n := |a| - 1;
    assert a == a[..n] + [a[n]];
    assert a[n] in multiset(b);
    i :| 0 <= i < |b| && b[i] == a[n];
    assert b == b[..i] + [b[i]] + b[i + 1..];
    assert multiset(b[..i] + b[i + 1..]) == multiset(b) - multiset{b[i]};
  }

  lemma SeenPermuted(a: seq<Ranking>, b: seq<Ranking>, id: Bytes)
    requires multiset(a) == multiset(b)
    ensures Seen(a, id) ==> Seen(b, id)
  {
    if Seen(a, id) {
      var r :| r in a && id in r.ids;
      assert r in multiset(b);
    }
  }

  predicate SameScore(f: Fused, g: Fused) {
    f.id == g.id && f.score == g.score
  }

  /** Every scored id of `a` is one of `b`. */
  ghost predicate Within(a: seq<Fused>, b: seq<Fused>) {
    forall i :: 0 <= i < |a| ==> Matched(a[i], b)
  }

  ghost predicate Matched(f: Fused, b: seq<Fused>) {
    exists j :: 0 <= j < |b| && SameScore(f, b[j])
  }

  /** Two ordered lists of the same scored ids are the same list, contributions aside. */
  lemma {:induction false} OrderedUnique(a: seq<Fused>, b: seq<Fused>)
    requires Ordered(a) && Ordered(b) && Within(a, b) && Within(b, a)
    ensures |a| == |b| && forall i :: 0 <= i < |a| ==> SameScore(a[i], b[i])
  {
    hide Ordered, Precedes, SameScore, Matched, Within;
    if a == [] || b == [] {
      if b == [] {
        NothingWithin(a, b);
      } else {
        NothingWithin(b, a);
      }
    } else {
      FirstsAgree(a, b);
      RestMatches(a, b);
      RestMatches(b, a);
      OrderedUnique(a[1..], b[1..]);
      assert forall i :: 0 < i < |a| ==> a[i] == a[1..][i - 1];
      assert forall i :: 0 < i < |b| ==> b[i] == b[1..][i - 1];
    }
  }

  lemma NothingWithin(a: seq<Fused>, b: seq<Fused>)
    requires Within(a, b) && b == []
    ensures a == []
  {
    if a != [] {
      var j := FirstMatch(a, b);
    }
  }

  lemma FirstMatch(a: seq<Fused>, b: seq<Fused>) returns (j: nat)
    requires Within(a, b) && a != []
    ensures j < |b| && SameScore(a[0], b[j])
  {
    assert Matched(a[0], b);
    j :| 0 <= j < |b| && SameScore(a[0], b[j]);
  }

  lemma OrderedPair(list: seq<Fused>, j: nat)
    requires Ordered(list) && 0 < j < |list|
    ensures Precedes(list[0], list[j])
  {
  }

  lemma FirstsAgree(a: seq<Fused>, b: seq<Fused>)
    requires Ordered(a) && Ordered(b) && a != [] && b != [] && Within(a, b) && Within(b, a)
    ensures SameScore(a[0], b[0]) && SameScore(b[0], a[0])
  {
    hide Ordered, Within, Matched, Lt;
    var j := FirstMatch(a, b);
    var i := FirstMatch(b, a);
    if i > 0 && j > 0 {
      OrderedPair(a, i);
      OrderedPair(b, j);
      PrecedesTransitive(a[0], a[i], b[j]);
      PrecedesIrreflexive(a[0], b[j]);
    }
  }

  /** With equal heads, what follows matches too. */
  lemma RestMatches(a: seq<Fused>, b: seq<Fused>)
    requires Ordered(a) && Ordered(b) && a != [] && b != [] && SameScore(a[0], b[0]) && Within(a, b)
    ensures Ordered(a[1..]) && Within(a[1..], b[1..])
  {
    hide Lt;
    forall i | 0 <= i < |a[1..]|
      ensures Matched(a[1..][i], b[1..])
    {
      assert Precedes(a[0], a[i + 1]) && Matched(a[i + 1], b);
      var j :| 0 <= j < |b| && SameScore(a[i + 1], b[j]);
      if j == 0 {
        PrecedesIrreflexive(a[0], a[i + 1]);
      }
      assert SameScore(a[1..][i], b[1..][j - 1]);
    }
  }

  /** Giving the rankings in another order changes no id, no score and no position. */
  lemma FusionPermuted(a: seq<Ranking>, b: seq<Ranking>, k: real, x: seq<Fused>, y: seq<Fused>)
    requires NoPoles(k, a) && NoPoles(k, b) && multiset(a) == multiset(b) && Fuses(x, a, k) && Fuses(y, b, k)
    ensures |x| == |y| && forall i :: 0 <= i < |x| ==> SameScore(x[i], y[i])
  {
    hide Score, Contributions, Seen, Ordered;
    SameScored(a, b, k, x, y);
    SameScored(b, a, k, y, x);
    OrderedUnique(x, y);
  }

  lemma SameScored(a: seq<Ranking>, b: seq<Ranking>, k: real, x: seq<Fused>, y: seq<Fused>)
    requires NoPoles(k, a) && NoPoles(k, b) && multiset(a) == multiset(b) && Fuses(x, a, k) && Fuses(y, b, k)
    ensures Within(x, y)
  {
    hide Score, Contributions, Seen, Ordered;
    forall i | 0 <= i < |x|
      ensures Matched(x[i], y)
    {
      var f := x[i];
      assert f in x;
      SeenPermuted(a, b, f.id);
      ScorePermuted(a, b, k, f.id);
      var g := FusedOf(b, k, f.id);
      assert g in y;
      var j :| 0 <= j < |y| && y[j] == g;
      assert SameScore(f, y[j]);
    }
  }

  /** Some ranking of signal `s` lists `id`. */
  predicate Credits(rankings: seq<Ranking>, s: string, id: Bytes) {
    exists r :: r in rankings && r.signal == s && id in r.ids
  }

  lemma CreditsSnoc(rankings: seq<Ranking>, last: Ranking, s: string, id: Bytes)
    ensures Credits(rankings + [last], s, id) <==> Credits(rankings, s, id) || (last.signal == s && id in last.ids)
  {
    var all := rankings + [last];
    assert forall r :: r in all <==> r in rankings || r == last;
    if Credits(rankings, s, id) {
      var r :| r in rankings && r.signal == s && id in r.ids;
      assert r in all;
    }
    if last.signal == s && id in last.ids {
      assert last in all;
    }
  }

  /** The contributions of an id are exactly the signals that list it, each once. */
  lemma {:induction false} ContributionsAre(rankings: seq<Ranking>, id: Bytes)
    ensures var c := Contributions(rankings, id);
      && (forall i, j :: 0 <= i < j < |c| ==> c[i] != c[j])
      && (forall s :: s in c <==> Credits(rankings, s, id))
  {
    hide Credits;
    if rankings == [] {
      NoCredits(id);
    } else {
      var n := |rankings| - 1;
      ContributionsAre(rankings[..n], id);
      assert rankings == rankings[..n] + [rankings[n]];
      forall s
        ensures s in Contributions(rankings, id) <==> Credits(rankings, s, id)
      {
        CreditsSnoc(rankings[..n], rankings[n], s, id);
      }
    }
  }

  /** Ranking `f` is the first of signal `s` to list `id`. */
  ghost predicate FirstAt(rankings: seq<Ranking>, s: string, id: Bytes, f: nat) {
    && f < |rankings| && rankings[f].signal == s && id in rankings[f].ids
    && !Credits(rankings[..f], s, id)
  }

  lemma {:induction false} FirstExists(rankings: seq<Ranking>, s: string, id: Bytes) returns (f: nat)
    requires Credits(rankings, s, id)
    ensures FirstAt(rankings, s, id, f)
  {
    var n := |rankings| - 1;
    if Credits(rankings[..n], s, id) {
      f := FirstExists(rankings[..n], s, id);
      assert rankings[..n][..f] == rankings[..f];
    } else {
      f := n;
      assert rankings == rankings[..n] + [rankings[n]];
      CreditsSnoc(rankings[..n], rankings[n], s, id);
    }
  }

  /** Contributions are in the order in which their signals first list the id. */
  lemma {:induction false} ContributionsOrder(rankings: seq<Ranking>, id: Bytes, i: nat, j: nat) returns (f: nat, g: nat)
    requires i < j < |Contributions(rankings, id)|
    ensures var c := Contributions(rankings, id);
      f < g && FirstAt(rankings, c[i], id, f) && FirstAt(rankings, c[j], id, g)
  {
    hide Credits;
    var n := |rankings| - 1;
    var before, c := Contributions(rankings[..n], id), Contributions(rankings, id);
    ContributionsAre(rankings[..n], id);
    if j < |before| {
      f, g := ContributionsOrder(rankings[..n], id, i, j);
      assert rankings[..n][..g] == rankings[..g];
    } else {
      f := FirstExists(rankings[..n], c[i], id);
      g := n;
    }
    assert rankings[..n][..f] == rankings[..f];
  }

  lemma NoCredits(id: Bytes)
    ensures forall s :: !Credits([], s, id)
  {
  }

  // ── the score in figures ───────────────────────────────────────────────

  /** Which `k` divide by zero: those that cancel a rank, so no positive one and none that is not an integer. */
  lemma NoPoleIff(k: real, count: nat)
    ensures NoPole(k, count) <==> k > 0.0 || k.Floor as real != k || k <= -(count as real)
  {
    if k <= 0.0 && k.Floor as real == k && -(count as real) < k {
      assert Denominator(k, -k.Floor) == 0.0;
    } else {
      forall rank: nat | rank < count
        ensures Denominator(k, rank) != 0.0
      {
        if Denominator(k, rank) == 0.0 {
          OnlyNegatives(k, rank);
        }
      }
    }
  }

  lemma OnlyNegatives(k: real, rank: nat)
    requires k + rank as real == 0.0
    ensures k.Floor as real == k <= 0.0
  {
    assert k == (-(rank as int)) as real;
  }

  /** Each place of an id adds one over `k` and its rank, counted from zero. */
  lemma ScoreInIs(ids: seq<Bytes>, last: Bytes, k: real, id: Bytes)
    requires NoPole(k, |ids| + 1)
    ensures ScoreIn([], k, id) == 0.0 && k + |ids| as real != 0.0
    ensures ScoreIn(ids + [last], k, id) == ScoreIn(ids, k, id) + if last == id then 1.0 / (k + |ids| as real) else 0.0
  {
    assert Denominator(k, |ids|) != 0.0;
    ScoreSnoc(ids, last, k, id);
  }

  ghost predicate NoRepeats(ids: seq<Bytes>) {
    forall i, j :: 0 <= i < j < |ids| ==> ids[i] != ids[j]
  }

  /** Without repeats an id scores by its one rank. */
  lemma {:induction false} ScoreAtRank(ids: seq<Bytes>, k: real, i: nat)
    requires NoPole(k, |ids|) && NoRepeats(ids) && i < |ids|
    ensures k + i as real != 0.0 && ScoreIn(ids, k, ids[i]) == 1.0 / (k + i as real)
  {
    assert Denominator(k, i) != 0.0;
    var n := |ids| - 1;
    if i == n {
      NothingIn(ids[..n], k, ids[n]);
    } else {
      ScoreAtRank(ids[..n], k, i);
    }
  }

  lemma Falls(k: real, i: nat, j: nat)
    requires k > 0.0 && i < j
    ensures 1.0 / (k + i as real) > 1.0 / (k + j as real)
  {
    var a, b := k + i as real, k + j as real;
    assert 1.0 / a - 1.0 / b == (b - a) / (a * b);
  }

  /** The ids of a ranking with the scores of their ranks. */
  function Ranked(ids: seq<Bytes>, k: real): (r: seq<Fused>)
    requires k > 0.0
    ensures |r| == |ids| && forall i :: 0 <= i < |ids| ==> r[i] == Fused(ids[i], 1.0 / (k + i as real), [])
  {
    seq(|ids|, i requires 0 <= i < |ids| => Fused(ids[i], 1.0 / (k + i as real), []))
  }

  lemma RankedFalls(ids: seq<Bytes>, k: real)
    requires k > 0.0
    ensures Ordered(Ranked(ids, k))
  {
    forall i, j | 0 <= i < j < |ids|
      ensures Precedes(Ranked(ids, k)[i], Ranked(ids, k)[j])
    {
      Falls(k, i, j);
    }
  }

  /** Fusing one ranking gives it back: every id at its place, scored by its rank. */
  lemma OneRanking(r: Ranking, k: real, x: seq<Fused>)
    requires k > 0.0 && NoRepeats(r.ids) && NoPoles(k, [r]) && Fuses(x, [r], k)
    ensures |x| == |r.ids|
    ensures forall i :: 0 <= i < |x| ==> x[i].id == r.ids[i] && x[i].score == 1.0 / (k + i as real)
  {
    hide Score, ScoreIn, Contributions, Ordered, Ranked, Within, NoRepeats;
    var y := Ranked(r.ids, k);
    RankedFalls(r.ids, k);
    SameAsRanks(r, k, x, y);
    OrderedUnique(x, y);
  }

  lemma FusedAtRank(r: Ranking, k: real, i: nat)
    requires k > 0.0 && NoRepeats(r.ids) && NoPoles(k, [r]) && i < |r.ids|
    ensures Seen([r], r.ids[i]) && SameScore(FusedOf([r], k, r.ids[i]), Ranked(r.ids, k)[i])
  {
    hide Score, ScoreIn, Contributions, NoRepeats;
    assert r in [r] && [r][0] == r;
    ScoreOfOne(r, k, r.ids[i]);
    ScoreAtRank(r.ids, k, i);
  }

  lemma ScoreOfOne(r: Ranking, k: real, id: Bytes)
    requires NoPoles(k, [r]) && NoPole(k, |r.ids|)
    ensures Score([r], k, id) == ScoreIn(r.ids, k, id)
  {
    assert [r][..0] == [];
  }

  lemma SameAsRanks(r: Ranking, k: real, x: seq<Fused>, y: seq<Fused>)
    requires k > 0.0 && NoRepeats(r.ids) && NoPoles(k, [r]) && Fuses(x, [r], k) && y == Ranked(r.ids, k)
    ensures Within(x, y) && Within(y, x)
  {
    hide Score, ScoreIn, Contributions, Ordered, Ranked, Seen, NoRepeats, FusedOf, NoPoles;
    forall i | 0 <= i < |y|
      ensures Matched(y[i], x)
    {
      FusedAtRank(r, k, i);
      SameScoreBack(FusedOf([r], k, r.ids[i]), y[i]);
      var j :| 0 <= j < |x| && x[j] == FusedOf([r], k, r.ids[i]);
    }
    forall i | 0 <= i < |x|
      ensures Matched(x[i], y)
    {
      assert x[i] in x;
      var j := PlaceOf(r, x[i].id);
      FusedAtRank(r, k, j);
      assert SameScore(x[i], y[j]);
    }
  }

  lemma SameScoreBack(f: Fused, g: Fused)
    requires SameScore(f, g)
    ensures SameScore(g, f)
  {
  }

  lemma PlaceOf(r: Ranking, id: Bytes) returns (i: nat)
    requires Seen([r], id)
    ensures i < |r.ids| && r.ids[i] == id
  {
    i :| 0 <= i < |r.ids| && r.ids[i] == id;
  }

  // ── the fusion loop ────────────────────────────────────────────────────

  type Accumulator = map<Bytes, (real, seq<string>)>

  /** After `done` whole rankings and the ids `part` of ranking `signal`: totals for exactly the ids seen. */
  ghost predicate Accumulates(acc: Accumulator, done: seq<Ranking>, signal: string, part: seq<Bytes>, k: real)
    requires NoPoles(k, done) && NoPole(k, |part|)
  {
    && (forall id :: id in acc <==> Seen(done, id) || id in part)
    && (forall id :: id in acc ==> acc[id] == Total(done, signal, part, k, id))
  }

  function Total(done: seq<Ranking>, signal: string, part: seq<Bytes>, k: real, id: Bytes): (real, seq<string>)
    requires NoPoles(k, done) && NoPole(k, |part|)
  {
    (Score(done, k, id) + ScoreIn(part, k, id),
     if id in part then Noted(Contributions(done, id), signal) else Contributions(done, id))
  }

  ghost predicate Lists(order: seq<Bytes>, acc: Accumulator) {
    && (forall id :: id in order <==> id in acc)
    && (forall i, j :: 0 <= i < j < |order| ==> order[i] != order[j])
  }

  lemma {:induction false} NothingSeen(done: seq<Ranking>, k: real, id: Bytes)
    requires NoPoles(k, done) && !Seen(done, id)
    ensures Score(done, k, id) == 0.0 && Contributions(done, id) == []
  {
    if done != [] {
      var n := |done| - 1;
      assert done[n] in done;
      NothingIn(done[n].ids, k, id);
      assert forall r :: r in done[..n] ==> r in done;
      NothingSeen(done[..n], k, id);
    }
  }

  lemma {:induction false} NothingIn(ids: seq<Bytes>, k: real, id: Bytes)
    requires NoPole(k, |ids|) && id !in ids
    ensures ScoreIn(ids, k, id) == 0.0
  {
    if ids != [] {
      NothingIn(ids[..|ids| - 1], k, id);
    }
  }

  method Accumulate(rankings: seq<Ranking>, k: real) returns (acc: Accumulator, order: seq<Bytes>)
    requires NoPoles(k, rankings)
    ensures Accumulates(acc, rankings, "", [], k) && Lists(order, acc)
  {
    hide Score, ScoreIn, Contributions, Seen, Total;
    acc, order := map[], [];
    StartsEmpty(k);
    assert rankings[..0] == [];
    for r := 0 to |rankings|
      invariant Accumulates(acc, rankings[..r], "", [], k) && Lists(order, acc)
    {
      var ranking := rankings[r];
      Opens(acc, rankings[..r], ranking.signal, k);
      assert ranking.ids[..0] == [];
      for rank := 0 to |ranking.ids|
        invariant Accumulates(acc, rankings[..r], ranking.signal, ranking.ids[..rank], k) && Lists(order, acc)
      {
        var id := ranking.ids[rank];
        var contribution := 1.0 / Denominator(k, rank);
        Grows(acc, rankings[..r], ranking.signal, ranking.ids, rank, k);
        if id !in acc {
          order := order + [id];
        }
        var entry := if id in acc then acc[id] else (0.0, []);
        acc := acc[id := (entry.0 + contribution, Noted(entry.1, ranking.signal))];
      }
      assert ranking.ids[..|ranking.ids|] == ranking.ids;
      Closes(acc, rankings, r, k);
    }
    assert rankings[..|rankings|] == rankings;
  }

  lemma StartsEmpty(k: real)
    ensures Accumulates(map[], [], "", [], k)
  {
  }

  lemma Opens(acc: Accumulator, done: seq<Ranking>, signal: string, k: real)
    requires NoPoles(k, done) && Accumulates(acc, done, "", [], k)
    ensures Accumulates(acc, done, signal, [], k)
  {
  }

  /** One more id of the current ranking. */
  lemma Grows(acc: Accumulator, done: seq<Ranking>, signal: string, ids: seq<Bytes>, rank: nat, k: real)
    requires NoPoles(k, done) && NoPole(k, |ids|) && rank < |ids| && Accumulates(acc, done, signal, ids[..rank], k)
    ensures var id := ids[rank];
      var entry := if id in acc then acc[id] else (0.0, []);
      Accumulates(acc[id := (entry.0 + 1.0 / Denominator(k, rank), Noted(entry.1, signal))], done, signal, ids[..rank + 1], k)
  {
    hide Total, Seen, NoPoles, Noted;
    var id, part := ids[rank], ids[..rank];
    assert ids[..rank + 1] == part + [id];
    if id !in acc {
      NothingTotal(done, signal, part, k, id);
    }
    forall x
      ensures Total(done, signal, part + [id], k, x)
           == var t := Total(done, signal, part, k, x);
              if x == id then (t.0 + 1.0 / Denominator(k, rank), Noted(t.1, signal)) else t
    {
      TotalNext(done, signal, part, id, k, x);
    }
  }

  lemma NothingTotal(done: seq<Ranking>, signal: string, part: seq<Bytes>, k: real, id: Bytes)
    requires NoPoles(k, done) && NoPole(k, |part|) && !Seen(done, id) && id !in part
    ensures Total(done, signal, part, k, id) == (0.0, [])
  {
    NothingSeen(done, k, id);
    NothingIn(part, k, id);
  }

  lemma TotalNext(done: seq<Ranking>, signal: string, part: seq<Bytes>, last: Bytes, k: real, id: Bytes)
    requires NoPoles(k, done) && NoPole(k, |part| + 1)
    ensures Total(done, signal, part + [last], k, id)
         == var t := Total(done, signal, part, k, id);
            if id == last then (t.0 + 1.0 / Denominator(k, |part|), Noted(t.1, signal)) else t
  {
    hide Score, ScoreIn, Contributions, NoPoles;
    ScoreSnoc(part, last, k, id);
  }

  lemma ScoreSnoc(ids: seq<Bytes>, last: Bytes, k: real, id: Bytes)
    requires NoPole(k, |ids| + 1)
    ensures ScoreIn(ids + [last], k, id) == ScoreIn(ids, k, id) + if last == id then 1.0 / Denominator(k, |ids|) else 0.0
  {
    assert (ids + [last])[..|ids|] == ids;
  }

  lemma SeenSnoc(done: seq<Ranking>, last: Ranking, id: Bytes)
    ensures Seen(done + [last], id) <==> Seen(done, id) || id in last.ids
  {
    var all := done + [last];
    assert forall x :: x in all <==> x in done || x == last;
    if id in last.ids {
      assert last in all;
    }
    if Seen(done, id) {
      var x :| x in done && id in x.ids;
      assert x in all;
    }
  }

  lemma TotalSnoc(done: seq<Ranking>, last: Ranking, k: real, id: Bytes)
    requires NoPoles(k, done + [last])
    ensures Total(done + [last], "", [], k, id) == Total(done, last.signal, last.ids, k, id)
  {
    var all := done + [last];
    assert all[..|done|] == done;
    NothingIn([], k, id);
  }

  /** A ranking read to its end counts as done. */
  lemma Closes(acc: Accumulator, rankings: seq<Ranking>, r: nat, k: real)
    requires NoPoles(k, rankings) && r < |rankings| && Accumulates(acc, rankings[..r], rankings[r].signal, rankings[r].ids, k)
    ensures Accumulates(acc, rankings[..r + 1], "", [], k)
  {
    hide Total, Seen;
    var done, last := rankings[..r], rankings[r];
    assert rankings[..r + 1] == done + [last];
    forall id
      ensures Seen(done + [last], id) <==> Seen(done, id) || id in last.ids
      ensures Total(done + [last], "", [], k, id) == Total(done, last.signal, last.ids, k, id)
    {
      SeenSnoc(done, last, id);
      TotalSnoc(done, last, k, id);
    }
  }

  // ── the final sort ─────────────────────────────────────────────────────

  function Place(f: Fused, list: seq<Fused>): seq<Fused> {
    if list == [] || Precedes(f, list[0]) then [f] + list else [list[0]] + Place(f, list[1..])
  }

  /** What the library's sort by descending score, then ascending id, gives. */
  function Sort(list: seq<Fused>): seq<Fused> {
    if list == [] then [] else Place(list[0], Sort(list[1..]))
  }

  lemma {:induction false} PlaceOrdered(f: Fused, list: seq<Fused>)
    requires Ordered(list) && forall g :: g in list ==> g.id != f.id
    ensures Ordered(Place(f, list)) && forall g :: g in Place(f, list) <==> g == f || g in list
  {
    if list != [] {
      assert list[0] in list;
      if Precedes(f, list[0]) {
        forall j | 0 <= j < |list|
          ensures Precedes(f, list[j])
        {
          if j > 0 {
            PrecedesTransitive(f, list[0], list[j]);
          }
        }
      } else {
        PrecedesTotal(f, list[0]);
        PlaceOrdered(f, list[1..]);
        var rest := Place(f, list[1..]);
        forall j | 0 <= j < |rest|
          ensures Precedes(list[0], rest[j])
        {
          assert rest[j] in rest;
          if rest[j] != f {
            var m :| 0 <= m < |list[1..]| && list[1..][m] == rest[j];
            assert list[m + 1] == rest[j];
          }
        }
      }
    }
  }

  lemma {:induction false} SortOrdered(list: seq<Fused>)
    requires forall i, j :: 0 <= i < j < |list| ==> list[i].id != list[j].id
    ensures Ordered(Sort(list)) && forall g :: g in Sort(list) <==> g in list
  {
    if list != [] {
      SortOrdered(list[1..]);
      forall g | g in Sort(list[1..])
        ensures g.id != list[0].id
      {
        var m :| 0 <= m < |list[1..]| && list[1..][m] == g;
        assert list[m + 1] == g;
      }
      PlaceOrdered(list[0], Sort(list[1..]));
    }
  }

  lemma IdsDistinct(list: seq<Fused>, sorted: seq<Fused>)
    requires Ordered(sorted) && forall g :: g in sorted <==> g in list
    requires forall i, j :: 0 <= i < j < |list| ==> list[i].id != list[j].id
    ensures forall i, j :: 0 <= i < j < |sorted| ==> sorted[i].id != sorted[j].id
  {
    forall i, j | 0 <= i < j < |sorted|
      ensures sorted[i].id != sorted[j].id
    {
      assert sorted[i] in sorted && sorted[j] in sorted;
      var a :| 0 <= a < |list| && list[a] == sorted[i];
      var b :| 0 <= b < |list| && list[b] == sorted[j];
      if sorted[i].id == sorted[j].id {
        PrecedesIrreflexive(sorted[i], sorted[j]);
      }
    }
  }

  method RrfFuse(rankings: seq<Ranking>, k: real) returns (fused: seq<Fused>)
    requires NoPoles(k, rankings)
    ensures Fuses(fused, rankings, k)
  {
    hide Score, Contributions, Seen, ScoreIn, Sort, Ordered;
    var acc, order := Accumulate(rankings, k);
    var list: seq<Fused> := [];
    for i := 0 to |order|
      invariant |list| == i
      invariant forall j :: 0 <= j < i ==> list[j] == Fused(order[j], acc[order[j]].0, acc[order[j]].1)
    {
      list := list + [Fused(order[i], acc[order[i]].0, acc[order[i]].1)];
    }
    SortOrdered(list);
    fused := Sort(list);
    IdsDistinct(list, fused);
    Finished(rankings, k, acc, order, list);
  }

  lemma Finished(rankings: seq<Ranking>, k: real, acc: Accumulator, order: seq<Bytes>, list: seq<Fused>)
    requires NoPoles(k, rankings) && Accumulates(acc, rankings, "", [], k) && Lists(order, acc) && |list| == |order|
    requires forall j :: 0 <= j < |list| ==> list[j] == Fused(order[j], acc[order[j]].0, acc[order[j]].1)
    ensures forall f: Fused :: f in list <==> Seen(rankings, f.id) && f == FusedOf(rankings, k, f.id)
  {
    hide Score, Contributions, Seen;
    forall f: Fused | Seen(rankings, f.id) && f == FusedOf(rankings, k, f.id)
      ensures f in list
    {
      assert f.id in order;
      var j :| 0 <= j < |order| && order[j] == f.id;
      assert list[j] == f;
    }
    forall f | f in list
      ensures Seen(rankings, f.id) && f == FusedOf(rankings, k, f.id)
    {
      var j :| 0 <= j < |list| && list[j] == f;
      assert order[j] in order;
    }
  }
}
