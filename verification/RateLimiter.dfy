/** The sliding-window limiter of the REST state (`state::check_remember_rate`). Timestamps are read before the
    lock is taken; that they do not decrease in lock order is an assumption, stated as a precondition. */
module RateLimiter {
  import opened Bytes

  type Times = seq<int>

  predicate Nondecreasing(times: Times) {
    forall i, j :: 0 <= i <= j < |times| ==> times[i] <= times[j]
  }

  /** How many of `times` lie in the closed interval. */
  function CountIn(times: Times, lo: int, hi: int): nat {
    if times == [] then 0
    else CountIn(times[..|times| - 1], lo, hi) + if lo <= times[|times| - 1] <= hi then 1 else 0
  }

  /** No closed interval of the window's length holds more than `limit` of them. */
  ghost predicate WithinLimit(times: Times, window: nat, limit: nat) {
    forall lo: int, hi: int :: hi - lo <= window ==> CountIn(times, lo, hi) <= limit
  }

  lemma {:induction false} CountConcat(a: Times, b: Times, lo: int, hi: int)
    ensures CountIn(a + b, lo, hi) == CountIn(a, lo, hi) + CountIn(b, lo, hi)
  {
    if b == [] {
      assert a + b == a;
    } else {
      assert (a + b)[..|a + b| - 1] == a + b[..|b| - 1];
      CountConcat(a, b[..|b| - 1], lo, hi);
    }
  }

  lemma {:induction false} CountNone(times: Times, lo: int, hi: int)
    requires forall i :: 0 <= i < |times| ==> times[i] < lo
    ensures CountIn(times, lo, hi) == 0
  {
    if times != [] {
      CountNone(times[..|times| - 1], lo, hi);
    }
  }

  lemma {:induction false} CountAll(times: Times, lo: int, hi: int)
    requires forall i :: 0 <= i < |times| ==> lo <= times[i] <= hi
    ensures CountIn(times, lo, hi) == |times|
  {
    if times != [] {
      CountAll(times[..|times| - 1], lo, hi);
    }
  }

  /** A wider interval counts at least as many. */
  lemma {:induction false} CountWider(times: Times, lo: int, hi: int, lo': int, hi': int)
    requires lo' <= lo && hi <= hi'
    ensures CountIn(times, lo, hi) <= CountIn(times, lo', hi')
  {
    if times != [] {
      CountWider(times[..|times| - 1], lo, hi, lo', hi');
    }
  }

  /** Accepting a call when fewer than `limit` lie in the window that ends now keeps every window within it. */
  lemma AcceptKeeps(times: Times, now: int, window: nat, limit: nat)
    requires WithinLimit(times, window, limit) && CountIn(times, now - window, now) < limit
    requires forall i :: 0 <= i < |times| ==> times[i] <= now
    ensures WithinLimit(times + [now], window, limit)
  {
    forall lo: int, hi: int | hi - lo <= window
      ensures CountIn(times + [now], lo, hi) <= limit
    {
      CountConcat(times, [now], lo, hi);
      assert [now][..0] == [];
      if lo <= now <= hi {
        CountCapped(times, lo, hi, now);
        CountWider(times, lo, now, now - window, now);
      }
    }
  }

  lemma {:induction false} CountCapped(times: Times, lo: int, hi: int, now: int)
    requires now <= hi && forall i :: 0 <= i < |times| ==> times[i] <= now
    ensures CountIn(times, lo, hi) == CountIn(times, lo, now)
  {
    if times != [] {
      CountCapped(times[..|times| - 1], lo, hi, now);
    }
  }

  /** `recent` is what of the full history `all` can still matter at `clock`. */
  ghost predicate Recent(all: Times, recent: Times, window: nat, clock: int) {
    && |recent| <= |all| && all[|all| - |recent|..] == recent
    && (forall i :: 0 <= i < |all| - |recent| ==> all[i] < clock - window)
    && Nondecreasing(all) && forall i :: 0 <= i < |all| ==> all[i] <= clock
  }

  lemma RecentLater(all: Times, recent: Times, window: nat, clock: int, now: int)
    requires Recent(all, recent, window, clock) && clock <= now
    ensures Recent(all, recent, window, now)
  {
  }

  /** Popping an expired front entry. */
  lemma RecentPopped(all: Times, recent: Times, window: nat, now: int)
    requires Recent(all, recent, window, now) && recent != [] && now - recent[0] > window
    ensures Recent(all, recent[1..], window, now)
  {
    assert all[|all| - |recent|] == recent[0];
  }

  lemma RecentPushed(all: Times, recent: Times, window: nat, now: int)
    requires Recent(all, recent, window, now)
    ensures Recent(all + [now], recent + [now], window, now)
  {
    var more := all + [now];
    assert more[|more| - |recent + [now]|..] == all[|all| - |recent|..] + [now];
  }

  /** Once the front is not expired, the deque holds exactly the window that ends now. */
  lemma RecentCounts(all: Times, recent: Times, window: nat, now: int)
    requires Recent(all, recent, window, now) && (recent != [] ==> now - recent[0] <= window)
    ensures CountIn(all, now - window, now) == |recent|
  {
    var dropped := all[..|all| - |recent|];
    assert all == dropped + recent;
    forall i | 0 <= i < |recent|
      ensures now - window <= recent[i] <= now
    {
      assert all[|dropped|] <= all[|dropped| + i];
    }
    CountConcat(dropped, recent, now - window, now);
    CountNone(dropped, now - window, now);
    CountAll(recent, now - window, now);
  }

  class Limiter {
    const limit: nat
    const window: nat
    /** Recent accepted calls per agent, oldest first. */
    var hits: map<Bytes, Times>
    /** Every accepted call per agent, and the latest timestamp of any call. */
    ghost var accepted: map<Bytes, Times>
    ghost var clock: int

    ghost function Accepted(agent: Bytes): Times
      reads this
    {
      if agent in accepted then accepted[agent] else []
    }

    function Hits(agent: Bytes): Times
      reads this
    {
      if agent in hits then hits[agent] else []
    }

    ghost predicate Recalls(agent: Bytes)
      reads this
    {
      Recent(Accepted(agent), Hits(agent), window, clock) && WithinLimit(Accepted(agent), window, limit)
    }

    ghost predicate Valid()
      reads this
    {
      forall agent :: Recalls(agent)
    }

    constructor (limit: nat, window: nat, clock: int)
      ensures Valid() && this.limit == limit && this.window == window && this.clock == clock
      ensures forall agent :: Accepted(agent) == []
    {
      this.limit, this.window, this.clock := limit, window, clock;
      hits, accepted := map[], map[];
    }

    /** Accepts and records the call if and only if fewer than `limit` calls of this agent were accepted in the
        closed window ending now; every other agent is left as it was. */
    method CheckRememberRate(agent: Bytes, now: int) returns (ok: bool)
      requires Valid() && clock <= now
      modifies this
      ensures Valid() && clock == now
      ensures ok <==> CountIn(old(Accepted(agent)), now - window, now) < limit
      ensures Accepted(agent) == if ok then old(Accepted(agent)) + [now] else old(Accepted(agent))
      ensures forall other :: other != agent ==> Accepted(other) == old(Accepted(other)) && Hits(other) == old(Hits(other))
    {
      hide WithinLimit, CountIn, Recent;
      ghost var all := Accepted(agent);
      var entry := Hits(agent);
      assert Recalls(agent);
      RecentLater(all, entry, window, clock, now);
      while entry != [] && now - entry[0] > window
        invariant Recent(all, entry, window, now)
        invariant hits == old(hits) && accepted == old(accepted) && clock == old(clock)
        decreases |entry|
      {
        RecentPopped(all, entry, window, now);
        entry := entry[1..];
      }
      RecentCounts(all, entry, window, now);
      ok := |entry| < limit;
      if ok {
        BeforeNow(all, entry, window, now);
        AcceptKeeps(all, now, window, limit);
        RecentPushed(all, entry, window, now);
        entry := entry + [now];
        all := all + [now];
        accepted := accepted[agent := all];
      }
      hits := hits[agent := entry];
      clock := now;
      forall other
        ensures Recalls(other)
      {
        if other != agent {
          assert Accepted(other) == old(Accepted(other)) && Hits(other) == old(Hits(other));
          assert old(Recalls(other));
          RecentLater(Accepted(other), Hits(other), window, old(clock), now);
        }
      }
    }
  }

  lemma BeforeNow(all: Times, recent: Times, window: nat, now: int)
    requires Recent(all, recent, window, now)
    ensures forall i :: 0 <= i < |all| ==> all[i] <= now
  {
  }
}
