/** Per-tenant token buckets (crates/cosaci-state/src/rate_limit.rs). */
module RateLimit {
  import opened Machine

  type TenantId = u64

  const NS_PER_SEC: nat := 1_000_000_000

  datatype Bucket = Bucket(capacity: u64, refillPerSec: u64, tokens: u64, lastRefill: u64)

  function NewBucket(capacity: u64, refillPerSec: u64, now: u64): Bucket {
    Bucket(capacity, refillPerSec, capacity, now)
  }

  function Min(a: u64, b: u64): u64 {
    if a < b then a else b
  }

  /** Tokens earned over `elapsed` ns; the quotient is truncated to a `u64`. */
  function Earned(refillPerSec: u64, elapsed: u64): u64 {
    Wrap(elapsed * refillPerSec / NS_PER_SEC)
  }

  function Refill(b: Bucket, now: u64): Bucket {
    var earned := Earned(b.refillPerSec, SatSub(now, b.lastRefill));
    b.(tokens := Min(SatAdd(b.tokens, earned), b.capacity), lastRefill := now)
  }

  /** The bucket is left refilled even when the request is turned down. */
  function Consume(b: Bucket, cost: u64, now: u64): (Bucket, bool) {
    var r := Refill(b, now);
    if r.tokens >= cost then (r.(tokens := r.tokens - cost), true) else (r, false)
  }

  type Buckets = map<TenantId, Bucket>

  /** The tenant's bucket; a full one with the given parameters on first sight. */
  function BucketOf(buckets: Buckets, tenant: TenantId, capacity: u64, refillPerSec: u64, now: u64): Bucket {
    if tenant in buckets then buckets[tenant] else NewBucket(capacity, refillPerSec, now)
  }

  function Accept(buckets: Buckets, tenant: TenantId, cost: u64, capacity: u64, refillPerSec: u64, now: u64)
    : (Buckets, bool)
  {
    var (b, ok) := Consume(BucketOf(buckets, tenant, capacity, refillPerSec, now), cost, now);
    (buckets[tenant := b], ok)
  }

  // ---------------------------------------------------------------------
  // What a bucket can give out over time

  lemma EarnedBound(refillPerSec: u64, elapsed: u64)
    ensures Earned(refillPerSec, elapsed) * NS_PER_SEC <= refillPerSec * elapsed
  {
    var product := elapsed * refillPerSec;
    assert product == refillPerSec * elapsed;
    assert Wrap(product / NS_PER_SEC) <= product / NS_PER_SEC;
  }

  /** A gap earns the whole tokens of `elapsed` ns, as long as they fit a word. */
  lemma EarnedIsFloor(refillPerSec: u64, elapsed: u64)
    ensures var earned := Earned(refillPerSec, elapsed);
            earned * NS_PER_SEC <= elapsed * refillPerSec < (earned + 1) * NS_PER_SEC <==>
            elapsed * refillPerSec < NS_PER_SEC * (U64_MAX + 1)
  {
    var product := elapsed * refillPerSec;
    var q := product / NS_PER_SEC;
    assert q * NS_PER_SEC <= product < (q + 1) * NS_PER_SEC;
    if q <= U64_MAX {
      WrapOf(q, 0, q);
    }
  }

  /** So a refill adds the whole tokens the gap earned, up to the capacity. */
  lemma RefillAdds(b: Bucket, now: u64, earned: u64)
    requires b.lastRefill <= now
    requires earned * NS_PER_SEC <= (now - b.lastRefill) * b.refillPerSec < (earned + 1) * NS_PER_SEC
    ensures var tokens := Refill(b, now).tokens;
            tokens <= b.capacity && tokens <= b.tokens + earned &&
            (tokens == b.capacity || tokens == b.tokens + earned)
  {
    var elapsed := now - b.lastRefill;
    EarnedIsFloor(b.refillPerSec, elapsed);
    SameFloor(Earned(b.refillPerSec, elapsed), earned, elapsed * b.refillPerSec);
    hide Earned;
  }

  lemma SameFloor(a: nat, b: nat, product: nat)
    requires a * NS_PER_SEC <= product < (a + 1) * NS_PER_SEC
    requires b * NS_PER_SEC <= product < (b + 1) * NS_PER_SEC
    ensures a == b
  {
  }

  /** Tokens held plus what may be earned from the last refill to `until`, in token-nanoseconds. */
  function Potential(b: Bucket, until: u64): int {
    b.tokens * NS_PER_SEC + b.refillPerSec * (until - b.lastRefill)
  }

  /** Each unit admitted costs its share of potential; waiting creates none. */
  lemma ConsumePaysPotential(b: Bucket, cost: u64, now: u64, until: u64)
    requires b.lastRefill <= now <= until
    ensures var (b', ok) := Consume(b, cost, now);
            Potential(b', until) + (if ok then cost * NS_PER_SEC else 0) <= Potential(b, until)
  {
    var elapsed := now - b.lastRefill;
    EarnedBound(b.refillPerSec, elapsed);
    var r := Refill(b, now);
    assert r.tokens <= b.tokens + Earned(b.refillPerSec, elapsed);
    assert b.refillPerSec * (until - b.lastRefill)
        == b.refillPerSec * (until - now) + b.refillPerSec * elapsed;
  }

  /** After any request the bucket is within capacity, refilled at the time of the request. */
  lemma ConsumeCaps(b: Bucket, cost: u64, now: u64)
    ensures var (b', ok) := Consume(b, cost, now);
            b'.capacity == b.capacity && b'.refillPerSec == b.refillPerSec && b'.lastRefill == now &&
            b'.tokens + (if ok then cost else 0) <= b.capacity
  {
  }

  /** Most that can be admitted in a window of `elapsed` ns. */
  function WindowLimit(b: Bucket, elapsed: u64): nat {
    b.capacity + b.refillPerSec * elapsed / NS_PER_SEC
  }

  lemma PotentialToLimit(admitted: nat, first: nat, b: Bucket, now: u64, until: u64, elapsed: u64)
    requires admitted * NS_PER_SEC <= Potential(b, until) && b.lastRefill == now
    requires b.tokens + first <= b.capacity && now <= until && until - now <= elapsed
    ensures first + admitted <= WindowLimit(b, elapsed)
  {
    var earned := b.refillPerSec * (until - now);
    assert earned <= b.refillPerSec * elapsed by {
      MulMonotone(b.refillPerSec, until - now, elapsed);
    }
    assert (first + admitted) * NS_PER_SEC <= b.capacity * NS_PER_SEC + b.refillPerSec * elapsed;
  }

  /** The answers to unit requests at the given times. */
  function Poll(b: Bucket, times: seq<u64>): seq<bool>
    decreases |times|
  {
    if times == [] then []
    else [Consume(b, 1, times[0]).1] + Poll(Consume(b, 1, times[0]).0, times[1..])
  }

  /** No gap between the requests earns a token once the product is divided and cut to a word. */
  ghost predicate EarnsNothing(b: Bucket, times: seq<u64>)
    decreases |times|
  {
    times == [] ||
    (Earned(b.refillPerSec, SatSub(times[0], b.lastRefill)) == 0 &&
     EarnsNothing(b.(lastRefill := times[0]), times[1..]))
  }

  predicate NeverAdmits(b: Bucket, times: seq<u64>) {
    forall i :: 0 <= i < |Poll(b, times)| ==> !Poll(b, times)[i]
  }

  /**
   * Each refill drops the fraction it does not pay out: an empty bucket never admits, however long
   * the polling goes on, if and only if it has no capacity or no single gap earns a token.
   */
  lemma {:induction false} StarvesIff(b: Bucket, times: seq<u64>)
    requires b.tokens == 0
    ensures NeverAdmits(b, times) <==> b.capacity == 0 || EarnsNothing(b, times)
    decreases |times|
  {
    if times == [] {
    } else {
      PollStep(b, times);
      hide Poll, Consume;
      var next := b.(lastRefill := times[0]);
      FirstPoll(b, times[0]);
      if !Consume(b, 1, times[0]).1 {
        StarvesIff(next, times[1..]);
      }
    }
  }

  lemma FirstPoll(b: Bucket, now: u64)
    requires b.tokens == 0
    ensures var earned := Earned(b.refillPerSec, SatSub(now, b.lastRefill));
            if b.capacity == 0 || earned == 0 then Consume(b, 1, now) == (b.(lastRefill := now), false)
            else Consume(b, 1, now).1
  {
  }

  lemma PollStep(b: Bucket, times: seq<u64>)
    requires times != []
    ensures NeverAdmits(b, times) <==>
            !Consume(b, 1, times[0]).1 && NeverAdmits(Consume(b, 1, times[0]).0, times[1..])
  {
    hide Consume;
    var all, rest := Poll(b, times), Poll(Consume(b, 1, times[0]).0, times[1..]);
    assert all == [Consume(b, 1, times[0]).1] + rest;
    if NeverAdmits(b, times) {
      assert !all[0];
      forall i | 0 <= i < |rest| ensures !rest[i] {
        assert !all[i + 1];
      }
    }
  }

  /** Each request comes before a whole token is earned since the one before it. */
  ghost predicate FastPolling(b: Bucket, times: seq<u64>)
    decreases |times|
  {
    times == [] ||
    (b.lastRefill <= times[0] && (times[0] - b.lastRefill) * b.refillPerSec < NS_PER_SEC &&
     FastPolling(b.(lastRefill := times[0]), times[1..]))
  }

  lemma NothingEarned(refillPerSec: u64, elapsed: u64)
    requires elapsed * refillPerSec < NS_PER_SEC
    ensures Earned(refillPerSec, elapsed) == 0
  {
    var product := elapsed * refillPerSec;
    assert product / NS_PER_SEC == 0;
  }

  lemma {:induction false} FastPollingEarnsNothing(b: Bucket, times: seq<u64>)
    requires FastPolling(b, times)
    ensures EarnsNothing(b, times)
    decreases |times|
  {
    if times == [] {
    } else {
      NothingEarned(b.refillPerSec, times[0] - b.lastRefill);
      hide Earned;
      FastPollingEarnsNothing(b.(lastRefill := times[0]), times[1..]);
    }
  }

  /** An empty bucket asked faster than whole tokens are earned never admits again. */
  lemma FastPollingStarves(b: Bucket, times: seq<u64>)
    requires b.tokens == 0 && FastPolling(b, times)
    ensures NeverAdmits(b, times)
  {
    FastPollingEarnsNothing(b, times);
    StarvesIff(b, times);
  }

  /** Each request comes after at least one whole token, and fewer than 2^64, since the one before it. */
  ghost predicate Paced(b: Bucket, times: seq<u64>)
    decreases |times|
  {
    times == [] ||
    (b.lastRefill <= times[0] &&
     NS_PER_SEC <= (times[0] - b.lastRefill) * b.refillPerSec < NS_PER_SEC * (U64_MAX + 1) &&
     Paced(b.(lastRefill := times[0]), times[1..]))
  }

  lemma PacingIgnoresTokens(b: Bucket, c: Bucket, times: seq<u64>)
    requires Paced(b, times) && c == b.(tokens := c.tokens)
    ensures Paced(c, times)
    decreases |times|
  {
    if times != [] {
      PacingIgnoresTokens(b.(lastRefill := times[0]), c.(lastRefill := times[0]), times[1..]);
    }
  }

  /** A client that waits for its token before every request is never turned down. */
  lemma {:induction false} PacedIsServed(b: Bucket, times: seq<u64>)
    requires b.capacity > 0 && Paced(b, times)
    ensures forall i :: 0 <= i < |Poll(b, times)| ==> Poll(b, times)[i]
    decreases |times|
  {
    if times == [] {
    } else {
      EarnedSome(b.refillPerSec, times[0] - b.lastRefill);
      hide Earned, Paced;
      var after := Consume(b, 1, times[0]).0;
      assert Paced(b.(lastRefill := times[0]), times[1..]) by {
        PacedTail(b, times);
      }
      PacingIgnoresTokens(b.(lastRefill := times[0]), after, times[1..]);
      PacedIsServed(after, times[1..]);
    }
  }

  lemma PacedTail(b: Bucket, times: seq<u64>)
    requires times != [] && Paced(b, times)
    ensures Paced(b.(lastRefill := times[0]), times[1..])
  {
  }

  lemma EarnedSome(refillPerSec: u64, elapsed: u64)
    requires NS_PER_SEC <= elapsed * refillPerSec < NS_PER_SEC * (U64_MAX + 1)
    ensures Earned(refillPerSec, elapsed) > 0
  {
    var product := elapsed * refillPerSec;
    assert 1 <= product / NS_PER_SEC < U64_MAX + 1;
  }

  function AtOnce(now: u64, n: nat): (times: seq<u64>)
    ensures |times| == n
  {
    seq(n, _ => now)
  }

  /** Of any number of requests at one instant exactly as many are admitted as there are tokens. */
  lemma {:induction false} BurstIsExact(b: Bucket, n: nat)
    requires b.tokens <= b.capacity
    ensures var answers := Poll(b, AtOnce(b.lastRefill, n));
            |answers| == n && forall i :: 0 <= i < n ==> (answers[i] <==> i < b.tokens)
    decreases n
  {
    if n == 0 {
    } else {
      var times := AtOnce(b.lastRefill, n);
      assert times[1..] == AtOnce(b.lastRefill, n - 1);
      InstantConsume(b);
      hide Consume, AtOnce;
      BurstIsExact(Consume(b, 1, b.lastRefill).0, n - 1);
    }
  }

  /** A tenant never seen before has its whole capacity at once, and not one request more. */
  lemma FirstBurst(buckets: Buckets, tenant: TenantId, capacity: u64, refillPerSec: u64, now: u64, n: nat)
    requires tenant !in buckets
    ensures var answers := Poll(BucketOf(buckets, tenant, capacity, refillPerSec, now), AtOnce(now, n));
            |answers| == n && forall i :: 0 <= i < n ==> (answers[i] <==> i < capacity)
  {
    BurstIsExact(NewBucket(capacity, refillPerSec, now), n);
  }

  /** Its first request is admitted exactly when the capacity covers it, and leaves the rest. */
  lemma FirstRequest(buckets: Buckets, tenant: TenantId, cost: u64, capacity: u64, refillPerSec: u64, now: u64)
    requires tenant !in buckets
    ensures var (after, ok) := Accept(buckets, tenant, cost, capacity, refillPerSec, now);
            (ok <==> cost <= capacity) && after.Keys == buckets.Keys + {tenant} &&
            (forall t :: t in buckets ==> after[t] == buckets[t]) &&
            after[tenant] == Bucket(capacity, refillPerSec, if ok then capacity - cost else capacity, now)
  {
    assert Earned(refillPerSec, 0) == 0;
  }

  lemma InstantConsume(b: Bucket)
    requires b.tokens <= b.capacity
    ensures Consume(b, 1, b.lastRefill) == if b.tokens > 0 then (b.(tokens := b.tokens - 1), true) else (b, false)
  {
    assert Earned(b.refillPerSec, 0) == 0;
  }

  class RateLimiter {
    var buckets: Buckets

    constructor ()
      ensures buckets == map[]
    {
      buckets := map[];
    }

    method AcceptWithConfig(tenant: TenantId, cost: u64, capacity: u64, refillPerSec: u64, now: u64)
      returns (ok: bool)
      modifies this
      ensures var after := Accept(old(buckets), tenant, cost, capacity, refillPerSec, now);
              buckets == after.0 && ok == after.1
    {
      if tenant !in buckets {
        buckets := buckets[tenant := NewBucket(capacity, refillPerSec, now)];
      }
      var b := Refill(buckets[tenant], now);
      ok := b.tokens >= cost;
      if ok {
        b := b.(tokens := b.tokens - cost);
      }
      buckets := buckets[tenant := b];
    }
  }
}
