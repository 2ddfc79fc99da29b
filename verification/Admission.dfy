/** The four-stage submission gate (crates/cosaci-state/src/submission_auth.rs). */
module Admission {
  import opened Machine
  import opened Tenant
  import Limit = RateLimit
  import Guard = Replay

  type Bytes = seq<u8>

  datatype JobPayload = JobPayload(
    tenantId: TenantId, kind: string, a: int, b: int, deadlineSecs: u32, nonce: nat)

  datatype PipelinePayload = PipelinePayload(
    tenantId: TenantId, pipelineCbor: Bytes, deadlineSecs: u32, nonce: nat)

  /** `Malformed` stands for missing or undecodable authentication fields. */
  datatype Submission =
    | Job(job: JobPayload, pubkey: Bytes, signature: Bytes)
    | Pipeline(pipeline: PipelinePayload, pubkey: Bytes, signature: Bytes)
    | Malformed

  /** The libraries the gate calls: hashing, signature checking and canonical encoding. */
  datatype Crypto = Crypto(
    fingerprint: Bytes -> Bytes,
    verifies: (Bytes, Bytes, Bytes) -> bool,
    foldKey: (TenantId, nat) -> u64,
    encodeJob: JobPayload -> Option<Bytes>,
    encodePipeline: PipelinePayload -> Option<Bytes>)

  datatype Verdict = Ok | UnknownTenant | BadSignature | RateLimited | ReplayDetected

  /** The clock readings of one call, in the order they are taken. */
  datatype Readings = Readings(stamp: u64, sweepAt: u64, acceptAt: u64, bucketAt: u64)

  datatype Gate = Gate(registry: Registry, buckets: Limit.Buckets, nonces: Guard.Nonces, ttl: u64)

  datatype Event = Submit(sub: Submission, at: Readings) | Reload(registry: Registry)

  // Both payload shapes share the authentication surface.

  function TenantOf(sub: Submission): TenantId
    requires !sub.Malformed?
  {
    if sub.Job? then sub.job.tenantId else sub.pipeline.tenantId
  }

  function NonceOf(sub: Submission): nat
    requires !sub.Malformed?
  {
    if sub.Job? then sub.job.nonce else sub.pipeline.nonce
  }

  function SignedBytes(crypto: Crypto, sub: Submission): Option<Bytes>
    requires !sub.Malformed?
  {
    if sub.Job? then crypto.encodeJob(sub.job) else crypto.encodePipeline(sub.pipeline)
  }

  /** The verdict of the first two stages, or `Ok` if they let the submission through. */
  function Screen(crypto: Crypto, registry: Registry, sub: Submission): Verdict {
    if sub.Malformed? then BadSignature
    else if TenantOf(sub) !in registry then UnknownTenant
    else if crypto.fingerprint(sub.pubkey) != registry[TenantOf(sub)].signingFp then BadSignature
    else
      match SignedBytes(crypto, sub)
      case None => BadSignature
      case Some(bytes) => if crypto.verifies(sub.pubkey, bytes, sub.signature) then Ok else BadSignature
  }

  function GuardCall(crypto: Crypto, sub: Submission, at: Readings): Guard.Call
    requires !sub.Malformed?
  {
    Guard.Call(crypto.foldKey(TenantOf(sub), NonceOf(sub)), at.stamp, at.sweepAt, at.acceptAt)
  }

  /** Whether the submission reaches the last stage. */
  predicate Passes(crypto: Crypto, g: Gate, sub: Submission, at: Readings) {
    Screen(crypto, g.registry, sub).Ok? &&
    Guard.Decide(g.nonces, g.ttl, GuardCall(crypto, sub, at)).Accepted?
  }

  function Spend(g: Gate, tenant: TenantId, now: u64): (Limit.Buckets, bool)
    requires tenant in g.registry
  {
    Limit.Accept(g.buckets, tenant, 1, g.registry[tenant].rateCapacity, g.registry[tenant].rateRefillPerSec, now)
  }

  function Judge(crypto: Crypto, g: Gate, sub: Submission, at: Readings): Verdict {
    if !Screen(crypto, g.registry, sub).Ok? then Screen(crypto, g.registry, sub)
    else if !Passes(crypto, g, sub, at) then ReplayDetected
    else if Spend(g, TenantOf(sub), at.bucketAt).1 then Ok
    else RateLimited
  }

  function Admit(crypto: Crypto, g: Gate, sub: Submission, at: Readings): Gate {
    if !Screen(crypto, g.registry, sub).Ok? then g
    else
      var nonces := Guard.Next(g.nonces, g.ttl, GuardCall(crypto, sub, at));
      if Passes(crypto, g, sub, at)
      then g.(nonces := nonces, buckets := Spend(g, TenantOf(sub), at.bucketAt).0)
      else g.(nonces := nonces)
  }

  /** A reload replaces the registry and nothing else. */
  function Next(crypto: Crypto, g: Gate, e: Event): Gate {
    match e
    case Submit(sub, at) => Admit(crypto, g, sub, at)
    case Reload(registry) => g.(registry := registry)
  }

  function Run(crypto: Crypto, g: Gate, events: seq<Event>): Gate
    decreases |events|
  {
    if events == [] then g else Run(crypto, Next(crypto, g, events[0]), events[1..])
  }

  ghost predicate Ordered(from: u64, at: Readings) {
    from <= at.stamp <= at.sweepAt <= at.acceptAt <= at.bucketAt
  }

  function TimeAfter(from: u64, e: Event): u64 {
    if e.Submit? then e.at.bucketAt else from
  }

  ghost predicate Timed(from: u64, events: seq<Event>)
    decreases |events|
  {
    events == [] ||
    ((events[0].Submit? ==> Ordered(from, events[0].at)) && Timed(TimeAfter(from, events[0]), events[1..]))
  }

  function EndTime(from: u64, events: seq<Event>): u64
    decreases |events|
  {
    if events == [] then from else EndTime(TimeAfter(from, events[0]), events[1..])
  }

  lemma {:induction false} TimeGrows(from: u64, events: seq<Event>)
    requires Timed(from, events)
    ensures from <= EndTime(from, events)
    decreases |events|
  {
    if events == [] {
    } else {
      TimeGrows(TimeAfter(from, events[0]), events[1..]);
    }
  }

  // ---------------------------------------------------------------------
  // Admission bound

  predicate AdmitsOk(crypto: Crypto, g: Gate, e: Event, tenant: TenantId) {
    e.Submit? && Judge(crypto, g, e.sub, e.at).Ok? && TenantOf(e.sub) == tenant
  }

  /** Number of `Ok` verdicts of one tenant. */
  function OkCount(crypto: Crypto, g: Gate, events: seq<Event>, tenant: TenantId): nat
    decreases |events|
  {
    if events == [] then 0
    else (if AdmitsOk(crypto, g, events[0], tenant) then 1 else 0)
         + OkCount(crypto, Next(crypto, g, events[0]), events[1..], tenant)
  }

  /** Whether the event reaches the tenant's bucket. */
  predicate Touches(crypto: Crypto, g: Gate, e: Event, tenant: TenantId) {
    e.Submit? && Passes(crypto, g, e.sub, e.at) && TenantOf(e.sub) == tenant
  }

  lemma UntouchedBucket(crypto: Crypto, g: Gate, e: Event, tenant: TenantId)
    requires !Touches(crypto, g, e, tenant)
    ensures var g' := Next(crypto, g, e);
            (tenant in g'.buckets <==> tenant in g.buckets) &&
            (tenant in g.buckets ==> g'.buckets[tenant] == g.buckets[tenant]) &&
            !AdmitsOk(crypto, g, e, tenant)
  {
    hide Limit.Consume, Guard.Decide, Guard.Next;
  }

  function BucketAt(g: Gate, tenant: TenantId, now: u64): Limit.Bucket
    requires tenant in g.registry
  {
    Limit.BucketOf(g.buckets, tenant, g.registry[tenant].rateCapacity, g.registry[tenant].rateRefillPerSec, now)
  }

  lemma TouchedBucket(crypto: Crypto, g: Gate, e: Event, tenant: TenantId)
    requires Touches(crypto, g, e, tenant)
    ensures var g' := Next(crypto, g, e);
            e.Submit? && tenant in g.registry && tenant in g'.buckets &&
            (g'.buckets[tenant], AdmitsOk(crypto, g, e, tenant)) ==
            Limit.Consume(BucketAt(g, tenant, e.at.bucketAt), 1, e.at.bucketAt)
  {
    hide Limit.Consume, Guard.Decide, Guard.Next;
  }

  /** Bucket parameters are those of the registry at first sight, whatever is reloaded later. */
  lemma {:induction false} ParametersAreFrozen(crypto: Crypto, g: Gate, events: seq<Event>, tenant: TenantId)
    requires tenant in g.buckets
    ensures var final := Run(crypto, g, events);
            tenant in final.buckets &&
            final.buckets[tenant].capacity == g.buckets[tenant].capacity &&
            final.buckets[tenant].refillPerSec == g.buckets[tenant].refillPerSec
    decreases |events|
  {
    hide Next, Touches;
    if events == [] {
    } else {
      StepFreezesParameters(crypto, g, events[0], tenant);
      ParametersAreFrozen(crypto, Next(crypto, g, events[0]), events[1..], tenant);
    }
  }

  lemma StepFreezesParameters(crypto: Crypto, g: Gate, e: Event, tenant: TenantId)
    ensures var g' := Next(crypto, g, e);
            (tenant in g.buckets ==>
              tenant in g'.buckets &&
              g'.buckets[tenant].capacity == g.buckets[tenant].capacity &&
              g'.buckets[tenant].refillPerSec == g.buckets[tenant].refillPerSec) &&
            (tenant !in g.buckets && tenant in g'.buckets ==>
              tenant in g.registry &&
              g'.buckets[tenant].capacity == g.registry[tenant].rateCapacity &&
              g'.buckets[tenant].refillPerSec == g.registry[tenant].rateRefillPerSec)
  {
    if Touches(crypto, g, e, tenant) {
      hide Next, Touches, AdmitsOk, Limit.Consume;
      TouchedBucket(crypto, g, e, tenant);
      Limit.ConsumeCaps(BucketAt(g, tenant, e.at.bucketAt), 1, e.at.bucketAt);
    } else {
      UntouchedBucket(crypto, g, e, tenant);
    }
  }

  /** From a bucket refilled no later than `from`, the tenant's admissions are paid by its potential. */
  lemma {:induction false} AdmissionsPayPotential(
    crypto: Crypto, g: Gate, from: u64, events: seq<Event>, until: u64, tenant: TenantId)
    requires Timed(from, events) && EndTime(from, events) <= until
    requires tenant in g.buckets && g.buckets[tenant].lastRefill <= from
    ensures OkCount(crypto, g, events, tenant) * Limit.NS_PER_SEC <= Limit.Potential(g.buckets[tenant], until)
    decreases |events|
  {
    hide Next, Touches, AdmitsOk, Limit.Consume;
    TimeGrows(from, events);
    if events == [] {
      PotentialIsPositive(g.buckets[tenant], until);
    } else {
      var e := events[0];
      var g', t := Next(crypto, g, e), TimeAfter(from, e);
      TimeGrows(t, events[1..]);
      if Touches(crypto, g, e, tenant) {
        TouchedBucket(crypto, g, e, tenant);
        Limit.ConsumePaysPotential(g.buckets[tenant], 1, e.at.bucketAt, until);
        Limit.ConsumeCaps(g.buckets[tenant], 1, e.at.bucketAt);
      } else {
        UntouchedBucket(crypto, g, e, tenant);
      }
      AdmissionsPayPotential(crypto, g', t, events[1..], until, tenant);
    }
  }

  lemma PotentialIsPositive(b: Limit.Bucket, until: u64)
    requires b.lastRefill <= until
    ensures Limit.Potential(b, until) >= 0
  {
    MulMonotone(b.refillPerSec, 0, until - b.lastRefill);
  }

  /** Every bucket was refilled by `t`. */
  ghost predicate RefilledBy(g: Gate, t: u64) {
    forall tenant :: tenant in g.buckets ==> g.buckets[tenant].lastRefill <= t
  }

  /**
   * Admission bound: over any window of any run, whatever other tenants submit and however often
   * the registry is reloaded, a tenant's `Ok` verdicts stay within capacity plus refill.
   */
  lemma {:induction false} AdmissionBound(
    crypto: Crypto, g: Gate, from: u64, events: seq<Event>, until: u64, tenant: TenantId, start: u64)
    requires Timed(from, events) && EndTime(from, events) <= until && start <= from && start <= until
    requires tenant in g.buckets ==> g.buckets[tenant].lastRefill <= from
    ensures var final := Run(crypto, g, events);
            var count := OkCount(crypto, g, events, tenant);
            if tenant in final.buckets
            then count <= Limit.WindowLimit(final.buckets[tenant], until - start)
            else count == 0
    decreases |events|
  {
    hide Next, Touches, AdmitsOk, Limit.Consume;
    TimeGrows(from, events);
    if events == [] {
    } else {
      var e := events[0];
      var g', t := Next(crypto, g, e), TimeAfter(from, e);
      TimeGrows(t, events[1..]);
      if Touches(crypto, g, e, tenant) {
        TouchedBucket(crypto, g, e, tenant);
        Limit.ConsumeCaps(BucketAt(g, tenant, e.at.bucketAt), 1, e.at.bucketAt);
        AdmissionsPayPotential(crypto, g', t, events[1..], until, tenant);
        ParametersAreFrozen(crypto, g', events[1..], tenant);
        Limit.PotentialToLimit(OkCount(crypto, g', events[1..], tenant),
                               if AdmitsOk(crypto, g, e, tenant) then 1 else 0,
                               g'.buckets[tenant], e.at.bucketAt, until, until - start);
      } else {
        UntouchedBucket(crypto, g, e, tenant);
        AdmissionBound(crypto, g', t, events[1..], until, tenant, start);
      }
    }
  }

  /** Refill times never pass the clock, so the bound's premise holds from the start on. */
  lemma {:induction false} RefillsFollowClock(crypto: Crypto, g: Gate, from: u64, events: seq<Event>)
    requires RefilledBy(g, from) && Timed(from, events)
    ensures RefilledBy(Run(crypto, g, events), EndTime(from, events))
    decreases |events|
  {
    if events == [] {
    } else {
      var e := events[0];
      var g', t := Next(crypto, g, e), TimeAfter(from, e);
      forall tenant | tenant in g'.buckets ensures g'.buckets[tenant].lastRefill <= t {
        hide Next, Touches, AdmitsOk, Limit.Consume;
        if Touches(crypto, g, e, tenant) {
          TouchedBucket(crypto, g, e, tenant);
          Limit.ConsumeCaps(BucketAt(g, tenant, e.at.bucketAt), 1, e.at.bucketAt);
        } else {
          UntouchedBucket(crypto, g, e, tenant);
        }
      }
      RefillsFollowClock(crypto, g', t, events[1..]);
    }
  }

  // ---------------------------------------------------------------------
  // Erasure of rejected traffic

  predicate Erasable(v: Verdict) {
    v.UnknownTenant? || v.BadSignature? || v.ReplayDetected?
  }

  predicate Kept(crypto: Crypto, g: Gate, e: Event) {
    e.Submit? ==> !Erasable(Judge(crypto, g, e.sub, e.at))
  }

  /** The run without the submissions rejected before the rate limit. */
  function Erased(crypto: Crypto, g: Gate, events: seq<Event>): seq<Event>
    decreases |events|
  {
    if events == [] then []
    else (if Kept(crypto, g, events[0]) then [events[0]] else [])
         + Erased(crypto, Next(crypto, g, events[0]), events[1..])
  }

  function VerdictsOf(crypto: Crypto, g: Gate, events: seq<Event>): seq<Verdict>
    decreases |events|
  {
    if events == [] then []
    else (if events[0].Submit? then [Judge(crypto, g, events[0].sub, events[0].at)] else [])
         + VerdictsOf(crypto, Next(crypto, g, events[0]), events[1..])
  }

  function Surviving(verdicts: seq<Verdict>): seq<Verdict> {
    if verdicts == [] then []
    else (if Erasable(verdicts[0]) then [] else [verdicts[0]]) + Surviving(verdicts[1..])
  }

  /** Same registry and balances, and the same nonces once swept at `t` or later. */
  ghost predicate Alike(g: Gate, h: Gate, t: u64) {
    g.registry == h.registry && g.buckets == h.buckets && g.ttl == h.ttl &&
    Guard.Sweep(g.nonces, g.ttl, t) == Guard.Sweep(h.nonces, h.ttl, t)
  }

  lemma AlikeLater(g: Gate, h: Gate, s: u64, t: u64)
    requires Alike(g, h, s) && s <= t
    ensures Alike(g, h, t)
  {
    Guard.SweepTwice(g.nonces, g.ttl, s, t);
    Guard.SweepTwice(h.nonces, h.ttl, s, t);
  }

  lemma KeptStep(crypto: Crypto, g: Gate, h: Gate, t: u64, e: Event)
    requires Alike(g, h, t) && (e.Submit? ==> Ordered(t, e.at))
    ensures e.Submit? ==> Judge(crypto, g, e.sub, e.at) == Judge(crypto, h, e.sub, e.at)
    ensures Alike(Next(crypto, g, e), Next(crypto, h, e), TimeAfter(t, e))
  {
    if e.Submit? && Screen(crypto, g.registry, e.sub).Ok? {
      AlikeLater(g, h, t, e.at.sweepAt);
      hide Limit.Accept, Guard.Sweep;
      assert Spend(g, TenantOf(e.sub), e.at.bucketAt) == Spend(h, TenantOf(e.sub), e.at.bucketAt);
      assert Guard.Decide(g.nonces, g.ttl, GuardCall(crypto, e.sub, e.at)) ==
             Guard.Decide(h.nonces, h.ttl, GuardCall(crypto, e.sub, e.at));
      assert Next(crypto, g, e).nonces == Next(crypto, h, e).nonces;
    } else {
      AlikeLater(g, h, t, TimeAfter(t, e));
    }
  }

  lemma ErasedStep(crypto: Crypto, g: Gate, h: Gate, t: u64, e: Event)
    requires Alike(g, h, t) && e.Submit? && Ordered(t, e.at)
    requires Erasable(Judge(crypto, g, e.sub, e.at))
    ensures Alike(Next(crypto, g, e), h, TimeAfter(t, e))
  {
    AlikeLater(g, h, t, e.at.bucketAt);
    if Screen(crypto, g.registry, e.sub).Ok? {
      hide Limit.Accept;
      Guard.SweepTwice(g.nonces, g.ttl, e.at.sweepAt, e.at.bucketAt);
    }
  }

  /**
   * Deleting every submission rejected as unknown, badly signed or replayed changes no remaining
   * verdict and no bucket, in every run over both payload shapes.
   */
  lemma {:induction false} ErasureIsInvisible(crypto: Crypto, g: Gate, h: Gate, t: u64, events: seq<Event>)
    requires Alike(g, h, t) && Timed(t, events)
    ensures VerdictsOf(crypto, h, Erased(crypto, g, events)) == Surviving(VerdictsOf(crypto, g, events))
    ensures Run(crypto, h, Erased(crypto, g, events)).buckets == Run(crypto, g, events).buckets
    decreases |events|
  {
    if events == [] {
    } else {
      hide Alike, Next, Judge;
      var e := events[0];
      var g', t', rest := Next(crypto, g, e), TimeAfter(t, e), Erased(crypto, Next(crypto, g, e), events[1..]);
      var verdicts := VerdictsOf(crypto, g', events[1..]);
      if Kept(crypto, g, e) {
        KeptStep(crypto, g, h, t, e);
        ErasureIsInvisible(crypto, g', Next(crypto, h, e), t', events[1..]);
        assert Erased(crypto, g, events)[1..] == rest;
        if e.Submit? {
          assert ([Judge(crypto, g, e.sub, e.at)] + verdicts)[1..] == verdicts;
        } else {
          assert [] + verdicts == verdicts;
        }
      } else {
        ErasedStep(crypto, g, h, t, e);
        ErasureIsInvisible(crypto, g', h, t', events[1..]);
        assert Erased(crypto, g, events) == rest;
        assert ([Judge(crypto, g, e.sub, e.at)] + verdicts)[1..] == verdicts;
      }
    }
  }

  // ---------------------------------------------------------------------
  // Nonces

  function KeyOf(crypto: Crypto, sub: Submission): u64
    requires !sub.Malformed?
  {
    crypto.foldKey(TenantOf(sub), NonceOf(sub))
  }

  /**
   * What a submission does to the nonce table: an `Ok` and also a `RateLimited` one record their
   * key, since the bucket is asked last; a replay only sweeps; the others change nothing.
   */
  lemma NonceTableAfter(crypto: Crypto, g: Gate, sub: Submission, at: Readings)
    requires !sub.Malformed?
    ensures var swept := Guard.Sweep(g.nonces, g.ttl, at.sweepAt);
            Admit(crypto, g, sub, at).nonces ==
            match Judge(crypto, g, sub, at)
            case Ok => swept[KeyOf(crypto, sub) := at.acceptAt]
            case RateLimited => swept[KeyOf(crypto, sub) := at.acceptAt]
            case ReplayDetected => swept
            case _ => g.nonces
  {
    hide Limit.Accept;
  }

  /** The nonce recorded at `t` survives until a sweep at `t + ttl` or later. */
  lemma {:induction false} NonceSurvives(crypto: Crypto, g: Gate, from: u64, events: seq<Event>, key: u64, t: u64)
    requires Timed(from, events) && EndTime(from, events) < t + g.ttl
    requires key in g.nonces && g.nonces[key] == t && t <= from
    ensures var final := Run(crypto, g, events);
            key in final.nonces && final.nonces[key] == t && final.ttl == g.ttl
    decreases |events|
  {
    if events == [] {
    } else {
      hide Limit.Accept;
      TimeGrows(TimeAfter(from, events[0]), events[1..]);
      NonceSurvives(crypto, Next(crypto, g, events[0]), TimeAfter(from, events[0]), events[1..], key, t);
    }
  }

  /** Any two submissions that pass the replay stage under one key are at least `ttl` apart. */
  lemma PassesAreSpaced(
    crypto: Crypto, g: Gate, from: u64, first: Submission, at: Readings, events: seq<Event>,
    second: Submission, at2: Readings)
    requires Ordered(from, at) && Timed(at.bucketAt, events) && Ordered(EndTime(at.bucketAt, events), at2)
    requires Passes(crypto, g, first, at)
    requires Passes(crypto, Run(crypto, Admit(crypto, g, first, at), events), second, at2)
    requires KeyOf(crypto, first) == KeyOf(crypto, second)
    ensures at2.acceptAt >= at.acceptAt + g.ttl
  {
    var g' := Admit(crypto, g, first, at);
    TimeGrows(at.bucketAt, events);
    hide Limit.Accept, Run;
    if EndTime(at.bucketAt, events) < at.acceptAt + g.ttl {
      NonceSurvives(crypto, g', at.bucketAt, events, KeyOf(crypto, first), at.acceptAt);
    }
  }

  /** Timely, correctly signed, unseen within the window, and the tenant's bucket holds nothing. */
  predicate Starved(crypto: Crypto, g: Gate, sub: Submission, at: Readings) {
    WellSigned(crypto, g.registry, sub) &&
    Guard.Age(at.acceptAt, at.stamp) <= g.ttl &&
    FoldOf(crypto, sub) !in Guard.Sweep(g.nonces, g.ttl, at.sweepAt) &&
    Limit.Refill(BucketAt(g, TenantOf(sub), at.bucketAt), at.bucketAt).tokens == 0
  }

  /** The verdict is `RateLimited` in exactly that case; no token is taken then. */
  lemma RateLimitedIff(crypto: Crypto, g: Gate, sub: Submission, at: Readings)
    ensures Judge(crypto, g, sub, at).RateLimited? <==> Starved(crypto, g, sub, at)
    ensures Starved(crypto, g, sub, at) ==>
              var tenant := TenantOf(sub);
              Admit(crypto, g, sub, at).buckets ==
              g.buckets[tenant := Limit.Refill(BucketAt(g, tenant, at.bucketAt), at.bucketAt)]
  {
    hide Guard.Sweep, Limit.Refill;
  }

  /** The two other verdicts of the later stages, in the same terms. */
  lemma LateVerdicts(crypto: Crypto, g: Gate, sub: Submission, at: Readings)
    ensures Judge(crypto, g, sub, at).ReplayDetected? <==>
            WellSigned(crypto, g.registry, sub) &&
            (Guard.Age(at.acceptAt, at.stamp) > g.ttl ||
             FoldOf(crypto, sub) in Guard.Sweep(g.nonces, g.ttl, at.sweepAt))
    ensures Judge(crypto, g, sub, at).Ok? <==>
            WellSigned(crypto, g.registry, sub) && Guard.Age(at.acceptAt, at.stamp) <= g.ttl &&
            FoldOf(crypto, sub) !in Guard.Sweep(g.nonces, g.ttl, at.sweepAt) &&
            Limit.Refill(BucketAt(g, TenantOf(sub), at.bucketAt), at.bucketAt).tokens > 0
  {
    hide Guard.Sweep, Limit.Refill;
  }

  /**
   * When a submission that is not admitted still uses something up: it changes the live nonces if
   * and only if it is starved and the window is not empty.
   */
  lemma RejectedYetRecordedIff(crypto: Crypto, g: Gate, sub: Submission, at: Readings)
    requires at.sweepAt <= at.acceptAt
    ensures !Judge(crypto, g, sub, at).Ok? &&
            Guard.Sweep(Admit(crypto, g, sub, at).nonces, g.ttl, at.sweepAt) !=
            Guard.Sweep(g.nonces, g.ttl, at.sweepAt)
            <==> g.ttl > 0 && Starved(crypto, g, sub, at)
  {
    RateLimitedIff(crypto, g, sub, at);
    if Screen(crypto, g.registry, sub).Ok? {
      hide Limit.Accept, Limit.Refill, Screen;
      Guard.SweepTwice(g.nonces, g.ttl, at.sweepAt, at.sweepAt);
      NonceTableAfter(crypto, g, sub, at);
      RecordedIsLive(Guard.Sweep(g.nonces, g.ttl, at.sweepAt), g.ttl, KeyOf(crypto, sub), at.sweepAt, at.acceptAt);
    }
  }

  lemma RecordedIsLive(swept: Guard.Nonces, ttl: u64, key: u64, sweepAt: u64, now: u64)
    requires sweepAt <= now
    ensures ttl > 0 <==> key in Guard.Sweep(swept[key := now], ttl, sweepAt)
  {
  }

  /** No event of the run passes the replay stage under the key. */
  ghost predicate NonePass(crypto: Crypto, g: Gate, events: seq<Event>, key: u64)
    decreases |events|
  {
    events == [] ||
    (!PassesUnder(crypto, g, events[0], key) && NonePass(crypto, Next(crypto, g, events[0]), events[1..], key))
  }

  predicate PassesUnder(crypto: Crypto, g: Gate, e: Event, key: u64) {
    e.Submit? && Passes(crypto, g, e.sub, e.at) && KeyOf(crypto, e.sub) == key
  }

  /** Without such an event a recorded key keeps its time or goes. */
  lemma {:induction false} KeyKeepsTime(crypto: Crypto, g: Gate, events: seq<Event>, key: u64, t: u64)
    requires NonePass(crypto, g, events, key) && (key in g.nonces ==> g.nonces[key] == t)
    ensures var final := Run(crypto, g, events);
            final.ttl == g.ttl && (key in final.nonces ==> final.nonces[key] == t)
    decreases |events|
  {
    if events == [] {
    } else {
      KeyKeepsTimeStep(crypto, g, events[0], key, t);
      hide Next, PassesUnder;
      KeyKeepsTime(crypto, Next(crypto, g, events[0]), events[1..], key, t);
    }
  }

  lemma KeyKeepsTimeStep(crypto: Crypto, g: Gate, e: Event, key: u64, t: u64)
    requires !PassesUnder(crypto, g, e, key) && (key in g.nonces ==> g.nonces[key] == t)
    ensures Next(crypto, g, e).ttl == g.ttl
    ensures key in Next(crypto, g, e).nonces ==> Next(crypto, g, e).nonces[key] == t
  {
    hide Limit.Accept;
  }

  /**
   * After the last submission that passed the replay stage under its key, admitted or not, sending
   * it again is called a replay if and only if the window since then is still open or the timestamp
   * is stale; whatever else the run holds.
   */
  lemma RetryIsReplayIff(
    crypto: Crypto, g: Gate, from: u64, sub: Submission, at: Readings, events: seq<Event>, at2: Readings)
    requires Ordered(from, at) && Timed(at.bucketAt, events) && Ordered(EndTime(at.bucketAt, events), at2)
    requires Passes(crypto, g, sub, at) && NonePass(crypto, Admit(crypto, g, sub, at), events, KeyOf(crypto, sub))
    ensures var later := Run(crypto, Admit(crypto, g, sub, at), events);
            Judge(crypto, later, sub, at2).ReplayDetected? <==>
            Screen(crypto, later.registry, sub).Ok? &&
            (at2.sweepAt < at.acceptAt + g.ttl || at2.acceptAt - at2.stamp > g.ttl)
  {
    var g', key := Admit(crypto, g, sub, at), KeyOf(crypto, sub);
    TimeGrows(at.bucketAt, events);
    hide Limit.Accept, Run, NonePass;
    KeyKeepsTime(crypto, g', events, key, at.acceptAt);
    if at2.sweepAt < at.acceptAt + g.ttl {
      NonceSurvives(crypto, g', at.bucketAt, events, key, at.acceptAt);
    }
  }

  /**
   * A client that was rate limited and sends the same submission again within the window is told it
   * is a replay, although it was never admitted; if nothing else passed under its key meanwhile,
   * exactly within the window or with a stale timestamp.
   */
  lemma RetryAfterRateLimitIsReplay(
    crypto: Crypto, g: Gate, from: u64, sub: Submission, at: Readings, events: seq<Event>, at2: Readings)
    requires Ordered(from, at) && Timed(at.bucketAt, events) && Ordered(EndTime(at.bucketAt, events), at2)
    requires Starved(crypto, g, sub, at)
    ensures var later := Run(crypto, Admit(crypto, g, sub, at), events);
            Screen(crypto, later.registry, sub).Ok? && at2.sweepAt < at.acceptAt + g.ttl ==>
            Judge(crypto, later, sub, at2).ReplayDetected?
    ensures var later := Run(crypto, Admit(crypto, g, sub, at), events);
            NonePass(crypto, Admit(crypto, g, sub, at), events, KeyOf(crypto, sub)) &&
            Screen(crypto, later.registry, sub).Ok? ==>
            (Judge(crypto, later, sub, at2).ReplayDetected? <==>
             at2.sweepAt < at.acceptAt + g.ttl || at2.acceptAt - at2.stamp > g.ttl)
  {
    TimeGrows(at.bucketAt, events);
    hide Limit.Accept, Limit.Refill, Run, NonePass, Screen;
    if at2.sweepAt < at.acceptAt + g.ttl {
      NonceSurvives(crypto, Admit(crypto, g, sub, at), at.bucketAt, events, KeyOf(crypto, sub), at.acceptAt);
    }
    if NonePass(crypto, Admit(crypto, g, sub, at), events, KeyOf(crypto, sub)) {
      RetryIsReplayIff(crypto, g, from, sub, at, events, at2);
    }
  }

  /** A tenant of capacity zero: limited at once, called a replay a moment later, limited again after the window. */
  lemma LimitedThenReplayed(fp: Bytes)
    ensures var crypto := Crypto(_ => fp, (_, _, _) => true, (_, _) => 0, _ => Some([]), _ => Some([]));
            var g := Gate(map[1 := TenantRecord(1, fp, 0, 0, 0)], map[], map[], 10);
            var sub := Job(JobPayload(1, "add", 1, 2, 60, 7), [], []);
            var g1 := Admit(crypto, g, sub, Readings(0, 0, 0, 0));
            Judge(crypto, g, sub, Readings(0, 0, 0, 0)).RateLimited? &&
            Judge(crypto, g1, sub, Readings(9, 9, 9, 9)).ReplayDetected? &&
            Judge(crypto, g1, sub, Readings(10, 10, 10, 10)).RateLimited?
  {
  }

  // ---------------------------------------------------------------------
  // What the first stages demand, shape by shape

  /** Registered tenant, registered key, and a signature that holds for the canonical bytes. */
  predicate WellSigned(crypto: Crypto, registry: Registry, sub: Submission) {
    match sub
    case Malformed => false
    case Job(job, pubkey, signature) =>
      job.tenantId in registry && crypto.fingerprint(pubkey) == registry[job.tenantId].signingFp &&
      crypto.encodeJob(job).Some? && crypto.verifies(pubkey, crypto.encodeJob(job).value, signature)
    case Pipeline(pipeline, pubkey, signature) =>
      pipeline.tenantId in registry && crypto.fingerprint(pubkey) == registry[pipeline.tenantId].signingFp &&
      crypto.encodePipeline(pipeline).Some? &&
      crypto.verifies(pubkey, crypto.encodePipeline(pipeline).value, signature)
  }

  predicate Unregistered(registry: Registry, sub: Submission) {
    match sub
    case Malformed => false
    case Job(job, _, _) => job.tenantId !in registry
    case Pipeline(pipeline, _, _) => pipeline.tenantId !in registry
  }

  /** The replay key of a submission: tenant and nonce of its payload, folded. */
  function FoldOf(crypto: Crypto, sub: Submission): u64
    requires !sub.Malformed?
  {
    match sub
    case Job(job, _, _) => crypto.foldKey(job.tenantId, job.nonce)
    case Pipeline(pipeline, _, _) => crypto.foldKey(pipeline.tenantId, pipeline.nonce)
  }

  /**
   * A submission gets past the first two stages if and only if it is well signed; it is of an unknown
   * tenant if and only if it is readable and its tenant is not registered; everything else is badly signed.
   */
  lemma GateChecks(crypto: Crypto, g: Gate, sub: Submission, at: Readings)
    ensures var v := Judge(crypto, g, sub, at);
            (v.Ok? || v.RateLimited? || v.ReplayDetected? <==> WellSigned(crypto, g.registry, sub)) &&
            (v.UnknownTenant? <==> Unregistered(g.registry, sub)) &&
            (v.BadSignature? <==> !WellSigned(crypto, g.registry, sub) && !Unregistered(g.registry, sub))
  {
    hide Spend, Guard.Decide;
  }

  /** The registry in force after the events: the one last loaded. */
  function RegistryAfter(registry: Registry, events: seq<Event>): Registry {
    if events == [] then registry
    else if events[|events| - 1].Reload? then events[|events| - 1].registry
    else RegistryAfter(registry, events[..|events| - 1])
  }

  lemma {:induction false} RunSnoc(crypto: Crypto, g: Gate, events: seq<Event>, e: Event)
    ensures Run(crypto, g, events + [e]) == Next(crypto, Run(crypto, g, events), e)
    decreases |events|
  {
    if events == [] {
      assert (events + [e])[1..] == [];
    } else {
      hide Next;
      assert (events + [e])[1..] == events[1..] + [e];
      RunSnoc(crypto, Next(crypto, g, events[0]), events[1..], e);
    }
  }

  lemma {:induction false} RegistryIsLastLoaded(crypto: Crypto, g: Gate, events: seq<Event>)
    ensures Run(crypto, g, events).registry == RegistryAfter(g.registry, events)
  {
    if events == [] {
    } else {
      var front, e := events[..|events| - 1], events[|events| - 1];
      assert events == front + [e];
      hide Run, Spend;
      RegistryIsLastLoaded(crypto, g, front);
      RunSnoc(crypto, g, front, e);
    }
  }

  /** Every `Ok` of every run was signed under the key registered at that moment. */
  lemma OkIsSigned(crypto: Crypto, g: Gate, events: seq<Event>, sub: Submission, at: Readings)
    requires Judge(crypto, Run(crypto, g, events), sub, at).Ok?
    ensures WellSigned(crypto, RegistryAfter(g.registry, events), sub)
  {
    hide Judge, WellSigned, Run;
    RegistryIsLastLoaded(crypto, g, events);
    GateChecks(crypto, Run(crypto, g, events), sub, at);
  }

  /** Event `k` of the run passed the replay stage at time `t` with a payload that folds to the key. */
  ghost predicate PassedAt(crypto: Crypto, g: Gate, events: seq<Event>, k: nat, key: u64, t: u64) {
    k < |events| && events[k].Submit? && Passes(crypto, Run(crypto, g, events[..k]), events[k].sub, events[k].at) &&
    FoldOf(crypto, events[k].sub) == key && events[k].at.acceptAt == t
  }

  lemma PassedEarlier(crypto: Crypto, g: Gate, events: seq<Event>, e: Event, k: nat, key: u64, t: u64)
    requires PassedAt(crypto, g, events, k, key, t)
    ensures PassedAt(crypto, g, events + [e], k, key, t)
  {
    hide Passes, Run;
    assert (events + [e])[..k] == events[..k];
  }

  lemma NonceStep(crypto: Crypto, g: Gate, e: Event, key: u64)
    requires key in Next(crypto, g, e).nonces
    ensures var t := Next(crypto, g, e).nonces[key];
            (key in g.nonces && g.nonces[key] == t) ||
            (e.Submit? && Passes(crypto, g, e.sub, e.at) && FoldOf(crypto, e.sub) == key && e.at.acceptAt == t)
  {
    hide Spend;
  }

  /** Every recorded key was recorded by a submission of the run that folds to it. */
  lemma {:induction false} NonceHasOrigin(crypto: Crypto, g: Gate, events: seq<Event>, key: u64)
    requires g.nonces == map[] && key in Run(crypto, g, events).nonces
    ensures exists k :: PassedAt(crypto, g, events, k, key, Run(crypto, g, events).nonces[key])
  {
    if events == [] {
    } else {
      var front, e := events[..|events| - 1], events[|events| - 1];
      assert events == front + [e];
      RunSnoc(crypto, g, front, e);
      var mid, t := Run(crypto, g, front), Run(crypto, g, events).nonces[key];
      hide Run, Next, Passes, FoldOf;
      NonceStep(crypto, mid, e, key);
      if key in mid.nonces && mid.nonces[key] == t {
        NonceHasOrigin(crypto, g, front, key);
        var k :| PassedAt(crypto, g, front, k, key, t);
        PassedEarlier(crypto, g, front, e, k, key, t);
      } else {
        assert events[..|front|] == front;
        assert PassedAt(crypto, g, events, |front|, key, t);
      }
    }
  }

  /** No false alarm: a timely submission is called a replay only after one of the same folded payload passed. */
  lemma ReplayHasOrigin(crypto: Crypto, g: Gate, events: seq<Event>, sub: Submission, at: Readings)
    requires g.nonces == map[] && Judge(crypto, Run(crypto, g, events), sub, at).ReplayDetected?
    requires Guard.Age(at.acceptAt, at.stamp) <= Run(crypto, g, events).ttl
    ensures !sub.Malformed?
    ensures exists k, t :: PassedAt(crypto, g, events, k, FoldOf(crypto, sub), t) &&
                           SatSub(at.sweepAt, t) < Run(crypto, g, events).ttl
  {
    hide Run, Spend, PassedAt;
    var later := Run(crypto, g, events);
    var key := FoldOf(crypto, sub);
    assert key in later.nonces && SatSub(at.sweepAt, later.nonces[key]) < later.ttl;
    NonceHasOrigin(crypto, g, events, key);
  }

  // ---------------------------------------------------------------------
  // Tenant isolation

  predicate OwnedBy(e: Event, tenant: TenantId) {
    e.Reload? || (!e.sub.Malformed? && TenantOf(e.sub) == tenant)
  }

  /** The registry reloads and one tenant's submissions. */
  function Mine(events: seq<Event>, tenant: TenantId): seq<Event> {
    if events == [] then []
    else (if OwnedBy(events[0], tenant) then [events[0]] else []) + Mine(events[1..], tenant)
  }

  function MyVerdicts(crypto: Crypto, g: Gate, events: seq<Event>, tenant: TenantId): seq<Verdict>
    decreases |events|
  {
    if events == [] then []
    else (if events[0].Submit? && OwnedBy(events[0], tenant)
          then [Judge(crypto, g, events[0].sub, events[0].at)] else [])
         + MyVerdicts(crypto, Next(crypto, g, events[0]), events[1..], tenant)
  }

  /** `keys` holds the replay keys of the tenant's own submissions and of no other in the run. */
  ghost predicate KeysApart(crypto: Crypto, events: seq<Event>, tenant: TenantId, keys: set<u64>) {
    forall i :: 0 <= i < |events| ==> KeyApart(crypto, events[i], tenant, keys)
  }

  ghost predicate KeyApart(crypto: Crypto, e: Event, tenant: TenantId, keys: set<u64>) {
    e.Submit? && !e.sub.Malformed? ==> (KeyOf(crypto, e.sub) in keys <==> TenantOf(e.sub) == tenant)
  }

  /** Two nonce tables hold the same entries under `keys`. */
  ghost predicate SameKeys(keys: set<u64>, a: Guard.Nonces, b: Guard.Nonces) {
    forall k :: k in keys ==> (k in a <==> k in b) && (k in a ==> a[k] == b[k])
  }

  ghost predicate SameBucket(g: Gate, h: Gate, tenant: TenantId) {
    (tenant in g.buckets <==> tenant in h.buckets) &&
    (tenant in g.buckets ==> g.buckets[tenant] == h.buckets[tenant])
  }

  /** The part of two gates one tenant can observe from `t` on. */
  ghost predicate SameFor(keys: set<u64>, g: Gate, h: Gate, tenant: TenantId, t: u64) {
    g.registry == h.registry && g.ttl == h.ttl && SameBucket(g, h, tenant) &&
    SameKeys(keys, Guard.Sweep(g.nonces, g.ttl, t), Guard.Sweep(h.nonces, h.ttl, t))
  }

  lemma SameForLater(keys: set<u64>, g: Gate, h: Gate, tenant: TenantId, s: u64, t: u64)
    requires SameFor(keys, g, h, tenant, s) && s <= t
    ensures SameFor(keys, g, h, tenant, t)
  {
    Guard.SweepTwice(g.nonces, g.ttl, s, t);
    Guard.SweepTwice(h.nonces, h.ttl, s, t);
  }

  lemma GuardStep(keys: set<u64>, a: Guard.Nonces, b: Guard.Nonces, ttl: u64, c: Guard.Call, t: u64)
    requires SameKeys(keys, Guard.Sweep(a, ttl, c.sweepAt), Guard.Sweep(b, ttl, c.sweepAt))
    requires c.nonce in keys && c.sweepAt <= t
    ensures Guard.Decide(a, ttl, c) == Guard.Decide(b, ttl, c)
    ensures SameKeys(keys, Guard.Sweep(Guard.Next(a, ttl, c), ttl, t), Guard.Sweep(Guard.Next(b, ttl, c), ttl, t))
  {
  }

  lemma ForeignGuardStep(keys: set<u64>, a: Guard.Nonces, b: Guard.Nonces, ttl: u64, c: Guard.Call, t: u64)
    requires SameKeys(keys, Guard.Sweep(a, ttl, t), Guard.Sweep(b, ttl, t))
    requires c.nonce !in keys && c.sweepAt <= t
    ensures SameKeys(keys, Guard.Sweep(Guard.Next(a, ttl, c), ttl, t), Guard.Sweep(b, ttl, t))
  {
  }

  lemma ScreenFinds(crypto: Crypto, registry: Registry, sub: Submission)
    requires Screen(crypto, registry, sub).Ok?
    ensures !sub.Malformed? && TenantOf(sub) in registry
  {
  }

  lemma OwnStep(crypto: Crypto, keys: set<u64>, g: Gate, h: Gate, tenant: TenantId, t: u64, e: Event)
    requires SameFor(keys, g, h, tenant, t) && OwnedBy(e, tenant) && KeyApart(crypto, e, tenant, keys)
    requires e.Submit? ==> Ordered(t, e.at)
    ensures e.Submit? ==> Judge(crypto, g, e.sub, e.at) == Judge(crypto, h, e.sub, e.at)
    ensures SameFor(keys, Next(crypto, g, e), Next(crypto, h, e), tenant, TimeAfter(t, e))
  {
    hide Limit.Consume, Guard.Decide, Guard.Next, Guard.Sweep, SameKeys, Screen;
    if e.Submit? && Screen(crypto, g.registry, e.sub).Ok? {
      assert TenantOf(e.sub) in g.registry by {
        ScreenFinds(crypto, g.registry, e.sub);
      }
      SameForLater(keys, g, h, tenant, t, e.at.sweepAt);
      GuardStep(keys, g.nonces, h.nonces, g.ttl, GuardCall(crypto, e.sub, e.at), e.at.bucketAt);
    } else {
      SameForLater(keys, g, h, tenant, t, TimeAfter(t, e));
    }
  }

  lemma OtherStep(crypto: Crypto, keys: set<u64>, g: Gate, h: Gate, tenant: TenantId, t: u64, e: Event)
    requires SameFor(keys, g, h, tenant, t) && !OwnedBy(e, tenant) && KeyApart(crypto, e, tenant, keys)
    requires Ordered(t, e.at)
    ensures SameFor(keys, Next(crypto, g, e), h, tenant, TimeAfter(t, e))
  {
    SameForLater(keys, g, h, tenant, t, e.at.bucketAt);
    if Screen(crypto, g.registry, e.sub).Ok? {
      hide Limit.Consume, Guard.Decide, Guard.Next, Guard.Sweep, SameKeys, Screen;
      ForeignGuardStep(keys, g.nonces, h.nonces, g.ttl, GuardCall(crypto, e.sub, e.at), e.at.bucketAt);
    }
  }

  /** Deleting every other tenant's traffic changes no verdict of this one. */
  lemma {:induction false} TenantIsolation(
    crypto: Crypto, keys: set<u64>, g: Gate, h: Gate, tenant: TenantId, t: u64, events: seq<Event>)
    requires SameFor(keys, g, h, tenant, t) && Timed(t, events) && KeysApart(crypto, events, tenant, keys)
    ensures MyVerdicts(crypto, g, events, tenant) == MyVerdicts(crypto, h, Mine(events, tenant), tenant)
    decreases |events|
  {
    if events == [] {
    } else {
      hide SameFor, Next, Judge, KeyApart;
      assert KeyApart(crypto, events[0], tenant, keys) && KeysApart(crypto, events[1..], tenant, keys);
      var e := events[0];
      var g', t' := Next(crypto, g, e), TimeAfter(t, e);
      if OwnedBy(e, tenant) {
        OwnStep(crypto, keys, g, h, tenant, t, e);
        TenantIsolation(crypto, keys, g', Next(crypto, h, e), tenant, t', events[1..]);
        assert Mine(events, tenant)[1..] == Mine(events[1..], tenant);
      } else {
        OtherStep(crypto, keys, g, h, tenant, t, e);
        TenantIsolation(crypto, keys, g', h, tenant, t', events[1..]);
        assert Mine(events, tenant) == Mine(events[1..], tenant);
      }
    }
  }

  // ---------------------------------------------------------------------
  // The gate over its mutable parts

  method VerifyAndAdmit(
    crypto: Crypto, sub: Submission, at: Readings, registry: Registry,
    limiter: Limit.RateLimiter, guard: Guard.ReplayGuard) returns (v: Verdict)
    modifies limiter, guard
    ensures var g := Gate(registry, old(limiter.buckets), old(guard.accepted), guard.ttl);
            v == Judge(crypto, g, sub, at) &&
            Gate(registry, limiter.buckets, guard.accepted, guard.ttl) == Admit(crypto, g, sub, at)
    ensures v.Ok? || v.RateLimited? || v.ReplayDetected? <==> WellSigned(crypto, registry, sub)
    ensures v.UnknownTenant? <==> Unregistered(registry, sub)
  {
    hide WellSigned, Unregistered;
    GateChecks(crypto, Gate(registry, limiter.buckets, guard.accepted, guard.ttl), sub, at);
    if sub.Malformed? {
      return BadSignature;
    }
    if TenantOf(sub) !in registry {
      return UnknownTenant;
    }
    var tenant := registry[TenantOf(sub)];
    if crypto.fingerprint(sub.pubkey) != tenant.signingFp {
      return BadSignature;
    }
    var bytes := SignedBytes(crypto, sub);
    if bytes.None? || !crypto.verifies(sub.pubkey, bytes.value, sub.signature) {
      return BadSignature;
    }
    hide Limit.Accept, Guard.Decide, Guard.Next;
    var decision := guard.Accept(GuardCall(crypto, sub, at));
    if !decision.Accepted? {
      return ReplayDetected;
    }
    var ok := limiter.AcceptWithConfig(
      TenantOf(sub), 1, tenant.rateCapacity, tenant.rateRefillPerSec, at.bucketAt);
    if !ok {
      return RateLimited;
    }
    return Ok;
  }
}
