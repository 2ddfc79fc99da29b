/** Nonce replay window (crates/cosaci-state/src/replay.rs). */
module Replay {
  import opened Machine

  type Nonces = map<u64, u64>

  datatype Decision = Accepted | StaleTimestamp | Replayed

  /** Nonces accepted less than `ttl` ago. */
  function Sweep(accepted: Nonces, ttl: u64, now: u64): Nonces {
    map k | k in accepted && SatSub(now, accepted[k]) < ttl :: accepted[k]
  }

  function Age(now: u64, stamp: u64): u64 {
    if now >= stamp then now - stamp else stamp - now
  }

  /** One submission with the two clock readings `accept` takes. */
  datatype Call = Call(nonce: u64, stamp: u64, sweepAt: u64, now: u64)

  function Decide(accepted: Nonces, ttl: u64, c: Call): Decision {
    if Age(c.now, c.stamp) > ttl then StaleTimestamp
    else if c.nonce in Sweep(accepted, ttl, c.sweepAt) then Replayed
    else Accepted
  }

  function Next(accepted: Nonces, ttl: u64, c: Call): Nonces {
    var swept := Sweep(accepted, ttl, c.sweepAt);
    if Decide(accepted, ttl, c).Accepted? then swept[c.nonce := c.now] else swept
  }

  lemma SweepTwice(accepted: Nonces, ttl: u64, s: u64, t: u64)
    requires s <= t
    ensures Sweep(Sweep(accepted, ttl, s), ttl, t) == Sweep(accepted, ttl, t)
  {
  }

  ghost predicate Timed(from: u64, calls: seq<Call>)
    decreases |calls|
  {
    calls == [] || (from <= calls[0].sweepAt <= calls[0].now && Timed(calls[0].now, calls[1..]))
  }

  function Run(accepted: Nonces, ttl: u64, calls: seq<Call>): Nonces
    decreases |calls|
  {
    if calls == [] then accepted else Run(Next(accepted, ttl, calls[0]), ttl, calls[1..])
  }

  datatype Acceptance = Acceptance(nonce: u64, at: u64)

  /** Every acceptance of the run so far, oldest first; never swept. */
  function History(accepted: Nonces, ttl: u64, past: seq<Acceptance>, calls: seq<Call>): seq<Acceptance>
    decreases |calls|
  {
    if calls == [] then past
    else
      var c := calls[0];
      History(Next(accepted, ttl, c), ttl,
              if Decide(accepted, ttl, c).Accepted? then past + [Acceptance(c.nonce, c.now)] else past,
              calls[1..])
  }

  /** The table is the history, up to entries that any sweep from `t` on drops. */
  ghost predicate Mirrors(accepted: Nonces, ttl: u64, past: seq<Acceptance>, t: u64) {
    (forall e :: e in past ==> e.at <= t) &&
    (forall k :: k in accepted ==> Acceptance(k, accepted[k]) in past) &&
    (forall e :: e in past && t - e.at < ttl ==> e.nonce in accepted && accepted[e.nonce] == e.at)
  }

  /** Acceptances of one nonce are at least `ttl` apart. */
  ghost predicate Spaced(past: seq<Acceptance>, ttl: u64) {
    forall i, j :: 0 <= i < j < |past| && past[i].nonce == past[j].nonce ==> past[i].at + ttl <= past[j].at
  }

  lemma StepMirrors(accepted: Nonces, ttl: u64, past: seq<Acceptance>, t: u64, c: Call)
    requires Mirrors(accepted, ttl, past, t) && t <= c.sweepAt <= c.now
    ensures var past' := if Decide(accepted, ttl, c).Accepted? then past + [Acceptance(c.nonce, c.now)] else past;
            Mirrors(Next(accepted, ttl, c), ttl, past', c.now) && (Spaced(past, ttl) ==> Spaced(past', ttl))
  {
    if Decide(accepted, ttl, c).Accepted? {
      AcceptedIsLate(accepted, ttl, past, t, c);
      hide Mirrors, Sweep;
      if Spaced(past, ttl) {
        SpacedStep(past, ttl, c);
      }
    }
    MirrorsStep(accepted, ttl, past, t, c);
  }

  /** Every earlier acceptance of an accepted nonce is a full `ttl` old. */
  lemma AcceptedIsLate(accepted: Nonces, ttl: u64, past: seq<Acceptance>, t: u64, c: Call)
    requires Mirrors(accepted, ttl, past, t) && t <= c.sweepAt <= c.now && Decide(accepted, ttl, c).Accepted?
    ensures forall e :: e in past && e.nonce == c.nonce ==> e.at + ttl <= c.now
  {
  }

  lemma SpacedStep(past: seq<Acceptance>, ttl: u64, c: Call)
    requires Spaced(past, ttl) && forall e :: e in past && e.nonce == c.nonce ==> e.at + ttl <= c.now
    ensures Spaced(past + [Acceptance(c.nonce, c.now)], ttl)
  {
    var all := past + [Acceptance(c.nonce, c.now)];
    forall i, j | 0 <= i < j < |all| && all[i].nonce == all[j].nonce ensures all[i].at + ttl <= all[j].at {
      if j == |past| {
        assert all[i] in past;
      }
    }
  }

  lemma MirrorsStep(accepted: Nonces, ttl: u64, past: seq<Acceptance>, t: u64, c: Call)
    requires Mirrors(accepted, ttl, past, t) && t <= c.sweepAt <= c.now
    ensures var past' := if Decide(accepted, ttl, c).Accepted? then past + [Acceptance(c.nonce, c.now)] else past;
            Mirrors(Next(accepted, ttl, c), ttl, past', c.now)
  {
    if Decide(accepted, ttl, c).Accepted? {
      AcceptedIsLate(accepted, ttl, past, t, c);
    }
  }

  /** In every run acceptances of one nonce are a full `ttl` apart and the table mirrors the history. */
  lemma {:induction false} RunMirrors(accepted: Nonces, ttl: u64, past: seq<Acceptance>, from: u64, calls: seq<Call>)
    requires Mirrors(accepted, ttl, past, from) && Spaced(past, ttl) && Timed(from, calls)
    ensures var t := if calls == [] then from else calls[|calls| - 1].now;
            Mirrors(Run(accepted, ttl, calls), ttl, History(accepted, ttl, past, calls), t) && from <= t
    ensures Spaced(History(accepted, ttl, past, calls), ttl)
    decreases |calls|
  {
    hide Mirrors, Spaced, Next, Decide;
    if calls == [] {
    } else {
      var c := calls[0];
      StepMirrors(accepted, ttl, past, from, c);
      var past' := if Decide(accepted, ttl, c).Accepted? then past + [Acceptance(c.nonce, c.now)] else past;
      RunMirrors(Next(accepted, ttl, c), ttl, past', c.now, calls[1..]);
    }
  }

  /** Swept at any later time, the table is the history filtered to the last `ttl`. */
  lemma SweptIsRecentHistory(accepted: Nonces, ttl: u64, past: seq<Acceptance>, t: u64, now: u64)
    requires Mirrors(accepted, ttl, past, t) && t <= now
    ensures forall k, at :: (k in Sweep(accepted, ttl, now) && accepted[k] == at) <==>
                            (Acceptance(k, at) in past && now - at < ttl)
  {
  }

  /**
   * The answer in terms of the history alone: refused as stale exactly when the timestamp is more
   * than `ttl` behind or ahead, as a replay exactly when it is timely and an acceptance of its nonce
   * is younger than `ttl`; one exactly `ttl` old does not block it.
   */
  lemma AcceptedIff(accepted: Nonces, ttl: u64, past: seq<Acceptance>, t: u64, c: Call)
    requires Mirrors(accepted, ttl, past, t) && t <= c.sweepAt <= c.now
    ensures Decide(accepted, ttl, c).StaleTimestamp? <==> c.stamp + ttl < c.now || c.now + ttl < c.stamp
    ensures Decide(accepted, ttl, c).Replayed? <==>
            c.stamp <= c.now + ttl && c.now <= c.stamp + ttl &&
            exists at :: Acceptance(c.nonce, at) in past && c.sweepAt - at < ttl
    ensures Decide(accepted, ttl, c).Accepted? <==>
            c.stamp <= c.now + ttl && c.now <= c.stamp + ttl &&
            forall at :: Acceptance(c.nonce, at) in past ==> c.sweepAt - at >= ttl
  {
    SweptIsRecentHistory(accepted, ttl, past, t, c.sweepAt);
  }

  lemma {:induction false} TimedSnoc(from: u64, calls: seq<Call>, c: Call)
    requires Timed(from, calls + [c])
    ensures Timed(from, calls)
    ensures (if calls == [] then from else calls[|calls| - 1].now) <= c.sweepAt <= c.now
    decreases |calls|
  {
    if calls == [] {
      assert (calls + [c])[0] == c;
    } else {
      assert (calls + [c])[1..] == calls[1..] + [c];
      TimedSnoc(calls[0].now, calls[1..], c);
    }
  }

  /** After any calls on a guard that starts empty, the next answer follows from the acceptances so far. */
  lemma RunDecides(ttl: u64, calls: seq<Call>, c: Call)
    requires Timed(0, calls + [c])
    ensures var past, d := History(map[], ttl, [], calls), Decide(Run(map[], ttl, calls), ttl, c);
            (d.StaleTimestamp? <==> c.stamp + ttl < c.now || c.now + ttl < c.stamp) &&
            (d.Replayed? <==>
              c.stamp <= c.now + ttl && c.now <= c.stamp + ttl &&
              exists at :: Acceptance(c.nonce, at) in past && c.sweepAt - at < ttl)
  {
    hide Decide, History, Run;
    TimedSnoc(0, calls, c);
    RunMirrors(map[], ttl, [], 0, calls);
    var t := if calls == [] then 0 else calls[|calls| - 1].now;
    AcceptedIff(Run(map[], ttl, calls), ttl, History(map[], ttl, [], calls), t, c);
  }

  class ReplayGuard {
    var accepted: Nonces
    const ttl: u64

    constructor (ttl: u64)
      ensures accepted == map[] && this.ttl == ttl
    {
      accepted := map[];
      this.ttl := ttl;
    }

    method Accept(c: Call) returns (d: Decision)
      modifies this
      ensures d == Decide(old(accepted), ttl, c)
      ensures accepted == Next(old(accepted), ttl, c)
    {
      accepted := Sweep(accepted, ttl, c.sweepAt);
      var age := Age(c.now, c.stamp);
      if age > ttl {
        return StaleTimestamp;
      }
      if c.nonce in accepted {
        return Replayed;
      }
      accepted := accepted[c.nonce := c.now];
      return Accepted;
    }
  }
}
