/** Slashing of runners that diverge from consensus (crates/cosaci-state/src/stake_ledger.rs). */
module StakeLedger {
  import opened Machine
  import opened Quorum
  import opened MerkleLog
  import opened Attestation

  /** The slash fraction, an exact rational in place of the source's floating point. */
  datatype Fraction = Fraction(num: int, den: nat)

  predicate Proper(f: Fraction) {
    f.den > 0
  }

  /** Numerator after clamping the fraction to [0, 1]. */
  function Clamped(f: Fraction): (n: nat)
    requires Proper(f)
    ensures n <= f.den
  {
    if f.num < 0 then 0 else if f.num > f.den then f.den else f.num
  }

  /** Rounded-down share of a stake. */
  function Share(stake: Weight, f: Fraction): (amount: Weight)
    requires Proper(f)
    ensures amount <= stake
  {
    ShareWithin(stake, Clamped(f), f.den);
    stake * Clamped(f) / f.den
  }

  lemma ShareWithin(stake: nat, num: nat, den: nat)
    requires num <= den && den > 0
    ensures 0 <= stake * num / den <= stake
  {
    var product := stake * num;
    assert product <= stake * den by {
      MulMonotone(stake, num, den);
    }
    QuotientBelow(product, den, stake);
  }

  lemma QuotientBelow(n: nat, den: nat, bound: nat)
    requires den > 0 && n <= bound * den
    ensures 0 <= n / den <= bound
  {
    var q := n / den;
    assert den * q <= n;
    if q > bound {
      MulMonotone(den, bound + 1, q);
    }
  }

  /** Nothing for a fraction of zero or less, everything from one on, and in between the exact floor. */
  predicate IsFloor(amount: nat, stake: nat, f: Fraction) {
    if f.num <= 0 then amount == 0
    else if f.num >= f.den then amount == stake
    else amount * f.den <= stake * f.num < (amount + 1) * f.den
  }

  lemma ShareIsFloor(stake: Weight, f: Fraction)
    requires Proper(f)
    ensures IsFloor(Share(stake, f), stake, f)
  {
    var n := Clamped(f);
    var product := stake * n;
    FloorOf(product, f.den);
    if f.num >= f.den {
      assert product == stake * f.den;
      QuotientIs(stake, f.den);
    }
  }

  lemma FloorOf(n: nat, den: nat)
    requires den > 0
    ensures (n / den) * den <= n < (n / den + 1) * den
  {
  }

  lemma QuotientIs(q: nat, den: nat)
    requires den > 0
    ensures (q * den) / den == q
  {
    var r := (q * den) / den;
    FloorOf(q * den, den);
    if r < q {
      MulMonotone(den, r + 1, q);
    } else if r > q {
      MulMonotone(den, q + 1, r);
    }
  }

  datatype SlashEvent = SlashEvent(runner: RunnerId, before: Weight, after: Weight, slashed: Weight)

  /** The event one attestation causes, if any. */
  function EventOf(stakes: StakeMap, consensus: Hash, att: Attestation, f: Fraction): Option<SlashEvent>
    requires Proper(f)
  {
    if att.artifact == consensus || att.runner !in stakes || Share(stakes[att.runner], f) == 0 then None
    else
      var before := stakes[att.runner];
      var after := SatSub(before, Share(before, f));
      Some(SlashEvent(att.runner, before, after, before - after))
  }

  function Apply(stakes: StakeMap, e: Option<SlashEvent>): StakeMap {
    if e.Some? then stakes[e.value.runner := e.value.after] else stakes
  }

  function StakesAfter(stakes: StakeMap, consensus: Hash, atts: seq<Attestation>, f: Fraction): StakeMap
    requires Proper(f)
  {
    if atts == [] then stakes
    else
      var n := |atts| - 1;
      var mid := StakesAfter(stakes, consensus, atts[..n], f);
      Apply(mid, EventOf(mid, consensus, atts[n], f))
  }

  function EventsOf(stakes: StakeMap, consensus: Hash, atts: seq<Attestation>, f: Fraction): seq<SlashEvent>
    requires Proper(f)
  {
    if atts == [] then []
    else
      var n := |atts| - 1;
      var e := EventOf(StakesAfter(stakes, consensus, atts[..n], f), consensus, atts[n], f);
      EventsOf(stakes, consensus, atts[..n], f) + (if e.Some? then [e.value] else [])
  }

  /** The share of this stake comes to a whole unit. */
  predicate Chargeable(stake: Weight, f: Fraction) {
    stake > 0 && f.num > 0 && (f.num >= f.den || stake * f.num >= f.den)
  }

  lemma ChargedIff(stake: Weight, f: Fraction)
    requires Proper(f)
    ensures Share(stake, f) > 0 <==> Chargeable(stake, f)
  {
    hide Share;
    ShareIsFloor(stake, f);
    var s := Share(stake, f);
    if s > 0 {
      MulMonotone(f.den, 1, s);
    }
  }

  /** What a reported slash says: a positive whole share of the stake before, rounded down, is gone. */
  predicate FloorEvent(e: SlashEvent, f: Fraction) {
    e.slashed > 0 && e.after == e.before - e.slashed && IsFloor(e.slashed, e.before, f)
  }

  /** An attestation is slashed exactly when it diverges, its runner is enrolled and the share is a unit or more. */
  lemma SlashedIff(stakes: StakeMap, consensus: Hash, att: Attestation, f: Fraction)
    requires Proper(f)
    ensures var e := EventOf(stakes, consensus, att, f);
            (e.Some? <==>
              att.artifact != consensus && att.runner in stakes && Chargeable(stakes[att.runner], f)) &&
            (e.Some? ==> e.value.runner == att.runner && e.value.before == stakes[att.runner] && FloorEvent(e.value, f))
  {
    hide Share, IsFloor, Chargeable;
    if att.runner in stakes {
      ShareIsFloor(stakes[att.runner], f);
      ChargedIff(stakes[att.runner], f);
    }
  }

  lemma {:induction false} EventsAreFloors(stakes: StakeMap, consensus: Hash, atts: seq<Attestation>, f: Fraction)
    requires Proper(f)
    ensures forall i :: 0 <= i < |EventsOf(stakes, consensus, atts, f)| ==>
              FloorEvent(EventsOf(stakes, consensus, atts, f)[i], f)
  {
    if atts == [] {
    } else {
      hide EventOf, FloorEvent, StakesAfter;
      var n := |atts| - 1;
      EventsAreFloors(stakes, consensus, atts[..n], f);
      SlashedIff(StakesAfter(stakes, consensus, atts[..n], f), consensus, atts[n], f);
    }
  }

  function Slashed(events: seq<SlashEvent>): nat {
    if events == [] then 0 else Slashed(events[..|events| - 1]) + events[|events| - 1].slashed
  }

  // ---------------------------------------------------------------------
  // One runner's stake under repeated slashing

  function SlashOnce(stake: Weight, f: Fraction): Weight
    requires Proper(f)
  {
    stake - Share(stake, f)
  }

  function SlashTimes(stake: Weight, f: Fraction, n: nat): Weight
    requires Proper(f)
  {
    if n == 0 then stake else SlashOnce(SlashTimes(stake, f, n - 1), f)
  }

  lemma {:induction false} SlashTimesAdds(stake: Weight, f: Fraction, a: nat, b: nat)
    requires Proper(f)
    ensures SlashTimes(stake, f, a + b) == SlashTimes(SlashTimes(stake, f, a), f, b)
    decreases b
  {
    if b == 0 {
    } else {
      SlashTimesAdds(stake, f, a, b - 1);
    }
  }

  /** Stake never rises, and below a full slash it never reaches zero. */
  lemma {:induction false} SlashTimesBounds(stake: Weight, f: Fraction, n: nat)
    requires Proper(f)
    ensures SlashTimes(stake, f, n) <= stake
    ensures stake > 0 && f.num < f.den ==> SlashTimes(stake, f, n) > 0
  {
    if n == 0 {
    } else {
      SlashTimesBounds(stake, f, n - 1);
      if stake > 0 && f.num < f.den {
        PartialShare(SlashTimes(stake, f, n - 1), f);
      }
    }
  }

  lemma PartialShare(stake: Weight, f: Fraction)
    requires Proper(f) && stake > 0 && f.num < f.den
    ensures Share(stake, f) < stake
  {
    var n, q := Clamped(f), Share(stake, f);
    ProductBelow(stake, n, f.den);
    assert q * f.den <= stake * n;
    if q == stake {
      assert false;
    }
  }

  lemma ProductBelow(a: nat, b: nat, c: nat)
    requires a > 0 && b < c
    ensures a * b < a * c
  {
  }

  function Pow(b: nat, n: nat): nat {
    if n == 0 then 1 else b * Pow(b, n - 1)
  }

  /** One slash leaves the kept part of the stake, rounded up. */
  lemma OneSlash(stake: Weight, f: Fraction)
    requires 0 <= f.num < f.den
    ensures var kept, left := f.den - f.num, SlashOnce(stake, f);
            stake * kept <= left * f.den < stake * kept + f.den
  {
    var s := Share(stake, f);
    assert s * f.den <= stake * f.num < (s + 1) * f.den by {
      ShareIsFloor(stake, f);
    }
    assert (s + 1) * f.den == s * f.den + f.den;
    assert (stake - s) * f.den == stake * f.den - s * f.den;
    assert stake * (f.den - f.num) == stake * f.den - stake * f.num;
  }

  /**
   * After `n` slashes by a fraction below one the stake is within `n` units of `stake * (1 - fraction)^n`,
   * and never below it.
   */
  lemma {:induction false} SlashTimesClosed(stake: Weight, f: Fraction, n: nat)
    requires 0 <= f.num < f.den
    ensures var kept, left := f.den - f.num, SlashTimes(stake, f, n);
            stake * Pow(kept, n) <= left * Pow(f.den, n) <= stake * Pow(kept, n) + n * Pow(f.den, n)
  {
    if n == 0 {
    } else {
      var kept, den := f.den - f.num, f.den;
      SlashTimesClosed(stake, f, n - 1);
      var r := SlashTimes(stake, f, n - 1);
      OneSlash(r, f);
      hide Share;
      ClosedStep(stake, kept, den, n - 1, r, SlashOnce(r, f), Pow(kept, n - 1), Pow(den, n - 1));
    }
  }

  lemma ClosedStep(stake: nat, kept: nat, den: nat, m: nat, r: nat, left: nat, k: nat, d: nat)
    requires kept <= den && stake * k <= r * d <= stake * k + m * d
    requires r * kept <= left * den <= r * kept + den
    ensures stake * (kept * k) <= left * (den * d) <= stake * (kept * k) + (m + 1) * (den * d)
  {
    Regroup(left, den, d);
    Regroup(kept, stake, k);
    Regroup(kept, r, d);
    ClosedBelow(kept, den, r, left, d, stake * k);
    ClosedAbove(kept, den, m, r, left, d, stake * k);
  }

  lemma Regroup(a: nat, b: nat, c: nat)
    ensures a * (b * c) == (a * b) * c == b * (a * c)
  {
  }

  lemma ClosedBelow(kept: nat, den: nat, r: nat, left: nat, d: nat, base: nat)
    requires base <= r * d && r * kept <= left * den
    ensures kept * base <= (left * den) * d
  {
    MulMonotone(kept, base, r * d);
    Regroup(kept, r, d);
    MulMonotone(d, r * kept, left * den);
  }

  lemma ClosedAbove(kept: nat, den: nat, m: nat, r: nat, left: nat, d: nat, base: nat)
    requires kept <= den && r * d <= base + m * d && left * den <= r * kept + den
    ensures (left * den) * d <= kept * base + (m + 1) * (den * d)
  {
    MulMonotone(d, left * den, r * kept + den);
    Spread(d, r * kept, den);
    Regroup(kept, r, d);
    MulMonotone(kept, r * d, base + m * d);
    Spread(kept, base, m * d);
    MulMonotone(m * d, kept, den);
    Regroup(den, m, d);
    Spread(den * d, m, 1);
  }

  lemma Spread(a: nat, b: nat, c: nat)
    ensures a * (b + c) == a * b + a * c
  {
  }

  /** A fraction of one or more takes everything, whatever the stake and however often. */
  lemma {:induction false} FullSlash(stake: Weight, f: Fraction, n: nat)
    requires Proper(f) && f.num >= f.den && n > 0
    ensures SlashTimes(stake, f, n) == 0
  {
    hide Share;
    if n == 1 {
      ShareIsFloor(SlashTimes(stake, f, 0), f);
    } else {
      FullSlash(stake, f, n - 1);
      ShareIsFloor(0, f);
    }
  }

  /** A stake is a fixed point exactly when its share rounds down to nothing. */
  lemma FixedIff(stake: Weight, f: Fraction)
    requires Proper(f)
    ensures SlashOnce(stake, f) == stake <==> stake * Clamped(f) < f.den
  {
    var p := stake * Clamped(f);
    if p < f.den {
      assert p / f.den == 0;
    } else {
      assert p / f.den >= 1;
    }
  }

  /** After as many slashes as there is stake, further slashing changes nothing. */
  lemma {:induction false} SlashingSettles(stake: Weight, f: Fraction, n: nat)
    requires Proper(f) && n >= stake
    ensures SlashOnce(SlashTimes(stake, f, n), f) == SlashTimes(stake, f, n)
    decreases n
  {
    if Share(stake, f) == 0 {
      FixedStays(stake, f, n);
    } else {
      SlashTimesAdds(stake, f, 1, n - 1);
      assert SlashTimes(stake, f, 1) == SlashOnce(stake, f) by { assert SlashTimes(stake, f, 0) == stake; }
      SlashingSettles(SlashOnce(stake, f), f, n - 1);
    }
  }

  lemma {:induction false} FixedStays(stake: Weight, f: Fraction, n: nat)
    requires Proper(f) && Share(stake, f) == 0
    ensures SlashTimes(stake, f, n) == stake
  {
    if n == 0 {
    } else {
      FixedStays(stake, f, n - 1);
    }
  }

  // ---------------------------------------------------------------------
  // One job

  /** How often a runner diverges from the consensus. */
  function Divergences(consensus: Hash, atts: seq<Attestation>, r: RunnerId): nat {
    if atts == [] then 0
    else
      var last := atts[|atts| - 1];
      Divergences(consensus, atts[..|atts| - 1], r)
      + (if last.runner == r && last.artifact != consensus then 1 else 0)
  }

  predicate Diverges(consensus: Hash, atts: seq<Attestation>, r: RunnerId) {
    exists i :: 0 <= i < |atts| && atts[i].runner == r && atts[i].artifact != consensus
  }

  /** The places where a runner diverges. */
  function DivergingAt(consensus: Hash, atts: seq<Attestation>, r: RunnerId): set<nat> {
    set i: nat | i < |atts| && atts[i].runner == r && atts[i].artifact != consensus
  }

  lemma DivergingSnoc(consensus: Hash, atts: seq<Attestation>, a: Attestation, r: RunnerId)
    ensures DivergingAt(consensus, atts + [a], r) ==
            DivergingAt(consensus, atts, r) + (if a.runner == r && a.artifact != consensus then {|atts|} else {})
  {
  }

  lemma {:induction false} DivergencesCount(consensus: Hash, atts: seq<Attestation>, r: RunnerId)
    ensures Divergences(consensus, atts, r) == |DivergingAt(consensus, atts, r)|
  {
    if atts == [] {
      assert DivergingAt(consensus, atts, r) == {};
    } else {
      var n := |atts| - 1;
      assert |atts[..n]| !in DivergingAt(consensus, atts[..n], r);
      hide DivergingAt;
      DivergencesCount(consensus, atts[..n], r);
      DivergingSnoc(consensus, atts[..n], atts[n], r);
      assert atts == atts[..n] + [atts[n]];
    }
  }

  lemma DivergesIff(consensus: Hash, atts: seq<Attestation>, r: RunnerId)
    ensures Divergences(consensus, atts, r) > 0 <==> Diverges(consensus, atts, r)
  {
    hide Divergences;
    DivergencesCount(consensus, atts, r);
    var all := DivergingAt(consensus, atts, r);
    if Diverges(consensus, atts, r) {
      var i :| 0 <= i < |atts| && atts[i].runner == r && atts[i].artifact != consensus;
      assert i in all;
    } else {
      assert all == {};
    }
  }

  lemma SlashLowersIff(stake: Weight, f: Fraction, n: nat)
    requires Proper(f)
    ensures SlashTimes(stake, f, n) < stake <==> n > 0 && Chargeable(stake, f)
  {
    hide Share, SlashTimes, Chargeable;
    ChargedIff(stake, f);
    if Share(stake, f) == 0 {
      FixedStays(stake, f, n);
    } else if n > 0 {
      SlashTimesAdds(stake, f, 1, n - 1);
      SlashTimesBounds(SlashTimes(stake, f, 1), f, n - 1);
      FirstSlash(stake, f);
    } else {
      NoSlash(stake, f);
    }
  }

  lemma NoSlash(stake: Weight, f: Fraction)
    requires Proper(f)
    ensures SlashTimes(stake, f, 0) == stake
  {
  }

  lemma FirstSlash(stake: Weight, f: Fraction)
    requires Proper(f) && Share(stake, f) > 0
    ensures SlashTimes(stake, f, 1) < stake
  {
    assert SlashTimes(stake, f, 0) == stake;
  }

  /** A job lowers a runner's stake exactly when the runner diverged in it and its share is a unit or more. */
  lemma JobLowersIff(stakes: StakeMap, consensus: Hash, atts: seq<Attestation>, f: Fraction, r: RunnerId)
    requires Proper(f) && r in stakes
    ensures var after := StakesAfter(stakes, consensus, atts, f);
            r in after && after[r] <= stakes[r] &&
            (after[r] < stakes[r] <==> Diverges(consensus, atts, r) && Chargeable(stakes[r], f))
  {
    hide StakesAfter, SlashTimes, Diverges, Chargeable, Divergences;
    StakeOfRunner(stakes, consensus, atts, f, r);
    DivergesIff(consensus, atts, r);
    SlashLowersIff(stakes[r], f, Divergences(consensus, atts, r));
    SlashTimesBounds(stakes[r], f, Divergences(consensus, atts, r));
  }

  /** Each runner's stake depends on its own divergences alone; the set of runners is fixed. */
  lemma {:induction false} StakeOfRunner(stakes: StakeMap, consensus: Hash, atts: seq<Attestation>, f: Fraction, r: RunnerId)
    requires Proper(f)
    ensures var after := StakesAfter(stakes, consensus, atts, f);
            (r in after <==> r in stakes) &&
            (r in stakes ==> after[r] == SlashTimes(stakes[r], f, Divergences(consensus, atts, r)))
  {
    if atts == [] {
    } else {
      StakeOfRunner(stakes, consensus, atts[..|atts| - 1], f, r);
    }
  }

  lemma {:induction false} SumAgrees(ids: set<RunnerId>, a: StakeMap, b: StakeMap)
    requires forall r :: r in ids ==> StakeOf(a, r) == StakeOf(b, r)
    ensures SumStake(ids, a) == SumStake(ids, b)
    decreases |ids|
  {
    if ids == {} {
    } else {
      var r :| r in ids;
      SumPick(ids, r, a);
      SumPick(ids, r, b);
      SumAgrees(ids - {r}, a, b);
    }
  }

  lemma ApplyConserves(stakes: StakeMap, consensus: Hash, att: Attestation, f: Fraction)
    requires Proper(f)
    ensures var e := EventOf(stakes, consensus, att, f);
            TotalStake(Apply(stakes, e)) + (if e.Some? then e.value.slashed else 0) == TotalStake(stakes)
  {
    var e := EventOf(stakes, consensus, att, f);
    if e.Some? {
      hide SumStake;
      var after, r := Apply(stakes, e), att.runner;
      assert after.Keys == stakes.Keys;
      SumPick(stakes.Keys, r, stakes);
      SumPick(stakes.Keys, r, after);
      SumAgrees(stakes.Keys - {r}, stakes, after);
    }
  }

  /** Conservation: the stake that disappears is exactly the sum of the reported slashes. */
  lemma {:induction false} JobConserves(stakes: StakeMap, consensus: Hash, atts: seq<Attestation>, f: Fraction)
    requires Proper(f)
    ensures TotalStake(StakesAfter(stakes, consensus, atts, f)) + Slashed(EventsOf(stakes, consensus, atts, f)) ==
            TotalStake(stakes)
  {
    if atts == [] {
    } else {
      var n := |atts| - 1;
      var mid := StakesAfter(stakes, consensus, atts[..n], f);
      JobConserves(stakes, consensus, atts[..n], f);
      ApplyConserves(mid, consensus, atts[n], f);
      var e := EventOf(mid, consensus, atts[n], f);
      var events := EventsOf(stakes, consensus, atts[..n], f);
      if e.Some? {
        assert (events + [e.value])[..|events|] == events;
      } else {
        assert events + [] == events;
      }
    }
  }

  // ---------------------------------------------------------------------
  // Any sequence of jobs

  /** A job whose outcome was definitive: its consensus artifact and attestations. */
  datatype SlashingJob = SlashingJob(consensus: Hash, atts: seq<Attestation>)

  function LedgerAfter(stakes: StakeMap, jobs: seq<SlashingJob>, f: Fraction): StakeMap
    requires Proper(f)
  {
    if jobs == [] then stakes
    else
      var n := |jobs| - 1;
      StakesAfter(LedgerAfter(stakes, jobs[..n], f), jobs[n].consensus, jobs[n].atts, f)
  }

  function SlashedOver(stakes: StakeMap, jobs: seq<SlashingJob>, f: Fraction): nat
    requires Proper(f)
  {
    if jobs == [] then 0
    else
      var n := |jobs| - 1;
      SlashedOver(stakes, jobs[..n], f)
      + Slashed(EventsOf(LedgerAfter(stakes, jobs[..n], f), jobs[n].consensus, jobs[n].atts, f))
  }

  function DivergencesOver(jobs: seq<SlashingJob>, r: RunnerId): nat {
    if jobs == [] then 0
    else
      var n := |jobs| - 1;
      DivergencesOver(jobs[..n], r) + Divergences(jobs[n].consensus, jobs[n].atts, r)
  }

  /** Over any jobs the runner set is fixed and each stake is its own, slashed once per divergence. */
  lemma {:induction false} LedgerOverJobs(stakes: StakeMap, jobs: seq<SlashingJob>, f: Fraction, r: RunnerId)
    requires Proper(f)
    ensures var after := LedgerAfter(stakes, jobs, f);
            (r in after <==> r in stakes) &&
            (r in stakes ==> after[r] == SlashTimes(stakes[r], f, DivergencesOver(jobs, r)))
  {
    if jobs == [] {
    } else {
      var n := |jobs| - 1;
      LedgerOverJobs(stakes, jobs[..n], f, r);
      StakeOfRunner(LedgerAfter(stakes, jobs[..n], f), jobs[n].consensus, jobs[n].atts, f, r);
      if r in stakes {
        SlashTimesAdds(stakes[r], f, DivergencesOver(jobs[..n], r), Divergences(jobs[n].consensus, jobs[n].atts, r));
      }
    }
  }

  /**
   * So over any jobs a runner that diverged `n` times keeps `((den - num) / den)^n` of its stake, up
   * to one unit a divergence; a full slash leaves it nothing.
   */
  lemma LedgerWithin(stakes: StakeMap, jobs: seq<SlashingJob>, f: Fraction, r: RunnerId)
    requires Proper(f) && r in stakes
    ensures r in LedgerAfter(stakes, jobs, f)
    ensures var n, left := DivergencesOver(jobs, r), LedgerAfter(stakes, jobs, f)[r];
            if f.num >= f.den then left == if n == 0 then stakes[r] else 0
            else if f.num <= 0 then left == stakes[r]
            else
              var kept := Pow(f.den - f.num, n);
              stakes[r] * kept <= left * Pow(f.den, n) <= stakes[r] * kept + n * Pow(f.den, n)
  {
    hide LedgerAfter, DivergencesOver, Pow;
    LedgerOverJobs(stakes, jobs, f, r);
    var n := DivergencesOver(jobs, r);
    if f.num >= f.den {
      if n > 0 {
        FullSlash(stakes[r], f, n);
      }
    } else if f.num <= 0 {
      SlashLowersIff(stakes[r], f, n);
      SlashTimesBounds(stakes[r], f, n);
    } else {
      SlashTimesClosed(stakes[r], f, n);
    }
  }

  lemma {:induction false} LedgerConserves(stakes: StakeMap, jobs: seq<SlashingJob>, f: Fraction)
    requires Proper(f)
    ensures TotalStake(LedgerAfter(stakes, jobs, f)) + SlashedOver(stakes, jobs, f) == TotalStake(stakes)
  {
    if jobs == [] {
    } else {
      var n := |jobs| - 1;
      LedgerConserves(stakes, jobs[..n], f);
      JobConserves(LedgerAfter(stakes, jobs[..n], f), jobs[n].consensus, jobs[n].atts, f);
    }
  }

  predicate Faithful(jobs: seq<SlashingJob>, r: RunnerId) {
    forall i, a :: 0 <= i < |jobs| && a in jobs[i].atts && a.runner == r ==> a.artifact == jobs[i].consensus
  }

  lemma {:induction false} NoDivergence(consensus: Hash, atts: seq<Attestation>, r: RunnerId)
    requires forall a :: a in atts && a.runner == r ==> a.artifact == consensus
    ensures Divergences(consensus, atts, r) == 0
  {
    if atts == [] {
    } else {
      NoDivergence(consensus, atts[..|atts| - 1], r);
    }
  }

  lemma {:induction false} FaithfulNeverDiverges(jobs: seq<SlashingJob>, r: RunnerId)
    requires Faithful(jobs, r)
    ensures DivergencesOver(jobs, r) == 0
  {
    if jobs == [] {
    } else {
      var n := |jobs| - 1;
      FaithfulNeverDiverges(jobs[..n], r);
      NoDivergence(jobs[n].consensus, jobs[n].atts, r);
    }
  }

  /**
   * Over any jobs: no stake rises, a positive stake stays positive under a fraction below one, and
   * a runner whose attestations always match the consensus keeps its full stake.
   */
  lemma SlashingIsFair(stakes: StakeMap, jobs: seq<SlashingJob>, f: Fraction, r: RunnerId)
    requires Proper(f) && r in stakes
    ensures var after := LedgerAfter(stakes, jobs, f);
            r in after && after[r] <= stakes[r] &&
            (stakes[r] > 0 && f.num < f.den ==> after[r] > 0) &&
            (Faithful(jobs, r) ==> after[r] == stakes[r])
  {
    LedgerOverJobs(stakes, jobs, f, r);
    SlashTimesBounds(stakes[r], f, DivergencesOver(jobs, r));
    if Faithful(jobs, r) {
      FaithfulNeverDiverges(jobs, r);
    }
  }

  // ---------------------------------------------------------------------
  // The mutable ledger

  class Ledger {
    var stakes: StakeMap

    constructor (stakes: StakeMap)
      ensures this.stakes == stakes
    {
      this.stakes := stakes;
    }

    method Slash(runner: RunnerId, amount: Weight) returns (e: SlashEvent)
      modifies this
      ensures var before := StakeOf(old(stakes), runner);
              e == SlashEvent(runner, before, SatSub(before, amount), before - SatSub(before, amount))
      ensures stakes == old(stakes)[runner := e.after]
    {
      var before := StakeOf(stakes, runner);
      var after := SatSub(before, amount);
      stakes := stakes[runner := after];
      e := SlashEvent(runner, before, after, before - after);
    }

    method SlashMinority(consensus: Hash, atts: seq<Attestation>, f: Fraction) returns (events: seq<SlashEvent>)
      requires Proper(f)
      modifies this
      ensures stakes == StakesAfter(old(stakes), consensus, atts, f)
      ensures events == EventsOf(old(stakes), consensus, atts, f)
      ensures forall i :: 0 <= i < |events| ==> FloorEvent(events[i], f)
    {
      EventsAreFloors(stakes, consensus, atts, f);
      hide FloorEvent;
      events := [];
      for i := 0 to |atts|
        invariant stakes == StakesAfter(old(stakes), consensus, atts[..i], f)
        invariant events == EventsOf(old(stakes), consensus, atts[..i], f)
      {
        hide Share;
        assert atts[..i + 1][..i] == atts[..i];
        var att := atts[i];
        if att.artifact != consensus && att.runner in stakes {
          var amount := Share(StakeOf(stakes, att.runner), f);
          if amount != 0 {
            var e := Slash(att.runner, amount);
            events := events + [e];
          }
        }
      }
      assert atts[..|atts|] == atts;
    }
  }
}
