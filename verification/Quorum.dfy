/** Stake-weighted vote folding (crates/cosaci-core/src/quorum.rs). */
module Quorum {
  import opened Machine

  type RunnerId = u64
  type Weight = u64
  type StakeMap = map<RunnerId, Weight>

  datatype VoteResult = Passed | Failed
  datatype Vote = Vote(runner: RunnerId, result: VoteResult)
  datatype Outcome = Pass | Fail | Retry | Escalate

  predicate Decided(o: Outcome) {
    o.Pass? || o.Fail?
  }

  /** `stake.get(rid).copied().unwrap_or(0)` */
  function StakeOf(stake: StakeMap, r: RunnerId): Weight {
    if r in stake then stake[r] else 0
  }

  // ---------------------------------------------------------------------
  // Sums of stake over a set of runners

  ghost function SumStake(ids: set<RunnerId>, stake: StakeMap): nat {
    if ids == {} then 0
    else
      var r :| r in ids;
      StakeOf(stake, r) + SumStake(ids - {r}, stake)
  }

  lemma SumOfNone(stake: StakeMap)
    ensures SumStake({}, stake) == 0
  {
  }

  lemma {:induction false} SumPick(ids: set<RunnerId>, r: RunnerId, stake: StakeMap)
    requires r in ids
    ensures SumStake(ids, stake) == StakeOf(stake, r) + SumStake(ids - {r}, stake)
    decreases |ids|
  {
    var s :| s in ids && SumStake(ids, stake) == StakeOf(stake, s) + SumStake(ids - {s}, stake);
    if s != r {
      SumPick(ids - {s}, r, stake);
      SumPick(ids - {r}, s, stake);
      assert ids - {s} - {r} == ids - {r} - {s};
    }
  }

  lemma {:induction false} SumUnion(a: set<RunnerId>, b: set<RunnerId>, stake: StakeMap)
    requires a !! b
    ensures SumStake(a + b, stake) == SumStake(a, stake) + SumStake(b, stake)
    decreases |a|
  {
    if a == {} {
      assert a + b == b;
    } else {
      var r :| r in a;
      SumPick(a, r, stake);
      SumPick(a + b, r, stake);
      assert a + b - {r} == (a - {r}) + b;
      SumUnion(a - {r}, b, stake);
    }
  }

  lemma SumSubset(a: set<RunnerId>, b: set<RunnerId>, stake: StakeMap)
    requires a <= b
    ensures SumStake(a, stake) <= SumStake(b, stake)
  {
    assert b == a + (b - a);
    SumUnion(a, b - a, stake);
  }

  /** Runners outside the map add nothing. */
  lemma {:induction false} SumUnstaked(ids: set<RunnerId>, stake: StakeMap)
    ensures SumStake(ids, stake) == SumStake(ids * stake.Keys, stake)
    decreases |ids|
  {
    if ids == {} {
      assert ids * stake.Keys == {};
    } else {
      var r :| r in ids;
      SumPick(ids, r, stake);
      SumUnstaked(ids - {r}, stake);
      if r in stake {
        SumPick(ids * stake.Keys, r, stake);
        assert ids * stake.Keys - {r} == (ids - {r}) * stake.Keys;
      } else {
        assert ids * stake.Keys == (ids - {r}) * stake.Keys;
      }
    }
  }

  ghost function TotalStake(stake: StakeMap): nat {
    SumStake(stake.Keys, stake)
  }

  /** The total stake fits the `u64` the source sums it in. */
  ghost predicate Fits(stake: StakeMap) {
    TotalStake(stake) <= U64_MAX
  }

  // ---------------------------------------------------------------------
  // The fold

  /** Last vote of each runner. */
  ghost function Latest(votes: seq<Vote>): map<RunnerId, VoteResult> {
    if votes == [] then map[]
    else
      var last := votes[|votes| - 1];
      Latest(votes[..|votes| - 1])[last.runner := last.result]
  }

  ghost function Voters(votes: seq<Vote>): set<RunnerId> {
    Latest(votes).Keys
  }

  /** Runners whose last vote is `result`. */
  ghost function Side(votes: seq<Vote>, result: VoteResult): set<RunnerId> {
    set r | r in Latest(votes) && Latest(votes)[r] == result
  }

  ghost function SideStake(votes: seq<Vote>, result: VoteResult, stake: StakeMap): nat {
    SumStake(Side(votes, result), stake)
  }

  /** Stake of the runners that have not voted. */
  ghost function UnvotedStake(votes: seq<Vote>, stake: StakeMap): nat {
    SumStake(stake.Keys - Voters(votes), stake)
  }

  /** What the branches of `aggregate` return for given weights and total. */
  function Verdict(pass: Weight, fail: Weight, threshold: Weight, total: Weight): Outcome {
    if fail >= threshold then Fail
    else if pass >= threshold then Pass
    else
      var remaining := SatSub(total, SatAdd(pass, fail));
      if SatAdd(pass, remaining) < threshold && SatAdd(fail, remaining) < threshold
      then Escalate else Retry
  }

  /** Side weights saturate; the plain sum of all stakes wraps. */
  ghost function Aggregate(votes: seq<Vote>, threshold: Weight, stake: StakeMap): Outcome {
    Verdict(Clip(SideStake(votes, Passed, stake)), Clip(SideStake(votes, Failed, stake)),
            threshold, Wrap(TotalStake(stake)))
  }

  method AggregateVotes(votes: seq<Vote>, threshold: Weight, stake: StakeMap) returns (o: Outcome)
    ensures o == Aggregate(votes, threshold, stake)
  {
    var latest: map<RunnerId, VoteResult> := map[];
    for i := 0 to |votes|
      invariant latest == Latest(votes[..i])
    {
      assert votes[..i + 1][..i] == votes[..i];
      latest := latest[votes[i].runner := votes[i].result];
    }
    assert votes[..|votes|] == votes;
    var pass, fail := WeighSides(latest, votes, stake);
    if fail >= threshold {
      return Fail;
    }
    if pass >= threshold {
      return Pass;
    }
    var total := SumValues(stake);
    var voted := SatAdd(pass, fail);
    var remaining := SatSub(total, voted);
    var passReachable := SatAdd(pass, remaining) >= threshold;
    var failReachable := SatAdd(fail, remaining) >= threshold;
    o := if !passReachable && !failReachable then Escalate else Retry;
  }

  /** The saturating side weights, whatever order the hash map is walked in. */
  method WeighSides(latest: map<RunnerId, VoteResult>, ghost votes: seq<Vote>, stake: StakeMap)
    returns (pass: Weight, fail: Weight)
    requires latest == Latest(votes)
    ensures pass == Clip(SideStake(votes, Passed, stake))
    ensures fail == Clip(SideStake(votes, Failed, stake))
  {
    hide SumStake;
    SumOfNone(stake);
    pass, fail := 0, 0;
    var rest := latest.Keys;
    assert Side(votes, Passed) - rest == {} == Side(votes, Failed) - rest;
    while rest != {}
      invariant rest <= latest.Keys
      invariant pass == Clip(SumStake(Side(votes, Passed) - rest, stake))
      invariant fail == Clip(SumStake(Side(votes, Failed) - rest, stake))
    {
      var r :| r in rest;
      var w := StakeOf(stake, r);
      var result := latest[r];
      ghost var side := Side(votes, result);
      assert side - (rest - {r}) - {r} == side - rest;
      SumPick(side - (rest - {r}), r, stake);
      ghost var other := Side(votes, if result.Passed? then Failed else Passed);
      assert other - (rest - {r}) == other - rest;
      match result {
        case Passed => pass := SatAdd(pass, w);
        case Failed => fail := SatAdd(fail, w);
      }
      rest := rest - {r};
    }
    assert Side(votes, Passed) - {} == Side(votes, Passed);
    assert Side(votes, Failed) - {} == Side(votes, Failed);
  }

  /** `stake.values().sum()` on a machine word. */
  method SumValues(stake: StakeMap) returns (total: Weight)
    ensures total == Wrap(TotalStake(stake))
  {
    hide SumStake, Wrap;
    SumOfNone(stake);
    WrapOf(0, 0, 0);
    total := 0;
    var rest := stake.Keys;
    assert stake.Keys - rest == {};
    while rest != {}
      invariant rest <= stake.Keys
      invariant total == Wrap(SumStake(stake.Keys - rest, stake))
    {
      var r :| r in rest;
      assert stake.Keys - (rest - {r}) - {r} == stake.Keys - rest;
      SumPick(stake.Keys - (rest - {r}), r, stake);
      WrapAdds(SumStake(stake.Keys - rest, stake), stake[r]);
      total := Wrap(total + stake[r]);
      rest := rest - {r};
    }
    assert stake.Keys - {} == stake.Keys;
  }

  // ---------------------------------------------------------------------
  // Without overflow the verdict is plain arithmetic on three sums

  lemma SidesPartition(votes: seq<Vote>, stake: StakeMap)
    ensures SideStake(votes, Passed, stake) + SideStake(votes, Failed, stake) == SumStake(Voters(votes), stake)
    ensures SumStake(Voters(votes), stake) + UnvotedStake(votes, stake) == TotalStake(stake)
  {
    var p, f, v := Side(votes, Passed), Side(votes, Failed), Voters(votes);
    assert p + f == v;
    SumUnion(p, f, stake);
    SumUnstaked(v, stake);
    assert stake.Keys == v * stake.Keys + (stake.Keys - v);
    SumUnion(v * stake.Keys, stake.Keys - v, stake);
  }

  lemma AggregateByArithmetic(votes: seq<Vote>, threshold: Weight, stake: StakeMap)
    requires Fits(stake)
    ensures var p, f, u := SideStake(votes, Passed, stake), SideStake(votes, Failed, stake),
                           UnvotedStake(votes, stake);
            Aggregate(votes, threshold, stake) ==
            if f >= threshold then Fail
            else if p >= threshold then Pass
            else if p + u < threshold && f + u < threshold then Escalate
            else Retry
  {
    hide SumStake, Side;
    SidesPartition(votes, stake);
  }

  lemma NoVotes(votes: seq<Vote>, stake: StakeMap)
    ensures votes == [] ==> forall result :: SideStake(votes, result, stake) == 0
    ensures votes == [] ==> SumStake(Voters(votes), stake) == 0
  {
    hide SumStake;
    SumOfNone(stake);
    if votes == [] {
      assert Voters(votes) == {};
      assert forall result :: Side(votes, result) == {};
    }
  }

  // ---------------------------------------------------------------------
  // Votes arriving later

  ghost predicate FromUnvoted(votes: seq<Vote>, later: seq<Vote>) {
    Voters(votes) !! Voters(later)
  }

  lemma {:induction false} LatestOfConcat(a: seq<Vote>, b: seq<Vote>)
    ensures Latest(a + b) == Latest(a) + Latest(b)
    decreases |b|
  {
    if b == [] {
      assert a + b == a;
    } else {
      var n := |b| - 1;
      assert (a + b)[..|a + b| - 1] == a + b[..n];
      LatestOfConcat(a, b[..n]);
    }
  }

  lemma SidesOfConcat(votes: seq<Vote>, later: seq<Vote>, result: VoteResult, stake: StakeMap)
    requires FromUnvoted(votes, later)
    ensures SideStake(votes + later, result, stake) ==
            SideStake(votes, result, stake) + SideStake(later, result, stake)
    ensures Voters(votes + later) == Voters(votes) + Voters(later)
  {
    LatestOfConcat(votes, later);
    assert Side(votes + later, result) == Side(votes, result) + Side(later, result);
    SumUnion(Side(votes, result), Side(later, result), stake);
  }

  lemma LaterStakeIsUnvoted(votes: seq<Vote>, later: seq<Vote>, stake: StakeMap)
    requires FromUnvoted(votes, later)
    ensures SideStake(later, Passed, stake) + SideStake(later, Failed, stake)
            + UnvotedStake(votes + later, stake) == UnvotedStake(votes, stake)
  {
    SidesPartition(votes, stake);
    SidesPartition(later, stake);
    SidesPartition(votes + later, stake);
    SidesOfConcat(votes, later, Passed, stake);
    SumUnion(Voters(votes), Voters(later), stake);
  }

  /** A failed quorum stays failed whatever the other runners vote. */
  lemma FailIsFinal(votes: seq<Vote>, later: seq<Vote>, threshold: Weight, stake: StakeMap)
    requires FromUnvoted(votes, later)
    requires Aggregate(votes, threshold, stake).Fail?
    ensures Aggregate(votes + later, threshold, stake).Fail?
  {
    SidesOfConcat(votes, later, Failed, stake);
  }

  /** An escalated quorum stays escalated whatever the other runners vote. */
  lemma EscalateIsFinal(votes: seq<Vote>, later: seq<Vote>, threshold: Weight, stake: StakeMap)
    requires Fits(stake) && FromUnvoted(votes, later)
    requires Aggregate(votes, threshold, stake).Escalate?
    ensures Aggregate(votes + later, threshold, stake).Escalate?
  {
    AggregateByArithmetic(votes, threshold, stake);
    AggregateByArithmetic(votes + later, threshold, stake);
    LaterStakeIsUnvoted(votes, later, stake);
    SidesOfConcat(votes, later, Passed, stake);
    SidesOfConcat(votes, later, Failed, stake);
  }

  /** One vote from each runner of `ids`, all alike. */
  ghost function Ballots(ids: set<RunnerId>, result: VoteResult): seq<Vote> {
    if ids == {} then []
    else
      var r :| r in ids;
      Ballots(ids - {r}, result) + [Vote(r, result)]
  }

  lemma {:induction false} BallotsLatest(ids: set<RunnerId>, result: VoteResult)
    ensures Latest(Ballots(ids, result)) == map r | r in ids :: result
    decreases |ids|
  {
    if ids == {} {
    } else {
      var r :| r in ids && Ballots(ids, result) == Ballots(ids - {r}, result) + [Vote(r, result)];
      BallotsLatest(ids - {r}, result);
      var b := Ballots(ids, result);
      assert b[..|b| - 1] == Ballots(ids - {r}, result);
    }
  }

  /** Every unvoted runner votes `result`. */
  ghost function Landslide(votes: seq<Vote>, result: VoteResult, stake: StakeMap): seq<Vote> {
    Ballots(stake.Keys - Voters(votes), result)
  }

  lemma LandslideSides(votes: seq<Vote>, result: VoteResult, stake: StakeMap)
    ensures FromUnvoted(votes, Landslide(votes, result, stake))
    ensures forall r ::
              SideStake(Landslide(votes, result, stake), r, stake) ==
              if r == result then UnvotedStake(votes, stake) else 0
  {
    var ids := stake.Keys - Voters(votes);
    BallotsLatest(ids, result);
    var later := Landslide(votes, result, stake);
    forall r
      ensures SideStake(later, r, stake) == if r == result then UnvotedStake(votes, stake) else 0
    {
      assert Side(later, r) == if r == result then ids else {};
    }
  }

  ghost predicate CanStillDecide(votes: seq<Vote>, threshold: Weight, stake: StakeMap) {
    exists later :: FromUnvoted(votes, later) && Decided(Aggregate(votes + later, threshold, stake))
  }

  /**
   * `Retry` and `Escalate` are exact: an undecided vote is `Retry` if and only if some votes of
   * runners that have not voted decide it.
   */
  lemma RetryIsExact(votes: seq<Vote>, threshold: Weight, stake: StakeMap)
    requires Fits(stake)
    requires !Decided(Aggregate(votes, threshold, stake))
    ensures Aggregate(votes, threshold, stake).Retry? <==> CanStillDecide(votes, threshold, stake)
    ensures Aggregate(votes, threshold, stake).Escalate? <==> !CanStillDecide(votes, threshold, stake)
  {
    if Aggregate(votes, threshold, stake).Retry? {
      AggregateByArithmetic(votes, threshold, stake);
      var u := UnvotedStake(votes, stake);
      var winner := if SideStake(votes, Passed, stake) + u >= threshold then Passed else Failed;
      LandslideDecides(votes, winner, threshold, stake);
    } else {
      forall later | FromUnvoted(votes, later)
        ensures !Decided(Aggregate(votes + later, threshold, stake))
      {
        EscalateIsFinal(votes, later, threshold, stake);
      }
    }
  }

  lemma LandslideDecides(votes: seq<Vote>, winner: VoteResult, threshold: Weight, stake: StakeMap)
    requires Fits(stake)
    requires SideStake(votes, winner, stake) + UnvotedStake(votes, stake) >= threshold
    ensures var later := Landslide(votes, winner, stake);
            FromUnvoted(votes, later) && Decided(Aggregate(votes + later, threshold, stake)) &&
            (winner.Failed? ==> Aggregate(votes + later, threshold, stake).Fail?)
  {
    var later := Landslide(votes, winner, stake);
    LandslideSides(votes, winner, stake);
    SidesOfConcat(votes, later, winner, stake);
    AggregateByArithmetic(votes + later, threshold, stake);
  }

  ghost predicate PassIsFinal(votes: seq<Vote>, threshold: Weight, stake: StakeMap) {
    forall later :: FromUnvoted(votes, later) ==> Aggregate(votes + later, threshold, stake).Pass?
  }

  /** A passed quorum is final exactly when the unvoted stake cannot also carry the failing side. */
  lemma PassIsFinalIff(votes: seq<Vote>, threshold: Weight, stake: StakeMap)
    requires Fits(stake) && Aggregate(votes, threshold, stake).Pass?
    ensures PassIsFinal(votes, threshold, stake) <==>
            SideStake(votes, Failed, stake) + UnvotedStake(votes, stake) < threshold
  {
    if SideStake(votes, Failed, stake) + UnvotedStake(votes, stake) < threshold {
      forall later | FromUnvoted(votes, later)
        ensures Aggregate(votes + later, threshold, stake).Pass?
      {
        AggregateByArithmetic(votes, threshold, stake);
        AggregateByArithmetic(votes + later, threshold, stake);
        LaterStakeIsUnvoted(votes, later, stake);
        SidesOfConcat(votes, later, Passed, stake);
        SidesOfConcat(votes, later, Failed, stake);
      }
    } else {
      LandslideDecides(votes, Failed, threshold, stake);
    }
  }

  /** More support for the winning side never takes the win away, re-votes included. */
  lemma SupportIsMonotone(votes: seq<Vote>, r: RunnerId, threshold: Weight, stake: StakeMap)
    ensures Aggregate(votes, threshold, stake).Pass? ==>
            Aggregate(votes + [Vote(r, Passed)], threshold, stake).Pass?
    ensures Aggregate(votes, threshold, stake).Fail? ==>
            Aggregate(votes + [Vote(r, Failed)], threshold, stake).Fail?
  {
    hide SumStake;
    OneMoreVote(votes, r, Passed);
    OneMoreVote(votes, r, Failed);
    SumSubset(Side(votes, Passed), Side(votes + [Vote(r, Passed)], Passed), stake);
    SumSubset(Side(votes + [Vote(r, Passed)], Failed), Side(votes, Failed), stake);
    SumSubset(Side(votes, Failed), Side(votes + [Vote(r, Failed)], Failed), stake);
  }

  lemma OneMoreVote(votes: seq<Vote>, r: RunnerId, result: VoteResult)
    ensures Latest(votes + [Vote(r, result)]) == Latest(votes)[r := result]
  {
    assert (votes + [Vote(r, result)])[..|votes|] == votes;
  }

  function Opposite(result: VoteResult): VoteResult {
    if result.Passed? then Failed else Passed
  }

  /** A vote adds the runner's stake to its side unless it is there already, and takes it from the other side. */
  lemma VoteMovesStake(votes: seq<Vote>, v: Vote, stake: StakeMap)
    ensures var all, mine, theirs := votes + [v], v.result, Opposite(v.result);
            SideStake(all, mine, stake) ==
            SideStake(votes, mine, stake) + (if v.runner in Side(votes, mine) then 0 else StakeOf(stake, v.runner)) &&
            SideStake(all, theirs, stake) + (if v.runner in Side(votes, theirs) then StakeOf(stake, v.runner) else 0) ==
            SideStake(votes, theirs, stake)
  {
    hide SumStake;
    var all, mine, theirs := votes + [v], v.result, Opposite(v.result);
    OneMoreVote(votes, v.runner, v.result);
    hide Latest;
    assert Side(all, mine) == Side(votes, mine) + {v.runner};
    assert Side(all, theirs) == Side(votes, theirs) - {v.runner};
    hide Side;
    SumPick(Side(all, mine), v.runner, stake);
    if v.runner in Side(votes, mine) {
      assert Side(all, mine) == Side(votes, mine);
    } else {
      assert Side(all, mine) - {v.runner} == Side(votes, mine);
    }
    if v.runner in Side(votes, theirs) {
      SumPick(Side(votes, theirs), v.runner, stake);
    } else {
      assert Side(all, theirs) == Side(votes, theirs);
    }
  }

  /** With no votes the outcome is `Retry` only for a threshold from 1 to the total stake. */
  lemma EmptyInput(threshold: Weight, stake: StakeMap)
    requires Fits(stake)
    ensures Aggregate([], threshold, stake).Retry? <==> 0 < threshold <= TotalStake(stake)
    ensures Aggregate([], threshold, stake).Fail? <==> threshold == 0
    ensures Aggregate([], threshold, stake).Escalate? <==> threshold > TotalStake(stake)
  {
    AggregateByArithmetic([], threshold, stake);
    NoVotes([], stake);
    assert stake.Keys - Voters([]) == stake.Keys;
  }

  // ---------------------------------------------------------------------
  // Order of arrival

  /** No runner casts both votes. */
  predicate Consistent(votes: seq<Vote>) {
    forall v, w :: v in votes && w in votes && v.runner == w.runner ==> v == w
  }

  lemma {:induction false} LatestIsCast(votes: seq<Vote>)
    ensures forall r :: r in Latest(votes) ==> Vote(r, Latest(votes)[r]) in votes
    ensures forall v :: v in votes ==> v.runner in Latest(votes)
  {
    if votes == [] {
    } else {
      var n := |votes| - 1;
      LatestIsCast(votes[..n]);
      assert votes == votes[..n] + [votes[n]];
    }
  }

  predicate LastVote(votes: seq<Vote>, r: RunnerId, result: VoteResult, i: nat) {
    i < |votes| && votes[i] == Vote(r, result) && forall j :: i < j < |votes| ==> votes[j].runner != r
  }

  /** A runner counts for the side of its last vote, whatever it said before. */
  lemma {:induction false} LatestIsLast(votes: seq<Vote>, r: RunnerId, result: VoteResult)
    ensures r in Side(votes, result) <==> exists i: nat :: LastVote(votes, r, result, i)
  {
    if votes == [] {
    } else {
      var n := |votes| - 1;
      var front := votes[..n];
      LatestIsLast(front, r, result);
      if votes[n].runner == r {
        assert votes[n].result == result ==> LastVote(votes, r, result, n);
      } else if r in Side(votes, result) {
        assert r in Side(front, result);
        var i: nat :| LastVote(front, r, result, i);
        assert LastVote(votes, r, result, i);
      } else {
        forall i: nat ensures !LastVote(votes, r, result, i) {
          assert !LastVote(front, r, result, i);
        }
      }
    }
  }

  lemma SameVotesSameLatest(a: seq<Vote>, b: seq<Vote>)
    requires Consistent(a) && multiset(a) == multiset(b)
    ensures Latest(a) == Latest(b)
  {
    SameMembers(a, b);
    LatestIsCast(a);
    LatestIsCast(b);
    assert Latest(a).Keys == Latest(b).Keys by {
      forall r ensures r in Latest(a) <==> r in Latest(b) {
        if r in Latest(a) { assert Vote(r, Latest(a)[r]) in b; }
        if r in Latest(b) { assert Vote(r, Latest(b)[r]) in a; }
      }
    }
    forall r | r in Latest(a) ensures Latest(a)[r] == Latest(b)[r] {
      assert Vote(r, Latest(b)[r]) in a && Vote(r, Latest(a)[r]) in a;
    }
  }

  lemma SameMembers(a: seq<Vote>, b: seq<Vote>)
    requires multiset(a) == multiset(b)
    ensures forall v :: v in a <==> v in b
  {
    forall v ensures v in a <==> v in b {
      assert v in a <==> v in multiset(a);
      assert v in b <==> v in multiset(b);
    }
  }

  ghost predicate OrderInsensitive(votes: seq<Vote>) {
    forall other, threshold, stake :: multiset(other) == multiset(votes) ==>
      Aggregate(other, threshold, stake) == Aggregate(votes, threshold, stake)
  }

  lemma MoveToEnd(votes: seq<Vote>, v: Vote) returns (other: seq<Vote>)
    requires v in votes
    ensures multiset(other) == multiset(votes)
    ensures other != [] && other[|other| - 1] == v
  {
    var i :| 0 <= i < |votes| && votes[i] == v;
    other := votes[..i] + votes[i + 1..] + [v];
    assert votes == votes[..i] + [v] + votes[i + 1..];
  }

  lemma LastVoteDecides(votes: seq<Vote>, v: Vote)
    requires votes != [] && votes[|votes| - 1] == v
    ensures Aggregate(votes, 1, map[v.runner := 1]) == if v.result.Passed? then Pass else Fail
  {
    var stake: StakeMap := map[v.runner := 1];
    var mine := Side(votes, v.result);
    assert v.runner in mine;
    SumUnstaked(mine, stake);
    assert mine * stake.Keys == {v.runner};
    SumPick({v.runner}, v.runner, stake);
    assert {v.runner} - {v.runner} == {};
    var theirs := Side(votes, if v.result.Passed? then Failed else Passed);
    SumUnstaked(theirs, stake);
    assert theirs * stake.Keys == {};
  }

  /** One runner voting twice: which of its votes comes last decides. */
  lemma RevoteOrderMatters()
    ensures Aggregate([Vote(1, Passed), Vote(1, Failed)], 1, map[1 := 1]) == Fail
    ensures Aggregate([Vote(1, Failed), Vote(1, Passed)], 1, map[1 := 1]) == Pass
  {
    LastVoteDecides([Vote(1, Passed), Vote(1, Failed)], Vote(1, Failed));
    LastVoteDecides([Vote(1, Failed), Vote(1, Passed)], Vote(1, Passed));
  }

  /** Arrival order is irrelevant, for every threshold and stake, exactly when no runner casts both votes. */
  lemma OrderInsensitiveIff(votes: seq<Vote>)
    ensures OrderInsensitive(votes) <==> Consistent(votes)
  {
    if Consistent(votes) {
      forall other, threshold, stake | multiset(other) == multiset(votes)
        ensures Aggregate(other, threshold, stake) == Aggregate(votes, threshold, stake)
      {
        SameVotesSameLatest(votes, other);
      }
    } else {
      var v, w :| v in votes && w in votes && v.runner == w.runner && v != w;
      var a := MoveToEnd(votes, v);
      var b := MoveToEnd(votes, w);
      LastVoteDecides(a, v);
      LastVoteDecides(b, w);
      var stake: StakeMap := map[v.runner := 1];
      assert Aggregate(a, 1, stake) != Aggregate(b, 1, stake);
    }
  }
}
