/** Quorum over the part of a committee that answered (crates/cosaci-state/src/partial_quorum.rs). */
module PartialQuorum {
  import opened Machine
  import opened Quorum
  import opened Aggregator

  datatype PartialOutcome = PartialOutcome(
    outcome: Outcome,
    responding: seq<RunnerId>,
    missing: seq<RunnerId>,
    respondingStake: Weight,
    threshold: Weight)

  /** Smallest whole number at least two thirds of `stake`. */
  function TwoThirds(stake: nat): (t: nat)
    ensures 3 * (t - 1) < 2 * stake <= 3 * t
  {
    (stake * 2 + 2) / 3
  }

  /** `two_thirds_threshold` on a machine word: the doubling wraps before the division rounds up. */
  function TwoThirdsThreshold(stake: Weight): Weight {
    (Wrap(2 * stake) + 2) / 3
  }

  /** The code's threshold is two thirds rounded up exactly while the doubled stake fits a word. */
  lemma ThresholdIsTwoThirdsIff(stake: Weight)
    ensures TwoThirdsThreshold(stake) == TwoThirds(stake) <==> 2 * stake <= U64_MAX
    ensures 2 * stake > U64_MAX ==> 3 * TwoThirdsThreshold(stake) <= 2 * stake - U64_MAX + 1
  {
    if 2 * stake > U64_MAX {
      assert 2 * stake == 1 * (U64_MAX + 1) + (2 * stake - U64_MAX - 1);
      assert Wrap(2 * stake) == 2 * stake - U64_MAX - 1;
    }
  }

  /** Committee members among (or not among) the voters, in committee order. */
  function Pick(committee: seq<RunnerId>, voters: set<RunnerId>, voted: bool): seq<RunnerId> {
    if committee == [] then []
    else Pick(committee[..|committee| - 1], voters, voted)
         + (var id := committee[|committee| - 1]; if (id in voters) == voted then [id] else [])
  }

  function ListStake(ids: seq<RunnerId>, stake: StakeMap): nat {
    if ids == [] then 0 else ListStake(ids[..|ids| - 1], stake) + StakeOf(stake, ids[|ids| - 1])
  }

  predicate NoRepeats(ids: seq<RunnerId>) {
    forall i, j :: 0 <= i < j < |ids| ==> ids[i] != ids[j]
  }

  /** `resolve_with_dropouts`; the responders' stake is summed on a machine word. */
  method Resolve(committee: seq<RunnerId>, votes: seq<Vote>, stake: StakeMap, thresholdFn: Weight -> Weight)
    returns (r: PartialOutcome)
    ensures r.responding == Pick(committee, Voters(votes), true)
    ensures r.missing == Pick(committee, Voters(votes), false)
    ensures r.respondingStake == Wrap(ListStake(r.responding, stake))
    ensures r.threshold == thresholdFn(r.respondingStake)
    ensures r.outcome == Aggregate(votes, r.threshold, stake)
  {
    var responded := {};
    for i := 0 to |votes|
      invariant responded == Voters(votes[..i])
    {
      assert votes[..i + 1][..i] == votes[..i];
      responded := responded + {votes[i].runner};
    }
    assert votes[..|votes|] == votes;
    var responding, missing := [], [];
    for i := 0 to |committee|
      invariant responding == Pick(committee[..i], responded, true)
      invariant missing == Pick(committee[..i], responded, false)
    {
      assert committee[..i + 1][..i] == committee[..i];
      if committee[i] in responded {
        responding := responding + [committee[i]];
      } else {
        missing := missing + [committee[i]];
      }
    }
    assert committee[..|committee|] == committee;
    var sum := SumOnWord(responding, stake);
    var threshold := thresholdFn(sum);
    var outcome := AggregateVotes(votes, threshold, stake);
    r := PartialOutcome(outcome, responding, missing, sum, threshold);
  }

  /** The plain sum of the listed stakes, on a machine word. */
  method SumOnWord(ids: seq<RunnerId>, stake: StakeMap) returns (sum: Weight)
    ensures sum == Wrap(ListStake(ids, stake))
  {
    hide Wrap;
    assert Wrap(0) == 0 by {
      WrapOf(0, 0, 0);
    }
    sum := 0;
    for i := 0 to |ids|
      invariant sum == Wrap(ListStake(ids[..i], stake))
    {
      assert ids[..i + 1][..i] == ids[..i];
      WrapAdds(ListStake(ids[..i], stake), StakeOf(stake, ids[i]));
      sum := Wrap(sum + StakeOf(stake, ids[i]));
    }
    assert ids[..|ids|] == ids;
  }

  /** Responding and missing members partition the committee, multiplicities included. */
  lemma {:induction false} PickPartitions(committee: seq<RunnerId>, voters: set<RunnerId>)
    ensures multiset(Pick(committee, voters, true)) + multiset(Pick(committee, voters, false)) ==
            multiset(committee)
  {
    if committee == [] {
    } else {
      var front, last := committee[..|committee| - 1], committee[|committee| - 1];
      assert committee == front + [last];
      hide Pick;
      PickPartitions(front, voters);
      PickSnoc(front, last, voters, true);
      PickSnoc(front, last, voters, false);
    }
  }

  lemma PickSnoc(front: seq<RunnerId>, last: RunnerId, voters: set<RunnerId>, voted: bool)
    ensures Pick(front + [last], voters, voted) ==
            if (last in voters) == voted then Pick(front, voters, voted) + [last] else Pick(front, voters, voted)
  {
    assert (front + [last])[..|front|] == front;
  }

  lemma {:induction false} PickSelects(committee: seq<RunnerId>, voters: set<RunnerId>, voted: bool)
    ensures forall id :: id in Pick(committee, voters, voted) <==> id in committee && (id in voters <==> voted)
  {
    if committee == [] {
    } else {
      var n := |committee| - 1;
      PickSelects(committee[..n], voters, voted);
      assert committee == committee[..n] + [committee[n]];
    }
  }

  lemma {:induction false} PickNoRepeats(committee: seq<RunnerId>, voters: set<RunnerId>, voted: bool)
    requires NoRepeats(committee)
    ensures NoRepeats(Pick(committee, voters, voted))
  {
    if committee == [] {
    } else {
      var n := |committee| - 1;
      PickNoRepeats(committee[..n], voters, voted);
      PickSelects(committee[..n], voters, voted);
    }
  }

  function Members(ids: seq<RunnerId>): set<RunnerId> {
    set id | id in ids
  }

  lemma MembersWithoutLast(ids: seq<RunnerId>)
    requires ids != [] && NoRepeats(ids)
    ensures Members(ids) - {ids[|ids| - 1]} == Members(ids[..|ids| - 1])
  {
    var n := |ids| - 1;
    assert ids == ids[..n] + [ids[n]];
  }

  lemma {:induction false} ListStakeIsSum(ids: seq<RunnerId>, stake: StakeMap)
    requires NoRepeats(ids)
    ensures ListStake(ids, stake) == SumStake(Members(ids), stake)
  {
    if ids == [] {
      SumOfNone(stake);
    } else {
      hide SumStake;
      ListStakeIsSum(ids[..|ids| - 1], stake);
      MembersWithoutLast(ids);
      SumPick(Members(ids), ids[|ids| - 1], stake);
    }
  }

  /** The responders' stake is the voters' stake when only members vote. */
  lemma RespondingIsVoters(committee: seq<RunnerId>, votes: seq<Vote>, stake: StakeMap)
    requires NoRepeats(committee) && forall v :: v in votes ==> v.runner in committee
    ensures ListStake(Pick(committee, Voters(votes), true), stake) == SumStake(Voters(votes), stake)
  {
    hide SumStake, ListStake;
    var ids := Pick(committee, Voters(votes), true);
    PickSelects(committee, Voters(votes), true);
    PickNoRepeats(committee, Voters(votes), true);
    ListStakeIsSum(ids, stake);
    LatestIsCast(votes);
    assert Members(ids) == Voters(votes);
  }

  /**
   * With a committee without repeats and one vote per member, the threshold the code takes over the
   * responders gives the outcome every online order of arrival ends in if and only if the doubled
   * stake fits a word, or the wrapped threshold happens to be out of reach of one side.
   */
  lemma ResolvedInAnyOrderIff(committee: seq<RunnerId>, votes: seq<Vote>, stake: StakeMap, maxRetries: u32)
    requires NoRepeats(committee) && OneVoteEach(votes) && Fits(stake) && votes != []
    requires forall v :: v in votes ==> v.runner in committee
    ensures var responding := Wrap(ListStake(Pick(committee, Voters(votes), true), stake));
            var threshold := TwoThirdsThreshold(responding);
            responding == SumStake(Voters(votes), stake) &&
            (AllOrdersAgree(votes, threshold, stake, maxRetries) <==>
             2 * responding <= U64_MAX || NoDoubleQuorum(votes, threshold, stake))
  {
    hide SumStake, AllOrdersAgree, ListStake;
    RespondingIsVoters(committee, votes, stake);
    SidesPartition(votes, stake);
    var responding: Weight := SumStake(Voters(votes), stake);
    WrapOf(responding, 0, responding);
    ThresholdIsTwoThirdsIff(responding);
    OnlineEqualsBatchIff(votes, TwoThirdsThreshold(responding), stake, maxRetries);
  }

  const BIG: nat := 0x4000_0000_0000_0001

  /**
   * Two members of stake 2^62 + 1 voting against each other: the doubled stake wraps, the threshold
   * falls to 2, both sides reach it and the outcome depends on who comes first.
   */
  lemma WrappedThresholdSplits(maxRetries: u32)
    ensures var votes, stake := [Vote(1, Passed), Vote(2, Failed)], map[1 := BIG, 2 := BIG];
            var responding := Wrap(ListStake(Pick([1, 2], Voters(votes), true), stake));
            TwoThirdsThreshold(responding) == 2 && !AllOrdersAgree(votes, 2, stake, maxRetries)
  {
    hide AllOrdersAgree, SumStake, ListStake;
    var votes, stake := [Vote(1, Passed), Vote(2, Failed)], map[1 := BIG, 2 := BIG];
    TwoSides(votes, stake, BIG);
    SidesPartition(votes, stake);
    assert TwoThirdsThreshold(2 * BIG) == 2;
    ResolvedInAnyOrderIff([1, 2], votes, stake, maxRetries);
  }
}
