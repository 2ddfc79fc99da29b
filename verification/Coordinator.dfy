/** The coordinator's job loop (bins/cosaci-coordinator/src/main.rs), over its journal, log and ledger. */
module Coordinator {
  import opened Machine
  import opened Quorum
  import opened MerkleLog
  import opened Attestation
  import opened Retrieval
  import opened Hex
  import opened Journal
  import opened JobRun
  import PQ = PartialQuorum
  import Cap = Capabilities
  import SL = StakeLedger

  /** What the read loop got from one agent: nothing usable, or an attestation whose signature holds. */
  datatype Reply = Missing | Signed(att: Attestation)
  datatype AgentReply = AgentReply(agent: RunnerId, reply: Reply)

  /**
   * Everything a job takes from outside: the candidates of the VRF round (none after a network
   * error), whether the assignments went out, and one reply per agent in fleet order.
   */
  datatype JobInput = JobInput(
    candidates: Option<seq<Cap.Candidate>>,
    requirements: Cap.Requirements,
    committeeSize: nat,
    dispatched: bool,
    replies: seq<AgentReply>,
    pipelineHash: Hash)

  datatype Testimony = Testimony(agent: RunnerId, att: Attestation)

  /** The committee members that answered with a valid attestation, in fleet order. */
  function Heard(committee: seq<RunnerId>, replies: seq<AgentReply>): seq<Testimony> {
    if replies == [] then []
    else
      var r := replies[|replies| - 1];
      Heard(committee, replies[..|replies| - 1])
      + (if r.agent in committee && r.reply.Signed? then [Testimony(r.agent, r.reply.att)] else [])
  }

  function AgentsOf(heard: seq<Testimony>): seq<RunnerId> {
    seq(|heard|, i requires 0 <= i < |heard| => heard[i].agent)
  }

  function AttestationsOf(heard: seq<Testimony>): seq<Attestation> {
    seq(|heard|, i requires 0 <= i < |heard| => heard[i].att)
  }

  lemma HeardStep(committee: seq<RunnerId>, replies: seq<AgentReply>, i: nat)
    requires i < |replies|
    ensures var r := replies[i];
            Heard(committee, replies[..i + 1]) ==
            if r.agent in committee && r.reply.Signed?
            then Heard(committee, replies[..i]) + [Testimony(r.agent, r.reply.att)]
            else Heard(committee, replies[..i])
  {
    assert replies[..i + 1][..i] == replies[..i];
  }

  /** Replies are heard in fleet order. */
  lemma {:induction false} HeardOfConcat(committee: seq<RunnerId>, a: seq<AgentReply>, b: seq<AgentReply>)
    ensures Heard(committee, a + b) == Heard(committee, a) + Heard(committee, b)
    decreases |b|
  {
    if b == [] {
      assert a + b == a;
    } else {
      var n := |b| - 1;
      assert (a + b)[..|a + b| - 1] == a + b[..n];
      HeardOfConcat(committee, a, b[..n]);
    }
  }

  /** Exactly the signed replies of committee members are heard. */
  lemma {:induction false} HeardIff(committee: seq<RunnerId>, replies: seq<AgentReply>, t: Testimony)
    ensures t in Heard(committee, replies) <==>
            t.agent in committee && AgentReply(t.agent, Signed(t.att)) in replies
  {
    if replies == [] {
    } else {
      hide Heard;
      var n := |replies| - 1;
      HeardIff(committee, replies[..n], t);
      HeardStep(committee, replies, n);
      assert replies[..n + 1] == replies && replies == replies[..n] + [replies[n]];
    }
  }

  lemma HeardOfOne(committee: seq<RunnerId>, r: AgentReply)
    ensures Heard(committee, [r]) ==
            if r.agent in committee && r.reply.Signed? then [Testimony(r.agent, r.reply.att)] else []
  {
    assert [r][..0] == [];
  }

  lemma NothingHeard(job: JobId, committee: seq<RunnerId>)
    ensures Heard(committee, []) == [] && AgentsOf([]) == [] && AttestationsOf([]) == [] && Received(job, []) == []
  {
  }

  lemma OneMoreHeard(job: JobId, heard: seq<Testimony>, t: Testimony)
    ensures AgentsOf(heard + [t]) == AgentsOf(heard) + [t.agent]
    ensures AttestationsOf(heard + [t]) == AttestationsOf(heard) + [t.att]
    ensures Received(job, AgentsOf(heard + [t])) ==
            Received(job, AgentsOf(heard)) + [ToJournal(AttestationReceived(job, t.agent))]
  {
  }

  function VotesOf(atts: seq<Attestation>): seq<Vote> {
    seq(|atts|, i requires 0 <= i < |atts| => Vote(atts[i].runner, atts[i].result))
  }

  // ---------------------------------------------------------------------
  // The consensus artifact

  function ZeroHash(): Hash {
    seq(32, _ => 0)
  }

  function Votes(atts: seq<Attestation>, h: Hash): nat {
    if atts == [] then 0
    else Votes(atts[..|atts| - 1], h) + (if atts[|atts| - 1].artifact == h then 1 else 0)
  }

  /** A most common artifact; with no attestation, the zero hash. Ties are broken by hash-map order. */
  ghost predicate MostCommon(atts: seq<Attestation>, h: Hash) {
    if atts == [] then h == ZeroHash()
    else Votes(atts, h) > 0 && forall g :: Votes(atts, g) <= Votes(atts, h)
  }

  lemma {:induction false} VotedIffPresent(atts: seq<Attestation>, h: Hash)
    ensures Votes(atts, h) > 0 <==> exists i :: 0 <= i < |atts| && atts[i].artifact == h
  {
    if atts == [] {
    } else {
      var n := |atts| - 1;
      VotedIffPresent(atts[..n], h);
      if exists i :: 0 <= i < |atts| && atts[i].artifact == h {
        var i :| 0 <= i < |atts| && atts[i].artifact == h;
        assert i == n || atts[..n][i].artifact == h;
      }
    }
  }

  /** The places that attest an artifact. */
  function AttestedAt(atts: seq<Attestation>, h: Hash): set<nat> {
    set i: nat | i < |atts| && atts[i].artifact == h
  }

  lemma AttestedSnoc(atts: seq<Attestation>, a: Attestation, h: Hash)
    ensures AttestedAt(atts + [a], h) == AttestedAt(atts, h) + (if a.artifact == h then {|atts|} else {})
    ensures |atts| !in AttestedAt(atts, h)
  {
  }

  lemma {:induction false} VotesCount(atts: seq<Attestation>, h: Hash)
    ensures Votes(atts, h) == |AttestedAt(atts, h)|
  {
    if atts == [] {
      assert AttestedAt(atts, h) == {};
    } else {
      hide AttestedAt;
      var n := |atts| - 1;
      VotesCount(atts[..n], h);
      AttestedSnoc(atts[..n], atts[n], h);
      assert atts == atts[..n] + [atts[n]];
    }
  }

  lemma {:induction false} VotesOfTwo(atts: seq<Attestation>, g: Hash, h: Hash)
    requires g != h
    ensures Votes(atts, g) + Votes(atts, h) <= |atts|
  {
    if atts == [] {
    } else {
      VotesOfTwo(atts[..|atts| - 1], g, h);
    }
  }

  /** Every consensus artifact is attested somewhere, and no artifact in more places. */
  lemma ConsensusIsCommon(atts: seq<Attestation>, h: Hash, g: Hash)
    requires atts != [] && MostCommon(atts, h)
    ensures AttestedAt(atts, h) != {} && |AttestedAt(atts, g)| <= |AttestedAt(atts, h)|
  {
    hide AttestedAt, Votes;
    VotesCount(atts, h);
    VotesCount(atts, g);
  }

  /** An artifact attested by more than half is the consensus, however ties would be broken. */
  lemma MajorityIsConsensus(atts: seq<Attestation>, h: Hash, g: Hash)
    requires 2 * |AttestedAt(atts, h)| > |atts|
    ensures MostCommon(atts, g) <==> g == h
  {
    hide AttestedAt, Votes;
    VotesCount(atts, h);
    assert atts != [] by {
      if atts == [] {
        NoAttestations(h);
      }
    }
    forall x | x != h ensures Votes(atts, x) < Votes(atts, h) {
      VotesOfTwo(atts, x, h);
    }
  }

  lemma NoAttestations(h: Hash)
    ensures AttestedAt([], h) == {}
  {
  }

  method ConsensusArtifact(atts: seq<Attestation>) returns (h: Hash)
    ensures MostCommon(atts, h)
    ensures atts == [] ==> |h| == 32 && forall i :: 0 <= i < 32 ==> h[i] == 0
  {
    var counts: map<Hash, nat> := map[];
    for i := 0 to |atts|
      invariant forall g :: Votes(atts[..i], g) == if g in counts then counts[g] else 0
      invariant forall g :: g in counts ==> counts[g] > 0
      invariant counts == map[] <==> i == 0
    {
      assert atts[..i + 1][..i] == atts[..i];
      var a := atts[i].artifact;
      counts := counts[a := (if a in counts then counts[a] else 0) + 1];
      assert a in counts;
    }
    assert atts[..|atts|] == atts;
    h := ZeroHash();
    var best: nat := 0;
    var rest := counts.Keys;
    while rest != {}
      invariant rest <= counts.Keys
      invariant forall g :: g in counts && g !in rest ==> counts[g] <= best
      invariant best == 0 ==> h == ZeroHash() && rest == counts.Keys
      invariant best > 0 ==> h in counts && counts[h] == best
    {
      var g :| g in rest;
      if counts[g] >= best {
        h, best := g, counts[g];
      }
      rest := rest - {g};
    }
    if atts != [] {
      assert counts.Keys != {} by {
        var g :| g in counts;
      }
    }
  }

  // ---------------------------------------------------------------------
  // What a job does

  /** Two thirds of the committee stake as the source computes it, sum and doubling on machine words. */
  function Threshold(committee: seq<RunnerId>, stakes: StakeMap): Weight {
    PQ.TwoThirdsThreshold(Wrap(PQ.ListStake(committee, stakes)))
  }

  /** The threshold is two thirds of the committee stake exactly while twice that stake fits a word. */
  lemma ThresholdIsTwoThirdsIff(committee: seq<RunnerId>, stakes: StakeMap)
    ensures Threshold(committee, stakes) == PQ.TwoThirds(PQ.ListStake(committee, stakes)) <==>
            2 * PQ.ListStake(committee, stakes) <= U64_MAX
  {
    hide PQ.ListStake;
    var sum := PQ.ListStake(committee, stakes);
    if sum <= U64_MAX {
      WrapOf(sum, 0, sum);
      PQ.ThresholdIsTwoThirdsIff(sum);
    }
  }

  /** `script` tells what the job does on this input with these stakes. */
  ghost predicate Plays(input: JobInput, job: JobId, stakes: StakeMap, script: JobScript) {
    if input.candidates.None? then script == Abandoned(job)
    else
      match Cap.Chosen(input.candidates.value, input.requirements, input.committeeSize)
      case None => script == Abandoned(job)
      case Some(chosen) =>
        if !input.dispatched then script == Unassigned(job, Cap.Ids(chosen))
        else Settles(input, Cap.Ids(chosen), job, stakes, script)
  }

  ghost predicate Settles(
    input: JobInput, committee: seq<RunnerId>, job: JobId, stakes: StakeMap, script: JobScript)
  {
    var heard := Heard(committee, input.replies);
    script.Settled? && script.job == job && script.committee == committee &&
    script.responders == AgentsOf(heard) && script.attestations == AttestationsOf(heard) &&
    script.outcome == Aggregate(VotesOf(script.attestations), Threshold(committee, stakes), stakes) &&
    MostCommon(script.attestations, script.artifact) && script.pipelineHash == input.pipelineHash
  }

  /**
   * How far a job gets: it settles exactly when there were candidates, enough of them able, and the
   * assignments went out; without the last it ends unassigned, without the others abandoned.
   */
  lemma HowFar(input: JobInput, job: JobId, stakes: StakeMap, script: JobScript)
    requires Plays(input, job, stakes, script)
    ensures var formed := input.candidates.Some? &&
                          input.committeeSize <= |Cap.AbleAt(input.candidates.value, input.requirements)|;
            (script.Settled? <==> formed && input.dispatched) && (script.Unassigned? <==> formed && !input.dispatched) &&
            (!script.Abandoned? ==> |script.committee| == input.committeeSize) && script.job == job
  {
    hide Cap.Chosen, Cap.AbleAt, Aggregate, MostCommon, Heard;
    if input.candidates.Some? {
      Cap.ChosenAreAble(input.candidates.value, input.requirements, input.committeeSize);
    }
  }

  /** Slashing follows a definitive outcome and a positive fraction. */
  predicate Slashes(script: JobScript, f: SL.Fraction) {
    script.Settled? && Decided(script.outcome) && f.num > 0
  }

  function StakesAfterJob(stakes: StakeMap, script: JobScript, f: SL.Fraction): StakeMap
    requires SL.Proper(f)
  {
    if Slashes(script, f) then SL.StakesAfter(stakes, script.artifact, script.attestations, f) else stakes
  }

  function SlashingJobs(scripts: seq<JobScript>, f: SL.Fraction): seq<SL.SlashingJob> {
    if scripts == [] then []
    else
      var s := scripts[|scripts| - 1];
      SlashingJobs(scripts[..|scripts| - 1], f)
      + (if Slashes(s, f) then [SL.SlashingJob(s.artifact, s.attestations)] else [])
  }

  lemma LedgerStep(stakes: StakeMap, scripts: seq<JobScript>, s: JobScript, f: SL.Fraction)
    requires SL.Proper(f)
    ensures SL.LedgerAfter(stakes, SlashingJobs(scripts + [s], f), f) ==
            StakesAfterJob(SL.LedgerAfter(stakes, SlashingJobs(scripts, f), f), s, f)
  {
    hide SL.StakesAfter;
    var jobs := SlashingJobs(scripts, f);
    assert (scripts + [s])[..|scripts|] == scripts;
    if Slashes(s, f) {
      var job := SL.SlashingJob(s.artifact, s.attestations);
      assert SlashingJobs(scripts + [s], f) == jobs + [job];
      assert (jobs + [job])[..|jobs|] == jobs;
    } else {
      assert SlashingJobs(scripts + [s], f) == jobs;
    }
  }

  /**
   * A job lowers a runner's stake exactly when it settles as a pass or a fail, the runner's artifact
   * there diverges, and its share is a unit or more. No job raises one.
   */
  lemma JobSlashesIff(stakes: StakeMap, script: JobScript, f: SL.Fraction, r: RunnerId)
    requires SL.Proper(f) && r in stakes
    ensures var after := StakesAfterJob(stakes, script, f);
            r in after && after[r] <= stakes[r] &&
            (after[r] < stakes[r] <==>
              script.Settled? && (script.outcome.Pass? || script.outcome.Fail?) &&
              SL.Diverges(script.artifact, script.attestations, r) && SL.Chargeable(stakes[r], f))
  {
    hide SL.StakesAfter, SL.Diverges;
    if script.Settled? {
      SL.JobLowersIff(stakes, script.artifact, script.attestations, f, r);
    }
  }

  /** The stakes before the next job, slashed by the jobs so far. */
  function StakesBefore(enrolled: StakeMap, scripts: seq<JobScript>, f: SL.Fraction): StakeMap
    requires SL.Proper(f)
  {
    SL.LedgerAfter(enrolled, SlashingJobs(scripts, f), f)
  }

  /** Each script is what its input makes of the stakes its predecessors left. */
  ghost predicate Played(inputs: seq<JobInput>, enrolled: StakeMap, scripts: seq<JobScript>, f: SL.Fraction)
    requires SL.Proper(f)
  {
    |scripts| <= |inputs| && |scripts| < U64_MAX &&
    forall i :: 0 <= i < |scripts| ==> Plays(inputs[i], i + 1, StakesBefore(enrolled, scripts[..i], f), scripts[i])
  }

  lemma PlayedStep(inputs: seq<JobInput>, enrolled: StakeMap, scripts: seq<JobScript>, s: JobScript, f: SL.Fraction)
    requires SL.Proper(f) && Played(inputs, enrolled, scripts, f)
    requires |scripts| < |inputs| && |scripts| + 1 < U64_MAX
    requires Plays(inputs[|scripts|], |scripts| + 1, StakesBefore(enrolled, scripts, f), s)
    ensures Played(inputs, enrolled, scripts + [s], f)
  {
    hide Plays, StakesBefore;
    var all := scripts + [s];
    assert all[..|scripts|] == scripts;
    forall i | 0 <= i < |all|
      ensures Plays(inputs[i], i + 1, StakesBefore(enrolled, all[..i], f), all[i])
    {
      if i < |scripts| {
        assert all[..i] == scripts[..i];
      }
    }
  }

  /** Over any run, exactly the decided jobs in which a runner diverged with a share of a unit or more cost it stake. */
  lemma RunSlashesIff(enrolled: StakeMap, scripts: seq<JobScript>, f: SL.Fraction, i: nat, r: RunnerId)
    requires SL.Proper(f) && r in enrolled && i < |scripts|
    ensures var before, after := StakesBefore(enrolled, scripts[..i], f), StakesBefore(enrolled, scripts[..i + 1], f);
            var s := scripts[i];
            r in before && r in after && after[r] <= before[r] &&
            (after[r] < before[r] <==>
              s.Settled? && (s.outcome.Pass? || s.outcome.Fail?) &&
              SL.Diverges(s.artifact, s.attestations, r) && SL.Chargeable(before[r], f))
  {
    hide SL.LedgerAfter, SL.Diverges, SL.Chargeable, StakesAfterJob, SlashingJobs;
    SL.LedgerOverJobs(enrolled, SlashingJobs(scripts[..i], f), f, r);
    assert scripts[..i + 1] == scripts[..i] + [scripts[i]];
    LedgerStep(enrolled, scripts[..i], scripts[i], f);
    JobSlashesIff(StakesBefore(enrolled, scripts[..i], f), scripts[i], f, r);
  }

  lemma RunStep(scripts: seq<JobScript>, s: JobScript)
    ensures WritesOfRun(scripts + [s]) == WritesOfRun(scripts) + WritesOf(s, |LogOf(scripts)|)
    ensures LogOf(scripts + [s]) == LogOf(scripts) + (if Anchoring(s) then [s.artifact] else [])
    ensures RecordsOf(scripts + [s]) ==
            if Anchoring(s) then RecordsOf(scripts)[s.job := RecordOf(s, |LogOf(scripts)|)] else RecordsOf(scripts)
  {
    assert (scripts + [s])[..|scripts|] == scripts;
  }

  lemma WriteOne(ws: seq<Write>, w: Write)
    ensures DiskOf(ws + [w]) == ApplyWrite(DiskOf(ws), w)
  {
    assert (ws + [w])[..|ws|] == ws;
  }

  lemma {:induction false} ListStakeShrinks(ids: seq<RunnerId>, a: StakeMap, b: StakeMap)
    requires forall r :: r in ids ==> StakeOf(a, r) <= StakeOf(b, r)
    ensures PQ.ListStake(ids, a) <= PQ.ListStake(ids, b)
  {
    if ids == [] {
    } else {
      ListStakeShrinks(ids[..|ids| - 1], a, b);
    }
  }

  /** Slashing only lowers stakes: a committee whose threshold is exact at enrolment keeps it so over any jobs. */
  lemma ThresholdStaysExact(committee: seq<RunnerId>, enrolled: StakeMap, jobs: seq<SL.SlashingJob>, f: SL.Fraction)
    requires SL.Proper(f)
    requires Threshold(committee, enrolled) == PQ.TwoThirds(PQ.ListStake(committee, enrolled))
    ensures var later := SL.LedgerAfter(enrolled, jobs, f);
            Threshold(committee, later) == PQ.TwoThirds(PQ.ListStake(committee, later))
  {
    hide SL.LedgerAfter, Threshold, PQ.TwoThirds;
    var later := SL.LedgerAfter(enrolled, jobs, f);
    forall r: RunnerId ensures StakeOf(later, r) <= StakeOf(enrolled, r) {
      SL.LedgerOverJobs(enrolled, jobs, f, r);
      if r in enrolled {
        SL.SlashingIsFair(enrolled, jobs, f, r);
      }
    }
    ListStakeShrinks(committee, later, enrolled);
    ThresholdIsTwoThirdsIff(committee, enrolled);
    ThresholdIsTwoThirdsIff(committee, later);
  }

  // ---------------------------------------------------------------------
  // Who stands behind an outcome

  /** Every attestation heard names the agent that signed it; the source does not compare the two. */
  predicate OwnNames(heard: seq<Testimony>) {
    forall i :: 0 <= i < |heard| ==> heard[i].att.runner == heard[i].agent
  }

  /** The agents heard with a passing attestation. */
  function PassingAgents(heard: seq<Testimony>): set<RunnerId> {
    set i | 0 <= i < |heard| && heard[i].att.result.Passed? :: heard[i].agent
  }

  /** The runners whose stake a pass is booked under. */
  ghost function Booked(heard: seq<Testimony>): set<RunnerId> {
    Side(VotesOf(AttestationsOf(heard)), Passed)
  }

  /** Whatever the stakes and the threshold, a Pass has the threshold in stake of agents heard to pass. */
  ghost predicate Backed(heard: seq<Testimony>) {
    forall threshold: Weight, stakes: StakeMap ::
      Aggregate(VotesOf(AttestationsOf(heard)), threshold, stakes).Pass? ==>
      threshold <= SumStake(PassingAgents(heard), stakes)
  }

  lemma PassNeedsBooked(heard: seq<Testimony>, threshold: Weight, stakes: StakeMap)
    requires Aggregate(VotesOf(AttestationsOf(heard)), threshold, stakes).Pass?
    ensures threshold <= SumStake(Booked(heard), stakes)
  {
    hide SumStake, Side;
  }

  /** A Pass is backed by the agents heard if and only if every runner it is booked under is one of them. */
  lemma BackedIff(heard: seq<Testimony>)
    ensures Backed(heard) <==> Booked(heard) <= PassingAgents(heard)
  {
    hide Aggregate, SumStake, Side;
    var booked, agents := Booked(heard), PassingAgents(heard);
    if booked <= agents {
      forall threshold: Weight, stakes: StakeMap | Aggregate(VotesOf(AttestationsOf(heard)), threshold, stakes).Pass?
        ensures threshold <= SumStake(agents, stakes)
      {
        PassNeedsBooked(heard, threshold, stakes);
        SumSubset(booked, agents, stakes);
      }
    } else {
      var r :| r in booked && r !in agents;
      BorrowedStake(heard, r);
    }
  }

  /** With all the stake on a runner that was not heard, its borrowed vote passes. */
  lemma BorrowedStake(heard: seq<Testimony>, r: RunnerId)
    requires r in Booked(heard) && r !in PassingAgents(heard)
    ensures Aggregate(VotesOf(AttestationsOf(heard)), 1, map[r := 1]).Pass?
    ensures SumStake(PassingAgents(heard), map[r := 1]) == 0
  {
    var votes, stakes: StakeMap := VotesOf(AttestationsOf(heard)), map[r := 1];
    SoleStake(Side(votes, Passed), r, stakes);
    SoleStake(Side(votes, Failed), r, stakes);
    SoleStake(PassingAgents(heard), r, stakes);
  }

  lemma SoleStake(ids: set<RunnerId>, r: RunnerId, stakes: StakeMap)
    requires stakes == map[r := 1]
    ensures SumStake(ids, stakes) == if r in ids then 1 else 0
  {
    hide SumStake;
    SumUnstaked(ids, stakes);
    SumOfNone(stakes);
    if r in ids {
      assert ids * stakes.Keys == {r};
      SumPick({r}, r, stakes);
      assert {r} - {r} == {};
    } else {
      assert ids * stakes.Keys == {};
    }
  }

  /** Attestations in the agents' own names are enough. */
  lemma OwnNamesAreBooked(heard: seq<Testimony>)
    requires OwnNames(heard)
    ensures Booked(heard) <= PassingAgents(heard)
  {
    var votes := VotesOf(AttestationsOf(heard));
    LatestIsCast(votes);
    forall r | r in Booked(heard) ensures r in PassingAgents(heard) {
      var i :| 0 <= i < |votes| && votes[i] == Vote(r, Passed);
      assert heard[i].agent == r && heard[i].att.result.Passed?;
    }
  }

  /**
   * A passed job whose votes are booked under agents heard to pass has its threshold in their stake,
   * which is two thirds of the committee's as long as twice that fits a word.
   */
  lemma PassIsBacked(input: JobInput, committee: seq<RunnerId>, job: JobId, stakes: StakeMap, script: JobScript)
    requires Settles(input, committee, job, stakes, script) && script.outcome.Pass?
    requires Booked(Heard(committee, input.replies)) <= PassingAgents(Heard(committee, input.replies))
    ensures var backing := SumStake(PassingAgents(Heard(committee, input.replies)), stakes);
            backing >= Threshold(committee, stakes) &&
            (2 * PQ.ListStake(committee, stakes) <= U64_MAX ==> 3 * backing >= 2 * PQ.ListStake(committee, stakes))
  {
    hide Aggregate, SumStake, MostCommon, Heard, PQ.ListStake, Threshold, Booked, PassingAgents;
    BackedIff(Heard(committee, input.replies));
    ThresholdIsTwoThirdsIff(committee, stakes);
  }

  /** One agent with a sixth of the stake, attesting in the name of the other: the job passes. */
  lemma BorrowedVotePasses(h: Hash)
    ensures var heard := [Testimony(1, Attestation(2, Passed, h))];
            var committee, stakes := [1, 2], map[1 := 1, 2 := 5];
            Aggregate(VotesOf(AttestationsOf(heard)), Threshold(committee, stakes), stakes).Pass? &&
            SumStake(PassingAgents(heard), stakes) == 1
  {
    var heard := [Testimony(1, Attestation(2, Passed, h))];
    var stakes: StakeMap := map[1 := 1, 2 := 5];
    assert [1, 2][..1] == [1] && [1][..0] == [];
    assert PQ.ListStake([1], stakes) == 1;
    assert Threshold([1, 2], stakes) == 4;
    var votes := VotesOf(AttestationsOf(heard));
    assert votes == [Vote(2, Passed)] && votes[..0] == [];
    assert Latest(votes) == map[2 := Passed];
    assert Side(votes, Passed) == {2} && Side(votes, Failed) == {};
    SumPick({2}, 2, stakes);
    assert PassingAgents(heard) == {1} by {
      assert heard[0].att.result.Passed?;
    }
    SumPick({1}, 1, stakes);
    assert {1} - {1} == {} && {2} - {2} == {};
  }

  /** The name it borrows also takes the slash when the attestation diverges. */
  lemma BorrowedNameIsSlashed(h: Hash, consensus: Hash)
    requires h != consensus
    ensures var atts := AttestationsOf([Testimony(1, Attestation(2, Passed, h))]);
            SL.StakesAfter(map[1 := 1, 2 := 5], consensus, atts, SL.Fraction(1, 1)) == map[1 := 1, 2 := 0]
  {
    var atts := AttestationsOf([Testimony(1, Attestation(2, Passed, h))]);
    assert atts == [Attestation(2, Passed, h)] && atts[..0] == [];
  }

  /** With own names, an agent whose own attestations match the consensus keeps its stake. */
  lemma SlashedForOwnOnly(heard: seq<Testimony>, stakes: StakeMap, consensus: Hash, f: SL.Fraction, r: RunnerId)
    requires SL.Proper(f) && OwnNames(heard) && r in stakes
    requires forall i :: 0 <= i < |heard| && heard[i].agent == r ==> heard[i].att.artifact == consensus
    ensures var after := SL.StakesAfter(stakes, consensus, AttestationsOf(heard), f);
            r in after && after[r] == stakes[r]
  {
    hide SL.StakesAfter;
    var atts := AttestationsOf(heard);
    forall a | a in atts && a.runner == r ensures a.artifact == consensus {
      var i :| 0 <= i < |atts| && atts[i] == a;
      assert heard[i].agent == r;
    }
    SL.NoDivergence(consensus, atts, r);
    SL.StakeOfRunner(stakes, consensus, atts, f, r);
  }

  class Process {
    var journal: seq<Entry>
    var log: seq<Hash>
    var records: map<JobId, JobRecord>
    const ledger: SL.Ledger
    const fraction: SL.Fraction
    /** Every durable write so far, in order. */
    ghost var writes: seq<Write>
    ghost var scripts: seq<JobScript>
    ghost const enrolled: StakeMap

    /** Journal and log are what the writes leave on disk. */
    ghost predicate Mirrored()
      reads this
    {
      Disk(journal, log) == DiskOf(writes)
    }

    /** Between jobs: the writes, log, records and stakes are those of the jobs run. */
    ghost predicate Valid()
      reads this, ledger
    {
      Mirrored() && SL.Proper(fraction) && Numbered(scripts) &&
      writes == WritesOfRun(scripts) && log == LogOf(scripts) && records == RecordsOf(scripts) &&
      ledger.stakes == SL.LedgerAfter(enrolled, SlashingJobs(scripts, fraction), fraction)
    }

    constructor (stakes: StakeMap, fraction: SL.Fraction)
      requires SL.Proper(fraction)
      ensures Valid() && fresh(ledger) && scripts == [] && enrolled == stakes
    {
      journal, log, records, writes, scripts := [], [], map[], [], [];
      ledger := new SL.Ledger(stakes);
      this.fraction, enrolled := fraction, stakes;
    }

    /** `journal_append` */
    method Record(e: Entry)
      requires Mirrored()
      modifies this`journal, this`writes
      ensures Mirrored() && journal == old(journal) + [e] && writes == old(writes) + [ToJournal(e)]
    {
      WriteOne(writes, ToJournal(e));
      journal := journal + [e];
      writes := writes + [ToJournal(e)];
    }

    method AppendToLog(h: Hash) returns (position: nat)
      requires Mirrored()
      modifies this`log, this`writes
      ensures Mirrored() && log == old(log) + [h] && writes == old(writes) + [ToLog(h)]
      ensures position == |old(log)|
    {
      WriteOne(writes, ToLog(h));
      position := |log|;
      log := log + [h];
      writes := writes + [ToLog(h)];
    }

    /** Reads the committee's replies, journalling each valid attestation as it comes in. */
    method Collect(job: JobId, committee: seq<RunnerId>, replies: seq<AgentReply>)
      returns (responders: seq<RunnerId>, atts: seq<Attestation>)
      requires Mirrored()
      modifies this`journal, this`writes
      ensures Mirrored()
      ensures writes == old(writes) + Received(job, responders)
      ensures responders == AgentsOf(Heard(committee, replies))
      ensures atts == AttestationsOf(Heard(committee, replies))
    {
      hide Heard, AgentsOf, AttestationsOf, Received, DiskOf;
      responders, atts := [], [];
      NothingHeard(job, committee);
      assert replies[..0] == [];
      for i := 0 to |replies|
        invariant Mirrored()
        invariant responders == AgentsOf(Heard(committee, replies[..i]))
        invariant atts == AttestationsOf(Heard(committee, replies[..i]))
        invariant writes == old(writes) + Received(job, responders)
      {
        HeardStep(committee, replies, i);
        var r := replies[i];
        if r.agent in committee && r.reply.Signed? {
          OneMoreHeard(job, Heard(committee, replies[..i]), Testimony(r.agent, r.reply.att));
          Record(AttestationReceived(job, r.agent));
          responders := responders + [r.agent];
          atts := atts + [r.reply.att];
        }
      }
      assert replies[..|replies|] == replies;
    }

    method Tally(committee: seq<RunnerId>, atts: seq<Attestation>) returns (outcome: Outcome)
      ensures outcome == Aggregate(VotesOf(atts), Threshold(committee, ledger.stakes), ledger.stakes)
    {
      var sum := PQ.SumOnWord(committee, ledger.stakes);
      var threshold := PQ.TwoThirdsThreshold(sum);
      outcome := AggregateVotes(VotesOf(atts), threshold, ledger.stakes);
    }

    /** Log, records and stakes are still those of the jobs run before. */
    ghost predicate Untouched()
      reads this, ledger
    {
      Mirrored() && SL.Proper(fraction) && Numbered(scripts) &&
      log == LogOf(scripts) && records == RecordsOf(scripts) &&
      ledger.stakes == SL.LedgerAfter(enrolled, SlashingJobs(scripts, fraction), fraction)
    }

    /**
     * `run_one_job`. The script returned tells how the job went; the disk, the records and the
     * stakes follow from it.
     */
    method RunOneJob(input: JobInput, job: JobId) returns (script: JobScript)
      requires Valid() && job == |scripts| + 1
      modifies this, ledger
      ensures Valid() && scripts == old(scripts) + [script]
      ensures Plays(input, job, old(ledger.stakes), script)
      ensures ledger.stakes == StakesAfterJob(old(ledger.stakes), script, fraction)
    {
      hide SL.StakesAfter, SL.LedgerAfter, DiskOf, WritesOfRun, LogOf, RecordsOf, Cap.Chosen, SlashingJobs, Settles;
      Record(JobSubmitted(job));
      if input.candidates.None? {
        script := Abandoned(job);
        Finish(script);
        return;
      }
      var ids := Cap.SelectCommittee(input.candidates.value, input.requirements, input.committeeSize);
      if ids.None? {
        script := Abandoned(job);
        Finish(script);
        return;
      }
      var committee := ids.value;
      Record(CommitteeSelected(job, committee));
      assert writes == WritesOfRun(scripts) + Opening(Unassigned(job, committee));
      if !input.dispatched {
        script := Unassigned(job, committee);
        Finish(script);
        return;
      }
      script := Settle(input, job, committee);
      Close(script);
    }

    /** Collects, tallies and journals the outcome. */
    method Settle(input: JobInput, job: JobId, committee: seq<RunnerId>) returns (script: JobScript)
      requires Untouched()
      requires writes == WritesOfRun(scripts) + Opening(Unassigned(job, committee))
      modifies this`journal, this`writes
      ensures Untouched() && script.Settled? && script.job == job
      ensures Settles(input, committee, job, ledger.stakes, script)
      ensures writes == WritesOfRun(scripts) + (Opening(script) + Received(job, script.responders) + [Settling(script)])
    {
      hide Aggregate, SL.LedgerAfter, DiskOf, WritesOfRun, LogOf, RecordsOf, SlashingJobs, Threshold, MostCommon, ToHex;
      var responders, atts := Collect(job, committee, input.replies);
      var outcome := Tally(committee, atts);
      var consensus := ConsensusArtifact(atts);
      Record(Aggregated(job, outcome, ToHex(consensus)));
      script := Settled(job, committee, responders, atts, outcome, consensus, input.pipelineHash);
    }

    /** Slashes the minority, then anchors the artifact of a passed job. */
    method Close(script: JobScript)
      requires Untouched() && script.Settled? && script.job == |scripts| + 1
      requires writes ==
               WritesOfRun(scripts) + (Opening(script) + Received(script.job, script.responders) + [Settling(script)])
      modifies this, ledger
      ensures Valid() && scripts == old(scripts) + [script]
      ensures ledger.stakes == StakesAfterJob(old(ledger.stakes), script, fraction)
    {
      hide SL.StakesAfter, SL.LedgerAfter, DiskOf, WritesOfRun, LogOf, RecordsOf, SlashingJobs, Opening, Received, Settling;
      var outcome := script.outcome;
      if (outcome.Pass? || outcome.Fail?) && fraction.num > 0 {
        var _ := ledger.SlashMinority(script.artifact, script.attestations, fraction);
      }
      if outcome.Pass? {
        var position := AppendToLog(script.artifact);
        var length := |log|;
        records := records[script.job := JobRecord(script.job, script.pipelineHash, script.attestations,
                                                   script.artifact, position, length)];
        Record(Anchored(script.job, position));
      }
      Finish(script);
    }

    /** Ends a job whose writes are all out: its script joins the run. */
    ghost method Finish(script: JobScript)
      requires Mirrored() && SL.Proper(fraction) && Numbered(scripts) && script.job == |scripts| + 1
      requires writes == WritesOfRun(scripts) + WritesOf(script, |LogOf(scripts)|)
      requires log == LogOf(scripts) + (if Anchoring(script) then [script.artifact] else [])
      requires records == if Anchoring(script) then RecordsOf(scripts)[script.job := RecordOf(script, |LogOf(scripts)|)]
                          else RecordsOf(scripts)
      requires ledger.stakes ==
               StakesAfterJob(SL.LedgerAfter(enrolled, SlashingJobs(scripts, fraction), fraction), script, fraction)
      modifies this`scripts
      ensures Valid() && scripts == old(scripts) + [script]
    {
      hide SL.LedgerAfter, StakesAfterJob, SlashingJobs, WritesOf, WritesOfRun, LogOf, RecordsOf, DiskOf;
      RunStep(scripts, script);
      LedgerStep(enrolled, scripts, script, fraction);
      scripts := scripts + [script];
    }

    /** The job loop: jobs are numbered from 1 in the order they are taken. */
    method RunJobs(inputs: seq<JobInput>)
      requires Valid() && scripts == [] && |inputs| < U64_MAX
      modifies this, ledger
      ensures Valid() && |scripts| == |inputs| && Played(inputs, enrolled, scripts, fraction)
      ensures forall k :: 0 <= k <= |writes| ==> Recoverable(scripts, DiskOf(writes[..k]))
    {
      hide SL.LedgerAfter, DiskOf, WritesOfRun, LogOf, RecordsOf, SlashingJobs, Recoverable, Plays;
      var completed := 0;
      while completed < |inputs|
        invariant 0 <= completed <= |inputs|
        invariant Valid() && |scripts| == completed && Played(inputs, enrolled, scripts, fraction)
      {
        hide Played;
        var job := completed + 1;
        ghost var before := scripts;
        var script := RunOneJob(inputs[completed], job);
        PlayedStep(inputs, enrolled, before, script, fraction);
        completed := completed + 1;
      }
      forall k | 0 <= k <= |writes| ensures Recoverable(scripts, DiskOf(writes[..k])) {
        CrashIsRecoverable(scripts, k);
      }
    }
  }
}
