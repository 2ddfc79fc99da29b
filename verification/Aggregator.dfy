/** The online vote collector (crates/cosaci-state/src/aggregator.rs). */
module Aggregator {
  import opened Machine
  import opened Quorum

  datatype AggregationState = Pending | QuorumPassed | QuorumFailed | Escalated

  predicate Terminal(s: AggregationState) {
    !s.Pending?
  }

  /** `Retry` keeps the collector open. */
  function FromOutcome(o: Outcome): AggregationState {
    match o
    case Pass => QuorumPassed
    case Fail => QuorumFailed
    case Escalate => Escalated
    case Retry => Pending
  }

  datatype Collector = Collector(
    state: AggregationState,
    votes: seq<Vote>,
    threshold: Weight,
    stake: StakeMap,
    retries: u32,
    maxRetries: u32)

  function Fresh(threshold: Weight, stake: StakeMap, maxRetries: u32): Collector {
    Collector(Pending, [], threshold, stake, 0, maxRetries)
  }

  ghost function Tally(c: Collector): Outcome {
    Aggregate(c.votes, c.threshold, c.stake)
  }

  datatype Event = VoteArrives(vote: Vote) | Tick | Deadline

  /** `retries.saturating_add(1)` on a `u32`. */
  function NextRetries(n: u32): u32 {
    if n == U32_MAX then n else n + 1
  }

  ghost function Next(c: Collector, e: Event): Collector {
    if Terminal(c.state) then c
    else
      match e
      case VoteArrives(v) =>
        var c' := c.(votes := c.votes + [v]);
        c'.(state := FromOutcome(Tally(c')))
      case Tick =>
        if Tally(c).Retry? then
          var n := NextRetries(c.retries);
          c.(retries := n, state := if n > c.maxRetries then Escalated else Pending)
        else c.(state := FromOutcome(Tally(c)))
      case Deadline =>
        c.(state := if Decided(Tally(c)) then FromOutcome(Tally(c)) else Escalated)
  }

  ghost function Run(c: Collector, events: seq<Event>): Collector
    decreases |events|
  {
    if events == [] then c else Run(Next(c, events[0]), events[1..])
  }

  // ---------------------------------------------------------------------
  // Every run

  /** The visible state never contradicts the tally of the votes that were counted. */
  ghost predicate Sound(c: Collector) {
    match c.state
    case Pending => c.votes == [] || Tally(c).Retry?
    case QuorumPassed => Tally(c).Pass?
    case QuorumFailed => Tally(c).Fail?
    case Escalated => !Decided(Tally(c))
  }

  lemma StepIsSound(c: Collector, e: Event)
    requires Sound(c)
    ensures Sound(Next(c, e))
    ensures Next(c, e).threshold == c.threshold && Next(c, e).stake == c.stake
    ensures c.votes <= Next(c, e).votes
  {
    hide Aggregate;
  }

  lemma {:induction false} RunIsSound(c: Collector, events: seq<Event>)
    requires Sound(c)
    ensures Sound(Run(c, events))
    ensures Run(c, events).threshold == c.threshold && Run(c, events).stake == c.stake
    ensures c.votes <= Run(c, events).votes
    decreases |events|
  {
    hide Sound, Next;
    if events == [] {
    } else {
      StepIsSound(c, events[0]);
      RunIsSound(Next(c, events[0]), events[1..]);
    }
  }

  lemma {:induction false} TerminalIsSticky(c: Collector, events: seq<Event>)
    requires Terminal(c.state)
    ensures Run(c, events) == c
    decreases |events|
  {
    if events == [] {
    } else {
      TerminalIsSticky(c, events[1..]);
    }
  }

  /** A deadline always ends the collection. */
  lemma DeadlineTerminates(c: Collector)
    ensures Terminal(Next(c, Deadline).state)
  {
  }

  function Ticks(n: nat): seq<Event> {
    seq(n, _ => Tick)
  }

  /**
   * The retry budget is exact: an undecided collector survives `n` consecutive ticks if and only
   * if they stay within the budget, and a budget of `u32::MAX` is never exhausted.
   */
  lemma {:induction false} RetryBudget(c: Collector, n: nat)
    requires c.state.Pending? && Tally(c).Retry? && c.retries <= c.maxRetries
    ensures Run(c, Ticks(n)).state.Pending? <==>
            c.retries + n <= c.maxRetries || c.maxRetries == U32_MAX
    ensures Terminal(Run(c, Ticks(n)).state) ==> Run(c, Ticks(n)).state.Escalated?
    decreases n
  {
    if n == 0 {
    } else {
      var c' := Next(c, Tick);
      assert Ticks(n)[1..] == Ticks(n - 1);
      if c'.state.Pending? {
        RetryBudget(c', n - 1);
      } else {
        TerminalIsSticky(c', Ticks(n - 1));
      }
    }
  }

  function TickCount(events: seq<Event>): nat {
    if events == [] then 0 else (if events[0].Tick? then 1 else 0) + TickCount(events[1..])
  }

  lemma BudgetStep(c: Collector, e: Event)
    requires c.state.Pending? && c.retries <= c.maxRetries && !e.Deadline?
    ensures var after, ticks := Next(c, e), c.retries + if e.Tick? then 1 else 0;
            after.maxRetries == c.maxRetries &&
            (after.state.Pending? ==>
              after.retries == (if ticks > U32_MAX then U32_MAX else ticks) && after.retries <= c.maxRetries) &&
            (after.state.Escalated? ==> Tally(after).Escalate? || ticks > c.maxRetries)
  {
    hide Aggregate;
  }

  /**
   * Over any run without a deadline, votes and ticks interleaved: a collector still open has had no
   * more ticks than its budget, and an escalated one is past saving or has used the budget up.
   */
  lemma {:induction false} BudgetOverRun(c: Collector, events: seq<Event>)
    requires c.state.Pending? && c.retries <= c.maxRetries && Deadline !in events
    ensures var final, ticks := Run(c, events), c.retries + TickCount(events);
            (final.state.Pending? ==> ticks <= c.maxRetries || c.maxRetries == U32_MAX) &&
            (final.state.Escalated? ==> Tally(final).Escalate? || ticks > c.maxRetries)
    decreases |events|
  {
    if events == [] {
    } else {
      var c', rest := Next(c, events[0]), events[1..];
      BudgetStep(c, events[0]);
      hide Next, Tally;
      if c'.state.Pending? {
        BudgetOverRun(c', rest);
      } else {
        TerminalIsSticky(c', rest);
      }
    }
  }

  // ---------------------------------------------------------------------
  // Which votes count

  function VotesIn(events: seq<Event>): seq<Vote> {
    if events == [] then []
    else if events[0].VoteArrives? then [events[0].vote] + VotesIn(events[1..])
    else VotesIn(events[1..])
  }

  /** An open collector has counted every vote it was sent, repeated ones included, in order. */
  lemma {:induction false} OpenCountsAll(c: Collector, events: seq<Event>)
    requires c.state.Pending?
    ensures Run(c, events).votes <= c.votes + VotesIn(events)
    ensures Run(c, events).state.Pending? ==> Run(c, events).votes == c.votes + VotesIn(events)
    decreases |events|
  {
    hide Next;
    if events == [] {
    } else {
      hide VotesIn;
      var c', rest := Next(c, events[0]), events[1..];
      CountOne(c, events);
      if c'.state.Pending? {
        OpenCountsAll(c', rest);
      } else {
        TerminalIsSticky(c', rest);
      }
    }
  }

  lemma CountOne(c: Collector, events: seq<Event>)
    requires c.state.Pending? && events != []
    ensures Next(c, events[0]).votes + VotesIn(events[1..]) == c.votes + VotesIn(events)
  {
    hide Next, VotesIn;
    VoteIsCounted(c, events[0]);
    VotesInStep(events);
    var later := VotesIn(events[1..]);
    if events[0].VoteArrives? {
      assert (c.votes + [events[0].vote]) + later == c.votes + ([events[0].vote] + later);
    }
  }

  lemma VotesInStep(events: seq<Event>)
    requires events != []
    ensures VotesIn(events) ==
            if events[0].VoteArrives? then [events[0].vote] + VotesIn(events[1..]) else VotesIn(events[1..])
  {
  }

  lemma VoteIsCounted(c: Collector, e: Event)
    requires c.state.Pending?
    ensures Next(c, e).votes == if e.VoteArrives? then c.votes + [e.vote] else c.votes
  {
    hide Aggregate;
  }

  /** However votes, repeated votes and ticks are mixed, a collector that is still open has an undecided batch. */
  lemma OpenIsUndecided(threshold: Weight, stake: StakeMap, maxRetries: u32, events: seq<Event>)
    requires Run(Fresh(threshold, stake, maxRetries), events).state.Pending?
    ensures VotesIn(events) == [] || Aggregate(VotesIn(events), threshold, stake).Retry?
  {
    hide Aggregate, Run, Next;
    var c := Fresh(threshold, stake, maxRetries);
    RunIsSound(c, events);
    OpenCountsAll(c, events);
    assert c.votes + VotesIn(events) == VotesIn(events);
  }

  /**
   * A vote on an open collector closes it by what the stakes come to once the runner's stake has left
   * the other side, if it was there, and joined the side of the vote.
   */
  lemma VoteDecides(c: Collector, v: Vote)
    requires c.state.Pending? && Fits(c.stake)
    ensures var after, stake := Next(c, VoteArrives(v)), StakeOf(c.stake, v.runner);
            var mine, theirs := SideStake(c.votes, v.result, c.stake), SideStake(c.votes, Opposite(v.result), c.stake);
            var joined := mine + if v.runner in Side(c.votes, v.result) then 0 else stake;
            var left := theirs - if v.runner in Side(c.votes, Opposite(v.result)) then stake else 0;
            var pass, fail := if v.result.Passed? then joined else left, if v.result.Passed? then left else joined;
            (after.state.QuorumFailed? <==> fail >= c.threshold) &&
            (after.state.QuorumPassed? <==> fail < c.threshold <= pass)
  {
    VoteMovesStake(c.votes, v, c.stake);
    hide SumStake, Aggregate, Side;
    AggregateByArithmetic(c.votes + [v], c.threshold, c.stake);
  }

  // ---------------------------------------------------------------------
  // Online equals batch

  function Arrivals(votes: seq<Vote>): seq<Event> {
    seq(|votes|, i requires 0 <= i < |votes| => VoteArrives(votes[i]))
  }

  ghost function Online(votes: seq<Vote>, threshold: Weight, stake: StakeMap, maxRetries: u32): AggregationState {
    Run(Fresh(threshold, stake, maxRetries), Arrivals(votes)).state
  }

  /** Each runner votes at most once. */
  predicate OneVoteEach(votes: seq<Vote>) {
    forall i, j :: 0 <= i < j < |votes| ==> votes[i].runner != votes[j].runner
  }

  /** Both sides cannot reach the threshold, or the threshold is zero. */
  ghost predicate NoDoubleQuorum(votes: seq<Vote>, threshold: Weight, stake: StakeMap) {
    threshold == 0 || SideStake(votes, Passed, stake) < threshold || SideStake(votes, Failed, stake) < threshold
  }

  lemma VotersAreRunners(votes: seq<Vote>)
    ensures forall r :: r in Voters(votes) <==> exists i :: 0 <= i < |votes| && votes[i].runner == r
  {
    LatestIsCast(votes);
    forall r ensures r in Voters(votes) <==> exists i :: 0 <= i < |votes| && votes[i].runner == r {
      if r in Voters(votes) {
        var i :| 0 <= i < |votes| && votes[i] == Vote(r, Latest(votes)[r]);
      }
    }
  }

  lemma HeadAndTail(done: seq<Vote>, later: seq<Vote>)
    requires later != [] && OneVoteEach(done + later)
    ensures FromUnvoted(done, later) && FromUnvoted(done + [later[0]], later[1..])
    ensures done + later == done + [later[0]] + later[1..]
  {
    var all := done + later;
    VotersAreRunners(done);
    VotersAreRunners(later);
    VotersAreRunners(done + [later[0]]);
    VotersAreRunners(later[1..]);
    forall i, j | 0 <= i < |done| && 0 <= j < |later| ensures done[i].runner != later[j].runner {
      assert all[i] == done[i] && all[|done| + j] == later[j];
    }
    forall j | 1 <= j < |later| ensures later[0].runner != later[j].runner {
      assert all[|done|] == later[0] && all[|done| + j] == later[j];
    }
  }

  lemma {:induction false} FeedEqualsBatch(c: Collector, later: seq<Vote>)
    requires c.state.Pending? && Fits(c.stake) && OneVoteEach(c.votes + later)
    requires later == [] ==> Tally(c).Retry?
    requires NoDoubleQuorum(c.votes + later, c.threshold, c.stake)
    ensures Run(c, Arrivals(later)).state ==
            FromOutcome(Aggregate(c.votes + later, c.threshold, c.stake))
    decreases |later|
  {
    if later == [] {
      assert c.votes + later == c.votes;
    } else {
      var c' := Next(c, VoteArrives(later[0]));
      assert Arrivals(later)[1..] == Arrivals(later[1..]);
      HeadAndTail(c.votes, later);
      if c'.state.Pending? {
        FeedEqualsBatch(c', later[1..]);
      } else {
        TerminalIsSticky(c', Arrivals(later[1..]));
        TerminalMatchesBatch(c', later[1..]);
      }
    }
  }

  lemma TerminalMatchesBatch(c: Collector, later: seq<Vote>)
    requires Fits(c.stake) && FromUnvoted(c.votes, later)
    requires Terminal(c.state) && c.state == FromOutcome(Tally(c))
    requires NoDoubleQuorum(c.votes + later, c.threshold, c.stake)
    ensures c.state == FromOutcome(Aggregate(c.votes + later, c.threshold, c.stake))
  {
    match Tally(c) {
      case Fail => FailIsFinal(c.votes, later, c.threshold, c.stake);
      case Escalate => EscalateIsFinal(c.votes, later, c.threshold, c.stake);
      case Pass =>
        AggregateByArithmetic(c.votes, c.threshold, c.stake);
        AggregateByArithmetic(c.votes + later, c.threshold, c.stake);
        SidesOfConcat(c.votes, later, Passed, c.stake);
    }
  }

  /** Passing votes first, then failing ones. */
  function PassesFirst(votes: seq<Vote>): seq<Vote> {
    Only(votes, Passed) + Only(votes, Failed)
  }

  function Only(votes: seq<Vote>, result: VoteResult): seq<Vote> {
    if votes == [] then []
    else (if votes[0].result == result then [votes[0]] else []) + Only(votes[1..], result)
  }

  lemma {:induction false} OnlyIsPart(votes: seq<Vote>, result: VoteResult)
    ensures forall v :: v in Only(votes, result) ==> v in votes && v.result == result
  {
    if votes == [] {
    } else {
      OnlyIsPart(votes[1..], result);
    }
  }

  lemma {:induction false} OnlyOneVote(votes: seq<Vote>, result: VoteResult)
    requires OneVoteEach(votes)
    ensures OneVoteEach(Only(votes, result))
  {
    if votes == [] {
    } else {
      OnlyOneVote(votes[1..], result);
      OnlyIsPart(votes[1..], result);
      forall v | v in votes[1..] ensures v.runner != votes[0].runner {
        var i :| 0 <= i < |votes[1..]| && votes[1..][i] == v;
        assert votes[i + 1] == v;
      }
    }
  }

  lemma OnlyCons(first: Vote, rest: seq<Vote>, result: VoteResult)
    ensures Only([first] + rest, result) ==
            if first.result == result then [first] + Only(rest, result) else Only(rest, result)
  {
    assert ([first] + rest)[1..] == rest;
  }

  lemma InsertedAnywhere(v: Vote, a: seq<Vote>, b: seq<Vote>)
    ensures multiset(([v] + a) + b) == multiset{v} + multiset(a + b)
    ensures multiset(a + ([v] + b)) == multiset{v} + multiset(a + b)
  {
  }

  lemma {:induction false} PassesFirstPermutes(votes: seq<Vote>)
    ensures multiset(PassesFirst(votes)) == multiset(votes)
  {
    if votes == [] {
      assert PassesFirst([]) == [];
    } else {
      hide Only;
      PassesFirstPermutes(votes[1..]);
      assert votes == [votes[0]] + votes[1..];
      OnlyCons(votes[0], votes[1..], Passed);
      OnlyCons(votes[0], votes[1..], Failed);
      InsertedAnywhere(votes[0], Only(votes[1..], Passed), Only(votes[1..], Failed));
    }
  }

  lemma OnlySides(votes: seq<Vote>, stake: StakeMap)
    requires OneVoteEach(votes)
    ensures SideStake(Only(votes, Passed), Passed, stake) == SideStake(votes, Passed, stake)
    ensures SideStake(Only(votes, Passed), Failed, stake) == 0
  {
    hide SumStake;
    var p, f := Only(votes, Passed), Only(votes, Failed);
    OnlyIsPart(votes, Passed);
    OnlyIsPart(votes, Failed);
    LatestIsCast(p);
    LatestIsCast(f);
    assert Latest(votes) == Latest(p) + Latest(f) by {
      PassesFirstPermutes(votes);
      OneVoteIsConsistent(votes);
      SameVotesSameLatest(votes, PassesFirst(votes));
      LatestOfConcat(p, f);
    }
    forall r ensures r in Latest(p) ==> r !in Latest(f) {
      OneVoteIsConsistent(votes);
    }
    hide Latest, Only;
    assert Side(p, Failed) == {};
    assert Side(p, Passed) == Side(votes, Passed);
    SumOfNone(stake);
  }

  lemma OneVoteIsConsistent(votes: seq<Vote>)
    requires OneVoteEach(votes)
    ensures Consistent(votes)
  {
    forall v, w | v in votes && w in votes && v.runner == w.runner ensures v == w {
      var i, j :| 0 <= i < |votes| && 0 <= j < |votes| && votes[i] == v && votes[j] == w;
      assert i == j;
    }
  }

  ghost predicate AllOrdersAgree(votes: seq<Vote>, threshold: Weight, stake: StakeMap, maxRetries: u32) {
    forall order :: multiset(order) == multiset(votes) ==>
      Online(order, threshold, stake, maxRetries) == FromOutcome(Aggregate(votes, threshold, stake))
  }

  lemma {:induction false} RunSplit(c: Collector, a: seq<Event>, b: seq<Event>)
    ensures Run(c, a + b) == Run(Run(c, a), b)
    decreases |a|
  {
    if a == [] {
      assert a + b == b;
    } else {
      assert (a + b)[1..] == a[1..] + b;
      RunSplit(Next(c, a[0]), a[1..], b);
    }
  }

  /** Fed its passing votes first, a collector with a double quorum passes although the batch fails. */
  lemma PassesFirstPasses(votes: seq<Vote>, threshold: Weight, stake: StakeMap, maxRetries: u32)
    requires OneVoteEach(votes) && Fits(stake) && !NoDoubleQuorum(votes, threshold, stake)
    ensures Online(PassesFirst(votes), threshold, stake, maxRetries).QuorumPassed?
    ensures Aggregate(votes, threshold, stake).Fail?
  {
    hide SumStake, Aggregate, Side, Next;
    var p, f := Only(votes, Passed), Only(votes, Failed);
    var c := Fresh(threshold, stake, maxRetries);
    OnlyOneVote(votes, Passed);
    OnlySides(votes, stake);
    NoVotes(p, stake);
    AggregateByArithmetic(votes, threshold, stake);
    AggregateByArithmetic(p, threshold, stake);
    assert c.votes + p == p;
    FeedEqualsBatch(c, p);
    RunSplit(c, Arrivals(p), Arrivals(f));
    assert Arrivals(p + f) == Arrivals(p) + Arrivals(f);
    TerminalIsSticky(Run(c, Arrivals(p)), Arrivals(f));
  }

  /** Two runners of stake one on opposite sides of threshold one: the first to arrive wins. */
  lemma FirstOfTwoWins(maxRetries: u32)
    ensures var votes, stake := [Vote(1, Passed), Vote(2, Failed)], map[1 := 1, 2 := 1];
            Online(votes, 1, stake, maxRetries).QuorumPassed? && Aggregate(votes, 1, stake).Fail?
  {
    hide Aggregate, Online;
    var votes, stake := [Vote(1, Passed), Vote(2, Failed)], map[1 := 1, 2 := 1];
    TwoSides(votes, stake, 1);
    assert PassesFirst(votes) == votes by {
      assert votes[..1] == [Vote(1, Passed)] && [Vote(1, Passed)][..0] == [];
    }
    PassesFirstPasses(votes, 1, stake, maxRetries);
  }

  lemma TwoSides(votes: seq<Vote>, stake: StakeMap, each: Weight)
    requires votes == [Vote(1, Passed), Vote(2, Failed)] && stake == map[1 := each, 2 := each] && 2 * each <= U64_MAX
    ensures SideStake(votes, Passed, stake) == each && SideStake(votes, Failed, stake) == each && Fits(stake)
  {
    assert votes[..1] == [Vote(1, Passed)] && [Vote(1, Passed)][..0] == [];
    assert Latest(votes) == map[1 := Passed, 2 := Failed];
    assert Side(votes, Passed) == {1} && Side(votes, Failed) == {2};
    assert stake.Keys == {1, 2} == {1} + {2};
    SumPick({1}, 1, stake);
    SumPick({2}, 2, stake);
    assert {1} - {1} == {} && {2} - {2} == {};
    SumUnion({1}, {2}, stake);
  }

  /**
   * Online equals batch, exactly: for one vote per runner, every order of arrival ends in the
   * state the batch tally gives if and only if the two sides cannot both reach a positive threshold.
   */
  lemma OnlineEqualsBatchIff(votes: seq<Vote>, threshold: Weight, stake: StakeMap, maxRetries: u32)
    requires OneVoteEach(votes) && Fits(stake) && votes != []
    ensures AllOrdersAgree(votes, threshold, stake, maxRetries) <==> NoDoubleQuorum(votes, threshold, stake)
  {
    if NoDoubleQuorum(votes, threshold, stake) {
      forall order | multiset(order) == multiset(votes)
        ensures Online(order, threshold, stake, maxRetries) == FromOutcome(Aggregate(votes, threshold, stake))
      {
        OneVoteIsConsistent(votes);
        SameVotesSameLatest(votes, order);
        PermutedOneVote(votes, order);
        assert [] + order == order;
        FeedEqualsBatch(Fresh(threshold, stake, maxRetries), order);
      }
    } else {
      PassesFirstPasses(votes, threshold, stake, maxRetries);
      PassesFirstPermutes(votes);
    }
  }

  lemma PermutedOneVote(a: seq<Vote>, b: seq<Vote>)
    requires OneVoteEach(a) && multiset(a) == multiset(b)
    ensures OneVoteEach(b) && |a| == |b|
  {
    assert |multiset(a)| == |a| && |multiset(b)| == |b|;
    forall i, j | 0 <= i < j < |b| ensures b[i].runner != b[j].runner {
      SameMembers(a, b);
      if b[i] == b[j] {
        TwiceInMultiset(b, i, j);
        OnceInMultiset(a, b[i]);
      } else {
        assert b[i] in a && b[j] in a;
        OneVoteIsConsistent(a);
      }
    }
  }

  lemma TwiceInMultiset(s: seq<Vote>, i: nat, j: nat)
    requires i < j < |s| && s[i] == s[j]
    ensures multiset(s)[s[i]] >= 2
  {
    assert s == s[..i] + [s[i]] + s[i + 1..j] + [s[j]] + s[j + 1..];
  }

  lemma OnceInMultiset(s: seq<Vote>, v: Vote)
    requires OneVoteEach(s)
    ensures multiset(s)[v] <= 1
  {
    if s != [] {
      var n := |s| - 1;
      OnceInMultiset(s[..n], v);
      assert s == s[..n] + [s[n]];
      if s[n] == v {
        assert v !in s[..n];
      }
    }
  }

  /** No votes at all: the collector is still open, the batch only for a reachable threshold. */
  lemma OnlineOfNothing(threshold: Weight, stake: StakeMap, maxRetries: u32)
    requires Fits(stake)
    ensures Online([], threshold, stake, maxRetries) == FromOutcome(Aggregate([], threshold, stake)) <==>
            0 < threshold <= TotalStake(stake)
  {
    EmptyInput(threshold, stake);
  }

  /**
   * The first tick of a collector without votes: a threshold out of reach escalates at once, whatever
   * the retry budget; one within reach is retried while there is a budget.
   */
  lemma FirstTick(threshold: Weight, stake: StakeMap, maxRetries: u32)
    requires Fits(stake)
    ensures Next(Fresh(threshold, stake, maxRetries), Tick).state ==
            if threshold == 0 then QuorumFailed
            else if threshold > TotalStake(stake) || maxRetries == 0 then Escalated
            else Pending
  {
    hide Aggregate;
    EmptyInput(threshold, stake);
  }

  /** A threshold above half of the voters' stake is enough. */
  lemma MajorityThreshold(votes: seq<Vote>, threshold: Weight, stake: StakeMap, maxRetries: u32)
    requires OneVoteEach(votes) && Fits(stake) && votes != []
    requires 2 * threshold > SumStake(Voters(votes), stake)
    ensures AllOrdersAgree(votes, threshold, stake, maxRetries)
  {
    SidesPartition(votes, stake);
    OnlineEqualsBatchIff(votes, threshold, stake, maxRetries);
  }

  // ---------------------------------------------------------------------
  // The mutable collector

  class VoteAggregator {
    var state: AggregationState
    var votes: seq<Vote>
    const threshold: Weight
    const stake: StakeMap
    var retries: u32
    const maxRetries: u32

    ghost function Model(): Collector
      reads this
    {
      Collector(state, votes, threshold, stake, retries, maxRetries)
    }

    constructor (threshold: Weight, stake: StakeMap, maxRetries: u32)
      ensures Model() == Fresh(threshold, stake, maxRetries)
    {
      state, votes, retries := Pending, [], 0;
      this.threshold, this.stake, this.maxRetries := threshold, stake, maxRetries;
    }

    method ReceiveVote(vote: Vote) returns (s: AggregationState)
      modifies this
      ensures Model() == Next(old(Model()), VoteArrives(vote)) && s == state
    {
      if Terminal(state) {
        return state;
      }
      votes := votes + [vote];
      var o := AggregateVotes(votes, threshold, stake);
      state := FromOutcome(o);
      return state;
    }

    method TriggerAggregation() returns (s: AggregationState)
      modifies this
      ensures Model() == Next(old(Model()), Tick) && s == state
    {
      if Terminal(state) {
        return state;
      }
      var o := AggregateVotes(votes, threshold, stake);
      if o.Retry? {
        retries := NextRetries(retries);
        state := if retries > maxRetries then Escalated else Pending;
      } else {
        state := FromOutcome(o);
      }
      return state;
    }

    method Timeout() returns (s: AggregationState)
      modifies this
      ensures Model() == Next(old(Model()), Deadline) && s == state
    {
      if Terminal(state) {
        return state;
      }
      var o := AggregateVotes(votes, threshold, stake);
      state := if o.Pass? || o.Fail? then FromOutcome(o) else Escalated;
      return state;
    }
  }
}
