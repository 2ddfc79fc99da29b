# CosaCI state machines in Dafny

CosaCI is a distributed continuous-integration coordinator: committees of runners execute jobs, vote
with their stake, and the agreed artifact is anchored in an append-only Merkle log. This project
models the state and algebra behind it and proves what holds over every input, every run and every
crash point.

Each source file has a module of its own. A state the source updates in place is a class; its methods
are proved equal to a step function on values, and the theorems are about runs of that function. Loops
of the source are loops here.

- `Sharding`, `Handoff` (with `Bits`): key routing on 64-bit words, the atomically rebalanced store, and
  the phased handoff that must look like one map at every moment.
- `Quorum`, `Aggregator`, `PartialQuorum`: stake-weighted vote folding, the online collector, dropouts.
- `Lease`, `Cluster`: lazy lease expiry and two replicas under partition and heal.
- `RateLimit`, `Replay`, `Admission`: the four-stage submission gate.
- `Journal`, `JobRun`, `Coordinator`, `StakeLedger`, `Capabilities` (with `Attestation`): what one
  coordinator process writes, what a crash leaves, slashing, committee choice.
- `Gossip`, `MerkleLog`, `Retrieval`: last-writer-wins convergence, the log, its peaks and bundles.
- `Hex`, `Text`, `Tenant`, `TenantAdmin`: the tenants file, its loader and its line editor.

`dafny verify dfyconfig.toml` checks the whole project.

## Modelling choices

- Every clock reading is a parameter, and runs require readings that do not decrease. The cluster uses
  one reading per operation; the lease manager keeps the sweep reading and the stamp reading apart.
- Hash-map iteration order is arbitrary: loops pick any remaining key.
- SHA-256, signature checks, canonical encodings and the Merkle tree library are function-valued
  parameters; nothing is required of them except where a theorem says so (`KeysApart` for
  `TenantIsolation`: within the run, no other submission folds to a replay key of the tenant's own;
  `Accepting` for `ProofChecks`, `BundleChecks` and `EvidenceChecks`: the checker accepts each leaf's own path).
- `u64` and `u32` arithmetic is written out: saturating where the source saturates, wrapping where it uses
  plain `sum` and `* 2` (release builds wrap, debug builds stop). Theorems about stakes say where they need
  a sum to fit. `usize` is 64 bits wide.
- The slash fraction is an exact rational in place of a floating-point number.
- A library sort is modelled as a stable insertion sort.
- The journal is taken to be configured. A coordinator process starts with an empty journal and log, and
  each durable write succeeds or the process dies.

## Where code and documentation differ

The model follows the code.

- `heal` empties the minority and does not copy the majority to it (crates/cosaci-state/src/replicated_cluster.rs:15-18
  speaks of starting from the majority's state): `HealLosesALease`, `HealAgreesIff`,
  `HealThenQuietReconverges`.
- The gate is documented to consume limiter and replay guard only on Ok
  (crates/cosaci-state/src/submission_auth.rs:163-167). A RateLimited submission has already recorded its
  nonce: `RateLimitedIff`, `RejectedYetRecordedIff`, `RetryIsReplayIff`, `LimitedThenReplayed`.
- Re-anchoring is called idempotent at the log level (crates/cosaci-state/src/journal.rs:30). It appends a
  second copy exactly after a crash between append and record: `OrphanedIff`, `ReAnchorIsCleanIff`,
  `OrphanWitness`. The re-anchor set also holds every settled job that did not pass: `PendingAfterCleanStop`.
- Voting order and arrival order are irrelevant only under exact conditions: `OrderInsensitiveIff`,
  `OnlineEqualsBatchIff`. No votes at all is not always Retry: `EmptyInput`.
- The two-thirds threshold is two thirds only while the doubled stake fits a `u64`: `ThresholdIsTwoThirdsIff`,
  `WrappedThresholdSplits`. A Pass is booked under the runner an attestation names, which is not compared with
  the agent that signed it: `BackedIff`, `BorrowedVotePasses`.
- Revoking a tenant keeps the other lines byte for byte only if each of them ends in a bare line feed:
  `RevokedVerbatimIff`, `RevokeRewritesTerminators`.

## Model

| member | source | states |
|---|---|---|
| `Sharding.UnmixAfterMix` | crates/cosaci-state/src/sharding.rs:41-49 | The 64-bit mix in front of the modulo is injective: an explicit inverse built from modular inverses of the two odd multipliers and from the self-inverse 33-bit xor-shift gives every key back |
| `Sharding.MixAfterUnmix` | crates/cosaci-state/src/sharding.rs:41-49 | The mix is onto: every 64-bit word is the mix of some key, so with the row above it is a bijection |
| `Sharding.Fold33IsInvolution` | crates/cosaci-state/src/sharding.rs:45-47 | The 33-bit xor-shift undoes itself on every 64-bit word |
| `Sharding.MultiplierInverts` | crates/cosaci-state/src/sharding.rs:44-46 | Wrapping multiplication by an odd constant is undone by wrapping multiplication with its inverse modulo 2^64 |
| `Sharding.ShardOf` | crates/cosaci-state/src/sharding.rs:41-49 | The shard index is below the shard count |
| `Sharding.RoutedByRemainder` | crates/cosaci-state/src/sharding.rs:41-49 | Shard i owns exactly the keys whose mixed word leaves remainder i: the key that mixes to h is routed to h modulo the shard count |
| `Sharding.EveryShardIsUsed` | crates/cosaci-state/src/sharding.rs:41-49 | For any shard count up to 2^64 every shard owns a key |
| `Sharding.KnownAnswers` | crates/cosaci-state/src/sharding.rs:41-49 | Known answers: the offset basis itself goes to shard 0 and its neighbour to the shard of 0x8482acf1dfd68faf, for every shard count |
| `Sharding.RouteKey` | crates/cosaci-state/src/sharding.rs:41-49 | The step-by-step update of the hash computes the routing function |
| `Sharding.InsertIsUpdate` | crates/cosaci-state/src/sharding.rs:97-100 | Inserting into the owning shard is one update of the flat map, and routing is kept |
| `Sharding.DeleteIsRemoval` | crates/cosaci-state/src/sharding.rs:110-113 | Removing from the owning shard removes exactly that key from the flat map, and routing is kept |
| `Sharding.LookupIsFind` | crates/cosaci-state/src/sharding.rs:104-107 | Looking in the owning shard answers as the flat map does |
| `Sharding.RoutedIsLayout` | crates/cosaci-state/src/sharding.rs:142-153 | A routed shard vector is determined by its flat map and its shard count |
| `Sharding.LayoutIsRouted` | crates/cosaci-state/src/sharding.rs:142-153 | Laying a flat map out over n shards is routed and loses, adds or changes nothing |
| `Sharding.LoadIsSize` | crates/cosaci-state/src/sharding.rs:85-87 | The shard sizes add up to the number of keys: none is counted twice |
| `Sharding.InsertAll` | crates/cosaci-state/src/sharding.rs:149-152 | The refill loop adds a whole map, whatever order the hash map yields its entries in |
| `Sharding.Collect` | crates/cosaci-state/src/sharding.rs:144-147 | The drain loop collects exactly the flat map |
| `Sharding.ShardedStore.constructor` | crates/cosaci-state/src/sharding.rs:70-75 | A new store is empty with the requested number of shards |
| `Sharding.ShardedStore.Put` | crates/cosaci-state/src/sharding.rs:97-100 | Contents become the old contents with the key set |
| `Sharding.ShardedStore.Get` | crates/cosaci-state/src/sharding.rs:104-107 | Answers what the contents hold |
| `Sharding.ShardedStore.Remove` | crates/cosaci-state/src/sharding.rs:110-113 | Returns the old value and removes the key alone |
| `Sharding.ShardedStore.Len` | crates/cosaci-state/src/sharding.rs:85-87 | The number of keys in the contents |
| `Sharding.ShardedStore.Rebalance` | crates/cosaci-state/src/sharding.rs:142-153 | Contents are unchanged and every key ends in the shard that owns it among the new count |
| `Handoff.StepRefines` | crates/cosaci-state/src/sharding_handoff.rs:77-170 | Every operation keeps the two shard sets routed and disjoint, acts on their union as the same operation on one flat map, and gives the same answer |
| `Handoff.RunRefines` | crates/cosaci-state/src/sharding_handoff.rs:77-170 | Every interleaving of put, get, remove, begin, migrate and complete is a run of one flat map, answer for answer |
| `Handoff.OneHome` | crates/cosaci-state/src/sharding_handoff.rs:77-115 | A live key is in exactly one of the two shard sets, in the shard that owns it there |
| `Handoff.MoveRefines` | crates/cosaci-state/src/sharding_handoff.rs:134-145 | A migration step keeps both shard sets routed and disjoint and changes no contents |
| `Handoff.MigrateMoves` | crates/cosaci-state/src/sharding_handoff.rs:134-145 | A step on a key of the old shards puts its value in the new shards, takes it out of the old ones, leaves every other key at home in both sets and lowers the old load by one; on any other key it changes nothing |
| `Handoff.StepHomes` | crates/cosaci-state/src/sharding_handoff.rs:77-159 | What every operation does to the two shard sets separately, as one step on two flat maps |
| `Handoff.RunHomes` | crates/cosaci-state/src/sharding_handoff.rs:77-159 | The same over every run: which of the two sets holds each key, and with what value, at any moment |
| `Handoff.SecondMoveIsRefused` | crates/cosaci-state/src/sharding_handoff.rs:134-145 | A second step on the same key finds nothing to move, whatever comes between short of another rebalance |
| `Handoff.MigratingAllEmpties` | crates/cosaci-state/src/sharding_handoff.rs:134-145 | Migrating every old key, in any order and with repetitions, empties the old shards into the new ones |
| `Handoff.ReadIsFind` | crates/cosaci-state/src/sharding_handoff.rs:91-103 | Looking in the new shards first and then in the old ones answers as the flat map does |
| `Handoff.SizeIsCount` | crates/cosaci-state/src/sharding_handoff.rs:163-170 | The length counts every live key once, also in the middle of a rebalance |
| `Handoff.RebalancingIsInvisible` | crates/cosaci-state/src/sharding_handoff.rs:124-159 | Deleting all rebalancing operations from a run, on any store with the same contents, leaves every remaining answer and the final contents unchanged |
| `Handoff.FinishedEqualsAtomic` | crates/cosaci-state/src/sharding_handoff.rs:149-159 | A run that ends with no rebalance open has the shard contents an atomic rebalance to the same count gives |
| `Handoff.PhasedEqualsAtomic` | crates/cosaci-state/src/sharding_handoff.rs:124-159 | Begin, any traffic and any migration steps, complete: the final state is the atomic rebalance of a store that saw the same traffic |
| `Handoff.HandoffStore.constructor` | crates/cosaci-state/src/sharding_handoff.rs:55-61 | A new store is empty and not migrating |
| `Handoff.HandoffStore.Put` | crates/cosaci-state/src/sharding_handoff.rs:77-86 | The new state is the specified step: written to the new shards, dropped from the old |
| `Handoff.HandoffStore.Get` | crates/cosaci-state/src/sharding_handoff.rs:91-103 | Answers what the flat map holds |
| `Handoff.HandoffStore.Remove` | crates/cosaci-state/src/sharding_handoff.rs:106-115 | Removes from both shard sets and answers with the value the flat map held |
| `Handoff.HandoffStore.BeginRebalance` | crates/cosaci-state/src/sharding_handoff.rs:124-129 | The shards become the previous set beside a fresh one; asked only when no rebalance is open and the count is positive |
| `Handoff.HandoffStore.MigrateStep` | crates/cosaci-state/src/sharding_handoff.rs:134-145 | True exactly when the key was in the old shards; then its value is in the new shards, it is gone from the old ones and their load is one less; every other key keeps its home; on false nothing changes |
| `Handoff.HandoffStore.CompleteRebalance` | crates/cosaci-state/src/sharding_handoff.rs:149-159 | Drains whatever is left of the old shards and ends the rebalance |
| `Handoff.HandoffStore.Len` | crates/cosaci-state/src/sharding_handoff.rs:163-170 | The number of keys of the flat map |
| `Handoff.Absorb` | crates/cosaci-state/src/sharding_handoff.rs:153-158 | The draining loops add every entry of the old shards to the new ones |
| `Quorum.AggregateVotes` | crates/cosaci-core/src/quorum.rs:77-114 | The loops compute the specified outcome: last vote per runner, saturating side weights, wrapping total, fail first |
| `Quorum.WeighSides` | crates/cosaci-core/src/quorum.rs:84-92 | The side weights are the clipped stake sums of the two sides, in any hash-map order |
| `Quorum.SumValues` | crates/cosaci-core/src/quorum.rs:102-102 | The plain sum of the stakes is the total stake modulo 2^64 |
| `Quorum.AggregateByArithmetic` | crates/cosaci-core/src/quorum.rs:95-113 | With a total that fits, the outcome is exactly: fail stake reaches the threshold, else pass stake does, else neither side can with all unvoted stake, else retry |
| `Quorum.SidesPartition` | crates/cosaci-core/src/quorum.rs:84-104 | Pass stake, fail stake and unvoted stake add up to the total |
| `Quorum.RetryIsExact` | crates/cosaci-core/src/quorum.rs:95-113 | An undecided outcome is Retry if and only if some votes of runners that have not voted lead to Pass or Fail, and Escalate if and only if none do |
| `Quorum.EscalateIsFinal` | crates/cosaci-core/src/quorum.rs:102-110 | Escalate stays Escalate whatever runners that have not voted add |
| `Quorum.FailIsFinal` | crates/cosaci-core/src/quorum.rs:95-97 | Fail stays Fail whatever runners that have not voted add |
| `Quorum.PassIsFinalIff` | crates/cosaci-core/src/quorum.rs:95-100 | Pass is final if and only if the fail stake and all unvoted stake together stay below the threshold |
| `Quorum.SupportIsMonotone` | crates/cosaci-core/src/quorum.rs:77-100 | One more vote for the winning side, re-votes included, never takes a Pass or Fail away |
| `Quorum.LatestIsLast` | crates/cosaci-core/src/quorum.rs:78-92 | A runner counts for a side exactly when the last vote it cast is for that side |
| `Quorum.VoteMovesStake` | crates/cosaci-core/src/quorum.rs:78-92 | One more vote adds the runner's stake to its side unless it is there already and takes it from the other side if it was there |
| `Quorum.EmptyInput` | crates/cosaci-core/src/quorum.rs:95-113 | With no votes the outcome is Retry only for a threshold from 1 to the total stake; zero gives Fail, more than the total gives Escalate |
| `Quorum.OrderInsensitiveIff` | crates/cosaci-core/src/quorum.rs:78-92 | The outcome is independent of vote order, for every threshold and stake, if and only if no runner casts both votes |
| `Quorum.RevoteOrderMatters` | crates/cosaci-core/src/quorum.rs:78-92 | One runner voting both ways: the two orders give Fail and Pass |
| `Aggregator.RunIsSound` | crates/cosaci-state/src/aggregator.rs:66-117 | In every run the visible state agrees with the tally of the votes counted, threshold and stakes never change, and votes are only added |
| `Aggregator.TerminalIsSticky` | crates/cosaci-state/src/aggregator.rs:66-117 | After a terminal state no event changes anything |
| `Aggregator.OpenCountsAll` | crates/cosaci-state/src/aggregator.rs:66-102 | An open collector has counted every vote sent to it, repeated ones included, in order; a closed one a prefix of them |
| `Aggregator.OpenIsUndecided` | crates/cosaci-state/src/aggregator.rs:66-102 | However votes, re-votes and ticks are mixed, a collector still open has an undecided batch |
| `Aggregator.VoteDecides` | crates/cosaci-state/src/aggregator.rs:66-78 | A vote on an open collector, re-votes included, closes it by what the side stakes come to once the runner's stake has moved to its new side |
| `Aggregator.FirstTick` | crates/cosaci-state/src/aggregator.rs:84-102 | The first tick without votes: a threshold out of reach escalates at once whatever the budget, one within reach is retried while there is a budget |
| `Aggregator.RetryBudget` | crates/cosaci-state/src/aggregator.rs:84-102 | An undecided collector survives n ticks if and only if they stay within the budget; a budget of the largest u32 is never exhausted; exhaustion is Escalated |
| `Aggregator.BudgetOverRun` | crates/cosaci-state/src/aggregator.rs:66-102 | Over any run of votes and ticks: still open means the ticks are within the budget; escalated means past saving or the budget used up |
| `Aggregator.FeedEqualsBatch` | crates/cosaci-state/src/aggregator.rs:66-78 | From any open collector, feeding further votes ends in the state the batch tally of all votes gives, although votes after the terminal one are dropped |
| `Aggregator.OnlineEqualsBatchIff` | crates/cosaci-state/src/aggregator.rs:66-78 | With one vote per runner, every order of arrival ends in the batch outcome if and only if the two sides cannot both reach a positive threshold |
| `Aggregator.MajorityThreshold` | crates/cosaci-state/src/aggregator.rs:66-78 | A threshold above half of the voters' stake makes every order of arrival agree with the batch |
| `Aggregator.PassesFirstPasses` | crates/cosaci-state/src/aggregator.rs:66-78 | Where both sides reach the threshold, feeding the passing votes first passes although the batch fails |
| `Aggregator.FirstOfTwoWins` | crates/cosaci-state/src/aggregator.rs:66-78 | Two runners of stake one on opposite sides of threshold one: online passes, batch fails |
| `Aggregator.OnlineOfNothing` | crates/cosaci-state/src/aggregator.rs:52-61 | With no vote at all, online and batch agree if and only if the threshold is from 1 to the total stake |
| `Aggregator.VoteAggregator.constructor` | crates/cosaci-state/src/aggregator.rs:52-61 | Starts pending with no votes and no retries |
| `Aggregator.VoteAggregator.ReceiveVote` | crates/cosaci-state/src/aggregator.rs:66-78 | One vote event of the specification, returning the new state |
| `Aggregator.VoteAggregator.TriggerAggregation` | crates/cosaci-state/src/aggregator.rs:84-102 | One tick of the specification, returning the new state |
| `Aggregator.VoteAggregator.Timeout` | crates/cosaci-state/src/aggregator.rs:107-117 | One deadline of the specification, returning the new state |
| `PartialQuorum.Resolve` | crates/cosaci-state/src/partial_quorum.rs:54-87 | The loops split the committee into voters and non-voters in committee order, sum the voters' stake on a machine word and aggregate under the threshold function |
| `PartialQuorum.SumOnWord` | crates/cosaci-state/src/partial_quorum.rs:73-76 | The plain sum is the listed stake modulo 2^64 |
| `PartialQuorum.ThresholdIsTwoThirdsIff` | crates/cosaci-state/src/partial_quorum.rs:91-93 | The code's threshold is two thirds of the stake rounded up if and only if the doubled stake fits a u64 |
| `PartialQuorum.PickPartitions` | crates/cosaci-state/src/partial_quorum.rs:60-71 | Responding and missing members together are the committee, multiplicities included |
| `PartialQuorum.PickSelects` | crates/cosaci-state/src/partial_quorum.rs:60-71 | A member is responding exactly when it voted, missing exactly when it did not |
| `PartialQuorum.ListStakeIsSum` | crates/cosaci-state/src/partial_quorum.rs:73-76 | For a committee without repeats the list sum is the set sum |
| `PartialQuorum.ResolvedInAnyOrderIff` | crates/cosaci-state/src/partial_quorum.rs:54-93 | With one vote per member, every online order of arrival ends in the resolved outcome if and only if the doubled responding stake fits a u64 or the wrapped threshold is out of reach of one side |
| `PartialQuorum.WrappedThresholdSplits` | crates/cosaci-state/src/partial_quorum.rs:91-93 | Two members of stake 2^62 + 1 on opposite sides: the threshold wraps to 2, both sides reach it and the order of arrival decides |
| `Lease.RunKeepsInv` | crates/cosaci-state/src/lease.rs:110-202 | In every run with fewer than 2^64 acquires, however many other calls, the pair index is exactly the set of Active leases and identifiers are never reused |
| `Lease.SweepTwice` | crates/cosaci-state/src/lease.rs:146-160 | An earlier sweep is invisible to a later one |
| `Lease.AdvanceIsSweep` | crates/cosaci-state/src/lease.rs:146-160 | Sweeping at every instant up to a time is one sweep at that time |
| `Lease.LazyEqualsEager` | crates/cosaci-state/src/lease.rs:110-202 | In every run, every answer is the one given by a manager that expires each lease exactly at its deadline |
| `Lease.ClosedIsFinal` | crates/cosaci-state/src/lease.rs:134-160 | A completed or expired lease never changes again |
| `Lease.StepOnLease` | crates/cosaci-state/src/lease.rs:110-160 | One call changes a lease only by its deadline or by its own completion |
| `Lease.LeaseLife` | crates/cosaci-state/src/lease.rs:110-202 | The state of a lease at any time depends only on its deadline and on whether it was completed before it |
| `Lease.GrantLife` | crates/cosaci-state/src/lease.rs:54-56 | In plain numbers, through any run: completed if a completion came less than a TTL after the grant, else active until a TTL after the grant, then expired; the clock's last instant is past every deadline |
| `Lease.HolderIsLive` | crates/cosaci-state/src/lease.rs:110-174 | The lease reported for a pair is the one live lease of that pair, and an acquire is refused exactly while there is one |
| `Lease.CountsAreLive` | crates/cosaci-state/src/lease.rs:177-196 | The counts, in all and per job, are the numbers of live leases, and the pairs reported are theirs |
| `Lease.GrantsNeverOverlap` | crates/cosaci-state/src/lease.rs:110-129 | Two grants to one (job, runner) pair never overlap: the first was completed in time or its deadline has passed |
| `Lease.LeaseManager.constructor` | crates/cosaci-state/src/lease.rs:90-98 | Starts empty, with identifiers from 1 |
| `Lease.LeaseManager.Tick` | crates/cosaci-state/src/lease.rs:146-160 | The sweep loop expires exactly the leases that are due and drops their pairs |
| `Lease.LeaseManager.Acquire` | crates/cosaci-state/src/lease.rs:110-129 | One acquire of the specification, with its grant or refusal |
| `Lease.LeaseManager.Complete` | crates/cosaci-state/src/lease.rs:134-142 | One completion of the specification |
| `Lease.LeaseManager.ActiveLeaseFor` | crates/cosaci-state/src/lease.rs:171-174 | Sweeps, then answers from the index |
| `Lease.LeaseManager.CountActiveForJob` | crates/cosaci-state/src/lease.rs:177-183 | Sweeps, then counts the pairs of the job |
| `Lease.LeaseManager.StateOfLease` | crates/cosaci-state/src/lease.rs:199-202 | Sweeps, then answers the state of the lease |
| `Cluster.RunKeepsInv` | crates/cosaci-state/src/replicated_cluster.rs:87-152 | In every run both replicas stay sound and hold no lease from the future |
| `Cluster.AgreementIsVisible` | crates/cosaci-state/src/replicated_cluster.rs:87-152 | Replicas that agree cannot be told apart by any query or acquire at any later time |
| `Cluster.StepKeepsAgreement` | crates/cosaci-state/src/replicated_cluster.rs:87-152 | A step of a connected cluster keeps the replicas in agreement |
| `Cluster.Lockstep` | crates/cosaci-state/src/replicated_cluster.rs:87-102 | Through every partition-free run agreeing connected replicas stay in lockstep |
| `Cluster.FreshLockstep` | crates/cosaci-state/src/replicated_cluster.rs:68-102 | Every partition-free run of a new cluster keeps the replicas observably equal |
| `Cluster.SidesAreAlone` | crates/cosaci-state/src/replicated_cluster.rs:87-102 | While partitioned, each side is a lease manager of its own, driven by its own calls and by nothing the other side does |
| `Cluster.HealAgreesIff` | crates/cosaci-state/src/replicated_cluster.rs:114-121 | Right after a heal the replicas agree if and only if the majority holds no live lease |
| `Cluster.WinnerSurvives` | crates/cosaci-state/src/replicated_cluster.rs:106-121 | From partition to heal: the side named as majority comes out as its own calls leave it, the other side empty |
| `Cluster.HealCounts` | crates/cosaci-state/src/replicated_cluster.rs:114-143 | After a heal each pair the majority holds is held by exactly one side, and no other pair is held |
| `Cluster.AcquireLands` | crates/cosaci-state/src/replicated_cluster.rs:87-102 | A granted acquire is held at once by the side asked and, with the link up, by the other; with the link down the other side is untouched; a zero TTL or the clock's last instant grants a lease nobody holds |
| `Cluster.CountIsSides` | crates/cosaci-state/src/replicated_cluster.rs:140-143 | The global count is the number of sides that report the pair held |
| `Cluster.AnswersAreLive` | crates/cosaci-state/src/replicated_cluster.rs:131-152 | A side reports a pair held exactly when one of its leases for it is live, and the job count adds up the live leases of both sides |
| `Cluster.HealLosesALease` | crates/cosaci-state/src/replicated_cluster.rs:114-121 | A lease both replicas held before the partition is held by one of them after the heal |
| `Cluster.HealThenQuietReconverges` | crates/cosaci-state/src/replicated_cluster.rs:87-121 | If no acquire comes for one full TTL after the heal, the replicas agree again and stay in lockstep through every later partition-free run |
| `Cluster.TwoReplicaCluster.constructor` | crates/cosaci-state/src/replicated_cluster.rs:68-77 | Two empty replicas, connected |
| `Cluster.TwoReplicaCluster.Acquire` | crates/cosaci-state/src/replicated_cluster.rs:87-102 | One acquire of the specification: on the target side, and on the other side when connected and granted |
| `Cluster.TwoReplicaCluster.BeginPartition` | crates/cosaci-state/src/replicated_cluster.rs:106-109 | Cuts the link and names the majority |
| `Cluster.TwoReplicaCluster.HealPartition` | crates/cosaci-state/src/replicated_cluster.rs:114-121 | One heal of the specification |
| `Cluster.TwoReplicaCluster.SideHasActive` | crates/cosaci-state/src/replicated_cluster.rs:131-135 | Whether the side holds the pair |
| `Cluster.TwoReplicaCluster.GlobalActiveCount` | crates/cosaci-state/src/replicated_cluster.rs:140-143 | On how many sides the pair is held |
| `RateLimit.EarnedBound` | crates/cosaci-state/src/rate_limit.rs:40-47 | A refill never pays out more than rate times elapsed time, truncation included |
| `RateLimit.EarnedIsFloor` | crates/cosaci-state/src/rate_limit.rs:40-47 | A gap earns rate times elapsed time in whole tokens, rounded down, if and only if that number fits a u64 |
| `RateLimit.RefillAdds` | crates/cosaci-state/src/rate_limit.rs:40-47 | A refill adds exactly the whole tokens the gap earned, up to the capacity |
| `RateLimit.FirstRequest` | crates/cosaci-state/src/rate_limit.rs:29-117 | A tenant's first request is admitted exactly when the capacity covers it, leaves the rest of the capacity and no other bucket changed |
| `RateLimit.FirstBurst` | crates/cosaci-state/src/rate_limit.rs:29-59 | A tenant never seen before has exactly its capacity admitted at once |
| `RateLimit.ConsumePaysPotential` | crates/cosaci-state/src/rate_limit.rs:40-59 | Each unit admitted is paid from tokens held plus what can still be earned; waiting creates nothing |
| `RateLimit.ConsumeCaps` | crates/cosaci-state/src/rate_limit.rs:40-59 | After any request the bucket is within capacity and refilled at the time of the request |
| `RateLimit.StarvesIff` | crates/cosaci-state/src/rate_limit.rs:40-59 | An empty polled bucket never admits if and only if it has no capacity or no single gap earns a token after division and truncation |
| `RateLimit.FastPollingStarves` | crates/cosaci-state/src/rate_limit.rs:40-59 | An empty bucket polled faster than whole tokens are earned never admits again |
| `RateLimit.PacedIsServed` | crates/cosaci-state/src/rate_limit.rs:40-59 | A client that waits for a whole token before every request is never turned down |
| `RateLimit.BurstIsExact` | crates/cosaci-state/src/rate_limit.rs:29-59 | Of any number of requests at one instant exactly as many are admitted as the bucket holds tokens |
| `RateLimit.RateLimiter.AcceptWithConfig` | crates/cosaci-state/src/rate_limit.rs:104-117 | One request of the specification: a full bucket with the given parameters on first sight, the stored one afterwards |
| `Replay.RunMirrors` | crates/cosaci-state/src/replay.rs:63-84 | In every run acceptances of one nonce are at least the TTL apart and the table mirrors the whole acceptance history |
| `Replay.SweptIsRecentHistory` | crates/cosaci-state/src/replay.rs:79-84 | Swept at any time, the table is the full history filtered to the last TTL |
| `Replay.AcceptedIff` | crates/cosaci-state/src/replay.rs:63-75 | Stale if and only if the timestamp is more than the TTL behind or ahead; a replay if and only if it is timely and an acceptance of its nonce is younger than the TTL; accepted otherwise, one exactly a TTL old not blocking |
| `Replay.RunDecides` | crates/cosaci-state/src/replay.rs:63-75 | After any calls on a new guard, which refusal the next call gets follows from its timestamp and the acceptances so far |
| `Replay.SweepTwice` | crates/cosaci-state/src/replay.rs:79-84 | An earlier sweep is invisible to a later one |
| `Replay.ReplayGuard.constructor` | crates/cosaci-state/src/replay.rs:46-52 | Starts with no nonce recorded |
| `Replay.ReplayGuard.Accept` | crates/cosaci-state/src/replay.rs:63-75 | One call of the specification: its decision and its table |
| `Admission.VerifyAndAdmit` | crates/cosaci-state/src/submission_auth.rs:177-293 | The staged method, for both payload shapes, gives the specified verdict, buckets and nonces; it passes the first two stages if and only if the payload is readable, its tenant registered, its key the registered one, its bytes encode and the signature verifies |
| `Admission.GateChecks` | crates/cosaci-state/src/submission_auth.rs:177-207 | In terms of registry and signature alone: past the first two stages exactly when well signed, UnknownTenant exactly when readable and not registered, BadSignature in exactly the remaining cases |
| `Admission.OkIsSigned` | crates/cosaci-state/src/submission_auth.rs:177-293 | Every Ok of every run is well signed under the registry last loaded at that moment |
| `Admission.RegistryIsLastLoaded` | bins/cosaci-coordinator/src/main.rs:1542-1554 | The registry in force after any events is the one last loaded |
| `Admission.LateVerdicts` | crates/cosaci-state/src/submission_auth.rs:207-235 | ReplayDetected and Ok in the same terms: well signed and stale or recorded within the window; well signed, timely, unseen and a token left after refill |
| `Admission.ReplayHasOrigin` | crates/cosaci-state/src/submission_auth.rs:220-223 | No false alarm: a timely submission called a replay folds to the key of one that passed less than a TTL before |
| `Admission.AdmissionBound` | crates/cosaci-state/src/submission_auth.rs:225-235 | In every window of every run a tenant's Ok verdicts are at most capacity plus floor(refill times elapsed ns over 10^9), whatever other tenants do and however often the registry is reloaded |
| `Admission.AdmissionsPayPotential` | crates/cosaci-state/src/submission_auth.rs:225-235 | From any bucket, all later admissions together are paid by its potential |
| `Admission.StepFreezesParameters` | crates/cosaci-state/src/rate_limit.rs:104-117 | A bucket takes the registry's parameters at first sight and no event changes them |
| `Admission.ParametersAreFrozen` | bins/cosaci-coordinator/src/main.rs:1542-1554 | Over every run, registry reloads included, a bucket's capacity and refill stay those of first sight |
| `Admission.RefillsFollowClock` | crates/cosaci-state/src/rate_limit.rs:40-47 | In every run no refill time passes the clock, so the admission bound applies from the start |
| `Admission.ErasureIsInvisible` | crates/cosaci-state/src/submission_auth.rs:177-293 | Deleting every UnknownTenant, BadSignature and ReplayDetected submission from any run, both payload shapes mixed, leaves all other verdicts and all buckets unchanged |
| `Admission.RateLimitedIff` | crates/cosaci-state/src/submission_auth.rs:207-233 | RateLimited if and only if the submission is well signed, timely, unseen within the window and the refilled bucket is empty; no token is taken then |
| `Admission.RejectedYetRecordedIff` | crates/cosaci-state/src/submission_auth.rs:163-236 | A submission that is not admitted changes the live nonces if and only if it is starved in that sense and the window is not empty |
| `Admission.NonceTableAfter` | crates/cosaci-state/src/submission_auth.rs:186-235 | Exactly the Ok and RateLimited submissions record their nonce; a replay only sweeps; the earlier rejections change nothing |
| `Admission.PassesAreSpaced` | crates/cosaci-state/src/submission_auth.rs:220-223 | In every run two submissions passing the replay stage under one key are at least the TTL apart |
| `Admission.NonceSurvives` | crates/cosaci-state/src/submission_auth.rs:220-223 | A recorded key stays recorded until a sweep a full TTL later |
| `Admission.RetryIsReplayIff` | crates/cosaci-state/src/submission_auth.rs:220-223 | After the last submission that passed the replay stage under its key, admitted or not, the same submission is called a replay if and only if the window since then is open or its timestamp is stale, whatever else the run holds |
| `Admission.RetryAfterRateLimitIsReplay` | crates/cosaci-state/src/submission_auth.rs:220-235 | A rate-limited submission sent again within the window is called a replay although it was never admitted; with nothing else passing under its key, exactly then or with a stale timestamp |
| `Admission.LimitedThenReplayed` | crates/cosaci-state/src/submission_auth.rs:220-235 | A tenant of capacity zero: limited, called a replay a moment later, limited again after the window |
| `Admission.TenantIsolation` | crates/cosaci-state/src/submission_auth.rs:177-293 | If no other submission of the run folds to a replay key of the tenant's own, deleting all other tenants' traffic changes none of its verdicts |
| `Admission.UntouchedBucket` | crates/cosaci-state/src/submission_auth.rs:177-235 | An event that does not reach a tenant's bucket leaves it as it is |
| `Journal.ReconstructState` | crates/cosaci-state/src/journal.rs:197-237 | The replay loop computes the specified job states, out-of-order records included |
| `Journal.ReplayKnows` | crates/cosaci-state/src/journal.rs:197-237 | Replay knows exactly the jobs some record names, and attestations alone leave a job in flight |
| `Journal.ReplayShows` | crates/cosaci-state/src/journal.rs:197-237 | The last record about a job that is not an attestation decides its state and what it carries |
| `Journal.ReplayAppend` | crates/cosaci-state/src/journal.rs:197-237 | Replaying one more record is one step on the replayed state |
| `JobRun.PartOfJob` | bins/cosaci-coordinator/src/main.rs:764-1129 | After any number of a job's writes the log and the replayed state are as described, for every way the job can go |
| `JobRun.RunOnDisk` | bins/cosaci-coordinator/src/main.rs:556-623 | After complete jobs the log holds the consensus artifacts of the passed jobs in order, and replay gives each job its final state |
| `JobRun.DiskAtCut` | bins/cosaci-coordinator/src/main.rs:764-1129 | What log and journal hold when the process dies after any write |
| `JobRun.CrashIsRecoverable` | bins/cosaci-coordinator/src/main.rs:764-1129 | At every crash point: Anchored at p implies log[p] is the job's artifact, anchors are distinct, at most the last log entry has no record, its job is the last one, pending re-anchor with outcome Pass and that artifact, and no other Pass is pending |
| `JobRun.OrphanedIff` | bins/cosaci-coordinator/src/main.rs:1091-1128 | A crash leaves a log entry without a record if and only if it falls between the append and the Anchored record of a passed job |
| `JobRun.OrphanWitness` | bins/cosaci-coordinator/src/main.rs:1091-1128 | One passed job cut after its fourth write: the log holds its artifact and replay has it pending |
| `JobRun.ReAnchorIsCleanIff` | crates/cosaci-state/src/journal.rs:29-31 | Appending the pending Pass job's artifact again and recording it leaves every log entry owned if and only if there was no such orphan; otherwise the artifact is in the log twice |
| `JobRun.ReAnchoredTwice` | crates/cosaci-state/src/journal.rs:29-31 | The orphaned artifact ends up twice in the log, the first copy owned by no job |
| `JobRun.PendingAfterCleanStop` | crates/cosaci-state/src/journal.rs:152-186 | After complete jobs the three recovery sets are exactly the jobs given up before settling, the settled ones whose outcome was not Pass, and the passed ones |
| `JobRun.ArtifactAtPosition` | bins/cosaci-coordinator/src/main.rs:1091-1105 | An anchored job's artifact is at the position its record names, in every longer run |
| `JobRun.PositionsDiffer` | bins/cosaci-coordinator/src/main.rs:1091-1105 | Anchored jobs have increasing positions |
| `JobRun.EvidenceIsFrozen` | bins/cosaci-coordinator/src/main.rs:1091-1109 | For every recorded job and every later run the bundle is the same, with the job's pipeline hash, attestations and consensus artifact, the artifact at position length minus one |
| `JobRun.EvidenceChecks` | bins/cosaci-coordinator/src/main.rs:1091-1109 | After any jobs the bundle of every recorded job carries the root of the log as that job left it, and any checker that accepts the tree's own paths accepts it against that root |
| `Coordinator.ConsensusArtifact` | bins/cosaci-coordinator/src/main.rs:1017-1042 | The counting loops return a most common artifact, and 32 zero bytes when nothing was attested |
| `Coordinator.ConsensusIsCommon` | bins/cosaci-coordinator/src/main.rs:1017-1042 | Every consensus artifact is attested somewhere, and no artifact in more places |
| `Coordinator.MajorityIsConsensus` | bins/cosaci-coordinator/src/main.rs:1017-1042 | An artifact attested by more than half is the consensus, however ties would be broken |
| `Coordinator.HeardIff` | bins/cosaci-coordinator/src/main.rs:905-1005 | Exactly the signed replies of committee members are heard |
| `Coordinator.HeardOfConcat` | bins/cosaci-coordinator/src/main.rs:905-1005 | Replies are heard in fleet order |
| `Coordinator.HowFar` | bins/cosaci-coordinator/src/main.rs:764-905 | A job settles exactly when there were candidates, enough of them able, and the assignments went out; without the last it ends unassigned, without the others abandoned |
| `Coordinator.JobSlashesIff` | bins/cosaci-coordinator/src/main.rs:1068-1080 | A job lowers a runner's stake exactly when it settles as Pass or Fail, the runner's artifact diverges and its share is a unit or more; no job raises one |
| `Coordinator.RunSlashesIff` | bins/cosaci-coordinator/src/main.rs:1068-1080 | The same for every job of every run, on the stakes its predecessors left |
| `Coordinator.Process.constructor` | bins/cosaci-coordinator/src/main.rs:554-556 | Starts with empty journal, log and records and the enrolled stakes |
| `Coordinator.Process.Collect` | bins/cosaci-coordinator/src/main.rs:905-1005 | The read loop journals and keeps exactly the committee's valid attestations, in fleet order |
| `Coordinator.Process.Tally` | bins/cosaci-coordinator/src/main.rs:1018-1037 | The outcome is the aggregate under the threshold the code computes, sum and doubling on machine words |
| `Coordinator.Process.RunOneJob` | bins/cosaci-coordinator/src/main.rs:764-1130 | The job plays out as its input and the current stakes dictate, and its durable writes, record and slashing are those of the resulting script |
| `Coordinator.Process.Settle` | bins/cosaci-coordinator/src/main.rs:899-1061 | Collect, tally and the Aggregated record, in this order on disk |
| `Coordinator.Process.Close` | bins/cosaci-coordinator/src/main.rs:1063-1129 | Slashing on a definitive outcome, then append, record and Anchored entry on Pass |
| `Coordinator.Process.RunJobs` | bins/cosaci-coordinator/src/main.rs:554-623 | Jobs are numbered from 1; each plays out on the stakes its predecessors left; every prefix of the writes is a recoverable disk |
| `Coordinator.LedgerStep` | bins/cosaci-coordinator/src/main.rs:1068-1080 | The ledger after a job is the slashing of the ledger before it, or unchanged when the job does not slash |
| `Coordinator.ThresholdIsTwoThirdsIff` | bins/cosaci-coordinator/src/main.rs:1031-1036 | The threshold is two thirds of the committee stake rounded up if and only if twice that stake fits a u64 |
| `Coordinator.ThresholdStaysExact` | bins/cosaci-coordinator/src/main.rs:1031-1036 | A committee whose threshold is exact at enrolment keeps it exact over any jobs, since slashing only lowers stakes |
| `Coordinator.BackedIff` | bins/cosaci-coordinator/src/main.rs:985-1037 | Whatever the stakes and the threshold, a Pass has the threshold in stake of agents heard to pass if and only if every runner it is booked under is one of them |
| `Coordinator.OwnNamesAreBooked` | bins/cosaci-coordinator/src/main.rs:953-1029 | Attestations that name the agent that signed them are enough for that |
| `Coordinator.PassIsBacked` | bins/cosaci-coordinator/src/main.rs:985-1037 | A passed job booked under agents heard has its threshold in their stake, two thirds of the committee's while twice that fits a u64 |
| `Coordinator.BorrowedVotePasses` | bins/cosaci-coordinator/src/main.rs:1018-1037 | An agent with a sixth of the stake attests in another runner's name and the job passes |
| `Coordinator.BorrowedNameIsSlashed` | bins/cosaci-coordinator/src/main.rs:1068-1069 | A diverging attestation slashes the runner it names, not the agent that signed it |
| `Coordinator.SlashedForOwnOnly` | bins/cosaci-coordinator/src/main.rs:1068-1069 | With own names, an agent whose attestations match the consensus keeps its stake |
| `StakeLedger.Ledger.Slash` | crates/cosaci-state/src/stake_ledger.rs:103-113 | The event reports the stake before, the saturating reduction and the stake after, which is what the ledger then holds |
| `StakeLedger.Ledger.SlashMinority` | crates/cosaci-state/src/stake_ledger.rs:126-155 | The loop leaves the specified stakes and returns the specified events, each of which takes a positive share of the stake before, rounded down |
| `StakeLedger.SlashedIff` | crates/cosaci-state/src/stake_ledger.rs:132-152 | An attestation is slashed exactly when it diverges, its runner is enrolled and the share is a unit or more; the event takes the floor of stake times fraction, everything for a fraction of one or more |
| `StakeLedger.ShareIsFloor` | crates/cosaci-state/src/stake_ledger.rs:146-151 | The share is stake times the clamped fraction rounded down: nothing for zero or less, everything for one or more |
| `StakeLedger.EventsAreFloors` | crates/cosaci-state/src/stake_ledger.rs:126-155 | Every event of a job is such a floor of the stake it reports before it |
| `StakeLedger.JobLowersIff` | crates/cosaci-state/src/stake_ledger.rs:126-155 | A slashing job lowers a runner's stake exactly when the runner diverged in it and its share is a unit or more |
| `StakeLedger.JobConserves` | crates/cosaci-state/src/stake_ledger.rs:126-155 | Stake lost in a job is exactly the sum of the reported slashes |
| `StakeLedger.LedgerConserves` | crates/cosaci-state/src/stake_ledger.rs:103-155 | Over any jobs, remaining stake plus everything slashed is the initial stake |
| `StakeLedger.StakeOfRunner` | crates/cosaci-state/src/stake_ledger.rs:126-155 | The runner set is fixed and each stake depends only on the runner's own divergences |
| `StakeLedger.LedgerOverJobs` | crates/cosaci-state/src/stake_ledger.rs:126-155 | Over any jobs each stake is the initial one slashed once per divergence |
| `StakeLedger.SlashTimesClosed` | crates/cosaci-state/src/stake_ledger.rs:132-152 | After n slashes by num/den the stake is the initial one times ((den - num)/den)^n, up to n units above |
| `StakeLedger.LedgerWithin` | crates/cosaci-state/src/stake_ledger.rs:126-155 | Over any jobs a runner that diverged n times is within these bounds, and left with nothing by a fraction of one or more |
| `StakeLedger.DivergencesCount` | crates/cosaci-state/src/stake_ledger.rs:132-135 | The divergences counted are the places where the runner attests another artifact |
| `StakeLedger.SlashingIsFair` | crates/cosaci-state/src/stake_ledger.rs:126-155 | Over any jobs no stake rises, a positive stake stays positive under a fraction below one, and a runner that always matches the consensus keeps everything |
| `StakeLedger.SlashTimesBounds` | crates/cosaci-state/src/stake_ledger.rs:132-152 | Repeated slashing never raises a stake and, below a full slash, never reaches zero |
| `StakeLedger.FixedIff` | crates/cosaci-state/src/stake_ledger.rs:148-151 | A stake no longer shrinks if and only if stake times numerator is below the denominator |
| `StakeLedger.SlashingSettles` | crates/cosaci-state/src/stake_ledger.rs:132-152 | After at most as many slashes as there is stake, the stake is a fixed point |
| `Capabilities.SelectCommittee` | crates/cosaci-core/src/capabilities.rs:106-126 | The loop and sort return the identifiers of the specified committee, or none |
| `Capabilities.ChosenIsBest` | crates/cosaci-core/src/capabilities.rs:106-126 | None if and only if fewer than k candidates match; otherwise exactly k matching candidates, taken with their multiplicities, none beaten by a match left out |
| `Capabilities.ChosenAreAble` | crates/cosaci-core/src/capabilities.rs:75-126 | From the offers alone: a committee exists exactly when k candidates have the cores, memory, platform and runtimes asked for; every member has, and no able candidate left out has a lower output at the first byte where it differs |
| `Capabilities.LexIff` | crates/cosaci-core/src/capabilities.rs:117-117 | The order is decided at the first byte that differs; a proper prefix comes first |
| `Capabilities.OrderFreeIff` | crates/cosaci-core/src/capabilities.rs:106-126 | Every ordering of the candidates gives the same identifiers if and only if there is no committee or any two tied eligible candidates with different identifiers have at least k eligible ones strictly below them |
| `Capabilities.OrderDoesNotMatter` | crates/cosaci-core/src/capabilities.rs:106-126 | With distinct VRF outputs every ordering of the candidates gives the same committee |
| `Capabilities.TiesFollowOrder` | crates/cosaci-core/src/capabilities.rs:106-126 | With equal VRF outputs the earlier candidate wins, so the ordering matters |
| `Capabilities.SortSorts` | crates/cosaci-core/src/capabilities.rs:117-117 | The sort is in ascending lexicographic order of VRF output |
| `Capabilities.SortPermutes` | crates/cosaci-core/src/capabilities.rs:117-117 | The sort is a permutation |
| `Gossip.MergeLaws` | crates/cosaci-core/src/gossip.rs:98-114 | Merge is idempotent, commutative and associative |
| `Gossip.MergeStates` | crates/cosaci-core/src/gossip.rs:98-114 | The merge loop computes the specified merge in any hash-map order: every key of either side, with the later of its entries and at equal times the larger value |
| `Gossip.Node.WriteEntry` | crates/cosaci-core/src/gossip.rs:47-56 | The key alone changes: it holds the incoming entry if that is newer, or as new and larger, or the first, else what it held |
| `Gossip.WriteJoins` | crates/cosaci-core/src/gossip.rs:47-56 | A write extends the join by exactly that write |
| `Gossip.MergeJoins` | crates/cosaci-core/src/gossip.rs:98-114 | A merge is the join of both histories |
| `Gossip.JoinIsUnique` | crates/cosaci-core/src/gossip.rs:86-92 | A history determines the state: order and duplication of delivery cannot matter |
| `Gossip.RunJoins` | crates/cosaci-core/src/gossip.rs:47-114 | After any sequence of writes and pairwise merges each node is the join of exactly the writes in its causal history |
| `Gossip.LatestWriteWins` | tests/gossip_convergence_invariant.rs:155-179 | After any run from blank nodes a node holds, for exactly the keys written in its causal history, the write with the largest timestamp and, among those, the largest value |
| `Gossip.SameHistorySameState` | crates/cosaci-core/src/gossip.rs:47-114 | Strong eventual consistency: nodes with the same causal history are equal |
| `Gossip.FullSyncConverges` | tests/gossip_convergence_invariant.rs:64-90 | Whatever happened before, one full-sync round makes every node the join of all writes, so all nodes are equal |
| `MerkleLog.PrefixIsFrozen` | crates/cosaci-core/src/merkle_log.rs:303-326 | Roots and inclusion proofs at a length already reached are those of the entries up to it and never change |
| `MerkleLog.WholeLog` | crates/cosaci-core/src/merkle_log.rs:291-335 | At its full length the root is the root of all entries and a proof carries the entry and its path among them |
| `MerkleLog.RootOfPrefix` | crates/cosaci-core/src/merkle_log.rs:303-326 | There is a root exactly for lengths from 1 to the log's own and a proof exactly for positions below such a length, and both are those of the entries up to it |
| `MerkleLog.ProofChecks` | crates/cosaci-core/src/merkle_log.rs:303-326 | Every proof is accepted against the root of the same length by any checker that accepts the tree's own paths |
| `MerkleLog.ComputePeakHeights` | crates/cosaci-core/src/merkle_log.rs:371-379 | The loop returns the one-bits of the length, highest first |
| `MerkleLog.PeaksTile` | crates/cosaci-core/src/merkle_log.rs:347-379 | For every length the peaks strictly descend, cover exactly the leaves and number popcount |
| `MerkleLog.HighPeaksAreStable` | crates/cosaci-core/src/merkle_log.rs:371-379 | Lengths that agree from bit k up share every peak of height k or more at the same index |
| `MerkleLog.Carry` | crates/cosaci-core/src/merkle_log.rs:371-379 | Counting up clears the trailing ones, sets the next bit and leaves the rest |
| `MerkleLog.AppendMergesPeaks` | crates/cosaci-core/src/merkle_log.rs:371-379 | Going from n to n+1 removes exactly the peaks of the trailing ones and adds one |
| `MerkleLog.ComputePeakHashes` | crates/cosaci-core/src/merkle_log.rs:347-363 | The loop hashes consecutive ranges of 2^h leaves |
| `MerkleLog.HashAt` | crates/cosaci-core/src/merkle_log.rs:347-363 | Peak i is the root of its own leaves, those after the leaves of the peaks before it |
| `MerkleLog.PeakHashesAreStable` | crates/cosaci-core/src/merkle_log.rs:347-363 | The hash of a shared high peak is the same at every later length |
| `MerkleLog.ReopenRecovers` | crates/cosaci-core/src/merkle_log.rs:143-195 | Closing and reopening the file gives the same log |
| `MerkleLog.EntryInFile` | crates/cosaci-core/src/merkle_log.rs:143-195 | The file holds entry i at byte 32 * i |
| `MerkleLog.EncodeChunks` | crates/cosaci-core/src/merkle_log.rs:178-195 | Every file whose size is a multiple of 32 is the encoding of what is read from it |
| `MerkleLog.TornAppend` | crates/cosaci-core/src/merkle_log.rs:143-195 | An append torn inside its 32 bytes makes open fail; untorn it gives the old or the new log |
| `MerkleLog.ReadAll` | crates/cosaci-core/src/merkle_log.rs:178-195 | The chunk loop reads the specified entries, or fails on a partial record |
| `MerkleLog.OpenLog` | crates/cosaci-core/src/merkle_log.rs:249-253 | Opening gives a log whose memory mirrors the file, or the error |
| `MerkleLog.FileLog.FromFile` | crates/cosaci-core/src/merkle_log.rs:249-253 | The in-memory mirror is what the file holds |
| `MerkleLog.FileLog.Append` | crates/cosaci-core/src/merkle_log.rs:261-265 | Appends the 32 bytes to the file and the entry to the mirror, keeps them equal and returns the position |
| `Retrieval.BundleIsFrozen` | crates/cosaci-core/src/retrieval.rs:85-103 | The bundle of an anchored record exists, proves the consensus artifact under the root of the log at its anchor length, and is identical after any later appends |
| `Retrieval.BundleIff` | crates/cosaci-core/src/retrieval.rs:85-103 | There is a bundle exactly for recorded jobs whose position and length the log has reached; it carries the record and the root of the log at that length |
| `Retrieval.BundleChecks` | crates/cosaci-core/src/retrieval.rs:85-103 | Every bundle is accepted against its own root by any checker that accepts the tree's own paths |
| `Hex.FromToHex` | crates/cosaci-state/src/tenant.rs:160-167 | Parsing the printed bytes gives them back |
| `Hex.ToFromHex` | crates/cosaci-state/src/tenant.rs:225-244 | Every accepted text is the canonical lower-case one |
| `Hex.HexIff` | crates/cosaci-state/src/tenant.rs:225-244 | Exactly the lower-case texts of 32 bytes are accepted |
| `Hex.HexAt` | crates/cosaci-state/src/tenant.rs:160-167 | Byte i is printed at 2 * i, high half first |
| `Hex.KnownHex` | crates/cosaci-state/src/tenant.rs:160-167 | Known answers in which every digit occurs |
| `Hex.ReadHex32` | crates/cosaci-state/src/tenant.rs:225-236 | The array-filling loop computes the specified parse |
| `Text.ParseOfDecimal` | crates/cosaci-state/src/tenant.rs:183-196 | Parsing a printed u64 gives it back, and it contains no separator |
| `Text.ParsesIff` | crates/cosaci-state/src/tenant.rs:183-196 | A u64 is read exactly from its decimal form, with any zeros and at most one plus sign before it |
| `Text.SeparatorIff` | crates/cosaci-state/src/tenant.rs:170-170 | Exactly the five ASCII white-space characters separate fields |
| `Text.TrimDrops` | crates/cosaci-state/src/tenant.rs:137-137 | Trimming takes white space off both ends, all of it and nothing else |
| `Tenant.ParseOfLine` | crates/cosaci-state/src/tenant.rs:169-204 | The line printed for a record parses to that record |
| `Tenant.ParsesLineIff` | crates/cosaci-state/src/tenant.rs:169-204 | A line gives a record exactly when it has five fields and they spell that record out |
| `Tenant.DefectIs` | crates/cosaci-state/src/tenant.rs:169-222 | A refusal names the line and its first defect: field count before any field, then the fields in order |
| `Tenant.MeaningfulIff` | crates/cosaci-state/src/tenant.rs:136-140 | The lines skipped are exactly the blank ones and those whose first character is a comment sign |
| `Tenant.FieldsOfLine` | crates/cosaci-state/src/tenant.rs:170-181 | A printed line splits into exactly its five fields |
| `Tenant.LoadText` | crates/cosaci-state/src/tenant.rs:133-146 | The loading loop computes the specified registry or the first error with its line number |
| `Tenant.LoadsIff` | crates/cosaci-state/src/tenant.rs:133-146 | A file loads exactly when every line that is not skipped spells out a record and no two share a tenant id; what it loads is exactly those records |
| `Tenant.LoadedIsKeyed` | crates/cosaci-state/src/tenant.rs:98-107 | A loaded registry is indexed by its records' own ids and holds 32-byte fingerprints |
| `Tenant.LoadOfSameContent` | crates/cosaci-state/src/tenant.rs:136-141 | Loading, errors included, depends on the trimmed lines only |
| `Text.LinesOfUnlines` | bins/cosaci-coordinator/src/main.rs:2187-2206 | Lines written out with line feeds read back the same, up to one carriage return each |
| `TenantAdmin.AppendAdds` | bins/cosaci-coordinator/src/main.rs:2150-2157 | Appending a record's line to any text that loads, final newline or not, loads to the registry with that record inserted |
| `TenantAdmin.LinesOfAppend` | bins/cosaci-coordinator/src/main.rs:2262-2275 | Appending keeps all lines up to surrounding white space and adds one |
| `TenantAdmin.NamesItsRecord` | bins/cosaci-coordinator/src/main.rs:2189-2206 | On every line the loader accepts, the editor reads the tenant id the loader reads, despite different notions of white space |
| `TenantAdmin.KeptLoads` | bins/cosaci-coordinator/src/main.rs:2187-2206 | Dropping the lines that name a tenant drops its record and only that; some line names it if and only if it is registered |
| `TenantAdmin.RevokeText` | bins/cosaci-coordinator/src/main.rs:2187-2211 | The line-by-line loop computes the specified text, or nothing when no line names the tenant |
| `TenantAdmin.RevokeRemoves` | bins/cosaci-coordinator/src/main.rs:2167-2216 | Revoking succeeds if and only if the tenant is registered, and the result loads to the registry without it |
| `TenantAdmin.RevokedLines` | bins/cosaci-coordinator/src/main.rs:2187-2206 | All other lines are kept in order, up to a carriage return each |
| `TenantAdmin.RevokedVerbatimIff` | bins/cosaci-coordinator/src/main.rs:2187-2206 | The other lines survive byte for byte, terminators included, if and only if each ends in a bare line feed |
| `TenantAdmin.CrlfIsRewritten` | bins/cosaci-coordinator/src/main.rs:2189-2206 | A kept line that ended in CRLF ends in LF afterwards |
| `TenantAdmin.FinalNewlineIsAdded` | bins/cosaci-coordinator/src/main.rs:2189-2206 | A kept last line without a line feed gets one |
| `TenantAdmin.RevokeRewritesTerminators` | bins/cosaci-coordinator/src/main.rs:2189-2206 | Both on a concrete file: tenant 1 beside a comment line |
| `TenantAdmin.CommandRefines` | bins/cosaci-coordinator/src/main.rs:2118-2216 | One admin command on the text is that command on the registry, acknowledged in exactly the same cases |
| `TenantAdmin.RunRefines` | bins/cosaci-coordinator/src/main.rs:2118-2216 | Over any run of add and revoke commands the text keeps loading, to the registry the commands describe |
| `TenantAdmin.AddThenRevoke` | bins/cosaci-coordinator/src/main.rs:2118-2216 | Adding a new tenant and revoking it is acknowledged and loads back to the registry before |
| `TenantAdmin.TenantsFile.AddTenant` | bins/cosaci-coordinator/src/main.rs:2118-2165 | Reply and new file content are the specified ones |
| `TenantAdmin.TenantsFile.RevokeTenant` | bins/cosaci-coordinator/src/main.rs:2167-2223 | Reply and new file content are the specified ones |

## Left out

- TLS, sockets, threads, signal handling and the read and admin servers: plumbing around libraries that are not part of this model.
- Ed25519, VRF proofs, SHA-256, CBOR, JSON and TOML codecs: function parameters, or not reached.
- The Merkle tree library and inclusion-proof checking (crates/cosaci-core/src/verifier.rs): roots and paths are functions of the leaf slice.
- WASM and native execution, git fetch and capture persistence: foreign processes and files.
- Reputation and flake scores.
- StakeLedger.ShareIsFloor: the floor of the exact rational product; the source multiplies in `f64` first, whose rounding is not modelled.
- Failed disk writes a process survives, torn journal lines, and journal reuse across restarts.
- The agents' enrolment, status pages, GitHub checks, webhooks, Bloom filter and single-replica partition gate: one-branch facts or easier copies of what is here.
- The small accessors (`is_empty`, `contains_key`, `shard_load`, `tokens_of`, `is_known`, `count`, registry iteration) would only add easy members.
- Reading and atomically replacing the tenants file, and reloading the registry after an edit: the file's text is a value that a method replaces whole.
- Coordinator.ConsensusArtifact: any most common artifact is allowed, because the source's choice among ties follows hash-map order; its `u32` counters do not overflow here.
- Coordinator.Process.RunJobs: the network is an input (candidates, whether assignments went out, replies), and a log append that fails without killing the process is not modelled.
- Admission.TenantIsolation: asks that within the run no other submission folds to a replay key of the tenant's own, because the key is a 64-bit fold of a hash and two tenants can collide.
- JobRun.ReAnchorIsCleanIff: re-anchoring is left to an operator by the source; it is modelled as the log append and the record that the documentation describes.
