/** Two lease replicas under partition and heal (crates/cosaci-state/src/replicated_cluster.rs). */
module Cluster {
  import opened Machine
  import L = Lease

  type Pair = L.Pair
  type Manager = L.Manager
  type JobId = L.JobId

  datatype Side = A | B

  function Other(side: Side): Side {
    if side.A? then B else A
  }

  datatype State = State(a: Manager, b: Manager, partitioned: bool, majority: Side, ttl: u64)

  function New(ttl: u64): State {
    State(L.Empty(ttl), L.Empty(ttl), false, A, ttl)
  }

  function Replica(c: State, side: Side): Manager {
    if side.A? then c.a else c.b
  }

  function WithReplica(c: State, side: Side, m: Manager): State {
    if side.A? then c.(a := m) else c.(b := m)
  }

  datatype Op =
    | Acquire(side: Side, pair: Pair)
    | Partition(winner: Side)
    | Heal
    | HasActive(side: Side, pair: Pair)
    | GlobalCount(pair: Pair)
    | JobCount(job: JobId)

  datatype Answer = Granted | AlreadyLeased | Nothing | Flag(b: bool) | Count(n: nat)

  /** One operation with the clock reading it uses throughout. */
  datatype Step = Step(now: u64, op: Op)

  function Call(now: u64, op: L.Op): L.Call {
    L.Call(now, now, op)
  }

  function Holds(m: Manager, pair: Pair, now: u64): bool {
    L.Reply(m, Call(now, L.ActiveFor(pair))) != L.Holder(None)
  }

  function Next(c: State, s: Step): State {
    match s.op
    case Acquire(side, pair) =>
      var call := Call(s.now, L.Acquire(pair));
      var c1 := WithReplica(c, side, L.Next(Replica(c, side), call));
      if !c.partitioned && L.Reply(Replica(c, side), call).Granted?
      then WithReplica(c1, Other(side), L.Next(Replica(c, Other(side)), call))
      else c1
    case Partition(winner) => c.(partitioned := true, majority := winner)
    case Heal =>
      (if c.partitioned then WithReplica(c, Other(c.majority), L.Empty(c.ttl)) else c).(partitioned := false)
    case HasActive(side, pair) =>
      WithReplica(c, side, L.Next(Replica(c, side), Call(s.now, L.ActiveFor(pair))))
    case GlobalCount(pair) =>
      c.(a := L.Next(c.a, Call(s.now, L.ActiveFor(pair))), b := L.Next(c.b, Call(s.now, L.ActiveFor(pair))))
    case JobCount(job) =>
      c.(a := L.Next(c.a, Call(s.now, L.CountForJob(job))), b := L.Next(c.b, Call(s.now, L.CountForJob(job))))
  }

  function JobLeases(m: Manager, job: JobId, now: u64): nat {
    L.Reply(m, Call(now, L.CountForJob(job))).n
  }

  function Reply(c: State, s: Step): Answer {
    match s.op
    case Acquire(side, pair) =>
      if L.Reply(Replica(c, side), Call(s.now, L.Acquire(pair))).Granted? then Granted else AlreadyLeased
    case HasActive(side, pair) => Flag(Holds(Replica(c, side), pair, s.now))
    case GlobalCount(pair) =>
      Count((if Holds(c.a, pair, s.now) then 1 else 0) + (if Holds(c.b, pair, s.now) then 1 else 0))
    case JobCount(job) => Count(JobLeases(c.a, job, s.now) + JobLeases(c.b, job, s.now))
    case _ => Nothing
  }

  ghost predicate Timed(from: u64, steps: seq<Step>)
    decreases |steps|
  {
    steps == [] || (from <= steps[0].now && Timed(steps[0].now, steps[1..]))
  }

  function LastTime(from: u64, steps: seq<Step>): u64 {
    if steps == [] then from else steps[|steps| - 1].now
  }

  function Run(c: State, steps: seq<Step>): State
    decreases |steps|
  {
    if steps == [] then c else Run(Next(c, steps[0]), steps[1..])
  }

  // ---------------------------------------------------------------------
  // What a replica shows: the pairs it holds, with their deadlines

  function Later(d: map<Pair, u64>, now: u64): map<Pair, u64> {
    map p | p in d && d[p] > now :: d[p]
  }

  ghost function Deadlines(m: Manager): map<Pair, u64>
    requires L.Inv(m)
  {
    map p | p in m.index :: L.ExpiresAt(m.leases[m.index[p]])
  }

  /** The leases held at `now` and until when. */
  ghost function View(m: Manager, now: u64): map<Pair, u64>
    requires L.Inv(m)
  {
    Later(Deadlines(m), now)
  }

  lemma DeadlinesOfSweep(m: Manager, now: u64)
    requires L.Inv(m)
    ensures L.Inv(L.Sweep(m, now)) && Deadlines(L.Sweep(m, now)) == View(m, now)
  {
    L.SweepKeepsInv(m, now);
  }

  lemma LaterTwice(d: map<Pair, u64>, s: u64, t: u64)
    requires s <= t
    ensures Later(Later(d, s), t) == Later(d, t)
  {
  }

  /** A replica after one acquire: the pair is added when it was free. */
  function WithGrant(view: map<Pair, u64>, pair: Pair, deadline: u64): map<Pair, u64> {
    if pair in view then view else view[pair := deadline]
  }

  ghost predicate Uniform(m: Manager, ttl: u64, t: u64) {
    m.ttl == ttl && forall id :: id in m.leases ==> m.leases[id].ttl == ttl && m.leases[id].acquiredAt <= t
  }

  /** The calls the cluster makes on a replica. */
  predicate ClusterCall(c: L.Call) {
    c.now == c.stamp && (c.op.Acquire? || c.op.ActiveFor? || c.op.CountForJob?)
  }

  /** What a call makes of a view already cut at its time. */
  function AfterCall(view: map<Pair, u64>, c: L.Call, ttl: u64): map<Pair, u64> {
    if c.op.Acquire? then WithGrant(view, c.op.pair, SatAdd(c.stamp, ttl)) else view
  }

  lemma EffectOnDeadlines(m: Manager, c: L.Call)
    requires L.Inv(m) && L.Room(m, L.Cost(c.op)) && ClusterCall(c)
    ensures L.Inv(L.Effect(m, c.op, c.stamp))
    ensures Deadlines(L.Effect(m, c.op, c.stamp)) == AfterCall(Deadlines(m), c, m.ttl)
  {
    L.EffectKeepsInv(m, c.op, c.stamp);
    if c.op.Acquire? && c.op.pair !in m.index {
      GrantOnDeadlines(m, c.op.pair, c.stamp);
    }
  }

  lemma GrantOnDeadlines(m: Manager, pair: Pair, stamp: u64)
    requires L.Inv(m) && L.Room(m, 1) && pair !in m.index && L.Inv(L.Effect(m, L.Acquire(pair), stamp))
    ensures Deadlines(L.Effect(m, L.Acquire(pair), stamp)) == Deadlines(m)[pair := SatAdd(stamp, m.ttl)]
  {
  }

  lemma CallOnView(m: Manager, c: L.Call)
    requires L.Inv(m) && L.Room(m, L.Cost(c.op)) && ClusterCall(c)
    ensures L.Inv(L.Next(m, c)) && L.Upper(L.Next(m, c)) <= L.Upper(m) + L.Cost(c.op)
    ensures Deadlines(L.Next(m, c)) == AfterCall(View(m, c.now), c, m.ttl)
  {
    hide L.Inv, Deadlines, L.Effect, View;
    DeadlinesOfSweep(m, c.now);
    EffectOnDeadlines(L.Sweep(m, c.now), c);
    L.EffectKeepsInv(L.Sweep(m, c.now), c.op, c.stamp);
  }

  lemma PairsOfSweep(m: Manager, now: u64)
    requires L.Inv(m)
    ensures L.Sweep(m, now).index.Keys == View(m, now).Keys
  {
    DeadlinesOfSweep(m, now);
    KeysOfDeadlines(L.Sweep(m, now));
  }

  lemma KeysOfDeadlines(m: Manager)
    requires L.Inv(m)
    ensures Deadlines(m).Keys == m.index.Keys
  {
  }

  lemma AcquireReply(m: Manager, pair: Pair, now: u64)
    requires L.Inv(m)
    ensures L.Reply(m, Call(now, L.Acquire(pair))).Granted? <==> pair !in View(m, now)
  {
    hide L.Inv, L.Sweep, View;
    PairsOfSweep(m, now);
  }

  lemma ActiveReply(m: Manager, pair: Pair, now: u64)
    requires L.Inv(m)
    ensures L.Reply(m, Call(now, L.ActiveFor(pair))) != L.Holder(None) <==> pair in View(m, now)
  {
    hide L.Inv, L.Sweep, View;
    PairsOfSweep(m, now);
  }

  lemma CountReply(m: Manager, job: JobId, now: u64)
    requires L.Inv(m)
    ensures JobLeases(m, job, now) == |set p | p in View(m, now) && p.job == job|
  {
    hide L.Inv, L.Sweep, View;
    PairsOfSweep(m, now);
    assert L.PairsOfJob(L.Sweep(m, now).index, job) == set p | p in View(m, now) && p.job == job;
  }

  lemma CallKeepsUniform(m: Manager, c: L.Call, ttl: u64, t: u64)
    requires Uniform(m, ttl, t) && ClusterCall(c)
    ensures Uniform(L.Next(m, c), ttl, if c.op.Acquire? && c.now > t then c.now else t)
    ensures !c.op.Acquire? ==> L.Upper(L.Next(m, c)) == L.Upper(m)
  {
  }

  // ---------------------------------------------------------------------
  // Invariant of every run, partitions included

  /** Both replicas are sound and hold no lease from the future. */
  ghost predicate Inv(c: State, t: u64) {
    L.Inv(c.a) && L.Inv(c.b) && Uniform(c.a, c.ttl, t) && Uniform(c.b, c.ttl, t)
  }

  /** Room for `n` more grants before lease identifiers wrap. */
  predicate Room(c: State, n: nat) {
    L.Room(c.a, n) && L.Room(c.b, n)
  }

  function Cost(op: Op): nat {
    if op.Acquire? then 1 else 0
  }

  /** Number of acquires. */
  function Acquires(steps: seq<Step>): nat
    decreases |steps|
  {
    if steps == [] then 0 else Cost(steps[0].op) + Acquires(steps[1..])
  }

  lemma NewIsSound(ttl: u64, t: u64)
    ensures Inv(New(ttl), t) && Agree(New(ttl), t)
  {
  }

  lemma CallKeepsReplica(m: Manager, c: L.Call, ttl: u64, from: u64)
    requires L.Inv(m) && Uniform(m, ttl, from) && L.Room(m, L.Cost(c.op)) && from <= c.now && ClusterCall(c)
    ensures L.Inv(L.Next(m, c)) && Uniform(L.Next(m, c), ttl, c.now)
    ensures L.Upper(L.Next(m, c)) <= L.Upper(m) + L.Cost(c.op)
  {
    CallOnView(m, c);
    CallKeepsUniform(m, c, ttl, from);
  }

  /** The replica call behind a cluster operation. */
  function ReplicaCall(s: Step): (c: L.Call)
    requires !s.op.Heal? && !s.op.Partition?
    ensures ClusterCall(c) && c.now == s.now && (c.op.Acquire? <==> s.op.Acquire?)
  {
    match s.op
    case Acquire(_, pair) => Call(s.now, L.Acquire(pair))
    case HasActive(_, pair) => Call(s.now, L.ActiveFor(pair))
    case GlobalCount(pair) => Call(s.now, L.ActiveFor(pair))
    case JobCount(job) => Call(s.now, L.CountForJob(job))
  }

  /** Such an operation makes its call on one replica or on both, and touches nothing else. */
  lemma NextShape(c: State, s: Step)
    requires !s.op.Heal? && !s.op.Partition?
    ensures var n, call := Next(c, s), ReplicaCall(s);
            n == c.(a := n.a, b := n.b) &&
            (n.a == c.a || n.a == L.Next(c.a, call)) && (n.b == c.b || n.b == L.Next(c.b, call)) &&
            (s.op.Acquire? && !c.partitioned && L.Reply(Replica(c, s.op.side), call).Granted? ==>
              n.a == L.Next(c.a, call) && n.b == L.Next(c.b, call))
  {
    hide L.Next, L.Reply;
  }

  lemma HealKeepsInv(c: State, now: u64, n: nat)
    requires Inv(c, now) && Room(c, n)
    ensures var healed := Next(c, Step(now, Heal));
            Inv(healed, now) && Room(healed, n) && healed.ttl == c.ttl && !healed.partitioned
  {
    hide L.Inv, Uniform;
    EmptyIsUniform(c.ttl, now);
  }

  lemma InvLater(c: State, s: u64, t: u64)
    requires Inv(c, s) && s <= t
    ensures Inv(c, t)
  {
    hide L.Inv;
  }

  lemma StepKeepsInv(c: State, from: u64, s: Step, n: nat)
    requires Inv(c, from) && from <= s.now && Room(c, n + Cost(s.op))
    ensures Inv(Next(c, s), s.now) && Room(Next(c, s), n) && Next(c, s).ttl == c.ttl
  {
    hide L.Inv, L.Next, L.Reply, Uniform;
    InvLater(c, from, s.now);
    if s.op.Heal? {
      HealKeepsInv(c, s.now, n);
    } else if !s.op.Partition? {
      hide Next;
      NextShape(c, s);
      CallKeepsReplica(c.a, ReplicaCall(s), c.ttl, from);
      CallKeepsReplica(c.b, ReplicaCall(s), c.ttl, from);
    }
  }

  lemma EmptyIsUniform(ttl: u64, t: u64)
    ensures L.Inv(L.Empty(ttl)) && Uniform(L.Empty(ttl), ttl, t) && L.Upper(L.Empty(ttl)) == 1
    ensures View(L.Empty(ttl), t) == map[]
  {
  }

  lemma {:induction false} RunKeepsInv(c: State, from: u64, steps: seq<Step>, n: nat)
    requires Inv(c, from) && Timed(from, steps) && Room(c, n + Acquires(steps))
    ensures Inv(Run(c, steps), LastTime(from, steps)) && Room(Run(c, steps), n)
    ensures from <= LastTime(from, steps)
    decreases |steps|
  {
    hide Inv, Next, Room;
    if steps == [] {
    } else {
      StepKeepsInv(c, from, steps[0], n + Acquires(steps[1..]));
      RunKeepsInv(Next(c, steps[0]), steps[0].now, steps[1..], n);
    }
  }

  // ---------------------------------------------------------------------
  // Lockstep

  /** Both replicas show the same leases, now and for as long as neither is written alone. */
  ghost predicate Agree(c: State, now: u64)
    requires L.Inv(c.a) && L.Inv(c.b)
  {
    View(c.a, now) == View(c.b, now)
  }

  /** Agreeing replicas cannot be told apart by any query or acquire, at any later time. */
  lemma AgreementIsVisible(c: State, from: u64, now: u64, pair: Pair, job: JobId)
    requires Inv(c, from) && from <= now && Agree(c, from)
    ensures Reply(c, Step(now, HasActive(A, pair))) == Reply(c, Step(now, HasActive(B, pair)))
    ensures Reply(c, Step(now, Acquire(A, pair))) == Reply(c, Step(now, Acquire(B, pair)))
    ensures Reply(c, Step(now, GlobalCount(pair))) in {Count(0), Count(2)}
    ensures JobLeases(c.a, job, now) == JobLeases(c.b, job, now)
  {
    hide L.Inv, L.Reply, View, Uniform, JobLeases;
    ViewsMeet(c, from, now);
    ActiveReply(c.a, pair, now);
    ActiveReply(c.b, pair, now);
    CountReply(c.a, job, now);
    CountReply(c.b, job, now);
    AcquireReply(c.a, pair, now);
    AcquireReply(c.b, pair, now);
  }

  lemma StepKeepsAgreement(c: State, from: u64, s: Step)
    requires Inv(c, from) && from <= s.now && Room(c, Cost(s.op))
    requires !c.partitioned && Agree(c, from) && !s.op.Partition?
    ensures Inv(Next(c, s), s.now) && Agree(Next(c, s), s.now) && !Next(c, s).partitioned
  {
    assert c.a.ttl == c.b.ttl;
    hide L.Inv, L.Next, L.Reply, View, Uniform, AfterCall, Later, ReplicaCall, ClusterCall;
    StepKeepsInv(c, from, s, 0);
    ViewsMeet(c, from, s.now);
    if s.op.Heal? {
      assert Next(c, s) == c;
    } else {
      hide Next;
      NextShape(c, s);
      CallOnViewNow(c.a, ReplicaCall(s));
      CallOnViewNow(c.b, ReplicaCall(s));
    }
  }

  /** A call's effect on a view depends on that view alone, and only a grant has one. */
  lemma CallOnViewNow(m: Manager, c: L.Call)
    requires L.Inv(m) && L.Room(m, L.Cost(c.op)) && ClusterCall(c)
    ensures L.Inv(L.Next(m, c))
    ensures View(L.Next(m, c), c.now) == Later(AfterCall(View(m, c.now), c, m.ttl), c.now)
    ensures !c.op.Acquire? || !L.Reply(m, c).Granted? ==> View(L.Next(m, c), c.now) == View(m, c.now)
    ensures c.op.Acquire? ==> (L.Reply(m, c).Granted? <==> c.op.pair !in View(m, c.now))
  {
    hide L.Inv, L.Next, L.Reply, Deadlines;
    CallOnView(m, c);
    if c.op.Acquire? {
      AcquireReply(m, c.op.pair, c.now);
    }
    LaterTwice(Deadlines(m), c.now, c.now);
  }

  /** Agreement survives the passing of time. */
  lemma ViewsMeet(c: State, from: u64, now: u64)
    requires L.Inv(c.a) && L.Inv(c.b) && Agree(c, from) && from <= now
    ensures Agree(c, now)
  {
    LaterTwice(Deadlines(c.a), from, now);
    LaterTwice(Deadlines(c.b), from, now);
  }

  predicate NoPartition(steps: seq<Step>) {
    forall i :: 0 <= i < |steps| ==> !steps[i].op.Partition?
  }

  /** Agreeing connected replicas stay in lockstep through every partition-free run. */
  lemma {:induction false} Lockstep(c: State, from: u64, steps: seq<Step>)
    requires Inv(c, from) && Timed(from, steps) && Room(c, Acquires(steps))
    requires !c.partitioned && Agree(c, from) && NoPartition(steps)
    ensures Inv(Run(c, steps), LastTime(from, steps))
    ensures Agree(Run(c, steps), LastTime(from, steps)) && !Run(c, steps).partitioned
    decreases |steps|
  {
    if steps == [] {
    } else {
      hide L.Inv, Uniform, View, Next;
      var s := steps[0];
      StepKeepsAgreement(c, from, s);
      StepKeepsInv(c, from, s, Acquires(steps[1..]));
      Lockstep(Next(c, s), s.now, steps[1..]);
    }
  }

  /** Every partition-free run of a new cluster keeps the replicas indistinguishable. */
  lemma FreshLockstep(ttl: u64, from: u64, steps: seq<Step>)
    requires Timed(from, steps) && NoPartition(steps) && Acquires(steps) < L.ID_COUNT
    ensures Inv(Run(New(ttl), steps), LastTime(from, steps))
    ensures Agree(Run(New(ttl), steps), LastTime(from, steps))
  {
    hide L.Inv, Uniform, View, Next;
    NewIsSound(ttl, from);
    Lockstep(New(ttl), from, steps);
  }

  // ---------------------------------------------------------------------
  // Heal

  /** Healing empties the minority, keeps the majority and reconnects. */
  lemma HealResets(c: State, now: u64)
    requires c.partitioned
    ensures var healed := Next(c, Step(now, Heal));
            Replica(healed, Other(c.majority)) == L.Empty(c.ttl) &&
            Replica(healed, c.majority) == Replica(c, c.majority) && !healed.partitioned
  {
  }

  /** Right after a heal the replicas agree exactly when the majority holds no lease. */
  lemma HealAgreesIff(c: State, now: u64)
    requires Inv(c, now) && c.partitioned
    ensures var healed := Next(c, Step(now, Heal));
            L.Inv(healed.a) && L.Inv(healed.b) &&
            (Agree(healed, now) <==> View(Replica(c, c.majority), now) == map[])
  {
    hide L.Inv, Uniform, View;
    EmptyIsUniform(c.ttl, now);
  }

  predicate NoHeal(steps: seq<Step>) {
    forall i :: 0 <= i < |steps| ==> !steps[i].op.Heal?
  }

  /** Whether a partitioned cluster's step reaches the given side. */
  predicate Reaches(s: Step, side: Side) {
    match s.op
    case Acquire(at, _) => at == side
    case HasActive(at, _) => at == side
    case GlobalCount(_) => true
    case JobCount(_) => true
    case _ => false
  }

  /** The calls one side receives while the link is down. */
  function CallsOn(side: Side, steps: seq<Step>): seq<L.Call> {
    if steps == [] then []
    else (if Reaches(steps[0], side) then [ReplicaCall(steps[0])] else []) + CallsOn(side, steps[1..])
  }

  lemma PartitionedStep(c: State, s: Step, side: Side)
    requires c.partitioned && !s.op.Heal?
    ensures Next(c, s).partitioned
    ensures Replica(Next(c, s), side) ==
            if Reaches(s, side) then L.Next(Replica(c, side), ReplicaCall(s)) else Replica(c, side)
  {
    hide L.Next, L.Reply;
  }

  /**
   * Split brain: through any run without a heal, each side of a partitioned cluster is a lease
   * manager of its own, driven by the calls it received and by nothing the other side does.
   */
  lemma {:induction false} SidesAreAlone(c: State, steps: seq<Step>, side: Side)
    requires c.partitioned && NoHeal(steps)
    ensures Run(c, steps).partitioned
    ensures Replica(Run(c, steps), side) == L.Run(Replica(c, side), CallsOn(side, steps))
    decreases |steps|
  {
    if steps == [] {
    } else {
      PartitionedStep(c, steps[0], side);
      hide Next, L.Next, ReplicaCall;
      SidesAreAlone(Next(c, steps[0]), steps[1..], side);
      var calls := CallsOn(side, steps);
      if Reaches(steps[0], side) {
        assert calls[1..] == CallsOn(side, steps[1..]);
      } else {
        assert calls == CallsOn(side, steps[1..]);
      }
    }
  }

  lemma {:induction false} MajorityStays(c: State, steps: seq<Step>)
    requires NoHeal(steps) && NoPartition(steps)
    ensures Run(c, steps).majority == c.majority && Run(c, steps).ttl == c.ttl
    decreases |steps|
  {
    if steps == [] {
    } else {
      assert !steps[0].op.Heal? && !steps[0].op.Partition?;
      NextShape(c, steps[0]);
      hide Next;
      MajorityStays(Next(c, steps[0]), steps[1..]);
    }
  }

  /**
   * From partition to heal: the side named as the majority comes out as the calls it received alone
   * leave it, and the other side comes out empty, whatever was done on it.
   */
  lemma WinnerSurvives(c: State, at: u64, winner: Side, steps: seq<Step>, healAt: u64)
    requires NoHeal(steps) && NoPartition(steps)
    ensures var healed := Next(Run(Next(c, Step(at, Partition(winner))), steps), Step(healAt, Heal));
            Replica(healed, winner) == L.Run(Replica(c, winner), CallsOn(winner, steps)) &&
            Replica(healed, Other(winner)) == L.Empty(c.ttl) && !healed.partitioned
  {
    hide L.Run, CallsOn, Run;
    var cut := Next(c, Step(at, Partition(winner)));
    SidesAreAlone(cut, steps, winner);
    MajorityStays(cut, steps);
  }

  /** A lease both replicas held before the partition is gone from one of them after the heal. */
  lemma HealLosesALease(pair: Pair)
    ensures var granted := Next(New(10), Step(0, Acquire(A, pair)));
            var healed := Next(Next(granted, Step(1, Partition(A))), Step(2, Heal));
            Reply(granted, Step(1, HasActive(B, pair))) == Flag(true) &&
            Reply(healed, Step(3, HasActive(A, pair))) == Flag(true) &&
            Reply(healed, Step(3, HasActive(B, pair))) == Flag(false)
  {
    var granted := Next(New(10), Step(0, Acquire(A, pair)));
    var held: map<L.LeaseId, L.Lease> := map[1 := L.Lease(pair, 0, 10, L.Active)];
    assert granted.a.leases == held && granted.b.leases == held;
    assert L.DuePairs(held, 1) == {} && L.DuePairs(held, 3) == {};
  }

  // ---------------------------------------------------------------------
  // What the cluster answers

  /** The global count is the number of sides that report the pair held. */
  lemma CountIsSides(c: State, now: u64, pair: Pair)
    ensures Reply(c, Step(now, GlobalCount(pair))) ==
            Count(|set side: Side | Reply(c, Step(now, HasActive(side, pair))) == Flag(true)|)
  {
    hide Holds;
    var heldA, heldB := Holds(c.a, pair, now), Holds(c.b, pair, now);
    assert Reply(c, Step(now, HasActive(A, pair))) == Flag(heldA) && Reply(c, Step(now, HasActive(B, pair))) == Flag(heldB);
    assert Reply(c, Step(now, GlobalCount(pair))) == Count((if heldA then 1 else 0) + (if heldB then 1 else 0));
    hide Reply;
    SidesCount(heldA, heldB, set side: Side | Reply(c, Step(now, HasActive(side, pair))) == Flag(true));
  }

  lemma SidesCount(heldA: bool, heldB: bool, sides: set<Side>)
    requires (A in sides <==> heldA) && (B in sides <==> heldB)
    ensures |sides| == (if heldA then 1 else 0) + (if heldB then 1 else 0)
  {
    forall side | side in sides ensures side in {A, B} {
      match side {
        case A =>
        case B =>
      }
    }
    if heldA && heldB {
      assert sides == {A, B};
    } else if heldA {
      assert sides == {A};
    } else if heldB {
      assert sides == {B};
    } else {
      assert sides == {};
    }
  }

  ghost predicate LiveFor(m: Manager, id: L.LeaseId, now: u64, pair: Pair) {
    L.Live(m, id, now) && m.leases[id].pair == pair
  }

  /** A side reports a pair held exactly while a lease of it is live; the job count adds up the live leases. */
  lemma AnswersAreLive(c: State, from: u64, now: u64, side: Side, pair: Pair, job: JobId)
    requires Inv(c, from)
    ensures var m := Replica(c, side);
            Reply(c, Step(now, HasActive(side, pair))) == Flag(exists id :: LiveFor(m, id, now, pair))
    ensures Reply(c, Step(now, JobCount(job))) == Count(|L.LiveOfJob(c.a, job, now)| + |L.LiveOfJob(c.b, job, now)|)
  {
    hide L.Inv, L.Reply, Uniform, L.Live, L.LiveOfJob;
    var m := Replica(c, side);
    var call := Call(now, L.ActiveFor(pair));
    HolderShape(m, pair, now);
    if Holds(m, pair, now) {
      var id := L.Reply(m, call).lease.value;
      L.HolderIsLive(m, now, now, pair, id);
      assert LiveFor(m, id, now, pair);
    } else {
      forall id ensures !LiveFor(m, id, now, pair) {
        L.HolderIsLive(m, now, now, pair, id);
      }
    }
    L.CountsAreLive(c.a, now, now, job);
    L.CountsAreLive(c.b, now, now, job);
  }

  lemma HolderShape(m: Manager, pair: Pair, now: u64)
    ensures var r := L.Reply(m, Call(now, L.ActiveFor(pair)));
            r.Holder? && (Holds(m, pair, now) <==> r.lease.Some?)
  {
  }

  /**
   * A granted acquire is held at once, by the side asked and, with the link up, by the other side
   * too; with the link down the other side answers as before. A TTL of zero or the clock's last
   * instant grants a lease that is never held.
   */
  lemma AcquireLands(c: State, from: u64, now: u64, side: Side, pair: Pair)
    requires Inv(c, from) && from <= now && Room(c, 1)
    requires Reply(c, Step(now, Acquire(side, pair))).Granted?
    ensures var after := Next(c, Step(now, Acquire(side, pair)));
            (Reply(after, Step(now, HasActive(side, pair))) == Flag(true) <==> c.ttl > 0 && now < U64_MAX) &&
            (c.partitioned ==>
              Replica(after, Other(side)) == Replica(c, Other(side))) &&
            (!c.partitioned && c.ttl > 0 && now < U64_MAX ==>
              Reply(after, Step(now, HasActive(Other(side), pair))) == Flag(true))
  {
    var call := Call(now, L.Acquire(pair));
    var m, other := Replica(c, side), Replica(c, Other(side));
    assert m.ttl == other.ttl == c.ttl;
    hide L.Inv, L.Next, L.Reply, Uniform, View, Later;
    AcquireHolds(m, pair, now);
    AcquireHolds(other, pair, now);
  }

  lemma AcquireHolds(m: Manager, pair: Pair, now: u64)
    requires L.Inv(m) && L.Room(m, 1)
    ensures var r, after := L.Reply(m, Call(now, L.Acquire(pair))), L.Next(m, Call(now, L.Acquire(pair)));
            (m.ttl > 0 && now < U64_MAX ==> Holds(after, pair, now)) &&
            (r.Granted? && !(m.ttl > 0 && now < U64_MAX) ==> !Holds(after, pair, now))
  {
    hide L.Inv, L.Next, L.Reply, Deadlines;
    var call := Call(now, L.Acquire(pair));
    CallOnView(m, call);
    AcquireReply(m, pair, now);
    ActiveReply(L.Next(m, call), pair, now);
  }

  /** Healing a partition keeps exactly what the majority holds: each such pair is then held by one side alone. */
  lemma HealCounts(c: State, healAt: u64, now: u64, pair: Pair)
    requires c.partitioned
    ensures Reply(Next(c, Step(healAt, Heal)), Step(now, GlobalCount(pair))) ==
            Count(if Reply(c, Step(now, HasActive(c.majority, pair))) == Flag(true) then 1 else 0)
  {
    assert !Holds(L.Empty(c.ttl), pair, now);
    hide Holds;
  }

  // ---------------------------------------------------------------------
  // After a quiet TTL

  predicate Quiet(steps: seq<Step>) {
    forall i :: 0 <= i < |steps| ==> !steps[i].op.Acquire? && !steps[i].op.Partition?
  }

  /** Without acquires, nothing is held once a full TTL has passed since `t`. */
  lemma ExpiredView(m: Manager, ttl: u64, t: u64, now: u64)
    requires L.Inv(m) && Uniform(m, ttl, t) && now >= SatAdd(t, ttl)
    ensures View(m, now) == map[]
  {
  }

  lemma {:induction false} QuietKeepsStamps(c: State, t: u64, steps: seq<Step>)
    requires Inv(c, t) && Quiet(steps) && !c.partitioned
    ensures Inv(Run(c, steps), t) && Run(c, steps).ttl == c.ttl && !Run(c, steps).partitioned
    ensures forall n :: Room(c, n) ==> Room(Run(c, steps), n)
    decreases |steps|
  {
    if steps == [] {
    } else {
      hide Inv, Room, Next;
      QuietStep(c, t, steps[0]);
      QuietKeepsStamps(Next(c, steps[0]), t, steps[1..]);
    }
  }

  lemma QuietStep(c: State, t: u64, s: Step)
    requires Inv(c, t) && !s.op.Acquire? && !s.op.Partition? && !c.partitioned
    ensures Inv(Next(c, s), t) && Next(c, s).ttl == c.ttl && !Next(c, s).partitioned
    ensures forall n :: Room(c, n) ==> Room(Next(c, s), n)
  {
    if !s.op.Heal? {
      hide L.Inv, L.Next, Uniform, Next;
      NextShape(c, s);
      QueryKeepsReplica(c.a, ReplicaCall(s), c.ttl, t);
      QueryKeepsReplica(c.b, ReplicaCall(s), c.ttl, t);
    }
  }

  lemma QueryKeepsReplica(m: Manager, c: L.Call, ttl: u64, t: u64)
    requires L.Inv(m) && Uniform(m, ttl, t) && ClusterCall(c) && !c.op.Acquire?
    ensures L.Inv(L.Next(m, c)) && Uniform(L.Next(m, c), ttl, t) && L.Upper(L.Next(m, c)) == L.Upper(m)
  {
    L.SweepKeepsInv(m, c.now);
    CallKeepsUniform(m, c, ttl, t);
  }

  /**
   * Whatever happened during a partition, if no acquire comes for one full TTL after the heal the
   * replicas agree again, and stay in lockstep through every later partition-free run.
   */
  lemma HealThenQuietReconverges(c: State, healAt: u64, quiet: seq<Step>, resume: u64, busy: seq<Step>)
    requires Inv(c, healAt) && c.partitioned && Room(c, Acquires(busy))
    requires Quiet(quiet) && SatAdd(healAt, c.ttl) <= resume && healAt <= resume
    requires Timed(resume, busy) && NoPartition(busy)
    ensures var calm := Run(Next(c, Step(healAt, Heal)), quiet);
            var final := Run(calm, busy);
            Inv(calm, resume) && Agree(calm, resume) &&
            Inv(final, LastTime(resume, busy)) && Agree(final, LastTime(resume, busy))
  {
    hide L.Inv, Uniform, View, Next, Room;
    var healed := Next(c, Step(healAt, Heal));
    HealKeepsInv(c, healAt, Acquires(busy));
    QuietKeepsStamps(healed, healAt, quiet);
    var calm := Run(healed, quiet);
    ExpiredView(calm.a, c.ttl, healAt, resume);
    ExpiredView(calm.b, c.ttl, healAt, resume);
    InvLater(calm, healAt, resume);
    Lockstep(calm, resume, busy);
  }

  // ---------------------------------------------------------------------
  // The mutable cluster

  class TwoReplicaCluster {
    var replicaA: L.LeaseManager
    var replicaB: L.LeaseManager
    var partitioned: bool
    var majority: Side
    const ttl: u64

    ghost predicate Valid()
      reads this
    {
      replicaA != replicaB
    }

    ghost function Model(): State
      reads this, replicaA, replicaB
    {
      State(replicaA.Model(), replicaB.Model(), partitioned, majority, ttl)
    }

    constructor (ttl: u64)
      ensures Valid() && fresh(replicaA) && fresh(replicaB) && Model() == New(ttl)
    {
      replicaA := new L.LeaseManager(ttl);
      replicaB := new L.LeaseManager(ttl);
      partitioned, majority := false, A;
      this.ttl := ttl;
    }

    method Acquire(side: Side, pair: Pair, now: u64) returns (ok: bool)
      requires Valid()
      modifies this, replicaA, replicaB
      ensures Valid() && replicaA == old(replicaA) && replicaB == old(replicaB)
      ensures Model() == Next(old(Model()), Step(now, Op.Acquire(side, pair)))
      ensures Reply(old(Model()), Step(now, Op.Acquire(side, pair))) == if ok then Granted else AlreadyLeased
    {
      var target, other := replicaA, replicaB;
      if side.B? {
        target, other := replicaB, replicaA;
      }
      hide L.Next, L.Reply;
      var r := target.Acquire(pair, now, now);
      if !partitioned && r.Some? {
        var _ := other.Acquire(pair, now, now);
      }
      ok := r.Some?;
    }

    method BeginPartition(winner: Side)
      requires Valid()
      modifies this
      ensures Valid() && replicaA == old(replicaA) && replicaB == old(replicaB)
      ensures forall now :: Model() == Next(old(Model()), Step(now, Partition(winner)))
    {
      partitioned := true;
      majority := winner;
    }

    method HealPartition()
      requires Valid()
      modifies this
      ensures Valid()
      ensures forall now :: Model() == Next(old(Model()), Step(now, Heal))
    {
      if partitioned {
        var empty := new L.LeaseManager(ttl);
        if majority.A? {
          replicaB := empty;
        } else {
          replicaA := empty;
        }
      }
      partitioned := false;
    }

    method SideHasActive(side: Side, pair: Pair, now: u64) returns (r: bool)
      requires Valid()
      modifies replicaA, replicaB
      ensures Valid() && Model() == Next(old(Model()), Step(now, HasActive(side, pair)))
      ensures Flag(r) == Reply(old(Model()), Step(now, HasActive(side, pair)))
    {
      hide L.Next, L.Reply;
      var lease: Option<L.LeaseId>;
      if side.A? {
        lease := replicaA.ActiveLeaseFor(pair, now);
      } else {
        lease := replicaB.ActiveLeaseFor(pair, now);
      }
      r := lease.Some?;
    }

    method GlobalActiveCount(pair: Pair, now: u64) returns (n: nat)
      requires Valid()
      modifies replicaA, replicaB
      ensures Valid() && Model() == Next(old(Model()), Step(now, GlobalCount(pair)))
      ensures Count(n) == Reply(old(Model()), Step(now, GlobalCount(pair)))
    {
      var a := SideHasActive(A, pair, now);
      var b := SideHasActive(B, pair, now);
      n := (if a then 1 else 0) + (if b then 1 else 0);
    }
  }
}
