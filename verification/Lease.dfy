/** Lease lifecycle with lazy expiry (crates/cosaci-state/src/lease.rs). */
module Lease {
  import opened Machine

  type JobId = u64
  type RunnerId = u64
  type LeaseId = u64
  datatype Pair = Pair(job: JobId, runner: RunnerId)

  datatype LeaseState = Active | Completed | Expired
  datatype Lease = Lease(pair: Pair, acquiredAt: u64, ttl: u64, state: LeaseState)

  const ID_COUNT: nat := 0x1_0000_0000_0000_0000

  /** `index` is the source's `active_by_pair`. */
  datatype Manager = Manager(leases: map<LeaseId, Lease>, index: map<Pair, LeaseId>, nextId: LeaseId, ttl: u64)

  function Empty(ttl: u64): Manager {
    Manager(map[], map[], 1, ttl)
  }

  function ExpiresAt(l: Lease): u64 {
    SatAdd(l.acquiredAt, l.ttl)
  }

  /** Active and past its deadline. */
  predicate Due(l: Lease, now: u64) {
    l.state.Active? && now >= ExpiresAt(l)
  }

  function DuePairs(leases: map<LeaseId, Lease>, now: u64): set<Pair> {
    set id | id in leases && Due(leases[id], now) :: leases[id].pair
  }

  function Aged(l: Lease, now: u64): Lease {
    if Due(l, now) then l.(state := Expired) else l
  }

  function AgedAll(leases: map<LeaseId, Lease>, now: u64): map<LeaseId, Lease> {
    map id | id in leases :: Aged(leases[id], now)
  }

  /** `tick` */
  function Sweep(m: Manager, now: u64): Manager {
    m.(leases := AgedAll(m.leases, now), index := m.index - DuePairs(m.leases, now))
  }

  datatype Op =
    | Acquire(pair: Pair)
    | Complete(id: LeaseId)
    | IsActive(id: LeaseId)
    | ActiveFor(pair: Pair)
    | CountForJob(job: JobId)
    | CountActive
    | ActivePairs
    | StateOf(id: LeaseId)

  datatype Answer =
    | Granted(id: LeaseId)
    | AlreadyLeased
    | Nothing
    | Flag(b: bool)
    | Holder(lease: Option<LeaseId>)
    | Count(n: nat)
    | Pairs(pairs: set<Pair>)
    | Status(state: Option<LeaseState>)

  /** What an operation does to an already swept manager; `stamp` is the acquisition time. */
  function Effect(m: Manager, op: Op, stamp: u64): Manager {
    match op
    case Acquire(pair) =>
      if pair in m.index then m
      else Manager(m.leases[m.nextId := Lease(pair, stamp, m.ttl, Active)],
                   m.index[pair := m.nextId], Wrap(m.nextId + 1), m.ttl)
    case Complete(id) =>
      if id in m.leases && m.leases[id].state.Active?
      then m.(leases := m.leases[id := m.leases[id].(state := Completed)],
              index := m.index - {m.leases[id].pair})
      else m
    case _ => m
  }

  function PairsOfJob(index: map<Pair, LeaseId>, job: JobId): set<Pair> {
    set p | p in index && p.job == job
  }

  /** What an operation answers on an already swept manager. */
  function Read(m: Manager, op: Op): Answer {
    match op
    case Acquire(pair) => if pair in m.index then AlreadyLeased else Granted(m.nextId)
    case Complete(_) => Nothing
    case IsActive(id) => Flag(id in m.leases && m.leases[id].state.Active?)
    case ActiveFor(pair) => Holder(if pair in m.index then Some(m.index[pair]) else None)
    case CountForJob(job) => Count(|PairsOfJob(m.index, job)|)
    case CountActive => Count(|m.index|)
    case ActivePairs => Pairs(m.index.Keys)
    case StateOf(id) => Status(if id in m.leases then Some(m.leases[id].state) else None)
  }

  /** One public call: the clock reading of its sweep, and the later one that stamps a new lease. */
  datatype Call = Call(now: u64, stamp: u64, op: Op)

  function Next(m: Manager, c: Call): Manager {
    Effect(Sweep(m, c.now), c.op, c.stamp)
  }

  function Reply(m: Manager, c: Call): Answer {
    Read(Sweep(m, c.now), c.op)
  }

  /** The clock never runs backwards. */
  ghost predicate Timed(from: u64, calls: seq<Call>)
    decreases |calls|
  {
    calls == [] || (from <= calls[0].now <= calls[0].stamp && Timed(calls[0].stamp, calls[1..]))
  }

  function Run(m: Manager, calls: seq<Call>): Manager
    decreases |calls|
  {
    if calls == [] then m else Run(Next(m, calls[0]), calls[1..])
  }

  function Replies(m: Manager, calls: seq<Call>): seq<Answer>
    decreases |calls|
  {
    if calls == [] then [] else [Reply(m, calls[0])] + Replies(Next(m, calls[0]), calls[1..])
  }

  // ---------------------------------------------------------------------
  // The index is exactly the set of Active leases

  /** Identifiers below this one have been handed out. */
  function Upper(m: Manager): nat {
    if m.nextId == 0 then ID_COUNT else m.nextId
  }

  ghost predicate IndexExact(m: Manager) {
    (forall p :: p in m.index ==>
      m.index[p] in m.leases && m.leases[m.index[p]].state.Active? && m.leases[m.index[p]].pair == p) &&
    (forall id :: id in m.leases && m.leases[id].state.Active? ==>
      m.leases[id].pair in m.index && m.index[m.leases[id].pair] == id)
  }

  ghost predicate Inv(m: Manager) {
    IndexExact(m) && forall id :: id in m.leases ==> 1 <= id < Upper(m)
  }

  lemma SweepKeepsInv(m: Manager, now: u64)
    requires Inv(m)
    ensures Inv(Sweep(m, now))
  {
  }

  /** Number of acquires; nothing else hands out an identifier. */
  function Acquires(calls: seq<Call>): nat
    decreases |calls|
  {
    if calls == [] then 0 else Cost(calls[0].op) + Acquires(calls[1..])
  }

  function Cost(op: Op): nat {
    if op.Acquire? then 1 else 0
  }

  /** Room for `n` more identifiers before they wrap. */
  predicate Room(m: Manager, n: nat) {
    Upper(m) + n <= ID_COUNT
  }

  lemma EffectKeepsInv(m: Manager, op: Op, stamp: u64)
    requires Inv(m) && Room(m, Cost(op))
    ensures Inv(Effect(m, op, stamp)) && Upper(m) <= Upper(Effect(m, op, stamp)) <= Upper(m) + Cost(op)
  {
  }

  lemma {:induction false} RunKeepsInv(m: Manager, calls: seq<Call>)
    requires Inv(m) && Room(m, Acquires(calls))
    ensures Inv(Run(m, calls))
    decreases |calls|
  {
    if calls == [] {
    } else {
      SweepKeepsInv(m, calls[0].now);
      EffectKeepsInv(Sweep(m, calls[0].now), calls[0].op, calls[0].stamp);
      RunKeepsInv(Next(m, calls[0]), calls[1..]);
    }
  }

  // ---------------------------------------------------------------------
  // The answers, from the leases alone

  /** Not closed, and `now` is before its time runs out; the last instant of the clock ends every lease. */
  predicate Live(m: Manager, id: LeaseId, now: u64) {
    id in m.leases && m.leases[id].state.Active? &&
    now < m.leases[id].acquiredAt + m.leases[id].ttl && now < U64_MAX
  }

  function LiveIds(m: Manager, now: u64): set<LeaseId> {
    set id | id in m.leases && Live(m, id, now)
  }

  lemma SweptIsLive(m: Manager, now: u64, id: LeaseId)
    ensures id in Sweep(m, now).leases && Sweep(m, now).leases[id].state.Active? <==> Live(m, id, now)
    ensures id in m.leases ==> Sweep(m, now).leases[id].pair == m.leases[id].pair
  {
  }

  lemma SweptIndex(m: Manager, now: u64, pair: Pair, id: LeaseId)
    requires Inv(m)
    ensures pair in Sweep(m, now).index && Sweep(m, now).index[pair] == id <==>
            Live(m, id, now) && m.leases[id].pair == pair
  {
    SweepKeepsInv(m, now);
    SweptIsLive(m, now, id);
    hide Sweep, Live;
  }

  /** A pair is refused exactly while a live lease holds it, and the lease reported for it is that one. */
  lemma HolderIsLive(m: Manager, now: u64, stamp: u64, pair: Pair, id: LeaseId)
    requires Inv(m)
    ensures Reply(m, Call(now, stamp, ActiveFor(pair))) == Holder(Some(id)) <==>
            Live(m, id, now) && m.leases[id].pair == pair
    ensures Reply(m, Call(now, stamp, Acquire(pair))).AlreadyLeased? <==>
            exists i :: Live(m, i, now) && m.leases[i].pair == pair
    ensures Reply(m, Call(now, stamp, IsActive(id))) == Flag(Live(m, id, now))
  {
    SweptIsLive(m, now, id);
    SweptIndex(m, now, pair, id);
    var swept := Sweep(m, now);
    if pair in swept.index {
      SweptIndex(m, now, pair, swept.index[pair]);
    } else {
      forall i ensures !(Live(m, i, now) && m.leases[i].pair == pair) {
        SweptIndex(m, now, pair, i);
      }
    }
    hide Sweep, Live;
  }

  function PairsOf(leases: map<LeaseId, Lease>, ids: set<LeaseId>): set<Pair>
    requires ids <= leases.Keys
  {
    set id | id in ids :: leases[id].pair
  }

  lemma {:induction false} PairsCount(leases: map<LeaseId, Lease>, ids: set<LeaseId>)
    requires ids <= leases.Keys
    requires forall i, j :: i in ids && j in ids && leases[i].pair == leases[j].pair ==> i == j
    ensures |PairsOf(leases, ids)| == |ids|
  {
    if ids == {} {
    } else {
      var i :| i in ids;
      PairsCount(leases, ids - {i});
      assert PairsOf(leases, ids) == PairsOf(leases, ids - {i}) + {leases[i].pair};
    }
  }

  lemma LiveDiffer(m: Manager, now: u64)
    requires Inv(m)
    ensures forall i, j :: i in LiveIds(m, now) && j in LiveIds(m, now) && m.leases[i].pair == m.leases[j].pair ==> i == j
  {
  }

  lemma IndexIsLivePairs(m: Manager, now: u64)
    requires Inv(m)
    ensures Sweep(m, now).index.Keys == PairsOf(m.leases, LiveIds(m, now))
  {
    var index := Sweep(m, now).index;
    forall p ensures p in index <==> p in PairsOf(m.leases, LiveIds(m, now)) {
      if p in index {
        SweptIndex(m, now, p, index[p]);
      }
      if p in PairsOf(m.leases, LiveIds(m, now)) {
        var id :| id in LiveIds(m, now) && m.leases[id].pair == p;
        SweptIndex(m, now, p, id);
      }
    }
  }

  function LiveOfJob(m: Manager, job: JobId, now: u64): set<LeaseId> {
    set id | id in m.leases && Live(m, id, now) && m.leases[id].pair.job == job
  }

  /** The counts are the numbers of live leases, and the pairs reported are theirs. */
  lemma CountsAreLive(m: Manager, now: u64, stamp: u64, job: JobId)
    requires Inv(m)
    ensures Reply(m, Call(now, stamp, ActivePairs)) == Pairs(PairsOf(m.leases, LiveIds(m, now)))
    ensures Reply(m, Call(now, stamp, CountActive)) == Count(|LiveIds(m, now)|)
    ensures Reply(m, Call(now, stamp, CountForJob(job))) == Count(|LiveOfJob(m, job, now)|)
  {
    IndexIsLivePairs(m, now);
    LiveDiffer(m, now);
    JobPairs(m, now, job);
    var all, ids := LiveIds(m, now), LiveOfJob(m, job, now);
    assert ids <= all <= m.leases.Keys;
    hide Sweep, LiveIds, LiveOfJob, PairsOf;
    PairsCount(m.leases, all);
    PairsCount(m.leases, ids);
    var index := Sweep(m, now).index;
    assert |index| == |index.Keys|;
  }

  lemma JobPairs(m: Manager, now: u64, job: JobId)
    requires Sweep(m, now).index.Keys == PairsOf(m.leases, LiveIds(m, now))
    ensures PairsOfJob(Sweep(m, now).index, job) == PairsOf(m.leases, LiveOfJob(m, job, now))
  {
    hide Sweep, Live;
    var index := Sweep(m, now).index;
    forall p ensures p in PairsOfJob(index, job) <==> p in PairsOf(m.leases, LiveOfJob(m, job, now)) {
      if p in index {
        var id :| id in LiveIds(m, now) && m.leases[id].pair == p;
        assert p.job == job ==> id in LiveOfJob(m, job, now);
      }
    }
  }

  // ---------------------------------------------------------------------
  // Lazy expiry against a clock that expires leases at every instant

  /** Sweeps at every instant from `from` through `until`. */
  function Advance(m: Manager, from: u64, until: u64): Manager
    requires from <= until
    decreases until - from
  {
    var swept := Sweep(m, from);
    if from == until then swept else Advance(swept, from + 1, until)
  }

  lemma SweepTwice(m: Manager, s: u64, t: u64)
    requires s <= t
    ensures Sweep(Sweep(m, s), t) == Sweep(m, t)
  {
    var leases := AgedAll(m.leases, s);
    forall p ensures p in DuePairs(m.leases, t) <==> p in DuePairs(m.leases, s) || p in DuePairs(leases, t) {
      if p in DuePairs(m.leases, t) {
        var id :| id in m.leases && Due(m.leases[id], t) && m.leases[id].pair == p;
        if !Due(m.leases[id], s) {
          assert Due(leases[id], t);
        }
      }
      if p in DuePairs(leases, t) {
        var id :| id in leases && Due(leases[id], t) && leases[id].pair == p;
        assert Due(m.leases[id], t);
      }
      if p in DuePairs(m.leases, s) {
        var id :| id in m.leases && Due(m.leases[id], s) && m.leases[id].pair == p;
        assert Due(m.leases[id], t);
      }
    }
    assert m.index - DuePairs(m.leases, s) - DuePairs(leases, t) == m.index - DuePairs(m.leases, t);
  }

  lemma {:induction false} AdvanceIsSweep(m: Manager, from: u64, until: u64)
    requires from <= until
    ensures Advance(m, from, until) == Sweep(m, until)
    decreases until - from
  {
    if from == until {
    } else {
      AdvanceIsSweep(Sweep(m, from), from + 1, until);
      SweepTwice(m, from, until);
    }
  }

  /** The eager manager: the clock sweeps at every instant, the calls themselves never do. */
  ghost function EagerReplies(m: Manager, from: u64, calls: seq<Call>): seq<Answer>
    requires Timed(from, calls)
    decreases |calls|
  {
    if calls == [] then []
    else
      var c := calls[0];
      var m1 := Advance(m, from, c.now);
      var m2 := Advance(Effect(m1, c.op, c.stamp), c.now, c.stamp);
      [Read(m1, c.op)] + EagerReplies(m2, c.stamp, calls[1..])
  }

  /** Lazy expiry is indistinguishable from expiry at the exact deadline, in every run. */
  lemma {:induction false} LazyEqualsEager(m: Manager, from: u64, calls: seq<Call>)
    requires Timed(from, calls)
    ensures Replies(m, calls) == EagerReplies(Sweep(m, from), from, calls)
    decreases |calls|
  {
    if calls == [] {
    } else {
      var c := calls[0];
      AdvanceIsSweep(Sweep(m, from), from, c.now);
      SweepTwice(m, from, c.now);
      AdvanceIsSweep(Next(m, c), c.now, c.stamp);
      LazyEqualsEager(Next(m, c), c.stamp, calls[1..]);
    }
  }

  // ---------------------------------------------------------------------
  // The life of one lease over a run

  /** Some `complete(id)` call came before the deadline. */
  predicate CompletedInTime(calls: seq<Call>, id: LeaseId, deadline: u64) {
    exists i :: 0 <= i < |calls| && calls[i].op == Complete(id) && calls[i].now < deadline
  }

  /** What one call makes of a lease: its deadline first, then an explicit completion. */
  function StateStep(l: Lease, id: LeaseId, c: Call): LeaseState {
    if !l.state.Active? then l.state
    else if c.now >= ExpiresAt(l) then Expired
    else if c.op == Complete(id) then Completed
    else Active
  }

  lemma StepOnLease(m: Manager, c: Call, id: LeaseId)
    requires Inv(m) && Room(m, Cost(c.op)) && id in m.leases
    ensures Inv(Next(m, c)) && Upper(Next(m, c)) <= Upper(m) + Cost(c.op)
    ensures id in Next(m, c).leases
    ensures Next(m, c).leases[id] == m.leases[id].(state := StateStep(m.leases[id], id, c))
  {
    SweepKeepsInv(m, c.now);
    EffectKeepsInv(Sweep(m, c.now), c.op, c.stamp);
  }

  /** Closed leases never change again. */
  lemma {:induction false} ClosedIsFinal(m: Manager, calls: seq<Call>, id: LeaseId)
    requires Inv(m) && Room(m, Acquires(calls))
    requires id in m.leases && !m.leases[id].state.Active?
    ensures id in Run(m, calls).leases && Run(m, calls).leases[id] == m.leases[id]
    decreases |calls|
  {
    hide Inv, Next;
    if calls == [] {
    } else {
      StepOnLease(m, calls[0], id);
      ClosedIsFinal(Next(m, calls[0]), calls[1..], id);
    }
  }

  function StateAfter(l: Lease, completed: bool, now: u64): LeaseState {
    if completed then Completed else if now >= ExpiresAt(l) then Expired else Active
  }

  lemma StatusReply(m: Manager, id: LeaseId, t: u64)
    requires id in m.leases
    ensures Reply(m, Call(t, t, StateOf(id))) == Status(Some(Aged(m.leases[id], t).state))
  {
  }

  /**
   * From its grant on, a lease's status at any time is decided by its deadline and by whether a
   * completion was called before the deadline; nothing else in the run matters.
   */
  lemma {:induction false} LeaseLife(m: Manager, from: u64, calls: seq<Call>, id: LeaseId, t: u64)
    requires Inv(m) && Room(m, Acquires(calls)) && Timed(from, calls)
    requires id in m.leases && m.leases[id].state.Active?
    requires from <= t && forall i :: 0 <= i < |calls| ==> calls[i].stamp <= t
    ensures var l := m.leases[id];
            Reply(Run(m, calls), Call(t, t, StateOf(id))) ==
            Status(Some(StateAfter(l, CompletedInTime(calls, id, ExpiresAt(l)), t)))
    decreases |calls|
  {
    hide Inv, Next, Reply;
    var l := m.leases[id];
    if calls == [] {
      StatusReply(m, id, t);
    } else {
      var c := calls[0];
      StepOnLease(m, c, id);
      if Next(m, c).leases[id].state.Active? {
        assert forall i :: 0 <= i < |calls[1..]| ==> calls[1..][i] == calls[i + 1];
        LeaseLife(Next(m, c), c.stamp, calls[1..], id, t);
        CompletedLater(calls, id, ExpiresAt(l));
      } else {
        ClosedIsFinal(Next(m, c), calls[1..], id);
        StatusReply(Run(m, calls), id, t);
        if c.now < ExpiresAt(l) {
          assert calls[0].op == Complete(id);
        } else {
          TimesGrow(from, calls);
        }
      }
    }
  }

  lemma CompletedLater(calls: seq<Call>, id: LeaseId, deadline: u64)
    requires calls != [] && !(calls[0].op == Complete(id) && calls[0].now < deadline)
    ensures CompletedInTime(calls, id, deadline) <==> CompletedInTime(calls[1..], id, deadline)
  {
    if CompletedInTime(calls, id, deadline) {
      var i :| 0 <= i < |calls| && calls[i].op == Complete(id) && calls[i].now < deadline;
      assert calls[1..][i - 1] == calls[i];
    }
    if CompletedInTime(calls[1..], id, deadline) {
      var i :| 0 <= i < |calls[1..]| && calls[1..][i].op == Complete(id) && calls[1..][i].now < deadline;
      assert calls[i + 1] == calls[1..][i];
    }
  }

  lemma {:induction false} TimesGrow(from: u64, calls: seq<Call>)
    requires Timed(from, calls) && calls != []
    ensures forall i :: 0 <= i < |calls| ==> calls[0].now <= calls[i].now
    decreases |calls|
  {
    if |calls| == 1 {
    } else {
      TimesGrow(calls[0].stamp, calls[1..]);
      assert forall i :: 1 <= i < |calls| ==> calls[i] == calls[1..][i - 1];
    }
  }

  /**
   * Two grants to one (job, runner) pair never overlap: the earlier lease was completed before its
   * deadline, or the later grant is at or past that deadline.
   */
  lemma GrantsNeverOverlap(m: Manager, from: u64, first: Call, calls: seq<Call>, second: Call)
    requires Inv(m) && Room(m, 1 + Acquires(calls))
    requires Timed(from, [first] + calls + [second])
    requires first.op.Acquire? && second.op == first.op
    requires Reply(m, first).Granted? && Reply(Run(Next(m, first), calls), second).Granted?
    ensures var deadline := SatAdd(first.stamp, m.ttl);
            second.now >= deadline || CompletedInTime(calls, Reply(m, first).id, deadline)
  {
    hide Inv, Next, Reply, Run, CompletedInTime, Timed;
    var id := Reply(m, first).id;
    var m1 := Next(m, first);
    GrantAdds(m, first);
    TimedParts(from, first, calls, second);
    LeaseLife(m1, first.stamp, calls, id, second.now);
    RunKeepsPairs(m1, calls, id);
    RunKeepsInv(m1, calls);
    GrantMeansNoneActive(Run(m1, calls), second, id);
  }

  lemma GrantAdds(m: Manager, c: Call)
    requires Inv(m) && Room(m, 1) && Reply(m, c).Granted?
    ensures Inv(Next(m, c)) && Upper(Next(m, c)) == Upper(m) + 1
    ensures Reply(m, c).id in Next(m, c).leases
    ensures Next(m, c).leases[Reply(m, c).id] == Lease(c.op.pair, c.stamp, m.ttl, Active)
  {
    SweepKeepsInv(m, c.now);
    EffectKeepsInv(Sweep(m, c.now), c.op, c.stamp);
  }

  /**
   * A granted lease in plain numbers: through any run it is completed if a completion came less than
   * a TTL after the grant, else live until a TTL after the grant, then expired. The clock's last
   * instant counts as past every deadline.
   */
  lemma GrantLife(m: Manager, first: Call, calls: seq<Call>, t: u64)
    requires Inv(m) && Room(m, 1 + Acquires(calls)) && Timed(first.stamp, calls)
    requires first.op.Acquire? && Reply(m, first).Granted?
    requires first.stamp <= t && forall i :: 0 <= i < |calls| ==> calls[i].stamp <= t
    ensures var status := Reply(Run(Next(m, first), calls), Call(t, t, StateOf(Reply(m, first).id)));
            var done := exists i :: 0 <= i < |calls| && calls[i].op == Complete(Reply(m, first).id) &&
                                    calls[i].now < first.stamp + m.ttl && calls[i].now < U64_MAX;
            status == Status(Some(if done then Completed
                                  else if t < first.stamp + m.ttl && t < U64_MAX then Active
                                  else Expired))
  {
    hide Inv, Next, Reply, Run, CompletedInTime;
    GrantAdds(m, first);
    LeaseLife(Next(m, first), first.stamp, calls, Reply(m, first).id, t);
    InTimeIs(calls, Reply(m, first).id, first.stamp, m.ttl);
  }

  lemma InTimeIs(calls: seq<Call>, id: LeaseId, stamp: u64, ttl: u64)
    ensures CompletedInTime(calls, id, SatAdd(stamp, ttl)) <==>
            exists i :: 0 <= i < |calls| && calls[i].op == Complete(id) &&
                        calls[i].now < stamp + ttl && calls[i].now < U64_MAX
  {
  }

  lemma GrantMeansNoneActive(m: Manager, c: Call, id: LeaseId)
    requires Inv(m) && c.op.Acquire? && Reply(m, c).Granted?
    requires id in m.leases && m.leases[id].pair == c.op.pair
    ensures Reply(m, Call(c.now, c.now, StateOf(id))) != Status(Some(Active))
  {
    SweepKeepsInv(m, c.now);
  }

  lemma TimedParts(from: u64, first: Call, calls: seq<Call>, second: Call)
    requires Timed(from, [first] + calls + [second])
    ensures Timed(first.stamp, calls) && first.stamp <= second.now
    ensures forall i :: 0 <= i < |calls| ==> calls[i].stamp <= second.now
  {
    assert ([first] + calls + [second])[1..] == calls + [second];
    TimedPrefix(first.stamp, calls, second);
  }

  lemma {:induction false} TimedPrefix(from: u64, calls: seq<Call>, last: Call)
    requires Timed(from, calls + [last])
    ensures Timed(from, calls) && from <= last.now
    ensures forall i :: 0 <= i < |calls| ==> calls[i].stamp <= last.now
    decreases |calls|
  {
    if calls == [] {
    } else {
      assert (calls + [last])[1..] == calls[1..] + [last];
      TimedPrefix(calls[0].stamp, calls[1..], last);
      assert forall i :: 1 <= i < |calls| ==> calls[i] == calls[1..][i - 1];
    }
  }

  lemma {:induction false} RunKeepsPairs(m: Manager, calls: seq<Call>, id: LeaseId)
    requires Inv(m) && Room(m, Acquires(calls))
    requires id in m.leases
    ensures id in Run(m, calls).leases && Run(m, calls).leases[id].pair == m.leases[id].pair
    decreases |calls|
  {
    hide Inv, Next;
    if calls == [] {
    } else {
      StepOnLease(m, calls[0], id);
      RunKeepsPairs(Next(m, calls[0]), calls[1..], id);
    }
  }

  // ---------------------------------------------------------------------
  // The mutable manager; every clock reading is a parameter

  /** The leases with those in `gone` expired. */
  function ExpireSome(leases: map<LeaseId, Lease>, gone: set<LeaseId>): map<LeaseId, Lease> {
    map id | id in leases :: if id in gone then leases[id].(state := Expired) else leases[id]
  }

  class LeaseManager {
    var leases: map<LeaseId, Lease>
    var index: map<Pair, LeaseId>
    var nextId: LeaseId
    const ttl: u64

    ghost function Model(): Manager
      reads this
    {
      Manager(leases, index, nextId, ttl)
    }

    constructor (ttl: u64)
      ensures Model() == Empty(ttl)
    {
      leases, index, nextId := map[], map[], 1;
      this.ttl := ttl;
    }

    method Tick(now: u64)
      modifies this
      ensures Model() == Sweep(old(Model()), now)
    {
      ghost var start := leases;
      var toExpire := set id | id in leases && Due(leases[id], now);
      var rest := toExpire;
      assert ExpireSome(start, {}) == start;
      assert toExpire - rest == {};
      while rest != {}
        invariant rest <= toExpire && toExpire <= start.Keys
        invariant leases == ExpireSome(start, toExpire - rest)
        invariant index == old(index) - PairsOf(start, toExpire - rest)
        invariant nextId == old(nextId)
      {
        var id :| id in rest;
        assert toExpire - (rest - {id}) == (toExpire - rest) + {id};
        index := index - {leases[id].pair};
        leases := leases[id := leases[id].(state := Expired)];
        rest := rest - {id};
      }
      assert toExpire - {} == toExpire;
      assert ExpireSome(start, toExpire) == AgedAll(start, now);
      assert PairsOf(start, toExpire) == DuePairs(start, now);
    }

    method Acquire(pair: Pair, now: u64, stamp: u64) returns (r: Option<LeaseId>)
      modifies this
      ensures Model() == Next(old(Model()), Call(now, stamp, Op.Acquire(pair)))
      ensures Reply(old(Model()), Call(now, stamp, Op.Acquire(pair))) ==
              if r.Some? then Granted(r.value) else AlreadyLeased
    {
      Tick(now);
      if pair in index {
        return None;
      }
      var id := nextId;
      nextId := Wrap(nextId + 1);
      leases := leases[id := Lease(pair, stamp, ttl, Active)];
      index := index[pair := id];
      return Some(id);
    }

    method Complete(id: LeaseId, now: u64)
      modifies this
      ensures Model() == Next(old(Model()), Call(now, now, Op.Complete(id)))
    {
      Tick(now);
      if id in leases && leases[id].state.Active? {
        index := index - {leases[id].pair};
        leases := leases[id := leases[id].(state := Completed)];
      }
    }

    method ActiveLeaseFor(pair: Pair, now: u64) returns (r: Option<LeaseId>)
      modifies this
      ensures Model() == Next(old(Model()), Call(now, now, ActiveFor(pair)))
      ensures Holder(r) == Reply(old(Model()), Call(now, now, ActiveFor(pair)))
    {
      Tick(now);
      r := if pair in index then Some(index[pair]) else None;
    }

    method CountActiveForJob(job: JobId, now: u64) returns (n: nat)
      modifies this
      ensures Model() == Next(old(Model()), Call(now, now, CountForJob(job)))
      ensures Count(n) == Reply(old(Model()), Call(now, now, CountForJob(job)))
    {
      Tick(now);
      n := |PairsOfJob(index, job)|;
    }

    method StateOfLease(id: LeaseId, now: u64) returns (r: Option<LeaseState>)
      modifies this
      ensures Model() == Next(old(Model()), Call(now, now, StateOf(id)))
      ensures Status(r) == Reply(old(Model()), Call(now, now, StateOf(id)))
    {
      Tick(now);
      r := if id in leases then Some(leases[id].state) else None;
    }
  }
}
