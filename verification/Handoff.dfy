/** The store whose rebalance is phased (crates/cosaci-state/src/sharding_handoff.rs). */
module Handoff {
  import opened Machine
  import opened Sharding

  /** `previous` is present exactly while a rebalance is in progress. */
  datatype State = State(current: seq<Shard>, previous: Option<seq<Shard>>)

  /** Both shard sets are routed and no key is in both. */
  ghost predicate Inv(s: State) {
    Routed(s.current) &&
    (s.previous.Some? ==> Routed(s.previous.value) && Flat(s.current).Keys !! Flat(s.previous.value).Keys)
  }

  /** The one flat map the store presents. */
  ghost function Contents(s: State): map<Key, Value>
    requires Inv(s)
  {
    match s.previous
    case None => Flat(s.current)
    case Some(previous) => Flat(s.current) + Flat(previous)
  }

  datatype Op =
    | Put(key: Key, value: Value)
    | Get(key: Key)
    | Remove(key: Key)
    | Len
    | Begin(n: nat)
    | Migrate(key: Key)
    | Complete

  datatype Answer = Ack | Found(value: Option<Value>) | Count(n: nat) | Hidden

  /** What `begin_rebalance` asserts of its caller; the other operations ask nothing. */
  predicate Allowed(s: State, op: Op) {
    op.Begin? ==> op.n > 0 && s.previous.None?
  }

  function DeleteOld(previous: Option<seq<Shard>>, key: Key): Option<seq<Shard>>
    requires previous.Some? ==> |previous.value| > 0
  {
    if previous.Some? then Some(Delete(previous.value, key)) else None
  }

  function LookupOld(previous: Option<seq<Shard>>, key: Key): Option<Value>
    requires previous.Some? ==> |previous.value| > 0
  {
    if previous.Some? then Lookup(previous.value, key) else None
  }

  /** New shards first, then the old ones. */
  function Read(s: State, key: Key): Option<Value>
    requires |s.current| > 0 && (s.previous.Some? ==> |s.previous.value| > 0)
  {
    var v := Lookup(s.current, key);
    if v.Some? then v else LookupOld(s.previous, key)
  }

  function MoveKey(s: State, key: Key): State
    requires |s.current| > 0 && (s.previous.Some? ==> |s.previous.value| > 0)
  {
    match LookupOld(s.previous, key)
    case None => s
    case Some(v) => State(Insert(s.current, key, v), DeleteOld(s.previous, key))
  }

  function Size(s: State): nat {
    Load(s.current) + (if s.previous.Some? then Load(s.previous.value) else 0)
  }

  ghost function Next(s: State, op: Op): State
    requires Inv(s) && Allowed(s, op)
  {
    match op
    case Put(k, v) => State(Insert(s.current, k, v), DeleteOld(s.previous, k))
    case Remove(k) => State(Delete(s.current, k), DeleteOld(s.previous, k))
    case Begin(n) => State(EmptyShards(n), Some(s.current))
    case Migrate(k) => MoveKey(s, k)
    case Complete => if s.previous.None? then s else State(Layout(Contents(s), |s.current|), None)
    case Get(_) => s
    case Len => s
  }

  ghost function Reply(s: State, op: Op): Answer
    requires Inv(s)
  {
    match op
    case Put(_, _) => Ack
    case Get(k) => Found(Read(s, k))
    case Remove(k) => Found(Read(s, k))
    case Len => Count(Size(s))
    case _ => Hidden
  }

  // ---------------------------------------------------------------------
  // The specification: one flat map, to which a rebalance means nothing

  function FlatNext(m: map<Key, Value>, op: Op): map<Key, Value> {
    match op
    case Put(k, v) => m[k := v]
    case Remove(k) => m - {k}
    case _ => m
  }

  function FlatReply(m: map<Key, Value>, op: Op): Answer {
    match op
    case Put(_, _) => Ack
    case Get(k) => Found(Find(m, k))
    case Remove(k) => Found(Find(m, k))
    case Len => Count(|m|)
    case _ => Hidden
  }

  lemma ReadIsFind(s: State, key: Key)
    requires Inv(s)
    ensures Read(s, key) == Find(Contents(s), key)
  {
    hide Routed, Flat, Lookup;
    LookupIsFind(s.current, key);
    if s.previous.Some? {
      LookupIsFind(s.previous.value, key);
    }
  }

  lemma SizeIsCount(s: State)
    requires Inv(s)
    ensures Size(s) == |Contents(s)|
  {
    hide Routed, Flat, Load;
    LoadIsSize(s.current);
    if s.previous.Some? {
      LoadIsSize(s.previous.value);
      SizeOfUnion(Flat(s.current), Flat(s.previous.value));
    }
  }

  lemma SizeOfUnion(a: map<Key, Value>, b: map<Key, Value>)
    requires a.Keys !! b.Keys
    ensures |a + b| == |a| + |b|
  {
    assert (a + b).Keys == a.Keys + b.Keys;
    assert |a + b| == |(a + b).Keys| && |a| == |a.Keys| && |b| == |b.Keys|;
  }

  // Map algebra for two maps with disjoint keys

  lemma UpdateFirst(a: map<Key, Value>, b: map<Key, Value>, k: Key, v: Value)
    requires a.Keys !! b.Keys
    ensures a[k := v].Keys !! (b - {k}).Keys
    ensures a[k := v] + (b - {k}) == (a + b)[k := v]
  {
  }

  lemma RemoveBoth(a: map<Key, Value>, b: map<Key, Value>, k: Key)
    requires a.Keys !! b.Keys
    ensures (a - {k}).Keys !! (b - {k}).Keys
    ensures (a - {k}) + (b - {k}) == (a + b) - {k}
  {
  }

  lemma EditRefines(s: State, op: Op)
    requires Inv(s) && (op.Put? || op.Remove?)
    ensures Inv(Next(s, op)) && Contents(Next(s, op)) == FlatNext(Contents(s), op)
  {
    hide Routed, Flat, Insert, Delete;
    var k := op.key;
    if op.Put? {
      InsertIsUpdate(s.current, k, op.value);
    } else {
      DeleteIsRemoval(s.current, k);
    }
    if s.previous.Some? {
      DeleteIsRemoval(s.previous.value, k);
      var a, b := Flat(s.current), Flat(s.previous.value);
      if op.Put? {
        UpdateFirst(a, b, k, op.value);
      } else {
        RemoveBoth(a, b, k);
      }
    }
  }

  lemma MoveAcross(a: map<Key, Value>, b: map<Key, Value>, key: Key)
    requires a.Keys !! b.Keys && key in b
    ensures a[key := b[key]].Keys !! (b - {key}).Keys && a[key := b[key]] + (b - {key}) == a + b
  {
  }

  lemma MoveRefines(s: State, key: Key)
    requires Inv(s)
    ensures Inv(MoveKey(s, key)) && Contents(MoveKey(s, key)) == Contents(s)
  {
    var v := LookupOld(s.previous, key);
    if v.Some? {
      hide Routed, Flat, Insert, Delete, Lookup;
      var a, b := Flat(s.current), Flat(s.previous.value);
      LookupIsFind(s.previous.value, key);
      InsertIsUpdate(s.current, key, v.value);
      DeleteIsRemoval(s.previous.value, key);
      MoveAcross(a, b, key);
    }
  }

  lemma BeginRefines(s: State, n: nat)
    requires Inv(s) && s.previous.None? && n > 0
    ensures Inv(State(EmptyShards(n), Some(s.current))) && Contents(State(EmptyShards(n), Some(s.current))) == Contents(s)
  {
    hide Routed, Flat, EmptyShards;
    EmptyIsEmpty(n);
    var none: map<Key, Value> := map[];
    assert none + Flat(s.current) == Flat(s.current);
  }

  lemma ShardsExist(s: State)
    requires Inv(s)
    ensures |s.current| > 0 && (s.previous.Some? ==> |s.previous.value| > 0)
  {
  }

  /** One step of the store is one step of the flat map, with the same answer. */
  lemma StepRefines(s: State, op: Op)
    requires Inv(s) && Allowed(s, op)
    ensures Inv(Next(s, op)) && Contents(Next(s, op)) == FlatNext(Contents(s), op)
    ensures Reply(s, op) == FlatReply(Contents(s), op)
  {
    hide Routed, Flat, Layout, Insert, Delete, EmptyShards, Read, Size, MoveKey;
    match op {
      case Put(_, _) => EditRefines(s, op);
      case Remove(k) => EditRefines(s, op); ReadIsFind(s, k);
      case Get(k) => ReadIsFind(s, k);
      case Len => SizeIsCount(s);
      case Begin(n) => BeginRefines(s, n);
      case Migrate(k) => MoveRefines(s, k);
      case Complete => ShardsExist(s); LayoutIsRouted(Contents(s), |s.current|);
    }
  }

  // ---------------------------------------------------------------------
  // Whole runs

  ghost predicate RunAllowed(s: State, ops: seq<Op>)
    requires Inv(s)
    decreases |ops|
  {
    ops == [] ||
    (Allowed(s, ops[0]) && (StepRefines(s, ops[0]); RunAllowed(Next(s, ops[0]), ops[1..])))
  }

  ghost function Run(s: State, ops: seq<Op>): (r: (State, seq<Answer>))
    requires Inv(s) && RunAllowed(s, ops)
    decreases |ops|
  {
    if ops == [] then (s, [])
    else
      StepRefines(s, ops[0]);
      var rest := Run(Next(s, ops[0]), ops[1..]);
      (rest.0, [Reply(s, ops[0])] + rest.1)
  }

  ghost function FlatRun(m: map<Key, Value>, ops: seq<Op>): (map<Key, Value>, seq<Answer>)
    decreases |ops|
  {
    if ops == [] then (m, [])
    else
      var rest := FlatRun(FlatNext(m, ops[0]), ops[1..]);
      (rest.0, [FlatReply(m, ops[0])] + rest.1)
  }

  /** Every run of the phased store is a run of one flat map, answer for answer. */
  lemma {:induction false} RunRefines(s: State, ops: seq<Op>)
    requires Inv(s) && RunAllowed(s, ops)
    ensures Inv(Run(s, ops).0)
    ensures Contents(Run(s, ops).0) == FlatRun(Contents(s), ops).0
    ensures Run(s, ops).1 == FlatRun(Contents(s), ops).1
    decreases |ops|
  {
    if ops == [] {
    } else {
      StepRefines(s, ops[0]);
      RunRefines(Next(s, ops[0]), ops[1..]);
    }
  }

  /** In every invariant state a live key is in exactly one shard of exactly one shard set. */
  lemma OneHome(s: State, key: Key)
    requires Inv(s)
    ensures key in Contents(s) <==>
            Lookup(s.current, key).Some? || LookupOld(s.previous, key).Some?
    ensures !(Lookup(s.current, key).Some? && LookupOld(s.previous, key).Some?)
    ensures forall i :: 0 <= i < |s.current| && key in s.current[i] ==> i == ShardOf(key, |s.current|)
    ensures s.previous.Some? ==> forall i :: 0 <= i < |s.previous.value| && key in s.previous.value[i] ==>
            i == ShardOf(key, |s.previous.value|)
  {
    OwnedKeys(s.current, key);
    if s.previous.Some? {
      OwnedKeys(s.previous.value, key);
    }
  }

  // ---------------------------------------------------------------------
  // Where the keys are: a reference machine of two flat maps

  /** The entries in the new shards and, while migrating, those still in the old ones. */
  datatype Homes = Homes(live: map<Key, Value>, stale: Option<map<Key, Value>>, count: nat)

  ghost function HomesOf(s: State): Homes
    requires Inv(s)
  {
    Homes(Flat(s.current), if s.previous.Some? then Some(Flat(s.previous.value)) else None, |s.current|)
  }

  function Without(m: Option<map<Key, Value>>, k: Key): Option<map<Key, Value>> {
    if m.Some? then Some(m.value - {k}) else None
  }

  function HomesNext(h: Homes, op: Op): Homes {
    match op
    case Put(k, v) => Homes(h.live[k := v], Without(h.stale, k), h.count)
    case Remove(k) => Homes(h.live - {k}, Without(h.stale, k), h.count)
    case Begin(n) => Homes(map[], Some(h.live), n)
    case Migrate(k) =>
      if h.stale.Some? && k in h.stale.value then Homes(h.live[k := h.stale.value[k]], Without(h.stale, k), h.count)
      else h
    case Complete => if h.stale.Some? then Homes(h.live + h.stale.value, None, h.count) else h
    case Get(_) => h
    case Len => h
  }

  lemma DeleteOldIsWithout(s: State, k: Key)
    requires Inv(s)
    ensures s.previous.Some? ==> Routed(DeleteOld(s.previous, k).value) &&
                                 Flat(DeleteOld(s.previous, k).value) == Flat(s.previous.value) - {k}
  {
    hide Routed, Flat, Delete;
    if s.previous.Some? {
      DeleteIsRemoval(s.previous.value, k);
    }
  }

  lemma MoveHomes(s: State, k: Key)
    requires Inv(s)
    ensures Inv(MoveKey(s, k)) && HomesOf(MoveKey(s, k)) == HomesNext(HomesOf(s), Migrate(k))
  {
    hide Routed, Flat, Insert, Delete, Lookup;
    ShardsExist(s);
    MoveRefines(s, k);
    if s.previous.Some? {
      LookupIsFind(s.previous.value, k);
      var v := Lookup(s.previous.value, k);
      if v.Some? {
        InsertIsUpdate(s.current, k, v.value);
        DeleteOldIsWithout(s, k);
      }
    }
  }

  lemma EditHomes(s: State, op: Op)
    requires Inv(s) && (op.Put? || op.Remove?)
    ensures Inv(Next(s, op)) && HomesOf(Next(s, op)) == HomesNext(HomesOf(s), op)
  {
    EditRefines(s, op);
    hide Routed, Flat, Insert, Delete, Contents;
    DeleteOldIsWithout(s, op.key);
    if op.Put? {
      InsertIsUpdate(s.current, op.key, op.value);
    } else {
      DeleteIsRemoval(s.current, op.key);
    }
  }

  /** Every operation leaves every key in the shard set the reference machine says, in the shard that owns it. */
  lemma StepHomes(s: State, op: Op)
    requires Inv(s) && Allowed(s, op)
    ensures Inv(Next(s, op)) && HomesOf(Next(s, op)) == HomesNext(HomesOf(s), op)
  {
    StepRefines(s, op);
    hide Routed, Flat, Layout, Insert, Delete, EmptyShards, MoveKey, FlatNext;
    match op {
      case Put(_, _) => EditHomes(s, op);
      case Remove(_) => EditHomes(s, op);
      case Begin(n) => EmptyIsEmpty(n); EmptyCount(n);
      case Migrate(k) => MoveHomes(s, k);
      case Complete => ShardsExist(s); LayoutIsRouted(Contents(s), |s.current|);
      case Get(_) =>
      case Len =>
    }
  }

  lemma EmptyCount(n: nat)
    ensures |EmptyShards(n)| == n
  {
  }

  function HomesRun(h: Homes, ops: seq<Op>): Homes
    decreases |ops|
  {
    if ops == [] then h else HomesRun(HomesNext(h, ops[0]), ops[1..])
  }

  /** Over every run the two shard sets are those of the reference machine, shard by shard. */
  lemma {:induction false} RunHomes(s: State, ops: seq<Op>)
    requires Inv(s) && RunAllowed(s, ops)
    ensures Inv(Run(s, ops).0) && HomesOf(Run(s, ops).0) == HomesRun(HomesOf(s), ops)
    decreases |ops|
  {
    if ops == [] {
    } else {
      StepHomes(s, ops[0]);
      hide Routed, Flat, Next, HomesNext;
      RunHomes(Next(s, ops[0]), ops[1..]);
    }
  }

  /**
   * A migration step moves its key: gone from the old shards, its value in the new ones, every other
   * key where it was, one entry less to migrate. On a key that is not in the old shards it does nothing.
   */
  lemma MigrateMoves(s: State, key: Key, other: Key)
    requires Inv(s) && key != other
    ensures var v, s' := LookupOld(s.previous, key), MoveKey(s, key);
            Inv(s') &&
            (v.None? ==> s' == s) &&
            (v.Some? ==>
              Lookup(s'.current, key) == v && LookupOld(s'.previous, key) == None && s'.previous.Some? &&
              Load(s'.previous.value) + 1 == Load(s.previous.value) &&
              Load(s'.current) == Load(s.current) + 1) &&
            Lookup(s'.current, other) == Lookup(s.current, other) &&
            LookupOld(s'.previous, other) == LookupOld(s.previous, other)
  {
    hide Routed, Flat, Lookup, LookupOld, Load, MoveKey, Inv;
    ShardsExist(s);
    var s' := MoveKey(s, key);
    MoveOfNone(s, key);
    MoveHomes(s, key);
    ShardsExist(s');
    OldLookups(s, key);
    OldLookups(s, other);
    OldLookups(s', key);
    OldLookups(s', other);
    if LookupOld(s.previous, key).Some? {
      MoveLoads(s, key);
    }
  }

  lemma MoveOfNone(s: State, key: Key)
    requires |s.current| > 0 && (s.previous.Some? ==> |s.previous.value| > 0)
    ensures LookupOld(s.previous, key).None? ==> MoveKey(s, key) == s
  {
    hide LookupOld;
  }

  lemma MigrateMovesAll(s: State, key: Key)
    requires Inv(s)
    ensures var v, s' := LookupOld(s.previous, key), MoveKey(s, key);
            Inv(s') && LookupOld(s'.previous, key) == None && (v.None? ==> s' == s) &&
            (v.Some? ==> Lookup(s'.current, key) == v && s'.previous.Some? &&
                         Load(s'.previous.value) + 1 == Load(s.previous.value)) &&
            forall other :: other != key ==>
              Lookup(s'.current, other) == Lookup(s.current, other) &&
              LookupOld(s'.previous, other) == LookupOld(s.previous, other)
  {
    hide Routed, Flat, Lookup, LookupOld, MoveKey, Load, Inv;
    ShardsExist(s);
    MoveHomes(s, key);
    ShardsExist(MoveKey(s, key));
    MigrateMoves(s, key, if key == 0 then 1 else 0);
    forall other | other != key
      ensures Lookup(MoveKey(s, key).current, other) == Lookup(s.current, other)
      ensures LookupOld(MoveKey(s, key).previous, other) == LookupOld(s.previous, other)
    {
      MigrateMoves(s, key, other);
    }
  }

  lemma OldLookups(s: State, key: Key)
    requires Inv(s)
    ensures Lookup(s.current, key) == Find(HomesOf(s).live, key)
    ensures LookupOld(s.previous, key) == if s.previous.Some? then Find(HomesOf(s).stale.value, key) else None
  {
    hide Routed, Flat, Lookup;
    LookupIsFind(s.current, key);
    if s.previous.Some? {
      LookupIsFind(s.previous.value, key);
    }
  }

  lemma MoveLoads(s: State, key: Key)
    requires Inv(s) && LookupOld(s.previous, key).Some?
    ensures var s' := MoveKey(s, key);
            s'.previous.Some? && Load(s'.previous.value) + 1 == Load(s.previous.value) &&
            Load(s'.current) == Load(s.current) + 1
  {
    hide Routed, Flat, Lookup, LookupOld, Load, MoveKey;
    ShardsExist(s);
    var s' := MoveKey(s, key);
    MoveHomes(s, key);
    OldLookups(s, key);
    LoadIsSize(s.current);
    LoadIsSize(s.previous.value);
    LoadIsSize(s'.current);
    LoadIsSize(s'.previous.value);
    OneMoveCounts(Flat(s.current), Flat(s.previous.value), key);
  }

  lemma OneMoveCounts(a: map<Key, Value>, b: map<Key, Value>, key: Key)
    requires a.Keys !! b.Keys && key in b
    ensures |a[key := b[key]]| == |a| + 1 && |b - {key}| + 1 == |b|
  {
    assert a[key := b[key]].Keys == a.Keys + {key};
    assert (b - {key}).Keys == b.Keys - {key};
    assert |a| == |a.Keys| && |b| == |b.Keys| && |a[key := b[key]]| == |a.Keys + {key}| && |b - {key}| == |b.Keys - {key}|;
  }

  predicate Gone(h: Homes, key: Key) {
    h.stale.Some? ==> key !in h.stale.value
  }

  /** A key that is out of the old shards stays out until another rebalance begins. */
  lemma {:induction false} GoneStaysGone(h: Homes, ops: seq<Op>, key: Key)
    requires Gone(h, key) && forall i :: 0 <= i < |ops| ==> !ops[i].Begin?
    ensures Gone(HomesRun(h, ops), key)
    decreases |ops|
  {
    if ops == [] {
    } else {
      GoneStaysGone(HomesNext(h, ops[0]), ops[1..], key);
    }
  }

  /** A second step on a migrated key answers false, whatever came between short of another rebalance. */
  lemma SecondMoveIsRefused(s: State, key: Key, ops: seq<Op>)
    requires Inv(s) && Inv(MoveKey(s, key)) && RunAllowed(MoveKey(s, key), ops)
    requires forall i :: 0 <= i < |ops| ==> !ops[i].Begin?
    ensures Inv(Run(MoveKey(s, key), ops).0)
    ensures LookupOld(Run(MoveKey(s, key), ops).0.previous, key) == None
  {
    ShardsExist(s);
    var s' := MoveKey(s, key);
    MoveHomes(s, key);
    hide Routed, Flat, MoveKey, Run, RunAllowed;
    RunHomes(s', ops);
    GoneStaysGone(HomesOf(s'), ops, key);
    OldLookups(Run(s', ops).0, key);
  }

  function Migrations(keys: seq<Key>): seq<Op> {
    seq(|keys|, i requires 0 <= i < |keys| => Migrate(keys[i]))
  }

  /** Migrating a list of keys leaves in the old map exactly the others, and adds the found ones to the new. */
  lemma {:induction false} MigrationsOnHomes(h: Homes, keys: seq<Key>)
    requires h.stale.Some? && h.live.Keys !! h.stale.value.Keys
    ensures var h' := HomesRun(h, Migrations(keys));
            h'.stale.Some? && h'.count == h.count &&
            h'.live.Keys !! h'.stale.value.Keys && h'.live + h'.stale.value == h.live + h.stale.value &&
            h'.stale.value.Keys == h.stale.value.Keys - set k | k in keys
    decreases |keys|
  {
    if keys == [] {
      assert Migrations(keys) == [];
    } else {
      var k, rest := keys[0], keys[1..];
      assert Migrations(keys)[1..] == Migrations(rest);
      assert (set x | x in keys) == {k} + set x | x in rest by {
        assert keys == [k] + rest;
      }
      var h1 := HomesNext(h, Migrate(k));
      if k in h.stale.value {
        MoveAcross(h.live, h.stale.value, k);
      }
      hide HomesNext;
      MigrationsOnHomes(h1, rest);
    }
  }

  /** Migrating every old key, in any order and with any repetition, empties the old shards into the new ones. */
  lemma MigratingAllEmpties(s: State, keys: seq<Key>)
    requires Inv(s) && s.previous.Some? && RunAllowed(s, Migrations(keys))
    requires forall k :: k in Flat(s.previous.value) ==> k in keys
    ensures var s' := Run(s, Migrations(keys)).0;
            Inv(s') && s'.previous.Some? && Flat(s'.previous.value) == map[] && Load(s'.previous.value) == 0 &&
            Flat(s'.current) == Contents(s) && |s'.current| == |s.current|
  {
    hide Routed, Flat, Run, RunAllowed, Load, Migrations, HomesRun;
    var s' := Run(s, Migrations(keys)).0;
    RunHomes(s, Migrations(keys));
    MigrationsOnHomes(HomesOf(s), keys);
    NothingLeft(Flat(s.previous.value), keys, Flat(s'.current), Flat(s'.previous.value));
    LoadIsSize(s'.previous.value);
  }

  lemma NothingLeft(stale: map<Key, Value>, keys: seq<Key>, live: map<Key, Value>, left: map<Key, Value>)
    requires left.Keys == stale.Keys - (set k | k in keys) && forall k :: k in stale ==> k in keys
    ensures left == map[] && |left| == 0 && live + left == live
  {
    assert left.Keys == {};
    assert left == map[];
  }

  predicate Rebalancing(op: Op) {
    op.Begin? || op.Migrate? || op.Complete?
  }

  /** The run with every rebalancing operation deleted. */
  function Visible(ops: seq<Op>): seq<Op>
    decreases |ops|
  {
    if ops == [] then []
    else (if Rebalancing(ops[0]) then [] else [ops[0]]) + Visible(ops[1..])
  }

  function DropHidden(answers: seq<Answer>): seq<Answer> {
    if answers == [] then []
    else (if answers[0].Hidden? then [] else [answers[0]]) + DropHidden(answers[1..])
  }

  lemma {:induction false} VisibleRunIsAllowed(s: State, ops: seq<Op>)
    requires Inv(s)
    ensures RunAllowed(s, Visible(ops))
    decreases |ops|
  {
    if ops == [] {
    } else {
      if Rebalancing(ops[0]) {
        assert Visible(ops) == Visible(ops[1..]);
        VisibleRunIsAllowed(s, ops[1..]);
      } else {
        StepRefines(s, ops[0]);
        VisibleRunIsAllowed(Next(s, ops[0]), ops[1..]);
        assert Visible(ops)[1..] == Visible(ops[1..]);
      }
    }
  }

  lemma {:induction false} FlatRunOfVisible(m: map<Key, Value>, ops: seq<Op>)
    ensures FlatRun(m, Visible(ops)).0 == FlatRun(m, ops).0
    ensures FlatRun(m, Visible(ops)).1 == DropHidden(FlatRun(m, ops).1)
    decreases |ops|
  {
    if ops == [] {
    } else {
      FlatRunOfVisible(FlatNext(m, ops[0]), ops[1..]);
      assert FlatRun(m, ops).1[1..] == FlatRun(FlatNext(m, ops[0]), ops[1..]).1;
      if Rebalancing(ops[0]) {
        assert Visible(ops) == Visible(ops[1..]);
      } else {
        assert Visible(ops)[1..] == Visible(ops[1..]);
      }
    }
  }

  /**
   * Deleting every rebalancing operation from a run, and starting from any other store with the
   * same contents, changes no answer and no final content.
   */
  lemma RebalancingIsInvisible(s: State, other: State, ops: seq<Op>)
    requires Inv(s) && RunAllowed(s, ops)
    requires Inv(other) && Contents(other) == Contents(s)
    ensures RunAllowed(other, Visible(ops))
    ensures Run(other, Visible(ops)).1 == DropHidden(Run(s, ops).1)
    ensures Inv(Run(other, Visible(ops)).0) && Inv(Run(s, ops).0)
    ensures Contents(Run(other, Visible(ops)).0) == Contents(Run(s, ops).0)
  {
    VisibleRunIsAllowed(other, ops);
    RunRefines(s, ops);
    RunRefines(other, Visible(ops));
    FlatRunOfVisible(Contents(s), ops);
  }

  /**
   * A run that ends with no rebalance in progress leaves, shard by shard, what an atomic
   * rebalance to the same shard count leaves of any store with the same contents.
   */
  lemma FinishedEqualsAtomic(s: State, ops: seq<Op>, atomic: seq<Shard>)
    requires Inv(s) && RunAllowed(s, ops) && Run(s, ops).0.previous.None?
    requires Routed(atomic) && Flat(atomic) == FlatRun(Contents(s), ops).0
    ensures var final := Run(s, ops).0.current;
            |final| > 0 && final == AtomicRebalance(atomic, |final|)
  {
    RunRefines(s, ops);
    RoutedIsLayout(Run(s, ops).0.current);
  }

  /** While migrating, the shard count stays, and only completing ends it. */
  lemma StepKeepsCount(s: State, op: Op)
    requires Inv(s) && Allowed(s, op) && s.previous.Some?
    ensures |Next(s, op).current| == |s.current| && (Next(s, op).previous.Some? <==> !op.Complete?)
  {
    hide ShardOf, Flat, Contents;
  }

  lemma {:induction false} MidRun(s: State, ops: seq<Op>)
    requires Inv(s) && s.previous.Some?
    requires forall i :: 0 <= i < |ops| ==> !ops[i].Begin? && !ops[i].Complete?
    ensures RunAllowed(s, ops + [Complete])
    ensures Run(s, ops + [Complete]).0.previous.None?
    ensures |Run(s, ops + [Complete]).0.current| == |s.current|
    decreases |ops|
  {
    hide Routed, Flat, Next, Contents;
    var all := ops + [Complete];
    StepRefines(s, all[0]);
    StepKeepsCount(s, all[0]);
    if ops == [] {
      assert all[1..] == [];
    } else {
      assert all[1..] == ops[1..] + [Complete];
      MidRun(Next(s, all[0]), ops[1..]);
    }
  }

  /** Begin, any traffic and any migration steps, complete: the result is the atomic rebalance. */
  lemma PhasedEqualsAtomic(s: State, n: nat, ops: seq<Op>, atomic: seq<Shard>)
    requires Inv(s) && s.previous.None? && n > 0
    requires forall i :: 0 <= i < |ops| ==> !ops[i].Begin? && !ops[i].Complete?
    requires Routed(atomic) && Flat(atomic) == FlatRun(Contents(s), ops).0
    ensures RunAllowed(s, [Begin(n)] + (ops + [Complete]))
    ensures Run(s, [Begin(n)] + (ops + [Complete])).0 == State(AtomicRebalance(atomic, n), None)
  {
    var all := [Begin(n)] + (ops + [Complete]);
    StepRefines(s, Begin(n));
    assert all[1..] == ops + [Complete];
    MidRun(Next(s, Begin(n)), ops);
    FlatRunAppend(Contents(s), ops, Complete);
    FinishedEqualsAtomic(s, all, atomic);
  }

  lemma {:induction false} FlatRunAppend(m: map<Key, Value>, ops: seq<Op>, op: Op)
    requires Rebalancing(op)
    ensures FlatRun(m, ops + [op]).0 == FlatRun(m, ops).0
    decreases |ops|
  {
    var all := ops + [op];
    if ops == [] {
      assert all[1..] == [];
    } else {
      assert all[1..] == ops[1..] + [op];
      FlatRunAppend(FlatNext(m, ops[0]), ops[1..], op);
    }
  }

  // ---------------------------------------------------------------------
  // The mutable store

  class HandoffStore {
    var current: seq<Shard>
    var previous: Option<seq<Shard>>

    ghost function Model(): State
      reads this
    {
      State(current, previous)
    }

    ghost predicate Valid()
      reads this
    {
      Inv(Model())
    }

    constructor (n: nat)
      requires n > 0
      ensures Valid() && Contents(Model()) == map[] && Model() == State(EmptyShards(n), None)
    {
      EmptyIsEmpty(n);
      current, previous := EmptyShards(n), None;
    }

    method Put(key: Key, value: Value)
      requires Valid()
      modifies this
      ensures Valid() && Model() == Next(old(Model()), Op.Put(key, value))
    {
      hide ShardOf, Flat, Contents, FlatNext;
      StepRefines(Model(), Op.Put(key, value));
      var idx := RouteKey(key, |current|);
      var shard: Shard := current[idx][key := value];
      current := current[idx := shard];
      if previous.Some? {
        previous := Some(Delete(previous.value, key));
      }
    }

    method Get(key: Key) returns (r: Option<Value>)
      requires Valid()
      ensures Found(r) == Reply(Model(), Op.Get(key))
      ensures r == Find(Contents(Model()), key)
    {
      ReadIsFind(Model(), key);
      r := Lookup(current, key);
      if r.None? && previous.Some? {
        r := Lookup(previous.value, key);
      }
    }

    method Remove(key: Key) returns (r: Option<Value>)
      requires Valid()
      modifies this
      ensures Valid() && Model() == Next(old(Model()), Op.Remove(key))
      ensures Found(r) == Reply(old(Model()), Op.Remove(key))
    {
      hide ShardOf, Flat, Contents, FlatNext;
      StepRefines(Model(), Op.Remove(key));
      var fromNew := Lookup(current, key);
      current := Delete(current, key);
      var fromOld := None;
      if previous.Some? {
        fromOld := Lookup(previous.value, key);
        previous := Some(Delete(previous.value, key));
      }
      r := if fromNew.Some? then fromNew else fromOld;
    }

    method BeginRebalance(newN: nat)
      requires Valid() && Allowed(Model(), Begin(newN))
      modifies this
      ensures Valid() && Model() == Next(old(Model()), Begin(newN))
    {
      StepRefines(Model(), Begin(newN));
      previous := Some(current);
      current := EmptyShards(newN);
    }

    method MigrateStep(key: Key) returns (moved: bool)
      requires Valid()
      modifies this
      ensures Valid() && Model() == Next(old(Model()), Migrate(key))
      ensures moved <==> LookupOld(old(previous), key).Some?
      ensures LookupOld(previous, key) == None
      ensures moved ==> Lookup(current, key) == LookupOld(old(previous), key) &&
                        Load(previous.value) + 1 == Load(old(previous).value)
      ensures !moved ==> Model() == old(Model())
      ensures forall other :: other != key ==>
                Lookup(current, other) == old(Lookup(current, other)) &&
                LookupOld(previous, other) == LookupOld(old(previous), other)
    {
      StepRefines(Model(), Migrate(key));
      MigrateMovesAll(Model(), key);
      if previous.None? {
        return false;
      }
      var v := Lookup(previous.value, key);
      if v.None? {
        return false;
      }
      previous := Some(Delete(previous.value, key));
      current := Insert(current, key, v.value);
      return true;
    }

    method CompleteRebalance()
      requires Valid()
      modifies this
      ensures Valid() && Model() == Next(old(Model()), Complete)
    {
      StepRefines(Model(), Complete);
      if previous.None? {
        return;
      }
      var prior := previous.value;
      current := Absorb(current, prior);
      previous := None;
      RoutedIsLayout(current);
    }

    method Len() returns (n: nat)
      requires Valid()
      ensures n == |Contents(Model())|
    {
      SizeIsCount(Model());
      hide Inv, Contents;
      n := CountKeys(current);
      if previous.Some? {
        var more := CountKeys(previous.value);
        n := n + more;
      }
    }
  }

  /** The entries of the first `i` shards. */
  ghost function FlatPrefix(shards: seq<Shard>, i: nat): map<Key, Value>
    requires Routed(shards) && i <= |shards|
  {
    map k | k in Flat(shards) && k in KeysOf(shards[..i]) :: Flat(shards)[k]
  }

  lemma FlatPrefixStep(shards: seq<Shard>, i: nat)
    requires Routed(shards) && i < |shards|
    ensures FlatPrefix(shards, i + 1) == FlatPrefix(shards, i) + shards[i]
  {
    hide ShardOf, Flat, KeysOf, Routed;
    KeysOfSplit(shards, i);
    ShardInFlat(shards, i);
  }

  lemma FlatPrefixEnds(shards: seq<Shard>)
    requires Routed(shards)
    ensures FlatPrefix(shards, 0) == map[]
    ensures FlatPrefix(shards, |shards|) == Flat(shards)
  {
    assert KeysOf(shards[..0]) == {};
    assert shards[..|shards|] == shards;
  }

  /** Drains every shard of `prior` into `shards`. */
  method Absorb(shards: seq<Shard>, prior: seq<Shard>) returns (out: seq<Shard>)
    requires Routed(shards) && Routed(prior)
    ensures Routed(out) && |out| == |shards|
    ensures Flat(out) == Flat(shards) + Flat(prior)
  {
    hide Routed, Flat, FlatPrefix;
    out := shards;
    FlatPrefixEnds(prior);
    for i := 0 to |prior|
      invariant Routed(out) && |out| == |shards|
      invariant Flat(out) == Flat(shards) + FlatPrefix(prior, i)
    {
      FlatPrefixStep(prior, i);
      out := InsertAll(out, prior[i]);
      MergeAssociates(Flat(shards), FlatPrefix(prior, i), prior[i]);
    }
  }

  lemma MergeAssociates(a: map<Key, Value>, b: map<Key, Value>, c: map<Key, Value>)
    ensures (a + b) + c == a + (b + c)
  {
  }
}
