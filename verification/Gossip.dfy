/** Last-writer-wins gossip (crates/cosaci-core/src/gossip.rs). */
module Gossip {
  import opened Machine

  type Key = u64
  datatype Entry = Entry(value: u64, timestamp: u64)
  type NodeState = map<Key, Entry>

  predicate Dominates(a: Entry, b: Entry) {
    if a.timestamp == b.timestamp then a.value >= b.value else a.timestamp > b.timestamp
  }

  function Winner(a: Entry, b: Entry): Entry {
    if Dominates(a, b) then a else b
  }

  function Write(s: NodeState, key: Key, e: Entry): NodeState {
    if key in s && Dominates(s[key], e) then s else s[key := e]
  }

  function Merge(a: NodeState, b: NodeState): NodeState {
    map k | k in a.Keys + b.Keys ::
      if k !in b then a[k] else if k !in a then b[k] else Winner(a[k], b[k])
  }

  lemma MergeLaws(a: NodeState, b: NodeState, c: NodeState)
    ensures Merge(a, a) == a
    ensures Merge(a, b) == Merge(b, a)
    ensures Merge(a, Merge(b, c)) == Merge(Merge(a, b), c)
  {
    var left, right := Merge(a, Merge(b, c)), Merge(Merge(a, b), c);
    forall k ensures k in left <==> k in right
             ensures k in left ==> left[k] == right[k] {
      MergeAssociatesAt(a, b, c, k);
    }
    MergeCommutes(a, b);
  }

  lemma MergeCommutes(a: NodeState, b: NodeState)
    ensures Merge(a, b) == Merge(b, a)
  {
  }

  lemma MergeAssociatesAt(a: NodeState, b: NodeState, c: NodeState, k: Key)
    ensures var left, right := Merge(a, Merge(b, c)), Merge(Merge(a, b), c);
            (k in left <==> k in right) && (k in left ==> left[k] == right[k])
  {
  }

  // ---------------------------------------------------------------------
  // A state is the join of the writes in its causal history

  datatype WriteEvent = WriteEvent(key: Key, entry: Entry)

  /** Written later, or at the same time with a value at least as large. */
  predicate AtLeast(e: Entry, other: Entry) {
    other.timestamp < e.timestamp || (other.timestamp == e.timestamp && other.value <= e.value)
  }

  /** Every entry of `s` was written, and is the latest, then largest, write to its key. */
  ghost predicate IsJoin(history: set<WriteEvent>, s: NodeState) {
    (forall k :: k in s ==> WriteEvent(k, s[k]) in history) &&
    (forall w :: w in history ==> w.key in s && AtLeast(s[w.key], w.entry))
  }

  /** The history determines the state: order and repetition of delivery cannot matter. */
  lemma JoinIsUnique(history: set<WriteEvent>, s: NodeState, t: NodeState)
    requires IsJoin(history, s) && IsJoin(history, t)
    ensures s == t
  {
    forall k | k in s ensures k in t && s[k] == t[k] {
      assert WriteEvent(k, s[k]) in history;
      assert WriteEvent(k, t[k]) in history;
    }
    forall k | k in t ensures k in s {
      assert WriteEvent(k, t[k]) in history;
    }
  }

  lemma WriteJoins(history: set<WriteEvent>, s: NodeState, w: WriteEvent)
    requires IsJoin(history, s)
    ensures IsJoin(history + {w}, Write(s, w.key, w.entry))
  {
  }

  lemma MergeJoins(g: set<WriteEvent>, a: NodeState, h: set<WriteEvent>, b: NodeState)
    requires IsJoin(g, a) && IsJoin(h, b)
    ensures IsJoin(g + h, Merge(a, b))
  {
    var m := Merge(a, b);
    forall k | k in m ensures WriteEvent(k, m[k]) in g + h {
    }
    forall w | w in g + h ensures w.key in m && Dominates(m[w.key], w.entry) {
    }
  }

  // ---------------------------------------------------------------------
  // Runs of a cluster

  datatype Op =
    | LocalWrite(node: nat, write: WriteEvent)
    | Pull(node: nat, from: nat)

  predicate OpInRange(n: nat, op: Op) {
    op.node < n && (op.Pull? ==> op.from < n)
  }

  function NextNodes(nodes: seq<NodeState>, op: Op): (r: seq<NodeState>)
    requires OpInRange(|nodes|, op)
    ensures |r| == |nodes|
  {
    match op
    case LocalWrite(i, w) => nodes[i := Write(nodes[i], w.key, w.entry)]
    case Pull(i, j) => nodes[i := Merge(nodes[i], nodes[j])]
  }

  /** Causal histories: a write extends its node's history, a pull takes over the other's. */
  ghost function NextHistories(hs: seq<set<WriteEvent>>, op: Op): (r: seq<set<WriteEvent>>)
    requires OpInRange(|hs|, op)
    ensures |r| == |hs|
  {
    match op
    case LocalWrite(i, w) => hs[i := hs[i] + {w}]
    case Pull(i, j) => hs[i := hs[i] + hs[j]]
  }

  ghost predicate InRange(n: nat, ops: seq<Op>) {
    forall i :: 0 <= i < |ops| ==> OpInRange(n, ops[i])
  }

  ghost function RunNodes(nodes: seq<NodeState>, ops: seq<Op>): (r: seq<NodeState>)
    requires InRange(|nodes|, ops)
    ensures |r| == |nodes|
    decreases |ops|
  {
    if ops == [] then nodes else RunNodes(NextNodes(nodes, ops[0]), ops[1..])
  }

  ghost function RunHistories(hs: seq<set<WriteEvent>>, ops: seq<Op>): (r: seq<set<WriteEvent>>)
    requires InRange(|hs|, ops)
    ensures |r| == |hs|
    decreases |ops|
  {
    if ops == [] then hs else RunHistories(NextHistories(hs, ops[0]), ops[1..])
  }

  ghost predicate AllJoin(hs: seq<set<WriteEvent>>, nodes: seq<NodeState>) {
    |hs| == |nodes| && forall i :: 0 <= i < |nodes| ==> IsJoin(hs[i], nodes[i])
  }

  /** After any writes and pulls, each node's state is the join of exactly its causal history. */
  lemma {:induction false} RunJoins(hs: seq<set<WriteEvent>>, nodes: seq<NodeState>, ops: seq<Op>)
    requires AllJoin(hs, nodes) && InRange(|nodes|, ops)
    ensures AllJoin(RunHistories(hs, ops), RunNodes(nodes, ops))
    decreases |ops|
  {
    if ops == [] {
    } else {
      hide IsJoin, Write, Merge;
      match ops[0] {
        case LocalWrite(i, w) => WriteJoins(hs[i], nodes[i], w);
        case Pull(i, j) => MergeJoins(hs[i], nodes[i], hs[j], nodes[j]);
      }
      RunJoins(NextHistories(hs, ops[0]), NextNodes(nodes, ops[0]), ops[1..]);
    }
  }

  function Blank(n: nat): seq<NodeState> {
    seq(n, _ => map[])
  }

  ghost function NoHistory(n: nat): seq<set<WriteEvent>> {
    seq(n, _ => {})
  }

  /** Strong eventual consistency: in every run, nodes with the same causal history are equal. */
  lemma SameHistorySameState(n: nat, ops: seq<Op>, i: nat, j: nat)
    requires InRange(n, ops) && i < n && j < n
    requires RunHistories(NoHistory(n), ops)[i] == RunHistories(NoHistory(n), ops)[j]
    ensures RunNodes(Blank(n), ops)[i] == RunNodes(Blank(n), ops)[j]
  {
    RunJoins(NoHistory(n), Blank(n), ops);
    var h := RunHistories(NoHistory(n), ops)[i];
    JoinIsUnique(h, RunNodes(Blank(n), ops)[i], RunNodes(Blank(n), ops)[j]);
  }

  /**
   * After any run from blank nodes a node holds, for each key written in its causal history and no
   * other, an entry of that history with the largest timestamp and, among those, the largest value.
   */
  lemma LatestWriteWins(n: nat, ops: seq<Op>, i: nat, k: Key)
    requires InRange(n, ops) && i < n
    ensures var node, history := RunNodes(Blank(n), ops)[i], RunHistories(NoHistory(n), ops)[i];
            (k in node <==> exists e :: WriteEvent(k, e) in history) &&
            (k in node ==> WriteEvent(k, node[k]) in history) &&
            (k in node ==>
              forall e :: WriteEvent(k, e) in history ==>
                e.timestamp <= node[k].timestamp && (e.timestamp == node[k].timestamp ==> e.value <= node[k].value))
  {
    RunJoins(NoHistory(n), Blank(n), ops);
    var node, history := RunNodes(Blank(n), ops)[i], RunHistories(NoHistory(n), ops)[i];
    assert IsJoin(history, node);
    hide RunNodes, RunHistories;
    if k in node {
      assert WriteEvent(k, node[k]) in history;
    }
    forall e | WriteEvent(k, e) in history
      ensures k in node && e.timestamp <= node[k].timestamp
      ensures e.timestamp == node[k].timestamp ==> e.value <= node[k].value
    {
    }
  }

  /** A merge keeps, key by key, the later entry, and at equal times the larger value; nothing else. */
  lemma MergeKeepsLatest(a: NodeState, b: NodeState, k: Key)
    ensures k in Merge(a, b) <==> k in a || k in b
    ensures k in Merge(a, b) ==>
              var e := Merge(a, b)[k];
              ((k in a && e == a[k]) || (k in b && e == b[k])) &&
              (k in a ==> a[k].timestamp <= e.timestamp && (a[k].timestamp == e.timestamp ==> a[k].value <= e.value)) &&
              (k in b ==> b[k].timestamp <= e.timestamp && (b[k].timestamp == e.timestamp ==> b[k].value <= e.value))
  {
  }

  /** A local write takes effect exactly when it is newer, or as new and larger. */
  lemma WriteTakesEffectIff(s: NodeState, key: Key, e: Entry, other: Key)
    requires other != key
    ensures var s' := Write(s, key, e);
            key in s' && (other in s' <==> other in s) && (other in s ==> s'[other] == s[other]) &&
            (key !in s ==> s'[key] == e) &&
            (key in s ==>
              s'[key] == if e.timestamp > s[key].timestamp || (e.timestamp == s[key].timestamp && e.value > s[key].value)
                         then e else s[key])
  {
  }

  // ---------------------------------------------------------------------
  // One full-sync round

  /** Node `i` merges the snapshots of the other nodes, the first `j` of them. */
  function Gather(snapshot: seq<NodeState>, i: nat, j: nat): NodeState
    requires i < |snapshot| && j <= |snapshot|
  {
    if j == 0 then snapshot[i]
    else if j - 1 == i then Gather(snapshot, i, j - 1)
    else Merge(Gather(snapshot, i, j - 1), snapshot[j - 1])
  }

  function FullSync(nodes: seq<NodeState>): seq<NodeState> {
    seq(|nodes|, i requires 0 <= i < |nodes| => Gather(nodes, i, |nodes|))
  }

  ghost function Union(hs: seq<set<WriteEvent>>, j: nat): set<WriteEvent>
    requires j <= |hs|
  {
    if j == 0 then {} else Union(hs, j - 1) + hs[j - 1]
  }

  lemma {:induction false} UnionContains(hs: seq<set<WriteEvent>>, i: nat, j: nat)
    requires i < j <= |hs|
    ensures hs[i] <= Union(hs, j)
  {
    if i == j - 1 {
    } else {
      UnionContains(hs, i, j - 1);
    }
  }

  lemma {:induction false} GatherJoins(hs: seq<set<WriteEvent>>, nodes: seq<NodeState>, i: nat, j: nat)
    requires AllJoin(hs, nodes) && i < |nodes| && j <= |nodes|
    ensures IsJoin(hs[i] + Union(hs, j), Gather(nodes, i, j))
    decreases j
  {
    hide IsJoin, Merge;
    if j == 0 {
      assert hs[i] + Union(hs, 0) == hs[i];
    } else {
      GatherJoins(hs, nodes, i, j - 1);
      if j - 1 == i {
        assert hs[i] + Union(hs, j) == hs[i] + Union(hs, j - 1);
      } else {
        MergeJoins(hs[i] + Union(hs, j - 1), Gather(nodes, i, j - 1), hs[j - 1], nodes[j - 1]);
        assert hs[i] + Union(hs, j) == hs[i] + Union(hs, j - 1) + hs[j - 1];
      }
    }
  }

  /** Whatever happened before, one full-sync round makes every node the join of all writes. */
  lemma FullSyncConverges(hs: seq<set<WriteEvent>>, nodes: seq<NodeState>, i: nat, k: nat)
    requires AllJoin(hs, nodes) && i < |nodes| && k < |nodes|
    ensures IsJoin(Union(hs, |hs|), FullSync(nodes)[i])
    ensures FullSync(nodes)[i] == FullSync(nodes)[k]
  {
    var n := |nodes|;
    GatherJoins(hs, nodes, i, n);
    GatherJoins(hs, nodes, k, n);
    UnionContains(hs, i, n);
    UnionContains(hs, k, n);
    assert hs[i] + Union(hs, n) == Union(hs, n) == hs[k] + Union(hs, n);
    JoinIsUnique(Union(hs, n), FullSync(nodes)[i], FullSync(nodes)[k]);
  }

  // ---------------------------------------------------------------------
  // The mutable node

  class Node {
    var entries: NodeState

    constructor ()
      ensures entries == map[]
    {
      entries := map[];
    }

    method WriteEntry(key: Key, value: u64, timestamp: u64)
      modifies this
      ensures entries == Write(old(entries), key, Entry(value, timestamp))
      ensures entries == old(entries)[key := entries[key]]
      ensures entries[key] ==
              if key !in old(entries) || timestamp > old(entries)[key].timestamp ||
                 (timestamp == old(entries)[key].timestamp && value > old(entries)[key].value)
              then Entry(value, timestamp) else old(entries)[key]
    {
      var incoming := Entry(value, timestamp);
      var keepExisting := key in entries && Dominates(entries[key], incoming);
      if !keepExisting {
        entries := entries[key := incoming];
      }
    }
  }

  /** The entries of `b` not in `rest` are merged into `a`. */
  ghost function MergePart(a: NodeState, b: NodeState, rest: set<Key>): NodeState {
    Merge(a, b - rest)
  }

  /** `merge`: a clone of `a`, updated with `b`'s entries in hash-map order. */
  method MergeStates(a: NodeState, b: NodeState) returns (out: NodeState)
    ensures out == Merge(a, b)
    ensures out.Keys == a.Keys + b.Keys
    ensures forall k :: k in out ==>
              ((k in a && out[k] == a[k]) || (k in b && out[k] == b[k])) &&
              (k in a ==> AtLeast(out[k], a[k])) && (k in b ==> AtLeast(out[k], b[k]))
  {
    out := a;
    var rest := b.Keys;
    assert b - rest == map[];
    while rest != {}
      invariant rest <= b.Keys
      invariant out == MergePart(a, b, rest)
    {
      var k :| k in rest;
      var winner := b[k];
      if k in out && Dominates(out[k], b[k]) {
        winner := out[k];
      }
      out := out[k := winner];
      rest := rest - {k};
    }
    assert b - {} == b;
  }
}
