/** Key routing and the atomically rebalanced store (crates/cosaci-state/src/sharding.rs). */
module Sharding {
  import opened Machine
  import opened Bits

  type Key = u64
  type Value = u64
  type Shard = map<Key, Value>

  const MODULUS: nat := 0x1_0000_0000_0000_0000
  const OFFSET_BASIS: nat := 0xcbf2_9ce4_8422_2325
  const FNV_PRIME: nat := 0x0000_0100_0000_01b3
  const FINALIZER: nat := 0xff51_afd7_ed55_8ccd
  // Inverses of the two odd multipliers modulo 2^64.
  const FNV_INVERSE: nat := 0xce96_5057_aff6_957b
  const FINALIZER_INVERSE: nat := 0x4f74_430c_22a5_4005

  /** `h.wrapping_mul(c)` */
  function WrappingMul(h: u64, c: nat): u64 {
    (h * c) % MODULUS
  }

  lemma XorStaysU64(a: u64, b: u64)
    ensures Xor(a, b) <= U64_MAX
  {
    Pow2Of64();
    XorBelow(a, b, 64);
  }

  /** `h ^ (h >> 33)` */
  function Fold33(h: u64): u64 {
    Pow2Of64();
    ShrBelow(h, 33, 31);
    assert Pow2(31) <= Pow2(64) by { Pow2Grows(31, 64); }
    XorStaysU64(h, Shr(h, 33));
    Xor(h, Shr(h, 33))
  }

  lemma Pow2Grows(a: nat, b: nat)
    requires a <= b
    ensures Pow2(a) <= Pow2(b)
  {
    if a < b {
      Pow2Grows(a, b - 1);
    }
  }

  /** The 64-bit mix applied before the reduction modulo the shard count. */
  function Mix(key: Key): u64 {
    XorStaysU64(OFFSET_BASIS, key);
    Fold33(WrappingMul(Fold33(WrappingMul(Xor(OFFSET_BASIS, key), FNV_PRIME)), FINALIZER))
  }

  function Unmix(h: u64): Key {
    var a := WrappingMul(Fold33(WrappingMul(Fold33(h), FINALIZER_INVERSE)), FNV_INVERSE);
    XorStaysU64(OFFSET_BASIS, a);
    Xor(OFFSET_BASIS, a)
  }

  lemma Fold33IsInvolution(h: u64)
    ensures Fold33(Fold33(h)) == h
  {
    var s := Shr(h, 33);
    Pow2Of64();
    Pow2Grows(64, 66);
    ShrTwice(h, 33, 33);
    ShrBelow(h, 66, 0);
    ShrOfXor(h, s, 33);
    XorZero(s);
    XorCancels(h, s);
  }

  lemma MultiplierInverts(h: u64, c: nat, d: nat)
    requires (c * d) % MODULUS == 1
    ensures WrappingMul(WrappingMul(h, c), d) == h
  {
    var q := h * c / MODULUS;
    var p := c * d / MODULUS;
    var r := WrappingMul(h, c);
    calc {
      r * d;
      (h * c - q * MODULUS) * d;
      h * c * d - q * MODULUS * d;
      { assert h * c * d == h * (c * d); }
      h * (p * MODULUS + 1) - q * MODULUS * d;
      { assert h * (p * MODULUS + 1) == h * p * MODULUS + h; assert q * MODULUS * d == q * d * MODULUS; }
      (h * p - q * d) * MODULUS + h;
    }
    RemainderOf(r * d, h * p - q * d, h);
  }

  lemma RemainderOf(n: int, q: int, r: int)
    requires n == q * MODULUS + r && 0 <= r < MODULUS
    ensures n % MODULUS == r
  {
  }

  lemma XorCancelsLeft(a: nat, b: nat)
    ensures Xor(a, Xor(a, b)) == b
  {
    XorCommutes(a, b);
    XorCommutes(a, Xor(b, a));
    XorCancels(b, a);
  }

  lemma InversePairs()
    ensures (FNV_PRIME * FNV_INVERSE) % MODULUS == 1
    ensures (FNV_INVERSE * FNV_PRIME) % MODULUS == 1
    ensures (FINALIZER * FINALIZER_INVERSE) % MODULUS == 1
    ensures (FINALIZER_INVERSE * FINALIZER) % MODULUS == 1
  {
  }

  lemma UnmixAfterMix(key: Key)
    ensures Unmix(Mix(key)) == key
  {
    InversePairs();
    XorStaysU64(OFFSET_BASIS, key);
    var a: u64 := Xor(OFFSET_BASIS, key);
    var b := Fold33(WrappingMul(a, FNV_PRIME));
    Fold33IsInvolution(WrappingMul(b, FINALIZER));
    MultiplierInverts(b, FINALIZER, FINALIZER_INVERSE);
    Fold33IsInvolution(WrappingMul(a, FNV_PRIME));
    MultiplierInverts(a, FNV_PRIME, FNV_INVERSE);
    XorCancelsLeft(OFFSET_BASIS, key);
  }

  lemma MixAfterUnmix(h: u64)
    ensures Mix(Unmix(h)) == h
  {
    InversePairs();
    var c := Fold33(h);
    var d := Fold33(WrappingMul(c, FINALIZER_INVERSE));
    XorCancelsLeft(OFFSET_BASIS, WrappingMul(d, FNV_INVERSE));
    MultiplierInverts(d, FNV_INVERSE, FNV_PRIME);
    Fold33IsInvolution(WrappingMul(c, FINALIZER_INVERSE));
    MultiplierInverts(c, FINALIZER_INVERSE, FINALIZER);
    Fold33IsInvolution(h);
  }

  /** The shard that owns `key` among `n`. */
  function ShardOf(key: Key, n: nat): (idx: nat)
    requires n > 0
    ensures idx < n
  {
    Mix(key) % n
  }

  /** The routing in terms of the mixed word: shard `i` owns the keys whose word leaves remainder `i`. */
  lemma RoutedByRemainder(h: u64, n: nat)
    requires n > 0
    ensures ShardOf(Unmix(h), n) == h % n
  {
    MixAfterUnmix(h);
  }

  /** Every shard owns a key, for any shard count a machine word can number. */
  lemma EveryShardIsUsed(i: nat, n: nat)
    requires i < n && n <= MODULUS
    ensures exists key: Key :: ShardOf(key, n) == i
  {
    hide ShardOf, Unmix;
    RoutedByRemainder(i, n);
    SmallRemainder(i, n);
    var key := Unmix(i);
    assert ShardOf(key, n) == i;
  }

  lemma SmallRemainder(i: nat, n: nat)
    requires i < n
    ensures i % n == i
  {
  }

  lemma BasisFolds()
    ensures Xor(OFFSET_BASIS, 0xcbf2_9ce4_8422_2325) == 0 && Xor(OFFSET_BASIS, 0xcbf2_9ce4_8422_2324) == 1
    ensures Fold33(0) == 0
  {
    hide Xor, Shr, Pow2;
    XorSelf(OFFSET_BASIS);
    var half := 0x65f9_4e72_4211_1192;
    XorDigits(half, 1, half, 0);
    XorSelf(half);
    ShrIsDivision(0, 33);
    XorZero(0);
    var s := Shr(0, 33);
    if s > 0 {
      MulMonotone(Pow2(33), 1, s);
    }
  }

  // The digits the two folds meet.

  lemma BitPairs()
    ensures Xor(0, 0) == 0 && Xor(1, 0) == 1 && Xor(1, 1) == 0 && Xor(1, 2) == 3
    ensures Xor(1, 3) == 2 && Xor(2, 1) == 3 && Xor(2, 2) == 0 && Xor(3, 0) == 3 && Xor(3, 1) == 2
  {
    hide Xor;
    XorDigits(0, 0, 0, 0);
    XorDigits(0, 1, 0, 0);
    XorDigits(0, 1, 0, 1);
    XorDigits(0, 1, 1, 0);
    XorDigits(0, 1, 1, 1);
    XorDigits(1, 0, 0, 1);
    XorDigits(1, 0, 1, 0);
    XorDigits(1, 1, 0, 0);
    XorDigits(1, 1, 0, 1);
    XorBit(0, 0);
    XorBit(0, 1);
    XorBit(1, 0);
    XorBit(1, 1);
  }

  lemma SmallDigits()
    ensures Xor(0x3, 0x0) == 0x3 && Xor(0x7, 0x1) == 0x6 && Xor(0x7, 0x8) == 0xf && Xor(0xb, 0x8) == 0x3
  {
    hide Xor;
    BitPairs();
    XorPairs(0, 3, 0, 0);
    XorPairs(1, 3, 0, 1);
    XorPairs(1, 3, 2, 0);
    XorPairs(2, 3, 2, 0);
  }

  lemma LargeDigits()
    ensures Xor(0x9, 0x4) == 0xd && Xor(0x9, 0x6) == 0xf
    ensures Xor(0xd, 0x2) == 0xf && Xor(0xd, 0x5) == 0x8 && Xor(0xd, 0x7) == 0xa
  {
    hide Xor;
    BitPairs();
    XorPairs(2, 1, 1, 0);
    XorPairs(2, 1, 1, 2);
    XorPairs(3, 1, 0, 2);
    XorPairs(3, 1, 1, 1);
    XorPairs(3, 1, 1, 3);
  }

  lemma FirstFold()
    ensures Fold33(0x100_0000_01b3) == 0x100_0000_0133
  {
    hide Xor, Shr, Pow2;
    ShrBy33(0x100_0000_01b3, 0x80);
    SmallDigits();
    XorZero(0x1_0000_0001);
    XorNibbles(0x1_0000_0001, 0xb, 0, 0x8);
    XorNibbles(0x10_0000_001b, 0x3, 0x8, 0x0);
  }

  lemma SecondFold()
    ensures Fold33(0x8482_acf1_9d97_d9d7) == 0x8482_acf1_dfd6_8faf
  {
    hide Xor, Shr, Pow2;
    ShrBy33(0x8482_acf1_9d97_d9d7, 0x4241_5678);
    SmallDigits();
    LargeDigits();
    XorZero(0x8482_acf1);
    XorNibbles(0x8482acf1, 0x9, 0x0, 0x4);
    XorNibbles(0x8482acf19, 0xd, 0x4, 0x2);
    XorNibbles(0x8482acf19d, 0x9, 0x42, 0x4);
    XorNibbles(0x8482acf19d9, 0x7, 0x424, 0x1);
    XorNibbles(0x8482acf19d97, 0xd, 0x4241, 0x5);
    XorNibbles(0x8482acf19d97d, 0x9, 0x42415, 0x6);
    XorNibbles(0x8482acf19d97d9, 0xd, 0x424156, 0x7);
    XorNibbles(0x8482acf19d97d9d, 0x7, 0x4241567, 0x8);
  }

  lemma ShrBy33(n: nat, q: nat)
    requires 0x2_0000_0000 * q <= n < 0x2_0000_0000 * (q + 1)
    ensures Shr(n, 33) == q
  {
    hide Shr, Pow2;
    ShrIsDivision(n, 33);
    Pow2Plus32(1);
    assert Pow2(1) == 2 by {
      Pow2One();
    }
  }

  lemma Pow2One()
    ensures Pow2(1) == 2
  {
  }

  /** Known answers: the offset basis itself, and the key one bit away from it, through each step of the mix. */
  lemma KnownAnswers(n: nat)
    requires n > 0
    ensures ShardOf(0xcbf2_9ce4_8422_2325, n) == 0
    ensures ShardOf(0xcbf2_9ce4_8422_2324, n) == 0x8482_acf1_dfd6_8faf % n
  {
    hide Fold33, Xor;
    BasisFolds();
    FirstFold();
    SecondFold();
    assert WrappingMul(0, FNV_PRIME) == 0 && WrappingMul(0, FINALIZER) == 0;
    assert WrappingMul(1, FNV_PRIME) == 0x100_0000_01b3;
    assert WrappingMul(0x100_0000_0133, FINALIZER) == 0x8482_acf1_9d97_d9d7;
  }

  /** `shard_of`, updating `h` as the source does. */
  method RouteKey(key: Key, n: nat) returns (idx: nat)
    requires n > 0
    ensures idx == ShardOf(key, n) && idx < n
  {
    XorStaysU64(OFFSET_BASIS, key);
    var h: u64 := Xor(OFFSET_BASIS, key);
    h := WrappingMul(h, FNV_PRIME);
    h := Fold33(h);
    h := WrappingMul(h, FINALIZER);
    h := Fold33(h);
    idx := h % n;
  }

  // ---------------------------------------------------------------------
  // A shard vector and the flat map it stands for

  /** Every key sits in the one shard that owns it. */
  ghost predicate Routed(shards: seq<Shard>) {
    |shards| > 0 &&
    forall i, k :: 0 <= i < |shards| && k in shards[i] ==> ShardOf(k, |shards|) == i
  }

  ghost function KeysOf(shards: seq<Shard>): set<Key> {
    set i, k | 0 <= i < |shards| && k in shards[i] :: k
  }

  /** The flat map a routed shard vector stands for. */
  ghost function Flat(shards: seq<Shard>): map<Key, Value>
    requires Routed(shards)
  {
    map k | k in KeysOf(shards) :: shards[ShardOf(k, |shards|)][k]
  }

  function EmptyShards(n: nat): seq<Shard> {
    seq(n, _ => map[])
  }

  /** `shards[shard_of(k)].entries.insert(k, v)` */
  function Insert(shards: seq<Shard>, k: Key, v: Value): seq<Shard>
    requires |shards| > 0
  {
    var i := ShardOf(k, |shards|);
    var shard: Shard := shards[i][k := v];
    shards[i := shard]
  }

  /** `shards[shard_of(k)].entries.remove(&k)` */
  function Delete(shards: seq<Shard>, k: Key): seq<Shard>
    requires |shards| > 0
  {
    var i := ShardOf(k, |shards|);
    var shard: Shard := shards[i] - {k};
    shards[i := shard]
  }

  function Lookup(shards: seq<Shard>, k: Key): Option<Value>
    requires |shards| > 0
  {
    var shard := shards[ShardOf(k, |shards|)];
    if k in shard then Some(shard[k]) else None
  }

  /** The entries of `m`, each in the shard that owns it among `n`. */
  ghost function Layout(m: map<Key, Value>, n: nat): (shards: seq<Shard>)
    requires n > 0
    ensures |shards| == n
  {
    seq(n, i requires 0 <= i < n => map k | k in m && ShardOf(k, n) == i :: m[k])
  }

  /** What an atomic rebalance to `n` shards leaves. */
  ghost function AtomicRebalance(shards: seq<Shard>, n: nat): seq<Shard>
    requires Routed(shards) && n > 0
  {
    Layout(Flat(shards), n)
  }

  function Find(m: map<Key, Value>, k: Key): Option<Value> {
    if k in m then Some(m[k]) else None
  }

  lemma OwnedKeys(shards: seq<Shard>, k: Key)
    requires Routed(shards)
    ensures k in Flat(shards) <==> k in shards[ShardOf(k, |shards|)]
    ensures k in Flat(shards) ==> Flat(shards)[k] == shards[ShardOf(k, |shards|)][k]
  {
    hide ShardOf;
  }

  lemma SameFinds(a: map<Key, Value>, b: map<Key, Value>)
    requires forall x :: Find(a, x) == Find(b, x)
    ensures a == b
  {
    forall x ensures x in a <==> x in b
             ensures x in a ==> a[x] == b[x] {
      assert Find(a, x) == Find(b, x);
    }
  }

  lemma InsertIsUpdate(shards: seq<Shard>, k: Key, v: Value)
    requires Routed(shards)
    ensures Routed(Insert(shards, k, v)) && |Insert(shards, k, v)| == |shards|
    ensures Flat(Insert(shards, k, v)) == Flat(shards)[k := v]
  {
    hide ShardOf, Flat;
    var after := Insert(shards, k, v);
    assert Routed(after);
    hide Routed;
    forall x: Key ensures Find(Flat(after), x) == Find(Flat(shards)[k := v], x) {
      if x == k {
        OwnedKeys(after, k);
      } else {
        InsertElsewhere(shards, k, v, x);
      }
    }
    SameFinds(Flat(after), Flat(shards)[k := v]);
  }

  lemma InsertElsewhere(shards: seq<Shard>, k: Key, v: Value, x: Key)
    requires Routed(shards) && Routed(Insert(shards, k, v)) && x != k
    ensures Find(Flat(Insert(shards, k, v)), x) == Find(Flat(shards), x)
  {
    hide ShardOf, Flat, Routed;
    OwnedKeys(shards, x);
    OwnedKeys(Insert(shards, k, v), x);
  }

  lemma DeleteIsRemoval(shards: seq<Shard>, k: Key)
    requires Routed(shards)
    ensures Routed(Delete(shards, k)) && |Delete(shards, k)| == |shards|
    ensures Flat(Delete(shards, k)) == Flat(shards) - {k}
  {
    hide ShardOf, Flat;
    var after := Delete(shards, k);
    assert Routed(after);
    hide Routed;
    forall x: Key ensures Find(Flat(after), x) == Find(Flat(shards) - {k}, x) {
      OwnedKeys(after, x);
      OwnedKeys(shards, x);
    }
    SameFinds(Flat(after), Flat(shards) - {k});
  }

  lemma LookupIsFind(shards: seq<Shard>, k: Key)
    requires Routed(shards)
    ensures Lookup(shards, k) == Find(Flat(shards), k)
  {
    hide ShardOf, Flat;
    OwnedKeys(shards, k);
  }

  lemma EmptyIsEmpty(n: nat)
    requires n > 0
    ensures Routed(EmptyShards(n)) && Flat(EmptyShards(n)) == map[]
  {
  }

  /** A routed vector is determined by its flat map and its length. */
  lemma RoutedIsLayout(shards: seq<Shard>)
    requires Routed(shards)
    ensures shards == Layout(Flat(shards), |shards|)
  {
    hide ShardOf;
    var n := |shards|;
    forall i | 0 <= i < n ensures shards[i] == Layout(Flat(shards), n)[i] {
      assert forall k :: k in shards[i] ==> k in KeysOf(shards);
    }
  }

  lemma LayoutIsRouted(m: map<Key, Value>, n: nat)
    requires n > 0
    ensures Routed(Layout(m, n)) && Flat(Layout(m, n)) == m
  {
    hide ShardOf, Flat;
    var shards := Layout(m, n);
    assert Routed(shards);
    hide Routed;
    forall k ensures Find(Flat(shards), k) == Find(m, k) {
      OwnedKeys(shards, k);
    }
    SameFinds(Flat(shards), m);
  }

  // ---------------------------------------------------------------------
  // Key counts

  /** Sum of the shard sizes. */
  function Load(shards: seq<Shard>): nat {
    if shards == [] then 0 else Load(shards[..|shards| - 1]) + |shards[|shards| - 1]|
  }

  lemma KeysOfSplit(shards: seq<Shard>, i: nat)
    requires Routed(shards) && i < |shards|
    ensures KeysOf(shards[..i + 1]) == KeysOf(shards[..i]) + shards[i].Keys
    ensures KeysOf(shards[..i]) !! shards[i].Keys
  {
    hide ShardOf;
    var shorter, longer := shards[..i], shards[..i + 1];
    forall k | k in KeysOf(shorter) + shards[i].Keys ensures k in KeysOf(longer) {
      var j :| 0 <= j <= i && k in shards[j];
      assert k in longer[j];
    }
    forall k | k in KeysOf(shorter) ensures k !in shards[i] {
      var j :| 0 <= j < i && k in shorter[j];
      assert k in shards[j] && ShardOf(k, |shards|) == j;
    }
  }

  lemma {:induction false} LoadOfPrefix(shards: seq<Shard>, i: nat)
    requires Routed(shards) && i <= |shards|
    ensures Load(shards[..i]) == |KeysOf(shards[..i])|
  {
    if i == 0 {
      assert KeysOf(shards[..0]) == {};
    } else {
      LoadOfPrefix(shards, i - 1);
      KeysOfSplit(shards, i - 1);
      hide Routed, KeysOf;
      assert shards[..i][..i - 1] == shards[..i - 1];
      assert |shards[i - 1]| == |shards[i - 1].Keys|;
    }
  }

  /** The shard sizes add up to the number of keys: no key is counted twice. */
  lemma LoadIsSize(shards: seq<Shard>)
    requires Routed(shards)
    ensures Load(shards) == |Flat(shards)|
  {
    LoadOfPrefix(shards, |shards|);
    assert shards[..|shards|] == shards;
    assert Flat(shards).Keys == KeysOf(shards);
  }

  // ---------------------------------------------------------------------
  // Draining and refilling

  lemma MergeOneMore(a: map<Key, Value>, m: map<Key, Value>, rest: set<Key>, k: Key)
    requires k in rest && rest <= m.Keys
    ensures (a + (m - rest))[k := m[k]] == a + (m - (rest - {k}))
  {
  }

  /** Inserts every entry of `m`, in whatever order the hash map yields them. */
  method InsertAll(shards: seq<Shard>, m: map<Key, Value>) returns (out: seq<Shard>)
    requires Routed(shards)
    ensures Routed(out) && |out| == |shards|
    ensures Flat(out) == Flat(shards) + m
  {
    out := shards;
    var rest := m.Keys;
    assert m - rest == map[];
    while rest != {}
      invariant rest <= m.Keys
      invariant Routed(out) && |out| == |shards|
      invariant Flat(out) == Flat(shards) + (m - rest)
    {
      var k :| k in rest;
      InsertIsUpdate(out, k, m[k]);
      MergeOneMore(Flat(shards), m, rest, k);
      out := Insert(out, k, m[k]);
      rest := rest - {k};
    }
    assert m - {} == m;
  }

  /** Sharded store that rebalances atomically. */
  class ShardedStore {
    var shards: seq<Shard>

    ghost predicate Valid()
      reads this
    {
      Routed(shards)
    }

    ghost function Contents(): map<Key, Value>
      requires Valid()
      reads this
    {
      Flat(shards)
    }

    constructor (n: nat)
      requires n > 0
      ensures Valid() && Contents() == map[] && |shards| == n
    {
      EmptyIsEmpty(n);
      shards := EmptyShards(n);
    }

    method Put(key: Key, value: Value)
      requires Valid()
      modifies this
      ensures Valid() && |shards| == old(|shards|)
      ensures Contents() == old(Contents())[key := value]
    {
      var idx := RouteKey(key, |shards|);
      InsertIsUpdate(shards, key, value);
      var shard: Shard := shards[idx][key := value];
      shards := shards[idx := shard];
    }

    method Get(key: Key) returns (r: Option<Value>)
      requires Valid()
      ensures r == Find(Contents(), key)
    {
      var idx := RouteKey(key, |shards|);
      OwnedKeys(shards, key);
      r := if key in shards[idx] then Some(shards[idx][key]) else None;
    }

    method Remove(key: Key) returns (r: Option<Value>)
      requires Valid()
      modifies this
      ensures Valid() && |shards| == old(|shards|)
      ensures r == Find(old(Contents()), key)
      ensures Contents() == old(Contents()) - {key}
    {
      var idx := RouteKey(key, |shards|);
      OwnedKeys(shards, key);
      DeleteIsRemoval(shards, key);
      r := if key in shards[idx] then Some(shards[idx][key]) else None;
      var shard: Shard := shards[idx] - {key};
      shards := shards[idx := shard];
    }

    method Len() returns (n: nat)
      requires Valid()
      ensures n == |Contents()|
    {
      n := CountKeys(shards);
      LoadIsSize(shards);
    }

    method Rebalance(newN: nat)
      requires Valid() && newN > 0
      modifies this
      ensures Valid() && Contents() == old(Contents())
      ensures shards == AtomicRebalance(old(shards), newN)
    {
      var prior := shards;
      var collected := Collect(prior);
      EmptyIsEmpty(newN);
      shards := InsertAll(EmptyShards(newN), collected);
      assert map[] + Flat(prior) == Flat(prior);
      RoutedIsLayout(shards);
    }
  }

  lemma ShardInFlat(shards: seq<Shard>, i: nat)
    requires Routed(shards) && i < |shards|
    ensures forall k :: k in shards[i] ==> k in Flat(shards) && shards[i][k] == Flat(shards)[k]
  {
    hide ShardOf, Flat;
    forall k | k in shards[i] ensures k in Flat(shards) && shards[i][k] == Flat(shards)[k] {
      OwnedKeys(shards, k);
    }
  }

  /** Empties the shards one by one into `collected`. */
  method Collect(shards: seq<Shard>) returns (collected: map<Key, Value>)
    requires Routed(shards)
    ensures collected == Flat(shards)
  {
    collected := map[];
    assert KeysOf(shards[..0]) == {};
    assert Flat(shards).Keys == KeysOf(shards);
    hide ShardOf, Flat, KeysOf, Routed;
    for i := 0 to |shards|
      invariant collected.Keys == KeysOf(shards[..i])
      invariant forall k :: k in collected ==> k in Flat(shards) && collected[k] == Flat(shards)[k]
    {
      KeysOfSplit(shards, i);
      ShardInFlat(shards, i);
      collected := collected + shards[i];
    }
    assert shards[..|shards|] == shards;
  }

  method CountKeys(shards: seq<Shard>) returns (n: nat)
    ensures n == Load(shards)
  {
    n := 0;
    for i := 0 to |shards|
      invariant n == Load(shards[..i])
    {
      assert shards[..i + 1][..i] == shards[..i];
      n := n + |shards[i]|;
    }
    assert shards[..|shards|] == shards;
  }
}
