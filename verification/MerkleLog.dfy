/** Append-only log, its file format and its mountain-range peaks (crates/cosaci-core/src/merkle_log.rs). */
module MerkleLog {
  import opened Machine
  import opened Bits

  const HASH_LEN: nat := 32
  const WORD: nat := 64

  type Hash = h: seq<u8> | |h| == 32 witness seq(32, _ => 0)

  /** The Merkle library: root and sibling path as functions of the leaves alone. */
  datatype Tree = Tree(root: seq<Hash> -> Hash, path: (seq<Hash>, nat) -> seq<Hash>)

  datatype InclusionProof = InclusionProof(position: nat, entry: Hash, path: seq<Hash>, length: nat)

  function RootAt(tree: Tree, entries: seq<Hash>, n: nat): Option<Hash> {
    if n == 0 || n > |entries| then None else Some(tree.root(entries[..n]))
  }

  function ProofAt(tree: Tree, entries: seq<Hash>, position: nat, length: nat): Option<InclusionProof> {
    if length == 0 || length > |entries| || position >= length then None
    else Some(InclusionProof(position, entries[position], tree.path(entries[..length], position), length))
  }

  /** Roots and proofs at a length already reached never change. */
  lemma PrefixIsFrozen(tree: Tree, entries: seq<Hash>, more: seq<Hash>, position: nat, length: nat)
    requires length <= |entries|
    ensures RootAt(tree, entries + more, length) == RootAt(tree, entries, length)
    ensures ProofAt(tree, entries + more, position, length) == ProofAt(tree, entries, position, length)
    ensures length > 0 ==> RootAt(tree, entries, length) == Some(tree.root(entries[..length]))
    ensures position < length ==>
              ProofAt(tree, entries, position, length) ==
              Some(InclusionProof(position, entries[position], tree.path(entries[..length], position), length))
  {
    assert (entries + more)[..length] == entries[..length];
  }

  /** At its full length a log's root is the root of all its entries, and a proof carries the path among them. */
  lemma WholeLog(tree: Tree, entries: seq<Hash>, position: nat)
    requires position < |entries|
    ensures RootAt(tree, entries, |entries|) == Some(tree.root(entries))
    ensures ProofAt(tree, entries, position, |entries|) ==
            Some(InclusionProof(position, entries[position], tree.path(entries, position), |entries|))
  {
    assert entries[..|entries|] == entries;
  }

  /** So at any length reached they are those of the entries up to it; elsewhere there is neither. */
  lemma RootOfPrefix(tree: Tree, entries: seq<Hash>, position: nat, length: nat)
    ensures RootAt(tree, entries, length).Some? <==> 0 < length <= |entries|
    ensures ProofAt(tree, entries, position, length).Some? <==> position < length <= |entries|
    ensures 0 < length <= |entries| ==> RootAt(tree, entries, length) == Some(tree.root(entries[..length]))
    ensures position < length <= |entries| ==>
              ProofAt(tree, entries, position, length) ==
              Some(InclusionProof(position, entries[position], tree.path(entries[..length], position), length))
  {
    if 0 < length <= |entries| {
      var front, back := entries[..length], entries[length..];
      assert entries == front + back;
      PrefixIsFrozen(tree, front, back, position, length);
      WholeLog(tree, front, if position < length then position else 0);
    }
  }

  /** A checker that accepts the path of each leaf against the root of its leaves. */
  ghost predicate Accepting(check: (InclusionProof, Hash) -> bool, tree: Tree) {
    forall leaves: seq<Hash>, i: nat :: i < |leaves| ==>
      check(InclusionProof(i, leaves[i], tree.path(leaves, i), |leaves|), tree.root(leaves))
  }

  /** Every proof of the log is accepted against the root of the same length. */
  lemma ProofChecks(check: (InclusionProof, Hash) -> bool, tree: Tree, entries: seq<Hash>, position: nat, length: nat)
    requires Accepting(check, tree) && position < length <= |entries|
    ensures var proof, root := ProofAt(tree, entries, position, length), RootAt(tree, entries, length);
            proof.Some? && root.Some? && check(proof.value, root.value)
  {
    RootOfPrefix(tree, entries, position, length);
    var leaves := entries[..length];
    assert check(InclusionProof(position, leaves[position], tree.path(leaves, position), |leaves|), tree.root(leaves));
  }

  // ---------------------------------------------------------------------
  // Peaks

  /** Heights below `h` of the one-bits of `n`, highest first. */
  function Peaks(n: nat, h: nat): seq<nat> {
    if h == 0 then [] else (if Bit(n, h - 1) then [h - 1] else []) + Peaks(n, h - 1)
  }

  function PeakHeights(n: u64): seq<nat> {
    Peaks(n, WORD)
  }

  method ComputePeakHeights(n: u64) returns (out: seq<nat>)
    ensures out == PeakHeights(n)
  {
    out := [];
    assert out + Peaks(n, WORD) == Peaks(n, WORD);
    for h := WORD downto 0
      invariant out + Peaks(n, h) == Peaks(n, WORD)
    {
      hide Peaks, Shr;
      PeaksStep(n, h);
      if Shr(n, h) % 2 == 1 {
        assert out + [h] + Peaks(n, h) == out + ([h] + Peaks(n, h));
        out := out + [h];
      }
    }
    assert out + [] == out;
  }

  lemma PeaksStep(n: nat, h: nat)
    ensures Peaks(n, h + 1) == if Bit(n, h) then [h] + Peaks(n, h) else Peaks(n, h)
    ensures Peaks(n, 0) == []
  {
  }

  predicate Descending(peaks: seq<nat>) {
    forall i, j :: 0 <= i < j < |peaks| ==> peaks[i] > peaks[j]
  }

  predicate Under(peaks: seq<nat>, h: nat) {
    forall i :: 0 <= i < |peaks| ==> peaks[i] < h
  }

  function Leaves(peaks: seq<nat>): nat {
    if peaks == [] then 0 else Pow2(peaks[0]) + Leaves(peaks[1..])
  }

  function Popcount(n: nat): nat {
    if n == 0 then 0 else n % 2 + Popcount(n / 2)
  }

  lemma {:induction false} PeaksBelow(n: nat, h: nat)
    ensures Descending(Peaks(n, h)) && Under(Peaks(n, h), h)
  {
    if h == 0 {
    } else {
      hide Peaks, Bit, Descending, Under;
      PeaksBelow(n, h - 1);
      PeaksStep(n, h - 1);
      DescendingCons(h - 1, Peaks(n, h - 1));
    }
  }

  lemma DescendingCons(first: nat, rest: seq<nat>)
    requires Descending(rest) && Under(rest, first)
    ensures Descending([first] + rest) && Under([first] + rest, first + 1) && Under(rest, first + 1)
  {
  }

  lemma ShrNext(n: nat, k: nat)
    ensures Shr(n, k) == 2 * Shr(n, k + 1) + (if Bit(n, k) then 1 else 0)
  {
    ShrTwice(n, k, 1);
    assert Shr(Shr(n, k), 1) == Shr(n, k) / 2;
  }

  lemma PeaksUnfold(n: nat, h: nat)
    ensures Leaves(Peaks(n, h + 1)) == (if Bit(n, h) then Pow2(h) else 0) + Leaves(Peaks(n, h))
    ensures |Peaks(n, h + 1)| == (if Bit(n, h) then 1 else 0) + |Peaks(n, h)|
  {
    hide Shr, Peaks, Bit, Pow2;
    PeaksStep(n, h);
    if Bit(n, h) {
      assert ([h] + Peaks(n, h))[1..] == Peaks(n, h);
    }
  }

  lemma Distribute(p: nat, s: nat, b: nat)
    ensures p * (2 * s + b) == 2 * p * s + p * b
  {
  }

  lemma {:induction false} PeaksTileLow(n: nat, h: nat)
    ensures Pow2(h) * Shr(n, h) + Leaves(Peaks(n, h)) == n
  {
    if h == 0 {
      assert Leaves(Peaks(n, 0)) == 0;
    } else {
      var k := h - 1;
      var b := if Bit(n, k) then 1 else 0;
      PeaksTileLow(n, k);
      assert Pow2(h) == 2 * Pow2(k);
      hide Bit, Shr, Peaks, Leaves, Pow2;
      PeaksUnfold(n, k);
      ShrNext(n, k);
      Distribute(Pow2(k), Shr(n, h), b);
    }
  }

  lemma {:induction false} PeaksCountLow(n: nat, h: nat)
    ensures |Peaks(n, h)| + Popcount(Shr(n, h)) == Popcount(n)
  {
    hide Bit, Peaks, Popcount;
    if h == 0 {
      PeaksStep(n, 0);
    } else {
      hide Shr;
      PeaksCountLow(n, h - 1);
      PeaksUnfold(n, h - 1);
      ShrNext(n, h - 1);
      PopcountDigit(Shr(n, h), if Bit(n, h - 1) then 1 else 0);
    }
  }

  lemma PopcountDigit(n: nat, b: nat)
    requires b < 2
    ensures Popcount(2 * n + b) == b + Popcount(n)
  {
    assert (2 * n + b) / 2 == n && (2 * n + b) % 2 == b;
  }

  /** Peaks strictly descend, tile the `n` leaves exactly and number as many as `n` has one-bits. */
  lemma PeaksTile(n: u64)
    ensures Descending(PeakHeights(n))
    ensures Leaves(PeakHeights(n)) == n
    ensures |PeakHeights(n)| == Popcount(n)
  {
    hide Peaks, Shr, Leaves, Popcount;
    PeaksBelow(n, WORD);
    NothingAbove(n);
    PeaksTileLow(n, WORD);
    PeaksCountLow(n, WORD);
    assert Popcount(0) == 0 by { PopcountZero(); }
  }

  lemma PopcountZero()
    ensures Popcount(0) == 0
  {
  }

  lemma NothingAbove(n: u64)
    ensures Shr(n, WORD) == 0
  {
    Pow2Of64();
    ShrBelow(n, WORD, 0);
  }

  /** The part of the decomposition at heights `k` and above. */
  function HighPeaks(n: nat, h: nat, k: nat): seq<nat> {
    if h <= k then [] else (if Bit(n, h - 1) then [h - 1] else []) + HighPeaks(n, h - 1, k)
  }

  lemma {:induction false} PeaksSplit(n: nat, h: nat, k: nat)
    requires k <= h
    ensures Peaks(n, h) == HighPeaks(n, h, k) + Peaks(n, k)
  {
    if h == k {
    } else {
      PeaksSplit(n, h - 1, k);
    }
  }

  lemma {:induction false} HighPeaksAgree(n: nat, m: nat, h: nat, k: nat)
    requires Shr(n, k) == Shr(m, k)
    ensures HighPeaks(n, h, k) == HighPeaks(m, h, k)
  {
    if h <= k {
    } else {
      HighPeaksAgree(n, m, h - 1, k);
      ShrTwice(n, k, h - 1 - k);
      ShrTwice(m, k, h - 1 - k);
    }
  }

  /** Lengths that agree from bit `k` up share every peak of height `k` or more, at the same index. */
  lemma HighPeaksAreStable(n: u64, m: u64, k: nat)
    requires k <= WORD && Shr(n, k) == Shr(m, k)
    ensures HighPeaks(n, WORD, k) <= PeakHeights(n) && HighPeaks(n, WORD, k) <= PeakHeights(m)
    ensures forall i :: |HighPeaks(n, WORD, k)| <= i < |PeakHeights(n)| ==> PeakHeights(n)[i] < k
  {
    PeaksSplit(n, WORD, k);
    PeaksSplit(m, WORD, k);
    HighPeaksAgree(n, m, WORD, k);
    PeaksBelow(n, k);
  }

  function TrailingOnes(n: nat): nat {
    if n % 2 == 1 then 1 + TrailingOnes(n / 2) else 0
  }

  /** Bit `t` is set by adding one, the ones below it clear and everything above stays. */
  ghost predicate Carries(n: nat, t: nat) {
    Shr(n, t + 1) == Shr(n + 1, t + 1) && !Bit(n, t) && Bit(n + 1, t) &&
    forall j :: 0 <= j < t ==> Bit(n, j) && !Bit(n + 1, j)
  }

  /** Counting up carries through the trailing ones: they clear and the next bit is set. */
  lemma {:induction false} Carry(n: nat)
    ensures Carries(n, TrailingOnes(n))
  {
    hide Carries;
    var h := n / 2;
    if n % 2 == 0 {
      assert n == 2 * h;
      CarryEven(h);
    } else {
      assert n == 2 * h + 1;
      Carry(h);
      CarryOdd(h, TrailingOnes(h));
    }
  }

  lemma CarryEven(h: nat)
    ensures Carries(2 * h, 0)
  {
    ShrDouble(h, 0, 0);
    ShrDouble(h, 1, 0);
  }

  lemma CarryOdd(h: nat, t: nat)
    requires Carries(h, t)
    ensures Carries(2 * h + 1, t + 1)
  {
    ShrDouble(h, 1, t + 1);
    ShrDouble(h + 1, 0, t + 1);
    ShrDouble(h, 1, t);
    ShrDouble(h + 1, 0, t);
    var n, m := 2 * h + 1, 2 * h + 2;
    forall j | 0 <= j < t + 1 ensures Bit(n, j) && !Bit(m, j) {
      CarryOddBelow(h, t, j);
    }
  }

  lemma CarryOddBelow(h: nat, t: nat, j: nat)
    requires Carries(h, t) && j < t + 1
    ensures Bit(2 * h + 1, j) && !Bit(2 * h + 2, j)
  {
    if j > 0 {
      assert Bit(h, j - 1) && !Bit(h + 1, j - 1);
      hide Carries;
      ShrDouble(h, 1, j - 1);
      ShrDouble(h + 1, 0, j - 1);
    }
  }

  lemma ShrDouble(h: nat, b: nat, k: nat)
    requires b < 2
    ensures Shr(2 * h + b, k + 1) == Shr(h, k)
    ensures Bit(2 * h + b, k + 1) == Bit(h, k)
  {
    assert (2 * h + b) / 2 == h;
  }

  lemma {:induction false} LowPeaks(n: nat, t: nat)
    ensures (forall j :: 0 <= j < t ==> Bit(n, j)) ==> |Peaks(n, t)| == t
    ensures (forall j :: 0 <= j < t ==> !Bit(n, j)) ==> Peaks(n, t) == []
  {
    if t == 0 {
    } else {
      LowPeaks(n, t - 1);
    }
  }

  /** One append replaces exactly the peaks of the trailing one-bits by a single higher peak. */
  lemma AppendMergesPeaks(n: u64)
    requires n < U64_MAX
    ensures var t := TrailingOnes(n);
            t <= |PeakHeights(n)| &&
            PeakHeights(n + 1) == PeakHeights(n)[..|PeakHeights(n)| - t] + [t]
  {
    hide Peaks, HighPeaks, Bit, Shr, TrailingOnes;
    var t := TrailingOnes(n);
    CarryStaysInWord(n);
    LowEnds(n);
    PeaksSplit(n, WORD, t + 1);
    PeaksSplit(n + 1, WORD, t + 1);
    HighPeaksAgree(n, n + 1, WORD, t + 1);
    DropTail(HighPeaks(n, WORD, t + 1), Peaks(n, t + 1));
  }

  lemma DropTail(high: seq<nat>, low: seq<nat>)
    ensures (high + low)[..|high + low| - |low|] == high
  {
  }

  /** Below the carry: all ones before the append, a single one after it. */
  lemma LowEnds(n: nat)
    ensures var t := TrailingOnes(n);
            |Peaks(n, t + 1)| == t && Peaks(n + 1, t + 1) == [t] && Shr(n, t + 1) == Shr(n + 1, t + 1)
  {
    hide Peaks, Bit, Shr, TrailingOnes;
    var t := TrailingOnes(n);
    Carry(n);
    var m := n + 1;
    forall j | 0 <= j < t ensures !Bit(m, j) {
      assert Bit(n, j);
    }
    LowPeaks(n, t);
    LowPeaks(m, t);
    PeaksStep(n, t);
    PeaksStep(m, t);
    assert [t] + [] == [t];
  }

  lemma NoBitAbove(n: u64, k: nat)
    requires k >= WORD
    ensures !Bit(n, k)
  {
    NothingAbove(n);
    ShrTwice(n, WORD, k - WORD);
    ShrOfZero(k - WORD);
  }

  lemma CarryStaysInWord(n: u64)
    requires n < U64_MAX
    ensures TrailingOnes(n) < WORD
  {
    hide Bit, Shr;
    Carry(n);
    if TrailingOnes(n) >= WORD {
      NoBitAbove(n + 1, TrailingOnes(n));
    }
  }

  lemma {:induction false} ShrOfZero(k: nat)
    ensures Shr(0, k) == 0
  {
    if k == 0 {
    } else {
      ShrOfZero(k - 1);
    }
  }

  // ---------------------------------------------------------------------
  // Peak hashes

  /** Root of each peak's leaves, the first peak starting at leaf `start`. */
  function HashesFrom(tree: Tree, entries: seq<Hash>, start: nat, peaks: seq<nat>): (r: seq<Hash>)
    requires start + Leaves(peaks) <= |entries|
    ensures |r| == |peaks|
    decreases |peaks|
  {
    if peaks == [] then []
    else
      var end := start + Pow2(peaks[0]);
      [tree.root(entries[start..end])] + HashesFrom(tree, entries, end, peaks[1..])
  }

  /** Peak `i` is the root of its own leaves: those after the leaves of the peaks before it. */
  lemma {:induction false} HashAt(tree: Tree, entries: seq<Hash>, start: nat, peaks: seq<nat>, i: nat)
    requires start + Leaves(peaks) <= |entries| && i < |peaks|
    ensures var begin := start + Leaves(peaks[..i]);
            begin + Pow2(peaks[i]) <= |entries| &&
            HashesFrom(tree, entries, start, peaks)[i] == tree.root(entries[begin..begin + Pow2(peaks[i])])
    decreases i
  {
    hide HashesFrom, Leaves, Pow2;
    HashesStep(tree, entries, start, peaks);
    if i == 0 {
      NoLeaves();
      assert peaks[..0] == [];
    } else {
      HashAt(tree, entries, start + Pow2(peaks[0]), peaks[1..], i - 1);
      LeavesStep(peaks[..i]);
      assert peaks[..i][1..] == peaks[1..][..i - 1];
    }
  }

  lemma NoLeaves()
    ensures Leaves([]) == 0
  {
  }

  lemma LeavesStep(peaks: seq<nat>)
    requires peaks != []
    ensures Leaves(peaks) == Pow2(peaks[0]) + Leaves(peaks[1..])
  {
  }

  function PeakHashes(tree: Tree, entries: seq<Hash>, length: u64): seq<Hash> {
    if length == 0 || length > |entries| then []
    else
      PeaksTile(length);
      HashesFrom(tree, entries, 0, PeakHeights(length))
  }

  method ComputePeakHashes(tree: Tree, entries: seq<Hash>, length: u64) returns (out: seq<Hash>)
    ensures out == PeakHashes(tree, entries, length)
  {
    if length == 0 || length > |entries| {
      return [];
    }
    var heights := ComputePeakHeights(length);
    PeaksTile(length);
    out := HashRanges(tree, entries, heights);
  }

  method HashRanges(tree: Tree, entries: seq<Hash>, heights: seq<nat>) returns (out: seq<Hash>)
    requires Leaves(heights) <= |entries|
    ensures out == HashesFrom(tree, entries, 0, heights)
  {
    hide HashesFrom, Leaves, Pow2;
    out := [];
    var start: nat := 0;
    ghost var all := HashesFrom(tree, entries, 0, heights);
    assert heights[0..] == heights && all[0..] == all;
    for i := 0 to |heights|
      invariant start + Leaves(heights[i..]) == Leaves(heights)
      invariant out == all[..i]
      invariant HashesFrom(tree, entries, start, heights[i..]) == all[i..]
    {
      var count := Pow2(heights[i]);
      ghost var rest := heights[i..];
      assert rest[1..] == heights[i + 1..];
      HashesStep(tree, entries, start, rest);
      assert all[i..][0] == all[i] && all[i..][1..] == all[i + 1..];
      out := out + [tree.root(entries[start..start + count])];
      start := start + count;
    }
  }

  lemma HashesStep(tree: Tree, entries: seq<Hash>, start: nat, peaks: seq<nat>)
    requires peaks != [] && start + Leaves(peaks) <= |entries|
    ensures Leaves(peaks) == Pow2(peaks[0]) + Leaves(peaks[1..])
    ensures var end, all := start + Pow2(peaks[0]), HashesFrom(tree, entries, start, peaks);
            all[0] == tree.root(entries[start..end]) &&
            all[1..] == HashesFrom(tree, entries, end, peaks[1..])
  {
  }

  lemma {:induction false} LeavesOfConcat(a: seq<nat>, b: seq<nat>)
    ensures Leaves(a + b) == Leaves(a) + Leaves(b)
  {
    if a == [] {
      assert a + b == b;
    } else {
      assert (a + b)[1..] == a[1..] + b;
      LeavesOfConcat(a[1..], b);
    }
  }

  lemma SlicesAgree(a: seq<Hash>, b: seq<Hash>, l: nat, i: nat, j: nat)
    requires l <= |a| && l <= |b| && a[..l] == b[..l] && i <= j <= l
    ensures a[i..j] == b[i..j]
  {
    assert forall k :: i <= k < j ==> a[k] == a[..l][k] && b[k] == b[..l][k];
  }

  lemma {:induction false} HashesAgree(tree: Tree, a: seq<Hash>, b: seq<Hash>, start: nat, p: seq<nat>, q: seq<nat>, i: nat)
    requires p <= q && i < |p| && start + Leaves(p) <= |a| && start + Leaves(q) <= |b|
    requires start + Leaves(p) <= |b| && a[..start + Leaves(p)] == b[..start + Leaves(p)]
    ensures HashesFrom(tree, a, start, p)[i] == HashesFrom(tree, b, start, q)[i]
    decreases i
  {
    var end := start + Pow2(p[0]);
    assert p[1..] <= q[1..];
    assert Leaves(p) == Pow2(p[0]) + Leaves(p[1..]) && Leaves(q) == Pow2(q[0]) + Leaves(q[1..]);
    if i == 0 {
      var l := start + Leaves(p);
      SlicesAgree(a, b, l, start, end);
    } else {
      HashesAgree(tree, a, b, end, p[1..], q[1..], i - 1);
    }
  }

  /** A high peak's hash is fixed for good: later entries and longer lengths leave it as it is. */
  lemma PeakHashesAreStable(tree: Tree, entries: seq<Hash>, more: seq<Hash>, n: u64, m: u64, k: nat, i: nat)
    requires 0 < n <= |entries| && n <= m <= |entries + more| && k <= WORD && Shr(n, k) == Shr(m, k)
    requires i < |HighPeaks(n, WORD, k)|
    ensures i < |PeakHashes(tree, entries, n)| && i < |PeakHashes(tree, entries + more, m)|
    ensures PeakHashes(tree, entries, n)[i] == PeakHashes(tree, entries + more, m)[i]
  {
    var high := HighPeaks(n, WORD, k);
    HighPeaksAreStable(n, m, k);
    PeaksTile(n);
    PeaksTile(m);
    PeaksSplit(n, WORD, k);
    LeavesOfConcat(high, Peaks(n, k));
    hide PeakHeights, HighPeaks, HashesFrom;
    HashesAgree(tree, entries, entries, 0, high, PeakHeights(n), i);
    HashesAgree(tree, entries, entries + more, 0, high, PeakHeights(m), i);
  }

  // ---------------------------------------------------------------------
  // The file: fixed 32-byte records, no header

  function Encode(entries: seq<Hash>): (bytes: seq<u8>)
    ensures |bytes| == HASH_LEN * |entries|
  {
    if entries == [] then [] else Encode(entries[..|entries| - 1]) + entries[|entries| - 1]
  }

  function Chunks(bytes: seq<u8>): seq<Hash>
    requires |bytes| % HASH_LEN == 0
  {
    if bytes == [] then []
    else Chunks(bytes[..|bytes| - HASH_LEN]) + [bytes[|bytes| - HASH_LEN..]]
  }

  /** `FileStore::open` followed by `read_all`. */
  function Open(bytes: seq<u8>): Option<seq<Hash>> {
    if |bytes| % HASH_LEN != 0 then None else Some(Chunks(bytes))
  }

  /** The file holds entry `i` at byte `32 * i`. */
  lemma {:induction false} EntryInFile(entries: seq<Hash>, i: nat)
    requires i < |entries|
    ensures Encode(entries)[HASH_LEN * i..HASH_LEN * i + HASH_LEN] == entries[i]
  {
    var n := |entries| - 1;
    var front := Encode(entries[..n]);
    if i == n {
    } else {
      EntryInFile(entries[..n], i);
      assert Encode(entries)[HASH_LEN * i..HASH_LEN * i + HASH_LEN] == front[HASH_LEN * i..HASH_LEN * i + HASH_LEN];
    }
  }

  /** Closing and reopening gives the same log. */
  lemma {:induction false} ReopenRecovers(entries: seq<Hash>)
    ensures Open(Encode(entries)) == Some(entries)
  {
    if entries == [] {
    } else {
      var n := |entries| - 1;
      var bytes := Encode(entries);
      ReopenRecovers(entries[..n]);
      assert bytes[..|bytes| - HASH_LEN] == Encode(entries[..n]);
      assert bytes[|bytes| - HASH_LEN..] == entries[n];
      assert entries == entries[..n] + [entries[n]];
    }
  }

  /**
   * An append cut off after `k` of its 32 bytes: nothing written gives the old log, all of it the
   * new one, and anything in between makes the open fail; no wrong entry is ever returned.
   */
  lemma TornAppend(entries: seq<Hash>, entry: Hash, k: nat)
    requires k <= HASH_LEN
    ensures Open(Encode(entries) + entry[..k]) ==
            if k == 0 then Some(entries) else if k == HASH_LEN then Some(entries + [entry]) else None
  {
    ReopenRecovers(entries);
    ReopenRecovers(entries + [entry]);
    if k == 0 {
      assert Encode(entries) + entry[..k] == Encode(entries);
    } else if k == HASH_LEN {
      assert entry[..k] == entry;
      assert (entries + [entry])[..|entries|] == entries;
      assert Encode(entries + [entry]) == Encode(entries) + entry;
    }
  }

  /** The file-backed log with its in-memory mirror. */
  class FileLog {
    var entries: seq<Hash>
    var file: seq<u8>
    var len: nat

    ghost predicate Valid()
      reads this
    {
      file == Encode(entries) && len == |entries|
    }

    constructor FromFile(bytes: seq<u8>, recovered: seq<Hash>)
      requires Open(bytes) == Some(recovered)
      ensures Valid() && entries == recovered && file == bytes
    {
      EncodeChunks(bytes);
      entries, file, len := recovered, bytes, |bytes| / HASH_LEN;
    }

    method Append(entry: Hash) returns (position: nat)
      requires Valid()
      modifies this
      ensures Valid() && entries == old(entries) + [entry] && position == old(|entries|)
      ensures file == old(file) + entry
    {
      file := file + entry;
      position := len;
      len := len + 1;
      entries := entries + [entry];
      assert entries[..|entries| - 1] == old(entries);
    }
  }

  lemma {:induction false} EncodeChunks(bytes: seq<u8>)
    requires |bytes| % HASH_LEN == 0
    ensures Encode(Chunks(bytes)) == bytes && |Chunks(bytes)| == |bytes| / HASH_LEN
  {
    if bytes == [] {
    } else {
      var n := |bytes| - HASH_LEN;
      EncodeChunks(bytes[..n]);
      var chunks := Chunks(bytes);
      assert chunks[..|chunks| - 1] == Chunks(bytes[..n]);
      assert bytes == bytes[..n] + bytes[n..];
    }
  }

  /** `read_all`: the file cut into records from the front. */
  method ReadAll(bytes: seq<u8>) returns (r: Option<seq<Hash>>)
    ensures r == Open(bytes)
  {
    if |bytes| % HASH_LEN != 0 {
      return None;
    }
    hide Chunks;
    var out: seq<Hash> := [];
    NoChunks();
    assert bytes[..0] == [];
    for r := 0 to |bytes| / HASH_LEN
      invariant out == Chunks(bytes[..HASH_LEN * r])
    {
      ChunksStep(bytes, r);
      var chunk: Hash := bytes[HASH_LEN * r..HASH_LEN * (r + 1)];
      out := out + [chunk];
    }
    assert bytes[..|bytes|] == bytes;
    return Some(out);
  }

  /** `MerkleLog::open`; null stands for the error. */
  method OpenLog(bytes: seq<u8>) returns (log: FileLog?)
    ensures log == null <==> Open(bytes).None?
    ensures log != null ==> fresh(log) && log.Valid() && log.file == bytes && Open(bytes) == Some(log.entries)
  {
    var recovered := ReadAll(bytes);
    if recovered.None? {
      return null;
    }
    log := new FileLog.FromFile(bytes, recovered.value);
  }

  lemma NoChunks()
    ensures Chunks([]) == []
  {
  }

  lemma ChunksStep(bytes: seq<u8>, r: nat)
    requires HASH_LEN * (r + 1) <= |bytes|
    ensures Chunks(bytes[..HASH_LEN * (r + 1)]) ==
            Chunks(bytes[..HASH_LEN * r]) + [bytes[HASH_LEN * r..HASH_LEN * (r + 1)]]
  {
    var i, next := HASH_LEN * r, HASH_LEN * (r + 1);
    assert bytes[..next][..i] == bytes[..i] && bytes[..next][i..] == bytes[i..next];
  }
}
