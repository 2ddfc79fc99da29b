/** Capability filter and committee selection (crates/cosaci-core/src/capabilities.rs). */
module Capabilities {
  import opened Machine

  datatype Platform = LinuxX86_64 | LinuxAarch64 | DarwinX86_64 | DarwinAarch64
  datatype Runtime = Wasm | Firecracker | Docker

  datatype Offer = Offer(cpu: u32, memoryMb: u32, platform: Platform, runtimes: set<Runtime>)
  datatype Requirements = Requirements(cpu: u32, memoryMb: u32, platform: Platform, runtimes: set<Runtime>)

  predicate Matches(runner: Offer, job: Requirements) {
    runner.cpu >= job.cpu && runner.memoryMb >= job.memoryMb &&
    runner.platform == job.platform && job.runtimes <= runner.runtimes
  }

  type Vrf = seq<u8>

  datatype Candidate = Candidate(id: u64, offer: Offer, vrf: Vrf)

  /** Lexicographic order on byte strings. */
  predicate LexLe(a: Vrf, b: Vrf) {
    a == [] || (b != [] && (a[0] < b[0] || (a[0] == b[0] && LexLe(a[1..], b[1..]))))
  }

  /** `a` and `b` agree before byte `k`, where `a` is the lower. */
  predicate LowerAt(a: Vrf, b: Vrf, k: nat) {
    k < |a| && k < |b| && a[..k] == b[..k] && a[k] < b[k]
  }

  /** The order is decided at the first byte that differs; a proper prefix comes first. */
  lemma {:induction false} LexIff(a: Vrf, b: Vrf)
    ensures LexLe(a, b) <==> a <= b || exists k: nat :: LowerAt(a, b, k)
  {
    if a == [] || b == [] {
    } else if a[0] != b[0] {
      assert a[0] < b[0] ==> LowerAt(a, b, 0);
    } else {
      LexIff(a[1..], b[1..]);
      assert a == [a[0]] + a[1..] && b == [b[0]] + b[1..];
      forall k: nat ensures LowerAt(a[1..], b[1..], k) <==> LowerAt(a, b, k + 1) {
        LowerTail(a, b, k);
      }
      if exists k: nat :: LowerAt(a, b, k) {
        var k: nat :| LowerAt(a, b, k);
        assert LowerAt(a[1..], b[1..], k - 1);
      }
    }
  }

  lemma LowerTail(a: Vrf, b: Vrf, k: nat)
    requires a != [] && b != [] && a[0] == b[0]
    ensures LowerAt(a[1..], b[1..], k) <==> LowerAt(a, b, k + 1)
  {
    if k + 1 <= |a| && k + 1 <= |b| {
      assert a[..k + 1] == [a[0]] + a[1..][..k] && b[..k + 1] == [b[0]] + b[1..][..k];
      assert a[..k + 1][1..] == a[1..][..k] && b[..k + 1][1..] == b[1..][..k];
    }
  }

  lemma {:induction false} LexTotal(a: Vrf, b: Vrf)
    ensures LexLe(a, b) || LexLe(b, a)
    ensures LexLe(a, b) && LexLe(b, a) ==> a == b
  {
    if a == [] || b == [] {
    } else {
      LexTotal(a[1..], b[1..]);
      assert a == [a[0]] + a[1..] && b == [b[0]] + b[1..];
    }
  }

  lemma {:induction false} LexTransitive(a: Vrf, b: Vrf, c: Vrf)
    requires LexLe(a, b) && LexLe(b, c)
    ensures LexLe(a, c)
  {
    if a == [] || a[0] < b[0] || b[0] < c[0] {
    } else {
      LexTransitive(a[1..], b[1..], c[1..]);
    }
  }

  // ---------------------------------------------------------------------
  // Filter, stable sort, take

  function Eligible(cs: seq<Candidate>, req: Requirements): seq<Candidate> {
    if cs == [] then []
    else Eligible(cs[..|cs| - 1], req) + (if Matches(cs[|cs| - 1].offer, req) then [cs[|cs| - 1]] else [])
  }

  /** Puts `c` before the first candidate that is not below it. */
  function Place(c: Candidate, sorted: seq<Candidate>): seq<Candidate> {
    if sorted == [] || LexLe(c.vrf, sorted[0].vrf) then [c] + sorted
    else [sorted[0]] + Place(c, sorted[1..])
  }

  /** The stable sort by VRF output. */
  function SortByVrf(cs: seq<Candidate>): seq<Candidate> {
    if cs == [] then [] else Place(cs[0], SortByVrf(cs[1..]))
  }

  function Ids(cs: seq<Candidate>): (r: seq<u64>)
    ensures |r| == |cs|
  {
    seq(|cs|, i requires 0 <= i < |cs| => cs[i].id)
  }

  function Chosen(cs: seq<Candidate>, req: Requirements, size: nat): Option<seq<Candidate>> {
    var sorted := SortByVrf(Eligible(cs, req));
    if |Eligible(cs, req)| < size || |sorted| < size then None else Some(sorted[..size])
  }

  method SelectCommittee(cs: seq<Candidate>, req: Requirements, size: nat) returns (r: Option<seq<u64>>)
    ensures r == Committee(cs, req, size)
  {
    var eligible := [];
    for i := 0 to |cs|
      invariant eligible == Eligible(cs[..i], req)
    {
      assert cs[..i + 1][..i] == cs[..i];
      if Matches(cs[i].offer, req) {
        eligible := eligible + [cs[i]];
      }
    }
    assert cs[..|cs|] == cs;
    if |eligible| < size {
      return None;
    }
    var sorted := SortByVrf(eligible);
    SortPermutes(eligible);
    SameLength(sorted, eligible);
    return Some(Ids(sorted[..size]));
  }

  predicate Sorted(cs: seq<Candidate>) {
    forall i, j :: 0 <= i < j < |cs| ==> LexLe(cs[i].vrf, cs[j].vrf)
  }

  lemma {:induction false} PlacePermutes(c: Candidate, sorted: seq<Candidate>)
    ensures multiset(Place(c, sorted)) == multiset(sorted) + multiset{c}
  {
    if sorted == [] || LexLe(c.vrf, sorted[0].vrf) {
    } else {
      PlacePermutes(c, sorted[1..]);
      assert sorted == [sorted[0]] + sorted[1..];
    }
  }

  lemma {:induction false} SortPermutes(cs: seq<Candidate>)
    ensures multiset(SortByVrf(cs)) == multiset(cs)
  {
    if cs == [] {
    } else {
      SortPermutes(cs[1..]);
      PlacePermutes(cs[0], SortByVrf(cs[1..]));
      assert cs == [cs[0]] + cs[1..];
    }
  }

  /** Everything in the list is at or above `v`. */
  predicate AllAbove(v: Vrf, cs: seq<Candidate>) {
    forall i :: 0 <= i < |cs| ==> LexLe(v, cs[i].vrf)
  }

  lemma {:induction false} PlaceSorts(c: Candidate, sorted: seq<Candidate>, v: Vrf)
    requires Sorted(sorted)
    ensures Sorted(Place(c, sorted))
    ensures LexLe(v, c.vrf) && AllAbove(v, sorted) ==> AllAbove(v, Place(c, sorted))
  {
    if sorted == [] {
    } else if LexLe(c.vrf, sorted[0].vrf) {
      forall i | 0 <= i < |sorted| ensures LexLe(c.vrf, sorted[i].vrf) {
        if i > 0 { LexTransitive(c.vrf, sorted[0].vrf, sorted[i].vrf); }
      }
    } else {
      PlaceSorts(c, sorted[1..], v);
      PlaceSorts(c, sorted[1..], sorted[0].vrf);
      LexTotal(c.vrf, sorted[0].vrf);
    }
  }

  lemma {:induction false} SortSorts(cs: seq<Candidate>)
    ensures Sorted(SortByVrf(cs))
  {
    if cs == [] {
    } else {
      SortSorts(cs[1..]);
      PlaceSorts(cs[0], SortByVrf(cs[1..]), []);
    }
  }

  lemma {:induction false} EligibleMatches(cs: seq<Candidate>, req: Requirements)
    ensures forall c :: c in Eligible(cs, req) <==> c in cs && Matches(c.offer, req)
  {
    if cs == [] {
    } else {
      var n := |cs| - 1;
      EligibleMatches(cs[..n], req);
      assert cs == cs[..n] + [cs[n]];
    }
  }

  lemma {:induction false} EligibleCount(cs: seq<Candidate>, req: Requirements, c: Candidate)
    ensures multiset(Eligible(cs, req))[c] == if Matches(c.offer, req) then multiset(cs)[c] else 0
  {
    if cs == [] {
    } else {
      var n := |cs| - 1;
      EligibleCount(cs[..n], req, c);
      assert cs == cs[..n] + [cs[n]];
    }
  }

  /**
   * No committee exactly when too few candidates match. Otherwise exactly `size` matching
   * candidates, taken from the list with their multiplicities, and none beaten by one left out.
   */
  lemma ChosenIsBest(cs: seq<Candidate>, req: Requirements, size: nat)
    ensures Chosen(cs, req, size).None? <==> |Eligible(cs, req)| < size
    ensures Chosen(cs, req, size).Some? ==>
            var chosen := Chosen(cs, req, size).value;
            |chosen| == size &&
            (forall c :: c in chosen ==> c in cs && Matches(c.offer, req)) &&
            multiset(chosen) <= multiset(Eligible(cs, req)) &&
            (forall c, u :: c in chosen && u in multiset(Eligible(cs, req)) - multiset(chosen) ==> LexLe(c.vrf, u.vrf))
  {
    hide Eligible, SortByVrf, Sorted, LexLe, Matches;
    var eligible := Eligible(cs, req);
    var sorted := SortByVrf(eligible);
    SortPermutes(eligible);
    SortSorts(eligible);
    EligibleMatches(cs, req);
    SameLength(sorted, eligible);
    if |eligible| >= size {
      PrefixIsBest(sorted, size);
      SameMembers(sorted, eligible);
    }
  }

  /** The candidates with at least the cores, memory and runtimes asked for, on the platform asked for. */
  function AbleAt(cs: seq<Candidate>, req: Requirements): (r: set<nat>)
    ensures forall i :: i in r ==> i < |cs|
  {
    set i: nat | i < |cs| && cs[i].offer.cpu >= req.cpu && cs[i].offer.memoryMb >= req.memoryMb &&
                 cs[i].offer.platform == req.platform &&
                 forall t :: t in req.runtimes ==> t in cs[i].offer.runtimes
  }

  lemma AbleSnoc(cs: seq<Candidate>, c: Candidate, req: Requirements)
    ensures AbleAt(cs + [c], req) == AbleAt(cs, req) + (if Matches(c.offer, req) then {|cs|} else {})
    ensures |cs| !in AbleAt(cs, req)
  {
    var n := |cs|;
    assert n in AbleAt(cs + [c], req) <==> Matches(c.offer, req);
    forall i: nat | i < n ensures i in AbleAt(cs + [c], req) <==> i in AbleAt(cs, req) {
      assert (cs + [c])[i] == cs[i];
    }
  }

  lemma {:induction false} EligibleSize(cs: seq<Candidate>, req: Requirements)
    ensures |Eligible(cs, req)| == |AbleAt(cs, req)|
  {
    hide Matches;
    if cs == [] {
      assert AbleAt(cs, req) == {};
    } else {
      hide AbleAt;
      var n := |cs| - 1;
      EligibleSize(cs[..n], req);
      AbleSnoc(cs[..n], cs[n], req);
      assert cs == cs[..n] + [cs[n]];
    }
  }

  /**
   * The same from the offers alone: a committee exists exactly when `size` candidates are able; each
   * member is, and none left out that is able has an output below a member's at their first difference.
   */
  lemma ChosenAreAble(cs: seq<Candidate>, req: Requirements, size: nat)
    ensures Chosen(cs, req, size).Some? <==> size <= |AbleAt(cs, req)|
    ensures Chosen(cs, req, size).Some? ==>
            var chosen := Chosen(cs, req, size).value;
            |chosen| == size && multiset(chosen) <= multiset(cs) &&
            (forall c :: c in chosen ==> exists i :: i in AbleAt(cs, req) && cs[i] == c) &&
            (forall i, c, k :: i in AbleAt(cs, req) && cs[i] !in chosen && c in chosen ==> !LowerAt(cs[i].vrf, c.vrf, k))
  {
    hide Eligible, SortByVrf, Chosen, LexLe, LowerAt, AbleAt, Matches;
    ChosenIsBest(cs, req, size);
    EligibleSize(cs, req);
    if Chosen(cs, req, size).Some? {
      var chosen := Chosen(cs, req, size).value;
      EligibleWithin(cs, req);
      forall c | c in chosen ensures exists i :: i in AbleAt(cs, req) && cs[i] == c {
        AbleIndex(cs, req, c);
      }
      forall i, c, k | i in AbleAt(cs, req) && cs[i] !in chosen && c in chosen ensures !LowerAt(cs[i].vrf, c.vrf, k) {
        LeftOut(cs, req, chosen, i);
        NotLower(c.vrf, cs[i].vrf, k);
      }
    }
  }

  lemma EligibleWithin(cs: seq<Candidate>, req: Requirements)
    ensures multiset(Eligible(cs, req)) <= multiset(cs)
  {
    hide Eligible, Matches;
    forall c ensures multiset(Eligible(cs, req))[c] <= multiset(cs)[c] {
      EligibleCount(cs, req, c);
    }
  }

  lemma AbleIndex(cs: seq<Candidate>, req: Requirements, c: Candidate)
    requires c in cs && Matches(c.offer, req)
    ensures exists i :: i in AbleAt(cs, req) && cs[i] == c
  {
    var i :| 0 <= i < |cs| && cs[i] == c;
    assert i in AbleAt(cs, req);
  }

  lemma LeftOut(cs: seq<Candidate>, req: Requirements, chosen: seq<Candidate>, i: nat)
    requires i in AbleAt(cs, req) && cs[i] !in chosen
    ensures cs[i] in multiset(Eligible(cs, req)) - multiset(chosen)
  {
    assert Matches(cs[i].offer, req);
    hide Eligible, Matches;
    EligibleMatches(cs, req);
    assert cs[i] in multiset(Eligible(cs, req)) && cs[i] !in multiset(chosen);
  }

  lemma NotLower(a: Vrf, b: Vrf, k: nat)
    requires LexLe(a, b)
    ensures !LowerAt(b, a, k)
  {
    LexIff(a, b);
    if !(a <= b) {
      var m: nat :| LowerAt(a, b, m);
      if k < m {
        assert a[..m][k] == a[k] && b[..m][k] == b[k];
      } else if m < k <= |a| && k <= |b| {
        assert a[..k][m] == a[m] && b[..k][m] == b[m];
      }
    }
  }

  lemma SameLength(a: seq<Candidate>, b: seq<Candidate>)
    requires multiset(a) == multiset(b)
    ensures |a| == |b|
  {
    assert |multiset(a)| == |a| && |multiset(b)| == |b|;
  }

  lemma SameMembers(a: seq<Candidate>, b: seq<Candidate>)
    requires multiset(a) == multiset(b)
    ensures forall c :: c in a <==> c in b
  {
    forall c ensures c in a <==> c in b {
      assert c in a <==> c in multiset(a);
    }
  }

  /** A list cut in two, seen as multisets. */
  lemma CutMultisets(cs: seq<Candidate>, n: nat)
    requires n <= |cs|
    ensures multiset(cs) == multiset(cs[..n]) + multiset(cs[n..])
    ensures forall c :: c in cs[..n] ==> c in cs
  {
    assert cs == cs[..n] + cs[n..];
  }

  lemma FrontBelowBack(sorted: seq<Candidate>, n: nat, c: Candidate, u: Candidate)
    requires Sorted(sorted) && n <= |sorted| && c in sorted[..n] && u in sorted[n..]
    ensures LexLe(c.vrf, u.vrf)
  {
    hide LexLe;
    var i :| 0 <= i < n && sorted[i] == c;
    var j :| 0 <= j < |sorted| - n && sorted[n..][j] == u;
    assert sorted[n + j] == u;
  }

  lemma PrefixIsBest(sorted: seq<Candidate>, size: nat)
    requires Sorted(sorted) && size <= |sorted|
    ensures multiset(sorted[..size]) <= multiset(sorted)
    ensures forall c :: c in sorted[..size] ==> c in sorted
    ensures forall c, u :: c in sorted[..size] && u in multiset(sorted) - multiset(sorted[..size]) ==>
              LexLe(c.vrf, u.vrf)
  {
    hide LexLe, Sorted;
    var chosen, left := sorted[..size], sorted[size..];
    CutMultisets(sorted, size);
    forall c, u | c in chosen && u in multiset(sorted) - multiset(chosen) ensures LexLe(c.vrf, u.vrf) {
      assert u in multiset(left);
      FrontBelowBack(sorted, size, c, u);
    }
  }

  /** No two candidates share a VRF output. */
  predicate DistinctVrf(cs: seq<Candidate>) {
    forall i, j :: 0 <= i < j < |cs| ==> cs[i].vrf != cs[j].vrf
  }

  lemma SortedTail(a: seq<Candidate>)
    requires a != [] && Sorted(a)
    ensures Sorted(a[1..]) && a == [a[0]] + a[1..]
    ensures multiset(a[1..]) == multiset(a) - multiset{a[0]}
    ensures forall c :: c in a[1..] ==> c in a
  {
    assert a == [a[0]] + a[1..];
  }

  // ---------------------------------------------------------------------
  // Counting who is strictly below an output

  predicate LexLt(a: Vrf, b: Vrf) {
    LexLe(a, b) && a != b
  }

  function CountBelow(cs: seq<Candidate>, v: Vrf): nat {
    if cs == [] then 0 else (if LexLt(cs[0].vrf, v) then 1 else 0) + CountBelow(cs[1..], v)
  }

  lemma {:induction false} CountConcat(a: seq<Candidate>, b: seq<Candidate>, v: Vrf)
    ensures CountBelow(a + b, v) == CountBelow(a, v) + CountBelow(b, v)
  {
    if a == [] {
      assert a + b == b;
    } else {
      hide LexLt;
      CountConcat(a[1..], b, v);
      assert (a + b)[1..] == a[1..] + b;
    }
  }

  lemma CountOne(c: Candidate, v: Vrf)
    ensures CountBelow([c], v) == if LexLt(c.vrf, v) then 1 else 0
  {
    assert [c][1..] == [];
  }

  lemma RemoveOne(rest: seq<Candidate>, c: Candidate, front: seq<Candidate>, back: seq<Candidate>)
    requires multiset([c] + rest) == multiset(front + ([c] + back))
    ensures multiset(rest) == multiset(front + back)
  {
    assert multiset(rest) == multiset([c] + rest) - multiset{c};
    assert multiset(front + back) == multiset(front + ([c] + back)) - multiset{c};
  }

  lemma {:induction false} CountPermuted(a: seq<Candidate>, b: seq<Candidate>, v: Vrf)
    requires multiset(a) == multiset(b)
    ensures CountBelow(a, v) == CountBelow(b, v)
  {
    hide LexLt;
    if a == [] {
      SameLength(a, b);
    } else {
      SameMembers(a, b);
      assert a[0] in a && a == [a[0]] + a[1..];
      var i :| 0 <= i < |b| && b[i] == a[0];
      var front, back := b[..i], b[i + 1..];
      assert b == front + ([a[0]] + back);
      RemoveOne(a[1..], a[0], front, back);
      CountPermuted(a[1..], front + back, v);
      CountConcat(front, [a[0]] + back, v);
      CountConcat([a[0]], back, v);
      CountConcat(front, back, v);
      CountOne(a[0], v);
    }
  }

  lemma {:induction false} NoneBelow(cs: seq<Candidate>, v: Vrf)
    requires AllAbove(v, cs)
    ensures CountBelow(cs, v) == 0
  {
    if cs == [] {
    } else {
      LexTotal(cs[0].vrf, v);
      NoneBelow(cs[1..], v);
    }
  }

  /** In a sorted list those strictly below an output come first. */
  lemma {:induction false} SortedCount(sorted: seq<Candidate>, v: Vrf, i: nat)
    requires Sorted(sorted) && i < |sorted|
    ensures LexLt(sorted[i].vrf, v) <==> i < CountBelow(sorted, v)
  {
    var first := sorted[0].vrf;
    if LexLt(first, v) {
      if i == 0 {
      } else {
        SortedTail(sorted);
        SortedCount(sorted[1..], v, i - 1);
      }
    } else {
      LexTotal(first, v);
      forall j | 0 <= j < |sorted| ensures LexLe(v, sorted[j].vrf) {
        if j > 0 {
          LexTransitive(v, first, sorted[j].vrf);
        }
      }
      NoneBelow(sorted, v);
      LexTotal(sorted[i].vrf, v);
    }
  }

  /** Two sorted permutations have the same output at every index. */
  lemma SortedOutputs(a: seq<Candidate>, b: seq<Candidate>, i: nat)
    requires Sorted(a) && Sorted(b) && multiset(a) == multiset(b) && i < |a| && i < |b|
    ensures a[i].vrf == b[i].vrf
  {
    var v, w := a[i].vrf, b[i].vrf;
    hide LexLe, Sorted, CountBelow;
    CountPermuted(a, b, v);
    CountPermuted(a, b, w);
    SortedCount(a, v, i);
    SortedCount(a, w, i);
    SortedCount(b, v, i);
    SortedCount(b, w, i);
    LexTotal(v, w);
  }

  lemma PermutedEligible(a: seq<Candidate>, b: seq<Candidate>, req: Requirements)
    requires multiset(a) == multiset(b)
    ensures multiset(Eligible(a, req)) == multiset(Eligible(b, req))
  {
    forall c ensures multiset(Eligible(a, req))[c] == multiset(Eligible(b, req))[c] {
      EligibleCount(a, req, c);
      EligibleCount(b, req, c);
    }
  }

  function Committee(cs: seq<Candidate>, req: Requirements, size: nat): Option<seq<u64>> {
    match Chosen(cs, req, size)
    case None => None
    case Some(chosen) => Some(Ids(chosen))
  }

  /** Every ordering of the candidates gives the same committee. */
  ghost predicate OrderFree(cs: seq<Candidate>, req: Requirements, size: nat) {
    forall other :: multiset(other) == multiset(cs) ==> Committee(other, req, size) == Committee(cs, req, size)
  }

  /** Two eligible candidates of one output and different identifiers have a full committee strictly below them. */
  predicate TiesAreOut(cs: seq<Candidate>, req: Requirements, size: nat) {
    var eligible := Eligible(cs, req);
    forall c, d :: c in eligible && d in eligible && c.vrf == d.vrf && c.id != d.id ==>
      CountBelow(eligible, c.vrf) >= size
  }

  lemma SortedAlike(a: seq<Candidate>, b: seq<Candidate>, req: Requirements)
    requires multiset(a) == multiset(b)
    ensures var sa, sb := SortByVrf(Eligible(a, req)), SortByVrf(Eligible(b, req));
            Sorted(sa) && Sorted(sb) && multiset(sa) == multiset(sb) &&
            |sa| == |sb| == |Eligible(a, req)| == |Eligible(b, req)|
  {
    hide Eligible, SortByVrf, Sorted;
    var ea, eb := Eligible(a, req), Eligible(b, req);
    PermutedEligible(a, b, req);
    SortPermutes(ea);
    SortPermutes(eb);
    SortSorts(ea);
    SortSorts(eb);
    SameLength(SortByVrf(ea), ea);
    SameLength(SortByVrf(eb), eb);
    SameLength(ea, eb);
  }

  /** At an index within the committee, two sorted permutations name the same runner. */
  lemma SameIdAt(cs: seq<Candidate>, req: Requirements, size: nat, a: seq<Candidate>, b: seq<Candidate>, i: nat)
    requires TiesAreOut(cs, req, size) && Sorted(a) && Sorted(b) && i < size && i < |a| && i < |b|
    requires multiset(a) == multiset(Eligible(cs, req)) == multiset(b)
    ensures a[i].id == b[i].id
  {
    hide LexLe, Sorted, CountBelow, Eligible;
    var eligible := Eligible(cs, req);
    SortedOutputs(a, b, i);
    SortedCount(a, a[i].vrf, i);
    CountPermuted(a, eligible, a[i].vrf);
    SameMembers(a, eligible);
    SameMembers(b, eligible);
    assert a[i] in a && b[i] in b;
  }

  lemma TiesOutIsOrderFree(cs: seq<Candidate>, other: seq<Candidate>, req: Requirements, size: nat)
    requires TiesAreOut(cs, req, size) && multiset(other) == multiset(cs)
    ensures Committee(other, req, size) == Committee(cs, req, size)
  {
    hide Eligible, SortByVrf, Sorted, TiesAreOut;
    SortedAlike(cs, other, req);
    if |Eligible(cs, req)| >= size {
      var a, b := SortByVrf(Eligible(cs, req)), SortByVrf(Eligible(other, req));
      SortPermutes(Eligible(cs, req));
      forall i | 0 <= i < size ensures a[i].id == b[i].id {
        SameIdAt(cs, req, size, a, b, i);
      }
      assert Ids(a[..size]) == Ids(b[..size]);
    }
  }

  function Rejected(cs: seq<Candidate>, req: Requirements): seq<Candidate> {
    if cs == [] then []
    else Rejected(cs[..|cs| - 1], req) + (if Matches(cs[|cs| - 1].offer, req) then [] else [cs[|cs| - 1]])
  }

  lemma RejectedSnoc(cs: seq<Candidate>, c: Candidate, req: Requirements)
    ensures Rejected(cs + [c], req) == Rejected(cs, req) + (if Matches(c.offer, req) then [] else [c])
  {
    assert (cs + [c])[..|cs|] == cs;
  }

  lemma EligibleSnoc(cs: seq<Candidate>, c: Candidate, req: Requirements)
    ensures Eligible(cs + [c], req) == Eligible(cs, req) + (if Matches(c.offer, req) then [c] else [])
  {
    assert (cs + [c])[..|cs|] == cs;
  }

  lemma {:induction false} RejectedSplits(cs: seq<Candidate>, req: Requirements)
    ensures multiset(Eligible(cs, req)) + multiset(Rejected(cs, req)) == multiset(cs)
    ensures Eligible(Rejected(cs, req), req) == []
  {
    if cs == [] {
    } else {
      var front, c := cs[..|cs| - 1], cs[|cs| - 1];
      assert cs == front + [c];
      hide Matches, Eligible, Rejected;
      RejectedSplits(front, req);
      EligibleSnoc(front, c, req);
      RejectedSnoc(front, c, req);
      if Matches(c.offer, req) {
        assert Rejected(cs, req) == Rejected(front, req);
      } else {
        EligibleSnoc(Rejected(front, req), c, req);
        assert Eligible(cs, req) == Eligible(front, req);
      }
    }
  }

  lemma {:induction false} EligibleConcat(a: seq<Candidate>, b: seq<Candidate>, req: Requirements)
    ensures Eligible(a + b, req) == Eligible(a, req) + Eligible(b, req)
  {
    if b == [] {
      assert a + b == a;
    } else {
      var front, c := b[..|b| - 1], b[|b| - 1];
      assert b == front + [c] && a + b == (a + front) + [c];
      hide Eligible, Matches;
      EligibleConcat(a, front, req);
      EligibleSnoc(a + front, c, req);
      EligibleSnoc(front, c, req);
    }
  }

  lemma {:induction false} AllEligible(cs: seq<Candidate>, req: Requirements)
    requires forall i :: 0 <= i < |cs| ==> Matches(cs[i].offer, req)
    ensures Eligible(cs, req) == cs
  {
    if cs == [] {
    } else {
      AllEligible(cs[..|cs| - 1], req);
    }
  }

  /** The sort leaves a sorted list alone. */
  lemma {:induction false} SortOfSorted(sorted: seq<Candidate>)
    requires Sorted(sorted)
    ensures SortByVrf(sorted) == sorted
  {
    if sorted == [] {
    } else {
      SortedTail(sorted);
      SortOfSorted(sorted[1..]);
    }
  }

  function Swapped(s: seq<Candidate>, i: nat, j: nat): (r: seq<Candidate>)
    requires i < |s| && j < |s|
    ensures |r| == |s|
  {
    s[i := s[j]][j := s[i]]
  }

  /** Swapping two that tie keeps a list sorted. */
  lemma SwapTied(sorted: seq<Candidate>, i: nat, j: nat)
    requires Sorted(sorted) && i < j < |sorted| && sorted[i].vrf == sorted[j].vrf
    ensures Sorted(Swapped(sorted, i, j)) && multiset(Swapped(sorted, i, j)) == multiset(sorted)
  {
    hide LexLe;
    var s := Swapped(sorted, i, j);
    forall x, y | 0 <= x < y < |s| ensures LexLe(s[x].vrf, s[y].vrf) {
      assert s[x].vrf == sorted[x].vrf && s[y].vrf == sorted[y].vrf;
    }
  }

  /** The eligible candidates in any order, with the rejected ones behind, are a list with that choice. */
  lemma Arranged(cs: seq<Candidate>, req: Requirements, s: seq<Candidate>)
    requires Sorted(s) && multiset(s) == multiset(Eligible(cs, req))
    ensures var other := s + Rejected(cs, req);
            multiset(other) == multiset(cs) && SortByVrf(Eligible(other, req)) == s
  {
    hide Eligible, SortByVrf, Sorted, Matches, Rejected;
    RejectedSplits(cs, req);
    EligibleMatches(cs, req);
    SameMembers(s, Eligible(cs, req));
    forall i | 0 <= i < |s| ensures Matches(s[i].offer, req) {
      assert s[i] in s;
    }
    AllEligible(s, req);
    EligibleConcat(s, Rejected(cs, req), req);
    assert s + [] == s;
    SortOfSorted(s);
  }

  /** A tied candidate stands at or after the first place of its output, which the output fills. */
  lemma FirstOfOutput(sorted: seq<Candidate>, x: Candidate) returns (j: nat)
    requires Sorted(sorted) && x in sorted
    ensures CountBelow(sorted, x.vrf) <= j < |sorted| && sorted[j] == x
    ensures sorted[CountBelow(sorted, x.vrf)].vrf == x.vrf
  {
    j :| 0 <= j < |sorted| && sorted[j] == x;
    var k := CountBelow(sorted, x.vrf);
    SortedCount(sorted, x.vrf, j);
    SortedCount(sorted, x.vrf, k);
    hide CountBelow;
    if k < j {
      assert LexLe(sorted[k].vrf, sorted[j].vrf);
    }
  }

  lemma TieBreaksOrder(cs: seq<Candidate>, req: Requirements, size: nat)
    requires |Eligible(cs, req)| >= size && !TiesAreOut(cs, req, size)
    ensures !OrderFree(cs, req, size)
  {
    hide Eligible, LexLe, SortByVrf, Committee, Sorted, CountBelow;
    var eligible := Eligible(cs, req);
    var c, d :| c in eligible && d in eligible && c.vrf == d.vrf && c.id != d.id &&
                CountBelow(eligible, c.vrf) < size;
    hide TiesAreOut;
    var sorted := SortByVrf(eligible);
    SortedAlike(cs, cs, req);
    SortPermutes(eligible);
    SameMembers(sorted, eligible);
    CountPermuted(sorted, eligible, c.vrf);
    var k := CountBelow(sorted, c.vrf);
    var i := FirstOfOutput(sorted, c);
    var j := FirstOfOutput(sorted, d);
    if sorted[k].id != c.id {
      SwapChanges(cs, req, size, sorted, k, i);
    } else {
      SwapChanges(cs, req, size, sorted, k, j);
    }
  }

  /** Exchanging a chosen candidate with a later one of the same output gives another committee. */
  lemma SwapChanges(cs: seq<Candidate>, req: Requirements, size: nat, sorted: seq<Candidate>, k: nat, j: nat)
    requires sorted == SortByVrf(Eligible(cs, req)) && k < size <= |Eligible(cs, req)|
    requires k < j < |sorted| && sorted[k].vrf == sorted[j].vrf && sorted[k].id != sorted[j].id
    ensures !OrderFree(cs, req, size)
  {
    hide Eligible, LexLe, SortByVrf, Sorted, Chosen;
    SortedAlike(cs, cs, req);
    SortPermutes(Eligible(cs, req));
    SwapTied(sorted, k, j);
    var s := Swapped(sorted, k, j);
    Arranged(cs, req, s);
    var other := s + Rejected(cs, req);
    SortedAlike(cs, other, req);
    FirstOfSorted(cs, req, size);
    FirstOfSorted(other, req, size);
    assert Ids(s[..size])[k] != Ids(sorted[..size])[k];
    assert Committee(other, req, size) != Committee(cs, req, size);
  }

  lemma FirstOfSorted(cs: seq<Candidate>, req: Requirements, size: nat)
    requires size <= |Eligible(cs, req)| == |SortByVrf(Eligible(cs, req))|
    ensures Chosen(cs, req, size) == Some(SortByVrf(Eligible(cs, req))[..size])
  {
  }

  /**
   * The committee is the same for every ordering of the candidates if and only if there is none, or
   * any two eligible candidates tied under different identifiers have a full committee below them.
   */
  lemma OrderFreeIff(cs: seq<Candidate>, req: Requirements, size: nat)
    ensures OrderFree(cs, req, size) <==> |Eligible(cs, req)| < size || TiesAreOut(cs, req, size)
  {
    hide Committee, TiesAreOut, Eligible;
    if |Eligible(cs, req)| < size || TiesAreOut(cs, req, size) {
      forall other | multiset(other) == multiset(cs)
        ensures Committee(other, req, size) == Committee(cs, req, size)
      {
        if |Eligible(cs, req)| < size {
          NoCommittee(cs, other, req, size);
        } else {
          TiesOutIsOrderFree(cs, other, req, size);
        }
      }
    } else {
      TieBreaksOrder(cs, req, size);
    }
  }

  lemma NoCommittee(cs: seq<Candidate>, other: seq<Candidate>, req: Requirements, size: nat)
    requires multiset(other) == multiset(cs) && |Eligible(cs, req)| < size
    ensures Committee(other, req, size) == Committee(cs, req, size) == None
  {
    hide Eligible, SortByVrf;
    SortedAlike(cs, other, req);
  }

  /** With distinct VRF outputs every ordering of the candidates gives the same committee. */
  lemma OrderDoesNotMatter(cs: seq<Candidate>, req: Requirements, size: nat)
    requires DistinctVrf(cs)
    ensures OrderFree(cs, req, size)
  {
    hide Committee, Eligible, CountBelow;
    var eligible := Eligible(cs, req);
    EligibleMatches(cs, req);
    forall c, d | c in eligible && d in eligible && c.vrf == d.vrf ensures c.id == d.id {
      SameVrf(cs, c, d);
    }
    OrderFreeIff(cs, req, size);
  }

  lemma SameVrf(cs: seq<Candidate>, c: Candidate, d: Candidate)
    requires DistinctVrf(cs) && c in cs && d in cs && c.vrf == d.vrf
    ensures c == d
  {
    var i, j :| 0 <= i < |cs| && 0 <= j < |cs| && cs[i] == c && cs[j] == d;
    assert i == j;
  }

  /** A tie makes the committee depend on the order: the earlier of two equal candidates wins. */
  lemma TiesFollowOrder(a: Candidate, b: Candidate, req: Requirements)
    requires Matches(a.offer, req) && Matches(b.offer, req) && a.vrf == b.vrf
    ensures Chosen([a, b], req, 1) == Some([a]) && Chosen([b, a], req, 1) == Some([b])
  {
    LexTotal(a.vrf, b.vrf);
    TwoEligible(a, b, req);
    TwoEligible(b, a, req);
    TwoSorted(a, b);
    TwoSorted(b, a);
  }

  lemma TwoEligible(a: Candidate, b: Candidate, req: Requirements)
    requires Matches(a.offer, req) && Matches(b.offer, req)
    ensures Eligible([a, b], req) == [a, b]
  {
    assert Eligible([a], req) == [a] by {
      assert [a][..0] == [];
    }
    assert [a, b][..1] == [a];
  }

  lemma TwoSorted(a: Candidate, b: Candidate)
    requires LexLe(a.vrf, b.vrf)
    ensures SortByVrf([a, b]) == [a, b]
  {
    assert SortByVrf([b]) == [b] by {
      assert [b][1..] == [];
    }
    assert [a, b][1..] == [b];
  }
}
