/**
 * The grouping pass of the `find-duplicates` handler in main.js, as a pure
 * function over the fingerprinted records. Records are referred to by their
 * index in the list. The outer loop visits each index `i` in turn; an index
 * already placed in a group is skipped. Otherwise `i` becomes a seed, and
 * every later free index whose record matches the seed joins its group.
 * A match means an equal content hash, or perceptual hashes within the
 * threshold. A group is reported only when something joined the seed.
 * Matching is always against the seed, never against the other members.
 */
module Cluster {
  import Hamming
  import Seqs
  import opened Records

  /** Whether `candidate` joins the group seeded by `seed`. */
  predicate Matches(seed: ImageRecord, candidate: ImageRecord, threshold: int) {
    seed.fileHash == candidate.fileHash
    || 0 <= Hamming.Distance(seed.pHash, candidate.pHash) <= threshold
  }

  /** With threshold 0 only equal content hashes or equal perceptual hashes
      match. */
  lemma MatchesAtZero(seed: ImageRecord, candidate: ImageRecord)
    ensures Matches(seed, candidate, 0) <==>
      seed.fileHash == candidate.fileHash || seed.pHash == candidate.pHash
  {
    Hamming.DistanceZeroIff(seed.pHash, candidate.pHash);
  }

  /** The inner loop from index `j` on: the free indices that match the
      seed, in increasing order. */
  function Scan(recs: seq<ImageRecord>, threshold: int, seed: nat, j: nat, placed: set<nat>)
    : (members: seq<nat>)
    requires seed < |recs| && j <= |recs|
    ensures |members| <= |recs| - j
    decreases |recs| - j
  {
    if j == |recs| then []
    else if j !in placed && Matches(recs[seed], recs[j], threshold) then
      [j] + Scan(recs, threshold, seed, j + 1, placed)
    else
      Scan(recs, threshold, seed, j + 1, placed)
  }

  lemma {:induction false} ScanMembers(recs: seq<ImageRecord>, threshold: int, seed: nat, j: nat,
                                       placed: set<nat>, x: nat)
    requires seed < |recs| && j <= |recs|
    ensures x in Scan(recs, threshold, seed, j, placed) <==>
      j <= x < |recs| && x !in placed && Matches(recs[seed], recs[x], threshold)
    decreases |recs| - j
  {
    if j < |recs| {
      ScanMembers(recs, threshold, seed, j + 1, placed, x);
    }
  }

  predicate Increasing(s: seq<nat>) {
    forall p, q :: 0 <= p < q < |s| ==> s[p] < s[q]
  }

  lemma IncreasingCons(head: nat, tail: seq<nat>)
    requires Increasing(tail)
    requires forall k :: 0 <= k < |tail| ==> head < tail[k]
    ensures Increasing([head] + tail)
  {
    forall p, q | 0 <= p < q < |[head] + tail|
      ensures ([head] + tail)[p] < ([head] + tail)[q]
    {
      if p > 0 {
        assert ([head] + tail)[p] == tail[p - 1];
      }
      assert ([head] + tail)[q] == tail[q - 1];
    }
  }

  lemma {:induction false} ScanIncreasing(recs: seq<ImageRecord>, threshold: int, seed: nat, j: nat,
                                          placed: set<nat>)
    requires seed < |recs| && j <= |recs|
    ensures Increasing(Scan(recs, threshold, seed, j, placed))
    decreases |recs| - j
  {
    if j < |recs| {
      var rest := Scan(recs, threshold, seed, j + 1, placed);
      ScanIncreasing(recs, threshold, seed, j + 1, placed);
      if j !in placed && Matches(recs[seed], recs[j], threshold) {
        forall k | 0 <= k < |rest|
          ensures j < rest[k]
        {
          ScanMembers(recs, threshold, seed, j + 1, placed, rest[k]);
        }
        IncreasingCons(j, rest);
      }
    }
  }

  function ElemSet(s: seq<nat>): set<nat> {
    set x | x in s
  }

  /** The outer loop from index `i` on, given the indices already placed:
      the groups it reports, as index lists whose head is the seed. The seed
      and its members are marked placed before the loop moves on, whether
      or not the group is reported. */
  function ClusterFrom(recs: seq<ImageRecord>, threshold: int, i: nat, placed: set<nat>)
    : (groups: seq<seq<nat>>)
    requires i <= |recs|
    ensures |groups| <= |recs| - i
    decreases |recs| - i
  {
    if i == |recs| then []
    else if i in placed then ClusterFrom(recs, threshold, i + 1, placed)
    else
      var members := Scan(recs, threshold, i, i + 1, placed);
      var group := [i] + members;
      var rest := ClusterFrom(recs, threshold, i + 1, placed + {i} + ElemSet(members));
      if |group| > 1 then [group] + rest else rest
  }

  /** The groups of the whole list. */
  function Clusters(recs: seq<ImageRecord>, threshold: int): seq<seq<nat>> {
    ClusterFrom(recs, threshold, 0, {})
  }

  /** What every reported group looks like: a seed at least `lo` followed by
      at least one member, all free and in range, in increasing order, each
      member matching the seed. */
  predicate GroupOf(recs: seq<ImageRecord>, threshold: int, g: seq<nat>, lo: nat, placed: set<nat>) {
    && |g| >= 2
    && Increasing(g)
    && (forall k :: 0 <= k < |g| ==> lo <= g[k] < |recs| && g[k] !in placed)
    && (forall k :: 1 <= k < |g| ==> Matches(recs[g[0]], recs[g[k]], threshold))
  }

  /** The members the inner loop collects for a free seed: later, free and
      matching the seed, in increasing order. */
  lemma SeedMembers(recs: seq<ImageRecord>, threshold: int, i: nat, placed: set<nat>)
    requires i < |recs|
    ensures var members := Scan(recs, threshold, i, i + 1, placed);
      && Increasing(members)
      && (forall k :: 0 <= k < |members| ==> i < members[k] < |recs| && members[k] !in placed)
      && (forall k :: 0 <= k < |members| ==> Matches(recs[i], recs[members[k]], threshold))
  {
    var members := Scan(recs, threshold, i, i + 1, placed);
    forall k | 0 <= k < |members|
      ensures i < members[k] < |recs| && members[k] !in placed
      ensures Matches(recs[i], recs[members[k]], threshold)
    {
      ScanMembers(recs, threshold, i, i + 1, placed, members[k]);
    }
    ScanIncreasing(recs, threshold, i, i + 1, placed);
  }

  /** A seed followed by such members is a group. */
  lemma GroupCons(recs: seq<ImageRecord>, threshold: int, i: nat, placed: set<nat>, members: seq<nat>)
    requires i < |recs| && i !in placed && members != []
    requires Increasing(members)
    requires forall k :: 0 <= k < |members| ==> i < members[k] < |recs| && members[k] !in placed
    requires forall k :: 0 <= k < |members| ==> Matches(recs[i], recs[members[k]], threshold)
    ensures GroupOf(recs, threshold, [i] + members, i, placed)
  {
    var g := [i] + members;
    IncreasingCons(i, members);
    forall k | 1 <= k < |g|
      ensures i <= g[k] < |recs| && g[k] !in placed
      ensures Matches(recs[g[0]], recs[g[k]], threshold)
    {
      assert g[k] == members[k - 1];
    }
  }

  lemma SeedGroup(recs: seq<ImageRecord>, threshold: int, i: nat, placed: set<nat>)
    requires i < |recs| && i !in placed
    requires Scan(recs, threshold, i, i + 1, placed) != []
    ensures GroupOf(recs, threshold, [i] + Scan(recs, threshold, i, i + 1, placed), i, placed)
  {
    SeedMembers(recs, threshold, i, placed);
    GroupCons(recs, threshold, i, placed, Scan(recs, threshold, i, i + 1, placed));
  }

  lemma {:induction false} ClusterFromShape(recs: seq<ImageRecord>, threshold: int, i: nat,
                                            placed: set<nat>, p: nat)
    requires i <= |recs| && p < |ClusterFrom(recs, threshold, i, placed)|
    ensures GroupOf(recs, threshold, ClusterFrom(recs, threshold, i, placed)[p], i, placed)
    decreases |recs| - i
  {
    if i in placed {
      ClusterFromShape(recs, threshold, i + 1, placed, p);
    } else {
      var members := Scan(recs, threshold, i, i + 1, placed);
      var next := placed + {i} + ElemSet(members);
      var rest := ClusterFrom(recs, threshold, i + 1, next);
      if members != [] && p == 0 {
        SeedGroup(recs, threshold, i, placed);
      } else {
        var p' := if members != [] then p - 1 else p;
        assert ClusterFrom(recs, threshold, i, placed)[p] == rest[p'];
        ClusterFromShape(recs, threshold, i + 1, next, p');
      }
    }
  }

  /** Where a reported group's seed lies, without the rest of its shape. */
  lemma SeedBound(recs: seq<ImageRecord>, threshold: int, i: nat, placed: set<nat>, p: nat)
    requires i <= |recs| && p < |ClusterFrom(recs, threshold, i, placed)|
    ensures |ClusterFrom(recs, threshold, i, placed)[p]| >= 2
    ensures i <= ClusterFrom(recs, threshold, i, placed)[p][0] < |recs|
  {
    ClusterFromShape(recs, threshold, i, placed, p);
  }

  /** Where the elements of a reported group lie, without the rest of its
      shape. */
  lemma ElementsBound(recs: seq<ImageRecord>, threshold: int, i: nat, placed: set<nat>, p: nat, x: nat)
    requires i <= |recs| && p < |ClusterFrom(recs, threshold, i, placed)|
    requires x in ClusterFrom(recs, threshold, i, placed)[p]
    ensures i <= x < |recs| && x !in placed
  {
    ClusterFromShape(recs, threshold, i, placed, p);
  }

  /** Every reported group has a seed and at least one member, all distinct
      and in increasing order, and every member matches the seed. */
  lemma ClustersAreGroups(recs: seq<ImageRecord>, threshold: int)
    ensures forall p :: 0 <= p < |Clusters(recs, threshold)| ==>
      GroupOf(recs, threshold, Clusters(recs, threshold)[p], 0, {})
  {
    forall p | 0 <= p < |Clusters(recs, threshold)|
      ensures GroupOf(recs, threshold, Clusters(recs, threshold)[p], 0, {})
    {
      ClusterFromShape(recs, threshold, 0, {}, p);
    }
  }

  /** One step of the outer loop at a free index: the group it may report,
      followed by the loop from the next index with the seed and members
      placed. */
  lemma FreeStep(recs: seq<ImageRecord>, threshold: int, i: nat, placed: set<nat>,
                 members: seq<nat>, rest: seq<seq<nat>>)
    requires i < |recs| && i !in placed
    requires members == Scan(recs, threshold, i, i + 1, placed)
    requires rest == ClusterFrom(recs, threshold, i + 1, placed + {i} + ElemSet(members))
    ensures members == [] ==> ClusterFrom(recs, threshold, i, placed) == rest
    ensures members != [] ==> ClusterFrom(recs, threshold, i, placed) == [[i] + members] + rest
  {
  }

  lemma {:induction false} ClusterFromDisjoint(recs: seq<ImageRecord>, threshold: int, i: nat,
                                               placed: set<nat>, p: nat, q: nat, x: nat)
    requires i <= |recs| && p < q < |ClusterFrom(recs, threshold, i, placed)|
    ensures !(x in ClusterFrom(recs, threshold, i, placed)[p] && x in ClusterFrom(recs, threshold, i, placed)[q])
    decreases |recs| - i
  {
    if i in placed {
      ClusterFromDisjoint(recs, threshold, i + 1, placed, p, q, x);
    } else {
      var members := Scan(recs, threshold, i, i + 1, placed);
      var next := placed + {i} + ElemSet(members);
      var rest := ClusterFrom(recs, threshold, i + 1, next);
      FreeStep(recs, threshold, i, placed, members, rest);
      if members == [] {
        ClusterFromDisjoint(recs, threshold, i + 1, next, p, q, x);
      } else if p == 0 {
        if x in rest[q - 1] {
          ElementsBound(recs, threshold, i + 1, next, q - 1, x);
        }
      } else {
        ClusterFromDisjoint(recs, threshold, i + 1, next, p - 1, q - 1, x);
      }
    }
  }

  /** No index is reported in two groups. */
  lemma ClustersDisjoint(recs: seq<ImageRecord>, threshold: int, p: nat, q: nat)
    requires p < q < |Clusters(recs, threshold)|
    ensures forall x :: x in Clusters(recs, threshold)[p] ==> x !in Clusters(recs, threshold)[q]
  {
    forall x | x in Clusters(recs, threshold)[p]
      ensures x !in Clusters(recs, threshold)[q]
    {
      ClusterFromDisjoint(recs, threshold, 0, {}, p, q, x);
    }
  }

  lemma {:induction false} ClusterFromOrdered(recs: seq<ImageRecord>, threshold: int, i: nat,
                                              placed: set<nat>, p: nat, q: nat)
    requires i <= |recs| && p < q < |ClusterFrom(recs, threshold, i, placed)|
    requires |ClusterFrom(recs, threshold, i, placed)[p]| > 0
    requires |ClusterFrom(recs, threshold, i, placed)[q]| > 0
    ensures ClusterFrom(recs, threshold, i, placed)[p][0] < ClusterFrom(recs, threshold, i, placed)[q][0]
    decreases |recs| - i
  {
    if i in placed {
      ClusterFromOrdered(recs, threshold, i + 1, placed, p, q);
    } else {
      var members := Scan(recs, threshold, i, i + 1, placed);
      var next := placed + {i} + ElemSet(members);
      var rest := ClusterFrom(recs, threshold, i + 1, next);
      FreeStep(recs, threshold, i, placed, members, rest);
      if members == [] {
        ClusterFromOrdered(recs, threshold, i + 1, next, p, q);
      } else if p == 0 {
        SeedBound(recs, threshold, i + 1, next, q - 1);
      } else {
        ClusterFromOrdered(recs, threshold, i + 1, next, p - 1, q - 1);
      }
    }
  }

  /** Groups are reported in increasing order of their seeds. */
  lemma ClustersOrdered(recs: seq<ImageRecord>, threshold: int, p: nat, q: nat)
    requires p < q < |Clusters(recs, threshold)|
    ensures |Clusters(recs, threshold)[p]| >= 2 && |Clusters(recs, threshold)[q]| >= 2
    ensures Clusters(recs, threshold)[p][0] < Clusters(recs, threshold)[q][0]
  {
    SeedBound(recs, threshold, 0, {}, p);
    SeedBound(recs, threshold, 0, {}, q);
    ClusterFromOrdered(recs, threshold, 0, {}, p, q);
  }

  /** `j` is in one of the first `p + 1` groups. */
  predicate TakenBy(groups: seq<seq<nat>>, p: nat, j: nat) {
    exists q :: 0 <= q <= p && q < |groups| && j in groups[q]
  }

  lemma TakenByShift(group: seq<nat>, rest: seq<seq<nat>>, p: nat, j: nat)
    requires p > 0 && TakenBy(rest, p - 1, j)
    ensures TakenBy([group] + rest, p, j)
  {
    var q :| 0 <= q <= p - 1 && q < |rest| && j in rest[q];
    assert ([group] + rest)[q + 1] == rest[q];
  }

  lemma {:induction false} ClusterFromMaximal(recs: seq<ImageRecord>, threshold: int, i: nat,
                                              placed: set<nat>, p: nat, j: nat)
    requires i <= |recs| && p < |ClusterFrom(recs, threshold, i, placed)|
    requires |ClusterFrom(recs, threshold, i, placed)[p]| > 0
    requires ClusterFrom(recs, threshold, i, placed)[p][0] < j < |recs| && j !in placed
    requires Matches(recs[ClusterFrom(recs, threshold, i, placed)[p][0]], recs[j], threshold)
    ensures TakenBy(ClusterFrom(recs, threshold, i, placed), p, j)
    decreases |recs| - i
  {
    var groups := ClusterFrom(recs, threshold, i, placed);
    if i in placed {
      ClusterFromMaximal(recs, threshold, i + 1, placed, p, j);
    } else {
      var members := Scan(recs, threshold, i, i + 1, placed);
      var next := placed + {i} + ElemSet(members);
      var rest := ClusterFrom(recs, threshold, i + 1, next);
      FreeStep(recs, threshold, i, placed, members, rest);
      if members == [] {
        SeedBound(recs, threshold, i + 1, next, p);
        assert next == placed + {i};
        ClusterFromMaximal(recs, threshold, i + 1, next, p, j);
      } else if p == 0 || j in members {
        ScanMembers(recs, threshold, i, i + 1, placed, j);
        assert groups[0] == [i] + members;
        assert j in groups[0];
      } else {
        assert groups[p] == rest[p - 1];
        SeedBound(recs, threshold, i + 1, next, p - 1);
        assert j !in next;
        ClusterFromMaximal(recs, threshold, i + 1, next, p - 1, j);
        TakenByShift([i] + members, rest, p, j);
      }
    }
  }

  /** A reported group is as large as the greedy pass allows: every later
      index that matches its seed is in it, or in a group reported before
      it. */
  lemma ClustersMaximal(recs: seq<ImageRecord>, threshold: int, p: nat, j: nat)
    requires p < |Clusters(recs, threshold)| && |Clusters(recs, threshold)[p]| > 0
    requires Clusters(recs, threshold)[p][0] < j < |recs|
    requires Matches(recs[Clusters(recs, threshold)[p][0]], recs[j], threshold)
    ensures exists q :: 0 <= q <= p && j in Clusters(recs, threshold)[q]
  {
    ClusterFromMaximal(recs, threshold, 0, {}, p, j);
    var q :| 0 <= q <= p && q < |Clusters(recs, threshold)| && j in Clusters(recs, threshold)[q];
  }

  /** Either `x` is in some group, or `j` is in a group seeded before `x`. */
  predicate LonelyOrTaken(groups: seq<seq<nat>>, x: nat, j: nat) {
    (exists q :: 0 <= q < |groups| && x in groups[q])
    || (exists q :: 0 <= q < |groups| && |groups[q]| > 0 && j in groups[q] && groups[q][0] < x)
  }

  lemma {:induction false} ClusterFromLonely(recs: seq<ImageRecord>, threshold: int, i: nat,
                                             placed: set<nat>, x: nat, j: nat)
    requires i <= x < j < |recs| && x !in placed && j !in placed
    requires Matches(recs[x], recs[j], threshold)
    ensures LonelyOrTaken(ClusterFrom(recs, threshold, i, placed), x, j)
    decreases |recs| - i
  {
    var groups := ClusterFrom(recs, threshold, i, placed);
    if i in placed {
      ClusterFromLonely(recs, threshold, i + 1, placed, x, j);
    } else {
      var members := Scan(recs, threshold, i, i + 1, placed);
      var next := placed + {i} + ElemSet(members);
      var rest := ClusterFrom(recs, threshold, i + 1, next);
      FreeStep(recs, threshold, i, placed, members, rest);
      ScanMembers(recs, threshold, i, i + 1, placed, x);
      ScanMembers(recs, threshold, i, i + 1, placed, j);
      if i == x {
        assert x in groups[0];
      } else if x in members || j in members {
        assert groups[0] == [i] + members;
      } else {
        ClusterFromLonely(recs, threshold, i + 1, next, x, j);
        var shift := if members == [] then 0 else 1;
        assert forall q :: 0 <= q < |rest| ==> groups[q + shift] == rest[q];
      }
    }
  }

  /** An index in no group has no free match after it: every later index
      matching it was already taken by a group whose seed comes first. */
  lemma ClustersLonely(recs: seq<ImageRecord>, threshold: int, x: nat, j: nat)
    requires x < j < |recs| && Matches(recs[x], recs[j], threshold)
    requires forall q :: 0 <= q < |Clusters(recs, threshold)| ==> x !in Clusters(recs, threshold)[q]
    ensures exists q :: (0 <= q < |Clusters(recs, threshold)| && |Clusters(recs, threshold)[q]| > 0
      && j in Clusters(recs, threshold)[q] && Clusters(recs, threshold)[q][0] < x)
  {
    var groups := Clusters(recs, threshold);
    ClusterFromLonely(recs, threshold, 0, {}, x, j);
    var q :| 0 <= q < |groups| && |groups[q]| > 0 && j in groups[q] && groups[q][0] < x;
  }

  lemma {:induction false} ClusterFromTogether(recs: seq<ImageRecord>, threshold: int, i: nat,
                                               placed: set<nat>, a: nat, b: nat)
    requires i <= a < b < |recs| && a !in placed && b !in placed
    requires recs[a].fileHash == recs[b].fileHash && recs[a].pHash == recs[b].pHash
    ensures exists q :: (0 <= q < |ClusterFrom(recs, threshold, i, placed)|
      && a in ClusterFrom(recs, threshold, i, placed)[q] && b in ClusterFrom(recs, threshold, i, placed)[q])
    decreases |recs| - i
  {
    var groups := ClusterFrom(recs, threshold, i, placed);
    if i in placed {
      ClusterFromTogether(recs, threshold, i + 1, placed, a, b);
    } else {
      var members := Scan(recs, threshold, i, i + 1, placed);
      var next := placed + {i} + ElemSet(members);
      var rest := ClusterFrom(recs, threshold, i + 1, next);
      FreeStep(recs, threshold, i, placed, members, rest);
      ScanMembers(recs, threshold, i, i + 1, placed, a);
      ScanMembers(recs, threshold, i, i + 1, placed, b);
      if i == a || a in members {
        assert a in groups[0] && b in groups[0];
      } else {
        ClusterFromTogether(recs, threshold, i + 1, next, a, b);
        var q :| 0 <= q < |rest| && a in rest[q] && b in rest[q];
        var shift := if members == [] then 0 else 1;
        assert groups[q + shift] == rest[q];
      }
    }
  }

  /** Two records with the same content hash and the same perceptual hash
      always end up in one reported group. */
  lemma ClustersKeepSameContent(recs: seq<ImageRecord>, threshold: int, a: nat, b: nat)
    requires a < b < |recs|
    requires recs[a].fileHash == recs[b].fileHash && recs[a].pHash == recs[b].pHash
    ensures exists q :: (0 <= q < |Clusters(recs, threshold)|
      && a in Clusters(recs, threshold)[q] && b in Clusters(recs, threshold)[q])
  {
    var groups := Clusters(recs, threshold);
    ClusterFromTogether(recs, threshold, 0, {}, a, b);
    var q :| 0 <= q < |groups| && a in groups[q] && b in groups[q];
  }

  /** No record at or after `lo` matches a later one. */
  predicate NoMatchFrom(recs: seq<ImageRecord>, threshold: int, lo: nat) {
    forall a, b :: lo <= a < b < |recs| ==> !Matches(recs[a], recs[b], threshold)
  }

  /** No record after `a` matches the record at `a`. */
  predicate NoPartner(recs: seq<ImageRecord>, threshold: int, a: nat)
    requires a < |recs|
  {
    forall b :: a < b < |recs| ==> !Matches(recs[a], recs[b], threshold)
  }

  lemma NoMatchFromStep(recs: seq<ImageRecord>, threshold: int, lo: nat)
    requires lo < |recs|
    ensures NoMatchFrom(recs, threshold, lo) <==>
      NoPartner(recs, threshold, lo) && NoMatchFrom(recs, threshold, lo + 1)
  {
  }

  /** With nothing after the seed placed, the seed's group stays empty
      exactly when nothing after it matches. */
  lemma ScanEmptyIff(recs: seq<ImageRecord>, threshold: int, i: nat, placed: set<nat>)
    requires i < |recs| && forall x :: x in placed ==> x <= i
    ensures Scan(recs, threshold, i, i + 1, placed) == [] <==> NoPartner(recs, threshold, i)
  {
    var members := Scan(recs, threshold, i, i + 1, placed);
    if members == [] {
      forall b | i < b < |recs|
        ensures !Matches(recs[i], recs[b], threshold)
      {
        ScanMembers(recs, threshold, i, i + 1, placed, b);
      }
    } else {
      ScanMembers(recs, threshold, i, i + 1, placed, members[0]);
    }
  }

  lemma {:induction false} ClusterFromNone(recs: seq<ImageRecord>, threshold: int, i: nat, placed: set<nat>)
    requires i <= |recs| && forall x :: x in placed ==> x < i
    ensures ClusterFrom(recs, threshold, i, placed) == [] <==> NoMatchFrom(recs, threshold, i)
    decreases |recs| - i
  {
    if i < |recs| {
      var members := Scan(recs, threshold, i, i + 1, placed);
      var next := placed + {i} + ElemSet(members);
      var rest := ClusterFrom(recs, threshold, i + 1, next);
      FreeStep(recs, threshold, i, placed, members, rest);
      ScanEmptyIff(recs, threshold, i, placed);
      NoMatchFromStep(recs, threshold, i);
      if members == [] {
        assert next == placed + {i};
        ClusterFromNone(recs, threshold, i + 1, next);
      }
    }
  }

  /** Nothing is reported exactly when no record matches any later one. */
  lemma ClustersNoneIff(recs: seq<ImageRecord>, threshold: int)
    ensures Clusters(recs, threshold) == [] <==>
      forall a, b :: 0 <= a < b < |recs| ==> !Matches(recs[a], recs[b], threshold)
  {
    ClusterFromNone(recs, threshold, 0, {});
  }

  /** The inner-loop comparisons counted from index `j` on: one per free
      index. */
  function FreeCount(j: nat, n: nat, placed: set<nat>): (c: nat)
    requires j <= n
    ensures c <= n - j
    decreases n - j
  {
    if j == n then 0
    else (if j in placed then 0 else 1) + FreeCount(j + 1, n, placed)
  }

  lemma {:induction false} FreeCountAll(j: nat, n: nat, placed: set<nat>)
    requires j <= n && forall x :: x in placed ==> x < j
    ensures FreeCount(j, n, placed) == n - j
    decreases n - j
  {
    if j < n {
      FreeCountAll(j + 1, n, placed);
    }
  }

  /** The comparisons the outer loop makes from index `i` on. */
  function ComparisonsFrom(recs: seq<ImageRecord>, threshold: int, i: nat, placed: set<nat>): nat
    requires i <= |recs|
    decreases |recs| - i
  {
    if i == |recs| then 0
    else if i in placed then ComparisonsFrom(recs, threshold, i + 1, placed)
    else
      var members := Scan(recs, threshold, i, i + 1, placed);
      FreeCount(i + 1, |recs|, placed)
      + ComparisonsFrom(recs, threshold, i + 1, placed + {i} + ElemSet(members))
  }

  /** The comparisons of the whole pass. */
  function Comparisons(recs: seq<ImageRecord>, threshold: int): nat {
    ComparisonsFrom(recs, threshold, 0, {})
  }

  /** The number of unordered pairs among `n` records, counted one new
      record at a time. */
  function Pairs(n: nat): nat {
    if n == 0 then 0 else Pairs(n - 1) + (n - 1)
  }

  /** The count is the handler's `totalComparisons`, `n * (n - 1) / 2`. */
  lemma {:induction false} PairsFormula(n: nat)
    ensures 2 * Pairs(n) == n * (n - 1)
    ensures Pairs(n) == n * (n - 1) / 2
  {
    if n > 0 {
      PairsFormula(n - 1);
    }
  }

  /** Counting pairs: a seed with `m` later indices adds at most `m`
      comparisons to those of the rest. */
  lemma PairsStep(m: int, here: int, rest: int)
    requires 0 <= here <= m
    ensures 2 * rest <= m * (m - 1) ==> 2 * (here + rest) <= (m + 1) * m
    ensures here == m && 2 * rest == m * (m - 1) ==> 2 * (here + rest) == (m + 1) * m
  {
  }

  lemma {:induction false} ComparisonsFromBound(recs: seq<ImageRecord>, threshold: int, i: nat, placed: set<nat>)
    requires i <= |recs|
    ensures 2 * ComparisonsFrom(recs, threshold, i, placed) <= (|recs| - i) * (|recs| - i - 1)
    decreases |recs| - i
  {
    if i < |recs| {
      var m := |recs| - i - 1;
      if i in placed {
        ComparisonsFromBound(recs, threshold, i + 1, placed);
        PairsStep(m, 0, ComparisonsFrom(recs, threshold, i + 1, placed));
      } else {
        var next := placed + {i} + ElemSet(Scan(recs, threshold, i, i + 1, placed));
        ComparisonsFromBound(recs, threshold, i + 1, next);
        PairsStep(m, FreeCount(i + 1, |recs|, placed), ComparisonsFrom(recs, threshold, i + 1, next));
      }
    }
  }

  /** The pass never makes more than the `n(n-1)/2` comparisons it
      announces as its total. */
  lemma ComparisonsBound(recs: seq<ImageRecord>, threshold: int)
    ensures 2 * Comparisons(recs, threshold) <= |recs| * (|recs| - 1)
  {
    ComparisonsFromBound(recs, threshold, 0, {});
  }

  lemma {:induction false} ComparisonsFromAllFree(recs: seq<ImageRecord>, threshold: int, i: nat,
                                                  placed: set<nat>)
    requires i <= |recs| && (forall x :: x in placed ==> x < i)
    requires NoMatchFrom(recs, threshold, i)
    ensures 2 * ComparisonsFrom(recs, threshold, i, placed) == (|recs| - i) * (|recs| - i - 1)
    decreases |recs| - i
  {
    if i < |recs| {
      var m := |recs| - i - 1;
      var members := Scan(recs, threshold, i, i + 1, placed);
      NoMatchFromStep(recs, threshold, i);
      ScanEmptyIff(recs, threshold, i, placed);
      assert placed + {i} + ElemSet(members) == placed + {i};
      FreeCountAll(i + 1, |recs|, placed);
      ComparisonsFromAllFree(recs, threshold, i + 1, placed + {i});
      PairsStep(m, m, ComparisonsFrom(recs, threshold, i + 1, placed + {i}));
    }
  }

  /** When nothing matches, every pair is compared exactly once. */
  lemma ComparisonsWhenNoneMatch(recs: seq<ImageRecord>, threshold: int)
    requires forall a, b :: 0 <= a < b < |recs| ==> !Matches(recs[a], recs[b], threshold)
    ensures 2 * Comparisons(recs, threshold) == |recs| * (|recs| - 1)
  {
    ComparisonsFromAllFree(recs, threshold, 0, {});
  }

  /** How a reported group is labelled. `Similar` carries the smallest
      distance from the seed to a member, shown in the description text. */
  datatype Kind = Identical | Similar(distance: int)

  /** One entry of the handler's result: the kind and the member paths,
      seed first. */
  datatype DuplicateGroup = DuplicateGroup(kind: Kind, files: seq<string>)

  /** The smallest distance from `seed` to any of `others`. */
  function MinDistance(seed: string, others: seq<string>): (d: int)
    requires others != []
    ensures forall k :: 0 <= k < |others| ==> d <= Hamming.Distance(seed, others[k])
    ensures exists k :: 0 <= k < |others| && d == Hamming.Distance(seed, others[k])
  {
    if |others| == 1 then Hamming.Distance(seed, others[0])
    else
      var first := Hamming.Distance(seed, others[0]);
      var rest := MinDistance(seed, others[1..]);
      if first <= rest then first else rest
  }

  predicate Describable(recs: seq<ImageRecord>, g: seq<nat>) {
    |g| >= 2 && forall k :: 0 <= k < |g| ==> g[k] < |recs|
  }

  /** Whether every record of the group has the seed's content hash. */
  predicate SameContentAsSeed(recs: seq<ImageRecord>, g: seq<nat>)
    requires Describable(recs, g)
  {
    forall k :: 0 <= k < |g| ==> recs[g[k]].fileHash == recs[g[0]].fileHash
  }

  function Describe(recs: seq<ImageRecord>, g: seq<nat>): DuplicateGroup
    requires Describable(recs, g)
  {
    var kind :=
      if SameContentAsSeed(recs, g) then Identical
      else Similar(MinDistance(recs[g[0]].pHash, MemberHashes(recs, g)));
    DuplicateGroup(kind, seq(|g|, k requires 0 <= k < |g| => recs[g[k]].path))
  }

  function DescribeAll(recs: seq<ImageRecord>, groups: seq<seq<nat>>): (ds: seq<DuplicateGroup>)
    requires forall p :: 0 <= p < |groups| ==> Describable(recs, groups[p])
    ensures |ds| == |groups|
  {
    if groups == [] then [] else [Describe(recs, groups[0])] + DescribeAll(recs, groups[1..])
  }

  lemma ShapeDescribable(recs: seq<ImageRecord>, threshold: int, i: nat, placed: set<nat>)
    requires i <= |recs|
    ensures forall p :: 0 <= p < |ClusterFrom(recs, threshold, i, placed)| ==>
      Describable(recs, ClusterFrom(recs, threshold, i, placed)[p])
  {
    forall p | 0 <= p < |ClusterFrom(recs, threshold, i, placed)|
      ensures Describable(recs, ClusterFrom(recs, threshold, i, placed)[p])
    {
      ClusterFromShape(recs, threshold, i, placed, p);
    }
  }

  /** The list the handler returns. */
  function Report(recs: seq<ImageRecord>, threshold: int): (r: seq<DuplicateGroup>)
    ensures |r| == |Clusters(recs, threshold)|
  {
    ShapeDescribable(recs, threshold, 0, {});
    DescribeAll(recs, Clusters(recs, threshold))
  }

  lemma {:induction false} DescribeAllIndex(recs: seq<ImageRecord>, groups: seq<seq<nat>>, p: nat)
    requires forall q :: 0 <= q < |groups| ==> Describable(recs, groups[q])
    requires p < |groups|
    ensures DescribeAll(recs, groups)[p] == Describe(recs, groups[p])
  {
    if p > 0 {
      DescribeAllIndex(recs, groups[1..], p - 1);
    }
  }

  /** Entry `p` of the report describes group `p` of the clustering. */
  lemma ReportEntry(recs: seq<ImageRecord>, threshold: int, p: nat)
    requires p < |Report(recs, threshold)|
    ensures GroupOf(recs, threshold, Clusters(recs, threshold)[p], 0, {})
    ensures Report(recs, threshold)[p] == Describe(recs, Clusters(recs, threshold)[p])
  {
    ShapeDescribable(recs, threshold, 0, {});
    ClusterFromShape(recs, threshold, 0, {}, p);
    DescribeAllIndex(recs, Clusters(recs, threshold), p);
  }

  /** All perceptual hashes have one length, as the 63-character
      fingerprints of the hashing phase do. */
  predicate UniformHashes(recs: seq<ImageRecord>) {
    forall a, b :: 0 <= a < |recs| && 0 <= b < |recs| ==> |recs[a].pHash| == |recs[b].pHash|
  }

  /** The hashes of a group's members, seed excluded. */
  function MemberHashes(recs: seq<ImageRecord>, g: seq<nat>): (hs: seq<string>)
    requires Describable(recs, g)
    ensures |hs| == |g| - 1
  {
    seq(|g| - 1, k requires 0 <= k < |g| - 1 => recs[g[k + 1]].pHash)
  }

  lemma MinDistanceWithin(seed: string, others: seq<string>, threshold: int)
    requires others != []
    requires exists k :: 0 <= k < |others| && 0 <= Hamming.Distance(seed, others[k]) <= threshold
    ensures Hamming.Incomparable <= MinDistance(seed, others) <= threshold
    ensures (forall k :: 0 <= k < |others| ==> |others[k]| == |seed|) ==> 0 <= MinDistance(seed, others)
  {
    var w :| 0 <= w < |others| && MinDistance(seed, others) == Hamming.Distance(seed, others[w]);
  }

  /** A group that is not all one content has a member that joined through
      its perceptual hash. */
  lemma SimilarMember(recs: seq<ImageRecord>, threshold: int, g: seq<nat>)
    requires GroupOf(recs, threshold, g, 0, {}) && !SameContentAsSeed(recs, g)
    ensures exists k :: (0 <= k < |MemberHashes(recs, g)|
      && 0 <= Hamming.Distance(recs[g[0]].pHash, MemberHashes(recs, g)[k]) <= threshold)
  {
    var k :| 0 <= k < |g| && recs[g[k]].fileHash != recs[g[0]].fileHash;
    assert Matches(recs[g[0]], recs[g[k]], threshold);
    assert MemberHashes(recs, g)[k - 1] == recs[g[k]].pHash;
  }

  lemma UniformMembers(recs: seq<ImageRecord>, g: seq<nat>)
    requires Describable(recs, g) && UniformHashes(recs)
    ensures forall k :: 0 <= k < |MemberHashes(recs, g)| ==>
      |MemberHashes(recs, g)[k]| == |recs[g[0]].pHash|
  {
    var others := MemberHashes(recs, g);
    forall k | 0 <= k < |others|
      ensures |others[k]| == |recs[g[0]].pHash|
    {
      assert others[k] == recs[g[k + 1]].pHash;
    }
  }

  lemma DescribeSimilar(recs: seq<ImageRecord>, threshold: int, g: seq<nat>)
    requires GroupOf(recs, threshold, g, 0, {}) && !SameContentAsSeed(recs, g)
    ensures Describe(recs, g).kind.Similar?
    ensures Describe(recs, g).kind.distance <= threshold
    ensures Hamming.Incomparable <= Describe(recs, g).kind.distance
    ensures UniformHashes(recs) ==> 0 <= Describe(recs, g).kind.distance
  {
    var others := MemberHashes(recs, g);
    SimilarMember(recs, threshold, g);
    MinDistanceWithin(recs[g[0]].pHash, others, threshold);
    if UniformHashes(recs) {
      UniformMembers(recs, g);
    }
    assert Describe(recs, g).kind == Similar(MinDistance(recs[g[0]].pHash, others));
  }

  /** A group labelled similar reports a distance within the threshold:
      at least one member joined through its perceptual hash. The distance
      is -1 only when some member's hash has a different length, which
      uniform hashes rule out. */
  lemma ReportSimilarWithin(recs: seq<ImageRecord>, threshold: int, p: nat)
    requires p < |Report(recs, threshold)| && Report(recs, threshold)[p].kind.Similar?
    ensures Report(recs, threshold)[p].kind.distance <= threshold
    ensures Hamming.Incomparable <= Report(recs, threshold)[p].kind.distance
    ensures UniformHashes(recs) ==> 0 <= Report(recs, threshold)[p].kind.distance
  {
    ReportEntry(recs, threshold, p);
    DescribeSimilar(recs, threshold, Clusters(recs, threshold)[p]);
  }

  /** A group is labelled identical exactly when all its files share one
      content hash. */
  lemma ReportIdenticalIff(recs: seq<ImageRecord>, threshold: int, p: nat)
    requires p < |Report(recs, threshold)|
    ensures Describable(recs, Clusters(recs, threshold)[p])
    ensures Report(recs, threshold)[p].kind == Identical <==>
      forall x, y :: x in Clusters(recs, threshold)[p] && y in Clusters(recs, threshold)[p] ==>
        recs[x].fileHash == recs[y].fileHash
  {
    ReportEntry(recs, threshold, p);
    var g := Clusters(recs, threshold)[p];
    if SameContentAsSeed(recs, g) {
      forall x, y | x in g && y in g
        ensures recs[x].fileHash == recs[y].fileHash
      {
        var a :| 0 <= a < |g| && g[a] == x;
        var b :| 0 <= b < |g| && g[b] == y;
      }
    } else {
      var k :| 0 <= k < |g| && recs[g[k]].fileHash != recs[g[0]].fileHash;
      assert g[k] in g && g[0] in g;
    }
  }

  /** The paths of a reported group, seed first and then the members in
      list order. */
  lemma ReportFiles(recs: seq<ImageRecord>, threshold: int, p: nat)
    requires p < |Report(recs, threshold)|
    ensures Describable(recs, Clusters(recs, threshold)[p])
    ensures |Report(recs, threshold)[p].files| == |Clusters(recs, threshold)[p]|
    ensures forall k :: 0 <= k < |Clusters(recs, threshold)[p]| ==>
      Report(recs, threshold)[p].files[k] == recs[Clusters(recs, threshold)[p][k]].path
  {
    ReportEntry(recs, threshold, p);
  }

  /** The distance between two-character hashes, bit by bit. */
  lemma DistanceOfPairs(a: string, b: string)
    requires |a| == 2 && |b| == 2
    ensures Hamming.Distance(a, b) == (if a[0] != b[0] then 1 else 0) + (if a[1] != b[1] then 1 else 0)
  {
    assert Hamming.DiffCount(a, b, 1) == if a[0] != b[0] then 1 else 0;
  }

  /** Three records in a chain: the first two are one bit apart, the last
      two are one bit apart, the outer two are two bits apart; the last two
      have the same content hash but, as when their perceptual hashes come
      from the metadata fallback, different perceptual hashes. */
  function Chain(): seq<ImageRecord> {
    [ImageRecord("a.jpg", "x", "00"), ImageRecord("b.jpg", "y", "01"), ImageRecord("c.jpg", "y", "11")]
  }

  /** Matching is not transitive and is decided against the seed alone:
      with threshold 1, "c.jpg" matches "b.jpg", and even has the same
      content hash, yet it is reported nowhere, because "b.jpg" was taken
      by the group of "a.jpg" and "c.jpg" is two bits from "a.jpg". */
  lemma ChainSplitsSameContent()
    ensures Matches(Chain()[1], Chain()[2], 1)
    ensures Clusters(Chain(), 1) == [[0, 1]]
  {
    var recs := Chain();
    assert "x" != "y" by { assert "x"[0] != "y"[0]; }
    DistanceOfPairs("00", "01");
    DistanceOfPairs("00", "11");
    assert !Matches(recs[0], recs[2], 1);
    assert Scan(recs, 1, 0, 3, {}) == [];
    assert Scan(recs, 1, 0, 2, {}) == [];
    assert Scan(recs, 1, 0, 1, {}) == [1];
    assert ElemSet([1]) == {1};
    var placed: set<nat> := {0, 1};
    assert Scan(recs, 1, 2, 3, placed) == [];
    assert ClusterFrom(recs, 1, 3, placed + {2}) == [];
    assert ClusterFrom(recs, 1, 2, placed) == [];
    assert ClusterFrom(recs, 1, 1, placed) == [];
    assert {} + {0} + ElemSet([1]) == placed;
    FreeStep(recs, 1, 0, {}, [1], ClusterFrom(recs, 1, 1, placed));
    var g: seq<nat> := [0] + [1];
    assert g == [0, 1];
    assert [g] + [] == [g];
  }

  /** A seed and two byte-identical files one bit from it. */
  function Twins(): seq<ImageRecord> {
    [ImageRecord("a.jpg", "x", "00"), ImageRecord("b.jpg", "y", "01"), ImageRecord("c.jpg", "y", "01")]
  }

  lemma TwinsClusters()
    ensures Clusters(Twins(), 1) == [[0, 1, 2]]
  {
    var recs := Twins();
    DistanceOfPairs("00", "01");
    assert Scan(recs, 1, 0, 3, {}) == [];
    assert Scan(recs, 1, 0, 2, {}) == [2];
    assert Scan(recs, 1, 0, 1, {}) == [1, 2];
    assert ElemSet([1, 2]) == {1, 2};
    var placed: set<nat> := {0, 1, 2};
    assert ClusterFrom(recs, 1, 3, placed) == [];
    assert ClusterFrom(recs, 1, 2, placed) == [];
    assert ClusterFrom(recs, 1, 1, placed) == [];
    var g: seq<nat> := [0] + [1, 2];
    assert g == [0, 1, 2];
    assert {} + {0} + ElemSet([1, 2]) == placed;
    FreeStep(recs, 1, 0, {}, [1, 2], ClusterFrom(recs, 1, 1, placed));
    assert [g] + [] == [g];
  }

  lemma TwinsDistance()
    ensures Describable(Twins(), [0, 1, 2])
    ensures MemberHashes(Twins(), [0, 1, 2]) == ["01", "01"]
    ensures MinDistance("00", ["01", "01"]) == 1
  {
    DistanceOfPairs("00", "01");
    assert MinDistance("00", ["01", "01"][1..]) == 1;
  }

  lemma TwinsDescribe()
    ensures Describable(Twins(), [0, 1, 2])
    ensures Describe(Twins(), [0, 1, 2]) == DuplicateGroup(Similar(1), ["a.jpg", "b.jpg", "c.jpg"])
  {
    var recs := Twins();
    var g: seq<nat> := [0, 1, 2];
    TwinsDistance();
    assert "x" != "y" by { assert "x"[0] != "y"[0]; }
    assert recs[g[1]].fileHash != recs[g[0]].fileHash;
    assert !SameContentAsSeed(recs, g);
    var d := Describe(recs, g);
    assert d.kind == Similar(1);
    assert |d.files| == 3;
    assert d.files[0] == "a.jpg" && d.files[1] == "b.jpg" && d.files[2] == "c.jpg";
    Seqs.OfThree(d.files, "a.jpg", "b.jpg", "c.jpg");
  }

  /** A group holding byte-identical files is still labelled similar when
      its seed has other content: the label compares with the seed only. */
  lemma TwinsLabelledSimilar()
    ensures Clusters(Twins(), 1) == [[0, 1, 2]]
    ensures Report(Twins(), 1) == [DuplicateGroup(Similar(1), ["a.jpg", "b.jpg", "c.jpg"])]
  {
    var g: seq<nat> := [0, 1, 2];
    TwinsClusters();
    TwinsDescribe();
    assert DescribeAll(Twins(), [g]) == [Describe(Twins(), g)];
  }
}
