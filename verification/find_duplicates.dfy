/**
 * The `find-duplicates` handler of main.js. It hashes the files in slices
 * sized from the CPU count, then runs the grouping pass as the source
 * writes it: nested loops over a `processed` set, with a comparison
 * counter that posts a progress notice every 100 comparisons. The pass is
 * shown to compute exactly the groups and the count of the `Cluster`
 * model.
 */
module FindDuplicates {
  import Hamming
  import opened Wrappers
  import opened Records
  import opened Cluster
  import Batch
  import Seqs

  /** The payload of one `comparison-progress` notice (the rounded
      percentage, a float, is not modelled). */
  datatype ComparisonProgress = ComparisonProgress(current: nat, total: int)

  /** The notices posted by the time `m` hundred comparisons have been
      made, oldest first. */
  function Notices(m: nat, total: int): seq<ComparisonProgress> {
    if m == 0 then [] else Notices(m - 1, total) + [ComparisonProgress(100 * m, total)]
  }

  /** The notices posted once `comparisons` comparisons have been made:
      one at every multiple of 100. */
  predicate ProgressUpTo(progress: seq<ComparisonProgress>, comparisons: nat, total: int) {
    progress == Notices(comparisons / 100, total)
  }

  /** Notice k reports count 100(k + 1), and there is one per hundred. */
  lemma {:induction false} NoticesShape(m: nat, total: int)
    ensures |Notices(m, total)| == m
    ensures forall k :: 0 <= k < m ==> Notices(m, total)[k] == ComparisonProgress(100 * (k + 1), total)
  {
    if m > 0 {
      NoticesShape(m - 1, total);
    }
  }

  lemma ProgressStep(progress: seq<ComparisonProgress>, comparisons: nat, total: int)
    requires ProgressUpTo(progress, comparisons, total)
    ensures (comparisons + 1) % 100 == 0 ==>
      ProgressUpTo(progress + [ComparisonProgress(comparisons + 1, total)], comparisons + 1, total)
    ensures (comparisons + 1) % 100 != 0 ==> ProgressUpTo(progress, comparisons + 1, total)
  {
    var m := comparisons / 100;
    if (comparisons + 1) % 100 == 0 {
      assert (comparisons + 1) / 100 == m + 1 && 100 * (m + 1) == comparisons + 1;
    } else {
      assert (comparisons + 1) / 100 == m;
    }
  }

  lemma {:induction false} DescribeAllAppend(recs: seq<ImageRecord>, a: seq<seq<nat>>, b: seq<seq<nat>>)
    requires forall p :: 0 <= p < |a| ==> Describable(recs, a[p])
    requires forall p :: 0 <= p < |b| ==> Describable(recs, b[p])
    ensures forall p :: 0 <= p < |a + b| ==> Describable(recs, (a + b)[p])
    ensures DescribeAll(recs, a + b) == DescribeAll(recs, a) + DescribeAll(recs, b)
  {
    if a != [] {
      Seqs.SplitHead(a, b);
      DescribeAllAppend(recs, a[1..], b);
      assert (a + b)[1..] == a[1..] + b;
      Seqs.AppendAssoc([Describe(recs, a[0])], DescribeAll(recs, a[1..]), DescribeAll(recs, b));
    } else {
      assert a + b == b;
    }
  }

  /** What holds at the head of the inner loop for seed `i`: `similar`
      holds the seed and the members found below `j`, the scan from `j` on
      will find the rest, `processed` is what it was before the seed plus
      the seed and its members, and `counted` comparisons were made. */
  ghost predicate InnerInvariant(recs: seq<ImageRecord>, threshold: int, i: nat, before: set<nat>,
                                 j: nat, similar: seq<nat>, processed: set<nat>, counted: nat)
  {
    && i < j <= |recs|
    && |similar| >= 1 && similar[0] == i
    && Scan(recs, threshold, i, i + 1, before) == similar[1..] + Scan(recs, threshold, i, j, before)
    && processed == before + {i} + ElemSet(similar[1..])
    && (forall k :: 1 <= k < |similar| ==> similar[k] < j)
    && FreeCount(i + 1, |recs|, before) == counted + FreeCount(j, |recs|, before)
  }

  lemma InnerStart(recs: seq<ImageRecord>, threshold: int, i: nat, before: set<nat>)
    requires i < |recs|
    ensures InnerInvariant(recs, threshold, i, before, i + 1, [i], before + {i}, 0)
  {
    assert [i][1..] == [];
    assert ElemSet([]) == {};
  }

  lemma InnerEnd(recs: seq<ImageRecord>, threshold: int, i: nat, before: set<nat>,
                 similar: seq<nat>, processed: set<nat>, counted: nat)
    requires InnerInvariant(recs, threshold, i, before, |recs|, similar, processed, counted)
    ensures similar == [i] + Scan(recs, threshold, i, i + 1, before)
    ensures processed == before + {i} + ElemSet(similar[1..])
    ensures FreeCount(i + 1, |recs|, before) == counted
  {
    assert Scan(recs, threshold, i, |recs|, before) == [];
    assert similar[1..] + [] == similar[1..];
  }

  /** One step of the inner loop at index `j`, whichever branch it takes. */
  lemma InnerStep(recs: seq<ImageRecord>, threshold: int, i: nat, before: set<nat>,
                  j: nat, similar: seq<nat>, processed: set<nat>, counted: nat)
    requires j < |recs| && InnerInvariant(recs, threshold, i, before, j, similar, processed, counted)
    ensures j in processed <==> j in before
    ensures j in processed ==>
      InnerInvariant(recs, threshold, i, before, j + 1, similar, processed, counted)
    ensures j !in processed && Matches(recs[i], recs[j], threshold) ==>
      InnerInvariant(recs, threshold, i, before, j + 1, similar + [j], processed + {j}, counted + 1)
    ensures j !in processed && !Matches(recs[i], recs[j], threshold) ==>
      InnerInvariant(recs, threshold, i, before, j + 1, similar, processed, counted + 1)
  {
    assert j !in ElemSet(similar[1..]);
    if j !in before && Matches(recs[i], recs[j], threshold) {
      assert (similar + [j])[1..] == similar[1..] + [j];
      assert ElemSet(similar[1..] + [j]) == ElemSet(similar[1..]) + {j};
      Seqs.AppendAssoc(similar[1..], [j], Scan(recs, threshold, i, j + 1, before));
    }
  }

  /** What holds at the head of the outer loop at index `i`: the groups
      reported so far followed by the groups from `i` on are all the
      groups, the descriptions posted are those of the groups reported, and
      the comparisons made plus those still to come are all of them. */
  ghost predicate OuterInvariant(recs: seq<ImageRecord>, threshold: int, i: nat, processed: set<nat>,
                                 groups: seq<seq<nat>>, duplicates: seq<DuplicateGroup>, comparisons: nat)
  {
    && i <= |recs|
    && Clusters(recs, threshold) == groups + ClusterFrom(recs, threshold, i, processed)
    && (forall p :: 0 <= p < |groups| ==> Describable(recs, groups[p]))
    && duplicates == DescribeAll(recs, groups)
    && Comparisons(recs, threshold) == comparisons + ComparisonsFrom(recs, threshold, i, processed)
  }

  lemma OuterStart(recs: seq<ImageRecord>, threshold: int)
    ensures OuterInvariant(recs, threshold, 0, {}, [], [], 0)
  {
    assert [] + ClusterFrom(recs, threshold, 0, {}) == Clusters(recs, threshold);
  }

  lemma OuterSkip(recs: seq<ImageRecord>, threshold: int, i: nat, processed: set<nat>,
                  groups: seq<seq<nat>>, duplicates: seq<DuplicateGroup>, comparisons: nat)
    requires i < |recs| && i in processed
    requires OuterInvariant(recs, threshold, i, processed, groups, duplicates, comparisons)
    ensures OuterInvariant(recs, threshold, i + 1, processed, groups, duplicates, comparisons)
  {
  }

  /** The outer step at a free seed, once the inner loop has run to the end
      of the list. */
  lemma OuterStep(recs: seq<ImageRecord>, threshold: int, i: nat, before: set<nat>,
                  groups: seq<seq<nat>>, duplicates: seq<DuplicateGroup>, comparisons: nat,
                  similar: seq<nat>, processed: set<nat>, made: nat)
    requires i < |recs| && i !in before
    requires OuterInvariant(recs, threshold, i, before, groups, duplicates, comparisons)
    requires similar == [i] + Scan(recs, threshold, i, i + 1, before)
    requires processed == before + {i} + ElemSet(similar[1..])
    requires made == comparisons + FreeCount(i + 1, |recs|, before)
    ensures |similar| > 1 ==> Describable(recs, similar)
    ensures OuterInvariant(recs, threshold, i + 1, processed,
      if |similar| > 1 then groups + [similar] else groups,
      if |similar| > 1 then duplicates + [Describe(recs, similar)] else duplicates,
      made)
  {
    var members := Scan(recs, threshold, i, i + 1, before);
    assert similar[1..] == members;
    var rest := ClusterFrom(recs, threshold, i + 1, processed);
    FreeStep(recs, threshold, i, before, members, rest);
    if |similar| > 1 {
      SeedGroup(recs, threshold, i, before);
      Seqs.AppendAssoc(groups, [similar], rest);
      DescribeAllAppend(recs, groups, [similar]);
      assert DescribeAll(recs, [similar]) == [Describe(recs, similar)];
    } else {
      assert members == [];
    }
  }

  /** The inner loop of the pass for a free seed `i`: compare the seed
      with every later index not yet processed, count each comparison, post
      a notice at every hundredth, and take the matching indices. */
  method CompareWithSeed(recs: seq<ImageRecord>, threshold: int, i: nat, before: set<nat>,
                         comparisons: nat, progress: seq<ComparisonProgress>, total: int)
    returns (similar: seq<nat>, processed: set<nat>, made: nat, posted: seq<ComparisonProgress>)
    requires i < |recs| && i !in before
    requires ProgressUpTo(progress, comparisons, total)
    ensures similar == [i] + Scan(recs, threshold, i, i + 1, before)
    ensures processed == before + {i} + ElemSet(similar[1..])
    ensures made == comparisons + FreeCount(i + 1, |recs|, before)
    ensures ProgressUpTo(posted, made, total)
  {
    made, posted := comparisons, progress;
    ghost var counted: nat := 0;
    similar := [i];
    processed := before + {i};
    InnerStart(recs, threshold, i, before);
    var j := i + 1;
    while j < |recs|
      invariant InnerInvariant(recs, threshold, i, before, j, similar, processed, counted)
      invariant made == comparisons + counted
      invariant ProgressUpTo(posted, made, total)
      decreases |recs| - j
    {
      InnerStep(recs, threshold, i, before, j, similar, processed, counted);
      if j in processed {
        j := j + 1;
        continue;
      }
      made, posted := Tick(made, posted, total);
      counted := counted + 1;
      if recs[i].fileHash == recs[j].fileHash {
        similar := similar + [j];
        processed := processed + {j};
      } else {
        var distance := Hamming.Distance(recs[i].pHash, recs[j].pHash);
        if distance >= 0 && distance <= threshold {
          similar := similar + [j];
          processed := processed + {j};
        }
      }
      j := j + 1;
    }
    InnerEnd(recs, threshold, i, before, similar, processed, counted);
  }

  /** One comparison counted: a notice goes out at every hundredth. */
  method Tick(comparisons: nat, progress: seq<ComparisonProgress>, total: int)
    returns (made: nat, posted: seq<ComparisonProgress>)
    requires ProgressUpTo(progress, comparisons, total)
    ensures made == comparisons + 1
    ensures ProgressUpTo(posted, made, total)
  {
    ProgressStep(progress, comparisons, total);
    made := comparisons + 1;
    posted := progress;
    if made % 100 == 0 {
      posted := posted + [ComparisonProgress(made, total)];
    }
  }

  /** The grouping pass as main.js writes it. Records are referred to by
      index: `similar` holds the indices of `similarFiles`. */
  method GroupingPass(recs: seq<ImageRecord>, threshold: int)
    returns (duplicates: seq<DuplicateGroup>, comparisons: nat, progress: seq<ComparisonProgress>)
    ensures duplicates == Report(recs, threshold)
    ensures comparisons == Comparisons(recs, threshold)
    ensures ProgressUpTo(progress, comparisons, Pairs(|recs|))
  {
    var n := |recs|;
    var total := n * (n - 1) / 2;
    PairsFormula(n);
    var processed: set<nat> := {};
    ghost var groups: seq<seq<nat>> := [];
    duplicates, comparisons, progress := [], 0, [];
    OuterStart(recs, threshold);
    var i := 0;
    while i < n
      invariant OuterInvariant(recs, threshold, i, processed, groups, duplicates, comparisons)
      invariant ProgressUpTo(progress, comparisons, total)
      decreases n - i
    {
      if i in processed {
        OuterSkip(recs, threshold, i, processed, groups, duplicates, comparisons);
      } else {
        var similar, placed, made, posted := CompareWithSeed(recs, threshold, i, processed, comparisons, progress, total);
        OuterStep(recs, threshold, i, processed, groups, duplicates, comparisons, similar, placed, made);
        if |similar| > 1 {
          duplicates := duplicates + [Describe(recs, similar)];
          groups := groups + [similar];
        }
        processed, comparisons, progress := placed, made, posted;
      }
      i := i + 1;
    }
    assert groups + [] == groups;
  }

  /** The threshold used when the caller passes none. */
  const DefaultThreshold: int := 10

  /** Hashes of one length: the fingerprints of the hashing phase. */
  lemma KeptUniform(files: seq<FileInput>)
    ensures UniformHashes(Kept(Jobs(files)))
  {
    KeptFingerprints(files);
  }

  /** The whole handler: hash the files in slices of twice the CPU count,
      then group them. `cpuCount` stands for `os.cpus().length`, and
      `finishes` for the order in which each slice's readable files finish
      hashing. Hash event k is posted by file `hashOrder[k]`. Every similar
      group it reports has a distance between 0 and the threshold, since
      all fingerprints have one length. */
  method FindDuplicatesHandler(files: seq<FileInput>, similarityThreshold: Option<int>, cpuCount: nat,
                               finishes: seq<seq<nat>>)
    returns (duplicates: seq<DuplicateGroup>, hashEvents: seq<Batch.HashProgress>, hashOrder: seq<nat>,
             comparisons: nat, progress: seq<ComparisonProgress>)
    requires Batch.PassSchedule(files, Batch.BatchSizeFor(cpuCount), finishes)
    ensures forall p :: 0 <= p < |duplicates| && duplicates[p].kind.Similar? ==>
      0 <= duplicates[p].kind.distance <= similarityThreshold.GetOr(DefaultThreshold)
    ensures var threshold := similarityThreshold.GetOr(DefaultThreshold);
      comparisons == Comparisons(Kept(Jobs(files)), threshold)
    ensures ProgressUpTo(progress, comparisons, Pairs(|Kept(Jobs(files))|))
    ensures |hashEvents| == |files| && |hashOrder| == |files|
    ensures forall k :: 0 <= k < |files| ==>
      hashOrder[k] < |files| && hashEvents[k] == Batch.EventFor(files[hashOrder[k]], k + 1, |files|)
    ensures Batch.Distinct(hashOrder)
    ensures hashOrder == Batch.PassOrder(files, Batch.BatchSizeFor(cpuCount), finishes)
    ensures var threshold := similarityThreshold.GetOr(DefaultThreshold);
      duplicates == Report(Kept(Jobs(files)), threshold)
  {
    var threshold := similarityThreshold.GetOr(DefaultThreshold);
    var batchSize := Batch.BatchSizeFor(cpuCount);
    var fileData, processed, events, order, batches, pauses := Batch.ProcessFilesBatch(files, batchSize, finishes);
    duplicates, comparisons, progress := GroupingPass(fileData, threshold);
    hashEvents, hashOrder := events, order;
    KeptUniform(files);
    forall p | 0 <= p < |duplicates| && duplicates[p].kind.Similar?
      ensures 0 <= duplicates[p].kind.distance <= threshold
    {
      ReportSimilarWithin(fileData, threshold, p);
    }
  }
}
