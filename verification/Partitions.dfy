/**
 What a partition assignment is: file lists, their weights, and runs that always
 extend the lightest bucket. Pure counterpart of the scheduler in `CoveragePartitions`.
 */
module Partitions {
  import opened ListScheduling
  import opened Sorting

  type Weights = map<string, real>

  // Weight of a file without a recorded duration.
  const UNKNOWN_FILE_WEIGHT := 1.0

  function WeightOf(file: string, weights: Weights): (weight: real)
    ensures if file in weights then weight == weights[file] else weight == 1.0
  {
    if file in weights then weights[file] else UNKNOWN_FILE_WEIGHT
  }

  function WeightsOf(files: seq<string>, weights: Weights): (p: seq<real>)
    ensures |p| == |files|
  {
    seq(|files|, i requires 0 <= i < |files| => WeightOf(files[i], weights))
  }

  function PartitionWeight(files: seq<string>, weights: Weights): real {
    if files == [] then 0.0 else PartitionWeight(files[..|files| - 1], weights) + WeightOf(files[|files| - 1], weights)
  }

  // Weight of the heaviest partition.
  function Heaviest(parts: seq<seq<string>>, weights: Weights): (h: real)
    requires parts != []
  {
    var last := PartitionWeight(parts[|parts| - 1], weights);
    if |parts| == 1 then last
    else
      var h := Heaviest(parts[..|parts| - 1], weights);
      if last > h then last else h
  }

  // All files of all partitions, with multiplicity.
  function AllFiles(parts: seq<seq<string>>): multiset<string> {
    if parts == [] then multiset{} else AllFiles(parts[..|parts| - 1]) + multiset(parts[|parts| - 1])
  }

  // Heavier files first, equal weights by name.
  function HeavierFirst(weights: Weights): (string, string) -> bool {
    (x, y) => WeightOf(x, weights) > WeightOf(y, weights)
              || (WeightOf(x, weights) == WeightOf(y, weights) && StringLeq(x, y))
  }

  function Weighted(files: seq<string>, weights: Weights): seq<string> {
    SortBy(files, HeavierFirst(weights))
  }

  // Files placed in bucket k, in placement order.
  function FilesOf(files: seq<string>, a: seq<nat>, k: nat): seq<string>
    requires |files| == |a|
  {
    if files == [] then []
    else
      var n := |files| - 1;
      FilesOf(files[..n], a[..n], k) + if a[n] == k then [files[n]] else []
  }

  function Buckets(files: seq<string>, a: seq<nat>, m: nat): (parts: seq<seq<string>>)
    requires |files| == |a|
    ensures |parts| == m
  {
    seq(m, k requires 0 <= k < m => FilesOf(files, a, k))
  }

  // Bucket order: by weight, then by file count.
  predicate Lighter(x: seq<string>, y: seq<string>, weights: Weights) {
    if PartitionWeight(x, weights) != PartitionWeight(y, weights) then
      PartitionWeight(x, weights) < PartitionWeight(y, weights)
    else
      |x| < |y|
  }

  predicate Lightest(parts: seq<seq<string>>, k: nat, weights: Weights) {
    k < |parts| && forall i :: 0 <= i < |parts| ==> !Lighter(parts[i], parts[k], weights)
  }

  // Every file, in order, extended a lightest bucket of that moment.
  ghost predicate LightestFirstRun(files: seq<string>, a: seq<nat>, m: nat, weights: Weights) {
    && |files| == |a|
    && (files != [] ==>
          var n := |files| - 1;
          LightestFirstRun(files[..n], a[..n], m, weights) && Lightest(Buckets(files[..n], a[..n], m), a[n], weights))
  }

  lemma HeavierFirstPreorder(weights: Weights)
    ensures TotalPreorder(HeavierFirst(weights)) && Antisymmetric(HeavierFirst(weights))
  {
    StringLeqPreorder();
  }

  lemma WeightedFacts(files: seq<string>, weights: Weights)
    ensures multiset(Weighted(files, weights)) == multiset(files)
    ensures |Weighted(files, weights)| == |files|
    ensures Descending(WeightsOf(Weighted(files, weights), weights))
  {
    HeavierFirstPreorder(weights);
    SortByCorrect(files, HeavierFirst(weights));
  }

  // Heavier files are placed first and files of equal weight by name, however the files were listed.
  lemma PlacementOrder(files: seq<string>, listing: seq<string>, weights: Weights)
    requires multiset(files) == multiset(listing)
    ensures Weighted(files, weights) == Weighted(listing, weights)
    ensures var order := Weighted(files, weights);
            forall i, j :: 0 <= i < j < |order| ==>
              && WeightOf(order[i], weights) >= WeightOf(order[j], weights)
              && (WeightOf(order[i], weights) == WeightOf(order[j], weights) ==> StringLeq(order[i], order[j]))
  {
    HeavierFirstPreorder(weights);
    SortByCorrect(files, HeavierFirst(weights));
    SortByCorrect(listing, HeavierFirst(weights));
    OneOrder(Weighted(files, weights), Weighted(listing, weights), HeavierFirst(weights));
  }

  lemma {:induction false} LoadIsPartitionWeight(files: seq<string>, a: seq<nat>, k: nat, weights: Weights)
    requires |files| == |a|
    ensures PartitionWeight(FilesOf(files, a, k), weights) == Load(WeightsOf(files, weights), a, k)
  {
    if files != [] {
      var n := |files| - 1;
      LoadIsPartitionWeight(files[..n], a[..n], k, weights);
      assert WeightsOf(files, weights)[..n] == WeightsOf(files[..n], weights);
      var before := FilesOf(files[..n], a[..n], k);
      assert before + [] == before;
      PartitionWeightPush(before, files[n], weights);
    }
  }

  lemma PartitionWeightPush(files: seq<string>, file: string, weights: Weights)
    ensures PartitionWeight(files + [file], weights) == PartitionWeight(files, weights) + WeightOf(file, weights)
  {
    assert (files + [file])[..|files|] == files;
  }

  lemma {:induction false} RunAssigns(files: seq<string>, a: seq<nat>, m: nat, weights: Weights)
    requires LightestFirstRun(files, a, m, weights)
    ensures forall i :: 0 <= i < |a| ==> a[i] < m
  {
    if files != [] {
      RunAssigns(files[..|files| - 1], a[..|files| - 1], m, weights);
    }
  }

  lemma {:induction false} RunPrefix(files: seq<string>, a: seq<nat>, m: nat, weights: Weights, j: nat)
    requires LightestFirstRun(files, a, m, weights) && j <= |files|
    ensures LightestFirstRun(files[..j], a[..j], m, weights)
  {
    if j < |files| {
      var n := |files| - 1;
      RunPrefix(files[..n], a[..n], m, weights, j);
      assert files[..n][..j] == files[..j] && a[..n][..j] == a[..j];
    } else {
      assert files[..j] == files && a[..j] == a;
    }
  }

  // Extending the lightest bucket is greedy scheduling of the file weights.
  lemma RunIsGreedy(files: seq<string>, a: seq<nat>, m: nat, weights: Weights)
    requires LightestFirstRun(files, a, m, weights)
    ensures Greedy(WeightsOf(files, weights), a, m)
  {
    var p := WeightsOf(files, weights);
    RunAssigns(files, a, m, weights);
    forall j | 0 <= j < |p| ensures PlacedLeast(p, a, m, j) {
      RunPrefix(files, a, m, weights, j + 1);
      assert files[..j + 1][..j] == files[..j] && a[..j + 1][..j] == a[..j];
      var parts := Buckets(files[..j], a[..j], m);
      assert Lightest(parts, a[j], weights);
      assert WeightsOf(files[..j], weights) == p[..j];
      LoadIsPartitionWeight(files[..j], a[..j], a[j], weights);
      forall k: nat | k < m ensures Load(p[..j], a[..j], a[j]) <= Load(p[..j], a[..j], k) {
        LoadIsPartitionWeight(files[..j], a[..j], k, weights);
        assert !Lighter(parts[k], parts[a[j]], weights);
      }
    }
  }

  lemma {:induction false} AllFilesUpdate(parts: seq<seq<string>>, k: nat, files: seq<string>)
    requires k < |parts|
    ensures multiset(parts[k]) <= AllFiles(parts)
    ensures AllFiles(parts[k := files]) == AllFiles(parts) - multiset(parts[k]) + multiset(files)
  {
    var n := |parts| - 1;
    var updated := parts[k := files];
    if k < n {
      AllFilesUpdate(parts[..n], k, files);
      assert updated[..n] == parts[..n][k := files];
    } else {
      assert updated[..n] == parts[..n];
    }
    assert AllFiles(updated) == AllFiles(updated[..n]) + multiset(updated[n]);
  }

  lemma {:induction false} AllFilesOfEmpty(parts: seq<seq<string>>)
    requires forall k :: 0 <= k < |parts| ==> parts[k] == []
    ensures AllFiles(parts) == multiset{}
  {
    if parts != [] {
      AllFilesOfEmpty(parts[..|parts| - 1]);
    }
  }

  lemma BucketsStep(files: seq<string>, a: seq<nat>, m: nat)
    requires |files| == |a| > 0 && a[|a| - 1] < m
    ensures var n := |files| - 1;
            var before := Buckets(files[..n], a[..n], m);
            Buckets(files, a, m) == before[a[n] := before[a[n]] + [files[n]]]
  {
    var n := |files| - 1;
    var before := Buckets(files[..n], a[..n], m);
    var after := before[a[n] := before[a[n]] + [files[n]]];
    forall k | 0 <= k < m ensures Buckets(files, a, m)[k] == after[k] {
      assert FilesOf(files, a, k) == before[k] + if a[n] == k then [files[n]] else [];
    }
  }

  lemma AllFilesPush(parts: seq<seq<string>>, k: nat, file: string)
    requires k < |parts|
    ensures AllFiles(parts[k := parts[k] + [file]]) == AllFiles(parts) + multiset{file}
  {
    AllFilesUpdate(parts, k, parts[k] + [file]);
  }

  // Conservation: the buckets together hold exactly the placed files.
  lemma {:induction false} BucketsHoldAllFiles(files: seq<string>, a: seq<nat>, m: nat)
    requires |files| == |a| && forall i :: 0 <= i < |a| ==> a[i] < m
    ensures AllFiles(Buckets(files, a, m)) == multiset(files)
  {
    hide AllFiles;
    if files == [] {
      AllFilesOfEmpty(Buckets(files, a, m));
    } else {
      var n := |files| - 1;
      var before := Buckets(files[..n], a[..n], m);
      BucketsHoldAllFiles(files[..n], a[..n], m);
      BucketsStep(files, a, m);
      AllFilesPush(before, a[n], files[n]);
      assert files == files[..n] + [files[n]];
    }
  }

  lemma NoWeight(weights: Weights)
    ensures PartitionWeight([], weights) == 0.0
  {
  }

  lemma LastWeight(files: seq<string>, weights: Weights)
    requires files != []
    ensures var n := |files| - 1;
            PartitionWeight(files, weights) == PartitionWeight(files[..n], weights) + WeightOf(files[n], weights)
  {
  }

  lemma {:induction false} RemoveWeight(files: seq<string>, i: nat, weights: Weights)
    requires i < |files|
    ensures PartitionWeight(files, weights)
            == PartitionWeight(files[..i] + files[i + 1..], weights) + WeightOf(files[i], weights)
  {
    hide PartitionWeight, WeightOf;
    var n := |files| - 1;
    var rest := files[..i] + files[i + 1..];
    LastWeight(files, weights);
    if i < n {
      RemoveWeight(files[..n], i, weights);
      LastWeight(rest, weights);
      assert rest[..n - 1] == files[..n][..i] + files[..n][i + 1..] && rest[n - 1] == files[n];
    } else {
      assert rest == files[..n];
    }
  }

  lemma {:induction false} FileIsSomewhere(parts: seq<seq<string>>, file: string) returns (k: nat, i: nat)
    requires file in AllFiles(parts)
    ensures k < |parts| && i < |parts[k]| && parts[k][i] == file
  {
    var n := |parts| - 1;
    if file in AllFiles(parts[..n]) {
      k, i := FileIsSomewhere(parts[..n], file);
    } else {
      assert file in multiset(parts[n]);
      k := n;
      i :| 0 <= i < |parts[n]| && parts[n][i] == file;
    }
  }

  lemma AllFilesRemove(parts: seq<seq<string>>, k: nat, i: nat)
    requires k < |parts| && i < |parts[k]|
    ensures AllFiles(parts[k := parts[k][..i] + parts[k][i + 1..]]) + multiset{parts[k][i]} == AllFiles(parts)
  {
    hide AllFiles;
    AllFilesUpdate(parts, k, parts[k][..i] + parts[k][i + 1..]);
    WithoutMultiset(parts[k], i);
  }

  lemma CancelFile(x: multiset<string>, y: multiset<string>, file: string)
    requires x + multiset{file} == y + multiset{file}
    ensures x == y
  {
    assert x == x + multiset{file} - multiset{file};
  }

  // Any partition of the same files is an assignment of the sorted files with the same loads.
  lemma {:induction false} PartitionAsAssignment(files: seq<string>, parts: seq<seq<string>>, weights: Weights)
    returns (b: seq<nat>)
    requires AllFiles(parts) == multiset(files)
    ensures Assignment(WeightsOf(files, weights), b, |parts|)
    ensures forall k: nat :: k < |parts| ==>
              Load(WeightsOf(files, weights), b, k) == PartitionWeight(parts[k], weights)
    decreases |files|
  {
    if files == [] {
      b := [];
      forall k: nat | k < |parts| ensures parts[k] == [] {
        AllFilesUpdate(parts, k, []);
        assert |multiset(parts[k])| == |parts[k]|;
      }
    } else {
      var n := |files| - 1;
      assert files == files[..n] + [files[n]];
      assert files[n] in AllFiles(parts);
      var k, i := FileIsSomewhere(parts, files[n]);
      var rest := parts[k][..i] + parts[k][i + 1..];
      AllFilesRemove(parts, k, i);
      CancelFile(AllFiles(parts[k := rest]), multiset(files[..n]), files[n]);
      var init := PartitionAsAssignment(files[..n], parts[k := rest], weights);
      RemoveWeight(parts[k], i, weights);
      b := init + [k];
      forall l: nat | l < |parts|
        ensures Load(WeightsOf(files, weights), b, l) == PartitionWeight(parts[l], weights)
      {
        assert PartitionWeight(parts[k := rest][l], weights) == Load(WeightsOf(files[..n], weights), init, l);
        LoadPush(files, init, k, l, weights);
      }
    }
  }

  lemma LoadPush(files: seq<string>, init: seq<nat>, k: nat, l: nat, weights: Weights)
    requires |files| == |init| + 1
    ensures Load(WeightsOf(files, weights), init + [k], l)
            == Load(WeightsOf(files[..|init|], weights), init, l)
               + if k == l then WeightOf(files[|init|], weights) else 0.0
  {
    var n := |init|;
    assert WeightsOf(files, weights)[..n] == WeightsOf(files[..n], weights);
    assert (init + [k])[..n] == init;
  }

  lemma {:induction false} HeaviestIsMaximum(parts: seq<seq<string>>, weights: Weights)
    requires parts != []
    ensures forall k :: 0 <= k < |parts| ==> PartitionWeight(parts[k], weights) <= Heaviest(parts, weights)
    ensures exists k :: 0 <= k < |parts| && PartitionWeight(parts[k], weights) == Heaviest(parts, weights)
  {
    var n := |parts| - 1;
    assert PartitionWeight(parts[n], weights) <= Heaviest(parts, weights);
    if n > 0 {
      HeaviestIsMaximum(parts[..n], weights);
      var k :| 0 <= k < n && PartitionWeight(parts[..n][k], weights) == Heaviest(parts[..n], weights);
      assert PartitionWeight(parts[k], weights) == Heaviest(parts[..n], weights);
      forall k | 0 <= k < n ensures PartitionWeight(parts[k], weights) <= Heaviest(parts, weights) {
        assert parts[..n][k] == parts[k];
      }
    }
  }

  ghost predicate NonNegativeFiles(files: seq<string>, weights: Weights) {
    forall i :: 0 <= i < |files| ==> WeightOf(files[i], weights) >= 0.0
  }

  lemma WeightedNonNegative(files: seq<string>, weights: Weights)
    requires NonNegativeFiles(files, weights)
    ensures NonNegativeFiles(Weighted(files, weights), weights)
    ensures NonNegative(WeightsOf(Weighted(files, weights), weights))
  {
    var sorted := Weighted(files, weights);
    WeightedFacts(files, weights);
    forall i | 0 <= i < |sorted| ensures WeightOf(sorted[i], weights) >= 0.0 {
      assert sorted[i] in multiset(files);
    }
  }

  // Graham's bound for the weighted run: against every partition of the same files into m parts.
  lemma LongestFirstIsNearOptimal(files: seq<string>, a: seq<nat>, m: nat, weights: Weights, other: seq<seq<string>>)
    requires m > 0 && NonNegativeFiles(files, weights)
    requires LightestFirstRun(Weighted(files, weights), a, m, weights)
    requires |other| == m && AllFiles(other) == multiset(files)
    ensures WithinFourThirds(Heaviest(Buckets(Weighted(files, weights), a, m), weights), m, Heaviest(other, weights))
  {
    var sorted := Weighted(files, weights);
    WeightedFacts(files, weights);
    WeightedNonNegative(files, weights);
    RunIsGreedy(sorted, a, m, weights);
    HeaviestIsMaximum(Buckets(sorted, a, m), weights);
    var parts := Buckets(sorted, a, m);
    var k: nat :| k < m && PartitionWeight(parts[k], weights) == Heaviest(parts, weights);
    LoadIsPartitionWeight(sorted, a, k, weights);
    BoundAgainst(sorted, a, weights, other, k);
  }

  lemma BoundAgainst(sorted: seq<string>, a: seq<nat>, weights: Weights, other: seq<seq<string>>, k: nat)
    requires var p := WeightsOf(sorted, weights);
             NonNegative(p) && Descending(p) && Greedy(p, a, |other|)
    requires k < |other| && AllFiles(other) == multiset(sorted)
    ensures WithinFourThirds(Load(WeightsOf(sorted, weights), a, k), |other|, Heaviest(other, weights))
  {
    var b := PartitionAsAssignment(sorted, other, weights);
    HeaviestIsMaximum(other, weights);
    LongestFirstBound(WeightsOf(sorted, weights), a, b, |other|, Heaviest(other, weights), k);
  }

  // Number of partitions without a file.
  function EmptyCount(parts: seq<seq<string>>): nat {
    if parts == [] then 0 else EmptyCount(parts[..|parts| - 1]) + if parts[|parts| - 1] == [] then 1 else 0
  }

  lemma {:induction false} EmptyCountUpdate(parts: seq<seq<string>>, k: nat, files: seq<string>)
    requires k < |parts| && files != []
    ensures EmptyCount(parts[k := files]) == EmptyCount(parts) - if parts[k] == [] then 1 else 0
    ensures parts[k] == [] ==> EmptyCount(parts) > 0
  {
    var n := |parts| - 1;
    if k < n {
      EmptyCountUpdate(parts[..n], k, files);
      assert parts[k := files][..n] == parts[..n][k := files];
    } else {
      assert parts[k := files][..n] == parts[..n];
    }
  }

  lemma {:induction false} EmptyCountPositive(parts: seq<seq<string>>)
    ensures EmptyCount(parts) > 0 <==> [] in parts
    ensures EmptyCount(parts) <= |parts|
    ensures (forall k :: 0 <= k < |parts| ==> parts[k] == []) ==> EmptyCount(parts) == |parts|
  {
    if parts != [] {
      var n := |parts| - 1;
      EmptyCountPositive(parts[..n]);
      assert parts == parts[..n] + [parts[n]];
    }
  }

  lemma {:induction false} PartitionWeightNonNegative(files: seq<string>, weights: Weights)
    requires NonNegativeFiles(files, weights)
    ensures PartitionWeight(files, weights) >= 0.0
  {
    if files != [] {
      PartitionWeightNonNegative(files[..|files| - 1], weights);
    }
  }

  lemma {:induction false} FilesOfAreFiles(files: seq<string>, a: seq<nat>, k: nat, weights: Weights)
    requires |files| == |a| && NonNegativeFiles(files, weights)
    ensures NonNegativeFiles(FilesOf(files, a, k), weights)
  {
    if files != [] {
      FilesOfAreFiles(files[..|files| - 1], a[..|files| - 1], k, weights);
    }
  }

  // With non-negative weights the run fills an empty bucket as long as there is one.
  lemma {:induction false} EmptyBucketsFillFirst(files: seq<string>, a: seq<nat>, m: nat, weights: Weights)
    requires NonNegativeFiles(files, weights) && LightestFirstRun(files, a, m, weights)
    ensures EmptyCount(Buckets(files, a, m)) == if |files| < m then m - |files| else 0
  {
    if files == [] {
      EmptyCountPositive(Buckets(files, a, m));
    } else {
      var n := |files| - 1;
      var before := Buckets(files[..n], a[..n], m);
      EmptyBucketsFillFirst(files[..n], a[..n], m, weights);
      BucketsStep(files, a, m);
      EmptyCountUpdate(before, a[n], before[a[n]] + [files[n]]);
      EmptyCountPositive(before);
      FilesOfAreFiles(files[..n], a[..n], a[n], weights);
      PartitionWeightNonNegative(before[a[n]], weights);
      forall i | 0 <= i < m && before[i] == [] ensures before[a[n]] == [] {
        assert !Lighter(before[i], before[a[n]], weights);
      }
    }
  }

  function NonNegativeCount(files: seq<string>, weights: Weights): (n: nat)
    ensures n <= |files|
  {
    if files == [] then 0
    else NonNegativeCount(files[..|files| - 1], weights) + if WeightOf(files[|files| - 1], weights) >= 0.0 then 1 else 0
  }

  // Partitions a run leaves empty: files of non-negative weight take one each while there are any, the
  // first negative one takes at most one more, and the rest follow it.
  function EmptyLeft(files: seq<string>, weights: Weights, m: nat): nat {
    var n := NonNegativeCount(files, weights);
    if n >= m then 0 else if n < |files| then m - n - 1 else m - n
  }

  lemma {:induction false} AllCounted(files: seq<string>, weights: Weights)
    ensures NonNegativeCount(files, weights) == |files| <==> NonNegativeFiles(files, weights)
  {
    if files != [] {
      var n := |files| - 1;
      AllCounted(files[..n], weights);
      assert forall i :: 0 <= i < n ==> files[..n][i] == files[i];
    }
  }

  lemma {:induction false} CountWithout(files: seq<string>, weights: Weights, i: nat)
    requires i < |files|
    ensures NonNegativeCount(files, weights)
            == NonNegativeCount(Without(files, i), weights) + if WeightOf(files[i], weights) >= 0.0 then 1 else 0
  {
    var n := |files| - 1;
    if i < n {
      CountWithout(files[..n], weights, i);
      assert Without(files, i)[..n - 1] == Without(files[..n], i);
    } else {
      assert Without(files, i) == files[..n];
    }
  }

  lemma {:induction false} ReorderingKeepsCount(files: seq<string>, reordered: seq<string>, weights: Weights)
    requires multiset(files) == multiset(reordered)
    ensures NonNegativeCount(files, weights) == NonNegativeCount(reordered, weights)
    decreases |files|
  {
    SizeOfMultiset(files, reordered);
    if files != [] {
      var i := MatchLast(files, reordered);
      ReorderingKeepsCount(files[..|files| - 1], Without(reordered, i), weights);
      CountWithout(reordered, weights, i);
    }
  }

  ghost predicate SomeNegative(parts: seq<seq<string>>, weights: Weights) {
    exists k :: 0 <= k < |parts| && PartitionWeight(parts[k], weights) < 0.0
  }

  // Where the first file of negative weight goes: into an empty bucket if there is one.
  lemma FirstNegative(files: seq<string>, a: seq<nat>, m: nat, weights: Weights)
    requires files != [] && LightestFirstRun(files, a, m, weights)
    requires NonNegativeFiles(files[..|files| - 1], weights) && WeightOf(files[|files| - 1], weights) < 0.0
    ensures EmptyCount(Buckets(files, a, m)) == if |files| < m then m - |files| else 0
    ensures |files| <= m ==> SomeNegative(Buckets(files, a, m), weights)
  {
    hide EmptyCount, FilesOf, PartitionWeight, WeightOf;
    NoWeight(weights);
    var n := |files| - 1;
    var before := Buckets(files[..n], a[..n], m);
    EmptyBucketsFillFirst(files[..n], a[..n], m, weights);
    BucketsStep(files, a, m);
    EmptyCountUpdate(before, a[n], before[a[n]] + [files[n]]);
    EmptyCountPositive(before);
    FilesOfAreFiles(files[..n], a[..n], a[n], weights);
    PartitionWeightNonNegative(before[a[n]], weights);
    PartitionWeightPush(before[a[n]], files[n], weights);
    forall i | 0 <= i < m && before[i] == [] ensures before[a[n]] == [] {
      assert !Lighter(before[i], before[a[n]], weights);
    }
    if |files| <= m {
      assert PartitionWeight(Buckets(files, a, m)[a[n]], weights) < 0.0;
    }
  }

  // Every further one goes into a bucket that is not empty.
  lemma NextNegative(files: seq<string>, a: seq<nat>, m: nat, weights: Weights)
    requires files != [] && LightestFirstRun(files, a, m, weights) && WeightOf(files[|files| - 1], weights) < 0.0
    requires var before := Buckets(files[..|files| - 1], a[..|files| - 1], m);
             EmptyCount(before) == 0 || SomeNegative(before, weights)
    ensures EmptyCount(Buckets(files, a, m)) == EmptyCount(Buckets(files[..|files| - 1], a[..|files| - 1], m))
    ensures SomeNegative(Buckets(files[..|files| - 1], a[..|files| - 1], m), weights) ==>
              SomeNegative(Buckets(files, a, m), weights)
  {
    hide EmptyCount, FilesOf, PartitionWeight, WeightOf;
    NoWeight(weights);
    var n := |files| - 1;
    var before := Buckets(files[..n], a[..n], m);
    BucketsStep(files, a, m);
    EmptyCountUpdate(before, a[n], before[a[n]] + [files[n]]);
    PartitionWeightPush(before[a[n]], files[n], weights);
    if k :| 0 <= k < m && PartitionWeight(before[k], weights) < 0.0 {
      assert !Lighter(before[k], before[a[n]], weights);
      assert PartitionWeight(Buckets(files, a, m)[a[n]], weights) < 0.0;
    }
  }

  lemma {:induction false} RunLeavesEmpty(files: seq<string>, a: seq<nat>, m: nat, weights: Weights)
    requires LightestFirstRun(files, a, m, weights) && Descending(WeightsOf(files, weights))
    ensures EmptyCount(Buckets(files, a, m)) == EmptyLeft(files, weights, m)
    ensures NonNegativeCount(files, weights) < m && NonNegativeCount(files, weights) < |files| ==>
              SomeNegative(Buckets(files, a, m), weights)
  {
    AllCounted(files, weights);
    if NonNegativeFiles(files, weights) {
      EmptyBucketsFillFirst(files, a, m, weights);
    } else {
      var n := |files| - 1;
      LastIsNegative(files, weights);
      AllCounted(files[..n], weights);
      if NonNegativeFiles(files[..n], weights) {
        FirstNegative(files, a, m, weights);
      } else {
        assert WeightsOf(files[..n], weights) == WeightsOf(files, weights)[..n];
        RunLeavesEmpty(files[..n], a[..n], m, weights);
        NextNegative(files, a, m, weights);
      }
    }
  }

  lemma LastIsNegative(files: seq<string>, weights: Weights)
    requires Descending(WeightsOf(files, weights)) && !NonNegativeFiles(files, weights)
    ensures WeightOf(files[|files| - 1], weights) < 0.0
  {
    var i :| 0 <= i < |files| && WeightOf(files[i], weights) < 0.0;
    assert i < |files| - 1 ==> WeightsOf(files, weights)[i] >= WeightsOf(files, weights)[|files| - 1];
  }

  // No partition stays empty exactly when there are enough files and at most one partition has to do
  // without a file of non-negative weight.
  lemma NoneEmptyIff(files: seq<string>, a: seq<nat>, m: nat, weights: Weights)
    requires m > 0 && LightestFirstRun(Weighted(files, weights), a, m, weights)
    ensures EmptyCount(Buckets(Weighted(files, weights), a, m)) == EmptyLeft(files, weights, m)
    ensures EmptyCount(Buckets(Weighted(files, weights), a, m)) == 0
            <==> |files| >= m && NonNegativeCount(files, weights) >= m - 1
  {
    WeightedFacts(files, weights);
    RunLeavesEmpty(Weighted(files, weights), a, m, weights);
    ReorderingKeepsCount(Weighted(files, weights), files, weights);
  }

  // Two files of equal weight sort by name.
  lemma PairInOrder(weights: Weights)
    requires WeightOf("a", weights) == WeightOf("b", weights)
    ensures Weighted(["a", "b"], weights) == ["a", "b"]
  {
    assert ["a", "b"][..1] == ["a"] && ["a"][..0] == [];
    assert SortBy(["a"], HeavierFirst(weights)) == ["a"];
    assert StringLeq("a", "b");
  }

  // The first file goes to the first bucket, which then is the lighter one.
  lemma PairShares(weights: Weights)
    requires weights == map["a" := -1.0, "b" := -1.0]
    ensures LightestFirstRun(["a", "b"], [0, 0], 2, weights)
  {
    var files, a := ["a", "b"], [0, 0];
    assert files[..1] == ["a"] && a[..1] == [0];
    assert ["a"][..0] == [] && [0 as nat][..0] == [];
    assert Buckets([], [], 2) == [[], []];
    assert LightestFirstRun(["a"], [0], 2, weights);
    assert FilesOf(["a"], [0], 0) == ["a"] && FilesOf(["a"], [0], 1) == [];
    assert Buckets(["a"], [0], 2) == [["a"], []];
    assert PartitionWeight(["a"], weights) == -1.0;
  }

  // Concretely: two negative durations share a partition and leave the other empty, in every run.
  lemma NegativeWeightsLeaveEmptyPartition()
    ensures var weights := map["a" := -1.0, "b" := -1.0];
            && LightestFirstRun(["a", "b"], [0, 0], 2, weights)
            && Weighted(["a", "b"], weights) == ["a", "b"]
            && EmptyCount(Buckets(["a", "b"], [0, 0], 2)) == 1
    ensures var weights := map["a" := -1.0, "b" := -1.0];
            forall a :: LightestFirstRun(["a", "b"], a, 2, weights) ==> EmptyCount(Buckets(["a", "b"], a, 2)) == 1
  {
    hide EmptyCount, Buckets;
    var weights, files := map["a" := -1.0, "b" := -1.0], ["a", "b"];
    PairInOrder(weights);
    PairShares(weights);
    assert files[..1][..0] == [];
    assert NonNegativeCount(files, weights) == NonNegativeCount(files[..1], weights) == 0;
    forall a | LightestFirstRun(files, a, 2, weights) ensures EmptyCount(Buckets(files, a, 2)) == 1 {
      NoneEmptyIff(files, a, 2, weights);
    }
  }

  // A bucket as the scheduler compares it.
  datatype Key = Key(sum: real, count: nat)

  predicate KeyLess(x: Key, y: Key) {
    x.sum < y.sum || (x.sum == y.sum && x.count < y.count)
  }

  function KeyOf(files: seq<string>, weights: Weights): Key {
    Key(PartitionWeight(files, weights), |files|)
  }

  function KeysOf(parts: seq<seq<string>>, weights: Weights): (keys: seq<Key>)
    ensures |keys| == |parts|
  {
    seq(|parts|, k requires 0 <= k < |parts| => KeyOf(parts[k], weights))
  }

  // First position of a least key, by a linear scan.
  function ScanLeast(keys: seq<Key>): (k: nat)
    requires keys != []
    ensures k < |keys|
    ensures forall i :: 0 <= i < |keys| ==> !KeyLess(keys[i], keys[k])
  {
    if |keys| == 1 then 0
    else
      var init := keys[..|keys| - 1];
      var k := ScanLeast(init);
      assert forall i :: 0 <= i < |init| ==> init[i] == keys[i];
      if KeyLess(keys[|keys| - 1], keys[k]) then |keys| - 1 else k
  }

  // Bucket k receives one more file of the given weight.
  function Bump(keys: seq<Key>, k: nat, weight: real): (r: seq<Key>)
    requires k < |keys|
    ensures |r| == |keys|
  {
    keys[k := Key(keys[k].sum + weight, keys[k].count + 1)]
  }

  // The scheduler without a heap: scan all buckets for the lightest, for every file.
  function NaiveKeys(files: seq<string>, m: nat, weights: Weights): (keys: seq<Key>)
    requires m > 0
    ensures |keys| == m
  {
    if files == [] then seq(m, k => Key(0.0, 0))
    else
      var keys := NaiveKeys(files[..|files| - 1], m, weights);
      var k := ScanLeast(keys);
      Bump(keys, k, WeightOf(files[|files| - 1], weights))
  }

  lemma KeysStep(files: seq<string>, a: seq<nat>, m: nat, weights: Weights)
    requires |files| == |a| > 0 && a[|a| - 1] < m
    ensures var n := |files| - 1;
            var keys := KeysOf(Buckets(files[..n], a[..n], m), weights);
            KeysOf(Buckets(files, a, m), weights) == Bump(keys, a[n], WeightOf(files[n], weights))
  {
    var n := |files| - 1;
    BucketsStep(files, a, m);
    PartitionWeightPush(Buckets(files[..n], a[..n], m)[a[n]], files[n], weights);
  }

  // However ties are broken, the run's (weight, count) pairs are those of the naive scan.
  lemma {:induction false} RunMatchesNaiveScan(files: seq<string>, a: seq<nat>, m: nat, weights: Weights)
    requires m > 0 && LightestFirstRun(files, a, m, weights)
    ensures multiset(KeysOf(Buckets(files, a, m), weights)) == multiset(NaiveKeys(files, m, weights))
  {
    if files == [] {
      assert KeysOf(Buckets(files, a, m), weights) == NaiveKeys(files, m, weights);
    } else {
      var n := |files| - 1;
      var before := Buckets(files[..n], a[..n], m);
      var s, t := KeysOf(before, weights), NaiveKeys(files[..n], m, weights);
      RunMatchesNaiveScan(files[..n], a[..n], m, weights);
      var j, k := a[n], ScanLeast(t);
      LightestIsLeast(before, j, weights);
      KeysStep(files, a, m, weights);
      BumpLeastAgrees(s, t, j, k, WeightOf(files[n], weights));
    }
  }

  lemma BumpLeastAgrees(s: seq<Key>, t: seq<Key>, j: nat, k: nat, weight: real)
    requires multiset(s) == multiset(t) && j < |s| && k < |t|
    requires forall i :: 0 <= i < |s| ==> !KeyLess(s[i], s[j])
    requires forall i :: 0 <= i < |t| ==> !KeyLess(t[i], t[k])
    ensures multiset(Bump(s, j, weight)) == multiset(Bump(t, k, weight))
  {
    LeastKeysAgree(s, t, j, k);
    UpdateMultiset(s, j, Key(s[j].sum + weight, s[j].count + 1));
    UpdateMultiset(t, k, Key(s[j].sum + weight, s[j].count + 1));
  }

  lemma LightestIsLeast(parts: seq<seq<string>>, j: nat, weights: Weights)
    requires Lightest(parts, j, weights)
    ensures forall i :: 0 <= i < |parts| ==> !KeyLess(KeysOf(parts, weights)[i], KeysOf(parts, weights)[j])
  {
    forall i | 0 <= i < |parts| ensures !KeyLess(KeysOf(parts, weights)[i], KeysOf(parts, weights)[j]) {
      assert !Lighter(parts[i], parts[j], weights);
    }
  }

  lemma LeastKeysAgree(s: seq<Key>, t: seq<Key>, j: nat, k: nat)
    requires multiset(s) == multiset(t) && j < |s| && k < |t|
    requires forall i :: 0 <= i < |s| ==> !KeyLess(s[i], s[j])
    requires forall i :: 0 <= i < |t| ==> !KeyLess(t[i], t[k])
    ensures s[j] == t[k]
  {
    assert s[j] in multiset(t) && t[k] in multiset(s);
    var i :| 0 <= i < |t| && t[i] == s[j];
    var l :| 0 <= l < |s| && s[l] == t[k];
    assert !KeyLess(t[i], t[k]) && !KeyLess(s[l], s[j]);
  }

  lemma UpdateMultiset(s: seq<Key>, i: nat, x: Key)
    requires i < |s|
    ensures multiset(s[i := x]) == multiset(s) - multiset{s[i]} + multiset{x}
  {
  }
}
