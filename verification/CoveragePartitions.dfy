/**
 The coverage scheduler itself: buckets updated in place and a binary min-heap of
 bucket indices, proved against the runs of `Partitions`.
 */
module CoveragePartitions {
  import opened Wrappers
  import opened ListScheduling
  import opened Partitions
  import opened Sorting

  class Bucket {
    var sum: real
    var files: seq<string>

    constructor ()
      ensures sum == 0.0 && files == []
    {
      sum, files := 0.0, [];
    }
  }

  // The bucket at a heap position, or null when the position is absent.
  function BucketAt(buckets: array<Bucket>, heap: array<nat>, index: nat): Bucket?
    reads buckets, heap
  {
    if index < heap.Length && heap[index] < buckets.Length then buckets[heap[index]] else null
  }

  predicate BucketLess(left: Bucket?, right: Bucket?)
    reads left, right
  {
    if left == null || right == null then left != null
    else if left.sum != right.sum then left.sum < right.sum
    else |left.files| < |right.files|
  }

  function KeyIn(bucket: Bucket): Key
    reads bucket
  {
    Key(bucket.sum, |bucket.files|)
  }

  lemma BucketLessIsKeyLess(left: Bucket, right: Bucket)
    ensures BucketLess(left, right) <==> KeyLess(KeyIn(left), KeyIn(right))
  {
  }

  // `keys` lists the sum and file count of every bucket.
  ghost predicate Keyed(buckets: array<Bucket>, keys: seq<Key>)
    reads buckets, set k | 0 <= k < buckets.Length :: buckets[k]
  {
    buckets.Length == |keys| && forall k :: 0 <= k < buckets.Length ==> KeyIn(buckets[k]) == keys[k]
  }

  ghost predicate IsPermutation(h: seq<nat>) {
    && (forall i :: 0 <= i < |h| ==> h[i] < |h|)
    && (forall i, j :: 0 <= i < j < |h| ==> h[i] != h[j])
    && (forall k :: 0 <= k < |h| ==> Occurs(h, k))
  }

  ghost predicate Occurs(h: seq<nat>, k: int) {
    exists i :: 0 <= i < |h| && h[i] == k
  }

  function Parent(i: int): int {
    (i - 1) / 2
  }

  // The entry at position i is not less than its parent's.
  ghost predicate AboveParent(h: seq<nat>, keys: seq<Key>, i: int)
    requires IsPermutation(h) && |keys| == |h| && 0 < i < |h|
  {
    !KeyLess(keys[h[i]], keys[h[Parent(i)]])
  }

  ghost predicate HeapOrdered(h: seq<nat>, keys: seq<Key>)
    requires IsPermutation(h) && |keys| == |h|
  {
    forall i :: 0 < i < |h| ==> AboveParent(h, keys, i)
  }

  // Heap order everywhere except between the hole and its children, which still respect the hole's parent.
  ghost predicate HeapExcept(h: seq<nat>, keys: seq<Key>, hole: nat)
    requires IsPermutation(h) && |keys| == |h|
  {
    && (forall i :: 0 < i < |h| && Parent(i) != hole ==> AboveParent(h, keys, i))
    && (forall i :: 0 < i < |h| && 0 < hole < |h| && Parent(i) == hole ==> !KeyLess(keys[h[i]], keys[h[Parent(hole)]]))
  }

  // The root of an ordered heap is a least bucket.
  lemma {:induction false} RootIsLeast(h: seq<nat>, keys: seq<Key>, i: nat)
    requires IsPermutation(h) && |keys| == |h| && HeapOrdered(h, keys) && i < |h|
    ensures !KeyLess(keys[h[i]], keys[h[0]])
  {
    if i > 0 {
      RootIsLeast(h, keys, Parent(i));
      assert AboveParent(h, keys, i);
    }
  }

  function Swapped(h: seq<nat>, i: nat, j: nat): (r: seq<nat>)
    requires i < |h| && j < |h|
    ensures |r| == |h|
  {
    h[i := h[j]][j := h[i]]
  }

  lemma SwapPermutes(h: seq<nat>, i: nat, j: nat)
    requires IsPermutation(h) && i < |h| && j < |h|
    ensures IsPermutation(Swapped(h, i, j))
    ensures multiset(Swapped(h, i, j)) == multiset(h)
  {
    var r := Swapped(h, i, j);
    forall k | 0 <= k < |r| ensures Occurs(r, k) {
      assert Occurs(h, k);
      var l :| 0 <= l < |h| && h[l] == k;
      assert r[if l == i then j else if l == j then i else l] == k;
    }
  }

  // One step down: the smaller child takes the hole's place.
  lemma SwapMovesHole(h: seq<nat>, keys: seq<Key>, hole: nat, child: nat)
    requires IsPermutation(h) && |keys| == |h| && HeapExcept(h, keys, hole)
    requires 0 < child < |h| && Parent(child) == hole && KeyLess(keys[h[child]], keys[h[hole]])
    requires forall i :: 0 < i < |h| && Parent(i) == hole ==> !KeyLess(keys[h[i]], keys[h[child]])
    ensures IsPermutation(Swapped(h, hole, child))
    ensures HeapExcept(Swapped(h, hole, child), keys, child)
  {
    SwapPermutes(h, hole, child);
    var r := Swapped(h, hole, child);
    forall i | 0 < i < |r| && Parent(i) != child
      ensures AboveParent(r, keys, i)
    {
      if Parent(i) != hole {
        assert AboveParent(h, keys, i);
      }
    }
    forall i | 0 < i < |r| && Parent(i) == child
      ensures !KeyLess(keys[r[i]], keys[r[Parent(child)]])
    {
      assert AboveParent(h, keys, i);
    }
  }

  // Position `smallest` holds a least key among a position and its children, and is the position itself on ties.
  ghost predicate IsSmallestAround(h: seq<nat>, keys: seq<Key>, index: nat, smallest: nat)
    requires IsPermutation(h) && |keys| == |h|
  {
    && index < |h| && smallest < |h|
    && (2 * index + 1 < |h| ==> !KeyLess(keys[h[2 * index + 1]], keys[h[smallest]]))
    && (2 * index + 2 < |h| ==> !KeyLess(keys[h[2 * index + 2]], keys[h[smallest]]))
    && (smallest != index ==>
          (smallest == 2 * index + 1 || smallest == 2 * index + 2) && KeyLess(keys[h[smallest]], keys[h[index]]))
  }

  // A round of sifting either closes the hole or moves it down.
  lemma SiftRound(h: seq<nat>, keys: seq<Key>, index: nat, smallest: nat)
    requires IsPermutation(h) && |keys| == |h| && HeapExcept(h, keys, index)
    requires IsSmallestAround(h, keys, index, smallest)
    ensures smallest == index ==> HeapOrdered(h, keys)
    ensures smallest != index ==>
              && smallest > index && IsPermutation(Swapped(h, index, smallest))
              && multiset(Swapped(h, index, smallest)) == multiset(h)
              && HeapExcept(Swapped(h, index, smallest), keys, smallest)
  {
    forall i | 0 < i < |h| && Parent(i) == index ensures !KeyLess(keys[h[i]], keys[h[smallest]]) {
      assert i == 2 * index + 1 || i == 2 * index + 2;
    }
    if smallest == index {
      forall i | 0 < i < |h| ensures AboveParent(h, keys, i) {
      }
    } else {
      SwapMovesHole(h, keys, index, smallest);
      SwapPermutes(h, index, smallest);
    }
  }

  // The least of a position and its children, preferring the position, then the left child.
  method SmallestAround(
    buckets: array<Bucket>, heap: array<nat>, index: nat, ghost keys: seq<Key>)
    returns (smallest: nat)
    requires Keyed(buckets, keys) && buckets.Length == heap.Length && index < heap.Length && IsPermutation(heap[..])
    ensures IsSmallestAround(heap[..], keys, index, smallest)
  {
    hide BucketLess;
    var size := heap.Length;
    var left, right := 2 * index + 1, 2 * index + 2;
    smallest := index;
    var smallestBucket := BucketAt(buckets, heap, index);
    var leftBucket := if left < size then BucketAt(buckets, heap, left) else null;
    var rightBucket := if right < size then BucketAt(buckets, heap, right) else null;
    if leftBucket != null && smallestBucket != null {
      BucketLessIsKeyLess(leftBucket, smallestBucket);
    }
    if leftBucket != null && smallestBucket != null && BucketLess(leftBucket, smallestBucket) {
      smallest := left;
      smallestBucket := leftBucket;
    }
    if rightBucket != null && smallestBucket != null {
      BucketLessIsKeyLess(rightBucket, smallestBucket);
    }
    if rightBucket != null && smallestBucket != null && BucketLess(rightBucket, smallestBucket) {
      smallest := right;
    }
  }

  // Restores heap order after the bucket at position `start` grew; only the heap is rearranged.
  method SiftDown(buckets: array<Bucket>, heap: array<nat>, start: nat, ghost keys: seq<Key>)
    requires Keyed(buckets, keys) && buckets.Length == heap.Length && start < heap.Length
    requires IsPermutation(heap[..]) && HeapExcept(heap[..], keys, start)
    modifies heap
    ensures IsPermutation(heap[..]) && HeapOrdered(heap[..], keys)
    ensures multiset(heap[..]) == multiset(old(heap[..]))
  {
    hide HeapExcept, HeapOrdered, IsPermutation;
    var index := start;
    while true
      invariant index < heap.Length && Keyed(buckets, keys)
      invariant IsPermutation(heap[..]) && HeapExcept(heap[..], keys, index)
      invariant multiset(heap[..]) == multiset(old(heap[..]))
      decreases heap.Length - index
    {
      var smallest := SmallestAround(buckets, heap, index, keys);
      ghost var h := heap[..];
      SiftRound(h, keys, index, smallest);
      if smallest == index {
        return;
      }
      heap[index], heap[smallest] := heap[smallest], heap[index];
      assert heap[..] == Swapped(h, index, smallest);
      index := smallest;
    }
  }

  // The buckets hold exactly the run's file lists and their weights.
  ghost predicate Represents(buckets: array<Bucket>, parts: seq<seq<string>>, weights: Weights)
    reads buckets, set k | 0 <= k < buckets.Length :: buckets[k]
  {
    && buckets.Length == |parts|
    && (forall i, j :: 0 <= i < j < buckets.Length ==> buckets[i] != buckets[j])
    && (forall k :: 0 <= k < buckets.Length ==>
          buckets[k].files == parts[k] && buckets[k].sum == PartitionWeight(parts[k], weights))
  }

  lemma RepresentsKeys(buckets: array<Bucket>, parts: seq<seq<string>>, weights: Weights)
    requires Represents(buckets, parts, weights)
    ensures Keyed(buckets, KeysOf(parts, weights))
  {
  }

  // The bucket index at the root of an ordered heap is a lightest bucket.
  lemma RootIsLightest(h: seq<nat>, parts: seq<seq<string>>, weights: Weights)
    requires IsPermutation(h) && |h| == |parts| > 0 && HeapOrdered(h, KeysOf(parts, weights))
    ensures Lightest(parts, h[0], weights)
  {
    var keys := KeysOf(parts, weights);
    forall i | 0 <= i < |parts| ensures !Lighter(parts[i], parts[h[0]], weights) {
      assert Occurs(h, i);
      var j: nat :| j < |h| && h[j] == i;
      RootIsLeast(h, keys, j);
    }
  }

  // A bucket of equal or greater key at the root leaves the rest of the heap in order.
  lemma GrownRootIsOnlyHole(h: seq<nat>, keys: seq<Key>, grown: seq<Key>)
    requires IsPermutation(h) && |keys| == |h| == |grown| && h != [] && HeapOrdered(h, keys)
    requires forall k :: 0 <= k < |keys| && k != h[0] ==> grown[k] == keys[k]
    ensures HeapExcept(h, grown, 0)
  {
    forall i | 0 < i < |h| && Parent(i) != 0 ensures AboveParent(h, grown, i) {
      assert AboveParent(h, keys, i);
    }
  }

  lemma RunExtends(files: seq<string>, a: seq<nat>, m: nat, weights: Weights, n: nat, top: nat)
    requires n < |files| && LightestFirstRun(files[..n], a, m, weights) && top < m
    requires Lightest(Buckets(files[..n], a, m), top, weights)
    ensures LightestFirstRun(files[..n + 1], a + [top], m, weights)
    ensures var parts := Buckets(files[..n], a, m);
            Buckets(files[..n + 1], a + [top], m) == parts[top := parts[top] + [files[n]]]
  {
    var fs, b := files[..n + 1], a + [top];
    assert fs[..n] == files[..n] && b[..n] == a;
    BucketsStep(fs, b, m);
  }

  // Places one file in the bucket at the heap's root.
  method Place(
    buckets: array<Bucket>, heap: array<nat>, file: string, weight: real, ghost parts: seq<seq<string>>,
    ghost weights: Weights)
    returns (ghost top: nat)
    requires heap.Length == buckets.Length > 0 && Represents(buckets, parts, weights)
    requires weight == WeightOf(file, weights)
    requires IsPermutation(heap[..]) && HeapOrdered(heap[..], KeysOf(parts, weights))
    modifies heap, set k | 0 <= k < buckets.Length :: buckets[k]
    ensures top == old(heap[0]) && Lightest(parts, top, weights)
    ensures Represents(buckets, parts[top := parts[top] + [file]], weights)
    ensures IsPermutation(heap[..]) && HeapOrdered(heap[..], KeysOf(parts[top := parts[top] + [file]], weights))
  {
    top := heap[0];
    RootIsLightest(heap[..], parts, weights);
    ghost var grown := parts[top := parts[top] + [file]];
    PartitionWeightPush(parts[top], file, weights);
    var bucket := buckets[heap[0]];
    bucket.sum := bucket.sum + weight;
    bucket.files := bucket.files + [file];
    assert Represents(buckets, grown, weights);
    RepresentsKeys(buckets, grown, weights);
    GrownRootIsOnlyHole(heap[..], KeysOf(parts, weights), KeysOf(grown, weights));
    SiftDown(buckets, heap, 0, KeysOf(grown, weights));
  }

  // The parts are the buckets of a lightest-first run over the files in descending weight.
  ghost predicate IsLongestFirst(files: seq<string>, weights: Weights, m: nat, parts: seq<seq<string>>) {
    var sorted := Weighted(files, weights);
    exists a :: LightestFirstRun(sorted, a, m, weights) && parts == Buckets(sorted, a, m)
  }

  // Longest processing time first over an in-place heap. The result is a lightest-first run of the
  // files in descending weight; ties between equal buckets are the heap's own.
  method AssignWeightedPartitions(files: seq<string>, weights: Weights, partitions: nat)
    returns (r: Result<seq<seq<string>>, string>)
    ensures r.Err? <==> files != [] && partitions == 0
    ensures r.Ok? ==> IsLongestFirst(files, weights, partitions, r.value)
  {
    if files == [] {
      ghost var none: seq<nat> := [];
      assert LightestFirstRun(Weighted(files, weights), none, partitions, weights);
      var empty := seq(partitions, _ => []);
      assert empty == Buckets(Weighted(files, weights), none, partitions);
      return Ok(empty);
    }
    var weighted := Weighted(files, weights);
    WeightedFacts(files, weights);
    if partitions == 0 {
      return Err("coverage partitions: partition heap index is out of bounds.");
    }
    var buckets := NewBuckets(partitions, weights);
    var heap := InitialHeap(buckets, weights);
    ghost var a := PlaceAll(buckets, heap, weighted, weights);
    var result := FileLists(buckets);
    assert result == Buckets(weighted, a, partitions);
    return Ok(result);
  }

  // The placement loop.
  method PlaceAll(buckets: array<Bucket>, heap: array<nat>, weighted: seq<string>, weights: Weights)
    returns (ghost a: seq<nat>)
    requires heap.Length == buckets.Length > 0 && Represents(buckets, Buckets([], [], buckets.Length), weights)
    requires IsPermutation(heap[..]) && HeapOrdered(heap[..], KeysOf(Buckets([], [], buckets.Length), weights))
    modifies heap, set k | 0 <= k < buckets.Length :: buckets[k]
    ensures LightestFirstRun(weighted, a, buckets.Length, weights)
    ensures Represents(buckets, Buckets(weighted, a, buckets.Length), weights)
    ensures IsPermutation(heap[..]) && HeapOrdered(heap[..], KeysOf(Buckets(weighted, a, buckets.Length), weights))
  {
    a := [];
    for n := 0 to |weighted|
      invariant LightestFirstRun(weighted[..n], a, buckets.Length, weights)
      invariant Represents(buckets, Buckets(weighted[..n], a, buckets.Length), weights)
      invariant IsPermutation(heap[..])
      invariant HeapOrdered(heap[..], KeysOf(Buckets(weighted[..n], a, buckets.Length), weights))
    {
      ghost var parts := Buckets(weighted[..n], a, buckets.Length);
      ghost var top := Place(buckets, heap, weighted[n], WeightOf(weighted[n], weights), parts, weights);
      RunExtends(weighted, a, buckets.Length, weights, n, top);
      a := a + [top];
    }
    assert weighted[..|weighted|] == weighted;
  }

  method NewBuckets(partitions: nat, ghost weights: Weights) returns (buckets: array<Bucket>)
    ensures fresh(buckets) && forall k :: 0 <= k < buckets.Length ==> fresh(buckets[k])
    ensures Represents(buckets, Buckets([], [], partitions), weights)
  {
    var first := new Bucket();
    buckets := new Bucket[partitions](_ => first);
    for n := 0 to partitions
      invariant forall k :: 0 <= k < n ==> fresh(buckets[k]) && buckets[k].files == [] && buckets[k].sum == 0.0
      invariant forall k :: 0 <= k < buckets.Length ==> fresh(buckets[k])
      invariant forall i, j :: 0 <= i < j < n ==> buckets[i] != buckets[j]
    {
      var bucket := new Bucket();
      buckets[n] := bucket;
    }
  }

  // The bucket indices in order are a heap while all buckets are empty.
  method InitialHeap(buckets: array<Bucket>, ghost weights: Weights) returns (heap: array<nat>)
    ensures fresh(heap) && heap.Length == buckets.Length
    ensures IsPermutation(heap[..]) && HeapOrdered(heap[..], KeysOf(Buckets([], [], buckets.Length), weights))
  {
    heap := new nat[buckets.Length](i => i);
    forall k | 0 <= k < heap.Length ensures Occurs(heap[..], k) {
      assert heap[..][k] == k;
    }
  }

  method FileLists(buckets: array<Bucket>) returns (lists: seq<seq<string>>)
    ensures |lists| == buckets.Length
    ensures forall k :: 0 <= k < buckets.Length ==> lists[k] == buckets[k].files
  {
    lists := [];
    for n := 0 to buckets.Length
      invariant |lists| == n && forall k :: 0 <= k < n ==> lists[k] == buckets[k].files
    {
      lists := lists + [buckets[n].files];
    }
  }

  // Partitions, heaviest first.
  function HeavierPartitionFirst(weights: Weights): (seq<string>, seq<string>) -> bool {
    (x, y) => PartitionWeight(x, weights) >= PartitionWeight(y, weights)
  }

  // What the coordinator may rely on, whatever the heap did with ties.
  ghost predicate SoundAssignment(files: seq<string>, weights: Weights, m: nat, parts: seq<seq<string>>) {
    && |parts| == m
    && AllFiles(parts) == multiset(files)
    && (m > 0 ==> multiset(KeysOf(parts, weights)) == multiset(NaiveKeys(Weighted(files, weights), m, weights)))
    && EmptyCount(parts) == EmptyLeft(files, weights, m)
  }

  lemma LongestFirstIsSound(files: seq<string>, weights: Weights, m: nat, parts: seq<seq<string>>)
    requires (m > 0 || files == []) && IsLongestFirst(files, weights, m, parts)
    ensures SoundAssignment(files, weights, m, parts)
  {
    var sorted := Weighted(files, weights);
    var a :| LightestFirstRun(sorted, a, m, weights) && parts == Buckets(sorted, a, m);
    WeightedFacts(files, weights);
    RunAssigns(sorted, a, m, weights);
    BucketsHoldAllFiles(sorted, a, m);
    if m > 0 {
      RunMatchesNaiveScan(sorted, a, m, weights);
    }
    RunLeavesEmpty(sorted, a, m, weights);
    ReorderingKeepsCount(sorted, files, weights);
  }

  lemma LongestFirstBeats(
    files: seq<string>, weights: Weights, m: nat, parts: seq<seq<string>>, other: seq<seq<string>>)
    requires m > 0 && IsLongestFirst(files, weights, m, parts) && NonNegativeFiles(files, weights)
    requires |other| == m && AllFiles(other) == multiset(files)
    ensures WithinFourThirds(Heaviest(parts, weights), m, Heaviest(other, weights))
  {
    var sorted := Weighted(files, weights);
    var a :| LightestFirstRun(sorted, a, m, weights) && parts == Buckets(sorted, a, m);
    LongestFirstIsNearOptimal(files, a, m, weights, other);
  }

  // The partition with the most work comes first, so that it starts earliest.
  ghost predicate HeaviestFirst(parts: seq<seq<string>>, weights: Weights) {
    && (forall i, j :: 0 <= i < j < |parts| ==>
          PartitionWeight(parts[i], weights) >= PartitionWeight(parts[j], weights))
    && (parts != [] ==> Heaviest(parts, weights) == PartitionWeight(parts[0], weights))
  }

  lemma SortedHeaviestFirst(parts: seq<seq<string>>, weights: Weights)
    requires SortedBy(parts, HeavierPartitionFirst(weights))
    ensures HeaviestFirst(parts, weights)
  {
    if parts != [] {
      HeaviestIsMaximum(parts, weights);
    }
  }

  // The file lists of a whole coverage run, heaviest partition first.
  method AssignFiles(files: seq<string>, weights: Weights, partitions: nat)
    returns (parts: seq<seq<string>>)
    requires partitions > 0
    ensures SoundAssignment(files, weights, partitions, parts)
    ensures HeaviestFirst(parts, weights)
    ensures NonNegativeFiles(files, weights) ==>
              forall other :: |other| == partitions && AllFiles(other) == multiset(files) ==>
                WithinFourThirds(Heaviest(parts, weights), partitions, Heaviest(other, weights))
  {
    var outcome := AssignWeightedPartitions(files, weights, partitions);
    var buckets := outcome.value;
    LongestFirstIsSound(files, weights, partitions, buckets);
    parts := SortBy(buckets, HeavierPartitionFirst(weights));
    SortByCorrect(buckets, HeavierPartitionFirst(weights));
    SortedHeaviestFirst(parts, weights);
    ReorderingIsSound(files, weights, partitions, buckets, parts);
    if NonNegativeFiles(files, weights) {
      forall other | |other| == partitions && AllFiles(other) == multiset(files)
        ensures WithinFourThirds(Heaviest(parts, weights), partitions, Heaviest(other, weights))
      {
        LongestFirstBeats(files, weights, partitions, buckets, other);
        ReorderingKeepsHeaviest(buckets, parts, weights);
      }
    }
  }

  lemma ReorderingIsSound(
    files: seq<string>, weights: Weights, m: nat, parts: seq<seq<string>>, reordered: seq<seq<string>>)
    requires multiset(parts) == multiset(reordered) && SoundAssignment(files, weights, m, parts)
    ensures SoundAssignment(files, weights, m, reordered)
  {
    SizeOfMultiset(parts, reordered);
    ReorderingKeepsSums(parts, reordered, weights);
  }

  lemma ReorderingKeepsHeaviest(parts: seq<seq<string>>, reordered: seq<seq<string>>, weights: Weights)
    requires parts != [] && multiset(parts) == multiset(reordered)
    ensures reordered != [] && Heaviest(reordered, weights) == Heaviest(parts, weights)
  {
    SizeOfMultiset(parts, reordered);
    HeaviestIsMaximum(parts, weights);
    HeaviestIsMaximum(reordered, weights);
    var i :| 0 <= i < |parts| && PartitionWeight(parts[i], weights) == Heaviest(parts, weights);
    var j :| 0 <= j < |reordered| && PartitionWeight(reordered[j], weights) == Heaviest(reordered, weights);
    assert parts[i] in multiset(reordered) && reordered[j] in multiset(parts);
  }

  lemma ReorderingKeepsSums(parts: seq<seq<string>>, reordered: seq<seq<string>>, weights: Weights)
    requires multiset(parts) == multiset(reordered)
    ensures AllFiles(parts) == AllFiles(reordered)
    ensures EmptyCount(parts) == EmptyCount(reordered)
    ensures multiset(KeysOf(parts, weights)) == multiset(KeysOf(reordered, weights))
  {
    ReorderingKeepsFiles(parts, reordered);
    EmptyCountIsMultiplicity(parts);
    EmptyCountIsMultiplicity(reordered);
    var f := part => KeyOf(part, weights);
    MapMultiset(f, parts, reordered);
    assert KeysOf(parts, weights) == Map(f, parts) && KeysOf(reordered, weights) == Map(f, reordered);
  }

  lemma {:induction false} EmptyCountIsMultiplicity(parts: seq<seq<string>>)
    ensures EmptyCount(parts) == multiset(parts)[[]]
  {
    if parts != [] {
      EmptyCountIsMultiplicity(parts[..|parts| - 1]);
      assert parts == parts[..|parts| - 1] + [parts[|parts| - 1]];
    }
  }

  lemma {:induction false} ReorderingKeepsFiles(parts: seq<seq<string>>, reordered: seq<seq<string>>)
    requires multiset(parts) == multiset(reordered)
    ensures AllFiles(parts) == AllFiles(reordered)
    decreases |parts|
  {
    SizeOfMultiset(parts, reordered);
    if parts != [] {
      var i := MatchLast(parts, reordered);
      ReorderingKeepsFiles(parts[..|parts| - 1], Without(reordered, i));
      FilesWithout(reordered, i);
    }
  }

  lemma LastPartition(parts: seq<seq<string>>)
    requires parts != []
    ensures AllFiles(parts) == AllFiles(parts[..|parts| - 1]) + multiset(parts[|parts| - 1])
  {
  }

  lemma {:induction false} FilesWithout(parts: seq<seq<string>>, i: nat)
    requires i < |parts|
    ensures AllFiles(parts) == AllFiles(Without(parts, i)) + multiset(parts[i])
  {
    hide AllFiles;
    var n := |parts| - 1;
    var rest := Without(parts, i);
    LastPartition(parts);
    if i < n {
      FilesWithout(parts[..n], i);
      LastPartition(rest);
      assert rest[..n - 1] == Without(parts[..n], i) && rest[n - 1] == parts[n];
    } else {
      assert rest == parts[..n];
    }
  }

  // Refuses a run with an empty partition, naming the first.
  method AssertNonEmptyAssignments(assignments: seq<seq<string>>) returns (refused: Option<nat>)
    ensures refused.None? <==> EmptyCount(assignments) == 0
    ensures refused.Some? ==> refused.value < |assignments| && assignments[refused.value] == []
                              && [] !in assignments[..refused.value]
  {
    EmptyCountPositive(assignments);
    for index := 0 to |assignments|
      invariant [] !in assignments[..index]
    {
      if assignments[index] == [] {
        return Some(index);
      }
    }
    assert assignments[..|assignments|] == assignments;
    return None;
  }

  // The run goes ahead exactly when no partition needs to stay empty: there are enough files, and at
  // most one partition has to do without a file of non-negative weight.
  method PlanPartitions(files: seq<string>, weights: Weights, partitions: nat)
    returns (parts: seq<seq<string>>, refused: Option<nat>)
    requires partitions > 0
    ensures SoundAssignment(files, weights, partitions, parts) && HeaviestFirst(parts, weights)
    ensures refused.None? <==> |files| >= partitions && NonNegativeCount(files, weights) >= partitions - 1
  {
    parts := AssignFiles(files, weights, partitions);
    refused := AssertNonEmptyAssignments(parts);
  }
}
