/**
 Graham's bounds for greedy scheduling on identical machines, stated over job
 weights `p` and an assignment `a` that gives each job its machine.
 */
module ListScheduling {

  // Load of machine k: the summed weight of the jobs assigned to it.
  function Load(p: seq<real>, a: seq<nat>, k: nat): real
    requires |p| == |a|
  {
    if p == [] then 0.0
    else
      var n := |p| - 1;
      Load(p[..n], a[..n], k) + if a[n] == k then p[n] else 0.0
  }

  function Total(p: seq<real>): real {
    if p == [] then 0.0 else Total(p[..|p| - 1]) + p[|p| - 1]
  }

  ghost predicate Assignment(p: seq<real>, a: seq<nat>, m: nat) {
    |p| == |a| && forall i :: 0 <= i < |a| ==> a[i] < m
  }

  ghost predicate NonNegative(p: seq<real>) {
    forall i :: 0 <= i < |p| ==> p[i] >= 0.0
  }

  ghost predicate Descending(p: seq<real>) {
    forall i, j :: 0 <= i < j < |p| ==> p[i] >= p[j]
  }

  // Every load of the assignment is at most c.
  ghost predicate Within(p: seq<real>, a: seq<nat>, m: nat, c: real)
    requires |p| == |a|
  {
    forall k: nat :: k < m ==> Load(p, a, k) <= c
  }

  // Job j went to a machine that was least loaded when the job was placed.
  ghost predicate PlacedLeast(p: seq<real>, a: seq<nat>, m: nat, j: nat)
    requires |p| == |a| && j < |p|
  {
    forall k: nat :: k < m ==> Load(p[..j], a[..j], a[j]) <= Load(p[..j], a[..j], k)
  }

  ghost predicate Greedy(p: seq<real>, a: seq<nat>, m: nat) {
    && Assignment(p, a, m)
    && forall j :: 0 <= j < |p| ==> PlacedLeast(p, a, m, j)
  }

  function SumLoads(p: seq<real>, a: seq<nat>, m: nat): real
    requires |p| == |a|
  {
    if m == 0 then 0.0 else SumLoads(p, a, m - 1) + Load(p, a, m - 1)
  }

  lemma {:induction false} SumLoadsStep(p: seq<real>, a: seq<nat>, m: nat)
    requires |p| == |a| > 0
    ensures SumLoads(p, a, m) == SumLoads(p[..|p| - 1], a[..|p| - 1], m) + if a[|p| - 1] < m then p[|p| - 1] else 0.0
  {
    if m > 0 {
      SumLoadsStep(p, a, m - 1);
    }
  }

  lemma {:induction false} SumLoadsEmpty(m: nat)
    ensures SumLoads([], [], m) == 0.0
  {
    if m > 0 {
      SumLoadsEmpty(m - 1);
    }
  }

  // Conservation: the machine loads add up to the whole work.
  lemma {:induction false} LoadsSumToTotal(p: seq<real>, a: seq<nat>, m: nat)
    requires Assignment(p, a, m)
    ensures SumLoads(p, a, m) == Total(p)
  {
    if p == [] {
      SumLoadsEmpty(m);
    } else {
      LoadsSumToTotal(p[..|p| - 1], a[..|p| - 1], m);
      SumLoadsStep(p, a, m);
    }
  }

  lemma {:induction false} SumLoadsAtLeast(p: seq<real>, a: seq<nat>, m: nat, c: real)
    requires |p| == |a| && forall k: nat :: k < m ==> Load(p, a, k) >= c
    ensures SumLoads(p, a, m) >= m as real * c
  {
    if m > 0 {
      SumLoadsAtLeast(p, a, m - 1, c);
      assert m as real * c == (m - 1) as real * c + c;
    }
  }

  lemma {:induction false} SumLoadsAtMost(p: seq<real>, a: seq<nat>, m: nat, c: real)
    requires |p| == |a| && Within(p, a, m, c)
    ensures SumLoads(p, a, m) <= m as real * c
  {
    if m > 0 {
      SumLoadsAtMost(p, a, m - 1, c);
      assert m as real * c == (m - 1) as real * c + c;
    }
  }

  lemma {:induction false} LoadNonNegative(p: seq<real>, a: seq<nat>, k: nat)
    requires |p| == |a| && NonNegative(p)
    ensures Load(p, a, k) >= 0.0
  {
    if p != [] {
      LoadNonNegative(p[..|p| - 1], a[..|p| - 1], k);
    }
  }

  // Dropping the last job can only lower loads.
  lemma WithinPrefix(p: seq<real>, b: seq<nat>, m: nat, c: real)
    requires |p| == |b| > 0 && NonNegative(p) && Within(p, b, m, c)
    ensures Within(p[..|p| - 1], b[..|p| - 1], m, c)
  {
    var pre, bPre := p[..|p| - 1], b[..|p| - 1];
    forall k: nat | k < m
      ensures Load(pre, bPre, k) <= c
    {
      assert Load(p, b, k) <= c;
    }
  }

  // The machine chosen for a job carries at most an average share of the work before it.
  lemma ChosenLoadTimesMachines(p: seq<real>, a: seq<nat>, m: nat, j: nat)
    requires Greedy(p, a, m) && j < |p|
    ensures Load(p[..j], a[..j], a[j]) * m as real <= Total(p[..j])
  {
    assert PlacedLeast(p, a, m, j);
    SumLoadsAtLeast(p[..j], a[..j], m, Load(p[..j], a[..j], a[j]));
    LoadsSumToTotal(p[..j], a[..j], m);
  }

  // Facts about the last job used by both bounds; c is the makespan of assignment b.
  lemma LastJobFacts(p: seq<real>, a: seq<nat>, b: seq<nat>, m: nat, c: real)
    requires p != [] && NonNegative(p) && Greedy(p, a, m) && Assignment(p, b, m) && Within(p, b, m, c)
    ensures m > 0
    ensures m as real * Load(p, a, a[|p| - 1]) <= m as real * c + (m as real - 1.0) * p[|p| - 1]
    ensures p[|p| - 1] <= c
  {
    hide Load, Total, SumLoads;
    var n := |p| - 1;
    ChosenLoadTimesMachines(p, a, m, n);
    LoadsSumToTotal(p, b, m);
    SumLoadsAtMost(p, b, m, c);
    LastOnMachine(p, a);
    LastOnMachine(p, b);
    LoadNonNegative(p[..n], b[..n], b[n]);
    assert Load(p, b, b[n]) <= c;
    AddedShare(m as real, Load(p[..n], a[..n], a[n]), p[n]);
  }

  lemma LastOnMachine(p: seq<real>, a: seq<nat>)
    requires |p| == |a| > 0
    ensures var n := |p| - 1;
            Load(p, a, a[n]) == Load(p[..n], a[..n], a[n]) + p[n] && Total(p) == Total(p[..n]) + p[n]
  {
  }

  lemma AddedShare(m: real, l: real, x: real)
    ensures m * (l + x) == l * m + (m - 1.0) * x + x
  {
  }

  lemma ScaleLeq(m: real, a: real, b: real)
    requires 0.0 <= m && a <= b
    ensures m * a <= m * b
  {
    assert m * (b - a) >= 0.0;
    assert m * (b - a) == m * b - m * a;
  }

  lemma LessOne(m: real, x: real)
    ensures (m - 1.0) * x == m * x - x
  {
  }

  lemma CombineAverageAndLast(m: real, l: real, x: real, c: real)
    requires m >= 1.0 && x <= c && m * l <= m * c + (m - 1.0) * x
    ensures m * l <= (2.0 * m - 1.0) * c
  {
    ScaleLeq(m - 1.0, x, c);
    assert (2.0 * m - 1.0) * c == m * c + (m - 1.0) * c;
  }

  // Both sides of the 4/3 bound in terms of the products m * l and m * c.
  lemma FourThirdsTerms(m: real, l: real, c: real)
    ensures 3.0 * m * l == 3.0 * (m * l)
    ensures (4.0 * m - 1.0) * c == 4.0 * (m * c) - c
  {
  }

  lemma CombineAverageAndSmallLast(m: real, l: real, x: real, c: real)
    requires m >= 1.0 && 3.0 * x <= c && m * l <= m * c + (m - 1.0) * x
    ensures 3.0 * m * l <= (4.0 * m - 1.0) * c
  {
    FourThirdsTerms(m, l, c);
    LessOne(m, x);
    LessOne(m, c / 3.0);
    ScaleLeq(m - 1.0, x, c / 3.0);
    Thirds(m, c);
  }

  lemma Thirds(m: real, c: real)
    ensures 3.0 * (m * (c / 3.0)) == m * c
  {
  }

  lemma CombineWithin(m: real, l: real, c: real)
    requires m >= 1.0 && 0.0 <= c && l <= c
    ensures 3.0 * m * l <= (4.0 * m - 1.0) * c
  {
    FourThirdsTerms(m, l, c);
    ScaleLeq(m, l, c);
    ScaleLeq(m - 1.0, 0.0, c);
    LessOne(m, c);
  }

  // The load l is at most 2 - 1/m times c, with the denominators cleared.
  predicate WithinTwo(l: real, m: nat, c: real) {
    m as real * l <= (2.0 * m as real - 1.0) * c
  }

  // List scheduling in any order is within 2 - 1/m of every other assignment.
  lemma {:induction false} ListSchedulingBound(p: seq<real>, a: seq<nat>, b: seq<nat>, m: nat, c: real, k: nat)
    requires NonNegative(p) && Greedy(p, a, m) && Assignment(p, b, m) && Within(p, b, m, c) && k < m
    ensures WithinTwo(Load(p, a, k), m, c)
  {
    if p == [] {
      assert Load(p, b, k) <= c;
      CombineAverageAndLast(m as real, 0.0, 0.0, c);
    } else if a[|p| - 1] != k {
      GreedyPrefix(p, a, m);
      WithinPrefix(p, b, m, c);
      ListSchedulingBound(p[..|p| - 1], a[..|p| - 1], b[..|p| - 1], m, c, k);
    } else {
      LastJobFacts(p, a, b, m, c);
      CombineAverageAndLast(m as real, Load(p, a, k), p[|p| - 1], c);
    }
  }

  lemma GreedyPrefix(p: seq<real>, a: seq<nat>, m: nat)
    requires p != [] && Greedy(p, a, m)
    ensures Greedy(p[..|p| - 1], a[..|p| - 1], m)
  {
    var n := |p| - 1;
    forall j | 0 <= j < n
      ensures PlacedLeast(p[..n], a[..n], m, j)
    {
      assert PlacedLeast(p, a, m, j);
      assert p[..n][..j] == p[..j] && a[..n][..j] == a[..j];
    }
  }

  // Charge of a job against the smallest job `x`: two when the pair would overflow c, else one.
  function Charges(p: seq<real>, x: real, c: real): (w: seq<real>)
    ensures |w| == |p|
  {
    seq(|p|, i requires 0 <= i < |p| => if p[i] + x > c then 2.0 else 1.0)
  }

  lemma ChargesPrefix(p: seq<real>, x: real, c: real, n: nat)
    requires n <= |p|
    ensures Charges(p[..n], x, c) == Charges(p, x, c)[..n]
  {
  }

  // A machine that stays within c holds charge at most two when every job exceeds c/3.
  lemma {:induction false} ChargeWithin(p: seq<real>, b: seq<nat>, k: nat, x: real, c: real)
    requires |p| == |b| && 3.0 * x > c && 0.0 <= x <= c && forall i :: 0 <= i < |p| ==> p[i] >= x
    ensures var w, l := Load(Charges(p, x, c), b, k), Load(p, b, k);
            && (w == 0.0 || w == 1.0 || w == 2.0 || w >= 3.0)
            && (w == 0.0 ==> l >= 0.0)
            && (w == 1.0 ==> l >= x)
            && (w == 2.0 ==> l >= 2.0 * x || l + x > c)
            && (w >= 3.0 ==> l > c)
  {
    if p != [] {
      var n := |p| - 1;
      ChargeWithin(p[..n], b[..n], k, x, c);
      ChargesPrefix(p, x, c, n);
    }
  }

  // A machine that would overflow c if given x holds charge at least two.
  lemma {:induction false} ChargeOverflowing(p: seq<real>, a: seq<nat>, k: nat, x: real, c: real)
    requires |p| == |a|
    ensures var w, l := Load(Charges(p, x, c), a, k), Load(p, a, k);
            && (w == 0.0 || w == 1.0 || w >= 2.0)
            && (w == 0.0 ==> l == 0.0)
            && (w == 1.0 ==> l + x <= c)
  {
    if p != [] {
      var n := |p| - 1;
      ChargeOverflowing(p[..n], a[..n], k, x, c);
      ChargesPrefix(p, x, c, n);
    }
  }

  // When every job exceeds a third of the makespan c of b, the last greedy placement stays within c.
  lemma BigJobsFit(p: seq<real>, a: seq<nat>, b: seq<nat>, m: nat, c: real)
    requires p != [] && NonNegative(p) && Descending(p)
    requires Greedy(p, a, m) && Assignment(p, b, m) && Within(p, b, m, c)
    requires 3.0 * p[|p| - 1] > c
    ensures Load(p, a, a[|p| - 1]) <= c
  {
    var n := |p| - 1;
    var x := p[n];
    LastJobFacts(p, a, b, m, c);
    if Load(p, a, a[n]) > c {
      var w := Charges(p, x, c);
      ChargesPrefix(p, x, c, n);
      assert PlacedLeast(p, a, m, n);
      forall k: nat | k < m ensures Load(w[..n], a[..n], k) >= 2.0 {
        assert Load(p[..n], a[..n], a[n]) <= Load(p[..n], a[..n], k);
        ChargeOverflowing(p[..n], a[..n], k, x, c);
      }
      forall k: nat | k < m ensures Load(w, b, k) <= 2.0 {
        assert Load(p, b, k) <= c;
        ChargeWithin(p, b, k, x, c);
      }
      SumLoadsAtLeast(w[..n], a[..n], m, 2.0);
      LoadsSumToTotal(w[..n], a[..n], m);
      SumLoadsAtMost(w, b, m, 2.0);
      LoadsSumToTotal(w, b, m);
      assert false;
    }
  }

  // The load l is at most 4/3 - 1/(3m) times c, with the denominators cleared.
  predicate WithinFourThirds(l: real, m: nat, c: real) {
    3.0 * m as real * l <= (4.0 * m as real - 1.0) * c
  }

  // Longest processing time first is within 4/3 - 1/(3m) of every other assignment.
  lemma {:induction false} LongestFirstBound(p: seq<real>, a: seq<nat>, b: seq<nat>, m: nat, c: real, k: nat)
    requires NonNegative(p) && Descending(p)
    requires Greedy(p, a, m) && Assignment(p, b, m) && Within(p, b, m, c) && k < m
    ensures WithinFourThirds(Load(p, a, k), m, c)
  {
    if p == [] {
      assert Load(p, b, k) <= c;
      CombineWithin(m as real, 0.0, c);
    } else if a[|p| - 1] != k {
      GreedyPrefix(p, a, m);
      WithinPrefix(p, b, m, c);
      LongestFirstBound(p[..|p| - 1], a[..|p| - 1], b[..|p| - 1], m, c, k);
    } else {
      LastJobFacts(p, a, b, m, c);
      var l := Load(p, a, k);
      if 3.0 * p[|p| - 1] <= c {
        CombineAverageAndSmallLast(m as real, l, p[|p| - 1], c);
      } else {
        BigJobsFit(p, a, b, m, c);
        CombineWithin(m as real, l, c);
      }
    }
  }
}
