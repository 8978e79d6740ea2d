/**
 Stable sorting by a comparison, and the fixed total order on strings.
 Stands for `Array.prototype.sort` and Python's `sorted`, both of which are stable.
 */
module Sorting {

  ghost predicate TotalPreorder<T(!new)>(le: (T, T) -> bool) {
    && (forall x, y :: le(x, y) || le(y, x))
    && (forall x, y, z :: le(x, y) && le(y, z) ==> le(x, z))
  }

  ghost predicate SortedBy<T>(s: seq<T>, le: (T, T) -> bool) {
    forall i, j :: 0 <= i < j < |s| ==> le(s[i], s[j])
  }

  // Places x after every element it does not precede, so equal elements keep their order.
  function Insert<T>(s: seq<T>, x: T, le: (T, T) -> bool): (r: seq<T>)
  {
    if s != [] && !le(s[|s| - 1], x) then
      Insert(s[..|s| - 1], x, le) + [s[|s| - 1]]
    else
      s + [x]
  }

  function SortBy<T>(s: seq<T>, le: (T, T) -> bool): (r: seq<T>)
  {
    if s == [] then [] else Insert(SortBy(s[..|s| - 1], le), s[|s| - 1], le)
  }

  lemma {:induction false} InsertPermutes<T>(s: seq<T>, x: T, le: (T, T) -> bool)
    ensures multiset(Insert(s, x, le)) == multiset(s) + multiset{x}
  {
    if s != [] && !le(s[|s| - 1], x) {
      InsertPermutes(s[..|s| - 1], x, le);
      assert s == s[..|s| - 1] + [s[|s| - 1]];
    }
  }

  lemma {:induction false} InsertSorted<T(!new)>(s: seq<T>, x: T, le: (T, T) -> bool)
    requires TotalPreorder(le) && SortedBy(s, le)
    ensures SortedBy(Insert(s, x, le), le)
  {
    if s != [] && !le(s[|s| - 1], x) {
      var init, last := s[..|s| - 1], s[|s| - 1];
      InsertSorted(init, x, le);
      InsertPermutes(init, x, le);
      var r := Insert(init, x, le);
      forall i | 0 <= i < |r|
        ensures le(r[i], last)
      {
        assert r[i] in multiset(r);
        assert r[i] in multiset(init) + multiset{x};
      }
    } else if s != [] {
      assert forall i :: 0 <= i < |s| ==> le(s[i], s[|s| - 1]) || i == |s| - 1;
    }
  }

  // The two facts every caller needs: nothing is lost or invented, and the result is ordered.
  lemma {:induction false} SortByCorrect<T(!new)>(s: seq<T>, le: (T, T) -> bool)
    requires TotalPreorder(le)
    ensures multiset(SortBy(s, le)) == multiset(s)
    ensures |SortBy(s, le)| == |s|
    ensures SortedBy(SortBy(s, le), le)
  {
    if s != [] {
      var init, last := s[..|s| - 1], s[|s| - 1];
      SortByCorrect(init, le);
      InsertPermutes(SortBy(init, le), last, le);
      InsertSorted(SortBy(init, le), last, le);
      assert s == init + [last];
    }
    SizeOfMultiset(s, SortBy(s, le));
  }

  lemma SizeOfMultiset<T>(s: seq<T>, t: seq<T>)
    requires multiset(s) == multiset(t)
    ensures |s| == |t|
  {
    assert |multiset(s)| == |s| && |multiset(t)| == |t|;
  }

  function Without<T>(s: seq<T>, i: nat): (r: seq<T>)
    requires i < |s|
    ensures |r| == |s| - 1
  {
    s[..i] + s[i + 1..]
  }

  lemma WithoutMultiset<T>(s: seq<T>, i: nat)
    requires i < |s|
    ensures multiset(Without(s, i)) == multiset(s) - multiset{s[i]}
  {
    assert s == s[..i] + [s[i]] + s[i + 1..];
  }

  // Reordered sequences agree after taking away one occurrence of the last element.
  lemma MatchLast<T>(s: seq<T>, t: seq<T>) returns (i: nat)
    requires multiset(s) == multiset(t) && s != []
    ensures i < |t| && t[i] == s[|s| - 1]
    ensures multiset(s[..|s| - 1]) == multiset(Without(t, i))
  {
    var n := |s| - 1;
    assert s == s[..n] + [s[n]];
    assert s[n] in multiset(t);
    i :| i < |t| && t[i] == s[n];
    WithoutMultiset(t, i);
  }

  function Map<T, U>(f: T -> U, s: seq<T>): (r: seq<U>)
    ensures |r| == |s|
    ensures forall i :: 0 <= i < |s| ==> r[i] == f(s[i])
  {
    seq(|s|, i requires 0 <= i < |s| => f(s[i]))
  }

  lemma {:induction false} MapMultiset<T, U>(f: T -> U, s: seq<T>, t: seq<T>)
    requires multiset(s) == multiset(t)
    ensures multiset(Map(f, s)) == multiset(Map(f, t))
    decreases |s|
  {
    SizeOfMultiset(s, t);
    if s != [] {
      var n := |s| - 1;
      var i := MatchLast(s, t);
      MapMultiset(f, s[..n], Without(t, i));
      assert Map(f, s) == Map(f, s[..n]) + [f(s[n])];
      assert Map(f, Without(t, i)) == Without(Map(f, t), i);
      WithoutMultiset(Map(f, t), i);
    }
  }

  // Lexicographic order on strings.
  predicate StringLeq(a: string, b: string) {
    a == [] || (b != [] && (a[0] < b[0] || (a[0] == b[0] && StringLeq(a[1..], b[1..]))))
  }

  lemma {:induction false} StringLeqTotal(a: string, b: string)
    ensures StringLeq(a, b) || StringLeq(b, a)
    ensures StringLeq(a, b) && StringLeq(b, a) ==> a == b
  {
    if a != [] && b != [] {
      StringLeqTotal(a[1..], b[1..]);
      assert a == [a[0]] + a[1..] && b == [b[0]] + b[1..];
    }
  }

  lemma {:induction false} StringLeqTransitive(a: string, b: string, c: string)
    requires StringLeq(a, b) && StringLeq(b, c)
    ensures StringLeq(a, c)
  {
    if a != [] && a[0] == b[0] && b[0] == c[0] {
      StringLeqTransitive(a[1..], b[1..], c[1..]);
    }
  }

  lemma StringLeqPreorder()
    ensures TotalPreorder(StringLeq) && Antisymmetric(StringLeq)
  {
    forall x, y | StringLeq(x, y) && StringLeq(y, x) ensures x == y {
      StringLeqTotal(x, y);
    }
    forall x, y ensures StringLeq(x, y) || StringLeq(y, x) {
      StringLeqTotal(x, y);
    }
    forall x, y, z | StringLeq(x, y) && StringLeq(y, z) ensures StringLeq(x, z) {
      StringLeqTransitive(x, y, z);
    }
  }

  ghost predicate NoDuplicates<T>(s: seq<T>) {
    forall i, j :: 0 <= i < j < |s| ==> s[i] != s[j]
  }

  lemma {:induction false} OncePerElement<T>(s: seq<T>, x: T)
    requires NoDuplicates(s)
    ensures multiset(s)[x] == if x in s then 1 else 0
  {
    if s != [] {
      var init := s[..|s| - 1];
      OncePerElement(init, x);
      assert s == init + [s[|s| - 1]];
    }
  }

  // Two lists of the same elements, each once, are permutations of each other.
  lemma SameElementsPermute<T>(s: seq<T>, t: seq<T>)
    requires NoDuplicates(s) && NoDuplicates(t) && (forall x :: x in s <==> x in t)
    ensures multiset(s) == multiset(t)
  {
    forall x ensures multiset(s)[x] == multiset(t)[x] {
      OncePerElement(s, x);
      OncePerElement(t, x);
    }
  }

  ghost predicate Antisymmetric<T(!new)>(le: (T, T) -> bool) {
    forall x, y :: le(x, y) && le(y, x) ==> x == y
  }

  lemma FirstElement<T(!new)>(s: seq<T>, t: seq<T>, le: (T, T) -> bool)
    requires TotalPreorder(le) && Antisymmetric(le)
    requires multiset(s) == multiset(t) && SortedBy(s, le) && SortedBy(t, le) && s != [] && t != []
    ensures s[0] == t[0]
  {
    assert s[0] in multiset(t) && t[0] in multiset(s);
    assert le(s[0], s[0]);
  }

  lemma TailMultiset<T>(s: seq<T>)
    requires s != []
    ensures multiset(s[1..]) == multiset(s) - multiset{s[0]}
  {
    assert s == [s[0]] + s[1..];
  }

  lemma TailSorted<T>(s: seq<T>, le: (T, T) -> bool)
    requires SortedBy(s, le) && s != []
    ensures SortedBy(s[1..], le)
  {
  }

  // A total order leaves only one way to sort.
  lemma {:induction false} OneOrder<T(!new)>(s: seq<T>, t: seq<T>, le: (T, T) -> bool)
    requires TotalPreorder(le) && Antisymmetric(le)
    requires multiset(s) == multiset(t) && SortedBy(s, le) && SortedBy(t, le)
    ensures s == t
  {
    hide TotalPreorder, Antisymmetric, SortedBy;
    SizeOfMultiset(s, t);
    if s != [] {
      FirstElement(s, t, le);
      var a, b := s[1..], t[1..];
      TailMultiset(s);
      TailMultiset(t);
      TailSorted(s, le);
      TailSorted(t, le);
      OneOrder(a, b, le);
      assert s == [s[0]] + a && t == [t[0]] + b;
    }
  }

  // Strings sort into one order only.
  lemma OneStringOrder(s: seq<string>, t: seq<string>)
    requires multiset(s) == multiset(t) && SortedBy(s, StringLeq) && SortedBy(t, StringLeq)
    ensures s == t
  {
    StringLeqPreorder();
    OneOrder(s, t, StringLeq);
  }
}
