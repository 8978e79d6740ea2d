/**
 Which packages a benchmark should consider: everything installed with the host package that is
 released, is outside the policy, and still has a peer other than the framework.
 */
module BenchmarkCandidates {
  import opened Sorting
  import opened Wrappers

  type Name = string

  const TARGET := "@deepseek-ai/dsh"
  const CORDIS := "@deepseek-ai/cordis"

  // The sections of a published manifest by their package names; `optionalPeers` holds the `optional`
  // flags given for peers.
  datatype Manifest = Manifest(
    dependencies: seq<Name>, optionalDependencies: seq<Name>,
    peerDependencies: seq<Name>, optionalPeers: map<Name, Option<bool>>)

  datatype Registry = Registry(index: map<Name, map<string, Manifest>>, versions: map<Name, string>)

  function ManifestOf(w: Registry, name: Name): Option<Manifest> {
    if name in w.versions && name in w.index && w.versions[name] in w.index[name]
    then Some(w.index[name][w.versions[name]])
    else None
  }

  predicate IsOptionalPeer(m: Manifest, peer: Name) {
    peer in m.optionalPeers && m.optionalPeers[peer] == Some(true)
  }

  // Installing a brings in b.
  predicate Installs(w: Registry, a: Name, b: Name) {
    match ManifestOf(w, a)
    case None => false
    case Some(m) =>
      b in m.dependencies || b in m.optionalDependencies || (b in m.peerDependencies && !IsOptionalPeer(m, b))
  }

  ghost predicate IsTrail(w: Registry, trail: seq<Name>) {
    trail != [] && trail[0] == TARGET && forall i :: 0 <= i < |trail| - 1 ==> Installs(w, trail[i], trail[i + 1])
  }

  ghost predicate Reachable(w: Registry, name: Name) {
    exists trail :: IsTrail(w, trail) && trail[|trail| - 1] == name
  }

  // Keeps the first occurrence of each name, as the keys of an object do.
  function Distinct(names: seq<Name>): (r: seq<Name>)
    ensures forall x :: x in r <==> x in names
  {
    if names == [] then []
    else
      var init, last := Distinct(names[..|names| - 1]), names[|names| - 1];
      assert names == names[..|names| - 1] + [last];
      if last in init then init else init + [last]
  }

  function RequiredPeers(m: Manifest, peers: seq<Name>): (r: seq<Name>)
    ensures forall x :: x in r <==> x in peers && !IsOptionalPeer(m, x)
  {
    if peers == [] then []
    else
      var init, last := RequiredPeers(m, peers[..|peers| - 1]), peers[|peers| - 1];
      assert peers == peers[..|peers| - 1] + [last];
      if IsOptionalPeer(m, last) then init else init + [last]
  }

  function Installed(m: Manifest): seq<Name> {
    SortBy(Distinct(m.dependencies + m.optionalDependencies + RequiredPeers(m, m.peerDependencies)), StringLeq)
  }

  lemma InstalledIff(w: Registry, name: Name, other: Name)
    requires ManifestOf(w, name).Some?
    ensures other in Installed(ManifestOf(w, name).value) <==> Installs(w, name, other)
    ensures var m := w.index[name][w.versions[name]];
            Installs(w, name, other)
            <==> || other in m.dependencies
                 || other in m.optionalDependencies
                 || (other in m.peerDependencies
                     && !(other in m.optionalPeers && m.optionalPeers[other].Some? && m.optionalPeers[other].value))
  {
    var m := ManifestOf(w, name).value;
    var peers := RequiredPeers(m, m.peerDependencies);
    var all := Distinct(m.dependencies + m.optionalDependencies + peers);
    StringLeqPreorder();
    SortByCorrect(all, StringLeq);
    assert other in all <==> other in multiset(all);
    assert other in SortBy(all, StringLeq) <==> other in multiset(SortBy(all, StringLeq));
    assert other in all <==> other in m.dependencies + m.optionalDependencies + peers;
  }

  lemma ReachableStep(w: Registry, a: Name, b: Name)
    requires Reachable(w, a) && Installs(w, a, b)
    ensures Reachable(w, b)
  {
    var trail :| IsTrail(w, trail) && trail[|trail| - 1] == a;
    assert IsTrail(w, trail + [b]) && (trail + [b])[|trail|] == b;
  }

  // A collection that holds the target and what its resolvable members install holds all that is reachable.
  lemma {:induction false} ClosedHoldsReachable(w: Registry, trail: seq<Name>, members: set<Name>)
    requires IsTrail(w, trail) && TARGET in members
    requires forall a, b :: a in members && Installs(w, a, b) ==> b in members
    ensures trail[|trail| - 1] in members
  {
    if |trail| > 1 {
      var init := trail[..|trail| - 1];
      ClosedHoldsReachable(w, init, members);
      assert Installs(w, trail[|trail| - 2], trail[|trail| - 1]);
    }
  }

  ghost function Resolvable(w: Registry): set<Name> {
    set n | n in w.versions && ManifestOf(w, n).Some?
  }

  // What holds between the turns of the loop.
  ghost predicate Explored(w: Registry, reached: seq<Name>, queue: seq<Name>, cursor: nat) {
    && cursor <= |queue| && NoDuplicates(reached)
    && queue != [] && queue[0] == TARGET
    && (forall n :: n in reached ==> n in Resolvable(w) && Reachable(w, n))
    && (forall n :: n in queue ==> Reachable(w, n))
    && (forall i :: 0 <= i < cursor ==> queue[i] in reached || ManifestOf(w, queue[i]).None?)
    && (forall a, b :: a in reached && Installs(w, a, b) ==> b in reached || b in queue)
  }

  // Reaching one more package: the new names in the queue are ones it installs.
  lemma ReachOne(w: Registry, reached: seq<Name>, queue: seq<Name>, cursor: nat, name: Name, queue': seq<Name>)
    requires Explored(w, reached, queue, cursor) && cursor < |queue| && name == queue[cursor]
    requires name !in reached && ManifestOf(w, name).Some?
    requires queue <= queue'
    requires forall i :: |queue| <= i < |queue'| ==> Installs(w, name, queue'[i])
    requires forall b :: Installs(w, name, b) ==> b in reached + [name] || b in queue'
    ensures Explored(w, reached + [name], queue', cursor + 1)
    ensures Resolvable(w) - (set n | n in reached + [name]) < Resolvable(w) - (set n | n in reached)
  {
    assert name in queue;
    forall n | n in queue' ensures Reachable(w, n) {
      var i :| 0 <= i < |queue'| && queue'[i] == n;
      if i >= |queue| {
        ReachableStep(w, name, n);
      } else {
        assert queue[i] == n;
      }
    }
    assert forall i :: 0 <= i <= cursor ==> queue'[i] == queue[i];
    assert forall n :: n in reached + [name] <==> n in reached || n == name;
    assert forall n :: n in queue ==> n in queue';
    assert name in Resolvable(w) - set n | n in reached;
  }

  method Reach(w: Registry) returns (reached: seq<Name>)
    ensures NoDuplicates(reached)
    ensures forall n :: n in reached <==> Reachable(w, n) && ManifestOf(w, n).Some?
    ensures ManifestOf(w, "@deepseek-ai/dsh").Some? ==> "@deepseek-ai/dsh" in reached
  {
    hide Installed, Installs, ManifestOf;
    reached := [];
    var queue, cursor := [TARGET], 0;
    assert IsTrail(w, [TARGET]) && [TARGET][0] == TARGET;
    while cursor < |queue|
      invariant Explored(w, reached, queue, cursor)
      decreases Resolvable(w) - (set n | n in reached), |queue| - cursor
    {
      var name := queue[cursor];
      var manifest := ManifestOf(w, name);
      if name !in reached && manifest.Some? {
        ghost var before := queue;
        var installed := Installed(manifest.value);
        for i := 0 to |installed|
          invariant before <= queue
          invariant forall j :: |before| <= j < |queue| ==> queue[j] in installed
          invariant forall j :: 0 <= j < i ==> installed[j] in reached + [name] || installed[j] in queue
        {
          if installed[i] !in reached + [name] {
            queue := queue + [installed[i]];
          }
        }
        forall b ensures b in installed <==> Installs(w, name, b) {
          InstalledIff(w, name, b);
        }
        ReachOne(w, reached, before, cursor, name, queue);
        reached := reached + [name];
      }
      cursor := cursor + 1;
    }
    AllReached(w, reached, queue);
  }

  lemma AllReached(w: Registry, reached: seq<Name>, queue: seq<Name>)
    requires Explored(w, reached, queue, |queue|)
    ensures forall n :: n in reached <==> Reachable(w, n) && ManifestOf(w, n).Some?
  {
    var members := (set n | n in reached) + (set n | n in queue);
    forall a, b | a in members && Installs(w, a, b) ensures b in members {
      assert a in reached;
    }
    forall n | Reachable(w, n) && ManifestOf(w, n).Some? ensures n in reached {
      var trail :| IsTrail(w, trail) && trail[|trail| - 1] == n;
      ClosedHoldsReachable(w, trail, members);
      assert n in reached;
    }
  }

  predicate IsCandidate(w: Registry, released: set<Name>, policy: set<Name>, name: Name) {
    && name !in policy && name in released
    && match ManifestOf(w, name)
       case None => false
       case Some(m) => exists peer :: peer in m.peerDependencies && peer != CORDIS
  }

  function Candidates(w: Registry, released: set<Name>, policy: set<Name>, names: seq<Name>): (r: seq<Name>)
    ensures forall n :: n in r <==> n in names && IsCandidate(w, released, policy, n)
    ensures NoDuplicates(names) ==> NoDuplicates(r)
  {
    if names == [] then []
    else
      var init, last := names[..|names| - 1], names[|names| - 1];
      assert names == init + [last];
      var kept := Candidates(w, released, policy, init);
      if IsCandidate(w, released, policy, last) then kept + [last] else kept
  }

  // The sorted candidates among exactly those packages reachable from the target, each once.
  method DiscoverBenchmarkCandidates(w: Registry, released: set<Name>, policy: set<Name>) returns (r: seq<Name>)
    ensures SortedBy(r, StringLeq) && NoDuplicates(r)
    ensures forall n :: n in r <==>
              && Reachable(w, n) && n !in policy && n in released
              && n in w.versions && n in w.index && w.versions[n] in w.index[n]
              && exists peer :: peer in w.index[n][w.versions[n]].peerDependencies && peer != "@deepseek-ai/cordis"
  {
    var reached := Reach(w);
    var candidates := Candidates(w, released, policy, reached);
    r := SortBy(candidates, StringLeq);
    StringLeqPreorder();
    SortByCorrect(candidates, StringLeq);
    PermutationKeeps(candidates, r);
  }

  lemma PermutationKeeps(s: seq<Name>, t: seq<Name>)
    requires multiset(s) == multiset(t) && NoDuplicates(s)
    ensures NoDuplicates(t) && forall n :: n in t <==> n in s
  {
    forall n ensures n in t <==> n in s {
      assert n in multiset(t) <==> n in multiset(s);
    }
    forall i, j | 0 <= i < j < |t| ensures t[i] != t[j] {
      OncePerElement(s, t[i]);
      CountsTwice(t, i, j);
    }
  }

  lemma CountsTwice(t: seq<Name>, i: nat, j: nat)
    requires i < j < |t| && multiset(t)[t[i]] <= 1
    ensures t[i] != t[j]
  {
    assert t == t[..j] + [t[j]] + t[j + 1..];
    assert t[i] in t[..j];
  }
}
