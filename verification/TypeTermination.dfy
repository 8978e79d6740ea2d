/**
 When the lookup terminates. An indexed access lengthens the path and a member or element hop
 shortens it; as long as no cycle of declarations lengthens the path on balance, every lookup answers.
 */
module TypeTermination {
  import opened TypePaths
  import opened Wrappers

  // A bound on how much longer than at a declaration paths can still get.
  type Potential = DeclId -> nat

  // Wherever the walk of the type arrives, the potential plus the indexed accesses less the hops on the
  // way is at most `level`, and the declaration is in the region.
  ghost predicate Within(w: World, region: set<DeclId>, pot: Potential, file: FileId, node: TypeNode, level: int)
    decreases node
  {
    match node
    case Literal(members) => WithinMembers(w, region, pot, file, members, level)
    case Parenthesized(inner) => Within(w, region, pot, file, inner, level)
    case Intersection(parts) => forall part :: part in parts ==> Within(w, region, pot, file, part, level)
    case Union(parts) => forall part :: part in parts ==> Within(w, region, pot, file, part, level)
    case ArrayOf(element) => Within(w, region, pot, file, element, level + 1)
    case Operated(_, inner) => Within(w, region, pot, file, inner, level)
    case Indexed(object_, index) => index.Some? ==> Within(w, region, pot, file, object_, level - 1)
    case Reference(head, qualified, args) =>
      if head in PASSTHROUGH_WRAPPERS && args != [] then Within(w, region, pot, file, args[0], level)
      else if head in ARRAY_WRAPPERS && args != [] then Within(w, region, pot, file, args[0], level + 1)
      else !qualified && (file, head) in w.names ==> DeclWithin(region, pot, w.names[(file, head)], level)
    case OtherType(_) => true
  }

  ghost predicate WithinMembers(
    w: World, region: set<DeclId>, pot: Potential, file: FileId, members: seq<Signature>, level: int)
    decreases members
  {
    forall m :: m in members && m.Property? && m.ty.Some? ==> Within(w, region, pot, file, m.ty.value, level + 1)
  }

  ghost predicate DeclWithin(region: set<DeclId>, pot: Potential, id: DeclId, level: int) {
    id in region && pot(id) <= level
  }

  ghost predicate SiteWithin(w: World, region: set<DeclId>, pot: Potential, site: Site, level: int) {
    match site
    case UnresolvedBase(_, _) => true
    case DeclSite(id) => DeclWithin(region, pot, id, level)
    case TypeSite(file, node) => Within(w, region, pot, file, node, level)
  }

  ghost predicate BodyWithin(
    w: World, region: set<DeclId>, pot: Potential, file: FileId, decl: Declaration, level: int)
  {
    match decl
    case Interface(members, bases) =>
      && WithinMembers(w, region, pot, file, members, level)
      && forall i :: 0 <= i < |bases| ==> SiteWithin(w, region, pot, BaseSite(w, file, bases[i]), level)
    case Alias(body) => Within(w, region, pot, file, body, level)
    case Enum => true
  }

  // The potential never rises from a declaration to the next by more than the path got shorter, and
  // the region is closed: no cycle in it lengthens the path on balance.
  ghost predicate Settles(w: World, region: set<DeclId>, pot: Potential) {
    forall id :: id in region && id in w.decls ==>
      BodyWithin(w, region, pot, w.decls[id].file, w.decls[id].decl, pot(id))
  }

  lemma {:induction false} WithinMore(
    w: World, region: set<DeclId>, pot: Potential, file: FileId, node: TypeNode, level: int, more: int)
    requires Within(w, region, pot, file, node, level) && level <= more
    ensures Within(w, region, pot, file, node, more)
    decreases node
  {
    match node
    case Literal(members) => MembersWithinMore(w, region, pot, file, members, level, more);
    case Parenthesized(inner) => WithinMore(w, region, pot, file, inner, level, more);
    case Intersection(parts) =>
      forall part | part in parts ensures Within(w, region, pot, file, part, more) {
        WithinMore(w, region, pot, file, part, level, more);
      }
    case Union(parts) =>
      forall part | part in parts ensures Within(w, region, pot, file, part, more) {
        WithinMore(w, region, pot, file, part, level, more);
      }
    case ArrayOf(element) => WithinMore(w, region, pot, file, element, level + 1, more + 1);
    case Operated(_, inner) => WithinMore(w, region, pot, file, inner, level, more);
    case Indexed(object_, index) =>
      if index.Some? {
        WithinMore(w, region, pot, file, object_, level - 1, more - 1);
      }
    case Reference(head, qualified, args) =>
      if head in PASSTHROUGH_WRAPPERS && args != [] {
        WithinMore(w, region, pot, file, args[0], level, more);
      } else if head in ARRAY_WRAPPERS && args != [] {
        WithinMore(w, region, pot, file, args[0], level + 1, more + 1);
      }
    case OtherType(_) =>
  }

  lemma {:induction false} MembersWithinMore(
    w: World, region: set<DeclId>, pot: Potential, file: FileId, members: seq<Signature>, level: int, more: int)
    requires WithinMembers(w, region, pot, file, members, level) && level <= more
    ensures WithinMembers(w, region, pot, file, members, more)
    decreases members
  {
    forall m | m in members && m.Property? && m.ty.Some? ensures Within(w, region, pot, file, m.ty.value, more + 1) {
      WithinMore(w, region, pot, file, m.ty.value, level + 1, more + 1);
    }
  }

  lemma BodyWithinMore(
    w: World, region: set<DeclId>, pot: Potential, file: FileId, decl: Declaration, level: int, more: int)
    requires BodyWithin(w, region, pot, file, decl, level) && level <= more
    ensures BodyWithin(w, region, pot, file, decl, more)
  {
    match decl
    case Interface(members, _) => MembersWithinMore(w, region, pot, file, members, level, more);
    case Alias(body) => WithinMore(w, region, pot, file, body, level, more);
    case Enum =>
  }

  function NodeSize(node: TypeNode): nat
    decreases node
  {
    match node
    case Literal(members) => 1 + MembersSize(members)
    case Parenthesized(inner) => 1 + NodeSize(inner)
    case Intersection(parts) => 1 + NodesSize(parts)
    case Union(parts) => 1 + NodesSize(parts)
    case ArrayOf(element) => 1 + NodeSize(element)
    case Operated(_, inner) => 1 + NodeSize(inner)
    case Indexed(object_, _) => 1 + NodeSize(object_)
    case Reference(_, _, args) => 1 + NodesSize(args)
    case OtherType(_) => 1
  }

  function NodesSize(nodes: seq<TypeNode>): nat
    decreases nodes
  {
    if nodes == [] then 0 else 1 + NodeSize(nodes[0]) + NodesSize(nodes[1..])
  }

  function MembersSize(members: seq<Signature>): nat
    decreases members
  {
    if members == [] then 0
    else
      (match members[0]
       case Property(_, Some(ty)) => NodeSize(ty)
       case _ => 0) + MembersSize(members[1..])
  }

  lemma {:induction false} MemberSize(members: seq<Signature>, m: Signature)
    requires m in members && m.Property? && m.ty.Some?
    ensures NodeSize(m.ty.value) <= MembersSize(members)
  {
    if members[0] != m {
      MemberSize(members[1..], m);
    }
  }

  function SiteSize(site: Site): nat {
    if site.TypeSite? then NodeSize(site.node) else 0
  }

  function SitesSize(sites: seq<Site>): nat {
    if sites == [] then 0 else 1 + SiteSize(sites[0]) + SitesSize(sites[1..])
  }

  lemma {:induction false} TypeSitesSize(file: FileId, nodes: seq<TypeNode>)
    ensures SitesSize(TypeSites(file, nodes)) == NodesSize(nodes)
  {
    if nodes != [] {
      TypeSitesSize(file, nodes[1..]);
      assert TypeSites(file, nodes)[1..] == TypeSites(file, nodes[1..]);
    }
  }

  // Keys of paths of at most `bound` steps.
  function KeysUpTo(w: World, bound: nat): set<Key> {
    set d, l: nat | d in w.decls.Keys && l <= bound :: Key(d, l)
  }

  ghost function Unseen(w: World, bound: nat, seen: set<Key>): nat {
    |KeysUpTo(w, bound) - seen|
  }

  lemma SubsetSize<T>(a: set<T>, b: set<T>)
    requires a <= b
    ensures |a| <= |b|
    ensures a != b ==> |a| < |b|
  {
    assert b == a + (b - a);
    assert |b| == |a| + |b - a|;
    if a != b {
      var x :| x in b - a;
    }
  }

  lemma UnseenShrinks(w: World, bound: nat, seen: set<Key>, more: set<Key>)
    requires seen <= more
    ensures Unseen(w, bound, more) <= Unseen(w, bound, seen)
  {
    SubsetSize(KeysUpTo(w, bound) - more, KeysUpTo(w, bound) - seen);
  }

  // Entering a declaration uses up an unseen key.
  lemma FreshKey(w: World, id: DeclId, n: nat, bound: nat, seen: set<Key>)
    requires id in w.decls && n <= bound && Key(id, n) !in seen
    ensures Unseen(w, bound, seen + {Key(id, n)}) < Unseen(w, bound, seen)
  {
    assert Key(id, n) in KeysUpTo(w, bound);
    SubsetSize(KeysUpTo(w, bound) - (seen + {Key(id, n)}), KeysUpTo(w, bound) - seen);
  }

  // A larger stack gives the same answer.
  lemma {:induction false} MoreDepth(
    w: World, mode: Sharing, depth: nat, site: Site, steps: Path, seen: set<Key>, more: nat)
    requires depth <= more && Lookup(w, mode, depth, site, steps, seen).Done?
    ensures Lookup(w, mode, more, site, steps, seen) == Lookup(w, mode, depth, site, steps, seen)
    decreases depth, 0
  {
    if steps != [] {
      match site
      case UnresolvedBase(_, _) =>
      case DeclSite(id) =>
        if id in w.decls && !w.decls[id].decl.Enum? && Key(id, |steps|) !in seen {
          var Entry(file, decl) := w.decls[id];
          MoreDepthDecl(w, mode, depth - 1, file, decl, steps, seen + {Key(id, |steps|)}, more - 1);
        }
      case TypeSite(file, node) => MoreDepthType(w, mode, depth - 1, file, node, steps, seen, more - 1);
    }
  }

  lemma {:induction false} MoreDepthDecl(
    w: World, mode: Sharing, depth: nat, file: FileId, decl: Declaration, steps: Path, seen: set<Key>, more: nat)
    requires steps != [] && !decl.Enum? && depth <= more && LookupDecl(w, mode, depth, file, decl, steps, seen).Done?
    ensures LookupDecl(w, mode, more, file, decl, steps, seen) == LookupDecl(w, mode, depth, file, decl, steps, seen)
    decreases depth, |BasesOf(decl)| + 2
  {
    match decl
    case Alias(body) => MoreDepth(w, mode, depth, TypeSite(file, body), steps, seen, more);
    case Interface(members, bases) =>
      if steps[0].Member? {
        var direct := FindProperty(members, steps[0].name);
        if direct.Some? {
          MoreDepthProperty(w, mode, depth, file, direct.value, steps, seen, more);
        } else if bases != [] {
          MoreDepthEach(w, mode, depth, BaseSites(w, file, bases), steps, seen, more);
        }
      }
  }

  lemma {:induction false} MoreDepthProperty(
    w: World, mode: Sharing, depth: nat, file: FileId, property: Signature, steps: Path, seen: set<Key>, more: nat)
    requires steps != [] && property.Property? && depth <= more
    requires LookupProperty(w, mode, depth, file, property, steps, seen).Done?
    ensures LookupProperty(w, mode, more, file, property, steps, seen)
            == LookupProperty(w, mode, depth, file, property, steps, seen)
    decreases depth, 1
  {
    if |steps| > 1 && property.ty.Some? {
      MoreDepth(w, mode, depth, TypeSite(file, property.ty.value), steps[1..], seen, more);
    }
  }

  lemma {:induction false} MoreDepthType(
    w: World, mode: Sharing, depth: nat, file: FileId, node: TypeNode, steps: Path, seen: set<Key>, more: nat)
    requires steps != [] && depth <= more && LookupType(w, mode, depth, file, node, steps, seen).Done?
    ensures LookupType(w, mode, more, file, node, steps, seen) == LookupType(w, mode, depth, file, node, steps, seen)
    decreases depth, |PartsOf(node)| + 2
  {
    match node
    case Literal(members) =>
      if steps[0].Member? {
        var direct := FindProperty(members, steps[0].name);
        if direct.Some? {
          MoreDepthProperty(w, mode, depth, file, direct.value, steps, seen, more);
        }
      }
    case Parenthesized(inner) => MoreDepth(w, mode, depth, TypeSite(file, inner), steps, seen, more);
    case Intersection(parts) => MoreDepthEach(w, mode, depth, TypeSites(file, parts), steps, seen, more);
    case Union(parts) => MoreDepthEach(w, mode, depth, TypeSites(file, parts), steps, seen, more);
    case ArrayOf(element) =>
      if steps[0].Element? {
        MoreDepth(w, mode, depth, TypeSite(file, element), steps[1..], seen, more);
      }
    case Operated(_, inner) => MoreDepth(w, mode, depth, TypeSite(file, inner), steps, seen, more);
    case Indexed(object_, index) =>
      if index.Some? {
        MoreDepth(w, mode, depth, TypeSite(file, object_), [Member(index.value)] + steps, seen, more);
      }
    case Reference(head, qualified, args) =>
      if head in PASSTHROUGH_WRAPPERS && args != [] {
        MoreDepth(w, mode, depth, TypeSite(file, args[0]), steps, seen, more);
      } else if head in ARRAY_WRAPPERS && args != [] {
        if steps[0].Element? {
          MoreDepth(w, mode, depth, TypeSite(file, args[0]), steps[1..], seen, more);
        }
      } else if !qualified && (file, head) in w.names {
        MoreDepth(w, mode, depth, DeclSite(w.names[(file, head)]), steps, seen, more);
      }
    case OtherType(_) =>
  }

  lemma {:induction false} MoreDepthEach(
    w: World, mode: Sharing, depth: nat, sites: seq<Site>, steps: Path, seen: set<Key>, more: nat)
    requires depth <= more && LookupEach(w, mode, depth, sites, steps, seen).DoneAll?
    ensures LookupEach(w, mode, more, sites, steps, seen) == LookupEach(w, mode, depth, sites, steps, seen)
    decreases depth, |sites| + 1
  {
    if sites != [] {
      MoreDepth(w, mode, depth, sites[0], steps, seen, more);
      var first := Lookup(w, mode, depth, sites[0], steps, seen);
      MoreDepthEach(w, mode, depth, sites[1..], steps, if mode.Shared? then first.seen else seen, more);
    }
  }

  // A stack depth at which the lookup answers. The path, and what it may still grow by before the
  // next declaration, stay within the bound.
  lemma {:induction false} Terminates(
    w: World, region: set<DeclId>, pot: Potential, mode: Sharing, site: Site, steps: Path, seen: set<Key>, bound: nat)
    returns (depth: nat)
    requires Settles(w, region, pot) && SiteWithin(w, region, pot, site, bound - |steps|)
    ensures Lookup(w, mode, depth, site, steps, seen).Done?
    decreases Unseen(w, bound, seen), SiteSize(site), 1
  {
    hide Within, Unseen, LookupDecl, LookupType;
    depth := 1;
    if steps != [] {
      match site
      case UnresolvedBase(_, _) =>
      case DeclSite(id) =>
        var key := Key(id, |steps|);
        if id in w.decls && !w.decls[id].decl.Enum? && key !in seen {
          var Entry(file, decl) := w.decls[id];
          FreshKey(w, id, |steps|, bound, seen);
          BodyWithinMore(w, region, pot, file, decl, pot(id), bound - |steps|);
          var below := TerminatesDecl(w, region, pot, mode, file, decl, steps, seen + {key}, bound);
          depth := below + 1;
        }
      case TypeSite(file, node) =>
        var below := TerminatesType(w, region, pot, mode, file, node, steps, seen, bound);
        depth := below + 1;
    }
  }

  function DeclSize(decl: Declaration): nat {
    match decl
    case Interface(members, bases) => 1 + MembersSize(members) + |bases|
    case Alias(body) => 1 + NodeSize(body)
    case Enum => 1
  }

  lemma {:induction false} TerminatesDecl(
    w: World, region: set<DeclId>, pot: Potential, mode: Sharing, file: FileId, decl: Declaration,
    steps: Path, seen: set<Key>, bound: nat)
    returns (depth: nat)
    requires Settles(w, region, pot) && steps != [] && !decl.Enum?
    requires BodyWithin(w, region, pot, file, decl, bound - |steps|)
    ensures LookupDecl(w, mode, depth, file, decl, steps, seen).Done?
    decreases Unseen(w, bound, seen), DeclSize(decl), 3
  {
    hide Within, Settles, Unseen, Lookup, LookupEach, LookupProperty;
    depth := 0;
    match decl
    case Alias(body) => depth := Terminates(w, region, pot, mode, TypeSite(file, body), steps, seen, bound);
    case Interface(members, bases) =>
      if steps[0].Member? {
        var direct := FindProperty(members, steps[0].name);
        if direct.Some? {
          depth := TerminatesProperty(w, region, pot, mode, file, members, direct.value, steps, seen, bound);
        } else if bases != [] {
          BaseSitesSize(w, file, bases);
          depth := TerminatesEach(w, region, pot, mode, BaseSites(w, file, bases), steps, seen, bound);
        }
      }
  }

  lemma {:induction false} BaseSitesSize(w: World, file: FileId, bases: seq<Heritage>)
    ensures SitesSize(BaseSites(w, file, bases)) == |bases|
  {
    if bases != [] {
      BaseSitesSize(w, file, bases[1..]);
      assert BaseSites(w, file, bases)[1..] == BaseSites(w, file, bases[1..]);
    }
  }

  lemma {:induction false} TerminatesProperty(
    w: World, region: set<DeclId>, pot: Potential, mode: Sharing, file: FileId, members: seq<Signature>,
    property: Signature, steps: Path, seen: set<Key>, bound: nat)
    returns (depth: nat)
    requires Settles(w, region, pot) && steps != [] && property.Property? && property in members
    requires WithinMembers(w, region, pot, file, members, bound - |steps|)
    ensures LookupProperty(w, mode, depth, file, property, steps, seen).Done?
    decreases Unseen(w, bound, seen), MembersSize(members), 2
  {
    hide Settles, Unseen, Lookup;
    depth := 0;
    if |steps| > 1 && property.ty.Some? {
      MemberSize(members, property);
      depth := Terminates(w, region, pot, mode, TypeSite(file, property.ty.value), steps[1..], seen, bound);
    }
  }

  lemma {:induction false} TerminatesType(
    w: World, region: set<DeclId>, pot: Potential, mode: Sharing, file: FileId, node: TypeNode,
    steps: Path, seen: set<Key>, bound: nat)
    returns (depth: nat)
    requires Settles(w, region, pot) && steps != [] && Within(w, region, pot, file, node, bound - |steps|)
    ensures LookupType(w, mode, depth, file, node, steps, seen).Done?
    decreases Unseen(w, bound, seen), NodeSize(node), 0
  {
    hide Settles, Unseen, Lookup, LookupEach, LookupProperty;
    depth := 0;
    match node
    case Literal(members) =>
      if steps[0].Member? {
        var direct := FindProperty(members, steps[0].name);
        if direct.Some? {
          depth := TerminatesProperty(w, region, pot, mode, file, members, direct.value, steps, seen, bound);
        }
      }
    case Parenthesized(inner) => depth := Terminates(w, region, pot, mode, TypeSite(file, inner), steps, seen, bound);
    case Intersection(parts) =>
      TypeSitesSize(file, parts);
      depth := TerminatesEach(w, region, pot, mode, TypeSites(file, parts), steps, seen, bound);
    case Union(parts) =>
      TypeSitesSize(file, parts);
      depth := TerminatesEach(w, region, pot, mode, TypeSites(file, parts), steps, seen, bound);
    case ArrayOf(element) =>
      if steps[0].Element? {
        depth := Terminates(w, region, pot, mode, TypeSite(file, element), steps[1..], seen, bound);
      }
    case Operated(_, inner) => depth := Terminates(w, region, pot, mode, TypeSite(file, inner), steps, seen, bound);
    case Indexed(object_, index) =>
      if index.Some? {
        depth := Terminates(w, region, pot, mode, TypeSite(file, object_), [Member(index.value)] + steps, seen, bound);
      }
    case Reference(head, qualified, args) =>
      assert args != [] ==> NodeSize(args[0]) < NodesSize(args);
      if head in PASSTHROUGH_WRAPPERS && args != [] {
        depth := Terminates(w, region, pot, mode, TypeSite(file, args[0]), steps, seen, bound);
      } else if head in ARRAY_WRAPPERS && args != [] {
        if steps[0].Element? {
          depth := Terminates(w, region, pot, mode, TypeSite(file, args[0]), steps[1..], seen, bound);
        }
      } else if !qualified && (file, head) in w.names {
        depth := Terminates(w, region, pot, mode, DeclSite(w.names[(file, head)]), steps, seen, bound);
      }
    case OtherType(_) =>
  }

  lemma {:induction false} TerminatesEach(
    w: World, region: set<DeclId>, pot: Potential, mode: Sharing, sites: seq<Site>,
    steps: Path, seen: set<Key>, bound: nat)
    returns (depth: nat)
    requires Settles(w, region, pot)
    requires forall i :: 0 <= i < |sites| ==> SiteWithin(w, region, pot, sites[i], bound - |steps|)
    ensures LookupEach(w, mode, depth, sites, steps, seen).DoneAll?
    decreases Unseen(w, bound, seen), SitesSize(sites), 2
  {
    hide Settles, Unseen, SiteWithin, Lookup;
    depth := 0;
    if sites != [] {
      var first := Terminates(w, region, pot, mode, sites[0], steps, seen, bound);
      var head := Lookup(w, mode, first, sites[0], steps, seen);
      var seen' := if mode.Shared? then head.seen else seen;
      UnseenShrinks(w, bound, seen, seen');
      var rest := TerminatesEach(w, region, pot, mode, sites[1..], steps, seen', bound);
      depth := if first > rest then first else rest;
      MoreDepth(w, mode, first, sites[0], steps, seen, depth);
      MoreDepthEach(w, mode, rest, sites[1..], steps, seen', depth);
    }
  }

  // The check ends with this outcome at every stack depth from `depth` on.
  ghost predicate AnswersFrom(w: World, root: DeclId, steps: Path, depth: nat, outcome: Outcome) {
    outcome.Done? && forall more: nat :: more >= depth ==> LookupPath(w, more, root, steps) == outcome
  }

  // When no cycle that can be reached lengthens the path on balance, every path gets an answer, the
  // same at every sufficient stack depth.
  lemma LookupPathTerminates(w: World, region: set<DeclId>, pot: Potential, root: DeclId, steps: Path)
    requires Settles(w, region, pot) && root in region
    ensures exists depth, outcome :: AnswersFrom(w, root, steps, depth, outcome)
  {
    var depth := 1;
    if root in w.decls {
      depth := Terminates(w, region, pot, Shared, DeclSite(root), steps, {}, |steps| + pot(root));
    }
    var outcome := LookupPath(w, depth, root, steps);
    forall more: nat | more >= depth ensures LookupPath(w, more, root, steps) == outcome {
      MoreDepth(w, Shared, depth, DeclSite(root), steps, {}, more);
    }
    assert AnswersFrom(w, root, steps, depth, outcome);
  }

  // `type A = A["x"]`: the path grows at every visit, so no key repeats and no stack suffices.
  function SelfIndexing(): World {
    World(map[0 := Entry(0, Alias(Indexed(Reference("A", false, []), Some("x"))))], map[(0, "A") := 0])
  }

  lemma {:induction false} SelfIndexingDiverges(depth: nat, steps: Path, seen: set<Key>)
    requires steps != [] && forall n: nat :: n >= |steps| ==> Key(0, n) !in seen
    ensures Lookup(SelfIndexing(), Shared, depth, DeclSite(0), steps, seen) == Overflow
    decreases depth
  {
    var longer := [Member("x")] + steps;
    var w, seen' := SelfIndexing(), seen + {Key(0, |steps|)};
    var a := Reference("A", false, []);
    if depth >= 3 {
      SelfIndexingDiverges(depth - 3, longer, seen');
    }
    if depth >= 2 {
      assert Lookup(w, Shared, depth - 2, TypeSite(0, a), longer, seen') == Overflow;
    }
    if depth >= 1 {
      assert Lookup(w, Shared, depth - 1, TypeSite(0, Indexed(a, Some("x"))), steps, seen') == Overflow;
    }
  }
}
