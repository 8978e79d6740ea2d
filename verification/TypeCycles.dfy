/**
 A simple reason for termination: no indexed access lies on a cycle of declarations. Then the number
 of declarations that can still be reached, scaled by the size of the largest one, is a potential.
 */
module TypeCycles {
  import opened TypePaths
  import opened TypeTermination
  import opened Wrappers

  // The walk of a type can arrive at declaration d.
  ghost predicate Follows(w: World, file: FileId, node: TypeNode, d: DeclId) {
    match node
    case Literal(members) => exists m :: m in members && m.Property? && m.ty.Some? && Follows(w, file, m.ty.value, d)
    case Parenthesized(inner) => Follows(w, file, inner, d)
    case Intersection(parts) => exists part :: part in parts && Follows(w, file, part, d)
    case Union(parts) => exists part :: part in parts && Follows(w, file, part, d)
    case ArrayOf(element) => Follows(w, file, element, d)
    case Operated(_, inner) => Follows(w, file, inner, d)
    case Indexed(object_, index) => index.Some? && Follows(w, file, object_, d)
    case Reference(head, qualified, args) =>
      if head in PASSTHROUGH_WRAPPERS + ARRAY_WRAPPERS && args != [] then Follows(w, file, args[0], d)
      else !qualified && (file, head) in w.names && w.names[(file, head)] == d
    case OtherType(_) => false
  }

  // ... and does so underneath an indexed access.
  ghost predicate FollowsIndexed(w: World, file: FileId, node: TypeNode, d: DeclId) {
    match node
    case Literal(members) =>
      exists m :: m in members && m.Property? && m.ty.Some? && FollowsIndexed(w, file, m.ty.value, d)
    case Parenthesized(inner) => FollowsIndexed(w, file, inner, d)
    case Intersection(parts) => exists part :: part in parts && FollowsIndexed(w, file, part, d)
    case Union(parts) => exists part :: part in parts && FollowsIndexed(w, file, part, d)
    case ArrayOf(element) => FollowsIndexed(w, file, element, d)
    case Operated(_, inner) => FollowsIndexed(w, file, inner, d)
    case Indexed(object_, index) => index.Some? && Follows(w, file, object_, d)
    case Reference(head, qualified, args) =>
      head in PASSTHROUGH_WRAPPERS + ARRAY_WRAPPERS && args != [] && FollowsIndexed(w, file, args[0], d)
    case OtherType(_) => false
  }

  ghost predicate DeclFollows(w: World, id: DeclId, d: DeclId) {
    id in w.decls &&
    match w.decls[id].decl
    case Interface(members, bases) =>
      || Follows(w, w.decls[id].file, Literal(members), d)
      || DeclSite(d) in BaseSites(w, w.decls[id].file, bases)
    case Alias(body) => Follows(w, w.decls[id].file, body, d)
    case Enum => false
  }

  ghost predicate DeclFollowsIndexed(w: World, id: DeclId, d: DeclId) {
    id in w.decls &&
    match w.decls[id].decl
    case Interface(members, _) => FollowsIndexed(w, w.decls[id].file, Literal(members), d)
    case Alias(body) => FollowsIndexed(w, w.decls[id].file, body, d)
    case Enum => false
  }

  ghost predicate IsWalk(w: World, walk: seq<DeclId>) {
    && walk != []
    && forall i :: 0 <= i < |walk| - 1 ==> DeclFollows(w, walk[i], walk[i + 1])
  }

  ghost predicate Reaches(w: World, a: DeclId, b: DeclId) {
    exists walk :: IsWalk(w, walk) && walk[0] == a && walk[|walk| - 1] == b
  }

  // No indexed access lies on a cycle of declarations.
  ghost predicate NoIndexedCycle(w: World) {
    forall id, d :: DeclFollowsIndexed(w, id, d) ==> !Reaches(w, d, id)
  }

  ghost function ReachSet(w: World, id: DeclId): set<DeclId> {
    set e | e in w.decls && Reaches(w, id, e)
  }

  // How many declarations a declaration can reach.
  ghost function Rank(w: World, id: DeclId): nat {
    |ReachSet(w, id)|
  }

  lemma ReachesItself(w: World, id: DeclId)
    ensures Reaches(w, id, id)
  {
    assert IsWalk(w, [id]);
  }

  lemma ReachesAfterStep(w: World, a: DeclId, b: DeclId, c: DeclId)
    requires DeclFollows(w, a, b) && Reaches(w, b, c)
    ensures Reaches(w, a, c)
  {
    var walk :| IsWalk(w, walk) && walk[0] == b && walk[|walk| - 1] == c;
    var longer := [a] + walk;
    forall i | 0 <= i < |longer| - 1 ensures DeclFollows(w, longer[i], longer[i + 1]) {
      if i > 0 {
        assert DeclFollows(w, walk[i - 1], walk[i]);
      }
    }
    assert IsWalk(w, longer);
  }

  // Following a declaration never raises the rank; following it under an indexed access lowers it.
  lemma RankFollows(w: World, a: DeclId, b: DeclId)
    requires DeclFollows(w, a, b)
    ensures Rank(w, b) <= Rank(w, a)
    ensures NoIndexedCycle(w) && DeclFollowsIndexed(w, a, b) ==> Rank(w, b) < Rank(w, a)
  {
    forall e | Reaches(w, b, e) ensures Reaches(w, a, e) {
      ReachesAfterStep(w, a, b, e);
    }
    SubsetSize(ReachSet(w, b), ReachSet(w, a));
    ReachesItself(w, a);
    assert a in ReachSet(w, a);
  }

  lemma {:induction false} IndexedIsFollowed(w: World, file: FileId, node: TypeNode, d: DeclId)
    requires FollowsIndexed(w, file, node, d)
    ensures Follows(w, file, node, d)
    decreases node
  {
    match node
    case Literal(members) =>
      var m :| m in members && m.Property? && m.ty.Some? && FollowsIndexed(w, file, m.ty.value, d);
      IndexedIsFollowed(w, file, m.ty.value, d);
    case Parenthesized(inner) => IndexedIsFollowed(w, file, inner, d);
    case Intersection(parts) =>
      var part :| part in parts && FollowsIndexed(w, file, part, d);
      IndexedIsFollowed(w, file, part, d);
    case Union(parts) =>
      var part :| part in parts && FollowsIndexed(w, file, part, d);
      IndexedIsFollowed(w, file, part, d);
    case ArrayOf(element) => IndexedIsFollowed(w, file, element, d);
    case Operated(_, inner) => IndexedIsFollowed(w, file, inner, d);
    case Indexed(_, _) =>
    case Reference(_, _, args) => IndexedIsFollowed(w, file, args[0], d);
    case OtherType(_) =>
  }

  // Everything a name can resolve to.
  ghost function AllDeclarations(w: World): set<DeclId> {
    w.decls.Keys + w.names.Values
  }

  // What the walk of a node arrives at is low enough, by the node's size under an indexed access.
  lemma {:induction false} LowIsWithin(w: World, pot: Potential, file: FileId, node: TypeNode, level: int)
    requires forall d :: Follows(w, file, node, d) ==> pot(d) <= level
    requires forall d :: FollowsIndexed(w, file, node, d) ==> pot(d) + NodeSize(node) <= level
    ensures Within(w, AllDeclarations(w), pot, file, node, level)
    decreases node
  {
    match node
    case Literal(members) =>
      forall m | m in members && m.Property? && m.ty.Some?
        ensures Within(w, AllDeclarations(w), pot, file, m.ty.value, level + 1)
      {
        MemberSize(members, m);
        PartIsLow(w, pot, file, node, m.ty.value, level);
        LowIsWithin(w, pot, file, m.ty.value, level + 1);
      }
    case Parenthesized(inner) => LowIsWithin(w, pot, file, inner, level);
    case Intersection(parts) => PartsAreWithin(w, pot, file, node, parts, level);
    case Union(parts) => PartsAreWithin(w, pot, file, node, parts, level);
    case ArrayOf(element) => LowIsWithin(w, pot, file, element, level + 1);
    case Operated(_, inner) => LowIsWithin(w, pot, file, inner, level);
    case Indexed(object_, index) =>
      if index.Some? {
        forall d | FollowsIndexed(w, file, object_, d) ensures pot(d) + NodeSize(object_) <= level - 1 {
          IndexedIsFollowed(w, file, object_, d);
        }
        LowIsWithin(w, pot, file, object_, level - 1);
      }
    case Reference(head, qualified, args) =>
      if head in PASSTHROUGH_WRAPPERS + ARRAY_WRAPPERS && args != [] {
        assert NodeSize(args[0]) < NodesSize(args);
        LowIsWithin(w, pot, file, args[0], if head in PASSTHROUGH_WRAPPERS then level else level + 1);
      } else if !qualified && (file, head) in w.names {
        assert Follows(w, file, node, w.names[(file, head)]);
      }
    case OtherType(_) =>
  }

  predicate IsPartOf(part: TypeNode, node: TypeNode) {
    match node
    case Literal(members) => exists m :: m in members && m.Property? && m.ty == Some(part)
    case Intersection(parts) => part in parts
    case Union(parts) => part in parts
    case _ => false
  }

  lemma PartIsLow(w: World, pot: Potential, file: FileId, node: TypeNode, part: TypeNode, level: int)
    requires IsPartOf(part, node) && NodeSize(part) <= NodeSize(node)
    requires forall d :: Follows(w, file, node, d) ==> pot(d) <= level
    requires forall d :: FollowsIndexed(w, file, node, d) ==> pot(d) + NodeSize(node) <= level
    ensures forall d :: Follows(w, file, part, d) ==> pot(d) <= level
    ensures forall d :: FollowsIndexed(w, file, part, d) ==> pot(d) + NodeSize(part) <= level
  {
    forall d | Follows(w, file, part, d) ensures pot(d) <= level {
      assert Follows(w, file, node, d);
    }
    forall d | FollowsIndexed(w, file, part, d) ensures pot(d) + NodeSize(part) <= level {
      assert FollowsIndexed(w, file, node, d);
    }
  }

  lemma {:induction false} PartsAreWithin(
    w: World, pot: Potential, file: FileId, node: TypeNode, parts: seq<TypeNode>, level: int)
    requires node == Intersection(parts) || node == Union(parts)
    requires forall d :: Follows(w, file, node, d) ==> pot(d) <= level
    requires forall d :: FollowsIndexed(w, file, node, d) ==> pot(d) + NodeSize(node) <= level
    ensures forall part :: part in parts ==> Within(w, AllDeclarations(w), pot, file, part, level)
    decreases node, 0
  {
    forall part | part in parts ensures Within(w, AllDeclarations(w), pot, file, part, level) {
      var i :| 0 <= i < |parts| && parts[i] == part;
      PartSize(parts, i);
      PartIsLow(w, pot, file, node, part, level);
      LowIsWithin(w, pot, file, part, level);
    }
  }

  lemma {:induction false} PartSize(parts: seq<TypeNode>, i: nat)
    requires i < |parts|
    ensures NodeSize(parts[i]) < NodesSize(parts)
  {
    if i > 0 {
      PartSize(parts[1..], i - 1);
    }
  }

  // A declaration's contents as one node.
  function BodyOf(decl: Declaration): TypeNode {
    match decl
    case Interface(members, _) => Literal(members)
    case Alias(body) => body
    case Enum => OtherType(0)
  }

  lemma {:induction false} LargestBody(w: World, ids: set<DeclId>) returns (scale: nat)
    requires ids <= w.decls.Keys
    ensures forall id :: id in ids ==> NodeSize(BodyOf(w.decls[id].decl)) <= scale
    decreases |ids|
  {
    scale := 0;
    if id :| id in ids {
      var rest := LargestBody(w, ids - {id});
      var size := NodeSize(BodyOf(w.decls[id].decl));
      scale := if rest < size then size else rest;
      assert forall other :: other in ids ==> other == id || other in ids - {id};
    }
  }

  ghost function ScaledRank(w: World, scale: nat): Potential {
    d => Scaled(scale, Rank(w, d))
  }

  function Scaled(scale: nat, rank: nat): nat {
    if rank == 0 then 0 else Scaled(scale, rank - 1) + scale
  }

  lemma {:induction false} ScaledLess(scale: nat, a: nat, b: nat)
    ensures a <= b ==> Scaled(scale, a) <= Scaled(scale, b)
    ensures a < b ==> Scaled(scale, a) + scale <= Scaled(scale, b)
    decreases b
  {
    if a < b {
      ScaledLess(scale, a, b - 1);
    }
  }

  lemma BodySettles(w: World, id: DeclId, scale: nat)
    requires NoIndexedCycle(w) && id in w.decls && NodeSize(BodyOf(w.decls[id].decl)) <= scale
    ensures var Entry(file, decl) := w.decls[id];
            BodyWithin(w, AllDeclarations(w), ScaledRank(w, scale), file, decl, Scaled(scale, Rank(w, id)))
  {
    hide Rank, NoIndexedCycle, Scaled;
    var Entry(file, decl) := w.decls[id];
    var pot, level, node := ScaledRank(w, scale), Scaled(scale, Rank(w, id)), BodyOf(decl);
    forall d | DeclFollows(w, id, d) ensures pot(d) <= level {
      RankFollows(w, id, d);
      ScaledLess(scale, Rank(w, d), Rank(w, id));
    }
    forall d | FollowsIndexed(w, file, node, d) ensures pot(d) + NodeSize(node) <= level {
      IndexedIsFollowed(w, file, node, d);
      assert DeclFollows(w, id, d) && DeclFollowsIndexed(w, id, d);
      RankFollows(w, id, d);
      ScaledLess(scale, Rank(w, d), Rank(w, id));
    }
    forall d | Follows(w, file, node, d) ensures pot(d) <= level {
      assert DeclFollows(w, id, d);
    }
    LowIsWithin(w, pot, file, node, level);
    if decl.Interface? {
      forall i | 0 <= i < |decl.bases|
        ensures SiteWithin(w, AllDeclarations(w), pot, BaseSite(w, file, decl.bases[i]), level)
      {
        var site := BaseSites(w, file, decl.bases)[i];
        assert site in BaseSites(w, file, decl.bases);
        if site.DeclSite? {
          assert DeclFollows(w, id, site.id);
        }
      }
    }
  }

  // Without an indexed access on a cycle no cycle lengthens the path on balance.
  lemma NoIndexedCycleSettles(w: World) returns (pot: Potential)
    requires NoIndexedCycle(w)
    ensures Settles(w, AllDeclarations(w), pot)
  {
    var scale := LargestBody(w, w.decls.Keys);
    pot := ScaledRank(w, scale);
    forall id | id in w.decls
      ensures BodyWithin(w, AllDeclarations(w), pot, w.decls[id].file, w.decls[id].decl, pot(id))
    {
      BodySettles(w, id, scale);
    }
  }

  lemma NoIndexedCycleTerminates(w: World, root: DeclId, steps: Path)
    requires NoIndexedCycle(w) && root in w.decls
    ensures exists depth, outcome :: AnswersFrom(w, root, steps, depth, outcome)
  {
    var pot := NoIndexedCycleSettles(w);
    LookupPathTerminates(w, AllDeclarations(w), pot, root, steps);
  }

  // `interface C { model: string; fallback: C["model"] }` has an indexed access on a cycle, but the
  // member hop before it pays for it.
  function SelfIndexedConfig(): World {
    var fallback := Property("fallback", Some(Indexed(Reference("C", false, []), Some("model"))));
    World(map[0 := Entry(0, Interface([Property("model", Some(OtherType(0))), fallback], []))], map[(0, "C") := 0])
  }

  lemma SelfIndexedConfigSettles()
    ensures !NoIndexedCycle(SelfIndexedConfig())
    ensures Settles(SelfIndexedConfig(), {0}, _ => 0)
  {
    var w := SelfIndexedConfig();
    var members := w.decls[0].decl.members;
    var index := members[1].ty.value;
    assert Follows(w, 0, Reference("C", false, []), 0);
    assert FollowsIndexed(w, 0, index, 0);
    assert members[1] in members;
    assert DeclFollowsIndexed(w, 0, 0);
    ReachesItself(w, 0);
    assert Within(w, {0}, _ => 0, 0, Reference("C", false, []), 0);
  }
}
