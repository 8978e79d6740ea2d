/**
 What it means for a declared type to have a member path, and soundness of the
 lookup against it. Membership is any relation that respects the structure of the
 types; where a type cannot be seen through, the relation is unconstrained.
 */
module TypeMembership {
  import opened TypePaths
  import opened Wrappers

  // What the structure of a type says about one path.
  datatype Meaning =
    | Present
    | Absent
    | Open                           // not determined by the declarations
    | SameAs(site: Site, steps: Path)
    | InSome(sites: seq<Site>)       // some part has the path
    | InBranches(sites: seq<Site>)   // between all branches and some branch

  function PropertyMeaning(file: FileId, property: Signature, steps: Path): Meaning
    requires steps != [] && property.Property?
  {
    if |steps| == 1 then Present
    else if property.ty.None? then Open
    else SameAs(TypeSite(file, property.ty.value), steps[1..])
  }

  // Methods are members too, and an index signature admits every name.
  function UndeclaredMeaning(members: seq<Signature>, steps: Path, otherwise: Meaning): Meaning
    requires steps != [] && steps[0].Member?
  {
    if Method(steps[0].name) in members || IndexSignature in members then
      if |steps| == 1 then Present else Open
    else otherwise
  }

  function MembersMeaning(file: FileId, members: seq<Signature>, steps: Path, otherwise: Meaning): Meaning
    requires steps != []
  {
    if steps[0].Element? then Open
    else
      var direct := FindProperty(members, steps[0].name);
      if direct.Some? then PropertyMeaning(file, direct.value, steps)
      else UndeclaredMeaning(members, steps, otherwise)
  }

  function TypeMeaning(w: World, file: FileId, node: TypeNode, steps: Path): Meaning
    requires steps != []
  {
    match node
    case Literal(members) => MembersMeaning(file, members, steps, Absent)
    case Parenthesized(inner) => SameAs(TypeSite(file, inner), steps)
    case Intersection(parts) => InSome(TypeSites(file, parts))
    case Union(parts) => if parts == [] then Open else InBranches(TypeSites(file, parts))
    case ArrayOf(element) => if steps[0].Element? then SameAs(TypeSite(file, element), steps[1..]) else Open
    case Operated(op, inner) => if op.ReadOnly? then SameAs(TypeSite(file, inner), steps) else Open
    case Indexed(object_, index) =>
      if index.Some? then SameAs(TypeSite(file, object_), [Member(index.value)] + steps) else Open
    case Reference(head, qualified, args) =>
      if qualified then Open
      else if (file, head) in w.names then SameAs(DeclSite(w.names[(file, head)]), steps)
      else if head in PASSTHROUGH_WRAPPERS && args != [] then SameAs(TypeSite(file, args[0]), steps)
      else if head in ARRAY_WRAPPERS && args != [] && steps[0].Element? then SameAs(TypeSite(file, args[0]), steps[1..])
      else Open
    case OtherType(_) => Open
  }

  function MeaningOf(w: World, site: Site, steps: Path): Meaning {
    if steps == [] then Present
    else
      match site
      case UnresolvedBase(_, _) => Open
      case DeclSite(id) =>
        if id !in w.decls then Open
        else
          var file := w.decls[id].file;
          (match w.decls[id].decl
           case Interface(members, bases) =>
             MembersMeaning(file, members, steps, InSome(BaseSites(w, file, bases)))
           case Alias(body) => SameAs(TypeSite(file, body), steps)
           case Enum => Open)
      case TypeSite(file, node) => TypeMeaning(w, file, node, steps)
  }

  type Relation = (Site, Path) -> bool

  ghost predicate InAny(has: Relation, sites: seq<Site>, steps: Path) {
    exists i :: 0 <= i < |sites| && has(sites[i], steps)
  }

  ghost predicate InEvery(has: Relation, sites: seq<Site>, steps: Path) {
    forall i :: 0 <= i < |sites| ==> has(sites[i], steps)
  }

  ghost predicate Respects(w: World, has: Relation, site: Site, steps: Path) {
    match MeaningOf(w, site, steps)
    case Present => has(site, steps)
    case Absent => !has(site, steps)
    case Open => true
    case SameAs(site', steps') => has(site, steps) == has(site', steps')
    case InSome(sites) => has(site, steps) == InAny(has, sites, steps)
    case InBranches(sites) =>
      && (InEvery(has, sites, steps) ==> has(site, steps))
      && (has(site, steps) ==> InAny(has, sites, steps))
  }

  // `has` is a membership relation of the declarations.
  ghost predicate IsMembership(w: World, has: Relation) {
    forall site, steps :: Respects(w, has, site, steps)
  }

  // An answer does not contradict the truth; unknown never does.
  predicate Sound(answer: Answer, truth: bool) {
    (answer.Found? ==> truth) && (answer.Missing? ==> !truth)
  }

  // The constructs for which the lookup and the declarations agree: names declared by property
  // signatures, no `keyof` or `unique`, non-empty unions, and wrapper names that mean the global wrappers.
  // What the walk never enters is not asked about, and references lead into the region.
  ghost predicate Plain(w: World, region: set<DeclId>, file: FileId, node: TypeNode)
    decreases node, 2
  {
    match node
    case Literal(members) => PlainMembers(w, region, file, members)
    case Parenthesized(inner) => Plain(w, region, file, inner)
    case Intersection(parts) => forall part :: part in parts ==> Plain(w, region, file, part)
    case Union(parts) => parts != [] && forall part :: part in parts ==> Plain(w, region, file, part)
    case ArrayOf(element) => Plain(w, region, file, element)
    case Operated(op, inner) => op.ReadOnly? && Plain(w, region, file, inner)
    case Indexed(object_, index) => index.Some? ==> Plain(w, region, file, object_)
    case Reference(head, qualified, args) =>
      if IsWrapper(head) && args != [] then !qualified && (file, head) !in w.names && Plain(w, region, file, args[0])
      else !qualified && (file, head) in w.names ==> w.names[(file, head)] in region
    case OtherType(_) => true
  }

  predicate IsWrapper(head: string) {
    head in PASSTHROUGH_WRAPPERS || head in ARRAY_WRAPPERS
  }

  ghost predicate PlainProperties(w: World, region: set<DeclId>, file: FileId, members: seq<Signature>)
    decreases members, 0
  {
    forall m :: m in members && m.Property? && m.ty.Some? ==> Plain(w, region, file, m.ty.value)
  }

  ghost predicate PlainMembers(w: World, region: set<DeclId>, file: FileId, members: seq<Signature>)
    decreases members, 1
  {
    OnlyProperties(members) && PlainProperties(w, region, file, members)
  }

  // Every member name is one the lookup can see.
  predicate OnlyProperties(members: seq<Signature>) {
    forall m :: m in members ==> !m.IndexSignature? && (m.Method? ==> FindProperty(members, m.name).Some?)
  }

  ghost predicate PlainDecl(w: World, region: set<DeclId>, file: FileId, decl: Declaration) {
    match decl
    case Interface(members, bases) =>
      && PlainMembers(w, region, file, members)
      && forall i :: 0 <= i < |bases| ==> PlainSite(w, region, BaseSite(w, file, bases[i]))
    case Alias(body) => Plain(w, region, file, body)
    case Enum => true
  }

  // A set of declarations that are plain and refer to no declaration outside it. The least one that
  // holds a declaration is what can be reached from it.
  ghost predicate PlainRegion(w: World, region: set<DeclId>) {
    forall id :: id in region && id in w.decls ==> PlainDecl(w, region, w.decls[id].file, w.decls[id].decl)
  }

  ghost predicate PlainSite(w: World, region: set<DeclId>, site: Site) {
    match site
    case UnresolvedBase(_, _) => true
    case DeclSite(id) => id in region
    case TypeSite(file, node) => Plain(w, region, file, node)
  }

  // Whatever was seen before, a definite answer is true in every membership relation.
  lemma {:induction false} LookupIsSound(
    w: World, region: set<DeclId>, mode: Sharing, has: Relation, depth: nat, site: Site, steps: Path, seen: set<Key>)
    requires PlainRegion(w, region) && PlainSite(w, region, site) && IsMembership(w, has)
    ensures var r := Lookup(w, mode, depth, site, steps, seen); r.Done? ==> Sound(r.answer, has(site, steps))
    decreases depth, 0
  {
    assert Respects(w, has, site, steps);
    if depth > 0 && steps != [] {
      match site
      case UnresolvedBase(_, _) =>
      case TypeSite(file, node) => LookupTypeIsSound(w, region, mode, has, depth - 1, file, node, steps, seen);
      case DeclSite(id) =>
        if id in w.decls && !w.decls[id].decl.Enum? && Key(id, |steps|) !in seen {
          LookupDeclIsSound(w, region, mode, has, depth - 1, id, steps, seen + {Key(id, |steps|)});
        }
    }
  }

  lemma {:induction false} LookupDeclIsSound(
    w: World, region: set<DeclId>, mode: Sharing, has: Relation, depth: nat, id: DeclId, steps: Path, seen: set<Key>)
    requires PlainRegion(w, region) && IsMembership(w, has) && steps != [] && id in region
    requires id in w.decls && !w.decls[id].decl.Enum?
    ensures var r := LookupDecl(w, mode, depth, w.decls[id].file, w.decls[id].decl, steps, seen);
            r.Done? ==> Sound(r.answer, has(DeclSite(id), steps))
    decreases depth, |BasesOf(w.decls[id].decl)| + 2
  {
    hide Lookup, LookupEach, LookupProperty, Plain;
    var Entry(file, decl) := w.decls[id];
    assert PlainDecl(w, region, file, decl);
    assert Respects(w, has, DeclSite(id), steps);
    match decl
    case Alias(body) => LookupIsSound(w, region, mode, has, depth, TypeSite(file, body), steps, seen);
    case Interface(members, bases) =>
      if steps[0].Member? {
        var direct := FindProperty(members, steps[0].name);
        if direct.Some? {
          assert PlainProperties(w, region, file, members);
          LookupPropertyIsSound(w, region, mode, has, depth, file, direct.value, steps, seen);
        } else {
          LookupEachIsSound(w, region, mode, has, depth, BaseSites(w, file, bases), steps, seen);
        }
      }
  }

  lemma {:induction false} LookupPropertyIsSound(
    w: World, region: set<DeclId>, mode: Sharing, has: Relation, depth: nat, file: FileId, property: Signature,
    steps: Path, seen: set<Key>)
    requires PlainRegion(w, region) && IsMembership(w, has) && steps != []
    requires property.Property? && (property.ty.Some? ==> Plain(w, region, file, property.ty.value))
    ensures var r := LookupProperty(w, mode, depth, file, property, steps, seen);
            r.Done? ==>
              match PropertyMeaning(file, property, steps)
              case Present => !r.answer.Missing?
              case SameAs(site, rest) => Sound(r.answer, has(site, rest))
              case _ => r.answer.Unknown?
    decreases depth, 1
  {
    if |steps| > 1 && property.ty.Some? {
      LookupIsSound(w, region, mode, has, depth, TypeSite(file, property.ty.value), steps[1..], seen);
    }
  }

  lemma {:induction false} LookupTypeIsSound(
    w: World, region: set<DeclId>, mode: Sharing, has: Relation, depth: nat, file: FileId, node: TypeNode,
    steps: Path, seen: set<Key>)
    requires PlainRegion(w, region) && Plain(w, region, file, node) && IsMembership(w, has) && steps != []
    ensures var r := LookupType(w, mode, depth, file, node, steps, seen);
            r.Done? ==> Sound(r.answer, has(TypeSite(file, node), steps))
    decreases depth, |PartsOf(node)| + 2
  {
    hide Lookup, LookupEach, LookupProperty;
    assert Respects(w, has, TypeSite(file, node), steps);
    match node
    case Literal(members) =>
      if steps[0].Member? {
        var direct := FindProperty(members, steps[0].name);
        if direct.Some? {
          assert PlainProperties(w, region, file, members);
          LookupPropertyIsSound(w, region, mode, has, depth, file, direct.value, steps, seen);
        }
      }
    case Parenthesized(inner) => LookupIsSound(w, region, mode, has, depth, TypeSite(file, inner), steps, seen);
    case Intersection(parts) => LookupEachIsSound(w, region, mode, has, depth, TypeSites(file, parts), steps, seen);
    case Union(parts) => LookupEachIsSound(w, region, mode, has, depth, TypeSites(file, parts), steps, seen);
    case ArrayOf(element) =>
      if steps[0].Element? {
        LookupIsSound(w, region, mode, has, depth, TypeSite(file, element), steps[1..], seen);
      }
    case Operated(_, inner) => LookupIsSound(w, region, mode, has, depth, TypeSite(file, inner), steps, seen);
    case Indexed(object_, index) =>
      if index.Some? {
        LookupIsSound(w, region, mode, has, depth, TypeSite(file, object_), [Member(index.value)] + steps, seen);
      }
    case Reference(head, qualified, args) =>
      if head in PASSTHROUGH_WRAPPERS && args != [] {
        LookupIsSound(w, region, mode, has, depth, TypeSite(file, args[0]), steps, seen);
      } else if head in ARRAY_WRAPPERS && args != [] {
        if steps[0].Element? {
          LookupIsSound(w, region, mode, has, depth, TypeSite(file, args[0]), steps[1..], seen);
        }
      } else if !qualified && (file, head) in w.names {
        LookupIsSound(w, region, mode, has, depth, DeclSite(w.names[(file, head)]), steps, seen);
      }
    case OtherType(_) =>
  }

  lemma {:induction false} LookupEachIsSound(
    w: World, region: set<DeclId>, mode: Sharing, has: Relation, depth: nat, sites: seq<Site>, steps: Path,
    seen: set<Key>)
    requires PlainRegion(w, region) && IsMembership(w, has)
    requires forall i :: 0 <= i < |sites| ==> PlainSite(w, region, sites[i])
    ensures var r := LookupEach(w, mode, depth, sites, steps, seen);
            r.DoneAll? ==>
              && |r.answers| == |sites|
              && forall i :: 0 <= i < |sites| ==> Sound(r.answers[i], has(sites[i], steps))
    decreases depth, |sites| + 1
  {
    if sites != [] {
      LookupIsSound(w, region, mode, has, depth, sites[0], steps, seen);
      var first := Lookup(w, mode, depth, sites[0], steps, seen);
      if first.Done? {
        LookupEachIsSound(w, region, mode, has, depth, sites[1..], steps, if mode.Shared? then first.seen else seen);
      }
    }
  }

  // The check itself: a reported miss is a real miss, a hit a real hit, for every reading of the
  // types that could not be resolved.
  lemma LookupPathIsSound(w: World, region: set<DeclId>, has: Relation, depth: nat, root: DeclId, steps: Path)
    requires PlainRegion(w, region) && root in region && IsMembership(w, has)
    ensures var r := LookupPath(w, depth, root, steps); r.Done? ==> Sound(r.answer, has(DeclSite(root), steps))
  {
    LookupIsSound(w, region, Shared, has, depth, DeclSite(root), steps, {});
  }

  // The least membership relation under a given reading of the undetermined paths.
  least predicate Has(w: World, reading: Relation, site: Site, steps: Path) {
    match MeaningOf(w, site, steps)
    case Present => true
    case Absent => false
    case Open => reading(site, steps)
    case SameAs(site', steps') => Has(w, reading, site', steps')
    case InSome(sites) => exists i :: 0 <= i < |sites| && Has(w, reading, sites[i], steps)
    case InBranches(sites) => forall i :: 0 <= i < |sites| ==> Has(w, reading, sites[i], steps)
  }

  ghost function Membership(w: World, reading: Relation): Relation {
    (site, steps) => Has(w, reading, site, steps)
  }

  // However unresolved types are read, there is a membership relation with that reading.
  lemma EveryReadingHasMembership(w: World, reading: Relation)
    ensures IsMembership(w, Membership(w, reading))
    ensures forall site, steps :: MeaningOf(w, site, steps).Open? ==>
              Membership(w, reading)(site, steps) == reading(site, steps)
  {
    var has := Membership(w, reading);
    forall site, steps ensures Respects(w, has, site, steps) {
      match MeaningOf(w, site, steps)
      case InBranches(sites) =>
        assert sites != [];
        assert has(site, steps) == InEvery(has, sites, steps);
        assert InEvery(has, sites, steps) ==> has(sites[0], steps);
      case _ =>
    }
  }

  // Where the declarations say nothing, only `unknown` is sound.
  lemma OpenNeedsUnknown(w: World, site: Site, steps: Path, answer: Answer)
    requires MeaningOf(w, site, steps).Open?
    ensures (forall has: Relation :: IsMembership(w, has) ==> Sound(answer, has(site, steps))) <==> answer == Unknown
  {
    if forall has: Relation :: IsMembership(w, has) ==> Sound(answer, has(site, steps)) {
      EveryReadingHasMembership(w, (_, _) => true);
      EveryReadingHasMembership(w, (_, _) => false);
      assert Sound(answer, Membership(w, (_, _) => true)(site, steps));
      assert Sound(answer, Membership(w, (_, _) => false)(site, steps));
    }
  }
}
