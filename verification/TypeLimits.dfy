/**
 Where the lookup is not sound: operators, names that only look like wrappers, and members that are not
 property signatures. For each, when the answers are sound all the same, and an input on which they are not.
 */
module TypeLimits {
  import opened TypeMembership
  import opened TypePaths
  import opened Wrappers

  // An answer that no membership relation contradicts.
  ghost predicate AlwaysTrue(w: World, site: Site, steps: Path, answer: Answer) {
    forall has: Relation :: IsMembership(w, has) ==> Sound(answer, has(site, steps))
  }

  // Every answer of the lookup at the site is one no membership relation contradicts.
  ghost predicate AlwaysSound(w: World, site: Site) {
    forall mode, depth: nat, steps, seen :: Lookup(w, mode, depth, site, steps, seen).Done? ==>
      AlwaysTrue(w, site, steps, Lookup(w, mode, depth, site, steps, seen).answer)
  }

  lemma PlainSiteIsSound(w: World, region: set<DeclId>, site: Site)
    requires PlainRegion(w, region) && PlainSite(w, region, site)
    ensures AlwaysSound(w, site)
  {
    forall mode, depth: nat, steps, seen | Lookup(w, mode, depth, site, steps, seen).Done?
      ensures AlwaysTrue(w, site, steps, Lookup(w, mode, depth, site, steps, seen).answer)
    {
      forall has: Relation | IsMembership(w, has)
        ensures Sound(Lookup(w, mode, depth, site, steps, seen).answer, has(site, steps))
      {
        LookupIsSound(w, region, mode, has, depth, site, steps, seen);
      }
    }
  }

  // A name longer than every declared one.
  function LongerThanNames(members: seq<Signature>): (name: string)
    ensures forall m :: m in members && (m.Property? || m.Method?) ==> |m.name| < |name|
  {
    if members == [] then "x"
    else
      var rest := LongerThanNames(members[1..]);
      if members[0].IndexSignature? then rest else rest + members[0].name + "x"
  }

  // The lookup sees through the type to something it can be definite about: a literal, an array, or an
  // interface that has a property or no bases. `via` holds the aliases passed on the way.
  predicate Visible(w: World, file: FileId, node: TypeNode, via: set<DeclId>)
    decreases |w.decls.Keys - via|, 1, node
  {
    match node
    case Literal(_) => true
    case ArrayOf(_) => true
    case Parenthesized(inner) => Visible(w, file, inner, via)
    case Operated(_, inner) => Visible(w, file, inner, via)
    case Reference(head, qualified, args) =>
      if head in PASSTHROUGH_WRAPPERS && args != [] then Visible(w, file, args[0], via)
      else if head in ARRAY_WRAPPERS && args != [] then true
      else !qualified && (file, head) in w.names && VisibleDecl(w, w.names[(file, head)], via)
    case _ => false
  }

  predicate VisibleDecl(w: World, id: DeclId, via: set<DeclId>)
    decreases |w.decls.Keys - via|, 0
  {
    && id in w.decls && id !in via
    && match w.decls[id].decl
       case Interface(members, bases) => bases == [] || exists m :: m in members && m.Property?
       case Alias(body) =>
         assert w.decls.Keys - (via + {id}) == (w.decls.Keys - via) - {id};
         Visible(w, w.decls[id].file, body, via + {id})
       case Enum => false
  }

  // A one-step path on which the lookup of a visible type is definite.
  lemma {:induction false} VisibleIsDefinite(
    w: World, mode: Sharing, file: FileId, node: TypeNode, via: set<DeclId>, seen: set<Key>)
    returns (depth: nat, step: Step)
    requires Visible(w, file, node, via) && forall key :: key in seen ==> key.decl in via
    ensures var r := Lookup(w, mode, depth, TypeSite(file, node), [step], seen); r.Done? && r.answer != Unknown
    decreases |w.decls.Keys - via|, 1, node
  {
    match node
    case Literal(members) =>
      depth, step := 1, Member(LongerThanNames(members));
    case ArrayOf(element) =>
      depth, step := 2, Element;
      assert Lookup(w, mode, 1, TypeSite(file, element), [], seen) == Done(Found, seen);
    case Parenthesized(inner) =>
      depth, step := VisibleIsDefinite(w, mode, file, inner, via, seen);
      depth := depth + 1;
    case Operated(_, inner) =>
      depth, step := VisibleIsDefinite(w, mode, file, inner, via, seen);
      depth := depth + 1;
    case Reference(head, qualified, args) =>
      if head in PASSTHROUGH_WRAPPERS && args != [] {
        depth, step := VisibleIsDefinite(w, mode, file, args[0], via, seen);
        depth := depth + 1;
      } else if head in ARRAY_WRAPPERS && args != [] {
        depth, step := 2, Element;
        assert Lookup(w, mode, 1, TypeSite(file, args[0]), [], seen) == Done(Found, seen);
      } else {
        var id := w.names[(file, head)];
        depth, step := VisibleDeclIsDefinite(w, mode, id, via, seen);
        depth := depth + 1;
      }
  }

  lemma {:induction false} VisibleDeclIsDefinite(w: World, mode: Sharing, id: DeclId, via: set<DeclId>, seen: set<Key>)
    returns (depth: nat, step: Step)
    requires VisibleDecl(w, id, via) && forall key :: key in seen ==> key.decl in via
    ensures var r := Lookup(w, mode, depth, DeclSite(id), [step], seen); r.Done? && r.answer != Unknown
    decreases |w.decls.Keys - via|, 0
  {
    match w.decls[id].decl
    case Alias(body) =>
      assert w.decls.Keys - (via + {id}) == (w.decls.Keys - via) - {id};
      depth, step := VisibleIsDefinite(w, mode, w.decls[id].file, body, via + {id}, seen + {Key(id, 1)});
      depth := depth + 1;
    case Interface(members, bases) =>
      depth := 1;
      if bases == [] {
        step := Member(LongerThanNames(members));
      } else {
        var m :| m in members && m.Property?;
        step := Member(m.name);
      }
  }

  // `keyof T` and `unique T` are answered as T itself; of an operand the lookup can be definite about
  // that is always sound exactly when the operator is `readonly`.
  lemma OperatorSoundIff(w: World, region: set<DeclId>, file: FileId, op: Operator, inner: TypeNode)
    requires PlainRegion(w, region) && Plain(w, region, file, inner) && Visible(w, file, inner, {})
    ensures AlwaysSound(w, TypeSite(file, Operated(op, inner))) <==> op.ReadOnly?
  {
    var site := TypeSite(file, Operated(op, inner));
    if op.ReadOnly? {
      PlainSiteIsSound(w, region, site);
    } else {
      var depth, step := VisibleIsDefinite(w, Shared, file, Operated(op, inner), {}, {});
      OpenNeedsUnknown(w, site, [step], Lookup(w, Shared, depth, site, [step], {}).answer);
    }
  }

  // Concretely, `keyof { x }` is said to have the member x, which some reading denies it.
  lemma KeyOfIsUnsound()
    ensures var w, node := World(map[], map[]), Operated(KeyOf, Literal([Property("x", None)]));
            && Lookup(w, Shared, 3, TypeSite(0, node), [Member("x")], {}) == Done(Found, {})
            && exists has: Relation :: IsMembership(w, has) && !has(TypeSite(0, node), [Member("x")])
  {
    var w, members := World(map[], map[]), [Property("x", None)];
    var node := Operated(KeyOf, Literal(members));
    assert FindProperty(members, "x").Some?;
    assert Lookup(w, Shared, 2, TypeSite(0, Literal(members)), [Member("x")], {}) == Done(Found, {});
    EveryReadingHasMembership(w, (_, _) => false);
    assert !Membership(w, (_, _) => false)(TypeSite(0, node), [Member("x")]);
  }

  // A wrapper's name as a namespace, as in `Partial.X<T>`, is still taken for the wrapper. Of an argument
  // the lookup can be definite about, that is always sound exactly when the name stands alone.
  lemma QualifiedWrapperSoundIff(
    w: World, region: set<DeclId>, file: FileId, head: string, qualified: bool, args: seq<TypeNode>)
    requires IsWrapper(head) && args != [] && (qualified || (file, head) !in w.names)
    requires PlainRegion(w, region) && Plain(w, region, file, args[0])
    requires head in PASSTHROUGH_WRAPPERS ==> Visible(w, file, args[0], {})
    ensures AlwaysSound(w, TypeSite(file, Reference(head, qualified, args))) <==> !qualified
  {
    var node := Reference(head, qualified, args);
    if !qualified {
      PlainSiteIsSound(w, region, TypeSite(file, node));
    } else {
      var depth, step := VisibleIsDefinite(w, Shared, file, node, {}, {});
      var answer := Lookup(w, Shared, depth, TypeSite(file, node), [step], {}).answer;
      OpenNeedsUnknown(w, TypeSite(file, node), [step], answer);
    }
  }

  // Concretely, `Partial.X<{ x }>` is said to have the member x, which some reading denies it.
  lemma QualifiedWrapperIsUnsound()
    ensures var w, node := World(map[], map[]), Reference("Partial", true, [Literal([Property("x", None)])]);
            && Lookup(w, Shared, 3, TypeSite(0, node), [Member("x")], {}) == Done(Found, {})
            && exists has: Relation :: IsMembership(w, has) && !has(TypeSite(0, node), [Member("x")])
  {
    var w, members := World(map[], map[]), [Property("x", None)];
    var node := Reference("Partial", true, [Literal(members)]);
    assert FindProperty(members, "x").Some?;
    assert Lookup(w, Shared, 2, TypeSite(0, Literal(members)), [Member("x")], {}) == Done(Found, {});
    EveryReadingHasMembership(w, (_, _) => false);
    assert !Membership(w, (_, _) => false)(TypeSite(0, node), [Member("x")]);
  }

  // A literal whose property types are plain is answered soundly exactly when property
  // signatures declare all its names: methods and index signatures are reported missing.
  lemma LiteralSoundIff(w: World, region: set<DeclId>, file: FileId, members: seq<Signature>)
    requires PlainRegion(w, region) && PlainProperties(w, region, file, members)
    ensures AlwaysSound(w, TypeSite(file, Literal(members))) <==> OnlyProperties(members)
  {
    var site := TypeSite(file, Literal(members));
    if OnlyProperties(members) {
      PlainSiteIsSound(w, region, site);
    } else {
      var name := HiddenName(members);
      assert Lookup(w, Shared, 1, site, [Member(name)], {}) == Done(Missing, {});
      PresentIsNotMissing(w, site, [Member(name)]);
    }
  }

  // The same of an interface without bases; the rest of the region is plain.
  lemma InterfaceSoundIff(w: World, region: set<DeclId>, id: DeclId, members: seq<Signature>)
    requires id in w.decls && w.decls[id].decl == Interface(members, []) && id in region
    requires forall d :: d in region && d in w.decls && d != id ==>
               PlainDecl(w, region, w.decls[d].file, w.decls[d].decl)
    requires PlainProperties(w, region, w.decls[id].file, members)
    ensures AlwaysSound(w, DeclSite(id)) <==> OnlyProperties(members)
  {
    if OnlyProperties(members) {
      assert PlainDecl(w, region, w.decls[id].file, w.decls[id].decl);
      PlainSiteIsSound(w, region, DeclSite(id));
    } else {
      var name := HiddenName(members);
      var steps := [Member(name)];
      assert Lookup(w, Shared, 1, DeclSite(id), steps, {}) == Done(Missing, {Key(id, 1)});
      PresentIsNotMissing(w, DeclSite(id), steps);
    }
  }

  // A name that a method or an index signature admits and no property signature declares.
  lemma HiddenName(members: seq<Signature>) returns (name: string)
    requires !OnlyProperties(members)
    ensures IsHidden(members, name)
  {
    var m :| m in members && (m.IndexSignature? || (m.Method? && FindProperty(members, m.name).None?));
    name := if m.Method? then m.name else LongerThanNames(members);
    assert m.Method? ==> m == Method(name);
  }

  predicate IsHidden(members: seq<Signature>, name: string) {
    FindProperty(members, name).None? && (Method(name) in members || IndexSignature in members)
  }

  lemma PresentIsNotMissing(w: World, site: Site, steps: Path)
    requires MeaningOf(w, site, steps).Present?
    ensures forall answer :: AlwaysTrue(w, site, steps, answer) <==> answer != Missing
  {
    EveryReadingHasMembership(w, (_, _) => true);
    var has := Membership(w, (_, _) => true);
    assert Respects(w, has, site, steps);
    forall has: Relation | IsMembership(w, has) ensures has(site, steps) {
      assert Respects(w, has, site, steps);
    }
    assert forall answer :: AlwaysTrue(w, site, steps, answer) ==> Sound(answer, has(site, steps));
  }

  // What the bases of an interface answer once the interface itself is seen.
  function BaseAnswers(w: World, mode: Sharing, depth: nat, id: DeclId, steps: Path, seen: set<Key>): Outcomes
    requires id in w.decls && w.decls[id].decl.Interface?
  {
    var Entry(file, decl) := w.decls[id];
    LookupEach(w, mode, depth, BaseSites(w, file, decl.bases), steps, seen + {Key(id, |steps|)})
  }

  // A hidden member of an interface with bases is wrongly missed exactly when every base answers
  // `missing`; below a hidden member only an `unknown` of the bases together is sound.
  lemma HiddenMemberSoundIff(w: World, mode: Sharing, depth: nat, id: DeclId, steps: Path, seen: set<Key>)
    requires id in w.decls && w.decls[id].decl.Interface? && Key(id, |steps|) !in seen
    requires steps != [] && steps[0].Member? && IsHidden(w.decls[id].decl.members, steps[0].name)
    requires BaseAnswers(w, mode, depth, id, steps, seen).DoneAll?
    ensures Lookup(w, mode, depth + 1, DeclSite(id), steps, seen).Done?
    ensures var answer := Lookup(w, mode, depth + 1, DeclSite(id), steps, seen).answer;
            var answers := BaseAnswers(w, mode, depth, id, steps, seen).answers;
            AlwaysTrue(w, DeclSite(id), steps, answer)
            <==> if |steps| == 1 then exists i :: 0 <= i < |answers| && answers[i] != Missing
                 else Found !in answers && Unknown in answers
  {
    var site := DeclSite(id);
    var Entry(file, decl) := w.decls[id];
    var below := seen + {Key(id, |steps|)};
    var bases := BaseAnswers(w, mode, depth, id, steps, seen);
    assert LookupDecl(w, mode, depth, file, decl, steps, below) == Done(Combine(bases.answers), bases.seen);
    var answer := Lookup(w, mode, depth + 1, site, steps, seen).answer;
    if |steps| == 1 {
      PresentIsNotMissing(w, site, steps);
    } else {
      OpenNeedsUnknown(w, site, steps, answer);
    }
  }

  // A reference to a declaration that reuses a wrapper's name is answered as its first argument. Where
  // the declaration's own lookup is definite, that is sound exactly when it is `unknown` or agrees.
  lemma ShadowedWrapperSoundIff(
    w: World, region: set<DeclId>, mode: Sharing, depth: nat, file: FileId, head: string, args: seq<TypeNode>,
    steps: Path, seen: set<Key>, ownDepth: nat)
    requires IsWrapper(head) && args != [] && (file, head) in w.names && w.names[(file, head)] in region
    requires PlainRegion(w, region) && steps != [] && depth > 0 && (head in PASSTHROUGH_WRAPPERS || steps[0].Element?)
    requires var rest := if head in PASSTHROUGH_WRAPPERS then steps else steps[1..];
             Lookup(w, mode, depth, TypeSite(file, args[0]), rest, seen).Done?
    requires var own := Lookup(w, Shared, ownDepth, DeclSite(w.names[(file, head)]), steps, {});
             own.Done? && own.answer != Unknown
    ensures var rest := if head in PASSTHROUGH_WRAPPERS then steps else steps[1..];
            Lookup(w, mode, depth + 1, TypeSite(file, Reference(head, false, args)), steps, seen)
            == Lookup(w, mode, depth, TypeSite(file, args[0]), rest, seen)
    ensures var rest := if head in PASSTHROUGH_WRAPPERS then steps else steps[1..];
            var answer := Lookup(w, mode, depth, TypeSite(file, args[0]), rest, seen).answer;
            var own := Lookup(w, Shared, ownDepth, DeclSite(w.names[(file, head)]), steps, {}).answer;
            AlwaysTrue(w, TypeSite(file, Reference(head, false, args)), steps, answer)
            <==> answer == Unknown || answer == own
  {
    var node, decl := Reference(head, false, args), DeclSite(w.names[(file, head)]);
    var rest := if head in PASSTHROUGH_WRAPPERS then steps else steps[1..];
    assert LookupType(w, mode, depth, file, node, steps, seen)
        == Lookup(w, mode, depth, TypeSite(file, args[0]), rest, seen);
    var own := Lookup(w, Shared, ownDepth, decl, steps, {}).answer;
    OneTruth(w, region, TypeSite(file, node), decl, steps, own, ownDepth);
  }

  // A site that means the same as one with a definite answer.
  lemma OneTruth(w: World, region: set<DeclId>, site: Site, decl: Site, steps: Path, own: Answer, depth: nat)
    requires PlainRegion(w, region) && PlainSite(w, region, decl) && MeaningOf(w, site, steps) == SameAs(decl, steps)
    requires Lookup(w, Shared, depth, decl, steps, {}).Done?
    requires own == Lookup(w, Shared, depth, decl, steps, {}).answer != Unknown
    ensures forall answer :: AlwaysTrue(w, site, steps, answer) <==> answer == Unknown || answer == own
  {
    EveryReadingHasMembership(w, (_, _) => true);
    var one := Membership(w, (_, _) => true);
    forall has: Relation | IsMembership(w, has) ensures Sound(own, has(site, steps)) {
      assert Respects(w, has, site, steps);
      LookupIsSound(w, region, Shared, has, depth, decl, steps, {});
    }
    assert Sound(own, one(site, steps));
    assert forall answer :: AlwaysTrue(w, site, steps, answer) ==> Sound(answer, one(site, steps));
  }

  // Concretely, `Partial` is declared without the member `x` that is found in its argument.
  lemma ShadowedWrapperIsUnsound(has: Relation)
    requires IsMembership(ShadowingWorld(), has)
    ensures var node := Reference("Partial", false, [Literal([Property("x", None)])]);
            && LookupType(ShadowingWorld(), Shared, 3, 0, node, [Member("x")], {}) == Done(Found, {})
            && !has(TypeSite(0, node), [Member("x")])
  {
    var w := ShadowingWorld();
    var steps := [Member("x")];
    var node := Reference("Partial", false, [Literal([Property("x", None)])]);
    assert FindProperty([Property("x", None)], "x").Some?;
    assert LookupType(w, Shared, 2, 0, Literal([Property("x", None)]), steps, {}) == Done(Found, {});
    assert Lookup(w, Shared, 3, TypeSite(0, node.args[0]), steps, {}) == Done(Found, {});
    assert Respects(w, has, TypeSite(0, node), steps);
    assert Respects(w, has, DeclSite(0), steps);
    assert Respects(w, has, TypeSite(0, Literal([])), steps);
  }

  ghost function ShadowingWorld(): World {
    World(map[0 := Entry(0, Alias(Literal([])))], map[(0, "Partial") := 0])
  }
}
