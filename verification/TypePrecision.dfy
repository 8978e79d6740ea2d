/**
 When the lookup is definite. On plain declarations its answers are exactly the ones that the
 declarations settle, on paths of any length; sharing one set costs nothing where no key is met twice.
 */
module TypePrecision {
  import opened TypeMembership
  import opened TypePaths
  import opened Wrappers

  // The keys after entering a site.
  function Entered(site: Site, left: nat, above: set<Key>): set<Key> {
    if site.DeclSite? then above + {Key(site.id, left)} else above
  }

  // The declarations settle the answer `found` or `missing` without coming back to a declaration with
  // as many steps left as before.
  least predicate Settled(w: World, site: Site, steps: Path, above: set<Key>, answer: Answer) {
    if steps == [] then answer == Found
    else
      && !(site.DeclSite? && Key(site.id, |steps|) in above)
      && match MeaningOf(w, site, steps)
         case Present => answer == Found
         case Absent => answer == Missing
         case Open => false
         case SameAs(site', steps') => Settled(w, site', steps', Entered(site, |steps|, above), answer)
         case InSome(sites) =>
           if answer == Found then
             exists i :: 0 <= i < |sites| && Settled(w, sites[i], steps, Entered(site, |steps|, above), Found)
           else
             && answer == Missing
             && forall i :: 0 <= i < |sites| ==> Settled(w, sites[i], steps, Entered(site, |steps|, above), Missing)
         case InBranches(sites) =>
           && answer != Unknown
           && forall i :: 0 <= i < |sites| ==> Settled(w, sites[i], steps, Entered(site, |steps|, above), answer)
  }

  // The answer is `found` or `missing` exactly as settled, and `unknown` otherwise.
  ghost predicate Exact(w: World, site: Site, steps: Path, above: set<Key>, answer: Answer) {
    && (answer == Found <==> Settled(w, site, steps, above, Found))
    && (answer == Missing <==> Settled(w, site, steps, above, Missing))
  }

  // One step of the settling, by what the site means.
  lemma MeaningIsExact(w: World, site: Site, steps: Path, above: set<Key>, answer: Answer)
    requires steps != [] && !(site.DeclSite? && Key(site.id, |steps|) in above)
    requires match MeaningOf(w, site, steps)
             case Present => answer == Found
             case Absent => answer == Missing
             case Open => answer == Unknown
             case SameAs(site', steps') => Exact(w, site', steps', Entered(site, |steps|, above), answer)
             case _ => false
    ensures Exact(w, site, steps, above, answer)
  {
  }

  lemma PartsAreExact(w: World, site: Site, steps: Path, above: set<Key>, sites: seq<Site>, answers: seq<Answer>)
    requires steps != [] && !(site.DeclSite? && Key(site.id, |steps|) in above)
    requires || MeaningOf(w, site, steps) == InSome(sites)
             || (MeaningOf(w, site, steps) == InBranches(sites) && sites != [])
    requires |answers| == |sites|
    requires forall i :: 0 <= i < |sites| ==> Exact(w, sites[i], steps, Entered(site, |steps|, above), answers[i])
    ensures var answer := if MeaningOf(w, site, steps).InSome? then Combine(answers) else Unanimous(answers);
            Exact(w, site, steps, above, answer)
  {
    var below := Entered(site, |steps|, above);
    if MeaningOf(w, site, steps).InSome? {
      if Found in answers {
        var i :| 0 <= i < |answers| && answers[i] == Found;
        assert Settled(w, sites[i], steps, below, Found) && !Settled(w, sites[i], steps, below, Missing);
      } else if Unknown in answers {
        var i :| 0 <= i < |answers| && answers[i] == Unknown;
        assert !Settled(w, sites[i], steps, below, Missing);
      }
    } else {
      assert Exact(w, sites[0], steps, below, answers[0]);
    }
  }

  lemma {:induction false} LookupIsExact(
    w: World, region: set<DeclId>, depth: nat, site: Site, steps: Path, above: set<Key>)
    requires PlainRegion(w, region) && PlainSite(w, region, site)
    requires Lookup(w, PerBranch, depth, site, steps, above).Done?
    ensures Exact(w, site, steps, above, Lookup(w, PerBranch, depth, site, steps, above).answer)
    decreases depth, 0
  {
    hide LookupDecl, LookupType, Plain;
    if steps != [] {
      match site
      case UnresolvedBase(_, _) =>
      case TypeSite(file, node) => LookupTypeIsExact(w, region, depth - 1, file, node, steps, above);
      case DeclSite(id) =>
        if id in w.decls && !w.decls[id].decl.Enum? && Key(id, |steps|) !in above {
          LookupDeclIsExact(w, region, depth - 1, id, steps, above);
        }
    }
  }

  lemma {:induction false} LookupDeclIsExact(
    w: World, region: set<DeclId>, depth: nat, id: DeclId, steps: Path, above: set<Key>)
    requires PlainRegion(w, region) && id in region && steps != []
    requires id in w.decls && !w.decls[id].decl.Enum? && Key(id, |steps|) !in above
    requires var Entry(file, decl) := w.decls[id];
             LookupDecl(w, PerBranch, depth, file, decl, steps, above + {Key(id, |steps|)}).Done?
    ensures var Entry(file, decl) := w.decls[id];
            Exact(w, DeclSite(id), steps, above,
                  LookupDecl(w, PerBranch, depth, file, decl, steps, above + {Key(id, |steps|)}).answer)
    decreases depth, |BasesOf(w.decls[id].decl)| + 2
  {
    hide Lookup, LookupEach, Plain, Exact;
    var Entry(file, decl) := w.decls[id];
    var below, site := above + {Key(id, |steps|)}, DeclSite(id);
    var answer := LookupDecl(w, PerBranch, depth, file, decl, steps, below).answer;
    assert PlainDecl(w, region, file, decl);
    match decl
    case Alias(body) =>
      LookupIsExact(w, region, depth, TypeSite(file, body), steps, below);
      MeaningIsExact(w, site, steps, above, answer);
    case Interface(members, bases) =>
      if steps[0].Member? {
        var direct := FindProperty(members, steps[0].name);
        if direct.Some? {
          assert PlainProperties(w, region, file, members);
          if |steps| > 1 && direct.value.ty.Some? {
            LookupIsExact(w, region, depth, TypeSite(file, direct.value.ty.value), steps[1..], below);
          }
          MeaningIsExact(w, site, steps, above, answer);
        } else if bases != [] {
          var sites := BaseSites(w, file, bases);
          EachIsExact(w, region, depth, sites, steps, below);
          PartsAreExact(w, site, steps, above, sites, LookupEach(w, PerBranch, depth, sites, steps, below).answers);
        } else {
          PartsAreExact(w, site, steps, above, [], []);
        }
      } else {
        MeaningIsExact(w, site, steps, above, answer);
      }
  }

  lemma {:induction false} LookupTypeIsExact(
    w: World, region: set<DeclId>, depth: nat, file: FileId, node: TypeNode, steps: Path, above: set<Key>)
    requires PlainRegion(w, region) && Plain(w, region, file, node) && steps != []
    requires LookupType(w, PerBranch, depth, file, node, steps, above).Done?
    ensures Exact(w, TypeSite(file, node), steps, above,
                  LookupType(w, PerBranch, depth, file, node, steps, above).answer)
    decreases depth, |PartsOf(node)| + 2
  {
    hide Lookup, LookupEach, Exact;
    var site := TypeSite(file, node);
    var answer := LookupType(w, PerBranch, depth, file, node, steps, above).answer;
    match node {
    case Literal(members) =>
      if steps[0].Member? {
        var direct := FindProperty(members, steps[0].name);
        if direct.Some? {
          assert PlainProperties(w, region, file, members);
          if |steps| > 1 && direct.value.ty.Some? {
            LookupIsExact(w, region, depth, TypeSite(file, direct.value.ty.value), steps[1..], above);
          }
        }
      }
    case Parenthesized(inner) => LookupIsExact(w, region, depth, TypeSite(file, inner), steps, above);
    case Intersection(parts) =>
      var sites := TypeSites(file, parts);
      EachIsExact(w, region, depth, sites, steps, above);
      PartsAreExact(w, site, steps, above, sites, LookupEach(w, PerBranch, depth, sites, steps, above).answers);
    case Union(parts) =>
      var sites := TypeSites(file, parts);
      EachIsExact(w, region, depth, sites, steps, above);
      PartsAreExact(w, site, steps, above, sites, LookupEach(w, PerBranch, depth, sites, steps, above).answers);
    case ArrayOf(element) =>
      if steps[0].Element? {
        LookupIsExact(w, region, depth, TypeSite(file, element), steps[1..], above);
      }
    case Operated(_, inner) => LookupIsExact(w, region, depth, TypeSite(file, inner), steps, above);
    case Indexed(object_, index) =>
      if index.Some? {
        LookupIsExact(w, region, depth, TypeSite(file, object_), [Member(index.value)] + steps, above);
      }
    case Reference(head, qualified, args) =>
      if head in PASSTHROUGH_WRAPPERS && args != [] {
        LookupIsExact(w, region, depth, TypeSite(file, args[0]), steps, above);
      } else if head in ARRAY_WRAPPERS && args != [] {
        if steps[0].Element? {
          LookupIsExact(w, region, depth, TypeSite(file, args[0]), steps[1..], above);
        }
      } else if !qualified && (file, head) in w.names {
        LookupIsExact(w, region, depth, DeclSite(w.names[(file, head)]), steps, above);
      }
    case OtherType(_) =>
    }
    if !node.Intersection? && !node.Union? {
      MeaningIsExact(w, site, steps, above, answer);
    }
  }

  lemma {:induction false} EachIsExact(
    w: World, region: set<DeclId>, depth: nat, sites: seq<Site>, steps: Path, above: set<Key>)
    requires PlainRegion(w, region) && forall i :: 0 <= i < |sites| ==> PlainSite(w, region, sites[i])
    requires LookupEach(w, PerBranch, depth, sites, steps, above).DoneAll?
    ensures var answers := LookupEach(w, PerBranch, depth, sites, steps, above).answers;
            && |answers| == |sites|
            && forall i :: 0 <= i < |sites| ==> Exact(w, sites[i], steps, above, answers[i])
    decreases depth, |sites| + 1
  {
    hide Lookup, Exact, PlainSite;
    if sites != [] {
      LookupIsExact(w, region, depth, sites[0], steps, above);
      EachIsExact(w, region, depth, sites[1..], steps, above);
    }
  }

  // The walk of the path enters the declaration with that many steps left.
  least predicate Meets(w: World, site: Site, steps: Path, key: Key) {
    && steps != []
    && ((site == DeclSite(key.decl) && key.left == |steps|)
        || match MeaningOf(w, site, steps)
           case SameAs(site', steps') => Meets(w, site', steps', key)
           case InSome(sites) => exists i :: 0 <= i < |sites| && Meets(w, sites[i], steps, key)
           case InBranches(sites) => exists i :: 0 <= i < |sites| && Meets(w, sites[i], steps, key)
           case _ => false)
  }

  ghost predicate MeetsNone(w: World, site: Site, steps: Path, keys: set<Key>) {
    forall key :: key in keys ==> !Meets(w, site, steps, key)
  }

  ghost predicate Apart(w: World, sites: seq<Site>, steps: Path) {
    forall i, j, key :: 0 <= i < j < |sites| && Meets(w, sites[i], steps, key) ==> !Meets(w, sites[j], steps, key)
  }

  // The walk is a tree: it meets no declaration twice with the same number of steps left.
  least predicate Tree(w: World, site: Site, steps: Path) {
    steps == [] ||
    match MeaningOf(w, site, steps)
    case SameAs(site', steps') =>
      && (site.DeclSite? ==> !Meets(w, site', steps', Key(site.id, |steps|)))
      && Tree(w, site', steps')
    case InSome(sites) =>
      && (site.DeclSite? ==> forall i :: 0 <= i < |sites| ==> !Meets(w, sites[i], steps, Key(site.id, |steps|)))
      && Apart(w, sites, steps) && forall i :: 0 <= i < |sites| ==> Tree(w, sites[i], steps)
    case InBranches(sites) =>
      && (site.DeclSite? ==> forall i :: 0 <= i < |sites| ==> !Meets(w, sites[i], steps, Key(site.id, |steps|)))
      && Apart(w, sites, steps) && forall i :: 0 <= i < |sites| ==> Tree(w, sites[i], steps)
    case _ => true
  }

  // The keys added to the shared set are ones the walk meets.
  ghost predicate AddsMet(w: World, site: Site, steps: Path, seen: set<Key>, after: set<Key>) {
    forall key :: key in after && key !in seen ==> Meets(w, site, steps, key)
  }

  // Both modes answer, the same way, and what the shared one adds was met.
  ghost predicate SameAnswer(w: World, site: Site, steps: Path, seen: set<Key>, shared: Outcome, own: Outcome) {
    && (shared.Done? <==> own.Done?)
    && (shared.Done? ==> shared.answer == own.answer && AddsMet(w, site, steps, seen, shared.seen))
  }

  lemma {:induction false} TreeLosesNothing(
    w: World, region: set<DeclId>, depth: nat, site: Site, steps: Path, seen: set<Key>, above: set<Key>)
    requires PlainRegion(w, region) && PlainSite(w, region, site) && Tree(w, site, steps)
    requires MeetsNone(w, site, steps, seen) && MeetsNone(w, site, steps, above)
    ensures SameAnswer(w, site, steps, seen, Lookup(w, Shared, depth, site, steps, seen),
                       Lookup(w, PerBranch, depth, site, steps, above))
    decreases depth, 0
  {
    hide LookupDecl, LookupType, Plain;
    if depth > 0 && steps != [] {
      match site
      case UnresolvedBase(_, _) =>
      case TypeSite(file, node) => TreeTypeLosesNothing(w, region, depth - 1, file, node, steps, seen, above);
      case DeclSite(id) =>
        assert Meets(w, site, steps, Key(id, |steps|));
        if id in w.decls && !w.decls[id].decl.Enum? {
          TreeDeclLosesNothing(w, region, depth - 1, id, steps, seen, above);
        }
    }
  }

  lemma {:induction false} TreeDeclLosesNothing(
    w: World, region: set<DeclId>, depth: nat, id: DeclId, steps: Path, seen: set<Key>, above: set<Key>)
    requires PlainRegion(w, region) && id in region && steps != [] && Tree(w, DeclSite(id), steps)
    requires id in w.decls && !w.decls[id].decl.Enum?
    requires MeetsNone(w, DeclSite(id), steps, seen) && MeetsNone(w, DeclSite(id), steps, above)
    ensures var Entry(file, decl) := w.decls[id];
            var key := Key(id, |steps|);
            SameAnswer(w, DeclSite(id), steps, seen, LookupDecl(w, Shared, depth, file, decl, steps, seen + {key}),
                       LookupDecl(w, PerBranch, depth, file, decl, steps, above + {key}))
    decreases depth, |BasesOf(w.decls[id].decl)| + 2
  {
    hide Lookup, LookupEach, Plain;
    var Entry(file, decl) := w.decls[id];
    var key, site := Key(id, |steps|), DeclSite(id);
    assert PlainDecl(w, region, file, decl);
    assert Meets(w, site, steps, key);
    match decl
    case Alias(body) =>
      TreeLosesNothing(w, region, depth, TypeSite(file, body), steps, seen + {key}, above + {key});
    case Interface(members, bases) =>
      if steps[0].Member? {
        var direct := FindProperty(members, steps[0].name);
        if direct.Some? {
          assert PlainProperties(w, region, file, members);
          if |steps| > 1 && direct.value.ty.Some? {
            var next := TypeSite(file, direct.value.ty.value);
            TreeLosesNothing(w, region, depth, next, steps[1..], seen + {key}, above + {key});
          }
        } else if bases != [] {
          EachLosesNothing(w, region, depth, BaseSites(w, file, bases), steps, seen + {key}, above + {key});
        }
      }
  }

  lemma {:induction false} TreeTypeLosesNothing(
    w: World, region: set<DeclId>, depth: nat, file: FileId, node: TypeNode, steps: Path, seen: set<Key>,
    above: set<Key>)
    requires PlainRegion(w, region) && Plain(w, region, file, node) && steps != []
    requires Tree(w, TypeSite(file, node), steps)
    requires MeetsNone(w, TypeSite(file, node), steps, seen) && MeetsNone(w, TypeSite(file, node), steps, above)
    ensures SameAnswer(w, TypeSite(file, node), steps, seen, LookupType(w, Shared, depth, file, node, steps, seen),
                       LookupType(w, PerBranch, depth, file, node, steps, above))
    decreases depth, |PartsOf(node)| + 2
  {
    hide Lookup, LookupEach;
    match node
    case Literal(members) =>
      if steps[0].Member? {
        var direct := FindProperty(members, steps[0].name);
        if direct.Some? {
          assert PlainProperties(w, region, file, members);
          if |steps| > 1 && direct.value.ty.Some? {
            TreeLosesNothing(w, region, depth, TypeSite(file, direct.value.ty.value), steps[1..], seen, above);
          }
        }
      }
    case Parenthesized(inner) => TreeLosesNothing(w, region, depth, TypeSite(file, inner), steps, seen, above);
    case Intersection(parts) => EachLosesNothing(w, region, depth, TypeSites(file, parts), steps, seen, above);
    case Union(parts) => EachLosesNothing(w, region, depth, TypeSites(file, parts), steps, seen, above);
    case ArrayOf(element) =>
      if steps[0].Element? {
        TreeLosesNothing(w, region, depth, TypeSite(file, element), steps[1..], seen, above);
      }
    case Operated(_, inner) => TreeLosesNothing(w, region, depth, TypeSite(file, inner), steps, seen, above);
    case Indexed(object_, index) =>
      if index.Some? {
        TreeLosesNothing(w, region, depth, TypeSite(file, object_), [Member(index.value)] + steps, seen, above);
      }
    case Reference(head, qualified, args) =>
      if head in PASSTHROUGH_WRAPPERS && args != [] {
        TreeLosesNothing(w, region, depth, TypeSite(file, args[0]), steps, seen, above);
      } else if head in ARRAY_WRAPPERS && args != [] {
        if steps[0].Element? {
          TreeLosesNothing(w, region, depth, TypeSite(file, args[0]), steps[1..], seen, above);
        }
      } else if !qualified && (file, head) in w.names {
        TreeLosesNothing(w, region, depth, DeclSite(w.names[(file, head)]), steps, seen, above);
      }
    case OtherType(_) =>
  }

  lemma {:induction false} EachLosesNothing(
    w: World, region: set<DeclId>, depth: nat, sites: seq<Site>, steps: Path, seen: set<Key>, above: set<Key>)
    requires PlainRegion(w, region) && Apart(w, sites, steps)
    requires forall i :: 0 <= i < |sites| ==> PlainSite(w, region, sites[i]) && Tree(w, sites[i], steps)
    requires forall i :: 0 <= i < |sites| ==>
               MeetsNone(w, sites[i], steps, seen) && MeetsNone(w, sites[i], steps, above)
    ensures var shared := LookupEach(w, Shared, depth, sites, steps, seen);
            var own := LookupEach(w, PerBranch, depth, sites, steps, above);
            && (shared.DoneAll? <==> own.DoneAll?)
            && (shared.DoneAll? ==>
                  && shared.answers == own.answers
                  && forall key :: key in shared.seen && key !in seen ==>
                       exists i :: 0 <= i < |sites| && Meets(w, sites[i], steps, key))
    decreases depth, |sites| + 1
  {
    hide Lookup, PlainSite;
    if sites != [] {
      var rest := sites[1..];
      TreeLosesNothing(w, region, depth, sites[0], steps, seen, above);
      var first := Lookup(w, Shared, depth, sites[0], steps, seen);
      if first.Done? {
        forall i | 0 <= i < |rest| ensures MeetsNone(w, rest[i], steps, first.seen) {
          assert rest[i] == sites[i + 1];
          assert MeetsNone(w, sites[i + 1], steps, seen);
        }
        assert Apart(w, rest, steps);
        EachLosesNothing(w, region, depth, rest, steps, first.seen, above);
        var after := LookupEach(w, Shared, depth, rest, steps, first.seen);
        if after.DoneAll? {
          forall key | key in after.seen && key !in seen
            ensures exists i :: 0 <= i < |sites| && Meets(w, sites[i], steps, key)
          {
            if key !in first.seen {
              var i :| 0 <= i < |rest| && Meets(w, rest[i], steps, key);
              assert sites[i + 1] == rest[i];
            }
          }
        }
      }
    }
  }

  // The check itself, on a walk that is a tree: it answers exactly what the declarations settle.
  lemma LookupPathIsExact(w: World, region: set<DeclId>, depth: nat, root: DeclId, steps: Path)
    requires PlainRegion(w, region) && root in region && Tree(w, DeclSite(root), steps)
    requires LookupPath(w, depth, root, steps).Done?
    ensures Exact(w, DeclSite(root), steps, {}, LookupPath(w, depth, root, steps).answer)
  {
    TreeLosesNothing(w, region, depth, DeclSite(root), steps, {}, {});
    LookupIsExact(w, region, depth, DeclSite(root), steps, {});
  }
}
