/**
 One seen set serves all branches of a lookup, so a declaration reached twice is
 answered `unknown` the second time. Against a lookup that hands every branch only the
 declarations above it, that can weaken an answer but never change it.
 */
module TypeSharing {
  import opened TypePaths
  import opened Wrappers

  predicate Weaker(a: Answer, b: Answer) {
    a == Unknown || a == b
  }

  lemma CombineWeaker(xs: seq<Answer>, ys: seq<Answer>)
    requires |xs| == |ys| && forall i :: 0 <= i < |xs| ==> Weaker(xs[i], ys[i])
    ensures Weaker(Combine(xs), Combine(ys)) && Weaker(Unanimous(xs), Unanimous(ys))
  {
    if Found in xs {
      var i :| 0 <= i < |xs| && xs[i] == Found;
      assert ys[i] == Found;
    } else if Unknown !in xs {
      forall i | 0 <= i < |ys| ensures ys[i] == Missing {
        assert xs[i] in xs;
      }
    }
  }

  lemma {:induction false} LookupWeakens(w: World, depth: nat, site: Site, steps: Path, seen: set<Key>, above: set<Key>)
    requires above <= seen && Lookup(w, PerBranch, depth, site, steps, above).Done?
    ensures var r := Lookup(w, Shared, depth, site, steps, seen);
            r.Done? && Weaker(r.answer, Lookup(w, PerBranch, depth, site, steps, above).answer) && seen <= r.seen
    decreases depth, 0
  {
    if steps != [] {
      match site
      case UnresolvedBase(_, _) =>
      case TypeSite(file, node) => LookupTypeWeakens(w, depth - 1, file, node, steps, seen, above);
      case DeclSite(id) =>
        if id in w.decls && !w.decls[id].decl.Enum? && Key(id, |steps|) !in seen {
          var key := Key(id, |steps|);
          LookupDeclWeakens(w, depth - 1, w.decls[id].file, w.decls[id].decl, steps, seen + {key}, above + {key});
        }
    }
  }

  lemma {:induction false} LookupDeclWeakens(
    w: World, depth: nat, file: FileId, decl: Declaration, steps: Path, seen: set<Key>, above: set<Key>)
    requires steps != [] && !decl.Enum? && above <= seen
    requires LookupDecl(w, PerBranch, depth, file, decl, steps, above).Done?
    ensures var r := LookupDecl(w, Shared, depth, file, decl, steps, seen);
            && r.Done? && seen <= r.seen
            && Weaker(r.answer, LookupDecl(w, PerBranch, depth, file, decl, steps, above).answer)
    decreases depth, |BasesOf(decl)| + 2
  {
    match decl
    case Alias(body) => LookupWeakens(w, depth, TypeSite(file, body), steps, seen, above);
    case Interface(members, bases) =>
      if steps[0].Member? {
        var direct := FindProperty(members, steps[0].name);
        if direct.Some? {
          LookupPropertyWeakens(w, depth, file, direct.value, steps, seen, above);
        } else if bases != [] {
          LookupEachWeakens(w, depth, BaseSites(w, file, bases), steps, seen, above);
        }
      }
  }

  lemma {:induction false} LookupPropertyWeakens(
    w: World, depth: nat, file: FileId, property: Signature, steps: Path, seen: set<Key>, above: set<Key>)
    requires steps != [] && property.Property? && above <= seen
    requires LookupProperty(w, PerBranch, depth, file, property, steps, above).Done?
    ensures var r := LookupProperty(w, Shared, depth, file, property, steps, seen);
            && r.Done? && seen <= r.seen
            && Weaker(r.answer, LookupProperty(w, PerBranch, depth, file, property, steps, above).answer)
    decreases depth, 1
  {
    if |steps| > 1 && property.ty.Some? {
      LookupWeakens(w, depth, TypeSite(file, property.ty.value), steps[1..], seen, above);
    }
  }

  lemma {:induction false} LookupTypeWeakens(
    w: World, depth: nat, file: FileId, node: TypeNode, steps: Path, seen: set<Key>, above: set<Key>)
    requires steps != [] && above <= seen && LookupType(w, PerBranch, depth, file, node, steps, above).Done?
    ensures var r := LookupType(w, Shared, depth, file, node, steps, seen);
            && r.Done? && seen <= r.seen
            && Weaker(r.answer, LookupType(w, PerBranch, depth, file, node, steps, above).answer)
    decreases depth, |PartsOf(node)| + 2
  {
    match node
    case Literal(members) =>
      if steps[0].Member? {
        var direct := FindProperty(members, steps[0].name);
        if direct.Some? {
          LookupPropertyWeakens(w, depth, file, direct.value, steps, seen, above);
        }
      }
    case Parenthesized(inner) => LookupWeakens(w, depth, TypeSite(file, inner), steps, seen, above);
    case Intersection(parts) => LookupEachWeakens(w, depth, TypeSites(file, parts), steps, seen, above);
    case Union(parts) => LookupEachWeakens(w, depth, TypeSites(file, parts), steps, seen, above);
    case ArrayOf(element) =>
      if steps[0].Element? {
        LookupWeakens(w, depth, TypeSite(file, element), steps[1..], seen, above);
      }
    case Operated(_, inner) => LookupWeakens(w, depth, TypeSite(file, inner), steps, seen, above);
    case Indexed(object_, index) =>
      if index.Some? {
        LookupWeakens(w, depth, TypeSite(file, object_), [Member(index.value)] + steps, seen, above);
      }
    case Reference(head, qualified, args) =>
      if head in PASSTHROUGH_WRAPPERS && args != [] {
        LookupWeakens(w, depth, TypeSite(file, args[0]), steps, seen, above);
      } else if head in ARRAY_WRAPPERS && args != [] {
        if steps[0].Element? {
          LookupWeakens(w, depth, TypeSite(file, args[0]), steps[1..], seen, above);
        }
      } else if !qualified && (file, head) in w.names {
        LookupWeakens(w, depth, DeclSite(w.names[(file, head)]), steps, seen, above);
      }
    case OtherType(_) =>
  }

  lemma {:induction false} LookupEachWeakens(
    w: World, depth: nat, sites: seq<Site>, steps: Path, seen: set<Key>, above: set<Key>)
    requires above <= seen && LookupEach(w, PerBranch, depth, sites, steps, above).DoneAll?
    ensures var r := LookupEach(w, Shared, depth, sites, steps, seen);
            var p := LookupEach(w, PerBranch, depth, sites, steps, above);
            && r.DoneAll? && seen <= r.seen && |r.answers| == |p.answers|
            && (forall i :: 0 <= i < |r.answers| ==> Weaker(r.answers[i], p.answers[i]))
            && Weaker(Combine(r.answers), Combine(p.answers)) && Weaker(Unanimous(r.answers), Unanimous(p.answers))
    decreases depth, |sites| + 1
  {
    if sites != [] {
      LookupWeakens(w, depth, sites[0], steps, seen, above);
      LookupEachWeakens(w, depth, sites[1..], steps, Lookup(w, Shared, depth, sites[0], steps, seen).seen, above);
    }
    CombineWeaker(LookupEach(w, Shared, depth, sites, steps, seen).answers,
                  LookupEach(w, PerBranch, depth, sites, steps, above).answers);
  }

  // Whenever the per-branch check answers, so does the check, with the same answer or `unknown`.
  lemma SharingOnlyWeakens(w: World, depth: nat, root: DeclId, steps: Path)
    requires Lookup(w, PerBranch, depth, DeclSite(root), steps, {}).Done?
    ensures var r := LookupPath(w, depth, root, steps);
            r.Done? && Weaker(r.answer, Lookup(w, PerBranch, depth, DeclSite(root), steps, {}).answer)
  {
    LookupWeakens(w, depth, DeclSite(root), steps, {}, {});
  }

  // `type Root = D | D` with `type D = { x }`: found per branch, unknown when the branches share.
  function Diamond(): World {
    World(map[0 := Entry(0, Alias(Union([Reference("D", false, []), Reference("D", false, [])]))),
              1 := Entry(0, Alias(Literal([Property("x", None)])))],
          map[(0, "D") := 1])
  }

  lemma DiamondBranch(mode: Sharing, seen: set<Key>)
    ensures Lookup(Diamond(), mode, 5, TypeSite(0, Reference("D", false, [])), [Member("x")], seen)
            == if Key(1, 1) in seen then Done(Unknown, seen) else Done(Found, seen + {Key(1, 1)})
  {
    var w, steps := Diamond(), [Member("x")];
    var literal := Literal([Property("x", None)]);
    assert FindProperty([Property("x", None)], "x").Some?;
    assert forall seen :: LookupType(w, mode, 2, 0, literal, steps, seen) == Done(Found, seen);
    assert forall seen :: Lookup(w, mode, 3, TypeSite(0, literal), steps, seen) == Done(Found, seen);
    assert Lookup(w, mode, 4, DeclSite(1), steps, seen)
        == if Key(1, 1) in seen then Done(Unknown, seen) else Done(Found, seen + {Key(1, 1)});
  }

  lemma DiamondWeakens()
    ensures LookupPath(Diamond(), 7, 0, [Member("x")]) == Done(Unknown, {Key(0, 1), Key(1, 1)})
    ensures var r := Lookup(Diamond(), PerBranch, 7, DeclSite(0), [Member("x")], {}); r.Done? && r.answer == Found
  {
    var w, steps := Diamond(), [Member("x")];
    var d := Reference("D", false, []);
    var root, both := {Key(0, 1)}, {Key(0, 1), Key(1, 1)};
    var sites := TypeSites(0, [d, d]);
    assert sites[1..] == [TypeSite(0, d)] && sites[1..][1..] == [];
    forall mode: Sharing
      ensures var left := if mode.Shared? then both else root;
              var second := if mode.Shared? then Unknown else Found;
              Lookup(w, mode, 6, TypeSite(0, Union([d, d])), steps, root) == Done(second, left)
    {
      var left := if mode.Shared? then both else root;
      var second := if mode.Shared? then Unknown else Found;
      DiamondBranch(mode, root);
      DiamondBranch(mode, left);
      assert root + {Key(1, 1)} == both;
      assert LookupEach(w, mode, 5, sites[1..][1..], steps, left) == DoneAll([], left);
      assert LookupEach(w, mode, 5, sites[1..], steps, left) == DoneAll([second], left);
      assert LookupEach(w, mode, 5, sites, steps, root) == DoneAll([Found, second], left);
      assert [Found, second][1] == second;
      assert LookupType(w, mode, 5, 0, Union([d, d]), steps, root) == Done(second, left);
    }
    assert {} + {Key(0, 1)} == root;
  }
}
