/**
 The lookup as the catalog generator runs it: one set of seen keys that every branch of the
 recursion adds to. Each method does what the function of the shared mode says.
 */
module TypeChecker {
  import opened TypePaths
  import opened Wrappers

  class PathChecker {
    const w: World
    var seen: set<Key>

    constructor (w: World)
      ensures this.w == w && seen == {}
    {
      this.w, seen := w, {};
    }

    // The answer, or nothing when the stack is exhausted.
    ghost predicate Agrees(outcome: Outcome, r: Option<Answer>)
      reads this
    {
      match r
      case None => outcome == Overflow
      case Some(answer) => outcome == Done(answer, seen)
    }

    method Check(depth: nat, site: Site, steps: Path) returns (r: Option<Answer>)
      modifies this`seen
      ensures Agrees(Lookup(w, Shared, depth, site, steps, old(seen)), r)
      decreases depth, 0
    {
      hide LookupDecl, LookupType;
      if depth == 0 {
        return None;
      }
      if steps == [] {
        return Some(Found);
      }
      match site {
        case UnresolvedBase(_, _) =>
          return Some(Unknown);
        case DeclSite(id) =>
          if id !in w.decls || w.decls[id].decl.Enum? {
            return Some(Unknown);
          }
          if Key(id, |steps|) in seen {
            return Some(Unknown);
          }
          seen := seen + {Key(id, |steps|)};
          r := CheckDecl(depth - 1, w.decls[id].file, w.decls[id].decl, steps);
        case TypeSite(file, node) =>
          r := CheckType(depth - 1, file, node, steps);
      }
    }

    method CheckDecl(depth: nat, file: FileId, decl: Declaration, steps: Path) returns (r: Option<Answer>)
      requires steps != [] && !decl.Enum?
      modifies this`seen
      ensures Agrees(LookupDecl(w, Shared, depth, file, decl, steps, old(seen)), r)
      decreases depth, |BasesOf(decl)| + 2
    {
      hide Lookup, LookupEach, LookupProperty;
      match decl {
        case Alias(body) =>
          r := Check(depth, TypeSite(file, body), steps);
        case Interface(members, bases) =>
          if steps[0].Element? {
            return Some(Unknown);
          }
          var direct := FindProperty(members, steps[0].name);
          if direct.Some? {
            r := CheckProperty(depth, file, direct.value, steps);
            return;
          }
          if bases == [] {
            return Some(Missing);
          }
          var answers := CheckEach(depth, BaseSites(w, file, bases), steps);
          r := if answers.Some? then Some(Combine(answers.value)) else None;
      }
    }

    method CheckProperty(depth: nat, file: FileId, property: Signature, steps: Path) returns (r: Option<Answer>)
      requires steps != [] && property.Property?
      modifies this`seen
      ensures Agrees(LookupProperty(w, Shared, depth, file, property, steps, old(seen)), r)
      decreases depth, 1
    {
      hide Lookup;
      if |steps| == 1 {
        return Some(Found);
      }
      if property.ty.None? {
        return Some(Unknown);
      }
      r := Check(depth, TypeSite(file, property.ty.value), steps[1..]);
    }

    method CheckType(depth: nat, file: FileId, node: TypeNode, steps: Path) returns (r: Option<Answer>)
      requires steps != []
      modifies this`seen
      ensures Agrees(LookupType(w, Shared, depth, file, node, steps, old(seen)), r)
      decreases depth, |PartsOf(node)| + 2
    {
      hide Lookup, LookupEach, LookupProperty;
      r := Some(Unknown);
      match node {
        case Literal(members) =>
          if steps[0].Member? {
            var direct := FindProperty(members, steps[0].name);
            if direct.None? {
              return Some(Missing);
            }
            r := CheckProperty(depth, file, direct.value, steps);
          }
        case Parenthesized(inner) =>
          r := Check(depth, TypeSite(file, inner), steps);
        case Intersection(parts) =>
          var answers := CheckEach(depth, TypeSites(file, parts), steps);
          r := if answers.Some? then Some(Combine(answers.value)) else None;
        case Union(parts) =>
          var answers := CheckEach(depth, TypeSites(file, parts), steps);
          r := if answers.Some? then Some(Unanimous(answers.value)) else None;
        case ArrayOf(element) =>
          if steps[0].Element? {
            r := Check(depth, TypeSite(file, element), steps[1..]);
          }
        case Operated(_, inner) =>
          r := Check(depth, TypeSite(file, inner), steps);
        case Indexed(object_, index) =>
          if index.Some? {
            r := Check(depth, TypeSite(file, object_), [Member(index.value)] + steps);
          }
        case Reference(head, qualified, args) =>
          if head in PASSTHROUGH_WRAPPERS && args != [] {
            r := Check(depth, TypeSite(file, args[0]), steps);
          } else if head in ARRAY_WRAPPERS && args != [] {
            if steps[0].Element? {
              r := Check(depth, TypeSite(file, args[0]), steps[1..]);
            }
          } else if !qualified && (file, head) in w.names {
            r := Check(depth, DeclSite(w.names[(file, head)]), steps);
          }
        case OtherType(_) =>
      }
    }

    // Siblings in order, on the one set.
    method CheckEach(depth: nat, sites: seq<Site>, steps: Path) returns (r: Option<seq<Answer>>)
      modifies this`seen
      ensures match r
              case None => LookupEach(w, Shared, depth, sites, steps, old(seen)) == OverflowAll
              case Some(answers) => LookupEach(w, Shared, depth, sites, steps, old(seen)) == DoneAll(answers, seen)
      decreases depth, |sites| + 1
    {
      hide Lookup;
      if sites == [] {
        return Some([]);
      }
      var first := Check(depth, sites[0], steps);
      if first.None? {
        return None;
      }
      var rest := CheckEach(depth, sites[1..], steps);
      r := if rest.Some? then Some([first.value] + rest.value) else None;
    }
  }

  // The check of one path from the configuration type.
  method LookupSchemaPath(w: World, depth: nat, root: DeclId, steps: Path) returns (r: Option<Answer>)
    ensures match LookupPath(w, depth, root, steps)
            case Overflow => r == None
            case Done(answer, _) => r == Some(answer)
  {
    var checker := new PathChecker(w);
    r := checker.Check(depth, DeclSite(root), steps);
  }
}
