/**
 The schema-path lookup over declared configuration types: a recursive walk of a
 possibly cyclic graph of declarations that answers found, missing or unknown.
 */
module TypePaths {
  import opened Wrappers

  datatype Step = Member(name: string) | Element

  type Path = seq<Step>

  datatype Answer = Found | Missing | Unknown

  datatype Operator = KeyOf | Unique | ReadOnly

  // One signature of an interface or type literal.
  datatype Signature =
    | Property(name: string, ty: Option<TypeNode>)
    | Method(name: string)
    | IndexSignature

  datatype TypeNode =
    | Literal(members: seq<Signature>)
    | Parenthesized(inner: TypeNode)
    | Intersection(parts: seq<TypeNode>)
    | Union(parts: seq<TypeNode>)
    | ArrayOf(element: TypeNode)
    | Operated(op: Operator, inner: TypeNode)
    | Indexed(object_: TypeNode, index: Option<string>)  // None: the index is not a string literal
    | Reference(head: string, qualified: bool, args: seq<TypeNode>)
    | OtherType(kind: nat)

  datatype Heritage = Named(name: string) | Computed

  datatype Declaration =
    | Interface(members: seq<Signature>, bases: seq<Heritage>)
    | Alias(body: TypeNode)
    | Enum

  type FileId = nat
  type DeclId = nat

  datatype Entry = Entry(file: FileId, decl: Declaration)

  // Declarations and name resolution; a name that is external or out of reach resolves to nothing.
  datatype World = World(decls: map<DeclId, Entry>, names: map<(FileId, string), DeclId>)

  ghost predicate WellFormed(w: World) {
    forall key :: key in w.names ==> w.names[key] in w.decls
  }

  // Places a path can be looked up.
  datatype Site =
    | DeclSite(id: DeclId)
    | TypeSite(file: FileId, node: TypeNode)
    | UnresolvedBase(file: FileId, base: Heritage)

  // A recursive type is recognised by its declaration and the number of steps left.
  datatype Key = Key(decl: DeclId, left: nat)

  // The walk either exhausts the call stack or answers, leaving the shared set of seen keys.
  datatype Outcome = Overflow | Done(answer: Answer, seen: set<Key>)

  // Whether siblings share one seen set, as the check does, or each starts from its parent's.
  datatype Sharing = Shared | PerBranch

  datatype Outcomes = OverflowAll | DoneAll(answers: seq<Answer>, seen: set<Key>)

  const PASSTHROUGH_WRAPPERS := {"Partial", "Required", "Readonly", "NonNullable"}
  const ARRAY_WRAPPERS := {"Array", "ReadonlyArray"}

  // Any found wins, else any unknown taints, else missing.
  function Combine(answers: seq<Answer>): Answer {
    if Found in answers then Found else if Unknown in answers then Unknown else Missing
  }

  // Presence on a union is only definite when every branch agrees.
  function Unanimous(answers: seq<Answer>): Answer {
    if forall i :: 0 <= i < |answers| ==> answers[i] == Found then Found
    else if forall i :: 0 <= i < |answers| ==> answers[i] == Missing then Missing
    else Unknown
  }

  // The first property signature of that name.
  function FindProperty(members: seq<Signature>, name: string): (r: Option<Signature>)
    ensures r.Some? ==> r.value in members && r.value.Property? && r.value.name == name
    ensures r.None? ==> forall m :: m in members && m.Property? ==> m.name != name
  {
    if members == [] then None
    else if members[0].Property? && members[0].name == name then Some(members[0])
    else FindProperty(members[1..], name)
  }

  function BaseSite(w: World, file: FileId, base: Heritage): Site {
    if base.Named? && (file, base.name) in w.names then DeclSite(w.names[(file, base.name)])
    else UnresolvedBase(file, base)
  }

  function BaseSites(w: World, file: FileId, bases: seq<Heritage>): (sites: seq<Site>)
    ensures |sites| == |bases|
    ensures forall i :: 0 <= i < |sites| ==> sites[i] == BaseSite(w, file, bases[i])
  {
    seq(|bases|, i requires 0 <= i < |bases| => BaseSite(w, file, bases[i]))
  }

  function TypeSites(file: FileId, nodes: seq<TypeNode>): (sites: seq<Site>)
    ensures |sites| == |nodes|
    ensures forall i :: 0 <= i < |sites| ==> sites[i] == TypeSite(file, nodes[i])
  {
    seq(|nodes|, i requires 0 <= i < |nodes| => TypeSite(file, nodes[i]))
  }

  // `depth` is the number of stack frames available.
  function Lookup(w: World, mode: Sharing, depth: nat, site: Site, steps: Path, seen: set<Key>): (r: Outcome)
    ensures r.Done? ==> seen <= r.seen
    decreases depth, 0
  {
    if depth == 0 then Overflow
    else if steps == [] then Done(Found, seen)
    else
      match site
      case UnresolvedBase(_, _) => Done(Unknown, seen)
      case DeclSite(id) =>
        if id !in w.decls || w.decls[id].decl.Enum? then Done(Unknown, seen)
        else if Key(id, |steps|) in seen then Done(Unknown, seen)
        else LookupDecl(w, mode, depth - 1, w.decls[id].file, w.decls[id].decl, steps, seen + {Key(id, |steps|)})
      case TypeSite(file, node) => LookupType(w, mode, depth - 1, file, node, steps, seen)
  }

  function LookupDecl(
    w: World, mode: Sharing, depth: nat, file: FileId, decl: Declaration, steps: Path, seen: set<Key>): (r: Outcome)
    requires steps != [] && !decl.Enum?
    ensures r.Done? ==> seen <= r.seen
    decreases depth, |BasesOf(decl)| + 2
  {
    match decl
    case Interface(members, bases) =>
      if steps[0].Element? then Done(Unknown, seen)
      else
        var direct := FindProperty(members, steps[0].name);
        if direct.Some? then LookupProperty(w, mode, depth, file, direct.value, steps, seen)
        else if bases == [] then Done(Missing, seen)
        else
          (match LookupEach(w, mode, depth, BaseSites(w, file, bases), steps, seen)
           case OverflowAll => Overflow
           case DoneAll(answers, seen') => Done(Combine(answers), seen'))
    case Alias(body) => Lookup(w, mode, depth, TypeSite(file, body), steps, seen)
  }

  function BasesOf(decl: Declaration): seq<Heritage> {
    if decl.Interface? then decl.bases else []
  }

  function LookupProperty(
    w: World, mode: Sharing, depth: nat, file: FileId, property: Signature, steps: Path, seen: set<Key>): (r: Outcome)
    requires steps != [] && property.Property?
    ensures r.Done? ==> seen <= r.seen
    decreases depth, 1
  {
    if |steps| == 1 then Done(Found, seen)
    else if property.ty.None? then Done(Unknown, seen)
    else Lookup(w, mode, depth, TypeSite(file, property.ty.value), steps[1..], seen)
  }

  function PartsOf(node: TypeNode): seq<TypeNode> {
    if node.Intersection? || node.Union? then node.parts else []
  }

  function LookupType(
    w: World, mode: Sharing, depth: nat, file: FileId, node: TypeNode, steps: Path, seen: set<Key>): (r: Outcome)
    requires steps != []
    ensures r.Done? ==> seen <= r.seen
    decreases depth, |PartsOf(node)| + 2
  {
    match node
    case Literal(members) =>
      if steps[0].Element? then Done(Unknown, seen)
      else
        var direct := FindProperty(members, steps[0].name);
        if direct.Some? then LookupProperty(w, mode, depth, file, direct.value, steps, seen) else Done(Missing, seen)
    case Parenthesized(inner) => Lookup(w, mode, depth, TypeSite(file, inner), steps, seen)
    case Intersection(parts) =>
      (match LookupEach(w, mode, depth, TypeSites(file, parts), steps, seen)
       case OverflowAll => Overflow
       case DoneAll(answers, seen') => Done(Combine(answers), seen'))
    case Union(parts) =>
      (match LookupEach(w, mode, depth, TypeSites(file, parts), steps, seen)
       case OverflowAll => Overflow
       case DoneAll(answers, seen') => Done(Unanimous(answers), seen'))
    case ArrayOf(element) =>
      if steps[0].Element? then Lookup(w, mode, depth, TypeSite(file, element), steps[1..], seen)
      else Done(Unknown, seen)
    case Operated(_, inner) => Lookup(w, mode, depth, TypeSite(file, inner), steps, seen)
    case Indexed(object_, index) =>
      if index.Some? then Lookup(w, mode, depth, TypeSite(file, object_), [Member(index.value)] + steps, seen)
      else Done(Unknown, seen)
    case Reference(head, qualified, args) =>
      if head in PASSTHROUGH_WRAPPERS && args != [] then Lookup(w, mode, depth, TypeSite(file, args[0]), steps, seen)
      else if head in ARRAY_WRAPPERS && args != [] then
        if steps[0].Element? then Lookup(w, mode, depth, TypeSite(file, args[0]), steps[1..], seen)
        else Done(Unknown, seen)
      else if qualified || (file, head) !in w.names then Done(Unknown, seen)
      else Lookup(w, mode, depth, DeclSite(w.names[(file, head)]), steps, seen)
    case OtherType(_) => Done(Unknown, seen)
  }

  // Siblings are walked in order.
  function LookupEach(w: World, mode: Sharing, depth: nat, sites: seq<Site>, steps: Path, seen: set<Key>): (r: Outcomes)
    ensures r.DoneAll? ==> seen <= r.seen
    decreases depth, |sites| + 1
  {
    if sites == [] then DoneAll([], seen)
    else
      match Lookup(w, mode, depth, sites[0], steps, seen)
      case Overflow => OverflowAll
      case Done(answer, seen1) =>
        match LookupEach(w, mode, depth, sites[1..], steps, if mode.Shared? then seen1 else seen)
        case OverflowAll => OverflowAll
        case DoneAll(answers, seen2) => DoneAll([answer] + answers, seen2)
  }

  // The answer of the whole check: a fresh seen set at the configuration type.
  function LookupPath(w: World, depth: nat, root: DeclId, steps: Path): Outcome {
    Lookup(w, Shared, depth, DeclSite(root), steps, {})
  }
}
