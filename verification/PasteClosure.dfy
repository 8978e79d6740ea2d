/**
 The paste loop of the configuration catalog: from the configuration type's name it
 collects the package-local declarations to paste and the imports they mention.
 */
module PasteClosure {
  import opened Sorting

  type FileId = nat
  type DeclId = nat

  datatype TypeRef = TypeRef(alias: string, imported: string, specifier: string)

  datatype Resolution = Unresolved | Imported(ref: TypeRef) | Declared(decl: DeclId)

  // A declaration: the file it stands in, its name, and the type names it mentions.
  datatype Info = Info(file: FileId, name: string, names: seq<string>)

  // `resolutions` holds what each name means in each file; an absent entry is unresolved.
  datatype World = World(decls: map<DeclId, Info>, resolutions: map<(FileId, string), Resolution>, globals: set<string>)

  // A bare name met in some file.
  datatype Item = Item(name: string, from: FileId)

  datatype Violation =
    | NotDeclared(item: Item)
    | ConfigTypeImported(specifier: string)
    | DeclaredAndImported(name: string)
    | ImportedTwice(name: string)
    | DeclaredTwice(name: string)

  function Resolve(w: World, item: Item): Resolution {
    if (item.from, item.name) in w.resolutions then w.resolutions[(item.from, item.name)] else Unresolved
  }

  // A name resolves to a declaration of that name, since package-local imports are unaliased, or
  // to an import under that name.
  ghost predicate WellFormed(w: World) {
    forall item ::
      match Resolve(w, item)
      case Unresolved => true
      case Imported(ref) => ref.alias == item.name
      case Declared(d) => d in w.decls && w.decls[d].name == item.name
  }

  predicate SameTarget(a: TypeRef, b: TypeRef) {
    a.specifier == b.specifier && a.imported == b.imported
  }

  // Names a declaration contributes to the walk.
  ghost predicate Mentions(w: World, d: DeclId, item: Item) {
    d in w.decls && item.from == w.decls[d].file && item.name in w.decls[d].names && item.name !in w.globals
  }

  ghost predicate Leads(w: World, a: Item, b: Item) {
    Resolve(w, a).Declared? && Mentions(w, Resolve(w, a).decl, b)
  }

  ghost predicate IsTrail(w: World, trail: seq<Item>) {
    trail != [] && forall i :: 0 <= i < |trail| - 1 ==> Leads(w, trail[i], trail[i + 1])
  }

  // The item is met when walking from the root through declarations.
  ghost predicate Met(w: World, root: Item, item: Item) {
    exists trail :: IsTrail(w, trail) && trail[0] == root && trail[|trail| - 1] == item
  }

  lemma MetRoot(w: World, root: Item)
    ensures Met(w, root, root)
  {
    assert IsTrail(w, [root]);
  }

  lemma MetNext(w: World, root: Item, a: Item, b: Item)
    requires Met(w, root, a) && Leads(w, a, b)
    ensures Met(w, root, b)
  {
    var trail :| IsTrail(w, trail) && trail[0] == root && trail[|trail| - 1] == a;
    var longer := trail + [b];
    forall i | 0 <= i < |longer| - 1 ensures Leads(w, longer[i], longer[i + 1]) {
      if i < |trail| - 1 {
        assert Leads(w, trail[i], trail[i + 1]);
      }
    }
    assert IsTrail(w, longer);
  }

  // A set that holds the root and is closed under the walk holds everything met.
  lemma {:induction false} ClosedHoldsMet(w: World, done: set<Item>, trail: seq<Item>)
    requires IsTrail(w, trail) && trail[0] in done
    requires forall a, b :: a in done && Leads(w, a, b) ==> b in done
    ensures trail[|trail| - 1] in done
  {
    var n := |trail| - 1;
    if n > 0 {
      var init := trail[..n];
      forall i | 0 <= i < |init| - 1 ensures Leads(w, init[i], init[i + 1]) {
        assert Leads(w, trail[i], trail[i + 1]);
      }
      ClosedHoldsMet(w, done, init);
      assert Leads(w, trail[n - 1], trail[n]);
    }
  }

  // What a finished walk knows about an item it processed.
  ghost predicate Recorded(w: World, root: Item, item: Item, pasted: map<string, DeclId>, refs: map<string, TypeRef>) {
    match Resolve(w, item)
    case Unresolved => false
    case Imported(ref) => item.name != root.name && item.name in refs && refs[item.name] == ref
    case Declared(d) => item.name in pasted && pasted[item.name] == d
  }

  // Everything pasted or referenced was met on the walk.
  ghost predicate OnlyMet(w: World, root: Item, pasted: map<string, DeclId>, refs: map<string, TypeRef>) {
    && (forall name :: name in pasted ==>
          exists from :: Met(w, root, Item(name, from)) && Resolve(w, Item(name, from)) == Declared(pasted[name]))
    && (forall name :: name in refs ==>
          exists from :: Met(w, root, Item(name, from)) && Resolve(w, Item(name, from)) == Imported(refs[name]))
  }

  // The pasted declarations by name, each pasted once.
  ghost predicate PastesAre(w: World, pastes: seq<DeclId>, pasted: map<string, DeclId>) {
    && NoDuplicates(pastes)
    && (forall name :: name in pasted ==>
          pasted[name] in pastes && pasted[name] in w.decls && w.decls[pasted[name]].name == name)
    && (forall d :: d in pastes ==> d in w.decls && w.decls[d].name in pasted && pasted[w.decls[d].name] == d)
  }

  // The names a pasted declaration mentions are processed or queued.
  ghost predicate Followed(w: World, pasted: map<string, DeclId>, done: set<Item>, queue: seq<Item>) {
    forall name, item :: name in pasted && Mentions(w, pasted[name], item) ==> item in done || item in queue
  }

  ghost predicate AllRecorded(
    w: World, root: Item, done: set<Item>, pasted: map<string, DeclId>, refs: map<string, TypeRef>)
  {
    forall item :: item in done ==> Recorded(w, root, item, pasted, refs)
  }

  // The state of the walk between two items; without violations nothing met so far is missing.
  ghost predicate Progress(
    w: World, root: Item, pastes: seq<DeclId>, pasted: map<string, DeclId>, refs: map<string, TypeRef>,
    queue: seq<Item>, done: set<Item>, clean: bool)
  {
    && PastesAre(w, pastes, pasted) && OnlyMet(w, root, pasted, refs) && pasted.Keys !! refs.Keys
    && (forall item :: item in queue ==> Met(w, root, item))
    && (root in done || root in queue)
    && (clean ==> Followed(w, pasted, done, queue) && AllRecorded(w, root, done, pasted, refs))
  }

  ghost function DeclNames(w: World): set<string> {
    set d | d in w.decls :: w.decls[d].name
  }

  // The items to queue after pasting a declaration.
  function Mentioned(w: World, file: FileId, names: seq<string>): (items: seq<Item>)
    ensures forall item :: item in items <==> item.from == file && item.name in names && item.name !in w.globals
  {
    if names == [] then []
    else
      var rest := Mentioned(w, file, names[..|names| - 1]);
      var name := names[|names| - 1];
      assert names == names[..|names| - 1] + [name];
      if name in w.globals then rest else rest + [Item(name, file)]
  }

  lemma TakeFirst(queue: seq<Item>)
    requires queue != []
    ensures forall item :: item in queue <==> item == queue[0] || item in queue[1..]
  {
    assert queue == [queue[0]] + queue[1..];
  }

  // An item that changes nothing: already recorded, or reported.
  lemma SkipKeeps(
    w: World, root: Item, pastes: seq<DeclId>, pasted: map<string, DeclId>, refs: map<string, TypeRef>,
    queue: seq<Item>, done: set<Item>, clean: bool)
    requires queue != [] && Progress(w, root, pastes, pasted, refs, queue, done, clean)
    requires clean ==> Recorded(w, root, queue[0], pasted, refs)
    ensures Progress(w, root, pastes, pasted, refs, queue[1..], done + {queue[0]}, clean)
  {
    TakeFirst(queue);
  }

  lemma ReportKeeps(
    w: World, root: Item, pastes: seq<DeclId>, pasted: map<string, DeclId>, refs: map<string, TypeRef>,
    queue: seq<Item>, done: set<Item>, clean: bool)
    requires queue != [] && Progress(w, root, pastes, pasted, refs, queue, done, clean)
    ensures Progress(w, root, pastes, pasted, refs, queue[1..], done + {queue[0]}, false)
  {
    TakeFirst(queue);
  }

  lemma ImportKeeps(
    w: World, root: Item, pastes: seq<DeclId>, pasted: map<string, DeclId>, refs: map<string, TypeRef>,
    queue: seq<Item>, done: set<Item>, clean: bool, ref: TypeRef)
    requires queue != [] && Progress(w, root, pastes, pasted, refs, queue, done, clean)
    requires Resolve(w, queue[0]) == Imported(ref) && queue[0].name != root.name && queue[0].name !in pasted
    requires queue[0].name in refs ==> refs[queue[0].name] == ref
    ensures Progress(w, root, pastes, pasted, refs[queue[0].name := ref], queue[1..], done + {queue[0]}, clean)
  {
    TakeFirst(queue);
    var item := queue[0];
    assert Met(w, root, Item(item.name, item.from));
  }

  lemma PasteExtends(w: World, pastes: seq<DeclId>, pasted: map<string, DeclId>, name: string, d: DeclId)
    requires PastesAre(w, pastes, pasted) && name !in pasted && d in w.decls && w.decls[d].name == name
    ensures PastesAre(w, pastes + [d], pasted[name := d])
  {
    assert d !in pastes;
  }

  lemma PasteOnlyMet(
    w: World, root: Item, pasted: map<string, DeclId>, refs: map<string, TypeRef>, item: Item, d: DeclId)
    requires OnlyMet(w, root, pasted, refs) && Met(w, root, item) && Resolve(w, item) == Declared(d)
    ensures OnlyMet(w, root, pasted[item.name := d], refs)
  {
    assert Met(w, root, Item(item.name, item.from));
  }

  lemma PasteFollows(
    w: World, root: Item, pasted: map<string, DeclId>, queue: seq<Item>, done: set<Item>, d: DeclId)
    requires queue != [] && Followed(w, pasted, done, queue) && queue[0].name !in pasted && d in w.decls
    ensures Followed(w, pasted[queue[0].name := d], done + {queue[0]},
                     queue[1..] + Mentioned(w, w.decls[d].file, w.decls[d].names))
  {
    TakeFirst(queue);
    var mentioned := Mentioned(w, w.decls[d].file, w.decls[d].names);
    var pasted' := pasted[queue[0].name := d];
    forall name, next | name in pasted' && Mentions(w, pasted'[name], next)
      ensures next in done + {queue[0]} || next in queue[1..] + mentioned
    {
      if name == queue[0].name {
        assert next in mentioned;
      } else {
        assert next in done || next in queue;
      }
    }
  }

  lemma PasteKeeps(
    w: World, root: Item, pastes: seq<DeclId>, pasted: map<string, DeclId>, refs: map<string, TypeRef>,
    queue: seq<Item>, done: set<Item>, clean: bool, d: DeclId)
    requires WellFormed(w) && queue != [] && Progress(w, root, pastes, pasted, refs, queue, done, clean)
    requires Resolve(w, queue[0]) == Declared(d) && queue[0].name !in pasted && queue[0].name !in refs
    ensures d in w.decls && w.decls[d].name == queue[0].name
    ensures Progress(w, root, pastes + [d], pasted[queue[0].name := d], refs,
                     queue[1..] + Mentioned(w, w.decls[d].file, w.decls[d].names), done + {queue[0]}, clean)
  {
    TakeFirst(queue);
    var item := queue[0];
    var pasted' := pasted[item.name := d];
    var mentioned := Mentioned(w, w.decls[d].file, w.decls[d].names);
    PasteExtends(w, pastes, pasted, item.name, d);
    PasteOnlyMet(w, root, pasted, refs, item, d);
    forall next | next in mentioned ensures Met(w, root, next) {
      MetNext(w, root, item, next);
    }
    if clean {
      PasteFollows(w, root, pasted, queue, done, d);
      forall before | before in done ensures Recorded(w, root, before, pasted', refs) {
        assert Recorded(w, root, before, pasted, refs);
      }
    }
  }

  // With the queue empty and no violation, the walk has processed everything met.
  lemma FinishedCoversMet(
    w: World, root: Item, pastes: seq<DeclId>, pasted: map<string, DeclId>, refs: map<string, TypeRef>, done: set<Item>)
    requires Progress(w, root, pastes, pasted, refs, [], done, true)
    ensures forall item :: Met(w, root, item) ==> Recorded(w, root, item, pasted, refs)
  {
    forall item | Met(w, root, item) ensures item in done {
      var trail :| IsTrail(w, trail) && trail[0] == root && trail[|trail| - 1] == item;
      forall a, b | a in done && Leads(w, a, b) ensures b in done {
        assert Recorded(w, root, a, pasted, refs);
      }
      ClosedHoldsMet(w, done, trail);
    }
  }

  // The exact result of a walk without violations.
  ghost predicate IsClosure(w: World, root: Item, pastes: seq<DeclId>, refs: map<string, TypeRef>) {
    && (forall d :: d in pastes <==> exists item :: Met(w, root, item) && Resolve(w, item) == Declared(d))
    && (forall name, ref :: name in refs && refs[name] == ref <==>
          exists from :: Met(w, root, Item(name, from)) && Resolve(w, Item(name, from)) == Imported(ref))
  }

  // Every name means one thing everywhere, nothing is undeclared, and the root is not an import.
  ghost predicate Unambiguous(w: World, root: Item) {
    && (forall item :: Met(w, root, item) ==>
          !Resolve(w, item).Unresolved? && (Resolve(w, item).Imported? ==> item.name != root.name))
    && (forall a, b :: Met(w, root, a) && Met(w, root, b) && a.name == b.name ==> Resolve(w, a) == Resolve(w, b))
  }

  lemma RecordedIsClosure(
    w: World, root: Item, pastes: seq<DeclId>, pasted: map<string, DeclId>, refs: map<string, TypeRef>, done: set<Item>)
    requires WellFormed(w) && Progress(w, root, pastes, pasted, refs, [], done, true)
    ensures IsClosure(w, root, pastes, refs) && Unambiguous(w, root)
  {
    hide Met, Followed, AllRecorded, Resolve;
    FinishedCoversMet(w, root, pastes, pasted, refs, done);
    forall d ensures d in pastes <==> exists item :: Met(w, root, item) && Resolve(w, item) == Declared(d) {
      if item :| Met(w, root, item) && Resolve(w, item) == Declared(d) {
        assert Recorded(w, root, item, pasted, refs);
      }
    }
    forall name, ref
      ensures name in refs && refs[name] == ref <==>
              exists from :: Met(w, root, Item(name, from)) && Resolve(w, Item(name, from)) == Imported(ref)
    {
      if from :| Met(w, root, Item(name, from)) && Resolve(w, Item(name, from)) == Imported(ref) {
        assert Recorded(w, root, Item(name, from), pasted, refs);
      }
    }
    forall a, b | Met(w, root, a) && Met(w, root, b) && a.name == b.name ensures Resolve(w, a) == Resolve(w, b) {
      assert Recorded(w, root, a, pasted, refs) && Recorded(w, root, b, pasted, refs);
    }
  }

  // What a reported violation says of the names met.
  ghost predicate IsTrue(w: World, root: Item, violation: Violation) {
    match violation
    case NotDeclared(item) => Met(w, root, item) && Resolve(w, item) == Unresolved
    case ConfigTypeImported(specifier) =>
      exists from ::
        && Met(w, root, Item(root.name, from)) && Resolve(w, Item(root.name, from)).Imported?
        && Resolve(w, Item(root.name, from)).ref.specifier == specifier
    case DeclaredAndImported(name) =>
      && (exists from :: Met(w, root, Item(name, from)) && Resolve(w, Item(name, from)).Declared?)
      && (exists from :: Met(w, root, Item(name, from)) && Resolve(w, Item(name, from)).Imported?)
    case ImportedTwice(name) =>
      exists a, b ::
        && Met(w, root, Item(name, a)) && Resolve(w, Item(name, a)).Imported?
        && Met(w, root, Item(name, b)) && Resolve(w, Item(name, b)).Imported?
        && var one, other := Resolve(w, Item(name, a)).ref, Resolve(w, Item(name, b)).ref;
           one.specifier != other.specifier || one.imported != other.imported
    case DeclaredTwice(name) =>
      exists a, b ::
        && Met(w, root, Item(name, a)) && Resolve(w, Item(name, a)).Declared?
        && Met(w, root, Item(name, b)) && Resolve(w, Item(name, b)).Declared?
        && Resolve(w, Item(name, a)).decl != Resolve(w, Item(name, b)).decl
  }

  lemma TrueIsAmbiguous(w: World, root: Item, violation: Violation)
    requires IsTrue(w, root, violation)
    ensures !Unambiguous(w, root)
  {
  }

  // What the walk holds against an item, if anything.
  function Complaints(
    w: World, root: Item, item: Item, pasted: map<string, DeclId>, refs: map<string, TypeRef>): seq<Violation>
  {
    match Resolve(w, item)
    case Unresolved => [NotDeclared(item)]
    case Imported(ref) =>
      if item.name == root.name then [ConfigTypeImported(ref.specifier)]
      else if item.name in pasted then [DeclaredAndImported(item.name)]
      else if item.name in refs && !SameTarget(refs[item.name], ref) then [ImportedTwice(item.name)]
      else []
    case Declared(d) =>
      if item.name in pasted then if pasted[item.name] == d then [] else [DeclaredTwice(item.name)]
      else if item.name in refs then [DeclaredAndImported(item.name)]
      else []
  }

  lemma ComplaintsAreTrue(
    w: World, root: Item, item: Item, pasted: map<string, DeclId>, refs: map<string, TypeRef>)
    requires OnlyMet(w, root, pasted, refs) && Met(w, root, item)
    ensures forall v :: v in Complaints(w, root, item, pasted, refs) ==> IsTrue(w, root, v)
  {
    hide Met, Resolve;
    assert item == Item(item.name, item.from);
    if item.name in pasted {
      var from :|
        && Met(w, root, Item(item.name, from))
        && Resolve(w, Item(item.name, from)) == Declared(pasted[item.name]);
    }
    if item.name in refs {
      var from :| Met(w, root, Item(item.name, from)) && Resolve(w, Item(item.name, from)) == Imported(refs[item.name]);
    }
  }

  // The loop. Its result is never more than what is met; without violations it is exactly that,
  // and whenever the names met are ambiguous or undeclared there is a violation.
  method CollectPastes(w: World, root: Item)
    returns (pastes: seq<DeclId>, refs: map<string, TypeRef>, violations: seq<Violation>)
    requires WellFormed(w)
    ensures NoDuplicates(pastes)
    ensures forall d :: d in pastes ==> exists item :: Met(w, root, item) && Resolve(w, item) == Declared(d)
    ensures violations == [] ==> IsClosure(w, root, pastes, refs)
    ensures violations == [] <==> Unambiguous(w, root)
    ensures forall v :: v in violations ==> IsTrue(w, root, v)
    ensures violations == [] ==> pastes != [] && Resolve(w, root) == Declared(pastes[0])
  {
    pastes, refs, violations := [], map[], [];
    var pasted: map<string, DeclId> := map[];
    var queue := [root];
    ghost var done: set<Item> := {};
    MetRoot(w, root);
    while queue != []
      invariant Progress(w, root, pastes, pasted, refs, queue, done, violations == [])
      invariant forall v :: v in violations ==> IsTrue(w, root, v)
      invariant violations == [] ==>
                  if pastes == [] then queue == [root] && refs == map[] else Resolve(w, root) == Declared(pastes[0])
      decreases DeclNames(w) - pasted.Keys, |queue|
    {
      var item := queue[0];
      var resolved := Resolve(w, item);
      var report: seq<Violation> := [];
      assert item in queue;
      ComplaintsAreTrue(w, root, item, pasted, refs);
      match resolved {
        case Unresolved =>
          report := [NotDeclared(item)];
        case Imported(ref) =>
          if item.name == root.name {
            report := [ConfigTypeImported(ref.specifier)];
          } else if item.name in pasted {
            report := [DeclaredAndImported(item.name)];
          } else if item.name in refs && !SameTarget(refs[item.name], ref) {
            report := [ImportedTwice(item.name)];
          } else {
            ImportKeeps(w, root, pastes, pasted, refs, queue, done, violations == [], ref);
            refs := refs[item.name := ref];
            queue, done := queue[1..], done + {item};
            continue;
          }
        case Declared(d) =>
          if item.name in pasted && pasted[item.name] == d {
            SkipKeeps(w, root, pastes, pasted, refs, queue, done, violations == []);
            queue, done := queue[1..], done + {item};
            continue;
          }
          if item.name in pasted {
            report := [DeclaredTwice(item.name)];
          } else if item.name in refs {
            report := [DeclaredAndImported(item.name)];
          } else {
            PasteKeeps(w, root, pastes, pasted, refs, queue, done, violations == [], d);
            assert item.name in DeclNames(w) - pasted.Keys;
            pasted := pasted[item.name := d];
            pastes := pastes + [d];
            queue, done := queue[1..] + Mentioned(w, w.decls[d].file, w.decls[d].names), done + {item};
            continue;
          }
      }
      assert report == Complaints(w, root, item, pasted, refs);
      ReportKeeps(w, root, pastes, pasted, refs, queue, done, violations == []);
      violations := violations + report;
      queue, done := queue[1..], done + {item};
    }
    if violations == [] {
      RecordedIsClosure(w, root, pastes, pasted, refs, done);
    } else {
      TrueIsAmbiguous(w, root, violations[0]);
    }
  }
}
