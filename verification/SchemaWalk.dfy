/**
 The walk of a runtime schema expression to its key paths, against the paths that lead
 through the nested object and array compositions of that expression.
 */
module SchemaWalk {
  import opened TypePaths
  import opened SchemaPaths

  datatype Expr =
    | Wrapped(inner: Expr)                                         // as, satisfies, parentheses
    | MethodCall(receiver: Expr, method_: string, args: seq<Expr>)
    | PlainCall                                                    // a call that is not of a property
    | ObjectLiteral(props: seq<Prop>)
    | ArrayLiteral(elements: seq<Expr>)
    | ConfigOf(name: string)                                       // X.Config
    | OtherExpr

  datatype Prop = Assigned(key: string, value: Expr) | Shorthand(key: string) | OtherProp

  datatype Violation = NotWalkable | NotPlainKey | NotPart | NoBase(method_: string)

  // Imported name to module specifier.
  type Imports = map<string, string>

  function Unwrap(e: Expr): (r: Expr)
    ensures r == e || r < e
    ensures !r.Wrapped?
  {
    if e.Wrapped? then Unwrap(e.inner) else e
  }

  predicate IsCall(e: Expr) {
    e.MethodCall? || e.PlainCall?
  }

  // Paths below one property's value, in text form.
  function ValuePaths(value: Expr, base: string): seq<string>
    decreases value, 1
  {
    match Unwrap(value)
    case MethodCall(receiver, method_, args) =>
      if method_ == "object" && args != [] && args[0].ObjectLiteral? then PropsPaths(args[0].props, base)
      else if method_ == "array" && args != [] then ValuePaths(args[0], base + "[]")
      else if IsCall(Unwrap(receiver)) then ValuePaths(Unwrap(receiver), base)
      else []
    case _ => []
  }

  function PropsPaths(props: seq<Prop>, base: string): seq<string>
    decreases props, 0
  {
    if props == [] then []
    else PropsPaths(props[..|props| - 1], base) + PropPaths(props[|props| - 1], base)
  }

  function PropPaths(prop: Prop, base: string): seq<string>
    decreases prop, 0
  {
    if prop.Assigned? then [base + "." + prop.key] + ValuePaths(prop.value, base + "." + prop.key) else []
  }

  datatype Walk = Walk(keys: seq<string>, composes: seq<string>, violations: seq<Violation>)

  const NOTHING := Walk([], [], [])

  function Then(a: Walk, b: Walk): Walk {
    Walk(a.keys + b.keys, a.composes + b.composes, a.violations + b.violations)
  }

  function RootProp(prop: Prop): Walk {
    match prop
    case Assigned(key, value) => Walk([key] + ValuePaths(value, key), [], [])
    case Shorthand(key) => Walk([key], [], [])
    case OtherProp => Walk([], [], [NotPlainKey])
  }

  function RootProps(props: seq<Prop>): Walk {
    if props == [] then NOTHING else Then(RootProps(props[..|props| - 1]), RootProp(props[|props| - 1]))
  }

  predicate IsComposed(part: Expr, imports: Imports) {
    part.ConfigOf? && part.name in imports && !("." <= imports[part.name])
  }

  function Part(el: Expr, imports: Imports): Walk
    decreases el, 2
  {
    var part := Unwrap(el);
    if IsComposed(part, imports) then Walk([], [imports[part.name]], [])
    else if IsCall(part) then Visited(part, imports)
    else Walk([], [], [NotPart])
  }

  function Parts(elements: seq<Expr>, imports: Imports): Walk
    decreases elements, 0
  {
    if elements == [] then NOTHING
    else Then(Parts(elements[..|elements| - 1], imports), Part(elements[|elements| - 1], imports))
  }

  function Variant(el: Expr, imports: Imports): Walk
    decreases el, 2
  {
    if IsCall(Unwrap(el)) then Visited(Unwrap(el), imports) else NOTHING
  }

  function Variants(elements: seq<Expr>, imports: Imports): Walk
    decreases elements, 0
  {
    if elements == [] then NOTHING
    else Then(Variants(elements[..|elements| - 1], imports), Variant(elements[|elements| - 1], imports))
  }

  // What a visit of a schema expression adds.
  function Visited(e: Expr, imports: Imports): Walk
    decreases e, 1
  {
    match Unwrap(e)
    case MethodCall(receiver, method_, args) =>
      if method_ == "object" && args != [] && args[0].ObjectLiteral? then RootProps(args[0].props)
      else if method_ == "intersect" && args != [] && args[0].ArrayLiteral? then Parts(args[0].elements, imports)
      else if method_ == "union" && args != [] && args[0].ArrayLiteral? then Variants(args[0].elements, imports)
      else if IsCall(Unwrap(receiver)) then Visited(Unwrap(receiver), imports)
      else Walk([], [], [NoBase(method_)])
    case _ => Walk([], [], [NotWalkable])
  }

  lemma NoProps(base: string)
    ensures PropsPaths([], base) == []
  {
  }

  lemma NextProp(props: seq<Prop>, i: nat, base: string)
    requires i < |props|
    ensures PropsPaths(props[..i + 1], base) == PropsPaths(props[..i], base) + PropPaths(props[i], base)
  {
    assert props[..i + 1][..i] == props[..i];
  }

  lemma NoParts(imports: Imports)
    ensures Parts([], imports) == NOTHING
  {
  }

  lemma NextPart(elements: seq<Expr>, i: nat, imports: Imports)
    requires i < |elements|
    ensures Parts(elements[..i + 1], imports) == Then(Parts(elements[..i], imports), Part(elements[i], imports))
  {
    assert elements[..i + 1][..i] == elements[..i];
  }

  // The walk itself pushes onto shared lists.
  class SchemaWalker {
    var keys: seq<string>
    var composes: seq<string>
    var violations: seq<Violation>

    constructor ()
      ensures keys == [] && composes == [] && violations == []
    {
      keys, composes, violations := [], [], [];
    }

    ghost function Collected(): Walk
      reads this
    {
      Walk(keys, composes, violations)
    }

    method CollectValuePaths(value: Expr, base: string)
      modifies this`keys
      ensures keys == old(keys) + ValuePaths(value, base)
      decreases value
    {
      hide PropsPaths;
      NoProps(base);
      var call := Unwrap(value);
      if !call.MethodCall? {
        return;
      }
      if call.method_ == "object" && call.args != [] && call.args[0].ObjectLiteral? {
        var props := call.args[0].props;
        for i := 0 to |props|
          invariant keys == old(keys) + PropsPaths(props[..i], base)
        {
          ghost var before := keys;
          if props[i].Assigned? {
            keys := keys + [base + "." + props[i].key];
            CollectValuePaths(props[i].value, base + "." + props[i].key);
          }
          assert keys == before + PropPaths(props[i], base);
          NextProp(props, i, base);
        }
        assert props[..|props|] == props;
        return;
      }
      if call.method_ == "array" && call.args != [] {
        CollectValuePaths(call.args[0], base + "[]");
        return;
      }
      var inner := Unwrap(call.receiver);
      if IsCall(inner) {
        CollectValuePaths(inner, base);
      }
    }

    method Visit(e: Expr, imports: Imports)
      modifies this
      ensures Collected() == Then(old(Collected()), Visited(e, imports))
      decreases e, 1
    {
      var call := Unwrap(e);
      if !call.MethodCall? {
        violations := violations + [NotWalkable];
        return;
      }
      if call.method_ == "object" && call.args != [] && call.args[0].ObjectLiteral? {
        VisitProps(call.args[0].props);
        return;
      }
      if call.method_ == "intersect" && call.args != [] && call.args[0].ArrayLiteral? {
        VisitParts(call.args[0].elements, imports);
        return;
      }
      if call.method_ == "union" && call.args != [] && call.args[0].ArrayLiteral? {
        VisitVariants(call.args[0].elements, imports);
        return;
      }
      var base := Unwrap(call.receiver);
      if IsCall(base) {
        Visit(base, imports);
        return;
      }
      violations := violations + [NoBase(call.method_)];
    }

    method VisitProps(props: seq<Prop>)
      modifies this
      ensures Collected() == Then(old(Collected()), RootProps(props))
    {
      for i := 0 to |props|
        invariant Collected() == Then(old(Collected()), RootProps(props[..i]))
      {
        match props[i] {
          case Assigned(key, value) =>
            keys := keys + [key];
            CollectValuePaths(value, key);
          case Shorthand(key) =>
            keys := keys + [key];
          case OtherProp =>
            violations := violations + [NotPlainKey];
        }
        assert props[..i + 1][..i] == props[..i];
      }
      assert props[..|props|] == props;
    }

    method VisitParts(elements: seq<Expr>, imports: Imports)
      modifies this
      ensures Collected() == Then(old(Collected()), Parts(elements, imports))
      decreases elements, 0
    {
      hide Visited, Parts;
      NoParts(imports);
      for i := 0 to |elements|
        invariant Collected() == Then(old(Collected()), Parts(elements[..i], imports))
      {
        var part := Unwrap(elements[i]);
        if IsComposed(part, imports) {
          composes := composes + [imports[part.name]];
        } else if IsCall(part) {
          Visit(part, imports);
        } else {
          violations := violations + [NotPart];
        }
        NextPart(elements, i, imports);
      }
      assert elements[..|elements|] == elements;
    }

    method VisitVariants(elements: seq<Expr>, imports: Imports)
      modifies this
      ensures Collected() == Then(old(Collected()), Variants(elements, imports))
      decreases elements, 0
    {
      hide Visited;
      for i := 0 to |elements|
        invariant Collected() == Then(old(Collected()), Variants(elements[..i], imports))
      {
        var part := Unwrap(elements[i]);
        if IsCall(part) {
          Visit(part, imports);
        }
        assert elements[..i + 1][..i] == elements[..i];
      }
      assert elements[..|elements|] == elements;
    }
  }

  // What a value composes, seen through wrappers and chained refinements.
  datatype Shape = ObjectShape(props: seq<Prop>) | ArrayShape(element: Expr) | NoShape

  function ShapeOf(value: Expr): (shape: Shape)
    ensures shape.ObjectShape? ==> forall prop :: prop in shape.props && prop.Assigned? ==> prop.value < value
    ensures shape.ArrayShape? ==> shape.element < value
  {
    match Unwrap(value)
    case MethodCall(receiver, method_, args) =>
      if method_ == "object" && args != [] && args[0].ObjectLiteral? then ObjectShape(args[0].props)
      else if method_ == "array" && args != [] then ArrayShape(args[0])
      else if IsCall(Unwrap(receiver)) then ShapeOf(Unwrap(receiver))
      else NoShape
    case _ => NoShape
  }

  // The steps lead from a value to a nested schema node.
  predicate Leads(value: Expr, steps: Path)
    decreases |steps|
  {
    steps == [] ||
    match (ShapeOf(value), steps[0])
    case (ObjectShape(props), Member(key)) =>
      exists prop :: prop in props && prop.Assigned? && prop.key == key && Leads(prop.value, steps[1..])
    case (ArrayShape(element), Element) => Leads(element, steps[1..])
    case _ => false
  }

  // The steps lead from a schema to a node, through any of its intersected or alternative parts.
  predicate RootLeads(e: Expr, steps: Path, imports: Imports)
    decreases e
  {
    && steps != [] && steps[0].Member?
    && match Unwrap(e)
       case MethodCall(receiver, method_, args) =>
         if method_ == "object" && args != [] && args[0].ObjectLiteral? then
           exists prop :: prop in args[0].props && !prop.OtherProp? && prop.key == steps[0].name
                          && (|steps| == 1 || (prop.Assigned? && Leads(prop.value, steps[1..])))
         else if method_ in ["intersect", "union"] && args != [] && args[0].ArrayLiteral? then
           exists el :: el in args[0].elements && IsCall(Unwrap(el)) && RootLeads(Unwrap(el), steps, imports)
         else IsCall(Unwrap(receiver)) && RootLeads(Unwrap(receiver), steps, imports)
       case _ => false
  }

  predicate EndsWithMember(steps: Path) {
    steps != [] && steps[|steps| - 1].Member?
  }

  lemma {:induction false} ValuePathsByShape(value: Expr, base: string)
    ensures ValuePaths(value, base) ==
            match ShapeOf(value)
            case ObjectShape(props) => PropsPaths(props, base)
            case ArrayShape(element) => ValuePaths(element, base + "[]")
            case NoShape => []
    decreases value
  {
    match Unwrap(value)
    case MethodCall(receiver, method_, args) =>
      if !(method_ == "object" && args != [] && args[0].ObjectLiteral?) && !(method_ == "array" && args != [])
         && IsCall(Unwrap(receiver)) {
        ValuePathsByShape(Unwrap(receiver), base);
      }
    case _ =>
  }

  lemma {:induction false} InPropsPaths(props: seq<Prop>, base: string, path: string)
    ensures path in PropsPaths(props, base) <==> exists prop :: prop in props && path in PropPaths(prop, base)
  {
    if props != [] {
      var init, last := props[..|props| - 1], props[|props| - 1];
      InPropsPaths(init, base, path);
      assert props == init + [last];
      assert PropsPaths(props, base) == PropsPaths(init, base) + PropPaths(last, base);
      assert last in props;
    }
  }

  lemma RenderPush(steps: Path, step: Step)
    requires steps != []
    ensures Render(steps + [step]) == Render(steps) + (if step.Element? then "[]" else "." + step.name)
  {
    assert (steps + [step])[..|steps|] == steps;
    if step.Member? {
      assert Render(steps) + "." + step.name == Render(steps) + ("." + step.name);
    }
  }

  // Every text the walk emits prints steps that lead to a node.
  lemma {:induction false} EmittedLeads(value: Expr, base: Path, path: string) returns (steps: Path)
    requires base != [] && path in ValuePaths(value, Render(base))
    ensures EndsWithMember(steps) && Leads(value, steps) && path == Render(base + steps)
    decreases value
  {
    hide Render, ShapeOf, ValuePaths, PropsPaths;
    ValuePathsByShape(value, Render(base));
    match ShapeOf(value)
    case ObjectShape(props) =>
      InPropsPaths(props, Render(base), path);
      var prop :| prop in props && path in PropPaths(prop, Render(base));
      RenderPush(base, Member(prop.key));
      assert Render(base) + "." + prop.key == Render(base + [Member(prop.key)]);
      if path == Render(base) + "." + prop.key {
        steps := [Member(prop.key)];
      } else {
        var rest := EmittedLeads(prop.value, base + [Member(prop.key)], path);
        steps := [Member(prop.key)] + rest;
        assert base + steps == base + [Member(prop.key)] + rest;
      }
      assert Leads(prop.value, steps[1..]);
    case ArrayShape(element) =>
      RenderPush(base, Element);
      var rest := EmittedLeads(element, base + [Element], path);
      steps := [Element] + rest;
      assert base + steps == base + [Element] + rest;
    case NoShape =>
  }

  // ... and every member node is emitted.
  lemma {:induction false} LeadingIsEmitted(value: Expr, base: Path, steps: Path)
    requires base != [] && EndsWithMember(steps) && Leads(value, steps)
    ensures Render(base + steps) in ValuePaths(value, Render(base))
    decreases |steps|
  {
    ValuePathsByShape(value, Render(base));
    var rest := steps[1..];
    assert base + steps == base + [steps[0]] + rest;
    RenderPush(base, steps[0]);
    match (ShapeOf(value), steps[0])
    case (ObjectShape(props), Member(key)) =>
      var prop :| prop in props && prop.Assigned? && prop.key == key && Leads(prop.value, rest);
      assert Render(base) + "." + key == Render(base + [Member(key)]);
      if rest != [] {
        LeadingIsEmitted(prop.value, base + [Member(key)], rest);
      } else {
        assert base + steps == base + [Member(key)];
      }
      InPropsPaths(props, Render(base), Render(base + steps));
    case (ArrayShape(element), Element) =>
      LeadingIsEmitted(element, base + [Element], rest);
    case _ =>
  }

  lemma {:induction false} InRootProps(props: seq<Prop>, path: string)
    ensures path in RootProps(props).keys <==> exists prop :: prop in props && path in RootProp(prop).keys
  {
    if props != [] {
      var init, last := props[..|props| - 1], props[|props| - 1];
      InRootProps(init, path);
      assert props == init + [last];
      assert RootProps(props).keys == RootProps(init).keys + RootProp(last).keys;
      assert last in props;
    }
  }

  lemma {:induction false} InParts(elements: seq<Expr>, imports: Imports, path: string)
    ensures path in Parts(elements, imports).keys <==>
            exists el :: el in elements && IsCall(Unwrap(el)) && path in Visited(Unwrap(el), imports).keys
  {
    if elements != [] {
      var init, last := elements[..|elements| - 1], elements[|elements| - 1];
      InParts(init, imports, path);
      assert elements == init + [last];
      assert Parts(elements, imports).keys == Parts(init, imports).keys + Part(last, imports).keys;
      assert last in elements;
    }
  }

  lemma {:induction false} InVariants(elements: seq<Expr>, imports: Imports, path: string)
    ensures path in Variants(elements, imports).keys <==>
            exists el :: el in elements && IsCall(Unwrap(el)) && path in Visited(Unwrap(el), imports).keys
  {
    if elements != [] {
      var init, last := elements[..|elements| - 1], elements[|elements| - 1];
      InVariants(init, imports, path);
      assert elements == init + [last];
      assert Variants(elements, imports).keys == Variants(init, imports).keys + Variant(last, imports).keys;
      assert last in elements;
    }
  }

  lemma RootPropEmits(prop: Prop, path: string) returns (steps: Path)
    requires path in RootProp(prop).keys
    ensures EndsWithMember(steps) && path == Render(steps) && !prop.OtherProp? && steps[0] == Member(prop.key)
    ensures |steps| == 1 || (prop.Assigned? && Leads(prop.value, steps[1..]))
  {
    var base := [Member(prop.key)];
    assert Render(base) == prop.key;
    if path == prop.key {
      steps := base;
    } else {
      var rest := EmittedLeads(prop.value, base, path);
      steps := base + rest;
    }
  }

  // The text of every emitted key prints steps that lead to a schema member.
  lemma {:induction false} KeyLeads(e: Expr, imports: Imports, path: string) returns (steps: Path)
    requires path in Visited(e, imports).keys
    ensures EndsWithMember(steps) && RootLeads(e, steps, imports) && path == Render(steps)
    decreases e
  {
    var MethodCall(receiver, method_, args) := Unwrap(e);
    if method_ == "object" && args != [] && args[0].ObjectLiteral? {
      InRootProps(args[0].props, path);
      var prop :| prop in args[0].props && path in RootProp(prop).keys;
      steps := RootPropEmits(prop, path);
    } else if method_ in ["intersect", "union"] && args != [] && args[0].ArrayLiteral? {
      InParts(args[0].elements, imports, path);
      InVariants(args[0].elements, imports, path);
      var el :| el in args[0].elements && IsCall(Unwrap(el)) && path in Visited(Unwrap(el), imports).keys;
      steps := KeyLeads(Unwrap(el), imports, path);
    } else {
      steps := KeyLeads(Unwrap(receiver), imports, path);
    }
  }

  // Conversely every schema member is emitted.
  lemma {:induction false} MemberIsKey(e: Expr, imports: Imports, steps: Path)
    requires EndsWithMember(steps) && RootLeads(e, steps, imports)
    ensures Render(steps) in Visited(e, imports).keys
    decreases e
  {
    hide Leads, ShapeOf, ValuePaths, Parts, Variants;
    var MethodCall(receiver, method_, args) := Unwrap(e);
    if method_ == "object" && args != [] && args[0].ObjectLiteral? {
      var prop :| prop in args[0].props && !prop.OtherProp? && prop.key == steps[0].name
                  && (|steps| == 1 || (prop.Assigned? && Leads(prop.value, steps[1..])));
      var base := [Member(prop.key)];
      assert steps == base + steps[1..] && Render(base) == prop.key;
      if |steps| > 1 {
        LeadingIsEmitted(prop.value, base, steps[1..]);
      } else {
        assert steps == base;
      }
      InRootProps(args[0].props, Render(steps));
    } else if method_ in ["intersect", "union"] && args != [] && args[0].ArrayLiteral? {
      var el :| el in args[0].elements && IsCall(Unwrap(el)) && RootLeads(Unwrap(el), steps, imports);
      MemberIsKey(Unwrap(el), imports, steps);
      InParts(args[0].elements, imports, Render(steps));
      InVariants(args[0].elements, imports, Render(steps));
    } else {
      MemberIsKey(Unwrap(receiver), imports, steps);
    }
  }

  // The emitted keys are exactly the printed member paths of the schema.
  lemma KeysAreMemberPaths(e: Expr, imports: Imports, path: string)
    ensures path in Visited(e, imports).keys <==>
            exists steps :: EndsWithMember(steps) && RootLeads(e, steps, imports) && path == Render(steps)
  {
    if path in Visited(e, imports).keys {
      var steps := KeyLeads(e, imports, path);
    }
    if steps :| EndsWithMember(steps) && RootLeads(e, steps, imports) && path == Render(steps) {
      MemberIsKey(e, imports, steps);
    }
  }

  // A schema whose member paths use only clean keys.
  ghost predicate CleanSchema(e: Expr, imports: Imports) {
    forall steps :: EndsWithMember(steps) && RootLeads(e, steps, imports) ==> CleanSteps(steps)
  }

  // Each emitted text parses to the steps of the member it was printed for exactly when the keys
  // on the way are clean, so over a clean schema parsing the emitted keys gives the member paths.
  lemma EmittedKeysRoundTrip(e: Expr, imports: Imports)
    ensures forall steps :: EndsWithMember(steps) && RootLeads(e, steps, imports) ==>
              Render(steps) in Visited(e, imports).keys && (Parsed(Render(steps)) == steps <==> CleanSteps(steps))
    ensures CleanSchema(e, imports) ==> forall path :: path in Visited(e, imports).keys ==>
              EndsWithMember(Parsed(path)) && RootLeads(e, Parsed(path), imports) && Render(Parsed(path)) == path
  {
    forall steps | EndsWithMember(steps) && RootLeads(e, steps, imports)
      ensures Render(steps) in Visited(e, imports).keys && (Parsed(Render(steps)) == steps <==> CleanSteps(steps))
    {
      MemberIsKey(e, imports, steps);
      PathRoundTripIff(steps);
    }
    if CleanSchema(e, imports) {
      forall path | path in Visited(e, imports).keys
        ensures EndsWithMember(Parsed(path)) && RootLeads(e, Parsed(path), imports) && Render(Parsed(path)) == path
      {
        var steps := KeyLeads(e, imports, path);
        PathRoundTripIff(steps);
      }
    }
  }
}
