/**
 What the schema walk reports and composes, said of the expressions it descends to: a schema it
 cannot see through never passes in silence.
 */
module SchemaGate {
  import opened SchemaWalk

  predicate IsObjectCall(node: Expr) {
    node.MethodCall? && node.method_ == "object" && node.args != [] && node.args[0].ObjectLiteral?
  }

  predicate IsListCall(node: Expr, name: string) {
    node.MethodCall? && node.method_ == name && node.args != [] && node.args[0].ArrayLiteral?
  }

  // From an intersection or a union the walk descends to the elements that are calls, from a refinement
  // to the call it refines.
  predicate Descends(e: Expr, node: Expr)
    decreases e
  {
    var call := Unwrap(e);
    || node == call
    || (call.MethodCall? && !IsObjectCall(call)
        && if IsListCall(call, "intersect") || IsListCall(call, "union") then
             exists el :: el in call.args[0].elements && IsCall(Unwrap(el)) && Descends(Unwrap(el), node)
           else
             IsCall(Unwrap(call.receiver)) && Descends(Unwrap(call.receiver), node))
  }

  // `X.Config` of a package that is imported by its name, not by a relative path.
  predicate NamesPackage(part: Expr, imports: map<string, string>, specifier: string) {
    && part.ConfigOf? && part.name in imports && imports[part.name] == specifier
    && (specifier == "" || specifier[0] != '.')
  }

  predicate NamesSomePackage(part: Expr, imports: map<string, string>) {
    part.ConfigOf? && part.name in imports && NamesPackage(part, imports, imports[part.name])
  }

  // What is wrong with one expression.
  ghost predicate Blames(node: Expr, imports: map<string, string>, violation: Violation) {
    match violation
    case NotWalkable => !node.MethodCall?
    case NotPlainKey => IsObjectCall(node) && OtherProp in node.args[0].props
    case NotPart =>
      && IsListCall(node, "intersect")
      && exists el :: el in node.args[0].elements && !IsCall(Unwrap(el)) && !NamesSomePackage(Unwrap(el), imports)
    case NoBase(name) =>
      && node.MethodCall? && node.method_ == name
      && !IsObjectCall(node) && !IsListCall(node, "intersect") && !IsListCall(node, "union")
      && !IsCall(Unwrap(node.receiver))
  }

  ghost predicate BlamesSome(e: Expr, imports: map<string, string>, violation: Violation) {
    exists node :: Descends(e, node) && Blames(node, imports, violation)
  }

  lemma {:induction false} InRootViolations(props: seq<Prop>, violation: Violation)
    ensures violation in RootProps(props).violations <==> violation == NotPlainKey && OtherProp in props
    ensures RootProps(props).composes == []
  {
    hide ValuePaths;
    if props != [] {
      var init, last := props[..|props| - 1], props[|props| - 1];
      InRootViolations(init, violation);
      assert props == init + [last];
      assert OtherProp in props <==> OtherProp in init || last == OtherProp;
      assert RootProp(last).composes == [];
      assert RootProp(last).violations == if last.OtherProp? then [NotPlainKey] else [];
    }
  }

  // Where a blamed expression can be: at the top, or below it.
  lemma BlamedInList(e: Expr, imports: map<string, string>, violation: Violation)
    requires IsListCall(Unwrap(e), "intersect") || IsListCall(Unwrap(e), "union")
    ensures BlamesSome(e, imports, violation)
            <==> Blames(Unwrap(e), imports, violation)
                 || exists el ::
                      && el in Unwrap(e).args[0].elements && IsCall(Unwrap(el))
                      && BlamesSome(Unwrap(el), imports, violation)
  {
    hide Blames;
    var call := Unwrap(e);
    assert Descends(e, call);
    if el :| el in call.args[0].elements && IsCall(Unwrap(el)) && BlamesSome(Unwrap(el), imports, violation) {
      var node :| Descends(Unwrap(el), node) && Blames(node, imports, violation);
      assert Descends(e, node);
    }
  }

  lemma BlamedElsewhere(e: Expr, imports: map<string, string>, violation: Violation)
    requires !IsListCall(Unwrap(e), "intersect") && !IsListCall(Unwrap(e), "union")
    ensures var call := Unwrap(e);
            var below := call.MethodCall? && !IsObjectCall(call) && IsCall(Unwrap(call.receiver));
            BlamesSome(e, imports, violation)
            <==> Blames(call, imports, violation) || (below && BlamesSome(Unwrap(call.receiver), imports, violation))
  {
    hide Blames;
    var call := Unwrap(e);
    assert Descends(e, call);
    if call.MethodCall? && !IsObjectCall(call) && IsCall(Unwrap(call.receiver)) {
      assert forall node :: Descends(Unwrap(call.receiver), node) ==> Descends(e, node);
    }
  }

  lemma {:induction false} InPartsReports(
    elements: seq<Expr>, imports: map<string, string>, v: Violation, specifier: string)
    ensures v in Parts(elements, imports).violations <==>
            exists el :: el in elements && v in Part(el, imports).violations
    ensures specifier in Parts(elements, imports).composes <==>
            exists el :: el in elements && specifier in Part(el, imports).composes
  {
    hide Part;
    if elements != [] {
      var init, last := elements[..|elements| - 1], elements[|elements| - 1];
      InPartsReports(init, imports, v, specifier);
      assert elements == init + [last];
      assert last in elements;
    }
  }

  lemma {:induction false} InVariantsReports(
    elements: seq<Expr>, imports: map<string, string>, v: Violation, specifier: string)
    ensures v in Variants(elements, imports).violations <==>
            exists el :: el in elements && v in Variant(el, imports).violations
    ensures specifier in Variants(elements, imports).composes <==>
            exists el :: el in elements && specifier in Variant(el, imports).composes
  {
    hide Variant;
    if elements != [] {
      var init, last := elements[..|elements| - 1], elements[|elements| - 1];
      InVariantsReports(init, imports, v, specifier);
      assert elements == init + [last];
      assert last in elements;
    }
  }

  // Each kind of violation is reported exactly when an expression the walk descends to deserves it.
  lemma {:induction false} ReportedIff(e: Expr, imports: map<string, string>, violation: Violation)
    ensures violation in Visited(e, imports).violations <==> BlamesSome(e, imports, violation)
    decreases e
  {
    hide BlamesSome, Parts, Variants;
    var call := Unwrap(e);
    if IsListCall(call, "intersect") {
      BlamedInList(e, imports, violation);
      InPartsReports(call.args[0].elements, imports, violation, "");
      forall el | el in call.args[0].elements && IsCall(Unwrap(el))
        ensures violation in Part(el, imports).violations <==> BlamesSome(Unwrap(el), imports, violation)
      {
        ReportedIff(Unwrap(el), imports, violation);
      }
      PartsBlamed(call, imports, violation);
    } else if IsListCall(call, "union") {
      BlamedInList(e, imports, violation);
      InVariantsReports(call.args[0].elements, imports, violation, "");
      forall el | el in call.args[0].elements && IsCall(Unwrap(el))
        ensures violation in Variant(el, imports).violations <==> BlamesSome(Unwrap(el), imports, violation)
      {
        ReportedIff(Unwrap(el), imports, violation);
      }
    } else {
      BlamedElsewhere(e, imports, violation);
      if IsObjectCall(call) {
        InRootViolations(call.args[0].props, violation);
      } else if call.MethodCall? && IsCall(Unwrap(call.receiver)) {
        ReportedIff(Unwrap(call.receiver), imports, violation);
      }
    }
  }

  // The elements of an intersection that are no calls report exactly what the intersection is blamed for.
  lemma PartsBlamed(call: Expr, imports: map<string, string>, violation: Violation)
    requires IsListCall(call, "intersect")
    ensures Blames(call, imports, violation)
            <==> exists el ::
                   el in call.args[0].elements && !IsCall(Unwrap(el)) && violation in Part(el, imports).violations
  {
    hide Visited;
    forall el | el in call.args[0].elements && !IsCall(Unwrap(el))
      ensures violation in Part(el, imports).violations
              <==> violation == NotPart && !NamesSomePackage(Unwrap(el), imports)
    {
      assert IsComposed(Unwrap(el), imports) <==> NamesSomePackage(Unwrap(el), imports);
    }
  }

  // An expression the walk sees through.
  ghost predicate IsSeenThrough(node: Expr, imports: map<string, string>) {
    && node.MethodCall?
    && if IsObjectCall(node) then forall prop :: prop in node.args[0].props ==> !prop.OtherProp?
       else if IsListCall(node, "intersect") then
         forall el :: el in node.args[0].elements ==> IsCall(Unwrap(el)) || NamesSomePackage(Unwrap(el), imports)
       else IsListCall(node, "union") || IsCall(Unwrap(node.receiver))
  }

  // Nothing is reported exactly when every expression the walk descends to is an object literal with
  // plain keys, an intersection of imported configurations and calls, a union, or a refinement of a call.
  lemma NothingReportedIff(e: Expr, imports: map<string, string>)
    ensures Visited(e, imports).violations == [] <==>
            forall node :: Descends(e, node) ==> IsSeenThrough(node, imports)
  {
    var violations := Visited(e, imports).violations;
    if violations != [] {
      ReportedIff(e, imports, violations[0]);
      var node :| Descends(e, node) && Blames(node, imports, violations[0]);
      assert !IsSeenThrough(node, imports);
    } else {
      forall node | Descends(e, node) ensures IsSeenThrough(node, imports) {
        SomethingBlamed(node, imports);
        if !IsSeenThrough(node, imports) {
          var v :| Blames(node, imports, v);
          ReportedIff(e, imports, v);
        }
      }
    }
  }

  lemma SomethingBlamed(node: Expr, imports: map<string, string>)
    ensures IsSeenThrough(node, imports) <==> forall v :: !Blames(node, imports, v)
  {
    assert !node.MethodCall? <==> Blames(node, imports, NotWalkable);
    if node.MethodCall? && !IsSeenThrough(node, imports) {
      if IsObjectCall(node) {
        assert Blames(node, imports, NotPlainKey);
      } else if IsListCall(node, "intersect") {
        assert Blames(node, imports, NotPart);
      } else {
        assert Blames(node, imports, NoBase(node.method_));
      }
    }
  }

  ghost predicate ComposesHere(node: Expr, imports: map<string, string>, specifier: string) {
    && IsListCall(node, "intersect")
    && exists el :: el in node.args[0].elements && NamesPackage(Unwrap(el), imports, specifier)
  }

  ghost predicate ComposesSome(e: Expr, imports: map<string, string>, specifier: string) {
    exists node :: Descends(e, node) && ComposesHere(node, imports, specifier)
  }

  // The packages composed are exactly those whose `Config` stands in an intersection that is reached.
  lemma {:induction false} ComposedIff(e: Expr, imports: map<string, string>, specifier: string)
    ensures specifier in Visited(e, imports).composes <==> ComposesSome(e, imports, specifier)
    decreases e
  {
    hide Parts, Variants, RootProps;
    var call := Unwrap(e);
    assert Descends(e, call);
    if !call.MethodCall? {
    } else if IsObjectCall(call) {
      InRootViolations(call.args[0].props, NotWalkable);
    } else if IsListCall(call, "intersect") {
      var elements := call.args[0].elements;
      InPartsReports(elements, imports, NotWalkable, specifier);
      forall el | el in elements && IsCall(Unwrap(el))
        ensures specifier in Part(el, imports).composes <==> ComposesSome(Unwrap(el), imports, specifier)
      {
        ComposedIff(Unwrap(el), imports, specifier);
      }
    } else if IsListCall(call, "union") {
      var elements := call.args[0].elements;
      InVariantsReports(elements, imports, NotWalkable, specifier);
      forall el | el in elements && IsCall(Unwrap(el))
        ensures specifier in Variant(el, imports).composes <==> ComposesSome(Unwrap(el), imports, specifier)
      {
        ComposedIff(Unwrap(el), imports, specifier);
      }
    } else if IsCall(Unwrap(call.receiver)) {
      ComposedIff(Unwrap(call.receiver), imports, specifier);
    }
  }
}
