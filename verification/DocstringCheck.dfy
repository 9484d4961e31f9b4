/**
 The docstring checker's fixpoint over class names and its check of documented parameters,
 starting from the names that the syntax tree and the docstring yield.
 */
module DocstringCheck {
  import opened Wrappers

  // ---------- Model class names

  datatype Expr = Name(id: string) | Attribute(attr: string) | Subscript(value: Expr) | OtherExpr

  /** The last name of a base class expression. */
  function BaseName(e: Expr): Option<string> {
    match e
    case Name(id) => Some(id)
    case Attribute(attr) => Some(attr)
    case Subscript(value) => BaseName(value)
    case OtherExpr => None
  }

  datatype ClassDef = ClassDef(name: string, bases: seq<Expr>)

  const ROOTS: set<string> := {"BaseModel", "BaseSettings"}

  /** Some class called name has a base called base. */
  ghost predicate Inherits(classes: seq<ClassDef>, name: string, base: string) {
    exists c, e :: c in classes && c.name == name && e in c.bases && BaseName(e) == Some(base)
  }

  /** Consecutive names of the path inherit, and the path ends in a root. */
  ghost predicate LeadsToRoot(classes: seq<ClassDef>, path: seq<string>) {
    && path != [] && path[|path| - 1] in ROOTS
    && forall i | 0 <= i < |path| - 1 :: Inherits(classes, path[i], path[i + 1])
  }

  ghost predicate IsModel(classes: seq<ClassDef>, name: string) {
    exists path :: LeadsToRoot(classes, path) && path[0] == name
  }

  lemma DerivedIsModel(classes: seq<ClassDef>, name: string, base: string)
    requires Inherits(classes, name, base) && IsModel(classes, base)
    ensures IsModel(classes, name)
  {
    var path :| LeadsToRoot(classes, path) && path[0] == base;
    var longer := [name] + path;
    assert forall i | 0 < i < |longer| :: longer[i] == path[i - 1];
    assert LeadsToRoot(classes, longer) && longer[0] == name;
  }

  lemma RootIsModel(classes: seq<ClassDef>, name: string)
    requires name in ROOTS
    ensures IsModel(classes, name)
  {
    assert LeadsToRoot(classes, [name]);
  }

  /** The expression is the name, an attribute of that name, or a subscript of such a one. */
  predicate NamedAs(e: Expr, name: string) {
    e == Name(name) || e == Attribute(name) || (e.Subscript? && NamedAs(e.value, name))
  }

  lemma {:induction false} BaseNameExactly(e: Expr, name: string)
    ensures BaseName(e) == Some(name) <==> NamedAs(e, name)
  {
    if e.Subscript? {
      BaseNameExactly(e.value, name);
    }
  }

  /** A class is a model exactly when it is called like one of the two roots, or a class of its name has
      a base whose last name is a model's. */
  lemma ModelsExactly(classes: seq<ClassDef>, name: string)
    ensures IsModel(classes, name) <==>
      || name == "BaseModel" || name == "BaseSettings"
      || exists c, e, base ::
           c in classes && c.name == name && e in c.bases && NamedAs(e, base) && IsModel(classes, base)
  {
    if IsModel(classes, name) {
      var path :| LeadsToRoot(classes, path) && path[0] == name;
      if |path| > 1 {
        var rest := path[1..];
        assert forall i | 0 <= i < |rest| :: rest[i] == path[i + 1];
        assert LeadsToRoot(classes, rest) && rest[0] == path[1];
        assert Inherits(classes, path[0], path[1]);
        var c, e :| c in classes && c.name == name && e in c.bases && BaseName(e) == Some(path[1]);
        BaseNameExactly(e, path[1]);
      }
    }
    if name == "BaseModel" || name == "BaseSettings" {
      RootIsModel(classes, name);
    }
    if c, e, base :| c in classes && c.name == name && e in c.bases && NamedAs(e, base) && IsModel(classes, base) {
      BaseNameExactly(e, base);
      DerivedIsModel(classes, name, base);
    }
  }

  /** None of the first n classes is outside the set with a base inside it. */
  ghost predicate Settled(classes: seq<ClassDef>, names: set<string>, n: nat)
    requires n <= |classes|
  {
    forall k | 0 <= k < n :: classes[k].name in names || !HasBaseIn(classes[k], names)
  }

  ghost predicate ClosedUnder(classes: seq<ClassDef>, names: set<string>) {
    Settled(classes, names, |classes|)
  }

  predicate HasBaseIn(c: ClassDef, names: set<string>) {
    exists i | 0 <= i < |c.bases| :: BaseName(c.bases[i]).Some? && BaseName(c.bases[i]).value in names
  }

  lemma {:induction false} ClosedContainsModels(classes: seq<ClassDef>, names: set<string>, path: seq<string>)
    requires ROOTS <= names && ClosedUnder(classes, names) && LeadsToRoot(classes, path)
    ensures path[0] in names
  {
    if |path| > 1 {
      var rest := path[1..];
      assert forall i | 0 <= i < |rest| :: rest[i] == path[i + 1];
      ClosedContainsModels(classes, names, rest);
      assert Inherits(classes, path[0], path[1]);
      var c, e :| c in classes && c.name == path[0] && e in c.bases && BaseName(e) == Some(path[1]);
      var k :| 0 <= k < |c.bases| && c.bases[k] == e;
      var n :| 0 <= n < |classes| && classes[n] == c;
      assert HasBaseIn(c, names);
    }
  }

  ghost predicate AllModels(classes: seq<ClassDef>, names: set<string>) {
    forall name | name in names :: IsModel(classes, name)
  }

  lemma AddModel(classes: seq<ClassDef>, names: set<string>, c: ClassDef)
    requires AllModels(classes, names) && c in classes && HasBaseIn(c, names)
    ensures AllModels(classes, names + {c.name})
  {
    var k :| 0 <= k < |c.bases| && BaseName(c.bases[k]).Some? && BaseName(c.bases[k]).value in names;
    assert Inherits(classes, c.name, BaseName(c.bases[k]).value);
    DerivedIsModel(classes, c.name, BaseName(c.bases[k]).value);
  }

  lemma SettledNext(classes: seq<ClassDef>, names: set<string>, i: nat)
    requires i < |classes| && Settled(classes, names, i)
    requires classes[i].name in names || !HasBaseIn(classes[i], names)
    ensures Settled(classes, names, i + 1)
  {
  }

  /** Repeated passes over the classes until one adds nothing. The result is the least fixpoint:
      exactly the names from which a finite chain of bases leads to a root. */
  method PydanticModelNames(classes: seq<ClassDef>) returns (names: set<string>)
    ensures forall name :: name in names <==> IsModel(classes, name)
  {
    names := ROOTS;
    var changed := true;
    ghost var all := (set c | c in classes :: c.name) + ROOTS;
    forall name | name in ROOTS ensures IsModel(classes, name) {
      RootIsModel(classes, name);
    }
    while changed
      invariant ROOTS <= names <= all && AllModels(classes, names)
      invariant changed || ClosedUnder(classes, names)
      decreases all - names, changed
    {
      changed := false;
      ghost var before := names;
      for i := 0 to |classes|
        invariant before <= names <= all && AllModels(classes, names)
        invariant changed <==> names != before
        invariant changed || Settled(classes, before, i)
      {
        var c := classes[i];
        var derived := c.name !in names && HasBaseIn(c, names);
        if derived {
          AddModel(classes, names, c);
          names := names + {c.name};
          changed := true;
        }
        if !changed {
          SettledNext(classes, before, i);
        }
      }
    }
    forall name | IsModel(classes, name) ensures name in names {
      var path :| LeadsToRoot(classes, path) && path[0] == name;
      ClosedContainsModels(classes, names, path);
    }
  }

  /** The order and repetition of the classes do not matter. */
  lemma OrderIrrelevant(a: seq<ClassDef>, b: seq<ClassDef>, name: string)
    requires forall c :: c in a <==> c in b
    ensures IsModel(a, name) <==> IsModel(b, name)
  {
    assert forall n, m :: Inherits(a, n, m) <==> Inherits(b, n, m);
    assert forall path :: LeadsToRoot(a, path) <==> LeadsToRoot(b, path);
  }

  // ---------- Documented parameters

  /** A parameter and the text of its annotation. */
  datatype Argument = Argument(name: string, annotation: string)

  /** Positional-only, ordinary and keyword-only parameters in order, then the starred ones. */
  datatype Signature = Signature(named: seq<Argument>, vararg: Option<Argument>, kwarg: Option<Argument>)

  datatype Error =
    | MissingEntry(name: string)
    | WrongType(name: string, documented: string, expected: string)
    | UnknownEntry(name: string)
    | DuplicateEntry(name: string)

  const RECEIVERS := {"self", "cls"}

  function Starred(s: Signature): seq<Argument> {
    (if s.vararg.Some? then [s.vararg.value] else []) + (if s.kwarg.Some? then [s.kwarg.value] else [])
  }

  /** function_parameters: receivers are left out among the named parameters only. */
  predicate IsParameter(s: Signature, name: string) {
    || (name !in RECEIVERS && exists i | 0 <= i < |s.named| :: s.named[i].name == name)
    || exists i | 0 <= i < |Starred(s)| :: Starred(s)[i].name == name
  }

  method FunctionParameters(s: Signature) returns (names: seq<string>)
    ensures forall name :: name in names <==> IsParameter(s, name)
  {
    names := [];
    for i := 0 to |s.named|
      invariant forall name :: name in names <==>
        (name !in RECEIVERS && exists k | 0 <= k < i :: s.named[k].name == name)
    {
      if s.named[i].name !in RECEIVERS {
        names := names + [s.named[i].name];
      }
    }
    ghost var before := names;
    if s.vararg.Some? {
      names := names + [s.vararg.value.name];
    }
    if s.kwarg.Some? {
      names := names + [s.kwarg.value.name];
    }
    forall name
      ensures name in names <==> name in before || exists i | 0 <= i < |Starred(s)| :: Starred(s)[i].name == name
    {
      if s.vararg.Some? && s.vararg.value.name == name {
        assert Starred(s)[0].name == name;
      }
      if s.kwarg.Some? && s.kwarg.value.name == name {
        assert Starred(s)[|Starred(s)| - 1].name == name;
      }
    }
  }

  /** The dictionary of annotated arguments; the last argument of a name wins, receivers are left
      out wherever they stand. */
  function Arguments(all: seq<Argument>): (m: map<string, string>)
    ensures forall name :: name in m <==> name !in RECEIVERS && exists i | 0 <= i < |all| :: all[i].name == name
  {
    if all == [] then map[]
    else
      var last := all[|all| - 1];
      var front := Arguments(all[..|all| - 1]);
      assert forall i | 0 <= i < |all| - 1 :: all[i] == all[..|all| - 1][i];
      if last.name in RECEIVERS then front else front[last.name := last.annotation]
  }

  /** The annotation is that of the last argument of the name. */
  lemma {:induction false} ArgumentsExactly(all: seq<Argument>, name: string) returns (i: nat)
    requires name in Arguments(all)
    ensures i < |all| && all[i] == Argument(name, Arguments(all)[name])
    ensures forall j | i < j < |all| :: all[j].name != name
  {
    var front, last := all[..|all| - 1], all[|all| - 1];
    ArgumentsSnoc(front, last);
    assert all == front + [last];
    if last.name == name {
      i := |all| - 1;
    } else {
      i := ArgumentsExactly(front, name);
    }
  }

  lemma ArgumentsSnoc(front: seq<Argument>, last: Argument)
    ensures Arguments(front + [last]) ==
      if last.name in RECEIVERS then Arguments(front) else Arguments(front)[last.name := last.annotation]
  {
    assert (front + [last])[..|front|] == front;
  }

  /** Without starred ones the parameters are the named arguments other than self and cls. */
  lemma ReceiversLeftOut(named: seq<Argument>, name: string)
    ensures IsParameter(Signature(named, None, None), name) <==>
      name != "self" && name != "cls" && exists i | 0 <= i < |named| :: named[i].name == name
  {
  }

  /** A documented parameter: its name and the type text of the entry. */
  datatype Entry = Entry(name: string, typeText: string)

  predicate Documented(entries: seq<Entry>, name: string) {
    exists i | 0 <= i < |entries| :: entries[i].name == name
  }

  /** Type text of the first entry for the name. */
  function FirstType(entries: seq<Entry>, name: string): (t: string)
    requires Documented(entries, name)
    ensures Entry(name, t) in entries
  {
    if entries[0].name == name then entries[0].typeText else FirstType(entries[1..], name)
  }

  /** That is the entry before which the name does not occur. */
  lemma {:induction false} FirstTypeIsFirst(entries: seq<Entry>, name: string) returns (i: nat)
    requires Documented(entries, name)
    ensures i < |entries| && entries[i] == Entry(name, FirstType(entries, name))
    ensures forall j | 0 <= j < i :: entries[j].name != name
  {
    if entries[0].name == name {
      i := 0;
    } else {
      var rest := entries[1..];
      var k := FirstTypeIsFirst(rest, name);
      i := k + 1;
      assert forall j | 0 < j < i :: entries[j] == rest[j - 1];
    }
  }

  function Annotations(s: Signature): map<string, string> {
    Arguments(s.named + Starred(s))
  }

  lemma ParameterIsAnnotated(s: Signature, name: string)
    ensures name in Annotations(s) ==> IsParameter(s, name)
    ensures IsParameter(s, name) && name !in RECEIVERS ==> name in Annotations(s)
    ensures IsParameter(s, name) && name in RECEIVERS ==> name !in Annotations(s)
  {
    var all := s.named + Starred(s);
    forall i | 0 <= i < |s.named| ensures all[i] == s.named[i] {
    }
    forall i | 0 <= i < |Starred(s)| ensures all[|s.named| + i] == Starred(s)[i] {
    }
  }

  /** A starred parameter is called like a receiver and is documented: the lookup of its annotation
      raises. */
  predicate LookupFails(s: Signature, entries: seq<Entry>) {
    exists i | 0 <= i < |Starred(s)| :: Starred(s)[i].name in RECEIVERS && Documented(entries, Starred(s)[i].name)
  }

  /** A documented *self. */
  lemma StarredSelfFails(annotation: string, typeText: string)
    ensures LookupFails(Signature([], Some(Argument("self", annotation)), None), [Entry("self", typeText)])
  {
    var s := Signature([], Some(Argument("self", annotation)), None);
    assert Starred(s)[0].name == "self" && Documented([Entry("self", typeText)], "self") by {
      assert [Entry("self", typeText)][0].name == "self";
    }
  }

  ghost predicate WrongTypeFor(s: Signature, entries: seq<Entry>, e: Error) {
    && e.WrongType? && IsParameter(s, e.name) && Documented(entries, e.name) && e.name in Annotations(s)
    && e.documented == FirstType(entries, e.name) && e.expected == Annotations(s)[e.name]
    && e.documented != e.expected
  }

  ghost predicate Repeated(entries: seq<Entry>, name: string) {
    exists i, j | 0 <= i < j < |entries| :: entries[i].name == name && entries[j].name == name
  }

  /** What an error of the check means. */
  ghost predicate Justified(s: Signature, entries: seq<Entry>, e: Error) {
    match e
    case MissingEntry(name) => IsParameter(s, name) && !Documented(entries, name)
    case WrongType(_, _, _) => WrongTypeFor(s, entries, e)
    case UnknownEntry(name) => Documented(entries, name) && !IsParameter(s, name)
    case DuplicateEntry(name) => Repeated(entries, name)
  }

  /** The parameter part of check_file. None stands for the KeyError. */
  method CheckParameters(s: Signature, entries: seq<Entry>) returns (errors: Option<seq<Error>>)
    ensures errors.None? <==> LookupFails(s, entries)
    ensures errors.Some? ==> forall e :: e in errors.value <==> Justified(s, entries, e)
  {
    var parameters := FunctionParameters(s);
    var arguments := Annotations(s);
    var found: seq<Error> := [];
    for i := 0 to |parameters|
      invariant forall e :: e in found <==>
        (exists k | 0 <= k < i :: ParameterError(s, entries, parameters[k]) == Some(e))
      invariant forall k | 0 <= k < i :: !(parameters[k] in RECEIVERS && Documented(entries, parameters[k]))
    {
      var parameter := parameters[i];
      assert IsParameter(s, parameter);
      ParameterIsAnnotated(s, parameter);
      if !Documented(entries, parameter) {
        found := found + [MissingEntry(parameter)];
      } else {
        if parameter !in arguments {
          assert LookupFails(s, entries);
          return None;
        }
        if FirstType(entries, parameter) != arguments[parameter] {
          found := found + [WrongType(parameter, FirstType(entries, parameter), arguments[parameter])];
        }
      }
    }
    var unknown := UnknownNames(parameters, entries);
    var duplicates := DuplicateNames(entries);
    errors := Some(found + unknown + duplicates);
    forall e ensures e in found <==> (e.MissingEntry? || e.WrongType?) && Justified(s, entries, e) {
      ParameterErrorsExact(s, entries, parameters, e);
    }
    forall i | 0 <= i < |Starred(s)|
      ensures !(Starred(s)[i].name in RECEIVERS && Documented(entries, Starred(s)[i].name))
    {
      assert Starred(s)[i].name in parameters;
    }
  }

  /** The error that the loop over the parameters reports for one of them. */
  ghost function ParameterError(s: Signature, entries: seq<Entry>, name: string): Option<Error> {
    if !Documented(entries, name) then Some(MissingEntry(name))
    else if name in Annotations(s) && FirstType(entries, name) != Annotations(s)[name] then
      Some(WrongType(name, FirstType(entries, name), Annotations(s)[name]))
    else None
  }

  lemma ParameterErrorsExact(s: Signature, entries: seq<Entry>, parameters: seq<string>, e: Error)
    requires forall name :: name in parameters <==> IsParameter(s, name)
    ensures (exists k | 0 <= k < |parameters| :: ParameterError(s, entries, parameters[k]) == Some(e)) <==>
      (e.MissingEntry? || e.WrongType?) && Justified(s, entries, e)
  {
    if (e.MissingEntry? || e.WrongType?) && Justified(s, entries, e) {
      assert e.name in parameters;
      var k :| 0 <= k < |parameters| && parameters[k] == e.name;
      assert ParameterError(s, entries, parameters[k]) == Some(e);
    }
  }

  method UnknownNames(parameters: seq<string>, entries: seq<Entry>) returns (errors: seq<Error>)
    ensures forall e :: e in errors <==> e.UnknownEntry? && Documented(entries, e.name) && e.name !in parameters
  {
    var names := (set i | 0 <= i < |entries| :: entries[i].name) - (set p | p in parameters);
    errors := [];
    while names != {}
      invariant forall e :: e in errors || (e.UnknownEntry? && e.name in names) <==>
        e.UnknownEntry? && Documented(entries, e.name) && e.name !in parameters
      invariant forall e | e in errors :: e.UnknownEntry? && e.name !in names
    {
      var name :| name in names;
      errors := errors + [UnknownEntry(name)];
      names := names - {name};
    }
  }

  method DuplicateNames(entries: seq<Entry>) returns (errors: seq<Error>)
    ensures forall e :: e in errors <==> e.DuplicateEntry? && Repeated(entries, e.name)
  {
    var seen: set<string> := {};
    errors := [];
    for i := 0 to |entries|
      invariant forall name :: name in seen <==> exists k | 0 <= k < i :: entries[k].name == name
      invariant forall e :: e in errors <==> e.DuplicateEntry? && Repeated(entries[..i], e.name)
    {
      var name := entries[i].name;
      RepeatedSnoc(entries, i);
      if name in seen {
        errors := errors + [DuplicateEntry(name)];
      }
      seen := seen + {name};
    }
    assert entries[..|entries|] == entries;
  }

  lemma RepeatedSnoc(entries: seq<Entry>, n: nat)
    requires n < |entries|
    ensures forall name :: Repeated(entries[..n + 1], name) <==>
      Repeated(entries[..n], name) || (name == entries[n].name && exists k | 0 <= k < n :: entries[k].name == name)
  {
    var p, q := entries[..n], entries[..n + 1];
    forall name ensures Repeated(q, name) <==>
      Repeated(p, name) || (name == entries[n].name && exists k | 0 <= k < n :: entries[k].name == name)
    {
      if Repeated(p, name) {
        var i, j :| 0 <= i < j < n && p[i].name == name && p[j].name == name;
        assert q[i].name == name && q[j].name == name;
      }
      if name == entries[n].name && exists k | 0 <= k < n :: entries[k].name == name {
        var k :| 0 <= k < n && entries[k].name == name;
        assert q[k].name == name && q[n].name == name;
      }
      if Repeated(q, name) {
        var i, j :| 0 <= i < j < n + 1 && q[i].name == name && q[j].name == name;
        if j < n {
          assert p[i].name == name && p[j].name == name;
        } else {
          assert entries[i].name == name;
        }
      }
    }
  }

  /** Documented exactly: no repetition, the same names as the parameters, and every entry with the
      parameter's annotation. */
  ghost predicate ExactlyDocumented(s: Signature, entries: seq<Entry>) {
    && (forall name :: !Repeated(entries, name))
    && (forall name :: Documented(entries, name) <==> IsParameter(s, name))
    && (forall e | e in entries :: e.name in Annotations(s) && e.typeText == Annotations(s)[e.name])
  }

  /** The check reports nothing about a function's parameters exactly when they are documented
      exactly; the KeyError never hides such a function. */
  lemma NoErrorExactlyWhenDocumented(s: Signature, entries: seq<Entry>)
    ensures !LookupFails(s, entries) && (forall e :: !Justified(s, entries, e)) <==> ExactlyDocumented(s, entries)
  {
    if !LookupFails(s, entries) && forall e :: !Justified(s, entries, e) {
      QuietMeansDocumented(s, entries);
    }
    if ExactlyDocumented(s, entries) {
      DocumentedMeansQuiet(s, entries);
    }
  }

  lemma QuietMeansDocumented(s: Signature, entries: seq<Entry>)
    requires !LookupFails(s, entries) && forall e :: !Justified(s, entries, e)
    ensures ExactlyDocumented(s, entries)
  {
    forall name ensures !Repeated(entries, name) {
      assert !Justified(s, entries, DuplicateEntry(name));
    }
    forall name ensures Documented(entries, name) <==> IsParameter(s, name) {
      assert !Justified(s, entries, MissingEntry(name)) && !Justified(s, entries, UnknownEntry(name));
    }
    forall e | e in entries ensures e.name in Annotations(s) && e.typeText == Annotations(s)[e.name] {
      var i :| 0 <= i < |entries| && entries[i] == e;
      assert Documented(entries, e.name);
      ParameterIsAnnotated(s, e.name);
      assert e.name in RECEIVERS ==> LookupFails(s, entries);
      assert !Justified(s, entries, WrongType(e.name, FirstType(entries, e.name), Annotations(s)[e.name]));
      OnlyEntry(entries, i);
    }
  }

  lemma OnlyEntry(entries: seq<Entry>, i: nat)
    requires i < |entries| && !Repeated(entries, entries[i].name)
    ensures Documented(entries, entries[i].name) && FirstType(entries, entries[i].name) == entries[i].typeText
  {
    var name := entries[i].name;
    var k :| 0 <= k < |entries| && entries[k] == Entry(name, FirstType(entries, name));
  }

  lemma DocumentedMeansQuiet(s: Signature, entries: seq<Entry>)
    requires ExactlyDocumented(s, entries)
    ensures !LookupFails(s, entries) && forall e :: !Justified(s, entries, e)
  {
    forall name ensures !(name in RECEIVERS && Documented(entries, name)) {
      if Documented(entries, name) {
        var i :| 0 <= i < |entries| && entries[i].name == name;
        assert entries[i] in entries;
        ParameterIsAnnotated(s, name);
      }
    }
    forall e ensures !WrongTypeFor(s, entries, e) {
      if e.WrongType? && Documented(entries, e.name) {
        assert Entry(e.name, FirstType(entries, e.name)) in entries;
      }
    }
  }
}
