/** The older `NamespaceWrapper.__init__` of `core/__init__.py`: it visits
    the field names as an unordered set and resolves each annotation into
    a `choices` list, a list of types to try, or `str`. */
module LegacyWrapper {
  import opened Py
  import opened Annotations
  import opened Introspection
  import opened Resolution
  import opened ArgSpecs

  /** `_resolve_namespace_options`: a copy of `full` updated with `partial`;
      `full` itself is a value and is not changed. */
  function ResolveOptions(full: map<string, Value>, partial: map<string, Value>): (r: map<string, Value>)
    ensures forall k :: k in r <==> k in full || k in partial
    ensures forall k :: k in partial ==> r[k] == partial[k]
    ensures forall k :: k in full && k !in partial ==> r[k] == full[k]
  {
    full + partial
  }

  /** `(annotations.keys() - dict.keys()) | dict.keys()` */
  function LegacyFieldSet(cls: SchemaClass): set<string>
  {
    ((set k | k in cls.annotationKeys) - (set k | k in cls.dictKeys)) + (set k | k in cls.dictKeys)
  }

  /** The legacy wrapper visits the same names as `_get_attrnames` lists,
      dunder names aside, only as a set. */
  lemma LegacyFieldsAreAttrNames(cls: SchemaClass)
    ensures forall k :: k in LegacyFieldSet(cls) && !IsDunder(k) <==> k in Fields(cls)
  {
  }

  /** Every class among the leaves, `bool` included, in visiting order. */
  function LegacyTypes(ls: seq<Annotation>): seq<PyType>
  {
    if ls == [] then []
    else LegacyTypes(Front(ls)) + (if Last(ls).TypeRef? then [Last(ls).t] else [])
  }

  /** Every str/int constant among the leaves (`True`/`False` included,
      since bool is a subclass of int), in visiting order. */
  function LegacyChoices(ls: seq<Annotation>): seq<Entry>
  {
    if ls == [] then []
    else
      var a := Last(ls);
      LegacyChoices(Front(ls)) + (if a.Const? && IsLiteralValue(a.c) then [Lit(a.c)] else [])
  }

  /** What the legacy walk over `queue` produces: `types` and `choises`. */
  function LegacyResolve(queue: seq<Annotation>): Result<(seq<PyType>, seq<Entry>), BuildError>
  {
    var ls := BfsLeaves(queue);
    match FirstRejected(ls)
    case Some(a) => Err(UnsupportedAnnotation(a))
    case None => Ok((LegacyTypes(ls), LegacyChoices(ls)))
  }

  /** The legacy `while stack: current = stack.pop(0)` loop. */
  method LegacyWalk(queue: seq<Annotation>) returns (r: Result<(seq<PyType>, seq<Entry>), BuildError>)
    ensures r == LegacyResolve(queue)
  {
    var stack := queue;
    var types: seq<PyType> := [];
    var choises: seq<Entry> := [];
    ghost var done: seq<Annotation> := [];
    while stack != []
      invariant BfsLeaves(queue) == done + BfsLeaves(stack)
      invariant FirstRejected(done) == None
      invariant types == LegacyTypes(done)
      invariant choises == LegacyChoices(done)
      decreases SumSizes(stack)
    {
      var current := stack[0];
      if Expand(current).Some? {
        WalkExpand(queue, done, stack);
      } else {
        WalkLeaf(queue, done, stack);
      }
      stack := stack[1..];
      match current {
        case Union(args) =>
          stack := stack + args;
        case Literal(args) =>
          stack := stack + args;
        case ListOf(_) =>
          stack := stack + [TypeRef(ListType)];
        case TupleOf(_) =>
          stack := stack + [TypeRef(TupleType)];
        case OtherGeneric(origin, _) =>
          stack := stack + [TypeRef(origin)];
        case TypeRef(t) =>
          FrontLastOfSnoc(done, current);
          types := types + [t];
          done := done + [current];
        case Const(c) =>
          FrontLastOfSnoc(done, current);
          if !IsLiteralValue(c) {
            WalkRejects(queue, done, current, stack);
            return Err(UnsupportedAnnotation(current));
          }
          choises := choises + [Lit(c)];
          done := done + [current];
        case Unsupported =>
          WalkRejects(queue, done, current, stack);
          return Err(UnsupportedAnnotation(current));
      }
    }
    assert done == BfsLeaves(queue);
    r := Ok((types, choises));
  }

  /** The `add_argument` call the legacy constructor makes for one field. */
  function LegacyArgSpecOf(cls: SchemaClass, name: string): Result<ArgSpec, BuildError>
  {
    var inDict := name in cls.dict;
    var nameOrFlag := if inDict then FlagName(name) else Replace(name, '_', '-');
    var default := if inDict then Some(cls.dict[name]) else None;
    var dest := if inDict then Some(name) else None;
    var (queue, nargs) := OuterShape(cls.AnnotationOf(name));
    match LegacyResolve(queue)
    case Err(e) => Err(e)
    case Ok((types, choises)) =>
      var conv :=
        if |choises| > 0 then ChoiceList(choises)
        else if |types| > 0 then FirstConvertible(types)
        else PlainStr;
      Ok(ArgSpec(nameOrFlag, default, dest, nargs, conv, HelpAbsent))
  }

  /** One field of the legacy constructor's loop body. */
  method LegacyPrepare(cls: SchemaClass, name: string) returns (r: Result<ArgSpec, BuildError>)
    ensures r == LegacyArgSpecOf(cls, name)
  {
    var nameOrFlag: string;
    var default: Option<Value> := None;
    var dest: Option<string> := None;
    if name in cls.dict {
      nameOrFlag := "--" + Replace(name, '_', '-');
      default := Some(cls.dict[name]);
      dest := Some(name);
    } else {
      nameOrFlag := Replace(name, '_', '-');
    }
    var ann := cls.AnnotationOf(name);
    var stack: seq<Annotation>;
    var nargs := NArgsUnset;
    match ann {
      case ListOf(args) =>
        stack := args;
        nargs := NArgsStar;
      case TupleOf(args) =>
        stack := args;
        nargs := NArgsExactly(|args|);
      case _ =>
        stack := [ann];
    }
    var walked := LegacyWalk(stack);
    if walked.Err? {
      return Err(walked.error);
    }
    var (types, choises) := walked.value;
    var conv: Conversion;
    if |choises| > 0 {
      conv := ChoiceList(choises);
    } else if |types| > 0 {
      conv := FirstConvertible(types);
    } else {
      conv := PlainStr;
    }
    r := Ok(ArgSpec(nameOrFlag, default, dest, nargs, conv, HelpAbsent));
  }

  /** Some recorded call is for field `k`. */
  predicate Listed(calls: seq<(string, ArgSpec)>, k: string)
  {
    exists i :: 0 <= i < |calls| && calls[i].0 == k
  }

  lemma ListedSnoc(calls: seq<(string, ArgSpec)>, x: (string, ArgSpec), k: string)
    ensures Listed(calls + [x], k) <==> Listed(calls, k) || x.0 == k
  {
    var l := calls + [x];
    if Listed(calls, k) {
      var i :| 0 <= i < |calls| && calls[i].0 == k;
      assert l[i] == calls[i];
    }
    if x.0 == k {
      assert l[|calls|] == x;
    }
    if Listed(l, k) {
      var i :| 0 <= i < |l| && l[i].0 == k;
      if i < |calls| { assert l[i] == calls[i]; }
    }
  }

  /** What the legacy constructor's loop keeps: every field not yet visited
      is in `remaining`, every call is for a distinct non-dunder field
      already visited, with that field's argument spec. */
  predicate LegacyProgress(cls: SchemaClass, remaining: set<string>, calls: seq<(string, ArgSpec)>)
  {
    && remaining <= LegacyFieldSet(cls)
    && (forall k :: k in LegacyFieldSet(cls) && !IsDunder(k) ==> k in remaining || Listed(calls, k))
    && (forall i :: 0 <= i < |calls| ==>
          calls[i].0 in LegacyFieldSet(cls) && !IsDunder(calls[i].0) && calls[i].0 !in remaining)
    && (forall i, j :: 0 <= i < j < |calls| ==> calls[i].0 != calls[j].0)
    && (forall i :: 0 <= i < |calls| ==> Ok(calls[i].1) == LegacyArgSpecOf(cls, calls[i].0))
  }

  /** Visiting a dunder name adds no call. */
  lemma LegacySkip(cls: SchemaClass, remaining: set<string>, calls: seq<(string, ArgSpec)>, name: string)
    requires LegacyProgress(cls, remaining, calls) && name in remaining && IsDunder(name)
    ensures LegacyProgress(cls, remaining - {name}, calls)
  {
  }

  /** Visiting a field adds its call. */
  lemma LegacyAdd(cls: SchemaClass, remaining: set<string>, calls: seq<(string, ArgSpec)>, name: string, spec: ArgSpec)
    requires LegacyProgress(cls, remaining, calls) && name in remaining && !IsDunder(name)
    requires LegacyArgSpecOf(cls, name) == Ok(spec)
    ensures LegacyProgress(cls, remaining - {name}, calls + [(name, spec)])
  {
    forall k ensures Listed(calls + [(name, spec)], k) <==> Listed(calls, k) || name == k {
      ListedSnoc(calls, (name, spec), k);
    }
  }

  /** With nothing left to visit, the calls are exactly the non-dunder fields. */
  lemma LegacyDone(cls: SchemaClass, calls: seq<(string, ArgSpec)>)
    requires LegacyProgress(cls, {}, calls)
    ensures forall k :: k in LegacyFieldSet(cls) && !IsDunder(k) <==> Listed(calls, k)
  {
    forall k | Listed(calls, k) ensures k in LegacyFieldSet(cls) && !IsDunder(k) {
      var i :| 0 <= i < |calls| && calls[i].0 == k;
    }
  }

  /** The legacy constructor: one `add_argument` on the parser per
      non-dunder field name, visited in whatever order the set yields them.
      The calls are made inside the loop, so when a field's annotation is
      unsupported the calls for the fields visited before it stay on the
      parser: `calls` is what the parser received and `err` what was raised.
      Every call is for a distinct non-dunder field, with that field's
      argument spec; without error every such field has its call, and an
      error is that of a field that got none. */
  method LegacyNamespace(cls: SchemaClass) returns (calls: seq<(string, ArgSpec)>, err: Option<BuildError>)
    ensures forall i :: 0 <= i < |calls| ==> calls[i].0 in LegacyFieldSet(cls) && !IsDunder(calls[i].0)
    ensures forall i, j :: 0 <= i < j < |calls| ==> calls[i].0 != calls[j].0
    ensures forall i :: 0 <= i < |calls| ==> Ok(calls[i].1) == LegacyArgSpecOf(cls, calls[i].0)
    ensures err.None? ==> forall k :: k in LegacyFieldSet(cls) && !IsDunder(k) <==> Listed(calls, k)
    ensures err.Some? ==>
      exists k :: k in LegacyFieldSet(cls) && !IsDunder(k) && !Listed(calls, k) && LegacyArgSpecOf(cls, k) == Err(err.value)
  {
    var remaining := LegacyFieldSet(cls);
    calls := [];
    while remaining != {}
      invariant LegacyProgress(cls, remaining, calls)
      decreases remaining
    {
      var name :| name in remaining;
      if IsDunder(name) {
        LegacySkip(cls, remaining, calls, name);
        remaining := remaining - {name};
        continue;
      }
      var spec := LegacyPrepare(cls, name);
      if spec.Err? {
        LegacyNotListed(cls, remaining, calls, name);
        return calls, Some(spec.error);
      }
      LegacyAdd(cls, remaining, calls, name, spec.value);
      remaining := remaining - {name};
      calls := calls + [(name, spec.value)];
    }
    LegacyDone(cls, calls);
    err := None;
  }

  /** A field still to visit has no call yet. */
  lemma LegacyNotListed(cls: SchemaClass, remaining: set<string>, calls: seq<(string, ArgSpec)>, name: string)
    requires LegacyProgress(cls, remaining, calls) && name in remaining
    ensures !Listed(calls, name)
  {
  }

  /** The legacy `_type`: the types are tried in visiting order; the first
      whose conversion does not raise wins, and the first whose conversion
      raises anything but ValueError/TypeError ends it with that exception;
      if all raise ValueError/TypeError, TypeError lists every type and
      every error. */
  method ConvertFirst(types: seq<PyType>, s: string, convert: (PyType, string) -> ConvResult)
    returns (r: Result<Value, TypeFuncError>)
    ensures r.Ok? <==> ConvertedBeforeRaise(types, s, convert)
    ensures r.Ok? ==>
      exists i ::
        && 0 <= i < |types|
        && convert(types[i], s).Converted?
        && r.value == convert(types[i], s).v
        && forall j :: 0 <= j < i ==> convert(types[j], s).ConvFailed?
    ensures r.Err? && r.error.Propagated? ==>
      exists i ::
        && 0 <= i < |types|
        && convert(types[i], s).ConvRaised?
        && r.error.exception == convert(types[i], s).exception
        && forall j :: 0 <= j < i ==> convert(types[j], s).ConvFailed?
    ensures (r.Err? && r.error.NoMatch?) <==> forall i :: 0 <= i < |types| ==> convert(types[i], s).ConvFailed?
    ensures r.Err? && r.error.NoMatch? ==> r.error == NoMatch(s, types, FailureMessages(types, s, convert))
    ensures r.Err? && r.error.NoMatch? ==> |r.error.errors| == |types|
  {
    var errors: seq<string> := [];
    var i := 0;
    while i < |types|
      invariant 0 <= i <= |types|
      invariant errors == FailureMessages(types[..i], s, convert)
      invariant |errors| == i
      invariant forall j :: 0 <= j < i ==> convert(types[j], s).ConvFailed?
    {
      var t := types[i];
      assert types[..i + 1] == types[..i] + [t];
      FrontLastOfSnoc(types[..i], t);
      match convert(t, s) {
        case Converted(value) =>
          return Ok(value);
        case ConvRaised(exception) =>
          FirstRaised(types, s, convert, i);
          return Err(Propagated(exception));
        case ConvFailed(message) =>
          errors := errors + [message];
      }
      i := i + 1;
    }
    assert types[..i] == types;
    r := Err(NoMatch(s, types, errors));
  }

  /** Some type converts before any conversion raises an exception the
      legacy `_type` does not catch. */
  predicate ConvertedBeforeRaise(types: seq<PyType>, s: string, convert: (PyType, string) -> ConvResult)
  {
    exists i ::
      && 0 <= i < |types|
      && convert(types[i], s).Converted?
      && forall j :: 0 <= j < i ==> convert(types[j], s).ConvFailed?
  }

  lemma FirstRaised(types: seq<PyType>, s: string, convert: (PyType, string) -> ConvResult, k: nat)
    requires k < |types| && convert(types[k], s).ConvRaised?
    requires forall j :: 0 <= j < k ==> convert(types[j], s).ConvFailed?
    ensures !ConvertedBeforeRaise(types, s, convert)
  {
    forall i | 0 <= i < |types| && convert(types[i], s).Converted?
      ensures exists j :: 0 <= j < i && !convert(types[j], s).ConvFailed?
    {
      assert k < i;
    }
  }

  // ---------------------------------------------------------------------
  // Properties

  /** A field with a class value always gets `dest=name`; any other field is
      positional under `name.replace('_', '-')`; the legacy wrapper never
      builds a toggle. */
  lemma LegacyNaming(cls: SchemaClass, name: string)
    requires LegacyArgSpecOf(cls, name).Ok?
    ensures var spec := LegacyArgSpecOf(cls, name).value;
      && (name in cls.dict ==>
            spec.nameOrFlag == FlagName(name) && spec.dest == Some(name) && spec.default == Some(cls.dict[name]))
      && (name !in cls.dict ==>
            spec.nameOrFlag == Replace(name, '_', '-') && spec.default.None? && spec.dest.None?)
      && !spec.conv.Toggle?
  {
  }

  lemma {:induction false} LegacyChoicesMembers(ls: seq<Annotation>)
    ensures forall e :: e in LegacyChoices(ls) <==>
      exists c :: e == Lit(c) && Const(c) in ls && IsLiteralValue(c)
  {
    if ls != [] {
      FrontLast(ls);
      LegacyChoicesMembers(Front(ls));
    }
  }

  lemma {:induction false} LegacyTypesMembers(ls: seq<Annotation>)
    ensures forall t :: t in LegacyTypes(ls) <==> TypeRef(t) in ls
  {
    if ls != [] {
      FrontLast(ls);
      LegacyTypesMembers(Front(ls));
    }
  }

  /** A constant among the leaves makes the argument a `choices` list of all
      the constants, and the classes among the leaves are then ignored. */
  lemma LegacyChoicesWin(cls: SchemaClass, name: string)
    requires LegacyArgSpecOf(cls, name).Ok?
    requires exists c :: Const(c) in BfsLeaves(OuterShape(cls.AnnotationOf(name)).0) && IsLiteralValue(c)
    ensures LegacyArgSpecOf(cls, name).value.conv ==
      ChoiceList(LegacyChoices(BfsLeaves(OuterShape(cls.AnnotationOf(name)).0)))
  {
    var ls := BfsLeaves(OuterShape(cls.AnnotationOf(name)).0);
    LegacyChoicesMembers(ls);
    var c :| Const(c) in ls && IsLiteralValue(c);
    assert Lit(c) in LegacyChoices(ls);
  }

  /** With no constant among the leaves, the argument tries the classes
      among the leaves in visiting order. */
  lemma LegacyTypesWhenNoChoices(cls: SchemaClass, name: string)
    requires LegacyArgSpecOf(cls, name).Ok?
    requires var ls := BfsLeaves(OuterShape(cls.AnnotationOf(name)).0);
      (forall c :: Const(c) !in ls) && exists t :: TypeRef(t) in ls
    ensures LegacyArgSpecOf(cls, name).value.conv ==
      FirstConvertible(LegacyTypes(BfsLeaves(OuterShape(cls.AnnotationOf(name)).0)))
  {
    var ls := BfsLeaves(OuterShape(cls.AnnotationOf(name)).0);
    LegacyTypesMembers(ls);
    NoConstNoChoices(ls);
    var t :| TypeRef(t) in ls;
    assert t in LegacyTypes(ls);
  }

  lemma {:induction false} NoConstNoChoices(ls: seq<Annotation>)
    requires forall c :: Const(c) !in ls
    ensures LegacyChoices(ls) == []
  {
    if ls != [] {
      FrontLast(ls);
      assert Last(ls) in ls;
      NoConstNoChoices(Front(ls));
    }
  }

  /** A bare `bool` annotation becomes a conversion by `bool`, not a toggle. */
  lemma LegacyBoolIsConverted(cls: SchemaClass, name: string)
    requires cls.AnnotationOf(name) == TypeRef(BoolType)
    ensures LegacyArgSpecOf(cls, name).Ok?
    ensures LegacyArgSpecOf(cls, name).value.conv == FirstConvertible([BoolType])
  {
    var q := [TypeRef(BoolType)];
    assert BfsLeaves(q) == q by {
      assert q[1..] == [];
    }
    FrontLastOfSnoc([], TypeRef(BoolType));
    assert [] + [TypeRef(BoolType)] == q;
  }
}
