/** `_prepare_arg` of the namespace and base wrappers: how one field becomes
    the keyword arguments of an `add_argument` call, and the `_type`
    coercion function it may install. */
module ArgSpecs {
  import opened Py
  import opened Annotations
  import opened Introspection
  import opened Resolution

  /** The `nargs` keyword: absent, `'*'` or a fixed count. */
  datatype NArgs = NArgsUnset | NArgsStar | NArgsExactly(n: nat)

  /** The keyword that says how a command-line string becomes a value. */
  datatype Conversion =
    | Toggle(storeFalse: bool)         // action='store_false' / 'store_true'
    | ChoiceList(entries: seq<Entry>)  // choices=[...]
    | TypeFunc(allowed: Allowed)       // type=_type, closing over `allowed`
    | FirstConvertible(types: seq<PyType>) // type=_type of the legacy wrapper
    | PlainStr                         // type=str

  /** The `help` keyword: absent, or set to a docstring or None. */
  datatype HelpField = HelpAbsent | HelpSet(doc: Option<string>)

  /** The positional name or flag and the keyword arguments of one `add_argument` call. */
  datatype ArgSpec = ArgSpec(
    nameOrFlag: string,
    default: Option<Value>,
    dest: Option<string>,
    nargs: NArgs,
    conv: Conversion,
    help: HelpField)

  /** The work queue the walk starts from and the `nargs` an outermost
      `list[...]` / `tuple[...]` sets. */
  function OuterShape(ann: Annotation): (seq<Annotation>, NArgs)
  {
    match ann
    case ListOf(args) => (args, NArgsStar)
    case TupleOf(args) => (args, NArgsExactly(|args|))
    case _ => ([ann], NArgsUnset)
  }

  /** The flag of a field with a class value: `'--' + name.replace('_', '-')`. */
  function FlagName(name: string): string
  {
    "--" + Replace(name, '_', '-')
  }

  /** The name of a positional field: `name.replace('-', '_')`. */
  function PositionalName(name: string): string
  {
    Replace(name, '-', '_')
  }

  /** What `_prepare_arg(name)` returns for a field of `cls`, or the exception it raises. */
  function ArgSpecOf(cls: SchemaClass, name: string): Result<ArgSpec, BuildError>
  {
    var inDict := name in cls.dict;
    var nameOrFlag := if inDict then FlagName(name) else PositionalName(name);
    var default := if inDict then Some(cls.dict[name]) else None;
    var dest := if inDict && nameOrFlag != name then Some(name) else None;
    var (queue, nargs) := OuterShape(cls.AnnotationOf(name));
    match Resolve(queue)
    case Err(e) => Err(e)
    case Ok(res) =>
      if res.boolFound then
        if default.None? then Err(MissingDefault(name))
        else Ok(ArgSpec(nameOrFlag, None, dest, nargs, Toggle(Truthy(default.value)), HelpAbsent))
      else
        var choices := res.allowed.Flattened();
        if !PyIn(AnyValue, choices) then Ok(ArgSpec(nameOrFlag, default, dest, nargs, ChoiceList(choices), HelpAbsent))
        else if |res.allowed.keys| > 0 then Ok(ArgSpec(nameOrFlag, default, dest, nargs, TypeFunc(res.allowed), HelpAbsent))
        else Ok(ArgSpec(nameOrFlag, default, dest, nargs, PlainStr, HelpAbsent))
  }

  /** `NamespaceWrapper._prepare_arg`: fills the keyword arguments step by step. */
  method PrepareArg(cls: SchemaClass, name: string) returns (r: Result<ArgSpec, BuildError>)
    ensures r == ArgSpecOf(cls, name)
  {
    var nameOrFlag: string;
    var default: Option<Value> := None;
    var dest: Option<string> := None;
    if name in cls.dict {
      nameOrFlag := "--" + Replace(name, '_', '-');
      default := Some(cls.dict[name]);
      if nameOrFlag != name {
        dest := Some(name);
      }
    } else {
      nameOrFlag := Replace(name, '-', '_');
    }
    var ann := cls.AnnotationOf(name);
    var stack: seq<Annotation>;
    var nargs := NArgsUnset;
    match ann {
      case ListOf(args) =>
        stack := args;
        nargs := NArgsStar;
      case TupleOf(args) =>
        stack := args;
        nargs := NArgsExactly(|args|);
      case _ =>
        stack := [ann];
    }
    var walked := ResolveQueue(stack);
    if walked.Err? {
      return Err(walked.error);
    }
    var res := walked.value;
    var choices := res.allowed.Flattened();
    if res.boolFound {
      if default.None? {
        return Err(MissingDefault(name));
      }
      r := Ok(ArgSpec(nameOrFlag, None, dest, nargs, Toggle(Truthy(default.value)), HelpAbsent));
    } else if !PyIn(AnyValue, choices) {
      r := Ok(ArgSpec(nameOrFlag, default, dest, nargs, ChoiceList(choices), HelpAbsent));
    } else if |res.allowed.keys| > 0 {
      r := Ok(ArgSpec(nameOrFlag, default, dest, nargs, TypeFunc(res.allowed), HelpAbsent));
    } else {
      r := Ok(ArgSpec(nameOrFlag, default, dest, nargs, PlainStr, HelpAbsent));
    }
  }

  /** `BaseWrapper._prepare_arg`: the same keyword arguments plus
      `help=self._docstrings.get(name, None)`. */
  function BaseArgSpecOf(cls: SchemaClass, docs: map<string, string>, name: string): (r: Result<ArgSpec, BuildError>)
    ensures r.Ok? <==> ArgSpecOf(cls, name).Ok?
    ensures r.Err? ==> r.error == ArgSpecOf(cls, name).error
    ensures r.Ok? ==> r.value.help == HelpSet(if name in docs then Some(docs[name]) else None)
    ensures r.Ok? ==> r.value.(help := HelpAbsent) == ArgSpecOf(cls, name).value
  {
    match ArgSpecOf(cls, name)
    case Err(e) => Err(e)
    case Ok(spec) => Ok(spec.(help := HelpSet(if name in docs then Some(docs[name]) else None)))
  }

  // ---------------------------------------------------------------------
  // Properties of the argument spec

  /** A field with a class value becomes the flag `--name-with-dashes`
      storing into `dest=name`; any other field is positional and keeps its
      identifier (which has no `-`). */
  lemma ArgSpecNaming(cls: SchemaClass, name: string)
    requires ArgSpecOf(cls, name).Ok?
    ensures var spec := ArgSpecOf(cls, name).value;
      && (name in cls.dict ==>
            && spec.nameOrFlag == FlagName(name)
            && spec.dest == Some(name)
            && (spec.conv.Toggle? || spec.default == Some(cls.dict[name])))
      && (name !in cls.dict ==>
            && spec.nameOrFlag == PositionalName(name)
            && spec.default.None?
            && spec.dest.None?)
      && ('-' !in name && name !in cls.dict ==> spec.nameOrFlag == name)
  {
    if name in cls.dict {
      assert |FlagName(name)| == |name| + 2;
    } else if '-' !in name {
      ReplaceAbsent(name, '-', '_');
    }
  }

  /** An outermost `list[...]` gives `nargs='*'`, an outermost `tuple[...]`
      of N arguments `nargs=N`; nothing else sets `nargs`. */
  lemma ArgSpecNArgs(cls: SchemaClass, name: string)
    requires ArgSpecOf(cls, name).Ok?
    ensures var ann := cls.AnnotationOf(name);
      ArgSpecOf(cls, name).value.nargs ==
        if ann.ListOf? then NArgsStar
        else if ann.TupleOf? then NArgsExactly(|ann.args|)
        else NArgsUnset
  {
  }

  /** A resolution that fails makes `_prepare_arg` fail with the same error. */
  lemma ArgSpecUnsupported(cls: SchemaClass, name: string)
    requires Resolve(OuterShape(cls.AnnotationOf(name)).0).Err?
    ensures ArgSpecOf(cls, name) == Err(Resolve(OuterShape(cls.AnnotationOf(name)).0).error)
  {
  }

  /** A `bool` among the leaves makes the field a toggle: `store_false` when
      its class value is truthy, `store_true` otherwise, with no `default`
      left; with no class value the `del kwargs['default']` raises KeyError. */
  lemma ArgSpecToggle(cls: SchemaClass, name: string)
    requires var queue := OuterShape(cls.AnnotationOf(name)).0;
      && (forall x :: x in ForestLeaves(queue) ==> !Rejected(x))
      && TypeRef(BoolType) in ForestLeaves(queue)
    ensures name !in cls.dict ==> ArgSpecOf(cls, name) == Err(MissingDefault(name))
    ensures name in cls.dict ==>
      && ArgSpecOf(cls, name).Ok?
      && ArgSpecOf(cls, name).value.conv == Toggle(Truthy(cls.dict[name]))
      && ArgSpecOf(cls, name).value.default.None?
  {
    ResolveByLeaves(OuterShape(cls.AnnotationOf(name)).0);
  }

  /** The entries of a well-formed `allowed`, flattened, are empty exactly
      when it has no key. */
  lemma {:induction false} FlattenFromEmpty(allowed: Allowed, i: nat)
    requires allowed.Valid() && i <= |allowed.keys|
    ensures |allowed.FlattenFrom(i)| == 0 <==> i == |allowed.keys|
    decreases |allowed.keys| - i
  {
    if i < |allowed.keys| {
      assert allowed.keys[i] in allowed.lists;
      FlattenFromEmpty(allowed, i + 1);
    }
  }

  /** Every visited leaf is unsupported, a `bool`, or recorded under some key. */
  lemma LeafKinds(a: Annotation)
    requires Expand(a).None?
    ensures Rejected(a) || IsBoolLeaf(a) || Recorded(a)
  {
  }

  /** Because the sentinel compares equal to everything, `choices=` is only
      ever installed with an empty list, when the walk met no leaf at all
      (as for `tuple[()]`), and the `type=str` branch is never taken. */
  lemma ArgSpecChoicesOnlyWhenEmpty(cls: SchemaClass, name: string)
    requires ArgSpecOf(cls, name).Ok?
    ensures var conv := ArgSpecOf(cls, name).value.conv;
      && !conv.PlainStr?
      && (conv.ChoiceList? ==>
            conv.entries == [] && BfsLeaves(OuterShape(cls.AnnotationOf(name)).0) == [])
  {
    var queue := OuterShape(cls.AnnotationOf(name)).0;
    var ls := BfsLeaves(queue);
    var res := Resolve(queue).value;
    ResolveValid(queue);
    var choices := res.allowed.Flattened();
    FlattenFromEmpty(res.allowed, 0);
    SentinelMembership(choices, AnyValue);
    if !res.boolFound && res.allowed.keys == [] {
      if ls != [] {
        LeafKinds(ls[0]);
        FirstRejectedIsFirst(ls);
        BoolSeenMembers(ls);
        KeysSeenMembers(ls);
        assert !Rejected(ls[0]) && !IsBoolLeaf(ls[0]);
        assert Seen(ls, KeyOf(ls[0]));
        assert false;
      }
    }
  }

  /** When no `bool` and some class or constant is among the leaves, the
      coercion function is installed over the recorded `allowed`. */
  lemma ArgSpecTypeFunc(cls: SchemaClass, name: string)
    requires var queue := OuterShape(cls.AnnotationOf(name)).0;
      && (forall x :: x in ForestLeaves(queue) ==> !Rejected(x))
      && TypeRef(BoolType) !in ForestLeaves(queue)
      && exists x :: x in ForestLeaves(queue) && Recorded(x)
    ensures ArgSpecOf(cls, name).Ok?
    ensures ArgSpecOf(cls, name).value.conv ==
      TypeFunc(Resolve(OuterShape(cls.AnnotationOf(name)).0).value.allowed)
  {
    var queue := OuterShape(cls.AnnotationOf(name)).0;
    ResolveByLeaves(queue);
    ResolveValid(queue);
    var res := Resolve(queue).value;
    var x :| x in ForestLeaves(queue) && Recorded(x);
    assert KeyOf(x) in res.allowed.keys;
    FlattenFromEmpty(res.allowed, 0);
    SentinelMembership(res.allowed.Flattened(), AnyValue);
  }

  // ---------------------------------------------------------------------
  // The `_type` coercion function

  /** `t(value_string)`: a value, the TypeError/ValueError it raised (which
      `_type` catches), or any other exception it raised (which `_type`
      does not catch, such as `argparse.ArgumentTypeError`). */
  datatype ConvResult = Converted(v: Value) | ConvFailed(message: string) | ConvRaised(exception: string)

  /** What `_type` raises: its own TypeError (the value string, every type
      tried, the errors collected in order), or an exception of a
      converter that it lets through. */
  datatype TypeFuncError =
    | NoMatch(valueString: string, types: seq<PyType>, errors: seq<string>)
    | Propagated(exception: string)

  /** `sentinel not in a or value in a` */
  predicate Accepts(a: seq<Entry>, v: Value)
  {
    !PyIn(AnyValue, a) || PyIn(Lit(v), a)
  }

  /** The list of a key as the DefaultDict gives it. */
  function ListFor(allowed: Allowed, t: PyType): seq<Entry>
  {
    if t in allowed.lists then allowed.lists[t] else []
  }

  /** The `i`-th key converts the string and its list accepts the result. */
  predicate AcceptedAt(allowed: Allowed, s: string, convert: (PyType, string) -> ConvResult, i: nat)
    requires i < |allowed.keys|
  {
    var c := convert(allowed.keys[i], s);
    c.Converted? && Accepts(ListFor(allowed, allowed.keys[i]), c.v)
  }

  /** The `i`-th key's conversion raises an exception `_type` does not catch. */
  predicate RaisedAt(allowed: Allowed, s: string, convert: (PyType, string) -> ConvResult, i: nat)
    requires i < |allowed.keys|
  {
    convert(allowed.keys[i], s).ConvRaised?
  }

  /** The `i`-th key ends `_type`: its value is returned or its exception escapes. */
  predicate DecidesAt(allowed: Allowed, s: string, convert: (PyType, string) -> ConvResult, i: nat)
    requires i < |allowed.keys|
  {
    AcceptedAt(allowed, s, convert, i) || RaisedAt(allowed, s, convert, i)
  }

  /** Some key accepts its conversion before any key's conversion raises
      an exception `_type` does not catch. */
  predicate AcceptedBeforeRaise(allowed: Allowed, s: string, convert: (PyType, string) -> ConvResult)
  {
    exists i ::
      && 0 <= i < |allowed.keys|
      && AcceptedAt(allowed, s, convert, i)
      && forall j :: 0 <= j < i ==> !RaisedAt(allowed, s, convert, j)
  }

  /** The messages of the conversions that raised, in key order. */
  function FailureMessages(types: seq<PyType>, s: string, convert: (PyType, string) -> ConvResult): seq<string>
  {
    if types == [] then []
    else
      var c := convert(Last(types), s);
      FailureMessages(Front(types), s, convert) + (if c.ConvFailed? then [c.message] else [])
  }

  /** `_type(value_string)`: the keys are tried in insertion order; the
      first one whose conversion succeeds and whose list accepts the value
      wins, and the first whose conversion raises anything but
      TypeError/ValueError ends it with that exception; a conversion that
      succeeds but is not accepted records no error. */
  method CoerceValue(allowed: Allowed, s: string, convert: (PyType, string) -> ConvResult)
    returns (r: Result<Value, TypeFuncError>)
    ensures r.Ok? <==> AcceptedBeforeRaise(allowed, s, convert)
    ensures r.Ok? ==>
      exists i :: 0 <= i < |allowed.keys| && AcceptedAt(allowed, s, convert, i) &&
        r.value == convert(allowed.keys[i], s).v &&
        forall j :: 0 <= j < i ==> !DecidesAt(allowed, s, convert, j)
    ensures r.Err? && r.error.Propagated? ==>
      exists i :: 0 <= i < |allowed.keys| && RaisedAt(allowed, s, convert, i) &&
        r.error.exception == convert(allowed.keys[i], s).exception &&
        forall j :: 0 <= j < i ==> !DecidesAt(allowed, s, convert, j)
    ensures (r.Err? && r.error.NoMatch?) <==>
      forall i :: 0 <= i < |allowed.keys| ==> !DecidesAt(allowed, s, convert, i)
    ensures r.Err? && r.error.NoMatch? ==> r.error == NoMatch(s, allowed.keys, FailureMessages(allowed.keys, s, convert))
  {
    var errors: seq<string> := [];
    var i := 0;
    while i < |allowed.keys|
      invariant 0 <= i <= |allowed.keys|
      invariant errors == FailureMessages(allowed.keys[..i], s, convert)
      invariant forall j :: 0 <= j < i ==> !DecidesAt(allowed, s, convert, j)
    {
      var t := allowed.keys[i];
      var a := ListFor(allowed, t);
      assert allowed.keys[..i + 1] == allowed.keys[..i] + [t];
      FrontLastOfSnoc(allowed.keys[..i], t);
      match convert(t, s) {
        case ConvFailed(message) =>
          errors := errors + [message];
        case ConvRaised(exception) =>
          assert DecidesAt(allowed, s, convert, i);
          FirstDecisive(allowed, s, convert, i);
          return Err(Propagated(exception));
        case Converted(value) =>
          if Accepts(a, value) {
            assert DecidesAt(allowed, s, convert, i);
            forall j | 0 <= j < i ensures !RaisedAt(allowed, s, convert, j) {
              assert !DecidesAt(allowed, s, convert, j);
            }
            return Ok(value);
          }
      }
      i := i + 1;
    }
    assert allowed.keys[..i] == allowed.keys;
    forall j | 0 <= j < |allowed.keys| ensures !AcceptedAt(allowed, s, convert, j) {
      assert !DecidesAt(allowed, s, convert, j);
    }
    r := Err(NoMatch(s, allowed.keys, errors));
  }

  /** When key `k` raises and no key before it decides, every key that
      would accept comes after `k`, so none accepts before an uncaught
      exception. */
  lemma FirstDecisive(allowed: Allowed, s: string, convert: (PyType, string) -> ConvResult, k: nat)
    requires k < |allowed.keys| && RaisedAt(allowed, s, convert, k)
    requires forall j :: 0 <= j < k ==> !DecidesAt(allowed, s, convert, j)
    ensures forall i :: 0 <= i < |allowed.keys| && AcceptedAt(allowed, s, convert, i) ==> k < i
    ensures !AcceptedBeforeRaise(allowed, s, convert)
  {
    forall i | 0 <= i < |allowed.keys| && AcceptedAt(allowed, s, convert, i)
      ensures k < i && exists j :: 0 <= j < i && RaisedAt(allowed, s, convert, j)
    {
      assert DecidesAt(allowed, s, convert, i);
      assert k < i;
    }
  }

  /** Under a key whose list holds the marker (the annotation named the
      class itself) every successful conversion is accepted; under a key
      holding only constants, a converted value is accepted exactly when it
      equals one of them in Python's sense. */
  lemma AcceptsByEntries(a: seq<Entry>, v: Value)
    ensures AnyValue in a ==> Accepts(a, v)
    ensures |a| > 0 && AnyValue !in a ==>
      (Accepts(a, v) <==> exists c :: Lit(c) in a && PyEq(c, v))
  {
    SentinelMembership(a, Lit(v));
    if |a| > 0 && AnyValue !in a {
      SentinelMembership(a, AnyValue);
      if Accepts(a, v) {
        var i :| 0 <= i < |a| && EntryEq(a[i], Lit(v));
        assert Lit(a[i].v) in a;
      }
      if exists c :: Lit(c) in a && PyEq(c, v) {
        var c :| Lit(c) in a && PyEq(c, v);
        var i :| 0 <= i < |a| && a[i] == Lit(c);
        assert EntryEq(a[i], Lit(v));
      }
    }
  }

  /** Failed conversions are exactly the ones reported, in key order. */
  lemma {:induction false} FailureMessagesCount(types: seq<PyType>, s: string, convert: (PyType, string) -> ConvResult)
    ensures (forall i :: 0 <= i < |types| ==> convert(types[i], s).Converted?) ==>
      FailureMessages(types, s, convert) == []
    ensures |FailureMessages(types, s, convert)| <= |types|
  {
    if types != [] {
      FrontLast(types);
      var f := Front(types);
      FailureMessagesCount(f, s, convert);
      assert forall i :: 0 <= i < |f| ==> f[i] == types[i];
    }
  }
}
