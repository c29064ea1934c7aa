/** `BaseWrapper` (core/base_wrapper.py): the generic wrapper over an
    argparse container. Its register loop hands every field that is an
    instance of a registered wrapper type to that type's
    `_prepare_subwrapper`, and (through a `for`/`else` without `break`)
    also prepares an argument for EVERY field; afterwards it calls
    `add_wrapper_to_subwrappers` on the recorded instances and then
    `add_argument` on the container. */
module BaseWrapperModel {
  import opened Py
  import opened Introspection
  import opened Resolution
  import opened ArgSpecs
  import opened NamespaceTree
  import opened VariableDocstring

  /** A call a base wrapper makes: on its own container, or
      `inst.add_wrapper_to_subwrappers(self, *args)` on a sub-wrapper. */
  datatype OutCall =
    | ContainerCall(call: ParserCall)
    | SubwrapperCall(target: Value, args: seq<string>)

  /** One entry of a per-type list in `add_wrapper_args`. */
  datatype Rec = Rec(inst: Value, args: seq<string>)

  /** What the register loop takes from outside the base class: the
      registered wrapper types in the order the shared set iterates them,
      what reading a class attribute yields (the attribute itself, or what
      a descriptor's `__get__(None, cls)` returns or raises), the
      registered types a value is an instance of, and the subclasses'
      `_prepare_subwrapper` and `add_wrapper_to_subwrappers`. */
  datatype Hooks = Hooks(
    wrapperTypes: seq<string>,
    classGet: Value -> Result<Value, BuildError>,
    kindsOf: Value -> set<string>,
    prepare: (string, string, Value) -> Result<seq<string>, BuildError>,
    addToSubwrappers: (Value, seq<string>) -> Option<BuildError>)

  /** The hooks when no subclass overrides anything, `classOf` giving the
      class name of a wrapper value: reading a wrapper-valued class
      attribute runs the base `__get__`, which raises NotImplementedError
      naming the wrapper's class; `_prepare_subwrapper`, called with the
      registering wrapper as `self`, raises naming the registering class;
      `inst.add_wrapper_to_subwrappers` raises naming the sub-wrapper's
      class. */
  function BaseHooks(className: string, wrapperTypes: seq<string>, kindsOf: Value -> set<string>, classOf: Value -> string): Hooks
  {
    Hooks(wrapperTypes,
      (v: Value) => if v.VWrapper? then Err(NotImplemented(classOf(v), "__get__")) else Ok(v),
      kindsOf,
      (w: string, f: string, inst: Value) => Err(NotImplemented(className, "_prepare_subwrapper")),
      (inst: Value, args: seq<string>) => Some(NotImplemented(classOf(inst), "add_wrapper_to_subwrappers")))
  }

  /** `getattr(ns_type, name, None)`: the class attribute as read through
      `hooks.classGet`, or None when the class has no such attribute (the
      default only replaces AttributeError; any other error escapes). */
  function FieldValue(cls: SchemaClass, hooks: Hooks, f: string): Result<Value, BuildError>
  {
    if f in cls.dict then hooks.classGet(cls.dict[f]) else Ok(VNone)
  }

  function Empties(n: nat): (r: seq<seq<Rec>>)
    ensures |r| == n && forall j :: 0 <= j < n ==> r[j] == []
  {
    seq(n, _ => [])
  }

  /** The inner loop over the registered types, for field `f` holding
      `inst`, after the first `k` types. */
  function AddRecords(hooks: Hooks, f: string, inst: Value, recs: seq<seq<Rec>>, k: nat): (r: Result<seq<seq<Rec>>, BuildError>)
    requires k <= |hooks.wrapperTypes| == |recs|
    ensures r.Ok? ==> |r.value| == |recs|
  {
    if k == 0 then Ok(recs)
    else
      var prev := AddRecords(hooks, f, inst, recs, k - 1);
      var w := hooks.wrapperTypes[k - 1];
      if prev.Err? || w !in hooks.kindsOf(inst) then prev
      else match hooks.prepare(w, f, inst)
        case Err(e) => Err(e)
        case Ok(args) => Ok(prev.value[k - 1 := prev.value[k - 1] + [Rec(inst, args)]])
  }

  /** The first loop of `_register_namespace` over the fields `fs`: the
      per-type records and the argument specs, or the first error. */
  function Collect(cls: SchemaClass, docs: map<string, string>, hooks: Hooks, fs: seq<string>)
    : (r: Result<(seq<seq<Rec>>, seq<ArgSpec>), BuildError>)
    ensures r.Ok? ==> |r.value.0| == |hooks.wrapperTypes|
  {
    if fs == [] then Ok((Empties(|hooks.wrapperTypes|), []))
    else
      var prev := Collect(cls, docs, hooks, Front(fs));
      var f := Last(fs);
      if prev.Err? || IsDunder(f) then prev
      else match FieldValue(cls, hooks, f)
        case Err(e) => Err(e)
        case Ok(inst) =>
          match AddRecords(hooks, f, inst, prev.value.0, |hooks.wrapperTypes|)
          case Err(e) => Err(e)
          case Ok(recs) =>
            match BaseArgSpecOf(cls, docs, f)
            case Err(e) => Err(e)
            case Ok(spec) => Ok((recs, prev.value.1 + [spec]))
  }

  /** The per-type lists one after the other, as the second loop visits them. */
  function Flatten<T>(recs: seq<seq<T>>): seq<T>
  {
    if recs == [] then [] else Flatten(Front(recs)) + Last(recs)
  }

  /** The `add_wrapper_to_subwrappers` calls made for `pending`, and the
      error of the call that raised, if one did (nothing after it runs). */
  function SubCalls(add: (Value, seq<string>) -> Option<BuildError>, pending: seq<Rec>): (seq<OutCall>, Option<BuildError>)
  {
    if pending == [] then ([], None)
    else
      var prev := SubCalls(add, Front(pending));
      var p := Last(pending);
      if prev.1.Some? then prev
      else (prev.0 + [SubwrapperCall(p.inst, p.args)], add(p.inst, p.args))
  }

  function ArgumentCalls(specs: seq<ArgSpec>): seq<OutCall>
  {
    if specs == [] then [] else ArgumentCalls(Front(specs)) + [ContainerCall(AddArgument(Last(specs)))]
  }

  /** The calls the second and third loops make from what the first loop
      collected, and the error they raise, if any: the sub-wrapper calls,
      stopping at the first failure; then the arguments. */
  function Emitted(hooks: Hooks, collected: (seq<seq<Rec>>, seq<ArgSpec>)): (seq<OutCall>, Option<BuildError>)
  {
    var sub := SubCalls(hooks.addToSubwrappers, Flatten(collected.0));
    if sub.1.Some? then sub else (sub.0 + ArgumentCalls(collected.1), None)
  }

  /** The calls `_register_namespace` makes and the error it raises, if
      any: the first loop's error comes before any call. */
  function Registration(cls: SchemaClass, docs: map<string, string>, hooks: Hooks, fs: seq<string>)
    : (seq<OutCall>, Option<BuildError>)
  {
    match Collect(cls, docs, hooks, fs)
    case Err(e) => ([], Some(e))
    case Ok(c) => Emitted(hooks, c)
  }

  lemma {:induction false} AddRecordsErrSticks(hooks: Hooks, f: string, inst: Value, recs: seq<seq<Rec>>, k: nat, m: nat)
    requires k <= m <= |hooks.wrapperTypes| == |recs|
    requires AddRecords(hooks, f, inst, recs, k).Err?
    ensures AddRecords(hooks, f, inst, recs, m) == AddRecords(hooks, f, inst, recs, k)
    decreases m - k
  {
    if k < m {
      AddRecordsErrSticks(hooks, f, inst, recs, k, m - 1);
    }
  }

  lemma {:induction false} CollectErrSticks(cls: SchemaClass, docs: map<string, string>, hooks: Hooks, fs: seq<string>, rest: seq<string>)
    requires Collect(cls, docs, hooks, fs).Err?
    ensures Collect(cls, docs, hooks, fs + rest) == Collect(cls, docs, hooks, fs)
    decreases |rest|
  {
    if rest == [] {
      assert fs + rest == fs;
    } else {
      CollectErrSticks(cls, docs, hooks, fs, Front(rest));
      FrontLast(rest);
      assert fs + rest == (fs + Front(rest)) + [Last(rest)];
      FrontLastOfSnoc(fs + Front(rest), Last(rest));
    }
  }

  /** The first loop's step for field `i`, after the fields before it. */
  lemma CollectStep(cls: SchemaClass, docs: map<string, string>, hooks: Hooks, fields: seq<string>, i: nat)
    requires i < |fields|
    ensures var prev := Collect(cls, docs, hooks, fields[..i]);
      var f := fields[i];
      Collect(cls, docs, hooks, fields[..i + 1]) ==
        if prev.Err? || IsDunder(f) then prev
        else match FieldValue(cls, hooks, f)
          case Err(e) => Err(e)
          case Ok(inst) =>
            match AddRecords(hooks, f, inst, prev.value.0, |hooks.wrapperTypes|)
            case Err(e) => Err(e)
            case Ok(recs) =>
              match BaseArgSpecOf(cls, docs, f)
              case Err(e) => Err(e)
              case Ok(spec) => Ok((recs, prev.value.1 + [spec]))
  {
    TakeSnoc(fields, i);
    FrontLastOfSnoc(fields[..i], fields[i]);
  }

  /** An error among the first `k` fields is the first loop's outcome. */
  lemma CollectStopsAt(cls: SchemaClass, docs: map<string, string>, hooks: Hooks, fields: seq<string>, k: nat)
    requires k <= |fields|
    requires Collect(cls, docs, hooks, fields[..k]).Err?
    ensures Collect(cls, docs, hooks, fields) == Collect(cls, docs, hooks, fields[..k])
  {
    CollectErrSticks(cls, docs, hooks, fields[..k], fields[k..]);
    assert fields[..k] + fields[k..] == fields;
  }

  lemma {:induction false} SubCallsErrSticks(add: (Value, seq<string>) -> Option<BuildError>, pending: seq<Rec>, rest: seq<Rec>)
    requires SubCalls(add, pending).1.Some?
    ensures SubCalls(add, pending + rest) == SubCalls(add, pending)
    decreases |rest|
  {
    if rest == [] {
      assert pending + rest == pending;
    } else {
      SubCallsErrSticks(add, pending, Front(rest));
      FrontLast(rest);
      assert pending + rest == (pending + Front(rest)) + [Last(rest)];
      FrontLastOfSnoc(pending + Front(rest), Last(rest));
    }
  }

  /** One more record of a row: its call is logged and its error is the
      outcome. */
  lemma SubCallsStep(add: (Value, seq<string>) -> Option<BuildError>, pending: seq<Rec>, row: seq<Rec>, k: nat)
    requires k < |row|
    requires SubCalls(add, pending + row[..k]).1.None?
    ensures SubCalls(add, pending + row[..k + 1]) ==
      (SubCalls(add, pending + row[..k]).0 + [SubwrapperCall(row[k].inst, row[k].args)], add(row[k].inst, row[k].args))
  {
    AppendTakeSnoc(pending, row, k);
    FrontLastOfSnoc(pending + row[..k], row[k]);
  }

  /** A failure inside a row ends the calls for the whole row. */
  lemma SubCallsStopsInRow(add: (Value, seq<string>) -> Option<BuildError>, pending: seq<Rec>, row: seq<Rec>, k: nat)
    requires k <= |row|
    requires SubCalls(add, pending + row[..k]).1.Some?
    ensures SubCalls(add, pending + row) == SubCalls(add, pending + row[..k])
  {
    SubCallsErrSticks(add, pending + row[..k], row[k..]);
    AppendTakeDrop(pending, row, k);
  }

  lemma {:induction false} FlattenAppend<T>(a: seq<seq<T>>, b: seq<seq<T>>)
    ensures Flatten(a + b) == Flatten(a) + Flatten(b)
    decreases |b|
  {
    if b == [] {
      assert a + b == a;
    } else {
      FlattenAppend(a, Front(b));
      FrontLast(b);
      assert a + b == (a + Front(b)) + [Last(b)];
      FrontLastOfSnoc(a + Front(b), Last(b));
    }
  }

  lemma FlattenSnoc<T>(recs: seq<seq<T>>, row: seq<T>)
    ensures Flatten(recs + [row]) == Flatten(recs) + row
  {
    FrontLastOfSnoc(recs, row);
  }

  lemma FlattenRow<T>(recs: seq<seq<T>>, j: nat)
    requires j < |recs|
    ensures Flatten(recs[..j + 1]) == Flatten(recs[..j]) + recs[j]
    ensures Flatten(recs) == Flatten(recs[..j + 1]) + Flatten(recs[j + 1..])
  {
    TakeSnoc(recs, j);
    FlattenSnoc(recs[..j], recs[j]);
    assert recs == recs[..j + 1] + recs[j + 1..];
    FlattenAppend(recs[..j + 1], recs[j + 1..]);
  }

  /** The inner loop of the first phase for one field. */
  method RecordSubwrapper(hooks: Hooks, f: string, inst: Value, recs: seq<seq<Rec>>) returns (r: Result<seq<seq<Rec>>, BuildError>)
    requires |recs| == |hooks.wrapperTypes|
    ensures r == AddRecords(hooks, f, inst, recs, |hooks.wrapperTypes|)
  {
    var cur := recs;
    var j := 0;
    while j < |hooks.wrapperTypes|
      invariant 0 <= j <= |hooks.wrapperTypes|
      invariant AddRecords(hooks, f, inst, recs, j) == Ok(cur)
    {
      var w := hooks.wrapperTypes[j];
      if w in hooks.kindsOf(inst) {
        var args := hooks.prepare(w, f, inst);
        if args.Err? {
          AddRecordsErrSticks(hooks, f, inst, recs, j + 1, |hooks.wrapperTypes|);
          return Err(args.error);
        }
        cur := cur[j := cur[j] + [Rec(inst, args.value)]];
      }
      j := j + 1;
    }
    r := Ok(cur);
  }

  /** The first loop of `_register_namespace`. */
  method CollectArgs(cls: SchemaClass, docs: map<string, string>, hooks: Hooks, fields: seq<string>)
    returns (r: Result<(seq<seq<Rec>>, seq<ArgSpec>), BuildError>)
    ensures r == Collect(cls, docs, hooks, fields)
  {
    var recs := Empties(|hooks.wrapperTypes|);
    var specs: seq<ArgSpec> := [];
    var i := 0;
    while i < |fields|
      invariant 0 <= i <= |fields|
      invariant Collect(cls, docs, hooks, fields[..i]) == Ok((recs, specs))
    {
      var f := fields[i];
      CollectStep(cls, docs, hooks, fields, i);
      if IsDunder(f) {
        i := i + 1;
        continue;
      }
      var got := if f in cls.dict then hooks.classGet(cls.dict[f]) else Ok(VNone);
      if got.Err? {
        CollectStopsAt(cls, docs, hooks, fields, i + 1);
        return Err(got.error);
      }
      var added := RecordSubwrapper(hooks, f, got.value, recs);
      if added.Err? {
        CollectStopsAt(cls, docs, hooks, fields, i + 1);
        return Err(added.error);
      }
      recs := added.value;
      var spec := PrepareArg(cls, f);
      if spec.Err? {
        CollectStopsAt(cls, docs, hooks, fields, i + 1);
        return Err(spec.error);
      }
      specs := specs + [spec.value.(help := HelpSet(if f in docs then Some(docs[f]) else None))];
      i := i + 1;
    }
    assert fields[..i] == fields;
    r := Ok((recs, specs));
  }

  /** One wrapper over a container. */
  class Wrapper {
    const id: nat
    const className: string
    const nsType: SchemaClass
    const attrnames: seq<string>
    const docstrings: map<string, string>
    var parent: Wrapper?
    var bindname: Option<string>
    var calls: seq<OutCall>

    /** `__init__` up to the registration. */
    constructor(id: nat, className: string, nsType: SchemaClass, docstrings: map<string, string>)
      ensures this.id == id && this.className == className && this.nsType == nsType
      ensures this.docstrings == docstrings && attrnames == Fields(nsType)
      ensures parent == null && bindname.None? && calls == []
    {
      this.id := id;
      this.className := className;
      this.nsType := nsType;
      this.docstrings := docstrings;
      attrnames := Fields(nsType);
      parent := null;
      bindname := None;
      calls := [];
    }

    /** `_bind(bindname, parent)` */
    method Bind(name: string, p: Wrapper)
      modifies this`parent, this`bindname, this`calls
      ensures parent == p && bindname == Some(name)
      ensures calls == old(calls) + [ContainerCall(SetDefaults(map[BindKey := VStr(name), InstanceKey := VWrapper(id)]))]
    {
      bindname := Some(name);
      parent := p;
      calls := calls + [ContainerCall(SetDefaults(map[BindKey := VStr(name), InstanceKey := VWrapper(id)]))];
    }

    /** `__get__`: not implemented in the base class. */
    method Get(instance: Option<Value>) returns (r: Result<Value, BuildError>)
      ensures r == Err(NotImplemented(className, "__get__"))
    {
      r := Err(NotImplemented(className, "__get__"));
    }

    /** The inner part of the second loop: the records of one wrapper type,
        after the records `pending` went through without error. */
    method AddRow(add: (Value, seq<string>) -> Option<BuildError>, row: seq<Rec>,
                  ghost pending: seq<Rec>, ghost before: seq<OutCall>)
      returns (err: Option<BuildError>)
      requires calls == before + SubCalls(add, pending).0 && SubCalls(add, pending).1.None?
      modifies this`calls
      ensures calls == before + SubCalls(add, pending + row).0
      ensures err == SubCalls(add, pending + row).1
    {
      var k := 0;
      assert pending + row[..0] == pending;
      while k < |row|
        invariant 0 <= k <= |row|
        invariant calls == before + SubCalls(add, pending + row[..k]).0
        invariant SubCalls(add, pending + row[..k]).1.None?
      {
        var rec := row[k];
        calls := calls + [SubwrapperCall(rec.inst, rec.args)];
        var e := add(rec.inst, rec.args);
        SubCallsStep(add, pending, row, k);
        if e.Some? {
          SubCallsStopsInRow(add, pending, row, k + 1);
          return e;
        }
        k := k + 1;
      }
      assert row[..k] == row;
      err := None;
    }

    /** The second loop: `add_wrapper_to_subwrappers` per type, per record. */
    method AddSubwrappers(hooks: Hooks, recs: seq<seq<Rec>>) returns (err: Option<BuildError>)
      modifies this`calls
      ensures calls == old(calls) + SubCalls(hooks.addToSubwrappers, Flatten(recs)).0
      ensures err == SubCalls(hooks.addToSubwrappers, Flatten(recs)).1
    {
      var add := hooks.addToSubwrappers;
      ghost var pending: seq<Rec> := [];
      var j := 0;
      while j < |recs|
        invariant 0 <= j <= |recs|
        invariant pending == Flatten(recs[..j])
        invariant calls == old(calls) + SubCalls(add, pending).0
        invariant SubCalls(add, pending).1.None?
      {
        err := AddRow(add, recs[j], pending, old(calls));
        FlattenRow(recs, j);
        if err.Some? {
          SubCallsErrSticks(add, pending + recs[j], Flatten(recs[j + 1..]));
          return;
        }
        pending := pending + recs[j];
        j := j + 1;
      }
      assert recs[..j] == recs;
      err := None;
    }

    /** The third loop: `add_argument` on the container, in order. */
    method AddArguments(specs: seq<ArgSpec>)
      modifies this`calls
      ensures calls == old(calls) + ArgumentCalls(specs)
    {
      var a := 0;
      while a < |specs|
        invariant 0 <= a <= |specs|
        invariant calls == old(calls) + ArgumentCalls(specs[..a])
      {
        calls := calls + [ContainerCall(AddArgument(specs[a]))];
        assert specs[..a + 1] == specs[..a] + [specs[a]];
        FrontLastOfSnoc(specs[..a], specs[a]);
        a := a + 1;
      }
      assert specs[..a] == specs;
    }

    /** The second and third loops of `_register_namespace`. */
    method Emit(hooks: Hooks, collected: (seq<seq<Rec>>, seq<ArgSpec>)) returns (err: Option<BuildError>)
      modifies this`calls
      ensures calls == old(calls) + Emitted(hooks, collected).0
      ensures err == Emitted(hooks, collected).1
    {
      err := AddSubwrappers(hooks, collected.0);
      if err.Some? {
        return;
      }
      ghost var sub := SubCalls(hooks.addToSubwrappers, Flatten(collected.0)).0;
      AddArguments(collected.1);
      assert old(calls) + sub + ArgumentCalls(collected.1) == old(calls) + (sub + ArgumentCalls(collected.1));
    }

    /** `_register_namespace` */
    method RegisterNamespace(hooks: Hooks) returns (err: Option<BuildError>)
      modifies this`calls
      ensures calls == old(calls) + Registration(nsType, docstrings, hooks, attrnames).0
      ensures err == Registration(nsType, docstrings, hooks, attrnames).1
    {
      var c := CollectArgs(nsType, docstrings, hooks, attrnames);
      if c.Err? {
        assert old(calls) + [] == old(calls);
        return Some(c.error);
      }
      err := Emit(hooks, c.value);
    }
  }

  /** Why constructing a wrapper failed. */
  datatype InitError = DocstringError(doc: DocError) | RegisterError(build: BuildError)

  /** `BaseWrapper(ns_type, options)`: field order, docstrings (whose
      failure propagates), then registration. */
  method NewWrapper(id: nat, className: string, nsType: SchemaClass, docs: Result<map<string, string>, DocError>,
                    registry: WrapperTypeRegistry, hooks: Hooks)
    returns (w: Wrapper?, err: Option<InitError>)
    requires registry.Enumerates(hooks.wrapperTypes)
    ensures docs.Err? ==> w == null && err == Some(DocstringError(docs.error))
    ensures docs.Ok? ==> w != null && fresh(w) && w.attrnames == Fields(nsType) && w.docstrings == docs.value
    ensures docs.Ok? ==>
      var reg := Registration(nsType, docs.value, hooks, Fields(nsType));
      && w.calls == reg.0
      && err == (if reg.1.Some? then Some(RegisterError(reg.1.value)) else None)
  {
    if docs.Err? {
      return null, Some(DocstringError(docs.error));
    }
    w := new Wrapper(id, className, nsType, docs.value);
    var e := w.RegisterNamespace(hooks);
    err := if e.Some? then Some(RegisterError(e.value)) else None;
  }

  /** The set of wrapper types shared by every subclass. */
  class WrapperTypeRegistry {
    var wrapperTypes: set<string>

    constructor()
      ensures wrapperTypes == {}
    {
      wrapperTypes := {};
    }

    /** `order` lists the shared set, each type once: the order in which
        the register loop's dictionary, built from the set, visits them. */
    predicate Enumerates(order: seq<string>)
      reads this
    {
      && (forall i, j :: 0 <= i < j < |order| ==> order[i] != order[j])
      && (forall t :: t in order ==> t in wrapperTypes)
      && (forall t :: t in wrapperTypes ==> t in order)
    }

    /** `__init_subclass__`: a newly defined subclass joins the shared set. */
    method InitSubclass(cls: string)
      modifies this
      ensures wrapperTypes == old(wrapperTypes) + {cls}
      ensures forall order :: old(Enumerates(order)) ==>
        Enumerates(if cls in old(wrapperTypes) then order else order + [cls])
    {
      wrapperTypes := wrapperTypes + {cls};
    }
  }
}
