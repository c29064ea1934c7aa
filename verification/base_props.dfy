/** What the base wrapper's register loop promises. */
module BaseWrapperProperties {
  import opened Py
  import opened Introspection
  import opened Resolution
  import opened ArgSpecs
  import opened NamespaceTree
  import opened BaseWrapperModel

  /** The inner loop appends one record to the list of every registered
      type (among the first `k`) that `inst` is an instance of, and fails
      exactly when one of those types' `_prepare_subwrapper` fails. */
  lemma {:induction false} AddRecordsEffect(hooks: Hooks, f: string, inst: Value, recs: seq<seq<Rec>>, k: nat)
    requires k <= |hooks.wrapperTypes| == |recs|
    ensures AddRecords(hooks, f, inst, recs, k).Ok? <==>
      forall j :: 0 <= j < k && hooks.wrapperTypes[j] in hooks.kindsOf(inst) ==>
        hooks.prepare(hooks.wrapperTypes[j], f, inst).Ok?
    ensures AddRecords(hooks, f, inst, recs, k).Ok? ==>
      forall j :: 0 <= j < |recs| ==>
        AddRecords(hooks, f, inst, recs, k).value[j] ==
          recs[j] + (if j < k && hooks.wrapperTypes[j] in hooks.kindsOf(inst)
                     then [Rec(inst, hooks.prepare(hooks.wrapperTypes[j], f, inst).value)] else [])
    decreases k
  {
    if k > 0 {
      AddRecordsEffect(hooks, f, inst, recs, k - 1);
    }
  }

  /** A field passes the first loop: reading it from the class, its
      argument spec and every `_prepare_subwrapper` it triggers succeed. */
  predicate FieldOk(cls: SchemaClass, docs: map<string, string>, hooks: Hooks, f: string)
  {
    && FieldValue(cls, hooks, f).Ok?
    && BaseArgSpecOf(cls, docs, f).Ok?
    && forall j :: 0 <= j < |hooks.wrapperTypes| && hooks.wrapperTypes[j] in hooks.kindsOf(FieldValue(cls, hooks, f).value) ==>
         hooks.prepare(hooks.wrapperTypes[j], f, FieldValue(cls, hooks, f).value).Ok?
  }

  /** The first loop succeeds exactly when every non-dunder field passes. */
  lemma {:induction false} CollectOk(cls: SchemaClass, docs: map<string, string>, hooks: Hooks, fs: seq<string>)
    ensures Collect(cls, docs, hooks, fs).Ok? <==> forall f :: f in fs && !IsDunder(f) ==> FieldOk(cls, docs, hooks, f)
  {
    if fs != [] {
      var front := Front(fs);
      var f := Last(fs);
      CollectOk(cls, docs, hooks, front);
      FrontLast(fs);
      assert forall g :: g in fs <==> g in front || g == f;
      var prev := Collect(cls, docs, hooks, front);
      if prev.Ok? && !IsDunder(f) && FieldValue(cls, hooks, f).Ok? {
        AddRecordsEffect(hooks, f, FieldValue(cls, hooks, f).value, prev.value.0, |hooks.wrapperTypes|);
      }
    }
  }

  /** `for ... else` without `break`: EVERY non-dunder field, a sub-wrapper
      field included, gets an argument spec (with its help text), in field
      order. */
  lemma {:induction false} CollectArgSpecs(cls: SchemaClass, docs: map<string, string>, hooks: Hooks, fs: seq<string>)
    requires Collect(cls, docs, hooks, fs).Ok?
    ensures |Collect(cls, docs, hooks, fs).value.1| == |Keep(fs, [])|
    ensures forall i :: 0 <= i < |Keep(fs, [])| ==>
      BaseArgSpecOf(cls, docs, Keep(fs, [])[i]) == Ok(Collect(cls, docs, hooks, fs).value.1[i])
  {
    if fs != [] {
      var front := Front(fs);
      var f := Last(fs);
      CollectArgSpecs(cls, docs, hooks, front);
      FrontLast(fs);
      KeepSnoc(front, f, []);
    }
  }

  /** The records of one wrapper type: one per non-dunder field whose
      value is an instance of it, in field order. */
  function RecordsOf(cls: SchemaClass, hooks: Hooks, w: string, fs: seq<string>): seq<Rec>
  {
    if fs == [] then []
    else
      var f := Last(fs);
      var got := FieldValue(cls, hooks, f);
      RecordsOf(cls, hooks, w, Front(fs)) +
        (if !IsDunder(f) && got.Ok? && w in hooks.kindsOf(got.value) then
           match hooks.prepare(w, f, got.value)
           case Ok(args) => [Rec(got.value, args)]
           case Err(_) => []
         else [])
  }

  /** The loop runs field by field and type by type inside; its result is
      the same as going type by type and field by field inside: each
      sub-wrapper instance is recorded once per registered type it is an
      instance of. */
  lemma {:induction false} CollectRecords(cls: SchemaClass, docs: map<string, string>, hooks: Hooks, fs: seq<string>)
    requires Collect(cls, docs, hooks, fs).Ok?
    ensures forall j :: 0 <= j < |hooks.wrapperTypes| ==>
      Collect(cls, docs, hooks, fs).value.0[j] == RecordsOf(cls, hooks, hooks.wrapperTypes[j], fs)
  {
    if fs != [] {
      var front := Front(fs);
      var f := Last(fs);
      var prev := Collect(cls, docs, hooks, front);
      CollectRecords(cls, docs, hooks, front);
      if !IsDunder(f) {
        AddRecordsEffect(hooks, f, FieldValue(cls, hooks, f).value, prev.value.0, |hooks.wrapperTypes|);
      }
    }
  }

  /** The `add_wrapper_to_subwrappers` calls for `pending`, all issued. */
  function Issued(pending: seq<Rec>): (r: seq<OutCall>)
    ensures |r| == |pending| && forall i :: 0 <= i < |pending| ==> r[i] == SubwrapperCall(pending[i].inst, pending[i].args)
  {
    seq(|pending|, i requires 0 <= i < |pending| => SubwrapperCall(pending[i].inst, pending[i].args))
  }

  lemma IssuedSnoc(pending: seq<Rec>, p: Rec)
    ensures Issued(pending + [p]) == Issued(pending) + [SubwrapperCall(p.inst, p.args)]
  {
    assert forall i :: 0 <= i < |pending| ==> (pending + [p])[i] == pending[i];
  }

  /** One more record: its call is made unless an earlier one raised. */
  lemma SubCallsSnoc(add: (Value, seq<string>) -> Option<BuildError>, pending: seq<Rec>)
    requires pending != []
    ensures SubCalls(add, pending) ==
      var prev := SubCalls(add, Front(pending));
      var p := Last(pending);
      if prev.1.Some? then prev else (prev.0 + [SubwrapperCall(p.inst, p.args)], add(p.inst, p.args))
  {
  }

  /** The second loop goes through without error exactly when no call
      raises, and then calls `add_wrapper_to_subwrappers` on every record,
      in order. */
  lemma {:induction false} SubCallsOk(add: (Value, seq<string>) -> Option<BuildError>, pending: seq<Rec>)
    ensures SubCalls(add, pending).1.None? <==> forall i :: 0 <= i < |pending| ==> add(pending[i].inst, pending[i].args).None?
    ensures SubCalls(add, pending).1.None? ==> SubCalls(add, pending).0 == Issued(pending)
  {
    if pending != [] {
      var front := Front(pending);
      var p := Last(pending);
      SubCallsOk(add, front);
      SubCallsSnoc(add, pending);
      FrontLast(pending);
      IssuedSnoc(front, p);
      assert forall i :: 0 <= i < |front| ==> pending[i] == front[i];
      assert pending[|front|] == p;
    }
  }

  /** When the second loop raises, it stops right after the first call
      that raised: the calls are those for the records up to that one. */
  lemma {:induction false} SubCallsFails(add: (Value, seq<string>) -> Option<BuildError>, pending: seq<Rec>)
    ensures SubCalls(add, pending).1.Some? ==>
      exists i ::
        && 0 <= i < |pending|
        && SubCalls(add, pending).1 == add(pending[i].inst, pending[i].args)
        && SubCalls(add, pending).0 == Issued(pending[..i + 1])
        && forall j :: 0 <= j < i ==> add(pending[j].inst, pending[j].args).None?
  {
    if pending != [] {
      var front := Front(pending);
      var p := Last(pending);
      var n := |front|;
      SubCallsSnoc(add, pending);
      FrontLast(pending);
      if SubCalls(add, front).1.Some? {
        SubCallsFails(add, front);
        var i :|
          && 0 <= i < n
          && SubCalls(add, front).1 == add(front[i].inst, front[i].args)
          && SubCalls(add, front).0 == Issued(front[..i + 1])
          && forall j :: 0 <= j < i ==> add(front[j].inst, front[j].args).None?;
        assert front[..i + 1] == pending[..i + 1];
        assert forall j :: 0 <= j <= i ==> pending[j] == front[j];
      } else if add(p.inst, p.args).Some? {
        SubCallsOk(add, front);
        IssuedSnoc(front, p);
        assert pending[..n + 1] == pending;
        assert forall j :: 0 <= j < n ==> pending[j] == front[j];
        assert pending[n] == p;
      }
    }
  }

  lemma {:induction false} ArgumentCallsAt(specs: seq<ArgSpec>)
    ensures |ArgumentCalls(specs)| == |specs|
    ensures forall i :: 0 <= i < |specs| ==> ArgumentCalls(specs)[i] == ContainerCall(AddArgument(specs[i]))
  {
    if specs != [] {
      ArgumentCallsAt(Front(specs));
      FrontLast(specs);
    }
  }

  lemma {:induction false} FlattenEmpties(recs: seq<seq<Rec>>)
    requires forall j :: 0 <= j < |recs| ==> recs[j] == []
    ensures Flatten(recs) == []
  {
    if recs != [] {
      FlattenEmpties(Front(recs));
    }
  }

  /** With the base class's own hooks, registration succeeds exactly when
      no field's class value is a wrapper (reading one runs the base
      `__get__`, which raises) and no field's value is an instance of a
      registered wrapper type; it then records nothing and only adds the
      arguments, one per non-dunder field in field order. */
  lemma BaseHooksRegister(className: string, wrapperTypes: seq<string>, kindsOf: Value -> set<string>, classOf: Value -> string,
                          cls: SchemaClass, docs: map<string, string>, fs: seq<string>)
    ensures var c := Collect(cls, docs, BaseHooks(className, wrapperTypes, kindsOf, classOf), fs);
      c.Ok? <==>
        forall f :: f in fs && !IsDunder(f) ==>
          && !cls.ClassAttr(f).VWrapper?
          && BaseArgSpecOf(cls, docs, f).Ok?
          && forall j :: 0 <= j < |wrapperTypes| ==> wrapperTypes[j] !in kindsOf(cls.ClassAttr(f))
    ensures var hooks := BaseHooks(className, wrapperTypes, kindsOf, classOf);
      var c := Collect(cls, docs, hooks, fs);
      c.Ok? ==>
        && SubCalls(hooks.addToSubwrappers, Flatten(c.value.0)) == ([], None)
        && |ArgumentCalls(c.value.1)| == |Keep(fs, [])|
        && forall i :: 0 <= i < |Keep(fs, [])| ==>
             ArgumentCalls(c.value.1)[i].ContainerCall? &&
             ArgumentCalls(c.value.1)[i].call.AddArgument? &&
             BaseArgSpecOf(cls, docs, Keep(fs, [])[i]) == Ok(ArgumentCalls(c.value.1)[i].call.spec)
  {
    var hooks := BaseHooks(className, wrapperTypes, kindsOf, classOf);
    CollectOk(cls, docs, hooks, fs);
    var c := Collect(cls, docs, hooks, fs);
    if c.Ok? {
      CollectRecords(cls, docs, hooks, fs);
      forall j | 0 <= j < |wrapperTypes| ensures c.value.0[j] == [] {
        RecordsEmpty(cls, hooks, wrapperTypes[j], fs);
      }
      FlattenEmpties(c.value.0);
      CollectArgSpecs(cls, docs, hooks, fs);
      ArgumentCallsAt(c.value.1);
    }
  }

  /** With the base class's own hooks, the first non-dunder field whose
      class value is a wrapper ends registration with the NotImplementedError
      of that wrapper's `__get__`, before any call is made, when the fields
      before it pass. */
  lemma BaseHooksWrapperField(className: string, wrapperTypes: seq<string>, kindsOf: Value -> set<string>, classOf: Value -> string,
                              cls: SchemaClass, docs: map<string, string>, fs: seq<string>, i: nat)
    requires i < |fs| && !IsDunder(fs[i]) && cls.ClassAttr(fs[i]).VWrapper?
    requires Collect(cls, docs, BaseHooks(className, wrapperTypes, kindsOf, classOf), fs[..i]).Ok?
    ensures Collect(cls, docs, BaseHooks(className, wrapperTypes, kindsOf, classOf), fs) ==
      Err(NotImplemented(classOf(cls.ClassAttr(fs[i])), "__get__"))
    ensures Registration(cls, docs, BaseHooks(className, wrapperTypes, kindsOf, classOf), fs) ==
      ([], Some(NotImplemented(classOf(cls.ClassAttr(fs[i])), "__get__")))
  {
    var hooks := BaseHooks(className, wrapperTypes, kindsOf, classOf);
    CollectStep(cls, docs, hooks, fs, i);
    CollectStopsAt(cls, docs, hooks, fs, i + 1);
  }

  lemma {:induction false} RecordsEmpty(cls: SchemaClass, hooks: Hooks, w: string, fs: seq<string>)
    requires forall a, f, v :: hooks.prepare(a, f, v).Err?
    ensures RecordsOf(cls, hooks, w, fs) == []
  {
    if fs != [] {
      RecordsEmpty(cls, hooks, w, Front(fs));
    }
  }
}
