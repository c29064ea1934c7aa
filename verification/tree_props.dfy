/** What the namespace tree promises: the shape of a registered parser's
    calls, which fields become subparsers and which become arguments, how
    binding changes a child, and how `parse_args` nests the matched
    instance under its ancestors. */
module TreeProperties {
  import opened Py
  import opened Introspection
  import opened Resolution
  import opened ArgSpecs
  import opened NamespaceTree

  // ---------------------------------------------------------------------
  // The parser calls of one registration

  /** The names of the subparsers, in the order they were collected. */
  function SubparserNames(subs: seq<(string, nat)>): (r: seq<string>)
    ensures |r| == |subs| && forall i :: 0 <= i < |subs| ==> r[i] == subs[i].0
  {
    seq(|subs|, i requires 0 <= i < |subs| => subs[i].0)
  }

  lemma {:induction false} AddParserCallsAt(subs: seq<(string, nat)>)
    ensures |AddParserCalls(subs)| == |subs|
    ensures forall i :: 0 <= i < |subs| ==> AddParserCalls(subs)[i] == AddParser(subs[i].0, subs[i].1)
  {
    if subs != [] {
      AddParserCallsAt(Front(subs));
      FrontLast(subs);
    }
  }

  lemma {:induction false} AddArgumentCallsAt(specs: seq<ArgSpec>)
    ensures |AddArgumentCalls(specs)| == |specs|
    ensures forall i :: 0 <= i < |specs| ==> AddArgumentCalls(specs)[i] == AddArgument(specs[i])
  {
    if specs != [] {
      AddArgumentCallsAt(Front(specs));
      FrontLast(specs);
    }
  }

  lemma {:induction false} ChoicesAppend(a: seq<ParserCall>, b: seq<ParserCall>)
    ensures Choices(a + b) == Choices(a) + Choices(b)
    decreases |b|
  {
    if b == [] {
      assert a + b == a;
    } else {
      ChoicesAppend(a, Front(b));
      FrontLast(b);
      assert a + b == (a + Front(b)) + [Last(b)];
      LogSnoc(a + Front(b), Last(b));
      LogSnoc(Front(b), Last(b));
    }
  }

  lemma {:induction false} DefaultsAppend(a: seq<ParserCall>, b: seq<ParserCall>)
    requires forall i :: 0 <= i < |b| ==> !b[i].SetDefaults?
    ensures DefaultsOf(a + b) == DefaultsOf(a)
    decreases |b|
  {
    if b == [] {
      assert a + b == a;
    } else {
      DefaultsAppend(a, Front(b));
      FrontLast(b);
      assert a + b == (a + Front(b)) + [Last(b)];
      LogSnoc(a + Front(b), Last(b));
    }
  }

  lemma {:induction false} ChoicesOfParsers(subs: seq<(string, nat)>)
    ensures Choices(AddParserCalls(subs)) == SubparserNames(subs)
  {
    if subs != [] {
      ChoicesOfParsers(Front(subs));
      FrontLast(subs);
      LogSnoc(AddParserCalls(Front(subs)), AddParser(Last(subs).0, Last(subs).1));
    }
  }

  lemma {:induction false} ChoicesOfArguments(specs: seq<ArgSpec>)
    ensures Choices(AddArgumentCalls(specs)) == []
  {
    if specs != [] {
      ChoicesOfArguments(Front(specs));
      LogSnoc(AddArgumentCalls(Front(specs)), AddArgument(Last(specs)));
    }
  }

  /** After registration the subparser choices are exactly the wrapper
      fields' subparser names, in field order. */
  lemma RegisterLogChoices(options: NamespaceOptions, n: nat, subs: seq<(string, nat)>, specs: seq<ArgSpec>)
    ensures Choices(RegisterLog(options, n, subs, specs)) == SubparserNames(subs)
  {
    var head: seq<ParserCall> := [SetDefaults(InitialDefaults(options, n))];
    var sub: seq<ParserCall> := if subs != [] then [AddSubparsers] else [];
    var ps := AddParserCalls(subs);
    var args := AddArgumentCalls(specs);
    var front := head + sub;
    assert RegisterLog(options, n, subs, specs) == (front + ps) + args;
    assert Choices(front) == [] by {
      LogSnoc([], head[0]);
      assert [] + [head[0]] == head;
      if subs != [] {
        LogSnoc(head, AddSubparsers);
      } else {
        assert front == head;
      }
    }
    ChoicesAppend(front, ps);
    ChoicesOfParsers(subs);
    assert Choices(front + ps) == SubparserNames(subs);
    ChoicesAppend(front + ps, args);
    ChoicesOfArguments(specs);
  }

  /** Registration sets no default besides the ones stamped at construction. */
  lemma RegisterLogDefaults(options: NamespaceOptions, n: nat, subs: seq<(string, nat)>, specs: seq<ArgSpec>)
    ensures DefaultsOf(RegisterLog(options, n, subs, specs)) == InitialDefaults(options, n)
  {
    var head: seq<ParserCall> := [SetDefaults(InitialDefaults(options, n))];
    var tail := RegisterTail(subs, specs);
    assert RegisterLog(options, n, subs, specs) == head + tail;
    AddParserCallsAt(subs);
    AddArgumentCallsAt(specs);
    assert forall i :: 0 <= i < |tail| ==> !tail[i].SetDefaults?;
    DefaultsAppend(head, tail);
    LogSnoc([], head[0]);
    assert [] + [head[0]] == head;
  }

  /** Where the `add_parser` calls of a register log begin. */
  function ParsersStart(subs: seq<(string, nat)>): nat
  {
    if subs != [] then 2 else 1
  }

  /** The register log, position by position. */
  lemma RegisterLogAt(options: NamespaceOptions, n: nat, subs: seq<(string, nat)>, specs: seq<ArgSpec>)
    ensures var log, b := RegisterLog(options, n, subs, specs), ParsersStart(subs);
      && |log| == b + |subs| + |specs|
      && log[0] == SetDefaults(InitialDefaults(options, n))
      && (subs != [] ==> log[1] == AddSubparsers)
      && (forall i :: b <= i < b + |subs| ==> log[i] == AddParser(subs[i - b].0, subs[i - b].1))
      && (forall i :: b + |subs| <= i < |log| ==> log[i] == AddArgument(specs[i - b - |subs|]))
  {
    var log := RegisterLog(options, n, subs, specs);
    var sub: seq<ParserCall> := if subs != [] then [AddSubparsers] else [];
    var ps := AddParserCalls(subs);
    var args := AddArgumentCalls(specs);
    AddParserCallsAt(subs);
    AddArgumentCallsAt(specs);
    assert log == [SetDefaults(InitialDefaults(options, n))] + sub + ps + args;
  }

  /** The subparsers object is created exactly when some field is a
      wrapper, and then once. */
  lemma RegisterLogSubparsers(options: NamespaceOptions, n: nat, subs: seq<(string, nat)>, specs: seq<ArgSpec>)
    ensures AddSubparsers in RegisterLog(options, n, subs, specs) <==> subs != []
    ensures SubparsersOnce(RegisterLog(options, n, subs, specs))
  {
    var log := RegisterLog(options, n, subs, specs);
    RegisterLogAt(options, n, subs, specs);
    assert forall i :: 0 <= i < |log| && log[i] == AddSubparsers ==> i == 1 && subs != [];
    if subs != [] {
      assert log[1] == AddSubparsers;
    }
  }

  /** Every `add_parser` comes before every `add_argument`; the arguments
      are added last, in the order they were prepared. */
  lemma RegisterLogOrder(options: NamespaceOptions, n: nat, subs: seq<(string, nat)>, specs: seq<ArgSpec>)
    ensures var log := RegisterLog(options, n, subs, specs);
      forall i, j :: 0 <= i < |log| && 0 <= j < |log| && log[i].AddParser? && log[j].AddArgument? ==> i < j
    ensures var log := RegisterLog(options, n, subs, specs);
      |specs| < |log| && forall k :: 0 <= k < |specs| ==> log[|log| - |specs| + k] == AddArgument(specs[k])
  {
    RegisterLogAt(options, n, subs, specs);
  }


  // ---------------------------------------------------------------------
  // The register loop, field by field

  /** The non-dunder fields whose class value is a wrapper, in order. */
  function WrapperFields(cls: SchemaClass, fs: seq<string>): (r: seq<string>)
    ensures forall f :: f in r ==> f in fs && !IsDunder(f) && WrapperOf(cls, f).Some?
  {
    if fs == [] then []
    else
      FrontLast(fs);
      var f := Last(fs);
      WrapperFields(cls, Front(fs)) + (if !IsDunder(f) && WrapperOf(cls, f).Some? then [f] else [])
  }

  /** The non-dunder fields whose class value is not a wrapper, in order. */
  function PlainFields(cls: SchemaClass, fs: seq<string>): (r: seq<string>)
    ensures forall f :: f in r ==> f in fs && !IsDunder(f) && WrapperOf(cls, f).None?
  {
    if fs == [] then []
    else
      FrontLast(fs);
      var f := Last(fs);
      PlainFields(cls, Front(fs)) + (if !IsDunder(f) && WrapperOf(cls, f).None? then [f] else [])
  }

  /** Every wrapper field becomes one subparser, named with `_` replaced
      by `-`, in field order. */
  lemma {:induction false} SubparserArgsByField(cls: SchemaClass, fs: seq<string>)
    ensures |SubparserArgs(cls, fs)| == |WrapperFields(cls, fs)|
    ensures forall i :: 0 <= i < |WrapperFields(cls, fs)| ==>
      SubparserArgs(cls, fs)[i] == (Replace(WrapperFields(cls, fs)[i], '_', '-'), WrapperOf(cls, WrapperFields(cls, fs)[i]).value)
  {
    if fs != [] {
      SubparserArgsByField(cls, Front(fs));
    }
  }

  /** Apply `g` to each item in order, stopping at the first error. */
  function AllOk<A, B, E>(xs: seq<A>, g: A -> Result<B, E>): Result<seq<B>, E>
  {
    if xs == [] then Ok([])
    else
      var prev := AllOk(Front(xs), g);
      if prev.Err? then prev
      else match g(Last(xs))
        case Err(e) => Err(e)
        case Ok(b) => Ok(prev.value + [b])
  }

  lemma AllOkSnoc<A, B, E>(xs: seq<A>, x: A, g: A -> Result<B, E>)
    ensures AllOk(xs + [x], g) ==
      if AllOk(xs, g).Err? then AllOk(xs, g)
      else match g(x)
        case Err(e) => Err(e)
        case Ok(b) => Ok(AllOk(xs, g).value + [b])
  {
    FrontLastOfSnoc(xs, x);
  }

  /** All items succeed exactly when the whole does, and then the results
      are the items' results, in order. */
  lemma {:induction false} AllOkSucceeds<A, B, E>(xs: seq<A>, g: A -> Result<B, E>)
    ensures AllOk(xs, g).Ok? <==> forall x :: x in xs ==> g(x).Ok?
    ensures AllOk(xs, g).Ok? ==>
      && |AllOk(xs, g).value| == |xs|
      && forall i :: 0 <= i < |xs| ==> g(xs[i]) == Ok(AllOk(xs, g).value[i])
  {
    if xs != [] {
      var front, x := Front(xs), Last(xs);
      AllOkSucceeds(front, g);
      FrontLast(xs);
      AllOkSnoc(front, x, g);
      var prev := AllOk(front, g);
      if prev.Ok? && g(x).Ok? {
        var r := prev.value + [g(x).value];
        assert forall i :: 0 <= i < |front| ==> xs[i] == front[i] && r[i] == prev.value[i];
        assert xs[|front|] == x && r[|front|] == g(x).value;
      }
      assert forall y :: y in xs <==> y in front || y == x;
    }
  }

  /** A failure is the failure of the first item that fails. */
  lemma {:induction false} AllOkFails<A, B, E>(xs: seq<A>, g: A -> Result<B, E>)
    ensures AllOk(xs, g).Err? ==>
      exists i ::
        && 0 <= i < |xs|
        && g(xs[i]) == Err(AllOk(xs, g).error)
        && forall j :: 0 <= j < i ==> g(xs[j]).Ok?
  {
    if xs != [] {
      var front, x := Front(xs), Last(xs);
      FrontLast(xs);
      AllOkSnoc(front, x, g);
      var prev := AllOk(front, g);
      if prev.Err? {
        AllOkFails(front, g);
        var i :| 0 <= i < |front| && g(front[i]) == Err(prev.error) && forall j :: 0 <= j < i ==> g(front[j]).Ok?;
        assert forall j :: 0 <= j <= i ==> xs[j] == front[j];
      } else if g(x).Err? {
        AllOkSucceeds(front, g);
        assert xs[|front|] == x;
        assert forall j :: 0 <= j < |front| ==> xs[j] == front[j] && front[j] in front;
      }
    }
  }

  /** The specs the register loop prepares are those of the plain fields,
      in order, stopping at the first failure. */
  lemma {:induction false} ArgSpecsForIsAllOk(cls: SchemaClass, fs: seq<string>)
    ensures ArgSpecsFor(cls, fs) == AllOk(PlainFields(cls, fs), f => ArgSpecOf(cls, f))
  {
    if fs != [] {
      var front := Front(fs);
      var f := Last(fs);
      ArgSpecsForIsAllOk(cls, front);
      if !IsDunder(f) && WrapperOf(cls, f).None? {
        AllOkSnoc(PlainFields(cls, front), f, f => ArgSpecOf(cls, f));
      } else {
        assert PlainFields(cls, fs) == PlainFields(cls, front);
      }
    }
  }

  /** Every other field becomes one argument spec, in field order, and
      registration fails exactly when some such field's spec fails, with
      the first failure. */
  lemma ArgSpecsForByField(cls: SchemaClass, fs: seq<string>)
    ensures ArgSpecsFor(cls, fs).Ok? <==> forall f :: f in PlainFields(cls, fs) ==> ArgSpecOf(cls, f).Ok?
    ensures ArgSpecsFor(cls, fs).Ok? ==>
      && |ArgSpecsFor(cls, fs).value| == |PlainFields(cls, fs)|
      && forall i :: 0 <= i < |PlainFields(cls, fs)| ==>
           ArgSpecOf(cls, PlainFields(cls, fs)[i]) == Ok(ArgSpecsFor(cls, fs).value[i])
    ensures ArgSpecsFor(cls, fs).Err? ==>
      exists i :: 0 <= i < |PlainFields(cls, fs)| &&
        ArgSpecOf(cls, PlainFields(cls, fs)[i]) == Err(ArgSpecsFor(cls, fs).error) &&
        forall j :: 0 <= j < i ==> ArgSpecOf(cls, PlainFields(cls, fs)[j]).Ok?
  {
    ArgSpecsForIsAllOk(cls, fs);
    AllOkSucceeds(PlainFields(cls, fs), f => ArgSpecOf(cls, f));
    AllOkFails(PlainFields(cls, fs), f => ArgSpecOf(cls, f));
  }


  /** Each non-dunder field goes to exactly one of the two lists. */
  lemma {:induction false} FieldsPartition(cls: SchemaClass, fs: seq<string>)
    ensures |WrapperFields(cls, fs)| + |PlainFields(cls, fs)| == |Keep(fs, [])|
  {
    if fs != [] {
      FieldsPartition(cls, Front(fs));
      FrontLast(fs);
      KeepSnoc(Front(fs), Last(fs), []);
    }
  }

  // ---------------------------------------------------------------------
  // Binding

  /** The last field of `fs` bound to wrapper `c`, if any. */
  function LastBinding(cls: SchemaClass, fs: seq<string>, c: nat): Option<string>
  {
    if fs == [] then None
    else if !IsDunder(Last(fs)) && WrapperOf(cls, Last(fs)) == Some(c) then Some(Last(fs))
    else LastBinding(cls, Front(fs), c)
  }

  /** A wrapper not bound by the register loop is untouched; one bound by
      it has the new wrapper as parent, the LAST binding field as its bind
      name, both hidden defaults naming that binding, and nothing else
      changed. */
  lemma {:induction false} BindFieldsEffect(nodes: seq<Node>, cls: SchemaClass, fs: seq<string>, n: nat, c: nat)
    requires c < |nodes|
    ensures LastBinding(cls, fs, c).None? ==> BindFields(nodes, cls, fs, n)[c] == nodes[c]
    ensures LastBinding(cls, fs, c).Some? ==>
      && BindFields(nodes, cls, fs, n)[c].(log := nodes[c].log)
           == nodes[c].(bindname := LastBinding(cls, fs, c), parent := Some(n))
      && GetDefault(BindFields(nodes, cls, fs, n)[c].log, BindKey) == VStr(LastBinding(cls, fs, c).value)
      && GetDefault(BindFields(nodes, cls, fs, n)[c].log, InstanceKey) == VWrapper(c)
  {
    if fs != [] {
      BindFieldsEffect(nodes, cls, Front(fs), n, c);
      var prev := BindFields(nodes, cls, Front(fs), n);
      var f := Last(fs);
      if !IsDunder(f) && WrapperOf(cls, f) == Some(c) {
        BoundDefaults(prev[c], c, f, n);
      }
    }
  }

  // ---------------------------------------------------------------------
  // Reconstruction

  /** The instance reached from `x` by following the attribute names of `path`. */
  function Lookup(x: Instance, path: seq<string>): Option<Instance>
    decreases |path|
  {
    if path == [] then Some(x)
    else if path[0] in x.attrs && x.attrs[path[0]].Nested? then Lookup(x.attrs[path[0]].inst, path[1..])
    else None
  }

  lemma {:induction false} LookupAppend(x: Instance, a: seq<string>, b: seq<string>)
    ensures Lookup(x, a + b) == if Lookup(x, a).Some? then Lookup(Lookup(x, a).value, b) else None
    decreases |a|
  {
    if a == [] {
      assert a + b == b;
    } else {
      assert (a + b)[0] == a[0] && (a + b)[1..] == a[1..] + b;
      if a[0] in x.attrs && x.attrs[a[0]].Nested? {
        LookupAppend(x.attrs[a[0]].inst, a[1..], b);
      }
    }
  }

  /** The bind names the walk up from `m` uses, outermost first. */
  function BindPath(nodes: seq<Node>, m: nat, bind: Option<string>): seq<string>
    requires m < |nodes| && Linked(nodes)
    decreases |nodes| - m
  {
    if bind.Some? && nodes[m].parent.Some? then
      var p := nodes[m].parent.value;
      BindPath(nodes, p, AsBindName(GetDefault(nodes[p].log, BindKey))) + [bind.value]
    else []
  }

  /** The wrapper the walk up from `m` stops at. */
  function WalkTop(nodes: seq<Node>, m: nat, bind: Option<string>): (t: nat)
    requires m < |nodes| && Linked(nodes)
    ensures m <= t < |nodes|
    decreases |nodes| - m
  {
    if bind.Some? && nodes[m].parent.Some? then
      var p := nodes[m].parent.value;
      WalkTop(nodes, p, AsBindName(GetDefault(nodes[p].log, BindKey)))
    else m
  }

  /** The walk puts `inst` at the end of the bind-name path; every level
      above it is a fresh instance holding exactly one attribute, the next
      bind name; the outermost instance has the type of the wrapper where
      the walk stops. */
  lemma {:induction false} WrapUpNests(nodes: seq<Node>, m: nat, bind: Option<string>, inst: Instance)
    requires m < |nodes| && Linked(nodes)
    ensures Lookup(WrapUp(nodes, m, bind, inst), BindPath(nodes, m, bind)) == Some(inst)
    ensures forall k :: 0 <= k < |BindPath(nodes, m, bind)| ==>
      && Lookup(WrapUp(nodes, m, bind, inst), BindPath(nodes, m, bind)[..k]).Some?
      && Lookup(WrapUp(nodes, m, bind, inst), BindPath(nodes, m, bind)[..k]).value.attrs.Keys
           == {BindPath(nodes, m, bind)[k]}
    ensures BindPath(nodes, m, bind) == [] ==> WrapUp(nodes, m, bind, inst) == inst && WalkTop(nodes, m, bind) == m
    ensures BindPath(nodes, m, bind) != [] ==>
      WrapUp(nodes, m, bind, inst).typeName == nodes[WalkTop(nodes, m, bind)].nsType.name
    decreases |nodes| - m
  {
    if bind.Some? && nodes[m].parent.Some? {
      var p := nodes[m].parent.value;
      var b := AsBindName(GetDefault(nodes[p].log, BindKey));
      var outer := Instance(nodes[p].nsType.name, map[bind.value := Nested(inst)]);
      WrapUpNests(nodes, p, b, outer);
      var r := WrapUp(nodes, p, b, outer);
      var up := BindPath(nodes, p, b);
      var path := up + [bind.value];
      assert r == WrapUp(nodes, m, bind, inst);
      assert path == BindPath(nodes, m, bind);
      LookupAppend(r, up, [bind.value]);
      assert [bind.value][1..] == [];
      assert Lookup(outer, [bind.value]) == Some(inst);
      forall k | 0 <= k < |path|
        ensures Lookup(r, path[..k]).Some? && Lookup(r, path[..k]).value.attrs.Keys == {path[k]}
      {
        if k < |up| {
          assert path[..k] == up[..k] && path[k] == up[k];
        } else {
          assert path[..k] == up;
        }
      }
    }
  }

  /** The bind names from the root down to wrapper `m`. */
  function Ancestry(nodes: seq<Node>, m: nat): seq<string>
    requires m < |nodes| && Linked(nodes)
    decreases |nodes| - m
  {
    if nodes[m].parent.Some? && nodes[m].bindname.Some? then
      Ancestry(nodes, nodes[m].parent.value) + [nodes[m].bindname.value]
    else []
  }

  /** The root above wrapper `m`. */
  function Root(nodes: seq<Node>, m: nat): (t: nat)
    requires m < |nodes| && Linked(nodes)
    ensures m <= t < |nodes|
    decreases |nodes| - m
  {
    if nodes[m].parent.Some? && nodes[m].bindname.Some? then Root(nodes, nodes[m].parent.value) else m
  }

  /** In a consistent arena the walk, started with a wrapper's own bind
      name, follows the bind names of all its ancestors up to the root
      (whose bind name is None from construction). */
  lemma {:induction false} WalkFollowsAncestry(nodes: seq<Node>, m: nat)
    requires ArenaOk(nodes) && m < |nodes|
    ensures BindPath(nodes, m, nodes[m].bindname) == Ancestry(nodes, m)
    ensures WalkTop(nodes, m, nodes[m].bindname) == Root(nodes, m)
    ensures nodes[Root(nodes, m)].parent.None?
    decreases |nodes| - m
  {
    assert NodeOk(nodes[m], m);
    if nodes[m].parent.Some? {
      var p := nodes[m].parent.value;
      assert NodeOk(nodes[p], p);
      assert AsBindName(GetDefault(nodes[p].log, BindKey)) == nodes[p].bindname;
      WalkFollowsAncestry(nodes, p);
    }
  }

  /** The levels the walk up from `m` goes through, innermost first: the
      class it instantiates and the bind name it sets on that instance. */
  function WalkSteps(nodes: seq<Node>, m: nat, bind: Option<string>): seq<(string, string)>
    requires m < |nodes| && Linked(nodes)
    decreases |nodes| - m
  {
    if bind.Some? && nodes[m].parent.Some? then
      var p := nodes[m].parent.value;
      [(nodes[p].nsType.name, bind.value)] + WalkSteps(nodes, p, AsBindName(GetDefault(nodes[p].log, BindKey)))
    else []
  }

  /** A level the walk gets through: `cls()` and then `setattr(new_ns, bind_name, ns)` succeed. */
  predicate StepOk(objs: Objects, step: (string, string))
  {
    objs.instantiates(step.0) && objs.settable(step.0, step.1)
  }

  /** The walk has one level per bind name of its path (innermost first,
      the path being outermost first); it goes through exactly when every
      level does, and otherwise fails at the innermost level that does not:
      TypeError when the class cannot be instantiated, else the `setattr`
      error. */
  lemma {:induction false} WalkErrorSpec(nodes: seq<Node>, m: nat, bind: Option<string>, objs: Objects)
    requires m < |nodes| && Linked(nodes)
    ensures |WalkSteps(nodes, m, bind)| == |BindPath(nodes, m, bind)|
    ensures forall i :: 0 <= i < |WalkSteps(nodes, m, bind)| ==>
      WalkSteps(nodes, m, bind)[i].1 == BindPath(nodes, m, bind)[|BindPath(nodes, m, bind)| - 1 - i]
    ensures WalkError(nodes, m, bind, objs).None? <==>
      forall i :: 0 <= i < |WalkSteps(nodes, m, bind)| ==> StepOk(objs, WalkSteps(nodes, m, bind)[i])
    ensures WalkError(nodes, m, bind, objs).Some? ==>
      exists i ::
        && 0 <= i < |WalkSteps(nodes, m, bind)|
        && !StepOk(objs, WalkSteps(nodes, m, bind)[i])
        && (forall j :: 0 <= j < i ==> StepOk(objs, WalkSteps(nodes, m, bind)[j]))
        && WalkError(nodes, m, bind, objs).value ==
             (var st := WalkSteps(nodes, m, bind)[i];
              if !objs.instantiates(st.0) then InstantiationFailed(st.0) else SetAttrFailed(st.0, st.1))
    decreases |nodes| - m
  {
    if bind.Some? && nodes[m].parent.Some? {
      var p := nodes[m].parent.value;
      var b := AsBindName(GetDefault(nodes[p].log, BindKey));
      WalkErrorSpec(nodes, p, b, objs);
      var up := WalkSteps(nodes, p, b);
      var st := (nodes[p].nsType.name, bind.value);
      var steps := [st] + up;
      assert steps == WalkSteps(nodes, m, bind);
      assert forall i :: 1 <= i < |steps| ==> steps[i] == up[i - 1];
      var path := BindPath(nodes, p, b);
      assert BindPath(nodes, m, bind) == path + [bind.value];
      if StepOk(objs, st) && WalkError(nodes, p, b, objs).Some? {
        var i :|
          && 0 <= i < |up|
          && !StepOk(objs, up[i])
          && (forall j :: 0 <= j < i ==> StepOk(objs, up[j]))
          && WalkError(nodes, p, b, objs).value ==
               (if !objs.instantiates(up[i].0) then InstantiationFailed(up[i].0) else SetAttrFailed(up[i].0, up[i].1));
        assert steps[i + 1] == up[i];
      }
      if !StepOk(objs, st) {
        assert steps[0] == st;
      }
    }
  }

  /** `parse_args` on a flat result whose bind name is the matched
      wrapper's own: it succeeds exactly when the matched wrapper's class
      can be instantiated, every copied name is present and settable, and
      every level of the walk up goes through; the result is then an
      instance of the root's class with the matched wrapper's instance at
      the end of the bind-name path, holding exactly the names not skipped,
      each with its flat value. */
  lemma ParseArgsNests(nodes: seq<Node>, self: nat, flat: map<string, Value>, objs: Objects)
    requires ArenaOk(nodes) && self < |nodes| && FlatOk(flat, |nodes|)
    requires flat[BindKey] == BindValue(nodes[flat[InstanceKey].id].bindname)
    ensures var m := flat[InstanceKey].id;
      var names := nodes[m].attrnames + nodes[m].defaultKeys;
      var steps := WalkSteps(nodes, m, nodes[m].bindname);
      Reconstruct(nodes, self, flat, objs).Ok? <==>
        && objs.instantiates(nodes[m].nsType.name)
        && (forall k :: k in names ==> Copyable(nodes[m], m == self, flat, objs, k))
        && (forall i :: 0 <= i < |steps| ==> StepOk(objs, steps[i]))
    ensures var m := flat[InstanceKey].id;
      var names := nodes[m].attrnames + nodes[m].defaultKeys;
      var r := Reconstruct(nodes, self, flat, objs);
      r.Ok? ==>
        && r.value.typeName == nodes[Root(nodes, m)].nsType.name
        && nodes[Root(nodes, m)].parent.None?
        && Lookup(r.value, Ancestry(nodes, m)).Some?
        && Lookup(r.value, Ancestry(nodes, m)).value.typeName == nodes[m].nsType.name
        && (forall k :: k in Lookup(r.value, Ancestry(nodes, m)).value.attrs <==>
              k in names && !SkipName(nodes[m], m == self, k))
        && (forall k :: k in Lookup(r.value, Ancestry(nodes, m)).value.attrs ==>
              Lookup(r.value, Ancestry(nodes, m)).value.attrs[k] == Plain(flat[k]))
  {
    var m := flat[InstanceKey].id;
    var nd := nodes[m];
    var names := nd.attrnames + nd.defaultKeys;
    assert NodeOk(nodes[m], m);
    assert AsBindName(flat[BindKey]) == nd.bindname;
    var c := CopyFields(nd, m == self, names, flat, objs);
    CopyFieldsOk(nd, m == self, names, flat, objs);
    WalkErrorSpec(nodes, m, nd.bindname, objs);
    if c.Ok? {
      var inst := Instance(nd.nsType.name, c.value);
      WrapUpNests(nodes, m, nd.bindname, inst);
      WalkFollowsAncestry(nodes, m);
    }
  }

  /** When the matched wrapper has no parent, its instance is returned
      unwrapped, whatever the bind name says; only its own class and its
      copy can fail. */
  lemma RootMatchUnwrapped(nodes: seq<Node>, self: nat, flat: map<string, Value>, objs: Objects)
    requires ArenaOk(nodes) && self < |nodes| && FlatOk(flat, |nodes|)
    requires nodes[flat[InstanceKey].id].parent.None?
    ensures var m := flat[InstanceKey].id;
      var c := CopyFields(nodes[m], m == self, nodes[m].attrnames + nodes[m].defaultKeys, flat, objs);
      Reconstruct(nodes, self, flat, objs) ==
        if !objs.instantiates(nodes[m].nsType.name) then Err(InstantiationFailed(nodes[m].nsType.name))
        else if c.Ok? then Ok(Instance(nodes[m].nsType.name, c.value))
        else Err(c.error)
  {
  }
}
