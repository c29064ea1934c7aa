/** The tree of `NamespaceWrapper`s: construction (`__init__`,
    `_register_namespace`, `_prepare_subparser`, `_bind`,
    `get_or_create_subparsers`) and the rebuilding of nested instances in
    `parse_args`. Wrappers live in an arena indexed by creation order; each
    wrapper's parser is represented by the log of calls made on it. */
module NamespaceTree {
  import opened Py
  import opened Annotations
  import opened Introspection
  import opened Resolution
  import opened ArgSpecs

  const BindKey := "_namespace_wrapper_bind_name"
  const InstanceKey := "_namespace_wrapper_instance"

  /** A call made on a wrapper's `argparse.ArgumentParser`. */
  datatype ParserCall =
    | SetDefaults(values: map<string, Value>)
    | AddSubparsers
    | AddParser(name: string, child: nat)  // add_parser(name, add_help=False, parents=[child's parser])
    | AddArgument(spec: ArgSpec)

  /** `options`: the parser's `prefix_chars` and the `defaults` dict (its keys in order). */
  datatype NamespaceOptions = NamespaceOptions(prefixChars: string, defaultKeys: seq<string>, defaults: map<string, Value>)

  /** One wrapper and the parser it owns. */
  datatype Node = Node(
    nsType: SchemaClass,
    attrnames: seq<string>,
    defaultKeys: seq<string>,
    prefixChars: string,
    parent: Option<nat>,
    bindname: Option<string>,
    hasSubparsers: bool,
    log: seq<ParserCall>)

  /** The defaults a parser holds after its calls: later `set_defaults` win. */
  function DefaultsOf(log: seq<ParserCall>): map<string, Value>
  {
    if log == [] then map[]
    else
      var before := DefaultsOf(Front(log));
      match Last(log)
      case SetDefaults(values) => before + values
      case _ => before
  }

  /** `parser.get_default(key)` for a key no argument defines. */
  function GetDefault(log: seq<ParserCall>, key: string): Value
  {
    var d := DefaultsOf(log);
    if key in d then d[key] else VNone
  }

  /** The subparser names (`subparsers.choices`), in the order they were added. */
  function Choices(log: seq<ParserCall>): seq<string>
  {
    if log == [] then []
    else Choices(Front(log)) + (if Last(log).AddParser? then [Last(log).name] else [])
  }

  function BindValue(b: Option<string>): Value
  {
    if b.Some? then VStr(b.value) else VNone
  }

  /** How `parse_args` reads a bind name: None stops the walk. */
  function AsBindName(v: Value): Option<string>
  {
    if v.VStr? then Some(v.s) else None
  }

  predicate SubparsersOnce(log: seq<ParserCall>)
  {
    forall i, j :: 0 <= i < j < |log| ==> !(log[i] == AddSubparsers && log[j] == AddSubparsers)
  }

  /** Every parent was created after its child, so walking up terminates. */
  ghost predicate Linked(nodes: seq<Node>)
  {
    forall i :: 0 <= i < |nodes| && nodes[i].parent.Some? ==> i < nodes[i].parent.value < |nodes|
  }

  /** The invariant of wrapper `i`: linked upward exactly when bound, its
      parser's hidden defaults name its bind name and itself, and the
      subparsers object exists at most once, exactly when recorded. */
  ghost predicate NodeOk(nd: Node, i: nat)
  {
    && (nd.parent.Some? <==> nd.bindname.Some?)
    && GetDefault(nd.log, BindKey) == BindValue(nd.bindname)
    && GetDefault(nd.log, InstanceKey) == VWrapper(i)
    && (nd.hasSubparsers <==> AddSubparsers in nd.log)
    && SubparsersOnce(nd.log)
  }

  ghost predicate ArenaOk(nodes: seq<Node>)
  {
    Linked(nodes) && forall i :: 0 <= i < |nodes| ==> NodeOk(nodes[i], i)
  }

  lemma LogSnoc(log: seq<ParserCall>, c: ParserCall)
    ensures DefaultsOf(log + [c]) == if c.SetDefaults? then DefaultsOf(log) + c.values else DefaultsOf(log)
    ensures Choices(log + [c]) == Choices(log) + (if c.AddParser? then [c.name] else [])
    ensures AddSubparsers in log + [c] <==> AddSubparsers in log || c == AddSubparsers
    ensures SubparsersOnce(log + [c]) <==> SubparsersOnce(log) && !(c == AddSubparsers && AddSubparsers in log)
  {
    FrontLastOfSnoc(log, c);
    var l := log + [c];
    assert forall i :: 0 <= i < |log| ==> l[i] == log[i];
    assert l[|log|] == c;
    if AddSubparsers in log && c == AddSubparsers {
      var i :| 0 <= i < |log| && log[i] == AddSubparsers;
      assert l[i] == AddSubparsers && l[|log|] == AddSubparsers;
    }
  }

  /** A wrapper after `_bind(name, parent)`. */
  function Bound(nd: Node, id: nat, name: string, parent: nat): Node
  {
    nd.(bindname := Some(name), parent := Some(parent),
        log := nd.log + [SetDefaults(map[BindKey := VStr(name), InstanceKey := VWrapper(id)])])
  }

  /** `getattr(ns_type, name, None)` is a wrapper: which one. */
  function WrapperOf(cls: SchemaClass, f: string): Option<nat>
  {
    var v := cls.ClassAttr(f);
    if v.VWrapper? then Some(v.id) else None
  }

  /** The arena after the register loop bound the wrapper fields among `fs`
      to the new wrapper `n`, in field order. */
  function BindFields(nodes: seq<Node>, cls: SchemaClass, fs: seq<string>, n: nat): (r: seq<Node>)
    ensures |r| == |nodes|
  {
    if fs == [] then nodes
    else
      var prev := BindFields(nodes, cls, Front(fs), n);
      var f := Last(fs);
      var w := WrapperOf(cls, f);
      if !IsDunder(f) && w.Some? && w.value < |prev| then prev[w.value := Bound(prev[w.value], w.value, f, n)]
      else prev
  }

  /** The `add_parser` arguments the register loop collects: the field name
      with `_` replaced by `-`, and the child wrapper. */
  function SubparserArgs(cls: SchemaClass, fs: seq<string>): seq<(string, nat)>
  {
    if fs == [] then []
    else
      var f := Last(fs);
      var w := WrapperOf(cls, f);
      SubparserArgs(cls, Front(fs)) + (if !IsDunder(f) && w.Some? then [(Replace(f, '_', '-'), w.value)] else [])
  }

  /** The `add_argument` arguments the register loop collects, or the first
      error `_prepare_arg` raises. */
  function ArgSpecsFor(cls: SchemaClass, fs: seq<string>): Result<seq<ArgSpec>, BuildError>
  {
    if fs == [] then Ok([])
    else
      var prev := ArgSpecsFor(cls, Front(fs));
      var f := Last(fs);
      if prev.Err? || IsDunder(f) || WrapperOf(cls, f).Some? then prev
      else match ArgSpecOf(cls, f)
        case Err(e) => Err(e)
        case Ok(spec) => Ok(prev.value + [spec])
  }

  /** One more field of the register loop, on each of the three results. */
  lemma FieldStep(arena: seq<Node>, cls: SchemaClass, fs: seq<string>, f: string, n: nat)
    ensures var prev, w := BindFields(arena, cls, fs, n), WrapperOf(cls, f);
      BindFields(arena, cls, fs + [f], n) ==
        if !IsDunder(f) && w.Some? && w.value < |prev| then prev[w.value := Bound(prev[w.value], w.value, f, n)] else prev
    ensures SubparserArgs(cls, fs + [f]) ==
      SubparserArgs(cls, fs) + (if !IsDunder(f) && WrapperOf(cls, f).Some? then [(Replace(f, '_', '-'), WrapperOf(cls, f).value)] else [])
    ensures var prev := ArgSpecsFor(cls, fs);
      ArgSpecsFor(cls, fs + [f]) ==
        if prev.Err? || IsDunder(f) || WrapperOf(cls, f).Some? then prev
        else match ArgSpecOf(cls, f)
          case Err(e) => Err(e)
          case Ok(spec) => Ok(prev.value + [spec])
  {
    FrontLastOfSnoc(fs, f);
  }

  function AddParserCalls(subs: seq<(string, nat)>): seq<ParserCall>
  {
    if subs == [] then [] else AddParserCalls(Front(subs)) + [AddParser(Last(subs).0, Last(subs).1)]
  }

  function AddArgumentCalls(specs: seq<ArgSpec>): seq<ParserCall>
  {
    if specs == [] then [] else AddArgumentCalls(Front(specs)) + [AddArgument(Last(specs))]
  }

  /** `set_defaults(**defaults, _namespace_wrapper_bind_name=None, _namespace_wrapper_instance=self)` */
  function InitialDefaults(options: NamespaceOptions, n: nat): map<string, Value>
  {
    options.defaults + map[BindKey := VNone, InstanceKey := VWrapper(n)]
  }

  /** The calls `_register_namespace` makes on the parser: subparsers
      (created once) and one parser per wrapper field, then the arguments. */
  function RegisterTail(subs: seq<(string, nat)>, specs: seq<ArgSpec>): seq<ParserCall>
  {
    (if subs != [] then [AddSubparsers] else []) + AddParserCalls(subs) + AddArgumentCalls(specs)
  }

  /** The calls a registered wrapper's parser has received. */
  function RegisterLog(options: NamespaceOptions, n: nat, subs: seq<(string, nat)>, specs: seq<ArgSpec>): seq<ParserCall>
  {
    [SetDefaults(InitialDefaults(options, n))] + RegisterTail(subs, specs)
  }

  function NewNode(cls: SchemaClass, options: NamespaceOptions, n: nat): Node
  {
    Node(cls, Fields(cls), options.defaultKeys, options.prefixChars, None, None, false,
         [SetDefaults(InitialDefaults(options, n))])
  }

  /** Replacing one wrapper by one that keeps its invariant and links
      upward keeps the arena's invariant. */
  lemma ArenaUpdate(nodes: seq<Node>, n: nat, nd: Node)
    requires ArenaOk(nodes) && n < |nodes| && NodeOk(nd, n)
    requires nd.parent.Some? ==> n < nd.parent.value < |nodes|
    ensures ArenaOk(nodes[n := nd])
  {
    var r := nodes[n := nd];
    forall i | 0 <= i < |r| ensures NodeOk(r[i], i) {
      if i != n {
        assert r[i] == nodes[i];
      }
    }
  }

  lemma AddParserCallsSnoc(subs: seq<(string, nat)>, s: (string, nat))
    ensures AddParserCalls(subs + [s]) == AddParserCalls(subs) + [AddParser(s.0, s.1)]
  {
    FrontLastOfSnoc(subs, s);
  }

  /** One more `add_parser` on the subparsers object, created on first use. */
  lemma ParsersStep(start: Node, before: Node, withSubparsers: Node, after: Node, subs: seq<(string, nat)>, j: nat)
    requires j < |subs| && !start.hasSubparsers
    requires before == start.(hasSubparsers := j > 0,
      log := start.log + (if j > 0 then [AddSubparsers] else []) + AddParserCalls(subs[..j]))
    requires withSubparsers == before.(hasSubparsers := true,
      log := before.log + (if before.hasSubparsers then [] else [AddSubparsers]))
    requires after == withSubparsers.(log := withSubparsers.log + [AddParser(subs[j].0, subs[j].1)])
    ensures after == start.(hasSubparsers := true, log := start.log + [AddSubparsers] + AddParserCalls(subs[..j + 1]))
  {
    TakeSnoc(subs, j);
    AddParserCallsSnoc(subs[..j], subs[j]);
    if j == 0 {
      assert subs[..0] == [];
    }
  }

  lemma TakeSnoc<T>(s: seq<T>, j: nat)
    requires j < |s|
    ensures s[..j + 1] == s[..j] + [s[j]]
  {
  }

  lemma AddArgumentCallsSnoc(specs: seq<ArgSpec>, spec: ArgSpec)
    ensures AddArgumentCalls(specs + [spec]) == AddArgumentCalls(specs) + [AddArgument(spec)]
  {
    FrontLastOfSnoc(specs, spec);
  }

  lemma NewNodeOk(cls: SchemaClass, options: NamespaceOptions, n: nat)
    ensures NodeOk(NewNode(cls, options, n), n)
  {
    var m := InitialDefaults(options, n);
    DefaultsOfOne(m);
    KeysDiffer();
    assert m[BindKey] == VNone && m[InstanceKey] == VWrapper(n);
  }

  lemma DefaultsOfOne(m: map<string, Value>)
    ensures DefaultsOf([SetDefaults(m)]) == m
  {
    LogSnoc([], SetDefaults(m));
    assert [] + [SetDefaults(m)] == [SetDefaults(m)];
    assert map[] + m == m;
  }

  lemma KeysDiffer()
    ensures BindKey != InstanceKey
  {
    assert |BindKey| != |InstanceKey|;
  }

  /** Binding sets both hidden defaults, whatever the log held before. */
  lemma BoundDefaults(nd: Node, id: nat, name: string, parent: nat)
    ensures GetDefault(Bound(nd, id, name, parent).log, BindKey) == VStr(name)
    ensures GetDefault(Bound(nd, id, name, parent).log, InstanceKey) == VWrapper(id)
  {
    LogSnoc(nd.log, SetDefaults(map[BindKey := VStr(name), InstanceKey := VWrapper(id)]));
    KeysDiffer();
  }

  /** An unbound wrapper that keeps its own invariant can join the arena. */
  lemma ArenaSnoc(nodes: seq<Node>, nd: Node)
    requires ArenaOk(nodes) && NodeOk(nd, |nodes|) && nd.parent.None?
    ensures ArenaOk(nodes + [nd])
  {
    var r := nodes + [nd];
    forall i | 0 <= i < |r| ensures NodeOk(r[i], i) {
      if i < |nodes| {
        assert r[i] == nodes[i];
      }
    }
  }

  /** Opening the subparsers and adding the parsers, then adding the
      arguments, gives the register tail. */
  lemma RegisterTailComposes(nd: Node, subs: seq<(string, nat)>, specs: seq<ArgSpec>)
    ensures var withParsers := nd.(hasSubparsers := subs != [],
                              log := nd.log + (if subs != [] then [AddSubparsers] else []) + AddParserCalls(subs));
      withParsers.(log := withParsers.log + AddArgumentCalls(specs)) ==
        nd.(hasSubparsers := subs != [], log := nd.log + RegisterTail(subs, specs))
  {
  }

  lemma UpdateTwice<T>(a: seq<T>, b: seq<T>, c: seq<T>, n: nat)
    requires n < |a| == |b| == |c| && b == a[n := b[n]] && c == b[n := c[n]]
    ensures c[..n] == a[..n] && c == a[n := c[n]]
  {
  }

  function RegisteredNode(cls: SchemaClass, options: NamespaceOptions, n: nat, subs: seq<(string, nat)>, specs: seq<ArgSpec>): Node
  {
    NewNode(cls, options, n).(hasSubparsers := subs != [], log := RegisterLog(options, n, subs, specs))
  }

  // ---------------------------------------------------------------------
  // Reconstruction in parse_args

  /** An instance built by `parse_args`: its class and the attributes set on it. */
  datatype Instance = Instance(typeName: string, attrs: map<string, Field>)
  datatype Field = Plain(v: Value) | Nested(inst: Instance)

  /** Why `parse_args` failed after argparse returned: a name missing from
      the flat result (`getattr(parse_result, name)`), a schema class that
      cannot be built with no arguments (`ns_type()` of a class whose
      `__init__` needs arguments raises TypeError), or a `setattr` the
      instance refuses (`__slots__` without the name, a frozen dataclass). */
  datatype ParseError =
    | AttributeError(name: string)
    | InstantiationFailed(typeName: string)
    | SetAttrFailed(typeName: string, attr: string)

  /** How the schema classes, by name, behave when `parse_args` builds
      instances of them: whether `cls()` succeeds, and whether `setattr` of
      a given name on an instance succeeds. */
  datatype Objects = Objects(instantiates: string -> bool, settable: (string, string) -> bool)

  /** The flat result argparse produces always carries the two hidden
      defaults the root stamped (a subparser's own defaults replace them). */
  predicate FlatOk(flat: map<string, Value>, size: nat)
  {
    && InstanceKey in flat && flat[InstanceKey].VWrapper? && flat[InstanceKey].id < size
    && BindKey in flat && (flat[BindKey].VNone? || flat[BindKey].VStr?)
  }

  /** The skip test of the copy loop. */
  predicate SkipName(nd: Node, isSelf: bool, name: string)
  {
    && isSelf
    && nd.hasSubparsers
    && ((exists j :: 0 <= j < |nd.prefixChars| && Replace(name, '_', nd.prefixChars[j]) in Choices(nd.log))
        || name in Choices(nd.log))
  }

  /** The copy loop: every name not skipped is read from the flat result
      and set on the new instance; the first name that is neither skipped
      nor present is an AttributeError, and the first present one the
      instance refuses is a `setattr` error. */
  function CopyFields(nd: Node, isSelf: bool, names: seq<string>, flat: map<string, Value>, objs: Objects)
    : Result<map<string, Field>, ParseError>
  {
    if names == [] then Ok(map[])
    else
      var f := Last(names);
      var prev := CopyFields(nd, isSelf, Front(names), flat, objs);
      if prev.Err? || SkipName(nd, isSelf, f) then prev
      else if f !in flat then Err(AttributeError(f))
      else if !objs.settable(nd.nsType.name, f) then Err(SetAttrFailed(nd.nsType.name, f))
      else Ok(prev.value[f := Plain(flat[f])])
  }

  /** A name the copy loop gets through: skipped, or present and settable. */
  predicate Copyable(nd: Node, isSelf: bool, flat: map<string, Value>, objs: Objects, k: string)
  {
    SkipName(nd, isSelf, k) || (k in flat && objs.settable(nd.nsType.name, k))
  }

  /** The copy succeeds exactly when every name is skipped, or present and
      settable; the instance then holds exactly the names not skipped, with
      their flat values; otherwise the error is that of the first name that
      is neither: AttributeError when it is missing, else the `setattr`
      error. */
  lemma CopyFieldsSpec(nd: Node, isSelf: bool, names: seq<string>, flat: map<string, Value>, objs: Objects)
    ensures var r := CopyFields(nd, isSelf, names, flat, objs);
      r.Ok? <==> forall k :: k in names ==> Copyable(nd, isSelf, flat, objs, k)
    ensures var r := CopyFields(nd, isSelf, names, flat, objs);
      r.Ok? ==> forall k :: k in r.value <==> k in names && !SkipName(nd, isSelf, k)
    ensures var r := CopyFields(nd, isSelf, names, flat, objs);
      r.Ok? ==> forall k :: k in r.value ==> r.value[k] == Plain(flat[k])
    ensures var r := CopyFields(nd, isSelf, names, flat, objs);
      r.Err? ==>
        exists i ::
          && 0 <= i < |names|
          && !Copyable(nd, isSelf, flat, objs, names[i])
          && r.error == (if names[i] !in flat then AttributeError(names[i]) else SetAttrFailed(nd.nsType.name, names[i]))
          && forall j :: 0 <= j < i ==> Copyable(nd, isSelf, flat, objs, names[j])
  {
    CopyFieldsOk(nd, isSelf, names, flat, objs);
    CopyFieldsErr(nd, isSelf, names, flat, objs);
  }

  lemma CopyFieldsOk(nd: Node, isSelf: bool, names: seq<string>, flat: map<string, Value>, objs: Objects)
    ensures var r := CopyFields(nd, isSelf, names, flat, objs);
      r.Ok? <==> forall k :: k in names ==> Copyable(nd, isSelf, flat, objs, k)
    ensures var r := CopyFields(nd, isSelf, names, flat, objs);
      r.Ok? ==> forall k :: k in r.value <==> k in names && !SkipName(nd, isSelf, k)
    ensures var r := CopyFields(nd, isSelf, names, flat, objs);
      r.Ok? ==> forall k :: k in r.value ==> r.value[k] == Plain(flat[k])
  {
    CopyFieldsOkIff(nd, isSelf, names, flat, objs);
    if CopyFields(nd, isSelf, names, flat, objs).Ok? {
      CopyFieldsKeys(nd, isSelf, names, flat, objs);
    }
  }

  lemma {:induction false} CopyFieldsOkIff(nd: Node, isSelf: bool, names: seq<string>, flat: map<string, Value>, objs: Objects)
    ensures CopyFields(nd, isSelf, names, flat, objs).Ok? <==> forall k :: k in names ==> Copyable(nd, isSelf, flat, objs, k)
  {
    if names != [] {
      var front := Front(names);
      var f := Last(names);
      CopyFieldsOkIff(nd, isSelf, front, flat, objs);
      FrontLast(names);
      CopyFieldsSnoc(nd, isSelf, front, f, flat, objs);
      assert forall k :: k in names <==> k in front || k == f;
      if CopyFields(nd, isSelf, names, flat, objs).Ok? {
        assert CopyFields(nd, isSelf, front, flat, objs).Ok?;
        assert Copyable(nd, isSelf, flat, objs, f);
      } else if CopyFields(nd, isSelf, front, flat, objs).Ok? {
        assert !Copyable(nd, isSelf, flat, objs, f) && f in names;
      } else {
        var k :| k in front && !Copyable(nd, isSelf, flat, objs, k);
        assert k in names;
      }
    }
  }

  lemma {:induction false} CopyFieldsKeys(nd: Node, isSelf: bool, names: seq<string>, flat: map<string, Value>, objs: Objects)
    requires CopyFields(nd, isSelf, names, flat, objs).Ok?
    ensures forall k :: k in CopyFields(nd, isSelf, names, flat, objs).value <==> k in names && !SkipName(nd, isSelf, k)
    ensures forall k :: k in CopyFields(nd, isSelf, names, flat, objs).value ==>
      k in flat && CopyFields(nd, isSelf, names, flat, objs).value[k] == Plain(flat[k])
  {
    if names != [] {
      var front := Front(names);
      CopyFieldsKeys(nd, isSelf, front, flat, objs);
      FrontLast(names);
      CopyFieldsSnoc(nd, isSelf, front, Last(names), flat, objs);
      assert forall k :: k in names <==> k in front || k == Last(names);
    }
  }

  lemma {:induction false} CopyFieldsErr(nd: Node, isSelf: bool, names: seq<string>, flat: map<string, Value>, objs: Objects)
    ensures var r := CopyFields(nd, isSelf, names, flat, objs);
      r.Err? ==>
        exists i ::
          && 0 <= i < |names|
          && !Copyable(nd, isSelf, flat, objs, names[i])
          && r.error == (if names[i] !in flat then AttributeError(names[i]) else SetAttrFailed(nd.nsType.name, names[i]))
          && forall j :: 0 <= j < i ==> Copyable(nd, isSelf, flat, objs, names[j])
  {
    if names != [] {
      var front := Front(names);
      var f := Last(names);
      CopyFieldsErr(nd, isSelf, front, flat, objs);
      FrontLast(names);
      var prev := CopyFields(nd, isSelf, front, flat, objs);
      assert forall j :: 0 <= j < |front| ==> names[j] == front[j];
      if prev.Ok? && !Copyable(nd, isSelf, flat, objs, f) {
        CopyFieldsOkIff(nd, isSelf, front, flat, objs);
        assert forall j :: 0 <= j < |front| ==> front[j] in front;
        assert names[|front|] == f;
      }
    }
  }

  /** The `while` walk up the parent chain, wrapping the instance once per level. */
  function WrapUp(nodes: seq<Node>, m: nat, bind: Option<string>, inst: Instance): Instance
    requires m < |nodes| && Linked(nodes)
    decreases |nodes| - m
  {
    if bind.Some? && nodes[m].parent.Some? then
      var p := nodes[m].parent.value;
      WrapUp(nodes, p, AsBindName(GetDefault(nodes[p].log, BindKey)),
             Instance(nodes[p].nsType.name, map[bind.value := Nested(inst)]))
    else inst
  }

  /** The first failure of the walk up the parent chain: a parent class
      that cannot be instantiated, or one whose instance refuses the bind
      name; None when every level goes through. */
  function WalkError(nodes: seq<Node>, m: nat, bind: Option<string>, objs: Objects): Option<ParseError>
    requires m < |nodes| && Linked(nodes)
    decreases |nodes| - m
  {
    if bind.Some? && nodes[m].parent.Some? then
      var p := nodes[m].parent.value;
      var name := nodes[p].nsType.name;
      if !objs.instantiates(name) then Some(InstantiationFailed(name))
      else if !objs.settable(name, bind.value) then Some(SetAttrFailed(name, bind.value))
      else WalkError(nodes, p, AsBindName(GetDefault(nodes[p].log, BindKey)), objs)
    else None
  }

  /** What `parse_args` returns for the flat result argparse produced:
      instantiate the matched wrapper's class, copy its fields, then wrap
      the instance once per ancestor. */
  function Reconstruct(nodes: seq<Node>, self: nat, flat: map<string, Value>, objs: Objects): Result<Instance, ParseError>
    requires Linked(nodes) && self < |nodes| && FlatOk(flat, |nodes|)
  {
    var m := flat[InstanceKey].id;
    var nd := nodes[m];
    var bind := AsBindName(flat[BindKey]);
    if !objs.instantiates(nd.nsType.name) then Err(InstantiationFailed(nd.nsType.name))
    else match CopyFields(nd, m == self, nd.attrnames + nd.defaultKeys, flat, objs)
    case Err(e) => Err(e)
    case Ok(attrs) =>
      match WalkError(nodes, m, bind, objs)
      case Some(e) => Err(e)
      case None => Ok(WrapUp(nodes, m, bind, Instance(nd.nsType.name, attrs)))
  }

  // ---------------------------------------------------------------------
  // The wrappers themselves

  /** The copy loop of `parse_args`: `setattr(ns, name, getattr(parse_result, name))`
      for every name not skipped. */
  lemma CopyFieldsSnoc(nd: Node, isSelf: bool, names: seq<string>, f: string, flat: map<string, Value>, objs: Objects)
    ensures var prev := CopyFields(nd, isSelf, names, flat, objs);
      CopyFields(nd, isSelf, names + [f], flat, objs) ==
        if prev.Err? || SkipName(nd, isSelf, f) then prev
        else if f !in flat then Err(AttributeError(f))
        else if !objs.settable(nd.nsType.name, f) then Err(SetAttrFailed(nd.nsType.name, f))
        else Ok(prev.value[f := Plain(flat[f])])
  {
    FrontLastOfSnoc(names, f);
  }

  method CopyAttrs(nd: Node, isSelf: bool, names: seq<string>, flat: map<string, Value>, objs: Objects)
    returns (r: Result<map<string, Field>, ParseError>)
    ensures r == CopyFields(nd, isSelf, names, flat, objs)
  {
    var attrs: map<string, Field> := map[];
    var i := 0;
    while i < |names|
      invariant 0 <= i <= |names|
      invariant CopyFields(nd, isSelf, names[..i], flat, objs) == Ok(attrs)
    {
      var name := names[i];
      assert CopyFields(nd, isSelf, names[..i + 1], flat, objs) ==
        if SkipName(nd, isSelf, name) then Ok(attrs)
        else if name !in flat then Err(AttributeError(name))
        else if !objs.settable(nd.nsType.name, name) then Err(SetAttrFailed(nd.nsType.name, name))
        else Ok(attrs[name := Plain(flat[name])])
      by {
        assert names[..i + 1] == names[..i] + [name];
        CopyFieldsSnoc(nd, isSelf, names[..i], name, flat, objs);
      }
      if SkipName(nd, isSelf, name) {
        i := i + 1;
        continue;
      }
      if name !in flat || !objs.settable(nd.nsType.name, name) {
        var e := if name !in flat then AttributeError(name) else SetAttrFailed(nd.nsType.name, name);
        assert CopyFields(nd, isSelf, names, flat, objs) == Err(e) by {
          assert names == names[..i + 1] + names[i + 1..];
          CopyFieldsErrSticks(nd, isSelf, names[..i + 1], names[i + 1..], flat, objs);
        }
        return Err(e);
      }
      attrs := attrs[name := Plain(flat[name])];
      i := i + 1;
    }
    assert names[..i] == names;
    r := Ok(attrs);
  }

  class Registry {
    var nodes: seq<Node>

    ghost predicate Valid()
      reads this
    {
      ArenaOk(nodes)
    }

    constructor()
      ensures Valid() && nodes == []
    {
      nodes := [];
    }

    /** `_bind(bindname, parent)` on wrapper `child`. */
    method Bind(child: nat, name: string, parent: nat)
      requires Valid() && child < parent < |nodes|
      modifies this
      ensures Valid()
      ensures nodes == old(nodes)[child := Bound(old(nodes)[child], child, name, parent)]
    {
      assert NodeOk(nodes[child], child);
      var nd := nodes[child];
      var call := SetDefaults(map[BindKey := VStr(name), InstanceKey := VWrapper(child)]);
      LogSnoc(nd.log, call);
      assert NodeOk(Bound(nd, child, name, parent), child);
      ArenaUpdate(nodes, child, Bound(nd, child, name, parent));
      nodes := nodes[child := Bound(nd, child, name, parent)];
    }

    /** `_prepare_subparser(attrname, inst)`: binds the child wrapper to
        wrapper `n` and returns the `add_parser` arguments. */
    method PrepareSubparser(n: nat, attrname: string, child: nat) returns (args: (string, nat))
      requires Valid() && child < n < |nodes|
      modifies this
      ensures Valid()
      ensures nodes == old(nodes)[child := Bound(old(nodes)[child], child, attrname, n)]
      ensures args == (Replace(attrname, '_', '-'), child)
    {
      Bind(child, attrname, n);
      args := (Replace(attrname, '_', '-'), child);
    }

    /** Appends a call that neither sets defaults nor creates subparsers. */
    method Record(n: nat, call: ParserCall)
      requires Valid() && n < |nodes|
      requires !call.SetDefaults? && !call.AddSubparsers?
      modifies this
      ensures Valid()
      ensures nodes == old(nodes)[n := old(nodes)[n].(log := old(nodes)[n].log + [call])]
    {
      var nd := nodes[n];
      assert NodeOk(nd, n);
      LogSnoc(nd.log, call);
      ArenaUpdate(nodes, n, nd.(log := nd.log + [call]));
      nodes := nodes[n := nd.(log := nd.log + [call])];
    }

    /** `get_or_create_subparsers()`: creates the subparsers object the
        first time only. */
    method GetOrCreateSubparsers(n: nat)
      requires Valid() && n < |nodes|
      modifies this
      ensures Valid()
      ensures nodes == old(nodes)[n := old(nodes)[n].(
        hasSubparsers := true,
        log := old(nodes)[n].log + (if old(nodes)[n].hasSubparsers then [] else [AddSubparsers]))]
    {
      assert NodeOk(nodes[n], n);
      var nd := nodes[n];
      if nd.hasSubparsers {
        assert nd.log + [] == nd.log;
        assert nodes == nodes[n := nd];
        return;
      }
      LogSnoc(nd.log, AddSubparsers);
      ArenaUpdate(nodes, n, nd.(hasSubparsers := true, log := nd.log + [AddSubparsers]));
      nodes := nodes[n := nd.(hasSubparsers := true, log := nd.log + [AddSubparsers])];
    }

    /** `for args, kwargs in add_subparser_args: get_or_create_subparsers().add_parser(...)` */
    method AddParsers(n: nat, subs: seq<(string, nat)>)
      requires Valid() && n < |nodes| && !nodes[n].hasSubparsers
      modifies this
      ensures Valid()
      ensures nodes == old(nodes)[n := old(nodes)[n].(
        hasSubparsers := subs != [],
        log := old(nodes)[n].log + (if subs != [] then [AddSubparsers] else []) + AddParserCalls(subs))]
    {
      ghost var start := nodes[n];
      var j := 0;
      while j < |subs|
        invariant 0 <= j <= |subs|
        invariant Valid() && |nodes| == |old(nodes)|
        invariant nodes == old(nodes)[n := nodes[n]]
        invariant nodes[n] == start.(
          hasSubparsers := j > 0,
          log := start.log + (if j > 0 then [AddSubparsers] else []) + AddParserCalls(subs[..j]))
      {
        ghost var before := nodes;
        GetOrCreateSubparsers(n);
        ghost var withSubparsers := nodes;
        Record(n, AddParser(subs[j].0, subs[j].1));
        UpdateTwice(before, withSubparsers, nodes, n);
        UpdateTwice(old(nodes), before, nodes, n);
        ParsersStep(start, before[n], withSubparsers[n], nodes[n], subs, j);
        j := j + 1;
      }
      assert subs[..j] == subs;
    }

    /** `for args, kwargs in add_argument_args: self.parser.add_argument(...)` */
    method AddArguments(n: nat, specs: seq<ArgSpec>)
      requires Valid() && n < |nodes|
      modifies this
      ensures Valid()
      ensures nodes == old(nodes)[n := old(nodes)[n].(log := old(nodes)[n].log + AddArgumentCalls(specs))]
    {
      ghost var start := nodes[n];
      var k := 0;
      while k < |specs|
        invariant 0 <= k <= |specs|
        invariant Valid() && |nodes| == |old(nodes)|
        invariant nodes == old(nodes)[n := nodes[n]]
        invariant nodes[n] == start.(log := start.log + AddArgumentCalls(specs[..k]))
      {
        ghost var before := nodes;
        Record(n, AddArgument(specs[k]));
        UpdateTwice(old(nodes), before, nodes, n);
        assert specs[..k + 1] == specs[..k] + [specs[k]];
        AddArgumentCallsSnoc(specs[..k], specs[k]);
        k := k + 1;
      }
      assert specs[..k] == specs;
    }

    /** One pass of the register loop: a dunder field is skipped, a wrapper
        field is bound and gives `add_parser` arguments, any other field
        gives an `add_argument` spec or the error `_prepare_arg` raises. */
    method PrepareField(n: nat, f: string, ghost arena: seq<Node>, ghost done: seq<string>,
                        subs: seq<(string, nat)>, specs: seq<ArgSpec>)
      returns (nextSubs: seq<(string, nat)>, nextSpecs: seq<ArgSpec>, err: Option<BuildError>)
      requires Valid() && n + 1 == |nodes|
      requires var cls := nodes[n].nsType;
        forall g :: g in cls.dict && cls.dict[g].VWrapper? ==> cls.dict[g].id < n
      requires nodes[..n] == BindFields(arena, nodes[n].nsType, done, n)
      requires subs == SubparserArgs(nodes[n].nsType, done) && ArgSpecsFor(nodes[n].nsType, done) == Ok(specs)
      modifies this
      ensures Valid() && |nodes| == n + 1 && nodes[n] == old(nodes[n])
      ensures var cls := nodes[n].nsType;
        err.None? ==>
          && nodes[..n] == BindFields(arena, cls, done + [f], n)
          && nextSubs == SubparserArgs(cls, done + [f])
          && ArgSpecsFor(cls, done + [f]) == Ok(nextSpecs)
      ensures err.Some? ==> nodes == old(nodes) && ArgSpecsFor(nodes[n].nsType, done + [f]) == Err(err.value)
    {
      var cls := nodes[n].nsType;
      FieldStep(arena, cls, done, f, n);
      nextSubs, nextSpecs, err := subs, specs, None;
      if IsDunder(f) {
        return;
      }
      var inst := cls.ClassAttr(f);
      if inst.VWrapper? {
        assert f in cls.dict;
        ghost var before := nodes;
        var args := PrepareSubparser(n, f, inst.id);
        assert nodes[..n] == before[..n][inst.id := Bound(before[inst.id], inst.id, f, n)];
        nextSubs := subs + [args];
      } else {
        var spec := PrepareArg(cls, f);
        if spec.Err? {
          err := Some(spec.error);
          return;
        }
        nextSpecs := specs + [spec.value];
      }
    }

    /** The loop of `_register_namespace` over the fields of the newest
        wrapper `n`: a wrapper field is bound to `n` and collected for
        `add_parser`, any other field is prepared for `add_argument`; the
        first preparation error stops the loop. */
    method PrepareFields(n: nat) returns (subs: seq<(string, nat)>, specs: seq<ArgSpec>, err: Option<BuildError>)
      requires Valid() && n + 1 == |nodes|
      requires var cls := nodes[n].nsType;
        forall f :: f in cls.dict && cls.dict[f].VWrapper? ==> cls.dict[f].id < n
      modifies this
      ensures Valid() && |nodes| == n + 1 && nodes[n] == old(nodes[n])
      ensures var cls, fields := nodes[n].nsType, nodes[n].attrnames;
        err.None? ==>
          && nodes[..n] == BindFields(old(nodes[..n]), cls, fields, n)
          && subs == SubparserArgs(cls, fields)
          && ArgSpecsFor(cls, fields) == Ok(specs)
      ensures var cls, fields := nodes[n].nsType, nodes[n].attrnames;
        err.Some? ==>
          exists k :: 0 <= k < |fields| &&
            ArgSpecsFor(cls, fields[..k]).Ok? && ArgSpecsFor(cls, fields[..k + 1]) == Err(err.value) &&
            nodes[..n] == BindFields(old(nodes[..n]), cls, fields[..k], n)
    {
      var cls := nodes[n].nsType;
      var fields := nodes[n].attrnames;
      ghost var arena := nodes[..n];
      ghost var self := nodes[n];
      subs, specs := [], [];
      var i := 0;
      while i < |fields|
        invariant 0 <= i <= |fields|
        invariant Valid()
        invariant |nodes| == n + 1 && nodes[n] == self
        invariant nodes[..n] == BindFields(arena, cls, fields[..i], n)
        invariant subs == SubparserArgs(cls, fields[..i])
        invariant ArgSpecsFor(cls, fields[..i]) == Ok(specs)
      {
        assert fields[..i + 1] == fields[..i] + [fields[i]];
        var e;
        subs, specs, e := PrepareField(n, fields[i], arena, fields[..i], subs, specs);
        if e.Some? {
          return subs, specs, e;
        }
        i := i + 1;
      }
      assert fields[..i] == fields;
      err := None;
    }

    /** `_register_namespace` of the newest wrapper `n`: the field loop,
        then the subparsers, then the arguments. */
    method RegisterNamespace(n: nat) returns (err: Option<BuildError>)
      requires Valid() && n + 1 == |nodes| && !nodes[n].hasSubparsers
      requires var cls := nodes[n].nsType;
        forall f :: f in cls.dict && cls.dict[f].VWrapper? ==> cls.dict[f].id < n
      modifies this
      ensures Valid() && |nodes| == n + 1
      ensures var cls, fields := old(nodes[n].nsType), old(nodes[n].attrnames);
        err.None? ==>
          && ArgSpecsFor(cls, fields).Ok?
          && nodes[..n] == BindFields(old(nodes[..n]), cls, fields, n)
          && nodes[n] == old(nodes[n]).(
               hasSubparsers := SubparserArgs(cls, fields) != [],
               log := old(nodes[n].log) + RegisterTail(SubparserArgs(cls, fields), ArgSpecsFor(cls, fields).value))
      ensures var cls, fields := old(nodes[n].nsType), old(nodes[n].attrnames);
        err.Some? ==>
          exists k :: 0 <= k < |fields| &&
            ArgSpecsFor(cls, fields[..k]).Ok? && ArgSpecsFor(cls, fields[..k + 1]) == Err(err.value) &&
            nodes[..n] == BindFields(old(nodes[..n]), cls, fields[..k], n) && nodes[n] == old(nodes[n])
    {
      ghost var cls, fields, self := nodes[n].nsType, nodes[n].attrnames, nodes[n];
      var subs, specs, e := PrepareFields(n);
      if e.Some? {
        return e;
      }
      assert subs == SubparserArgs(cls, fields) && ArgSpecsFor(cls, fields) == Ok(specs);
      ghost var bound := nodes;
      AddParsers(n, subs);
      ghost var parsers := nodes;
      AddArguments(n, specs);
      UpdateTwice(bound, parsers, nodes, n);
      RegisterTailComposes(self, subs, specs);
      err := None;
    }

    /** The new wrapper's parser, with the hidden defaults stamped, takes
        the next index. */
    method AddNode(cls: SchemaClass, options: NamespaceOptions) returns (n: nat)
      requires Valid()
      modifies this
      ensures Valid() && n == |old(nodes)| && nodes == old(nodes) + [NewNode(cls, options, n)]
    {
      n := |nodes|;
      var nd := NewNode(cls, options, n);
      NewNodeOk(cls, options, n);
      ArenaSnoc(nodes, nd);
      nodes := nodes + [nd];
    }

    /** `NamespaceWrapper(ns_type, options)`: stamps the hidden defaults on
        the parser (a clash with `options['defaults']` is a TypeError) and
        registers the class. The new wrapper gets the next index. */
    method Namespace(cls: SchemaClass, options: NamespaceOptions) returns (r: Result<nat, BuildError>)
      requires Valid()
      requires forall f :: f in cls.dict && cls.dict[f].VWrapper? ==> cls.dict[f].id < |nodes|
      modifies this
      ensures Valid()
      ensures BindKey in options.defaults ==> r == Err(DuplicateKeyword(BindKey)) && nodes == old(nodes)
      ensures BindKey !in options.defaults && InstanceKey in options.defaults ==>
        r == Err(DuplicateKeyword(InstanceKey)) && nodes == old(nodes)
      ensures r.Ok? ==>
        && r.value == |old(nodes)|
        && ArgSpecsFor(cls, Fields(cls)).Ok?
        && nodes == BindFields(old(nodes), cls, Fields(cls), |old(nodes)|)
             + [RegisteredNode(cls, options, |old(nodes)|, SubparserArgs(cls, Fields(cls)), ArgSpecsFor(cls, Fields(cls)).value)]
      ensures r.Err? && BindKey !in options.defaults && InstanceKey !in options.defaults ==>
        exists k :: 0 <= k < |Fields(cls)| &&
          ArgSpecsFor(cls, Fields(cls)[..k]).Ok? && ArgSpecsFor(cls, Fields(cls)[..k + 1]) == Err(r.error) &&
          nodes == BindFields(old(nodes), cls, Fields(cls)[..k], |old(nodes)|) + [NewNode(cls, options, |old(nodes)|)]
    {
      if BindKey in options.defaults {
        return Err(DuplicateKeyword(BindKey));
      }
      if InstanceKey in options.defaults {
        return Err(DuplicateKeyword(InstanceKey));
      }
      var n := AddNode(cls, options);
      assert nodes[..n] == old(nodes);
      var err := RegisterNamespace(n);
      FrontLast(nodes);
      if err.Some? {
        return Err(err.value);
      }
      r := Ok(n);
    }

    /** `parse_args`, from the flat result on: instantiate the matched
        wrapper's class, copy its fields, then wrap it once per ancestor. */
    method ParseArgs(self: nat, flat: map<string, Value>, objs: Objects) returns (r: Result<Instance, ParseError>)
      requires Valid() && self < |nodes| && FlatOk(flat, |nodes|)
      ensures r == Reconstruct(nodes, self, flat, objs)
    {
      var m := flat[InstanceKey].id;
      var bindName := AsBindName(flat[BindKey]);
      var nd := nodes[m];
      if !objs.instantiates(nd.nsType.name) {
        return Err(InstantiationFailed(nd.nsType.name));
      }
      var copied := CopyAttrs(nd, m == self, nd.attrnames + nd.defaultKeys, flat, objs);
      if copied.Err? {
        return Err(copied.error);
      }
      var cur := m;
      var inst := Instance(nd.nsType.name, copied.value);
      while bindName.Some? && nodes[cur].parent.Some?
        invariant cur < |nodes|
        invariant WalkError(nodes, cur, bindName, objs) == WalkError(nodes, m, AsBindName(flat[BindKey]), objs)
        invariant WrapUp(nodes, cur, bindName, inst) == WrapUp(nodes, m, AsBindName(flat[BindKey]), Instance(nd.nsType.name, copied.value))
        decreases |nodes| - cur
      {
        var p := nodes[cur].parent.value;
        var name := nodes[p].nsType.name;
        if !objs.instantiates(name) {
          return Err(InstantiationFailed(name));
        }
        if !objs.settable(name, bindName.value) {
          return Err(SetAttrFailed(name, bindName.value));
        }
        var newInst := Instance(name, map[bindName.value := Nested(inst)]);
        bindName := AsBindName(GetDefault(nodes[p].log, BindKey));
        cur := p;
        inst := newInst;
      }
      r := Ok(inst);
    }
  }

  /** Once the copy fails, it fails the same way whatever follows. */
  lemma {:induction false} CopyFieldsErrSticks(nd: Node, isSelf: bool, names: seq<string>, rest: seq<string>, flat: map<string, Value>, objs: Objects)
    requires CopyFields(nd, isSelf, names, flat, objs).Err?
    ensures CopyFields(nd, isSelf, names + rest, flat, objs) == CopyFields(nd, isSelf, names, flat, objs)
    decreases |rest|
  {
    if rest == [] {
      assert names + rest == names;
    } else {
      CopyFieldsErrSticks(nd, isSelf, names, Front(rest), flat, objs);
      assert names + rest == (names + Front(rest)) + [Last(rest)];
      FrontLastOfSnoc(names + Front(rest), Last(rest));
    }
  }
}
