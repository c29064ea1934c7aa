/** `Repr.__repr__` (core/mixin.py): `ClassName(a=..., b=...)` over the
    field order of the instance's class. Python's `repr` of a value is a
    parameter. */
module ReprMixin {
  import opened Py
  import opened Introspection

  /** `sep.join(xs)` */
  function Join(sep: string, xs: seq<string>): string
  {
    if xs == [] then ""
    else if |xs| == 1 then xs[0]
    else xs[0] + sep + Join(sep, xs[1..])
  }

  /** The total length of the parts. */
  function TotalLength(xs: seq<string>): nat
  {
    if xs == [] then 0 else |xs[0]| + TotalLength(xs[1..])
  }

  /** Joining puts exactly one separator between neighbours and none at
      either end; joining two non-empty lists is joining each and putting one
      separator between them. */
  lemma {:induction false} JoinShape(sep: string, xs: seq<string>, ys: seq<string>)
    requires xs != [] && ys != []
    ensures Join(sep, xs + ys) == Join(sep, xs) + sep + Join(sep, ys)
  {
    if |xs| == 1 {
      assert (xs + ys)[0] == xs[0] && (xs + ys)[1..] == ys;
    } else {
      assert (xs + ys)[0] == xs[0] && (xs + ys)[1..] == xs[1..] + ys;
      JoinShape(sep, xs[1..], ys);
    }
  }

  lemma {:induction false} JoinLength(sep: string, xs: seq<string>)
    ensures xs != [] ==> |Join(sep, xs)| == TotalLength(xs) + |sep| * (|xs| - 1)
    ensures xs == [] ==> Join(sep, xs) == ""
  {
    if |xs| > 1 {
      JoinLength(sep, xs[1..]);
    } else if |xs| == 1 {
      assert xs[1..] == [];
    }
  }

  datatype ReprError = AttributeError(name: string)

  /** `getattr(self, name)` on an instance of the schema class (never a
      `ParseResult`): the instance's own attribute, else the class
      attribute, else AttributeError. A class attribute that is a
      `NamespaceWrapper` is a non-data descriptor whose `__get__` on such an
      instance returns None, so an unset sub-namespace reads as None. */
  function GetAttr(cls: SchemaClass, attrs: map<string, Value>, name: string): Option<Value>
  {
    if name in attrs then Some(attrs[name])
    else if name in cls.dict then
      (if cls.dict[name].VWrapper? then Some(VNone) else Some(cls.dict[name]))
    else None
  }

  /** The `name=repr(value)` entries, in order; the first missing attribute
      is an error. */
  function Entries(cls: SchemaClass, attrs: map<string, Value>, repr: Value -> string, names: seq<string>)
    : Result<seq<string>, ReprError>
  {
    if names == [] then Ok([])
    else
      var v := GetAttr(cls, attrs, names[0]);
      if v.None? then Err(AttributeError(names[0]))
      else
        var rest := Entries(cls, attrs, repr, names[1..]);
        if rest.Err? then rest
        else Ok([names[0] + "=" + repr(v.value)] + rest.value)
  }

  /** The entries exist exactly when every name has a value; there is one
      per name, in order; otherwise the error names the first name without
      a value. */
  lemma {:induction false} EntriesSpec(cls: SchemaClass, attrs: map<string, Value>, repr: Value -> string, names: seq<string>)
    ensures var r := Entries(cls, attrs, repr, names);
      r.Ok? <==> forall k :: k in names ==> GetAttr(cls, attrs, k).Some?
    ensures var r := Entries(cls, attrs, repr, names);
      r.Ok? ==>
        && |r.value| == |names|
        && forall i :: 0 <= i < |names| ==> r.value[i] == names[i] + "=" + repr(GetAttr(cls, attrs, names[i]).value)
    ensures var r := Entries(cls, attrs, repr, names);
      r.Err? ==>
        exists i ::
          && 0 <= i < |names|
          && r.error == AttributeError(names[i])
          && GetAttr(cls, attrs, names[i]).None?
          && forall j :: 0 <= j < i ==> GetAttr(cls, attrs, names[j]).Some?
  {
    if names != [] {
      var tail := names[1..];
      EntriesSpec(cls, attrs, repr, tail);
      assert forall k :: k in names ==> k == names[0] || k in tail;
      assert forall j :: 1 <= j < |names| ==> names[j] == tail[j - 1];
      var rest := Entries(cls, attrs, repr, tail);
      if GetAttr(cls, attrs, names[0]).Some? && rest.Err? {
        var i :| 0 <= i < |tail| && rest.error == AttributeError(tail[i]) &&
          GetAttr(cls, attrs, tail[i]).None? &&
          forall j :: 0 <= j < i ==> GetAttr(cls, attrs, tail[j]).Some?;
        assert names[i + 1] == tail[i];
      }
    }
  }

  /** `__repr__` of an instance with attributes `attrs` of class `cls`. */
  function ReprOf(cls: SchemaClass, attrs: map<string, Value>, repr: Value -> string): Result<string, ReprError>
  {
    match Entries(cls, attrs, repr, Keep(Fields(cls), []))
    case Err(e) => Err(e)
    case Ok(entries) => Ok(cls.name + "(" + Join(", ", entries) + ")")
  }

  lemma {:induction false} KeepNothing(xs: seq<string>)
    requires forall x :: x in xs ==> !IsDunder(x)
    ensures Keep(xs, []) == xs
  {
    if xs != [] {
      KeepNothing(xs[1..]);
    }
  }

  /** The output is the class name, `(`, the entries, `)`: one entry per
      field in field order, none of them a dunder name; a class with no
      fields gives `Name()`. It fails exactly when some field has no value,
      naming the first such field. */
  lemma ReprSpec(cls: SchemaClass, attrs: map<string, Value>, repr: Value -> string)
    ensures var fs := Fields(cls);
      ReprOf(cls, attrs, repr).Ok? <==> forall k :: k in fs ==> GetAttr(cls, attrs, k).Some?
    ensures var fs := Fields(cls);
      ReprOf(cls, attrs, repr).Ok? ==>
        exists entries: seq<string> ::
          && ReprOf(cls, attrs, repr).value == cls.name + "(" + Join(", ", entries) + ")"
          && |entries| == |fs|
          && forall i :: 0 <= i < |fs| ==>
               !IsDunder(fs[i]) && entries[i] == fs[i] + "=" + repr(GetAttr(cls, attrs, fs[i]).value)
    ensures Fields(cls) == [] ==> ReprOf(cls, attrs, repr) == Ok(cls.name + "()")
    ensures ReprOf(cls, attrs, repr).Err? ==>
      exists i :: 0 <= i < |Fields(cls)| && ReprOf(cls, attrs, repr).error == AttributeError(Fields(cls)[i]) &&
        forall j :: 0 <= j < i ==> GetAttr(cls, attrs, Fields(cls)[j]).Some?
  {
    var fs := Fields(cls);
    KeepNothing(fs);
    EntriesSpec(cls, attrs, repr, fs);
    var e := Entries(cls, attrs, repr, fs);
    if e.Ok? {
      assert forall i :: 0 <= i < |fs| ==> fs[i] in fs;
      if fs == [] {
        assert e.value == [];
        assert cls.name + "(" + Join(", ", e.value) + ")" == cls.name + "()";
      }
    }
  }

  /** A sub-namespace field that `parse_args` did not set (a sibling of the
      chosen subcommand) is printed as `name=None`; one that it set is
      printed from the instance. */
  lemma ReprUnsetSubNamespace(cls: SchemaClass, attrs: map<string, Value>, repr: Value -> string, i: nat)
    requires i < |Fields(cls)| && ReprOf(cls, attrs, repr).Ok?
    requires Fields(cls)[i] in cls.dict && cls.dict[Fields(cls)[i]].VWrapper?
    ensures exists entries: seq<string> ::
      && ReprOf(cls, attrs, repr).value == cls.name + "(" + Join(", ", entries) + ")"
      && |entries| == |Fields(cls)|
      && entries[i] == Fields(cls)[i] + "=" + repr(if Fields(cls)[i] in attrs then attrs[Fields(cls)[i]] else VNone)
  {
    ReprSpec(cls, attrs, repr);
  }
}
