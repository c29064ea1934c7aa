/** Python values and helpers shared by every part of the model. */
module Py {

  datatype Option<+T> = None | Some(value: T)

  datatype Result<+T, +E> = Ok(value: T) | Err(error: E)

  /** The Python objects the model needs to distinguish: the literal kinds
      (str, int, bool), None, lists (a `list[...]` default such as `[]`),
      a reference to a wrapper object (an index into the wrapper arena), an
      instance of a user subclass of str or int (an `IntEnum` or `StrEnum`
      member: its class name and the str or int it extends) and any other
      object, known only by its class name and its truthiness. */
  datatype Value =
    | VNone
    | VBool(b: bool)
    | VInt(i: int)
    | VStr(s: string)
    | VList(items: seq<Value>)
    | VWrapper(id: nat)
    | VDerived(className: string, base: Value)
    | VObject(className: string, truthy: bool)

  /** `bool(v)` */
  function Truthy(v: Value): bool
  {
    match v
    case VNone => false
    case VBool(b) => b
    case VInt(i) => i != 0
    case VStr(s) => |s| > 0
    case VList(items) => |items| > 0
    case VWrapper(_) => true
    case VDerived(_, base) => Truthy(base)
    case VObject(_, t) => t
  }

  /** The integer a bool or an int stands for in Python arithmetic and comparison. */
  function AsNumber(v: Value): int
    requires v.VBool? || v.VInt?
  {
    if v.VBool? then (if v.b then 1 else 0) else v.i
  }

  /** Python `a == b` for the values modelled: `True == 1` and `False == 0`
      hold, an instance of a str or int subclass compares as the value it
      extends (the inherited `__eq__`), lists compare element by element,
      everything else structurally. */
  function PyEq(a: Value, b: Value): bool
    decreases a, b
  {
    if a.VDerived? then PyEq(a.base, b)
    else if b.VDerived? then PyEq(a, b.base)
    else if (a.VBool? || a.VInt?) && (b.VBool? || b.VInt?) then AsNumber(a) == AsNumber(b)
    else if a.VList? && b.VList? then
      |a.items| == |b.items| && forall i :: 0 <= i < |a.items| ==> PyEq(a.items[i], b.items[i])
    else a == b
  }

  /** A derived value on the right compares as the value it extends. */
  lemma {:induction false} PyEqUnwrapRight(a: Value, b: Value)
    requires b.VDerived?
    ensures PyEq(a, b) == PyEq(a, b.base)
    decreases a
  {
    if a.VDerived? {
      PyEqUnwrapRight(a.base, b);
    }
  }

  lemma {:induction false} PyEqReflexive(v: Value)
    ensures PyEq(v, v)
  {
    if v.VDerived? {
      PyEqUnwrapRight(v.base, v);
      PyEqReflexive(v.base);
    } else if v.VList? {
      forall i | 0 <= i < |v.items| ensures PyEq(v.items[i], v.items[i]) {
        PyEqReflexive(v.items[i]);
      }
    }
  }

  /** `s.replace(a, b)` for single characters. */
  function Replace(s: string, a: char, b: char): (r: string)
    ensures |r| == |s|
    ensures forall i :: 0 <= i < |s| ==> r[i] == (if s[i] == a then b else s[i])
  {
    if s == [] then [] else [if s[0] == a then b else s[0]] + Replace(s[1..], a, b)
  }

  /** A name with no `-` (every Python identifier) is left unchanged by `replace('-', '_')`. */
  lemma ReplaceAbsent(s: string, a: char, b: char)
    requires a !in s
    ensures Replace(s, a, b) == s
  {
  }

  predicate StartsWith(s: string, prefix: string)
  {
    |prefix| <= |s| && s[..|prefix|] == prefix
  }

  predicate EndsWith(s: string, suffix: string)
  {
    |suffix| <= |s| && s[|s| - |suffix|..] == suffix
  }

  predicate NoDup<T(==)>(s: seq<T>)
  {
    forall i, j :: 0 <= i < j < |s| ==> s[i] != s[j]
  }

  /** Position of the first occurrence of `x` in `s`. */
  function IndexOf<T(==)>(s: seq<T>, x: T): (i: nat)
    requires x in s
    ensures i < |s| && s[i] == x
    ensures forall j :: 0 <= j < i ==> s[j] != x
  {
    if s[0] == x then 0 else 1 + IndexOf(s[1..], x)
  }

  lemma AppendTakeSnoc<T>(p: seq<T>, row: seq<T>, k: nat)
    requires k < |row|
    ensures p + row[..k + 1] == (p + row[..k]) + [row[k]]
  {
    assert row[..k + 1] == row[..k] + [row[k]];
  }

  lemma AppendTakeDrop<T>(p: seq<T>, row: seq<T>, k: nat)
    requires k <= |row|
    ensures (p + row[..k]) + row[k..] == p + row
  {
    assert row[..k] + row[k..] == row;
  }
}
