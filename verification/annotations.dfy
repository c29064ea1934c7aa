/** The closed set of annotation shapes the resolvers walk, in place of
    Python's runtime typing objects, and the FIFO expansion both resolvers
    perform on them. */
module Annotations {
  import opened Py

  /** A Python class, identified by its name. */
  datatype PyType = PyType(name: string)

  const StrType := PyType("str")
  const IntType := PyType("int")
  const BoolType := PyType("bool")
  const ListType := PyType("list")
  const TupleType := PyType("tuple")

  /** `issubclass(t, bool)`: `bool` cannot be subclassed in Python. */
  predicate IsBoolSubclass(t: PyType)
  {
    t == BoolType
  }

  /** `type(c)` of a value appearing inside `Literal[...]`. */
  function TypeOfValue(c: Value): PyType
  {
    match c
    case VNone => PyType("NoneType")
    case VBool(_) => BoolType
    case VInt(_) => IntType
    case VStr(_) => StrType
    case VList(_) => ListType
    case VWrapper(_) => PyType("NamespaceWrapper")
    case VDerived(n, _) => PyType(n)
    case VObject(n, _) => PyType(n)
  }

  /** An annotation as the resolvers see it.
      - TypeRef: a plain class (`int`, `float`, `bool`, a user class).
      - Const: a value inside `Literal[...]`.
      - Union: `typing.Union[...]`, `Optional[...]` or `X | Y` (the two
        spellings are treated identically: both push their arguments).
      - Literal: `Literal[...]`.
      - ListOf / TupleOf: `list[...]` / `tuple[...]`.
      - OtherGeneric: any other parameterised generic, by its origin class.
      - Unsupported: anything else (e.g. a string forward reference). */
  datatype Annotation =
    | TypeRef(t: PyType)
    | Const(c: Value)
    | Union(args: seq<Annotation>)
    | Literal(args: seq<Annotation>)
    | ListOf(args: seq<Annotation>)
    | TupleOf(args: seq<Annotation>)
    | OtherGeneric(origin: PyType, args: seq<Annotation>)
    | Unsupported

  /** What popping `a` from the work queue pushes back at the end: the
      arguments of a Union/Literal, the origin class of any other generic;
      None for the shapes that are recorded (or rejected) on the spot. */
  function Expand(a: Annotation): Option<seq<Annotation>>
  {
    match a
    case Union(args) => Some(args)
    case Literal(args) => Some(args)
    case ListOf(_) => Some([TypeRef(ListType)])
    case TupleOf(_) => Some([TypeRef(TupleType)])
    case OtherGeneric(origin, _) => Some([TypeRef(origin)])
    case _ => None
  }

  function Size(a: Annotation): (n: nat)
    ensures n >= 1
    decreases a, 1
  {
    match a
    case Union(args) => 1 + SumSizes(args)
    case Literal(args) => 1 + SumSizes(args)
    case ListOf(args) => 2 + SumSizes(args)
    case TupleOf(args) => 2 + SumSizes(args)
    case OtherGeneric(_, args) => 2 + SumSizes(args)
    case _ => 1
  }

  function SumSizes(q: seq<Annotation>): nat
    decreases q, 0
  {
    if q == [] then 0 else Size(q[0]) + SumSizes(q[1..])
  }

  lemma {:induction false} SumSizesAppend(p: seq<Annotation>, q: seq<Annotation>)
    ensures SumSizes(p + q) == SumSizes(p) + SumSizes(q)
  {
    if p == [] {
      assert p + q == q;
    } else {
      assert (p + q)[0] == p[0] && (p + q)[1..] == p[1..] + q;
      SumSizesAppend(p[1..], q);
    }
  }

  lemma ExpandShrinks(a: Annotation)
    requires Expand(a).Some?
    ensures SumSizes(Expand(a).value) < Size(a)
  {
    match a
    case ListOf(_) =>
    case TupleOf(_) =>
    case OtherGeneric(o, _) =>
    case Union(_) =>
    case Literal(_) =>
  }

  /** Popping the head and pushing its expansion makes the queue smaller. */
  lemma PopShrinks(q: seq<Annotation>)
    requires q != [] && Expand(q[0]).Some?
    ensures SumSizes(q[1..] + Expand(q[0]).value) < SumSizes(q)
  {
    SumSizesAppend(q[1..], Expand(q[0]).value);
    ExpandShrinks(q[0]);
  }

  /** The leaves the `while stack: stack.pop(0)` loop visits, in visiting order. */
  function BfsLeaves(q: seq<Annotation>): (r: seq<Annotation>)
    ensures forall i :: 0 <= i < |r| ==> Expand(r[i]).None?
    decreases SumSizes(q)
  {
    if q == [] then []
    else match Expand(q[0])
      case Some(pushed) =>
        PopShrinks(q);
        BfsLeaves(q[1..] + pushed)
      case None => [q[0]] + BfsLeaves(q[1..])
  }

  /** The leaves of an annotation tree by plain structural recursion
      (depth-first), the reference the FIFO walk is compared against. */
  function TreeLeaves(a: Annotation): seq<Annotation>
    decreases Size(a), 0
  {
    match Expand(a)
    case Some(pushed) =>
      ExpandShrinks(a);
      ForestLeaves(pushed)
    case None => [a]
  }

  function ForestLeaves(q: seq<Annotation>): seq<Annotation>
    decreases SumSizes(q), 1
  {
    if q == [] then [] else TreeLeaves(q[0]) + ForestLeaves(q[1..])
  }

  lemma {:induction false} ForestLeavesAppend(p: seq<Annotation>, q: seq<Annotation>)
    ensures ForestLeaves(p + q) == ForestLeaves(p) + ForestLeaves(q)
    decreases |p|
  {
    if p == [] {
      assert p + q == q;
    } else {
      assert (p + q)[0] == p[0] && (p + q)[1..] == p[1..] + q;
      ForestLeavesAppend(p[1..], q);
    }
  }

  /** The FIFO walk visits exactly the leaves of the annotation trees in the
      queue, each as often as it occurs: every Union/Literal is flattened
      completely and nothing is lost or duplicated; only the order differs. */
  lemma {:induction false} BfsVisitsEveryLeaf(q: seq<Annotation>)
    ensures multiset(BfsLeaves(q)) == multiset(ForestLeaves(q))
    decreases SumSizes(q)
  {
    if q != [] {
      match Expand(q[0])
      case Some(pushed) =>
        PopShrinks(q);
        BfsVisitsEveryLeaf(q[1..] + pushed);
        ForestLeavesAppend(q[1..], pushed);
      case None =>
        BfsVisitsEveryLeaf(q[1..]);
    }
  }
}
