/** The annotation resolution of `_prepare_arg` (namespace and base
    variants): a FIFO walk over the annotation that records whether a `bool`
    was met and, per concrete class in first-encounter order, the "any value"
    marker or the literal constants seen for it. */
module Resolution {
  import opened Py
  import opened Annotations

  /** An element of an `allowed[t]` list: the shared `_allow_any_value`
      sentinel or a literal constant. */
  datatype Entry = AnyValue | Lit(v: Value)

  /** `a == b` where either side may be the sentinel, whose `__eq__` returns
      True for everything (Python tries the reflected `__eq__` when the left
      operand's answer is NotImplemented). */
  predicate EntryEq(a: Entry, b: Entry)
  {
    a.AnyValue? || b.AnyValue? || PyEq(a.v, b.v)
  }

  /** Python's `x in lst`. */
  predicate PyIn(x: Entry, lst: seq<Entry>)
  {
    exists i :: 0 <= i < |lst| && EntryEq(lst[i], x)
  }

  /** Because the sentinel equals everything, `sentinel in lst` holds exactly
      when `lst` is non-empty, and anything is `in` a list holding the sentinel. */
  lemma SentinelMembership(lst: seq<Entry>, x: Entry)
    ensures PyIn(AnyValue, lst) <==> |lst| > 0
    ensures AnyValue in lst ==> PyIn(x, lst)
  {
    if |lst| > 0 { assert EntryEq(lst[0], AnyValue); }
    if AnyValue in lst {
      var i :| 0 <= i < |lst| && lst[i] == AnyValue;
      assert EntryEq(lst[i], x);
    }
  }

  datatype BuildError =
    | UnsupportedAnnotation(a: Annotation)  // TypeError("Unsupported type annotation: ...")
    | MissingDefault(field: string)         // KeyError from `del kwargs['default']`
    | DuplicateKeyword(key: string)         // TypeError from `set_defaults(**a, **b)`
    | NotImplemented(className: string, member: string)  // NotImplementedError raised by BaseWrapper

  /** `isinstance(c, str | int | bool)`, which holds for instances of
      subclasses of str and int too. */
  predicate IsLiteralValue(c: Value)
  {
    c.VStr? || c.VInt? || c.VBool? || (c.VDerived? && IsLiteralValue(c.base))
  }

  /** A popped item that raises "Unsupported type annotation". */
  predicate Rejected(a: Annotation)
  {
    a.Unsupported? || (a.Const? && !IsLiteralValue(a.c))
  }

  /** A popped class that is a subclass of `bool`: it sets `bool_found`. */
  predicate IsBoolLeaf(a: Annotation)
  {
    a.TypeRef? && IsBoolSubclass(a.t)
  }

  /** A popped item that is appended to some `allowed[t]`. */
  predicate Recorded(a: Annotation)
  {
    (a.TypeRef? && !IsBoolSubclass(a.t)) || (a.Const? && IsLiteralValue(a.c))
  }

  /** The key it is recorded under: the class itself, or `type(constant)`. */
  function KeyOf(a: Annotation): PyType
    requires Recorded(a)
  {
    if a.TypeRef? then a.t else TypeOfValue(a.c)
  }

  function EntryOf(a: Annotation): Entry
    requires Recorded(a)
  {
    if a.TypeRef? then AnyValue else Lit(a.c)
  }

  /** A `Literal[...]` member of a str or int subclass (an `IntEnum` or
      `StrEnum` member) is recorded, under its own class rather than the
      base type, and it compares equal to the str or int it extends. */
  lemma DerivedConstantRecorded(className: string, base: Value)
    requires base.VStr? || base.VInt?
    ensures Recorded(Const(VDerived(className, base)))
    ensures KeyOf(Const(VDerived(className, base))) == PyType(className)
    ensures EntryOf(Const(VDerived(className, base))) == Lit(VDerived(className, base))
    ensures PyEq(VDerived(className, base), base)
  {
    PyEqReflexive(base);
  }

  function Last<T>(s: seq<T>): T
    requires s != []
  {
    s[|s| - 1]
  }

  function Front<T>(s: seq<T>): seq<T>
    requires s != []
  {
    s[..|s| - 1]
  }

  /** The first rejected item of a visiting order. */
  function FirstRejected(ls: seq<Annotation>): Option<Annotation>
  {
    if ls == [] then None
    else
      var before := FirstRejected(Front(ls));
      if before.Some? then before else if Rejected(Last(ls)) then Some(Last(ls)) else None
  }

  function BoolSeen(ls: seq<Annotation>): bool
  {
    ls != [] && (BoolSeen(Front(ls)) || IsBoolLeaf(Last(ls)))
  }

  /** The distinct keys of the recorded items, in first-encounter order. */
  function KeysSeen(ls: seq<Annotation>): seq<PyType>
  {
    if ls == [] then []
    else
      var before := KeysSeen(Front(ls));
      var a := Last(ls);
      if Recorded(a) && KeyOf(a) !in before then before + [KeyOf(a)] else before
  }

  /** The entries recorded under key `t`, in visiting order. */
  function EntriesFor(ls: seq<Annotation>, t: PyType): seq<Entry>
  {
    if ls == [] then []
    else
      var before := EntriesFor(Front(ls), t);
      var a := Last(ls);
      if Recorded(a) && KeyOf(a) == t then before + [EntryOf(a)] else before
  }

  function ListsOf(ls: seq<Annotation>): map<PyType, seq<Entry>>
  {
    map t | t in KeysSeen(ls) :: EntriesFor(ls, t)
  }

  /** The ordered `allowed` DefaultDict: its keys in insertion order and the list behind each. */
  datatype Allowed = Allowed(keys: seq<PyType>, lists: map<PyType, seq<Entry>>)
  {
    ghost predicate Valid()
    {
      && NoDup(keys)
      && (forall t :: t in lists <==> t in keys)
      && (forall t :: t in lists ==> |lists[t]| > 0)
    }

    /** `list(chain.from_iterable(allowed.values()))` */
    function Flattened(): seq<Entry>
    {
      FlattenFrom(0)
    }

    function FlattenFrom(i: nat): seq<Entry>
      requires i <= |keys|
      decreases |keys| - i
    {
      if i == |keys| then []
      else (if keys[i] in lists then lists[keys[i]] else []) + FlattenFrom(i + 1)
    }
  }

  datatype Resolved = Resolved(boolFound: bool, allowed: Allowed)

  /** What the walk over `queue` produces. */
  function Resolve(queue: seq<Annotation>): Result<Resolved, BuildError>
  {
    var ls := BfsLeaves(queue);
    match FirstRejected(ls)
    case Some(a) => Err(UnsupportedAnnotation(a))
    case None => Ok(Resolved(BoolSeen(ls), Allowed(KeysSeen(ls), ListsOf(ls))))
  }

  lemma FrontLastOfSnoc<T>(s: seq<T>, x: T)
    ensures Front(s + [x]) == s && Last(s + [x]) == x
  {
    assert (s + [x])[..|s|] == s;
  }

  lemma ListsOfSnoc(ls: seq<Annotation>, a: Annotation)
    ensures ListsOf(ls + [a]) ==
      if Recorded(a) then
        (if KeyOf(a) in ListsOf(ls) then ListsOf(ls)[KeyOf(a) := ListsOf(ls)[KeyOf(a)] + [EntryOf(a)]]
         else ListsOf(ls)[KeyOf(a) := [EntryOf(a)]])
      else ListsOf(ls)
  {
    FrontLastOfSnoc(ls, a);
    BoolSeenSnoc(ls, a);
    var l := ls + [a];
    var old_ := ListsOf(ls);
    var new_ := ListsOf(l);
    if Recorded(a) {
      var k := KeyOf(a);
      var expected := if k in old_ then old_[k := old_[k] + [EntryOf(a)]] else old_[k := [EntryOf(a)]];
      if k !in KeysSeen(ls) {
        EntriesForUnseen(ls, k);
      }
      assert forall t :: t in new_ <==> t in expected;
      forall t | t in new_ ensures new_[t] == expected[t] {
        assert EntriesFor(l, t) == if k == t then EntriesFor(ls, t) + [EntryOf(a)] else EntriesFor(ls, t);
      }
      assert new_ == expected;
    } else {
      forall t | t in new_ ensures new_[t] == old_[t] {
        assert EntriesFor(l, t) == EntriesFor(ls, t);
      }
      assert new_ == old_;
    }
  }

  /** A key that was never recorded has no entries. */
  lemma {:induction false} EntriesForUnseen(ls: seq<Annotation>, t: PyType)
    requires t !in KeysSeen(ls)
    ensures EntriesFor(ls, t) == []
  {
    if ls != [] {
      EntriesForUnseen(Front(ls), t);
    }
  }

  lemma BoolSeenSnoc(ls: seq<Annotation>, a: Annotation)
    ensures BoolSeen(ls + [a]) == (BoolSeen(ls) || IsBoolLeaf(a))
    ensures KeysSeen(ls + [a]) ==
      if Recorded(a) && KeyOf(a) !in KeysSeen(ls) then KeysSeen(ls) + [KeyOf(a)] else KeysSeen(ls)
    ensures FirstRejected(ls + [a]) ==
      if FirstRejected(ls).Some? then FirstRejected(ls) else if Rejected(a) then Some(a) else None
  {
    FrontLastOfSnoc(ls, a);
  }

  /** Once an item was rejected, later items do not change which one is reported. */
  lemma {:induction false} FirstRejectedSticks(ls: seq<Annotation>, rest: seq<Annotation>)
    requires FirstRejected(ls).Some?
    ensures FirstRejected(ls + rest) == FirstRejected(ls)
    decreases |rest|
  {
    if rest == [] {
      assert ls + rest == ls;
    } else {
      FirstRejectedSticks(ls, Front(rest));
      assert ls + rest == (ls + Front(rest)) + [Last(rest)];
      BoolSeenSnoc(ls + Front(rest), Last(rest));
    }
  }

  /** Popping a head that expands: the leaves still to visit are unchanged
      and the queue gets smaller. */
  lemma WalkExpand(queue: seq<Annotation>, done: seq<Annotation>, stack: seq<Annotation>)
    requires stack != [] && Expand(stack[0]).Some?
    requires BfsLeaves(queue) == done + BfsLeaves(stack)
    ensures BfsLeaves(queue) == done + BfsLeaves(stack[1..] + Expand(stack[0]).value)
    ensures SumSizes(stack[1..] + Expand(stack[0]).value) < SumSizes(stack)
  {
    PopShrinks(stack);
  }

  /** Popping a leaf: it is the next leaf visited. */
  lemma WalkLeaf(queue: seq<Annotation>, done: seq<Annotation>, stack: seq<Annotation>)
    requires stack != [] && Expand(stack[0]).None?
    requires BfsLeaves(queue) == done + BfsLeaves(stack)
    ensures BfsLeaves(queue) == (done + [stack[0]]) + BfsLeaves(stack[1..])
    ensures SumSizes(stack[1..]) < SumSizes(stack)
  {
  }

  /** The first rejected leaf of the walk is the one it stops at. */
  lemma WalkRejects(queue: seq<Annotation>, done: seq<Annotation>, current: Annotation, rest: seq<Annotation>)
    requires BfsLeaves(queue) == (done + [current]) + BfsLeaves(rest)
    requires FirstRejected(done) == None && Rejected(current)
    ensures FirstRejected(BfsLeaves(queue)) == Some(current)
  {
    BoolSeenSnoc(done, current);
    FirstRejectedSticks(done + [current], BfsLeaves(rest));
  }

  /** The `while stack: current = stack.pop(0)` loop of `_prepare_arg`. */
  method ResolveQueue(queue: seq<Annotation>) returns (r: Result<Resolved, BuildError>)
    ensures r == Resolve(queue)
  {
    var stack := queue;
    var boolFound := false;
    var keys: seq<PyType> := [];
    var lists: map<PyType, seq<Entry>> := map[];
    ghost var done: seq<Annotation> := [];
    while stack != []
      invariant BfsLeaves(queue) == done + BfsLeaves(stack)
      invariant FirstRejected(done) == None
      invariant boolFound == BoolSeen(done)
      invariant keys == KeysSeen(done)
      invariant lists == ListsOf(done)
      decreases SumSizes(stack)
    {
      var current := stack[0];
      if Expand(current).Some? {
        WalkExpand(queue, done, stack);
      } else {
        WalkLeaf(queue, done, stack);
      }
      stack := stack[1..];
      match current {
        case Union(args) =>
          stack := stack + args;
        case Literal(args) =>
          stack := stack + args;
        case ListOf(_) =>
          stack := stack + [TypeRef(ListType)];
        case TupleOf(_) =>
          stack := stack + [TypeRef(TupleType)];
        case OtherGeneric(origin, _) =>
          stack := stack + [TypeRef(origin)];
        case TypeRef(t) =>
          BoolSeenSnoc(done, current);
          ListsOfSnoc(done, current);
          if IsBoolSubclass(t) {
            boolFound := true;
          } else if t in lists {
            lists := lists[t := lists[t] + [AnyValue]];
          } else {
            keys := keys + [t];
            lists := lists[t := [AnyValue]];
          }
          done := done + [current];
        case Const(c) =>
          BoolSeenSnoc(done, current);
          ListsOfSnoc(done, current);
          if !IsLiteralValue(c) {
            WalkRejects(queue, done, current, stack);
            return Err(UnsupportedAnnotation(current));
          }
          var t := TypeOfValue(c);
          if t in lists {
            lists := lists[t := lists[t] + [Lit(c)]];
          } else {
            keys := keys + [t];
            lists := lists[t := [Lit(c)]];
          }
          done := done + [current];
        case Unsupported =>
          WalkRejects(queue, done, current, stack);
          return Err(UnsupportedAnnotation(current));
      }
    }
    assert done == BfsLeaves(queue);
    r := Ok(Resolved(boolFound, Allowed(keys, lists)));
  }

  lemma FrontLast<T>(s: seq<T>)
    requires s != []
    ensures s == Front(s) + [Last(s)]
  {
  }

  /** Some visited item was recorded under key `t`. */
  ghost predicate Seen(ls: seq<Annotation>, t: PyType)
  {
    exists p :: 0 <= p < |ls| && Recorded(ls[p]) && KeyOf(ls[p]) == t
  }

  lemma SeenSnoc(ls: seq<Annotation>, a: Annotation, t: PyType)
    ensures Seen(ls + [a], t) <==> Seen(ls, t) || (Recorded(a) && KeyOf(a) == t)
  {
    var l := ls + [a];
    if Seen(l, t) {
      var p :| 0 <= p < |l| && Recorded(l[p]) && KeyOf(l[p]) == t;
      if p < |ls| { assert l[p] == ls[p]; }
    }
    if Seen(ls, t) {
      var p :| 0 <= p < |ls| && Recorded(ls[p]) && KeyOf(ls[p]) == t;
      assert l[p] == ls[p];
    }
    if Recorded(a) && KeyOf(a) == t {
      assert l[|ls|] == a;
    }
  }

  /** The keys of `allowed` are distinct and are exactly the keys something was recorded under. */
  lemma {:induction false} KeysSeenMembers(ls: seq<Annotation>)
    ensures NoDup(KeysSeen(ls))
    ensures forall t :: t in KeysSeen(ls) <==> Seen(ls, t)
  {
    if ls != [] {
      var f, a := Front(ls), Last(ls);
      FrontLast(ls);
      KeysSeenMembers(f);
      forall t ensures t in KeysSeen(ls) <==> Seen(ls, t) {
        SeenSnoc(f, a, t);
      }
    }
  }

  /** The keys of `allowed` are in first-encounter order: for two keys, some
      prefix of the visiting order has already recorded the earlier one and
      not yet the later one. */
  lemma {:induction false} KeysSeenInFirstEncounterOrder(ls: seq<Annotation>)
    ensures forall i, j :: 0 <= i < j < |KeysSeen(ls)| ==>
      exists n :: 0 <= n <= |ls| && Seen(ls[..n], KeysSeen(ls)[i]) && !Seen(ls[..n], KeysSeen(ls)[j])
  {
    if ls != [] {
      var f, a := Front(ls), Last(ls);
      FrontLast(ls);
      KeysSeenInFirstEncounterOrder(f);
      KeysSeenMembers(f);
      var keys, old_ := KeysSeen(ls), KeysSeen(f);
      forall i, j | 0 <= i < j < |KeysSeen(ls)|
        ensures exists n :: 0 <= n <= |ls| && Seen(ls[..n], KeysSeen(ls)[i]) && !Seen(ls[..n], KeysSeen(ls)[j])
      {
        if j < |old_| {
          assert keys[i] == old_[i] && keys[j] == old_[j];
          var n :| 0 <= n <= |f| && Seen(f[..n], old_[i]) && !Seen(f[..n], old_[j]);
          assert ls[..n] == f[..n];
          assert Seen(ls[..n], keys[i]) && !Seen(ls[..n], keys[j]);
        } else {
          assert keys[j] == KeyOf(a) && keys[j] !in old_;
          assert keys[i] == old_[i] && keys[i] in old_;
          assert ls[..|f|] == f;
          assert Seen(ls[..|f|], keys[i]) && !Seen(ls[..|f|], keys[j]);
        }
      }
      assert forall i, j :: 0 <= i < j < |KeysSeen(ls)| ==>
        exists n :: 0 <= n <= |ls| && Seen(ls[..n], KeysSeen(ls)[i]) && !Seen(ls[..n], KeysSeen(ls)[j]);
    } else {
      assert KeysSeen(ls) == [];
    }
  }

  /** The list behind a key holds the marker exactly when the class itself
      was visited, and a constant exactly when that constant was visited and
      its type is the key. */
  lemma {:induction false} EntriesForMembers(ls: seq<Annotation>, t: PyType)
    ensures AnyValue in EntriesFor(ls, t) <==> TypeRef(t) in ls && !IsBoolSubclass(t)
    ensures forall c :: Lit(c) in EntriesFor(ls, t) <==>
      Const(c) in ls && IsLiteralValue(c) && TypeOfValue(c) == t
    ensures |EntriesFor(ls, t)| > 0 <==> Seen(ls, t)
  {
    if ls != [] {
      var f, a := Front(ls), Last(ls);
      FrontLast(ls);
      EntriesForMembers(f, t);
      SeenSnoc(f, a, t);
    }
  }

  lemma {:induction false} BoolSeenMembers(ls: seq<Annotation>)
    ensures BoolSeen(ls) <==> TypeRef(BoolType) in ls
  {
    if ls != [] {
      FrontLast(ls);
      BoolSeenMembers(Front(ls));
    }
  }

  /** The error names the first unsupported item of the visiting order, and
      there is none exactly when no error is reported. */
  lemma {:induction false} FirstRejectedIsFirst(ls: seq<Annotation>)
    ensures FirstRejected(ls).None? <==> forall p :: 0 <= p < |ls| ==> !Rejected(ls[p])
    ensures FirstRejected(ls).Some? ==>
      exists p :: 0 <= p < |ls| && ls[p] == FirstRejected(ls).value && Rejected(ls[p])
        && forall q :: 0 <= q < p ==> !Rejected(ls[q])
  {
    if ls != [] {
      var f, a := Front(ls), Last(ls);
      FrontLast(ls);
      FirstRejectedIsFirst(f);
      if FirstRejected(f).Some? {
        var p :| 0 <= p < |f| && f[p] == FirstRejected(f).value && Rejected(f[p])
          && forall q :: 0 <= q < p ==> !Rejected(f[q]);
        assert ls[p] == f[p];
        assert forall q :: 0 <= q < p ==> ls[q] == f[q];
      } else {
        assert forall q :: 0 <= q < |f| ==> ls[q] == f[q];
        assert ls[|f|] == a;
      }
    }
  }

  /** A successful walk yields a well-formed ordered DefaultDict: distinct
      keys, one non-empty list per key. */
  lemma ResolveValid(queue: seq<Annotation>)
    requires Resolve(queue).Ok?
    ensures Resolve(queue).value.allowed.Valid()
  {
    var ls := BfsLeaves(queue);
    KeysSeenMembers(ls);
    forall t | t in KeysSeen(ls) ensures |EntriesFor(ls, t)| > 0 {
      EntriesForMembers(ls, t);
    }
  }

  /** What the walk reports does not depend on the FIFO order: it fails
      exactly when some leaf of the annotation tree is unsupported, and
      otherwise `bool_found` holds exactly when `bool` is a leaf of the tree
      and the keys of `allowed` are exactly the non-bool classes and the
      types of the constants among the leaves. */
  lemma ResolveByLeaves(queue: seq<Annotation>)
    ensures Resolve(queue).Ok? <==> forall x :: x in ForestLeaves(queue) ==> !Rejected(x)
    ensures Resolve(queue).Ok? ==>
      (Resolve(queue).value.boolFound <==> TypeRef(BoolType) in ForestLeaves(queue))
    ensures Resolve(queue).Ok? ==> forall t :: t in Resolve(queue).value.allowed.keys <==>
      exists x :: x in ForestLeaves(queue) && Recorded(x) && KeyOf(x) == t
  {
    var ls := BfsLeaves(queue);
    var fl := ForestLeaves(queue);
    BfsVisitsEveryLeaf(queue);
    assert forall x :: x in ls <==> x in fl by {
      forall x ensures x in ls <==> x in fl {
        assert x in ls <==> x in multiset(ls);
        assert x in fl <==> x in multiset(fl);
      }
    }
    FirstRejectedIsFirst(ls);
    assert (forall p :: 0 <= p < |ls| ==> !Rejected(ls[p])) <==> (forall x :: x in fl ==> !Rejected(x));
    BoolSeenMembers(ls);
    KeysSeenMembers(ls);
    forall t ensures Seen(ls, t) <==> exists x :: x in fl && Recorded(x) && KeyOf(x) == t {
      if Seen(ls, t) {
        var p :| 0 <= p < |ls| && Recorded(ls[p]) && KeyOf(ls[p]) == t;
        assert ls[p] in fl;
      }
      if exists x :: x in fl && Recorded(x) && KeyOf(x) == t {
        var x :| x in fl && Recorded(x) && KeyOf(x) == t;
        assert x in ls;
        var p :| 0 <= p < |ls| && ls[p] == x;
      }
    }
  }
}
