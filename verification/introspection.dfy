/** A schema class as the wrappers see it, and the order in which its
    fields are visited (`_is_dunder`, `_get_attrnames`). */
module Introspection {
  import opened Py
  import opened Annotations

  /** A class object reduced to what the wrappers read from it: the keys of
      `__annotations__` and of `__dict__`, each in insertion order, and the
      values behind them. */
  datatype SchemaClass = SchemaClass(
    name: string,
    annotationKeys: seq<string>,
    annotations: map<string, Annotation>,
    dictKeys: seq<string>,
    dict: map<string, Value>)
  {
    /** Dictionary keys are distinct and the key sequences list exactly the keys. */
    ghost predicate WellFormed()
    {
      && NoDup(annotationKeys)
      && NoDup(dictKeys)
      && (forall k :: k in annotations <==> k in annotationKeys)
      && (forall k :: k in dict <==> k in dictKeys)
    }

    /** `__annotations__.get(name, str)` */
    function AnnotationOf(field: string): Annotation
    {
      if field in annotations then annotations[field] else TypeRef(StrType)
    }

    /** `getattr(cls, name, None)` on the class object. */
    function ClassAttr(field: string): Value
    {
      if field in dict then dict[field] else VNone
    }
  }

  /** `name.startswith('__') and name.endswith('__')`, stated on characters
      (`DunderMeansPrefixAndSuffix` shows the two agree). */
  predicate IsDunder(name: string)
  {
    |name| >= 2 && name[0] == '_' && name[1] == '_' && name[|name| - 2] == '_' && name[|name| - 1] == '_'
  }

  lemma DunderMeansPrefixAndSuffix(name: string)
    ensures IsDunder(name) <==> StartsWith(name, "__") && EndsWith(name, "__")
  {
    if |name| >= 2 {
      assert name[..2] == [name[0], name[1]];
      assert name[|name| - 2..] == [name[|name| - 2], name[|name| - 1]];
    }
  }

  /** The elements of `xs` that are not in `excluded` and are not dunder names, in order. */
  function Keep(xs: seq<string>, excluded: seq<string>): (r: seq<string>)
    ensures forall x :: x in r <==> x in xs && x !in excluded && !IsDunder(x)
  {
    if xs == [] then []
    else if xs[0] !in excluded && !IsDunder(xs[0]) then [xs[0]] + Keep(xs[1..], excluded)
    else Keep(xs[1..], excluded)
  }

  /** `_get_attrnames`: the annotation-only names in annotation order, then the
      class-dict names in dict order, dunder names dropped. */
  function AttrNames(annotationKeys: seq<string>, dictKeys: seq<string>): (r: seq<string>)
    ensures forall x :: x in r <==> (x in annotationKeys || x in dictKeys) && !IsDunder(x)
  {
    Keep(annotationKeys, dictKeys) + Keep(dictKeys, [])
  }

  lemma {:induction false} KeepSnoc(xs: seq<string>, x: string, excluded: seq<string>)
    ensures Keep(xs + [x], excluded) == Keep(xs, excluded) + (if x !in excluded && !IsDunder(x) then [x] else [])
  {
    if xs == [] {
      assert xs + [x] == [x];
      assert [x][1..] == [];
    } else {
      assert (xs + [x])[0] == xs[0] && (xs + [x])[1..] == xs[1..] + [x];
      KeepSnoc(xs[1..], x, excluded);
    }
  }

  function Fields(c: SchemaClass): seq<string>
  {
    AttrNames(c.annotationKeys, c.dictKeys)
  }

  /** The sort key `ordered_keys[k]`: the position in the annotations, replaced
      by `len(annotations)` plus the position in the class dict when the key is
      there too (the right operand of `|` wins). */
  function OrderKey(annotationKeys: seq<string>, dictKeys: seq<string>, k: string): nat
    requires k in annotationKeys || k in dictKeys
  {
    if k in dictKeys then |annotationKeys| + IndexOf(dictKeys, k) else IndexOf(annotationKeys, k)
  }

  predicate StrictlyIncreasing<T>(s: seq<T>, key: T -> int)
  {
    forall i, j :: 0 <= i < j < |s| ==> key(s[i]) < key(s[j])
  }

  /** Without duplicates, the first occurrence of the item at `p` is `p`. */
  lemma IndexOfAt<T>(xs: seq<T>, p: nat)
    requires NoDup(xs) && p < |xs|
    ensures IndexOf(xs, xs[p]) == p
  {
  }

  /** `pos` lists strictly increasing positions of `xs` holding `r`. */
  ghost predicate PicksAt<T>(xs: seq<T>, r: seq<T>, pos: seq<nat>)
  {
    && |pos| == |r|
    && (forall m :: 0 <= m < |pos| ==> pos[m] < |xs| && xs[pos[m]] == r[m])
    && (forall m, n :: 0 <= m < n < |pos| ==> pos[m] < pos[n])
  }

  /** Picks from the tail, shifted by one, with the head possibly in front,
      are picks from the whole. */
  lemma ConsPicks<T>(xs: seq<T>, h: seq<T>, k: seq<T>, tail: seq<nat>) returns (pos: seq<nat>)
    requires xs != [] && (h == [] || h == [xs[0]])
    requires PicksAt(xs[1..], k, tail)
    ensures PicksAt(xs, h + k, pos)
  {
    var d := |h|;
    var r := h + k;
    var shifted := seq(|tail|, m requires 0 <= m < |tail| => tail[m] + 1);
    pos := if d == 0 then shifted else [0] + shifted;
    assert |pos| == |r|;
    forall m | 0 <= m < |pos| ensures pos[m] < |xs| && xs[pos[m]] == r[m] {
      if m < d {
        assert pos[m] == 0 && r[m] == xs[0];
      } else {
        var t := tail[m - d];
        assert pos[m] == t + 1 && r[m] == k[m - d];
        assert xs[1..][t] == k[m - d];
      }
    }
    forall m, n | 0 <= m < n < |pos| ensures pos[m] < pos[n] {
      assert pos[n] == tail[n - d] + 1;
      if m >= d {
        assert pos[m] == tail[m - d] + 1;
      }
    }
  }

  lemma KeepSplit(xs: seq<string>, excluded: seq<string>) returns (h: seq<string>)
    requires xs != []
    ensures h == [] || h == [xs[0]]
    ensures Keep(xs, excluded) == h + Keep(xs[1..], excluded)
  {
    h := if xs[0] !in excluded && !IsDunder(xs[0]) then [xs[0]] else [];
  }

  /** `Keep(xs, ..)` picks items of `xs` at strictly increasing positions. */
  lemma {:induction false} KeepPositions(xs: seq<string>, excluded: seq<string>) returns (pos: seq<nat>)
    ensures PicksAt(xs, Keep(xs, excluded), pos)
    decreases |xs|
  {
    if xs == [] {
      pos := [];
    } else {
      var tail := KeepPositions(xs[1..], excluded);
      var h := KeepSplit(xs, excluded);
      pos := ConsPicks(xs, h, Keep(xs[1..], excluded), tail);
    }
  }

  lemma KeepKeepsOrder(xs: seq<string>, excluded: seq<string>)
    requires NoDup(xs)
    ensures forall i, j :: 0 <= i < j < |Keep(xs, excluded)| ==>
      IndexOf(xs, Keep(xs, excluded)[i]) < IndexOf(xs, Keep(xs, excluded)[j])
  {
    var pos := KeepPositions(xs, excluded);
    forall i, j | 0 <= i < j < |Keep(xs, excluded)|
      ensures IndexOf(xs, Keep(xs, excluded)[i]) < IndexOf(xs, Keep(xs, excluded)[j])
    {
      IndexOfAt(xs, pos[i]);
      IndexOfAt(xs, pos[j]);
    }
  }

  /** The result is sorted by the sort key, strictly, so no name appears twice. */
  lemma AttrNamesSorted(annotationKeys: seq<string>, dictKeys: seq<string>)
    requires NoDup(annotationKeys) && NoDup(dictKeys)
    ensures var r := AttrNames(annotationKeys, dictKeys);
      forall i, j :: 0 <= i < j < |r| ==>
        OrderKey(annotationKeys, dictKeys, r[i]) < OrderKey(annotationKeys, dictKeys, r[j])
    ensures NoDup(AttrNames(annotationKeys, dictKeys))
  {
    var front := Keep(annotationKeys, dictKeys);
    var back := Keep(dictKeys, []);
    var r := front + back;
    KeepKeepsOrder(annotationKeys, dictKeys);
    KeepKeepsOrder(dictKeys, []);
    forall i, j | 0 <= i < j < |r|
      ensures OrderKey(annotationKeys, dictKeys, r[i]) < OrderKey(annotationKeys, dictKeys, r[j])
    {
      if j < |front| {
        assert r[i] == front[i] && r[j] == front[j];
      } else if i >= |front| {
        assert r[i] == back[i - |front|] && r[j] == back[j - |front|];
      } else {
        assert r[i] == front[i] && r[i] in front && r[j] == back[j - |front|] && r[j] in back;
      }
    }
  }

  /** `sorted` over a set by a key is deterministic: two sequences that hold
      the same elements, both strictly increasing in the key, are equal. */
  lemma {:induction false} SortedByKeyIsUnique<T>(s: seq<T>, t: seq<T>, key: T -> int)
    requires StrictlyIncreasing(s, key) && StrictlyIncreasing(t, key)
    requires forall x :: x in s <==> x in t
    ensures s == t
  {
    assert s == [] <==> t == [] by {
      if s != [] { assert s[0] in s; }
      if t != [] { assert t[0] in t; }
    }
    if s != [] {
      assert s[0] in t;
      assert t[0] in s;
      var i :| 0 <= i < |t| && t[i] == s[0];
      var j :| 0 <= j < |s| && s[j] == t[0];
      assert s[0] == t[0];
      forall x ensures x in s[1..] <==> x in t[1..] {
        if x in s[1..] {
          var k :| 1 <= k < |s| && s[k] == x;
          assert key(s[0]) < key(x);
          assert x in t;
        }
        if x in t[1..] {
          var k :| 1 <= k < |t| && t[k] == x;
          assert key(t[0]) < key(x);
          assert x in s;
        }
      }
      SortedByKeyIsUnique(s[1..], t[1..], key);
    }
  }

  /** Every ordering of the same names that is sorted by the source's key is
      the one AttrNames computes. */
  lemma AttrNamesIsTheSortedOrder(annotationKeys: seq<string>, dictKeys: seq<string>, s: seq<string>)
    requires NoDup(annotationKeys) && NoDup(dictKeys)
    requires forall x :: x in s <==> (x in annotationKeys || x in dictKeys) && !IsDunder(x)
    requires forall i, j :: 0 <= i < j < |s| ==>
      OrderKey(annotationKeys, dictKeys, s[i]) < OrderKey(annotationKeys, dictKeys, s[j])
    ensures s == AttrNames(annotationKeys, dictKeys)
  {
    var r := AttrNames(annotationKeys, dictKeys);
    AttrNamesSorted(annotationKeys, dictKeys);
    var key := (k: string) => if k in annotationKeys || k in dictKeys then OrderKey(annotationKeys, dictKeys, k) as int else -1;
    assert forall x :: x in r <==> x in s;
    assert StrictlyIncreasing(s, key) by {
      forall i, j | 0 <= i < j < |s| ensures key(s[i]) < key(s[j]) {
        assert s[i] in s && s[j] in s;
      }
    }
    assert StrictlyIncreasing(r, key) by {
      forall i, j | 0 <= i < j < |r| ensures key(r[i]) < key(r[j]) {
        assert r[i] in r && r[j] in r;
      }
    }
    SortedByKeyIsUnique(s, r, key);
  }
}
