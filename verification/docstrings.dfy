/** `get_variable_docstrings` (core/variable_docstring.py): a class-level
    assignment is documented by a string-constant expression statement that
    immediately follows it. The class source is given already parsed, as
    the statements of its module. */
module VariableDocstring {
  import opened Py
  import opened Resolution

  /** An assignment target: a bare name, or anything else (an attribute,
      a subscript, a tuple, ...). */
  datatype Target = NameTarget(id: string) | OtherTarget

  /** An expression: a constant, or anything else. */
  datatype Expression = Constant(value: Value) | OtherExpression

  /** A statement of a class body. */
  datatype Stmt =
    | Assign(targets: seq<Target>)   // `a = b = value`
    | AnnAssign(target: Target)      // `a: T` or `a: T = value`
    | ExprStmt(value: Expression)    // a bare expression, such as a string literal
    | OtherStmt                      // `def`, `class`, `pass`, ...

  /** A statement at the top of the parsed class source. */
  datatype TopStmt = ClassDef(name: string, body: seq<Stmt>) | OtherTopStmt(kind: string)

  datatype DocError =
    | NotAClass(typeName: string)          // TypeError
    | SourceUnavailable                    // RuntimeError: no source, or it does not parse
    | NotSingleDefinition(count: nat)      // RuntimeError
    | NotAClassDefinition(kind: string)    // RuntimeError

  /** `_get_var_name_from_assign`: the name of a single bare-name target. */
  function VarNameFromAssign(targets: seq<Target>): (r: Option<string>)
    ensures r.Some? <==> |targets| == 1 && targets[0].NameTarget?
    ensures r.Some? ==> r.value == targets[0].id
  {
    if |targets| != 1 then None
    else match targets[0]
      case NameTarget(id) => Some(id)
      case OtherTarget => None
  }

  /** `_get_var_name_from_annassign`: the name of a bare-name target. */
  function VarNameFromAnnAssign(target: Target): (r: Option<string>)
    ensures r.Some? <==> target.NameTarget?
    ensures r.Some? ==> r.value == target.id
  {
    match target
    case NameTarget(id) => Some(id)
    case OtherTarget => None
  }

  /** `_get_str_const_expr`: the text of a string constant; every other
      constant and every other expression gives nothing. */
  function StrConst(e: Expression): (r: Option<string>)
    ensures r.Some? <==> e.Constant? && e.value.VStr?
    ensures r.Some? ==> r.value == e.value.s
  {
    match e
    case Constant(VStr(s)) => Some(s)
    case _ => None
  }

  /** The name a statement assigns, for the first half of a pair. */
  function AssignedName(s: Stmt): Option<string>
  {
    match s
    case Assign(targets) => VarNameFromAssign(targets)
    case AnnAssign(target) => VarNameFromAnnAssign(target)
    case _ => None
  }

  /** The docstring a statement carries, for the second half of a pair. */
  function Docstring(s: Stmt): Option<string>
  {
    if s.ExprStmt? then StrConst(s.value) else None
  }

  /** The dict comprehension over consecutive pairs: a later pair for the
      same name overwrites an earlier one. */
  function PairDocs(body: seq<Stmt>): map<string, string>
  {
    if |body| < 2 then map[]
    else
      var prev := PairDocs(Front(body));
      var name := AssignedName(body[|body| - 2]);
      var doc := Docstring(Last(body));
      if name.Some? && doc.Some? then prev[name.value := doc.value] else prev
  }

  /** `get_variable_docstrings`: a non-class argument is a TypeError; the
      source must parse to exactly one statement, a class definition;
      then its body is scanned pair by pair. */
  function GetVariableDocstrings(isClass: bool, typeName: string, parsed: Option<seq<TopStmt>>)
    : (r: Result<map<string, string>, DocError>)
    ensures !isClass ==> r == Err(NotAClass(typeName))
    ensures isClass && parsed.None? ==> r == Err(SourceUnavailable)
    ensures isClass && parsed.Some? && |parsed.value| != 1 ==> r == Err(NotSingleDefinition(|parsed.value|))
    ensures isClass && parsed.Some? && |parsed.value| == 1 && parsed.value[0].OtherTopStmt? ==>
      r == Err(NotAClassDefinition(parsed.value[0].kind))
    ensures r.Ok? <==> isClass && parsed.Some? && |parsed.value| == 1 && parsed.value[0].ClassDef?
    ensures r.Ok? ==> r.value == PairDocs(parsed.value[0].body)
  {
    if !isClass then Err(NotAClass(typeName))
    else if parsed.None? then Err(SourceUnavailable)
    else if |parsed.value| != 1 then Err(NotSingleDefinition(|parsed.value|))
    else match parsed.value[0]
      case OtherTopStmt(kind) => Err(NotAClassDefinition(kind))
      case ClassDef(_, body) => Ok(PairDocs(body))
  }

  // ---------------------------------------------------------------------
  // The pairing rule, stated on positions

  /** Statement `i` assigns `k` and statement `i + 1` is a string docstring. */
  predicate Documents(body: seq<Stmt>, i: int, k: string)
  {
    0 <= i < |body| - 1 && AssignedName(body[i]) == Some(k) && Docstring(body[i + 1]).Some?
  }

  lemma DocumentsFront(body: seq<Stmt>, j: int, k: string)
    requires |body| >= 2 && j < |body| - 2
    ensures Documents(body, j, k) <==> Documents(Front(body), j, k)
  {
    if 0 <= j {
      assert body[j] == Front(body)[j] && body[j + 1] == Front(body)[j + 1];
    }
  }

  /** A name is documented exactly when some statement assigning it is
      immediately followed by a string docstring. A body of fewer than two
      statements documents nothing. */
  lemma {:induction false} PairDocsKeys(body: seq<Stmt>)
    ensures |body| < 2 ==> PairDocs(body) == map[]
    ensures forall k :: k in PairDocs(body) <==> exists i :: Documents(body, i, k)
  {
    if |body| >= 2 {
      var front := Front(body);
      PairDocsKeys(front);
      var n := |body| - 2;
      forall k ensures k in PairDocs(body) <==> exists i :: Documents(body, i, k) {
        if !Documents(body, n, k) {
          if k in PairDocs(body) {
            assert k in PairDocs(front);
            var i :| Documents(front, i, k);
            DocumentsFront(body, i, k);
          }
          if exists i :: Documents(body, i, k) {
            var i :| Documents(body, i, k);
            DocumentsFront(body, i, k);
          }
        }
      }
    }
  }

  /** When a name is documented more than once, the last pair wins. */
  lemma {:induction false} PairDocsLastWins(body: seq<Stmt>, i: int, k: string)
    requires Documents(body, i, k)
    requires forall j :: i < j ==> !Documents(body, j, k)
    ensures k in PairDocs(body) && PairDocs(body)[k] == Docstring(body[i + 1]).value
  {
    var n := |body| - 2;
    if i < n {
      var front := Front(body);
      assert !Documents(body, n, k);
      DocumentsFront(body, i, k);
      forall j | i < j ensures !Documents(front, j, k) {
        if j < n {
          DocumentsFront(body, j, k);
        }
      }
      PairDocsLastWins(front, i, k);
    }
  }
}
