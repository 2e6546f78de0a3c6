/** The WHERE evaluator (`doWhere`): a parsed expression evaluated against
    one row, with JavaScript's operators and their quirks. */
module Where {
  import opened Values
  import opened Like

  /** A node of a parsed expression: a column, a literal, a binary
      operation, an aggregate call (in a select list), or any other node,
      which has no value. */
  datatype Expr =
    | ColumnRef(column: string)
    | Literal(value: Value)
    | Binary(op: string, left: Expr, right: Expr)
    | Aggregate(name: string, arg: Expr)
    | Other

  /** The relational operators and what each computes. */
  predicate IsRelation(op: string) {
    op in {"=", "!=", "<>", "<", "<=", ">", ">=", "IS"}
  }

  predicate Relation(op: string, a: Value, b: Value)
    requires IsRelation(op)
  {
    match op
    case "=" => LooseEq(a, b)
    case "!=" => !LooseEq(a, b)
    case "<>" => !LooseEq(a, b)
    case "<" => Less(a, b)
    case "<=" => LessEq(a, b)
    case ">" => Less(b, a)
    case ">=" => LessEq(b, a)
    case "IS" => StrictEq(a, b)
  }

  /** `getVal`: the value of an operand. A nested binary operation is
      evaluated; any other node without a value reads as undefined. */
  function GetVal(e: Expr, row: Row): (r: Result<Value>)
    decreases e, 1
  {
    match e
    case ColumnRef(c) => Ok(Lookup(row, c))
    case Literal(v) => Ok(v)
    case Binary(_, _, _) => Eval(e, row)
    case Aggregate(_, _) => Ok(Undef)
    case Other => Ok(Undef)
  }

  /** `doWhere` on an expression node. AND and OR both evaluate `&&`,
      returning an operand; LIKE evaluates its pattern first and fails on a
      pattern that is not a string; an unknown operator, and a node that
      is not a binary operation, give false. */
  function Eval(e: Expr, row: Row): (r: Result<Value>)
    ensures r.Ok? && !(e.Binary? && e.op in {"AND", "OR"}) ==> r.value.Bool?
    ensures r.Err? ==> r.error == TypeError || r.error == UnsupportedPattern
    decreases e, 0
  {
    match e
    case Binary(op, l, r) =>
      if op == "AND" || op == "OR" then
        var a :- GetVal(l, row);
        if !Truthy(a) then Ok(a) else GetVal(r, row)
      else if op == "LIKE" || op == "NOT LIKE" then
        var p :- GetVal(r, row);
        if !p.Str? then Err(TypeError)
        else if !Plain(p.s) then Err(UnsupportedPattern)
        else
          var a :- GetVal(l, row);
          var m := Matches(Tokens(p.s), ToStr(a));
          Ok(Bool(if op == "LIKE" then m else !m))
      else if IsRelation(op) then
        var a :- GetVal(l, row);
        var b :- GetVal(r, row);
        Ok(Bool(Relation(op, a, b)))
      else Ok(Bool(false))
    case _ => Ok(Bool(false))
  }

  /** `doWhere(where, row)`: no WHERE clause selects every row. */
  function DoWhere(where: Option<Expr>, row: Row): (r: Result<Value>)
    ensures where.None? ==> r == Ok(Bool(true))
  {
    match where
    case None => Ok(Bool(true))
    case Some(e) => Eval(e, row)
  }

  /** `doWhere(where, row) === true`: only the boolean true selects. */
  function Selected(where: Option<Expr>, row: Row): (r: Result<bool>)
    ensures r.Ok? <==> DoWhere(where, row).Ok?
    ensures r.Ok? ==> (r.value <==> DoWhere(where, row).value == Bool(true))
  {
    var v :- DoWhere(where, row);
    Ok(v == Bool(true))
  }

  /** A comparison evaluates both operands, left first, and compares them
      with its JavaScript operator. */
  lemma EvalRelation(op: string, l: Expr, r: Expr, row: Row)
    requires IsRelation(op)
    ensures GetVal(l, row).Err? ==> Eval(Binary(op, l, r), row) == GetVal(l, row)
    ensures GetVal(l, row).Ok? && GetVal(r, row).Err? ==> Eval(Binary(op, l, r), row) == GetVal(r, row)
    ensures GetVal(l, row).Ok? && GetVal(r, row).Ok? ==>
              Eval(Binary(op, l, r), row) == Ok(Bool(Relation(op, GetVal(l, row).value, GetVal(r, row).value)))
  {
  }

  /** An operator the evaluator does not know, and a node that is not a
      binary operation, give false without evaluating anything. */
  lemma EvalUnknown(e: Expr, row: Row)
    requires !e.Binary? || !(IsRelation(e.op) || e.op in {"AND", "OR", "LIKE", "NOT LIKE"})
    ensures Eval(e, row) == Ok(Bool(false))
    ensures Selected(Some(e), row) == Ok(false)
  {
  }

  /** OR evaluates exactly as AND. */
  lemma OrIsAnd(l: Expr, r: Expr, row: Row)
    ensures Eval(Binary("OR", l, r), row) == Eval(Binary("AND", l, r), row)
  {
  }

  /** On two conditions, OR selects a row only when both hold. */
  lemma OrOfConditions(l: Expr, r: Expr, row: Row, x: bool, y: bool)
    requires GetVal(l, row) == Ok(Bool(x)) && GetVal(r, row) == Ok(Bool(y))
    ensures Eval(Binary("OR", l, r), row) == Ok(Bool(x && y))
    ensures Selected(Some(Binary("OR", l, r)), row) == Ok(x && y)
  {
  }

  /** `true OR false` rejects the row. */
  lemma OrTrueFalse(row: Row)
    ensures Selected(Some(Binary("OR", Literal(Bool(true)), Literal(Bool(false)))), row) == Ok(false)
  {
  }

  /** OR as evidently intended, JavaScript's `||`: the left operand if it
      is truthy, the right one otherwise. */
  function Disjunction(l: Expr, r: Expr, row: Row): (v: Result<Value>)
    ensures GetVal(l, row).Err? ==> v == GetVal(l, row)
    ensures GetVal(l, row).Ok? && Truthy(GetVal(l, row).value) ==> v == GetVal(l, row)
    ensures GetVal(l, row).Ok? && !Truthy(GetVal(l, row).value) ==> v == GetVal(r, row)
  {
    var a :- GetVal(l, row);
    if Truthy(a) then Ok(a) else GetVal(r, row)
  }

  /** On two conditions, the intended OR holds when either does, and it
      differs from the evaluated OR exactly when one holds and the other
      does not. */
  lemma DisjunctionOfConditions(l: Expr, r: Expr, row: Row, x: bool, y: bool)
    requires GetVal(l, row) == Ok(Bool(x)) && GetVal(r, row) == Ok(Bool(y))
    ensures Disjunction(l, r, row) == Ok(Bool(x || y))
    ensures Disjunction(l, r, row) != Eval(Binary("OR", l, r), row) <==> x != y
  {
  }

  /** NOT LIKE is LIKE negated, errors included. */
  lemma NotLikeNegates(l: Expr, r: Expr, row: Row)
    ensures var like := Eval(Binary("LIKE", l, r), row);
            Eval(Binary("NOT LIKE", l, r), row) == if like.Ok? then Ok(Bool(!like.value.b)) else like
  {
  }

  /** A LIKE against a string literal is the pattern test on the left
      operand's string form. */
  lemma LikeLiteral(l: Expr, pattern: string, row: Row)
    requires GetVal(l, row).Ok?
    ensures Eval(Binary("LIKE", l, Literal(Str(pattern))), row) ==
              match LikeTest(pattern, GetVal(l, row).value)
              case Ok(m) => Ok(Bool(m))
              case Err(err) => Err(err)
  {
  }

  /** The column names an expression reads. */
  function ColumnsOf(e: Expr): set<string> {
    match e
    case ColumnRef(c) => {c}
    case Binary(_, l, r) => ColumnsOf(l) + ColumnsOf(r)
    case _ => {}
  }

  /** Whether a LIKE or NOT LIKE occurs among the operators that are
      evaluated (the operands of an aggregate are not). */
  predicate HasLike(e: Expr) {
    match e
    case Binary(op, l, r) => op == "LIKE" || op == "NOT LIKE" || HasLike(l) || HasLike(r)
    case _ => false
  }

  /** Rows that agree on the columns an expression reads evaluate it the
      same way. */
  lemma {:induction false} EvalFrame(e: Expr, row1: Row, row2: Row)
    requires forall c :: c in ColumnsOf(e) ==> Lookup(row1, c) == Lookup(row2, c)
    ensures GetVal(e, row1) == GetVal(e, row2)
    ensures Eval(e, row1) == Eval(e, row2)
  {
    match e
    case Binary(op, l, r) =>
      EvalFrame(l, row1, row2);
      EvalFrame(r, row1, row2);
    case _ =>
  }

  /** Only LIKE can fail: an expression without it always evaluates. */
  lemma {:induction false} NoLikeNoError(e: Expr, row: Row)
    requires !HasLike(e)
    ensures GetVal(e, row).Ok? && Eval(e, row).Ok?
  {
    match e
    case Binary(op, l, r) =>
      NoLikeNoError(l, row);
      NoLikeNoError(r, row);
    case _ =>
  }
}
