/** The select list (`chooseFields`): how a selected row is added to the
    result, either as a projection or into the single aggregate row. */
module Projection {
  import opened Values
  import opened Where
  import opened Table

  /** One entry of a select list, with its optional `AS` alias. */
  datatype Column = Column(expr: Expr, alias: Option<string>)

  /** `SELECT *` or a list of columns. */
  datatype Columns = Star | List(cols: seq<Column>)

  /** `String(expr.column)`: the column a node names, or "undefined" for a
      node that names none. */
  function KeyName(e: Expr): (k: string)
    ensures e.ColumnRef? ==> k == e.column
    ensures !e.ColumnRef? ==> k == "undefined"
  {
    if e.ColumnRef? then e.column else "undefined"
  }

  /** `col.as || fallback`: an empty alias counts as none. */
  function AliasOr(alias: Option<string>, fallback: string): (k: string)
    ensures alias.Some? && alias.value != "" ==> k == alias.value
    ensures alias.None? || alias.value == "" ==> k == fallback
  {
    if alias.Some? && alias.value != "" then alias.value else fallback
  }

  /** The result key of a plain column. */
  function Name(col: Column): string {
    AliasOr(col.alias, KeyName(col.expr))
  }

  /** `toUpperCase` on ASCII letters. */
  function Upper(s: string): (u: string)
    ensures |u| == |s|
    ensures forall i :: 0 <= i < |s| ==> u[i] == if 'a' <= s[i] <= 'z' then (s[i] as int - 32) as char else s[i]
  {
    seq(|s|, i requires 0 <= i < |s| => if 'a' <= s[i] <= 'z' then (s[i] as int - 32) as char else s[i])
  }

  /** Upper-casing equals a word of capitals exactly when the string is
      that word with any of its letters in either case: `sum`, `Sum` and
      `SUM` all name SUM. */
  lemma UpperEquals(f: string, w: string)
    requires forall i :: 0 <= i < |w| ==> 'A' <= w[i] <= 'Z'
    ensures Upper(f) == w <==> |f| == |w| && forall i :: 0 <= i < |w| ==> f[i] == w[i] || f[i] as int == w[i] as int + 32
  {
    if |f| == |w| && forall i :: 0 <= i < |w| ==> f[i] == w[i] || f[i] as int == w[i] as int + 32 {
      forall i | 0 <= i < |w| ensures Upper(f)[i] == w[i] {
        if f[i] != w[i] {
          assert 'a' <= f[i] <= 'z';
        }
      }
    }
  }

  /** The result key of an aggregate: `SUM(price)`, `COUNT(undefined)` for
      `COUNT(*)`, or the alias. */
  function AggregateName(col: Column): string
    requires col.expr.Aggregate?
  {
    AliasOr(col.alias, Upper(col.expr.name) + "(" + KeyName(col.expr.arg) + ")")
  }

  /** `columns.some(col => col.expr.type === 'aggr_func')`. */
  predicate IsAggregate(cols: seq<Column>) {
    exists i :: 0 <= i < |cols| && cols[i].expr.Aggregate?
  }

  /** The non-aggregate row: `result[name] = row[expr.column]` for every
      column in turn. */
  function Project(cols: seq<Column>, row: Row): Row {
    MakeRow(seq(|cols|, i requires 0 <= i < |cols| => Str(Name(cols[i]))),
            seq(|cols|, i requires 0 <= i < |cols| => Lookup(row, KeyName(cols[i].expr))))
  }

  /** The projected row has one key per column name, and where names
      repeat the rightmost column's value wins. */
  lemma ProjectSpec(cols: seq<Column>, row: Row, key: string)
    ensures key in Project(cols, row) <==> exists i :: 0 <= i < |cols| && Name(cols[i]) == key
    ensures forall i :: 0 <= i < |cols| && Name(cols[i]) == key && (forall j :: i < j < |cols| ==> Name(cols[j]) != key) ==>
              key in Project(cols, row) && Project(cols, row)[key] == Lookup(row, KeyName(cols[i].expr))
  {
    var names := seq(|cols|, i requires 0 <= i < |cols| => Str(Name(cols[i])));
    var vals := seq(|cols|, i requires 0 <= i < |cols| => Lookup(row, KeyName(cols[i].expr)));
    MakeRowKeys(names, vals, key);
    if exists i :: 0 <= i < |names| && ToStr(names[i]) == key {
      var i :| 0 <= i < |names| && ToStr(names[i]) == key;
      assert Name(cols[i]) == key;
    }
    if exists i :: 0 <= i < |cols| && Name(cols[i]) == key {
      var i :| 0 <= i < |cols| && Name(cols[i]) == key;
      assert ToStr(names[i]) == key;
    }
    forall i | 0 <= i < |cols| && Name(cols[i]) == key && (forall j :: i < j < |cols| ==> Name(cols[j]) != key)
      ensures key in Project(cols, row) && Project(cols, row)[key] == Lookup(row, KeyName(cols[i].expr))
    {
      assert LastWithKey(names, i) by {
        forall j | i < j < |names| ensures ToStr(names[j]) != ToStr(names[i]) {
          assert Name(cols[j]) != key;
        }
      }
      MakeRowValue(names, vals, i);
    }
  }

  /** The key an aggregate-mode column writes, if any: a plain column its
      name, SUM and COUNT their aggregate name; any other column nothing. */
  function Writes(col: Column): Option<string> {
    match col.expr
    case ColumnRef(_) => Some(Name(col))
    case Aggregate(f, _) =>
      if Upper(f) == "SUM" || Upper(f) == "COUNT" then Some(AggregateName(col)) else None
    case _ => None
  }

  /** The value a writing column stores, given the value its key held. SUM
      and COUNT start from 0 when the entry is undefined; SUM adds the
      row's value with JavaScript's `+`, COUNT increments; a plain column
      takes the row's value. */
  function Next(col: Column, prev: Value, row: Row): (v: Value)
    requires Writes(col).Some?
  {
    match col.expr
    case ColumnRef(c) => Lookup(row, c)
    case Aggregate(f, arg) =>
      var start := if prev == Undef then Num(0) else prev;
      if Upper(f) == "SUM" then Add(start, Lookup(row, KeyName(arg))) else Increment(start)
  }

  /** One column of the aggregate row taking in one selected row: a column
      that writes a key stores `Next` there, any other leaves the row as
      it was. */
  function Step(col: Column, acc: Row, row: Row): (r: Row)
    ensures Writes(col).None? ==> r == acc
    ensures Writes(col).Some? ==> r.Keys == acc.Keys + {Writes(col).value}
    ensures Writes(col).Some? ==> forall k :: k in acc && k != Writes(col).value ==> r[k] == acc[k]
  {
    match Writes(col)
    case None => acc
    case Some(key) => acc[key := Next(col, Lookup(acc, key), row)]
  }

  /** Every column of the list taking in the row, in order. */
  function Accumulate(cols: seq<Column>, acc: Row, row: Row): Row
    decreases |cols|
  {
    if cols == [] then acc
    else var n := |cols| - 1; Step(cols[n], Accumulate(cols[..n], acc, row), row)
  }

  /** `chooseFields(sqlObj, data, row)`: `*` appends the row as is; an
      aggregate list folds the row into `data[0]`, creating it on the
      first selected row; any other list appends the projection. */
  function Choose(columns: Columns, data: seq<Row>, row: Row): (r: seq<Row>)
    ensures columns.Star? ==> r == data + [row]
    ensures columns.List? && !IsAggregate(columns.cols) ==> r == data + [Project(columns.cols, row)]
    ensures columns.List? && IsAggregate(columns.cols) ==>
              |r| == (if data == [] then 1 else |data|) && r[1..] == (if data == [] then [] else data[1..])
  {
    match columns
    case Star => data + [row]
    case List(cols) =>
      if IsAggregate(cols) then
        var d := if data == [] then [map[]] else data;
        d[0 := Accumulate(cols, d[0], row)]
      else data + [Project(cols, row)]
  }

  /** `chooseFields`, with its loops over the select list. */
  method ChooseFields(columns: Columns, data: seq<Row>, row: Row) returns (r: seq<Row>)
    ensures r == Choose(columns, data, row)
  {
    if columns.Star? {
      return data + [row];
    }
    var cols := columns.cols;
    var i := 0;
    while i < |cols| && !cols[i].expr.Aggregate?
      invariant 0 <= i <= |cols|
      invariant forall k :: 0 <= k < i ==> !cols[k].expr.Aggregate?
    {
      i := i + 1;
    }
    if i < |cols| {
      var d := if data == [] then [map[]] else data;
      var acc := d[0];
      for n := 0 to |cols|
        invariant acc == Accumulate(cols[..n], d[0], row)
      {
        assert cols[..n + 1][..n] == cols[..n];
        acc := Step(cols[n], acc, row);
      }
      assert cols[..|cols|] == cols;
      r := d[0 := acc];
    } else {
      var names := seq(|cols|, i requires 0 <= i < |cols| => Str(Name(cols[i])));
      var vals := seq(|cols|, i requires 0 <= i < |cols| => Lookup(row, KeyName(cols[i].expr)));
      var result := BuildRow(names, vals);
      r := data + [result];
    }
  }

  /** The result of a select list over the selected rows, in order. */
  function ChooseAll(columns: Columns, rows: seq<Row>): seq<Row>
    decreases |rows|
  {
    if rows == [] then []
    else var n := |rows| - 1; Choose(columns, ChooseAll(columns, rows[..n]), rows[n])
  }

  /** One more selected row goes through `chooseFields` after the rest. */
  lemma ChooseAllSnoc(columns: Columns, rows: seq<Row>, row: Row)
    ensures ChooseAll(columns, rows + [row]) == Choose(columns, ChooseAll(columns, rows), row)
  {
    assert (rows + [row])[..|rows|] == rows;
  }

  /** `*` returns the selected rows themselves. */
  lemma {:induction false} ChooseAllStar(rows: seq<Row>)
    ensures ChooseAll(Star, rows) == rows
    decreases |rows|
  {
    if rows != [] {
      var n := |rows| - 1;
      ChooseAllStar(rows[..n]);
      assert rows == rows[..n] + [rows[n]];
    }
  }

  /** A plain list returns one projected row per selected row. */
  lemma {:induction false} ChooseAllProject(cols: seq<Column>, rows: seq<Row>)
    requires !IsAggregate(cols)
    ensures |ChooseAll(List(cols), rows)| == |rows|
    ensures forall i :: 0 <= i < |rows| ==> ChooseAll(List(cols), rows)[i] == Project(cols, rows[i])
    decreases |rows|
  {
    if rows != [] {
      var n := |rows| - 1;
      ChooseAllProject(cols, rows[..n]);
    }
  }

  /** An aggregate list returns a single row when some row is selected and
      no row at all otherwise. */
  lemma {:induction false} ChooseAllAggregateSize(cols: seq<Column>, rows: seq<Row>)
    requires IsAggregate(cols)
    ensures |ChooseAll(List(cols), rows)| == if rows == [] then 0 else 1
    decreases |rows|
  {
    if rows != [] {
      var n := |rows| - 1;
      ChooseAllAggregateSize(cols, rows[..n]);
    }
  }

  /** Only the column with key `key` among `cols`. */
  predicate SoleWriter(cols: seq<Column>, j: int, key: string) {
    0 <= j < |cols| && Writes(cols[j]) == Some(key)
    && forall i :: 0 <= i < |cols| && i != j ==> Writes(cols[i]) != Some(key)
  }

  /** Columns that do not write `key` leave it as it was. */
  lemma {:induction false} AccumulateUntouched(cols: seq<Column>, acc: Row, row: Row, key: string)
    requires forall i :: 0 <= i < |cols| ==> Writes(cols[i]) != Some(key)
    ensures Lookup(Accumulate(cols, acc, row), key) == Lookup(acc, key)
    decreases |cols|
  {
    if cols != [] {
      var n := |cols| - 1;
      AccumulateUntouched(cols[..n], acc, row, key);
    }
  }

  /** The one column that writes `key` decides it from its previous value. */
  lemma {:induction false} AccumulateSole(cols: seq<Column>, j: int, acc: Row, row: Row, key: string)
    requires SoleWriter(cols, j, key)
    ensures Lookup(Accumulate(cols, acc, row), key) == Next(cols[j], Lookup(acc, key), row)
    decreases |cols|
  {
    var n := |cols| - 1;
    if j == n {
      AccumulateUntouched(cols[..n], acc, row, key);
    } else {
      assert SoleWriter(cols[..n], j, key);
      AccumulateSole(cols[..n], j, acc, row, key);
    }
  }

  /** What the sole writer of a key holds after the rows, one after the
      other: undefined before the first. */
  function Running(col: Column, rows: seq<Row>): Value
    requires Writes(col).Some?
    decreases |rows|
  {
    if rows == [] then Undef
    else var n := |rows| - 1; Next(col, Running(col, rows[..n]), rows[n])
  }

  /** The aggregate row holds, at each key with a sole writer, that
      column's running value over the selected rows. */
  lemma {:induction false} AggregateEntry(cols: seq<Column>, j: int, rows: seq<Row>, key: string)
    requires IsAggregate(cols) && SoleWriter(cols, j, key) && rows != []
    ensures |ChooseAll(List(cols), rows)| == 1
    ensures Lookup(ChooseAll(List(cols), rows)[0], key) == Running(cols[j], rows)
    decreases |rows|
  {
    var n := |rows| - 1;
    ChooseAllAggregateSize(cols, rows);
    ChooseAllAggregateSize(cols, rows[..n]);
    var before := ChooseAll(List(cols), rows[..n]);
    if n == 0 {
      assert rows[..n] == [];
      AccumulateSole(cols, j, map[], rows[n], key);
    } else {
      AggregateEntry(cols, j, rows[..n], key);
      AccumulateSole(cols, j, before[0], rows[n], key);
    }
  }

  /** COUNT counts the selected rows. */
  lemma {:induction false} CountRunning(col: Column, rows: seq<Row>)
    requires col.expr.Aggregate? && Upper(col.expr.name) == "COUNT"
    ensures Writes(col).Some?
    ensures Running(col, rows) == if rows == [] then Undef else Num(|rows|)
    decreases |rows|
  {
    if rows != [] {
      CountRunning(col, rows[..|rows| - 1]);
    }
  }

  /** The numbers a column holds across rows, summed. */
  function SumOf(rows: seq<Row>, key: string): int
    decreases |rows|
  {
    if rows == [] then 0
    else var n := |rows| - 1; SumOf(rows[..n], key) + (if Lookup(rows[n], key).Num? then Lookup(rows[n], key).n else 0)
  }

  /** SUM over rows whose column holds numbers is their total. */
  lemma {:induction false} SumRunning(col: Column, rows: seq<Row>)
    requires col.expr.Aggregate? && Upper(col.expr.name) == "SUM"
    requires forall i :: 0 <= i < |rows| ==> Lookup(rows[i], KeyName(col.expr.arg)).Num?
    ensures Writes(col).Some?
    ensures Running(col, rows) == if rows == [] then Undef else Num(SumOf(rows, KeyName(col.expr.arg)))
    decreases |rows|
  {
    if rows != [] {
      SumRunning(col, rows[..|rows| - 1]);
    }
  }

  /** A plain column in an aggregate list holds the last selected row's
      value. */
  lemma PlainRunning(col: Column, rows: seq<Row>)
    requires col.expr.ColumnRef? && rows != []
    ensures Writes(col).Some?
    ensures Running(col, rows) == Lookup(rows[|rows| - 1], col.expr.column)
  {
  }
}
