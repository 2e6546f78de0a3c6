/** INSERT (`doInsert`): each tuple becomes an object of column name to
    value, which is laid out along the header and written with `update` at
    row `height`, the row just below the body. The body never grows, so
    every tuple is written over the same row. */
module Insert {
  import opened Values
  import opened Grid
  import opened Table
  import opened Assign

  /** `INSERT INTO table (columns) VALUES tuples`; each tuple holds the
      literal values in column order. */
  datatype InsertStmt = InsertStmt(table: string, columns: seq<string>, values: seq<seq<Value>>)

  /** The row `dataArray` starts as: every cell undefined. */
  function Blank(w: nat): (r: seq<Value>)
    ensures |r| == w && forall j :: 0 <= j < w ==> r[j] == Undef
  {
    seq(w, _ => Undef)
  }

  /** The header-ordered row one data object is written as. */
  function Laid(headers: seq<Value>, data: Row): (r: seq<Value>)
    ensures |r| == |headers|
  {
    ApplySet(headers, Blank(|headers|), data)
  }

  /** The insert loop from tuple `i` on: `below` is what the row beneath
      the body holds once written, `acc` the objects reported so far. A
      tuple with fewer values than there are columns fails (its `n`-th
      value is read from `undefined`), after the earlier tuples were
      written. */
  function InsertRun(headers: seq<Value>, columns: seq<string>, tuples: seq<seq<Value>>,
                     i: nat, below: Option<seq<Value>>, acc: seq<Row>): (r: (Result<seq<Row>>, Option<seq<Value>>))
    requires below.Some? ==> |below.value| == |headers|
    ensures r.1.Some? ==> |r.1.value| == |headers|
    decreases |tuples| - i
  {
    if i >= |tuples| then (Ok(acc), below)
    else if |tuples[i]| < |columns| then (Err(TypeError), below)
    else
      var data := ObjectOf(columns, tuples[i]);
      InsertRun(headers, columns, tuples, i + 1, Some(Laid(headers, data)), acc + [data])
  }

  /** Every tuple supplies a value for each column. */
  predicate Complete(columns: seq<string>, tuples: seq<seq<Value>>) {
    forall i :: 0 <= i < |tuples| ==> |tuples[i]| >= |columns|
  }

  /** The objects of the tuples from `i` on. */
  function Objects(columns: seq<string>, tuples: seq<seq<Value>>, i: nat): (r: seq<Row>)
    requires i <= |tuples|
    ensures |r| == |tuples| - i
    ensures forall k :: 0 <= k < |r| ==> r[k] == ObjectOf(columns, tuples[i + k])
  {
    seq(|tuples| - i, k requires 0 <= k < |tuples| - i => ObjectOf(columns, tuples[i + k]))
  }

  lemma {:induction false} InsertRunFrom(headers: seq<Value>, columns: seq<string>, tuples: seq<seq<Value>>,
                                         i: nat, below: Option<seq<Value>>, acc: seq<Row>)
    requires Complete(columns, tuples) && i <= |tuples|
    requires below.Some? ==> |below.value| == |headers|
    ensures InsertRun(headers, columns, tuples, i, below, acc) ==
              (Ok(acc + Objects(columns, tuples, i)),
               if i < |tuples| then Some(Laid(headers, ObjectOf(columns, tuples[|tuples| - 1]))) else below)
    decreases |tuples| - i
  {
    if i < |tuples| {
      var data := ObjectOf(columns, tuples[i]);
      InsertRunFrom(headers, columns, tuples, i + 1, Some(Laid(headers, data)), acc + [data]);
      assert acc + [data] + Objects(columns, tuples, i + 1) == acc + Objects(columns, tuples, i);
    } else {
      assert acc + Objects(columns, tuples, i) == acc;
    }
  }

  /** When every tuple is complete, INSERT reports one object per tuple, in
      order, and only the last tuple is left in the sheet, below the body. */
  lemma InsertLastWins(headers: seq<Value>, columns: seq<string>, tuples: seq<seq<Value>>)
    requires Complete(columns, tuples) && tuples != []
    ensures InsertRun(headers, columns, tuples, 0, None, []) ==
              (Ok(Objects(columns, tuples, 0)), Some(Laid(headers, ObjectOf(columns, tuples[|tuples| - 1]))))
  {
    InsertRunFrom(headers, columns, tuples, 0, None, []);
    assert [] + Objects(columns, tuples, 0) == Objects(columns, tuples, 0);
  }

  /** The rows the tuples from 0 to `n` are written as, in order. */
  function Written(headers: seq<Value>, columns: seq<string>, tuples: seq<seq<Value>>, n: nat): (r: seq<seq<Value>>)
    requires n <= |tuples|
    ensures |r| == n
    ensures forall k :: 0 <= k < n ==> r[k] == Laid(headers, ObjectOf(columns, tuples[k]))
  {
    seq(n, k requires 0 <= k < n => Laid(headers, ObjectOf(columns, tuples[k])))
  }

  /** The insert loop as evidently intended: each tuple is written on a
      row of its own below the ones written before, so the table grows by
      one row per tuple. */
  function InsertAppend(headers: seq<Value>, columns: seq<string>, tuples: seq<seq<Value>>,
                        i: nat, written: seq<seq<Value>>, acc: seq<Row>): (Result<seq<Row>>, seq<seq<Value>>)
    decreases |tuples| - i
  {
    if i >= |tuples| then (Ok(acc), written)
    else if |tuples[i]| < |columns| then (Err(TypeError), written)
    else
      var data := ObjectOf(columns, tuples[i]);
      InsertAppend(headers, columns, tuples, i + 1, written + [Laid(headers, data)], acc + [data])
  }

  lemma {:induction false} InsertAppendFrom(headers: seq<Value>, columns: seq<string>, tuples: seq<seq<Value>>, i: nat)
    requires Complete(columns, tuples) && i <= |tuples|
    ensures InsertAppend(headers, columns, tuples, i, Written(headers, columns, tuples, i), Objects(columns, tuples, 0)[..i]) ==
              (Ok(Objects(columns, tuples, 0)), Written(headers, columns, tuples, |tuples|))
    decreases |tuples| - i
  {
    var all := Objects(columns, tuples, 0);
    if i == |tuples| {
      assert all[..i] == all;
    } else {
      var data := ObjectOf(columns, tuples[i]);
      assert Written(headers, columns, tuples, i) + [Laid(headers, data)] == Written(headers, columns, tuples, i + 1);
      assert all[..i] + [data] == all[..i + 1];
      InsertAppendFrom(headers, columns, tuples, i + 1);
    }
  }

  /** The intended INSERT reports one object per tuple and writes every
      tuple, in order, one row each. */
  lemma InsertAppendSpec(headers: seq<Value>, columns: seq<string>, tuples: seq<seq<Value>>)
    requires Complete(columns, tuples)
    ensures InsertAppend(headers, columns, tuples, 0, [], []) ==
              (Ok(Objects(columns, tuples, 0)), Written(headers, columns, tuples, |tuples|))
  {
    assert Written(headers, columns, tuples, 0) == [];
    assert Objects(columns, tuples, 0)[..0] == [];
    InsertAppendFrom(headers, columns, tuples, 0);
  }

  /** Two tuples that lay out differently: the first one written is lost. */
  lemma InsertLosesTuple(headers: seq<Value>, columns: seq<string>, t1: seq<Value>, t2: seq<Value>)
    requires |t1| >= |columns| && |t2| >= |columns|
    requires Laid(headers, ObjectOf(columns, t1)) != Laid(headers, ObjectOf(columns, t2))
    ensures InsertRun(headers, columns, [t1, t2], 0, None, []).1 == Some(Laid(headers, ObjectOf(columns, t2)))
    ensures Laid(headers, ObjectOf(columns, t1)) in InsertAppend(headers, columns, [t1, t2], 0, [], []).1
  {
    assert Complete(columns, [t1, t2]);
    InsertLastWins(headers, columns, [t1, t2]);
    InsertAppendSpec(headers, columns, [t1, t2]);
    assert Written(headers, columns, [t1, t2], 2)[0] == Laid(headers, ObjectOf(columns, t1));
  }

  /** A tuple that lacks a value stops the statement with a TypeError. */
  lemma InsertShortTuple(headers: seq<Value>, columns: seq<string>, tuples: seq<seq<Value>>, k: nat)
    requires k < |tuples| && |tuples[k]| < |columns| && Complete(columns, tuples[..k])
    ensures InsertRun(headers, columns, tuples, 0, None, []).0 == Err(TypeError)
  {
    InsertShortFrom(headers, columns, tuples, k, 0, None, []);
  }

  lemma {:induction false} InsertShortFrom(headers: seq<Value>, columns: seq<string>, tuples: seq<seq<Value>>,
                                           k: nat, i: nat, below: Option<seq<Value>>, acc: seq<Row>)
    requires i <= k < |tuples| && |tuples[k]| < |columns| && Complete(columns, tuples[..k])
    requires below.Some? ==> |below.value| == |headers|
    ensures InsertRun(headers, columns, tuples, i, below, acc).0 == Err(TypeError)
    decreases k - i
  {
    if i < k {
      assert tuples[..k][i] == tuples[i];
      var data := ObjectOf(columns, tuples[i]);
      InsertShortFrom(headers, columns, tuples, k, i + 1, Some(Laid(headers, data)), acc + [data]);
    }
  }

  /** Reading the written row back: a column whose header is a string
      naming an inserted column (and is the first header with that name)
      holds that column's last value in the tuple; every other column is
      left undefined. */
  lemma LaidReadBack(headers: seq<Value>, columns: seq<string>, tuple: seq<Value>, n: int)
    requires |tuple| >= |columns| && 0 <= n < |headers|
    ensures var cell := Laid(headers, ObjectOf(columns, tuple))[n];
            if headers[n].Str? && headers[n].s in columns && IndexOf(headers, headers[n].s) == n then
              exists j :: 0 <= j < |columns| && columns[j] == headers[n].s && cell == tuple[j]
                          && forall m :: j < m < |columns| ==> columns[m] != headers[n].s
            else cell == Undef
  {
    if headers[n].Str? {
      var key := headers[n].s;
      ObjectOfSpec(columns, tuple, key);
      if key in columns {
        var j := LastIndexOf(columns, key);
        assert Element(tuple, j) == tuple[j];
      }
    }
  }

  /** `doInsert` on an opened table. The body and header stay as they were;
      the row beneath the body holds the last tuple written. */
  method InsertTable(t: XlsxTable, stmt: InsertStmt) returns (r: Result<seq<Row>>)
    requires t.Valid()
    modifies t.sheet
    ensures t.Valid() && t.Headers() == old(t.Headers()) && t.Body() == old(t.Body())
    ensures var run := InsertRun(old(t.Headers()), stmt.columns, stmt.values, 0, None, []);
            r == run.0
            && forall i, j {:trigger At(t.sheet.cells, i, j)} :: At(t.sheet.cells, i, j) ==
                 (if run.1.Some? && i == t.bottom + 1 && t.left <= j <= t.right then run.1.value[j - t.left]
                  else At(old(t.sheet.cells), i, j))
  {
    var headers := t.Headers();
    var cols := stmt.columns;
    var names := seq(|cols|, i requires 0 <= i < |cols| => Str(cols[i]));
    var order := KeyOrder(stmt.columns);
    ghost var below: Option<seq<Value>> := None;
    var rows: seq<Row> := [];
    for i := 0 to |stmt.values|
      invariant t.Valid() && t.Headers() == headers && t.Body() == old(t.Body())
      invariant below.Some? ==> |below.value| == |headers|
      invariant InsertRun(headers, stmt.columns, stmt.values, 0, None, []) ==
                  InsertRun(headers, stmt.columns, stmt.values, i, below, rows)
      invariant forall r, j {:trigger At(t.sheet.cells, r, j)} :: At(t.sheet.cells, r, j) ==
                  (if below.Some? && r == t.bottom + 1 && t.left <= j <= t.right then below.value[j - t.left]
                   else At(old(t.sheet.cells), r, j))
    {
      var tuple := stmt.values[i];
      if |tuple| < |stmt.columns| {
        return Err(TypeError);
      }
      var data := BuildRow(names, tuple);
      assert data == ObjectOf(stmt.columns, tuple);
      assert forall k :: k in order <==> k in data by {
        forall k ensures k in order <==> k in data {
          ObjectOfSpec(stmt.columns, tuple, k);
        }
      }
      var dataArray := AssignKeys(headers, Blank(|headers|), data, order);
      t.Update(t.Height(), dataArray);
      below := Some(dataArray);
      rows := rows + [data];
    }
    r := Ok(rows);
  }

  /** `doInsert`: open the table named by the statement and run. */
  method DoInsert(book: seq<Worksheet>, stmt: InsertStmt) returns (r: Result<seq<Row>>)
    modifies set s | s in book
    ensures old(ResolveRange(book, stmt.table)).Err? ==>
              r == Err(old(ResolveRange(book, stmt.table)).error) && forall w :: w in book ==> w.cells == old(w.cells)
    ensures old(ResolveRange(book, stmt.table)).Ok? ==>
              var s := old(ResolveRange(book, stmt.table)).value.0;
              var e := old(ResolveRange(book, stmt.table)).value.1;
              var run := old(InsertRun(HeaderRow(s.cells, e), stmt.columns, stmt.values, 0, None, []));
              r == run.0
              && HeaderRow(s.cells, e) == old(HeaderRow(s.cells, e))
              && BodyRows(s.cells, e) == old(BodyRows(s.cells, e))
              && (run.1.Some? ==> RowAt(s.cells, e.bottom + 1, e.left, Span(e)) == run.1.value)
              && (run.1.None? ==> RowAt(s.cells, e.bottom + 1, e.left, Span(e)) == old(RowAt(s.cells, e.bottom + 1, e.left, Span(e))))
              && SameOutside(s.cells, old(s.cells), e.bottom + 1, e.bottom + 1, e.left, e.right)
              && forall w :: w in book && w != s ==> w.cells == old(w.cells)
  {
    var t := Open(book, stmt.table);
    if t.Err? {
      return Err(t.error);
    }
    r := InsertTable(t.value, stmt);
  }
}
