/** UPDATE (`doUpdate`): every body row the WHERE selects gets the SET
    values written into the columns they name, and the rows as they were
    before the update are returned. */
module Update {
  import opened Values
  import opened Grid
  import opened Table
  import opened Where
  import opened Select
  import opened Assign

  /** `column = value` of a SET list; the value is a literal's. */
  datatype Assignment = Assignment(column: string, value: Value)

  datatype UpdateStmt = UpdateStmt(table: string, assignments: seq<Assignment>, where: Option<Expr>)

  function SetColumns(assignments: seq<Assignment>): (r: seq<string>)
    ensures |r| == |assignments| && forall i :: 0 <= i < |assignments| ==> r[i] == assignments[i].column
  {
    seq(|assignments|, i requires 0 <= i < |assignments| => assignments[i].column)
  }

  function SetValues(assignments: seq<Assignment>): (r: seq<Value>)
    ensures |r| == |assignments| && forall i :: 0 <= i < |assignments| ==> r[i] == assignments[i].value
  {
    seq(|assignments|, i requires 0 <= i < |assignments| => assignments[i].value)
  }

  /** `updateObj`: column to value, the last assignment to a column winning. */
  function UpdateObject(assignments: seq<Assignment>): Row {
    ObjectOf(SetColumns(assignments), SetValues(assignments))
  }

  /** Body rows all as wide as the header. */
  predicate Rectangular(headers: seq<Value>, body: seq<seq<Value>>) {
    forall k :: 0 <= k < |body| ==> |body[k]| == |headers|
  }

  /** The update loop from row `i` on: `raw` is the body as read at the
      start, `live` the body as written so far, `acc` the rows reported so
      far. A WHERE that fails stops the loop with the rows before it already
      written. */
  function UpdateRun(where: Option<Expr>, headers: seq<Value>, raw: seq<seq<Value>>, obj: Row,
                     i: nat, live: seq<seq<Value>>, acc: seq<Row>): (Result<seq<Row>>, seq<seq<Value>>)
    requires Rectangular(headers, raw) && |live| == |raw|
    decreases |raw| - i
  {
    if i >= |raw| then (Ok(acc), live)
    else
      var row := MakeRow(headers, raw[i]);
      match Selected(where, row)
      case Err(e) => (Err(e), live)
      case Ok(sel) =>
        if sel then UpdateRun(where, headers, raw, obj, i + 1, live[i := ApplySet(headers, raw[i], obj)], acc + [row])
        else UpdateRun(where, headers, raw, obj, i + 1, live, acc)
  }

  /** One step of the run at row `i`. */
  lemma UpdateRunStep(where: Option<Expr>, headers: seq<Value>, raw: seq<seq<Value>>, obj: Row,
                      i: nat, live: seq<seq<Value>>, acc: seq<Row>)
    requires Rectangular(headers, raw) && |live| == |raw| && i < |raw|
    ensures var row := MakeRow(headers, raw[i]);
            var run := UpdateRun(where, headers, raw, obj, i, live, acc);
            match Selected(where, row)
            case Err(e) => run == (Err(e), live)
            case Ok(sel) =>
              run == if sel then UpdateRun(where, headers, raw, obj, i + 1, live[i := ApplySet(headers, raw[i], obj)], acc + [row])
                     else UpdateRun(where, headers, raw, obj, i + 1, live, acc)
  {
  }

  /** The body an update that succeeds leaves: each selected row with the
      SET values written over it, every other row as it was. */
  function Updated(where: Option<Expr>, headers: seq<Value>, raw: seq<seq<Value>>, obj: Row): (r: seq<seq<Value>>)
    requires Rectangular(headers, raw)
    ensures |r| == |raw|
  {
    seq(|raw|, k requires 0 <= k < |raw| =>
      if Selected(where, MakeRow(headers, raw[k])) == Ok(true) then ApplySet(headers, raw[k], obj) else raw[k])
  }

  lemma {:induction false} UpdateRunFrom(where: Option<Expr>, headers: seq<Value>, raw: seq<seq<Value>>, obj: Row,
                                         i: nat, live: seq<seq<Value>>, acc: seq<Row>)
    requires Rectangular(headers, raw) && |live| == |raw| && i <= |raw|
    requires Matching(where, headers, raw[..i]) == Ok(acc)
    requires forall k :: 0 <= k < i ==> live[k] == Updated(where, headers, raw, obj)[k]
    requires forall k :: i <= k < |raw| ==> live[k] == raw[k]
    ensures UpdateRun(where, headers, raw, obj, i, live, acc).0 == Matching(where, headers, raw)
    ensures Matching(where, headers, raw).Ok? ==>
              UpdateRun(where, headers, raw, obj, i, live, acc).1 == Updated(where, headers, raw, obj)
    decreases |raw| - i
  {
    if i == |raw| {
      assert raw[..i] == raw;
      assert live == Updated(where, headers, raw, obj);
    } else {
      MatchingStep(where, headers, raw, i);
      UpdateRunStep(where, headers, raw, obj, i, live, acc);
      var row := MakeRow(headers, raw[i]);
      var sel := Selected(where, row);
      if sel.Err? {
        MatchingFailureStays(where, headers, raw, i + 1);
      } else {
        var updated := Updated(where, headers, raw, obj);
        var live' := if sel.value then live[i := ApplySet(headers, raw[i], obj)] else live;
        var acc' := if sel.value then acc + [row] else acc;
        assert Matching(where, headers, raw[..i + 1]) == Ok(acc');
        assert UpdateRun(where, headers, raw, obj, i, live, acc) == UpdateRun(where, headers, raw, obj, i + 1, live', acc');
        assert forall k :: 0 <= k < i + 1 ==> live'[k] == updated[k];
        assert forall k :: i + 1 <= k < |raw| ==> live'[k] == raw[k];
        UpdateRunFrom(where, headers, raw, obj, i + 1, live', acc');
      }
    }
  }

  /** UPDATE reports exactly the rows a SELECT * with the same WHERE
      returns, as they were before the update, and when it succeeds leaves
      the body `Updated`. */
  lemma UpdateSpec(where: Option<Expr>, headers: seq<Value>, raw: seq<seq<Value>>, obj: Row)
    requires Rectangular(headers, raw)
    ensures UpdateRun(where, headers, raw, obj, 0, raw, []).0 == Matching(where, headers, raw)
    ensures Matching(where, headers, raw).Ok? ==>
              UpdateRun(where, headers, raw, obj, 0, raw, []).1 == Updated(where, headers, raw, obj)
  {
    assert raw[..0] == [];
    UpdateRunFrom(where, headers, raw, obj, 0, raw, []);
  }

  /** In an updated row, a column whose header names a SET column (and is
      that name's first header) holds the value assigned to it last; every
      other column is untouched. */
  lemma UpdatedCell(where: Option<Expr>, headers: seq<Value>, raw: seq<seq<Value>>, assignments: seq<Assignment>, k: int, n: int)
    requires Rectangular(headers, raw) && 0 <= k < |raw| && 0 <= n < |headers|
    requires Selected(where, MakeRow(headers, raw[k])) == Ok(true)
    ensures var cell := Updated(where, headers, raw, UpdateObject(assignments))[k][n];
            if headers[n].Str? && headers[n].s in SetColumns(assignments) && IndexOf(headers, headers[n].s) == n then
              exists j :: 0 <= j < |assignments| && assignments[j].column == headers[n].s && cell == assignments[j].value
                          && forall m :: j < m < |assignments| ==> assignments[m].column != headers[n].s
            else cell == raw[k][n]
  {
    var cols, vals := SetColumns(assignments), SetValues(assignments);
    var obj := UpdateObject(assignments);
    var updated := Updated(where, headers, raw, obj);
    assert updated[k] == ApplySet(headers, raw[k], obj);
    var cell := updated[k][n];
    assert cell == if Receives(headers, obj, n) then obj[headers[n].s] else raw[k][n];
    if headers[n].Str? {
      var key := headers[n].s;
      ObjectOfSpec(cols, vals, key);
      if key in cols {
        var j := LastIndexOf(cols, key);
        assert Element(vals, j) == assignments[j].value;
        if IndexOf(headers, key) == n {
          assert cell == assignments[j].value;
        }
      }
    }
  }

  /** One selected row of the loop: `table.update(rowNum, newRow)`, seen
      through the body it leaves and the frame kept since the start of the
      loop (cells `m0`). */
  method WriteBack(t: XlsxTable, rowNum: nat, newRow: seq<Value>, ghost m0: Cells)
    requires t.Valid() && rowNum < t.Height() && |newRow| == t.Width()
    requires SameOutside(t.sheet.cells, m0, t.top + 1, t.bottom, t.left, t.right)
    modifies t.sheet
    ensures t.Valid() && t.Headers() == old(t.Headers()) && t.Height() == old(t.Height())
    ensures t.Body() == old(t.Body())[rowNum := newRow]
    ensures SameOutside(t.sheet.cells, m0, t.top + 1, t.bottom, t.left, t.right)
  {
    ghost var m1 := t.sheet.cells;
    t.Update(rowNum, newRow);
    SameOutsideStep(m0, m1, t.sheet.cells, t.top + 1, t.bottom, t.left, t.right, t.top + 1 + rowNum, t.top + 1 + rowNum);
  }

  /** `doUpdate` on an opened table: the loop over the body rows, writing
      each selected row back with `update`. */
  method UpdateTable(t: XlsxTable, stmt: UpdateStmt) returns (r: Result<seq<Row>>)
    requires t.Valid()
    modifies t.sheet
    ensures t.Valid() && t.Headers() == old(t.Headers())
    ensures SameOutside(t.sheet.cells, old(t.sheet.cells), t.top + 1, t.bottom, t.left, t.right)
    ensures var run := UpdateRun(stmt.where, old(t.Headers()), old(t.Body()), UpdateObject(stmt.assignments), 0, old(t.Body()), []);
            r == run.0 && t.Body() == run.1
  {
    var raw := t.Body();
    var headers := t.Headers();
    var cols := SetColumns(stmt.assignments);
    var names := seq(|cols|, i requires 0 <= i < |cols| => Str(cols[i]));
    var obj := BuildRow(names, SetValues(stmt.assignments));
    assert obj == UpdateObject(stmt.assignments);
    var order := KeyOrder(cols);
    assert forall k :: k in order <==> k in obj by {
      forall k ensures k in order <==> k in obj {
        ObjectOfSpec(SetColumns(stmt.assignments), SetValues(stmt.assignments), k);
      }
    }
    ghost var live := raw;
    var results: seq<Row> := [];
    var rowNum := 0;
    while rowNum < t.Height()
      invariant t.Valid() && t.Height() == |raw| && t.Headers() == headers && live == t.Body()
      invariant SameOutside(t.sheet.cells, old(t.sheet.cells), t.top + 1, t.bottom, t.left, t.right)
      invariant 0 <= rowNum <= |raw|
      invariant UpdateRun(stmt.where, headers, raw, obj, 0, raw, []) == UpdateRun(stmt.where, headers, raw, obj, rowNum, live, results)
    {
      UpdateRunStep(stmt.where, headers, raw, obj, rowNum, live, results);
      var oRow := BuildRow(headers, raw[rowNum]);
      var sel := Selected(stmt.where, oRow);
      if sel.Err? {
        return Err(sel.error);
      }
      if sel.value {
        var newRow := AssignKeys(headers, raw[rowNum], obj, order);
        results := results + [oRow];
        WriteBack(t, rowNum, newRow, old(t.sheet.cells));
        live := live[rowNum := newRow];
      }
      rowNum := rowNum + 1;
    }
    r := Ok(results);
  }

  /** `doUpdate`: open the table named by the statement and run. */
  method DoUpdate(book: seq<Worksheet>, stmt: UpdateStmt) returns (r: Result<seq<Row>>)
    modifies set s | s in book
    ensures old(ResolveRange(book, stmt.table)).Err? ==>
              r == Err(old(ResolveRange(book, stmt.table)).error) && forall w :: w in book ==> w.cells == old(w.cells)
    ensures old(ResolveRange(book, stmt.table)).Ok? ==>
              var s := old(ResolveRange(book, stmt.table)).value.0;
              var e := old(ResolveRange(book, stmt.table)).value.1;
              var run := old(UpdateRun(stmt.where, HeaderRow(s.cells, e), BodyRows(s.cells, e), UpdateObject(stmt.assignments),
                                       0, BodyRows(s.cells, e), []));
              r == run.0 && BodyRows(s.cells, e) == run.1
              && HeaderRow(s.cells, e) == old(HeaderRow(s.cells, e))
              && SameOutside(s.cells, old(s.cells), e.top + 1, e.bottom, e.left, e.right)
              && forall w :: w in book && w != s ==> w.cells == old(w.cells)
  {
    var t := Open(book, stmt.table);
    if t.Err? {
      return Err(t.error);
    }
    r := UpdateTable(t.value, stmt);
  }
}
