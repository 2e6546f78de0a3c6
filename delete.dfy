/** DELETE (`doDelete`): the body is read once, and a row counter walks
    the live table, testing the WHERE against the row read at that
    position and deleting the live row there when it is selected. A delete
    shifts the live rows up while the counter still advances, so the live
    table and the snapshot fall out of step. */
module Delete {
  import opened Values
  import opened Grid
  import opened Table
  import opened Where
  import opened Select

  /** `DELETE FROM from WHERE where`; only the first table is used. */
  datatype DeleteStmt = DeleteStmt(from: seq<string>, where: Option<Expr>)

  /** The delete loop from counter `i` on: `raw` is the snapshot the WHERE
      reads, `live` the body as it stands, `acc` the rows reported so far.
      The loop runs while the counter is below the live height. */
  function DeleteRun(where: Option<Expr>, headers: seq<Value>, raw: seq<seq<Value>>,
                     i: nat, live: seq<seq<Value>>, acc: seq<Row>): (Result<seq<Row>>, seq<seq<Value>>)
    requires |live| <= |raw|
    decreases |live| - i
  {
    if i >= |live| then (Ok(acc), live)
    else
      var row := MakeRow(headers, raw[i]);
      match Selected(where, row)
      case Err(e) => (Err(e), live)
      case Ok(sel) =>
        if sel then DeleteRun(where, headers, raw, i + 1, live[..i] + live[i + 1..], acc + [row])
        else DeleteRun(where, headers, raw, i + 1, live, acc)
  }

  /** One step of the run at row `i`. */
  lemma DeleteRunStep(where: Option<Expr>, headers: seq<Value>, raw: seq<seq<Value>>,
                      i: nat, live: seq<seq<Value>>, acc: seq<Row>)
    requires |live| <= |raw| && i < |live|
    ensures var row := MakeRow(headers, raw[i]);
            var run := DeleteRun(where, headers, raw, i, live, acc);
            match Selected(where, row)
            case Err(e) => run == (Err(e), live)
            case Ok(sel) =>
              run == if sel then DeleteRun(where, headers, raw, i + 1, live[..i] + live[i + 1..], acc + [row])
                     else DeleteRun(where, headers, raw, i + 1, live, acc)
  {
  }

  /** Every row deleted is reported: the live body and the reported rows
      together always number the snapshot's rows. */
  lemma {:induction false} DeleteRunCount(where: Option<Expr>, headers: seq<Value>, raw: seq<seq<Value>>,
                                          i: nat, live: seq<seq<Value>>, acc: seq<Row>)
    requires |live| <= |raw| && |live| + |acc| == |raw|
    ensures var run := DeleteRun(where, headers, raw, i, live, acc);
            run.0.Ok? ==> |run.1| + |run.0.value| == |raw|
    decreases |live| - i
  {
    if i < |live| {
      var row := MakeRow(headers, raw[i]);
      match Selected(where, row)
      case Err(e) =>
      case Ok(sel) =>
        if sel {
          DeleteRunCount(where, headers, raw, i + 1, live[..i] + live[i + 1..], acc + [row]);
        } else {
          DeleteRunCount(where, headers, raw, i + 1, live, acc);
        }
    }
  }

  /** Every reported row is a snapshot row the WHERE selects. */
  lemma {:induction false} DeleteRunSound(where: Option<Expr>, headers: seq<Value>, raw: seq<seq<Value>>,
                                          i: nat, live: seq<seq<Value>>, acc: seq<Row>)
    requires |live| <= |raw|
    requires forall row :: row in acc ==> Selected(where, row) == Ok(true)
    ensures var run := DeleteRun(where, headers, raw, i, live, acc);
            run.0.Ok? ==> forall row :: row in run.0.value ==> Selected(where, row) == Ok(true)
    decreases |live| - i
  {
    if i < |live| {
      var row := MakeRow(headers, raw[i]);
      match Selected(where, row)
      case Err(e) =>
      case Ok(sel) =>
        if sel {
          DeleteRunSound(where, headers, raw, i + 1, live[..i] + live[i + 1..], acc + [row]);
        } else {
          DeleteRunSound(where, headers, raw, i + 1, live, acc);
        }
    }
  }

  /** The WHERE rejects snapshot row `k` without error. */
  predicate Rejects(where: Option<Expr>, headers: seq<Value>, raw: seq<seq<Value>>, k: int)
    requires 0 <= k < |raw|
  {
    Selected(where, MakeRow(headers, raw[k])) == Ok(false)
  }

  /** A WHERE that rejects every row deletes nothing. */
  lemma {:induction false} DeleteNone(where: Option<Expr>, headers: seq<Value>, raw: seq<seq<Value>>, i: nat, acc: seq<Row>)
    requires forall k :: 0 <= k < |raw| ==> Rejects(where, headers, raw, k)
    ensures DeleteRun(where, headers, raw, i, raw, acc) == (Ok(acc), raw)
    decreases |raw| - i
  {
    if i < |raw| {
      assert Rejects(where, headers, raw, i);
      DeleteNone(where, headers, raw, i + 1, acc);
    }
  }

  /** When the WHERE selects one row `k` and rejects every other, exactly
      that row is deleted and reported. */
  lemma DeleteSingle(where: Option<Expr>, headers: seq<Value>, raw: seq<seq<Value>>, k: nat)
    requires k < |raw| && Selected(where, MakeRow(headers, raw[k])) == Ok(true)
    requires forall m :: 0 <= m < |raw| && m != k ==> Rejects(where, headers, raw, m)
    ensures DeleteRun(where, headers, raw, 0, raw, []) == (Ok([MakeRow(headers, raw[k])]), raw[..k] + raw[k + 1..])
  {
    DeleteSingleFrom(where, headers, raw, k, 0);
  }

  lemma {:induction false} DeleteSingleFrom(where: Option<Expr>, headers: seq<Value>, raw: seq<seq<Value>>, k: nat, i: nat)
    requires i <= k < |raw| && Selected(where, MakeRow(headers, raw[k])) == Ok(true)
    requires forall m :: 0 <= m < |raw| && m != k ==> Rejects(where, headers, raw, m)
    ensures DeleteRun(where, headers, raw, i, raw, []) == (Ok([MakeRow(headers, raw[k])]), raw[..k] + raw[k + 1..])
    decreases k - i
  {
    if i < k {
      assert Rejects(where, headers, raw, i);
      DeleteSingleFrom(where, headers, raw, k, i + 1);
    } else {
      var row := MakeRow(headers, raw[k]);
      var rest := raw[..k] + raw[k + 1..];
      assert [] + [row] == [row];
      assert DeleteRun(where, headers, raw, k, raw, []) == DeleteRun(where, headers, raw, k + 1, rest, [row]);
      DeleteRestRejected(where, headers, raw, k + 1, rest, [row]);
    }
  }

  lemma {:induction false} DeleteRestRejected(where: Option<Expr>, headers: seq<Value>, raw: seq<seq<Value>>,
                                              i: nat, live: seq<seq<Value>>, acc: seq<Row>)
    requires |live| <= |raw| && 0 < i
    requires forall m :: i <= m < |raw| ==> Rejects(where, headers, raw, m)
    ensures DeleteRun(where, headers, raw, i, live, acc) == (Ok(acc), live)
    decreases |live| - i
  {
    if i < |live| {
      assert Rejects(where, headers, raw, i);
      DeleteRestRejected(where, headers, raw, i + 1, live, acc);
    }
  }

  /** The rows the WHERE does not select. */
  function Kept(where: Option<Expr>, headers: seq<Value>, body: seq<seq<Value>>): (r: seq<seq<Value>>)
    ensures |r| <= |body|
    decreases |body|
  {
    if body == [] then []
    else
      var n := |body| - 1;
      var prev := Kept(where, headers, body[..n]);
      if Selected(where, MakeRow(headers, body[n])) == Ok(true) then prev else prev + [body[n]]
  }

  /** The loop as evidently intended: the WHERE reads the live row, and the
      counter stays put after a delete, so the row that moved up is tested
      next. */
  function DeleteFixed(where: Option<Expr>, headers: seq<Value>, live: seq<seq<Value>>,
                       i: nat, acc: seq<Row>): (Result<seq<Row>>, seq<seq<Value>>)
    decreases |live| - i
  {
    if i >= |live| then (Ok(acc), live)
    else
      var row := MakeRow(headers, live[i]);
      match Selected(where, row)
      case Err(e) => (Err(e), live)
      case Ok(sel) =>
        if sel then DeleteFixed(where, headers, live[..i] + live[i + 1..], i, acc + [row])
        else DeleteFixed(where, headers, live, i + 1, acc)
  }

  /** One step of the intended loop at row `i`. */
  lemma DeleteFixedStep(where: Option<Expr>, headers: seq<Value>, live: seq<seq<Value>>, i: nat, acc: seq<Row>)
    requires i < |live|
    ensures var row := MakeRow(headers, live[i]);
            var run := DeleteFixed(where, headers, live, i, acc);
            match Selected(where, row)
            case Err(e) => run == (Err(e), live)
            case Ok(sel) =>
              run == if sel then DeleteFixed(where, headers, live[..i] + live[i + 1..], i, acc + [row])
                     else DeleteFixed(where, headers, live, i + 1, acc)
  {
  }

  /** One more row of the body: the rows kept so far, then that row
      unless the WHERE selects it. */
  lemma KeptStep(where: Option<Expr>, headers: seq<Value>, raw: seq<seq<Value>>, j: nat)
    requires j < |raw|
    ensures Kept(where, headers, raw[..j + 1]) ==
              if Selected(where, MakeRow(headers, raw[j])) == Ok(true) then Kept(where, headers, raw[..j])
              else Kept(where, headers, raw[..j]) + [raw[j]]
  {
    assert raw[..j + 1][..j] == raw[..j];
  }

  /** The live body `kept + raw[j..]` around its row `|kept|`. */
  lemma LiveSplit(kept: seq<seq<Value>>, raw: seq<seq<Value>>, j: nat)
    requires j < |raw|
    ensures var live := kept + raw[j..];
            live[|kept|] == raw[j]
            && live[..|kept|] + live[|kept| + 1..] == kept + raw[j + 1..]
            && live == (kept + [raw[j]]) + raw[j + 1..]
  {
    var live := kept + raw[j..];
    assert live[..|kept|] == kept;
    assert live[|kept| + 1..] == raw[j + 1..];
  }

  /** The intended loop after `j` snapshot rows: the live body is the kept
      rows followed by the rows not yet tested, and the counter stands just
      past the kept rows. */
  lemma {:induction false} DeleteFixedFrom(where: Option<Expr>, headers: seq<Value>, raw: seq<seq<Value>>, j: nat, acc: seq<Row>)
    requires j <= |raw| && Matching(where, headers, raw[..j]) == Ok(acc)
    ensures var run := DeleteFixed(where, headers, Kept(where, headers, raw[..j]) + raw[j..], |Kept(where, headers, raw[..j])|, acc);
            run.0 == Matching(where, headers, raw)
            && (run.0.Ok? ==> run.1 == Kept(where, headers, raw))
    decreases |raw| - j
  {
    var kept := Kept(where, headers, raw[..j]);
    var live := kept + raw[j..];
    var i := |kept|;
    if j == |raw| {
      assert raw[..j] == raw;
      assert live == kept;
      return;
    }
    LiveSplit(kept, raw, j);
    DeleteFixedStep(where, headers, live, i, acc);
    MatchingStep(where, headers, raw, j);
    KeptStep(where, headers, raw, j);
    var row := MakeRow(headers, raw[j]);
    var sel := Selected(where, row);
    if sel.Err? {
      MatchingFailureStays(where, headers, raw, j + 1);
    } else if sel.value {
      assert DeleteFixed(where, headers, live, i, acc) == DeleteFixed(where, headers, kept + raw[j + 1..], i, acc + [row]);
      DeleteFixedFrom(where, headers, raw, j + 1, acc + [row]);
    } else {
      assert DeleteFixed(where, headers, live, i, acc) == DeleteFixed(where, headers, live, i + 1, acc);
      DeleteFixedFrom(where, headers, raw, j + 1, acc);
    }
  }

  /** The intended DELETE reports exactly the rows a SELECT * with the same
      WHERE returns, and leaves exactly the rows it does not select. */
  lemma DeleteFixedSpec(where: Option<Expr>, headers: seq<Value>, raw: seq<seq<Value>>)
    ensures DeleteFixed(where, headers, raw, 0, []).0 == Matching(where, headers, raw)
    ensures Matching(where, headers, raw).Ok? ==> DeleteFixed(where, headers, raw, 0, []).1 == Kept(where, headers, raw)
  {
    assert raw[..0] == [];
    assert Kept(where, headers, raw[..0]) + raw[0..] == raw;
    DeleteFixedFrom(where, headers, raw, 0, []);
  }

  /** Two adjacent selected rows: the first is deleted, the second moves up
      into its place, the counter moves past it, and the row below it is
      deleted instead, while the report names the two selected rows. */
  lemma DeleteSkipsRow()
    ensures var headers := [Str("id"), Str("k")];
            var raw := [[Num(1), Num(1)], [Num(2), Num(1)], [Num(3), Num(2)]];
            var where := Some(Binary("=", ColumnRef("k"), Literal(Num(1))));
            DeleteRun(where, headers, raw, 0, raw, []) == (Ok([MakeRow(headers, raw[0]), MakeRow(headers, raw[1])]), [raw[1]])
            && DeleteFixed(where, headers, raw, 0, []) == (Ok([MakeRow(headers, raw[0]), MakeRow(headers, raw[1])]), [raw[2]])
  {
    var headers := [Str("id"), Str("k")];
    var raw := [[Num(1), Num(1)], [Num(2), Num(1)], [Num(3), Num(2)]];
    var where := Some(Binary("=", ColumnRef("k"), Literal(Num(1))));
    var rows := [MakeRow(headers, raw[0]), MakeRow(headers, raw[1]), MakeRow(headers, raw[2])];
    assert headers[..1] == [Str("id")];
    assert MakeRow(headers[..1], raw[0]) == map["id" := Num(1)];
    assert MakeRow(headers[..1], raw[1]) == map["id" := Num(2)];
    assert MakeRow(headers[..1], raw[2]) == map["id" := Num(3)];
    assert rows[0] == map["id" := Num(1), "k" := Num(1)];
    assert rows[1] == map["id" := Num(2), "k" := Num(1)];
    assert rows[2] == map["id" := Num(3), "k" := Num(2)];
    assert Selected(where, rows[0]) == Ok(true);
    assert Selected(where, rows[1]) == Ok(true);
    assert Selected(where, rows[2]) == Ok(false);
    assert [] + [rows[0]] == [rows[0]];
    assert [rows[0]] + [rows[1]] == [rows[0], rows[1]];
    assert raw[0] == [Num(1), Num(1)] && raw[1] == [Num(2), Num(1)] && raw[2] == [Num(3), Num(2)];
    var after := raw[..0] + raw[1..];
    assert after == [raw[1], raw[2]];
    assert after[..1] + after[2..] == [raw[1]];
    assert DeleteRun(where, headers, raw, 0, raw, []) == DeleteRun(where, headers, raw, 1, after, [rows[0]]);
    assert DeleteRun(where, headers, raw, 1, after, [rows[0]]) == DeleteRun(where, headers, raw, 2, [raw[1]], [rows[0], rows[1]]);
    assert after[..0] + after[1..] == [raw[2]];
    assert DeleteFixed(where, headers, raw, 0, []) == DeleteFixed(where, headers, after, 0, [rows[0]]);
    assert DeleteFixed(where, headers, after, 0, [rows[0]]) == DeleteFixed(where, headers, [raw[2]], 0, [rows[0], rows[1]]);
    assert DeleteFixed(where, headers, [raw[2]], 0, [rows[0], rows[1]]) == DeleteFixed(where, headers, [raw[2]], 1, [rows[0], rows[1]]);
  }

  /** Rows `b+1..B` of columns `left..right` all hold what row `B+1` held
      in `m0`: the row beneath the table, copied up once per delete. */
  ghost predicate FilledFromBelow(m: Cells, m0: Cells, b: int, bottom: int, left: int, right: int) {
    forall i, j {:trigger At(m, i, j)} :: b < i <= bottom && left <= j <= right ==> At(m, i, j) == At(m0, bottom + 1, j)
  }

  /** One `delete(k)` on a table whose bottom has moved up from `B` to `b`
      keeps every cell outside the original table as it was, and fills one
      more row above the old bottom from beneath the table. */
  lemma DeleteFrameStep(m0: Cells, m1: Cells, m2: Cells, top: int, left: int, right: int, bottom: int, b: int, k: int)
    requires top + 1 + k <= b <= bottom && 0 <= k
    requires SameOutside(m1, m0, top + 1, bottom, left, right)
    requires FilledFromBelow(m1, m0, b, bottom, left, right)
    requires forall i, j {:trigger At(m2, i, j)} :: At(m2, i, j) ==
               (if top + 1 + k <= i <= b && left <= j <= right then At(m1, i + 1, j) else At(m1, i, j))
    ensures SameOutside(m2, m0, top + 1, bottom, left, right)
    ensures FilledFromBelow(m2, m0, b - 1, bottom, left, right)
  {
    forall i, j | b - 1 < i <= bottom && left <= j <= right
      ensures At(m2, i, j) == At(m0, bottom + 1, j)
    {
      if i == b {
        assert At(m2, i, j) == At(m1, b + 1, j);
      }
    }
  }

  /** One deleted row of the loops below: `table.delete(k)`, seen through
      the body it leaves and the frame kept since the start of the loop
      (cells `m0`, last body row `bottom`). */
  method RemoveRow(t: XlsxTable, k: nat, ghost m0: Cells, ghost bottom: int)
    requires t.Valid() && k < t.Height() && t.bottom <= bottom
    requires SameOutside(t.sheet.cells, m0, t.top + 1, bottom, t.left, t.right)
    requires FilledFromBelow(t.sheet.cells, m0, t.bottom, bottom, t.left, t.right)
    modifies t, t.sheet
    ensures t.Valid() && t.Headers() == old(t.Headers()) && t.bottom == old(t.bottom) - 1
    ensures t.Body() == old(t.Body()[..k] + t.Body()[k + 1..])
    ensures SameOutside(t.sheet.cells, m0, t.top + 1, bottom, t.left, t.right)
    ensures FilledFromBelow(t.sheet.cells, m0, t.bottom, bottom, t.left, t.right)
  {
    ghost var m1, b := t.sheet.cells, t.bottom;
    t.Delete(k);
    DeleteFrameStep(m0, m1, t.sheet.cells, t.top, t.left, t.right, bottom, b, k);
  }

  /** `doDelete` on an opened table, as written. */
  method DeleteTable(t: XlsxTable, where: Option<Expr>) returns (r: Result<seq<Row>>)
    requires t.Valid()
    modifies t, t.sheet
    ensures t.Valid() && t.Headers() == old(t.Headers())
    ensures var run := DeleteRun(where, old(t.Headers()), old(t.Body()), 0, old(t.Body()), []);
            r == run.0 && t.Body() == run.1
    ensures SameOutside(t.sheet.cells, old(t.sheet.cells), t.top + 1, old(t.bottom), t.left, t.right)
    ensures FilledFromBelow(t.sheet.cells, old(t.sheet.cells), t.bottom, old(t.bottom), t.left, t.right)
  {
    var raw := t.Body();
    var headers := t.Headers();
    ghost var live := raw;
    var results: seq<Row> := [];
    var rowNum := 0;
    while rowNum < t.Height()
      invariant t.Valid() && t.Headers() == headers && live == t.Body() && |live| <= |raw| && t.bottom <= old(t.bottom)
      invariant SameOutside(t.sheet.cells, old(t.sheet.cells), t.top + 1, old(t.bottom), t.left, t.right)
      invariant FilledFromBelow(t.sheet.cells, old(t.sheet.cells), t.bottom, old(t.bottom), t.left, t.right)
      invariant DeleteRun(where, headers, raw, 0, raw, []) == DeleteRun(where, headers, raw, rowNum, live, results)
      decreases t.Height() - rowNum
    {
      DeleteRunStep(where, headers, raw, rowNum, live, results);
      var oRow := BuildRow(headers, raw[rowNum]);
      var sel := Selected(where, oRow);
      if sel.Err? {
        return Err(sel.error);
      }
      if sel.value {
        results := results + [oRow];
        RemoveRow(t, rowNum, old(t.sheet.cells), old(t.bottom));
        live := live[..rowNum] + live[rowNum + 1..];
      }
      rowNum := rowNum + 1;
    }
    r := Ok(results);
  }

  /** The loop as evidently intended, on an opened table: the live row is
      tested, and the counter advances only past rows that stay. */
  method DeleteTableFixed(t: XlsxTable, where: Option<Expr>) returns (r: Result<seq<Row>>)
    requires t.Valid()
    modifies t, t.sheet
    ensures t.Valid() && t.Headers() == old(t.Headers())
    ensures r == Matching(where, old(t.Headers()), old(t.Body()))
    ensures r.Ok? ==> t.Body() == Kept(where, old(t.Headers()), old(t.Body()))
    ensures SameOutside(t.sheet.cells, old(t.sheet.cells), t.top + 1, old(t.bottom), t.left, t.right)
    ensures FilledFromBelow(t.sheet.cells, old(t.sheet.cells), t.bottom, old(t.bottom), t.left, t.right)
  {
    ghost var raw := t.Body();
    var live := t.Body();
    var headers := t.Headers();
    var results: seq<Row> := [];
    var rowNum := 0;
    DeleteFixedSpec(where, headers, raw);
    while rowNum < |live|
      invariant t.Valid() && t.Headers() == headers && live == t.Body() && t.bottom <= old(t.bottom)
      invariant SameOutside(t.sheet.cells, old(t.sheet.cells), t.top + 1, old(t.bottom), t.left, t.right)
      invariant FilledFromBelow(t.sheet.cells, old(t.sheet.cells), t.bottom, old(t.bottom), t.left, t.right)
      invariant DeleteFixed(where, headers, raw, 0, []) == DeleteFixed(where, headers, live, rowNum, results)
      decreases |live| - rowNum
    {
      DeleteFixedStep(where, headers, live, rowNum, results);
      var oRow := BuildRow(headers, live[rowNum]);
      var sel := Selected(where, oRow);
      if sel.Err? {
        return Err(sel.error);
      }
      if sel.value {
        results := results + [oRow];
        RemoveRow(t, rowNum, old(t.sheet.cells), old(t.bottom));
        live := live[..rowNum] + live[rowNum + 1..];
      } else {
        rowNum := rowNum + 1;
      }
    }
    r := Ok(results);
  }

  /** The table opened on range `e` of sheet `s`, and the DELETE run on it. */
  method DeleteRange(s: Worksheet, e: Extent, where: Option<Expr>) returns (r: Result<seq<Row>>)
    requires Ordered(e)
    modifies s
    ensures var run := old(DeleteRun(where, HeaderRow(s.cells, e), BodyRows(s.cells, e), 0, BodyRows(s.cells, e), []));
            r == run.0
            && BodyRows(s.cells, Extent(e.top, e.left, e.top + |run.1|, e.right)) == run.1
            && HeaderRow(s.cells, e) == old(HeaderRow(s.cells, e))
            && SameOutside(s.cells, old(s.cells), e.top + 1, e.bottom, e.left, e.right)
            && FilledFromBelow(s.cells, old(s.cells), e.top + |run.1|, e.bottom, e.left, e.right)
  {
    var table := new XlsxTable(s, e);
    r := DeleteTable(table, where);
    assert table.Range() == Extent(e.top, e.left, e.top + |table.Body()|, e.right);
  }

  /** `doDelete`: the first table of the FROM list is opened; an empty list
      fails when its first entry is read. */
  method DoDelete(book: seq<Worksheet>, stmt: DeleteStmt) returns (r: Result<seq<Row>>)
    modifies set s | s in book
    ensures stmt.from == [] ==> r == Err(TypeError)
    ensures (stmt.from == [] || old(ResolveRange(book, stmt.from[0])).Err?) ==>
              forall w :: w in book ==> w.cells == old(w.cells)
    ensures stmt.from != [] && old(ResolveRange(book, stmt.from[0])).Err? ==> r == Err(old(ResolveRange(book, stmt.from[0])).error)
    ensures stmt.from != [] && old(ResolveRange(book, stmt.from[0])).Ok? ==>
              var s := old(ResolveRange(book, stmt.from[0])).value.0;
              var e := old(ResolveRange(book, stmt.from[0])).value.1;
              var run := old(DeleteRun(stmt.where, HeaderRow(s.cells, e), BodyRows(s.cells, e), 0, BodyRows(s.cells, e), []));
              r == run.0
              && BodyRows(s.cells, Extent(e.top, e.left, e.top + |run.1|, e.right)) == run.1
              && HeaderRow(s.cells, e) == old(HeaderRow(s.cells, e))
              && SameOutside(s.cells, old(s.cells), e.top + 1, e.bottom, e.left, e.right)
              && FilledFromBelow(s.cells, old(s.cells), e.top + |run.1|, e.bottom, e.left, e.right)
              && forall w :: w in book && w != s ==> w.cells == old(w.cells)
  {
    if stmt.from == [] {
      return Err(TypeError);
    }
    var range := Resolve(book, stmt.from[0]);
    if range.Err? {
      return Err(range.error);
    }
    r := DeleteRange(range.value.0, range.value.1, stmt.where);
  }
}
