/** SELECT (`doSelect`): the table's rows turned into row mappings, filtered
    by WHERE, passed through the select list, sorted by ORDER BY and cut by
    LIMIT. */
module Select {
  import opened Values
  import opened Grid
  import opened Table
  import opened Where
  import opened Projection

  /** An ORDER BY entry. Its direction is never consulted: the comparison
      `type = 'ASC' ? 1 : -1` assigns the number 1 (or -1) to it and
      returns that number. */
  datatype OrderKey = OrderKey(expr: Expr, descending: bool)

  datatype SelectStmt = SelectStmt(
    columns: Columns,
    from: seq<string>,
    where: Option<Expr>,
    orderBy: Option<seq<OrderKey>>,
    limit: Option<seq<int>>)

  /** The row mappings of the body rows the WHERE selects, in table order;
      the first row whose WHERE fails makes the whole statement fail. */
  function Matching(where: Option<Expr>, headers: seq<Value>, body: seq<seq<Value>>): (r: Result<seq<Row>>)
    ensures r.Ok? ==> |r.value| <= |body|
    decreases |body|
  {
    if body == [] then Ok([])
    else
      var n := |body| - 1;
      var prev :- Matching(where, headers, body[..n]);
      var row := MakeRow(headers, body[n]);
      var sel :- Selected(where, row);
      Ok(if sel then prev + [row] else prev)
  }

  /** Every row kept is one the WHERE selects. */
  lemma {:induction false} MatchingSound(where: Option<Expr>, headers: seq<Value>, body: seq<seq<Value>>)
    requires Matching(where, headers, body).Ok?
    ensures forall row :: row in Matching(where, headers, body).value ==> Selected(where, row) == Ok(true)
    decreases |body|
  {
    if body != [] {
      var n := |body| - 1;
      MatchingSound(where, headers, body[..n]);
      var row := MakeRow(headers, body[n]);
      var prev := Matching(where, headers, body[..n]).value;
      var all := Matching(where, headers, body).value;
      assert all == if Selected(where, row) == Ok(true) then prev + [row] else prev;
      forall r | r in all ensures Selected(where, r) == Ok(true) {
        if r !in prev {
          assert r == row;
        }
      }
    }
  }

  /** The positions of the body rows the WHERE selects, in increasing order. */
  function SelectedIndices(where: Option<Expr>, headers: seq<Value>, body: seq<seq<Value>>): (idx: seq<nat>)
    ensures forall k :: 0 <= k < |idx| ==> idx[k] < |body|
    ensures forall k, l :: 0 <= k < l < |idx| ==> idx[k] < idx[l]
    ensures forall i :: 0 <= i < |body| ==> (i in idx <==> Selected(where, MakeRow(headers, body[i])) == Ok(true))
    decreases |body|
  {
    if body == [] then []
    else
      var n := |body| - 1;
      var prev := SelectedIndices(where, headers, body[..n]);
      assert forall i :: 0 <= i < n ==> body[..n][i] == body[i];
      if Selected(where, MakeRow(headers, body[n])) == Ok(true) then prev + [n] else prev
  }

  /** A filter that succeeds keeps the row mapping of exactly the selected
      body rows, each once, in body order. */
  lemma {:induction false} MatchingExact(where: Option<Expr>, headers: seq<Value>, body: seq<seq<Value>>)
    requires Matching(where, headers, body).Ok?
    ensures var m := Matching(where, headers, body).value;
            var idx := SelectedIndices(where, headers, body);
            |m| == |idx| && forall k :: 0 <= k < |m| ==> m[k] == MakeRow(headers, body[idx[k]])
    decreases |body|
  {
    if body != [] {
      var n := |body| - 1;
      assert body[..n + 1] == body;
      MatchingStep(where, headers, body, n);
      MatchingExact(where, headers, body[..n]);
      PrefixIndices(where, headers, body, n);
      var row := MakeRow(headers, body[n]);
      var prev := Matching(where, headers, body[..n]).value;
      var pidx := SelectedIndices(where, headers, body[..n]);
      var m := Matching(where, headers, body).value;
      var idx := SelectedIndices(where, headers, body);
      if Selected(where, row) == Ok(true) {
        assert m == prev + [row] && idx == pidx + [n];
        forall k | 0 <= k < |m|
          ensures m[k] == MakeRow(headers, body[idx[k]])
        {
          if k < |prev| {
            assert m[k] == prev[k] && idx[k] == pidx[k];
          }
        }
      } else {
        assert m == prev && idx == pidx;
      }
    }
  }

  /** The selected positions of a prefix, read in the whole body. */
  lemma PrefixIndices(where: Option<Expr>, headers: seq<Value>, body: seq<seq<Value>>, n: nat)
    requires n < |body|
    ensures var pidx := SelectedIndices(where, headers, body[..n]);
            forall k :: 0 <= k < |pidx| ==> pidx[k] < n && body[..n][pidx[k]] == body[pidx[k]]
  {
  }

  /** Every body row the WHERE selects is kept. */
  lemma MatchingComplete(where: Option<Expr>, headers: seq<Value>, body: seq<seq<Value>>, i: int)
    requires Matching(where, headers, body).Ok?
    requires 0 <= i < |body| && Selected(where, MakeRow(headers, body[i])) == Ok(true)
    ensures MakeRow(headers, body[i]) in Matching(where, headers, body).value
  {
    MatchingExact(where, headers, body);
    var idx := SelectedIndices(where, headers, body);
    var k :| 0 <= k < |idx| && idx[k] == i;
    assert Matching(where, headers, body).value[k] == MakeRow(headers, body[i]);
  }

  /** The filter succeeds exactly when the WHERE evaluates without failure
      on every body row. */
  lemma {:induction false} MatchingOk(where: Option<Expr>, headers: seq<Value>, body: seq<seq<Value>>)
    ensures Matching(where, headers, body).Ok? <==>
              forall i :: 0 <= i < |body| ==> Selected(where, MakeRow(headers, body[i])).Ok?
    decreases |body|
  {
    if body != [] {
      var n := |body| - 1;
      assert body[..n + 1] == body;
      MatchingStep(where, headers, body, n);
      MatchingOk(where, headers, body[..n]);
      assert forall i :: 0 <= i < n ==> body[..n][i] == body[i];
    }
  }

  /** A WHERE without LIKE never makes the filter fail. */
  lemma MatchingNoLike(e: Expr, headers: seq<Value>, body: seq<seq<Value>>)
    requires !HasLike(e)
    ensures Matching(Some(e), headers, body).Ok?
  {
    forall i | 0 <= i < |body| ensures Selected(Some(e), MakeRow(headers, body[i])).Ok? {
      NoLikeNoError(e, MakeRow(headers, body[i]));
    }
    MatchingOk(Some(e), headers, body);
  }

  /** Once a prefix of the body fails, the whole statement fails with it. */
  lemma {:induction false} MatchingFailureStays(where: Option<Expr>, headers: seq<Value>, body: seq<seq<Value>>, k: nat)
    requires k <= |body| && Matching(where, headers, body[..k]).Err?
    ensures Matching(where, headers, body) == Matching(where, headers, body[..k])
    decreases |body| - k
  {
    if k == |body| {
      assert body[..k] == body;
    } else {
      var n := |body| - 1;
      assert body[..n][..k] == body[..k];
      MatchingFailureStays(where, headers, body[..n], k);
      assert Matching(where, headers, body[..n]).Err?;
      assert Matching(where, headers, body) == Err(Matching(where, headers, body[..n]).error);
    }
  }

  /** One more row of the body: the rows matched so far, then that row if
      the WHERE selects it. */
  lemma MatchingStep(where: Option<Expr>, headers: seq<Value>, raw: seq<seq<Value>>, i: nat)
    requires i < |raw|
    ensures Matching(where, headers, raw[..i + 1]) ==
              (var prev :- Matching(where, headers, raw[..i]);
               var row := MakeRow(headers, raw[i]);
               var sel :- Selected(where, row);
               Ok(if sel then prev + [row] else prev))
  {
    assert raw[..i + 1][..i] == raw[..i];
  }

  /** The row mapping of every body row, in order. */
  function RowsOf(headers: seq<Value>, body: seq<seq<Value>>): (r: seq<Row>)
    ensures |r| == |body| && forall i :: 0 <= i < |body| ==> r[i] == MakeRow(headers, body[i])
  {
    seq(|body|, i requires 0 <= i < |body| => MakeRow(headers, body[i]))
  }

  /** Without a WHERE every body row is kept, in order. */
  lemma {:induction false} MatchingAll(headers: seq<Value>, body: seq<seq<Value>>)
    ensures Matching(None, headers, body) == Ok(RowsOf(headers, body))
    decreases |body|
  {
    if body != [] {
      var n := |body| - 1;
      MatchingAll(headers, body[..n]);
      var pre := RowsOf(headers, body[..n]);
      var row := MakeRow(headers, body[n]);
      assert Selected(None, row) == Ok(true);
      assert Matching(None, headers, body) == Ok(pre + [row]);
      assert RowsOf(headers, body) == pre + [row];
    }
  }

  /** The sort comparator: the first key on which the rows differ decides,
      always ascending; a key that is not a column fails once reached. */
  function Compare(keys: seq<OrderKey>, a: Row, b: Row): (r: Result<int>)
    ensures r.Ok? ==> -1 <= r.value <= 1
    ensures r.Err? ==> r.error == UnsupportedOrderBy
    decreases |keys|
  {
    if keys == [] then Ok(0)
    else if !keys[0].expr.ColumnRef? then Err(UnsupportedOrderBy)
    else
      var c := keys[0].expr.column;
      if Less(Lookup(b, c), Lookup(a, c)) then Ok(1)
      else if Less(Lookup(a, c), Lookup(b, c)) then Ok(-1)
      else Compare(keys[1..], a, b)
  }

  /** The comparator is antisymmetric, and fails on both orders alike. */
  lemma {:induction false} CompareAntisymmetric(keys: seq<OrderKey>, a: Row, b: Row)
    ensures Compare(keys, a, b).Ok? <==> Compare(keys, b, a).Ok?
    ensures Compare(keys, a, b).Ok? ==> Compare(keys, a, b).value == -Compare(keys, b, a).value
    decreases |keys|
  {
    if keys != [] && keys[0].expr.ColumnRef? {
      var c := keys[0].expr.column;
      LessAsymmetric(Lookup(a, c), Lookup(b, c));
      CompareAntisymmetric(keys[1..], a, b);
    }
  }

  /** The direction of a key changes nothing. */
  lemma {:induction false} CompareIgnoresDirection(keys1: seq<OrderKey>, keys2: seq<OrderKey>, a: Row, b: Row)
    requires |keys1| == |keys2| && forall i :: 0 <= i < |keys1| ==> keys1[i].expr == keys2[i].expr
    ensures Compare(keys1, a, b) == Compare(keys2, a, b)
    decreases |keys1|
  {
    if keys1 != [] {
      CompareIgnoresDirection(keys1[1..], keys2[1..], a, b);
    }
  }

  predicate AllColumns(keys: seq<OrderKey>) {
    forall i :: 0 <= i < |keys| ==> keys[i].expr.ColumnRef?
  }

  lemma {:induction false} CompareColumns(keys: seq<OrderKey>, a: Row, b: Row)
    requires AllColumns(keys)
    ensures Compare(keys, a, b).Ok?
    decreases |keys|
  {
    if keys != [] {
      CompareColumns(keys[1..], a, b);
    }
  }

  /** `a` may stay before `b`. */
  predicate NotAfter(keys: seq<OrderKey>, a: Row, b: Row) {
    Compare(keys, a, b).Ok? && Compare(keys, a, b).value <= 0
  }

  predicate Sorted(keys: seq<OrderKey>, s: seq<Row>) {
    forall i :: 0 <= i < |s| - 1 ==> NotAfter(keys, s[i], s[i + 1])
  }

  /** One step of the sort: `x` goes before the first row that compares
      above it. */
  function Insert(keys: seq<OrderKey>, s: seq<Row>, x: Row): (r: Result<seq<Row>>)
    ensures r.Err? ==> r.error == UnsupportedOrderBy
    ensures r.Ok? ==> multiset(r.value) == multiset(s) + multiset{x}
    ensures r.Ok? ==> r.value != [] && (r.value[0] == x || (s != [] && r.value[0] == s[0]))
    decreases |s|
  {
    if s == [] then Ok([x])
    else
      var c :- Compare(keys, s[0], x);
      if c > 0 then Ok([x] + s)
      else
        var rest :- Insert(keys, s[1..], x);
        assert s == [s[0]] + s[1..];
        Ok([s[0]] + rest)
  }

  lemma {:induction false} InsertSorted(keys: seq<OrderKey>, s: seq<Row>, x: Row)
    requires Sorted(keys, s) && Insert(keys, s, x).Ok?
    ensures Sorted(keys, Insert(keys, s, x).value)
    decreases |s|
  {
    if s != [] {
      var c := Compare(keys, s[0], x).value;
      if c > 0 {
        CompareAntisymmetric(keys, s[0], x);
        var r := [x] + s;
        forall i | 0 <= i < |r| - 1 ensures NotAfter(keys, r[i], r[i + 1]) {
          if i > 0 {
            assert r[i] == s[i - 1] && r[i + 1] == s[i];
          }
        }
      } else {
        assert Sorted(keys, s[1..]) by {
          forall i | 0 <= i < |s| - 2 ensures NotAfter(keys, s[1..][i], s[1..][i + 1]) {
            assert s[1..][i] == s[i + 1] && s[1..][i + 1] == s[i + 2];
          }
        }
        InsertSorted(keys, s[1..], x);
        var rest := Insert(keys, s[1..], x).value;
        var r := [s[0]] + rest;
        forall i | 0 <= i < |r| - 1 ensures NotAfter(keys, r[i], r[i + 1]) {
          if i > 0 {
            assert r[i] == rest[i - 1] && r[i + 1] == rest[i];
          }
        }
      }
    }
  }

  /** `rows.sort(comparator)`, as a stable insertion sort. */
  function Sort(keys: seq<OrderKey>, rows: seq<Row>): (r: Result<seq<Row>>)
    ensures r.Err? ==> r.error == UnsupportedOrderBy
    ensures r.Ok? ==> multiset(r.value) == multiset(rows)
    decreases |rows|
  {
    if rows == [] then Ok([])
    else
      var n := |rows| - 1;
      var s :- Sort(keys, rows[..n]);
      assert rows == rows[..n] + [rows[n]];
      Insert(keys, s, rows[n])
  }

  /** A sort that succeeds leaves no neighbours out of order. */
  lemma {:induction false} SortSorted(keys: seq<OrderKey>, rows: seq<Row>)
    requires Sort(keys, rows).Ok?
    ensures Sorted(keys, Sort(keys, rows).value)
    decreases |rows|
  {
    if rows != [] {
      var n := |rows| - 1;
      SortSorted(keys, rows[..n]);
      InsertSorted(keys, Sort(keys, rows[..n]).value, rows[n]);
    }
  }

  /** Column keys never make the sort fail. */
  lemma {:induction false} SortColumns(keys: seq<OrderKey>, rows: seq<Row>)
    requires AllColumns(keys)
    ensures Sort(keys, rows).Ok?
    decreases |rows|
  {
    if rows != [] {
      var n := |rows| - 1;
      SortColumns(keys, rows[..n]);
      InsertColumns(keys, Sort(keys, rows[..n]).value, rows[n]);
    }
  }

  lemma {:induction false} InsertColumns(keys: seq<OrderKey>, s: seq<Row>, x: Row)
    requires AllColumns(keys)
    ensures Insert(keys, s, x).Ok?
    decreases |s|
  {
    if s != [] {
      CompareColumns(keys, s[0], x);
      InsertColumns(keys, s[1..], x);
    }
  }

  /** A first key that is not a column fails as soon as two rows are
      compared. */
  lemma {:induction false} SortNonColumn(keys: seq<OrderKey>, rows: seq<Row>)
    requires keys != [] && !keys[0].expr.ColumnRef?
    ensures |rows| >= 2 <==> Sort(keys, rows).Err?
    decreases |rows|
  {
    if rows != [] {
      var n := |rows| - 1;
      SortNonColumn(keys, rows[..n]);
      if n == 0 {
        assert rows[..n] == [];
      }
    }
  }

  /** Both rows hold numbers in column `c`, the first no larger. */
  predicate NumbersInOrder(a: Row, b: Row, c: string) {
    Lookup(a, c).Num? && Lookup(b, c).Num? && Lookup(a, c).n <= Lookup(b, c).n
  }

  /** Every row holds a number in column `c`. */
  predicate NumbersAt(rows: seq<Row>, c: string) {
    forall row :: row in rows ==> Lookup(row, c).Num?
  }

  /** Sorting on one column of numbers orders the rows by it ascending,
      even when the key says DESC. */
  lemma SortAscending(c: string, descending: bool, rows: seq<Row>)
    requires NumbersAt(rows, c)
    ensures Sort([OrderKey(ColumnRef(c), descending)], rows).Ok?
    ensures var s := Sort([OrderKey(ColumnRef(c), descending)], rows).value;
            forall i :: 0 <= i < |s| - 1 ==> NumbersInOrder(s[i], s[i + 1], c)
  {
    var keys := [OrderKey(ColumnRef(c), descending)];
    SortColumns(keys, rows);
    SortSorted(keys, rows);
    var s := Sort(keys, rows).value;
    forall i | 0 <= i < |s| - 1 ensures NumbersInOrder(s[i], s[i + 1], c) {
      assert s[i] in multiset(rows) && s[i + 1] in multiset(rows);
      assert NotAfter(keys, s[i], s[i + 1]);
    }
  }

  /** `Array.prototype.slice(start, end)`: negative bounds count from the end. */
  function Slice(rows: seq<Row>, start: int, end: int): (r: seq<Row>)
    ensures 0 <= start && 0 <= end ==>
              r == if start < end && start < |rows| then rows[start..if end < |rows| then end else |rows|] else []
  {
    var len := |rows|;
    var s := if start < 0 then (if len + start < 0 then 0 else len + start) else (if start < len then start else len);
    var e := if end < 0 then (if len + end < 0 then 0 else len + end) else (if end < len then end else len);
    if s < e then rows[s..e] else []
  }

  /** The number of rows a window of `count` rows from `offset` holds. */
  function WindowSize(n: nat, offset: nat, count: nat): nat {
    if offset >= n then 0 else if offset + count <= n then count else n - offset
  }

  /** A slice from a non-negative offset keeps exactly the rows from the
      offset on, `count` of them or as many as there are. */
  lemma SliceWindow(rows: seq<Row>, offset: int, count: int)
    ensures var r := Slice(rows, offset, offset + count);
            0 <= offset && 0 <= count ==>
              |r| == WindowSize(|rows|, offset, count)
              && forall i :: 0 <= i < |r| ==> offset + i < |rows| && r[i] == rows[offset + i]
  {
    if 0 <= offset && 0 <= count {
      var r := Slice(rows, offset, offset + count);
      var e := if offset + count < |rows| then offset + count else |rows|;
      if offset < offset + count && offset < |rows| {
        assert r == rows[offset..e];
      } else {
        assert r == [];
      }
    }
  }

  /** LIMIT: it must have an offset and a count, and keeps the window of
      `count` rows from `offset` on. */
  function ApplyLimit(rows: seq<Row>, limit: Option<seq<int>>): (r: Result<seq<Row>>)
    ensures limit.None? ==> r == Ok(rows)
    ensures limit.Some? && |limit.value| != 2 ==> r == Err(InvalidLimit)
    ensures limit.Some? && |limit.value| == 2 && 0 <= limit.value[0] && 0 <= limit.value[1] ==>
              r.Ok? && |r.value| == WindowSize(|rows|, limit.value[0], limit.value[1])
              && forall i :: 0 <= i < |r.value| ==> limit.value[0] + i < |rows| && r.value[i] == rows[limit.value[0] + i]
  {
    match limit
    case None => Ok(rows)
    case Some(l) =>
      if |l| != 2 then Err(InvalidLimit)
      else
        SliceWindow(rows, l[0], l[1]);
        Ok(Slice(rows, l[0], l[0] + l[1]))
  }

  /** SELECT over a table given by its header and body. */
  function SelectRows(stmt: SelectStmt, headers: seq<Value>, body: seq<seq<Value>>): Result<seq<Row>> {
    var matched :- Matching(stmt.where, headers, body);
    var chosen := ChooseAll(stmt.columns, matched);
    var sorted :- if stmt.orderBy.Some? then Sort(stmt.orderBy.value, chosen) else Ok(chosen);
    ApplyLimit(sorted, stmt.limit)
  }

  /** `doSelect`: one table only, then the table reference is resolved. */
  function SelectSpec(book: seq<Worksheet>, stmt: SelectStmt): (r: Result<seq<Row>>)
    reads book
    ensures |stmt.from| != 1 ==> r == Err(MultiTableUnsupported)
    ensures |stmt.from| == 1 && ResolveRange(book, stmt.from[0]).Err? ==> r == Err(ResolveRange(book, stmt.from[0]).error)
  {
    if |stmt.from| != 1 then Err(MultiTableUnsupported)
    else
      var range :- ResolveRange(book, stmt.from[0]);
      SelectRows(stmt, HeaderRow(range.0.cells, range.1), BodyRows(range.0.cells, range.1))
  }

  /** A select with `*`, no WHERE, ORDER BY or LIMIT returns every body row
      as a mapping from header to value. */
  lemma SelectStarAll(headers: seq<Value>, body: seq<seq<Value>>)
    ensures SelectRows(SelectStmt(Star, [""], None, None, None), headers, body)
            == Ok(RowsOf(headers, body))
  {
    MatchingAll(headers, body);
    ChooseAllStar(RowsOf(headers, body));
  }

  /** COUNT(*) with nothing else returns one row counting the selected
      rows, or no row when none is selected. */
  lemma SelectCount(alias: string, where: Option<Expr>, headers: seq<Value>, body: seq<seq<Value>>)
    requires alias != ""
    requires Matching(where, headers, body).Ok?
    ensures var cols := [Column(Aggregate("COUNT", Other), Some(alias))];
            var n := |Matching(where, headers, body).value|;
            var r := SelectRows(SelectStmt(List(cols), [""], where, None, None), headers, body);
            r.Ok? && |r.value| == (if n == 0 then 0 else 1)
            && (n > 0 ==> Lookup(r.value[0], alias) == Num(n))
  {
    var col := Column(Aggregate("COUNT", Other), Some(alias));
    var cols := [col];
    var m := Matching(where, headers, body).value;
    var stmt := SelectStmt(List(cols), [""], where, None, None);
    assert SelectRows(stmt, headers, body) == ApplyLimit(ChooseAll(List(cols), m), None);
    assert cols[0].expr.Aggregate?;
    ChooseAllAggregateSize(cols, m);
    assert Upper("COUNT") == "COUNT";
    if m != [] {
      assert SoleWriter(cols, 0, alias);
      AggregateEntry(cols, 0, m, alias);
      CountRunning(col, m);
    }
  }

  /** The selected rows through the select list. */
  function Collected(columns: Columns, where: Option<Expr>, headers: seq<Value>, body: seq<seq<Value>>): Result<seq<Row>> {
    var matched :- Matching(where, headers, body);
    Ok(ChooseAll(columns, matched))
  }

  /** One more row of the filter loop: a WHERE that fails decides the
      whole filter, otherwise the row is kept or not. */
  lemma CollectStep(where: Option<Expr>, headers: seq<Value>, body: seq<seq<Value>>, i: nat, matched: seq<Row>)
    requires i < |body| && Matching(where, headers, body[..i]) == Ok(matched)
    ensures var row := MakeRow(headers, body[i]);
            match Selected(where, row)
            case Err(e) => Matching(where, headers, body) == Err(e)
            case Ok(sel) => Matching(where, headers, body[..i + 1]) == Ok(if sel then matched + [row] else matched)
  {
    MatchingStep(where, headers, body, i);
    if Selected(where, MakeRow(headers, body[i])).Err? {
      MatchingFailureStays(where, headers, body, i + 1);
    }
  }

  /** The row loop of `doSelect`: build each row mapping, test the WHERE,
      and hand selected rows to `chooseFields`. */
  method CollectRows(columns: Columns, where: Option<Expr>, headers: seq<Value>, body: seq<seq<Value>>)
    returns (r: Result<seq<Row>>)
    ensures r == Collected(columns, where, headers, body)
  {
    var rows: seq<Row> := [];
    ghost var matched: seq<Row> := [];
    var i := 0;
    while i < |body|
      invariant 0 <= i <= |body|
      invariant Matching(where, headers, body[..i]) == Ok(matched)
      invariant rows == ChooseAll(columns, matched)
    {
      CollectStep(where, headers, body, i, matched);
      var row := BuildRow(headers, body[i]);
      var sel := Selected(where, row);
      if sel.Err? {
        return Err(sel.error);
      }
      if sel.value {
        rows := ChooseFields(columns, rows, row);
        ChooseAllSnoc(columns, matched, row);
        matched := matched + [row];
      }
      i := i + 1;
    }
    assert body[..i] == body;
    assert Matching(where, headers, body) == Ok(matched);
    r := Ok(rows);
  }

  /** `doSelect` after the table is resolved. */
  method SelectTable(t: XlsxTable, stmt: SelectStmt) returns (r: Result<seq<Row>>)
    requires t.Valid()
    ensures r == SelectRows(stmt, t.Headers(), t.Body())
  {
    var rows := CollectRows(stmt.columns, stmt.where, t.Headers(), t.Body());
    if rows.Err? {
      return Err(rows.error);
    }
    var sorted := rows.value;
    if stmt.orderBy.Some? {
      var s := Sort(stmt.orderBy.value, sorted);
      if s.Err? {
        return Err(s.error);
      }
      sorted := s.value;
    }
    r := ApplyLimit(sorted, stmt.limit);
  }

  /** `doSelect` from the start: check the FROM list, open the table, run. */
  method DoSelect(book: seq<Worksheet>, stmt: SelectStmt) returns (r: Result<seq<Row>>)
    ensures r == SelectSpec(book, stmt)
  {
    if |stmt.from| != 1 {
      return Err(MultiTableUnsupported);
    }
    var t := Open(book, stmt.from[0]);
    if t.Err? {
      return Err(t.error);
    }
    r := SelectTable(t.value, stmt);
  }
}
