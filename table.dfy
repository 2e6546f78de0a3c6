/** The logical table: a table reference resolved against a workbook into a
    header row and a body of rows over the same columns, with the row
    operations the statements use. */
module Table {
  import opened Values
  import opened Address
  import opened Grid

  /** The first sheet called `name`. */
  function SheetNamed(book: seq<Worksheet>, name: string): (r: Option<Worksheet>)
    ensures r.Some? ==> r.value in book && r.value.name == name
    ensures r.None? ==> forall s :: s in book ==> s.name != name
    decreases |book|
  {
    if book == [] then None
    else if book[0].name == name then Some(book[0])
    else SheetNamed(book[1..], name)
  }

  /** `workbook.sheet(indexOrName)`. */
  function SheetOf(book: seq<Worksheet>, ref: SheetRef): (r: Option<Worksheet>)
    ensures r.Some? ==> r.value in book
  {
    match ref
    case Index(i) => if i < |book| then Some(book[i]) else None
    case Name(n) => SheetNamed(book, n)
  }

  /** How many rows at the bottom of rows `top..bottom` (columns `left`,
      `w` wide) are blank: `None` when every row is. */
  function TrailingBlank(m: Cells, top: int, bottom: int, left: int, w: nat): (r: Option<nat>)
    ensures r.Some? ==> r.value <= bottom - top && !BlankRow(m, bottom - r.value, left, w)
    ensures r.Some? ==> forall i :: bottom - r.value < i <= bottom ==> BlankRow(m, i, left, w)
    ensures r.None? ==> forall i :: top <= i <= bottom ==> BlankRow(m, i, left, w)
    decreases bottom - top + 1
  {
    if bottom < top then None
    else if !BlankRow(m, bottom, left, w) then Some(0)
    else match TrailingBlank(m, top, bottom - 1, left, w)
      case None => None
      case Some(k) => Some(k + 1)
  }

  /** The trim loop of the table constructor: count blank rows upward from
      the bottom of the used extent. Running off the top reads row -1,
      which fails. */
  method CountTrailingBlank(sheet: Worksheet, top: int, bottom: int, left: int, w: nat)
    returns (r: Option<nat>)
    ensures r == TrailingBlank(sheet.cells, top, bottom, left, w)
  {
    var removed := 0;
    while removed <= bottom - top && BlankRow(sheet.cells, bottom - removed, left, w)
      invariant 0 <= removed <= bottom - top + 1 || (removed == 0 && bottom < top)
      invariant TrailingBlank(sheet.cells, top, bottom, left, w)
        == match TrailingBlank(sheet.cells, top, bottom - removed, left, w)
           case None => None
           case Some(k) => Some(k + removed)
    {
      removed := removed + 1;
    }
    if removed > bottom - top {
      r := None;
    } else {
      r := Some(removed);
    }
  }

  /** The range an address's cells stand for on `s`: `A1:C52` as written,
      `A1` alone running to the used extent's last row and column. */
  function CellRange(s: Worksheet, start: string, end: Option<string>): Extent
    requires IsCell(start) && (end.Some? ==> IsCell(end.value))
  {
    var p := CellPos(start);
    if end.Some? then
      var q := CellPos(end.value);
      Extent(p.0, p.1, q.0, q.1)
    else Extent(p.0, p.1, s.used.bottom, s.used.right)
  }

  /** The range the table is built on, unless it is inverted. */
  function Checked(s: Worksheet, e: Extent): (r: Result<(Worksheet, Extent)>)
    ensures r.Ok? <==> Ordered(e)
    ensures r.Ok? ==> r.value == (s, e)
    ensures r.Err? ==> r.error == InvertedRange
  {
    if Ordered(e) then Ok((s, e)) else Err(InvertedRange)
  }

  /** Resolution of a table reference (the table constructor). An empty
      address stands for the first sheet's used extent. A matched
      reference names its sheet (the first one when it has no prefix) and
      its cells give the range, untrimmed. Anything else is taken as a
      sheet name, whose used extent is used with its trailing blank rows
      cut off; when every row is blank the trim runs off the top and fails. */
  function ResolveRange(book: seq<Worksheet>, address: string): (r: Result<(Worksheet, Extent)>)
    reads book
    ensures r.Ok? ==> r.value.0 in book && Ordered(r.value.1)
    ensures address == "" ==> r == (if |book| == 0 then Err(TypeError) else Checked(book[0], book[0].used))
    ensures address != "" && Parse(address).Matched? && SheetOf(book, Parse(address).sheet).None? ==>
              r == Err(TypeError)
    ensures address != "" && Parse(address).Matched? && SheetOf(book, Parse(address).sheet).Some? ==>
              var s := SheetOf(book, Parse(address).sheet).value;
              var m := Parse(address);
              var p := CellPos(m.start);
              var e := if m.end.Some? then Extent(p.0, p.1, CellPos(m.end.value).0, CellPos(m.end.value).1)
                       else Extent(p.0, p.1, s.used.bottom, s.used.right);
              r == (if Ordered(e) then Ok((s, e)) else Err(InvertedRange))
    ensures address != "" && Parse(address).Unmatched? && SheetOf(book, Name(address)).None? ==>
              r == Err(AddressNotFound)
    ensures address != "" && Parse(address).Unmatched? && SheetOf(book, Name(address)).Some? ==>
              var s := SheetOf(book, Name(address)).value;
              (r.Ok? <==> Ordered(s.used) && TrailingBlank(s.cells, s.used.top, s.used.bottom, s.used.left, Span(s.used)).Some?)
              && (r.Err? ==> r.error == (if Ordered(s.used) then TypeError else InvertedRange))
    ensures address != "" && Parse(address).Unmatched? && r.Ok? ==>
              SheetOf(book, Name(address)) == Some(r.value.0) && Trimmed(r.value.0, r.value.1)
  {
    if address == "" then
      if |book| == 0 then Err(TypeError) else Checked(book[0], book[0].used)
    else match Parse(address)
      case Matched(ref, start, end) =>
        ParseSound(address);
        (match SheetOf(book, ref)
         case None => Err(TypeError)
         case Some(s) => Checked(s, CellRange(s, start, end)))
      case Unmatched =>
        match SheetOf(book, Name(address))
        case None => Err(AddressNotFound)
        case Some(s) =>
          var u := s.used;
          if !Ordered(u) then Err(InvertedRange)
          else match TrailingBlank(s.cells, u.top, u.bottom, u.left, Span(u))
            case None => Err(TypeError)
            case Some(k) => Ok((s, Extent(u.top, u.left, u.bottom - k, u.right)))
  }

  /** `e` is the used extent of `s` with exactly its trailing blank rows cut
      off: the same columns, a last row that is not blank, and only blank
      rows below it. */
  ghost predicate Trimmed(s: Worksheet, e: Extent)
    reads s
  {
    && Ordered(e)
    && e.top == s.used.top && e.left == s.used.left && e.right == s.used.right
    && e.bottom <= s.used.bottom
    && !BlankRow(s.cells, e.bottom, e.left, Span(e))
    && forall i :: e.bottom < i <= s.used.bottom ==> BlankRow(s.cells, i, e.left, Span(e))
  }

  /** `ResolveRange` computed with the constructor's trim loop. */
  method Resolve(book: seq<Worksheet>, address: string) returns (r: Result<(Worksheet, Extent)>)
    ensures r == ResolveRange(book, address)
  {
    if address == "" {
      r := if |book| == 0 then Err(TypeError) else Checked(book[0], book[0].used);
      return;
    }
    var p := Parse(address);
    if p.Matched? {
      ParseSound(address);
      var s := SheetOf(book, p.sheet);
      r := if s.None? then Err(TypeError) else Checked(s.value, CellRange(s.value, p.start, p.end));
      return;
    }
    var s := SheetOf(book, Name(address));
    if s.None? {
      r := Err(AddressNotFound);
      return;
    }
    var u := s.value.used;
    if !Ordered(u) {
      r := Err(InvertedRange);
      return;
    }
    var k := CountTrailingBlank(s.value, u.top, u.bottom, u.left, Span(u));
    r := if k.None? then Err(TypeError) else Ok((s.value, Extent(u.top, u.left, u.bottom - k.value, u.right)));
  }

  /** The first index whose header is the string `key` (`indexOf`), or -1. */
  function IndexOf(headers: seq<Value>, key: string): (i: int)
    ensures -1 <= i < |headers|
    ensures i >= 0 ==> headers[i] == Str(key)
    ensures forall j :: 0 <= j < |headers| && (i < 0 || j < i) ==> headers[j] != Str(key)
    decreases |headers|
  {
    if headers == [] then -1
    else if headers[0] == Str(key) then 0
    else var k := IndexOf(headers[1..], key); if k < 0 then -1 else k + 1
  }

  /** No later header has the same property key as header `i`. */
  predicate LastWithKey(headers: seq<Value>, i: int)
    requires 0 <= i < |headers|
  {
    forall j :: i < j < |headers| ==> ToStr(headers[j]) != ToStr(headers[i])
  }

  /** The row mapping `oRow[headers[n]] = row[n]`. */
  function MakeRow(headers: seq<Value>, vals: seq<Value>): Row
    decreases |headers|
  {
    if headers == [] then map[]
    else
      var n := |headers| - 1;
      MakeRow(headers[..n], vals)[ToStr(headers[n]) := Element(vals, n)]
  }

  /** The row has exactly one key per header. */
  lemma {:induction false} MakeRowKeys(headers: seq<Value>, vals: seq<Value>, key: string)
    ensures key in MakeRow(headers, vals) <==> exists i :: 0 <= i < |headers| && ToStr(headers[i]) == key
    decreases |headers|
  {
    if headers != [] {
      var n := |headers| - 1;
      var pre := headers[..n];
      MakeRowKeys(pre, vals, key);
      if key in MakeRow(pre, vals) {
        var i :| 0 <= i < n && ToStr(pre[i]) == key;
        assert headers[i] == pre[i];
      }
      if exists i :: 0 <= i < |headers| && ToStr(headers[i]) == key {
        var i :| 0 <= i < |headers| && ToStr(headers[i]) == key;
        if i < n {
          assert pre[i] == headers[i];
        }
      }
    }
  }

  /** Where headers share a key, the rightmost one's value wins. */
  lemma {:induction false} MakeRowValue(headers: seq<Value>, vals: seq<Value>, i: int)
    requires 0 <= i < |headers| && LastWithKey(headers, i)
    ensures ToStr(headers[i]) in MakeRow(headers, vals)
    ensures MakeRow(headers, vals)[ToStr(headers[i])] == Element(vals, i)
    decreases |headers|
  {
    var n := |headers| - 1;
    if i < n {
      var pre := headers[..n];
      assert LastWithKey(pre, i) by {
        forall j | i < j < n ensures ToStr(pre[j]) != ToStr(pre[i]) {
          assert pre[j] == headers[j];
        }
      }
      MakeRowValue(pre, vals, i);
      assert ToStr(headers[n]) != ToStr(headers[i]);
    }
  }

  /** The row-building loop of the statements. */
  method BuildRow(headers: seq<Value>, vals: seq<Value>) returns (row: Row)
    ensures row == MakeRow(headers, vals)
  {
    row := map[];
    var n := 0;
    while n < |headers|
      invariant 0 <= n <= |headers|
      invariant row == MakeRow(headers[..n], vals)
    {
      assert headers[..n + 1][..n] == headers[..n];
      row := row[ToStr(headers[n]) := Element(vals, n)];
      n := n + 1;
    }
    assert headers[..n] == headers;
  }

  /** `vals` padded or cut to `w` entries, as a loop over `w` reads it. */
  function Padded(vals: seq<Value>, w: nat): (r: seq<Value>)
    ensures |r| == w && forall j :: 0 <= j < w ==> r[j] == Element(vals, j)
    ensures |vals| == w ==> r == vals
  {
    seq(w, j => Element(vals, j))
  }

  /** A resolved table: the header row `top` and the body rows
      `top + 1 .. bottom` over columns `left .. right` of `sheet`. */
  class XlsxTable {
    const sheet: Worksheet
    const top: int
    const left: int
    const right: int
    var bottom: int

    ghost predicate Valid()
      reads this
    {
      top <= bottom && left <= right
    }

    /** The whole range, header row included. */
    function Range(): Extent
      reads this
    {
      Extent(top, left, bottom, right)
    }

    function Width(): (w: nat)
      reads this
      requires Valid()
      ensures w >= 1
    {
      right - left + 1
    }

    function Height(): nat
      reads this
      requires Valid()
    {
      bottom - top
    }

    /** `headerText`: the header row's values. */
    function Headers(): (h: seq<Value>)
      reads this, sheet
      requires Valid()
      ensures |h| == Width()
    {
      HeaderRow(sheet.cells, Range())
    }

    /** The body's values, row by row. */
    function Body(): (b: seq<seq<Value>>)
      reads this, sheet
      requires Valid()
      ensures |b| == Height()
      ensures forall i :: 0 <= i < |b| ==> |b[i]| == Width()
    {
      BodyRows(sheet.cells, Range())
    }

    /** `header(column)`: no bounds check, as in the grid library. */
    function Header(column: int): (v: Value)
      reads this, sheet
      requires Valid()
      ensures 0 <= column < Width() ==> v == Headers()[column]
    {
      At(sheet.cells, top, left + column)
    }

    /** `value(row, column)`: body-relative, no bounds check. */
    function CellValue(row: int, column: int): (v: Value)
      reads this, sheet
      requires Valid()
      ensures 0 <= row < Height() && 0 <= column < Width() ==> v == Body()[row][column]
    {
      At(sheet.cells, top + 1 + row, left + column)
    }

    /** The header is the first row of the range, the body the rest. */
    constructor (sheet: Worksheet, e: Extent)
      requires Ordered(e)
      ensures Valid() && this.sheet == sheet
      ensures top == e.top && left == e.left && right == e.right && bottom == e.bottom
      ensures Headers() == HeaderRow(sheet.cells, e) && Body() == BodyRows(sheet.cells, e)
    {
      this.sheet := sheet;
      top := e.top;
      left := e.left;
      right := e.right;
      bottom := e.bottom;
    }

    /** `update(r, values)`: write `values[0 .. width-1]` (undefined past
        its end) over body row `r`, with no bounds check: a row outside
        the body is written all the same. */
    method Update(r: int, values: seq<Value>)
      requires Valid()
      modifies sheet
      ensures Valid()
      ensures forall i, j :: At(sheet.cells, i, j) ==
                               (if i == top + 1 + r && left <= j <= right then Element(values, j - left)
                                else At(old(sheet.cells), i, j))
      ensures SameOutside(sheet.cells, old(sheet.cells), top + 1 + r, top + 1 + r, left, right)
      ensures 0 <= r < Height() ==> Body() == old(Body())[r := Padded(values, Width())]
      ensures !(0 <= r < Height()) ==> Body() == old(Body())
      ensures r != -1 ==> Headers() == old(Headers())
    {
      var n := 0;
      while n < Width()
        invariant 0 <= n <= Width()
        invariant forall i, j :: At(sheet.cells, i, j) ==
                                   (if i == top + 1 + r && left <= j < left + n then Element(values, j - left)
                                    else At(old(sheet.cells), i, j))
      {
        AtUpdate(sheet.cells, top + 1 + r, left + n, Element(values, n),
                 sheet.cells[Cell(top + 1 + r, left + n) := Element(values, n)]);
        sheet.cells := sheet.cells[Cell(top + 1 + r, left + n) := Element(values, n)];
        n := n + 1;
      }
      ghost var m0, m1 := old(sheet.cells), sheet.cells;
      ghost var w := Width();
      forall i | 0 <= i < Height()
        ensures Body()[i] == (if i == r then Padded(values, w) else old(Body())[i])
      {
        if i != r {
          SameRow(m1, top + 1 + i, m0, top + 1 + i, left, w);
        }
      }
      if r != -1 {
        SameRow(m1, top, m0, top, left, w);
      }
    }

    /** `delete(k)`: move every body row after `k` up by one (the last body
        row takes a copy of the row beneath the body), then shrink the body
        by one row. */
    method Delete(k: int)
      requires Valid() && 0 <= k < Height()
      modifies this, sheet
      ensures Valid() && bottom == old(bottom) - 1 && Height() == old(Height()) - 1
      ensures forall i, j {:trigger At(sheet.cells, i, j)} :: At(sheet.cells, i, j) ==
                               (if top + 1 + k <= i <= old(bottom) && left <= j <= right then At(old(sheet.cells), i + 1, j)
                                else At(old(sheet.cells), i, j))
      ensures Body() == old(Body()[..k] + Body()[k + 1..])
      ensures Headers() == old(Headers())
    {
      ghost var b0 := Body();
      var row := k;
      while row < Height()
        invariant Valid() && bottom == old(bottom)
        invariant k <= row <= Height()
        invariant forall i, j {:trigger At(sheet.cells, i, j)} :: At(sheet.cells, i, j) ==
                                   (if top + 1 + k <= i < top + 1 + row && left <= j <= right then At(old(sheet.cells), i + 1, j)
                                    else At(old(sheet.cells), i, j))
      {
        var col := 0;
        while col < Width()
          invariant Valid() && bottom == old(bottom)
          invariant k <= row < Height() && 0 <= col <= Width()
          invariant forall i, j {:trigger At(sheet.cells, i, j)} :: At(sheet.cells, i, j) ==
                                     (if (top + 1 + k <= i < top + 1 + row && left <= j <= right)
                                         || (i == top + 1 + row && left <= j < left + col)
                                      then At(old(sheet.cells), i + 1, j)
                                      else At(old(sheet.cells), i, j))
        {
          var v := At(sheet.cells, top + 2 + row, left + col);
          AtUpdate(sheet.cells, top + 1 + row, left + col, v, sheet.cells[Cell(top + 1 + row, left + col) := v]);
          sheet.cells := sheet.cells[Cell(top + 1 + row, left + col) := v];
          col := col + 1;
        }
        row := row + 1;
      }
      bottom := bottom - 1;
      ghost var m0, m1 := old(sheet.cells), sheet.cells;
      ghost var w := Width();
      forall i | 0 <= i < Height()
        ensures Body()[i] == (b0[..k] + b0[k + 1..])[i]
      {
        if i < k {
          SameRow(m1, top + 1 + i, m0, top + 1 + i, left, w);
        } else {
          SameRow(m1, top + 1 + i, m0, top + 2 + i, left, w);
        }
      }
      SameRow(m1, top, m0, top, left, w);
    }
  }

  /** `new XlsxTable(database, address)`. */
  method Open(book: seq<Worksheet>, address: string) returns (r: Result<XlsxTable>)
    ensures r.Err? <==> ResolveRange(book, address).Err?
    ensures r.Err? ==> r.error == ResolveRange(book, address).error
    ensures r.Ok? ==>
              && fresh(r.value) && r.value.Valid()
              && r.value.sheet == ResolveRange(book, address).value.0
              && r.value.Range() == ResolveRange(book, address).value.1
  {
    var range := Resolve(book, address);
    if range.Err? {
      r := Err(range.error);
    } else {
      var t := new XlsxTable(range.value.0, range.value.1);
      r := Ok(t);
    }
  }
}
