# A SQL engine over spreadsheet ranges, modelled in Dafny

The program treats a range of a spreadsheet as a database table and runs parsed
SELECT, UPDATE, INSERT and DELETE statements against it. This project models the
engine in `index.js`:

- **Table references.** The address parser (`[sheet$]A1[:C52]`, or a bare
  sheet name) and the table constructor. The constructor resolves a reference
  to a header row and a body. For a bare sheet name it trims trailing blank
  rows.
- **The table object.** `XlsxTable`, with its getters, `header`, `value`,
  `update` and `delete`. It is a class over a mutable worksheet.
- **WHERE evaluation.** The evaluator (`doWhere`), including the rewriting of
  LIKE patterns into anchored regular expressions.
- **The select list.** `chooseFields`: pass-through, projection with aliases,
  and a single SUM/COUNT accumulator row.
- **The four statements.** `doSelect`, with ORDER BY and LIMIT; `doUpdate`;
  `doInsert`; `doDelete`.

Files:

| file | what it holds |
|---|---|
| `values.dfy` | JavaScript values and the operations the engine applies to them: truthiness, `String()`, `Number()`, `==`, `===`, `<`, `+` and `++` |
| `address.dfy` | the address grammar, with a parser proved to accept exactly that grammar |
| `grid.dfy` | sheets as sparse cell maps, header and body extraction |
| `table.dfy` | resolving a reference, row mappings, and the `XlsxTable` class |
| `like.dfy` | LIKE patterns and their meaning |
| `where.dfy` | WHERE evaluation |
| `projection.dfy` | `chooseFields` |
| `select.dfy` | SELECT |
| `assign.dfy` | writing an object's keys into a header-ordered row |
| `update.dfy` | UPDATE |
| `insert.dfy` | INSERT |
| `delete.dfy` | DELETE |

Each statement follows the same pattern:

- A function describes its loop. It works on the body as read at the start and
  the body as written so far.
- A method over `XlsxTable` performs the loop, changing the worksheet through
  `Update` and `Delete`. The method is proved to produce exactly that
  function's result and final body.
- Lemmas say what the function means. For example, UPDATE reports exactly the
  rows SELECT * with the same WHERE returns.

Where the code and the intended SQL behaviour disagree, the model follows the code:

- **OR** evaluates `&&`, the same as AND.
- **ORDER BY** is always ascending. `orderer.type = 'ASC' ? 1 : -1` parses
  as `orderer.type = ('ASC' ? 1 : -1)`: it assigns 1 (or -1 for the `<` test)
  to the direction and returns that number, so the direction is never tested.
- **Missing sheet.** A reference like `Nope$A1`, which matches the grammar but
  names no sheet, fails with a TypeError. It is not AddressNotFound.
- **Quoted sheet prefix.** A prefix in quotes keeps its quotes: `'My Sheet'$A1`
  looks up a sheet whose name is `'My Sheet'`, quotes included, and fails with
  a TypeError when there is none.
- **All-blank sheet.** When every row of a bare sheet is blank, the trim loop
  runs off the top of the rows and fails. It does not produce an empty table.
- **LIKE escaping.** The rewrite escapes only `. * ? $ ^`. Other regular
  expression syntax in a pattern is not escaped.
- **No OutOfRange error.** Cell access is never bounds-checked. `update`
  outside the body writes there.
- **INSERT.** Every tuple is written to the same row, just below the body,
  because the body never grows. Only the last tuple remains.
- **DELETE.** The WHERE is tested against the rows as read at the start, while
  deletion happens in the live, shifting table. After a delete the counter
  still advances. The code can delete a row the WHERE did not select (see
  Findings).

## Model

| member | source | states |
|---|---|---|
| Values.NumberRoundTrip | index.js:233 | converting a number to its decimal string and back gives the same number, for every integer |
| Values.LooseEqNumeral | index.js:233 | `=` holds, both ways round, between a number and the string of its numeral |
| Values.LessAsymmetric | index.js:238-244 | `<` never holds both ways between two values, and never holds between a value and itself |
| Values.Add | index.js:302 | `+` adds two numbers; undefined plus a non-string gives NaN |
| Values.Increment | index.js:308 | `++` adds one to a number; undefined becomes NaN |
| Address.ParseComplete | index.js:4-19 | every well-formed reference (optional bare or quoted sheet prefix, a cell of 1-3 capitals and digits, optional `:cell`) parses as Matched with exactly its own parts; with no prefix the sheet is index 0 |
| Address.ParseSound | index.js:4-19 | every string that parses as Matched is such a well-formed reference, written out from the parsed parts, so every other string is Unmatched |
| Grid.HeaderRow | index.js:66-67 | the header has one value per column of the range |
| Grid.BodyRows | index.js:69-70 | the body has one row per range row below the header, each as wide as the range |
| Table.SheetNamed | index.js:40-41 | the sheet found has the name asked for; when none is found, no sheet of the book has that name |
| Table.SheetOf | index.js:27 | a sheet looked up by index or name is one of the book's sheets |
| Table.TrailingBlank | index.js:49-57 | the count `k` of trailing blank rows: the `k` last rows are blank and the row above them is not; `None` exactly when every row is blank |
| Table.CountTrailingBlank | index.js:49-57 | the constructor's upward scan computes `TrailingBlank`, or `None` when it would run off the top |
| Table.ResolveRange | index.js:22-64 | an empty address gives the first sheet's used range; a matched reference whose sheet is missing fails with a TypeError; otherwise it resolves on that sheet to exactly its corners, `A1:C5` as written and `A1` alone running to the used range's last row and column, untrimmed, or fails with InvertedRange; an unmatched name with no such sheet gives AddressNotFound; an unmatched name of an existing sheet resolves exactly when its used range is ordered and has a row that is not blank, and then gives that range with exactly its trailing blank rows cut off; otherwise it fails with InvertedRange, or with a TypeError when every row is blank; whatever resolves is an ordered range on a sheet of the book |
| Table.Resolve | index.js:22-64 | the constructor's resolution, with its trim loop, computes `ResolveRange` |
| Table.IndexOf | index.js:411 | `indexOf`: the first header equal to the key, or -1 exactly when no header is |
| Table.MakeRowKeys | index.js:347-350 | the row mapping has a key exactly for the string form of each header |
| Table.MakeRowValue | index.js:347-350 | where headers share a key, the rightmost header's value is stored under it |
| Table.BuildRow | index.js:347-350 | the row-building loop builds the row mapping |
| Table.Padded | index.js:110-112 | the written row takes the given values up to the width, padded with undefined; a row exactly as wide as the table is written unchanged |
| Table.XlsxTable.Headers | index.js:73-75 | the header text has one value per column |
| Table.XlsxTable.Body | index.js:69-70 | the body has `height` rows, each `width` wide |
| Table.XlsxTable.Header | index.js:101-103 | `header(c)` inside the width is the header's `c`-th value |
| Table.XlsxTable.CellValue | index.js:105-107 | `value(r, c)` inside the body is the body's cell |
| Table.XlsxTable.constructor | index.js:66-70 | the header is the range's first row and the body the rows beneath it |
| Table.XlsxTable.Update | index.js:109-113 | exactly the cells of sheet row `top + 1 + r` within the table's columns change, to the padded values; for a row inside the body, the body changes in that row only; for one outside, the body is unchanged; the header is unchanged unless `r` is -1 |
| Table.XlsxTable.Delete | index.js:115-123 | the body loses row `k`, the rows below it move up one, and the header stays; every sheet cell in the table's columns from row `k` down takes the value of the cell below it; the body is one row shorter |
| Table.Open | index.js:22-71 | the constructor fails exactly when resolution does; otherwise the new table stands on the resolved sheet and range |
| Like.Compile | index.js:219-227 | a pattern is rewritten exactly when it holds no regular-expression syntax but `%`, `_` and escaped `\%`, `\_` |
| Like.MatchesIffSplits | index.js:219-226 | the anchored match holds exactly when the subject splits into one piece per pattern unit: a literal character itself, `_` one character, `%` any run; neither wildcard covers a line terminator |
| Like.LikeTest | index.js:252 | the LIKE test fails exactly on a pattern outside the plain form, and then with UnsupportedPattern |
| Like.VerbatimLike | index.js:219-226 | a pattern without wildcards matches exactly the subjects whose string form is that text |
| Like.PrefixLike | index.js:222 | `w%` matches exactly the subjects whose string form starts with `w` and continues without a line terminator |
| Like.EscapedWildcard | index.js:222-225 | `\%` matches only `%`, and `\_` only `_` |
| Where.Eval | index.js:229-261 | every operator but AND and OR gives a boolean; the only failures are a TypeError or an unsupported LIKE pattern |
| Where.EvalRelation | index.js:232-250 | a comparison evaluates its left operand, then its right, failing with the first that fails; otherwise `=` is loose equality, `!=` and `<>` its negation, `<`, `<=`, `>`, `>=` the JavaScript order, and IS strict equality |
| Where.EvalUnknown | index.js:255-260 | an unknown operator, and a node that is not a binary operation, give false and select no row |
| Where.OrIsAnd | index.js:245-248 | OR evaluates exactly like AND, for every pair of operands and every row |
| Where.OrOfConditions | index.js:247-248 | on two boolean conditions, OR selects a row exactly when both hold |
| Where.OrTrueFalse | index.js:248 | `true OR false` rejects every row |
| Where.Disjunction | index.js:248 | the intended OR gives the left operand when it is truthy and the right one otherwise; a failing left operand fails |
| Where.DisjunctionOfConditions | index.js:248 | on two boolean conditions the intended OR is their disjunction, and it differs from the evaluated OR exactly when one condition holds and the other does not |
| Where.NotLikeNegates | index.js:251-254 | NOT LIKE is the negation of LIKE, and fails exactly when LIKE does |
| Where.LikeLiteral | index.js:251-252 | LIKE with a string literal pattern is the pattern test on the left operand |
| Where.EvalFrame | index.js:205-209 | two rows that agree on the columns an expression names evaluate it alike |
| Where.NoLikeNoError | index.js:229-261 | an expression without LIKE never fails |
| Projection.UpperEquals | index.js:297 | the aggregate name is matched case-insensitively: upper-casing gives a word of capitals exactly when the name is that word with each letter in either case |
| Projection.ProjectSpec | index.js:315-320 | the projected row has a key exactly for each column's alias or name, and where names repeat it holds the rightmost column's value |
| Projection.Step | index.js:287-311 | an aggregate-mode column writes its own key and no other; a column that is neither plain nor SUM/COUNT writes nothing |
| Projection.Choose | index.js:274-322 | `*` appends the row itself; a plain list appends the projection; an aggregate list keeps exactly one row, created on the first call, and leaves any later rows alone |
| Projection.ChooseFields | index.js:274-322 | the method with the select-list loops computes `Choose` |
| Projection.ChooseAllStar | index.js:275-277 | with `*` the result is the selected rows themselves |
| Projection.ChooseAllProject | index.js:314-320 | a plain list gives one projected row per selected row, in order |
| Projection.ChooseAllAggregateSize | index.js:282-285 | an aggregate list gives one row when any row is selected and none otherwise |
| Projection.AggregateEntry | index.js:282-313 | each key of the aggregate row with a single writing column holds that column's running value over the selected rows |
| Projection.CountRunning | index.js:304-309 | COUNT holds the number of selected rows |
| Projection.SumRunning | index.js:298-303 | SUM over numeric cells holds their total |
| Projection.PlainRunning | index.js:290-293 | a plain column in an aggregate list holds the last selected row's value |
| Select.Matching | index.js:346-354 | at most one mapping per body row is kept |
| Select.MatchingSound | index.js:351-353 | every kept mapping is one the WHERE selects |
| Select.SelectedIndices | index.js:346-354 | the positions of the rows the WHERE selects, strictly increasing: a position is listed exactly when the WHERE gives true for its row |
| Select.MatchingExact | index.js:346-354 | a filter that succeeds keeps exactly the mappings of the selected body rows, one each, in body order |
| Select.MatchingComplete | index.js:346-354 | every body row the WHERE selects has its mapping kept |
| Select.MatchingOk | index.js:346-354 | the filter succeeds exactly when the WHERE evaluates without failure on every body row |
| Select.MatchingNoLike | index.js:346-354 | a WHERE without LIKE never makes the filter fail |
| Select.MatchingFailureStays | index.js:346-354 | a WHERE that fails on some row fails the whole statement |
| Select.MatchingAll | index.js:346-354 | with no WHERE every body row is kept, in order |
| Select.Compare | index.js:357-370 | the comparator gives -1, 0 or 1; its only failure is UnsupportedOrderBy |
| Select.CompareAntisymmetric | index.js:357-370 | swapping the rows negates the comparison and fails alike |
| Select.CompareIgnoresDirection | index.js:363-368 | the ASC/DESC marks never change a comparison |
| Select.CompareColumns | index.js:359-361 | keys that are all columns never fail |
| Select.Insert | index.js:357 | one insertion step of the sort adds exactly the new row to the sorted rows (as a multiset) |
| Select.InsertSorted | index.js:357-370 | inserting into sorted rows keeps them sorted |
| Select.Sort | index.js:356-371 | a successful sort is a permutation of its input |
| Select.SortSorted | index.js:356-371 | a successful sort leaves no neighbouring rows in the wrong order under the comparator |
| Select.SortColumns | index.js:359-361 | sorting on column keys always succeeds |
| Select.SortNonColumn | index.js:359-361 | a first key that is not a column fails exactly when there are two rows or more to compare |
| Select.SortAscending | index.js:363-368 | sorting on a numeric column orders rows ascending whether the key says ASC or DESC |
| Select.Slice | index.js:380 | `slice` with non-negative bounds is the sub-sequence between them, clipped to the rows |
| Select.SliceWindow | index.js:378-380 | a slice from `offset` of `count` keeps exactly `count` rows, or as many as remain after `offset`, each the row at `offset + i` |
| Select.ApplyLimit | index.js:374-381 | no LIMIT keeps all rows; a LIMIT without exactly two parts fails with InvalidLimit; for a non-negative offset and count, `LIMIT offset, count` keeps exactly the window of `count` rows starting at `offset`, clipped to the rows |
| Select.SelectSpec | index.js:333-336 | more than one FROM table fails with MultiTableUnsupported; a reference that does not resolve fails with its error |
| Select.SelectStarAll | index.js:346-354 | `SELECT *` with no WHERE, ORDER BY or LIMIT returns every body row as its mapping, in order |
| Select.SelectCount | index.js:280-309 | `SELECT COUNT(*) AS a` returns one row with the number of selected rows under `a`, or no row when none is selected |
| Select.CollectRows | index.js:346-354 | the row loop computes the selected rows through the select list, or the WHERE's failure |
| Select.SelectTable | index.js:342-382 | SELECT on an opened table computes `SelectRows`: filter, select list, sort, limit |
| Select.DoSelect | index.js:333-383 | the statement computes `SelectSpec` on the workbook |
| Assign.ObjectOfSpec | index.js:400-402 | the object built from column/value pairs has exactly the given keys, each holding the value given last for it |
| Assign.ApplySet | index.js:410-412 | each cell whose header is a key of the object, and is the first header with that name, takes the key's value; every other cell keeps its value |
| Assign.ApplySetIdempotent | index.js:410-412 | writing the same object twice is writing it once |
| Assign.ApplySetUnknownKeys | index.js:411 | keys that name no header change nothing (`indexOf` gives -1) |
| Assign.KeyOrder | index.js:410 | the key order lists each given key exactly once and nothing else |
| Assign.AssignKeys | index.js:410-412 | the key loop computes `ApplySet` |
| Update.UpdateSpec | index.js:404-417 | UPDATE reports exactly the rows SELECT * with the same WHERE returns, as they were before the update; when it succeeds, every selected row holds the SET values and every other row is unchanged |
| Update.UpdatedCell | index.js:400-412 | in an updated row, a column named by a SET assignment holds that column's last assigned value; every other column is unchanged |
| Update.UpdateTable | index.js:394-417 | the loop over the opened table returns the run's result and leaves the run's body; the header and every sheet cell outside the body are unchanged |
| Update.DoUpdate | index.js:393-418 | a reference that does not resolve fails with its error and changes no sheet; otherwise the resolved range's body becomes the run's body, and its header, every other cell of its sheet and every other sheet are unchanged |
| Insert.InsertLastWins | index.js:432-443 | with complete tuples, INSERT reports one object per tuple in order, and the row below the body holds only the last tuple |
| Insert.InsertShortTuple | index.js:434-436 | a tuple with fewer values than columns fails with a TypeError |
| Insert.LaidReadBack | index.js:433-439 | in a written row, each column named by the INSERT holds the tuple's last value for that name, and every other column is undefined |
| Insert.InsertAppendSpec | index.js:432-442 | the intended INSERT writes every tuple, in order, one row each |
| Insert.InsertLosesTuple | index.js:432-442 | of two tuples written as different rows, the first is lost as written, but kept by the intended INSERT |
| Insert.InsertTable | index.js:429-443 | the loop leaves the header and body unchanged and the row below the body holding the last written tuple; nothing else in the sheet changes |
| Insert.DoInsert | index.js:428-444 | a reference that does not resolve fails with its error and changes no sheet; otherwise the header and body of the resolved range are unchanged, the row below holds the last tuple (or is unchanged when none was written), and no other cell of any sheet changes |
| Delete.DeleteRunCount | index.js:460-469 | the remaining body and the reported rows together number the original rows |
| Delete.DeleteRunSound | index.js:461-467 | every reported row is a mapping the WHERE selects |
| Delete.DeleteNone | index.js:460-469 | a WHERE that selects no row deletes nothing and reports nothing |
| Delete.DeleteSingle | index.js:460-469 | a WHERE that selects exactly one row deletes and reports exactly that row |
| Delete.DeleteSkipsRow | index.js:460-469 | on rows (1,1), (2,1), (3,2) with `WHERE k = 1`, DELETE reports rows 1 and 2 but leaves row 2 and deletes row 3; the intended loop leaves row 3 |
| Delete.DeleteFixedSpec | index.js:460-469 | the intended DELETE reports exactly the rows SELECT * returns, and leaves exactly the rows the WHERE does not select, in order |
| Delete.DeleteTable | index.js:455-470 | the loop over the opened table returns the run's result and leaves the run's body; the header and every cell outside the table's original rows and columns are unchanged; the rows between the new and the original bottom all hold a copy of the row beneath the table |
| Delete.DeleteTableFixed | index.js:460-469 | the intended loop on the table returns the matching rows and leaves the unselected rows; the cells outside the table and below the new bottom are as for DeleteTable |
| Delete.DoDelete | index.js:454-471 | an empty FROM list fails with a TypeError; a reference that does not resolve fails with its error; otherwise the result is the run's, and the body read at the resolved range's top, shortened by the deleted rows, is the run's body; the header and every cell outside the table are unchanged, the rows freed at the bottom hold copies of the row beneath the table, and no other sheet changes |

## Left out

- **Loading and saving the workbook, the session API and statement dispatch.**
  The database constructor's option handling, loaders, `ready` and `close`
  (index.js:127-188, 550-565), and `runSQL`/`execute`/`query` with the DELETE
  parse workaround (index.js:480-542), are not modelled. Statements are given
  already parsed.
- **The SQL parser and the spreadsheet library are not part of this model.**
  A sheet's used range is given as a field of the sheet. Sheet lookup by name
  is assumed to return the null that the constructor tests for.
- **The open-range cell lookup.** For `Sheet$A1` without an end cell, index.js:31
  calls `this.worksheet.Cell(...)` with a capital C, where every other cell
  access is `cell`. The model assumes that call returns the start cell; if the
  library has no such method, every open-range reference throws.
- **Inverted ranges.** A range whose end cell lies above or left of its start
  is rejected with InvertedRange. What the library would do with it is not
  modelled.
- **GROUP BY** is ignored. The warning the code prints for it is left out.
- **Values are integers, strings, booleans, null, undefined and NaN.** There
  is no floating point. `Number()` of a string covers the empty string and
  optionally signed decimal integers. Surrounding whitespace, fractions, hex
  and exponents are read as NaN.
- **Strings compare by code point.** JavaScript compares UTF-16 code units.
  The two differ only outside the Basic Multilingual Plane. The same holds for
  LIKE: a JavaScript `_` (`.`) matches one UTF-16 code unit, the model's `_`
  one code point. `toUpperCase` maps ASCII letters only.
- **Key order of result objects** is not modelled. Rows are maps.
- **Sort algorithm.** ORDER BY is modelled as a stable insertion sort that
  stops at the first comparison that throws. The order in which the engine's
  own sort compares rows is not specified, so which rows it compares before
  throwing may differ. The outcome agrees when nothing throws and the keys
  are pairwise comparable (all numbers, or all strings, with no undefined or
  NaN). With an inconsistent comparator it can differ: keys `[2, undefined, 1]`
  compare equal to undefined both ways, and the insertion sort gives
  `[1, 2, undefined]` where an engine that sees one run keeps `[2, undefined, 1]`.
- **LIKE patterns with other regular-expression syntax.** A pattern containing
  `[ ] ( ) { } + |`, or a `\` not followed by `%` or `_`, is left unescaped by
  the code and would be read as regular-expression syntax. The model reports
  UnsupportedPattern instead.
- **LIMIT values** are taken as already parsed integers. `parseInt` is left out.
- **Null column list.** An INSERT without a column list is not modelled.
- Select.ApplyLimit: a negative offset or count is computed with `slice`'s
  counting from the end, but the contract states the window only for a
  non-negative offset and count.
- Insert.InsertShortTuple: assumes every earlier tuple is complete; it does not
  state the cells written before the failing tuple. `InsertRun`, which
  `InsertTable` is proved against, does.

## Findings

| source | as written | input that shows it | evidently intended | confidence | as-written member | corrected member |
|---|---|---|---|---|---|---|
| index.js:460-469 | the WHERE tests snapshot row `rowNum` while `delete(rowNum)` removes the live row there, and the counter advances after a delete | rows (1,1), (2,1), (3,2) under headers `id, k`, `DELETE ... WHERE k = 1`: rows 1 and 2 are reported, rows 1 and 3 are deleted | delete exactly the selected rows, keep the rest in order | not executed | Delete.DeleteSkipsRow | Delete.DeleteFixedSpec |
| index.js:247-248 | OR evaluates `getVal(left) && getVal(right)` | `WHERE true OR false` selects no row | OR is disjunction | not executed | Where.OrTrueFalse | Where.DisjunctionOfConditions |
| index.js:432-442 | every tuple is written at row `height`, which never grows | `INSERT INTO t (a) VALUES (1), (2)` leaves only the second tuple in the sheet | each tuple appended on a row of its own | not executed | Insert.InsertLastWins | Insert.InsertAppendSpec |
