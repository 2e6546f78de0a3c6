/** Table references: `[sheet$]A1[:C52]`, or else a bare sheet name.
    `Parse` decides the same language as the engine's address pattern
    `^(?:([^!$]+|'[^']+')\$)?([A-Z]{1,3}\d+)(?::([A-Z]{1,3}\d+))?$`. */
module Address {
  import opened Values

  /** Which sheet a matched reference names: the first sheet (index 0)
      when it has no `sheet$` prefix, otherwise the prefix as written
      (quotes included). */
  datatype SheetRef = Index(i: nat) | Name(name: string)

  datatype Parsed = Unmatched | Matched(sheet: SheetRef, start: string, end: Option<string>)

  predicate IsUpper(c: char) { 'A' <= c <= 'Z' }

  /** Number of upper-case letters at the front of `s`. */
  function LeadingUpper(s: string): (n: nat)
    ensures n <= |s|
    ensures forall i :: 0 <= i < n ==> IsUpper(s[i])
    ensures n < |s| ==> !IsUpper(s[n])
    decreases |s|
  {
    if s != [] && IsUpper(s[0]) then 1 + LeadingUpper(s[1..]) else 0
  }

  /** A cell token `[A-Z]{1,3}\d+`. */
  predicate IsCell(s: string) {
    var n := LeadingUpper(s);
    1 <= n <= 3 && n < |s| && forall i :: n <= i < |s| ==> IsDigit(s[i])
  }

  /** The `[^!$]+` form of a sheet prefix. */
  predicate IsBareName(p: string) {
    |p| >= 1 && forall i :: 0 <= i < |p| ==> p[i] != '!' && p[i] != '$'
  }

  /** The `'[^']+'` form of a sheet prefix. */
  predicate IsQuotedName(p: string) {
    |p| >= 3 && p[0] == '\'' && p[|p| - 1] == '\'' && forall i :: 0 < i < |p| - 1 ==> p[i] != '\''
  }

  predicate IsSheetName(p: string) { IsBareName(p) || IsQuotedName(p) }

  /** Position of the last `c` in `s`, or -1. */
  function LastIndex(s: string, c: char): (r: int)
    ensures -1 <= r < |s|
    ensures r >= 0 ==> s[r] == c
    ensures forall j :: r < j < |s| ==> s[j] != c
    decreases |s|
  {
    if s == [] then -1
    else if s[|s| - 1] == c then |s| - 1
    else LastIndex(s[..|s| - 1], c)
  }

  /** Position of the first `c` in `s`, or -1. */
  function FirstIndex(s: string, c: char): (r: int)
    ensures -1 <= r < |s|
    ensures r >= 0 ==> s[r] == c
    ensures forall j :: 0 <= j < |s| && (r < 0 || j < r) ==> s[j] != c
    decreases |s|
  {
    if s == [] then -1
    else if s[0] == c then 0
    else var k := FirstIndex(s[1..], c); if k < 0 then -1 else k + 1
  }

  /** The part after the optional `sheet$` prefix: `A1` or `A1:C52`. */
  function ParseCells(sheet: SheetRef, rest: string): (r: Parsed)
    ensures r.Matched? ==> r.sheet == sheet && IsCell(r.start) && (r.end.Some? ==> IsCell(r.end.value))
  {
    var k := FirstIndex(rest, ':');
    if k < 0 then
      if IsCell(rest) then Matched(sheet, rest, None) else Unmatched
    else if IsCell(rest[..k]) && IsCell(rest[k + 1..]) then
      Matched(sheet, rest[..k], Some(rest[k + 1..]))
    else Unmatched
  }

  /** `new AddressParser(address)`. Cell tokens contain no `$`, so a prefix,
      when present, ends at the last `$`. */
  function Parse(s: string): (r: Parsed)
    ensures r.Matched? ==> IsCell(r.start) && (r.end.Some? ==> IsCell(r.end.value))
  {
    var d := LastIndex(s, '$');
    if d < 0 then ParseCells(Index(0), s)
    else if IsSheetName(s[..d]) then ParseCells(Name(s[..d]), s[d + 1..])
    else Unmatched
  }

  /** The reference written out from its parts. */
  function Render(sheet: Option<string>, start: string, end: Option<string>): string {
    (if sheet.Some? then sheet.value + "$" else "")
    + start
    + (if end.Some? then ":" + end.value else "")
  }

  /** Parts that the reference grammar admits. */
  predicate WellFormed(sheet: Option<string>, start: string, end: Option<string>) {
    (sheet.Some? ==> IsSheetName(sheet.value)) && IsCell(start) && (end.Some? ==> IsCell(end.value))
  }

  function RefOf(sheet: Option<string>): SheetRef {
    if sheet.Some? then Name(sheet.value) else Index(0)
  }

  lemma CellHasNoSeparators(s: string)
    requires IsCell(s)
    ensures forall i :: 0 <= i < |s| ==> s[i] != '$' && s[i] != ':'
  {
    var n := LeadingUpper(s);
    forall i | 0 <= i < |s| ensures s[i] != '$' && s[i] != ':' {
      if i < n { assert IsUpper(s[i]); } else { assert IsDigit(s[i]); }
    }
  }

  /** The cells part of a well-formed reference parses back to its cells. */
  lemma ParseCellsRender(sheet: SheetRef, start: string, end: Option<string>)
    requires IsCell(start) && (end.Some? ==> IsCell(end.value))
    ensures ParseCells(sheet, start + (if end.Some? then ":" + end.value else "")) == Matched(sheet, start, end)
  {
    var rest := start + (if end.Some? then ":" + end.value else "");
    CellHasNoSeparators(start);
    var k := FirstIndex(rest, ':');
    if end.Some? {
      assert rest[|start|] == ':';
      assert k == |start|;
      assert rest[..k] == start;
      assert rest[k + 1..] == end.value;
    } else {
      assert rest == start;
      assert k == -1;
    }
  }

  /** The cells part of a well-formed reference holds no `$`. */
  lemma CellsHaveNoDollar(start: string, end: Option<string>)
    requires IsCell(start) && (end.Some? ==> IsCell(end.value))
    ensures LastIndex(start + (if end.Some? then ":" + end.value else ""), '$') == -1
  {
    var rest := start + (if end.Some? then ":" + end.value else "");
    CellHasNoSeparators(start);
    if end.Some? { CellHasNoSeparators(end.value); }
    assert forall i :: 0 <= i < |rest| ==> rest[i] != '$';
  }

  /** With no `$` after it, the `$` behind a prefix is the last one. */
  lemma PrefixDollarIsLast(p: string, rest: string)
    requires LastIndex(rest, '$') == -1
    ensures var s := p + "$" + rest;
            LastIndex(s, '$') == |p| && s[..|p|] == p && s[|p| + 1..] == rest
  {
    var s := p + "$" + rest;
    assert s[|p|] == '$';
    assert forall j :: |p| < j < |s| ==> s[j] == rest[j - |p| - 1];
    assert s[..|p|] == p;
    assert s[|p| + 1..] == rest;
  }

  /** Every well-formed reference is Matched, with its own parts, and the
      sheet defaults to index 0 when there is no prefix. */
  lemma ParseComplete(sheet: Option<string>, start: string, end: Option<string>)
    requires WellFormed(sheet, start, end)
    ensures Parse(Render(sheet, start, end)) == Matched(RefOf(sheet), start, end)
  {
    var rest := start + (if end.Some? then ":" + end.value else "");
    CellsHaveNoDollar(start, end);
    if sheet.Some? {
      assert Render(sheet, start, end) == sheet.value + "$" + rest;
      PrefixDollarIsLast(sheet.value, rest);
    } else {
      assert Render(sheet, start, end) == rest;
    }
    ParseCellsRender(RefOf(sheet), start, end);
  }

  /** A Matched cells part is a start cell and an optional `:end` cell. */
  lemma ParseCellsSound(sheet: SheetRef, rest: string)
    requires ParseCells(sheet, rest).Matched?
    ensures var m := ParseCells(sheet, rest);
      && m.sheet == sheet && IsCell(m.start) && (m.end.Some? ==> IsCell(m.end.value))
      && rest == m.start + (if m.end.Some? then ":" + m.end.value else "")
  {
    var k := FirstIndex(rest, ':');
    if k >= 0 {
      assert rest == rest[..k] + ":" + rest[k + 1..];
    }
  }

  /** A string split around one of its `$` characters. */
  lemma SplitAtDollar(s: string, d: int)
    requires 0 <= d < |s| && s[d] == '$'
    ensures s == s[..d] + "$" + s[d + 1..]
  {
    assert s == s[..d] + [s[d]] + s[d + 1..];
  }

  /** A prefixed reference is the prefix, `$`, and its cells part. */
  lemma RenderPrefixed(p: string, start: string, end: Option<string>)
    ensures Render(Some(p), start, end) == p + "$" + (start + (if end.Some? then ":" + end.value else ""))
  {
    var tail := if end.Some? then ":" + end.value else "";
    assert (p + "$") + start + tail == (p + "$") + (start + tail);
  }

  /** A Matched reference with a `sheet$` prefix is that prefix written
      in front of its cells. */
  lemma ParseSoundPrefixed(s: string, d: int)
    requires d == LastIndex(s, '$') && d >= 0 && Parse(s).Matched?
    ensures IsSheetName(s[..d]) && Parse(s) == ParseCells(Name(s[..d]), s[d + 1..])
    ensures var m := Parse(s); s == Render(Some(s[..d]), m.start, m.end)
  {
    var p, rest := s[..d], s[d + 1..];
    assert IsSheetName(p);
    ParseCellsSound(Name(p), rest);
    var m := ParseCells(Name(p), rest);
    SplitAtDollar(s, d);
    RenderPrefixed(p, m.start, m.end);
  }

  /** A Matched reference without `$` is its cells part alone. */
  lemma ParseSoundBare(s: string)
    requires LastIndex(s, '$') < 0 && Parse(s).Matched?
    ensures var m := Parse(s);
            m.sheet == Index(0) && IsCell(m.start) && (m.end.Some? ==> IsCell(m.end.value))
            && s == Render(None, m.start, m.end)
  {
    ParseCellsSound(Index(0), s);
  }

  /** Every Matched string is a well-formed reference written out; so any
      other string is Unmatched. */
  lemma ParseSound(s: string)
    requires Parse(s).Matched?
    ensures var m := Parse(s);
      var sheet := if m.sheet.Name? then Some(m.sheet.name) else None;
      WellFormed(sheet, m.start, m.end) && s == Render(sheet, m.start, m.end) && m.sheet == RefOf(sheet)
  {
    var d := LastIndex(s, '$');
    if d < 0 {
      ParseSoundBare(s);
    } else {
      ParseSoundPrefixed(s, d);
      ParseCellsSound(Name(s[..d]), s[d + 1..]);
    }
  }

  /** Column letters as a base-26 number: A = 1, Z = 26, AA = 27. */
  function ColumnNumber(letters: string): (n: nat)
    requires forall i :: 0 <= i < |letters| ==> IsUpper(letters[i])
    ensures letters != [] ==> n >= 1
    decreases |letters|
  {
    if letters == [] then 0
    else var k := |letters| - 1;
      assert IsUpper(letters[k]);
      ColumnNumber(letters[..k]) * 26 + (letters[k] as int - 'A' as int + 1)
  }

  /** Row and column numbers (1-based) of a cell token. */
  function CellPos(s: string): (p: (int, int))
    requires IsCell(s)
    ensures p.1 >= 1
  {
    var n := LeadingUpper(s);
    (DigitsValue(s[n..]), ColumnNumber(s[..n]))
  }
}
