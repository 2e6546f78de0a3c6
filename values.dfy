/** Cell values, row mappings, errors, and the JavaScript operations the
    query engine applies to them (truthiness, String(), ==, <, + and ++). */
module Values {

  /** A cell or literal value: JavaScript's `undefined` (an empty cell, a
      missing property), `null` (the SQL literal NULL), an integral number,
      a string, a boolean, or `NaN`, which appears only as the result of
      arithmetic on a non-number (a SUM over an empty cell). */
  datatype Value = Undef | Null | Num(n: int) | Str(s: string) | Bool(b: bool) | NaN

  /** The ways a statement can fail. `TypeError` stands for a JavaScript
      runtime error raised by the engine's own code (a property read on
      `undefined`, a string method called on a non-string). */
  datatype Error =
    | AddressNotFound
    | TypeError
    | MultiTableUnsupported
    | InvalidLimit
    | UnsupportedOrderBy
    | UnsupportedPattern
    | InvertedRange

  datatype Option<T> = None | Some(value: T)

  datatype Result<T> = Ok(value: T) | Err(error: Error) {
    predicate IsFailure() { Err? }
    function PropagateFailure<U>(): Result<U> requires Err? { Err(error) }
    function Extract(): T requires Ok? { value }
  }

  /** A row as the engine sees it: column name to value. */
  type Row = map<string, Value>

  /** `row[key]` in JavaScript: a missing key reads as undefined. */
  function Lookup(row: Row, key: string): (v: Value)
    ensures key !in row ==> v == Undef
    ensures key in row ==> v == row[key]
  {
    if key in row then row[key] else Undef
  }

  /** `a[n]` on a JavaScript array: undefined outside the array. */
  function Element(a: seq<Value>, n: int): (v: Value)
    ensures 0 <= n < |a| ==> v == a[n]
    ensures !(0 <= n < |a|) ==> v == Undef
  {
    if 0 <= n < |a| then a[n] else Undef
  }

  /** JavaScript truthiness. */
  predicate Truthy(v: Value) {
    match v
    case Undef => false
    case Null => false
    case Num(n) => n != 0
    case Str(s) => s != ""
    case Bool(b) => b
    case NaN => false
  }

  /** Decimal digits of a natural number. */
  function NatToString(n: nat): (s: string)
    ensures |s| >= 1 && AllDigits(s)
    decreases n
  {
    var d := ['0' + (n % 10) as char];
    if n < 10 then d else NatToString(n / 10) + d
  }

  /** JavaScript `String(v)`; also the property key a value becomes. */
  function ToStr(v: Value): string {
    match v
    case Undef => "undefined"
    case Null => "null"
    case Num(n) => if n < 0 then "-" + NatToString(-n) else NatToString(n)
    case Str(s) => s
    case Bool(b) => if b then "true" else "false"
    case NaN => "NaN"
  }

  predicate IsDigit(c: char) { '0' <= c <= '9' }

  predicate AllDigits(s: string) {
    forall i :: 0 <= i < |s| ==> IsDigit(s[i])
  }

  /** Decimal value of a digit string. */
  function DigitsValue(digits: string): nat
    requires AllDigits(digits)
    decreases |digits|
  {
    if digits == [] then 0
    else var k := |digits| - 1;
      assert IsDigit(digits[k]);
      DigitsValue(digits[..k]) * 10 + (digits[k] as int - '0' as int)
  }

  /** JavaScript `ToNumber` of a string, for the empty string and for
      integer numerals with an optional sign; `None` (NaN) otherwise. */
  function StringToNumber(s: string): Option<int> {
    if s == [] then Some(0)
    else if AllDigits(s) then Some(DigitsValue(s))
    else if s[0] in "+-" && |s| >= 2 && AllDigits(s[1..]) then
      var d: int := DigitsValue(s[1..]);
      Some(if s[0] == '-' then -d else d)
    else None
  }

  /** JavaScript `ToNumber`, with `None` for NaN. */
  function ToNumber(v: Value): (r: Option<int>)
    ensures v.Num? ==> r == Some(v.n)
    ensures v.Null? ==> r == Some(0)
    ensures v.Undef? || v.NaN? ==> r == None
  {
    match v
    case Undef => None
    case Null => Some(0)
    case Num(n) => Some(n)
    case Str(s) => StringToNumber(s)
    case Bool(b) => Some(if b then 1 else 0)
    case NaN => None
  }

  /** Reading back the decimal numeral of `n` gives `n`. */
  lemma {:induction false} DigitsRoundTrip(n: nat)
    ensures DigitsValue(NatToString(n)) == n
    decreases n
  {
    var s := NatToString(n);
    if n >= 10 {
      DigitsRoundTrip(n / 10);
      var k := |s| - 1;
      assert s[..k] == NatToString(n / 10);
    }
  }

  /** `Number(String(n)) == n` for every integer. */
  lemma NumberRoundTrip(n: int)
    ensures ToNumber(Str(ToStr(Num(n)))) == Some(n)
  {
    if n < 0 {
      DigitsRoundTrip(-n);
      var s := ToStr(Num(n));
      assert s[1..] == NatToString(-n);
    } else {
      DigitsRoundTrip(n);
    }
  }

  /** A number is loosely equal to its own numeral: `n == String(n)`. */
  lemma LooseEqNumeral(n: int)
    ensures LooseEq(Num(n), Str(ToStr(Num(n))))
    ensures LooseEq(Str(ToStr(Num(n))), Num(n))
  {
    NumberRoundTrip(n);
  }

  /** Lexicographic order on strings. */
  predicate StrLess(a: string, b: string)
    decreases |a|
  {
    if a == [] then b != []
    else if b == [] then false
    else if a[0] != b[0] then a[0] < b[0]
    else StrLess(a[1..], b[1..])
  }

  lemma {:induction false} StrLessAsymmetric(a: string, b: string)
    ensures !(StrLess(a, b) && StrLess(b, a))
    decreases |a|
  {
    if a != [] && b != [] && a[0] == b[0] {
      StrLessAsymmetric(a[1..], b[1..]);
    }
  }

  lemma {:induction false} StrLessIrreflexive(a: string)
    ensures !StrLess(a, a)
    decreases |a|
  {
    if a != [] {
      StrLessIrreflexive(a[1..]);
    }
  }

  predicate Nullish(v: Value) { v.Undef? || v.Null? }

  /** JavaScript loose equality `a == b`: `null` and `undefined` equal each
      other and nothing else, two strings compare as strings, anything else
      as numbers. */
  predicate LooseEq(a: Value, b: Value) {
    if Nullish(a) || Nullish(b) then Nullish(a) && Nullish(b)
    else if a.Str? && b.Str? then a.s == b.s
    else ToNumber(a).Some? && ToNumber(b).Some? && ToNumber(a).value == ToNumber(b).value
  }

  /** JavaScript strict equality `a === b`. */
  predicate StrictEq(a: Value, b: Value) {
    a == b && !a.NaN?
  }

  /** JavaScript `a < b`: strings compare lexicographically, everything
      else numerically, and a NaN operand makes it false. */
  predicate Less(a: Value, b: Value) {
    if a.Str? && b.Str? then StrLess(a.s, b.s)
    else ToNumber(a).Some? && ToNumber(b).Some? && ToNumber(a).value < ToNumber(b).value
  }

  /** JavaScript `a <= b`. */
  predicate LessEq(a: Value, b: Value) {
    if a.Str? && b.Str? then !StrLess(b.s, a.s)
    else ToNumber(a).Some? && ToNumber(b).Some? && ToNumber(a).value <= ToNumber(b).value
  }

  /** `<` never holds both ways, and never holds of a value and itself. */
  lemma LessAsymmetric(a: Value, b: Value)
    ensures !(Less(a, b) && Less(b, a))
    ensures !Less(a, a)
  {
    if a.Str? && b.Str? {
      StrLessAsymmetric(a.s, b.s);
    }
    if a.Str? {
      StrLessIrreflexive(a.s);
    }
  }

  /** JavaScript `a + b`. */
  function Add(a: Value, b: Value): (r: Value)
    ensures a.Num? && b.Num? ==> r == Num(a.n + b.n)
    ensures a.Undef? && !b.Str? ==> r == NaN
  {
    if a.Str? || b.Str? then Str(ToStr(a) + ToStr(b))
    else if ToNumber(a).Some? && ToNumber(b).Some? then Num(ToNumber(a).value + ToNumber(b).value)
    else NaN
  }

  /** JavaScript `v++` (the stored result). */
  function Increment(v: Value): (r: Value)
    ensures v.Num? ==> r == Num(v.n + 1)
    ensures v.Undef? ==> r == NaN
  {
    if ToNumber(v).Some? then Num(ToNumber(v).value + 1) else NaN
  }
}
