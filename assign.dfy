/** Writing named values into a row of header-ordered cells, as UPDATE and
    INSERT do: an object of column name to value is built first, then each
    of its keys is written at the first header equal to it. */
module Assign {
  import opened Values
  import opened Table

  /** `obj[keys[n]] = vals[n]` for every `n` in turn. */
  function ObjectOf(keys: seq<string>, vals: seq<Value>): Row {
    MakeRow(seq(|keys|, i requires 0 <= i < |keys| => Str(keys[i])), vals)
  }

  /** The object has exactly the given keys, and a repeated key holds the
      value given last. */
  lemma ObjectOfSpec(keys: seq<string>, vals: seq<Value>, key: string)
    ensures key in ObjectOf(keys, vals) <==> key in keys
    ensures forall j :: 0 <= j < |keys| && keys[j] == key && (forall k :: j < k < |keys| ==> keys[k] != key) ==>
              key in ObjectOf(keys, vals) && ObjectOf(keys, vals)[key] == Element(vals, j)
  {
    var names := seq(|keys|, i requires 0 <= i < |keys| => Str(keys[i]));
    MakeRowKeys(names, vals, key);
    if key in keys {
      var j :| 0 <= j < |keys| && keys[j] == key;
      assert ToStr(names[j]) == key;
    }
    forall j | 0 <= j < |keys| && keys[j] == key && (forall k :: j < k < |keys| ==> keys[k] != key)
      ensures key in ObjectOf(keys, vals) && ObjectOf(keys, vals)[key] == Element(vals, j)
    {
      assert LastWithKey(names, j) by {
        forall k | j < k < |names| ensures ToStr(names[k]) != ToStr(names[j]) {
          assert keys[k] != key;
        }
      }
      MakeRowValue(names, vals, j);
    }
  }

  /** Column `n` receives a value from `obj`: its header is a string key of
      `obj` and no earlier header is that same string (`indexOf` finds the
      first). */
  predicate Receives(headers: seq<Value>, obj: Row, n: int)
    requires 0 <= n < |headers|
  {
    headers[n].Str? && headers[n].s in obj && IndexOf(headers, headers[n].s) == n
  }

  /** `row[headers.indexOf(key)] = obj[key]` for every key of `obj`; a key
      with no header (index -1) writes nothing. */
  function ApplySet(headers: seq<Value>, vals: seq<Value>, obj: Row): (r: seq<Value>)
    requires |vals| == |headers|
    ensures |r| == |vals|
    ensures forall n :: 0 <= n < |r| ==> r[n] == if Receives(headers, obj, n) then obj[headers[n].s] else vals[n]
  {
    seq(|vals|, n requires 0 <= n < |vals| => if Receives(headers, obj, n) then obj[headers[n].s] else vals[n])
  }

  /** Writing the same object twice is writing it once. */
  lemma ApplySetIdempotent(headers: seq<Value>, vals: seq<Value>, obj: Row)
    requires |vals| == |headers|
    ensures ApplySet(headers, ApplySet(headers, vals, obj), obj) == ApplySet(headers, vals, obj)
  {
  }

  /** Keys that name no header change nothing. */
  lemma ApplySetUnknownKeys(headers: seq<Value>, vals: seq<Value>, obj: Row)
    requires |vals| == |headers|
    requires forall key :: key in obj ==> Str(key) !in headers
    ensures ApplySet(headers, vals, obj) == vals
  {
    forall n | 0 <= n < |vals| ensures !Receives(headers, obj, n) {
      assert headers[n] in headers;
    }
  }

  /** The keys of `keys` in order of first appearance. `for ... in` visits
      integer-like keys first, in ascending order, and the rest in this
      order; `AssignKeys` is proved for any order of the keys. */
  function KeyOrder(keys: seq<string>): (r: seq<string>)
    ensures forall k :: k in r <==> k in keys
    ensures forall i, j :: 0 <= i < j < |r| ==> r[i] != r[j]
    decreases |keys|
  {
    if keys == [] then []
    else
      var n := |keys| - 1;
      var prev := KeyOrder(keys[..n]);
      assert forall k :: k in keys <==> k in keys[..n] || k == keys[n];
      if keys[n] in prev then prev else prev + [keys[n]]
  }

  /** The loop `for (let key in obj) row[headers.indexOf(key)] = obj[key]`,
      visiting the keys in the order given. */
  method AssignKeys(headers: seq<Value>, vals: seq<Value>, obj: Row, order: seq<string>) returns (r: seq<Value>)
    requires |vals| == |headers|
    requires forall k :: k in order <==> k in obj
    ensures r == ApplySet(headers, vals, obj)
  {
    r := vals;
    for i := 0 to |order|
      invariant |r| == |vals|
      invariant forall n :: 0 <= n < |r| ==>
                  r[n] == if Receives(headers, obj, n) && headers[n].s in order[..i] then obj[headers[n].s] else vals[n]
    {
      var key := order[i];
      var at := IndexOf(headers, key);
      if at >= 0 {
        r := r[at := obj[key]];
      }
      assert order[..i + 1] == order[..i] + [key];
    }
    assert order[..|order|] == order;
  }

  /** The last position of `key` in `s`. */
  function LastIndexOf(s: seq<string>, key: string): (j: int)
    requires key in s
    ensures 0 <= j < |s| && s[j] == key && forall m :: j < m < |s| ==> s[m] != key
    decreases |s|
  {
    if s[|s| - 1] == key then |s| - 1 else LastIndexOf(s[..|s| - 1], key)
  }
}
