/** SQL LIKE, as the WHERE evaluator runs it: the pattern is rewritten into
    an anchored regular expression (`%` becomes `.*?`, `_` becomes `.`,
    `\%` and `\_` stand for themselves, and `. * ? $ ^` are escaped) and
    the subject is tested against it. Patterns that contain any other
    regular-expression syntax are outside the model. */
module Like {
  import opened Values

  /** One unit of a rewritten pattern. */
  datatype Token = Char(c: char) | AnyOne | AnyRun

  /** The characters `.` does not match. */
  predicate LineTerminator(c: char) {
    c == '\n' || c == '\r' || c == '\U{2028}' || c == '\U{2029}'
  }

  predicate NoLineTerminator(s: string) {
    forall i :: 0 <= i < |s| ==> !LineTerminator(s[i])
  }

  /** The regular-expression characters the rewrite leaves unescaped. */
  predicate Meta(c: char) {
    c in "[](){}+|"
  }

  /** A character that stands for itself in a pattern. */
  predicate Ordinary(c: char) {
    c != '\\' && c != '%' && c != '_' && !Meta(c)
  }

  /** A pattern whose rewriting contains no regular-expression syntax but
      the two wildcards: every `\` escapes a `%` or `_`, and none of
      `[ ] ( ) { } + |` occurs. */
  predicate Plain(p: string)
    decreases |p|
  {
    if p == [] then true
    else if p[0] == '\\' then |p| >= 2 && (p[1] == '%' || p[1] == '_') && Plain(p[2..])
    else !Meta(p[0]) && Plain(p[1..])
  }

  /** The tokens of a plain pattern. */
  function Tokens(p: string): (t: seq<Token>)
    requires Plain(p)
    ensures |t| <= |p|
    decreases |p|
  {
    if p == [] then []
    else if p[0] == '\\' then [Char(p[1])] + Tokens(p[2..])
    else if p[0] == '%' then [AnyRun] + Tokens(p[1..])
    else if p[0] == '_' then [AnyOne] + Tokens(p[1..])
    else [Char(p[0])] + Tokens(p[1..])
  }

  /** `like2RegExp`, for the patterns the model covers. */
  function Compile(p: string): (r: Option<seq<Token>>)
    ensures r.Some? <==> Plain(p)
  {
    if Plain(p) then Some(Tokens(p)) else None
  }

  /** Whole-string match of a token sequence, as the anchored expression
      `^...$` tests it. */
  predicate Matches(t: seq<Token>, s: string)
    decreases |t|, |s|
  {
    if t == [] then s == []
    else match t[0]
      case Char(c) => s != [] && s[0] == c && Matches(t[1..], s[1..])
      case AnyOne => s != [] && !LineTerminator(s[0]) && Matches(t[1..], s[1..])
      case AnyRun =>
        Matches(t[1..], s) || (s != [] && !LineTerminator(s[0]) && Matches(t, s[1..]))
  }

  /** What one token stands for, on its own piece of the subject. */
  predicate Fits(k: Token, w: string) {
    match k
    case Char(c) => w == [c]
    case AnyOne => |w| == 1 && !LineTerminator(w[0])
    case AnyRun => NoLineTerminator(w)
  }

  function Concat(parts: seq<string>): string
    decreases |parts|
  {
    if parts == [] then [] else parts[0] + Concat(parts[1..])
  }

  /** The subject splits into one piece per token, each fitting its token. */
  ghost predicate Splits(t: seq<Token>, s: string) {
    exists parts: seq<string> :: |parts| == |t| && Concat(parts) == s && PiecesFit(t, parts)
  }

  predicate PiecesFit(t: seq<Token>, parts: seq<string>)
    requires |parts| == |t|
  {
    forall i :: 0 <= i < |t| ==> Fits(t[i], parts[i])
  }

  /** A match yields a split: the pieces are read off the match. */
  lemma {:induction false} MatchesSplits(t: seq<Token>, s: string) returns (parts: seq<string>)
    requires Matches(t, s)
    ensures |parts| == |t| && Concat(parts) == s && PiecesFit(t, parts)
    decreases |t|, |s|
  {
    if t == [] {
      parts := [];
      return;
    }
    match t[0]
    case Char(c) =>
      var rest := MatchesSplits(t[1..], s[1..]);
      parts := [s[..1]] + rest;
      assert s == s[..1] + s[1..];
    case AnyOne =>
      var rest := MatchesSplits(t[1..], s[1..]);
      parts := [s[..1]] + rest;
      assert s == s[..1] + s[1..];
    case AnyRun =>
      if Matches(t[1..], s) {
        var rest := MatchesSplits(t[1..], s);
        parts := [[]] + rest;
      } else {
        var more := MatchesSplits(t, s[1..]);
        parts := [[s[0]] + more[0]] + more[1..];
        assert Fits(t[0], more[0]);
        assert s == [s[0]] + s[1..];
        forall i | 0 <= i < |t| ensures Fits(t[i], parts[i]) {
          if i > 0 {
            assert Fits(t[i], more[i]);
          }
        }
      }
  }

  /** A split yields a match. */
  lemma {:induction false} SplitsMatch(t: seq<Token>, parts: seq<string>)
    requires |parts| == |t| && PiecesFit(t, parts)
    ensures Matches(t, Concat(parts))
    decreases |t|, if t == [] then 0 else |parts[0]|
  {
    if t == [] {
      return;
    }
    var s := Concat(parts);
    assert Fits(t[0], parts[0]);
    assert PiecesFit(t[1..], parts[1..]) by {
      forall i | 0 <= i < |t| - 1 ensures Fits(t[1..][i], parts[1..][i]) {
        assert Fits(t[i + 1], parts[i + 1]);
      }
    }
    match t[0]
    case Char(c) =>
      SplitsMatch(t[1..], parts[1..]);
    case AnyOne =>
      SplitsMatch(t[1..], parts[1..]);
    case AnyRun =>
      if parts[0] == [] {
        SplitsMatch(t[1..], parts[1..]);
        assert Concat(parts) == Concat(parts[1..]);
      } else {
        var shorter := [parts[0][1..]] + parts[1..];
        assert Fits(t[0], shorter[0]) by {
          forall i | 0 <= i < |shorter[0]| ensures !LineTerminator(shorter[0][i]) {
            assert shorter[0][i] == parts[0][i + 1];
          }
        }
        assert PiecesFit(t, shorter) by {
          forall i | 0 <= i < |t| ensures Fits(t[i], shorter[i]) {
            if i > 0 {
              assert shorter[i] == parts[i];
            }
          }
        }
        SplitsMatch(t, shorter);
        assert parts[0] == [parts[0][0]] + parts[0][1..];
        assert Concat(shorter) == s[1..];
        assert !LineTerminator(parts[0][0]);
      }
  }

  /** The matcher decides exactly the split language. */
  lemma MatchesIffSplits(t: seq<Token>, s: string)
    ensures Matches(t, s) <==> Splits(t, s)
  {
    if Matches(t, s) {
      var parts := MatchesSplits(t, s);
    }
    if Splits(t, s) {
      var parts :| |parts| == |t| && Concat(parts) == s && PiecesFit(t, parts);
      SplitsMatch(t, parts);
    }
  }

  /** `like2RegExp(pattern).test(subject)`: the subject is converted to a
      string first; a pattern outside the model is an error. */
  function LikeTest(pattern: string, subject: Value): (r: Result<bool>)
    ensures r.Err? <==> !Plain(pattern)
    ensures r.Err? ==> r.error == UnsupportedPattern
  {
    match Compile(pattern)
    case None => Err(UnsupportedPattern)
    case Some(t) => Ok(Matches(t, ToStr(subject)))
  }

  /** A pattern without wildcards, escapes or metacharacters. */
  predicate Verbatim(w: string) {
    forall i :: 0 <= i < |w| ==> Ordinary(w[i])
  }

  /** One `Char` token per character. */
  function Chars(w: string): (t: seq<Token>)
    ensures |t| == |w|
    decreases |w|
  {
    if w == [] then [] else [Char(w[0])] + Chars(w[1..])
  }

  lemma VerbatimTail(w: string)
    requires Verbatim(w) && w != []
    ensures Verbatim(w[1..]) && Ordinary(w[0])
  {
    assert forall i :: 0 <= i < |w| - 1 ==> w[1..][i] == w[i + 1];
  }

  /** A literal text followed by a plain pattern tokenizes as its
      characters followed by the pattern's tokens. */
  lemma {:induction false} TokensAppend(a: string, b: string)
    requires Verbatim(a) && Plain(b)
    ensures Plain(a + b) && Tokens(a + b) == Chars(a) + Tokens(b)
    decreases |a|
  {
    if a == [] {
      assert a + b == b;
    } else {
      VerbatimTail(a);
      var ab := a + b;
      assert ab[1..] == a[1..] + b;
      assert ab[0] == a[0];
      TokensAppend(a[1..], b);
      assert Ordinary(ab[0]);
      assert ab != [] && ab[0] != '\\' && !Meta(ab[0]);
      assert Plain(ab);
      assert Tokens(ab) == [Char(ab[0])] + Tokens(ab[1..]);
      assert Chars(a) == [Char(a[0])] + Chars(a[1..]);
    }
  }

  /** The characters of `w` match exactly `w`. */
  lemma {:induction false} CharsMatch(w: string, s: string)
    ensures Matches(Chars(w), s) <==> s == w
    decreases |w|
  {
    if w != [] && s != [] {
      CharsMatch(w[1..], s[1..]);
      assert s == [s[0]] + s[1..];
      assert w == [w[0]] + w[1..];
    }
  }

  /** `%` alone matches exactly the strings with no line terminator. */
  lemma {:induction false} RunMatches(s: string)
    ensures Matches([AnyRun], s) <==> NoLineTerminator(s)
    decreases |s|
  {
    assert [AnyRun][1..] == [];
    if s != [] {
      RunMatches(s[1..]);
      assert forall i :: 0 <= i < |s| - 1 ==> s[1..][i] == s[i + 1];
    }
  }

  /** The characters of `w` then `%` match the strings that start with `w`
      and continue with no line terminator. */
  lemma {:induction false} CharsRunMatches(w: string, s: string)
    ensures Matches(Chars(w) + [AnyRun], s) <==> |w| <= |s| && s[..|w|] == w && NoLineTerminator(s[|w|..])
    decreases |w|
  {
    if w == [] {
      RunMatches(s);
      assert Chars(w) + [AnyRun] == [AnyRun];
      assert s[..0] == w && s[0..] == s;
    } else {
      assert (Chars(w) + [AnyRun])[1..] == Chars(w[1..]) + [AnyRun];
      if s != [] {
        CharsRunMatches(w[1..], s[1..]);
        if |w| <= |s| {
          assert s[1..][|w| - 1..] == s[|w|..];
          assert s[..|w|] == [s[0]] + s[1..][..|w| - 1];
          assert w == [w[0]] + w[1..];
        }
      }
    }
  }

  /** A pattern with no wildcard matches exactly its own text. */
  lemma VerbatimLike(w: string, subject: Value)
    requires Verbatim(w)
    ensures LikeTest(w, subject) == Ok(ToStr(subject) == w)
  {
    TokensAppend(w, "");
    assert w + "" == w;
    assert Tokens(w) == Chars(w) + [] == Chars(w);
    assert Compile(w) == Some(Chars(w));
    CharsMatch(w, ToStr(subject));
  }

  /** A literal prefix followed by `%` matches the strings that start with
      the prefix and continue with no line terminator. */
  lemma PrefixLike(w: string, subject: Value)
    requires Verbatim(w)
    ensures LikeTest(w + "%", subject) ==
              Ok(var s := ToStr(subject); |w| <= |s| && s[..|w|] == w && NoLineTerminator(s[|w|..]))
  {
    TokensAppend(w, "%");
    assert Tokens("%") == [AnyRun];
    assert Compile(w + "%") == Some(Chars(w) + [AnyRun]);
    CharsRunMatches(w, ToStr(subject));
  }

  /** An escaped wildcard stands for itself: `\%` matches only `%` and
      `\_` only `_`. */
  lemma EscapedWildcard(c: char, subject: Value)
    requires c == '%' || c == '_'
    ensures LikeTest(['\\', c], subject) == Ok(ToStr(subject) == [c])
  {
    var p := ['\\', c];
    assert p[2..] == [];
    assert Plain(p);
    assert Tokens(p) == [Char(c)] == Chars([c]);
    assert Compile(p) == Some(Chars([c]));
    CharsMatch([c], ToStr(subject));
  }
}
