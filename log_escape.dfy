/**
 * The escaping of log lines (`escape`, nested in `Server.log`, src/server.ts): a filter over
 * the UTF-16 code units of a JavaScript string that keeps a small whitelist and writes every
 * other unit as its decimal code in square brackets.
 */
module LogEscape {
  import opened Strings

  /** One UTF-16 code unit, as `charCodeAt` returns it. */
  type CodeUnit = x: int | 0 <= x < 0x1_0000

  const LeftBracket: CodeUnit := 91
  const RightBracket: CodeUnit := 93

  /** a-z, space, A-Z, 0-9, `!`, `#`, `-`, `_`, `:`, `[` and `]`. */
  predicate Whitelisted(code: CodeUnit) {
    || (code > 96 && code < 123)
    || code == 32
    || (code > 64 && code < 91)
    || (code > 47 && code < 58)
    || code == 33
    || code == 35
    || code == 45
    || code == 95
    || code == 58
    || code == 91
    || code == 93
  }

  predicate AllWhitelisted(s: seq<CodeUnit>) {
    forall i :: 0 <= i < |s| ==> Whitelisted(s[i])
  }

  /** `${code}` as code units: the characters of the decimal text of `n`; each is whitelisted. */
  function DecimalUnits(n: nat): (u: seq<CodeUnit>)
    ensures |u| >= 1 && AllWhitelisted(u)
  {
    var d := NatToString(n);
    seq(|d|, i requires 0 <= i < |d| => d[i] as int)
  }

  /** What one code unit becomes: itself when whitelisted, else `[` + decimal code + `]`. */
  function EscapeUnit(code: CodeUnit): seq<CodeUnit> {
    if Whitelisted(code) then [code] else [LeftBracket] + DecimalUnits(code) + [RightBracket]
  }

  /** The pieces `f` makes of the units of `s`, concatenated in order. */
  function FlatMap(f: CodeUnit -> seq<CodeUnit>, s: seq<CodeUnit>): seq<CodeUnit>
  {
    if s == [] then [] else FlatMap(f, s[..|s| - 1]) + f(s[|s| - 1])
  }

  /** The escaped text: the escapes of the units, in order. */
  function Escaped(s: seq<CodeUnit>): seq<CodeUnit> {
    FlatMap(EscapeUnit, s)
  }

  /** `escape(str)`, building the result in one pass over the code units. */
  method Escape(str: seq<CodeUnit>) returns (newStr: seq<CodeUnit>)
    ensures newStr == Escaped(str)
  {
    newStr := [];
    for i := 0 to |str|
      invariant newStr == Escaped(str[..i])
    {
      var code := str[i];
      if Whitelisted(code) {
        newStr := newStr + [code];
      } else {
        newStr := newStr + [LeftBracket] + DecimalUnits(code) + [RightBracket];
      }
      assert str[..i + 1][..i] == str[..i];
    }
    assert str[..|str|] == str;
  }

  lemma {:induction false} FlatMapAppend(f: CodeUnit -> seq<CodeUnit>, a: seq<CodeUnit>, b: seq<CodeUnit>)
    ensures FlatMap(f, a + b) == FlatMap(f, a) + FlatMap(f, b)
    decreases |b|
  {
    if b == [] {
      assert a + b == a;
    } else {
      var ab, front, last := a + b, b[..|b| - 1], b[|b| - 1];
      assert ab[..|ab| - 1] == a + front;
      assert ab[|ab| - 1] == last;
      FlatMapAppend(f, a, front);
      calc {
        FlatMap(f, ab);
        FlatMap(f, a + front) + f(last);
        (FlatMap(f, a) + FlatMap(f, front)) + f(last);
        FlatMap(f, a) + (FlatMap(f, front) + f(last));
        FlatMap(f, a) + FlatMap(f, b);
      }
    }
  }

  /** Escaping distributes over concatenation: each unit is escaped on its own. */
  lemma EscapedAppend(a: seq<CodeUnit>, b: seq<CodeUnit>)
    ensures Escaped(a + b) == Escaped(a) + Escaped(b)
  {
    FlatMapAppend(EscapeUnit, a, b);
  }

  /**
   * Every unit keeps its place: the escape of the text is the escape of what comes before the
   * unit, then the unit's own escape, then the escape of what follows.
   */
  lemma EscapedAt(s: seq<CodeUnit>, i: nat)
    requires i < |s|
    ensures Escaped(s) == Escaped(s[..i]) + EscapeUnit(s[i]) + Escaped(s[i + 1..])
  {
    var pre, unit, post := s[..i], [s[i]], s[i + 1..];
    assert s == (pre + unit) + post;
    FlatMapAppend(EscapeUnit, pre + unit, post);
    FlatMapAppend(EscapeUnit, pre, unit);
    EscapedUnit(s[i]);
  }

  lemma EscapedUnit(code: CodeUnit)
    ensures Escaped([code]) == EscapeUnit(code)
  {
    var s := [code];
    assert s[..|s| - 1] == [];
    assert FlatMap(EscapeUnit, s) == FlatMap(EscapeUnit, []) + EscapeUnit(s[0]);
  }

  /** Every unit of the output is whitelisted. */
  lemma {:induction false} EscapedIsWhitelisted(s: seq<CodeUnit>)
    ensures AllWhitelisted(Escaped(s))
    decreases |s|
  {
    if s != [] {
      EscapedIsWhitelisted(s[..|s| - 1]);
    }
  }

  /**
   * A unit outside the whitelist becomes `[`, the characters of its decimal code, and `]`;
   * a whitelisted unit stays as it is.
   */
  lemma EscapeUnitReplaces(code: CodeUnit)
    ensures Whitelisted(code) ==> EscapeUnit(code) == [code]
    ensures !Whitelisted(code) ==>
      var u, d := EscapeUnit(code), NatToString(code);
      && |u| == |d| + 2 && u[0] == LeftBracket && u[|u| - 1] == RightBracket
      && forall i :: 0 <= i < |d| ==> u[i + 1] == d[i] as int
  {
  }

  /** A log message cannot break the log line: no line feed or carriage return survives. */
  lemma EscapedNoLineBreak(s: seq<CodeUnit>)
    ensures 10 !in Escaped(s) && 13 !in Escaped(s)
  {
    EscapedIsWhitelisted(s);
  }

  /** A text of whitelisted units is left as it is. */
  lemma {:induction false} EscapedIdentity(s: seq<CodeUnit>)
    requires AllWhitelisted(s)
    ensures Escaped(s) == s
    decreases |s|
  {
    if s != [] {
      EscapedIdentity(s[..|s| - 1]);
      assert s == s[..|s| - 1] + [s[|s| - 1]];
    }
  }

  /** Escaping an escaped text changes nothing. */
  lemma EscapedIdempotent(s: seq<CodeUnit>)
    ensures Escaped(Escaped(s)) == Escaped(s)
  {
    EscapedIsWhitelisted(s);
    EscapedIdentity(Escaped(s));
  }

  /**
   * The output is never shorter than the input, and it has the same length exactly when every
   * unit is whitelisted (any other unit becomes at least three).
   */
  lemma {:induction false} EscapedLength(s: seq<CodeUnit>)
    ensures |Escaped(s)| >= |s|
    ensures |Escaped(s)| == |s| <==> AllWhitelisted(s)
    decreases |s|
  {
    if s != [] {
      var front := s[..|s| - 1];
      EscapedLength(front);
      assert AllWhitelisted(s) <==> AllWhitelisted(front) && Whitelisted(s[|s| - 1]);
    }
  }

  /**
   * The escape cannot be undone: the double quote (34) and the text `[34]` that stands for it
   * produce the same log text.
   */
  lemma EscapedNotInjective()
    ensures Escaped([34]) == Escaped([91, 51, 52, 93])
  {
    assert NatToString(34) == NatToString(3) + [DigitChar(4)];
    assert DecimalUnits(34) == [51, 52];
    EscapedIdentity([91, 51, 52, 93]);
    assert Escaped([34]) == Escaped([]) + EscapeUnit(34);
  }
}
