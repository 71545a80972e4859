/**
 * The JavaScript string operations the relay's protocol code relies on, for one-character
 * separators: `String.prototype.split`, `Array.prototype.join`, `String.prototype.trim`, and
 * the decimal text of a non-negative integer (`${n}`).
 */
module Strings {

  predicate IsDigitChar(c: char) {
    '0' <= c <= '9'
  }

  predicate AllDigits(s: string) {
    forall i :: 0 <= i < |s| ==> IsDigitChar(s[i])
  }

  // ---------------------------------------------------------------------------
  // split and join
  // ---------------------------------------------------------------------------

  /**
   * `s.split(sep)` for a one-character separator: the maximal pieces between separators,
   * in order. There is always at least one piece ("" splits to [""]), and no piece
   * contains the separator.
   */
  function Split(s: string, sep: char): (parts: seq<string>)
    ensures |parts| >= 1
    ensures forall i :: 0 <= i < |parts| ==> sep !in parts[i]
    decreases |s|
  {
    if s == [] then [""]
    else
      var rest := Split(s[1..], sep);
      if s[0] == sep then [""] + rest
      else [[s[0]] + rest[0]] + rest[1..]
  }

  /** `parts.join(sep)` for a one-character separator; the empty array joins to "". */
  function Join(parts: seq<string>, sep: char): string
  {
    if |parts| == 0 then ""
    else if |parts| == 1 then parts[0]
    else parts[0] + [sep] + Join(parts[1..], sep)
  }

  /** Joining the pieces of a split puts back exactly the separators it removed. */
  lemma {:induction false} JoinSplit(s: string, sep: char)
    ensures Join(Split(s, sep), sep) == s
    decreases |s|
  {
    if s != [] {
      var rest := Split(s[1..], sep);
      JoinSplit(s[1..], sep);
      if s[0] == sep {
        assert Split(s, sep) == [""] + rest;
        assert ([""] + rest)[1..] == rest;
        assert s == [sep] + s[1..];
      } else {
        var parts := [[s[0]] + rest[0]] + rest[1..];
        assert Split(s, sep) == parts;
        if |rest| == 1 {
          assert Join(parts, sep) == [s[0]] + rest[0];
          assert s == [s[0]] + s[1..];
        } else {
          assert parts[1..] == rest[1..];
          assert Join(rest, sep) == rest[0] + [sep] + Join(rest[1..], sep);
          assert s == [s[0]] + s[1..];
        }
      }
    }
  }

  /** A text without the separator is a single piece. */
  lemma {:induction false} SplitWithoutSeparator(s: string, sep: char)
    requires sep !in s
    ensures Split(s, sep) == [s]
    decreases |s|
  {
    if s != [] {
      assert sep !in s[1..];
      SplitWithoutSeparator(s[1..], sep);
      assert s == [s[0]] + s[1..];
    }
  }

  /** A separator between two texts is a piece boundary: the pieces of each side, in order. */
  lemma {:induction false} SplitAtSeparator(a: string, b: string, sep: char)
    ensures Split(a + [sep] + b, sep) == Split(a, sep) + Split(b, sep)
    decreases |a|
  {
    var s := a + [sep] + b;
    if a == [] {
      assert s == [sep] + b;
      assert s[1..] == b;
    } else {
      assert s[0] == a[0] && s[1..] == a[1..] + [sep] + b;
      SplitAtSeparator(a[1..], b, sep);
      SplitSameHead(s, a, Split(b, sep), sep);
    }
  }

  /**
   * Two texts with the same first character: when the pieces of the rest of one are those of
   * the rest of the other followed by `right`, the same holds of the whole texts.
   */
  lemma SplitSameHead(s: string, a: string, right: seq<string>, sep: char)
    requires s != [] && a != [] && s[0] == a[0]
    requires Split(s[1..], sep) == Split(a[1..], sep) + right
    ensures Split(s, sep) == Split(a, sep) + right
  {
    SplitStep(s, sep);
    SplitStep(a, sep);
    PiecesShift(s[0], sep, Split(s[1..], sep), Split(a[1..], sep), right);
  }

  /** The list algebra behind SplitSameHead, kept apart from Split itself. */
  lemma PiecesShift(c: char, sep: char, rest: seq<string>, left: seq<string>, right: seq<string>)
    requires |left| >= 1 && rest == left + right
    ensures c == sep ==> [""] + rest == ([""] + left) + right
    ensures c != sep ==> [[c] + rest[0]] + rest[1..] == ([[c] + left[0]] + left[1..]) + right
  {
    assert rest[0] == left[0];
    assert rest[1..] == left[1..] + right;
  }

  /** One unfolding of Split, named so that the proofs above can use it on demand. */
  lemma SplitStep(s: string, sep: char)
    requires s != []
    ensures Split(s, sep) == if s[0] == sep then [""] + Split(s[1..], sep)
                             else [[s[0]] + Split(s[1..], sep)[0]] + Split(s[1..], sep)[1..]
  {
  }

  /** Joining never introduces a character other than the separator. */
  lemma {:induction false} JoinWithoutChar(parts: seq<string>, sep: char, c: char)
    requires c != sep
    requires forall i :: 0 <= i < |parts| ==> c !in parts[i]
    ensures c !in Join(parts, sep)
    decreases |parts|
  {
    if |parts| > 1 {
      JoinWithoutChar(parts[1..], sep, c);
    }
  }

  /** Splitting a join recovers the parts, when there is at least one and none holds the separator. */
  lemma {:induction false} SplitJoin(parts: seq<string>, sep: char)
    requires |parts| >= 1
    requires forall i :: 0 <= i < |parts| ==> sep !in parts[i]
    ensures Split(Join(parts, sep), sep) == parts
    decreases |parts|
  {
    SplitWithoutSeparator(parts[0], sep);
    if |parts| > 1 {
      SplitJoin(parts[1..], sep);
      SplitAtSeparator(parts[0], Join(parts[1..], sep), sep);
      assert parts == [parts[0]] + parts[1..];
    }
  }

  // ---------------------------------------------------------------------------
  // trim
  // ---------------------------------------------------------------------------

  /** The characters `String.prototype.trim` removes: ECMAScript WhiteSpace and LineTerminator. */
  predicate IsWhitespace(c: char) {
    || c == '\t' || c == '\n' || c == '\U{000B}' || c == '\U{000C}' || c == '\r' || c == ' '
    || c == '\U{00A0}' || c == '\U{1680}' || ('\U{2000}' <= c <= '\U{200A}')
    || c == '\U{2028}' || c == '\U{2029}' || c == '\U{202F}' || c == '\U{205F}'
    || c == '\U{3000}' || c == '\U{FEFF}'
  }

  predicate AllWhitespace(s: string) {
    forall i :: 0 <= i < |s| ==> IsWhitespace(s[i])
  }

  /** How many whitespace characters `s` starts with. */
  function LeadingWhitespace(s: string): (n: nat)
    ensures n <= |s|
    decreases |s|
  {
    if |s| > 0 && IsWhitespace(s[0]) then 1 + LeadingWhitespace(s[1..]) else 0
  }

  /** How many whitespace characters `s` ends with. */
  function TrailingWhitespace(s: string): (n: nat)
    ensures n <= |s|
    decreases |s|
  {
    if |s| > 0 && IsWhitespace(s[|s| - 1]) then 1 + TrailingWhitespace(s[..|s| - 1]) else 0
  }

  /** `s.trim()`: `s` without its leading and trailing whitespace. */
  function Trim(s: string): string {
    var t := s[LeadingWhitespace(s)..];
    t[..|t| - TrailingWhitespace(t)]
  }

  /** The leading run is all whitespace and ends at a character that is not whitespace. */
  lemma {:induction false} LeadingWhitespaceShape(s: string)
    ensures forall k :: 0 <= k < LeadingWhitespace(s) ==> IsWhitespace(s[k])
    ensures LeadingWhitespace(s) < |s| ==> !IsWhitespace(s[LeadingWhitespace(s)])
    decreases |s|
  {
    if |s| > 0 && IsWhitespace(s[0]) {
      var t := s[1..];
      LeadingWhitespaceShape(t);
      assert forall k :: 1 <= k < |s| ==> s[k] == t[k - 1];
    }
  }

  /** The trailing run is all whitespace and starts after a character that is not whitespace. */
  lemma {:induction false} TrailingWhitespaceShape(s: string)
    ensures forall k :: |s| - TrailingWhitespace(s) <= k < |s| ==> IsWhitespace(s[k])
    ensures TrailingWhitespace(s) < |s| ==> !IsWhitespace(s[|s| - TrailingWhitespace(s) - 1])
    decreases |s|
  {
    if |s| > 0 && IsWhitespace(s[|s| - 1]) {
      var t := s[..|s| - 1];
      TrailingWhitespaceShape(t);
      assert forall k :: 0 <= k < |t| ==> t[k] == s[k];
    }
  }

  /** `s[i..j]` is `s` with only whitespace removed before `i` and after `j`. */
  predicate CutsWhitespace(s: string, i: int, j: int) {
    0 <= i <= j <= |s| && AllWhitespace(s[..i]) && AllWhitespace(s[j..])
  }

  /**
   * The trimmed text is a contiguous piece of the input with only whitespace cut away on
   * either side, and it neither starts nor ends with whitespace.
   */
  lemma TrimShape(s: string)
    ensures exists i, j :: CutsWhitespace(s, i, j) && Trim(s) == s[i..j]
    ensures |Trim(s)| > 0 ==> !IsWhitespace(Trim(s)[0]) && !IsWhitespace(Trim(s)[|Trim(s)| - 1])
  {
    var i := LeadingWhitespace(s);
    var j := i + |s[i..]| - TrailingWhitespace(s[i..]);
    TrimCut(s, i, j);
    TrimEnds(s, i, j);
  }

  lemma TrimCut(s: string, i: nat, j: nat)
    requires i == LeadingWhitespace(s) && j == i + |s[i..]| - TrailingWhitespace(s[i..])
    ensures CutsWhitespace(s, i, j) && Trim(s) == s[i..j]
  {
    var t := s[i..];
    LeadingWhitespaceShape(s);
    TrailingWhitespaceShape(t);
    assert AllWhitespace(s[j..]) by {
      assert forall k :: j <= k < |s| ==> s[k] == t[k - i];
    }
  }

  lemma TrimEnds(s: string, i: nat, j: nat)
    requires i == LeadingWhitespace(s) && j == i + |s[i..]| - TrailingWhitespace(s[i..])
    requires Trim(s) == s[i..j]
    ensures |Trim(s)| > 0 ==> !IsWhitespace(Trim(s)[0]) && !IsWhitespace(Trim(s)[|Trim(s)| - 1])
  {
    var t := s[i..];
    if i < j {
      LeadingWhitespaceShape(s);
      TrailingWhitespaceShape(t);
      assert Trim(s)[0] == s[i];
      assert Trim(s)[|Trim(s)| - 1] == t[|t| - TrailingWhitespace(t) - 1];
    }
  }

  /** A text trims to nothing exactly when it is all whitespace. */
  lemma TrimEmptyIff(s: string)
    ensures Trim(s) == "" <==> AllWhitespace(s)
  {
    TrimShape(s);
    var i, j :| CutsWhitespace(s, i, j) && Trim(s) == s[i..j];
    if Trim(s) == "" {
      assert i == j;
      forall k | 0 <= k < |s| ensures IsWhitespace(s[k]) {
        if k < i { assert s[k] == s[..i][k]; } else { assert s[k] == s[j..][k - j]; }
      }
    }
  }

  /** Trimming twice is trimming once. */
  lemma TrimIdempotent(s: string)
    ensures Trim(Trim(s)) == Trim(s)
  {
    TrimShape(s);
    var t := Trim(s);
    if |t| > 0 {
      assert LeadingWhitespace(t) == 0;
      assert t[0..] == t;
      assert TrailingWhitespace(t) == 0;
    }
  }

  // ---------------------------------------------------------------------------
  // decimal text of a non-negative integer
  // ---------------------------------------------------------------------------

  function DigitChar(d: nat): (c: char)
    requires d < 10
    ensures IsDigitChar(c) && c as int - '0' as int == d
  {
    ('0' as int + d) as char
  }

  /** `${n}` for a non-negative integer: its decimal digits, most significant first. */
  function NatToString(n: nat): (s: string)
    ensures |s| >= 1 && AllDigits(s)
    ensures |s| > 1 ==> s[0] != '0'
  {
    if n < 10 then [DigitChar(n)] else NatToString(n / 10) + [DigitChar(n % 10)]
  }

  /** The value of a decimal text; the partner of NatToString. */
  function ParseNat(s: string): nat
    requires AllDigits(s)
  {
    if s == [] then 0 else ParseNat(s[..|s| - 1]) * 10 + (s[|s| - 1] as int - '0' as int)
  }

  /** The decimal text of a number reads back as that number. */
  lemma {:induction false} ParseNatToString(n: nat)
    ensures ParseNat(NatToString(n)) == n
  {
    if n >= 10 {
      ParseNatToString(n / 10);
      var s := NatToString(n);
      assert s[..|s| - 1] == NatToString(n / 10);
    }
  }

  /** Distinct numbers have distinct decimal texts. */
  lemma NatToStringInjective(m: nat, n: nat)
    ensures NatToString(m) == NatToString(n) <==> m == n
  {
    if NatToString(m) == NatToString(n) {
      ParseNatToString(m);
      ParseNatToString(n);
    }
  }

  /** The length of the run of digits a text starts with. */
  function DigitRun(s: string): (n: nat)
    ensures n <= |s|
    decreases |s|
  {
    if s != [] && IsDigitChar(s[0]) then 1 + DigitRun(s[1..]) else 0
  }

  lemma {:induction false} DigitRunBeforeTerminator(a: string, c: char, x: string)
    requires AllDigits(a) && !IsDigitChar(c)
    ensures DigitRun(a + [c] + x) == |a|
    decreases |a|
  {
    if a != [] {
      assert (a + [c] + x)[1..] == a[1..] + [c] + x;
      DigitRunBeforeTerminator(a[1..], c, x);
    }
  }

  /**
   * A digit text followed by a non-digit is never a proper prefix of another such text:
   * in `a + [c] + x == b + [c] + y` the digits before `c` agree.
   */
  lemma DigitsBeforeTerminator(a: string, b: string, c: char, x: string, y: string)
    requires AllDigits(a) && AllDigits(b) && !IsDigitChar(c)
    requires a + [c] + x == b + [c] + y
    ensures a == b
  {
    var u := a + [c] + x;
    DigitRunBeforeTerminator(a, c, x);
    DigitRunBeforeTerminator(b, c, y);
    assert a == u[..|a|];
    assert b == (b + [c] + y)[..|b|];
  }
}
