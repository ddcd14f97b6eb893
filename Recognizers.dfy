/** The hand-written token recognizers of the JSON grammar.

    Each recognizer is given the remaining input and answers with the length
    of the prefix it accepts, 0 meaning "no match". Each one is stated by a
    declarative predicate on (input, length), and the methods, which walk an
    index exactly as the Kotlin code does, are proved to satisfy it. */
module Recognizers {
  import opened CharClass

  // ---------------------------------------------------------------------
  // Keywords: `null`, `true`, `false`
  // ---------------------------------------------------------------------

  /** `text` occurs at the start of `input` as a whole word: the input ends
      right after it, or the next character is not a letter or digit. */
  predicate KeywordAt(text: string, input: string) {
    text <= input && (|input| == |text| || !IsLetterOrDigit(input[|text|]))
  }

  /** `tokenIdent(text)`: the length of `text` if it starts the input as a
      whole word, 0 otherwise. */
  function TokenIdent(text: string, input: string): (n: nat)
    ensures n == 0 || n == |text|
    ensures |text| > 0 ==> (n != 0 <==> KeywordAt(text, input))
  {
    if !(text <= input) then 0
    else if |input| > |text| && IsLetterOrDigit(input[|text|]) then 0
    else |text|
  }

  /** "nullable" is not the keyword `null`, while "null_", "null," and a bare
      "null" are: the underscore is not a letter or digit. */
  lemma KeywordBoundary()
    ensures TokenIdent("null", "nullable") == 0
    ensures TokenIdent("null", "null1") == 0
    ensures TokenIdent("null", "null_") == 4
    ensures TokenIdent("null", "null,") == 4
    ensures TokenIdent("null", "null") == 4
    ensures TokenIdent("true", "tru") == 0
  {
    assert !IsLetterOrDigit('_');
    assert "null" <= "null_" && "null" <= "null,";
    assert !("true" <= "tru");
  }

  // ---------------------------------------------------------------------
  // Numbers
  // ---------------------------------------------------------------------

  /** Number of characters taken by an optional leading `+` or `-`. */
  function SignLength(input: string): (s: nat)
    ensures s <= 1 && s <= |input|
    ensures s == 1 <==> |input| > 0 && (input[0] == '+' || input[0] == '-')
  {
    if |input| > 0 && (input[0] == '+' || input[0] == '-') then 1 else 0
  }

  /** input[s..n] is `digits* ( '.' digits* )?`: every character is a digit
      or a dot, and only digits follow a dot. */
  ghost predicate NumberBody(input: string, s: nat, n: nat)
    requires s <= n <= |input|
  {
    && (forall i :: s <= i < n ==> IsDigit(input[i]) || input[i] == '.')
    && (forall i, j :: s <= i < j < n && input[i] == '.' ==> IsDigit(input[j]))
  }

  /** The match cannot be extended: the next character is not a digit, and
      if no dot was taken it is not a dot either. */
  ghost predicate NumberMaximal(input: string, s: nat, n: nat)
    requires s <= n <= |input|
  {
    n < |input| ==>
      && !IsDigit(input[n])
      && ((forall i :: s <= i < n ==> input[i] != '.') ==> input[n] != '.')
  }

  /** What `tokenNumber` accepts: n is 0 exactly when the character after the
      optional sign is neither a digit nor a dot (or there is none), and a
      non-zero n is a maximal "sign? digits* ('.' digits*)?" prefix that takes
      at least one character beyond the sign. */
  ghost predicate NumberMatch(input: string, n: nat) {
    var s := SignLength(input);
    && n <= |input|
    && (n == 0 <==> (s == |input| || (!IsDigit(input[s]) && input[s] != '.')))
    && (n != 0 ==> s < n && NumberBody(input, s, n) && NumberMaximal(input, s, n))
  }

  /** `tokenNumber`. The Kotlin code reads `it[0]` without a guard, so the
      input must not be empty. */
  method TokenNumber(input: string) returns (n: nat)
    requires |input| > 0
    ensures NumberMatch(input, n)
    ensures n == 0 || 1 <= n <= |input|
  {
    var index := 0;
    var maybeSign := input[index];
    var sign := maybeSign == '+' || maybeSign == '-';
    if sign {
      index := index + 1;
    }
    ghost var s := index;
    assert s == SignLength(input);
    var length := |input|;
    while index < length && IsDigit(input[index])
      invariant s <= index <= length
      invariant forall i :: s <= i < index ==> IsDigit(input[i])
    {
      index := index + 1;
    }
    ghost var intEnd := index;
    if index < length && input[index] == '.' {
      index := index + 1;
      while index < length && IsDigit(input[index])
        invariant intEnd < index <= length
        invariant forall i :: intEnd < i < index ==> IsDigit(input[i])
      {
        index := index + 1;
      }
    }
    if index == 0 || (index == 1 && sign) {
      return 0;
    }
    n := index;
  }

  /** NumberMatch determines the length: `tokenNumber` has one answer. */
  lemma NumberMatchUnique(input: string, a: nat, b: nat)
    requires NumberMatch(input, a) && NumberMatch(input, b)
    ensures a == b
  {
    NumberMatchBelow(input, a, b);
    NumberMatchBelow(input, b, a);
  }

  /** No match is a proper prefix of another. */
  lemma NumberMatchBelow(input: string, a: nat, b: nat)
    ensures NumberMatch(input, a) && a < b ==> !NumberMatch(input, b)
  {
  }

  /** The edge cases of `tokenNumber`: "." and "1." are numbers, "-." takes
      two characters, a bare sign is rejected, and a second dot ends the match. */
  lemma NumberEdgeCases(dot: nat, oneDot: nat, minusDot: nat, plus: nat, twoDots: nat)
    requires NumberMatch(".", dot)
    requires NumberMatch("1.", oneDot)
    requires NumberMatch("-.", minusDot)
    requires NumberMatch("+", plus)
    requires NumberMatch("1.2.3", twoDots)
    ensures dot == 1 && oneDot == 2 && minusDot == 2 && plus == 0 && twoDots == 3
  {
    assert NumberMatch(".", 1) by {
      assert NumberBody(".", 0, 1) && NumberMaximal(".", 0, 1);
    }
    NumberMatchUnique(".", dot, 1);
    assert NumberMatch("1.", 2) by {
      assert NumberBody("1.", 0, 2) && NumberMaximal("1.", 0, 2);
    }
    NumberMatchUnique("1.", oneDot, 2);
    assert NumberMatch("-.", 2) by {
      assert NumberBody("-.", 1, 2) && NumberMaximal("-.", 1, 2);
    }
    NumberMatchUnique("-.", minusDot, 2);
    assert NumberMatch("1.2.3", 3) by {
      var w := "1.2.3";
      assert w[0] == '1' && w[1] == '.' && w[2] == '2' && w[3] == '.';
      assert NumberBody(w, 0, 3);
      assert NumberMaximal(w, 0, 3);
    }
    NumberMatchUnique("1.2.3", twoDots, 3);
  }

  // ---------------------------------------------------------------------
  // Whitespace
  // ---------------------------------------------------------------------

  /** `whiteSpace`: the length of the longest all-whitespace prefix. */
  method WhiteSpace(input: string) returns (n: nat)
    ensures n <= |input|
    ensures forall i :: 0 <= i < n ==> IsWhitespace(input[i])
    ensures n < |input| ==> !IsWhitespace(input[n])
  {
    var index := 0;
    var length := |input|;
    while index < length && IsWhitespace(input[index])
      invariant index <= length
      invariant forall i :: 0 <= i < index ==> IsWhitespace(input[i])
    {
      index := index + 1;
    }
    n := index;
  }

  // ---------------------------------------------------------------------
  // String literals
  // ---------------------------------------------------------------------

  /** A character that stands for itself inside a literal. */
  predicate Plain(c: char) {
    c != '"' && c != '\\'
  }

  /** The raw text between the quotes of a literal, as the scanner walks it:
      a sequence of units, each either a plain character or a backslash
      followed by ANY character. There is no check of the escape set. */
  predicate IsRawBody(w: string) {
    if |w| == 0 then true
    else if Plain(w[0]) then IsRawBody(w[1..])
    else w[0] == '\\' && |w| >= 2 && IsRawBody(w[2..])
  }

  /** The literal is closed by an unescaped quote at position r - 1. */
  predicate ClosedAt(input: string, r: nat) {
    2 <= r <= |input| && input[0] == '"' && input[r - 1] == '"' && IsRawBody(input[1..r - 1])
  }

  /** The scan meets a backslash at the very last position of the input. */
  predicate TrailingEscape(input: string) {
    2 <= |input| && input[0] == '"' && input[|input| - 1] == '\\' && IsRawBody(input[1..|input| - 1])
  }

  /** The literal runs to the end of the input without a closing quote. */
  predicate Unclosed(input: string) {
    1 <= |input| && input[0] == '"' && IsRawBody(input[1..])
  }

  /** What `stringLiteral` returns: 0 if the input does not start with a
      quote or the scan reaches the end exactly; one past the closing quote
      if it finds one; and two past the end of the input if the last
      character is an escaping backslash. */
  ghost predicate StringMatch(input: string, r: nat) {
    if |input| == 0 || input[0] != '"' then r == 0
    else
      || (r == 0 && Unclosed(input))
      || ClosedAt(input, r)
      || (r == |input| + 2 && TrailingEscape(input))
  }

  /** The scanning loop of `stringLiteral`: from just past the opening quote,
      step over plain characters and over a backslash with the character
      after it, until a quote or the end. The index can land one past the
      end, when the last character is an escaping backslash. */
  method ScanToQuote(input: string) returns (index: nat)
    requires |input| > 0 && input[0] == '"'
    ensures 1 <= index <= |input| + 1
    ensures index <= |input| ==> IsRawBody(input[1..index])
    ensures index == |input| + 1 ==> TrailingEscape(input)
    ensures index < |input| ==> input[index] == '"'
  {
    index := 1;
    var length := |input|;
    while index < length && input[index] != '"'
      invariant 1 <= index <= length + 1
      invariant index <= length ==> IsRawBody(input[1..index])
      invariant index == length + 1 ==> TrailingEscape(input)
    {
      if input[index] == '\\' {
        if index + 1 < length {
          ScanEscapeAt(input, index);
        }
        index := index + 1;
      } else {
        ScanPlainAt(input, index);
      }
      index := index + 1;
    }
  }

  lemma ScanPlainAt(input: string, index: nat)
    requires 1 <= index < |input| && IsRawBody(input[1..index])
    requires input[index] != '"' && input[index] != '\\'
    ensures IsRawBody(input[1..index + 1])
  {
    assert input[1..index + 1] == input[1..index] + [input[index]];
    ScanPlain(input[1..index], input[index]);
  }

  lemma ScanEscapeAt(input: string, index: nat)
    requires 1 <= index && index + 1 < |input| && IsRawBody(input[1..index])
    requires input[index] == '\\'
    ensures IsRawBody(input[1..index + 2])
  {
    assert input[1..index + 2] == input[1..index] + ['\\', input[index + 1]];
    ScanEscape(input[1..index], input[index + 1]);
  }

  /** `stringLiteral`, as written. `it[index++]` is read without a guard, so
      the input must not be empty. */
  method StringLiteral(input: string) returns (r: nat)
    requires |input| > 0
    ensures StringMatch(input, r)
    ensures input[0] != '"' ==> r == 0
    ensures TrailingEscape(input) ==> r == |input| + 2
    ensures !TrailingEscape(input) ==> r <= |input|
  {
    var first := input[0];
    if first != '"' {
      return 0;
    }
    var length := |input|;
    var index := ScanToQuote(input);
    if index == length {
      assert input[1..index] == input[1..];
      UnclosedNotTrailing(input);
      return 0;
    }
    if index < length {
      ClosedNotTrailing(input, index + 1);
    }
    r := index + 1;
  }

  /** `stringLiteral` with the end-of-input test written as `index >= length`,
      so that a trailing backslash also reads as an unclosed literal. */
  method StringLiteralChecked(input: string) returns (r: nat)
    requires |input| > 0
    ensures r <= |input|
    ensures r == 0 || ClosedAt(input, r)
    ensures r == 0 <==> input[0] != '"' || Unclosed(input) || TrailingEscape(input)
  {
    var first := input[0];
    if first != '"' {
      return 0;
    }
    var length := |input|;
    var index := ScanToQuote(input);
    if index >= length {
      if index == length {
        assert input[1..index] == input[1..];
      }
      return 0;
    }
    ClosedNotUnclosed(input, index + 1);
    ClosedNotTrailing(input, index + 1);
    r := index + 1;
  }

  /** A literal whose last character is an escaping backslash: the as-written
      recognizer claims 4 characters of a 2-character input. */
  lemma TrailingEscapeOverrun(r: nat)
    requires StringMatch(['"', '\\'], r)
    ensures r == 4 && r > |['"', '\\']|
  {
    var input := ['"', '\\'];
    assert !IsRawBody(input[1..]);
    assert TrailingEscape(input) by {
      assert input[1..|input| - 1] == [];
    }
  }

  /** Any character may follow a backslash: `\q` is accepted, and `\"` does
      not close the literal. */
  lemma UnknownEscapeAccepted(r: nat, q: nat)
    requires StringMatch(['"', '\\', 'q', '"'], r)
    requires StringMatch(['"', '\\', '"', '"'], q)
    ensures r == 4 && q == 4
  {
    var a := ['"', '\\', 'q', '"'];
    assert a[1..3] == ['\\', 'q'] && IsRawBody(a[1..3][2..]);
    assert ClosedAt(a, 4);
    StringMatchUnique(a, r, 4);
    var b := ['"', '\\', '"', '"'];
    assert b[1..3] == ['\\', '"'] && IsRawBody(b[1..3][2..]);
    assert ClosedAt(b, 4);
    StringMatchUnique(b, q, 4);
  }

  /** StringMatch determines the answer: `stringLiteral` has one result. */
  lemma StringMatchUnique(input: string, a: nat, b: nat)
    requires StringMatch(input, a) && StringMatch(input, b)
    ensures a == b
  {
    ClosedBeforeClosed(input, a, b);
    ClosedBeforeClosed(input, b, a);
    ClosedNotUnclosed(input, a);
    ClosedNotUnclosed(input, b);
    ClosedNotTrailing(input, a);
    ClosedNotTrailing(input, b);
    UnclosedNotTrailing(input);
  }

  /** The first closing quote is the only one. */
  lemma ClosedBeforeClosed(input: string, a: nat, b: nat)
    ensures ClosedAt(input, a) && a < b ==> !ClosedAt(input, b)
  {
    if ClosedAt(input, a) && a < b <= |input| {
      var p := input[1..a - 1];
      assert input[1..b - 1] == p + ['"'] + input[a..b - 1];
      NoUnescapedQuote(p, input[a..b - 1]);
    }
  }

  lemma ClosedNotUnclosed(input: string, a: nat)
    ensures ClosedAt(input, a) ==> !Unclosed(input)
  {
    if ClosedAt(input, a) {
      var p := input[1..a - 1];
      assert input[1..] == p + ['"'] + input[a..];
      NoUnescapedQuote(p, input[a..]);
    }
  }

  lemma ClosedNotTrailing(input: string, a: nat)
    ensures ClosedAt(input, a) ==> !TrailingEscape(input)
  {
    if ClosedAt(input, a) && a < |input| {
      var p := input[1..a - 1];
      assert input[1..|input| - 1] == p + ['"'] + input[a..|input| - 1];
      NoUnescapedQuote(p, input[a..|input| - 1]);
    }
  }

  lemma UnclosedNotTrailing(input: string)
    ensures Unclosed(input) ==> !TrailingEscape(input)
  {
    if 2 <= |input| {
      var p := input[1..|input| - 1];
      assert input[1..] == p + [input[|input| - 1]];
      NoDanglingBackslash(p);
    }
  }

  /** The recognizers never compete: at any position at most one of the
      three keywords, a number, a string literal, whitespace and the
      one-character tokens `, : { } [ ]` can match, so the order in which the
      lexer tries them does not change the token found. */
  lemma RecognizersDisjoint(input: string, num: nat, str: nat)
    requires |input| > 0 && NumberMatch(input, num) && StringMatch(input, str)
    ensures str != 0 ==> num == 0
    ensures num != 0 || str != 0 ==> NoKeyword(input)
    ensures IsWhitespace(input[0]) ==> (num == 0 && str == 0 && NoKeyword(input))
    ensures TokenIdent("null", input) == 0 || TokenIdent("true", input) == 0
    ensures TokenIdent("false", input) == 0 || (TokenIdent("null", input) == 0 && TokenIdent("true", input) == 0)
    ensures Punctuation(input[0]) ==> num == 0 && str == 0 && NoKeyword(input) && !IsWhitespace(input[0])
  {
  }

  /** The first characters of the `tokenText` tokens: `,` `:` `{` `}` `[` `]`. */
  predicate Punctuation(c: char) {
    c == ',' || c == ':' || c == '{' || c == '}' || c == '[' || c == ']'
  }

  predicate NoKeyword(input: string) {
    TokenIdent("null", input) == 0 && TokenIdent("true", input) == 0 && TokenIdent("false", input) == 0
  }

  // Facts about raw bodies.

  /** A raw body cannot continue past a bare quote. */
  lemma {:induction false} NoUnescapedQuote(p: string, z: string)
    ensures IsRawBody(p) ==> !IsRawBody(p + ['"'] + z)
    decreases |p|
  {
    var w := p + ['"'] + z;
    if !IsRawBody(p) {
    } else if |p| == 0 {
      assert w[0] == '"';
    } else if Plain(p[0]) {
      assert w[0] == p[0] && w[1..] == p[1..] + ['"'] + z;
      NoUnescapedQuote(p[1..], z);
    } else {
      assert |p| >= 2;
      assert w[0] == '\\' && w[2..] == p[2..] + ['"'] + z;
      NoUnescapedQuote(p[2..], z);
    }
  }

  /** A raw body followed by a lone backslash is not a raw body. */
  lemma {:induction false} NoDanglingBackslash(p: string)
    ensures IsRawBody(p) ==> !IsRawBody(p + ['\\'])
    decreases |p|
  {
    var w := p + ['\\'];
    if !IsRawBody(p) {
    } else if |p| == 0 {
      assert w == ['\\'];
    } else if Plain(p[0]) {
      assert w[1..] == p[1..] + ['\\'];
      NoDanglingBackslash(p[1..]);
    } else {
      assert w[2..] == p[2..] + ['\\'];
      NoDanglingBackslash(p[2..]);
    }
  }

  /** One step of the scan over a plain character. */
  lemma {:induction false} ScanPlain(p: string, c: char)
    requires IsRawBody(p) && c != '"'
    ensures c != '\\' ==> IsRawBody(p + [c])
    decreases |p|
  {
    if c != '\\' && |p| > 0 {
      var w := p + [c];
      if Plain(p[0]) {
        assert w[1..] == p[1..] + [c];
        ScanPlain(p[1..], c);
      } else {
        assert w[2..] == p[2..] + [c];
        ScanPlain(p[2..], c);
      }
    }
  }

  /** One step of the scan over a backslash and the character after it. */
  lemma {:induction false} ScanEscape(p: string, x: char)
    requires IsRawBody(p)
    ensures IsRawBody(p + ['\\', x])
    decreases |p|
  {
    var w := p + ['\\', x];
    if |p| == 0 {
      assert w[2..] == [];
    } else if Plain(p[0]) {
      assert w[1..] == p[1..] + ['\\', x];
      ScanEscape(p[1..], x);
    } else {
      assert w[2..] == p[2..] + ['\\', x];
      ScanEscape(p[2..], x);
    }
  }
}
