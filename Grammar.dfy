/** The value grammar of `SimpleJsonGrammar`, as recursive descent over the
    token sequence the lexer produces (whitespace already skipped).

      rootParser      = primitive | object | array
      primitive       = null | true | false | string | number
      object          = '{' separated(string ':' value, ',', acceptZero) '}'
      array           = '[' separated(value, ',', acceptZero) ']'

    The combinators come from the better-parse library, whose code is not
    part of this model. Their semantics are assumed as follows: `or` is
    ordered choice; `*` is sequence; unary `-` parses and drops its result;
    `separated(term, sep, true)` parses `term (sep term)*`, admits zero terms,
    and ends the repetition before a separator whose following term fails. */
module Grammar {
  import opened JsonValue
  import Recognizers

  /** The matched text of a string literal token: at least two characters,
      a quote at each end, as the literal recognizer guarantees. */
  type QuotedText = s: string | 2 <= |s| && s[0] == '"' && s[|s| - 1] == '"' witness ['"', '"']

  datatype Token =
    | NullTok | TrueTok | FalseTok
    | NumTok(text: string)
    | StrTok(quoted: QuotedText)
    | LBrace | RBrace | LBracket | RBracket | Comma | Colon

  /** Outcome of one parser: a value and the tokens left, or no match. */
  datatype ParseResult<T> = Parsed(value: T, rest: seq<Token>) | NoParse

  predicate IsSuffix(rest: seq<Token>, ts: seq<Token>) {
    |rest| <= |ts| && rest == ts[|ts| - |rest|..]
  }

  lemma SuffixTrans(a: seq<Token>, b: seq<Token>, c: seq<Token>)
    requires IsSuffix(a, b) && IsSuffix(b, c)
    ensures IsSuffix(a, c)
  {
    assert c[|c| - |b|..][|b| - |a|..] == c[|c| - |a|..];
  }

  lemma TailSuffix(ts: seq<Token>)
    requires |ts| > 0
    ensures IsSuffix(ts[1..], ts)
  {
  }

  lemma ConsWellFormed(v: Json, vs: seq<Json>)
    requires WellFormed(v)
    requires forall i :: 0 <= i < |vs| ==> WellFormed(vs[i])
    ensures forall i :: 0 <= i < |[v] + vs| ==> WellFormed(([v] + vs)[i])
  {
  }

  lemma ConsFieldWellFormed(f: Field, fs: seq<Field>)
    requires WellFormed(f.value)
    requires forall i :: 0 <= i < |fs| ==> WellFormed(fs[i].value)
    ensures forall i :: 0 <= i < |[f] + fs| ==> WellFormed(([f] + fs)[i].value)
  {
  }

  /** `input.substring(offset + 1, offset + length - 1)`: the token text
      without its first and last character. */
  function Unquote(text: QuotedText): string {
    text[1..|text| - 1]
  }

  /** `jsonNull or jsonBool or string or number`. */
  function ParsePrimitive(ts: seq<Token>): (r: ParseResult<Json>)
    ensures r.Parsed? ==> |ts| > 0 && r.rest == ts[1..] && WellFormed(r.value)
    ensures r.Parsed? <==> |ts| > 0 && (ts[0].NullTok? || ts[0].TrueTok? || ts[0].FalseTok?
                                         || ts[0].StrTok? || ts[0].NumTok?)
  {
    if |ts| == 0 then NoParse
    else match ts[0]
      case NullTok => Parsed(JNull, ts[1..])
      case TrueTok => Parsed(JBool(true), ts[1..])
      case FalseTok => Parsed(JBool(false), ts[1..])
      case StrTok(text) => Parsed(JString(Unquote(text)), ts[1..])
      case NumTok(text) => Parsed(JNumber(text), ts[1..])
      case _ => NoParse
  }

  /** `rootParser`: primitive, else object, else array. A success consumes a
      non-empty prefix and yields a value whose objects have distinct keys. */
  function ParseValue(ts: seq<Token>): (r: ParseResult<Json>)
    ensures r.Parsed? ==> |r.rest| < |ts| && IsSuffix(r.rest, ts) && WellFormed(r.value)
    decreases |ts|, 2
  {
    var p := ParsePrimitive(ts);
    if p.Parsed? then p
    else
      var o := ParseObject(ts);
      if o.Parsed? then o else ParseArray(ts)
  }

  /** `jsonArray`: '[' separated(value, ',', true) ']', mapped to its terms. */
  function ParseArray(ts: seq<Token>): (r: ParseResult<Json>)
    ensures r.Parsed? ==> r.value.JArray? && |r.rest| < |ts| && IsSuffix(r.rest, ts) && WellFormed(r.value)
    decreases |ts|, 1
  {
    if |ts| == 0 || ts[0] != LBracket then NoParse
    else
      var (items, rest) := ParseValues(ts[1..]);
      if |rest| > 0 && rest[0] == RBracket then Parsed(JArray(items), rest[1..]) else NoParse
  }

  /** `separated(this, comma, true)`: never fails; zero terms when the first
      value does not parse. */
  function ParseValues(ts: seq<Token>): (r: (seq<Json>, seq<Token>))
    ensures IsSuffix(r.1, ts)
    ensures forall i :: 0 <= i < |r.0| ==> WellFormed(r.0[i])
    decreases |ts|, 3
  {
    var first := ParseValue(ts);
    if first.NoParse? then ([], ts)
    else
      var more := ParseMoreValues(first.rest);
      SuffixTrans(more.1, first.rest, ts);
      ConsWellFormed(first.value, more.0);
      ([first.value] + more.0, more.1)
  }

  /** The `(',' value)*` part: stops before a comma not followed by a value. */
  function ParseMoreValues(ts: seq<Token>): (r: (seq<Json>, seq<Token>))
    ensures IsSuffix(r.1, ts)
    ensures forall i :: 0 <= i < |r.0| ==> WellFormed(r.0[i])
    decreases |ts|, 3
  {
    if |ts| == 0 || ts[0] != Comma then ([], ts)
    else
      var next := ParseValue(ts[1..]);
      if next.NoParse? then ([], ts)
      else
        var more := ParseMoreValues(next.rest);
        TailSuffix(ts);
        SuffixTrans(next.rest, ts[1..], ts);
        SuffixTrans(more.1, next.rest, ts);
        ConsWellFormed(next.value, more.0);
        ([next.value] + more.0, more.1)
  }

  /** `jsonObject`: '{' separated(string ':' value, ',', true) '}', the
      entries then put into a fresh map left to right. */
  function ParseObject(ts: seq<Token>): (r: ParseResult<Json>)
    ensures r.Parsed? ==> r.value.JObject? && |r.rest| < |ts| && IsSuffix(r.rest, ts) && WellFormed(r.value)
    decreases |ts|, 1
  {
    if |ts| == 0 || ts[0] != LBrace then NoParse
    else
      var (entries, rest) := ParseMembers(ts[1..]);
      if |rest| > 0 && rest[0] == RBrace then
        BuildObjectWellFormed(entries);
        Parsed(JObject(BuildObject(entries)), rest[1..])
      else NoParse
  }

  /** `string * -colon * this`: one object entry. */
  function ParseMember(ts: seq<Token>): (r: ParseResult<Field>)
    ensures r.Parsed? ==> |r.rest| < |ts| && IsSuffix(r.rest, ts) && WellFormed(r.value.value)
    decreases |ts|, 3
  {
    if |ts| < 2 || !ts[0].StrTok? || ts[1] != Colon then NoParse
    else
      var v := ParseValue(ts[2..]);
      if v.NoParse? then NoParse else Parsed(Field(Unquote(ts[0].quoted), v.value), v.rest)
  }

  /** `separated(string * -colon * this, comma, true)`. */
  function ParseMembers(ts: seq<Token>): (r: (seq<Field>, seq<Token>))
    ensures IsSuffix(r.1, ts)
    ensures forall i :: 0 <= i < |r.0| ==> WellFormed(r.0[i].value)
    decreases |ts|, 4
  {
    var first := ParseMember(ts);
    if first.NoParse? then ([], ts)
    else
      var more := ParseMoreMembers(first.rest);
      SuffixTrans(more.1, first.rest, ts);
      ConsFieldWellFormed(first.value, more.0);
      ([first.value] + more.0, more.1)
  }

  function ParseMoreMembers(ts: seq<Token>): (r: (seq<Field>, seq<Token>))
    ensures IsSuffix(r.1, ts)
    ensures forall i :: 0 <= i < |r.0| ==> WellFormed(r.0[i].value)
    decreases |ts|, 4
  {
    if |ts| == 0 || ts[0] != Comma then ([], ts)
    else
      var next := ParseMember(ts[1..]);
      if next.NoParse? then ([], ts)
      else
        var more := ParseMoreMembers(next.rest);
        TailSuffix(ts);
        SuffixTrans(next.rest, ts[1..], ts);
        SuffixTrans(more.1, next.rest, ts);
        ConsFieldWellFormed(next.value, more.0);
        ([next.value] + more.0, more.1)
  }

  datatype ParseError = NoValue | TrailingTokens(count: nat)

  datatype Outcome = Success(value: Json) | Failure(error: ParseError)

  /** `parseToEnd` with `rootParser`: a value that uses up every token. */
  function ParseToEnd(ts: seq<Token>): (r: Outcome)
    ensures r.Success? <==> ParseValue(ts).Parsed? && ParseValue(ts).rest == []
    ensures r.Success? ==> WellFormed(r.value)
  {
    match ParseValue(ts)
    case NoParse => Failure(NoValue)
    case Parsed(v, rest) => if rest == [] then Success(v) else Failure(TrailingTokens(|rest|))
  }

  // ---------------------------------------------------------------------
  // Serialization back to tokens, and the round trip
  // ---------------------------------------------------------------------

  function Quote(s: string): (q: QuotedText)
    ensures Unquote(q) == s
  {
    ['"'] + s + ['"']
  }

  /** The token sequence of a value, in canonical order. */
  function Serialize(v: Json): seq<Token>
    decreases v, 1
  {
    match v
    case JNull => [NullTok]
    case JBool(b) => [if b then TrueTok else FalseTok]
    case JNumber(text) => [NumTok(text)]
    case JString(s) => [StrTok(Quote(s))]
    case JArray(items) => [LBracket] + SerializeValues(items) + [RBracket]
    case JObject(fields) => [LBrace] + SerializeMembers(fields) + [RBrace]
  }

  function SerializeValues(items: seq<Json>): seq<Token>
    decreases items, 0
  {
    if |items| == 0 then [] else Serialize(items[0]) + SerializeMoreValues(items[1..])
  }

  function SerializeMoreValues(items: seq<Json>): seq<Token>
    decreases items, 0
  {
    if |items| == 0 then [] else [Comma] + Serialize(items[0]) + SerializeMoreValues(items[1..])
  }

  function SerializeMember(f: Field): seq<Token>
    decreases f, 0
  {
    [StrTok(Quote(f.key)), Colon] + Serialize(f.value)
  }

  function SerializeMembers(fields: seq<Field>): seq<Token>
    decreases fields, 0
  {
    if |fields| == 0 then [] else SerializeMember(fields[0]) + SerializeMoreMembers(fields[1..])
  }

  function SerializeMoreMembers(fields: seq<Field>): seq<Token>
    decreases fields, 0
  {
    if |fields| == 0 then [] else [Comma] + SerializeMember(fields[0]) + SerializeMoreMembers(fields[1..])
  }

  /** A token that closes a container; no value starts with one. */
  predicate Closer(t: Token) {
    t == RBracket || t == RBrace
  }

  /** Tokens that end a separated list: none at all, a closer, or a comma
      followed by a closer or by nothing. */
  predicate EndsList(rest: seq<Token>) {
    |rest| == 0 || Closer(rest[0]) || (rest[0] == Comma && (|rest| == 1 || Closer(rest[1])))
  }

  /** Which alternative of `rootParser` applies is fixed by the first token. */
  lemma ValueDispatch(ts: seq<Token>)
    requires |ts| > 0
    ensures ts[0] == LBracket ==> ParseValue(ts) == ParseArray(ts)
    ensures ts[0] == LBrace ==> ParseValue(ts) == ParseObject(ts)
    ensures Closer(ts[0]) || ts[0] == Comma ==> ParseValue(ts).NoParse? && ParseMember(ts).NoParse?
  {
    if Closer(ts[0]) || ts[0] == Comma {
      NoValueAtSeparator(ts);
    }
  }

  /** No value and no entry starts with a closer or a comma. */
  lemma NoValueAtSeparator(ts: seq<Token>)
    requires |ts| > 0 && (Closer(ts[0]) || ts[0] == Comma)
    ensures ParseValue(ts).NoParse? && ParseMember(ts).NoParse?
  {
    assert ParsePrimitive(ts).NoParse?;
    assert ParseObject(ts).NoParse?;
    assert ParseArray(ts).NoParse?;
  }

  /** Parsing the tokens of any value gives back its canonical form, in
      which every object keeps the last value of a repeated key, and leaves
      whatever follows untouched. */
  lemma {:induction false} ValueRoundTrip(v: Json, rest: seq<Token>)
    ensures ParseValue(Serialize(v) + rest) == Parsed(Canon(v), rest)
    decreases v, 2
  {
    match v
    case JArray(items) => ArrayRoundTrip(items, rest);
    case JObject(fields) => ObjectRoundTrip(fields, rest);
    case _ => assert (Serialize(v) + rest)[1..] == rest;
  }

  lemma {:induction false} ArrayRoundTrip(items: seq<Json>, rest: seq<Token>)
    ensures ParseValue(Serialize(JArray(items)) + rest) == Parsed(JArray(CanonItems(items)), rest)
    decreases items, 1
  {
    ValuesRoundTrip(items, [RBracket] + rest);
    ArrayStep(SerializeValues(items), CanonItems(items), rest);
  }

  /** The tokens of any sequence of entries, duplicates included, parse to
      the object that putting them into a fresh map left to right builds. */
  lemma {:induction false} ObjectRoundTrip(fields: seq<Field>, rest: seq<Token>)
    ensures ParseValue(Serialize(JObject(fields)) + rest) == Parsed(JObject(BuildObject(CanonFields(fields))), rest)
    decreases fields, 2
  {
    MembersRoundTrip(fields, [RBrace] + rest);
    ObjectStep(SerializeMembers(fields), CanonFields(fields), rest);
  }

  /** A bracket, a list of terms and the matching closer make one value. */
  lemma ArrayStep(body: seq<Token>, items: seq<Json>, rest: seq<Token>)
    requires ParseValues(body + ([RBracket] + rest)) == (items, [RBracket] + rest)
    ensures ParseValue([LBracket] + body + [RBracket] + rest) == Parsed(JArray(items), rest)
  {
    var ts := [LBracket] + body + [RBracket] + rest;
    Regroup([LBracket], body, [RBracket], rest);
    assert ([RBracket] + rest)[1..] == rest;
    ValueDispatch(ts);
  }

  lemma ObjectStep(body: seq<Token>, entries: seq<Field>, rest: seq<Token>)
    requires ParseMembers(body + ([RBrace] + rest)) == (entries, [RBrace] + rest)
    ensures ParseValue([LBrace] + body + [RBrace] + rest) == Parsed(JObject(BuildObject(entries)), rest)
  {
    var ts := [LBrace] + body + [RBrace] + rest;
    Regroup([LBrace], body, [RBrace], rest);
    assert ([RBrace] + rest)[1..] == rest;
    ValueDispatch(ts);
  }

  /** One round of the `(',' term)*` loops when the term after the comma parses. */
  lemma MoreValuesStep(ts: seq<Token>, v: Json, tail: seq<Token>)
    requires |ts| > 0 && ts[0] == Comma && ParseValue(ts[1..]) == Parsed(v, tail)
    ensures ParseMoreValues(ts) == ([v] + ParseMoreValues(tail).0, ParseMoreValues(tail).1)
  {
  }

  lemma MoreMembersStep(ts: seq<Token>, f: Field, tail: seq<Token>)
    requires |ts| > 0 && ts[0] == Comma && ParseMember(ts[1..]) == Parsed(f, tail)
    ensures ParseMoreMembers(ts) == ([f] + ParseMoreMembers(tail).0, ParseMoreMembers(tail).1)
  {
  }

  lemma MembersStep(ts: seq<Token>, f: Field, tail: seq<Token>)
    requires ParseMember(ts) == Parsed(f, tail)
    ensures ParseMembers(ts) == ([f] + ParseMoreMembers(tail).0, ParseMoreMembers(tail).1)
  {
  }

  /** No value and no entry is read from no tokens at all. */
  lemma NoValueAtEmpty()
    ensures ParseValue([]).NoParse? && ParseMember([]).NoParse?
  {
    assert ParsePrimitive([]).NoParse?;
    assert ParseObject([]).NoParse?;
  }

  /** No term is taken after a comma that ends a list. */
  lemma NoValueAfterComma(rest: seq<Token>)
    requires |rest| > 0 && rest[0] == Comma && (|rest| == 1 || Closer(rest[1]))
    ensures ParseValue(rest[1..]).NoParse? && ParseMember(rest[1..]).NoParse?
  {
    if |rest| == 1 {
      assert rest[1..] == [];
      NoValueAtEmpty();
    } else {
      NoValueAtSeparator(rest[1..]);
    }
  }

  /** A list takes no term when its first term does not parse, and its
      tail takes none when no comma with a term after it comes next. */
  lemma ValuesNone(ts: seq<Token>)
    requires ParseValue(ts).NoParse?
    ensures ParseValues(ts) == ([], ts)
  {
  }

  lemma MoreValuesNone(ts: seq<Token>)
    requires |ts| == 0 || ts[0] != Comma || ParseValue(ts[1..]).NoParse?
    ensures ParseMoreValues(ts) == ([], ts)
  {
  }

  lemma MembersNone(ts: seq<Token>)
    requires ParseMember(ts).NoParse?
    ensures ParseMembers(ts) == ([], ts)
  {
  }

  lemma MoreMembersNone(ts: seq<Token>)
    requires |ts| == 0 || ts[0] != Comma || ParseMember(ts[1..]).NoParse?
    ensures ParseMoreMembers(ts) == ([], ts)
  {
  }

  /** At the end of a list no further term is taken. */
  lemma ValuesAtEnd(rest: seq<Token>)
    requires EndsList(rest)
    ensures ParseValues(rest) == ([], rest)
    ensures ParseMoreValues(rest) == ([], rest)
  {
    if |rest| == 0 {
      NoValueAtEmpty();
    } else {
      NoValueAtSeparator(rest);
      if rest[0] == Comma {
        NoValueAfterComma(rest);
      }
    }
    ValuesNone(rest);
    MoreValuesNone(rest);
  }

  lemma MembersAtEnd(rest: seq<Token>)
    requires EndsList(rest)
    ensures ParseMembers(rest) == ([], rest)
    ensures ParseMoreMembers(rest) == ([], rest)
  {
    if |rest| == 0 {
      NoValueAtEmpty();
    } else {
      NoValueAtSeparator(rest);
      if rest[0] == Comma {
        NoValueAfterComma(rest);
      }
    }
    MembersNone(rest);
    MoreMembersNone(rest);
  }

  /** The tokens of a non-empty `(',' value)*` tail: a comma, the first
      value, then the tail of the rest. */
  lemma MoreValuesSplit(items: seq<Json>, rest: seq<Token>)
    requires |items| > 0
    ensures var ts := SerializeMoreValues(items) + rest;
      ts[0] == Comma && ts[1..] == Serialize(items[0]) + (SerializeMoreValues(items[1..]) + rest)
  {
    var a, b := Serialize(items[0]), SerializeMoreValues(items[1..]);
    assert SerializeMoreValues(items) == [Comma] + a + b;
    Regroup([Comma], a, b, rest);
  }

  lemma MoreMembersSplit(fields: seq<Field>, rest: seq<Token>)
    requires |fields| > 0
    ensures var ts := SerializeMoreMembers(fields) + rest;
      ts[0] == Comma && ts[1..] == SerializeMember(fields[0]) + (SerializeMoreMembers(fields[1..]) + rest)
  {
    var a, b := SerializeMember(fields[0]), SerializeMoreMembers(fields[1..]);
    assert SerializeMoreMembers(fields) == [Comma] + a + b;
    Regroup([Comma], a, b, rest);
  }

  /** Regrouping a concatenation of four parts, and what lies past the first. */
  lemma Regroup<T>(c: seq<T>, a: seq<T>, b: seq<T>, r: seq<T>)
    requires |c| == 1
    ensures (c + a + b + r)[0] == c[0]
    ensures (c + a + b + r)[1..] == a + (b + r)
  {
    assert c + a + b + r == c + (a + (b + r));
  }

  lemma {:induction false} ValuesRoundTrip(items: seq<Json>, rest: seq<Token>)
    requires EndsList(rest)
    ensures ParseValues(SerializeValues(items) + rest) == (CanonItems(items), rest)
    decreases items, 0
  {
    if |items| == 0 {
      ValuesAtEnd(rest);
      assert SerializeValues(items) + rest == rest;
    } else {
      var tail := SerializeMoreValues(items[1..]) + rest;
      assert SerializeValues(items) + rest == Serialize(items[0]) + tail;
      ValueRoundTrip(items[0], tail);
      MoreValuesRoundTrip(items[1..], rest);
    }
  }

  lemma {:induction false} MoreValuesRoundTrip(items: seq<Json>, rest: seq<Token>)
    requires EndsList(rest)
    ensures ParseMoreValues(SerializeMoreValues(items) + rest) == (CanonItems(items), rest)
    decreases items, 0
  {
    if |items| == 0 {
      assert items == [] && SerializeMoreValues(items) + rest == rest;
      ValuesAtEnd(rest);
    } else {
      ValueRoundTrip(items[0], SerializeMoreValues(items[1..]) + rest);
      MoreValuesRoundTrip(items[1..], rest);
      MoreValuesCons(items, rest);
    }
  }

  /** The list step of the round trip: the first value parses after its
      comma, the others parse as the tail. */
  lemma MoreValuesCons(items: seq<Json>, rest: seq<Token>)
    requires |items| > 0
    requires ParseValue(Serialize(items[0]) + (SerializeMoreValues(items[1..]) + rest))
      == Parsed(Canon(items[0]), SerializeMoreValues(items[1..]) + rest)
    requires ParseMoreValues(SerializeMoreValues(items[1..]) + rest) == (CanonItems(items[1..]), rest)
    ensures ParseMoreValues(SerializeMoreValues(items) + rest) == (CanonItems(items), rest)
  {
    MoreValuesSplit(items, rest);
    MoreValuesStep(SerializeMoreValues(items) + rest, Canon(items[0]), SerializeMoreValues(items[1..]) + rest);
  }

  lemma {:induction false} MemberRoundTrip(f: Field, rest: seq<Token>)
    ensures ParseMember(SerializeMember(f) + rest) == Parsed(Field(f.key, Canon(f.value)), rest)
    decreases f, 0
  {
    var ts := SerializeMember(f) + rest;
    assert ts == [StrTok(Quote(f.key)), Colon] + (Serialize(f.value) + rest);
    assert ts[2..] == Serialize(f.value) + rest;
    ValueRoundTrip(f.value, rest);
  }

  lemma {:induction false} MembersRoundTrip(fields: seq<Field>, rest: seq<Token>)
    requires EndsList(rest)
    ensures ParseMembers(SerializeMembers(fields) + rest) == (CanonFields(fields), rest)
    decreases fields, 1
  {
    if |fields| == 0 {
      MembersAtEnd(rest);
      assert SerializeMembers(fields) + rest == rest;
    } else {
      var tail := SerializeMoreMembers(fields[1..]) + rest;
      var f := fields[0];
      assert SerializeMembers(fields) + rest == SerializeMember(f) + tail;
      MemberRoundTrip(f, tail);
      MembersStep(SerializeMembers(fields) + rest, Field(f.key, Canon(f.value)), tail);
      MoreMembersRoundTrip(fields[1..], rest);
    }
  }

  lemma {:induction false} MoreMembersRoundTrip(fields: seq<Field>, rest: seq<Token>)
    requires EndsList(rest)
    ensures ParseMoreMembers(SerializeMoreMembers(fields) + rest) == (CanonFields(fields), rest)
    decreases fields, 1
  {
    if |fields| == 0 {
      assert fields == [] && SerializeMoreMembers(fields) + rest == rest;
      MembersAtEnd(rest);
    } else {
      MemberRoundTrip(fields[0], SerializeMoreMembers(fields[1..]) + rest);
      MoreMembersRoundTrip(fields[1..], rest);
      MoreMembersCons(fields, rest);
    }
  }

  lemma MoreMembersCons(fields: seq<Field>, rest: seq<Token>)
    requires |fields| > 0
    requires ParseMember(SerializeMember(fields[0]) + (SerializeMoreMembers(fields[1..]) + rest))
      == Parsed(Field(fields[0].key, Canon(fields[0].value)), SerializeMoreMembers(fields[1..]) + rest)
    requires ParseMoreMembers(SerializeMoreMembers(fields[1..]) + rest) == (CanonFields(fields[1..]), rest)
    ensures ParseMoreMembers(SerializeMoreMembers(fields) + rest) == (CanonFields(fields), rest)
  {
    MoreMembersSplit(fields, rest);
    MoreMembersStep(SerializeMoreMembers(fields) + rest, Field(fields[0].key, Canon(fields[0].value)),
                    SerializeMoreMembers(fields[1..]) + rest);
  }

  /** A well-formed value survives the round trip unchanged. */
  lemma WellFormedRoundTrip(v: Json, rest: seq<Token>)
    requires WellFormed(v)
    ensures ParseValue(Serialize(v) + rest) == Parsed(v, rest)
  {
    ValueRoundTrip(v, rest);
    CanonIdentity(v);
  }

  /** The whole-input parse inverts serialization, up to the canonical form. */
  lemma ParseToEndRoundTrip(v: Json)
    ensures ParseToEnd(Serialize(v)) == Success(Canon(v))
    ensures WellFormed(v) ==> ParseToEnd(Serialize(v)) == Success(v)
  {
    ValueRoundTrip(v, []);
    assert Serialize(v) + [] == Serialize(v);
    if WellFormed(v) {
      CanonIdentity(v);
    }
  }

  /** Tokens after a complete value are an error, never silently dropped. */
  lemma TrailingTokensRejected(v: Json, rest: seq<Token>)
    requires rest != []
    ensures ParseToEnd(Serialize(v) + rest) == Failure(TrailingTokens(|rest|))
  {
    ValueRoundTrip(v, rest);
  }

  /** An object with a repeated key keeps the value written last, at any
      depth: its keys are exactly the entries' keys, and each key maps to the
      canonical form of its last value, itself deduplicated the same way. */
  lemma DuplicateKeyLastWins(entries: seq<Field>, i: nat)
    requires i < |entries|
    requires forall j :: i < j < |entries| ==> entries[j].key != entries[i].key
    ensures var r := ParseToEnd(Serialize(JObject(entries)));
      && r.Success? && r.value.JObject?
      && Keys(r.value.fields) == Keys(entries)
      && Get(r.value.fields, entries[i].key) == Some(Canon(entries[i].value))
  {
    var canon := CanonFields(entries);
    ParseToEndRoundTrip(JObject(entries));
    assert Canon(JObject(entries)) == JObject(BuildObject(canon));
    CanonLastKey(entries, i);
    LastEntryWins([], canon, i);
  }

  /** Canonical entries keep their keys, so the last occurrence stays last. */
  lemma CanonLastKey(entries: seq<Field>, i: nat)
    requires i < |entries|
    requires forall j :: i < j < |entries| ==> entries[j].key != entries[i].key
    ensures var canon := CanonFields(entries);
      && canon[i] == Field(entries[i].key, Canon(entries[i].value))
      && forall j :: i < j < |canon| ==> canon[j].key != canon[i].key
  {
    var canon := CanonFields(entries);
    forall j | i < j < |canon| ensures canon[j].key != canon[i].key {
      assert canon[j].key == entries[j].key;
    }
  }

  /** `[{"x": 1, "x": 2}]` and `{"o": {"x": 1, "x": 2}}`: a nested object with a
      repeated key keeps the last value. */
  lemma NestedDuplicateKeys()
    ensures var inner := JObject([Field("x", JNumber("1")), Field("x", JNumber("2"))]);
      var deduped := JObject([Field("x", JNumber("2"))]);
      && ParseToEnd(Serialize(JArray([inner]))) == Success(JArray([deduped]))
      && ParseToEnd(Serialize(JObject([Field("o", inner)]))) == Success(JObject([Field("o", deduped)]))
  {
    var inner := JObject([Field("x", JNumber("1")), Field("x", JNumber("2"))]);
    var deduped := JObject([Field("x", JNumber("2"))]);
    assert CanonFields(inner.fields) == inner.fields;
    assert BuildObject(inner.fields) == deduped.fields by {
      assert Put([], "x", JNumber("1")) == [Field("x", JNumber("1"))];
      assert Put([Field("x", JNumber("1"))], "x", JNumber("2")) == deduped.fields;
      assert PutAll([Field("x", JNumber("2"))], []) == deduped.fields;
    }
    assert Canon(inner) == deduped;
    assert CanonItems([inner]) == [deduped];
    ParseToEndRoundTrip(JArray([inner]));
    assert CanonFields([Field("o", inner)]) == [Field("o", deduped)];
    assert BuildObject([Field("o", deduped)]) == [Field("o", deduped)];
    ParseToEndRoundTrip(JObject([Field("o", inner)]));
  }

  /** `[v1, ..., vn,]` is rejected: the separated list gives back the
      trailing comma, and `]` is not found where the comma stands. */
  lemma TrailingCommaRejectedInArray(items: seq<Json>, rest: seq<Token>)
    requires |items| > 0
    ensures ParseValue([LBracket] + SerializeValues(items) + [Comma, RBracket] + rest).NoParse?
  {
    var a := [LBracket] + SerializeValues(items) + [Comma, RBracket] + rest;
    assert a[1..] == SerializeValues(items) + ([Comma, RBracket] + rest);
    ValuesRoundTrip(items, [Comma, RBracket] + rest);
    ValueDispatch(a);
  }

  /** `{k1: v1, ..., kn: vn,}` is rejected in the same way. */
  lemma TrailingCommaRejectedInObject(fields: seq<Field>, rest: seq<Token>)
    requires |fields| > 0
    ensures ParseValue([LBrace] + SerializeMembers(fields) + [Comma, RBrace] + rest).NoParse?
  {
    var o := [LBrace] + SerializeMembers(fields) + [Comma, RBrace] + rest;
    assert o[1..] == SerializeMembers(fields) + ([Comma, RBrace] + rest);
    MembersRoundTrip(fields, [Comma, RBrace] + rest);
    ValueDispatch(o);
  }

  /** `[]` and `{}` are values: `separated(..., true)` admits zero terms. */
  lemma EmptyContainers()
    ensures ParseToEnd([LBracket, RBracket]) == Success(JArray([]))
    ensures ParseToEnd([LBrace, RBrace]) == Success(JObject([]))
  {
    var a := [LBracket, RBracket];
    ValuesAtEnd(a[1..]);
    assert ParseArray(a) == Parsed(JArray([]), []);
    ValueDispatch(a);
    var o := [LBrace, RBrace];
    MembersAtEnd(o[1..]);
    assert BuildObject([]) == [];
    assert ParseObject(o) == Parsed(JObject([]), []);
    ValueDispatch(o);
  }

  // ---------------------------------------------------------------------
  // Soundness: what a successful parse consumed is the tokens of a value
  // ---------------------------------------------------------------------

  lemma QuoteUnquote(q: QuotedText)
    ensures Quote(Unquote(q)) == q
  {
    assert q == [q[0]] + q[1..|q| - 1] + [q[|q| - 1]];
  }

  /** The tokens a successful `rootParser` consumed are those of a value
      whose canonical form is the parsed value. */
  lemma {:induction false} ValueSound(ts: seq<Token>) returns (u: Json)
    requires ParseValue(ts).Parsed?
    ensures ts == Serialize(u) + ParseValue(ts).rest
    ensures Canon(u) == ParseValue(ts).value
    decreases |ts|, 2
  {
    if ParsePrimitive(ts).Parsed? {
      var t := ts[0];
      if t == NullTok {
        u := JNull;
      } else if t == TrueTok {
        u := JBool(true);
      } else if t == FalseTok {
        u := JBool(false);
      } else if t.StrTok? {
        u := JString(Unquote(t.quoted));
        QuoteUnquote(t.quoted);
      } else {
        u := JNumber(t.text);
      }
      assert ts == [t] + ts[1..];
    } else if ParseObject(ts).Parsed? {
      u := ObjectSound(ts);
    } else {
      u := ArraySound(ts);
    }
  }

  lemma {:induction false} ArraySound(ts: seq<Token>) returns (u: Json)
    requires ParseArray(ts).Parsed?
    ensures ts == Serialize(u) + ParseArray(ts).rest
    ensures Canon(u) == ParseArray(ts).value
    decreases |ts|, 1
  {
    var p := ParseValues(ts[1..]);
    var us := ValuesSound(ts[1..]);
    u := JArray(us);
    Bracketed(ts, LBracket, SerializeValues(us), p.1, RBracket);
  }

  lemma {:induction false} ObjectSound(ts: seq<Token>) returns (u: Json)
    requires ParseObject(ts).Parsed?
    ensures ts == Serialize(u) + ParseObject(ts).rest
    ensures Canon(u) == ParseObject(ts).value
    decreases |ts|, 1
  {
    var p := ParseMembers(ts[1..]);
    var fs := MembersSound(ts[1..]);
    u := JObject(fs);
    Bracketed(ts, LBrace, SerializeMembers(fs), p.1, RBrace);
  }

  /** An opener, a body, and a rest that starts with the closer. */
  lemma Bracketed(ts: seq<Token>, open: Token, body: seq<Token>, rest: seq<Token>, close: Token)
    requires |ts| > 0 && ts[0] == open && ts[1..] == body + rest
    requires |rest| > 0 && rest[0] == close
    ensures ts == [open] + body + [close] + rest[1..]
  {
    assert rest == [close] + rest[1..];
    assert ts == [open] + ts[1..];
  }

  /** Prefixing one more term to a list splits its tokens and its canonical form. */
  lemma ItemsCons(u: Json, more: seq<Json>)
    ensures SerializeValues([u] + more) == Serialize(u) + SerializeMoreValues(more)
    ensures SerializeMoreValues([u] + more) == [Comma] + Serialize(u) + SerializeMoreValues(more)
    ensures CanonItems([u] + more) == [Canon(u)] + CanonItems(more)
  {
    var us := [u] + more;
    assert us[0] == u && us[1..] == more;
  }

  lemma FieldsCons(f: Field, more: seq<Field>)
    ensures SerializeMembers([f] + more) == SerializeMember(f) + SerializeMoreMembers(more)
    ensures SerializeMoreMembers([f] + more) == [Comma] + SerializeMember(f) + SerializeMoreMembers(more)
    ensures CanonFields([f] + more) == [Field(f.key, Canon(f.value))] + CanonFields(more)
  {
    var fs := [f] + more;
    assert fs[0] == f && fs[1..] == more;
    assert CanonFields(fs)[1..] == CanonFields(more);
  }

  lemma Concat3<T>(a: seq<T>, b: seq<T>, c: seq<T>)
    ensures a + (b + c) == a + b + c
  {
  }

  lemma CommaConcat<T>(c: T, ts: seq<T>, a: seq<T>, b: seq<T>, r: seq<T>)
    requires |ts| > 0 && ts[0] == c && ts[1..] == a + (b + r)
    ensures ts == [c] + a + b + r
  {
    assert ts == [c] + ts[1..];
  }

  lemma {:induction false} ValuesSound(ts: seq<Token>) returns (us: seq<Json>)
    ensures ts == SerializeValues(us) + ParseValues(ts).1
    ensures CanonItems(us) == ParseValues(ts).0
    decreases |ts|, 3
  {
    var first := ParseValue(ts);
    if first.NoParse? {
      us := [];
    } else {
      var u := ValueSound(ts);
      var more := MoreValuesSound(first.rest);
      us := [u] + more;
      ItemsCons(u, more);
      Concat3(Serialize(u), SerializeMoreValues(more), ParseMoreValues(first.rest).1);
    }
  }

  lemma {:induction false} MoreValuesSound(ts: seq<Token>) returns (us: seq<Json>)
    ensures ts == SerializeMoreValues(us) + ParseMoreValues(ts).1
    ensures CanonItems(us) == ParseMoreValues(ts).0
    decreases |ts|, 3
  {
    if |ts| == 0 || ts[0] != Comma || ParseValue(ts[1..]).NoParse? {
      us := [];
    } else {
      var next := ParseValue(ts[1..]);
      var u := ValueSound(ts[1..]);
      var more := MoreValuesSound(next.rest);
      us := [u] + more;
      ItemsCons(u, more);
      MoreValuesStep(ts, next.value, next.rest);
      CommaConcat(Comma, ts, Serialize(u), SerializeMoreValues(more), ParseMoreValues(next.rest).1);
    }
  }

  lemma {:induction false} MemberSound(ts: seq<Token>) returns (f: Field)
    requires ParseMember(ts).Parsed?
    ensures ts == SerializeMember(f) + ParseMember(ts).rest
    ensures Field(f.key, Canon(f.value)) == ParseMember(ts).value
    decreases |ts|, 3
  {
    var q := ts[0].quoted;
    var u := ValueSound(ts[2..]);
    f := Field(Unquote(q), u);
    QuoteUnquote(q);
    PairConcat(ts, Serialize(u), ParseValue(ts[2..]).rest);
  }

  lemma PairConcat<T>(ts: seq<T>, a: seq<T>, r: seq<T>)
    requires |ts| >= 2 && ts[2..] == a + r
    ensures ts == [ts[0], ts[1]] + a + r
  {
    assert ts == [ts[0], ts[1]] + ts[2..];
  }

  lemma {:induction false} MembersSound(ts: seq<Token>) returns (fs: seq<Field>)
    ensures ts == SerializeMembers(fs) + ParseMembers(ts).1
    ensures CanonFields(fs) == ParseMembers(ts).0
    decreases |ts|, 4
  {
    var first := ParseMember(ts);
    if first.NoParse? {
      fs := [];
    } else {
      var f := MemberSound(ts);
      var more := MoreMembersSound(first.rest);
      fs := [f] + more;
      FieldsCons(f, more);
      MembersStep(ts, first.value, first.rest);
      Concat3(SerializeMember(f), SerializeMoreMembers(more), ParseMoreMembers(first.rest).1);
    }
  }

  lemma {:induction false} MoreMembersSound(ts: seq<Token>) returns (fs: seq<Field>)
    ensures ts == SerializeMoreMembers(fs) + ParseMoreMembers(ts).1
    ensures CanonFields(fs) == ParseMoreMembers(ts).0
    decreases |ts|, 4
  {
    if |ts| == 0 || ts[0] != Comma || ParseMember(ts[1..]).NoParse? {
      fs := [];
    } else {
      var next := ParseMember(ts[1..]);
      var f := MemberSound(ts[1..]);
      var more := MoreMembersSound(next.rest);
      fs := [f] + more;
      FieldsCons(f, more);
      MoreMembersStep(ts, next.value, next.rest);
      CommaConcat(Comma, ts, SerializeMember(f), SerializeMoreMembers(more), ParseMoreMembers(next.rest).1);
    }
  }

  /** A successful parse consumed exactly the tokens of some value, and
      yields that value's canonical form. */
  lemma ParseSound(ts: seq<Token>)
    ensures ParseValue(ts).Parsed? ==>
      exists u :: ts == Serialize(u) + ParseValue(ts).rest && Canon(u) == ParseValue(ts).value
  {
    if ParseValue(ts).Parsed? {
      var u := ValueSound(ts);
    }
  }

  /** The whole-input parse accepts exactly the token sequences of values. */
  lemma AcceptsExactlyValues(ts: seq<Token>)
    ensures ParseToEnd(ts).Success? <==> exists u :: ts == Serialize(u)
    ensures ParseToEnd(ts).Success? ==> exists u :: ts == Serialize(u) && Canon(u) == ParseToEnd(ts).value
  {
    if ParseToEnd(ts).Success? {
      var u := ValueSound(ts);
      assert ts == Serialize(u);
    }
    if exists u :: ts == Serialize(u) {
      var u :| ts == Serialize(u);
      ParseToEndRoundTrip(u);
    }
  }

  /** Every value's tokens start with a token that opens a value: never a
      closer, a comma or a colon, and a string token exactly for a string. */
  lemma SerializeStart(u: Json)
    ensures |Serialize(u)| > 0
    ensures var t := Serialize(u)[0]; !Closer(t) && t != Comma && t != Colon
    ensures Serialize(u)[0].StrTok? <==> u.JString?
  {
    match u
    case JArray(items) => assert Serialize(u)[0] == LBracket;
    case JObject(fields) => assert Serialize(u)[0] == LBrace;
    case _ =>
  }

  /** `[v1 v2 ...`: two terms without a comma between them are rejected,
      for example `[1 2]`. */
  lemma MissingCommaRejected(u1: Json, u2: Json, rest: seq<Token>)
    ensures ParseToEnd([LBracket] + Serialize(u1) + Serialize(u2) + rest) == Failure(NoValue)
  {
    var ts := [LBracket] + Serialize(u1) + Serialize(u2) + rest;
    var t := Serialize(u2) + rest;
    Regroup([LBracket], Serialize(u1), Serialize(u2), rest);
    ValueRoundTrip(u1, t);
    SerializeStart(u2);
    HeadOfConcat(Serialize(u2), rest);
    MoreValuesNone(t);
    ValuesStep(ts[1..], Canon(u1), t);
    ArrayNeedsCloser(ts);
  }

  lemma HeadOfConcat<T>(a: seq<T>, b: seq<T>)
    requires |a| > 0
    ensures (a + b)[0] == a[0]
  {
  }

  lemma ValuesStep(ts: seq<Token>, v: Json, tail: seq<Token>)
    requires ParseValue(ts) == Parsed(v, tail)
    ensures ParseValues(ts) == ([v] + ParseMoreValues(tail).0, ParseMoreValues(tail).1)
  {
  }

  /** An array whose list of terms is not followed by `]` is no value. */
  lemma ArrayNeedsCloser(ts: seq<Token>)
    requires |ts| > 0 && ts[0] == LBracket
    requires var r := ParseValues(ts[1..]).1; |r| == 0 || r[0] != RBracket
    ensures ParseToEnd(ts) == Failure(NoValue)
  {
    ValueDispatch(ts);
  }

  /** An object whose list of entries is not followed by `}` is no value. */
  lemma ObjectNeedsCloser(ts: seq<Token>)
    requires |ts| > 0 && ts[0] == LBrace
    requires var r := ParseMembers(ts[1..]).1; |r| == 0 || r[0] != RBrace
    ensures ParseToEnd(ts) == Failure(NoValue)
  {
    ValueDispatch(ts);
  }

  /** `{k v ...`: an entry without its colon is rejected, for example `{"a" 1}`. */
  lemma MissingColonRejected(key: string, v: Json, rest: seq<Token>)
    ensures ParseToEnd([LBrace, StrTok(Quote(key))] + Serialize(v) + rest) == Failure(NoValue)
  {
    var ts := [LBrace, StrTok(Quote(key))] + Serialize(v) + rest;
    var m := [StrTok(Quote(key))] + (Serialize(v) + rest);
    assert ts == [LBrace] + m;
    assert ts[1..] == m;
    SerializeStart(v);
    HeadOfConcat(Serialize(v), rest);
    assert m[1] == Serialize(v)[0];
    assert ParseMember(m).NoParse?;
    MembersNone(m);
    ObjectNeedsCloser(ts);
  }

  /** `{k: v ...` with a key that is not a string literal is rejected, for
      example `{1: 2}`. */
  lemma NonStringKeyRejected(k: Json, v: Json, rest: seq<Token>)
    requires !k.JString?
    ensures ParseToEnd([LBrace] + Serialize(k) + [Colon] + Serialize(v) + rest) == Failure(NoValue)
  {
    var ts := [LBrace] + Serialize(k) + [Colon] + Serialize(v) + rest;
    var m := Serialize(k) + ([Colon] + Serialize(v) + rest);
    assert ts == [LBrace] + m;
    assert ts[1..] == m;
    SerializeStart(k);
    HeadOfConcat(Serialize(k), [Colon] + Serialize(v) + rest);
    assert ParseMember(m).NoParse?;
    MembersNone(m);
    ObjectNeedsCloser(ts);
  }

  /** An array or object whose closer is missing is rejected, for example
      `{"a": 1` and `[1, 2`. */
  lemma UnclosedRejected(items: seq<Json>, fields: seq<Field>)
    ensures ParseToEnd([LBracket] + SerializeValues(items)) == Failure(NoValue)
    ensures ParseToEnd([LBrace] + SerializeMembers(fields)) == Failure(NoValue)
  {
    var a := [LBracket] + SerializeValues(items);
    assert a[1..] == SerializeValues(items) + [];
    ValuesRoundTrip(items, []);
    ValueDispatch(a);
    var o := [LBrace] + SerializeMembers(fields);
    assert o[1..] == SerializeMembers(fields) + [];
    MembersRoundTrip(fields, []);
    ValueDispatch(o);
  }

  /** A string token cut out by the (corrected) literal recognizer yields,
      after the quotes are sliced off, the raw body of the literal with its
      escapes undecoded. */
  lemma StringTokenValue(input: string, r: nat)
    requires Recognizers.ClosedAt(input, r)
    ensures 2 <= |input[..r]|
    ensures Unquote(input[..r]) == input[1..r - 1]
    ensures Recognizers.IsRawBody(Unquote(input[..r]))
  {
  }
}
