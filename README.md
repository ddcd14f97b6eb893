# SimpleJsonGrammar in Dafny

This project models the JSON grammar of `SimpleJsonGrammar`, which is written with the
better-parse parser-combinator library for Kotlin. It has two halves:

- **The token recognizers** (`Recognizers.dfy`). Each returns the length of the prefix it
  accepts, with 0 meaning no match. `tokenIdent` is a prefix test with no loop, so it is a
  function whose result is tied to the predicate `KeywordAt`. `tokenNumber`, `whiteSpace` and
  `stringLiteral` are methods: each walks an index over the remaining input exactly as the
  Kotlin code does. Each method is proved against a declarative statement of what it accepts
  (`NumberMatch`, the whitespace postconditions, `StringMatch`). Uniqueness lemmas show that each predicate fixes
  the answer. The character classes `isDigit`, `isLetterOrDigit` and `isWhitespace` are ASCII
  approximations (`CharClass.dfy`).
- **The value grammar** (`JsonValue.dfy`, `Grammar.dfy`). `rootParser = primitive or object or
  array` is a set of mutually recursive functions over a token sequence. They return the value
  and the tokens left over. A string token's value is its text with the first and last
  characters removed, and escapes are left raw. An object is built by `put`-ting its entries
  in order into a fresh `mutableMapOf()`, which is a LinkedHashMap. The model represents it
  as a sequence of fields: a new key is appended, and a key already present keeps its place
  and takes the new value. `FillObject` is the imperative `forEach { put(...) }` loop. It is
  proved equal to the fold `BuildObject`. A serializer back to tokens gives the partner of
  the parser, in both directions. The tokens of any value parse to its canonical form
  `Canon`: at every level, each object keeps only the last value of a repeated key. A
  well-formed value is its own canonical form. Conversely, whatever a successful parse
  consumed is the tokens of some value.

Assumed combinator semantics (better-parse is not part of this model): `or` is ordered choice,
`*` is sequence, and unary `-` parses a token and drops it. `separated(term, sep, true)` parses
`term (sep term)*` and admits zero terms, because the third argument is `acceptZero`. If the
term after a separator fails, the repetition stops before that separator. So `[1,]` and
`{"a":1,}` are **rejected**: the list hands back the comma, and the closing bracket is not found
in its place (`TrailingCommaRejectedInArray`, `TrailingCommaRejectedInObject`). Nothing in the
grammar's own code makes a trailing separator legal, so the model does not accept one. It does
accept `[]` and `{}` (`EmptyContainers`).

## Model

| member | source | states |
|---|---|---|
| `Recognizers.TokenIdent` | src/jmh/kotlin/JsonGrammar.kt:7-11 | The result is 0 or the keyword's length. For a non-empty keyword it is non-zero iff the input starts with the keyword and then either ends or continues with a character that is not a letter or digit. |
| `Recognizers.KeywordBoundary` | src/jmh/kotlin/JsonGrammar.kt:8-10 | `"nullable"` and `"null1"` do not match `null`. `"null_"`, `"null,"` and `"null"` match it with length 4. A truncated keyword does not match. |
| `Recognizers.TokenNumber` | src/jmh/kotlin/JsonGrammar.kt:13-33 | Needs a non-empty input, because `it[0]` is read unguarded. The result is 0 or in 1..length. It is 0 exactly when the character after an optional sign is neither a digit nor a dot. A non-zero result takes at least one character past the sign. The match has the shape sign? digits* ('.' digits*)? and cannot be extended: the next character is not a digit, and it is not a dot unless a dot was already taken. |
| `Recognizers.NumberMatchUnique` | src/jmh/kotlin/JsonGrammar.kt:13-33 | The number specification admits exactly one length for any input. |
| `Recognizers.NumberEdgeCases` | src/jmh/kotlin/JsonGrammar.kt:16-31 | `"."` gives 1, `"1."` gives 2, `"-."` gives 2, a bare `"+"` gives 0, and `"1.2.3"` stops at the second dot with 3. |
| `Recognizers.WhiteSpace` | src/jmh/kotlin/JsonGrammar.kt:36-42 | The result is at most the input length. Every character before it is whitespace, and the character at it, if there is one, is not: the longest whitespace prefix. |
| `Recognizers.ScanToQuote` | src/jmh/kotlin/JsonGrammar.kt:56-62 | The scan loop stops at the first unescaped quote, or at the end. Everything it has stepped over is a raw body, in which each backslash takes the next character. It ends one past the input exactly when the last character is an escaping backslash. |
| `Recognizers.StringLiteral` | src/jmh/kotlin/JsonGrammar.kt:53-65 | Needs a non-empty input. The result is 0 when the first character is not `"`, or when the scan reaches exactly the end. Otherwise it is one past the first unescaped `"`, where a backslash skips any one following character. When the last character is an escaping backslash, the result is length + 2. In every other case it is at most the length. |
| `Recognizers.StringMatchUnique` | src/jmh/kotlin/JsonGrammar.kt:53-65 | The string-literal specification admits exactly one result for any input: the closing quote that is found is the first unescaped one. |
| `Recognizers.UnknownEscapeAccepted` | src/jmh/kotlin/JsonGrammar.kt:57-62 | `"\q"` is accepted with length 4 even though the escape is unknown. In `"\""` the escaped quote does not close the literal, and the length is 4. |
| `Recognizers.TrailingEscapeOverrun` | src/jmh/kotlin/JsonGrammar.kt:58-64 | For the two-character input `"\` the as-written recognizer answers 4, which is more than the input length. |
| `Recognizers.StringLiteralChecked` | src/jmh/kotlin/JsonGrammar.kt:53-65 | Corrected recognizer, with the end test written as `index >= length`. The result is never past the input. It is 0 exactly when there is no opening quote, the literal is unclosed, or it ends in a dangling backslash. Otherwise it is one past the closing quote. |
| `Recognizers.RecognizersDisjoint` | src/jmh/kotlin/JsonGrammar.kt:7-80 | At any position at most one of these matches: the three keywords (each pair compared), a number, a string literal, whitespace, or a one-character `tokenText` token. So the order in which they are tried does not matter. |
| `JsonValue.Put` | src/jmh/kotlin/JsonGrammar.kt:92 | `put(key, value)`: afterwards the key maps to the value and every other key keeps its value. The key set gains the key. A new key is appended at the end. Distinct keys stay distinct. |
| `JsonValue.PutAll` | src/jmh/kotlin/JsonGrammar.kt:92 | Putting a list of entries: the key set is the old keys plus the entry keys, keys stay distinct, and keys no entry mentions keep their values. |
| `JsonValue.BuildObject` | src/jmh/kotlin/JsonGrammar.kt:90-92 | The map built from the entries has distinct keys, its key set equals the set of entry keys, and every field it holds is one of the entries. |
| `JsonValue.BuildObjectWellFormed` | src/jmh/kotlin/JsonGrammar.kt:92 | Building the map from entries whose values are well formed gives a well-formed object. |
| `JsonValue.FillObject` | src/jmh/kotlin/JsonGrammar.kt:92 | The `forEach { put }` loop into a fresh map computes exactly `BuildObject`. |
| `JsonValue.LastEntryWins` | src/jmh/kotlin/JsonGrammar.kt:92 | When a key occurs several times, its value is the one in its last entry. |
| `JsonValue.BuildObjectDistinct` | src/jmh/kotlin/JsonGrammar.kt:92 | With distinct keys the map holds exactly the entries, in their order. |
| `JsonValue.InsertionOrder` | src/jmh/kotlin/JsonGrammar.kt:92 | LinkedHashMap iteration order: keys already present keep their places, and new keys follow in the order of their first occurrence. |
| `JsonValue.ObjectKeyOrder` | src/jmh/kotlin/JsonGrammar.kt:92 | The keys of a built object come in the order of their first occurrence among the entries. |
| `Grammar.ParsePrimitive` | src/jmh/kotlin/JsonGrammar.kt:82-88 | `jsonNull or jsonBool or string or number` succeeds exactly on a null, true, false, string or number token. It consumes just that one token. |
| `Grammar.ParseValue` | src/jmh/kotlin/JsonGrammar.kt:98 | `rootParser`: a success consumes a non-empty prefix, leaves a suffix, and yields a value whose objects all have distinct keys. |
| `Grammar.ParseArray` | src/jmh/kotlin/JsonGrammar.kt:94-96 | `jsonArray`: a success yields an array, consumes a non-empty prefix, and every element is well formed. |
| `Grammar.ParseValues` | src/jmh/kotlin/JsonGrammar.kt:95 | `separated(this, comma, true)` never fails, leaves a suffix of its input, and yields well-formed terms. |
| `Grammar.ParseMoreValues` | src/jmh/kotlin/JsonGrammar.kt:95 | The `(comma value)*` loop of `separated` leaves a suffix and yields well-formed terms. |
| `Grammar.ParseObject` | src/jmh/kotlin/JsonGrammar.kt:90-92 | `jsonObject`: a success yields an object with distinct keys and well-formed values, and consumes a non-empty prefix. |
| `Grammar.ParseMember` | src/jmh/kotlin/JsonGrammar.kt:91 | `string * -colon * this`: a success consumes a non-empty prefix and yields a well-formed value. |
| `Grammar.ParseMembers` | src/jmh/kotlin/JsonGrammar.kt:91 | `separated(string * -colon * this, comma, true)` never fails and leaves a suffix of its input. |
| `Grammar.ParseMoreMembers` | src/jmh/kotlin/JsonGrammar.kt:91 | The `(comma entry)*` loop leaves a suffix and yields entries with well-formed values. |
| `Grammar.ParseToEnd` | src/jmh/kotlin/JsonGrammar.kt:98 | A whole-input parse succeeds iff `rootParser` succeeds with no tokens left, and its value is well formed. |
| `JsonValue.CanonIdentity` | src/jmh/kotlin/JsonGrammar.kt:92 | A value whose objects already have distinct keys is unchanged by putting every object's entries into a fresh map. |
| `Grammar.ValueRoundTrip` | src/jmh/kotlin/JsonGrammar.kt:82-98 | Parsing the tokens of any value, followed by anything, gives its canonical form and leaves the rest untouched. No well-formedness is required: nested duplicate keys included. |
| `Grammar.WellFormedRoundTrip` | src/jmh/kotlin/JsonGrammar.kt:82-98 | The tokens of a well-formed value parse back to exactly that value. |
| `Grammar.ArrayRoundTrip` | src/jmh/kotlin/JsonGrammar.kt:94-96 | An array's tokens parse to the list of its terms' canonical forms, in source order. |
| `Grammar.ObjectRoundTrip` | src/jmh/kotlin/JsonGrammar.kt:90-92 | The tokens of any list of entries, duplicate keys included at every depth, parse to the object that `put`-ting the entries, with canonical values, left to right builds. |
| `Grammar.ParseToEndRoundTrip` | src/jmh/kotlin/JsonGrammar.kt:98 | The whole-input parse of any value's tokens succeeds with its canonical form. For a well-formed value, that is the value itself. |
| `Grammar.ParseSound` | src/jmh/kotlin/JsonGrammar.kt:82-98 | Whatever a successful `rootParser` consumed is exactly the tokens of some value, and the parsed value is that value's canonical form. |
| `Grammar.AcceptsExactlyValues` | src/jmh/kotlin/JsonGrammar.kt:98 | The whole-input parse succeeds iff the tokens are those of some value, and the result is that value's canonical form. |
| `Grammar.TrailingTokensRejected` | src/jmh/kotlin/JsonGrammar.kt:98 | Tokens after a complete value make the whole-input parse fail with the count of the extra tokens. They are never silently dropped. |
| `Grammar.DuplicateKeyLastWins` | src/jmh/kotlin/JsonGrammar.kt:90-92 | A parsed object with repeated keys has exactly the entry keys. Each key maps to its last value, whose nested objects are deduplicated the same way. |
| `Grammar.NestedDuplicateKeys` | src/jmh/kotlin/JsonGrammar.kt:90-96 | `[{"x":1,"x":2}]` parses to `[{"x":2}]`, and `{"o":{"x":1,"x":2}}` parses to `{"o":{"x":2}}`. |
| `Grammar.TrailingCommaRejectedInArray` | src/jmh/kotlin/JsonGrammar.kt:94-96 | `[v1, ..., vn,]` does not parse, for any values. |
| `Grammar.TrailingCommaRejectedInObject` | src/jmh/kotlin/JsonGrammar.kt:90-92 | `{k1: v1, ..., kn: vn,}` does not parse, for any entries. |
| `Grammar.MissingCommaRejected` | src/jmh/kotlin/JsonGrammar.kt:94-96 | For any two values and any following tokens, `[` followed by the two values with no comma between them is no value. `[1 2]` is one such input. |
| `Grammar.MissingColonRejected` | src/jmh/kotlin/JsonGrammar.kt:90-92 | For any key, any value and any following tokens, `{` followed by the key's string token and then the value, with no colon, is no value. |
| `Grammar.NonStringKeyRejected` | src/jmh/kotlin/JsonGrammar.kt:90-92 | For any key value that is not a string, any value and any following tokens, `{ k : v ...` is no value: a key must be a string literal. |
| `Grammar.UnclosedRejected` | src/jmh/kotlin/JsonGrammar.kt:90-96 | For any values and any entries, an array or an object whose tokens stop before the closer is no value. `[1, 2` and `{"a": 1` are such inputs. |
| `Grammar.EmptyContainers` | src/jmh/kotlin/JsonGrammar.kt:90-96 | `[]` parses to the empty array and `{}` to the empty object. |
| `Grammar.StringTokenValue` | src/jmh/kotlin/JsonGrammar.kt:84 | For a literal closed by the recognizer, the string value is the text between the quotes. It is a raw body, with escapes undecoded. |

## Left out

- The benchmark harness in `src/jmh/kotlin/JsonGrammarBenchmark.kt` (a JMH benchmark against kotlinx.serialization) is not part of this model.
- The better-parse tokenizer driver is not modelled: the order in which it tries tokens, how `ignore = true` drops whitespace, and how match lengths become tokens. The grammar starts from a token sequence with whitespace already removed. The single-character tokens `tokenText(",")` and so on become token constructors.
- better-parse's combinators, `parseToEnd` and its error types are assumed with the semantics stated above, not verified. Errors are reduced to "no value" and "trailing tokens (count)". Error positions are not modelled.
- `text.toDouble()` at line 86 is not modelled, because it is floating-point conversion. A number value keeps its matched text. So the NumberFormatException that `"."` and `"-."` would raise there is not modelled either. `"1."` converts to 1.0 and raises nothing.
- Kotlin's Unicode character classes are approximated by their ASCII subsets. For example, a non-ASCII letter after `null` is not treated as a letter.
- `Recognizers.TokenNumber`, `Recognizers.StringLiteral`, `Recognizers.StringLiteralChecked`: require a non-empty input, because the Kotlin code indexes `it[0]` without a guard and would throw. The model does not describe that exception.
- `Grammar.ParsePrimitive`: a string token's text is typed to have at least two characters and a quote at each end, as the corrected recognizer guarantees. The `StringIndexOutOfBoundsException` that `substring` would throw on the overrunning match of the as-written recognizer is not modelled.
- The JSON string escapes are not decoded anywhere, in the source or in the model.
- Kotlin's `Char` and `String.length` count UTF-16 code units, but a Dafny `char` is one Unicode scalar value. The model works on scalar values. So every length a recognizer returns differs from Kotlin's once a character outside the Basic Multilingual Plane occurs: an emoji in a string literal counts 2 in Kotlin and 1 here.

## Findings

| source | as written | input that shows it | evidently intended | confidence | as-written member | corrected member |
|---|---|---|---|---|---|---|
| src/jmh/kotlin/JsonGrammar.kt:58-64 | After a backslash at the last position, `index` becomes `length + 1`. The unclosed-string test `index == length` misses that, and the recognizer returns `length + 2`. | the two characters `"\` (result 4 for an input of length 2) | report an unclosed literal (0), for example by testing `index >= length` | medium: not executed, derived from the code as written | `Recognizers.TrailingEscapeOverrun` | `Recognizers.StringLiteralChecked` |
