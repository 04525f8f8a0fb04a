# SimpleJsonGrammar, modelled in Dafny

This project models `SimpleJsonGrammar`, the JSON grammar of the
`jsonParser` library. The grammar is written with the better-parse
combinator library. It turns a text into Kotlin values: `null`, a
`Boolean`, a `String`, a `Double`, a `List` or a `Map`. The model follows
the grammar in four parts.

- **Tokenizer** (`lexer.dfy`, module `Lexer`). The fifteen token patterns
  are kept in the order they are declared. At each offset the first
  declared pattern that matches wins. Whitespace matches are dropped.
  Lexing fails at the first offset where no pattern matches.
  - The keywords `null`, `true` and `false` need a word boundary on both
    sides, so `nul` and `nullable` do not lex.
  - `\s` is the Java whitespace set `[ \t\n\x0B\f\r]`, and `\d` is `[0-9]`.
  - The word boundary `\b` takes a word character to be an ASCII letter, an
    ASCII digit or `_` (`IsWordChar`).
  - The string pattern is modelled by the `ValidBody` shape: runs of
    characters other than `\` and `"`, and escapes whose selector is one of
    `" n r t b f \`.
  - The scanning loop, `Scan`, is stated for any matcher and any pattern
    list. `Tokenize` instantiates it with the grammar's own patterns.
- **String values** (`strings.dfy`, module `StringValues`). A string token
  loses its first and last character. The rest goes through seven
  whole-string `replace` calls, in the source's order: `\"`, `\n`, `\r`,
  `\t`, `\b`, `\f`, and last `\\`.
  - This chain is compared with single-pass decoding (`Decode`), which reads
    each backslash together with the character after it.
  - The two agree on every body in which no escaped backslash is directly
    followed by one of the letters `n r t b f`.
  - They can differ on other bodies. For example, for the body `\\n` the
    chain gives a backslash and a newline, while single-pass decoding gives
    `\n` as two characters.
  - The model uses the chain, as the code does.
  - `Escape`, which writes a value as a literal body, is the chain's
    partner: the chain undoes it for every value in which no backslash is
    directly followed by one of those letters.
- **Numbers** (`numbers.dfy`, module `Numbers`). A number is kept as its
  sign and the decimal text the grammar assembles. That text is the integer
  digits, then `.` and the fraction digits, then `e` and the exponent
  digits. A dot with no digits after it adds nothing. An `E` becomes `e`.
  The exponent takes no sign. The text has a fixed shape and can be read
  back into its parts.
- **Grammar** (`grammar.dfy`, module `Grammar`, and `grammar_facts.dfy`,
  module `GrammarFacts`). A recursive descent over the token sequence with
  ordered choice: null, Boolean, string, number, object, array.
  - `separated(..., acceptZero = true)` leaves a comma unread when no item
    follows it. Because of this, a trailing comma makes the closing bracket
    or brace fail to match.
  - Object members are turned into a map in order, so a later duplicate key
    replaces an earlier one.
  - A whole input must be one value that uses up every token.
  - `GrammarFacts` characterises every parser: which token each choice
    starts with, which tokens a list spans (in both directions), and which
    token ends each value.

`vectors.dfy` (module `Vectors`) works the inputs of
`SimpleJsonGrammarTest.kt` through the model, together with a few edge
cases. Inputs of one token go through `Parse` from the text; the general
lemmas `StringTokenAlone` and `NumberTokens` are the token-level steps they
use. Longer inputs are given as token sequences and go through
`ParseTokens`.

`results.dfy` holds `Option` and `Result`. `seqs.dfy` holds one
sequence-slicing lemma.

## Model

Paths are relative to the repository root. `SimpleJsonGrammar.kt` is
`src/main/kotlin/com/github/silmeth/json/SimpleJsonGrammar.kt`, and its tests
are in `src/test/kotlin/com/github/silmeth/json/SimpleJsonGrammarTest.kt`.

| member | source | states |
|---|---|---|
| Lexer.RunEnd | src/main/kotlin/com/github/silmeth/json/SimpleJsonGrammar.kt:42 | the end of a run of `\d` (or `\s`) lies between the start and the end of the input |
| Lexer.RunEndMaximal | src/main/kotlin/com/github/silmeth/json/SimpleJsonGrammar.kt:26 | a `\s+` / `\d+` match is greedy: every character in the run qualifies and the next one does not |
| Lexer.BodyEnd | src/main/kotlin/com/github/silmeth/json/SimpleJsonGrammar.kt:24 | where the string pattern finds its closing quote, that position lies in the input and holds `"` |
| Lexer.BodyEndSound | src/main/kotlin/com/github/silmeth/json/SimpleJsonGrammar.kt:16-24 | the text between the quotes of a string match has the literal-body shape: plain runs and escapes `\" \n \r \t \b \f \\` |
| Lexer.BodyEndComplete | src/main/kotlin/com/github/silmeth/json/SimpleJsonGrammar.kt:16-24 | a valid body followed by a quote is found by the string pattern, ending at that quote |
| Lexer.StringLiteralMatch | src/main/kotlin/com/github/silmeth/json/SimpleJsonGrammar.kt:24 | the string pattern matches `n` characters exactly when those characters are a quoted valid body |
| Lexer.MatchLength | src/main/kotlin/com/github/silmeth/json/SimpleJsonGrammar.kt:24-45 | a pattern match is never empty and never runs past the input |
| Lexer.MatchLengthAdvances | src/main/kotlin/com/github/silmeth/json/SimpleJsonGrammar.kt:24-45 | every declared pattern consumes at least one character when it matches |
| Lexer.MatchStarts | src/main/kotlin/com/github/silmeth/json/SimpleJsonGrammar.kt:24-45 | each pattern can only match on its own starting characters (`"` for strings, a digit for integers, `n` for `null`, ...) |
| Lexer.PatternsExclusive | src/main/kotlin/com/github/silmeth/json/SimpleJsonGrammar.kt:24-45 | no two declared patterns match at the same offset |
| Lexer.FirstMatch | src/main/kotlin/com/github/silmeth/json/SimpleJsonGrammar.kt:24-45 | the pattern chosen at an offset does match there, with the length returned |
| Lexer.FirstMatchIsFirst | src/main/kotlin/com/github/silmeth/json/SimpleJsonGrammar.kt:24-45 | the chosen pattern is the first declared one that matches; no match means no pattern matches |
| Lexer.MatchIsFirst | src/main/kotlin/com/github/silmeth/json/SimpleJsonGrammar.kt:24-45 | any declared pattern that matches is the one the tokenizer picks, with its length |
| Lexer.NoMatchAt | src/main/kotlin/com/github/silmeth/json/SimpleJsonGrammar.kt:24-45 | when no pattern that may start with the current character matches, the tokenizer finds no match |
| Lexer.Scan | src/main/kotlin/com/github/silmeth/json/SimpleJsonGrammar.kt:24-45 | the scanning loop: the first declared match at each offset, until the input ends or nothing matches; see ScanStep, ScanCovers, ScanSuffix, ScanTakesFirstMatch, ScanFailsWhereNothingMatches |
| Lexer.Emitted | src/main/kotlin/com/github/silmeth/json/SimpleJsonGrammar.kt:26 | drops the lexemes of the ignored whitespace pattern; see EmittedMembers, EmittedSplit, EmittedWellFormed |
| Lexer.Tokenize | src/main/kotlin/com/github/silmeth/json/SimpleJsonGrammar.kt:24-45 | the token sequence of a whole input, or the offset where lexing fails; see TokenizeCovers, TokenizeFailsWhereNothingMatches, TokenizeWellFormed |
| Lexer.ScanStep | src/main/kotlin/com/github/silmeth/json/SimpleJsonGrammar.kt:24-45 | each lexeme the scan produces is the first match at its offset, and the scan goes on right after it |
| Lexer.ScanCovers | src/main/kotlin/com/github/silmeth/json/SimpleJsonGrammar.kt:24-45 | the lexemes of a successful scan are nonempty and concatenate to the whole remaining input |
| Lexer.ScanSuffix | src/main/kotlin/com/github/silmeth/json/SimpleJsonGrammar.kt:24-45 | the scan after the first `k` lexemes resumes at the offset they span and yields the remaining lexemes |
| Lexer.ScanTakesFirstMatch | src/main/kotlin/com/github/silmeth/json/SimpleJsonGrammar.kt:24-45 | the `k`-th lexeme is the first declared pattern matching at its offset (first declared wins) |
| Lexer.ScanFailsWhereNothingMatches | src/main/kotlin/com/github/silmeth/json/SimpleJsonGrammar.kt:24-45 | a failed scan reports an offset inside the input at which no pattern matches |
| Lexer.TokenizeFailsWhereNothingMatches | src/main/kotlin/com/github/silmeth/json/SimpleJsonGrammar.kt:24-45 | a lexing error is reported at an offset inside the input where none of the fifteen patterns matches |
| Lexer.TokenizeCovers | src/main/kotlin/com/github/silmeth/json/SimpleJsonGrammar.kt:24-45 | successful lexing covers the whole input; a token occurs exactly when a non-whitespace lexeme has its kind and text, and tokens keep the order of their lexemes |
| Lexer.EmittedMembers | src/main/kotlin/com/github/silmeth/json/SimpleJsonGrammar.kt:26 | a token is emitted exactly when some non-whitespace lexeme has its kind and text |
| Lexer.EmittedSplit | src/main/kotlin/com/github/silmeth/json/SimpleJsonGrammar.kt:26 | tokens keep the order of their lexemes: splitting the lexemes at any point splits the tokens there |
| Lexer.KeywordMatches | src/main/kotlin/com/github/silmeth/json/SimpleJsonGrammar.kt:37-39 | `null`, `true`, `false` with no word character on either side match as their keyword |
| Lexer.KeywordNeedsBoundary | src/main/kotlin/com/github/silmeth/json/SimpleJsonGrammar.kt:37-39 | a keyword next to a word character matches no pattern at all, so lexing fails there |
| Lexer.MatchWellFormed | src/main/kotlin/com/github/silmeth/json/SimpleJsonGrammar.kt:24-45 | the text any token pattern matches has the shape of that token kind |
| Lexer.MatchLengthEmitsWellFormed | src/main/kotlin/com/github/silmeth/json/SimpleJsonGrammar.kt:24-45 | the same, for every kind, offset and input at once |
| Lexer.EmittedWellFormed | src/main/kotlin/com/github/silmeth/json/SimpleJsonGrammar.kt:24-45 | every token a scan emits is well formed for its kind |
| Lexer.TokenizeWellFormed | src/main/kotlin/com/github/silmeth/json/SimpleJsonGrammar.kt:24-45 | every token of a tokenized input is well formed, which is what the grammar relies on |
| StringValues.Replace | src/main/kotlin/com/github/silmeth/json/SimpleJsonGrammar.kt:51-57 | Kotlin `String.replace`: every non-overlapping occurrence, left to right; see ReplaceAbsent, ReplaceStep, FinalStep |
| StringValues.Unescape | src/main/kotlin/com/github/silmeth/json/SimpleJsonGrammar.kt:51-57 | the seven-`replace` chain in the source's order; see ChainAgrees, ChainKeepsPlainText, ChainDiffersOnEscapedBackslash, BackslashNewlineKept, ChainUndoesEscape |
| StringValues.StringValue | src/main/kotlin/com/github/silmeth/json/SimpleJsonGrammar.kt:50-57 | a string token's value: quotes cut off, body through the chain; see MemberKey, StringTokenAlone, ParseStringLiteral |
| StringValues.ReplaceAbsent | src/main/kotlin/com/github/silmeth/json/SimpleJsonGrammar.kt:51-57 | `replace` leaves a string unchanged when the pattern's first character does not occur in it |
| StringValues.ReplaceStep | src/main/kotlin/com/github/silmeth/json/SimpleJsonGrammar.kt:51-56 | on a chain-safe body, one more letter or quote replacement equals single-pass decoding of one more selector |
| StringValues.FinalStep | src/main/kotlin/com/github/silmeth/json/SimpleJsonGrammar.kt:57 | the last replacement, of `\\`, completes single-pass decoding once every other escape is decoded |
| StringValues.ChainAgrees | src/main/kotlin/com/github/silmeth/json/SimpleJsonGrammar.kt:50-57 | the seven-replace chain equals single-pass decoding on every valid body where no escaped backslash precedes `n r t b f` |
| StringValues.ChainKeepsPlainText | src/main/kotlin/com/github/silmeth/json/SimpleJsonGrammar.kt:50-57 | a body without backslashes (any non-ASCII text included) is unchanged by the chain |
| StringValues.ChainDiffersOnEscapedBackslash | src/main/kotlin/com/github/silmeth/json/SimpleJsonGrammar.kt:51-57 | the valid body `\\n` becomes a backslash and a newline through the chain, but `\n` as two characters through single-pass decoding |
| StringValues.BackslashNewlineKept | src/main/kotlin/com/github/silmeth/json/SimpleJsonGrammar.kt:53-57 | a backslash followed by a newline (the chain's output for `\\n`) is left alone by every two-character replacement whose pattern does not end in a newline, so later steps cannot repair it |
| StringValues.EscapeDecode | src/main/kotlin/com/github/silmeth/json/SimpleJsonGrammar.kt:16-24 | every escaped value is a valid literal body, and single-pass decoding gives the value back |
| StringValues.EscapeChainSafe | src/main/kotlin/com/github/silmeth/json/SimpleJsonGrammar.kt:50-57 | escaping a value with no backslash before `n r t b f` gives a body on which the chain is exact |
| StringValues.ChainUndoesEscape | src/main/kotlin/com/github/silmeth/json/SimpleJsonGrammar.kt:50-57 | the chain inverts escaping for every value with no backslash before `n r t b f` |
| Numbers.Mantissa | src/main/kotlin/com/github/silmeth/json/SimpleJsonGrammar.kt:62-66 | integer digits, then `.` and the fraction digits when present; see MantissaIndexes, SplitMantissa |
| Numbers.Assemble | src/main/kotlin/com/github/silmeth/json/SimpleJsonGrammar.kt:62-69 | the mantissa, then `e` and the exponent digits when present; see AssembleIndexes, AssembleShape, SplitAssemble, AssembleSplit |
| Numbers.AssembleIndexes | src/main/kotlin/com/github/silmeth/json/SimpleJsonGrammar.kt:62-69 | an assembled text has its first `e` right after the mantissa, followed by exactly the exponent digits |
| Numbers.MantissaIndexes | src/main/kotlin/com/github/silmeth/json/SimpleJsonGrammar.kt:62-66 | a mantissa has its first `.` right after the integer digits, followed by exactly the fraction digits |
| Numbers.AssembleShape | src/main/kotlin/com/github/silmeth/json/SimpleJsonGrammar.kt:59-69 | every assembled text is `digits [. digits] [e digits]` or `. digits [e digits]`, with a lower-case unsigned exponent |
| Numbers.SplitAssemble | src/main/kotlin/com/github/silmeth/json/SimpleJsonGrammar.kt:62-69 | the parts can be read back from the assembled text, so different parts never give the same text |
| Numbers.SplitMantissa | src/main/kotlin/com/github/silmeth/json/SimpleJsonGrammar.kt:62-66 | a text of the number shape splits into valid parts whose mantissa is the text before `e` |
| Numbers.AssembleSplit | src/main/kotlin/com/github/silmeth/json/SimpleJsonGrammar.kt:62-69 | every text of the number shape is the assembly of its own parts |
| Grammar.ParseNull | src/main/kotlin/com/github/silmeth/json/SimpleJsonGrammar.kt:48 | `null` token gives null; see PrimitiveDispatch, ParseKeyword |
| Grammar.ParseBool | src/main/kotlin/com/github/silmeth/json/SimpleJsonGrammar.kt:49 | a `true` or a `false` token gives that Boolean; see PrimitiveDispatch, ParseKeyword |
| Grammar.ParseString | src/main/kotlin/com/github/silmeth/json/SimpleJsonGrammar.kt:50-57 | a string token gives its chain-decoded body; see PrimitiveDispatch, MemberKey, StringTokenAlone, PlainStringAt |
| Grammar.ParseMantissa | src/main/kotlin/com/github/silmeth/json/SimpleJsonGrammar.kt:60-66 | digits with an optional dot and optional digits, or a dot and digits; see MantissaSpelling, PositiveValid |
| Grammar.ParsePositive | src/main/kotlin/com/github/silmeth/json/SimpleJsonGrammar.kt:59-70 | a mantissa and an optional `e`/`E` with digits; see PositiveSpelling, PositiveValid, ParseSignedExponent |
| Grammar.ParseNumber | src/main/kotlin/com/github/silmeth/json/SimpleJsonGrammar.kt:72-73 | an optional minus, then a positive number; see NumberShape, NumberSpelling, NumberStarts, NumberLastToken |
| Grammar.ParsePrimitive | src/main/kotlin/com/github/silmeth/json/SimpleJsonGrammar.kt:75 | null, then Boolean, then string, then number; see PrimitiveDispatch, PrimitiveNotOnBracket |
| Grammar.ToMap | src/main/kotlin/com/github/silmeth/json/SimpleJsonGrammar.kt:80 | `toMap()` over the members; see ToMapKeys, ToMapLastWins, DuplicateKeyMap |
| Grammar.ParseTokens | src/main/kotlin/com/github/silmeth/json/SimpleJsonGrammar.kt:87 | one value that consumes every token; `NoValue` when no value starts the tokens, `UnparsedRemainder` when tokens are left; see NumberTokens, ParseTrailingTokens, ParseTrailingComma |
| Grammar.Parse | src/main/kotlin/com/github/silmeth/json/SimpleJsonGrammar.kt:87 | tokenize, reporting `LexError` at the failing offset, then parse to the end; see ParseKeyword, ParseNul, ParseNullable, ParseStringLiteral, TokenizeCovers |
| Grammar.ParseValue | src/main/kotlin/com/github/silmeth/json/SimpleJsonGrammar.kt:86 | a parsed value consumes at least one token and stays within the input |
| Grammar.ParseMember | src/main/kotlin/com/github/silmeth/json/SimpleJsonGrammar.kt:77 | a parsed member consumes at least one token and stays within the input |
| Grammar.ParseMoreMembers | src/main/kotlin/com/github/silmeth/json/SimpleJsonGrammar.kt:77 | the rest of a member list never fails and never moves backwards |
| Grammar.ParseMembers | src/main/kotlin/com/github/silmeth/json/SimpleJsonGrammar.kt:77 | a member list (zero members accepted) never fails |
| Grammar.ParseMemberList | src/main/kotlin/com/github/silmeth/json/SimpleJsonGrammar.kt:76-78 | a braced member list consumes at least one token and stays within the input |
| Grammar.ParseObject | src/main/kotlin/com/github/silmeth/json/SimpleJsonGrammar.kt:76-81 | an object consumes at least one token and stays within the input |
| Grammar.ParseMoreElements | src/main/kotlin/com/github/silmeth/json/SimpleJsonGrammar.kt:83 | the rest of an element list never fails and never moves backwards |
| Grammar.ParseElements | src/main/kotlin/com/github/silmeth/json/SimpleJsonGrammar.kt:83 | an element list (zero elements accepted) never fails |
| Grammar.ParseArray | src/main/kotlin/com/github/silmeth/json/SimpleJsonGrammar.kt:82-85 | an array consumes at least one token and stays within the input |
| GrammarFacts.NumberStarts | src/main/kotlin/com/github/silmeth/json/SimpleJsonGrammar.kt:59-73 | a number starts with a minus, digits or a dot |
| GrammarFacts.PrimitiveNotOnBracket | src/main/kotlin/com/github/silmeth/json/SimpleJsonGrammar.kt:75 | no primitive starts at `{` or `[` |
| GrammarFacts.ObjectNeedsBrace | src/main/kotlin/com/github/silmeth/json/SimpleJsonGrammar.kt:76 | an object fails unless the current token is `{` |
| GrammarFacts.PrimitiveDispatch | src/main/kotlin/com/github/silmeth/json/SimpleJsonGrammar.kt:75 | the ordered choice of primitives is decided by the kind of the leading token alone |
| GrammarFacts.ValueDispatch | src/main/kotlin/com/github/silmeth/json/SimpleJsonGrammar.kt:86 | a value parse is decided by the leading token: keyword, string, number start, `{` or `[`; anything else fails |
| GrammarFacts.NoValueAt | src/main/kotlin/com/github/silmeth/json/SimpleJsonGrammar.kt:86 | no value starts at `,`, `:`, `}`, `]` or an exponent letter |
| GrammarFacts.PositiveValid | src/main/kotlin/com/github/silmeth/json/SimpleJsonGrammar.kt:62-67 | an unsigned number yields valid parts, consumes tokens and ends on digits or a dot |
| GrammarFacts.NumberShape | src/main/kotlin/com/github/silmeth/json/SimpleJsonGrammar.kt:59-73 | a parsed number's text has the number shape, and it is negative exactly when a minus token comes first |
| GrammarFacts.MantissaSpelling | src/main/kotlin/com/github/silmeth/json/SimpleJsonGrammar.kt:60-66 | a mantissa's text is its consumed tokens spelled out, with a dot that has no digits after it dropped |
| GrammarFacts.PositiveSpelling | src/main/kotlin/com/github/silmeth/json/SimpleJsonGrammar.kt:59-70 | a positive number's text is its consumed tokens spelled out, with `E` lowered to `e` |
| GrammarFacts.NumberSpelling | src/main/kotlin/com/github/silmeth/json/SimpleJsonGrammar.kt:59-73 | a number's text is the tokens consumed after the sign spelled out: digits as they are, `E` lowered to `e`, a dot with no digits after it dropped |
| GrammarFacts.MoreElementsSound | src/main/kotlin/com/github/silmeth/json/SimpleJsonGrammar.kt:83 | the elements after the first are comma-separated values that span exactly the tokens consumed |
| GrammarFacts.ElementsSound | src/main/kotlin/com/github/silmeth/json/SimpleJsonGrammar.kt:83 | the elements of a list are values, in order, spanning exactly the tokens consumed |
| GrammarFacts.MoreElementsComplete | src/main/kotlin/com/github/silmeth/json/SimpleJsonGrammar.kt:83 | comma-separated values not followed by another comma are read exactly, in order |
| GrammarFacts.ElementsComplete | src/main/kotlin/com/github/silmeth/json/SimpleJsonGrammar.kt:83 | a comma-separated run of values (or none, where no value starts) is read exactly, in order |
| GrammarFacts.ArraySound | src/main/kotlin/com/github/silmeth/json/SimpleJsonGrammar.kt:82-85 | a parsed array is `[`, its elements in order, then `]` |
| GrammarFacts.ArrayComplete | src/main/kotlin/com/github/silmeth/json/SimpleJsonGrammar.kt:82-85 | `[`, comma-separated values and `]` parse as the list of those values, in order |
| GrammarFacts.ArrayShape | src/main/kotlin/com/github/silmeth/json/SimpleJsonGrammar.kt:82-85 | an array parses to a list exactly when the tokens are `[`, those values comma-separated in order, then `]` |
| GrammarFacts.MoreMembersSound | src/main/kotlin/com/github/silmeth/json/SimpleJsonGrammar.kt:77 | the members after the first are comma-separated members that span exactly the tokens consumed |
| GrammarFacts.MembersSound | src/main/kotlin/com/github/silmeth/json/SimpleJsonGrammar.kt:77 | the members of a list are parsed members, in order, spanning exactly the tokens consumed |
| GrammarFacts.MoreMembersComplete | src/main/kotlin/com/github/silmeth/json/SimpleJsonGrammar.kt:77 | comma-separated members not followed by another comma are read exactly, in order |
| GrammarFacts.MembersComplete | src/main/kotlin/com/github/silmeth/json/SimpleJsonGrammar.kt:77 | a comma-separated run of members (or none, where no member starts) is read exactly, in order |
| GrammarFacts.MemberListSound | src/main/kotlin/com/github/silmeth/json/SimpleJsonGrammar.kt:76-78 | a parsed member list is `{`, its members in order, then `}` |
| GrammarFacts.MemberListComplete | src/main/kotlin/com/github/silmeth/json/SimpleJsonGrammar.kt:76-78 | `{`, comma-separated members and `}` parse as those members, in order |
| GrammarFacts.MemberListShape | src/main/kotlin/com/github/silmeth/json/SimpleJsonGrammar.kt:76-78 | a member list parses exactly when the tokens are `{`, those members comma-separated in order, then `}` |
| GrammarFacts.MemberShape | src/main/kotlin/com/github/silmeth/json/SimpleJsonGrammar.kt:77 | a member is a string token, a colon, and the value parsed right after the colon |
| GrammarFacts.MemberKey | src/main/kotlin/com/github/silmeth/json/SimpleJsonGrammar.kt:50-57 | a member's key is its string token decoded like any string value |
| GrammarFacts.NumberLastToken | src/main/kotlin/com/github/silmeth/json/SimpleJsonGrammar.kt:59-73 | a number ends on digits or a dot |
| GrammarFacts.ObjectLastToken | src/main/kotlin/com/github/silmeth/json/SimpleJsonGrammar.kt:76-78 | an object ends on `}` |
| GrammarFacts.LeadingTokenLast | src/main/kotlin/com/github/silmeth/json/SimpleJsonGrammar.kt:75-86 | no value chosen by its leading token ends on a comma |
| GrammarFacts.ValueLastToken | src/main/kotlin/com/github/silmeth/json/SimpleJsonGrammar.kt:86 | no value ends on a comma |
| GrammarFacts.ElementsLastToken | src/main/kotlin/com/github/silmeth/json/SimpleJsonGrammar.kt:83 | a nonempty element list ends on a token other than a comma |
| GrammarFacts.MemberLastToken | src/main/kotlin/com/github/silmeth/json/SimpleJsonGrammar.kt:77 | a member ends on a token other than a comma |
| GrammarFacts.MembersLastToken | src/main/kotlin/com/github/silmeth/json/SimpleJsonGrammar.kt:77 | a nonempty member list ends on a token other than a comma |
| GrammarFacts.ArrayNoTrailingComma | src/main/kotlin/com/github/silmeth/json/SimpleJsonGrammar.kt:82-85 | no parsed array has a comma just before its `]` |
| GrammarFacts.ObjectNoTrailingComma | src/main/kotlin/com/github/silmeth/json/SimpleJsonGrammar.kt:76-78 | no parsed object has a comma just before its `}` |
| GrammarFacts.ToMapKeys | src/main/kotlin/com/github/silmeth/json/SimpleJsonGrammar.kt:80 | the map's keys are exactly the members' keys |
| GrammarFacts.ToMapLastWins | src/main/kotlin/com/github/silmeth/json/SimpleJsonGrammar.kt:80 | a key maps to the value of its last occurrence among the members |
| Vectors.TokenizeSingle | src/main/kotlin/com/github/silmeth/json/SimpleJsonGrammar.kt:24-45 | an input that one token pattern matches in full is exactly that one token |
| Vectors.ParseKeyword | src/main/kotlin/com/github/silmeth/json/SimpleJsonGrammar.kt:48-49 | the inputs `null`, `true`, `false` parse to null, true and false |
| Vectors.ParseTrue | src/test/kotlin/com/github/silmeth/json/SimpleJsonGrammarTest.kt:11 | `true` parses to true |
| Vectors.ParseFalse | src/test/kotlin/com/github/silmeth/json/SimpleJsonGrammarTest.kt:12 | `false` parses to false |
| Vectors.ParseNullLiteral | src/test/kotlin/com/github/silmeth/json/SimpleJsonGrammarTest.kt:14 | `null` parses to null |
| Vectors.ParseNul | src/main/kotlin/com/github/silmeth/json/SimpleJsonGrammar.kt:37 | `nul` fails to lex at offset 0 |
| Vectors.ParseNullable | src/main/kotlin/com/github/silmeth/json/SimpleJsonGrammar.kt:37 | `nullable` fails to lex at offset 0: the keyword needs a word boundary |
| Vectors.StringTokenAlone | src/main/kotlin/com/github/silmeth/json/SimpleJsonGrammar.kt:50-57 | a string token alone is a whole input whose value is its text without the quotes, unescaped |
| Vectors.ParseStringLiteral | src/main/kotlin/com/github/silmeth/json/SimpleJsonGrammar.kt:50-57 | any string literal parses to its text without the first and last characters, unescaped |
| Vectors.ParseQuoted | src/main/kotlin/com/github/silmeth/json/SimpleJsonGrammar.kt:50-57 | any value with no backslash before `n r t b f`, escaped and quoted, parses back to that value |
| Vectors.ParsePlainString | src/main/kotlin/com/github/silmeth/json/SimpleJsonGrammar.kt:50-57 | any text without quotes, backslashes or control escapes, quoted, parses to itself |
| Vectors.ParseTestString | src/test/kotlin/com/github/silmeth/json/SimpleJsonGrammarTest.kt:16 | `"test string"` parses to `test string` |
| Vectors.ParseNonAscii | src/test/kotlin/com/github/silmeth/json/SimpleJsonGrammarTest.kt:17-18 | the quoted non-ASCII test text parses to itself |
| Vectors.ParseEscapedString | src/test/kotlin/com/github/silmeth/json/SimpleJsonGrammarTest.kt:19-20 | `"escaped\nstring\tliteral"` parses to the text with a real newline and tab |
| Vectors.ParseAllEscapes | src/test/kotlin/com/github/silmeth/json/SimpleJsonGrammarTest.kt:80 | `"\n\r\"\t\\"` parses to newline, carriage return, quote, tab, backslash |
| Vectors.NumberTokens | src/main/kotlin/com/github/silmeth/json/SimpleJsonGrammar.kt:72-75 | tokens that form one number and nothing more are a whole input with that number as value |
| Vectors.ParseOne | src/test/kotlin/com/github/silmeth/json/SimpleJsonGrammarTest.kt:22 | `1` is the positive number with text `1` |
| Vectors.ParseMinusOne | src/test/kotlin/com/github/silmeth/json/SimpleJsonGrammarTest.kt:23 | `-1` is the negative number with text `1` |
| Vectors.ParseOnePointZero | src/test/kotlin/com/github/silmeth/json/SimpleJsonGrammarTest.kt:24 | `1.0` is the positive number with text `1.0` |
| Vectors.ParseOneEtwo | src/test/kotlin/com/github/silmeth/json/SimpleJsonGrammarTest.kt:25 | `1e2` is the positive number with text `1e2` |
| Vectors.ParseOneDotUpperE | src/test/kotlin/com/github/silmeth/json/SimpleJsonGrammarTest.kt:26 | `1.E2` is the number with text `1e2`: the bare dot adds nothing and `E` becomes `e` |
| Vectors.ParseNegativeWithExponent | src/test/kotlin/com/github/silmeth/json/SimpleJsonGrammarTest.kt:27 | `-1.350e1` is the negative number with text `1.350e1` |
| Vectors.ParseSignedExponent | src/main/kotlin/com/github/silmeth/json/SimpleJsonGrammar.kt:59 | in `1e-5` the exponent takes no sign: the number ends after `1` and the input is rejected at token 1 |
| Vectors.IntegerAt | src/main/kotlin/com/github/silmeth/json/SimpleJsonGrammar.kt:62-67 | digits not followed by a dot or exponent are a positive number with the digits as its text |
| Vectors.PlainStringAt | src/main/kotlin/com/github/silmeth/json/SimpleJsonGrammar.kt:50-57 | a string token without backslashes is the text between its quotes |
| Vectors.ParseOneTwoThree | src/test/kotlin/com/github/silmeth/json/SimpleJsonGrammarTest.kt:50 | `[1, 2, 3]`, and any three integers in brackets, is the list of those numbers in order |
| Vectors.ParseEmptyArray | src/main/kotlin/com/github/silmeth/json/SimpleJsonGrammar.kt:82-85 | `[]` is the empty list |
| Vectors.ParseEmptyObject | src/test/kotlin/com/github/silmeth/json/SimpleJsonGrammarTest.kt:33 | `{}` is the empty map |
| Vectors.ParseTrailingComma | src/main/kotlin/com/github/silmeth/json/SimpleJsonGrammar.kt:82-85 | `[1,]` is rejected: no value can be read |
| Vectors.ParseUnclosedArray | src/main/kotlin/com/github/silmeth/json/SimpleJsonGrammar.kt:82-85 | `[1` is rejected: an array needs its closing bracket |
| Vectors.ParseTrailingTokens | src/main/kotlin/com/github/silmeth/json/SimpleJsonGrammar.kt:87 | `true true` is rejected because a token is left after the value |
| Vectors.BoolMember | src/main/kotlin/com/github/silmeth/json/SimpleJsonGrammar.kt:77 | a key, a colon and a Boolean keyword are one member with the decoded key and that Boolean |
| Vectors.DuplicateKeyMembers | src/main/kotlin/com/github/silmeth/json/SimpleJsonGrammar.kt:77 | `{"a": true, "a": false}` holds both members, in order |
| Vectors.DuplicateKeyMap | src/main/kotlin/com/github/silmeth/json/SimpleJsonGrammar.kt:80 | two members with the same key give a map holding only the later value |
| Vectors.ParseDuplicateKey | src/main/kotlin/com/github/silmeth/json/SimpleJsonGrammar.kt:76-81 | `{"a": true, "a": false}`, and any object repeating one key, is a one-entry map holding the later value |

## Left out

- The conversion of the assembled text to a `Double` (`toDouble`) and the negation for a leading minus. Floating point is not modelled. A number is kept as its sign and decimal text.
- Vectors.ParseOne: states the sign and text `1`, not the double `1.0`, because `toDouble` is not modelled.
- Vectors.ParseMinusOne: states a negative sign and the text `1`, not the double `-1.0`, for the same reason.
- Vectors.ParseOnePointZero: states the text `1.0`, not the double `1.0`, for the same reason.
- Vectors.ParseOneEtwo: states the text `1e2`, not the double `100.0`, for the same reason.
- Vectors.ParseOneDotUpperE: states the text `1e2`, not the double `100.0`, for the same reason.
- Vectors.ParseNegativeWithExponent: states a negative sign and the text `1.350e1`, not the double `-13.5`, for the same reason.
- The internals of better-parse are left out: lazy token production, the kinds and positions of its error results, and the `parser { }` forward reference to `jsonValue`. The model tokenizes the whole input first and then parses it. An input with both a lexing problem and a syntax problem may therefore report a different error than the library does. Whether an input parses, and to what value, is the same.
- Java regex internals are left out. The patterns are modelled by what they match, with ASCII character classes. Before JDK 19, Java's `\b` also counts every Unicode letter and digit as a word character. On such a JDK an input like `nullé` fails to lex at offset 0, while the model lexes `null` and reports `LexError(4)`. Whether an input is accepted, and its value, are the same in both.
- The insertion order of the `LinkedHashMap` that `toMap()` builds is left out. In the library, a duplicate key keeps the position where it first occurred. An object is a Dafny `map`, which has no order.
- `String.replace` with an empty pattern is modelled for completeness but never occurs in the chain.
- The object's singleton nature and the `Grammar<Any?>` base class are left out. The model is a set of functions.
- The multi-field object test, the nested-array test and the large "complex JSON" test of `SimpleJsonGrammarTest.kt` are not worked through as whole inputs. Their parts are covered by the general lemmas (`ArrayShape`, `MemberListShape`, `ToMapKeys`, `ToMapLastWins`, `NumberShape`) and by the escape and non-ASCII vectors.
- Inputs with whitespace, and inputs of more than one token, are stated on token sequences rather than on the text. The lexer lemmas (`TokenizeCovers`, `ScanTakesFirstMatch`) connect the two.
- JSON's own escape rules (section 7 of RFC 8259) read each escape in a single pass. The code's chain of seven `replace` calls differs from that. The model follows the code. `ChainAgrees` proves where the two coincide, and `ChainDiffersOnEscapedBackslash` names an input where they do not.
