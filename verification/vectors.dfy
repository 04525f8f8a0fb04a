/** The inputs of the grammar's own tests, and a few edge cases beside
    them, worked through the model. Inputs of one token go through `Parse`
    from their text; inputs with more tokens are given as the token
    sequences the tokenizer would produce for them and go through
    `ParseTokens`. */
module Vectors {
  import opened Results
  import opened Lexer
  import opened StringValues
  import opened Numbers
  import opened Grammar
  import opened GrammarFacts

  // ---------------------------------------------------------------------
  // Inputs of one token, and keywords

  /** An input whose first match spans all of it scans as that one
      lexeme, for any matcher and any list of patterns. */
  lemma ScanWhole(m: Matcher, ps: seq<Pattern>, s: string, p: Pattern)
    requires Advances(m) && s != [] && FirstMatch(m, s, 0, ps) == Some((p, |s|))
    ensures Scan(m, ps, s, 0) == Ok([Lexeme(p, s)])
  {
    assert Scan(m, ps, s, |s|) == Ok([]);
    assert s[0..|s|] == s;
    assert [Lexeme(p, s)] + [] == [Lexeme(p, s)];
  }

  /** An input one pattern matches entirely scans as one lexeme. */
  lemma ScanSingle(s: string, k: Kind)
    requires Emit(k) in Declared
    requires MatchLength(Emit(k), s, 0) == Some(|s|)
    ensures Advances(MatchLength)
    ensures Scan(MatchLength, Declared, s, 0) == Ok([Lexeme(Emit(k), s)])
  {
    MatchIsFirst(s, 0, Emit(k), |s|);
    MatchLengthAdvances();
    ScanWhole(MatchLength, Declared, s, Emit(k));
  }

  lemma EmittedSingle(k: Kind, t: string)
    ensures Emitted([Lexeme(Emit(k), t)]) == [Token(k, t)]
  {
    assert [Lexeme(Emit(k), t)][1..] == [];
  }

  /** An input one token pattern matches entirely is that one token. */
  lemma TokenizeSingle(s: string, k: Kind)
    requires Emit(k) in Declared
    requires MatchLength(Emit(k), s, 0) == Some(|s|)
    ensures Tokenize(s) == Ok([Token(k, s)])
  {
    ScanSingle(s, k);
    EmittedSingle(k, s);
  }

  /** A keyword alone is its value. */
  lemma ParseKeyword(w: string, k: Kind)
    requires (k == NullKw && w == "null") || (k == TrueKw && w == "true") || (k == FalseKw && w == "false")
    ensures Parse(w) == Ok(if k == NullKw then Null else Bool(k == TrueKw))
  {
    KeywordMatches(w, 0, w, k);
    TokenizeSingle(w, k);
    var ts := [Token(k, w)];
    assert Lexed(ts);
    ValueDispatch(ts, 0);
  }

  lemma ParseTrue()
    ensures Parse("true") == Ok(Bool(true))
  {
    ParseKeyword("true", TrueKw);
  }

  lemma ParseFalse()
    ensures Parse("false") == Ok(Bool(false))
  {
    ParseKeyword("false", FalseKw);
  }

  lemma ParseNullLiteral()
    ensures Parse("null") == Ok(Null)
  {
    ParseKeyword("null", NullKw);
  }

  /** `nul` is not the keyword: it is too short, and nothing else starts
      with `n`. */
  lemma ParseNul()
    ensures Parse("nul") == Err(LexError(0))
  {
    NoMatchAt("nul", 0);
  }

  /** `nullable` holds `null` only as part of a longer word, so the keyword
      does not match and lexing fails at its first character. */
  lemma ParseNullable()
    ensures Parse("nullable") == Err(LexError(0))
  {
    assert IsWordChar("nullable"[4]);
    NoMatchAt("nullable", 0);
  }

  // ---------------------------------------------------------------------
  // Strings

  /** A string literal token alone is read as its value. */
  lemma StringTokenAlone(t: string)
    requires IsStringLiteral(t)
    ensures Lexed([Token(StringLit, t)])
    ensures ParseTokens([Token(StringLit, t)]) == Ok(Str(StringValue(t)))
  {
    var ts := [Token(StringLit, t)];
    assert WellFormedAt(ts, 0);
    ValueDispatch(ts, 0);
  }

  /** An input that is one string literal parses to the literal's value. */
  lemma ParseStringLiteral(t: string)
    requires IsStringLiteral(t)
    ensures Parse(t) == Ok(Str(StringValue(t)))
  {
    assert t[0..|t|] == t;
    StringLiteralMatch(t, 0, |t|);
    TokenizeSingle(t, StringLit);
    StringTokenAlone(t);
  }

  /** A value in which no backslash comes right before one of the letters
      `n r t b f`, escaped and put between quotes, is read back as that
      value. */
  lemma ParseQuoted(v: string)
    requires NoBackslashBeforeLetter(v)
    ensures Parse("\"" + Escape(v) + "\"") == Ok(Str(v))
  {
    var b := Escape(v);
    var s := "\"" + b + "\"";
    EscapeDecode(v);
    assert s[1..|s| - 1] == b;
    ParseStringLiteral(s);
    ChainUndoesEscape(v);
  }

  /** Plain text between quotes is its own value. */
  lemma ParsePlainString(v: string)
    requires forall k | 0 <= k < |v| :: IsPlain(v[k])
    ensures Parse("\"" + v + "\"") == Ok(Str(v))
  {
    EscapePlain(v);
    ParseQuoted(v);
  }

  lemma ParseTestString()
    ensures Parse("\"" + "test string" + "\"") == Ok(Str("test string"))
  {
    ParsePlainString("test string");
  }

  /** Characters outside ASCII come back unchanged. */
  lemma ParseNonAscii()
    ensures Parse("\"" + "\U{015A}\U{01EB}m\U{0119} \U{00DC}ni\U{00E7}o\U{00F0}e characters \U{00D7} 10\U{00B9}\U{2070}\U{2070}" + "\"")
      == Ok(Str("\U{015A}\U{01EB}m\U{0119} \U{00DC}ni\U{00E7}o\U{00F0}e characters \U{00D7} 10\U{00B9}\U{2070}\U{2070}"))
  {
    ParsePlainString("\U{015A}\U{01EB}m\U{0119} \U{00DC}ni\U{00E7}o\U{00F0}e characters \U{00D7} 10\U{00B9}\U{2070}\U{2070}");
  }

  /** Plain text, one character, then more text: only the character and
      the rest are escaped. */
  lemma EscapeAfterPlain(a: string, c: char, b: string)
    requires forall k | 0 <= k < |a| :: IsPlain(a[k])
    ensures Escape(a + [c] + b) == a + EscapeChar(c) + Escape(b)
  {
    EscapePlain(a);
    EscapeAppend(a, [c] + b);
    assert a + [c] + b == a + ([c] + b);
    assert ([c] + b)[1..] == b;
  }

  /** How the test value with a newline and a tab is written in a literal
      body. */
  lemma EscapeTestValue()
    ensures Escape("escaped" + "\n" + "string" + "\t" + "literal") == "escaped" + "\\n" + "string" + "\\t" + "literal"
  {
    var tail := "string" + "\t" + "literal";
    EscapePlain("literal");
    EscapeAfterPlain("string", '\t', "literal");
    assert EscapeChar('\t') == "\\t";
    assert Escape(tail) == "string" + "\\t" + "literal";
    EscapeAfterPlain("escaped", '\n', tail);
    assert EscapeChar('\n') == "\\n";
    assert "escaped" + "\n" + "string" + "\t" + "literal" == "escaped" + ['\n'] + tail;
  }

  /** `\n` and `\t` inside a literal become a newline and a tab. */
  lemma ParseEscapedString()
    ensures Parse("\"" + ("escaped" + "\\n" + "string" + "\\t" + "literal") + "\"")
      == Ok(Str("escaped" + "\n" + "string" + "\t" + "literal"))
  {
    EscapeTestValue();
    ParseQuoted("escaped" + "\n" + "string" + "\t" + "literal");
  }

  /** Every escape the chain handles, with the escaped backslash last:
      newline, carriage return, quote, tab, backslash. */
  lemma ParseAllEscapes()
    ensures Parse("\"" + ("\\n" + "\\r" + "\\\"" + "\\t" + "\\\\") + "\"")
      == Ok(Str("\n" + "\r" + "\"" + "\t" + "\\"))
  {
    var a := "\n" + "\r";
    EscapeAppend("\n", "\r");
    assert Escape("\n") == "\\n" && Escape("\r") == "\\r";
    assert Escape(a) == "\\n" + "\\r";
    var b := a + "\"";
    EscapeAppend(a, "\"");
    assert Escape("\"") == "\\\"";
    assert Escape(b) == "\\n" + "\\r" + "\\\"";
    var c := b + "\t";
    EscapeAppend(b, "\t");
    assert Escape("\t") == "\\t";
    assert Escape(c) == "\\n" + "\\r" + "\\\"" + "\\t";
    EscapeAppend(c, "\\");
    assert Escape("\\") == "\\\\";
    ParseQuoted(c + "\\");
  }

  // ---------------------------------------------------------------------
  // Numbers, as the token sequences of their texts

  /** Tokens that are one number and nothing more parse to that number. */
  lemma NumberTokens(ts: seq<Token>, n: Number)
    requires Lexed(ts) && |ts| > 0 && ts[0].kind in {Minus, Integer, Dot}
    requires ParseNumber(ts, 0) == Parsed(n, |ts|)
    ensures ParseTokens(ts) == Ok(Num(n))
  {
    ValueDispatch(ts, 0);
  }

  /** `1` */
  lemma ParseOne()
    ensures Parse("1") == Ok(Num(Number(false, "1")))
  {
    RunEndMaximal(IsDigit, "1", 0);
    assert MatchLength(Emit(Integer), "1", 0) == Some(1);
    TokenizeSingle("1", Integer);
    var ts := [Token(Integer, "1")];
    var p := Parts(Some("1"), None, None);
    assert ParsePositive(ts, 0) == Parsed(p, 1);
    assert Assemble(p) == "1";
    NumberTokens(ts, Number(false, "1"));
  }

  /** `-1`: the minus is kept as the sign. */
  lemma ParseMinusOne()
    ensures ParseTokens([Token(Minus, "-"), Token(Integer, "1")]) == Ok(Num(Number(true, "1")))
  {
    var ts := [Token(Minus, "-"), Token(Integer, "1")];
    var p := Parts(Some("1"), None, None);
    assert ParsePositive(ts, 1) == Parsed(p, 2);
    assert Assemble(p) == "1";
    NumberTokens(ts, Number(true, "1"));
  }

  /** `1.0` */
  lemma ParseOnePointZero()
    ensures ParseTokens([Token(Integer, "1"), Token(Dot, "."), Token(Integer, "0")])
      == Ok(Num(Number(false, "1.0")))
  {
    var ts := [Token(Integer, "1"), Token(Dot, "."), Token(Integer, "0")];
    var p := Parts(Some("1"), Some("0"), None);
    assert ParseMantissa(ts, 0) == Parsed(p, 3);
    assert Assemble(p) == "1.0";
    NumberTokens(ts, Number(false, "1.0"));
  }

  /** `1e2` */
  lemma ParseOneEtwo()
    ensures ParseTokens([Token(Integer, "1"), Token(Exponent, "e"), Token(Integer, "2")])
      == Ok(Num(Number(false, "1e2")))
  {
    var ts := [Token(Integer, "1"), Token(Exponent, "e"), Token(Integer, "2")];
    var p := Parts(Some("1"), None, Some("2"));
    assert ParseMantissa(ts, 0) == Parsed(Parts(Some("1"), None, None), 1);
    assert ParsePositive(ts, 0) == Parsed(p, 3);
    assert Assemble(p) == "1e2";
    NumberTokens(ts, Number(false, "1e2"));
  }

  /** `1.E2`: the dot without digits adds nothing and the upper-case
      exponent letter becomes `e`. */
  lemma ParseOneDotUpperE()
    ensures ParseTokens([Token(Integer, "1"), Token(Dot, "."), Token(Exponent, "E"), Token(Integer, "2")])
      == Ok(Num(Number(false, "1e2")))
  {
    var ts := [Token(Integer, "1"), Token(Dot, "."), Token(Exponent, "E"), Token(Integer, "2")];
    var p := Parts(Some("1"), None, Some("2"));
    assert ParseMantissa(ts, 0) == Parsed(Parts(Some("1"), None, None), 2);
    assert ParsePositive(ts, 0) == Parsed(p, 4);
    assert Assemble(p) == "1e2";
    NumberTokens(ts, Number(false, "1e2"));
  }

  /** `-1.350e1` */
  lemma ParseNegativeWithExponent()
    ensures ParseTokens([Token(Minus, "-"), Token(Integer, "1"), Token(Dot, "."), Token(Integer, "350"),
                         Token(Exponent, "e"), Token(Integer, "1")])
      == Ok(Num(Number(true, "1.350e1")))
  {
    var ts := [Token(Minus, "-"), Token(Integer, "1"), Token(Dot, "."), Token(Integer, "350"),
               Token(Exponent, "e"), Token(Integer, "1")];
    var p := Parts(Some("1"), Some("350"), Some("1"));
    assert ParseMantissa(ts, 1) == Parsed(Parts(Some("1"), Some("350"), None), 4);
    assert ParsePositive(ts, 1) == Parsed(p, 6);
    assert Assemble(p) == "1.350e1";
    NumberTokens(ts, Number(true, "1.350e1"));
  }

  /** `1e-5`: the exponent takes no sign, so the number ends after `1` and
      the rest is left over. */
  lemma ParseSignedExponent()
    ensures ParseTokens([Token(Integer, "1"), Token(Exponent, "e"), Token(Minus, "-"), Token(Integer, "5")])
      == Err(UnparsedRemainder(1))
  {
  }

  // ---------------------------------------------------------------------
  // Arrays and objects, as token sequences

  /** Digits with no dot or exponent after them are a number of those
      digits. */
  lemma IntegerAt(ts: seq<Token>, i: nat)
    requires Lexed(ts) && At(ts, i, Integer) && !At(ts, i + 1, Dot) && !At(ts, i + 1, Exponent)
    ensures ParseValue(ts, i) == Parsed(Num(Number(false, ts[i].text)), i + 1)
  {
    ValueDispatch(ts, i);
    var p := Parts(Some(ts[i].text), None, None);
    assert ParsePositive(ts, i) == Parsed(p, i + 1);
    assert Assemble(p) == ts[i].text;
  }

  /** Text without backslashes or quotes, between quotes, is a string
      literal. */
  lemma {:induction false} PlainLiteral(body: string)
    requires '\\' !in body && '"' !in body
    ensures IsStringLiteral("\"" + body + "\"")
    decreases |body|
  {
    var t := "\"" + body + "\"";
    assert t[1..|t| - 1] == body;
    if body != [] {
      PlainLiteral(body[1..]);
      var u := "\"" + body[1..] + "\"";
      assert u[1..|u| - 1] == body[1..];
    }
  }

  /** A string token without backslashes is its text between the quotes. */
  lemma PlainStringAt(ts: seq<Token>, i: nat, body: string)
    requires Lexed(ts) && i < |ts| && ts[i] == Token(StringLit, "\"" + body + "\"") && '\\' !in body
    ensures ParseValue(ts, i) == Parsed(Str(body), i + 1)
    ensures ParseString(ts, i) == Parsed(body, i + 1)
  {
    ValueDispatch(ts, i);
    var t := ts[i].text;
    assert t[1..|t| - 1] == body;
    ChainKeepsPlainText(body);
  }

  /** The tokens have the kinds `ks`, one for one. */
  predicate HasKinds(ts: seq<Token>, ks: seq<Kind>) {
    |ts| == |ks| && forall k | 0 <= k < |ts| :: ts[k].kind == ks[k]
  }

  /** The number a single digits token stands for. */
  function DigitsValue(t: Token): Value {
    Num(Number(false, t.text))
  }

  /** The last two elements of `[1, 2, 3]`. */
  lemma LastTwoElements(ts: seq<Token>)
    requires Lexed(ts) && |ts| == 7
    requires ts[3].kind == Integer && ts[4].kind == Comma && ts[5].kind == Integer && ts[6].kind == RBracket
    ensures ElementsSpan(ts, 3, [DigitsValue(ts[3]), DigitsValue(ts[5])], 6)
  {
    IntegerAt(ts, 3);
    IntegerAt(ts, 5);
    var vs := [DigitsValue(ts[3]), DigitsValue(ts[5])];
    assert ElementsSpan(ts, 5, vs[1..], 6);
  }

  /** The three elements of `[1, 2, 3]`, in order. */
  lemma ThreeElements(ts: seq<Token>)
    requires Lexed(ts) && |ts| == 7 && ts[1].kind == Integer && ts[2].kind == Comma
    requires ts[3].kind == Integer && ts[4].kind == Comma && ts[5].kind == Integer && ts[6].kind == RBracket
    ensures ElementsSpan(ts, 1, [DigitsValue(ts[1]), DigitsValue(ts[3]), DigitsValue(ts[5])], 6)
  {
    LastTwoElements(ts);
    IntegerAt(ts, 1);
    var vs := [DigitsValue(ts[1]), DigitsValue(ts[3]), DigitsValue(ts[5])];
    assert vs[1..] == [DigitsValue(ts[3]), DigitsValue(ts[5])];
  }

  /** `[1, 2, 3]`, or any three digit strings in brackets: the elements in
      order. */
  lemma ParseOneTwoThree(ts: seq<Token>)
    requires Lexed(ts) && HasKinds(ts, [LBracket, Integer, Comma, Integer, Comma, Integer, RBracket])
    ensures ParseTokens(ts) == Ok(Arr([DigitsValue(ts[1]), DigitsValue(ts[3]), DigitsValue(ts[5])]))
  {
    ThreeElements(ts);
    var vs := [DigitsValue(ts[1]), DigitsValue(ts[3]), DigitsValue(ts[5])];
    ArrayComplete(ts, 0, vs, 7);
    PrimitiveNotOnBracket(ts, 0);
    ObjectNeedsBrace(ts, 0);
    assert ParseValue(ts, 0) == Parsed(Arr(vs), 7);
  }

  /** `[]` is the empty list. */
  lemma ParseEmptyArray()
    ensures ParseTokens([Token(LBracket, "["), Token(RBracket, "]")]) == Ok(Arr([]))
  {
    var ts := [Token(LBracket, "["), Token(RBracket, "]")];
    ArrayComplete(ts, 0, [], 2);
    ValueDispatch(ts, 0);
  }

  /** `{}` is the empty map. */
  lemma ParseEmptyObject()
    ensures ParseTokens([Token(LBrace, "{"), Token(RBrace, "}")]) == Ok(Obj(map[]))
  {
    var ts := [Token(LBrace, "{"), Token(RBrace, "}")];
    MemberListComplete(ts, 0, [], 2);
    ValueDispatch(ts, 0);
  }

  /** `[1,]`: a trailing comma is not accepted. */
  lemma ParseTrailingComma(ts: seq<Token>)
    requires Lexed(ts) && HasKinds(ts, [LBracket, Integer, Comma, RBracket])
    ensures ParseTokens(ts) == Err(NoValue)
  {
    assert ParseArray(ts, 0).Failed? by {
      if ParseArray(ts, 0).Parsed? {
        ArraySound(ts, 0);
        ArrayNoTrailingComma(ts, 0);
      }
    }
    PrimitiveNotOnBracket(ts, 0);
    ObjectNeedsBrace(ts, 0);
  }

  /** `[1`: an array needs its closing bracket. */
  lemma ParseUnclosedArray(ts: seq<Token>)
    requires Lexed(ts) && HasKinds(ts, [LBracket, Integer])
    ensures ParseTokens(ts) == Err(NoValue)
  {
    assert ParseArray(ts, 0).Failed? by {
      if ParseArray(ts, 0).Parsed? {
        ArraySound(ts, 0);
      }
    }
    PrimitiveNotOnBracket(ts, 0);
    ObjectNeedsBrace(ts, 0);
  }

  /** `true true`: tokens after the value are an error. */
  lemma ParseTrailingTokens()
    ensures ParseTokens([Token(TrueKw, "true"), Token(TrueKw, "true")]) == Err(UnparsedRemainder(1))
  {
  }

  /** The tokens of `{"a": true, "a": false}`, or of any object holding
      the same key twice, first with `true` and then with `false`. */
  predicate DuplicateKey(ts: seq<Token>) {
    |ts| == 9 && ts[0].kind == LBrace
    && ts[1].kind == StringLit && ts[2].kind == Colon && ts[3].kind == TrueKw && ts[4].kind == Comma
    && ts[5].kind == StringLit && ts[6].kind == Colon && ts[7].kind == FalseKw && ts[8].kind == RBrace
    && ts[1].text == ts[5].text && |ts[1].text| >= 2
  }

  /** A key, a colon and a Boolean keyword are one member. */
  lemma BoolMember(ts: seq<Token>, i: nat)
    requires Lexed(ts) && i + 3 <= |ts| && ts[i].kind == StringLit && |ts[i].text| >= 2 && ts[i + 1].kind == Colon
    requires ts[i + 2].kind == TrueKw || ts[i + 2].kind == FalseKw
    ensures ParseMember(ts, i) == Parsed((StringValue(ts[i].text), Bool(ts[i + 2].kind == TrueKw)), i + 3)
  {
    ValueDispatch(ts, i + 2);
  }

  /** The two members of `{"a": true, "a": false}`, in order. */
  lemma DuplicateKeyMembers(ts: seq<Token>)
    requires Lexed(ts) && DuplicateKey(ts)
    ensures MembersSpan(ts, 1, [(StringValue(ts[1].text), Bool(true)), (StringValue(ts[1].text), Bool(false))], 8)
  {
    BoolMember(ts, 1);
    BoolMember(ts, 5);
    var ms := [(StringValue(ts[1].text), Bool(true)), (StringValue(ts[1].text), Bool(false))];
    assert MembersSpan(ts, 5, ms[1..], 8);
  }

  /** Two members with the same key make a map of the later one. */
  lemma DuplicateKeyMap(key: string, first: Value, second: Value)
    ensures ToMap([(key, first), (key, second)]) == map[key := second]
  {
    var ms := [(key, first), (key, second)];
    assert ms[..1] == [(key, first)];
    assert ms[..1][..0] == [];
    assert ToMap(ms[..1]) == map[key := first];
    assert map[key := first][key := second] == map[key := second];
  }

  /** `{"a": true, "a": false}`: the later member wins. */
  lemma ParseDuplicateKey(ts: seq<Token>)
    requires Lexed(ts) && DuplicateKey(ts)
    ensures ParseTokens(ts) == Ok(Obj(map[StringValue(ts[1].text) := Bool(false)]))
  {
    DuplicateKeyMembers(ts);
    var ms := [(StringValue(ts[1].text), Bool(true)), (StringValue(ts[1].text), Bool(false))];
    MemberListComplete(ts, 0, ms, 9);
    DuplicateKeyMap(StringValue(ts[1].text), Bool(true), Bool(false));
    PrimitiveNotOnBracket(ts, 0);
    assert ParseValue(ts, 0) == Parsed(Obj(map[StringValue(ts[1].text) := Bool(false)]), 9);
  }
}
