/** The tokenizer of SimpleJsonGrammar: fifteen declared token patterns, tried
    at the current offset in declaration order; the first that matches wins,
    whitespace matches are dropped, and an offset where nothing matches is a
    lexing failure.

    Character classes are fixed explicitly:
    - `\s` is Java's default class: space, tab, newline, vertical tab, form
      feed, carriage return;
    - `\d` is the ASCII digits;
    - a word character (for `\b`) is an ASCII letter, an ASCII digit or `_`,
      and `\b` looks at the character before the match in the whole input. */
module Lexer {
  import opened Results
  import Seqs

  /** The kinds of the tokens the value parser sees. */
  datatype Kind =
    | StringLit
    | Comma | Colon | LBrace | RBrace | LBracket | RBracket
    | NullKw | TrueKw | FalseKw
    | Integer | Dot | Exponent | Minus

  /** A token: its kind and the exact text it matched. */
  datatype Token = Token(kind: Kind, text: string)

  /** A declared pattern: one that emits a token of some kind, or the
      whitespace pattern, whose matches are ignored. */
  datatype Pattern = Emit(kind: Kind) | Blank

  /** The patterns in the order they are declared. */
  const Declared: seq<Pattern> := [
    Emit(StringLit), Blank,
    Emit(Comma), Emit(Colon), Emit(LBrace), Emit(RBrace), Emit(LBracket), Emit(RBracket),
    Emit(NullKw), Emit(TrueKw), Emit(FalseKw),
    Emit(Integer), Emit(Dot), Emit(Exponent), Emit(Minus)
  ]

  predicate IsSpace(c: char) {
    c == ' ' || c == '\t' || c == '\n' || c == '\U{000B}' || c == '\U{000C}' || c == '\r'
  }

  predicate IsDigit(c: char) { '0' <= c <= '9' }

  predicate IsWordChar(c: char) {
    'a' <= c <= 'z' || 'A' <= c <= 'Z' || IsDigit(c) || c == '_'
  }

  /** The characters allowed after a backslash inside a string literal. */
  predicate IsEscapeSelector(c: char) {
    c == '"' || c == 'n' || c == 'r' || c == 't' || c == 'b' || c == 'f' || c == '\\'
  }

  predicate IsDigits(d: string) {
    |d| > 0 && forall k | 0 <= k < |d| :: IsDigit(d[k])
  }

  /** A literal body as the string pattern describes it: runs of characters
      other than backslash and double quote, and backslash escapes whose
      selector is one of `" n r t b f \`. */
  predicate ValidBody(b: string)
    decreases |b|
  {
    if b == [] then true
    else if b[0] == '\\' then |b| >= 2 && IsEscapeSelector(b[1]) && ValidBody(b[2..])
    else b[0] != '"' && ValidBody(b[1..])
  }

  /** A whole string-literal token text: quote, valid body, quote. */
  predicate IsStringLiteral(t: string) {
    |t| >= 2 && t[0] == '"' && t[|t| - 1] == '"' && ValidBody(t[1..|t| - 1])
  }

  /** What the text of a token of each kind looks like. */
  predicate WellFormed(t: Token) {
    match t.kind
    case StringLit => IsStringLiteral(t.text)
    case Comma => t.text == ","
    case Colon => t.text == ":"
    case LBrace => t.text == "{"
    case RBrace => t.text == "}"
    case LBracket => t.text == "["
    case RBracket => t.text == "]"
    case NullKw => t.text == "null"
    case TrueKw => t.text == "true"
    case FalseKw => t.text == "false"
    case Integer => IsDigits(t.text)
    case Dot => t.text == "."
    case Exponent => t.text == "e" || t.text == "E"
    case Minus => t.text == "-"
  }

  /** The end of the longest run of characters satisfying `P` from `i`
      (`RunEndMaximal`). */
  function RunEnd(P: char -> bool, s: string, i: nat): (j: nat)
    requires i <= |s|
    ensures i <= j <= |s|
    decreases |s| - i
  {
    if i == |s| || !P(s[i]) then i else RunEnd(P, s, i + 1)
  }

  /** `RunEnd` stops at the first character from `i` that fails `P`. */
  lemma {:induction false} RunEndMaximal(P: char -> bool, s: string, i: nat)
    requires i <= |s|
    ensures forall k | i <= k < RunEnd(P, s, i) :: P(s[k])
    ensures RunEnd(P, s, i) == |s| || !P(s[RunEnd(P, s, i)])
    decreases |s| - i
  {
    if i < |s| && P(s[i]) {
      RunEndMaximal(P, s, i + 1);
    }
  }

  /** Scans a literal body from `j`: the offset of its closing quote, or
      None when the input ends first or a backslash is followed by anything
      but an escape selector. */
  function BodyEnd(s: string, j: nat): (r: Option<nat>)
    requires j <= |s|
    ensures r.Some? ==> j <= r.value < |s| && s[r.value] == '"'
    decreases |s| - j
  {
    if j == |s| then None
    else if s[j] == '"' then Some(j)
    else if s[j] == '\\' then
      if j + 1 < |s| && IsEscapeSelector(s[j + 1]) then BodyEnd(s, j + 2) else None
    else BodyEnd(s, j + 1)
  }

  /** The input holds `w` from offset `i` on. */
  predicate HasAt(s: string, i: nat, w: string)
    decreases |w|
  {
    w == [] || (i < |s| && s[i] == w[0] && HasAt(s, i + 1, w[1..]))
  }

  /** `w` occurs at `i` as a whole word (`\bw\b`). */
  predicate KeywordAt(s: string, i: nat, w: string) {
    HasAt(s, i, w) && i + |w| <= |s|
    && (i == 0 || !IsWordChar(s[i - 1]))
    && (i + |w| == |s| || !IsWordChar(s[i + |w|]))
  }

  function SingleChar(s: string, i: nat, c: char): Option<nat>
    requires i < |s|
  {
    if s[i] == c then Some(1) else None
  }

  function Keyword(s: string, i: nat, w: string): Option<nat> {
    if |w| > 0 && KeywordAt(s, i, w) then Some(|w|) else None
  }

  function Run(P: char -> bool, s: string, i: nat): Option<nat>
    requires i <= |s|
  {
    var j := RunEnd(P, s, i);
    if j > i then Some(j - i) else None
  }

  /** How many characters pattern `p` matches at offset `i`, if it
      matches; nothing matches at the end of the input. */
  function MatchLength(p: Pattern, s: string, i: nat): (r: Option<nat>)
    ensures r.Some? ==> i < |s| && 0 < r.value <= |s| - i
  {
    if i >= |s| then None
    else match p
      case Blank => Run(IsSpace, s, i)
      case Emit(k) =>
        match k
        case StringLit =>
          if s[i] != '"' then None
          else (match BodyEnd(s, i + 1)
                case Some(e) => Some(e + 1 - i)
                case None => None)
        case Comma => SingleChar(s, i, ',')
        case Colon => SingleChar(s, i, ':')
        case LBrace => SingleChar(s, i, '{')
        case RBrace => SingleChar(s, i, '}')
        case LBracket => SingleChar(s, i, '[')
        case RBracket => SingleChar(s, i, ']')
        case NullKw => Keyword(s, i, "null")
        case TrueKw => Keyword(s, i, "true")
        case FalseKw => Keyword(s, i, "false")
        case Integer => Run(IsDigit, s, i)
        case Dot => SingleChar(s, i, '.')
        case Exponent => if s[i] == 'e' || s[i] == 'E' then Some(1) else None
        case Minus => SingleChar(s, i, '-')
  }

  // ---------------------------------------------------------------------
  // The scanning loop, for any list of patterns and any matcher

  /** Says how many characters a pattern matches at an offset of an input. */
  type Matcher = (Pattern, string, nat) -> Option<nat>

  /** A matcher never matches an empty text and never runs past the input. */
  ghost predicate Advances(m: Matcher) {
    forall p: Pattern, s: string, i: nat | m(p, s, i).Some? :: i < |s| && 0 < m(p, s, i).value <= |s| - i
  }

  /** No pattern of `ps` before position `k` matches at `i`. */
  predicate NoneBefore(m: Matcher, ps: seq<Pattern>, s: string, i: nat, k: nat)
    requires k <= |ps|
  {
    forall j | 0 <= j < k :: m(ps[j], s, i).None?
  }

  /** `p` is the first pattern of `ps` matching at `i`, and it matches `n`
      characters there. */
  predicate IsFirstMatch(m: Matcher, ps: seq<Pattern>, s: string, i: nat, p: Pattern, n: nat) {
    exists k | 0 <= k < |ps| :: ps[k] == p && m(p, s, i) == Some(n) && NoneBefore(m, ps, s, i, k)
  }

  /** The first pattern of `ps` that matches at `i`, with its length
      (`FirstMatchIsFirst` says it is the first). */
  function FirstMatch(m: Matcher, s: string, i: nat, ps: seq<Pattern>): (r: Option<(Pattern, nat)>)
    ensures r.Some? ==> m(r.value.0, s, i) == Some(r.value.1)
  {
    if ps == [] then None
    else match m(ps[0], s, i)
      case Some(n) => Some((ps[0], n))
      case None => FirstMatch(m, s, i, ps[1..])
  }

  /** `FirstMatch` finds nothing only when no pattern matches, and otherwise
      returns a pattern that matches while every pattern before it does not. */
  lemma {:induction false} FirstMatchIsFirst(m: Matcher, s: string, i: nat, ps: seq<Pattern>)
    ensures FirstMatch(m, s, i, ps).None? ==> NoneBefore(m, ps, s, i, |ps|)
    ensures FirstMatch(m, s, i, ps).Some? ==>
      IsFirstMatch(m, ps, s, i, FirstMatch(m, s, i, ps).value.0, FirstMatch(m, s, i, ps).value.1)
  {
    if ps != [] {
      match m(ps[0], s, i)
      case Some(n) =>
        assert NoneBefore(m, ps, s, i, 0);
      case None =>
        FirstMatchIsFirst(m, s, i, ps[1..]);
        var r := FirstMatch(m, s, i, ps[1..]);
        assert forall n | 0 <= n < |ps[1..]| :: ps[1..][n] == ps[n + 1];
        if r.Some? {
          var k :| 0 <= k < |ps[1..]| && ps[1..][k] == r.value.0 && m(r.value.0, s, i) == Some(r.value.1)
                   && NoneBefore(m, ps[1..], s, i, k);
          assert ps[k + 1] == r.value.0 && NoneBefore(m, ps, s, i, k + 1);
        }
    }
  }

  /** One match of the scanning loop, whitespace included. */
  datatype Lexeme = Lexeme(pattern: Pattern, text: string)

  /** The scanning loop: from offset `i` to the end of the input, or the
      first offset where no pattern matches, which is where a failure is
      reported. */
  function Scan(m: Matcher, ps: seq<Pattern>, s: string, i: nat): Result<seq<Lexeme>, nat>
    requires Advances(m) && i <= |s|
    decreases |s| - i
  {
    if i == |s| then Ok([])
    else match FirstMatch(m, s, i, ps)
      case None => Err(i)
      case Some((p, n)) =>
        match Scan(m, ps, s, i + n)
        case Ok(rest) =>
          var ls := [Lexeme(p, s[i..i + n])] + rest;
          assert ls[1..] == rest;
          Ok(ls)
        case Err(e) => Err(e)
  }

  /** The tokens a lexeme contributes: itself unless it is whitespace. */
  function EmittedHead(l: Lexeme): seq<Token> {
    if l.pattern.Emit? then [Token(l.pattern.kind, l.text)] else []
  }

  /** The lexemes the parser sees: whitespace matches removed. */
  function Emitted(ls: seq<Lexeme>): seq<Token> {
    if ls == [] then [] else EmittedHead(ls[0]) + Emitted(ls[1..])
  }

  /** The token sequence of a whole input, or the offset where lexing fails. */
  function Tokenize(s: string): Result<seq<Token>, nat> {
    assert Advances(MatchLength);
    match Scan(MatchLength, Declared, s, 0)
    case Ok(ls) => Ok(Emitted(ls))
    case Err(p) => Err(p)
  }

  function Texts(ls: seq<Lexeme>): string {
    if ls == [] then [] else ls[0].text + Texts(ls[1..])
  }

  /** The number of input characters the lexemes span. */
  function Width(ls: seq<Lexeme>): nat {
    if ls == [] then 0 else |ls[0].text| + Width(ls[1..])
  }

  // ---------------------------------------------------------------------
  // Properties of the scanning loop

  /** One step of the scanning loop, read back from its result. */
  lemma ScanStep(m: Matcher, ps: seq<Pattern>, s: string, i: nat, ls: seq<Lexeme>)
    requires Advances(m) && i <= |s| && Scan(m, ps, s, i) == Ok(ls) && ls != []
    ensures i < |s| && FirstMatch(m, s, i, ps) == Some((ls[0].pattern, |ls[0].text|))
    ensures i + |ls[0].text| <= |s| && Scan(m, ps, s, i + |ls[0].text|) == Ok(ls[1..])
  {
  }

  /** The text of the first lexeme is the input at the scan offset. */
  lemma ScanStepText(m: Matcher, ps: seq<Pattern>, s: string, i: nat, ls: seq<Lexeme>)
    requires Advances(m) && i <= |s| && Scan(m, ps, s, i) == Ok(ls) && ls != []
    ensures i + |ls[0].text| <= |s| && s[i..i + |ls[0].text|] == ls[0].text
  {
  }

  /** The matched texts, whitespace included, spell out the scanned input
      front to back, and none of them is empty. */
  lemma {:induction false} ScanCovers(m: Matcher, ps: seq<Pattern>, s: string, i: nat, ls: seq<Lexeme>)
    requires Advances(m) && i <= |s| && Scan(m, ps, s, i) == Ok(ls)
    ensures Texts(ls) == s[i..]
    ensures forall k | 0 <= k < |ls| :: ls[k].text != []
    decreases |s| - i
  {
    if i < |s| {
      ScanStep(m, ps, s, i, ls);
      ScanStepText(m, ps, s, i, ls);
      var n := |ls[0].text|;
      ScanCovers(m, ps, s, i + n, ls[1..]);
      assert s[i..] == s[i..i + n] + s[i + n..];
      assert forall k | 1 <= k < |ls| :: ls[k] == ls[1..][k - 1];
    }
  }

  /** Splitting off the first of the first `k` lexemes. */
  lemma WidthStep(ls: seq<Lexeme>, k: nat)
    requires 0 < k <= |ls|
    ensures Width(ls[..k]) == |ls[0].text| + Width(ls[1..][..k - 1])
    ensures ls[1..][k - 1..] == ls[k..]
  {
    assert ls[..k][1..] == ls[1..][..k - 1];
  }

  /** Scanning resumes after the first `k` lexemes exactly where they end. */
  lemma {:induction false} ScanSuffix(m: Matcher, ps: seq<Pattern>, s: string, i: nat, ls: seq<Lexeme>, k: nat)
    requires Advances(m) && i <= |s| && Scan(m, ps, s, i) == Ok(ls) && k <= |ls|
    ensures i + Width(ls[..k]) <= |s|
    ensures Scan(m, ps, s, i + Width(ls[..k])) == Ok(ls[k..])
    decreases k
  {
    if k == 0 {
      assert ls[..k] == [] && ls[k..] == ls;
    } else {
      ScanStep(m, ps, s, i, ls);
      ScanSuffix(m, ps, s, i + |ls[0].text|, ls[1..], k - 1);
      WidthStep(ls, k);
    }
  }

  /** Every lexeme is the first pattern that matches at its offset, taken
      with the length that pattern matches. */
  lemma ScanTakesFirstMatch(m: Matcher, ps: seq<Pattern>, s: string, i: nat, ls: seq<Lexeme>, k: nat)
    requires Advances(m) && i <= |s| && Scan(m, ps, s, i) == Ok(ls) && k < |ls|
    ensures i + Width(ls[..k]) < |s|
    ensures IsFirstMatch(m, ps, s, i + Width(ls[..k]), ls[k].pattern, |ls[k].text|)
  {
    ScanSuffix(m, ps, s, i, ls, k);
    var o := i + Width(ls[..k]);
    ScanStep(m, ps, s, o, ls[k..]);
    FirstMatchIsFirst(m, s, o, ps);
  }

  /** A lexing failure is reported at an offset where no pattern matches. */
  lemma {:induction false} ScanFailsWhereNothingMatches(m: Matcher, ps: seq<Pattern>, s: string, i: nat, p: nat)
    requires Advances(m) && i <= |s| && Scan(m, ps, s, i) == Err(p)
    ensures i <= p < |s|
    ensures NoneBefore(m, ps, s, p, |ps|)
    decreases |s| - i
  {
    match FirstMatch(m, s, i, ps)
    case None =>
      FirstMatchIsFirst(m, s, i, ps);
    case Some((q, n)) =>
      ScanFailsWhereNothingMatches(m, ps, s, i + n, p);
  }

  // ---------------------------------------------------------------------
  // Properties of the declared patterns

  lemma MatchLengthAdvances()
    ensures Advances(MatchLength)
  {
  }

  /** The only characters a match of each pattern can start with. */
  predicate CanStart(p: Pattern, c: char) {
    match p
    case Blank => IsSpace(c)
    case Emit(k) =>
      match k
      case StringLit => c == '"'
      case Comma => c == ','
      case Colon => c == ':'
      case LBrace => c == '{'
      case RBrace => c == '}'
      case LBracket => c == '['
      case RBracket => c == ']'
      case NullKw => c == 'n'
      case TrueKw => c == 't'
      case FalseKw => c == 'f'
      case Integer => IsDigit(c)
      case Dot => c == '.'
      case Exponent => c == 'e' || c == 'E'
      case Minus => c == '-'
  }

  lemma MatchStarts(p: Pattern, s: string, i: nat)
    requires MatchLength(p, s, i).Some?
    ensures i < |s| && CanStart(p, s[i])
  {
  }

  /** At most one declared pattern matches at any offset, so the order of
      declaration never changes which token is taken. */
  lemma PatternsExclusive(s: string, i: nat, p: Pattern, q: Pattern)
    requires MatchLength(p, s, i).Some? && MatchLength(q, s, i).Some?
    ensures p == q
  {
    MatchStarts(p, s, i);
    MatchStarts(q, s, i);
  }

  /** Any declared pattern that matches is the one the scanning loop
      takes. */
  lemma MatchIsFirst(s: string, i: nat, p: Pattern, n: nat)
    requires p in Declared && MatchLength(p, s, i) == Some(n)
    ensures FirstMatch(MatchLength, s, i, Declared) == Some((p, n))
  {
    FirstMatchIsFirst(MatchLength, s, i, Declared);
    var r := FirstMatch(MatchLength, s, i, Declared);
    if r.Some? {
      PatternsExclusive(s, i, p, r.value.0);
    }
  }

  /** Where no pattern that can start with the current character matches,
      the scanning loop finds no match. */
  lemma NoMatchAt(s: string, i: nat)
    requires i < |s|
    requires forall p: Pattern | CanStart(p, s[i]) :: MatchLength(p, s, i).None?
    ensures FirstMatch(MatchLength, s, i, Declared).None?
  {
    var r := FirstMatch(MatchLength, s, i, Declared);
    if r.Some? {
      MatchStarts(r.value.0, s, i);
    }
  }

  /** The tokenizer fails only at an offset where no declared pattern
      matches. */
  lemma TokenizeFailsWhereNothingMatches(s: string, p: nat)
    requires Tokenize(s) == Err(p)
    ensures p < |s|
    ensures forall n | 0 <= n < |Declared| :: MatchLength(Declared[n], s, p).None?
  {
    ScanFailsWhereNothingMatches(MatchLength, Declared, s, 0, p);
  }

  /** The tokens the parser sees are the non-whitespace lexemes; together
      with the dropped whitespace their texts spell out the whole input. */
  lemma TokenizeCovers(s: string)
    requires Tokenize(s).Ok?
    ensures Texts(Scan(MatchLength, Declared, s, 0).value) == s
    ensures forall t :: t in Tokenize(s).value <==>
      exists l :: l in Scan(MatchLength, Declared, s, 0).value
        && l.pattern.Emit? && t == Token(l.pattern.kind, l.text)
    ensures var ls := Scan(MatchLength, Declared, s, 0).value;
      forall k | 0 <= k <= |ls| :: Tokenize(s).value == Emitted(ls[..k]) + Emitted(ls[k..])
  {
    ScanCovers(MatchLength, Declared, s, 0, Scan(MatchLength, Declared, s, 0).value);
    EmittedMembers(Scan(MatchLength, Declared, s, 0).value);
    EmittedSplit(Scan(MatchLength, Declared, s, 0).value);
  }

  /** A token is emitted exactly when some non-whitespace lexeme carries its
      kind and text. */
  lemma {:induction false} EmittedMembers(ls: seq<Lexeme>)
    ensures forall t :: t in Emitted(ls) <==>
      exists l :: l in ls && l.pattern.Emit? && t == Token(l.pattern.kind, l.text)
  {
    if ls != [] {
      EmittedMembers(ls[1..]);
      assert ls == [ls[0]] + ls[1..];
      forall l | l in ls
        ensures l == ls[0] || l in ls[1..]
      {
      }
    }
  }

  /** Tokens keep the order of their lexemes: the tokens of the first `k`
      lexemes come before those of the rest. */
  lemma EmittedSplit(ls: seq<Lexeme>)
    ensures forall k | 0 <= k <= |ls| :: Emitted(ls) == Emitted(ls[..k]) + Emitted(ls[k..])
  {
    forall k | 0 <= k <= |ls|
      ensures Emitted(ls) == Emitted(ls[..k]) + Emitted(ls[k..])
    {
      EmittedSplitAt(ls, k);
    }
  }

  lemma {:induction false} EmittedSplitAt(ls: seq<Lexeme>, k: nat)
    requires k <= |ls|
    ensures Emitted(ls) == Emitted(ls[..k]) + Emitted(ls[k..])
    decreases k
  {
    if k == 0 {
      assert ls[..0] == [] && ls[0..] == ls;
    } else {
      var rest := ls[1..];
      EmittedSplitAt(rest, k - 1);
      assert ls[..k][0] == ls[0] && ls[..k][1..] == rest[..k - 1];
      assert ls[k..] == rest[k - 1..];
      calc {
        Emitted(ls);
        EmittedHead(ls[0]) + Emitted(rest);
        EmittedHead(ls[0]) + (Emitted(rest[..k - 1]) + Emitted(rest[k - 1..]));
        (EmittedHead(ls[..k][0]) + Emitted(ls[..k][1..])) + Emitted(ls[k..]);
        Emitted(ls[..k]) + Emitted(ls[k..]);
      }
    }
  }

  // ---------------------------------------------------------------------
  // Keywords

  lemma {:induction false} HasAtSlice(s: string, i: nat, w: string)
    requires i <= |s|
    ensures HasAt(s, i, w) <==> i + |w| <= |s| && s[i..i + |w|] == w
    decreases |w|
  {
    if w != [] {
      if i < |s| {
        HasAtSlice(s, i + 1, w[1..]);
      }
      if i + |w| <= |s| {
        var t := s[i..i + |w|];
        Seqs.SliceOfSlice(s, i, i + |w|, 1, |w|);
        assert t[1..] == s[i + 1..i + 1 + |w[1..]|];
        assert t[0] == s[i];
        if s[i] == w[0] && t[1..] == w[1..] {
          assert t == [t[0]] + t[1..] && w == [w[0]] + w[1..];
        }
      }
    }
  }

  /** A keyword with no word character on either side matches, as
      exactly its own characters. */
  lemma KeywordMatches(s: string, i: nat, w: string, k: Kind)
    requires (k == NullKw && w == "null") || (k == TrueKw && w == "true") || (k == FalseKw && w == "false")
    requires i + |w| <= |s| && s[i..i + |w|] == w
    requires (i == 0 || !IsWordChar(s[i - 1])) && (i + |w| == |s| || !IsWordChar(s[i + |w|]))
    ensures MatchLength(Emit(k), s, i) == Some(|w|)
  {
    HasAtSlice(s, i, w);
  }

  /** A keyword spelled inside a longer word matches no declared pattern, so
      lexing stops there: keywords are only recognised as whole words. */
  lemma KeywordNeedsBoundary(s: string, i: nat, w: string)
    requires w == "null" || w == "true" || w == "false"
    requires i + |w| <= |s| && s[i..i + |w|] == w
    requires (0 < i && IsWordChar(s[i - 1])) || (i + |w| < |s| && IsWordChar(s[i + |w|]))
    ensures forall n | 0 <= n < |Declared| :: MatchLength(Declared[n], s, i).None?
  {
    assert s[i] == s[i..i + |w|][0] == w[0];
    forall n | 0 <= n < |Declared|
      ensures MatchLength(Declared[n], s, i).None?
    {
      var p := Declared[n];
      if p == Emit(NullKw) || p == Emit(TrueKw) || p == Emit(FalseKw) {
        var v := if p == Emit(NullKw) then "null" else if p == Emit(TrueKw) then "true" else "false";
        if v == w {
          assert !KeywordAt(s, i, v);
        } else {
          HasAtSlice(s, i, v);
        }
      } else if MatchLength(p, s, i).Some? {
        MatchStarts(p, s, i);
      }
    }
  }

  // ---------------------------------------------------------------------
  // String literals

  /** The scanned body up to the closing quote is a valid literal body. */
  lemma {:induction false} BodyEndSound(s: string, j: nat)
    requires j <= |s| && BodyEnd(s, j).Some?
    ensures ValidBody(s[j..BodyEnd(s, j).value])
    decreases |s| - j
  {
    var e := BodyEnd(s, j).value;
    if s[j] == '"' {
      assert s[j..e] == [];
    } else if s[j] == '\\' {
      BodyEndSound(s, j + 2);
      assert s[j..e][2..] == s[j + 2..e];
    } else {
      BodyEndSound(s, j + 1);
      assert s[j..e][1..] == s[j + 1..e];
    }
  }

  /** A valid body followed by a quote is scanned up to that quote. */
  lemma {:induction false} BodyEndComplete(s: string, j: nat, e: nat)
    requires j <= e < |s| && s[e] == '"' && ValidBody(s[j..e])
    ensures BodyEnd(s, j) == Some(e)
    decreases e - j
  {
    if j < e {
      var b := s[j..e];
      assert b[0] == s[j];
      if s[j] == '\\' {
        assert b[1] == s[j + 1] && b[2..] == s[j + 2..e];
        BodyEndComplete(s, j + 2, e);
      } else {
        assert b[1..] == s[j + 1..e];
        BodyEndComplete(s, j + 1, e);
      }
    }
  }

  /** The string pattern matches `n` characters at `i` exactly when those
      characters are a quote, a valid body and a quote; in particular any
      other escape, such as `\u`, is refused. */
  lemma StringLiteralMatch(s: string, i: nat, n: nat)
    ensures MatchLength(Emit(StringLit), s, i) == Some(n) <==> i + n <= |s| && IsStringLiteral(s[i..i + n])
  {
    if MatchLength(Emit(StringLit), s, i) == Some(n) {
      var e := BodyEnd(s, i + 1).value;
      assert n == e + 1 - i;
      BodyEndSound(s, i + 1);
      Seqs.SliceOfSlice(s, i, i + n, 1, n - 1);
    }
    if i + n <= |s| && IsStringLiteral(s[i..i + n]) {
      var t := s[i..i + n];
      assert |t| == n;
      assert t[0] == s[i] && t[n - 1] == s[i + n - 1];
      Seqs.SliceOfSlice(s, i, i + n, 1, n - 1);
      BodyEndComplete(s, i + 1, i + n - 1);
    }
  }

  // ---------------------------------------------------------------------
  // Token texts

  /** Each emitted token's text has the shape of its kind. */
  lemma MatchWellFormed(k: Kind, s: string, i: nat, n: nat)
    requires MatchLength(Emit(k), s, i) == Some(n)
    ensures WellFormed(Token(k, s[i..i + n]))
  {
    match k
    case StringLit => StringLiteralMatch(s, i, n);
    case NullKw => HasAtSlice(s, i, "null");
    case TrueKw => HasAtSlice(s, i, "true");
    case FalseKw => HasAtSlice(s, i, "false");
    case Integer =>
      RunEndMaximal(IsDigit, s, i);
      var t := s[i..i + n];
      forall j | 0 <= j < n ensures IsDigit(t[j]) {
        assert t[j] == s[i + j];
      }
    case _ =>
  }

  /** Every token a matcher emits has the shape of its kind. */
  ghost predicate EmitsWellFormed(m: Matcher) {
    forall k: Kind, s: string, i: nat | m(Emit(k), s, i).Some? ::
      i + m(Emit(k), s, i).value <= |s| && WellFormed(Token(k, s[i..i + m(Emit(k), s, i).value]))
  }

  lemma MatchLengthEmitsWellFormed()
    ensures EmitsWellFormed(MatchLength)
  {
    forall k: Kind, s: string, i: nat | MatchLength(Emit(k), s, i).Some?
      ensures i + MatchLength(Emit(k), s, i).value <= |s|
      ensures WellFormed(Token(k, s[i..i + MatchLength(Emit(k), s, i).value]))
    {
      MatchWellFormed(k, s, i, MatchLength(Emit(k), s, i).value);
    }
  }

  /** The tokens of the first lexeme, then those of the rest. */
  lemma EmittedCons(ls: seq<Lexeme>)
    requires ls != []
    ensures Emitted(ls) == EmittedHead(ls[0]) + Emitted(ls[1..])
  {
  }

  /** A lexeme that a well-forming matcher matched at `i` contributes only
      well-formed tokens. */
  lemma HeadWellFormed(m: Matcher, s: string, i: nat, l: Lexeme)
    requires EmitsWellFormed(m) && m(l.pattern, s, i) == Some(|l.text|)
    requires i + |l.text| <= |s| && s[i..i + |l.text|] == l.text
    ensures forall t | t in EmittedHead(l) :: WellFormed(t)
  {
    if l.pattern.Emit? {
      assert m(Emit(l.pattern.kind), s, i).Some?;
    }
  }

  lemma WellFormedJoin(a: seq<Token>, b: seq<Token>)
    requires forall t | t in a :: WellFormed(t)
    requires forall t | t in b :: WellFormed(t)
    ensures forall t | t in a + b :: WellFormed(t)
  {
  }

  lemma {:induction false} EmittedWellFormed(m: Matcher, ps: seq<Pattern>, s: string, i: nat, ls: seq<Lexeme>)
    requires Advances(m) && EmitsWellFormed(m)
    requires i <= |s| && Scan(m, ps, s, i) == Ok(ls)
    ensures forall t | t in Emitted(ls) :: WellFormed(t)
    decreases |s| - i
  {
    if ls != [] {
      var n := |ls[0].text|;
      ScanStep(m, ps, s, i, ls);
      ScanStepText(m, ps, s, i, ls);
      EmittedWellFormed(m, ps, s, i + n, ls[1..]);
      HeadWellFormed(m, s, i, ls[0]);
      EmittedCons(ls);
      WellFormedJoin(EmittedHead(ls[0]), Emitted(ls[1..]));
    }
  }

  /** Every token the tokenizer emits is well formed for its kind. */
  lemma TokenizeWellFormed(s: string, ts: seq<Token>)
    requires Tokenize(s) == Ok(ts)
    ensures forall t | t in ts :: WellFormed(t)
  {
    MatchLengthAdvances();
    MatchLengthEmitsWellFormed();
    EmittedWellFormed(MatchLength, Declared, s, 0, Scan(MatchLength, Declared, s, 0).value);
  }
}
