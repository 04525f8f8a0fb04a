/** Properties of the value grammar: the leading token alone picks the
    alternative, arrays and objects are exactly the bracketed comma lists
    (no trailing comma), duplicate keys resolve to their last occurrence,
    and number texts have the decimal shape. */
module GrammarFacts {
  import opened Results
  import opened Lexer
  import opened StringValues
  import opened Numbers
  import opened Grammar

  // ---------------------------------------------------------------------
  // The leading token decides

  function NumberValue(r: Parsed<Number>): Parsed<Value> {
    match r
    case Parsed(n, j) => Parsed(Num(n), j)
    case Failed => Failed
  }

  /** A value parser that looks only at the kind of the first token to
      choose what to parse. */
  function ByLeadingToken(ts: seq<Token>, i: nat): Parsed<Value>
    requires Lexed(ts) && i <= |ts|
  {
    if i == |ts| then Failed
    else match ts[i].kind
      case NullKw => Parsed(Null, i + 1)
      case TrueKw => Parsed(Bool(true), i + 1)
      case FalseKw => Parsed(Bool(false), i + 1)
      case StringLit =>
        assert WellFormedAt(ts, i);
        Parsed(Str(StringValue(ts[i].text)), i + 1)
      case Minus => NumberValue(ParseNumber(ts, i))
      case Integer => NumberValue(ParseNumber(ts, i))
      case Dot => NumberValue(ParseNumber(ts, i))
      case LBrace => ParseObject(ts, i)
      case LBracket => ParseArray(ts, i)
      case _ => Failed
  }

  /** A number starts with a minus, digits or a dot. */
  lemma NumberStarts(ts: seq<Token>, i: nat)
    requires ParseNumber(ts, i).Parsed?
    ensures At(ts, i, Minus) || At(ts, i, Integer) || At(ts, i, Dot)
  {
  }

  /** No primitive starts with an opening brace or bracket. */
  lemma PrimitiveNotOnBracket(ts: seq<Token>, i: nat)
    requires Lexed(ts) && i < |ts| && (ts[i].kind == LBrace || ts[i].kind == LBracket)
    ensures ParsePrimitive(ts, i).Failed?
  {
    if ParseNumber(ts, i).Parsed? {
      NumberStarts(ts, i);
    }
  }

  /** An object starts with an opening brace. */
  lemma ObjectNeedsBrace(ts: seq<Token>, i: nat)
    requires Lexed(ts) && i <= |ts| && !At(ts, i, LBrace)
    ensures ParseObject(ts, i).Failed?
  {
    assert ParseMemberList(ts, i).Failed?;
  }

  /** A primitive is read from the kind of its first token. */
  lemma PrimitiveDispatch(ts: seq<Token>, i: nat)
    requires Lexed(ts) && i < |ts| && ts[i].kind != LBrace && ts[i].kind != LBracket
    ensures ParsePrimitive(ts, i) == ByLeadingToken(ts, i)
  {
    if ParseNumber(ts, i).Parsed? {
      NumberStarts(ts, i);
    }
  }

  /** The ordered choice of the value grammar never depends on an earlier
      alternative failing part way: the kind of the first token selects the
      one alternative that can succeed. */
  lemma ValueDispatch(ts: seq<Token>, i: nat)
    requires Lexed(ts) && i <= |ts|
    ensures ParseValue(ts, i) == ByLeadingToken(ts, i)
  {
    if i == |ts| {
      ObjectNeedsBrace(ts, i);
    } else if ts[i].kind == LBrace || ts[i].kind == LBracket {
      PrimitiveNotOnBracket(ts, i);
      if ts[i].kind == LBracket {
        ObjectNeedsBrace(ts, i);
      }
    } else {
      PrimitiveDispatch(ts, i);
      ObjectNeedsBrace(ts, i);
    }
  }

  /** No value starts with a comma, a colon, a closing bracket or brace, or
      an exponent letter. */
  lemma NoValueAt(ts: seq<Token>, i: nat)
    requires Lexed(ts) && i < |ts|
    requires ts[i].kind in {Comma, Colon, RBrace, RBracket, Exponent}
    ensures ParseValue(ts, i).Failed?
  {
    ValueDispatch(ts, i);
  }

  // ---------------------------------------------------------------------
  // Numbers

  lemma DigitsAt(ts: seq<Token>, k: nat)
    requires Lexed(ts) && At(ts, k, Integer)
    ensures IsDigits(ts[k].text)
  {
    assert WellFormedAt(ts, k);
  }

  /** A positive number supplies valid parts, read from number tokens, and
      its last token is digits or a dot. */
  lemma PositiveValid(ts: seq<Token>, i: nat)
    requires Lexed(ts) && ParsePositive(ts, i).Parsed?
    ensures ValidParts(ParsePositive(ts, i).value)
    ensures i < ParsePositive(ts, i).next <= |ts|
    ensures At(ts, ParsePositive(ts, i).next - 1, Integer) || At(ts, ParsePositive(ts, i).next - 1, Dot)
  {
    var j := ParseMantissa(ts, i).next;
    if At(ts, i, Integer) { DigitsAt(ts, i); }
    if At(ts, i + 1, Integer) { DigitsAt(ts, i + 1); }
    if At(ts, i + 2, Integer) { DigitsAt(ts, i + 2); }
    if At(ts, j + 1, Integer) { DigitsAt(ts, j + 1); }
  }

  /** The text of a parsed number has the decimal shape
      `digits ['.' digits] ['e' digits]` or `'.' digits ['e' digits]`, and
      the number is negative exactly when it starts with a minus. */
  lemma NumberShape(ts: seq<Token>, i: nat)
    requires Lexed(ts) && ParseNumber(ts, i).Parsed?
    ensures IsNumberText(ParseNumber(ts, i).value.text)
    ensures ParseNumber(ts, i).value.negative <==> At(ts, i, Minus)
  {
    var j := if At(ts, i, Minus) then i + 1 else i;
    PositiveValid(ts, j);
    AssembleShape(ParsePositive(ts, j).value);
  }

  /** What one token of a number contributes to its text: an exponent
      letter becomes `e`, a dot with no digits after it (before `b`)
      contributes nothing, and any other token contributes its own text. */
  function SpelledHead(ts: seq<Token>, a: nat, b: nat): string
    requires a < b <= |ts|
  {
    if ts[a].kind == Exponent then "e"
    else if ts[a].kind == Dot && !(a + 1 < b && ts[a + 1].kind == Integer) then ""
    else ts[a].text
  }

  /** The text the tokens from `a` to `b` spell as a number. */
  function Spelled(ts: seq<Token>, a: nat, b: nat): string
    requires a <= b <= |ts|
    decreases b - a
  {
    if a == b then [] else SpelledHead(ts, a, b) + Spelled(ts, a + 1, b)
  }

  /** Spelling splits at `k` unless a dot just before `k` has digits
      right after it. */
  lemma {:induction false} SpelledJoin(ts: seq<Token>, a: nat, k: nat, b: nat)
    requires a <= k <= b <= |ts|
    requires a < k && ts[k - 1].kind == Dot && k < b ==> ts[k].kind != Integer
    ensures Spelled(ts, a, b) == Spelled(ts, a, k) + Spelled(ts, k, b)
    decreases k - a
  {
    if a < k {
      SpelledJoin(ts, a + 1, k, b);
      assert SpelledHead(ts, a, k) == SpelledHead(ts, a, b);
    }
  }

  /** A mantissa's text is spelled by its tokens. */
  lemma MantissaSpelling(ts: seq<Token>, s: nat)
    requires Lexed(ts) && ParseMantissa(ts, s).Parsed?
    ensures s < ParseMantissa(ts, s).next <= |ts|
    ensures Spelled(ts, s, ParseMantissa(ts, s).next) == Mantissa(ParseMantissa(ts, s).value)
  {
    var m := ParseMantissa(ts, s).next;
    assert Spelled(ts, m, m) == [];
    if At(ts, s, Integer) {
      if m == s + 3 {
        assert WellFormedAt(ts, s + 1);
        assert Spelled(ts, s + 2, m) == ts[s + 2].text;
        assert Spelled(ts, s + 1, m) == "." + ts[s + 2].text;
      } else if m == s + 2 {
        assert Spelled(ts, s + 1, m) == "";
      }
      assert Spelled(ts, s, m) == ts[s].text + Spelled(ts, s + 1, m);
    } else {
      assert WellFormedAt(ts, s);
      assert Spelled(ts, s + 1, m) == ts[s + 1].text;
    }
  }

  /** A positive number's text is spelled by its tokens. */
  lemma PositiveSpelling(ts: seq<Token>, s: nat)
    requires Lexed(ts) && ParsePositive(ts, s).Parsed?
    ensures s < ParsePositive(ts, s).next <= |ts|
    ensures Spelled(ts, s, ParsePositive(ts, s).next) == Assemble(ParsePositive(ts, s).value)
  {
    MantissaSpelling(ts, s);
    var p := ParseMantissa(ts, s).value;
    var m := ParseMantissa(ts, s).next;
    var j := ParsePositive(ts, s).next;
    SpelledJoin(ts, s, m, j);
    if j == m {
      assert Spelled(ts, m, j) == [];
      assert ParsePositive(ts, s).value == p;
    } else {
      var e := ts[m + 1].text;
      assert Spelled(ts, m + 1, j) == e;
      assert Spelled(ts, m, j) == "e" + e;
      assert ParsePositive(ts, s).value == p.(expDigits := Some(e));
      assert Mantissa(p.(expDigits := Some(e))) == Mantissa(p);
    }
  }

  /** A number's text is spelled by the tokens it consumed after the sign:
      the digits as they are, `E` lowered to `e`, and a dot with no digits
      after it dropped. */
  lemma NumberSpelling(ts: seq<Token>, i: nat)
    requires Lexed(ts) && ParseNumber(ts, i).Parsed?
    ensures i < ParseNumber(ts, i).next <= |ts|
    ensures At(ts, i, Minus) ==> i + 1 < ParseNumber(ts, i).next
    ensures At(ts, i, Minus) ==>
      ParseNumber(ts, i).value.text == Spelled(ts, i + 1, ParseNumber(ts, i).next)
    ensures !At(ts, i, Minus) ==>
      ParseNumber(ts, i).value.text == Spelled(ts, i, ParseNumber(ts, i).next)
  {
    PositiveSpelling(ts, if At(ts, i, Minus) then i + 1 else i);
  }

  // ---------------------------------------------------------------------
  // Arrays

  /** From `i` on, the tokens hold the values `vs` separated by commas,
      ending at `e`. */
  predicate ElementsSpan(ts: seq<Token>, i: nat, vs: seq<Value>, e: nat)
    requires Lexed(ts) && i <= |ts|
    decreases |vs|, 1
  {
    if vs == [] then e == i
    else match ParseValue(ts, i)
      case Failed => false
      case Parsed(v, k) => v == vs[0] && MoreElementsSpan(ts, k, vs[1..], e)
  }

  /** From `k` on: nothing more (`e == k`), or a comma and further values. */
  predicate MoreElementsSpan(ts: seq<Token>, k: nat, rest: seq<Value>, e: nat)
    requires Lexed(ts) && k <= |ts|
    decreases |rest|, 2
  {
    if rest == [] then e == k
    else At(ts, k, Comma) && ElementsSpan(ts, k + 1, rest, e)
  }

  lemma {:induction false} MoreElementsSound(ts: seq<Token>, k: nat)
    requires Lexed(ts) && k <= |ts|
    ensures MoreElementsSpan(ts, k, ParseMoreElements(ts, k).value, ParseMoreElements(ts, k).next)
    decreases |ts| - k
  {
    if At(ts, k, Comma) {
      match ParseValue(ts, k + 1)
      case Failed =>
      case Parsed(v, j) =>
        MoreElementsSound(ts, j);
        var rest := ParseMoreElements(ts, j);
        assert ([v] + rest.value)[1..] == rest.value;
    }
  }

  lemma ElementsSound(ts: seq<Token>, i: nat)
    requires Lexed(ts) && i <= |ts|
    ensures ElementsSpan(ts, i, ParseElements(ts, i).value, ParseElements(ts, i).next)
  {
    match ParseValue(ts, i)
    case Failed =>
    case Parsed(v, j) =>
      MoreElementsSound(ts, j);
      var rest := ParseMoreElements(ts, j);
      assert ([v] + rest.value)[1..] == rest.value;
  }

  lemma {:induction false} MoreElementsComplete(ts: seq<Token>, k: nat, rest: seq<Value>, e: nat)
    requires Lexed(ts) && k <= |ts| && MoreElementsSpan(ts, k, rest, e) && !At(ts, e, Comma)
    ensures ParseMoreElements(ts, k) == Parsed(rest, e)
    decreases |rest|
  {
    if rest != [] {
      var j := ParseValue(ts, k + 1).next;
      MoreElementsComplete(ts, j, rest[1..], e);
      assert rest == [rest[0]] + rest[1..];
    }
  }

  lemma ElementsComplete(ts: seq<Token>, i: nat, vs: seq<Value>, e: nat)
    requires Lexed(ts) && i <= |ts| && ElementsSpan(ts, i, vs, e) && !At(ts, e, Comma)
    requires vs == [] ==> ParseValue(ts, i).Failed?
    ensures ParseElements(ts, i) == Parsed(vs, e)
  {
    if vs != [] {
      var j := ParseValue(ts, i).next;
      MoreElementsComplete(ts, j, vs[1..], e);
      assert vs == [vs[0]] + vs[1..];
    }
  }

  /** What an array parse reads: a bracket, values and a bracket. */
  lemma ArraySound(ts: seq<Token>, i: nat)
    requires Lexed(ts) && i <= |ts| && ParseArray(ts, i).Parsed?
    ensures var r := ParseArray(ts, i);
      r.value.Arr? && At(ts, i, LBracket) && i + 2 <= r.next
      && ElementsSpan(ts, i + 1, r.value.items, r.next - 1) && At(ts, r.next - 1, RBracket)
  {
    ElementsSound(ts, i + 1);
  }

  /** Bracketed values are read as an array of those values. */
  lemma ArrayComplete(ts: seq<Token>, i: nat, vs: seq<Value>, j: nat)
    requires Lexed(ts) && i <= |ts|
    requires At(ts, i, LBracket) && i + 2 <= j && ElementsSpan(ts, i + 1, vs, j - 1) && At(ts, j - 1, RBracket)
    ensures ParseArray(ts, i) == Parsed(Arr(vs), j)
  {
    if vs == [] {
      NoValueAt(ts, i + 1);
    }
    ElementsComplete(ts, i + 1, vs, j - 1);
  }

  /** An array parse is exactly an opening bracket, values separated by
      commas, and a closing bracket; the elements keep their order. */
  lemma ArrayShape(ts: seq<Token>, i: nat, vs: seq<Value>, j: nat)
    requires Lexed(ts) && i <= |ts|
    ensures ParseArray(ts, i) == Parsed(Arr(vs), j)
        <==> At(ts, i, LBracket) && i + 2 <= j && ElementsSpan(ts, i + 1, vs, j - 1) && At(ts, j - 1, RBracket)
  {
    if ParseArray(ts, i) == Parsed(Arr(vs), j) {
      ArraySound(ts, i);
    }
    if At(ts, i, LBracket) && i + 2 <= j && ElementsSpan(ts, i + 1, vs, j - 1) && At(ts, j - 1, RBracket) {
      ArrayComplete(ts, i, vs, j);
    }
  }

  // ---------------------------------------------------------------------
  // Objects

  /** From `i` on, the tokens hold the members `ms` separated by commas,
      ending at `e`. */
  predicate MembersSpan(ts: seq<Token>, i: nat, ms: seq<(string, Value)>, e: nat)
    requires Lexed(ts) && i <= |ts|
    decreases |ms|, 1
  {
    if ms == [] then e == i
    else match ParseMember(ts, i)
      case Failed => false
      case Parsed(m, k) => m == ms[0] && MoreMembersSpan(ts, k, ms[1..], e)
  }

  predicate MoreMembersSpan(ts: seq<Token>, k: nat, rest: seq<(string, Value)>, e: nat)
    requires Lexed(ts) && k <= |ts|
    decreases |rest|, 2
  {
    if rest == [] then e == k
    else At(ts, k, Comma) && MembersSpan(ts, k + 1, rest, e)
  }

  lemma {:induction false} MoreMembersSound(ts: seq<Token>, k: nat)
    requires Lexed(ts) && k <= |ts|
    ensures MoreMembersSpan(ts, k, ParseMoreMembers(ts, k).value, ParseMoreMembers(ts, k).next)
    decreases |ts| - k
  {
    if At(ts, k, Comma) {
      match ParseMember(ts, k + 1)
      case Failed =>
      case Parsed(m, j) =>
        MoreMembersSound(ts, j);
        var rest := ParseMoreMembers(ts, j);
        assert ([m] + rest.value)[1..] == rest.value;
    }
  }

  lemma MembersSound(ts: seq<Token>, i: nat)
    requires Lexed(ts) && i <= |ts|
    ensures MembersSpan(ts, i, ParseMembers(ts, i).value, ParseMembers(ts, i).next)
  {
    match ParseMember(ts, i)
    case Failed =>
    case Parsed(m, j) =>
      MoreMembersSound(ts, j);
      var rest := ParseMoreMembers(ts, j);
      assert ([m] + rest.value)[1..] == rest.value;
  }

  lemma {:induction false} MoreMembersComplete(ts: seq<Token>, k: nat, rest: seq<(string, Value)>, e: nat)
    requires Lexed(ts) && k <= |ts| && MoreMembersSpan(ts, k, rest, e) && !At(ts, e, Comma)
    ensures ParseMoreMembers(ts, k) == Parsed(rest, e)
    decreases |rest|
  {
    if rest != [] {
      var j := ParseMember(ts, k + 1).next;
      MoreMembersComplete(ts, j, rest[1..], e);
      assert rest == [rest[0]] + rest[1..];
    }
  }

  lemma MembersComplete(ts: seq<Token>, i: nat, ms: seq<(string, Value)>, e: nat)
    requires Lexed(ts) && i <= |ts| && MembersSpan(ts, i, ms, e) && !At(ts, e, Comma)
    requires ms == [] ==> ParseMember(ts, i).Failed?
    ensures ParseMembers(ts, i) == Parsed(ms, e)
  {
    if ms != [] {
      var j := ParseMember(ts, i).next;
      MoreMembersComplete(ts, j, ms[1..], e);
      assert ms == [ms[0]] + ms[1..];
    }
  }

  /** What a member list parse reads: a brace, members and a brace. */
  lemma MemberListSound(ts: seq<Token>, i: nat)
    requires Lexed(ts) && i <= |ts| && ParseMemberList(ts, i).Parsed?
    ensures var r := ParseMemberList(ts, i);
      At(ts, i, LBrace) && i + 2 <= r.next
      && MembersSpan(ts, i + 1, r.value, r.next - 1) && At(ts, r.next - 1, RBrace)
  {
    MembersSound(ts, i + 1);
  }

  /** Braced members are read as the list of those members. */
  lemma MemberListComplete(ts: seq<Token>, i: nat, ms: seq<(string, Value)>, j: nat)
    requires Lexed(ts) && i <= |ts|
    requires At(ts, i, LBrace) && i + 2 <= j && MembersSpan(ts, i + 1, ms, j - 1) && At(ts, j - 1, RBrace)
    ensures ParseMemberList(ts, i) == Parsed(ms, j)
  {
    MembersComplete(ts, i + 1, ms, j - 1);
  }

  /** A member list parse is exactly an opening brace, members separated by
      commas, and a closing brace; the members keep their order. */
  lemma MemberListShape(ts: seq<Token>, i: nat, ms: seq<(string, Value)>, j: nat)
    requires Lexed(ts) && i <= |ts|
    ensures ParseMemberList(ts, i) == Parsed(ms, j)
        <==> At(ts, i, LBrace) && i + 2 <= j && MembersSpan(ts, i + 1, ms, j - 1) && At(ts, j - 1, RBrace)
  {
    if ParseMemberList(ts, i) == Parsed(ms, j) {
      MemberListSound(ts, i);
    }
    if At(ts, i, LBrace) && i + 2 <= j && MembersSpan(ts, i + 1, ms, j - 1) && At(ts, j - 1, RBrace) {
      MemberListComplete(ts, i, ms, j);
    }
  }

  /** A member is a string key, a colon and a value. */
  lemma MemberShape(ts: seq<Token>, i: nat)
    requires Lexed(ts) && i <= |ts| && ParseMember(ts, i).Parsed?
    ensures At(ts, i, StringLit) && At(ts, i + 1, Colon)
    ensures ParseValue(ts, i + 2) == Parsed(ParseMember(ts, i).value.1, ParseMember(ts, i).next)
  {
    assert ParseString(ts, i).Parsed?;
  }

  /** The key of a member is its string token, decoded. */
  lemma MemberKey(ts: seq<Token>, i: nat)
    requires Lexed(ts) && i <= |ts| && ParseMember(ts, i).Parsed?
    ensures At(ts, i, StringLit) && |ts[i].text| >= 2
    ensures ParseMember(ts, i).value.0 == StringValue(ts[i].text)
  {
    assert ParseString(ts, i).Parsed?;
    assert WellFormedAt(ts, i);
  }

  // ---------------------------------------------------------------------
  // No trailing comma

  /** A number ends with digits or a dot. */
  lemma NumberLastToken(ts: seq<Token>, i: nat)
    requires Lexed(ts) && ParseNumber(ts, i).Parsed?
    ensures i < ParseNumber(ts, i).next <= |ts|
    ensures At(ts, ParseNumber(ts, i).next - 1, Integer) || At(ts, ParseNumber(ts, i).next - 1, Dot)
  {
    PositiveValid(ts, if At(ts, i, Minus) then i + 1 else i);
  }

  /** An object ends with its closing brace. */
  lemma ObjectLastToken(ts: seq<Token>, i: nat)
    requires Lexed(ts) && i <= |ts| && ParseObject(ts, i).Parsed?
    ensures At(ts, ParseObject(ts, i).next - 1, RBrace)
  {
    assert ParseMemberList(ts, i).Parsed?;
    MemberListSound(ts, i);
  }

  /** Whatever the first token selects ends with a token other than a
      comma. */
  lemma LeadingTokenLast(ts: seq<Token>, i: nat)
    requires Lexed(ts) && i <= |ts| && ByLeadingToken(ts, i).Parsed?
    ensures !At(ts, ByLeadingToken(ts, i).next - 1, Comma)
  {
    match ts[i].kind
    case Minus => NumberLastToken(ts, i);
    case Integer => NumberLastToken(ts, i);
    case Dot => NumberLastToken(ts, i);
    case LBrace => ObjectLastToken(ts, i);
    case LBracket => ArraySound(ts, i);
    case _ =>
  }

  /** No value ends with a comma. */
  lemma ValueLastToken(ts: seq<Token>, i: nat)
    requires Lexed(ts) && i <= |ts| && ParseValue(ts, i).Parsed?
    ensures !At(ts, ParseValue(ts, i).next - 1, Comma)
  {
    ValueDispatch(ts, i);
    LeadingTokenLast(ts, i);
  }

  lemma {:induction false} ElementsLastToken(ts: seq<Token>, i: nat, vs: seq<Value>, e: nat)
    requires Lexed(ts) && i <= |ts| && ElementsSpan(ts, i, vs, e) && vs != []
    ensures i < e && !At(ts, e - 1, Comma)
    decreases |vs|
  {
    var k := ParseValue(ts, i).next;
    ValueLastToken(ts, i);
    if |vs| > 1 {
      ElementsLastToken(ts, k + 1, vs[1..], e);
    }
  }

  /** No member ends with a comma. */
  lemma MemberLastToken(ts: seq<Token>, i: nat)
    requires Lexed(ts) && i <= |ts| && ParseMember(ts, i).Parsed?
    ensures i < ParseMember(ts, i).next && !At(ts, ParseMember(ts, i).next - 1, Comma)
  {
    MemberShape(ts, i);
    ValueLastToken(ts, i + 2);
  }

  lemma {:induction false} MembersLastToken(ts: seq<Token>, i: nat, ms: seq<(string, Value)>, e: nat)
    requires Lexed(ts) && i <= |ts| && MembersSpan(ts, i, ms, e) && ms != []
    ensures i < e && !At(ts, e - 1, Comma)
    decreases |ms|
  {
    var k := ParseMember(ts, i).next;
    MemberLastToken(ts, i);
    if |ms| > 1 {
      MembersLastToken(ts, k + 1, ms[1..], e);
    }
  }

  /** The token before the closing bracket of an array is never a comma. */
  lemma ArrayNoTrailingComma(ts: seq<Token>, i: nat)
    requires Lexed(ts) && i <= |ts| && ParseArray(ts, i).Parsed?
    ensures !At(ts, ParseArray(ts, i).next - 2, Comma)
  {
    var r := ParseArray(ts, i);
    ArrayShape(ts, i, r.value.items, r.next);
    if r.value.items != [] {
      ElementsLastToken(ts, i + 1, r.value.items, r.next - 1);
    }
  }

  /** The token before the closing brace of an object is never a comma. */
  lemma ObjectNoTrailingComma(ts: seq<Token>, i: nat)
    requires Lexed(ts) && i <= |ts| && ParseMemberList(ts, i).Parsed?
    ensures !At(ts, ParseMemberList(ts, i).next - 2, Comma)
  {
    var r := ParseMemberList(ts, i);
    MemberListShape(ts, i, r.value, r.next);
    if r.value != [] {
      MembersLastToken(ts, i + 1, r.value, r.next - 1);
    }
  }

  // ---------------------------------------------------------------------
  // Building the map

  function KeysOf(ms: seq<(string, Value)>): set<string> {
    set k | 0 <= k < |ms| :: ms[k].0
  }

  /** The map's keys are exactly the member keys. */
  lemma {:induction false} ToMapKeys(ms: seq<(string, Value)>)
    ensures ToMap(ms).Keys == KeysOf(ms)
    decreases |ms|
  {
    if ms != [] {
      var init := ms[..|ms| - 1];
      ToMapKeys(init);
      forall key ensures key in KeysOf(ms) <==> key in KeysOf(init) || key == ms[|ms| - 1].0 {
        if key in KeysOf(ms) {
          var k :| 0 <= k < |ms| && ms[k].0 == key;
          if k < |ms| - 1 {
            assert init[k] == ms[k];
          }
        }
        if key in KeysOf(init) {
          var k :| 0 <= k < |init| && init[k].0 == key;
          assert ms[k] == init[k];
        }
      }
    }
  }

  /** Each key maps to the value of its last occurrence. */
  lemma {:induction false} ToMapLastWins(ms: seq<(string, Value)>, k: nat)
    requires k < |ms|
    requires forall l | k < l < |ms| :: ms[l].0 != ms[k].0
    ensures ms[k].0 in ToMap(ms) && ToMap(ms)[ms[k].0] == ms[k].1
    decreases |ms|
  {
    if k < |ms| - 1 {
      var init := ms[..|ms| - 1];
      assert init[k] == ms[k];
      ToMapLastWins(init, k);
    }
  }
}
