/** The value grammar of SimpleJsonGrammar over the token sequence, read by
    recursive descent with ordered choice. Each parser takes the tokens and
    an index, and yields a value and the index after it, or fails.

    A value is null, a boolean, a string or a number, tried in that order,
    then an object, then an array. Objects and arrays hold zero or more
    items separated by commas, with no trailing comma. A whole input must be
    one value that uses up every token. */
module Grammar {
  import opened Results
  import opened Lexer
  import opened StringValues
  import opened Numbers

  /** What a parse yields: the Kotlin `null`, a Boolean, a String, a number
      (its sign and decimal text), a List, or a Map. */
  datatype Value =
    | Null
    | Bool(b: bool)
    | Str(s: string)
    | Num(n: Number)
    | Arr(items: seq<Value>)
    | Obj(members: map<string, Value>)

  /** The outcome of one parser at one index. */
  datatype Parsed<+T> = Parsed(value: T, next: nat) | Failed

  predicate WellFormedAt(ts: seq<Token>, k: nat)
    requires k < |ts|
  {
    WellFormed(ts[k])
  }

  /** Every token has the shape of its kind, as the tokenizer guarantees. */
  predicate Lexed(ts: seq<Token>) {
    forall k | 0 <= k < |ts| :: WellFormedAt(ts, k)
  }

  /** The token at `i` exists and has kind `k`. */
  predicate At(ts: seq<Token>, i: nat, k: Kind) {
    i < |ts| && ts[i].kind == k
  }

  // ---------------------------------------------------------------------
  // Literal values

  function ParseNull(ts: seq<Token>, i: nat): Parsed<Value> {
    if At(ts, i, NullKw) then Parsed(Null, i + 1) else Failed
  }

  function ParseBool(ts: seq<Token>, i: nat): Parsed<Value> {
    if At(ts, i, TrueKw) then Parsed(Bool(true), i + 1)
    else if At(ts, i, FalseKw) then Parsed(Bool(false), i + 1)
    else Failed
  }

  function ParseString(ts: seq<Token>, i: nat): Parsed<string>
    requires Lexed(ts)
  {
    if At(ts, i, StringLit) then
      assert WellFormedAt(ts, i);
      Parsed(StringValue(ts[i].text), i + 1)
    else Failed
  }

  // ---------------------------------------------------------------------
  // Numbers

  /** The integer digits with an optional dot and optional fraction digits,
      or else a dot followed by fraction digits. A dot without digits after
      it contributes nothing. */
  function ParseMantissa(ts: seq<Token>, i: nat): Parsed<Parts> {
    if At(ts, i, Integer) then
      if At(ts, i + 1, Dot) then
        if At(ts, i + 2, Integer) then Parsed(Parts(Some(ts[i].text), Some(ts[i + 2].text), None), i + 3)
        else Parsed(Parts(Some(ts[i].text), None, None), i + 2)
      else Parsed(Parts(Some(ts[i].text), None, None), i + 1)
    else if At(ts, i, Dot) && At(ts, i + 1, Integer) then
      Parsed(Parts(None, Some(ts[i + 1].text), None), i + 2)
    else Failed
  }

  /** A mantissa and an optional exponent: an `e` or `E` token followed by
      digits. An exponent letter without digits after it is left unread. */
  function ParsePositive(ts: seq<Token>, i: nat): Parsed<Parts> {
    match ParseMantissa(ts, i)
    case Failed => Failed
    case Parsed(p, j) =>
      if At(ts, j, Exponent) && At(ts, j + 1, Integer) then
        Parsed(p.(expDigits := Some(ts[j + 1].text)), j + 2)
      else Parsed(p, j)
  }

  /** An optional minus, then a positive number, kept as sign and text. */
  function ParseNumber(ts: seq<Token>, i: nat): Parsed<Number> {
    var negative := At(ts, i, Minus);
    match ParsePositive(ts, if negative then i + 1 else i)
    case Failed => Failed
    case Parsed(p, j) => Parsed(Number(negative, Assemble(p)), j)
  }

  /** Null, then a Boolean, then a string, then a number. */
  function ParsePrimitive(ts: seq<Token>, i: nat): Parsed<Value>
    requires Lexed(ts)
  {
    match ParseNull(ts, i)
    case Parsed(v, j) => Parsed(v, j)
    case Failed =>
      match ParseBool(ts, i)
      case Parsed(v, j) => Parsed(v, j)
      case Failed =>
        match ParseString(ts, i)
        case Parsed(s, j) => Parsed(Str(s), j)
        case Failed =>
          match ParseNumber(ts, i)
          case Parsed(n, j) => Parsed(Num(n), j)
          case Failed => Failed
  }

  // ---------------------------------------------------------------------
  // Values, objects and arrays

  /** A primitive value, else an object, else an array. */
  function ParseValue(ts: seq<Token>, i: nat): (r: Parsed<Value>)
    requires Lexed(ts) && i <= |ts|
    ensures r.Parsed? ==> i < r.next <= |ts|
    decreases |ts| - i, 3
  {
    match ParsePrimitive(ts, i)
    case Parsed(v, j) => Parsed(v, j)
    case Failed =>
      match ParseObject(ts, i)
      case Parsed(v, j) => Parsed(v, j)
      case Failed => ParseArray(ts, i)
  }

  /** One member: a string key, a colon, and a value. */
  function ParseMember(ts: seq<Token>, i: nat): (r: Parsed<(string, Value)>)
    requires Lexed(ts) && i <= |ts|
    ensures r.Parsed? ==> i < r.next <= |ts|
    decreases |ts| - i, 4
  {
    match ParseString(ts, i)
    case Failed => Failed
    case Parsed(key, j) =>
      if At(ts, j, Colon) then
        match ParseValue(ts, j + 1)
        case Parsed(v, k) => Parsed((key, v), k)
        case Failed => Failed
      else Failed
  }

  /** After the first member: a comma and a member, again and again. A
      comma not followed by a member is left unread. */
  function ParseMoreMembers(ts: seq<Token>, i: nat): (r: Parsed<seq<(string, Value)>>)
    requires Lexed(ts) && i <= |ts|
    ensures r.Parsed? && i <= r.next <= |ts|
    decreases |ts| - i, 5
  {
    if At(ts, i, Comma) then
      match ParseMember(ts, i + 1)
      case Failed => Parsed([], i)
      case Parsed(m, j) =>
        var rest := ParseMoreMembers(ts, j);
        Parsed([m] + rest.value, rest.next)
    else Parsed([], i)
  }

  /** Members separated by commas; no member at all is accepted. */
  function ParseMembers(ts: seq<Token>, i: nat): (r: Parsed<seq<(string, Value)>>)
    requires Lexed(ts) && i <= |ts|
    ensures r.Parsed? && i <= r.next <= |ts|
    decreases |ts| - i, 5
  {
    match ParseMember(ts, i)
    case Failed => Parsed([], i)
    case Parsed(m, j) =>
      var rest := ParseMoreMembers(ts, j);
      Parsed([m] + rest.value, rest.next)
  }

  /** The members between an opening and a closing brace, in order. */
  function ParseMemberList(ts: seq<Token>, i: nat): (r: Parsed<seq<(string, Value)>>)
    requires Lexed(ts) && i <= |ts|
    ensures r.Parsed? ==> i < r.next <= |ts|
    decreases |ts| - i, 1
  {
    if At(ts, i, LBrace) then
      var ms := ParseMembers(ts, i + 1);
      if At(ts, ms.next, RBrace) then Parsed(ms.value, ms.next + 1) else Failed
    else Failed
  }

  /** The members as a map, built in order so that a later duplicate key
      replaces an earlier one. */
  function ToMap(ms: seq<(string, Value)>): map<string, Value> {
    if ms == [] then map[]
    else ToMap(ms[..|ms| - 1])[ms[|ms| - 1].0 := ms[|ms| - 1].1]
  }

  function ParseObject(ts: seq<Token>, i: nat): (r: Parsed<Value>)
    requires Lexed(ts) && i <= |ts|
    ensures r.Parsed? ==> i < r.next <= |ts|
    decreases |ts| - i, 2
  {
    match ParseMemberList(ts, i)
    case Parsed(ms, j) => Parsed(Obj(ToMap(ms)), j)
    case Failed => Failed
  }

  /** After the first element: a comma and a value, again and again. A
      comma not followed by a value is left unread. */
  function ParseMoreElements(ts: seq<Token>, i: nat): (r: Parsed<seq<Value>>)
    requires Lexed(ts) && i <= |ts|
    ensures r.Parsed? && i <= r.next <= |ts|
    decreases |ts| - i, 5
  {
    if At(ts, i, Comma) then
      match ParseValue(ts, i + 1)
      case Failed => Parsed([], i)
      case Parsed(v, j) =>
        var rest := ParseMoreElements(ts, j);
        Parsed([v] + rest.value, rest.next)
    else Parsed([], i)
  }

  /** Values separated by commas; no value at all is accepted. */
  function ParseElements(ts: seq<Token>, i: nat): (r: Parsed<seq<Value>>)
    requires Lexed(ts) && i <= |ts|
    ensures r.Parsed? && i <= r.next <= |ts|
    decreases |ts| - i, 5
  {
    match ParseValue(ts, i)
    case Failed => Parsed([], i)
    case Parsed(v, j) =>
      var rest := ParseMoreElements(ts, j);
      Parsed([v] + rest.value, rest.next)
  }

  /** The values between an opening and a closing bracket, in order. */
  function ParseArray(ts: seq<Token>, i: nat): (r: Parsed<Value>)
    requires Lexed(ts) && i <= |ts|
    ensures r.Parsed? ==> i < r.next <= |ts|
    decreases |ts| - i, 2
  {
    if At(ts, i, LBracket) then
      var vs := ParseElements(ts, i + 1);
      if At(ts, vs.next, RBracket) then Parsed(Arr(vs.value), vs.next + 1) else Failed
    else Failed
  }

  // ---------------------------------------------------------------------
  // Whole inputs

  datatype ParseError =
    | LexError(offset: nat)        // no token pattern matches at this offset
    | NoValue                      // the tokens do not start with a value
    | UnparsedRemainder(at: nat)   // tokens are left after the value

  /** One value that must use up every token. */
  function ParseTokens(ts: seq<Token>): Result<Value, ParseError>
    requires Lexed(ts)
  {
    match ParseValue(ts, 0)
    case Failed => Err(NoValue)
    case Parsed(v, n) => if n == |ts| then Ok(v) else Err(UnparsedRemainder(n))
  }

  /** Tokenizes the input and parses one value that must use up every
      token. */
  function Parse(s: string): Result<Value, ParseError> {
    match Tokenize(s)
    case Err(p) => Err(LexError(p))
    case Ok(ts) =>
      TokenizeWellFormed(s, ts);
      assert forall k | 0 <= k < |ts| :: WellFormedAt(ts, k) by {
        forall k | 0 <= k < |ts| ensures WellFormedAt(ts, k) {
          assert ts[k] in ts;
        }
      }
      ParseTokens(ts)
  }
}
