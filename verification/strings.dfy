/** How a string-literal token becomes a string value: the quotes are cut
    off and the body goes through seven whole-string replacements, in this
    order: `\"`, `\n`, `\r`, `\t`, `\b`, `\f`, and last `\\`.

    The chain is compared with single-pass decoding (`Decode`), which reads
    each backslash together with its selector. The two agree on every body
    in which no escaped backslash comes right before one of the letters
    `n r t b f` (`ChainAgrees`). They can differ on other bodies, for
    example `\\n` (`ChainDiffersOnEscapedBackslash`). */
module StringValues {
  import opened Lexer

  /** Kotlin's `String.replace(pat, rep)`. The input is scanned left to
      right, and each occurrence of `pat` that does not overlap an earlier
      replaced one becomes `rep`. An empty `pat` matches before every
      character and at the end. */
  function Replace(s: string, pat: string, rep: string): string
    decreases |s|
  {
    if pat == [] then
      (if s == [] then rep else rep + [s[0]] + Replace(s[1..], pat, rep))
    else if |pat| <= |s| && s[..|pat|] == pat then rep + Replace(s[|pat|..], pat, rep)
    else if s == [] then []
    else [s[0]] + Replace(s[1..], pat, rep)
  }

  /** The seven replacements of the source, each applied to the whole
      result of the previous one. */
  function Unescape(b: string): string {
    Replace(Replace(Replace(Replace(Replace(Replace(Replace(b,
      "\\\"", "\""),
      "\\n", "\n"),
      "\\r", "\r"),
      "\\t", "\t"),
      "\\b", "\U{0008}"),
      "\\f", "\U{000C}"),
      "\\\\", "\\")
  }

  /** The value of a string-literal token: its text without the first and
      the last character, unescaped. */
  function StringValue(text: string): (v: string)
    requires |text| >= 2
  {
    Unescape(text[1..|text| - 1])
  }

  // ---------------------------------------------------------------------
  // Single-pass decoding, the reference

  /** The character an escape selector stands for. */
  function Esc(x: char): char {
    match x
    case 'n' => '\n'
    case 'r' => '\r'
    case 't' => '\t'
    case 'b' => '\U{0008}'
    case 'f' => '\U{000C}'
    case _ => x
  }

  const Selectors: set<char> := {'"', 'n', 'r', 't', 'b', 'f', '\\'}

  /** Reads the body front to back. A backslash and the character after it
      form one escape. An escape whose selector is in `S` becomes the
      character it stands for. Any other escape is copied as it is. */
  function DecodeSelected(b: string, S: set<char>): string
    decreases |b|
  {
    if b == [] then []
    else if b[0] == '\\' && |b| >= 2 then
      (if b[1] in S then [Esc(b[1])] else ['\\', b[1]]) + DecodeSelected(b[2..], S)
    else [b[0]] + DecodeSelected(b[1..], S)
  }

  /** Single-pass decoding of every escape. */
  function Decode(b: string): string {
    DecodeSelected(b, Selectors)
  }

  /** How one character of a value is written in a literal body. */
  function EscapeChar(c: char): string {
    match c
    case '"' => "\\\""
    case '\\' => "\\\\"
    case '\n' => "\\n"
    case '\r' => "\\r"
    case '\t' => "\\t"
    case '\U{0008}' => "\\b"
    case '\U{000C}' => "\\f"
    case _ => [c]
  }

  /** The inverse direction: how a value is written as a literal body. */
  function Escape(v: string): string {
    if v == [] then [] else EscapeChar(v[0]) + Escape(v[1..])
  }

  /** The selectors that name a letter escape. */
  predicate IsLetterSelector(c: char) {
    c == 'n' || c == 'r' || c == 't' || c == 'b' || c == 'f'
  }

  /** No escaped backslash of the body is directly followed by one of the
      letters `n r t b f`. */
  predicate ChainSafe(b: string)
    decreases |b|
  {
    if |b| < 2 then true
    else if b[0] == '\\' then
      (b[1] == '\\' && |b| > 2 ==> !IsLetterSelector(b[2])) && ChainSafe(b[2..])
    else ChainSafe(b[1..])
  }

  // ---------------------------------------------------------------------
  // Properties of Replace

  /** A string without the first character of `pat` is left unchanged. */
  lemma {:induction false} ReplaceAbsent(s: string, pat: string, rep: string)
    requires pat != [] && pat[0] !in s
    ensures Replace(s, pat, rep) == s
    decreases |s|
  {
    if s != [] {
      assert s[0] != pat[0];
      ReplaceAbsent(s[1..], pat, rep);
      assert s == [s[0]] + s[1..];
    }
  }

  /** A leading character that cannot start `pat` is kept. */
  lemma ReplaceKeepsHead(c: char, t: string, pat: string, rep: string)
    requires pat != [] && c != pat[0]
    ensures Replace([c] + t, pat, rep) == [c] + Replace(t, pat, rep)
  {
    var s := [c] + t;
    assert s[0] == c && s[1..] == t;
  }

  /** A two-character pattern at the front is replaced. */
  lemma ReplaceTakesHead(t: string, x: char, y: char, rep: string)
    ensures Replace([x, y] + t, [x, y], rep) == rep + Replace(t, [x, y], rep)
  {
    var s := [x, y] + t;
    assert s[..2] == [x, y] && s[2..] == t;
  }

  /** A backslash is kept when what follows does not complete the
      pattern. */
  lemma BackslashKept(t: string, x: char, rep: string)
    requires x != '\\' && (t == [] || t[0] != x)
    ensures Replace(['\\'] + t, ['\\', x], rep) == ['\\'] + Replace(t, ['\\', x], rep)
  {
    var s := ['\\'] + t;
    if 2 <= |s| {
      assert s[..2] != ['\\', x] by { assert s[..2][1] == t[0]; }
    }
    assert s[0] == '\\' && s[1..] == t;
  }

  // ---------------------------------------------------------------------
  // The chain against single-pass decoding

  /** The first character of a partial decoding. */
  lemma DecodeHead(b: string, S: set<char>)
    requires b != []
    ensures DecodeSelected(b, S) != []
    ensures DecodeSelected(b, S)[0] == if b[0] == '\\' && |b| >= 2 && b[1] in S then Esc(b[1]) else b[0]
  {
  }

  /** What follows an escaped backslash in a chain-safe body never starts
      with a selector that is still to be replaced. */
  lemma DecodedHeadIsNot(b: string, S: set<char>, x: char)
    requires ValidBody(b) && b != [] && !IsLetterSelector(b[0])
    requires IsEscapeSelector(x) && x != '\\' && x !in S
    requires forall y | y in S :: IsEscapeSelector(y) && y != '\\'
    ensures DecodeSelected(b, S)[0] != x
  {
    DecodeHead(b, S);
  }

  /** An escaped backslash passes a replacement of `\x` unchanged when the
      rest of the body does not start with a letter selector. */
  lemma EscapedBackslashStep(r: string, S: set<char>, x: char)
    requires ValidBody(r) && (r != [] ==> !IsLetterSelector(r[0]))
    requires IsEscapeSelector(x) && x != '\\' && x !in S
    requires forall y | y in S :: IsEscapeSelector(y) && y != '\\'
    ensures Replace(['\\', '\\'] + DecodeSelected(r, S), ['\\', x], [Esc(x)])
         == ['\\', '\\'] + Replace(DecodeSelected(r, S), ['\\', x], [Esc(x)])
  {
    var t := DecodeSelected(r, S);
    if r != [] {
      DecodedHeadIsNot(r, S, x);
    }
    BackslashKept(t, x, [Esc(x)]);
    BackslashKept(['\\'] + t, x, [Esc(x)]);
    assert ['\\', '\\'] + t == ['\\'] + (['\\'] + t);
  }

  /** An escape not yet decoded and not of selector `x` passes a
      replacement of `\x` unchanged. */
  lemma OtherEscapeStep(y: char, t: string, x: char)
    requires y != x && y != '\\' && x != '\\'
    ensures Replace(['\\', y] + t, ['\\', x], [Esc(x)]) == ['\\', y] + Replace(t, ['\\', x], [Esc(x)])
  {
    assert ['\\', y] + t == ['\\'] + ([y] + t);
    BackslashKept([y] + t, x, [Esc(x)]);
    ReplaceKeepsHead(y, t, ['\\', x], [Esc(x)]);
  }

  /** One replacement of the chain, for a selector `x` other than the
      backslash, decodes exactly the escapes with selector `x`. */
  lemma {:induction false} ReplaceStep(b: string, S: set<char>, x: char)
    requires ValidBody(b) && ChainSafe(b)
    requires IsEscapeSelector(x) && x != '\\' && x !in S
    requires forall y | y in S :: IsEscapeSelector(y) && y != '\\'
    ensures Replace(DecodeSelected(b, S), ['\\', x], [Esc(x)]) == DecodeSelected(b, S + {x})
    decreases |b|
  {
    var pat := ['\\', x];
    if b != [] {
      if b[0] == '\\' {
        var y := b[1];
        ReplaceStep(b[2..], S, x);
        var t := DecodeSelected(b[2..], S);
        if y == '\\' {
          assert b[2..] != [] ==> b[2..][0] == b[2];
          EscapedBackslashStep(b[2..], S, x);
        } else if y in S {
          ReplaceKeepsHead(Esc(y), t, pat, [Esc(x)]);
        } else if y == x {
          ReplaceTakesHead(t, '\\', x, [Esc(x)]);
        } else {
          OtherEscapeStep(y, t, x);
        }
      } else {
        ReplaceStep(b[1..], S, x);
        ReplaceKeepsHead(b[0], DecodeSelected(b[1..], S), pat, [Esc(x)]);
      }
    }
  }

  const QuoteAndLetters: set<char> := {'"', 'n', 'r', 't', 'b', 'f'}

  /** The last replacement, of `\\`, decodes the escaped backslashes once
      every other escape is decoded. */
  lemma {:induction false} FinalStep(b: string)
    requires ValidBody(b)
    ensures Replace(DecodeSelected(b, QuoteAndLetters), "\\\\", "\\") == Decode(b)
    decreases |b|
  {
    if b != [] {
      if b[0] == '\\' {
        FinalStep(b[2..]);
        var t := DecodeSelected(b[2..], QuoteAndLetters);
        if b[1] == '\\' {
          ReplaceTakesHead(t, '\\', '\\', "\\");
        } else {
          ReplaceKeepsHead(Esc(b[1]), t, "\\\\", "\\");
        }
      } else {
        FinalStep(b[1..]);
        ReplaceKeepsHead(b[0], DecodeSelected(b[1..], QuoteAndLetters), "\\\\", "\\");
      }
    }
  }

  /** A decoding that decodes nothing copies the input. */
  lemma {:induction false} DecodeNothing(b: string)
    ensures DecodeSelected(b, {}) == b
    decreases |b|
  {
    if b != [] {
      if b[0] == '\\' && |b| >= 2 {
        DecodeNothing(b[2..]);
        assert b == [b[0], b[1]] + b[2..];
      } else {
        DecodeNothing(b[1..]);
        assert b == [b[0]] + b[1..];
      }
    }
  }

  /** The replacement chain and single-pass decoding agree on every valid
      body in which no escaped backslash is directly followed by one of the
      letters `n r t b f`. */
  lemma ChainAgrees(b: string)
    requires ValidBody(b) && ChainSafe(b)
    ensures Unescape(b) == Decode(b)
  {
    DecodeNothing(b);
    var s0: set<char> := {};
    ReplaceStep(b, s0, '"');
    var s1 := s0 + {'"'};
    ReplaceStep(b, s1, 'n');
    var s2 := s1 + {'n'};
    ReplaceStep(b, s2, 'r');
    var s3 := s2 + {'r'};
    ReplaceStep(b, s3, 't');
    var s4 := s3 + {'t'};
    ReplaceStep(b, s4, 'b');
    var s5 := s4 + {'b'};
    ReplaceStep(b, s5, 'f');
    assert s5 + {'f'} == QuoteAndLetters;
    FinalStep(b);
  }

  /** A body without backslashes is its own value. */
  lemma ChainKeepsPlainText(b: string)
    requires '\\' !in b
    ensures Unescape(b) == b
  {
    ReplaceAbsent(b, "\\\"", "\"");
    ReplaceAbsent(b, "\\n", "\n");
    ReplaceAbsent(b, "\\r", "\r");
    ReplaceAbsent(b, "\\t", "\t");
    ReplaceAbsent(b, "\\b", "\U{0008}");
    ReplaceAbsent(b, "\\f", "\U{000C}");
    ReplaceAbsent(b, "\\\\", "\\");
  }

  /** The body `\\n` (an escaped backslash, then the letter n) becomes a
      backslash and a newline under the chain, but a backslash and the
      letter n under single-pass decoding. */
  lemma ChainDiffersOnEscapedBackslash()
    ensures ValidBody("\\\\n")
    ensures Unescape("\\\\n") == "\\\n"
    ensures Decode("\\\\n") == "\\n"
  {
    var b := "\\\\n";
    assert Replace(b, "\\\"", "\"") == b by {
      assert b[..2] != "\\\"" by { assert b[..2][1] == '\\'; }
      assert b[1..][..2] != "\\\"" by { assert b[1..][..2][1] == 'n'; }
      ReplaceAbsent("n", "\\\"", "\"");
      assert b == [b[0]] + ([b[1]] + "n");
    }
    var t := ['\\', '\n'];
    assert Replace(b, "\\n", "\n") == t by {
      assert b[..2] != "\\n" by { assert b[..2][1] == '\\'; }
      ReplaceTakesHead([], '\\', 'n', "\n");
      assert b[1..] == "\\n";
    }
    BackslashNewlineKept("\\r", "\r");
    BackslashNewlineKept("\\t", "\t");
    BackslashNewlineKept("\\b", "\U{0008}");
    BackslashNewlineKept("\\f", "\U{000C}");
    BackslashNewlineKept("\\\\", "\\");
    assert b[2..] == "n";
  }

  /** A backslash before a newline is not an occurrence of any pattern
      whose second character is not a newline. */
  lemma BackslashNewlineKept(pat: string, rep: string)
    requires |pat| == 2 && pat[1] != '\n'
    ensures Replace(['\\', '\n'], pat, rep) == ['\\', '\n']
  {
    var t := ['\\', '\n'];
    assert t[..2] != pat by { assert t[..2][1] == '\n'; }
    assert t[1..] == ['\n'];
    assert Replace(['\n'], pat, rep) == ['\n'] by {
      assert ['\n'][1..] == [];
    }
  }

  // ---------------------------------------------------------------------
  // Escape as the partner of decoding

  /** Escaping any value gives a valid literal body that single-pass
      decoding turns back into the value. */
  lemma {:induction false} EscapeDecode(v: string)
    ensures ValidBody(Escape(v))
    ensures Decode(Escape(v)) == v
    decreases |v|
  {
    if v != [] {
      EscapeDecode(v[1..]);
      EscapeCharDecode(v[0], Escape(v[1..]));
      assert v == [v[0]] + v[1..];
    }
  }

  /** One escaped character in front of a valid body decodes back to the
      character. */
  lemma EscapeCharDecode(c: char, r: string)
    requires ValidBody(r)
    ensures ValidBody(EscapeChar(c) + r)
    ensures Decode(EscapeChar(c) + r) == [c] + Decode(r)
  {
    var h := EscapeChar(c);
    var e := h + r;
    if |h| == 2 {
      assert e[0] == '\\' && e[1] == h[1] && e[2..] == r;
    } else {
      assert e[0] == c && e[1..] == r;
    }
  }

  /** Escaping works character by character, so it distributes over
      concatenation. */
  lemma {:induction false} EscapeAppend(a: string, c: string)
    ensures Escape(a + c) == Escape(a) + Escape(c)
    decreases |a|
  {
    if a == [] {
      assert a + c == c;
    } else {
      EscapeAppend(a[1..], c);
      assert (a + c)[0] == a[0] && (a + c)[1..] == a[1..] + c;
    }
  }

  /** A character that a literal body holds as itself. */
  predicate IsPlain(c: char) {
    c != '"' && c != '\\' && c != '\n' && c != '\r' && c != '\t' && c != '\U{0008}' && c != '\U{000C}'
  }

  /** A value made of plain characters is written unchanged. */
  lemma {:induction false} EscapePlain(v: string)
    requires forall k | 0 <= k < |v| :: IsPlain(v[k])
    ensures Escape(v) == v
    decreases |v|
  {
    if v != [] {
      EscapePlain(v[1..]);
      assert v == [v[0]] + v[1..];
    }
  }

  /** No backslash of the value is directly followed by one of the
      letters `n r t b f`. */
  predicate NoBackslashBeforeLetter(v: string) {
    forall k | 0 <= k < |v| - 1 :: v[k] == '\\' ==> !IsLetterSelector(v[k + 1])
  }

  lemma {:induction false} EscapeChainSafe(v: string)
    requires NoBackslashBeforeLetter(v)
    ensures ChainSafe(Escape(v))
    decreases |v|
  {
    if v != [] {
      assert NoBackslashBeforeLetter(v[1..]) by {
        forall k | 0 <= k < |v[1..]| - 1 ensures v[1..][k] == '\\' ==> !IsLetterSelector(v[1..][k + 1]) {
          assert v[1..][k] == v[k + 1] && v[1..][k + 1] == v[k + 2];
        }
      }
      EscapeChainSafe(v[1..]);
      var h := EscapeChar(v[0]);
      var r := Escape(v[1..]);
      var e := h + r;
      if |h| == 2 {
        assert e[2..] == r;
        if h[1] == '\\' && |e| > 2 {
          assert e[2] == EscapeChar(v[1])[0] by {
            assert r == EscapeChar(v[1]) + Escape(v[2..]);
          }
        }
      } else {
        assert e[1..] == r;
      }
    }
  }

  /** The replacement chain inverts escaping on every value in which no
      backslash comes right before one of the letters `n r t b f`. */
  lemma ChainUndoesEscape(v: string)
    requires NoBackslashBeforeLetter(v)
    ensures Unescape(Escape(v)) == v
  {
    EscapeDecode(v);
    EscapeChainSafe(v);
    ChainAgrees(Escape(v));
  }
}
