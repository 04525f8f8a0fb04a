/** Numbers as the grammar assembles them: an optional minus sign and a
    decimal text. The text is built from up to three digit strings: the
    integer digits, the digits after the dot, and the exponent digits. The
    conversion of that text to a double, and the negation applied for a
    leading minus, are not part of this model. */
module Numbers {
  import opened Results
  import opened Lexer

  /** A number value: its sign and its assembled decimal text. */
  datatype Number = Number(negative: bool, text: string)

  /** The digit strings a number token sequence supplies. */
  datatype Parts = Parts(intDigits: Option<string>, fracDigits: Option<string>, expDigits: Option<string>)

  /** Each present part is a nonempty digit string, and the integer part or
      the fraction part is present. */
  predicate ValidParts(p: Parts) {
    (p.intDigits.Some? || p.fracDigits.Some?)
    && (p.intDigits.Some? ==> IsDigits(p.intDigits.value))
    && (p.fracDigits.Some? ==> IsDigits(p.fracDigits.value))
    && (p.expDigits.Some? ==> IsDigits(p.expDigits.value))
  }

  /** The text before the exponent: the integer digits, then a dot and the
      fraction digits when there are any. */
  function Mantissa(p: Parts): string {
    (if p.intDigits.Some? then p.intDigits.value else "")
    + (if p.fracDigits.Some? then "." + p.fracDigits.value else "")
  }

  /** The decimal text handed to the conversion: the mantissa, then `e` and
      the exponent digits when there are any. */
  function Assemble(p: Parts): string {
    Mantissa(p) + (if p.expDigits.Some? then "e" + p.expDigits.value else "")
  }

  // ---------------------------------------------------------------------
  // The shape of an assembled text, and reading the parts back

  /** Zero or more digits. */
  predicate AllDigits(d: string) {
    forall k | 0 <= k < |d| :: IsDigit(d[k])
  }

  /** The offset of the first `c` in `t`, or `|t|` when there is none. */
  function IndexOf(t: string, c: char): (r: nat)
    ensures r <= |t|
    ensures r < |t| ==> t[r] == c
    ensures forall k | 0 <= k < r :: t[k] != c
    decreases |t|
  {
    if t == [] then 0
    else if t[0] == c then 0
    else 1 + IndexOf(t[1..], c)
  }

  /** `digits ['.' digits] ['e' digits]` or `'.' digits ['e' digits]`. */
  predicate IsNumberText(t: string) {
    var q := IndexOf(t, 'e');
    var m := t[..q];
    var d := IndexOf(m, '.');
    (if d == |m| then IsDigits(m) else AllDigits(m[..d]) && IsDigits(m[d + 1..]))
    && (q == |t| || IsDigits(t[q + 1..]))
  }

  /** The parts a number text is made of. */
  function Split(t: string): Parts {
    var q := IndexOf(t, 'e');
    var m := t[..q];
    var d := IndexOf(m, '.');
    Parts(
      if d == 0 && d < |m| then None else Some(m[..d]),
      if d == |m| then None else Some(m[d + 1..]),
      if q == |t| then None else Some(t[q + 1..]))
  }

  lemma {:induction false} IndexOfAfter(a: string, b: string, c: char)
    requires c !in a
    ensures IndexOf(a + b, c) == |a| + IndexOf(b, c)
    decreases |a|
  {
    if a == [] {
      assert a + b == b;
    } else {
      IndexOfAfter(a[1..], b, c);
      assert (a + b)[0] == a[0] != c;
      assert (a + b)[1..] == a[1..] + b;
    }
  }

  lemma DigitsHaveNo(d: string, c: char)
    requires AllDigits(d) && !IsDigit(c)
    ensures c !in d
  {
  }

  lemma MantissaHasNoE(p: Parts)
    requires ValidParts(p)
    ensures 'e' !in Mantissa(p)
  {
    var m := Mantissa(p);
    forall k | 0 <= k < |m| ensures m[k] != 'e' {
      var i := if p.intDigits.Some? then p.intDigits.value else "";
      if k < |i| {
        assert m[k] == i[k];
      } else if k > |i| {
        assert m[k] == p.fracDigits.value[k - |i| - 1];
      }
    }
  }

  /** An assembled text splits at its `e`. */
  lemma AssembleIndexes(p: Parts)
    requires ValidParts(p)
    ensures IndexOf(Assemble(p), 'e') == |Mantissa(p)|
    ensures Assemble(p)[..|Mantissa(p)|] == Mantissa(p)
    ensures p.expDigits.Some? ==> Assemble(p)[|Mantissa(p)| + 1..] == p.expDigits.value
    ensures p.expDigits.None? ==> |Assemble(p)| == |Mantissa(p)|
  {
    var m := Mantissa(p);
    var e := if p.expDigits.Some? then "e" + p.expDigits.value else "";
    MantissaHasNoE(p);
    IndexOfAfter(m, e, 'e');
    assert Assemble(p) == m + e;
    assert (m + e)[..|m|] == m;
    if p.expDigits.Some? {
      assert (m + e)[|m| + 1..] == p.expDigits.value;
    }
  }

  /** A mantissa splits at its dot. */
  lemma MantissaIndexes(p: Parts)
    requires ValidParts(p)
    ensures var i := if p.intDigits.Some? then p.intDigits.value else "";
      IndexOf(Mantissa(p), '.') == |i| && Mantissa(p)[..|i|] == i
      && (p.fracDigits.Some? ==> Mantissa(p)[|i| + 1..] == p.fracDigits.value)
      && (p.fracDigits.None? ==> |Mantissa(p)| == |i|)
  {
    var m := Mantissa(p);
    var i := if p.intDigits.Some? then p.intDigits.value else "";
    var f := if p.fracDigits.Some? then "." + p.fracDigits.value else "";
    DigitsHaveNo(i, '.');
    IndexOfAfter(i, f, '.');
    assert m == i + f && m[..|i|] == i;
    if p.fracDigits.Some? {
      assert m[|i| + 1..] == p.fracDigits.value;
    }
  }

  /** Every assembled text has the number shape. */
  lemma AssembleShape(p: Parts)
    requires ValidParts(p)
    ensures IsNumberText(Assemble(p))
  {
    AssembleIndexes(p);
    MantissaIndexes(p);
  }

  /** The parts can be read back from the assembled text: no two different
      valid parts give the same text. */
  lemma SplitAssemble(p: Parts)
    requires ValidParts(p)
    ensures Split(Assemble(p)) == p
  {
    AssembleIndexes(p);
    MantissaIndexes(p);
  }

  /** The parts of a number text are valid, and their mantissa is the
      text before the `e`. */
  lemma SplitMantissa(t: string)
    requires IsNumberText(t)
    ensures ValidParts(Split(t))
    ensures Mantissa(Split(t)) == t[..IndexOf(t, 'e')]
  {
    var m := t[..IndexOf(t, 'e')];
    var d := IndexOf(m, '.');
    if d < |m| {
      assert m == m[..d] + "." + m[d + 1..];
    }
  }

  /** Every text of the number shape is the assembly of valid parts. */
  lemma AssembleSplit(t: string)
    requires IsNumberText(t)
    ensures ValidParts(Split(t))
    ensures Assemble(Split(t)) == t
  {
    SplitMantissa(t);
    var q := IndexOf(t, 'e');
    if q < |t| {
      assert t == t[..q] + "e" + t[q + 1..];
    }
  }
}
