/** Decimal tokens compared without ever parsing them to a number. */
module DecimalTokens {
  import opened Prelude
  import opened Digits

  const MAX_U64 := "18446744073709551615"
  const MAX_U64_VALUE := 18_446_744_073_709_551_615
  const MAX_SAFE_INTEGER := 9_007_199_254_740_991

  /** JavaScript's `<` on strings of decimal digits: the first difference decides, a proper prefix is smaller. */
  predicate LexLess(a: string, b: string) {
    b != "" && (a == "" || a[0] < b[0] || (a[0] == b[0] && LexLess(a[1..], b[1..])))
  }

  /** The comparison the code makes: first by length, then as strings. */
  predicate TokenExceeds(a: string, limit: string) {
    |a| > |limit| || (|a| == |limit| && LexLess(limit, a))
  }

  // ---- Comparing tokens compares numbers ----

  lemma {:induction false} LexIsNumeric(a: string, b: string)
    requires AllDigits(a) && AllDigits(b) && |a| == |b|
    ensures LexLess(a, b) <==> Val(a) < Val(b)
  {
    if a != "" {
      assert a == [a[0]] + a[1..] && b == [b[0]] + b[1..];
      LexIsNumeric(a[1..], b[1..]);
      HeadValue(a);
      HeadValue(b);
      ValBound(a[1..]);
      ValBound(b[1..]);
      HeadDecides(DigitValue(a[0]), DigitValue(b[0]), Pow10(|a| - 1), Val(a[1..]), Val(b[1..]));
    }
  }

  lemma HeadValue(a: string)
    requires AllDigits(a) && a != ""
    ensures Val(a) == DigitValue(a[0]) * Pow10(|a| - 1) + Val(a[1..])
  {
    assert a == [a[0]] + a[1..];
    ValConcat([a[0]], a[1..]);
    assert Val([a[0]]) == DigitValue(a[0]) by { assert [a[0]][..0] == ""; }
  }

  lemma HeadDecides(x: nat, y: nat, p: nat, u: nat, v: nat)
    requires u < p && v < p
    ensures x * p + u < y * p + v <==> x < y || (x == y && u < v)
  {
    if x < y { assert (x + 1) * p <= y * p; }
    if y < x { assert (y + 1) * p <= x * p; }
  }

  /** At any length: comparing canonical tokens by length and then as strings is comparing the numbers. */
  lemma TokenOrderIsNumeric(a: string, limit: string)
    requires Canonical(a) && Canonical(limit)
    ensures TokenExceeds(a, limit) <==> Val(a) > Val(limit)
  {
    if |a| == |limit| {
      LexIsNumeric(limit, a);
    } else if |a| > |limit| {
      LongerIsGreater(limit, a);
    } else {
      LongerIsGreater(a, limit);
    }
  }

  lemma LongerIsGreater(short: string, long: string)
    requires Canonical(short) && Canonical(long) && |short| < |long|
    ensures Val(short) < Val(long)
  {
    ValBound(short);
    ValLeading(long);
    Pow10Monotone(|short|, |long| - 1);
  }

  // ---- positiveIntegerToken ----

  /** A JSON value; a number is an integer, or one with a fraction, or too large to be finite. */
  datatype Json = Integer(value: int) | OtherNumber | Text(text: string) | OtherValue

  predicate IsPositiveU64Token(s: string) {
    && 0 < |s| <= |MAX_U64|
    && AllDigits(s) && s[0] != '0'
    && (|s| < |MAX_U64| || !LexLess(MAX_U64, s))
  }

  function PositiveIntegerToken(v: Json): Option<string> {
    match v
    case Integer(n) => if 0 < n <= MAX_SAFE_INTEGER then Some(Dec(n)) else None
    case Text(s) => if IsPositiveU64Token(s) then Some(s) else None
    case OtherNumber => None
    case OtherValue => None
  }

  lemma MaxU64Token()
    ensures Canonical(MAX_U64) && Val(MAX_U64) == MAX_U64_VALUE && MAX_U64 == Dec(MAX_U64_VALUE)
  {
    MaxU64Value();
    assert MAX_U64[0] == '1';
    DecVal(MAX_U64);
  }

  lemma MaxU64Value()
    ensures Val(MAX_U64) == MAX_U64_VALUE
  {
    var high, c, d := "1844674407", "37095", "51615";
    assert MAX_U64 == high + c + d;
    HighValue();
    Append5(high, c);
    Append5(high + c, d);
    assert Val(c) == 37095 by { Five(c); }
    assert Val(d) == 51615 by { Five(d); }
  }

  lemma HighValue()
    ensures Val("1844674407") == 1844674407
  {
    var a, b := "18446", "74407";
    assert "1844674407" == a + b;
    Append5(a, b);
    assert Val(a) == 18446 by { Five(a); }
    assert Val(b) == 74407 by { Five(b); }
  }

  lemma Append5(a: string, b: string)
    requires AllDigits(a) && AllDigits(b) && |b| == 5
    ensures Val(a + b) == Val(a) * 100_000 + Val(b)
  {
    ValConcat(a, b);
    assert Pow10(5) == 100_000;
  }

  lemma Five(b: string)
    requires AllDigits(b) && |b| == 5
    ensures Val(b) == DigitValue(b[0]) * 10_000 + DigitValue(b[1]) * 1_000 + DigitValue(b[2]) * 100
                      + DigitValue(b[3]) * 10 + DigitValue(b[4])
  {
    var b1, b2, b3, b4 := b[..1], b[..2], b[..3], b[..4];
    assert b4[..3] == b3 && b3[..2] == b2 && b2[..1] == b1 && b1[..0] == "";
    assert Val(b1) == DigitValue(b[0]);
    assert Val(b2) == Val(b1) * 10 + DigitValue(b[1]);
    assert Val(b3) == Val(b2) * 10 + DigitValue(b[2]);
    assert Val(b4) == Val(b3) * 10 + DigitValue(b[3]);
  }

  /** The text branch accepts exactly the canonical spellings of 1 up to 2^64 - 1. */
  lemma TextTokensExactly(s: string)
    ensures IsPositiveU64Token(s) <==> exists n :: 1 <= n <= MAX_U64_VALUE && s == Dec(n)
  {
    MaxU64Token();
    if Canonical(s) {
      DecVal(s);
      TokenOrderIsNumeric(s, MAX_U64);
      if s[0] == '0' { assert s == "0" && s[..0] == "" && Val(s) == 0; } else { ValPositive(s); }
    }
    forall n | 1 <= n <= MAX_U64_VALUE && s == Dec(n) ensures Val(s) == n { ValDec(n); }
    if IsPositiveU64Token(s) { assert s == Dec(Val(s)); }
  }

  /** Whatever is accepted comes back as the canonical spelling of a positive u64, from a text or from a number. */
  lemma AcceptedTokenExactly(v: Json, t: string)
    ensures PositiveIntegerToken(v) == Some(t) <==>
            exists n :: 1 <= n && t == Dec(n) && ((v == Text(t) && n <= MAX_U64_VALUE) || (v == Integer(n) && n <= MAX_SAFE_INTEGER))
  {
    if v.Text? { TextTokensExactly(v.text); }
    if v.Integer? && v.value > 0 { DecInjective(v.value, v.value); }
  }

  // ---- The Content-Length guard ----

  datatype LengthVerdict = Pass | NotCanonical | TooLarge

  function ContentLengthGuard(header: Option<string>, maxBytes: nat): LengthVerdict {
    if header.None? then Pass
    else if !Canonical(header.value) then NotCanonical
    else if TokenExceeds(header.value, Dec(maxBytes)) then TooLarge
    else Pass
  }

  /** A declared length is refused as too large exactly when it is one above the limit, however long it is. */
  lemma GuardExactly(s: string, maxBytes: nat)
    ensures ContentLengthGuard(Some(s), maxBytes) == TooLarge <==> exists n :: n > maxBytes && s == Dec(n)
    ensures ContentLengthGuard(Some(s), maxBytes) == Pass <==> exists n: nat :: n <= maxBytes && s == Dec(n)
  {
    ValDec(maxBytes);
    forall n: nat | s == Dec(n) ensures Val(s) == n { ValDec(n); }
    if Canonical(s) {
      DecVal(s);
      TokenOrderIsNumeric(s, Dec(maxBytes));
      assert s == Dec(Val(s));
    }
  }

  // ---- Heights ----

  predicate HeightAtLeast(observed: string, floor: string) {
    if |observed| != |floor| then |observed| > |floor| else !LexLess(observed, floor)
  }

  lemma HeightAtLeastIsNumeric(observed: string, floor: string)
    requires IsPositiveU64Token(observed) && IsPositiveU64Token(floor)
    ensures HeightAtLeast(observed, floor) <==> Val(observed) >= Val(floor)
  {
    TokenOrderIsNumeric(floor, observed);
  }
}
