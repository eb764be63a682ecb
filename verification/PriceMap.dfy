/** Exact decimal prices: parsing, canonical printing, and scaling by powers of ten without floating point. */
module PriceMap {
  import opened Prelude
  import opened Digits
  import opened FixedPoint
  import opened Amount

  /** (-1)^negative * digits * 10^exponent */
  datatype Decimal = Decimal(negative: bool, digits: string, exponent: int)

  // ---- Reading ----

  function IndexOfE(s: string): (n: nat)
    ensures n <= |s| && (n < |s| ==> s[n] == 'e' || s[n] == 'E') && forall i :: 0 <= i < n ==> s[i] != 'e' && s[i] != 'E'
  {
    if s == "" || s[0] == 'e' || s[0] == 'E' then 0 else 1 + IndexOfE(s[1..])
  }

  predicate Signed(s: string) { s != "" && (s[0] == '+' || s[0] == '-') }

  function Unsigned(s: string): string { if Signed(s) then s[1..] else s }

  /** The exponent after the `e`: an optional sign and at least one digit. */
  function ReadExponent(s: string): Option<int> {
    var digits := Unsigned(s);
    if digits == "" || !AllDigits(digits) then None
    else
      var n: int := Val(digits);
      Some(if s[0] == '-' then -n else n)
  }

  function ParseDecimal(input: string): (r: Option<Decimal>)
    ensures r.Some? ==> AllDigits(r.value.digits)
  {
    ParseTrimmed(Trim(input))
  }

  function ParseTrimmed(raw: string): (r: Option<Decimal>)
    ensures r.Some? ==> AllDigits(r.value.digits)
  {
    var body := Unsigned(raw);
    var n := IndexOfE(body);
    Assembled(raw != "" && raw[0] == '-', ReadFixed(body[..n]), if n == |body| then Some(0) else ReadExponent(body[n + 1..]))
  }

  /** A mantissa without a digit is none. */
  function Assembled(negative: bool, mantissa: Option<Fixed>, exponent: Option<int>): Option<Decimal> {
    if mantissa.None? || exponent.None? || (mantissa.value.whole == "" && mantissa.value.fraction == "") then None
    else Some(Decimal(negative, mantissa.value.whole + mantissa.value.fraction, exponent.value - |mantissa.value.fraction|))
  }

  // ---- What is read ----

  /** A sign, a whole part, a point and a fraction, and a power of ten, of which the parts may be missing. */
  datatype Spelling = Spelling(sign: string, whole: string, point: bool, fraction: string, mark: string, expSign: string, exp: string)

  predicate IsSign(s: string) { s == "" || s == "+" || s == "-" }

  predicate WellSpelled(p: Spelling) {
    && IsSign(p.sign) && AllDigits(p.whole) && AllDigits(p.fraction) && p.whole + p.fraction != "" && (!p.point ==> p.fraction == "")
    && (p.mark == "" || p.mark == "e" || p.mark == "E")
    && AllDigits(p.exp) && if p.mark == "" then p.expSign == p.exp == "" else IsSign(p.expSign) && p.exp != ""
  }

  function MantissaText(p: Spelling): string { p.whole + if p.point then "." + p.fraction else "" }

  function ExponentText(p: Spelling): string { p.mark + (p.expSign + p.exp) }

  function SpelledText(p: Spelling): string { p.sign + (MantissaText(p) + ExponentText(p)) }

  /** What it spells: the digits without the point, and the power of ten less the places after the point. */
  function SpelledValue(p: Spelling): Decimal
    requires WellSpelled(p)
  {
    Decimal(p.sign == "-", p.whole + p.fraction, Power(p) - |p.fraction|)
  }

  function Power(p: Spelling): int
    requires AllDigits(p.exp)
  {
    var n: int := Val(p.exp);
    if p.mark == "" then 0 else if p.expSign == "-" then -n else n
  }

  predicate NoE(s: string) { forall i :: 0 <= i < |s| ==> s[i] != 'e' && s[i] != 'E' }

  lemma {:induction false} IndexOfMark(m: string, rest: string)
    requires NoE(m) && (rest == "" || rest[0] == 'e' || rest[0] == 'E')
    ensures IndexOfE(m + rest) == |m|
  {
    if m != "" {
      assert (m + rest)[1..] == m[1..] + rest && (m + rest)[0] == m[0];
      IndexOfMark(m[1..], rest);
    } else {
      assert m + rest == rest;
    }
  }

  lemma MantissaReads(p: Spelling)
    requires WellSpelled(p)
    ensures ReadFixed(MantissaText(p)) == Some(Fixed(p.whole, p.fraction)) && NoE(MantissaText(p))
    ensures MantissaText(p) != "" && !Signed(MantissaText(p)) && Tight(MantissaText(p))
  {
    var m := MantissaText(p);
    if p.point {
      ReadPointed(p.whole, p.fraction);
      assert m == p.whole + "." + p.fraction;
    } else {
      ReadWhole(p.whole);
      assert m == p.whole;
    }
    forall i | 0 <= i < |m| ensures InMantissa(m[i]) {}
    MantissaChars(m);
  }

  predicate InMantissa(c: char) { IsDigit(c) || c == '.' }

  lemma MantissaChars(m: string)
    requires m != "" && forall i :: 0 <= i < |m| ==> InMantissa(m[i])
    ensures NoE(m) && !Signed(m) && Tight(m)
  {
    NoSpaceIn(m[0]);
    NoSpaceIn(m[|m| - 1]);
  }

  lemma NoSpaceIn(c: char)
    requires InMantissa(c) || c == '+' || c == '-'
    ensures !IsSpace(c)
  {}

  lemma ExponentReads(p: Spelling)
    requires WellSpelled(p) && p.mark != ""
    ensures ExponentText(p)[1..] == p.expSign + p.exp && (ExponentText(p)[0] == 'e' || ExponentText(p)[0] == 'E')
    ensures ReadExponent(p.expSign + p.exp) == Some(Power(p))
  {
    assert Unsigned(p.expSign + p.exp) == p.exp;
  }

  lemma UnsignedIs(sign: string, body: string)
    requires IsSign(sign) && body != "" && !Signed(body)
    ensures Unsigned(sign + body) == body
  {
    if sign == "" { assert sign + body == body; } else { assert (sign + body)[1..] == body; }
  }

  lemma SpelledIsTight(p: Spelling)
    requires WellSpelled(p)
    ensures Tight(SpelledText(p)) && SpelledText(p) != "" && (SpelledText(p)[0] == '-' <==> p.sign == "-")
  {
    MantissaReads(p);
    SpelledSign(p);
    var m, x := MantissaText(p), ExponentText(p);
    if p.mark == "" {
      assert x == "" && m + x == m;
    } else {
      TightTail(p.mark + p.expSign, p.exp);
      assert x == (p.mark + p.expSign) + p.exp;
      TightJoin(m, x);
    }
    if p.sign == "" {
      assert p.sign + (m + x) == m + x;
    } else {
      NoSpaceIn(p.sign[0]);
      TightJoin(p.sign, m + x);
    }
  }

  lemma TightJoin(a: string, b: string)
    requires a != "" && b != "" && !IsSpace(a[0]) && !IsSpace(b[|b| - 1])
    ensures Tight(a + b)
  {}

  lemma TightTail(a: string, digits: string)
    requires digits != "" && AllDigits(digits)
    ensures !IsSpace((a + digits)[|a + digits| - 1])
  {
    NoSpaceIn(digits[|digits| - 1]);
  }

  lemma SpellingParses(p: Spelling, before: string, after: string)
    requires WellSpelled(p) && AllSpaces(before) && AllSpaces(after)
    ensures ParseDecimal(before + SpelledText(p) + after) == Some(SpelledValue(p))
  {
    SpelledIsTight(p);
    TrimExactly(before, SpelledText(p), after);
    TrimmedParses(p);
  }

  lemma SplitsAt(m: string, x: string)
    ensures (m + x)[..|m|] == m && (x == "" ==> m + x == m) && (x != "" ==> (m + x)[|m| + 1..] == x[1..])
  {}

  /** How a text is read once it is known where its parts end. */
  lemma PartsParse(raw: string, m: string, x: string, f: Fixed, k: int)
    requires Unsigned(raw) == m + x && NoE(m) && (x == "" || x[0] == 'e' || x[0] == 'E')
    requires ReadFixed(m) == Some(f) && f.whole + f.fraction != ""
    requires if x == "" then k == 0 else ReadExponent(x[1..]) == Some(k)
    ensures ParseTrimmed(raw) == Some(Decimal(raw != "" && raw[0] == '-', f.whole + f.fraction, k - |f.fraction|))
  {
    PartsRead(m, x, f, k);
  }

  lemma PartsRead(m: string, x: string, f: Fixed, k: int)
    requires NoE(m) && (x == "" || x[0] == 'e' || x[0] == 'E')
    requires ReadFixed(m) == Some(f) && if x == "" then k == 0 else ReadExponent(x[1..]) == Some(k)
    ensures
      var body, n := m + x, |m|;
      && IndexOfE(body) == n && ReadFixed(body[..n]) == Some(f)
      && (if n == |body| then Some(0) else ReadExponent(body[n + 1..])) == Some(k)
  {
    IndexOfMark(m, x);
    SplitsAt(m, x);
  }

  lemma TrimmedParses(p: Spelling)
    requires WellSpelled(p)
    ensures ParseTrimmed(SpelledText(p)) == Some(SpelledValue(p))
  {
    SpelledSign(p);
    SpelledParts(p);
    var raw := SpelledText(p);
    TextParses(raw, raw[0] == '-', MantissaText(p), ExponentText(p), Fixed(p.whole, p.fraction), Power(p), SpelledValue(p));
  }

  lemma TextParses(raw: string, negative: bool, m: string, x: string, f: Fixed, k: int, d: Decimal)
    requires raw != "" && negative == (raw[0] == '-') && Unsigned(raw) == m + x && NoE(m) && (x == "" || x[0] == 'e' || x[0] == 'E')
    requires ReadFixed(m) == Some(f) && HasDigit(f) && if x == "" then k == 0 else ReadExponent(x[1..]) == Some(k)
    requires d == Decimal(negative, f.whole + f.fraction, k - |f.fraction|)
    ensures ParseTrimmed(raw) == Some(d)
  {
    PartsParse(raw, m, x, f, k);
  }

  lemma SpelledSign(p: Spelling)
    requires WellSpelled(p)
    ensures SpelledText(p) != "" && (SpelledText(p)[0] == '-' <==> p.sign == "-")
  {
    MantissaReads(p);
  }

  lemma SpelledParts(p: Spelling)
    requires WellSpelled(p)
    ensures
      var m, x := MantissaText(p), ExponentText(p);
      && Unsigned(SpelledText(p)) == m + x && NoE(m) && ReadFixed(m) == Some(Fixed(p.whole, p.fraction))
      && (x == "" || x[0] == 'e' || x[0] == 'E') && if x == "" then Power(p) == 0 else ReadExponent(x[1..]) == Some(Power(p))
  {
    var m, x := MantissaText(p), ExponentText(p);
    MantissaReads(p);
    NotSigned(m, x);
    UnsignedIs(p.sign, m + x);
    if p.mark == "" { assert x == ""; } else { ExponentReads(p); }
  }

  lemma NotSigned(m: string, x: string)
    requires m != "" && !Signed(m)
    ensures m + x != "" && !Signed(m + x)
  {}

  lemma TrimmedSpelled(raw: string) returns (p: Spelling)
    requires ParseTrimmed(raw).Some?
    ensures WellSpelled(p) && SpelledText(p) == raw
  {
    var body := Unsigned(raw);
    var sign := SignOf(raw);
    var n := PartsOf(raw, body);
    p := BodySpelled(sign, body, n);
  }

  lemma PartsOf(raw: string, body: string) returns (n: nat)
    requires ParseTrimmed(raw).Some? && body == Unsigned(raw)
    ensures n <= |body| && ReadFixed(body[..n]).Some? && HasDigit(ReadFixed(body[..n]).value)
    ensures n < |body| ==> (body[n] == 'e' || body[n] == 'E') && ReadExponent(body[n + 1..]).Some?
  {
    n := IndexOfE(body);
  }

  lemma BodySpelled(sign: string, body: string, n: nat) returns (p: Spelling)
    requires IsSign(sign) && n <= |body| && ReadFixed(body[..n]).Some? && HasDigit(ReadFixed(body[..n]).value)
    requires n < |body| ==> (body[n] == 'e' || body[n] == 'E') && ReadExponent(body[n + 1..]).Some?
    ensures WellSpelled(p) && SpelledText(p) == sign + body
  {
    if n == |body| {
      assert body[..n] == body;
      p := WithoutMark(sign, body);
    } else {
      assert body == body[..n] + ([body[n]] + body[n + 1..]);
      p := WithMark(sign, body[..n], [body[n]], body[n + 1..]);
    }
  }

  predicate HasDigit(f: Fixed) { f.whole + f.fraction != "" }

  lemma WithoutMark(sign: string, m: string) returns (p: Spelling)
    requires IsSign(sign) && ReadFixed(m).Some? && HasDigit(ReadFixed(m).value)
    ensures WellSpelled(p) && SpelledText(p) == sign + m
  {
    var f := ReadFixed(m).value;
    var point := FixedSpelled(m);
    p := Spelling(sign, f.whole, point, f.fraction, "", "", "");
    assert ExponentText(p) == "" && MantissaText(p) + "" == MantissaText(p);
  }

  lemma WithMark(sign: string, m: string, mark: string, rest: string) returns (p: Spelling)
    requires IsSign(sign) && ReadFixed(m).Some? && HasDigit(ReadFixed(m).value)
    requires (mark == "e" || mark == "E") && ReadExponent(rest).Some?
    ensures WellSpelled(p) && SpelledText(p) == sign + (m + (mark + rest))
  {
    var f := ReadFixed(m).value;
    var point := FixedSpelled(m);
    var expSign := SignOf(rest);
    p := Spelling(sign, f.whole, point, f.fraction, mark, expSign, Unsigned(rest));
    assert MantissaText(p) == m;
  }

  lemma SignOf(s: string) returns (sign: string)
    ensures IsSign(sign) && s == sign + Unsigned(s)
  {
    sign := if Signed(s) then s[..1] else "";
  }

  lemma FixedSpelled(s: string) returns (point: bool)
    requires ReadFixed(s).Some?
    ensures
      var f := ReadFixed(s).value;
      s == f.whole + (if point then "." + f.fraction else "") && (!point ==> f.fraction == "")
  {
    point := DigitRun(s) != |s|;
  }

  /** Nothing but a spelling between white space is read. */
  lemma OnlySpellings(text: string) returns (p: Spelling, before: string, after: string)
    requires ParseDecimal(text).Some?
    ensures WellSpelled(p) && AllSpaces(before) && AllSpaces(after) && text == before + SpelledText(p) + after
  {
    before, after := TrimSplits(text);
    p := TrimmedSpelled(Trim(text));
  }

  /** What is read: exactly the spellings, between white space, and each as what it spells. */
  lemma ParsesExactly(text: string)
    ensures ParseDecimal(text).Some? <==> exists p, before, after :: SpelledIn(text, p, before, after)
    ensures forall p, before, after :: SpelledIn(text, p, before, after) ==> ParseDecimal(text) == Some(SpelledValue(p))
  {
    if ParseDecimal(text).Some? {
      var p, before, after := OnlySpellings(text);
      assert SpelledIn(text, p, before, after);
    }
    forall p, before, after | SpelledIn(text, p, before, after) ensures ParseDecimal(text) == Some(SpelledValue(p)) {
      SpellingParses(p, before, after);
    }
  }

  predicate SpelledIn(text: string, p: Spelling, before: string, after: string) {
    WellSpelled(p) && AllSpaces(before) && AllSpaces(after) && text == before + SpelledText(p) + after
  }

  /** The spelling JavaScript gives to small numbers. */
  lemma SmallNumberReads()
    ensures ParseDecimal("1e-7") == Some(Decimal(false, "1", -7))
    ensures ToDecimalString("1e-7") == Some("0.0000001")
  {
    var p := Spelling("", "1", false, "", "e", "-", "7");
    assert SpelledText(p) == "1e-7" && "" + "1e-7" + "" == "1e-7";
    SpellingParses(p, "", "");
    assert SpelledValue(p) == Decimal(false, "1", -7) by { assert "7"[..0] == "" && Val("7") == 7 && "1" + "" == "1"; }
    SevenPlaces();
  }

  lemma SevenPlaces()
    ensures RenderDecimal(Decimal(false, "1", -7)) == "0.0000001"
  {
    assert StripLeading("1") == "1";
    var t := "0." + (Zeros(6) + "1");
    assert t == "0.0000001";
    assert t[|t| - 1] == '1' && StripTrailing(t) == t;
    assert WithPoint("1", 7) == TrimPoint(t) == t;
  }

  // ---- Printing ----

  function TrimPoint(s: string): string {
    var t := StripTrailing(s);
    if t != "" && t[|t| - 1] == '.' then t[..|t| - 1] else t
  }

  /** The digits with the point `shift` places from the right, as the code writes them. */
  function WithPoint(s: string, shift: nat): string {
    TrimPoint(if |s| > shift then s[..|s| - shift] + "." + s[|s| - shift..] else "0." + (Zeros(shift - |s|) + s))
  }

  function Magnitude(s: string, exponent: int): string {
    if exponent >= 0 then s + Zeros(exponent) else WithPoint(s, -exponent)
  }

  function RenderDecimal(d: Decimal): string {
    var significant := StripLeading(d.digits);
    if significant == "" then "0" else SignedText(d.negative, Magnitude(significant, d.exponent))
  }

  function SignedText(negative: bool, body: string): string { if negative then "-" + body else body }

  function ToDecimalString(s: string): Option<string> {
    match ParseDecimal(s) case None => None case Some(d) => Some(RenderDecimal(d))
  }

  function Shifted(d: Decimal, k: int): Decimal { d.(exponent := d.exponent + k) }

  function TokenPriceFromAsset(price: string, decimals: int): Option<string> {
    if !(0 <= decimals <= MAX_DECIMALS) then None else
    match ParseDecimal(price)
    case None => None
    case Some(d) => Some(RenderDecimal(Shifted(d, 0 - decimals)))
  }

  // ---- Values ----

  predicate IsZero(d: Decimal)
    requires AllDigits(d.digits)
  {
    Val(d.digits) == 0
  }

  /** The digits brought down to the common exponent `m`. */
  function At(d: Decimal, m: int): nat
    requires AllDigits(d.digits) && m <= d.exponent
  {
    Val(d.digits) * Pow10(d.exponent - m)
  }

  predicate SameValue(a: Decimal, b: Decimal)
    requires AllDigits(a.digits) && AllDigits(b.digits)
  {
    var m := Min(a.exponent, b.exponent);
    At(a, m) == At(b, m) && (a.negative == b.negative || IsZero(a))
  }

  /** No zeros at either end of the digits, and one zero. */
  function Normal(d: Decimal): Decimal {
    var s := StripLeading(d.digits);
    var t := StripTrailing(s);
    if s == "" then Decimal(false, "", 0) else Decimal(d.negative, t, d.exponent + |s| - |t|)
  }

  predicate IsNormal(d: Decimal) {
    if d.digits == "" then d == Decimal(false, "", 0)
    else AllDigits(d.digits) && d.digits[0] != '0' && d.digits[|d.digits| - 1] != '0'
  }

  lemma NormalIsNormal(d: Decimal)
    requires AllDigits(d.digits)
    ensures IsNormal(Normal(d)) && AllDigits(Normal(d).digits) && (Normal(d).digits == "" <==> IsZero(d))
    ensures Normal(d).digits != "" ==>
              Normal(d).negative == d.negative && Normal(d).exponent >= d.exponent
              && Val(d.digits) == Val(Normal(d).digits) * Pow10(Normal(d).exponent - d.exponent)
  {
    StripLeadingSplits(d.digits);
    var s := StripLeading(d.digits);
    StripTrailingSplits(s);
    var t := StripTrailing(s);
    if s != "" {
      ValPositive(s);
      TrailingZeros(t, |s| - |t|);
    }
  }

  // ---- Equal values have one normal form ----

  lemma SameScaled(x: nat, y: nat, i: nat, j: nat)
    requires x % 10 != 0 && y % 10 != 0 && j <= i && x * Pow10(i) == y * Pow10(j)
    ensures i == j && x == y
  {
    Pow10Split(j, i);
    ProductAssociates(x, Pow10(i - j), Pow10(j));
    MulCancel(x * Pow10(i - j), y, Pow10(j));
    if i > j { ScaledIsDivisible(x, i - j); }
  }

  lemma AtNormal(d: Decimal, m: int)
    requires AllDigits(d.digits) && !IsZero(d) && m <= d.exponent
    ensures m <= Normal(d).exponent && AllDigits(Normal(d).digits) && At(d, m) == At(Normal(d), m)
  {
    NormalIsNormal(d);
    var n := Normal(d);
    Pow10Split(d.exponent - m, n.exponent - m);
    ProductAssociates(Val(n.digits), Pow10(n.exponent - d.exponent), Pow10(d.exponent - m));
  }

  lemma AtZero(d: Decimal, m: int)
    requires AllDigits(d.digits) && m <= d.exponent
    ensures At(d, m) == 0 <==> IsZero(d)
  {
  }

  lemma NormalDigits(d: Decimal)
    requires IsNormal(d) && d.digits != ""
    ensures Val(d.digits) % 10 != 0 && Canonical(d.digits) && !IsZero(d)
  {
    NotDivisible(d.digits);
  }

  lemma NormalUnique(a: Decimal, b: Decimal, m: int)
    requires IsNormal(a) && IsNormal(b) && a.digits != "" && b.digits != "" && a.negative == b.negative
    requires m <= a.exponent && m <= b.exponent && At(a, m) == At(b, m)
    ensures a == b
  {
    NormalDigits(a);
    NormalDigits(b);
    if b.exponent <= a.exponent {
      SameScaled(Val(a.digits), Val(b.digits), a.exponent - m, b.exponent - m);
    } else {
      SameScaled(Val(b.digits), Val(a.digits), b.exponent - m, a.exponent - m);
    }
    DecVal(a.digits);
    DecVal(b.digits);
  }

  /** Two decimals have the same value exactly when they have the same normal form. */
  lemma NormalExactly(a: Decimal, b: Decimal)
    requires AllDigits(a.digits) && AllDigits(b.digits)
    ensures SameValue(a, b) <==> Normal(a) == Normal(b)
  {
    var m := Min(a.exponent, b.exponent);
    NormalIsNormal(a);
    NormalIsNormal(b);
    AtZero(a, m);
    AtZero(b, m);
    if !IsZero(a) && !IsZero(b) {
      AtNormal(a, m);
      AtNormal(b, m);
      if SameValue(a, b) { NormalUnique(Normal(a), Normal(b), m); }
    }
  }

  // ---- What printing writes ----

  lemma TrimKept(w: string, t: string)
    requires AllDigits(t) && (t == "" || t[|t| - 1] != '0')
    ensures TrimPoint(w + "." + t) == if t == "" then w else w + "." + t
  {
    var kept := w + "." + t;
    if t == "" {
      assert kept[|kept| - 1] == '.' && kept[..|kept| - 1] == w;
    } else {
      assert kept[|kept| - 1] == t[|t| - 1];
      assert IsDigit(t[|t| - 1]);
    }
  }

  lemma TrimPadded(w: string, t: string, k: nat)
    requires AllDigits(t) && (t == "" || t[|t| - 1] != '0')
    ensures TrimPoint(w + "." + (t + Zeros(k))) == if t == "" then w else w + "." + t
  {
    Associates(w + ".", t, Zeros(k));
    StripTrailingZeros(w + "." + t, k);
    TrimKept(w, t);
  }

  lemma TrimPointed(w: string, f: string)
    requires AllDigits(f)
    ensures TrimPoint(w + "." + f) == if StripTrailing(f) == "" then w else w + "." + StripTrailing(f)
  {
    StripTrailingSplits(f);
    TrimPadded(w, StripTrailing(f), |f| - |StripTrailing(f)|);
  }

  /** The unsigned text of `s` times ten to the `exponent`. */
  function Plainly(s: string, exponent: int): string {
    if exponent >= 0 then s + Zeros(exponent) else Pointed(s, -exponent)
  }

  lemma PointedOf(s: string, shift: nat, whole: string, f: string)
    requires PadStart(s, shift + 1) == whole + f && |f| == shift && AllDigits(f)
    ensures Pointed(s, shift) == TrimPoint(whole + "." + f)
  {
    var p := whole + f;
    assert p[..|p| - shift] == whole && p[|p| - shift..] == f;
    TrimPointed(whole, f);
  }

  lemma PointInside(s: string, shift: nat)
    requires AllDigits(s) && |s| > shift
    ensures WithPoint(s, shift) == Pointed(s, shift)
  {
    var whole, f := s[..|s| - shift], s[|s| - shift..];
    assert s == whole + f;
    PointedOf(s, shift, whole, f);
  }

  lemma OneMoreZero(n: nat, s: string)
    ensures Zeros(n + 1) + s == "0" + (Zeros(n) + s)
  {
    assert Zeros(n + 1) == "0" + Zeros(n);
    Associates("0", Zeros(n), s);
  }

  lemma PointBefore(s: string, shift: nat)
    requires AllDigits(s) && 0 < |s| <= shift
    ensures WithPoint(s, shift) == Pointed(s, shift)
  {
    var f := Zeros(shift - |s|) + s;
    OneMoreZero(shift - |s|, s);
    PointedOf(s, shift, "0", f);
    assert "0." + f == "0" + "." + f;
  }

  lemma MagnitudeIsPlain(s: string, exponent: int)
    requires AllDigits(s) && s != ""
    ensures Magnitude(s, exponent) == Plainly(s, exponent)
  {
    if exponent < 0 {
      var shift: nat := -exponent;
      assert WithPoint(s, shift) == Pointed(s, shift) by {
        if |s| > shift { PointInside(s, shift); } else { PointBefore(s, shift); }
      }
    }
  }

  lemma RenderPlainly(d: Decimal)
    requires AllDigits(d.digits)
    ensures
      var s := StripLeading(d.digits);
      RenderDecimal(d) == if s == "" then "0" else SignedText(d.negative, Plainly(s, d.exponent))
  {
    var s := StripLeading(d.digits);
    StripLeadingSplits(d.digits);
    if s != "" { MagnitudeIsPlain(s, d.exponent); }
  }

  lemma PlainlyTrailing(t: string, k: nat, exponent: int)
    requires t != ""
    ensures Plainly(t + Zeros(k), exponent) == Plainly(t, exponent + k)
  {
    if exponent >= 0 {
      assert t + Zeros(k) + Zeros(exponent) == t + Zeros(k + exponent);
    } else if k <= -exponent {
      ShiftWithin(t, k, -exponent);
      if k == -exponent { PointedAtZero(t); assert t + Zeros(0) == t; }
    } else {
      ShiftBeyond(t, k, -exponent);
    }
  }

  lemma {:induction false} StripTrailingHead(s: string)
    requires s != "" && s[0] != '0'
    ensures StripTrailing(s) != "" && StripTrailing(s)[0] == s[0]
  {
    if s[|s| - 1] == '0' { StripTrailingHead(s[..|s| - 1]); }
  }

  lemma WithoutZeros(s: string) returns (t: string)
    requires Canonical(s) && s[0] != '0'
    ensures t == StripTrailing(s) && t != "" && |t| <= |s| && s == t + Zeros(|s| - |t|)
  {
    t := StripTrailing(s);
    StripTrailingSplits(s);
    StripTrailingHead(s);
  }

  lemma PlainlyStripped(s: string, t: string, exponent: int)
    requires t != "" && |t| <= |s| && s == t + Zeros(|s| - |t|)
    ensures Plainly(s, exponent) == Plainly(t, exponent + |s| - |t|)
  {
    PlainlyTrailing(t, |s| - |t|, exponent);
  }

  lemma NormalParts(d: Decimal, s: string)
    requires AllDigits(d.digits) && s == StripLeading(d.digits) && s != ""
    ensures
      var t := StripTrailing(s);
      Normal(d) == Decimal(d.negative, t, d.exponent + |s| - |t|) && t != "" && StripLeading(t) == t && Canonical(s) && s[0] != '0'
  {
    StripLeadingSplits(d.digits);
    StripTrailingHead(s);
  }

  lemma DecimalText(d: Decimal, s: string)
    requires AllDigits(d.digits) && s == StripLeading(d.digits) && s != ""
    ensures RenderDecimal(d) == SignedText(d.negative, Plainly(s, d.exponent))
  {
    RenderPlainly(d);
  }

  lemma NormalText(n: Decimal)
    requires IsNormal(n) && n.digits != ""
    ensures RenderDecimal(n) == SignedText(n.negative, Plainly(n.digits, n.exponent))
  {
    assert StripLeading(n.digits) == n.digits;
    DecimalText(n, n.digits);
  }

  lemma SameText(negative: bool, x: string, y: string, a: string, b: string)
    requires a == SignedText(negative, x) && b == SignedText(negative, y) && x == y
    ensures a == b
  {}

  lemma RenderNonzero(d: Decimal, s: string)
    requires AllDigits(d.digits) && s == StripLeading(d.digits) && s != "" && IsNormal(Normal(d))
    ensures RenderDecimal(d) == RenderDecimal(Normal(d))
  {
    NormalParts(d, s);
    var n := Normal(d);
    var t := WithoutZeros(s);
    PlainlyStripped(s, t, d.exponent);
    DecimalText(d, s);
    NormalText(n);
    SameText(d.negative, Plainly(s, d.exponent), Plainly(t, d.exponent + |s| - |t|), RenderDecimal(d), RenderDecimal(n));
  }

  /** Printing looks only at the normal form. */
  lemma RenderNormal(d: Decimal)
    requires AllDigits(d.digits)
    ensures RenderDecimal(d) == RenderDecimal(Normal(d))
  {
    NormalIsNormal(d);
    var s := StripLeading(d.digits);
    if s == "" { assert Normal(d) == Decimal(false, "", 0); } else { RenderNonzero(d, s); }
  }

  // ---- What printing writes reads back ----

  function FixedText(f: Fixed): string { if f.fraction == "" then f.whole else f.whole + "." + f.fraction }

  lemma FixedTextReads(f: Fixed)
    requires AllDigits(f.whole) && AllDigits(f.fraction) && f.whole != ""
    ensures ReadFixed(FixedText(f)) == Some(f) && NoSpaces(FixedText(f)) && NoE(FixedText(f))
    ensures FixedText(f) != "" && IsDigit(FixedText(f)[0])
  {
    PlainHasNoSpaces(f);
    if f.fraction == "" { ReadWhole(f.whole); } else { ReadPointed(f.whole, f.fraction); }
  }

  lemma SignedParts(body: string, negative: bool)
    requires body != "" && IsDigit(body[0]) && NoSpaces(body)
    ensures
      var text := SignedText(negative, body);
      Trim(text) == text && Unsigned(text) == body && text != "" && (text[0] == '-') == negative
  {
    var text := SignedText(negative, body);
    assert negative ==> text[0] == '-' && text[1..] == body;
    TrimKeeps(text);
  }

  lemma ParsePlain(f: Fixed, negative: bool)
    requires AllDigits(f.whole) && AllDigits(f.fraction) && f.whole != ""
    ensures ParseDecimal(SignedText(negative, FixedText(f))) == Some(Decimal(negative, f.whole + f.fraction, 0 - |f.fraction|))
  {
    var body := FixedText(f);
    FixedTextReads(f);
    SignedParts(body, negative);
    assert body[..|body|] == body;
  }

  /** What `Plainly` writes, as whole part and fraction. */
  function PlainParts(s: string, exponent: int): Fixed {
    if exponent >= 0 then Fixed(s + Zeros(exponent), "") else PointedParts(s, -exponent)
  }

  lemma PlainPartsRead(s: string, exponent: int)
    requires Canonical(s)
    ensures
      var f := PlainParts(s, exponent);
      && AllDigits(f.whole) && AllDigits(f.fraction) && f.whole != ""
      && Plainly(s, exponent) == FixedText(f)
      && (exponent < 0 ==> Plain(f))
  {
    if exponent < 0 {
      PartsPlain(s, -exponent);
    } else {
      assert PlainParts(s, exponent) == Fixed(s + Zeros(exponent), "");
    }
  }

  lemma WholePartsValue(s: string, exponent: nat, negative: bool)
    requires Canonical(s)
    ensures SameValue(Decimal(negative, s + Zeros(exponent), 0), Decimal(negative, s, exponent))
  {
    TrailingZeros(s, exponent);
    assert Pow10(0) == 1;
  }

  lemma PointedPartsValue(s: string, shift: nat, negative: bool)
    requires Canonical(s)
    ensures
      var f := PointedParts(s, shift);
      AllDigits(f.whole + f.fraction)
      && SameValue(Decimal(negative, f.whole + f.fraction, 0 - |f.fraction|), Decimal(negative, s, 0 - shift))
  {
    PartsPlain(s, shift);
    PartsValue(s, shift);
    var f := PointedParts(s, shift);
    PointedAt(Val(f.whole + f.fraction), Val(s), |f.fraction|, shift);
  }

  lemma PlainPartsValue(s: string, exponent: int, negative: bool)
    requires Canonical(s)
    ensures
      var f := PlainParts(s, exponent);
      AllDigits(f.whole + f.fraction)
      && SameValue(Decimal(negative, f.whole + f.fraction, 0 - |f.fraction|), Decimal(negative, s, exponent))
  {
    if exponent >= 0 {
      assert s + Zeros(exponent) + "" == s + Zeros(exponent);
      WholePartsValue(s, exponent, negative);
    } else {
      PointedPartsValue(s, -exponent, negative);
    }
  }

  lemma PointedAt(v: nat, n: nat, places: nat, shift: nat)
    requires places <= shift && v * Pow10(shift) == n * Pow10(places)
    ensures v * Pow10(shift - places) == n * Pow10(0)
  {
    Pow10Split(places, shift);
    ProductAssociates(v, Pow10(shift - places), Pow10(places));
    MulCancel(v * Pow10(shift - places), n, Pow10(places));
  }

  lemma PlainlyParses(s: string, exponent: int, negative: bool, text: string)
    requires Canonical(s) && text == SignedText(negative, Plainly(s, exponent))
    ensures
      var f := PlainParts(s, exponent);
      ParseDecimal(text) == Some(Decimal(negative, f.whole + f.fraction, 0 - |f.fraction|))
  {
    var f := PlainPartsText(s, exponent);
    SameTextParses(f, Plainly(s, exponent), negative, text);
  }

  lemma PlainPartsText(s: string, exponent: int) returns (f: Fixed)
    requires Canonical(s)
    ensures f == PlainParts(s, exponent) && Plainly(s, exponent) == FixedText(f)
    ensures AllDigits(f.whole) && AllDigits(f.fraction) && f.whole != ""
  {
    f := PlainParts(s, exponent);
    PlainPartsRead(s, exponent);
  }

  lemma SameTextParses(f: Fixed, body: string, negative: bool, text: string)
    requires AllDigits(f.whole) && AllDigits(f.fraction) && f.whole != "" && body == FixedText(f) && text == SignedText(negative, body)
    ensures ParseDecimal(text) == Some(Decimal(negative, f.whole + f.fraction, 0 - |f.fraction|))
  {
    PlainTextParses(f, negative, text);
  }

  lemma PlainTextParses(f: Fixed, negative: bool, text: string)
    requires AllDigits(f.whole) && AllDigits(f.fraction) && f.whole != "" && text == SignedText(negative, FixedText(f))
    ensures ParseDecimal(text) == Some(Decimal(negative, f.whole + f.fraction, 0 - |f.fraction|))
  {
    ParsePlain(f, negative);
  }

  lemma PlainlyKeepsValue(s: string, exponent: int, negative: bool, text: string)
    requires Canonical(s) && text == SignedText(negative, Plainly(s, exponent))
    ensures ParseDecimal(text).Some? && SameValue(ParseDecimal(text).value, Decimal(negative, s, exponent))
  {
    PlainlyParses(s, exponent, negative, text);
    PlainPartsValue(s, exponent, negative);
  }

  lemma NormalPrints(n: Decimal)
    requires IsNormal(n) && n.digits != ""
    ensures ParseDecimal(RenderDecimal(n)).Some? && SameValue(ParseDecimal(RenderDecimal(n)).value, n)
  {
    NormalDigits(n);
    NormalText(n);
    PlainlyKeepsValue(n.digits, n.exponent, n.negative, RenderDecimal(n));
  }

  lemma ZeroParses(d: Decimal)
    requires AllDigits(d.digits) && IsZero(d) && RenderDecimal(d) == "0"
    ensures ParseDecimal("0").Some? && SameValue(ParseDecimal("0").value, d)
  {
    ParsePlain(Fixed("0", ""), false);
    assert FixedText(Fixed("0", "")) == "0" && "0" + "" == "0";
    ZeroPrints(d);
  }

  /** Printing keeps the exact value. */
  lemma PrintedValue(d: Decimal)
    requires AllDigits(d.digits)
    ensures ParseDecimal(RenderDecimal(d)).Some? && SameValue(ParseDecimal(RenderDecimal(d)).value, d)
  {
    NormalIsNormal(d);
    var n := Normal(d);
    RenderNormal(d);
    if n.digits == "" {
      assert RenderDecimal(n) == "0";
      ZeroParses(d);
    } else {
      NormalPrints(n);
      var x := ParseDecimal(RenderDecimal(n)).value;
      SameThrough(x, n, d);
    }
  }

  lemma SameThrough(x: Decimal, n: Decimal, d: Decimal)
    requires AllDigits(x.digits) && AllDigits(n.digits) && AllDigits(d.digits)
    requires SameValue(x, n) && Normal(n) == n && Normal(d) == n
    ensures SameValue(x, d)
  {
    NormalExactly(x, n);
    NormalExactly(x, d);
  }

  lemma ZeroPrints(d: Decimal)
    requires AllDigits(d.digits) && IsZero(d)
    ensures SameValue(Decimal(false, "0", 0), d)
  {
    assert "0"[..0] == "" && Val("0") == 0;
    AtZero(d, Min(0, d.exponent));
    AtZero(Decimal(false, "0", 0), Min(0, d.exponent));
  }

  /** What is printed: a minus for a negative number, a whole part without redundant zeros, and a point only before a
      fraction that does not end in zero; never an exponent. */
  lemma PrintsPlainly(d: Decimal)
    requires AllDigits(d.digits)
    ensures exists f: Fixed :: Canonical(f.whole) && AllDigits(f.fraction) && (f.fraction != "" ==> f.fraction[|f.fraction| - 1] != '0')
                        && RenderDecimal(d) == SignedText(d.negative && !IsZero(d), FixedText(f))
  {
    var s := StripLeading(d.digits);
    StripLeadingSplits(d.digits);
    RenderPlainly(d);
    if s == "" {
      assert Plain(Fixed("0", "")) && FixedText(Fixed("0", "")) == "0";
    } else {
      ValPositive(s);
      PlainPartsRead(s, d.exponent);
      PartsArePlain(s, d.exponent);
    }
  }

  lemma PartsArePlain(s: string, exponent: int)
    requires Canonical(s) && s[0] != '0'
    ensures Plain(PlainParts(s, exponent))
  {
    PlainPartsRead(s, exponent);
  }

  // ---- The canonical form ----

  /** Two inputs print alike exactly when they have the same value. */
  lemma PrintsAlikeExactly(a: Decimal, b: Decimal)
    requires AllDigits(a.digits) && AllDigits(b.digits)
    ensures RenderDecimal(a) == RenderDecimal(b) <==> SameValue(a, b)
  {
    NormalExactly(a, b);
    RenderNormal(a);
    RenderNormal(b);
    PrintedValue(a);
    PrintedValue(b);
    var x := ParseDecimal(RenderDecimal(a)).value;
    NormalExactly(x, a);
    if RenderDecimal(a) == RenderDecimal(b) { NormalExactly(x, b); }
  }

  /** The canonical text keeps the value, is its own canonical text, and is shared by all texts of that value. */
  lemma CanonicalForm(s: string, t: string)
    requires ParseDecimal(s).Some? && ParseDecimal(t).Some?
    ensures
      var c := ToDecimalString(s).value;
      && ParseDecimal(c).Some? && SameValue(ParseDecimal(c).value, ParseDecimal(s).value)
      && ToDecimalString(c) == Some(c)
    ensures ToDecimalString(s) == ToDecimalString(t) <==> SameValue(ParseDecimal(s).value, ParseDecimal(t).value)
  {
    var d := ParseDecimal(s).value;
    PrintedValue(d);
    PrintsAlikeExactly(ParseDecimal(RenderDecimal(d)).value, d);
    PrintsAlikeExactly(d, ParseDecimal(t).value);
  }

  // ---- Scaling ----

  lemma ShiftKeepsEquality(a: Decimal, b: Decimal, k: int)
    requires AllDigits(a.digits) && AllDigits(b.digits)
    ensures SameValue(Shifted(a, k), Shifted(b, k)) <==> SameValue(a, b)
  {
    assert Min(a.exponent + k, b.exponent + k) == Min(a.exponent, b.exponent) + k;
  }

  /** Ten to the `k` times the first is the second, at every common exponent. */
  ghost predicate IsTimes(r: Decimal, k: nat, p: Decimal)
    requires AllDigits(r.digits) && AllDigits(p.digits)
  {
    && (r.negative == p.negative || IsZero(p))
    && forall m :: m <= r.exponent && m <= p.exponent ==> At(r, m) * Pow10(k) == At(p, m)
  }

  /** There is a price exactly for a number and decimals up to 38; and ten to the decimals times the per-base-unit price is the
      asset price, exactly. */
  lemma PriceScalesExactly(price: string, decimals: int)
    ensures TokenPriceFromAsset(price, decimals).Some? <==> ParseDecimal(price).Some? && 0 <= decimals <= 38
    ensures TokenPriceFromAsset(price, decimals).Some? ==>
              var r := ParseDecimal(TokenPriceFromAsset(price, decimals).value);
              r.Some? && IsTimes(r.value, decimals, ParseDecimal(price).value)
  {
    if ParseDecimal(price).Some? && 0 <= decimals <= 38 {
      var p := ParseDecimal(price).value;
      var d := Shifted(p, 0 - decimals);
      PrintedValue(d);
      ShiftedBack(ParseDecimal(RenderDecimal(d)).value, p, decimals);
    }
  }

  lemma ShiftedBack(r: Decimal, p: Decimal, k: nat)
    requires AllDigits(r.digits) && AllDigits(p.digits) && SameValue(r, Shifted(p, 0 - k))
    ensures IsTimes(r, k, p)
  {
    ShiftKeepsEquality(r, Shifted(p, 0 - k), k);
    var n := Min(r.exponent + k, p.exponent);
    forall m | m <= r.exponent && m <= p.exponent ensures At(r, m) * Pow10(k) == At(p, m) {
      Carried(Val(r.digits), Val(p.digits), r.exponent + k - n, p.exponent - n, n - m);
      Lowered(Val(r.digits), r.exponent - m, k);
    }
  }

  lemma Carried(v: nat, w: nat, a: nat, b: nat, c: nat)
    requires v * Pow10(a) == w * Pow10(b)
    ensures v * Pow10(a + c) == w * Pow10(b + c)
  {
    Lowered(v, a, c);
    Lowered(w, b, c);
  }

  lemma Lowered(v: nat, a: nat, b: nat)
    ensures v * Pow10(a + b) == v * Pow10(a) * Pow10(b)
  {
    Pow10Add(a, b);
    ProductAssociates(v, Pow10(a), Pow10(b));
  }

  /** Scaling in two steps is scaling once. */
  lemma ScalingComposes(price: string, a: nat, b: nat)
    requires ParseDecimal(price).Some? && a + b <= MAX_DECIMALS
    ensures
      var once := TokenPriceFromAsset(price, a);
      once.Some? && TokenPriceFromAsset(once.value, b) == TokenPriceFromAsset(price, a + b)
  {
    RescaledPrint(ParseDecimal(price).value, a, b);
  }

  lemma RescaledPrint(p: Decimal, a: nat, b: nat)
    requires AllDigits(p.digits)
    ensures
      var x := ParseDecimal(RenderDecimal(Shifted(p, 0 - a)));
      x.Some? && RenderDecimal(Shifted(x.value, 0 - b)) == RenderDecimal(Shifted(p, 0 - (a + b)))
  {
    var d := Shifted(p, 0 - a);
    PrintedValue(d);
    assert Shifted(d, 0 - b) == Shifted(p, 0 - (a + b));
    var x := ParseDecimal(RenderDecimal(d)).value;
    ShiftKeepsEquality(x, d, 0 - b);
    PrintsAlikeExactly(Shifted(x, 0 - b), Shifted(d, 0 - b));
  }
}
