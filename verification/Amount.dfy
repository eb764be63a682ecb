/** Whole coins to base units and back, exactly or not at all. */
module Amount {
  import opened Prelude
  import opened Digits
  import opened FixedPoint

  const MAX_DECIMALS := 38

  datatype Coins = Whole(value: int) | Text(text: string)

  function PadEnd(s: string, width: nat): (p: string)
    ensures AllDigits(s) ==> AllDigits(p)
  {
    if |s| >= width then s else s + Zeros(width - |s|)
  }

  function ParseText(s: string): (r: Option<Fixed>)
    ensures r.Some? ==> r.value.whole != "" && AllDigits(r.value.whole) && AllDigits(r.value.fraction)
  {
    var f := ReadFixed(Trim(s));
    if f.Some? && f.value.whole != "" then f else None
  }

  function CoinsToBaseUnits(coins: Coins, decimals: int): Option<nat> {
    if !(0 <= decimals <= MAX_DECIMALS) then None else
    match coins
    case Whole(v) => if v < 0 then None else Some(v * Pow10(decimals))
    case Text(s) =>
      match ParseText(s)
      case None => None
      case Some(f) => FixedToUnits(f, decimals)
  }

  function Times(a: nat, b: nat): nat { a * b }

  function FixedToUnits(f: Fixed, decimals: nat): Option<nat>
    requires AllDigits(f.whole) && AllDigits(f.fraction)
  {
    StripTrailingSplits(f.fraction);
    var fraction := StripTrailing(f.fraction);
    if |fraction| > decimals then None
    else Some(Times(Val(f.whole), Pow10(decimals)) + Val(PadEnd(fraction, decimals)))
  }

  function BaseUnitsToCoins(value: int, decimals: int): Option<string> {
    if !(0 <= decimals <= MAX_DECIMALS) || value < 0 then None else
    if decimals == 0 then Some(Dec(value)) else
    Some(Pointed(Dec(value), decimals))
  }

  // ---- Exact or nothing ----

  /** `n` base units are exactly the spelled number of coins. */
  predicate ExactUnits(f: Fixed, n: nat, decimals: nat) { Equals(f, n, decimals) }

  lemma MulCancel(a: nat, b: nat, p: nat)
    requires p > 0 && a * p == b * p
    ensures a == b
  {}

  lemma NotDivisible(s: string)
    requires AllDigits(s) && s != "" && s[|s| - 1] != '0'
    ensures Val(s) % 10 != 0
  {
    assert Val(s) == Val(s[..|s| - 1]) * 10 + DigitValue(s[|s| - 1]);
  }

  /** The value computed is the digits moved by the missing places. */
  lemma ComputedUnits(whole: string, fraction: string, decimals: nat)
    requires AllDigits(whole) && AllDigits(fraction) && |fraction| <= decimals
    ensures Times(Val(whole), Pow10(decimals)) + Val(PadEnd(fraction, decimals)) == Val(whole + fraction) * Pow10(decimals - |fraction|)
  {
    var k := decimals - |fraction|;
    var padded := fraction + Zeros(k);
    assert PadEnd(fraction, decimals) == padded by { assert fraction + Zeros(0) == fraction; }
    ValConcat(whole, padded);
    assert whole + padded == (whole + fraction) + Zeros(k);
    TrailingZeros(whole + fraction, k);
  }

  lemma StrippedValue(f: Fixed)
    requires AllDigits(f.whole) && AllDigits(f.fraction)
    ensures
      var t := StripTrailing(f.fraction);
      |t| <= |f.fraction| && AllDigits(t) && Val(f.whole + f.fraction) == Val(f.whole + t) * Pow10(|f.fraction| - |t|)
  {
    StripTrailingSplits(f.fraction);
    var t := StripTrailing(f.fraction);
    CutZeros(f.whole, f.fraction, t, |f.fraction| - |t|);
  }

  lemma CutZeros(whole: string, fraction: string, t: string, k: nat)
    requires AllDigits(whole) && AllDigits(t) && fraction == t + Zeros(k)
    ensures AllDigits(fraction) && Val(whole + fraction) == Val(whole + t) * Pow10(k)
  {
    assert whole + fraction == (whole + t) + Zeros(k);
    TrailingZeros(whole + t, k);
  }

  lemma Regroup(v: nat, a: nat, b: nat, c: nat, d: nat)
    requires a * b == c * d
    ensures (v * a) * b == (v * c) * d
  {
    assert (v * a) * b == v * (a * b);
    assert (v * c) * d == v * (c * d);
  }

  lemma FitsExactly(f: Fixed, decimals: nat)
    requires AllDigits(f.whole) && AllDigits(f.fraction) && |StripTrailing(f.fraction)| <= decimals
    ensures
      var t := StripTrailing(f.fraction);
      AllDigits(t) && ExactUnits(f, Times(Val(f.whole), Pow10(decimals)) + Val(PadEnd(t, decimals)), decimals)
  {
    StrippedValue(f);
    var t := StripTrailing(f.fraction);
    ComputedUnits(f.whole, t, decimals);
    var k := |f.fraction| - |t|;
    Pow10Add(k, decimals);
    Pow10Add(decimals - |t|, |f.fraction|);
    Regroup(Val(f.whole + t), Pow10(k), Pow10(decimals), Pow10(decimals - |t|), Pow10(|f.fraction|));
  }

  lemma TenDivides(n: nat, p: nat)
    ensures (n * (10 * p)) % 10 == 0
  {
    assert n * (10 * p) == 10 * (n * p);
  }

  lemma ScaledIsDivisible(x: nat, k: nat)
    requires k > 0
    ensures (x * Pow10(k)) % 10 == 0
  {
    TenDivides(x, Pow10(k - 1));
  }

  lemma ProductAssociates(a: nat, b: nat, c: nat)
    ensures a * (b * c) == a * b * c
  {}

  /** A number that does not end in zero is no whole multiple of a higher power of ten. */
  lemma NeverMeets(v: nat, n: nat, k: nat, decimals: nat, places: nat)
    requires v % 10 != 0 && decimals < places
    ensures (v * Pow10(k)) * Pow10(decimals) != n * Pow10(places + k)
  {
    var common, excess := Pow10(k + decimals), Pow10(places - decimals);
    Pow10Add(k, decimals);
    ProductAssociates(v, Pow10(k), Pow10(decimals));
    Pow10Split(k + decimals, places + k);
    assert places + k - (k + decimals) == places - decimals;
    ProductAssociates(n, excess, common);
    ScaledIsDivisible(n, places - decimals);
    if v * common == n * excess * common { MulCancel(v, n * excess, common); }
  }

  lemma TooFine(f: Fixed, n: nat, decimals: nat)
    requires AllDigits(f.whole) && AllDigits(f.fraction) && |StripTrailing(f.fraction)| > decimals
    ensures !ExactUnits(f, n, decimals)
  {
    StrippedValue(f);
    StripTrailingSplits(f.fraction);
    var t := StripTrailing(f.fraction);
    var k := |f.fraction| - |t|;
    NotDivisible(f.whole + t);
    assert |t| + k == |f.fraction|;
    NeverMeets(Val(f.whole + t), n, k, decimals, |t|);
  }

  lemma ExactUnique(f: Fixed, m: nat, n: nat, decimals: nat)
    requires AllDigits(f.whole) && AllDigits(f.fraction) && ExactUnits(f, m, decimals) && ExactUnits(f, n, decimals)
    ensures m == n
  {
    MulCancel(m, n, Pow10(|f.fraction|));
  }

  lemma FixedExactly(f: Fixed, decimals: nat, n: nat)
    requires AllDigits(f.whole) && AllDigits(f.fraction)
    ensures FixedToUnits(f, decimals) == Some(n) <==> ExactUnits(f, n, decimals)
  {
    if |StripTrailing(f.fraction)| <= decimals {
      FitsExactly(f, decimals);
      if ExactUnits(f, n, decimals) { ExactUnique(f, FixedToUnits(f, decimals).value, n, decimals); }
    } else {
      TooFine(f, n, decimals);
    }
  }

  /** A spelled amount converts exactly when the number of base units it names is whole, and then to that number. */
  lemma ConvertsExactly(s: string, decimals: nat, n: nat)
    requires decimals <= MAX_DECIMALS && ParseText(s).Some?
    ensures CoinsToBaseUnits(Text(s), decimals) == Some(n) <==> ExactUnits(ParseText(s).value, n, decimals)
  {
    FixedExactly(ParseText(s).value, decimals, n);
  }

  /** A whole number of coins converts as its decimal spelling does; a negative one, and one with more decimals than any
      coin has, does not. */
  lemma WholeIsText(v: int, decimals: int)
    ensures v < 0 || decimals < 0 || decimals > 38 ==> CoinsToBaseUnits(Whole(v), decimals) == None
    ensures v >= 0 ==> CoinsToBaseUnits(Whole(v), decimals) == CoinsToBaseUnits(Text(Dec(v)), decimals)
  {
    if v >= 0 && 0 <= decimals <= 38 {
      var f := Fixed(Dec(v), "");
      PlainHasNoSpaces(f);
      TrimKeeps(Dec(v));
      ReadWhole(Dec(v));
      ValDec(v);
      assert Dec(v) + "" == Dec(v) && Pow10(0) == 1;
      FixedExactly(f, decimals, v * Pow10(decimals));
    }
  }

  /** What is read as an amount: digits, and perhaps a point and more digits, between white space; and nothing else. */
  lemma ReadsExactly(text: string)
    ensures ParseText(text).Some? <==> exists w, point, f, before, after :: AmountIn(text, w, point, f, before, after)
    ensures forall w, point, f, before, after :: AmountIn(text, w, point, f, before, after) ==> ParseText(text) == Some(Fixed(w, f))
  {
    if ParseText(text).Some? {
      var before, after := TrimSplits(text);
      var w, point, f := SpelledAs(Trim(text));
      assert AmountIn(text, w, point, f, before, after);
    }
    forall w, point, f, before, after | AmountIn(text, w, point, f, before, after) ensures ParseText(text) == Some(Fixed(w, f)) {
      AmountReads(w, point, f, before, after);
    }
  }

  lemma SpelledAs(s: string) returns (w: string, point: bool, f: string)
    requires s != "" && ReadFixed(s).Some? && ReadFixed(s).value.whole != ""
    ensures w != "" && AllDigits(w) && AllDigits(f) && (!point ==> f == "") && s == AmountText(w, point, f)
  {
    var n := DigitRun(s);
    w, point, f := ReadFixed(s).value.whole, n < |s|, ReadFixed(s).value.fraction;
    if point { assert s == s[..n] + "." + s[n + 1..]; }
  }

  predicate AmountIn(text: string, w: string, point: bool, f: string, before: string, after: string) {
    && w != "" && AllDigits(w) && AllDigits(f) && (!point ==> f == "") && AllSpaces(before) && AllSpaces(after)
    && text == before + AmountText(w, point, f) + after
  }

  function AmountText(w: string, point: bool, f: string): string { if point then w + "." + f else w }

  lemma AmountReads(w: string, point: bool, f: string, before: string, after: string)
    requires w != "" && AllDigits(w) && AllDigits(f) && (!point ==> f == "") && AllSpaces(before) && AllSpaces(after)
    ensures ParseText(before + AmountText(w, point, f) + after) == Some(Fixed(w, f))
  {
    PlainHasNoSpaces(Fixed(w, f));
    TrimExactly(before, AmountText(w, point, f), after);
    if point { ReadPointed(w, f); } else { ReadWhole(w); }
  }

  // ---- Round trips ----

  lemma PlainHasNoSpaces(f: Fixed)
    requires AllDigits(f.whole) && AllDigits(f.fraction)
    ensures NoSpaces(f.whole) && NoSpaces(f.whole + "." + f.fraction)
  {}

  lemma PointedParses(value: nat, decimals: nat)
    ensures
      var s := Pointed(Dec(value), decimals);
      ParseText(s).Some? && Plain(ParseText(s).value) && Equals(ParseText(s).value, value, decimals)
  {
    var f := PointedParts(Dec(value), decimals);
    PointedReads(Dec(value), decimals);
    PartsPlain(Dec(value), decimals);
    ValDec(value);
    PlainHasNoSpaces(f);
    TrimKeeps(Pointed(Dec(value), decimals));
  }

  lemma PointedAtZero(s: string)
    ensures s != "" ==> Pointed(s, 0) == s
  {
    if s != "" { assert PadStart(s, 1) == s && s[..|s|] == s && s[|s|..] == ""; }
  }

  /** Every base-unit amount survives the trip through its coin spelling, at every number of decimals. */
  lemma UnitsRoundTrip(value: nat, decimals: nat)
    requires decimals <= MAX_DECIMALS
    ensures BaseUnitsToCoins(value, decimals).Some?
    ensures CoinsToBaseUnits(Text(BaseUnitsToCoins(value, decimals).value), decimals) == Some(value)
    ensures ParseText(BaseUnitsToCoins(value, decimals).value).Some? && Plain(ParseText(BaseUnitsToCoins(value, decimals).value).value)
  {
    PointedParses(value, decimals);
    PointedAtZero(Dec(value));
    ConvertsExactly(Pointed(Dec(value), decimals), decimals, value);
  }

  function Normalize(s: string, decimals: nat): Option<string> {
    match CoinsToBaseUnits(Text(s), decimals)
    case None => None
    case Some(n) => BaseUnitsToCoins(n, decimals)
  }

  /** The other way round normalises: a normal spelling stays as it is. */
  lemma NormalizeIsIdempotent(s: string, decimals: nat, t: string)
    requires decimals <= MAX_DECIMALS && Normalize(s, decimals) == Some(t)
    ensures Normalize(t, decimals) == Some(t)
  {
    UnitsRoundTrip(CoinsToBaseUnits(Text(s), decimals).value, decimals);
  }

  /** Two spellings have the same normal one exactly when they name the same number of base units. */
  lemma NormalizeIsCanonical(s: string, t: string, decimals: nat, m: nat, n: nat)
    requires decimals <= MAX_DECIMALS
    requires CoinsToBaseUnits(Text(s), decimals) == Some(m) && CoinsToBaseUnits(Text(t), decimals) == Some(n)
    ensures Normalize(s, decimals) == Normalize(t, decimals) <==> m == n
  {
    UnitsRoundTrip(m, decimals);
    UnitsRoundTrip(n, decimals);
  }
}
