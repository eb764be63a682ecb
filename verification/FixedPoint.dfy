/** Decimal digits with a point: padding, trimming zeros, and reading back. */
module FixedPoint {
  import opened Prelude
  import opened Digits

  /** Without trailing zeros. */
  function StripTrailing(s: string): string {
    if s != "" && s[|s| - 1] == '0' then StripTrailing(s[..|s| - 1]) else s
  }

  /** Without leading zeros. */
  function StripLeading(s: string): string {
    if s != "" && s[0] == '0' then StripLeading(s[1..]) else s
  }

  function PadStart(s: string, width: nat): (p: string)
    ensures |p| >= width && |p| >= |s|
  {
    if |s| >= width then s else Zeros(width - |s|) + s
  }

  /** The digits `s` with the point moved `shift` places left, and no trailing zeros after it. */
  function Pointed(s: string, shift: nat): string {
    var p := PadStart(s, shift + 1);
    var whole, fraction := p[..|p| - shift], StripTrailing(p[|p| - shift..]);
    if fraction == "" then whole else whole + "." + fraction
  }

  // ---- Zeros that carry no value ----

  lemma {:induction false} StripTrailingSplits(s: string)
    ensures
      var t := StripTrailing(s);
      && |t| <= |s| && s == t + Zeros(|s| - |t|) && (t == "" || t[|t| - 1] != '0') && (AllDigits(s) ==> AllDigits(t))
  {
    if s != "" && s[|s| - 1] == '0' {
      var init := s[..|s| - 1];
      StripTrailingSplits(init);
      var t := StripTrailing(init);
      assert s == init + ['0'];
      assert Zeros(|s| - |t|) == Zeros(|init| - |t|) + ['0'];
    } else {
      assert Zeros(0) == "";
    }
  }

  lemma {:induction false} StripTrailingZeros(s: string, k: nat)
    ensures StripTrailing(s + Zeros(k)) == StripTrailing(s)
  {
    if k == 0 {
      assert s + Zeros(0) == s;
    } else {
      var t := s + Zeros(k);
      assert t[..|t| - 1] == s + Zeros(k - 1);
      StripTrailingZeros(s, k - 1);
    }
  }

  lemma {:induction false} StripLeadingSplits(s: string)
    requires AllDigits(s)
    ensures
      var t := StripLeading(s);
      && |t| <= |s| && s == Zeros(|s| - |t|) + t && (t == "" || Canonical(t)) && (t != "" ==> t[0] != '0')
      && Val(s) == Val(t)
  {
    StripLeadingShape(s);
    var t := StripLeading(s);
    LeadingZeros(|s| - |t|, t);
  }

  lemma {:induction false} StripLeadingShape(s: string)
    ensures
      var t := StripLeading(s);
      |t| <= |s| && s == Zeros(|s| - |t|) + t && (t != "" ==> t[0] != '0') && (AllDigits(s) ==> AllDigits(t))
  {
    if s != "" && s[0] == '0' {
      var rest := s[1..];
      StripLeadingShape(rest);
      var t := StripLeading(rest);
      var k := |rest| - |t|;
      assert s == ['0'] + rest;
      assert Zeros(k + 1) == ['0'] + Zeros(k);
      Associates(['0'], Zeros(k), t);
    } else {
      assert s == Zeros(0) + s;
    }
  }

  lemma LeadingZeros(n: nat, s: string)
    requires AllDigits(s)
    ensures Val(Zeros(n) + s) == Val(s)
  {
    ValConcat(Zeros(n), s);
    ValZeros(n);
  }

  lemma TrailingZeros(s: string, n: nat)
    requires AllDigits(s)
    ensures Val(s + Zeros(n)) == Val(s) * Pow10(n)
  {
    ValConcat(s, Zeros(n));
    ValZeros(n);
  }

  lemma PadStartValue(s: string, width: nat)
    requires AllDigits(s)
    ensures AllDigits(PadStart(s, width)) && Val(PadStart(s, width)) == Val(s)
  {
    if |s| < width { LeadingZeros(width - |s|, s); }
  }

  // ---- Reading digits with an optional point ----

  /** How many characters from the start on are digits. */
  function DigitRun(s: string): (n: nat)
    ensures n <= |s| && AllDigits(s[..n]) && (n < |s| ==> !IsDigit(s[n]))
  {
    if s != "" && IsDigit(s[0]) then
      var m := DigitRun(s[1..]);
      assert forall i :: 0 < i < m + 1 ==> s[i] == s[1..][i - 1];
      1 + m
    else 0
  }

  /** `digits` is whole part then fraction, `places` the length of the fraction. */
  datatype Fixed = Fixed(whole: string, fraction: string)

  /** Digits, then at most one point and more digits; either side may be empty. */
  function ReadFixed(s: string): (r: Option<Fixed>)
    ensures r.Some? ==> AllDigits(r.value.whole) && AllDigits(r.value.fraction)
  {
    var n := DigitRun(s);
    if n == |s| then Some(Fixed(s, ""))
    else if s[n] == '.' && AllDigits(s[n + 1..]) then Some(Fixed(s[..n], s[n + 1..]))
    else None
  }

  lemma {:induction false} DigitRunExactly(w: string, rest: string)
    requires AllDigits(w) && (rest == "" || !IsDigit(rest[0]))
    ensures DigitRun(w + rest) == |w|
  {
    if w != "" {
      assert (w + rest)[1..] == w[1..] + rest;
      DigitRunExactly(w[1..], rest);
    } else {
      assert w + rest == rest;
    }
  }

  lemma ReadWhole(w: string)
    requires AllDigits(w)
    ensures ReadFixed(w) == Some(Fixed(w, ""))
  {
    DigitRunExactly(w, "");
    assert w + "" == w;
  }

  lemma ReadPointed(w: string, f: string)
    requires AllDigits(w) && AllDigits(f)
    ensures ReadFixed(w + "." + f) == Some(Fixed(w, f))
  {
    DigitRunExactly(w, "." + f);
    assert w + "." + f == w + ("." + f);
    assert (w + "." + f)[|w| + 1..] == f && (w + "." + f)[..|w|] == w;
  }

  /** Equal to the number `Val(digits) / 10^shift`: comparing two such fractions without dividing. */
  predicate Equals(f: Fixed, n: nat, shift: nat) {
    AllDigits(f.whole + f.fraction) && Val(f.whole + f.fraction) * Pow10(shift) == n * Pow10(|f.fraction|)
  }

  /** No redundant zero on either side: the whole part is canonical, the fraction absent or not ending in zero. */
  predicate Plain(f: Fixed) { Canonical(f.whole) && (f.fraction == "" || f.fraction[|f.fraction| - 1] != '0') }

  /** What `Pointed` writes before and after the point. */
  function PointedParts(s: string, shift: nat): (f: Fixed)
    ensures Pointed(s, shift) == if f.fraction == "" then f.whole else f.whole + "." + f.fraction
  {
    var p := PadStart(s, shift + 1);
    Fixed(p[..|p| - shift], StripTrailing(p[|p| - shift..]))
  }

  lemma SplitAt(p: string, n: nat)
    requires n <= |p|
    ensures
      var t := StripTrailing(p[n..]);
      |t| <= |p| - n && p == p[..n] + t + Zeros(|p| - n - |t|)
  {
    StripTrailingSplits(p[n..]);
    var t := StripTrailing(p[n..]);
    Associates(p[..n], t, Zeros(|p| - n - |t|));
    assert p == p[..n] + p[n..];
  }

  lemma PartsPlain(s: string, shift: nat)
    requires Canonical(s)
    ensures
      var f := PointedParts(s, shift);
      && AllDigits(f.whole) && AllDigits(f.fraction) && Plain(f) && |f.fraction| <= shift
      && PadStart(s, shift + 1) == f.whole + f.fraction + Zeros(shift - |f.fraction|)
  {
    var p := PadStart(s, shift + 1);
    SplitAt(p, |p| - shift);
    PaddedWhole(s, shift);
    StripTrailingSplits(p[|p| - shift..]);
  }

  lemma PaddedValue(s: string, padded: string, core: string, k: nat, width: nat)
    requires AllDigits(s) && AllDigits(core) && padded == PadStart(s, width) && padded == core + Zeros(k)
    ensures Val(s) == Val(core) * Pow10(k)
  {
    PadStartValue(s, width);
    TrailingZeros(core, k);
  }

  lemma ValueOfParts(s: string, core: string, places: nat, shift: nat)
    requires AllDigits(s) && AllDigits(core) && places <= shift && PadStart(s, shift + 1) == core + Zeros(shift - places)
    ensures Val(core) * Pow10(shift) == Val(s) * Pow10(places)
  {
    PaddedValue(s, PadStart(s, shift + 1), core, shift - places, shift + 1);
    Pow10Split(places, shift);
    Cross(Val(core), Val(s), Pow10(shift - places), Pow10(places), Pow10(shift));
  }

  lemma PartsValue(s: string, shift: nat)
    requires Canonical(s)
    ensures Equals(PointedParts(s, shift), Val(s), shift)
  {
    PartsPlain(s, shift);
    var f := PointedParts(s, shift);
    ValueOfParts(s, f.whole + f.fraction, |f.fraction|, shift);
  }

  /** Moving the point keeps the value, and what is written reads back as a plain spelling. */
  lemma PointedReads(s: string, shift: nat)
    requires Canonical(s)
    ensures ReadFixed(Pointed(s, shift)) == Some(PointedParts(s, shift))
    ensures Equals(PointedParts(s, shift), Val(s), shift) && Plain(PointedParts(s, shift))
  {
    PartsPlain(s, shift);
    PartsValue(s, shift);
    var f := PointedParts(s, shift);
    if f.fraction == "" { ReadWhole(f.whole); } else { ReadPointed(f.whole, f.fraction); }
  }

  lemma Cross(v: nat, n: nat, k: nat, f: nat, shift: nat)
    requires n == v * k && shift == k * f
    ensures v * shift == n * f
  {}

  lemma PaddedWhole(s: string, shift: nat)
    requires Canonical(s)
    ensures
      var p := PadStart(s, shift + 1);
      AllDigits(p) && Canonical(p[..|p| - shift])
  {
    PadStartValue(s, shift + 1);
    if |s| <= shift {
      assert |Zeros(shift + 1 - |s|)| > 0;
    }
  }

  lemma PadTrailing(s: string, k: nat, shift: nat)
    requires k <= shift
    ensures PadStart(s + Zeros(k), shift + 1) == PadStart(s, shift - k + 1) + Zeros(k)
  {
    if |s| < shift - k + 1 {
      var z := Zeros(shift - k + 1 - |s|);
      assert z + (s + Zeros(k)) == (z + s) + Zeros(k);
    }
  }

  lemma ShiftWithin(s: string, k: nat, shift: nat)
    requires k <= shift
    ensures PointedParts(s + Zeros(k), shift) == PointedParts(s, shift - k)
  {
    PadTrailing(s, k, shift);
    var q := PadStart(s, shift - k + 1);
    SplitTrailing(q, k, shift);
    assert |q + Zeros(k)| - shift == |q| + k - shift == |q| - (shift - k);
  }

  lemma SplitTrailing(q: string, k: nat, shift: nat)
    requires k <= shift && shift - k <= |q|
    ensures
      var p, n := q + Zeros(k), |q| + k - shift;
      p[..n] == q[..n] && StripTrailing(p[n..]) == StripTrailing(q[n..])
  {
    var p, n := q + Zeros(k), |q| + k - shift;
    assert p[n..] == q[n..] + Zeros(k);
    StripTrailingZeros(q[n..], k);
  }

  lemma ShiftBeyond(s: string, k: nat, shift: nat)
    requires s != "" && k > shift
    ensures Pointed(s + Zeros(k), shift) == s + Zeros(k - shift)
  {
    var p := s + Zeros(k);
    assert PadStart(p, shift + 1) == p;
    assert p[..|p| - shift] == s + Zeros(k - shift);
    assert p[|p| - shift..] == "" + Zeros(shift);
    StripTrailingZeros("", shift);
  }
}
