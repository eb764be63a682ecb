/** Which offers earn their fee: the maker's quote, in whole amounts, and the batcher's check over baskets of legs.
    Prices and dollar sums are exact rationals here. */
module Sponsorship {
  import opened Prelude
  import opened Digits
  import opened Amount
  import opened PriceMap

  const BPS := 10_000

  // ---- The quote ----

  /** A positive price as a fraction of whole numbers. */
  datatype Ratio = Ratio(numerator: nat, denominator: nat)

  predicate Proper(r: Ratio) { r.numerator > 0 && r.denominator > 0 }

  /** The fraction of a decimal spelling; none for zero or a negative number. */
  function DecimalRatio(d: Decimal): (r: Option<Ratio>)
    requires AllDigits(d.digits)
  {
    if d.negative || Val(d.digits) == 0 then None
    else if d.exponent <= 0 then Some(Ratio(Val(d.digits), Pow10(-d.exponent)))
    else Some(Ratio(Val(d.digits) * Pow10(d.exponent), 1))
  }

  /** There is a fraction exactly for a positive number, and numerator over denominator is then the spelled value, exactly:
      compared at any common exponent. */
  lemma RatioIsValue(d: Decimal, m: int)
    requires AllDigits(d.digits) && m <= d.exponent && m <= 0
    ensures DecimalRatio(d).Some? <==> !d.negative && PriceMap.At(d, m) > 0
    ensures DecimalRatio(d).Some? ==>
              var r := DecimalRatio(d).value;
              Proper(r) && r.numerator * Pow10(-m) == PriceMap.At(d, m) * r.denominator
  {
    ProductPositive(Val(d.digits), Pow10(d.exponent - m));
    if DecimalRatio(d).None? { return; }
    var r := DecimalRatio(d).value;
    if d.exponent <= 0 {
      Pow10Split(-d.exponent, -m);
      assert -m - -d.exponent == d.exponent - m;
      ProductAssociates(r.numerator, Pow10(d.exponent - m), Pow10(-d.exponent));
    } else {
      Pow10Add(d.exponent, -m);
      assert d.exponent + -m == d.exponent - m;
      ProductAssociates(Val(d.digits), Pow10(d.exponent), Pow10(-m));
    }
  }

  lemma ProductPositive(a: nat, b: nat)
    requires b > 0
    ensures a * b > 0 <==> a > 0
  {}

  datatype Quotation = Quotation(suggested: int, toAmount: int, sponsored: bool)

  function SuggestedNumerator(fromAmount: int, pf: Ratio, pt: Ratio, bps: int): int {
    fromAmount * pf.numerator * pt.denominator * (BPS - bps)
  }

  function SuggestedDenominator(pf: Ratio, pt: Ratio): int { pf.denominator * pt.numerator * BPS }

  function QuoteWithPrices(fromAmount: int, pf: Ratio, pt: Ratio, toAmount: Option<int>, bps: int): Option<Quotation>
    requires Proper(pf) && Proper(pt)
  {
    if !(0 <= bps < BPS) then None else
    var n, d := SuggestedNumerator(fromAmount, pf, pt, bps), SuggestedDenominator(pf, pt);
    var suggested := TruncDiv(n, d);
    var effective := if toAmount.Some? then toAmount.value else suggested;
    Some(Quotation(suggested, effective, fromAmount > 0 && effective * d <= n))
  }

  /** There is a quote exactly for a discount from nothing to less than everything. The suggested amount is then the greatest
      sponsored one, and an amount is sponsored exactly up to it. When nothing is given no amount is sponsored, not even
      the suggested one. */
  lemma SuggestedIsGreatest(fromAmount: int, pf: Ratio, pt: Ratio, bps: int, t: int)
    requires Proper(pf) && Proper(pt)
    ensures QuoteWithPrices(fromAmount, pf, pt, None, bps).Some? <==> 0 <= bps < 10_000
    ensures QuoteWithPrices(fromAmount, pf, pt, Some(t), bps).Some? <==> 0 <= bps < 10_000
    ensures 0 <= bps < 10_000 ==>
      var own := QuoteWithPrices(fromAmount, pf, pt, None, bps).value;
      var custom := QuoteWithPrices(fromAmount, pf, pt, Some(t), bps).value;
      && custom.suggested == own.suggested == own.toAmount && custom.toAmount == t
      && own.sponsored == (fromAmount > 0)
      && custom.sponsored == (fromAmount > 0 && t <= own.suggested)
  {
    var n, d := SuggestedNumerator(fromAmount, pf, pt, bps), SuggestedDenominator(pf, pt);
    if fromAmount > 0 && 0 <= bps < 10_000 {
      TruncIsFloor(n, d, t);
      TruncIsFloor(n, d, TruncDiv(n, d));
    }
  }

  // ---- The same rule in dollars ----

  function Usd(r: Ratio): real
    requires Proper(r)
  {
    r.numerator as real / r.denominator as real
  }

  /** Asking at least the discount less than what is given, up to a tolerance in dollars. */
  predicate Worth(give: real, want: real, discount: real, tolerance: real) { want <= give * (1.0 - discount) + tolerance }

  /** The rule in real numbers, cleared of its denominators. */
  lemma ClearedRule(t: real, f: real, fn: real, fd: real, tn: real, td: real, k: real, base: real)
    requires fd > 0.0 && td > 0.0 && base > 0.0
    ensures t * (tn / td) <= f * (fn / fd) * (1.0 - k / base) <==> (t * tn) * (fd * base) <= (f * fn * (base - k)) * td
  {
  }

  /** A quote is sponsored exactly when the wanted dollars are at most the given dollars less the discount. */
  lemma QuoteIsDollarRule(fromAmount: int, pf: Ratio, pt: Ratio, bps: int, t: int)
    requires Proper(pf) && Proper(pt) && 0 <= bps < BPS && fromAmount > 0
    ensures
      QuoteWithPrices(fromAmount, pf, pt, Some(t), bps).value.sponsored
      <==> Worth(fromAmount as real * Usd(pf), t as real * Usd(pt), bps as real / 10_000.0, 0.0)
  {
    ClearedRule(t as real, fromAmount as real, pf.numerator as real, pf.denominator as real, pt.numerator as real,
                pt.denominator as real, bps as real, BPS as real);
  }

  // ---- Baskets ----

  const EPSILON_USD := 0.000000001

  datatype OfferLeg = OfferLeg(token: string, amount: int)

  datatype PriceRow = PriceRow(price: real, source: string)

  datatype Outcome = Sponsored | NotSponsored | Unpriced

  datatype Evaluation = Evaluation(outcome: Outcome, give: real, want: real, unpriced: seq<string>)

  predicate Priced(prices: map<string, PriceRow>, leg: OfferLeg) {
    Lower(leg.token) in prices && prices[Lower(leg.token)].source != "fallback"
  }

  function LegUsd(prices: map<string, PriceRow>, leg: OfferLeg): real {
    if Priced(prices, leg) then leg.amount as real * prices[Lower(leg.token)].price else 0.0
  }

  function SumUsd(prices: map<string, PriceRow>, legs: seq<OfferLeg>): real {
    if legs == [] then 0.0 else SumUsd(prices, legs[..|legs| - 1]) + LegUsd(prices, legs[|legs| - 1])
  }

  /** The colours without a market price, each once, in the order in which they first occur. */
  function UnpricedOf(prices: map<string, PriceRow>, legs: seq<OfferLeg>): seq<string> {
    if legs == [] then [] else
    var init, last := UnpricedOf(prices, legs[..|legs| - 1]), legs[|legs| - 1];
    if Priced(prices, last) || Lower(last.token) in init then init else init + [Lower(last.token)]
  }

  function Judge(give: real, want: real, unpriced: seq<string>, discount: real): Evaluation {
    Evaluation(
      if unpriced != [] then Unpriced
      else if give <= 0.0 then NotSponsored
      else if Worth(give, want, discount, EPSILON_USD) then Sponsored else NotSponsored,
      give, want, unpriced)
  }

  function Evaluate(prices: map<string, PriceRow>, gives: seq<OfferLeg>, wants: seq<OfferLeg>, discount: real): Option<Evaluation> {
    if !(0.0 <= discount < 1.0) then None
    else Some(Judge(SumUsd(prices, gives), SumUsd(prices, wants), UnpricedOf(prices, gives + wants), discount))
  }

  /** The loops of the check: each side is summed, and unpriced colours are collected across both. */
  method EvaluateSponsorship(prices: map<string, PriceRow>, gives: seq<OfferLeg>, wants: seq<OfferLeg>, discount: real)
    returns (r: Option<Evaluation>)
    ensures r == Evaluate(prices, gives, wants, discount)
  {
    if discount < 0.0 || discount >= 1.0 { return None; }
    var unpriced: seq<string> := [];
    var give, want: real;
    assert [] + gives == gives;
    give, unpriced := Sum(prices, [], gives, unpriced);
    want, unpriced := Sum(prices, gives, wants, unpriced);
    return Some(Judge(give, want, unpriced, discount));
  }

  lemma SumSnoc(prices: map<string, PriceRow>, legs: seq<OfferLeg>, leg: OfferLeg)
    ensures SumUsd(prices, legs + [leg]) == SumUsd(prices, legs) + LegUsd(prices, leg)
  {
    assert (legs + [leg])[..|legs|] == legs;
  }

  lemma UnpricedSnoc(prices: map<string, PriceRow>, legs: seq<OfferLeg>, leg: OfferLeg)
    ensures
      var init := UnpricedOf(prices, legs);
      UnpricedOf(prices, legs + [leg])
      == if Priced(prices, leg) || Lower(leg.token) in init then init else init + [Lower(leg.token)]
  {
    assert (legs + [leg])[..|legs|] == legs;
  }

  method Sum(prices: map<string, PriceRow>, ghost before: seq<OfferLeg>, side: seq<OfferLeg>, seen: seq<string>)
    returns (total: real, unpriced: seq<string>)
    requires seen == UnpricedOf(prices, before)
    ensures total == SumUsd(prices, side) && unpriced == UnpricedOf(prices, before + side)
  {
    total, unpriced := 0.0, seen;
    assert before + side[..0] == before;
    for i := 0 to |side|
      invariant total == SumUsd(prices, side[..i]) && unpriced == UnpricedOf(prices, before + side[..i])
    {
      assert side[..i + 1] == side[..i] + [side[i]];
      Associates(before, side[..i], [side[i]]);
      SumSnoc(prices, side[..i], side[i]);
      UnpricedSnoc(prices, before + side[..i], side[i]);
      total, unpriced := AddLeg(prices, side[i], total, unpriced);
    }
    assert side[..|side|] == side;
  }

  method AddLeg(prices: map<string, PriceRow>, leg: OfferLeg, sum: real, seen: seq<string>)
    returns (total: real, unpriced: seq<string>)
    ensures total == sum + LegUsd(prices, leg)
    ensures unpriced == if Priced(prices, leg) || Lower(leg.token) in seen then seen else seen + [Lower(leg.token)]
  {
    total, unpriced := sum, seen;
    var color := Lower(leg.token);
    if color !in prices || prices[color].source == "fallback" {
      if color !in unpriced { unpriced := unpriced + [color]; }
    } else {
      total := total + leg.amount as real * prices[color].price;
    }
  }

  lemma {:induction false} UnpricedExactly(prices: map<string, PriceRow>, legs: seq<OfferLeg>)
    ensures UnpricedOf(prices, legs) == [] <==> forall k :: 0 <= k < |legs| ==> Priced(prices, legs[k])
  {
    if legs != [] {
      var n := |legs| - 1;
      UnpricedExactly(prices, legs[..n]);
      assert forall k :: 0 <= k < n ==> legs[..n][k] == legs[k];
    }
  }

  // ---- One pair ----

  /** What the maker was quoted as sponsored the batcher sponsors; and what it sponsors exceeds the quoted rule by at
      most the tolerance. */
  lemma QuoteAgreesWithCheck(prices: map<string, PriceRow>, give: OfferLeg, want: OfferLeg, pf: Ratio, pt: Ratio, bps: int)
    requires Proper(pf) && Proper(pt) && 0 <= bps < BPS && give.amount > 0
    requires Priced(prices, give) && prices[Lower(give.token)].price == Usd(pf)
    requires Priced(prices, want) && prices[Lower(want.token)].price == Usd(pt)
    ensures
      var quoted := QuoteWithPrices(give.amount, pf, pt, Some(want.amount), bps).value.sponsored;
      var d := bps as real / 10_000.0;
      var checked := Evaluate(prices, [give], [want], d);
      && checked.Some? && checked.value.outcome != Unpriced
      && (quoted ==> checked.value.outcome == Sponsored)
      && (checked.value.outcome == Sponsored <==> Worth(give.amount as real * Usd(pf), want.amount as real * Usd(pt), d, EPSILON_USD))
  {
    QuoteIsDollarRule(give.amount, pf, pt, bps, want.amount);
    UnpricedExactly(prices, [give] + [want]);
    SumOfOne(prices, give);
    SumOfOne(prices, want);
  }

  lemma SumOfOne(prices: map<string, PriceRow>, leg: OfferLeg)
    ensures SumUsd(prices, [leg]) == LegUsd(prices, leg)
  {
    assert [leg][..0] == [];
  }

  // ---- Better for the maker's counterparty is never worse ----

  predicate AboveZero(prices: map<string, PriceRow>, token: string) {
    Lower(token) in prices && prices[Lower(token)].source != "fallback" && prices[Lower(token)].price > 0.0
  }

  predicate BelowZero(prices: map<string, PriceRow>, token: string) {
    Lower(token) in prices && prices[Lower(token)].source != "fallback" && prices[Lower(token)].price < 0.0
  }

  /** Leg `k` of the side with another amount. */
  function Amended(legs: seq<OfferLeg>, k: nat, amount: int): seq<OfferLeg>
    requires k < |legs|
  {
    legs[k := legs[k].(amount := amount)]
  }

  /** What the other amount adds to the leg's dollars. */
  function Gain(prices: map<string, PriceRow>, leg: OfferLeg, amount: int): real {
    if Priced(prices, leg) then (amount - leg.amount) as real * prices[Lower(leg.token)].price else 0.0
  }

  lemma LegAmended(prices: map<string, PriceRow>, leg: OfferLeg, amount: int)
    ensures LegUsd(prices, leg.(amount := amount)) == LegUsd(prices, leg) + Gain(prices, leg, amount)
  {
    if Priced(prices, leg) { Difference(amount, leg.amount, prices[Lower(leg.token)].price); }
  }

  lemma Difference(a: int, b: int, price: real)
    ensures a as real * price == b as real * price + (a - b) as real * price
  {
    assert a as real == b as real + (a - b) as real;
  }

  lemma GainSign(prices: map<string, PriceRow>, leg: OfferLeg, amount: int)
    requires !BelowZero(prices, leg.token)
    ensures amount >= leg.amount ==> Gain(prices, leg, amount) >= 0.0
    ensures amount <= leg.amount ==> Gain(prices, leg, amount) <= 0.0
  {
    if Priced(prices, leg) {
      var price := prices[Lower(leg.token)].price;
      if amount >= leg.amount { NonNegativeReal((amount - leg.amount) as real, price); }
      if amount <= leg.amount {
        NonNegativeReal((leg.amount - amount) as real, price);
        assert (amount - leg.amount) as real == -((leg.amount - amount) as real);
      }
    }
  }

  lemma {:induction false} SumAmended(prices: map<string, PriceRow>, legs: seq<OfferLeg>, k: nat, amount: int)
    requires k < |legs|
    ensures SumUsd(prices, Amended(legs, k, amount)) == SumUsd(prices, legs) + Gain(prices, legs[k], amount)
  {
    var n := |legs| - 1;
    var later := Amended(legs, k, amount);
    if k < n {
      assert later[..n] == Amended(legs[..n], k, amount);
      SumAmended(prices, legs[..n], k, amount);
    } else {
      assert later[..n] == legs[..n];
      LegAmended(prices, legs[k], amount);
    }
  }

  lemma {:induction false} UnpricedAmended(prices: map<string, PriceRow>, legs: seq<OfferLeg>, k: nat, amount: int)
    requires k < |legs|
    ensures UnpricedOf(prices, Amended(legs, k, amount)) == UnpricedOf(prices, legs)
  {
    var n := |legs| - 1;
    var later := Amended(legs, k, amount);
    if k < n {
      assert later[..n] == Amended(legs[..n], k, amount);
      UnpricedAmended(prices, legs[..n], k, amount);
    } else {
      assert later[..n] == legs[..n];
    }
  }

  lemma NonNegativeReal(a: real, b: real)
    requires a >= 0.0 && b >= 0.0
    ensures a * b >= 0.0
  {}

  lemma WorthMonotone(g: real, w: real, g': real, w': real, d: real)
    requires Worth(g, w, d, EPSILON_USD) && g <= g' && w' <= w && d < 1.0
    ensures Worth(g', w', d, EPSILON_USD)
  {
    NonNegativeReal(g' - g, 1.0 - d);
  }

  predicate SponsoredAt(give: real, want: real, d: real) { give > 0.0 && Worth(give, want, d, EPSILON_USD) }

  function Raised(give: real, units: nat, price: real): real { give + units as real * price }

  /** Giving more units at this price never loses the sponsorship, whatever else the offer holds. */
  ghost predicate RaiseSafe(price: real, d: real) {
    forall g, w, units: nat :: SponsoredAt(g, w, d) ==> SponsoredAt(Raised(g, units, price), w, d)
  }

  /** It is safe exactly when the price is not negative. */
  lemma RaiseSafeExactly(price: real, d: real)
    requires 0.0 <= d < 1.0
    ensures RaiseSafe(price, d) <==> price >= 0.0
  {
    if price >= 0.0 {
      forall g, w, units: nat | SponsoredAt(g, w, d) ensures SponsoredAt(Raised(g, units, price), w, d) {
        NonNegativeReal(units as real, price);
        WorthMonotone(g, w, Raised(g, units, price), w, d);
      }
    } else {
      NonNegativeReal(-price, 1.0 - d);
      assert SponsoredAt(-price, 0.0, d);
      var units: nat := 1;
      assert units as real * price == price;
      assert !SponsoredAt(Raised(-price, units, price), 0.0, d);
    }
  }

  function Lowered(want: real, units: nat, price: real): real { want - units as real * price }

  /** Asking fewer units at this price never loses the sponsorship, whatever else the offer holds. */
  ghost predicate LowerSafe(price: real, d: real) {
    forall g, w, units: nat :: SponsoredAt(g, w, d) ==> SponsoredAt(g, Lowered(w, units, price), d)
  }

  /** On this side too it is safe exactly when the price is not negative. */
  lemma LowerSafeExactly(price: real, d: real)
    requires 0.0 <= d < 1.0
    ensures LowerSafe(price, d) <==> price >= 0.0
  {
    if price >= 0.0 {
      forall g, w, units: nat | SponsoredAt(g, w, d) ensures SponsoredAt(g, Lowered(w, units, price), d) {
        NonNegativeReal(units as real, price);
        WorthMonotone(g, w, g, Lowered(w, units, price), d);
      }
    } else {
      var most := 1.0 * (1.0 - d) + EPSILON_USD;
      assert SponsoredAt(1.0, most, d);
      var units: nat := 1;
      assert units as real * price == price;
      assert !SponsoredAt(1.0, Lowered(most, units, price), d);
    }
  }

  /** Raising what is given, in a token whose price is not negative, never loses the sponsorship. */
  lemma RaisingAGiveKeepsIt(prices: map<string, PriceRow>, gives: seq<OfferLeg>, wants: seq<OfferLeg>, d: real, k: nat, amount: int)
    requires 0.0 <= d < 1.0 && k < |gives| && gives[k].amount <= amount && Evaluate(prices, gives, wants, d).value.outcome == Sponsored
    requires !BelowZero(prices, gives[k].token)
    ensures Evaluate(prices, Amended(gives, k, amount), wants, d).value.outcome == Sponsored
  {
    var later := Amended(gives, k, amount);
    SumAmended(prices, gives, k, amount);
    assert later + wants == Amended(gives + wants, k, amount);
    UnpricedAmended(prices, gives + wants, k, amount);
    GainSign(prices, gives[k], amount);
    WorthMonotone(SumUsd(prices, gives), SumUsd(prices, wants), SumUsd(prices, later), SumUsd(prices, wants), d);
  }

  /** Lowering what is wanted, in a token whose price is not negative, never loses it either. */
  lemma LoweringAWantKeepsIt(prices: map<string, PriceRow>, gives: seq<OfferLeg>, wants: seq<OfferLeg>, d: real, k: nat, amount: int)
    requires 0.0 <= d < 1.0 && k < |wants| && amount <= wants[k].amount && Evaluate(prices, gives, wants, d).value.outcome == Sponsored
    requires !BelowZero(prices, wants[k].token)
    ensures Evaluate(prices, gives, Amended(wants, k, amount), d).value.outcome == Sponsored
  {
    var later := Amended(wants, k, amount);
    SumAmended(prices, wants, k, amount);
    assert gives + later == Amended(gives + wants, |gives| + k, amount);
    UnpricedAmended(prices, gives + wants, |gives| + k, amount);
    GainSign(prices, wants[k], amount);
    WorthMonotone(SumUsd(prices, gives), SumUsd(prices, wants), SumUsd(prices, gives), SumUsd(prices, later), d);
  }

  // ---- Exactly when a change for the better keeps the sponsorship ----

  predicate IsSponsored(prices: map<string, PriceRow>, gives: seq<OfferLeg>, wants: seq<OfferLeg>, d: real)
    requires 0.0 <= d < 1.0
  {
    Evaluate(prices, gives, wants, d).value.outcome == Sponsored
  }

  predicate PositiveAmounts(legs: seq<OfferLeg>) { forall i :: 0 <= i < |legs| ==> legs[i].amount > 0 }

  predicate Holds(legs: seq<OfferLeg>, k: nat, token: string) { k < |legs| && legs[k].token == token }

  /** A sponsored offer of positive amounts. */
  predicate SponsoredOffer(prices: map<string, PriceRow>, gives: seq<OfferLeg>, wants: seq<OfferLeg>, d: real)
    requires 0.0 <= d < 1.0
  {
    PositiveAmounts(gives) && PositiveAmounts(wants) && IsSponsored(prices, gives, wants, d)
  }

  /** In every offer of positive amounts under these prices, giving more of the token keeps the sponsorship. */
  ghost predicate RaisingKeeps(prices: map<string, PriceRow>, token: string, d: real)
    requires 0.0 <= d < 1.0
  {
    forall gives: seq<OfferLeg>, wants: seq<OfferLeg>, k: nat, amount: int ::
      SponsoredOffer(prices, gives, wants, d) && Holds(gives, k, token) && gives[k].amount <= amount
      ==> IsSponsored(prices, Amended(gives, k, amount), wants, d)
  }

  /** In every such offer, asking less of the token keeps it. */
  ghost predicate LoweringKeeps(prices: map<string, PriceRow>, token: string, d: real)
    requires 0.0 <= d < 1.0
  {
    forall gives: seq<OfferLeg>, wants: seq<OfferLeg>, k: nat, amount: int ::
      SponsoredOffer(prices, gives, wants, d) && Holds(wants, k, token) && 0 < amount <= wants[k].amount
      ==> IsSponsored(prices, gives, Amended(wants, k, amount), d)
  }

  lemma {:induction false} SumWithoutGain(prices: map<string, PriceRow>, legs: seq<OfferLeg>)
    requires PositiveAmounts(legs) && forall t :: !AboveZero(prices, t)
    ensures SumUsd(prices, legs) <= 0.0
  {
    if legs != [] {
      var n := |legs| - 1;
      SumWithoutGain(prices, legs[..n]);
      if Priced(prices, legs[n]) {
        assert !AboveZero(prices, legs[n].token);
        NonNegativeReal(legs[n].amount as real, -prices[Lower(legs[n].token)].price);
      }
    }
  }

  /** A whole number of units worth more than this. */
  lemma EnoughUnits(worth: real, price: real) returns (units: nat)
    requires price > 0.0
    ensures units > 0 && units as real * price > worth
  {
    var most := if worth / price > 0.0 then worth / price else 0.0;
    units := most.Floor + 1;
    Scaled(most, units as real, price);
    assert most * price >= worth by {
      if worth / price > 0.0 { assert worth / price * price == worth; } else { Scaled(worth / price, 1.0, price); }
    }
  }

  lemma Scaled(a: real, b: real, price: real)
    requires a < b && price > 0.0
    ensures a * price < b * price
  {}

  lemma SumOfTwo(prices: map<string, PriceRow>, a: OfferLeg, b: OfferLeg)
    ensures SumUsd(prices, [a, b]) == LegUsd(prices, a) + LegUsd(prices, b)
  {
    assert [a, b][..1] == [a];
    SumOfOne(prices, a);
  }

  lemma JudgedBySums(prices: map<string, PriceRow>, gives: seq<OfferLeg>, wants: seq<OfferLeg>, d: real)
    requires 0.0 <= d < 1.0 && forall k :: 0 <= k < |gives + wants| ==> Priced(prices, (gives + wants)[k])
    ensures IsSponsored(prices, gives, wants, d) <==> SponsoredAt(SumUsd(prices, gives), SumUsd(prices, wants), d)
  {
    UnpricedExactly(prices, gives + wants);
  }

  /** With a price below zero, and another above it to be sponsored at all, giving more can cost the sponsorship. */
  lemma RaisingCosts(prices: map<string, PriceRow>, token: string, other: string, d: real)
    returns (gives: seq<OfferLeg>, wants: seq<OfferLeg>, amount: int)
    requires 0.0 <= d < 1.0 && BelowZero(prices, token) && AboveZero(prices, other)
    ensures SponsoredOffer(prices, gives, wants, d) && Holds(gives, 0, token) && gives[0].amount <= amount
    ensures !IsSponsored(prices, Amended(gives, 0, amount), wants, d)
  {
    var p, q := prices[Lower(token)].price, prices[Lower(other)].price;
    var many := EnoughUnits(-p, q);
    amount := EnoughUnits(many as real * q, -p);
    var one, rest := OfferLeg(token, 1), OfferLeg(other, many);
    gives, wants := [one, rest], [];
    var more := OfferLeg(token, amount);
    assert Amended(gives, 0, amount) == [more, rest];
    SumOfTwo(prices, one, rest);
    SumOfTwo(prices, more, rest);
    assert LegUsd(prices, one) == p && LegUsd(prices, rest) == many as real * q;
    assert LegUsd(prices, more) == -(amount as real * -p);
    JudgedBySums(prices, gives, wants, d);
    JudgedBySums(prices, [more, rest], wants, d);
    NonNegativeReal(p + many as real * q, 1.0 - d);
  }

  /** And so can asking less. */
  lemma LoweringCosts(prices: map<string, PriceRow>, token: string, other: string, d: real)
    returns (gives: seq<OfferLeg>, wants: seq<OfferLeg>)
    requires 0.0 <= d < 1.0 && BelowZero(prices, token) && AboveZero(prices, other)
    ensures SponsoredOffer(prices, gives, wants, d) && Holds(wants, 0, token) && 1 <= wants[0].amount
    ensures !IsSponsored(prices, gives, Amended(wants, 0, 1), d)
  {
    var p, q := prices[Lower(token)].price, prices[Lower(other)].price;
    var most := q * (1.0 - d) + EPSILON_USD;
    var many := EnoughUnits(most - p, q);
    var amount := EnoughUnits(many as real * q, -p);
    var given, asked, rest, less := OfferLeg(other, 1), OfferLeg(token, amount), OfferLeg(other, many), OfferLeg(token, 1);
    gives, wants := [given], [asked, rest];
    assert Amended(wants, 0, 1) == [less, rest];
    SumOfOne(prices, given);
    SumOfTwo(prices, asked, rest);
    SumOfTwo(prices, less, rest);
    assert LegUsd(prices, given) == q && LegUsd(prices, rest) == many as real * q;
    assert LegUsd(prices, asked) == -(amount as real * -p) && LegUsd(prices, less) == p;
    JudgedBySums(prices, gives, wants, d);
    JudgedBySums(prices, gives, [less, rest], d);
    NonNegativeReal(q, 1.0 - d);
  }

  /** Giving more keeps the sponsorship in every offer exactly when the token has no price below zero or no token at all
      has a price above it, in which case nothing is sponsored. */
  lemma RaisingKeepsExactly(prices: map<string, PriceRow>, token: string, d: real)
    requires 0.0 <= d < 1.0
    ensures RaisingKeeps(prices, token, d) <==> !(BelowZero(prices, token) && exists other :: AboveZero(prices, other))
  {
    if BelowZero(prices, token) && exists other :: AboveZero(prices, other) {
      var other :| AboveZero(prices, other);
      var gives, wants, amount := RaisingCosts(prices, token, other, d);
      assert !RaisingKeeps(prices, token, d);
    } else {
      forall gives: seq<OfferLeg>, wants: seq<OfferLeg>, k: nat, amount: int |
        SponsoredOffer(prices, gives, wants, d) && Holds(gives, k, token) && gives[k].amount <= amount
        ensures IsSponsored(prices, Amended(gives, k, amount), wants, d)
      {
        SomeGain(prices, gives, wants, d);
        RaisingAGiveKeepsIt(prices, gives, wants, d, k, amount);
      }
    }
  }

  /** The same condition for asking less. */
  lemma LoweringKeepsExactly(prices: map<string, PriceRow>, token: string, d: real)
    requires 0.0 <= d < 1.0
    ensures LoweringKeeps(prices, token, d) <==> !(BelowZero(prices, token) && exists other :: AboveZero(prices, other))
  {
    if BelowZero(prices, token) && exists other :: AboveZero(prices, other) {
      var other :| AboveZero(prices, other);
      var gives, wants := LoweringCosts(prices, token, other, d);
      assert !LoweringKeeps(prices, token, d);
    } else {
      forall gives: seq<OfferLeg>, wants: seq<OfferLeg>, k: nat, amount: int |
        SponsoredOffer(prices, gives, wants, d) && Holds(wants, k, token) && 0 < amount <= wants[k].amount
        ensures IsSponsored(prices, gives, Amended(wants, k, amount), d)
      {
        SomeGain(prices, gives, wants, d);
        LoweringAWantKeepsIt(prices, gives, wants, d, k, amount);
      }
    }
  }

  lemma SomeGain(prices: map<string, PriceRow>, gives: seq<OfferLeg>, wants: seq<OfferLeg>, d: real)
    requires 0.0 <= d < 1.0 && SponsoredOffer(prices, gives, wants, d)
    ensures exists other :: AboveZero(prices, other)
  {
    if forall t :: !AboveZero(prices, t) { SumWithoutGain(prices, gives); }
  }

  /** The verdict on any baskets: sponsored exactly when every leg has a market price, something is given, and what is asked
      is worth at most what is given less the discount and a thousand-millionth of a dollar. */
  lemma SponsoredExactly(prices: map<string, PriceRow>, gives: seq<OfferLeg>, wants: seq<OfferLeg>, d: real)
    ensures Evaluate(prices, gives, wants, d).Some? <==> 0.0 <= d < 1.0
    ensures 0.0 <= d < 1.0 ==>
              (IsSponsored(prices, gives, wants, d) <==>
               AllPriced(prices, gives + wants) && PaysEnough(SumUsd(prices, gives), SumUsd(prices, wants), d))
    ensures 0.0 <= d < 1.0 ==>
              var e := Evaluate(prices, gives, wants, d).value;
              && e.give == SumUsd(prices, gives) && e.want == SumUsd(prices, wants)
              && (e.outcome == Unpriced <==> !AllPriced(prices, gives + wants))
  {
    UnpricedExactly(prices, gives + wants);
    JudgedExactly(SumUsd(prices, gives), SumUsd(prices, wants), UnpricedOf(prices, gives + wants), d);
  }

  predicate AllPriced(prices: map<string, PriceRow>, legs: seq<OfferLeg>) { forall k :: 0 <= k < |legs| ==> Priced(prices, legs[k]) }

  predicate PaysEnough(give: real, want: real, d: real) { give > 0.0 && want <= give * (1.0 - d) + 0.000000001 }

  lemma JudgedExactly(give: real, want: real, unpriced: seq<string>, d: real)
    ensures Judge(give, want, unpriced, d).outcome == Sponsored <==> unpriced == [] && PaysEnough(give, want, d)
  {}

  const PENNIES := map["b" := PriceRow(0.01, "feed")]

  /** One cent over the rule is refused. */
  lemma OneCentOver()
    ensures IsSponsored(PENNIES, [OfferLeg("b", 1000)], [OfferLeg("b", 900)], 0.1)
    ensures !IsSponsored(PENNIES, [OfferLeg("b", 1000)], [OfferLeg("b", 901)], 0.1)
  {
    assert Lower("b") == "b" && |"feed"| != |"fallback"|;
    SumOfOne(PENNIES, OfferLeg("b", 1000));
    SumOfOne(PENNIES, OfferLeg("b", 900));
    SumOfOne(PENNIES, OfferLeg("b", 901));
    SponsoredExactly(PENNIES, [OfferLeg("b", 1000)], [OfferLeg("b", 900)], 0.1);
    SponsoredExactly(PENNIES, [OfferLeg("b", 1000)], [OfferLeg("b", 901)], 0.1);
  }

  const SIGNED_PRICES := map["a" := PriceRow(-1.0, "feed"), "b" := PriceRow(1.0, "feed")]

  /** A give raised from one unit to nine, and a want lowered from seven units to one, each of which loses it. */
  lemma SignedPricesCost()
    ensures
      var wants := [OfferLeg("b", 5)];
      && IsSponsored(SIGNED_PRICES, [OfferLeg("a", 1), OfferLeg("b", 10)], wants, 0.0)
      && !IsSponsored(SIGNED_PRICES, [OfferLeg("a", 9), OfferLeg("b", 10)], wants, 0.0)
    ensures
      var gives := [OfferLeg("b", 1)];
      && IsSponsored(SIGNED_PRICES, gives, [OfferLeg("a", 7), OfferLeg("b", 5)], 0.0)
      && !IsSponsored(SIGNED_PRICES, gives, [OfferLeg("a", 1), OfferLeg("b", 5)], 0.0)
  {
    PairOf(1, 10);
    PairOf(9, 10);
    PairOf(7, 5);
    PairOf(1, 5);
    SumOfOne(SIGNED_PRICES, OfferLeg("b", 5));
    SumOfOne(SIGNED_PRICES, OfferLeg("b", 1));
    JudgedBySums(SIGNED_PRICES, [OfferLeg("a", 1), OfferLeg("b", 10)], [OfferLeg("b", 5)], 0.0);
    JudgedBySums(SIGNED_PRICES, [OfferLeg("a", 9), OfferLeg("b", 10)], [OfferLeg("b", 5)], 0.0);
    JudgedBySums(SIGNED_PRICES, [OfferLeg("b", 1)], [OfferLeg("a", 7), OfferLeg("b", 5)], 0.0);
    JudgedBySums(SIGNED_PRICES, [OfferLeg("b", 1)], [OfferLeg("a", 1), OfferLeg("b", 5)], 0.0);
  }

  lemma PairOf(a: int, b: int)
    ensures Lower("a") == "a" && Lower("b") == "b" && "feed" != "fallback"
    ensures SumUsd(SIGNED_PRICES, [OfferLeg("a", a), OfferLeg("b", b)]) == b as real - a as real
  {
    assert Lower("a") == "a" && Lower("b") == "b" && |"feed"| != |"fallback"|;
    SumOfTwo(SIGNED_PRICES, OfferLeg("a", a), OfferLeg("b", b));
  }
}
