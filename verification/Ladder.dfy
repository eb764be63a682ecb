/** Price ladders: which staircases are accepted, and what they quote between their rungs. */
module Ladder {
  import opened Prelude
  import opened Digits

  const MAX_RUNGS := 64
  const MAX_U256 := 115792089237316195423570985008687907853269984665640564039457584007913129639935

  /** A published rung: two texts, or something that is no rung at all. */
  datatype RawRung = Rung(input: string, output: string) | NotARung

  datatype Level = Level(input: int, output: int)

  datatype Rejection = Empty | TooManyRungs | MalformedRung | NonPositive | InputNotAscending | OutputDecreasing

  predicate IsAmount(s: string) { Canonical(s) && |s| <= 78 && Val(s) <= MAX_U256 }

  /** An amount is the canonical spelling of a number below two to the 256; the length says nothing of its own. */
  lemma AmountExactly(s: string)
    ensures IsAmount(s) <==> Canonical(s) && Val(s) < Two(256)
  {
    TwoTo256();
    if Canonical(s) && |s| > 78 {
      assert s[0] != '0';
      ValLeading(s);
      Pow10Monotone(78, |s| - 1);
      Pow10Of78();
    }
  }

  lemma TwoTo256()
    ensures Two(256) == MAX_U256 + 1
  {
    TwoTo64();
    TwoAdd(64, 64);
    TwoAdd(128, 128);
  }

  lemma TwoTo64()
    ensures Two(64) == 0x1_0000_0000_0000_0000
  {
    TwoAdd(8, 8);
    TwoAdd(16, 16);
    TwoAdd(32, 32);
    assert Two(4) == 16 && Two(8) == 256;
  }

  lemma Pow10Of78()
    ensures Pow10(78) > MAX_U256
  {
    Pow10Add(13, 13);
    Pow10Add(26, 13);
    Pow10Add(39, 39);
    assert Pow10(3) == 1000 && Pow10(6) == 1_000_000 && Pow10(13) == 10_000_000_000_000;
  }

  predicate Shaped(r: RawRung) { r.Rung? && IsAmount(r.input) && IsAmount(r.output) }

  function Numeric(r: RawRung): Level
    requires Shaped(r)
  {
    Level(Val(r.input), Val(r.output))
  }

  function Levels(raw: seq<RawRung>): (levels: seq<Level>)
    requires forall i :: 0 <= i < |raw| ==> Shaped(raw[i])
    ensures |levels| == |raw| && forall i :: 0 <= i < |raw| ==> levels[i] == Numeric(raw[i])
  {
    seq(|raw|, i requires 0 <= i < |raw| => Numeric(raw[i]))
  }

  // ---- Acceptance ----

  predicate Ascending(levels: seq<Level>) {
    && (forall i :: 0 <= i < |levels| ==> levels[i].input > 0 && levels[i].output > 0)
    && (forall i, j :: 0 <= i < j < |levels| ==> levels[i].input < levels[j].input && levels[i].output <= levels[j].output)
  }

  predicate Sound(raw: seq<RawRung>) {
    (forall i :: 0 <= i < |raw| ==> Shaped(raw[i])) && Ascending(Levels(raw))
  }

  predicate Acceptable(raw: seq<RawRung>) { 0 < |raw| <= MAX_RUNGS && Sound(raw) }

  /** What is wrong with rung `i` when all rungs before it are sound. */
  function Fault(raw: seq<RawRung>, i: nat): Option<Rejection>
    requires i < |raw| && Sound(raw[..i])
  {
    if !Shaped(raw[i]) then Some(MalformedRung) else
    if Val(raw[i].input) == 0 || Val(raw[i].output) == 0 then Some(NonPositive) else
    if i == 0 then None else
    assert Shaped(raw[..i][i - 1]);
    if Val(raw[i - 1].input) >= Val(raw[i].input) then Some(InputNotAscending) else
    if Val(raw[i - 1].output) > Val(raw[i].output) then Some(OutputDecreasing) else None
  }

  lemma SoundSnoc(raw: seq<RawRung>, i: nat)
    requires i < |raw| && Sound(raw[..i])
    ensures Sound(raw[..i + 1]) <==> Fault(raw, i).None?
  {
    var before, after := raw[..i], raw[..i + 1];
    assert after == before + [raw[i]];
    assert forall k :: 0 <= k < i ==> after[k] == before[k];
    if Shaped(raw[i]) {
      forall k | 0 <= k < |after| ensures Shaped(after[k]) { assert k < i ==> Shaped(before[k]); }
      assert forall k :: 0 <= k < i ==> Levels(after)[k] == Levels(before)[k];
    } else {
      assert after[i] == raw[i];
    }
  }

  /** Null exactly when the ladder is acceptable; otherwise the fault of the first rung that breaks it. */
  method RejectLevels(raw: seq<RawRung>) returns (r: Option<Rejection>)
    ensures r.None? <==> Acceptable(raw)
    ensures r == Some(Empty) <==> raw == []
    ensures r == Some(TooManyRungs) <==> |raw| > 64
    ensures 0 < |raw| <= 64 && r.Some? ==> exists i :: 0 <= i < |raw| && Sound(raw[..i]) && Fault(raw, i) == r
  {
    if |raw| == 0 { return Some(Empty); }
    if |raw| > MAX_RUNGS { return Some(TooManyRungs); }
    assert raw[..0] == [];
    for i := 0 to |raw|
      invariant Sound(raw[..i])
    {
      SoundSnoc(raw, i);
      r := CheckRung(raw, i);
      if r.Some? {
        return r;
      }
    }
    assert raw[..|raw|] == raw;
    return None;
  }

  method CheckRung(raw: seq<RawRung>, i: nat) returns (r: Option<Rejection>)
    requires i < |raw| && Sound(raw[..i])
    ensures r == Fault(raw, i)
  {
    if !Shaped(raw[i]) { return Some(MalformedRung); }
    if Val(raw[i].input) <= 0 || Val(raw[i].output) <= 0 { return Some(NonPositive); }
    if i == 0 { return None; }
    assert Shaped(raw[..i][i - 1]);
    if Val(raw[i - 1].input) >= Val(raw[i].input) { return Some(InputNotAscending); }
    if Val(raw[i - 1].output) > Val(raw[i].output) { return Some(OutputDecreasing); }
    return None;
  }

  /** Each code means what it says of the rung, given that all rungs before it are sound; the codes are tried in the order
      of the list. */
  lemma FaultMeans(raw: seq<RawRung>, i: nat)
    requires i < |raw| && Sound(raw[..i])
    ensures
      var malformed := !(raw[i].Rung? && IsAmount(raw[i].input) && IsAmount(raw[i].output));
      && (Fault(raw, i) == Some(MalformedRung) <==> malformed)
      && (!malformed ==>
            var x, y := Val(raw[i].input), Val(raw[i].output);
            && (Fault(raw, i) == Some(NonPositive) <==> x == 0 || y == 0)
            && (x > 0 && y > 0 && i > 0 && raw[i - 1].Rung? && IsAmount(raw[i - 1].input) && IsAmount(raw[i - 1].output) ==>
                  && (Fault(raw, i) == Some(InputNotAscending) <==> x <= Val(raw[i - 1].input))
                  && (Fault(raw, i) == Some(OutputDecreasing) <==> x > Val(raw[i - 1].input) && y < Val(raw[i - 1].output))
                  && (Fault(raw, i) == None <==> x > Val(raw[i - 1].input) && y >= Val(raw[i - 1].output))))
    ensures i > 0 ==> raw[i - 1].Rung? && IsAmount(raw[i - 1].input) && IsAmount(raw[i - 1].output)
  {
    if i > 0 { assert Shaped(raw[..i][i - 1]); }
  }

  /** A ladder of sixty-four rungs may be accepted, one of sixty-five is not, and the greatest amount is 2^256 - 1. */
  lemma LimitsOfLadders(raw: seq<RawRung>)
    ensures |raw| > 64 ==> !Acceptable(raw)
    ensures 0 < |raw| <= 64 ==> (Acceptable(raw) <==> Sound(raw))
    ensures MAX_U256 + 1 == 0x1_0000_0000_0000_0000 * 0x1_0000_0000_0000_0000 * 0x1_0000_0000_0000_0000 * 0x1_0000_0000_0000_0000
  {}

  // ---- Quoting ----

  function Interpolate(lo: Level, hi: Level, x: int): int {
    if hi.input <= lo.input then lo.output
    else lo.output + TruncDiv((hi.output - lo.output) * (x - lo.input), hi.input - lo.input)
  }

  function QuoteFrom(levels: seq<Level>, x: int, i: nat): int
    requires i < |levels|
    decreases |levels| - i
  {
    if i == |levels| - 1 then levels[i].output
    else if x > levels[i + 1].input then QuoteFrom(levels, x, i + 1)
    else Interpolate(levels[i], levels[i + 1], x)
  }

  function Quote(levels: seq<Level>, x: int): Option<int> {
    if levels == [] || x < levels[0].input || x > levels[|levels| - 1].input then None
    else Some(QuoteFrom(levels, x, 0))
  }

  method InterpolateQuote(levels: seq<Level>, x: int) returns (r: Option<int>)
    ensures r == Quote(levels, x)
  {
    if |levels| == 0 { return None; }
    if x < levels[0].input { return None; }
    if x > levels[|levels| - 1].input { return None; }
    for i := 0 to |levels| - 1
      invariant QuoteFrom(levels, x, i) == QuoteFrom(levels, x, 0)
    {
      var lo, hi := levels[i], levels[i + 1];
      if x <= hi.input {
        if hi.input <= lo.input { return Some(lo.output); }
        return Some(lo.output + TruncDiv((hi.output - lo.output) * (x - lo.input), hi.input - lo.input));
      }
    }
    return Some(levels[|levels| - 1].output);
  }

  // ---- One segment ----

  /** Between two rungs the quote is the greatest whole output on or under the chord. */
  predicate OnOrUnderChord(lo: Level, hi: Level, x: int, r: int) {
    (r - lo.output) * (hi.input - lo.input) <= (hi.output - lo.output) * (x - lo.input)
  }

  predicate Segment(lo: Level, hi: Level, x: int) { lo.input < hi.input && lo.output <= hi.output && lo.input <= x <= hi.input }

  lemma InterpolateIsFloor(lo: Level, hi: Level, x: int, r: int)
    requires Segment(lo, hi, x)
    ensures r <= Interpolate(lo, hi, x) <==> OnOrUnderChord(lo, hi, x, r)
  {
    var rise, run := hi.output - lo.output, x - lo.input;
    NonNegative(rise, run);
    TruncIsFloor(rise * run, hi.input - lo.input, r - lo.output);
  }

  lemma NonNegative(a: int, b: int)
    requires a >= 0 && b >= 0
    ensures a * b >= 0
  {}

  /** How far up the chord a whole step may be. */
  lemma ChordBrackets(rise: int, run: int, gap: int)
    requires rise >= 0 && 0 <= run <= gap && gap > 0
    ensures 0 <= TruncDiv(rise * run, gap) <= rise
    ensures run == 0 ==> TruncDiv(rise * run, gap) == 0
    ensures run == gap ==> TruncDiv(rise * run, gap) == rise
  {
    NonNegative(rise, run);
    TruncIsFloor(rise * run, gap, 0);
    TruncIsFloor(rise * run, gap, rise + 1);
    if run == gap { TruncIsFloor(rise * run, gap, rise); }
    ScalesRight(rise, run, gap);
    assert (rise + 1) * gap == rise * gap + gap;
  }

  lemma InterpolateBrackets(lo: Level, hi: Level, x: int)
    requires Segment(lo, hi, x)
    ensures lo.output <= Interpolate(lo, hi, x) <= hi.output
    ensures x == lo.input ==> Interpolate(lo, hi, x) == lo.output
    ensures x == hi.input ==> Interpolate(lo, hi, x) == hi.output
  {
    ChordBrackets(hi.output - lo.output, x - lo.input, hi.input - lo.input);
  }

  lemma InterpolateMonotone(lo: Level, hi: Level, x: int, y: int)
    requires Segment(lo, hi, x) && Segment(lo, hi, y) && x <= y
    ensures Interpolate(lo, hi, x) <= Interpolate(lo, hi, y)
  {
    var r := Interpolate(lo, hi, x);
    InterpolateIsFloor(lo, hi, x, r);
    InterpolateIsFloor(lo, hi, y, r);
    ScalesRight(hi.output - lo.output, x - lo.input, y - lo.input);
  }

  lemma ScalesRight(a: int, x: int, y: int)
    requires a >= 0 && x <= y
    ensures a * x <= a * y
  {}

  // ---- The whole ladder ----

  predicate InDomain(levels: seq<Level>, x: int) { levels != [] && levels[0].input <= x <= levels[|levels| - 1].input }

  /** The segment the loop stops at. */
  predicate StopsAt(levels: seq<Level>, x: int, k: nat) {
    if |levels| == 1 then k == 0 && x == levels[0].input
    else k + 1 < |levels| && levels[k].input <= x <= levels[k + 1].input && (k > 0 ==> levels[k].input < x)
  }

  function At(levels: seq<Level>, x: int, k: nat): int
    requires StopsAt(levels, x, k) && levels != []
  {
    if |levels| == 1 then levels[0].output else Interpolate(levels[k], levels[k + 1], x)
  }

  lemma {:induction false} Locate(levels: seq<Level>, x: int, i: nat) returns (k: nat)
    requires Ascending(levels) && InDomain(levels, x) && i < |levels|
    requires levels[i].input <= x && (i > 0 ==> levels[i].input < x) && (i == |levels| - 1 ==> |levels| == 1)
    ensures StopsAt(levels, x, k) && QuoteFrom(levels, x, i) == At(levels, x, k) && i <= k
    decreases |levels| - i
  {
    if i == |levels| - 1 || x <= levels[i + 1].input {
      k := i;
    } else {
      k := Locate(levels, x, i + 1);
    }
  }

  /** A sound ladder quotes exactly on its range, its own output at every rung, and between two rungs the greatest
      whole amount on or under the chord, so never less than the lower rung nor more than the upper one. */
  lemma QuoteIsFlooredChord(levels: seq<Level>, x: int, r: int)
    requires Ascending(levels)
    ensures Quote(levels, x).Some? <==> InDomain(levels, x)
    ensures forall i :: 0 <= i < |levels| ==> Quote(levels, levels[i].input) == Some(levels[i].output)
    ensures forall i :: 0 <= i < |levels| - 1 && levels[i].input <= x <= levels[i + 1].input ==>
              && Quote(levels, x).Some?
              && levels[i].output <= Quote(levels, x).value <= levels[i + 1].output
              && (r <= Quote(levels, x).value <==> OnOrUnderChord(levels[i], levels[i + 1], x, r))
  {
    forall i | 0 <= i < |levels| ensures Quote(levels, levels[i].input) == Some(levels[i].output) {
      RungExact(levels, i);
    }
    forall i | 0 <= i < |levels| - 1 && levels[i].input <= x <= levels[i + 1].input
      ensures Quote(levels, x) == Some(Interpolate(levels[i], levels[i + 1], x))
      ensures levels[i].output <= Interpolate(levels[i], levels[i + 1], x) <= levels[i + 1].output
      ensures r <= Interpolate(levels[i], levels[i + 1], x) <==> OnOrUnderChord(levels[i], levels[i + 1], x, r)
    {
      SegmentQuote(levels, x, i);
      InterpolateBrackets(levels[i], levels[i + 1], x);
      InterpolateIsFloor(levels[i], levels[i + 1], x, r);
    }
  }

  /** Where two segments meet both give the same quote, so it does not matter which the loop picks. */
  lemma SegmentQuote(levels: seq<Level>, x: int, i: nat)
    requires Ascending(levels) && i + 1 < |levels| && levels[i].input <= x <= levels[i + 1].input
    ensures Quote(levels, x) == Some(Interpolate(levels[i], levels[i + 1], x))
  {
    var last := |levels| - 1;
    assert levels[0].input <= levels[i].input && levels[i + 1].input <= levels[last].input;
    var k := Locate(levels, x, 0);
    if k + 1 == i {
      InterpolateBrackets(levels[k], levels[k + 1], x);
      InterpolateBrackets(levels[i], levels[i + 1], x);
    }
  }

  lemma RungExact(levels: seq<Level>, i: nat)
    requires Ascending(levels) && i < |levels|
    ensures Quote(levels, levels[i].input) == Some(levels[i].output)
  {
    if i + 1 < |levels| {
      SegmentQuote(levels, levels[i].input, i);
      InterpolateBrackets(levels[i], levels[i + 1], levels[i].input);
    } else if i > 0 {
      SegmentQuote(levels, levels[i].input, i - 1);
      InterpolateBrackets(levels[i - 1], levels[i], levels[i].input);
    }
  }

  /** A larger amount never quotes less, across rungs and despite the flooring. */
  lemma QuoteMonotone(levels: seq<Level>, x: int, y: int)
    requires Ascending(levels) && InDomain(levels, x) && InDomain(levels, y) && x <= y
    ensures Quote(levels, x).value <= Quote(levels, y).value
  {
    if |levels| > 1 {
      var j := Locate(levels, x, 0);
      var k := Locate(levels, y, 0);
      InterpolateBrackets(levels[j], levels[j + 1], x);
      InterpolateBrackets(levels[k], levels[k + 1], y);
      if j == k {
        InterpolateMonotone(levels[j], levels[j + 1], x, y);
      } else {
        assert j < k ==> levels[j + 1].output <= levels[k].output;
      }
    }
  }

  // ---- When the quote is the staircase itself ----

  /** The output of the greatest rung at or below `x`. */
  function StepAt(levels: seq<Level>, x: int): int
    requires levels != [] && levels[0].input <= x
  {
    if levels[|levels| - 1].input <= x then levels[|levels| - 1].output else StepAt(levels[..|levels| - 1], x)
  }

  lemma {:induction false} StepAtSegment(levels: seq<Level>, x: int, i: nat)
    requires Ascending(levels) && i + 1 < |levels| && levels[i].input <= x < levels[i + 1].input
    ensures levels[0].input <= x && StepAt(levels, x) == levels[i].output
  {
    var last := |levels| - 1;
    assert levels[0].input <= levels[i].input;
    assert levels[i + 1].input <= levels[last].input;
    if i + 1 == last {
      assert levels[..last][i] == levels[i];
    } else {
      StepAtSegment(levels[..last], x, i);
    }
  }

  lemma {:induction false} StepAtRung(levels: seq<Level>, i: nat)
    requires Ascending(levels) && i < |levels|
    ensures levels[0].input <= levels[i].input && StepAt(levels, levels[i].input) == levels[i].output
  {
    if i < |levels| - 1 {
      StepAtSegment(levels, levels[i].input, i);
    }
  }

  /** Each pair of neighbours is a plateau, a single step up, or has no amount between its inputs. */
  predicate StaircaseShaped(levels: seq<Level>) {
    forall i :: 0 <= i < |levels| - 1 ==>
      levels[i + 1].output - levels[i].output <= 1 || levels[i + 1].input - levels[i].input == 1
  }

  lemma FlatUntilTop(lo: Level, hi: Level, x: int)
    requires Segment(lo, hi, x) && x < hi.input
    requires hi.output - lo.output <= 1 || hi.input - lo.input == 1
    ensures Interpolate(lo, hi, x) == lo.output
  {
    InterpolateBrackets(lo, hi, x);
    InterpolateIsFloor(lo, hi, x, lo.output + 1);
    if hi.output - lo.output == 1 {
      assert 1 * (x - lo.input) < hi.input - lo.input;
    }
  }

  lemma RisesBeforeTop(lo: Level, hi: Level)
    requires Segment(lo, hi, hi.input - 1) && hi.output - lo.output > 1 && hi.input - lo.input > 1
    ensures Interpolate(lo, hi, hi.input - 1) > lo.output
  {
    var gap, rise := hi.input - lo.input, hi.output - lo.output;
    InterpolateIsFloor(lo, hi, hi.input - 1, lo.output + 1);
    Scales(2, rise, gap - 1);
    assert gap - 1 == hi.input - 1 - lo.input && lo.output + 1 - lo.output == 1;
  }

  /** The interpolated quote is the staircase "output of the greatest rung at or below the amount" for every
      amount in range exactly when neighbouring rungs differ by at most one output unit or by one input unit. */
  lemma QuoteIsStaircaseExactly(levels: seq<Level>)
    requires Ascending(levels) && levels != []
    ensures (forall x :: InDomain(levels, x) ==> Quote(levels, x) == Some(StepAt(levels, x))) <==> StaircaseShaped(levels)
  {
    if StaircaseShaped(levels) {
      forall x | InDomain(levels, x) ensures Quote(levels, x) == Some(StepAt(levels, x)) {
        StaircaseAt(levels, x);
      }
    } else {
      var i :| 0 <= i < |levels| - 1 && levels[i + 1].output - levels[i].output > 1 && levels[i + 1].input - levels[i].input != 1;
      var x := levels[i + 1].input - 1;
      assert levels[0].input <= levels[i].input && levels[i + 1].input <= levels[|levels| - 1].input;
      SegmentQuote(levels, x, i);
      RisesBeforeTop(levels[i], levels[i + 1]);
      StepAtSegment(levels, x, i);
      assert InDomain(levels, x) && Quote(levels, x) != Some(StepAt(levels, x));
    }
  }

  lemma StaircaseAt(levels: seq<Level>, x: int)
    requires Ascending(levels) && InDomain(levels, x) && StaircaseShaped(levels)
    ensures Quote(levels, x) == Some(StepAt(levels, x))
  {
    if |levels| > 1 {
      var k := Locate(levels, x, 0);
      if x == levels[k + 1].input {
        RungExact(levels, k + 1);
        StepAtRung(levels, k + 1);
      } else {
        FlatUntilTop(levels[k], levels[k + 1], x);
        StepAtSegment(levels, x, k);
      }
    }
  }
}
