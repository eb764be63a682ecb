/** What a settlement of whole offers does to every balance: deltas applied in place, actor by actor and asset by
    asset, and what is left for the solver. */
module Settlement {
  import opened Prelude

  type Balances = map<string, int>

  datatype Offer = Offer(name: string, maker: string, giveAsset: string, giveAmount: nat, wantAsset: string, wantAmount: nat)

  datatype Spec = Spec(selected: set<string>, taker: string, tokenIn: string, amountIn: nat, tokenOut: string, demandOut: nat,
                       expectedReceipts: map<string, nat>)

  /** A missing entry is zero. */
  function Held(b: Balances, asset: string): int { if asset in b then b[asset] else 0 }

  function AddDelta(b: Balances, asset: string, delta: int): Balances { b[asset := Held(b, asset) + delta] }

  function Zero(assets: set<string>): Balances { map a | a in assets :: 0 }

  function If(asset: string, a: string, amount: int): int { if asset == a then amount else 0 }

  // ---- The solver's receipts ----

  /** What the selected offers leave of an asset before the taker's leg. */
  function OfferNet(offers: seq<Offer>, selected: set<string>, a: string): int {
    if offers == [] then 0 else
    var o := offers[|offers| - 1];
    OfferNet(offers[..|offers| - 1], selected, a)
    + if o.name in selected then If(o.giveAsset, a, o.giveAmount) - If(o.wantAsset, a, o.wantAmount) else 0
  }

  function Receipt(offers: seq<Offer>, s: Spec, a: string): int {
    OfferNet(offers, s.selected, a) + If(s.tokenIn, a, s.amountIn) - If(s.tokenOut, a, s.demandOut)
  }

  method NetReceipts(offers: seq<Offer>, s: Spec, assets: set<string>) returns (net: Balances)
    ensures forall a :: Held(net, a) == Receipt(offers, s, a)
    ensures assets <= net.Keys
  {
    net := Zero(assets);
    for i := 0 to |offers|
      invariant assets <= net.Keys && forall a :: Held(net, a) == OfferNet(offers[..i], s.selected, a)
    {
      assert offers[..i + 1][..i] == offers[..i];
      var o := offers[i];
      if o.name in s.selected {
        net := AddDelta(net, o.giveAsset, o.giveAmount);
        net := AddDelta(net, o.wantAsset, -(o.wantAmount as int));
      }
    }
    assert offers[..|offers|] == offers;
    net := AddDelta(net, s.tokenIn, s.amountIn);
    net := AddDelta(net, s.tokenOut, -(s.demandOut as int));
  }

  /** The case is accepted exactly when the solver pays no asset and receives of each what was announced. */
  method ExpectedReceiptCheck(offers: seq<Offer>, s: Spec, assets: set<string>) returns (net: Option<Balances>)
    ensures net.Some? <==> (forall a :: Receipt(offers, s, a) >= 0)
                           && forall a :: a in assets ==> Receipt(offers, s, a) == Held(s.expectedReceipts, a)
    ensures net.Some? ==> forall a :: Held(net.value, a) == Receipt(offers, s, a)
  {
    var b := NetReceipts(offers, s, assets);
    if exists a :: a in b && b[a] < 0 {
      ghost var a :| a in b && b[a] < 0;
      assert Receipt(offers, s, a) == Held(b, a) < 0;
      return None;
    }
    forall a ensures Receipt(offers, s, a) >= 0 { assert Held(b, a) >= 0; }
    if exists a :: a in assets && b[a] != Held(s.expectedReceipts, a) {
      ghost var a :| a in assets && b[a] != Held(s.expectedReceipts, a);
      assert Receipt(offers, s, a) == Held(b, a);
      return None;
    }
    return Some(b);
  }

  // ---- The actors' deltas ----

  type Ledger = map<string, Balances>

  function AddFor(l: Ledger, actor: string, asset: string, delta: int): Ledger
    requires actor in l
  {
    l[actor := AddDelta(l[actor], asset, delta)]
  }

  /** The sum of an asset over the actors. */
  function Total(l: Ledger, actors: seq<string>, a: string): int {
    if actors == [] then 0
    else Total(l, actors[..|actors| - 1], a) + if actors[|actors| - 1] in l then Held(l[actors[|actors| - 1]], a) else 0
  }

  predicate Distinct(actors: seq<string>) { forall i, j :: 0 <= i < j < |actors| ==> actors[i] != actors[j] }

  lemma {:induction false} TotalOutside(l: Ledger, actors: seq<string>, actor: string, b: Balances, a: string)
    requires actor !in actors
    ensures Total(l[actor := b], actors, a) == Total(l, actors, a)
  {
    if actors != [] {
      assert actors[|actors| - 1] in actors;
      TotalOutside(l, actors[..|actors| - 1], actor, b, a);
    }
  }

  /** A delta for one actor changes the total by exactly that delta, for exactly that asset. */
  lemma {:induction false} TotalAfterDelta(l: Ledger, actors: seq<string>, actor: string, asset: string, delta: int, a: string)
    requires Distinct(actors) && actor in actors && actor in l
    ensures Total(AddFor(l, actor, asset, delta), actors, a) == Total(l, actors, a) + If(asset, a, delta)
  {
    var n := |actors| - 1;
    var init, last := actors[..n], actors[n];
    assert actors == init + [last];
    if last == actor {
      assert actor !in init;
      TotalOutside(l, init, actor, AddDelta(l[actor], asset, delta), a);
    } else {
      TotalAfterDelta(l, init, actor, asset, delta, a);
    }
  }

  /** What a settlement does to one actor: a maker gives and gets what its selected offers say, the taker pays in and is
      paid what it demands. */
  function MakerDelta(offers: seq<Offer>, selected: set<string>, actor: string, a: string): int {
    if offers == [] then 0 else
    var o := offers[|offers| - 1];
    MakerDelta(offers[..|offers| - 1], selected, actor, a)
    + if o.name in selected && o.maker == actor then If(o.wantAsset, a, o.wantAmount) - If(o.giveAsset, a, o.giveAmount) else 0
  }

  function ActorDelta(offers: seq<Offer>, s: Spec, actor: string, a: string): int {
    MakerDelta(offers, s.selected, actor, a) + if s.taker == actor then If(s.tokenOut, a, s.demandOut) - If(s.tokenIn, a, s.amountIn) else 0
  }

  /** What the actors' deltas of an asset come to. */
  function DeltaSum(offers: seq<Offer>, s: Spec, actors: seq<string>, a: string): int {
    if actors == [] then 0 else DeltaSum(offers, s, actors[..|actors| - 1], a) + ActorDelta(offers, s, actors[|actors| - 1], a)
  }

  lemma {:induction false} TakersShare(s: Spec, actors: seq<string>, a: string)
    requires Distinct(actors)
    ensures DeltaSum([], s, actors, a) == if s.taker in actors then If(s.tokenOut, a, s.demandOut) - If(s.tokenIn, a, s.amountIn) else 0
  {
    if actors != [] {
      TakersShare(s, actors[..|actors| - 1], a);
      assert s.taker in actors <==> s.taker in actors[..|actors| - 1] || s.taker == actors[|actors| - 1];
    }
  }

  lemma {:induction false} MakersShare(offers: seq<Offer>, s: Spec, actors: seq<string>, a: string)
    requires Distinct(actors) && offers != []
    ensures
      var o := offers[|offers| - 1];
      DeltaSum(offers, s, actors, a) == DeltaSum(offers[..|offers| - 1], s, actors, a)
        + if o.name in s.selected && o.maker in actors then If(o.wantAsset, a, o.wantAmount) - If(o.giveAsset, a, o.giveAmount) else 0
  {
    if actors != [] {
      MakersShare(offers, s, actors[..|actors| - 1], a);
      assert forall k :: k in actors <==> k in actors[..|actors| - 1] || k == actors[|actors| - 1];
    }
  }

  /** The solver receives exactly what the actors lose, asset by asset. */
  lemma {:induction false} ReceiptIsWhatActorsLose(offers: seq<Offer>, s: Spec, actors: seq<string>, a: string)
    requires Distinct(actors) && s.taker in actors
    requires forall i :: 0 <= i < |offers| && offers[i].name in s.selected ==> offers[i].maker in actors
    ensures Receipt(offers, s, a) == -DeltaSum(offers, s, actors, a)
  {
    if offers == [] {
      TakersShare(s, actors, a);
    } else {
      var init := offers[..|offers| - 1];
      assert forall i :: 0 <= i < |init| ==> init[i] == offers[i];
      ReceiptIsWhatActorsLose(init, s, actors, a);
      MakersShare(offers, s, actors, a);
    }
  }

  ghost predicate MakersGet(l: Ledger, offers: seq<Offer>, selected: set<string>) {
    forall k, a :: k in l ==> Held(l[k], a) == MakerDelta(offers, selected, k, a)
  }

  ghost predicate ActorsGet(l: Ledger, offers: seq<Offer>, s: Spec) {
    forall k, a :: k in l ==> Held(l[k], a) == ActorDelta(offers, s, k, a)
  }

  lemma OfferGets(l: Ledger, offers: seq<Offer>, i: nat, selected: set<string>)
    requires i < |offers| && MakersGet(l, offers[..i], selected) && (offers[i].name in selected ==> offers[i].maker in l)
    ensures MakersGet(if offers[i].name in selected then OfferMoved(l, offers[i]) else l, offers[..i + 1], selected)
  {
    var o := offers[i];
    var later := if o.name in selected then OfferMoved(l, o) else l;
    assert offers[..i + 1][..i] == offers[..i];
    forall k, a | k in later ensures Held(later[k], a) == MakerDelta(offers[..i + 1], selected, k, a) {
      assert Held(l[k], a) == MakerDelta(offers[..i], selected, k, a);
      if o.name in selected { MovedHeld(l, o, k, a); }
    }
  }

  lemma MovedHeld(l: Ledger, o: Offer, k: string, a: string)
    requires o.maker in l && k in l
    ensures Held(OfferMoved(l, o)[k], a)
            == Held(l[k], a) + if o.maker == k then If(o.wantAsset, a, o.wantAmount) - If(o.giveAsset, a, o.giveAmount) else 0
  {}

  lemma TakerGets(l: Ledger, offers: seq<Offer>, s: Spec)
    requires s.taker in l && MakersGet(l, offers, s.selected)
    ensures ActorsGet(AddFor(AddFor(l, s.taker, s.tokenIn, -(s.amountIn as int)), s.taker, s.tokenOut, s.demandOut), offers, s)
  {}

  lemma {:induction false} ZeroLedger(actors: seq<string>, l: Ledger, a: string)
    requires forall k :: k in l ==> l[k] == map[]
    ensures Total(l, actors, a) == 0
  {
    if actors != [] { ZeroLedger(actors[..|actors| - 1], l, a); }
  }

  ghost predicate Sums(l: Ledger, actors: seq<string>, offers: seq<Offer>, selected: set<string>) {
    forall a :: Total(l, actors, a) == -OfferNet(offers, selected, a)
  }

  function OfferMoved(l: Ledger, o: Offer): (later: Ledger)
    requires o.maker in l
    ensures later.Keys == l.Keys
  {
    AddFor(AddFor(l, o.maker, o.giveAsset, -(o.giveAmount as int)), o.maker, o.wantAsset, o.wantAmount)
  }

  lemma OfferMoves(l: Ledger, actors: seq<string>, offers: seq<Offer>, i: nat, selected: set<string>)
    requires Distinct(actors) && i < |offers| && Sums(l, actors, offers[..i], selected)
    requires offers[i].name in selected ==> offers[i].maker in actors && offers[i].maker in l
    ensures
      var o := offers[i];
      Sums(if o.name in selected then OfferMoved(l, o) else l, actors, offers[..i + 1], selected)
  {
    var o := offers[i];
    assert offers[..i + 1][..i] == offers[..i];
    forall a
      ensures o.name in selected ==>
                Total(OfferMoved(l, o), actors, a)
                == Total(l, actors, a) - If(o.giveAsset, a, o.giveAmount) + If(o.wantAsset, a, o.wantAmount)
    {
      if o.name in selected {
        TotalAfterDelta(l, actors, o.maker, o.giveAsset, -(o.giveAmount as int), a);
        TotalAfterDelta(AddFor(l, o.maker, o.giveAsset, -(o.giveAmount as int)), actors, o.maker, o.wantAsset, o.wantAmount, a);
      }
    }
  }

  lemma TakerMoves(l: Ledger, actors: seq<string>, offers: seq<Offer>, s: Spec)
    requires Distinct(actors) && s.taker in actors && s.taker in l && Sums(l, actors, offers, s.selected)
    ensures
      var later := AddFor(AddFor(l, s.taker, s.tokenIn, -(s.amountIn as int)), s.taker, s.tokenOut, s.demandOut);
      forall a :: Total(later, actors, a) + Receipt(offers, s, a) == 0
  {
    var paid := AddFor(l, s.taker, s.tokenIn, -(s.amountIn as int));
    var later := AddFor(paid, s.taker, s.tokenOut, s.demandOut);
    forall a ensures Total(later, actors, a) + Receipt(offers, s, a) == 0 {
      TotalAfterDelta(l, actors, s.taker, s.tokenIn, -(s.amountIn as int), a);
      TotalAfterDelta(paid, actors, s.taker, s.tokenOut, s.demandOut, a);
    }
  }

  method MoveOffer(l: Ledger, o: Offer) returns (later: Ledger)
    requires o.maker in l
    ensures later == OfferMoved(l, o)
  {
    later := AddFor(l, o.maker, o.giveAsset, -(o.giveAmount as int));
    later := AddFor(later, o.maker, o.wantAsset, o.wantAmount);
  }

  method MakerDeltas(offers: seq<Offer>, s: Spec, actors: seq<string>) returns (r: Option<Ledger>)
    requires Distinct(actors)
    ensures r.Some? <==> forall i :: 0 <= i < |offers| && offers[i].name in s.selected ==> offers[i].maker in actors
    ensures r.Some? ==> r.value.Keys == Elements(actors) && Sums(r.value, actors, offers, s.selected)
    ensures r.Some? ==> MakersGet(r.value, offers, s.selected)
  {
    var l: Ledger := map k | k in Elements(actors) :: map[];
    forall a ensures Total(l, actors, a) == 0 { ZeroLedger(actors, l, a); }
    for i := 0 to |offers|
      invariant l.Keys == Elements(actors) && Sums(l, actors, offers[..i], s.selected)
      invariant MakersGet(l, offers[..i], s.selected)
      invariant forall k :: 0 <= k < i && offers[k].name in s.selected ==> offers[k].maker in actors
    {
      var o := offers[i];
      if o.name in s.selected && o.maker !in l { return None; }
      OfferMoves(l, actors, offers, i, s.selected);
      OfferGets(l, offers, i, s.selected);
      if o.name in s.selected {
        l := MoveOffer(l, o);
      }
    }
    assert offers[..|offers|] == offers;
    return Some(l);
  }

  /** The deltas of all actors, or None when an offer or the taker names an actor without a wallet. For every asset they
      and the solver's receipt sum to zero. */
  method DeltasByActor(offers: seq<Offer>, s: Spec, actors: seq<string>) returns (r: Option<Ledger>)
    requires Distinct(actors)
    ensures r.Some? <==> s.taker in actors && forall i :: 0 <= i < |offers| && offers[i].name in s.selected ==> offers[i].maker in actors
    ensures r.Some? ==> r.value.Keys == Elements(actors)
    ensures r.Some? ==> ActorsGet(r.value, offers, s)
    ensures r.Some? ==> forall a :: Total(r.value, actors, a) + Receipt(offers, s, a) == 0
  {
    r := MakerDeltas(offers, s, actors);
    if r.None? || s.taker !in r.value { return None; }
    var l := r.value;
    TakerMoves(l, actors, offers, s);
    TakerGets(l, offers, s);
    l := AddFor(l, s.taker, s.tokenIn, -(s.amountIn as int));
    l := AddFor(l, s.taker, s.tokenOut, s.demandOut);
    return Some(l);
  }

  // ---- Balances after the settlement ----

  method ExpectedAfter(before: Balances, deltas: Balances) returns (after: Balances)
    ensures forall a :: Held(after, a) == Held(before, a) + Held(deltas, a)
    ensures after.Keys == before.Keys + deltas.Keys
  {
    after := before;
    var rest := deltas.Keys;
    while rest != {}
      invariant rest <= deltas.Keys && after.Keys == before.Keys + (deltas.Keys - rest)
      invariant forall a :: Held(after, a) == Held(before, a) + if a in rest then 0 else Held(deltas, a)
    {
      var a :| a in rest;
      after := AddDelta(after, a, deltas[a]);
      rest := rest - {a};
    }
  }

  ghost predicate Applied(before: Ledger, deltas: Ledger, after: Ledger, k: string) {
    k in before && k in after && k in deltas && forall a :: Held(after[k], a) == Held(before[k], a) + Held(deltas[k], a)
  }

  ghost predicate After(before: Ledger, deltas: Ledger, after: Ledger, actors: seq<string>) {
    forall i :: 0 <= i < |actors| ==> Applied(before, deltas, after, actors[i])
  }

  lemma {:induction false} TotalsAdd(before: Ledger, deltas: Ledger, after: Ledger, actors: seq<string>, a: string)
    requires After(before, deltas, after, actors)
    ensures Total(after, actors, a) == Total(before, actors, a) + Total(deltas, actors, a)
  {
    if actors != [] {
      var n := |actors| - 1;
      assert Applied(before, deltas, after, actors[n]);
      TotalsAdd(before, deltas, after, actors[..n], a);
    }
  }

  /** No settlement makes or loses an asset: what the actors hold afterwards and what the solver received is what the
      actors held before. */
  lemma AssetsAreConserved(before: Ledger, deltas: Ledger, after: Ledger, actors: seq<string>, offers: seq<Offer>, s: Spec, a: string)
    requires After(before, deltas, after, actors)
    requires forall x :: Total(deltas, actors, x) + Receipt(offers, s, x) == 0
    ensures Total(after, actors, a) + Receipt(offers, s, a) == Total(before, actors, a)
  {
    TotalsAdd(before, deltas, after, actors, a);
  }
}
