/** The commit gate: an event of block `h` reaches the bus only once a commit at or above `h` was reported. */
module EventGate {
  import opened Prelude
  import opened AppEvents
  import opened Digits

  // ---- Identity of an event within its block ----

  function TypeOf(e: AppEvent): string {
    match e
    case OfferIndexed(_, _, _, _, _) => "offer_indexed"
    case OfferConsumed(_, _, _) => "offer_consumed"
    case OfferExpired(_, _) => "offer_expired"
    case TokenMinted(_, _) => "token_minted"
    case OfferRejected(_, _, _, _) => "offer_rejected"
  }

  function HashOr(hash: Option<string>, other: string): string {
    if hash.Some? && hash.value != "" then hash.value else other
  }

  function Subject(e: AppEvent): string {
    match e
    case OfferIndexed(id, hash, _, _, _) => HashOr(Some(hash), Dec(id))
    case OfferConsumed(id, hash, _) => HashOr(hash, Dec(id))
    case OfferExpired(id, hash) => HashOr(hash, Dec(id))
    case TokenMinted(_, color) => color
    case OfferRejected(_, hash, _, _) => HashOr(hash, "")
  }

  function Identity(e: AppEvent): string { TypeOf(e) + ":" + Subject(e) }

  /** The spelled key loses nothing: equal keys mean equal type and equal subject. */
  lemma IdentityExact(x: AppEvent, y: AppEvent)
    ensures Identity(x) == Identity(y) <==> TypeOf(x) == TypeOf(y) && Subject(x) == Subject(y)
  {
    if Identity(x) == Identity(y) { SplitAtColon(TypeOf(x), Subject(x), TypeOf(y), Subject(y)); }
  }

  // ---- The gate as a value ----

  datatype Held = Held(height: int, key: string, event: AppEvent)

  /** An event the bus delivered: the height it was emitted for, and the committed height at that moment. */
  datatype Release = Release(event: AppEvent, height: Option<int>, frontier: int)

  datatype Gate = Gate(pending: seq<Held>, committed: int, out: seq<Release>)

  const Closed := Gate([], -1, [])

  /** The held events at or below height `c`, in order. */
  function Due(p: seq<Held>, c: int): seq<Held> {
    if p == [] then []
    else (if p[0].height <= c then [p[0]] else []) + Due(p[1..], c)
  }

  function Kept(p: seq<Held>, c: int): seq<Held> {
    if p == [] then []
    else (if p[0].height <= c then [] else [p[0]]) + Kept(p[1..], c)
  }

  function Releases(p: seq<Held>, c: int): seq<Release> {
    seq(|p|, i requires 0 <= i < |p| => Release(p[i].event, Some(p[i].height), c))
  }

  predicate IsPending(p: seq<Held>, h: int, key: string) {
    exists k :: 0 <= k < |p| && p[k].height == h && p[k].key == key
  }

  /** Heights that are missing or not finite numbers are None. */
  datatype Op = Emit(event: AppEvent, height: Option<int>) | Commit(height: Option<int>)

  function OnEmit(g: Gate, e: AppEvent, height: Option<int>): Gate {
    if height.None? || height.value <= g.committed then g.(out := g.out + [Release(e, height, g.committed)])
    else if IsPending(g.pending, height.value, Identity(e)) then g
    else g.(pending := g.pending + [Held(height.value, Identity(e), e)])
  }

  function OnCommit(g: Gate, height: Option<int>): Gate {
    if height.None? || height.value <= g.committed then g
    else Gate(Kept(g.pending, height.value), height.value, g.out + Releases(Due(g.pending, height.value), height.value))
  }

  function Step(g: Gate, op: Op): Gate {
    match op
    case Emit(e, h) => OnEmit(g, e, h)
    case Commit(h) => OnCommit(g, h)
  }

  function Run(g: Gate, ops: seq<Op>): Gate {
    if ops == [] then g else Step(Run(g, ops[..|ops| - 1]), ops[|ops| - 1])
  }

  // ---- Releasing keeps the emission order ----

  /** `f` picks, in order and without repeats, the elements of `q` out of `p`. */
  ghost predicate Picks<T>(f: seq<nat>, q: seq<T>, p: seq<T>) {
    && |f| == |q| && (forall k :: 0 <= k < |f| ==> f[k] < |p| && q[k] == p[f[k]])
    && forall j, k :: 0 <= j < k < |f| ==> f[j] < f[k]
  }

  function Shift(f: seq<nat>): seq<nat> { seq(|f|, i requires 0 <= i < |f| => f[i] + 1) }

  lemma PickFirst<T>(f: seq<nat>, q: seq<T>, p: seq<T>)
    requires p != [] && Picks(f, q, p[1..])
    ensures Picks([0] + Shift(f), [p[0]] + q, p) && Picks(Shift(f), q, p)
  {}

  /** `f` names exactly the positions of `p` at or below height `c`, or exactly those above it. */
  ghost predicate Names(f: seq<nat>, p: seq<Held>, c: int, below: bool) {
    forall k :: 0 <= k < |p| ==> (k in f <==> (p[k].height <= c) == below)
  }

  lemma NamesFirst(f: seq<nat>, p: seq<Held>, c: int, below: bool)
    requires p != [] && Names(f, p[1..], c, below)
    ensures Names((if (p[0].height <= c) == below then [0] else []) + Shift(f), p, c, below)
  {
    forall k | 0 <= k < |p|
      ensures k in (if (p[0].height <= c) == below then [0] else []) + Shift(f) <==> (p[k].height <= c) == below
    {
      ShiftMember(f, k);
      if k > 0 { assert p[k] == p[1..][k - 1]; }
    }
  }

  /** A flush splits the buffer, in order on both sides, into what is at most the committed height and the rest. */
  lemma {:induction false} FlushSplits(p: seq<Held>, c: int) returns (due: seq<nat>, kept: seq<nat>)
    ensures Picks(due, Due(p, c), p) && Names(due, p, c, true)
    ensures Picks(kept, Kept(p, c), p) && Names(kept, p, c, false)
  {
    if p == [] {
      due, kept := [], [];
    } else {
      var d, e := FlushSplits(p[1..], c);
      PickFirst(d, Due(p[1..], c), p);
      PickFirst(e, Kept(p[1..], c), p);
      NamesFirst(d, p, c, true);
      NamesFirst(e, p, c, false);
      due := (if p[0].height <= c then [0] else []) + Shift(d);
      kept := (if p[0].height <= c then [] else [0]) + Shift(e);
      assert [] + Shift(d) == Shift(d) && [] + Shift(e) == Shift(e);
      assert [] + Due(p[1..], c) == Due(p[1..], c) && [] + Kept(p[1..], c) == Kept(p[1..], c);
    }
  }

  lemma ShiftMember(f: seq<nat>, k: nat)
    ensures k in Shift(f) <==> k > 0 && k - 1 in f
  {
    if k > 0 && k - 1 in f {
      var i :| 0 <= i < |f| && f[i] == k - 1;
      assert Shift(f)[i] == k;
    }
  }

  function Emissions(ops: seq<Op>): seq<Held> {
    if ops == [] then [] else
    var rest, last := Emissions(ops[..|ops| - 1]), ops[|ops| - 1];
    if last.Emit? && last.height.Some? then rest + [Held(last.height.value, Identity(last.event), last.event)] else rest
  }

  lemma PicksCompose<T>(f: seq<nat>, q: seq<T>, g: seq<nat>, p: seq<T>, all: seq<T>) returns (h: seq<nat>)
    requires Picks(f, q, p) && Picks(g, p, all)
    ensures Picks(h, q, all)
  {
    h := seq(|f|, i requires 0 <= i < |f| => g[f[i]]);
  }

  /** The buffer always holds events in the order in which they were emitted. */
  lemma {:induction false} PendingInOrder(ops: seq<Op>) returns (f: seq<nat>)
    ensures Picks(f, Run(Closed, ops).pending, Emissions(ops))
  {
    if ops == [] {
      f := [];
    } else {
      var init, last := ops[..|ops| - 1], ops[|ops| - 1];
      var g := Run(Closed, init);
      var f0 := PendingInOrder(init);
      if |Run(Closed, ops).pending| == |g.pending| + 1 && last.Emit? {
        f := f0 + [|Emissions(init)|];
      } else if last.Commit? && last.height.Some? && last.height.value > g.committed {
        var due, kept := FlushSplits(g.pending, last.height.value);
        f := PicksCompose(kept, Kept(g.pending, last.height.value), f0, g.pending, Emissions(init));
      } else {
        f := f0;
      }
    }
  }

  // ---- What every run keeps ----

  ghost predicate DistinctKeys(p: seq<Held>) {
    forall j, k :: 0 <= j < k < |p| ==> p[j].height != p[k].height || p[j].key != p[k].key
  }

  /** What is held lies above the committed height `c`, without repeats. */
  ghost predicate HeldAbove(p: seq<Held>, c: int) {
    && (forall k :: 0 <= k < |p| ==> p[k].height > c && p[k].key == Identity(p[k].event))
    && DistinctKeys(p)
  }

  /** What was released for a block was released when the block was known committed. */
  ghost predicate ReleasedBelow(out: seq<Release>, c: int) {
    && (forall k :: 0 <= k < |out| ==>
          out[k].frontier <= c && (out[k].height.Some? ==> out[k].height.value <= out[k].frontier))
    && (forall j, k :: 0 <= j < k < |out| ==> out[j].frontier <= out[k].frontier)
  }

  ghost predicate Inv(g: Gate) { HeldAbove(g.pending, g.committed) && ReleasedBelow(g.out, g.committed) }

  lemma EmitKeepsInv(g: Gate, e: AppEvent, h: Option<int>)
    requires Inv(g)
    ensures Inv(OnEmit(g, e, h)) && OnEmit(g, e, h).committed == g.committed
  {}

  lemma KeptAbove(p: seq<Held>, c: int, h: int)
    requires HeldAbove(p, c)
    ensures HeldAbove(Kept(p, h), h)
  {
    var due, kept := FlushSplits(p, h);
    forall k | 0 <= k < |kept| ensures p[kept[k]].height > h { assert kept[k] in kept; }
  }

  lemma DueBelow(p: seq<Held>, out: seq<Release>, c: int, h: int)
    requires ReleasedBelow(out, c) && c <= h
    ensures ReleasedBelow(out + Releases(Due(p, h), h), h)
  {
    var due, kept := FlushSplits(p, h);
    forall k | 0 <= k < |due| ensures p[due[k]].height <= h { assert due[k] in due; }
  }

  lemma StepKeepsInv(g: Gate, op: Op)
    requires Inv(g)
    ensures Inv(Step(g, op)) && Step(g, op).committed >= g.committed
  {
    match op
    case Emit(e, h) => EmitKeepsInv(g, e, h);
    case Commit(h) =>
      if h.Some? && h.value > g.committed {
        KeptAbove(g.pending, g.committed, h.value);
        DueBelow(g.pending, g.out, g.committed, h.value);
      }
  }

  /** Over any run, the buffer lies above the committed height without repeats, and whatever was released for a
      block was released when that block was known committed. */
  lemma {:induction false} RunKeepsInv(g: Gate, ops: seq<Op>)
    requires Inv(g)
    ensures Inv(Run(g, ops)) && Run(g, ops).committed >= g.committed
  {
    if ops != [] {
      RunKeepsInv(g, ops[..|ops| - 1]);
      StepKeepsInv(Run(g, ops[..|ops| - 1]), ops[|ops| - 1]);
    }
  }

  // ---- Every accepted event is pending or published, exactly once ----

  datatype Entry = Entry(event: AppEvent, height: Option<int>)

  function HeldEntries(p: seq<Held>): multiset<Entry> {
    if p == [] then multiset{} else multiset{Entry(p[0].event, Some(p[0].height))} + HeldEntries(p[1..])
  }

  function OutEntries(out: seq<Release>): multiset<Entry> {
    if out == [] then multiset{} else multiset{Entry(out[0].event, out[0].height)} + OutEntries(out[1..])
  }

  function Entries(g: Gate): multiset<Entry> { HeldEntries(g.pending) + OutEntries(g.out) }

  predicate Dropped(g: Gate, op: Op) {
    op.Emit? && op.height.Some? && op.height.value > g.committed && IsPending(g.pending, op.height.value, Identity(op.event))
  }

  function Accepted(g: Gate, ops: seq<Op>): multiset<Entry> {
    if ops == [] then multiset{} else
    var init, last := ops[..|ops| - 1], ops[|ops| - 1];
    Accepted(g, init) + if last.Emit? && !Dropped(Run(g, init), last) then multiset{Entry(last.event, last.height)} else multiset{}
  }

  lemma {:induction false} HeldConcat(p: seq<Held>, q: seq<Held>)
    ensures HeldEntries(p + q) == HeldEntries(p) + HeldEntries(q)
  {
    if p == [] { assert p + q == q; } else {
      assert (p + q)[1..] == p[1..] + q;
      HeldConcat(p[1..], q);
    }
  }

  lemma {:induction false} OutConcat(p: seq<Release>, q: seq<Release>)
    ensures OutEntries(p + q) == OutEntries(p) + OutEntries(q)
  {
    if p == [] { assert p + q == q; } else {
      assert (p + q)[1..] == p[1..] + q;
      OutConcat(p[1..], q);
    }
  }

  lemma {:induction false} ReleasedEntries(p: seq<Held>, c: int)
    ensures OutEntries(Releases(p, c)) == HeldEntries(p)
  {
    if p != [] {
      assert Releases(p, c)[1..] == Releases(p[1..], c);
      ReleasedEntries(p[1..], c);
    }
  }

  lemma {:induction false} FlushConserves(p: seq<Held>, c: int)
    ensures HeldEntries(Due(p, c)) + HeldEntries(Kept(p, c)) == HeldEntries(p)
  {
    if p != [] {
      FlushConserves(p[1..], c);
      var here := if p[0].height <= c then [p[0]] else [];
      var there := if p[0].height <= c then [] else [p[0]];
      HeldConcat(here, Due(p[1..], c));
      HeldConcat(there, Kept(p[1..], c));
    }
  }

  lemma HeldAppend(p: seq<Held>, x: Held)
    ensures HeldEntries(p + [x]) == HeldEntries(p) + multiset{Entry(x.event, Some(x.height))}
  {
    HeldConcat(p, [x]);
    assert HeldEntries([x]) == multiset{Entry(x.event, Some(x.height))} + HeldEntries([]);
  }

  lemma OutAppend(p: seq<Release>, x: Release)
    ensures OutEntries(p + [x]) == OutEntries(p) + multiset{Entry(x.event, x.height)}
  {
    OutConcat(p, [x]);
    assert OutEntries([x]) == multiset{Entry(x.event, x.height)} + OutEntries([]);
  }

  lemma EmitConserves(g: Gate, e: AppEvent, h: Option<int>)
    ensures Entries(OnEmit(g, e, h)) == Entries(g) + if Dropped(g, Emit(e, h)) then multiset{} else multiset{Entry(e, h)}
  {
    if h.None? || h.value <= g.committed {
      OutAppend(g.out, Release(e, h, g.committed));
    } else if !IsPending(g.pending, h.value, Identity(e)) {
      HeldAppend(g.pending, Held(h.value, Identity(e), e));
      assert OnEmit(g, e, h).out == g.out;
    }
  }

  lemma CommitConserves(g: Gate, h: Option<int>)
    ensures Entries(OnCommit(g, h)) == Entries(g)
  {
    if h.Some? && h.value > g.committed {
      var due := Due(g.pending, h.value);
      FlushConserves(g.pending, h.value);
      ReleasedEntries(due, h.value);
      OutConcat(g.out, Releases(due, h.value));
    }
  }

  /** Conservation over any run: what was accepted is pending or published, counted with repeats. */
  lemma {:induction false} RunConserves(ops: seq<Op>)
    ensures Entries(Run(Closed, ops)) == Accepted(Closed, ops)
  {
    if ops != [] {
      RunConserves(ops[..|ops| - 1]);
      match ops[|ops| - 1]
      case Emit(e, h) => EmitConserves(Run(Closed, ops[..|ops| - 1]), e, h);
      case Commit(h) => CommitConserves(Run(Closed, ops[..|ops| - 1]), h);
    }
  }

  // ---- Blocks in order ----

  /** Every emission carries a height, and heights never go down: blocks are processed in order. */
  ghost predicate BlocksInOrder(ops: seq<Op>) {
    && (forall i :: 0 <= i < |ops| && ops[i].Emit? ==> ops[i].height.Some?)
    && forall i, j :: 0 <= i < j < |ops| && ops[i].Emit? && ops[j].Emit? && ops[i].height.Some? && ops[j].height.Some? ==>
                        ops[i].height.value <= ops[j].height.value
  }

  function HeldEvents(p: seq<Held>): seq<AppEvent> { seq(|p|, i requires 0 <= i < |p| => p[i].event) }

  function OutEvents(out: seq<Release>): seq<AppEvent> { seq(|out|, i requires 0 <= i < |out| => out[i].event) }

  /** The events not dropped as repeats, in the order in which they were emitted. */
  function AcceptedEvents(ops: seq<Op>): seq<AppEvent> {
    if ops == [] then [] else
    var init, last := ops[..|ops| - 1], ops[|ops| - 1];
    AcceptedEvents(init) + if last.Emit? && !Dropped(Run(Closed, init), last) then [last.event] else []
  }

  ghost predicate SortedBelow(p: seq<Held>, top: Option<int>) {
    && (forall j, k :: 0 <= j < k < |p| ==> p[j].height <= p[k].height)
    && (if top.None? then p == [] else forall k :: 0 <= k < |p| ==> p[k].height <= top.value)
  }

  function TopHeight(ops: seq<Op>): Option<int> {
    if ops == [] then None
    else if ops[|ops| - 1].Emit? then ops[|ops| - 1].height else TopHeight(ops[..|ops| - 1])
  }

  lemma {:induction false} TopIsLast(ops: seq<Op>, op: Op)
    requires BlocksInOrder(ops + [op]) && op.Emit?
    ensures BlocksInOrder(ops) && op.height.Some?
    ensures TopHeight(ops).Some? ==> TopHeight(ops).value <= op.height.value
  {
    var all := ops + [op];
    assert forall i :: 0 <= i < |ops| ==> all[i] == ops[i];
    assert all[|ops|] == op;
    TopOccurs(ops);
  }

  lemma {:induction false} TopOccurs(ops: seq<Op>)
    ensures TopHeight(ops).Some? ==> exists i :: 0 <= i < |ops| && ops[i].Emit? && ops[i].height == TopHeight(ops)
  {
    if ops != [] && !ops[|ops| - 1].Emit? {
      TopOccurs(ops[..|ops| - 1]);
    }
  }

  lemma {:induction false} SortedSplits(p: seq<Held>, c: int)
    requires forall j, k :: 0 <= j < k < |p| ==> p[j].height <= p[k].height
    ensures Due(p, c) + Kept(p, c) == p
  {
    if p != [] && p[0].height <= c {
      SortedSplits(p[1..], c);
      assert Due(p, c) == [p[0]] + Due(p[1..], c) && Kept(p, c) == [] + Kept(p[1..], c);
      Associates([p[0]], Due(p[1..], c), Kept(p[1..], c));
    } else {
      NoneDue(p, c);
    }
  }

  lemma {:induction false} NoneDue(p: seq<Held>, c: int)
    requires forall k :: 0 <= k < |p| ==> p[k].height > c
    ensures Due(p, c) == [] && Kept(p, c) == p
  {
    if p != [] {
      NoneDue(p[1..], c);
      assert p == [p[0]] + p[1..];
    }
  }

  lemma SuffixSorted(p: seq<Held>, q: seq<Held>, top: Option<int>)
    requires SortedBelow(p + q, top)
    ensures SortedBelow(q, top)
  {
    assert forall k :: 0 <= k < |q| ==> (p + q)[|p| + k] == q[k];
  }

  lemma HeldEventsConcat(p: seq<Held>, q: seq<Held>)
    ensures HeldEvents(p + q) == HeldEvents(p) + HeldEvents(q)
  {}

  lemma OutEventsConcat(p: seq<Release>, q: seq<Release>)
    ensures OutEvents(p + q) == OutEvents(p) + OutEvents(q)
  {}

  lemma ReleasedEvents(p: seq<Held>, c: int)
    ensures OutEvents(Releases(p, c)) == HeldEvents(p)
  {}

  lemma CommitInOrder(g: Gate, h: Option<int>, top: Option<int>)
    requires SortedBelow(g.pending, top)
    ensures
      var g' := OnCommit(g, h);
      SortedBelow(g'.pending, top) && OutEvents(g'.out) + HeldEvents(g'.pending) == OutEvents(g.out) + HeldEvents(g.pending)
  {
    if h.Some? && h.value > g.committed {
      var due, kept := Due(g.pending, h.value), Kept(g.pending, h.value);
      SortedSplits(g.pending, h.value);
      SuffixSorted(due, kept, top);
      HeldEventsConcat(due, kept);
      ReleasedEvents(due, h.value);
      OutEventsConcat(g.out, Releases(due, h.value));
      Associates(OutEvents(g.out), HeldEvents(due), HeldEvents(kept));
    }
  }

  lemma TopIsHigher(p: seq<Held>, c: int, top: Option<int>)
    requires p != [] && HeldAbove(p, c) && SortedBelow(p, top)
    ensures top.Some? && top.value > c
  {
    assert p[0].height > c;
  }

  lemma EmitInOrder(g: Gate, e: AppEvent, h: int, top: Option<int>)
    requires SortedBelow(g.pending, top) && Inv(g) && (top.Some? ==> top.value <= h)
    ensures
      var g' := OnEmit(g, e, Some(h));
      && SortedBelow(g'.pending, Some(h))
      && OutEvents(g'.out) + HeldEvents(g'.pending)
         == OutEvents(g.out) + HeldEvents(g.pending) + if Dropped(g, Emit(e, Some(h))) then [] else [e]
  {
    if h <= g.committed {
      if g.pending != [] { TopIsHigher(g.pending, g.committed, top); }
      OutEventsConcat(g.out, [Release(e, Some(h), g.committed)]);
    } else if !IsPending(g.pending, h, Identity(e)) {
      HeldEventsConcat(g.pending, [Held(h, Identity(e), e)]);
    }
  }

  /** While blocks are processed in order, the bus sees exactly the accepted events in the order of their emission,
      up to those still held: the gate delays and never reorders, whatever commits are reported and when. */
  lemma {:induction false} DeliveredInOrder(ops: seq<Op>)
    requires BlocksInOrder(ops)
    ensures
      var g := Run(Closed, ops);
      OutEvents(g.out) + HeldEvents(g.pending) == AcceptedEvents(ops) && SortedBelow(g.pending, TopHeight(ops))
  {
    if ops != [] {
      var init, last := ops[..|ops| - 1], ops[|ops| - 1];
      assert ops == init + [last];
      assert BlocksInOrder(init) by { assert forall i :: 0 <= i < |init| ==> init[i] == ops[i]; }
      DeliveredInOrder(init);
      RunKeepsInv(Closed, init);
      match last
      case Emit(e, h) =>
        TopIsLast(init, last);
        EmitInOrder(Run(Closed, init), e, h.value, TopHeight(init));
      case Commit(h) => CommitInOrder(Run(Closed, init), h, TopHeight(init));
    }
  }

  // ---- Retries ----

  function EmitAll(g: Gate, es: seq<AppEvent>, h: int): Gate {
    if es == [] then g else OnEmit(EmitAll(g, es[..|es| - 1], h), es[|es| - 1], Some(h))
  }

  /** The two attempts name the same offers for the same reasons, though their row ids may differ. */
  predicate SameIdentities(es: seq<AppEvent>, again: seq<AppEvent>) {
    |es| == |again| && forall k :: 0 <= k < |es| ==> Identity(es[k]) == Identity(again[k])
  }

  lemma PendingAfter(g: Gate, e: AppEvent, h: int, key: string)
    requires h > g.committed
    ensures IsPending(OnEmit(g, e, Some(h)).pending, h, key) <==> IsPending(g.pending, h, key) || Identity(e) == key
    ensures g.pending <= OnEmit(g, e, Some(h)).pending
  {
    var p, q := g.pending, OnEmit(g, e, Some(h)).pending;
    assert forall k :: 0 <= k < |p| ==> q[k] == p[k];
    if |q| > |p| { assert q[|p|].key == Identity(e); }
  }

  lemma EmitSnoc(g: Gate, es: seq<AppEvent>, h: int, key: string)
    requires h > g.committed && es != []
    ensures
      var n := |es| - 1;
      IsPending(EmitAll(g, es, h).pending, h, key) <==> IsPending(EmitAll(g, es[..n], h).pending, h, key) || Identity(es[n]) == key
  {
    var n := |es| - 1;
    EmitAllHolds(g, es[..n], h);
    PendingAfter(EmitAll(g, es[..n], h), es[n], h, key);
  }

  lemma {:induction false} EmitAllHolds(g: Gate, es: seq<AppEvent>, h: int)
    requires h > g.committed
    ensures EmitAll(g, es, h).committed == g.committed && EmitAll(g, es, h).out == g.out
  {
    if es != [] { EmitAllHolds(g, es[..|es| - 1], h); }
  }

  /** After a block's emissions a key is held exactly when it was before or one of the events has it. */
  lemma {:induction false} PendingIffEmitted(g: Gate, es: seq<AppEvent>, h: int, key: string)
    requires h > g.committed
    ensures IsPending(EmitAll(g, es, h).pending, h, key)
            <==> IsPending(g.pending, h, key) || exists j :: 0 <= j < |es| && Identity(es[j]) == key
  {
    if es != [] {
      var n := |es| - 1;
      PendingIffEmitted(g, es[..n], h, key);
      EmitSnoc(g, es, h, key);
      if j :| 0 <= j < |es| && Identity(es[j]) == key { assert j == n || Identity(es[..n][j]) == key; }
      if j :| 0 <= j < n && Identity(es[..n][j]) == key { assert Identity(es[j]) == key; }
    }
  }

  lemma EmittedIsPending(g: Gate, es: seq<AppEvent>, h: int)
    requires h > g.committed
    ensures EmitAll(g, es, h).committed == g.committed && EmitAll(g, es, h).out == g.out
    ensures forall k :: 0 <= k < |es| ==> IsPending(EmitAll(g, es, h).pending, h, Identity(es[k]))
  {
    EmitAllHolds(g, es, h);
    forall k | 0 <= k < |es| ensures IsPending(EmitAll(g, es, h).pending, h, Identity(es[k])) {
      PendingIffEmitted(g, es, h, Identity(es[k]));
    }
  }

  /** Reprocessing a rolled-back block leaves the gate as the first attempt left it. */
  lemma {:induction false} RetryIsIdempotent(g: Gate, es: seq<AppEvent>, again: seq<AppEvent>, h: int)
    requires h > g.committed && SameIdentities(es, again)
    ensures EmitAll(EmitAll(g, es, h), again, h) == EmitAll(g, es, h)
  {
    EmittedIsPending(g, es, h);
    forall k | 0 <= k < |again| ensures IsPending(EmitAll(g, es, h).pending, h, Identity(again[k])) {
      assert Identity(es[k]) == Identity(again[k]);
    }
    RepeatsAreDropped(EmitAll(g, es, h), again, h);
  }

  lemma {:induction false} RepeatsAreDropped(g: Gate, again: seq<AppEvent>, h: int)
    requires h > g.committed && forall k :: 0 <= k < |again| ==> IsPending(g.pending, h, Identity(again[k]))
    ensures EmitAll(g, again, h) == g
  {
    if again != [] { RepeatsAreDropped(g, again[..|again| - 1], h); }
  }

  // ---- What the gate loses ----

  predicate DistinctIdentities(es: seq<AppEvent>) {
    forall j, k :: 0 <= j < k < |es| ==> TypeOf(es[j]) != TypeOf(es[k]) || Subject(es[j]) != Subject(es[k])
  }

  /** A block's events all survive the gate exactly when no two agree in type and subject. */
  lemma {:induction false} KeepsAllExactlyWhen(g: Gate, es: seq<AppEvent>, h: int)
    requires h > g.committed && forall k :: 0 <= k < |g.pending| ==> g.pending[k].height != h
    ensures |EmitAll(g, es, h).pending| <= |g.pending| + |es|
    ensures |EmitAll(g, es, h).pending| == |g.pending| + |es| <==> DistinctIdentities(es)
  {
    if es != [] {
      var n := |es| - 1;
      KeepsAllExactlyWhen(g, es[..n], h);
      EmittedIsPending(g, es[..n], h);
      PendingIffEmitted(g, es[..n], h, Identity(es[n]));
      DistinctSnoc(es);
    }
  }

  lemma DistinctSnoc(es: seq<AppEvent>)
    requires es != []
    ensures
      var n := |es| - 1;
      DistinctIdentities(es) <==>
      DistinctIdentities(es[..n]) && !exists j :: 0 <= j < |es[..n]| && Identity(es[..n][j]) == Identity(es[n])
  {
    var n := |es| - 1;
    forall j | 0 <= j < n ensures Identity(es[j]) == Identity(es[n]) <==> TypeOf(es[j]) == TypeOf(es[n]) && Subject(es[j]) == Subject(es[n]) {
      IdentityExact(es[j], es[n]);
    }
    assert forall j :: 0 <= j < n ==> es[..n][j] == es[j];
  }

  /** Of two events of one block both survive exactly when they differ in type or subject. */
  lemma BothSurvive(x: AppEvent, y: AppEvent, h: nat)
    ensures |EmitAll(Closed, [x, y], h).pending| == 2 <==> TypeOf(x) != TypeOf(y) || Subject(x) != Subject(y)
  {
    KeepsAllExactlyWhen(Closed, [x, y], h);
    var es := [x, y];
    assert DistinctIdentities(es) <==> TypeOf(es[0]) != TypeOf(es[1]) || Subject(es[0]) != Subject(es[1]);
  }

  /** What tells the events of one block apart: refusals and closings their offer's hash, mints the colour, events about
      offers without a hash the row id, and an announcement is never taken for a closing. */
  lemma DifferentEventsSurvive(h: nat, a: string, b: string, m: nat, n: nat, cause: Cause, code: string, other: string)
    requires a != "" && b != "" && a != b && m != n
    ensures |EmitAll(Closed, [OfferRejected(code, Some(a), None, h), OfferRejected(other, Some(b), None, h)], h).pending| == 2
    ensures |EmitAll(Closed, [OfferRejected(code, Some(a), None, h), OfferRejected(other, None, None, h)], h).pending| == 2
    ensures |EmitAll(Closed, [TokenMinted(code, a), TokenMinted(other, b)], h).pending| == 2
    ensures |EmitAll(Closed, [OfferConsumed(m, Some(a), cause), OfferConsumed(m, Some(b), cause)], h).pending| == 2
    ensures |EmitAll(Closed, [OfferConsumed(m, None, cause), OfferConsumed(n, None, cause)], h).pending| == 2
    ensures |EmitAll(Closed, [OfferExpired(m, Some(a)), OfferExpired(m, Some(b))], h).pending| == 2
    ensures |EmitAll(Closed, [OfferExpired(m, None), OfferExpired(n, None)], h).pending| == 2
    ensures |EmitAll(Closed, [OfferIndexed(m, a, h, [], []), OfferIndexed(n, b, h, [], [])], h).pending| == 2
    ensures |EmitAll(Closed, [OfferIndexed(m, a, h, [], []), OfferConsumed(m, Some(a), cause)], h).pending| == 2
    ensures |EmitAll(Closed, [OfferIndexed(m, a, h, [], []), OfferExpired(m, Some(a))], h).pending| == 2
    ensures |EmitAll(Closed, [OfferIndexed(m, a, h, [], []), OfferRejected(code, Some(a), None, h)], h).pending| == 2
  {
    DecInjective(m, n);
    BothSurvive(OfferRejected(code, Some(a), None, h), OfferRejected(other, Some(b), None, h), h);
    BothSurvive(OfferRejected(code, Some(a), None, h), OfferRejected(other, None, None, h), h);
    BothSurvive(TokenMinted(code, a), TokenMinted(other, b), h);
    BothSurvive(OfferConsumed(m, Some(a), cause), OfferConsumed(m, Some(b), cause), h);
    BothSurvive(OfferConsumed(m, None, cause), OfferConsumed(n, None, cause), h);
    BothSurvive(OfferExpired(m, Some(a)), OfferExpired(m, Some(b)), h);
    BothSurvive(OfferExpired(m, None), OfferExpired(n, None), h);
    BothSurvive(OfferIndexed(m, a, h, [], []), OfferIndexed(n, b, h, [], []), h);
    assert |"offer_indexed"| == 13 && |"offer_consumed"| == 14 && |"offer_rejected"| == 14 && "offer_indexed"[6] != "offer_expired"[6];
    BothSurvive(OfferIndexed(m, a, h, [], []), OfferConsumed(m, Some(a), cause), h);
    BothSurvive(OfferIndexed(m, a, h, [], []), OfferExpired(m, Some(a)), h);
    BothSurvive(OfferIndexed(m, a, h, [], []), OfferRejected(code, Some(a), None, h), h);
  }

  /** A retry hands an offer another row id, and is the same event all the same. */
  lemma RetriedOfferIsSame(h: nat, a: string, m: nat, n: nat, cause: Cause)
    requires a != ""
    ensures |EmitAll(Closed, [OfferIndexed(m, a, h, [], []), OfferIndexed(n, a, h, [], [])], h).pending| < 2
    ensures |EmitAll(Closed, [OfferConsumed(m, Some(a), cause), OfferConsumed(n, Some(a), cause)], h).pending| < 2
    ensures |EmitAll(Closed, [OfferExpired(m, Some(a)), OfferExpired(n, Some(a))], h).pending| < 2
  {
    KeepsAllExactlyWhen(Closed, [OfferIndexed(m, a, h, [], []), OfferIndexed(n, a, h, [], [])], h);
    KeepsAllExactlyWhen(Closed, [OfferConsumed(m, Some(a), cause), OfferConsumed(n, Some(a), cause)], h);
    KeepsAllExactlyWhen(Closed, [OfferExpired(m, Some(a)), OfferExpired(n, Some(a))], h);
    BothSurvive(OfferIndexed(m, a, h, [], []), OfferIndexed(n, a, h, [], []), h);
    BothSurvive(OfferConsumed(m, Some(a), cause), OfferConsumed(n, Some(a), cause), h);
    BothSurvive(OfferExpired(m, Some(a)), OfferExpired(n, Some(a)), h);
  }

  /** Rejections carry no row id, so two of them without a hash in one block are told apart by nothing: the
      second is lost, whatever the two codes are. */
  lemma HashlessRejectionsCollapse(code: string, other: string)
    ensures |EmitAll(Closed, [OfferRejected(code, None, None, 7), OfferRejected(other, None, None, 7)], 7).pending| == 1
  {
    var es := [OfferRejected(code, None, None, 7), OfferRejected(other, None, None, 7)];
    KeepsAllExactlyWhen(Closed, es, 7);
    assert TypeOf(es[0]) == TypeOf(es[1]) && Subject(es[0]) == Subject(es[1]);
    EmittedIsPending(Closed, es, 7);
    assert IsPending(EmitAll(Closed, es, 7).pending, 7, Identity(es[0]));
  }

  lemma ReleasesSnoc(p: seq<Held>, k: nat, c: int)
    requires k < |p|
    ensures Releases(p[..k + 1], c) == Releases(p[..k], c) + [Release(p[k].event, Some(p[k].height), c)]
  {}

  // ---- The module's state, updated in place ----

  class Bus {
    var pending: seq<Held>
    var committedHeight: int
    var delivered: seq<AppEvent>
    ghost var out: seq<Release>

    ghost function View(): Gate
      reads this
    {
      Gate(pending, committedHeight, out)
    }

    ghost predicate Valid()
      reads this
    {
      Inv(View()) && Faithful()
    }

    /** Listeners saw the released events, in release order. */
    ghost predicate Faithful()
      reads this
    {
      |delivered| == |out| && forall k :: 0 <= k < |out| ==> delivered[k] == out[k].event
    }

    constructor ()
      ensures Valid() && View() == Closed && delivered == []
    {
      pending, committedHeight, delivered, out := [], -1, [], [];
    }

    method EmitAppEvent(event: AppEvent, atHeight: Option<int>)
      requires Valid()
      modifies this
      ensures Valid() && View() == OnEmit(old(View()), event, atHeight)
    {
      StepKeepsInv(View(), Emit(event, atHeight));
      if atHeight.None? {
        Deliver(event, atHeight);
        return;
      }
      var h := atHeight.value;
      if h <= committedHeight {
        Deliver(event, atHeight);
        return;
      }
      var key := Identity(event);
      if IsPending(pending, h, key) {
        return;
      }
      pending := pending + [Held(h, key, event)];
    }

    method Deliver(event: AppEvent, ghost height: Option<int>)
      requires Faithful()
      modifies this`delivered, this`out
      ensures Faithful() && out == old(out) + [Release(event, height, committedHeight)]
    {
      delivered := delivered + [event];
      out := out + [Release(event, height, committedHeight)];
    }

    method MarkBlockCommitted(height: Option<int>)
      requires Valid()
      modifies this
      ensures Valid() && View() == OnCommit(old(View()), height)
    {
      StepKeepsInv(View(), Commit(height));
      if height.None? || height.value <= committedHeight {
        return;
      }
      committedHeight := height.value;
      Flush();
    }

    method Flush()
      requires Faithful()
      modifies this`pending, this`delivered, this`out
      ensures Faithful()
      ensures pending == Kept(old(pending), committedHeight)
      ensures out == old(out) + Releases(Due(old(pending), committedHeight), committedHeight)
    {
      var ready := Drain();
      ReleaseAll(ready);
    }

    method ReleaseAll(ready: seq<Held>)
      requires Faithful()
      modifies this`delivered, this`out
      ensures Faithful() && out == old(out) + Releases(ready, committedHeight)
    {
      for k := 0 to |ready|
        invariant Faithful() && out == old(out) + Releases(ready[..k], committedHeight)
      {
        ReleasesSnoc(ready, k, committedHeight);
        Associates(old(out), Releases(ready[..k], committedHeight), [Release(ready[k].event, Some(ready[k].height), committedHeight)]);
        Deliver(ready[k].event, Some(ready[k].height));
      }
      assert ready[..|ready|] == ready;
    }

    /** Scan the buffer from its end, splicing out what is due and putting it in front of what was found so far. */
    method Drain() returns (ready: seq<Held>)
      modifies this`pending
      ensures pending == Kept(old(pending), committedHeight)
      ensures ready == Due(old(pending), committedHeight)
    {
      ready := [];
      var i := |pending|;
      ghost var p, c := pending, committedHeight;
      while i > 0
        invariant 0 <= i <= |p|
        invariant pending == p[..i] + Kept(p[i..], c)
        invariant ready == Due(p[i..], c)
      {
        i := i - 1;
        assert p[i..][1..] == p[i + 1..] && p[i..][0] == p[i];
        assert pending[i] == p[i] && pending[..i] == p[..i] && pending[i + 1..] == Kept(p[i + 1..], c);
        if pending[i].height <= committedHeight {
          ready := [pending[i]] + ready;
          pending := pending[..i] + pending[i + 1..];
        }
      }
      assert p[0..] == p;
    }
  }
}
