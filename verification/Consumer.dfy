/** What a subscriber can build from the updates it receives: started from a snapshot of the offer book, it stays the
    offer book, whatever order the rows of one archive statement are published in. */
module Consumer {
  import opened Prelude
  import opened AppEvents
  import opened OfferBook
  import opened OfferBookInvariants
  import opened OfferBookMachine
  import US = UpdateStream

  /** One event applied to the mirror; None when it announces a known offer or closes one that is not open. */
  function FollowEvent(m: Mirror, e: AppEvent): Option<Mirror> {
    match e
    case OfferIndexed(id, hash, _, _, _) =>
      if id in m.open || id in m.closed then None else Some(m.(open := m.open[id := hash]))
    case OfferConsumed(id, hash, _) => CloseOne(m, id, hash, CONSUMED)
    case OfferExpired(id, hash) => CloseOne(m, id, hash, TTL)
    case TokenMinted(_, _) => Some(m)
    case OfferRejected(_, _, _, _) => Some(m)
  }

  function CloseOne(m: Mirror, id: Id, hash: Option<string>, reason: Reason): Option<Mirror> {
    if id in m.open && hash == Some(m.open[id]) then
      Some(Mirror(m.open - {id}, m.closed[id := Closing(m.open[id], reason)]))
    else None
  }

  function FoldEvents(m: Mirror, es: seq<AppEvent>): Option<Mirror> {
    if es == [] then Some(m) else
    match FoldEvents(m, es[..|es| - 1])
    case None => None
    case Some(x) => FollowEvent(x, es[|es| - 1])
  }

  lemma {:induction false} FoldConcat(m: Mirror, a: seq<AppEvent>, b: seq<AppEvent>)
    ensures FoldEvents(m, a + b) == match FoldEvents(m, a) case None => None case Some(x) => FoldEvents(x, b)
  {
    if b == [] {
      assert a + b == a;
    } else {
      var n := |b| - 1;
      assert (a + b)[..|a + b| - 1] == a + b[..n];
      FoldConcat(m, a, b[..n]);
    }
  }

  // ---- A group of rows closes in any order ----

  function ClosingsOf(rows: map<Id, string>, ids: set<Id>, reason: Reason): map<Id, Closing> {
    map id | id in ids && id in rows :: Closing(rows[id], reason)
  }

  function Without(m: Mirror, rows: map<Id, string>, ids: set<Id>, reason: Reason): Mirror {
    Mirror(m.open - ids, m.closed + ClosingsOf(rows, ids, reason))
  }

  lemma CloseNext(m: Mirror, rows: map<Id, string>, ids: set<Id>, id: Id)
    requires ids <= rows.Keys && id in ids && id in m.open && m.open[id] == rows[id]
    ensures CloseOne(Without(m, rows, ids - {id}, CONSUMED), id, Some(rows[id]), CONSUMED) == Some(Without(m, rows, ids, CONSUMED))
  {
    assert m.open - (ids - {id}) - {id} == m.open - ids;
    var closing := Closing(rows[id], CONSUMED);
    assert (m.closed + ClosingsOf(rows, ids - {id}, CONSUMED))[id := closing] == m.closed + ClosingsOf(rows, ids, CONSUMED);
  }

  lemma OneClosing(m: Mirror, id: Id, hash: string)
    requires id in m.open && m.open[id] == hash
    ensures Close(m, map[id := hash], TTL) == CloseOne(m, id, Some(hash), TTL)
  {
    assert m.open - map[id := hash].Keys == m.open - {id};
    assert m.closed + Closings(map[id := hash], TTL) == m.closed[id := Closing(hash, TTL)];
  }

  lemma ListsOneLess(rows: map<Id, string>, ids: set<Id>, cause: Cause, es: seq<AppEvent>)
    requires ListsSome(rows, ids, cause, es) && es != []
    ensures
      var last := es[|es| - 1];
      && last.OfferConsumed? && last.offerId in ids && last == OfferConsumed(last.offerId, Some(rows[last.offerId]), cause)
      && ListsSome(rows, ids - {last.offerId}, cause, es[..|es| - 1])
  {
    var n := |es| - 1;
    forall id | id in ids - {es[n].offerId} ensures OfferConsumed(id, Some(rows[id]), cause) in es[..n] {
      var k :| 0 <= k < |es| && es[k] == OfferConsumed(id, Some(rows[id]), cause);
      assert es[..n][k] == es[k];
    }
    forall k | 0 <= k < n ensures es[k].offerId != es[n].offerId { assert es[k] != es[n]; }
  }

  lemma {:induction false} FoldGroup(m: Mirror, rows: map<Id, string>, ids: set<Id>, cause: Cause, es: seq<AppEvent>)
    requires ListsSome(rows, ids, cause, es)
    requires forall id :: id in rows ==> id in m.open && m.open[id] == rows[id]
    ensures FoldEvents(m, es) == Some(Without(m, rows, ids, CONSUMED))
    decreases |es|
  {
    if es == [] {
      assert ids == {};
      assert Without(m, rows, {}, CONSUMED) == m;
    } else {
      var n := |es| - 1;
      var id := es[n].offerId;
      ListsOneLess(rows, ids, cause, es);
      FoldGroup(m, rows, ids - {id}, cause, es[..n]);
      CloseNext(m, rows, ids, id);
    }
  }

  lemma FoldFollows(m: Mirror, e: Emission, group: seq<AppEvent>)
    requires Lists(e, group) && Follow(m, e).Some?
    ensures FoldEvents(m, group) == Follow(m, e)
  {
    match e
    case Consumed(rows, cause) =>
      FoldGroup(m, rows, rows.Keys, cause, group);
      assert ClosingsOf(rows, rows.Keys, CONSUMED) == Closings(rows, CONSUMED);
    case Indexed(_, _, _, _, _) =>
    case Expired(id, hash) =>
      OneClosing(m, id, hash);
    case Rejected(_, _, _, _) =>
  }

  const Nothing := Mirror(map[], map[])

  lemma {:induction false} FoldReplays(log: seq<Emission>, es: seq<AppEvent>, m: Mirror)
    requires Enumerates(log, es) && Replay(log) == Some(m)
    ensures FoldEvents(Nothing, es) == Some(m)
    decreases |log|
  {
    if log != [] {
      var init, e := log[..|log| - 1], log[|log| - 1];
      var before, group := EnumeratesSplit(log, es);
      FoldReplays(init, before, Replay(init).value);
      FoldFollows(Replay(init).value, e, group);
      FoldConcat(Nothing, before, group);
    }
  }

  /** Folding everything the machine published gives exactly its book: the live offers and their hashes, and the closed
      ones with the reason. */
  lemma PublishedEventsAreTheBook(s: Book, es: seq<AppEvent>)
    requires Inv(s) && Enumerates(s.log, es)
    ensures FoldEvents(Nothing, es) == Some(MirrorOf(s.live, s.history))
  {
    FoldReplays(s.log, es, MirrorOf(s.live, s.history));
  }

  // ---- A snapshot that overlaps the updates ----

  /** The mirror already accounts for the event. */
  predicate Reflects(m: Mirror, e: AppEvent) {
    match e
    case OfferIndexed(id, _, _, _, _) => id in m.open || id in m.closed
    case OfferConsumed(id, _, _) => id in m.closed
    case OfferExpired(id, _) => id in m.closed
    case TokenMinted(_, _) => true
    case OfferRejected(_, _, _, _) => true
  }

  /** Apply an event unless the mirror already accounts for it. */
  function Absorb(m: Mirror, e: AppEvent): Option<Mirror> {
    if Reflects(m, e) then Some(m) else FollowEvent(m, e)
  }

  function AbsorbAll(m: Mirror, es: seq<AppEvent>): Option<Mirror> {
    if es == [] then Some(m) else
    match AbsorbAll(m, es[..|es| - 1])
    case None => None
    case Some(x) => Absorb(x, es[|es| - 1])
  }

  lemma AbsorbSnoc(m: Mirror, es: seq<AppEvent>, e: AppEvent)
    ensures AbsorbAll(m, es + [e]) == match AbsorbAll(m, es) case None => None case Some(x) => Absorb(x, e)
  {
    assert (es + [e])[..|es|] == es;
  }

  lemma {:induction false} FoldReflects(m: Mirror, es: seq<AppEvent>, k: nat)
    requires k < |es| && FoldEvents(m, es).Some?
    ensures Reflects(FoldEvents(m, es).value, es[k])
  {
    if k < |es| - 1 { FoldReflects(m, es[..|es| - 1], k); }
  }

  lemma {:induction false} FoldApart(m: Mirror, es: seq<AppEvent>)
    requires m.open.Keys !! m.closed.Keys && FoldEvents(m, es).Some?
    ensures FoldEvents(m, es).value.open.Keys !! FoldEvents(m, es).value.closed.Keys
  {
    if es != [] { FoldApart(m, es[..|es| - 1]); }
  }

  lemma {:induction false} FoldPrefix(m: Mirror, es: seq<AppEvent>, k: nat)
    requires k <= |es| && FoldEvents(m, es).Some?
    ensures FoldEvents(m, es[..k]).Some?
  {
    if k < |es| {
      assert es[..|es| - 1][..k] == es[..k];
      FoldPrefix(m, es[..|es| - 1], k);
    } else {
      assert es[..k] == es;
    }
  }

  /** An event the mirror can follow is not one it already accounts for, unless it concerns no offer. */
  lemma AbsorbsNew(m: Mirror, e: AppEvent)
    requires m.open.Keys !! m.closed.Keys && FollowEvent(m, e).Some?
    ensures Absorb(m, e) == FollowEvent(m, e)
  {}

  /** The mirror of the first `k` events. */
  function MirrorAt(bus: seq<AppEvent>, k: nat): Option<Mirror>
    requires k <= |bus|
  {
    FoldEvents(Nothing, bus[..k])
  }

  lemma AbsorbsKnown(bus: seq<AppEvent>, k: nat, m: nat)
    requires k < m <= |bus| && MirrorAt(bus, m).Some?
    ensures Absorb(MirrorAt(bus, m).value, bus[k]) == MirrorAt(bus, m)
  {
    FoldReflects(Nothing, bus[..m], k);
  }

  lemma AbsorbsNext(bus: seq<AppEvent>, k: nat)
    requires k < |bus| && MirrorAt(bus, k + 1).Some?
    ensures MirrorAt(bus, k).Some? && Absorb(MirrorAt(bus, k).value, bus[k]) == MirrorAt(bus, k + 1)
  {
    assert bus[..k + 1][..k] == bus[..k];
    FoldApart(Nothing, bus[..k]);
    AbsorbsNew(MirrorAt(bus, k).value, bus[k]);
  }

  lemma AbsorbsOne(bus: seq<AppEvent>, k: nat, m: nat)
    requires m <= |bus| && k < |bus| && FoldEvents(Nothing, bus).Some?
    ensures MirrorAt(bus, Max(m, k)).Some?
    ensures Absorb(MirrorAt(bus, Max(m, k)).value, bus[k]) == MirrorAt(bus, Max(m, k + 1))
  {
    FoldPrefix(Nothing, bus, Max(m, k));
    FoldPrefix(Nothing, bus, Max(m, k + 1));
    if k < m { AbsorbsKnown(bus, k, m); } else { AbsorbsNext(bus, k); }
  }

  /** Absorb the `n` events from `from` on. */
  function AbsorbRange(x: Mirror, bus: seq<AppEvent>, from: nat, n: nat): Option<Mirror>
    requires from + n <= |bus|
  {
    if n == 0 then Some(x) else
    match AbsorbRange(x, bus, from, n - 1)
    case None => None
    case Some(y) => Absorb(y, bus[from + n - 1])
  }

  lemma {:induction false} RangeIsSlice(x: Mirror, bus: seq<AppEvent>, from: nat, n: nat)
    requires from + n <= |bus|
    ensures AbsorbAll(x, bus[from..from + n]) == AbsorbRange(x, bus, from, n)
  {
    if n == 0 {
      assert bus[from..from] == [];
    } else {
      var k := from + n - 1;
      assert bus[from..from + n] == bus[from..k] + [bus[k]];
      AbsorbSnoc(x, bus[from..k], bus[k]);
      RangeIsSlice(x, bus, from, n - 1);
    }
  }

  /** A mirror of the first `m` events, given the next `n` events from `from` on, of which it may know some already, is a
      mirror of the first `m` or the first `from + n` events, whichever is more. */
  lemma {:induction false} AbsorbOverlap(bus: seq<AppEvent>, from: nat, m: nat, n: nat)
    requires from <= m <= |bus| && from + n <= |bus| && FoldEvents(Nothing, bus).Some?
    ensures MirrorAt(bus, m).Some?
    ensures AbsorbRange(MirrorAt(bus, m).value, bus, from, n) == MirrorAt(bus, Max(m, from + n))
  {
    FoldPrefix(Nothing, bus, m);
    if n > 0 {
      AbsorbOverlap(bus, from, m, n - 1);
      AbsorbsOne(bus, from + n - 1, m);
    }
  }

  // ---- Snapshot and subscription ----

  /** With a snapshot of the first `m` events, what was handed over since position `from` makes a mirror of all events
      seen either way. */
  ghost predicate UpToDate(bus: seq<AppEvent>, m: nat, from: nat, delivered: seq<AppEvent>)
    requires m <= |bus| && from + |delivered| <= |bus|
  {
    MirrorAt(bus, m).Some? && AbsorbAll(MirrorAt(bus, m).value, delivered) == MirrorAt(bus, Max(m, from + |delivered|))
  }

  /** What was handed over since position `from` makes any snapshot taken at or after that position current. */
  ghost predicate KeepsUp(bus: seq<AppEvent>, from: nat, delivered: seq<AppEvent>) {
    from + |delivered| <= |bus| && forall m: nat :: from <= m <= |bus| ==> UpToDate(bus, m, from, delivered)
  }

  lemma StretchKeepsUp(bus: seq<AppEvent>, from: nat, n: nat)
    requires from + n <= |bus| && FoldEvents(Nothing, bus).Some?
    ensures KeepsUp(bus, from, bus[from..from + n])
  {
    var delivered := bus[from..from + n];
    forall m: nat | from <= m <= |bus| ensures UpToDate(bus, m, from, delivered) {
      AbsorbOverlap(bus, from, m, n);
      RangeIsSlice(MirrorAt(bus, m).value, bus, from, n);
    }
  }

  /** Attached when the bus had published `from` events, a client keeps up from there. */
  ghost predicate KeepsUpSince(s: US.System, client: nat, k: nat, from: nat)
    requires client in s.clients
  {
    k in s.subs && s.subs[k].attached == Some(from) && KeepsUp(s.bus, from, s.clients[client].delivered)
  }

  /** A client of the update stream that reads the book at any moment after its subscription was attached, and absorbs
      what it is handed, has the book as of the last event it was handed or as of its reading: nothing is missing
      in between, and what it is told twice does no harm. */
  lemma SnapshotPlusUpdates(start: US.System, actions: seq<US.Action>, client: nat)
    requires start.subs == map[] && start.clients == map[] && US.RunEnabled(start, actions)
    requires client in US.Run(start, actions).clients && US.Run(start, actions).clients[client].subscribed
    requires FoldEvents(Nothing, US.Run(start, actions).bus).Some?
    ensures exists k: nat, from: nat :: KeepsUpSince(US.Run(start, actions), client, k, from)
  {
    US.ClientSeesItsStretch(start, actions, client);
    StretchMirrors(US.Run(start, actions), client);
  }

  lemma StretchMirrors(s: US.System, client: nat)
    requires client in s.clients && US.SeesStretch(s.clients[client], s) && FoldEvents(Nothing, s.bus).Some?
    ensures exists k: nat, from: nat :: KeepsUpSince(s, client, k, from)
  {
    var c := s.clients[client];
    var k: nat, from: nat :| k in s.subs && s.subs[k].attached == Some(from) && from + |c.delivered| <= |s.bus|
                             && c.delivered == s.bus[from..from + |c.delivered|];
    StretchKeepsUp(s.bus, from, |c.delivered|);
    assert KeepsUpSince(s, client, k, from);
  }
}
