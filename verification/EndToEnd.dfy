/** From the tables to a subscriber: what the machine publishes, the gate lets through and the stream hands over adds up
    to the offer book. */
module EndToEnd {
  import opened Prelude
  import opened AppEvents
  import opened OfferBook
  import opened OfferBookInvariants
  import Machine = OfferBookMachine
  import opened Consumer
  import Gate = EventGate
  import US = UpdateStream

  // ---- Events about the life of an offer ----

  predicate Lifecycle(e: AppEvent) { e.OfferIndexed? || e.OfferConsumed? || e.OfferExpired? }

  function HashOf(e: AppEvent): Option<string>
    requires Lifecycle(e)
  {
    match e
    case OfferIndexed(_, hash, _, _, _) => Some(hash)
    case OfferConsumed(_, hash, _) => hash
    case OfferExpired(_, hash) => hash
  }

  function Lives(es: seq<AppEvent>): seq<AppEvent> {
    if es == [] then [] else
    Lives(es[..|es| - 1]) + if Lifecycle(es[|es| - 1]) then [es[|es| - 1]] else []
  }

  lemma {:induction false} LivesConcat(a: seq<AppEvent>, b: seq<AppEvent>)
    ensures Lives(a + b) == Lives(a) + Lives(b)
  {
    if b == [] {
      assert a + b == a;
    } else {
      var n := |b| - 1;
      assert (a + b)[..|a + b| - 1] == a + b[..n];
      LivesConcat(a, b[..n]);
    }
  }

  /** The other events leave the mirror as it is. */
  lemma {:induction false} FoldLives(m: Mirror, es: seq<AppEvent>)
    ensures FoldEvents(m, Lives(es)) == FoldEvents(m, es)
  {
    if es != [] {
      var init, last := es[..|es| - 1], es[|es| - 1];
      FoldLives(m, init);
      if Lifecycle(last) {
        assert Lives(es)[..|Lives(es)| - 1] == Lives(init);
      } else {
        assert Lives(es) == Lives(init);
      }
    }
  }

  /** What is filtered first is the filter of what comes first. */
  lemma {:induction false} LivesPrefix(es: seq<AppEvent>, p: seq<AppEvent>) returns (n: nat)
    requires p <= Lives(es)
    ensures n <= |es| && Lives(es[..n]) == p
  {
    if p == Lives(es) {
      n := |es|;
      assert es[..n] == es;
    } else {
      var init := es[..|es| - 1];
      assert p <= Lives(init);
      n := LivesPrefix(init, p);
      assert init[..n] == es[..n];
    }
  }

  // ---- No two of them look alike to the gate ----

  predicate Alike(x: AppEvent, y: AppEvent) {
    Gate.TypeOf(x) == Gate.TypeOf(y) && Gate.Subject(x) == Gate.Subject(y)
  }

  predicate LivesDistinct(es: seq<AppEvent>) {
    forall j, k :: 0 <= j < k < |es| && Lifecycle(es[j]) && Lifecycle(es[k]) ==> !Alike(es[j], es[k])
  }

  /** The hash the mirror has for an offer, open or closed. */
  predicate HasHash(m: Mirror, id: Id, hash: string) {
    (id in m.open && m.open[id] == hash) || (id in m.closed && m.closed[id].hash == hash)
  }

  lemma {:induction false} FoldHashes(m: Mirror, es: seq<AppEvent>, k: nat)
    requires m.open.Keys !! m.closed.Keys && k < |es| && Lifecycle(es[k]) && FoldEvents(m, es).Some?
    ensures HashOf(es[k]).Some? && HasHash(FoldEvents(m, es).value, es[k].offerId, HashOf(es[k]).value)
  {
    var init, last := es[..|es| - 1], es[|es| - 1];
    if k < |es| - 1 {
      FoldHashes(m, init, k);
      FoldApart(m, init);
      FollowKeepsHash(FoldEvents(m, init).value, last, es[k].offerId, HashOf(es[k]).value);
    }
  }

  lemma FollowKeepsHash(m: Mirror, e: AppEvent, id: Id, hash: string)
    requires m.open.Keys !! m.closed.Keys && HasHash(m, id, hash) && FollowEvent(m, e).Some?
    ensures HasHash(FollowEvent(m, e).value, id, hash)
  {}

  ghost predicate RealHashes(s: Book) {
    forall id :: id in Rows(s.live, s.history) ==> Rows(s.live, s.history)[id].hash != ""
  }

  lemma BookHash(s: Book, id: Id, hash: string)
    requires HasHash(MirrorOf(s.live, s.history), id, hash) && s.live.Keys !! s.history.Keys
    ensures id in Rows(s.live, s.history) && Rows(s.live, s.history)[id].hash == hash
  {}

  /** In a book whose hashes are not empty, no two published events about the life of an offer agree in type and
      subject. */
  lemma BookLivesDistinct(s: Book, es: seq<AppEvent>)
    requires Inv(s) && Machine.Enumerates(s.log, es) && RealHashes(s)
    ensures LivesDistinct(es)
  {
    PublishedEventsAreTheBook(s, es);
    forall j, k | 0 <= j < k < |es| && Lifecycle(es[j]) && Lifecycle(es[k]) ensures !Alike(es[j], es[k]) {
      if Alike(es[j], es[k]) { AlikeIsSame(s, es, j, k); }
    }
  }

  lemma AlikeIsSame(s: Book, es: seq<AppEvent>, j: nat, k: nat)
    requires Inv(s) && Machine.Enumerates(s.log, es) && RealHashes(s)
    requires FoldEvents(Nothing, es) == Some(MirrorOf(s.live, s.history))
    requires j < |es| && k < |es| && Lifecycle(es[j]) && Lifecycle(es[k]) && Alike(es[j], es[k])
    ensures j == k
  {
    FoldHashes(Nothing, es, j);
    FoldHashes(Nothing, es, k);
    BookHash(s, es[j].offerId, HashOf(es[j]).value);
    BookHash(s, es[k].offerId, HashOf(es[k]).value);
    SubjectIsHash(es[j]);
    SubjectIsHash(es[k]);
    assert es[j].offerId == es[k].offerId;
    SameType(es[j], es[k]);
    Machine.EventsTellTheBook(s, es, es[j].offerId);
  }

  lemma SubjectIsHash(e: AppEvent)
    requires Lifecycle(e) && HashOf(e).Some? && HashOf(e).value != ""
    ensures Gate.Subject(e) == HashOf(e).value
  {}

  lemma SameType(x: AppEvent, y: AppEvent)
    requires Lifecycle(x) && Lifecycle(y) && Gate.TypeOf(x) == Gate.TypeOf(y)
    ensures x.OfferIndexed? <==> y.OfferIndexed?
  {
    assert |"offer_indexed"| != |"offer_consumed"| && "offer_indexed"[6] != "offer_expired"[6];
  }

  // ---- The gate loses none of them ----

  /** The events handed to the gate, in order. */
  function Emitted(ops: seq<Gate.Op>): seq<AppEvent> {
    if ops == [] then [] else
    Emitted(ops[..|ops| - 1]) + if ops[|ops| - 1].Emit? then [ops[|ops| - 1].event] else []
  }

  lemma {:induction false} EmissionsAreEmitted(ops: seq<Gate.Op>)
    requires Gate.BlocksInOrder(ops)
    ensures Gate.HeldEvents(Gate.Emissions(ops)) == Emitted(ops)
    ensures forall k :: 0 <= k < |Gate.Emissions(ops)| ==> Gate.Emissions(ops)[k].key == Gate.Identity(Gate.Emissions(ops)[k].event)
  {
    if ops != [] { EmissionsAreEmitted(ops[..|ops| - 1]); }
  }

  lemma InOrderPrefix(ops: seq<Gate.Op>)
    requires ops != [] && Gate.BlocksInOrder(ops)
    ensures Gate.BlocksInOrder(ops[..|ops| - 1])
  {
    assert forall i :: 0 <= i < |ops| - 1 ==> ops[..|ops| - 1][i] == ops[i];
  }

  /** A dropped event repeats one emitted before it. */
  lemma DroppedRepeats(ops: seq<Gate.Op>, op: Gate.Op) returns (k: nat)
    requires Gate.BlocksInOrder(ops) && Gate.Dropped(Gate.Run(Gate.Closed, ops), op)
    ensures k < |Emitted(ops)| && Alike(Emitted(ops)[k], op.event)
  {
    var p := Gate.Run(Gate.Closed, ops).pending;
    var f := Gate.PendingInOrder(ops);
    var i :| 0 <= i < |p| && p[i].height == op.height.value && p[i].key == Gate.Identity(op.event);
    EmissionsAreEmitted(ops);
    k := f[i];
    assert Gate.HeldEvents(Gate.Emissions(ops))[k] == Gate.Emissions(ops)[k].event;
    Gate.IdentityExact(Emitted(ops)[k], op.event);
  }

  lemma AlikeLifecycle(x: AppEvent, y: AppEvent)
    requires Alike(x, y) && Lifecycle(y)
    ensures Lifecycle(x)
  {
    assert |"token_minted"| == 12 && |"offer_consumed"| == 14 && |"offer_rejected"| == 14;
    assert |"offer_indexed"| == 13 && |"offer_expired"| == 13 && "offer_rejected"[6] != "offer_consumed"[6];
  }

  /** The gate drops no event about the life of an offer, whatever it drops besides. */
  lemma {:induction false} GateKeepsLives(ops: seq<Gate.Op>)
    requires Gate.BlocksInOrder(ops) && LivesDistinct(Emitted(ops))
    ensures Lives(Gate.AcceptedEvents(ops)) == Lives(Emitted(ops))
  {
    if ops != [] {
      var init, last := ops[..|ops| - 1], ops[|ops| - 1];
      InOrderPrefix(ops);
      assert Emitted(init) <= Emitted(ops);
      assert LivesDistinct(Emitted(init)) by {
        assert forall k :: 0 <= k < |Emitted(init)| ==> Emitted(init)[k] == Emitted(ops)[k];
      }
      GateKeepsLives(init);
      if last.Emit? {
        LivesConcat(Emitted(init), [last.event]);
        LivesOfOne(last.event);
        if Gate.Dropped(Gate.Run(Gate.Closed, init), last) {
          DroppedIsNoLife(init, last);
          assert Gate.AcceptedEvents(ops) == Gate.AcceptedEvents(init);
        } else {
          LivesConcat(Gate.AcceptedEvents(init), [last.event]);
        }
      } else {
        assert Gate.AcceptedEvents(ops) == Gate.AcceptedEvents(init) && Emitted(ops) == Emitted(init);
      }
    }
  }

  lemma LivesOfOne(e: AppEvent)
    ensures Lives([e]) == if Lifecycle(e) then [e] else []
  {
    assert [e][..0] == [];
  }

  lemma DroppedIsNoLife(ops: seq<Gate.Op>, op: Gate.Op)
    requires Gate.BlocksInOrder(ops) && op.Emit? && LivesDistinct(Emitted(ops) + [op.event])
    requires Gate.Dropped(Gate.Run(Gate.Closed, ops), op)
    ensures !Lifecycle(op.event)
  {
    var k := DroppedRepeats(ops, op);
    var all := Emitted(ops) + [op.event];
    assert all[k] == Emitted(ops)[k] && all[|all| - 1] == op.event;
    if Lifecycle(op.event) { AlikeLifecycle(all[k], op.event); }
  }

  // ---- The bus is the book, up to what is held back ----

  /** The machine's events went through the gate while blocks were processed in order. */
  ghost predicate Gated(s: Book, ops: seq<Gate.Op>) {
    Inv(s) && RealHashes(s) && Gate.BlocksInOrder(ops) && Machine.Enumerates(s.log, Emitted(ops))
  }

  function BusOf(ops: seq<Gate.Op>): seq<AppEvent> { Gate.OutEvents(Gate.Run(Gate.Closed, ops).out) }

  function HeldBack(ops: seq<Gate.Op>): seq<AppEvent> { Gate.HeldEvents(Gate.Run(Gate.Closed, ops).pending) }

  /** Whatever commits were reported: the events on the bus fold to the book as some first part of what was published
      left it, and those still held back lead from there to the book as it is. */
  lemma BusIsTheBook(s: Book, ops: seq<Gate.Op>)
    requires Gated(s, ops)
    ensures FoldEvents(Nothing, BusOf(ops) + HeldBack(ops)) == Some(MirrorOf(s.live, s.history))
    ensures FoldEvents(Nothing, BusOf(ops)).Some?
    ensures HeldBack(ops) == [] ==> FoldEvents(Nothing, BusOf(ops)) == Some(MirrorOf(s.live, s.history))
    ensures exists n :: 0 <= n <= |Emitted(ops)| && FoldEvents(Nothing, BusOf(ops)) == FoldEvents(Nothing, Emitted(ops)[..n])
  {
    var bus, held, es := BusOf(ops), HeldBack(ops), Emitted(ops);
    BookLivesDistinct(s, es);
    GateKeepsLives(ops);
    Gate.DeliveredInOrder(ops);
    PublishedEventsAreTheBook(s, es);
    FoldLives(Nothing, es);
    FoldLives(Nothing, bus + held);
    FoldPrefix(Nothing, bus + held, |bus|);
    assert (bus + held)[..|bus|] == bus;
    assert held == [] ==> bus + held == bus;
    LivesConcat(bus, held);
    var n := LivesPrefix(es, Lives(bus));
    FoldLives(Nothing, bus);
    FoldLives(Nothing, es[..n]);
  }

  /** From the tables to a subscriber: a client that was told of its subscription, reads the book at any moment from
      the attachment on, and absorbs what it is handed keeps up with the bus; when it was handed the whole bus and
      nothing is held back, it has the book. */
  lemma SubscriberHasTheBook(s: Book, ops: seq<Gate.Op>, start: US.System, actions: seq<US.Action>, client: nat)
    requires Gated(s, ops)
    requires start.subs == map[] && start.clients == map[] && US.RunEnabled(start, actions)
    requires client in US.Run(start, actions).clients && US.Run(start, actions).clients[client].subscribed
    requires US.Run(start, actions).bus == BusOf(ops)
    ensures exists k: nat, from: nat ::
              && KeepsUpSince(US.Run(start, actions), client, k, from)
              && HasTheBook(s, ops, from, US.Run(start, actions).clients[client].delivered)
  {
    BusIsTheBook(s, ops);
    SnapshotPlusUpdates(start, actions, client);
    var k: nat, from: nat :| KeepsUpSince(US.Run(start, actions), client, k, from);
    UpToDateIsTheBook(s, ops, from, US.Run(start, actions).clients[client].delivered);
  }

  /** Any snapshot of the bus from position `from` on, with what was handed over, is the book, provided the two together
      reach the end of the bus and nothing is held back. */
  ghost predicate HasTheBook(s: Book, ops: seq<Gate.Op>, from: nat, delivered: seq<AppEvent>) {
    forall m: nat ::
      from <= m <= |BusOf(ops)| && Max(m, from + |delivered|) == |BusOf(ops)| && HeldBack(ops) == [] ==>
      IsBookWith(s, BusOf(ops)[..m], delivered)
  }

  ghost predicate IsBookWith(s: Book, seen: seq<AppEvent>, delivered: seq<AppEvent>) {
    FoldEvents(Nothing, seen).Some? && AbsorbAll(FoldEvents(Nothing, seen).value, delivered) == Some(MirrorOf(s.live, s.history))
  }

  lemma UpToDateIsTheBook(s: Book, ops: seq<Gate.Op>, from: nat, delivered: seq<AppEvent>)
    requires Gated(s, ops) && KeepsUp(BusOf(ops), from, delivered)
    ensures HasTheBook(s, ops, from, delivered)
  {
    BusIsTheBook(s, ops);
    var bus := BusOf(ops);
    forall m: nat | from <= m <= |bus| && Max(m, from + |delivered|) == |bus| && HeldBack(ops) == []
      ensures IsBookWith(s, bus[..m], delivered)
    {
      assert UpToDate(bus, m, from, delivered);
      assert bus[..|bus|] == bus;
    }
  }
}
