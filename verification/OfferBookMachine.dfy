/** The node's state machine as it runs: tables updated in place, one method per transition, each refining the
    corresponding step of the offer book. */
module OfferBookMachine {
  import opened Prelude
  import opened AppEvents
  import opened OfferExpiry
  import opened OfferLiveness
  import opened OfferBook
  import opened OfferBookInvariants
  import opened OfferBookIds
  import Runs = OfferBookRuns

  // ---- What the bus sees ----

  /** `es` is what publishing the group `e` looks like; the rows of one archive statement come in any order. */
  ghost predicate Lists(e: Emission, es: seq<AppEvent>) {
    match e
    case Indexed(id, hash, height, gives, wants) => es == [OfferIndexed(id, hash, height, gives, wants)]
    case Consumed(rows, cause) => ListsRows(rows, cause, es)
    case Expired(id, hash) => es == [OfferExpired(id, Some(hash))]
    case Rejected(code, rejected, active, height) => es == [OfferRejected(code, rejected, active, height)]
  }

  /** One event for each of the rows `ids`, and none twice. */
  ghost predicate ListsSome(rows: map<Id, string>, ids: set<Id>, cause: Cause, es: seq<AppEvent>) {
    && ids <= rows.Keys
    && (forall id :: id in ids ==> OfferConsumed(id, Some(rows[id]), cause) in es)
    && (forall k :: 0 <= k < |es| ==>
          es[k].OfferConsumed? && es[k].offerId in ids
          && es[k] == OfferConsumed(es[k].offerId, Some(rows[es[k].offerId]), cause))
    && (forall j, k :: 0 <= j < k < |es| ==> es[j] != es[k])
  }

  ghost predicate ListsRows(rows: map<Id, string>, cause: Cause, es: seq<AppEvent>) { ListsSome(rows, rows.Keys, cause, es) }

  lemma ListsOneMore(rows: map<Id, string>, ids: set<Id>, cause: Cause, es: seq<AppEvent>, id: Id)
    requires ListsSome(rows, ids, cause, es) && id in rows && id !in ids
    ensures ListsSome(rows, ids + {id}, cause, es + [OfferConsumed(id, Some(rows[id]), cause)])
  {
    var e := OfferConsumed(id, Some(rows[id]), cause);
    var later := es + [e];
    assert later[|es|] == e;
    forall i | i in ids ensures OfferConsumed(i, Some(rows[i]), cause) in later {
      var k :| 0 <= k < |es| && es[k] == OfferConsumed(i, Some(rows[i]), cause);
      assert later[k] == es[k];
    }
  }

  /** `es` lists the groups of the log one after the other. */
  ghost predicate Enumerates(log: seq<Emission>, es: seq<AppEvent>)
    decreases |log|, 1
  {
    if log == [] then es == [] else exists k :: EndsAt(log, es, k)
  }

  /** The last group of the log begins at position `k`. */
  ghost predicate EndsAt(log: seq<Emission>, es: seq<AppEvent>, k: nat)
    requires log != []
    decreases |log|, 0
  {
    k <= |es| && Enumerates(log[..|log| - 1], es[..k]) && Lists(log[|log| - 1], es[k..])
  }

  lemma EnumeratesAppend(log: seq<Emission>, es: seq<AppEvent>, e: Emission, more: seq<AppEvent>)
    requires Enumerates(log, es) && Lists(e, more)
    ensures Enumerates(log + [e], es + more)
  {
    var all, k := es + more, |es|;
    assert (log + [e])[..|log + [e]| - 1] == log;
    assert all[..k] == es && all[k..] == more;
    assert EndsAt(log + [e], all, k);
  }

  predicate EventCloses(e: AppEvent, id: Id) {
    (e.OfferConsumed? || e.OfferExpired?) && e.offerId == id
  }

  predicate EventOpens(e: AppEvent, id: Id) { e.OfferIndexed? && e.offerId == id }

  ghost predicate Closed(es: seq<AppEvent>, id: Id) { exists k :: 0 <= k < |es| && EventCloses(es[k], id) }

  ghost predicate Opened(es: seq<AppEvent>, id: Id) { exists k :: 0 <= k < |es| && EventOpens(es[k], id) }

  ghost predicate AtMostOnce(es: seq<AppEvent>, id: Id) {
    && (forall j, k :: 0 <= j < |es| && 0 <= k < |es| && EventCloses(es[j], id) && EventCloses(es[k], id) ==> j == k)
    && (forall j, k :: 0 <= j < |es| && 0 <= k < |es| && EventOpens(es[j], id) && EventOpens(es[k], id) ==> j == k)
  }

  lemma GroupOnce(e: Emission, es: seq<AppEvent>, id: Id)
    requires Lists(e, es)
    ensures (Closed(es, id) <==> Runs.Closes(e, id)) && (Opened(es, id) <==> Runs.Opens(e, id)) && AtMostOnce(es, id)
  {
    match e
    case Consumed(rows, cause) =>
      if id in rows {
        var k :| 0 <= k < |es| && es[k] == OfferConsumed(id, Some(rows[id]), cause);
        assert EventCloses(es[k], id);
      }
    case Indexed(_, _, _, _, _) => assert EventOpens(es[0], e.id);
    case Expired(_, _) => assert EventCloses(es[0], e.id);
    case Rejected(_, _, _, _) =>
  }

  lemma JoinOnce(a: seq<AppEvent>, b: seq<AppEvent>, id: Id)
    ensures Closed(a + b, id) <==> Closed(a, id) || Closed(b, id)
    ensures Opened(a + b, id) <==> Opened(a, id) || Opened(b, id)
    ensures AtMostOnce(a, id) && AtMostOnce(b, id) && !(Closed(a, id) && Closed(b, id)) && !(Opened(a, id) && Opened(b, id))
            ==> AtMostOnce(a + b, id)
  {
    assert forall k :: 0 <= k < |a| ==> (a + b)[k] == a[k];
    assert forall k :: 0 <= k < |b| ==> (a + b)[|a| + k] == b[k];
  }

  /** The events `es` are those that lead to the mirror `m`, as far as offer `id` is concerned. */
  ghost predicate Tells(es: seq<AppEvent>, m: Mirror, id: Id) {
    && (Closed(es, id) <==> id in m.closed) && (Opened(es, id) <==> id in m.open || id in m.closed) && AtMostOnce(es, id)
  }

  lemma PublishedNext(m: Mirror, e: Emission, before: seq<AppEvent>, group: seq<AppEvent>, id: Id)
    requires m.open.Keys !! m.closed.Keys && Follow(m, e).Some? && Lists(e, group) && Tells(before, m, id)
    ensures Tells(before + group, Follow(m, e).value, id)
  {
    GroupOnce(e, group, id);
    JoinOnce(before, group, id);
  }

  lemma EnumeratesSplit(log: seq<Emission>, es: seq<AppEvent>) returns (before: seq<AppEvent>, group: seq<AppEvent>)
    requires Enumerates(log, es) && log != []
    ensures Enumerates(log[..|log| - 1], before) && Lists(log[|log| - 1], group) && es == before + group
  {
    var k: nat :| EndsAt(log, es, k);
    before, group := es[..k], es[k..];
  }

  lemma {:induction false} PublishedOnce(log: seq<Emission>, es: seq<AppEvent>, id: Id)
    requires Enumerates(log, es) && Replay(log).Some?
    ensures Tells(es, Replay(log).value, id)
    decreases |log|
  {
    if log != [] {
      var init, e := log[..|log| - 1], log[|log| - 1];
      var before, group := EnumeratesSplit(log, es);
      PublishedOnce(init, before, id);
      Runs.ReplayApart(init);
      PublishedNext(Replay(init).value, e, before, group, id);
    } else {
      assert es == [];
    }
  }

  /** What reached the bus: every offer ever indexed was announced exactly once, and exactly the archived ones
      were closed, exactly once each. */
  lemma EventsTellTheBook(s: Book, es: seq<AppEvent>, id: Id)
    requires Inv(s) && Enumerates(s.log, es)
    ensures Closed(es, id) <==> id in s.history
    ensures Opened(es, id) <==> id in s.live || id in s.history
    ensures AtMostOnce(es, id)
  {
    PublishedOnce(s.log, es, id);
  }

  /** The machine. What a method leaves behind is what the tables hold once its input is committed; a failed input is
      rolled back to its savepoint. */
  class Machine {
    const config: Config
    var live: map<Id, Row>
    var history: map<Id, Archived>
    var nullifiers: map<string, Spent>
    var commitments: map<string, Sighting>
    var created: map<Utxo, int>
    var spends: map<Utxo, Sighting>
    var creates: map<Utxo, Sighting>
    var roots: map<string, RootRow>
    var schedule: set<Due>
    var rejections: map<(int, string), nat>
    var nextId: Id
    var published: seq<AppEvent>
    ghost var log: seq<Emission>

    ghost function View(): Book
      reads this
    {
      Book(live, history, nullifiers, commitments, created, spends, creates, roots, schedule, rejections, log)
    }

    /** Since then exactly the rows `ids` were archived as consumed. */
    ghost predicate ConsumedSince(live0: map<Id, Row>, history0: map<Id, Archived>, log0: seq<Emission>,
                                  ids: set<Id>, cause: Cause, at: int)
      reads this
    {
      && live == live0 - ids && history == history0 + Moved(live0, ids, CONSUMED, at)
      && log == if ids == {} then log0 else log0 + [Consumed(Hashes(live0, ids), cause)]
    }

    /** The bus saw exactly the logged groups. */
    ghost predicate Logged()
      reads this
    {
      Enumerates(log, published)
    }

    ghost predicate Valid()
      reads this
    {
      Inv(View()) && Logged() && AllBelow(Ids(View()), nextId)
    }

    constructor (config: Config)
      ensures Valid() && View() == Empty && this.config == config && published == []
    {
      this.config := config;
      live, history, nullifiers, commitments := map[], map[], map[], map[];
      created, spends, creates, roots := map[], map[], map[], map[];
      schedule, rejections, nextId, published, log := {}, map[], 0, [], [];
      new;
      EmptyIsInv();
    }

    /** Move the rows `ids` to the history and return their hashes. */
    method ArchiveRows(ids: set<Id>, reason: Reason, at: int) returns (rows: map<Id, string>)
      modifies this`live, this`history
      ensures live == old(live) - ids && history == old(history) + Moved(old(live), ids, reason, at)
      ensures rows == Hashes(old(live), ids)
    {
      rows := Hashes(live, ids);
      history := history + Moved(live, ids, reason, at);
      live := live - ids;
    }

    /** Publish one event per archived row. */
    method PublishConsumed(rows: map<Id, string>, cause: Cause)
      requires Logged()
      modifies this`published, this`log
      ensures log == old(log) + [Consumed(rows, cause)]
      ensures Logged()
    {
      var rest := rows.Keys;
      var es: seq<AppEvent> := [];
      while rest != {}
        invariant rest <= rows.Keys && log == old(log)
        invariant published == old(published) + es
        invariant ListsSome(rows, rows.Keys - rest, cause, es)
      {
        var id :| id in rest;
        ListsOneMore(rows, rows.Keys - rest, cause, es, id);
        assert rows.Keys - (rest - {id}) == rows.Keys - rest + {id};
        published := published + [OfferConsumed(id, Some(rows[id]), cause)];
        es := es + [OfferConsumed(id, Some(rows[id]), cause)];
        rest := rest - {id};
      }
      assert rows.Keys - rest == rows.Keys;
      EnumeratesAppend(log, old(published), Consumed(rows, cause), es);
      log := log + [Consumed(rows, cause)];
    }

    method CommitmentTransition(b: Block, commitment: string, txHash: Option<string>, mtIndex: string)
      modifies this`commitments
      ensures View() == OnCommitment(old(View()), b, commitment, txHash, mtIndex)
    {
      commitments := FirstWins(commitments, commitment, Sighting(b.height, txHash, mtIndex));
    }

    method NullifierTransition(b: Block, n: string, txHash: Option<string>)
      requires Logged()
      modifies this`live, this`history, this`nullifiers, this`published, this`log
      ensures Logged() && View() == OnNullifier(old(View()), b, n, txHash)
    {
      NullifierByTable(View(), b, n, txHash);
      RecordNullifier(b, n, txHash);
    }

    method RecordNullifier(b: Block, n: string, txHash: Option<string>)
      requires Logged()
      modifies this`live, this`history, this`nullifiers, this`published, this`log
      ensures Logged() && ConsumedSince(old(live), old(history), old(log), WithNullifier(old(live), n), ByNullifier(n), b.time)
      ensures
        var seen := FirstWins(old(nullifiers), n, Spent(b.height, txHash, false));
        nullifiers == if WithNullifier(old(live), n) == {} then seen else seen[n := seen[n].(matched := true)]
    {
      if n !in nullifiers {
        nullifiers := nullifiers[n := Spent(b.height, txHash, false)];
      }
      var found := ConsumeSeen(n, b.time);
    }

    method ConsumeSeen(n: string, at: int) returns (found: bool)
      requires Logged() && n in nullifiers
      modifies this`live, this`history, this`nullifiers, this`published, this`log
      ensures ConsumedSince(old(live), old(history), old(log), WithNullifier(old(live), n), ByNullifier(n), at)
      ensures nullifiers == if found then old(nullifiers)[n := old(nullifiers)[n].(matched := true)] else old(nullifiers)
      ensures found <==> WithNullifier(old(live), n) != {}
      ensures Logged()
    {
      var ids := WithNullifier(live, n);
      var rows := ArchiveRows(ids, CONSUMED, at);
      assert rows.Keys == ids;
      found := rows != map[];
      if found {
        nullifiers := nullifiers[n := nullifiers[n].(matched := true)];
        PublishConsumed(rows, ByNullifier(n));
      }
    }

    method UnshieldedSpendTransition(b: Block, owner: string, intentHash: string, outputIndex: Option<int>, txHash: Option<string>)
      requires Logged()
      modifies this`live, this`history, this`spends, this`created, this`published, this`log
      ensures Logged()
      ensures View() == if Malformed(owner, intentHash, outputIndex) then old(View())
                        else OnUnshieldedSpend(old(View()), b, Utxo(owner, intentHash, outputIndex.value), txHash)
    {
      if owner == "" || intentHash == "" || outputIndex.None? {
        return;
      }
      SpendKnown(b, Utxo(owner, intentHash, outputIndex.value), txHash);
    }

    method SpendKnown(b: Block, u: Utxo, txHash: Option<string>)
      requires Logged()
      modifies this`live, this`history, this`spends, this`created, this`published, this`log
      ensures Logged() && View() == OnUnshieldedSpend(old(View()), b, u, txHash)
    {
      SpendByTable(View(), b, u, txHash);
      RecordSpend(b, u, txHash);
    }

    method RecordSpend(b: Block, u: Utxo, txHash: Option<string>)
      requires Logged()
      modifies this`live, this`history, this`spends, this`created, this`published, this`log
      ensures Logged() && ConsumedSince(old(live), old(history), old(log), WithSpend(old(live), u), BySpend(u), b.time)
      ensures spends == FirstWins(old(spends), u, Sighting(b.height, txHash, "")) && created == old(created) - {u}
    {
      NoteSpend(b, u, txHash);
      SpendMatched(u, b.time);
    }

    method NoteSpend(b: Block, u: Utxo, txHash: Option<string>)
      modifies this`spends, this`created
      ensures spends == FirstWins(old(spends), u, Sighting(b.height, txHash, "")) && created == old(created) - {u}
    {
      if u !in spends {
        spends := spends[u := Sighting(b.height, txHash, "")];
      }
      created := created - {u};
    }

    method SpendMatched(u: Utxo, at: int)
      requires Logged()
      modifies this`live, this`history, this`published, this`log
      ensures ConsumedSince(old(live), old(history), old(log), WithSpend(old(live), u), BySpend(u), at)
      ensures Logged()
    {
      var ids := WithSpend(live, u);
      var rows := ArchiveRows(ids, CONSUMED, at);
      assert rows.Keys == ids;
      if rows != map[] {
        PublishConsumed(rows, BySpend(u));
      }
    }

    method UnshieldedCreateTransition(b: Block, owner: string, intentHash: string, outputIndex: Option<int>,
                                      txHash: Option<string>, detail: string)
      modifies this`created, this`creates
      ensures View() == if Malformed(owner, intentHash, outputIndex) then old(View())
                        else OnUnshieldedCreate(old(View()), b, Utxo(owner, intentHash, outputIndex.value), txHash, detail)
    {
      if owner == "" || intentHash == "" || outputIndex.None? {
        return;
      }
      var u := Utxo(owner, intentHash, outputIndex.value);
      created := FirstWins(created, u, b.height);
      creates := FirstWins(creates, u, Sighting(b.height, txHash, detail));
    }

    method RootTransition(b: Block, root: string)
      modifies this`roots
      ensures View() == OnRoot(config, old(View()), b, root)
    {
      if root == "" {
        return;
      }
      roots := UpsertRoot(roots, root, b.height, b.time);
      roots := PruneRoots(roots, b.time - config.rootWindow * 1000);
    }

    method CleanupTransition(b: Block, id: Id)
      requires Logged()
      modifies this`live, this`history, this`published, this`log
      ensures Logged() && View() == ExpireById(old(View()), id, b.time)
    {
      if id !in live || live[id].expiresAt > b.time {
        return;
      }
      OneHash(live, id);
      var rows := ArchiveRows({id}, TTL, b.time);
      Publish(Expired(id, rows[id]), OfferExpired(id, Some(rows[id])));
    }

    /** Publish a single event. */
    method Publish(ghost e: Emission, event: AppEvent)
      requires Logged() && Lists(e, [event])
      modifies this`published, this`log
      ensures Logged() && log == old(log) + [e] && published == old(published) + [event]
    {
      EnumeratesAppend(log, published, e, [event]);
      published := published + [event];
      log := log + [e];
    }

    // ---- Blob ingestion ----

    /** The probe for an active offer that already claims the marker. */
    method FindActiveOffer(m: Marker) returns (hash: Option<string>)
      requires MarkersDisjoint(live)
      ensures hash == Incumbent(live, m)
    {
      var ids := Claimants(live, m);
      if ids == {} {
        return None;
      }
      var id :| id in ids;
      return Some(live[id].hash);
    }

    method FindConflict(ms: seq<Marker>) returns (hash: Option<string>)
      requires MarkersDisjoint(live)
      ensures hash == FirstIncumbent(live, ms)
    {
      for i := 0 to |ms|
        invariant FirstIncumbent(live, ms[i..]) == FirstIncumbent(live, ms)
      {
        assert ms[i..][0] == ms[i] && ms[i..][1..] == ms[i + 1..];
        var claimed := FindActiveOffer(ms[i]);
        if claimed.Some? {
          return claimed;
        }
      }
      return None;
    }

    method RejectOffer(b: Block, code: string, hash: Option<string>, active: Option<string>)
      requires Logged()
      modifies this`rejections, this`published, this`log
      ensures Logged() && View() == OnReject(old(View()), b, code, hash, active)
    {
      rejections := Counted(rejections, (b.height, code));
      Publish(Rejected(code, hash, active, b.height), OfferRejected(code, hash, active, b.height));
    }

    /** Insert the offer's row and then, child table by child table, everything that lives and dies with it. */
    method InsertOffer(id: Id, row: Row, o: Offer)
      requires id !in live
      requires row.nullifiers == {} && row.spends == {} && row.commitments == {} && row.outputs == map[]
      requires row.gives == [] && row.wants == []
      modifies this`live
      ensures live == old(live)[id := row.(nullifiers := Elements(o.nullifiers), spends := Elements(o.spends),
                                           commitments := Elements(o.commitments), outputs := OutputRows(o.outputs),
                                           gives := o.gives, wants := o.wants)]
    {
      live := live[id := row];
      assert live[id] == row && row == row.(nullifiers := Elements(o.nullifiers[..0]));
      for i := 0 to |o.nullifiers|
        invariant live == old(live)[id := row.(nullifiers := Elements(o.nullifiers[..i]))]
      {
        ElementsSnoc(o.nullifiers, i);
        live := live[id := live[id].(nullifiers := live[id].nullifiers + {o.nullifiers[i]})];
      }
      assert o.nullifiers[..|o.nullifiers|] == o.nullifiers;
      ghost var row1 := live[id];
      assert row1 == row1.(spends := Elements(o.spends[..0]));
      for i := 0 to |o.spends|
        invariant live == old(live)[id := row1.(spends := Elements(o.spends[..i]))]
      {
        ElementsSnoc(o.spends, i);
        live := live[id := live[id].(spends := live[id].spends + {o.spends[i]})];
      }
      assert o.spends[..|o.spends|] == o.spends;
      ghost var row2 := live[id];
      assert row2 == row2.(commitments := Elements(o.commitments[..0]));
      for i := 0 to |o.commitments|
        invariant live == old(live)[id := row2.(commitments := Elements(o.commitments[..i]))]
      {
        ElementsSnoc(o.commitments, i);
        live := live[id := live[id].(commitments := live[id].commitments + {o.commitments[i]})];
      }
      assert o.commitments[..|o.commitments|] == o.commitments;
      InsertOutputs(id, o.outputs);
      ghost var row3 := live[id];
      InsertLegs(id, o.gives, o.wants);
    }

    method InsertOutputs(id: Id, outputs: seq<OutputDecl>)
      requires id in live && live[id].outputs == map[]
      modifies this`live
      ensures live == old(live)[id := old(live)[id].(outputs := OutputRows(outputs))]
    {
      for i := 0 to |outputs|
        invariant live == old(live)[id := old(live)[id].(outputs := OutputRows(outputs[..i]))]
      {
        assert outputs[..i + 1][..i] == outputs[..i];
        live := live[id := live[id].(outputs := AddOutput(live[id].outputs, outputs[i]))];
      }
      assert outputs[..|outputs|] == outputs;
    }

    method InsertLegs(id: Id, gives: seq<Leg>, wants: seq<Leg>)
      requires id in live && live[id].gives == [] && live[id].wants == []
      modifies this`live
      ensures live == old(live)[id := old(live)[id].(gives := gives, wants := wants)]
    {
      for i := 0 to |gives|
        invariant live == old(live)[id := old(live)[id].(gives := gives[..i])]
      {
        assert gives[..i + 1] == gives[..i] + [gives[i]];
        live := live[id := live[id].(gives := live[id].gives + [gives[i]])];
      }
      assert gives[..|gives|] == gives;
      for i := 0 to |wants|
        invariant live == old(live)[id := old(live)[id].(gives := gives, wants := wants[..i])]
      {
        assert wants[..i + 1] == wants[..i] + [wants[i]];
        live := live[id := live[id].(wants := live[id].wants + [wants[i]])];
      }
      assert wants[..|wants|] == wants;
    }

    /** Archive at once what an already seen nullifier consumes. */
    method ReconcileEarly(ns: seq<string>, at: int) returns (early: bool)
      requires Logged()
      modifies this`live, this`history, this`nullifiers, this`published, this`log
      ensures Logged() && (View(), early) == Reconcile(old(View()), ns, at)
    {
      early := false;
      ghost var goal := Reconcile(View(), ns, at);
      for i := 0 to |ns|
        invariant Logged()
        invariant Reconcile(View(), ns[i..], at).0 == goal.0
        invariant goal.1 <==> early || Reconcile(View(), ns[i..], at).1
      {
        assert ns[i..][0] == ns[i] && ns[i..][1..] == ns[i + 1..];
        var found := ReconcileOne(ns[i], at);
        early := early || found;
      }
    }

    method ReconcileOne(n: string, at: int) returns (found: bool)
      requires Logged()
      modifies this`live, this`history, this`nullifiers, this`published, this`log
      ensures Logged()
      ensures View() == if n in old(nullifiers) && !old(nullifiers)[n].matched
                        then Consume(MarkMatched(old(View()), n), WithNullifier(old(live), n), ByNullifier(n), at)
                        else old(View())
      ensures found <==> n in old(nullifiers) && !old(nullifiers)[n].matched && WithNullifier(old(live), n) != {}
    {
      if n !in nullifiers || nullifiers[n].matched {
        return false;
      }
      EarlyByTable(View(), n, at);
      found := ConsumeEarly(n, at);
    }

    method ConsumeEarly(n: string, at: int) returns (found: bool)
      requires Logged() && n in nullifiers
      modifies this`live, this`history, this`nullifiers, this`published, this`log
      ensures ConsumedSince(old(live), old(history), old(log), WithNullifier(old(live), n), ByNullifier(n), at)
      ensures nullifiers == old(nullifiers)[n := old(nullifiers)[n].(matched := true)]
      ensures found <==> WithNullifier(old(live), n) != {}
      ensures Logged()
    {
      ghost var before := View();
      var ids := WithNullifier(live, n);
      var rows := ArchiveRows(ids, CONSUMED, at);
      assert rows.Keys == ids;
      nullifiers := nullifiers[n := nullifiers[n].(matched := true)];
      found := rows != map[];
      if found {
        PublishConsumed(rows, ByNullifier(n));
      }
    }
    /** Decide what becomes of a blob: the checks in their order, each made only when those before it pass. */
    method Admit(b: Block, hash: string, verdict: Structural, cryptoFailure: Option<string>) returns (d: Decision)
      requires MarkersDisjoint(live)
      ensures d == Judge(config, View(), b, hash, verdict, cryptoFailure)
    {
      if verdict.Refused? {
        return Reject(verdict.code, None, None);
      }
      var o := verdict.offer;
      var known := (exists id :: id in live && live[id].hash == hash)
                   || (exists id :: id in history && history[id].row.hash == hash);
      if known {
        return Reject("DUPLICATE_OFFER", Some(hash), None);
      }
      var dead := EvaluateInStateMachine(Facts(nullifiers.Keys, created.Keys, roots), o.nullifiers, o.spends, o.roots,
                                         b.time - config.rootWindow * 1000);
      if dead.Some? {
        return Reject(FailureCode(dead.value), Some(hash), None);
      }
      if cryptoFailure.Some? {
        return Reject(cryptoFailure.value, Some(hash), None);
      }
      var conflict := FindConflict(DeclaredMarkers(o));
      if conflict.Some? {
        return Reject("DUPLICATE_MARKERS", Some(hash), conflict);
      }
      var expiry := ExpiryFor(b, o);
      return match expiry case Ok(t) => Accept(o, t) case Err(_) => Fail;
    }

    method ExpiryFor(b: Block, o: Offer) returns (r: Result<int, ExpiryError>)
      ensures r == OfferExpiryOf(config, View(), b, o)
    {
      var seen := EarliestFirstSeen(roots, o.roots);
      if seen.Some? && !Usable(At(seen.value)) {
        return Err(Invalid("root first-seen"));
      }
      var anchor := EarliestAnchor(roots, o.roots, b.time);
      var rootDeadline := if anchor.Some? then At(anchor.value + config.rootWindow * 1000) else Absent;
      var dust := EarliestDustSpendDeadline(o.dust, config.dustGrace);
      if dust.Err? {
        return Err(dust.error);
      }
      r := DeriveOfferExpiry(rootDeadline, o.intentTtl, AsCandidate(dust.value), At(b.time + config.offerTtl * 1000));
    }

    method InsertNewOffer(b: Block, id: Id, hash: string, o: Offer, expiresAt: int)
      requires id !in live
      modifies this`live
      ensures live == old(live)[id := NewRow(old(View()), b, hash, o, expiresAt)]
    {
      var seen := EarliestFirstSeen(roots, o.roots);
      InsertOffer(id, Row(hash, b.height, b.time, expiresAt, if seen.Some? then seen.value else b.time,
                          OfferLifetimeSeconds(expiresAt, b.time), {}, {}, {}, map[], [], []), o);
    }

    method SaveOffer(b: Block, hash: string, o: Offer, expiresAt: int)
      requires Logged() && nextId !in live
      modifies this`live, this`history, this`nullifiers, this`schedule, this`published, this`log, this`nextId
      ensures Logged() && View() == OnAccept(old(View()), b, hash, o, expiresAt, old(nextId))
      ensures nextId == old(nextId) + 1
    {
      var id := nextId;
      nextId := nextId + 1;
      InsertNewOffer(b, id, hash, o, expiresAt);
      var early := ReconcileEarly(o.nullifiers, b.time);
      if !early {
        Announce(b, id, hash, o, expiresAt);
      }
    }

    method Announce(b: Block, id: Id, hash: string, o: Offer, expiresAt: int)
      requires Logged()
      modifies this`schedule, this`published, this`log
      ensures Logged() && schedule == old(schedule) + {Due(id, expiresAt)}
      ensures log == old(log) + [Indexed(id, hash, b.height, o.gives, o.wants)]
    {
      schedule := schedule + {Due(id, expiresAt)};
      Publish(Indexed(id, hash, b.height, o.gives, o.wants), OfferIndexed(id, hash, b.height, o.gives, o.wants));
    }

    /** A failure is rethrown and the input rolled back; `ok` tells it apart. */
    method BlobTransition(b: Block, hash: string, verdict: Structural, cryptoFailure: Option<string>) returns (ok: bool)
      requires Logged() && MarkersDisjoint(live) && nextId !in live
      modifies this`live, this`history, this`nullifiers, this`schedule, this`published, this`log, this`nextId, this`rejections
      ensures Logged() && View() == OnBlob(config, old(View()), b, hash, verdict, cryptoFailure, old(nextId))
      ensures ok <==> !Judge(config, old(View()), b, hash, verdict, cryptoFailure).Fail?
      ensures nextId == if IsAccept(Judge(config, old(View()), b, hash, verdict, cryptoFailure)) then old(nextId) + 1 else old(nextId)
    {
      var d := Admit(b, hash, verdict, cryptoFailure);
      match d
      case Fail => return false;
      case Reject(code, h, active) =>
        RejectOffer(b, code, h, active);
        return true;
      case Accept(o, t) =>
        SaveOffer(b, hash, o, t);
        return true;
    }

    // ---- The whole machine ----

    method ScheduledTransition(b: Block, id: Id, due: bool)
      requires Logged()
      modifies this`live, this`history, this`published, this`log, this`schedule
      ensures Logged() && View() == OnCleanup(old(View()), b, id, due)
    {
      CleanupTransition(b, id);
      if due {
        schedule := Without(schedule, id);
      }
    }

    method Dispatch(b: Block, i: Input) returns (ok: bool)
      requires Logged() && MarkersDisjoint(live) && nextId !in live
      modifies this
      ensures Logged() && View() == Step(config, old(View()), b, i, old(nextId))
      ensures nextId == if Accepts(config, old(View()), b, i) then old(nextId) + 1 else old(nextId)
      ensures !ok ==> View() == old(View())
    {
      if i.BlobPosted? {
        ok := BlobTransition(b, i.hash, i.verdict, i.cryptoFailure);
      } else {
        DispatchOther(b, i);
        ok := true;
      }
    }

    method DispatchOther(b: Block, i: Input)
      requires Logged() && !i.BlobPosted?
      modifies this`live, this`history, this`nullifiers, this`commitments, this`created, this`spends, this`creates,
               this`roots, this`schedule, this`published, this`log
      ensures Logged() && View() == Step(config, old(View()), b, i, old(nextId))
    {
      match i
      case CommitmentSeen(k, tx, mt) => CommitmentTransition(b, k, tx, mt);
      case NullifierSeen(n, tx) => NullifierTransition(b, n, tx);
      case UnshieldedSpent(owner, hash, no, tx) => UnshieldedSpendTransition(b, owner, hash, no, tx);
      case UnshieldedCreated(owner, hash, no, tx, detail) => UnshieldedCreateTransition(b, owner, hash, no, tx, detail);
      case RootSeen(r) => RootTransition(b, r);
      case Cleanup(j, due) => ScheduledTransition(b, j, due);
    }

    /** Process one input. `ok` is false exactly when a blob's expiry cannot be derived, and then nothing changed. */
    method Process(b: Block, i: Input) returns (ok: bool)
      requires Valid() && Enabled(View(), b, i, nextId)
      modifies this
      ensures Valid() && View() == Step(config, old(View()), b, i, old(nextId))
      ensures !ok ==> View() == old(View())
    {
      StepKeepsInv(config, View(), b, i, nextId);
      IdsStayBelow(config, View(), b, i, nextId);
      ok := Dispatch(b, i);
    }
  }

  /** Serial allocation: every id in use was handed out before. */
  ghost predicate AllBelow(ids: set<Id>, next: Id) { forall id :: id in ids ==> id < next }

  lemma IdsStayBelow(c: Config, s: Book, b: Block, i: Input, next: Id)
    requires AllBelow(Ids(s), next)
    ensures AllBelow(Ids(Step(c, s, b, i, next)), if Accepts(c, s, b, i) then next + 1 else next)
    ensures next !in s.live && next !in s.history
  {
    StepIds(c, s, b, i, next);
    assert next !in Ids(s);
  }

  /** The effect of consuming rows, table by table. */
  lemma ConsumeByTable(s: Book, ids: set<Id>, cause: Cause, at: int)
    ensures Consume(s, ids, cause, at)
            == s.(live := s.live - ids, history := s.history + Moved(s.live, ids, CONSUMED, at),
                  log := if ids == {} then s.log else s.log + [Consumed(Hashes(s.live, ids), cause)])
  {
    if ids == {} {}
  }

  lemma NullifierByTable(s: Book, b: Block, n: string, txHash: Option<string>)
    ensures
      var ids := WithNullifier(s.live, n);
      var seen := FirstWins(s.nullifiers, n, Spent(b.height, txHash, false));
      OnNullifier(s, b, n, txHash)
      == s.(live := s.live - ids, history := s.history + Moved(s.live, ids, CONSUMED, b.time),
            log := if ids == {} then s.log else s.log + [Consumed(Hashes(s.live, ids), ByNullifier(n))],
            nullifiers := if ids == {} then seen else seen[n := seen[n].(matched := true)])
  {
    var ids, s1 := WithNullifier(s.live, n), WithSpent(s, b, n, txHash);
    if ids == {} {
    } else {
      ConsumeByTable(MarkMatched(s1, n), ids, ByNullifier(n), b.time);
    }
  }

  lemma SpendByTable(s: Book, b: Block, u: Utxo, txHash: Option<string>)
    ensures
      var ids := WithSpend(s.live, u);
      OnUnshieldedSpend(s, b, u, txHash)
      == s.(live := s.live - ids, history := s.history + Moved(s.live, ids, CONSUMED, b.time),
            log := if ids == {} then s.log else s.log + [Consumed(Hashes(s.live, ids), BySpend(u))],
            spends := FirstWins(s.spends, u, Sighting(b.height, txHash, "")), created := s.created - {u})
  {
    var s1 := s.(spends := FirstWins(s.spends, u, Sighting(b.height, txHash, "")), created := s.created - {u});
    ConsumeByTable(s1, WithSpend(s.live, u), BySpend(u), b.time);
  }

  lemma EarlyByTable(s: Book, n: string, at: int)
    requires n in s.nullifiers
    ensures
      var ids := WithNullifier(s.live, n);
      Consume(MarkMatched(s, n), ids, ByNullifier(n), at)
      == s.(live := s.live - ids, history := s.history + Moved(s.live, ids, CONSUMED, at),
            log := if ids == {} then s.log else s.log + [Consumed(Hashes(s.live, ids), ByNullifier(n))],
            nullifiers := s.nullifiers[n := s.nullifiers[n].(matched := true)])
  {
    ConsumeByTable(MarkMatched(s, n), WithNullifier(s.live, n), ByNullifier(n), at);
  }
}
