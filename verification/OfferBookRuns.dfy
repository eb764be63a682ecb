/** What holds of every run of the offer book: nothing indexed is lost or changed, each offer is announced and
    closed once, and a spent coin or a known offer never comes back. */
module OfferBookRuns {
  import opened Prelude
  import opened AppEvents
  import opened OfferExpiry
  import opened OfferLiveness
  import opened OfferBook
  import opened OfferBookInvariants

  // ---- Nothing indexed is ever lost, altered or taken back ----

  ghost predicate Within<V>(a: map<Id, V>, b: map<Id, V>) {
    forall id :: id in a ==> id in b && b[id] == a[id]
  }

  /** `later` still holds every indexed row, every archive record and every spend of `s`. */
  ghost predicate Extends(s: Book, later: Book) {
    && Within(Rows(s.live, s.history), Rows(later.live, later.history)) && Within(s.history, later.history)
    && s.nullifiers.Keys <= later.nullifiers.Keys && s.spends.Keys <= later.spends.Keys
  }

  lemma ConsumeExtends(s: Book, ids: set<Id>, cause: Cause, at: int)
    requires s.live.Keys !! s.history.Keys && ids <= s.live.Keys
    ensures Extends(s, Consume(s, ids, cause, at))
  {
    if ids == {} { SameRowsExtend(s, s); }
  }

  lemma ExtendsTransitive(s: Book, t: Book, u: Book)
    requires Extends(s, t) && Extends(t, u)
    ensures Extends(s, u)
  {}

  lemma NullifierExtends(s: Book, b: Block, n: string, txHash: Option<string>)
    requires s.live.Keys !! s.history.Keys
    ensures Extends(s, OnNullifier(s, b, n, txHash))
  {
    var s1, ids := WithSpent(s, b, n, txHash), WithNullifier(s.live, n);
    assert s1.nullifiers.Keys == s.nullifiers.Keys + {n};
    if ids == {} {
      SameRowsExtend(s, s1);
    } else {
      var s2 := MarkMatched(s1, n);
      MarkingKeepsKeys(s1, n);
      SameRowsExtend(s, s2);
      ConsumeExtends(s2, ids, ByNullifier(n), b.time);
      ExtendsTransitive(s, s2, Consume(s2, ids, ByNullifier(n), b.time));
    }
  }

  lemma SpendExtends(s: Book, b: Block, u: Utxo, txHash: Option<string>)
    requires s.live.Keys !! s.history.Keys
    ensures Extends(s, OnUnshieldedSpend(s, b, u, txHash))
  {
    var s1 := s.(spends := FirstWins(s.spends, u, Sighting(b.height, txHash, "")), created := s.created - {u});
    SameRowsExtend(s, s1);
    ConsumeExtends(s1, WithSpend(s.live, u), BySpend(u), b.time);
    ExtendsTransitive(s, s1, OnUnshieldedSpend(s, b, u, txHash));
  }

  lemma InsertKeepsRows(live: map<Id, Row>, history: map<Id, Archived>, id: Id, row: Row)
    requires id !in live && id !in history
    ensures Within(Rows(live, history), Rows(live[id := row], history))
  {}

  lemma ExpireExtends(s: Book, id: Id, cutoff: int)
    requires s.live.Keys !! s.history.Keys
    ensures Extends(s, ExpireById(s, id, cutoff))
  {
    if id in s.live && s.live[id].expiresAt <= cutoff {
    } else {
      SameRowsExtend(s, s);
    }
  }

  lemma CleanupExtends(s: Book, b: Block, id: Id, due: bool)
    requires s.live.Keys !! s.history.Keys
    ensures Extends(s, OnCleanup(s, b, id, due))
  {
    var s1 := ExpireById(s, id, b.time);
    ExpireExtends(s, id, b.time);
    SameRowsExtend(s1, s1.(schedule := Without(s1.schedule, id)));
    ExtendsTransitive(s, s1, OnCleanup(s, b, id, due));
  }

  lemma SameRowsExtend(s: Book, later: Book)
    requires later.live == s.live && later.history == s.history
    requires s.nullifiers.Keys <= later.nullifiers.Keys && s.spends.Keys <= later.spends.Keys
    ensures Extends(s, later)
  {}

  lemma AcceptExtends(s: Book, b: Block, hash: string, o: Offer, t: int, id: Id)
    requires id !in s.live && id !in s.history && forall n :: n in o.nullifiers ==> n !in s.nullifiers
    ensures Extends(s, OnAccept(s, b, hash, o, t, id))
  {
    var row := NewRow(s, b, hash, o, t);
    ReconcileNeverFires(s.(live := s.live[id := row]), o.nullifiers, b.time);
    InsertKeepsRows(s.live, s.history, id, row);
  }

  lemma BlobExtends(c: Config, s: Book, b: Block, hash: string, v: Structural, crypto: Option<string>, id: Id)
    requires id !in s.live && id !in s.history
    ensures Extends(s, OnBlob(c, s, b, hash, v, crypto, id))
  {
    match Judge(c, s, b, hash, v, crypto)
    case Reject(code, h, active) => SameRowsExtend(s, OnReject(s, b, code, h, active));
    case Fail => SameRowsExtend(s, s);
    case Accept(o, t) =>
      AcceptedExactlyWhen(c, s, b, hash, v, crypto, t);
      AcceptExtends(s, b, hash, o, t, id);
  }

  lemma CommitmentExtends(s: Book, b: Block, k: string, tx: Option<string>, mt: string)
    ensures Extends(s, OnCommitment(s, b, k, tx, mt))
  {
    SameRowsExtend(s, OnCommitment(s, b, k, tx, mt));
  }

  lemma CreateExtends(s: Book, b: Block, u: Utxo, tx: Option<string>, detail: string)
    ensures Extends(s, OnUnshieldedCreate(s, b, u, tx, detail))
  {
    SameRowsExtend(s, OnUnshieldedCreate(s, b, u, tx, detail));
  }

  lemma RootExtends(c: Config, s: Book, b: Block, r: string)
    ensures Extends(s, OnRoot(c, s, b, r))
  {
    SameRowsExtend(s, OnRoot(c, s, b, r));
  }

  lemma UtxoExtends(c: Config, s: Book, b: Block, i: Input, id: Id)
    requires s.live.Keys !! s.history.Keys && (i.UnshieldedSpent? || i.UnshieldedCreated?)
    ensures Extends(s, Step(c, s, b, i, id))
  {
    if Malformed(i.owner, i.intentHash, i.outputIndex) {
      SameRowsExtend(s, s);
    } else {
      var u := Utxo(i.owner, i.intentHash, i.outputIndex.value);
      match i
      case UnshieldedSpent(_, _, _, tx) => SpendExtends(s, b, u, tx);
      case UnshieldedCreated(_, _, _, tx, detail) => CreateExtends(s, b, u, tx, detail);
    }
  }

  lemma StepExtends(c: Config, s: Book, b: Block, i: Input, id: Id)
    requires s.live.Keys !! s.history.Keys && Enabled(s, b, i, id)
    ensures Extends(s, Step(c, s, b, i, id))
  {
    match i
    case NullifierSeen(n, tx) => NullifierExtends(s, b, n, tx);
    case UnshieldedSpent(_, _, _, _) => UtxoExtends(c, s, b, i, id);
    case UnshieldedCreated(_, _, _, _, _) => UtxoExtends(c, s, b, i, id);
    case BlobPosted(hash, v, crypto) => BlobExtends(c, s, b, hash, v, crypto, id);
    case CommitmentSeen(k, tx, mt) => CommitmentExtends(s, b, k, tx, mt);
    case RootSeen(r) => RootExtends(c, s, b, r);
    case Cleanup(j, due) => CleanupExtends(s, b, j, due);
  }

  /** Over any run: a row once indexed stays, verbatim, in the live table or in the history; archive records and
      spend records never change. */
  lemma {:induction false} RunExtends(c: Config, s: Book, es: seq<Event>)
    requires Inv(s) && RunEnabled(c, s, es)
    ensures Extends(s, Run(c, s, es)) && Inv(Run(c, s, es))
    decreases |es|
  {
    if es != [] {
      var s1 := Step(c, s, es[0].block, es[0].input, es[0].nextId);
      StepKeepsInv(c, s, es[0].block, es[0].input, es[0].nextId);
      StepExtends(c, s, es[0].block, es[0].input, es[0].nextId);
      RunExtends(c, s1, es[1..]);
    }
  }

  /** An offer once known is answered DUPLICATE_OFFER for the rest of time, whatever became of it. */
  lemma KnownOffersNeverReturn(c: Config, s: Book, es: seq<Event>, b: Block, hash: string, o: Offer, crypto: Option<string>)
    requires Inv(s) && RunEnabled(c, s, es) && HashKnown(s, hash)
    ensures Judge(c, Run(c, s, es), b, hash, WellFormed(o), crypto) == Reject("DUPLICATE_OFFER", Some(hash), None)
  {
    RunExtends(c, s, es);
    var later := Run(c, s, es);
    KeptHashes(s, later, hash);
  }

  lemma KeptHashes(s: Book, later: Book, hash: string)
    requires Within(Rows(s.live, s.history), Rows(later.live, later.history)) && s.live.Keys !! s.history.Keys
    requires HashKnown(s, hash)
    ensures HashKnown(later, hash)
  {
    var id: Id := 0;
    if live :| live in s.live && s.live[live].hash == hash {
      id := live;
    } else {
      var gone :| gone in s.history && s.history[gone].row.hash == hash;
      id := gone;
    }
    assert Rows(s.live, s.history)[id].hash == hash;
    assert Rows(later.live, later.history)[id].hash == hash;
  }

  /** A nullifier once seen never again backs an accepted offer. */
  lemma SpentNeverBacksAnOffer(c: Config, s: Book, es: seq<Event>, b: Block, hash: string, o: Offer, crypto: Option<string>, n: string)
    requires Inv(s) && RunEnabled(c, s, es) && n in s.nullifiers && n in o.nullifiers
    ensures Judge(c, Run(c, s, es), b, hash, WellFormed(o), crypto).Reject?
    ensures !HashKnown(Run(c, s, es), hash) ==>
              Judge(c, Run(c, s, es), b, hash, WellFormed(o), crypto) == Reject("NULLIFIER_SPENT", Some(hash), None)
  {
    RunExtends(c, s, es);
    SpentIsRefused(c, Run(c, s, es), b, hash, o, crypto, n);
  }

  lemma SpentIsRefused(c: Config, s: Book, b: Block, hash: string, o: Offer, crypto: Option<string>, n: string)
    requires n in s.nullifiers && n in o.nullifiers
    ensures Judge(c, s, b, hash, WellFormed(o), crypto).Reject?
    ensures !HashKnown(s, hash) ==> Judge(c, s, b, hash, WellFormed(o), crypto) == Reject("NULLIFIER_SPENT", Some(hash), None)
  {
    VerdictOrder(FactsOf(s), o.nullifiers, o.spends, o.roots, b.time - c.rootWindow * 1000);
  }

  // ---- Exactly one announcement and one terminal event ----

  ghost predicate Closes(e: Emission, id: Id) {
    (e.Consumed? && id in e.rows) || (e.Expired? && e.id == id)
  }

  ghost predicate Opens(e: Emission, id: Id) { e.Indexed? && e.id == id }

  ghost predicate SomeCloses(log: seq<Emission>, id: Id) { exists k :: 0 <= k < |log| && Closes(log[k], id) }

  ghost predicate SomeOpens(log: seq<Emission>, id: Id) { exists k :: 0 <= k < |log| && Opens(log[k], id) }

  lemma SomeSnoc(init: seq<Emission>, e: Emission, id: Id)
    ensures SomeCloses(init + [e], id) <==> SomeCloses(init, id) || Closes(e, id)
    ensures SomeOpens(init + [e], id) <==> SomeOpens(init, id) || Opens(e, id)
  {
    var log, n := init + [e], |init|;
    assert log[n] == e && forall k :: 0 <= k < n ==> log[k] == init[k];
    if k :| 0 <= k < n && Closes(init[k], id) { assert Closes(log[k], id); }
    if k :| 0 <= k < n && Opens(init[k], id) { assert Opens(log[k], id); }
  }

  lemma FollowedSnoc(m: Mirror, e: Emission, id: Id)
    requires Follow(m, e).Some?
    ensures
      var later := Follow(m, e).value;
      && (id in later.closed <==> id in m.closed || Closes(e, id))
      && (id in later.open || id in later.closed <==> id in m.open || id in m.closed || Opens(e, id))
  {}

  /** What a log that replays leaves open and closed. */
  lemma {:induction false} ReplayState(log: seq<Emission>, id: Id)
    requires Replay(log).Some?
    ensures id in Replay(log).value.closed <==> SomeCloses(log, id)
    ensures id in Replay(log).value.open || id in Replay(log).value.closed <==> SomeOpens(log, id)
  {
    if log != [] {
      var init, e := log[..|log| - 1], log[|log| - 1];
      assert log == init + [e];
      ReplayState(init, id);
      SomeSnoc(init, e, id);
      FollowedSnoc(Replay(init).value, e, id);
    }
  }

  lemma {:induction false} ReplayApart(log: seq<Emission>)
    requires Replay(log).Some?
    ensures Replay(log).value.open.Keys !! Replay(log).value.closed.Keys
  {
    if log != [] { ReplayApart(log[..|log| - 1]); }
  }

  /** The last event never repeats an earlier one, and closes only what was announced. */
  lemma LastIsNew(log: seq<Emission>, id: Id)
    requires log != [] && Replay(log).Some?
    ensures
      var init, e := log[..|log| - 1], log[|log| - 1];
      && (Closes(e, id) ==> !SomeCloses(init, id) && SomeOpens(init, id))
      && (Opens(e, id) ==> !SomeOpens(init, id) && !SomeCloses(init, id))
  {
    var init := log[..|log| - 1];
    ReplayState(init, id);
    ReplayApart(init);
  }

  /** In a log that replays, two closings of one offer are the same event, two announcements are the same event,
      and the announcement comes first. */
  lemma {:induction false} OncePerOffer(log: seq<Emission>, j: nat, k: nat, id: Id)
    requires Replay(log).Some? && j < |log| && k < |log|
    ensures Closes(log[j], id) && Closes(log[k], id) ==> j == k
    ensures Opens(log[j], id) && Opens(log[k], id) ==> j == k
    ensures Opens(log[j], id) && Closes(log[k], id) ==> j < k
    decreases |log|
  {
    var n := |log| - 1;
    var init := log[..n];
    LastIsNew(log, id);
    if j < n { assert init[j] == log[j]; }
    if k < n { assert init[k] == log[k]; }
    if j < n && k < n {
      OncePerOffer(init, j, k, id);
    }
  }

  /** In every reachable book an offer is live exactly when it was announced and not closed, and archived
      exactly when it was closed; each happened once. */
  lemma BookIsItsLog(s: Book, id: Id)
    requires Inv(s)
    ensures id in s.history <==> SomeCloses(s.log, id)
    ensures id in s.live <==> SomeOpens(s.log, id) && !SomeCloses(s.log, id)
    ensures forall j, k :: 0 <= j < |s.log| && 0 <= k < |s.log| && Closes(s.log[j], id) && Closes(s.log[k], id) ==> j == k
    ensures forall j, k :: 0 <= j < |s.log| && 0 <= k < |s.log| && Opens(s.log[j], id) && Opens(s.log[k], id) ==> j == k
  {
    ReplayState(s.log, id);
    var m := MirrorOf(s.live, s.history);
    assert m.closed.Keys == s.history.Keys && m.open.Keys == s.live.Keys;
    forall j: nat, k: nat | j < |s.log| && k < |s.log|
      ensures Closes(s.log[j], id) && Closes(s.log[k], id) ==> j == k
      ensures Opens(s.log[j], id) && Opens(s.log[k], id) ==> j == k
    {
      OncePerOffer(s.log, j, k, id);
    }
  }

  // ---- The unshielded live set ----

  /** The UTXO an input newly puts in the live set although its spend is already on record. */
  ghost predicate Resurrects(s: Book, i: Input) {
    i.UnshieldedCreated? && !Malformed(i.owner, i.intentHash, i.outputIndex)
    && Utxo(i.owner, i.intentHash, i.outputIndex.value) in s.spends
  }

  /** "In the live set" means "not yet spent" for as long as no create event repeats a spent UTXO, and the
      first such repeat breaks it: unlike nullifiers, the live set does not consult the spend record. */
  lemma LiveSetUnspentExactly(c: Config, s: Book, b: Block, i: Input, id: Id)
    requires s.created.Keys !! s.spends.Keys
    ensures Step(c, s, b, i, id).created.Keys !! Step(c, s, b, i, id).spends.Keys <==> !Resurrects(s, i)
  {
    if i.UnshieldedCreated? {
      if !Malformed(i.owner, i.intentHash, i.outputIndex) {
        CreateUnspentExactly(s, b, Utxo(i.owner, i.intentHash, i.outputIndex.value), i.txHash, i.detail);
      }
    } else if i.UnshieldedSpent? {
      if !Malformed(i.owner, i.intentHash, i.outputIndex) {
        SpendDisjoint(s, b, Utxo(i.owner, i.intentHash, i.outputIndex.value), i.txHash);
      }
    } else {
      OthersKeepUtxos(c, s, b, i, id);
    }
  }

  lemma OthersKeepUtxos(c: Config, s: Book, b: Block, i: Input, id: Id)
    requires !i.UnshieldedCreated? && !i.UnshieldedSpent?
    ensures SameUtxos(s, Step(c, s, b, i, id))
  {
    match i
    case BlobPosted(hash, v, crypto) => BlobKeepsUtxos(c, s, b, hash, v, crypto, id);
    case NullifierSeen(n, tx) => NullifierKeepsUtxos(s, b, n, tx);
    case CommitmentSeen(k, tx, mt) => CommitmentKeepsUtxos(s, b, k, tx, mt);
    case RootSeen(r) => RootKeepsUtxos(c, s, b, r);
    case Cleanup(j, due) => CleanupKeepsUtxos(s, b, j, due);
  }

  predicate SameUtxos(s: Book, t: Book) { t.created == s.created && t.spends == s.spends }

  lemma NullifierKeepsUtxos(s: Book, b: Block, n: string, tx: Option<string>)
    ensures SameUtxos(s, OnNullifier(s, b, n, tx))
  {
    MarkingKeepsKeys(WithSpent(s, b, n, tx), n);
  }

  lemma CleanupKeepsUtxos(s: Book, b: Block, id: Id, due: bool)
    ensures SameUtxos(s, OnCleanup(s, b, id, due))
  {}

  lemma CommitmentKeepsUtxos(s: Book, b: Block, k: string, tx: Option<string>, mt: string)
    ensures SameUtxos(s, OnCommitment(s, b, k, tx, mt))
  {}

  lemma RootKeepsUtxos(c: Config, s: Book, b: Block, r: string)
    ensures SameUtxos(s, OnRoot(c, s, b, r))
  {}

  lemma CreateUnspentExactly(s: Book, b: Block, u: Utxo, txHash: Option<string>, detail: string)
    requires s.created.Keys !! s.spends.Keys
    ensures OnUnshieldedCreate(s, b, u, txHash, detail).created.Keys !! s.spends.Keys <==> u !in s.spends
  {
    assert OnUnshieldedCreate(s, b, u, txHash, detail).created.Keys == s.created.Keys + {u};
  }

  lemma SpendDisjoint(s: Book, b: Block, u: Utxo, txHash: Option<string>)
    requires s.created.Keys !! s.spends.Keys
    ensures OnUnshieldedSpend(s, b, u, txHash).created.Keys !! OnUnshieldedSpend(s, b, u, txHash).spends.Keys
  {}

  lemma BlobKeepsUtxos(c: Config, s: Book, b: Block, hash: string, v: Structural, crypto: Option<string>, id: Id)
    ensures SameUtxos(s, OnBlob(c, s, b, hash, v, crypto, id))
  {
    match Judge(c, s, b, hash, v, crypto)
    case Reject(_, _, _) =>
    case Fail =>
    case Accept(o, t) => AcceptKeepsUtxos(s, b, hash, o, t, id);
  }

  lemma AcceptKeepsUtxos(s: Book, b: Block, hash: string, o: Offer, t: int, id: Id)
    ensures SameUtxos(s, OnAccept(s, b, hash, o, t, id))
  {
    ReconcileKeepsUtxos(s.(live := s.live[id := NewRow(s, b, hash, o, t)]), o.nullifiers, b.time);
  }

  lemma {:induction false} ReconcileKeepsUtxos(s: Book, nullifiers: seq<string>, at: int)
    ensures SameUtxos(s, Reconcile(s, nullifiers, at).0)
    decreases |nullifiers|
  {
    if nullifiers != [] {
      var n := nullifiers[0];
      ReconcileKeepsUtxos(s, nullifiers[1..], at);
      ReconcileKeepsUtxos(Consume(MarkMatched(s, n), WithNullifier(s.live, n), ByNullifier(n), at), nullifiers[1..], at);
    }
  }
}
