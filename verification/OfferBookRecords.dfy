/** What the tables and the log remember: the first sighting of everything, who left the book and why, and every
    refusal. */
module OfferBookRecords {
  import opened Prelude
  import opened AppEvents
  import opened OfferExpiry
  import opened OfferLiveness
  import opened OfferBook
  import opened OfferBookInvariants
  import opened OfferBookIds
  import opened OfferBookHistory

  // ---- First sightings ----

  /** What a permanent table keeps a record of. */
  datatype Subject = Nullifier(n: string) | Commit(commitment: string) | Spend(ref: Utxo) | Create(ref: Utxo)

  predicate Shows(i: Input, x: Subject) {
    match x
    case Nullifier(n) => SpendsNullifier(i, n)
    case Commit(k) => i.CommitmentSeen? && i.commitment == k
    case Spend(u) => Spends(i, u)
    case Create(u) => Creates(i, u)
  }

  /** What the event says of it. */
  function Shown(b: Block, i: Input, x: Subject): Sighting
    requires Shows(i, x)
  {
    Sighting(b.height, i.txHash, match x case Commit(_) => i.mtIndex case Create(_) => i.detail case _ => "")
  }

  function Recorded(s: Book, x: Subject): Option<Sighting> {
    match x
    case Nullifier(n) =>
      if n in s.nullifiers then Some(Sighting(s.nullifiers[n].height, s.nullifiers[n].txHash, "")) else None
    case Commit(k) => if k in s.commitments then Some(s.commitments[k]) else None
    case Spend(u) => if u in s.spends then Some(s.spends[u]) else None
    case Create(u) => if u in s.creates then Some(s.creates[u]) else None
  }

  lemma ConsumeKeepsRecord(s: Book, ids: set<Id>, cause: Cause, at: int, x: Subject)
    ensures Recorded(Consume(s, ids, cause, at), x) == Recorded(s, x)
  {}

  lemma MarkKeepsRecord(s: Book, n: string, x: Subject)
    ensures Recorded(MarkMatched(s, n), x) == Recorded(s, x)
  {}

  lemma NullifierRecorded(s: Book, b: Block, n: string, tx: Option<string>, x: Subject)
    ensures Recorded(OnNullifier(s, b, n, tx), x) == FirstStays(Recorded(s, x), b, NullifierSeen(n, tx), x)
  {
    var s1 := WithSpent(s, b, n, tx);
    assert Recorded(s1, x) == FirstStays(Recorded(s, x), b, NullifierSeen(n, tx), x);
    MarkKeepsRecord(s1, n, x);
    ConsumeKeepsRecord(MarkMatched(s1, n), WithNullifier(s.live, n), ByNullifier(n), b.time, x);
  }

  lemma {:induction false} ReconcileKeepsRecord(s: Book, ns: seq<string>, at: int, x: Subject)
    ensures Recorded(Reconcile(s, ns, at).0, x) == Recorded(s, x)
    decreases |ns|
  {
    if ns != [] {
      var s1, ids := MarkMatched(s, ns[0]), WithNullifier(s.live, ns[0]);
      MarkKeepsRecord(s, ns[0], x);
      ConsumeKeepsRecord(s1, ids, ByNullifier(ns[0]), at, x);
      ReconcileKeepsRecord(s, ns[1..], at, x);
      ReconcileKeepsRecord(Consume(s1, ids, ByNullifier(ns[0]), at), ns[1..], at, x);
    }
  }

  lemma BlobKeepsRecord(c: Config, s: Book, b: Block, hash: string, v: Structural, crypto: Option<string>, id: Id, x: Subject)
    ensures Recorded(OnBlob(c, s, b, hash, v, crypto, id), x) == Recorded(s, x)
  {
    match Judge(c, s, b, hash, v, crypto)
    case Reject(_, _, _) =>
    case Fail =>
    case Accept(o, t) =>
      var s1 := s.(live := s.live[id := NewRow(s, b, hash, o, t)]);
      ReconcileKeepsRecord(s1, o.nullifiers, b.time, x);
      assert Recorded(s1, x) == Recorded(s, x);
  }

  lemma SpendRecorded(s: Book, b: Block, u: Utxo, tx: Option<string>, x: Subject)
    ensures Recorded(OnUnshieldedSpend(s, b, u, tx), x)
            == Recorded(s.(spends := FirstWins(s.spends, u, Sighting(b.height, tx, ""))), x)
  {
    var s1 := s.(spends := FirstWins(s.spends, u, Sighting(b.height, tx, "")), created := s.created - {u});
    ConsumeKeepsRecord(s1, WithSpend(s.live, u), BySpend(u), b.time, x);
  }

  lemma CleanupKeepsRecord(s: Book, b: Block, id: Id, due: bool, x: Subject)
    ensures Recorded(OnCleanup(s, b, id, due), x) == Recorded(s, x)
  {}

  lemma RootKeepsRecord(c: Config, s: Book, b: Block, r: string, x: Subject)
    ensures Recorded(OnRoot(c, s, b, r), x) == Recorded(s, x)
  {}

  lemma StepRecorded(c: Config, s: Book, b: Block, i: Input, id: Id, x: Subject)
    ensures Recorded(Step(c, s, b, i, id), x) == FirstStays(Recorded(s, x), b, i, x)
  {
    match i
    case NullifierSeen(n, tx) => NullifierRecorded(s, b, n, tx, x);
    case UnshieldedSpent(_, _, _, _) => SpendStep(c, s, b, i, id, x);
    case BlobPosted(hash, v, crypto) => BlobKeepsRecord(c, s, b, hash, v, crypto, id, x);
    case CommitmentSeen(k, tx, mt) => CommitmentRecorded(s, b, k, tx, mt, x);
    case UnshieldedCreated(_, _, _, _, _) => CreateStep(c, s, b, i, id, x);
    case RootSeen(r) => RootKeepsRecord(c, s, b, r, x);
    case Cleanup(j, due) => CleanupKeepsRecord(s, b, j, due, x);
  }

  /** What is on record stays; what is not is recorded as the input shows it. */
  function FirstStays(before: Option<Sighting>, b: Block, i: Input, x: Subject): Option<Sighting> {
    if before.Some? then before else if Shows(i, x) then Some(Shown(b, i, x)) else None
  }

  lemma SpendStep(c: Config, s: Book, b: Block, i: Input, id: Id, x: Subject)
    requires i.UnshieldedSpent?
    ensures Recorded(Step(c, s, b, i, id), x) == FirstStays(Recorded(s, x), b, i, x)
  {
    if !Malformed(i.owner, i.intentHash, i.outputIndex) {
      SpendRecorded(s, b, Utxo(i.owner, i.intentHash, i.outputIndex.value), i.txHash, x);
    }
  }

  lemma CreateStep(c: Config, s: Book, b: Block, i: Input, id: Id, x: Subject)
    requires i.UnshieldedCreated?
    ensures Recorded(Step(c, s, b, i, id), x) == FirstStays(Recorded(s, x), b, i, x)
  {
    if !Malformed(i.owner, i.intentHash, i.outputIndex) {
      CreateRecorded(s, b, Utxo(i.owner, i.intentHash, i.outputIndex.value), i.txHash, i.detail, x);
    }
  }

  lemma CreateRecorded(s: Book, b: Block, u: Utxo, tx: Option<string>, detail: string, x: Subject)
    ensures Recorded(OnUnshieldedCreate(s, b, u, tx, detail), x)
            == if x == Create(u) && Recorded(s, x).None? then Some(Sighting(b.height, tx, detail)) else Recorded(s, x)
  {}

  lemma CommitmentRecorded(s: Book, b: Block, k: string, tx: Option<string>, mt: string, x: Subject)
    ensures Recorded(OnCommitment(s, b, k, tx, mt), x) == FirstStays(Recorded(s, x), b, CommitmentSeen(k, tx, mt), x)
  {}

  ghost predicate FirstShown(es: seq<Event>, k: int, x: Subject) {
    0 <= k < |es| && Shows(es[k].input, x) && forall j :: 0 <= j < k ==> !Shows(es[j].input, x)
  }

  /** `r` is what the first event that shows `x` says of it. */
  ghost predicate IsFirst(es: seq<Event>, r: Option<Sighting>, x: Subject) {
    match r
    case None => forall k :: 0 <= k < |es| ==> !Shows(es[k].input, x)
    case Some(v) => exists k :: FirstShown(es, k, x) && v == Shown(es[k].block, es[k].input, x)
  }

  lemma FirstSnoc(es: seq<Event>, before: Option<Sighting>, x: Subject)
    requires es != [] && IsFirst(es[..|es| - 1], before, x)
    ensures IsFirst(es, FirstStays(before, es[|es| - 1].block, es[|es| - 1].input, x), x)
  {
    var n := |es| - 1;
    var init := es[..n];
    assert forall j :: 0 <= j < n ==> init[j] == es[j];
    if before.Some? {
      var k :| FirstShown(init, k, x) && before.value == Shown(init[k].block, init[k].input, x);
      assert FirstShown(es, k, x);
    } else {
      assert Shows(es[n].input, x) ==> FirstShown(es, n, x);
    }
  }

  /** After any run every table holds exactly what it was shown, as its first event showed it: a repeat changes neither the
      height nor the transaction. */
  lemma {:induction false} RunRecorded(c: Config, es: seq<Event>, x: Subject)
    ensures IsFirst(es, Recorded(Run(c, Empty, es), x), x)
  {
    if es != [] {
      var n := |es| - 1;
      var init := es[..n];
      RunRecorded(c, init, x);
      RunSnoc(c, Empty, es);
      StepRecorded(c, Run(c, Empty, init), es[n].block, es[n].input, es[n].nextId, x);
      FirstSnoc(es, Recorded(Run(c, Empty, init), x), x);
    }
  }

  // ---- Who leaves the book, and why ----

  /** The input ends the offer. */
  predicate Ends(s: Book, b: Block, i: Input, id: Id, reason: Reason) {
    && id in s.live
    && match i
       case NullifierSeen(n, _) => n in s.live[id].nullifiers && reason == CONSUMED
       case UnshieldedSpent(owner, hash, no, _) =>
         owner != "" && hash != "" && no.Some? && Utxo(owner, hash, no.value) in s.live[id].spends && reason == CONSUMED
       case Cleanup(j, _) => j == id && s.live[id].expiresAt <= b.time && reason == TTL
       case _ => false
  }

  /** Exactly the offers that the input ends go to the history, at the time of its block and with its reason; every other
      offer stays as it is. */
  ghost predicate LeaveExactly(s: Book, b: Block, i: Input, later: Book) {
    && (forall id, reason :: Ends(s, b, i, id, reason) ==>
          id !in later.live && id in later.history && later.history[id] == Archived(s.live[id], reason, b.time))
    && (forall id :: id in s.live && !Ends(s, b, i, id, CONSUMED) && !Ends(s, b, i, id, TTL) ==>
          id in later.live && later.live[id] == s.live[id] && id !in later.history)
    && (forall id :: id in s.history ==> id in later.history && later.history[id] == s.history[id])
    && (forall id :: id in later.history ==> id in s.history || Ends(s, b, i, id, later.history[id].reason))
  }

  lemma MovedExactly(s: Book, b: Block, i: Input, later: Book, ids: set<Id>, reason: Reason)
    requires s.live.Keys !! s.history.Keys && ids <= s.live.Keys
    requires later.live == s.live - ids && later.history == s.history + Moved(s.live, ids, reason, b.time)
    requires forall id, r :: Ends(s, b, i, id, r) <==> id in ids && r == reason
    ensures LeaveExactly(s, b, i, later)
  {
    assert forall id :: id in ids ==> Ends(s, b, i, id, reason);
  }

  lemma NoneLeave(s: Book, b: Block, i: Input, later: Book)
    requires s.live.Keys !! s.history.Keys && later.history == s.history
    requires forall id :: id in s.live ==> id in later.live && later.live[id] == s.live[id]
    requires forall id, r :: !Ends(s, b, i, id, r)
    ensures LeaveExactly(s, b, i, later)
  {}

  lemma ConsumedLeave(s: Book, ids: set<Id>, cause: Cause, at: int)
    requires ids <= s.live.Keys
    ensures
      var t := Consume(s, ids, cause, at);
      && t.live == s.live - ids && t.history == s.history + Moved(s.live, ids, CONSUMED, at)
      && t.log == if ids == {} then s.log else s.log + [Consumed(Hashes(s.live, ids), cause)]
  {
    if ids == {} { assert s.live - ids == s.live && s.history + Moved(s.live, ids, CONSUMED, at) == s.history; }
  }

  lemma BlobLeaves(c: Config, s: Book, b: Block, hash: string, v: Structural, crypto: Option<string>, id: Id)
    requires id !in s.live && id !in s.history && s.live.Keys !! s.history.Keys
    ensures LeaveExactly(s, b, BlobPosted(hash, v, crypto), OnBlob(c, s, b, hash, v, crypto, id))
  {
    match Judge(c, s, b, hash, v, crypto)
    case Accept(o, t) =>
      AcceptedExactlyWhen(c, s, b, hash, v, crypto, t);
      AcceptLeaves(s, b, BlobPosted(hash, v, crypto), o, t, id);
    case Fail => NoneLeave(s, b, BlobPosted(hash, v, crypto), s);
    case Reject(code, h, active) => NoneLeave(s, b, BlobPosted(hash, v, crypto), OnReject(s, b, code, h, active));
  }

  lemma AcceptLeaves(s: Book, b: Block, i: Input, o: Offer, t: int, id: Id)
    requires i.BlobPosted? && id !in s.live && id !in s.history && s.live.Keys !! s.history.Keys
    requires forall n :: n in o.nullifiers ==> n !in s.nullifiers
    ensures LeaveExactly(s, b, i, OnAccept(s, b, i.hash, o, t, id))
  {
    ReconcileNeverFires(s.(live := s.live[id := NewRow(s, b, i.hash, o, t)]), o.nullifiers, b.time);
    NoneLeave(s, b, i, OnAccept(s, b, i.hash, o, t, id));
  }

  lemma NullifierIs(s: Book, b: Block, n: string, tx: Option<string>)
    ensures
      var ids := WithNullifier(s.live, n);
      var t := OnNullifier(s, b, n, tx);
      && t.live == s.live - ids && t.history == s.history + Moved(s.live, ids, CONSUMED, b.time)
      && t.log == if ids == {} then s.log else s.log + [Consumed(Hashes(s.live, ids), ByNullifier(n))]
  {
    var s1, ids := WithSpent(s, b, n, tx), WithNullifier(s.live, n);
    ConsumedLeave(s1, ids, ByNullifier(n), b.time);
    ConsumedLeave(MarkMatched(s1, n), ids, ByNullifier(n), b.time);
  }

  lemma NullifierLeaves(s: Book, b: Block, n: string, tx: Option<string>)
    requires s.live.Keys !! s.history.Keys
    ensures LeaveExactly(s, b, NullifierSeen(n, tx), OnNullifier(s, b, n, tx))
  {
    NullifierIs(s, b, n, tx);
    MovedExactly(s, b, NullifierSeen(n, tx), OnNullifier(s, b, n, tx), WithNullifier(s.live, n), CONSUMED);
  }

  lemma SpendLeaves(s: Book, b: Block, owner: string, hash: string, no: Option<int>, tx: Option<string>)
    requires s.live.Keys !! s.history.Keys && !Malformed(owner, hash, no)
    ensures LeaveExactly(s, b, UnshieldedSpent(owner, hash, no, tx), OnUnshieldedSpend(s, b, Utxo(owner, hash, no.value), tx))
  {
    var u := Utxo(owner, hash, no.value);
    var s1 := s.(spends := FirstWins(s.spends, u, Sighting(b.height, tx, "")), created := s.created - {u});
    ConsumedLeave(s1, WithSpend(s.live, u), BySpend(u), b.time);
    MovedExactly(s, b, UnshieldedSpent(owner, hash, no, tx), OnUnshieldedSpend(s, b, u, tx), WithSpend(s.live, u), CONSUMED);
  }

  lemma CleanupIs(s: Book, b: Block, id: Id, due: bool)
    ensures
      var t := OnCleanup(s, b, id, due);
      if id in s.live && s.live[id].expiresAt <= b.time then
        && t.live == s.live - {id} && t.history == s.history + Moved(s.live, {id}, TTL, b.time)
        && t.log == s.log + [Expired(id, s.live[id].hash)]
      else t.live == s.live && t.history == s.history && t.log == s.log
    ensures OnCleanup(s, b, id, due).nullifiers == s.nullifiers
  {}

  lemma CleanupLeaves(s: Book, b: Block, id: Id, due: bool)
    requires s.live.Keys !! s.history.Keys
    ensures LeaveExactly(s, b, Cleanup(id, due), OnCleanup(s, b, id, due))
  {
    CleanupIs(s, b, id, due);
    if id in s.live && s.live[id].expiresAt <= b.time {
      MovedExactly(s, b, Cleanup(id, due), OnCleanup(s, b, id, due), {id}, TTL);
    } else {
      NoneLeave(s, b, Cleanup(id, due), OnCleanup(s, b, id, due));
    }
  }

  lemma StepLeaves(c: Config, s: Book, b: Block, i: Input, id: Id)
    requires Enabled(s, b, i, id) && s.live.Keys !! s.history.Keys
    ensures LeaveExactly(s, b, i, Step(c, s, b, i, id))
  {
    match i
    case NullifierSeen(n, tx) => NullifierLeaves(s, b, n, tx);
    case UnshieldedSpent(owner, hash, no, tx) =>
      if Malformed(owner, hash, no) { NoneLeave(s, b, i, s); } else { SpendLeaves(s, b, owner, hash, no, tx); }
    case BlobPosted(hash, v, crypto) => BlobLeaves(c, s, b, hash, v, crypto, id);
    case Cleanup(j, due) => CleanupLeaves(s, b, j, due);
    case CommitmentSeen(_, _, _) => ObservationLeaves(c, s, b, i, id);
    case UnshieldedCreated(_, _, _, _, _) => ObservationLeaves(c, s, b, i, id);
    case RootSeen(_) => ObservationLeaves(c, s, b, i, id);
  }

  lemma ObservationLeaves(c: Config, s: Book, b: Block, i: Input, id: Id)
    requires (i.CommitmentSeen? || i.UnshieldedCreated? || i.RootSeen?) && s.live.Keys !! s.history.Keys
    ensures LeaveExactly(s, b, i, Step(c, s, b, i, id))
  {
    NoneLeave(s, b, i, Step(c, s, b, i, id));
  }

  // ---- What the log says about it ----

  /** The cause a consuming input names. */
  function CauseOf(i: Input): Option<Cause> {
    match i
    case NullifierSeen(n, _) => Some(ByNullifier(n))
    case UnshieldedSpent(owner, hash, no, _) => if Malformed(owner, hash, no) then None else Some(BySpend(Utxo(owner, hash, no.value)))
    case _ => None
  }

  /** A group of consumed offers names the input as its cause and every ended offer with its hash; an input that ends
      nothing publishes no such group. */
  ghost predicate TellsEnds(s: Book, b: Block, i: Input, later: Book) {
    if exists id :: Ends(s, b, i, id, CONSUMED) then
      CauseOf(i).Some? && exists rows :: later.log == s.log + [Consumed(rows, CauseOf(i).value)] && NamesEnded(s, b, i, rows)
    else if exists id :: Ends(s, b, i, id, TTL) then
      exists id :: Ends(s, b, i, id, TTL) && later.log == s.log + [Expired(id, s.live[id].hash)]
    else i.BlobPosted? || later.log == s.log
  }

  ghost predicate NamesEnded(s: Book, b: Block, i: Input, rows: map<Id, string>) {
    forall id :: (id in rows <==> Ends(s, b, i, id, CONSUMED)) && (id in rows ==> rows[id] == s.live[id].hash)
  }

  lemma GroupTells(s: Book, b: Block, i: Input, later: Book, ids: set<Id>)
    requires CauseOf(i).Some? && ids <= s.live.Keys
    requires later.log == if ids == {} then s.log else s.log + [Consumed(Hashes(s.live, ids), CauseOf(i).value)]
    requires forall id, r :: Ends(s, b, i, id, r) <==> id in ids && r == CONSUMED
    ensures TellsEnds(s, b, i, later)
  {
    if ids != {} {
      var id :| id in ids;
      assert Ends(s, b, i, id, CONSUMED);
      assert NamesEnded(s, b, i, Hashes(s.live, ids));
    } else {
      assert forall id :: !Ends(s, b, i, id, CONSUMED) && !Ends(s, b, i, id, TTL);
    }
  }

  lemma StepTells(c: Config, s: Book, b: Block, i: Input, id: Id)
    ensures TellsEnds(s, b, i, Step(c, s, b, i, id))
  {
    match i
    case NullifierSeen(n, tx) => NullifierTells(s, b, n, tx);
    case UnshieldedSpent(_, _, _, _) => SpendTells(c, s, b, i, id);
    case Cleanup(j, due) => CleanupTells(s, b, j, due);
    case BlobPosted(_, _, _) => NothingEnds(s, b, i, Step(c, s, b, i, id));
    case CommitmentSeen(_, _, _) => NothingEnds(s, b, i, Step(c, s, b, i, id));
    case UnshieldedCreated(_, _, _, _, _) => NothingEnds(s, b, i, Step(c, s, b, i, id));
    case RootSeen(_) => NothingEnds(s, b, i, Step(c, s, b, i, id));
  }

  lemma NothingEnds(s: Book, b: Block, i: Input, later: Book)
    requires (forall id, r :: !Ends(s, b, i, id, r)) && (i.BlobPosted? || later.log == s.log)
    ensures TellsEnds(s, b, i, later)
  {}

  lemma NullifierTells(s: Book, b: Block, n: string, tx: Option<string>)
    ensures TellsEnds(s, b, NullifierSeen(n, tx), OnNullifier(s, b, n, tx))
  {
    NullifierIs(s, b, n, tx);
    GroupTells(s, b, NullifierSeen(n, tx), OnNullifier(s, b, n, tx), WithNullifier(s.live, n));
  }

  lemma SpendTells(c: Config, s: Book, b: Block, i: Input, id: Id)
    requires i.UnshieldedSpent?
    ensures TellsEnds(s, b, i, Step(c, s, b, i, id))
  {
    if Malformed(i.owner, i.intentHash, i.outputIndex) {
      NothingEnds(s, b, i, s);
    } else {
      var u := Utxo(i.owner, i.intentHash, i.outputIndex.value);
      var s1 := s.(spends := FirstWins(s.spends, u, Sighting(b.height, i.txHash, "")), created := s.created - {u});
      ConsumedLeave(s1, WithSpend(s.live, u), BySpend(u), b.time);
      GroupTells(s, b, i, OnUnshieldedSpend(s, b, u, i.txHash), WithSpend(s.live, u));
    }
  }

  lemma CleanupTells(s: Book, b: Block, id: Id, due: bool)
    ensures TellsEnds(s, b, Cleanup(id, due), OnCleanup(s, b, id, due))
  {
    CleanupIs(s, b, id, due);
    if id in s.live && s.live[id].expiresAt <= b.time {
      assert Ends(s, b, Cleanup(id, due), id, TTL);
    } else {
      NothingEnds(s, b, Cleanup(id, due), OnCleanup(s, b, id, due));
    }
  }

  // ---- Matched nullifiers ----

  ghost predicate Names(log: seq<Emission>, n: string) {
    exists k :: 0 <= k < |log| && log[k].Consumed? && log[k].cause == ByNullifier(n)
  }

  /** A nullifier is marked as matched exactly when some group of the log names it as its cause. */
  ghost predicate MatchesExact(s: Book) {
    forall n :: Names(s.log, n) <==> Marked(s, n)
  }

  predicate Marked(s: Book, n: string) { n in s.nullifiers && s.nullifiers[n].matched }

  lemma NamesSnoc(log: seq<Emission>, e: Emission, n: string)
    ensures Names(log + [e], n) <==> Names(log, n) || (e.Consumed? && e.cause == ByNullifier(n))
  {
    var all := log + [e];
    assert all[|log|] == e && forall k :: 0 <= k < |log| ==> all[k] == log[k];
    if k :| 0 <= k < |log| && log[k].Consumed? && log[k].cause == ByNullifier(n) { assert all[k] == log[k]; }
  }

  lemma MatchesKept(s: Book, t: Book)
    requires MatchesExact(s) && t.nullifiers == s.nullifiers
    requires t.log == s.log || exists e :: t.log == s.log + [e] && (e.Consumed? ==> e.cause.BySpend?)
    ensures MatchesExact(t)
  {
    if t.log != s.log {
      var e :| t.log == s.log + [e] && (e.Consumed? ==> e.cause.BySpend?);
      forall n ensures Names(t.log, n) <==> Names(s.log, n) { NamesSnoc(s.log, e, n); }
    }
  }

  lemma NullifierMatches(s: Book, b: Block, n: string, tx: Option<string>)
    requires MatchesExact(s)
    ensures MatchesExact(OnNullifier(s, b, n, tx))
  {
    var t := OnNullifier(s, b, n, tx);
    NullifierIs(s, b, n, tx);
    forall x ensures Names(t.log, x) <==> Marked(t, x) {
      MarkedAfter(s, b, n, tx, x);
      NamesSnoc(s.log, Consumed(Hashes(s.live, WithNullifier(s.live, n)), ByNullifier(n)), x);
    }
  }

  lemma MarkedAfter(s: Book, b: Block, n: string, tx: Option<string>, x: string)
    ensures Marked(OnNullifier(s, b, n, tx), x) <==> Marked(s, x) || (x == n && WithNullifier(s.live, n) != {})
  {
    var s1, ids := WithSpent(s, b, n, tx), WithNullifier(s.live, n);
    SightingMarksNone(s, b, n, tx, x);
    MarksOne(s1, n, x);
    ConsumeKeepsMarks(MarkMatched(s1, n), ids, ByNullifier(n), b.time);
    assert OnNullifier(s, b, n, tx) == if ids == {} then s1 else Consume(MarkMatched(s1, n), ids, ByNullifier(n), b.time);
  }

  lemma SightingMarksNone(s: Book, b: Block, n: string, tx: Option<string>, x: string)
    ensures Marked(WithSpent(s, b, n, tx), x) <==> Marked(s, x)
    ensures n in WithSpent(s, b, n, tx).nullifiers
  {}

  lemma MarksOne(s: Book, n: string, x: string)
    requires n in s.nullifiers
    ensures Marked(MarkMatched(s, n), x) <==> Marked(s, x) || x == n
  {}

  lemma ConsumeKeepsMarks(s: Book, ids: set<Id>, cause: Cause, at: int)
    ensures Consume(s, ids, cause, at).nullifiers == s.nullifiers
  {}

  lemma StepMatches(c: Config, s: Book, b: Block, i: Input, id: Id)
    requires MatchesExact(s)
    ensures MatchesExact(Step(c, s, b, i, id))
  {
    match i
    case NullifierSeen(n, tx) => NullifierMatches(s, b, n, tx);
    case UnshieldedSpent(owner, hash, no, tx) =>
      if !Malformed(owner, hash, no) { SpendMatches(s, b, Utxo(owner, hash, no.value), tx); }
    case BlobPosted(hash, v, crypto) => BlobMatches(c, s, b, hash, v, crypto, id);
    case Cleanup(j, due) => CleanupMatches(s, b, j, due);
    case CommitmentSeen(_, _, _) =>
    case UnshieldedCreated(_, _, _, _, _) =>
    case RootSeen(_) =>
  }

  lemma SpendMatches(s: Book, b: Block, u: Utxo, tx: Option<string>)
    requires MatchesExact(s)
    ensures MatchesExact(OnUnshieldedSpend(s, b, u, tx))
  {
    var s1 := s.(spends := FirstWins(s.spends, u, Sighting(b.height, tx, "")), created := s.created - {u});
    ConsumedLeave(s1, WithSpend(s.live, u), BySpend(u), b.time);
    MatchesKept(s, OnUnshieldedSpend(s, b, u, tx));
  }

  lemma CleanupMatches(s: Book, b: Block, id: Id, due: bool)
    requires MatchesExact(s)
    ensures MatchesExact(OnCleanup(s, b, id, due))
  {
    CleanupIs(s, b, id, due);
    MatchesKept(s, OnCleanup(s, b, id, due));
  }

  lemma BlobMatches(c: Config, s: Book, b: Block, hash: string, v: Structural, crypto: Option<string>, id: Id)
    requires MatchesExact(s)
    ensures MatchesExact(OnBlob(c, s, b, hash, v, crypto, id))
  {
    var t := OnBlob(c, s, b, hash, v, crypto, id);
    match Judge(c, s, b, hash, v, crypto)
    case Reject(code, h, active) =>
      assert t.log == s.log + [Rejected(code, h, active, b.height)];
      MatchesKept(s, t);
    case Fail =>
    case Accept(o, x) =>
      AcceptedExactlyWhen(c, s, b, hash, v, crypto, x);
      ReconcileNeverFires(s.(live := s.live[id := NewRow(s, b, hash, o, x)]), o.nullifiers, b.time);
      assert t.log == s.log + [Indexed(id, hash, b.height, o.gives, o.wants)];
      MatchesKept(s, t);
  }

  lemma {:induction false} RunMatches(c: Config, es: seq<Event>)
    ensures MatchesExact(Run(c, Empty, es))
  {
    if es != [] {
      var n := |es| - 1;
      RunMatches(c, es[..n]);
      RunSnoc(c, Empty, es);
      StepMatches(c, Run(c, Empty, es[..n]), es[n].block, es[n].input, es[n].nextId);
    }
  }

  // ---- Refusals ----

  /** How many refusals of this height and code the log holds. */
  function Refusals(log: seq<Emission>, height: int, code: string): nat {
    if log == [] then 0 else
    var e := log[|log| - 1];
    Refusals(log[..|log| - 1], height, code) + if e.Rejected? && e.height == height && e.code == code then 1 else 0
  }

  function Counter(s: Book, height: int, code: string): nat {
    if (height, code) in s.rejections then s.rejections[(height, code)] else 0
  }

  lemma RefusalsSnoc(log: seq<Emission>, e: Emission, height: int, code: string)
    ensures Refusals(log + [e], height, code)
            == Refusals(log, height, code) + if e.Rejected? && e.height == height && e.code == code then 1 else 0
  {
    assert (log + [e])[..|log|] == log;
  }

  lemma StepCounts(c: Config, s: Book, b: Block, i: Input, id: Id, height: int, code: string)
    requires Counter(s, height, code) == Refusals(s.log, height, code)
    ensures Counter(Step(c, s, b, i, id), height, code) == Refusals(Step(c, s, b, i, id).log, height, code)
  {
    var t := Step(c, s, b, i, id);
    if i.BlobPosted? {
      BlobCounts(c, s, b, i.hash, i.verdict, i.cryptoFailure, id, height, code);
    } else {
      StepTells(c, s, b, i, id);
      if t.log != s.log {
        var e := t.log[|s.log|];
        assert t.log == s.log + [e] && !e.Rejected?;
        RefusalsSnoc(s.log, e, height, code);
      }
      CounterKept(c, s, b, i, id);
    }
  }

  predicate SameCounter(s: Book, t: Book) { t.rejections == s.rejections }

  predicate SamePlans(s: Book, t: Book) { t.schedule == s.schedule }

  lemma CounterKept(c: Config, s: Book, b: Block, i: Input, id: Id)
    requires !i.BlobPosted?
    ensures SameCounter(s, Step(c, s, b, i, id))
    ensures !i.Cleanup? ==> SamePlans(s, Step(c, s, b, i, id))
  {
    match i
    case NullifierSeen(n, tx) => NullifierKeepsCounter(s, b, n, tx);
    case UnshieldedSpent(owner, hash, no, tx) =>
      if Malformed(owner, hash, no) {
        assert Step(c, s, b, i, id) == s;
      } else {
        SpendKeepsCounter(s, b, Utxo(owner, hash, no.value), tx);
      }
    case Cleanup(j, due) => CleanupKeepsCounter(s, b, j, due);
    case _ => QuietKeepsCounter(c, s, b, i, id);
  }

  lemma QuietKeepsCounter(c: Config, s: Book, b: Block, i: Input, id: Id)
    requires i.CommitmentSeen? || i.UnshieldedCreated? || i.RootSeen?
    ensures SameCounter(s, Step(c, s, b, i, id)) && SamePlans(s, Step(c, s, b, i, id))
  {}

  lemma NullifierKeepsCounter(s: Book, b: Block, n: string, tx: Option<string>)
    ensures SameCounter(s, OnNullifier(s, b, n, tx)) && SamePlans(s, OnNullifier(s, b, n, tx))
  {
    var s1 := WithSpent(s, b, n, tx);
    assert SameCounter(s, MarkMatched(s1, n)) && SamePlans(s, MarkMatched(s1, n));
    ConsumeKeepsCounter(MarkMatched(s1, n), WithNullifier(s.live, n), ByNullifier(n), b.time);
  }

  lemma SpendKeepsCounter(s: Book, b: Block, u: Utxo, tx: Option<string>)
    ensures SameCounter(s, OnUnshieldedSpend(s, b, u, tx)) && SamePlans(s, OnUnshieldedSpend(s, b, u, tx))
  {
    var s1 := s.(spends := FirstWins(s.spends, u, Sighting(b.height, tx, "")), created := s.created - {u});
    ConsumeKeepsCounter(s1, WithSpend(s.live, u), BySpend(u), b.time);
  }

  lemma CleanupKeepsCounter(s: Book, b: Block, id: Id, due: bool)
    ensures SameCounter(s, OnCleanup(s, b, id, due))
  {}

  lemma ConsumeKeepsCounter(s: Book, ids: set<Id>, cause: Cause, at: int)
    ensures SameCounter(s, Consume(s, ids, cause, at)) && SamePlans(s, Consume(s, ids, cause, at))
  {}

  lemma BlobCounts(c: Config, s: Book, b: Block, hash: string, v: Structural, crypto: Option<string>, id: Id, height: int, code: string)
    requires Counter(s, height, code) == Refusals(s.log, height, code)
    ensures
      var t := OnBlob(c, s, b, hash, v, crypto, id);
      Counter(t, height, code) == Refusals(t.log, height, code)
  {
    match Judge(c, s, b, hash, v, crypto)
    case Reject(x, h, active) => RefusalsSnoc(s.log, Rejected(x, h, active, b.height), height, code);
    case Fail =>
    case Accept(o, t) =>
      AcceptedExactlyWhen(c, s, b, hash, v, crypto, t);
      ReconcileNeverFires(s.(live := s.live[id := NewRow(s, b, hash, o, t)]), o.nullifiers, b.time);
      RefusalsSnoc(s.log, Indexed(id, hash, b.height, o.gives, o.wants), height, code);
  }

  // ---- The pending cleanups ----

  predicate Fires(i: Input, d: Due) { i.Cleanup? && i.due && i.id == d.id }

  ghost predicate Plans(c: Config, s: Book, b: Block, i: Input, id: Id, d: Due) {
    i.BlobPosted? && d.id == id && exists o :: Judge(c, s, b, i.hash, i.verdict, i.cryptoFailure) == Accept(o, d.at)
  }

  /** A cleanup is pending from the indexing of its offer, for the stored expiry, until it fires; nothing else schedules or
      drops one, also not the end of the offer. */
  lemma StepSchedules(c: Config, s: Book, b: Block, i: Input, id: Id, d: Due)
    ensures d in Step(c, s, b, i, id).schedule <==> (d in s.schedule && !Fires(i, d)) || Plans(c, s, b, i, id, d)
  {
    if i.BlobPosted? {
      BlobSchedules(c, s, b, i.hash, i.verdict, i.cryptoFailure, id);
    } else if i.Cleanup? {
      CleanupSchedules(s, b, i.id, i.due);
    } else {
      CounterKept(c, s, b, i, id);
    }
  }

  lemma CleanupSchedules(s: Book, b: Block, id: Id, due: bool)
    ensures OnCleanup(s, b, id, due).schedule == if due then Without(s.schedule, id) else s.schedule
  {}

  lemma BlobSchedules(c: Config, s: Book, b: Block, hash: string, v: Structural, crypto: Option<string>, id: Id)
    ensures
      OnBlob(c, s, b, hash, v, crypto, id).schedule ==
      match Judge(c, s, b, hash, v, crypto) case Accept(_, t) => s.schedule + {Due(id, t)} case _ => s.schedule
  {
    match Judge(c, s, b, hash, v, crypto)
    case Reject(_, _, _) =>
    case Fail =>
    case Accept(o, t) =>
      AcceptedExactlyWhen(c, s, b, hash, v, crypto, t);
      ReconcileNeverFires(s.(live := s.live[id := NewRow(s, b, hash, o, t)]), o.nullifiers, b.time);
  }

  // ---- The counter over a run ----

  /** After any run the counter of a height and code is the number of refusals the log holds of them. */
  lemma {:induction false} RunCounts(c: Config, es: seq<Event>, height: int, code: string)
    ensures Counter(Run(c, Empty, es), height, code) == Refusals(Run(c, Empty, es).log, height, code)
  {
    if es != [] {
      var n := |es| - 1;
      RunCounts(c, es[..n], height, code);
      RunSnoc(c, Empty, es);
      StepCounts(c, Run(c, Empty, es[..n]), es[n].block, es[n].input, es[n].nextId, height, code);
    }
  }

  /** A refusal changes only the counter and the log. The event names the refused offer by its hash, unless the blob was
      not even an offer, and an active offer only for a marker conflict: one that claims a marker of the refused one. */
  lemma RefusalIsTold(c: Config, s: Book, b: Block, hash: string, v: Structural, crypto: Option<string>, id: Id)
    requires Judge(c, s, b, hash, v, crypto).Reject?
    ensures
      var t := OnBlob(c, s, b, hash, v, crypto, id);
      t == s.(rejections := t.rejections, log := t.log)
      && exists e :: t.log == s.log + [e] && TellsRefusal(c, s, b, hash, v, crypto, e)
  {
    var d := Judge(c, s, b, hash, v, crypto);
    var e := Rejected(d.code, d.hash, d.active, b.height);
    assert OnBlob(c, s, b, hash, v, crypto, id).log == s.log + [e];

    if v.WellFormed? {
      RefusalOrder(c, s, b, hash, v.offer, crypto);
      FirstIncumbentNone(s.live, DeclaredMarkers(v.offer));
      VerdictOrder(FactsOf(s), v.offer.nullifiers, v.offer.spends, v.offer.roots, b.time - c.rootWindow * 1000);
    }
    assert TellsRefusal(c, s, b, hash, v, crypto, e);
  }

  ghost predicate TellsRefusal(c: Config, s: Book, b: Block, hash: string, v: Structural, crypto: Option<string>, e: Emission) {
    && e.Rejected? && e.height == b.height && e.rejected == (if v.WellFormed? then Some(hash) else None)
    && (v.Refused? ==> e.code == v.code && e.active == None)
    && (e.active.Some? <==> IsConflict(c, s, b, hash, v, crypto))
    && (e.active.Some? ==> e.code == "DUPLICATE_MARKERS" && ClaimedBy(s.live, DeclaredMarkers(v.offer), e.active.value))
  }

  /** The offer passes every other check and claims a taken marker. */
  ghost predicate IsConflict(c: Config, s: Book, b: Block, hash: string, v: Structural, crypto: Option<string>) {
    && v.WellFormed? && !HashKnown(s, hash) && Spendable(c, s, b, v.offer) && crypto.None?
    && !Unclaimed(s.live, DeclaredMarkers(v.offer))
  }
}
