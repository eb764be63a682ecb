/** The row ids in use: every input keeps them, and an accepted blob adds the one it was given. */
module OfferBookIds {
  import opened Prelude
  import opened AppEvents
  import opened OfferLiveness
  import opened OfferBook
  import opened OfferBookInvariants

  /** The book with a new row, its scheduled cleanup and its announcement. */
  function Inserted(s: Book, i: Id, row: Row): Book {
    s.(live := s.live[i := row], schedule := s.schedule + {Due(i, row.expiresAt)},
       log := s.log + [Indexed(i, row.hash, row.height, row.gives, row.wants)])
  }

  /** Accepting an offer does exactly that: there is nothing to reconcile. */
  lemma AcceptInserts(s: Book, blk: Block, hash: string, o: Offer, t: int, i: Id)
    requires forall n :: n in o.nullifiers ==> n !in s.nullifiers
    ensures OnAccept(s, blk, hash, o, t, i) == Inserted(s, i, NewRow(s, blk, hash, o, t))
  {
    ReconcileNeverFires(s.(live := s.live[i := NewRow(s, blk, hash, o, t)]), o.nullifiers, blk.time);
  }

  function Ids(s: Book): set<Id> { s.live.Keys + s.history.Keys }

  lemma ArchiveKeepsIds(s: Book, ids: set<Id>, reason: Reason, at: int, e: Emission)
    requires ids <= s.live.Keys
    ensures Ids(Archive(s, ids, reason, at, e)) == Ids(s)
  {
    assert Moved(s.live, ids, reason, at).Keys == ids;
  }

  lemma ConsumeKeepsIds(s: Book, ids: set<Id>, cause: Cause, at: int)
    requires ids <= s.live.Keys
    ensures Ids(Consume(s, ids, cause, at)) == Ids(s)
  {
    if ids != {} { ArchiveKeepsIds(s, ids, CONSUMED, at, Consumed(Hashes(s.live, ids), cause)); }
  }

  lemma NullifierKeepsIds(s: Book, b: Block, n: string, tx: Option<string>)
    ensures Ids(OnNullifier(s, b, n, tx)) == Ids(s)
  {
    var s1 := WithSpent(s, b, n, tx);
    MarkingKeepsKeys(s1, n);
    ConsumeKeepsIds(MarkMatched(s1, n), WithNullifier(s.live, n), ByNullifier(n), b.time);
  }

  lemma SpendKeepsIds(s: Book, b: Block, u: Utxo, tx: Option<string>)
    ensures Ids(OnUnshieldedSpend(s, b, u, tx)) == Ids(s)
  {
    var s1 := s.(spends := FirstWins(s.spends, u, Sighting(b.height, tx, "")), created := s.created - {u});
    ConsumeKeepsIds(s1, WithSpend(s.live, u), BySpend(u), b.time);
  }

  lemma CleanupKeepsIds(s: Book, b: Block, id: Id, due: bool)
    ensures Ids(OnCleanup(s, b, id, due)) == Ids(s)
  {
    if id in s.live && s.live[id].expiresAt <= b.time {
      ArchiveKeepsIds(s, {id}, TTL, b.time, Expired(id, s.live[id].hash));
    }
  }

  lemma AcceptAddsId(s: Book, b: Block, hash: string, o: Offer, t: int, id: Id)
    requires forall n :: n in o.nullifiers ==> n !in s.nullifiers
    ensures Ids(OnAccept(s, b, hash, o, t, id)) == Ids(s) + {id}
  {
    AcceptInserts(s, b, hash, o, t, id);
  }

  predicate IsAccept(d: Decision) { d.Accept? }

  ghost predicate Accepts(c: Config, s: Book, b: Block, i: Input) {
    i.BlobPosted? && IsAccept(Judge(c, s, b, i.hash, i.verdict, i.cryptoFailure))
  }

  /** The ids in use after a step: those before it, and the new row's if an offer was accepted. */
  lemma StepIds(c: Config, s: Book, b: Block, i: Input, id: Id)
    ensures Ids(Step(c, s, b, i, id)) == Ids(s) + if Accepts(c, s, b, i) then {id} else {}
  {
    match i
    case NullifierSeen(n, tx) => NullifierKeepsIds(s, b, n, tx);
    case UnshieldedSpent(owner, hash, no, tx) =>
      if !Malformed(owner, hash, no) { SpendKeepsIds(s, b, Utxo(owner, hash, no.value), tx); }
    case BlobPosted(hash, v, crypto) => BlobIds(c, s, b, hash, v, crypto, id);
    case Cleanup(j, due) => CleanupKeepsIds(s, b, j, due);
    case CommitmentSeen(_, _, _) => ChainTablesOnly(c, s, b, i, id);
    case UnshieldedCreated(_, _, _, _, _) => ChainTablesOnly(c, s, b, i, id);
    case RootSeen(_) => ChainTablesOnly(c, s, b, i, id);
  }

  lemma ChainTablesOnly(c: Config, s: Book, b: Block, i: Input, id: Id)
    requires i.CommitmentSeen? || i.UnshieldedCreated? || i.RootSeen?
    ensures Ids(Step(c, s, b, i, id)) == Ids(s)
  {}

  lemma BlobIds(c: Config, s: Book, b: Block, hash: string, v: Structural, crypto: Option<string>, id: Id)
    ensures Ids(OnBlob(c, s, b, hash, v, crypto, id)) == Ids(s) + if IsAccept(Judge(c, s, b, hash, v, crypto)) then {id} else {}
  {
    match Judge(c, s, b, hash, v, crypto)
    case Reject(_, _, _) =>
    case Fail =>
    case Accept(o, t) =>
      AcceptedExactlyWhen(c, s, b, hash, v, crypto, t);
      AcceptAddsId(s, b, hash, o, t, id);
  }
}
