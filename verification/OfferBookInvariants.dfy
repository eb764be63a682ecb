/** What every input keeps true of the offer book, and what follows for every run. */
module OfferBookInvariants {
  import opened Prelude
  import opened AppEvents
  import opened OfferExpiry
  import opened OfferLiveness
  import opened OfferBook

  // ---- The invariant ----

  /** Every offer ever indexed, live or archived. */
  ghost function Rows(live: map<Id, Row>, history: map<Id, Archived>): map<Id, Row> {
    map id | id in live.Keys + history.Keys :: if id in live then live[id] else history[id].row
  }

  ghost predicate HashesUnique(rows: map<Id, Row>) {
    forall i, j :: i in rows && j in rows && rows[i].hash == rows[j].hash ==> i == j
  }

  /** The stored lifetime is derived from the stored expiry. */
  ghost predicate LifetimesExact(rows: map<Id, Row>) {
    forall id :: id in rows ==> rows[id].ttlSeconds == OfferLifetimeSeconds(rows[id].expiresAt, rows[id].createdAt)
  }

  /** No live offer uses a spent nullifier. */
  ghost predicate Unspent(live: map<Id, Row>, spent: set<string>) {
    forall id, n :: id in live && n in live[id].nullifiers ==> n !in spent
  }

  /** Every unshielded input of a live offer is in the created live set. */
  ghost predicate Backed(live: map<Id, Row>, created: set<Utxo>) {
    forall id, u :: id in live && u in live[id].spends ==> u in created
  }

  /** No two live offers claim a common marker. */
  ghost predicate MarkersDisjoint(live: map<Id, Row>) {
    forall i, j, m :: i in live && j in live && Claims(live[i], m) && Claims(live[j], m) ==> i == j
  }

  /** Every live offer has a cleanup pending at exactly its stored expiry. */
  ghost predicate CleanupPending(live: map<Id, Row>, schedule: set<Due>) {
    forall id :: id in live ==> Due(id, live[id].expiresAt) in schedule
  }

  /** No cleanup is pending for anything else, or at any other time. */
  ghost predicate ScheduleExact(rows: map<Id, Row>, schedule: set<Due>) {
    forall d :: d in schedule ==> d.id in rows && d.at == rows[d.id].expiresAt
  }

  /** The permanent tables hold a spend of one of the row's inputs. */
  ghost predicate SpendRecorded(row: Row, spent: set<string>, utxosSpent: set<Utxo>) {
    row.nullifiers * spent != {} || row.spends * utxosSpent != {}
  }

  /** An offer left the book either at or after its expiry, or because an input of it was spent. */
  ghost predicate ArchivedRightly(a: Archived, spent: set<string>, utxosSpent: set<Utxo>) {
    match a.reason
    case TTL => a.row.expiresAt <= a.archivedAt
    case CONSUMED => SpendRecorded(a.row, spent, utxosSpent)
  }

  ghost predicate HistoryHonest(history: map<Id, Archived>, spent: set<string>, utxosSpent: set<Utxo>) {
    forall id :: id in history ==> ArchivedRightly(history[id], spent, utxosSpent)
  }

  // ---- The book a consumer rebuilds from the published events alone ----

  datatype Closing = Closing(hash: string, reason: Reason)

  datatype Mirror = Mirror(open: map<Id, string>, closed: map<Id, Closing>)

  /** One event group applied to the mirror; None when it announces a known offer or closes one that is not open. */
  function Follow(m: Mirror, e: Emission): Option<Mirror> {
    match e
    case Indexed(id, hash, _, _, _) =>
      if id in m.open || id in m.closed then None else Some(m.(open := m.open[id := hash]))
    case Consumed(rows, _) => Close(m, rows, CONSUMED)
    case Expired(id, hash) => Close(m, map[id := hash], TTL)
    case Rejected(_, _, _, _) => Some(m)
  }

  function Closings(rows: map<Id, string>, reason: Reason): map<Id, Closing> {
    map id | id in rows :: Closing(rows[id], reason)
  }

  function Close(m: Mirror, rows: map<Id, string>, reason: Reason): Option<Mirror> {
    if forall id :: id in rows ==> id in m.open && m.open[id] == rows[id] then
      Some(Mirror(m.open - rows.Keys, m.closed + Closings(rows, reason)))
    else None
  }

  function Replay(log: seq<Emission>): Option<Mirror> {
    if log == [] then Some(Mirror(map[], map[])) else
    match Replay(log[..|log| - 1])
    case None => None
    case Some(m) => Follow(m, log[|log| - 1])
  }

  ghost function OpenHashes(live: map<Id, Row>): map<Id, string> {
    map id | id in live :: live[id].hash
  }

  ghost function HistoryClosings(history: map<Id, Archived>): map<Id, Closing> {
    map id | id in history :: Closing(history[id].row.hash, history[id].reason)
  }

  ghost function MirrorOf(live: map<Id, Row>, history: map<Id, Archived>): Mirror {
    Mirror(OpenHashes(live), HistoryClosings(history))
  }

  lemma ReplayAppend(log: seq<Emission>, e: Emission)
    ensures Replay(log + [e]) == match Replay(log) case None => None case Some(m) => Follow(m, e)
  {
    assert (log + [e])[..|log + [e]| - 1] == log;
  }

  ghost predicate LogExact(log: seq<Emission>, live: map<Id, Row>, history: map<Id, Archived>) {
    Replay(log) == Some(MirrorOf(live, history))
  }

  /** What the tables owe each other, apart from the two facts that tie live offers to the chain. */
  ghost predicate Consistent(live: map<Id, Row>, history: map<Id, Archived>, schedule: set<Due>,
                             spent: set<string>, utxosSpent: set<Utxo>) {
    && live.Keys !! history.Keys
    && HashesUnique(Rows(live, history)) && LifetimesExact(Rows(live, history))
    && MarkersDisjoint(live)
    && CleanupPending(live, schedule) && ScheduleExact(Rows(live, history), schedule)
    && HistoryHonest(history, spent, utxosSpent)
  }

  ghost predicate Tables(s: Book) {
    && Consistent(s.live, s.history, s.schedule, s.nullifiers.Keys, s.spends.Keys)
    && Unspent(s.live, s.nullifiers.Keys)
    && Backed(s.live, s.created.Keys)
  }

  ghost predicate Inv(s: Book) { Tables(s) && LogExact(s.log, s.live, s.history) }

  // ---- Archiving ----

  lemma ArchiveKeepsRows(live: map<Id, Row>, history: map<Id, Archived>, ids: set<Id>, reason: Reason, at: int)
    requires live.Keys !! history.Keys && ids <= live.Keys
    ensures Rows(live - ids, history + Moved(live, ids, reason, at)) == Rows(live, history)
    ensures (live - ids).Keys !! (history + Moved(live, ids, reason, at)).Keys
  {
    var moved := Moved(live, ids, reason, at);
    assert moved.Keys == ids;
    assert (live - ids).Keys + (history + moved).Keys == live.Keys + history.Keys;
  }

  lemma ArchiveKeepsConsistent(live: map<Id, Row>, history: map<Id, Archived>, schedule: set<Due>,
                               spent: set<string>, utxos: set<Utxo>, ids: set<Id>, reason: Reason, at: int)
    requires Consistent(live, history, schedule, spent, utxos) && ids <= live.Keys
    requires forall id :: id in ids ==> ArchivedRightly(Archived(live[id], reason, at), spent, utxos)
    ensures Consistent(live - ids, history + Moved(live, ids, reason, at), schedule, spent, utxos)
  {
    ArchiveKeepsRows(live, history, ids, reason, at);
    HonestHistoryGrows(history, live, ids, reason, at, spent, utxos);
    MarkersOfFewer(live, ids);
  }

  lemma HonestHistoryGrows(history: map<Id, Archived>, live: map<Id, Row>, ids: set<Id>, reason: Reason, at: int,
                           spent: set<string>, utxos: set<Utxo>)
    requires HistoryHonest(history, spent, utxos) && ids <= live.Keys
    requires forall id :: id in ids ==> ArchivedRightly(Archived(live[id], reason, at), spent, utxos)
    ensures HistoryHonest(history + Moved(live, ids, reason, at), spent, utxos)
  {}

  lemma MarkersOfFewer(live: map<Id, Row>, ids: set<Id>)
    requires MarkersDisjoint(live)
    ensures MarkersDisjoint(live - ids)
  {}

  lemma OpenAfterArchive(live: map<Id, Row>, ids: set<Id>)
    ensures OpenHashes(live) - ids == OpenHashes(live - ids)
  {}

  lemma ClosedAfterArchive(live: map<Id, Row>, history: map<Id, Archived>, ids: set<Id>, reason: Reason, at: int)
    ensures HistoryClosings(history) + Closings(Hashes(live, ids), reason)
            == HistoryClosings(history + Moved(live, ids, reason, at))
  {}

  lemma ArchiveKeepsLog(log: seq<Emission>, live: map<Id, Row>, history: map<Id, Archived>,
                        ids: set<Id>, reason: Reason, at: int, e: Emission)
    requires LogExact(log, live, history) && ids <= live.Keys
    requires Follow(MirrorOf(live, history), e) == Close(MirrorOf(live, history), Hashes(live, ids), reason)
    ensures LogExact(log + [e], live - ids, history + Moved(live, ids, reason, at))
  {
    ReplayAppend(log, e);
    OpenAfterArchive(live, ids);
    ClosedAfterArchive(live, history, ids, reason, at);
    assert Hashes(live, ids).Keys == ids;
  }

  // ---- Each chain observation ----

  /** Recorded spends are permanent, so later records never take back why an offer was archived. */
  lemma SpendsStayRecorded(live: map<Id, Row>, history: map<Id, Archived>, schedule: set<Due>,
                           spent: set<string>, utxos: set<Utxo>, spent': set<string>, utxos': set<Utxo>)
    requires Consistent(live, history, schedule, spent, utxos) && spent <= spent' && utxos <= utxos'
    ensures Consistent(live, history, schedule, spent', utxos')
  {
    forall id | id in history
      ensures ArchivedRightly(history[id], spent', utxos')
    {
      assert ArchivedRightly(history[id], spent, utxos);
      var row := history[id].row;
      assert row.nullifiers * spent <= row.nullifiers * spent';
      assert row.spends * utxos <= row.spends * utxos';
    }
  }

  lemma ArchiveKeepsInv(s: Book, ids: set<Id>, reason: Reason, at: int, e: Emission)
    requires Consistent(s.live, s.history, s.schedule, s.nullifiers.Keys, s.spends.Keys)
    requires LogExact(s.log, s.live, s.history)
    requires ids <= s.live.Keys
    requires Follow(MirrorOf(s.live, s.history), e) == Close(MirrorOf(s.live, s.history), Hashes(s.live, ids), reason)
    requires forall id :: id in ids ==>
      ArchivedRightly(Archived(s.live[id], reason, at), s.nullifiers.Keys, s.spends.Keys)
    requires Unspent(s.live - ids, s.nullifiers.Keys) && Backed(s.live - ids, s.created.Keys)
    ensures Inv(Archive(s, ids, reason, at, e))
  {
    ArchiveKeepsConsistent(s.live, s.history, s.schedule, s.nullifiers.Keys, s.spends.Keys, ids, reason, at);
    ArchiveKeepsLog(s.log, s.live, s.history, ids, reason, at, e);
  }

  lemma ConsumeKeepsInv(s: Book, ids: set<Id>, cause: Cause, at: int)
    requires Consistent(s.live, s.history, s.schedule, s.nullifiers.Keys, s.spends.Keys)
    requires LogExact(s.log, s.live, s.history)
    requires ids <= s.live.Keys
    requires forall id :: id in ids ==> SpendRecorded(s.live[id], s.nullifiers.Keys, s.spends.Keys)
    requires Unspent(s.live - ids, s.nullifiers.Keys) && Backed(s.live - ids, s.created.Keys)
    ensures Inv(Consume(s, ids, cause, at))
  {
    if ids == {} {
      assert s.live - ids == s.live;
    } else {
      ArchiveKeepsInv(s, ids, CONSUMED, at, Consumed(Hashes(s.live, ids), cause));
    }
  }

  function WithSpent(s: Book, b: Block, n: string, txHash: Option<string>): Book {
    s.(nullifiers := FirstWins(s.nullifiers, n, Spent(b.height, txHash, false)))
  }

  lemma NullifierKeepsInv(s: Book, b: Block, n: string, txHash: Option<string>)
    requires Inv(s)
    ensures Inv(OnNullifier(s, b, n, txHash))
  {
    NullifierRecorded(s, b, n, txHash);
    var s1, ids := WithSpent(s, b, n, txHash), WithNullifier(s.live, n);
    MarkingKeepsKeys(s1, n);
    if ids == {} {
      assert s.live - ids == s.live;
    } else {
      ConsumeKeepsInv(MarkMatched(s1, n), ids, ByNullifier(n), b.time);
    }
  }

  lemma NullifierRecorded(s: Book, b: Block, n: string, txHash: Option<string>)
    requires Inv(s)
    ensures
      var s1, ids := WithSpent(s, b, n, txHash), WithNullifier(s.live, n);
      && Consistent(s1.live, s1.history, s1.schedule, s1.nullifiers.Keys, s1.spends.Keys)
      && LogExact(s1.log, s1.live, s1.history)
      && Unspent(s1.live - ids, s1.nullifiers.Keys) && Backed(s1.live - ids, s1.created.Keys)
      && forall id :: id in ids ==> SpendRecorded(s1.live[id], s1.nullifiers.Keys, s1.spends.Keys)
  {
    var spent := s.nullifiers.Keys + {n};
    assert WithSpent(s, b, n, txHash).nullifiers.Keys == spent;
    SpendsStayRecorded(s.live, s.history, s.schedule, s.nullifiers.Keys, s.spends.Keys, spent, s.spends.Keys);
    UnspentAfter(s.live, s.created.Keys, s.nullifiers.Keys, s.spends.Keys, n);
  }

  lemma MarkingKeepsKeys(s: Book, n: string)
    ensures
      var s' := MarkMatched(s, n);
      && s'.nullifiers.Keys == s.nullifiers.Keys && s'.live == s.live && s'.history == s.history && s'.log == s.log
      && s'.schedule == s.schedule && s'.spends == s.spends && s'.created == s.created
  {}

  lemma UnspentAfter(live: map<Id, Row>, created: set<Utxo>, spent: set<string>, utxos: set<Utxo>, n: string)
    requires Unspent(live, spent) && Backed(live, created)
    ensures
      var ids := WithNullifier(live, n);
      && Unspent(live - ids, spent + {n}) && Backed(live - ids, created)
      && forall id :: id in ids ==> SpendRecorded(live[id], spent + {n}, utxos)
  {
    forall id | id in live && n in live[id].nullifiers
      ensures SpendRecorded(live[id], spent + {n}, utxos)
    {
      assert n in live[id].nullifiers * (spent + {n});
    }
  }

  lemma BackedAfter(live: map<Id, Row>, created: set<Utxo>, spent: set<string>, utxos: set<Utxo>, u: Utxo)
    requires Unspent(live, spent) && Backed(live, created)
    ensures
      var ids := WithSpend(live, u);
      && Unspent(live - ids, spent) && Backed(live - ids, created - {u})
      && forall id :: id in ids ==> SpendRecorded(live[id], spent, utxos + {u})
  {
    forall id | id in live && u in live[id].spends
      ensures SpendRecorded(live[id], spent, utxos + {u})
    {
      assert u in live[id].spends * (utxos + {u});
    }
  }

  lemma SpendKeepsInv(s: Book, b: Block, u: Utxo, txHash: Option<string>)
    requires Inv(s)
    ensures Inv(OnUnshieldedSpend(s, b, u, txHash))
  {
    var utxos := s.spends.Keys + {u};
    SpendsStayRecorded(s.live, s.history, s.schedule, s.nullifiers.Keys, s.spends.Keys, s.nullifiers.Keys, utxos);
    BackedAfter(s.live, s.created.Keys, s.nullifiers.Keys, s.spends.Keys, u);
    var s1 := s.(spends := FirstWins(s.spends, u, Sighting(b.height, txHash, "")), created := s.created - {u});
    assert s1.spends.Keys == utxos && s1.created.Keys == s.created.Keys - {u};
    ConsumeKeepsInv(s1, WithSpend(s.live, u), BySpend(u), b.time);
  }

  // ---- Cleanup ----

  lemma OneHash(live: map<Id, Row>, id: Id)
    requires id in live
    ensures Hashes(live, {id}) == map[id := live[id].hash]
  {}

  lemma FewerStillTied(live: map<Id, Row>, ids: set<Id>, created: set<Utxo>, spent: set<string>)
    requires Unspent(live, spent) && Backed(live, created)
    ensures Unspent(live - ids, spent) && Backed(live - ids, created)
  {}

  lemma ExpireKeepsInv(s: Book, id: Id, cutoff: int)
    requires Inv(s)
    ensures Inv(ExpireById(s, id, cutoff))
  {
    if id in s.live && s.live[id].expiresAt <= cutoff {
      OneHash(s.live, id);
      FewerStillTied(s.live, {id}, s.created.Keys, s.nullifiers.Keys);
      ArchiveKeepsInv(s, {id}, TTL, cutoff, Expired(id, s.live[id].hash));
    }
  }

  lemma CleanupKeepsInv(s: Book, b: Block, id: Id, due: bool)
    requires Inv(s)
    requires due ==> exists d :: d in s.schedule && d.id == id && d.at <= b.time
    ensures Inv(OnCleanup(s, b, id, due))
  {
    ExpireKeepsInv(s, id, b.time);
    if due {
      DueMeansExpired(s, id, b.time);
      UnscheduleKeepsInv(ExpireById(s, id, b.time), id);
    }
  }

  /** A scheduled cleanup that fires no earlier than its time always finds the offer expired. */
  lemma DueMeansExpired(s: Book, id: Id, now: int)
    requires ScheduleExact(Rows(s.live, s.history), s.schedule) && s.live.Keys !! s.history.Keys
    requires exists d :: d in s.schedule && d.id == id && d.at <= now
    ensures id !in ExpireById(s, id, now).live
  {
    var d :| d in s.schedule && d.id == id && d.at <= now;
    if id in s.live {
      assert Rows(s.live, s.history)[id] == s.live[id];
    }
  }

  lemma UnscheduleKeepsInv(s: Book, id: Id)
    requires Inv(s) && id !in s.live
    ensures Inv(s.(schedule := Without(s.schedule, id)))
  {
    UnscheduleKeepsPlans(s.live, s.history, s.schedule, id);
  }

  lemma UnscheduleKeepsPlans(live: map<Id, Row>, history: map<Id, Archived>, schedule: set<Due>, id: Id)
    requires CleanupPending(live, schedule) && ScheduleExact(Rows(live, history), schedule) && id !in live
    ensures CleanupPending(live, Without(schedule, id)) && ScheduleExact(Rows(live, history), Without(schedule, id))
  {}

  lemma RejectKeepsInv(s: Book, b: Block, code: string, hash: Option<string>, active: Option<string>)
    requires Inv(s)
    ensures Inv(OnReject(s, b, code, hash, active))
  {
    ReplayAppend(s.log, Rejected(code, hash, active, b.height));
  }

  // ---- Blob ingestion ----

  lemma IncumbentClaims(live: map<Id, Row>, m: Marker)
    ensures Incumbent(live, m) == None <==> forall id :: id in live ==> !Claims(live[id], m)
    ensures Incumbent(live, m).Some? ==> exists id :: id in live && Claims(live[id], m) && Incumbent(live, m).value == live[id].hash
  {
    assert forall id :: id in live && Claims(live[id], m) ==> id in Claimants(live, m);
  }

  /** Some live offer with this hash claims one of the markers. */
  ghost predicate ClaimedBy(live: map<Id, Row>, ms: seq<Marker>, hash: string) {
    exists m, id :: m in ms && id in live && Claims(live[id], m) && live[id].hash == hash
  }

  ghost predicate Unclaimed(live: map<Id, Row>, ms: seq<Marker>) {
    forall m, id :: m in ms && id in live ==> !Claims(live[id], m)
  }

  lemma {:induction false} FirstIncumbentNone(live: map<Id, Row>, ms: seq<Marker>)
    ensures FirstIncumbent(live, ms) == None <==> Unclaimed(live, ms)
    ensures FirstIncumbent(live, ms).Some? ==> ClaimedBy(live, ms, FirstIncumbent(live, ms).value)
  {
    if ms != [] {
      var m, rest := ms[0], ms[1..];
      assert ms == [m] + rest;
      assert forall x :: x in ms <==> x == m || x in rest;
      IncumbentClaims(live, m);
      if Incumbent(live, m).Some? {
        assert m in ms;
      } else {
        FirstIncumbentNone(live, rest);
        assert FirstIncumbent(live, ms) == FirstIncumbent(live, rest);
        assert Unclaimed(live, ms) <==> Unclaimed(live, rest);
      }
    }
  }

  lemma {:induction false} OutputRowsKeys(outputs: seq<OutputDecl>)
    ensures OutputRows(outputs).Keys == set d | d in outputs :: d.ref
  {
    if outputs != [] {
      var init, last := outputs[..|outputs| - 1], outputs[|outputs| - 1];
      assert outputs == init + [last];
      OutputRowsKeys(init);
    }
  }

  /** The stored row claims exactly the markers its transaction declares. */
  lemma RowClaimsDeclared(s: Book, b: Block, hash: string, o: Offer, expiresAt: int, m: Marker)
    ensures Claims(NewRow(s, b, hash, o, expiresAt), m) <==> m in DeclaredMarkers(o)
  {
    OutputRowsKeys(o.outputs);
    var ms := DeclaredMarkers(o);
    assert forall i :: 0 <= i < |o.commitments| ==> ms[i] == Commitment(o.commitments[i]);
    assert forall i :: 0 <= i < |o.outputs| ==> ms[|o.commitments| + i] == Output(o.outputs[i].ref);
    if m in ms {
      var k :| 0 <= k < |ms| && ms[k] == m;
      if k >= |o.commitments| {
        assert o.outputs[k - |o.commitments|] in o.outputs;
      }
    }
  }

  /** Admission, stated as what the tables held when the blob arrived. */
  ghost predicate Admissible(c: Config, s: Book, b: Block, hash: string, o: Offer) {
    && !HashKnown(s, hash)
    && (forall n :: n in o.nullifiers ==> n !in s.nullifiers)
    && (forall u :: u in o.spends ==> u in s.created)
    && (forall r :: r in o.roots ==> RootLive(s.roots, r, b.time - c.rootWindow * 1000))
    && Unclaimed(s.live, DeclaredMarkers(o))
  }

  /** An offer is indexed exactly when it is well formed, new, live, proven and claims no taken marker, and
      its expiry can be derived; the stored expiry is then the derived one. */
  lemma AcceptedExactlyWhen(c: Config, s: Book, b: Block, hash: string, v: Structural, crypto: Option<string>, t: int)
    ensures
      (exists o :: Judge(c, s, b, hash, v, crypto) == Accept(o, t)) <==>
      v.WellFormed? && crypto.None? && Admissible(c, s, b, hash, v.offer) && OfferExpiryOf(c, s, b, v.offer) == Ok(t)
    ensures forall o :: Judge(c, s, b, hash, v, crypto) == Accept(o, t) ==> v == WellFormed(o)
  {
    if v.WellFormed? {
      var o := v.offer;
      VerdictOrder(FactsOf(s), o.nullifiers, o.spends, o.roots, b.time - c.rootWindow * 1000);
      FirstIncumbentNone(s.live, DeclaredMarkers(o));
      assert Judge(c, s, b, hash, v, crypto) == Accept(o, t) <==>
        crypto.None? && Admissible(c, s, b, hash, o) && OfferExpiryOf(c, s, b, o) == Ok(t);
    }
  }

  ghost predicate Spendable(c: Config, s: Book, b: Block, o: Offer) {
    && (forall n :: n in o.nullifiers ==> n !in s.nullifiers)
    && (forall u :: u in o.spends ==> u in s.created)
    && (forall r :: r in o.roots ==> RootLive(s.roots, r, b.time - c.rootWindow * 1000))
  }

  /** Which refusal a well-formed offer gets, in the order of the checks: known hash, spent nullifier, dead UTXO, unknown
      root, failed proof, taken marker; the last names a live offer that claims one of its markers. */
  lemma RefusalOrder(c: Config, s: Book, b: Block, hash: string, o: Offer, crypto: Option<string>)
    ensures
      var d := Judge(c, s, b, hash, WellFormed(o), crypto);
      var spent := exists n :: n in o.nullifiers && n in s.nullifiers;
      var gone := exists u :: u in o.spends && u !in s.created;
      && (HashKnown(s, hash) ==> d == Reject("DUPLICATE_OFFER", Some(hash), None))
      && (!HashKnown(s, hash) && spent ==> d == Reject("NULLIFIER_SPENT", Some(hash), None))
      && (!HashKnown(s, hash) && !spent && gone ==> d == Reject("UTXO_NOT_LIVE", Some(hash), None))
      && (!HashKnown(s, hash) && !spent && !gone && !Spendable(c, s, b, o) ==> d == Reject("ROOT_UNKNOWN", Some(hash), None))
      && (!HashKnown(s, hash) && Spendable(c, s, b, o) && crypto.Some? ==> d == Reject(crypto.value, Some(hash), None))
      && (!HashKnown(s, hash) && Spendable(c, s, b, o) && crypto.None? && !Unclaimed(s.live, DeclaredMarkers(o)) ==>
            d.Reject? && d.code == "DUPLICATE_MARKERS" && d.hash == Some(hash)
            && d.active.Some? && ClaimedBy(s.live, DeclaredMarkers(o), d.active.value))
  {
    VerdictOrder(FactsOf(s), o.nullifiers, o.spends, o.roots, b.time - c.rootWindow * 1000);
    FirstIncumbentNone(s.live, DeclaredMarkers(o));
  }

  /** The early-arrival reconciliation cannot fire: an offer whose nullifier was already seen does not get that far. */
  lemma {:induction false} ReconcileNeverFires(s: Book, nullifiers: seq<string>, at: int)
    requires forall n :: n in nullifiers ==> n !in s.nullifiers
    ensures Reconcile(s, nullifiers, at) == (s, false)
  {
    if nullifiers != [] {
      assert nullifiers[0] in nullifiers;
      ReconcileNeverFires(s, nullifiers[1..], at);
    }
  }

  lemma AcceptKeepsInv(c: Config, s: Book, b: Block, hash: string, o: Offer, t: int, id: Id)
    requires Inv(s) && Admissible(c, s, b, hash, o)
    requires id !in s.live && id !in s.history
    ensures Inv(OnAccept(s, b, hash, o, t, id))
  {
    var row := NewRow(s, b, hash, o, t);
    ReconcileNeverFires(s.(live := s.live[id := row]), o.nullifiers, b.time);
    forall m ensures Claims(row, m) <==> m in DeclaredMarkers(o) { RowClaimsDeclared(s, b, hash, o, t, m); }
    HashIsNew(s, hash);
    InsertKeepsConsistent(s.live, s.history, s.schedule, s.nullifiers.Keys, s.spends.Keys, id, row);
    InsertKeepsTied(s.live, s.nullifiers.Keys, s.created.Keys, id, row);
    InsertKeepsLog(s.log, s.live, s.history, id, row, Indexed(id, hash, b.height, o.gives, o.wants));
  }

  lemma HashIsNew(s: Book, hash: string)
    requires s.live.Keys !! s.history.Keys && !HashKnown(s, hash)
    ensures forall i :: i in Rows(s.live, s.history) ==> Rows(s.live, s.history)[i].hash != hash
  {}

  lemma InsertKeepsConsistent(live: map<Id, Row>, history: map<Id, Archived>, schedule: set<Due>,
                              spent: set<string>, utxos: set<Utxo>, id: Id, row: Row)
    requires Consistent(live, history, schedule, spent, utxos)
    requires id !in live && id !in history
    requires forall i :: i in Rows(live, history) ==> Rows(live, history)[i].hash != row.hash
    requires row.ttlSeconds == OfferLifetimeSeconds(row.expiresAt, row.createdAt)
    requires forall i, m :: i in live && Claims(row, m) ==> !Claims(live[i], m)
    ensures Consistent(live[id := row], history, schedule + {Due(id, row.expiresAt)}, spent, utxos)
  {
    var before, after := Rows(live, history), Rows(live[id := row], history);
    assert after == before[id := row];
    InsertKeepsRowFacts(before, id, row);
    InsertKeepsMarkers(live, id, row);
  }

  lemma InsertKeepsRowFacts(rows: map<Id, Row>, id: Id, row: Row)
    requires HashesUnique(rows) && LifetimesExact(rows)
    requires forall i :: i in rows ==> rows[i].hash != row.hash
    requires row.ttlSeconds == OfferLifetimeSeconds(row.expiresAt, row.createdAt)
    ensures HashesUnique(rows[id := row]) && LifetimesExact(rows[id := row])
  {}

  lemma InsertKeepsMarkers(live: map<Id, Row>, id: Id, row: Row)
    requires MarkersDisjoint(live)
    requires forall i, m :: i in live && Claims(row, m) ==> !Claims(live[i], m)
    ensures MarkersDisjoint(live[id := row])
  {}

  lemma InsertKeepsTied(live: map<Id, Row>, spent: set<string>, created: set<Utxo>, id: Id, row: Row)
    requires Unspent(live, spent) && Backed(live, created)
    requires row.nullifiers !! spent && row.spends <= created
    ensures Unspent(live[id := row], spent) && Backed(live[id := row], created)
  {}

  lemma InsertKeepsLog(log: seq<Emission>, live: map<Id, Row>, history: map<Id, Archived>, id: Id, row: Row, e: Emission)
    requires LogExact(log, live, history) && id !in live && id !in history
    requires e.Indexed? && e.id == id && e.hash == row.hash
    ensures LogExact(log + [e], live[id := row], history)
  {
    ReplayAppend(log, e);
    assert OpenHashes(live[id := row]) == OpenHashes(live)[id := row.hash];
  }

  // ---- Every input, every run ----

  /** Every input keeps the invariant. */
  lemma StepKeepsInv(c: Config, s: Book, b: Block, i: Input, id: Id)
    requires Inv(s) && Enabled(s, b, i, id)
    ensures Inv(Step(c, s, b, i, id))
  {
    match i
    case NullifierSeen(n, tx) => NullifierKeepsInv(s, b, n, tx);
    case UnshieldedSpent(owner, hash, no, tx) =>
      if !Malformed(owner, hash, no) { SpendKeepsInv(s, b, Utxo(owner, hash, no.value), tx); }
    case BlobPosted(hash, v, crypto) => BlobKeepsInv(c, s, b, hash, v, crypto, id);
    case Cleanup(j, due) => CleanupKeepsInv(s, b, j, due);
    case CommitmentSeen(_, _, _) =>
    case UnshieldedCreated(owner, hash, no, tx, detail) =>
      if !Malformed(owner, hash, no) { CreateKeepsInv(s, b, Utxo(owner, hash, no.value), tx, detail); }
    case RootSeen(r) => RootKeepsInv(c, s, b, r);
  }

  lemma CreateKeepsInv(s: Book, b: Block, u: Utxo, txHash: Option<string>, detail: string)
    requires Inv(s)
    ensures Inv(OnUnshieldedCreate(s, b, u, txHash, detail))
  {}

  lemma RootKeepsInv(c: Config, s: Book, b: Block, root: string)
    requires Inv(s)
    ensures Inv(OnRoot(c, s, b, root))
  {
    if root != "" {
      var roots := PruneRoots(UpsertRoot(s.roots, root, b.height, b.time), b.time - c.rootWindow * 1000);
      assert OnRoot(c, s, b, root) == s.(roots := roots);
      RootsAreApart(s, roots);
    }
  }

  /** No invariant looks at the roots. */
  lemma RootsAreApart(s: Book, roots: map<string, RootRow>)
    requires Inv(s)
    ensures Inv(s.(roots := roots))
  {}

  lemma BlobKeepsInv(c: Config, s: Book, b: Block, hash: string, v: Structural, crypto: Option<string>, id: Id)
    requires Inv(s) && id !in s.live && id !in s.history
    ensures Inv(OnBlob(c, s, b, hash, v, crypto, id))
  {
    match Judge(c, s, b, hash, v, crypto)
    case Reject(code, h, active) => RejectKeepsInv(s, b, code, h, active);
    case Fail =>
    case Accept(o, t) =>
      AcceptedExactlyWhen(c, s, b, hash, v, crypto, t);
      AcceptKeepsInv(c, s, b, hash, o, t, id);
  }

  lemma {:induction false} RunKeepsInv(c: Config, s: Book, es: seq<Event>)
    requires Inv(s) && RunEnabled(c, s, es)
    ensures Inv(Run(c, s, es))
    decreases |es|
  {
    if es != [] {
      StepKeepsInv(c, s, es[0].block, es[0].input, es[0].nextId);
      RunKeepsInv(c, Step(c, s, es[0].block, es[0].input, es[0].nextId), es[1..]);
    }
  }

  lemma EmptyIsInv()
    ensures Inv(Empty)
  {
    assert MirrorOf(Empty.live, Empty.history) == Mirror(map[], map[]);
  }
}
