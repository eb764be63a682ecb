/** Two replicas fed the same ordered inputs agree on everything but the local row ids, which they allocate
    independently: there is a bijection between the ids under which the books are equal, event for event. */
module OfferBookReplicas {
  import opened Prelude
  import opened AppEvents
  import opened OfferExpiry
  import opened OfferLiveness
  import opened OfferBook
  import opened OfferBookInvariants
  import opened OfferBookIds

  // ---- Equality up to a renaming of row ids ----

  datatype Renaming = Renaming(to: map<Id, Id>, from: map<Id, Id>)

  ghost predicate Bijective(f: Renaming) {
    && (forall i :: i in f.to ==> f.to[i] in f.from && f.from[f.to[i]] == i)
    && (forall j :: j in f.from ==> f.from[j] in f.to && f.to[f.from[j]] == j)
  }

  ghost predicate SameRows<V>(a: map<Id, V>, b: map<Id, V>, f: Renaming) {
    && (forall i :: i in a ==> i in f.to && f.to[i] in b && b[f.to[i]] == a[i])
    && (forall j :: j in b ==> j in f.from && f.from[j] in a)
  }

  ghost predicate SameIds(a: set<Id>, b: set<Id>, f: Renaming) {
    && (forall i :: i in a ==> i in f.to && f.to[i] in b)
    && (forall j :: j in b ==> j in f.from && f.from[j] in a)
  }

  ghost predicate SameSchedule(a: set<Due>, b: set<Due>, f: Renaming) {
    && (forall d :: d in a ==> d.id in f.to && Due(f.to[d.id], d.at) in b)
    && (forall d :: d in b ==> d.id in f.from && Due(f.from[d.id], d.at) in a)
  }

  ghost predicate SameEmission(x: Emission, y: Emission, f: Renaming) {
    match x
    case Indexed(id, hash, height, gives, wants) => id in f.to && y == Indexed(f.to[id], hash, height, gives, wants)
    case Consumed(rows, cause) => y.Consumed? && y.cause == cause && SameRows(rows, y.rows, f)
    case Expired(id, hash) => id in f.to && y == Expired(f.to[id], hash)
    case Rejected(_, _, _, _) => y == x
  }

  ghost predicate SameLog(a: seq<Emission>, b: seq<Emission>, f: Renaming) {
    |a| == |b| && forall k :: 0 <= k < |a| ==> SameEmission(a[k], b[k], f)
  }

  ghost predicate SameChainTables(a: Book, b: Book) {
    && a.nullifiers == b.nullifiers && a.commitments == b.commitments
    && a.created == b.created && a.spends == b.spends && a.creates == b.creates
    && a.roots == b.roots && a.rejections == b.rejections
  }

  ghost predicate SameBook(a: Book, b: Book, f: Renaming) {
    && Bijective(f)
    && SameRows(a.live, b.live, f) && SameRows(a.history, b.history, f)
    && SameSchedule(a.schedule, b.schedule, f) && SameLog(a.log, b.log, f)
    && SameChainTables(a, b)
  }

  // ---- Archiving commutes with the renaming ----

  lemma SameAfterArchive(l: map<Id, Row>, h: map<Id, Archived>, l': map<Id, Row>, h': map<Id, Archived>,
                         ids: set<Id>, ids': set<Id>, reason: Reason, at: int, f: Renaming)
    requires Bijective(f) && SameRows(l, l', f) && SameRows(h, h', f) && SameIds(ids, ids', f)
    requires ids <= l.Keys && ids' <= l'.Keys && l.Keys !! h.Keys && l'.Keys !! h'.Keys
    ensures SameRows(l - ids, l' - ids', f)
    ensures SameRows(h + Moved(l, ids, reason, at), h' + Moved(l', ids', reason, at), f)
    ensures SameRows(Hashes(l, ids), Hashes(l', ids'), f)
  {
    var m, m' := Moved(l, ids, reason, at), Moved(l', ids', reason, at);
    assert m.Keys == ids && m'.Keys == ids';
    forall i | i in h + m
      ensures i in f.to && f.to[i] in h' + m' && (h' + m')[f.to[i]] == (h + m)[i]
    {
      if i in m {
        assert f.to[i] in m' && m'[f.to[i]] == m[i];
      } else {
        assert f.from[f.to[i]] == i;
      }
    }
  }

  lemma SameAppend(a: seq<Emission>, b: seq<Emission>, x: Emission, y: Emission, f: Renaming)
    requires SameLog(a, b, f) && SameEmission(x, y, f)
    ensures SameLog(a + [x], b + [y], f)
  {}

  lemma SameArchive(a: Book, b: Book, ids: set<Id>, ids': set<Id>, reason: Reason, at: int, x: Emission, y: Emission, f: Renaming)
    requires SameBook(a, b, f) && SameIds(ids, ids', f) && ids <= a.live.Keys && ids' <= b.live.Keys
    requires a.live.Keys !! a.history.Keys && b.live.Keys !! b.history.Keys
    requires SameEmission(x, y, f)
    ensures SameBook(Archive(a, ids, reason, at, x), Archive(b, ids', reason, at, y), f)
  {
    SameAfterArchive(a.live, a.history, b.live, b.history, ids, ids', reason, at, f);
    SameAppend(a.log, b.log, x, y, f);
  }

  lemma SameConsume(a: Book, b: Book, ids: set<Id>, ids': set<Id>, cause: Cause, at: int, f: Renaming)
    requires SameBook(a, b, f) && SameIds(ids, ids', f) && ids <= a.live.Keys && ids' <= b.live.Keys
    requires a.live.Keys !! a.history.Keys && b.live.Keys !! b.history.Keys
    ensures SameBook(Consume(a, ids, cause, at), Consume(b, ids', cause, at), f)
  {
    assert ids == {} <==> ids' == {};
    if ids != {} {
      SameAfterArchive(a.live, a.history, b.live, b.history, ids, ids', CONSUMED, at, f);
      SameArchive(a, b, ids, ids', CONSUMED, at, Consumed(Hashes(a.live, ids), cause), Consumed(Hashes(b.live, ids'), cause), f);
    }
  }

  lemma SameMatches(l: map<Id, Row>, l': map<Id, Row>, n: string, u: Utxo, f: Renaming)
    requires SameRows(l, l', f) && Bijective(f)
    ensures SameIds(WithNullifier(l, n), WithNullifier(l', n), f)
    ensures SameIds(WithSpend(l, u), WithSpend(l', u), f)
  {}

  /** The two books agree except in how the same change is made to both chain tables. */
  lemma SameTables(a: Book, b: Book, a': Book, b': Book, f: Renaming)
    requires SameBook(a, b, f) && SameChainTables(a', b')
    requires a'.live == a.live && a'.history == a.history && a'.schedule == a.schedule && a'.log == a.log
    requires b'.live == b.live && b'.history == b.history && b'.schedule == b.schedule && b'.log == b.log
    ensures SameBook(a', b', f)
  {}

  lemma SameMarked(a: Book, b: Book, n: string)
    requires SameChainTables(a, b)
    ensures SameChainTables(MarkMatched(a, n), MarkMatched(b, n))
  {}

  lemma SameNullifier(a: Book, b: Book, blk: Block, n: string, txHash: Option<string>, f: Renaming)
    requires SameBook(a, b, f) && a.live.Keys !! a.history.Keys && b.live.Keys !! b.history.Keys
    ensures SameBook(OnNullifier(a, blk, n, txHash), OnNullifier(b, blk, n, txHash), f)
  {
    var a1, b1 := WithSpent(a, blk, n, txHash), WithSpent(b, blk, n, txHash);
    var ids, ids' := WithNullifier(a.live, n), WithNullifier(b.live, n);
    SameMatches(a.live, b.live, n, Utxo("", "", 0), f);
    assert ids == {} <==> ids' == {};
    SameTables(a, b, a1, b1, f);
    if ids != {} {
      SameMarked(a1, b1, n);
      MarkingKeepsKeys(a1, n);
      MarkingKeepsKeys(b1, n);
      SameTables(a1, b1, MarkMatched(a1, n), MarkMatched(b1, n), f);
      SameConsume(MarkMatched(a1, n), MarkMatched(b1, n), ids, ids', ByNullifier(n), blk.time, f);
    }
  }

  lemma SameSpend(a: Book, b: Book, blk: Block, u: Utxo, txHash: Option<string>, f: Renaming)
    requires SameBook(a, b, f) && a.live.Keys !! a.history.Keys && b.live.Keys !! b.history.Keys
    ensures SameBook(OnUnshieldedSpend(a, blk, u, txHash), OnUnshieldedSpend(b, blk, u, txHash), f)
  {
    var a1 := a.(spends := FirstWins(a.spends, u, Sighting(blk.height, txHash, "")), created := a.created - {u});
    var b1 := b.(spends := FirstWins(b.spends, u, Sighting(blk.height, txHash, "")), created := b.created - {u});
    SameMatches(a.live, b.live, "", u, f);
    SameTables(a, b, a1, b1, f);
    SameConsume(a1, b1, WithSpend(a.live, u), WithSpend(b.live, u), BySpend(u), blk.time, f);
  }

  lemma SameExpire(a: Book, b: Book, id: Id, cutoff: int, f: Renaming)
    requires SameBook(a, b, f) && id in f.to && a.live.Keys !! a.history.Keys && b.live.Keys !! b.history.Keys
    ensures SameBook(ExpireById(a, id, cutoff), ExpireById(b, f.to[id], cutoff), f)
  {
    assert id in a.live <==> f.to[id] in b.live;
    if id in a.live && a.live[id].expiresAt <= cutoff {
      SameArchive(a, b, {id}, {f.to[id]}, TTL, cutoff, Expired(id, a.live[id].hash), Expired(f.to[id], a.live[id].hash), f);
    }
  }

  lemma SameUnschedule(a: Book, b: Book, id: Id, f: Renaming)
    requires SameBook(a, b, f) && id in f.to
    ensures SameBook(a.(schedule := Without(a.schedule, id)), b.(schedule := Without(b.schedule, f.to[id])), f)
  {
    assert SameSchedule(Without(a.schedule, id), Without(b.schedule, f.to[id]), f);
  }

  lemma SameCleanup(a: Book, b: Book, blk: Block, id: Id, due: bool, f: Renaming)
    requires SameBook(a, b, f) && id in f.to && a.live.Keys !! a.history.Keys && b.live.Keys !! b.history.Keys
    ensures SameBook(OnCleanup(a, blk, id, due), OnCleanup(b, blk, f.to[id], due), f)
  {
    SameExpire(a, b, id, blk.time, f);
    if due {
      SameUnschedule(ExpireById(a, id, blk.time), ExpireById(b, f.to[id], blk.time), id, f);
    }
  }

  // ---- The verdict on a blob does not depend on local ids ----

  lemma SameIncumbent(l: map<Id, Row>, l': map<Id, Row>, m: Marker, f: Renaming)
    requires Bijective(f) && SameRows(l, l', f) && MarkersDisjoint(l) && MarkersDisjoint(l')
    ensures Incumbent(l, m) == Incumbent(l', m)
  {
    IncumbentClaims(l, m);
    IncumbentClaims(l', m);
    if i :| i in l && Claims(l[i], m) {
      assert Claims(l'[f.to[i]], m);
    }
    if j :| j in l' && Claims(l'[j], m) {
      assert l[f.from[j]] == l'[j];
      assert Claims(l[f.from[j]], m);
    }
  }

  lemma {:induction false} SameFirstIncumbent(l: map<Id, Row>, l': map<Id, Row>, ms: seq<Marker>, f: Renaming)
    requires Bijective(f) && SameRows(l, l', f) && MarkersDisjoint(l) && MarkersDisjoint(l')
    ensures FirstIncumbent(l, ms) == FirstIncumbent(l', ms)
  {
    if ms != [] {
      SameIncumbent(l, l', ms[0], f);
      SameFirstIncumbent(l, l', ms[1..], f);
    }
  }

  lemma SameHashKnown(a: Book, b: Book, hash: string, f: Renaming)
    requires SameBook(a, b, f)
    ensures HashKnown(a, hash) == HashKnown(b, hash)
  {
    forall j | j in b.live ensures f.from[j] in a.live && a.live[f.from[j]] == b.live[j] {}
    forall j | j in b.history ensures f.from[j] in a.history && a.history[f.from[j]] == b.history[j] {}
  }

  /** Same verdict, same code, same conflicting hash, same expiry on every replica. */
  lemma SameVerdict(c: Config, a: Book, b: Book, blk: Block, hash: string, v: Structural, crypto: Option<string>, f: Renaming)
    requires Inv(a) && Inv(b) && SameBook(a, b, f)
    ensures Judge(c, a, blk, hash, v, crypto) == Judge(c, b, blk, hash, v, crypto)
  {
    SameHashKnown(a, b, hash, f);
    if v.WellFormed? {
      SameFirstIncumbent(a.live, b.live, DeclaredMarkers(v.offer), f);
    }
  }

  // ---- Indexing extends the renaming ----

  function Extend(f: Renaming, i: Id, j: Id): Renaming {
    Renaming(f.to[i := j], f.from[j := i])
  }

  ghost predicate Wider(f: Renaming, g: Renaming) {
    && (forall i :: i in f.to ==> i in g.to && g.to[i] == f.to[i])
    && (forall j :: j in f.from ==> j in g.from && g.from[j] == f.from[j])
  }

  lemma WiderKeepsLog(a: seq<Emission>, b: seq<Emission>, f: Renaming, g: Renaming)
    requires SameLog(a, b, f) && Wider(f, g)
    ensures SameLog(a, b, g)
  {
    forall k | 0 <= k < |a| ensures SameEmission(a[k], b[k], g) {
      assert SameEmission(a[k], b[k], f);
    }
  }

  /** The renaming covers exactly the indexed offers. */
  ghost predicate Covers(f: Renaming, a: Book, b: Book) {
    f.to.Keys == Ids(a) && f.from.Keys == Ids(b)
  }

  lemma SameInsertRows(l: map<Id, Row>, h: map<Id, Archived>, l': map<Id, Row>, h': map<Id, Archived>,
                       i: Id, j: Id, row: Row, f: Renaming)
    requires Bijective(f) && SameRows(l, l', f) && SameRows(h, h', f) && i !in f.to && j !in f.from
    ensures Bijective(Extend(f, i, j)) && Wider(f, Extend(f, i, j))
    ensures SameRows(l[i := row], l'[j := row], Extend(f, i, j)) && SameRows(h, h', Extend(f, i, j))
  {}

  lemma SameInsertDue(a: set<Due>, b: set<Due>, i: Id, j: Id, at: int, f: Renaming)
    requires SameSchedule(a, b, f) && i !in f.to && j !in f.from
    ensures SameSchedule(a + {Due(i, at)}, b + {Due(j, at)}, Extend(f, i, j))
  {}

  lemma SameInsert(a: Book, b: Book, i: Id, j: Id, row: Row, f: Renaming)
    requires SameBook(a, b, f) && i !in f.to && j !in f.from
    ensures SameBook(Inserted(a, i, row), Inserted(b, j, row), Extend(f, i, j))
  {
    var g := Extend(f, i, j);
    SameInsertRows(a.live, a.history, b.live, b.history, i, j, row, f);
    SameInsertDue(a.schedule, b.schedule, i, j, row.expiresAt, f);
    WiderKeepsLog(a.log, b.log, f, g);
    SameAppend(a.log, b.log, Indexed(i, row.hash, row.height, row.gives, row.wants),
               Indexed(j, row.hash, row.height, row.gives, row.wants), g);
  }

  lemma SameAccept(c: Config, a: Book, b: Book, blk: Block, hash: string, o: Offer, t: int, i: Id, j: Id, f: Renaming)
    requires SameBook(a, b, f) && i !in f.to && j !in f.from
    requires forall n :: n in o.nullifiers ==> n !in a.nullifiers
    ensures SameBook(OnAccept(a, blk, hash, o, t, i), OnAccept(b, blk, hash, o, t, j), Extend(f, i, j))
  {
    AcceptInserts(a, blk, hash, o, t, i);
    AcceptInserts(b, blk, hash, o, t, j);
    SameInsert(a, b, i, j, NewRow(a, blk, hash, o, t), f);
  }

  lemma SameReject(a: Book, b: Book, blk: Block, code: string, hash: Option<string>, active: Option<string>, f: Renaming)
    requires SameBook(a, b, f)
    ensures SameBook(OnReject(a, blk, code, hash, active), OnReject(b, blk, code, hash, active), f)
  {
    SameAppend(a.log, b.log, Rejected(code, hash, active, blk.height), Rejected(code, hash, active, blk.height), f);
  }

  // ---- One shared input ----

  /** An input as every replica receives it. A scheduled cleanup carries a local row id, so what the replicas
      share is the offer it is for. */
  datatype Shared = OnChain(input: Input) | CleanupOf(hash: string, due: bool)

  /** The local row of an offer, live or archived. */
  ghost predicate Holds(s: Book, hash: string, id: Id) {
    id in Rows(s.live, s.history) && Rows(s.live, s.history)[id].hash == hash
  }

  ghost predicate IsLocal(s: Book, x: Shared, i: Input) {
    match x
    case OnChain(j) => i == j && !i.Cleanup?
    case CleanupOf(hash, due) => i.Cleanup? && i.due == due && Holds(s, hash, i.id)
  }

  /** How the row ids allocated for one input extend the renaming. */
  ghost function Grow(c: Config, a: Book, b: Block, x: Input, i: Id, j: Id, f: Renaming): Renaming {
    if Accepts(c, a, b, x) then Extend(f, i, j) else f
  }

  ghost predicate Replicas(a: Book, b: Book, f: Renaming) {
    Inv(a) && Inv(b) && SameBook(a, b, f) && Covers(f, a, b)
  }

  lemma LocalCleanups(a: Book, b: Book, hash: string, i: Id, j: Id, f: Renaming)
    requires Replicas(a, b, f) && Holds(a, hash, i) && Holds(b, hash, j)
    ensures i in f.to && f.to[i] == j
  {
    assert Rows(b.live, b.history)[f.to[i]].hash == hash;
  }

  lemma SameStep(c: Config, a: Book, b: Book, blk: Block, x: Shared, ia: Input, ib: Input, i: Id, j: Id, f: Renaming)
    requires Replicas(a, b, f) && IsLocal(a, x, ia) && IsLocal(b, x, ib)
    requires Enabled(a, blk, ia, i) && Enabled(b, blk, ib, j)
    ensures SameBook(Step(c, a, blk, ia, i), Step(c, b, blk, ib, j), Grow(c, a, blk, ia, i, j, f))
  {
    if ia.BlobPosted? {
      SameBlobStep(c, a, b, blk, ia, i, j, f);
    } else if ia.Cleanup? {
      SameLocalCleanup(a, b, x, ia, ib, f);
      NeverInBoth(a, b, f);
      SameCleanupStep(c, a, b, blk, ia.id, ia.due, i, j, f);
    } else {
      NeverInBoth(a, b, f);
      SameChainStep(c, a, b, blk, ia, i, j, f);
    }
  }

  lemma NeverInBoth(a: Book, b: Book, f: Renaming)
    requires Replicas(a, b, f)
    ensures a.live.Keys !! a.history.Keys && b.live.Keys !! b.history.Keys
  {}

  lemma SameBlobStep(c: Config, a: Book, b: Book, blk: Block, x: Input, i: Id, j: Id, f: Renaming)
    requires Replicas(a, b, f) && x.BlobPosted? && i !in f.to && j !in f.from
    ensures SameBook(Step(c, a, blk, x, i), Step(c, b, blk, x, j), Grow(c, a, blk, x, i, j, f))
  {
    SameBlob(c, a, b, blk, x.hash, x.verdict, x.cryptoFailure, i, j, f);
    BlobStep(c, a, blk, x, i);
    BlobStep(c, b, blk, x, j);
  }

  lemma BlobStep(c: Config, s: Book, blk: Block, x: Input, i: Id)
    requires x.BlobPosted?
    ensures Step(c, s, blk, x, i) == OnBlob(c, s, blk, x.hash, x.verdict, x.cryptoFailure, i)
    ensures Accepts(c, s, blk, x) <==> IsAccept(Judge(c, s, blk, x.hash, x.verdict, x.cryptoFailure))
  {}

  lemma SameCleanupStep(c: Config, a: Book, b: Book, blk: Block, id: Id, due: bool, i: Id, j: Id, f: Renaming)
    requires SameBook(a, b, f) && id in f.to && a.live.Keys !! a.history.Keys && b.live.Keys !! b.history.Keys
    ensures SameBook(Step(c, a, blk, Cleanup(id, due), i), Step(c, b, blk, Cleanup(f.to[id], due), j), f)
  {
    SameCleanup(a, b, blk, id, due, f);
  }

  lemma SameLocalCleanup(a: Book, b: Book, x: Shared, ia: Input, ib: Input, f: Renaming)
    requires Replicas(a, b, f) && IsLocal(a, x, ia) && IsLocal(b, x, ib) && ia.Cleanup?
    ensures ia.id in f.to && ib == Cleanup(f.to[ia.id], ia.due)
  {
    LocalCleanups(a, b, x.hash, ia.id, ib.id, f);
  }

  lemma SameChainStep(c: Config, a: Book, b: Book, blk: Block, x: Input, i: Id, j: Id, f: Renaming)
    requires SameBook(a, b, f) && a.live.Keys !! a.history.Keys && b.live.Keys !! b.history.Keys
    requires !x.BlobPosted? && !x.Cleanup?
    ensures SameBook(Step(c, a, blk, x, i), Step(c, b, blk, x, j), f)
  {
    match x
    case NullifierSeen(n, tx) => SameNullifier(a, b, blk, n, tx, f);
    case CommitmentSeen(k, tx, mt) => SameCommitment(a, b, blk, k, tx, mt, f);
    case UnshieldedSpent(_, _, _, _) => SameUtxoStep(c, a, b, blk, x, i, j, f);
    case UnshieldedCreated(_, _, _, _, _) => SameUtxoStep(c, a, b, blk, x, i, j, f);
    case RootSeen(r) => SameRoot(c, a, b, blk, r, f);
  }

  lemma SameUtxoStep(c: Config, a: Book, b: Book, blk: Block, x: Input, i: Id, j: Id, f: Renaming)
    requires SameBook(a, b, f) && a.live.Keys !! a.history.Keys && b.live.Keys !! b.history.Keys
    requires x.UnshieldedSpent? || x.UnshieldedCreated?
    ensures SameBook(Step(c, a, blk, x, i), Step(c, b, blk, x, j), f)
  {
    if !Malformed(x.owner, x.intentHash, x.outputIndex) {
      var u := Utxo(x.owner, x.intentHash, x.outputIndex.value);
      match x
      case UnshieldedSpent(_, _, _, tx) => SameSpend(a, b, blk, u, tx, f);
      case UnshieldedCreated(_, _, _, tx, detail) => SameCreate(a, b, blk, u, tx, detail, f);
    }
  }

  lemma SameCommitment(a: Book, b: Book, blk: Block, k: string, tx: Option<string>, mt: string, f: Renaming)
    requires SameBook(a, b, f)
    ensures SameBook(OnCommitment(a, blk, k, tx, mt), OnCommitment(b, blk, k, tx, mt), f)
  {}

  lemma SameCreate(a: Book, b: Book, blk: Block, u: Utxo, tx: Option<string>, detail: string, f: Renaming)
    requires SameBook(a, b, f)
    ensures SameBook(OnUnshieldedCreate(a, blk, u, tx, detail), OnUnshieldedCreate(b, blk, u, tx, detail), f)
  {}

  lemma SameRoot(c: Config, a: Book, b: Book, blk: Block, r: string, f: Renaming)
    requires SameBook(a, b, f)
    ensures SameBook(OnRoot(c, a, blk, r), OnRoot(c, b, blk, r), f)
  {
    if r != "" {
      var roots := PruneRoots(UpsertRoot(a.roots, r, blk.height, blk.time), blk.time - c.rootWindow * 1000);
      SameTables(a, b, a.(roots := roots), b.(roots := roots), f);
    }
  }

  lemma SameBlob(c: Config, a: Book, b: Book, blk: Block, hash: string, v: Structural, crypto: Option<string>,
                 i: Id, j: Id, f: Renaming)
    requires Replicas(a, b, f) && i !in f.to && j !in f.from
    ensures
      var d := Judge(c, a, blk, hash, v, crypto);
      SameBook(OnBlob(c, a, blk, hash, v, crypto, i), OnBlob(c, b, blk, hash, v, crypto, j),
               if IsAccept(d) then Extend(f, i, j) else f)
  {
    SameVerdict(c, a, b, blk, hash, v, crypto, f);
    match Judge(c, a, blk, hash, v, crypto)
    case Reject(code, h, active) => SameReject(a, b, blk, code, h, active, f);
    case Fail =>
    case Accept(o, t) =>
      AcceptedExactlyWhen(c, a, blk, hash, v, crypto, t);
      SameAccept(c, a, b, blk, hash, o, t, i, j, f);
  }

  lemma CoversStep(c: Config, a: Book, b: Book, blk: Block, ia: Input, ib: Input, i: Id, j: Id, f: Renaming)
    requires Covers(f, a, b) && Accepts(c, a, blk, ia) == Accepts(c, b, blk, ib)
    ensures Covers(Grow(c, a, blk, ia, i, j, f), Step(c, a, blk, ia, i), Step(c, b, blk, ib, j))
  {
    StepIds(c, a, blk, ia, i);
    StepIds(c, b, blk, ib, j);
  }

  lemma SameAccepts(c: Config, a: Book, b: Book, blk: Block, x: Shared, ia: Input, ib: Input, f: Renaming)
    requires Replicas(a, b, f) && IsLocal(a, x, ia) && IsLocal(b, x, ib)
    ensures Accepts(c, a, blk, ia) == Accepts(c, b, blk, ib)
  {
    if ia.BlobPosted? {
      SameVerdict(c, a, b, blk, ia.hash, ia.verdict, ia.cryptoFailure, f);
    }
  }

  lemma ReplicasStep(c: Config, a: Book, b: Book, blk: Block, x: Shared, ia: Input, ib: Input, i: Id, j: Id, f: Renaming)
    requires Replicas(a, b, f) && IsLocal(a, x, ia) && IsLocal(b, x, ib)
    requires Enabled(a, blk, ia, i) && Enabled(b, blk, ib, j)
    ensures Replicas(Step(c, a, blk, ia, i), Step(c, b, blk, ib, j), Grow(c, a, blk, ia, i, j, f))
  {
    SameStep(c, a, b, blk, x, ia, ib, i, j, f);
    SameAccepts(c, a, b, blk, x, ia, ib, f);
    CoversStep(c, a, b, blk, ia, ib, i, j, f);
    StepKeepsInv(c, a, blk, ia, i);
    StepKeepsInv(c, b, blk, ib, j);
  }

  // ---- Whole runs ----

  datatype Delivery = Delivery(block: Block, input: Shared)

  /** `es` is one replica's local view of the shared deliveries, started in `s`. */
  ghost predicate LocalRun(c: Config, s: Book, ds: seq<Delivery>, es: seq<Event>)
    decreases |ds|
  {
    && |ds| == |es|
    && (ds != [] ==>
          && es[0].block == ds[0].block && IsLocal(s, ds[0].input, es[0].input)
          && Enabled(s, es[0].block, es[0].input, es[0].nextId)
          && LocalRun(c, Step(c, s, es[0].block, es[0].input, es[0].nextId), ds[1..], es[1..]))
  }

  /** Replica determinism: whatever ids each replica allocates, equal input leaves equal books. */
  lemma {:induction false} ReplicasAgree(c: Config, a: Book, b: Book, f: Renaming, ds: seq<Delivery>, ea: seq<Event>, eb: seq<Event>)
    returns (g: Renaming)
    requires Replicas(a, b, f) && LocalRun(c, a, ds, ea) && LocalRun(c, b, ds, eb)
    ensures Replicas(Run(c, a, ea), Run(c, b, eb), g)
    decreases |ds|
  {
    if ds == [] {
      g := f;
    } else {
      var x, y := ea[0], eb[0];
      ReplicasStep(c, a, b, x.block, ds[0].input, x.input, y.input, x.nextId, y.nextId, f);
      g := ReplicasAgree(c, Step(c, a, x.block, x.input, x.nextId), Step(c, b, y.block, y.input, y.nextId),
                         Grow(c, a, x.block, x.input, x.nextId, y.nextId, f), ds[1..], ea[1..], eb[1..]);
    }
  }

  lemma ReplicasAgreeFromEmpty(c: Config, ds: seq<Delivery>, ea: seq<Event>, eb: seq<Event>)
    requires LocalRun(c, Empty, ds, ea) && LocalRun(c, Empty, ds, eb)
    ensures exists g :: SameBook(Run(c, Empty, ea), Run(c, Empty, eb), g) && Covers(g, Run(c, Empty, ea), Run(c, Empty, eb))
  {
    EmptyIsInv();
    var f := Renaming(map[], map[]);
    assert Replicas(Empty, Empty, f);
    var g := ReplicasAgree(c, Empty, Empty, f, ds, ea, eb);
  }
}
