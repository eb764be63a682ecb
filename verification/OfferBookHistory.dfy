/** What the node answers about a blob, in terms of the inputs it has processed so far. */
module OfferBookHistory {
  import opened Prelude
  import opened AppEvents
  import opened OfferExpiry
  import opened OfferLiveness
  import opened OfferBook
  import opened OfferBookInvariants
  import Runs = OfferBookRuns
  import opened OfferBookIds
  import opened RootWindow

  // ---- What one input says about the chain ----

  predicate SpendsNullifier(i: Input, n: string) { i.NullifierSeen? && i.nullifier == n }

  predicate Creates(i: Input, u: Utxo) {
    i.UnshieldedCreated? && i.owner == u.owner != "" && i.intentHash == u.intentHash != "" && i.outputIndex == Some(u.outputNo)
  }

  predicate Spends(i: Input, u: Utxo) {
    i.UnshieldedSpent? && i.owner == u.owner != "" && i.intentHash == u.intentHash != "" && i.outputIndex == Some(u.outputNo)
  }

  predicate ShowsRoot(i: Input) { i.RootSeen? && i.root != "" }

  function RootsAfter(c: Config, roots: map<string, RootRow>, b: Block, i: Input): map<string, RootRow> {
    if ShowsRoot(i) then PruneRoots(UpsertRoot(roots, i.root, b.height, b.time), b.time - c.rootWindow * 1000) else roots
  }

  /** The three tables the liveness checks read, after one input. */
  ghost predicate ChainStep(c: Config, s: Book, b: Block, i: Input, later: Book) {
    && (forall n :: n in later.nullifiers <==> n in s.nullifiers || SpendsNullifier(i, n))
    && (forall u :: u in later.created <==> Creates(i, u) || (u in s.created && !Spends(i, u)))
    && later.roots == RootsAfter(c, s.roots, b, i)
  }

  lemma ConsumeKeepsChain(s: Book, ids: set<Id>, cause: Cause, at: int)
    ensures
      var t := Consume(s, ids, cause, at);
      t.nullifiers == s.nullifiers && t.created == s.created && t.roots == s.roots
  {
    if ids != {} { assert Consume(s, ids, cause, at) == Archive(s, ids, CONSUMED, at, Consumed(Hashes(s.live, ids), cause)); }
  }

  lemma NullifierTables(s: Book, b: Block, n: string, tx: Option<string>)
    ensures
      var t := OnNullifier(s, b, n, tx);
      t.nullifiers.Keys == s.nullifiers.Keys + {n} && t.created == s.created && t.roots == s.roots
  {
    var s1, ids := WithSpent(s, b, n, tx), WithNullifier(s.live, n);
    assert s1.nullifiers.Keys == s.nullifiers.Keys + {n};
    if ids != {} {
      MarkingKeepsKeys(s1, n);
      ConsumeKeepsChain(MarkMatched(s1, n), ids, ByNullifier(n), b.time);
    }
  }

  lemma NullifierChain(c: Config, s: Book, b: Block, n: string, tx: Option<string>)
    ensures ChainStep(c, s, b, NullifierSeen(n, tx), OnNullifier(s, b, n, tx))
  {
    NullifierTables(s, b, n, tx);
    var t := OnNullifier(s, b, n, tx);
    assert forall x :: x in t.nullifiers <==> x in t.nullifiers.Keys;
  }

  lemma SpendChain(c: Config, s: Book, b: Block, owner: string, hash: string, no: Option<int>, tx: Option<string>)
    requires !Malformed(owner, hash, no)
    ensures ChainStep(c, s, b, UnshieldedSpent(owner, hash, no, tx), OnUnshieldedSpend(s, b, Utxo(owner, hash, no.value), tx))
  {
    var u := Utxo(owner, hash, no.value);
    var s1 := s.(spends := FirstWins(s.spends, u, Sighting(b.height, tx, "")), created := s.created - {u});
    ConsumeKeepsChain(s1, WithSpend(s.live, u), BySpend(u), b.time);
  }

  lemma {:induction false} ReconcileKeepsChain(s: Book, ns: seq<string>, at: int)
    ensures
      var t := Reconcile(s, ns, at).0;
      t.nullifiers.Keys == s.nullifiers.Keys && t.created == s.created && t.roots == s.roots
    decreases |ns|
  {
    if ns != [] {
      var s1 := Consume(MarkMatched(s, ns[0]), WithNullifier(s.live, ns[0]), ByNullifier(ns[0]), at);
      ReconcileKeepsChain(s, ns[1..], at);
      ReconcileKeepsChain(s1, ns[1..], at);
      MarkingKeepsKeys(s, ns[0]);
      ConsumeKeepsChain(MarkMatched(s, ns[0]), WithNullifier(s.live, ns[0]), ByNullifier(ns[0]), at);
    }
  }

  lemma AcceptKeepsChain(s: Book, b: Block, hash: string, o: Offer, t: int, id: Id)
    ensures
      var later := OnAccept(s, b, hash, o, t, id);
      later.nullifiers.Keys == s.nullifiers.Keys && later.created == s.created && later.roots == s.roots
  {
    ReconcileKeepsChain(s.(live := s.live[id := NewRow(s, b, hash, o, t)]), o.nullifiers, b.time);
  }

  lemma RejectKeepsChain(s: Book, b: Block, code: string, hash: Option<string>, active: Option<string>)
    ensures
      var later := OnReject(s, b, code, hash, active);
      later.nullifiers.Keys == s.nullifiers.Keys && later.created == s.created && later.roots == s.roots
  {}

  lemma BlobKeepsChain(c: Config, s: Book, b: Block, hash: string, v: Structural, crypto: Option<string>, id: Id)
    ensures
      var later := OnBlob(c, s, b, hash, v, crypto, id);
      later.nullifiers.Keys == s.nullifiers.Keys && later.created == s.created && later.roots == s.roots
  {
    match Judge(c, s, b, hash, v, crypto)
    case Reject(code, h, active) => RejectKeepsChain(s, b, code, h, active);
    case Fail =>
    case Accept(o, t) => AcceptKeepsChain(s, b, hash, o, t, id);
  }

  lemma UnchangedChain(c: Config, s: Book, b: Block, i: Input, later: Book)
    requires later.nullifiers.Keys == s.nullifiers.Keys && later.created.Keys == s.created.Keys && later.roots == s.roots
    requires i.BlobPosted? || i.Cleanup? || i.CommitmentSeen? || (i.RootSeen? && i.root == "")
             || (i.UnshieldedSpent? && Malformed(i.owner, i.intentHash, i.outputIndex))
             || (i.UnshieldedCreated? && Malformed(i.owner, i.intentHash, i.outputIndex))
    ensures ChainStep(c, s, b, i, later)
  {
    assert forall n :: n in later.nullifiers <==> n in later.nullifiers.Keys;
    assert forall u :: u in later.created <==> u in later.created.Keys;
  }

  lemma CreateChain(c: Config, s: Book, b: Block, owner: string, hash: string, no: Option<int>, tx: Option<string>, detail: string)
    requires !Malformed(owner, hash, no)
    ensures ChainStep(c, s, b, UnshieldedCreated(owner, hash, no, tx, detail),
                      OnUnshieldedCreate(s, b, Utxo(owner, hash, no.value), tx, detail))
  {}

  lemma RootChain(c: Config, s: Book, b: Block, root: string)
    requires root != ""
    ensures ChainStep(c, s, b, RootSeen(root), OnRoot(c, s, b, root))
  {}

  lemma CleanupKeepsChain(s: Book, b: Block, id: Id, due: bool)
    ensures
      var t := OnCleanup(s, b, id, due);
      t.nullifiers == s.nullifiers && t.created == s.created && t.roots == s.roots
  {}

  lemma StepChain(c: Config, s: Book, b: Block, i: Input, id: Id)
    ensures ChainStep(c, s, b, i, Step(c, s, b, i, id))
  {
    match i
    case NullifierSeen(n, tx) => NullifierChain(c, s, b, n, tx);
    case UnshieldedSpent(owner, hash, no, tx) =>
      if Malformed(owner, hash, no) { UnchangedChain(c, s, b, i, s); } else { SpendChain(c, s, b, owner, hash, no, tx); }
    case UnshieldedCreated(owner, hash, no, tx, detail) =>
      if Malformed(owner, hash, no) { UnchangedChain(c, s, b, i, s); } else { CreateChain(c, s, b, owner, hash, no, tx, detail); }
    case RootSeen(r) => if r == "" { UnchangedChain(c, s, b, i, s); } else { RootChain(c, s, b, r); }
    case BlobPosted(hash, v, crypto) =>
      BlobKeepsChain(c, s, b, hash, v, crypto, id);
      UnchangedChain(c, s, b, i, OnBlob(c, s, b, hash, v, crypto, id));
    case CommitmentSeen(k, tx, mt) => UnchangedChain(c, s, b, i, OnCommitment(s, b, k, tx, mt));
    case Cleanup(j, due) =>
      CleanupKeepsChain(s, b, j, due);
      UnchangedChain(c, s, b, i, OnCleanup(s, b, j, due));
  }

  // ---- A whole run ----

  lemma {:induction false} RunSnoc(c: Config, s: Book, es: seq<Event>)
    requires es != []
    ensures
      var e := es[|es| - 1];
      Run(c, s, es) == Step(c, Run(c, s, es[..|es| - 1]), e.block, e.input, e.nextId)
    decreases |es|
  {
    if |es| > 1 {
      var rest := es[1..];
      RunSnoc(c, Step(c, s, es[0].block, es[0].input, es[0].nextId), rest);
      assert rest[..|rest| - 1] == es[..|es| - 1][1..];
    } else {
      assert es[..0] == [];
    }
  }

  ghost predicate WasSpent(es: seq<Event>, n: string) { exists k :: 0 <= k < |es| && SpendsNullifier(es[k].input, n) }

  /** The UTXO was created, and not spent since. */
  ghost predicate IsUnspent(es: seq<Event>, u: Utxo) {
    exists k :: 0 <= k < |es| && Creates(es[k].input, u) && forall j :: k < j < |es| ==> !Spends(es[j].input, u)
  }

  function RootSightings(es: seq<Event>): seq<RootSighting> {
    if es == [] then [] else
    var e := es[|es| - 1];
    RootSightings(es[..|es| - 1]) + if ShowsRoot(e.input) then [Seen(e.input.root, e.block.height, e.block.time)] else []
  }

  lemma {:induction false} RunSpent(c: Config, es: seq<Event>, n: string)
    ensures n in Run(c, Empty, es).nullifiers <==> WasSpent(es, n)
  {
    if es != [] {
      var k := |es| - 1;
      var init, e := es[..k], es[k];
      RunSpent(c, init, n);
      RunSnoc(c, Empty, es);
      StepChain(c, Run(c, Empty, init), e.block, e.input, e.nextId);
      if WasSpent(init, n) {
        var j :| 0 <= j < k && SpendsNullifier(init[j].input, n);
        assert SpendsNullifier(es[j].input, n);
      }
      if WasSpent(es, n) {
        var j :| 0 <= j < |es| && SpendsNullifier(es[j].input, n);
        assert j == k || SpendsNullifier(init[j].input, n);
      }
    }
  }

  lemma UnspentSnoc(es: seq<Event>, u: Utxo)
    requires es != []
    ensures
      var k := |es| - 1;
      IsUnspent(es, u) <==> Creates(es[k].input, u) || (IsUnspent(es[..k], u) && !Spends(es[k].input, u))
  {
    var k := |es| - 1;
    var init := es[..k];
    if Creates(es[k].input, u) {
      assert IsUnspent(es, u);
    } else {
      if IsUnspent(es, u) {
        var j :| 0 <= j < |es| && Creates(es[j].input, u) && forall x :: j < x < |es| ==> !Spends(es[x].input, u);
        assert Creates(init[j].input, u) && forall x :: j < x < k ==> !Spends(init[x].input, u);
      }
      if IsUnspent(init, u) && !Spends(es[k].input, u) {
        var j :| 0 <= j < k && Creates(init[j].input, u) && forall x :: j < x < k ==> !Spends(init[x].input, u);
        assert Creates(es[j].input, u);
        forall x | j < x < |es| ensures !Spends(es[x].input, u) { if x < k { assert init[x] == es[x]; } }
      }
    }
  }

  lemma {:induction false} RunUnspent(c: Config, es: seq<Event>, u: Utxo)
    ensures u in Run(c, Empty, es).created <==> IsUnspent(es, u)
  {
    if es != [] {
      var k := |es| - 1;
      RunUnspent(c, es[..k], u);
      RunSnoc(c, Empty, es);
      StepChain(c, Run(c, Empty, es[..k]), es[k].block, es[k].input, es[k].nextId);
      UnspentSnoc(es, u);
    }
  }

  lemma {:induction false} RunRoots(c: Config, es: seq<Event>)
    ensures Run(c, Empty, es).roots == Kept(RootSightings(es), c.rootWindow)
  {
    if es != [] {
      var k := |es| - 1;
      RunRoots(c, es[..k]);
      RunSnoc(c, Empty, es);
      StepChain(c, Run(c, Empty, es[..k]), es[k].block, es[k].input, es[k].nextId);
      if ShowsRoot(es[k].input) {
        KeptSnoc(RootSightings(es[..k]), Seen(es[k].input.root, es[k].block.height, es[k].block.time), c.rootWindow);
      } else {
        assert RootSightings(es) == RootSightings(es[..k]);
      }
    }
  }

  lemma KeptSnoc(ss: seq<RootSighting>, x: RootSighting, window: nat)
    ensures Kept(ss + [x], window) == PruneRoots(UpsertRoot(Kept(ss, window), x.root, x.height, x.time), x.time - window * 1000)
  {
    assert (ss + [x])[..|ss|] == ss;
  }

  // ---- Which offers are known ----

  ghost predicate KnownIn(rows: map<Id, Row>, hash: string) { exists id :: id in rows && rows[id].hash == hash }

  lemma KnownRows(s: Book, hash: string)
    requires s.live.Keys !! s.history.Keys
    ensures HashKnown(s, hash) <==> KnownIn(Rows(s.live, s.history), hash)
  {
    var rows := Rows(s.live, s.history);
    if id :| id in s.live && s.live[id].hash == hash { assert rows[id].hash == hash; }
    if id :| id in s.history && s.history[id].row.hash == hash { assert rows[id].hash == hash; }
  }

  lemma GrownRows(rows: map<Id, Row>, later: map<Id, Row>, hash: string, id: Id, grown: bool, newHash: string)
    requires Runs.Within(rows, later) && later.Keys == rows.Keys + if grown then {id} else {}
    requires grown ==> id !in rows && later[id].hash == newHash
    ensures KnownIn(later, hash) <==> KnownIn(rows, hash) || (grown && newHash == hash)
  {
    if i :| i in rows && rows[i].hash == hash { assert later[i].hash == hash; }
  }

  lemma NewRowHash(c: Config, s: Book, b: Block, i: Input, id: Id)
    requires Accepts(c, s, b, i)
    ensures id in Step(c, s, b, i, id).live && Step(c, s, b, i, id).live[id].hash == i.hash
  {
    var o := i.verdict.offer;
    var t := Judge(c, s, b, i.hash, i.verdict, i.cryptoFailure).expiresAt;
    AcceptedExactlyWhen(c, s, b, i.hash, i.verdict, i.cryptoFailure, t);
    AcceptInserts(s, b, i.hash, o, t, id);
  }

  lemma GrownBook(s: Book, later: Book, id: Id, grown: bool, newHash: string, hash: string)
    requires s.live.Keys !! s.history.Keys && later.live.Keys !! later.history.Keys
    requires Runs.Within(Rows(s.live, s.history), Rows(later.live, later.history)) && Ids(later) == Ids(s) + if grown then {id} else {}
    requires grown ==> id !in Ids(s) && id in later.live && later.live[id].hash == newHash
    ensures HashKnown(later, hash) <==> HashKnown(s, hash) || (grown && newHash == hash)
  {
    KnownRows(s, hash);
    KnownRows(later, hash);
    GrownRows(Rows(s.live, s.history), Rows(later.live, later.history), hash, id, grown, newHash);
  }

  lemma StepKnown(c: Config, s: Book, b: Block, i: Input, id: Id, hash: string)
    requires Inv(s) && Enabled(s, b, i, id)
    ensures HashKnown(Step(c, s, b, i, id), hash) <==> HashKnown(s, hash) || (Accepts(c, s, b, i) && i.hash == hash)
  {
    StepKeepsInv(c, s, b, i, id);
    Runs.StepExtends(c, s, b, i, id);
    StepIds(c, s, b, i, id);
    var grown := Accepts(c, s, b, i);
    if grown { NewRowHash(c, s, b, i, id); }
    GrownBook(s, Step(c, s, b, i, id), id, grown, if i.BlobPosted? then i.hash else "", hash);
  }

  lemma {:induction false} EnabledSnoc(c: Config, s: Book, es: seq<Event>)
    requires es != [] && RunEnabled(c, s, es)
    ensures
      var e := es[|es| - 1];
      RunEnabled(c, s, es[..|es| - 1]) && Enabled(Run(c, s, es[..|es| - 1]), e.block, e.input, e.nextId)
    decreases |es|
  {
    if |es| > 1 {
      var rest := es[1..];
      EnabledSnoc(c, Step(c, s, es[0].block, es[0].input, es[0].nextId), rest);
      assert rest[..|rest| - 1] == es[..|es| - 1][1..];
    } else {
      assert es[..0] == [];
    }
  }

  /** The k-th input was an accepted blob of this hash. */
  ghost predicate IndexedAt(c: Config, es: seq<Event>, k: int, hash: string) {
    0 <= k < |es| && Accepts(c, Run(c, Empty, es[..k]), es[k].block, es[k].input) && es[k].input.hash == hash
  }

  /** A hash is known, live or archived, exactly when some blob of that hash was indexed before. */
  lemma {:induction false} RunKnown(c: Config, es: seq<Event>, hash: string)
    requires RunEnabled(c, Empty, es)
    ensures HashKnown(Run(c, Empty, es), hash) <==> exists k :: IndexedAt(c, es, k, hash)
  {
    if es != [] {
      var n := |es| - 1;
      var init, e := es[..n], es[n];
      EnabledSnoc(c, Empty, es);
      RunKnown(c, init, hash);
      EmptyIsInv();
      RunKeepsInv(c, Empty, init);
      RunSnoc(c, Empty, es);
      StepKnown(c, Run(c, Empty, init), e.block, e.input, e.nextId, hash);
      SameIndexed(c, es, hash);
    }
  }

  lemma SameIndexed(c: Config, es: seq<Event>, hash: string)
    requires es != []
    ensures
      var n := |es| - 1;
      (exists k :: IndexedAt(c, es, k, hash)) <==> IndexedAt(c, es, n, hash) || exists k :: IndexedAt(c, es[..n], k, hash)
  {
    var n := |es| - 1;
    assert forall k :: 0 <= k < n ==> es[..n][..k] == es[..k];
    if k :| IndexedAt(c, es, k, hash) { assert k == n || IndexedAt(c, es[..n], k, hash); }
    if k :| IndexedAt(c, es[..n], k, hash) { assert IndexedAt(c, es, k, hash); }
  }

  // ---- Admission ----

  /** What admits an offer, in terms of everything the node has seen. */
  ghost predicate Deserves(c: Config, es: seq<Event>, now: int, o: Offer) {
    && (forall n :: n in o.nullifiers ==> !WasSpent(es, n))
    && (forall u :: u in o.spends ==> IsUnspent(es, u))
    && (forall r :: r in o.roots ==>
          SeenSince(RootSightings(es), r, now - c.rootWindow * 1000) || Newest(RootSightings(es), r))
  }

  /** After any run, a proven offer with free markers and a derivable expiry is indexed exactly when no blob of its hash
      was indexed before, no nullifier event ever showed one of its nullifiers, each of its UTXOs was created and not
      spent since, and each of its roots was seen within the window or is the newest: the tables, pruned and rewritten
      along the way, lose nothing. */
  lemma AdmissionFromHistory(c: Config, es: seq<Event>, b: Block, hash: string, o: Offer, crypto: Option<string>, t: int)
    requires RunEnabled(c, Empty, es) && Forward(RootSightings(es))
    requires RootSightings(es) != [] ==> RootSightings(es)[|RootSightings(es)| - 1].time <= b.time
    ensures
      var s := Run(c, Empty, es);
      Judge(c, s, b, hash, WellFormed(o), crypto) == Accept(o, t) <==>
      crypto.None? && !(exists k :: IndexedAt(c, es, k, hash)) && Deserves(c, es, b.time, o) && Unclaimed(s.live, DeclaredMarkers(o))
      && OfferExpiryOf(c, s, b, o) == Ok(t)
  {
    var s := Run(c, Empty, es);
    AcceptedExactlyWhen(c, s, b, hash, WellFormed(o), crypto, t);
    SpendableFromHistory(c, es, b, o);
    RunKnown(c, es, hash);
    assert Admissible(c, s, b, hash, o) <==> !HashKnown(s, hash) && Spendable(c, s, b, o) && Unclaimed(s.live, DeclaredMarkers(o));
  }

  /** The tables answer the three questions as the history does. */
  ghost predicate Answers(s: Book, es: seq<Event>, cutoff: int) {
    && (forall n :: n in s.nullifiers <==> WasSpent(es, n))
    && (forall u :: u in s.created <==> IsUnspent(es, u))
    && (forall r :: RootLive(s.roots, r, cutoff) <==> SeenSince(RootSightings(es), r, cutoff) || Newest(RootSightings(es), r))
  }

  lemma TablesAnswer(c: Config, es: seq<Event>, cutoff: int)
    requires Forward(RootSightings(es))
    requires RootSightings(es) != [] ==> RootSightings(es)[|RootSightings(es)| - 1].time - c.rootWindow * 1000 <= cutoff
    ensures Answers(Run(c, Empty, es), es, cutoff)
  {
    RunRoots(c, es);
    var s := Run(c, Empty, es);
    forall n ensures n in s.nullifiers <==> WasSpent(es, n) { RunSpent(c, es, n); }
    forall u ensures u in s.created <==> IsUnspent(es, u) { RunUnspent(c, es, u); }
    forall r ensures RootLive(s.roots, r, cutoff) <==> SeenSince(RootSightings(es), r, cutoff) || Newest(RootSightings(es), r) {
      LiveExactly(RootSightings(es), c.rootWindow, r, cutoff);
    }
  }

  lemma AnswersMeanSpendable(c: Config, s: Book, es: seq<Event>, b: Block, o: Offer)
    requires Answers(s, es, b.time - c.rootWindow * 1000)
    ensures Spendable(c, s, b, o) <==> Deserves(c, es, b.time, o)
  {}

  lemma SpendableFromHistory(c: Config, es: seq<Event>, b: Block, o: Offer)
    requires Forward(RootSightings(es))
    requires RootSightings(es) != [] ==> RootSightings(es)[|RootSightings(es)| - 1].time <= b.time
    ensures Spendable(c, Run(c, Empty, es), b, o) <==> Deserves(c, es, b.time, o)
  {
    TablesAnswer(c, es, b.time - c.rootWindow * 1000);
    AnswersMeanSpendable(c, Run(c, Empty, es), es, b, o);
  }
}
