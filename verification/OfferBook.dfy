/** The offer book: the tables of the node's state machine and the effect of every input on them. */
module OfferBook {
  import opened Prelude
  import opened AppEvents
  import opened OfferExpiry
  import opened OfferLiveness

  type Id = nat

  // ---- What a transaction declares ----

  datatype OutputDecl = OutputDecl(ref: Utxo, tokenType: string, value: string)

  datatype Offer = Offer(
    nullifiers: seq<string>, spends: seq<Utxo>, roots: seq<string>,
    commitments: seq<string>, outputs: seq<OutputDecl>,
    gives: seq<Leg>, wants: seq<Leg>,
    intentTtl: Candidate, dust: seq<IntentDust>)

  /** The verdict of the structural validator, which is not part of this model. */
  datatype Structural = Refused(code: string) | WellFormed(offer: Offer)

  datatype Marker = Commitment(commitment: string) | Output(ref: Utxo)

  function DeclaredMarkers(o: Offer): (ms: seq<Marker>)
    ensures |ms| == |o.commitments| + |o.outputs|
    ensures forall i :: 0 <= i < |o.commitments| ==> ms[i] == Commitment(o.commitments[i])
    ensures forall i :: 0 <= i < |o.outputs| ==> ms[|o.commitments| + i] == Output(o.outputs[i].ref)
  {
    seq(|o.commitments|, i requires 0 <= i < |o.commitments| => Commitment(o.commitments[i]))
    + seq(|o.outputs|, i requires 0 <= i < |o.outputs| => Output(o.outputs[i].ref))
  }

  // ---- Tables ----

  datatype OutputRow = OutputRow(tokenType: string, value: string, count: nat)

  /** A row of `offer_file` with the child rows that live and die with it. */
  datatype Row = Row(
    hash: string, height: int, createdAt: int, expiresAt: int, firstSeenAt: int, ttlSeconds: nat,
    nullifiers: set<string>, spends: set<Utxo>, commitments: set<string>, outputs: map<Utxo, OutputRow>,
    gives: seq<Leg>, wants: seq<Leg>)

  datatype Reason = CONSUMED | TTL

  datatype Archived = Archived(row: Row, reason: Reason, archivedAt: int)

  datatype Spent = Spent(height: int, txHash: Option<string>, matched: bool)

  datatype Sighting = Sighting(height: int, txHash: Option<string>, detail: string)

  /** A pending scheduled cleanup. */
  datatype Due = Due(id: Id, at: int)

  /** One group of published events: the rows of one archive statement, or a single event. */
  datatype Emission =
    | Indexed(id: Id, hash: string, height: int, gives: seq<Leg>, wants: seq<Leg>)
    | Consumed(rows: map<Id, string>, cause: Cause)
    | Expired(id: Id, hash: string)
    | Rejected(code: string, rejected: Option<string>, active: Option<string>, height: int)

  datatype Book = Book(
    live: map<Id, Row>, history: map<Id, Archived>,
    nullifiers: map<string, Spent>, commitments: map<string, Sighting>,
    created: map<Utxo, int>, spends: map<Utxo, Sighting>, creates: map<Utxo, Sighting>,
    roots: map<string, RootRow>, schedule: set<Due>,
    rejections: map<(int, string), nat>, log: seq<Emission>)

  const Empty := Book(map[], map[], map[], map[], map[], map[], map[], map[], {}, map[], [])

  /** The deployment's windows, in seconds. */
  datatype Config = Config(rootWindow: nat, offerTtl: nat, dustGrace: nat)

  /** Height and deterministic timestamp of the block an input belongs to. */
  datatype Block = Block(height: int, time: int)

  datatype Input =
    | CommitmentSeen(commitment: string, txHash: Option<string>, mtIndex: string)
    | NullifierSeen(nullifier: string, txHash: Option<string>)
    | UnshieldedSpent(owner: string, intentHash: string, outputIndex: Option<int>, txHash: Option<string>)
    | UnshieldedCreated(owner: string, intentHash: string, outputIndex: Option<int>, txHash: Option<string>, detail: string)
    | RootSeen(root: string)
    | BlobPosted(hash: string, verdict: Structural, cryptoFailure: Option<string>)
    | Cleanup(id: Id, due: bool)

  // ---- Archiving ----

  function Moved(live: map<Id, Row>, ids: set<Id>, reason: Reason, at: int): map<Id, Archived> {
    map id | id in ids && id in live :: Archived(live[id], reason, at)
  }

  /** Move the rows `ids` to the history and publish `e`. */
  function Archive(s: Book, ids: set<Id>, reason: Reason, at: int, e: Emission): Book {
    s.(live := s.live - ids, history := s.history + Moved(s.live, ids, reason, at), log := s.log + [e])
  }

  function Hashes(live: map<Id, Row>, ids: set<Id>): map<Id, string> {
    map id | id in ids && id in live :: live[id].hash
  }

  /** Archive the rows `ids` as consumed and publish one event for each. */
  function Consume(s: Book, ids: set<Id>, cause: Cause, at: int): Book {
    if ids == {} then s
    else Archive(s, ids, CONSUMED, at, Consumed(Hashes(s.live, ids), cause))
  }

  function WithNullifier(live: map<Id, Row>, n: string): set<Id> {
    set id | id in live && n in live[id].nullifiers
  }

  function WithSpend(live: map<Id, Row>, u: Utxo): set<Id> {
    set id | id in live && u in live[id].spends
  }

  function MarkMatched(s: Book, n: string): Book {
    if n in s.nullifiers then s.(nullifiers := s.nullifiers[n := s.nullifiers[n].(matched := true)]) else s
  }

  // ---- Chain observations ----

  function FirstWins<K, V>(m: map<K, V>, k: K, v: V): map<K, V> {
    if k in m then m else m[k := v]
  }

  function OnCommitment(s: Book, b: Block, commitment: string, txHash: Option<string>, mtIndex: string): Book {
    s.(commitments := FirstWins(s.commitments, commitment, Sighting(b.height, txHash, mtIndex)))
  }

  function OnNullifier(s: Book, b: Block, n: string, txHash: Option<string>): Book {
    var s1 := s.(nullifiers := FirstWins(s.nullifiers, n, Spent(b.height, txHash, false)));
    var ids := WithNullifier(s.live, n);
    if ids == {} then s1 else Consume(MarkMatched(s1, n), ids, ByNullifier(n), b.time)
  }

  function OnUnshieldedSpend(s: Book, b: Block, u: Utxo, txHash: Option<string>): Book {
    var s1 := s.(spends := FirstWins(s.spends, u, Sighting(b.height, txHash, "")), created := s.created - {u});
    Consume(s1, WithSpend(s.live, u), BySpend(u), b.time)
  }

  function OnUnshieldedCreate(s: Book, b: Block, u: Utxo, txHash: Option<string>, detail: string): Book {
    s.(created := FirstWins(s.created, u, b.height),
       creates := FirstWins(s.creates, u, Sighting(b.height, txHash, detail)))
  }

  function UpsertRoot(roots: map<string, RootRow>, root: string, height: int, seen: int): map<string, RootRow> {
    roots[root := RootRow(height, seen, if root in roots then roots[root].firstSeen else seen)]
  }

  function PruneRoots(roots: map<string, RootRow>, cutoff: int): map<string, RootRow> {
    map r | r in roots && RootLive(roots, r, cutoff) :: roots[r]
  }

  function OnRoot(c: Config, s: Book, b: Block, root: string): Book {
    if root == "" then s
    else s.(roots := PruneRoots(UpsertRoot(s.roots, root, b.height, b.time), b.time - c.rootWindow * 1000))
  }

  // ---- Blob ingestion ----

  predicate Claims(row: Row, m: Marker) {
    match m
    case Commitment(c) => c in row.commitments
    case Output(u) => u in row.outputs
  }

  function Claimants(live: map<Id, Row>, m: Marker): set<Id> {
    set id | id in live && Claims(live[id], m)
  }

  /** The hash of the active offer that already claims the marker. At most one does in a reachable book. */
  ghost function Incumbent(live: map<Id, Row>, m: Marker): Option<string> {
    if Claimants(live, m) == {} then None
    else var id :| id in Claimants(live, m); Some(live[id].hash)
  }

  ghost function FirstIncumbent(live: map<Id, Row>, ms: seq<Marker>): Option<string> {
    if ms == [] then None
    else if Incumbent(live, ms[0]).Some? then Incumbent(live, ms[0])
    else FirstIncumbent(live, ms[1..])
  }

  predicate HashKnown(s: Book, hash: string) {
    || (exists id :: id in s.live && s.live[id].hash == hash)
    || (exists id :: id in s.history && s.history[id].row.hash == hash)
  }

  function FactsOf(s: Book): Facts {
    Facts(s.nullifiers.Keys, s.created.Keys, s.roots)
  }

  /** When the window of one proof root last started: the chain re-accepts its current root every block. */
  function RootAnchor(roots: map<string, RootRow>, root: string, blockTime: int): int
    requires root in roots
  {
    if IsTip(roots, root) then Max(roots[root].lastSeen, blockTime) else roots[root].lastSeen
  }

  function EarliestAnchor(roots: map<string, RootRow>, inputs: seq<string>, blockTime: int): Option<int> {
    if inputs == [] then None else
    var rest := EarliestAnchor(roots, inputs[1..], blockTime);
    if inputs[0] !in roots then rest else
    var here := RootAnchor(roots, inputs[0], blockTime);
    if rest.None? then Some(here) else Some(Min(here, rest.value))
  }

  function EarliestFirstSeen(roots: map<string, RootRow>, inputs: seq<string>): Option<int> {
    if inputs == [] then None else
    var rest := EarliestFirstSeen(roots, inputs[1..]);
    if inputs[0] !in roots then rest else
    if rest.None? then Some(roots[inputs[0]].firstSeen) else Some(Min(roots[inputs[0]].firstSeen, rest.value))
  }

  function RootDeadline(c: Config, s: Book, b: Block, o: Offer): Option<int> {
    match EarliestAnchor(s.roots, o.roots, b.time)
    case None => None
    case Some(t) => Some(t + c.rootWindow * 1000)
  }

  function OfferExpiryOf(c: Config, s: Book, b: Block, o: Offer): Result<int, ExpiryError> {
    var seen := EarliestFirstSeen(s.roots, o.roots);
    if seen.Some? && !Usable(At(seen.value)) then Err(Invalid("root first-seen")) else
    match DustDeadline(o.dust, c.dustGrace)
    case Err(e) => Err(e)
    case Ok(dust) =>
      Expiry(AsCandidate(RootDeadline(c, s, b, o)), o.intentTtl, AsCandidate(dust), At(b.time + c.offerTtl * 1000))
  }

  datatype Decision =
    | Reject(code: string, hash: Option<string>, active: Option<string>)
    | Fail
    | Accept(offer: Offer, expiresAt: int)

  ghost function Judge(c: Config, s: Book, b: Block, hash: string, verdict: Structural, cryptoFailure: Option<string>): Decision {
    match verdict
    case Refused(code) => Reject(code, None, None)
    case WellFormed(o) =>
      if HashKnown(s, hash) then Reject("DUPLICATE_OFFER", Some(hash), None) else
      var dead := FirstDead(FactsOf(s), Descriptors(o.nullifiers, o.spends, o.roots), b.time - c.rootWindow * 1000);
      if dead.Some? then Reject(FailureCode(dead.value), Some(hash), None) else
      if cryptoFailure.Some? then Reject(cryptoFailure.value, Some(hash), None) else
      var active := FirstIncumbent(s.live, DeclaredMarkers(o));
      if active.Some? then Reject("DUPLICATE_MARKERS", Some(hash), active) else
      match OfferExpiryOf(c, s, b, o)
      case Err(_) => Fail
      case Ok(t) => Accept(o, t)
  }

  /** One more rejection of this height and code. */
  function Counted(rejections: map<(int, string), nat>, k: (int, string)): map<(int, string), nat> {
    rejections[k := (if k in rejections then rejections[k] else 0) + 1]
  }

  function OnReject(s: Book, b: Block, code: string, hash: Option<string>, active: Option<string>): Book {
    s.(rejections := Counted(s.rejections, (b.height, code)),
       log := s.log + [Rejected(code, hash, active, b.height)])
  }

  function OutputRows(outputs: seq<OutputDecl>): map<Utxo, OutputRow> {
    if outputs == [] then map[] else
    var rest := OutputRows(outputs[..|outputs| - 1]);
    AddOutput(rest, outputs[|outputs| - 1])
  }

  /** The first declaration of an identity fixes its type and value; repeats only count. */
  function AddOutput(rows: map<Utxo, OutputRow>, d: OutputDecl): map<Utxo, OutputRow> {
    if d.ref in rows then rows[d.ref := rows[d.ref].(count := rows[d.ref].count + 1)]
    else rows[d.ref := OutputRow(d.tokenType, d.value, 1)]
  }

  function NewRow(s: Book, b: Block, hash: string, o: Offer, expiresAt: int): Row {
    var seen := EarliestFirstSeen(s.roots, o.roots);
    Row(hash, b.height, b.time, expiresAt, if seen.Some? then seen.value else b.time,
        OfferLifetimeSeconds(expiresAt, b.time),
        Elements(o.nullifiers), Elements(o.spends), Elements(o.commitments), OutputRows(o.outputs),
        o.gives, o.wants)
  }

  /** The reconciliation against nullifiers that arrived before their offer. */
  function Reconcile(s: Book, nullifiers: seq<string>, at: int): (Book, bool)
    decreases |nullifiers|
  {
    if nullifiers == [] then (s, false) else
    var n := nullifiers[0];
    if n !in s.nullifiers || s.nullifiers[n].matched then Reconcile(s, nullifiers[1..], at) else
    var ids := WithNullifier(s.live, n);
    var (s', early) := Reconcile(Consume(MarkMatched(s, n), ids, ByNullifier(n), at), nullifiers[1..], at);
    (s', early || ids != {})
  }

  function OnAccept(s: Book, b: Block, hash: string, o: Offer, expiresAt: int, nextId: Id): Book {
    var s1 := s.(live := s.live[nextId := NewRow(s, b, hash, o, expiresAt)]);
    var (s2, early) := Reconcile(s1, o.nullifiers, b.time);
    if early then s2
    else s2.(schedule := s2.schedule + {Due(nextId, expiresAt)},
             log := s2.log + [Indexed(nextId, hash, b.height, o.gives, o.wants)])
  }

  ghost function OnBlob(c: Config, s: Book, b: Block, hash: string, verdict: Structural,
                        cryptoFailure: Option<string>, nextId: Id): Book {
    match Judge(c, s, b, hash, verdict, cryptoFailure)
    case Reject(code, h, active) => OnReject(s, b, code, h, active)
    case Fail => s
    case Accept(o, t) => OnAccept(s, b, hash, o, t, nextId)
  }

  // ---- Scheduled cleanup ----

  function ExpireById(s: Book, id: Id, cutoff: int): Book {
    if id in s.live && s.live[id].expiresAt <= cutoff then
      Archive(s, {id}, TTL, cutoff, Expired(id, s.live[id].hash))
    else s
  }

  /** `due` tells a scheduled cleanup, whose schedule entry the runtime deletes, from a stray one. */
  function OnCleanup(s: Book, b: Block, id: Id, due: bool): Book {
    var s' := ExpireById(s, id, b.time);
    if due then s'.(schedule := Without(s'.schedule, id)) else s'
  }

  function Without(schedule: set<Due>, id: Id): set<Due> {
    set d | d in schedule && d.id != id
  }

  // ---- The transition system ----

  predicate Malformed(owner: string, intentHash: string, outputIndex: Option<int>) {
    owner == "" || intentHash == "" || outputIndex.None?
  }

  ghost function Step(c: Config, s: Book, b: Block, i: Input, nextId: Id): Book {
    match i
    case CommitmentSeen(k, tx, mt) => OnCommitment(s, b, k, tx, mt)
    case NullifierSeen(n, tx) => OnNullifier(s, b, n, tx)
    case UnshieldedSpent(owner, hash, no, tx) =>
      if Malformed(owner, hash, no) then s else OnUnshieldedSpend(s, b, Utxo(owner, hash, no.value), tx)
    case UnshieldedCreated(owner, hash, no, tx, detail) =>
      if Malformed(owner, hash, no) then s else OnUnshieldedCreate(s, b, Utxo(owner, hash, no.value), tx, detail)
    case RootSeen(r) => OnRoot(c, s, b, r)
    case BlobPosted(hash, v, crypto) => OnBlob(c, s, b, hash, v, crypto, nextId)
    case Cleanup(id, due) => OnCleanup(s, b, id, due)
  }

  /** What the environment guarantees: a row id is never handed out twice, and a scheduled cleanup fires
      only once its time has come. */
  ghost predicate Enabled(s: Book, b: Block, i: Input, nextId: Id) {
    && (i.BlobPosted? ==> nextId !in s.live && nextId !in s.history)
    && (i.Cleanup? && i.due ==> exists d :: d in s.schedule && d.id == i.id && d.at <= b.time)
  }

  datatype Event = Event(block: Block, input: Input, nextId: Id)

  ghost function Run(c: Config, s: Book, es: seq<Event>): Book
    decreases |es|
  {
    if es == [] then s
    else Run(c, Step(c, s, es[0].block, es[0].input, es[0].nextId), es[1..])
  }

  ghost predicate RunEnabled(c: Config, s: Book, es: seq<Event>)
    decreases |es|
  {
    es == [] || (Enabled(s, es[0].block, es[0].input, es[0].nextId)
                 && RunEnabled(c, Step(c, s, es[0].block, es[0].input, es[0].nextId), es[1..]))
  }
}
