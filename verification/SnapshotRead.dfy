/** Answering from one committed state without holding a snapshot: read the newest block, read many rows, read the
    newest block again, and retry when it moved. A writer may commit between any two queries. */
module SnapshotRead {
  import opened Prelude
  import opened AppEvents
  import opened OfferExpiry
  import opened OfferLiveness

  const MAX_U64 := 18_446_744_073_709_551_615
  const MAX_SAFE_INTEGER := 9_007_199_254_740_991
  const READ_ATTEMPTS := 3
  const CURRENT_ATTEMPTS := 2

  // ---- Committed states ----

  /** What the offer query returns: the stored hash, the hash of the stored bytes (None when they do not decode),
      the lifecycle status and the expiry. */
  datatype Stored = Stored(hash: string, bytesHash: Option<string>, status: string, expiry: Candidate)

  /** One committed database: the height of its newest block, that block's timestamp, and its rows. */
  datatype Db = Db(height: int, stamp: Option<int>, offers: map<string, Stored>, facts: Facts)

  datatype Anchor = Anchor(version: int, at: int)

  /** Every commit adds a higher block. */
  predicate Committed(history: seq<Db>) {
    history != [] && forall i, j :: 0 <= i < j < |history| ==> history[i].height < history[j].height
  }

  /** The newest block that carries a timestamp, when commit `i` is the latest. */
  function LatestStamped(history: seq<Db>, i: nat): (r: Option<nat>)
    requires i < |history|
    ensures r.Some? ==> r.value <= i && history[r.value].stamp.Some? && forall j :: r.value < j <= i ==> history[j].stamp.None?
    ensures r.None? ==> forall j :: 0 <= j <= i ==> history[j].stamp.None?
  {
    if history[i].stamp.Some? then Some(i) else if i == 0 then None else LatestStamped(history, i - 1)
  }

  predicate CanonicalAnchor(a: Anchor) { 1 <= a.version <= MAX_U64 && 0 <= a.at <= MAX_SAFE_INTEGER && a.at <= MAX_DATE_MS }

  function AnchorOf(history: seq<Db>, i: nat): Option<Anchor>
    requires i < |history|
  {
    var k := LatestStamped(history, i);
    if k.None? then None else
    var a := Anchor(history[k.value].height, history[k.value].stamp.value);
    if CanonicalAnchor(a) then Some(a) else None
  }

  ghost predicate NewestStamped(history: seq<Db>, i: nat, k: nat)
    requires i < |history|
  {
    k <= i && history[k].stamp.Some? && forall j :: k < j <= i ==> history[j].stamp.None?
  }

  /** The anchor is the newest block with a timestamp, when its height is a positive 64-bit number and the timestamp a date
      from the epoch on; otherwise there is none, whatever came before it. */
  lemma AnchorExactly(history: seq<Db>, i: nat, a: Anchor)
    requires i < |history|
    ensures AnchorOf(history, i) == Some(a) <==>
              && (exists k: nat :: NewestStamped(history, i, k) && a == Anchor(history[k].height, history[k].stamp.value))
              && 1 <= a.version <= 0xFFFF_FFFF_FFFF_FFFF && 0 <= a.at <= 8_640_000_000_000_000
  {
    var k := LatestStamped(history, i);
    if k.Some? { assert NewestStamped(history, i, k.value); }
    if n: nat :| NewestStamped(history, i, n) { assert k == Some(n); }
  }

  // ---- When two equal anchors pin one commit ----

  /** Once a block carries a timestamp, so does every later one. */
  predicate Stamped(history: seq<Db>) {
    forall i, j :: 0 <= i < j < |history| && history[i].stamp.Some? ==> history[j].stamp.Some?
  }

  lemma EqualAnchorsSameBlock(history: seq<Db>, i: nat, j: nat)
    requires Committed(history) && i < |history| && j < |history|
    requires AnchorOf(history, i).Some? && AnchorOf(history, i) == AnchorOf(history, j)
    ensures LatestStamped(history, i) == LatestStamped(history, j)
  {
    var x, y := LatestStamped(history, i).value, LatestStamped(history, j).value;
    assert history[x].height == history[y].height;
    assert x == y;
  }

  predicate SameStampedBlock(history: seq<Db>, i: nat, j: nat)
    requires i < |history| && j < |history|
  {
    LatestStamped(history, i).Some? && LatestStamped(history, i) == LatestStamped(history, j)
  }

  /** An unchanged anchor means nothing was committed in between, for every pair of reads, exactly when no block
      after a stamped one lacks a timestamp. */
  lemma AnchorPinsCommitExactly(history: seq<Db>)
    requires Committed(history)
    ensures Stamped(history) <==>
            forall i, j :: 0 <= i <= j < |history| && SameStampedBlock(history, i, j) ==> i == j
  {
    if !Stamped(history) {
      var i, j :| 0 <= i < j < |history| && history[i].stamp.Some? && history[j].stamp.None?;
      assert SameStampedBlock(history, j - 1, j);
    }
  }

  lemma PinnedCommit(history: seq<Db>, i: nat, j: nat)
    requires Committed(history) && Stamped(history) && i <= j < |history|
    requires AnchorOf(history, i).Some? && AnchorOf(history, i) == AnchorOf(history, j)
    ensures i == j
  {
    EqualAnchorsSameBlock(history, i, j);
    AnchorPinsCommitExactly(history);
    assert SameStampedBlock(history, i, j);
  }

  // ---- The verdict of one committed state ----

  datatype Validation = Validation(nullifiers: seq<string>, spends: seq<Utxo>, roots: seq<string>, gives: seq<Leg>, wants: seq<Leg>)

  datatype State = State(status: string, live: bool, expiresAt: Option<int>, failure: Option<string>)

  function Normalize(status: string): string {
    if status in ["live", "consumed", "cancelled", "expired"] then status else "unknown"
  }

  function ParseExpiry(c: Candidate): Option<int> {
    if Usable(c) && 0 <= c.ms <= MAX_SAFE_INTEGER then Some(c.ms) else None
  }

  function DescriptorsOf(v: Validation): seq<Descriptor> { Descriptors(v.nullifiers, v.spends, v.roots) }

  /** None is an internal inconsistency: the service is unavailable rather than wrong. */
  function Decide(row: Option<Stored>, dead: Option<Descriptor>, offerId: string, at: int): Option<State> {
    if row.None? then Some(State("not_indexed", false, None, Some("NOT_INDEXED"))) else
    var r := row.value;
    if r.hash != offerId || r.bytesHash != Some(offerId) then None else
    var status, expiry := Normalize(r.status), ParseExpiry(r.expiry);
    if status != "live" then Some(State(status, false, expiry, Some("NOT_LIVE"))) else
    if expiry.None? then None else
    if expiry.value <= at then Some(State("live", false, expiry, Some("EXPIRED"))) else
    if dead.Some? then Some(State("live", false, expiry, Some(FailureCode(dead.value)))) else
    Some(State("live", true, expiry, None))
  }

  function Lookup(db: Db, offerId: string): Option<Stored> {
    if offerId in db.offers then Some(db.offers[offerId]) else None
  }

  function Evaluate(db: Db, offerId: string, v: Validation, at: int, window: nat): Option<State> {
    Decide(Lookup(db, offerId), FirstDead(db.facts, DescriptorsOf(v), at - window * 1000), offerId, at)
  }

  /** What "usable" means in one committed state, without reference to how it is decided. */
  predicate UsableAt(db: Db, offerId: string, v: Validation, at: int, window: nat) {
    && offerId in db.offers
    && db.offers[offerId].hash == offerId && db.offers[offerId].bytesHash == Some(offerId)
    && db.offers[offerId].status == "live"
    && Usable(db.offers[offerId].expiry) && at < db.offers[offerId].expiry.ms
    && (forall n :: n in v.nullifiers ==> n !in db.facts.spent)
    && (forall u :: u in v.spends ==> u in db.facts.created)
    && (forall r :: r in v.roots ==> RootLive(db.facts.roots, r, at - window * 1000))
  }

  lemma LiveMeansUsable(db: Db, offerId: string, v: Validation, at: int, window: nat)
    requires 0 <= at
    ensures (exists s :: Evaluate(db, offerId, v, at, window) == Some(s) && s.failure == None) <==> UsableAt(db, offerId, v, at, window)
    ensures forall s :: Evaluate(db, offerId, v, at, window) == Some(s) ==> s.live == (s.failure == None)
  {
    VerdictOrder(db.facts, v.nullifiers, v.spends, v.roots, at - window * 1000);
    assert |"unknown"| != |"live"|;
    if UsableAt(db, offerId, v, at, window) {
      var s := State("live", true, ParseExpiry(db.offers[offerId].expiry), None);
      assert Evaluate(db, offerId, v, at, window) == Some(s);
    }
  }

  /** What a state says of an offer, read off its tables alone: the row must be that of the offer; its lifecycle status is
      reported as it is, or as unknown when it is none of the five; a live offer is expired from its expiry on; then a
      spent nullifier, a dead UTXO and an unknown root are reported, in that order. */
  predicate Finds(db: Db, offerId: string, v: Validation, at: int, window: nat, s: State) {
    if offerId !in db.offers then s == State("not_indexed", false, None, Some("NOT_INDEXED")) else
    var row := db.offers[offerId];
    && row.hash == offerId && row.bytesHash == Some(offerId)
    && if row.status in ["consumed", "cancelled", "expired"] then
         s == State(row.status, false, Served(row.expiry), Some("NOT_LIVE"))
       else if row.status != "live" then s == State("unknown", false, Served(row.expiry), Some("NOT_LIVE"))
       else Served(row.expiry).Some? && s == State("live", s.failure.None?, Served(row.expiry), s.failure) && LiveCode(db, v, row.expiry, at, window, s.failure)
  }

  /** The expiry as it is served: nothing when the column is malformed or before the epoch. */
  function Served(c: Candidate): Option<int> {
    if c.At? && 0 <= c.ms <= MAX_DATE_MS then Some(c.ms) else None
  }

  predicate LiveCode(db: Db, v: Validation, expiry: Candidate, at: int, window: nat, code: Option<string>)
    requires expiry.At?
  {
    if expiry.ms <= at then code == Some("EXPIRED")
    else if exists n :: n in v.nullifiers && n in db.facts.spent then code == Some("NULLIFIER_SPENT")
    else if exists u :: u in v.spends && u !in db.facts.created then code == Some("UTXO_NOT_LIVE")
    else if exists r :: r in v.roots && !RootLive(db.facts.roots, r, at - window * 1000) then code == Some("ROOT_UNKNOWN")
    else code == None
  }

  /** The evaluation of a state is exactly what its tables say; it fails for a row that is not the offer's, or that is live
      without a usable expiry. */
  lemma EvaluatedExactly(db: Db, offerId: string, v: Validation, at: int, window: nat)
    ensures forall s :: Evaluate(db, offerId, v, at, window) == Some(s) <==> Finds(db, offerId, v, at, window, s)
  {
    VerdictOrder(db.facts, v.nullifiers, v.spends, v.roots, at - window * 1000);
    assert |"unknown"| == 7 && |"live"| == 4 && |"consumed"| == 8 && |"cancelled"| == 9 && "expired"[0] == 'e';
  }

  // ---- Reading while a writer commits ----

  datatype BoundState = BoundState(anchor: Anchor, state: State)

  /** The verdict of the structural checks on the posted bytes, as a function of the time they are made at. */
  datatype Structural = Malformed(code: string) | WellFormed(validation: Validation)

  datatype Request = Request(profileKnown: bool, offerId: string, decodedId: Option<string>,
                             structural: int -> Structural, crypto: int -> Option<string>)

  datatype Verdict = Verdict(anchor: Anchor, valid: bool, live: bool, computedId: Option<string>, status: string, code: string)

  /** The v1 profile: exactly one shielded give, one shielded want of another token, and some nullifier. */
  predicate Supported(v: Validation) {
    && |v.gives| == 1 && |v.wants| == 1 && v.gives[0].kind == "SHIELDED" && v.wants[0].kind == "SHIELDED"
    && v.gives[0].token != v.wants[0].token && v.nullifiers != []
  }

  /** One shielded token for another, spending something. */
  lemma SupportedExactly(v: Validation)
    ensures Supported(v) <==>
              v.nullifiers != [] && exists give, want, x, y :: give != want && v.gives == [Leg(give, x, "SHIELDED")] && v.wants == [Leg(want, y, "SHIELDED")]
  {
    if Supported(v) {
      var g, w := v.gives[0], v.wants[0];
      assert v.gives == [Leg(g.token, g.amount, "SHIELDED")] && v.wants == [Leg(w.token, w.amount, "SHIELDED")];
    }
  }

  function ValidatorCode(code: string): (r: Option<string>)
    ensures r.Some? ==> r.value !in ["VALID", "NOT_INDEXED", "NOT_LIVE", "UNSUPPORTED_PROFILE"]
  {
    if code in ["BAD_ENCODING", "TOO_LARGE", "BAD_DESERIALIZE", "WRONG_TX_VARIANT", "NO_SPENDABLE_INPUT", "NOT_A_SWAP",
                "UNKNOWN_TOKEN", "ROOT_UNREADABLE", "NULLIFIER_SPENT", "UTXO_NOT_LIVE", "ROOT_UNKNOWN", "PROOF_INVALID",
                "SIGNATURE_INVALID"] then Some(code)
    else if code == "CROSS_LAYER" then Some("UNSUPPORTED_SHAPE")
    else if code == "INTENT_TTL_EXPIRED" then Some("EXPIRED")
    else if code == "INTENT_TTL_TOO_FAR" then Some("PROOF_INVALID")
    else None
  }

  /** What the validator can answer, and what a verdict may carry. */
  const VALIDATOR_CODES := ["BAD_ENCODING", "TOO_LARGE", "BAD_DESERIALIZE", "WRONG_TX_VARIANT", "NO_SPENDABLE_INPUT", "NOT_A_SWAP",
                            "CROSS_LAYER", "UNKNOWN_TOKEN", "PROOF_INVALID", "SIGNATURE_INVALID", "INTENT_TTL_EXPIRED",
                            "INTENT_TTL_TOO_FAR", "NULLIFIER_SPENT", "UTXO_SPENT", "UTXO_UNKNOWN", "UTXO_NOT_LIVE", "ROOT_UNKNOWN",
                            "ROOT_UNREADABLE", "DUPLICATE"]
  const VERDICT_CODES := ["VALID", "UNSUPPORTED_PROFILE", "HASH_MISMATCH", "NOT_INDEXED", "NOT_LIVE", "EXPIRED", "UNSUPPORTED_SHAPE",
                          "BAD_ENCODING", "TOO_LARGE", "BAD_DESERIALIZE", "WRONG_TX_VARIANT", "NO_SPENDABLE_INPUT", "NOT_A_SWAP",
                          "UNKNOWN_TOKEN", "ROOT_UNREADABLE", "NULLIFIER_SPENT", "UTXO_NOT_LIVE", "ROOT_UNKNOWN", "PROOF_INVALID",
                          "SIGNATURE_INVALID"]

  /** The validator's reason is passed on under its own name wherever verdicts have that name; otherwise it becomes one they
      have, except for three reasons this endpoint cannot meet. */
  lemma PassedOnExactly(code: string)
    requires code in VALIDATOR_CODES
    ensures code in VERDICT_CODES ==> ValidatorCode(code) == Some(code)
    ensures code !in VERDICT_CODES ==>
              ValidatorCode(code) == match code
                                     case "CROSS_LAYER" => Some("UNSUPPORTED_SHAPE")
                                     case "INTENT_TTL_EXPIRED" => Some("EXPIRED")
                                     case "INTENT_TTL_TOO_FAR" => Some("PROOF_INVALID")
                                     case _ => None
    ensures ValidatorCode(code).Some? ==> ValidatorCode(code).value in VERDICT_CODES
  {}

  /** The part of the frozen verdict contract that ties its fields to one another. */
  predicate Emittable(q: Request, v: Verdict) {
    && v.code in VERDICT_CODES && v.status in ["live", "consumed", "cancelled", "expired", "unknown", "not_indexed"]
    && (if v.valid then v.live && v.status == "live" && v.code == "VALID" && v.computedId == Some(q.offerId) else v.code != "VALID")
    && (v.status != "live" ==> !v.live)
    && (v.code == "NOT_INDEXED" ==> v.status == "not_indexed")
    && (v.code == "NOT_LIVE" ==> !v.live && v.status in ["consumed", "cancelled", "expired", "unknown"])
    && (v.code == "EXPIRED" ==> !v.live && v.status in ["live", "expired"])
    && q.profileKnown == (v.code != "UNSUPPORTED_PROFILE")
  }

  /** The contract code by code: what each may be told with. */
  lemma ContractExactly(q: Request, v: Verdict)
    ensures
      Emittable(q, v) <==>
      && v.code in VERDICT_CODES && v.status in ["live", "consumed", "cancelled", "expired", "unknown", "not_indexed"]
      && (v.code == "UNSUPPORTED_PROFILE" <==> !q.profileKnown) && (v.code == "VALID" <==> v.valid)
      && (v.live ==> v.status == "live")
      && match v.code
         case "VALID" => v.live && v.computedId == Some(q.offerId)
         case "NOT_INDEXED" => v.status == "not_indexed"
         case "NOT_LIVE" => !v.live && v.status != "live" && v.status != "not_indexed"
         case "EXPIRED" => !v.live && (v.status == "live" || v.status == "expired")
         case _ => true
  {}

  function Checked(q: Request, v: Verdict): Option<Verdict> { if Emittable(q, v) then Some(v) else None }

  /** The state is that of commit `i`, which its anchor names. */
  ghost predicate ReadAt(history: seq<Db>, i: nat, b: BoundState, offerId: string, v: Validation, window: nat) {
    && i < |history| && AnchorOf(history, i) == Some(b.anchor)
    && Evaluate(history[i], offerId, v, b.anchor.at, window) == Some(b.state)
  }

  /** What a read finds when nothing is committed meanwhile. */
  function SettledRead(history: seq<Db>, i: nat, offerId: string, v: Validation, window: nat): Option<BoundState>
    requires i < |history|
  {
    match AnchorOf(history, i)
    case None => None
    case Some(a) =>
      match Evaluate(history[i], offerId, v, a.at, window) case None => None case Some(s) => Some(BoundState(a, s))
  }

  /** When an answer is possible: the request is refused before any read, for a reason that has a code; or the state says
      something of the offer, and what decides then - its failure, the shape, the proofs - has a code too. */
  ghost predicate CanAnswer(q: Request, db: Db, at: int, window: nat) {
    if Unread(q, at) then Tellable(q, at) else
    exists s :: Finds(db, q.offerId, q.structural(at).validation, at, window, s) && Decides(q, at, q.structural(at).validation, s)
  }

  /** No state is read for it. */
  predicate Unread(q: Request, at: int) {
    !q.profileKnown || q.structural(at).Malformed? || q.decodedId != Some(q.offerId)
  }

  /** The reason has a code. Well-formed bytes always have an id; and an intent already past its TTL cannot be told here:
      the code would be EXPIRED, which no unread status goes with. */
  predicate Tellable(q: Request, at: int) {
    || !q.profileKnown
    || match q.structural(at)
       case WellFormed(_) => q.decodedId.Some?
       case Malformed(code) =>
         || (code !in ["BAD_ENCODING", "TOO_LARGE"] && q.decodedId.Some? && q.decodedId.value != q.offerId)
         || ValidatorCode(code) !in [None, Some("EXPIRED")]
  }

  /** The state, the shape or the proofs come to something that has a code. */
  predicate Decides(q: Request, at: int, v: Validation, s: State) {
    s.failure.Some? || !Supported(v) || q.crypto(at).None? || ValidatorCode(q.crypto(at).value).Some?
  }

  ghost predicate StateDecides(q: Request, at: int, v: Validation, db: Db, window: nat) {
    var s := Evaluate(db, q.offerId, v, at, window);
    s.Some? && Decides(q, at, v, s.value)
  }

  lemma StateDecidesExactly(q: Request, at: int, v: Validation, db: Db, window: nat)
    ensures StateDecides(q, at, v, db, window) <==> exists s :: Finds(db, q.offerId, v, at, window, s) && Decides(q, at, v, s)
  {
    EvaluatedExactly(db, q.offerId, v, at, window);
  }

  /** A refusal found in a state keeps the contract of verdicts. */
  lemma StateCanBeTold(q: Request, b: BoundState, db: Db, v: Validation, window: nat)
    requires q.profileKnown && Evaluate(db, q.offerId, v, b.anchor.at, window) == Some(b.state) && b.state.failure.Some?
    ensures StateVerdict(q, b).Some?
  {}

  class Reader {
    const history: seq<Db>
    const window: nat
    /** Nothing is committed while this reader reads, and the backend reports itself synchronized at the newest block. */
    const settled: bool
    var now: nat

    ghost predicate Valid()
      reads this
    {
      Committed(history) && now < |history|
    }

    constructor (history: seq<Db>, window: nat, settled: bool)
      requires Committed(history)
      ensures Valid() && now == 0 && this.history == history && this.window == window && this.settled == settled
    {
      this.history, this.window, this.settled, now := history, window, settled, 0;
    }

    /** Between two queries the writer commits any number of blocks. */
    method Await()
      requires Valid()
      modifies this
      ensures Valid() && old(now) <= now && (settled ==> now == old(now))
    {
      var later: nat := *;
      if !settled && now <= later < |history| {
        now := later;
      }
    }

    method ReadAnchor() returns (a: Option<Anchor>)
      requires Valid()
      modifies this
      ensures Valid() && old(now) <= now && a == AnchorOf(history, now) && (settled ==> now == old(now))
    {
      Await();
      a := AnchorOf(history, now);
    }

    method ReadRow(offerId: string) returns (row: Option<Stored>)
      requires Valid()
      modifies this
      ensures Valid() && old(now) <= now && row == Lookup(history[now], offerId) && (settled ==> now == old(now))
    {
      Await();
      row := Lookup(history[now], offerId);
    }

    /** One query per descriptor, stopping at the first that fails. */
    method ReadLiveness(v: Validation, cutoff: int) returns (dead: Option<Descriptor>)
      requires Valid()
      modifies this
      ensures Valid() && old(now) <= now && (settled ==> now == old(now))
      ensures now == old(now) ==> dead == FirstDead(history[now].facts, DescriptorsOf(v), cutoff)
    {
      var ds := DescriptorsOf(v);
      for i := 0 to |ds|
        invariant Valid() && old(now) <= now && (settled ==> now == old(now))
        invariant now == old(now) ==>
                    FirstDead(history[now].facts, ds[i..], cutoff) == FirstDead(history[now].facts, ds, cutoff)
      {
        assert ds[i..][0] == ds[i] && ds[i..][1..] == ds[i + 1..];
        Await();
        if !Holds(history[now].facts, ds[i], cutoff) {
          return Some(ds[i]);
        }
      }
      return None;
    }

    /** One attempt: None when the anchor moved, an error when the state is inconsistent. */
    method Attempt(offerId: string, v: Validation) returns (r: Result<Option<BoundState>, string>)
      requires Valid()
      modifies this
      ensures Valid() && old(now) <= now
      ensures r.Ok? && r.value.Some? ==> AnchorOf(history, now) == Some(r.value.value.anchor)
      ensures r.Ok? && r.value.Some? && Stamped(history) ==> ReadAt(history, now, r.value.value, offerId, v, window)
      ensures settled ==> now == old(now) && (if r.Ok? then r.value else None) == SettledRead(history, now, offerId, v, window)
      ensures settled && r.Ok? ==> r.value.Some?
    {
      var before := ReadAnchor();
      if before.None? { return Err("no canonical anchor"); }
      ghost var start := now;
      var row := ReadRow(offerId);
      var dead: Option<Descriptor> := None;
      if Decide(row, None, offerId, before.value.at).Some? && Decide(row, None, offerId, before.value.at).value.live {
        dead := ReadLiveness(v, before.value.at - window * 1000);
      }
      var state := Decide(row, dead, offerId, before.value.at);
      if state.None? { return Err("inconsistent row"); }
      var after := ReadAnchor();
      if after.None? { return Err("no canonical anchor"); }
      if before != after { return Ok(None); }
      if Stamped(history) { PinnedCommit(history, start, now); }
      return Ok(Some(BoundState(after.value, state.value)));
    }

    method ReadBoundOfferState(offerId: string, v: Validation) returns (r: Option<BoundState>)
      requires Valid()
      modifies this
      ensures Valid() && old(now) <= now
      ensures r.Some? && Stamped(history) ==> exists i :: old(now) <= i <= now && ReadAt(history, i, r.value, offerId, v, window)
      ensures settled ==> now == old(now) && r == SettledRead(history, now, offerId, v, window)
    {
      for attempt := 0 to READ_ATTEMPTS
        invariant Valid() && old(now) <= now && (settled ==> attempt == 0 && now == old(now))
      {
        var once := Attempt(offerId, v);
        if once.Err? { return None; }
        if once.value.Some? { return once.value; }
      }
      return None;
    }

    /** The health report may be stale, and its height counts only when it is the anchor's. */
    method RequireCurrentBackend() returns (a: Option<Anchor>)
      requires Valid()
      modifies this
      ensures Valid() && old(now) <= now
      ensures a.Some? ==> AnchorOf(history, now) == a
      ensures settled ==> now == old(now) && a == AnchorOf(history, now)
    {
      for attempt := 0 to CURRENT_ATTEMPTS
        invariant Valid() && old(now) <= now && (settled ==> attempt == 0 && now == old(now))
      {
        Await();
        var synchronized: bool :| settled ==> synchronized;
        if !synchronized { return None; }
        a := ReadAnchor();
        if a.None? { return None; }
        var healthIsAnchors: bool :| settled ==> healthIsAnchors;
        if healthIsAnchors { return a; }
      }
      return None;
    }

    /** Validate an indexed offer for use. None means unavailable. */
    method ValidateOfferForUse(q: Request) returns (r: Option<Verdict>)
      requires Valid()
      modifies this
      ensures Valid() && old(now) <= now
      ensures r.Some? ==> Emittable(q, r.value)
      ensures r.Some? && Stamped(history) ==> Grounded(history, old(now), now, q, r.value, window)
      ensures settled && AnchorOf(history, now).Some? ==> (r.Some? <==> CanAnswer(q, history[now], AnchorOf(history, now).value.at, window))
    {
      var initialAnchor := RequireCurrentBackend();
      if initialAnchor.None? { return None; }
      var anchor := initialAnchor.value;
      if Unread(q, anchor.at) {
        r := RefuseUnread(q, anchor);
        if r.Some? { UnreadIsGrounded(history, old(now), now, q, r.value, window); }
        return;
      }
      var v := q.structural(anchor.at).validation;
      r := ProbeAroundProof(q, anchor, v);
      if settled { StateDecidesExactly(q, anchor.at, v, history[now], window); }
    }

    /** The profile, the bytes and their hash are checked before any state is read. */
    method RefuseUnread(q: Request, anchor: Anchor) returns (r: Option<Verdict>)
      requires Unread(q, anchor.at)
      ensures r.Some? ==> Emittable(q, r.value) && !r.value.valid && r.value.status == "unknown"
      ensures r.Some? ==> RefusedUnread(q, r.value) && r.value.anchor == anchor
      ensures r.Some? <==> Tellable(q, anchor.at)
    {
      if !q.profileKnown {
        return Checked(q, Verdict(anchor, false, false, None, "unknown", "UNSUPPORTED_PROFILE"));
      }
      var structural := q.structural(anchor.at);
      var computedId := if structural.Malformed? && structural.code in ["BAD_ENCODING", "TOO_LARGE"] then None else q.decodedId;
      if computedId.Some? && computedId.value != q.offerId {
        return Checked(q, Verdict(anchor, false, false, computedId, "unknown", "HASH_MISMATCH"));
      }
      if structural.WellFormed? { return None; }
      var code := ValidatorCode(structural.code);
      if code.None? { return None; }
      return Checked(q, Verdict(anchor, false, false, computedId, "unknown", code.value));
    }

    /** The two committed-state reads and the proof verification between them. */
    method ProbeAroundProof(q: Request, anchor: Anchor, v: Validation) returns (r: Option<Verdict>)
      requires Valid() && AnchorOf(history, now) == Some(anchor)
      requires q.structural(anchor.at) == WellFormed(v) && q.decodedId == Some(q.offerId)
      modifies this
      ensures Valid() && old(now) <= now
      ensures r.Some? ==> Emittable(q, r.value)
      ensures r.Some? && Stamped(history) ==> Grounded(history, old(now), now, q, r.value, window)
      ensures settled && q.profileKnown ==> now == old(now) && (r.Some? <==> StateDecides(q, anchor.at, v, history[now], window))
    {
      var initial := ReadBoundOfferState(q.offerId, v);
      if initial.None? || initial.value.anchor != anchor { return None; }
      ghost var j := old(now);
      if Stamped(history) {
        j :| old(now) <= j <= now && ReadAt(history, j, initial.value, q.offerId, v, window);
      }
      if initial.value.state.failure.Some? || !Supported(v) {
        r := RefuseBeforeProof(q, anchor.at, v, initial.value);
        if settled && q.profileKnown && initial.value.state.failure.Some? { StateCanBeTold(q, initial.value, history[now], v, window); }
        if r.Some? && Stamped(history) { RefusalGrounded(history, old(now), j, now, q, v, initial.value, r.value, window); }
        return;
      }
      if Stamped(history) { ReadMeansUsable(history, j, initial.value, q.offerId, v, window); }
      r := ConfirmAfterProof(q, anchor, v, q.crypto(anchor.at), j);
      if r.Some? && Stamped(history) { GroundedSince(history, old(now), j, now, q, r.value, window); }
    }

    /** The state has failed, or its offer has a shape the profile does not cover. */
    method RefuseBeforeProof(q: Request, ghost at: int, v: Validation, b: BoundState) returns (r: Option<Verdict>)
      requires b.state.failure.Some? || !Supported(v)
      ensures r.Some? ==> Emittable(q, r.value) && r.value.anchor == b.anchor && !r.value.valid
      ensures r.Some? && (b.state.failure.None? ==> b.state.status == "live") ==> Says(q, at, v, b.state, r.value)
      ensures q.profileKnown && (b.state.failure.Some? ==> StateVerdict(q, b).Some?) ==> r.Some?
    {
      if b.state.failure.Some? { return StateVerdict(q, b); }
      return Checked(q, Verdict(b.anchor, false, true, Some(q.offerId), "live", "UNSUPPORTED_SHAPE"));
    }

    /** The proof is done; only what the second read finds decides. */
    method ConfirmAfterProof(q: Request, anchor: Anchor, v: Validation, crypto: Option<string>, ghost j: nat) returns (r: Option<Verdict>)
      requires Valid() && j <= now && AnchorOf(history, j) == Some(anchor) && crypto == q.crypto(anchor.at)
      requires q.structural(anchor.at) == WellFormed(v) && q.decodedId == Some(q.offerId) && Supported(v)
      requires Stamped(history) ==> UsableAt(history[j], q.offerId, v, anchor.at, window)
      modifies this
      ensures Valid() && old(now) <= now
      ensures r.Some? ==> Emittable(q, r.value)
      ensures r.Some? && Stamped(history) ==> Grounded(history, j, now, q, r.value, window)
      ensures settled ==> now == old(now)
      ensures settled && AnchorOf(history, now) == Some(anchor) && q.profileKnown ==> (r.Some? <==> StateDecides(q, anchor.at, v, history[now], window))
    {
      var final := FinalState(q.offerId, v);
      if final.None? { return None; }
      ghost var i := now;
      if Stamped(history) {
        i :| j <= i <= now && ReadAt(history, i, final.value, q.offerId, v, window);
      }
      r := Conclude(q, anchor.at, v, crypto, final.value);
      if settled && final.value.state.failure.Some? && q.profileKnown { StateCanBeTold(q, final.value, history[now], v, window); }
      if r.Some? && Stamped(history) { ConclusionGrounded(history, i, j, now, q, v, final.value, r.value, window); }
    }

    /** The verdict on the state read last, once the shape is known to be supported. */
    method Conclude(q: Request, ghost at: int, v: Validation, crypto: Option<string>, final: BoundState) returns (r: Option<Verdict>)
      requires Supported(v) && crypto == q.crypto(at)
      ensures r.Some? ==> Emittable(q, r.value) && r.value.anchor == final.anchor
      ensures r.Some? && (final.state.failure.None? ==> final.state.status == "live") ==> Says(q, at, v, final.state, r.value)
      ensures q.profileKnown && (final.state.failure.Some? ==> StateVerdict(q, final).Some?) ==> (r.Some? <==> Decides(q, at, v, final.state))
    {
      if final.state.failure.Some? { return StateVerdict(q, final); }
      if crypto.Some? {
        var code := ValidatorCode(crypto.value);
        if code.None? { return None; }
        return Checked(q, Verdict(final.anchor, false, code.value != "EXPIRED", Some(q.offerId), "live", code.value));
      }
      return Checked(q, Verdict(final.anchor, true, true, Some(q.offerId), "live", "VALID"));
    }

    method FinalState(offerId: string, v: Validation) returns (r: Option<BoundState>)
      requires Valid()
      modifies this
      ensures Valid() && old(now) <= now
      ensures r.Some? && Stamped(history) ==> exists i :: old(now) <= i <= now && ReadAt(history, i, r.value, offerId, v, window)
      ensures settled ==> now == old(now) && r == SettledRead(history, now, offerId, v, window)
    {
      for attempt := 0 to CURRENT_ATTEMPTS
        invariant Valid() && old(now) <= now && (settled ==> attempt == 0 && now == old(now))
      {
        var current := RequireCurrentBackend();
        if current.None? { return None; }
        var candidate := ReadBoundOfferState(offerId, v);
        if candidate.None? { return None; }
        assert Stamped(history) ==> exists i :: old(now) <= i <= now && ReadAt(history, i, candidate.value, offerId, v, window);
        if candidate.value.anchor == current.value { return candidate; }
      }
      return None;
    }
  }

  function StateVerdict(q: Request, b: BoundState): Option<Verdict>
    requires b.state.failure.Some?
  {
    Checked(q, Verdict(b.anchor, false, b.state.live, Some(q.offerId), b.state.status, b.state.failure.value))
  }

  /** A positive verdict: at the commit its anchor names the offer was usable, and at an earlier anchor the posted
      bytes hashed to the claimed id, passed the structural checks and carried valid proofs. */
  ghost predicate Justified(history: seq<Db>, i: nat, j: nat, q: Request, r: Verdict, window: nat) {
    && j <= i < |history| && AnchorOf(history, i) == Some(r.anchor) && AnchorOf(history, j).Some?
    && var before := AnchorOf(history, j).value;
       q.structural(before.at).WellFormed? && q.crypto(before.at).None? && q.decodedId == Some(q.offerId)
       && var v := q.structural(before.at).validation;
          Supported(v) && UsableAt(history[j], q.offerId, v, before.at, window) && UsableAt(history[i], q.offerId, v, r.anchor.at, window)
  }

  /** What a verdict says of a state: its failure if it has one, and else what the shape and the proofs, checked at `at`,
      leave of it. */
  predicate Says(q: Request, at: int, v: Validation, s: State, r: Verdict) {
    && r.status == s.status
    && match s.failure
       case Some(code) => !r.valid && r.live == s.live && r.code == code
       case None =>
         if !Supported(v) then !r.valid && r.live && r.code == "UNSUPPORTED_SHAPE"
         else if q.crypto(at).Some? then !r.valid && r.live == (r.code != "EXPIRED") && ValidatorCode(q.crypto(at).value) == Some(r.code)
         else r.valid
  }

  /** The verdict is about the state of commit `i`, which its anchor names; the bytes were checked at the anchor of `j`. */
  ghost predicate Answers(history: seq<Db>, i: nat, j: nat, q: Request, r: Verdict, window: nat) {
    && j <= i < |history| && AnchorOf(history, i) == Some(r.anchor) && AnchorOf(history, j).Some?
    && var at := AnchorOf(history, j).value.at;
       q.structural(at).WellFormed?
       && var v := q.structural(at).validation;
          exists s :: Finds(history[i], q.offerId, v, r.anchor.at, window, s) && Says(q, at, v, s, r)
  }

  /** A verdict given before any state was read, for the first reason there is: the profile, bytes of another offer, bytes
      that are not well formed. Bytes that cannot be decoded have no id. */
  predicate RefusedUnread(q: Request, r: Verdict) {
    var s := q.structural(r.anchor.at);
    var id := if s.Malformed? && s.code in ["BAD_ENCODING", "TOO_LARGE"] then None else q.decodedId;
    if !q.profileKnown then r.code == "UNSUPPORTED_PROFILE" && r.computedId == None
    else if id.Some? && id.value != q.offerId then r.code == "HASH_MISMATCH" && r.computedId == id
    else s.Malformed? && ValidatorCode(s.code) == Some(r.code) && r.computedId == id
  }

  /** The verdict was given before any state was read and gives the reason, or it answers for one commit of the reader's own time span, and
      if positive also for the commit at which the proofs were checked. */
  ghost predicate Grounded(history: seq<Db>, from: nat, to: nat, q: Request, r: Verdict, window: nat) {
    && (r.valid ==> exists i: nat, j: nat :: from <= j && i <= to && Justified(history, i, j, q, r, window))
    && (r.status != "unknown" || r.code == "NOT_LIVE" ==>
          exists i: nat, j: nat :: from <= j && i <= to && Answers(history, i, j, q, r, window))
    && (r.status == "unknown" && r.code != "NOT_LIVE" ==>
          RefusedUnread(q, r) && exists i: nat :: from <= i <= to && i < |history| && AnchorOf(history, i) == Some(r.anchor))
  }

  lemma GroundedSince(history: seq<Db>, from: nat, j: nat, to: nat, q: Request, r: Verdict, window: nat)
    requires from <= j && Grounded(history, j, to, q, r, window)
    ensures Grounded(history, from, to, q, r, window)
  {}

  lemma UnreadIsGrounded(history: seq<Db>, from: nat, to: nat, q: Request, r: Verdict, window: nat)
    requires !r.valid && r.status == "unknown" && RefusedUnread(q, r)
    requires exists i: nat :: from <= i <= to && i < |history| && AnchorOf(history, i) == Some(r.anchor)
    ensures Grounded(history, from, to, q, r, window)
  {
    assert |"NOT_LIVE"| == 8 && |r.code| != 8;
  }

  lemma StateAnswers(history: seq<Db>, i: nat, j: nat, q: Request, v: Validation, b: BoundState, r: Verdict, window: nat)
    requires j <= i < |history| && AnchorOf(history, j).Some? && ReadAt(history, i, b, q.offerId, v, window)
    requires q.structural(AnchorOf(history, j).value.at) == WellFormed(v)
    requires r.anchor == b.anchor && Says(q, AnchorOf(history, j).value.at, v, b.state, r)
    ensures Answers(history, i, j, q, r, window)
    ensures r.status == "unknown" ==> r.code == "NOT_LIVE"
  {
    assert |"unknown"| == 7 && |"live"| == 4 && |"not_indexed"| == 11;
    EvaluatedExactly(history[i], q.offerId, v, b.anchor.at, window);
  }

  lemma RefusalGrounded(history: seq<Db>, from: nat, j: nat, to: nat, q: Request, v: Validation, b: BoundState, r: Verdict, window: nat)
    requires from <= j <= to && j < |history| && AnchorOf(history, j) == Some(b.anchor) && ReadAt(history, j, b, q.offerId, v, window)
    requires q.structural(b.anchor.at) == WellFormed(v) && r.anchor == b.anchor && !r.valid
    requires (b.state.failure.None? ==> b.state.status == "live") ==> Says(q, b.anchor.at, v, b.state, r)
    ensures Grounded(history, from, to, q, r, window)
  {
    FailureNone(history[j], q.offerId, v, b.anchor.at, window);
    StateAnswers(history, j, j, q, v, b, r, window);
  }

  lemma ConclusionGrounded(history: seq<Db>, i: nat, j: nat, to: nat, q: Request, v: Validation, b: BoundState, r: Verdict, window: nat)
    requires j <= i <= to && i < |history| && AnchorOf(history, j).Some? && ReadAt(history, i, b, q.offerId, v, window)
    requires
      var at := AnchorOf(history, j).value.at;
      && q.structural(at) == WellFormed(v) && q.decodedId == Some(q.offerId) && Supported(v)
      && UsableAt(history[j], q.offerId, v, at, window)
      && (b.state.failure.Some? || b.state.status == "live" ==> Says(q, at, v, b.state, r))
    requires r.anchor == b.anchor && (r.valid ==> b.state.failure.None?)
    ensures Grounded(history, j, to, q, r, window)
  {
    FailureNone(history[i], q.offerId, v, b.anchor.at, window);
    StateAnswers(history, i, j, q, v, b, r, window);
    if r.valid {
      ReadMeansUsable(history, i, b, q.offerId, v, window);
      assert Justified(history, i, j, q, r, window);
    }
  }

  lemma FailureNone(db: Db, offerId: string, v: Validation, at: int, window: nat)
    ensures forall s :: Evaluate(db, offerId, v, at, window) == Some(s) && s.failure == None ==> s.status == "live"
  {}

  lemma ReadMeansUsable(history: seq<Db>, i: nat, b: BoundState, offerId: string, v: Validation, window: nat)
    requires ReadAt(history, i, b, offerId, v, window) && b.state.failure == None
    ensures UsableAt(history[i], offerId, v, b.anchor.at, window)
  {
    LiveMeansUsable(history[i], offerId, v, b.anchor.at, window);
  }

  // ---- What goes wrong when a block has no timestamp ----

  const Early := Db(1, Some(1_000), map["offer" := Stored("offer", Some("offer"), "live", At(9_000))], Facts({}, {}, map[]))
  const Later := Db(2, None, map["offer" := Stored("offer", Some("offer"), "consumed", At(9_000))],
                    Facts({}, {}, map["root" := RootRow(2, 1_500, 1_500)]))

  /** With an unstamped second block the two anchors are equal although a commit fell between the queries: the row
      read before it and the root read after it make up a usable offer that neither state contains. */
  lemma UnstampedBlockTearsTheRead()
    ensures
      var history, v := [Early, Later], Validation([], [], ["root"], [], []);
      && Committed(history) && AnchorOf(history, 0).Some? && AnchorOf(history, 0) == AnchorOf(history, 1)
      && Decide(Lookup(Early, "offer"), FirstDead(Later.facts, DescriptorsOf(v), 0), "offer", 1_000) == Some(State("live", true, Some(9_000), None))
      && !UsableAt(Early, "offer", v, 1_000, 1) && !UsableAt(Later, "offer", v, 1_000, 1)
  {
    var history := [Early, Later];
    assert LatestStamped(history, 1) == Some(0);
    var v := Validation([], [], ["root"], [], []);
    assert "root" in v.roots;
    assert DescriptorsOf(v) == [RootRecent("root")];
    assert Normalize("live") == "live";
    assert |"consumed"| != |"live"|;
  }
}
