/** What the node promises about an offer it indexes: how long it lasts, and what is stored and announced. */
module OfferTerms {
  import opened Prelude
  import opened AppEvents
  import opened OfferExpiry
  import opened OfferLiveness
  import opened OfferBook
  import opened OfferBookInvariants
  import opened OfferBookIds
  import opened RootWindow
  import opened OfferBookHistory

  // ---- The limits on an offer's life ----

  /** A newer root has replaced this one as the root the chain accepts. */
  ghost predicate Superseded(roots: map<string, RootRow>, r: string)
    requires r in roots
  {
    exists other :: other in roots && roots[other].height > roots[r].height
  }

  /** A proof root ends the offer a window after it was last seen; the newest root is seen again in every block. */
  ghost function RootEnd(roots: map<string, RootRow>, r: string, now: int, window: nat): int
    requires r in roots
  {
    (if Superseded(roots, r) then roots[r].lastSeen else Max(roots[r].lastSeen, now)) + window * 1000
  }

  ghost predicate RootLimit(roots: map<string, RootRow>, inputs: seq<string>, now: int, window: nat, x: int) {
    exists r :: r in inputs && r in roots && x == RootEnd(roots, r, now, window)
  }

  /** A DUST spend ends it a grace period after the intent that makes it was created. */
  ghost predicate DustLimit(dust: seq<IntentDust>, grace: nat, x: int) {
    exists d :: d in dust && d.Dust? && d.spends > 0 && d.ctime == At(x - grace * 1000)
  }

  ghost predicate IsLimit(c: Config, roots: map<string, RootRow>, now: int, o: Offer, x: int) {
    RootLimit(roots, o.roots, now, c.rootWindow, x) || o.intentTtl == At(x) || DustLimit(o.dust, c.dustGrace, x)
  }

  /** `t` is the least of these limits, and `fallback` if there is none. */
  ghost predicate Earliest(limit: int -> bool, fallback: int, t: int) {
    if exists x :: limit(x) then limit(t) && forall x :: limit(x) ==> t <= x else t == fallback
  }

  // ---- The root limit ----

  lemma {:induction false} AnchorIsLeast(roots: map<string, RootRow>, inputs: seq<string>, now: int, window: nat)
    requires forall r :: r in inputs ==> r in roots
    ensures
      match EarliestAnchor(roots, inputs, now)
      case None => inputs == []
      case Some(a) => Least(roots, inputs, now, window, a + window * 1000)
  {
    if inputs != [] {
      var rest := inputs[1..];
      assert inputs == [inputs[0]] + rest;
      AnchorIsLeast(roots, rest, now, window);
      LimitsSplit(roots, inputs[0], rest, now, window);
    }
  }

  ghost predicate Least(roots: map<string, RootRow>, inputs: seq<string>, now: int, window: nat, x: int) {
    RootLimit(roots, inputs, now, window, x) && forall y :: RootLimit(roots, inputs, now, window, y) ==> x <= y
  }

  lemma LimitsSplit(roots: map<string, RootRow>, r: string, rest: seq<string>, now: int, window: nat)
    requires r in roots
    ensures forall x :: RootLimit(roots, [r] + rest, now, window, x) <==>
                        x == RootAnchor(roots, r, now) + window * 1000 || RootLimit(roots, rest, now, window, x)
  {
    assert Superseded(roots, r) <==> !IsTip(roots, r);
    assert r in [r] + rest && forall q :: q in [r] + rest <==> q == r || q in rest;
  }

  // ---- The expiry ----

  /** Every limit that applies bounds the expiry of an accepted offer, one of them is it, and the policy lifetime decides
      exactly when none applies. */
  lemma ExpiryExactly(c: Config, s: Book, b: Block, hash: string, o: Offer, crypto: Option<string>, t: int)
    requires Judge(c, s, b, hash, WellFormed(o), crypto) == Accept(o, t)
    ensures Earliest(x => IsLimit(c, s.roots, b.time, o, x), b.time + c.offerTtl * 1000, t)
  {
    AcceptedExactlyWhen(c, s, b, hash, WellFormed(o), crypto, t);
    DerivedExactly(c, s, b, o, t);
  }

  /** An accepted offer with proof roots always has a root limit: it expires no later, and that moment is never already past;
      without an intent limit it is the expiry, unless a DUST limit comes first. */
  lemma RootWindowApplies(c: Config, s: Book, b: Block, hash: string, o: Offer, crypto: Option<string>, t: int)
    requires Judge(c, s, b, hash, WellFormed(o), crypto) == Accept(o, t) && o.roots != []
    ensures exists x :: RootLimit(s.roots, o.roots, b.time, c.rootWindow, x)
    ensures forall x :: RootLimit(s.roots, o.roots, b.time, c.rootWindow, x) ==> t <= x && b.time <= x
    ensures o.intentTtl.Absent? && (forall x :: !DustLimit(o.dust, c.dustGrace, x)) ==>
              RootLimit(s.roots, o.roots, b.time, c.rootWindow, t) && b.time <= t
  {
    AcceptedExactlyWhen(c, s, b, hash, WellFormed(o), crypto, t);
    ExpiryExactly(c, s, b, hash, o, crypto, t);
    var limit := x => IsLimit(c, s.roots, b.time, o, x);
    assert o.roots[0] in o.roots;
    var x := RootEnd(s.roots, o.roots[0], b.time, c.rootWindow);
    assert RootLimit(s.roots, o.roots, b.time, c.rootWindow, x) && limit(x);
    forall y | RootLimit(s.roots, o.roots, b.time, c.rootWindow, y) ensures t <= y && b.time <= y {
      assert limit(y);
      var r :| r in o.roots && r in s.roots && y == RootEnd(s.roots, r, b.time, c.rootWindow);
      assert Superseded(s.roots, r) <==> !IsTip(s.roots, r);
    }
  }

  lemma DerivedExactly(c: Config, s: Book, b: Block, o: Offer, t: int)
    requires OfferExpiryOf(c, s, b, o) == Ok(t) && forall r :: r in o.roots ==> r in s.roots
    ensures Earliest(x => IsLimit(c, s.roots, b.time, o, x), b.time + c.offerTtl * 1000, t)
  {
    var root, dust := RootDeadline(c, s, b, o), DustDeadline(o.dust, c.dustGrace).value;
    AnchorIsLeast(s.roots, o.roots, b.time, c.rootWindow);
    DustIsLeast(o.dust, c.dustGrace);
    ExpiryIsEarliest(AsCandidate(root), o.intentTtl, AsCandidate(dust), At(b.time + c.offerTtl * 1000));
    var limit := x => IsLimit(c, s.roots, b.time, o, x);
    if root.Some? { assert limit(root.value); }
    if dust.Some? { assert limit(dust.value); }
    if o.intentTtl.At? { assert limit(o.intentTtl.ms); }
    assert root.None? ==> forall x :: !RootLimit(s.roots, o.roots, b.time, c.rootWindow, x);
  }

  lemma DustIsLeast(dust: seq<IntentDust>, grace: nat)
    requires DustDeadline(dust, grace).Ok?
    ensures
      match DustDeadline(dust, grace).value
      case None => forall x :: !DustLimit(dust, grace, x)
      case Some(t) => DustLimit(dust, grace, t) && forall x :: DustLimit(dust, grace, x) ==> t <= x
  {
    DustDeadlineIsEarliest(dust, grace);
  }

  // ---- When an expiry can be derived ----

  predicate IsDate(ms: int) { -8_640_000_000_000_000 <= ms <= 8_640_000_000_000_000 }

  predicate IsBad(c: Candidate) { c.Unparseable? || (c.At? && !IsDate(c.ms)) }

  /** Some time that the derivation must read is no date: the first sighting of the oldest proof root, the creation of an
      intent that spends DUST, the earliest root or DUST limit, the intent limit, or the policy limit when it decides. */
  ghost predicate Underivable(c: Config, roots: map<string, RootRow>, now: int, o: Offer) {
    || BadFirstSeen(roots, o.roots, now)
    || BadDustTime(o.dust)
    || (exists x :: Least(roots, o.roots, now, c.rootWindow, x) && !IsDate(x))
    || IsBad(o.intentTtl)
    || (exists x :: LeastDust(o.dust, c.dustGrace, x) && !IsDate(x))
    || (Unlimited(c, roots, now, o) && !IsDate(now + c.offerTtl * 1000))
  }

  ghost predicate BadFirstSeen(roots: map<string, RootRow>, inputs: seq<string>, now: int) {
    inputs != [] && exists x :: FirstProvable(roots, inputs, now, x) && !IsDate(x)
  }

  ghost predicate BadDustTime(dust: seq<IntentDust>) {
    exists d :: d in dust && d.Dust? && d.spends > 0 && (d.ctime.Absent? || IsBad(d.ctime))
  }

  ghost predicate Unlimited(c: Config, roots: map<string, RootRow>, now: int, o: Offer) { forall x :: !IsLimit(c, roots, now, o, x) }

  ghost predicate LeastDust(dust: seq<IntentDust>, grace: nat, x: int) {
    DustLimit(dust, grace, x) && forall y :: DustLimit(dust, grace, y) ==> x <= y
  }

  /** A blob is indexed exactly when it is an admissible, proven offer whose expiry can be derived; when only that fails, the
      whole input fails. */
  lemma IndexedExactly(c: Config, s: Book, b: Block, hash: string, o: Offer, crypto: Option<string>)
    ensures Judge(c, s, b, hash, WellFormed(o), crypto).Accept? <==>
              crypto.None? && Admissible(c, s, b, hash, o) && !Underivable(c, s.roots, b.time, o)
    ensures Judge(c, s, b, hash, WellFormed(o), crypto).Fail? <==>
              crypto.None? && Admissible(c, s, b, hash, o) && Underivable(c, s.roots, b.time, o)
  {
    VerdictOrder(FactsOf(s), o.nullifiers, o.spends, o.roots, b.time - c.rootWindow * 1000);
    FirstIncumbentNone(s.live, DeclaredMarkers(o));
    if Admissible(c, s, b, hash, o) { DerivableExactly(c, s, b, o); }
  }

  lemma FirstSeenIsBad(roots: map<string, RootRow>, inputs: seq<string>, now: int)
    requires forall r :: r in inputs ==> r in roots
    ensures
      var seen := EarliestFirstSeen(roots, inputs);
      BadFirstSeen(roots, inputs, now) <==> seen.Some? && !Usable(At(seen.value))
  {
    FirstSeenIsLeast(roots, inputs, now);
  }

  lemma DustTimeIsBad(dust: seq<IntentDust>, grace: nat)
    ensures BadDustTime(dust) <==> DustDeadline(dust, grace).Err?
  {
    DustDeadlineIsEarliest(dust, grace);
  }

  /** `root` and `dust` are the earliest limits of their kind, if there are any. */
  ghost predicate AreLeast(c: Config, roots: map<string, RootRow>, now: int, o: Offer, root: Option<int>, dust: Option<int>) {
    && (match root
        case None => (forall x :: !RootLimit(roots, o.roots, now, c.rootWindow, x))
        case Some(x) => Least(roots, o.roots, now, c.rootWindow, x))
    && (match dust
        case None => (forall x :: !DustLimit(o.dust, c.dustGrace, x))
        case Some(x) => LeastDust(o.dust, c.dustGrace, x))
  }

  lemma DerivableExactly(c: Config, s: Book, b: Block, o: Offer)
    requires forall r :: r in o.roots ==> r in s.roots
    ensures OfferExpiryOf(c, s, b, o).Err? <==> Underivable(c, s.roots, b.time, o)
  {
    FirstSeenIsBad(s.roots, o.roots, b.time);
    DustTimeIsBad(o.dust, c.dustGrace);
    if DustDeadline(o.dust, c.dustGrace).Ok? {
      AnchorIsLeast(s.roots, o.roots, b.time, c.rootWindow);
      DustIsLeast(o.dust, c.dustGrace);
      LimitsAreBad(c, s.roots, b.time, o, RootDeadline(c, s, b, o), DustDeadline(o.dust, c.dustGrace).value);
    }
  }

  lemma LimitsAreBad(c: Config, roots: map<string, RootRow>, now: int, o: Offer, root: Option<int>, dust: Option<int>)
    requires AreLeast(c, roots, now, o, root, dust)
    ensures
      Expiry(AsCandidate(root), o.intentTtl, AsCandidate(dust), At(now + c.offerTtl * 1000)).Err? <==>
      || (exists x :: Least(roots, o.roots, now, c.rootWindow, x) && !IsDate(x))
      || IsBad(o.intentTtl)
      || (exists x :: LeastDust(o.dust, c.dustGrace, x) && !IsDate(x))
      || (Unlimited(c, roots, now, o) && !IsDate(now + c.offerTtl * 1000))
  {
    LeastIsOne(c, roots, now, o, root, dust);
    NoLimit(c, roots, now, o, root, dust);
    ExpiryIsEarliest(AsCandidate(root), o.intentTtl, AsCandidate(dust), At(now + c.offerTtl * 1000));
  }

  lemma LeastIsOne(c: Config, roots: map<string, RootRow>, now: int, o: Offer, root: Option<int>, dust: Option<int>)
    requires AreLeast(c, roots, now, o, root, dust)
    ensures forall x :: Least(roots, o.roots, now, c.rootWindow, x) <==> root == Some(x)
    ensures forall x :: LeastDust(o.dust, c.dustGrace, x) <==> dust == Some(x)
  {}

  lemma NoLimit(c: Config, roots: map<string, RootRow>, now: int, o: Offer, root: Option<int>, dust: Option<int>)
    requires AreLeast(c, roots, now, o, root, dust)
    ensures Unlimited(c, roots, now, o) <==> root.None? && dust.None? && !o.intentTtl.At?
  {
    if root.Some? { assert IsLimit(c, roots, now, o, root.value); }
    if dust.Some? { assert IsLimit(c, roots, now, o, dust.value); }
    if o.intentTtl.At? { assert IsLimit(c, roots, now, o, o.intentTtl.ms); }
  }

  // ---- The same over a run ----

  /** A proof root ends the offer a window after its last sighting, unless the newest block carried it: then a window from
      now. */
  ghost predicate SightingLimit(ss: seq<RootSighting>, inputs: seq<string>, now: int, window: nat, x: int) {
    exists r, i :: r in inputs && LastAt(ss, i, r) && x == SightingEnd(ss, i, r, now, window)
  }

  ghost function SightingEnd(ss: seq<RootSighting>, i: int, r: string, now: int, window: nat): int
    requires 0 <= i < |ss|
  {
    (if Newest(ss, r) then Max(ss[i].time, now) else ss[i].time) + window * 1000
  }

  ghost predicate IsLimitSeen(c: Config, ss: seq<RootSighting>, now: int, o: Offer, x: int) {
    SightingLimit(ss, o.roots, now, c.rootWindow, x) || o.intentTtl == At(x) || DustLimit(o.dust, c.dustGrace, x)
  }

  /** After any run, the expiry of an accepted offer is the earliest limit that the inputs processed so far put on it. */
  lemma ExpiryFromHistory(c: Config, es: seq<Event>, b: Block, hash: string, o: Offer, crypto: Option<string>, t: int)
    requires Forward(RootSightings(es)) && Judge(c, Run(c, Empty, es), b, hash, WellFormed(o), crypto) == Accept(o, t)
    ensures Earliest(x => IsLimitSeen(c, RootSightings(es), b.time, o, x), b.time + c.offerTtl * 1000, t)
  {
    var s, ss := Run(c, Empty, es), RootSightings(es);
    AcceptedExactlyWhen(c, s, b, hash, WellFormed(o), crypto, t);
    ExpiryExactly(c, s, b, hash, o, crypto, t);
    RunRoots(c, es);
    forall x ensures RootLimit(s.roots, o.roots, b.time, c.rootWindow, x) <==> SightingLimit(ss, o.roots, b.time, c.rootWindow, x) {
      SameRootLimits(ss, o.roots, b.time, c.rootWindow, x);
    }
    SameEarliest(x => IsLimit(c, s.roots, b.time, o, x), x => IsLimitSeen(c, ss, b.time, o, x), b.time + c.offerTtl * 1000, t);
  }

  lemma SameEarliest(p: int -> bool, q: int -> bool, fallback: int, t: int)
    requires Earliest(p, fallback, t) && forall x :: p(x) <==> q(x)
    ensures Earliest(q, fallback, t)
  {
    if x :| q(x) { assert p(x); }
  }

  lemma SameRootLimits(ss: seq<RootSighting>, inputs: seq<string>, now: int, window: nat, x: int)
    requires Forward(ss) && forall r :: r in inputs ==> r in Kept(ss, window)
    ensures RootLimit(Kept(ss, window), inputs, now, window, x) <==> SightingLimit(ss, inputs, now, window, x)
  {
    if RootLimit(Kept(ss, window), inputs, now, window, x) {
      var r :| r in inputs && r in Kept(ss, window) && x == RootEnd(Kept(ss, window), r, now, window);
      KeptIsLast(ss, window, r);
      var i :| LastAt(ss, i, r) && Kept(ss, window)[r].lastSeen == ss[i].time;
      SameEnd(ss, i, r, now, window);
    }
    if r, i :| r in inputs && LastAt(ss, i, r) && x == SightingEnd(ss, i, r, now, window) {
      SameEnd(ss, i, r, now, window);
    }
  }

  lemma SameEnd(ss: seq<RootSighting>, i: int, r: string, now: int, window: nat)
    requires Forward(ss) && r in Kept(ss, window) && LastAt(ss, i, r)
    ensures RootEnd(Kept(ss, window), r, now, window) == SightingEnd(ss, i, r, now, window)
  {
    KeptIsLast(ss, window, r);
    var j :| LastAt(ss, j, r) && Kept(ss, window)[r].lastSeen == ss[j].time;
    assert i == j;
  }

  lemma KeptIsLast(ss: seq<RootSighting>, window: nat, r: string)
    requires Forward(ss) && r in Kept(ss, window)
    ensures exists i :: LastAt(ss, i, r) && Kept(ss, window)[r].lastSeen == ss[i].time
    ensures Superseded(Kept(ss, window), r) <==> !Newest(ss, r)
  {
    assert ss != [];
    NodeAgrees(ss, window);
    FullIsLast(ss, r);
    TipIsNewest(ss, r);
    SameTips(Kept(ss, window), Full(ss), ss[|ss| - 1].time - window * 1000, r);
    assert Superseded(Kept(ss, window), r) <==> !IsTip(Kept(ss, window), r);
  }

  // ---- What is stored and announced ----

  /** When the offer became provable: the first sighting of its oldest proof root, or the block it came in. */
  ghost predicate FirstProvable(roots: map<string, RootRow>, inputs: seq<string>, now: int, x: int) {
    if inputs == [] then x == now else
    && (exists r :: r in inputs && r in roots && x == roots[r].firstSeen)
    && (forall r :: r in inputs && r in roots ==> x <= roots[r].firstSeen)
  }

  lemma {:induction false} FirstSeenIsLeast(roots: map<string, RootRow>, inputs: seq<string>, now: int)
    requires forall r :: r in inputs ==> r in roots
    ensures EarliestFirstSeen(roots, inputs).None? <==> inputs == []
    ensures EarliestFirstSeen(roots, inputs).Some? ==> FirstProvable(roots, inputs, now, EarliestFirstSeen(roots, inputs).value)
  {
    if inputs != [] {
      var rest := inputs[1..];
      assert inputs == [inputs[0]] + rest && inputs[0] in inputs;
      FirstSeenIsLeast(roots, rest, now);
    }
  }

  /** An accepted offer is stored under its hash, with the block it came in, the expiry that was derived, and what its
      transaction declares; it is announced once, with what it gives as gives and what it wants as wants; and its cleanup
      is scheduled for that expiry. Nothing else of the book changes. */
  lemma StoredAsDeclared(c: Config, s: Book, b: Block, hash: string, o: Offer, crypto: Option<string>, t: int, id: Id)
    requires Judge(c, s, b, hash, WellFormed(o), crypto) == Accept(o, t)
    ensures
      var later := OnBlob(c, s, b, hash, WellFormed(o), crypto, id);
      && id in later.live && later.live - {id} == s.live - {id}
      && later == s.(live := later.live, schedule := s.schedule + {Due(id, t)},
                     log := s.log + [Indexed(id, hash, b.height, o.gives, o.wants)])
    ensures
      var row := OnBlob(c, s, b, hash, WellFormed(o), crypto, id).live[id];
      && row.hash == hash && row.height == b.height && row.createdAt == b.time && row.expiresAt == t
      && FirstProvable(s.roots, o.roots, b.time, row.firstSeenAt)
      && row.gives == o.gives && row.wants == o.wants
      && (forall n :: n in row.nullifiers <==> n in o.nullifiers) && (forall u :: u in row.spends <==> u in o.spends)
  {
    AcceptedExactlyWhen(c, s, b, hash, WellFormed(o), crypto, t);
    ReconcileNeverFires(s.(live := s.live[id := NewRow(s, b, hash, o, t)]), o.nullifiers, b.time);
    FirstSeenIsLeast(s.roots, o.roots, b.time);
  }

  /** The stored outputs: each declared identity once, with the type and value of its first declaration, counted. */
  lemma {:induction false} OutputsAsDeclared(outputs: seq<OutputDecl>, u: Utxo)
    ensures u in OutputRows(outputs) <==> Declarations(outputs, u) > 0
    ensures u in OutputRows(outputs) ==>
              && OutputRows(outputs)[u].count == Declarations(outputs, u)
              && exists k :: FirstDeclared(outputs, u, k)
                             && OutputRows(outputs)[u].tokenType == outputs[k].tokenType && OutputRows(outputs)[u].value == outputs[k].value
  {
    if outputs != [] {
      var n := |outputs| - 1;
      var init, last := outputs[..n], outputs[n];
      OutputsAsDeclared(init, u);
      if u in OutputRows(init) {
        var k :| FirstDeclared(init, u, k)
                 && OutputRows(init)[u].tokenType == init[k].tokenType && OutputRows(init)[u].value == init[k].value;
        assert FirstDeclared(outputs, u, k);
      } else if last.ref == u {
        NoneDeclared(init, u);
        assert FirstDeclared(outputs, u, n);
      }
    }
  }

  function Declarations(outputs: seq<OutputDecl>, u: Utxo): nat {
    if outputs == [] then 0
    else Declarations(outputs[..|outputs| - 1], u) + if outputs[|outputs| - 1].ref == u then 1 else 0
  }

  ghost predicate FirstDeclared(outputs: seq<OutputDecl>, u: Utxo, k: int) {
    0 <= k < |outputs| && outputs[k].ref == u && forall j :: 0 <= j < k ==> outputs[j].ref != u
  }

  lemma {:induction false} NoneDeclared(outputs: seq<OutputDecl>, u: Utxo)
    requires Declarations(outputs, u) == 0
    ensures forall j :: 0 <= j < |outputs| ==> outputs[j].ref != u
  {
    if outputs != [] {
      var n := |outputs| - 1;
      NoneDeclared(outputs[..n], u);
      assert forall j :: 0 <= j < n ==> outputs[..n][j] == outputs[j];
    }
  }
}
