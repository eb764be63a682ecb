/** Choosing an offer's expiry from the ledger limits that apply to it. */
module OfferExpiry {
  import opened Prelude

  // The largest timestamp a JavaScript Date can hold, in milliseconds either side of the epoch.
  const MAX_DATE_MS := 8_640_000_000_000_000

  /** A limit as the code receives it: missing, a millisecond timestamp, or something
      that does not parse to a number at all. */
  datatype Candidate = Absent | At(ms: int) | Unparseable

  datatype ExpiryError = Invalid(name: string) | NotDerived(name: string)

  predicate Usable(c: Candidate) {
    c.At? && -MAX_DATE_MS <= c.ms <= MAX_DATE_MS
  }

  function ExpiryTimestamp(name: string, c: Candidate): Result<Option<int>, ExpiryError> {
    if c.Absent? then Ok(None) else if Usable(c) then Ok(Some(c.ms)) else Err(Invalid(name))
  }

  function AsCandidate(o: Option<int>): Candidate {
    match o case None => Absent case Some(ms) => At(ms)
  }

  // ---- deriveOfferExpiry ----

  datatype Limit = Limit(name: string, at: Candidate)

  /** The timestamps of the limits that apply, or the error of the first limit that does not parse. */
  function Applicable(limits: seq<Limit>): Result<seq<int>, ExpiryError> {
    if limits == [] then Ok([]) else
    match Applicable(limits[..|limits| - 1])
    case Err(e) => Err(e)
    case Ok(ts) =>
      var last := limits[|limits| - 1];
      match ExpiryTimestamp(last.name, last.at)
      case Err(e) => Err(e)
      case Ok(None) => Ok(ts)
      case Ok(Some(t)) => Ok(ts + [t])
  }

  function Least(ts: seq<int>): int
    requires ts != []
  {
    if |ts| == 1 then ts[0] else Min(Least(ts[..|ts| - 1]), ts[|ts| - 1])
  }

  function LimitsOf(root: Candidate, intent: Candidate, dust: Candidate): seq<Limit> {
    [Limit("root", root), Limit("intent", intent), Limit("dust", dust)]
  }

  function Expiry(root: Candidate, intent: Candidate, dust: Candidate, fallback: Candidate): Result<int, ExpiryError> {
    match Applicable(LimitsOf(root, intent, dust))
    case Err(e) => Err(e)
    case Ok(ts) =>
      if ts != [] then Ok(Least(ts)) else
      match ExpiryTimestamp("fallback", fallback)
      case Err(e) => Err(e)
      case Ok(None) => Err(NotDerived("offer"))
      case Ok(Some(t)) => Ok(t)
  }

  method DeriveOfferExpiry(root: Candidate, intent: Candidate, dust: Candidate, fallback: Candidate)
    returns (r: Result<int, ExpiryError>)
    ensures r == Expiry(root, intent, dust, fallback)
  {
    var applicable := ApplicableTimestamps(LimitsOf(root, intent, dust));
    if applicable.Err? {
      return Err(applicable.error);
    }
    if |applicable.value| > 0 {
      var earliest := Earliest(applicable.value);
      return Ok(earliest);
    }
    var last := ExpiryTimestamp("fallback", fallback);
    match last
    case Err(e) => return Err(e);
    case Ok(None) => return Err(NotDerived("offer"));
    case Ok(Some(t)) => return Ok(t);
  }

  method ApplicableTimestamps(limits: seq<Limit>) returns (r: Result<seq<int>, ExpiryError>)
    ensures r == Applicable(limits)
  {
    var applicable: seq<int> := [];
    for i := 0 to |limits|
      invariant Applicable(limits[..i]) == Ok(applicable)
    {
      assert limits[..i + 1][..i] == limits[..i];
      var timestamp := ExpiryTimestamp(limits[i].name, limits[i].at);
      if timestamp.Err? {
        ApplicableErrSticks(limits, i + 1);
        return Err(timestamp.error);
      }
      if timestamp.value.Some? {
        applicable := applicable + [timestamp.value.value];
      }
    }
    assert limits[..|limits|] == limits;
    return Ok(applicable);
  }

  method Earliest(ts: seq<int>) returns (earliest: int)
    requires ts != []
    ensures earliest == Least(ts)
  {
    earliest := ts[0];
    for i := 1 to |ts|
      invariant earliest == Least(ts[..i])
    {
      assert ts[..i + 1][..i] == ts[..i];
      earliest := Min(earliest, ts[i]);
    }
    assert ts[..|ts|] == ts;
  }

  lemma {:induction false} ApplicableErrSticks(limits: seq<Limit>, n: nat)
    requires n <= |limits| && Applicable(limits[..n]).Err?
    ensures Applicable(limits) == Applicable(limits[..n])
    decreases |limits| - n
  {
    if n < |limits| {
      assert limits[..n + 1][..n] == limits[..n];
      ApplicableErrSticks(limits, n + 1);
    } else {
      assert limits[..n] == limits;
    }
  }

  /** The derived expiry is the earliest limit that applies, and the fallback is used exactly when none
      does. A limit that applies but does not parse is always an error, never skipped; the first such limit is named. */
  lemma ExpiryIsEarliest(root: Candidate, intent: Candidate, dust: Candidate, fallback: Candidate)
    ensures
      var r := Expiry(root, intent, dust, fallback);
      var malformed := Unusable(root) || Unusable(intent) || Unusable(dust);
      && (malformed ==> r == Err(Invalid(if Unusable(root) then "root" else if Unusable(intent) then "intent" else "dust")))
      && (!malformed && (root.At? || intent.At? || dust.At?) ==>
            && r.Ok? && (root == At(r.value) || intent == At(r.value) || dust == At(r.value))
            && NotAfter(r.value, root) && NotAfter(r.value, intent) && NotAfter(r.value, dust))
      && (root.Absent? && intent.Absent? && dust.Absent? ==>
            r == if Unusable(fallback) then Err(Invalid("fallback")) else if fallback.Absent? then Err(NotDerived("offer")) else Ok(fallback.ms))
  {
    var applicable := Applicable(LimitsOf(root, intent, dust));
    AppliesOfThree(root, intent, dust);
    if applicable.Ok? {
      if applicable.value != [] {
        var t := Least(applicable.value);
        LeastIsLeast(applicable.value);
        assert root == At(t) || intent == At(t) || dust == At(t);
      }
    }
  }

  lemma AppliesOfThree(root: Candidate, intent: Candidate, dust: Candidate)
    ensures
      match Applicable(LimitsOf(root, intent, dust))
      case Err(e) =>
        && (Unusable(root) || Unusable(intent) || Unusable(dust))
        && e == Invalid(if Unusable(root) then "root" else if Unusable(intent) then "intent" else "dust")
      case Ok(ts) =>
        && !Unusable(root) && !Unusable(intent) && !Unusable(dust)
        && (root.At? ==> root.ms in ts) && (intent.At? ==> intent.ms in ts) && (dust.At? ==> dust.ms in ts)
        && forall t :: t in ts ==> root == At(t) || intent == At(t) || dust == At(t)
  {
    var limits := LimitsOf(root, intent, dust);
    ApplicableMembers(limits);
    assert limits[0].at == root && limits[1].at == intent && limits[2].at == dust;
    if Unusable(root) || Unusable(intent) || Unusable(dust) {
      FirstUnusableIsNamed(limits, if Unusable(root) then 0 else if Unusable(intent) then 1 else 2);
    }
  }

  lemma {:induction false} FirstUnusableIsNamed(limits: seq<Limit>, k: nat)
    requires k < |limits| && Unusable(limits[k].at) && forall j :: 0 <= j < k ==> !Unusable(limits[j].at)
    ensures Applicable(limits) == Err(Invalid(limits[k].name))
  {
    var n := |limits| - 1;
    if k < n {
      FirstUnusableIsNamed(limits[..n], k);
    } else {
      ApplicableMembers(limits[..n]);
    }
  }

  predicate Unusable(c: Candidate) { c.Unparseable? || (c.At? && (c.ms > MAX_DATE_MS || c.ms < -MAX_DATE_MS)) }

  predicate NotAfter(t: int, c: Candidate) { c.At? ==> t <= c.ms }

  lemma {:induction false} ApplicableMembers(limits: seq<Limit>)
    ensures
      var r := Applicable(limits);
      && (r.Err? <==> exists l :: l in limits && !l.at.Absent? && !Usable(l.at))
      && (r.Ok? ==> forall l :: l in limits && Usable(l.at) ==> l.at.ms in r.value)
      && (r.Ok? ==> forall t :: t in r.value ==> exists l :: l in limits && l.at == At(t))
  {
    if limits != [] {
      var init, last := limits[..|limits| - 1], limits[|limits| - 1];
      assert limits == init + [last];
      ApplicableMembers(init);
    }
  }

  lemma {:induction false} LeastIsLeast(ts: seq<int>)
    requires ts != []
    ensures Least(ts) in ts
    ensures forall t :: t in ts ==> Least(ts) <= t
  {
    if |ts| > 1 {
      var init := ts[..|ts| - 1];
      LeastIsLeast(init);
      assert ts == init + [ts[|ts| - 1]];
    }
  }

  // ---- earliestDustSpendDeadline ----

  /** The DUST part of one intent: absent, or a creation time and a number of spends. */
  datatype IntentDust = NoDust | Dust(ctime: Candidate, spends: nat)

  predicate SpendsDust(i: IntentDust) { i.Dust? && i.spends > 0 }

  function DustDeadline(intents: seq<IntentDust>, graceSeconds: int): Result<Option<int>, ExpiryError> {
    if intents == [] then Ok(None) else
    match DustDeadline(intents[..|intents| - 1], graceSeconds)
    case Err(e) => Err(e)
    case Ok(sofar) =>
      var last := intents[|intents| - 1];
      if !SpendsDust(last) then Ok(sofar) else
      match ExpiryTimestamp("dust", last.ctime)
      case Err(e) => Err(e)
      case Ok(None) => Err(NotDerived("dust"))
      case Ok(Some(t)) =>
        var deadline := t + graceSeconds * 1000;
        if sofar.None? || deadline < sofar.value then Ok(Some(deadline)) else Ok(sofar)
  }

  method EarliestDustSpendDeadline(intents: seq<IntentDust>, graceSeconds: int)
    returns (r: Result<Option<int>, ExpiryError>)
    ensures r == DustDeadline(intents, graceSeconds)
  {
    var earliest: Option<int> := None;
    for i := 0 to |intents|
      invariant DustDeadline(intents[..i], graceSeconds) == Ok(earliest)
    {
      assert intents[..i + 1][..i] == intents[..i];
      if SpendsDust(intents[i]) {
        var ctime := ExpiryTimestamp("dust", intents[i].ctime);
        if ctime.Err? || ctime.value.None? {
          DustErrSticks(intents, graceSeconds, i + 1);
          return if ctime.Err? then Err(ctime.error) else Err(NotDerived("dust"));
        }
        var deadline := ctime.value.value + graceSeconds * 1000;
        if earliest.None? || deadline < earliest.value {
          earliest := Some(deadline);
        }
      }
    }
    assert intents[..|intents|] == intents;
    return Ok(earliest);
  }

  lemma {:induction false} DustErrSticks(intents: seq<IntentDust>, graceSeconds: int, n: nat)
    requires n <= |intents| && DustDeadline(intents[..n], graceSeconds).Err?
    ensures DustDeadline(intents, graceSeconds) == DustDeadline(intents[..n], graceSeconds)
    decreases |intents| - n
  {
    if n < |intents| {
      assert intents[..n + 1][..n] == intents[..n];
      DustErrSticks(intents, graceSeconds, n + 1);
    } else {
      assert intents[..n] == intents;
    }
  }

  /** The DUST deadline is the earliest creation time of a DUST-spending intent plus the grace period;
      there is none exactly when no intent spends DUST, and an unusable creation time is an error. */
  lemma {:induction false} DustDeadlineIsEarliest(intents: seq<IntentDust>, graceSeconds: int)
    ensures
      var r := DustDeadline(intents, graceSeconds);
      && (r.Err? <==> exists i :: i in intents && SpendsDust(i) && !Usable(i.ctime))
      && (r == Ok(None) <==> forall i :: i in intents ==> !SpendsDust(i))
      && (r.Ok? && r.value.Some? ==>
            && (exists i :: i in intents && SpendsDust(i) && i.ctime == At(r.value.value - graceSeconds * 1000))
            && forall i :: i in intents && SpendsDust(i) ==> r.value.value <= i.ctime.ms + graceSeconds * 1000)
  {
    if intents != [] {
      var init, last := intents[..|intents| - 1], intents[|intents| - 1];
      assert intents == init + [last];
      DustDeadlineIsEarliest(init, graceSeconds);
    }
  }

  // ---- offerLifetimeSeconds ----

  /** The lifetime served to clients: whole seconds, rounded down, never negative. */
  function OfferLifetimeSeconds(expiresAt: int, createdAt: int): (ttl: nat)
    ensures ttl * 1000 <= Max(0, expiresAt - createdAt) < (ttl + 1) * 1000
  {
    Max(0, (expiresAt - createdAt) / 1000)
  }
}
