/** The ordered chain-state checks an offer must pass to be usable: its nullifiers are unspent, its
    unshielded inputs are in the live set, its proof roots are recent. */
module OfferLiveness {
  import opened Prelude
  import opened AppEvents

  datatype RootRow = RootRow(height: int, lastSeen: int, firstSeen: int)

  /** The indexed tables the checks read. */
  datatype Facts = Facts(spent: set<string>, created: set<Utxo>, roots: map<string, RootRow>)

  datatype Descriptor =
    | NullifierUnspent(nullifier: string)
    | UtxoLive(ref: Utxo)
    | RootRecent(root: string)

  function Descriptors(nullifiers: seq<string>, spends: seq<Utxo>, roots: seq<string>): (ds: seq<Descriptor>)
    ensures |ds| == |nullifiers| + |spends| + |roots|
  {
    seq(|nullifiers|, i requires 0 <= i < |nullifiers| => NullifierUnspent(nullifiers[i]))
    + seq(|spends|, i requires 0 <= i < |spends| => UtxoLive(spends[i]))
    + seq(|roots|, i requires 0 <= i < |roots| => RootRecent(roots[i]))
  }

  /** The root carries the greatest height of the table, so the chain still accepts it. */
  predicate IsTip(roots: map<string, RootRow>, root: string)
    requires root in roots
  {
    forall other :: other in roots ==> roots[other].height <= roots[root].height
  }

  predicate RootLive(roots: map<string, RootRow>, root: string, cutoff: int) {
    root in roots && (roots[root].lastSeen >= cutoff || IsTip(roots, root))
  }

  predicate Holds(f: Facts, d: Descriptor, cutoff: int) {
    match d
    case NullifierUnspent(n) => n !in f.spent
    case UtxoLive(u) => u in f.created
    case RootRecent(r) => RootLive(f.roots, r, cutoff)
  }

  function FailureCode(d: Descriptor): string {
    match d
    case NullifierUnspent(_) => "NULLIFIER_SPENT"
    case UtxoLive(_) => "UTXO_NOT_LIVE"
    case RootRecent(_) => "ROOT_UNKNOWN"
  }

  function FirstDead(f: Facts, ds: seq<Descriptor>, cutoff: int): Option<Descriptor> {
    if ds == [] then None
    else if !Holds(f, ds[0], cutoff) then Some(ds[0])
    else FirstDead(f, ds[1..], cutoff)
  }

  lemma {:induction false} FirstDeadIsFirst(f: Facts, ds: seq<Descriptor>, cutoff: int)
    ensures
      match FirstDead(f, ds, cutoff)
      case None => forall d :: d in ds ==> Holds(f, d, cutoff)
      case Some(d) =>
        exists k :: 0 <= k < |ds| && ds[k] == d && !Holds(f, d, cutoff)
                    && forall j :: 0 <= j < k ==> Holds(f, ds[j], cutoff)
  {
    if ds != [] && Holds(f, ds[0], cutoff) {
      FirstDeadIsFirst(f, ds[1..], cutoff);
      var r := FirstDead(f, ds[1..], cutoff);
      if r.Some? {
        var k :| 0 <= k < |ds[1..]| && ds[1..][k] == r.value && !Holds(f, r.value, cutoff)
                 && forall j :: 0 <= j < k ==> Holds(f, ds[1..][j], cutoff);
        assert ds[k + 1] == r.value;
        assert forall j :: 0 < j < k + 1 ==> ds[j] == ds[1..][j - 1];
      } else {
        assert ds == [ds[0]] + ds[1..];
      }
    }
  }

  /** The code reported is decided by kind, in a fixed order: a spent nullifier hides a dead UTXO, and
      both hide an unknown root. */
  lemma VerdictOrder(f: Facts, nullifiers: seq<string>, spends: seq<Utxo>, roots: seq<string>, cutoff: int)
    ensures
      var r := FirstDead(f, Descriptors(nullifiers, spends, roots), cutoff);
      var nullifiersOk := forall n :: n in nullifiers ==> n !in f.spent;
      var spendsOk := forall u :: u in spends ==> u in f.created;
      var rootsOk := forall q :: q in roots ==> RootLive(f.roots, q, cutoff);
      && (r == None <==> nullifiersOk && spendsOk && rootsOk)
      && (r.Some? && FailureCode(r.value) == "NULLIFIER_SPENT" <==> !nullifiersOk)
      && (r.Some? && FailureCode(r.value) == "UTXO_NOT_LIVE" <==> nullifiersOk && !spendsOk)
      && (r.Some? && FailureCode(r.value) == "ROOT_UNKNOWN" <==> nullifiersOk && spendsOk && !rootsOk)
  {
    var ds := Descriptors(nullifiers, spends, roots);
    FirstDeadIsFirst(f, ds, cutoff);
    KindHolds(f, nullifiers, spends, roots, cutoff);
    var a, b := |nullifiers|, |nullifiers| + |spends|;
    var nullifiersOk := forall i :: 0 <= i < a ==> Holds(f, ds[i], cutoff);
    var spendsOk := forall i :: a <= i < b ==> Holds(f, ds[i], cutoff);
    var rootsOk := forall i :: b <= i < |ds| ==> Holds(f, ds[i], cutoff);
    if nullifiersOk && spendsOk && rootsOk {
      assert forall i :: 0 <= i < |ds| ==> Holds(f, ds[i], cutoff);
    }
  }

  lemma KindHolds(f: Facts, nullifiers: seq<string>, spends: seq<Utxo>, roots: seq<string>, cutoff: int)
    ensures
      var ds := Descriptors(nullifiers, spends, roots);
      var a, b := |nullifiers|, |nullifiers| + |spends|;
      && (forall i :: 0 <= i < |ds| ==> if i < a then ds[i].NullifierUnspent? else if i < b then ds[i].UtxoLive? else ds[i].RootRecent?)
      && ((forall i :: 0 <= i < a ==> Holds(f, ds[i], cutoff)) <==> forall n :: n in nullifiers ==> n !in f.spent)
      && ((forall i :: a <= i < b ==> Holds(f, ds[i], cutoff)) <==> forall u :: u in spends ==> u in f.created)
      && ((forall i :: b <= i < |ds| ==> Holds(f, ds[i], cutoff)) <==> forall q :: q in roots ==> RootLive(f.roots, q, cutoff))
  {
    var ds := Descriptors(nullifiers, spends, roots);
    var a, b := |nullifiers|, |nullifiers| + |spends|;
    assert forall i :: 0 <= i < |nullifiers| ==> ds[i] == NullifierUnspent(nullifiers[i]);
    assert forall i :: 0 <= i < |spends| ==> ds[a + i] == UtxoLive(spends[i]);
    assert forall i :: 0 <= i < |roots| ==> ds[b + i] == RootRecent(roots[i]);
    assert forall i :: a <= i < b ==> ds[i] == UtxoLive(spends[i - a]);
    assert forall i :: b <= i < |ds| ==> ds[i] == RootRecent(roots[i - b]);
  }

  /** The state machine's adapter: a loop with an early return. */
  method EvaluateInStateMachine(f: Facts, nullifiers: seq<string>, spends: seq<Utxo>, roots: seq<string>, cutoff: int)
    returns (dead: Option<Descriptor>)
    ensures dead == FirstDead(f, Descriptors(nullifiers, spends, roots), cutoff)
  {
    var ds := Descriptors(nullifiers, spends, roots);
    for i := 0 to |ds|
      invariant FirstDead(f, ds[i..], cutoff) == FirstDead(f, ds, cutoff)
    {
      assert ds[i..][0] == ds[i] && ds[i..][1..] == ds[i + 1..];
      var live: bool;
      match ds[i] {
        case NullifierUnspent(n) => live := n !in f.spent;
        case UtxoLive(u) => live := u in f.created;
        case RootRecent(r) => live := RootLive(f.roots, r, cutoff);
      }
      if !live {
        return Some(ds[i]);
      }
    }
    return None;
  }

  /** The database adapter asks for the root clock lazily and remembers the answer. `clock` is what the
      query would return; `asked` counts the queries made. */
  method EvaluateFromDatabase(f: Facts, nullifiers: seq<string>, spends: seq<Utxo>, roots: seq<string>, clock: int)
    returns (dead: Option<Descriptor>, asked: nat)
    ensures dead == FirstDead(f, Descriptors(nullifiers, spends, roots), clock)
    ensures asked <= 1
    ensures asked == 1 <==>
              roots != [] && (forall n :: n in nullifiers ==> n !in f.spent) && (forall u :: u in spends ==> u in f.created)
  {
    var ds := Descriptors(nullifiers, spends, roots);
    var a, b := |nullifiers|, |nullifiers| + |spends|;
    KindHolds(f, nullifiers, spends, roots, clock);
    var memo: Option<int> := None;
    asked := 0;
    for i := 0 to |ds|
      invariant FirstDead(f, ds[i..], clock) == FirstDead(f, ds, clock)
      invariant memo == if asked == 0 then None else Some(clock)
      invariant asked == if i > b then 1 else 0
      invariant forall j :: 0 <= j < i ==> Holds(f, ds[j], clock)
    {
      assert ds[i..][0] == ds[i] && ds[i..][1..] == ds[i + 1..];
      var live: bool;
      match ds[i] {
        case NullifierUnspent(n) => live := n !in f.spent;
        case UtxoLive(u) => live := u in f.created;
        case RootRecent(r) =>
          if memo.None? {
            memo, asked := Some(clock), asked + 1;
          }
          live := RootLive(f.roots, r, memo.value);
      }
      if !live {
        return Some(ds[i]), asked;
      }
    }
    return None, asked;
  }
}
