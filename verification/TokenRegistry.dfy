/** Replacing the canonical token rows in one transaction, although colours are unique and may be permuted. */
module TokenRegistry {
  import opened Prelude
  import opened Digits

  // ---- The two tables ----

  datatype Known = Known(id: nat, color: string, kind: string, decimals: int, asset: Option<string>)

  /** Who last imported a canonical name, and with which colour. */
  datatype Provenance = Provenance(color: string, network: string, revision: string)

  predicate ColorsUnique(known: map<string, Known>) {
    forall m, n :: m in known && n in known && known[m].color == known[n].color ==> m == n
  }

  predicate StateColorsUnique(state: map<string, Provenance>) {
    forall m, n :: m in state && n in state && state[m].color == state[n].color ==> m == n
  }

  predicate IdsBelow(known: map<string, Known>, next: nat) {
    && (forall n :: n in known ==> known[n].id < next)
    && forall m, n :: m in known && n in known && known[m].id == known[n].id ==> m == n
  }

  // ---- A validated registry ----

  datatype Token = Token(name: string, kind: string, decimals: int, asset: string, color: string)

  datatype Registry = Registry(network: string, revision: string, tokens: seq<Token>)

  predicate IsHexDigit(c: char) { '0' <= c <= '9' || 'a' <= c <= 'f' }

  predicate IsColor(s: string) { |s| == 64 && forall i :: 0 <= i < |s| ==> IsHexDigit(s[i]) }

  predicate WellFormed(r: Registry) {
    && (forall i :: 0 <= i < |r.tokens| ==> IsColor(r.tokens[i].color) && ':' !in r.tokens[i].name)
    && (forall i, j :: 0 <= i < j < |r.tokens| ==> r.tokens[i].name != r.tokens[j].name && r.tokens[i].color != r.tokens[j].color)
  }

  function Names(tokens: seq<Token>): (names: seq<string>)
    ensures |names| == |tokens| && forall i :: 0 <= i < |tokens| ==> names[i] == tokens[i].name
  {
    seq(|tokens|, i requires 0 <= i < |tokens| => tokens[i].name)
  }

  // ---- Temporary colours ----

  function TempColor(row: Known): string { "registry-import:" + Dec(row.id) + ":" + row.color }

  function TempState(name: string, p: Provenance): string { "registry-import-state:" + name + ":" + p.color }

  lemma TempColorsDiffer(a: Known, b: Known)
    requires TempColor(a) == TempColor(b)
    ensures a.id == b.id
  {
    var p := "registry-import:";
    assert TempColor(a)[|p|..] == Dec(a.id) + ":" + a.color && TempColor(b)[|p|..] == Dec(b.id) + ":" + b.color;
    SplitAtColon(Dec(a.id), a.color, Dec(b.id), b.color);
    DecInjective(a.id, b.id);
  }

  lemma TempStatesDiffer(m: string, a: Provenance, n: string, b: Provenance)
    requires ':' !in m && ':' !in n && TempState(m, a) == TempState(n, b)
    ensures m == n
  {
    var p := "registry-import-state:";
    assert TempState(m, a)[|p|..] == m + ":" + a.color && TempState(n, b)[|p|..] == n + ":" + b.color;
    SplitAtColon(m, a.color, n, b.color);
  }

  lemma TempIsNoColor(row: Known, name: string, p: Provenance)
    ensures !IsColor(TempColor(row)) && !IsColor(TempState(name, p))
  {
    assert TempColor(row)[0] == 'r' && TempState(name, p)[0] == 'r';
  }

  function Staged(known: map<string, Known>, names: seq<string>): map<string, Known> {
    map n | n in known :: if n in names then known[n].(color := TempColor(known[n])) else known[n]
  }

  function StagedState(state: map<string, Provenance>, names: seq<string>): map<string, Provenance> {
    map n | n in state :: if n in names then state[n].(color := TempState(n, state[n])) else state[n]
  }

  /** No row that still carries its own colour when `names[i]` is renamed carries the temporary one. */
  predicate TempFree(known: map<string, Known>, names: seq<string>, i: nat)
    requires i < |names|
  {
    names[i] in known ==>
      forall m :: m in known && m !in names[..i] && m != names[i] ==> known[m].color != TempColor(known[names[i]])
  }

  predicate TempStateFree(state: map<string, Provenance>, names: seq<string>, i: nat)
    requires i < |names|
  {
    names[i] in state ==>
      forall m :: m in state && m !in names[..i] && m != names[i] ==> state[m].color != TempState(names[i], state[names[i]])
  }

  predicate TempsFree(known: map<string, Known>, state: map<string, Provenance>, names: seq<string>) {
    forall i :: 0 <= i < |names| ==> TempFree(known, names, i) && TempStateFree(state, names, i)
  }

  // ---- The guards ----

  predicate ProvenanceWhole(state: map<string, Provenance>, names: seq<string>) {
    (forall n :: n in names ==> n !in state) || (forall n :: n in names ==> n in state)
  }

  predicate NoUnrelatedColor(known: map<string, Known>, r: Registry) {
    forall n, i :: n in known && n !in Names(r.tokens) && 0 <= i < |r.tokens| ==> known[n].color != r.tokens[i].color
  }

  /** The row may be replaced: the importer wrote it, or it already says what the import says, or there is none. */
  predicate Replaceable(known: map<string, Known>, state: map<string, Provenance>, t: Token) {
    if t.name in state then t.name in known && Lower(known[t.name].color) == Lower(state[t.name].color)
    else t.name in known ==>
      Lower(known[t.name].color) == t.color && known[t.name].kind == t.kind && known[t.name].decimals == t.decimals
      && known[t.name].asset == Some(t.asset)
  }

  predicate Guarded(known: map<string, Known>, state: map<string, Provenance>, r: Registry) {
    && ProvenanceWhole(state, Names(r.tokens)) && NoUnrelatedColor(known, r)
    && forall i :: 0 <= i < |r.tokens| ==> Replaceable(known, state, r.tokens[i])
  }

  predicate ChecksPass(t: Token, assets: set<string>) {
    t.asset in assets && t.kind in ["shielded", "unshielded"] && 0 <= t.decimals <= 38
  }

  /** No row of another importer's holds the colour of token `i`. */
  predicate StateFree(state: map<string, Provenance>, r: Registry, i: nat)
    requires i < |r.tokens|
  {
    forall n :: n in state && n !in Names(r.tokens) ==> state[n].color != r.tokens[i].color
  }

  /** What the guards do not look at and the constraints of the tables still refuse, token by token. */
  predicate StorableAt(state: map<string, Provenance>, r: Registry, i: nat, assets: set<string>)
    requires i < |r.tokens|
  {
    r.network in ["preview", "preprod", "stagenet"] && ChecksPass(r.tokens[i], assets) && StateFree(state, r, i)
  }

  predicate Storable(state: map<string, Provenance>, r: Registry, assets: set<string>) {
    forall i :: 0 <= i < |r.tokens| ==> StorableAt(state, r, i, assets)
  }

  predicate Admissible(known: map<string, Known>, state: map<string, Provenance>, r: Registry, assets: set<string>) {
    Guarded(known, state, r) && TempsFree(known, state, Names(r.tokens)) && Storable(state, r, assets)
  }

  // ---- The result ----

  /** The record of a token; a row that exists keeps its id. */
  function RowFor(known: map<string, Known>, t: Token, id: nat): Known {
    Known(if t.name in known then known[t.name].id else id, t.color, t.kind, t.decimals, Some(t.asset))
  }

  /** The rows after upserting the tokens; every upsert draws an id, whether it inserts or updates. */
  function Installed(known: map<string, Known>, tokens: seq<Token>, next: nat): map<string, Known> {
    if tokens == [] then known else
    var n := |tokens| - 1;
    var before, t := Installed(known, tokens[..n], next), tokens[n];
    before[t.name := RowFor(before, t, next + n)]
  }

  function InstalledState(state: map<string, Provenance>, tokens: seq<Token>, network: string, revision: string): map<string, Provenance> {
    if tokens == [] then state else
    var n := |tokens| - 1;
    InstalledState(state, tokens[..n], network, revision)[tokens[n].name := Provenance(tokens[n].color, network, revision)]
  }

  /** Exactly the canonical names carry the incoming records, and every other row is as it was. */
  ghost predicate Replaced(known: map<string, Known>, later: map<string, Known>, r: Registry) {
    && (forall n :: n in later <==> n in known || n in Names(r.tokens))
    && (forall n :: n in known && n !in Names(r.tokens) ==> later[n] == known[n])
    && (forall i :: 0 <= i < |r.tokens| ==>
          var t := r.tokens[i];
          && t.name in later && later[t.name] == Known(later[t.name].id, t.color, t.kind, t.decimals, Some(t.asset))
          && (t.name in known ==> later[t.name].id == known[t.name].id))
  }

  ghost predicate StateReplaced(state: map<string, Provenance>, later: map<string, Provenance>, r: Registry) {
    && (forall n :: n in later <==> n in state || n in Names(r.tokens))
    && (forall n :: n in state && n !in Names(r.tokens) ==> later[n] == state[n])
    && (forall i :: 0 <= i < |r.tokens| ==>
          r.tokens[i].name in later && later[r.tokens[i].name] == Provenance(r.tokens[i].color, r.network, r.revision))
  }

  // ---- What the renamed and installed tables look like ----

  predicate Distinct(names: seq<string>) { forall i, j :: 0 <= i < j < |names| ==> names[i] != names[j] }

  lemma StagedStep(known: map<string, Known>, names: seq<string>, i: nat)
    requires i < |names| && Distinct(names)
    ensures
      var before := Staged(known, names[..i]);
      Staged(known, names[..i + 1])
      == if names[i] in before then before[names[i] := before[names[i]].(color := TempColor(before[names[i]]))] else before
  {
    assert names[..i + 1] == names[..i] + [names[i]];
    assert names[i] !in names[..i];
  }

  lemma StagedStateStep(state: map<string, Provenance>, names: seq<string>, i: nat)
    requires i < |names| && Distinct(names)
    ensures
      var before := StagedState(state, names[..i]);
      StagedState(state, names[..i + 1])
      == if names[i] in before then before[names[i] := before[names[i]].(color := TempState(names[i], before[names[i]]))] else before
  {
    assert names[..i + 1] == names[..i] + [names[i]];
    assert names[i] !in names[..i];
  }

  /** The uniqueness check the database makes when one row is renamed fails exactly when `TempFree` does. */
  lemma RenameClash(known: map<string, Known>, names: seq<string>, i: nat, next: nat)
    requires i < |names| && Distinct(names) && IdsBelow(known, next) && names[i] in known
    ensures
      var before := Staged(known, names[..i]);
      (forall m :: m in before && m != names[i] ==> before[m].color != TempColor(before[names[i]])) <==> TempFree(known, names, i)
  {
    var before := Staged(known, names[..i]);
    assert names[i] !in names[..i] && before[names[i]] == known[names[i]];
    assert forall m :: m in known && m !in names[..i] ==> before[m] == known[m];
    forall m | m in names[..i] && m in known ensures before[m].color != TempColor(before[names[i]]) {
      if before[m].color == TempColor(before[names[i]]) { TempColorsDiffer(known[m], known[names[i]]); }
    }
  }

  lemma RenameStateClash(state: map<string, Provenance>, names: seq<string>, i: nat)
    requires i < |names| && Distinct(names) && names[i] in state
    requires forall k :: 0 <= k < |names| ==> ':' !in names[k]
    ensures
      var before := StagedState(state, names[..i]);
      (forall m :: m in before && m != names[i] ==> before[m].color != TempState(names[i], before[names[i]])) <==> TempStateFree(state, names, i)
  {
    var before := StagedState(state, names[..i]);
    assert names[i] !in names[..i] && before[names[i]] == state[names[i]];
    assert forall m :: m in state && m !in names[..i] ==> before[m] == state[m];
    forall m | m in names[..i] && m in state ensures before[m].color != TempState(names[i], before[names[i]]) {
      if before[m].color == TempState(names[i], before[names[i]]) { TempStatesDiffer(m, state[m], names[i], state[names[i]]); }
    }
  }

  /** The names of the first `count` tokens. */
  function Early(r: Registry, count: nat): set<string>
    requires count <= |r.tokens|
  {
    set i | 0 <= i < count :: r.tokens[i].name
  }

  lemma EarlySnoc(r: Registry, n: nat)
    requires WellFormed(r) && n < |r.tokens|
    ensures Early(r, n + 1) == Early(r, n) + {r.tokens[n].name} && r.tokens[n].name !in Early(r, n)
  {}

  lemma EarlyAll(r: Registry)
    ensures forall n :: n in Early(r, |r.tokens|) <==> n in Names(r.tokens)
  {
    forall i | 0 <= i < |r.tokens| ensures r.tokens[i].name in Names(r.tokens) { assert Names(r.tokens)[i] == r.tokens[i].name; }
  }

  /** `later` holds the first `count` tokens and otherwise what `known` holds. */
  ghost predicate KnownAfter(known: map<string, Known>, later: map<string, Known>, r: Registry, count: nat, next: nat)
    requires count <= |r.tokens|
  {
    && later.Keys == known.Keys + Early(r, count)
    && (forall n :: n in known && n !in Early(r, count) ==> later[n] == known[n])
    && forall i :: 0 <= i < count ==> KnownRow(known, later, r.tokens[i], next + i)
  }

  predicate KnownRow(known: map<string, Known>, later: map<string, Known>, t: Token, id: nat) {
    t.name in later && later[t.name] == RowFor(known, t, id)
  }

  ghost predicate StateAfter(state: map<string, Provenance>, later: map<string, Provenance>, r: Registry, count: nat)
    requires count <= |r.tokens|
  {
    && later.Keys == state.Keys + Early(r, count)
    && (forall n :: n in state && n !in Early(r, count) ==> later[n] == state[n])
    && forall i :: 0 <= i < count ==> StateRow(later, r.tokens[i], r)
  }

  predicate StateRow(later: map<string, Provenance>, t: Token, r: Registry) {
    t.name in later && later[t.name] == Provenance(t.color, r.network, r.revision)
  }

  lemma KnownAfterSnoc(known: map<string, Known>, before: map<string, Known>, r: Registry, n: nat, next: nat)
    requires WellFormed(r) && n < |r.tokens| && KnownAfter(known, before, r, n, next)
    ensures KnownAfter(known, before[r.tokens[n].name := RowFor(before, r.tokens[n], next + n)], r, n + 1, next)
  {
    EarlySnoc(r, n);
    var later := before[r.tokens[n].name := RowFor(before, r.tokens[n], next + n)];
    forall i | 0 <= i < n + 1 ensures KnownRow(known, later, r.tokens[i], next + i) {
      if i < n { assert KnownRow(known, before, r.tokens[i], next + i); }
    }
  }

  lemma StateAfterSnoc(state: map<string, Provenance>, before: map<string, Provenance>, r: Registry, n: nat)
    requires WellFormed(r) && n < |r.tokens| && StateAfter(state, before, r, n)
    ensures StateAfter(state, before[r.tokens[n].name := Provenance(r.tokens[n].color, r.network, r.revision)], r, n + 1)
  {
    EarlySnoc(r, n);
    var later := before[r.tokens[n].name := Provenance(r.tokens[n].color, r.network, r.revision)];
    forall i | 0 <= i < n + 1 ensures StateRow(later, r.tokens[i], r) {
      if i < n { assert StateRow(before, r.tokens[i], r); }
    }
  }

  lemma InstalledSnoc(known: map<string, Known>, r: Registry, n: nat, next: nat)
    requires n < |r.tokens|
    ensures
      var before := Installed(known, r.tokens[..n], next);
      Installed(known, r.tokens[..n + 1], next) == before[r.tokens[n].name := RowFor(before, r.tokens[n], next + n)]
  {
    var tokens := r.tokens[..n + 1];
    assert tokens[..|tokens| - 1] == r.tokens[..n] && tokens[|tokens| - 1] == r.tokens[n];
  }

  lemma InstalledStateSnoc(state: map<string, Provenance>, r: Registry, n: nat)
    requires n < |r.tokens|
    ensures
      InstalledState(state, r.tokens[..n + 1], r.network, r.revision)
      == InstalledState(state, r.tokens[..n], r.network, r.revision)[r.tokens[n].name := Provenance(r.tokens[n].color, r.network, r.revision)]
  {
    var tokens := r.tokens[..n + 1];
    assert tokens[..|tokens| - 1] == r.tokens[..n] && tokens[|tokens| - 1] == r.tokens[n];
  }

  lemma {:induction false} InstalledRows(known: map<string, Known>, r: Registry, count: nat, next: nat)
    requires WellFormed(r) && count <= |r.tokens|
    ensures KnownAfter(known, Installed(known, r.tokens[..count], next), r, count, next)
  {
    if count == 0 {
      assert Early(r, 0) == {} && known.Keys + {} == known.Keys;
    } else {
      var n := count - 1;
      InstalledRows(known, r, n, next);
      InstalledSnoc(known, r, n, next);
      KnownAfterSnoc(known, Installed(known, r.tokens[..n], next), r, n, next);
    }
  }

  lemma {:induction false} InstalledStateRows(state: map<string, Provenance>, r: Registry, count: nat)
    requires WellFormed(r) && count <= |r.tokens|
    ensures StateAfter(state, InstalledState(state, r.tokens[..count], r.network, r.revision), r, count)
  {
    if count == 0 {
      assert Early(r, 0) == {} && state.Keys + {} == state.Keys;
    } else {
      var n := count - 1;
      InstalledStateRows(state, r, n);
      InstalledStateSnoc(state, r, n);
      StateAfterSnoc(state, InstalledState(state, r.tokens[..n], r.network, r.revision), r, n);
    }
  }

  /** No other row of the table holds the colour. */
  predicate ColorFree(known: map<string, Known>, name: string, color: string) {
    forall m :: m in known && m != name ==> known[m].color != color
  }

  predicate StateColorFree(state: map<string, Provenance>, name: string, color: string) {
    forall m :: m in state && m != name ==> state[m].color != color
  }

  /** With the guards passed, no row in the table can clash with the next incoming colour. */
  lemma NoKnownClash(known: map<string, Known>, now: map<string, Known>, r: Registry, i: nat, next: nat)
    requires WellFormed(r) && i < |r.tokens| && NoUnrelatedColor(known, r)
    requires now == Installed(Staged(known, Names(r.tokens)), r.tokens[..i], next)
    ensures ColorFree(now, r.tokens[i].name, r.tokens[i].color)
  {
    var names, staged := Names(r.tokens), Staged(known, Names(r.tokens));
    InstalledRows(staged, r, i, next);
    forall m | m in now && m != r.tokens[i].name ensures now[m].color != r.tokens[i].color {
      if m in Early(r, i) {
        var k :| 0 <= k < i && r.tokens[k].name == m;
        assert KnownRow(staged, now, r.tokens[k], next + k);
      } else if m in names {
        TempIsNoColor(known[m], "", Provenance("", "", ""));
      }
    }
  }

  /** A clash in the other table comes from an unrelated row. */
  lemma StateClashExactly(state: map<string, Provenance>, now: map<string, Provenance>, r: Registry, i: nat)
    requires WellFormed(r) && i < |r.tokens|
    requires now == InstalledState(StagedState(state, Names(r.tokens)), r.tokens[..i], r.network, r.revision)
    ensures StateColorFree(now, r.tokens[i].name, r.tokens[i].color) <==> StateFree(state, r, i)
  {
    var names, staged := Names(r.tokens), StagedState(state, Names(r.tokens));
    InstalledStateRows(staged, r, i);
    EarlyAll(r);
    assert names[i] == r.tokens[i].name;
    assert forall n :: n in Early(r, i) ==> n in Early(r, |r.tokens|);
    forall m | m in now && m != r.tokens[i].name && m in names ensures now[m].color != r.tokens[i].color {
      if m in Early(r, i) {
        var k :| 0 <= k < i && r.tokens[k].name == m;
        assert StateRow(now, r.tokens[k], r);
      } else {
        TempIsNoColor(Known(0, "", "", 0, None), m, state[m]);
      }
    }
    assert forall n :: n in state && n !in names ==> n in now && now[n] == state[n] && n != r.tokens[i].name;
    assert forall n :: n in now && n !in names ==> n in state;
  }

  /** What the next upsert of each table does to the tables so far. */
  lemma NextKnown(known: map<string, Known>, now: map<string, Known>, r: Registry, i: nat, next: nat)
    requires WellFormed(r) && i < |r.tokens| && NoUnrelatedColor(known, r)
    requires now == Installed(Staged(known, Names(r.tokens)), r.tokens[..i], next)
    ensures ColorFree(now, r.tokens[i].name, r.tokens[i].color)
    ensures now[r.tokens[i].name := RowFor(now, r.tokens[i], next + i)]
            == Installed(Staged(known, Names(r.tokens)), r.tokens[..i + 1], next)
  {
    InstalledSnoc(Staged(known, Names(r.tokens)), r, i, next);
    NoKnownClash(known, now, r, i, next);
  }

  lemma NextState(state: map<string, Provenance>, now: map<string, Provenance>, r: Registry, i: nat)
    requires WellFormed(r) && i < |r.tokens|
    requires now == InstalledState(StagedState(state, Names(r.tokens)), r.tokens[..i], r.network, r.revision)
    ensures StateColorFree(now, r.tokens[i].name, r.tokens[i].color) <==> StateFree(state, r, i)
    ensures now[r.tokens[i].name := Provenance(r.tokens[i].color, r.network, r.revision)]
            == InstalledState(StagedState(state, Names(r.tokens)), r.tokens[..i + 1], r.network, r.revision)
  {
    InstalledStateSnoc(StagedState(state, Names(r.tokens)), r, i);
    StateClashExactly(state, now, r, i);
  }

  lemma KnownReplaced(known: map<string, Known>, later: map<string, Known>, r: Registry, next: nat)
    requires KnownAfter(Staged(known, Names(r.tokens)), later, r, |r.tokens|, next)
    ensures Replaced(known, later, r)
  {
    EarlyAll(r);
    forall i | 0 <= i < |r.tokens| ensures KnownRow(Staged(known, Names(r.tokens)), later, r.tokens[i], next + i) {}
  }

  lemma InstalledIsReplaced(known: map<string, Known>, state: map<string, Provenance>, r: Registry, next: nat)
    requires WellFormed(r)
    ensures Replaced(known, Installed(Staged(known, Names(r.tokens)), r.tokens, next), r)
    ensures StateReplaced(state, InstalledState(StagedState(state, Names(r.tokens)), r.tokens, r.network, r.revision), r)
  {
    assert r.tokens[..|r.tokens|] == r.tokens;
    var staged, stagedState := Staged(known, Names(r.tokens)), StagedState(state, Names(r.tokens));
    InstalledRows(staged, r, |r.tokens|, next);
    InstalledStateRows(stagedState, r, |r.tokens|);
    KnownReplaced(known, Installed(staged, r.tokens, next), r, next);
    StateIsReplaced(state, InstalledState(stagedState, r.tokens, r.network, r.revision), r);
  }

  lemma StateIsReplaced(state: map<string, Provenance>, later: map<string, Provenance>, r: Registry)
    requires StateAfter(StagedState(state, Names(r.tokens)), later, r, |r.tokens|)
    ensures StateReplaced(state, later, r)
  {
    EarlyAll(r);
    forall i | 0 <= i < |r.tokens| ensures StateRow(later, r.tokens[i], r) {}
  }

  // ---- The transaction ----

  /** The database as the importer's connection sees it. Every statement leaves both tables with unique names and
      unique colours, or fails. */
  class Tables {
    const assets: set<string>
    var known: map<string, Known>
    var state: map<string, Provenance>
    var nextId: nat

    predicate Valid()
      reads this
    {
      ColorsUnique(known) && StateColorsUnique(state) && IdsBelow(known, nextId)
    }

    constructor (assets: set<string>)
      ensures Valid() && known == map[] && state == map[] && this.assets == assets
    {
      this.assets, known, state, nextId := assets, map[], map[], 0;
    }

    method RenameKnown(name: string) returns (ok: bool)
      requires Valid() && name in known
      modifies this`known
      ensures Valid()
      ensures ok <==> forall m :: m in old(known) && m != name ==> old(known)[m].color != TempColor(old(known)[name])
      ensures known == if ok then old(known)[name := old(known)[name].(color := TempColor(old(known)[name]))] else old(known)
    {
      var color := TempColor(known[name]);
      ok := forall m :: m in known && m != name ==> known[m].color != color;
      if ok {
        known := known[name := known[name].(color := color)];
      }
    }

    method RenameState(name: string) returns (ok: bool)
      requires Valid() && name in state
      modifies this`state
      ensures Valid()
      ensures ok <==> forall m :: m in old(state) && m != name ==> old(state)[m].color != TempState(name, old(state)[name])
      ensures state == if ok then old(state)[name := old(state)[name].(color := TempState(name, old(state)[name]))] else old(state)
    {
      var color := TempState(name, state[name]);
      ok := forall m :: m in state && m != name ==> state[m].color != color;
      if ok {
        state := state[name := state[name].(color := color)];
      }
    }

    method StageKnown(names: seq<string>) returns (ok: bool)
      requires Valid() && Distinct(names)
      modifies this`known
      ensures Valid()
      ensures ok <==> forall i :: 0 <= i < |names| ==> TempFree(old(known), names, i)
      ensures ok ==> known == Staged(old(known), names)
    {
      for i := 0 to |names|
        invariant Valid() && known == Staged(old(known), names[..i])
        invariant forall k :: 0 <= k < i ==> TempFree(old(known), names, k)
      {
        StagedStep(old(known), names, i);
        if names[i] in known {
          RenameClash(old(known), names, i, nextId);
          var renamed := RenameKnown(names[i]);
          if !renamed { return false; }
        }
      }
      assert names[..|names|] == names;
      return true;
    }

    method StageState(names: seq<string>) returns (ok: bool)
      requires Valid() && Distinct(names) && forall k :: 0 <= k < |names| ==> ':' !in names[k]
      modifies this`state
      ensures Valid()
      ensures ok <==> forall i :: 0 <= i < |names| ==> TempStateFree(old(state), names, i)
      ensures ok ==> state == StagedState(old(state), names)
    {
      for i := 0 to |names|
        invariant Valid() && state == StagedState(old(state), names[..i])
        invariant forall k :: 0 <= k < i ==> TempStateFree(old(state), names, k)
      {
        StagedStateStep(old(state), names, i);
        if names[i] in state {
          RenameStateClash(old(state), names, i);
          var renamed := RenameState(names[i]);
          if !renamed { return false; }
        }
      }
      assert names[..|names|] == names;
      return true;
    }

    /** INSERT … ON CONFLICT (name) DO UPDATE; the serial id is drawn either way. */
    method UpsertKnown(t: Token) returns (ok: bool)
      requires Valid()
      modifies this`known, this`nextId
      ensures Valid() && nextId == old(nextId) + 1
      ensures ok <==> ChecksPass(t, assets) && ColorFree(old(known), t.name, t.color)
      ensures known == if ok then old(known)[t.name := RowFor(old(known), t, old(nextId))] else old(known)
    {
      var id := if t.name in known then known[t.name].id else nextId;
      nextId := nextId + 1;
      ok := ChecksPass(t, assets) && ColorFree(known, t.name, t.color);
      if ok {
        known := known[t.name := Known(id, t.color, t.kind, t.decimals, Some(t.asset))];
      }
    }

    method UpsertState(t: Token, network: string, revision: string) returns (ok: bool)
      requires Valid()
      modifies this`state
      ensures Valid()
      ensures ok <==> network in ["preview", "preprod", "stagenet"] && StateColorFree(old(state), t.name, t.color)
      ensures state == if ok then old(state)[t.name := Provenance(t.color, network, revision)] else old(state)
    {
      ok := network in ["preview", "preprod", "stagenet"] && StateColorFree(state, t.name, t.color);
      if ok {
        state := state[t.name := Provenance(t.color, network, revision)];
      }
    }

    /** The reads and guards before the first update. */
    method CheckGuards(r: Registry) returns (ok: bool)
      requires WellFormed(r)
      ensures ok <==> Guarded(known, state, r)
    {
      var names := Names(r.tokens);
      if !ProvenanceWhole(state, names) {
        return false;
      }
      if exists n, i :: n in known && n !in names && 0 <= i < |r.tokens| && known[n].color == r.tokens[i].color {
        return false;
      }
      for i := 0 to |r.tokens|
        invariant forall k :: 0 <= k < i ==> Replaceable(known, state, r.tokens[k])
      {
        if !Replaceable(known, state, r.tokens[i]) { return false; }
      }
      return true;
    }

    /** The tables hold the first `i` tokens over the renamed rows. */
    ghost predicate Reached(r: Registry, i: nat, known0: map<string, Known>, state0: map<string, Provenance>, next: nat)
      requires i <= |r.tokens|
      reads this
    {
      && known == Installed(Staged(known0, Names(r.tokens)), r.tokens[..i], next)
      && state == InstalledState(StagedState(state0, Names(r.tokens)), r.tokens[..i], r.network, r.revision)
    }

    method InstallKnown(r: Registry, i: nat, ghost known0: map<string, Known>, ghost next: nat) returns (ok: bool)
      requires Valid() && WellFormed(r) && i < |r.tokens| && NoUnrelatedColor(known0, r) && nextId == next + i
      requires known == Installed(Staged(known0, Names(r.tokens)), r.tokens[..i], next)
      modifies this`known, this`nextId
      ensures Valid() && nextId == old(nextId) + 1
      ensures ok <==> ChecksPass(r.tokens[i], assets)
      ensures ok ==> known == Installed(Staged(known0, Names(r.tokens)), r.tokens[..i + 1], next)
    {
      NextKnown(known0, known, r, i, next);
      ok := UpsertKnown(r.tokens[i]);
    }

    method InstallState(r: Registry, i: nat, ghost state0: map<string, Provenance>) returns (ok: bool)
      requires Valid() && WellFormed(r) && i < |r.tokens|
      requires state == InstalledState(StagedState(state0, Names(r.tokens)), r.tokens[..i], r.network, r.revision)
      modifies this`state
      ensures Valid()
      ensures ok <==> r.network in ["preview", "preprod", "stagenet"] && StateFree(state0, r, i)
      ensures ok ==> state == InstalledState(StagedState(state0, Names(r.tokens)), r.tokens[..i + 1], r.network, r.revision)
    {
      NextState(state0, state, r, i);
      ok := UpsertState(r.tokens[i], r.network, r.revision);
    }

    /** One token into both tables; `ok` tells whether the constraints let it in. */
    method InstallOne(r: Registry, i: nat, ghost known0: map<string, Known>, ghost state0: map<string, Provenance>, ghost next: nat)
      returns (ok: bool)
      requires Valid() && WellFormed(r) && i < |r.tokens| && NoUnrelatedColor(known0, r)
      requires Reached(r, i, known0, state0, next) && nextId == next + i
      modifies this`known, this`state, this`nextId
      ensures Valid() && nextId == old(nextId) + 1
      ensures ok <==> StorableAt(state0, r, i, assets)
      ensures ok ==> Reached(r, i + 1, known0, state0, next)
    {
      ok := InstallKnown(r, i, known0, next);
      if ok {
        ok := InstallState(r, i, state0);
      }
    }

    /** The upserts, token by token. */
    method Install(r: Registry, ghost known0: map<string, Known>, ghost state0: map<string, Provenance>) returns (ok: bool)
      requires Valid() && WellFormed(r) && NoUnrelatedColor(known0, r)
      requires known == Staged(known0, Names(r.tokens)) && state == StagedState(state0, Names(r.tokens))
      modifies this`known, this`state, this`nextId
      ensures Valid() && nextId >= old(nextId)
      ensures ok <==> Storable(state0, r, assets)
      ensures ok ==> Replaced(known0, known, r) && StateReplaced(state0, state, r)
    {
      ghost var next := nextId;
      assert r.tokens[..0] == [];
      for i := 0 to |r.tokens|
        invariant Valid() && nextId == next + i && Reached(r, i, known0, state0, next)
        invariant forall k :: 0 <= k < i ==> StorableAt(state0, r, k, assets)
      {
        var installed := InstallOne(r, i, known0, state0, next);
        if !installed { return false; }
      }
      assert r.tokens[..|r.tokens|] == r.tokens;
      InstalledIsReplaced(known0, state0, r, next);
      return true;
    }

    /** All or nothing: the import commits exactly when it is admissible, and otherwise both tables are restored. */
    method ApplyCanonicalRegistry(r: Registry) returns (ok: bool)
      requires Valid() && WellFormed(r)
      modifies this`known, this`state, this`nextId
      ensures Valid() && nextId >= old(nextId)
      ensures ok <==> Admissible(old(known), old(state), r, assets)
      ensures !ok <==> PartlyImported(old(state), r.tokens)
                       || exists i :: 0 <= i < |r.tokens| && Obstacle(old(known), old(state), r, assets, i)
      ensures ok ==> Replaced(old(known), known, r) && StateReplaced(old(state), state, r)
      ensures !ok ==> known == old(known) && state == old(state)
    {
      var names := Names(r.tokens);
      var known0, state0 := known, state;
      RefusedExactly(known0, state0, r, assets);
      ok := CheckGuards(r);
      if !ok { return; }
      ok := StageKnown(names);
      if ok { ok := StageState(names); }
      if ok { ok := Install(r, known0, state0); }
      if !ok {
        known, state := known0, state0;
      }
    }
  }

  // ---- What an import may touch ----

  /** A row under a canonical name that no importer wrote, and that says something else than the import. */
  predicate Collides(known: map<string, Known>, state: map<string, Provenance>, t: Token) {
    && t.name in known && t.name !in state
    && !(Lower(known[t.name].color) == t.color && known[t.name].kind == t.kind && known[t.name].decimals == t.decimals
         && known[t.name].asset == Some(t.asset))
  }

  /** A row an importer wrote that was removed or given another colour since. */
  predicate Disowned(known: map<string, Known>, state: map<string, Provenance>, t: Token) {
    t.name in state && (t.name !in known || Lower(known[t.name].color) != Lower(state[t.name].color))
  }

  /** Some canonical names were imported before, and some not. */
  predicate PartlyImported(state: map<string, Provenance>, tokens: seq<Token>) {
    && (exists i :: 0 <= i < |tokens| && tokens[i].name in state)
    && exists i :: 0 <= i < |tokens| && tokens[i].name !in state
  }

  /** Another row of either table holds an incoming colour. */
  predicate HeldElsewhere(known: map<string, Known>, state: map<string, Provenance>, r: Registry, i: nat)
    requires i < |r.tokens|
  {
    || (exists n :: n in known && known[n].color == r.tokens[i].color && NotCanonical(r, n))
    || (exists n :: n in state && state[n].color == r.tokens[i].color && NotCanonical(r, n))
  }

  predicate NotCanonical(r: Registry, n: string) { forall i :: 0 <= i < |r.tokens| ==> r.tokens[i].name != n }

  /** A row that is renamed later, or not at all, already holds the temporary colour of this one. */
  predicate TempHeld(known: map<string, Known>, state: map<string, Provenance>, r: Registry, i: nat)
    requires i < |r.tokens|
  {
    var n := r.tokens[i].name;
    || (n in known && exists m :: m in known && m != n && NotBefore(r, i, m)
                                  && known[m].color == "registry-import:" + Dec(known[n].id) + ":" + known[n].color)
    || (n in state && exists m :: m in state && m != n && NotBefore(r, i, m)
                                  && state[m].color == "registry-import-state:" + n + ":" + state[n].color)
  }

  predicate NotBefore(r: Registry, i: nat, m: string)
    requires i <= |r.tokens|
  {
    forall j :: 0 <= j < i ==> r.tokens[j].name != m
  }

  /** What the tables' constraints refuse of a token. */
  predicate Unstorable(r: Registry, t: Token, assets: set<string>) {
    || t.asset !in assets || (t.kind != "shielded" && t.kind != "unshielded") || t.decimals < 0 || t.decimals > 38
    || (r.network != "preview" && r.network != "preprod" && r.network != "stagenet")
  }

  /** What stops an import at one of its tokens. */
  predicate Obstacle(known: map<string, Known>, state: map<string, Provenance>, r: Registry, assets: set<string>, i: nat)
    requires i < |r.tokens|
  {
    || Collides(known, state, r.tokens[i]) || Disowned(known, state, r.tokens[i]) || HeldElsewhere(known, state, r, i)
    || TempHeld(known, state, r, i) || Unstorable(r, r.tokens[i], assets)
  }

  /** An import is refused exactly when the names were imported only in part or some token meets an obstacle. */
  lemma RefusedExactly(known: map<string, Known>, state: map<string, Provenance>, r: Registry, assets: set<string>)
    ensures !Admissible(known, state, r, assets) <==>
            PartlyImported(state, r.tokens) || exists i :: 0 <= i < |r.tokens| && Obstacle(known, state, r, assets, i)
  {
    WholeExactly(state, r);
    forall i | 0 <= i < |r.tokens| ensures Obstacle(known, state, r, assets, i) <==> !Unhindered(known, state, r, assets, i) {
      ObstacleExactly(known, state, r, assets, i);
    }
    AdmissibleExactly(known, state, r, assets);
  }

  lemma AdmissibleExactly(known: map<string, Known>, state: map<string, Provenance>, r: Registry, assets: set<string>)
    ensures Admissible(known, state, r, assets) <==>
            ProvenanceWhole(state, Names(r.tokens)) && forall i :: 0 <= i < |r.tokens| ==> Unhindered(known, state, r, assets, i)
  {
    UnrelatedExactly(known, r);
    if forall i :: 0 <= i < |r.tokens| ==> Unhindered(known, state, r, assets, i) {
      forall i | 0 <= i < |r.tokens| ensures Replaceable(known, state, r.tokens[i]) && UnrelatedAt(known, r, i) {
        assert Unhindered(known, state, r, assets, i);
      }
      forall i | 0 <= i < |r.tokens|
        ensures TempFree(known, Names(r.tokens), i) && TempStateFree(state, Names(r.tokens), i) && StorableAt(state, r, i, assets)
      {
        assert Unhindered(known, state, r, assets, i);
      }
    }
  }

  predicate Unhindered(known: map<string, Known>, state: map<string, Provenance>, r: Registry, assets: set<string>, i: nat)
    requires i < |r.tokens|
  {
    && Replaceable(known, state, r.tokens[i]) && UnrelatedAt(known, r, i)
    && TempFree(known, Names(r.tokens), i) && TempStateFree(state, Names(r.tokens), i) && StorableAt(state, r, i, assets)
  }

  lemma ObstacleExactly(known: map<string, Known>, state: map<string, Provenance>, r: Registry, assets: set<string>, i: nat)
    requires i < |r.tokens|
    ensures Obstacle(known, state, r, assets, i) <==> !Unhindered(known, state, r, assets, i)
  {
    forall n ensures NotCanonical(r, n) <==> n !in Names(r.tokens) { CanonicalExactly(r, n); }
    TempHeldExactly(known, state, r, i);
  }

  lemma UnrelatedExactly(known: map<string, Known>, r: Registry)
    ensures NoUnrelatedColor(known, r) <==> forall i :: 0 <= i < |r.tokens| ==> UnrelatedAt(known, r, i)
  {
    if forall i :: 0 <= i < |r.tokens| ==> UnrelatedAt(known, r, i) {
      forall n, i | n in known && n !in Names(r.tokens) && 0 <= i < |r.tokens| ensures known[n].color != r.tokens[i].color {
        assert UnrelatedAt(known, r, i);
      }
    }
  }

  predicate UnrelatedAt(known: map<string, Known>, r: Registry, i: nat)
    requires i < |r.tokens|
  {
    forall n :: n in known && n !in Names(r.tokens) ==> known[n].color != r.tokens[i].color
  }

  lemma CanonicalExactly(r: Registry, n: string)
    ensures NotCanonical(r, n) <==> n !in Names(r.tokens)
  {
    forall i | 0 <= i < |r.tokens| ensures r.tokens[i].name in Names(r.tokens) { assert Names(r.tokens)[i] == r.tokens[i].name; }
  }

  lemma WholeExactly(state: map<string, Provenance>, r: Registry)
    ensures PartlyImported(state, r.tokens) <==> !ProvenanceWhole(state, Names(r.tokens))
  {
    var names := Names(r.tokens);
    forall i | 0 <= i < |r.tokens| ensures names[i] in names && names[i] == r.tokens[i].name {}
    assert forall n :: n in names ==> exists i :: 0 <= i < |names| && names[i] == n;
  }

  lemma TempHeldExactly(known: map<string, Known>, state: map<string, Provenance>, r: Registry, i: nat)
    requires i < |r.tokens|
    ensures TempHeld(known, state, r, i) <==> !TempFree(known, Names(r.tokens), i) || !TempStateFree(state, Names(r.tokens), i)
  {
    var names := Names(r.tokens);
    assert names[i] == r.tokens[i].name;
    forall m ensures NotBefore(r, i, m) <==> m !in names[..i] {
      forall j | 0 <= j < i ensures r.tokens[j].name in names[..i] { assert names[..i][j] == r.tokens[j].name; }
    }
  }

  /** A committed import leaves a row no importer wrote as it was, up to the letter case of its colour, and with it every row
      that is not canonical. */
  lemma UnmanagedRowsStay(known: map<string, Known>, state: map<string, Provenance>, later: map<string, Known>, r: Registry, assets: set<string>)
    requires Admissible(known, state, r, assets) && Replaced(known, later, r)
    ensures forall n :: n in known && n !in state ==>
              n in later && Lower(later[n].color) == Lower(known[n].color) && later[n] == known[n].(color := later[n].color)
  {
    forall n | n in known && n !in state
      ensures n in later && Lower(later[n].color) == Lower(known[n].color) && later[n] == known[n].(color := later[n].color)
    {
      if n in Names(r.tokens) {
        var i :| 0 <= i < |r.tokens| && Names(r.tokens)[i] == n;
        assert Replaceable(known, state, r.tokens[i]);
        LowerTwice(known[n].color);
      }
    }
  }

  lemma LowerTwice(s: string)
    ensures Lower(Lower(s)) == Lower(s)
  {}

  // ---- Importing again ----

  /** After an import the provenance guards never stop a later one: only a colour that an unrelated row holds, a
      clash with a temporary colour, or a failing table constraint can. */
  lemma LaterImportExactly(known: map<string, Known>, state: map<string, Provenance>,
                           later: map<string, Known>, laterState: map<string, Provenance>, r: Registry, next: Registry, assets: set<string>)
    requires WellFormed(r) && WellFormed(next) && Names(next.tokens) == Names(r.tokens)
    requires Replaced(known, later, r) && StateReplaced(state, laterState, r)
    ensures Admissible(later, laterState, next, assets) <==>
            NoUnrelatedColor(later, next) && TempsFree(later, laterState, Names(next.tokens)) && Storable(laterState, next, assets)
  {
    forall i | 0 <= i < |next.tokens| ensures Replaceable(later, laterState, next.tokens[i]) {
      assert Names(next.tokens)[i] == Names(r.tokens)[i];
      assert r.tokens[i].name == next.tokens[i].name;
    }
    forall n | n in Names(next.tokens) ensures n in laterState {}
    assert ProvenanceWhole(laterState, Names(next.tokens));
  }

  predicate Reserved(color: string) { "registry-import" <= color }

  lemma UnreservedIsTempFree(known: map<string, Known>, state: map<string, Provenance>, names: seq<string>)
    requires forall n :: n in known ==> !Reserved(known[n].color)
    requires forall n :: n in state ==> !Reserved(state[n].color)
    ensures TempsFree(known, state, names)
  {
    forall i | 0 <= i < |names| ensures TempFree(known, names, i) && TempStateFree(state, names, i) {}
  }

  lemma ImportedUnreserved(known: map<string, Known>, state: map<string, Provenance>, later: map<string, Known>,
                           laterState: map<string, Provenance>, r: Registry)
    requires WellFormed(r) && Replaced(known, later, r) && StateReplaced(state, laterState, r)
    requires forall n :: n in known && n !in Names(r.tokens) ==> !Reserved(known[n].color)
    requires forall n :: n in state && n !in Names(r.tokens) ==> !Reserved(state[n].color)
    ensures forall n :: n in later ==> !Reserved(later[n].color)
    ensures forall n :: n in laterState ==> !Reserved(laterState[n].color)
  {
    forall n | n in Names(r.tokens) ensures !Reserved(later[n].color) && !Reserved(laterState[n].color) {
      var i :| 0 <= i < |r.tokens| && Names(r.tokens)[i] == n;
      assert r.tokens[i].name == n && r.tokens[i].color[0] != 'r';
    }
  }

  predicate ColorsFrom(next: Registry, r: Registry) {
    forall i :: 0 <= i < |next.tokens| ==> exists j :: 0 <= j < |r.tokens| && next.tokens[i].color == r.tokens[j].color
  }

  lemma PermutedColorsStayFree(known: map<string, Known>, later: map<string, Known>, r: Registry, next: Registry)
    requires Names(next.tokens) == Names(r.tokens) && ColorsFrom(next, r)
    requires NoUnrelatedColor(known, r) && Replaced(known, later, r)
    ensures NoUnrelatedColor(later, next)
  {
    forall n, i | n in later && n !in Names(next.tokens) && 0 <= i < |next.tokens|
      ensures later[n].color != next.tokens[i].color
    {
      var j :| 0 <= j < |r.tokens| && next.tokens[i].color == r.tokens[j].color;
      assert n in known && later[n] == known[n];
    }
  }

  lemma PermutedColorsStorable(state: map<string, Provenance>, later: map<string, Provenance>, r: Registry, next: Registry, assets: set<string>)
    requires Names(next.tokens) == Names(r.tokens) && ColorsFrom(next, r)
    requires Storable(state, r, assets) && StateReplaced(state, later, r)
    requires next.network in ["preview", "preprod", "stagenet"]
    requires forall i :: 0 <= i < |next.tokens| ==> ChecksPass(next.tokens[i], assets)
    ensures Storable(later, next, assets)
  {
    forall i | 0 <= i < |next.tokens| ensures StateFree(later, next, i) {
      var j :| 0 <= j < |r.tokens| && next.tokens[i].color == r.tokens[j].color;
      assert StorableAt(state, r, j, assets);
      assert forall n :: n in later && n !in Names(r.tokens) ==> n in state && later[n] == state[n];
    }
  }

  /** Importing the same registry again goes in unless some row holds a temporary colour, and changes nothing. */
  lemma ReimportChangesNothing(known: map<string, Known>, state: map<string, Provenance>, later: map<string, Known>,
                               laterState: map<string, Provenance>, r: Registry, assets: set<string>)
    requires WellFormed(r) && Admissible(known, state, r, assets)
    requires Replaced(known, later, r) && StateReplaced(state, laterState, r)
    ensures Admissible(later, laterState, r, assets) <==> TempsFree(later, laterState, Names(r.tokens))
    ensures forall again, againState :: Replaced(later, again, r) && StateReplaced(laterState, againState, r) ==>
              again == later && againState == laterState
  {
    StillStorable(known, state, later, laterState, r, assets);
    LaterImportExactly(known, state, later, laterState, r, r, assets);
    forall again, againState | Replaced(later, again, r) && StateReplaced(laterState, againState, r)
      ensures again == later && againState == laterState
    {
      ReplacedAgain(known, state, later, laterState, again, againState, r);
    }
  }

  lemma StillStorable(known: map<string, Known>, state: map<string, Provenance>, later: map<string, Known>,
                      laterState: map<string, Provenance>, r: Registry, assets: set<string>)
    requires NoUnrelatedColor(known, r) && Storable(state, r, assets)
    requires Replaced(known, later, r) && StateReplaced(state, laterState, r)
    ensures NoUnrelatedColor(later, r) && Storable(laterState, r, assets)
  {
    forall n, i | n in later && n !in Names(r.tokens) && 0 <= i < |r.tokens| ensures later[n].color != r.tokens[i].color {
      assert n in known && later[n] == known[n];
    }
    forall i | 0 <= i < |r.tokens| ensures StorableAt(laterState, r, i, assets) {
      assert StorableAt(state, r, i, assets);
      assert forall n :: n in laterState && n !in Names(r.tokens) ==> n in state && laterState[n] == state[n];
    }
  }

  lemma ReplacedAgain(known: map<string, Known>, state: map<string, Provenance>, later: map<string, Known>,
                      laterState: map<string, Provenance>, again: map<string, Known>, againState: map<string, Provenance>, r: Registry)
    requires Replaced(known, later, r) && StateReplaced(state, laterState, r)
    requires Replaced(later, again, r) && StateReplaced(laterState, againState, r)
    ensures again == later && againState == laterState
  {
    forall n | n in Names(r.tokens) ensures n in later && n in again && again[n] == later[n] && againState[n] == laterState[n] {
      var i :| 0 <= i < |r.tokens| && Names(r.tokens)[i] == n;
      assert r.tokens[i].name == n;
    }
  }

  /** Colours may be dealt to the canonical names in any order: from an imported state, a registry that permutes
      the imported colours always goes in. */
  lemma AnyPermutationGoesIn(known: map<string, Known>, state: map<string, Provenance>, later: map<string, Known>,
                             laterState: map<string, Provenance>, r: Registry, next: Registry, assets: set<string>)
    requires WellFormed(r) && WellFormed(next) && Names(next.tokens) == Names(r.tokens) && ColorsFrom(next, r)
    requires Admissible(known, state, r, assets) && Replaced(known, later, r) && StateReplaced(state, laterState, r)
    requires next.network in ["preview", "preprod", "stagenet"]
    requires forall i :: 0 <= i < |next.tokens| ==> ChecksPass(next.tokens[i], assets)
    requires forall n :: n in known && n !in Names(r.tokens) ==> !Reserved(known[n].color)
    requires forall n :: n in state && n !in Names(r.tokens) ==> !Reserved(state[n].color)
    ensures Admissible(later, laterState, next, assets)
  {
    ImportedUnreserved(known, state, later, laterState, r);
    UnreservedIsTempFree(later, laterState, Names(next.tokens));
    PermutedColorsStayFree(known, later, r, next);
    PermutedColorsStorable(state, laterState, r, next, assets);
    LaterImportExactly(known, state, later, laterState, r, next, assets);
  }
}
