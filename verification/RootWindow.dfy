/** The windowed set of proof roots: deleting old rows is never visible in a verdict, and what a root's liveness means
    over a whole run of sightings. */
module RootWindow {
  import opened OfferLiveness
  import opened OfferBook

  datatype RootSighting = Seen(root: string, height: int, time: int)

  /** Block heights and times never go down. */
  ghost predicate Forward(ss: seq<RootSighting>) {
    forall i, j :: 0 <= i < j < |ss| ==> ss[i].height <= ss[j].height && ss[i].time <= ss[j].time
  }

  /** The table as the node keeps it: each sighting upserts its root and prunes what left the window. */
  function Kept(ss: seq<RootSighting>, window: nat): map<string, RootRow> {
    if ss == [] then map[] else
    var s := ss[|ss| - 1];
    PruneRoots(UpsertRoot(Kept(ss[..|ss| - 1], window), s.root, s.height, s.time), s.time - window * 1000)
  }

  /** The table if nothing were ever deleted. */
  function Full(ss: seq<RootSighting>): map<string, RootRow> {
    if ss == [] then map[] else
    var s := ss[|ss| - 1];
    UpsertRoot(Full(ss[..|ss| - 1]), s.root, s.height, s.time)
  }

  // ---- Pruning is never visible ----

  /** `p` is `f` without rows that are neither recent at `c` nor the tip. First-seen times may differ. */
  ghost predicate Agree(p: map<string, RootRow>, f: map<string, RootRow>, c: int) {
    && (forall r :: r in p ==> r in f && p[r].height == f[r].height && p[r].lastSeen == f[r].lastSeen)
    && (forall r :: r in f && r !in p ==> f[r].lastSeen < c && !IsTip(f, r))
  }

  lemma {:induction false} SomeTip(f: map<string, RootRow>) returns (m: string)
    requires f != map[]
    ensures m in f && IsTip(f, m)
    decreases |f.Keys|
  {
    var r :| r in f;
    var rest := f - {r};
    assert f.Keys == rest.Keys + {r};
    if rest == map[] {
      m := r;
    } else {
      var n := SomeTip(rest);
      m := if f[n].height <= f[r].height then r else n;
      forall other | other in f ensures f[other].height <= f[m].height {
        if other != r { assert rest[other].height <= rest[n].height; }
      }
    }
  }

  lemma SameTips(p: map<string, RootRow>, f: map<string, RootRow>, c: int, r: string)
    requires Agree(p, f, c) && r in p
    ensures IsTip(p, r) <==> IsTip(f, r)
  {
    var m := SomeTip(f);
    assert m in p;
    if IsTip(p, r) {
      forall other | other in f ensures f[other].height <= f[r].height {
        assert f[other].height <= f[m].height;
        assert p[m].height <= p[r].height;
      }
    }
    if IsTip(f, r) {
      forall other | other in p ensures p[other].height <= p[r].height {}
    }
  }

  lemma AgreeMeansSameLive(p: map<string, RootRow>, f: map<string, RootRow>, c: int, cutoff: int, r: string)
    requires Agree(p, f, c) && c <= cutoff
    ensures RootLive(p, r, cutoff) <==> RootLive(f, r, cutoff)
  {
    if r in p { SameTips(p, f, c, r); }
  }

  lemma UpsertKeepsAgreement(p: map<string, RootRow>, f: map<string, RootRow>, c: int, s: RootSighting)
    requires Agree(p, f, c) && forall r :: r in f ==> f[r].height <= s.height
    ensures Agree(UpsertRoot(p, s.root, s.height, s.time), UpsertRoot(f, s.root, s.height, s.time), c)
  {
    var f', p' := UpsertRoot(f, s.root, s.height, s.time), UpsertRoot(p, s.root, s.height, s.time);
    forall r | r in f' && r !in p' ensures f'[r].lastSeen < c && !IsTip(f', r) {
      var higher :| higher in f && f[higher].height > f[r].height;
      assert f'[higher].height > f'[r].height;
    }
  }

  lemma PruneKeepsAgreement(p: map<string, RootRow>, f: map<string, RootRow>, c: int, later: int)
    requires Agree(p, f, c) && c <= later
    ensures Agree(PruneRoots(p, later), f, later)
  {
    forall r | r in f && r !in PruneRoots(p, later) ensures f[r].lastSeen < later && !IsTip(f, r) {
      if r in p { SameTips(p, f, c, r); }
    }
  }

  // ---- The full table is the last sighting of each root ----

  ghost predicate SeenAt(ss: seq<RootSighting>, i: int, r: string) { 0 <= i < |ss| && ss[i].root == r }

  /** `i` is the last sighting of `r`. */
  ghost predicate LastAt(ss: seq<RootSighting>, i: int, r: string) {
    SeenAt(ss, i, r) && forall j :: i < j < |ss| ==> ss[j].root != r
  }

  lemma {:induction false} FullIsLast(ss: seq<RootSighting>, r: string)
    ensures r in Full(ss) <==> exists i :: SeenAt(ss, i, r)
    ensures r in Full(ss) ==>
              exists i :: LastAt(ss, i, r) && Full(ss)[r].height == ss[i].height && Full(ss)[r].lastSeen == ss[i].time
  {
    if ss != [] {
      var n := |ss| - 1;
      var init := ss[..n];
      FullIsLast(init, r);
      if ss[n].root == r {
        assert LastAt(ss, n, r);
      } else {
        if r in Full(init) {
          var i :| LastAt(init, i, r) && Full(init)[r].height == init[i].height && Full(init)[r].lastSeen == init[i].time;
          assert LastAt(ss, i, r);
        }
        if i :| SeenAt(ss, i, r) { assert SeenAt(init, i, r); }
      }
    }
  }

  lemma {:induction false} NodeAgrees(ss: seq<RootSighting>, window: nat)
    requires Forward(ss) && ss != []
    ensures Agree(Kept(ss, window), Full(ss), ss[|ss| - 1].time - window * 1000)
  {
    var n := |ss| - 1;
    var init, s := ss[..n], ss[n];
    var c := s.time - window * 1000;
    if n == 0 {
      assert Agree(Kept(init, window), Full(init), c);
    } else {
      NodeAgrees(init, window);
    }
    forall r | r in Full(init) ensures Full(init)[r].height <= s.height {
      FullIsLast(init, r);
      var i :| LastAt(init, i, r) && Full(init)[r].height == init[i].height;
      assert ss[i] == init[i];
    }
    UpsertKeepsAgreement(Kept(init, window), Full(init), c, s);
    PruneKeepsAgreement(UpsertRoot(Kept(init, window), s.root, s.height, s.time), UpsertRoot(Full(init), s.root, s.height, s.time), c, c);
  }

  /** The newest block carried this root. */
  ghost predicate Newest(ss: seq<RootSighting>, r: string) {
    exists i :: SeenAt(ss, i, r) && forall j :: 0 <= j < |ss| ==> ss[j].height <= ss[i].height
  }

  ghost predicate SeenSince(ss: seq<RootSighting>, r: string, cutoff: int) {
    exists i :: SeenAt(ss, i, r) && ss[i].time >= cutoff
  }

  /** No sighting of a root is above the height recorded for it. */
  lemma SeenBelow(ss: seq<RootSighting>, j: nat)
    requires Forward(ss) && j < |ss|
    ensures ss[j].root in Full(ss) && ss[j].height <= Full(ss)[ss[j].root].height
  {
    var r := ss[j].root;
    assert SeenAt(ss, j, r);
    FullIsLast(ss, r);
    var k :| LastAt(ss, k, r) && Full(ss)[r].height == ss[k].height;
    assert j <= k;
  }

  lemma TipIsNewest(ss: seq<RootSighting>, r: string)
    requires Forward(ss) && r in Full(ss)
    ensures IsTip(Full(ss), r) <==> Newest(ss, r)
  {
    if IsTip(Full(ss), r) {
      FullIsLast(ss, r);
      var i :| LastAt(ss, i, r) && Full(ss)[r].height == ss[i].height;
      forall j | 0 <= j < |ss| ensures ss[j].height <= ss[i].height { SeenBelow(ss, j); }
    }
    if Newest(ss, r) {
      var k :| SeenAt(ss, k, r) && forall j :: 0 <= j < |ss| ==> ss[j].height <= ss[k].height;
      SeenBelow(ss, k);
      forall other | other in Full(ss) ensures Full(ss)[other].height <= Full(ss)[r].height {
        FullIsLast(ss, other);
        var j :| LastAt(ss, j, other) && Full(ss)[other].height == ss[j].height;
      }
    }
  }

  /** `r` was not in the table when sighting `i` put it there, and has stayed since. */
  ghost predicate EnteredAt(ss: seq<RootSighting>, window: nat, i: int, r: string) {
    SeenAt(ss, i, r) && r !in Kept(ss[..i], window) && forall j :: i < j <= |ss| ==> r in Kept(ss[..j], window)
  }

  /** The first-seen time of a root is that of the sighting that entered it, however often it was seen again. */
  lemma {:induction false} FirstSeenExactly(ss: seq<RootSighting>, window: nat, r: string)
    requires r in Kept(ss, window)
    ensures exists i :: EnteredAt(ss, window, i, r) && Kept(ss, window)[r].firstSeen == ss[i].time
  {
    var n := |ss| - 1;
    var init := ss[..n];
    assert ss[..n + 1] == ss && forall j :: 0 <= j <= n ==> init[..j] == ss[..j];
    if r in Kept(init, window) {
      FirstSeenExactly(init, window, r);
      var i :| EnteredAt(init, window, i, r) && Kept(init, window)[r].firstSeen == init[i].time;
      assert EnteredAt(ss, window, i, r);
    } else {
      assert EnteredAt(ss, window, n, r);
    }
  }

  /** What the node's table answers, in terms of the sightings alone: a root is live exactly when it was seen since the
      cutoff or the newest block carried it. Rows the node deleted are never missed. */
  lemma LiveExactly(ss: seq<RootSighting>, window: nat, r: string, cutoff: int)
    requires Forward(ss) && (ss != [] ==> ss[|ss| - 1].time - window * 1000 <= cutoff)
    ensures RootLive(Kept(ss, window), r, cutoff) <==> SeenSince(ss, r, cutoff) || Newest(ss, r)
  {
    FullIsLast(ss, r);
    if ss != [] {
      NodeAgrees(ss, window);
      AgreeMeansSameLive(Kept(ss, window), Full(ss), ss[|ss| - 1].time - window * 1000, cutoff, r);
    }
    if r in Full(ss) {
      TipIsNewest(ss, r);
    }
  }
}
