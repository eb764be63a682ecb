/** The batcher's per-colour price cache: what it serves is the node's last good answer, never an older or younger
    one, and failures lose nothing. */
module PriceCache {
  import opened Prelude

  const MAX_TOKENS_PER_REQUEST := 50

  datatype Row = Row(price: string, source: string)

  // ---- Reading a prices body ----

  /** One entry of the body. `price` is present when it is a finite number. */
  datatype RawToken = RawToken(color: Option<string>, price: Option<string>, source: Option<string>) | NoToken

  predicate IsMarket(source: string) { source in ["feed", "seed", "manual"] }

  /** Usable as a market price. */
  predicate Vouched(t: RawToken) { t.RawToken? && t.price.Some? && t.source.Some? && IsMarket(t.source.value) }

  predicate Names(t: RawToken, color: string) {
    t.RawToken? && t.color.Some? && Lower(t.color.value) == color && color != ""
  }

  function RowOf(t: RawToken): Row
    requires t.RawToken?
  {
    if Vouched(t) then Row(t.price.value, t.source.value)
    else Row(if t.price.Some? then t.price.value else "0", "fallback")
  }

  /** The last entry for a colour decides. */
  function LastRow(tokens: seq<RawToken>, color: string): Option<Row> {
    if tokens == [] then None else
    var t := tokens[|tokens| - 1];
    if Names(t, color) then Some(RowOf(t)) else LastRow(tokens[..|tokens| - 1], color)
  }

  /** An entry without a colour, or one that claims a market price the batcher cannot use. */
  predicate IsDowngraded(t: RawToken) {
    t.NoToken? || t.color.None? || t.color.value == "" || (!Vouched(t) && t.source != Some("fallback"))
  }

  function Downgraded(tokens: seq<RawToken>): nat {
    if tokens == [] then 0 else Downgraded(tokens[..|tokens| - 1]) + if IsDowngraded(tokens[|tokens| - 1]) then 1 else 0
  }

  method ParseTokens(tokens: seq<RawToken>) returns (prices: map<string, Row>, downgraded: nat)
    ensures forall c :: (c in prices <==> LastRow(tokens, c).Some?) && (c in prices ==> LastRow(tokens, c) == Some(prices[c]))
    ensures downgraded == Downgraded(tokens)
  {
    prices, downgraded := map[], 0;
    for i := 0 to |tokens|
      invariant forall c :: (c in prices <==> LastRow(tokens[..i], c).Some?)
                            && (c in prices ==> LastRow(tokens[..i], c) == Some(prices[c]))
      invariant downgraded == Downgraded(tokens[..i])
    {
      assert tokens[..i + 1][..i] == tokens[..i];
      var t := tokens[i];
      if t.NoToken? || t.color.None? || Lower(t.color.value) == "" {
        downgraded := downgraded + 1;
        continue;
      }
      var color := Lower(t.color.value);
      if t.price.None? || t.source.None? || !IsMarket(t.source.value) {
        if t.source != Some("fallback") { downgraded := downgraded + 1; }
        prices := prices[color := Row(if t.price.Some? then t.price.value else "0", "fallback")];
      } else {
        prices := prices[color := Row(t.price.value, t.source.value)];
      }
    }
    assert tokens[..|tokens|] == tokens;
  }

  /** A body as it arrives; `discount` is present when it is a finite number. */
  datatype Body = NoRecord | NoTokens | Body(tokens: seq<RawToken>, discount: Option<real>)

  /** None when the body does not have the documented shape at all. */
  method ParsePricesBody(body: Body, fallbackDiscount: real)
    returns (r: Option<(map<string, Row>, real, nat)>)
    ensures r.Some? <==> body.Body?
    ensures r.Some? ==>
              var (prices, discount, downgraded) := r.value;
              && (forall c :: (c in prices <==> LastRow(body.tokens, c).Some?) && (c in prices ==> LastRow(body.tokens, c) == Some(prices[c])))
              && (if body.discount.Some? && 0.0 <= body.discount.value < 1.0 then discount == body.discount.value
                  else discount == fallbackDiscount)
              && downgraded == Downgraded(body.tokens)
  {
    if !body.Body? { return None; }
    var given := body.discount;
    var discount := if given.Some? && given.value >= 0.0 && given.value < 1.0 then given.value else fallbackDiscount;
    var prices, downgraded := ParseTokens(body.tokens);
    return Some((prices, discount, downgraded));
  }

  /** The entry offers a market price: a finite number from a source that watches or sets the market. */
  predicate OffersPrice(t: RawToken, price: string, source: string) {
    t.RawToken? && t.price == Some(price) && t.source == Some(source) && (source == "feed" || source == "seed" || source == "manual")
  }

  /** The entry is counted as unusable: it is no record, names no colour, or offers no market price without saying so. */
  ghost predicate IsUnusable(t: RawToken) {
    t.RawToken? && t.color.Some? && t.color.value != "" ==>
      t.source != Some("fallback") && forall price, source :: !OffersPrice(t, price, source)
  }

  lemma UnusableExactly(t: RawToken)
    ensures IsDowngraded(t) <==> IsUnusable(t)
  {
    if t.RawToken? && Vouched(t) { assert OffersPrice(t, t.price.value, t.source.value); }
  }

  ghost function Unusable(tokens: seq<RawToken>): set<int> { set k | 0 <= k < |tokens| && IsUnusable(tokens[k]) }

  /** The count is that of the unusable entries. */
  lemma {:induction false} DowngradedExactly(tokens: seq<RawToken>)
    ensures Downgraded(tokens) == |Unusable(tokens)|
  {
    if tokens != [] {
      var n := |tokens| - 1;
      DowngradedExactly(tokens[..n]);
      UnusableExactly(tokens[n]);
      assert Unusable(tokens) == if IsUnusable(tokens[n]) then Unusable(tokens[..n]) + {n} else Unusable(tokens[..n]);
    }
  }

  /** Nothing was downgraded exactly when every entry names a colour and is either a usable market price or says itself
      that it is none. */
  lemma NoneDowngradedExactly(tokens: seq<RawToken>)
    ensures Downgraded(tokens) == 0 <==> forall k :: 0 <= k < |tokens| ==> !IsUnusable(tokens[k])
  {
    DowngradedExactly(tokens);
    if k :| 0 <= k < |tokens| && IsUnusable(tokens[k]) { assert k in Unusable(tokens); }
  }

  /** Entry `k` has the last word on the colour. */
  ghost predicate Decides(tokens: seq<RawToken>, k: int, color: string) {
    && 0 <= k < |tokens| && HasColor(tokens[k], color) && forall j :: k < j < |tokens| ==> !HasColor(tokens[j], color)
  }

  predicate HasColor(t: RawToken, color: string) { t.RawToken? && t.color.Some? && |color| > 0 && color == Lower(t.color.value) }

  /** A colour is on record exactly when some entry names it. The last one decides: it is a market price exactly when that
      entry offers one, and otherwise a fallback with the entry's number, or with none of it zero. */
  lemma {:induction false} MarketPriceIsVouched(tokens: seq<RawToken>, color: string)
    ensures LastRow(tokens, color).Some? <==> exists k :: Decides(tokens, k, color)
    ensures forall k, price, source :: Decides(tokens, k, color) && OffersPrice(tokens[k], price, source) ==>
              LastRow(tokens, color) == Some(Row(price, source))
    ensures forall k :: Decides(tokens, k, color) && (forall price, source :: !OffersPrice(tokens[k], price, source)) ==>
              LastRow(tokens, color) == Some(Row(match tokens[k].price case Some(p) => p case None => "0", "fallback"))
  {
    if tokens != [] {
      var n := |tokens| - 1;
      var init := tokens[..n];
      MarketPriceIsVouched(init, color);
      assert forall j :: 0 <= j < n ==> init[j] == tokens[j];
      if Names(tokens[n], color) {
        assert Decides(tokens, n, color);
        if Vouched(tokens[n]) { assert OffersPrice(tokens[n], tokens[n].price.value, tokens[n].source.value); }
      } else {
        assert forall k :: Decides(tokens, k, color) <==> Decides(init, k, color);
      }
    }
  }

  // ---- Answers ----

  datatype Reply = Failure | Success(rows: map<string, Row>, discount: real)

  datatype Entry = Entry(row: Option<Row>, at: int)

  /** A good answer: the colours asked for, what came back, and when. */
  datatype Answer = Answer(colors: seq<string>, rows: map<string, Row>, discount: real, at: int)

  /** What the latest answer that covers the colour said, and when it said it. */
  function LastWord(log: seq<Answer>, color: string): Option<Entry> {
    if log == [] then None else
    var a := log[|log| - 1];
    if color in a.colors then Some(Entry(if color in a.rows then Some(a.rows[color]) else None, a.at))
    else LastWord(log[..|log| - 1], color)
  }

  function LastDiscount(log: seq<Answer>, fallback: real): real {
    if log == [] then fallback else log[|log| - 1].discount
  }

  // ---- One lookup ----

  function Wanted(colors: seq<string>): seq<string> {
    if colors == [] then [] else
    var init, c := Wanted(colors[..|colors| - 1]), Lower(colors[|colors| - 1]);
    if c in init then init else init + [c]
  }

  predicate IsStale(entries: map<string, Entry>, ttl: int, now: int, c: string) {
    c !in entries || now - entries[c].at > ttl
  }

  function Stale(wanted: seq<string>, entries: map<string, Entry>, ttl: int, now: int): seq<string> {
    if wanted == [] then [] else
    var init, c := Stale(wanted[..|wanted| - 1], entries, ttl, now), wanted[|wanted| - 1];
    if IsStale(entries, ttl, now, c) then init + [c] else init
  }

  lemma {:induction false} StaleMembers(wanted: seq<string>, entries: map<string, Entry>, ttl: int, now: int)
    ensures forall c :: c in Stale(wanted, entries, ttl, now) <==> c in wanted && IsStale(entries, ttl, now, c)
  {
    if wanted != [] {
      var n := |wanted| - 1;
      StaleMembers(wanted[..n], entries, ttl, now);
      assert wanted == wanted[..n] + [wanted[n]];
    }
  }

  /** The caller asked for this colour, in whatever case. */
  predicate Asked(colors: seq<string>, c: string) { exists i :: 0 <= i < |colors| && Lower(colors[i]) == c }

  predicate NoDuplicates(cs: seq<string>) { forall i, j :: 0 <= i < j < |cs| ==> cs[i] != cs[j] }

  lemma {:induction false} WantedExactly(colors: seq<string>)
    ensures NoDuplicates(Wanted(colors)) && forall c :: c in Wanted(colors) <==> Asked(colors, c)
  {
    if colors != [] {
      var n := |colors| - 1;
      WantedExactly(colors[..n]);
      forall c ensures Asked(colors, c) <==> Asked(colors[..n], c) || c == Lower(colors[n]) {
        if i :| 0 <= i < |colors| && Lower(colors[i]) == c { assert i == n || Lower(colors[..n][i]) == c; }
        if i :| 0 <= i < n && Lower(colors[..n][i]) == c { assert Lower(colors[i]) == c; }
      }
    }
  }

  lemma {:induction false} StaleKeepsApart(wanted: seq<string>, entries: map<string, Entry>, ttl: int, now: int)
    requires NoDuplicates(wanted)
    ensures NoDuplicates(Stale(wanted, entries, ttl, now))
  {
    if wanted != [] {
      var n := |wanted| - 1;
      StaleKeepsApart(wanted[..n], entries, ttl, now);
      StaleMembers(wanted[..n], entries, ttl, now);
      assert forall i :: 0 <= i < n ==> wanted[..n][i] == wanted[i];
    }
  }

  /** The node is asked for a colour exactly when the caller asked for it and there is no answer for it, or one older than
      the time to live; once for each; and after a failure for no more of them. */
  ghost predicate AsksFor(asked: seq<string>, colors: seq<string>, entries: map<string, Entry>, ttl: int, now: int, failed: bool) {
    && NoDuplicates(asked)
    && (forall c :: c in asked ==> Asked(colors, c) && (c in entries ==> now - entries[c].at > ttl))
    && (!failed ==> forall c :: Asked(colors, c) && (c in entries ==> now - entries[c].at > ttl) ==> c in asked)
  }

  lemma PagesAskFor(pages: seq<seq<string>>, colors: seq<string>, entries: map<string, Entry>, ttl: int, now: int, failed: bool)
    requires Paged(pages, Stale(Wanted(colors), entries, ttl, now), failed)
    ensures AsksFor(Flat(pages), colors, entries, ttl, now, failed)
  {
    var wanted := Wanted(colors);
    WantedExactly(colors);
    StaleMembers(wanted, entries, ttl, now);
    StaleKeepsApart(wanted, entries, ttl, now);
    var stale := Stale(wanted, entries, ttl, now);
    assert forall c :: c in Flat(pages) ==> c in stale;
  }

  /** Every colour the caller asked for is priced, unavailable, or known to have no price, and each in one way only. */
  ghost predicate Accounts(r: Result, colors: seq<string>, log: seq<Answer>, maxAge: int, now: int) {
    && r.prices.Keys !! (set c | c in r.unavailable) && NoDuplicates(r.unavailable)
    && (forall c :: c in r.prices || c in r.unavailable ==> Asked(colors, c))
    && (forall c :: Asked(colors, c) && c !in r.prices && c !in r.unavailable ==>
          LastWord(log, c).Some? && LastWord(log, c).value.row.None? && now - LastWord(log, c).value.at <= maxAge)
    && (forall c :: Asked(colors, c) && c in r.unavailable ==> LastWord(log, c).None? || now - LastWord(log, c).value.at > maxAge)
  }

  lemma AnswersAccount(r: Result, colors: seq<string>, log: seq<Answer>, maxAge: int, now: int)
    requires Answers(r, Wanted(colors), log, maxAge, now) && NoDuplicates(r.unavailable)
    ensures Accounts(r, colors, log, maxAge, now)
  {
    WantedExactly(colors);
  }

  /** The clock, which may step back, and the node's replies during one lookup: `at(0)` when it starts, `at(k + 1)` when
      request `k` has been answered or has failed, and later readings after that. */
  datatype World = World(at: nat -> int, replies: nat -> Reply)

  datatype Result = Result(prices: map<string, Row>, unavailable: seq<string>, discount: real, requested: bool)

  /** Young enough to serve. */
  predicate Servable(e: Option<Entry>, maxAge: int, now: int) { e.Some? && now - e.value.at <= maxAge }

  ghost predicate Answers(r: Result, wanted: seq<string>, log: seq<Answer>, maxAge: int, now: int) {
    && (forall c :: c in r.unavailable <==> c in wanted && !Servable(LastWord(log, c), maxAge, now))
    && (forall c :: c in r.prices <==> c in wanted && Servable(LastWord(log, c), maxAge, now) && LastWord(log, c).value.row.Some?)
    && (forall c :: c in r.prices ==> r.prices[c] == LastWord(log, c).value.row.value)
  }

  /** `pages` are requests for a leading part of `stale`, in order, each within the cap; only the last may have failed,
      and all of `stale` was asked for unless it did. */
  ghost predicate Paged(pages: seq<seq<string>>, stale: seq<string>, failed: bool) {
    && Flat(pages) <= stale && (!failed ==> Flat(pages) == stale) && (failed ==> pages != [])
    && forall k :: 0 <= k < |pages| ==> 0 < |pages[k]| <= 50
  }

  function Flat(pages: seq<seq<string>>): seq<string> {
    if pages == [] then [] else Flat(pages[..|pages| - 1]) + pages[|pages| - 1]
  }

  /** The log after the pages were asked: one answer for each page but a failed last one. */
  ghost predicate Logged(before: seq<Answer>, later: seq<Answer>, pages: seq<seq<string>>, failed: bool, w: World) {
    && |later| == |before| + |pages| - (if failed then 1 else 0) && before <= later
    && (failed ==> pages != [] && w.replies(|pages| - 1).Failure?)
    && forall n: nat :: n < |later| - |before| ==> Recorded(later[|before| + n], pages[n], n, w)
  }

  /** `a` is the node's answer to request `n`. */
  ghost predicate Recorded(a: Answer, page: seq<string>, n: nat, w: World) {
    w.replies(n).Success? && a == Answer(page, w.replies(n).rows, w.replies(n).discount, w.at(n + 1))
  }

  lemma LoggedSnoc(before: seq<Answer>, later: seq<Answer>, pages: seq<seq<string>>, w: World, page: seq<string>)
    requires Logged(before, later, pages, false, w)
    ensures w.replies(|pages|).Failure? ==> Logged(before, later, pages + [page], true, w)
    ensures w.replies(|pages|).Success? ==>
              var r := w.replies(|pages|);
              Logged(before, later + [Answer(page, r.rows, r.discount, w.at(|pages| + 1))], pages + [page], false, w)
  {
    assert forall n: nat :: n < |pages| ==> (pages + [page])[n] == pages[n];
  }

  class PriceLookup {
    const ttl: int
    const maxAge: int
    const fallback: real
    var entries: map<string, Entry>
    var sponsorDiscount: Option<real>
    var lastOkAt: Option<int>
    var requests: nat
    ghost var log: seq<Answer>

    ghost predicate Valid()
      reads this
    {
      && (forall c :: (c in entries <==> LastWord(log, c).Some?) && (c in entries ==> LastWord(log, c) == Some(entries[c])))
      && sponsorDiscount == (if log == [] then None else Some(log[|log| - 1].discount))
      && lastOkAt == (if log == [] then None else Some(log[|log| - 1].at))
    }

    constructor (ttl: int, maxAge: int, fallback: real)
      ensures Valid() && log == [] && requests == 0
      ensures this.ttl == ttl && this.maxAge == maxAge && this.fallback == fallback
    {
      this.ttl, this.maxAge, this.fallback := ttl, maxAge, fallback;
      entries, sponsorDiscount, lastOkAt, requests, log := map[], None, None, 0, [];
    }

    function Discount(): real
      reads this
    {
      if sponsorDiscount.Some? then sponsorDiscount.value else fallback
    }

    /** One request. A failure changes nothing that is cached. */
    method FetchColors(page: seq<string>, reply: Reply, at: int) returns (ok: bool)
      requires Valid()
      modifies this
      ensures Valid() && ok == reply.Success? && requests == old(requests) + 1
      ensures !ok ==> entries == old(entries) && log == old(log)
      ensures ok ==> log == old(log) + [Answer(page, reply.rows, reply.discount, at)]
    {
      requests := requests + 1;
      if reply.Failure? {
        return false;
      }
      ghost var a := Answer(page, reply.rows, reply.discount, at);
      for i := 0 to |page|
        invariant requests == old(requests) + 1 && log == old(log)
        invariant sponsorDiscount == old(sponsorDiscount) && lastOkAt == old(lastOkAt)
        invariant forall c :: c in page[..i] ==> c in entries && LastWord(log + [a], c) == Some(entries[c])
        invariant forall c :: c !in page[..i] ==>
                    (c in entries <==> c in old(entries)) && (c in entries ==> entries[c] == old(entries)[c])
      {
        assert page[..i + 1] == page[..i] + [page[i]];
        entries := entries[page[i] := Entry(if page[i] in reply.rows then Some(reply.rows[page[i]]) else None, at)];
      }
      assert page[..|page|] == page;
      sponsorDiscount, lastOkAt := Some(reply.discount), Some(at);
      log := log + [a];
      return true;
    }

    method AskPages(stale: seq<string>, w: World) returns (ghost pages: seq<seq<string>>, failed: bool)
      requires Valid()
      modifies this
      ensures Valid() && Paged(pages, stale, failed) && Logged(old(log), log, pages, failed, w)
      ensures requests == old(requests) + |pages|
    {
      pages, failed := [], false;
      var i, asked := 0, 0;
      while i < |stale|
        invariant 0 <= i <= |stale| && Valid() && asked == |pages| && requests == old(requests) + |pages|
        invariant Flat(pages) == stale[..i] && Logged(old(log), log, pages, false, w)
        invariant forall k :: 0 <= k < |pages| ==> 0 < |pages[k]| <= MAX_TOKENS_PER_REQUEST
        decreases |stale| - i
      {
        var next := Min(i + MAX_TOKENS_PER_REQUEST, |stale|);
        var page := stale[i..next];
        FlatSnoc(pages, page);
        LoggedSnoc(old(log), log, pages, w, page);
        assert stale[..i] + page == stale[..next];
        var ok := FetchColors(page, w.replies(asked), w.at(asked + 1));
        pages, asked := pages + [page], asked + 1;
        if !ok {
          return pages, true;
        }
        i := next;
      }
      assert stale[..|stale|] == stale;
    }

    /** Serve the colours, asking the node only for those that are missing or past their time to live. */
    method Lookup(colors: seq<string>, w: World) returns (r: Result, ghost pages: seq<seq<string>>, ghost failed: bool)
      requires Valid()
      modifies this
      ensures Valid()
      ensures Paged(pages, Stale(Wanted(colors), old(entries), ttl, w.at(0)), failed)
      ensures Logged(old(log), log, pages, failed, w)
      ensures Answers(r, Wanted(colors), log, maxAge, w.at(|pages| + 1))
      ensures Accounts(r, colors, log, maxAge, w.at(|pages| + 1))
      ensures AsksFor(Flat(pages), colors, old(entries), ttl, w.at(0), failed)
      ensures r.discount == LastDiscount(log, fallback)
      ensures r.requested <==> pages != []
    {
      var wanted := Wanted(colors);
      var stale := Stale(wanted, entries, ttl, w.at(0));
      var before := requests;
      var f: bool;
      pages, f := AskPages(stale, w);
      failed := f;
      WantedExactly(colors);
      PagesAskFor(pages, colors, old(entries), ttl, w.at(0), failed);
      r := Serve(wanted, w.at(requests - before + 1), stale != []);
      AnswersAccount(r, colors, log, maxAge, w.at(|pages| + 1));
    }

    method Serve(wanted: seq<string>, after: int, requested: bool) returns (r: Result)
      requires Valid() && NoDuplicates(wanted)
      ensures NoDuplicates(r.unavailable)
      ensures Answers(r, wanted, log, maxAge, after) && r.discount == LastDiscount(log, fallback) && r.requested == requested
    {
      var prices: map<string, Row> := map[];
      var unavailable: seq<string> := [];
      for i := 0 to |wanted|
        invariant Answers(Result(prices, unavailable, 0.0, false), wanted[..i], log, maxAge, after)
        invariant NoDuplicates(unavailable)
      {
        var c := wanted[i];
        assert wanted[..i + 1] == wanted[..i] + [c];
        if c !in entries || after - entries[c].at > maxAge {
          unavailable := unavailable + [c];
        } else if entries[c].row.Some? {
          prices := prices[c := entries[c].row.value];
        }
      }
      assert wanted[..|wanted|] == wanted;
      return Result(prices, unavailable, Discount(), requested);
    }
  }

  lemma FlatSnoc(pages: seq<seq<string>>, page: seq<string>)
    ensures Flat(pages + [page]) == Flat(pages) + page
  {
    assert (pages + [page])[..|pages|] == pages;
  }

  // ---- What follows for the colours ----

  /** A colour still within its time to live is not asked for again. */
  lemma FreshNotAsked(pages: seq<seq<string>>, wanted: seq<string>, entries: map<string, Entry>, ttl: int, now: int, failed: bool, c: string)
    requires Paged(pages, Stale(wanted, entries, ttl, now), failed) && !IsStale(entries, ttl, now, c)
    ensures c !in Flat(pages)
  {
    StaleMembers(wanted, entries, ttl, now);
  }

  /** A lookup leaves the last word on every colour it did not get an answer for as it was, so a failing node only
      ages what is cached. */
  lemma {:induction false} UnansweredKeepsLastWord(before: seq<Answer>, later: seq<Answer>, c: string)
    requires before <= later && forall k :: |before| <= k < |later| ==> c !in later[k].colors
    ensures LastWord(later, c) == LastWord(before, c)
    decreases |later|
  {
    if |later| > |before| {
      UnansweredKeepsLastWord(before, later[..|later| - 1], c);
    } else {
      assert later == before;
    }
  }
}
