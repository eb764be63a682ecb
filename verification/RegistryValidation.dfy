/** Accepting a registry document: exactly the canonical tokens, each with one active deployment, and no two with
    the same colour. */
module RegistryValidation {
  import opened Prelude
  import opened TokenRegistry

  datatype Definition = Definition(symbol: string, name: string, registryName: string, kind: string, decimals: int,
                                   domainSeparator: string, humanAmount: string, baseUnits: string, asset: string)

  const CANONICAL: seq<Definition> := [
    Definition("twBTC", "TWBTC", "Test-wrapped BTC", "shielded", 8, "mint-test-tokens:twBTC", "1", "100000000", "bitcoin"),
    Definition("twETH", "TWETH", "Test-wrapped ETH", "shielded", 18, "mint-test-tokens:twETH", "5", "5000000000000000000", "ethereum"),
    Definition("twUSDC", "TWUSDC", "Test-wrapped USDC", "shielded", 6, "mint-test-tokens:twUSDC", "10000", "10000000000", "usd-coin"),
    Definition("twUSDM", "TWUSDM", "Test-wrapped USDM", "shielded", 6, "mint-test-tokens:twUSDM", "10000", "10000000000", "usdm-2"),
    Definition("utwUSDC", "UTWUSDC", "Unshielded-test-wrapped USDC", "unshielded", 6, "mint-test-tokens:utwUSDC", "10000", "10000000000", "usd-coin"),
    Definition("utwBTC", "UTWBTC", "Unshielded-test-wrapped BTC", "unshielded", 8, "mint-test-tokens:utwBTC", "1", "100000000", "bitcoin")]

  datatype Net = Net(key: string, networkId: string, protocolFamily: string, chainId: string, stackIdentity: string)

  /** `sound` stands for the shape of the fields this model does not look at. */
  datatype Deployment = Deployment(id: string, active: bool, tokenId: string, net: Net, profile: string, sound: bool)

  datatype RawToken = RawToken(symbol: string, name: string, decimals: int, privacy: string, domainSeparator: string,
                               humanAmount: string, baseUnits: string, activeId: string, deployments: seq<Deployment>)

  datatype Document = Document(schemaVersion: string, status: string, revision: string, net: Net, profile: string,
                               sound: bool, tokens: seq<RawToken>)

  /** The head of a document that is ready to be imported on this network. */
  predicate Headed(doc: Document, network: string) {
    && doc.schemaVersion == "1.0.0" && doc.status == "ready" && doc.revision != "" && doc.sound
    && doc.net.key == network && doc.net.networkId == network && doc.net.chainId != "" && doc.net.stackIdentity != ""
    && doc.net.protocolFamily == (if network == "stagenet" then "midnight-2.x" else "midnight-1.x")
    && doc.profile == (if network == "stagenet" then "v2" else "v1")
  }

  /** Thirty-two bytes in hex, in either case. */
  predicate IsHex32(s: string) {
    |s| == 64 && forall i :: 0 <= i < |s| ==> '0' <= s[i] <= '9' || 'a' <= s[i] <= 'f' || 'A' <= s[i] <= 'F'
  }

  /** The spellings a token id may have: those whose lower-case form is a colour. */
  lemma HexExactly(s: string)
    ensures IsHex32(s) <==> IsColor(Lower(s))
    ensures IsHex32(s) <==> |s| == 64 && forall i :: 0 <= i < |s| ==> s[i] in "0123456789abcdefABCDEF"
  {
    forall i | 0 <= i < |s| ensures s[i] in "0123456789abcdefABCDEF" <==> IsHexDigit(s[i]) || 'A' <= s[i] <= 'F' {
      HexDigits(s[i]);
    }
  }

  lemma HexDigits(c: char)
    ensures c in "0123456789abcdefABCDEF" <==> '0' <= c <= '9' || 'a' <= c <= 'f' || 'A' <= c <= 'F'
  {}

  predicate Agrees(t: RawToken, d: Definition) {
    && t.name == d.registryName && t.decimals == d.decimals && t.privacy == d.kind && t.domainSeparator == d.domainSeparator
    && t.humanAmount == d.humanAmount && t.baseUnits == d.baseUnits && t.activeId != ""
  }

  predicate DeploymentsSound(t: RawToken) {
    && (forall i :: 0 <= i < |t.deployments| ==> t.deployments[i].sound && IsHex32(t.deployments[i].tokenId))
    && (forall i, j :: 0 <= i < j < |t.deployments| ==> t.deployments[i].id != t.deployments[j].id)
  }

  /** Position `k` is the only active deployment, the one the token names, and on the document's own network. */
  predicate SelectedAt(doc: Document, t: RawToken, k: nat) {
    && k < |t.deployments| && t.deployments[k].active && t.deployments[k].id == t.activeId
    && t.deployments[k].net == doc.net && t.deployments[k].profile == doc.profile
    && forall i :: 0 <= i < |t.deployments| && t.deployments[i].active ==> i == k
  }

  /** The token may be imported as `d`, with colour `color`. */
  ghost predicate Usable(doc: Document, t: RawToken, d: Definition, color: string) {
    && t.symbol == d.symbol && Agrees(t, d) && DeploymentsSound(t)
    && exists k: nat :: SelectedAt(doc, t, k) && color == Lower(t.deployments[k].tokenId)
  }

  predicate SymbolsDistinct(doc: Document) {
    forall i, j :: 0 <= i < j < |doc.tokens| ==> doc.tokens[i].symbol != doc.tokens[j].symbol
  }

  function TokenOf(d: Definition, color: string): Token { Token(d.name, d.kind, d.decimals, d.asset, color) }

  /** `tokens` is what the document says of the canonical tokens, in their order. */
  ghost predicate Reads(doc: Document, tokens: seq<Token>) {
    && |tokens| == |CANONICAL|
    && forall i :: 0 <= i < |tokens| ==>
         && tokens[i] == TokenOf(CANONICAL[i], tokens[i].color)
         && HasColor(doc, i, tokens[i].color)
  }

  function ColorsOf(tokens: seq<Token>): set<string> { set k | 0 <= k < |tokens| :: tokens[k].color }

  lemma ColorsOfSnoc(tokens: seq<Token>, t: Token)
    ensures ColorsOf(tokens + [t]) == ColorsOf(tokens) + {t.color}
  {
    var all := tokens + [t];
    assert all[|tokens|] == t;
    forall c | c in ColorsOf(tokens) ensures c in ColorsOf(all) {
      var k :| 0 <= k < |tokens| && tokens[k].color == c;
      assert all[k].color == c;
    }
  }

  predicate TokenColorsDistinct(tokens: seq<Token>) {
    forall i, j :: 0 <= i < j < |tokens| ==> tokens[i].color != tokens[j].color
  }

  /** A reading without two equal colours. */
  ghost predicate Consistent(doc: Document, tokens: seq<Token>) { Reads(doc, tokens) && TokenColorsDistinct(tokens) }

  ghost predicate Complete(doc: Document, network: string, tokens: seq<Token>) {
    Headed(doc, network) && |doc.tokens| == |CANONICAL| && SymbolsDistinct(doc) && Consistent(doc, tokens)
  }

  ghost predicate HasColor(doc: Document, i: nat, color: string)
    requires i < |CANONICAL|
  {
    exists j :: 0 <= j < |doc.tokens| && Usable(doc, doc.tokens[j], CANONICAL[i], color)
  }

  lemma ColorOnce(doc: Document, i: nat, x: string, y: string)
    requires SymbolsDistinct(doc) && i < |CANONICAL| && HasColor(doc, i, x) && HasColor(doc, i, y)
    ensures x == y
  {
    var j :| 0 <= j < |doc.tokens| && Usable(doc, doc.tokens[j], CANONICAL[i], x);
    var k :| 0 <= k < |doc.tokens| && Usable(doc, doc.tokens[k], CANONICAL[i], y);
    assert j == k;
  }

  /** Two canonical tokens with one colour leave no consistent reading. */
  lemma ColorsApart(doc: Document, h: nat, i: nat, color: string)
    requires SymbolsDistinct(doc) && h < i < |CANONICAL| && HasColor(doc, h, color) && HasColor(doc, i, color)
    ensures forall tokens :: !Consistent(doc, tokens)
  {
    forall tokens: seq<Token> ensures !Consistent(doc, tokens) {
      if Consistent(doc, tokens) {
        ColorOnce(doc, h, color, tokens[h].color);
        ColorOnce(doc, i, color, tokens[i].color);
      }
    }
  }

  /** Nor does a canonical token that has no colour. */
  lemma NoneWithout(doc: Document, i: nat)
    requires i < |CANONICAL| && forall color :: !HasColor(doc, i, color)
    ensures forall tokens :: !Consistent(doc, tokens)
  {
    forall tokens: seq<Token> ensures !Consistent(doc, tokens) {
      if Reads(doc, tokens) { ColorRead(doc, tokens, i); }
    }
  }

  lemma ColorRead(doc: Document, tokens: seq<Token>, i: nat)
    requires Reads(doc, tokens) && i < |CANONICAL|
    ensures HasColor(doc, i, tokens[i].color)
  {}

  /** Two readings of one document agree. */
  lemma ReadsOnce(doc: Document, a: seq<Token>, b: seq<Token>)
    requires SymbolsDistinct(doc) && Reads(doc, a) && Reads(doc, b)
    ensures a == b
  {
    forall i | 0 <= i < |a| ensures a[i] == b[i] {
      ColorOnce(doc, i, a[i].color, b[i].color);
    }
  }

  /** What the document must say of one canonical token, word for word. */
  ghost predicate Declares(doc: Document, symbol: string, name: string, decimals: int, privacy: string, amount: string, units: string) {
    exists j :: 0 <= j < |doc.tokens| && DeclaresAt(doc.tokens[j], symbol, name, decimals, privacy, amount, units)
  }

  predicate DeclaresAt(t: RawToken, symbol: string, name: string, decimals: int, privacy: string, amount: string, units: string) {
    && t.symbol == symbol && t.name == name && t.decimals == decimals && t.privacy == privacy
    && t.domainSeparator == "mint-test-tokens:" + symbol && t.humanAmount == amount && t.baseUnits == units && t.activeId != ""
  }

  /** A document that is accepted is for this network, with the protocol and the profile that go with it, and declares
      exactly the six tokens with these fields; one that differs in any of them is refused. */
  lemma AcceptedDeclares(doc: Document, network: string, tokens: seq<Token>)
    requires Complete(doc, network, tokens)
    ensures |doc.tokens| == 6 && |tokens| == 6 && doc.schemaVersion == "1.0.0" && doc.status == "ready"
    ensures doc.net.key == network && doc.net.networkId == network && doc.sound
    ensures doc.revision != "" && doc.net.chainId != "" && doc.net.stackIdentity != ""
    ensures if network == "stagenet" then doc.net.protocolFamily == "midnight-2.x" && doc.profile == "v2"
            else doc.net.protocolFamily == "midnight-1.x" && doc.profile == "v1"
    ensures Declares(doc, "twBTC", "Test-wrapped BTC", 8, "shielded", "1", "100000000")
    ensures Declares(doc, "twETH", "Test-wrapped ETH", 18, "shielded", "5", "5000000000000000000")
    ensures Declares(doc, "twUSDC", "Test-wrapped USDC", 6, "shielded", "10000", "10000000000")
    ensures Declares(doc, "twUSDM", "Test-wrapped USDM", 6, "shielded", "10000", "10000000000")
    ensures Declares(doc, "utwUSDC", "Unshielded-test-wrapped USDC", 6, "unshielded", "10000", "10000000000")
    ensures Declares(doc, "utwBTC", "Unshielded-test-wrapped BTC", 8, "unshielded", "1", "100000000")
  {
    DeclaredAt(doc, tokens, 0);
    DeclaredAt(doc, tokens, 1);
    DeclaredAt(doc, tokens, 2);
    DeclaredAt(doc, tokens, 3);
    DeclaredAt(doc, tokens, 4);
    DeclaredAt(doc, tokens, 5);
  }

  /** Every recorded deployment is sound under its own id, and exactly one is active: the one named, whose token id in lower
      case is the colour. */
  ghost predicate Deployed(t: RawToken, color: string) {
    && (forall i :: 0 <= i < |t.deployments| ==> t.deployments[i].sound && IsTokenId(t.deployments[i].tokenId))
    && (forall i, j :: 0 <= i < |t.deployments| && 0 <= j < |t.deployments| && t.deployments[i].id == t.deployments[j].id ==> i == j)
    && exists k :: && 0 <= k < |t.deployments| && t.deployments[k].id == t.activeId && Lower(t.deployments[k].tokenId) == color
                   && forall i :: 0 <= i < |t.deployments| ==> (t.deployments[i].active <==> i == k)
  }

  predicate IsTokenId(s: string) { |s| == 64 && forall i :: 0 <= i < |s| ==> s[i] in "0123456789abcdefABCDEF" }

  lemma AcceptedDeploys(doc: Document, network: string, tokens: seq<Token>, i: nat)
    requires Complete(doc, network, tokens) && i < 6
    ensures exists j :: 0 <= j < |doc.tokens| && doc.tokens[j].symbol == CANONICAL[i].symbol && Deployed(doc.tokens[j], tokens[i].color)
  {
    ColorRead(doc, tokens, i);
    var j :| 0 <= j < |doc.tokens| && Usable(doc, doc.tokens[j], CANONICAL[i], tokens[i].color);
    var t := doc.tokens[j];
    forall k | 0 <= k < |t.deployments| ensures IsTokenId(t.deployments[k].tokenId) { HexExactly(t.deployments[k].tokenId); }
    assert Deployed(t, tokens[i].color);
  }

  lemma DeclaredAt(doc: Document, tokens: seq<Token>, i: nat)
    requires Reads(doc, tokens) && i < 6
    ensures
      var d := CANONICAL[i];
      Declares(doc, d.symbol, d.registryName, d.decimals, d.kind, d.humanAmount, d.baseUnits)
  {
    var d := CANONICAL[i];
    ColorRead(doc, tokens, i);
    var j :| 0 <= j < |doc.tokens| && Usable(doc, doc.tokens[j], d, tokens[i].color);
    Separator(i);
    assert DeclaresAt(doc.tokens[j], d.symbol, d.registryName, d.decimals, d.kind, d.humanAmount, d.baseUnits);
  }

  lemma Separator(i: nat)
    requires i < 6
    ensures CANONICAL[i].domainSeparator == "mint-test-tokens:" + CANONICAL[i].symbol
  {}

  /** What is imported: the database names, kinds, decimals and assets, in this order, with the document's colours. */
  lemma ReadsAs(doc: Document, tokens: seq<Token>)
    requires Reads(doc, tokens)
    ensures
      && |tokens| == 6
      && tokens[0] == Token("TWBTC", "shielded", 8, "bitcoin", tokens[0].color)
      && tokens[1] == Token("TWETH", "shielded", 18, "ethereum", tokens[1].color)
      && tokens[2] == Token("TWUSDC", "shielded", 6, "usd-coin", tokens[2].color)
      && tokens[3] == Token("TWUSDM", "shielded", 6, "usdm-2", tokens[3].color)
      && tokens[4] == Token("UTWUSDC", "unshielded", 6, "usd-coin", tokens[4].color)
      && tokens[5] == Token("UTWBTC", "unshielded", 8, "bitcoin", tokens[5].color)
  {}

  /** Every colour that is imported was deployed on the expected network, by the profile that network runs. */
  lemma ColorsAreLocal(doc: Document, network: string, tokens: seq<Token>, i: nat)
    requires Complete(doc, network, tokens) && i < |tokens|
    ensures exists j, k :: 0 <= j < |doc.tokens| && 0 <= k < |doc.tokens[j].deployments| && DeployedOn(doc.tokens[j].deployments[k], network, tokens[i].color)
  {
    assert HasColor(doc, i, tokens[i].color);
    var j :| 0 <= j < |doc.tokens| && Usable(doc, doc.tokens[j], CANONICAL[i], tokens[i].color);
    var k: nat :| SelectedAt(doc, doc.tokens[j], k) && tokens[i].color == Lower(doc.tokens[j].deployments[k].tokenId);
    assert DeployedOn(doc.tokens[j].deployments[k], network, tokens[i].color);
  }

  predicate DeployedOn(d: Deployment, network: string, color: string) {
    && d.active && Lower(d.tokenId) == color && d.net.key == network && d.net.networkId == network
    && d.profile == (if network == "stagenet" then "v2" else "v1")
  }

  // ---- A document that is accepted on every network ----

  function Colour(c: char): string { seq(64, _ => c) }

  function GenuineToken(d: Definition, c: char, net: Net, profile: string): RawToken {
    RawToken(d.symbol, d.registryName, d.decimals, d.kind, d.domainSeparator, d.humanAmount, d.baseUnits, "one",
             [Deployment("one", true, Colour(c), net, profile, true)])
  }

  function Genuine(network: string): Document {
    var net := Net(network, network, if network == "stagenet" then "midnight-2.x" else "midnight-1.x", "chain", "stack");
    var profile := if network == "stagenet" then "v2" else "v1";
    Document("1.0.0", "ready", "first", net, profile, true,
             seq(6, i requires 0 <= i < 6 => GenuineToken(CANONICAL[i], "aBcDeF"[i], net, profile)))
  }

  /** Six tokens with one active deployment each, with their own colours, are a complete document. */
  lemma GenuineIsAccepted(network: string)
    ensures Complete(Genuine(network), network, GenuineTokens())
  {
    GenuineSymbols(network);
    GenuineColors();
    GenuineReads(network);
  }

  function GenuineTokens(): seq<Token> { seq(6, i requires 0 <= i < 6 => TokenOf(CANONICAL[i], Colour("abcdef"[i]))) }

  lemma GenuineSymbols(network: string)
    ensures SymbolsDistinct(Genuine(network))
  {
    forall i, j | 0 <= i < j < 6 ensures Genuine(network).tokens[i].symbol != Genuine(network).tokens[j].symbol {
      assert CANONICAL[i].symbol != CANONICAL[j].symbol;
    }
  }

  lemma GenuineColors()
    ensures TokenColorsDistinct(GenuineTokens())
  {
    forall i, j | 0 <= i < j < 6 ensures GenuineTokens()[i].color != GenuineTokens()[j].color {
      assert GenuineTokens()[i].color[0] != GenuineTokens()[j].color[0];
    }
  }

  lemma GenuineReads(network: string)
    ensures Reads(Genuine(network), GenuineTokens())
  {
    forall i: nat | i < 6 ensures HasColor(Genuine(network), i, GenuineTokens()[i].color) {
      GenuineIsUsable(network, i);
    }
  }

  lemma GenuineIsUsable(network: string, i: nat)
    requires i < 6
    ensures Usable(Genuine(network), Genuine(network).tokens[i], CANONICAL[i], Colour("abcdef"[i]))
  {
    var doc := Genuine(network);
    var t := doc.tokens[i];
    assert Lower(Colour("aBcDeF"[i])) == Colour("abcdef"[i]);
    assert SelectedAt(doc, t, 0);
  }

  lemma CanonicalNames()
    ensures forall i :: 0 <= i < |CANONICAL| ==> ':' !in CANONICAL[i].name
    ensures forall i, j :: 0 <= i < j < |CANONICAL| ==> CANONICAL[i].name != CANONICAL[j].name
  {
    assert CANONICAL[0].name == "TWBTC" && CANONICAL[1].name == "TWETH" && CANONICAL[2].name == "TWUSDC";
    assert CANONICAL[3].name == "TWUSDM" && CANONICAL[4].name == "UTWUSDC" && CANONICAL[5].name == "UTWBTC";
    assert "TWBTC"[2] == 'B' && "TWETH"[2] == 'E' && "TWUSDC"[5] == 'C' && "TWUSDM"[5] == 'M';
    assert |"UTWUSDC"| == 7 && "UTWBTC"[0] == 'U' && "TWUSDC"[0] == 'T' && "TWUSDM"[0] == 'T';
  }

  method SelectActive(doc: Document, t: RawToken) returns (color: Option<string>)
    requires DeploymentsSound(t)
    ensures color.Some? ==> exists k: nat :: SelectedAt(doc, t, k) && color.value == Lower(t.deployments[k].tokenId)
    ensures color.None? ==> forall k: nat :: !SelectedAt(doc, t, k)
  {
    var active: seq<nat> := [];
    for i := 0 to |t.deployments|
      invariant forall k :: 0 <= k < |active| ==> active[k] < i && t.deployments[active[k]].active
      invariant forall k :: 0 <= k < i && t.deployments[k].active ==> k in active
      invariant forall j, k :: 0 <= j < k < |active| ==> active[j] < active[k]
    {
      if t.deployments[i].active {
        active := active + [i];
      }
    }
    if |active| != 1 {
      if |active| > 1 { assert active[0] != active[1]; }
      return None;
    }
    var selected := t.deployments[active[0]];
    assert forall k :: 0 <= k < |t.deployments| && t.deployments[k].active ==> k == active[0];
    if selected.id != t.activeId || selected.net != doc.net || selected.profile != doc.profile {
      return None;
    }
    assert SelectedAt(doc, t, active[0]);
    return Some(Lower(selected.tokenId));
  }

  ghost predicate ReadAs(doc: Document, i: nat, token: Token)
    requires i < |CANONICAL|
  {
    token == TokenOf(CANONICAL[i], token.color) && IsColor(token.color) && HasColor(doc, i, token.color)
  }

  method ReadToken(doc: Document, t: RawToken, d: Definition) returns (token: Option<Token>)
    requires t.symbol == d.symbol
    ensures token.Some? ==> Usable(doc, t, d, token.value.color) && token.value == TokenOf(d, token.value.color)
    ensures token.None? ==> forall color :: !Usable(doc, t, d, color)
  {
    if !Agrees(t, d) || !DeploymentsSound(t) { return None; }
    var color := SelectActive(doc, t);
    return match color case None => None case Some(c) => Some(TokenOf(d, c));
  }

  /** The document is accepted exactly when it is complete; the result is its reading, ready to be imported. */
  method ValidateCanonicalRegistry(doc: Document, network: string) returns (r: Option<Registry>)
    ensures r.Some? ==> Complete(doc, network, r.value.tokens) && WellFormed(r.value) && r.value.network == network && r.value.revision == doc.revision
    ensures r.None? ==> forall tokens :: !Complete(doc, network, tokens)
  {
    if !Headed(doc, network) || |doc.tokens| != |CANONICAL| { return None; }
    var bySymbol := IndexBySymbol(doc);
    if bySymbol.None? { return None; }
    var tokens := ReadTokens(doc, bySymbol.value);
    if tokens.None? { return None; }
    CanonicalNames();
    return Some(Registry(network, doc.revision, tokens.value));
  }

  predicate Indexes(doc: Document, bySymbol: map<string, nat>, count: nat)
    requires count <= |doc.tokens|
  {
    && (forall s :: s in bySymbol ==> bySymbol[s] < count && doc.tokens[bySymbol[s]].symbol == s)
    && (forall k :: 0 <= k < count ==> doc.tokens[k].symbol in bySymbol && bySymbol[doc.tokens[k].symbol] == k)
  }

  method IndexBySymbol(doc: Document) returns (r: Option<map<string, nat>>)
    ensures r.Some? <==> SymbolsDistinct(doc)
    ensures r.Some? ==> Indexes(doc, r.value, |doc.tokens|)
  {
    var bySymbol: map<string, nat> := map[];
    for i := 0 to |doc.tokens|
      invariant Indexes(doc, bySymbol, i)
    {
      if doc.tokens[i].symbol in bySymbol { return None; }
      bySymbol := bySymbol[doc.tokens[i].symbol := i];
    }
    return Some(bySymbol);
  }

  method ReadOne(doc: Document, bySymbol: map<string, nat>, i: nat) returns (token: Option<Token>)
    requires SymbolsDistinct(doc) && Indexes(doc, bySymbol, |doc.tokens|) && i < |CANONICAL|
    ensures token.Some? ==> ReadAs(doc, i, token.value)
    ensures token.None? ==> forall color :: !HasColor(doc, i, color)
  {
    var d := CANONICAL[i];
    if d.symbol !in bySymbol {
      return None;
    }
    var k := bySymbol[d.symbol];
    token := ReadToken(doc, doc.tokens[k], d);
    assert token.Some? ==> HasColor(doc, i, token.value.color);
  }

  method ReadTokens(doc: Document, bySymbol: map<string, nat>) returns (r: Option<seq<Token>>)
    requires SymbolsDistinct(doc) && Indexes(doc, bySymbol, |doc.tokens|)
    ensures r.Some? ==> |r.value| == |CANONICAL| && TokenColorsDistinct(r.value) && forall i :: 0 <= i < |r.value| ==> ReadAs(doc, i, r.value[i])
    ensures r.None? ==> forall tokens :: !Consistent(doc, tokens)
  {
    var colors: set<string> := {};
    var tokens: seq<Token> := [];
    for i := 0 to |CANONICAL|
      invariant |tokens| == i && TokenColorsDistinct(tokens)
      invariant forall k :: 0 <= k < i ==> ReadAs(doc, k, tokens[k])
      invariant colors == ColorsOf(tokens)
    {
      var token := ReadOne(doc, bySymbol, i);
      if token.None? {
        NoneWithout(doc, i);
        return None;
      }
      var color := token.value.color;
      if color in colors {
        ghost var h :| 0 <= h < i && tokens[h].color == color;
        ColorsApart(doc, h, i, color);
        return None;
      }
      colors := colors + {color};
      ColorsOfSnoc(tokens, token.value);
      tokens := tokens + [token.value];
    }
    return Some(tokens);
  }
}
