/** Delivery of updates over an unreliable channel: a server that numbers the frames of each subscription, and a
    client that refuses the first frame that does not follow its predecessor. */
module UpdateStream {
  import opened Prelude
  import opened AppEvents
  import opened DecimalTokens

  const READY_SEQ := 0
  const MAX_FRAME_BYTES := 65_536
  const MAX_BUFFERED_BYTES := 1_048_576

  // ---- Frames ----

  datatype Frame =
    | Ready(stream: string, index: int, ts: int, height: Option<string>)
    | Update(stream: string, index: int, ts: int, event: AppEvent)

  /** What both ends accept as a frame. The shape of the stream id, of the envelope's keys and of the event
      payload is not modelled. */
  predicate Canonical(f: Frame) {
    && 0 <= f.ts <= MAX_SAFE_INTEGER
    && match f
       case Ready(_, index, _, height) => index == READY_SEQ && (height.Some? ==> IsPositiveU64Token(height.value))
       case Update(_, index, _, _) => READY_SEQ < index <= MAX_SAFE_INTEGER
  }

  // ---- One server subscription ----

  /** What the runtime does to one send: is the socket open, how large is the encoding, does the send throw, how
      much is buffered afterwards. */
  datatype Weather = Weather(open: bool, size: nat, throws: bool, buffered: nat)

  /** `attached` is the number of events the bus had published when the listener was attached. */
  datatype Sub = Sub(stream: string, index: nat, closed: bool, attached: Option<nat>, sent: seq<Frame>)

  function Opened(stream: string): Sub { Sub(stream, READY_SEQ, false, None, []) }

  function SendFrame(s: Sub, f: Frame, w: Weather): Sub {
    if s.closed || !w.open then s.(closed := true)
    else if !Canonical(f) || w.size > MAX_FRAME_BYTES || w.throws then s.(closed := true)
    else s.(sent := s.sent + [f], closed := w.buffered > MAX_BUFFERED_BYTES)
  }

  /** Attach the listener, then announce the subscription; no event can come between the two. */
  function Announce(s: Sub, busLength: nat, height: Option<string>, ts: int, w: Weather): Sub {
    if s.closed || !w.open then s.(closed := true)
    else SendFrame(s.(attached := Some(busLength)), Ready(s.stream, READY_SEQ, ts, height), w)
  }

  function OnAppEvent(s: Sub, e: AppEvent, ts: int, w: Weather): Sub {
    if s.closed || s.attached.None? then s
    else SendFrame(s.(index := s.index + 1), Update(s.stream, s.index + 1, ts, e), w)
  }

  // ---- One client subscription ----

  datatype Position = Position(stream: string, index: int)

  /** A received message: a text that decodes to a frame, or anything else. */
  datatype Message = Text(frame: Frame, size: nat) | Opaque

  datatype Client = Client(previous: Option<Position>, subscribed: bool, settled: bool, stopped: bool,
                           delivered: seq<AppEvent>, disconnects: nat)

  const Attempt := Client(None, false, false, false, [], 0)

  predicate Follows(previous: Position, next: Frame) {
    next.stream == previous.stream && next.index == previous.index + 1
  }

  /** The subscription is over; the consumer hears of it once, and only if it had been told it was subscribed. */
  function Finish(c: Client): Client {
    if c.settled then c
    else c.(settled := true, disconnects := if c.subscribed && !c.stopped then c.disconnects + 1 else c.disconnects)
  }

  function OnMessage(c: Client, m: Message, maxBytes: nat): Client {
    if c.settled || c.stopped then c
    else if m.Opaque? || m.size > maxBytes || !Canonical(m.frame) then Finish(c)
    else if c.previous.None? then
      if m.frame.Update? then Finish(c)
      else c.(previous := Some(Position(m.frame.stream, m.frame.index)), subscribed := true)
    else if m.frame.Ready? || !Follows(c.previous.value, m.frame) then Finish(c)
    else c.(previous := Some(Position(m.frame.stream, m.frame.index)), delivered := c.delivered + [m.frame.event])
  }

  // ---- The client alone: what it hands over, for any sequence of messages ----

  function OnMessages(c: Client, ms: seq<Message>, maxBytes: nat): Client {
    if ms == [] then c else OnMessage(OnMessages(c, ms[..|ms| - 1], maxBytes), ms[|ms| - 1], maxBytes)
  }

  /** The k-th message is the one that must come k-th on a stream that opened with `ms[0]`. */
  predicate InPlace(ms: seq<Message>, k: nat, maxBytes: nat)
    requires k < |ms|
  {
    && ms[k].Text? && ms[k].size <= maxBytes && Canonical(ms[k].frame)
    && (if k == 0 then ms[k].frame.Ready?
        else ms[0].Text? && ms[k].frame.Update? && ms[k].frame.stream == ms[0].frame.stream && ms[k].frame.index == k)
  }

  /** How many messages from the first on are each in place. */
  function Unbroken(ms: seq<Message>, maxBytes: nat): (k: nat)
    ensures k <= |ms|
    ensures forall i :: 0 <= i < k ==> InPlace(ms, i, maxBytes)
    ensures k < |ms| ==> !InPlace(ms, k, maxBytes)
  {
    UnbrokenFrom(ms, 0, maxBytes)
  }

  function UnbrokenFrom(ms: seq<Message>, from: nat, maxBytes: nat): (k: nat)
    requires from <= |ms|
    requires forall i :: 0 <= i < from ==> InPlace(ms, i, maxBytes)
    ensures from <= k <= |ms|
    ensures forall i :: 0 <= i < k ==> InPlace(ms, i, maxBytes)
    ensures k < |ms| ==> !InPlace(ms, k, maxBytes)
    decreases |ms| - from
  {
    if from < |ms| && InPlace(ms, from, maxBytes) then UnbrokenFrom(ms, from + 1, maxBytes) else from
  }

  function EventsOf(ms: seq<Message>, k: nat, maxBytes: nat): seq<AppEvent>
    requires k <= |ms| && forall i :: 0 <= i < k ==> InPlace(ms, i, maxBytes)
  {
    if k <= 1 then [] else
    assert InPlace(ms, k - 1, maxBytes);
    EventsOf(ms, k - 1, maxBytes) + [ms[k - 1].frame.event]
  }

  /** The consumer receives exactly the events of the longest unbroken opening of the stream. The first message out
      of place ends the subscription, is not delivered, and nothing is delivered after it; the consumer is then
      told exactly once, if it had been told of the subscription. */
  lemma {:induction false} DeliveredIsUnbrokenPrefix(ms: seq<Message>, maxBytes: nat)
    ensures
      var k := Unbroken(ms, maxBytes);
      var c := OnMessages(Attempt, ms, maxBytes);
      && c.delivered == EventsOf(ms, k, maxBytes)
      && c.settled == (k < |ms|) && !c.stopped && c.subscribed == (k > 0)
      && c.disconnects == (if 0 < k < |ms| then 1 else 0)
      && c.previous == (if k == 0 then None else Some(Position(ms[0].frame.stream, k - 1)))
  {
    if ms != [] {
      var n := |ms| - 1;
      DeliveredIsUnbrokenPrefix(ms[..n], maxBytes);
      var k := Unbroken(ms[..n], maxBytes);
      assert forall i :: 0 <= i < n ==> (InPlace(ms, i, maxBytes) <==> InPlace(ms[..n], i, maxBytes));
      var k' := Unbroken(ms, maxBytes);
      if k < n {
        assert k' == k by { assert !InPlace(ms, k, maxBytes); }
      } else {
        assert k' == if InPlace(ms, n, maxBytes) then n + 1 else n;
      }
      SameEvents(ms, n, k, maxBytes);
    }
  }

  lemma {:induction false} SameEvents(ms: seq<Message>, n: nat, k: nat, maxBytes: nat)
    requires k <= n <= |ms| && forall i :: 0 <= i < k ==> InPlace(ms, i, maxBytes)
    requires forall i :: 0 <= i < k ==> InPlace(ms[..n], i, maxBytes)
    ensures EventsOf(ms[..n], k, maxBytes) == EventsOf(ms, k, maxBytes)
  {
    if k > 1 { SameEvents(ms, n, k - 1, maxBytes); }
  }

  // ---- Bus, subscriptions, channel and clients together ----

  /** Subscriptions are never forgotten, so that a frame sent long ago can still arrive. */
  datatype System = System(bus: seq<AppEvent>, subs: map<nat, Sub>, clients: map<nat, Client>, capacity: nat, maxBytes: nat)

  datatype Action =
    | Publish(event: AppEvent, ts: int, weather: nat -> Weather)
    | Upgrade(conn: nat, stream: string)
    | Attach(conn: nat, height: Option<string>, ts: int, w: Weather)
    | End(conn: nat)
    | Shutdown
    | Dial(client: nat)
    | Receive(client: nat, message: Message)
    | HangUp(client: nat)
    | Stop(client: nat)

  function OpenConns(subs: map<nat, Sub>): set<nat> { set k | k in subs && !subs[k].closed }

  function Announced(subs: map<nat, Sub>, e: AppEvent, ts: int, weather: nat -> Weather): map<nat, Sub> {
    map k | k in subs :: OnAppEvent(subs[k], e, ts, weather(k))
  }

  function CloseAll(subs: map<nat, Sub>): map<nat, Sub> { map k | k in subs :: subs[k].(closed := true) }

  function Step(s: System, a: Action): System {
    match a
    case Publish(e, ts, weather) => s.(bus := s.bus + [e], subs := Announced(s.subs, e, ts, weather))
    case Upgrade(k, stream) => if |OpenConns(s.subs)| >= s.capacity then s else s.(subs := s.subs[k := Opened(stream)])
    case Attach(k, height, ts, w) =>
      if k in s.subs then s.(subs := s.subs[k := Announce(s.subs[k], |s.bus|, height, ts, w)]) else s
    case End(k) => if k in s.subs then s.(subs := s.subs[k := s.subs[k].(closed := true)]) else s
    case Shutdown => s.(subs := CloseAll(s.subs))
    case Dial(k) => s.(clients := s.clients[k := Attempt])
    case Receive(k, m) => if k in s.clients then s.(clients := s.clients[k := OnMessage(s.clients[k], m, s.maxBytes)]) else s
    case HangUp(k) => if k in s.clients then s.(clients := s.clients[k := Finish(s.clients[k])]) else s
    case Stop(k) => if k in s.clients then s.(clients := s.clients[k := s.clients[k].(stopped := true)]) else s
  }

  ghost predicate OnWire(s: System, f: Frame) { exists k :: k in s.subs && f in s.subs[k].sent }

  /** What the environment cannot do: reuse a connection or a stream id, start one connection twice, make up a
      frame no server sent. It may lose frames, repeat them, reorder them, carry them to another client, or hand
      over something that is no frame at all. */
  ghost predicate Enabled(s: System, a: Action) {
    match a
    case Upgrade(k, stream) => k !in s.subs && forall j :: j in s.subs ==> s.subs[j].stream != stream
    case Attach(k, _, _, _) => k in s.subs ==> s.subs[k].attached.None?
    case Dial(k) => k !in s.clients
    case Receive(_, m) => m.Text? ==> OnWire(s, m.frame)
    case _ => true
  }

  ghost function Run(s: System, actions: seq<Action>): System {
    if actions == [] then s else Step(Run(s, actions[..|actions| - 1]), actions[|actions| - 1])
  }

  ghost predicate RunEnabled(s: System, actions: seq<Action>) {
    actions == [] ||
    (RunEnabled(s, actions[..|actions| - 1]) && Enabled(Run(s, actions[..|actions| - 1]), actions[|actions| - 1]))
  }

  /** The frames a subscription sent are its announcement and then the bus's events from its attachment on, each
      carrying its number; while it is open none is missing. */
  ghost predicate SubOk(sub: Sub, bus: seq<AppEvent>) {
    match sub.attached
    case None => sub.sent == [] && sub.index == READY_SEQ
    case Some(a) =>
      && |sub.sent| <= sub.index + 1
      && a + sub.index <= |bus|
      && (!sub.closed ==> |sub.sent| == sub.index + 1 && a + sub.index == |bus|)
      && forall i :: 0 <= i < |sub.sent| ==> SentOk(sub.sent[i], sub.stream, i, a, bus)
  }

  ghost predicate SentOk(f: Frame, stream: string, i: nat, a: nat, bus: seq<AppEvent>) {
    f.stream == stream && f.index == i && Canonical(f) && if i == 0 then f.Ready? else a + i <= |bus| && f.Update? && f.event == bus[a + i - 1]
  }

  ghost predicate StreamsDistinct(subs: map<nat, Sub>) {
    forall j, k :: j in subs && k in subs && subs[j].stream == subs[k].stream ==> j == k
  }

  /** What the client has handed over is a stretch of the bus, starting where its stream's listener was attached. */
  ghost predicate ClientOk(c: Client, subs: map<nat, Sub>, bus: seq<AppEvent>) {
    match c.previous
    case None => c.delivered == [] && !c.subscribed
    case Some(p) => c.subscribed && exists k :: k in subs && Mirrors(c.delivered, p, subs[k], bus)
  }

  ghost predicate Mirrors(delivered: seq<AppEvent>, p: Position, sub: Sub, bus: seq<AppEvent>) {
    && sub.stream == p.stream && sub.attached.Some? && p.index >= 0
    && sub.attached.value + p.index <= |bus|
    && delivered == bus[sub.attached.value..sub.attached.value + p.index]
  }

  ghost predicate Inv(s: System) {
    && (forall k :: k in s.subs ==> SubOk(s.subs[k], s.bus))
    && StreamsDistinct(s.subs)
    && (forall k :: k in s.clients ==> ClientOk(s.clients[k], s.subs, s.bus))
    && |OpenConns(s.subs)| <= s.capacity
  }

  // ---- One subscription at a time ----

  lemma EventKeepsOk(sub: Sub, bus: seq<AppEvent>, e: AppEvent, ts: int, w: Weather)
    requires SubOk(sub, bus)
    ensures SubOk(OnAppEvent(sub, e, ts, w), bus + [e])
    ensures OnAppEvent(sub, e, ts, w).stream == sub.stream && OnAppEvent(sub, e, ts, w).attached == sub.attached
  {
    if sub.attached.Some? {
      forall i | 0 <= i < |sub.sent| ensures SentOk(sub.sent[i], sub.stream, i, sub.attached.value, bus + [e]) {
        assert SentOk(sub.sent[i], sub.stream, i, sub.attached.value, bus);
      }
      if !sub.closed {
      }
    }
  }

  // ---- Every action ----

  ghost predicate SubsKept(subs: map<nat, Sub>, later: map<nat, Sub>) {
    forall k :: k in subs ==>
      k in later && later[k].stream == subs[k].stream && (subs[k].attached.Some? ==> later[k].attached == subs[k].attached)
  }

  lemma ClientKept(c: Client, subs: map<nat, Sub>, bus: seq<AppEvent>, subs': map<nat, Sub>, bus': seq<AppEvent>)
    requires ClientOk(c, subs, bus) && SubsKept(subs, subs') && bus <= bus'
    ensures ClientOk(c, subs', bus')
  {
    if c.previous.Some? {
      var k :| k in subs && Mirrors(c.delivered, c.previous.value, subs[k], bus);
      assert Mirrors(c.delivered, c.previous.value, subs'[k], bus');
    }
  }

  lemma ReceiveKeepsOk(s: System, c: Client, m: Message)
    requires Inv(s) && ClientOk(c, s.subs, s.bus) && (m.Text? ==> OnWire(s, m.frame))
    ensures ClientOk(OnMessage(c, m, s.maxBytes), s.subs, s.bus)
  {
    var c' := OnMessage(c, m, s.maxBytes);
    if c'.previous != c.previous {
      var k :| k in s.subs && m.frame in s.subs[k].sent;
      if c.previous.None? {
        FirstFrame(s.subs[k], s.bus, m.frame);
      } else {
        var j :| j in s.subs && Mirrors(c.delivered, c.previous.value, s.subs[j], s.bus);
        NextFrame(s.subs[k], s.bus, c.delivered, c.previous.value, m.frame, s.subs[j]);
      }
      assert Mirrors(c'.delivered, c'.previous.value, s.subs[k], s.bus);
    }
  }

  lemma FirstFrame(sub: Sub, bus: seq<AppEvent>, f: Frame)
    requires SubOk(sub, bus) && f in sub.sent && f.Ready?
    ensures Mirrors([], Position(f.stream, f.index), sub, bus)
  {
    var i :| 0 <= i < |sub.sent| && sub.sent[i] == f;
    assert SentOk(f, sub.stream, i, sub.attached.value, bus);
  }

  lemma NextFrame(sub: Sub, bus: seq<AppEvent>, delivered: seq<AppEvent>, p: Position, f: Frame, earlier: Sub)
    requires SubOk(sub, bus) && f in sub.sent && f.Update? && Follows(p, f)
    requires Mirrors(delivered, p, earlier, bus) && (earlier.stream == sub.stream ==> earlier == sub)
    ensures Mirrors(delivered + [f.event], Position(f.stream, f.index), sub, bus)
  {
    var i :| 0 <= i < |sub.sent| && sub.sent[i] == f;
    assert SentOk(f, sub.stream, i, sub.attached.value, bus);
  }

  lemma SmallerIsWithin(a: set<nat>, b: set<nat>)
    requires a <= b
    ensures |a| <= |b|
  {
    if a != b {
      var x :| x in b && x !in a;
      SmallerIsWithin(a, b - {x});
    }
  }

  ghost predicate SubsFollow(subs: map<nat, Sub>, later: map<nat, Sub>, bus: seq<AppEvent>) {
    (forall k :: k in later ==> SubOk(later[k], bus)) && StreamsDistinct(later) && SubsKept(subs, later)
  }

  ghost predicate SubsOk(subs: map<nat, Sub>, bus: seq<AppEvent>) {
    (forall k :: k in subs ==> SubOk(subs[k], bus)) && StreamsDistinct(subs)
  }

  lemma PublishFollows(subs: map<nat, Sub>, bus: seq<AppEvent>, e: AppEvent, ts: int, weather: nat -> Weather)
    requires SubsOk(subs, bus)
    ensures SubsFollow(subs, Announced(subs, e, ts, weather), bus + [e])
  {
    forall k | k in subs
      ensures
        var sub' := OnAppEvent(subs[k], e, ts, weather(k));
        SubOk(sub', bus + [e]) && sub'.stream == subs[k].stream && sub'.attached == subs[k].attached
    {
      EventKeepsOk(subs[k], bus, e, ts, weather(k));
    }
  }

  lemma ShutdownFollows(subs: map<nat, Sub>, bus: seq<AppEvent>)
    requires SubsOk(subs, bus)
    ensures SubsFollow(subs, CloseAll(subs), bus)
  {
    forall k | k in subs ensures SubOk(subs[k].(closed := true), bus) { ClosingKeepsOk(subs[k], bus); }
  }

  lemma OneFollows(subs: map<nat, Sub>, bus: seq<AppEvent>, k: nat, sub: Sub)
    requires SubsOk(subs, bus) && SubOk(sub, bus)
    requires forall j :: j in subs && j != k ==> subs[j].stream != sub.stream
    requires k in subs ==> sub.stream == subs[k].stream && (subs[k].attached.Some? ==> sub.attached == subs[k].attached)
    ensures SubsFollow(subs, subs[k := sub], bus)
  {}

  lemma SubsKeepOk(s: System, a: Action)
    requires Inv(s) && Enabled(s, a)
    ensures SubsFollow(s.subs, Step(s, a).subs, Step(s, a).bus)
  {
    match a
    case Publish(e, ts, weather) => PublishFollows(s.subs, s.bus, e, ts, weather);
    case Attach(k, height, ts, w) =>
      if k in s.subs {
        OneFollows(s.subs, s.bus, k, Announce(s.subs[k], |s.bus|, height, ts, w));
      }
    case End(k) =>
      if k in s.subs {
        ClosingKeepsOk(s.subs[k], s.bus);
        OneFollows(s.subs, s.bus, k, s.subs[k].(closed := true));
      }
    case Upgrade(k, stream) =>
      if |OpenConns(s.subs)| < s.capacity { OneFollows(s.subs, s.bus, k, Opened(stream)); }
    case Shutdown => ShutdownFollows(s.subs, s.bus);
    case Dial(_) =>
    case Receive(_, _) =>
    case HangUp(_) =>
    case Stop(_) =>
  }

  lemma ClosingKeepsOk(sub: Sub, bus: seq<AppEvent>)
    requires SubOk(sub, bus)
    ensures SubOk(sub.(closed := true), bus)
  {}

  lemma CapacityKept(s: System, a: Action)
    requires |OpenConns(s.subs)| <= s.capacity
    ensures |OpenConns(Step(s, a).subs)| <= s.capacity
  {
    var before, after := OpenConns(s.subs), OpenConns(Step(s, a).subs);
    if a.Upgrade? {
      if |before| < s.capacity {
        assert after <= before + {a.conn};
        SmallerIsWithin(after, before + {a.conn});
      }
    } else {
      assert after <= before;
      SmallerIsWithin(after, before);
    }
  }

  lemma StepKeepsInv(s: System, a: Action)
    requires Inv(s) && Enabled(s, a)
    ensures Inv(Step(s, a))
  {
    var s' := Step(s, a);
    SubsKeepOk(s, a);
    CapacityKept(s, a);
    forall k | k in s'.clients ensures ClientOk(s'.clients[k], s'.subs, s'.bus) {
      if k in s.clients {
        ClientKept(s.clients[k], s.subs, s.bus, s'.subs, s'.bus);
        if a.Receive? && a.client == k { ReceiveKeepsOk(s, s.clients[k], a.message); }
      }
    }
  }

  lemma {:induction false} RunKeepsInv(s: System, actions: seq<Action>)
    requires Inv(s) && RunEnabled(s, actions)
    ensures Inv(Run(s, actions))
  {
    if actions != [] {
      RunKeepsInv(s, actions[..|actions| - 1]);
      StepKeepsInv(Run(s, actions[..|actions| - 1]), actions[|actions| - 1]);
    }
  }

  // ---- What a client can rely on ----

  /** From some moment on, `c` has handed over every event, in order, up to some later moment. */
  ghost predicate SeesStretch(c: Client, s: System) {
    exists k, from: nat ::
      && k in s.subs && c.previous.Some? && s.subs[k].stream == c.previous.value.stream
      && s.subs[k].attached == Some(from) && from + |c.delivered| <= |s.bus|
      && c.delivered == s.bus[from..from + |c.delivered|]
  }

  /** Whatever the channel does: a client that was told of its subscription has handed over, in order and without a
      hole, the events the bus published from the moment that subscription's listener was attached. */
  lemma ClientSeesItsStretch(start: System, actions: seq<Action>, client: nat)
    requires start.subs == map[] && start.clients == map[] && RunEnabled(start, actions)
    requires client in Run(start, actions).clients
    ensures
      var s := Run(start, actions);
      var c := s.clients[client];
      if c.subscribed then SeesStretch(c, s) else c.delivered == []
  {
    assert OpenConns(start.subs) == {};
    RunKeepsInv(start, actions);
    MirrorIsStretch(Run(start, actions), client);
  }

  lemma MirrorIsStretch(s: System, client: nat)
    requires Inv(s) && client in s.clients
    ensures if s.clients[client].subscribed then SeesStretch(s.clients[client], s) else s.clients[client].delivered == []
  {
    var c := s.clients[client];
    assert ClientOk(c, s.subs, s.bus);
    if c.subscribed {
      var k :| k in s.subs && Mirrors(c.delivered, c.previous.value, s.subs[k], s.bus);
    }
  }

  function AsMessages(fs: seq<Frame>, sizes: seq<nat>): (ms: seq<Message>)
    requires |sizes| == |fs|
    ensures |ms| == |fs|
  {
    seq(|fs|, i requires 0 <= i < |fs| => Message.Text(fs[i], sizes[i]))
  }

  /** A channel that delivers every frame in order hands the client everything the subscription sent; while the
      subscription is open that is everything the bus published since. */
  lemma NothingLostInOrder(s: System, k: nat, sizes: seq<nat>)
    requires Inv(s) && k in s.subs && s.subs[k].attached.Some? && s.subs[k].sent != []
    requires |sizes| == |s.subs[k].sent| && forall i :: 0 <= i < |sizes| ==> sizes[i] <= s.maxBytes
    ensures
      var sub, from := s.subs[k], s.subs[k].attached.value;
      var c := OnMessages(Attempt, AsMessages(sub.sent, sizes), s.maxBytes);
      && !c.settled && c.delivered == s.bus[from..from + |sub.sent| - 1]
      && (!sub.closed ==> c.delivered == s.bus[from..])
  {
    var sub, from := s.subs[k], s.subs[k].attached.value;
    var ms := AsMessages(sub.sent, sizes);
    assert SubOk(sub, s.bus);
    forall i | 0 <= i < |ms| ensures InPlace(ms, i, s.maxBytes) {
      assert SentOk(sub.sent[i], sub.stream, i, from, s.bus) && SentOk(sub.sent[0], sub.stream, 0, from, s.bus);
    }
    assert Unbroken(ms, s.maxBytes) == |ms|;
    DeliveredIsUnbrokenPrefix(ms, s.maxBytes);
    SentEvents(sub, from, s.bus, ms, |ms|, s.maxBytes);
  }

  lemma {:induction false} SentEvents(sub: Sub, from: nat, bus: seq<AppEvent>, ms: seq<Message>, n: nat, maxBytes: nat)
    requires SubOk(sub, bus) && sub.attached == Some(from) && n <= |ms| == |sub.sent|
    requires forall i :: 0 <= i < |ms| ==> ms[i].Text? && ms[i].frame == sub.sent[i]
    requires forall i :: 0 <= i < n ==> InPlace(ms, i, maxBytes)
    ensures n > 0 ==> from + n - 1 <= |bus| && EventsOf(ms, n, maxBytes) == bus[from..from + n - 1]
  {
    if n > 0 { assert SentOk(sub.sent[n - 1], sub.stream, n - 1, from, bus); }
    if n > 1 { SentEvents(sub, from, bus, ms, n - 1, maxBytes); }
  }

  // ---- What keeps a subscription open ----

  /** Nothing stands in the way of this frame. */
  /** The frames the contract allows: an announcement is number 0 and its height, if any, positive; updates start at 1. */
  predicate InContract(f: Frame) {
    && 0 <= f.ts < 0x20_0000_0000_0000
    && (f.Ready? ==> f.index == 0 && (f.height == None || IsPositiveU64Token(f.height.value)))
    && (f.Update? ==> 1 <= f.index < 0x20_0000_0000_0000)
  }

  predicate Clear(f: Frame, w: Weather) { w.open && InContract(f) && w.size <= 65_536 && !w.throws && w.buffered <= 1_048_576 }

  /** A frame is sent unless the socket is closed, the frame is not canonical or too large, or the send throws; and the
      subscription stays open exactly when in addition no backlog builds up. */
  lemma SendsExactly(s: Sub, f: Frame, w: Weather)
    requires !s.closed
    ensures
      var later := SendFrame(s, f, w);
      && (!later.closed <==> Clear(f, w))
      && later.sent == (if w.open && InContract(f) && w.size <= 65_536 && !w.throws then s.sent + [f] else s.sent)
      && later == s.(closed := later.closed, sent := later.sent)
  {}

  /** What the environment does to subscription `k` in one step leaves it in peace: no end, no shutdown, and clear weather
      for whatever it sends. */
  predicate LeavesInPeace(a: Action, k: nat) {
    match a
    case Publish(_, ts, weather) =>
      0 <= ts <= MAX_SAFE_INTEGER && weather(k).open && weather(k).size <= 65_536 && !weather(k).throws && weather(k).buffered <= 1_048_576
    case Attach(j, height, ts, w) =>
      j == k ==> 0 <= ts <= MAX_SAFE_INTEGER && (height.Some? ==> IsPositiveU64Token(height.value))
                 && w.open && w.size <= 65_536 && !w.throws && w.buffered <= 1_048_576
    case End(j) => j != k
    case Shutdown => false
    case _ => true
  }

  /** The subscription is open and has sent its announcement and every event since. */
  ghost predicate Complete(s: System, k: nat, from: nat) {
    && k in s.subs && !s.subs[k].closed && s.subs[k].attached == Some(from) && from <= |s.bus|
    && |s.subs[k].sent| == |s.bus| - from + 1
  }

  lemma AttachCompletes(s: System, k: nat, height: Option<string>, ts: int, w: Weather)
    requires Inv(s) && k in s.subs && s.subs[k].attached.None? && !s.subs[k].closed
    requires LeavesInPeace(Attach(k, height, ts, w), k)
    ensures Complete(Step(s, Attach(k, height, ts, w)), k, |s.bus|)
  {
    assert SubOk(s.subs[k], s.bus);
    SendsExactly(s.subs[k].(attached := Some(|s.bus|)), Ready(s.subs[k].stream, READY_SEQ, ts, height), w);
  }

  lemma PeaceCompletes(s: System, a: Action, k: nat, from: nat)
    requires Inv(s) && Enabled(s, a) && Complete(s, k, from) && LeavesInPeace(a, k)
    requires |Step(s, a).bus| <= MAX_SAFE_INTEGER
    ensures Complete(Step(s, a), k, from)
  {
    assert SubOk(s.subs[k], s.bus);
    match a
    case Publish(e, ts, weather) =>
      var sub := s.subs[k];
      SendsExactly(sub.(index := sub.index + 1), Update(sub.stream, sub.index + 1, ts, e), weather(k));
    case Attach(j, _, _, _) => assert j != k;
    case Upgrade(j, _) => assert j != k;
    case End(_) =>
    case Dial(_) =>
    case Receive(_, _) =>
    case HangUp(_) =>
    case Stop(_) =>
  }

  /** Left in peace after its announcement, a subscription is still open however long the run, and has sent everything the
      bus published since its attachment: the server ends none of its own accord. */
  lemma {:induction false} StaysComplete(s: System, actions: seq<Action>, k: nat, from: nat)
    requires Inv(s) && RunEnabled(s, actions) && Complete(s, k, from)
    requires forall i :: 0 <= i < |actions| ==> LeavesInPeace(actions[i], k)
    requires |Run(s, actions).bus| <= MAX_SAFE_INTEGER
    ensures Complete(Run(s, actions), k, from)
  {
    if actions != [] {
      var n := |actions| - 1;
      var init := actions[..n];
      assert forall i :: 0 <= i < n ==> init[i] == actions[i];
      BusGrows(Run(s, init), actions[n]);
      RunKeepsInv(s, init);
      StaysComplete(s, init, k, from);
      PeaceCompletes(Run(s, init), actions[n], k, from);
    }
  }

  lemma BusGrows(s: System, a: Action)
    ensures |s.bus| <= |Step(s, a).bus|
  {}

  /** A connection is taken exactly while fewer than the capacity are open, and starts with nothing sent; ending one, or all
      at shutdown, leaves the others and what was sent as they were. */
  lemma AdmitsAndEnds(s: System, k: nat, stream: string)
    requires k !in s.subs
    ensures
      var later := Step(s, Upgrade(k, stream));
      && (k in later.subs <==> |OpenConns(s.subs)| < s.capacity)
      && (k in later.subs ==> later.subs == s.subs[k := Sub(stream, 0, false, None, [])])
      && later == s.(subs := later.subs)
    ensures
      var later := Step(s, Shutdown);
      && later == s.(subs := later.subs) && later.subs.Keys == s.subs.Keys
      && forall j :: j in s.subs ==> later.subs[j] == s.subs[j].(closed := true)
    ensures forall j :: j in s.subs ==> Step(s, End(j)) == s.(subs := s.subs[j := s.subs[j].(closed := true)])
    ensures forall j, height, ts, w: Weather :: j in s.subs && (s.subs[j].closed || !w.open) ==>
              Step(s, Attach(j, height, ts, w)) == Step(s, End(j))
  {}

  /** Hanging up settles a client, and the consumer hears of it as of any other end; stopping silences it. */
  lemma HangsUpAndStops(s: System, k: nat)
    requires k in s.clients
    ensures
      var c, later := s.clients[k], Step(s, HangUp(k));
      && later == s.(clients := later.clients) && later.clients == s.clients[k := later.clients[k]]
      && later.clients[k].settled && later.clients[k].delivered == c.delivered
      && later.clients[k].disconnects == c.disconnects + if c.subscribed && !c.stopped && !c.settled then 1 else 0
    ensures Step(s, Stop(k)) == s.(clients := s.clients[k := s.clients[k].(stopped := true)])
    ensures k !in (s.clients - {k}) && Step(s.(clients := s.clients - {k}), Dial(k)) == s.(clients := s.clients[k := Attempt])
  {
    assert (s.clients - {k})[k := Attempt] == s.clients[k := Attempt];
  }

  function Handed(k: nat, ms: seq<Message>): seq<Action> { seq(|ms|, i requires 0 <= i < |ms| => Receive(k, ms[i])) }

  lemma {:induction false} ReceivesAll(s: System, k: nat, ms: seq<Message>)
    requires k in s.clients
    ensures Run(s, Handed(k, ms)) == s.(clients := s.clients[k := OnMessages(s.clients[k], ms, s.maxBytes)])
  {
    if ms == [] {
      assert s.clients[k := s.clients[k]] == s.clients;
    } else {
      var n := |ms| - 1;
      ReceivesAll(s, k, ms[..n]);
      assert Handed(k, ms)[..n] == Handed(k, ms[..n]);
    }
  }

  /** A client that was stopped hears nothing more; one that is over hands over nothing more; and the consumer is told of a
      disconnect exactly when the end comes to a subscription it knows of and did not stop. */
  lemma {:induction false} EndsSilently(c: Client, ms: seq<Message>, maxBytes: nat)
    ensures c.stopped || c.settled ==> OnMessages(c, ms, maxBytes) == c
    ensures Finish(c).settled && Finish(c).delivered == c.delivered && Finish(Finish(c)) == Finish(c)
    ensures Finish(c).disconnects == c.disconnects + if c.subscribed && !c.stopped && !c.settled then 1 else 0
  {
    if ms != [] { EndsSilently(c, ms[..|ms| - 1], maxBytes); }
  }

  predicate WasGiven(s: System, j: nat, events: seq<AppEvent>) { j in s.clients && s.clients[j].delivered == events }

  /** So a new client that receives what was sent, in order, is handed the whole bus from the attachment on, without
      condition. */
  lemma EverythingArrives(s: System, k: nat, height: Option<string>, ts: int, w: Weather, actions: seq<Action>, sizes: seq<nat>, j: nat)
    requires Inv(s) && k in s.subs && s.subs[k].attached.None? && !s.subs[k].closed
    requires LeavesInPeace(Attach(k, height, ts, w), k) && Enabled(s, Attach(k, height, ts, w))
    requires RunEnabled(Step(s, Attach(k, height, ts, w)), actions)
    requires forall i :: 0 <= i < |actions| ==> LeavesInPeace(actions[i], k)
    requires |Run(Step(s, Attach(k, height, ts, w)), actions).bus| <= MAX_SAFE_INTEGER
    ensures
      var later := Run(Step(s, Attach(k, height, ts, w)), actions);
      && Complete(later, k, |s.bus|)
      && (j !in later.clients && |sizes| == |later.subs[k].sent| && (forall i :: 0 <= i < |sizes| ==> sizes[i] <= later.maxBytes) ==>
            WasGiven(Run(Step(later, Dial(j)), Handed(j, AsMessages(later.subs[k].sent, sizes))), j, later.bus[|s.bus|..]))
  {
    var now := Step(s, Attach(k, height, ts, w));
    AttachCompletes(s, k, height, ts, w);
    StepKeepsInv(s, Attach(k, height, ts, w));
    StaysComplete(now, actions, k, |s.bus|);
    RunKeepsInv(now, actions);
    var later := Run(now, actions);
    if j !in later.clients && |sizes| == |later.subs[k].sent| && forall i :: 0 <= i < |sizes| ==> sizes[i] <= later.maxBytes {
      NothingLostInOrder(later, k, sizes);
      ReceivesAll(Step(later, Dial(j)), j, AsMessages(later.subs[k].sent, sizes));
    }
  }

  // ---- The two ends, as they update their state in place ----

  /** One subscription on the server: the closure variables of `subscribe`. */
  class ServerSubscription {
    const stream: string
    var number: nat
    var closed: bool
    var listening: bool
    var wire: seq<Frame>
    ghost var attached: Option<nat>

    ghost function View(): Sub
      reads this
    {
      Sub(stream, number, closed, attached, wire)
    }

    /** The listener is registered exactly while the subscription is attached and open. */
    ghost predicate Valid()
      reads this
    {
      listening <==> attached.Some? && !closed
    }

    constructor (stream: string)
      ensures Valid() && View() == Opened(stream)
    {
      this.stream := stream;
      number, closed, listening, wire, attached := READY_SEQ, false, false, [], None;
    }

    method Cleanup()
      modifies this`closed, this`listening
      ensures closed && (old(closed) || !listening) && (old(closed) ==> listening == old(listening))
    {
      if closed {
        return;
      }
      closed := true;
      listening := false;
    }

    method Send(f: Frame, w: Weather) returns (ok: bool)
      requires Valid()
      modifies this`closed, this`listening, this`wire
      ensures Valid() && View() == SendFrame(old(View()), f, w) && ok == !closed
      ensures !old(closed) ==> (!closed <==> Clear(f, w))
      ensures wire == if !old(closed) && w.open && InContract(f) && w.size <= 65_536 && !w.throws then old(wire) + [f] else old(wire)
    {
      if closed || !w.open {
        Cleanup();
        return false;
      }
      if !Canonical(f) || w.size > MAX_FRAME_BYTES || w.throws {
        Cleanup();
        return false;
      }
      wire := wire + [f];
      if w.buffered > MAX_BUFFERED_BYTES {
        Cleanup();
        return false;
      }
      return true;
    }

    /** `busLength` is how many events the bus has published so far. */
    method SubscribeThenAnnounce(ghost busLength: nat, height: Option<string>, ts: int, w: Weather)
      requires Valid() && attached.None?
      modifies this
      ensures Valid() && View() == Announce(old(View()), busLength, height, ts, w)
    {
      if closed || !w.open {
        Cleanup();
        return;
      }
      listening := true;
      attached := Some(busLength);
      var ok := Send(Ready(stream, READY_SEQ, ts, height), w);
    }

    /** The bus calls the listener while it is registered, and only then. */
    method OnBusEvent(e: AppEvent, ts: int, w: Weather)
      requires Valid()
      modifies this
      ensures Valid() && View() == OnAppEvent(old(View()), e, ts, w)
    {
      if listening {
        number := number + 1;
        var ok := Send(Update(stream, number, ts, e), w);
      }
    }
  }

  /** One attempt of the client: the variables of `runSubscription`, and what it handed to its consumer. */
  class ClientSubscription {
    const maxFrameBytes: nat
    var previous: Option<Position>
    var subscribed: bool
    var settled: bool
    var stopped: bool
    var handed: seq<AppEvent>
    var disconnects: nat

    ghost function View(): Client
      reads this
    {
      Client(previous, subscribed, settled, stopped, handed, disconnects)
    }

    constructor (maxFrameBytes: nat)
      ensures View() == Attempt && this.maxFrameBytes == maxFrameBytes
    {
      this.maxFrameBytes := maxFrameBytes;
      previous, subscribed, settled, stopped, handed, disconnects := None, false, false, false, [], 0;
    }

    method End()
      modifies this
      ensures View() == Finish(old(View()))
    {
      if settled {
        return;
      }
      settled := true;
      if subscribed && !stopped {
        disconnects := disconnects + 1;
      }
    }

    method Handle(m: Message)
      modifies this
      ensures View() == OnMessage(old(View()), m, maxFrameBytes)
    {
      if settled || stopped {
        return;
      }
      if m.Opaque? || m.size > maxFrameBytes || !Canonical(m.frame) {
        End();
        return;
      }
      var frame := m.frame;
      if previous.None? {
        if !frame.Ready? || frame.index != READY_SEQ {
          End();
          return;
        }
        previous := Some(Position(frame.stream, frame.index));
        subscribed := true;
        return;
      }
      if frame.Ready? || !Follows(previous.value, frame) {
        End();
        return;
      }
      previous := Some(Position(frame.stream, frame.index));
      handed := handed + [frame.event];
    }
  }
}
