/** The relay hub of internal/relay/relay.go as a machine, and what its runs can write. */
module RelayModel {
  import opened Options
  import opened Runs
  import opened Bytes
  import TokenBucket

  /** A sink is known here by its number. */
  type SinkId = nat

  type Packet = seq<Byte>

  /** A root hub refuses to relay; a quota caps the bytes written. */
  datatype Config = Config(isRoot: bool, quota: Option<TokenBucket.Rate>)

  /** A quota of so many bytes per second, with a burst of one second. */
  function QuotaOf(bytesPerSecond: int): Option<TokenBucket.Rate> {
    if bytesPerSecond > 0 then Some(TokenBucket.PerSecond(bytesPerSecond as real, bytesPerSecond as real)) else None
  }

  datatype Hub = Hub(sinks: map<string, SinkId>, bucket: TokenBucket.State)

  datatype Call =
    | Register(node: string, sink: Option<SinkId>)
    | Unregister(node: string)
    | Deliver(to: string, payload: Packet, sinkFails: bool)

  datatype Event = Event(call: Call, now: real)

  /** What a call returns; `Wrote` is a packet handed to a sink, whether or not the sink reported an error. */
  datatype Reply =
    | Done
    | NilSink
    | RootNeverRelays
    | NoRoute
    | QuotaExceeded
    | Wrote(sink: SinkId, payload: Packet, failed: bool)

  function Step(c: Config, h: Hub, e: Event): Out<Hub, Reply> {
    match e.call
    case Register(node, sink) =>
      if sink.None? then Out(h, NilSink)
      else if c.isRoot then Out(h, RootNeverRelays)
      else Out(Hub(h.sinks[node := sink.value], h.bucket), Done)
    case Unregister(node) => Out(Hub(h.sinks - {node}, h.bucket), Done)
    case Deliver(to, payload, sinkFails) =>
      if c.isRoot then Out(h, RootNeverRelays)
      else if to !in h.sinks then Out(h, NoRoute)
      else if c.quota.None? then Out(h, Wrote(h.sinks[to], payload, sinkFails))
      else
        var size := |payload| as real;
        Out(Hub(h.sinks, TokenBucket.After(c.quota.value, h.bucket, size, e.now)),
            if TokenBucket.Grants(c.quota.value, h.bucket, size, e.now)
            then Wrote(h.sinks[to], payload, sinkFails) else QuotaExceeded)
  }

  function Relay(c: Config): Machine<Hub, Event, Reply> {
    (h, e) => Step(c, h, e)
  }

  function Idle(): Hub {
    Hub(map[], TokenBucket.Fresh)
  }

  function Now(): Event -> real {
    (e: Event) => e.now
  }

  // --- a root hub never writes ---------------------------------------------

  ghost predicate Refuses(m: Machine<Hub, Event, Reply>) {
    forall h: Hub, e: Event :: h.sinks == map[] ==> m(h, e).state.sinks == map[] && !m(h, e).verdict.Wrote?
  }

  lemma {:induction false} RefusesAlways(m: Machine<Hub, Event, Reply>, h: Hub, events: seq<Event>)
    requires Refuses(m) && h.sinks == map[]
    ensures End(m, h, events).sinks == map[]
    ensures forall i :: 0 <= i < |events| ==> !Log(m, h, events)[i].Wrote?
  {
    if events == [] {
    } else {
      RefusesAlways(m, h, events[..|events| - 1]);
    }
  }

  /** In no run does a root hub hold a sink or write a packet. */
  lemma RootNeverWrites(c: Config, events: seq<Event>)
    requires c.isRoot
    ensures End(Relay(c), Idle(), events).sinks == map[]
    ensures forall i :: 0 <= i < |events| ==> !Log(Relay(c), Idle(), events)[i].Wrote?
  {
    var m := Relay(c);
    forall h: Hub, e: Event | h.sinks == map[] ensures m(h, e).state.sinks == map[] && !m(h, e).verdict.Wrote? {
      if e.call.Unregister? {
        assert h.sinks - {e.call.node} == map[];
      }
    }
    RefusesAlways(m, Idle(), events);
  }

  // --- a quota hub writes within its quota ---------------------------------

  function Payload(call: Call): Packet {
    if call.Deliver? then call.payload else []
  }

  /** A routed packet asks the quota for its length, and is written if it gets it. */
  function ByteMeter(): TokenBucket.Meter<Event, Reply> {
    TokenBucket.Meter(
      (_: Event, r: Reply) => r.Wrote? || r.QuotaExceeded?,
      (e: Event) => TokenBucket.Request(e.now, |Payload(e.call)| as real),
      (r: Reply) => r.Wrote?)
  }

  lemma QuotaMeters(c: Config, events: seq<Event>)
    requires c.quota.Some? && InOrder(events, Now())
    ensures TokenBucket.Metered(Relay(c), Idle(), events, ByteMeter(), c.quota.value)
  {
    var m, n, d, now := Relay(c), TokenBucket.Bucket(c.quota.value), ByteMeter(), Now();
    var rel := (h: Hub, v: TokenBucket.State, t: real) => h.bucket == v;
    forall h, v, t, e ensures StepsAgree(m, n, d.asks, d.request, d.granted, rel, now, h, v, t, e) {
    }
    if events != [] {
      Simulation(m, n, d.asks, d.request, d.granted, rel, now, Idle(), TokenBucket.Fresh, events,
                 now(events[0]), now(events[|events| - 1]));
    }
  }

  /** The bytes handed to sinks by the calls of a run from index `i` on. */
  function BytesSince(c: Config, events: seq<Event>, i: nat): real
    requires i <= |events|
  {
    TokenBucket.DrawnSince(Relay(c), Idle(), events, ByteMeter(), i)
  }

  /** In any stretch of any run, a quota hub writes no more bytes than its burst and what the stretch earns. */
  lemma BytesWithinQuota(c: Config, events: seq<Event>, i: nat)
    requires c.quota.Some? && TokenBucket.Proper(c.quota.value) && InOrder(events, Now()) && i < |events|
    ensures BytesSince(c, events, i)
      <= c.quota.value.burst + (c.quota.value.earned(events[|events| - 1].now) - c.quota.value.earned(events[i].now))
  {
    QuotaMeters(c, events);
    TokenBucket.DrawnWithinRate(Relay(c), Idle(), events, ByteMeter(), c.quota.value, Now(), i);
  }

  /** In bytes per second: at most `q` bytes plus `q` for each second of the stretch. */
  lemma MasterQuota(isRoot: bool, q: int, events: seq<Event>, i: nat)
    requires q > 0 && InOrder(events, Now()) && i < |events|
    ensures BytesSince(Config(isRoot, QuotaOf(q)), events, i)
      <= q as real + q as real * (events[|events| - 1].now - events[i].now)
  {
    var p := QuotaOf(q).value;
    TokenBucket.PerSecondIsProper(q as real, q as real);
    TokenBucket.PerSecondIsConstant(q as real, q as real);
    assert p.earned(events[|events| - 1].now) - p.earned(events[i].now)
      == q as real * (events[|events| - 1].now - events[i].now);
    BytesWithinQuota(Config(isRoot, QuotaOf(q)), events, i);
  }

  // --- every reply, from the calls before it -------------------------------

  /** The sink last registered for a node and not unregistered since. */
  function Routed(past: seq<Event>, node: string): Option<SinkId> {
    if past == [] then None
    else
      match past[|past| - 1].call
      case Register(n, Some(sink)) => if n == node then Some(sink) else Routed(past[..|past| - 1], node)
      case Unregister(n) => if n == node then None else Routed(past[..|past| - 1], node)
      case _ => Routed(past[..|past| - 1], node)
  }

  /** What the quota was asked for: the length of every packet to a routed node. */
  function Demands(past: seq<Event>): seq<TokenBucket.Request> {
    if past == [] then []
    else
      var before, last := past[..|past| - 1], past[|past| - 1];
      if last.call.Deliver? && Routed(before, last.call.to).Some?
      then Demands(before) + [TokenBucket.Request(last.now, |last.call.payload| as real)]
      else Demands(before)
  }

  ghost predicate HubAgrees(c: Config, h: Hub, past: seq<Event>) {
    && (forall node :: Routed(past, node) == if node in h.sinks then Some(h.sinks[node]) else None)
    && (c.quota.Some? ==> h.bucket == TokenBucket.Run(c.quota.value, Demands(past)))
  }

  lemma HubStep(c: Config, h: Hub, past: seq<Event>, e: Event)
    requires !c.isRoot && HubAgrees(c, h, past)
    ensures HubAgrees(c, Step(c, h, e).state, past + [e])
  {
    var all := past + [e];
    assert all[..|all| - 1] == past;
    if c.quota.Some? && e.call.Deliver? && Routed(past, e.call.to).Some? {
      Snoc(TokenBucket.Bucket(c.quota.value), TokenBucket.Fresh, Demands(past),
           TokenBucket.Request(e.now, |e.call.payload| as real));
    }
  }

  lemma {:induction false} HubOf(c: Config, past: seq<Event>)
    requires !c.isRoot
    ensures HubAgrees(c, End(Relay(c), Idle(), past), past)
  {
    if past == [] {
    } else {
      var front, e := past[..|past| - 1], past[|past| - 1];
      HubOf(c, front);
      HubStep(c, End(Relay(c), Idle(), front), front, e);
      assert front + [e] == past;
    }
  }

  /** Seen from every earlier demand, what was granted since and this one stay within a limit. */
  ghost predicate Within(p: TokenBucket.Rate, past: seq<TokenBucket.Request>, r: TokenBucket.Request, limit: real -> real) {
    var reqs := past + [r];
    forall j :: 0 <= j <= |past| ==> TokenBucket.Amount(p, reqs, j, |past|) + r.size <= limit(reqs[j].time)
  }

  /** The limit is the burst and the refill since. */
  ghost predicate Admitted(p: TokenBucket.Rate, past: seq<TokenBucket.Request>, r: TokenBucket.Request) {
    Within(p, past, r, (since: real) => p.burst + (p.earned(r.time) - p.earned(since)))
  }

  /** The limit is `rate` bytes and as many for every second since. */
  ghost predicate WithinBytes(p: TokenBucket.Rate, past: seq<TokenBucket.Request>, r: TokenBucket.Request, rate: real) {
    Within(p, past, r, (since: real) => rate + rate * (r.time - since))
  }

  lemma GrantsAdmitted(p: TokenBucket.Rate, past: seq<TokenBucket.Request>, r: TokenBucket.Request)
    ensures TokenBucket.Grants(p, TokenBucket.Run(p, past), r.size, r.time) == Admitted(p, past, r)
  {
    var reqs := past + [r];
    assert reqs[..|past|] == past;
    TokenBucket.ExactAdmission(p, reqs, |past|);
  }

  /**
   * In every run a packet to a node that has a route goes to the sink registered last, unchanged, exactly when there
   * is no quota or the quota has room for it; without a route it is refused, and a root hub refuses every packet.
   */
  lemma EveryDelivery(c: Config, events: seq<Event>, i: nat, to: string, payload: Packet, fails: bool)
    requires i < |events| && events[i].call == Deliver(to, payload, fails)
    ensures var r, route := Log(Relay(c), Idle(), events)[i], Routed(events[..i], to);
            var asked := TokenBucket.Request(events[i].now, |payload| as real);
            var admitted := c.quota.Some? ==> Admitted(c.quota.value, Demands(events[..i]), asked);
            && (c.isRoot <==> r == RootNeverRelays)
            && (!c.isRoot && route.None? <==> r == NoRoute)
            && (!c.isRoot && route.Some? && !admitted <==> r == QuotaExceeded)
            && (!c.isRoot && route.Some? && admitted ==> r == Wrote(route.value, payload, fails))
  {
    LogAt(Relay(c), Idle(), events, i);
    if !c.isRoot {
      HubOf(c, events[..i]);
      if c.quota.Some? {
        GrantsAdmitted(c.quota.value, Demands(events[..i]), TokenBucket.Request(events[i].now, |payload| as real));
      }
    }
  }

  lemma SameLimits(p: TokenBucket.Rate, past: seq<TokenBucket.Request>, r: TokenBucket.Request, f: real -> real,
                   g: real -> real)
    requires forall since :: f(since) == g(since)
    ensures Within(p, past, r, f) == Within(p, past, r, g)
  {
  }

  lemma ConstantAdmits(p: TokenBucket.Rate, past: seq<TokenBucket.Request>, r: TokenBucket.Request, rate: real)
    requires TokenBucket.Constant(p, rate) && p.burst == rate
    ensures Admitted(p, past, r) == WithinBytes(p, past, r, rate)
  {
    SameLimits(p, past, r, (since: real) => p.burst + (p.earned(r.time) - p.earned(since)),
               (since: real) => rate + rate * (r.time - since));
  }

  /** A quota is set by a positive number of bytes a second, and is that burst and that rate exactly. */
  lemma QuotaAdmits(q: int, past: seq<TokenBucket.Request>, r: TokenBucket.Request)
    ensures QuotaOf(q).Some? <==> q > 0
    ensures q > 0 ==> Admitted(QuotaOf(q).value, past, r) == WithinBytes(QuotaOf(q).value, past, r, q as real)
  {
    if q > 0 {
      TokenBucket.PerSecondIsConstant(q as real, q as real);
      ConstantAdmits(QuotaOf(q).value, past, r, q as real);
    }
  }

  /** A nil sink is refused first, a root hub refuses every other, and unregistering always succeeds. */
  lemma {:induction false} EveryRegistration(c: Config, events: seq<Event>, i: nat)
    requires i < |events| && !events[i].call.Deliver?
    ensures var r, call := Log(Relay(c), Idle(), events)[i], events[i].call;
            && (call.Register? && call.sink.None? <==> r == NilSink)
            && (c.isRoot && call.Register? && call.sink.Some? <==> r == RootNeverRelays)
            && (call.Unregister? || (!c.isRoot && call.sink.Some?) <==> r == Done)
  {
    LogAt(Relay(c), Idle(), events, i);
  }
}
