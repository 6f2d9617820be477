/** What the scan defence guarantees over whole runs of probes. */
module ScanRuns {
  import opened Options
  import opened Runs
  import opened ScanModel
  import Shortlist
  import TokenBucket

  // --- sources and rooms do not interfere ----------------------------------

  datatype Event = Event(source: string, probe: Probe)

  /** The state of every source that has one. */
  type World = map<string, Local>

  function Of(w: World, source: string): Local {
    if source in w then w[source] else Clean()
  }

  /** The defence against all sources as one machine. */
  function WorldScan(c: Config): Machine<World, Event, Verdict> {
    (w: World, e: Event) =>
      var o := Step(c, Of(w, e.source), e.probe);
      Out(w[e.source := o.state], o.verdict)
  }

  predicate Matters(e: Event, source: string) {
    e.source == source && !e.probe.sameRoom
  }

  /** The run with every other source and every same-room probe erased. */
  function Kept(events: seq<Event>, source: string): seq<Probe> {
    if events == [] then []
    else
      var front, e := events[..|events| - 1], events[|events| - 1];
      if Matters(e, source) then Kept(front, source) + [e.probe] else Kept(front, source)
  }

  /** What the out-of-room probes of one source get in a run of all sources. */
  function Verdicts(c: Config, events: seq<Event>, source: string): seq<Verdict> {
    SelectedLog(WorldScan(c), map[], events, (e: Event, _) => Matters(e, source), v => v)
  }

  /** The two states agree, up to a ban that has run out by `t` and that only one of them has noticed. */
  ghost predicate SameUpToExpiry(l: Local, kept: Local, t: real) {
    l == kept || (l == Clean() && kept.until.Some? && kept == Banned(kept.until.value) && kept.until.value <= t)
  }

  ghost predicate BanIsBare(l: Local) {
    l.until.Some? ==> l == Banned(l.until.value)
  }

  ghost predicate ErasureRelation(w: World, source: string, kept: Local, t: real) {
    BanIsBare(Of(w, source)) && SameUpToExpiry(Of(w, source), kept, t)
  }

  lemma ErasureStep(c: Config, l: Local, kept: Local, t: real, p: Probe)
    requires SameUpToExpiry(l, kept, t) && BanIsBare(l) && t <= p.now
    ensures BanIsBare(Step(c, l, p).state)
    ensures if p.sameRoom then SameUpToExpiry(Step(c, l, p).state, kept, p.now)
      else SameUpToExpiry(Step(c, l, p).state, Step(c, kept, p).state, p.now)
           && Step(c, l, p).verdict == Step(c, kept, p).verdict
  {
  }

  lemma {:induction false} KeptIsSelected(m: Machine<World, Event, Verdict>, w: World, events: seq<Event>, source: string)
    ensures Kept(events, source) == Selected(m, w, events, (e: Event, _) => Matters(e, source), (e: Event) => e.probe)
  {
    if events == [] {
    } else {
      KeptIsSelected(m, w, events[..|events| - 1], source);
    }
  }

  function EventNow(): Event -> real {
    (e: Event) => e.probe.now
  }

  /** In every run with a clock that never goes back, erasing all same-room probes and all other sources changes
      nothing for the probes that remain. */
  lemma Erasure(c: Config, events: seq<Event>, source: string)
    requires InOrder(events, EventNow())
    ensures Verdicts(c, events, source) == Log(Scan(c), Clean(), Kept(events, source))
  {
    var m, n, view := WorldScan(c), Scan(c), (v: Verdict) => v;
    var now, keep, proj := EventNow(), (e: Event, v: Verdict) => Matters(e, source), (e: Event) => e.probe;
    var rel := (w: World, kept: Local, t: real) => ErasureRelation(w, source, kept, t);
    forall w, kept, t, e ensures StepsAgree(m, n, keep, proj, view, rel, now, w, kept, t, e) {
      if rel(w, kept, t) && t <= now(e) && e.source == source {
        ErasureStep(c, Of(w, source), kept, t, e.probe);
      }
    }
    if events != [] {
      Simulation(m, n, keep, proj, view, rel, now, map[], Clean(), events, now(events[0]), now(events[|events| - 1]));
    }
    KeptIsSelected(m, map[], events, source);
  }

  // --- recorded probes stay within the rate --------------------------------

  /** A ban is long enough to refill the bucket. */
  ghost predicate BanRefills(c: Config) {
    forall t :: c.admission.earned(t + c.banFor) - c.admission.earned(t) >= c.admission.burst
  }

  predicate ReachedBucket(v: Verdict) {
    v.disposition == Recorded || v.disposition == RateLimited
  }

  /** From `t` on, outside a ban, the source's bucket holds what a bucket that was never deleted would hold. */
  ghost predicate BucketAgrees(c: Config, l: Local, v: TokenBucket.State, t: real) {
    && (forall now :: t <= now && !InBan(l, now) ==>
          TokenBucket.Available(c.admission, Expired(l).bucket, now) == TokenBucket.Available(c.admission, v, now))
    && (v.Live? ==> v.tokens >= 0.0 && v.last <= t)
  }

  lemma BanRefillsBucket(c: Config, v: TokenBucket.State, t: real, now: real)
    requires Sensible(c) && BanRefills(c) && t + c.banFor <= now
    requires v.Live? ==> v.tokens >= 0.0 && v.last <= t
    ensures TokenBucket.Available(c.admission, v, now) == c.admission.burst
  {
    if v.Live? {
      assert c.admission.earned(v.last) <= c.admission.earned(t);
      assert c.admission.earned(t + c.banFor) <= c.admission.earned(now);
    }
  }

  lemma AvailableIsNonNegative(c: Config, v: TokenBucket.State, t: real, now: real)
    requires Sensible(c) && (v.Live? ==> v.tokens >= 0.0 && v.last <= t) && t <= now
    ensures TokenBucket.Available(c.admission, v, now) >= 0.0
  {
    if v.Live? {
      assert c.admission.earned(v.last) <= c.admission.earned(now);
    }
  }

  lemma BucketStep(c: Config, l: Local, v: TokenBucket.State, t: real, p: Probe)
    requires Sensible(c) && BanRefills(c) && BucketAgrees(c, l, v, t) && t <= p.now
    ensures var o := Step(c, l, p);
      if ReachedBucket(o.verdict)
      then BucketAgrees(c, o.state, TokenBucket.After(c.admission, v, 1.0, p.now), p.now)
           && (o.verdict.disposition == Recorded <==> TokenBucket.Grants(c.admission, v, 1.0, p.now))
      else BucketAgrees(c, o.state, v, p.now)
  {
    var o := Step(c, l, p);
    if !InBan(l, p.now) {
      if o.verdict.anomaly.Some? {
        forall now | p.now <= now && !InBan(o.state, now)
          ensures TokenBucket.Available(c.admission, Expired(o.state).bucket, now)
            == TokenBucket.Available(c.admission, v, now)
        {
          BanRefillsBucket(c, v, p.now, now);
        }
      } else if ReachedBucket(o.verdict) {
        AvailableIsNonNegative(c, v, t, p.now);
      }
    }
  }

  /** A probe that gets as far as the bucket asks it for one token, and is recorded if it gets it. */
  function ProbeMeter(): TokenBucket.Meter<Probe, Verdict> {
    TokenBucket.Meter(
      (_: Probe, v: Verdict) => ReachedBucket(v),
      (p: Probe) => TokenBucket.Request(p.now, 1.0),
      (v: Verdict) => v.disposition == Recorded)
  }

  /** A source on its own is rate-limited over any run exactly as by one bucket that is never deleted. */
  lemma OwnBucketNeverReset(c: Config, probes: seq<Probe>)
    requires Sensible(c) && BanRefills(c) && InOrder(probes, Now())
    ensures TokenBucket.Metered(Scan(c), Clean(), probes, ProbeMeter(), c.admission)
  {
    var m, n, d, now := Scan(c), TokenBucket.Bucket(c.admission), ProbeMeter(), Now();
    var rel := (l: Local, v: TokenBucket.State, t: real) => BucketAgrees(c, l, v, t);
    forall l, v, t, p ensures StepsAgree(m, n, d.asks, d.request, d.granted, rel, now, l, v, t, p) {
      if rel(l, v, t) && t <= now(p) {
        BucketStep(c, l, v, t, p);
      }
    }
    if probes != [] {
      Simulation(m, n, d.asks, d.request, d.granted, rel, now, Clean(), TokenBucket.Fresh, probes,
                 now(probes[0]), now(probes[|probes| - 1]));
    }
  }

  /** How many probes of a run from index `i` on were recorded. */
  function RecordedSince(c: Config, probes: seq<Probe>, i: nat): real
    requires i <= |probes|
  {
    TokenBucket.DrawnSince(Scan(c), Clean(), probes, ProbeMeter(), i)
  }

  lemma OwnRecordedWithinRate(c: Config, probes: seq<Probe>, i: nat)
    requires Sensible(c) && BanRefills(c) && InOrder(probes, Now()) && i < |probes|
    ensures RecordedSince(c, probes, i)
      <= c.admission.burst + (c.admission.earned(probes[|probes| - 1].now) - c.admission.earned(probes[i].now))
  {
    OwnBucketNeverReset(c, probes);
    TokenBucket.DrawnWithinRate(Scan(c), Clean(), probes, ProbeMeter(), c.admission, Now(), i);
  }

  /** The probes of one source among those of all, as far as they get to its bucket. */
  function SourceMeter(source: string): TokenBucket.Meter<Event, Verdict> {
    TokenBucket.Meter(
      (e: Event, v: Verdict) => e.source == source && ReachedBucket(v),
      (e: Event) => TokenBucket.Request(e.probe.now, 1.0),
      (v: Verdict) => v.disposition == Recorded)
  }

  lemma BucketLater(c: Config, l: Local, v: TokenBucket.State, t: real, later: real)
    requires BucketAgrees(c, l, v, t) && t <= later
    ensures BucketAgrees(c, l, v, later)
  {
  }

  /** Over any run of all sources, each source is rate-limited exactly as by one bucket that is never deleted: the
      deletions that come with a blacklisting are invisible, and so are the other sources. */
  lemma BucketNeverReset(c: Config, events: seq<Event>, source: string)
    requires Sensible(c) && BanRefills(c) && InOrder(events, EventNow())
    ensures TokenBucket.Metered(WorldScan(c), map[], events, SourceMeter(source), c.admission)
  {
    var m, n, d, now := WorldScan(c), TokenBucket.Bucket(c.admission), SourceMeter(source), EventNow();
    var rel := (w: World, v: TokenBucket.State, t: real) => BucketAgrees(c, Of(w, source), v, t);
    forall w, v, t, e ensures StepsAgree(m, n, d.asks, d.request, d.granted, rel, now, w, v, t, e) {
      if rel(w, v, t) && t <= now(e) {
        if e.source == source {
          BucketStep(c, Of(w, source), v, t, e.probe);
        } else {
          BucketLater(c, Of(w, source), v, t, now(e));
        }
      }
    }
    if events != [] {
      assert Of(map[], source) == Clean() && BucketAgrees(c, Clean(), TokenBucket.Fresh, now(events[0]));
      Simulation(m, n, d.asks, d.request, d.granted, rel, now, map[], TokenBucket.Fresh, events,
                 now(events[0]), now(events[|events| - 1]));
    }
  }

  /** How many probes of a source were recorded in a run of all sources from event `i` on. */
  function RecordedOf(c: Config, events: seq<Event>, source: string, i: nat): real
    requires i <= |events|
  {
    TokenBucket.DrawnSince(WorldScan(c), map[], events, SourceMeter(source), i)
  }

  /** In every run of all sources, the probes of one source that are recorded from event `i` on number at most the
      burst plus what is earned in that time, across blacklistings and the bucket deletions they cause. */
  lemma RecordedWithinRate(c: Config, events: seq<Event>, source: string, i: nat)
    requires Sensible(c) && BanRefills(c) && InOrder(events, EventNow()) && i < |events|
    ensures RecordedOf(c, events, source, i)
      <= c.admission.burst
         + (c.admission.earned(events[|events| - 1].probe.now) - c.admission.earned(events[i].probe.now))
  {
    BucketNeverReset(c, events, source);
    TokenBucket.DrawnWithinRate(WorldScan(c), map[], events, SourceMeter(source), c.admission, EventNow(), i);
  }

  /** At a constant rate, a ban refills the bucket exactly when `rate * banFor` reaches the burst. */
  lemma WhenBanRefills(c: Config, rate: real)
    requires TokenBucket.Constant(c.admission, rate)
    ensures BanRefills(c) <==> rate * c.banFor >= c.admission.burst
  {
    assert c.admission.earned(0.0 + c.banFor) - c.admission.earned(0.0) == rate * c.banFor;
    forall t ensures c.admission.earned(t + c.banFor) - c.admission.earned(t) == rate * c.banFor {
      assert t + c.banFor - t == c.banFor;
    }
  }

  // --- a ban that does not refill ------------------------------------------

  /** The same port `n` times at one moment. */
  function Again(n: nat, t: real): seq<Probe> {
    seq(n, _ => Probe(1, false, t))
  }

  /** The ports 2 to `k`, each once, at time zero. */
  function Upward(k: nat): seq<Probe>
    requires k >= 1
  {
    seq(k - 1, i => Probe(i + 2, false, 0.0))
  }

  /** Use up the burst, get banned by probing as many ports as the threshold, and use the burst again after the ban. */
  function Flood(c: Config, burst: nat): seq<Probe>
    requires c.threshold >= 1
  {
    Again(burst, 0.0) + Upward(c.threshold) + Again(burst, c.banFor)
  }

  /** Ports 1 to `k`, all seen at time zero. */
  function Filled(k: nat): (ports: map<int, real>)
    ensures |ports| == k && forall p :: p in ports ==> 1 <= p <= k && ports[p] == 0.0
  {
    if k == 0 then map[] else Filled(k - 1)[k := 0.0]
  }

  /** A configuration whose burst is a whole number of probes, and a threshold that one port does not reach. */
  ghost predicate WholeBurst(c: Config, burst: nat) {
    c.window >= 0.0 && c.threshold >= 2 && c.banFor >= 0.0 && burst >= 1 && c.admission.burst == burst as real
  }

  lemma AgainStep(c: Config, burst: nat, l: Local, left: nat, t: real)
    requires WholeBurst(c, burst) && 1 <= left <= burst && !InBan(l, t)
    requires || (Expired(l) == Clean() && left == burst)
             || Expired(l) == Local(None, map[1 := t], TokenBucket.Live(left as real, t))
    ensures Step(c, l, Probe(1, false, t))
      == Out(Local(None, map[1 := t], TokenBucket.Live((left - 1) as real, t)), Verdict(Recorded, None))
  {
    assert Pruned(c, Expired(l).ports[1 := t], t) == map[1 := t] && |map[1 := t]| == 1;
  }

  /** From a clean state, or from a ban that has run out, the whole burst is recorded. */
  lemma {:induction false} AgainRun(c: Config, burst: nat, l: Local, n: nat, t: real)
    requires WholeBurst(c, burst) && 1 <= n <= burst && !InBan(l, t) && Expired(l) == Clean()
    ensures End(Scan(c), l, Again(n, t)) == Local(None, map[1 := t], TokenBucket.Live((burst - n) as real, t))
    ensures TokenBucket.DrawnSince(Scan(c), l, Again(n, t), ProbeMeter(), 0) == n as real
    decreases n
  {
    var front := Again(n - 1, t);
    assert Again(n, t)[..n - 1] == front;
    if n == 1 {
      assert front == [];
      AgainStep(c, burst, l, burst, t);
    } else {
      AgainRun(c, burst, l, n - 1, t);
      AgainStep(c, burst, End(Scan(c), l, front), burst - (n - 1), t);
    }
  }

  lemma UpwardStep(c: Config, burst: nat, k: nat)
    requires WholeBurst(c, burst) && 1 <= k < c.threshold
    ensures var o := Step(c, Local(None, Filled(k), TokenBucket.Live(0.0, 0.0)), Probe(k + 1, false, 0.0));
      o.verdict.disposition != Recorded
      && o.state == if k + 1 < c.threshold then Local(None, Filled(k + 1), TokenBucket.Live(0.0, 0.0)) else Banned(c.banFor)
  {
    var next := Filled(k + 1);
    assert next == Filled(k)[k + 1 := 0.0];
    assert Pruned(c, next, 0.0) == next;
  }

  lemma {:induction false} UpwardRun(c: Config, burst: nat, l: Local, k: nat)
    requires WholeBurst(c, burst) && 1 <= k <= c.threshold && l == Local(None, Filled(1), TokenBucket.Live(0.0, 0.0))
    ensures TokenBucket.DrawnSince(Scan(c), l, Upward(k), ProbeMeter(), 0) == 0.0
    ensures End(Scan(c), l, Upward(k))
      == if k < c.threshold then Local(None, Filled(k), TokenBucket.Live(0.0, 0.0)) else Banned(c.banFor)
    decreases k
  {
    if k == 1 {
      assert Upward(k) == [];
    } else {
      assert Upward(k)[..k - 2] == Upward(k - 1);
      UpwardRun(c, burst, l, k - 1);
      UpwardStep(c, burst, k - 1);
    }
  }

  lemma FloodTimes(c: Config, burst: nat)
    requires WholeBurst(c, burst)
    ensures var probes := Flood(c, burst);
      InOrder(probes, Now()) && |probes| > 0 && probes[0].now == 0.0 && probes[|probes| - 1].now == c.banFor
  {
    var probes, n := Flood(c, burst), burst + c.threshold - 1;
    assert forall i :: 0 <= i < |probes| ==> probes[i].now == if i < n then 0.0 else c.banFor;
  }

  lemma FirstBurst(c: Config, burst: nat) returns (l: Local)
    requires WholeBurst(c, burst)
    ensures l == Local(None, Filled(1), TokenBucket.Live(0.0, 0.0)) && End(Scan(c), Clean(), Again(burst, 0.0)) == l
    ensures TokenBucket.DrawnSince(Scan(c), Clean(), Again(burst, 0.0), ProbeMeter(), 0) == burst as real
  {
    AgainRun(c, burst, Clean(), burst, 0.0);
    l := Local(None, map[1 := 0.0], TokenBucket.Live(0.0, 0.0));
    assert Filled(1) == Filled(0)[1 := 0.0] == map[1 := 0.0];
  }

  /** The flood gets twice the burst recorded. */
  lemma FloodRecords(c: Config, burst: nat)
    requires WholeBurst(c, burst)
    ensures RecordedSince(c, Flood(c, burst), 0) == (burst + burst) as real
  {
    var l := FirstBurst(c, burst);
    UpwardRun(c, burst, l, c.threshold);
    AgainRun(c, burst, Banned(c.banFor), burst, c.banFor);
    TokenBucket.DrawnInThree(Scan(c), Clean(), Again(burst, 0.0), l, Upward(c.threshold), Banned(c.banFor),
                             Again(burst, c.banFor), ProbeMeter());
  }

  /** The probes recorded from probe `i` on are within the burst and what is earned in that time. */
  ghost predicate WithinRate(c: Config, probes: seq<Probe>, i: nat)
    requires i < |probes|
  {
    RecordedSince(c, probes, i)
      <= c.admission.burst + (c.admission.earned(probes[|probes| - 1].now) - c.admission.earned(probes[i].now))
  }

  ghost predicate StaysWithinRate(c: Config) {
    forall probes: seq<Probe>, i: nat :: i < |probes| && InOrder(probes, Now()) ==> WithinRate(c, probes, i)
  }

  lemma ExceedsRate(c: Config, burst: nat, rate: real, probes: seq<Probe>)
    requires WholeBurst(c, burst) && TokenBucket.Constant(c.admission, rate) && rate * c.banFor < burst as real
    requires |probes| > 0 && probes[0].now == 0.0 && probes[|probes| - 1].now == c.banFor
    requires RecordedSince(c, probes, 0) == (burst + burst) as real
    ensures !WithinRate(c, probes, 0)
  {
    assert c.admission.earned(c.banFor) - c.admission.earned(0.0) == rate * (c.banFor - 0.0);
  }

  /** A run that exceeds the bound, for every configuration whose ban earns less than the burst. */
  lemma FloodExceeds(c: Config, burst: nat, rate: real)
    requires WholeBurst(c, burst) && TokenBucket.Constant(c.admission, rate) && rate * c.banFor < burst as real
    ensures var probes := Flood(c, burst); |probes| > 0 && InOrder(probes, Now()) && !WithinRate(c, probes, 0)
  {
    FloodTimes(c, burst);
    FloodRecords(c, burst);
    ExceedsRate(c, burst, rate, Flood(c, burst));
  }

  lemma RefillingStays(c: Config)
    requires Sensible(c) && BanRefills(c)
    ensures StaysWithinRate(c)
  {
    forall probes: seq<Probe>, i: nat | i < |probes| && InOrder(probes, Now()) ensures WithinRate(c, probes, i) {
      OwnRecordedWithinRate(c, probes, i);
    }
  }

  /** The bound holds in every run exactly when a ban earns at least the burst. */
  lemma StaysWithinRateExactly(c: Config, burst: nat, rate: real)
    requires Sensible(c) && WholeBurst(c, burst) && TokenBucket.Constant(c.admission, rate)
    ensures StaysWithinRate(c) <==> rate * c.banFor >= burst as real
  {
    if rate * c.banFor >= burst as real {
      WhenBanRefills(c, rate);
      RefillingStays(c);
    } else {
      FloodExceeds(c, burst, rate);
    }
  }

  /** The design's defaults: a 60 s window, 100 ports, 10 probes a second with a burst of 20, a 5 minute ban. */
  function Defaults(): Config {
    Config(60.0, 100, TokenBucket.PerSecond(10.0, 20.0), 300.0)
  }

  lemma DefaultsFit()
    ensures Sensible(Defaults()) && BanRefills(Defaults())
    ensures var c := Defaults();
      && c.window == 60.0 && c.threshold == 100 && c.banFor == 300.0
      && c.admission.burst == 20.0 && TokenBucket.Constant(c.admission, 10.0)
  {
    TokenBucket.PerSecondIsProper(10.0, 20.0);
    TokenBucket.PerSecondIsConstant(10.0, 20.0);
    WhenBanRefills(Defaults(), 10.0);
  }

  // --- blacklisting agrees with history ------------------------------------

  /** An unpruned account of a source: its ban, and all its out-of-room probes since the last one. */
  datatype Ledger = Ledger(until: Option<real>, seen: seq<Probe>)

  /** The distinct ports probed inside the trailing window. */
  function WindowPorts(c: Config, seen: seq<Probe>, now: real): set<int> {
    set p | p in seen && now - p.now <= c.window :: p.port
  }

  /** What the port accounting needs of a configuration; its bucket is not involved. */
  predicate Accounts(c: Config) {
    c.window >= 0.0 && c.threshold >= 1
  }

  datatype Alarm = Inside | Quiet | Raised(ports: int)

  /** The rule of the design: a probe outside a ban raises the alarm, once, when the distinct ports in the window
      since the last ban reach the threshold; the report names exactly the threshold. */
  function Audit(c: Config): Machine<Ledger, Probe, Alarm> {
    (g: Ledger, p: Probe) =>
      if g.until.Some? && p.now < g.until.value then Out(g, Inside)
      else
        var seen := (if g.until.Some? then [] else g.seen) + [p];
        if |WindowPorts(c, seen, p.now)| >= c.threshold
        then Out(Ledger(Some(p.now + c.banFor), []), Raised(c.threshold))
        else Out(Ledger(None, seen), Quiet)
  }

  function AlarmOf(v: Verdict): Alarm {
    if v.anomaly.Some? then Raised(v.anomaly.value) else if v.disposition == Blacklisted then Inside else Quiet
  }

  /** The pruned port map stands for the probes seen so far. */
  ghost predicate Mirrors(c: Config, ports: map<int, real>, seen: seq<Probe>, t: real) {
    && |ports| < c.threshold
    && (forall q :: q in seen ==> q.now <= t)
    && (forall port :: port in ports ==> exists q :: q in seen && q.port == port && q.now == ports[port])
    && (forall q :: q in seen && t - q.now <= c.window ==> q.port in ports)
    && (forall q :: q in seen && q.port in ports ==> q.now <= ports[q.port])
  }

  ghost predicate LedgerAgrees(c: Config, l: Local, g: Ledger, t: real) {
    || (l.until == g.until && (if l.until.Some? then l == Banned(l.until.value) else Mirrors(c, l.ports, g.seen, t)))
    || (l == Clean() && g.until.Some? && g.until.value <= t)
  }

  /** Every port left after pruning has its latest probe on record. */
  lemma PrunedIsSeen(c: Config, ports: map<int, real>, seen: seq<Probe>, t: real, p: Probe, port: int) returns (q: Probe)
    requires Mirrors(c, ports, seen, t) && port in Pruned(c, ports[p.port := p.now], p.now)
    ensures q in seen + [p] && q.port == port && q.now == Pruned(c, ports[p.port := p.now], p.now)[port]
  {
    if port == p.port {
      q := p;
    } else {
      q :| q in seen && q.port == port && q.now == ports[port];
    }
  }

  lemma PrunedIsWindow(c: Config, ports: map<int, real>, seen: seq<Probe>, t: real, p: Probe)
    requires Accounts(c) && Mirrors(c, ports, seen, t) && t <= p.now
    ensures Pruned(c, ports[p.port := p.now], p.now).Keys == WindowPorts(c, seen + [p], p.now)
  {
    forall port | port in Pruned(c, ports[p.port := p.now], p.now) ensures port in WindowPorts(c, seen + [p], p.now) {
      var q := PrunedIsSeen(c, ports, seen, t, p, port);
    }
  }

  lemma MirrorsNext(c: Config, ports: map<int, real>, seen: seq<Probe>, t: real, p: Probe)
    requires Accounts(c) && Mirrors(c, ports, seen, t) && t <= p.now
    requires |Pruned(c, ports[p.port := p.now], p.now)| < c.threshold
    ensures Mirrors(c, Pruned(c, ports[p.port := p.now], p.now), seen + [p], p.now)
  {
    PrunedIsWindow(c, ports, seen, t, p);
    var next, seen' := Pruned(c, ports[p.port := p.now], p.now), seen + [p];
    forall port | port in next ensures exists q :: q in seen' && q.port == port && q.now == next[port] {
      var q := PrunedIsSeen(c, ports, seen, t, p, port);
    }
    forall q | q in seen'
      ensures q.now <= p.now && (p.now - q.now <= c.window ==> q.port in next) && (q.port in next ==> q.now <= next[q.port])
    {
      assert q in seen || q == p;
      assert p.now - q.now <= c.window ==> q.port in WindowPorts(c, seen', p.now);
    }
  }

  lemma PrunedCount(c: Config, ports: map<int, real>, p: Probe)
    ensures |Pruned(c, ports[p.port := p.now], p.now)| <= |ports| + 1
  {
    var next := Pruned(c, ports[p.port := p.now], p.now);
    assert next.Keys <= ports.Keys + {p.port};
    Shortlist.SubsetCount(next.Keys, ports.Keys + {p.port});
    assert |next.Keys| == |next| && |ports.Keys| == |ports|;
  }

  lemma JudgeAgrees(c: Config, l: Local, seen: seq<Probe>, t: real, p: Probe)
    requires Accounts(c) && l.until == None && Mirrors(c, l.ports, seen, t) && t <= p.now
    ensures var o := Judge(c, l, p);
      if |WindowPorts(c, seen + [p], p.now)| >= c.threshold
      then o == Out(Banned(p.now + c.banFor), Verdict(Blacklisted, Some(c.threshold)))
      else o.state.until == None && Mirrors(c, o.state.ports, seen + [p], p.now) && AlarmOf(o.verdict) == Quiet
  {
    var next := Pruned(c, l.ports[p.port := p.now], p.now);
    PrunedIsWindow(c, l.ports, seen, t, p);
    PrunedCount(c, l.ports, p);
    assert |next.Keys| == |next|;
    if |next| < c.threshold {
      MirrorsNext(c, l.ports, seen, t, p);
    }
  }

  lemma LedgerStep(c: Config, l: Local, g: Ledger, t: real, p: Probe)
    requires Accounts(c) && LedgerAgrees(c, l, g, t) && t <= p.now
    ensures var o, a := Step(c, l, p), Audit(c)(g, p);
      if p.sameRoom then LedgerAgrees(c, o.state, g, p.now)
      else LedgerAgrees(c, o.state, a.state, p.now) && AlarmOf(o.verdict) == a.verdict
  {
    if !InBan(l, p.now) && !p.sameRoom {
      JudgeAgrees(c, Expired(l), if g.until.Some? then [] else g.seen, t, p);
    }
  }

  lemma LedgerLater(c: Config, l: Local, g: Ledger, t: real, later: real)
    requires LedgerAgrees(c, l, g, t) && t <= later
    ensures LedgerAgrees(c, l, g, later)
  {
  }

  /** Over any run of all sources, each source is blacklisted and reported exactly when the unpruned account of its
      own out-of-room probes says so. */
  lemma BlacklistingMatchesHistory(c: Config, events: seq<Event>, source: string)
    requires Accounts(c) && InOrder(events, EventNow())
    ensures SelectedLog(WorldScan(c), map[], events, (e: Event, _) => Matters(e, source), v => AlarmOf(v))
      == Log(Audit(c), Ledger(None, []), Kept(events, source))
  {
    var m, n, now := WorldScan(c), Audit(c), EventNow();
    var keep, proj, view := (e: Event, v: Verdict) => Matters(e, source), (e: Event) => e.probe, (v: Verdict) => AlarmOf(v);
    var rel := (w: World, g: Ledger, t: real) => LedgerAgrees(c, Of(w, source), g, t);
    forall w, g, t, e ensures StepsAgree(m, n, keep, proj, view, rel, now, w, g, t, e) {
      if rel(w, g, t) && t <= now(e) {
        if e.source == source {
          LedgerStep(c, Of(w, source), g, t, e.probe);
        } else {
          LedgerLater(c, Of(w, source), g, t, now(e));
        }
      }
    }
    if events != [] {
      assert Of(map[], source) == Clean() && LedgerAgrees(c, Clean(), Ledger(None, []), now(events[0]));
      Simulation(m, n, keep, proj, view, rel, now, map[], Ledger(None, []), events,
                 now(events[0]), now(events[|events| - 1]));
    }
    KeptIsSelected(m, map[], events, source);
  }

  // --- every disposition from history --------------------------------------

  /** What each probe since the last ban asks of the bucket. */
  function Demands(seen: seq<Probe>): seq<TokenBucket.Request> {
    seq(|seen|, i requires 0 <= i < |seen| => TokenBucket.Request(seen[i].now, 1.0))
  }

  /** A ban of the account is running. */
  predicate Serving(g: Ledger, now: real) {
    g.until.Some? && now < g.until.value
  }

  /** The out-of-room probes since the last ban, the given one included. */
  function SeenWith(g: Ledger, p: Probe): seq<Probe> {
    (if g.until.Some? then [] else g.seen) + [p]
  }

  /** What a probe deserves by the account of its source: nothing but a running ban refuses a probe from the same room,
      which is exempt; another probe bans if its ports reach the threshold, and is else recorded if a bucket that has
      seen the probes since the last ban grants it. */
  function Ruling(c: Config, g: Ledger, p: Probe): Verdict
    requires Accounts(c)
  {
    if Serving(g, p.now) then Verdict(Blacklisted, None)
    else if p.sameRoom then Verdict(Exempt, None)
    else
      var seen := SeenWith(g, p);
      if |WindowPorts(c, seen, p.now)| >= c.threshold then Verdict(Blacklisted, Some(c.threshold))
      else
        Verdict(if TokenBucket.Granted(c.admission, Demands(seen), |seen| - 1) then Recorded else RateLimited, None)
  }

  /** The state kept agrees with the account, and its bucket with the probes since the last ban. */
  ghost predicate AccountAgrees(c: Config, l: Local, g: Ledger, t: real) {
    && LedgerAgrees(c, l, g, t)
    && (l.until.None? && g.until.None? ==> l.bucket == TokenBucket.Run(c.admission, Demands(g.seen)))
  }

  lemma BucketOfMore(p: TokenBucket.Rate, seen: seq<Probe>, q: Probe)
    ensures TokenBucket.Run(p, Demands(seen + [q])) == TokenBucket.After(p, TokenBucket.Run(p, Demands(seen)), 1.0, q.now)
    ensures TokenBucket.Granted(p, Demands(seen + [q]), |seen|)
      == TokenBucket.Grants(p, TokenBucket.Run(p, Demands(seen)), 1.0, q.now)
  {
    var all := Demands(seen + [q]);
    assert all[..|seen|] == Demands(seen) && all[|seen|] == TokenBucket.Request(q.now, 1.0);
  }

  lemma RulingStep(c: Config, l: Local, g: Ledger, t: real, p: Probe)
    requires Accounts(c) && AccountAgrees(c, l, g, t) && t <= p.now
    ensures Step(c, l, p).verdict == Ruling(c, g, p)
    ensures AccountAgrees(c, Step(c, l, p).state, if p.sameRoom then g else Audit(c)(g, p).state, p.now)
  {
    LedgerStep(c, l, g, t, p);
    if !Serving(g, p.now) && !p.sameRoom {
      var seen := if g.until.Some? then [] else g.seen;
      assert Demands([]) == [];
      assert Expired(l).bucket == TokenBucket.Run(c.admission, Demands(seen));
      JudgeAgrees(c, Expired(l), seen, t, p);
      BucketOfMore(c.admission, seen, p);
    }
  }

  lemma AccountLater(c: Config, l: Local, g: Ledger, t: real, later: real)
    requires AccountAgrees(c, l, g, t) && t <= later
    ensures AccountAgrees(c, l, g, later)
  {
    LedgerLater(c, l, g, t, later);
  }

  /** The account of a source after a run of all sources: the out-of-room probes of that source, audited. */
  function AccountOf(c: Config, events: seq<Event>, source: string): Ledger {
    End(Audit(c), Ledger(None, []), Kept(events, source))
  }

  lemma {:induction false} RunAgrees(c: Config, events: seq<Event>, source: string, end: real)
    requires Accounts(c) && InOrder(events, EventNow()) && (events != [] ==> events[|events| - 1].probe.now <= end)
    ensures AccountAgrees(c, Of(End(WorldScan(c), map[], events), source), AccountOf(c, events, source), end)
  {
    var m, n, now := WorldScan(c), Audit(c), EventNow();
    var keep, proj, view := (e: Event, v: Verdict) => Matters(e, source), (e: Event) => e.probe, (v: Verdict) => AlarmOf(v);
    var rel := (w: World, g: Ledger, t: real) => AccountAgrees(c, Of(w, source), g, t);
    forall w, g, t, e ensures StepsAgree(m, n, keep, proj, view, rel, now, w, g, t, e) {
      if rel(w, g, t) && t <= now(e) {
        if e.source == source {
          LedgerStep(c, Of(w, source), g, t, e.probe);
          RulingStep(c, Of(w, source), g, t, e.probe);
        } else {
          AccountLater(c, Of(w, source), g, t, now(e));
        }
      }
    }
    var start := if events == [] then end else now(events[0]);
    var last := if events == [] then start else now(events[|events| - 1]);
    assert Demands([]) == [];
    assert Of(map[], source) == Clean() && AccountAgrees(c, Clean(), Ledger(None, []), start);
    Simulation(m, n, keep, proj, view, rel, now, map[], Ledger(None, []), events, start, last);
    KeptIsSelected(m, map[], events, source);
    AccountLater(c, Of(End(m, map[], events), source), AccountOf(c, events, source), last, end);
  }

  /** In every run of all sources, each event gets exactly what the account of its source rules. */
  lemma EveryRuling(c: Config, events: seq<Event>, i: nat)
    requires Accounts(c) && InOrder(events, EventNow()) && i < |events|
    ensures Log(WorldScan(c), map[], events)[i]
      == Ruling(c, AccountOf(c, events[..i], events[i].source), events[i].probe)
  {
    var e, past := events[i], events[..i];
    var end := if past == [] then e.probe.now else past[|past| - 1].probe.now;
    RunAgrees(c, past, e.source, end);
    var w := End(WorldScan(c), map[], past);
    RulingStep(c, Of(w, e.source), AccountOf(c, past, e.source), end, e.probe);
    LogAt(WorldScan(c), map[], events, i);
  }

  /** A verdict follows the account: exempt exactly from the same room without a running ban; blacklisted exactly in a
      running ban or, out of room, when the ports reach the threshold; else recorded or limited as the bucket says. */
  ghost predicate Deserved(c: Config, v: Verdict, g: Ledger, p: Probe) {
    var seen := SeenWith(g, p);
    var banned := Serving(g, p.now) || (!p.sameRoom && |WindowPorts(c, seen, p.now)| >= c.threshold);
    && (v.disposition == Exempt <==> p.sameRoom && !Serving(g, p.now))
    && (v.disposition == Blacklisted <==> banned)
    && (v.disposition == Recorded <==>
          !p.sameRoom && !banned && TokenBucket.Granted(c.admission, Demands(seen), |seen| - 1))
    && (v.anomaly.Some? <==> banned && !Serving(g, p.now)) && (v.anomaly.Some? ==> v.anomaly.value == c.threshold)
  }

  lemma RulingIsDeserved(c: Config, g: Ledger, p: Probe)
    requires Accounts(c)
    ensures Deserved(c, Ruling(c, g, p), g, p)
  {
  }

  /** In every run of all sources, every event gets what the account of its source deserves. */
  lemma EveryDisposition(c: Config, events: seq<Event>, i: nat, g: Ledger)
    requires Accounts(c) && InOrder(events, EventNow()) && i < |events| && g == AccountOf(c, events[..i], events[i].source)
    ensures Deserved(c, Log(WorldScan(c), map[], events)[i], g, events[i].probe)
  {
    EveryRuling(c, events, i);
    RulingIsDeserved(c, g, events[i].probe);
  }
}
