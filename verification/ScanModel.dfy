/** The scan defence of internal/portcontrol/scan.go as one machine per source, and how long its bans last. */
module ScanModel {
  import opened Options
  import opened Runs
  import TokenBucket

  /** Accounting window, distinct-port threshold, probe admission and ban length. Times are in seconds. */
  datatype Config = Config(window: real, threshold: int, admission: TokenBucket.Rate, banFor: real)

  ghost predicate Sensible(c: Config) {
    c.window >= 0.0 && c.threshold >= 1 && c.banFor >= 0.0 && TokenBucket.Proper(c.admission)
  }

  /** Everything kept about one source: its ban, its probed ports with their last times, and its bucket. */
  datatype Local = Local(until: Option<real>, ports: map<int, real>, bucket: TokenBucket.State)

  function Clean(): Local {
    Local(None, map[], TokenBucket.Fresh)
  }

  function Banned(until: real): Local {
    Local(Some(until), map[], TokenBucket.Fresh)
  }

  datatype Disposition = Exempt | Recorded | RateLimited | Blacklisted

  /** What a probe gets, with the port count reported if it set off an anomaly. */
  datatype Verdict = Verdict(disposition: Disposition, anomaly: Option<nat>)

  datatype Probe = Probe(port: int, sameRoom: bool, now: real)

  function Pruned(c: Config, ports: map<int, real>, now: real): map<int, real> {
    map p | p in ports && now - ports[p] <= c.window :: ports[p]
  }

  predicate InBan(l: Local, now: real) {
    l.until.Some? && now < l.until.value
  }

  /** The state a probe outside a ban starts from: an expired ban leaves nothing behind. */
  function Expired(l: Local): Local {
    if l.until.Some? then Clean() else l
  }

  function Step(c: Config, l: Local, p: Probe): Out<Local, Verdict> {
    if InBan(l, p.now) then Out(l, Verdict(Blacklisted, None))
    else if p.sameRoom then Out(Expired(l), Verdict(Exempt, None))
    else Judge(c, Expired(l), p)
  }

  /** Counts the port; bans the source if the window holds too many, and otherwise asks its bucket. */
  function Judge(c: Config, l: Local, p: Probe): Out<Local, Verdict> {
    var ports := Pruned(c, l.ports[p.port := p.now], p.now);
    if |ports| >= c.threshold then Out(Banned(p.now + c.banFor), Verdict(Blacklisted, Some(|ports|)))
    else
      Out(Local(None, ports, TokenBucket.After(c.admission, l.bucket, 1.0, p.now)),
          Verdict(if TokenBucket.Grants(c.admission, l.bucket, 1.0, p.now) then Recorded else RateLimited, None))
  }

  /** The defence against one source as a machine. */
  function Scan(c: Config): Machine<Local, Probe, Verdict> {
    (l, p) => Step(c, l, p)
  }

  function Now(): Probe -> real {
    (p: Probe) => p.now
  }

  // --- bans ----------------------------------------------------------------

  /** A reported anomaly starts a ban of exactly `banFor` and leaves nothing else behind. */
  lemma AnomalyBans(c: Config, l: Local, p: Probe)
    ensures Step(c, l, p).verdict.anomaly.Some? ==>
      Step(c, l, p).state == Banned(p.now + c.banFor) && !InBan(l, p.now) && !p.sameRoom
  {
  }

  /** The verdicts of `n` probes inside a ban: all dropped, nothing reported. */
  function Dropped(n: nat): seq<Verdict> {
    seq(n, _ => Verdict(Blacklisted, None))
  }

  /** The machine keeps a ban as it is for every probe before its end. */
  ghost predicate HoldsBan(m: Machine<Local, Probe, Verdict>, until: real) {
    forall p: Probe :: p.now < until ==> m(Banned(until), p) == Out(Banned(until), Verdict(Blacklisted, None))
  }

  lemma {:induction false} BanIsNotExtended(m: Machine<Local, Probe, Verdict>, until: real, probes: seq<Probe>)
    requires HoldsBan(m, until) && forall i :: 0 <= i < |probes| ==> probes[i].now < until
    ensures End(m, Banned(until), probes) == Banned(until)
    ensures Log(m, Banned(until), probes) == Dropped(|probes|)
  {
    if probes == [] {
    } else {
      BanIsNotExtended(m, until, probes[..|probes| - 1]);
      assert Dropped(|probes|) == Dropped(|probes| - 1) + [Verdict(Blacklisted, None)];
    }
  }

  /** From its end on, the machine treats a ban as a clean state. */
  ghost predicate ForgetsBan(m: Machine<Local, Probe, Verdict>, until: real) {
    forall p: Probe :: until <= p.now ==> m(Banned(until), p) == m(Clean(), p)
  }

  lemma {:induction false} BanLeavesNoTrace(m: Machine<Local, Probe, Verdict>, until: real, probes: seq<Probe>)
    requires ForgetsBan(m, until) && forall j :: 0 <= j < |probes| ==> until <= probes[j].now
    ensures Log(m, Banned(until), probes) == Log(m, Clean(), probes)
    ensures probes != [] ==> End(m, Banned(until), probes) == End(m, Clean(), probes)
  {
    if probes == [] {
    } else {
      BanLeavesNoTrace(m, until, probes[..|probes| - 1]);
    }
  }

  lemma AfterBan(m: Machine<Local, Probe, Verdict>, l: Local, start: seq<Probe>, until: real, during: seq<Probe>,
                 after: seq<Probe>)
    requires HoldsBan(m, until) && ForgetsBan(m, until) && End(m, l, start) == Banned(until)
    requires forall i :: 0 <= i < |during| ==> during[i].now < until
    requires forall i :: 0 <= i < |after| ==> until <= after[i].now
    ensures Log(m, l, start + during + after) == Log(m, l, start) + Dropped(|during|) + Log(m, Clean(), after)
  {
    Concat(m, l, start + during, after);
    Concat(m, l, start, during);
    BanIsNotExtended(m, until, during);
    BanLeavesNoTrace(m, until, after);
  }

  lemma TriggerBans(c: Config, l: Local, start: seq<Probe>)
    requires start != [] && Log(Scan(c), l, start)[|start| - 1].anomaly.Some?
    ensures End(Scan(c), l, start) == Banned(start[|start| - 1].now + c.banFor)
  {
    AnomalyBans(c, End(Scan(c), l, start[..|start| - 1]), start[|start| - 1]);
  }

  /** A blacklisting at the end of any run lasts exactly `banFor`: the probes before its end are all dropped
      and report nothing, and the probes after it get what they would get from a fresh scanner. */
  lemma BanLastsExactly(c: Config, start: seq<Probe>, during: seq<Probe>, after: seq<Probe>, until: real)
    requires start != [] && Log(Scan(c), Clean(), start)[|start| - 1].anomaly.Some?
    requires until == start[|start| - 1].now + c.banFor
    requires forall i :: 0 <= i < |during| ==> during[i].now < until
    requires forall i :: 0 <= i < |after| ==> until <= after[i].now
    ensures Log(Scan(c), Clean(), start + during + after)
      == Log(Scan(c), Clean(), start) + Dropped(|during|) + Log(Scan(c), Clean(), after)
  {
    TriggerBans(c, Clean(), start);
    AfterBan(Scan(c), Clean(), start, until, during, after);
  }
}
