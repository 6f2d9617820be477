/** The scanner as the program keeps it: three maps keyed by source, updated probe by probe. */
module Scanner {
  import opened Options
  import opened ScanModel
  import TokenBucket

  /** The per-source bucket of the scanner. */
  class ProbeBucket {
    const rate: real
    const burst: real
    var tokens: real
    var last: real

    function State(): TokenBucket.State
      reads this
    {
      TokenBucket.Live(tokens, last)
    }

    constructor (rate: real, burst: real, now: real)
      ensures this.rate == rate && this.burst == burst && State() == TokenBucket.Live(burst, now)
    {
      this.rate, this.burst, tokens, last := rate, burst, burst, now;
    }

    method Take(now: real) returns (ok: bool)
      modifies this
      ensures var p := TokenBucket.PerSecond(rate, burst);
        ok == TokenBucket.Grants(p, old(State()), 1.0, now) && State() == TokenBucket.After(p, old(State()), 1.0, now)
    {
      var elapsed := now - last;
      assert elapsed * rate == now * rate - last * rate;
      tokens := tokens + elapsed * rate;
      if tokens > burst {
        tokens := burst;
      }
      last := now;
      if tokens < 1.0 {
        return false;
      }
      tokens := tokens - 1.0;
      return true;
    }
  }

  /** Ranging over a map visits its keys in no particular order. */
  method Any<T>(keys: set<T>) returns (k: T)
    requires keys != {}
    ensures k in keys
  {
    k :| k in keys;
  }

  /** One call of the anomaly callback. */
  datatype Report = Report(source: string, ports: nat)

  class Scanner {
    const window: real
    const threshold: int
    const rate: real
    const burst: real
    const banFor: real
    /** Whether an anomaly callback is set; its calls are logged in `reports`. */
    const reporting: bool
    var blacklist: map<string, real>
    var ports: map<string, map<int, real>>
    var buckets: map<string, ProbeBucket>
    var reports: seq<Report>

    function Cfg(): Config {
      Config(window, threshold, TokenBucket.PerSecond(rate, burst), banFor)
    }

    ghost predicate Valid()
      reads this, buckets.Values
    {
      && (forall s :: s in buckets ==> buckets[s].rate == rate && buckets[s].burst == burst)
      && (forall s, s' :: s in buckets && s' in buckets && s != s' ==> buckets[s] != buckets[s'])
    }

    /** What the three maps say about one source. */
    function Of(source: string): Local
      reads this, buckets.Values
    {
      Local(if source in blacklist then Some(blacklist[source]) else None,
            if source in ports then ports[source] else map[],
            if source in buckets then buckets[source].State() else TokenBucket.Fresh)
    }

    constructor (window: real, threshold: int, rate: real, burst: real, banFor: real, reporting: bool)
      ensures Valid() && reports == [] && buckets == map[]
      ensures this.reporting == reporting && Cfg() == Config(window, threshold, TokenBucket.PerSecond(rate, burst), banFor)
      ensures forall s :: Of(s) == Clean()
    {
      this.window, this.threshold, this.rate, this.burst, this.banFor := window, threshold, rate, burst, banFor;
      this.reporting := reporting;
      blacklist, ports, buckets, reports := map[], map[], map[], [];
    }

    /** The pruning loop over a source's ports. */
    method Prune(ports: map<int, real>, now: real) returns (kept: map<int, real>)
      ensures kept == Pruned(Cfg(), ports, now)
    {
      kept := ports;
      var todo := ports.Keys;
      while todo != {}
        invariant todo <= ports.Keys
        invariant kept == map p | p in ports && (p in todo || now - ports[p] <= window) :: ports[p]
        decreases |todo|
      {
        var p := Any(todo);
        if now - kept[p] > window {
          kept := kept - {p};
        }
        todo := todo - {p};
      }
    }

    /** Lazily ends a ban that has run out. */
    method Expire(source: string, now: real) returns (banned: bool)
      requires Valid()
      modifies this`blacklist, this`ports, this`buckets
      ensures Valid() && buckets.Values <= old(buckets.Values)
      ensures banned == InBan(old(Of(source)), now)
      ensures Of(source) == if banned then old(Of(source)) else Expired(old(Of(source)))
      ensures forall s :: s != source ==> Of(s) == old(Of(s))
    {
      if source in blacklist {
        if now < blacklist[source] {
          return true;
        }
        blacklist, ports, buckets := blacklist - {source}, ports - {source}, buckets - {source};
      }
      return false;
    }

    /** Blacklists a source, forgets everything else about it and reports it. */
    method Ban(source: string, now: real, count: nat)
      requires Valid()
      modifies this
      ensures Valid() && Of(source) == Banned(now + banFor)
      ensures reports == if reporting then old(reports) + [Report(source, count)] else old(reports)
      ensures forall s :: s != source ==> Of(s) == old(Of(s))
    {
      blacklist, ports, buckets := blacklist[source := now + banFor], ports - {source}, buckets - {source};
      if reporting {
        reports := reports + [Report(source, count)];
      }
    }

    method Remember(source: string, seen: map<int, real>)
      requires Valid()
      modifies this`ports
      ensures Valid() && Of(source) == Local(old(Of(source)).until, seen, old(Of(source)).bucket)
      ensures forall s :: s != source ==> Of(s) == old(Of(s))
    {
      ports := ports[source := seen];
    }

    /** Takes one token from the source's bucket, which is created full on first use. */
    method Admit(source: string, now: real) returns (ok: bool)
      requires Valid()
      modifies this`buckets, buckets.Values
      ensures Valid()
      ensures var l := old(Of(source));
        && ok == TokenBucket.Grants(Cfg().admission, l.bucket, 1.0, now)
        && Of(source) == Local(l.until, l.ports, TokenBucket.After(Cfg().admission, l.bucket, 1.0, now))
      ensures forall s :: s != source ==> Of(s) == old(Of(s))
    {
      if source !in buckets {
        var b := new ProbeBucket(rate, burst, now);
        buckets := buckets[source := b];
      }
      ok := buckets[source].Take(now);
    }

    /** Keeps the ports seen and asks the bucket. */
    method Limit(source: string, seen: map<int, real>, now: real) returns (d: Disposition)
      requires Valid() && Of(source).until == None
      modifies this`ports, this`buckets, buckets.Values
      ensures Valid()
      ensures var bucket := old(Of(source)).bucket;
        && Of(source) == Local(None, seen, TokenBucket.After(Cfg().admission, bucket, 1.0, now))
        && d == if TokenBucket.Grants(Cfg().admission, bucket, 1.0, now) then Recorded else RateLimited
      ensures forall s :: s != source ==> Of(s) == old(Of(s))
    {
      Remember(source, seen);
      var ok := Admit(source, now);
      return if ok then Recorded else RateLimited;
    }

    /** Counts the port of an out-of-room probe, then bans the source or asks its bucket. */
    method Account(source: string, port: int, now: real) returns (d: Disposition)
      requires Valid() && Of(source).until == None
      modifies this, buckets.Values
      ensures Valid()
      ensures var o := Judge(Cfg(), old(Of(source)), ScanModel.Probe(port, false, now));
        && Of(source) == o.state && d == o.verdict.disposition
        && reports == old(reports)
                      + if o.verdict.anomaly.Some? && reporting then [Report(source, o.verdict.anomaly.value)] else []
      ensures forall s :: s != source ==> Of(s) == old(Of(s))
    {
      var seen := if source in ports then ports[source] else map[];
      seen := Prune(seen[port := now], now);
      if |seen| >= threshold {
        Ban(source, now, |seen|);
        return Blacklisted;
      }
      d := Limit(source, seen, now);
    }

    /** Judges one probe to an unconfigured port. Only the probing source's state changes. */
    method Probe(source: string, port: int, sameRoom: bool, now: real) returns (d: Disposition)
      requires Valid()
      modifies this, buckets.Values
      ensures Valid()
      ensures var o := Step(Cfg(), old(Of(source)), ScanModel.Probe(port, sameRoom, now));
        && Of(source) == o.state && d == o.verdict.disposition
        && reports == old(reports)
                      + if o.verdict.anomaly.Some? && reporting then [Report(source, o.verdict.anomaly.value)] else []
      ensures forall s :: s != source ==> Of(s) == old(Of(s))
    {
      var banned := Expire(source, now);
      if banned {
        return Blacklisted;
      }
      if sameRoom {
        return Exempt;
      }
      d := Account(source, port, now);
    }
  }
}
