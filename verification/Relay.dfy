/** The relay hub as the program keeps it: a table of sinks and a byte bucket, changed by each call. */
module Relay {
  import opened Options
  import opened RelayModel
  import Runs
  import TokenBucket

  /** Where forwarded packets go; a write may fail after the packet was handed over. */
  class Sink {
    const id: SinkId
    var written: seq<Packet>

    constructor (id: SinkId)
      ensures this.id == id && written == []
    {
      this.id, written := id, [];
    }

    method Write(payload: Packet, fails: bool) returns (ok: bool)
      modifies this
      ensures ok == !fails && written == old(written) + [payload]
    {
      written := written + [payload];
      ok := !fails;
    }
  }

  /** The quota bucket; `last` is absent until the first request. */
  class ByteBucket {
    const rate: real
    const burst: real
    var tokens: real
    var last: Option<real>

    function State(): TokenBucket.State
      reads this
    {
      if last.None? then TokenBucket.Fresh else TokenBucket.Live(tokens, last.value)
    }

    constructor (bytesPerSecond: int)
      ensures rate == burst == bytesPerSecond as real && State() == TokenBucket.Fresh
    {
      rate, burst := bytesPerSecond as real, bytesPerSecond as real;
      tokens, last := bytesPerSecond as real, None;
    }

    method Take(n: nat, now: real) returns (ok: bool)
      modifies this
      ensures var p, size := TokenBucket.PerSecond(rate, burst), n as real;
        ok == TokenBucket.Grants(p, old(State()), size, now) && State() == TokenBucket.After(p, old(State()), size, now)
    {
      if last.None? {
        last := Some(now);
        tokens := burst;
      }
      var elapsed := now - last.value;
      assert elapsed * rate == now * rate - last.value * rate;
      tokens := tokens + elapsed * rate;
      if tokens > burst {
        tokens := burst;
      }
      last := Some(now);
      if tokens < n as real {
        return false;
      }
      tokens := tokens - n as real;
      return true;
    }
  }

  class RelayHub {
    const isRoot: bool
    const quota: ByteBucket?
    var sinks: map<string, Sink>

    function Cfg(): Config {
      Config(isRoot, if quota == null then None else Some(TokenBucket.PerSecond(quota.rate, quota.burst)))
    }

    /** The hub's state as the model sees it. */
    function View(): Hub
      reads this, quota
    {
      Hub(map n | n in sinks :: sinks[n].id, if quota == null then TokenBucket.Fresh else quota.State())
    }

    constructor (isRoot: bool, masterQuota: int)
      ensures Cfg() == Config(isRoot, QuotaOf(masterQuota)) && View() == Idle() && sinks == map[]
      ensures quota != null ==> fresh(quota)
    {
      this.isRoot, sinks := isRoot, map[];
      if masterQuota > 0 {
        quota := new ByteBucket(masterQuota);
      } else {
        quota := null;
      }
    }

    method Register(node: string, sink: Sink?) returns (reply: Reply)
      modifies this
      ensures var call := RelayModel.Register(node, if sink == null then None else Some(sink.id));
        forall now :: Step(Cfg(), old(View()), Event(call, now)) == Runs.Out(View(), reply)
      ensures sinks == if sink != null && !isRoot then old(sinks)[node := sink] else old(sinks)
    {
      if sink == null {
        return NilSink;
      }
      if isRoot {
        return RootNeverRelays;
      }
      sinks := sinks[node := sink];
      assert View().sinks == old(View()).sinks[node := sink.id];
      return Done;
    }

    method Unregister(node: string)
      modifies this
      ensures sinks == old(sinks) - {node}
      ensures forall now :: Step(Cfg(), old(View()), Event(RelayModel.Unregister(node), now)) == Runs.Out(View(), Done)
    {
      sinks := sinks - {node};
      assert View().sinks == old(View()).sinks - {node};
    }

    /** Forwards one packet: only the destination's sink receives it, and only after the quota agreed. */
    method Deliver(to: string, payload: Packet, now: real, sinkFails: bool) returns (reply: Reply)
      modifies quota, if to in sinks then {sinks[to]} else {}
      ensures Step(Cfg(), old(View()), Event(RelayModel.Deliver(to, payload, sinkFails), now)) == Runs.Out(View(), reply)
      ensures reply.Wrote? ==> to in sinks && sinks[to].written == old(sinks[to].written) + [payload]
      ensures !reply.Wrote? && to in sinks ==> sinks[to].written == old(sinks[to].written)
    {
      if isRoot {
        return RootNeverRelays;
      }
      if to !in sinks {
        return NoRoute;
      }
      var sink := sinks[to];
      if quota != null {
        var ok := quota.Take(|payload|, now);
        if !ok {
          return QuotaExceeded;
        }
      }
      var ok := sink.Write(payload, sinkFails);
      return Wrote(sink.id, payload, !ok);
    }
  }
}
