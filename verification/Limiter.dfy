/** The per-key request limiter of internal/api/support.go. */
module Limiter {
  import opened Options
  import TokenBucket

  class RequestLimiter {
    const rate: real
    const burst: real
    var tokens: real
    var last: Option<real>

    ghost predicate Valid()
      reads this
    {
      last.None? ==> tokens == burst
    }

    function State(): TokenBucket.State
      reads this
    {
      if last.None? then TokenBucket.Fresh else TokenBucket.Live(tokens, last.value)
    }

    /** Permits per minute and a burst; 5 a minute by default, and a burst of one minute. */
    constructor (ratePerMinute: int, burst: int)
      ensures Valid() && State() == TokenBucket.Fresh
      ensures var perMinute := if ratePerMinute <= 0 then 5 else ratePerMinute;
        rate == perMinute as real / 60.0 && this.burst == (if burst <= 0 then perMinute else burst) as real
    {
      var perMinute := if ratePerMinute <= 0 then 5 else ratePerMinute;
      var most := (if burst <= 0 then perMinute else burst) as real;
      rate, this.burst, tokens, last := perMinute as real / 60.0, most, most, None;
    }

    /** Follows the abstract bucket with requests of one token. */
    method Allow(now: real) returns (ok: bool)
      requires Valid()
      modifies this
      ensures Valid()
      ensures var p := TokenBucket.PerSecond(rate, burst);
        ok == TokenBucket.Grants(p, old(State()), 1.0, now) && State() == TokenBucket.After(p, old(State()), 1.0, now)
    {
      if last.None? {
        last := Some(now);
      }
      var elapsed := now - last.value;
      assert elapsed * rate == now * rate - last.value * rate;
      tokens := tokens + elapsed * rate;
      if tokens > burst {
        tokens := burst;
      }
      last := Some(now);
      if tokens < 1.0 {
        return false;
      }
      tokens := tokens - 1.0;
      return true;
    }
  }
}
