/** The continuous-refill token bucket that the scanner, the relay quota and the API limiter each implement. */
module TokenBucket {
  import opened Runs

  /** The tokens earned up to each moment, and the most that can accumulate. */
  datatype Rate = Rate(earned: real -> real, burst: real)

  /** A constant refill per second. */
  function PerSecond(rate: real, burst: real): Rate {
    Rate(t => t * rate, burst)
  }

  ghost predicate Proper(p: Rate) {
    p.burst >= 0.0 && forall s, t :: s <= t ==> p.earned(s) <= p.earned(t)
  }

  lemma PerSecondIsProper(rate: real, burst: real)
    requires rate >= 0.0 && burst >= 0.0
    ensures Proper(PerSecond(rate, burst))
  {
    var p := PerSecond(rate, burst);
    forall s, t | s <= t ensures p.earned(s) <= p.earned(t) {
      assert (t - s) * rate >= 0.0;
    }
  }

  /** A bucket before its first request, or with what was left at the last one. */
  datatype State = Fresh | Live(tokens: real, last: real)

  function Least(a: real, b: real): real {
    if b < a then b else a
  }

  /** What a request at `now` finds: the refill, capped at the burst. */
  function Available(p: Rate, s: State, now: real): real {
    match s
    case Fresh => p.burst
    case Live(tokens, last) => Least(tokens + (p.earned(now) - p.earned(last)), p.burst)
  }

  predicate Grants(p: Rate, s: State, size: real, now: real) {
    size <= Available(p, s, now)
  }

  function After(p: Rate, s: State, size: real, now: real): State {
    Live(Available(p, s, now) - (if Grants(p, s, size, now) then size else 0.0), now)
  }

  datatype Request = Request(time: real, size: real)

  /** The bucket as a machine that grants or refuses. */
  function Bucket(p: Rate): Machine<State, Request, bool> {
    (s: State, r: Request) => Out(After(p, s, r.size, r.time), Grants(p, s, r.size, r.time))
  }

  /** The state after a run of requests on a fresh bucket. */
  function Run(p: Rate, reqs: seq<Request>): State {
    End(Bucket(p), Fresh, reqs)
  }

  predicate Granted(p: Rate, reqs: seq<Request>, i: nat)
    requires i < |reqs|
  {
    Grants(p, Run(p, reqs[..i]), reqs[i].size, reqs[i].time)
  }

  lemma GrantedLog(p: Rate, reqs: seq<Request>, i: nat)
    requires i < |reqs|
    ensures Log(Bucket(p), Fresh, reqs)[i] == Granted(p, reqs, i)
  {
    LogAt(Bucket(p), Fresh, reqs, i);
  }

  /** The amount granted to requests `i` up to, not including, `j`. */
  function Amount(p: Rate, reqs: seq<Request>, i: nat, j: nat): real
    requires i <= j <= |reqs|
  {
    if i == j then 0.0 else Amount(p, reqs, i, j - 1) + if Granted(p, reqs, j - 1) then reqs[j - 1].size else 0.0
  }

  /** Later requests do not change what earlier ones were granted. */
  lemma {:induction false} AmountPrefix(p: Rate, reqs: seq<Request>, r: Request, i: nat, j: nat)
    requires i <= j <= |reqs|
    ensures Amount(p, reqs + [r], i, j) == Amount(p, reqs, i, j)
  {
    if i < j {
      assert (reqs + [r])[..j - 1] == reqs[..j - 1];
      AmountPrefix(p, reqs, r, i, j - 1);
    }
  }

  ghost predicate InTime(reqs: seq<Request>) {
    forall i, j :: 0 <= i < j < |reqs| ==> reqs[i].time <= reqs[j].time
  }

  /** The room the requests since `j` leave for request `i`. */
  ghost function Room(p: Rate, reqs: seq<Request>, j: nat, i: nat): real
    requires j <= i < |reqs|
  {
    p.burst + (p.earned(reqs[i].time) - p.earned(reqs[j].time)) - Amount(p, reqs, j, i)
  }

  /** What a request finds in terms of what the previous one found. */
  lemma NextAvailable(p: Rate, reqs: seq<Request>, i: nat)
    requires 0 < i < |reqs|
    ensures Available(p, Run(p, reqs[..i]), reqs[i].time)
      == Least(Available(p, Run(p, reqs[..i - 1]), reqs[i - 1].time)
               - (if Granted(p, reqs, i - 1) then reqs[i - 1].size else 0.0)
               + (p.earned(reqs[i].time) - p.earned(reqs[i - 1].time)), p.burst)
  {
    assert reqs[..i][..i - 1] == reqs[..i - 1];
  }

  lemma NextRoom(p: Rate, reqs: seq<Request>, j: nat, i: nat)
    requires j < i < |reqs|
    ensures Room(p, reqs, j, i) == Room(p, reqs, j, i - 1)
      - (if Granted(p, reqs, i - 1) then reqs[i - 1].size else 0.0)
      + (p.earned(reqs[i].time) - p.earned(reqs[i - 1].time))
  {
  }

  /** A request finds exactly the least room left by any earlier point of the run. */
  lemma {:induction false} AvailableIsLeastRoom(p: Rate, reqs: seq<Request>, i: nat) returns (tightest: nat)
    requires i < |reqs|
    ensures tightest <= i && Available(p, Run(p, reqs[..i]), reqs[i].time) == Room(p, reqs, tightest, i)
    ensures forall j :: 0 <= j <= i ==> Available(p, Run(p, reqs[..i]), reqs[i].time) <= Room(p, reqs, j, i)
  {
    if i == 0 {
      tightest := 0;
    } else {
      NextAvailable(p, reqs, i);
      var t := AvailableIsLeastRoom(p, reqs, i - 1);
      forall j | 0 <= j <= i ensures Available(p, Run(p, reqs[..i]), reqs[i].time) <= Room(p, reqs, j, i) {
        if j < i {
          NextRoom(p, reqs, j, i);
        }
      }
      NextRoom(p, reqs, t, i);
      tightest := if Available(p, Run(p, reqs[..i]), reqs[i].time) == p.burst then i else t;
    }
  }

  /** Exact admission: a request is granted just when, seen from every earlier point of the run, the amount granted
      since plus its own size stays within the burst and the refill since. */
  lemma ExactAdmission(p: Rate, reqs: seq<Request>, i: nat)
    requires i < |reqs|
    ensures Granted(p, reqs, i) <==>
      forall j :: 0 <= j <= i ==>
        Amount(p, reqs, j, i) + reqs[i].size <= p.burst + (p.earned(reqs[i].time) - p.earned(reqs[j].time))
  {
    var t := AvailableIsLeastRoom(p, reqs, i);
    var found := Available(p, Run(p, reqs[..i]), reqs[i].time);
    forall j | 0 <= j <= i
      ensures found <= Room(p, reqs, j, i)
        && (Amount(p, reqs, j, i) + reqs[i].size <= p.burst + (p.earned(reqs[i].time) - p.earned(reqs[j].time))
            <==> reqs[i].size <= Room(p, reqs, j, i))
    {
    }
  }

  /** In any stretch of a run, what is granted stays within the burst and the refill of the stretch. */
  lemma {:induction false} IntervalBound(p: Rate, reqs: seq<Request>, i: nat, k: nat)
    requires Proper(p) && InTime(reqs) && i <= k < |reqs|
    ensures Amount(p, reqs, i, k + 1) <= p.burst + (p.earned(reqs[k].time) - p.earned(reqs[i].time))
  {
    if Granted(p, reqs, k) {
      ExactAdmission(p, reqs, k);
    } else if i < k {
      IntervalBound(p, reqs, i, k - 1);
    }
  }

  /** A full bucket behaves as a fresh one from then on. */
  lemma FullIsFresh(p: Rate, created: real, now: real)
    requires Proper(p) && created <= now
    ensures Available(p, Live(p.burst, created), now) == Available(p, Fresh, now)
  {
  }

  /** The refill is constant: `rate` tokens a second. */
  ghost predicate Constant(p: Rate, rate: real) {
    forall s, t :: p.earned(t) - p.earned(s) == rate * (t - s)
  }

  lemma PerSecondIsConstant(rate: real, burst: real)
    ensures Constant(PerSecond(rate, burst), rate)
  {
  }

  /** Exact admission at a constant rate. */
  lemma ExactAdmissionPerSecond(p: Rate, rate: real, reqs: seq<Request>, i: nat)
    requires i < |reqs| && Constant(p, rate)
    ensures Granted(p, reqs, i) <==>
      forall j :: 0 <= j <= i ==>
        Amount(p, reqs, j, i) + reqs[i].size <= p.burst + rate * (reqs[i].time - reqs[j].time)
  {
    ExactAdmission(p, reqs, i);
    forall j | 0 <= j <= i
      ensures p.earned(reqs[i].time) - p.earned(reqs[j].time) == rate * (reqs[i].time - reqs[j].time)
    {
    }
  }

  // --- machines that draw from a bucket ------------------------------------

  /** How a machine draws from a bucket: which inputs ask it, for what, and which verdicts mean a grant. */
  datatype Meter<!P, !V> = Meter(asks: (P, V) -> bool, request: P -> Request, granted: V -> bool)

  /** The requests a run makes of the bucket. */
  function Requests<S, P, V>(m: Machine<S, P, V>, s: S, ps: seq<P>, d: Meter<P, V>): seq<Request> {
    Selected(m, s, ps, d.asks, d.request)
  }

  /** The run was metered by one bucket from start to end: its grants are that bucket's grants. */
  ghost predicate Metered<S, P, V>(m: Machine<S, P, V>, s: S, ps: seq<P>, d: Meter<P, V>, p: Rate) {
    SelectedLog(m, s, ps, d.asks, d.granted) == Log(Bucket(p), Fresh, Requests(m, s, ps, d))
  }

  /** The amount granted to the inputs of a run from index `i` on. */
  function DrawnSince<S, P, V>(m: Machine<S, P, V>, s: S, ps: seq<P>, d: Meter<P, V>, i: nat): real
    requires i <= |ps|
  {
    if i == |ps| then 0.0
    else
      var front, last := ps[..|ps| - 1], ps[|ps| - 1];
      var v := m(End(m, s, front), last).verdict;
      DrawnSince(m, s, front, d, i) + if d.asks(last, v) && d.granted(v) then d.request(last).size else 0.0
  }

  /** What a run draws is what its two parts draw. */
  lemma {:induction false} DrawnConcat<S, P, V>(m: Machine<S, P, V>, s: S, a: seq<P>, b: seq<P>, d: Meter<P, V>)
    ensures DrawnSince(m, s, a + b, d, 0) == DrawnSince(m, s, a, d, 0) + DrawnSince(m, End(m, s, a), b, d, 0)
  {
    if b == [] {
      assert a + b == a;
    } else {
      var front := b[..|b| - 1];
      assert (a + b)[..|a + b| - 1] == a + front;
      Concat(m, s, a, front);
      DrawnConcat(m, s, a, front, d);
    }
  }

  lemma DrawnInThree<S, P, V>(m: Machine<S, P, V>, s: S, a: seq<P>, t: S, b: seq<P>, u: S, c: seq<P>, d: Meter<P, V>)
    requires End(m, s, a) == t && End(m, t, b) == u
    ensures DrawnSince(m, s, a + b + c, d, 0)
      == DrawnSince(m, s, a, d, 0) + DrawnSince(m, t, b, d, 0) + DrawnSince(m, u, c, d, 0)
  {
    Concat(m, s, a, b);
    DrawnConcat(m, s, a, b, d);
    DrawnConcat(m, s, a + b, c, d);
  }

  lemma MeteredFront<S, P, V>(m: Machine<S, P, V>, s: S, ps: seq<P>, d: Meter<P, V>, p: Rate)
    requires ps != [] && Metered(m, s, ps, d, p)
    ensures Metered(m, s, ps[..|ps| - 1], d, p)
  {
    var front, last := ps[..|ps| - 1], ps[|ps| - 1];
    if d.asks(last, m(End(m, s, front), last).verdict) {
      Snoc(Bucket(p), Fresh, Requests(m, s, front, d), d.request(last));
      var a, b := SelectedLog(m, s, ps, d.asks, d.granted), Log(Bucket(p), Fresh, Requests(m, s, ps, d));
      assert SelectedLog(m, s, front, d.asks, d.granted) == a[..|a| - 1];
      assert Log(Bucket(p), Fresh, Requests(m, s, front, d)) == b[..|b| - 1];
    }
  }

  lemma MeteredLast<S, P, V>(m: Machine<S, P, V>, s: S, ps: seq<P>, d: Meter<P, V>, p: Rate)
    requires ps != [] && Metered(m, s, ps, d, p)
    requires d.asks(ps[|ps| - 1], m(End(m, s, ps[..|ps| - 1]), ps[|ps| - 1]).verdict)
    ensures var front, last := ps[..|ps| - 1], ps[|ps| - 1];
      d.granted(m(End(m, s, front), last).verdict)
      == Granted(p, Requests(m, s, front, d) + [d.request(last)], |Requests(m, s, front, d)|)
  {
    var front, last := ps[..|ps| - 1], ps[|ps| - 1];
    var reqs := Requests(m, s, front, d);
    Snoc(Bucket(p), Fresh, reqs, d.request(last));
    var a, b := SelectedLog(m, s, ps, d.asks, d.granted), Log(Bucket(p), Fresh, Requests(m, s, ps, d));
    assert a[|a| - 1] == b[|b| - 1];
    GrantedLog(p, reqs + [d.request(last)], |reqs|);
  }

  lemma {:induction false} DrawnIsAmount<S, P, V>(m: Machine<S, P, V>, s: S, ps: seq<P>, d: Meter<P, V>, p: Rate, i: nat)
    requires Metered(m, s, ps, d, p) && i <= |ps|
    ensures |Requests(m, s, ps[..i], d)| <= |Requests(m, s, ps, d)|
    ensures DrawnSince(m, s, ps, d, i)
      == Amount(p, Requests(m, s, ps, d), |Requests(m, s, ps[..i], d)|, |Requests(m, s, ps, d)|)
  {
    if i == |ps| {
      assert ps[..i] == ps;
    } else {
      var front, last := ps[..|ps| - 1], ps[|ps| - 1];
      assert front[..i] == ps[..i];
      MeteredFront(m, s, ps, d, p);
      DrawnIsAmount(m, s, front, d, p, i);
      if d.asks(last, m(End(m, s, front), last).verdict) {
        MeteredLast(m, s, ps, d, p);
        AmountPrefix(p, Requests(m, s, front, d), d.request(last),
                     |Requests(m, s, ps[..i], d)|, |Requests(m, s, front, d)|);
      }
    }
  }

  lemma {:induction false} RequestTimes<S, P, V>(m: Machine<S, P, V>, s: S, ps: seq<P>, d: Meter<P, V>, now: P -> real,
                                                 i: nat)
    requires InOrder(ps, now) && i <= |ps| && forall q :: d.request(q).time == now(q)
    ensures var reqs, a := Requests(m, s, ps, d), |Requests(m, s, ps[..i], d)|;
      && InTime(reqs) && a <= |reqs|
      && (forall j :: 0 <= j < |reqs| ==> |ps| > 0 && reqs[j].time <= now(ps[|ps| - 1]))
      && (forall j :: a <= j < |reqs| ==> i < |ps| && now(ps[i]) <= reqs[j].time)
  {
    if i == |ps| {
      assert ps[..i] == ps;
    }
    if ps == [] {
    } else {
      var front := ps[..|ps| - 1];
      if i == |ps| {
        RequestTimes(m, s, front, d, now, |front|);
      } else {
        assert front[..i] == ps[..i];
        RequestTimes(m, s, front, d, now, i);
      }
    }
  }

  /** Whatever a metered run draws in any stretch stays within the burst and what is earned in the stretch. */
  lemma DrawnWithinRate<S, P, V>(m: Machine<S, P, V>, s: S, ps: seq<P>, d: Meter<P, V>, p: Rate, now: P -> real, i: nat)
    requires Proper(p) && Metered(m, s, ps, d, p) && InOrder(ps, now) && i < |ps|
    requires forall q :: d.request(q).time == now(q)
    ensures DrawnSince(m, s, ps, d, i) <= p.burst + (p.earned(now(ps[|ps| - 1])) - p.earned(now(ps[i])))
  {
    DrawnIsAmount(m, s, ps, d, p, i);
    RequestTimes(m, s, ps, d, now, i);
    var reqs, a := Requests(m, s, ps, d), |Requests(m, s, ps[..i], d)|;
    if a < |reqs| {
      IntervalBound(p, reqs, a, |reqs| - 1);
      assert p.earned(now(ps[i])) <= p.earned(reqs[a].time);
      assert p.earned(reqs[|reqs| - 1].time) <= p.earned(now(ps[|ps| - 1]));
    } else {
      assert p.earned(now(ps[i])) <= p.earned(now(ps[|ps| - 1]));
    }
  }
}
