/** Moving to another bootstrap server after a failure: internal/bootstrap/reselect.go. */
module Reselect {
  import opened Numbers
  import Shortlist

  const SECOND := 1_000_000_000
  const MINUTE := 60 * SECOND

  /** Durations are whole nanoseconds. */
  datatype Backoff = Backoff(jitter: int, base: int, max: int, factor: real)

  /** Absent base and cap become one second and one minute. */
  function NewBackoff(jitter: int, base: int, max: int, factor: real): (b: Backoff)
    ensures Valid(b) && b.jitter == jitter && b.factor == factor
    ensures b.base == if base <= 0 then 1_000_000_000 else base
    ensures b.max == if max <= 0 then 60_000_000_000 else max
  {
    Backoff(jitter, if base <= 0 then SECOND else base, if max <= 0 then MINUTE else max, factor)
  }

  predicate Valid(b: Backoff) {
    b.base > 0 && b.max > 0
  }

  // --- growth --------------------------------------------------------------

  function Min(a: real, b: real): real {
    if a < b then a else b
  }

  function Scale(factor: real): real -> real {
    (d: real) => d * factor
  }

  /** Step up to `n` times, stopping once the cap is reached. */
  function Climb(step: real -> real, d: real, max: real, n: nat): real
    decreases n
  {
    if n == 0 || d >= max then d else Climb(step, step(d), max, n - 1)
  }

  /** Exactly `n` steps. */
  function Iterate(step: real -> real, d: real, n: nat): real
    decreases n
  {
    if n == 0 then d else Iterate(step, step(d), n - 1)
  }

  function Power(factor: real, n: nat): real {
    if n == 0 then 1.0 else factor * Power(factor, n - 1)
  }

  function Exponential(d: real, factor: real, n: nat): real {
    d * Power(factor, n)
  }

  ghost predicate Inflating(step: real -> real) {
    forall d: real :: d > 0.0 ==> step(d) >= d
  }

  lemma {:induction false} IterateGrows(step: real -> real, d: real, n: nat)
    requires Inflating(step) && d > 0.0
    ensures Iterate(step, d, n) >= d
    decreases n
  {
    if n == 0 {
    } else {
      IterateGrows(step, step(d), n - 1);
    }
  }

  lemma {:induction false} IterateLast(step: real -> real, d: real, n: nat)
    ensures Iterate(step, d, n + 1) == step(Iterate(step, d, n))
    decreases n
  {
    if n == 0 {
    } else {
      IterateLast(step, step(d), n - 1);
    }
  }

  /** Stopping early changes nothing below the cap. */
  lemma {:induction false} ClimbIsIterate(step: real -> real, d: real, max: real, n: nat)
    requires Inflating(step) && d > 0.0
    ensures Min(max, Climb(step, d, max, n)) == Min(max, Iterate(step, d, n))
    decreases n
  {
    if d >= max {
      IterateGrows(step, d, n);
    } else if n > 0 {
      ClimbIsIterate(step, step(d), max, n - 1);
    }
  }

  lemma Associates(a: real, ab: real, b: real, c: real, bc: real)
    requires ab == a * b && bc == b * c
    ensures ab * c == a * bc
  {
    assert (a * b) * c == a * (b * c);
  }

  lemma {:induction false} IterateIsPower(factor: real, d: real, n: nat)
    ensures Iterate(Scale(factor), d, n) == Exponential(d, factor, n)
    decreases n
  {
    if n == 0 {
    } else {
      var next := Scale(factor)(d);
      IterateIsPower(factor, next, n - 1);
      Associates(d, next, factor, Power(factor, n - 1), Power(factor, n));
    }
  }

  lemma Grows(d: real, factor: real)
    requires d >= 0.0 && factor >= 1.0
    ensures d * factor >= d
  {
    assert d * (factor - 1.0) >= 0.0;
  }

  lemma ScaleInflates(factor: real)
    requires factor >= 1.0
    ensures Inflating(Scale(factor))
  {
    forall d: real | d > 0.0 ensures Scale(factor)(d) >= d {
      Grows(d, factor);
    }
  }

  // --- delays --------------------------------------------------------------

  /** The delay before jitter. */
  function Grown(b: Backoff, attempt: int): real
    requires attempt > 0
  {
    Min(b.max as real, Climb(Scale(b.factor), b.base as real, b.max as real, attempt - 1))
  }

  /** The delay before jitter is the smaller of the cap and the power. */
  lemma GrownIsPower(b: Backoff, attempt: int)
    requires Valid(b) && b.factor >= 1.0 && attempt > 0
    ensures Grown(b, attempt) == Min(b.max as real, Exponential(b.base as real, b.factor, attempt - 1))
  {
    var base, max, n := b.base as real, b.max as real, attempt - 1;
    ScaleInflates(b.factor);
    ClimbIsIterate(Scale(b.factor), base, max, n);
    IterateIsPower(b.factor, base, n);
  }

  ghost predicate Deflating(step: real -> real) {
    forall d: real :: d > 0.0 ==> 0.0 < step(d) <= d
  }

  lemma {:induction false} ClimbBelowCap(step: real -> real, d: real, max: real, n: nat)
    requires Deflating(step) && 0.0 < d < max
    ensures Climb(step, d, max, n) == Iterate(step, d, n)
    decreases n
  {
    if n == 0 {
    } else {
      ClimbBelowCap(step, step(d), max, n - 1);
    }
  }

  lemma Shrinks(d: real, factor: real, rest: real)
    requires d > 0.0 && factor > 0.0 && rest > 0.0 && factor + rest == 1.0
    ensures 0.0 < d * factor <= d
  {
    assert d * factor > 0.0 && d * rest > 0.0;
    assert d * factor + d * rest == d * (factor + rest) == d;
  }

  lemma ScaleDeflates(factor: real)
    requires 0.0 < factor < 1.0
    ensures Deflating(Scale(factor))
  {
    forall d: real | d > 0.0 ensures 0.0 < Scale(factor)(d) <= d {
      var r := 1.0 - factor;
      Shrinks(d, factor, r);
      assert Scale(factor)(d) == d * factor;
    }
  }

  /** A smaller factor gives the power too, except where the base starts at the cap and the power would fall below it. */
  lemma GrownIsPowerExactly(b: Backoff, attempt: int)
    requires Valid(b) && b.factor > 0.0 && attempt > 0
    ensures Grown(b, attempt) == Min(b.max as real, Exponential(b.base as real, b.factor, attempt - 1)) <==>
            b.factor >= 1.0 || b.base < b.max || Exponential(b.base as real, b.factor, attempt - 1) >= b.max as real
  {
    if b.factor >= 1.0 {
      GrownIsPower(b, attempt);
    } else if b.base < b.max {
      var base, max, n := b.base as real, b.max as real, attempt - 1;
      ScaleDeflates(b.factor);
      ClimbBelowCap(Scale(b.factor), base, max, n);
      IterateIsPower(b.factor, base, n);
    }
  }

  lemma {:induction false} MinIterateMonotone(step: real -> real, d: real, max: real, n: nat, m: nat)
    requires Inflating(step) && d > 0.0 && n <= m
    ensures Min(max, Iterate(step, d, n)) <= Min(max, Iterate(step, d, m))
    decreases m
  {
    if n < m {
      MinIterateMonotone(step, d, max, n, m - 1);
      IterateLast(step, d, m - 1);
      IterateGrows(step, d, m - 1);
    }
  }

  /** One more failure never shortens the delay before jitter. */
  lemma GrownIsMonotone(b: Backoff, earlier: int, later: int)
    requires Valid(b) && b.factor >= 1.0 && 0 < earlier <= later
    ensures 0.0 < Grown(b, earlier) <= Grown(b, later) <= b.max as real
  {
    var step, base, max := Scale(b.factor), b.base as real, b.max as real;
    ScaleInflates(b.factor);
    ClimbIsIterate(step, base, max, earlier - 1);
    ClimbIsIterate(step, base, max, later - 1);
    IterateGrows(step, base, earlier - 1);
    MinIterateMonotone(step, base, max, earlier - 1, later - 1);
  }

  /** The delay for an attempt, given what the random source draws below the jitter. */
  function Delay(b: Backoff, attempt: int, draw: int): int {
    if attempt <= 0 then (if b.jitter <= 0 then 0 else draw)
    else Truncate(if b.jitter > 0 then Grown(b, attempt) + draw as real else Grown(b, attempt))
  }

  /** What jitter adds. */
  function Drawn(b: Backoff, draw: int): int {
    if b.jitter > 0 then draw else 0
  }

  /**
   * The delay the design asks for: only the draw while no failure is counted; from then on the whole nanoseconds in
   * the smaller of the cap and base times factor to the power of the attempt less one, plus the draw.
   */
  predicate Spaced(b: Backoff, attempt: int, draw: int, delay: int) {
    if attempt <= 0 then delay == Drawn(b, draw)
    else
      var exact := Min(b.max as real, b.base as real * Power(b.factor, attempt - 1)) + Drawn(b, draw) as real;
      delay as real <= exact < delay as real + 1.0
  }

  lemma DelayIsPower(b: Backoff, attempt: int, draw: int)
    requires Valid(b) && b.factor >= 1.0 && (b.jitter > 0 ==> draw >= 0)
    ensures Spaced(b, attempt, draw, Delay(b, attempt, draw))
  {
    if attempt > 0 {
      GrownIsPower(b, attempt);
      GrownIsMonotone(b, attempt, attempt);
    }
  }

  /** The loop that multiplies until the cap or the attempt is reached. */
  method Grow(step: real -> real, base: real, max: real, times: nat) returns (d: real)
    ensures d == Climb(step, base, max, times)
  {
    d := base;
    var i := 0;
    while i < times && d < max
      invariant 0 <= i <= times && Climb(step, d, max, times - i) == Climb(step, base, max, times)
    {
      d := step(d);
      i := i + 1;
    }
  }

  method DelayLocked(b: Backoff, attempt: int, draw: int) returns (delay: int)
    ensures delay == Delay(b, attempt, draw)
    ensures Valid(b) && b.factor >= 1.0 && draw >= 0 ==> Spaced(b, attempt, draw, delay)
  {
    if attempt <= 0 {
      if b.jitter <= 0 {
        return 0;
      }
      return draw;
    }
    var d := Grow(Scale(b.factor), b.base as real, b.max as real, attempt - 1);
    if d > b.max as real {
      d := b.max as real;
    }
    if b.jitter > 0 {
      d := d + draw as real;
    }
    delay := Truncate(d);
    if Valid(b) && b.factor >= 1.0 && draw >= 0 {
      DelayIsPower(b, attempt, draw);
    }
  }

  /** With the same draw, more failures never mean a shorter delay. */
  lemma DelayIsMonotone(b: Backoff, earlier: int, later: int, draw: int)
    requires Valid(b) && b.factor >= 1.0 && earlier <= later && (b.jitter > 0 ==> draw >= 0)
    ensures Delay(b, earlier, draw) <= Delay(b, later, draw)
  {
    if earlier > 0 {
      GrownIsMonotone(b, earlier, later);
    } else if later > 0 {
      GrownIsMonotone(b, later, later);
    }
  }

  lemma PowersOfTwo()
    ensures Power(2.0, 0) == 1.0 && Power(2.0, 1) == 2.0 && Power(2.0, 2) == 4.0 && Power(2.0, 3) == 8.0
    ensures Power(2.0, 4) == 16.0 && Power(2.0, 5) == 32.0 && Power(2.0, 6) == 64.0
  {
  }

  /** The design's delays in nanoseconds: 1, 2, 4, 8, 16 and 32 seconds, then a minute for ever, each with its draw. */
  lemma DefaultDelays(b: Backoff, attempt: int, draw: nat)
    requires b == Backoff(5_000_000_000, 1_000_000_000, 60_000_000_000, 2.0)
    ensures Delay(b, attempt, draw) - draw ==
            if attempt <= 0 then 0
            else if attempt <= 6 then [1, 2, 4, 8, 16, 32][attempt - 1] * 1_000_000_000
            else 60_000_000_000
  {
    DelayIsPower(b, attempt, draw);
    PowersOfTwo();
    if attempt > 6 {
      GrownIsPower(b, 7);
      GrownIsMonotone(b, 7, attempt);
    }
  }

  /** The first delay is below the jitter; every later one is positive or zero and below cap plus jitter. */
  lemma DelayIsBounded(b: Backoff, attempt: int, draw: int)
    requires Valid(b) && b.factor >= 1.0 && (b.jitter > 0 ==> 0 <= draw < b.jitter)
    ensures attempt <= 0 && b.jitter <= 0 ==> Delay(b, attempt, draw) == 0
    ensures attempt <= 0 && b.jitter > 0 ==> 0 <= Delay(b, attempt, draw) < b.jitter
    ensures attempt > 0 && b.jitter <= 0 ==> 0 <= Delay(b, attempt, draw) <= b.max
    ensures attempt > 0 && b.jitter > 0 ==> draw <= Delay(b, attempt, draw) < b.max + b.jitter
  {
    if attempt > 0 {
      GrownIsMonotone(b, attempt, attempt);
    }
  }

  // --- the picker ----------------------------------------------------------

  /** The first place of a server, or the front if it is not listed. */
  function Place(candidates: seq<string>, server: string): (i: nat)
    ensures candidates != [] ==> i < |candidates|
    ensures server in candidates ==> candidates[i] == server && server !in candidates[..i]
    ensures server !in candidates ==> i == 0
  {
    if server !in candidates then 0
    else if candidates[0] == server then 0
    else 1 + Place(candidates[1..], server)
  }

  function NextServer(candidates: seq<string>, current: string): string {
    if candidates == [] then "" else candidates[(Place(candidates, current) + 1) % |candidates|]
  }

  class Picker {
    const candidates: seq<string>
    const backoff: Backoff
    var current: string
    var attempt: int

    /** The design's timing: up to 5 s of jitter, growth from 1 s by doubling, at most 60 s. */
    constructor Default(candidates: seq<string>)
      ensures this.candidates == candidates && attempt == 0
      ensures backoff == Backoff(5_000_000_000, 1_000_000_000, 60_000_000_000, 2.0) && Valid(backoff)
      ensures current == if candidates == [] then "" else candidates[0]
    {
      this.candidates, this.backoff, attempt := candidates, NewBackoff(5 * SECOND, SECOND, 60 * SECOND, 2.0), 0;
      current := if |candidates| > 0 then candidates[0] else "";
    }

    constructor (candidates: seq<string>, backoff: Backoff)
      ensures this.candidates == candidates && this.backoff == backoff && attempt == 0
      ensures current == if candidates == [] then "" else candidates[0]
    {
      this.candidates, this.backoff, attempt := candidates, backoff, 0;
      current := if |candidates| > 0 then candidates[0] else "";
    }

    method OnSuccess()
      modifies this
      ensures attempt == 0 && current == old(current)
    {
      attempt := 0;
    }

    /** The delay is drawn for the failures before this one. */
    method OnFailure(draw: int) returns (server: string, delay: int)
      modifies this
      ensures delay == Delay(backoff, old(attempt), draw) && attempt == old(attempt) + 1
      ensures Valid(backoff) && backoff.factor >= 1.0 && draw >= 0 ==> Spaced(backoff, old(attempt), draw, delay)
      ensures server == current == NextServer(candidates, old(current))
    {
      delay := DelayLocked(backoff, attempt, draw);
      attempt := attempt + 1;
      if |candidates| == 0 {
        current := "";
        return "", delay;
      }
      var index := 0;
      for i := 0 to |candidates|
        invariant index == 0 && current !in candidates[..i]
      {
        if candidates[i] == current {
          index := i;
          PlaceIs(candidates, current, i);
          break;
        }
      }
      current := candidates[(index + 1) % |candidates|];
      return current, delay;
    }
  }

  lemma {:induction false} PlaceIs(candidates: seq<string>, server: string, i: nat)
    requires i < |candidates| && candidates[i] == server && server !in candidates[..i]
    ensures Place(candidates, server) == i
  {
    if i == 0 {
    } else {
      assert candidates[..i][1..] == candidates[1..][..i - 1];
      assert candidates[0] == candidates[..i][0];
      PlaceIs(candidates[1..], server, i - 1);
    }
  }

  /** A listed server is followed by the next one from its first place, cyclically; an unlisted one by the second server. */
  lemma NextServerIs(candidates: seq<string>, server: string, i: nat)
    requires i < |candidates| && (server in candidates ==> candidates[i] == server && server !in candidates[..i])
    requires server !in candidates ==> i == 0
    ensures NextServer(candidates, server) == candidates[if i + 1 == |candidates| then 0 else i + 1]
    ensures NextServer([], server) == ""
  {
    if server in candidates {
      PlaceIs(candidates, server, i);
    }
    var n := |candidates|;
    if i + 1 == n {
      Remainder(i + 1, n, 1, 0);
    } else {
      Remainder(i + 1, n, 0, i + 1);
    }
  }

  // --- runs ----------------------------------------------------------------

  datatype Event = Failure | Success

  datatype Choice = Choice(current: string, failures: nat)

  /** The successor of each server. */
  function Successor(candidates: seq<string>): string -> string {
    (server: string) => NextServer(candidates, server)
  }

  function Step(next: string -> string, c: Choice, e: Event): Choice {
    match e
    case Failure => Choice(next(c.current), c.failures + 1)
    case Success => Choice(c.current, 0)
  }

  function AfterRun(next: string -> string, c: Choice, run: seq<Event>): Choice {
    if run == [] then c else Step(next, AfterRun(next, c, run[..|run| - 1]), run[|run| - 1])
  }

  function Failures(run: seq<Event>): nat {
    if run == [] then 0 else Failures(run[..|run| - 1]) + if run[|run| - 1] == Failure then 1 else 0
  }

  predicate FailuresOnly(run: seq<Event>) {
    forall i :: 0 <= i < |run| ==> run[i] == Failure
  }

  lemma NextOfPlace(candidates: seq<string>, x: nat)
    requires Shortlist.Distinct(candidates) && candidates != []
    ensures NextServer(candidates, candidates[x % |candidates|]) == candidates[(x + 1) % |candidates|]
  {
    var n := |candidates|;
    PlaceIs(candidates, candidates[x % n], x % n);
    NextModulo(x, n);
  }

  lemma NextModulo(x: nat, n: nat)
    requires n > 0
    ensures (x % n + 1) % n == (x + 1) % n
  {
    var q, r := x / n, x % n;
    assert x == n * q + r;
    if r + 1 < n {
      Remainder(x + 1, n, q, r + 1);
      Remainder(r + 1, n, 0, r + 1);
    } else {
      assert n * (q + 1) == n * q + n;
      Remainder(x + 1, n, q + 1, 0);
      Remainder(r + 1, n, 1, 0);
    }
  }

  lemma MultipleIsFar(n: nat, k: int)
    ensures k >= 1 ==> n * k >= n
    ensures k <= -1 ==> n * k + n <= 0
  {
    if k >= 1 {
      assert n * (k - 1) >= 0;
    } else if k <= -1 {
      assert n * (-k - 1) >= 0;
    }
  }

  lemma Remainder(x: nat, n: nat, q: nat, r: nat)
    requires n > 0 && x == n * q + r && r < n
    ensures x % n == r
  {
    var k := q - x / n;
    assert n * k == n * q - n * (x / n) == x % n - r;
    MultipleIsFar(n, k);
  }

  lemma {:induction false} RunAdvances(next: string -> string, place: nat -> string, i: nat, c: Choice, run: seq<Event>)
    requires (forall x: nat :: next(place(x)) == place(x + 1)) && c.current == place(i)
    ensures AfterRun(next, c, run).current == place(i + Failures(run))
  {
    if run == [] {
    } else {
      RunAdvances(next, place, i, c, run[..|run| - 1]);
    }
  }

  lemma Places(candidates: seq<string>, i: nat, y: nat, j: nat) returns (place: nat -> string)
    requires Shortlist.Distinct(candidates) && i < |candidates| && j == y % |candidates|
    ensures forall x: nat :: Successor(candidates)(place(x)) == place(x + 1)
    ensures place(i) == candidates[i] && j < |candidates| && place(y) == candidates[j]
  {
    place := (x: nat) => candidates[x % |candidates|];
    forall x: nat ensures NextServer(candidates, place(x)) == place(x + 1) {
      NextOfPlace(candidates, x);
    }
    Remainder(i, |candidates|, 0, i);
  }

  /** In any run of failures and successes over distinct servers, `f` failures advance the selection by `f` places. */
  lemma RunSelects(candidates: seq<string>, i: nat, c: Choice, run: seq<Event>, j: nat)
    requires Shortlist.Distinct(candidates) && i < |candidates| && c.current == candidates[i]
    requires j == (i + Failures(run)) % |candidates|
    ensures j < |candidates| && AfterRun(Successor(candidates), c, run).current == candidates[j]
  {
    var place := Places(candidates, i, i + Failures(run), j);
    RunAdvances(Successor(candidates), place, i, c, run);
  }

  /** The failure count is the number of failures since the last success. */
  lemma {:induction false} CountsSinceSuccess(next: string -> string, c: Choice, before: seq<Event>, after: seq<Event>)
    requires FailuresOnly(after)
    ensures AfterRun(next, c, before + [Success] + after).failures == |after|
    ensures AfterRun(next, c, after).failures == c.failures + |after|
  {
    var run := before + [Success] + after;
    if after == [] {
      assert run == before + [Success] && run[..|run| - 1] == before;
    } else {
      CountsSinceSuccess(next, c, before, after[..|after| - 1]);
      assert run[..|run| - 1] == before + [Success] + after[..|after| - 1];
    }
  }

  function Repeated(n: nat): seq<Event> {
    seq(n, i => Failure)
  }

  lemma {:induction false} FailuresOfRepeated(n: nat)
    ensures Failures(Repeated(n)) == n
  {
    if n == 0 {
    } else {
      FailuresOfRepeated(n - 1);
      assert Repeated(n)[..n - 1] == Repeated(n - 1);
    }
  }

  function AfterFailures(candidates: seq<string>, i: nat, k: nat): string
    requires i < |candidates|
  {
    AfterRun(Successor(candidates), Choice(candidates[i], 0), Repeated(k)).current
  }

  lemma Advances(candidates: seq<string>, i: nat, k: nat)
    requires Shortlist.Distinct(candidates) && i < |candidates|
    ensures AfterFailures(candidates, i, k) == candidates[(i + k) % |candidates|]
  {
    FailuresOfRepeated(k);
    RunSelects(candidates, i, Choice(candidates[i], 0), Repeated(k), (i + k) % |candidates|);
  }

  lemma Rotation(i: nat, m: nat, n: nat, j: nat)
    requires i < n && m < n && j < n
    ensures (i + m) % n == j <==> m == if i <= j then j - i else j + n - i
  {
    if i + m < n {
      Remainder(i + m, n, 0, i + m);
    } else {
      Remainder(i + m, n, 1, i + m - n);
    }
  }

  /** Within a cycle of as many failures as there are servers, every server is selected exactly once. */
  lemma VisitsOnce(candidates: seq<string>, i: nat, j: nat) returns (k: nat)
    requires Shortlist.Distinct(candidates) && i < |candidates| && j < |candidates|
    ensures k < |candidates| && AfterFailures(candidates, i, k) == candidates[j]
    ensures forall m :: 0 <= m < |candidates| && AfterFailures(candidates, i, m) == candidates[j] ==> m == k
  {
    var n := |candidates|;
    k := if i <= j then j - i else j + n - i;
    Rotation(i, k, n, j);
    Advances(candidates, i, k);
    forall m | 0 <= m < n && AfterFailures(candidates, i, m) == candidates[j] ensures m == k {
      Advances(candidates, i, m);
      Rotation(i, m, n, j);
    }
  }
}
