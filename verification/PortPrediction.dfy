/** Port prediction of internal/stun/predict.go: classifying a NAT's allocation pattern from observed ports. */
module PortPrediction {
  import opened Numbers
  import Sorting

  datatype Sample = Sample(port: int, destination: string, timestamp: real)

  datatype Pattern = Linear | Cyclic | Random | Insufficient

  datatype Prediction = Prediction(pattern: Pattern, nextPort: int, windowStart: int, windowEnd: int, deltas: seq<int>)

  // --- arithmetic ----------------------------------------------------------

  function Abs(x: int): int {
    if x < 0 then -x else x
  }

  /** A port moved into 1..65535. */
  function Clamp(p: int): int {
    if p < 1 then 1 else if p > 65535 then 65535 else p
  }

  function Sum(xs: seq<int>): int {
    if xs == [] then 0 else Sum(xs[..|xs| - 1]) + xs[|xs| - 1]
  }

  function Square(x: real): real {
    x * x
  }

  function Total(xs: seq<int>, f: int -> real): real {
    if xs == [] then 0.0 else Total(xs[..|xs| - 1], f) + f(xs[|xs| - 1])
  }

  /** Squared distance from `m`. */
  function SquaredFrom(m: real): int -> real {
    x => Square(x as real - m)
  }

  /** The sum of squared distances from `m`. */
  function Spread(xs: seq<int>, m: real): real {
    Total(xs, SquaredFrom(m))
  }

  function Mean(xs: seq<int>): real {
    if xs == [] then 0.0 else Sum(xs) as real / |xs| as real
  }

  function Variance(xs: seq<int>, m: real): real {
    if xs == [] then 0.0 else Spread(xs, m) / |xs| as real
  }

  method ComputeMean(xs: seq<int>) returns (m: real)
    ensures m == Mean(xs)
  {
    if |xs| == 0 {
      return 0.0;
    }
    var sum := 0;
    for i := 0 to |xs|
      invariant sum == Sum(xs[..i])
    {
      assert xs[..i + 1][..i] == xs[..i];
      sum := sum + xs[i];
    }
    assert xs[..|xs|] == xs;
    return sum as real / |xs| as real;
  }

  method ComputeVariance(xs: seq<int>, m: real) returns (v: real)
    ensures v == Variance(xs, m)
  {
    if |xs| == 0 {
      return 0.0;
    }
    var sum := 0.0;
    for i := 0 to |xs|
      invariant sum == Spread(xs[..i], m)
    {
      assert xs[..i + 1][..i] == xs[..i];
      var d := xs[i] as real - m;
      sum := sum + Square(d);
    }
    assert xs[..|xs|] == xs;
    return sum / |xs| as real;
  }

  /** Repeats with period two, over at least four deltas. */
  predicate Alternates(deltas: seq<int>) {
    |deltas| >= 4 && forall i :: 2 <= i < |deltas| ==> deltas[i] == deltas[i - 2]
  }

  method IsCyclic(deltas: seq<int>) returns (b: bool)
    ensures b == Alternates(deltas)
  {
    if |deltas| < 4 {
      return false;
    }
    for i := 2 to |deltas|
      invariant forall j :: 2 <= j < i ==> deltas[j] == deltas[j - 2]
    {
      if deltas[i] != deltas[i - 2] {
        return false;
      }
    }
    return true;
  }

  // --- classification ------------------------------------------------------

  function Deltas(ports: seq<int>): (d: seq<int>)
    ensures |d| == if ports == [] then 0 else |ports| - 1
  {
    if |ports| < 2 then [] else Deltas(ports[..|ports| - 1]) + [ports[|ports| - 1] - ports[|ports| - 2]]
  }

  /** Low variance against the truncated mean delta. */
  predicate IsLinear(deltas: seq<int>) {
    LowVariance(Variance(deltas, Mean(deltas)), Truncate(Mean(deltas)))
  }

  predicate LowVariance(variance: real, step: int) {
    step != 0 && variance < Abs(step) as real * Abs(step) as real
  }

  function Around(pattern: Pattern, next: int, half: int, deltas: seq<int>): Prediction {
    Prediction(pattern, next, Clamp(next - half), Clamp(next + half), deltas)
  }

  /** The prediction for ports in time order. */
  function Predict(ports: seq<int>): Prediction {
    if |ports| < 2 then Prediction(Insufficient, 0, 0, 0, [])
    else Continue(Deltas(ports), ports[|ports| - 1])
  }

  /** The prediction after the last port, from the deltas before it. */
  function Continue(deltas: seq<int>, last: int): Prediction {
    if IsLinear(deltas) then
      var step := Truncate(Mean(deltas));
      Around(Linear, last + step, 2 * Abs(step), deltas)
    else if Alternates(deltas) then Around(Cyclic, last + deltas[0], Abs(deltas[0]), deltas)
    else Prediction(Random, 0, 0, 0, deltas)
  }

  function Ports(samples: seq<Sample>): seq<int> {
    seq(|samples|, i requires 0 <= i < |samples| => samples[i].port)
  }

  ghost predicate InTimeOrder(samples: seq<Sample>) {
    forall i, j :: 0 <= i < j < |samples| ==> samples[i].timestamp <= samples[j].timestamp
  }

  method SortSamples(samples: array<Sample>)
    modifies samples
    ensures InTimeOrder(samples[..]) && multiset(samples[..]) == old(multiset(samples[..]))
  {
    var le := (x: Sample, y: Sample) => x.timestamp <= y.timestamp;
    var sorted := Sorting.Sort(samples[..], le);
    assert forall i, j :: 0 <= i < j < |sorted| ==> le(sorted[i], sorted[j]);
    forall i | 0 <= i < samples.Length {
      samples[i] := sorted[i];
    }
    assert samples[..] == sorted;
  }

  /** Sorts the samples in place, computes the deltas and classifies them. */
  method AnalyzePortSequence(samples: array<Sample>) returns (p: Prediction)
    modifies samples
    ensures InTimeOrder(samples[..]) && multiset(samples[..]) == old(multiset(samples[..]))
    ensures p == Predict(Ports(samples[..]))
  {
    if samples.Length < 2 {
      return Prediction(Insufficient, 0, 0, 0, []);
    }
    SortSamples(samples);
    ghost var ports := Ports(samples[..]);
    var deltas: seq<int> := [];
    for i := 1 to samples.Length
      invariant deltas == Deltas(ports[..i])
    {
      assert ports[..i + 1][..i] == ports[..i];
      deltas := deltas + [samples[i].port - samples[i - 1].port];
    }
    assert ports[..samples.Length] == ports;
    p := Classify(deltas, samples[samples.Length - 1].port);
  }

  method Classify(deltas: seq<int>, last: int) returns (p: Prediction)
    requires deltas != []
    ensures p == Continue(deltas, last)
  {
    var m := ComputeMean(deltas);
    var v := ComputeVariance(deltas, m);
    var step := Truncate(m);
    if LowVariance(v, step) {
      return Around(Linear, last + step, Abs(step) * 2, deltas);
    }
    var cyclic := IsCyclic(deltas);
    if cyclic {
      var delta := deltas[|deltas| % |deltas|];
      return Around(Cyclic, last + delta, Abs(delta), deltas);
    }
    return Prediction(Random, 0, 0, 0, deltas);
  }

  // --- the linear window covers the deltas ---------------------------------

  function Count(xs: seq<int>, p: int -> bool): nat {
    if xs == [] then 0 else Count(xs[..|xs| - 1], p) + if p(xs[|xs| - 1]) then 1 else 0
  }

  /** `n` times `c`, by addition. */
  function Times(n: nat, c: real): real {
    if n == 0 then 0.0 else Times(n - 1, c) + c
  }

  lemma {:induction false} TimesIsProduct(n: nat, c: real)
    ensures Times(n, c) == n as real * c
  {
    if n == 0 {
    } else {
      TimesIsProduct(n - 1, c);
      assert (n - 1) as real * c + c == n as real * c;
    }
  }

  lemma {:induction false} TimesMonotone(a: nat, b: nat, c: real)
    requires a <= b && c >= 0.0
    ensures Times(a, c) <= Times(b, c)
  {
    if a < b {
      TimesMonotone(a, b - 1, c);
    }
  }

  lemma {:induction false} TimesFour(n: nat, c: real)
    ensures Times(n, 4.0 * c) == Times(4 * n, c)
  {
    if n == 0 {
    } else {
      TimesFour(n - 1, c);
      assert Times(4 * n, c) == Times(4 * n - 1, c) + c == Times(4 * n - 2, c) + c + c;
      assert Times(4 * n - 2, c) == Times(4 * n - 3, c) + c == Times(4 * n - 4, c) + c + c;
    }
  }

  /** Chebyshev's counting argument: elements that weigh at least `c` each cannot be many. */
  lemma {:induction false} HeavyElements(xs: seq<int>, f: int -> real, heavy: int -> bool, c: real)
    requires forall x :: f(x) >= 0.0 && (heavy(x) ==> f(x) >= c)
    ensures Total(xs, f) >= Times(Count(xs, heavy), c)
  {
    if xs == [] {
    } else {
      HeavyElements(xs[..|xs| - 1], f, heavy, c);
    }
  }

  /** The deltas that, added to the last port, miss the unclamped window around `last + step`. */
  function Misses(step: int): int -> bool {
    x => Abs(x - step) > 2 * Abs(step)
  }

  lemma SquareMonotone(x: real, k: real)
    requires k >= 0.0 && (x >= k || -x >= k)
    ensures Square(x) >= k * k
  {
    if x >= k {
      assert x * x >= k * x >= k * k;
    } else {
      assert (-x) * (-x) >= k * (-x) >= k * k;
    }
  }

  lemma TruncateIsNear(m: real)
    ensures -1.0 < m - Truncate(m) as real < 1.0
  {
  }

  lemma AbsSquare(step: int)
    ensures Abs(step) as real * Abs(step) as real == Square(step as real) >= 0.0
    ensures step != 0 ==> Square(step as real) > 0.0
    ensures (2.0 * Abs(step) as real) * (2.0 * Abs(step) as real) == 4.0 * Square(step as real)
  {
  }

  /** A delta outside the window is far from the true mean, whatever truncation did to it. */
  lemma OutsideIsFar(x: int, m: real)
    ensures SquaredFrom(m)(x) >= 0.0
    ensures Misses(Truncate(m))(x) ==> SquaredFrom(m)(x) >= 4.0 * Square(Truncate(m) as real)
  {
    SquareMonotone(x as real - m, 0.0);
    var step := Truncate(m);
    if Abs(x - step) > 2 * Abs(step) {
      TruncateIsNear(m);
      AbsSquare(step);
      SquareMonotone(x as real - m, 2.0 * Abs(step) as real);
    }
  }

  lemma VarianceBoundsSpread(spread: real, n: nat, q: real)
    requires n > 0 && spread / n as real < q
    ensures spread < Times(n, q)
  {
    TimesIsProduct(n, q);
    assert spread / n as real * n as real == spread;
  }

  lemma FewMiss(missing: nat, n: nat, q: real)
    requires q >= 0.0 && Times(missing, 4.0 * q) < Times(n, q)
    ensures 4 * missing < n
  {
    TimesFour(missing, q);
    if n <= 4 * missing {
      TimesMonotone(n, 4 * missing, q);
    }
  }

  lemma LinearCovers(deltas: seq<int>)
    requires deltas != [] && IsLinear(deltas)
    ensures 4 * Count(deltas, Misses(Truncate(Mean(deltas)))) < |deltas|
  {
    var m := Mean(deltas);
    var step := Truncate(m);
    var f, heavy, q := SquaredFrom(m), Misses(step), Square(step as real);
    AbsSquare(step);
    VarianceBoundsSpread(Total(deltas, f), |deltas|, q);
    forall x ensures f(x) >= 0.0 && (heavy(x) ==> f(x) >= 4.0 * q) {
      OutsideIsFar(x, m);
    }
    HeavyElements(deltas, f, heavy, 4.0 * q);
    FewMiss(Count(deltas, heavy), |deltas|, q);
  }

  /** When the pattern is linear, strictly more than three quarters of the deltas stay inside the window. */
  lemma WindowCoversMost(ports: seq<int>)
    requires Predict(ports).pattern == Linear
    ensures var p := Predict(ports);
      4 * Count(p.deltas, Misses(p.nextPort - ports[|ports| - 1])) < |p.deltas|
  {
    LinearCovers(Deltas(ports));
  }

  /** Clamping keeps every valid port of a window; it adds one only when the window misses 1..65535 altogether. */
  lemma ClampKeepsValidPorts(lo: int, hi: int, port: int)
    requires lo <= hi && 1 <= port <= 65535
    ensures Clamp(lo) <= port <= Clamp(hi) <==>
      lo <= port <= hi || (hi < 1 && port == 1) || (lo > 65535 && port == 65535)
  {
  }

  // --- regular sequences are classified exactly ----------------------------

  lemma {:induction false} DeltasAt(ports: seq<int>, i: nat)
    requires i + 1 < |ports|
    ensures Deltas(ports)[i] == ports[i + 1] - ports[i]
  {
    if i + 2 < |ports| {
      DeltasAt(ports[..|ports| - 1], i);
    }
  }

  function AsReal(): int -> real {
    x => x as real
  }

  lemma {:induction false} SumIsTotal(xs: seq<int>)
    ensures Sum(xs) as real == Total(xs, AsReal())
  {
    if xs == [] {
    } else {
      SumIsTotal(xs[..|xs| - 1]);
    }
  }

  lemma {:induction false} ConstantTotal(xs: seq<int>, c: int, f: int -> real)
    requires forall i :: 0 <= i < |xs| ==> xs[i] == c
    ensures Total(xs, f) == Times(|xs|, f(c))
  {
    if xs == [] {
    } else {
      ConstantTotal(xs[..|xs| - 1], c, f);
    }
  }

  lemma DivideBack(n: nat, c: real)
    requires n > 0
    ensures Times(n, c) / n as real == c
  {
    TimesIsProduct(n, c);
    assert n as real * c / n as real == c;
  }

  /** Any constant nonzero delta is linear, and the next port is exact. */
  lemma ConstantIsLinear(ports: seq<int>, c: int)
    requires |ports| >= 2 && c != 0 && forall i :: 0 <= i < |ports| - 1 ==> ports[i + 1] - ports[i] == c
    ensures Predict(ports).pattern == Linear && Predict(ports).nextPort == ports[|ports| - 1] + c
  {
    var deltas := Deltas(ports);
    forall i | 0 <= i < |deltas| ensures deltas[i] == c {
      DeltasAt(ports, i);
    }
    SumIsTotal(deltas);
    ConstantTotal(deltas, c, AsReal());
    DivideBack(|deltas|, c as real);
    var m := Mean(deltas);
    assert m == c as real && Truncate(m) == c;
    ConstantTotal(deltas, c, SquaredFrom(m));
    DivideBack(|deltas|, SquaredFrom(m)(c));
    assert SquaredFrom(m)(c) == 0.0;
    AbsSquare(c);
  }

  /** The deltas go a, b, a, b, ... */
  ghost predicate Alternating(deltas: seq<int>, a: int, b: int) {
    forall i :: 0 <= i < |deltas| ==> deltas[i] == if i % 2 == 0 then a else b
  }

  lemma {:induction false} AlternatingTotal(xs: seq<int>, a: int, b: int, f: int -> real)
    requires Alternating(xs, a, b) && |xs| % 2 == 0
    ensures Total(xs, f) == Times(|xs| / 2, f(a) + f(b))
  {
    if xs == [] {
    } else {
      var n := |xs|;
      AlternatingTotal(xs[..n - 2], a, b, f);
      assert xs[..n - 1][..n - 2] == xs[..n - 2];
      assert xs[n - 2] == a && xs[n - 1] == b;
      assert Total(xs, f) == Total(xs[..n - 1], f) + f(b);
      assert Total(xs[..n - 1], f) == Total(xs[..n - 2], f) + f(a);
    }
  }

  lemma HalfBack(n: nat, c: real)
    requires n > 0 && n % 2 == 0
    ensures Times(n / 2, c) / n as real == c / 2.0
  {
    TimesIsProduct(n / 2, c);
    var h := (n / 2) as real;
    assert n as real == 2.0 * h;
    assert h * c / (2.0 * h) == c / 2.0;
  }

  lemma AlternatingMean(deltas: seq<int>, a: int, b: int)
    requires Alternating(deltas, a, b) && |deltas| % 2 == 0 && deltas != []
    ensures Mean(deltas) == (a + b) as real / 2.0
  {
    SumIsTotal(deltas);
    AlternatingTotal(deltas, a, b, AsReal());
    HalfBack(|deltas|, a as real + b as real);
  }

  lemma AlternatingVariance(deltas: seq<int>, a: int, b: int)
    requires Alternating(deltas, a, b) && |deltas| % 2 == 0 && deltas != []
    ensures Variance(deltas, (a + b) as real / 2.0) == Square((a - b) as real / 2.0)
  {
    var m := (a + b) as real / 2.0;
    var f := SquaredFrom(m);
    AlternatingTotal(deltas, a, b, f);
    HalfBack(|deltas|, f(a) + f(b));
    assert a as real - m == (a - b) as real / 2.0 && b as real - m == -((a - b) as real / 2.0);
    NegatedSquare((a - b) as real / 2.0);
  }

  lemma NegatedSquare(x: real)
    ensures Square(-x) == Square(x)
  {
  }

  lemma TruncateHalf(s: int)
    ensures Truncate(s as real / 2.0) == if s >= 0 then s / 2 else -(-s / 2)
  {
    var t := Abs(s);
    assert t as real / 2.0 == (t / 2) as real + (t % 2) as real / 2.0;
    assert (t as real / 2.0).Floor == t / 2;
    if s < 0 {
      assert -(s as real / 2.0) == t as real / 2.0;
    }
  }

  lemma SquareOrder(x: int, y: int)
    ensures Square(x as real / 2.0) < Abs(y) as real * Abs(y) as real <==> Abs(x) < 2 * Abs(y)
  {
    var p, q := Abs(x) as real / 2.0, Abs(y) as real;
    assert Square(x as real / 2.0) == p * p;
    if p < q {
      SquaresApart(q, p);
    } else if q < p {
      SquaresApart(p, q);
    }
  }

  lemma SquaresApart(q: real, p: real)
    requires 0.0 <= p < q
    ensures p * p < q * q
  {
    Positive(q - p, q + p);
    assert (q - p) * (q + p) == q * (q + p) - p * (q + p);
    assert q * (q + p) == q * q + q * p && p * (q + p) == p * q + p * p;
  }

  lemma Positive(x: real, y: real)
    requires x > 0.0 && y > 0.0
    ensures x * y > 0.0
  {
  }

  /** Both steps up, or both down. */
  predicate SameDirection(a: int, b: int) {
    (a > 0 && b > 0) || (a < 0 && b < 0)
  }

  lemma StepsAgainstDistance(a: int, b: int, step: int)
    requires step == if a + b >= 0 then (a + b) / 2 else -(-(a + b) / 2)
    ensures step != 0 && Abs(a - b) < 2 * Abs(step) <==> SameDirection(a, b)
  {
  }

  lemma AlternatingSpread(a: int, b: int)
    ensures LowVariance(Square((a - b) as real / 2.0), Truncate((a + b) as real / 2.0)) <==> SameDirection(a, b)
  {
    var step := Truncate((a + b) as real / 2.0);
    TruncateHalf(a + b);
    StepsAgainstDistance(a, b, step);
    SquareOrder(a - b, step);
  }

  lemma AlternatingIsLinear(deltas: seq<int>, a: int, b: int)
    requires Alternating(deltas, a, b) && |deltas| % 2 == 0 && deltas != []
    ensures IsLinear(deltas) <==> SameDirection(a, b)
  {
    AlternatingMean(deltas, a, b);
    AlternatingVariance(deltas, a, b);
    AlternatingSpread(a, b);
  }

  lemma AlternatingRepeats(deltas: seq<int>, a: int, b: int)
    requires Alternating(deltas, a, b) && |deltas| >= 4
    ensures Alternates(deltas) && deltas[0] == a
  {
  }

  lemma ContinueCases(deltas: seq<int>, last: int)
    ensures IsLinear(deltas) ==> Continue(deltas, last).pattern == Linear
    ensures !IsLinear(deltas) && Alternates(deltas) ==>
      Continue(deltas, last).pattern == Cyclic && Continue(deltas, last).nextPort == last + deltas[0]
  {
  }

  lemma AlternatingContinues(deltas: seq<int>, last: int, a: int, b: int)
    requires Alternating(deltas, a, b) && |deltas| % 2 == 0 && |deltas| >= 4
    ensures Continue(deltas, last).pattern == (if SameDirection(a, b) then Linear else Cyclic)
    ensures !SameDirection(a, b) ==> Continue(deltas, last).nextPort == last + a
  {
    AlternatingIsLinear(deltas, a, b);
    AlternatingRepeats(deltas, a, b);
    ContinueCases(deltas, last);
  }

  /** An even number of alternating deltas is linear just when both steps go the same way, and otherwise cyclic
      with the port that really comes next. */
  lemma AlternatingIsClassified(ports: seq<int>, a: int, b: int)
    requires |ports| >= 2 && |Deltas(ports)| >= 4 && |Deltas(ports)| % 2 == 0 && Alternating(Deltas(ports), a, b)
    ensures Predict(ports).pattern == (if SameDirection(a, b) then Linear else Cyclic)
    ensures !SameDirection(a, b) ==> Predict(ports).nextPort == ports[|ports| - 1] + a
  {
    AlternatingContinues(Deltas(ports), ports[|ports| - 1], a, b);
  }

  /** A cyclic prediction continues with the first delta; that is the alternation's own next delta exactly when
      their number is even or the two deltas are equal. */
  lemma CyclicContinuation(ports: seq<int>)
    requires Predict(ports).pattern == Cyclic
    ensures var p, n := Predict(ports), |Deltas(ports)|;
      p.nextPort == ports[|ports| - 1] + p.deltas[n % 2] <==> n % 2 == 0 || p.deltas[0] == p.deltas[1]
  {
  }

  /** With an odd number of different deltas it is not: 106 is predicted where the alternation returns to 100. */
  lemma OddAlternationMisses()
    ensures var ports := [100, 103, 100, 103, 100, 103];
      && Deltas(ports) == [3, -3, 3, -3, 3]
      && Predict(ports).pattern == Cyclic && Predict(ports).nextPort == 106
  {
    var ports := [100, 103, 100, 103, 100, 103];
    var deltas := Deltas(ports);
    DeltasAt(ports, 0);
    DeltasAt(ports, 1);
    DeltasAt(ports, 2);
    DeltasAt(ports, 3);
    DeltasAt(ports, 4);
    assert |deltas| == 5 && deltas == [deltas[0], deltas[1], deltas[2], deltas[3], deltas[4]];
    OddMean(deltas);
  }

  lemma OddMean(deltas: seq<int>)
    requires deltas == [3, -3, 3, -3, 3]
    ensures Truncate(Mean(deltas)) == 0
  {
    var a, b, c, d: seq<int> := [3], [3, -3], [3, -3, 3], [3, -3, 3, -3];
    assert b[..1] == a && c[..2] == b && d[..3] == c && deltas[..4] == d;
    assert Sum(a) == 3 && Sum(b) == 0;
    assert Sum(c) == 3 && Sum(d) == 0;
    assert Sum(deltas) == 3;
  }

  // --- the returned window -------------------------------------------------

  /** Deltas that, added to the last port, reach a valid port outside the returned window. */
  function Escapes(last: int, p: Prediction): int -> bool {
    x => 1 <= last + x <= 65535 && !(p.windowStart <= last + x <= p.windowEnd)
  }

  lemma {:induction false} CountMonotone(xs: seq<int>, p: int -> bool, q: int -> bool)
    requires forall x :: p(x) ==> q(x)
    ensures Count(xs, p) <= Count(xs, q)
  {
    if xs == [] {
    } else {
      CountMonotone(xs[..|xs| - 1], p, q);
    }
  }

  lemma EscapesMiss(last: int, step: int, deltas: seq<int>, x: int)
    requires Escapes(last, Around(Linear, last + step, 2 * Abs(step), deltas))(x)
    ensures Misses(step)(x)
  {
    var lo, hi := last + step - 2 * Abs(step), last + step + 2 * Abs(step);
    assert !(Clamp(lo) <= last + x <= Clamp(hi));
    ClampKeepsValidPorts(lo, hi, last + x);
    assert x - step < -(2 * Abs(step)) || x - step > 2 * Abs(step);
    assert Abs(x - step) > 2 * Abs(step);
  }

  /** When the pattern is linear, fewer than a quarter of the deltas lead to a valid port outside the window returned. */
  lemma ReturnedWindowCovers(ports: seq<int>)
    requires Predict(ports).pattern == Linear
    ensures var p := Predict(ports);
      4 * Count(p.deltas, Escapes(ports[|ports| - 1], p)) < |p.deltas|
  {
    var p, last := Predict(ports), ports[|ports| - 1];
    var step := p.nextPort - last;
    forall x | Escapes(last, p)(x) ensures Misses(step)(x) {
      EscapesMiss(last, step, p.deltas, x);
    }
    CountMonotone(p.deltas, Escapes(last, p), Misses(step));
    WindowCoversMost(ports);
  }

  // --- the whole classification in whole numbers ---------------------------

  /** `s` divided by `n`, rounded toward zero. */
  predicate Quotient(q: int, s: int, n: nat) {
    if s >= 0 then q >= 0 && n * q <= s < n * (q + 1) else q <= 0 && n * (q - 1) < s <= n * q
  }

  lemma ProductOrder(r: real, d: real)
    requires r > 0.0
    ensures d < 0.0 ==> r * d < 0.0
    ensures d >= 1.0 ==> r * d >= r
  {
    if d < 0.0 {
      assert r * -d > 0.0;
    } else if d >= 1.0 {
      assert r * (d - 1.0) >= 0.0;
    }
  }

  lemma Between(r: real, m: real, x: real, rm: real, rx: real)
    requires r > 0.0 && rm == r * m && rx == r * x && rx <= rm < rx + r
    ensures x <= m < x + 1.0
  {
    var d := m - x;
    ProductOrder(r, d);
    assert r * d == rm - rx;
  }

  lemma FloorIsQuotient(m: real, q: nat, s: nat, n: nat)
    requires n > 0 && n * q <= s < n * (q + 1) && n as real * m == s as real
    ensures m.Floor == q
  {
    var nq := n * q;
    assert n * (q + 1) == nq + n && n as real * q as real == nq as real;
    Between(n as real, m, q as real, s as real, nq as real);
  }

  lemma TruncateIsQuotient(m: real, q: int, s: int, n: nat)
    requires n > 0 && n as real * m == s as real && Quotient(q, s, n)
    ensures Truncate(m) == q
  {
    if s >= 0 {
      FloorIsQuotient(m, q, s, n);
      assert m >= 0.0;
    } else {
      assert n * -q == -(n * q) && n * (-q + 1) == -(n * (q - 1));
      assert n as real * -m == (-s) as real;
      FloorIsQuotient(-m, -q, -s, n);
      assert m < 0.0;
    }
  }

  function SumOfSquares(xs: seq<int>): int {
    if xs == [] then 0 else SumOfSquares(xs[..|xs| - 1]) + xs[|xs| - 1] * xs[|xs| - 1]
  }

  lemma SquaredFromIs(x: int, m: real)
    ensures SquaredFrom(m)(x) == (x * x) as real - 2.0 * (m * x as real) + m * m
  {
  }

  lemma {:induction false} SpreadIs(xs: seq<int>, m: real)
    ensures Spread(xs, m) == SumOfSquares(xs) as real - 2.0 * (m * Sum(xs) as real) + Times(|xs|, m * m)
  {
    if xs == [] {
    } else {
      var front, x := xs[..|xs| - 1], xs[|xs| - 1];
      SpreadIs(front, m);
      SquaredFromIs(x, m);
      assert m * Sum(xs) as real == m * Sum(front) as real + m * x as real;
    }
  }

  lemma {:induction false} DeltasTelescope(ports: seq<int>)
    requires ports != []
    ensures Sum(Deltas(ports)) == ports[|ports| - 1] - ports[0]
  {
    if |ports| == 1 {
    } else {
      var front := ports[..|ports| - 1];
      DeltasTelescope(front);
      assert Deltas(ports)[..|ports| - 2] == Deltas(front);
    }
  }

  lemma Associated(r: real, m: real, s: real, ms: real, mm: real)
    requires r * m == s && ms == m * s && mm == m * m
    ensures r * mm == ms && r * ms == s * s
  {
    assert r * (m * m) == (r * m) * m && r * (m * s) == (r * m) * s;
  }

  lemma Rescaled(v: real, r: real, spread: real, q: real, ms: real, rq: real, ss: real)
    requires v * r == spread && spread == q - ms && rq == r * q && ss == r * ms
    ensures v * (r * r) == rq - ss
  {
    assert v * (r * r) == (v * r) * r == r * (q - ms) == r * q - r * ms;
  }

  /** The variance times the square of the count. */
  lemma VarianceScaled(v: real, spread: real, m: real, ms: real, mm: real, n: nat, squares: int, sum: int)
    requires n > 0 && n as real * m == sum as real && v * n as real == spread
    requires ms == m * sum as real && mm == m * m && spread == squares as real - 2.0 * ms + Times(n, mm)
    ensures v * (n * n) as real == (n * squares - sum * sum) as real
  {
    var r, s := n as real, sum as real;
    TimesIsProduct(n, mm);
    Associated(r, m, s, ms, mm);
    Rescaled(v, r, spread, squares as real, ms, (n * squares) as real, (sum * sum) as real);
  }

  lemma Scaled(v: real, k: real, w: real, vk: real, wk: real)
    requires k > 0.0 && vk == v * k && wk == w * k
    ensures v < w <==> vk < wk
  {
    var d := w - v;
    assert d * k == wk - vk;
    if d > 0.0 {
      assert d * k > 0.0;
    } else {
      assert -d * k >= 0.0;
    }
  }

  lemma LowVarianceScaled(v: real, step: int, k: nat, scaled: int)
    requires k > 0 && v * k as real == scaled as real
    ensures LowVariance(v, step) <==> step != 0 && scaled < k * (step * step)
  {
    var w := step * step;
    AbsSquare(step);
    assert Square(step as real) == w as real;
    Scaled(v, k as real, w as real, scaled as real, (k * w) as real);
  }

  /** The mean step is not zero, and the deltas scatter around their mean by less than it. */
  predicate Steady(n: nat, squares: int, sum: int, step: int) {
    step != 0 && n * squares - sum * sum < n * n * (step * step)
  }

  lemma MeanScaled(xs: seq<int>)
    requires xs != []
    ensures |xs| as real * Mean(xs) == Sum(xs) as real
  {
  }

  lemma StepIsQuotient(deltas: seq<int>, step: int)
    requires deltas != [] && Quotient(step, Sum(deltas), |deltas|)
    ensures Truncate(Mean(deltas)) == step
  {
    MeanScaled(deltas);
    TruncateIsQuotient(Mean(deltas), step, Sum(deltas), |deltas|);
  }

  lemma DivisionUndone(spread: real, r: real)
    requires r > 0.0
    ensures spread / r * r == spread
  {
  }

  lemma VarianceTimes(xs: seq<int>, m: real)
    requires xs != []
    ensures Variance(xs, m) * |xs| as real == Spread(xs, m)
  {
    DivisionUndone(Spread(xs, m), |xs| as real);
  }

  lemma VarianceOfDeltas(deltas: seq<int>, m: real, v: real, spread: real, n: nat, squares: int, sum: int)
    requires n == |deltas| > 0 && squares == SumOfSquares(deltas) && sum == Sum(deltas) && n as real * m == sum as real
    requires v * n as real == spread && spread == Spread(deltas, m)
    ensures v * (n * n) as real == (n * squares - sum * sum) as real
  {
    var ms, mm := m * sum as real, m * m;
    assert spread == squares as real - 2.0 * ms + Times(n, mm) by {
      SpreadIs(deltas, m);
    }
    VarianceScaled(v, spread, m, ms, mm, n, squares, sum);
  }

  lemma SteadyIsLow(v: real, step: int, n: nat, squares: int, sum: int)
    requires n > 0 && v * (n * n) as real == (n * squares - sum * sum) as real
    ensures LowVariance(v, step) <==> Steady(n, squares, sum, step)
  {
    assert n * n > 0;
    LowVarianceScaled(v, step, n * n, n * squares - sum * sum);
  }

  lemma SteadyDeltas(deltas: seq<int>, m: real, step: int, n: nat, squares: int, sum: int)
    requires n == |deltas| > 0 && squares == SumOfSquares(deltas) && sum == Sum(deltas) && n as real * m == sum as real
    ensures LowVariance(Variance(deltas, m), step) <==> Steady(n, squares, sum, step)
  {
    VarianceTimes(deltas, m);
    VarianceOfDeltas(deltas, m, Variance(deltas, m), Spread(deltas, m), n, squares, sum);
    SteadyIsLow(Variance(deltas, m), step, n, squares, sum);
  }

  lemma LinearIsSteady(deltas: seq<int>, step: int, n: nat, squares: int, sum: int)
    requires n == |deltas| > 0 && squares == SumOfSquares(deltas) && sum == Sum(deltas) && Quotient(step, sum, n)
    ensures IsLinear(deltas) <==> Steady(n, squares, sum, step)
  {
    StepIsQuotient(deltas, step);
    MeanScaled(deltas);
    SteadyDeltas(deltas, Mean(deltas), step, n, squares, sum);
  }

  /** The port of 1..65535 that is nearest to a number. */
  predicate NearestPort(port: int, x: int) {
    1 <= port <= 65535 && forall q :: 1 <= q <= 65535 ==> Gap(port, x) <= Gap(q, x)
  }

  function Gap(a: int, b: int): nat {
    if a <= b then b - a else a - b
  }

  predicate Window(p: Prediction, next: int, half: nat) {
    p.nextPort == next && NearestPort(p.windowStart, next - half) && NearestPort(p.windowEnd, next + half)
  }

  lemma AroundIsWindow(pattern: Pattern, next: int, half: nat, deltas: seq<int>)
    ensures Window(Around(pattern, next, half, deltas), next, half)
  {
  }

  /** What a classification has to be, given whether the deltas are steady. */
  predicate Classified(p: Prediction, last: int, step: int, deltas: seq<int>, steady: bool) {
    && p.deltas == deltas && deltas != []
    && (p.pattern == Linear <==> steady) && (p.pattern == Cyclic <==> !steady && Alternates(deltas))
    && (p.pattern == Random <==> !steady && !Alternates(deltas))
    && (p.pattern == Linear ==> Window(p, last + step, 2 * Gap(step, 0)))
    && (p.pattern == Cyclic ==> Window(p, last + deltas[0], Gap(deltas[0], 0)))
    && (p.pattern == Random ==> p.nextPort == p.windowStart == p.windowEnd == 0)
  }

  lemma ContinueIsClassified(deltas: seq<int>, last: int, step: int, steady: bool)
    requires deltas != [] && Truncate(Mean(deltas)) == step && (IsLinear(deltas) <==> steady)
    ensures Classified(Continue(deltas, last), last, step, deltas, steady)
  {
    AroundIsWindow(Linear, last + step, 2 * Gap(step, 0), deltas);
    AroundIsWindow(Cyclic, last + deltas[0], Gap(deltas[0], 0), deltas);
  }

  /**
   * The classification in whole numbers, with the mean step rounded toward zero: linear when the deltas are steady,
   * with two steps around the next port; cyclic when they are not but repeat with period two, with one first delta
   * around it; otherwise random, with no window at all.
   */
  lemma PredictionIs(ports: seq<int>, deltas: seq<int>, last: int, sum: int, step: int)
    requires |ports| >= 2 && |deltas| == |ports| - 1
    requires forall i :: 0 <= i < |deltas| ==> deltas[i] == ports[i + 1] - ports[i]
    requires last == ports[|ports| - 1] && sum == last - ports[0] && Quotient(step, sum, |deltas|)
    ensures Classified(Predict(ports), last, step, deltas, Steady(|deltas|, SumOfSquares(deltas), sum, step))
  {
    forall i | 0 <= i < |deltas| ensures Deltas(ports)[i] == deltas[i] {
      DeltasAt(ports, i);
    }
    assert Deltas(ports) == deltas;
    DeltasTelescope(ports);
    StepIsQuotient(deltas, step);
    LinearIsSteady(deltas, step, |deltas|, SumOfSquares(deltas), sum);
    ContinueIsClassified(deltas, last, step, Steady(|deltas|, SumOfSquares(deltas), sum, step));
  }

  /** Below two ports nothing is predicted. */
  lemma TooFewPorts(ports: seq<int>)
    ensures |ports| < 2 <==> Predict(ports).pattern == Insufficient
    ensures |ports| < 2 ==> Predict(ports) == Prediction(Insufficient, 0, 0, 0, [])
  {
  }
}
