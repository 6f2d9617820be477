/** Runs of deterministic machines, and simulation between two of them. */
module Runs {

  /** What one input leads to: the next state and a verdict. */
  datatype Out<S, V> = Out(state: S, verdict: V)

  type Machine<!S, !P, V> = (S, P) -> Out<S, V>

  /** The state after a run. */
  function End<S, P, V>(m: Machine<S, P, V>, s: S, ps: seq<P>): S {
    if ps == [] then s else m(End(m, s, ps[..|ps| - 1]), ps[|ps| - 1]).state
  }

  /** The verdicts of a run, input by input. */
  function Log<S, P, V>(m: Machine<S, P, V>, s: S, ps: seq<P>): (r: seq<V>)
    ensures |r| == |ps|
  {
    if ps == [] then []
    else Log(m, s, ps[..|ps| - 1]) + [m(End(m, s, ps[..|ps| - 1]), ps[|ps| - 1]).verdict]
  }

  lemma Snoc<S, P, V>(m: Machine<S, P, V>, s: S, ps: seq<P>, p: P)
    ensures End(m, s, ps + [p]) == m(End(m, s, ps), p).state
    ensures Log(m, s, ps + [p]) == Log(m, s, ps) + [m(End(m, s, ps), p).verdict]
  {
    assert (ps + [p])[..|ps|] == ps;
  }

  lemma {:induction false} Concat<S, P, V>(m: Machine<S, P, V>, s: S, a: seq<P>, b: seq<P>)
    ensures End(m, s, a + b) == End(m, End(m, s, a), b)
    ensures Log(m, s, a + b) == Log(m, s, a) + Log(m, End(m, s, a), b)
  {
    if b == [] {
      assert a + b == a;
    } else {
      var front := b[..|b| - 1];
      assert (a + b)[..|a + b| - 1] == a + front;
      Concat(m, s, a, front);
    }
  }

  lemma {:induction false} LogAt<S, P, V>(m: Machine<S, P, V>, s: S, ps: seq<P>, i: nat)
    requires i < |ps|
    ensures Log(m, s, ps)[i] == m(End(m, s, ps[..i]), ps[i]).verdict
  {
    var front := ps[..|ps| - 1];
    if i < |front| {
      LogAt(m, s, front, i);
      assert front[..i] == ps[..i];
    }
  }

  ghost predicate InOrder<P>(ps: seq<P>, now: P -> real) {
    forall i, j :: 0 <= i < j < |ps| ==> now(ps[i]) <= now(ps[j])
  }

  /** Which inputs of one machine another machine gets to see, depending on their verdicts. */
  function Selected<S, P, V, Q>(m: Machine<S, P, V>, s: S, ps: seq<P>, keep: (P, V) -> bool, proj: P -> Q): seq<Q> {
    if ps == [] then []
    else
      var front, p := ps[..|ps| - 1], ps[|ps| - 1];
      var seen := Selected(m, s, front, keep, proj);
      if keep(p, m(End(m, s, front), p).verdict) then seen + [proj(p)] else seen
  }

  /** The verdicts of the selected inputs. */
  function SelectedLog<S, P, V, W>(m: Machine<S, P, V>, s: S, ps: seq<P>, keep: (P, V) -> bool, view: V -> W): seq<W> {
    if ps == [] then []
    else
      var front, p := ps[..|ps| - 1], ps[|ps| - 1];
      var v := m(End(m, s, front), p).verdict;
      var seen := SelectedLog(m, s, front, keep, view);
      if keep(p, v) then seen + [view(v)] else seen
  }

  /** One input keeps the states related, and a selected one gets the same verdict on both sides. */
  ghost predicate StepsAgree<S, P, V, T, Q, W>(m: Machine<S, P, V>, n: Machine<T, Q, W>, keep: (P, V) -> bool, proj: P -> Q,
                                              view: V -> W, rel: (S, T, real) -> bool, now: P -> real,
                                              a: S, b: T, t: real, p: P)
  {
    rel(a, b, t) && t <= now(p) ==>
      var o := m(a, p);
      if keep(p, o.verdict)
      then rel(o.state, n(b, proj(p)).state, now(p)) && n(b, proj(p)).verdict == view(o.verdict)
      else rel(o.state, b, now(p))
  }

  ghost predicate Simulates<S(!new), P(!new), V, T(!new), Q, W>(
    m: Machine<S, P, V>, n: Machine<T, Q, W>, keep: (P, V) -> bool, proj: P -> Q, view: V -> W,
    rel: (S, T, real) -> bool, now: P -> real)
  {
    forall a, b, t, p :: StepsAgree(m, n, keep, proj, view, rel, now, a, b, t, p)
  }

  /** Step by step agreement makes whole runs agree: on the selected inputs the two machines give the same verdicts. */
  lemma {:induction false} Simulation<S(!new), P(!new), V, T(!new), Q, W>(
    m: Machine<S, P, V>, n: Machine<T, Q, W>, keep: (P, V) -> bool, proj: P -> Q, view: V -> W,
    rel: (S, T, real) -> bool, now: P -> real, s: S, t: T, ps: seq<P>, start: real, end: real)
    requires Simulates(m, n, keep, proj, view, rel, now) && rel(s, t, start)
    requires InOrder(ps, now) && (if ps == [] then end == start else start <= now(ps[0]) && end == now(ps[|ps| - 1]))
    ensures rel(End(m, s, ps), End(n, t, Selected(m, s, ps, keep, proj)), end)
    ensures Log(n, t, Selected(m, s, ps, keep, proj)) == SelectedLog(m, s, ps, keep, view)
  {
    if ps == [] {
    } else {
      var front, p := ps[..|ps| - 1], ps[|ps| - 1];
      var mid := if front == [] then start else now(front[|front| - 1]);
      Simulation(m, n, keep, proj, view, rel, now, s, t, front, start, mid);
      var a, seen := End(m, s, front), Selected(m, s, front, keep, proj);
      var b := End(n, t, seen);
      assert StepsAgree(m, n, keep, proj, view, rel, now, a, b, mid, p);
      if keep(p, m(a, p).verdict) {
        Snoc(n, t, seen, proj(p));
      }
    }
  }
}
