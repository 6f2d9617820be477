/** The iterative lookup of internal/dht/lookup.go: rounds of parallel queries feeding a capped shortlist. */
module Lookup {
  import opened Options
  import opened Keys
  import opened Routing
  import opened Table
  import Shortlist

  datatype Params = Params(alpha: int, k: int, maxRounds: int)

  /** The tunables with non-positive ones replaced by 3, 20 and 160. */
  function WithDefaults(p: Params): (r: Params)
    ensures r.alpha > 0 && r.k > 0 && r.maxRounds > 0
    ensures r.alpha != p.alpha ==> p.alpha <= 0 && r.alpha == 3
    ensures r.k != p.k ==> p.k <= 0 && r.k == 20
    ensures r.maxRounds != p.maxRounds ==> p.maxRounds <= 0 && r.maxRounds == 160
  {
    Params(
      if p.alpha <= 0 then 3 else p.alpha,
      if p.k <= 0 then BUCKET_CAPACITY else p.k,
      if p.maxRounds <= 0 then KEY_BITS else p.maxRounds)
  }

  /** What each node answers. A search asks a node at most once, so its one answer depends on its ID alone. */
  type Query = NodeId -> seq<Option<Node>>

  /** Every node heard of carries the key its ID determines. */
  ghost predicate WellKeyed(env: Env, query: Query) {
    forall id, a :: a in query(id) && a.Some? ==> a.value.key == env.keyOf(a.value.id)
  }

  /** The IDs in an answer, without absent entries and without the local node. */
  ghost function AnswerIds(env: Env, answer: seq<Option<Node>>): set<NodeId> {
    set a | a in answer && a.Some? && a.value.key != env.self :: a.value.id
  }

  /** The IDs heard of when exactly `asked` have answered. */
  ghost function Heard(env: Env, query: Query, asked: set<NodeId>): set<NodeId> {
    set id, a | id in asked && a in query(id) && a.Some? && a.value.key != env.self :: a.value.id
  }

  lemma HeardOneMore(env: Env, query: Query, asked: set<NodeId>, id: NodeId)
    ensures Heard(env, query, asked + {id}) == Heard(env, query, asked) + AnswerIds(env, query(id))
  {
  }

  lemma HeardUnion(env: Env, query: Query, a: set<NodeId>, b: set<NodeId>)
    ensures Heard(env, query, a + b) == Heard(env, query, a) + Heard(env, query, b)
  {
  }

  // --- one candidate -------------------------------------------------------

  ghost predicate AllKeyed(env: Env, s: seq<Node>) {
    forall n :: n in s ==> n.key == env.keyOf(n.id)
  }

  lemma IdsOfSorted(env: Env, best: seq<Node>, n: Node, s: seq<Node>, target: Key)
    requires multiset(s) == multiset(best + [n]) && AllKeyed(env, best + [n])
    requires forall i, j :: 0 <= i < j < |s| ==> Dist(target, s[i].key) <= Dist(target, s[j].key)
    ensures AllKeyed(env, s) && Shortlist.Ascending(Ids(s), DistanceFrom(env, target))
  {
    Shortlist.SameMembers(s, best + [n]);
    forall m | m in s ensures m.key == env.keyOf(m.id) {
      assert m in Shortlist.Elements(s);
    }
    forall i, j | 0 <= i < j < |s|
      ensures DistanceFrom(env, target)(Ids(s)[i]) <= DistanceFrom(env, target)(Ids(s)[j])
    {
      assert s[i] in s && s[j] in s;
    }
  }

  lemma TakeOut(t: seq<Node>, j: nat)
    requires j < |t|
    ensures multiset(Without(t, j)) == multiset(t) - multiset{t[j]}
    ensures multiset(Ids(t)) == multiset(Ids(Without(t, j))) + multiset{t[j].id}
  {
    assert t == t[..j] + [t[j]] + t[j + 1..];
    assert Ids(t) == Ids(t[..j]) + [t[j].id] + Ids(t[j + 1..]);
    assert Ids(Without(t, j)) == Ids(t[..j]) + Ids(t[j + 1..]);
  }

  /** Permuting nodes permutes their IDs. */
  lemma {:induction false} IdsPermuted(s: seq<Node>, t: seq<Node>)
    requires multiset(s) == multiset(t)
    ensures multiset(Ids(s)) == multiset(Ids(t))
    decreases |s|
  {
    Shortlist.SameMembers(s, t);
    if s == [] {
    } else {
      var j :| 0 <= j < |t| && t[j] == s[0] by {
        assert s[0] in Shortlist.Elements(s);
      }
      TakeOut(s, 0);
      TakeOut(t, j);
      IdsPermuted(Without(s, 0), Without(t, j));
    }
  }

  lemma MergedShortlist(best: seq<Node>, n: Node, s: seq<Node>, target: Key, cap: nat, env: Env, pool: set<NodeId>)
    requires AllKeyed(env, best + [n]) && Shortlist.Nearest(Ids(best), pool, cap, DistanceFrom(env, target))
    requires n.id !in Ids(best) && multiset(s) == multiset(best + [n])
    requires forall i, j :: 0 <= i < j < |s| ==> Dist(target, s[i].key) <= Dist(target, s[j].key)
    ensures AllKeyed(env, s)
    ensures Shortlist.Nearest(Ids(if |s| > cap then s[..cap] else s), pool + {n.id}, cap, DistanceFrom(env, target))
  {
    IdsOfSorted(env, best, n, s, target);
    IdsPermuted(s, best + [n]);
    assert Ids(best + [n]) == Ids(best) + [n.id];
    Shortlist.Merge(Ids(best), pool, cap, DistanceFrom(env, target), n.id, Ids(s));
    assert Ids(s)[..Shortlist.Min(cap, |s|)] == Ids(if |s| > cap then s[..cap] else s);
  }

  lemma MergedDistinct(best: seq<Node>, n: Node, s: seq<Node>, c: nat)
    requires Shortlist.Distinct(Ids(best)) && n.id !in Ids(best) && multiset(s) == multiset(best + [n]) && c <= |s|
    ensures Shortlist.Distinct(Ids(s[..c]))
    ensures forall m :: m in s[..c] ==> m in best || m == n
  {
    assert Ids(best + [n]) == Ids(best) + [n.id];
    IdsPermuted(s, best + [n]);
    Shortlist.SamePermutationDistinct(Ids(s), Ids(best + [n]));
    assert Ids(s[..c]) == Ids(s)[..c];
    Shortlist.SameMembers(s, best + [n]);
    forall m | m in s[..c] ensures m in best || m == n {
      assert m in Shortlist.Elements(s);
    }
  }

  lemma KnownInPool(best: seq<Node>, i: nat, pool: set<NodeId>, cap: nat, d: NodeId -> int)
    requires i < |best| && Shortlist.Nearest(Ids(best), pool, cap, d)
    ensures pool + {best[i].id} == pool
  {
    assert Ids(best)[i] in Shortlist.Elements(Ids(best));
  }

  /** A shortlist of nodes, with the keys their IDs determine. */
  ghost predicate Listed(best: seq<Node>, pool: set<NodeId>, cap: nat, env: Env, target: Key) {
    AllKeyed(env, best) && Shortlist.Nearest(Ids(best), pool, cap, DistanceFrom(env, target))
  }

  /** Inserts one node into a distance-sorted shortlist of at most `cap`. */
  method MergeBest(best: seq<Node>, n: Node, target: Key, cap: nat, ghost env: Env, ghost pool: set<NodeId>)
    returns (out: seq<Node>)
    requires Shortlist.Distinct(Ids(best)) && |best| <= cap
    ensures Shortlist.Distinct(Ids(out)) && |out| <= cap
    ensures forall m :: m in out ==> m in best || m == n
    ensures n.id in Ids(best) ==> out == best
    ensures Listed(best, pool, cap, env, target) && n.key == env.keyOf(n.id)
      ==> Listed(out, pool + {n.id}, cap, env, target)
  {
    for i := 0 to |best|
      invariant n.id !in Ids(best)[..i]
    {
      if best[i].id == n.id {
        if Listed(best, pool, cap, env, target) {
          KnownInPool(best, i, pool, cap, DistanceFrom(env, target));
        }
        return best;
      }
    }
    assert Ids(best)[..|best|] == Ids(best);
    var sorted := SortByDistance(best + [n], target);
    out := if |sorted| > cap then sorted[..cap] else sorted;
    assert sorted[..|sorted|] == sorted;
    MergedDistinct(best, n, sorted, |out|);
    if Listed(best, pool, cap, env, target) && n.key == env.keyOf(n.id) {
      MergedShortlist(best, n, sorted, target, cap, env, pool);
      assert forall m :: m in out ==> m in sorted;
    }
  }

  // --- one answer, one round -----------------------------------------------

  ghost predicate NoLocal(env: Env, s: seq<Node>) {
    forall n :: n in s ==> n.key != env.self
  }

  /** A shortlist in good order: no ID twice, within its cap, without the local node, only IDs of the pool;
      and, when keys are determined by IDs, exactly the nearest of the pool. */
  ghost predicate Tracks(best: seq<Node>, pool: set<NodeId>, cap: nat, env: Env, target: Key, keyed: bool) {
    && Shortlist.Distinct(Ids(best)) && |best| <= cap && NoLocal(env, best) && BucketSet(best) <= pool
    && (keyed ==> Listed(best, pool, cap, env, target))
  }

  predicate Counts(env: Env, a: Option<Node>) {
    a.Some? && a.value.key != env.self
  }

  lemma AnswerPrefix(env: Env, answer: seq<Option<Node>>, i: nat)
    requires i < |answer|
    ensures AnswerIds(env, answer[..i + 1])
      == AnswerIds(env, answer[..i]) + if Counts(env, answer[i]) then {answer[i].value.id} else {}
  {
    assert answer[..i + 1] == answer[..i] + [answer[i]];
    forall a ensures a in answer[..i + 1] <==> a in answer[..i] || a == answer[i] {
    }
    var grown := AnswerIds(env, answer[..i]) + if Counts(env, answer[i]) then {answer[i].value.id} else {};
    forall x | x in grown ensures x in AnswerIds(env, answer[..i + 1]) {
      var a :| (a in answer[..i] || a == answer[i]) && Counts(env, a) && a.value.id == x;
      assert a in answer[..i + 1];
    }
  }

  lemma SkippedNode(env: Env, answer: seq<Option<Node>>, i: nat, asked: set<NodeId>, pool: set<NodeId>)
    requires i < |answer| && (!Counts(env, answer[i]) || answer[i].value.id in asked) && asked <= pool
    ensures AnswerIds(env, answer[..i + 1]) - asked == AnswerIds(env, answer[..i]) - asked
    ensures pool + AnswerIds(env, answer[..i + 1]) == pool + AnswerIds(env, answer[..i])
  {
    AnswerPrefix(env, answer, i);
  }

  lemma MergedNode(env: Env, answer: seq<Option<Node>>, i: nat, asked: set<NodeId>, pool: set<NodeId>)
    requires i < |answer| && Counts(env, answer[i]) && answer[i].value.id !in asked
    ensures AnswerIds(env, answer[..i + 1]) - asked != {}
    ensures pool + AnswerIds(env, answer[..i]) + {answer[i].value.id} == pool + AnswerIds(env, answer[..i + 1])
  {
    AnswerPrefix(env, answer, i);
    assert answer[i].value.id in AnswerIds(env, answer[..i + 1]) - asked;
  }

  /** `MergeBest` keeps a shortlist tracking its pool. */
  method MergeTracked(best: seq<Node>, n: Node, target: Key, cap: nat, ghost env: Env, ghost pool: set<NodeId>,
                      ghost keyed: bool)
    returns (out: seq<Node>)
    requires Tracks(best, pool, cap, env, target, keyed) && n.key != env.self
    requires keyed ==> n.key == env.keyOf(n.id)
    ensures Tracks(out, pool + {n.id}, cap, env, target, keyed)
    ensures Shortlist.Elements(out) <= Shortlist.Elements(best) + {n}
  {
    out := MergeBest(best, n, target, cap, env, pool);
  }

  ghost predicate Truthful(env: Env, answer: seq<Option<Node>>) {
    forall a :: a in answer && a.Some? ==> a.value.key == env.keyOf(a.value.id)
  }

  /** The nodes in an answer. */
  ghost function NodesIn(answer: seq<Option<Node>>): set<Node> {
    set a | a in answer && a.Some? :: a.value
  }

  /** The nodes in the answers of `asked`. */
  ghost function NodesOf(query: Query, asked: set<NodeId>): set<Node> {
    set id, a | id in asked && a in query(id) && a.Some? :: a.value
  }

  lemma NodesOfMore(query: Query, asked: set<NodeId>, more: set<NodeId>)
    requires asked <= more
    ensures NodesOf(query, asked) <= NodesOf(query, more)
  {
  }

  lemma NodesOfOne(query: Query, asked: set<NodeId>, id: NodeId)
    requires id in asked
    ensures NodesIn(query(id)) <= NodesOf(query, asked)
  {
  }

  /** Feeds one answer into the shortlist, skipping absent nodes, nodes already asked and the local node. */
  method Absorb(best: seq<Node>, answer: seq<Option<Node>>, asked: set<NodeId>, target: Key, cap: nat, env: Env,
                ghost pool: set<NodeId>, ghost keyed: bool)
    returns (out: seq<Node>, progressed: bool)
    requires Tracks(best, pool, cap, env, target, keyed) && asked <= pool && (keyed ==> Truthful(env, answer))
    ensures Tracks(out, pool + AnswerIds(env, answer), cap, env, target, keyed)
    ensures Shortlist.Elements(out) <= Shortlist.Elements(best) + NodesIn(answer)
    ensures progressed <==> AnswerIds(env, answer) - asked != {}
  {
    out, progressed := best, false;
    assert AnswerIds(env, answer[..0]) == {} && pool + {} == pool;
    for i := 0 to |answer|
      invariant Tracks(out, pool + AnswerIds(env, answer[..i]), cap, env, target, keyed)
      invariant Shortlist.Elements(out) <= Shortlist.Elements(best) + NodesIn(answer)
      invariant progressed <==> AnswerIds(env, answer[..i]) - asked != {}
    {
      var a := answer[i];
      if a.None? || a.value.id in asked || a.value.key == env.self {
        SkippedNode(env, answer, i, asked, pool);
      } else {
        MergedNode(env, answer, i, asked, pool);
        assert a in answer && a.value in NodesIn(answer);
        out := MergeTracked(out, a.value, target, cap, env, pool + AnswerIds(env, answer[..i]), keyed);
        progressed := true;
      }
    }
    assert answer[..|answer|] == answer;
  }

  lemma SplitPending(pending: seq<Node>, i: nat)
    requires i < |pending|
    ensures BucketSet(pending) == BucketSet(Without(pending, i)) + {pending[i].id}
  {
    var rest := Without(pending, i);
    assert pending == pending[..i] + [pending[i]] + pending[i + 1..];
    forall m ensures m in pending <==> m in rest || m == pending[i] {
    }
    forall x | x in BucketSet(rest) + {pending[i].id} ensures x in BucketSet(pending) {
      var m :| (m in rest || m == pending[i]) && m.id == x;
      assert m in pending;
    }
  }

  lemma OneMoreAnswer(env: Env, query: Query, answered: set<NodeId>, id: NodeId, asked: set<NodeId>, pool: set<NodeId>)
    ensures pool + Heard(env, query, answered) + AnswerIds(env, query(id)) == pool + Heard(env, query, answered + {id})
    ensures Heard(env, query, answered + {id}) - asked != {} <==>
      Heard(env, query, answered) - asked != {} || AnswerIds(env, query(id)) - asked != {}
  {
    HeardOneMore(env, query, answered, id);
    var heard, more := Heard(env, query, answered), AnswerIds(env, query(id));
    assert (heard + more) - asked == (heard - asked) + (more - asked);
  }

  /** Receives the answers of one round in an arbitrary order. */
  method Receive(best: seq<Node>, todo: seq<Node>, asked: set<NodeId>, query: Query, target: Key, cap: nat, env: Env,
                 ghost pool: set<NodeId>)
    returns (out: seq<Node>, progressed: bool)
    requires Tracks(best, pool, cap, env, target, WellKeyed(env, query)) && asked <= pool
    ensures Tracks(out, pool + Heard(env, query, BucketSet(todo)), cap, env, target, WellKeyed(env, query))
    ensures Shortlist.Elements(out) <= Shortlist.Elements(best) + NodesOf(query, BucketSet(todo))
    ensures progressed <==> Heard(env, query, BucketSet(todo)) - asked != {}
  {
    out, progressed := best, false;
    var pending := todo;
    ghost var answered: set<NodeId>, keyed := {}, WellKeyed(env, query);
    assert Heard(env, query, {}) == {} && pool + {} == pool;
    while pending != []
      invariant BucketSet(pending) + answered == BucketSet(todo)
      invariant Tracks(out, pool + Heard(env, query, answered), cap, env, target, keyed)
      invariant Shortlist.Elements(out) <= Shortlist.Elements(best) + NodesOf(query, BucketSet(todo))
      invariant progressed <==> Heard(env, query, answered) - asked != {}
      decreases |pending|
    {
      var i :| 0 <= i < |pending|;
      var from := pending[i].id;
      SplitPending(pending, i);
      OneMoreAnswer(env, query, answered, from, asked, pool);
      NodesOfOne(query, BucketSet(todo), from);
      var p;
      out, p := Absorb(out, query(from), asked, target, cap, env, pool + Heard(env, query, answered), keyed);
      progressed := progressed || p;
      answered := answered + {from};
      pending := Without(pending, i);
    }
    assert answered == BucketSet(todo);
  }

  /** The first `alpha` IDs of a shortlist that were not asked yet. */
  ghost function FirstUnasked(s: seq<NodeId>, asked: set<NodeId>, alpha: nat): seq<NodeId>
    decreases |s|
  {
    if s == [] || alpha == 0 then []
    else if s[0] in asked then FirstUnasked(s[1..], asked, alpha)
    else [s[0]] + FirstUnasked(s[1..], asked, alpha - 1)
  }

  lemma {:induction false} FirstUnaskedFacts(s: seq<NodeId>, asked: set<NodeId>, alpha: nat)
    ensures |FirstUnasked(s, asked, alpha)| <= alpha
    ensures Shortlist.Elements(FirstUnasked(s, asked, alpha)) <= Shortlist.Elements(s) - asked
    ensures Shortlist.Distinct(s) ==> Shortlist.Distinct(FirstUnasked(s, asked, alpha))
    ensures FirstUnasked(s, asked, alpha) == [] && alpha > 0 ==> Shortlist.Elements(s) <= asked
    decreases |s|
  {
    if s != [] && alpha > 0 {
      var rest := s[1..];
      assert Shortlist.Elements(s) == {s[0]} + Shortlist.Elements(rest);
      if s[0] in asked {
        FirstUnaskedFacts(rest, asked, alpha);
      } else {
        FirstUnaskedFacts(rest, asked, alpha - 1);
        var t := FirstUnasked(rest, asked, alpha - 1);
        assert Shortlist.Elements([s[0]] + t) == {s[0]} + Shortlist.Elements(t);
        if Shortlist.Distinct(s) {
          assert s[0] !in rest;
          forall i | 0 <= i < |t| ensures t[i] != s[0] {
            assert t[i] in Shortlist.Elements(t);
          }
        }
      }
    }
  }

  /** The IDs that were not asked yet, in order. */
  ghost function Unasked(s: seq<NodeId>, asked: set<NodeId>): seq<NodeId> {
    if s == [] then []
    else
      var before, last := Unasked(s[..|s| - 1], asked), s[|s| - 1];
      if last in asked then before else before + [last]
  }

  lemma {:induction false} UnaskedFirst(s: seq<NodeId>, asked: set<NodeId>)
    requires s != []
    ensures Unasked(s, asked) == (if s[0] in asked then [] else [s[0]]) + Unasked(s[1..], asked)
  {
    if |s| == 1 {
      assert s[..0] == [] && s[1..] == [];
    } else {
      var front := s[..|s| - 1];
      UnaskedFirst(front, asked);
      assert front[1..] == s[1..][..|s| - 2] && front[0] == s[0];
    }
  }

  /** The nodes chosen are as many of those not asked as `alpha` allows, from the front. */
  lemma {:induction false} FirstUnaskedIsPrefix(s: seq<NodeId>, asked: set<NodeId>, alpha: nat)
    ensures var all := Unasked(s, asked); FirstUnasked(s, asked, alpha) == if |all| <= alpha then all else all[..alpha]
    decreases |s|
  {
    if s == [] || alpha == 0 {
    } else {
      UnaskedFirst(s, asked);
      FirstUnaskedIsPrefix(s[1..], asked, if s[0] in asked then alpha else alpha - 1);
    }
  }

  method SelectTodo(best: seq<Node>, asked: set<NodeId>, alpha: nat) returns (todo: seq<Node>)
    requires alpha > 0
    ensures Ids(todo) == FirstUnasked(Ids(best), asked, alpha)
    ensures forall n :: n in todo ==> n in best
  {
    todo := [];
    for i := 0 to |best|
      invariant |todo| < alpha && forall n :: n in todo ==> n in best
      invariant FirstUnasked(Ids(best), asked, alpha)
        == Ids(todo) + FirstUnasked(Ids(best)[i..], asked, alpha - |todo|)
    {
      assert Ids(best)[i..][1..] == Ids(best)[i + 1..];
      if best[i].id in asked {
        continue;
      }
      assert Ids(todo + [best[i]]) == Ids(todo) + [best[i].id];
      todo := todo + [best[i]];
      if |todo| == alpha {
        return;
      }
    }
  }

  // --- the search ----------------------------------------------------------

  /** A way to pick the shortlist of every pool. */
  type Ranking = set<NodeId> -> seq<NodeId>

  ghost predicate Ranks(rank: Ranking, k: nat, d: NodeId -> int) {
    forall pool :: Shortlist.Nearest(rank(pool), pool, k, d)
  }

  /** The ranking that chooses the nearest ID k times. */
  ghost function Closest(env: Env, target: Key, k: nat): Ranking {
    pool => Shortlist.TopK(pool, k, DistanceFrom(env, target))
  }

  lemma ClosestRanks(env: Env, target: Key, k: nat)
    ensures Ranks(Closest(env, target, k), k, DistanceFrom(env, target))
  {
    var rank, d := Closest(env, target, k), DistanceFrom(env, target);
    forall pool ensures Shortlist.Nearest(rank(pool), pool, k, d) {
      Shortlist.TopKIsNearest(pool, k, d);
    }
  }

  /** What is known as a function of whom was asked. */
  type Learning = set<NodeId> -> set<NodeId>

  /** Asking more nodes adds exactly their answers. */
  ghost predicate Accumulates(know: Learning, env: Env, query: Query) {
    forall a, b {:trigger know(a + b)} :: know(a + b) == know(a) + Heard(env, query, b)
  }

  /** Whom the reference search asks next. */
  ghost function Chosen(know: Learning, rank: Ranking, alpha: nat, asked: set<NodeId>): set<NodeId>
  {
    Shortlist.Elements(FirstUnasked(rank(know(asked)), asked, alpha))
  }

  /** One round on sets: whom was asked afterwards, and whether an answer gave something new. */
  datatype Step = Step(asked: set<NodeId>, goesOn: bool)

  type Stepper = set<NodeId> -> Step

  /** The round of the reference search. */
  ghost function ReferenceStep(env: Env, query: Query, know: Learning, rank: Ranking, alpha: nat): Stepper {
    asked =>
      var todo := Chosen(know, rank, alpha, asked);
      Step(asked + todo, Heard(env, query, todo) - (asked + todo) != {})
  }

  /** Whom a search has asked in the end, computed on sets alone: no answer order enters it. */
  ghost function Search(step: Stepper, asked: set<NodeId>, rounds: nat): set<NodeId>
    decreases rounds
  {
    if rounds == 0 then asked
    else if step(asked).goesOn then Search(step, step(asked).asked, rounds - 1)
    else step(asked).asked
  }

  ghost predicate Grows(step: Stepper) {
    forall asked :: asked <= step(asked).asked
  }

  lemma {:induction false} SearchGrows(step: Stepper, asked: set<NodeId>, rounds: nat)
    requires Grows(step)
    ensures asked <= Search(step, asked, rounds)
    decreases rounds
  {
    if rounds == 0 {
    } else {
      SearchGrows(step, step(asked).asked, rounds - 1);
    }
  }

  /** Position by position, a later shortlist is never farther and never shorter. */
  ghost predicate Improves(d: NodeId -> int, before: seq<NodeId>, after: seq<NodeId>) {
    |before| <= |after| && forall i :: 0 <= i < |before| ==> d(after[i]) <= d(before[i])
  }

  lemma ShortlistImproves(a: seq<NodeId>, pool: set<NodeId>, b: seq<NodeId>, pool': set<NodeId>, k: nat, d: NodeId -> int)
    requires Shortlist.Nearest(a, pool, k, d) && Shortlist.Nearest(b, pool', k, d) && pool <= pool'
    ensures Improves(d, a, b)
  {
    Shortlist.SubsetCount(pool, pool');
    forall i | 0 <= i < |a| ensures d(b[i]) <= d(a[i]) {
      Shortlist.PoolGrows(a, pool, b, pool', k, d, i);
    }
  }

  /** If the search knows only members of a network and heard of its k nearest, it returns those. */
  lemma FindsNetworkNearest(r: seq<NodeId>, learned: set<NodeId>, network: set<NodeId>, best: seq<NodeId>, k: nat,
                            d: NodeId -> int)
    requires Shortlist.Nearest(r, learned, k, d) && learned <= network && Shortlist.NoTies(network, d)
    requires Shortlist.Nearest(best, network, k, d) && Shortlist.Elements(best) <= learned
    ensures r == best
  {
    Shortlist.DistinctCount(best);
    Shortlist.SubsetCount(Shortlist.Elements(best), learned);
    Shortlist.SubsetCount(learned, network);
    Shortlist.Unique(r, best, learned, k, d);
  }

  /** A round took the step of the reference search from `a`, provided the keys known there are distinct. */
  ghost predicate Follows(env: Env, query: Query, know: Learning, rank: Ranking, alpha: nat, a: set<NodeId>,
                          goesOn: bool, b: set<NodeId>)
  {
    DistinctKeys(env, know(a)) ==>
      var todo := Chosen(know, rank, alpha, a);
      b == a + todo && (goesOn <==> Heard(env, query, todo) - b != {})
  }

  /** What a run asked after each round, and whether the last round gave something new. */
  datatype Trail = Trail(asked: seq<set<NodeId>>, goesOn: bool)

  /** Each round of a run is related to the next by `r(before, went on, after)`. */
  ghost predicate Linked(r: (set<NodeId>, bool, set<NodeId>) -> bool, trail: Trail) {
    forall i :: 0 <= i < |trail.asked| - 1 ==>
      r(trail.asked[i], i < |trail.asked| - 2 || trail.goesOn, trail.asked[i + 1])
  }

  ghost predicate FollowsAll(env: Env, query: Query, know: Learning, rank: Ranking, alpha: nat, trail: Trail) {
    forall i :: 0 <= i < |trail.asked| - 1 ==>
      Follows(env, query, know, rank, alpha, trail.asked[i], i < |trail.asked| - 2 || trail.goesOn, trail.asked[i + 1])
  }

  /** Nobody asked is forgotten. */
  ghost predicate Rises(trail: Trail) {
    forall i :: 0 <= i < |trail.asked| ==> trail.asked[i] <= trail.asked[|trail.asked| - 1]
  }

  lemma AppendRises(trail: Trail, asked: set<NodeId>, goesOn: bool)
    requires |trail.asked| > 0 && Rises(trail) && trail.asked[|trail.asked| - 1] <= asked
    ensures Rises(Trail(trail.asked + [asked], goesOn))
  {
  }

  lemma AppendRound(env: Env, query: Query, know: Learning, rank: Ranking, alpha: nat, trail: Trail, asked: set<NodeId>,
                    goesOn: bool)
    requires |trail.asked| > 0 && trail.goesOn && FollowsAll(env, query, know, rank, alpha, trail)
    requires Follows(env, query, know, rank, alpha, trail.asked[|trail.asked| - 1], goesOn, asked)
    ensures FollowsAll(env, query, know, rank, alpha, Trail(trail.asked + [asked], goesOn))
  {
  }

  lemma DropRound(r: (set<NodeId>, bool, set<NodeId>) -> bool, trail: Trail)
    requires |trail.asked| > 1 && Linked(r, trail) && (|trail.asked| == 2 ==> trail.goesOn)
    ensures Linked(r, Trail(trail.asked[1..], trail.goesOn))
  {
    var rest := Trail(trail.asked[1..], trail.goesOn);
    forall i | 0 <= i < |rest.asked| - 1
      ensures r(rest.asked[i], i < |rest.asked| - 2 || rest.goesOn, rest.asked[i + 1])
    {
      assert r(trail.asked[i + 1], i + 1 < |trail.asked| - 2 || trail.goesOn, trail.asked[i + 2]);
    }
  }

  /** From a state whose keys are distinct, `r` allows only the step of `step`. */
  ghost predicate Determines(r: (set<NodeId>, bool, set<NodeId>) -> bool, env: Env, know: Learning, step: Stepper) {
    forall a, goesOn, b :: r(a, goesOn, b) && DistinctKeys(env, know(a)) ==> step(a) == Step(b, goesOn)
  }

  /** Knowing more never loses anything. */
  ghost predicate Monotone(know: Learning) {
    forall a, b :: a <= b ==> know(a) <= know(b)
  }

  /** Rounds that take the reference steps one by one end where the reference search ends. */
  lemma {:induction false} RunFollows(r: (set<NodeId>, bool, set<NodeId>) -> bool, env: Env, know: Learning,
                                      step: Stepper, trail: Trail, rounds: nat)
    requires Grows(step) && Monotone(know) && Determines(r, env, know, step)
    requires 0 < |trail.asked| <= rounds + 1 && Linked(r, trail)
    requires if trail.goesOn then |trail.asked| == rounds + 1 else |trail.asked| > 1
    requires DistinctKeys(env, know(Search(step, trail.asked[0], rounds)))
    ensures trail.asked[|trail.asked| - 1] == Search(step, trail.asked[0], rounds)
    decreases |trail.asked|
  {
    var n := |trail.asked|;
    if n > 1 {
      var a, b, goesOn := trail.asked[0], trail.asked[1], 0 < n - 2 || trail.goesOn;
      SearchGrows(step, a, rounds);
      assert r(a, goesOn, b);
      assert step(a) == Step(b, goesOn);
      if goesOn {
        DropRound(r, trail);
        RunFollows(r, env, know, step, Trail(trail.asked[1..], trail.goesOn), rounds - 1);
      }
    }
  }

  /** The same when the keys that the run itself learned are distinct. */
  lemma {:induction false} OwnRunFollows(r: (set<NodeId>, bool, set<NodeId>) -> bool, env: Env, know: Learning,
                                         step: Stepper, trail: Trail, rounds: nat)
    requires Monotone(know) && Determines(r, env, know, step)
    requires 0 < |trail.asked| <= rounds + 1 && Linked(r, trail) && Rises(trail)
    requires if trail.goesOn then |trail.asked| == rounds + 1 else |trail.asked| > 1
    requires DistinctKeys(env, know(trail.asked[|trail.asked| - 1]))
    ensures trail.asked[|trail.asked| - 1] == Search(step, trail.asked[0], rounds)
    decreases |trail.asked|
  {
    var n := |trail.asked|;
    if n > 1 {
      var a, b, goesOn := trail.asked[0], trail.asked[1], 0 < n - 2 || trail.goesOn;
      assert r(a, goesOn, b);
      assert step(a) == Step(b, goesOn);
      if goesOn {
        DropRound(r, trail);
        OwnRunFollows(r, env, know, step, Trail(trail.asked[1..], trail.goesOn), rounds - 1);
      }
    }
  }

  lemma ShortlistIsRanked(env: Env, target: Key, k: nat, rank: Ranking, learned: set<NodeId>, best: seq<Node>)
    requires Listed(best, learned, k, env, target) && DistinctKeys(env, learned)
    requires Ranks(rank, k, DistanceFrom(env, target))
    ensures Ids(best) == rank(learned)
  {
    var d := DistanceFrom(env, target);
    DistinctKeysNoTies(env, learned, target);
    Shortlist.Unique(Ids(best), rank(learned), learned, k, d);
  }

  /** Whom a round asks: new IDs from the shortlist, at most `alpha` of them. */
  lemma TodoFacts(best: seq<Node>, todo: seq<Node>, asked: set<NodeId>, alpha: nat, learned: set<NodeId>)
    requires alpha > 0 && Shortlist.Distinct(Ids(best)) && BucketSet(best) <= learned && asked <= learned
    requires Ids(todo) == FirstUnasked(Ids(best), asked, alpha)
    ensures |todo| <= alpha && asked + BucketSet(todo) <= learned
    ensures |asked + BucketSet(todo)| == |asked| + |todo|
    ensures todo == [] <==> BucketSet(best) <= asked
  {
    FirstUnaskedFacts(Ids(best), asked, alpha);
    IdsMembers(best);
    IdsMembers(todo);
    Shortlist.DistinctCount(Ids(todo));
    assert |asked + BucketSet(todo)| == |asked| + |BucketSet(todo)| - |asked * BucketSet(todo)|;
    assert asked * BucketSet(todo) == {};
    if todo != [] {
      assert Ids(todo)[0] in Shortlist.Elements(Ids(todo));
    }
  }

  /** The exact shortlist decides whom to ask. */
  lemma RoundFollows(env: Env, query: Query, know: Learning, target: Key, p: Params, rank: Ranking,
                     asked: set<NodeId>, best: seq<Node>, todo: seq<Node>)
    requires p.alpha > 0 && p.k > 0 && Listed(best, know(asked), p.k, env, target)
    requires Ranks(rank, p.k, DistanceFrom(env, target))
    requires Ids(todo) == FirstUnasked(Ids(best), asked, p.alpha)
    ensures var asked' := asked + BucketSet(todo);
      Follows(env, query, know, rank, p.alpha, asked, Heard(env, query, BucketSet(todo)) - asked' != {}, asked')
  {
    if DistinctKeys(env, know(asked)) {
      ShortlistIsRanked(env, target, p.k, rank, know(asked), best);
      IdsMembers(todo);
      assert Chosen(know, rank, p.alpha, asked) == BucketSet(todo);
    }
  }

  /** Marks the chosen nodes as asked and counts the questions. */
  method MarkAsked(todo: seq<Node>, asked: set<NodeId>, count: nat) returns (asked': set<NodeId>, count': nat)
    ensures asked' == asked + BucketSet(todo) && count' == count + |todo|
  {
    asked', count' := asked, count;
    assert BucketSet(todo[..0]) == {};
    for j := 0 to |todo|
      invariant asked' == asked + BucketSet(todo[..j]) && count' == count + j
    {
      assert todo[..j + 1] == todo[..j] + [todo[j]];
      SetAppend(todo[..j], todo[j]);
      asked' := asked' + {todo[j].id};
      count' := count' + 1;
    }
    assert todo[..|todo|] == todo;
  }

  /** The state of a search between rounds. */
  ghost predicate Between(best: seq<Node>, asked: set<NodeId>, query: Query, target: Key, k: nat, env: Env,
                          know: Learning)
  {
    && asked <= know(asked)
    && Tracks(best, know(asked), k, env, target, WellKeyed(env, query))
  }

  /** One round: choose up to `alpha` nodes not asked yet, ask them, receive all answers. */
  method Round(best: seq<Node>, asked: set<NodeId>, count: nat, query: Query, target: Key, p: Params, env: Env,
               ghost know: Learning, ghost rank: Ranking)
    returns (best': seq<Node>, asked': set<NodeId>, count': nat, exhausted: bool, progressed: bool)
    requires p.alpha > 0 && p.k > 0 && Accumulates(know, env, query)
    requires Between(best, asked, query, target, p.k, env, know) && count == |asked|
    ensures Between(best', asked', query, target, p.k, env, know) && count' == |asked'|
    ensures asked <= asked' && count' <= count + p.alpha
    ensures Shortlist.Elements(best') <= Shortlist.Elements(best) + NodesOf(query, asked')
    ensures exhausted <==> BucketSet(best) <= asked
    ensures exhausted <==> asked' == asked
    ensures exhausted ==> BucketSet(best') <= asked' && !progressed
    ensures WellKeyed(env, query) ==> Improves(DistanceFrom(env, target), Ids(best), Ids(best'))
    ensures WellKeyed(env, query) && Ranks(rank, p.k, DistanceFrom(env, target)) ==>
      Follows(env, query, know, rank, p.alpha, asked, progressed, asked')
  {
    ghost var learned := know(asked);
    var todo := SelectTodo(best, asked, p.alpha);
    TodoFacts(best, todo, asked, p.alpha, learned);
    if WellKeyed(env, query) && Ranks(rank, p.k, DistanceFrom(env, target)) {
      RoundFollows(env, query, know, target, p, rank, asked, best, todo);
    }
    if todo == [] {
      assert asked + BucketSet(todo) == asked && Heard(env, query, BucketSet(todo)) == {};
      return best, asked, count, true, false;
    }
    exhausted := false;
    asked', count' := MarkAsked(todo, asked, count);
    assert know(asked + BucketSet(todo)) == know(asked) + Heard(env, query, BucketSet(todo));
    NodesOfMore(query, BucketSet(todo), asked');
    best', progressed := Receive(best, todo, asked', query, target, p.k, env, learned);
    if WellKeyed(env, query) {
      ShortlistImproves(Ids(best), learned, Ids(best'), know(asked'), p.k, DistanceFrom(env, target));
    }
  }

  ghost predicate Within(count: nat, alpha: nat, rounds: nat) {
    count <= alpha * rounds
  }

  lemma FewerRounds(count: nat, alpha: nat, round: nat, maxRounds: nat)
    requires Within(count, alpha, round) && round <= maxRounds
    ensures Within(count, alpha, maxRounds)
  {
    assert alpha * round <= alpha * maxRounds;
  }

  lemma OneRoundMore(count: nat, count': nat, alpha: nat, round: nat)
    requires Within(count, alpha, round) && count' <= count + alpha
    ensures Within(count', alpha, round + 1)
  {
  }

  /** The last round found nobody left to ask. */
  ghost predicate RanOut(trail: Trail) {
    var n := |trail.asked|;
    n > 1 && trail.asked[n - 2] == trail.asked[n - 1] && !trail.goesOn
  }

  /** A trail of at most `rounds` rounds, from nobody asked to `asked`. */
  ghost predicate Recorded(trail: Trail, asked: set<NodeId>, rounds: nat) {
    && 0 < |trail.asked| <= rounds + 1 && trail.asked[0] == {} && trail.asked[|trail.asked| - 1] == asked
    && (if trail.goesOn then |trail.asked| == rounds + 1 else |trail.asked| > 1)
    && Rises(trail)
  }

  /** The books of a search after `round` rounds that all gave something new. */
  ghost predicate Underway(count: nat, asked: set<NodeId>, trail: Trail, alpha: nat, round: nat) {
    && count == |asked| && Within(count, alpha, round) && trail.goesOn && Rises(trail)
    && |trail.asked| == round + 1 && trail.asked[0] == {} && trail.asked[round] == asked
  }

  lemma NextRound(count: nat, asked: set<NodeId>, trail: Trail, p: Params, round: nat, count': nat, asked': set<NodeId>,
                  goesOn: bool, trail': Trail)
    requires p.alpha > 0 && p.maxRounds > round && Underway(count, asked, trail, p.alpha, round)
    requires count' == |asked'| <= count + p.alpha && asked <= asked'
    requires trail' == Trail(trail.asked + [asked'], goesOn)
    ensures Within(count', p.alpha, p.maxRounds)
    ensures goesOn ==> Underway(count', asked', trail', p.alpha, round + 1)
    ensures !goesOn || round + 1 == p.maxRounds ==> Recorded(trail', asked', p.maxRounds)
  {
    OneRoundMore(count, count', p.alpha, round);
    FewerRounds(count', p.alpha, round + 1, p.maxRounds);
    AppendRises(trail, asked', goesOn);
  }

  /** A search after some rounds: its shortlist, its books, and the reference steps it took. */
  ghost predicate Searching(best: seq<Node>, asked: set<NodeId>, trail: Trail, query: Query, target: Key, p: Params,
                            env: Env, know: Learning, rank: Ranking)
    requires p.alpha > 0 && p.k > 0
  {
    && Between(best, asked, query, target, p.k, env, know)
    && (WellKeyed(env, query) && Ranks(rank, p.k, DistanceFrom(env, target)) ==>
          FollowsAll(env, query, know, rank, p.alpha, trail))
  }

  /** One round, with its place in the trail. */
  method RoundOn(best: seq<Node>, asked: set<NodeId>, count: nat, query: Query, target: Key, p: Params, env: Env,
                 ghost know: Learning, ghost rank: Ranking, ghost trail: Trail, ghost round: nat)
    returns (best': seq<Node>, asked': set<NodeId>, count': nat, exhausted: bool, progressed: bool, ghost trail': Trail)
    requires p.alpha > 0 && p.k > 0 && p.maxRounds > round && Accumulates(know, env, query)
    requires Searching(best, asked, trail, query, target, p, env, know, rank)
    requires Underway(count, asked, trail, p.alpha, round)
    ensures Searching(best', asked', trail', query, target, p, env, know, rank)
    ensures asked <= asked' && Shortlist.Elements(best') <= Shortlist.Elements(best) + NodesOf(query, asked')
    ensures count' == |asked'| && Within(count', p.alpha, p.maxRounds)
    ensures exhausted ==> BucketSet(best') <= asked'
    ensures exhausted <==> RanOut(trail')
    ensures progressed ==> Underway(count', asked', trail', p.alpha, round + 1)
    ensures !progressed || round + 1 == p.maxRounds ==> Recorded(trail', asked', p.maxRounds)
  {
    best', asked', count', exhausted, progressed := Round(best, asked, count, query, target, p, env, know, rank);
    if WellKeyed(env, query) && Ranks(rank, p.k, DistanceFrom(env, target)) {
      AppendRound(env, query, know, rank, p.alpha, trail, asked', progressed);
    }
    trail' := Trail(trail.asked + [asked'], progressed);
    NextRound(count, asked, trail, p, round, count', asked', progressed, trail');
  }

  /** The round loop of a search, from the local shortlist to the result. */
  method Rounds(start: seq<Node>, query: Query, target: Key, p: Params, env: Env, ghost know: Learning,
                ghost rank: Ranking)
    returns (best: seq<Node>, count: nat, exhausted: bool, ghost asked: set<NodeId>, ghost trail: Trail)
    requires p.alpha > 0 && p.k > 0 && p.maxRounds > 0 && Accumulates(know, env, query)
    requires Between(start, {}, query, target, p.k, env, know)
    ensures Searching(best, asked, trail, query, target, p, env, know, rank)
    ensures Shortlist.Elements(best) <= Shortlist.Elements(start) + NodesOf(query, asked)
    ensures count == |asked| && Within(count, p.alpha, p.maxRounds)
    ensures exhausted ==> BucketSet(best) <= asked
    ensures Recorded(trail, asked, p.maxRounds) && (exhausted <==> RanOut(trail))
  {
    best, count, exhausted := start, 0, false;
    var queried: set<NodeId> := {};
    trail := Trail([{}], true);
    var round, progressed := 0, true;
    while round < p.maxRounds && progressed
      invariant 0 <= round <= p.maxRounds
      invariant Searching(best, queried, trail, query, target, p, env, know, rank)
      invariant Shortlist.Elements(best) <= Shortlist.Elements(start) + NodesOf(query, queried)
      invariant count == |queried| && Within(count, p.alpha, p.maxRounds)
      invariant exhausted ==> BucketSet(best) <= queried
      invariant exhausted <==> RanOut(trail)
      invariant progressed && round < p.maxRounds ==> Underway(count, queried, trail, p.alpha, round)
      invariant !progressed || round == p.maxRounds ==> Recorded(trail, queried, p.maxRounds)
    {
      ghost var before := queried;
      best, queried, count, exhausted, progressed, trail :=
        RoundOn(best, queried, count, query, target, p, env, know, rank, trail, round);
      NodesOfMore(query, before, queried);
      round := round + 1;
    }
    asked := queried;
  }

  /** The nodes that do not carry the local key, in order. */
  function Others(nodes: seq<Node>, self: Key): seq<Node> {
    if nodes == [] then []
    else Others(nodes[..|nodes| - 1], self) + if nodes[|nodes| - 1].key == self then [] else [nodes[|nodes| - 1]]
  }

  method FilterSelf(nodes: seq<Node>, self: Key) returns (out: seq<Node>)
    ensures out == Others(nodes, self)
  {
    out := [];
    for i := 0 to |nodes|
      invariant out == Others(nodes[..i], self)
    {
      assert nodes[..i + 1][..i] == nodes[..i];
      if nodes[i].key == self {
        continue;
      }
      out := out + [nodes[i]];
    }
    assert nodes[..|nodes|] == nodes;
  }

  lemma {:induction false} NothingToFilter(nodes: seq<Node>, env: Env)
    requires NoLocal(env, nodes)
    ensures Others(nodes, env.self) == nodes
  {
    if nodes == [] {
    } else {
      var front, last := nodes[..|nodes| - 1], nodes[|nodes| - 1];
      assert nodes == front + [last] && last in nodes;
      forall n | n in front ensures n in nodes {
      }
      NothingToFilter(front, env);
    }
  }

  /** Everything known once the local table `base` and the answers of `asked` are in. */
  ghost function Learned(env: Env, query: Query, base: set<NodeId>, asked: set<NodeId>): set<NodeId> {
    base + Heard(env, query, asked)
  }

  /** What a search knows: the local table and the answers. */
  ghost function FromTable(env: Env, query: Query, base: set<NodeId>): Learning {
    asked => Learned(env, query, base, asked)
  }

  lemma FromTableAccumulates(env: Env, query: Query, base: set<NodeId>)
    ensures Accumulates(FromTable(env, query, base), env, query)
  {
    var know := FromTable(env, query, base);
    forall a, b ensures know(a + b) == know(a) + Heard(env, query, b) {
      HeardUnion(env, query, a, b);
    }
  }

  /** The table's shortlist is where a search starts: its keys are derived and the local key is not among them. */
  lemma LocalShortlist(env: Env, b: Buckets, best: seq<Node>, target: Key, k: nat, query: Query, know: Learning)
    requires WellFormed(env, b) && (forall n :: n in best ==> n in Listing(b))
    requires Shortlist.Nearest(Ids(best), IdSet(b), k, DistanceFrom(env, target))
    requires know({}) == IdSet(b)
    ensures NoLocal(env, best) && Between(best, {}, query, target, k, env, know)
  {
    forall n | n in best ensures n.key == env.keyOf(n.id) && n.key != env.self {
      FlatMembers(b, |b|, n);
      var i :| 0 <= i < KEY_BITS && n in b[i];
      assert BucketOk(env, b[i], i);
      FullPrefixIsSelf(env.self, n.key);
    }
    IdsMembers(best);
  }

  lemma FromTableMonotone(env: Env, query: Query, base: set<NodeId>)
    ensures Monotone(FromTable(env, query, base))
  {
    var know := FromTable(env, query, base);
    forall a, b | a <= b ensures know(a) <= know(b) {
      HeardUnion(env, query, a, b);
      assert a + b == b;
    }
  }

  /** Following is taking the reference step. */
  lemma FollowedStep(env: Env, query: Query, know: Learning, rank: Ranking, alpha: nat)
    ensures var step := ReferenceStep(env, query, know, rank, alpha);
      Grows(step)
      && Determines((a, goesOn, b) => Follows(env, query, know, rank, alpha, a, goesOn, b), env, know, step)
  {
  }

  /** The two reference pieces and the knowledge they run on fit together. */
  ghost predicate Reference(know: Learning, rank: Ranking, step: Stepper, query: Query, target: Key, p: Params, env: Env)
    requires p.alpha > 0 && p.k > 0
  {
    && Accumulates(know, env, query) && Monotone(know) && Grows(step)
    && Ranks(rank, p.k, DistanceFrom(env, target))
    && Determines((a, goesOn, b) => Follows(env, query, know, rank, p.alpha, a, goesOn, b), env, know, step)
  }

  /** A finished run: each round took a step of the reference search as long as the keys known were distinct, and
      the shortlist at the end is exact. */
  ghost predicate Ended(best: seq<Node>, asked: set<NodeId>, trail: Trail, query: Query, target: Key, p: Params, env: Env,
                        know: Learning, rank: Ranking)
    requires p.alpha > 0 && p.k > 0 && p.maxRounds > 0
  {
    && Recorded(trail, asked, p.maxRounds) && FollowsAll(env, query, know, rank, p.alpha, trail)
    && Listed(best, know(asked), p.k, env, target)
  }

  /** The keys learned are distinct: those of the run, or those of the reference search. */
  ghost predicate Told(asked: set<NodeId>, p: Params, env: Env, know: Learning, step: Stepper)
    requires p.maxRounds > 0
  {
    DistinctKeys(env, know(asked)) || DistinctKeys(env, know(Search(step, {}, p.maxRounds)))
  }

  /** A finished run has asked whom the reference search asks, and returns its shortlist. */
  lemma EndsAsReference(env: Env, query: Query, target: Key, p: Params, best: seq<Node>, asked: set<NodeId>, trail: Trail,
                        know: Learning, rank: Ranking, step: Stepper)
    requires p.alpha > 0 && p.k > 0 && p.maxRounds > 0 && Reference(know, rank, step, query, target, p, env)
    requires Ended(best, asked, trail, query, target, p, env, know, rank) && Told(asked, p, env, know, step)
    ensures asked == Search(step, {}, p.maxRounds) && Ids(best) == rank(know(asked))
  {
    var r := (a, goesOn, b) => Follows(env, query, know, rank, p.alpha, a, goesOn, b);
    if DistinctKeys(env, know(asked)) {
      OwnRunFollows(r, env, know, step, trail, p.maxRounds);
    } else {
      RunFollows(r, env, know, step, trail, p.maxRounds);
    }
    ShortlistIsRanked(env, target, p.k, rank, know(asked), best);
  }

  /** Two finished runs on the same table, network and target asked the same nodes and return the same nodes in the
      same order, however their answers were ordered, as soon as the keys one of them learned are distinct. */
  lemma OrderDoesNotMatter(best: seq<Node>, asked: set<NodeId>, trail: Trail, best': seq<Node>, asked': set<NodeId>,
                           trail': Trail, query: Query, target: Key, p: Params, env: Env, know: Learning,
                           rank: Ranking, step: Stepper)
    requires p.alpha > 0 && p.k > 0 && p.maxRounds > 0 && Reference(know, rank, step, query, target, p, env)
    requires Ended(best, asked, trail, query, target, p, env, know, rank)
    requires Ended(best', asked', trail', query, target, p, env, know, rank)
    requires DistinctKeys(env, know(asked))
    ensures asked == asked' && Ids(best) == Ids(best')
  {
    EndsAsReference(env, query, target, p, best, asked, trail, know, rank, step);
    EndsAsReference(env, query, target, p, best', asked', trail', know, rank, step);
  }

  /** What a search returns, given whom it asked: a sound shortlist of everything learned, and exactly the
      reference's shortlist when the keys learned are distinct. */
  ghost predicate Found(r: seq<Node>, asked: set<NodeId>, query: Query, target: Key, p: Params, env: Env,
                        know: Learning, rank: Ranking, step: Stepper)
    requires p.alpha > 0 && p.k > 0 && p.maxRounds > 0
  {
    && Within(|asked|, p.alpha, p.maxRounds) && asked <= know(asked) && |asked| <= |know(asked)|
    && Tracks(r, know(asked), p.k, env, target, WellKeyed(env, query))
    && (WellKeyed(env, query) && Told(asked, p, env, know, step)
        ==> asked == Search(step, {}, p.maxRounds) && Ids(r) == rank(know(asked)))
  }

  /** The search from a shortlist of what is known before anyone is asked. */
  method SearchFrom(start: seq<Node>, query: Query, target: Key, p: Params, env: Env, ghost know: Learning,
                    ghost rank: Ranking, ghost step: Stepper)
    returns (best: seq<Node>, count: nat, exhausted: bool, ghost asked: set<NodeId>, ghost trail: Trail)
    requires p.alpha > 0 && p.k > 0 && p.maxRounds > 0 && Reference(know, rank, step, query, target, p, env)
    requires Between(start, {}, query, target, p.k, env, know)
    ensures count == |asked| && Recorded(trail, asked, p.maxRounds)
    ensures (exhausted <==> RanOut(trail)) && (exhausted ==> BucketSet(best) <= asked)
    ensures Shortlist.Elements(best) <= Shortlist.Elements(start) + NodesOf(query, asked)
    ensures Found(best, asked, query, target, p, env, know, rank, step)
  {
    NothingToFilter(start, env);
    best := FilterSelf(start, env.self);
    best, count, exhausted, asked, trail := Rounds(best, query, target, p, env, know, rank);
    Shortlist.SubsetCount(asked, know(asked));
    if WellKeyed(env, query) && Told(asked, p, env, know, step) {
      EndsAsReference(env, query, target, p, best, asked, trail, know, rank, step);
    }
  }

  // --- a whole lookup ------------------------------------------------------

  /** What is known is the local table and the answers. */
  ghost predicate Knows(know: Learning, env: Env, query: Query, base: set<NodeId>) {
    forall asked :: know(asked) == base + Heard(env, query, asked)
  }

  /** A reference search that starts from the table. */
  ghost predicate Starts(know: Learning, rank: Ranking, step: Stepper, query: Query, target: Key, p: Params, env: Env,
                         base: set<NodeId>)
    requires p.alpha > 0 && p.k > 0
  {
    Reference(know, rank, step, query, target, p, env) && know({}) == base && Knows(know, env, query, base)
  }

  lemma TableKnowledge(env: Env, query: Query, base: set<NodeId>) returns (know: Learning)
    ensures Accumulates(know, env, query) && Monotone(know) && know({}) == base && Knows(know, env, query, base)
  {
    know := FromTable(env, query, base);
    assert Learned(env, query, base, {}) == base;
    FromTableMonotone(env, query, base);
    FromTableAccumulates(env, query, base);
  }

  lemma NearestRanking(env: Env, target: Key, k: nat) returns (rank: Ranking)
    ensures Ranks(rank, k, DistanceFrom(env, target))
  {
    rank := Closest(env, target, k);
    ClosestRanks(env, target, k);
  }

  lemma FollowingStepper(env: Env, query: Query, know: Learning, rank: Ranking, alpha: nat) returns (step: Stepper)
    ensures Grows(step)
    ensures Determines((a, goesOn, b) => Follows(env, query, know, rank, alpha, a, goesOn, b), env, know, step)
  {
    step := ReferenceStep(env, query, know, rank, alpha);
    FollowedStep(env, query, know, rank, alpha);
  }

  /** Every table, network and target have a reference search: it knows the table and the answers, ranks by choosing
      the nearest k times, and takes the rounds on sets. */
  lemma TableReference(env: Env, query: Query, target: Key, p: Params, base: set<NodeId>)
    returns (know: Learning, rank: Ranking, step: Stepper)
    requires p.alpha > 0 && p.k > 0
    ensures Starts(know, rank, step, query, target, p, env, base)
  {
    know := TableKnowledge(env, query, base);
    rank := NearestRanking(env, target, p.k);
    step := FollowingStepper(env, query, know, rank, p.alpha);
  }

  /** Some reference search from the table asks exactly `asked`. */
  ghost predicate Asks(asked: set<NodeId>, query: Query, target: Key, p: Params, env: Env, base: set<NodeId>)
    requires p.alpha > 0 && p.k > 0 && p.maxRounds > 0
  {
    exists know, rank, step ::
      Starts(know, rank, step, query, target, p, env, base) && asked == Search(step, {}, p.maxRounds)
  }

  lemma SomeoneAsks(env: Env, query: Query, target: Key, p: Params, base: set<NodeId>) returns (asked: set<NodeId>)
    requires p.alpha > 0 && p.k > 0 && p.maxRounds > 0
    ensures Asks(asked, query, target, p, env, base)
  {
    var know, rank, step := TableReference(env, query, target, p, base);
    asked := Search(step, {}, p.maxRounds);
  }

  /** Whom the reference search from a table asks: a function of table, network and target, into which no order of
      answers enters. `ReferencesAgree` says that it does not matter which reference search is meant. */
  ghost function ReferenceAsked(env: Env, query: Query, target: Key, p: Params, base: set<NodeId>): (asked: set<NodeId>)
    requires p.alpha > 0 && p.k > 0 && p.maxRounds > 0
    ensures Asks(asked, query, target, p, env, base)
  {
    assert exists a :: Asks(a, query, target, p, env, base) by {
      var a := SomeoneAsks(env, query, target, p, base);
    }
    var asked :| Asks(asked, query, target, p, env, base);
    asked
  }

  lemma {:induction false} SearchesAgree(step: Stepper, step': Stepper, env: Env, know: Learning, asked: set<NodeId>,
                                         rounds: nat)
    requires Grows(step) && Monotone(know) && forall a :: DistinctKeys(env, know(a)) ==> step(a) == step'(a)
    requires DistinctKeys(env, know(Search(step, asked, rounds)))
    ensures Search(step, asked, rounds) == Search(step', asked, rounds)
    decreases rounds
  {
    if rounds == 0 {
    } else {
      SearchGrows(step, asked, rounds);
      assert know(asked) <= know(Search(step, asked, rounds));
      if step(asked).goesOn {
        SearchesAgree(step, step', env, know, step(asked).asked, rounds - 1);
      }
    }
  }

  lemma DeterminedStep(env: Env, query: Query, know: Learning, rank: Ranking, alpha: nat, step: Stepper,
                       a: set<NodeId>, todo: set<NodeId>, goesOn: bool)
    requires Determines((a, goesOn, b) => Follows(env, query, know, rank, alpha, a, goesOn, b), env, know, step)
    requires DistinctKeys(env, know(a)) && todo == Chosen(know, rank, alpha, a)
    requires goesOn <==> Heard(env, query, todo) - (a + todo) != {}
    ensures step(a) == Step(a + todo, goesOn)
  {
    var r := (a, goesOn, b) => Follows(env, query, know, rank, alpha, a, goesOn, b);
    assert r(a, goesOn, a + todo);
  }

  lemma SameChoice(env: Env, target: Key, k: nat, know: Learning, rank: Ranking, know': Learning, rank': Ranking,
                   alpha: nat, a: set<NodeId>)
    requires Ranks(rank, k, DistanceFrom(env, target)) && Ranks(rank', k, DistanceFrom(env, target))
    requires know(a) == know'(a) && DistinctKeys(env, know(a))
    ensures Chosen(know, rank, alpha, a) == Chosen(know', rank', alpha, a)
  {
    DistinctKeysNoTies(env, know(a), target);
    Shortlist.Unique(rank(know(a)), rank'(know(a)), know(a), k, DistanceFrom(env, target));
  }

  lemma ReferenceSteps(env: Env, query: Query, target: Key, p: Params, base: set<NodeId>, know: Learning, rank: Ranking,
                       step: Stepper, know': Learning, rank': Ranking, step': Stepper, a: set<NodeId>)
    requires p.alpha > 0 && p.k > 0 && Starts(know, rank, step, query, target, p, env, base)
    requires Starts(know', rank', step', query, target, p, env, base) && DistinctKeys(env, know(a))
    ensures step(a) == step'(a)
  {
    assert know(a) == know'(a);
    SameChoice(env, target, p.k, know, rank, know', rank', p.alpha, a);
    var todo := Chosen(know, rank, p.alpha, a);
    var goesOn := Heard(env, query, todo) - (a + todo) != {};
    DeterminedStep(env, query, know, rank, p.alpha, step, a, todo, goesOn);
    DeterminedStep(env, query, know', rank', p.alpha, step', a, todo, goesOn);
  }

  /** All reference searches from a table ask the same nodes once the keys that one of them learns are distinct. */
  lemma ReferencesAgree(env: Env, query: Query, target: Key, p: Params, base: set<NodeId>, know: Learning, rank: Ranking,
                        step: Stepper)
    requires p.alpha > 0 && p.k > 0 && p.maxRounds > 0 && Starts(know, rank, step, query, target, p, env, base)
    requires DistinctKeys(env, know(Search(step, {}, p.maxRounds)))
    ensures Search(step, {}, p.maxRounds) == ReferenceAsked(env, query, target, p, base)
  {
    var asked := ReferenceAsked(env, query, target, p, base);
    var know', rank', step' :|
      Starts(know', rank', step', query, target, p, env, base) && asked == Search(step', {}, p.maxRounds);
    forall a | DistinctKeys(env, know(a)) ensures step(a) == step'(a) {
      ReferenceSteps(env, query, target, p, base, know, rank, step, know', rank', step', a);
    }
    SearchesAgree(step, step', env, know, {}, p.maxRounds);
  }

  /** The result of a lookup on a table that holds `base`, given whom it asked and whom the reference search asks:
      never the local node, at most k nodes of those learned; the nearest k of them, nearest first, when identifiers
      determine keys; and the reference's nodes when the keys learned are distinct. */
  ghost predicate Outcome(r: seq<Node>, asked: set<NodeId>, reference: set<NodeId>, query: Query, target: Key, p: Params,
                          env: Env, base: set<NodeId>)
    requires p.alpha > 0 && p.k > 0 && p.maxRounds > 0
  {
    var learned := base + Heard(env, query, asked);
    && Within(|asked|, p.alpha, p.maxRounds) && asked <= learned && |asked| <= |learned|
    && Shortlist.Distinct(Ids(r)) && |r| <= p.k && BucketSet(r) <= learned && NoLocal(env, r)
    && (WellKeyed(env, query) ==> Shortlist.Nearest(Ids(r), learned, p.k, DistanceFrom(env, target)))
    && (WellKeyed(env, query) && (DistinctKeys(env, learned) || DistinctKeys(env, base + Heard(env, query, reference)))
        ==> asked == reference)
  }

  lemma FoundIsOutcome(r: seq<Node>, asked: set<NodeId>, reference: set<NodeId>, query: Query, target: Key, p: Params,
                       env: Env, know: Learning, rank: Ranking, step: Stepper, base: set<NodeId>)
    requires p.alpha > 0 && p.k > 0 && p.maxRounds > 0 && Found(r, asked, query, target, p, env, know, rank, step)
    requires Knows(know, env, query, base) && reference == Search(step, {}, p.maxRounds)
    ensures Outcome(r, asked, reference, query, target, p, env, base)
  {
  }

  /** Every node is an entry of the table or was named, just so, in the answer of a node asked. */
  ghost predicate Sourced(r: seq<Node>, entries: seq<Node>, query: Query, asked: set<NodeId>) {
    forall n :: n in r ==> n in entries || exists id :: id in asked && Some(n) in query(id)
  }

  lemma ElementsSourced(r: seq<Node>, start: seq<Node>, entries: seq<Node>, query: Query, asked: set<NodeId>)
    requires Shortlist.Elements(r) <= Shortlist.Elements(start) + NodesOf(query, asked)
    requires forall n :: n in start ==> n in entries
    ensures Sourced(r, entries, query, asked)
  {
    forall n | n in r ensures n in entries || exists id :: id in asked && Some(n) in query(id) {
      assert n in Shortlist.Elements(r);
      if n in NodesOf(query, asked) {
        var id, a :| id in asked && a in query(id) && a.Some? && a.value == n;
        assert Some(n) in query(id);
      }
    }
  }

  /** A lookup on a table: the local shortlist, then the rounds. */
  method SearchTable(table: RoutingTable, query: Query, target: Key, p: Params)
    returns (best: seq<Node>, count: nat, exhausted: bool, ghost asked: set<NodeId>, ghost trail: Trail)
    requires p.alpha > 0 && p.k > 0 && p.maxRounds > 0 && table.Valid()
    ensures count == |asked| && Recorded(trail, asked, p.maxRounds)
    ensures (exhausted <==> RanOut(trail)) && (exhausted ==> BucketSet(best) <= asked)
    ensures Sourced(best, Listing(table.view), query, asked)
    ensures var base := IdSet(table.view);
      Outcome(best, asked, ReferenceAsked(table.env, query, target, p, base), query, target, p, table.env, base)
  {
    ghost var env, base := table.env, IdSet(table.view);
    ghost var reference := ReferenceAsked(env, query, target, p, base);
    ghost var know, rank, step :|
      Starts(know, rank, step, query, target, p, env, base) && reference == Search(step, {}, p.maxRounds);
    var start := table.Nearest(target, p.k);
    LocalShortlist(env, table.view, start, target, p.k, query, know);
    best, count, exhausted, asked, trail := SearchFrom(start, query, target, p, table.env, know, rank, step);
    ElementsSourced(best, start, Listing(table.view), query, asked);
    FoundIsOutcome(best, asked, reference, query, target, p, env, know, rank, step, base);
  }

  /** Two lookups on the same table, network and target ask the same nodes and return the same nodes in the same
      order, however their answers were ordered, as soon as the keys one of them learned are distinct. */
  lemma SameOutcome(r: seq<Node>, asked: set<NodeId>, r': seq<Node>, asked': set<NodeId>, reference: set<NodeId>,
                    query: Query, target: Key, p: Params, env: Env, base: set<NodeId>)
    requires p.alpha > 0 && p.k > 0 && p.maxRounds > 0 && WellKeyed(env, query)
    requires Outcome(r, asked, reference, query, target, p, env, base)
    requires Outcome(r', asked', reference, query, target, p, env, base)
    requires DistinctKeys(env, base + Heard(env, query, asked))
    ensures asked == asked' && Ids(r) == Ids(r')
  {
    var learned := base + Heard(env, query, asked);
    DistinctKeysNoTies(env, learned, target);
    Shortlist.Unique(Ids(r), Ids(r'), learned, p.k, DistanceFrom(env, target));
  }

  lemma AnswerIsHeard(env: Env, query: Query, asked: set<NodeId>, id: NodeId)
    requires id in asked
    ensures AnswerIds(env, query(id)) <= Heard(env, query, asked)
  {
  }

  /** If everyone learned belongs to a network and one answer named the network's k nearest, those are returned. */
  lemma ConvergesOnNetwork(r: seq<Node>, asked: set<NodeId>, reference: set<NodeId>, query: Query, target: Key,
                           p: Params, env: Env, base: set<NodeId>, network: set<NodeId>, best: seq<NodeId>,
                           informant: NodeId)
    requires p.alpha > 0 && p.k > 0 && p.maxRounds > 0 && WellKeyed(env, query)
    requires Outcome(r, asked, reference, query, target, p, env, base)
    requires base + Heard(env, query, asked) <= network && DistinctKeys(env, network)
    requires Shortlist.Nearest(best, network, p.k, DistanceFrom(env, target))
    requires informant in asked && Shortlist.Elements(best) <= AnswerIds(env, query(informant))
    ensures Ids(r) == best
  {
    var learned := base + Heard(env, query, asked);
    DistinctKeysNoTies(env, network, target);
    AnswerIsHeard(env, query, asked, informant);
    FindsNetworkNearest(Ids(r), learned, network, best, p.k, DistanceFrom(env, target));
  }

  datatype LookupError = NoQuery | NoTable

  class Lookup {
    const table: RoutingTable?
    const query: Option<Query>
    const params: Params
    var queried: nat

    constructor (table: RoutingTable?, query: Option<Query>, params: Params)
      ensures this.table == table && this.query == query && this.params == params && queried == 0
    {
      this.table, this.query, this.params, queried := table, query, params, 0;
    }

    /** Counts the queries issued; the table is not touched. */
    method Tally(count: nat)
      requires table != null ==> table.Valid()
      modifies this`queried
      ensures queried == old(queried) + count
      ensures table != null ==> table.Valid() && table.view == old(table.view)
    {
      queried := queried + count;
    }

    /** The nearest nodes to a target among everything the asked part of the network knows. */
    method Find(target: Key)
      returns (res: Result<seq<Node>, LookupError>, ghost asked: set<NodeId>, ghost trail: Trail)
      requires table != null ==> table.Valid()
      modifies this`queried
      ensures table != null ==> table.Valid() && table.view == old(table.view)
      ensures query.None? ==> res == Err(NoQuery)
      ensures query.Some? && table == null ==> res == Err(NoTable)
      ensures res.Err? <==> query.None? || table == null
      ensures res.Err? ==> queried == old(queried)
      ensures res.Ok? ==>
        && queried == old(queried) + |asked| && Sourced(res.value, Listing(table.view), query.value, asked)
        && Recorded(trail, asked, WithDefaults(params).maxRounds) && (RanOut(trail) ==> BucketSet(res.value) <= asked)
        && var p, env, base := WithDefaults(params), table.env, IdSet(table.view);
           Outcome(res.value, asked, ReferenceAsked(env, query.value, target, p, base), query.value, target, p, env, base)
    {
      asked, trail := {}, Trail([{}], false);
      if query.None? {
        return Err(NoQuery), asked, trail;
      }
      if table == null {
        return Err(NoTable), asked, trail;
      }
      var best, count, exhausted;
      best, count, exhausted, asked, trail := SearchTable(table, query.value, target, WithDefaults(params));
      Tally(count);
      res := Ok(best);
    }
  }

  /** Both results are the nearest k of what was learned, and they are the same if the keys learned are distinct. */
  ghost predicate Repeats(first: seq<Node>, asked: set<NodeId>, second: seq<Node>, asked': set<NodeId>, query: Query,
                          target: Key, k: nat, env: Env, base: set<NodeId>)
  {
    var learned, learned' := base + Heard(env, query, asked), base + Heard(env, query, asked');
    && Shortlist.Nearest(Ids(first), learned, k, DistanceFrom(env, target))
    && Shortlist.Nearest(Ids(second), learned', k, DistanceFrom(env, target))
    && (DistinctKeys(env, learned) || DistinctKeys(env, learned') ==> asked == asked' && Ids(first) == Ids(second))
  }

  lemma OutcomeRepeats(r: seq<Node>, asked: set<NodeId>, r': seq<Node>, asked': set<NodeId>, reference: set<NodeId>,
                       query: Query, target: Key, p: Params, env: Env, base: set<NodeId>)
    requires p.alpha > 0 && p.k > 0 && p.maxRounds > 0 && WellKeyed(env, query)
    requires Outcome(r, asked, reference, query, target, p, env, base)
    requires Outcome(r', asked', reference, query, target, p, env, base)
    ensures Repeats(r, asked, r', asked', query, target, p.k, env, base)
  {
    if DistinctKeys(env, base + Heard(env, query, asked)) {
      SameOutcome(r, asked, r', asked', reference, query, target, p, env, base);
    } else if DistinctKeys(env, base + Heard(env, query, asked')) {
      SameOutcome(r', asked', r, asked, reference, query, target, p, env, base);
    }
  }

  /** Looking up the same target twice on an unchanged table gives the nearest k of what was learned both times, and
      with distinct keys the same nodes in the same order, although the answers may have arrived in another order. */
  method FindTwice(lookup: Lookup, target: Key)
    returns (first: seq<Node>, second: seq<Node>, ghost asked: set<NodeId>, ghost asked': set<NodeId>)
    requires lookup.table != null && lookup.query.Some? && lookup.table.Valid()
    modifies lookup`queried
    ensures Sourced(first, Listing(lookup.table.view), lookup.query.value, asked)
    ensures Sourced(second, Listing(lookup.table.view), lookup.query.value, asked')
    ensures WellKeyed(lookup.table.env, lookup.query.value) ==>
      Repeats(first, asked, second, asked', lookup.query.value, target, WithDefaults(lookup.params).k, lookup.table.env,
              IdSet(lookup.table.view))
  {
    ghost var env, query, p, base := lookup.table.env, lookup.query.value, WithDefaults(lookup.params),
                                     IdSet(lookup.table.view);
    ghost var reference := ReferenceAsked(env, query, target, p, base);
    var res, res';
    ghost var trail, trail';
    res, asked, trail := lookup.Find(target);
    res', asked', trail' := lookup.Find(target);
    first, second := res.value, res'.value;
    if WellKeyed(env, query) {
      OutcomeRepeats(first, asked, second, asked', reference, query, target, p, env, base);
    }
  }
}
