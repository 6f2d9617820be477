/** The Kademlia routing table of internal/dht/table.go and internal/dht/bucket.go, as a value and its history. */
module Routing {
  import opened Options
  import opened Keys
  import Shortlist

  const BUCKET_CAPACITY := 20

  type NodeId = string

  datatype Node = Node(id: NodeId, key: Key, addr: string, lastSeen: real)

  /** The local key, and the hash that derives a key from a node ID. */
  datatype Env = Env(self: Key, keyOf: NodeId -> Key)

  type Buckets = b: seq<seq<Node>> | |b| == KEY_BITS witness seq(KEY_BITS, _ => [])

  function Empty(): Buckets {
    seq(KEY_BITS, _ => [])
  }

  // --- one bucket ----------------------------------------------------------

  /** Position of a node by ID, or -1. */
  function IndexOf(s: seq<Node>, id: NodeId): (r: int)
    ensures -1 <= r < |s|
    ensures r >= 0 ==> s[r].id == id
    ensures forall j :: 0 <= j < |s| && (r < 0 || j < r) ==> s[j].id != id
  {
    IndexFrom(s, id, 0)
  }

  function IndexFrom(s: seq<Node>, id: NodeId, i: nat): (r: int)
    requires i <= |s|
    ensures r == -1 || i <= r < |s|
    ensures r >= 0 ==> s[r].id == id
    ensures forall j :: i <= j < |s| && (r < 0 || j < r) ==> s[j].id != id
    decreases |s| - i
  {
    if i == |s| then -1 else if s[i].id == id then i else IndexFrom(s, id, i + 1)
  }

  function Without(s: seq<Node>, i: nat): seq<Node>
    requires i < |s|
  {
    s[..i] + s[i + 1..]
  }

  function Seen(n: Node, now: real): Node {
    Node(n.id, n.key, n.addr, now)
  }

  function Keyed(env: Env, n: Node): Node {
    Node(n.id, env.keyOf(n.id), n.addr, n.lastSeen)
  }

  /** The entry becomes the most recently seen one. */
  function MovedToTail(s: seq<Node>, i: nat, now: real): seq<Node>
    requires i < |s|
  {
    Without(s, i) + [Seen(s[i], now)]
  }

  // --- the table -----------------------------------------------------------

  function Place(env: Env, id: NodeId): nat {
    PrefixLen(env.self, env.keyOf(id))
  }

  datatype Op = Add(node: Node, now: real) | Remove(id: NodeId)

  predicate Stored(env: Env, b: Buckets, id: NodeId) {
    Place(env, id) < KEY_BITS && IndexOf(b[Place(env, id)], id) >= 0
  }

  /** Whether an `Add` touches the table at all. */
  predicate Accepts(env: Env, b: Buckets, id: NodeId) {
    Place(env, id) < KEY_BITS && (Stored(env, b, id) || |b[Place(env, id)]| < BUCKET_CAPACITY)
  }

  function AddTo(env: Env, b: Buckets, n: Node, now: real): Buckets {
    if Accepts(env, b, n.id) then
      var i := Place(env, n.id);
      b[i := Touched(env, b[i], n, now)]
    else b
  }

  /** A bucket after an accepted `Add`: a known node moves to the tail, a new one is stored there. */
  function Touched(env: Env, s: seq<Node>, n: Node, now: real): seq<Node> {
    var x := IndexOf(s, n.id);
    if x >= 0 then MovedToTail(s, x, now) else s + [Keyed(env, n)]
  }

  /** What `Add` offers for eviction: the head of a full bucket when the node is unknown. */
  function Offered(env: Env, b: Buckets, id: NodeId): Option<Node> {
    if Place(env, id) < KEY_BITS && !Accepts(env, b, id) then Some(b[Place(env, id)][0]) else None
  }

  function RemoveFrom(env: Env, b: Buckets, id: NodeId): Buckets {
    if Stored(env, b, id) then
      var i := Place(env, id);
      b[i := Without(b[i], IndexOf(b[i], id))]
    else b
  }

  lemma LocalKeyHasNoPlace(env: Env, b: Buckets, id: NodeId)
    ensures Place(env, id) == KEY_BITS <==> env.keyOf(id) == env.self
    ensures env.keyOf(id) == env.self ==> !Stored(env, b, id) && !Accepts(env, b, id) && Offered(env, b, id) == None
  {
    FullPrefixIsSelf(env.self, env.keyOf(id));
  }

  function Apply(env: Env, b: Buckets, op: Op): Buckets {
    match op
    case Add(n, now) => AddTo(env, b, n, now)
    case Remove(id) => RemoveFrom(env, b, id)
  }

  /** The table after a run of operations. */
  function Run(env: Env, ops: seq<Op>): Buckets {
    if ops == [] then Empty() else Apply(env, Run(env, ops[..|ops| - 1]), ops[|ops| - 1])
  }

  ghost function Ids(s: seq<Node>): seq<NodeId> {
    seq(|s|, i requires 0 <= i < |s| => s[i].id)
  }

  /** One bucket: at most 20 entries, no ID twice, each with its own key and exactly `i` bits of the local key. */
  ghost predicate BucketOk(env: Env, s: seq<Node>, i: nat) {
    && |s| <= BUCKET_CAPACITY
    && Shortlist.Distinct(Ids(s))
    && (forall n :: n in s ==> n.key == env.keyOf(n.id) && PrefixLen(env.self, n.key) == i)
  }

  ghost predicate WellFormed(env: Env, b: Buckets) {
    forall i :: 0 <= i < KEY_BITS ==> BucketOk(env, b[i], i)
  }

  lemma WithoutMembers(s: seq<Node>, x: nat, n: Node)
    requires x < |s| && n in Without(s, x)
    ensures n in s
  {
    var j :| 0 <= j < |Without(s, x)| && Without(s, x)[j] == n;
    assert n == s[if j < x then j else j + 1];
  }

  lemma BucketWithout(env: Env, s: seq<Node>, x: nat, i: nat)
    requires BucketOk(env, s, i) && x < |s|
    ensures BucketOk(env, Without(s, x), i)
    ensures forall n :: n in Without(s, x) ==> n.id != s[x].id
  {
    var t := Without(s, x);
    forall p | 0 <= p < |t| ensures t[p] == s[if p < x then p else p + 1] {
    }
    forall p, q | 0 <= p < q < |t| ensures Ids(t)[p] != Ids(t)[q] {
      var p', q' := if p < x then p else p + 1, if q < x then q else q + 1;
      assert Ids(s)[p'] != Ids(s)[q'];
    }
    forall n | n in t ensures n in s && n.id != s[x].id {
      WithoutMembers(s, x, n);
      var p :| 0 <= p < |t| && t[p] == n;
      var p' := if p < x then p else p + 1;
      assert if p' < x then Ids(s)[p'] != Ids(s)[x] else Ids(s)[x] != Ids(s)[p'];
    }
  }

  lemma BucketAppend(env: Env, s: seq<Node>, n: Node, i: nat)
    requires BucketOk(env, s, i) && |s| < BUCKET_CAPACITY
    requires n.key == env.keyOf(n.id) && PrefixLen(env.self, n.key) == i
    requires forall m :: m in s ==> m.id != n.id
    ensures BucketOk(env, s + [n], i)
  {
    forall p, q | 0 <= p < q < |s| + 1 ensures Ids(s + [n])[p] != Ids(s + [n])[q] {
      if q < |s| {
        assert Ids(s)[p] != Ids(s)[q];
      } else {
        assert s[p] in s;
      }
    }
  }

  lemma BucketTouched(env: Env, s: seq<Node>, n: Node, now: real)
    requires BucketOk(env, s, Place(env, n.id)) && (IndexOf(s, n.id) >= 0 || |s| < BUCKET_CAPACITY)
    ensures BucketOk(env, Touched(env, s, n, now), Place(env, n.id))
  {
    var i, x := Place(env, n.id), IndexOf(s, n.id);
    if x >= 0 {
      BucketWithout(env, s, x, i);
      assert s[x] in s;
      BucketAppend(env, Without(s, x), Seen(s[x], now), i);
    } else {
      BucketAppend(env, s, Keyed(env, n), i);
    }
  }

  lemma ApplyKeeps(env: Env, b: Buckets, op: Op)
    requires WellFormed(env, b)
    ensures WellFormed(env, Apply(env, b, op))
  {
    match op
    case Add(n, now) =>
      if Accepts(env, b, n.id) {
        BucketTouched(env, b[Place(env, n.id)], n, now);
      }
    case Remove(id) =>
      if Stored(env, b, id) {
        var i := Place(env, id);
        BucketWithout(env, b[i], IndexOf(b[i], id), i);
      }
  }

  /** In every run each bucket keeps its invariant; the local key is never stored and no ID is stored twice. */
  lemma {:induction false} RunIsWellFormed(env: Env, ops: seq<Op>)
    ensures WellFormed(env, Run(env, ops))
    ensures forall i, n :: 0 <= i < KEY_BITS && n in Run(env, ops)[i] ==> n.key != env.self
    ensures forall i, j, m, n |
      0 <= i < KEY_BITS && 0 <= j < KEY_BITS && m in Run(env, ops)[i] && n in Run(env, ops)[j] && m.id == n.id
      :: i == j && m == n
  {
    if ops == [] {
    } else {
      RunIsWellFormed(env, ops[..|ops| - 1]);
      ApplyKeeps(env, Run(env, ops[..|ops| - 1]), ops[|ops| - 1]);
    }
    var b := Run(env, ops);
    forall i, n | 0 <= i < KEY_BITS && n in b[i] ensures n.key != env.self {
      FullPrefixIsSelf(env.self, n.key);
    }
    forall i, j, m, n | 0 <= i < KEY_BITS && 0 <= j < KEY_BITS && m in b[i] && n in b[j] && m.id == n.id
      ensures i == j && m == n
    {
      assert BucketOk(env, b[i], i) && BucketOk(env, b[j], j);
      SameIdSameNode(b[i], m, n);
    }
  }

  lemma SameIdSameNode(s: seq<Node>, m: Node, n: Node)
    requires Shortlist.Distinct(Ids(s)) && m in s && n in s && m.id == n.id
    ensures m == n
  {
    var p :| 0 <= p < |s| && s[p] == m;
    var q :| 0 <= q < |s| && s[q] == n;
    assert Ids(s)[p] == Ids(s)[q];
  }

  /** Every node of a higher bucket is closer to the local node than any node of a lower one. */
  lemma HigherBucketIsCloser(env: Env, b: Buckets, i: nat, j: nat, m: Node, n: Node)
    requires WellFormed(env, b) && i < j < KEY_BITS && m in b[i] && n in b[j]
    ensures Dist(env.self, n.key) < Dist(env.self, m.key)
  {
    assert BucketOk(env, b[i], i) && BucketOk(env, b[j], j);
    LongerPrefixIsCloser(env.self, n.key, m.key);
  }

  // --- history -------------------------------------------------------------

  /** The index of the latest accepted `Add` of an ID in a run, or -1. */
  ghost function LatestAdd(env: Env, ops: seq<Op>, id: NodeId): (t: int)
    ensures -1 <= t < |ops|
  {
    if ops == [] then -1
    else
      var last := |ops| - 1;
      if ops[last].Add? && ops[last].node.id == id && Accepts(env, Run(env, ops[..last]), id) then last
      else LatestAdd(env, ops[..last], id)
  }

  ghost predicate ByRecency(env: Env, ops: seq<Op>, s: seq<Node>) {
    && (forall p :: 0 <= p < |s| ==> LatestAdd(env, ops, s[p].id) >= 0)
    && (forall p, q :: 0 <= p < q < |s| ==> LatestAdd(env, ops, s[p].id) < LatestAdd(env, ops, s[q].id))
  }

  lemma RecencyKept(env: Env, ops: seq<Op>, past: seq<Op>, s: seq<Node>)
    requires ByRecency(env, past, s)
    requires forall n :: n in s ==> LatestAdd(env, ops, n.id) == LatestAdd(env, past, n.id)
    ensures ByRecency(env, ops, s)
  {
    forall p | 0 <= p < |s| ensures LatestAdd(env, ops, s[p].id) == LatestAdd(env, past, s[p].id) {
      assert s[p] in s;
    }
  }

  lemma RecencyWithout(env: Env, ops: seq<Op>, s: seq<Node>, x: nat)
    requires ByRecency(env, ops, s) && x < |s|
    ensures ByRecency(env, ops, Without(s, x))
  {
    var t := Without(s, x);
    forall p | 0 <= p < |t| ensures t[p] == s[if p < x then p else p + 1] {
    }
  }

  /** The ranks of the entries grow from position to position. */
  ghost predicate Increasing(s: seq<Node>, rank: NodeId -> int) {
    (forall p :: 0 <= p < |s| ==> rank(s[p].id) >= 0) && forall p, q :: 0 <= p < q < |s| ==> rank(s[p].id) < rank(s[q].id)
  }

  lemma IncreasingAppend(s: seq<Node>, n: Node, rank: NodeId -> int)
    requires Increasing(s, rank) && rank(n.id) >= 0 && forall p :: 0 <= p < |s| ==> rank(s[p].id) < rank(n.id)
    ensures Increasing(s + [n], rank)
  {
  }

  lemma RecencyAppend(env: Env, ops: seq<Op>, past: seq<Op>, s: seq<Node>, n: Node)
    requires ByRecency(env, past, s)
    requires forall m :: m in s ==> LatestAdd(env, ops, m.id) == LatestAdd(env, past, m.id)
    requires LatestAdd(env, ops, n.id) == |past|
    ensures ByRecency(env, ops, s + [n])
  {
    var rank := (id: NodeId) => LatestAdd(env, ops, id);
    RecencyKept(env, ops, past, s);
    assert Increasing(s, rank);
    forall p | 0 <= p < |s| ensures rank(s[p].id) < |past| {
      assert s[p] in s;
    }
    IncreasingAppend(s, n, rank);
  }

  lemma LatestAfterAdd(env: Env, past: seq<Op>, n: Node, now: real, id: NodeId)
    ensures LatestAdd(env, past + [Add(n, now)], id)
      == if id == n.id && Accepts(env, Run(env, past), id) then |past| else LatestAdd(env, past, id)
  {
    assert (past + [Add(n, now)])[..|past|] == past;
  }

  lemma LatestAfterRemove(env: Env, past: seq<Op>, gone: NodeId, id: NodeId)
    ensures LatestAdd(env, past + [Remove(gone)], id) == LatestAdd(env, past, id)
  {
    assert (past + [Remove(gone)])[..|past|] == past;
  }

  lemma RefreshIsByRecency(env: Env, past: seq<Op>, ops: seq<Op>, s: seq<Node>, x: nat, now: real, i: nat)
    requires BucketOk(env, s, i) && ByRecency(env, past, s) && x < |s|
    requires LatestAdd(env, ops, s[x].id) == |past|
    requires forall m :: m in s && m.id != s[x].id ==> LatestAdd(env, ops, m.id) == LatestAdd(env, past, m.id)
    ensures ByRecency(env, ops, MovedToTail(s, x, now))
  {
    BucketWithout(env, s, x, i);
    RecencyWithout(env, past, s, x);
    forall m | m in Without(s, x) ensures LatestAdd(env, ops, m.id) == LatestAdd(env, past, m.id) {
      WithoutMembers(s, x, m);
    }
    RecencyAppend(env, ops, past, Without(s, x), Seen(s[x], now));
  }

  lemma TouchedIsByRecency(env: Env, past: seq<Op>, ops: seq<Op>, s: seq<Node>, n: Node, now: real, i: nat)
    requires BucketOk(env, s, i) && ByRecency(env, past, s)
    requires LatestAdd(env, ops, n.id) == |past|
    requires forall m :: m in s && m.id != n.id ==> LatestAdd(env, ops, m.id) == LatestAdd(env, past, m.id)
    ensures ByRecency(env, ops, Touched(env, s, n, now))
  {
    var x := IndexOf(s, n.id);
    if x >= 0 {
      RefreshIsByRecency(env, past, ops, s, x, now, i);
    } else {
      RecencyAppend(env, ops, past, s, Keyed(env, n));
    }
  }

  lemma AddIsByRecency(env: Env, past: seq<Op>, n: Node, now: real, i: nat)
    requires i < KEY_BITS && BucketOk(env, Run(env, past)[i], i) && ByRecency(env, past, Run(env, past)[i])
    ensures ByRecency(env, past + [Add(n, now)], AddTo(env, Run(env, past), n, now)[i])
  {
    var b, ops := Run(env, past), past + [Add(n, now)];
    var s, accepted := b[i], Accepts(env, b, n.id);
    forall m | m in s
      ensures m.id != n.id || !accepted ==> LatestAdd(env, ops, m.id) == LatestAdd(env, past, m.id)
    {
      LatestAfterAdd(env, past, n, now, m.id);
    }
    if accepted && Place(env, n.id) == i {
      LatestAfterAdd(env, past, n, now, n.id);
      TouchedIsByRecency(env, past, ops, s, n, now, i);
    } else {
      RecencyKept(env, ops, past, s);
    }
  }

  lemma RemoveIsByRecency(env: Env, past: seq<Op>, id: NodeId, i: nat)
    requires i < KEY_BITS && ByRecency(env, past, Run(env, past)[i])
    ensures ByRecency(env, past + [Remove(id)], RemoveFrom(env, Run(env, past), id)[i])
  {
    var b := Run(env, past);
    var c := RemoveFrom(env, b, id);
    if Stored(env, b, id) && Place(env, id) == i {
      RecencyWithout(env, past, b[i], IndexOf(b[i], id));
    }
    forall m | m in c[i] ensures LatestAdd(env, past + [Remove(id)], m.id) == LatestAdd(env, past, m.id) {
      LatestAfterRemove(env, past, id, m.id);
    }
    RecencyKept(env, past + [Remove(id)], past, c[i]);
  }

  /** In every run each bucket lists its nodes in the order of their latest accepted `Add`. */
  lemma {:induction false} RunIsByRecency(env: Env, ops: seq<Op>, i: nat)
    requires i < KEY_BITS
    ensures ByRecency(env, ops, Run(env, ops)[i])
  {
    if ops == [] {
    } else {
      var past, op := ops[..|ops| - 1], ops[|ops| - 1];
      assert ops == past + [op];
      RunIsByRecency(env, past, i);
      RunIsWellFormed(env, past);
      match op
      case Add(n, now) => AddIsByRecency(env, past, n, now, i);
      case Remove(id) => RemoveIsByRecency(env, past, id, i);
    }
  }

  /** A full bucket is left alone by an unknown node, and its head is the least recently touched entry. */
  lemma FullBucketOffersOldest(env: Env, ops: seq<Op>, n: Node, now: real)
    requires Place(env, n.id) < KEY_BITS && !Accepts(env, Run(env, ops), n.id)
    ensures Run(env, ops + [Add(n, now)]) == Run(env, ops)
    ensures var s := Run(env, ops)[Place(env, n.id)];
      |s| == 20 && Offered(env, Run(env, ops), n.id) == Some(s[0])
      && forall m :: m in s && m != s[0] ==> LatestAdd(env, ops, s[0].id) < LatestAdd(env, ops, m.id)
  {
    var i := Place(env, n.id);
    var s := Run(env, ops)[i];
    assert (ops + [Add(n, now)])[..|ops|] == ops;
    RunIsByRecency(env, ops, i);
    RunIsWellFormed(env, ops);
    assert BucketOk(env, s, i);
  }

  // --- agreement with a flat set -------------------------------------------

  /** The IDs in the table. */
  ghost function IdSet(b: Buckets): set<NodeId> {
    set i, n | 0 <= i < KEY_BITS && n in b[i] :: n.id
  }

  /** Table-free semantics: a set of IDs in which no more than 20 share a place. */
  ghost function FlatApply(env: Env, ids: set<NodeId>, op: Op): set<NodeId> {
    match op
    case Add(n, _) =>
      if Place(env, n.id) < KEY_BITS
        && (n.id in ids || |PlacedAt(env, ids, Place(env, n.id))| < 20)
      then ids + {n.id} else ids
    case Remove(id) => ids - {id}
  }

  ghost function FlatRun(env: Env, ops: seq<Op>): set<NodeId> {
    if ops == [] then {} else FlatApply(env, FlatRun(env, ops[..|ops| - 1]), ops[|ops| - 1])
  }

  /** The stored IDs that belong at place `i`. */
  ghost function PlacedAt(env: Env, ids: set<NodeId>, i: nat): set<NodeId> {
    set x | x in ids && Place(env, x) == i
  }

  lemma BucketIds(env: Env, b: Buckets, i: nat)
    requires WellFormed(env, b) && i < KEY_BITS
    ensures BucketSet(b[i]) == PlacedAt(env, IdSet(b), i)
    ensures |b[i]| == |PlacedAt(env, IdSet(b), i)|
  {
    assert BucketOk(env, b[i], i);
    forall x | x in PlacedAt(env, IdSet(b), i) ensures x in BucketSet(b[i]) {
      var j, n :| 0 <= j < KEY_BITS && n in b[j] && n.id == x;
      assert BucketOk(env, b[j], j);
    }
    forall x | x in BucketSet(b[i]) ensures x in PlacedAt(env, IdSet(b), i) {
      var n :| n in b[i] && n.id == x;
    }
    IdsMembers(b[i]);
    Shortlist.DistinctCount(Ids(b[i]));
  }

  lemma StoredIffInSet(env: Env, b: Buckets, id: NodeId)
    requires WellFormed(env, b)
    ensures Stored(env, b, id) <==> id in IdSet(b)
  {
    if Stored(env, b, id) {
      var i := Place(env, id);
      assert b[i][IndexOf(b[i], id)] in b[i];
    }
    if id in IdSet(b) {
      var i, n :| 0 <= i < KEY_BITS && n in b[i] && n.id == id;
      assert BucketOk(env, b[i], i);
      var p :| 0 <= p < |b[i]| && b[i][p] == n;
    }
  }

  ghost function BucketSet(s: seq<Node>): set<NodeId> {
    set n | n in s :: n.id
  }

  lemma SetGrows(b: Buckets, i: nat, s: seq<Node>, id: NodeId)
    requires i < KEY_BITS && BucketSet(s) == BucketSet(b[i]) + {id}
    ensures IdSet(b[i := s]) == IdSet(b) + {id}
  {
    var c: Buckets := b[i := s];
    forall y | y in IdSet(c) ensures y in IdSet(b) + {id} {
      var j, m :| 0 <= j < KEY_BITS && m in c[j] && m.id == y;
      assert j == i ==> y in BucketSet(s);
    }
    forall y | y in IdSet(b) + {id} ensures y in IdSet(c) {
      if y == id || y in BucketSet(b[i]) {
        assert y in BucketSet(s);
        var m :| m in s && m.id == y;
        assert m in c[i];
      } else {
        var j, m :| 0 <= j < KEY_BITS && m in b[j] && m.id == y;
        assert m in c[j];
      }
    }
  }

  lemma SetShrinks(b: Buckets, i: nat, s: seq<Node>, id: NodeId)
    requires i < KEY_BITS && BucketSet(s) == BucketSet(b[i]) - {id}
    requires forall j, m :: 0 <= j < KEY_BITS && j != i && m in b[j] ==> m.id != id
    ensures IdSet(b[i := s]) == IdSet(b) - {id}
  {
    var c: Buckets := b[i := s];
    forall y | y in IdSet(c) ensures y in IdSet(b) - {id} {
      var j, m :| 0 <= j < KEY_BITS && m in c[j] && m.id == y;
      assert j == i ==> y in BucketSet(s);
      assert j != i ==> m in b[j];
    }
    forall y | y in IdSet(b) - {id} ensures y in IdSet(c) {
      var j, m :| 0 <= j < KEY_BITS && m in b[j] && m.id == y;
      if j == i {
        assert y in BucketSet(s);
        var n :| n in s && n.id == y;
        assert n in c[i];
      } else {
        assert m in c[j];
      }
    }
  }

  lemma SetWithout(s: seq<Node>, x: nat)
    requires x < |s| && forall n :: n in Without(s, x) ==> n.id != s[x].id
    ensures BucketSet(Without(s, x)) == BucketSet(s) - {s[x].id}
  {
    var t := Without(s, x);
    assert s == s[..x] + [s[x]] + s[x + 1..];
    forall m | m in s ensures m == s[x] || m in t {
    }
    forall m | m in t ensures m in s {
    }
    forall y | y in BucketSet(s) && y != s[x].id ensures y in BucketSet(t) {
      var m :| m in s && m.id == y;
      assert m in t;
    }
  }

  lemma SetAppend(s: seq<Node>, n: Node)
    ensures BucketSet(s + [n]) == BucketSet(s) + {n.id}
  {
    forall m ensures m in s + [n] <==> m in s || m == n {
    }
    forall y | y in BucketSet(s) + {n.id} ensures y in BucketSet(s + [n]) {
      var m :| (m in s || m == n) && m.id == y;
      assert m in s + [n];
    }
  }

  lemma SetTouched(env: Env, s: seq<Node>, n: Node, now: real, i: nat)
    requires BucketOk(env, s, i)
    ensures BucketSet(Touched(env, s, n, now)) == BucketSet(s) + {n.id}
  {
    var x := IndexOf(s, n.id);
    if x >= 0 {
      BucketWithout(env, s, x, i);
      SetWithout(s, x);
      SetAppend(Without(s, x), Seen(s[x], now));
    } else {
      SetAppend(s, Keyed(env, n));
    }
  }

  lemma SetAfterAdd(env: Env, b: Buckets, n: Node, now: real)
    requires WellFormed(env, b)
    ensures IdSet(AddTo(env, b, n, now)) == if Accepts(env, b, n.id) then IdSet(b) + {n.id} else IdSet(b)
  {
    if Accepts(env, b, n.id) {
      var i := Place(env, n.id);
      SetTouched(env, b[i], n, now, i);
      SetGrows(b, i, Touched(env, b[i], n, now), n.id);
    }
  }

  lemma SetAfterRemove(env: Env, b: Buckets, id: NodeId)
    requires WellFormed(env, b)
    ensures IdSet(RemoveFrom(env, b, id)) == IdSet(b) - {id}
  {
    StoredIffInSet(env, b, id);
    if Stored(env, b, id) {
      var i := Place(env, id);
      forall j, m | 0 <= j < KEY_BITS && j != i && m in b[j] ensures m.id != id {
        assert BucketOk(env, b[j], j);
      }
      BucketWithout(env, b[i], IndexOf(b[i], id), i);
      SetWithout(b[i], IndexOf(b[i], id));
      SetShrinks(b, i, Without(b[i], IndexOf(b[i], id)), id);
    }
  }

  /** The bucketed table and the flat set agree after every run: in particular `Add` never drops a stored node. */
  lemma {:induction false} TableIsFlatSet(env: Env, ops: seq<Op>)
    ensures IdSet(Run(env, ops)) == FlatRun(env, ops)
  {
    if ops == [] {
    } else {
      var past, op := ops[..|ops| - 1], ops[|ops| - 1];
      var b := Run(env, past);
      TableIsFlatSet(env, past);
      RunIsWellFormed(env, past);
      match op
      case Add(n, now) =>
        SetAfterAdd(env, b, n, now);
        StoredIffInSet(env, b, n.id);
        if Place(env, n.id) < KEY_BITS {
          BucketIds(env, b, Place(env, n.id));
        }
      case Remove(id) =>
        SetAfterRemove(env, b, id);
    }
  }

  // --- the flat peer list --------------------------------------------------

  /** All entries of the first `n` buckets, bucket after bucket. */
  function Flat(b: Buckets, n: nat): seq<Node>
    requires n <= KEY_BITS
  {
    if n == 0 then [] else Flat(b, n - 1) + b[n - 1]
  }

  /** All entries of the table. */
  function Listing(b: Buckets): seq<Node> {
    Flat(b, |b|)
  }

  lemma {:induction false} FlatMembers(b: Buckets, n: nat, x: Node)
    requires n <= KEY_BITS
    ensures x in Flat(b, n) <==> exists i :: 0 <= i < n && x in b[i]
  {
    if n == 0 {
    } else {
      FlatMembers(b, n - 1, x);
      assert x in Flat(b, n) <==> x in Flat(b, n - 1) || x in b[n - 1];
    }
  }

  lemma {:induction false} FlatOrder(b: Buckets, place: NodeId -> int, rank: NodeId -> int, n: nat, p: nat, q: nat)
    requires n <= KEY_BITS && p < q < |Flat(b, n)|
    requires forall i :: 0 <= i < KEY_BITS ==> Increasing(b[i], rank) && forall m :: m in b[i] ==> place(m.id) == i
    ensures var x, y := Flat(b, n)[p].id, Flat(b, n)[q].id;
            place(x) < place(y) || (place(x) == place(y) && rank(x) < rank(y))
  {
    var f, s := Flat(b, n - 1), b[n - 1];
    if q < |f| {
      FlatOrder(b, place, rank, n - 1, p, q);
    } else {
      assert s[q - |f|] in s;
      if p < |f| {
        FlatMembers(b, n - 1, f[p]);
      } else {
        assert s[p - |f|] in s;
      }
    }
  }

  /** After every run the listing goes from the fewest shared bits to the most, and within a bucket from the least
      recently added node to the most recent one. */
  lemma ListingOrder(env: Env, ops: seq<Op>, b: Buckets, p: nat, q: nat)
    requires b == Run(env, ops) && p < q < |Listing(b)|
    ensures var x, y := Listing(b)[p].id, Listing(b)[q].id;
            Place(env, x) < Place(env, y) ||
            (Place(env, x) == Place(env, y) && LatestAdd(env, ops, x) < LatestAdd(env, ops, y))
  {
    var place, rank := (id: NodeId) => Place(env, id), (id: NodeId) => LatestAdd(env, ops, id);
    RunIsWellFormed(env, ops);
    forall i | 0 <= i < KEY_BITS ensures Increasing(b[i], rank) && forall m :: m in b[i] ==> place(m.id) == i {
      RunIsByRecency(env, ops, i);
      assert BucketOk(env, b[i], i);
    }
    FlatOrder(b, place, rank, |b|, p, q);
  }

  lemma {:induction false} FlatDistinct(env: Env, b: Buckets, n: nat)
    requires WellFormed(env, b) && n <= KEY_BITS
    ensures Shortlist.Distinct(Ids(Flat(b, n)))
  {
    if n == 0 {
    } else {
      FlatDistinct(env, b, n - 1);
      var f, s := Flat(b, n - 1), b[n - 1];
      assert BucketOk(env, s, n - 1);
      forall p, q | 0 <= p < |f| && 0 <= q < |s| ensures f[p].id != s[q].id {
        FlatMembers(b, n - 1, f[p]);
        var i :| 0 <= i < n - 1 && f[p] in b[i];
        assert BucketOk(env, b[i], i) && s[q] in s;
      }
      DistinctConcat(f, s);
    }
  }

  lemma DistinctConcat(f: seq<Node>, s: seq<Node>)
    requires Shortlist.Distinct(Ids(f)) && Shortlist.Distinct(Ids(s))
    requires forall p, q :: 0 <= p < |f| && 0 <= q < |s| ==> f[p].id != s[q].id
    ensures Shortlist.Distinct(Ids(f + s))
  {
    forall p, q | 0 <= p < q < |f + s| ensures Ids(f + s)[p] != Ids(f + s)[q] {
      if q < |f| {
        assert Ids(f)[p] != Ids(f)[q];
      } else if p >= |f| {
        assert Ids(s)[p - |f|] != Ids(s)[q - |f|];
      }
    }
  }

  /** Distance of a node ID from a target key. */
  ghost function DistanceFrom(env: Env, target: Key): NodeId -> int {
    id => Dist(target, env.keyOf(id))
  }

  lemma IdsMembers(s: seq<Node>)
    ensures Shortlist.Elements(Ids(s)) == BucketSet(s)
  {
    forall x | x in Ids(s) ensures x in BucketSet(s) {
      var p :| 0 <= p < |s| && Ids(s)[p] == x;
      assert s[p] in s;
    }
    forall x | x in BucketSet(s) ensures x in Ids(s) {
      var n :| n in s && n.id == x;
      var p :| 0 <= p < |s| && s[p] == n;
      assert Ids(s)[p] == x;
    }
  }

  lemma FlatIds(b: Buckets)
    ensures BucketSet(Listing(b)) == IdSet(b)
  {
    forall x | x in BucketSet(Listing(b)) ensures x in IdSet(b) {
      var n :| n in Listing(b) && n.id == x;
      FlatMembers(b, |b|, n);
    }
    forall x | x in IdSet(b) ensures x in BucketSet(Listing(b)) {
      var i, n :| 0 <= i < KEY_BITS && n in b[i] && n.id == x;
      FlatMembers(b, |b|, n);
    }
  }

  lemma PermutedIds(s: seq<Node>, f: seq<Node>)
    requires multiset(s) == multiset(f) && Shortlist.Distinct(Ids(f))
    ensures Shortlist.Distinct(Ids(s)) && BucketSet(s) == BucketSet(f)
  {
    Shortlist.SameMembers(s, f);
    assert forall n :: n in s <==> n in Shortlist.Elements(s);
    assert forall n :: n in f <==> n in Shortlist.Elements(f);
    forall p, q | 0 <= p < q < |f| ensures f[p] != f[q] {
      assert Ids(f)[p] != Ids(f)[q];
    }
    Shortlist.SamePermutationDistinct(s, f);
    forall p, q | 0 <= p < q < |s| ensures Ids(s)[p] != Ids(s)[q] {
      assert s[p] in s && s[q] in s;
      if s[p].id == s[q].id {
        SameIdSameNode(f, s[p], s[q]);
      }
    }
  }

  lemma ArrangedMembers(env: Env, b: Buckets, s: seq<Node>)
    requires WellFormed(env, b) && multiset(s) == multiset(Listing(b))
    ensures forall n :: n in s ==> n in Listing(b) && n.key == env.keyOf(n.id)
  {
    var f := Listing(b);
    Shortlist.SameMembers(s, f);
    forall n | n in s ensures n in f && n.key == env.keyOf(n.id) {
      assert n in Shortlist.Elements(s);
      FlatMembers(b, |b|, n);
      var i :| 0 <= i < KEY_BITS && n in b[i];
      assert BucketOk(env, b[i], i);
    }
  }

  lemma ArrangedIds(env: Env, b: Buckets, s: seq<Node>)
    requires WellFormed(env, b) && multiset(s) == multiset(Listing(b))
    ensures Shortlist.Distinct(Ids(s)) && Shortlist.Elements(Ids(s)) == IdSet(b) && |s| == |IdSet(b)|
  {
    var f := Listing(b);
    FlatDistinct(env, b, |b|);
    PermutedIds(s, f);
    FlatIds(b);
    IdsMembers(s);
    IdsMembers(f);
    Shortlist.SameMembers(s, f);
    Shortlist.DistinctCount(Ids(s));
  }

  /** The whole table sorted by distance is the shortlist of all its IDs. */
  lemma SortedTableIsNearest(env: Env, b: Buckets, s: seq<Node>, target: Key)
    requires WellFormed(env, b) && multiset(s) == multiset(Listing(b))
    requires forall i, j :: 0 <= i < j < |s| ==> Dist(target, s[i].key) <= Dist(target, s[j].key)
    ensures forall n :: n in s ==> n in Listing(b) && n.key == env.keyOf(n.id)
    ensures |s| == |IdSet(b)| && Shortlist.Nearest(Ids(s), IdSet(b), |s|, DistanceFrom(env, target))
  {
    ArrangedMembers(env, b, s);
    ArrangedIds(env, b, s);
    var d := DistanceFrom(env, target);
    forall i, j | 0 <= i < j < |s| ensures d(Ids(s)[i]) <= d(Ids(s)[j]) {
      assert s[i] in s && s[j] in s;
    }
  }

  /** Cutting a distance-sorted node list at `c` gives the shortlist of cap `c`. */
  lemma CutNearest(s: seq<Node>, pool: set<NodeId>, k: nat, c: nat, d: NodeId -> int)
    requires Shortlist.Nearest(Ids(s), pool, k, d) && (c <= k || |s| == |pool|)
    ensures Shortlist.Nearest(Ids(if |s| > c then s[..c] else s), pool, c, d)
  {
    if |s| > c {
      Shortlist.Cut(Ids(s), pool, k, c, d);
      assert Ids(s[..c]) == Ids(s)[..c];
    }
  }

  lemma ListingCount(env: Env, b: Buckets)
    requires WellFormed(env, b)
    ensures |Listing(b)| == |IdSet(b)|
  {
    FlatDistinct(env, b, |b|);
    FlatIds(b);
    IdsMembers(Listing(b));
    Shortlist.DistinctCount(Ids(Listing(b)));
  }

  // --- distinct keys -------------------------------------------------------

  ghost predicate DistinctKeys(env: Env, ids: set<NodeId>) {
    forall x, y :: x in ids && y in ids && env.keyOf(x) == env.keyOf(y) ==> x == y
  }

  lemma DistinctKeysNoTies(env: Env, ids: set<NodeId>, target: Key)
    requires DistinctKeys(env, ids)
    ensures Shortlist.NoTies(ids, DistanceFrom(env, target))
  {
    var d := DistanceFrom(env, target);
    forall x, y | x in ids && y in ids && d(x) == d(y) ensures x == y {
      DistanceDetermines(target, env.keyOf(x), env.keyOf(y));
    }
  }

  lemma SameIdSameEntry(env: Env, b: Buckets, m: Node, n: Node)
    requires WellFormed(env, b) && m in Listing(b) && n in Listing(b) && m.id == n.id
    ensures m == n
  {
    FlatMembers(b, |b|, m);
    FlatMembers(b, |b|, n);
    var i :| 0 <= i < KEY_BITS && m in b[i];
    var j :| 0 <= j < KEY_BITS && n in b[j];
    assert BucketOk(env, b[i], i) && BucketOk(env, b[j], j);
    SameIdSameNode(b[i], m, n);
  }

  /** With distinct keys there is one list of the nearest `c` entries; up to 20 it is also the list of next hops. */
  lemma NearestIsUnique(env: Env, b: Buckets, r: seq<Node>, s: seq<Node>, c: nat, target: Key)
    requires WellFormed(env, b) && DistinctKeys(env, IdSet(b)) && c <= BUCKET_CAPACITY
    requires (forall n :: n in r ==> n in Listing(b)) && forall n :: n in s ==> n in Listing(b)
    requires Shortlist.Nearest(Ids(r), IdSet(b), Shortlist.Min(c, BUCKET_CAPACITY), DistanceFrom(env, target))
    requires Shortlist.Nearest(Ids(s), IdSet(b), c, DistanceFrom(env, target))
    ensures r == s
  {
    DistinctKeysNoTies(env, IdSet(b), target);
    Shortlist.Unique(Ids(r), Ids(s), IdSet(b), c, DistanceFrom(env, target));
    assert |Ids(r)| == |r| && |Ids(s)| == |s|;
    forall i | 0 <= i < |r| ensures r[i] == s[i] {
      assert Ids(r)[i] == Ids(s)[i];
      SameIdSameEntry(env, b, r[i], s[i]);
    }
  }

  // --- what an entry holds -------------------------------------------------

  /** The index of the `Add` that began the present stay of an ID, told from the flat set alone; -1 if it is not stored. */
  ghost function Born(env: Env, ops: seq<Op>, id: NodeId): (t: int)
    ensures -1 <= t < |ops|
    ensures if id in FlatRun(env, ops) then t >= 0 && ops[t].Add? && ops[t].node.id == id else t == -1
  {
    if id !in FlatRun(env, ops) then -1
    else
      var past := ops[..|ops| - 1];
      if id in FlatRun(env, past) then Born(env, past, id) else |past|
  }

  /** The index of the last `Add` of an ID, or -1. */
  function LastCall(ops: seq<Op>, id: NodeId): (t: int)
    ensures -1 <= t < |ops|
    ensures t >= 0 ==> ops[t].Add? && ops[t].node.id == id
  {
    if ops == [] then -1
    else
      var last := ops[|ops| - 1];
      if last.Add? && last.node.id == id then |ops| - 1 else LastCall(ops[..|ops| - 1], id)
  }

  lemma {:induction false} CalledSinceBorn(env: Env, ops: seq<Op>, id: NodeId)
    requires id in FlatRun(env, ops)
    ensures 0 <= Born(env, ops, id) <= LastCall(ops, id)
  {
    var past := ops[..|ops| - 1];
    if id in FlatRun(env, past) {
      CalledSinceBorn(env, past, id);
    }
  }

  /**
   * The entry of a stored ID: the derived key, the address given when its stay began, and the time of its last `Add`,
   * or the time that came with it if it was not added again.
   */
  ghost function EntryOf(env: Env, ops: seq<Op>, id: NodeId): Node
    requires id in FlatRun(env, ops)
  {
    CalledSinceBorn(env, ops, id);
    var first, last := ops[Born(env, ops, id)], ops[LastCall(ops, id)];
    Node(id, env.keyOf(id), first.node.addr,
         if Born(env, ops, id) == LastCall(ops, id) then first.node.lastSeen else last.now)
  }

  lemma EntryKept(env: Env, past: seq<Op>, op: Op, id: NodeId)
    requires id in FlatRun(env, past) && id in FlatRun(env, past + [op]) && !(op.Add? && op.node.id == id)
    ensures EntryOf(env, past + [op], id) == EntryOf(env, past, id)
  {
    assert (past + [op])[..|past|] == past;
  }

  lemma EntryRefreshed(env: Env, past: seq<Op>, n: Node, now: real)
    requires n.id in FlatRun(env, past) && n.id in FlatRun(env, past + [Add(n, now)])
    ensures EntryOf(env, past + [Add(n, now)], n.id) == Seen(EntryOf(env, past, n.id), now)
  {
    assert (past + [Add(n, now)])[..|past|] == past;
  }

  lemma EntryStored(env: Env, past: seq<Op>, n: Node, now: real)
    requires n.id !in FlatRun(env, past) && n.id in FlatRun(env, past + [Add(n, now)])
    ensures EntryOf(env, past + [Add(n, now)], n.id) == Keyed(env, n)
  {
    assert (past + [Add(n, now)])[..|past|] == past;
  }

  ghost predicate Holds(env: Env, ops: seq<Op>, n: Node) {
    n.id in FlatRun(env, ops) && n == EntryOf(env, ops, n.id)
  }

  lemma InTable(b: Buckets, i: nat, n: Node)
    requires i < KEY_BITS && n in b[i]
    ensures n.id in IdSet(b)
  {
  }

  lemma OldHolds(env: Env, past: seq<Op>, op: Op, i: nat, m: Node)
    requires i < KEY_BITS && Holds(env, past, m) && m in Run(env, past + [op])[i] && !(op.Add? && op.node.id == m.id)
    ensures Holds(env, past + [op], m)
  {
    TableIsFlatSet(env, past + [op]);
    InTable(Run(env, past + [op]), i, m);
    EntryKept(env, past, op, m.id);
  }

  lemma TouchedMembers(env: Env, s: seq<Node>, n: Node, now: real, i: nat, m: Node)
    requires BucketOk(env, s, i) && m in Touched(env, s, n, now)
    ensures m.id != n.id ==> m in s
    ensures m.id == n.id ==> (exists k :: k in s && k.id == n.id && m == Seen(k, now)) ||
                             (m == Keyed(env, n) && forall k :: k in s ==> k.id != n.id)
  {
    var x := IndexOf(s, n.id);
    if x >= 0 {
      BucketWithout(env, s, x, i);
      assert s[x] in s;
      if m in Without(s, x) {
        WithoutMembers(s, x, m);
      }
    }
  }

  lemma AddHolds(env: Env, past: seq<Op>, n: Node, now: real, i: nat, m: Node)
    requires i < KEY_BITS && (forall k :: k in Run(env, past)[i] ==> Holds(env, past, k))
    requires m in Run(env, past + [Add(n, now)])[i]
    ensures Holds(env, past + [Add(n, now)], m)
  {
    var b, op := Run(env, past), Add(n, now);
    var ops := past + [op];
    assert ops[..|past|] == past;
    RunIsWellFormed(env, past);
    assert BucketOk(env, b[i], i);
    TableIsFlatSet(env, past);
    StoredIffInSet(env, b, n.id);
    if !Accepts(env, b, n.id) {
      RefusedIsElsewhere(env, b, n.id, i);
      OldHolds(env, past, op, i, m);
    } else if Place(env, n.id) != i {
      OldHolds(env, past, op, i, m);
    } else {
      TouchedMembers(env, b[i], n, now, i, m);
      if m.id != n.id {
        OldHolds(env, past, op, i, m);
      } else {
        TouchedHolds(env, past, n, now, i, m);
      }
    }
  }

  lemma RefusedIsElsewhere(env: Env, b: Buckets, id: NodeId, i: nat)
    requires WellFormed(env, b) && i < KEY_BITS && !Accepts(env, b, id)
    ensures forall m :: m in b[i] ==> m.id != id
  {
    StoredIffInSet(env, b, id);
    forall m | m in b[i] ensures m.id != id {
      InTable(b, i, m);
    }
  }

  lemma TouchedHolds(env: Env, past: seq<Op>, n: Node, now: real, i: nat, m: Node)
    requires i < KEY_BITS && (forall k :: k in Run(env, past)[i] ==> Holds(env, past, k))
    requires Stored(env, Run(env, past), n.id) <==> n.id in FlatRun(env, past)
    requires Place(env, n.id) == i && m.id == n.id && m in Run(env, past + [Add(n, now)])[i]
    requires var s := Run(env, past)[i];
             (exists k :: k in s && k.id == n.id && m == Seen(k, now)) ||
             (m == Keyed(env, n) && forall k :: k in s ==> k.id != n.id)
    ensures Holds(env, past + [Add(n, now)], m)
  {
    var s, ops := Run(env, past)[i], past + [Add(n, now)];
    TableIsFlatSet(env, ops);
    InTable(Run(env, ops), i, m);
    if k :| k in s && k.id == n.id && m == Seen(k, now) {
      assert Holds(env, past, k);
      EntryRefreshed(env, past, n, now);
    } else {
      EntryStored(env, past, n, now);
    }
  }

  /** After every run each stored node is exactly what the calls made it: key, address and time of last contact. */
  lemma {:induction false} EntriesAreFromCalls(env: Env, ops: seq<Op>, i: nat)
    requires i < KEY_BITS
    ensures forall n :: n in Run(env, ops)[i] ==> n.id in FlatRun(env, ops) && n == EntryOf(env, ops, n.id)
  {
    if ops == [] {
    } else {
      var past, op := ops[..|ops| - 1], ops[|ops| - 1];
      assert ops == past + [op];
      EntriesAreFromCalls(env, past, i);
      assert forall k :: k in Run(env, past)[i] ==> Holds(env, past, k);
      forall m | m in Run(env, ops)[i] ensures Holds(env, ops, m) {
        match op
        case Add(n, now) => AddHolds(env, past, n, now, i, m);
        case Remove(id) =>
          RemovedMembers(env, Run(env, past), id, i, m);
          OldHolds(env, past, op, i, m);
      }
    }
  }

  lemma RemovedMembers(env: Env, b: Buckets, id: NodeId, i: nat, m: Node)
    requires i < KEY_BITS && m in RemoveFrom(env, b, id)[i]
    ensures m in b[i]
  {
    if Stored(env, b, id) && Place(env, id) == i {
      WithoutMembers(b[i], IndexOf(b[i], id), m);
    }
  }
}
