/** The routing table as the program keeps it: an array of optional buckets, changed in place. */
module Table {
  import opened Options
  import opened Keys
  import opened Routing
  import Shortlist
  import Sorting

  /** Entries with the most recently seen last. */
  class Bucket {
    var entries: seq<Node>

    constructor ()
      ensures entries == []
    {
      entries := [];
    }

    method Index(id: NodeId) returns (at: int)
      ensures at == IndexOf(entries, id)
    {
      for i := 0 to |entries|
        invariant forall j :: 0 <= j < i ==> entries[j].id != id
      {
        if entries[i].id == id {
          return i;
        }
      }
      return -1;
    }

    method MarkSeen(at: nat, now: real)
      requires at < |entries|
      modifies this
      ensures entries == MovedToTail(old(entries), at, now)
    {
      var n := Seen(entries[at], now);
      entries := entries[..at] + entries[at + 1..];
      entries := entries + [n];
    }

    method Push(n: Node)
      modifies this
      ensures entries == old(entries) + [n]
    {
      entries := entries + [n];
    }

    /** Refreshes a known node, stores a new one if there is room, or names the least recently seen entry. */
    method Offer(env: Env, n: Node, now: real) returns (candidate: Option<Node>)
      modifies this
      ensures var s := old(entries);
        if IndexOf(s, n.id) >= 0 || |s| < BUCKET_CAPACITY
        then entries == Touched(env, s, n, now) && candidate == None
        else entries == s && candidate == Some(s[0])
    {
      var at := Index(n.id);
      candidate := None;
      if at >= 0 {
        MarkSeen(at, now);
      } else if |entries| < BUCKET_CAPACITY {
        Push(Keyed(env, n));
      } else {
        candidate := Some(entries[0]);
      }
    }

    method Delete(id: NodeId) returns (existed: bool)
      modifies this
      ensures var at := IndexOf(old(entries), id);
        existed == (at >= 0) && entries == if at >= 0 then Without(old(entries), at) else old(entries)
    {
      var at := Index(id);
      if at < 0 {
        return false;
      }
      entries := entries[..at] + entries[at + 1..];
      return true;
    }
  }

  /** Sorting by distance from a target; `Keys.Less` on distance keys is this numeric comparison. */
  method SortByDistance(nodes: seq<Node>, target: Key) returns (sorted: seq<Node>)
    ensures multiset(sorted) == multiset(nodes)
    ensures forall i, j :: 0 <= i < j < |sorted| ==> Dist(target, sorted[i].key) <= Dist(target, sorted[j].key)
  {
    var le := (x: Node, y: Node) => Dist(target, x.key) <= Dist(target, y.key);
    sorted := Sorting.Sort(nodes, le);
    assert forall i, j :: 0 <= i < j < |sorted| ==> le(sorted[i], sorted[j]);
  }

  /** Sorts the whole listing and cuts it. */
  method NearestOf(cands: seq<Node>, target: Key, n: nat, ghost env: Env, ghost b: Buckets) returns (out: seq<Node>)
    requires WellFormed(env, b) && cands == Listing(b)
    ensures forall x :: x in out ==> x in Listing(b)
    ensures Shortlist.Nearest(Ids(out), IdSet(b), n, DistanceFrom(env, target))
  {
    var sorted := SortByDistance(cands, target);
    SortedTableIsNearest(env, b, sorted, target);
    CutNearest(sorted, IdSet(b), |sorted|, n, DistanceFrom(env, target));
    out := if |sorted| > n then sorted[..n] else sorted;
    assert forall x :: x in out ==> x in sorted;
  }

  datatype AddError = NoError | NilNode | SelfNode

  class RoutingTable {
    const env: Env
    const buckets: array<Bucket?>

    /** The table's contents, bucket by bucket. */
    ghost var view: Buckets

    ghost function Objects(): set<Bucket>
      reads buckets
    {
      set i | 0 <= i < buckets.Length && buckets[i] != null :: buckets[i]
    }

    /** Buckets are separate objects and hold what the view says. */
    ghost predicate Shows()
      reads this`view, buckets, Objects()`entries
    {
      && buckets.Length == KEY_BITS
      && (forall i, j :: 0 <= i < j < KEY_BITS && buckets[i] != null ==> buckets[i] != buckets[j])
      && (forall i :: 0 <= i < KEY_BITS ==> view[i] == if buckets[i] == null then [] else buckets[i].entries)
    }

    ghost predicate Valid()
      reads this`view, buckets, Objects()`entries
    {
      Shows() && WellFormed(env, view)
    }

    constructor (localId: NodeId, keyOf: NodeId -> Key)
      ensures Valid() && view == Empty() && fresh(buckets) && fresh(Objects())
      ensures env == Env(keyOf(localId), keyOf)
    {
      env := Env(keyOf(localId), keyOf);
      buckets := new Bucket?[KEY_BITS](_ => null);
      view := Empty();
      new;
      RunIsWellFormed(env, []);
    }

    /** The bucket of a key, or none for the local key. */
    method BucketFor(k: Key) returns (at: Option<nat>)
      ensures at == if k == env.self then None else Some(PrefixLen(env.self, k))
      ensures at.Some? ==> at.value < KEY_BITS
    {
      var shared := CommonPrefixLen(env.self, k);
      FullPrefixIsSelf(env.self, k);
      at := if shared >= KEY_BITS then None else Some(shared);
    }

    /** A node is known exactly when it is stored or carries the local key. */
    method Has(id: NodeId) returns (k: Key, known: bool)
      requires Valid()
      ensures k == env.keyOf(id)
      ensures known <==> k == env.self || id in IdSet(view)
    {
      k := env.keyOf(id);
      var at := BucketFor(k);
      StoredIffInSet(env, view, id);
      FullPrefixIsSelf(env.self, k);
      if at.None? {
        return k, true;
      }
      var b := buckets[at.value];
      if b == null {
        return k, false;
      }
      var i := b.Index(id);
      return k, i >= 0;
    }

    /** Stores or refreshes a node; a full bucket offers its head and keeps every entry. */
    method Add(node: Option<Node>, now: real) returns (candidate: Option<Node>, err: AddError)
      requires Valid()
      modifies this`view, buckets, Objects()
      ensures Valid() && fresh(Objects() - old(Objects()))
      ensures view == if node.None? then old(view) else AddTo(env, old(view), node.value, now)
      ensures err == if node.None? then NilNode else if env.keyOf(node.value.id) == env.self then SelfNode else NoError
      ensures candidate == if node.None? then None else Offered(env, old(view), node.value.id)
    {
      if node.None? {
        return None, NilNode;
      }
      var n := node.value;
      var k := env.keyOf(n.id);
      var at := BucketFor(k);
      LocalKeyHasNoPlace(env, view, n.id);
      if at.None? {
        return None, SelfNode;
      }
      var b := BucketAt(at.value);
      candidate := OfferTo(b, n, now);
      err := NoError;
    }

    /** The bucket at a place, created when first used. */
    method BucketAt(i: nat) returns (b: Bucket)
      requires Valid() && i < KEY_BITS
      modifies buckets
      ensures Valid() && view == old(view) && buckets[i] == b
      ensures fresh(Objects() - old(Objects()))
    {
      if buckets[i] == null {
        buckets[i] := new Bucket();
      }
      b := buckets[i];
    }

    method OfferTo(b: Bucket, n: Node, now: real) returns (candidate: Option<Node>)
      requires Valid() && Place(env, n.id) < KEY_BITS && buckets[Place(env, n.id)] == b
      modifies this`view, b
      ensures Valid() && view == AddTo(env, old(view), n, now)
      ensures candidate == Offered(env, old(view), n.id)
    {
      ghost var before, i := view, Place(env, n.id);
      ghost var accepted := Accepts(env, before, n.id);
      candidate := b.Offer(env, n, now);
      assert b.entries == if accepted then Touched(env, before[i], n, now) else before[i];
      view := before[i := b.entries];
      assert Shows();
      assert view == AddTo(env, before, n, now);
      ApplyKeeps(env, before, Routing.Add(n, now));
    }

    method Remove(id: NodeId) returns (existed: bool)
      requires Valid()
      modifies this`view, Objects()
      ensures Valid() && view == RemoveFrom(env, old(view), id)
      ensures existed <==> id in IdSet(old(view))
    {
      var k := env.keyOf(id);
      var at := BucketFor(k);
      LocalKeyHasNoPlace(env, view, id);
      StoredIffInSet(env, view, id);
      if at.None? {
        return false;
      }
      var b := buckets[at.value];
      if b == null {
        return false;
      }
      existed := DeleteFrom(b, id);
    }

    method DeleteFrom(b: Bucket, id: NodeId) returns (existed: bool)
      requires Valid() && Place(env, id) < KEY_BITS && buckets[Place(env, id)] == b
      modifies this`view, b
      ensures Valid() && view == RemoveFrom(env, old(view), id)
      ensures existed == Stored(env, old(view), id)
    {
      ghost var before, i := view, Place(env, id);
      existed := b.Delete(id);
      view := before[i := b.entries];
      assert Shows();
      assert view == RemoveFrom(env, before, id);
      ApplyKeeps(env, before, Routing.Remove(id));
    }

    /** A flat snapshot, bucket after bucket. */
    method Peers() returns (out: seq<Node>)
      requires Valid()
      ensures out == Listing(view)
    {
      out := [];
      for i := 0 to KEY_BITS
        invariant out == Flat(view, i)
      {
        if buckets[i] != null {
          out := out + buckets[i].entries;
        }
      }
    }

    method Size() returns (total: nat)
      requires Valid()
      ensures total == |IdSet(view)|
    {
      total := 0;
      for i := 0 to KEY_BITS
        invariant total == |Flat(view, i)|
      {
        if buckets[i] != null {
          total := total + |buckets[i].entries|;
        }
      }
      ListingCount(env, view);
    }

    /** The stored nodes nearest to a target, nearest first: the flat peer set sorted by distance and cut at `n`. */
    method Nearest(target: Key, n: nat) returns (out: seq<Node>)
      requires Valid()
      ensures forall x :: x in out ==> x in Listing(view)
      ensures Shortlist.Nearest(Ids(out), IdSet(view), n, DistanceFrom(env, target))
    {
      var cands := Peers();
      out := NearestOf(cands, target, n, env, view);
    }

    /** Up to `c` next hops toward a target: the nearest nodes, never more than 20. */
    method MultiPathCandidates(target: Key, c: nat) returns (out: seq<Node>)
      requires Valid()
      ensures forall x :: x in out ==> x in Listing(view)
      ensures Shortlist.Nearest(Ids(out), IdSet(view), Shortlist.Min(c, 20), DistanceFrom(env, target))
    {
      var all := Nearest(target, BUCKET_CAPACITY);
      if |all| <= c {
        CutNearest(all, IdSet(view), BUCKET_CAPACITY, Shortlist.Min(c, BUCKET_CAPACITY), DistanceFrom(env, target));
        return all;
      }
      CutNearest(all, IdSet(view), BUCKET_CAPACITY, c, DistanceFrom(env, target));
      return all[..c];
    }
  }
}
