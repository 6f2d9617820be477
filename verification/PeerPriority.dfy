/** The order in which peers are tried: internal/holepunch/priority.go. */
module PeerPriority {
  import opened Sorting

  /** Join times are points on the time line; `info` stands for the fields that the order ignores. */
  datatype Peer = Peer(id: seq<nat>, room: seq<nat>, joined: int, info: seq<nat>)

  predicate SameRoom(p: Peer, room: seq<nat>) {
    room != [] && p.room == room
  }

  /** The byte order of strings. */
  predicate TextLess(a: seq<nat>, b: seq<nat>) {
    if b == [] then false
    else if a == [] then true
    else a[0] < b[0] || (a[0] == b[0] && TextLess(a[1..], b[1..]))
  }

  /** Same room first, then the earlier join, then the smaller identifier. */
  predicate Before(a: Peer, b: Peer, room: seq<nat>) {
    if SameRoom(a, room) != SameRoom(b, room) then SameRoom(a, room)
    else if a.joined != b.joined then a.joined < b.joined
    else TextLess(a.id, b.id)
  }

  function NotAfter(room: seq<nat>): (Peer, Peer) -> bool {
    (a: Peer, b: Peer) => !Before(b, a, room)
  }

  lemma {:induction false} TextOrder(a: seq<nat>, b: seq<nat>)
    ensures !(TextLess(a, b) && TextLess(b, a))
    ensures !TextLess(a, b) && !TextLess(b, a) ==> a == b
  {
    if a != [] && b != [] {
      TextOrder(a[1..], b[1..]);
      if a[0] == b[0] && a[1..] == b[1..] {
        assert a == [a[0]] + a[1..] == b;
      }
    }
  }

  lemma {:induction false} TextTransitive(a: seq<nat>, b: seq<nat>, c: seq<nat>)
    ensures !TextLess(b, a) && !TextLess(c, b) ==> !TextLess(c, a)
  {
    if a != [] && b != [] && c != [] {
      TextTransitive(a[1..], b[1..], c[1..]);
    }
  }

  lemma NotAfterCompares(room: seq<nat>)
    ensures Comparison(NotAfter(room))
  {
    var le := NotAfter(room);
    forall a, b ensures le(a, b) || le(b, a) {
      TextOrder(a.id, b.id);
    }
    forall a, b, c | le(a, b) && le(b, c) ensures le(a, c) {
      TextTransitive(a.id, b.id, c.id);
    }
  }

  /** The candidates in stable rank order. */
  ghost predicate Ranked(ordered: seq<Peer>, candidates: seq<Peer>, room: seq<nat>) {
    var le := NotAfter(room);
    && Sorted(ordered, le) && multiset(ordered) == multiset(candidates)
    && SameTies(ordered, candidates, le)
  }

  /** There is only one rank order of a candidate list. */
  lemma RankedUnique(a: seq<Peer>, b: seq<Peer>, candidates: seq<Peer>, room: seq<nat>)
    requires Ranked(a, candidates, room) && Ranked(b, candidates, room)
    ensures a == b
  {
    NotAfterCompares(room);
    StableUnique(a, b, NotAfter(room));
  }

  /** Byte by byte: a prefix, or smaller at the first byte that differs. */
  predicate Lexical(a: seq<nat>, b: seq<nat>) {
    a <= b || exists k :: 0 <= k < |a| && k < |b| && a[..k] == b[..k] && a[k] < b[k]
  }

  lemma {:induction false} TextIsLexical(a: seq<nat>, b: seq<nat>)
    requires !TextLess(b, a)
    ensures Lexical(a, b)
  {
    if a == [] {
    } else if a[0] < b[0] {
      assert a[..0] == b[..0];
    } else {
      TextIsLexical(a[1..], b[1..]);
      if !(a[1..] <= b[1..]) {
        var k :| 0 <= k < |a| - 1 && k < |b| - 1 && a[1..][..k] == b[1..][..k] && a[1..][k] < b[1..][k];
        assert a[..k + 1] == [a[0]] + a[1..][..k] && b[..k + 1] == [b[0]] + b[1..][..k];
        assert a[k + 1] < b[k + 1];
      }
    }
  }

  /**
   * Of two ranked peers the first is in our room if the second is; if the room does not tell them apart it joined
   * earlier, or at the same time with an identifier that is not greater.
   */
  lemma RankOrder(ordered: seq<Peer>, candidates: seq<Peer>, room: seq<nat>, i: nat, j: nat)
    requires Ranked(ordered, candidates, room) && i < j < |ordered|
    ensures var p, q := ordered[i], ordered[j];
            && (room != [] && q.room == room ==> p.room == room)
            && (room == [] || (p.room == room) == (q.room == room) ==>
                  p.joined < q.joined || (p.joined == q.joined && Lexical(p.id, q.id)))
  {
    var p, q := ordered[i], ordered[j];
    assert NotAfter(room)(p, q);
    if !TextLess(q.id, p.id) {
      TextIsLexical(p.id, q.id);
    }
  }

  // --- the two halves ------------------------------------------------------

  /** The peers of `s` in the room, or those outside it, in the order of `s`. */
  function Kept(s: seq<Peer>, room: seq<nat>, same: bool): seq<Peer> {
    if s == [] then []
    else
      var before, last := Kept(s[..|s| - 1], room, same), s[|s| - 1];
      if SameRoom(last, room) == same then before + [last] else before
  }

  lemma KeptSnoc(s: seq<Peer>, last: Peer, room: seq<nat>, same: bool)
    ensures Kept(s + [last], room, same) ==
            if SameRoom(last, room) == same then Kept(s, room, same) + [last] else Kept(s, room, same)
  {
    assert (s + [last])[..|s|] == s;
  }

  lemma {:induction false} KeptCount(s: seq<Peer>, room: seq<nat>, same: bool, p: Peer)
    ensures multiset(Kept(s, room, same))[p] == if SameRoom(p, room) == same then multiset(s)[p] else 0
  {
    if s == [] {
    } else {
      KeptCount(s[..|s| - 1], room, same, p);
      assert s == s[..|s| - 1] + [s[|s| - 1]];
    }
  }

  /** In rank order the whole same-room half comes first. */
  lemma {:induction false} RankedSplits(ordered: seq<Peer>, room: seq<nat>)
    requires Sorted(ordered, NotAfter(room))
    ensures ordered == Kept(ordered, room, true) + Kept(ordered, room, false)
  {
    if ordered == [] {
    } else {
      var front, last := ordered[..|ordered| - 1], ordered[|ordered| - 1];
      RankedSplits(front, room);
      if SameRoom(last, room) {
        forall i | 0 <= i < |front| ensures SameRoom(front[i], room) {
          assert NotAfter(room)(ordered[i], ordered[|ordered| - 1]);
        }
        AllKept(front, room);
      }
    }
  }

  lemma {:induction false} AllKept(s: seq<Peer>, room: seq<nat>)
    requires forall i :: 0 <= i < |s| ==> SameRoom(s[i], room)
    ensures Kept(s, room, true) == s && Kept(s, room, false) == []
  {
    if s == [] {
    } else {
      AllKept(s[..|s| - 1], room);
    }
  }

  method PartitionByRoom(candidates: seq<Peer>, room: seq<nat>) returns (same: seq<Peer>, other: seq<Peer>)
    ensures Ranked(same + other, candidates, room)
    ensures forall i :: 0 <= i < |same| ==> SameRoom(same[i], room)
    ensures forall i :: 0 <= i < |other| ==> !SameRoom(other[i], room)
  {
    var ordered := SelectPeers(candidates, room, 0);
    same, other := [], [];
    for i := 0 to |ordered|
      invariant same == Kept(ordered[..i], room, true) && other == Kept(ordered[..i], room, false)
      invariant forall j :: 0 <= j < |same| ==> SameRoom(same[j], room)
      invariant forall j :: 0 <= j < |other| ==> !SameRoom(other[j], room)
    {
      assert ordered[..i + 1][..i] == ordered[..i];
      if SameRoom(ordered[i], room) {
        same := same + [ordered[i]];
      } else {
        other := other + [ordered[i]];
      }
    }
    assert ordered[..|ordered|] == ordered;
    RankedSplits(ordered, room);
  }

  // --- the cap -------------------------------------------------------------

  function Cut(s: seq<Peer>, n: nat): seq<Peer> {
    if |s| <= n then s else s[..n]
  }

  /** All same-room peers, then the first `cap` others; no positive cap keeps everyone. */
  function Capped(ordered: seq<Peer>, room: seq<nat>, cap: int): seq<Peer> {
    if cap <= 0 then ordered else Kept(ordered, room, true) + Cut(Kept(ordered, room, false), cap)
  }

  ghost predicate Selection(r: seq<Peer>, candidates: seq<Peer>, room: seq<nat>, cap: int) {
    exists ordered :: Ranked(ordered, candidates, room) && r == Capped(ordered, room, cap)
  }

  method SelectPeers(candidates: seq<Peer>, room: seq<nat>, cap: int) returns (r: seq<Peer>)
    ensures Selection(r, candidates, room, cap)
    ensures cap <= 0 ==> Ranked(r, candidates, room)
  {
    NotAfterCompares(room);
    var ordered := StableSort(candidates, NotAfter(room));
    assert Ranked(ordered, candidates, room);
    if cap <= 0 {
      return ordered;
    }
    r := [];
    var outOfRoom := 0;
    for i := 0 to |ordered|
      invariant r == Capped(ordered[..i], room, cap)
      invariant outOfRoom == |Cut(Kept(ordered[..i], room, false), cap)|
    {
      assert ordered[..i + 1][..i] == ordered[..i];
      if !SameRoom(ordered[i], room) {
        if outOfRoom >= cap {
          continue;
        }
        outOfRoom := outOfRoom + 1;
      } else {
        SameRoomLeads(ordered, room, i);
      }
      r := r + [ordered[i]];
    }
    assert ordered[..|ordered|] == ordered;
  }

  lemma SameRoomLeads(ordered: seq<Peer>, room: seq<nat>, i: nat)
    requires Sorted(ordered, NotAfter(room)) && i < |ordered| && SameRoom(ordered[i], room)
    ensures Kept(ordered[..i], room, false) == []
  {
    forall j | 0 <= j < i ensures SameRoom(ordered[..i][j], room) {
      assert NotAfter(room)(ordered[j], ordered[i]);
    }
    AllKept(ordered[..i], room);
  }

  // --- what selection promises ---------------------------------------------

  lemma {:induction false} KeptHalves(same: seq<Peer>, other: seq<Peer>, room: seq<nat>)
    requires forall i :: 0 <= i < |same| ==> SameRoom(same[i], room)
    requires forall i :: 0 <= i < |other| ==> !SameRoom(other[i], room)
    ensures Kept(same + other, room, true) == same && Kept(same + other, room, false) == other
    decreases |other|
  {
    var all := same + other;
    if other == [] {
      AllKept(same, room);
      assert all == same;
    } else {
      var front, last := other[..|other| - 1], other[|other| - 1];
      KeptHalves(same, front, room);
      KeptSnoc(same + front, last, room, true);
      KeptSnoc(same + front, last, room, false);
      assert other == front + [last] && all == (same + front) + [last];
    }
  }

  /** A selection is the same-room half followed by the other half, cut at a positive cap. */
  lemma SelectionIsPartition(r: seq<Peer>, same: seq<Peer>, other: seq<Peer>, candidates: seq<Peer>, room: seq<nat>,
                             cap: int)
    requires Selection(r, candidates, room, cap) && Ranked(same + other, candidates, room)
    requires forall i :: 0 <= i < |same| ==> SameRoom(same[i], room)
    requires forall i :: 0 <= i < |other| ==> !SameRoom(other[i], room)
    ensures r == same + if cap <= 0 then other else Cut(other, cap)
  {
    var ordered :| Ranked(ordered, candidates, room) && r == Capped(ordered, room, cap);
    RankedUnique(ordered, same + other, candidates, room);
    KeptHalves(same, other, room);
  }

  /** Both halves hold exactly the candidates that belong to them, as often as they were given. */
  lemma HalvesAreComplete(same: seq<Peer>, other: seq<Peer>, candidates: seq<Peer>, room: seq<nat>)
    requires Ranked(same + other, candidates, room)
    requires forall i :: 0 <= i < |same| ==> SameRoom(same[i], room)
    requires forall i :: 0 <= i < |other| ==> !SameRoom(other[i], room)
    ensures forall p :: multiset(same)[p] == if SameRoom(p, room) then multiset(candidates)[p] else 0
    ensures forall p :: multiset(other)[p] == if SameRoom(p, room) then 0 else multiset(candidates)[p]
  {
    KeptHalves(same, other, room);
    forall p: Peer
      ensures multiset(same)[p] == if SameRoom(p, room) then multiset(candidates)[p] else 0
      ensures multiset(other)[p] == if SameRoom(p, room) then 0 else multiset(candidates)[p]
    {
      KeptCount(same + other, room, true, p);
      KeptCount(same + other, room, false, p);
    }
  }

  /** Identifiers tell the candidates apart. */
  predicate Identified(candidates: seq<Peer>) {
    forall i, j :: 0 <= i < j < |candidates| && candidates[i].id == candidates[j].id ==> candidates[i] == candidates[j]
  }

  lemma RankIgnoresOrder(a: seq<Peer>, b: seq<Peer>, first: seq<Peer>, second: seq<Peer>, room: seq<nat>)
    requires Identified(first) && multiset(first) == multiset(second)
    requires Ranked(a, first, room) && Ranked(b, second, room)
    ensures a == b
  {
    forall i, j | 0 <= i < j < |a| && NotAfter(room)(a[j], a[i]) ensures a[i] == a[j] {
      assert NotAfter(room)(a[i], a[j]);
      TextOrder(a[i].id, a[j].id);
      assert a[i] in multiset(first) && a[j] in multiset(first);
    }
    SortedUnique(a, b, NotAfter(room));
  }

  /** The selection does not depend on the order in which the candidates are given. */
  lemma SelectionIgnoresOrder(r: seq<Peer>, s: seq<Peer>, first: seq<Peer>, second: seq<Peer>, room: seq<nat>, cap: int)
    requires Identified(first) && multiset(first) == multiset(second)
    requires Selection(r, first, room, cap) && Selection(s, second, room, cap)
    ensures r == s
  {
    var a :| Ranked(a, first, room) && r == Capped(a, room, cap);
    var b :| Ranked(b, second, room) && s == Capped(b, room, cap);
    RankIgnoresOrder(a, b, first, second, room);
  }
}
