/** Domain names on the wire: the name codec of internal/dns/msg.go (section 4.1.4 of RFC 1035). */
module DnsName {
  import opened Options
  import opened Bytes
  import Shortlist

  type Text = seq<Byte>
  type Packet = seq<Byte>

  const DOT: Byte := 46

  // --- dotted names --------------------------------------------------------

  function Join(labels: seq<Text>): Text {
    if labels == [] then []
    else if |labels| == 1 then labels[0]
    else labels[0] + [DOT] + Join(labels[1..])
  }

  function Split(name: Text): (parts: seq<Text>)
    ensures |parts| > 0
  {
    if name == [] then [[]] else Attach(name[0], Split(name[1..]))
  }

  /** One more byte in front: a dot starts a new part. */
  function Attach(b: Byte, parts: seq<Text>): (r: seq<Text>)
    requires |parts| > 0
    ensures |r| > 0
  {
    if b == DOT then [[]] + parts else [[b] + parts[0]] + parts[1..]
  }

  lemma AttachConcat(b: Byte, p: seq<Text>, q: seq<Text>)
    requires |p| > 0
    ensures Attach(b, p + q) == Attach(b, p) + q
  {
    assert b != DOT ==> (p + q)[1..] == p[1..] + q && (p + q)[0] == p[0];
  }

  lemma {:induction false} SplitPlain(part: Text, rest: Text)
    requires DOT !in part
    ensures Split(part) == [part]
    ensures Split(part + [DOT] + rest) == [part] + Split(rest)
  {
    if part == [] {
      assert part + [DOT] + rest == [DOT] + rest;
    } else {
      SplitPlain(part[1..], rest);
      var all := part + [DOT] + rest;
      assert all[1..] == part[1..] + [DOT] + rest && all[0] == part[0];
      assert [part[0]] + part[1..] == part;
    }
  }

  /** Splitting undoes joining when no label holds a dot. */
  lemma {:induction false} SplitOfJoin(labels: seq<Text>)
    requires labels != [] && forall i :: 0 <= i < |labels| ==> DOT !in labels[i]
    ensures Split(Join(labels)) == labels
  {
    var first, rest := labels[0], labels[1..];
    SplitPlain(first, Join(rest));
    assert labels == [first] + rest;
    if rest == [] {
    } else {
      SplitOfJoin(rest);
    }
  }

  // --- encoding ------------------------------------------------------------

  /** Each label behind its length byte; a length over 255 loses its high bits. */
  function LabelBytes(labels: seq<Text>): Text {
    if labels == [] then []
    else LabelBytes(labels[..|labels| - 1]) + [|labels[|labels| - 1]| % 256] + labels[|labels| - 1]
  }

  function Encoded(name: Text): Text {
    if name == [] then [0] else LabelBytes(Split(name)) + [0]
  }

  method EncodeName(name: Text) returns (out: Text)
    ensures out == Encoded(name)
  {
    if name == [] {
      return [0];
    }
    out := [];
    var labels := Split(name);
    for i := 0 to |labels|
      invariant out == LabelBytes(labels[..i])
    {
      assert labels[..i + 1][..i] == labels[..i];
      out := out + [|labels[i]| % 256];
      out := out + labels[i];
    }
    assert labels[..|labels|] == labels;
    out := out + [0];
  }

  lemma {:induction false} LabelBytesFirst(labels: seq<Text>)
    requires labels != []
    ensures LabelBytes(labels) == [|labels[0]| % 256] + labels[0] + LabelBytes(labels[1..])
  {
    if |labels| > 1 {
      var front := labels[..|labels| - 1];
      LabelBytesFirst(front);
      assert front[1..] == labels[1..][..|labels| - 2];
    }
  }

  /** The encoding read from the front. */
  function Wire(labels: seq<Text>): Text {
    if labels == [] then [0] else [|labels[0]| % 256] + (labels[0] + Wire(labels[1..]))
  }

  function WireSize(labels: seq<Text>): nat {
    if labels == [] then 1 else 1 + |labels[0]| + WireSize(labels[1..])
  }

  lemma {:induction false} WireLength(labels: seq<Text>)
    ensures |Wire(labels)| == WireSize(labels)
  {
    if labels == [] {
    } else {
      WireLength(labels[1..]);
    }
  }

  lemma {:induction false} WireOfLabels(labels: seq<Text>)
    ensures LabelBytes(labels) + [0] == Wire(labels)
  {
    if labels == [] {
    } else {
      var size, first, rest: Text := [|labels[0]| % 256], labels[0], LabelBytes(labels[1..]);
      LabelBytesFirst(labels);
      WireOfLabels(labels[1..]);
      assert (size + first + rest) + [0] == size + (first + (rest + [0]));
    }
  }

  // --- decoding ------------------------------------------------------------

  datatype NameError = PastEnd | TruncatedPointer | UnsupportedLabel | LabelPastEnd

  /** A name segment: labels up to the terminator, or up to a pointer, or a malformed one. */
  datatype Segment =
    | Complete(labels: seq<Text>, next: nat)
    | Jump(labels: seq<Text>, target: nat, next: nat)
    | Broken(error: NameError)

  function Prepend(part: Text, s: Segment): Segment {
    match s
    case Complete(labels, next) => Complete([part] + labels, next)
    case Jump(labels, target, next) => Jump([part] + labels, target, next)
    case Broken(_) => s
  }

  /** The segment at an offset. Length bytes from 192 on are pointers, the other ones from 64 on are unsupported. */
  function SegmentAt(pkt: Packet, off: nat): Segment
    decreases |pkt| - off
  {
    if off >= |pkt| then Broken(PastEnd)
    else
      var l := pkt[off];
      if l == 0 then Complete([], off + 1)
      else if l >= 192 then
        if off + 1 >= |pkt| then Broken(TruncatedPointer)
        else Jump([], Get16(pkt, off) % 0x4000, off + 2)
      else if l >= 64 then Broken(UnsupportedLabel)
      else if off + 1 + l > |pkt| then Broken(LabelPastEnd)
      else Prepend(pkt[off + 1..off + 1 + l], SegmentAt(pkt, off + 1 + l))
  }

  datatype Name = Name(text: Text, next: nat)

  /** Decoding with at most `fuel` segments; nothing if that is not enough. */
  function Decode(pkt: Packet, off: nat, fuel: nat): Option<Result<Name, NameError>>
    decreases fuel
  {
    if fuel == 0 then None
    else
      match SegmentAt(pkt, off)
      case Broken(e) => Some(Err(e))
      case Complete(labels, next) => Some(Ok(Name(Join(labels), next)))
      case Jump(labels, target, next) =>
        match Decode(pkt, target, fuel - 1)
        case None => None
        case Some(Err(e)) => Some(Err(e))
        case Some(Ok(tail)) => Some(Ok(Name(Join(labels + [tail.text]), next)))
  }

  /** The decoder comes to an end. */
  ghost predicate Terminates(pkt: Packet, off: nat) {
    exists fuel :: Decode(pkt, off, fuel).Some?
  }

  lemma {:induction false} MoreFuel(pkt: Packet, off: nat, fuel: nat, more: nat)
    requires fuel <= more && Decode(pkt, off, fuel).Some?
    ensures Decode(pkt, off, more) == Decode(pkt, off, fuel)
    decreases fuel
  {
    var s := SegmentAt(pkt, off);
    if s.Jump? {
      MoreFuel(pkt, s.target, fuel - 1, more - 1);
    }
  }

  function PrependAll(labels: seq<Text>, s: Segment): Segment {
    match s
    case Complete(rest, next) => Complete(labels + rest, next)
    case Jump(rest, target, next) => Jump(labels + rest, target, next)
    case Broken(_) => s
  }

  lemma PrependOne(labels: seq<Text>, part: Text, s: Segment)
    ensures PrependAll(labels, Prepend(part, s)) == PrependAll(labels + [part], s)
  {
    if !s.Broken? {
      assert labels + ([part] + s.labels) == labels + [part] + s.labels;
    }
  }

  /** The decoder as a loop over labels that calls itself at a pointer. */
  method DecodeWithin(pkt: Packet, start: nat, ghost fuel: nat) returns (r: Result<Name, NameError>)
    requires Decode(pkt, start, fuel).Some?
    ensures Decode(pkt, start, fuel) == Some(r)
    decreases fuel, 1
  {
    var labels: seq<Text>, off := [], start;
    while true
      invariant PrependAll(labels, SegmentAt(pkt, off)) == SegmentAt(pkt, start)
      decreases |pkt| - off
    {
      if off >= |pkt| {
        return Err(PastEnd);
      }
      var l := pkt[off];
      if l == 0 {
        assert labels + [] == labels;
        return Ok(Name(Join(labels), off + 1));
      }
      if l >= 192 {
        if off + 1 >= |pkt| {
          return Err(TruncatedPointer);
        }
        assert labels + [] == labels;
        r := DecodeTail(pkt, start, labels, Get16(pkt, off) % 0x4000, off + 2, fuel);
        return;
      }
      if l >= 64 {
        return Err(UnsupportedLabel);
      }
      if off + 1 + l > |pkt| {
        return Err(LabelPastEnd);
      }
      PrependOne(labels, pkt[off + 1..off + 1 + l], SegmentAt(pkt, off + 1 + l));
      labels := labels + [pkt[off + 1..off + 1 + l]];
      off := off + 1 + l;
    }
  }

  /** The name that a pointer leads to becomes the last label. */
  method DecodeTail(pkt: Packet, ghost start: nat, labels: seq<Text>, target: nat, next: nat, ghost fuel: nat)
    returns (r: Result<Name, NameError>)
    requires Decode(pkt, start, fuel).Some? && SegmentAt(pkt, start) == Jump(labels, target, next)
    ensures Decode(pkt, start, fuel) == Some(r)
    decreases fuel, 0
  {
    var tail := DecodeWithin(pkt, target, fuel - 1);
    if tail.Err? {
      return tail;
    }
    return Ok(Name(Join(labels + [tail.value.text]), next));
  }

  // --- round trip ----------------------------------------------------------

  predicate Sized(labels: seq<Text>) {
    forall i :: 0 <= i < |labels| ==> 1 <= |labels[i]| <= 63
  }

  predicate Dotless(labels: seq<Text>) {
    forall i :: 0 <= i < |labels| ==> DOT !in labels[i]
  }

  predicate Proper(labels: seq<Text>) {
    Sized(labels) && Dotless(labels)
  }

  /** `part` lies in `pkt` at an offset. */
  predicate At(pkt: Packet, off: nat, part: Text) {
    off + |part| <= |pkt| && pkt[off..off + |part|] == part
  }

  lemma AtSplits(pkt: Packet, off: nat, a: Text, b: Text)
    requires At(pkt, off, a + b)
    ensures At(pkt, off, a) && At(pkt, off + |a|, b)
  {
    var whole := pkt[off..off + |a + b|];
    assert whole[..|a|] == a && whole[|a|..] == b;
  }

  lemma EncodedLabels(labels: seq<Text>)
    requires Proper(labels)
    ensures Encoded(Join(labels)) == Wire(labels)
  {
    WireOfLabels(labels);
    if labels != [] {
      SplitOfJoin(labels);
      assert |labels[0]| > 0;
    }
  }

  /** A label and its length byte lie at an offset. */
  predicate Carries(pkt: Packet, off: nat, part: Text) {
    At(pkt, off, [|part| % 256]) && At(pkt, off + 1, part)
  }

  /** Where a packet holds a label, and where a terminator. */
  datatype Layout = Layout(part: (nat, Text) -> bool, end: nat -> bool)

  function LayoutOf(pkt: Packet): Layout {
    Layout((i: nat, part: Text) => Carries(pkt, i, part), (i: nat) => At(pkt, i, [0]))
  }

  /** The labels lie one by one, up to a terminator. */
  predicate Laid(l: Layout, off: nat, labels: seq<Text>)
    decreases |labels|
  {
    if labels == [] then l.end(off)
    else l.part(off, labels[0]) && Laid(l, off + 1 + |labels[0]|, labels[1..])
  }

  lemma {:induction false} WireIsLaid(pkt: Packet, l: Layout, off: nat, labels: seq<Text>)
    requires l == LayoutOf(pkt) && At(pkt, off, Wire(labels))
    ensures Laid(l, off, labels)
    decreases |labels|
  {
    if labels == [] {
    } else {
      var first, rest := labels[0], Wire(labels[1..]);
      AtSplits(pkt, off, [|first| % 256], first + rest);
      AtSplits(pkt, off + 1, first, rest);
      assert l.part(off, first);
      WireIsLaid(pkt, l, off + 1 + |first|, labels[1..]);
    }
  }

  lemma FirstByte(pkt: Packet, off: nat, b: Byte)
    requires At(pkt, off, [b])
    ensures off < |pkt| && pkt[off] == b
  {
    assert pkt[off] == pkt[off..off + 1][0];
  }

  /** What a reading of segments does at a label and at the terminator. */
  ghost predicate Reads(seg: nat -> Segment, l: Layout) {
    && (forall i: nat, part: Text :: l.part(i, part) && 1 <= |part| <= 63 ==>
          seg(i) == Prepend(part, seg(i + 1 + |part|)))
    && (forall i: nat :: l.end(i) ==> seg(i) == Complete([], i + 1))
  }

  lemma SegmentsRead(pkt: Packet)
    ensures Reads((i: nat) => SegmentAt(pkt, i), LayoutOf(pkt))
  {
    forall i: nat, part: Text | Carries(pkt, i, part) && 1 <= |part| <= 63
      ensures SegmentAt(pkt, i) == Prepend(part, SegmentAt(pkt, i + 1 + |part|))
    {
      FirstByte(pkt, i, |part| % 256);
    }
    forall i: nat | At(pkt, i, [0]) ensures SegmentAt(pkt, i) == Complete([], i + 1) {
      FirstByte(pkt, i, 0);
    }
  }

  lemma {:induction false} LaidIsRead(seg: nat -> Segment, l: Layout, off: nat, labels: seq<Text>)
    requires Reads(seg, l) && Sized(labels) && Laid(l, off, labels)
    ensures seg(off) == Complete(labels, off + WireSize(labels))
    decreases |labels|
  {
    if labels == [] {
    } else {
      var first, rest := labels[0], labels[1..];
      LaidIsRead(seg, l, off + 1 + |first|, rest);
      assert [first] + rest == labels;
    }
  }

  /** The segments of a packet and its layout, at a place where labels were written. */
  lemma ReadingOf(pkt: Packet, off: nat, labels: seq<Text>) returns (seg: nat -> Segment, l: Layout)
    requires At(pkt, off, Wire(labels))
    ensures Reads(seg, l) && Laid(l, off, labels) && seg(off) == SegmentAt(pkt, off)
    ensures forall i: nat :: l.part(i, []) ==> l.end(i)
  {
    seg, l := (i: nat) => SegmentAt(pkt, i), LayoutOf(pkt);
    SegmentsRead(pkt);
    WireIsLaid(pkt, l, off, labels);
  }

  /** Written labels are read back as one complete segment, wherever they lie in a packet. */
  lemma SegmentOfLabels(pkt: Packet, off: nat, labels: seq<Text>)
    requires Sized(labels) && At(pkt, off, Wire(labels))
    ensures SegmentAt(pkt, off) == Complete(labels, off + |Wire(labels)|)
  {
    var seg, l := ReadingOf(pkt, off, labels);
    LaidIsRead(seg, l, off, labels);
    WireLength(labels);
  }

  lemma DecodeOfWire(pkt: Packet, off: nat, labels: seq<Text>, fuel: nat)
    requires Sized(labels) && fuel > 0 && At(pkt, off, Wire(labels))
    ensures Decode(pkt, off, fuel) == Some(Ok(Name(Join(labels), off + |Wire(labels)|)))
  {
    SegmentOfLabels(pkt, off, labels);
  }

  /** Decoding inverts encoding for labels of 1 to 63 bytes without dots. */
  lemma DecodeOfEncoded(pkt: Packet, off: nat, labels: seq<Text>, name: Text, fuel: nat)
    requires Proper(labels) && name == Join(labels) && fuel > 0 && At(pkt, off, Encoded(name))
    ensures Decode(pkt, off, fuel) == Some(Ok(Name(name, off + |Encoded(name)|)))
  {
    EncodedLabels(labels);
    DecodeOfWire(pkt, off, labels, fuel);
  }

  // --- compression ---------------------------------------------------------

  /** Section 4.1.4 of RFC 1035: two one bits, then the offset in fourteen bits. */
  function Pointer(target: nat): Text
    requires target < 0x4000
  {
    [0xC0 + target / 256, target % 256]
  }

  /** The labels lie one by one, up to a place. */
  predicate Runs(part: (nat, Text) -> bool, off: nat, labels: seq<Text>, to: nat)
    decreases |labels|
  {
    if labels == [] then off == to
    else part(off, labels[0]) && Runs(part, off + 1 + |labels[0]|, labels[1..], to)
  }

  /** Wherever a label was written. */
  ghost predicate Marks(part: (nat, Text) -> bool, pkt: Packet) {
    forall i: nat, p: Text :: At(pkt, i, [|p| % 256] + p) ==> part(i, p)
  }

  lemma {:induction false} LabelsRun(pkt: Packet, part: (nat, Text) -> bool, off: nat, labels: seq<Text>)
    requires Marks(part, pkt) && At(pkt, off, LabelBytes(labels))
    ensures Runs(part, off, labels, off + |LabelBytes(labels)|)
    decreases |labels|
  {
    if labels == [] {
    } else {
      var first, rest := labels[0], LabelBytes(labels[1..]);
      LabelBytesFirst(labels);
      AtSplits(pkt, off, [|first| % 256] + first, rest);
      LabelsRun(pkt, part, off + 1 + |first|, labels[1..]);
    }
  }

  lemma PrependRun(first: Text, rest: seq<Text>, s: Segment)
    ensures Prepend(first, PrependAll(rest, s)) == PrependAll([first] + rest, s)
    ensures PrependAll([], s) == s
  {
    if !s.Broken? {
      assert [first] + (rest + s.labels) == ([first] + rest) + s.labels && [] + s.labels == s.labels;
    }
  }

  /** What a reading of segments does at a label. */
  ghost predicate Follows(seg: nat -> Segment, part: (nat, Text) -> bool) {
    forall i: nat, p: Text :: part(i, p) && 1 <= |p| <= 63 ==> seg(i) == Prepend(p, seg(i + 1 + |p|))
  }

  lemma {:induction false} RunIsRead(seg: nat -> Segment, part: (nat, Text) -> bool, off: nat, labels: seq<Text>, to: nat)
    requires Follows(seg, part) && Sized(labels) && Runs(part, off, labels, to)
    ensures seg(off) == PrependAll(labels, seg(to))
    decreases |labels|
  {
    if labels == [] {
      PrependRun([], [], seg(to));
    } else {
      var first, rest := labels[0], labels[1..];
      RunIsRead(seg, part, off + 1 + |first|, rest, to);
      PrependRun(first, rest, seg(to));
      assert [first] + rest == labels;
    }
  }

  lemma LabelSegment(pkt: Packet, off: nat, p: Text)
    requires 1 <= |p| <= 63 && At(pkt, off, [|p| % 256] + p)
    ensures SegmentAt(pkt, off) == Prepend(p, SegmentAt(pkt, off + 1 + |p|))
  {
    AtSplits(pkt, off, [|p| % 256], p);
    FirstByte(pkt, off, |p| % 256);
  }

  function SegmentsOf(pkt: Packet): nat -> Segment {
    (i: nat) => SegmentAt(pkt, i)
  }

  function LabelsIn(pkt: Packet): (nat, Text) -> bool {
    (i: nat, p: Text) => At(pkt, i, [|p| % 256] + p)
  }

  lemma SegmentsFollow(pkt: Packet)
    ensures Follows(SegmentsOf(pkt), LabelsIn(pkt))
  {
    forall i: nat, p: Text | LabelsIn(pkt)(i, p) && 1 <= |p| <= 63
      ensures SegmentsOf(pkt)(i) == Prepend(p, SegmentsOf(pkt)(i + 1 + |p|))
    {
      LabelSegment(pkt, i, p);
    }
  }

  lemma LabelsRunIn(pkt: Packet, off: nat, labels: seq<Text>)
    requires At(pkt, off, LabelBytes(labels))
    ensures Runs(LabelsIn(pkt), off, labels, off + |LabelBytes(labels)|)
  {
    LabelsRun(pkt, LabelsIn(pkt), off, labels);
  }

  lemma SegmentOfRun(pkt: Packet, off: nat, labels: seq<Text>, to: nat)
    requires Sized(labels) && Runs(LabelsIn(pkt), off, labels, to)
    ensures SegmentAt(pkt, off) == PrependAll(labels, SegmentAt(pkt, to))
  {
    SegmentsFollow(pkt);
    RunIsRead(SegmentsOf(pkt), LabelsIn(pkt), off, labels, to);
  }

  lemma {:induction false} JoinTail(labels: seq<Text>, rest: seq<Text>)
    requires rest != []
    ensures Join(labels + [Join(rest)]) == Join(labels + rest)
  {
    if labels == [] {
      assert labels + rest == rest && labels + [Join(rest)] == [Join(rest)];
    } else {
      JoinTail(labels[1..], rest);
      assert (labels + rest)[1..] == labels[1..] + rest;
      assert (labels + [Join(rest)])[1..] == labels[1..] + [Join(rest)];
    }
  }

  /** What a length byte means; a pointer's target is its low fourteen bits. */
  lemma SegmentKinds(pkt: Packet, off: nat, s: Segment)
    requires s == SegmentAt(pkt, off)
    ensures off >= |pkt| ==> s == Broken(PastEnd)
    ensures off < |pkt| && pkt[off] == 0 ==> s == Complete([], off + 1)
    ensures off < |pkt| && 64 <= pkt[off] < 192 ==> s == Broken(UnsupportedLabel)
    ensures off < |pkt| && 1 <= pkt[off] < 64 && |pkt[off..]| < 1 + pkt[off] ==> s == Broken(LabelPastEnd)
    ensures off + 1 == |pkt| && pkt[off] >= 192 ==> s == Broken(TruncatedPointer)
    ensures forall target: nat :: target < 0x4000 && At(pkt, off, Pointer(target)) ==> s == Jump([], target, off + 2)
  {
    forall target: nat | target < 0x4000 && At(pkt, off, Pointer(target)) ensures s == Jump([], target, off + 2) {
      PointerSegment(pkt, off, target);
    }
  }

  lemma PointerSegment(pkt: Packet, off: nat, target: nat)
    requires target < 0x4000 && At(pkt, off, Pointer(target))
    ensures SegmentAt(pkt, off) == Jump([], target, off + 2)
  {
    var p := pkt[off..off + 2];
    assert p[0] == pkt[off] && p[1] == pkt[off + 1];
  }

  lemma CompressedSegment(pkt: Packet, off: nat, labels: seq<Text>, target: nat, to: nat)
    requires Sized(labels) && target < 0x4000 && to == off + |LabelBytes(labels)|
    requires At(pkt, off, LabelBytes(labels) + Pointer(target))
    ensures SegmentAt(pkt, off) == Jump(labels, target, to + 2)
  {
    AtSplits(pkt, off, LabelBytes(labels), Pointer(target));
    PointerSegment(pkt, to, target);
    LabelsRunIn(pkt, off, labels);
    SegmentOfRun(pkt, off, labels, to);
    assert labels + [] == labels;
  }

  lemma DecodeOfJump(pkt: Packet, off: nat, labels: seq<Text>, target: nat, name: Name, tail: Name, fuel: nat)
    requires SegmentAt(pkt, off) == Jump(labels, target, name.next) && Decode(pkt, target, fuel) == Some(Ok(tail))
    requires name.text == Join(labels + [tail.text])
    ensures Decode(pkt, off, fuel + 1) == Some(Ok(name))
  {
  }

  /** Labels before a pointer to where the rest of the name can be read, itself compressed or not, are the whole name. */
  lemma CompressedName(pkt: Packet, off: nat, labels: seq<Text>, target: nat, rest: seq<Text>, name: Name, tail: Name,
                       fuel: nat)
    requires Sized(labels) && target < 0x4000 && At(pkt, off, LabelBytes(labels) + Pointer(target))
    requires Decode(pkt, target, fuel) == Some(Ok(tail)) && tail.text == Join(rest) && rest != []
    requires name == Name(Join(labels + rest), off + |LabelBytes(labels)| + 2)
    ensures Decode(pkt, off, fuel + 1) == Some(Ok(name))
  {
    CompressedSegment(pkt, off, labels, target, off + |LabelBytes(labels)|);
    JoinTail(labels, rest);
    DecodeOfJump(pkt, off, labels, target, name, tail, fuel);
  }

  // --- which names survive -------------------------------------------------

  lemma {:induction false} JoinOfSplit(name: Text)
    ensures Join(Split(name)) == name && Dotless(Split(name))
  {
    if name == [] {
    } else {
      var rest := Split(name[1..]);
      JoinOfSplit(name[1..]);
      if name[0] == DOT {
        assert ([[]] + rest)[1..] == rest;
      } else {
        var parts := [[name[0]] + rest[0]] + rest[1..];
        assert parts[1..] == rest[1..];
        assert [name[0]] + Join(rest) == name;
      }
    }
  }

  lemma {:induction false} SplitAtDot(a: Text, b: Text)
    ensures Split(a + [DOT] + b) == Split(a) + Split(b)
  {
    var all := a + [DOT] + b;
    if a == [] {
      assert all == [DOT] + b;
    } else {
      SplitAtDot(a[1..], b);
      assert all[1..] == a[1..] + [DOT] + b && all[0] == a[0];
      AttachConcat(a[0], Split(a[1..]), Split(b));
    }
  }

  /** No stretch between dots is longer than a label may be. */
  predicate Short(name: Text) {
    forall i :: 0 <= i < |Split(name)| ==> |Split(name)[i]| <= 63
  }

  lemma {:induction false} PartsFit(name: Text)
    ensures forall i :: 0 <= i < |Split(name)| ==> |Split(name)[i]| <= |name|
  {
    if name == [] {
    } else {
      PartsFit(name[1..]);
    }
  }

  lemma {:induction false} JoinIsShort(labels: seq<Text>)
    requires forall i :: 0 <= i < |labels| ==> Short(labels[i])
    ensures Short(Join(labels))
  {
    if |labels| <= 1 {
    } else {
      JoinIsShort(labels[1..]);
      SplitAtDot(labels[0], Join(labels[1..]));
    }
  }

  lemma {:induction false} SegmentLabelsFit(pkt: Packet, off: nat)
    ensures var s := SegmentAt(pkt, off);
      !s.Broken? ==> forall i :: 0 <= i < |s.labels| ==> |s.labels[i]| <= 63
    decreases |pkt| - off
  {
    if off < |pkt| && 0 < pkt[off] < 64 && off + 1 + pkt[off] <= |pkt| {
      SegmentLabelsFit(pkt, off + 1 + pkt[off]);
    }
  }

  lemma FittingLabelsAreShort(labels: seq<Text>)
    requires forall i :: 0 <= i < |labels| ==> |labels[i]| <= 63
    ensures forall i :: 0 <= i < |labels| ==> Short(labels[i])
  {
    forall i | 0 <= i < |labels| ensures Short(labels[i]) {
      PartsFit(labels[i]);
    }
  }

  /** Every decoded name has at most 63 bytes between dots, whatever the packet. */
  lemma {:induction false} DecodedIsShort(pkt: Packet, off: nat, fuel: nat)
    ensures var d := Decode(pkt, off, fuel); d.Some? && d.value.Ok? ==> Short(d.value.value.text)
    decreases fuel
  {
    var s := SegmentAt(pkt, off);
    if fuel > 0 && !s.Broken? {
      SegmentLabelsFit(pkt, off);
      FittingLabelsAreShort(s.labels);
      if s.Complete? {
        JoinIsShort(s.labels);
      } else {
        DecodedIsShort(pkt, s.target, fuel - 1);
        var d := Decode(pkt, s.target, fuel - 1);
        if d.Some? && d.value.Ok? {
          JoinIsShort(s.labels + [d.value.value.text]);
        }
      }
    }
  }

  /** The names that can be written: empty, or of labels of 1 to 63 bytes. */
  predicate Printable(name: Text) {
    name == [] || Sized(Split(name))
  }

  function LabelsOf(name: Text): seq<Text> {
    if name == [] then [] else Split(name)
  }

  lemma PrintableIsProper(name: Text)
    requires Printable(name)
    ensures Proper(LabelsOf(name)) && Join(LabelsOf(name)) == name
  {
    JoinOfSplit(name);
  }

  lemma {:induction false} ReadUpToEmpty(seg: nat -> Segment, l: Layout, off: nat, labels: seq<Text>, k: nat)
    requires Reads(seg, l) && (forall i: nat :: l.part(i, []) ==> l.end(i)) && Laid(l, off, labels)
    requires k < |labels| && labels[k] == [] && Sized(labels[..k])
    ensures seg(off).Complete? && seg(off).labels == labels[..k]
    decreases k
  {
    if k == 0 {
      assert l.part(off, []);
    } else {
      var first, rest := labels[0], labels[1..];
      assert labels[..k][0] == first;
      assert rest[..k - 1] == labels[..k][1..];
      ReadUpToEmpty(seg, l, off + 1 + |first|, rest, k - 1);
      assert [first] + rest[..k - 1] == labels[..k];
    }
  }

  lemma {:induction false} JoinGrows(labels: seq<Text>, k: nat)
    requires 1 <= k < |labels|
    ensures |Join(labels[..k])| < |Join(labels)|
    decreases k
  {
    if k == 1 {
      assert labels[..k] == [labels[0]];
    } else {
      JoinGrows(labels[1..], k - 1);
      assert labels[..k][1..] == labels[1..][..k - 1];
    }
  }

  lemma {:induction false} FirstEmpty(labels: seq<Text>) returns (k: nat)
    requires !Sized(labels) && forall i :: 0 <= i < |labels| ==> |labels[i]| <= 63
    ensures k < |labels| && labels[k] == [] && Sized(labels[..k])
  {
    if labels[0] == [] {
      k := 0;
    } else {
      var rest := labels[1..];
      assert Sized(rest) ==> Sized(labels) by {
        assert labels == [labels[0]] + rest;
      }
      var n := FirstEmpty(rest);
      assert labels[..n + 1] == [labels[0]] + rest[..n];
      k := n + 1;
    }
  }

  /** A name that is read back from its own encoding can be written. */
  lemma ReadBackIsPrintable(pkt: Packet, off: nat, name: Text, fuel: nat)
    requires fuel > 0 && At(pkt, off, Encoded(name))
    requires var d := Decode(pkt, off, fuel); d.Some? && d.value.Ok? && d.value.value.text == name
    ensures Printable(name)
  {
    var labels := Split(name);
    DecodedIsShort(pkt, off, fuel);
    if name != [] && !Sized(labels) {
      var k := FirstEmpty(labels);
      WireOfLabels(labels);
      ReadsUpTo(pkt, off, labels, k);
      JoinOfSplit(name);
      if k > 0 {
        JoinGrows(labels, k);
      }
      assert false;
    }
  }

  lemma ReadsUpTo(pkt: Packet, off: nat, labels: seq<Text>, k: nat)
    requires At(pkt, off, Wire(labels)) && k < |labels| && labels[k] == [] && Sized(labels[..k])
    ensures SegmentAt(pkt, off).Complete? && SegmentAt(pkt, off).labels == labels[..k]
  {
    var seg, l := ReadingOf(pkt, off, labels);
    ReadUpToEmpty(seg, l, off, labels, k);
  }

  // --- termination ---------------------------------------------------------

  /** Where the n-th segment of the name starts, if it has that many. */
  function Start(pkt: Packet, off: nat, n: nat): Option<nat>
    decreases n
  {
    if n == 0 then Some(off)
    else
      match SegmentAt(pkt, off)
      case Jump(_, target, _) => Start(pkt, target, n - 1)
      case _ => None
  }

  /** Following the pointers comes back to a segment already read. */
  ghost predicate Revisits(pkt: Packet, off: nat) {
    exists i: nat, j: nat :: i < j && Start(pkt, off, i).Some? && Start(pkt, off, i) == Start(pkt, off, j)
  }

  /** Every pointer leads before the start of the segment it ends. */
  predicate PointsBackward(pkt: Packet, off: nat)
    decreases off
  {
    var s := SegmentAt(pkt, off);
    s.Jump? ==> s.target < off && PointsBackward(pkt, s.target)
  }

  lemma {:induction false} EnoughFuel(pkt: Packet, off: nat, fuel: nat)
    ensures Decode(pkt, off, fuel).None? <==> Start(pkt, off, fuel).Some?
    decreases fuel
  {
    var s := SegmentAt(pkt, off);
    if fuel > 0 && s.Jump? {
      EnoughFuel(pkt, s.target, fuel - 1);
    }
  }

  lemma {:induction false} StartAgain(pkt: Packet, off: nat, i: nat, j: nat)
    requires Start(pkt, off, i).Some?
    ensures Start(pkt, off, i + j) == Start(pkt, Start(pkt, off, i).value, j)
    decreases i
  {
    if i == 0 {
    } else {
      StartAgain(pkt, SegmentAt(pkt, off).target, i - 1, j);
    }
  }

  lemma EarlierStart(pkt: Packet, off: nat, i: nat, j: nat)
    requires i <= j && Start(pkt, off, j).Some?
    ensures Start(pkt, off, i).Some?
    decreases i
  {
    if i > 0 {
      EarlierStart(pkt, SegmentAt(pkt, off).target, i - 1, j - 1);
    }
  }

  lemma {:induction false} CycleGoesOn(pkt: Packet, off: nat, period: nat, n: nat)
    requires period > 0 && Start(pkt, off, period) == Some(off)
    ensures Start(pkt, off, n).Some?
    decreases n
  {
    if n <= period {
      EarlierStart(pkt, off, n, period);
    } else {
      CycleGoesOn(pkt, off, period, n - period);
      StartAgain(pkt, off, period, n - period);
    }
  }

  lemma RevisitingGoesOn(pkt: Packet, off: nat, n: nat)
    requires Revisits(pkt, off)
    ensures Start(pkt, off, n).Some?
  {
    var i: nat, j: nat :| i < j && Start(pkt, off, i).Some? && Start(pkt, off, i) == Start(pkt, off, j);
    var x := Start(pkt, off, i).value;
    StartAgain(pkt, off, i, j - i);
    CycleGoesOn(pkt, x, j - i, n);
    StartAgain(pkt, off, i, n);
    EarlierStart(pkt, off, n, i + n);
  }

  lemma {:induction false} TargetIsShort(pkt: Packet, off: nat)
    ensures var s := SegmentAt(pkt, off); s.Jump? ==> s.target < 0x4000
    decreases |pkt| - off
  {
    if off < |pkt| && 0 < pkt[off] < 64 && off + 1 + pkt[off] <= |pkt| {
      TargetIsShort(pkt, off + 1 + pkt[off]);
    }
  }

  lemma {:induction false} StartIsShort(pkt: Packet, off: nat, n: nat)
    requires n > 0 && Start(pkt, off, n).Some?
    ensures Start(pkt, off, n).value < 0x4000
    decreases n
  {
    TargetIsShort(pkt, off);
    if n > 1 {
      StartIsShort(pkt, SegmentAt(pkt, off).target, n - 1);
    }
  }

  function Below(n: nat): (s: set<nat>)
    ensures forall k: nat :: k in s <==> k < n
  {
    if n == 0 then {} else Below(n - 1) + {n - 1}
  }

  lemma {:induction false} BelowCount(n: nat)
    ensures |Below(n)| == n
  {
    if n == 0 {
    } else {
      BelowCount(n - 1);
    }
  }

  /** More values than there are numbers below the bound: two of them agree. */
  lemma Pigeonhole(s: seq<nat>, bound: nat) returns (i: nat, j: nat)
    requires |s| > bound && forall k :: 0 <= k < |s| ==> s[k] < bound
    ensures i < j < |s| && s[i] == s[j]
  {
    if Shortlist.Distinct(s) {
      Shortlist.DistinctCount(s);
      BelowCount(bound);
      Shortlist.SubsetCount(Shortlist.Elements(s), Below(bound));
      assert false;
    }
    i, j :| 0 <= i < j < |s| && s[i] == s[j];
  }

  /** One more segment than a pointer can name offsets. */
  function SegmentLimit(): nat {
    0x4001
  }

  /** Following at most 16385 pointers leads to a segment without one. */
  predicate Ends(pkt: Packet, off: nat) {
    Start(pkt, off, SegmentLimit()).None?
  }

  lemma LongRevisits(pkt: Packet, off: nat)
    requires Start(pkt, off, SegmentLimit()).Some?
    ensures Revisits(pkt, off)
  {
    forall n: nat | n <= SegmentLimit() ensures Start(pkt, off, n).Some? {
      EarlierStart(pkt, off, n, SegmentLimit());
    }
    var s := seq(SegmentLimit(), k requires 0 <= k < SegmentLimit() => Start(pkt, off, k + 1).value);
    forall k | 0 <= k < |s| ensures s[k] < 0x4000 {
      StartIsShort(pkt, off, k + 1);
    }
    var i, j := Pigeonhole(s, 0x4000);
    assert Start(pkt, off, i + 1) == Start(pkt, off, j + 1);
  }

  /** The decoder ends on exactly the names whose pointers never come back to a segment already read. */
  lemma TerminatesExactly(pkt: Packet, off: nat)
    ensures Terminates(pkt, off) <==> !Revisits(pkt, off)
  {
    forall fuel: nat ensures Decode(pkt, off, fuel).None? <==> Start(pkt, off, fuel).Some? {
      EnoughFuel(pkt, off, fuel);
    }
    if Revisits(pkt, off) {
      forall fuel: nat ensures Start(pkt, off, fuel).Some? {
        RevisitingGoesOn(pkt, off, fuel);
      }
    }
    if !Terminates(pkt, off) {
      LongRevisits(pkt, off);
    }
  }

  /** Pointers that lead backward always let the decoder end. */
  lemma {:induction false} BackwardTerminates(pkt: Packet, off: nat)
    requires PointsBackward(pkt, off)
    ensures Decode(pkt, off, off + 1).Some? && Terminates(pkt, off)
    decreases off
  {
    var s := SegmentAt(pkt, off);
    if s.Jump? {
      BackwardTerminates(pkt, s.target);
      MoreFuel(pkt, s.target, s.target + 1, off);
    }
  }

  /** Whether the decoder ends shows within 16385 segments. */
  lemma EndsExactly(pkt: Packet, off: nat)
    ensures Terminates(pkt, off) <==> Ends(pkt, off)
    ensures Ends(pkt, off) <==> Decode(pkt, off, SegmentLimit()).Some?
  {
    EnoughFuel(pkt, off, SegmentLimit());
    if !Ends(pkt, off) {
      LongRevisits(pkt, off);
      TerminatesExactly(pkt, off);
    }
  }

  /** A segment that points at itself keeps the decoder from ending. */
  lemma SelfPointerNeverEnds(pkt: Packet, off: nat)
    requires SegmentAt(pkt, off).Jump? && SegmentAt(pkt, off).target == off
    ensures !Terminates(pkt, off) && !Ends(pkt, off)
  {
    assert Start(pkt, off, 0) == Start(pkt, off, 1) == Some(off);
    TerminatesExactly(pkt, off);
    EndsExactly(pkt, off);
  }

  /** The decoder on every name on which it ends. */
  method DecodeName(pkt: Packet, start: nat) returns (r: Result<Name, NameError>)
    requires Ends(pkt, start)
    ensures Decode(pkt, start, SegmentLimit()) == Some(r)
  {
    EndsExactly(pkt, start);
    r := DecodeWithin(pkt, start, SegmentLimit());
  }
}
