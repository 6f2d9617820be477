/** The tunnel's frame stream: what Read and Write of internal/tunnel/tunnel.go do to the bytes of a connection. */
module Frames {
  import opened Options
  import opened Bytes

  /** An authenticated cipher: nonce, text and additional data. */
  datatype Cipher = Cipher(
    seal: (seq<Byte>, seq<Byte>, seq<Byte>) -> seq<Byte>,
    open: (seq<Byte>, seq<Byte>, seq<Byte>) -> Option<seq<Byte>>,
    overhead: nat)

  /** Opening undoes sealing, and sealing lengthens by the overhead. */
  ghost predicate Sound(c: Cipher) {
    forall nonce, text, data ::
      && |c.seal(nonce, text, data)| == |text| + c.overhead
      && c.open(nonce, c.seal(nonce, text, data), data) == Some(text)
  }

  const COUNTER_LIMIT := 0x1_0000_0000_0000_0000
  const HEADER := 10

  /** The eight bytes of a header that hold the sequence number. */
  const COUNTER_FIELD: seq<Byte> := [0, 0, 0, 0, 0, 0, 0, 0]

  function CounterBytes(n: nat): seq<Byte> {
    Put(n, |COUNTER_FIELD|)
  }

  function Nonce(n: nat): seq<Byte> {
    CounterBytes(n) + [0, 0, 0, 0]
  }

  function Sealed(c: Cipher, n: nat, text: seq<Byte>): seq<Byte> {
    c.seal(Nonce(n), text, CounterBytes(n))
  }

  function Opened(c: Cipher, n: nat, bytes: seq<Byte>): Option<seq<Byte>> {
    c.open(Nonce(n), bytes, CounterBytes(n))
  }

  /** Sequence number, length modulo 65536, ciphertext. */
  function Frame(n: nat, bytes: seq<Byte>): seq<Byte> {
    CounterBytes(n) + Put16(|bytes|) + bytes
  }

  lemma CounterRoundTrip(n: nat)
    requires n < COUNTER_LIMIT
    ensures |CounterBytes(n)| == 8 && Word(CounterBytes(n)) == n
  {
    assert Pow256(8) == COUNTER_LIMIT;
    WordOfPut(n, |COUNTER_FIELD|);
  }

  lemma CounterBound(bytes: seq<Byte>)
    requires |bytes| == 8
    ensures Word(bytes) < COUNTER_LIMIT
  {
    assert Pow256(8) == COUNTER_LIMIT;
    PutOfWord(bytes);
  }

  // --- receiving -----------------------------------------------------------

  datatype Settings = Settings(cipher: Cipher, mtu: nat, size: nat)

  /** What a read works on: the highest number accepted and the bytes still to come on the connection. */
  datatype Receiver = Receiver(last: nat, inbox: seq<Byte>)

  datatype Outcome =
    | NoHeader | TooLong | Dropped | NoBody | Undecryptable
    | Packet(text: seq<Byte>)

  /** The window's answer: a new highest number, or one `size` or more behind. */
  predicate Allowed(last: nat, n: nat, size: nat) {
    n > last || last - n >= size
  }

  function Max(a: nat, b: nat): nat {
    if a < b then b else a
  }

  /** What is left of a stream after a read that wants `n` bytes. */
  function After(bytes: seq<Byte>, n: nat): seq<Byte> {
    if n <= |bytes| then bytes[n..] else []
  }

  function Next(cfg: Settings, r: Receiver): (Receiver, Outcome) {
    if |r.inbox| < HEADER then (Receiver(r.last, []), NoHeader)
    else
      var n, length, rest := Word(r.inbox[..8]), Get16(r.inbox, 8), r.inbox[HEADER..];
      if length > cfg.mtu + cfg.cipher.overhead then (Receiver(r.last, rest), TooLong)
      else if !Allowed(r.last, n, cfg.size) then (Receiver(r.last, After(rest, length)), Dropped)
      else
        var after := Receiver(Max(r.last, n), After(rest, length));
        if |rest| < length then (after, NoBody)
        else
          match Opened(cfg.cipher, n, rest[..length])
          case None => (after, Undecryptable)
          case Some(text) => (after, Packet(text))
  }

  /** The receiver after a number of reads. */
  function AfterReads(cfg: Settings, r: Receiver, n: nat): Receiver
    decreases n
  {
    if n == 0 then r else AfterReads(cfg, Next(cfg, r).0, n - 1)
  }

  /** What a number of reads return. */
  function Outcomes(cfg: Settings, r: Receiver, n: nat): seq<Outcome>
    decreases n
  {
    if n == 0 then [] else [Next(cfg, r).1] + Outcomes(cfg, Next(cfg, r).0, n - 1)
  }

  // --- intact frames -------------------------------------------------------

  datatype Sent = Sent(n: nat, text: seq<Byte>)

  /** A frame that the sender's limits admit. */
  predicate Fits(cfg: Settings, s: Sent) {
    s.n < COUNTER_LIMIT && |s.text| <= cfg.mtu
  }

  function FrameOf(c: Cipher, s: Sent): seq<Byte> {
    Frame(s.n, Sealed(c, s.n, s.text))
  }

  function Stream(c: Cipher, frames: seq<Sent>): seq<Byte> {
    if frames == [] then [] else FrameOf(c, frames[0]) + Stream(c, frames[1..])
  }

  /** The highest number accepted, or seen in `frames`. */
  function Highest(last: nat, frames: seq<Sent>): nat
    decreases |frames|
  {
    if frames == [] then last else Highest(Max(last, frames[0].n), frames[1..])
  }

  lemma HeaderOf(n: nat, bytes: seq<Byte>, rest: seq<Byte>)
    requires n < COUNTER_LIMIT && |bytes| < 65536
    ensures var inbox := Frame(n, bytes) + rest;
            && |inbox| >= HEADER && Word(inbox[..8]) == n && Get16(inbox, 8) == |bytes|
            && inbox[HEADER..] == bytes + rest
  {
    var inbox := Frame(n, bytes) + rest;
    CounterRoundTrip(n);
    assert inbox[..8] == CounterBytes(n);
  }

  /** One read of an intact frame consumes exactly that frame. */
  lemma ReadFrame(cfg: Settings, last: nat, s: Sent, rest: seq<Byte>)
    requires Sound(cfg.cipher) && Fits(cfg, s) && cfg.mtu + cfg.cipher.overhead <= 65535
    ensures Next(cfg, Receiver(last, FrameOf(cfg.cipher, s) + rest)) ==
            (Receiver(Max(last, s.n), rest), if Allowed(last, s.n, cfg.size) then Packet(s.text) else Dropped)
  {
    var bytes := Sealed(cfg.cipher, s.n, s.text);
    HeaderOf(s.n, bytes, rest);
    assert (bytes + rest)[..|bytes|] == bytes && (bytes + rest)[|bytes|..] == rest;
  }

  /** Reading a stream of intact frames, in any order and with repeats, keeps the stream aligned. */
  lemma {:induction false} ReadStream(cfg: Settings, last: nat, frames: seq<Sent>, rest: seq<Byte>)
    requires Sound(cfg.cipher) && cfg.mtu + cfg.cipher.overhead <= 65535
    requires forall i :: 0 <= i < |frames| ==> Fits(cfg, frames[i])
    ensures var r := Receiver(last, Stream(cfg.cipher, frames) + rest);
            && AfterReads(cfg, r, |frames|) == Receiver(Highest(last, frames), rest)
            && Outcomes(cfg, r, |frames|) == Read(cfg.size, last, frames)
    decreases |frames|
  {
    var stream := Stream(cfg.cipher, frames);
    if frames == [] {
      assert stream + rest == rest;
    } else {
      var first, others := frames[0], frames[1..];
      var more := Stream(cfg.cipher, others) + rest;
      assert stream + rest == FrameOf(cfg.cipher, first) + more;
      ReadFrame(cfg, last, first, more);
      ReadStream(cfg, Max(last, first.n), others, rest);
    }
  }

  /** What reads of intact frames return. */
  function Read(size: nat, last: nat, frames: seq<Sent>): (r: seq<Outcome>)
    ensures |r| == |frames|
    decreases |frames|
  {
    if frames == [] then []
    else
      var first := frames[0];
      [if Allowed(last, first.n, size) then Packet(first.text) else Dropped] + Read(size, Max(last, first.n), frames[1..])
  }

  // --- new maxima ----------------------------------------------------------

  /** Frame `i` has a number above every number before it. */
  predicate NewMaximum(last: nat, frames: seq<Sent>, i: nat)
    requires i < |frames|
  {
    frames[i].n > last && forall j :: 0 <= j < i ==> frames[i].n > frames[j].n
  }

  /** No frame is `size` or more behind the highest number before it. */
  predicate Near(size: nat, last: nat, frames: seq<Sent>) {
    forall i :: 0 <= i < |frames| ==> Highest(last, frames[..i]) - frames[i].n < size
  }

  lemma {:induction false} HighestIsAbove(last: nat, frames: seq<Sent>, n: nat)
    ensures n > Highest(last, frames) <==> n > last && forall j :: 0 <= j < |frames| ==> n > frames[j].n
    decreases |frames|
  {
    if frames == [] {
    } else {
      HighestIsAbove(Max(last, frames[0].n), frames[1..], n);
      assert forall j :: 0 <= j < |frames| - 1 ==> frames[1..][j] == frames[j + 1];
    }
  }

  lemma {:induction false} ReadAt(size: nat, last: nat, frames: seq<Sent>, i: nat)
    requires i < |frames|
    ensures Read(size, last, frames)[i] ==
            if Allowed(Highest(last, frames[..i]), frames[i].n, size) then Packet(frames[i].text) else Dropped
    decreases i
  {
    if i == 0 {
    } else {
      ReadAt(size, Max(last, frames[0].n), frames[1..], i - 1);
      assert frames[..i][1..] == frames[1..][..i - 1];
    }
  }

  /** The texts at new maxima; the other frames are dropped. */
  function Maxima(last: nat, frames: seq<Sent>): seq<Outcome> {
    seq(|frames|, i requires 0 <= i < |frames| => if NewMaximum(last, frames, i) then Packet(frames[i].text) else Dropped)
  }

  /** The reads return the texts at new maxima exactly when no frame is `size` or more behind. */
  lemma ReadIsMaxima(size: nat, last: nat, frames: seq<Sent>)
    ensures Read(size, last, frames) == Maxima(last, frames) <==> Near(size, last, frames)
  {
    forall i | 0 <= i < |frames|
      ensures Read(size, last, frames)[i] == Maxima(last, frames)[i] <==> Highest(last, frames[..i]) - frames[i].n < size
    {
      ReadAt(size, last, frames, i);
      HighestIsAbove(last, frames[..i], frames[i].n);
    }
  }

  /** The hypothesis is needed: a frame that comes again once the window has moved past it is returned again. */
  lemma BehindIsReadAgain(size: nat, a: seq<Byte>, b: seq<Byte>)
    requires size > 0
    ensures var frames := [Sent(1, a), Sent(size + 1, b), Sent(1, a)];
      && !Near(size, 0, frames) && Read(size, 0, frames) == [Packet(a), Packet(b), Packet(a)]
      && Maxima(0, frames) == [Packet(a), Packet(b), Dropped]
  {
    var x, y := Sent(1, a), Sent(size + 1, b);
    var frames := [x, y, x];
    assert frames[1..] == [y, x] && [y, x][1..] == [x] && [x][1..] == [];
    assert Read(size, size + 1, [x]) == [Packet(a)];
    assert Read(size, 1, [y, x]) == [Packet(b)] + Read(size, size + 1, [x]);
    assert frames[..2] == [x, y] && [x, y][1..] == [y] && [y][1..] == [];
    assert Highest(size + 1, []) == size + 1;
    assert Highest(1, [y]) == size + 1;
    assert Highest(0, frames[..2]) - frames[2].n >= size;
    assert NewMaximum(0, frames, 0) && NewMaximum(0, frames, 1) && !NewMaximum(0, frames, 2);
  }

  /**
   * Intact frames, reordered or repeated but never `size` or more behind, are read as exactly the texts
   * at successive new maxima, and the stream stays aligned.
   */
  lemma ReadsNewMaxima(cfg: Settings, last: nat, frames: seq<Sent>, rest: seq<Byte>)
    requires Sound(cfg.cipher) && cfg.mtu + cfg.cipher.overhead <= 65535
    requires forall i :: 0 <= i < |frames| ==> Fits(cfg, frames[i])
    requires Near(cfg.size, last, frames)
    ensures var r := Receiver(last, Stream(cfg.cipher, frames) + rest);
            && AfterReads(cfg, r, |frames|) == Receiver(Highest(last, frames), rest)
            && Outcomes(cfg, r, |frames|) == Maxima(last, frames)
  {
    ReadStream(cfg, last, frames, rest);
    ReadIsMaxima(cfg.size, last, frames);
  }

  // --- sending -------------------------------------------------------------

  function NextCounter(counter: nat): nat {
    (counter + 1) % COUNTER_LIMIT
  }

  /** The frames of packets written one after the other. */
  function Written(counter: nat, packets: seq<seq<Byte>>): seq<Sent>
    decreases |packets|
  {
    if packets == [] then []
    else
      var n := NextCounter(counter);
      [Sent(n, packets[0])] + Written(n, packets[1..])
  }

  lemma {:induction false} WrittenAt(counter: nat, packets: seq<seq<Byte>>, i: nat)
    requires counter + |packets| < COUNTER_LIMIT && i < |packets|
    ensures |Written(counter, packets)| == |packets|
    ensures Written(counter, packets)[i] == Sent(counter + 1 + i, packets[i])
    decreases |packets|
  {
    if |packets| > 1 {
      WrittenAt(counter + 1, packets[1..], if i == 0 then 0 else i - 1);
    }
  }

  /** Packets as written are all new maxima. */
  lemma WrittenInOrder(size: nat, counter: nat, last: nat, packets: seq<seq<Byte>>)
    requires last <= counter && counter + |packets| < COUNTER_LIMIT
    ensures var frames := Written(counter, packets);
            && |frames| == |packets| && (forall i :: 0 <= i < |frames| ==> frames[i] == Sent(counter + 1 + i, packets[i]))
            && Near(size, last, frames)
            && Maxima(last, frames) == seq(|packets|, i requires 0 <= i < |packets| => Packet(packets[i]))
  {
    var frames := Written(counter, packets);
    if packets != [] {
      WrittenAt(counter, packets, 0);
    }
    forall i | 0 <= i < |frames| ensures frames[i] == Sent(counter + 1 + i, packets[i]) {
      WrittenAt(counter, packets, i);
    }
    forall i | 0 <= i < |frames| ensures Highest(last, frames[..i]) < frames[i].n && NewMaximum(last, frames, i) {
      HighestIsAbove(last, frames[..i], frames[i].n);
    }
  }

  /** Delivered in order, every written packet is returned once, in order. */
  lemma InOrderDelivery(cfg: Settings, counter: nat, last: nat, packets: seq<seq<Byte>>, rest: seq<Byte>)
    requires Sound(cfg.cipher) && cfg.mtu + cfg.cipher.overhead <= 65535
    requires last <= counter && counter + |packets| < COUNTER_LIMIT
    requires forall i :: 0 <= i < |packets| ==> |packets[i]| <= cfg.mtu
    ensures var r := Receiver(last, Stream(cfg.cipher, Written(counter, packets)) + rest);
            && AfterReads(cfg, r, |packets|).inbox == rest
            && Outcomes(cfg, r, |packets|) == seq(|packets|, i requires 0 <= i < |packets| => Packet(packets[i]))
  {
    var frames := Written(counter, packets);
    WrittenInOrder(cfg.size, counter, last, packets);
    ReadsNewMaxima(cfg, last, frames, rest);
  }

  // --- successive writes and reads -----------------------------------------

  lemma {:induction false} StreamSnoc(c: Cipher, frames: seq<Sent>, s: Sent)
    ensures Stream(c, frames + [s]) == Stream(c, frames) + FrameOf(c, s)
  {
    var all := frames + [s];
    if frames == [] {
      assert all[1..] == [];
    } else {
      StreamSnoc(c, frames[1..], s);
      assert all[1..] == frames[1..] + [s] && all[0] == frames[0];
    }
  }

  /** The counter after so many writes. */
  function CounterAfter(counter: nat, writes: nat): nat {
    if writes == 0 then counter else NextCounter(CounterAfter(counter, writes - 1))
  }

  lemma {:induction false} CounterAfterFirst(counter: nat, writes: nat)
    ensures CounterAfter(NextCounter(counter), writes) == NextCounter(CounterAfter(counter, writes))
  {
    if writes == 0 {
    } else {
      CounterAfterFirst(counter, writes - 1);
    }
  }

  lemma {:induction false} WrittenSnoc(counter: nat, packets: seq<seq<Byte>>, p: seq<Byte>)
    ensures Written(counter, packets + [p])
      == Written(counter, packets) + [Sent(NextCounter(CounterAfter(counter, |packets|)), p)]
    decreases |packets|
  {
    var all := packets + [p];
    if packets == [] {
      assert all[1..] == [];
    } else {
      WrittenSnoc(NextCounter(counter), packets[1..], p);
      assert all[1..] == packets[1..] + [p] && all[0] == packets[0];
      CounterAfterFirst(counter, |packets| - 1);
    }
  }

  /** One more write appends one frame to what was sent before. */
  lemma WriteExtends(c: Cipher, counter: nat, packets: seq<seq<Byte>>, i: nat, sent: seq<Byte>)
    requires i < |packets|
    ensures sent + Stream(c, Written(counter, packets[..i]))
        + FrameOf(c, Sent(NextCounter(CounterAfter(counter, i)), packets[i]))
      == sent + Stream(c, Written(counter, packets[..i + 1]))
  {
    var s := Sent(NextCounter(CounterAfter(counter, i)), packets[i]);
    assert packets[..i + 1] == packets[..i] + [packets[i]];
    WrittenSnoc(counter, packets[..i], packets[i]);
    StreamSnoc(c, Written(counter, packets[..i]), s);
    assert sent + Stream(c, Written(counter, packets[..i])) + FrameOf(c, s)
      == sent + (Stream(c, Written(counter, packets[..i])) + FrameOf(c, s));
  }

  lemma {:induction false} ReadsSnoc(cfg: Settings, r: Receiver, n: nat)
    ensures AfterReads(cfg, r, n + 1) == Next(cfg, AfterReads(cfg, r, n)).0
    ensures Outcomes(cfg, r, n + 1) == Outcomes(cfg, r, n) + [Next(cfg, AfterReads(cfg, r, n)).1]
    decreases n
  {
    if n == 0 {
      assert AfterReads(cfg, r, 1) == AfterReads(cfg, Next(cfg, r).0, 0);
      assert Outcomes(cfg, r, 1) == [Next(cfg, r).1] + Outcomes(cfg, Next(cfg, r).0, 0);
    } else {
      ReadsSnoc(cfg, Next(cfg, r).0, n - 1);
    }
  }

  // --- frames byte by byte -------------------------------------------------

  /** Eight bytes of number, two of length, then the text sealed under the number padded with four zero bytes, with the
      eight bytes on the wire as additional data. */
  lemma FrameLayout(c: Cipher, s: Sent)
    requires s.n < COUNTER_LIMIT
    ensures var f := FrameOf(c, s);
      && |f| >= 10 && Word(f[..8]) == s.n && f[10..] == c.seal(f[..8] + [0, 0, 0, 0], s.text, f[..8])
      && (|f| - 10 < 65536 ==> Get16(f, 8) == |f| - 10)
  {
    CounterRoundTrip(s.n);
    var f := FrameOf(c, s);
    assert f[..8] == CounterBytes(s.n) && f[10..] == Sealed(c, s.n, s.text);
  }

  /** Twelve bytes: the number, most significant byte first, and four zeros. */
  lemma NonceLayout(n: nat)
    requires n < COUNTER_LIMIT
    ensures |Nonce(n)| == 12 && Word(Nonce(n)[..8]) == n && Nonce(n)[8..] == [0, 0, 0, 0]
  {
    CounterRoundTrip(n);
    assert Nonce(n)[..8] == CounterBytes(n);
  }

  /** No two frames of a sender are sealed under the same nonce before its counter wraps. */
  lemma NoncesDiffer(counter: nat, packets: seq<seq<Byte>>, i: nat, j: nat)
    requires counter + |packets| < COUNTER_LIMIT && i < j < |packets|
    ensures |Written(counter, packets)| == |packets|
    ensures Nonce(Written(counter, packets)[i].n) != Nonce(Written(counter, packets)[j].n)
  {
    WrittenAt(counter, packets, i);
    WrittenAt(counter, packets, j);
    NonceLayout(counter + 1 + i);
    NonceLayout(counter + 1 + j);
  }

  /** A stream that ends inside a header is used up. */
  lemma ShortHeader(cfg: Settings, last: nat, inbox: seq<Byte>)
    requires |inbox| < 10
    ensures Next(cfg, Receiver(last, inbox)) == (Receiver(last, []), NoHeader)
  {
  }

  /** A header that announces more than the limit is refused before the window sees its number, and the body is left. */
  lemma OversizedFrame(cfg: Settings, last: nat, inbox: seq<Byte>)
    requires |inbox| >= 10 && Get16(inbox, 8) > cfg.mtu + cfg.cipher.overhead
    ensures Next(cfg, Receiver(last, inbox)) == (Receiver(last, inbox[10..]), TooLong)
  {
  }

  /** A number that is not above the highest and less than `size` behind is skipped with as much of its body as came. */
  lemma OldFrame(cfg: Settings, last: nat, inbox: seq<Byte>)
    requires |inbox| >= 10 && Get16(inbox, 8) <= cfg.mtu + cfg.cipher.overhead
    requires Word(inbox[..8]) <= last && last - Word(inbox[..8]) < cfg.size
    ensures var length, rest := Get16(inbox, 8), inbox[10..];
      Next(cfg, Receiver(last, inbox)) == (Receiver(last, if length <= |rest| then rest[length..] else []), Dropped)
  {
  }

  /** Any other frame raises the highest number, whatever becomes of it: it ends too early, does not open under its own
      header, or is returned. */
  lemma NewFrame(cfg: Settings, last: nat, inbox: seq<Byte>)
    requires |inbox| >= 10 && Get16(inbox, 8) <= cfg.mtu + cfg.cipher.overhead
    requires Word(inbox[..8]) > last || last - Word(inbox[..8]) >= cfg.size
    ensures var n, length, rest := Word(inbox[..8]), Get16(inbox, 8), inbox[10..];
      var top := if n > last then n else last;
      Next(cfg, Receiver(last, inbox)) ==
        if |rest| < length then (Receiver(top, []), NoBody)
        else
          var text := cfg.cipher.open(inbox[..8] + [0, 0, 0, 0], rest[..length], inbox[..8]);
          (Receiver(top, rest[length..]), if text.None? then Undecryptable else Packet(text.value))
  {
    PutOfWord(inbox[..8]);
    assert CounterBytes(Word(inbox[..8])) == inbox[..8];
  }
}
