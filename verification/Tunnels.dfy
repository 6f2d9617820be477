/** The encrypted tunnel and its replay window: internal/tunnel/tunnel.go. */
module Tunnels {
  import opened Options
  import opened Bytes
  import opened Frames

  const DEFAULT_WINDOW := 1024
  const DEFAULT_MTU := 1280

  /** A word with one more bit set. */
  function Marked(word: nat, bit: nat): nat {
    if BitOf(word, bit) then word else word + Pow2(bit)
  }

  /** The bitmap moved up by whole words. */
  function Shifted(words: seq<nat>, up: nat): seq<nat> {
    seq(|words|, i requires 0 <= i < |words| => if i >= up then words[i - up] else 0)
  }

  function Cleared(words: seq<nat>): seq<nat> {
    seq(|words|, i => 0)
  }

  /** The bitmap after the window has advanced to `n`, before that number is marked. */
  function Advanced(words: seq<nat>, last: nat, n: nat, size: nat): (r: seq<nat>)
    ensures |r| == |words|
  {
    if n <= last then words
    else if n - last >= size then Cleared(words)
    else Shifted(words, (n - last) / 64)
  }

  /** The bitmap after a number has been judged. */
  function MarkedMap(words: seq<nat>, last: nat, n: nat, size: nat): seq<nat>
    requires |words| == (size + 63) / 64 && size > 0
  {
    if n <= last && last - n < size then
      var index := last - n;
      words[index / 64 := Marked(words[index / 64], index % 64)]
    else
      var moved := Advanced(words, last, n, size);
      moved[0 := Marked(moved[0], 0)]
  }

  lemma {:induction false} AddedBit(word: nat, bit: nat, j: nat)
    requires !BitOf(word, bit)
    ensures BitOf(word + Pow2(bit), j) == (j == bit || BitOf(word, j))
    decreases bit
  {
    var sum := word + Pow2(bit);
    if bit == 0 {
      assert sum / 2 == word / 2;
    } else {
      assert sum % 2 == word % 2 && sum / 2 == word / 2 + Pow2(bit - 1);
      if j > 0 {
        AddedBit(word / 2, bit - 1, j - 1);
      }
    }
  }

  /** Bit `k` of a bitmap of 64-bit words. */
  predicate Mapped(words: seq<nat>, k: nat)
    requires k / 64 < |words|
  {
    BitOf(words[k / 64], k % 64)
  }

  lemma OneMoreMapped(words: seq<nat>, at: nat, k: nat)
    requires at / 64 < |words| && k / 64 < |words|
    ensures Mapped(words[at / 64 := Marked(words[at / 64], at % 64)], k) == (k == at || Mapped(words, k))
  {
    if !Mapped(words, at) && k / 64 == at / 64 {
      AddedBit(words[at / 64], at % 64, k % 64);
    }
  }

  lemma AdvancedBits(words: seq<nat>, last: nat, n: nat, size: nat, k: nat, up: nat)
    requires n > last && k / 64 < |words| && up == (n - last) / 64
    ensures Mapped(Advanced(words, last, n, size), k)
            == (n - last < size && k >= 64 * up && Mapped(words, k - 64 * up))
  {
    if n - last >= size {
      ZeroBits(k % 64);
    } else if k >= 64 * up {
      assert (k - 64 * up) / 64 == k / 64 - up && (k - 64 * up) % 64 == k % 64;
    } else {
      ZeroBits(k % 64);
    }
  }

  lemma {:induction false} ZeroBits(j: nat)
    ensures !BitOf(0, j)
  {
    if j == 0 {
    } else {
      ZeroBits(j - 1);
    }
  }

  /**
   * The bitmap after a number was judged, bit by bit: a number inside the window adds the bit of its distance; one
   * further behind adds bit zero; one ahead by less than the window moves the bits by the whole words in its advance,
   * any other forgets them, and both add bit zero.
   */
  lemma MapBits(words: seq<nat>, last: nat, n: nat, size: nat, k: nat, up: nat)
    requires size > 0 && |words| == (size + 63) / 64 && k / 64 < |words| && (n > last ==> up == (n - last) / 64)
    ensures Mapped(MarkedMap(words, last, n, size), k) ==
            if n <= last then k == (if last - n < size then last - n else 0) || Mapped(words, k)
            else k == 0 || (n - last < size && k >= 64 * up && Mapped(words, k - 64 * up))
  {
    if n <= last && last - n < size {
      OneMoreMapped(words, last - n, k);
    } else {
      OneMoreMapped(Advanced(words, last, n, size), 0, k);
      if n > last {
        AdvancedBits(words, last, n, size, k, up);
      }
    }
  }

  /** Sequence numbers seen within a sliding window. */
  class ReplayWindow {
    const size: nat
    const bitmap: array<nat>
    var last: nat

    ghost predicate Valid()
      reads this
    {
      size > 0 && bitmap.Length == (size + 63) / 64 && last < COUNTER_LIMIT
    }

    constructor (wanted: int)
      ensures Valid() && fresh(bitmap) && last == 0
      ensures size == if wanted <= 0 then 1024 else wanted
    {
      var n: nat := if wanted <= 0 then DEFAULT_WINDOW else wanted;
      size := n;
      bitmap := new nat[(n + 63) / 64](i => 0);
      last := 0;
    }

    method Clear()
      modifies bitmap
      ensures bitmap[..] == Cleared(old(bitmap[..]))
    {
      for i := 0 to bitmap.Length
        invariant forall j :: 0 <= j < i ==> bitmap[j] == 0
      {
        bitmap[i] := 0;
      }
    }

    /** Works downward, so that every word is read before it is overwritten. */
    method Shift(words: nat)
      modifies bitmap
      ensures bitmap[..] == Shifted(old(bitmap[..]), words)
    {
      ghost var was, goal := bitmap[..], Shifted(bitmap[..], words);
      var i := bitmap.Length - 1;
      while i >= 0
        invariant -1 <= i < bitmap.Length
        invariant forall j :: 0 <= j <= i ==> bitmap[j] == was[j]
        invariant forall j :: i < j < bitmap.Length ==> bitmap[j] == goal[j]
      {
        if i - words >= 0 {
          bitmap[i] := bitmap[i - words];
        } else {
          bitmap[i] := 0;
        }
        i := i - 1;
      }
      assert bitmap[..] == goal;
    }

    method Mark(word: nat, bit: nat)
      requires word < bitmap.Length
      modifies bitmap
      ensures bitmap[..] == old(bitmap[..])[word := Marked(old(bitmap[word]), bit)]
    {
      bitmap[word] := Marked(bitmap[word], bit);
    }

    method Advance(n: nat)
      requires n > last
      modifies this`last, bitmap
      ensures last == n && bitmap[..] == Advanced(old(bitmap[..]), old(last), n, size)
    {
      var diff := n - last;
      if diff >= size {
        Clear();
      } else {
        Shift(diff / 64);
      }
      last := n;
    }

    /** The answer depends on the highest number alone, whatever the bitmap holds. */
    method Allow(n: nat) returns (ok: bool)
      requires Valid() && n < COUNTER_LIMIT
      modifies this, bitmap
      ensures Valid() && ok == Allowed(old(last), n, size)
      ensures last == if ok then Max(old(last), n) else old(last)
      ensures bitmap[..] == MarkedMap(old(bitmap[..]), old(last), n, size)
    {
      if n <= last && last - n < size {
        var index := last - n;
        var word, bit := index / 64, index % 64;
        if BitOf(bitmap[word], bit) {
          return false;
        }
        Mark(word, bit);
        return false;
      }
      if n > last {
        Advance(n);
      }
      Mark(0, 0);
      return true;
    }
  }

  /** A byte stream: what will still arrive before its end, and what has been sent. */
  class Connection {
    var inbox: seq<Byte>
    var outbox: seq<Byte>

    /** Exactly `n` bytes, or none if the stream ends before. */
    method ReadFull(n: nat) returns (r: Option<seq<Byte>>)
      modifies this`inbox
      ensures inbox == After(old(inbox), n)
      ensures r == if n <= |old(inbox)| then Some(old(inbox)[..n]) else None
    {
      if n <= |inbox| {
        r := Some(inbox[..n]);
        inbox := inbox[n..];
      } else {
        r := None;
        inbox := [];
      }
    }

    /** Sends the bytes that the connection takes, and fails if it does not take them all. */
    method Send(bytes: seq<Byte>, taken: nat) returns (ok: bool)
      modifies this`outbox
      ensures ok == (taken >= |bytes|)
      ensures outbox == old(outbox) + if taken < |bytes| then bytes[..taken] else bytes
    {
      ok := taken >= |bytes|;
      outbox := outbox + if ok then bytes else bytes[..taken];
    }
  }

  datatype TunnelError =
    | ClosedPipe | HeaderError | LengthError | BodyError | DecryptError | OversizedPacket | SendError

  /** The error a read reports; a dropped frame reports none. */
  function ErrorOf(o: Outcome): Option<TunnelError> {
    match o
    case NoHeader => Some(HeaderError)
    case TooLong => Some(LengthError)
    case Dropped => None
    case NoBody => Some(BodyError)
    case Undecryptable => Some(DecryptError)
    case Packet(_) => None
  }

  /** What the caller's buffer holds after a read. */
  function Copied(buffer: seq<Byte>, o: Outcome): seq<Byte> {
    if !o.Packet? then buffer
    else if |o.text| >= |buffer| then o.text[..|buffer|]
    else o.text + buffer[|o.text|..]
  }

  method CopyInto(buffer: array<Byte>, text: seq<Byte>)
    modifies buffer
    ensures buffer[..] == Copied(old(buffer[..]), Packet(text))
  {
    for i := 0 to buffer.Length
      invariant forall j :: 0 <= j < i ==> buffer[j] == if j < |text| then text[j] else old(buffer[j])
      invariant forall j :: i <= j < buffer.Length ==> buffer[j] == old(buffer[j])
    {
      if i < |text| {
        buffer[i] := text[i];
      }
    }
  }

  class Tunnel {
    const conn: Connection
    const cipher: Cipher
    const mtu: nat
    const window: ReplayWindow
    var closed: bool
    var sendSeq: nat

    ghost predicate Valid()
      reads this, window
    {
      window.Valid() && sendSeq < COUNTER_LIMIT
    }

    ghost function Limits(): Settings {
      Settings(cipher, mtu, window.size)
    }

    constructor (conn: Connection, cipher: Cipher, wanted: int)
      ensures Valid() && fresh(window) && fresh(window.bitmap) && !closed && sendSeq == 0 && window.last == 0
      ensures this.conn == conn && this.cipher == cipher && window.size == 1024
      ensures mtu == if wanted <= 0 then 1280 else wanted
    {
      this.conn, this.cipher := conn, cipher;
      mtu := if wanted <= 0 then DEFAULT_MTU else wanted;
      window := new ReplayWindow(DEFAULT_WINDOW);
      closed, sendSeq := false, 0;
    }

    /** The number and the length in the next header. */
    method ReadHeader() returns (r: Option<(nat, nat)>)
      modifies conn`inbox
      ensures conn.inbox == After(old(conn.inbox), HEADER)
      ensures r == if |old(conn.inbox)| < HEADER then None
                   else Some((Word(old(conn.inbox)[..8]), Get16(old(conn.inbox), 8)))
      ensures r.Some? ==> r.value.0 < COUNTER_LIMIT
    {
      var header := conn.ReadFull(HEADER);
      if header.None? {
        return None;
      }
      assert header.value[..8] == old(conn.inbox)[..8];
      CounterBound(header.value[..8]);
      return Some((Word(header.value[..8]), Get16(header.value, 8)));
    }

    /** One read is one step of the frame stream; it returns the length of the text even if the buffer is shorter. */
    method Read(buffer: array<Byte>) returns (n: nat, error: Option<TunnelError>, ghost step: (Receiver, Outcome))
      requires Valid()
      modifies buffer, conn`inbox, window, window.bitmap
      ensures Valid()
      ensures old(closed) ==> n == 0 && error == Some(ClosedPipe)
      ensures old(closed) ==> buffer[..] == old(buffer[..])
      ensures old(closed) ==> conn.inbox == old(conn.inbox) && window.last == old(window.last)
      ensures !old(closed) ==>
        && step == Next(Limits(), Receiver(old(window.last), old(conn.inbox)))
        && step.0 == Receiver(window.last, conn.inbox)
        && n == (if step.1.Packet? then |step.1.text| else 0) && error == ErrorOf(step.1)
        && buffer[..] == Copied(old(buffer[..]), step.1)
    {
      step := Next(Limits(), Receiver(window.last, conn.inbox));
      if closed {
        return 0, Some(ClosedPipe), step;
      }
      var header := ReadHeader();
      if header.None? {
        return 0, Some(HeaderError), step;
      }
      var (number, length) := header.value;
      if length > mtu + cipher.overhead {
        return 0, Some(LengthError), step;
      }
      var allowed := window.Allow(number);
      var body := conn.ReadFull(length);
      if !allowed {
        return 0, None, step;
      }
      if body.None? {
        return 0, Some(BodyError), step;
      }
      var text := Opened(cipher, number, body.value);
      if text.None? {
        return 0, Some(DecryptError), step;
      }
      CopyInto(buffer, text.value);
      return |text.value|, None, step;
    }

    /** The number is spent even if the connection then fails. */
    method Write(packet: seq<Byte>, taken: nat) returns (n: nat, error: Option<TunnelError>)
      requires Valid()
      modifies this`sendSeq, conn`outbox
      ensures Valid()
      ensures old(closed) ==> n == 0 && error == Some(ClosedPipe)
      ensures !old(closed) && |packet| > mtu ==> n == 0 && error == Some(OversizedPacket)
      ensures old(closed) || |packet| > mtu ==> sendSeq == old(sendSeq) && conn.outbox == old(conn.outbox)
      ensures !old(closed) && |packet| <= mtu ==>
        && sendSeq == NextCounter(old(sendSeq))
        && var bytes := FrameOf(cipher, Sent(sendSeq, packet));
           if taken >= |bytes| then n == |packet| && error == None && conn.outbox == old(conn.outbox) + bytes
           else n == 0 && error == Some(SendError) && conn.outbox == old(conn.outbox) + bytes[..taken]
    {
      if closed {
        return 0, Some(ClosedPipe);
      }
      if |packet| > mtu {
        return 0, Some(OversizedPacket);
      }
      sendSeq := (sendSeq + 1) % COUNTER_LIMIT;
      var bytes := Frame(sendSeq, Sealed(cipher, sendSeq, packet));
      var ok := conn.Send(bytes, taken);
      if !ok {
        return 0, Some(SendError);
      }
      return |packet|, None;
    }

    method Close()
      modifies this`closed
      ensures closed
    {
      closed := true;
    }
  }

  // --- successive calls ----------------------------------------------------

  lemma FrameSize(c: Cipher, s: Sent)
    requires Sound(c)
    ensures |FrameOf(c, s)| == HEADER + |s.text| + c.overhead
  {
  }

  /** Whether a connection that takes so many bytes takes every frame of the tunnel. */
  ghost predicate Takes(c: Cipher, mtu: nat, taken: nat) {
    Sound(c) && taken >= HEADER + mtu + c.overhead
  }

  /** A write on a connection that takes the frame. */
  method WriteOne(t: Tunnel, packet: seq<Byte>, taken: nat)
    requires t.Valid() && !t.closed && |packet| <= t.mtu && Takes(t.cipher, t.mtu, taken)
    modifies t`sendSeq, t.conn`outbox
    ensures t.Valid() && t.sendSeq == NextCounter(old(t.sendSeq))
    ensures t.conn.outbox == old(t.conn.outbox) + FrameOf(t.cipher, Sent(NextCounter(old(t.sendSeq)), packet))
  {
    FrameSize(t.cipher, Sent(NextCounter(t.sendSeq), packet));
    var n, error := t.Write(packet, taken);
  }

  /** Successive writes on a connection that takes every frame put exactly the packets' frames on the wire. */
  method WriteAll(t: Tunnel, packets: seq<seq<Byte>>, taken: nat)
    requires t.Valid() && !t.closed && Takes(t.cipher, t.mtu, taken)
    requires forall i :: 0 <= i < |packets| ==> |packets[i]| <= t.mtu
    modifies t`sendSeq, t.conn`outbox
    ensures t.Valid() && t.sendSeq == CounterAfter(old(t.sendSeq), |packets|)
    ensures t.conn.outbox == old(t.conn.outbox) + Stream(t.cipher, Written(old(t.sendSeq), packets))
  {
    ghost var counter, sent := t.sendSeq, t.conn.outbox;
    assert sent == sent + Stream(t.cipher, Written(counter, packets[..0]));
    for i := 0 to |packets|
      invariant t.Valid() && t.sendSeq == CounterAfter(counter, i)
      invariant t.conn.outbox == sent + Stream(t.cipher, Written(counter, packets[..i]))
    {
      WriteExtends(t.cipher, counter, packets, i, sent);
      WriteOne(t, packets[i], taken);
    }
    assert packets[..|packets|] == packets;
  }

  /** What a read leaves at the front of a buffer. */
  function Got(o: Outcome, size: nat): seq<Byte> {
    if !o.Packet? then [] else if |o.text| <= size then o.text else o.text[..size]
  }

  function AllGot(outcomes: seq<Outcome>, size: nat): seq<seq<Byte>> {
    seq(|outcomes|, i requires 0 <= i < |outcomes| => Got(outcomes[i], size))
  }

  /** One read and what it leaves in the buffer. */
  method ReadOne(t: Tunnel, buffer: array<Byte>) returns (seen: seq<Byte>)
    requires t.Valid() && !t.closed
    modifies buffer, t.conn`inbox, t.window, t.window.bitmap
    ensures t.Valid()
    ensures var step := Next(t.Limits(), Receiver(old(t.window.last), old(t.conn.inbox)));
      Receiver(t.window.last, t.conn.inbox) == step.0 && seen == Got(step.1, buffer.Length)
  {
    var count, error;
    ghost var step;
    count, error, step := t.Read(buffer);
    seen := if count <= buffer.Length then buffer[..count] else buffer[..];
  }

  /** Successive reads are successive steps of the frame stream. */
  method ReadAll(t: Tunnel, n: nat, buffer: array<Byte>) returns (got: seq<seq<Byte>>)
    requires t.Valid() && !t.closed
    modifies buffer, t.conn`inbox, t.window, t.window.bitmap
    ensures t.Valid()
    ensures var r := Receiver(old(t.window.last), old(t.conn.inbox));
      && Receiver(t.window.last, t.conn.inbox) == AfterReads(t.Limits(), r, n)
      && got == AllGot(Outcomes(t.Limits(), r, n), buffer.Length)
  {
    ghost var cfg, r := t.Limits(), Receiver(t.window.last, t.conn.inbox);
    got := [];
    for i := 0 to n
      invariant t.Valid() && Receiver(t.window.last, t.conn.inbox) == AfterReads(cfg, r, i)
      invariant got == AllGot(Outcomes(cfg, r, i), buffer.Length)
    {
      ReadsSnoc(cfg, r, i);
      var seen := ReadOne(t, buffer);
      got := got + [seen];
    }
  }

  /** Packets written into one end and delivered in order come out of the other end once each, in order. */
  method Transfer(sender: Tunnel, receiver: Tunnel, packets: seq<seq<Byte>>, buffer: array<Byte>, taken: nat)
    returns (got: seq<seq<Byte>>)
    requires sender.Valid() && !sender.closed && receiver.Valid() && !receiver.closed && sender.conn != receiver.conn
    requires sender.cipher == receiver.cipher && sender.mtu == receiver.mtu && Takes(sender.cipher, sender.mtu, taken)
    requires sender.mtu + sender.cipher.overhead <= 65535
    requires receiver.window.last <= sender.sendSeq && sender.sendSeq + |packets| < COUNTER_LIMIT
    requires receiver.conn.inbox == [] && buffer.Length >= sender.mtu
    requires forall i :: 0 <= i < |packets| ==> |packets[i]| <= sender.mtu
    modifies sender`sendSeq, sender.conn`outbox, buffer, receiver.conn`inbox, receiver.window, receiver.window.bitmap
    ensures got == packets && receiver.conn.inbox == []
  {
    ghost var cfg, counter, last := receiver.Limits(), sender.sendSeq, receiver.window.last;
    var before := |sender.conn.outbox|;
    WriteAll(sender, packets, taken);
    receiver.conn.inbox := sender.conn.outbox[before..];
    ghost var stream := Stream(cfg.cipher, Written(counter, packets));
    assert receiver.conn.inbox == stream == stream + [];
    InOrderDelivery(cfg, counter, last, packets, []);
    got := ReadAll(receiver, |packets|, buffer);
  }
}
