/** Reading a STUN binding response: internal/stun/client.go (sections 6, 15, 15.1 and 15.2 of RFC 5389). */
module Stun {
  import opened Options
  import opened Bytes

  const MAGIC := 0x2112A442
  const MAGIC_HIGH := 0x2112
  const HEADER := 20
  const SUCCESS := 0x0101
  const FAILURE := 0x0111
  const MAPPED_ADDRESS: Word16 := 0x0001
  const XOR_MAPPED_ADDRESS: Word16 := 0x0020

  type TransactionId = t: seq<Byte> | |t| == 12 witness [0, 0, 0, 0, 0, 0, 0, 0, 0, 0, 0, 0]

  datatype Address = Address(ip: seq<Byte>, port: nat)

  datatype AddressError = ValueTooShort | UnknownFamily

  // --- masks ---------------------------------------------------------------

  /** A big-endian word combined with a mask of its width. */
  function Masked(bs: seq<Byte>, mask: nat): (r: seq<Byte>)
    ensures |r| == |bs|
  {
    Put(Xor(Word(bs), mask, 8 * |bs|), |bs|)
  }

  lemma {:induction false} Pow256IsPow2(w: nat)
    ensures Pow256(w) == Pow2(8 * w)
  {
    if w == 0 {
    } else {
      Pow256IsPow2(w - 1);
      Pow2Byte(8 * (w - 1));
    }
  }

  lemma Pow2Byte(k: nat)
    ensures Pow2(k + 8) == 256 * Pow2(k)
  {
    assert Pow2(k + 4) == 16 * Pow2(k) by { assert Pow2(k + 2) == 4 * Pow2(k); }
    assert Pow2(k + 8) == 16 * Pow2(k + 4) by { assert Pow2(k + 6) == 4 * Pow2(k + 4); }
  }

  lemma WordOfMasked(bs: seq<Byte>, mask: nat)
    ensures Word(Masked(bs, mask)) == Xor(Word(bs), mask, 8 * |bs|)
  {
    Pow256IsPow2(|bs|);
    WordOfPut(Xor(Word(bs), mask, 8 * |bs|), |bs|);
  }

  /** A mask of the word's width is undone by applying it again. */
  lemma MaskedTwice(bs: seq<Byte>, mask: nat)
    ensures Masked(Masked(bs, mask), mask) == bs
  {
    var x, w := Word(bs), 8 * |bs|;
    PutOfWord(bs);
    Pow256IsPow2(|bs|);
    WordOfMasked(bs, mask);
    XorCommutes(x, mask, w);
    XorTwice(mask, x, w);
    XorCommutes(Xor(mask, x, w), mask, w);
  }

  /** Only the zero mask changes nothing. */
  lemma MaskedIsSame(bs: seq<Byte>, mask: nat)
    requires mask < Pow2(8 * |bs|)
    ensures Masked(bs, mask) == bs <==> mask == 0
  {
    var x, w := Word(bs), 8 * |bs|;
    PutOfWord(bs);
    Pow256IsPow2(|bs|);
    WordOfMasked(bs, mask);
    XorSelf(x, w);
    XorTwice(x, mask, w);
    XorTwice(x, x, w);
  }

  // --- address attributes --------------------------------------------------

  /** XOR-MAPPED-ADDRESS. The last twelve bytes of an IPv6 address are taken as they stand. */
  function DecodeXor(val: seq<Byte>): Result<Address, AddressError> {
    if |val| < 8 then Err(ValueTooShort)
    else
      var port := Word(Masked(val[2..4], MAGIC_HIGH));
      if val[1] == 1 then Ok(Address(V4_IN_V6 + Masked(val[4..8], MAGIC), port))
      else if val[1] == 2 then
        if |val| < 20 then Err(ValueTooShort) else Ok(Address(Masked(val[4..8], MAGIC) + val[8..20], port))
      else Err(UnknownFamily)
  }

  /** MAPPED-ADDRESS. */
  function DecodeMapped(val: seq<Byte>): Result<Address, AddressError> {
    if |val| < 8 then Err(ValueTooShort)
    else if val[1] == 1 then Ok(Address(V4_IN_V6 + val[4..8], Get16(val, 2)))
    else if val[1] == 2 then
      if |val| < 20 then Err(ValueTooShort) else Ok(Address(val[4..20], Get16(val, 2)))
    else Err(UnknownFamily)
  }

  /** The magic cookie as it stands on the wire. */
  const COOKIE: seq<Byte> := [0x21, 0x12, 0xA4, 0x42]

  /** Each byte combined with the mask byte at its place. */
  function Mixed(bs: seq<Byte>, mask: seq<Byte>): seq<Byte>
    requires |bs| <= |mask|
  {
    seq(|bs|, i requires 0 <= i < |bs| => XorByte(bs[i], mask[i]))
  }

  /** Section 15.2 of RFC 5389 for IPv4: port and address are mixed with the first bytes of the cookie. */
  function EncodeXor4(reserved: Byte, ip: seq<Byte>, port: Word16): seq<Byte>
    requires |ip| == 4
  {
    [reserved, 1] + Mixed(Put16(port), COOKIE) + Mixed(ip, COOKIE)
  }

  /** Section 15.2 of RFC 5389 for IPv6: the address is mixed with the cookie followed by the transaction identifier. */
  function EncodeXor6(reserved: Byte, ip: seq<Byte>, port: Word16, id: TransactionId): seq<Byte>
    requires |ip| == 16
  {
    [reserved, 2] + Mixed(Put16(port), COOKIE) + Mixed(ip, COOKIE + id)
  }

  /** Every bit of the encoded port and address differs from the plain bit exactly where the cookie has a one. */
  lemma MixedBit(bs: seq<Byte>, mask: seq<Byte>, i: nat, j: nat)
    requires |bs| <= |mask| && i < |bs| && j < 8
    ensures BitOf(Mixed(bs, mask)[i], j) == (BitOf(bs[i], j) != BitOf(mask[i], j))
  {
    XorBit(bs[i], mask[i], 8, j);
  }

  lemma XorLast(a: nat, b: Byte, c: nat, d: Byte, w: nat)
    ensures Xor(256 * a + b, 256 * c + d, w + 8) == 256 * Xor(a, c, w) + XorByte(b, d)
  {
    assert Pow2(8) == 256;
    ShiftLeftByte(a);
    ShiftLeftByte(c);
    ShiftLeftByte(Xor(a, c, w));
    XorSplit(a, b, c, d, w, 8);
  }

  lemma WordLast(front: seq<Byte>, b: Byte)
    ensures Word(front + [b]) == 256 * Word(front) + b
  {
    assert (front + [b])[..|front|] == front;
  }

  lemma {:induction false} WordOfMixed(bs: seq<Byte>, mask: seq<Byte>, w: nat)
    requires |bs| == |mask| && w == 8 * |bs|
    ensures Word(Mixed(bs, mask)) == Xor(Word(bs), Word(mask), w)
  {
    if bs == [] {
    } else {
      var n := |bs| - 1;
      WordOfMixed(bs[..n], mask[..n], w - 8);
      XorLast(Word(bs[..n]), bs[n], Word(mask[..n]), mask[n], w - 8);
      assert Mixed(bs, mask)[..n] == Mixed(bs[..n], mask[..n]);
    }
  }

  /** Masking a big-endian word is mixing its bytes one by one. */
  lemma MaskedIsMixed(bs: seq<Byte>, mask: seq<Byte>)
    requires |bs| == |mask|
    ensures Masked(bs, Word(mask)) == Mixed(bs, mask)
  {
    WordOfMixed(bs, mask, 8 * |bs|);
    PutOfWord(Mixed(bs, mask));
  }

  /** The two mask words are the cookie and its first half. */
  lemma CookieWords()
    ensures Word(COOKIE) == MAGIC == 0x2112A442 && Word(COOKIE[..2]) == MAGIC_HIGH == MAGIC / 65536
  {
    assert COOKIE[..2][..1] == [0x21] && COOKIE[..3][..2] == COOKIE[..2] && [0x21][..0] == [];
    assert Word(COOKIE[..2][..1]) == 0x21;
  }

  lemma MixedPort(port: Word16)
    ensures Mixed(Put16(port), COOKIE) == Masked(Put16(port), MAGIC_HIGH)
  {
    CookieWords();
    MaskedIsMixed(Put16(port), COOKIE[..2]);
  }

  lemma MixedHost(ip: seq<Byte>)
    requires |ip| == 4
    ensures Mixed(ip, COOKIE) == Masked(ip, MAGIC)
  {
    CookieWords();
    MaskedIsMixed(ip, COOKIE);
  }

  lemma WordOfPort(port: Word16)
    ensures Word(Put16(port)) == port
  {
    var bs := Put16(port);
    assert bs[..1] == [bs[0]] && bs[..1][..0] == [];
    assert Word(bs[..1]) == bs[0];
  }

  /** An IPv4 address and port encoded as the standard says decode to themselves. */
  lemma Xor4RoundTrip(reserved: Byte, ip: seq<Byte>, port: Word16)
    requires |ip| == 4
    ensures DecodeXor(EncodeXor4(reserved, ip, port)) == Ok(Address(V4_IN_V6 + ip, port))
  {
    var val := EncodeXor4(reserved, ip, port);
    MixedPort(port);
    MixedHost(ip);
    assert val[2..4] == Masked(Put16(port), MAGIC_HIGH) && val[4..8] == Masked(ip, MAGIC);
    MaskedTwice(Put16(port), MAGIC_HIGH);
    MaskedTwice(ip, MAGIC);
    WordOfPort(port);
  }

  lemma XorNibbles(a: nat, b: nat, c: nat, d: nat)
    requires a < 16 && b < 16 && c < 16 && d < 16
    ensures XorByte(16 * a + b, 16 * c + d) == 16 * Xor(a, c, 4) + Xor(b, d, 4)
  {
    assert Pow2(4) == 16 && Pow2(8) == 256;
    XorSplit(a, b, c, d, 4, 4);
    assert ShiftLeft(a, 4) == 16 * a && ShiftLeft(c, 4) == 16 * c && ShiftLeft(Xor(a, c, 4), 4) == 16 * Xor(a, c, 4);
  }

  lemma SamplePort(port: Word16)
    requires port == 32853
    ensures Mixed(Put16(port), COOKIE) == [0xA1, 0x47]
  {
    assert Put16(port) == [0x80, 0x55];
    XorNibbles(8, 0, 2, 1);
    XorNibbles(5, 5, 1, 2);
  }

  lemma SampleHost(ip: seq<Byte>)
    requires ip == [192, 0, 2, 1]
    ensures Mixed(ip, COOKIE) == [0xE1, 0x12, 0xA6, 0x43]
  {
    XorNibbles(12, 0, 2, 1);
    XorNibbles(0, 0, 1, 2);
    XorNibbles(0, 2, 10, 4);
    XorNibbles(0, 1, 4, 2);
  }

  /** 192.0.2.1 and port 32853, the mapped address of the sample responses of RFC 5769. */
  lemma SampleXor4(val: seq<Byte>, ip: seq<Byte>, port: Word16)
    requires val == [0, 1, 0xA1, 0x47, 0xE1, 0x12, 0xA6, 0x43]
    requires ip == [192, 0, 2, 1] && port == 32853
    ensures DecodeXor(val) == Ok(Address([0, 0, 0, 0, 0, 0, 0, 0, 0, 0, 0xFF, 0xFF] + ip, port))
  {
    SamplePort(port);
    SampleHost(ip);
    assert val == EncodeXor4(0, ip, port);
    Xor4RoundTrip(0, ip, port);
  }

  /** Section 15.1 of RFC 5389: the address is written plain. */
  lemma MappedRoundTrip(reserved: Byte, ip: seq<Byte>, port: Word16)
    requires |ip| == 4 || |ip| == 16
    ensures DecodeMapped([reserved, if |ip| == 4 then 1 else 2] + Put16(port) + ip)
            == Ok(Address(if |ip| == 4 then V4_IN_V6 + ip else ip, port))
  {
    var val := [reserved, if |ip| == 4 then 1 else 2] + Put16(port) + ip;
    assert val[4..] == ip && val[2..4] == Put16(port);
    if |ip| == 4 {
      assert val[4..8] == ip;
    } else {
      assert val[4..20] == ip;
    }
  }

  /** Both decoders refuse the same values: too short for their family, or of a family other than 1 and 2. */
  lemma AddressErrors(val: seq<Byte>)
    ensures |val| < 8 || (val[1] == 2 && |val| < 20) <==> DecodeXor(val) == Err(ValueTooShort)
    ensures |val| >= 8 && val[1] != 1 && val[1] != 2 <==> DecodeXor(val) == Err(UnknownFamily)
    ensures DecodeMapped(val).Err? == DecodeXor(val).Err?
    ensures DecodeMapped(val).Err? ==> DecodeMapped(val) == DecodeXor(val)
  {
  }

  lemma {:induction false} ZeroWord(bs: seq<Byte>)
    ensures Word(bs) == 0 <==> forall i :: 0 <= i < |bs| ==> bs[i] == 0
  {
    if bs == [] {
    } else {
      var front := bs[..|bs| - 1];
      ZeroWord(front);
      assert forall i :: 0 <= i < |front| ==> front[i] == bs[i];
    }
  }

  /** An IPv6 address is read with its last twelve bytes still mixed with the transaction identifier. */
  lemma Xor6Decoded(reserved: Byte, ip: seq<Byte>, port: Word16, id: TransactionId)
    requires |ip| == 16
    ensures DecodeXor(EncodeXor6(reserved, ip, port, id)) == Ok(Address(ip[..4] + Mixed(ip[4..], id), port))
  {
    var val := EncodeXor6(reserved, ip, port, id);
    MixedPort(port);
    MixedHost(ip[..4]);
    assert Mixed(ip, COOKIE + id) == Mixed(ip[..4], COOKIE) + Mixed(ip[4..], id);
    assert val[2..4] == Masked(Put16(port), MAGIC_HIGH) && val[4..8] == Masked(ip[..4], MAGIC);
    assert val[8..20] == Mixed(ip[4..], id);
    MaskedTwice(Put16(port), MAGIC_HIGH);
    MaskedTwice(ip[..4], MAGIC);
    WordOfPort(port);
  }

  lemma MixedIsSame(bs: seq<Byte>, mask: seq<Byte>)
    requires |bs| == |mask|
    ensures Mixed(bs, mask) == bs <==> forall i :: 0 <= i < |mask| ==> mask[i] == 0
  {
    MaskedIsMixed(bs, mask);
    PutOfWord(mask);
    Pow256IsPow2(|mask|);
    MaskedIsSame(bs, Word(mask));
    ZeroWord(mask);
  }

  /** An IPv6 address decodes to itself exactly when the transaction identifier is zero. */
  lemma Xor6RoundTrip(reserved: Byte, ip: seq<Byte>, port: Word16, id: TransactionId)
    requires |ip| == 16
    ensures DecodeXor(EncodeXor6(reserved, ip, port, id)) == Ok(Address(ip, port))
            <==> forall i :: 0 <= i < |id| ==> id[i] == 0
  {
    var low := Mixed(ip[4..], id);
    Xor6Decoded(reserved, ip, port, id);
    MixedIsSame(ip[4..], id);
    assert ip == ip[..4] + ip[4..] && (ip[..4] + low)[4..] == low;
  }

  // --- the attribute walk --------------------------------------------------

  function Padding(n: nat): nat {
    (4 - n % 4) % 4
  }

  predicate Complete(body: seq<Byte>, off: nat) {
    off + 4 <= |body| && off + 4 + Get16(body, off + 2) <= |body|
  }

  function ValueAt(body: seq<Byte>, off: nat): seq<Byte>
    requires Complete(body, off)
  {
    body[off + 4..off + 4 + Get16(body, off + 2)]
  }

  function NextAt(body: seq<Byte>, off: nat): nat
    requires Complete(body, off)
  {
    off + 4 + Get16(body, off + 2) + Padding(Get16(body, off + 2))
  }

  datatype Attribute = Attribute(kind: Word16, value: seq<Byte>)

  predicate XorOk(a: Attribute) {
    a.kind == XOR_MAPPED_ADDRESS && DecodeXor(a.value).Ok?
  }

  predicate MappedOk(a: Attribute) {
    a.kind == MAPPED_ADDRESS && DecodeMapped(a.value).Ok?
  }

  /** The walk from an offset with the fallback found so far. */
  function Walk(body: seq<Byte>, off: nat, mapped: Option<Address>): Option<Address>
    decreases |body| - off
  {
    if !Complete(body, off) then mapped
    else
      var a := Attribute(Get16(body, off), ValueAt(body, off));
      if XorOk(a) then Some(DecodeXor(a.value).value)
      else Walk(body, NextAt(body, off), Fallback(a, mapped))
  }

  /** The fallback after an attribute. */
  function Fallback(a: Attribute, mapped: Option<Address>): Option<Address> {
    if MappedOk(a) then Some(DecodeMapped(a.value).value) else mapped
  }

  lemma WalkStep(body: seq<Byte>, off: nat, mapped: Option<Address>, a: Attribute)
    requires Complete(body, off) && a == Attribute(Get16(body, off), ValueAt(body, off))
    ensures Walk(body, off, mapped) ==
            if XorOk(a) then Some(DecodeXor(a.value).value) else Walk(body, NextAt(body, off), Fallback(a, mapped))
  {
  }

  method WalkAttributes(body: seq<Byte>) returns (r: Option<Address>)
    ensures r == Walk(body, 0, None)
  {
    ghost var walk := (i: nat, m: Option<Address>) => Walk(body, i, m);
    var mapped: Option<Address> := None;
    var off := 0;
    while off + 4 <= |body|
      invariant walk(off, mapped) == Walk(body, 0, None)
      decreases |body| - off
    {
      if off + 4 + Get16(body, off + 2) > |body| {
        break;
      }
      var a := Attribute(Get16(body, off), ValueAt(body, off));
      WalkStep(body, off, mapped, a);
      if XorOk(a) {
        return Some(DecodeXor(a.value).value);
      }
      mapped := Fallback(a, mapped);
      off := NextAt(body, off);
    }
    return mapped;
  }

  // --- what the walk means -------------------------------------------------

  /** The complete attributes of a body from an offset on. */
  function Attributes(body: seq<Byte>, off: nat): seq<Attribute>
    decreases |body| - off
  {
    if !Complete(body, off) then []
    else [Attribute(Get16(body, off), ValueAt(body, off))] + Attributes(body, NextAt(body, off))
  }

  function FirstXor(attrs: seq<Attribute>): Option<Address> {
    if attrs == [] then None
    else if XorOk(attrs[0]) then Some(DecodeXor(attrs[0].value).value)
    else FirstXor(attrs[1..])
  }

  function LastMapped(attrs: seq<Attribute>): Option<Address> {
    if attrs == [] then None
    else
      var last := attrs[|attrs| - 1];
      if MappedOk(last) then Some(DecodeMapped(last.value).value) else LastMapped(attrs[..|attrs| - 1])
  }

  function OrElse(a: Option<Address>, b: Option<Address>): Option<Address> {
    if a.Some? then a else b
  }

  /** The first decodable XOR-MAPPED-ADDRESS, else the last decodable MAPPED-ADDRESS. */
  function Preferred(attrs: seq<Attribute>): Option<Address> {
    OrElse(FirstXor(attrs), LastMapped(attrs))
  }

  lemma {:induction false} LastMappedFirst(attrs: seq<Attribute>)
    requires attrs != []
    ensures LastMapped(attrs) ==
            OrElse(LastMapped(attrs[1..]), if MappedOk(attrs[0]) then Some(DecodeMapped(attrs[0].value).value) else None)
  {
    if |attrs| > 1 {
      var front := attrs[..|attrs| - 1];
      LastMappedFirst(front);
      assert attrs[1..][..|attrs| - 2] == front[1..];
    }
  }

  lemma {:induction false} WalkFrom(body: seq<Byte>, off: nat, mapped: Option<Address>)
    ensures Walk(body, off, mapped) == OrElse(Preferred(Attributes(body, off)), mapped)
    decreases |body| - off
  {
    if Complete(body, off) {
      var a := Attribute(Get16(body, off), ValueAt(body, off));
      var rest := Attributes(body, NextAt(body, off));
      assert ([a] + rest)[1..] == rest;
      LastMappedFirst([a] + rest);
      if !XorOk(a) {
        WalkFrom(body, NextAt(body, off), Fallback(a, mapped));
      }
    }
  }

  /** Whatever the body, the walk chooses among its complete attributes. */
  lemma WalkIsPreferred(body: seq<Byte>)
    ensures Walk(body, 0, None) == Preferred(Attributes(body, 0))
  {
    WalkFrom(body, 0, None);
  }

  /** One attribute on the wire; receivers ignore what the padding holds. */
  function AttributeBytes(a: Attribute, padding: seq<Byte>): seq<Byte> {
    Put16(a.kind) + Put16(|a.value|) + a.value + padding
  }

  predicate Fits(a: Attribute, padding: seq<Byte>) {
    |a.value| < 65536 && |padding| == Padding(|a.value|)
  }

  /** Section 15 of RFC 5389: attributes one after the other, each padded to a multiple of four bytes. */
  function Serialized(attrs: seq<Attribute>, paddings: seq<seq<Byte>>): seq<Byte>
    requires |attrs| == |paddings|
  {
    if attrs == [] then [] else AttributeBytes(attrs[0], paddings[0]) + Serialized(attrs[1..], paddings[1..])
  }

  lemma ReadsAttribute(body: seq<Byte>, off: nat, a: Attribute, padding: seq<Byte>, rest: seq<Byte>)
    requires off <= |body| && body[off..] == AttributeBytes(a, padding) + rest && Fits(a, padding)
    ensures Complete(body, off) && Attribute(Get16(body, off), ValueAt(body, off)) == a
    ensures NextAt(body, off) == off + |AttributeBytes(a, padding)| && body[NextAt(body, off)..] == rest
  {
    var bytes := AttributeBytes(a, padding);
    var here := body[off..];
    assert here[0] == body[off] && here[1] == body[off + 1] && here[2] == body[off + 2] && here[3] == body[off + 3];
    assert here[0] == bytes[0] && here[1] == bytes[1] && here[2] == bytes[2] && here[3] == bytes[3];
    assert Get16(body, off + 2) == |a.value|;
    assert here[4..4 + |a.value|] == a.value == body[off + 4..off + 4 + |a.value|];
    assert here[|bytes|..] == rest == body[off + |bytes|..];
  }

  lemma CompleteInTail(body: seq<Byte>, off: nat, tail: seq<Byte>)
    requires off <= |body| && body[off..] == tail
    ensures Complete(body, off) <==> Complete(tail, 0)
  {
    if |tail| >= 4 {
      assert tail[2] == body[off + 2] && tail[3] == body[off + 3];
    }
  }

  /** Reading the attributes inverts writing them, up to a tail too short to hold another one. */
  lemma {:induction false} AttributesOfSerialized(body: seq<Byte>, off: nat, attrs: seq<Attribute>,
                                                  paddings: seq<seq<Byte>>, tail: seq<Byte>)
    requires |attrs| == |paddings| && forall i :: 0 <= i < |attrs| ==> Fits(attrs[i], paddings[i])
    requires off <= |body| && body[off..] == Serialized(attrs, paddings) + tail && !Complete(tail, 0)
    ensures Attributes(body, off) == attrs
    decreases |attrs|
  {
    if attrs == [] {
      assert Serialized(attrs, paddings) + tail == tail;
      CompleteInTail(body, off, tail);
    } else {
      var first, rest := AttributeBytes(attrs[0], paddings[0]), Serialized(attrs[1..], paddings[1..]);
      assert (first + rest) + tail == first + (rest + tail);
      ReadsAttribute(body, off, attrs[0], paddings[0], rest + tail);
      AttributesOfSerialized(body, NextAt(body, off), attrs[1..], paddings[1..], tail);
      assert [attrs[0]] + attrs[1..] == attrs;
    }
  }

  // --- the whole response --------------------------------------------------

  datatype ResponseError =
    | ResponseTooShort | ErrorResponse | UnexpectedType | CookieMismatch | IdMismatch | TruncatedBody | NoMappedAddress

  /** What is wrong with a response before its attributes are looked at. */
  function HeaderError(msg: seq<Byte>, id: TransactionId): Option<ResponseError> {
    if |msg| < HEADER then Some(ResponseTooShort)
    else if Get16(msg, 0) == FAILURE then Some(ErrorResponse)
    else if Get16(msg, 0) != SUCCESS then Some(UnexpectedType)
    else if Word(msg[4..8]) != MAGIC then Some(CookieMismatch)
    else if msg[8..20] != id then Some(IdMismatch)
    else if |msg| < HEADER + Get16(msg, 2) then Some(TruncatedBody)
    else None
  }

  function Parsed(msg: seq<Byte>, id: TransactionId): Result<Address, ResponseError> {
    match HeaderError(msg, id)
    case Some(e) => Err(e)
    case None => (match Walk(msg[HEADER..HEADER + Get16(msg, 2)], 0, None)
                  case Some(a) => Ok(a)
                  case None => Err(NoMappedAddress))
  }

  method CheckHeader(msg: seq<Byte>, expected: TransactionId) returns (r: Option<ResponseError>)
    ensures r == HeaderError(msg, expected)
  {
    if |msg| < HEADER {
      return Some(ResponseTooShort);
    }
    var kind := Get16(msg, 0);
    if kind != SUCCESS {
      if kind == FAILURE {
        return Some(ErrorResponse);
      }
      return Some(UnexpectedType);
    }
    if Word(msg[4..8]) != MAGIC {
      return Some(CookieMismatch);
    }
    if msg[8..20] != expected {
      return Some(IdMismatch);
    }
    if |msg| < HEADER + Get16(msg, 2) {
      return Some(TruncatedBody);
    }
    return None;
  }

  /** The end of the body, computed in 16 bits, wraps around in a message long enough to hold it. */
  predicate Wraps(msg: seq<Byte>) {
    |msg| >= HEADER && 65536 <= HEADER + Get16(msg, 2) <= |msg|
  }

  /** The announced body of a message whose end does not wrap. */
  method Body(msg: seq<Byte>) returns (body: seq<Byte>)
    requires |msg| >= HEADER && HEADER + Get16(msg, 2) <= |msg| && !Wraps(msg)
    ensures body == msg[HEADER..HEADER + Get16(msg, 2)]
  {
    var end := (HEADER + Get16(msg, 2)) % 65536;
    return msg[HEADER..end];
  }

  /** Every message whose body end does not wrap; no datagram of at most 65535 bytes does. */
  method ParseBindingResponse(msg: seq<Byte>, expected: TransactionId) returns (r: Result<Address, ResponseError>)
    requires !Wraps(msg)
    ensures r == Parsed(msg, expected)
  {
    var bad := CheckHeader(msg, expected);
    if bad.Some? {
      return Err(bad.value);
    }
    var body := Body(msg);
    var found := WalkAttributes(body);
    if found.Some? {
      return Ok(found.value);
    }
    return Err(NoMappedAddress);
  }

  /** Section 6 of RFC 5389: a success response around a body. */
  function Response(id: TransactionId, body: seq<Byte>): seq<Byte> {
    Put16(SUCCESS) + Put16(|body|) + [0x21, 0x12, 0xA4, 0x42] + id + body
  }

  lemma WordOf4(bs: seq<Byte>, a: int, b: int, c: int, d: int)
    requires |bs| == 4 && a == bs[0] && b == bs[1] && c == bs[2] && d == bs[3]
    ensures Word(bs) == 256 * (256 * (256 * a + b) + c) + d
  {
    var b3, b2, b1 := bs[..3], bs[..3][..2], bs[..3][..2][..1];
    assert b1[..0] == [];
    assert Word(b1) == a && Word(b2) == 256 * a + b;
  }

  lemma ResponseParts(id: TransactionId, body: seq<Byte>, extra: seq<Byte>)
    requires |body| < 65536
    ensures var msg := Response(id, body) + extra;
            && |msg| >= HEADER + |body| && Get16(msg, 0) == SUCCESS && Get16(msg, 2) == |body|
            && Word(msg[4..8]) == MAGIC && msg[8..20] == id && msg[HEADER..HEADER + |body|] == body
  {
    var msg := Response(id, body) + extra;
    var cookie: seq<Byte> := [0x21, 0x12, 0xA4, 0x42];
    assert msg[4..8] == cookie;
    WordOf4(cookie, 0x21, 0x12, 0xA4, 0x42);
  }

  /**
   * A success response with our transaction identifier is read as its first decodable XOR-MAPPED-ADDRESS,
   * else as its last decodable MAPPED-ADDRESS, else as an error.
   */
  lemma ParseOfResponse(id: TransactionId, attrs: seq<Attribute>, paddings: seq<seq<Byte>>, tail: seq<Byte>,
                        extra: seq<Byte>)
    requires |attrs| == |paddings| && forall i :: 0 <= i < |attrs| ==> Fits(attrs[i], paddings[i])
    requires !Complete(tail, 0) && |Serialized(attrs, paddings) + tail| < 65536
    ensures var msg := Response(id, Serialized(attrs, paddings) + tail) + extra;
            Parsed(msg, id) == match Preferred(attrs) case Some(a) => Ok(a) case None => Err(NoMappedAddress)
  {
    var body := Serialized(attrs, paddings) + tail;
    ResponseParts(id, body, extra);
    assert body[0..] == body;
    AttributesOfSerialized(body, 0, attrs, paddings, tail);
    WalkIsPreferred(body);
  }

  lemma ResponseOfParts(msg: seq<Byte>, id: TransactionId, n: nat)
    requires HEADER + n <= |msg| && Get16(msg, 0) == SUCCESS && Get16(msg, 2) == n
    requires Word(msg[4..8]) == MAGIC && msg[8..20] == id
    ensures msg == Response(id, msg[HEADER..HEADER + n]) + msg[HEADER + n..]
  {
    var bs := msg[4..8];
    WordOf4(bs, bs[0], bs[1], bs[2], bs[3]);
    assert bs == [0x21, 0x12, 0xA4, 0x42];
    assert msg[0..2] == Put16(SUCCESS) && msg[2..4] == Put16(n);
    assert msg == msg[0..2] + msg[2..4] + msg[4..8] + msg[8..20] + msg[HEADER..HEADER + n] + msg[HEADER + n..];
  }

  /** An address comes only from a success response with our transaction identifier, and is the preferred one in it. */
  lemma OnlyOurResponses(msg: seq<Byte>, id: TransactionId)
    requires Parsed(msg, id).Ok?
    ensures |msg| >= HEADER && HEADER + Get16(msg, 2) <= |msg|
    ensures var n := Get16(msg, 2);
            && msg == Response(id, msg[HEADER..HEADER + n]) + msg[HEADER + n..]
            && Preferred(Attributes(msg[HEADER..HEADER + n], 0)) == Some(Parsed(msg, id).value)
  {
    var n := Get16(msg, 2);
    ResponseOfParts(msg, id, n);
    WalkIsPreferred(msg[HEADER..HEADER + n]);
  }

  /** The first fault of the header decides the error, read from the bytes alone. */
  lemma HeaderErrors(msg: seq<Byte>, id: TransactionId)
    ensures |msg| < 20 <==> Parsed(msg, id) == Err(ResponseTooShort)
    ensures |msg| >= 20 && msg[..2] == [1, 0x11] <==> Parsed(msg, id) == Err(ErrorResponse)
    ensures |msg| >= 20 && msg[..2] != [1, 1] && msg[..2] != [1, 0x11] <==> Parsed(msg, id) == Err(UnexpectedType)
    ensures |msg| >= 20 && msg[..2] == [1, 1] && msg[4..8] != [0x21, 0x12, 0xA4, 0x42]
            <==> Parsed(msg, id) == Err(CookieMismatch)
    ensures |msg| >= 20 && msg[..2] == [1, 1] && msg[4..8] == [0x21, 0x12, 0xA4, 0x42] && msg[8..20] != id
            <==> Parsed(msg, id) == Err(IdMismatch)
    ensures (&& |msg| >= 20 && msg[..2] == [1, 1] && msg[4..8] == [0x21, 0x12, 0xA4, 0x42] && msg[8..20] == id
             && |msg| < 20 + Word(msg[2..4])) <==> Parsed(msg, id) == Err(TruncatedBody)
  {
    if |msg| >= 20 {
      var bs := msg[4..8];
      WordOf4(bs, bs[0], bs[1], bs[2], bs[3]);
      assert Word(bs) == MAGIC <==> bs == [0x21, 0x12, 0xA4, 0x42];
      assert msg[..2] == [msg[0], msg[1]] && msg[2..4] == [msg[2], msg[3]];
      WordLast([msg[2]], msg[3]);
      WordLast([], msg[2]);
    }
  }

  /** A response holding one attribute, byte for byte. */
  function Smallest(id: TransactionId, kind: Byte, val: seq<Byte>): seq<Byte>
    requires |val| < 252
  {
    [1, 1, 0, |val| + 4, 0x21, 0x12, 0xA4, 0x42] + id + [0, kind, 0, |val|] + val
  }

  lemma ParseOfSmallest(id: TransactionId, kind: Byte, val: seq<Byte>, a: Attribute)
    requires |val| < 252 && |val| % 4 == 0 && a == Attribute(kind, val)
    ensures Parsed(Smallest(id, kind, val), id)
            == match Preferred([a]) case Some(x) => Ok(x) case None => Err(NoMappedAddress)
  {
    var none: seq<Byte> := [];
    var body := Serialized([a], [none]) + none;
    assert Serialized([a][1..], [none][1..]) == [];
    assert body == [0, kind, 0, |val|] + val;
    assert Response(id, body) + none == Smallest(id, kind, val);
    ParseOfResponse(id, [a], [none], none, none);
  }

  lemma PreferredOne(a: Attribute)
    ensures XorOk(a) ==> Preferred([a]) == Some(DecodeXor(a.value).value)
    ensures !XorOk(a) && MappedOk(a) ==> Preferred([a]) == Some(DecodeMapped(a.value).value)
    ensures !XorOk(a) && !MappedOk(a) ==> Preferred([a]) == None
  {
    var one := [a];
    assert one[1..] == [] && one[..0] == [] && one[0] == a;
    assert FirstXor(one[1..]) == None && LastMapped(one[..0]) == None;
  }

  /** Attribute 0x0020 is read as XOR-MAPPED-ADDRESS, 0x0001 as MAPPED-ADDRESS, and an undecodable one as nothing. */
  lemma SmallestResponses(id: TransactionId, val: seq<Byte>)
    requires |val| < 252 && |val| % 4 == 0
    ensures Parsed(Smallest(id, 0x20, val), id)
            == if DecodeXor(val).Ok? then Ok(DecodeXor(val).value) else Err(NoMappedAddress)
    ensures Parsed(Smallest(id, 0x01, val), id)
            == if DecodeMapped(val).Ok? then Ok(DecodeMapped(val).value) else Err(NoMappedAddress)
  {
    var xor, mapped := Attribute(0x0020, val), Attribute(0x0001, val);
    ParseOfSmallest(id, 0x20, val, xor);
    ParseOfSmallest(id, 0x01, val, mapped);
    PreferredOne(xor);
    PreferredOne(mapped);
  }
}
