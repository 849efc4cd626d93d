/** The packets inside the SLIP frames: two headers, two XOR checksums, and the validator. */
module Packet {
  import opened Wrappers
  import opened Slip

  const PACKET_HDR := 4
  const MSG_HDR := 4

  type Word = w: int | 0 <= w < 0x10000

  /** A validated message. `data` is what the frame holds of the `length` announced bytes. */
  datatype Message = Message(kind: Word, length: Word, data: seq<Byte>)

  // ----- exclusive or

  /** Exclusive or of two `width`-bit numbers, binary digit by binary digit. */
  function BitXor(a: nat, b: nat, width: nat): nat {
    if width == 0 then 0 else (a + b) % 2 + 2 * BitXor(a / 2, b / 2, width - 1)
  }

  function Pow2(k: nat): nat {
    if k == 0 then 1 else 2 * Pow2(k - 1)
  }

  lemma {:induction false} BitXorBounded(a: nat, b: nat, width: nat)
    ensures BitXor(a, b, width) < Pow2(width)
  {
    if width != 0 { BitXorBounded(a / 2, b / 2, width - 1); }
  }

  function XorByte(a: Byte, b: Byte): Byte {
    BitXorBounded(a, b, 8);
    assert Pow2(8) == 256 by { assert Pow2(4) == 16; }
    BitXor(a, b, 8)
  }

  lemma SameDigits(p: nat, x: nat, q: nat, y: nat)
    requires p < 2 && q < 2
    ensures p + 2 * x == q + 2 * y ==> p == q && x == y
  {}

  lemma LastDigitDetermined(a: nat, b: nat, c: nat)
    ensures (a + b) % 2 == (a + c) % 2 && b / 2 == c / 2 ==> b == c
  {}

  /** Each operand is determined by the other one and the result. */
  lemma {:induction false} BitXorInjective(a: nat, b: nat, c: nat, width: nat)
    requires b < Pow2(width) && c < Pow2(width)
    ensures BitXor(a, b, width) == BitXor(a, c, width) ==> b == c
    ensures BitXor(b, a, width) == BitXor(c, a, width) ==> b == c
  {
    if width != 0 {
      BitXorInjective(a / 2, b / 2, c / 2, width - 1);
      SameDigits((a + b) % 2, BitXor(a / 2, b / 2, width - 1), (a + c) % 2, BitXor(a / 2, c / 2, width - 1));
      SameDigits((a + b) % 2, BitXor(b / 2, a / 2, width - 1), (a + c) % 2, BitXor(c / 2, a / 2, width - 1));
      LastDigitDetermined(a, b, c);
    }
  }

  lemma XorByteInjective(a: Byte, b: Byte, c: Byte)
    ensures XorByte(a, b) == XorByte(a, c) ==> b == c
    ensures XorByte(b, a) == XorByte(c, a) ==> b == c
  {
    assert Pow2(8) == 256 by { assert Pow2(4) == 16; }
    BitXorInjective(a, b, c, 8);
  }

  function Xor(base: Byte, bytes: seq<Byte>): Byte {
    if bytes == [] then base else XorByte(Xor(base, bytes[..|bytes| - 1]), bytes[|bytes| - 1])
  }

  /** Binary digit `k` of a number. */
  function Bit(n: nat, k: nat): (d: nat)
    ensures d < 2
  {
    PowIsPositive(k);
    n / Pow2(k) % 2
  }

  lemma {:induction false} PowIsPositive(k: nat)
    ensures Pow2(k) > 0
  {
    if k > 0 {
      PowIsPositive(k - 1);
    }
  }

  lemma HalveThenDivide(n: nat, p: nat)
    requires p > 0
    ensures n / (2 * p) == n / 2 / p
  {
    var q, r := n / (2 * p), n % (2 * p);
    assert n == 2 * (p * q) + r;
    assert n / 2 == p * q + r / 2;
    assert r / 2 < p;
    QuotientIs(n / 2, p, q, r / 2);
  }

  lemma QuotientIs(n: nat, p: nat, q: nat, r: nat)
    requires r < p && n == p * q + r
    ensures n / p == q
  {
    var d := n / p - q;
    assert n == p * (n / p) + n % p;
    assert p * (n / p) - p * q == p * d;
    assert p * d == r - n % p;
    ProductIsFar(p, d);
  }

  lemma ProductIsFar(p: int, d: int)
    requires p > 0
    ensures (d > 0 ==> p * d >= p) && (d < 0 ==> p * d <= -p)
  {}

  /** The digits behind the last one are those of the half. */
  lemma BitOfHalf(n: nat, k: nat)
    ensures Bit(n, 0) == n % 2 && Bit(n, k + 1) == Bit(n / 2, k)
  {
    PowIsPositive(k);
    HalveThenDivide(n, Pow2(k));
    assert Pow2(0) == 1;
  }

  /** The last digit and the half of a number given by them. */
  lemma DigitAndHalf(d: nat, h: nat)
    requires d < 2
    ensures (d + 2 * h) % 2 == d && (d + 2 * h) / 2 == h
  {}

  /** The last digit of a sum tells whether the last digits differ. */
  lemma DigitsDiffer(a: nat, b: nat)
    ensures (a + b) % 2 == 1 <==> a % 2 != b % 2
  {}

  lemma {:induction false} BitXorBit(a: nat, b: nat, width: nat, k: nat)
    requires k < width
    ensures Bit(BitXor(a, b, width), k) == 1 <==> Bit(a, k) != Bit(b, k)
    decreases width
  {
    var d, half := (a + b) % 2, BitXor(a / 2, b / 2, width - 1);
    DigitAndHalf(d, half);
    var before := if k == 0 then 0 else k - 1;
    BitOfHalf(d + 2 * half, before);
    BitOfHalf(a, before);
    BitOfHalf(b, before);
    if k == 0 {
      DigitsDiffer(a, b);
    } else {
      BitXorBit(a / 2, b / 2, width - 1, k - 1);
    }
  }

  /** Exclusive or: a bit of the result is set exactly when the operands differ in it. */
  lemma XorByteBit(a: Byte, b: Byte, k: nat)
    requires k < 8
    ensures Bit(XorByte(a, b), k) == 1 <==> Bit(a, k) != Bit(b, k)
  {
    BitXorBit(a, b, 8, k);
  }

  /** How many bytes have bit `k` set. */
  function SetBits(bytes: seq<Byte>, k: nat): nat {
    if bytes == [] then 0 else SetBits(bytes[..|bytes| - 1], k) + Bit(bytes[|bytes| - 1], k)
  }

  /** A bit of the checksum is the parity of that bit over the base and all bytes. */
  lemma {:induction false} XorIsParity(base: Byte, bytes: seq<Byte>, k: nat)
    requires k < 8
    ensures Bit(Xor(base, bytes), k) == (Bit(base, k) + SetBits(bytes, k)) % 2
  {
    if bytes != [] {
      var front, last := bytes[..|bytes| - 1], bytes[|bytes| - 1];
      XorIsParity(base, front, k);
      XorByteBit(Xor(base, front), last, k);
      NextParity(Bit(base, k) + SetBits(front, k), Bit(last, k));
    }
  }

  lemma NextParity(n: nat, d: nat)
    requires d < 2
    ensures (n + d) % 2 == if n % 2 == d then 0 else 1
  {}

  /** The exclusive or of all bytes, bit by bit. */
  method CalculateBytesXor(base: Byte, bytes: seq<Byte>) returns (val: Byte)
    ensures val == Xor(base, bytes)
    ensures forall k: nat :: k < 8 ==> Bit(val, k) == (Bit(base, k) + SetBits(bytes, k)) % 2
  {
    forall k: nat | k < 8
      ensures Bit(Xor(base, bytes), k) == (Bit(base, k) + SetBits(bytes, k)) % 2
    {
      XorIsParity(base, bytes, k);
    }
    val := base;
    for num := 0 to |bytes|
      invariant val == Xor(base, bytes[..num])
    {
      assert bytes[..num + 1][..num] == bytes[..num];
      val := XorByte(val, bytes[num]);
    }
    assert bytes[..|bytes|] == bytes;
  }

  // ----- the validator

  /** The little-endian 16-bit field at an offset. */
  function Le16(buf: seq<Byte>, at: nat): Word
    requires at + 1 < |buf|
  {
    buf[at] + 256 * (buf[at + 1] as int)
  }

  function Lo(n: Word): Byte {
    n % 256
  }

  function Hi(n: Word): Byte {
    n / 256
  }

  predicate HeaderOk(buf: seq<Byte>) {
    |buf| >= PACKET_HDR + MSG_HDR && Xor(0, buf[..PACKET_HDR - 1]) == buf[3]
  }

  /** With flag bit 0 the byte that ends the frame is the checksum of message header and payload. */
  predicate PayloadOk(buf: seq<Byte>, n: nat)
    requires |buf| >= PACKET_HDR + MSG_HDR
  {
    buf[0] % 2 == 1 ==>
      |buf| - PACKET_HDR - MSG_HDR > n && Xor(0, buf[4..8 + n]) == buf[|buf| - 1]
  }

  function Validate(buf: seq<Byte>): Option<Message> {
    if !HeaderOk(buf) then None
    else
      var n := Le16(buf, 6);
      if Le16(buf, 1) != MSG_HDR + n || !PayloadOk(buf, n) then None
      else Some(Message(Le16(buf, 4), n, if 8 + n <= |buf| then buf[8..8 + n] else buf[8..]))
  }

  // ----- error detection

  /** A checksum notices any change of a single byte. */
  lemma {:induction false} XorNotices(base: Byte, s: seq<Byte>, i: nat, x: Byte)
    requires i < |s| && x != s[i]
    ensures Xor(base, s[i := x]) != Xor(base, s)
  {
    var last := |s| - 1;
    if i < last {
      assert s[i := x][..last] == s[..last][i := x];
      XorNotices(base, s[..last], i, x);
      XorByteInjective(s[last], Xor(base, s[..last]), Xor(base, s[..last][i := x]));
    } else {
      assert s[i := x][..last] == s[..last];
      XorByteInjective(Xor(base, s[..last]), s[last], x);
    }
  }

  /** A packet with the payload checksum that fills its frame exactly. */
  predicate WellFormed(p: seq<Byte>) {
    Validate(p).Some? && p[0] % 2 == 1 && |p| == PACKET_HDR + MSG_HDR + 1 + Le16(p, 6)
  }

  /** Damage in the packet header shows in the header checksum. */
  lemma HeaderByteProtected(p: seq<Byte>, i: nat, x: Byte)
    requires WellFormed(p) && i < PACKET_HDR && x != p[i]
    ensures Validate(p[i := x]).None?
  {
    if i < 3 {
      assert p[i := x][..3] == p[..3][i := x];
      XorNotices(0, p[..3], i, x);
    } else {
      assert p[i := x][..3] == p[..3];
    }
  }

  /** Damage in the type, the payload or the trailing byte shows in the payload checksum. */
  lemma BodyByteProtected(p: seq<Byte>, i: nat, x: Byte)
    requires WellFormed(p) && 4 <= i < |p| && i != 6 && i != 7 && x != p[i]
    ensures Validate(p[i := x]).None?
  {
    var q := p[i := x];
    var n: nat := Le16(p, 6);
    if i < 8 + n {
      assert q[4..8 + n] == p[4..8 + n][i - 4 := x];
      XorNotices(0, p[4..8 + n], i - 4, x);
    } else {
      assert q[4..8 + n] == p[4..8 + n];
    }
  }

  /** Any single damaged byte makes the validator drop the packet; a damaged length field is caught
      by the length in the packet header. */
  lemma {:induction false} SubstitutionRejected(p: seq<Byte>, i: nat, x: Byte)
    requires WellFormed(p) && i < |p| && x != p[i]
    ensures Validate(p[i := x]).None?
  {
    if i < PACKET_HDR {
      HeaderByteProtected(p, i, x);
    } else if i != 6 && i != 7 {
      BodyByteProtected(p, i, x);
    }
  }

  // ----- building a packet

  function Header(flags: Byte, length: nat): seq<Byte>
    requires length + MSG_HDR < 0x10000
  {
    var h := [flags, Lo(length + MSG_HDR), Hi(length + MSG_HDR)];
    h + [Xor(0, h)]
  }

  function Body(kind: Word, payload: seq<Byte>): seq<Byte>
    requires |payload| < 0x10000
  {
    [Lo(kind), Hi(kind), Lo(|payload|), Hi(|payload|)] + payload
  }

  /** The packet of a message, with the payload checksum. */
  function Build(flags: Byte, kind: Word, payload: seq<Byte>): seq<Byte>
    requires |payload| + MSG_HDR < 0x10000
  {
    Header(flags, |payload|) + Body(kind, payload) + [Xor(0, Body(kind, payload))]
  }

  /** Where the fields of a built packet lie. */
  lemma BuildLayout(flags: Byte, kind: Word, payload: seq<Byte>)
    requires |payload| + MSG_HDR < 0x10000
    ensures var p, body := Build(flags, kind, payload), Body(kind, payload);
            && |p| == 9 + |payload| && p[..8] == Header(flags, |payload|) + body[..4]
            && p[4..8 + |payload|] == body && p[8 + |payload|] == Xor(0, body)
            && p[8..8 + |payload|] == payload
  {
    var p, body := Build(flags, kind, payload), Body(kind, payload);
    assert p[4..8 + |payload|] == body;
    assert p[8..8 + |payload|] == payload;
  }

  lemma BuiltHeaders(p: seq<Byte>, flags: Byte, kind: Word, payload: seq<Byte>)
    requires |payload| + MSG_HDR < 0x10000 && |p| >= 8
    requires p[..8] == Header(flags, |payload|) + Body(kind, payload)[..4]
    ensures HeaderOk(p) && p[0] == flags && Le16(p, 1) == MSG_HDR + |payload|
    ensures Le16(p, 4) == kind && Le16(p, 6) == |payload|
  {
    var h := Header(flags, |payload|);
    assert p[..3] == p[..8][..3] == h[..3] == [flags, Lo(|payload| + MSG_HDR), Hi(|payload| + MSG_HDR)];
    assert p[3] == p[..8][3] == h[3];
    assert p[1] == p[..8][1] && p[2] == p[..8][2];
    assert p[4] == p[..8][4] && p[5] == p[..8][5] && p[6] == p[..8][6] && p[7] == p[..8][7];
  }

  /** A built packet is well formed and validates to the message it was built from. */
  lemma {:induction false} BuildValidates(flags: Byte, kind: Word, payload: seq<Byte>)
    requires flags % 2 == 1 && |payload| + MSG_HDR < 0x10000
    ensures WellFormed(Build(flags, kind, payload))
    ensures Validate(Build(flags, kind, payload)) == Some(Message(kind, |payload|, payload))
  {
    var p := Build(flags, kind, payload);
    BuildLayout(flags, kind, payload);
    BuiltHeaders(p, flags, kind, payload);
  }

  /** The bytes of the two headers in front of a payload of `n` bytes. */
  function Headers(flags: Byte, kind: Word, n: nat): seq<Byte>
    requires n + MSG_HDR < 0x10000
  {
    Header(flags, n) + [kind % 256, kind / 256, n % 256, n / 256]
  }

  lemma SplitWord(lo: Byte, hi: Byte, n: int)
    requires n == lo + 256 * (hi as int)
    ensures n % 256 == lo && n / 256 == hi
  {}

  lemma HeadersAre(buf: seq<Byte>, kind: Word, n: Word)
    requires |buf| >= 8 && Xor(0, buf[..3]) == buf[3]
    requires Le16(buf, 1) == n + MSG_HDR && Le16(buf, 4) == kind && Le16(buf, 6) == n
    ensures n + MSG_HDR < 0x10000 && buf[..8] == Headers(buf[0], kind, n)
  {
    SplitWord(buf[1], buf[2], n + MSG_HDR);
    SplitWord(buf[4], buf[5], kind);
    SplitWord(buf[6], buf[7], n);
    assert buf[..3] == [buf[0], buf[1], buf[2]];
    assert Header(buf[0], n) == [buf[0], buf[1], buf[2]] + [buf[3]];
  }

  lemma AcceptedHeaders(buf: seq<Byte>)
    requires Validate(buf).Some?
    ensures var m := Validate(buf).value;
            && |buf| >= 8
            && m.kind == buf[4] + 256 * (buf[5] as int) && m.length == buf[6] + 256 * (buf[7] as int)
            && m.length + MSG_HDR < 0x10000 && buf[..8] == Headers(buf[0], m.kind, m.length)
  {
    HeadersAre(buf, Validate(buf).value.kind, Validate(buf).value.length);
  }

  lemma HeadersAccepted(buf: seq<Byte>, kind: Word, n: nat)
    requires |buf| >= 8 && n + MSG_HDR < 0x10000 && buf[..8] == Headers(buf[0], kind, n)
    ensures HeaderOk(buf) && Le16(buf, 1) == MSG_HDR + n
    ensures Le16(buf, 4) == kind && Le16(buf, 6) == n
  {
    var h := Headers(buf[0], kind, n);
    assert buf[1] == h[1] && buf[2] == h[2] && buf[3] == h[3];
    assert buf[4] == h[4] && buf[5] == h[5] && buf[6] == h[6] && buf[7] == h[7];
    assert buf[..3] == [buf[0], Lo(n + MSG_HDR), Hi(n + MSG_HDR)];
  }

  /** Which frames the validator accepts, and as what: the headers must be those of the message. With an odd
      flag byte the payload must be there whole, with at least one byte behind it, and the last byte of the
      frame must be its checksum; with an even one whatever is there of the payload is taken. */
  lemma AcceptedIff(buf: seq<Byte>, m: Message)
    requires buf != []
    ensures Validate(buf) == Some(m) <==>
      && m.length + MSG_HDR < 0x10000 && |buf| >= 8 && buf[..8] == Headers(buf[0], m.kind, m.length)
      && if buf[0] % 2 == 1
         then |buf| > 8 + m.length && m.data == buf[8..8 + m.length] && buf[|buf| - 1] == Xor(0, buf[4..8 + m.length])
         else m.data == if 8 + m.length <= |buf| then buf[8..8 + m.length] else buf[8..]
  {
    if Validate(buf).Some? {
      AcceptedHeaders(buf);
    }
    if m.length + MSG_HDR < 0x10000 && |buf| >= 8 && buf[..8] == Headers(buf[0], m.kind, m.length) {
      HeadersAccepted(buf, m.kind, m.length);
    }
  }

  // ----- through the serial line

  /** The messages of the delivered frames, in order. */
  function Dispatched(frames: seq<seq<Byte>>): seq<Message> {
    if frames == [] then []
    else
      var m := Validate(frames[|frames| - 1]);
      Dispatched(frames[..|frames| - 1]) + if m.Some? then [m.value] else []
  }

  lemma DispatchedOneMore(frames: seq<seq<Byte>>, f: seq<Byte>)
    ensures Dispatched(frames + [f]) ==
      Dispatched(frames) + if Validate(f).Some? then [Validate(f).value] else []
  {
    assert (frames + [f])[..|frames|] == frames;
  }

  /** What is left of a payload after encoding and decoding, byte by byte. */
  function Kept(payload: seq<Byte>): seq<Byte> {
    if payload == [] then [] else Heard(Kept(payload[..|payload| - 1]), payload[|payload| - 1])
  }

  lemma {:induction false} KeptIsDecoded(payload: seq<Byte>)
    ensures Decoded(Encode(payload)) == Kept(payload)
  {
    if payload != [] {
      KeptIsDecoded(payload[..|payload| - 1]);
      DecodedStep(payload);
    }
  }

  lemma HeardFirst(was: seq<Byte>, x: Byte)
    requires was != [] && was[0] != ESC
    ensures Heard(was, x) != [] && Heard(was, x)[0] == was[0]
  {}

  lemma {:induction false} KeptFirst(payload: seq<Byte>)
    requires payload != [] && payload[0] != ESC
    ensures Kept(payload) != [] && Kept(payload)[0] == payload[0]
  {
    var front, x := payload[..|payload| - 1], payload[|payload| - 1];
    if front != [] {
      KeptFirst(front);
      HeardFirst(Kept(front), x);
    } else {
      assert Kept(front) == [];
    }
  }

  lemma FirstByteKept(payload: seq<Byte>)
    requires payload != [] && payload[0] != ESC
    ensures Decoded(Encode(payload)) != [] && Decoded(Encode(payload))[0] == payload[0]
  {
    KeptIsDecoded(payload);
    KeptFirst(payload);
  }

  /** What can become of a payload that starts with ESC: nothing is lost; one byte is lost but not the
      first; the first two became one END; or more is lost. */
  ghost predicate Fate(payload: seq<Byte>, kept: seq<Byte>) {
    || kept == payload
    || (|kept| == |payload| - 1 && kept != [] && kept[0] == ESC)
    || (|payload| >= 2 && payload[1] == ESC_END && kept == [END] + payload[2..])
    || |kept| + 2 <= |payload|
  }

  lemma FateOneMore(front: seq<Byte>, was: seq<Byte>, x: Byte)
    requires front != [] && front[0] == ESC && Fate(front, was)
    ensures Fate(front + [x], Heard(was, x))
  {
    var payload := front + [x];
    if was == front {
      assert |front| == 1 && x == ESC_END ==> Heard(was, x) == [END] + payload[2..];
    } else if |was| + 2 > |front| && was != [] && was[0] != ESC {
      assert payload[2..] == front[2..] + [x];
    }
  }

  lemma {:induction false} FateOf(payload: seq<Byte>)
    requires payload != [] && payload[0] == ESC
    ensures Fate(payload, Kept(payload))
  {
    var front, x := payload[..|payload| - 1], payload[|payload| - 1];
    assert payload == front + [x];
    if front == [] {
      assert Kept(payload) == [x];
    } else {
      FateOf(front);
      FateOneMore(front, Kept(front), x);
    }
  }

  /** A damaged frame that keeps the odd flag byte is too short for its payload checksum. */
  lemma FlagKept(f: seq<Byte>, kind: Word, payload: seq<Byte>)
    requires |payload| + MSG_HDR < 0x10000 && |f| < 9 + |payload|
    requires f != [] ==> f[0] % 2 == 1
    ensures Validate(f) != Some(Message(kind, |payload|, payload))
  {}

  lemma Le16Injective(a: Byte, b: Byte, c: Byte, d: Byte)
    requires a + 256 * (b as int) == c + 256 * (d as int)
    ensures a == c && b == d
  {}

  /** One that lost its flag byte would have to repeat length bytes that differ. */
  lemma FlagLost(p: seq<Byte>, n: nat, kind: Word, payload: seq<Byte>)
    requires |p| >= 9 && n == |payload| < 0x10000 && p[1] == ESC_END
    requires Le16(p, 1) == MSG_HDR + n && Le16(p, 6) == n
    ensures Validate([END] + p[2..]) != Some(Message(kind, n, payload))
  {
    var f := [END] + p[2..];
    assert f[1] == p[2] && f[2] == p[3] && f[6] == p[7] && f[7] == p[8];
    if Validate(f).Some? && Validate(f).value.length == n {
      Le16Injective(f[1], f[2], p[1], p[2]);
      Le16Injective(f[6], f[7], p[6], p[7]);
      assert false;
    }
  }

  /** What the receiver makes of an encoded packet: its message if the bytes are clean, and never
      that message otherwise. */
  lemma EncodedPacketValidates(flags: Byte, kind: Word, payload: seq<Byte>)
    requires flags % 2 == 1 && |payload| + MSG_HDR < 0x10000
    ensures Validate(Decoded(Encode(Build(flags, kind, payload)))) == Some(Message(kind, |payload|, payload))
            <==> Clean(Build(flags, kind, payload))
  {
    var p := Build(flags, kind, payload);
    RoundTripExact(p);
    BuildValidates(flags, kind, payload);
    if !Clean(p) {
      DirtyPacketIsLost(p, flags, kind, payload);
    }
  }

  lemma DirtyPacketIsLost(p: seq<Byte>, flags: Byte, kind: Word, payload: seq<Byte>)
    requires flags % 2 == 1 && |payload| + MSG_HDR < 0x10000 && p == Build(flags, kind, payload) && !Clean(p)
    ensures Validate(Decoded(Encode(p))) != Some(Message(kind, |payload|, payload))
  {
    var f := Decoded(Encode(p));
    RoundTripExact(p);
    assert |f| < 9 + |payload| && p[0] == flags;
    if p[0] != ESC {
      FirstByteKept(p);
      FlagKept(f, kind, payload);
    } else if f == [] || f[0] == ESC {
      FlagKept(f, kind, payload);
    } else if |f| == |p| - 1 {
      KeptIsDecoded(p);
      FateOf(p);
      BuildLayout(flags, kind, payload);
      BuiltHeaders(p, flags, kind, payload);
      FlagLost(p, |payload|, kind, payload);
    } else {
      assert Validate(f).Some? && Validate(f).value.length == |payload| ==> |Validate(f).value.data| < |payload|;
    }
  }

  /** A packet sent through the line reaches dispatch with exactly its type, length and payload
      if and only if its bytes are clean. */
  lemma PacketArrivesIffClean(d: Decoding, flags: Byte, kind: Word, payload: seq<Byte>)
    requires d.buf == [] && flags % 2 == 1 && |payload| + MSG_HDR < 0x10000
    ensures var p := Build(flags, kind, payload);
            var d' := Decode(d, Encode(p) + [END]);
            && d'.buf == []
            && (Clean(p) <==> Dispatched(d'.frames) == Dispatched(d.frames) + [Message(kind, |payload|, payload)])
  {
    var p, m := Build(flags, kind, payload), Message(kind, |payload|, payload);
    EncodedPacketValidates(flags, kind, payload);
    DeliveredIffClean(d, p);
    DispatchedOneMore(d.frames, Decoded(Encode(p)));
    var v := Validate(Decoded(Encode(p)));
    if v.Some? && Dispatched(d.frames) + [v.value] == Dispatched(d.frames) + [m] {
      assert (Dispatched(d.frames) + [v.value])[|Dispatched(d.frames)|] == m;
    }
  }
}
