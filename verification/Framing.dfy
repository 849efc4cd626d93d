/**
 Length-framed messages over a byte stream: a fixed-size header that carries the length of the data
 behind it. The stream arrives in arbitrary pieces, mixed with interruptions.
 */
module Framing {
  import Slip
  type Byte = Slip.Byte

  const MAX_RETRIES := 9999
  const LENGTH_OFFSET := 44
  /** The message type with which a client registers at the dispatcher. */
  const CLIENT_INFO := 88

  /** The size of the fixed part of a message, which depends on the platform. */
  type HeaderSize = h: nat | LENGTH_OFFSET + 4 <= h witness 48

  type Chunk = b: seq<Byte> | b != [] witness [0]

  /** What the kernel has in store for a reader: bytes, an `EINTR` or `EAGAIN`, the end of the
      connection, or another error. When nothing is left it answers `EAGAIN`. */
  datatype Segment = Bytes(b: Chunk) | Again | HangUp | Fault

  // ----- what the bytes of a stream are

  function Flat(s: seq<Segment>): seq<Byte> {
    if s == [] || s[0].HangUp? then []
    else (if s[0].Bytes? then s[0].b else []) + Flat(s[1..])
  }

  /** The stream after its first `n` bytes; interruptions before the next byte stay in it. */
  function Drop(s: seq<Segment>, n: nat): seq<Segment>
    requires n <= |Flat(s)|
  {
    if n == 0 then s
    else if s[0].Bytes? then
      if n < |s[0].b| then [Bytes(s[0].b[n..])] + s[1..] else Drop(s[1..], n - |s[0].b|)
    else Drop(s[1..], n)
  }

  /** Interruptions met before the `n`-th byte. */
  function Interruptions(s: seq<Segment>, n: nat): nat
    requires n <= |Flat(s)|
  {
    if n == 0 then 0
    else if s[0].Bytes? then if n <= |s[0].b| then 0 else Interruptions(s[1..], n - |s[0].b|)
    else (if s[0].Again? then 1 else 0) + Interruptions(s[1..], n)
  }

  lemma {:induction false} FlatAfterDrop(s: seq<Segment>, n: nat)
    requires n <= |Flat(s)|
    ensures Flat(Drop(s, n)) == Flat(s)[n..]
  {
    if n > 0 {
      if s[0].Bytes? {
        if n < |s[0].b| {
          var cut := [Bytes(s[0].b[n..])] + s[1..];
          assert cut[1..] == s[1..];
        } else {
          FlatAfterDrop(s[1..], n - |s[0].b|);
        }
      } else {
        FlatAfterDrop(s[1..], n);
      }
    }
  }

  // ----- reading exactly `len` bytes

  datatype Reading = Reading(ret: int, got: seq<Byte>, rest: seq<Segment>)

  /** The retry loop of `recv_ex` from a point where `got` is in the buffer. */
  function Recv(s: seq<Segment>, len: nat, got: seq<Byte>, cnt: nat): (r: Reading)
    requires |got| < len
    ensures |r.got| <= len && (r.ret == len ==> |r.got| == len)
  {
    if s == [] then
      Reading(-1, got, [])
    else match s[0]
      case Bytes(b) =>
        if |b| < len - |got| then
          Recv(s[1..], len, got + b, cnt)
        else
          var n := len - |got|;
          Reading(len, got + b[..n], if n == |b| then s[1..] else [Bytes(b[n..])] + s[1..])
      case Again =>
        if cnt + 1 > MAX_RETRIES then Reading(-1, got, s[1..]) else Recv(s[1..], len, got, cnt + 1)
      case HangUp =>
        Reading(|got|, got, s)
      case Fault =>
        Recv(s[1..], len, got, cnt)
  }

  lemma TakeBehind(got: seq<Byte>, b: seq<Byte>, more: seq<Byte>, n: nat)
    requires |b| <= n <= |b| + |more|
    ensures got + (b + more)[..n] == got + b + more[..n - |b|]
  {
    assert (b + more)[..n] == b + more[..n - |b|];
  }

  /** The next `len` bytes are delivered and the stream goes on right behind them; or the result is short. */
  predicate Exact(s: seq<Segment>, len: nat, got: seq<Byte>, cnt: nat)
    requires |got| < len
  {
    var r, n := Recv(s, len, got, cnt), len - |got|;
    if n <= |Flat(s)| && cnt + Interruptions(s, n) <= MAX_RETRIES
    then r.ret == len && r.got == got + Flat(s)[..n] && r.rest == Drop(s, n)
    else r.ret < len
  }

  lemma ExactMore(s: seq<Segment>, len: nat, got: seq<Byte>, cnt: nat)
    requires s != [] && s[0].Bytes? && |got| + |s[0].b| < len && Exact(s[1..], len, got + s[0].b, cnt)
    ensures Exact(s, len, got, cnt)
  {
    if len - |got| <= |Flat(s)| {
      TakeBehind(got, s[0].b, Flat(s[1..]), len - |got|);
    }
  }

  lemma ExactLast(s: seq<Segment>, len: nat, got: seq<Byte>, cnt: nat)
    requires s != [] && s[0].Bytes? && |got| < len <= |got| + |s[0].b| && cnt <= MAX_RETRIES
    ensures Exact(s, len, got, cnt)
  {
    assert Flat(s)[..len - |got|] == s[0].b[..len - |got|];
  }

  /** It delivers the next `len` bytes, and leaves the stream right behind them, if and only if the
      stream has that many before the connection ends and few enough interruptions on the way.
      Otherwise what it returns is not `len`. */
  lemma {:induction false} RecvExact(s: seq<Segment>, len: nat, got: seq<Byte>, cnt: nat)
    requires |got| < len && cnt <= MAX_RETRIES
    ensures Exact(s, len, got, cnt)
  {
    if s != [] {
      match s[0]
      case Bytes(b) =>
        if |b| < len - |got| {
          RecvExact(s[1..], len, got + b, cnt);
          ExactMore(s, len, got, cnt);
        } else {
          ExactLast(s, len, got, cnt);
        }
      case Again =>
        if cnt + 1 <= MAX_RETRIES {
          RecvExact(s[1..], len, got, cnt + 1);
        }
      case HangUp =>
      case Fault =>
        RecvExact(s[1..], len, got, cnt);
    }
  }

  // ----- messages

  /** A message: the fixed part and the data behind it. */
  datatype Frame = Frame(header: seq<Byte>, data: seq<Byte>)

  datatype Incoming = Broken | DataLost | Whole(frame: Frame)

  /** A little-endian signed 32-bit field. */
  function Int32(header: seq<Byte>, at: nat): int
    requires at + 4 <= |header|
  {
    var low: nat := header[at] as int + 0x100 * (header[at + 1] as int);
    var high: nat := header[at + 2] as int + 0x100 * (header[at + 3] as int);
    var n := low + 0x1_0000 * high;
    if n < 0x8000_0000 then n else n - 0x1_0000_0000
  }

  /** The bytes of a signed 32-bit number, the lowest first. */
  function Bytes32(n: int): seq<Byte>
    requires -0x8000_0000 <= n < 0x8000_0000
  {
    var m := if n < 0 then n + 0x1_0000_0000 else n;
    [m % 0x100, m / 0x100 % 0x100, m / 0x1_0000 % 0x100, m / 0x100_0000]
  }

  lemma FourDigits(m: nat)
    requires m < 0x1_0000_0000
    ensures m == m % 0x100 + 0x100 * (m / 0x100 % 0x100) + 0x1_0000 * (m / 0x1_0000 % 0x100 + 0x100 * (m / 0x100_0000))
  {
    assert m / 0x1_0000 == m / 0x100 / 0x100;
    assert m / 0x100_0000 == m / 0x1_0000 / 0x100;
  }

  /** A field reads back as the number whose bytes it holds. */
  lemma Int32OfBytes(header: seq<Byte>, at: nat, n: int)
    requires at + 4 <= |header| && -0x8000_0000 <= n < 0x8000_0000 && header[at..at + 4] == Bytes32(n)
    ensures Int32(header, at) == n
  {
    var m, b := if n < 0 then n + 0x1_0000_0000 else n, header[at..at + 4];
    assert header[at] == b[0] && header[at + 1] == b[1] && header[at + 2] == b[2] && header[at + 3] == b[3];
    FourDigits(m);
  }

  /** The length field. */
  function DataLen(header: seq<Byte>): int
    requires LENGTH_OFFSET + 4 <= |header|
  {
    Int32(header, LENGTH_OFFSET)
  }

  predicate WellFormed(h: HeaderSize, f: Frame) {
    |f.header| == h && |f.data| == DataLen(f.header)
  }

  function Wire(f: Frame): seq<Byte> {
    f.header + f.data
  }

  function WireAll(fs: seq<Frame>): seq<Byte> {
    if fs == [] then [] else Wire(fs[0]) + WireAll(fs[1..])
  }

  function DataBehind(header: seq<Byte>, s: seq<Segment>): (Incoming, seq<Segment>)
    requires LENGTH_OFFSET + 4 <= |header|
  {
    var n := DataLen(header);
    if n <= 0 then
      (Whole(Frame(header, [])), s)
    else
      var data := Recv(s, n, [], 0);
      if data.ret != n then (DataLost, data.rest) else (Whole(Frame(header, data.got)), data.rest)
  }

  function ReceiveFrame(h: HeaderSize, s: seq<Segment>): (Incoming, seq<Segment>) {
    var head := Recv(s, h, [], 0);
    if head.ret != h then
      (Broken, head.rest)
    else
      DataBehind(head.got, head.rest)
  }

  /** Read up to `k` messages, stopping at the first failure. */
  function ReceiveAll(h: HeaderSize, s: seq<Segment>, k: nat): (seq<Frame>, seq<Segment>)
    decreases k
  {
    if k == 0 then
      ([], s)
    else
      var r := ReceiveFrame(h, s);
      if r.0.Whole? then
        var more := ReceiveAll(h, r.1, k - 1);
        ([r.0.frame] + more.0, more.1)
      else
        ([], r.1)
  }

  /** Neither read of this message meets too many interruptions. */
  predicate Patient(h: HeaderSize, s: seq<Segment>, f: Frame)
    requires |f.header| == h && |Wire(f)| <= |Flat(s)|
  {
    FlatAfterDrop(s, h);
    Interruptions(s, h) <= MAX_RETRIES && Interruptions(Drop(s, h), |f.data|) <= MAX_RETRIES
  }

  lemma {:induction false} DropTwice(s: seq<Segment>, a: nat, b: nat)
    requires a + b <= |Flat(s)|
    ensures b <= |Flat(Drop(s, a))| && Drop(Drop(s, a), b) == Drop(s, a + b)
  {
    FlatAfterDrop(s, a);
    if a > 0 {
      if s[0].Bytes? {
        if a < |s[0].b| {
          DropFromCut(s, a, b);
        } else {
          DropTwice(s[1..], a - |s[0].b|, b);
        }
      } else {
        DropTwice(s[1..], a, b);
      }
    }
  }

  lemma DropFromCut(s: seq<Segment>, a: nat, b: nat)
    requires s != [] && s[0].Bytes? && 0 < a < |s[0].b| && a + b <= |Flat(s)|
    ensures b <= |Flat(Drop(s, a))| && Drop(Drop(s, a), b) == Drop(s, a + b)
  {
    FlatAfterDrop(s, a);
    var cut := Drop(s, a);
    assert cut[1..] == s[1..] && cut[0].b == s[0].b[a..];
    if 0 < b < |cut[0].b| {
      assert s[0].b[a..][b..] == s[0].b[a + b..];
    }
  }

  lemma RecvFromStart(s: seq<Segment>, n: nat)
    requires n > 0
    ensures n <= |Flat(s)| && Interruptions(s, n) <= MAX_RETRIES ==>
              Recv(s, n, [], 0) == Reading(n, Flat(s)[..n], Drop(s, n))
    ensures n <= |Flat(s)| && Interruptions(s, n) > MAX_RETRIES ==> Recv(s, n, [], 0).ret < n
  {
    RecvExact(s, n, [], 0);
    if n <= |Flat(s)| {
      NothingBefore(Flat(s)[..n]);
    }
  }

  /** Interruptions before the stream ends, and whether it ends by a hang-up. */
  function UntilEnd(s: seq<Segment>): (nat, bool) {
    if s == [] then (0, false)
    else if s[0].HangUp? then (0, true)
    else
      var (n, hangs) := UntilEnd(s[1..]);
      (n + if s[0].Again? then 1 else 0, hangs)
  }

  /** On a stream with too few bytes a hang-up gives the number of bytes read so far; everything else, and too
      many interruptions, gives -1. */
  lemma {:induction false} RecvShort(s: seq<Segment>, len: nat, got: seq<Byte>, cnt: nat)
    requires |got| < len && cnt <= MAX_RETRIES && len - |got| > |Flat(s)|
    ensures Recv(s, len, got, cnt).ret ==
            if UntilEnd(s).1 && cnt + UntilEnd(s).0 <= MAX_RETRIES then |got| + |Flat(s)| else -1
  {
    if s != [] {
      match s[0]
      case Bytes(b) => RecvShort(s[1..], len, got + b, cnt);
      case Again =>
        if cnt + 1 <= MAX_RETRIES {
          RecvShort(s[1..], len, got, cnt + 1);
        }
      case HangUp =>
      case Fault => RecvShort(s[1..], len, got, cnt);
    }
  }

  /** The next `n` bytes are there and few enough interruptions come before them. */
  predicate Gives(s: seq<Segment>, n: nat) {
    n <= |Flat(s)| && Interruptions(s, n) <= MAX_RETRIES
  }

  lemma NothingBefore(d: seq<Byte>)
    ensures [] + d == d
  {}

  lemma BytesArriveIff(s: seq<Segment>, d: seq<Byte>)
    requires d != [] && d <= Flat(s)
    ensures Interruptions(s, |d|) <= MAX_RETRIES ==> Recv(s, |d|, [], 0) == Reading(|d|, d, Drop(s, |d|))
    ensures Interruptions(s, |d|) > MAX_RETRIES ==> Recv(s, |d|, [], 0).ret < |d|
  {
    RecvFromStart(s, |d|);
  }

  /** A message on the stream is received as it is if and only if the interruptions allow it, and what
      is left is the stream right behind it. */
  lemma FrameArrivesIff(h: HeaderSize, s: seq<Segment>, f: Frame)
    requires WellFormed(h, f) && Wire(f) <= Flat(s)
    ensures Patient(h, s, f) ==> ReceiveFrame(h, s) == (Whole(f), Drop(s, |Wire(f)|))
    ensures !Patient(h, s, f) ==> !ReceiveFrame(h, s).0.Whole?
  {
    assert f.header == Wire(f)[..h] <= Flat(s);
    BytesArriveIff(s, f.header);
    FlatAfterDrop(s, h);
    if f.data != [] {
      assert Flat(s)[h..][..|f.data|] == Flat(s)[..|Wire(f)|][h..] == Wire(f)[h..] == f.data;
      BytesArriveIff(Drop(s, h), f.data);
      DropTwice(s, h, |f.data|);
    }
  }

  /** What a reader makes of any stream: without a whole fixed part it is broken; a length field that is not
      positive means no data; otherwise the data is read whole or lost. */
  lemma ReceiveFrameIs(h: HeaderSize, s: seq<Segment>)
    ensures ReceiveFrame(h, s).0.Broken? <==> !Gives(s, h)
    ensures Gives(s, h) ==>
              var header, behind := Flat(s)[..h], Drop(s, h);
              var n := Int32(header, 44);
              if n <= 0 then ReceiveFrame(h, s) == (Whole(Frame(header, [])), behind)
              else if Gives(behind, n) then
                ReceiveFrame(h, s) == (Whole(Frame(header, Flat(behind)[..n])), Drop(behind, n))
              else ReceiveFrame(h, s).0.DataLost?
  {
    RecvExact(s, h, [], 0);
    RecvFromStart(s, h);
    if Gives(s, h) {
      var header, behind := Flat(s)[..h], Drop(s, h);
      if DataLen(header) > 0 {
        RecvExact(behind, DataLen(header), [], 0);
        RecvFromStart(behind, DataLen(header));
      }
    }
  }

  predicate PatientAll(h: HeaderSize, s: seq<Segment>, fs: seq<Frame>)
    requires |WireAll(fs)| <= |Flat(s)| && forall f :: f in fs ==> WellFormed(h, f)
    decreases |fs|
  {
    fs == [] ||
    (assert WellFormed(h, fs[0]); FlatAfterDrop(s, |Wire(fs[0])|);
     Patient(h, s, fs[0]) && PatientAll(h, Drop(s, |Wire(fs[0])|), fs[1..]))
  }

  lemma FirstOnTheWire(fs: seq<Frame>, s: seq<Segment>)
    requires fs != [] && WireAll(fs) <= Flat(s)
    ensures Wire(fs[0]) <= Flat(s) && WireAll(fs[1..]) <= Flat(Drop(s, |Wire(fs[0])|))
  {
    var n := |Wire(fs[0])|;
    assert Wire(fs[0]) == WireAll(fs)[..n] && WireAll(fs[1..]) == WireAll(fs)[n..];
    FlatAfterDrop(s, n);
  }

  /** The round trip for any list of messages and any fragmentation: the receiver reconstructs the list,
      and stops right behind it, if and only if no single read is interrupted too often. In any case what
      it delivers is an initial part of what was sent. */
  lemma {:induction false} RoundTrip(h: HeaderSize, s: seq<Segment>, fs: seq<Frame>)
    requires WireAll(fs) <= Flat(s) && forall f :: f in fs ==> WellFormed(h, f)
    ensures PatientAll(h, s, fs) ==> ReceiveAll(h, s, |fs|) == (fs, Drop(s, |WireAll(fs)|))
    ensures !PatientAll(h, s, fs) ==> ReceiveAll(h, s, |fs|).0 < fs
    decreases |fs|
  {
    if fs != [] {
      var f, n, rest := fs[0], |Wire(fs[0])|, fs[1..];
      FirstOnTheWire(fs, s);
      FrameArrivesIff(h, s, f);
      if Patient(h, s, f) {
        RoundTrip(h, Drop(s, n), rest);
        DropTwice(s, n, |WireAll(rest)|);
        FirstThenRest(f, rest, fs, ReceiveAll(h, Drop(s, n), |rest|).0);
      }
    }
  }

  lemma FirstThenRest(f: Frame, rest: seq<Frame>, fs: seq<Frame>, got: seq<Frame>)
    requires fs != [] && f == fs[0] && rest == fs[1..]
    ensures got == rest ==> [f] + got == fs
    ensures got < rest ==> [f] + got < fs
  {
    assert fs == [f] + rest;
  }

  /** Interruptions anywhere on the stream. */
  function AllInterruptions(s: seq<Segment>): nat {
    if s == [] then 0 else (if s[0].Again? then 1 else 0) + AllInterruptions(s[1..])
  }

  lemma {:induction false} DropKeepsFew(s: seq<Segment>, n: nat)
    requires n <= |Flat(s)|
    ensures Interruptions(s, n) + AllInterruptions(Drop(s, n)) <= AllInterruptions(s)
  {
    if n > 0 {
      if s[0].Bytes? {
        if n < |s[0].b| {
          assert Drop(s, n)[1..] == s[1..];
        } else {
          DropKeepsFew(s[1..], n - |s[0].b|);
        }
      } else {
        DropKeepsFew(s[1..], n);
      }
    }
  }

  /** A check a caller could make once for the whole stream. */
  lemma {:induction false} FewInterruptionsSuffice(h: HeaderSize, s: seq<Segment>, fs: seq<Frame>)
    requires WireAll(fs) <= Flat(s) && forall f :: f in fs ==> WellFormed(h, f)
    requires AllInterruptions(s) <= 9999
    ensures PatientAll(h, s, fs)
    decreases |fs|
  {
    if fs != [] {
      var n := |Wire(fs[0])|;
      assert WellFormed(h, fs[0]);
      FlatAfterDrop(s, h);
      FlatAfterDrop(s, n);
      DropKeepsFew(s, h);
      DropKeepsFew(Drop(s, h), |fs[0].data|);
      DropKeepsFew(s, n);
      FirstOnTheWire(fs, s);
      FewInterruptionsSuffice(h, Drop(s, n), fs[1..]);
    }
  }

  // ----- the dispatcher's receiver

  predicate Registers(header: seq<Byte>)
    requires LENGTH_OFFSET + 4 <= |header|
  {
    Int32(header, 0) == CLIENT_INFO
  }

  /** The dispatcher reads no data behind a registration, whatever its length field says. */
  function ReceiveAtDispatcher(h: HeaderSize, s: seq<Segment>): (Incoming, seq<Segment>) {
    var head := Recv(s, h, [], 0);
    if head.ret == h && Registers(head.got) then (Whole(Frame(head.got, [])), head.rest) else ReceiveFrame(h, s)
  }

  function ReceiveAllAtDispatcher(h: HeaderSize, s: seq<Segment>, k: nat): (seq<Frame>, seq<Segment>)
    decreases k
  {
    if k == 0 then
      ([], s)
    else
      var r := ReceiveAtDispatcher(h, s);
      if r.0.Whole? then
        var more := ReceiveAllAtDispatcher(h, r.1, k - 1);
        ([r.0.frame] + more.0, more.1)
      else
        ([], r.1)
  }

  /** A registration that carries data. */
  predicate Laden(h: HeaderSize, f: Frame)
    requires WellFormed(h, f)
  {
    Registers(f.header) && f.data != []
  }

  /** Behind a laden registration the stream goes on with its data, where the next message should be. */
  lemma LadenShifts(h: HeaderSize, s: seq<Segment>, f: Frame)
    requires WellFormed(h, f) && Wire(f) <= Flat(s) && Laden(h, f) && Interruptions(s, h) <= MAX_RETRIES
    ensures ReceiveAtDispatcher(h, s) == (Whole(Frame(f.header, [])), Drop(s, h))
    ensures f.data <= Flat(Drop(s, h))
  {
    assert f.header == Wire(f)[..h] <= Flat(s);
    BytesArriveIff(s, f.header);
    FlatAfterDrop(s, h);
    assert Flat(s)[h..][..|f.data|] == Flat(s)[..|Wire(f)|][h..] == f.data;
  }

  lemma DispatcherFrameIff(h: HeaderSize, s: seq<Segment>, f: Frame)
    requires WellFormed(h, f) && Wire(f) <= Flat(s)
    ensures Patient(h, s, f) && !Laden(h, f) ==> ReceiveAtDispatcher(h, s) == (Whole(f), Drop(s, |Wire(f)|))
    ensures !Patient(h, s, f) || Laden(h, f) ==> ReceiveAtDispatcher(h, s).0 != Whole(f)
  {
    assert f.header == Wire(f)[..h] <= Flat(s);
    BytesArriveIff(s, f.header);
    FrameArrivesIff(h, s, f);
    if f.data == [] {
      assert |Wire(f)| == h && f == Frame(f.header, []);
    }
  }

  /** The round trip at the dispatcher: it reconstructs the list if and only if no read is interrupted too
      often and no registration carries data. */
  lemma {:induction false} DispatcherRoundTrip(h: HeaderSize, s: seq<Segment>, fs: seq<Frame>)
    requires WireAll(fs) <= Flat(s) && forall f :: f in fs ==> WellFormed(h, f)
    ensures ReceiveAllAtDispatcher(h, s, |fs|).0 == fs
            <==> PatientAll(h, s, fs) && forall f :: f in fs ==> !Laden(h, f)
    decreases |fs|
  {
    if fs != [] {
      var f, n, rest := fs[0], |Wire(fs[0])|, fs[1..];
      FirstOnTheWire(fs, s);
      DispatcherFrameIff(h, s, f);
      assert fs == [f] + rest;
      if Patient(h, s, f) && !Laden(h, f) {
        DispatcherRoundTrip(h, Drop(s, n), rest);
        var more := ReceiveAllAtDispatcher(h, Drop(s, n), |rest|).0;
        assert ReceiveAllAtDispatcher(h, s, |fs|).0 == [f] + more;
        assert ([f] + more)[1..] == more && ([f] + rest)[1..] == rest;
      } else {
        var all := ReceiveAllAtDispatcher(h, s, |fs|).0;
        assert all == [] || Whole(all[0]) == ReceiveAtDispatcher(h, s).0;
        assert f in fs;
      }
    }
  }

  // ----- sending

  type Pos = n: nat | n > 0 witness 1

  /** How the kernel answers a `send`: it takes up to `n` bytes, or `EINTR`/`EAGAIN`, or another error.
      When nothing is left it answers `EAGAIN`. */
  datatype Outlet = Takes(n: Pos) | Busy | Refuses

  datatype Sending = Sending(ret: int, written: seq<Byte>, rest: seq<Outlet>)

  function Send(k: seq<Outlet>, msg: seq<Byte>, i: nat, cnt: nat): Sending
    requires i < |msg|
    decreases |k|
  {
    if k == [] then
      Sending(-1, msg[..i], [])
    else match k[0]
      case Takes(n) =>
        if i + n >= |msg| then Sending(|msg|, msg, k[1..]) else Send(k[1..], msg, i + n, cnt)
      case Busy =>
        if cnt + 1 > MAX_RETRIES then Sending(-1, msg[..i], k[1..]) else Send(k[1..], msg, i, cnt + 1)
      case Refuses =>
        Sending(-1, msg[..i], k[1..])
  }

  /** All of the message and its length, or a proper initial part of it and -1. */
  lemma {:induction false} SendAllOrPrefix(k: seq<Outlet>, msg: seq<Byte>, i: nat, cnt: nat)
    requires i < |msg|
    ensures var r := Send(k, msg, i, cnt);
            (r.ret == |msg| && r.written == msg) || (r.ret == -1 && r.written < msg)
    decreases |k|
  {
    if k != [] {
      match k[0]
      case Takes(n) =>
        if i + n < |msg| {
          SendAllOrPrefix(k[1..], msg, i + n, cnt);
        }
      case Busy =>
        if cnt + 1 <= MAX_RETRIES {
          SendAllOrPrefix(k[1..], msg, i, cnt + 1);
        }
      case Refuses =>
    }
  }

  /** How many bytes the answers take before the first refusal. */
  function Room(k: seq<Outlet>): nat {
    if k == [] || k[0].Refuses? then 0 else (if k[0].Takes? then k[0].n else 0) + Room(k[1..])
  }

  /** The interruptions met before the `n`-th byte is taken. */
  function BusyBefore(k: seq<Outlet>, n: nat): nat
    requires n <= Room(k)
  {
    if n == 0 then 0
    else if k[0].Busy? then 1 + BusyBefore(k[1..], n)
    else if n <= k[0].n then 0
    else BusyBefore(k[1..], n - k[0].n)
  }

  /** The answers behind the one that takes the `n`-th byte. */
  function AnswersBehind(k: seq<Outlet>, n: nat): seq<Outlet>
    requires n <= Room(k)
  {
    if n == 0 then k
    else if k[0].Busy? then AnswersBehind(k[1..], n)
    else if n <= k[0].n then k[1..]
    else AnswersBehind(k[1..], n - k[0].n)
  }

  /** The kernel takes `n` bytes before it refuses and is not busy too often on the way. */
  predicate TakesAll(k: seq<Outlet>, n: nat) {
    n <= Room(k) && BusyBefore(k, n) <= MAX_RETRIES
  }

  /** It sends the whole message, and stops behind the last answer it needs, if and only if the kernel takes
      the rest of it before the first refusal with few enough interruptions on the way. Otherwise a proper
      initial part is written and the result is -1. */
  lemma {:induction false} SendExact(k: seq<Outlet>, msg: seq<Byte>, i: nat, cnt: nat)
    requires i < |msg| && cnt <= MAX_RETRIES
    ensures var r, n := Send(k, msg, i, cnt), |msg| - i;
            if n <= Room(k) && cnt + BusyBefore(k, n) <= MAX_RETRIES
            then r == Sending(|msg|, msg, AnswersBehind(k, n))
            else r.ret == -1 && r.written < msg
    decreases |k|
  {
    if k != [] {
      match k[0]
      case Takes(n) =>
        if i + n < |msg| {
          SendExact(k[1..], msg, i + n, cnt);
        }
      case Busy =>
        if cnt + 1 <= MAX_RETRIES {
          SendExact(k[1..], msg, i, cnt + 1);
        }
      case Refuses =>
    }
  }

  /** The bytes a sender hands over: the fixed part plus `data_len`, read as a signed number. */
  function Outgoing(h: HeaderSize, f: Frame): seq<Byte>
    requires |f.header| == h && h + DataLen(f.header) > 0 && DataLen(f.header) <= |f.data|
  {
    Wire(f)[..h + DataLen(f.header)]
  }

  /** Send messages until one fails. */
  function SendAll(h: HeaderSize, k: seq<Outlet>, fs: seq<Frame>): (seq<Byte>, bool)
    requires forall f :: f in fs ==> WellFormed(h, f)
    decreases |fs|
  {
    if fs == [] then
      ([], true)
    else
      assert WellFormed(h, fs[0]);
      var r := Send(k, Outgoing(h, fs[0]), 0, 0);
      if r.ret <= 0 then
        (r.written, false)
      else
        var more := SendAll(h, r.rest, fs[1..]);
        (r.written + more.0, more.1)
  }

  /** The kernel takes the messages one after another. */
  predicate TakesEach(k: seq<Outlet>, fs: seq<Frame>)
    decreases |fs|
  {
    fs != [] ==> TakesAll(k, |Wire(fs[0])|) && TakesEach(AnswersBehind(k, |Wire(fs[0])|), fs[1..])
  }

  /** A list is sent without an error if and only if the kernel takes every message. */
  lemma {:induction false} SendAllIff(h: HeaderSize, k: seq<Outlet>, fs: seq<Frame>)
    requires forall f :: f in fs ==> WellFormed(h, f)
    ensures SendAll(h, k, fs).1 <==> TakesEach(k, fs)
    decreases |fs|
  {
    if fs != [] {
      assert WellFormed(h, fs[0]);
      var msg := Outgoing(h, fs[0]);
      assert msg == Wire(fs[0]);
      SendExact(k, msg, 0, 0);
      if TakesAll(k, |msg|) {
        SendAllIff(h, AnswersBehind(k, |msg|), fs[1..]);
      }
    }
  }

  lemma {:induction false} SentIsWire(h: HeaderSize, k: seq<Outlet>, fs: seq<Frame>)
    requires forall f :: f in fs ==> WellFormed(h, f)
    ensures SendAll(h, k, fs).1 ==> SendAll(h, k, fs).0 == WireAll(fs)
    decreases |fs|
  {
    if fs != [] {
      assert WellFormed(h, fs[0]);
      var msg := Outgoing(h, fs[0]);
      assert msg == Wire(fs[0]);
      SendAllOrPrefix(k, msg, 0, 0);
      SentIsWire(h, Send(k, msg, 0, 0).rest, fs[1..]);
    }
  }

  /** From one end to the other: whatever partial writes and reads happen, a list that the kernel takes and
      brings over a stream with few interruptions arrives as the same list. */
  lemma EndToEnd(h: HeaderSize, k: seq<Outlet>, fs: seq<Frame>, s: seq<Segment>)
    requires forall f :: f in fs ==> WellFormed(h, f)
    requires TakesEach(k, fs) && Flat(s) == SendAll(h, k, fs).0 && AllInterruptions(s) <= MAX_RETRIES
    ensures SendAll(h, k, fs).1
    ensures ReceiveAll(h, s, |fs|).0 == fs && Flat(ReceiveAll(h, s, |fs|).1) == []
  {
    SendAllIff(h, k, fs);
    SentIsWire(h, k, fs);
    FewInterruptionsSuffice(h, s, fs);
    RoundTrip(h, s, fs);
    FlatAfterDrop(s, |WireAll(fs)|);
  }

  /** The length field is signed: a message with a negative one is cut short on sending, so it arrives
      if and only if the field is not negative. */
  lemma NegativeLengthIsCut(h: HeaderSize, f: Frame, s: seq<Segment>)
    requires |f.header| == h && h + DataLen(f.header) > 0 && DataLen(f.header) <= |f.data|
    requires f.data == [] || |f.data| == DataLen(f.header)
    requires Flat(s) == Outgoing(h, f) && AllInterruptions(s) <= MAX_RETRIES
    ensures ReceiveFrame(h, s).0 == Whole(f) <==> DataLen(f.header) >= 0
    ensures DataLen(f.header) < 0 ==> ReceiveFrame(h, s).0 == Broken
  {
    if DataLen(f.header) >= 0 {
      assert WireAll([f]) == Wire(f) && [f][1..] == [];
      FewInterruptionsSuffice(h, s, [f]);
      FrameArrivesIff(h, s, f);
    } else {
      RecvExact(s, h, [], 0);
    }
  }
}
