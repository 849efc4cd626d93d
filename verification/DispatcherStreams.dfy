/** The dispatcher fed by the bytes on its clients' sockets. */
module DispatcherStreams {
  import F = Framing
  import opened DispatcherSpec
  import opened DispatcherProofs

  // ----- what the bytes of a message mean

  const TYPE_AT := 0
  const APPID_AT := 8
  const SRC_AT := 12
  const DST_AT := 16
  const BODY_AT := 48
  /** The event type in the body: behind two ids and the device's name, location and status. */
  const EVENT_AT := 200

  /** A fixed part that holds the body's event type. */
  type MessageSize = h: F.HeaderSize | EVENT_AT + 4 <= h witness 204

  /** The fields the dispatcher looks at; every other byte stays data. */
  function MessageOf(f: F.Frame): Message
    requires EVENT_AT + 4 <= |f.header|
  {
    var b := f.header;
    Message(F.Int32(b, TYPE_AT), F.Int32(b, SRC_AT), F.Int32(b, DST_AT), F.Int32(b, APPID_AT), F.Int32(b, EVENT_AT),
            b[4..8] + b[20..EVENT_AT] + b[EVENT_AT + 4..] + f.data)
  }

  function Unsigned(n: int): int {
    if n < 0 then n + 0x1_0000_0000 else n
  }

  /** What one read of a client's socket yields, and the stream behind it. */
  function Heard(h: MessageSize, s: seq<F.Segment>): (Received, seq<F.Segment>) {
    var r := F.ReceiveAtDispatcher(h, s);
    match r.0
    case Broken => (Broken, r.1)
    case DataLost => (DataLost, r.1)
    case Whole(f) =>
      HeaderArrives(h, s);
      if F.Registers(f.header) then
        (ClientInfo(F.Int32(f.header, BODY_AT), F.Int32(f.header, BODY_AT + 4),
                    Unsigned(F.Int32(f.header, BODY_AT + 12))), r.1)
      else
        (Whole(MessageOf(f)), r.1)
  }

  lemma HeaderArrives(h: MessageSize, s: seq<F.Segment>)
    ensures F.ReceiveAtDispatcher(h, s).0.Whole? ==> |F.ReceiveAtDispatcher(h, s).0.frame.header| == h
  {}

  /** Two bytes of a number. */
  function Half(b: seq<F.Byte>, at: nat): (n: nat)
    requires at + 2 <= |b|
    ensures n < 0x1_0000
  {
    b[at] as int + 0x100 * (b[at + 1] as int)
  }

  lemma SameHalf(a: seq<F.Byte>, b: seq<F.Byte>, at: nat)
    requires at + 2 <= |a| == |b| && Half(a, at) == Half(b, at)
    ensures a[at..at + 2] == b[at..at + 2]
  {
    assert a[at] == b[at] && a[at + 1] == b[at + 1];
  }

  lemma SameInt32(a: seq<F.Byte>, b: seq<F.Byte>, at: nat)
    requires at + 4 <= |a| == |b| && F.Int32(a, at) == F.Int32(b, at)
    ensures a[at..at + 4] == b[at..at + 4]
  {
    var la, lb := Half(a, at), Half(b, at);
    var ha, hb := Half(a, at + 2), Half(b, at + 2);
    assert la == lb && ha == hb;
    SameHalf(a, b, at);
    SameHalf(a, b, at + 2);
    assert a[at..at + 4] == a[at..at + 2] + a[at + 2..at + 4];
    assert b[at..at + 4] == b[at..at + 2] + b[at + 2..at + 4];
  }

  lemma Parts(b: seq<F.Byte>)
    requires EVENT_AT + 4 <= |b|
    ensures b == b[0..4] + b[4..8] + b[8..12] + b[12..16] + b[16..20]
                 + b[20..EVENT_AT] + b[EVENT_AT..EVENT_AT + 4] + b[EVENT_AT + 4..]
  {}

  lemma SameParts<T>(a: seq<T>, b: seq<T>, c: seq<T>, d: seq<T>, a': seq<T>, b': seq<T>, c': seq<T>, d': seq<T>)
    requires |a| == |a'| && |b| == |b'| && |c| == |c'| && a + b + c + d == a' + b' + c' + d'
    ensures a == a' && b == b' && c == c' && d == d'
  {
    var n, m, k := |a|, |a| + |b|, |a| + |b| + |c|;
    var s, s' := a + b + c + d, a' + b' + c' + d';
    assert s[..n] == a && s[n..m] == b && s[m..k] == c && s[k..] == d;
    assert s'[..n] == a' && s'[n..m] == b' && s'[m..k] == c' && s'[k..] == d';
  }

  /** A signed 32-bit number. */
  type Int = n: int | -0x8000_0000 <= n < 0x8000_0000

  /** Where the fields of a message lie in its bytes. */
  lemma MessageFields(h: MessageSize, f: F.Frame, kind: Int, appid: Int, src: Int, dst: Int, eventType: Int)
    requires |f.header| == h
    requires f.header[0..4] == F.Bytes32(kind) && f.header[8..12] == F.Bytes32(appid)
    requires f.header[12..16] == F.Bytes32(src) && f.header[16..20] == F.Bytes32(dst)
    requires f.header[200..204] == F.Bytes32(eventType)
    ensures MessageOf(f).kind == kind && MessageOf(f).src == src && MessageOf(f).dst == dst
    ensures MessageOf(f).appid == appid && MessageOf(f).eventType == eventType
  {
    F.Int32OfBytes(f.header, 0, kind);
    F.Int32OfBytes(f.header, 8, appid);
    F.Int32OfBytes(f.header, 12, src);
    F.Int32OfBytes(f.header, 16, dst);
    F.Int32OfBytes(f.header, 200, eventType);
  }

  /** Nothing of a message is lost: it can be read off what the dispatcher makes of it. */
  lemma MessageKeepsAll(h: MessageSize, f: F.Frame, g: F.Frame)
    requires |f.header| == |g.header| == h && MessageOf(f) == MessageOf(g)
    ensures f == g
  {
    var a, b := f.header, g.header;
    SameParts(a[4..8], a[20..EVENT_AT], a[EVENT_AT + 4..], f.data, b[4..8], b[20..EVENT_AT], b[EVENT_AT + 4..], g.data);
    SameInt32(a, b, TYPE_AT);
    SameInt32(a, b, APPID_AT);
    SameInt32(a, b, SRC_AT);
    SameInt32(a, b, DST_AT);
    SameInt32(a, b, EVENT_AT);
    Parts(a);
    Parts(b);
  }

  /** A registration without data gives the client's types and process id, and the stream right behind. */
  lemma RegistrationIsHeard(h: MessageSize, s: seq<F.Segment>, f: F.Frame)
    requires F.WellFormed(h, f) && F.Wire(f) <= F.Flat(s) && F.Patient(h, s, f)
    requires F.Int32(f.header, 0) == 88 && f.data == []
    ensures Heard(h, s).1 == F.Drop(s, h) && Heard(h, s).0.ClientInfo?
    ensures var info, pid := Heard(h, s).0, F.Int32(f.header, 60);
            && info.clientType == F.Int32(f.header, 48) && info.socketType == F.Int32(f.header, 52)
            && info.pid == if pid < 0 then pid + 0x1_0000_0000 else pid
  {
    F.DispatcherFrameIff(h, s, f);
    assert |F.Wire(f)| == h;
  }

  // ----- the table with its streams

  /** How one client's stream is read. */
  type Reader = seq<F.Segment> -> (Received, seq<F.Segment>)

  function HeardAt(h: MessageSize): Reader {
    s => Heard(h, s)
  }

  type Streams = map<int, seq<F.Segment>>

  datatype Net = Net(t: Table, streams: Streams)

  /** How one `select` ends when the clients' sockets hold bytes. A new connection comes with its stream. */
  datatype Signal =
    | Sockets(ready: set<int>, accepted: int, opening: seq<F.Segment>)
    | Without(w: Wake)

  /** What a signal does, and the descriptor whose read ended it. */
  datatype Serving = Serving(net: Net, outcome: Outcome, from: int)

  function StreamOf(streams: Streams, fd: int): seq<F.Segment> {
    if fd in streams then streams[fd] else []
  }

  /** Visit the slots from `i` on and read the readable ones, up to the first message or failure. */
  function ScanStreams(hear: Reader, n: Net, ready: set<int>, i: nat): Serving
    requires i <= |n.t.slots|
    decreases |n.t.slots| - i
  {
    if i == |n.t.slots| then
      Serving(n, Quiet, NO_FD)
    else if Readable(n.t.slots[i], ready) then
      var fd := n.t.slots[i].fd;
      var heard := hear(StreamOf(n.streams, fd));
      var step := ReadSlot(n.t, i, heard.0);
      var n' := Net(step.0, n.streams[fd := heard.1]);
      if step.1.Quiet? then ScanStreams(hear, n', ready, i + 1) else Serving(n', step.1, fd)
    else
      ScanStreams(hear, n, ready, i + 1)
  }

  function Seated(n: Net, s: Signal): Net
    requires s.Sockets?
  {
    if n.t.listener in s.ready && s.accepted != NO_FD then
      Net(Accept(n.t, s.accepted).0, n.streams[s.accepted := s.opening])
    else
      n
  }

  function Serve(hear: Reader, n: Net, s: Signal): Serving
    requires s.Without? ==> !s.w.Ready?
  {
    match s
    case Without(w) => Serving(n, OnWake(n.t, w).1, NO_FD)
    case Sockets(ready, accepted, _) =>
      if n.t.listener in ready && (accepted == NO_FD || !Accept(n.t, accepted).1) then
        Serving(Seated(n, s), Failed, NO_FD)
      else
        ScanStreams(hear, Seated(n, s), ready, 0)
  }

  /** The wake-up of the table that a signal amounts to: the input is what each client's stream yields. */
  function WakeOf(hear: Reader, n: Net, s: Signal): Wake {
    match s
    case Without(w) => w
    case Sockets(ready, accepted, _) =>
      var n' := Seated(n, s);
      Ready(ready, accepted,
            seq(|n'.t.slots|, k requires 0 <= k < |n'.t.slots| =>
              hear(StreamOf(n'.streams, n'.t.slots[k].fd)).0))
  }

  predicate PossibleSignal(n: Net, s: Signal) {
    match s
    case Without(w) => !w.Ready?
    case Sockets(ready, accepted, _) =>
      ready <= n.t.rfds && (accepted == NO_FD || (accepted >= 0 && accepted !in n.t.rfds))
  }

  /** From slot `i` on the input is what the streams yield. */
  ghost predicate Yields(hear: Reader, n: Net, input: seq<Received>, i: nat) {
    && |input| == |n.t.slots|
    && forall k :: i <= k < |input| && n.t.slots[k].fd != NO_FD ==>
         input[k] == hear(StreamOf(n.streams, n.t.slots[k].fd)).0
  }

  lemma YieldsNext(hear: Reader, n: Net, input: seq<Received>, i: nat)
    requires Distinct(n.t.slots) && i < |n.t.slots| && Yields(hear, n, input, i) && n.t.slots[i].fd != NO_FD
    ensures var heard := hear(StreamOf(n.streams, n.t.slots[i].fd));
            var n' := Net(ReadSlot(n.t, i, heard.0).0, n.streams[n.t.slots[i].fd := heard.1]);
            Yields(hear, n', input, i + 1) && Distinct(n'.t.slots) && |n'.t.slots| == |n.t.slots|
  {
    ReadsOneSlot(n.t, i, hear(StreamOf(n.streams, n.t.slots[i].fd)).0);
  }

  /** Reading the streams one after another is scanning with what each of them yields. */
  lemma {:induction false} StreamsAreInput(hear: Reader, n: Net, ready: set<int>, input: seq<Received>, i: nat)
    requires i <= |n.t.slots| && Distinct(n.t.slots) && Yields(hear, n, input, i)
    ensures (ScanStreams(hear, n, ready, i).net.t, ScanStreams(hear, n, ready, i).outcome) == Scan(n.t, ready, input, i)
    decreases |n.t.slots| - i
  {
    if i < |n.t.slots| {
      if Readable(n.t.slots[i], ready) {
        var fd := n.t.slots[i].fd;
        var heard := hear(StreamOf(n.streams, fd));
        assert heard.0 == input[i];
        YieldsNext(hear, n, input, i);
        var step := ReadSlot(n.t, i, heard.0);
        if step.1.Quiet? {
          StreamsAreInput(hear, Net(step.0, n.streams[fd := heard.1]), ready, input, i + 1);
        }
      } else {
        StreamsAreInput(hear, n, ready, input, i + 1);
      }
    }
  }

  lemma SeatedKeeps(n: Net, s: Signal)
    requires Inv(n.t) && PossibleSignal(n, s) && s.Sockets?
    ensures Inv(Seated(n, s).t)
  {
    if n.t.listener in s.ready && s.accepted != NO_FD {
      AcceptKeeps(n.t, s.accepted);
    }
  }

  /** Serving bytes is a possible wake-up of the table. */
  lemma ServeIsWake(hear: Reader, n: Net, s: Signal)
    requires Inv(n.t) && PossibleSignal(n, s)
    ensures var w := WakeOf(hear, n, s);
            Possible(n.t, w) && OnWake(n.t, w) == (Serve(hear, n, s).net.t, Serve(hear, n, s).outcome)
  {
    if s.Sockets? {
      SeatedKeeps(n, s);
      var w, n' := WakeOf(hear, n, s), Seated(n, s);
      assert Yields(hear, n', w.input, 0);
      StreamsAreInput(hear, n', s.ready, w.input, 0);
    }
  }

  lemma ServeKeeps(hear: Reader, n: Net, s: Signal)
    requires Inv(n.t) && PossibleSignal(n, s)
    ensures Inv(Serve(hear, n, s).net.t)
  {
    ServeIsWake(hear, n, s);
    WakeKeeps(n.t, WakeOf(hear, n, s));
  }

  // ----- whole runs

  predicate PossibleSignals(hear: Reader, n: Net, ss: seq<Signal>)
    decreases |ss|
  {
    ss != [] ==> PossibleSignal(n, ss[0]) && PossibleSignals(hear, Serve(hear, n, ss[0]).net, ss[1..])
  }

  function NetAfter(hear: Reader, n: Net, ss: seq<Signal>): Net
    requires PossibleSignals(hear, n, ss)
    decreases |ss|
  {
    if ss == [] then n else NetAfter(hear, Serve(hear, n, ss[0]).net, ss[1..])
  }

  function Wakes(hear: Reader, n: Net, ss: seq<Signal>): seq<Wake>
    requires PossibleSignals(hear, n, ss)
    decreases |ss|
  {
    if ss == [] then [] else [WakeOf(hear, n, ss[0])] + Wakes(hear, Serve(hear, n, ss[0]).net, ss[1..])
  }

  /** Every run on bytes is a run of the table. */
  lemma {:induction false} BytesMakeARun(hear: Reader, n: Net, ss: seq<Signal>)
    requires Inv(n.t) && PossibleSignals(hear, n, ss)
    ensures PossibleRun(n.t, Wakes(hear, n, ss)) && After(n.t, Wakes(hear, n, ss)) == NetAfter(hear, n, ss).t
    ensures Inv(NetAfter(hear, n, ss).t)
    decreases |ss|
  {
    if ss != [] {
      ServeIsWake(hear, n, ss[0]);
      ServeKeeps(hear, n, ss[0]);
      BytesMakeARun(hear, Serve(hear, n, ss[0]).net, ss[1..]);
      var ws := Wakes(hear, n, ss);
      assert ws[1..] == Wakes(hear, Serve(hear, n, ss[0]).net, ss[1..]);
    }
  }

  // ----- one client

  /** The reader finds exactly these messages on the stream before its bytes end. */
  ghost predicate Utters(hear: Reader, s: seq<F.Segment>, ms: seq<Message>)
    decreases |ms|
  {
    if ms == [] then F.Flat(s) == []
    else hear(s).0 == Whole(ms[0]) && Utters(hear, hear(s).1, ms[1..])
  }

  /** The client on slot `i` still has the messages `ms` on its stream. */
  ghost predicate Speaks(hear: Reader, n: Net, i: nat, slot: Slot, ms: seq<Message>) {
    && i < |n.t.slots| && n.t.slots[i] == slot && slot.fd > 0
    && Utters(hear, StreamOf(n.streams, slot.fd), ms)
  }

  /** What serving leaves of the client: it was not read, or its next message is the one that was read. */
  ghost predicate HeardNext(hear: Reader, r: Serving, i: nat, slot: Slot, ms: seq<Message>) {
    if r.from == slot.fd then
      ms != [] && r.outcome == Delivered(Stamped(slot, ms[0])) && Speaks(hear, r.net, i, slot, ms[1..])
    else
      Speaks(hear, r.net, i, slot, ms)
  }

  /** Reading one client leaves the others' slots and streams alone. */
  lemma ReadsOther(hear: Reader, n: Net, j: nat, i: nat)
    requires i < |n.t.slots| && j < |n.t.slots| && j != i && Distinct(n.t.slots)
    requires n.t.slots[i].fd != NO_FD && n.t.slots[j].fd != NO_FD
    ensures var fd, other := n.t.slots[i].fd, n.t.slots[j].fd;
            var heard := hear(StreamOf(n.streams, other));
            var n' := Net(ReadSlot(n.t, j, heard.0).0, n.streams[other := heard.1]);
            && other != fd && |n'.t.slots| == |n.t.slots| && Distinct(n'.t.slots)
            && n'.t.slots[i] == n.t.slots[i] && StreamOf(n'.streams, fd) == StreamOf(n.streams, fd)
  {
    ReadsOneSlot(n.t, j, hear(StreamOf(n.streams, n.t.slots[j].fd)).0);
  }

  lemma {:induction false} ScanHearsNext(hear: Reader, n: Net, ready: set<int>, j: nat, i: nat, slot: Slot,
                                         ms: seq<Message>)
    requires j <= |n.t.slots| && Distinct(n.t.slots) && Speaks(hear, n, i, slot, ms)
    requires slot.fd in ready ==> ms != []
    ensures HeardNext(hear, ScanStreams(hear, n, ready, j), i, slot, ms)
    decreases |n.t.slots| - j
  {
    if j < |n.t.slots| {
      if Readable(n.t.slots[j], ready) {
        if j != i {
          ReadsOther(hear, n, j, i);
          var fd := n.t.slots[j].fd;
          var heard := hear(StreamOf(n.streams, fd));
          var step := ReadSlot(n.t, j, heard.0);
          if step.1.Quiet? {
            ScanHearsNext(hear, Net(step.0, n.streams[fd := heard.1]), ready, j + 1, i, slot, ms);
          }
        }
      } else {
        ScanHearsNext(hear, n, ready, j + 1, i, slot, ms);
      }
    }
  }

  /** Readable means that bytes are there. */
  predicate Honest(n: Net, s: Signal, fd: int) {
    s.Sockets? && fd in s.ready ==> F.Flat(StreamOf(n.streams, fd)) != []
  }

  lemma SeatedSpeaks(hear: Reader, n: Net, s: Signal, i: nat, slot: Slot, ms: seq<Message>)
    requires Inv(n.t) && PossibleSignal(n, s) && s.Sockets? && Speaks(hear, n, i, slot, ms)
    ensures Speaks(hear, Seated(n, s), i, slot, ms)
  {
    FreeSlotExists(n.t);
    assert Occupies(n.t.slots, slot.fd);
  }

  lemma ServeHearsNext(hear: Reader, n: Net, s: Signal, i: nat, slot: Slot, ms: seq<Message>)
    requires Inv(n.t) && PossibleSignal(n, s) && Speaks(hear, n, i, slot, ms) && Honest(n, s, slot.fd)
    ensures HeardNext(hear, Serve(hear, n, s), i, slot, ms)
  {
    if s.Sockets? {
      SeatedKeeps(n, s);
      SeatedSpeaks(hear, n, s, i, slot, ms);
      ScanHearsNext(hear, Seated(n, s), s.ready, 0, i, slot, ms);
    }
  }

  ghost predicate AllHonest(hear: Reader, n: Net, ss: seq<Signal>, fd: int)
    requires PossibleSignals(hear, n, ss)
    decreases |ss|
  {
    ss != [] ==> Honest(n, ss[0], fd) && AllHonest(hear, Serve(hear, n, ss[0]).net, ss[1..], fd)
  }

  /** The messages a run takes from one descriptor. */
  function Spoken(hear: Reader, n: Net, ss: seq<Signal>, fd: int): seq<Message>
    requires PossibleSignals(hear, n, ss)
    decreases |ss|
  {
    if ss == [] then []
    else
      var r := Serve(hear, n, ss[0]);
      (if r.from == fd && r.outcome.Delivered? then [r.outcome.message] else []) + Spoken(hear, r.net, ss[1..], fd)
  }

  function StampedAll(slot: Slot, ms: seq<Message>): seq<Message> {
    if ms == [] then [] else [Stamped(slot, ms[0])] + StampedAll(slot, ms[1..])
  }

  /** `spoken` is an initial part of the messages `ms`, stamped, and the rest is still on the stream. */
  ghost predicate HeardInOrder(hear: Reader, end: Net, spoken: seq<Message>, i: nat, slot: Slot, ms: seq<Message>) {
    && |spoken| <= |ms| && spoken == StampedAll(slot, ms[..|spoken|])
    && Speaks(hear, end, i, slot, ms[|spoken|..])
  }

  lemma HeardNone(hear: Reader, n: Net, i: nat, slot: Slot, ms: seq<Message>)
    requires Speaks(hear, n, i, slot, ms)
    ensures HeardInOrder(hear, n, [], i, slot, ms)
  {
    assert ms[0..] == ms && ms[..0] == [];
  }

  lemma HeardOneMore(hear: Reader, end: Net, spoken: seq<Message>, i: nat, slot: Slot, ms: seq<Message>)
    requires ms != [] && HeardInOrder(hear, end, spoken, i, slot, ms[1..])
    ensures HeardInOrder(hear, end, [Stamped(slot, ms[0])] + spoken, i, slot, ms)
  {
    var x, rest, m := ms[0], ms[1..], |spoken|;
    assert ms == [x] + rest;
    SplitOneLater(x, rest, m);
    StampedNext(slot, x, rest[..m]);
  }

  lemma SplitOneLater<T>(x: T, rest: seq<T>, m: nat)
    requires m <= |rest|
    ensures ([x] + rest)[..m + 1] == [x] + rest[..m] && ([x] + rest)[m + 1..] == rest[m..]
  {}

  lemma StampedNext(slot: Slot, x: Message, rest: seq<Message>)
    ensures StampedAll(slot, [x] + rest) == [Stamped(slot, x)] + StampedAll(slot, rest)
  {
    assert ([x] + rest)[1..] == rest;
  }

  /** Over every run the dispatcher takes an initial part of the messages on a client's stream, in order and
      stamped with the client's slot. */
  lemma {:induction false} SpeakerIsHeard(hear: Reader, n: Net, ss: seq<Signal>, i: nat, slot: Slot,
                                          ms: seq<Message>)
    requires Inv(n.t) && PossibleSignals(hear, n, ss) && Speaks(hear, n, i, slot, ms)
    requires AllHonest(hear, n, ss, slot.fd)
    ensures HeardInOrder(hear, NetAfter(hear, n, ss), Spoken(hear, n, ss, slot.fd), i, slot, ms)
    decreases |ss|
  {
    if ss == [] {
      HeardNone(hear, n, i, slot, ms);
    } else {
      var r := Serve(hear, n, ss[0]);
      ServeKeeps(hear, n, ss[0]);
      ServeHearsNext(hear, n, ss[0], i, slot, ms);
      if r.from == slot.fd {
        SpeakerIsHeard(hear, r.net, ss[1..], i, slot, ms[1..]);
        HeardOneMore(hear, NetAfter(hear, n, ss), Spoken(hear, r.net, ss[1..], slot.fd), i, slot, ms);
      } else {
        SpeakerIsHeard(hear, r.net, ss[1..], i, slot, ms);
      }
    }
  }

  // ----- from the connection on

  /** A client has connected on slot `i`: its stream starts with a registration, and messages follow. */
  ghost predicate Connects(hear: Reader, n: Net, i: nat, fd: int, info: Received, ms: seq<Message>) {
    && i < |n.t.slots| && n.t.slots[i].fd == fd > 0 && info.ClientInfo?
    && hear(StreamOf(n.streams, fd)).0 == info && Utters(hear, hear(StreamOf(n.streams, fd)).1, ms)
  }

  /** The slot of a client that has registered. */
  function Registered(fd: int, info: Received): Slot
    requires info.ClientInfo?
  {
    Slot(fd, info.clientType, info.socketType, info.pid)
  }

  /** Beyond its slot a scan does not touch a client. */
  lemma {:induction false} ScanIsPast(hear: Reader, n: Net, ready: set<int>, j: nat, i: nat, slot: Slot,
                                      ms: seq<Message>)
    requires i < j <= |n.t.slots| && Distinct(n.t.slots) && Speaks(hear, n, i, slot, ms)
    ensures var r := ScanStreams(hear, n, ready, j);
            r.from != slot.fd && Speaks(hear, r.net, i, slot, ms)
    decreases |n.t.slots| - j
  {
    if j < |n.t.slots| {
      if Readable(n.t.slots[j], ready) {
        ReadsOther(hear, n, j, i);
        var fd := n.t.slots[j].fd;
        var heard := hear(StreamOf(n.streams, fd));
        var step := ReadSlot(n.t, j, heard.0);
        if step.1.Quiet? {
          ScanIsPast(hear, Net(step.0, n.streams[fd := heard.1]), ready, j + 1, i, slot, ms);
        }
      } else {
        ScanIsPast(hear, n, ready, j + 1, i, slot, ms);
      }
    }
  }

  lemma ReadsRegistration(hear: Reader, n: Net, i: nat, fd: int, info: Received, ms: seq<Message>)
    requires Connects(hear, n, i, fd, info, ms) && Distinct(n.t.slots)
    ensures var heard := hear(StreamOf(n.streams, fd));
            var step := ReadSlot(n.t, i, heard.0);
            var n' := Net(step.0, n.streams[fd := heard.1]);
            && step.1.Quiet? && |n'.t.slots| == |n.t.slots| && Distinct(n'.t.slots)
            && Speaks(hear, n', i, Registered(fd, info), ms)
  {
    ReadsOneSlot(n.t, i, info);
  }

  /** What a scan makes of a connected client: it is not read, or it registers. No message comes from it. */
  ghost predicate JoinsOrWaits(hear: Reader, r: Serving, i: nat, fd: int, info: Received, ms: seq<Message>)
    requires info.ClientInfo?
  {
    r.from != fd && (Connects(hear, r.net, i, fd, info, ms) || Speaks(hear, r.net, i, Registered(fd, info), ms))
  }

  lemma {:induction false} ScanJoins(hear: Reader, n: Net, ready: set<int>, j: nat, i: nat, fd: int, info: Received,
                                     ms: seq<Message>)
    requires j <= |n.t.slots| && Distinct(n.t.slots) && Connects(hear, n, i, fd, info, ms)
    ensures JoinsOrWaits(hear, ScanStreams(hear, n, ready, j), i, fd, info, ms)
    ensures fd !in ready ==> Connects(hear, ScanStreams(hear, n, ready, j).net, i, fd, info, ms)
    decreases |n.t.slots| - j
  {
    if j < |n.t.slots| {
      if Readable(n.t.slots[j], ready) {
        var other := n.t.slots[j].fd;
        var heard := hear(StreamOf(n.streams, other));
        var step := ReadSlot(n.t, j, heard.0);
        var n' := Net(step.0, n.streams[other := heard.1]);
        if j == i {
          ReadsRegistration(hear, n, i, fd, info, ms);
          ScanIsPast(hear, n', ready, j + 1, i, Registered(fd, info), ms);
        } else {
          ReadsOther(hear, n, j, i);
          if step.1.Quiet? {
            ScanJoins(hear, n', ready, j + 1, i, fd, info, ms);
          }
        }
      } else {
        ScanJoins(hear, n, ready, j + 1, i, fd, info, ms);
      }
    }
  }

  lemma SeatedConnects(hear: Reader, n: Net, s: Signal, i: nat, fd: int, info: Received, ms: seq<Message>)
    requires Inv(n.t) && PossibleSignal(n, s) && s.Sockets? && Connects(hear, n, i, fd, info, ms)
    ensures Connects(hear, Seated(n, s), i, fd, info, ms)
  {
    FreeSlotExists(n.t);
    assert Occupies(n.t.slots, fd);
  }

  lemma ServeJoins(hear: Reader, n: Net, s: Signal, i: nat, fd: int, info: Received, ms: seq<Message>)
    requires Inv(n.t) && PossibleSignal(n, s) && Connects(hear, n, i, fd, info, ms)
    ensures JoinsOrWaits(hear, Serve(hear, n, s), i, fd, info, ms)
  {
    if s.Sockets? {
      SeatedKeeps(n, s);
      SeatedConnects(hear, n, s, i, fd, info, ms);
      ScanJoins(hear, Seated(n, s), s.ready, 0, i, fd, info, ms);
    }
  }

  /** A connected client after a run: still not read, or registered and heard in order. */
  ghost predicate Joined(hear: Reader, end: Net, spoken: seq<Message>, i: nat, fd: int, info: Received,
                         ms: seq<Message>)
    requires info.ClientInfo?
  {
    || (Connects(hear, end, i, fd, info, ms) && spoken == [])
    || HeardInOrder(hear, end, spoken, i, Registered(fd, info), ms)
  }

  lemma {:induction false} RunJoins(hear: Reader, n: Net, ss: seq<Signal>, i: nat, fd: int, info: Received,
                                    ms: seq<Message>)
    requires Inv(n.t) && PossibleSignals(hear, n, ss) && Connects(hear, n, i, fd, info, ms)
    requires AllHonest(hear, n, ss, fd)
    ensures Joined(hear, NetAfter(hear, n, ss), Spoken(hear, n, ss, fd), i, fd, info, ms)
    decreases |ss|
  {
    if ss != [] {
      var r := Serve(hear, n, ss[0]);
      ServeKeeps(hear, n, ss[0]);
      ServeJoins(hear, n, ss[0], i, fd, info, ms);
      assert Spoken(hear, n, ss, fd) == Spoken(hear, r.net, ss[1..], fd);
      if Connects(hear, r.net, i, fd, info, ms) {
        RunJoins(hear, r.net, ss[1..], i, fd, info, ms);
      } else {
        SpeakerIsHeard(hear, r.net, ss[1..], i, Registered(fd, info), ms);
      }
    }
  }

  /** The signal of a new connection that is given a slot. */
  predicate Accepts(n: Net, s: Signal) {
    s.Sockets? && n.t.listener in s.ready && s.accepted > 0 && n.t.clientNum < MAX_CLIENTS
  }

  lemma ConnectionSeats(hear: Reader, n: Net, s: Signal, ms: seq<Message>)
    requires Inv(n.t) && PossibleSignal(n, s) && Accepts(n, s)
    requires hear(s.opening).0.ClientInfo? && Utters(hear, hear(s.opening).1, ms)
    ensures Connects(hear, Serve(hear, n, s).net, FirstFree(n.t.slots, 0), s.accepted, hear(s.opening).0, ms)
    ensures Inv(Serve(hear, n, s).net.t)
  {
    FreeSlotExists(n.t);
    SeatedKeeps(n, s);
    ServeKeeps(hear, n, s);
    var i := FirstFree(n.t.slots, 0);
    assert Connects(hear, Seated(n, s), i, s.accepted, hear(s.opening).0, ms);
    ScanJoins(hear, Seated(n, s), s.ready, 0, i, s.accepted, hear(s.opening).0, ms);
  }

  // ----- messages sent as bytes

  function MessagesOf(fs: seq<F.Frame>): seq<Message>
    requires forall f :: f in fs ==> EVENT_AT + 4 <= |f.header|
  {
    if fs == [] then [] else [MessageOf(fs[0])] + MessagesOf(fs[1..])
  }

  /** A stream that holds these messages, none a registration, and is not interrupted too often. */
  ghost predicate Holds(h: MessageSize, s: seq<F.Segment>, fs: seq<F.Frame>) {
    && (forall f :: f in fs ==> F.WellFormed(h, f) && !F.Registers(f.header))
    && F.Flat(s) == F.WireAll(fs) && F.PatientAll(h, s, fs)
  }

  /** The next message is read whole, and the stream goes on with the others. */
  lemma NextIsHeard(h: MessageSize, s: seq<F.Segment>, fs: seq<F.Frame>)
    requires fs != [] && Holds(h, s, fs)
    ensures Heard(h, s).0 == Whole(MessageOf(fs[0])) && Holds(h, Heard(h, s).1, fs[1..])
  {
    var f, n := fs[0], |F.Wire(fs[0])|;
    F.FirstOnTheWire(fs, s);
    F.DispatcherFrameIff(h, s, f);
    F.FlatAfterDrop(s, n);
    assert F.WireAll(fs)[n..] == F.WireAll(fs[1..]);
  }

  lemma {:induction false} FramesAreUttered(h: MessageSize, s: seq<F.Segment>, fs: seq<F.Frame>)
    requires Holds(h, s, fs)
    ensures Utters(HeardAt(h), s, MessagesOf(fs))
    decreases |fs|
  {
    if fs != [] {
      NextIsHeard(h, s, fs);
      FramesAreUttered(h, Heard(h, s).1, fs[1..]);
      var ms := MessagesOf(fs);
      assert ms[0] == MessageOf(fs[0]) && ms[1..] == MessagesOf(fs[1..]);
    }
  }

  /** From bytes to messages, over every run: what the dispatcher takes from a client is an initial part of
      what that client sent, in order, each message once and stamped with the client's slot; the rest is
      still on its stream. The client stays in its slot, whatever all the others do. */
  lemma ClientIsHeard(h: MessageSize, n: Net, ss: seq<Signal>, i: nat, fs: seq<F.Frame>)
    requires Inv(n.t) && PossibleSignals(HeardAt(h), n, ss)
    requires i < |n.t.slots| && n.t.slots[i].fd > 0 && AllHonest(HeardAt(h), n, ss, n.t.slots[i].fd)
    requires Holds(h, StreamOf(n.streams, n.t.slots[i].fd), fs)
    ensures var slot, end := n.t.slots[i], NetAfter(HeardAt(h), n, ss);
            var spoken := Spoken(HeardAt(h), n, ss, slot.fd);
            HeardInOrder(HeardAt(h), end, spoken, i, slot, MessagesOf(fs))
  {
    FramesAreUttered(h, StreamOf(n.streams, n.t.slots[i].fd), fs);
    SpeakerIsHeard(HeardAt(h), n, ss, i, n.t.slots[i], MessagesOf(fs));
  }

  lemma SpokenCommandIsServed(hear: Reader, n: Net, s: Signal, i: nat, ms: seq<Message>)
    requires Inv(n.t) && PossibleSignal(n, s) && i < |n.t.slots| && Commander(n.t, i, n.t.slots[i].fd)
    requires Speaks(hear, n, i, n.t.slots[i], ms) && Honest(n, s, n.t.slots[i].fd)
    requires Serve(hear, n, s).from == n.t.slots[i].fd
    ensures ms != [] && i < |Serve(hear, n, s).net.t.slots|
    ensures ms[0].dst != APPLICATION && ms[0].dst != DAEMON_ALL ==>
              Served(Serve(hear, n, s).net.t, i, ms[0], Log(n.t, WakeOf(hear, n, s)))
  {
    ServeIsWake(hear, n, s);
    ServeKeeps(hear, n, s);
    ServeHearsNext(hear, n, s, i, n.t.slots[i], ms);
    if ms[0].dst != APPLICATION && ms[0].dst != DAEMON_ALL {
      RoutedCommandIsServed(Serve(hear, n, s).net.t, i, ms[0]);
    }
  }

  /** A stream that opens with a registration without data and goes on with messages. */
  ghost predicate Opens(h: MessageSize, s: seq<F.Segment>, reg: F.Frame, fs: seq<F.Frame>) {
    && F.WellFormed(h, reg) && F.Registers(reg.header) && reg.data == []
    && F.Wire(reg) <= F.Flat(s) && F.Patient(h, s, reg) && Holds(h, F.Drop(s, h), fs)
  }

  /** Announced as an application's command socket. */
  predicate AsCommander(reg: F.Frame)
    requires EVENT_AT + 4 <= |reg.header|
  {
    F.Int32(reg.header, BODY_AT) == APPLICATION && F.Int32(reg.header, BODY_AT + 4) == SOCKET_COMMAND
  }

  /** From the connection on, over every run: an application that connects and registers its command socket in
      bytes is not read yet, or it is a registered command socket in the slot it was given, and what was taken
      from it is an initial part of its messages, stamped with its descriptor. */
  lemma ApplicationJoins(h: MessageSize, n: Net, s: Signal, ss: seq<Signal>, reg: F.Frame, fs: seq<F.Frame>)
    requires Inv(n.t) && PossibleSignal(n, s) && Accepts(n, s) && Opens(h, s.opening, reg, fs) && AsCommander(reg)
    requires var n1 := Serve(HeardAt(h), n, s).net;
             PossibleSignals(HeardAt(h), n1, ss) && AllHonest(HeardAt(h), n1, ss, s.accepted)
    ensures var n1, i := Serve(HeardAt(h), n, s).net, FirstFree(n.t.slots, 0);
            var end, spoken := NetAfter(HeardAt(h), n1, ss), Spoken(HeardAt(h), n1, ss, s.accepted);
            && Heard(h, s.opening).0.ClientInfo?
            && (|| (Connects(HeardAt(h), end, i, s.accepted, Heard(h, s.opening).0, MessagesOf(fs)) && spoken == [])
                || (Commander(end.t, i, s.accepted)
                    && HeardInOrder(HeardAt(h), end, spoken, i, end.t.slots[i], MessagesOf(fs))))
  {
    RegistrationIsHeard(h, s.opening, reg);
    FramesAreUttered(h, F.Drop(s.opening, h), fs);
    ConnectionSeats(HeardAt(h), n, s, MessagesOf(fs));
    RunJoins(HeardAt(h), Serve(HeardAt(h), n, s).net, ss, FirstFree(n.t.slots, 0), s.accepted, Heard(h, s.opening).0,
             MessagesOf(fs));
  }

  /** Its next message, whenever it is taken, is served as a command of that client; and any reply that names
      its descriptor goes to it alone. */
  lemma JoinedIsServed(hear: Reader, n: Net, s: Signal, i: nat, spoken: seq<Message>, ms: seq<Message>, reply: Message)
    requires Inv(n.t) && i < |n.t.slots| && Commander(n.t, i, n.t.slots[i].fd)
    requires HeardInOrder(hear, n, spoken, i, n.t.slots[i], ms)
    requires PossibleSignal(n, s) && Honest(n, s, n.t.slots[i].fd)
    requires reply.dst == APPLICATION && reply.appid == n.t.slots[i].fd
    ensures Routed(n.t.slots, reply) == [Delivery(n.t.slots[i].fd, reply)]
    ensures Serve(hear, n, s).from == n.t.slots[i].fd ==>
              && |spoken| < |ms| && i < |Serve(hear, n, s).net.t.slots|
              && (ms[|spoken|].dst != APPLICATION && ms[|spoken|].dst != DAEMON_ALL ==>
                    Served(Serve(hear, n, s).net.t, i, ms[|spoken|], Log(n.t, WakeOf(hear, n, s))))
  {
    ReplyReachesHolder(n.t, reply, i);
    if Serve(hear, n, s).from == n.t.slots[i].fd {
      SpokenCommandIsServed(hear, n, s, i, ms[|spoken|..]);
    }
  }

  /** A command an application sent in bytes is served in the wake-up that takes it. */
  lemma CommandInBytesIsServed(h: MessageSize, n: Net, s: Signal, i: nat, fs: seq<F.Frame>)
    requires Inv(n.t) && PossibleSignal(n, s) && i < |n.t.slots| && Commander(n.t, i, n.t.slots[i].fd)
    requires Holds(h, StreamOf(n.streams, n.t.slots[i].fd), fs) && Honest(n, s, n.t.slots[i].fd)
    requires Serve(HeardAt(h), n, s).from == n.t.slots[i].fd
    ensures fs != [] && i < |Serve(HeardAt(h), n, s).net.t.slots|
    ensures var command := MessagesOf(fs)[0];
            command.dst != APPLICATION && command.dst != DAEMON_ALL ==>
              Served(Serve(HeardAt(h), n, s).net.t, i, command, Log(n.t, WakeOf(HeardAt(h), n, s)))
  {
    FramesAreUttered(h, StreamOf(n.streams, n.t.slots[i].fd), fs);
    SpokenCommandIsServed(HeardAt(h), n, s, i, MessagesOf(fs));
  }
}
