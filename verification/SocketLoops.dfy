/** The receive and send loops as they run, over one connected socket. */
module SocketLoops {
  import Slip
  import opened Framing
  type Byte = Slip.Byte

  datatype Errno = Retry | Other

  lemma TakeMore(msg: seq<Byte>, i: nat, n: nat)
    requires i + n <= |msg|
    ensures msg[..i] + msg[i..][..n] == msg[..i + n]
  {}

  class Socket {
    /** What the kernel still has for a reader and how it will answer a writer. */
    var pending: seq<Segment>
    var outlets: seq<Outlet>
    /** Every byte the kernel has taken for sending. */
    var taken: seq<Byte>

    constructor (pending: seq<Segment>, outlets: seq<Outlet>)
      ensures this.pending == pending && this.outlets == outlets && taken == []
    {
      this.pending, this.outlets, taken := pending, outlets, [];
    }

    /** One `recv` of up to `limit` bytes into `buf` from `at` on. */
    method KernelRecv(buf: array<Byte>, at: nat, limit: nat) returns (n: int, errno: Errno)
      requires 0 < limit && at + limit <= buf.Length
      modifies this`pending, buf
      ensures n <= limit
      ensures old(pending) == [] ==> n == -1 && errno == Retry && pending == []
      ensures old(pending) != [] ==>
                match old(pending)[0]
                case Bytes(b) =>
                  && n == (if |b| < limit then |b| else limit)
                  && pending == (if |b| <= limit then old(pending)[1..] else [Bytes(b[limit..])] + old(pending)[1..])
                  && buf[at..at + n] == b[..n]
                case Again => n == -1 && errno == Retry && pending == old(pending)[1..]
                case HangUp => n == 0 && pending == old(pending)
                case Fault => n == -1 && errno == Other && pending == old(pending)[1..]
      ensures buf[..at] == old(buf[..at])
    {
      n, errno := -1, Retry;
      if pending == [] {
        return;
      }
      match pending[0]
      case Bytes(b) =>
        n := if |b| < limit then |b| else limit;
        forall i | 0 <= i < n {
          buf[at + i] := b[i];
        }
        assert forall i :: 0 <= i < n ==> buf[at..at + n][i] == b[i];
        assert buf[at..at + n] == b[..n];
        pending := if |b| <= limit then pending[1..] else [Bytes(b[limit..])] + pending[1..];
      case Again =>
        pending := pending[1..];
      case HangUp =>
        n := 0;
      case Fault =>
        errno := Other;
        pending := pending[1..];
    }

    /** Fill the buffer. An error other than an interruption is silently tried again. */
    method RecvEx(buf: array<Byte>) returns (ret: int)
      requires buf.Length > 0
      modifies this`pending, buf
      ensures var r := Recv(old(pending), buf.Length, [], 0);
              ret == r.ret && pending == r.rest && buf[..|r.got|] == r.got
    {
      var i, cnt := 0, 0;
      while true
        invariant 0 <= i < buf.Length && 0 <= cnt <= MAX_RETRIES
        invariant Recv(pending, buf.Length, buf[..i], cnt) == Recv(old(pending), buf.Length, [], 0)
        decreases |pending|, MAX_RETRIES - cnt
      {
        ghost var got, before := buf[..i], pending;
        var n, errno := KernelRecv(buf, i, buf.Length - i);
        if n > 0 {
          assert buf[..i + n] == got + buf[i..i + n];
          assert before[0].Bytes? && n == |before[0].b| ==> buf[..i + n] == got + before[0].b;
          i := i + n;
          if i >= buf.Length {
            return i;
          }
        } else if n == 0 {
          return i;
        } else if errno == Retry {
          cnt := cnt + 1;
          if cnt > MAX_RETRIES {
            break;
          }
        }
      }
      return -1;
    }

    /** Receive one message: the fixed part, then the data its length field announces. */
    method WaitForMsg(h: HeaderSize) returns (m: Incoming)
      modifies this`pending
      ensures (m, pending) == ReceiveFrame(h, old(pending))
    {
      var header := new Byte[h];
      var ret := RecvEx(header);
      if ret <= 0 || ret != h {
        return Broken;
      }
      ghost var head := Recv(old(pending), h, [], 0);
      assert header[..h] == header[..] == head.got;
      m := ReadData(h, header[..]);
    }

    /** The dispatcher's reading of one client: no data behind a registration. */
    method ReadClient(h: HeaderSize) returns (m: Incoming)
      modifies this`pending
      ensures (m, pending) == ReceiveAtDispatcher(h, old(pending))
    {
      var header := new Byte[h];
      var ret := RecvEx(header);
      if ret <= 0 || ret != h {
        return Broken;
      }
      ghost var head := Recv(old(pending), h, [], 0);
      assert header[..h] == header[..] == head.got;
      if Registers(header[..]) {
        return Whole(Frame(header[..], []));
      }
      m := ReadData(h, header[..]);
    }

    /** The data behind a fixed part. */
    method ReadData(h: HeaderSize, header: seq<Byte>) returns (m: Incoming)
      requires |header| == h
      modifies this`pending
      ensures (m, pending) == DataBehind(header, old(pending))
    {
      var n := DataLen(header);
      if n <= 0 {
        return Whole(Frame(header, []));
      }
      var data := new Byte[n];
      var ret := RecvEx(data);
      if ret <= 0 || ret != n {
        return DataLost;
      }
      assert data[..n] == data[..];
      return Whole(Frame(header, data[..]));
    }

    /** One `send` of a nonempty rest: the kernel takes some of it or refuses. */
    method KernelSend(rest: seq<Byte>) returns (n: int, errno: Errno)
      requires rest != []
      modifies this`outlets, this`taken
      ensures n <= |rest|
      ensures old(outlets) == [] ==> n == -1 && errno == Retry && outlets == [] && taken == old(taken)
      ensures old(outlets) != [] ==>
                && outlets == old(outlets)[1..]
                && match old(outlets)[0]
                   case Takes(k) =>
                     n == (if k < |rest| then k else |rest|) && taken == old(taken) + rest[..n] && errno == Retry
                   case Busy => n == -1 && errno == Retry && taken == old(taken)
                   case Refuses => n == -1 && errno == Other && taken == old(taken)
    {
      n, errno := -1, Retry;
      if outlets == [] {
        return;
      }
      match outlets[0] {
        case Takes(k) =>
          n := if k < |rest| then k else |rest|;
          taken := taken + rest[..n];
        case Busy =>
        case Refuses =>
          errno := Other;
      }
      outlets := outlets[1..];
    }

    /** Send the whole message, or stop at the first lasting refusal. */
    method SendEx(msg: seq<Byte>) returns (ret: int)
      requires msg != []
      modifies this`outlets, this`taken
      ensures var r := Send(old(outlets), msg, 0, 0);
              ret == r.ret && outlets == r.rest && taken == old(taken) + r.written
    {
      var i, cnt := 0, 0;
      while true
        invariant 0 <= i < |msg| && 0 <= cnt <= MAX_RETRIES
        invariant Send(outlets, msg, i, cnt) == Send(old(outlets), msg, 0, 0)
        invariant taken == old(taken) + msg[..i]
        decreases |outlets|, MAX_RETRIES - cnt
      {
        var n, errno := KernelSend(msg[i..]);
        if n > 0 {
          TakeMore(msg, i, n);
          i := i + n;
          if i >= |msg| {
            assert msg[..i] == msg;
            return i;
          }
        } else {
          if errno != Retry {
            return -1;
          }
          cnt := cnt + 1;
          if cnt > MAX_RETRIES {
            break;
          }
        }
      }
      return -1;
    }

    /** Send one message, unless the socket was never opened. */
    method SendMsg(sfd: int, h: HeaderSize, f: Frame) returns (ret: int)
      requires |f.header| == h && h + DataLen(f.header) > 0 && DataLen(f.header) <= |f.data|
      modifies this`outlets, this`taken
      ensures sfd <= 0 ==> ret == -1 && taken == old(taken) && outlets == old(outlets)
      ensures sfd > 0 ==>
                var r := Send(old(outlets), Outgoing(h, f), 0, 0);
                ret == r.ret && outlets == r.rest && taken == old(taken) + r.written
    {
      ret := -1;
      if sfd > 0 {
        ret := SendEx(Outgoing(h, f));
      }
    }
  }
}
