/** The serial receiver in its own form: a fixed buffer filled byte by byte. */
module SerialReceiver {
  import opened Wrappers
  import opened Slip
  import opened Packet

  /** Raw bytes since the last END, counting `start` bytes already waiting. */
  function SinceEnd(start: nat, bytes: seq<Byte>): nat {
    if bytes == [] then start
    else if bytes[|bytes| - 1] == END then 0
    else SinceEnd(start, bytes[..|bytes| - 1]) + 1
  }

  lemma {:induction false} BufferedAtMostRaw(d: Decoding, bytes: seq<Byte>)
    ensures |Decode(d, bytes).buf| <= SinceEnd(|d.buf|, bytes)
  {
    if bytes != [] { BufferedAtMostRaw(d, bytes[..|bytes| - 1]); }
  }

  /** No stretch between two ENDs is longer than the buffer leaves room for. */
  predicate ShortRuns(start: nat, bytes: seq<Byte>) {
    forall k :: 0 <= k < |bytes| ==> SinceEnd(start, bytes[..k]) < BUF_SIZE
  }

  /** Every byte is stored behind what is buffered before it is looked at. */
  predicate StaysInside(start: seq<Byte>, bytes: seq<Byte>) {
    bytes == [] ||
    (var front := bytes[..|bytes| - 1];
     StaysInside(start, front) && |Decode(Decoding(start, []), front).buf| < BUF_SIZE)
  }

  /** So each write hits the buffer exactly when no proper prefix of the bytes fills it. */
  lemma {:induction false} StaysInsideMeans(start: seq<Byte>, bytes: seq<Byte>)
    ensures StaysInside(start, bytes) <==>
            forall k :: 0 <= k < |bytes| ==> |Decode(Decoding(start, []), bytes[..k]).buf| < BUF_SIZE
  {
    if bytes != [] {
      var front := bytes[..|bytes| - 1];
      StaysInsideMeans(start, front);
      assert forall k :: 0 <= k <= |front| ==> front[..k] == bytes[..k];
      assert bytes[..|front|] == front;
    }
  }

  lemma ShortRunsStayInside(start: seq<Byte>, bytes: seq<Byte>)
    requires ShortRuns(|start|, bytes)
    ensures StaysInside(start, bytes)
  {
    forall k | 0 <= k < |bytes| ensures |Decode(Decoding(start, []), bytes[..k]).buf| < BUF_SIZE {
      BufferedAtMostRaw(Decoding(start, []), bytes[..k]);
      assert SinceEnd(|start|, bytes[..k]) < BUF_SIZE;
    }
    StaysInsideMeans(start, bytes);
  }

  /** `waiting` and `messages` are what the receiver holds after `bytes`, having started with `before`. */
  ghost predicate Fed(start: seq<Byte>, before: seq<Message>, bytes: seq<Byte>,
                      waiting: seq<Byte>, messages: seq<Message>)
  {
    var d := Decode(Decoding(start, []), bytes);
    waiting == d.buf && messages == before + Dispatched(d.frames)
  }

  lemma InsideOneMore(start: seq<Byte>, bytes: seq<Byte>, b: Byte)
    ensures StaysInside(start, bytes + [b]) <==>
            StaysInside(start, bytes) && |Decode(Decoding(start, []), bytes).buf| < BUF_SIZE
  {
    assert (bytes + [b])[..|bytes|] == bytes;
  }

  lemma DispatchedFirst(f: seq<Byte>)
    ensures Dispatched(Take(Decoding(f, []), END).frames)
            == if Validate(f).Some? then [Validate(f).value] else []
  {
    DispatchedOneMore([], f);
  }

  /** A frame dispatches the same whatever frames came before it. */
  lemma DispatchedAlone(frames: seq<seq<Byte>>, f: seq<Byte>)
    ensures Dispatched(frames + [f]) == Dispatched(frames) + Dispatched([f])
  {
    DispatchedOneMore(frames, f);
    DispatchedOneMore([], f);
    assert [] + [f] == [f];
  }

  lemma FedEnd(start: seq<Byte>, before: seq<Message>, bytes: seq<Byte>, waiting: seq<Byte>, messages: seq<Message>)
    requires Fed(start, before, bytes, waiting, messages)
    ensures Fed(start, before, bytes + [END], [], messages + Dispatched([waiting]))
  {
    var d := Decode(Decoding(start, []), bytes);
    assert (bytes + [END])[..|bytes|] == bytes;
    DispatchedAlone(d.frames, waiting);
    SumOfThree(before, Dispatched(d.frames), Dispatched([waiting]));
  }

  lemma FedOneMore(start: seq<Byte>, before: seq<Message>, bytes: seq<Byte>, b: Byte,
                   waiting: seq<Byte>, messages: seq<Message>)
    requires Fed(start, before, bytes, waiting, messages)
    ensures var d := Take(Decoding(waiting, []), b);
            Fed(start, before, bytes + [b], d.buf, messages + Dispatched(d.frames))
  {
    if b == END {
      FedEnd(start, before, bytes, waiting, messages);
      assert [] + [waiting] == [waiting];
    } else {
      assert (bytes + [b])[..|bytes|] == bytes;
      assert messages + Dispatched([]) == messages;
    }
  }

  /** The checks on a frame, in the order the receiver makes them. */
  method CheckFrame(frame: seq<Byte>) returns (message: Option<Message>)
    ensures message == Validate(frame)
  {
    if |frame| < PACKET_HDR + MSG_HDR {
      return None;
    }
    var checksum := CalculateBytesXor(0, frame[..PACKET_HDR - 1]);
    if checksum != frame[3] {
      return None;
    }
    var n := Le16(frame, 6);
    if Le16(frame, 1) != MSG_HDR + n {
      return None;
    }
    if frame[0] % 2 == 1 {
      if |frame| - PACKET_HDR - MSG_HDR <= n {
        return None;
      }
      checksum := CalculateBytesXor(0, frame[PACKET_HDR..8 + n]);
      if checksum != frame[|frame| - 1] {
        return None;
      }
    }
    var data := if 8 + n <= |frame| then frame[8..8 + n] else frame[8..];
    return Some(Message(Le16(frame, 4), n, data));
  }

  class Receiver {
    const rx: array<Byte>
    var size: nat
    var messages: seq<Message>

    ghost predicate Valid()
      reads this
    {
      rx.Length == BUF_SIZE && size <= BUF_SIZE
    }

    ghost function Waiting(): seq<Byte>
      reads this, rx
      requires Valid()
    {
      rx[..size]
    }

    constructor ()
      ensures Valid() && fresh(rx) && Waiting() == [] && messages == []
    {
      rx := new Byte[BUF_SIZE](_ => 0);
      size, messages := 0, [];
    }

    /** Check a complete frame and hand on its message. */
    method OnUartPacketRecv()
      requires Valid()
      modifies this`messages
      ensures messages == old(messages) + if Validate(Waiting()).Some? then [Validate(Waiting()).value] else []
    {
      var message := CheckFrame(rx[..size]);
      if message.Some? {
        messages := messages + [message.value];
      }
    }

    /** Store one byte; an END delivers the frame, an escape code rewrites the byte before it. */
    method ReceiveByte(b: Byte)
      requires Valid() && size < BUF_SIZE
      modifies this, rx
      ensures Valid()
      ensures var d := Take(Decoding(old(Waiting()), []), b);
              Waiting() == d.buf && messages == old(messages) + Dispatched(d.frames)
    {
      ghost var was := Waiting();
      rx[size] := b;
      assert rx[..size] == was;
      if rx[size] == END {
        DispatchedFirst(was);
        OnUartPacketRecv();
        size := 0;
      } else if rx[size] == ESC_END && size > 0 && rx[size - 1] == ESC {
        rx[size - 1] := END;
        assert rx[..size] == was[..|was| - 1] + [END];
      } else if rx[size] == ESC_ESC && size > 0 && rx[size - 1] == ESC {
        rx[size - 1] := ESC;
        assert rx[..size] == was[..|was| - 1] + [ESC];
      } else {
        size := size + 1;
        assert rx[..size] == was + [b];
      }
    }

    /** Feed received bytes. Where the program would write behind its buffer, the model stops. */
    method OnUartDataRecv(buffer: seq<Byte>) returns (inside: bool)
      requires Valid()
      modifies this, rx
      ensures Valid()
      ensures inside <==> StaysInside(old(Waiting()), buffer)
      ensures inside ==> Fed(old(Waiting()), old(messages), buffer, Waiting(), messages)
    {
      ghost var start, before := Waiting(), messages;
      inside := true;
      for i := 0 to |buffer|
        invariant Valid()
        invariant inside <==> StaysInside(start, buffer[..i])
        invariant inside ==> Fed(start, before, buffer[..i], Waiting(), messages)
      {
        assert buffer[..i + 1] == buffer[..i] + [buffer[i]];
        InsideOneMore(start, buffer[..i], buffer[i]);
        if inside {
          FedOneMore(start, before, buffer[..i], buffer[i], Waiting(), messages);
          if size < BUF_SIZE {
            ReceiveByte(buffer[i]);
          } else {
            inside := false;
          }
        }
      }
      assert buffer[..|buffer|] == buffer;
    }
  }
}
