/** The dispatcher as it runs: one table updated in place. */
module DispatcherLoop {
  import opened DispatcherSpec
  import opened Wrappers

  /** One call of the wait: it returns at the first message, timeout or error, and gives up after too
      many interrupts in that call. Third component: the wake-ups that are left. */
  function Wait(t: Table, ws: seq<Wake>, interrupts: nat): (Table, Outcome, seq<Wake>)
    requires forall w :: w in ws ==> w.Ready? ==> |w.input| == |t.slots|
    decreases |ws|
  {
    if ws == [] then
      (t, Quiet, [])
    else if ws[0].Interrupted? && interrupts + 1 >= MAX_INTERRUPTS then
      (t, Failed, ws[1..])
    else
      var r := OnWake(t, ws[0]);
      if r.1.Quiet? then
        WakeKeepsSize(t, ws[0]);
        Wait(r.0, ws[1..], if ws[0].Interrupted? then interrupts + 1 else interrupts)
      else
        (r.0, r.1, ws[1..])
  }

  lemma {:induction false} ScanKeepsSize(t: Table, ready: set<int>, input: seq<Received>, i: nat)
    requires i <= |t.slots| == |input|
    ensures |Scan(t, ready, input, i).0.slots| == |t.slots|
    decreases |t.slots| - i
  {
    if i < |t.slots| {
      if Readable(t.slots[i], ready) {
        ScanKeepsSize(ReadSlot(t, i, input[i]).0, ready, input, i + 1);
      } else {
        ScanKeepsSize(t, ready, input, i + 1);
      }
    }
  }

  lemma WakeKeepsSize(t: Table, w: Wake)
    requires Fits(t, w)
    ensures |OnWake(t, w).0.slots| == |t.slots|
  {
    if w.Ready? {
      if t.listener in w.ready {
        ScanKeepsSize(Accept(t, w.accepted).0, w.ready, w.input, 0);
      } else {
        ScanKeepsSize(t, w.ready, w.input, 0);
      }
    }
  }

  lemma {:induction false} PossibleFits(t: Table, ws: seq<Wake>)
    requires PossibleRun(t, ws)
    ensures forall w :: w in ws ==> w.Ready? ==> |w.input| == |t.slots|
    decreases |ws|
  {
    if ws != [] {
      WakeKeepsSize(t, ws[0]);
      PossibleFits(OnWake(t, ws[0]).0, ws[1..]);
      assert ws == [ws[0]] + ws[1..];
    }
  }

  /** However the wake-ups are cut into calls, the run is the same. */
  lemma {:induction false} WaitIsPartOfTheRun(t: Table, ws: seq<Wake>, interrupts: nat)
    requires PossibleRun(t, ws)
    requires forall w :: w in ws ==> w.Ready? ==> |w.input| == |t.slots|
    ensures var (t', o, rest) := Wait(t, ws, interrupts);
            && (ws != [] ==> |rest| < |ws|)
            && PossibleRun(t', rest) && After(t', rest) == After(t, ws)
            && Sent(t, ws) == (if o.Delivered? then Routed(t'.slots, o.message) else []) + Sent(t', rest)
    decreases |ws|
  {
    if ws != [] {
      WakeKeepsSize(t, ws[0]);
      if OnWake(t, ws[0]).1.Quiet? && !(ws[0].Interrupted? && interrupts + 1 >= MAX_INTERRUPTS) {
        WaitIsPartOfTheRun(OnWake(t, ws[0]).0, ws[1..], if ws[0].Interrupted? then interrupts + 1 else interrupts);
      }
    }
  }

  /** With `rest` still to come the run stands at `t`, and `sent` is what it has delivered. */
  ghost predicate Served(t0: Table, ws: seq<Wake>, t: Table, rest: seq<Wake>, sent: seq<Delivery>) {
    && PossibleRun(t0, ws) && PossibleRun(t, rest)
    && After(t, rest) == After(t0, ws) && sent + Sent(t, rest) == Sent(t0, ws)
  }

  lemma ServedNext(t0: Table, ws: seq<Wake>, t: Table, rest: seq<Wake>, sent: seq<Delivery>)
    requires Served(t0, ws, t, rest, sent) && rest != []
    requires forall w :: w in rest ==> w.Ready? ==> |w.input| == |t.slots|
    ensures var (t', o, rest') := Wait(t, rest, 0);
            && |rest'| < |rest|
            && Served(t0, ws, t', rest', if o.Delivered? then sent + Routed(t'.slots, o.message) else sent)
  {
    WaitIsPartOfTheRun(t, rest, 0);
    var (t', o, rest') := Wait(t, rest, 0);
    if o.Delivered? {
      SumOfThree(sent, Routed(t'.slots, o.message), Sent(t', rest'));
    } else {
      assert [] + Sent(t', rest') == Sent(t', rest');
    }
  }

  function LastResult(sent: seq<Delivery>, net: int -> int): int {
    if sent == [] then -1 else net(sent[|sent| - 1].fd)
  }

  class Dispatcher {
    const clients: array<Slot>
    const listener: int
    var clientNum: int
    var rfds: set<int>
    var maxfd: int

    ghost predicate Valid() {
      clients.Length == MAX_CLIENTS
    }

    ghost function State(): Table
      reads this, clients
    {
      Table(clients[..], clientNum, rfds, listener, maxfd)
    }

    constructor (servfd: int)
      ensures Valid() && fresh(clients) && State() == Fresh(servfd)
    {
      clients := new Slot[MAX_CLIENTS](_ => Slot(NO_FD, 0, 0, 0));
      listener, clientNum, rfds, maxfd := servfd, 0, {servfd}, servfd;
    }

    method ResetClient(i: nat)
      requires Valid() && i < MAX_CLIENTS
      modifies this, clients
      ensures State() == Reset(old(State()), i)
    {
      rfds := rfds - {clients[i].fd};
      clients[i] := clients[i].(fd := NO_FD);
      clientNum := clientNum - 1;
    }

    method ClientCheck(clientType: int) returns (r: int)
      requires Valid()
      ensures r == if Connected(clients[..], clientType) then 0 else -1
    {
      for i := 0 to MAX_CLIENTS
        invariant forall k :: 0 <= k < i ==> clients[k].clientType != clientType || clients[k].fd <= 0
      {
        if clients[i].clientType == clientType && clients[i].fd > 0 {
          assert clients[..][i] == clients[i];
          return 0;
        }
      }
      return -1;
    }

    /** Both refusals leave the descriptor open and unwatched. */
    method AcceptClient(fd: int) returns (ok: bool)
      requires Valid()
      modifies this, clients
      ensures (State(), ok) == Accept(old(State()), fd)
    {
      if clientNum >= MAX_CLIENTS {
        return false;
      }
      clientNum := clientNum + 1;
      var i := 0;
      while i < MAX_CLIENTS && clients[i].fd != NO_FD
        invariant 0 <= i <= MAX_CLIENTS
        invariant FirstFree(clients[..], 0) == FirstFree(clients[..], i)
        invariant State() == old(State()).(clientNum := old(clientNum) + 1)
      {
        i := i + 1;
      }
      if i == MAX_CLIENTS {
        return false;
      }
      clients[i] := clients[i].(fd := fd);
      if maxfd < fd {
        maxfd := fd;
      }
      rfds := rfds + {fd};
      return true;
    }

    method ReadClient(i: nat, r: Received) returns (o: Outcome)
      requires Valid() && i < MAX_CLIENTS
      modifies this, clients
      ensures (State(), o) == ReadSlot(old(State()), i, r)
    {
      match r
      case Broken =>
        ResetClient(i);
        o := Quiet;
      case ClientInfo(clientType, socketType, pid) =>
        clients[i] := Slot(clients[i].fd, clientType, socketType, pid);
        o := Quiet;
      case Whole(m) =>
        o := Delivered(Stamped(clients[i], m));
      case DataLost =>
        ResetClient(i);
        o := Failed;
    }

    method ScanClients(ready: set<int>, input: seq<Received>) returns (o: Outcome)
      requires Valid() && |input| == MAX_CLIENTS
      modifies this, clients
      ensures (State(), o) == Scan(old(State()), ready, input, 0)
    {
      for i := 0 to MAX_CLIENTS
        invariant Scan(State(), ready, input, i) == Scan(old(State()), ready, input, 0)
      {
        ghost var before := State();
        if Readable(clients[i], ready) {
          o := ReadClient(i, input[i]);
          assert (State(), o) == ReadSlot(before, i, input[i]);
          if !o.Quiet? {
            return;
          }
        }
      }
      return Quiet;
    }

    method ServeReadySockets(ready: set<int>, accepted: int, input: seq<Received>) returns (o: Outcome)
      requires Valid() && |input| == MAX_CLIENTS
      modifies this, clients
      ensures (State(), o) == ServeReady(old(State()), ready, accepted, input)
    {
      if listener in ready {
        if accepted == NO_FD {
          return Failed;
        }
        var ok := AcceptClient(accepted);
        if !ok {
          return Failed;
        }
      }
      o := ScanClients(ready, input);
    }

    /** Wait for one message. `wakes` is what `select` will return from now on. */
    method WaitForMsg(wakes: seq<Wake>) returns (o: Outcome, rest: seq<Wake>)
      requires Valid() && forall w :: w in wakes ==> w.Ready? ==> |w.input| == MAX_CLIENTS
      modifies this, clients
      ensures (State(), o, rest) == Wait(old(State()), wakes, 0)
    {
      var cnt := 0;
      rest := wakes;
      while rest != []
        invariant forall w :: w in rest ==> w.Ready? ==> |w.input| == MAX_CLIENTS
        invariant 0 <= cnt && Wait(State(), rest, cnt) == Wait(old(State()), wakes, 0)
        decreases |rest|
      {
        var w := rest[0];
        rest := rest[1..];
        match w {
          case Interrupted =>
            cnt := cnt + 1;
            if cnt >= MAX_INTERRUPTS {
              return Failed, rest;
            }
          case Again =>
          case SelectFails =>
            return Failed, rest;
          case Timeout =>
            return Nothing, rest;
          case Ready(ready, accepted, input) =>
            o := ServeReadySockets(ready, accepted, input);
            if !o.Quiet? {
              return o, rest;
            }
        }
      }
      o := Quiet;
    }

    /** Send a message on. `net` is what sending to a descriptor returns. */
    method SendMsgToClient(m: Message, net: int -> int) returns (sent: seq<Delivery>, ret: int)
      requires Valid()
      ensures sent == Routed(clients[..], m) && ret == LastResult(sent, net)
    {
      if m.src == APPLICATION && m.dst != APPLICATION && m.dst != DAEMON_ALL {
        var check := ClientCheck(m.dst);
        if check != 0 && m.appid > 0 {
          return [Delivery(m.appid, Bounced(m))], net(m.appid);
        }
      }
      sent, ret := [], -1;
      for i := 0 to MAX_CLIENTS
        invariant sent == Fan(clients[..], m, i) && ret == LastResult(sent, net)
      {
        var fd := clients[i].fd;
        if m.dst == DAEMON_ALL {
          if clients[i].clientType != APPLICATION && fd > 0 {
            sent, ret := sent + [Delivery(fd, m)], net(fd);
          }
        } else if clients[i].clientType == m.dst {
          if m.dst == APPLICATION {
            if m.appid > 0 {
              if fd == m.appid {
                sent, ret := sent + [Delivery(fd, m)], net(fd);
              }
            } else if fd > 0 && clients[i].socketType == SOCKET_EVENT {
              sent, ret := sent + [Delivery(fd, m)], net(fd);
            }
          } else if fd > 0 && clients[i].socketType == SOCKET_DEFAULT {
            sent, ret := sent + [Delivery(fd, m)], net(fd);
          }
        }
      }
    }

    /** The main loop: wait, then route what was received. */
    method Serve(wakes: seq<Wake>, net: int -> int) returns (sent: seq<Delivery>)
      requires Valid() && PossibleRun(State(), wakes)
      modifies this, clients
      ensures State() == After(old(State()), wakes) && sent == Sent(old(State()), wakes)
    {
      sent := [];
      var rest := wakes;
      while rest != []
        invariant Served(old(State()), wakes, State(), rest, sent)
        decreases |rest|
      {
        PossibleFits(State(), rest);
        ServedNext(old(State()), wakes, State(), rest, sent);
        var o;
        o, rest := WaitForMsg(rest);
        if o.Delivered? {
          var more, _ := SendMsgToClient(o.message, net);
          sent := sent + more;
        }
      }
      assert sent + [] == sent;
    }
  }
}
