/** What the dispatcher keeps over every run, and who gets which message. */
module DispatcherProofs {
  import opened DispatcherSpec

  // ----- the table invariant

  /** Occupied slots among `slots`. */
  function Live(slots: seq<Slot>): (n: nat)
    ensures n <= |slots|
  {
    if slots == [] then 0
    else Live(slots[..|slots| - 1]) + if slots[|slots| - 1].fd == NO_FD then 0 else 1
  }

  ghost predicate Distinct(slots: seq<Slot>) {
    forall i, j :: 0 <= i < |slots| && 0 <= j < |slots| && i != j && slots[i].fd != NO_FD ==>
      slots[i].fd != slots[j].fd
  }

  /** The counter counts, descriptors are distinct, and exactly the listener and they are watched. */
  ghost predicate Inv(t: Table) {
    && |t.slots| == MAX_CLIENTS
    && t.clientNum == Live(t.slots)
    && Distinct(t.slots)
    && (forall k :: 0 <= k < |t.slots| ==> t.slots[k].fd >= NO_FD)
    && (forall fd :: fd in t.rfds <==> fd == t.listener || Occupies(t.slots, fd))
    && t.listener >= 0 && !Occupies(t.slots, t.listener)
    && (forall fd :: fd in t.rfds ==> fd <= t.maxfd)
  }

  ghost predicate Occupies(slots: seq<Slot>, fd: int) {
    fd != NO_FD && exists k :: 0 <= k < |slots| && slots[k].fd == fd
  }

  lemma {:induction false} LiveAfterUpdate(slots: seq<Slot>, i: nat, x: Slot)
    requires i < |slots|
    ensures Live(slots[i := x]) ==
            Live(slots) - (if slots[i].fd == NO_FD then 0 else 1) + (if x.fd == NO_FD then 0 else 1)
  {
    var n := |slots| - 1;
    if i < n {
      assert slots[i := x][..n] == slots[..n][i := x];
      LiveAfterUpdate(slots[..n], i, x);
    } else {
      assert slots[i := x][..n] == slots[..n];
    }
  }

  lemma {:induction false} FullMeansAllLive(slots: seq<Slot>)
    ensures Live(slots) == |slots| <==> forall k :: 0 <= k < |slots| ==> slots[k].fd != NO_FD
  {
    if slots != [] {
      var front := slots[..|slots| - 1];
      FullMeansAllLive(front);
      assert forall k :: 0 <= k < |front| ==> front[k] == slots[k];
    }
  }

  lemma {:induction false} NoneLive(slots: seq<Slot>)
    requires forall k :: 0 <= k < |slots| ==> slots[k].fd == NO_FD
    ensures Live(slots) == 0
  {
    if slots != [] {
      NoneLive(slots[..|slots| - 1]);
    }
  }

  /** Past the count check a free slot exists: the second full-table branch is dead. */
  lemma FreeSlotExists(t: Table)
    requires Inv(t)
    ensures t.clientNum < MAX_CLIENTS <==> FirstFree(t.slots, 0) < MAX_CLIENTS
    ensures forall fd :: Accept(t, fd).1 <==> t.clientNum < MAX_CLIENTS
  {
    FullMeansAllLive(t.slots);
  }

  lemma FreshKeeps(listener: int)
    requires listener >= 0
    ensures Inv(Fresh(listener))
  {
    NoneLive(Fresh(listener).slots);
  }

  /** Replacing a slot by one with the same descriptor. */
  lemma RegisterKeeps(t: Table, i: nat, clientType: int, socketType: int, pid: int)
    requires Inv(t) && i < |t.slots|
    ensures Inv(Register(t, i, clientType, socketType, pid))
  {
    var t' := Register(t, i, clientType, socketType, pid);
    LiveAfterUpdate(t.slots, i, t'.slots[i]);
    assert forall k :: 0 <= k < |t.slots| ==> t'.slots[k].fd == t.slots[k].fd;
    forall fd ensures Occupies(t'.slots, fd) <==> Occupies(t.slots, fd) {
      if Occupies(t.slots, fd) {
        var k :| 0 <= k < |t.slots| && t.slots[k].fd == fd;
        assert t'.slots[k].fd == fd;
      }
    }
  }

  lemma OccupiesAfterUpdate(slots: seq<Slot>, i: nat, x: Slot, fd: int)
    requires i < |slots| && Distinct(slots)
    ensures Occupies(slots[i := x], fd) <==> fd != NO_FD && (x.fd == fd || (Occupies(slots, fd) && slots[i].fd != fd))
  {
    var s' := slots[i := x];
    if x.fd == fd {
      assert s'[i].fd == fd;
    } else if Occupies(slots, fd) {
      var k :| 0 <= k < |slots| && slots[k].fd == fd;
      if k != i {
        assert s'[k].fd == fd;
      }
    }
  }

  lemma ResetKeeps(t: Table, i: nat)
    requires Inv(t) && i < |t.slots| && t.slots[i].fd != NO_FD
    ensures Inv(Reset(t, i))
  {
    var t' := Reset(t, i);
    var x := t.slots[i].(fd := NO_FD);
    LiveAfterUpdate(t.slots, i, x);
    forall fd ensures Occupies(t'.slots, fd) <==> Occupies(t.slots, fd) && t.slots[i].fd != fd {
      OccupiesAfterUpdate(t.slots, i, x, fd);
    }
    assert Occupies(t.slots, t.slots[i].fd);
  }

  lemma AcceptKeeps(t: Table, fd: int)
    requires Inv(t) && fd >= 0 && fd !in t.rfds
    ensures Inv(Accept(t, fd).0)
  {
    FreeSlotExists(t);
    if t.clientNum < MAX_CLIENTS {
      var t', i := Accept(t, fd).0, FirstFree(t.slots, 0);
      var x := t.slots[i].(fd := fd);
      LiveAfterUpdate(t.slots, i, x);
      assert !Occupies(t.slots, fd);
      assert forall k :: 0 <= k < |t.slots| ==> t.slots[k].fd != fd;
      forall g ensures Occupies(t'.slots, g) <==> Occupies(t.slots, g) || g == fd {
        OccupiesAfterUpdate(t.slots, i, x, g);
      }
    }
  }

  lemma {:induction false} ScanKeeps(t: Table, ready: set<int>, input: seq<Received>, i: nat)
    requires Inv(t) && i <= |t.slots| == |input|
    ensures Inv(Scan(t, ready, input, i).0)
    decreases |t.slots| - i
  {
    if i < |t.slots| {
      if Readable(t.slots[i], ready) {
        match input[i] {
          case Broken => ResetKeeps(t, i);
          case ClientInfo(ct, st, pid) => RegisterKeeps(t, i, ct, st, pid);
          case Whole(_) =>
          case DataLost => ResetKeeps(t, i);
        }
        var step := ReadSlot(t, i, input[i]);
        if step.1.Quiet? {
          ScanKeeps(step.0, ready, input, i + 1);
        }
      } else {
        ScanKeeps(t, ready, input, i + 1);
      }
    }
  }

  lemma WakeKeeps(t: Table, w: Wake)
    requires Inv(t) && Possible(t, w)
    ensures Inv(OnWake(t, w).0)
  {
    if w.Ready? {
      if t.listener in w.ready {
        if w.accepted != NO_FD {
          AcceptKeeps(t, w.accepted);
          var a := Accept(t, w.accepted);
          if a.1 {
            ScanKeeps(a.0, w.ready, w.input, 0);
          }
        }
      } else {
        ScanKeeps(t, w.ready, w.input, 0);
      }
    }
  }

  lemma {:induction false} RunKeeps(t: Table, ws: seq<Wake>)
    requires Inv(t) && PossibleRun(t, ws)
    ensures Inv(After(t, ws))
    decreases |ws|
  {
    if ws != [] {
      WakeKeeps(t, ws[0]);
      RunKeeps(OnWake(t, ws[0]).0, ws[1..]);
    }
  }

  /** Every state reachable from the start has the invariant. */
  lemma ReachableStates(listener: int, ws: seq<Wake>)
    requires listener >= 0 && PossibleRun(Fresh(listener), ws)
    ensures Inv(After(Fresh(listener), ws))
  {
    FreshKeeps(listener);
    RunKeeps(Fresh(listener), ws);
  }

  // ----- what a slot holds after a wake-up

  /** No readable slot in front of `i` ends the visit with a message or a failure. Descriptor 0 is never
      readable. */
  predicate Reached(slots: seq<Slot>, ready: set<int>, input: seq<Received>, from: nat, i: nat)
    requires i <= |slots| == |input|
  {
    forall j :: from <= j < i && slots[j].fd > 0 && slots[j].fd in ready ==>
      input[j].Broken? || input[j].ClientInfo?
  }

  /** A slot after it was read: a registration sets the announced types and process and keeps the descriptor,
      a loss takes the descriptor and keeps the types, a message changes nothing. */
  predicate HeardAs(slot: Slot, r: Received, slot': Slot) {
    match r
    case ClientInfo(clientType, socketType, pid) =>
      && slot'.fd == slot.fd
      && slot'.clientType == clientType && slot'.socketType == socketType && slot'.pid == pid
    case Whole(_) => slot' == slot
    case _ =>
      && slot'.fd == -1
      && slot'.clientType == slot.clientType && slot'.socketType == slot.socketType && slot'.pid == slot.pid
  }

  lemma ReadsOneSlot(t: Table, i: nat, r: Received)
    requires i < |t.slots|
    ensures var t' := ReadSlot(t, i, r).0;
            && |t'.slots| == |t.slots| && HeardAs(t.slots[i], r, t'.slots[i])
            && (Distinct(t.slots) ==> Distinct(t'.slots))
            && forall k :: 0 <= k < |t.slots| && k != i ==> t'.slots[k] == t.slots[k]
  {}

  lemma ReachedNext(t: Table, ready: set<int>, input: seq<Received>, from: nat, i: nat)
    requires from < i < |t.slots| == |input| && Readable(t.slots[from], ready)
    ensures var step := ReadSlot(t, from, input[from]);
            && |step.0.slots| == |t.slots| && step.0.slots[i] == t.slots[i]
            && (Reached(t.slots, ready, input, from, i) <==>
                  step.1.Quiet? && Reached(step.0.slots, ready, input, from + 1, i))
  {
    ReadsOneSlot(t, from, input[from]);
  }

  /** What one slot holds after a scan: it was read, or it is as before. */
  lemma {:induction false} SlotAfterScan(t: Table, ready: set<int>, input: seq<Received>, from: nat, i: nat)
    requires from <= |t.slots| == |input| && i < |t.slots|
    ensures |Scan(t, ready, input, from).0.slots| == |t.slots|
    ensures var slot' := Scan(t, ready, input, from).0.slots[i];
            if from <= i && Readable(t.slots[i], ready) && Reached(t.slots, ready, input, from, i)
            then HeardAs(t.slots[i], input[i], slot')
            else slot' == t.slots[i]
    decreases |t.slots| - from
  {
    if from < |t.slots| {
      if Readable(t.slots[from], ready) {
        var step := ReadSlot(t, from, input[from]);
        ReadsOneSlot(t, from, input[from]);
        if from < i {
          ReachedNext(t, ready, input, from, i);
        }
        if step.1.Quiet? {
          SlotAfterScan(step.0, ready, input, from + 1, i);
        }
      } else {
        SlotAfterScan(t, ready, input, from + 1, i);
      }
    }
  }

  /** The clients are served at all: a readable listener has given a client a slot. */
  predicate ClientsServed(t: Table, w: Wake) {
    w.Ready? && (t.listener in w.ready ==> w.accepted != NO_FD && t.clientNum < MAX_CLIENTS)
  }

  /** What a client's slot holds after any wake-up. In particular a client that is read and registers has the
      announced types, and all clients that are not read keep theirs. */
  lemma SlotAfterWake(t: Table, w: Wake, i: nat)
    requires Inv(t) && Possible(t, w) && i < |t.slots| && t.slots[i].fd != NO_FD
    ensures |OnWake(t, w).0.slots| == |t.slots|
    ensures var slot' := OnWake(t, w).0.slots[i];
            if ClientsServed(t, w) && t.slots[i].fd > 0 && t.slots[i].fd in w.ready
               && Reached(t.slots, w.ready, w.input, 0, i)
            then HeardAs(t.slots[i], w.input[i], slot')
            else slot' == t.slots[i]
  {
    if w.Ready? {
      if t.listener in w.ready {
        FreeSlotExists(t);
        if w.accepted != NO_FD && t.clientNum < MAX_CLIENTS {
          SlotAfterScan(Accept(t, w.accepted).0, w.ready, w.input, 0, i);
          SeatIsNotRead(t, w, i);
        }
      } else {
        SlotAfterScan(t, w.ready, w.input, 0, i);
      }
    }
  }

  /** The client that was just accepted is not among the readable ones. */
  lemma SeatIsNotRead(t: Table, w: Wake, i: nat)
    requires Inv(t) && Possible(t, w) && i < |t.slots| && t.slots[i].fd != NO_FD
    requires w.Ready? && w.accepted != NO_FD && t.clientNum < MAX_CLIENTS
    ensures var slots' := Accept(t, w.accepted).0.slots;
            && |slots'| == |t.slots| && slots'[i] == t.slots[i]
            && (Reached(slots', w.ready, w.input, 0, i) <==> Reached(t.slots, w.ready, w.input, 0, i))
  {
    FreeSlotExists(t);
    var slots', free := Accept(t, w.accepted).0.slots, FirstFree(t.slots, 0);
    assert forall k :: 0 <= k < |t.slots| && k != free ==> slots'[k] == t.slots[k];
    assert !Readable(slots'[free], w.ready) && !Readable(t.slots[free], w.ready);
  }

  /** Where a scan ends: at the first readable slot with a message or a failure, or behind the last slot. */
  lemma {:induction false} ScanEnds(t: Table, ready: set<int>, input: seq<Received>, from: nat) returns (i: nat)
    requires from <= |t.slots| == |input|
    ensures from <= i <= |t.slots| && Reached(t.slots, ready, input, from, i)
    ensures i < |t.slots| ==> t.slots[i].fd > 0 && t.slots[i].fd in ready && (input[i].Whole? || input[i].DataLost?)
    ensures Scan(t, ready, input, from).1 ==
            if i == |t.slots| then Quiet
            else if input[i].Whole? then Delivered(Stamped(t.slots[i], input[i].message))
            else Failed
    decreases |t.slots| - from
  {
    if from == |t.slots| {
      i := from;
    } else if Readable(t.slots[from], ready) {
      var step := ReadSlot(t, from, input[from]);
      ReadsOneSlot(t, from, input[from]);
      if step.1.Quiet? {
        i := ScanEnds(step.0, ready, input, from + 1);
        assert forall j :: from < j < |t.slots| ==> step.0.slots[j] == t.slots[j];
      } else {
        i := from;
      }
    } else {
      i := ScanEnds(t, ready, input, from + 1);
    }
  }

  /** What a wake-up tells the caller: a timeout is nothing, an error of `select` or at the listener is a
      failure, and otherwise the first readable client with a message or a failure decides. */
  lemma WakeOutcome(t: Table, w: Wake) returns (i: nat)
    requires Inv(t) && Possible(t, w)
    ensures OnWake(t, w).1.Nothing? <==> w.Timeout?
    ensures w.SelectFails? ==> OnWake(t, w).1.Failed?
    ensures w.Interrupted? || w.Again? ==> OnWake(t, w).1.Quiet?
    ensures !w.Ready? ==> OnWake(t, w).0 == t
    ensures w.Ready? && !ClientsServed(t, w) ==> OnWake(t, w).1.Failed?
    ensures ClientsServed(t, w) ==>
              && i <= |t.slots| && Reached(t.slots, w.ready, w.input, 0, i)
              && (i < |t.slots| ==> t.slots[i].fd > 0 && t.slots[i].fd in w.ready
                                    && (w.input[i].Whole? || w.input[i].DataLost?))
              && OnWake(t, w).1 == if i == |t.slots| then Quiet
                                   else if w.input[i].Whole? then Delivered(Stamped(t.slots[i], w.input[i].message))
                                   else Failed
  {
    i := 0;
    FreeSlotExists(t);
    if ClientsServed(t, w) {
      if t.listener in w.ready {
        i := ScanEnds(Accept(t, w.accepted).0, w.ready, w.input, 0);
        SeatEndsAlike(t, w, i);
      } else {
        i := ScanEnds(t, w.ready, w.input, 0);
      }
    }
  }

  lemma SeatEndsAlike(t: Table, w: Wake, i: nat)
    requires Inv(t) && Possible(t, w) && i <= |t.slots|
    requires w.Ready? && w.accepted != NO_FD && t.clientNum < MAX_CLIENTS
    ensures var slots', free := Accept(t, w.accepted).0.slots, FirstFree(t.slots, 0);
            && |slots'| == |t.slots| && free < |t.slots|
            && (Reached(slots', w.ready, w.input, 0, i) <==> Reached(t.slots, w.ready, w.input, 0, i))
            && !(slots'[free].fd in w.ready)
            && forall k :: 0 <= k < |t.slots| && k != free ==> slots'[k] == t.slots[k]
  {
    FreeSlotExists(t);
    var slots', free := Accept(t, w.accepted).0.slots, FirstFree(t.slots, 0);
    assert forall k :: 0 <= k < |t.slots| && k != free ==> slots'[k] == t.slots[k];
    assert slots'[free].fd == w.accepted && t.slots[free].fd == NO_FD;
  }

  // ----- who gets a message

  function Times(sent: seq<Delivery>, fd: int): nat {
    if sent == [] then 0 else Times(sent[..|sent| - 1], fd) + if sent[|sent| - 1].fd == fd then 1 else 0
  }

  ghost predicate WantedAt(slots: seq<Slot>, m: Message, fd: int, n: nat)
    requires n <= |slots|
  {
    exists k :: 0 <= k < n && slots[k].fd == fd && Wanted(slots[k], m)
  }

  lemma TimesAppend(sent: seq<Delivery>, d: Delivery, fd: int)
    ensures Times(sent + [d], fd) == Times(sent, fd) + if d.fd == fd then 1 else 0
  {
    assert (sent + [d])[..|sent|] == sent;
  }

  lemma WantedAtNext(slots: seq<Slot>, m: Message, fd: int, n: nat)
    requires Distinct(slots) && n < |slots| && fd != NO_FD
    ensures WantedAt(slots, m, fd, n + 1) <==> WantedAt(slots, m, fd, n) || (slots[n].fd == fd && Wanted(slots[n], m))
    ensures slots[n].fd == fd ==> !WantedAt(slots, m, fd, n)
  {}

  lemma {:induction false} FanReaches(slots: seq<Slot>, m: Message, n: nat, fd: int)
    requires Distinct(slots) && n <= |slots| && fd != NO_FD
    ensures Times(Fan(slots, m, n), fd) == if WantedAt(slots, m, fd, n) then 1 else 0
  {
    if n > 0 {
      FanReaches(slots, m, n - 1, fd);
      WantedAtNext(slots, m, fd, n - 1);
      if Wanted(slots[n - 1], m) {
        TimesAppend(Fan(slots, m, n - 1), Delivery(slots[n - 1].fd, m), fd);
      }
    }
  }

  lemma {:induction false} FanCarries(slots: seq<Slot>, m: Message, n: nat)
    requires n <= |slots|
    ensures forall d :: d in Fan(slots, m, n) ==> d.message == m
  {
    if n > 0 {
      FanCarries(slots, m, n - 1);
    }
  }

  /** The fan-out is exact: the message itself, once to every wanted client and never to another. */
  lemma FanIsExact(t: Table, m: Message, fd: int)
    requires Inv(t) && fd != NO_FD && !Bounces(t.slots, m)
    ensures Times(Routed(t.slots, m), fd) == if WantedAt(t.slots, m, fd, |t.slots|) then 1 else 0
    ensures forall d :: d in Routed(t.slots, m) ==> d.message == m
  {
    FanReaches(t.slots, m, |t.slots|, fd);
    FanCarries(t.slots, m, |t.slots|);
  }

  /** A broadcast reaches exactly the clients whose slot is not an application's, once each. */
  lemma BroadcastIsExact(t: Table, m: Message, k: nat)
    requires Inv(t) && k < |t.slots| && t.slots[k].fd > 0 && m.dst == DAEMON_ALL
    ensures Times(Routed(t.slots, m), t.slots[k].fd) == if t.slots[k].clientType != APPLICATION then 1 else 0
  {
    FanIsExact(t, m, t.slots[k].fd);
    OnlyHolderMatters(t, m, k);
  }

  /** An event for the applications reaches exactly their event sockets, once each. */
  lemma EventIsExact(t: Table, m: Message, k: nat)
    requires Inv(t) && k < |t.slots| && t.slots[k].fd > 0 && m.dst == APPLICATION && m.appid <= 0
    ensures Times(Routed(t.slots, m), t.slots[k].fd)
            == if t.slots[k].clientType == APPLICATION && t.slots[k].socketType == SOCKET_EVENT then 1 else 0
    ensures forall d :: d in Routed(t.slots, m) ==> d.message == m
  {
    FanIsExact(t, m, t.slots[k].fd);
    OnlyHolderMatters(t, m, k);
  }

  lemma OnlyHolderMatters(t: Table, m: Message, k: nat)
    requires Inv(t) && k < |t.slots| && t.slots[k].fd != NO_FD
    ensures WantedAt(t.slots, m, t.slots[k].fd, |t.slots|) <==> Wanted(t.slots[k], m)
  {
    if WantedAt(t.slots, m, t.slots[k].fd, |t.slots|) {
      var j :| 0 <= j < |t.slots| && t.slots[j].fd == t.slots[k].fd && Wanted(t.slots[j], m);
      assert j == k;
    }
  }

  /** A command whose target is connected reaches exactly the target's default sockets; otherwise the
      one delivery is the bounce to its sender. */
  lemma CommandIsExact(t: Table, m: Message, k: nat)
    requires Inv(t) && k < |t.slots| && t.slots[k].fd > 0
    requires m.src == APPLICATION && m.dst != APPLICATION && m.dst != DAEMON_ALL && m.appid > 0
    ensures Connected(t.slots, m.dst) ==>
              Times(Routed(t.slots, m), t.slots[k].fd)
              == if t.slots[k].clientType == m.dst && t.slots[k].socketType == SOCKET_DEFAULT then 1 else 0
    ensures !Connected(t.slots, m.dst) ==>
              Routed(t.slots, m)
              == [Delivery(m.appid, Message(NOT_SUPPORT, m.dst, APPLICATION, m.appid, NOT_SUPPORT, m.data))]
  {
    if Connected(t.slots, m.dst) {
      FanIsExact(t, m, t.slots[k].fd);
      OnlyHolderMatters(t, m, k);
    }
  }

  /** At most one slot is wanted. */
  lemma {:induction false} FanOfOne(slots: seq<Slot>, m: Message, n: nat, i: nat)
    requires n <= |slots| && i < |slots|
    requires forall k :: 0 <= k < n && k != i ==> !Wanted(slots[k], m)
    ensures Fan(slots, m, n) == if i < n && Wanted(slots[i], m) then [Delivery(slots[i].fd, m)] else []
  {
    if n > 0 {
      FanOfOne(slots, m, n - 1, i);
    }
  }

  /** A message for a daemon that is not connected is dropped, unless it is an application's command. */
  lemma NobodyToTell(t: Table, m: Message)
    requires Inv(t) && m.dst != APPLICATION && m.dst != DAEMON_ALL
    requires forall k :: 0 <= k < |t.slots| && t.slots[k].clientType == m.dst ==> t.slots[k].fd <= 0
    ensures Routed(t.slots, m) ==
            if m.src == APPLICATION && m.appid > 0
            then [Delivery(m.appid, Message(NOT_SUPPORT, m.dst, APPLICATION, m.appid, NOT_SUPPORT, m.data))]
            else []
  {
    FanOfOne(t.slots, m, |t.slots|, 0);
  }

  /** A reply goes to whoever holds the descriptor it names, and only if that slot is typed as an
      application; the code does not ask whether it is still the client that sent the command. */
  lemma ReplyReachesHolder(t: Table, m: Message, k: nat)
    requires Inv(t) && k < |t.slots| && m.dst == APPLICATION && m.appid > 0 && t.slots[k].fd == m.appid
    ensures Routed(t.slots, m) == if t.slots[k].clientType == APPLICATION then [Delivery(m.appid, m)] else []
  {
    assert forall j :: 0 <= j < |t.slots| && j != k ==> t.slots[j].fd != m.appid;
    FanOfOne(t.slots, m, |t.slots|, k);
  }

  lemma ReplyToNobody(t: Table, m: Message)
    requires Inv(t) && m.dst == APPLICATION && m.appid > 0 && !Occupies(t.slots, m.appid)
    ensures Routed(t.slots, m) == []
  {
    assert forall j :: 0 <= j < |t.slots| ==> t.slots[j].fd != m.appid;
    FanOfOne(t.slots, m, |t.slots|, 0);
  }

  // ----- replies over whole runs

  /** A registered command socket of an application. */
  predicate Commander(t: Table, i: nat, fd: int) {
    i < |t.slots| && t.slots[i].fd == fd > 0
    && t.slots[i].clientType == APPLICATION && t.slots[i].socketType == SOCKET_COMMAND
  }

  /** In this wake-up the client on slot `i` neither goes away nor registers anew. */
  predicate Stays(w: Wake, i: nat, fd: int) {
    w.Ready? && fd in w.ready ==> i < |w.input| && w.input[i].Whole?
  }

  lemma {:induction false} ScanLeavesSlot(t: Table, ready: set<int>, input: seq<Received>, j: nat, i: nat)
    requires j <= |t.slots| == |input| && i < |t.slots|
    requires Readable(t.slots[i], ready) ==> input[i].Whole?
    ensures Scan(t, ready, input, j).0.slots != [] && |Scan(t, ready, input, j).0.slots| == |t.slots|
    ensures Scan(t, ready, input, j).0.slots[i] == t.slots[i]
    decreases |t.slots| - j
  {
    if j < |t.slots| {
      if Readable(t.slots[j], ready) {
        var step := ReadSlot(t, j, input[j]);
        if step.1.Quiet? {
          ScanLeavesSlot(step.0, ready, input, j + 1, i);
        }
      } else {
        ScanLeavesSlot(t, ready, input, j + 1, i);
      }
    }
  }

  lemma WakeKeepsCommander(t: Table, w: Wake, i: nat, fd: int)
    requires Inv(t) && Possible(t, w) && Commander(t, i, fd) && Stays(w, i, fd)
    ensures Commander(OnWake(t, w).0, i, fd)
  {
    if w.Ready? {
      if t.listener in w.ready {
        if w.accepted != NO_FD {
          FreeSlotExists(t);
          var a := Accept(t, w.accepted);
          if a.1 {
            assert a.0.slots[i] == t.slots[i];
            ScanLeavesSlot(a.0, w.ready, w.input, 0, i);
          }
        }
      } else {
        ScanLeavesSlot(t, w.ready, w.input, 0, i);
      }
    }
  }

  lemma {:induction false} RunKeepsCommander(t: Table, ws: seq<Wake>, i: nat, fd: int)
    requires Inv(t) && PossibleRun(t, ws) && Commander(t, i, fd)
    requires forall w :: w in ws ==> Stays(w, i, fd)
    ensures Commander(After(t, ws), i, fd)
    decreases |ws|
  {
    if ws != [] {
      assert ws[0] in ws;
      WakeKeeps(t, ws[0]);
      WakeKeepsCommander(t, ws[0], i, fd);
      assert forall w :: w in ws[1..] ==> w in ws;
      RunKeepsCommander(OnWake(t, ws[0]).0, ws[1..], i, fd);
    }
  }

  /** Which slot a delivered message was read from. */
  lemma {:induction false} DeliveredFrom(t: Table, ready: set<int>, input: seq<Received>, i: nat) returns (k: nat)
    requires i <= |t.slots| == |input| && Scan(t, ready, input, i).1.Delivered?
    ensures i <= k < |t.slots| && input[k].Whole?
    ensures var r := Scan(t, ready, input, i);
            |r.0.slots| == |t.slots| && Readable(r.0.slots[k], ready)
            && r.1.message == Stamped(r.0.slots[k], input[k].message)
    decreases |t.slots| - i
  {
    if Readable(t.slots[i], ready) {
      var step := ReadSlot(t, i, input[i]);
      if step.1.Quiet? {
        k := DeliveredFrom(step.0, ready, input, i + 1);
      } else {
        k := i;
      }
    } else {
      k := DeliveredFrom(t, ready, input, i + 1);
    }
  }

  /** A message comes from a readable client and is stamped with that slot's type and, on a command
      socket, with its descriptor, whatever the client wrote there. */
  lemma MessageNamesItsSender(t: Table, w: Wake) returns (k: nat)
    requires Inv(t) && Possible(t, w) && OnWake(t, w).1.Delivered?
    ensures w.Ready? && k < |w.input| && w.input[k].Whole?
    ensures var (t', o) := OnWake(t, w);
            && |t'.slots| == MAX_CLIENTS && Readable(t'.slots[k], w.ready)
            && o.message.src == t'.slots[k].clientType
            && (t'.slots[k].socketType == SOCKET_COMMAND ==> o.message.appid == t'.slots[k].fd)
            && (t'.slots[k].socketType != SOCKET_COMMAND ==> o.message.appid == w.input[k].message.appid)
  {
    WakeKeeps(t, w);
    if t.listener in w.ready {
      k := DeliveredFrom(Accept(t, w.accepted).0, w.ready, w.input, 0);
    } else {
      k := DeliveredFrom(t, w.ready, w.input, 0);
    }
  }

  /** The deliveries for a command of the client on slot `i`: the command, naming it, once to each default
      socket of its target; or one bounce when the target has no client. */
  ghost predicate Served(t: Table, i: nat, command: Message, sent: seq<Delivery>)
    requires i < |t.slots|
  {
    var fd := t.slots[i].fd;
    var m := command.(src := APPLICATION, appid := fd);
    if Connected(t.slots, m.dst) then
      && (forall j :: 0 <= j < |t.slots| && t.slots[j].fd > 0 ==>
            Times(sent, t.slots[j].fd)
            == if t.slots[j].clientType == m.dst && t.slots[j].socketType == SOCKET_DEFAULT then 1 else 0)
      && (forall d :: d in sent ==> d.message == m)
    else
      sent == [Delivery(fd, Message(NOT_SUPPORT, m.dst, APPLICATION, fd, NOT_SUPPORT, m.data))]
  }

  lemma RoutedCommandIsServed(t: Table, i: nat, command: Message)
    requires Inv(t) && i < |t.slots| && Commander(t, i, t.slots[i].fd)
    requires command.dst != APPLICATION && command.dst != DAEMON_ALL
    ensures Served(t, i, command, Routed(t.slots, Stamped(t.slots[i], command)))
  {
    var m := Stamped(t.slots[i], command);
    forall j | 0 <= j < |t.slots| && t.slots[j].fd > 0 && Connected(t.slots, m.dst)
      ensures Times(Routed(t.slots, m), t.slots[j].fd)
              == if t.slots[j].clientType == m.dst && t.slots[j].socketType == SOCKET_DEFAULT then 1 else 0
    {
      CommandIsExact(t, m, j);
    }
    CommandIsExact(t, m, i);
    if Connected(t.slots, m.dst) {
      FanIsExact(t, m, m.appid);
    }
  }

  /** From reading to delivery in one wake-up: a command read from a command socket is served. */
  lemma CommandIsServed(t: Table, w: Wake) returns (i: nat)
    requires Inv(t) && Possible(t, w) && OnWake(t, w).1.Delivered?
    ensures w.Ready? && i < |w.input| && w.input[i].Whole?
    ensures var t', command := OnWake(t, w).0, w.input[i].message;
            && i < |t'.slots| && Readable(t'.slots[i], w.ready)
            && (Commander(t', i, t'.slots[i].fd) && command.dst != APPLICATION && command.dst != DAEMON_ALL ==>
                  Served(t', i, command, Log(t, w)))
  {
    WakeKeeps(t, w);
    if t.listener in w.ready {
      i := DeliveredFrom(Accept(t, w.accepted).0, w.ready, w.input, 0);
    } else {
      i := DeliveredFrom(t, w.ready, w.input, 0);
    }
    var t', command := OnWake(t, w).0, w.input[i].message;
    if Commander(t', i, t'.slots[i].fd) && command.dst != APPLICATION && command.dst != DAEMON_ALL {
      RoutedCommandIsServed(t', i, command);
    }
  }

  /** A command names its sender; after any run in which that client stays, a reply naming it back is
      delivered once, to it, and to nobody else. */
  lemma ReplyFindsItsSender(t: Table, w: Wake, i: nat, ws: seq<Wake>, w': Wake)
    requires Inv(t) && Possible(t, w) && OnWake(t, w).1.Delivered?
    requires Commander(OnWake(t, w).0, i, OnWake(t, w).1.message.appid)
    requires PossibleRun(OnWake(t, w).0, ws) && Possible(After(OnWake(t, w).0, ws), w')
    requires forall v :: v in ws + [w'] ==> Stays(v, i, OnWake(t, w).1.message.appid)
    requires OnWake(After(OnWake(t, w).0, ws), w').1.Delivered?
    requires var reply := OnWake(After(OnWake(t, w).0, ws), w').1.message;
             reply.dst == APPLICATION && reply.appid == OnWake(t, w).1.message.appid
    ensures var reply := OnWake(After(OnWake(t, w).0, ws), w').1.message;
            Log(After(OnWake(t, w).0, ws), w') == [Delivery(OnWake(t, w).1.message.appid, reply)]
  {
    var (t1, o) := OnWake(t, w);
    var fd := o.message.appid;
    WakeKeeps(t, w);
    assert forall v :: v in ws ==> v in ws + [w'];
    RunKeeps(t1, ws);
    RunKeepsCommander(t1, ws, i, fd);
    var t2 := After(t1, ws);
    assert w' in ws + [w'];
    WakeKeeps(t2, w');
    WakeKeepsCommander(t2, w', i, fd);
    ReplyReachesHolder(OnWake(t2, w').0, OnWake(t2, w').1.message, i);
  }

  // ----- what an unregistered client receives

  /** In a new table nobody has a type: until a client registers it is sent nothing that is addressed to one
      daemon or to the applications. */
  lemma FirstClientHearsNothing(listener: int, fd: int, m: Message)
    requires listener >= 0 && fd > 0 && fd != listener && 1 <= m.dst <= 8 && m.src != APPLICATION
    ensures Routed(Accept(Fresh(listener), fd).0.slots, m) == []
  {
    FreshKeeps(listener);
    AcceptKeeps(Fresh(listener), fd);
    FanOfOne(Accept(Fresh(listener), fd).0.slots, m, MAX_CLIENTS, 0);
  }

  // ----- what a reused slot receives

  /** A new client inherits the types of its slot, so until it registers it is sent a reply naming its
      descriptor if and only if the slot's previous occupant was an application. */
  lemma NewClientGetsReply(t: Table, fd: int, reply: Message)
    requires Inv(t) && fd > 0 && fd !in t.rfds && t.clientNum < MAX_CLIENTS
    requires reply.dst == APPLICATION && reply.appid == fd
    ensures FirstFree(t.slots, 0) < |t.slots|
    ensures Routed(Accept(t, fd).0.slots, reply)
            == if t.slots[FirstFree(t.slots, 0)].clientType == APPLICATION then [Delivery(fd, reply)] else []
  {
    FreeSlotExists(t);
    AcceptKeeps(t, fd);
    ReplyReachesHolder(Accept(t, fd).0, reply, FirstFree(t.slots, 0));
  }

  /** So a reply outlives its sender: hang up, and the next client to be given the same descriptor in
      the same slot is sent what the first one asked for. */
  lemma StrangerGetsReply(t: Table, i: nat, fd: int, reply: Message)
    requires Inv(t) && Commander(t, i, fd) && reply.dst == APPLICATION && reply.appid == fd
    requires FirstFree(Reset(t, i).slots, 0) == i
    ensures Routed(Reset(t, i).slots, reply) == []
    ensures Routed(Accept(Reset(t, i), fd).0.slots, reply) == [Delivery(fd, reply)]
  {
    ResetKeeps(t, i);
    var gone := Reset(t, i);
    FullMeansAllLive(gone.slots);
    OccupiesAfterUpdate(t.slots, i, t.slots[i].(fd := NO_FD), fd);
    ReplyToNobody(gone, reply);
    NewClientGetsReply(gone, fd, reply);
  }
}
