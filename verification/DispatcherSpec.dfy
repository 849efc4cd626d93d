/**
 The message dispatcher as functions: the client table, one wake-up of its select loop, and the fan-out
 of one message.
 */
module DispatcherSpec {

  const MAX_CLIENTS := 128
  const NO_FD := -1
  const MAX_INTERRUPTS := 9999

  /** Client types; the daemons are 2 to 8. */
  const APPLICATION := 1
  const DAEMON_ALL := 9
  const SOCKET_DEFAULT := 1
  const SOCKET_EVENT := 2
  const SOCKET_COMMAND := 3
  const NOT_SUPPORT := 37

  /** A reset slot keeps its types until the next occupant registers. */
  datatype Slot = Slot(fd: int, clientType: int, socketType: int, pid: int)

  datatype Table = Table(slots: seq<Slot>, clientNum: int, rfds: set<int>, listener: int, maxfd: int)

  datatype Message = Message(kind: int, src: int, dst: int, appid: int, eventType: int, data: seq<int>)

  /** What reading one client's socket yields. */
  datatype Received =
    | Broken
    | ClientInfo(clientType: int, socketType: int, pid: int)
    | Whole(message: Message)
    | DataLost

  /** How one `select` ends. A readable listener makes `accept` return `accepted`. */
  datatype Wake =
    | Interrupted
    | Again
    | SelectFails
    | Timeout
    | Ready(ready: set<int>, accepted: int, input: seq<Received>)

  /** What a wake-up means for the caller; after `Quiet` the loop goes on. */
  datatype Outcome = Quiet | Nothing | Failed | Delivered(message: Message)

  datatype Delivery = Delivery(fd: int, message: Message)

  // ----- the table

  function Fresh(listener: int): Table {
    Table(seq(MAX_CLIENTS, i => Slot(NO_FD, 0, 0, 0)), 0, {listener}, listener, listener)
  }

  function Reset(t: Table, i: nat): Table
    requires i < |t.slots|
  {
    t.(slots := t.slots[i := t.slots[i].(fd := NO_FD)],
       clientNum := t.clientNum - 1,
       rfds := t.rfds - {t.slots[i].fd})
  }

  function Register(t: Table, i: nat, clientType: int, socketType: int, pid: int): Table
    requires i < |t.slots|
  {
    t.(slots := t.slots[i := Slot(t.slots[i].fd, clientType, socketType, pid)])
  }

  function FirstFree(slots: seq<Slot>, from: nat): (i: nat)
    requires from <= |slots|
    ensures from <= i <= |slots|
    ensures forall k :: from <= k < i ==> slots[k].fd != NO_FD
    ensures i < |slots| ==> slots[i].fd == NO_FD
    decreases |slots| - from
  {
    if from == |slots| || slots[from].fd == NO_FD then from else FirstFree(slots, from + 1)
  }

  /** The counter goes up before a slot is searched for. The second component says whether it went in. */
  function Accept(t: Table, fd: int): (Table, bool) {
    if t.clientNum >= MAX_CLIENTS then
      (t, false)
    else
      var i := FirstFree(t.slots, 0);
      if i == |t.slots| then
        (t.(clientNum := t.clientNum + 1), false)
      else
        (t.(slots := t.slots[i := t.slots[i].(fd := fd)],
            clientNum := t.clientNum + 1,
            maxfd := if t.maxfd < fd then fd else t.maxfd,
            rfds := t.rfds + {fd}), true)
  }

  // ----- one wake-up

  function Stamped(slot: Slot, m: Message): Message {
    m.(src := slot.clientType, appid := if slot.socketType == SOCKET_COMMAND then slot.fd else m.appid)
  }

  function ReadSlot(t: Table, i: nat, r: Received): (Table, Outcome)
    requires i < |t.slots|
  {
    match r
    case Broken => (Reset(t, i), Quiet)
    case ClientInfo(ct, st, pid) => (Register(t, i, ct, st, pid), Quiet)
    case Whole(m) => (t, Delivered(Stamped(t.slots[i], m)))
    case DataLost => (Reset(t, i), Failed)
  }

  predicate Readable(slot: Slot, ready: set<int>) {
    slot.fd > 0 && slot.fd in ready
  }

  /** Visit the slots from `i` on, up to the first message or failure. */
  function Scan(t: Table, ready: set<int>, input: seq<Received>, i: nat): (r: (Table, Outcome))
    requires i <= |t.slots| == |input|
    decreases |t.slots| - i
  {
    if i == |t.slots| then
      (t, Quiet)
    else if Readable(t.slots[i], ready) then
      var step := ReadSlot(t, i, input[i]);
      if step.1.Quiet? then Scan(step.0, ready, input, i + 1) else step
    else
      Scan(t, ready, input, i + 1)
  }

  function ServeReady(t: Table, ready: set<int>, accepted: int, input: seq<Received>): (Table, Outcome)
    requires |t.slots| == |input|
  {
    if t.listener in ready then
      if accepted == NO_FD then
        (t, Failed)
      else
        var a := Accept(t, accepted);
        if a.1 then Scan(a.0, ready, input, 0) else (a.0, Failed)
    else
      Scan(t, ready, input, 0)
  }

  predicate Fits(t: Table, w: Wake) {
    w.Ready? ==> |w.input| == |t.slots|
  }

  /** The interrupts that end the wait belong to the caller's count, not to the table. */
  function OnWake(t: Table, w: Wake): (Table, Outcome)
    requires Fits(t, w)
  {
    match w
    case Interrupted => (t, Quiet)
    case Again => (t, Quiet)
    case SelectFails => (t, Failed)
    case Timeout => (t, Nothing)
    case Ready(ready, accepted, input) => ServeReady(t, ready, accepted, input)
  }

  // ----- the fan-out of one message

  predicate Connected(slots: seq<Slot>, clientType: int) {
    exists k :: 0 <= k < |slots| && slots[k].clientType == clientType && slots[k].fd > 0
  }

  predicate Bounces(slots: seq<Slot>, m: Message) {
    m.src == APPLICATION && m.dst != APPLICATION && m.dst != DAEMON_ALL && !Connected(slots, m.dst) && m.appid > 0
  }

  function Bounced(m: Message): Message {
    m.(src := m.dst, dst := APPLICATION, kind := NOT_SUPPORT, eventType := NOT_SUPPORT)
  }

  predicate Wanted(slot: Slot, m: Message) {
    if m.dst == DAEMON_ALL then
      slot.clientType != APPLICATION && slot.fd > 0
    else if slot.clientType == m.dst then
      if m.dst == APPLICATION then
        if m.appid > 0 then slot.fd == m.appid else slot.fd > 0 && slot.socketType == SOCKET_EVENT
      else
        slot.fd > 0 && slot.socketType == SOCKET_DEFAULT
    else
      false
  }

  /** What the first `n` slots are sent. */
  function Fan(slots: seq<Slot>, m: Message, n: nat): seq<Delivery>
    requires n <= |slots|
  {
    if n == 0 then []
    else if Wanted(slots[n - 1], m) then Fan(slots, m, n - 1) + [Delivery(slots[n - 1].fd, m)]
    else Fan(slots, m, n - 1)
  }

  function Routed(slots: seq<Slot>, m: Message): seq<Delivery> {
    if Bounces(slots, m) then [Delivery(m.appid, Bounced(m))] else Fan(slots, m, |slots|)
  }

  // ----- the main loop

  /** What the kernel guarantees: only watched descriptors are readable and an accepted one is new. */
  predicate Possible(t: Table, w: Wake) {
    w.Ready? ==>
      && |w.input| == |t.slots|
      && w.ready <= t.rfds
      && (w.accepted == NO_FD || (w.accepted >= 0 && w.accepted !in t.rfds))
  }

  function Log(t: Table, w: Wake): seq<Delivery>
    requires Fits(t, w)
  {
    var r := OnWake(t, w);
    if r.1.Delivered? then Routed(r.0.slots, r.1.message) else []
  }

  /** Serve the wake-ups in turn, routing each message as it comes. */
  ghost predicate PossibleRun(t: Table, ws: seq<Wake>)
    decreases |ws|
  {
    ws != [] ==> Possible(t, ws[0]) && PossibleRun(OnWake(t, ws[0]).0, ws[1..])
  }

  ghost function After(t: Table, ws: seq<Wake>): Table
    requires PossibleRun(t, ws)
    decreases |ws|
  {
    if ws == [] then t else After(OnWake(t, ws[0]).0, ws[1..])
  }

  ghost function Sent(t: Table, ws: seq<Wake>): seq<Delivery>
    requires PossibleRun(t, ws)
    decreases |ws|
  {
    if ws == [] then [] else Log(t, ws[0]) + Sent(OnWake(t, ws[0]).0, ws[1..])
  }
}
