/** The bounded notification queue, a doubly linked list, against a plain sequence. */
module NotificationQueue {

  const QUEUE_MAX_COUNT := 200

  // ----- the sequence it stands for

  function TailInserted<T>(s: seq<T>, x: T): seq<T> {
    if |s| < QUEUE_MAX_COUNT then s + [x] else s[1..] + [x]
  }

  function HeadInserted<T>(s: seq<T>, x: T): seq<T> {
    if |s| < QUEUE_MAX_COUNT then [x] + s else [x] + s[..|s| - 1]
  }

  ghost function Notes<T>(units: seq<Unit<T>>): (s: seq<T>)
    ensures |s| == |units|
  {
    seq(|units|, i requires 0 <= i < |units| => units[i].notification)
  }

  lemma NotesOfTail<T>(units: seq<Unit<T>>, unit: Unit<T>)
    ensures Notes(units + [unit]) == Notes(units) + [unit.notification]
    ensures units != [] ==> Notes(units[1..] + [unit]) == Notes(units)[1..] + [unit.notification]
  {}

  lemma NotesOfHead<T>(units: seq<Unit<T>>, unit: Unit<T>)
    ensures Notes([unit] + units) == [unit.notification] + Notes(units)
    ensures units != [] ==>
              Notes([unit] + units[..|units| - 1]) == [unit.notification] + Notes(units)[..|units| - 1]
  {}

  lemma NotesOfRest<T>(units: seq<Unit<T>>)
    ensures units != [] ==> Notes(units[1..]) == Notes(units)[1..]
  {}

  /** A unit on the heap; `live` is cleared when it is freed. */
  class Unit<T> {
    const notification: T
    var prev: Unit?<T>
    var next: Unit?<T>
    var live: bool

    constructor (notification: T)
      ensures this.notification == notification && live
    {
      this.notification := notification;
      prev, next, live := null, null, true;
    }
  }

  class Queue<T> {
    var head: Unit?<T>
    var tail: Unit?<T>
    var count: nat
    /** The units from head to tail, and what the last one points to: null, or a freed unit. */
    ghost var units: seq<Unit<T>>
    ghost var beyond: Unit?<T>

    ghost predicate Valid()
      reads this, units, beyond
    {
      Linked() && count <= QUEUE_MAX_COUNT
    }

    /** The chain in both directions. Nothing is said of the head's `prev`. */
    ghost predicate Linked()
      reads this, units, beyond
    {
      && count == |units|
      && (forall i, j :: 0 <= i < j < |units| ==> units[i] != units[j])
      && (units == [] ==> head == null && tail == null && beyond == null)
      && (units != [] ==> head == units[0] && tail == units[|units| - 1] && tail.next == beyond)
      && (forall i {:trigger units[i].next} :: 0 <= i < |units| - 1 ==> units[i].next == units[i + 1])
      && (forall i {:trigger units[i].prev} :: 1 <= i < |units| ==> units[i].prev == units[i - 1])
      && (forall i :: 0 <= i < |units| ==> units[i].live)
      && (beyond != null ==> !beyond.live)
    }

    /** The chain ends: a walk along `next` stops after the last unit. */
    ghost predicate Terminated()
      reads this
    {
      beyond == null
    }

    ghost function Contents(): seq<T>
      reads this
    {
      Notes(units)
    }

    constructor ()
      ensures Valid() && Terminated() && Contents() == [] && units == []
    {
      head, tail, count, units, beyond := null, null, 0, [], null;
    }

    method Empty() returns (empty: bool)
      requires Valid()
      ensures empty <==> Contents() == []
    {
      empty := head == null;
    }

    method Number() returns (n: int)
      requires Valid()
      ensures n == |Contents()| <= QUEUE_MAX_COUNT
    {
      n := count;
    }

    /** Append a unit; above the limit the oldest one is dropped. The chain always ends. */
    method InsertTail(unit: Unit<T>)
      requires Valid() && unit !in units && unit.live
      modifies this, units, unit
      ensures Valid() && Terminated()
      ensures units == if |old(units)| < QUEUE_MAX_COUNT then old(units) + [unit] else old(units)[1..] + [unit]
      ensures |old(units)| == QUEUE_MAX_COUNT ==> !old(units)[0].live
    {
      LinkLast(unit);
      if count > QUEUE_MAX_COUNT {
        UnlinkFirst();
      }
    }

    method LinkLast(unit: Unit<T>)
      requires Linked() && unit !in units && unit.live
      modifies this, units, unit
      ensures Linked() && Terminated() && units == old(units) + [unit]
    {
      if head == null {
        unit.prev, unit.next := null, null;
        head, tail := unit, unit;
      } else {
        unit.prev, unit.next := tail, null;
        tail.next := unit;
        tail := unit;
      }
      units, beyond := units + [unit], null;
      count := count + 1;
    }

    method UnlinkFirst()
      requires Linked() && |units| >= 2
      modifies this, units
      ensures Linked() && units == old(units)[1..] && beyond == old(beyond) && !old(units)[0].live
    {
      assert units[0].next == units[1];
      var tmp := head;
      head := head.next;
      tmp.live := false;
      count := count - 1;
      units := units[1..];
    }

    /** Prepend a unit. Above the limit the last one is dropped, but the link to it stays: the chain
        still ends exactly when it did and there was room. */
    method InsertHead(unit: Unit<T>)
      requires Valid() && unit !in units && unit.live
      modifies this, units, unit
      ensures Valid()
      ensures units == [unit] + if |old(units)| < QUEUE_MAX_COUNT then old(units) else old(units)[..|old(units)| - 1]
      ensures beyond == if |old(units)| < QUEUE_MAX_COUNT then old(beyond) else old(tail)
    {
      LinkFirst(unit);
      if count > QUEUE_MAX_COUNT {
        UnlinkLast();
      }
    }

    method LinkFirst(unit: Unit<T>)
      requires Linked() && unit !in units && unit.live
      modifies this, units, unit
      ensures Linked() && units == [unit] + old(units) && beyond == old(beyond)
      ensures old(tail) != null ==> tail == old(tail)
    {
      if head == null {
        unit.prev, unit.next := null, null;
        head, tail := unit, unit;
      } else {
        unit.prev, unit.next := null, head;
        head.prev := unit;
        head := unit;
      }
      units := [unit] + units;
      count := count + 1;
    }

    /** The new last unit keeps its link to the one that is freed. */
    method UnlinkLast()
      requires Linked() && |units| >= 2
      modifies this, units
      ensures Linked() && units == old(units)[..|old(units)| - 1]
      ensures beyond == old(tail) && beyond != null
    {
      assert tail.prev == units[|units| - 2];
      assert units[|units| - 2].next == tail;
      var tmp := tail;
      tail := tail.prev;
      tmp.live := false;
      count := count - 1;
      units, beyond := units[..|units| - 1], tmp;
    }

    /** Take the first unit. When it is the last one of a chain that does not end, the head moves on to a
        freed unit and writes to it: the count is zero and the queue not empty. */
    method Popup() returns (p: Unit?<T>, fault: bool)
      requires Valid()
      modifies this, units, beyond
      ensures fault <==> old(|units| == 1 && beyond != null)
      ensures old(units) == [] ==> p == null && units == []
      ensures old(units) != [] ==> p == old(units)[0]
      ensures !fault ==> Valid()
      ensures beyond == old(beyond) && (old(units) != [] ==> units == old(units)[1..])
      ensures fault ==> head == old(beyond) && head != null && !head.live && count == 0
    {
      fault := false;
      if head == null {
        return null, false;
      }
      p := head;
      head := p.next;
      units := units[1..];
      if head != null {
        fault := !head.live;
        head.prev := null;
      } else {
        tail := null;
      }
      count := count - 1;
    }

    /** The first `k` units are freed and the links are as they were. */
    ghost predicate Walked(k: nat)
      reads this, units, beyond
    {
      && (forall i, j :: 0 <= i < j < |units| ==> units[i] != units[j])
      && (forall i :: 0 <= i < |units| ==> (units[i].live <==> k <= i))
      && (forall i {:trigger units[i].next} :: 0 <= i < |units| ==>
            units[i].next == if i < |units| - 1 then units[i + 1] else beyond)
      && (beyond != null ==> !beyond.live)
    }

    method FreeHead(ghost k: nat)
      requires k < |units| && Walked(k) && head == units[k]
      modifies this`head, head`live
      ensures Walked(k + 1) && head == if k + 1 < |units| then units[k + 1] else beyond
    {
      var p := head;
      head := p.next;
      p.live := false;
    }

    /** Free every unit, walking the chain. On a chain that does not end the walk reaches a freed unit,
        where the model stops: the program would free it again. */
    method Clean() returns (fault: bool)
      requires Valid()
      modifies this, units
      ensures fault <==> old(beyond) != null
      ensures forall i :: 0 <= i < |old(units)| ==> !old(units)[i].live
      ensures !fault ==> Valid() && Terminated() && Contents() == [] && units == []
      ensures fault ==> head == old(beyond) && units == old(units) && beyond == old(beyond)
    {
      ghost var k := 0;
      while head != null
        invariant 0 <= k <= |units| && units == old(units) && beyond == old(beyond) && Walked(k)
        invariant head == if k < |units| then units[k] else beyond
        decreases |units| - k
      {
        if !head.live {
          return true;
        }
        FreeHead(k);
        k := k + 1;
      }
      tail, count, units, beyond := null, 0, [], null;
      fault := false;
    }

    /** Run a list of operations on a new queue, up to the first use of freed memory. */
    method Execute(ops: seq<Op<T>>) returns (fault: bool)
      requires Valid() && Terminated() && units == []
      modifies this
      ensures fault <==> !SafeRun(ops)
      ensures !fault ==> Valid() && Contents() == Run(ops).items && (Terminated() <==> Run(ops).ends)
    {
      fault := false;
      for i := 0 to |ops|
        invariant fault <==> !SafeRun(ops[..i])
        invariant !fault ==> Stands(Run(ops[..i]))
        invariant forall k :: 0 <= k < |units| ==> fresh(units[k])
        invariant beyond != null ==> fresh(beyond)
      {
        assert ops[..i + 1] == ops[..i] + [ops[i]];
        RunNext(ops[..i], ops[i]);
        if !fault {
          fault := ExecuteOne(ops[i], Run(ops[..i]));
        }
      }
      assert ops[..|ops|] == ops;
    }

    /** The queue stands for the items and the end of a history. */
    ghost predicate Stands(h: History<T>)
      reads this, units, beyond
    {
      Valid() && Contents() == h.items && (Terminated() <==> h.ends)
    }

    method ExecuteOne(op: Op<T>, ghost h: History<T>) returns (fault: bool)
      requires Stands(h)
      modifies this, units, beyond
      ensures fault <==> !Safe(h, op)
      ensures !fault ==> Stands(Apply(h, op))
      ensures forall k :: 0 <= k < |units| ==> fresh(units[k]) || units[k] in old(units)
      ensures beyond != null ==> fresh(beyond) || beyond == old(beyond) || beyond in old(units)
    {
      match op
      case InsertTail(_) =>
        ExecuteInsert(op, h);
        fault := false;
      case InsertHead(_) =>
        ExecuteInsert(op, h);
        fault := false;
      case Popup =>
        NotesOfRest(units);
        var _, f := Popup();
        fault := f;
      case Clean =>
        fault := Clean();
    }

    method ExecuteInsert(op: Op<T>, ghost h: History<T>)
      requires Stands(h) && (op.InsertTail? || op.InsertHead?)
      modifies this, units
      ensures Stands(Apply(h, op))
      ensures forall k :: 0 <= k < |units| ==> fresh(units[k]) || units[k] in old(units)
      ensures beyond != null ==> beyond == old(beyond) || beyond in old(units)
    {
      var unit := new Unit(op.x);
      NotesOfTail(units, unit);
      NotesOfHead(units, unit);
      if op.InsertTail? {
        InsertTail(unit);
      } else {
        InsertHead(unit);
      }
    }
  }

  // ----- whole runs

  datatype Op<T> = InsertTail(x: T) | InsertHead(x: T) | Popup | Clean

  /** The contents, with everything ever inserted and everything that left, in order; and whether the
      chain ends. */
  datatype History<T> = History(items: seq<T>, inserted: seq<T>, removed: seq<T>, ends: bool)

  function Apply<T>(h: History<T>, op: Op<T>): History<T> {
    match op
    case InsertTail(x) =>
      History(TailInserted(h.items, x), h.inserted + [x],
              if |h.items| < QUEUE_MAX_COUNT then h.removed else h.removed + [h.items[0]], true)
    case InsertHead(x) =>
      History(HeadInserted(h.items, x), h.inserted + [x],
              if |h.items| < QUEUE_MAX_COUNT then h.removed else h.removed + [h.items[|h.items| - 1]],
              h.ends && |h.items| < QUEUE_MAX_COUNT)
    case Popup =>
      if h.items == [] then h else h.(items := h.items[1..], removed := h.removed + [h.items[0]])
    case Clean =>
      History([], h.inserted, h.removed + h.items, true)
  }

  /** The operation does not touch freed memory: taking the last unit, or all, needs a chain that ends. */
  predicate Safe<T>(h: History<T>, op: Op<T>) {
    match op
    case Popup => h.ends || |h.items| != 1
    case Clean => h.ends
    case _ => true
  }

  function Run<T>(ops: seq<Op<T>>): History<T> {
    if ops == [] then History([], [], [], true) else Apply(Run(ops[..|ops| - 1]), ops[|ops| - 1])
  }

  predicate SafeRun<T>(ops: seq<Op<T>>) {
    ops == [] || (SafeRun(ops[..|ops| - 1]) && Safe(Run(ops[..|ops| - 1]), ops[|ops| - 1]))
  }

  lemma RunNext<T>(ops: seq<Op<T>>, op: Op<T>)
    ensures Run(ops + [op]) == Apply(Run(ops), op)
    ensures SafeRun(ops + [op]) <==> SafeRun(ops) && Safe(Run(ops), op)
  {
    assert (ops + [op])[..|ops|] == ops;
  }

  ghost predicate Conserved<T>(h: History<T>) {
    |h.items| <= QUEUE_MAX_COUNT && multiset(h.inserted) == multiset(h.removed) + multiset(h.items)
  }

  ghost predicate InOrder<T>(h: History<T>) {
    |h.items| <= QUEUE_MAX_COUNT && h.removed + h.items == h.inserted
  }

  lemma MultisetSplits<T>(s: seq<T>)
    requires s != []
    ensures multiset(s) == multiset{s[0]} + multiset(s[1..])
    ensures multiset(s) == multiset(s[..|s| - 1]) + multiset{s[|s| - 1]}
  {
    assert s == [s[0]] + s[1..];
    assert s == s[..|s| - 1] + [s[|s| - 1]];
  }

  lemma Balance<T>(inserted: multiset<T>, removed: multiset<T>, items: multiset<T>,
                   arriving: multiset<T>, leaving: multiset<T>, staying: multiset<T>)
    requires inserted == removed + items && items == leaving + staying
    ensures inserted + arriving == (removed + leaving) + (staying + arriving)
  {}

  /** One step on the books: what arrives, what leaves and what stays. */
  lemma StepBalances<T>(h: History<T>, h': History<T>, arriving: seq<T>, leaving: seq<T>, staying: multiset<T>)
    requires multiset(h.inserted) == multiset(h.removed) + multiset(h.items)
    requires h'.inserted == h.inserted + arriving && h'.removed == h.removed + leaving
    requires multiset(h.items) == multiset(leaving) + staying
    requires multiset(h'.items) == staying + multiset(arriving)
    ensures multiset(h'.inserted) == multiset(h'.removed) + multiset(h'.items)
  {
    Balance(multiset(h.inserted), multiset(h.removed), multiset(h.items),
            multiset(arriving), multiset(leaving), staying);
  }

  lemma StepConserves<T>(h: History<T>, op: Op<T>)
    requires Conserved(h)
    ensures Conserved(Apply(h, op))
  {
    var h' := Apply(h, op);
    match op
    case InsertTail(x) =>
      InsertTailConserves(h, x);
    case InsertHead(x) =>
      InsertHeadConserves(h, x);
    case Popup =>
      if h.items != [] {
        MultisetSplits(h.items);
        StepBalances(h, h', [], [h.items[0]], multiset(h.items[1..]));
      }
    case Clean =>
      StepBalances(h, h', [], h.items, multiset{});
  }

  lemma InsertTailConserves<T>(h: History<T>, x: T)
    requires Conserved(h)
    ensures Conserved(Apply(h, InsertTail(x)))
  {
    if |h.items| < QUEUE_MAX_COUNT {
      StepBalances(h, Apply(h, InsertTail(x)), [x], [], multiset(h.items));
    } else {
      MultisetSplits(h.items);
      StepBalances(h, Apply(h, InsertTail(x)), [x], [h.items[0]], multiset(h.items[1..]));
    }
  }

  lemma InsertHeadConserves<T>(h: History<T>, x: T)
    requires Conserved(h)
    ensures Conserved(Apply(h, InsertHead(x)))
  {
    if |h.items| < QUEUE_MAX_COUNT {
      StepBalances(h, Apply(h, InsertHead(x)), [x], [], multiset(h.items));
    } else {
      MultisetSplits(h.items);
      StepBalances(h, Apply(h, InsertHead(x)), [x], [h.items[|h.items| - 1]], multiset(h.items[..|h.items| - 1]));
    }
  }

  lemma StepKeepsOrder<T>(h: History<T>, op: Op<T>)
    requires InOrder(h) && !op.InsertHead?
    ensures InOrder(Apply(h, op))
  {
    var h' := Apply(h, op);
    match op
    case InsertTail(x) =>
      assert h.removed + h.items + [x] == h'.removed + h'.items;
    case Popup =>
      assert h.removed + h.items == h'.removed + h'.items;
    case Clean =>
      assert h'.removed + h'.items == h'.removed;
  }

  /** Over every run that touches no freed memory: never more than the limit, and nothing is lost or
      invented. */
  lemma {:induction false} RunConserves<T>(ops: seq<Op<T>>)
    requires SafeRun(ops)
    ensures Conserved(Run(ops))
  {
    if ops == [] {
      assert multiset(Run(ops).items) == multiset{};
    } else {
      RunConserves(ops[..|ops| - 1]);
      StepConserves(Run(ops[..|ops| - 1]), ops[|ops| - 1]);
    }
  }

  /** A head insertion that drops the last unit, with no tail insertion since. */
  ghost predicate Dangling<T>(ops: seq<Op<T>>) {
    exists i :: 0 <= i < |ops| && DropsLast(ops, i) && forall j :: i < j < |ops| ==> !ops[j].InsertTail?
  }

  predicate DropsLast<T>(ops: seq<Op<T>>, i: nat)
    requires i < |ops|
  {
    ops[i].InsertHead? && |Run(ops[..i]).items| >= QUEUE_MAX_COUNT
  }

  /** The chain fails to end exactly after a head insertion at the limit that no tail insertion followed. */
  lemma {:induction false} ChainEndsIff<T>(ops: seq<Op<T>>)
    requires SafeRun(ops)
    ensures Run(ops).ends <==> !Dangling(ops)
    ensures !Run(ops).ends ==> Run(ops).items != []
  {
    if ops != [] {
      var front, op := ops[..|ops| - 1], ops[|ops| - 1];
      ChainEndsIff(front);
      DanglingNext(front, op);
      assert ops == front + [op];
    }
  }

  lemma DanglingNext<T>(front: seq<Op<T>>, op: Op<T>)
    ensures Dangling(front + [op]) <==>
              (Dangling(front) && !op.InsertTail?) || (op.InsertHead? && |Run(front).items| >= QUEUE_MAX_COUNT)
  {
    var ops := front + [op];
    assert ops[..|front|] == front;
    forall i | 0 <= i < |front| ensures DropsLast(ops, i) <==> DropsLast(front, i) {
      assert ops[..i] == front[..i];
    }
    if i :| 0 <= i < |ops| && DropsLast(ops, i) && forall j :: i < j < |ops| ==> !ops[j].InsertTail? {
      if i < |front| {
        assert DropsLast(front, i) && !ops[|front|].InsertTail?;
        assert forall j :: i < j < |front| ==> front[j] == ops[j];
      }
    }
    if Dangling(front) && !op.InsertTail? {
      var i :| 0 <= i < |front| && DropsLast(front, i) && forall j :: i < j < |front| ==> !front[j].InsertTail?;
      assert DropsLast(ops, i) && forall j :: i < j < |ops| ==> !ops[j].InsertTail?;
    }
    if op.InsertHead? && |Run(front).items| >= QUEUE_MAX_COUNT {
      assert DropsLast(ops, |front|);
    }
  }

  function Heads<T>(x: T, n: nat): seq<Op<T>> {
    if n == 0 then [] else Heads(x, n - 1) + [InsertHead(x)]
  }

  lemma {:induction false} HeadsFill<T>(x: T, n: nat)
    ensures SafeRun(Heads(x, n)) && |Run(Heads(x, n)).items| == if n < QUEUE_MAX_COUNT then n else QUEUE_MAX_COUNT
    ensures Run(Heads(x, n)).ends <==> n <= QUEUE_MAX_COUNT
  {
    if n > 0 {
      HeadsFill(x, n - 1);
      RunNext(Heads(x, n - 1), InsertHead(x));
    }
  }

  /** 201 head insertions and a clean touch freed memory. */
  lemma HeadsThenCleanIsUnsafe<T>(x: T)
    ensures !SafeRun(Heads(x, QUEUE_MAX_COUNT + 1) + [Clean])
  {
    HeadsFill(x, QUEUE_MAX_COUNT + 1);
    RunNext(Heads(x, QUEUE_MAX_COUNT + 1), Clean);
  }

  /** With tail insertions only, units leave in the order they came: what left, then what is there,
      is what was inserted. So a drop at the limit hits exactly the oldest. */
  lemma {:induction false} TailRunIsFifo<T>(ops: seq<Op<T>>)
    requires forall op :: op in ops ==> !op.InsertHead?
    ensures SafeRun(ops) && Run(ops).ends && InOrder(Run(ops))
  {
    if ops != [] {
      var front := ops[..|ops| - 1];
      assert forall op :: op in front ==> op in ops;
      TailRunIsFifo(front);
      StepKeepsOrder(Run(front), ops[|ops| - 1]);
    }
  }

  /** Without removals the queue holds the last 200 insertions. */
  lemma {:induction false} TailRunKeepsNewest<T>(ops: seq<Op<T>>)
    requires forall op :: op in ops ==> op.InsertTail?
    ensures var h := Run(ops);
            && |h.inserted| == |ops|
            && h.items == if |ops| <= 200 then h.inserted else h.inserted[|ops| - 200..]
  {
    if ops != [] {
      var front, op := ops[..|ops| - 1], ops[|ops| - 1];
      assert ops == front + [op];
      TailRunKeepsNewest(front);
    }
  }
}
