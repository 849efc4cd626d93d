/**
 The bounded log tables against a plain list. A table is keyed by its integer primary key; a full one
 gives its oldest row the next key and overwrites it.
 */
module EventLog {
  import opened Wrappers
  import opened BoundedLists

  const MAX_DEVICE_LOG := 200
  const MAX_USER_LOG := 1000

  /** The device log asks for the largest key plus one; the user log leaves the key to the database. */
  datatype Kind = DeviceLog | UserLog

  function Limit(kind: Kind): nat {
    if kind.DeviceLog? then MAX_DEVICE_LOG else MAX_USER_LOG
  }

  /** `lastId` is the largest key an insertion ever made; overwriting a row does not move it. */
  datatype Table<T> = Table(rows: map<int, T>, lastId: int)

  // ----- keys

  ghost predicate IsMax(s: set<int>, k: int) {
    k in s && forall j :: j in s ==> j <= k
  }

  ghost predicate IsMin(s: set<int>, k: int) {
    k in s && forall j :: j in s ==> k <= j
  }

  lemma HasElement(s: set<int>)
    ensures s == {} || exists x :: x in s
  {
    if forall x :: x !in s {
      assert s == {};
    }
  }

  lemma {:induction false} HasBounds(s: set<int>)
    requires s != {}
    ensures exists k :: IsMax(s, k)
    ensures exists k :: IsMin(s, k)
  {
    HasElement(s);
    var x :| x in s;
    if s == {x} {
      assert IsMax(s, x) && IsMin(s, x);
    } else {
      var rest := s - {x};
      HasBounds(rest);
      var hi :| IsMax(rest, hi);
      var lo :| IsMin(rest, lo);
      assert s == rest + {x};
      assert IsMax(s, if x > hi then x else hi);
      assert IsMin(s, if x < lo then x else lo);
    }
  }

  function MaxKey<T>(rows: map<int, T>): (k: int)
    requires rows != map[]
    ensures IsMax(rows.Keys, k)
  {
    assert rows.Keys != {};
    HasBounds(rows.Keys);
    var k :| k in rows && forall j :: j in rows ==> j <= k;
    k
  }

  function MinKey<T>(rows: map<int, T>): (k: int)
    requires rows != map[]
    ensures IsMin(rows.Keys, k)
  {
    assert rows.Keys != {};
    HasBounds(rows.Keys);
    var k :| k in rows && forall j :: j in rows ==> k <= j;
    k
  }

  // ----- the statements

  function NextAuto<T>(t: Table<T>): int {
    if t.rows != map[] && MaxKey(t.rows) > t.lastId then MaxKey(t.rows) + 1 else t.lastId + 1
  }

  /** On an empty table the device log's largest key is NULL, so the database picks one. */
  function NextNum<T>(kind: Kind, t: Table<T>): int {
    if kind.DeviceLog? && t.rows != map[] then MaxKey(t.rows) + 1 else NextAuto(t)
  }

  function Insert<T>(kind: Kind, t: Table<T>, x: T): Table<T> {
    var num := NextNum(kind, t);
    Table(t.rows[num := x], if num > t.lastId then num else t.lastId)
  }

  /** Overwrite the row with the smallest key and give it the next key. */
  function Recycle<T>(t: Table<T>, x: T): Table<T> {
    if t.rows == map[] then t
    else t.(rows := (t.rows - {MinKey(t.rows)})[MaxKey(t.rows) + 1 := x])
  }

  function Add<T>(kind: Kind, t: Table<T>, counted: nat, x: T): Table<T> {
    if counted + 1 <= Limit(kind) then Insert(kind, t, x) else Recycle(t, x)
  }

  /** The rows are counted once, before the first of `n` additions. */
  function AddCopies<T>(kind: Kind, t: Table<T>, counted: nat, x: T, n: nat): Table<T> {
    if n == 0 then t else Add(kind, AddCopies(kind, t, counted, x, n - 1), counted + (n - 1), x)
  }

  /** Adding a list: every step writes the list's first entry. */
  function AddList<T>(kind: Kind, t: Table<T>, list: seq<T>): Table<T> {
    if list == [] then t else AddCopies(kind, t, |t.rows|, list[0], |list|)
  }

  function Delete<T>(t: Table<T>, gone: T -> bool): Table<T> {
    t.(rows := map k | k in t.rows && !gone(t.rows[k]) :: t.rows[k])
  }

  /** The rows in the order of their keys. */
  ghost function Read<T>(rows: map<int, T>): (s: seq<T>)
    ensures |s| == |rows|
    decreases |rows|
  {
    if rows == map[] then []
    else
      var k := MaxKey(rows);
      assert (rows - {k}).Keys == rows.Keys - {k};
      Read(rows - {k}) + [rows[k]]
  }

  // ----- columns

  datatype Column =
    | Num | DevId | DevName | DevType | NetworkType | Log | Time | TimeStr | AlarmType | Scene | Ext1 | Ext2
    | Id | Severity | Content | UserName

  /** The columns of a table. */
  predicate HasColumn(kind: Kind, c: Column) {
    match kind
    case DeviceLog => !c.Id? && !c.Severity? && !c.Content? && !c.UserName?
    case UserLog => c.Id? || c.Severity? || c.Content?
  }

  /** A statement that names a column the table does not have is refused. */
  predicate Prepares(kind: Kind, columns: set<Column>) {
    forall c :: c in columns ==> HasColumn(kind, c)
  }

  // ----- the plain list

  /** A deletion names the columns of its condition. */
  datatype Op<!T> = Append(list: seq<T>) | DeleteWhere(columns: set<Column>, gone: T -> bool) | Clear

  function OnList<T>(kind: Kind, s: seq<T>, op: Op<T>): seq<T> {
    match op
    case Append(list) => if list == [] then s else AppendedTimes(Limit(kind), s, list[0], |list|)
    case DeleteWhere(columns, gone) => if Prepares(kind, columns) then Keep(s, gone) else s
    case Clear => []
  }

  function OnTable<T>(kind: Kind, t: Table<T>, op: Op<T>): Table<T> {
    match op
    case Append(list) => AddList(kind, t, list)
    case DeleteWhere(columns, gone) => if Prepares(kind, columns) then Delete(t, gone) else t
    case Clear => t.(rows := map[])
  }

  function ListAfter<T>(kind: Kind, ops: seq<Op<T>>): seq<T> {
    if ops == [] then [] else OnList(kind, ListAfter(kind, ops[..|ops| - 1]), ops[|ops| - 1])
  }

  function TableAfter<T>(kind: Kind, ops: seq<Op<T>>): Table<T> {
    if ops == [] then Table(map[], 0) else OnTable(kind, TableAfter(kind, ops[..|ops| - 1]), ops[|ops| - 1])
  }

  // ----- refinement

  /** A row under a key above all others is the last in key order. */
  lemma ReadAppend<T>(rows: map<int, T>, k: int, x: T)
    requires forall j :: j in rows ==> j < k
    ensures Read(rows[k := x]) == Read(rows) + [x]
  {
    var rows' := rows[k := x];
    assert k in rows';
    assert MaxKey(rows') == k;
    assert rows' - {k} == rows;
  }

  /** Taking off the row under the largest key. */
  lemma SplitOffNewest<T>(rows: map<int, T>)
    requires rows != map[]
    ensures var hi := MaxKey(rows);
            var front := rows - {hi};
            && front.Keys == rows.Keys - {hi} && |front| == |rows| - 1
            && rows == front[hi := rows[hi]]
            && (forall j :: j in front ==> j < hi)
            && Read(rows) == Read(front) + [rows[hi]]
  {
    var hi := MaxKey(rows);
    var front := rows - {hi};
    assert front.Keys == rows.Keys - {hi};
    assert |front| == |front.Keys| && |rows| == |rows.Keys|;
    assert rows == front[hi := rows[hi]];
  }

  lemma OldestIsBelowNewest<T>(rows: map<int, T>)
    requires rows != map[] && rows - {MaxKey(rows)} != map[]
    ensures MinKey(rows - {MaxKey(rows)}) == MinKey(rows) < MaxKey(rows)
  {
    var front := rows - {MaxKey(rows)};
    SplitOffNewest(rows);
    var some := MinKey(front);
    assert some in front && some in rows;
    assert MinKey(rows) in front;
  }

  lemma OnlyRow<T>(rows: map<int, T>)
    requires rows != map[] && rows - {MaxKey(rows)} == map[]
    ensures MinKey(rows) == MaxKey(rows)
  {
    SplitOffNewest(rows);
    assert MinKey(rows) in rows;
  }

  lemma {:induction false} ReadDropOldest<T>(rows: map<int, T>)
    requires rows != map[]
    ensures Read(rows - {MinKey(rows)}) == Read(rows)[1..]
    decreases |rows|
  {
    var lo, hi := MinKey(rows), MaxKey(rows);
    var front := rows - {hi};
    SplitOffNewest(rows);
    if front == map[] {
      OnlyRow(rows);
    } else {
      OldestIsBelowNewest(rows);
      ReadDropOldest(front);
      var middle := front - {lo};
      assert rows - {lo} == middle[hi := rows[hi]];
      ReadAppend(middle, hi, rows[hi]);
      DropFirstOfSum(Read(front), [rows[hi]]);
    }
  }

  lemma DropFirstOfSum<T>(s: seq<T>, more: seq<T>)
    requires s != []
    ensures (s + more)[1..] == s[1..] + more
  {}

  lemma DeleteSplits<T>(t: Table<T>, gone: T -> bool)
    requires t.rows != map[]
    ensures var hi := MaxKey(t.rows);
            var kept := Delete(t.(rows := t.rows - {hi}), gone).rows;
            && (forall j :: j in kept ==> j < hi)
            && Delete(t, gone).rows == if gone(t.rows[hi]) then kept else kept[hi := t.rows[hi]]
  {
    SplitOffNewest(t.rows);
  }

  lemma {:induction false} ReadKeeps<T>(t: Table<T>, gone: T -> bool)
    ensures Read(Delete(t, gone).rows) == Keep(Read(t.rows), gone)
    decreases |t.rows|
  {
    if t.rows == map[] {
      assert Delete(t, gone).rows == map[];
    } else {
      var hi := MaxKey(t.rows);
      var front := t.(rows := t.rows - {hi});
      SplitOffNewest(t.rows);
      ReadKeeps(front, gone);
      DeleteSplits(t, gone);
      if !gone(t.rows[hi]) {
        ReadAppend(Delete(front, gone).rows, hi, t.rows[hi]);
      }
      KeepOfSum(Read(front.rows), t.rows[hi], gone);
    }
  }

  /** An insertion never runs into an existing key, and its row is read last. */
  lemma InsertAppends<T>(kind: Kind, t: Table<T>, x: T)
    ensures NextNum(kind, t) !in t.rows
    ensures Read(Insert(kind, t, x).rows) == Read(t.rows) + [x]
  {
    ReadAppend(t.rows, NextNum(kind, t), x);
  }

  function TableFrom<T>(kind: Kind, t: Table<T>, ops: seq<Op<T>>): Table<T> {
    if ops == [] then t else OnTable(kind, TableFrom(kind, t, ops[..|ops| - 1]), ops[|ops| - 1])
  }

  lemma {:induction false} CopiesKeepLastId<T>(kind: Kind, t: Table<T>, counted: nat, x: T, n: nat)
    ensures AddCopies(kind, t, counted, x, n).lastId >= t.lastId
  {
    if n > 0 {
      CopiesKeepLastId(kind, t, counted, x, n - 1);
    }
  }

  lemma {:induction false} LastIdGrows<T>(kind: Kind, t: Table<T>, ops: seq<Op<T>>)
    ensures TableFrom(kind, t, ops).lastId >= t.lastId
  {
    if ops != [] {
      var front, op := ops[..|ops| - 1], ops[|ops| - 1];
      LastIdGrows(kind, t, front);
      var mid := TableFrom(kind, t, front);
      if op.Append? && op.list != [] {
        CopiesKeepLastId(kind, mid, |mid.rows|, op.list[0], |op.list|);
      }
    }
  }

  /** A key the database gave to an entry of the user log is never given again, whatever is written, removed
      or overwritten in between. */
  lemma KeyIsNeverGivenAgain<T>(t: Table<T>, x: T, ops: seq<Op<T>>)
    ensures NextNum(UserLog, TableFrom(UserLog, Insert(UserLog, t, x), ops)) > NextNum(UserLog, t)
  {
    LastIdGrows(UserLog, Insert(UserLog, t, x), ops);
  }

  lemma RecycleAppends<T>(t: Table<T>, x: T)
    requires t.rows != map[]
    ensures MaxKey(t.rows) + 1 !in t.rows
    ensures Read(Recycle(t, x).rows) == Read(t.rows)[1..] + [x]
  {
    var rest, next := t.rows - {MinKey(t.rows)}, MaxKey(t.rows) + 1;
    ReadDropOldest(t.rows);
    forall j | j in rest ensures j < next {
      assert j in t.rows;
    }
    ReadAppend(rest, next, x);
    assert Recycle(t, x).rows == rest[next := x];
  }

  /** The count the code works from: exact while there is room, too large after. */
  ghost predicate Counted<T>(kind: Kind, t: Table<T>, counted: nat) {
    counted == |t.rows| <= Limit(kind) || counted >= Limit(kind) == |t.rows|
  }

  lemma AddAppends<T>(kind: Kind, t: Table<T>, counted: nat, x: T)
    requires Counted(kind, t, counted)
    ensures Read(Add(kind, t, counted, x).rows) == Appended(Limit(kind), Read(t.rows), x)
    ensures Counted(kind, Add(kind, t, counted, x), counted + 1)
  {
    if counted + 1 <= Limit(kind) {
      InsertAppends(kind, t, x);
      assert |Read(Add(kind, t, counted, x).rows)| == |t.rows| + 1;
    } else {
      assert t.rows != map[];
      RecycleAppends(t, x);
      assert |Read(Add(kind, t, counted, x).rows)| == |t.rows|;
    }
  }

  /** A table with its count that reads as `s`. */
  ghost predicate Reads<T>(kind: Kind, t: Table<T>, counted: nat, s: seq<T>) {
    Counted(kind, t, counted) && Read(t.rows) == s
  }

  lemma AddReads<T>(kind: Kind, t: Table<T>, counted: nat, x: T, s: seq<T>)
    requires Reads(kind, t, counted, s)
    ensures Reads(kind, Add(kind, t, counted, x), counted + 1, Appended(Limit(kind), s, x))
  {
    AddAppends(kind, t, counted, x);
  }

  /** What one addition keeps between a table and a list, copies keep. */
  lemma {:induction false} CopiesKeep<T(!new)>(keeps: (Table<T>, nat, seq<T>) -> bool, kind: Kind, t: Table<T>,
                                               counted: nat, x: T, n: nat, s: seq<T>)
    requires keeps(t, counted, s)
    requires forall t', c: nat, s' :: keeps(t', c, s') ==>
               keeps(Add(kind, t', c, x), c + 1, Appended(Limit(kind), s', x))
    ensures keeps(AddCopies(kind, t, counted, x, n), counted + n, AppendedTimes(Limit(kind), s, x, n))
  {
    if n > 0 {
      CopiesKeep(keeps, kind, t, counted, x, n - 1, s);
      var a, l := AddCopies(kind, t, counted, x, n - 1), AppendedTimes(Limit(kind), s, x, n - 1);
      assert keeps(Add(kind, a, counted + (n - 1), x), counted + (n - 1) + 1, Appended(Limit(kind), l, x));
    }
  }

  /** Adding copies appends them within the limit. */
  lemma CopiesAppend<T(!new)>(kind: Kind, t: Table<T>, counted: nat, x: T, n: nat, s: seq<T>)
    requires Reads(kind, t, counted, s)
    ensures Read(AddCopies(kind, t, counted, x, n).rows) == AppendedTimes(Limit(kind), s, x, n)
    ensures |AddCopies(kind, t, counted, x, n).rows| <= Limit(kind)
  {
    ghost var keeps := (t': Table<T>, c: nat, s': seq<T>) => Reads(kind, t', c, s');
    forall t', c: nat, s' | keeps(t', c, s')
      ensures keeps(Add(kind, t', c, x), c + 1, Appended(Limit(kind), s', x))
    {
      AddReads(kind, t', c, x, s');
    }
    CopiesKeep(keeps, kind, t, counted, x, n, s);
  }

  /** An operation on a table does to what it reads as what the list's operation does. */
  ghost predicate Refines<T>(kind: Kind, t: Table<T>, op: Op<T>) {
    && Read(OnTable(kind, t, op).rows) == OnList(kind, Read(t.rows), op)
    && |OnTable(kind, t, op).rows| <= Limit(kind)
  }

  lemma AppendRefines<T(!new)>(kind: Kind, t: Table<T>, list: seq<T>)
    requires |t.rows| <= Limit(kind)
    ensures Refines(kind, t, Append(list))
  {
    if list != [] {
      CopiesAppend(kind, t, |t.rows|, list[0], |list|, Read(t.rows));
    }
  }

  lemma DeleteShrinks<T>(t: Table<T>, gone: T -> bool) returns (rows: map<int, T>)
    ensures rows == Delete(t, gone).rows && |rows| <= |t.rows| && Read(rows) == Keep(Read(t.rows), gone)
  {
    ReadKeeps(t, gone);
    KeepShortens(Read(t.rows), gone);
    rows := Delete(t, gone).rows;
  }

  lemma DeleteRefines<T>(kind: Kind, t: Table<T>, columns: set<Column>, gone: T -> bool)
    requires |t.rows| <= Limit(kind)
    ensures Refines(kind, t, DeleteWhere(columns, gone))
  {
    var t' := OnTable(kind, t, DeleteWhere(columns, gone));
    if Prepares(kind, columns) {
      var rows := DeleteShrinks(t, gone);
      assert t'.rows == rows;
    } else {
      assert t' == t;
    }
  }

  lemma ClearRefines<T>(kind: Kind, t: Table<T>)
    ensures Refines(kind, t, Clear)
  {
    assert Read(OnTable(kind, t, Op<T>.Clear).rows) == [];
  }

  lemma OpRefines<T(!new)>(kind: Kind, t: Table<T>, op: Op<T>)
    requires |t.rows| <= Limit(kind)
    ensures Refines(kind, t, op)
  {
    match op
    case Append(list) => AppendRefines(kind, t, list);
    case DeleteWhere(columns, gone) => DeleteRefines(kind, t, columns, gone);
    case Clear => ClearRefines(kind, t);
  }

  /** The table in key order is the plain bounded list, after any sequence of additions and deletions. */
  lemma {:induction false} TableIsBoundedList<T(!new)>(kind: Kind, ops: seq<Op<T>>)
    ensures Read(TableAfter(kind, ops).rows) == ListAfter(kind, ops)
    ensures |TableAfter(kind, ops).rows| <= Limit(kind)
  {
    if ops != [] {
      var front, op := ops[..|ops| - 1], ops[|ops| - 1];
      TableIsBoundedList(kind, front);
      OpRefines(kind, TableAfter(kind, front), op);
    }
  }

  lemma {:induction false} KeepShortens<T>(s: seq<T>, gone: T -> bool)
    ensures |Keep(s, gone)| <= |s|
  {
    if s != [] {
      KeepShortens(s[..|s| - 1], gone);
    }
  }

  // ----- adding a list

  /** Adding a list reads as appending it, if and only if what the limit leaves of it equals its first
      entry. The one caller passes a single entry. */
  lemma ListIsAppendedIff<T(!new)>(kind: Kind, t: Table<T>, list: seq<T>)
    requires |t.rows| <= Limit(kind) && list != []
    ensures Read(AddList(kind, t, list).rows) == Newest(Limit(kind), Read(t.rows) + list)
            <==> EndsLikeFirst(Limit(kind), list)
    ensures |list| == 1 ==> EndsLikeFirst(Limit(kind), list)
  {
    CopiesAppend(kind, t, |t.rows|, list[0], |list|, Read(t.rows));
    AppendFirstIff(Limit(kind), Read(t.rows), list);
  }

  /** Two different entries: the first one is written twice. */
  lemma SecondEntryIsLost<T(!new)>(kind: Kind, a: T, b: T)
    requires a != b
    ensures Read(AddList(kind, Table(map[], 0), [a, b]).rows) == [a, a]
  {
    var t: Table<T> := Table(map[], 0);
    assert Read(t.rows) == [];
    CopiesAppend(kind, t, 0, a, 2, []);
    TwoAppended(Limit(kind), a);
  }

  lemma TwoAppended<T>(limit: nat, a: T)
    requires limit >= 2
    ensures AppendedTimes(limit, [], a, 2) == [a, a]
  {
    assert AppendedTimes(limit, [], a, 1) == Appended(limit, AppendedTimes(limit, [], a, 0), a) == [a];
  }

  // ----- what the tables hold

  function Written<T>(list: seq<T>): seq<T> {
    if list == [] then [] else Repeat(list[0], |list|)
  }

  /** Everything ever written, in order. */
  function Everything<T>(ops: seq<Op<T>>): seq<T> {
    if ops == [] then []
    else
      var op := ops[|ops| - 1];
      Everything(ops[..|ops| - 1]) + if op.Append? then Written(op.list) else []
  }

  /** What the table holds never leaves the order of the writes, whatever was deleted in between. */
  lemma TableKeepsOrder<T(!new)>(kind: Kind, ops: seq<Op<T>>)
    ensures Within(Read(TableAfter(kind, ops).rows), Everything(ops))
  {
    TableIsBoundedList(kind, ops);
    ListKeepsOrder(kind, ops);
  }

  lemma {:induction false} ListKeepsOrder<T>(kind: Kind, ops: seq<Op<T>>)
    ensures Within(ListAfter(kind, ops), Everything(ops))
  {
    if ops != [] {
      var front, op := ops[..|ops| - 1], ops[|ops| - 1];
      ListKeepsOrder(kind, front);
      StepKeepsOrder(kind, ListAfter(kind, front), op, Everything(front));
      assert Everything(front) + [] == Everything(front);
    }
  }

  lemma StepKeepsOrder<T>(kind: Kind, s: seq<T>, op: Op<T>, all: seq<T>)
    requires Within(s, all)
    ensures Within(OnList(kind, s, op), if op.Append? then all + Written(op.list) else all)
  {
    match op
    case Append(list) =>
      if list == [] {
        assert all + [] == all;
      } else {
        TimesKeepOrder(Limit(kind), s, list[0], |list|, all);
      }
    case DeleteWhere(_, gone) => WithinKeep(s, all, gone);
    case Clear =>
  }

  /** Additions, and deletions that are refused. */
  predicate OnlyAdds<T>(kind: Kind, op: Op<T>) {
    op.Append? || (op.DeleteWhere? && !Prepares(kind, op.columns))
  }

  /** When no deletion is accepted the table holds exactly the last `Limit` writes. */
  lemma TableHoldsNewest<T(!new)>(kind: Kind, ops: seq<Op<T>>)
    requires forall op :: op in ops ==> OnlyAdds(kind, op)
    ensures Read(TableAfter(kind, ops).rows) == Newest(if kind.DeviceLog? then 200 else 1000, Everything(ops))
  {
    TableIsBoundedList(kind, ops);
    ListIsNewest(kind, ops);
  }

  lemma {:induction false} ListIsNewest<T>(kind: Kind, ops: seq<Op<T>>)
    requires forall op :: op in ops ==> OnlyAdds(kind, op)
    ensures ListAfter(kind, ops) == Newest(Limit(kind), Everything(ops))
  {
    if ops != [] {
      var front, op := ops[..|ops| - 1], ops[|ops| - 1];
      assert ops == front + [op];
      ListIsNewest(kind, front);
      assert op in ops;
      if op.Append? && op.list != [] {
        TimesKeepNewest(Limit(kind), Everything(front), op.list[0], |op.list|);
      } else {
        assert Everything(front) + [] == Everything(front);
        assert ListAfter(kind, ops) == ListAfter(kind, front);
      }
    }
  }

  // ----- queries

  /** A select statement: the columns it names, the rows its condition leaves out, its direction and how
      many rows it passes over. */
  datatype Query<!T> = Query(columns: set<Column>, skips: T -> bool, descending: bool, offset: nat)

  ghost function Selected<T>(kind: Kind, rows: map<int, T>, q: Query<T>): Option<seq<T>> {
    if Prepares(kind, q.columns) then Some(Passed(Ordered(rows, q), q.offset)) else None
  }

  ghost function Ordered<T>(rows: map<int, T>, q: Query<T>): seq<T> {
    if q.descending then Reverse(Keep(Read(rows), q.skips)) else Keep(Read(rows), q.skips)
  }

  function Passed<T>(s: seq<T>, n: nat): seq<T> {
    if n <= |s| then s[n..] else []
  }

  function Fitting<T>(s: seq<T>, size: nat): seq<T> {
    if size < |s| then s[..size] else s
  }

  /** What a reader that reports no errors copies. */
  function Copied<T>(selected: Option<seq<T>>, size: nat): seq<T> {
    match selected
    case None => []
    case Some(s) => Fitting(s, size)
  }

  datatype Reply<T> = Failed | NoRecord | Records(log: seq<T>)

  /** A reader that reports errors and empty results. */
  function Answer<T>(selected: Option<seq<T>>, size: nat): Reply<T> {
    match selected
    case None => Failed
    case Some(s) => if s == [] then NoRecord else Records(Fitting(s, size))
  }

  /** A query of the device log selects from the bounded list, newest or oldest first. */
  lemma DeviceLogIsSelected<T(!new)>(ops: seq<Op<T>>, q: Query<T>)
    requires Prepares(DeviceLog, q.columns)
    ensures var s := Keep(ListAfter(DeviceLog, ops), q.skips);
            Selected(DeviceLog, TableAfter(DeviceLog, ops).rows, q)
            == Some(Passed(if q.descending then Reverse(s) else s, q.offset))
  {
    TableIsBoundedList(DeviceLog, ops);
  }
}
