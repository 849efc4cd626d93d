/** The log tables as they are updated: statements run one after another. */
module LogTables {
  import opened Wrappers
  import opened EventLog
  import opened BoundedLists

  class LogTable<T> {
    const kind: Kind
    var rows: map<int, T>
    var lastId: int

    ghost function State(): Table<T>
      reads this
    {
      Table(rows, lastId)
    }

    constructor (kind: Kind)
      ensures this.kind == kind && State() == Table(map[], 0)
    {
      this.kind, rows, lastId := kind, map[], 0;
    }

    method ExecInsert(x: T)
      modifies this
      ensures State() == Insert(kind, old(State()), x)
    {
      var num;
      if rows == map[] {
        num := lastId + 1;
      } else {
        num := MaxKey(rows) + 1;
        if kind.UserLog? && num <= lastId {
          num := lastId + 1;
        }
      }
      rows := rows[num := x];
      if num > lastId {
        lastId := num;
      }
    }

    method ExecUpdateOldest(x: T)
      modifies this
      ensures State() == Recycle(old(State()), x)
    {
      if rows != map[] {
        var oldest, num := MinKey(rows), MaxKey(rows) + 1;
        rows := (rows - {oldest})[num := x];
      }
    }

    /** Log a list of entries, or rather its first entry for each of them. */
    method AddLog(list: seq<T>)
      modifies this
      ensures State() == AddList(kind, old(State()), list)
    {
      var count := |rows|;
      for i := 0 to |list|
        invariant list != [] ==> State() == AddCopies(kind, old(State()), count, list[0], i)
        invariant i == 0 ==> State() == old(State())
      {
        if count + i + 1 <= Limit(kind) {
          ExecInsert(list[0]);
        } else {
          ExecUpdateOldest(list[0]);
        }
      }
    }

    /** A deletion whose condition names a column the table does not have removes nothing. */
    method DeleteLog(columns: set<Column>, gone: T -> bool)
      modifies this
      ensures State() == OnTable(kind, old(State()), DeleteWhere(columns, gone))
    {
      if Prepares(kind, columns) {
        rows := map k | k in rows && !gone(rows[k]) :: rows[k];
      }
    }

    method DeleteAll()
      modifies this
      ensures State() == OnTable(kind, old(State()), Op<T>.Clear)
    {
      rows := map[];
    }

    /** Run a select statement by walking the rows in the order of their keys. */
    method Select(q: Query<T>) returns (selected: Option<seq<T>>)
      ensures selected == Selected(kind, rows, q)
    {
      if !Prepares(kind, q.columns) {
        return None;
      }
      var found: seq<T> := [];
      var rest := rows;
      while rest != map[]
        invariant Walking(rows, found, rest, q)
        decreases |rest|
      {
        WalkStep(rows, found, rest, q);
        var k := NextKey(rest, q);
        found := found + Passing(rest[k], q);
        rest := rest - {k};
      }
      WalkEnds(rows, found, q);
      return Some(Passed(found, q.offset));
    }

    /** The first reader: it copies what it can and always succeeds. */
    method GetLog(q: Query<T>, size: nat) returns (log: seq<T>)
      ensures log == Copied(Selected(kind, rows, q), size)
    {
      var selected := Select(q);
      log := Copied(selected, size);
    }

    /** The second reader, which is also the user log's. */
    method GetLogV2(q: Query<T>, size: nat) returns (reply: Reply<T>)
      ensures reply == Answer(Selected(kind, rows, q), size)
    {
      var selected := Select(q);
      if selected.None? {
        return Failed;
      }
      if selected.value == [] {
        return NoRecord;
      }
      return Records(Fitting(selected.value, size));
    }
  }

  /** The row a walk meets next. */
  function NextKey<T>(rest: map<int, T>, q: Query<T>): (k: int)
    requires rest != map[]
    ensures k in rest
  {
    if q.descending then MaxKey(rest) else MinKey(rest)
  }

  function Passing<T>(x: T, q: Query<T>): seq<T> {
    if q.skips(x) then [] else [x]
  }

  /** What was found and what the rows not yet met will give. */
  ghost predicate Walking<T>(rows: map<int, T>, found: seq<T>, rest: map<int, T>, q: Query<T>) {
    found + Ordered(rest, q) == Ordered(rows, q)
  }

  lemma WalkStep<T>(rows: map<int, T>, found: seq<T>, rest: map<int, T>, q: Query<T>)
    requires rest != map[] && Walking(rows, found, rest, q)
    ensures var k := NextKey(rest, q);
            Walking(rows, found + Passing(rest[k], q), rest - {k}, q) && |rest - {k}| < |rest|
  {
    var k := NextKey(rest, q);
    OrderedStep(rest, q);
    SumOfThree(found, Passing(rest[k], q), Ordered(rest - {k}, q));
    assert (rest - {k}).Keys == rest.Keys - {k};
    assert |(rest - {k}).Keys| < |rest.Keys|;
  }

  lemma WalkEnds<T>(rows: map<int, T>, found: seq<T>, q: Query<T>)
    requires Walking(rows, found, map[], q)
    ensures found == Ordered(rows, q)
  {
    assert Ordered(map[], q) == [];
    assert found + [] == found;
  }

  lemma OrderedStep<T>(rows: map<int, T>, q: Query<T>)
    requires rows != map[]
    ensures Ordered(rows, q) == Passing(rows[NextKey(rows, q)], q) + Ordered(rows - {NextKey(rows, q)}, q)
  {
    if q.descending {
      var k := MaxKey(rows);
      SplitOffNewest(rows);
      KeepOfSum(Read(rows - {k}), rows[k], q.skips);
      ReverseOfSum(Keep(Read(rows - {k}), q.skips), rows[k]);
    } else {
      ReadFromOldest(rows);
      KeepOfCons(rows[MinKey(rows)], Read(rows - {MinKey(rows)}), q.skips);
    }
  }

  lemma ReverseOfSum<T>(s: seq<T>, x: T)
    ensures Reverse(s + [x]) == [x] + Reverse(s) && Reverse(s + []) == Reverse(s)
  {
    assert (s + [x])[..|s|] == s && s + [] == s;
  }

  /** The first row in key order is the one under the smallest key. */
  lemma {:induction false} ReadFromOldest<T>(rows: map<int, T>)
    requires rows != map[]
    ensures Read(rows) == [rows[MinKey(rows)]] + Read(rows - {MinKey(rows)})
    decreases |rows|
  {
    var front := rows - {MaxKey(rows)};
    SplitOffNewest(rows);
    ReadDropOldest(rows);
    if front == map[] {
      OnlyRow(rows);
    } else {
      OldestIsBelowNewest(rows);
      ReadFromOldest(front);
      assert Read(rows)[0] == Read(front)[0];
    }
    assert Read(rows) == [Read(rows)[0]] + Read(rows)[1..];
  }
}
