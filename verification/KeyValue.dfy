/**
 The key/value tables against a plain map. A table is a list of rows and may hold several rows for one
 key; a reader takes the first.
 */
module KeyValue {
  import opened Wrappers
  import opened Numbers

  datatype Store = Attributes | Scenes | Locations | Configuration

  /** The longest value a reader's buffer takes. */
  function Limit(store: Store): nat {
    match store
    case Attributes => 1023
    case Scenes => 1023
    case Locations => 63
    case Configuration => 127
  }

  datatype Row<K> = Row(key: K, value: string)

  // ----- queries and statements

  function First<K(==)>(rows: seq<Row<K>>, key: K): Option<string> {
    if rows == [] then None
    else if rows[0].key == key then Some(rows[0].value)
    else First(rows[1..], key)
  }

  function Last<K(==)>(rows: seq<Row<K>>, key: K): Option<string> {
    if rows == [] then None
    else if rows[|rows| - 1].key == key then Some(rows[|rows| - 1].value)
    else Last(rows[..|rows| - 1], key)
  }

  function Count<K(==)>(rows: seq<Row<K>>, key: K): nat {
    if rows == [] then 0 else Count(rows[..|rows| - 1], key) + if rows[|rows| - 1].key == key then 1 else 0
  }

  function Overwritten<K(==)>(rows: seq<Row<K>>, key: K, value: string): seq<Row<K>> {
    if rows == [] then []
    else [if rows[0].key == key then Row(key, value) else rows[0]] + Overwritten(rows[1..], key, value)
  }

  function Without<K>(rows: seq<Row<K>>, gone: K -> bool): seq<Row<K>> {
    if rows == [] then []
    else (if gone(rows[0].key) then [] else [rows[0]]) + Without(rows[1..], gone)
  }

  /** What an update takes for the number of rows: the configuration table has its value parsed instead,
      and the last row seen wins. */
  function Seen<K(==)>(store: Store, rows: seq<Row<K>>, key: K): int {
    if store.Configuration? then
      match Last(rows, key)
      case None => 0
      case Some(v) => Atoi(v)
    else
      Count(rows, key)
  }

  function Update<K(==)>(store: Store, rows: seq<Row<K>>, key: K, value: string): seq<Row<K>> {
    if Seen(store, rows, key) == 0 then rows + [Row(key, value)] else Overwritten(rows, key, value)
  }

  function Truncated(value: string, limit: nat): string {
    if |value| <= limit then value else value[..limit]
  }

  lemma TruncatedMeans(value: string, limit: nat)
    ensures Truncated(value, limit) <= value
    ensures |Truncated(value, limit)| == if |value| < limit then |value| else limit
  {}

  /** Reading a key that has no row leaves the buffer as it was. */
  function Get<K(==)>(store: Store, rows: seq<Row<K>>, key: K, buffer: string): string {
    match First(rows, key)
    case None => buffer
    case Some(v) => Truncated(v, Limit(store))
  }

  // ----- lemmas about single statements

  lemma {:induction false} CountMeansPresent<K>(rows: seq<Row<K>>, key: K)
    ensures Count(rows, key) == 0 <==> First(rows, key) == None
    ensures Last(rows, key) == None <==> First(rows, key) == None
  {
    if rows != [] {
      var front, last := rows[..|rows| - 1], rows[|rows| - 1];
      assert rows == front + [last];
      CountMeansPresent(front, key);
      FirstOfAppend(front, last, key);
    }
  }

  lemma {:induction false} FirstOfAppend<K>(rows: seq<Row<K>>, row: Row<K>, key: K)
    ensures First(rows + [row], key) ==
            if First(rows, key) == None && row.key == key then Some(row.value) else First(rows, key)
  {
    if rows != [] {
      assert (rows + [row])[1..] == rows[1..] + [row];
      FirstOfAppend(rows[1..], row, key);
    }
  }

  lemma {:induction false} FirstOfOverwritten<K>(rows: seq<Row<K>>, key: K, value: string, key': K)
    ensures First(Overwritten(rows, key, value), key') ==
            if key' == key && First(rows, key) != None then Some(value) else First(rows, key')
  {
    if rows != [] {
      FirstOfOverwritten(rows[1..], key, value, key');
    }
  }

  lemma {:induction false} FirstOfWithout<K>(rows: seq<Row<K>>, gone: K -> bool, key: K)
    ensures First(Without(rows, gone), key) == if gone(key) then None else First(rows, key)
  {
    if rows != [] {
      FirstOfWithout(rows[1..], gone, key);
      if gone(rows[0].key) {
        assert Without(rows, gone) == Without(rows[1..], gone);
      } else {
        assert Without(rows, gone)[1..] == Without(rows[1..], gone);
      }
    }
  }

  lemma {:induction false} WithoutAppend<K>(rows: seq<Row<K>>, last: Row<K>, gone: K -> bool)
    ensures Without(rows + [last], gone) == Without(rows, gone) + if gone(last.key) then [] else [last]
  {
    if rows == [] {
      assert [] + [last] == [last] && [last][1..] == [];
    } else {
      assert (rows + [last])[1..] == rows[1..] + [last];
      WithoutAppend(rows[1..], last, gone);
      var head := if gone(rows[0].key) then [] else [rows[0]];
      var tail := if gone(last.key) then [] else [last];
      SumOfThree(head, Without(rows[1..], gone), tail);
    }
  }

  lemma LastOfAppend<K>(rows: seq<Row<K>>, last: Row<K>, key: K)
    ensures Last(rows + [last], key) == if last.key == key then Some(last.value) else Last(rows, key)
  {
    assert (rows + [last])[..|rows|] == rows;
  }

  lemma {:induction false} LastOfWithout<K>(rows: seq<Row<K>>, gone: K -> bool, key: K)
    ensures Last(Without(rows, gone), key) == if gone(key) then None else Last(rows, key)
  {
    if rows != [] {
      var front, last := rows[..|rows| - 1], rows[|rows| - 1];
      LastOfWithout(front, gone, key);
      WithoutAppend(front, last, gone);
      assert rows == front + [last];
      var kept := Without(front, gone);
      if gone(last.key) {
        assert kept + [] == kept;
      } else {
        LastOfAppend(kept, last, key);
      }
    }
  }

  // ----- attributes, scenes and locations are maps

  /** What is done to a table. A removal takes the rows of one key, or of all keys of one device. */
  datatype Op<!K> = Set(key: K, value: string) | AddRow(key: K, value: string) | Remove(gone: K -> bool) | RemoveAll

  function OnRows<K(==)>(store: Store, rows: seq<Row<K>>, op: Op<K>): seq<Row<K>> {
    match op
    case Set(k, v) => Update(store, rows, k, v)
    case AddRow(k, v) => rows + [Row(k, v)]
    case Remove(gone) => Without(rows, gone)
    case RemoveAll => []
  }

  /** Adding a row for a key that is there is hidden by the first row. */
  function OnMap<K(==)>(m: map<K, string>, op: Op<K>): map<K, string> {
    match op
    case Set(k, v) => m[k := v]
    case AddRow(k, v) => if k in m then m else m[k := v]
    case Remove(gone) => map k | k in m && !gone(k) :: m[k]
    case RemoveAll => map[]
  }

  function RowsAfter<K(==)>(store: Store, ops: seq<Op<K>>): seq<Row<K>> {
    if ops == [] then [] else OnRows(store, RowsAfter(store, ops[..|ops| - 1]), ops[|ops| - 1])
  }

  function MapAfter<K(==)>(ops: seq<Op<K>>): map<K, string> {
    if ops == [] then map[] else OnMap(MapAfter(ops[..|ops| - 1]), ops[|ops| - 1])
  }

  function Lookup<K(==)>(m: map<K, string>, key: K): Option<string> {
    if key in m then Some(m[key]) else None
  }

  /** An update is read back, whatever duplicates the table holds, and no other key changes. */
  lemma UpdateThenFirst<K>(store: Store, rows: seq<Row<K>>, key: K, value: string, key': K)
    requires !store.Configuration?
    ensures First(Update(store, rows, key, value), key') == if key' == key then Some(value) else First(rows, key')
  {
    CountMeansPresent(rows, key);
    FirstOfAppend(rows, Row(key, value), key');
    FirstOfOverwritten(rows, key, value, key');
  }

  lemma StepAgrees<K(!new)>(store: Store, rows: seq<Row<K>>, m: map<K, string>, op: Op<K>, key: K)
    requires !store.Configuration? && forall k :: First(rows, k) == Lookup(m, k)
    ensures First(OnRows(store, rows, op), key) == Lookup(OnMap(m, op), key)
  {
    match op
    case Set(k, v) => UpdateThenFirst(store, rows, k, v, key);
    case AddRow(k, v) => FirstOfAppend(rows, Row(k, v), key);
    case Remove(gone) => FirstOfWithout(rows, gone, key);
    case RemoveAll =>
  }

  /** Over every run a reader sees the map's value, cut to its buffer. */
  lemma {:induction false} TableIsMap<K(!new)>(store: Store, ops: seq<Op<K>>, key: K, buffer: string)
    requires !store.Configuration?
    ensures First(RowsAfter(store, ops), key) == Lookup(MapAfter(ops), key)
    ensures Get(store, RowsAfter(store, ops), key, buffer) ==
            if key in MapAfter(ops) then Truncated(MapAfter(ops)[key], if store.Locations? then 63 else 1023)
            else buffer
  {
    if ops != [] {
      var front, op := ops[..|ops| - 1], ops[|ops| - 1];
      forall k ensures First(RowsAfter(store, front), k) == Lookup(MapAfter(front), k) {
        TableIsMap(store, front, k, buffer);
      }
      StepAgrees(store, RowsAfter(store, front), MapAfter(front), op, key);
    }
  }

  // ----- the configuration table

  /** The guard of the update: no row yet, or a value that parses to something other than zero. */
  predicate Replaceable<K(==)>(rows: seq<Row<K>>, key: K) {
    match Last(rows, key)
    case None => true
    case Some(v) => Atoi(v) != 0
  }

  lemma ConfUpdateOther<K>(rows: seq<Row<K>>, key: K, value: string, key': K)
    requires key' != key
    ensures First(Update(Configuration, rows, key, value), key') == First(rows, key')
  {
    FirstOfAppend(rows, Row(key, value), key');
    FirstOfOverwritten(rows, key, value, key');
  }

  /** What the update does: on a replaceable key it behaves like the other tables; otherwise it adds one
      more row and the old value stays in front. */
  lemma ConfUpdate<K>(rows: seq<Row<K>>, key: K, value: string)
    ensures Replaceable(rows, key) ==> First(Update(Configuration, rows, key, value), key) == Some(value)
    ensures !Replaceable(rows, key) ==>
              && First(rows, key) != None
              && First(Update(Configuration, rows, key, value), key) == First(rows, key)
              && Update(Configuration, rows, key, value) == rows + [Row(key, value)]
  {
    CountMeansPresent(rows, key);
    FirstOfAppend(rows, Row(key, value), key);
    FirstOfOverwritten(rows, key, value, key);
  }

  /** Update-then-read returns whatever was written if and only if the key is replaceable. */
  lemma ConfUpdateThenFirst<K>(rows: seq<Row<K>>, key: K)
    ensures (forall v: string :: First(Update(Configuration, rows, key, v), key) == Some(v)) <==> Replaceable(rows, key)
  {
    forall v: string ensures Replaceable(rows, key) ==> First(Update(Configuration, rows, key, v), key) == Some(v) {
      ConfUpdate(rows, key, v);
    }
    if !Replaceable(rows, key) {
      ConfUpdate(rows, key, "");
      var other := First(rows, key).value + "x";
      ConfUpdate(rows, key, other);
      assert |other| != |First(rows, key).value|;
    }
  }

  /** The last row is always the latest value: it is only the reader that looks at the first. */
  lemma ConfLastIsLatest<K>(rows: seq<Row<K>>, key: K, value: string, key': K)
    ensures Last(Update(Configuration, rows, key, value), key') == if key' == key then Some(value) else Last(rows, key')
  {
    if Seen(Configuration, rows, key) == 0 {
      assert (rows + [Row(key, value)])[..|rows|] == rows;
    } else {
      LastAfterOverwrite(rows, key, value, key');
    }
  }

  lemma {:induction false} LastAfterOverwrite<K>(rows: seq<Row<K>>, key: K, value: string, key': K)
    ensures Last(Overwritten(rows, key, value), key') ==
            if key' == key && Last(rows, key) != None then Some(value) else Last(rows, key')
  {
    if rows != [] {
      var front, last := rows[..|rows| - 1], rows[|rows| - 1];
      LastAfterOverwrite(front, key, value, key');
      OverwrittenAppend(front, last, key, value);
      assert rows == front + [last];
      var row := if last.key == key then Row(key, value) else last;
      var over := Overwritten(front, key, value);
      assert (over + [row])[..|over|] == over;
    }
  }

  lemma {:induction false} OverwrittenAppend<K>(rows: seq<Row<K>>, last: Row<K>, key: K, value: string)
    ensures Overwritten(rows + [last], key, value) ==
            Overwritten(rows, key, value) + [if last.key == key then Row(key, value) else last]
  {
    if rows != [] {
      assert (rows + [last])[1..] == rows[1..] + [last];
      OverwrittenAppend(rows[1..], last, key, value);
    }
  }

  // ----- the configuration table over whole runs

  /** A value that reached the table, by an update or by an unchecked addition. */
  datatype Entry = Entry(value: string, added: bool)

  /** The values that reached one key since it was last removed. */
  function History<K(==)>(ops: seq<Op<K>>, key: K): seq<Entry> {
    if ops == [] then []
    else
      var before := History(ops[..|ops| - 1], key);
      match ops[|ops| - 1]
      case Set(k, v) => if k == key then before + [Entry(v, false)] else before
      case AddRow(k, v) => if k == key then before + [Entry(v, true)] else before
      case Remove(gone) => if gone(key) then [] else before
      case RemoveAll => []
  }

  /** The first value, or the latest update whose predecessor parsed to a nonzero number. */
  function Shown(history: seq<Entry>): Option<string> {
    var n := |history|;
    if n == 0 then None
    else if n == 1 || (!history[n - 1].added && Atoi(history[n - 2].value) != 0) then Some(history[n - 1].value)
    else Shown(history[..n - 1])
  }

  ghost predicate Tells<K>(rows: seq<Row<K>>, key: K, history: seq<Entry>) {
    && First(rows, key) == Shown(history)
    && Last(rows, key) == if history == [] then None else Some(history[|history| - 1].value)
  }

  lemma ConfWrite<K>(rows: seq<Row<K>>, key: K, value: string, history: seq<Entry>)
    requires Tells(rows, key, history)
    ensures Tells(Update(Configuration, rows, key, value), key, history + [Entry(value, false)])
  {
    ConfLastIsLatest(rows, key, value, key);
    ConfUpdate(rows, key, value);
    assert (history + [Entry(value, false)])[..|history|] == history;
  }

  lemma ConfAdd<K>(rows: seq<Row<K>>, key: K, value: string, history: seq<Entry>)
    requires Tells(rows, key, history)
    ensures Tells(rows + [Row(key, value)], key, history + [Entry(value, true)])
  {
    FirstOfAppend(rows, Row(key, value), key);
    CountMeansPresent(rows, key);
    assert (rows + [Row(key, value)])[..|rows|] == rows;
    assert (history + [Entry(value, true)])[..|history|] == history;
  }

  lemma ConfOther<K>(rows: seq<Row<K>>, op: Op<K>, key: K, history: seq<Entry>)
    requires Tells(rows, key, history) && (op.Set? || op.AddRow?) && op.key != key
    ensures Tells(OnRows(Configuration, rows, op), key, history)
  {
    if op.Set? {
      ConfLastIsLatest(rows, op.key, op.value, key);
      ConfUpdateOther(rows, op.key, op.value, key);
    } else {
      FirstOfAppend(rows, Row(op.key, op.value), key);
      assert (rows + [Row(op.key, op.value)])[..|rows|] == rows;
    }
  }

  /** Over every run of the configuration table: a reader sees the latest update that followed a nonzero
      number, and every write after a text or a zero is invisible to it. */
  lemma {:induction false} ConfRun<K>(ops: seq<Op<K>>, key: K)
    ensures Tells(RowsAfter(Configuration, ops), key, History(ops, key))
  {
    if ops != [] {
      var front, op := ops[..|ops| - 1], ops[|ops| - 1];
      ConfRun(front, key);
      var rows, history := RowsAfter(Configuration, front), History(front, key);
      if (op.Set? || op.AddRow?) && op.key != key {
        ConfOther(rows, op, key, history);
      } else {
        match op
        case Set(_, v) => ConfWrite(rows, key, v, history);
        case AddRow(_, v) => ConfAdd(rows, key, v, history);
        case Remove(gone) =>
          FirstOfWithout(rows, gone, key);
          LastOfWithout(rows, gone, key);
        case RemoveAll =>
      }
    }
  }

  /** What a reader of the configuration table is given after any run. */
  lemma ConfRead<K>(ops: seq<Op<K>>, key: K, buffer: string)
    ensures Get(Configuration, RowsAfter(Configuration, ops), key, buffer) ==
            match Shown(History(ops, key))
            case None => buffer
            case Some(v) => Truncated(v, 127)
  {
    ConfRun(ops, key);
  }
}
