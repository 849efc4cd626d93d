/**
 The device value table: one row for each device and field name. A device is written by a batch of
 statements chosen before the first of them runs.
 */
module DeviceValues {
  import opened Wrappers
  import opened Numbers
  import opened KeyValue

  const VALUE_LIMIT := 127
  const NAME_LIMIT := 255

  datatype Cell = Cell(dev: int, name: string)

  type Rows = seq<Row<Cell>>

  /** The field kinds that round-trip. */
  datatype Value = IntValue(n: int) | UIntValue(u: nat) | Text(s: string)

  datatype Field = Field(name: string, value: Value)

  function Printed(v: Value): string {
    match v
    case IntValue(n) => PrintInt(n)
    case UIntValue(u) => PrintNat(u)
    case Text(s) => s
  }

  /** Reading a stored text into a field of the same kind as `like`; an unsigned field that does not
      parse is not modelled further than its digits at the end. */
  function Scanned(like: Value, text: string): Value {
    match like
    case IntValue(_) => IntValue(Atoi(text))
    case UIntValue(_) => UIntValue(Horner(text[|text| - TrailingDigits(text)..]))
    case Text(_) => Text(Truncated(text, VALUE_LIMIT))
  }

  /** What a field can hold and still come back. */
  predicate Fits(v: Value) {
    match v
    case IntValue(n) => INT_MIN <= n <= INT_MAX
    case UIntValue(u) => u < 1_000_000_000
    case Text(s) => |s| <= VALUE_LIMIT
  }

  // ----- writing

  datatype Statement = InsertRow(cell: Cell, text: string) | UpdateRows(cell: Cell, text: string)

  function Combine(rows: Rows, cell: Cell, text: string): Statement {
    if Count(rows, cell) == 1 then UpdateRows(cell, text) else InsertRow(cell, text)
  }

  function Batch(rows: Rows, dev: int, fields: seq<Field>): (batch: seq<Statement>)
    ensures |batch| == |fields|
  {
    if fields == [] then []
    else
      var f := fields[|fields| - 1];
      Batch(rows, dev, fields[..|fields| - 1]) + [Combine(rows, Cell(dev, f.name), Printed(f.value))]
  }

  function Exec(rows: Rows, s: Statement): Rows {
    match s
    case InsertRow(cell, text) => rows + [Row(cell, text)]
    case UpdateRows(cell, text) => Overwritten(rows, cell, text)
  }

  function ExecAll(rows: Rows, batch: seq<Statement>): Rows {
    if batch == [] then rows else Exec(ExecAll(rows, batch[..|batch| - 1]), batch[|batch| - 1])
  }

  function SetDevice(rows: Rows, dev: int, fields: seq<Field>): Rows {
    ExecAll(rows, Batch(rows, dev, fields))
  }

  function RemoveDevice(rows: Rows, dev: int): Rows {
    if rows == [] then []
    else RemoveDevice(rows[..|rows| - 1], dev) + if rows[|rows| - 1].key.dev == dev then [] else [rows[|rows| - 1]]
  }

  // ----- reading

  function CopyOf(row: Row<Cell>): (string, string) {
    (Truncated(row.key.name, NAME_LIMIT), Truncated(row.value, VALUE_LIMIT))
  }

  /** The device's rows, cut to the reader's buffers. */
  function Copied(rows: Rows, dev: int): seq<(string, string)> {
    if rows == [] then []
    else (if rows[0].key.dev == dev then [CopyOf(rows[0])] else []) + Copied(rows[1..], dev)
  }

  function Find(copies: seq<(string, string)>, name: string): Option<string> {
    if copies == [] then None
    else if copies[0].0 == name then Some(copies[0].1)
    else Find(copies[1..], name)
  }

  /** Reading one field of a device; without a row the result is no record. */
  function GetField(rows: Rows, dev: int, name: string, like: Value): Option<Value> {
    match Find(Copied(rows, dev), name)
    case None => None
    case Some(text) => Some(Scanned(like, text))
  }

  // ----- the invariant

  ghost predicate Unique(rows: Rows) {
    && (forall cell :: Count(rows, cell) <= 1)
    && (forall i :: 0 <= i < |rows| ==> |rows[i].key.name| <= NAME_LIMIT)
  }

  /** The names of one device type are distinct and short. */
  ghost predicate ProperFields(fields: seq<Field>) {
    && (forall i, j :: 0 <= i < j < |fields| ==> fields[i].name != fields[j].name)
    && (forall i :: 0 <= i < |fields| ==> |fields[i].name| <= NAME_LIMIT)
  }

  /** The map the table stands for, after some of the fields of a device are written. */
  function Written(m: map<Cell, string>, dev: int, fields: seq<Field>): map<Cell, string> {
    if fields == [] then m
    else
      var f := fields[|fields| - 1];
      Written(m, dev, fields[..|fields| - 1])[Cell(dev, f.name) := Printed(f.value)]
  }

  ghost predicate Agrees(rows: Rows, m: map<Cell, string>) {
    forall cell :: First(rows, cell) == Lookup(m, cell)
  }

  lemma {:induction false} CountOfOverwritten(rows: Rows, cell: Cell, text: string, cell': Cell)
    ensures Count(Overwritten(rows, cell, text), cell') == Count(rows, cell')
  {
    if rows != [] {
      var front, last := rows[..|rows| - 1], rows[|rows| - 1];
      CountOfOverwritten(front, cell, text, cell');
      OverwrittenAppend(front, last, cell, text);
      assert rows == front + [last];
      var more := if last.key == cell then Row(cell, text) else last;
      var over := Overwritten(front, cell, text);
      assert (over + [more])[..|over|] == over;
    }
  }

  lemma {:induction false} OverwrittenKeepsNames(rows: Rows, cell: Cell, text: string)
    requires forall i :: 0 <= i < |rows| ==> |rows[i].key.name| <= NAME_LIMIT
    ensures forall i :: 0 <= i < |Overwritten(rows, cell, text)| ==>
              |Overwritten(rows, cell, text)[i].key.name| <= NAME_LIMIT
  {
    if rows != [] {
      OverwrittenKeepsNames(rows[1..], cell, text);
    }
  }

  /** A statement for one cell changes that cell only. */
  lemma ExecOne(rows: Rows, m: map<Cell, string>, s: Statement)
    requires Unique(rows) && Agrees(rows, m) && |s.cell.name| <= NAME_LIMIT
    requires s.UpdateRows? <==> Count(rows, s.cell) == 1
    ensures Unique(Exec(rows, s)) && Agrees(Exec(rows, s), m[s.cell := s.text])
    ensures forall cell :: cell != s.cell ==> Count(Exec(rows, s), cell) == Count(rows, cell)
  {
    CountMeansPresent(rows, s.cell);
    var rows' := Exec(rows, s);
    forall cell
      ensures First(rows', cell) == Lookup(m[s.cell := s.text], cell)
      ensures Count(rows', cell) <= 1 && (cell != s.cell ==> Count(rows', cell) == Count(rows, cell))
    {
      if s.UpdateRows? {
        FirstOfOverwritten(rows, s.cell, s.text, cell);
        CountOfOverwritten(rows, s.cell, s.text, cell);
      } else {
        FirstOfAppend(rows, Row(s.cell, s.text), cell);
        assert rows'[..|rows|] == rows;
      }
    }
    if s.UpdateRows? {
      OverwrittenKeepsNames(rows, s.cell, s.text);
    }
  }

  ghost predicate Names(fields: seq<Field>, dev: int, cell: Cell) {
    cell.dev == dev && exists f :: f in fields && f.name == cell.name
  }

  /** `rows'` is `rows` after `fields` of `dev` were written; no other cell gained or lost a row. */
  ghost predicate Acted(rows: Rows, rows': Rows, m': map<Cell, string>, dev: int, fields: seq<Field>) {
    && Unique(rows') && Agrees(rows', m')
    && forall cell :: !Names(fields, dev, cell) ==> Count(rows', cell) == Count(rows, cell)
  }

  lemma NextField(rows: Rows, mid: Rows, m: map<Cell, string>, dev: int, front: seq<Field>, f: Field)
    requires Acted(rows, mid, m, dev, front) && |f.name| <= NAME_LIMIT
    requires forall g :: g in front ==> g.name != f.name
    ensures var cell := Cell(dev, f.name);
            Acted(rows, Exec(mid, Combine(rows, cell, Printed(f.value))), m[cell := Printed(f.value)], dev, front + [f])
  {
    var s := Combine(rows, Cell(dev, f.name), Printed(f.value));
    assert !Names(front, dev, s.cell);
    assert Count(mid, s.cell) == Count(rows, s.cell);
    ExecOne(mid, m, s);
    forall cell | !Names(front + [f], dev, cell) ensures Count(Exec(mid, s), cell) == Count(rows, cell) {
      assert f in front + [f];
      assert forall g :: g in front ==> g in front + [f];
      assert !Names(front, dev, cell);
    }
  }

  lemma SetNext(rows: Rows, dev: int, fields: seq<Field>)
    requires fields != []
    ensures var front, f := fields[..|fields| - 1], fields[|fields| - 1];
            SetDevice(rows, dev, fields)
            == Exec(SetDevice(rows, dev, front), Combine(rows, Cell(dev, f.name), Printed(f.value)))
  {
    var batch := Batch(rows, dev, fields);
    assert batch[..|batch| - 1] == Batch(rows, dev, fields[..|fields| - 1]);
  }

  /** A batch, although chosen beforehand, acts like its fields written in turn; every cell keeps at most
      one row. */
  lemma {:induction false} BatchActsInTurn(rows: Rows, m: map<Cell, string>, dev: int, fields: seq<Field>)
    requires Unique(rows) && Agrees(rows, m) && ProperFields(fields)
    ensures Acted(rows, SetDevice(rows, dev, fields), Written(m, dev, fields), dev, fields)
  {
    if fields != [] {
      var front, f := fields[..|fields| - 1], fields[|fields| - 1];
      BatchActsInTurn(rows, m, dev, front);
      SetNext(rows, dev, fields);
      assert fields == front + [f];
      NextField(rows, SetDevice(rows, dev, front), Written(m, dev, front), dev, front, f);
    }
  }

  // ----- reading back

  /** With short names and one row for each cell, the reader's copy gives the stored value, cut. */
  lemma {:induction false} FindIsFirst(rows: Rows, dev: int, name: string)
    requires forall i :: 0 <= i < |rows| ==> |rows[i].key.name| <= NAME_LIMIT
    ensures Find(Copied(rows, dev), name) ==
            match First(rows, Cell(dev, name))
            case None => None
            case Some(v) => Some(Truncated(v, VALUE_LIMIT))
  {
    if rows != [] {
      FindIsFirst(rows[1..], dev, name);
      if rows[0].key.dev == dev {
        assert Copied(rows, dev)[1..] == Copied(rows[1..], dev);
      } else {
        assert Copied(rows, dev) == Copied(rows[1..], dev);
      }
    }
  }

  lemma {:induction false} PrintIsShort(n: nat)
    requires n < 1_0000_000_000
    ensures |PrintNat(n)| <= 10
  {
    PowersAtNine();
    assert Pow10(10) == 10 * Pow10(9);
    PrintLength(n, 10);
  }

  /** A value that fits survives printing, the cut and scanning. */
  lemma ValueRoundTrip(v: Value)
    requires Fits(v)
    ensures Scanned(v, Truncated(Printed(v), VALUE_LIMIT)) == v
  {
    match v
    case IntValue(n) =>
      PrintIsShort(if n < 0 then -n else n);
      AtoiOfPrint(n);
    case UIntValue(u) =>
      ParseInvertsPrint(u);
      var text := PrintNat(u);
      assert text[0..] == text;
      TrailingIs(text, |text|);
    case Text(_) =>
  }

  lemma {:induction false} WrittenAt(m: map<Cell, string>, dev: int, fields: seq<Field>, i: nat)
    requires i < |fields| && ProperFields(fields)
    ensures Lookup(Written(m, dev, fields), Cell(dev, fields[i].name)) == Some(Printed(fields[i].value))
  {
    if i < |fields| - 1 {
      WrittenAt(m, dev, fields[..|fields| - 1], i);
    }
  }

  lemma {:induction false} WrittenElsewhere(m: map<Cell, string>, dev: int, fields: seq<Field>, cell: Cell)
    requires !Names(fields, dev, cell)
    ensures Lookup(Written(m, dev, fields), cell) == Lookup(m, cell)
  {
    if fields != [] {
      var front, f := fields[..|fields| - 1], fields[|fields| - 1];
      assert fields == front + [f];
      assert f in fields && forall g :: g in front ==> g in fields;
      WrittenElsewhere(m, dev, front, cell);
    }
  }

  function MapOf(rows: Rows): map<Cell, string> {
    if rows == [] then map[] else MapOf(rows[1..])[rows[0].key := rows[0].value]
  }

  lemma {:induction false} MapOfAgrees(rows: Rows)
    ensures Agrees(rows, MapOf(rows))
  {
    if rows != [] {
      MapOfAgrees(rows[1..]);
    }
  }

  /** Set a device and read it: every field that fits comes back, and no other cell reads differently. */
  lemma SetThenGet(rows: Rows, dev: int, fields: seq<Field>, i: nat)
    requires Unique(rows) && ProperFields(fields) && i < |fields| && Fits(fields[i].value)
    ensures GetField(SetDevice(rows, dev, fields), dev, fields[i].name, fields[i].value) == Some(fields[i].value)
  {
    var rows' := SetDevice(rows, dev, fields);
    MapOfAgrees(rows);
    BatchActsInTurn(rows, MapOf(rows), dev, fields);
    FindIsFirst(rows', dev, fields[i].name);
    WrittenAt(MapOf(rows), dev, fields, i);
    ValueRoundTrip(fields[i].value);
  }

  lemma SetLeavesOthers(rows: Rows, dev: int, fields: seq<Field>, cell: Cell, like: Value)
    requires Unique(rows) && ProperFields(fields) && !Names(fields, dev, cell)
    ensures GetField(SetDevice(rows, dev, fields), cell.dev, cell.name, like)
            == GetField(rows, cell.dev, cell.name, like)
  {
    MapOfAgrees(rows);
    BatchActsInTurn(rows, MapOf(rows), dev, fields);
    FindIsFirst(SetDevice(rows, dev, fields), cell.dev, cell.name);
    FindIsFirst(rows, cell.dev, cell.name);
    WrittenElsewhere(MapOf(rows), dev, fields, cell);
  }

  // ----- whole runs

  datatype Op = SetFields(dev: int, fields: seq<Field>) | Remove(dev: int) | RemoveAll

  function OnRows(rows: Rows, op: Op): Rows {
    match op
    case SetFields(dev, fields) => SetDevice(rows, dev, fields)
    case Remove(dev) => RemoveDevice(rows, dev)
    case RemoveAll => []
  }

  function OnMap(m: map<Cell, string>, op: Op): map<Cell, string> {
    match op
    case SetFields(dev, fields) => Written(m, dev, fields)
    case Remove(dev) => map cell | cell in m && cell.dev != dev :: m[cell]
    case RemoveAll => map[]
  }

  function RowsAfter(ops: seq<Op>): Rows {
    if ops == [] then [] else OnRows(RowsAfter(ops[..|ops| - 1]), ops[|ops| - 1])
  }

  function MapAfter(ops: seq<Op>): map<Cell, string> {
    if ops == [] then map[] else OnMap(MapAfter(ops[..|ops| - 1]), ops[|ops| - 1])
  }

  lemma {:induction false} FirstAfterRemove(rows: Rows, dev: int, cell: Cell)
    ensures First(RemoveDevice(rows, dev), cell) == if cell.dev == dev then None else First(rows, cell)
  {
    if rows != [] {
      var front, last := rows[..|rows| - 1], rows[|rows| - 1];
      FirstAfterRemove(front, dev, cell);
      assert rows == front + [last];
      FirstOfAppend(front, last, cell);
      FirstOfAppend(RemoveDevice(front, dev), last, cell);
      assert RemoveDevice(front, dev) + [] == RemoveDevice(front, dev);
    }
  }

  lemma CountOfAppend(rows: Rows, row: Row<Cell>, cell: Cell)
    ensures Count(rows + [row], cell) == Count(rows, cell) + if row.key == cell then 1 else 0
  {
    assert (rows + [row])[..|rows|] == rows;
  }

  lemma {:induction false} CountAfterRemove(rows: Rows, dev: int, cell: Cell)
    ensures Count(RemoveDevice(rows, dev), cell) == if cell.dev == dev then 0 else Count(rows, cell)
  {
    if rows != [] {
      var front, last := rows[..|rows| - 1], rows[|rows| - 1];
      CountAfterRemove(front, dev, cell);
      var kept := RemoveDevice(front, dev);
      if last.key.dev == dev {
        assert RemoveDevice(rows, dev) == kept;
      } else {
        assert RemoveDevice(rows, dev) == kept + [last];
        CountOfAppend(kept, last, cell);
      }
    }
  }

  lemma {:induction false} RemoveKeepsNames(rows: Rows, dev: int)
    requires forall i :: 0 <= i < |rows| ==> |rows[i].key.name| <= NAME_LIMIT
    ensures forall i :: 0 <= i < |RemoveDevice(rows, dev)| ==> |RemoveDevice(rows, dev)[i].key.name| <= NAME_LIMIT
  {
    if rows != [] {
      RemoveKeepsNames(rows[..|rows| - 1], dev);
    }
  }

  /** In every reachable table each device and name has at most one row, and reading is looking up the
      map of what was last written. */
  lemma {:induction false} TableIsMap(ops: seq<Op>)
    requires forall op :: op in ops && op.SetFields? ==> ProperFields(op.fields)
    ensures Unique(RowsAfter(ops)) && Agrees(RowsAfter(ops), MapAfter(ops))
  {
    if ops != [] {
      var front, op := ops[..|ops| - 1], ops[|ops| - 1];
      assert ops == front + [op];
      TableIsMap(front);
      match op
      case SetFields(dev, fields) => BatchActsInTurn(RowsAfter(front), MapAfter(front), dev, fields);
      case Remove(dev) =>
        RemoveKeepsNames(RowsAfter(front), dev);
        forall cell
          ensures First(RowsAfter(ops), cell) == Lookup(MapAfter(ops), cell) && Count(RowsAfter(ops), cell) <= 1
        {
          FirstAfterRemove(RowsAfter(front), dev, cell);
          CountAfterRemove(RowsAfter(front), dev, cell);
        }
      case RemoveAll =>
    }
  }

  lemma ReadAfterRun(ops: seq<Op>, dev: int, name: string, like: Value)
    requires forall op :: op in ops && op.SetFields? ==> ProperFields(op.fields)
    ensures GetField(RowsAfter(ops), dev, name, like) ==
            match Lookup(MapAfter(ops), Cell(dev, name))
            case None => None
            case Some(text) => Some(Scanned(like, Truncated(text, VALUE_LIMIT)))
  {
    TableIsMap(ops);
    FindIsFirst(RowsAfter(ops), dev, name);
  }
}
