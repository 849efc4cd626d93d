/** The readers of the two log tables, with their queries. */
module LogReaders {
  import opened Wrappers
  import opened BoundedLists
  import opened EventLog

  datatype DeviceEntry =
    DeviceEntry(devId: int, devType: int, networkType: int, time: int, alarmType: int, text: string)

  datatype UserEntry = UserEntry(severity: int, content: string)

  /** Ids are printed as signed numbers when an entry is written and as unsigned ones in a condition. */
  function Signed(n: int): int {
    if n < 0x8000_0000 then n else n - 0x1_0000_0000
  }

  function Unsigned(n: int): int {
    if n < 0 then n + 0x1_0000_0000 else n
  }

  function Stored(e: DeviceEntry): DeviceEntry {
    e.(devId := Signed(e.devId))
  }

  /** What a reader asks for. A zero bound of a time span is no bound. */
  datatype Wanted =
    | Anything
    | OfDevice(id: nat)
    | OfType(devType: int)
    | OfNetwork(networkType: int)
    | OfAlarm(alarmType: int)
    | Between(start: int, end: int)

  predicate Wants(w: Wanted, e: DeviceEntry) {
    match w
    case Anything => true
    case OfDevice(id) => e.devId == id
    case OfType(devType) => e.devType == devType
    case OfNetwork(networkType) => e.networkType == networkType
    case OfAlarm(alarmType) => e.alarmType == Unsigned(alarmType)
    case Between(start, end) =>
      if start == 0 then e.time <= end else if end == 0 then e.time > start else start <= e.time <= end
  }

  function Unwanted(w: Wanted): DeviceEntry -> bool {
    e => !Wants(w, e)
  }

  function ConditionColumns(w: Wanted): set<Column> {
    match w
    case Anything => {}
    case OfDevice(_) => {DevId}
    case OfType(_) => {DevType}
    case OfNetwork(_) => {NetworkType}
    case OfAlarm(_) => {AlarmType}
    case Between(_, _) => {Time}
  }

  /** The first family reads newest first, from an index on; the second reads oldest first and tells an
      empty result from an error. */
  datatype DeviceReader = LogReader(wanted: Wanted, index: int) | ExtLogReader(wanted: Wanted)

  /** A negative offset is none. */
  function Offset(index: int): nat {
    if index < 0 then 0 else index
  }

  const LOG_COLUMNS := {DevId, DevType, NetworkType, Log, Time, AlarmType, Scene}
  const EXT_LOG_COLUMNS :=
    {DevId, DevName, DevType, NetworkType, Log, Time, TimeStr, AlarmType, Scene, Ext1, Ext2}

  function DeviceQuery(r: DeviceReader): Query<DeviceEntry> {
    match r
    case LogReader(w, index) =>
      var columns := if w.OfAlarm? then EXT_LOG_COLUMNS else LOG_COLUMNS;
      Query(columns + ConditionColumns(w) + {Num}, Unwanted(w), true, Offset(index))
    case ExtLogReader(w) => Query(EXT_LOG_COLUMNS + ConditionColumns(w) + {Num}, Unwanted(w), false, 0)
  }

  /** The entries a reader asks for, in the order in which they were written. */
  function WantedOf(ops: seq<Op<DeviceEntry>>, w: Wanted): seq<DeviceEntry> {
    Keep(ListAfter(DeviceLog, ops), Unwanted(w))
  }

  ghost function ReadDevices(ops: seq<Op<DeviceEntry>>, r: DeviceReader, size: nat): Reply<DeviceEntry> {
    var selected := Selected(DeviceLog, TableAfter(DeviceLog, ops).rows, DeviceQuery(r));
    if r.LogReader? then Records(Copied(selected, size)) else Answer(selected, size)
  }

  /** The device log has every column its readers name. */
  lemma DeviceQueryPrepares(r: DeviceReader)
    ensures Prepares(DeviceLog, DeviceQuery(r).columns)
  {
  }

  /** Every reader of the device log sees what it asks for of the bounded list, up to its buffer's size. */
  lemma DeviceLogIsRead(ops: seq<Op<DeviceEntry>>, r: DeviceReader, size: nat)
    ensures var s := WantedOf(ops, r.wanted);
            ReadDevices(ops, r, size) ==
            if r.LogReader? then Records(Fitting(Passed(Reverse(s), Offset(r.index)), size))
            else if s == [] then NoRecord
            else Records(Fitting(s, size))
  {
    DeviceQueryPrepares(r);
    DeviceLogIsSelected(ops, DeviceQuery(r));
  }

  function Smaller(a: nat, b: nat): nat {
    if a < b then a else b
  }

  lemma PassedFits<T>(r: seq<T>, over: nat, size: nat)
    ensures var log := Fitting(Passed(r, over), size);
            && |log| == Smaller(size, if over < |r| then |r| - over else 0)
            && forall i :: 0 <= i < |log| ==> over + i < |r| && log[i] == r[over + i]
  {
  }

  lemma ReverseSize<T>(s: seq<T>)
    ensures |Reverse(s)| == |s|
  {
    if s != [] { ReverseAt(s, 0); }
  }

  lemma FromNewest<T>(s: seq<T>, over: nat, size: nat) returns (log: seq<T>)
    ensures log == Fitting(Passed(Reverse(s), over), size)
    ensures |log| == Smaller(size, if over < |s| then |s| - over else 0)
    ensures forall i :: 0 <= i < |log| ==> log[i] == s[|s| - 1 - over - i]
  {
    var r := Reverse(s);
    ReverseSize(s);
    PassedFits(r, over, size);
    log := Fitting(Passed(r, over), size);
    forall i | 0 <= i < |log| ensures log[i] == s[|s| - 1 - over - i] {
      ReverseAt(s, over + i);
    }
  }

  /** Record by record, the first family delivers the wanted entries from the newest on, passing over as many
      as its index says, until the buffer is full. */
  lemma NewestRecords(ops: seq<Op<DeviceEntry>>, w: Wanted, index: int, size: nat)
    returns (s: seq<DeviceEntry>, log: seq<DeviceEntry>, over: nat)
    ensures s == WantedOf(ops, w) && over == if index > 0 then index else 0
    ensures ReadDevices(ops, LogReader(w, index), size) == Records(log)
    ensures |log| == Smaller(size, if over < |s| then |s| - over else 0)
    ensures forall i :: 0 <= i < |log| ==> log[i] == s[|s| - 1 - over - i]
  {
    DeviceLogIsRead(ops, LogReader(w, index), size);
    s, over := WantedOf(ops, w), Offset(index);
    log := FromNewest(s, over, size);
  }

  lemma FromOldest<T>(s: seq<T>, size: nat) returns (log: seq<T>)
    ensures log == Fitting(s, size)
    ensures |log| == Smaller(size, |s|) && forall i :: 0 <= i < |log| ==> log[i] == s[i]
  {
    log := Fitting(s, size);
  }

  lemma ExtLogIsRead(ops: seq<Op<DeviceEntry>>, w: Wanted, size: nat, s: seq<DeviceEntry>)
    requires s == WantedOf(ops, w)
    ensures ReadDevices(ops, ExtLogReader(w), size) == if s == [] then NoRecord else Records(Fitting(s, size))
  {
    DeviceLogIsRead(ops, ExtLogReader(w), size);
  }

  /** The second family delivers the wanted entries from the oldest on until the buffer is full, and says so
      when there is none. */
  lemma OldestRecords(ops: seq<Op<DeviceEntry>>, w: Wanted, size: nat)
    returns (s: seq<DeviceEntry>, log: seq<DeviceEntry>)
    ensures s == WantedOf(ops, w)
    ensures ReadDevices(ops, ExtLogReader(w), size) == if s == [] then NoRecord else Records(log)
    ensures |log| == Smaller(size, |s|) && forall i :: 0 <= i < |log| ==> log[i] == s[i]
  {
    s := WantedOf(ops, w);
    log := FromOldest(s, size);
    ExtLogIsRead(ops, w, size, s);
  }

  /** A deletion by device. */
  function DeviceDeletion(id: nat): Op<DeviceEntry> {
    DeleteWhere({DevId}, e => Wants(OfDevice(id), e))
  }

  lemma ListAfterNext<T>(kind: Kind, ops: seq<Op<T>>, op: Op<T>)
    ensures ListAfter(kind, ops + [op]) == OnList(kind, ListAfter(kind, ops), op)
  {
    assert (ops + [op])[..|ops|] == ops;
  }

  lemma JustWritten<T>(kind: Kind, ops: seq<Op<T>>, x: T)
    ensures x in ListAfter(kind, ops + [Append([x])])
  {
    ListAfterNext(kind, ops, Append([x]));
    assert AppendedTimes(Limit(kind), ListAfter(kind, ops), x, 1)
        == Appended(Limit(kind), AppendedTimes(Limit(kind), ListAfter(kind, ops), x, 0), x);
  }

  lemma FoundWhenWanted(ops: seq<Op<DeviceEntry>>, w: Wanted, e: DeviceEntry, size: nat)
    requires size >= Limit(DeviceLog)
    ensures var reply := ReadDevices(ops, ExtLogReader(w), size);
            reply.Records? && e in reply.log <==> e in ListAfter(DeviceLog, ops) && Wants(w, e)
  {
    var s := ListAfter(DeviceLog, ops);
    DeviceLogIsRead(ops, ExtLogReader(w), size);
    KeepHas(s, e, Unwanted(w));
    TableIsBoundedList(DeviceLog, ops);
    KeepShortens(s, Unwanted(w));
  }

  /** A buffer for the whole log gets an entry if and only if it is in the log and is of the device, type,
      network or alarm asked for, or from the time span: bounds count, except that a span without an end
      leaves out its first second, and a span without any bound ends at zero. */
  lemma DeliveredIff(ops: seq<Op<DeviceEntry>>, w: Wanted, e: DeviceEntry, size: nat)
    requires size >= Limit(DeviceLog)
    ensures var reply := ReadDevices(ops, ExtLogReader(w), size);
            reply.Records? && e in reply.log <==>
              && e in ListAfter(DeviceLog, ops)
              && (w.OfDevice? ==> e.devId == w.id) && (w.OfType? ==> e.devType == w.devType)
              && (w.OfNetwork? ==> e.networkType == w.networkType)
              && (w.OfAlarm? ==> e.alarmType == if w.alarmType >= 0 then w.alarmType else w.alarmType + 0x1_0000_0000)
              && (w.Between? && w.start != 0 ==> e.time >= w.start)
              && (w.Between? && (w.end != 0 || w.start == 0) ==> e.time <= w.end)
              && (w.Between? && w.end == 0 && w.start != 0 ==> e.time != w.start)
  {
    FoundWhenWanted(ops, w, e, size);
  }

  /** What was just written for a device is found by its id if and only if the id is below 2^31. */
  lemma FoundByIdIff(ops: seq<Op<DeviceEntry>>, e: DeviceEntry, size: nat)
    requires 0 <= e.devId < 0x1_0000_0000 && size >= Limit(DeviceLog)
    ensures var reply := ReadDevices(ops + [Append([Stored(e)])], ExtLogReader(OfDevice(e.devId)), size);
            reply.Records? && Stored(e) in reply.log <==> e.devId < 0x8000_0000
  {
    var ops' := ops + [Append([Stored(e)])];
    JustWritten(DeviceLog, ops, Stored(e));
    FoundWhenWanted(ops', OfDevice(e.devId), Stored(e), size);
  }

  lemma DeviceDeletionLeaves(ops: seq<Op<DeviceEntry>>, id: nat, e: DeviceEntry)
    ensures e in Read(TableAfter(DeviceLog, ops + [DeviceDeletion(id)]).rows)
            <==> e in ListAfter(DeviceLog, ops) && e.devId != id
  {
    var deletion := DeviceDeletion(id);
    TableIsBoundedList(DeviceLog, ops + [deletion]);
    ListAfterNext(DeviceLog, ops, deletion);
    assert Prepares(DeviceLog, deletion.columns);
    KeepHas(ListAfter(DeviceLog, ops), e, deletion.gone);
  }

  /** Likewise for the deletion by device: entries of a device with a higher id stay. */
  lemma DeletedByIdIff(ops: seq<Op<DeviceEntry>>, e: DeviceEntry)
    requires 0 <= e.devId < 0x1_0000_0000
    ensures var ops' := ops + [Append([Stored(e)])] + [DeviceDeletion(e.devId)];
            Stored(e) !in Read(TableAfter(DeviceLog, ops').rows) <==> e.devId < 0x8000_0000
  {
    var before := ops + [Append([Stored(e)])];
    JustWritten(DeviceLog, ops, Stored(e));
    DeviceDeletionLeaves(before, e.devId, Stored(e));
  }

  // ----- the user log

  datatype UserReader =
    | UserLogReader(index: int)
    | UserLogOf(name: string, index: int)
    | UserLogBetween(start: int, end: int)

  /** The conditions speak of columns the entries do not have. */
  function UserQuery(r: UserReader): Query<UserEntry> {
    var (condition, index) :=
      match r
      case UserLogReader(i) => ({}, i)
      case UserLogOf(_, i) => ({UserName}, i)
      case UserLogBetween(_, _) => ({Time}, 0);
    Query({Severity, Content} + condition + {Num}, _ => false, true, Offset(index))
  }

  /** Every reader of the user log orders by NUM, which that table does not have: none delivers a record,
      whatever was logged. */
  lemma UserLogIsNeverRead(ops: seq<Op<UserEntry>>, r: UserReader, size: nat)
    ensures Answer(Selected(UserLog, TableAfter(UserLog, ops).rows, UserQuery(r)), size) == Failed
  {
    assert Num in UserQuery(r).columns && !HasColumn(UserLog, Num);
  }

  /** The deletion by user name. */
  function UserDeletion(name: string): Op<UserEntry> {
    DeleteWhere({UserName}, _ => true)
  }

  predicate AddsOrDeletesByName(op: Op<UserEntry>) {
    op.Append? || (op.DeleteWhere? && op.columns == UserDeletion("").columns)
  }

  /** The deletion by user name removes nothing: with it and additions the table holds the newest writes. */
  lemma UserLogOnlyGrows(ops: seq<Op<UserEntry>>)
    requires forall op :: op in ops ==> AddsOrDeletesByName(op)
    ensures Read(TableAfter(UserLog, ops).rows) == Newest(Limit(UserLog), Everything(ops))
  {
    forall op | op in ops ensures OnlyAdds(UserLog, op) {
      assert op.DeleteWhere? ==> UserName in op.columns && !HasColumn(UserLog, UserName);
    }
    TableHoldsNewest(UserLog, ops);
  }
}
