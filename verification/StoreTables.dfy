/** The key/value and device value tables as they are updated: statements run one after another. */
module StoreTables {
  import opened Wrappers
  import opened Numbers
  import opened KeyValue
  import D = DeviceValues

  class KeyValueTable<K(==)> {
    const store: Store
    var rows: seq<Row<K>>

    constructor (store: Store)
      ensures this.store == store && rows == []
    {
      this.store, rows := store, [];
    }

    /** What the update's first query leaves in its counter. For the configuration table the query
        returns values, and each row's value overwrites the counter. */
    method CountRows(key: K) returns (size: int)
      ensures size == Seen(store, rows, key)
    {
      size := 0;
      for i := 0 to |rows|
        invariant size == Seen(store, rows[..i], key)
      {
        assert rows[..i + 1][..i] == rows[..i];
        if rows[i].key == key {
          size := if store.Configuration? then Atoi(rows[i].value) else size + 1;
        }
      }
      assert rows[..|rows|] == rows;
    }

    method UpdateValue(key: K, value: string)
      modifies this
      ensures rows == Update(store, old(rows), key, value)
    {
      var size := CountRows(key);
      if size == 0 {
        rows := rows + [Row(key, value)];
      } else {
        rows := Overwritten(rows, key, value);
      }
    }

    method AddValue(key: K, value: string)
      modifies this
      ensures rows == OnRows(store, old(rows), AddRow(key, value))
    {
      rows := rows + [Row(key, value)];
    }

    /** Copy the first row's value into the caller's buffer, or leave the buffer alone. */
    method GetValue(key: K, buffer: string) returns (buffer': string)
      ensures buffer' == Get(store, rows, key, buffer)
    {
      for i := 0 to |rows|
        invariant First(rows, key) == First(rows[i..], key)
      {
        if rows[i].key == key {
          return Truncated(rows[i].value, Limit(store));
        }
      }
      return buffer;
    }

    /** Delete the rows of one key, or of all keys of one device. */
    method Delete(gone: K -> bool)
      modifies this
      ensures rows == OnRows(store, old(rows), Remove(gone))
    {
      rows := Without(rows, gone);
    }

    method DeleteAll()
      modifies this
      ensures rows == []
    {
      rows := [];
    }
  }

  datatype Device = Device(id: int, fields: seq<D.Field>)

  function SetDevices(rows: D.Rows, devices: seq<Device>): D.Rows {
    if devices == [] then rows
    else
      var d := devices[|devices| - 1];
      D.SetDevice(SetDevices(rows, devices[..|devices| - 1]), d.id, d.fields)
  }

  class DeviceValueTable {
    var rows: D.Rows

    constructor ()
      ensures rows == []
    {
      rows := [];
    }

    /** Write a device: choose every statement against the table as it is, then run them all. */
    method SetDeviceValue(dev: int, fields: seq<D.Field>)
      modifies this
      ensures rows == D.SetDevice(old(rows), dev, fields)
    {
      var batch: seq<D.Statement> := [];
      for i := 0 to |fields|
        invariant batch == D.Batch(rows, dev, fields[..i])
      {
        assert fields[..i + 1][..i] == fields[..i];
        batch := batch + [D.Combine(rows, D.Cell(dev, fields[i].name), D.Printed(fields[i].value))];
      }
      assert fields[..|fields|] == fields;
      ExecBatch(batch);
    }

    method ExecBatch(batch: seq<D.Statement>)
      modifies this
      ensures rows == D.ExecAll(old(rows), batch)
    {
      for i := 0 to |batch|
        invariant rows == D.ExecAll(old(rows), batch[..i])
      {
        assert batch[..i + 1][..i] == batch[..i];
        rows := D.Exec(rows, batch[i]);
      }
      assert batch[..|batch|] == batch;
    }

    method SetDevs(devices: seq<Device>)
      modifies this
      ensures rows == SetDevices(old(rows), devices)
    {
      for i := 0 to |devices|
        invariant rows == SetDevices(old(rows), devices[..i])
      {
        assert devices[..i + 1][..i] == devices[..i];
        SetDeviceValue(devices[i].id, devices[i].fields);
      }
      assert devices[..|devices|] == devices;
    }

    method DeleteDevice(dev: int)
      modifies this
      ensures rows == D.OnRows(old(rows), D.Remove(dev))
    {
      rows := D.RemoveDevice(rows, dev);
    }

    method DeleteAll()
      modifies this
      ensures rows == D.OnRows(old(rows), D.RemoveAll)
    {
      rows := [];
    }

    /** Copy the rows of a device into the reader's array. */
    method CopyRows(dev: int) returns (copies: seq<(string, string)>)
      ensures copies == D.Copied(rows, dev)
    {
      copies := [];
      for i := 0 to |rows|
        invariant copies + D.Copied(rows[i..], dev) == D.Copied(rows, dev)
      {
        if rows[i].key.dev == dev {
          copies := copies + [D.CopyOf(rows[i])];
        }
      }
    }

    method FindValue(copies: seq<(string, string)>, name: string) returns (value: Option<string>)
      ensures value == D.Find(copies, name)
    {
      for i := 0 to |copies|
        invariant D.Find(copies, name) == D.Find(copies[i..], name)
      {
        if copies[i].0 == name {
          return Some(copies[i].1);
        }
      }
      return None;
    }

    method GetField(dev: int, name: string, like: D.Value) returns (value: Option<D.Value>)
      ensures value == D.GetField(rows, dev, name, like)
    {
      var copies := CopyRows(dev);
      var text := FindValue(copies, name);
      match text
      case None =>
        value := None;
      case Some(t) =>
        value := Some(D.Scanned(like, t));
    }
  }

  /** Writing a list of devices is writing them in turn; the invariant holds after each. */
  lemma {:induction false} SetDevicesKeeps(rows: D.Rows, devices: seq<Device>)
    requires D.Unique(rows) && forall d :: d in devices ==> D.ProperFields(d.fields)
    ensures D.Unique(SetDevices(rows, devices))
  {
    if devices != [] {
      var front, d := devices[..|devices| - 1], devices[|devices| - 1];
      assert devices == front + [d];
      SetDevicesKeeps(rows, front);
      var mid := SetDevices(rows, front);
      D.MapOfAgrees(mid);
      D.BatchActsInTurn(mid, D.MapOf(mid), d.id, d.fields);
    }
  }
}
