/** The live point store: last value and status flags of every known point. */
module LivePoints {
  import opened ModbusTypes

  datatype PointKey = PointKey(device: string, point: string)

  datatype Entry = Entry(value: PointValue, status: bv8)

  const FAULT: bv8 := 0x04
  const DOWN: bv8 := 0x10

  predicate Has(status: bv8, flag: bv8) { status & flag != 0 }

  function SetFlag(status: bv8, flag: bv8): bv8 { status | flag }

  function ClearFlag(status: bv8, flag: bv8): bv8 { status & !flag }

  // Every flag that is neither FAULT nor DOWN.
  function Others(status: bv8): bv8 { status & !(FAULT | DOWN) }

  lemma FaultFlagFacts(status: bv8)
    ensures Has(SetFlag(status, FAULT), FAULT) && !Has(ClearFlag(status, FAULT), FAULT)
    ensures Has(SetFlag(status, FAULT), DOWN) == Has(ClearFlag(status, FAULT), DOWN) == Has(status, DOWN)
    ensures Others(SetFlag(status, FAULT)) == Others(ClearFlag(status, FAULT)) == Others(status)
  {
  }

  lemma DownFlagFacts(status: bv8)
    ensures Has(SetFlag(status, DOWN), DOWN) && !Has(ClearFlag(status, DOWN), DOWN)
    ensures Has(SetFlag(status, DOWN), FAULT) == Has(ClearFlag(status, DOWN), FAULT) == Has(status, FAULT)
    ensures Others(SetFlag(status, DOWN)) == Others(ClearFlag(status, DOWN)) == Others(status)
  {
  }

  lemma NoFlagFacts()
    ensures !Has(0, FAULT) && !Has(0, DOWN) && Others(0) == 0
  {
  }

  // A value update keeps the flags of a known point; a new point starts with none.
  function Stored(data: map<PointKey, Entry>, key: PointKey, v: PointValue): map<PointKey, Entry> {
    data[key := Entry(v, if key in data then data[key].status else 0)]
  }

  // Flags of an unknown point cannot be changed.
  function Flagged(data: map<PointKey, Entry>, key: PointKey, flag: bv8): map<PointKey, Entry> {
    if key in data then data[key := data[key].(status := SetFlag(data[key].status, flag))] else data
  }

  function Unflagged(data: map<PointKey, Entry>, key: PointKey, flag: bv8): map<PointKey, Entry> {
    if key in data then data[key := data[key].(status := ClearFlag(data[key].status, flag))] else data
  }

  class PointStore {
    var data: map<PointKey, Entry>

    constructor ()
      ensures data == map[]
    {
      data := map[];
    }

    method Set(key: PointKey, v: PointValue)
      modifies this
      ensures data == Stored(old(data), key, v)
    {
      var status := if key in data then data[key].status else 0;
      data := data[key := Entry(v, status)];
    }

    method SetIfChanged(key: PointKey, v: PointValue)
      modifies this
      ensures data == Stored(old(data), key, v)
    {
      if key in data && data[key].value == v {
        return;
      }
      Set(key, v);
    }

    method SetStatus(key: PointKey, flag: bv8)
      modifies this
      ensures data == Flagged(old(data), key, flag)
    {
      if key in data {
        var entry := data[key];
        data := data[key := entry.(status := SetFlag(entry.status, flag))];
      }
    }

    method ClearStatus(key: PointKey, flag: bv8)
      modifies this
      ensures data == Unflagged(old(data), key, flag)
    {
      if key in data {
        var entry := data[key];
        data := data[key := entry.(status := ClearFlag(entry.status, flag))];
      }
    }
  }
}
