/** Reading a Modbus device: one point at a time, or one planned block at a time with the
    response sliced back into points. The block form must agree with the point form. */
module DeviceAccess {
  import opened ModbusTypes
  import opened BlockPlanner
  import opened RegisterCodec
  import opened WordBits

  // The registers and bits a device holds.
  datatype Memory = Memory(words: (RegisterType, nat) -> Word, bits: (RegisterType, nat) -> bool)

  datatype Response<T> = Reply(data: seq<T>) | Failed

  // What one block read brings back: register words, bits, or an error.
  datatype BlockReply = Words(words: seq<Word>) | Bits(bits: seq<bool>) | Error

  datatype Sample = Value(v: PointValue) | Fault

  datatype Setup = Setup(byteOrder: Endian, wordOrder: Endian, ieee: Ieee)

  // A device refuses a request outside its limits (MODBUS Application Protocol V1.1b3, sections 6.1 to 6.4).
  function ReadWords(mem: Memory, t: RegisterType, start: nat, count: nat): Response<Word> {
    if 1 <= count <= MAX_REGISTER_BLOCK && start + count <= 0x1_0000
    then Reply(seq<Word>(count, i requires 0 <= i < count => (mem.words)(t, start + i)))
    else Failed
  }

  function ReadBits(mem: Memory, t: RegisterType, start: nat, count: nat): Response<bool> {
    if 1 <= count <= MAX_BIT_BLOCK && start + count <= 0x1_0000
    then Reply(seq(count, i requires 0 <= i < count => (mem.bits)(t, start + i)))
    else Failed
  }

  function ReadBlock(mem: Memory, b: Block): BlockReply {
    if IsBit(b.registerType) then
      match ReadBits(mem, b.registerType, b.startAddress, b.count)
      case Reply(bits) => Bits(bits)
      case Failed => Error
    else
      match ReadWords(mem, b.registerType, b.startAddress, b.count)
      case Reply(words) => Words(words)
      case Failed => Error
  }

  // ----- bit extraction, on the raw words -----

  function ApplyBitExtraction(m: Mapping, decoded: PointValue, raw: seq<Word>): PointValue
    requires m.bitOffset.Some? ==> m.bitOffset.value < 16
  {
    if m.bitOffset.Some? then Bool(BitAt(First(raw), m.bitOffset.value))
    else if m.bitMask.Some? then Bool(And(First(raw), m.bitMask.value) != 0)
    else decoded
  }

  function ScaleOf(m: Mapping): real {
    m.scale.GetOr(1.0)
  }

  predicate ValidMapping(m: Mapping) {
    ScaleOf(m) != 0.0 && (m.bitOffset.Some? ==> m.bitOffset.value < 16)
  }

  ghost predicate Pollable(points: seq<PointConfig>) {
    Readable(points) && forall p <- points :: ValidMapping(p.mapping)
  }

  function DecodePoint(m: Mapping, regs: seq<Word>, s: Setup): PointValue
    requires ValidMapping(m)
  {
    var v := DecodeRegisters(regs, DataTypeOf(m), ScaleOf(m), s.byteOrder, s.wordOrder, s.ieee);
    ApplyBitExtraction(m, v, regs)
  }

  // A bit is taken from the register as it came over the wire: the byte order configured for the
  // device has no part in it, nor have scale and data type.
  lemma BitsIgnoreByteOrder(m: Mapping, regs: seq<Word>, s: Setup, order: Endian)
    requires ValidMapping(m) && (m.bitOffset.Some? || m.bitMask.Some?)
    ensures DecodePoint(m, regs, s.(byteOrder := order)) == DecodePoint(m, regs, s)
  {
  }

  // What the registers of a point decode to: its bit, whether it has a bit in common with the mask, or
  // the number in its data type and scale, sixteen bits without sign and one where the mapping names none.
  lemma DecodedPoint(m: Mapping, regs: seq<Word>, s: Setup)
    requires ValidMapping(m) && !IsBit(m.registerType)
    ensures var raw: Word := if regs == [] then 0 else regs[0];
            var dt := if m.dataType.Some? then m.dataType.value else Uint16;
            var scale := if m.scale.Some? then m.scale.value else 1.0;
            && scale != 0.0
            && DecodePoint(m, regs, s)
               == if m.bitOffset.Some? then Bool(HasDigit(raw, m.bitOffset.value))
                  else if m.bitMask.Some? then Bool(exists k :: 0 <= k < 16 && HasDigit(raw, k) && HasDigit(m.bitMask.value, k))
                  else DecodeRegisters(regs, dt, scale, s.byteOrder, s.wordOrder, s.ieee)
  {
    hide DecodeRegisters, BitAt, And, Pow2, HasDigit;
    var raw: Word := if regs == [] then 0 else regs[0];
    forall k: nat ensures BitAt(raw, k) <==> HasDigit(raw, k) {
      DigitIsBit(raw, k);
    }
    if m.bitMask.Some? {
      forall k: nat ensures BitAt(m.bitMask.value, k) <==> HasDigit(m.bitMask.value, k) {
        DigitIsBit(m.bitMask.value, k);
      }
      CommonBit(raw, m.bitMask.value);
    }
  }

  // The k-th binary digit of the register is one.
  ghost predicate HasDigit(w: nat, k: nat) {
    Pow2(k) > 0 && w / Pow2(k) % 2 == 1
  }

  lemma DigitIsBit(w: nat, k: nat)
    ensures BitAt(w, k) <==> HasDigit(w, k)
  {
    BitIsDigit(w, k);
  }

  // ----- the simple form -----

  function ReadPoint(mem: Memory, m: Mapping, s: Setup): Response<PointValue>
    requires ValidMapping(m)
  {
    if IsBit(m.registerType) then
      match ReadBits(mem, m.registerType, m.address, 1)
      case Reply(bits) => Reply([Bool(bits[0])])
      case Failed => Failed
    else
      match ReadWords(mem, m.registerType, m.address, RegisterCount(DataTypeOf(m), m.registerCount))
      case Reply(regs) => Reply([DecodePoint(m, regs, s)])
      case Failed => Failed
  }

  // The registers a device holds from an address on.
  ghost predicate AreRegisters(regs: seq<Word>, mem: Memory, t: RegisterType, start: nat, count: nat) {
    |regs| == count && forall i | 0 <= i < count :: regs[i] == (mem.words)(t, start + i)
  }

  // A point read on its own gives its bit, or the decoding of its registers: as many as the mapping
  // asks for, or else as its data type takes.
  lemma ReadPointIs(mem: Memory, m: Mapping, s: Setup)
    requires ValidMapping(m)
    ensures IsBit(m.registerType) ==>
              ReadPoint(mem, m, s) == Reply([Bool((mem.bits)(m.registerType, m.address))])
    ensures !IsBit(m.registerType) ==>
              var dt := if m.dataType.Some? then m.dataType.value else Uint16;
              var natural := if dt == Float64 then 4 else if dt in {Uint32, Int32, Float32} then 2 else 1;
              var count := if m.registerCount.Some? then m.registerCount.value else natural;
              if 1 <= count <= 125 && m.address + count <= 0x1_0000
              then exists regs :: AreRegisters(regs, mem, m.registerType, m.address, count)
                                  && ReadPoint(mem, m, s) == Reply([DecodePoint(m, regs, s)])
              else ReadPoint(mem, m, s) == Failed
  {
    hide DecodePoint, AreRegisters;
    if !IsBit(m.registerType) {
      var count := RegisterCount(DataTypeOf(m), m.registerCount);
      var r := ReadWords(mem, m.registerType, m.address, count);
      if r.Reply? {
        WordsRead(mem, m.registerType, m.address, count);
        assert ReadPoint(mem, m, s) == Reply([DecodePoint(m, r.data, s)]);
      }
    }
  }

  lemma WordsRead(mem: Memory, t: RegisterType, start: nat, count: nat)
    ensures var r := ReadWords(mem, t, start, count); r.Reply? ==> AreRegisters(r.data, mem, t, start, count)
  {
  }

  // ----- the fast form -----

  // What the poll loop makes of one point of a block, given the reply to the block read.
  function SampleOf(points: seq<PointConfig>, s: Setup, b: Block, p: BlockPoint, reply: BlockReply): Sample
    requires Pollable(points) && p.pointIndex < |points|
  {
    match reply
    case Error => Fault
    case Bits(bits) => if p.offset < |bits| then Value(Bool(bits[p.offset])) else Fault
    case Words(regs) =>
      if p.offset + p.regCount <= |regs|
      then Value(DecodePoint(points[p.pointIndex].mapping, regs[p.offset..p.offset + p.regCount], s))
      else Fault
  }

  lemma {:induction false} FlattenHolds(bs: seq<Block>, k: nat, i: nat, j: nat)
    requires i < k <= |bs| && j < |bs[i].points|
    ensures MembersOf(bs[i])[j] in FlattenFirst(bs, k)
  {
    if i < k - 1 {
      FlattenHolds(bs, k - 1, i, j);
    }
  }

  // What the plan records about a point is what the configuration says about it.
  lemma PlannedPoint(points: seq<PointConfig>, order: seq<RegisterType>, b: Block, p: BlockPoint)
    requires IsTypeOrder(order) && b in Plan(points, order) && p in b.points
    ensures p.pointIndex < |points|
    ensures var m := points[p.pointIndex].mapping;
            && m.registerType == b.registerType
            && b.startAddress + p.offset == m.address
            && p.regCount == UnitsOf(m)
  {
    hide Plan, FlattenFirst;
    var bs := Plan(points, order);
    var i :| 0 <= i < |bs| && bs[i] == b;
    var j :| 0 <= j < |b.points| && b.points[j] == p;
    FlattenHolds(bs, |bs|, i, j);
    PlanPartitions(points, order);
    assert MembersOf(b)[j] in multiset(Flatten(bs));
    assert MembersOf(b)[j] in multiset(Members(points));
    assert MembersOf(b)[j] in Members(points);
  }

  // Every planned request succeeds. A point that lies inside its block gets exactly the value it
  // would get on its own; a point that does not is faulted, and never gets a different value.
  lemma BlockPollingRefinesPointPolling(
      points: seq<PointConfig>, order: seq<RegisterType>, mem: Memory, s: Setup, b: Block, p: BlockPoint)
    requires Pollable(points) && IsTypeOrder(order) && b in Plan(points, order) && p in b.points
    ensures p.pointIndex < |points| && ReadBlock(mem, b) != Error
    ensures var one := ReadPoint(mem, points[p.pointIndex].mapping, s);
            && one.Reply? && |one.data| == 1
            && SampleOf(points, s, b, p, ReadBlock(mem, b))
                == if p.offset + p.regCount <= b.count then Value(one.data[0]) else Fault
  {
    hide Plan, DecodePoint;
    PlannedPoint(points, order, b, p);
    PlanWithinLimits(points, order);
    var m := points[p.pointIndex].mapping;
    assert points[p.pointIndex] in points;
    if !IsBit(b.registerType) && p.offset + p.regCount <= b.count {
      assert ReadWords(mem, b.registerType, b.startAddress, b.count).data[p.offset..p.offset + p.regCount]
          == ReadWords(mem, m.registerType, m.address, p.regCount).data;
    }
  }

  // So block polling agrees with point polling on every point of every device memory exactly when,
  // in each type's sorted order, every run ends on the point that reaches furthest.
  lemma BlockPollingAgreesExactly(points: seq<PointConfig>, order: seq<RegisterType>, mem: Memory, s: Setup)
    requires Pollable(points) && IsTypeOrder(order)
    ensures (forall b <- Plan(points, order) :: forall p <- b.points ::
               p.pointIndex < |points| && SampleOf(points, s, b, p, ReadBlock(mem, b)).Value?
               && ReadPoint(mem, points[p.pointIndex].mapping, s)
                    == Reply([SampleOf(points, s, b, p, ReadBlock(mem, b)).v]))
            <==> (forall t: RegisterType :: RunsEndFurthest(points, t))
  {
    hide Plan, ReadPoint, SampleOf, ReadBlock, RunsEndFurthest;
    PlanCoversExactly(points, order);
    forall b <- Plan(points, order), p <- b.points
      ensures p.pointIndex < |points|
      ensures (&& SampleOf(points, s, b, p, ReadBlock(mem, b)).Value?
               && ReadPoint(mem, points[p.pointIndex].mapping, s)
                    == Reply([SampleOf(points, s, b, p, ReadBlock(mem, b)).v]))
          <==> p.offset + p.regCount <= b.count
    {
      BlockPollingRefinesPointPolling(points, order, mem, s, b, p);
    }
  }
}
