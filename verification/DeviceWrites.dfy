/** Writing a point of a Modbus device, through the register codec or with a masked write of one
    register, and what reading it back then gives. */
module DeviceWrites {
  import opened Options
  import opened ModbusTypes
  import opened RegisterCodec
  import opened WordBits
  import opened DeviceAccess

  function Overlay(mem: Memory, t: RegisterType, start: nat, regs: seq<Word>, u: RegisterType, a: nat): Word {
    if u == t && start <= a < start + |regs| then regs[a - start] else (mem.words)(u, a)
  }

  // A device refuses to write past its last address (MODBUS Application Protocol V1.1b3, sections 6.5, 6.6
  // and 6.12).
  function WriteWords(mem: Memory, t: RegisterType, start: nat, regs: seq<Word>): Option<Memory> {
    if start + |regs| > 0x1_0000 then None
    else Some(mem.(words := (u: RegisterType, a: nat) => Overlay(mem, t, start, regs, u, a)))
  }

  function WriteBit(mem: Memory, t: RegisterType, at: nat, bit: bool): Option<Memory> {
    if at >= 0x1_0000 then None
    else Some(mem.(bits := (u: RegisterType, a: nat) => if u == t && a == at then bit else (mem.bits)(u, a)))
  }

  // `None` stands for an error: of the device, or, for an input register, of the encoder.
  function WritePoint(mem: Memory, m: Mapping, value: PointValue, s: Setup): Option<Memory>
    requires ValidMapping(m)
  {
    match m.registerType
    case Coil => WriteBit(mem, Coil, m.address, AsTruth(value))
    case Holding =>
      var regs := EncodeRegisters(value, DataTypeOf(m), ScaleOf(m), s.byteOrder, s.wordOrder, s.ieee);
      WriteWords(mem, Holding, m.address, regs)
    case DiscreteInput | Input => None
  }

  // Mask Write Register, function code 22 (MODBUS Application Protocol V1.1b3, section 6.16).
  function MaskWrite(current: Word, andMask: Word, orMask: Word): Word {
    Or(And(current, andMask), And(orMask, Not(andMask)))
  }

  function Masked(current: Word, bitMask: Word, bit: bool): Word {
    if bit then MaskWrite(current, 0xFFFF, bitMask) else MaskWrite(current, Not(bitMask), 0)
  }

  // What the bridge sends for a write command: a holding register with a mask is written under the
  // mask, anything else as a whole.
  function Command(mem: Memory, m: Mapping, value: PointValue, s: Setup): Option<Memory>
    requires ValidMapping(m)
  {
    if m.bitMask.Some? && m.registerType == Holding then
      var current := (mem.words)(Holding, m.address);
      WriteWords(mem, Holding, m.address, [Masked(current, m.bitMask.value, AsTruth(value))])
    else WritePoint(mem, m, value, s)
  }

  // A holding mapping that can be read on its own.
  predicate ReadableHolding(m: Mapping) {
    && ValidMapping(m)
    && m.registerType == Holding
    && 1 <= UnitsOf(m) <= MAX_REGISTER_BLOCK && m.address + UnitsOf(m) <= 0x1_0000
  }

  // The value is what reading gives after writing it.
  ghost predicate ReadsBack(mem: Memory, m: Mapping, written: PointValue, read: PointValue, s: Setup)
    requires ReadableHolding(m)
  {
    var after := Command(mem, m, written, s);
    after.Some? && ReadPoint(after.value, m, s) == Reply([read])
  }

  // ----- coils and inputs -----

  // A command switches a coil to the truth value of what is written, zero being false, whatever else
  // the mapping says. The coil then reads back as that, and nothing else changes.
  lemma CoilCommandExactly(mem: Memory, m: Mapping, value: PointValue, s: Setup)
    requires ValidMapping(m) && m.registerType == Coil
    ensures var truth := match value case Bool(b) => b case Integer(i) => i != 0 case Float(r) => r != 0.0;
            var after := Command(mem, m, value, s);
            && after.Some?
            && ReadPoint(after.value, m, s) == Reply([Bool(truth)])
            && after.value.words == mem.words
            && forall u, a: nat | u != Coil || a != m.address :: (after.value.bits)(u, a) == (mem.bits)(u, a)
  {
  }

  // Nothing can be written to an input.
  lemma InputsRefuseWrites(mem: Memory, m: Mapping, value: PointValue, s: Setup)
    requires ValidMapping(m) && (m.registerType == Input || m.registerType == DiscreteInput)
    ensures Command(mem, m, value, s) == None
  {
  }

  // A holding register without a mask is written as a whole exactly when all its registers are there.
  // They are then what the codec made of the value, and nothing else changes.
  lemma HoldingCommandExactly(mem: Memory, m: Mapping, value: PointValue, s: Setup)
    requires ValidMapping(m) && m.registerType == Holding && m.bitMask == None
    ensures var dt := if m.dataType.Some? then m.dataType.value else Uint16;
            var scale := if m.scale.Some? then m.scale.value else 1.0;
            var regs := EncodeRegisters(value, dt, scale, s.byteOrder, s.wordOrder, s.ieee);
            var after := Command(mem, m, value, s);
            && (after.Some? <==> m.address + |regs| <= 0x1_0000)
            && (after.Some? ==>
                  && (forall i | 0 <= i < |regs| :: (after.value.words)(Holding, m.address + i) == regs[i])
                  && (forall u, a: nat | u != Holding || !(m.address <= a < m.address + |regs|) ::
                        (after.value.words)(u, a) == (mem.words)(u, a))
                  && after.value.bits == mem.bits)
  {
    hide EncodeRegisters;
  }

  // ----- whole registers -----

  // A decoder looks at no more registers than its data type occupies.
  lemma DecodeIgnoresRest(regs: seq<Word>, rest: seq<Word>, dt: DataType, scale: real, byteOrder: Endian, wordOrder: Endian, f: Ieee)
    requires |regs| == NaturalCount(dt) && scale != 0.0
    ensures DecodeRegisters(regs + rest, dt, scale, byteOrder, wordOrder, f) == DecodeRegisters(regs, dt, scale, byteOrder, wordOrder, f)
  {
    hide Unscaled, SwapBytes;
    var some, all := InByteOrder(regs, byteOrder), InByteOrder(regs + rest, byteOrder);
    assert forall i | 0 <= i < |regs| :: all[i] == some[i];
    assert First(all) == First(some);
  }

  // What a holding-register write reads back as, when at least the written registers are read.
  lemma WriteThenRead(mem: Memory, m: Mapping, value: PointValue, s: Setup)
    requires ReadableHolding(m) && m.bitOffset == None && m.bitMask == None && NaturalCount(DataTypeOf(m)) <= UnitsOf(m)
    ensures var regs := EncodeRegisters(value, DataTypeOf(m), ScaleOf(m), s.byteOrder, s.wordOrder, s.ieee);
            ReadsBack(mem, m, value, DecodeRegisters(regs, DataTypeOf(m), ScaleOf(m), s.byteOrder, s.wordOrder, s.ieee), s)
  {
    hide DecodeRegisters, EncodeRegisters;
    var regs := EncodeRegisters(value, DataTypeOf(m), ScaleOf(m), s.byteOrder, s.wordOrder, s.ieee);
    var read := ReadWords(WritePoint(mem, m, value, s).value, Holding, m.address, UnitsOf(m)).data;
    assert read == regs + read[|regs|..];
    DecodeIgnoresRest(regs, read[|regs|..], DataTypeOf(m), ScaleOf(m), s.byteOrder, s.wordOrder, s.ieee);
  }

  // At scale one, write then read is the identity on every in-range integer exactly when the mapping
  // takes out no bits and reads at least as many registers as its data type writes.
  lemma WriteThenReadExactly(mem: Memory, m: Mapping, s: Setup)
    requires ReadableHolding(m) && IsIntegerType(DataTypeOf(m)) && ScaleOf(m) == 1.0
    ensures (forall i | MinOf(DataTypeOf(m)) <= i <= MaxOf(DataTypeOf(m)) :: ReadsBack(mem, m, Integer(i), Float(i as real), s))
            <==> m.bitOffset == None && m.bitMask == None && NaturalCount(DataTypeOf(m)) <= UnitsOf(m)
  {
    hide DecodeRegisters, EncodeRegisters, ReadsBack;
    var dt := DataTypeOf(m);
    if m.bitOffset.Some? || m.bitMask.Some? {
      BitsAreTruthValues(mem, m, s);
    } else if NaturalCount(dt) <= UnitsOf(m) {
      forall i | MinOf(dt) <= i <= MaxOf(dt) ensures ReadsBack(mem, m, Integer(i), Float(i as real), s) {
        WriteThenRead(mem, m, Integer(i), s);
        IntegersRoundTrip(i, dt, s.byteOrder, s.wordOrder, s.ieee);
      }
    } else {
      ShortReadLosesHalf(mem, m, s);
    }
  }

  // A mapping that takes out bits never reads as a number.
  lemma BitsAreTruthValues(mem: Memory, m: Mapping, s: Setup)
    requires ReadableHolding(m) && (m.bitOffset.Some? || m.bitMask.Some?)
    ensures !ReadsBack(mem, m, Integer(0), Float(0.0), s)
  {
    hide DecodeRegisters, EncodeRegisters, Masked;
  }

  // One register of two: 65537 is written as two registers holding one each, and reads back as one.
  lemma ShortReadLosesHalf(mem: Memory, m: Mapping, s: Setup)
    requires ReadableHolding(m) && m.bitOffset == None && m.bitMask == None
    requires IsIntegerType(DataTypeOf(m)) && ScaleOf(m) == 1.0
    requires UnitsOf(m) < NaturalCount(DataTypeOf(m))
    ensures !ReadsBack(mem, m, Integer(0x1_0001), Float(0x1_0001 as real), s)
  {
  }

  // ----- one bit of a whole register -----

  // The first register of an encoded truth value: one, moved by the byte order, if it comes first.
  lemma TruthWord(b: bool, dt: DataType, scale: real, byteOrder: Endian, wordOrder: Endian, f: Ieee)
    requires dt == Boolean || (IsIntegerType(dt) && scale == 1.0)
    requires scale != 0.0
    ensures First(EncodeRegisters(Bool(b), dt, scale, byteOrder, wordOrder, f))
         == if b && (NaturalCount(dt) == 1 || wordOrder == LittleEndian) then (if byteOrder == LittleEndian then 256 else 1) else 0
  {
  }

  lemma {:induction false} BitOfPow2(j: nat, k: nat)
    ensures BitAt(Pow2(j), k) <==> k == j
  {
    if j > 0 && k > 0 {
      BitOfPow2(j - 1, k - 1);
    } else if k > 0 {
      NoBitOfZero(k - 1);
    }
  }

  lemma BitsOfTruthWords(k: nat)
    ensures !BitAt(0, k) && (BitAt(1, k) <==> k == 0) && (BitAt(256, k) <==> k == 8)
  {
    NoBitOfZero(k);
    BitOfPow2(0, k);
    BitOfPow2(8, k);
    assert Pow2(8) == 16 * Pow2(4);
  }

  // The bit of a mapping is the one that an encoded true sets.
  predicate NamesTruthBit(m: Mapping, s: Setup) {
    && m.bitOffset == Some(if s.byteOrder == LittleEndian then 8 else 0)
    && (NaturalCount(DataTypeOf(m)) == 1 || s.wordOrder == LittleEndian)
  }

  // The device has all the registers that a write of the point takes.
  predicate Writable(m: Mapping) {
    m.address + NaturalCount(DataTypeOf(m)) <= 0x1_0000
  }

  lemma TruthThroughOffset(mem: Memory, m: Mapping, b: bool, s: Setup)
    requires ReadableHolding(m) && m.bitOffset.Some? && m.bitMask == None
    requires DataTypeOf(m) == Boolean || (IsIntegerType(DataTypeOf(m)) && ScaleOf(m) == 1.0)
    ensures ReadsBack(mem, m, Bool(b), Bool(b), s) <==> Writable(m) && (!b || NamesTruthBit(m, s))
  {
    hide EncodeRegisters, DecodeRegisters, BitAt;
    BitsOfTruthWords(m.bitOffset.value);
    TruthWord(b, DataTypeOf(m), ScaleOf(m), s.byteOrder, s.wordOrder, s.ieee);
  }

  // Truth values written to a whole register read back through a bit offset exactly when the device has
  // the registers, the offset is 0, or 8 in little-endian byte order, and the first register is the low one.
  lemma TruthThroughOffsetExactly(mem: Memory, m: Mapping, s: Setup)
    requires ReadableHolding(m) && m.bitOffset.Some? && m.bitMask == None
    requires DataTypeOf(m) == Boolean || (IsIntegerType(DataTypeOf(m)) && ScaleOf(m) == 1.0)
    ensures (forall b: bool :: ReadsBack(mem, m, Bool(b), Bool(b), s)) <==> Writable(m) && NamesTruthBit(m, s)
  {
    hide ReadsBack, NamesTruthBit;
    TruthThroughOffset(mem, m, true, s);
    TruthThroughOffset(mem, m, false, s);
  }

  // ----- masked writes -----

  lemma BitOfMasked(current: Word, bitMask: Word, bit: bool, k: nat)
    requires k < 16
    ensures BitAt(Masked(current, bitMask, bit), k) <==> BitAt(current, k) && (bit || !BitAt(bitMask, k))
  {
    hide BitAt, And, Or, Not;
    var andMask: Word, orMask: Word := if bit then 0xFFFF else Not(bitMask), if bit then bitMask else 0;
    BitOfOr(And(current, andMask), And(orMask, Not(andMask)), k);
    BitOfAnd(current, andMask, k);
    BitOfAnd(orMask, Not(andMask), k);
    BitOfNot(andMask, k);
    BitOfNot(bitMask, k);
    BitOfNot(0, k);
    NoBitOfZero(k);
    assert Not(0) == 0xFFFF by { NotZero(); }
  }

  lemma NotZero()
    ensures Not(0) == 0xFFFF
  {
  }

  // The masks for setting leave every register as it was.
  lemma SetChangesNothing(current: Word, bitMask: Word)
    ensures Masked(current, bitMask, true) == current
  {
    hide BitAt, Masked;
    forall k | 0 <= k < 16 ensures BitAt(Masked(current, bitMask, true), k) == BitAt(current, k) {
      BitOfMasked(current, bitMask, true, k);
    }
    BitsDetermineWord(Masked(current, bitMask, true), current);
  }

  // The masks for clearing clear the masked bits, and leave the others as they were.
  lemma ClearClearsOnlyMask(current: Word, bitMask: Word)
    ensures forall k | 0 <= k < 16 ::
              BitAt(Masked(current, bitMask, false), k) <==> BitAt(current, k) && !BitAt(bitMask, k)
    ensures And(Masked(current, bitMask, false), bitMask) == 0
  {
    hide BitAt, Masked, And;
    var after := Masked(current, bitMask, false);
    forall k | 0 <= k < 16
      ensures BitAt(after, k) <==> BitAt(current, k) && !BitAt(bitMask, k)
      ensures BitAt(And(after, bitMask), k) == BitAt(0, k)
    {
      BitOfMasked(current, bitMask, false, k);
      BitOfAnd(after, bitMask, k);
      NoBitOfZero(k);
    }
    BitsDetermineWord(And(after, bitMask), 0);
  }

  // A masked write changes one register at most, and no bit of the device.
  lemma MaskedWriteElsewhere(mem: Memory, m: Mapping, value: PointValue, s: Setup, t: RegisterType, a: nat)
    requires ReadableHolding(m) && m.bitMask.Some? && (t != Holding || a != m.address)
    ensures var after := Command(mem, m, value, s).value;
            (after.words)(t, a) == (mem.words)(t, a) && after.bits == mem.bits
  {
  }

  // What reading the point gives after a masked write: a bit offset goes before the mask.
  lemma ReadAfterMasked(mem: Memory, m: Mapping, value: PointValue, s: Setup)
    requires ReadableHolding(m) && m.bitMask.Some?
    ensures var after := Masked((mem.words)(Holding, m.address), m.bitMask.value, AsTruth(value));
            ReadsBack(mem, m, value,
                      Bool(if m.bitOffset.Some? then BitAt(after, m.bitOffset.value) else And(after, m.bitMask.value) != 0), s)
  {
    hide Masked, DecodeRegisters, BitAt, And;
  }

  // A truth value written under a mask reads back exactly when it clears or the masked bits were not
  // all clear before. Where the mapping has a bit offset as well, the read looks at that bit instead:
  // a set must find it set, and a clear must find it clear or under the mask.
  lemma MaskedWriteReadsBackExactly(mem: Memory, m: Mapping, bit: bool, s: Setup)
    requires ReadableHolding(m) && m.bitMask.Some?
    ensures var current, mask := (mem.words)(Holding, m.address), m.bitMask.value;
            ReadsBack(mem, m, Bool(bit), Bool(bit), s) <==>
              match m.bitOffset
              case None => !bit || And(current, mask) != 0
              case Some(k) => if bit then BitAt(current, k) else !BitAt(current, k) || BitAt(mask, k)
  {
    hide Masked, BitAt, And, ReadsBack;
    var current, mask := (mem.words)(Holding, m.address), m.bitMask.value;
    ReadAfterMasked(mem, m, Bool(bit), s);
    ReadIsUnique(mem, m, Bool(bit), s);
    if bit {
      SetChangesNothing(current, mask);
    } else {
      ClearClearsOnlyMask(current, mask);
    }
  }

  lemma ReadIsUnique(mem: Memory, m: Mapping, written: PointValue, s: Setup)
    requires ReadableHolding(m)
    ensures forall v, w | ReadsBack(mem, m, written, v, s) && ReadsBack(mem, m, written, w, s) :: v == w
  {
  }

  // Bit 3 of a register that holds 8, masked by 1: clearing the masked bit reads back as set.
  lemma OffsetOverridesMask(mem: Memory, m: Mapping, s: Setup)
    requires ReadableHolding(m) && m.bitOffset == Some(3) && m.bitMask == Some(1) && (mem.words)(Holding, m.address) == 8
    ensures ReadsBack(mem, m, Bool(false), Bool(true), s)
  {
    hide Masked;
    ReadAfterMasked(mem, m, Bool(false), s);
    ClearClearsOnlyMask(8, 1);
  }
}
