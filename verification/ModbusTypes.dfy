/** The configuration and value types shared by the Modbus bridge. */
module ModbusTypes {

  import opened Options

  // A 16-bit register, an unsigned integer as it travels on the wire.
  type Word = x: int | 0 <= x < 0x1_0000

  datatype RegisterType = Holding | Input | Coil | DiscreteInput

  datatype DataType = Uint16 | Int16 | Uint32 | Int32 | Float32 | Float64 | Boolean

  datatype Endian = BigEndian | LittleEndian

  datatype PointValue = Bool(b: bool) | Integer(i: int) | Float(r: real)

  datatype Mapping = Mapping(
    registerType: RegisterType,
    address: Word,
    dataType: Option<DataType>,
    scale: Option<real>,
    registerCount: Option<Word>,
    bitOffset: Option<nat>,
    bitMask: Option<Word>)

  datatype PointConfig = PointConfig(pointId: string, mapping: Mapping)

  const MAX_REGISTER_BLOCK: nat := 125
  const MAX_BIT_BLOCK: nat := 2000
  const MAX_BLOCK_GAP: nat := 10

  predicate IsBit(t: RegisterType) {
    t.Coil? || t.DiscreteInput?
  }

  function MaxBlock(t: RegisterType): nat {
    if IsBit(t) then MAX_BIT_BLOCK else MAX_REGISTER_BLOCK
  }

  // The most units one request may ask for (MODBUS Application Protocol V1.1b3, sections 6.1 to 6.4).
  ghost function RequestLimit(t: RegisterType): nat {
    match t
    case Coil | DiscreteInput => 2000
    case Holding | Input => 125
  }

  function DefaultDataType(t: RegisterType): DataType {
    if IsBit(t) then Boolean else Uint16
  }

  // Registers a data type occupies when the mapping does not say.
  function NaturalCount(dt: DataType): Word {
    match dt
    case Boolean | Uint16 | Int16 => 1
    case Uint32 | Int32 | Float32 => 2
    case Float64 => 4
  }

  function RegisterCount(dt: DataType, explicit: Option<Word>): Word {
    explicit.GetOr(NaturalCount(dt))
  }

  function DataTypeOf(m: Mapping): DataType {
    m.dataType.GetOr(DefaultDataType(m.registerType))
  }

  // What the planner reserves for a point: one bit, or its registers.
  function UnitsOf(m: Mapping): Word {
    if IsBit(m.registerType) then 1 else RegisterCount(DataTypeOf(m), m.registerCount)
  }

  // The 16-bit sum `address + count` the planner computes stays in range.
  predicate Addressable(points: seq<PointConfig>) {
    forall p <- points :: p.mapping.address + UnitsOf(p.mapping) < 0x1_0000
  }

  // Every point can be read on its own in one request.
  ghost predicate Readable(points: seq<PointConfig>) {
    && Addressable(points)
    && forall p <- points :: 1 <= UnitsOf(p.mapping) <= RequestLimit(p.mapping.registerType)
  }
}
