/** The register codec: numbers to registers and back, over two independent byte and word
    orders, with scaling, truncation and saturating casts. Scaled values are exact reals; the
    conversions between reals and IEEE-754 bit patterns are parameters. */
module RegisterCodec {
  import opened ModbusTypes

  const B16: int := 0x1_0000
  const B32: int := 0x1_0000_0000
  const B64: int := 0x1_0000_0000_0000_0000

  type Bits32 = x: int | 0 <= x < B32
  type Bits64 = x: int | 0 <= x < B64

  // How floating-point numbers are represented: `Float32::from_bits`, `to_bits` and so on.
  datatype Ieee = Ieee(from32: Bits32 -> real, to32: real -> Bits32, from64: Bits64 -> real, to64: real -> Bits64)

  // ----- bytes and words -----

  function SwapBytes(r: Word): Word {
    r % 256 * 256 + r / 256
  }

  function SwapAll(regs: seq<Word>): (swapped: seq<Word>)
    ensures |swapped| == |regs|
  {
    seq(|regs|, i requires 0 <= i < |regs| => SwapBytes(regs[i]))
  }

  function InByteOrder(regs: seq<Word>, byteOrder: Endian): (ordered: seq<Word>)
    ensures |ordered| == |regs|
  {
    if byteOrder.LittleEndian? then SwapAll(regs) else regs
  }

  function First(regs: seq<Word>): Word {
    if regs == [] then 0 else regs[0]
  }

  function Assemble32(regs: seq<Word>, wordOrder: Endian): Bits32 {
    if |regs| < 2 then First(regs)
    else match wordOrder
      case BigEndian => regs[0] * B16 + regs[1]
      case LittleEndian => regs[1] * B16 + regs[0]
  }

  function Assemble64(regs: seq<Word>, wordOrder: Endian): Bits64 {
    if |regs| < 4 then Assemble32(regs, wordOrder)
    else match wordOrder
      case BigEndian => ((regs[0] * B16 + regs[1]) * B16 + regs[2]) * B16 + regs[3]
      case LittleEndian => ((regs[3] * B16 + regs[2]) * B16 + regs[1]) * B16 + regs[0]
  }

  function Split32(v: Bits32, wordOrder: Endian): seq<Word> {
    var hi, lo := v / B16, v % B16;
    match wordOrder
    case BigEndian => [hi, lo]
    case LittleEndian => [lo, hi]
  }

  function Split64(v: Bits64, wordOrder: Endian): seq<Word> {
    var w3, r3 := v % B16, v / B16;
    var w2, r2 := r3 % B16, r3 / B16;
    var w1, w0 := r2 % B16, r2 / B16;
    match wordOrder
    case BigEndian => [w0, w1, w2, w3]
    case LittleEndian => [w3, w2, w1, w0]
  }

  // ----- numbers -----

  // Rust's `as` from a float to an integer type: toward zero, then into the type's range.
  function Truncate(x: real): int {
    if x >= 0.0 then x.Floor else -((-x).Floor)
  }

  function SaturatingCast(x: real, lo: int, hi: int): (n: int)
    requires lo <= hi
    ensures lo <= n <= hi
  {
    var n := Truncate(x);
    if n < lo then lo else if n > hi then hi else n
  }

  predicate IsIntegerType(dt: DataType) {
    dt.Uint16? || dt.Int16? || dt.Uint32? || dt.Int32?
  }

  function MinOf(dt: DataType): int
    requires IsIntegerType(dt)
  {
    match dt
    case Uint16 | Uint32 => 0
    case Int16 => -0x8000
    case Int32 => -0x8000_0000
  }

  function MaxOf(dt: DataType): int
    requires IsIntegerType(dt)
  {
    match dt
    case Uint16 => 0xFFFF
    case Int16 => 0x7FFF
    case Uint32 => 0xFFFF_FFFF
    case Int32 => 0x7FFF_FFFF
  }

  // Two's complement, `size` being 2 to the width.
  function Wrap(n: int, size: int): int
    requires -size <= n < size
  {
    if n < 0 then n + size else n
  }

  function Signed(bits: int, size: int): int {
    if bits < size / 2 then bits else bits - size
  }

  function AsReal(v: PointValue): real {
    match v
    case Bool(b) => if b then 1.0 else 0.0
    case Integer(i) => i as real
    case Float(r) => r
  }

  function AsTruth(v: PointValue): bool {
    match v
    case Bool(b) => b
    case Integer(i) => i != 0
    case Float(r) => r != 0.0
  }

  // ----- encode and decode -----

  function Scaled(v: real, scale: real): real { v * scale }

  function Unscaled(n: real, scale: real): real
    requires scale != 0.0
  {
    n / scale
  }

  // The raw number a register image stands for, before unscaling.
  function RawNumber(regs: seq<Word>, dt: DataType, wordOrder: Endian, f: Ieee): real
    requires dt != Boolean
  {
    match dt
    case Uint16 => First(regs) as real
    case Int16 => Signed(First(regs), B16) as real
    case Uint32 => Assemble32(regs, wordOrder) as real
    case Int32 => Signed(Assemble32(regs, wordOrder), B32) as real
    case Float32 => (f.from32)(Assemble32(regs, wordOrder))
    case Float64 => (f.from64)(Assemble64(regs, wordOrder))
  }

  function DecodeRegisters(regs: seq<Word>, dt: DataType, scale: real, byteOrder: Endian, wordOrder: Endian, f: Ieee): PointValue
    requires scale != 0.0
  {
    var regs := InByteOrder(regs, byteOrder);
    if dt == Boolean then Bool(First(regs) != 0)
    else Float(Unscaled(RawNumber(regs, dt, wordOrder, f), scale))
  }

  function RawWords(raw: real, dt: DataType, wordOrder: Endian, f: Ieee): (regs: seq<Word>)
    ensures |regs| == NaturalCount(dt)
  {
    match dt
    case Boolean => [if raw != 0.0 then 1 else 0]
    case Uint16 => [SaturatingCast(raw, 0, 0xFFFF)]
    case Int16 => [Wrap(SaturatingCast(raw, -0x8000, 0x7FFF), B16)]
    case Uint32 => Split32(SaturatingCast(raw, 0, 0xFFFF_FFFF), wordOrder)
    case Int32 => Split32(Wrap(SaturatingCast(raw, -0x8000_0000, 0x7FFF_FFFF), B32), wordOrder)
    case Float32 => Split32((f.to32)(raw), wordOrder)
    case Float64 => Split64((f.to64)(raw), wordOrder)
  }

  function EncodeRegisters(value: PointValue, dt: DataType, scale: real, byteOrder: Endian, wordOrder: Endian, f: Ieee): (regs: seq<Word>)
    ensures |regs| == NaturalCount(dt)
  {
    InByteOrder(RawWords(Scaled(AsReal(value), scale), dt, wordOrder, f), byteOrder)
  }

  // The source swaps the bytes of the freshly encoded registers in place.
  method SwapInPlace(regs: array<Word>)
    modifies regs
    ensures regs[..] == SwapAll(old(regs[..]))
  {
    for i := 0 to regs.Length
      invariant forall k | 0 <= k < i :: regs[k] == SwapBytes(old(regs[k]))
      invariant forall k | i <= k < regs.Length :: regs[k] == old(regs[k])
    {
      regs[i] := SwapBytes(regs[i]);
    }
  }

  // ----- the layers undo each other -----

  lemma SwapBytesTwice(r: Word)
    ensures SwapBytes(SwapBytes(r)) == r
  {
    var hi, lo := r / 256, r % 256;
    assert SwapBytes(r) == lo * 256 + hi;
    assert SwapBytes(r) / 256 == lo && SwapBytes(r) % 256 == hi;
  }

  lemma ByteOrderTwice(regs: seq<Word>, byteOrder: Endian)
    ensures InByteOrder(InByteOrder(regs, byteOrder), byteOrder) == regs
  {
    if byteOrder.LittleEndian? {
      forall i | 0 <= i < |regs| ensures SwapAll(SwapAll(regs))[i] == regs[i] {
        SwapBytesTwice(regs[i]);
      }
    }
  }

  lemma AssembleSplit32(v: Bits32, wordOrder: Endian)
    ensures Assemble32(Split32(v, wordOrder), wordOrder) == v
  {
  }

  lemma SplitAssemble32(regs: seq<Word>, wordOrder: Endian)
    requires |regs| == 2
    ensures Split32(Assemble32(regs, wordOrder), wordOrder) == regs
  {
  }

  lemma AssembleSplit64(v: Bits64, wordOrder: Endian)
    ensures Assemble64(Split64(v, wordOrder), wordOrder) == v
  {
  }

  lemma Digits(w: int, r: int)
    requires 0 <= w < B16
    ensures (r * B16 + w) / B16 == r && (r * B16 + w) % B16 == w
  {
  }

  lemma SplitAssemble64(regs: seq<Word>, wordOrder: Endian)
    requires |regs| == 4
    ensures Split64(Assemble64(regs, wordOrder), wordOrder) == regs
  {
    var s := if wordOrder.BigEndian? then regs else [regs[3], regs[2], regs[1], regs[0]];
    var two := s[0] * B16 + s[1];
    var three := two * B16 + s[2];
    Digits(s[1], s[0]);
    Digits(s[2], two);
    Digits(s[3], three);
  }

  // The bit pattern of either float type survives splitting, swapping and assembling.
  lemma FloatBitsSurvive(b32: Bits32, b64: Bits64, byteOrder: Endian, wordOrder: Endian)
    ensures Assemble32(InByteOrder(InByteOrder(Split32(b32, wordOrder), byteOrder), byteOrder), wordOrder) == b32
    ensures Assemble64(InByteOrder(InByteOrder(Split64(b64, wordOrder), byteOrder), byteOrder), wordOrder) == b64
  {
    ByteOrderTwice(Split32(b32, wordOrder), byteOrder);
    ByteOrderTwice(Split64(b64, wordOrder), byteOrder);
    AssembleSplit32(b32, wordOrder);
    AssembleSplit64(b64, wordOrder);
  }

  // ----- the round trips over numbers -----

  lemma TruncateIsClose(x: real)
    ensures -1.0 < x - Truncate(x) as real < 1.0
    ensures x >= 0.0 ==> 0 <= Truncate(x) && Truncate(x) as real <= x
    ensures x <= 0.0 ==> Truncate(x) <= 0 && x <= Truncate(x) as real
  {
  }

  lemma TruncateExact(n: int)
    ensures Truncate(n as real) == n
  {
  }

  lemma CastExact(n: int, lo: int, hi: int)
    requires lo <= n <= hi
    ensures SaturatingCast(n as real, lo, hi) == n
  {
    TruncateExact(n);
  }

  lemma CastInRange(x: real, lo: int, hi: int)
    requires lo as real <= x <= hi as real
    ensures SaturatingCast(x, lo, hi) == Truncate(x)
  {
  }

  lemma CastOutOfRange(x: real, lo: int, hi: int)
    requires lo <= 0 <= hi
    ensures x >= hi as real ==> SaturatingCast(x, lo, hi) == hi
    ensures x <= lo as real ==> SaturatingCast(x, lo, hi) == lo
  {
  }

  lemma ScaledUnscaled(n: real, scale: real)
    requires scale != 0.0
    ensures Scaled(Unscaled(n, scale), scale) == n
  {
  }

  lemma SignedWrap(n: int, size: int)
    requires 0 < size && size % 2 == 0 && -(size / 2) <= n < size / 2
    ensures Signed(Wrap(n, size), size) == n
  {
  }

  lemma RawNumberOfWords(raw: real, dt: DataType, wordOrder: Endian, f: Ieee)
    requires IsIntegerType(dt)
    ensures RawNumber(RawWords(raw, dt, wordOrder, f), dt, wordOrder, f) == SaturatingCast(raw, MinOf(dt), MaxOf(dt)) as real
  {
    hide Signed, Truncate;
    var n := SaturatingCast(raw, MinOf(dt), MaxOf(dt));
    match dt
    case Uint16 =>
    case Int16 => SignedWrap(n, B16);
    case Uint32 => AssembleSplit32(n, wordOrder);
    case Int32 =>
      AssembleSplit32(Wrap(n, B32), wordOrder);
      SignedWrap(n, B32);
  }

  lemma WordsOfRawNumber(regs: seq<Word>, dt: DataType, wordOrder: Endian, f: Ieee)
    requires IsIntegerType(dt) && |regs| == NaturalCount(dt)
    ensures RawWords(RawNumber(regs, dt, wordOrder, f), dt, wordOrder, f) == regs
  {
    match dt
    case Uint16 => CastExact(regs[0], 0, 0xFFFF);
    case Int16 => CastExact(Signed(regs[0], B16), -0x8000, 0x7FFF);
    case Uint32 =>
      SplitAssemble32(regs, wordOrder);
      CastExact(Assemble32(regs, wordOrder), 0, 0xFFFF_FFFF);
    case Int32 =>
      SplitAssemble32(regs, wordOrder);
      CastExact(Signed(Assemble32(regs, wordOrder), B32), -0x8000_0000, 0x7FFF_FFFF);
  }

  // What an integer-typed write reads back as: the saturated number of raw units, unscaled.
  lemma DecodeEncode(v: PointValue, dt: DataType, scale: real, byteOrder: Endian, wordOrder: Endian, f: Ieee)
    requires IsIntegerType(dt) && scale != 0.0
    ensures DecodeRegisters(EncodeRegisters(v, dt, scale, byteOrder, wordOrder, f), dt, scale, byteOrder, wordOrder, f)
         == Float(Unscaled(SaturatingCast(Scaled(AsReal(v), scale), MinOf(dt), MaxOf(dt)) as real, scale))
  {
    hide Scaled, Unscaled;
    var raw := Scaled(AsReal(v), scale);
    ByteOrderTwice(RawWords(raw, dt, wordOrder, f), byteOrder);
    RawNumberOfWords(raw, dt, wordOrder, f);
  }

  // At scale one an in-range integer reads back unchanged.
  lemma IntegersRoundTrip(i: int, dt: DataType, byteOrder: Endian, wordOrder: Endian, f: Ieee)
    requires IsIntegerType(dt) && MinOf(dt) <= i <= MaxOf(dt)
    ensures DecodeRegisters(EncodeRegisters(Integer(i), dt, 1.0, byteOrder, wordOrder, f), dt, 1.0, byteOrder, wordOrder, f)
         == Float(i as real)
  {
    hide DecodeRegisters, EncodeRegisters, SaturatingCast;
    DecodeEncode(Integer(i), dt, 1.0, byteOrder, wordOrder, f);
    CastExact(i, MinOf(dt), MaxOf(dt));
  }

  // Over exact reals, re-encoding a decoded register image restores it, at every nonzero scale.
  lemma EncodeDecode(regs: seq<Word>, dt: DataType, scale: real, byteOrder: Endian, wordOrder: Endian, f: Ieee)
    requires IsIntegerType(dt) && scale != 0.0 && |regs| == NaturalCount(dt)
    ensures EncodeRegisters(DecodeRegisters(regs, dt, scale, byteOrder, wordOrder, f), dt, scale, byteOrder, wordOrder, f) == regs
  {
    hide Scaled, Unscaled, RawNumber, RawWords;
    var ordered := InByteOrder(regs, byteOrder);
    ByteOrderTwice(regs, byteOrder);
    ScaledUnscaled(RawNumber(ordered, dt, wordOrder, f), scale);
    WordsOfRawNumber(ordered, dt, wordOrder, f);
  }

  function Abs(x: real): real {
    if x < 0.0 then -x else x
  }

  lemma ErrorOfUnscaled(v: real, n: real, scale: real)
    requires scale != 0.0 && -1.0 < Scaled(v, scale) - n < 1.0
    ensures Abs(v - Unscaled(n, scale)) < 1.0 / Abs(scale)
  {
  }

  // In range, a scaled write reads back within one raw unit.
  lemma InRangeWriteIsClose(v: PointValue, dt: DataType, scale: real, byteOrder: Endian, wordOrder: Endian, f: Ieee)
    requires IsIntegerType(dt) && scale != 0.0
    requires MinOf(dt) as real <= Scaled(AsReal(v), scale) <= MaxOf(dt) as real
    ensures var read := DecodeRegisters(EncodeRegisters(v, dt, scale, byteOrder, wordOrder, f), dt, scale, byteOrder, wordOrder, f);
            read.Float? && Abs(AsReal(v) - read.r) < 1.0 / Abs(scale)
  {
    hide DecodeRegisters, EncodeRegisters, Scaled, Unscaled;
    var raw := Scaled(AsReal(v), scale);
    DecodeEncode(v, dt, scale, byteOrder, wordOrder, f);
    CastInRange(raw, MinOf(dt), MaxOf(dt));
    TruncateIsClose(raw);
    ErrorOfUnscaled(AsReal(v), Truncate(raw) as real, scale);
  }

  // Out of range, it reads back as the type's limit divided by the scale.
  lemma OutOfRangeWriteIsClamped(v: PointValue, dt: DataType, scale: real, byteOrder: Endian, wordOrder: Endian, f: Ieee)
    requires IsIntegerType(dt) && scale != 0.0
    ensures var read := DecodeRegisters(EncodeRegisters(v, dt, scale, byteOrder, wordOrder, f), dt, scale, byteOrder, wordOrder, f);
            && (Scaled(AsReal(v), scale) >= MaxOf(dt) as real ==> read == Float(Unscaled(MaxOf(dt) as real, scale)))
            && (Scaled(AsReal(v), scale) <= MinOf(dt) as real ==> read == Float(Unscaled(MinOf(dt) as real, scale)))
  {
    hide DecodeRegisters, EncodeRegisters, Scaled, Unscaled;
    DecodeEncode(v, dt, scale, byteOrder, wordOrder, f);
    CastOutOfRange(Scaled(AsReal(v), scale), MinOf(dt), MaxOf(dt));
  }

  // A truth value survives in a Boolean register, whatever the scale.
  lemma BooleansRoundTrip(b: bool, scale: real, byteOrder: Endian, wordOrder: Endian, f: Ieee)
    requires scale != 0.0
    ensures DecodeRegisters(EncodeRegisters(Bool(b), Boolean, scale, byteOrder, wordOrder, f), Boolean, scale, byteOrder, wordOrder, f) == Bool(b)
  {
    ByteOrderTwice(RawWords(Scaled(AsReal(Bool(b)), scale), Boolean, wordOrder, f), byteOrder);
  }

  // ----- what a register image means, positionally -----

  // The two bytes of a register, the more significant one first in the given order.
  ghost function RegisterValue(r: Word, byteOrder: Endian): Word {
    var high, low := r / 256, r % 256;
    match byteOrder
    case BigEndian => 256 * high + low
    case LittleEndian => 256 * low + high
  }

  // The registers as digits of base 65536, the most significant one first or last.
  ghost function ImageValue(regs: seq<Word>, byteOrder: Endian, wordOrder: Endian): (n: nat)
    requires |regs| <= 4
    ensures |regs| == 0 ==> n == 0
    ensures |regs| <= 1 ==> n < B16
    ensures |regs| <= 2 ==> n < B32
    ensures |regs| <= 3 ==> n < B16 * B32
    ensures n < B64
    decreases |regs|
  {
    if regs == [] then 0
    else
      match wordOrder
      case BigEndian => B16 * ImageValue(regs[..|regs| - 1], byteOrder, wordOrder) + RegisterValue(regs[|regs| - 1], byteOrder)
      case LittleEndian => B16 * ImageValue(regs[1..], byteOrder, wordOrder) + RegisterValue(regs[0], byteOrder)
  }

  // How many registers of an image a decoder looks at; a short image is read as a narrower one.
  ghost function Used(dt: DataType, n: nat): nat {
    if n >= 4 && dt == Float64 then 4
    else if n >= 2 && dt in {Uint32, Int32, Float32, Float64} then 2
    else if n >= 1 then 1
    else 0
  }

  lemma SwapIsLittleEndian(r: Word)
    ensures SwapBytes(r) == RegisterValue(r, LittleEndian) && r == RegisterValue(r, BigEndian)
  {
  }

  lemma OrderedRegister(regs: seq<Word>, byteOrder: Endian, i: nat)
    requires i < |regs|
    ensures InByteOrder(regs, byteOrder)[i] == RegisterValue(regs[i], byteOrder)
  {
    SwapIsLittleEndian(regs[i]);
  }

  lemma ImageOfOne(regs: seq<Word>, byteOrder: Endian, wordOrder: Endian)
    requires |regs| == 1
    ensures ImageValue(regs, byteOrder, wordOrder) == RegisterValue(regs[0], byteOrder)
  {
    assert regs[..0] == [] && regs[1..] == [];
  }

  lemma ImageOfTwo(regs: seq<Word>, byteOrder: Endian, wordOrder: Endian)
    requires |regs| == 2
    ensures ImageValue(regs, byteOrder, wordOrder)
         == match wordOrder
            case BigEndian => B16 * RegisterValue(regs[0], byteOrder) + RegisterValue(regs[1], byteOrder)
            case LittleEndian => B16 * RegisterValue(regs[1], byteOrder) + RegisterValue(regs[0], byteOrder)
  {
    hide RegisterValue;
    ImageOfOne(regs[..1], byteOrder, wordOrder);
    ImageOfOne(regs[1..], byteOrder, wordOrder);
  }

  lemma ImageOfFour(regs: seq<Word>, byteOrder: Endian, wordOrder: Endian)
    requires |regs| == 4
    ensures ImageValue(regs, byteOrder, wordOrder)
         == match wordOrder
            case BigEndian => B16 * (B16 * ImageValue(regs[..2], byteOrder, wordOrder) + RegisterValue(regs[2], byteOrder))
                              + RegisterValue(regs[3], byteOrder)
            case LittleEndian => B16 * (B16 * ImageValue(regs[2..], byteOrder, wordOrder) + RegisterValue(regs[1], byteOrder))
                                 + RegisterValue(regs[0], byteOrder)
  {
    hide RegisterValue;
    assert regs[..3][..2] == regs[..2] && regs[1..][1..] == regs[2..];
  }

  lemma AssembledIsImage(regs: seq<Word>, byteOrder: Endian, wordOrder: Endian)
    ensures |regs| >= 1 ==> First(InByteOrder(regs, byteOrder)) == ImageValue(regs[..1], byteOrder, wordOrder)
    ensures |regs| >= 2 ==> Assemble32(InByteOrder(regs, byteOrder), wordOrder) == ImageValue(regs[..2], byteOrder, wordOrder)
    ensures |regs| >= 4 ==> Assemble64(InByteOrder(regs, byteOrder), wordOrder) == ImageValue(regs[..4], byteOrder, wordOrder)
  {
    hide RegisterValue, ImageValue, InByteOrder;
    forall i | 0 <= i < |regs| ensures InByteOrder(regs, byteOrder)[i] == RegisterValue(regs[i], byteOrder) {
      OrderedRegister(regs, byteOrder, i);
    }
    if |regs| >= 1 {
      ImageOfOne(regs[..1], byteOrder, wordOrder);
    }
    if |regs| >= 2 {
      ImageOfTwo(regs[..2], byteOrder, wordOrder);
    }
    if |regs| >= 4 {
      ImageOfFour(regs[..4], byteOrder, wordOrder);
      assert regs[..4][..2] == regs[..2];
      ImageOfTwo(regs[2..4], byteOrder, wordOrder);
      assert regs[..4][2..] == regs[2..4];
    }
  }

  // Decoding reads a register image of any length as a number in the orders of the device, takes the
  // number as a truth value, an unsigned or two's complement integer or the bits of a float, and
  // divides by the scale.
  lemma DecodedImage(regs: seq<Word>, dt: DataType, scale: real, byteOrder: Endian, wordOrder: Endian, f: Ieee)
    requires scale != 0.0
    ensures var n := ImageValue(regs[..Used(dt, |regs|)], byteOrder, wordOrder);
            DecodeRegisters(regs, dt, scale, byteOrder, wordOrder, f)
            == match dt
               case Boolean => Bool(n != 0)
               case Uint16 | Uint32 => Float(n as real / scale)
               case Int16 => Float((if n < 0x8000 then n else n - 0x1_0000) as real / scale)
               case Int32 => Float((if n < 0x8000_0000 then n else n - 0x1_0000_0000) as real / scale)
               case Float32 => Float((f.from32)(n) / scale)
               case Float64 => Float((f.from64)(n) / scale)
  {
    hide ImageValue, InByteOrder;
    AssembledIsImage(regs, byteOrder, wordOrder);
    assert |regs| == 0 ==> ImageValue(regs[..0], byteOrder, wordOrder) == 0;
  }

  // A number brought into a range and cut off toward zero.
  ghost predicate IsSaturated(n: int, x: real, lo: int, hi: int) {
    && lo <= n <= hi
    && (x <= lo as real ==> n == lo)
    && (x >= hi as real ==> n == hi)
    && (lo as real <= x <= hi as real && x >= 0.0 ==> n as real <= x < (n + 1) as real)
    && (lo as real <= x <= hi as real && x <= 0.0 ==> (n - 1) as real < x <= n as real)
  }

  lemma CastSaturates(x: real, lo: int, hi: int)
    requires lo <= 0 <= hi
    ensures IsSaturated(SaturatingCast(x, lo, hi), x, lo, hi)
  {
    TruncateIsClose(x);
    CastOutOfRange(x, lo, hi);
  }

  lemma AssembledIsWhole(regs: seq<Word>, byteOrder: Endian, wordOrder: Endian)
    requires |regs| in {1, 2, 4}
    ensures ImageValue(InByteOrder(regs, byteOrder), byteOrder, wordOrder)
         == if |regs| == 1 then First(regs) else if |regs| == 2 then Assemble32(regs, wordOrder) else Assemble64(regs, wordOrder)
  {
    hide ImageValue, InByteOrder, Assemble32, Assemble64;
    var ordered := InByteOrder(regs, byteOrder);
    ByteOrderTwice(regs, byteOrder);
    AssembledIsImage(ordered, byteOrder, wordOrder);
    assert ordered[..|regs|] == ordered;
  }

  lemma SignedOfWrap(n: int, size: int)
    requires 0 < size && size % 2 == 0 && -(size / 2) <= n < size / 2
    ensures var w := Wrap(n, size); 0 <= w < size && (if w < size / 2 then w else w - size) == n
  {
  }

  lemma ImageOfWords(x: real, dt: DataType, byteOrder: Endian, wordOrder: Endian, f: Ieee)
    ensures var n := ImageValue(InByteOrder(RawWords(x, dt, wordOrder, f), byteOrder), byteOrder, wordOrder);
            match dt
            case Boolean => n == if x != 0.0 then 1 else 0
            case Uint16 => n == SaturatingCast(x, 0, 0xFFFF)
            case Uint32 => n == SaturatingCast(x, 0, 0xFFFF_FFFF)
            case Int16 => n == Wrap(SaturatingCast(x, -0x8000, 0x7FFF), B16)
            case Int32 => n == Wrap(SaturatingCast(x, -0x8000_0000, 0x7FFF_FFFF), B32)
            case Float32 => n == (f.to32)(x)
            case Float64 => n == (f.to64)(x)
  {
    hide ImageValue, InByteOrder, SaturatingCast, Split32, Split64, Assemble32, Assemble64, Wrap;
    AssembledIsWhole(RawWords(x, dt, wordOrder, f), byteOrder, wordOrder);
    match dt
    case Boolean | Uint16 | Int16 =>
    case Uint32 => AssembleSplit32(SaturatingCast(x, 0, 0xFFFF_FFFF), wordOrder);
    case Int32 =>
      SignedOfWrap(SaturatingCast(x, -0x8000_0000, 0x7FFF_FFFF), B32);
      AssembleSplit32(Wrap(SaturatingCast(x, -0x8000_0000, 0x7FFF_FFFF), B32), wordOrder);
    case Float32 => AssembleSplit32((f.to32)(x), wordOrder);
    case Float64 => AssembleSplit64((f.to64)(x), wordOrder);
  }

  // Encoding multiplies by the scale and prints the result into registers in the orders of the device:
  // saturated and cut off for an integer type, in two's complement where it is negative.
  lemma EncodedImage(value: PointValue, dt: DataType, scale: real, byteOrder: Endian, wordOrder: Endian, f: Ieee)
    ensures var x := (match value case Bool(b) => if b then 1.0 else 0.0 case Integer(i) => i as real case Float(r) => r) * scale;
            var n := ImageValue(EncodeRegisters(value, dt, scale, byteOrder, wordOrder, f), byteOrder, wordOrder);
            match dt
            case Boolean => n == if x != 0.0 then 1 else 0
            case Uint16 => IsSaturated(n, x, 0, 0xFFFF)
            case Uint32 => IsSaturated(n, x, 0, 0xFFFF_FFFF)
            case Int16 => IsSaturated(if n < 0x8000 then n else n - 0x1_0000, x, -0x8000, 0x7FFF)
            case Int32 => IsSaturated(if n < 0x8000_0000 then n else n - 0x1_0000_0000, x, -0x8000_0000, 0x7FFF_FFFF)
            case Float32 => n == (f.to32)(x)
            case Float64 => n == (f.to64)(x)
  {
    hide ImageValue, InByteOrder, IsSaturated, SaturatingCast, RawWords, Wrap;
    var x := Scaled(AsReal(value), scale);
    ImageOfWords(x, dt, byteOrder, wordOrder, f);
    match dt
    case Boolean | Float32 | Float64 =>
    case Uint16 => CastSaturates(x, 0, 0xFFFF);
    case Uint32 => CastSaturates(x, 0, 0xFFFF_FFFF);
    case Int16 =>
      CastSaturates(x, -0x8000, 0x7FFF);
      SignedOfWrap(SaturatingCast(x, -0x8000, 0x7FFF), B16);
    case Int32 =>
      CastSaturates(x, -0x8000_0000, 0x7FFF_FFFF);
      SignedOfWrap(SaturatingCast(x, -0x8000_0000, 0x7FFF_FFFF), B32);
  }

  lemma FloatReadBack(v: real, x: real, dt: DataType, scale: real, byteOrder: Endian, wordOrder: Endian, f: Ieee)
    requires (dt == Float32 || dt == Float64) && scale != 0.0 && x == Scaled(v, scale)
    ensures DecodeRegisters(EncodeRegisters(Float(v), dt, scale, byteOrder, wordOrder, f), dt, scale, byteOrder, wordOrder, f)
         == Float(Unscaled(if dt == Float32 then (f.from32)((f.to32)(x)) else (f.from64)((f.to64)(x)), scale))
  {
    hide Scaled, Unscaled, InByteOrder, Split32, Split64, Assemble32, Assemble64;
    ByteOrderTwice(RawWords(x, dt, wordOrder, f), byteOrder);
    AssembleSplit32((f.to32)(x), wordOrder);
    AssembleSplit64((f.to64)(x), wordOrder);
  }

  // The float types keep a number exactly when its representation does.
  lemma FloatsRoundTrip(v: real, dt: DataType, scale: real, byteOrder: Endian, wordOrder: Endian, f: Ieee)
    requires (dt == Float32 || dt == Float64) && scale != 0.0
    ensures DecodeRegisters(EncodeRegisters(Float(v), dt, scale, byteOrder, wordOrder, f), dt, scale, byteOrder, wordOrder, f) == Float(v)
            <==> (if dt == Float32 then (f.from32)((f.to32)(v * scale)) else (f.from64)((f.to64)(v * scale))) == v * scale
  {
    hide DecodeRegisters, EncodeRegisters;
    var x := Scaled(v, scale);
    FloatReadBack(v, x, dt, scale, byteOrder, wordOrder, f);
    QuotientExactly(if dt == Float32 then (f.from32)((f.to32)(x)) else (f.from64)((f.to64)(x)), v, scale);
  }

  lemma QuotientExactly(x: real, v: real, scale: real)
    requires scale != 0.0
    ensures x / scale == v <==> x == v * scale
  {
  }

  // A float image that its representation keeps is encoded again as it was.
  lemma FloatImagesRoundTrip(regs: seq<Word>, dt: DataType, scale: real, byteOrder: Endian, wordOrder: Endian, f: Ieee)
    requires (dt == Float32 || dt == Float64) && scale != 0.0 && |regs| == NaturalCount(dt)
    requires var n := ImageValue(regs, byteOrder, wordOrder);
             if dt == Float32 then (f.to32)((f.from32)(n)) == n else (f.to64)((f.from64)(n)) == n
    ensures EncodeRegisters(DecodeRegisters(regs, dt, scale, byteOrder, wordOrder, f), dt, scale, byteOrder, wordOrder, f) == regs
  {
    hide ImageValue, Split32, Split64, Assemble32, Assemble64, Scaled, Unscaled;
    var ordered := InByteOrder(regs, byteOrder);
    ByteOrderTwice(regs, byteOrder);
    AssembledIsImage(regs, byteOrder, wordOrder);
    assert regs[..|regs|] == regs;
    ScaledUnscaled(RawNumber(ordered, dt, wordOrder, f), scale);
    if dt == Float32 {
      SplitAssemble32(ordered, wordOrder);
    } else {
      SplitAssemble64(ordered, wordOrder);
    }
  }
}
