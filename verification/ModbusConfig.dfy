/** Modbus point definitions and the bounds the packer and the reader rest on (modbus/config.go). */
module ModbusConfig {
  import opened Wrappers

  /** uint16 */
  type Word16 = x: int | 0 <= x < 0x1_0000

  /** The register tables, in the order of their names. */
  datatype Register = Coil | DiscreteInput | Holding | Input {
    predicate HoldsBits() {
      Coil? || DiscreteInput?
    }
  }

  datatype Encoding = Bool | Int16 | Uint16 | Int32 | Uint32 | Float32 | Float64

  datatype ByteOrder = Big | Little

  datatype Point = Point(register: Register, address: Word16, encoding: Encoding, byteOrder: ByteOrder, wordOrder: ByteOrder)

  /** A driver configuration after decoding, its names still as written. */
  datatype AddressConfig = AddressConfig(register: string, address: Word16, encoding: string)

  datatype Descriptor = Descriptor(driver: string, valueType: string, config: Option<AddressConfig>)

  datatype PointError = WrongDriver | Undecodable | UnsupportedRegister | UnsupportedEncoding | WrongValueType | OutOfRange

  function RegisterNamed(name: string): Option<Register> {
    match name
    case "coil" => Some(Coil)
    case "discrete_input" => Some(DiscreteInput)
    case "holding" => Some(Holding)
    case "input" => Some(Input)
    case _ => None
  }

  function EncodingNamed(name: string): Option<Encoding> {
    match name
    case "bool" => Some(Bool)
    case "int16" => Some(Int16)
    case "uint16" => Some(Uint16)
    case "int32" => Some(Int32)
    case "uint32" => Some(Uint32)
    case "float32" => Some(Float32)
    case "float64" => Some(Float64)
    case _ => None
  }

  function ValueTypeName(encoding: Encoding): string {
    match encoding
    case Bool => "bool"
    case Float32 => "float64"
    case Float64 => "float64"
    case _ => "int64"
  }

  /** How many 16-bit registers hold a value. */
  function RegisterCount(encoding: Encoding): (n: nat)
    ensures 1 <= n <= 4
    ensures encoding.Bool? ==> n == 1
  {
    match encoding
    case Int32 => 2
    case Uint32 => 2
    case Float32 => 2
    case Float64 => 4
    case _ => 1
  }

  function ParsePoint(d: Descriptor, byteOrder: ByteOrder, wordOrder: ByteOrder): Result<Point, PointError> {
    if d.driver != "modbus" then Err(WrongDriver)
    else if d.config.None? then Err(Undecodable)
    else
      var config := d.config.value;
      match RegisterNamed(config.register)
      case None => Err(UnsupportedRegister)
      case Some(register) =>
        match EncodingNamed(config.encoding)
        case None => Err(UnsupportedEncoding)
        case Some(encoding) =>
          if register.HoldsBits() != (encoding == Bool) then Err(UnsupportedEncoding)
          else if d.valueType != ValueTypeName(encoding) then Err(WrongValueType)
          else if config.address + RegisterCount(encoding) > 0x1_0000 then Err(OutOfRange)
          else Ok(Point(register, config.address, encoding, byteOrder, wordOrder))
  }

  /** A point that can be polled: bits from bit tables, and entirely inside the address space. */
  predicate Pollable(p: Point) {
    && p.register.HoldsBits() == (p.encoding == Bool)
    && p.address + RegisterCount(p.encoding) <= 0x1_0000
  }

  /** Every parsed point is pollable. */
  lemma ParsedPointsArePollable(d: Descriptor, byteOrder: ByteOrder, wordOrder: ByteOrder)
    ensures var r := ParsePoint(d, byteOrder, wordOrder); r.Ok? ==> Pollable(r.value)
  {
  }

  function RegisterName(register: Register): string {
    match register
    case Coil => "coil"
    case DiscreteInput => "discrete_input"
    case Holding => "holding"
    case Input => "input"
  }

  function EncodingName(encoding: Encoding): string {
    match encoding
    case Bool => "bool"
    case Int16 => "int16"
    case Uint16 => "uint16"
    case Int32 => "int32"
    case Uint32 => "uint32"
    case Float32 => "float32"
    case Float64 => "float64"
  }

  /** The descriptor that asks for a point. */
  function Described(p: Point): Descriptor {
    Descriptor("modbus", ValueTypeName(p.encoding), Some(AddressConfig(RegisterName(p.register), p.address, EncodingName(p.encoding))))
  }

  /** A descriptor is taken as a point exactly when it is that point's, with its connection's two orders, and can be polled. */
  lemma ParsingInvertsDescribing(d: Descriptor, byteOrder: ByteOrder, wordOrder: ByteOrder, p: Point)
    ensures ParsePoint(d, byteOrder, wordOrder) == Ok(p)
      <==> Pollable(p) && d == Described(p) && p.byteOrder == byteOrder && p.wordOrder == wordOrder
  {
  }
}
