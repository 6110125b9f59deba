/** Reading a group of points from a device and decoding their values (modbus/reader.go). */
module ModbusReader {
  import opened Wrappers
  import opened ModbusConfig
  import opened ModbusGroup

  type Byte = x: int | 0 <= x < 256

  /** A published value; floating-point values stay the words they were decoded from. */
  datatype Value = BitValue(bit: bool) | IntValue(i: int) | Float32Value(word: int) | Float64Value(word: int)

  datatype ReadError = DeviceFailed | WrongLength | OutsideBlock | UnsupportedEncoding

  // ---------------------------------------------------------------- byte and word order

  /** The other byte of the same word. */
  function Partner(i: nat): nat {
    if i % 2 == 0 then i + 1 else i - 1
  }

  /** The same byte of the mirrored word. */
  function Mirror(n: nat, i: nat): int {
    if i % 2 == 0 then n - 2 - i else n - i
  }

  /** Where the byte at position i comes from. */
  function Origin(n: nat, byteOrder: ByteOrder, wordOrder: ByteOrder, i: nat): (j: nat)
    requires n % 2 == 0 && i < n
    ensures j < n
  {
    var j := if wordOrder == Little then Mirror(n, i) else i;
    if byteOrder == Little then Partner(j) else j
  }

  function Reordered(raw: seq<Byte>, byteOrder: ByteOrder, wordOrder: ByteOrder): (r: seq<Byte>)
    requires |raw| % 2 == 0
    ensures |r| == |raw|
  {
    seq(|raw|, i requires 0 <= i < |raw| => raw[Origin(|raw|, byteOrder, wordOrder, i)])
  }

  /** Reordering twice gives the bytes back, for every length and every pair of orders. */
  lemma ReorderIsInvolution(raw: seq<Byte>, byteOrder: ByteOrder, wordOrder: ByteOrder)
    requires |raw| % 2 == 0
    ensures Reordered(Reordered(raw, byteOrder, wordOrder), byteOrder, wordOrder) == raw
  {
    var n := |raw|;
    forall i | 0 <= i < n ensures Origin(n, byteOrder, wordOrder, Origin(n, byteOrder, wordOrder, i)) == i {
      OriginIsInvolution(n, byteOrder, wordOrder, i);
    }
  }

  lemma OriginIsInvolution(n: nat, byteOrder: ByteOrder, wordOrder: ByteOrder, i: nat)
    requires n % 2 == 0 && i < n
    ensures Origin(n, byteOrder, wordOrder, Origin(n, byteOrder, wordOrder, i)) == i
  {
  }

  /** Little bytes and little words together are plain byte reversal. */
  lemma LittleLittleIsReversal(raw: seq<Byte>, i: nat)
    requires |raw| % 2 == 0 && i < |raw|
    ensures Reordered(raw, Little, Little)[i] == raw[|raw| - 1 - i]
  {
  }

  function BytesSwapped(raw: seq<Byte>): (r: seq<Byte>)
    requires |raw| % 2 == 0
    ensures |r| == |raw|
  {
    seq(|raw|, i requires 0 <= i < |raw| => raw[Partner(i)])
  }

  function WordsSwapped(raw: seq<Byte>): (r: seq<Byte>)
    requires |raw| % 2 == 0
    ensures |r| == |raw|
  {
    seq(|raw|, i requires 0 <= i < |raw| => raw[Mirror(|raw|, i)])
  }

  /** Reordering is the byte swap followed by the word swap. */
  lemma ReorderedInSteps(raw: seq<Byte>, byteOrder: ByteOrder, wordOrder: ByteOrder)
    requires |raw| % 2 == 0
    ensures var swapped := if byteOrder == Little then BytesSwapped(raw) else raw;
      Reordered(raw, byteOrder, wordOrder) == if wordOrder == Little && |raw| > 2 then WordsSwapped(swapped) else swapped
  {
    var n := |raw|;
    var swapped := if byteOrder == Little then BytesSwapped(raw) else raw;
    var steps := if wordOrder == Little && n > 2 then WordsSwapped(swapped) else swapped;
    forall i | 0 <= i < n ensures Reordered(raw, byteOrder, wordOrder)[i] == steps[i] {
      assert n == 2 ==> Mirror(n, i) == i;
    }
  }

  /** Swaps the two bytes of every word in place. */
  method SwapBytes(bytes: array<Byte>)
    requires bytes.Length % 2 == 0
    modifies bytes
    ensures bytes[..] == BytesSwapped(old(bytes[..]))
  {
    var index := 0;
    while index < bytes.Length
      invariant 0 <= index <= bytes.Length && index % 2 == 0
      invariant forall i | 0 <= i < index :: bytes[i] == old(bytes[..])[Partner(i)]
      invariant forall i | index <= i < bytes.Length :: bytes[i] == old(bytes[..])[i]
    {
      bytes[index], bytes[index + 1] := bytes[index + 1], bytes[index];
      index := index + 2;
    }
  }

  /** The outermost bytes are swapped already, the inner ones are not. */
  function OuterSwapped(raw: seq<Byte>, outer: nat): (r: seq<Byte>)
    requires |raw| % 2 == 0
    ensures |r| == |raw|
  {
    seq(|raw|, i requires 0 <= i < |raw| => if i < outer || |raw| - outer <= i then raw[Mirror(|raw|, i)] else raw[i])
  }

  lemma SwapOuter(raw: seq<Byte>, left: nat, right: nat, next: seq<Byte>)
    requires |raw| % 2 == 0 && left % 2 == 0 && left < right && left + right == |raw| - 2
    requires var r := OuterSwapped(raw, left);
      next == r[left := r[right]][right := r[left]][left + 1 := r[right + 1]][right + 1 := r[left + 1]]
    ensures next == OuterSwapped(raw, left + 2)
  {
  }

  lemma SwapDone(raw: seq<Byte>, left: nat, right: int)
    requires |raw| % 2 == 0 && left % 2 == 0 && right <= left <= right + 2 && left + right == |raw| - 2
    ensures OuterSwapped(raw, left) == WordsSwapped(raw)
  {
    var n := |raw|;
    if left == right {
      assert Mirror(n, left) == left && Mirror(n, left + 1) == left + 1;
      assert n - left == left + 2;
    } else if left == right + 2 {
      assert n - left == left;
    }
  }

  /** Swaps the words from both ends in place. */
  method SwapWords(bytes: array<Byte>)
    requires bytes.Length % 2 == 0 && bytes.Length > 2
    modifies bytes
    ensures bytes[..] == WordsSwapped(old(bytes[..]))
  {
    ghost var was := bytes[..];
    var left, right := 0, bytes.Length - 2;
    assert bytes[..] == OuterSwapped(was, 0);
    while left < right
      invariant left % 2 == 0 && 0 <= left <= right + 2 && left + right == bytes.Length - 2
      invariant bytes[..] == OuterSwapped(was, left)
    {
      ghost var r := bytes[..];
      bytes[left], bytes[right] := bytes[right], bytes[left];
      bytes[left + 1], bytes[right + 1] := bytes[right + 1], bytes[left + 1];
      assert bytes[..] == r[left := r[right]][right := r[left]][left + 1 := r[right + 1]][right + 1 := r[left + 1]];
      SwapOuter(was, left, right, bytes[..]);
      left := left + 2;
      right := right - 2;
    }
    SwapDone(was, left, right);
  }

  /** The code's form: a copy, bytes swapped within words, then words swapped from both ends. */
  method Reorder(raw: array<Byte>, byteOrder: ByteOrder, wordOrder: ByteOrder) returns (ordered: array<Byte>)
    requires raw.Length % 2 == 0
    ensures fresh(ordered) && ordered[..] == Reordered(raw[..], byteOrder, wordOrder)
  {
    ordered := new Byte[raw.Length](i requires 0 <= i < raw.Length reads raw => raw[i]);
    assert ordered[..] == raw[..];
    if byteOrder == Little {
      SwapBytes(ordered);
    }
    if wordOrder == Little && ordered.Length > 2 {
      SwapWords(ordered);
    }
    ReorderedInSteps(raw[..], byteOrder, wordOrder);
  }

  // ---------------------------------------------------------------- values

  /** Big-endian unsigned value. */
  function Unsigned(bytes: seq<Byte>): nat {
    if bytes == [] then 0 else 256 * Unsigned(bytes[..|bytes| - 1]) + bytes[|bytes| - 1]
  }

  function Power256(n: nat): nat {
    if n == 0 then 1 else 256 * Power256(n - 1)
  }

  /** Two's complement over n bytes. */
  function Signed(u: nat, n: nat): int {
    if 2 * u >= Power256(n) then u - Power256(n) else u
  }

  function Interpret(ordered: seq<Byte>, encoding: Encoding): Result<Value, ReadError> {
    match encoding
    case Int16 => Ok(IntValue(Signed(Unsigned(ordered), 2)))
    case Uint16 => Ok(IntValue(Unsigned(ordered)))
    case Int32 => Ok(IntValue(Signed(Unsigned(ordered), 4)))
    case Uint32 => Ok(IntValue(Unsigned(ordered)))
    case Float32 => Ok(Float32Value(Unsigned(ordered)))
    case Float64 => Ok(Float64Value(Unsigned(ordered)))
    case Bool => Err(ReadError.UnsupportedEncoding)
  }

  function DecodeRegisters(raw: seq<Byte>, point: Point): Result<Value, ReadError> {
    if |raw| != 2 * RegisterCount(point.encoding) then Err(WrongLength)
    else Interpret(Reordered(raw, point.byteOrder, point.wordOrder), point.encoding)
  }

  /** The decoder as the code runs it, on its own reordered copy. */
  method Decode(raw: array<Byte>, point: Point) returns (r: Result<Value, ReadError>)
    ensures r == DecodeRegisters(raw[..], point)
  {
    if raw.Length != 2 * RegisterCount(point.encoding) {
      return Err(WrongLength);
    }
    var ordered := Reorder(raw, point.byteOrder, point.wordOrder);
    r := Interpret(ordered[..], point.encoding);
  }

  // ---------------------------------------------------------------- decoding inverts encoding

  function Bytes(u: nat, n: nat): (b: seq<Byte>)
    ensures |b| == n
  {
    if n == 0 then [] else Bytes(u / 256, n - 1) + [u % 256]
  }

  lemma {:induction false} UnsignedOfBytes(u: nat, n: nat)
    requires u < Power256(n)
    ensures Unsigned(Bytes(u, n)) == u
  {
    if n > 0 {
      assert u / 256 < Power256(n - 1);
      UnsignedOfBytes(u / 256, n - 1);
      var b := Bytes(u, n);
      assert b[..n - 1] == Bytes(u / 256, n - 1);
    }
  }

  /** The value ranges of the encodings. */
  predicate InRange(encoding: Encoding, value: Value) {
    match encoding
    case Int16 => value.IntValue? && -0x8000 <= value.i < 0x8000
    case Uint16 => value.IntValue? && 0 <= value.i < 0x1_0000
    case Int32 => value.IntValue? && -0x8000_0000 <= value.i < 0x8000_0000
    case Uint32 => value.IntValue? && 0 <= value.i < 0x1_0000_0000
    case Float32 => value.Float32Value? && 0 <= value.word < 0x1_0000_0000
    case Float64 => value.Float64Value? && 0 <= value.word < 0x1_0000_0000_0000_0000
    case Bool => false
  }

  /** The unsigned word of a value over n bytes. */
  function Word(value: Value, n: nat): int {
    match value
    case IntValue(i) => if i < 0 then i + Power256(n) else i
    case Float32Value(word) => word
    case Float64Value(word) => word
    case BitValue(_) => 0
  }

  /** The registers of an encoding hold every value of its range. */
  lemma WordFits(value: Value, encoding: Encoding)
    requires InRange(encoding, value)
    ensures 0 <= Word(value, 2 * RegisterCount(encoding)) < Power256(2 * RegisterCount(encoding))
  {
    PowerValues();
  }

  /** And no fewer registers would do: some value of the range fills all of them. */
  lemma RangeFillsRegisters(encoding: Encoding) returns (value: Value)
    requires encoding != Bool
    ensures InRange(encoding, value)
    ensures Word(value, 2 * RegisterCount(encoding)) == Power256(2 * RegisterCount(encoding)) - 1
  {
    PowerValues();
    var last := Power256(2 * RegisterCount(encoding)) - 1;
    value := match encoding
      case Float32 => Float32Value(last)
      case Float64 => Float64Value(last)
      case Uint16 => IntValue(last)
      case Uint32 => IntValue(last)
      case _ => IntValue(-1);
  }

  /** How a device stores a value in its registers. */
  function Stored(value: Value, point: Point): seq<Byte>
    requires InRange(point.encoding, value)
  {
    var n := 2 * RegisterCount(point.encoding);
    WordFits(value, point.encoding);
    Reordered(Bytes(Word(value, n), n), point.byteOrder, point.wordOrder)
  }

  lemma PowerValues()
    ensures Power256(2) == 0x1_0000 && Power256(4) == 0x1_0000_0000 && Power256(8) == 0x1_0000_0000_0000_0000
  {
    assert Power256(3) == 0x100_0000;
    assert Power256(5) == 0x100_0000_0000;
    assert Power256(6) == 0x1_0000_0000_0000;
    assert Power256(7) == 0x100_0000_0000_0000;
  }

  lemma WordIsInterpreted(value: Value, encoding: Encoding, ordered: seq<Byte>)
    requires InRange(encoding, value) && Unsigned(ordered) == Word(value, 2 * RegisterCount(encoding))
    ensures Interpret(ordered, encoding) == Ok(value)
  {
    PowerValues();
  }

  /** Decoding gives back every stored value, over the full range of every encoding and all orders. */
  lemma DecodingInvertsStoring(value: Value, point: Point)
    requires InRange(point.encoding, value)
    ensures DecodeRegisters(Stored(value, point), point) == Ok(value)
  {
    var n := 2 * RegisterCount(point.encoding);
    WordFits(value, point.encoding);
    var bytes := Bytes(Word(value, n), n);
    UnsignedOfBytes(Word(value, n), n);
    ReorderIsInvolution(bytes, point.byteOrder, point.wordOrder);
    WordIsInterpreted(value, point.encoding, bytes);
  }

  // ---------------------------------------------------------------- what the orders mean

  function Pair(high: Byte, low: Byte): nat {
    256 * high + low
  }

  /** The number in register k. */
  function RegisterAt(raw: seq<Byte>, byteOrder: ByteOrder, k: nat): nat
    requires 2 * k + 1 < |raw|
  {
    match byteOrder
    case Big => Pair(raw[2 * k], raw[2 * k + 1])
    case Little => Pair(raw[2 * k + 1], raw[2 * k])
  }

  /** The number the first n registers make up: in big word order each weighs less than the one before, in little more. */
  function Composed(raw: seq<Byte>, byteOrder: ByteOrder, wordOrder: ByteOrder, n: nat): nat
    requires 2 * n <= |raw|
  {
    if n == 0 then 0
    else
      match wordOrder
      case Big => 0x1_0000 * Composed(raw, byteOrder, wordOrder, n - 1) + RegisterAt(raw, byteOrder, n - 1)
      case Little => Composed(raw, byteOrder, wordOrder, n - 1) + Power256(2 * (n - 1)) * RegisterAt(raw, byteOrder, n - 1)
  }

  lemma UnsignedTwo(bytes: seq<Byte>)
    requires |bytes| >= 2
    ensures Unsigned(bytes) == 0x1_0000 * Unsigned(bytes[..|bytes| - 2]) + Pair(bytes[|bytes| - 2], bytes[|bytes| - 1])
  {
    assert bytes[..|bytes| - 1][..|bytes| - 2] == bytes[..|bytes| - 2];
  }

  lemma Rearrange(a: int, b: int, c: int)
    ensures a * (b * c) == b * (a * c)
  {
  }

  lemma {:induction false} UnsignedSplits(a: seq<Byte>, b: seq<Byte>)
    ensures Unsigned(a + b) == Unsigned(a) * Power256(|b|) + Unsigned(b)
  {
    if b == [] {
      assert a + b == a;
    } else {
      var n := |b| - 1;
      assert (a + b)[..|a + b| - 1] == a + b[..n];
      UnsignedSplits(a, b[..n]);
      Rearrange(256, Unsigned(a), Power256(n));
    }
  }

  lemma LeadingWord(bytes: seq<Byte>)
    requires |bytes| >= 2
    ensures Unsigned(bytes) == Power256(|bytes| - 2) * Pair(bytes[0], bytes[1]) + Unsigned(bytes[2..])
  {
    var word := bytes[..2];
    assert bytes == word + bytes[2..];
    UnsignedSplits(word, bytes[2..]);
    UnsignedTwo(word);
    assert word[..0] == [];
    Rearrange(Pair(bytes[0], bytes[1]), Power256(|bytes| - 2), 1);
  }

  /** The ordered bytes hold the registers from the first on. */
  ghost predicate Forwards(raw: seq<Byte>, byteOrder: ByteOrder, ordered: seq<Byte>) {
    && |ordered| == |raw|
    && forall k | 0 <= k && 2 * k + 1 < |raw| :: Pair(ordered[2 * k], ordered[2 * k + 1]) == RegisterAt(raw, byteOrder, k)
  }

  /** The ordered bytes hold the registers from the last on. */
  ghost predicate Backwards(raw: seq<Byte>, byteOrder: ByteOrder, ordered: seq<Byte>) {
    && |ordered| == |raw|
    && forall k | 0 <= k && 2 * k + 1 < |raw| ::
         Pair(ordered[|raw| - 2 * k - 2], ordered[|raw| - 2 * k - 1]) == RegisterAt(raw, byteOrder, k)
  }

  lemma BigWordIsRegister(raw: seq<Byte>, byteOrder: ByteOrder, k: nat)
    requires |raw| % 2 == 0 && 2 * k + 1 < |raw|
    ensures var ordered := Reordered(raw, byteOrder, Big); Pair(ordered[2 * k], ordered[2 * k + 1]) == RegisterAt(raw, byteOrder, k)
  {
    assert 2 * k % 2 == 0 && (2 * k + 1) % 2 == 1;
  }

  lemma LittleWordIsRegister(raw: seq<Byte>, byteOrder: ByteOrder, k: nat)
    requires |raw| % 2 == 0 && 2 * k + 1 < |raw|
    ensures var ordered, i := Reordered(raw, byteOrder, Little), |raw| - 2 * k - 2;
      Pair(ordered[i], ordered[i + 1]) == RegisterAt(raw, byteOrder, k)
  {
    var i := |raw| - 2 * k - 2;
    assert i % 2 == 0 && (i + 1) % 2 == 1;
    assert Mirror(|raw|, i) == 2 * k && Mirror(|raw|, i + 1) == 2 * k + 1;
  }

  lemma OrdersRegisters(raw: seq<Byte>, byteOrder: ByteOrder)
    requires |raw| % 2 == 0
    ensures Forwards(raw, byteOrder, Reordered(raw, byteOrder, Big)) && Backwards(raw, byteOrder, Reordered(raw, byteOrder, Little))
  {
    var big, little := Reordered(raw, byteOrder, Big), Reordered(raw, byteOrder, Little);
    forall k | 0 <= k && 2 * k + 1 < |raw|
      ensures Pair(big[2 * k], big[2 * k + 1]) == RegisterAt(raw, byteOrder, k)
      ensures Pair(little[|raw| - 2 * k - 2], little[|raw| - 2 * k - 1]) == RegisterAt(raw, byteOrder, k)
    {
      BigWordIsRegister(raw, byteOrder, k);
      LittleWordIsRegister(raw, byteOrder, k);
    }
  }

  lemma {:induction false} BigWordsCompose(raw: seq<Byte>, byteOrder: ByteOrder, ordered: seq<Byte>, n: nat)
    requires Forwards(raw, byteOrder, ordered) && 2 * n <= |raw|
    ensures Unsigned(ordered[..2 * n]) == Composed(raw, byteOrder, Big, n)
  {
    if n > 0 {
      BigWordsCompose(raw, byteOrder, ordered, n - 1);
      UnsignedTwo(ordered[..2 * n]);
      assert ordered[..2 * n][..2 * n - 2] == ordered[..2 * (n - 1)];
      assert Pair(ordered[2 * (n - 1)], ordered[2 * (n - 1) + 1]) == RegisterAt(raw, byteOrder, n - 1);
    }
  }

  lemma {:induction false} LittleWordsCompose(raw: seq<Byte>, byteOrder: ByteOrder, ordered: seq<Byte>, n: nat)
    requires Backwards(raw, byteOrder, ordered) && 2 * n <= |raw|
    ensures Unsigned(ordered[|raw| - 2 * n..]) == Composed(raw, byteOrder, Little, n)
  {
    if n > 0 {
      LittleWordsCompose(raw, byteOrder, ordered, n - 1);
      var i := |raw| - 2 * n;
      LeadingWord(ordered[i..]);
      assert ordered[i..][2..] == ordered[|raw| - 2 * (n - 1)..];
      assert Pair(ordered[i], ordered[i + 1]) == RegisterAt(raw, byteOrder, n - 1);
    }
  }

  /** Reordering and reading big-endian is what the two orders mean: registers of two bytes that make up one number. */
  lemma ReorderedIsComposed(raw: seq<Byte>, byteOrder: ByteOrder, wordOrder: ByteOrder)
    requires |raw| % 2 == 0
    ensures Unsigned(Reordered(raw, byteOrder, wordOrder)) == Composed(raw, byteOrder, wordOrder, |raw| / 2)
  {
    var ordered := Reordered(raw, byteOrder, wordOrder);
    OrdersRegisters(raw, byteOrder);
    if wordOrder == Big {
      BigWordsCompose(raw, byteOrder, ordered, |raw| / 2);
      assert ordered[..|raw|] == ordered;
    } else {
      LittleWordsCompose(raw, byteOrder, ordered, |raw| / 2);
      assert ordered[0..] == ordered;
    }
  }

  /** A decoded value has the type its encoding declares. */
  lemma DecodedTypeIsDeclared(raw: seq<Byte>, point: Point)
    requires DecodeRegisters(raw, point).Ok?
    ensures ValueTypeName(point.encoding) == if DecodeRegisters(raw, point).value.IntValue? then "int64" else "float64"
  {
  }

  // ---------------------------------------------------------------- devices and groups

  /** A device's answers to the three requests, or nothing when it fails. */
  datatype Device = Device(
    coils: (Word16, Word16) -> Option<seq<bool>>,
    discreteInputs: (Word16, Word16) -> Option<seq<bool>>,
    rawBytes: (Word16, Word16, bool) -> Option<seq<Byte>>)

  /** uint16 arithmetic wraps. */
  function Wrap16(x: int): Word16 {
    x % 0x1_0000
  }

  function BitOfBlock(g: PollGroup, bits: seq<bool>, p: PollPoint): Result<Value, ReadError> {
    var index := Wrap16(p.point.address - g.address);
    if index >= |bits| then Err(OutsideBlock) else Ok(BitValue(bits[index]))
  }

  function ValueOfBlock(g: PollGroup, raw: seq<Byte>, p: PollPoint): Result<Value, ReadError> {
    var offset := 2 * Wrap16(p.point.address - g.address);
    var count := 2 * RegisterCount(p.point.encoding);
    if offset + count > |raw| then Err(OutsideBlock) else DecodeRegisters(raw[offset..offset + count], p.point)
  }

  function Collect(results: seq<Result<Value, ReadError>>): Result<seq<Value>, ReadError> {
    if results == [] then Ok([])
    else
      match Collect(results[..|results| - 1])
      case Err(e) => Err(e)
      case Ok(values) =>
        match results[|results| - 1]
        case Err(e) => Err(e)
        case Ok(value) => Ok(values + [value])
  }

  function Bits(g: PollGroup, bits: seq<bool>): seq<Result<Value, ReadError>> {
    seq(|g.points|, i requires 0 <= i < |g.points| => BitOfBlock(g, bits, g.points[i]))
  }

  function Words(g: PollGroup, raw: seq<Byte>): seq<Result<Value, ReadError>> {
    seq(|g.points|, i requires 0 <= i < |g.points| => ValueOfBlock(g, raw, g.points[i]))
  }

  function DecodedBits(g: PollGroup, answer: Option<seq<bool>>): Result<seq<Value>, ReadError> {
    match answer
    case None => Err(DeviceFailed)
    case Some(bits) => if |bits| != g.quantity then Err(WrongLength) else Collect(Bits(g, bits))
  }

  function GroupValues(device: Device, g: PollGroup): Result<seq<Value>, ReadError> {
    match g.register
    case Coil => DecodedBits(g, device.coils(g.address, g.quantity))
    case DiscreteInput => DecodedBits(g, device.discreteInputs(g.address, g.quantity))
    case _ =>
      match device.rawBytes(g.address, Wrap16(2 * g.quantity), g.register.Input?)
      case None => Err(DeviceFailed)
      case Some(raw) => if |raw| != 2 * g.quantity then Err(WrongLength) else Collect(Words(g, raw))
  }

  lemma {:induction false} CollectFails(results: seq<Result<Value, ReadError>>, i: nat)
    requires i < |results| && Collect(results[..i]).Ok? && results[i].Err?
    ensures Collect(results) == Err(results[i].error)
    decreases |results|
  {
    if i == |results| - 1 {
      assert results[..|results| - 1] == results[..i];
    } else {
      assert results[..|results| - 1][..i] == results[..i];
      CollectFails(results[..|results| - 1], i);
    }
  }

  method DecodeBits(g: PollGroup, bits: seq<bool>) returns (r: Result<seq<Value>, ReadError>)
    ensures r == DecodedBits(g, Some(bits))
  {
    if |bits| != g.quantity {
      return Err(WrongLength);
    }
    ghost var results := Bits(g, bits);
    var values := [];
    for i := 0 to |g.points|
      invariant Collect(results[..i]) == Ok(values)
    {
      assert results[..i + 1][..i] == results[..i];
      var index := Wrap16(g.points[i].point.address - g.address);
      if index < 0 || index >= |bits| {
        CollectFails(results, i);
        return Err(OutsideBlock);
      }
      values := values + [BitValue(bits[index])];
    }
    assert results[..|g.points|] == results;
    r := Ok(values);
  }

  /** One request for a whole group, decoded point by point. */
  method ReadGroup(device: Device, g: PollGroup) returns (r: Result<seq<Value>, ReadError>)
    ensures r == GroupValues(device, g)
  {
    if g.register.HoldsBits() {
      var answer := if g.register.Coil? then device.coils(g.address, g.quantity) else device.discreteInputs(g.address, g.quantity);
      if answer.None? {
        return Err(DeviceFailed);
      }
      r := DecodeBits(g, answer.value);
      return;
    }
    var answer := device.rawBytes(g.address, Wrap16(2 * g.quantity), g.register.Input?);
    if answer.None? {
      return Err(DeviceFailed);
    }
    var raw := answer.value;
    if |raw| != 2 * g.quantity {
      return Err(WrongLength);
    }
    ghost var results := Words(g, raw);
    var values := [];
    for i := 0 to |g.points|
      invariant Collect(results[..i]) == Ok(values)
    {
      assert results[..i + 1][..i] == results[..i];
      var point := g.points[i].point;
      var offset := 2 * Wrap16(point.address - g.address);
      var count := 2 * RegisterCount(point.encoding);
      if offset < 0 || offset + count > |raw| {
        CollectFails(results, i);
        return Err(OutsideBlock);
      }
      var block := new Byte[count](k requires 0 <= k < count => raw[offset + k]);
      assert block[..] == raw[offset..offset + count];
      var value := Decode(block, point);
      if value.Err? {
        CollectFails(results, i);
        return Err(value.error);
      }
      values := values + [value.value];
    }
    assert results[..|g.points|] == results;
    r := Ok(values);
  }

  /** Reading one point alone. */
  function Alone(p: PollPoint): PollGroup {
    PollGroup(p.point.register, p.point.address, RegisterCount(p.point.encoding), [p])
  }

  // ---------------------------------------------------------------- grouped reading refines single reading

  /** The contents of a device's tables; a register is two bytes. */
  datatype Memory = Memory(bit: (Register, nat) -> bool, octet: (Register, nat) -> Byte) {
    function BitsAt(table: Register, start: nat, n: nat): seq<bool> {
      seq(n, i requires i >= 0 => bit(table, start + i))
    }

    function BytesAt(table: Register, start: nat, n: nat): seq<Byte> {
      seq<Byte>(n, i requires i >= 0 => octet(table, start + i))
    }
  }

  /** The device answers every request inside the address space with what its tables hold. */
  ghost predicate Answers(device: Device, memory: Memory) {
    && (forall a: Word16, q: Word16 | a + q <= 0x1_0000 :: device.coils(a, q) == Some(memory.BitsAt(Coil, a, q)))
    && (forall a: Word16, q: Word16 | a + q <= 0x1_0000 :: device.discreteInputs(a, q) == Some(memory.BitsAt(DiscreteInput, a, q)))
    && (forall a: Word16, n: Word16, input: bool | 2 * a + n <= 0x2_0000 ::
          device.rawBytes(a, n, input) == Some(memory.BytesAt(if input then Input else Holding, 2 * a, n)))
  }

  /** What a point's registers hold. */
  function Held(memory: Memory, p: PollPoint): Result<Value, ReadError> {
    if p.point.register.HoldsBits() then Ok(BitValue(memory.bit(p.point.register, p.point.address)))
    else DecodeRegisters(memory.BytesAt(p.point.register, 2 * p.point.address, 2 * RegisterCount(p.point.encoding)), p.point)
  }

  lemma {:induction false} CollectSucceeds(results: seq<Result<Value, ReadError>>)
    requires forall i | 0 <= i < |results| :: results[i].Ok?
    ensures Collect(results).Ok? && |Collect(results).value| == |results|
    ensures forall i | 0 <= i < |results| :: Collect(results).value[i] == results[i].value
  {
    if results != [] {
      var front := results[..|results| - 1];
      CollectSucceeds(front);
      forall i | 0 <= i < |front| ensures Collect(front).value[i] == results[i].value {
        assert front[i] == results[i];
      }
    }
  }

  lemma HeldIsOk(memory: Memory, p: PollPoint)
    requires Pollable(p.point)
    ensures Held(memory, p).Ok?
  {
  }

  lemma BitIsHeld(memory: Memory, g: PollGroup, p: PollPoint)
    requires ValidGroup(g) && g.register.HoldsBits() && p in g.points && Pollable(p.point)
    ensures BitOfBlock(g, memory.BitsAt(g.register, g.address, g.quantity), p) == Held(memory, p)
  {
  }

  lemma ValueIsHeld(memory: Memory, g: PollGroup, p: PollPoint)
    requires ValidGroup(g) && !g.register.HoldsBits() && p in g.points
    ensures ValueOfBlock(g, memory.BytesAt(g.register, 2 * g.address, 2 * g.quantity), p) == Held(memory, p)
  {
    var raw := memory.BytesAt(g.register, 2 * g.address, 2 * g.quantity);
    var offset, count := 2 * (p.point.address - g.address), 2 * RegisterCount(p.point.encoding);
    assert Wrap16(p.point.address - g.address) == p.point.address - g.address;
    assert raw[offset..offset + count] == memory.BytesAt(g.register, 2 * p.point.address, count);
  }

  /** A valid group of pollable points stays inside the address space. */
  lemma GroupsStayInRange(g: PollGroup)
    requires ValidGroup(g) && forall p <- g.points :: Pollable(p.point)
    ensures g.address + g.quantity <= 0x1_0000
  {
  }

  /** The values of a list of results that are all what the points hold. */
  lemma CollectHeld(memory: Memory, g: PollGroup, results: seq<Result<Value, ReadError>>)
    requires |results| == |g.points| && forall i | 0 <= i < |results| :: results[i] == Held(memory, g.points[i])
    requires forall p <- g.points :: Pollable(p.point)
    ensures ReadsHeld(memory, g, Collect(results))
  {
    forall i | 0 <= i < |results| ensures results[i].Ok? {
      HeldIsOk(memory, g.points[i]);
    }
    CollectSucceeds(results);
  }

  ghost predicate ReadsHeld(memory: Memory, g: PollGroup, r: Result<seq<Value>, ReadError>) {
    r.Ok? && |r.value| == |g.points| && forall i | 0 <= i < |g.points| :: Held(memory, g.points[i]) == Ok(r.value[i])
  }

  /** On an answering device a group reads exactly what its points hold, in order and without error. */
  lemma GroupReadsHeldValues(device: Device, memory: Memory, g: PollGroup)
    requires Answers(device, memory) && ValidGroup(g) && forall p <- g.points :: Pollable(p.point)
    ensures ReadsHeld(memory, g, GroupValues(device, g))
  {
    GroupsStayInRange(g);
    if g.register.HoldsBits() {
      var bits := memory.BitsAt(g.register, g.address, g.quantity);
      forall i | 0 <= i < |g.points| ensures Bits(g, bits)[i] == Held(memory, g.points[i]) {
        BitIsHeld(memory, g, g.points[i]);
      }
      CollectHeld(memory, g, Bits(g, bits));
    } else {
      var raw := memory.BytesAt(g.register, 2 * g.address, 2 * g.quantity);
      assert Wrap16(2 * g.quantity) == 2 * g.quantity;
      assert device.rawBytes(g.address, 2 * g.quantity, g.register.Input?) == Some(raw);
      forall i | 0 <= i < |g.points| ensures Words(g, raw)[i] == Held(memory, g.points[i]) {
        ValueIsHeld(memory, g, g.points[i]);
      }
      CollectHeld(memory, g, Words(g, raw));
    }
  }

  lemma AloneIsValid(p: PollPoint)
    ensures ValidGroup(Alone(p))
  {
    assert p in Alone(p).points;
  }

  lemma SameValue(memory: Memory, g: PollGroup, i: nat, r: Result<seq<Value>, ReadError>, alone: Result<seq<Value>, ReadError>)
    requires i < |g.points| && ReadsHeld(memory, g, r) && ReadsHeld(memory, Alone(g.points[i]), alone)
    ensures alone == Ok([r.value[i]])
  {
    assert Alone(g.points[i]).points[0] == g.points[i];
    assert Held(memory, Alone(g.points[i]).points[0]) == Ok(alone.value[0]);
    assert alone.value == [r.value[i]];
  }

  /** Grouped reading refines point-by-point reading: the i-th value is the i-th point's own value. */
  lemma GroupedReadingAgrees(device: Device, memory: Memory, g: PollGroup, i: nat)
    requires Answers(device, memory) && ValidGroup(g) && (forall p <- g.points :: Pollable(p.point)) && i < |g.points|
    ensures GroupValues(device, g).Ok? && |GroupValues(device, g).value| == |g.points|
    ensures GroupValues(device, Alone(g.points[i])) == Ok([GroupValues(device, g).value[i]])
  {
    GroupReadsHeldValues(device, memory, g);
    AloneIsValid(g.points[i]);
    GroupReadsHeldValues(device, memory, Alone(g.points[i]));
    SameValue(memory, g, i, GroupValues(device, g), GroupValues(device, Alone(g.points[i])));
  }
}
