/** Byte-index to char-index tables of three element widths
    (ByteCharMapping.java and its ByteMapping, ShortMapping and IntMapping
    implementations). Each table is a fixed-size array; values are stored
    unsigned and range-checked on write. */
module ByteCharMapping {
  import opened Wrappers
  import opened Expressions
  import opened Errors

  /** The values an int mapping can hold once every write is range-checked. */
  type NonNegInt32 = x: int | 0 <= x <= INT32_MAX

  /** Java `byte` and `short`: signed two's-complement values. */
  type JByte = x: int | -0x80 <= x < 0x80
  type JShort = x: int | -0x8000 <= x < 0x8000

  /** The narrowing casts `(byte) x` and `(short) x` for an in-range unsigned `x`. */
  function ToJByte(x: int): JByte
    requires 0 <= x <= 0xFF
  {
    if x < 0x80 then x else x - 0x100
  }

  function ToJShort(x: int): JShort
    requires 0 <= x <= 0xFFFF
  {
    if x < 0x8000 then x else x - 0x10000
  }

  /** Byte.toUnsignedInt and Short.toUnsignedInt. */
  function UnsignedByte(b: JByte): int {
    if b < 0 then b + 0x100 else b
  }

  function UnsignedShort(s: JShort): int {
    if s < 0 then s + 0x10000 else s
  }

  datatype Mapping =
    | ByteMapping(cells8: seq<JByte>)
    | ShortMapping(cells16: seq<JShort>)
    | IntMapping(cells32: seq<NonNegInt32>)

  /** getMappingSize: the length of the underlying array. */
  function Size(m: Mapping): nat {
    match m
    case ByteMapping(c) => |c|
    case ShortMapping(c) => |c|
    case IntMapping(c) => |c|
  }

  /** Bytes per stored element: 1, 2 or 4. */
  function ElementWidth(m: Mapping): nat {
    match m
    case ByteMapping(_) => 1
    case ShortMapping(_) => 2
    case IntMapping(_) => 4
  }

  /** The largest char index an array of `width`-byte elements stores (unsigned,
      and never above the largest Java int). */
  function MaxStorable(width: nat): int {
    if width == 1 then 255 else if width == 2 then 65535 else INT32_MAX
  }

  /** The value an array cell holds, read back as unsigned. */
  function Cell(m: Mapping, k: nat): (v: int)
    requires k < Size(m)
    ensures 0 <= v <= MaxStorable(ElementWidth(m))
  {
    match m
    case ByteMapping(c) => UnsignedByte(c[k])
    case ShortMapping(c) => UnsignedShort(c[k])
    case IntMapping(c) => c[k]
  }

  /** ByteCharMapping.create: a negative maximum index is rejected; otherwise the
      narrowest element width able to hold `maxCharIndex` is chosen, and the array
      has `bufferSize` zeroed cells. */
  function Create(bufferSize: Int32, maxCharIndex: Int32): (r: Result<Mapping, Error>)
    ensures maxCharIndex < 0 ==> r == Failure(IllegalArgument)
    ensures 0 <= maxCharIndex && bufferSize < 0 ==> r == Failure(NegativeArraySize)
    ensures r.Success? <==> 0 <= maxCharIndex && 0 <= bufferSize
    ensures r.Success? ==> Size(r.value) == bufferSize
    ensures r.Success? ==> maxCharIndex <= MaxStorable(ElementWidth(r.value))
    ensures r.Success? ==> forall w :: w in {1, 2, 4} && w < ElementWidth(r.value) ==> MaxStorable(w) < maxCharIndex
    ensures r.Success? ==> forall k :: 0 <= k < Size(r.value) ==> Cell(r.value, k) == 0
  {
    if maxCharIndex < 0 then Failure(IllegalArgument)
    else if bufferSize < 0 then Failure(NegativeArraySize)
    else if maxCharIndex <= 255 then Success(ByteMapping(seq(bufferSize, _ => 0)))
    else if maxCharIndex <= 65535 then Success(ShortMapping(seq(bufferSize, _ => 0)))
    else Success(IntMapping(seq(bufferSize, _ => 0)))
  }

  /** setCharIndex: a char index outside what the width stores raises
      IllegalArgumentException (checked first); a byte index outside the array
      raises an index exception; otherwise exactly one cell changes. */
  function SetCharIndex(m: Mapping, byteIndex: Int32, charIndex: Int32): (r: Result<Mapping, Error>)
    ensures !(0 <= charIndex <= MaxStorable(ElementWidth(m))) ==> r == Failure(IllegalArgument)
    ensures 0 <= charIndex <= MaxStorable(ElementWidth(m)) && !(0 <= byteIndex < Size(m)) ==> r == Failure(IndexOutOfBounds)
    ensures r.Success? <==> 0 <= charIndex <= MaxStorable(ElementWidth(m)) && 0 <= byteIndex < Size(m)
    ensures r.Success? ==> Size(r.value) == Size(m) && ElementWidth(r.value) == ElementWidth(m)
    ensures r.Success? ==> GetCharIndex(r.value, byteIndex) == Success(charIndex)
    ensures r.Success? ==> forall k :: 0 <= k < Size(m) && k != byteIndex ==> Cell(r.value, k) == Cell(m, k)
  {
    match m
    case ByteMapping(c) =>
      if charIndex > 255 || charIndex < 0 then Failure(IllegalArgument)
      else if !(0 <= byteIndex < |c|) then Failure(IndexOutOfBounds)
      else Success(ByteMapping(c[byteIndex := ToJByte(charIndex)]))
    case ShortMapping(c) =>
      if charIndex > 65535 || charIndex < 0 then Failure(IllegalArgument)
      else if !(0 <= byteIndex < |c|) then Failure(IndexOutOfBounds)
      else Success(ShortMapping(c[byteIndex := ToJShort(charIndex)]))
    case IntMapping(c) =>
      if charIndex < 0 then Failure(IllegalArgument)
      else if !(0 <= byteIndex < |c|) then Failure(IndexOutOfBounds)
      else Success(IntMapping(c[byteIndex := charIndex]))
  }

  /** getCharIndex: the stored value read as unsigned; a byte index outside the
      array raises an index exception. */
  function GetCharIndex(m: Mapping, byteIndex: int): (r: Result<int, Error>)
    ensures r.Success? <==> 0 <= byteIndex < Size(m)
    ensures r.Failure? ==> r.error == IndexOutOfBounds
    ensures r.Success? ==> r.value == Cell(m, byteIndex) && 0 <= r.value <= MaxStorable(ElementWidth(m))
  {
    if 0 <= byteIndex < Size(m) then Success(Cell(m, byteIndex)) else Failure(IndexOutOfBounds)
  }
}
