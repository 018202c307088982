/** The runtime values the serializer exchanges, one constructor per Python type it knows. */
module Values {
  import opened Binary

  const TWO_64: int := 0x1_0000_0000_0000_0000

  /** A 64-bit pattern: floats and the two halves of a complex are kept as their IEEE 754 bits. */
  type U64 = x: int | 0 <= x < 0x1_0000_0000_0000_0000

  predicate IsAscii(s: string)
  {
    forall i | 0 <= i < |s| :: s[i] as int < 128
  }

  /** Text is restricted to ASCII, where UTF-8 encoding is one byte per character. */
  type AsciiString = s: string | IsAscii(s)

  /** Element types of an ndarray, written on the wire as numpy's dtype descriptor. */
  datatype DType = Int64 | Float64 | Complex128 | Bool8

  datatype Value =
    | Str(s: AsciiString)                                 // str
    | ByteStr(raw: Bytes)                                 // bytes
    | Int(i: int)                                         // int (unbounded)
    | Float(bits: U64)                                    // float
    | Complex(re: U64, im: U64)                           // complex
    | Bool(flag: bool)                                     // bool
    | NdArray(dtype: DType, shape: seq<nat>, data: seq<Value>)   // numpy.ndarray, elements in C order
    | List(items: seq<Value>)                             // list, elements of any type

  /** `type(v).__name__`: the exact runtime type, so a bool is never an int. */
  function TypeName(v: Value): (r: AsciiString)
    ensures r in {"str", "bytes", "int", "float", "complex", "bool", "ndarray", "list"}
    ensures r == "bool" <==> v.Bool?
    ensures r == "int" <==> v.Int?
  {
    match v
    case Str(_) => "str"
    case ByteStr(_) => "bytes"
    case Int(_) => "int"
    case Float(_) => "float"
    case Complex(_, _) => "complex"
    case Bool(_) => "bool"
    case NdArray(_, _, _) => "ndarray"
    case List(_) => "list"
  }

  /** The number of elements an array of this shape holds; 1 for a 0-dimensional array. */
  function Product(shape: seq<nat>): nat
  {
    if shape == [] then 1 else shape[0] * Product(shape[1..])
  }
}
