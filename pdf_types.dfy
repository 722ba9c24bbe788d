/** The object model shared by the whole core: fixed-width integers, the
    failure-compatible Option and Result, the library's error values, and the
    tagged union of document objects with its typed accessors. */
module PdfTypes {

  type byte = b: int | 0 <= b < 0x100
  type u16 = x: int | 0 <= x < 0x1_0000
  type u32 = x: int | 0 <= x < 0x1_0000_0000
  type i64 = x: int | -0x8000_0000_0000_0000 <= x < 0x8000_0000_0000_0000

  const U16_MODULUS: nat := 0x1_0000
  const U32_MODULUS: nat := 0x1_0000_0000
  const U32_MAX: u32 := 0xFFFF_FFFF

  /** Rust's `as u32` on a signed integer: keep the low 32 bits. */
  function AsU32(x: int): (r: u32)
    ensures 0 <= x < U32_MODULUS ==> r == x
  {
    x % U32_MODULUS
  }

  /** Rust's `as u16` on a `u32`: keep the low 16 bits. */
  function AsU16(x: u32): (r: u16)
    ensures x < U16_MODULUS ==> r == x
  {
    x % U16_MODULUS
  }

  datatype Option<+T> = None | Some(value: T) {
    predicate IsFailure() { None? }
    function PropagateFailure<U>(): Option<U> requires None? { None }
    function Extract(): T requires Some? { value }
  }

  /** The library's error values, one constructor per kind the core raises.
      `External` stands for whatever a collaborator outside this model reports. */
  datatype Error =
    | DictKey(key: seq<byte>)
    | ObjectType(expected: string)
    | InvalidXref
    | InvalidContentStream
    | UnexpectedEof
    | NumericCast
    | InvalidOffset(offset: int)
    | InvalidObjectStream
    | PageNumberNotFound(page: u32)
    | ObjectNotFound(id: ObjectId)
    | Syntax(message: string)
    | External(reason: string)

  datatype Result<+T> = Ok(value: T) | Err(error: Error) {
    predicate IsFailure() { Err? }
    function PropagateFailure<U>(): Result<U> requires Err? { Err(error) }
    function Extract(): T requires Ok? { value }
  }

  /** An indirect object's identity: object number and generation. */
  datatype ObjectId = ObjectId(number: u32, generation: u16)

  datatype StringFormat = Literal | Hexadecimal

  /** The tagged union of document objects. Reals are kept as opaque numbers. */
  datatype Object =
    | Null
    | Boolean(flag: bool)
    | Integer(value: i64)
    | Real(number: real)
    | String(bytes: seq<byte>, format: StringFormat)
    | Name(name: seq<byte>)
    | Array(items: seq<Object>)
    | Dictionary(dict: map<seq<byte>, Object>)
    | Stream(stream: StreamObject)
    | Reference(id: ObjectId)

  type Dict = map<seq<byte>, Object>

  /** A stream: its dictionary and its (possibly still encoded) content. */
  datatype StreamObject = StreamObject(dict: map<seq<byte>, Object>, content: seq<byte>)

  /** Byte string of an ASCII literal, as Rust's `b"..."`. */
  function Ascii(s: string): (r: seq<byte>)
    requires forall i :: 0 <= i < |s| ==> s[i] < 128 as char
    ensures |r| == |s| && forall i :: 0 <= i < |s| ==> r[i] == s[i] as int
  {
    seq(|s|, i requires 0 <= i < |s| => s[i] as int)
  }

  /** `Dictionary::get`: a missing key is an error naming the key. */
  function Get(d: Dict, key: seq<byte>): (r: Result<Object>)
    ensures r.Ok? <==> key in d
    ensures r.Ok? ==> r.value == d[key]
  {
    if key in d then Ok(d[key]) else Err(DictKey(key))
  }

  /** `Object::as_i64`: only an Integer has an integer value. */
  function AsI64(o: Object): (r: Result<i64>)
    ensures r.Ok? <==> o.Integer?
    ensures r.Ok? ==> r.value == o.value
  {
    if o.Integer? then Ok(o.value) else Err(ObjectType("Integer"))
  }

  /** `Object::as_name`: only a Name has a name. */
  function AsName(o: Object): (r: Result<seq<byte>>)
    ensures r.Ok? <==> o.Name?
    ensures r.Ok? ==> r.value == o.name
  {
    if o.Name? then Ok(o.name) else Err(ObjectType("Name"))
  }

  /** `dict.get(key).and_then(Object::as_i64)`. */
  function GetI64(d: Dict, key: seq<byte>): (r: Result<i64>)
    ensures r.Ok? <==> key in d && d[key].Integer?
    ensures r.Ok? ==> r.value == d[key].value
    ensures key !in d ==> r == Err(DictKey(key))
  {
    var o :- Get(d, key);
    AsI64(o)
  }
}
