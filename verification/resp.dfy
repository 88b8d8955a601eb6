/** The RESP2 wire value and its encoder (src/resp.rs).

    Text is modelled by its bytes: a Rust `String` is the sequence of its UTF-8
    bytes, so `str.len()` is the length of that sequence. */
module Resp {

  type uint8 = x: int | 0 <= x < 0x100
  type Bytes = seq<uint8>

  /** Largest value of a Rust `i64`; its smallest is `-I64_MAX - 1`. */
  const I64_MAX: int := 0x7FFF_FFFF_FFFF_FFFF

  const CR: uint8 := 13
  const LF: uint8 := 10
  const CRLF: Bytes := [CR, LF]
  const ZERO: uint8 := 48   // '0'
  const PLUS: uint8 := 43   // '+', simple string tag and positive sign
  const MINUS: uint8 := 45  // '-', error tag and negative sign
  const COLON: uint8 := 58  // ':', integer tag
  const DOLLAR: uint8 := 36 // '$', bulk string tag
  const STAR: uint8 := 42   // '*', array tag

  /** The bytes of an ASCII literal (every character used here is below 128). */
  function Ascii(s: string): (r: Bytes)
    ensures |r| == |s|
  {
    seq(|s|, i requires 0 <= i < |s| => (s[i] as int) % 0x100)
  }

  /** `RespType`: the five RESP2 kinds plus the null bulk string. */
  datatype RespType =
    | String(s: Bytes)
    | Integer(n: int)
    | Error(s: Bytes)
    | BulkString(s: Bytes)
    | Null
    | Array(items: seq<RespType>)

  datatype Option<T> = None | Some(value: T)

  predicate IsDigit(b: uint8) {
    ZERO <= b <= ZERO + 9
  }

  predicate AllDigits(s: Bytes) {
    forall i :: 0 <= i < |s| ==> IsDigit(s[i])
  }

  /** Decimal digits of a non-negative number, most significant first. */
  function DecimalDigits(n: nat): (r: Bytes)
    ensures |r| >= 1 && AllDigits(r)
    decreases n
  {
    if n < 10 then [ZERO + n] else DecimalDigits(n / 10) + [ZERO + n % 10]
  }

  /** `to_string()` of an integer: an optional '-' and the digits of its magnitude. */
  function Decimal(n: int): (r: Bytes)
    ensures |r| >= 1
    ensures forall i :: 0 <= i < |r| ==> IsDigit(r[i]) || (i == 0 && r[i] == MINUS && n < 0)
  {
    if n < 0 then [MINUS] + DecimalDigits(-n) else DecimalDigits(n)
  }

  /** The one-byte tag that starts the encoding of `v`. */
  function Tag(v: RespType): uint8 {
    match v
    case String(_) => PLUS
    case Error(_) => MINUS
    case Integer(_) => COLON
    case BulkString(_) => DOLLAR
    case Null => DOLLAR
    case Array(_) => STAR
  }

  /** `serialize`: at least a tag and a CRLF. */
  function Serialize(v: RespType): (r: Bytes)
    ensures |r| >= 3
    decreases v, 2
  {
    match v
    case String(s) => SerializeSimpleString(PLUS, s)
    case Error(s) => SerializeSimpleString(MINUS, s)
    case Integer(n) => SerializeSimpleInteger(n)
    case BulkString(s) => SerializeBulkString(s)
    case Array(xs) => SerializeArray(xs)
    case Null => [DOLLAR, MINUS, ZERO + 1, CR, LF]
  }

  /** `serialize_simple_string`: the prefix, the text, CRLF. */
  function SerializeSimpleString(prefix: uint8, s: Bytes): (r: Bytes)
    ensures |r| == |s| + 3 && r[0] == prefix
  {
    [prefix] + s + CRLF
  }

  /** `serialize_simple_integer`: ':', the decimal text, CRLF. */
  function SerializeSimpleInteger(n: int): (r: Bytes)
    ensures |r| == |Decimal(n)| + 3 && r[0] == COLON
  {
    SerializeSimpleString(COLON, Decimal(n))
  }

  /** `serialize_bulk_string`: '$', the byte count, CRLF, the bytes, CRLF. */
  function SerializeBulkString(s: Bytes): (r: Bytes)
    ensures |r| == |Decimal(|s|)| + |s| + 5 && r[0] == DOLLAR
  {
    [DOLLAR] + Decimal(|s|) + CRLF + s + CRLF
  }

  /** Where the text stands in a simple string, and the payload and its
      count in a bulk string. */
  lemma {:induction false} ScalarLayout(prefix: uint8, s: Bytes)
    ensures var r := SerializeSimpleString(prefix, s);
      r[1..|s| + 1] == s && r[|s| + 1..] == CRLF
    ensures var r := SerializeBulkString(s); var d := |Decimal(|s|)|;
      && r[1..d + 1] == Decimal(|s|) && r[d + 1..d + 3] == CRLF
      && r[d + 3..d + 3 + |s|] == s && r[d + 3 + |s|..] == CRLF
  {
  }

  function SerializeArray(xs: seq<RespType>): (r: Bytes)
    ensures |r| >= 3
    decreases xs, 1
  {
    var header := [STAR] + Decimal(|xs|) + CRLF;
    var body := SerializeAll(xs);
    header + body
  }

  /** The encodings of `xs`, concatenated in order (the `for item in arr` loop). */
  function SerializeAll(xs: seq<RespType>): (r: Bytes)
    ensures xs == [] <==> r == []
    ensures |r| >= 3 * |xs|
    decreases xs, 0
  {
    if xs == [] then []
    else
      var first := Serialize(xs[0]);
      var rest := SerializeAll(xs[1..]);
      first + rest
  }

  /** Every encoding is a frame that starts with the tag of its kind and ends
      with CRLF (an array ends with the CRLF of its header or of its last
      element). */
  lemma {:induction false} Framed(v: RespType)
    ensures var r := Serialize(v); r[0] == Tag(v) && r[|r| - 2..] == CRLF
    decreases v, 1
  {
    match v
    case Array(xs) =>
      var header := [STAR] + Decimal(|xs|) + CRLF;
      var body := SerializeAll(xs);
      assert Serialize(v) == header + body;
      if xs != [] {
        FramedAll(xs);
        assert (header + body)[|header + body| - 2..] == body[|body| - 2..];
      } else {
        assert body == [];
        assert header + body == header;
      }
    case _ =>
  }

  lemma {:induction false} FramedAll(xs: seq<RespType>)
    requires xs != []
    ensures var r := SerializeAll(xs); r[0] == Tag(xs[0]) && r[|r| - 2..] == CRLF
    decreases xs, 0
  {
    var first := Serialize(xs[0]);
    var rest := SerializeAll(xs[1..]);
    assert SerializeAll(xs) == first + rest;
    Framed(xs[0]);
    if xs[1..] != [] {
      FramedAll(xs[1..]);
      assert (first + rest)[|first + rest| - 2..] == rest[|rest| - 2..];
    } else {
      assert first + rest == first;
    }
  }
}
