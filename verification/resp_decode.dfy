/** The RESP2 decoder (src/resp.rs:26-171).

    The source reads from a `Read` stream; here the stream is the finite byte
    sequence `input` and a cursor `pos`, and every decoder returns either a
    failure or the decoded value with the cursor just past it. The functions
    `Parse*` state, production by production, what the decoder computes; the
    methods `Deserialize*` are the source's loops, each proved to return exactly
    the value of its function. */
module RespDecode {
  import opened Resp

  /** Why a decode attempt fails. The first three are the `Err` values of the
      source's `?` operator; the last three are panics (`unimplemented!()`, an
      underflowing `len() - 2`, `String::truncate` off a char boundary). */
  datatype DecodeError =
    | UnexpectedEof          // `read_exact` ran out of input
    | InvalidInteger         // `str::parse::<i64>` rejected the number field
    | NegativeCount          // `try_into` of a negative array count
    | UnsupportedType(tag: uint8)
    | LengthUnderflow        // a simple string shorter than its CRLF
    | NotCharBoundary

  datatype Result<T> = Ok(value: T) | Err(error: DecodeError)

  // ---------------------------------------------------------------------------
  // Byte-to-char widening

  /** The UTF-8 bytes of the char `b as char` (U+0000 to U+00FF). */
  function CharUtf8(b: uint8): (r: Bytes)
    ensures b < 0x80 ==> r == [b]
    ensures b >= 0x80 ==> |r| == 2 && 0xC2 <= r[0] <= 0xC3 && 0x80 <= r[1] < 0xC0
    ensures b >= 0x80 ==> (r[0] - 0xC0) * 64 + (r[1] - 0x80) == b
  {
    if b < 0x80 then [b]
    else if b < 0xC0 then [0xC2, b]   // U+0080..U+00BF
    else [0xC3, b - 0x40]             // U+00C0..U+00FF
  }

  /** The bytes of the `String` built by pushing `b as char` for each byte of `s`. */
  function Latin1ToUtf8(s: Bytes): (r: Bytes)
    ensures |s| <= |r| <= 2 * |s|
  {
    if s == [] then [] else Latin1ToUtf8(s[..|s| - 1]) + CharUtf8(s[|s| - 1])
  }

  /** `String::truncate(k)` keeps the string only when `k` falls on a char boundary. */
  predicate OnCharBoundary(w: Bytes, k: nat)
    requires k <= |w|
  {
    k == |w| || !(0x80 <= w[k] < 0xC0)
  }

  // ---------------------------------------------------------------------------
  // Number fields

  /** Index of the first CR at or after `pos`, or `|input|` when there is none. */
  function CrIndex(input: Bytes, pos: nat): (i: nat)
    requires pos <= |input|
    ensures pos <= i <= |input|
    ensures forall j :: pos <= j < i ==> input[j] != CR
    ensures i < |input| ==> input[i] == CR
    decreases |input| - pos
  {
    if pos == |input| || input[pos] == CR then pos else CrIndex(input, pos + 1)
  }

  /** The bytes of a number field other than its sign bytes (`str_integer`). */
  function Unsigned(s: Bytes): Bytes {
    if s == [] then []
    else
      var b := s[|s| - 1];
      if b == PLUS || b == MINUS then Unsigned(s[..|s| - 1]) else Unsigned(s[..|s| - 1]) + [b]
  }

  /** The sign of a number field: the last '+' or '-' in it wins, '+' by default. */
  function SignPositive(s: Bytes): bool {
    if s == [] then true
    else
      var b := s[|s| - 1];
      if b == PLUS then true else if b == MINUS then false else SignPositive(s[..|s| - 1])
  }

  /** The value of a string of decimal digits. */
  function DigitsValue(ds: Bytes): nat
    requires AllDigits(ds)
  {
    if ds == [] then 0 else DigitsValue(ds[..|ds| - 1]) * 10 + (ds[|ds| - 1] - ZERO)
  }

  /** `str::parse::<i64>` of an unsigned body: non-empty, digits only, no overflow. */
  function ParseMagnitude(body: Bytes): (r: Option<nat>)
    ensures r.Some? ==> r.value <= I64_MAX
    ensures r.Some? ==> body != [] && AllDigits(body) && r.value == DigitsValue(body)
  {
    if body == [] || !AllDigits(body) then None
    else if DigitsValue(body) > I64_MAX then None
    else Some(DigitsValue(body))
  }

  /** `deserialize_number`: the field runs to the first CR (or to the end of
      the input); the byte after the CR is consumed without being looked at. */
  function ParseNumber(input: Bytes, pos: nat): (r: Result<(int, nat)>)
    requires pos <= |input|
    ensures r.Ok? ==> pos < r.value.1 <= |input| && -I64_MAX <= r.value.0 <= I64_MAX
  {
    var cr := CrIndex(input, pos);
    var field := input[pos..cr];
    if cr + 1 == |input| then Err(UnexpectedEof)
    else
      var next := if cr < |input| then cr + 2 else |input|;
      match ParseMagnitude(Unsigned(field))
      case None => Err(InvalidInteger)
      case Some(m) =>
        assert |Unsigned(field)| <= |field| by { UnsignedShorter(field); }
        var n: int := if SignPositive(field) then m else -(m as int);
        Ok((n, next))
  }

  /** Widening one more byte appends that byte's encoding. */
  lemma {:induction false} WidenStep(input: Bytes, p: nat, k: nat)
    requires p <= k < |input|
    ensures Latin1ToUtf8(input[p..k + 1]) == Latin1ToUtf8(input[p..k]) + CharUtf8(input[k])
  {
    var w := input[p..k + 1];
    assert w[..|w| - 1] == input[p..k];
  }

  /** Reading one more byte of a number field. */
  lemma {:induction false} FieldStep(input: Bytes, p: nat, k: nat)
    requires p <= k < |input|
    ensures var b := input[k];
      && Unsigned(input[p..k + 1]) == (if b == PLUS || b == MINUS then Unsigned(input[p..k]) else Unsigned(input[p..k]) + [b])
      && SignPositive(input[p..k + 1]) == (if b == PLUS then true else if b == MINUS then false else SignPositive(input[p..k]))
  {
    var w := input[p..k + 1];
    assert w[..|w| - 1] == input[p..k];
  }

  lemma {:induction false} UnsignedShorter(s: Bytes)
    ensures |Unsigned(s)| <= |s|
  {
    if s != [] { UnsignedShorter(s[..|s| - 1]); }
  }

  /** The first CR at or after `pos` is the one at `i` (or there is none when `i == |input|`). */
  lemma {:induction false} CrIndexAt(input: Bytes, pos: nat, i: nat)
    requires pos <= i <= |input|
    requires forall j :: pos <= j < i ==> input[j] != CR
    requires i < |input| ==> input[i] == CR
    ensures CrIndex(input, pos) == i
  {
  }

  // ---------------------------------------------------------------------------
  // The grammar, one function per production

  /** `deserialize_simple_string`: everything up to the end of the input, less
      its last two bytes. */
  function ParseSimple(input: Bytes, pos: nat): (r: Result<(Bytes, nat)>)
    requires pos <= |input|
    ensures r.Ok? ==> pos < r.value.1 == |input|
  {
    var w := Latin1ToUtf8(input[pos..]);
    if |w| < 2 then Err(LengthUnderflow)
    else if !OnCharBoundary(w, |w| - 2) then Err(NotCharBoundary)
    else Ok((w[..|w| - 2], |input|))
  }

  function ParseString(input: Bytes, pos: nat): (r: Result<(RespType, nat)>)
    requires pos <= |input|
    ensures r.Ok? ==> r.value.0.String? && pos < r.value.1 <= |input|
  {
    match ParseSimple(input, pos)
    case Err(e) => Err(e)
    case Ok((s, q)) => Ok((String(s), q))
  }

  function ParseError(input: Bytes, pos: nat): (r: Result<(RespType, nat)>)
    requires pos <= |input|
    ensures r.Ok? ==> r.value.0.Error? && pos < r.value.1 <= |input|
  {
    match ParseSimple(input, pos)
    case Err(e) => Err(e)
    case Ok((s, q)) => Ok((Error(s), q))
  }

  function ParseInteger(input: Bytes, pos: nat): (r: Result<(RespType, nat)>)
    requires pos <= |input|
    ensures r.Ok? ==> r.value.0.Integer? && pos < r.value.1 <= |input|
  {
    match ParseNumber(input, pos)
    case Err(e) => Err(e)
    case Ok((n, q)) => Ok((Integer(n), q))
  }

  /** `deserialize_bulk_string`: a negative size is `Null`; otherwise exactly
      `size` payload bytes and then two bytes that are skipped unchecked. */
  function ParseBulk(input: Bytes, pos: nat): (r: Result<(RespType, nat)>)
    requires pos <= |input|
    ensures r.Ok? ==> (r.value.0.Null? || r.value.0.BulkString?) && pos < r.value.1 <= |input|
  {
    match ParseNumber(input, pos)
    case Err(e) => Err(e)
    case Ok((size, p)) =>
      if size < 0 then Ok((Null, p))
      else
        match BulkPayload(input, p, size)
        case Err(e) => Err(e)
        case Ok((s, q)) => Ok((BulkString(s), q))
  }

  /** The `size` payload bytes at `p`, widened, and the cursor past the two
      bytes that follow them; the input must hold all `size + 2` of them. */
  function BulkPayload(input: Bytes, p: nat, size: nat): (r: Result<(Bytes, nat)>)
    requires p <= |input|
    ensures r.Ok? ==> r.value.1 == p + size + 2 <= |input|
  {
    if p + size + 2 > |input| then Err(UnexpectedEof)
    else Ok((Latin1ToUtf8(input[p..p + size]), p + size + 2))
  }

  /** Appends a decoded tail to the elements decoded so far. */
  function Prepend(items: seq<RespType>, r: Result<(seq<RespType>, nat)>): Result<(seq<RespType>, nat)> {
    match r
    case Err(e) => Err(e)
    case Ok((xs, q)) => Ok((items + xs, q))
  }

  lemma {:induction false} PrependJoin(a: seq<RespType>, b: seq<RespType>, r: Result<(seq<RespType>, nat)>)
    ensures Prepend([], r) == r
    ensures Prepend(a, Prepend(b, r)) == Prepend(a + b, r)
  {
    match r
    case Err(_) =>
    case Ok((xs, q)) =>
      assert [] + xs == xs;
      assert a + (b + xs) == (a + b) + xs;
  }

  /** `deserialize_array`: a non-negative count, then that many values in order. */
  function ParseArray(input: Bytes, pos: nat): (r: Result<(RespType, nat)>)
    requires pos <= |input|
    ensures r.Ok? ==> r.value.0.Array? && pos < r.value.1 <= |input|
    decreases |input| - pos, 0, 0
  {
    match ParseNumber(input, pos)
    case Err(e) => Err(e)
    case Ok((size, p)) =>
      if size < 0 then Err(NegativeCount)
      else
        match ParseElements(input, p, size)
        case Err(e) => Err(e)
        case Ok((xs, q)) => Ok((Array(xs), q))
  }

  /** `count` consecutive values starting at `pos`; the first failure is the result. */
  function ParseElements(input: Bytes, pos: nat, count: nat): (r: Result<(seq<RespType>, nat)>)
    requires pos <= |input|
    ensures r.Ok? ==> |r.value.0| == count && pos <= r.value.1 <= |input|
    decreases |input| - pos, 2, count
  {
    if count == 0 then Ok(([], pos))
    else
      match Parse(input, pos)
      case Err(e) => Err(e)
      case Ok((v, q)) => Prepend([v], ParseElements(input, q, count - 1))
  }

  /** `deserialize`: one tag byte selects the production. */
  function Parse(input: Bytes, pos: nat): (r: Result<(RespType, nat)>)
    requires pos <= |input|
    ensures r.Ok? ==> pos < r.value.1 <= |input|
    ensures r.Ok? ==> Tag(r.value.0) == input[pos]
    decreases |input| - pos, 1, 0
  {
    if pos == |input| then Err(UnexpectedEof)
    else
      var tag := input[pos];
      if tag == PLUS then ParseString(input, pos + 1)
      else if tag == MINUS then ParseError(input, pos + 1)
      else if tag == COLON then ParseInteger(input, pos + 1)
      else if tag == DOLLAR then ParseBulk(input, pos + 1)
      else if tag == STAR then ParseArray(input, pos + 1)
      else Err(UnsupportedType(tag))
  }

  // ---------------------------------------------------------------------------
  // The decoder as the source writes it

  /** `deserialize`: dispatches on the tag byte; the same branches as `Parse`, to which it is proved equal. */
  method Deserialize(input: Bytes, pos: nat) returns (r: Result<(RespType, nat)>)
    requires pos <= |input|
    ensures r == Parse(input, pos)
    decreases |input| - pos, 1, 0
  {
    if pos == |input| {
      return Err(UnexpectedEof);
    }
    var tag := input[pos];
    if tag == PLUS {
      r := DeserializeString(input, pos + 1);
    } else if tag == MINUS {
      r := DeserializeError(input, pos + 1);
    } else if tag == COLON {
      r := DeserializeInteger(input, pos + 1);
    } else if tag == DOLLAR {
      r := DeserializeBulkString(input, pos + 1);
    } else if tag == STAR {
      r := DeserializeArray(input, pos + 1);
    } else {
      r := Err(UnsupportedType(tag));
    }
  }

  /** `deserialize_array`: the loop over the elements, proved equal to `ParseArray`. */
  method DeserializeArray(input: Bytes, pos: nat) returns (r: Result<(RespType, nat)>)
    requires pos <= |input|
    ensures r == ParseArray(input, pos)
    decreases |input| - pos, 0, 0
  {
    var header := DeserializeNumber(input, pos);
    if header.Err? {
      return Err(header.error);
    }
    var (size, p) := header.value;
    if size < 0 {
      return Err(NegativeCount);
    }
    var items: seq<RespType> := [];
    var stream := p;
    var k := 0;
    PrependJoin([], [], ParseElements(input, p, size));
    while k < size
      invariant 0 <= k <= size && |items| == k
      invariant pos < p <= stream <= |input|
      invariant ParseElements(input, p, size) == Prepend(items, ParseElements(input, stream, size - k))
      decreases size - k
    {
      var content := Deserialize(input, stream);
      if content.Err? {
        return Err(content.error);
      }
      PrependJoin(items, [content.value.0], ParseElements(input, content.value.1, size - k - 1));
      items := items + [content.value.0];
      stream := content.value.1;
      k := k + 1;
    }
    assert items + [] == items;
    r := Ok((Array(items), stream));
  }

  /** `deserialize_bulk_string`: the same steps as `ParseBulk`, to which it is proved equal. */
  method DeserializeBulkString(input: Bytes, pos: nat) returns (r: Result<(RespType, nat)>)
    requires pos <= |input|
    ensures r == ParseBulk(input, pos)
  {
    var header := DeserializeNumber(input, pos);
    if header.Err? {
      return Err(header.error);
    }
    var (size, p) := header.value;
    if size < 0 {
      return Ok((Null, p));
    }
    var payload := ReadBulkPayload(input, p, size);
    match payload
    case Ok((finalString, stream)) => r := Ok((BulkString(finalString), stream));
    case Err(err) => r := Err(err);
  }

  /** The payload loop of `deserialize_bulk_string`: `size` bytes read one at a
      time and widened, then the CRLF read and dropped. */
  method ReadBulkPayload(input: Bytes, p: nat, size: nat) returns (r: Result<(Bytes, nat)>)
    requires p <= |input|
    ensures r == BulkPayload(input, p, size)
  {
    var finalString: Bytes := [];
    var stream := p;
    while stream < p + size
      invariant p <= stream <= p + size && stream <= |input|
      invariant finalString == Latin1ToUtf8(input[p..stream])
    {
      if stream == |input| {
        return Err(UnexpectedEof);
      }
      WidenStep(input, p, stream);
      finalString := finalString + CharUtf8(input[stream]);
      stream := stream + 1;
    }
    // the remaining "\r\n", read and dropped
    if stream + 2 > |input| {
      return Err(UnexpectedEof);
    }
    r := Ok((finalString, stream + 2));
  }

  /** `deserialize_integer`: wraps the number reader exactly as `ParseInteger` does. */
  method DeserializeInteger(input: Bytes, pos: nat) returns (r: Result<(RespType, nat)>)
    requires pos <= |input|
    ensures r == ParseInteger(input, pos)
  {
    var number := DeserializeNumber(input, pos);
    match number
    case Ok((num, stream)) => r := Ok((Integer(num), stream));
    case Err(err) => r := Err(err);
  }

  /** `deserialize_number`: the digit loop, proved equal to `ParseNumber`. */
  method DeserializeNumber(input: Bytes, pos: nat) returns (r: Result<(int, nat)>)
    requires pos <= |input|
    ensures r == ParseNumber(input, pos)
  {
    var sign := true;
    var strInteger: Bytes := [];
    var stream := pos;
    var sawCr := false;
    ghost var fieldEnd := pos;
    while stream < |input| && !sawCr
      invariant pos <= fieldEnd <= stream <= |input|
      invariant fieldEnd == if sawCr then stream - 2 else stream
      invariant forall j :: pos <= j < fieldEnd ==> input[j] != CR
      invariant sawCr ==> input[fieldEnd] == CR
      invariant strInteger == Unsigned(input[pos..fieldEnd]) && sign == SignPositive(input[pos..fieldEnd])
      decreases |input| - stream, !sawCr
    {
      var byte := input[stream];
      stream := stream + 1;
      if byte == PLUS {
        FieldStep(input, pos, fieldEnd);
        sign := true;
        fieldEnd := stream;
      } else if byte == MINUS {
        FieldStep(input, pos, fieldEnd);
        sign := false;
        fieldEnd := stream;
      } else if byte == CR {
        // the byte after the CR is read and dropped
        if stream == |input| {
          CrIndexAt(input, pos, fieldEnd);
          return Err(UnexpectedEof);
        }
        stream := stream + 1;
        sawCr := true;
      } else {
        FieldStep(input, pos, fieldEnd);
        strInteger := strInteger + [byte];
        fieldEnd := stream;
      }
    }
    CrIndexAt(input, pos, fieldEnd);
    var parsed := ParseMagnitude(strInteger);
    if parsed.None? {
      return Err(InvalidInteger);
    }
    var finalInteger: int := parsed.value;
    if !sign {
      finalInteger := -finalInteger;
    }
    r := Ok((finalInteger, stream));
  }

  /** `deserialize_string`: wraps the simple-string reader exactly as `ParseString` does. */
  method DeserializeString(input: Bytes, pos: nat) returns (r: Result<(RespType, nat)>)
    requires pos <= |input|
    ensures r == ParseString(input, pos)
  {
    var simple := DeserializeSimpleString(input, pos);
    match simple
    case Ok((str, stream)) => r := Ok((String(str), stream));
    case Err(err) => r := Err(err);
  }

  /** `deserialize_error`: wraps the simple-string reader exactly as `ParseError` does. */
  method DeserializeError(input: Bytes, pos: nat) returns (r: Result<(RespType, nat)>)
    requires pos <= |input|
    ensures r == ParseError(input, pos)
  {
    var simple := DeserializeSimpleString(input, pos);
    match simple
    case Ok((str, stream)) => r := Ok((Error(str), stream));
    case Err(err) => r := Err(err);
  }

  /** `deserialize_simple_string`: the read-to-the-end loop and the truncation, proved equal to `ParseSimple`. */
  method DeserializeSimpleString(input: Bytes, pos: nat) returns (r: Result<(Bytes, nat)>)
    requires pos <= |input|
    ensures r == ParseSimple(input, pos)
  {
    var finalString: Bytes := [];
    var stream := pos;
    while stream < |input|
      invariant pos <= stream <= |input|
      invariant finalString == Latin1ToUtf8(input[pos..stream])
    {
      WidenStep(input, pos, stream);
      finalString := finalString + CharUtf8(input[stream]);
      stream := stream + 1;
    }
    assert input[pos..stream] == input[pos..];
    // truncate the last "\r\n"
    if |finalString| < 2 {
      return Err(LengthUnderflow);
    }
    if !OnCharBoundary(finalString, |finalString| - 2) {
      return Err(NotCharBoundary);
    }
    r := Ok((finalString[..|finalString| - 2], stream));
  }
}
