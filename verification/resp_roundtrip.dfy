/** What the decoder does with the encoder's output (src/resp.rs:26-242). */
module RespRoundTrip {
  import opened Resp
  import opened RespDecode

  predicate IsAscii(s: Bytes) {
    forall i :: 0 <= i < |s| ==> s[i] < 0x80
  }

  /** The values the decoder gives back unchanged, wherever they stand in the
      input: integers other than `i64::MIN`, single-byte bulk strings, `Null`,
      and arrays of these. Simple strings and errors are not among them, since
      they swallow the rest of the input. */
  predicate Decodable(v: RespType) {
    match v
    case Integer(n) => -I64_MAX <= n <= I64_MAX
    case BulkString(s) => |s| <= I64_MAX && IsAscii(s)
    case Null => true
    case Array(xs) => |xs| <= I64_MAX && forall i :: 0 <= i < |xs| ==> Decodable(xs[i])
    case String(_) => false
    case Error(_) => false
  }

  /** `input` holds `e` at `pos`. */
  predicate HoldsAt(input: Bytes, pos: nat, e: Bytes) {
    pos + |e| <= |input| && forall i :: 0 <= i < |e| ==> input[pos + i] == e[i]
  }

  /** Where `a + b` stands, `a` stands and `b` follows it. */
  lemma {:induction false} HoldsAtParts(input: Bytes, pos: nat, a: Bytes, b: Bytes)
    requires HoldsAt(input, pos, a + b)
    ensures HoldsAt(input, pos, a) && HoldsAt(input, pos + |a|, b)
  {
    forall i | 0 <= i < |a| ensures input[pos + i] == a[i] {
      assert input[pos + i] == (a + b)[i];
    }
    forall i | 0 <= i < |b| ensures input[pos + |a| + i] == b[i] {
      assert input[pos + (|a| + i)] == (a + b)[|a| + i];
    }
  }

  /** `a + b` stands at `pos` exactly when `a` does and `b` follows it. */
  lemma {:induction false} HoldsAtSplit(input: Bytes, pos: nat, a: Bytes, b: Bytes)
    ensures HoldsAt(input, pos, a + b) <==> HoldsAt(input, pos, a) && HoldsAt(input, pos + |a|, b)
  {
    if HoldsAt(input, pos, a + b) {
      HoldsAtParts(input, pos, a, b);
    }
    if HoldsAt(input, pos, a) && HoldsAt(input, pos + |a|, b) {
      forall i | 0 <= i < |a + b| ensures input[pos + i] == (a + b)[i] {
        if i < |a| {
          assert input[pos + i] == a[i];
        } else {
          assert input[pos + |a| + (i - |a|)] == b[i - |a|];
        }
      }
    }
  }

  /** Both parts of a concatenation stand where they were put. */
  lemma {:induction false} Concat(a: Bytes, b: Bytes)
    ensures HoldsAt(a + b, 0, a) && HoldsAt(a + b, |a|, b)
  {
    HoldsAtSplit(a + b, 0, a, b);
    assert forall i :: 0 <= i < |a + b| ==> (a + b)[0 + i] == (a + b)[i];
  }

  /** The slice of `input` where `e` stands is `e`. */
  lemma {:induction false} SliceAt(input: Bytes, pos: nat, e: Bytes)
    requires HoldsAt(input, pos, e)
    ensures input[pos..pos + |e|] == e
  {
    forall k | 0 <= k < |e| ensures input[pos..pos + |e|][k] == e[k] {
      assert input[pos + k] == e[k];
    }
  }

  lemma {:induction false} AsciiUnchanged(s: Bytes)
    requires IsAscii(s)
    ensures Latin1ToUtf8(s) == s
  {
    if s != [] {
      AsciiUnchanged(s[..|s| - 1]);
      assert s[..|s| - 1] + [s[|s| - 1]] == s;
    }
  }

  lemma {:induction false} SignedDigits(p: Bytes, ds: Bytes)
    requires p == [] || p == [MINUS]
    requires AllDigits(ds)
    ensures Unsigned(p + ds) == ds
    ensures SignPositive(p + ds) == (p == [])
  {
    if ds == [] {
      assert p + ds == p;
      if p != [] { assert p[..0] == []; }
    } else {
      var init := ds[..|ds| - 1];
      SignedDigits(p, init);
      assert (p + ds)[..|p + ds| - 1] == p + init;
      assert init + [ds[|ds| - 1]] == ds;
    }
  }

  lemma {:induction false} DecimalDigitsValue(m: nat)
    ensures DigitsValue(DecimalDigits(m)) == m
    decreases m
  {
    if m >= 10 {
      DecimalDigitsValue(m / 10);
      var ds := DecimalDigits(m);
      assert ds[..|ds| - 1] == DecimalDigits(m / 10);
    }
  }

  /** The text written by `to_string` is a valid number field for every `i64`
      but the smallest: digits, at most a leading '-', and no CR. */
  lemma {:induction false} DecimalField(n: int)
    requires -I64_MAX <= n <= I64_MAX
    ensures ParseMagnitude(Unsigned(Decimal(n))) == Some(if n < 0 then -n else n)
    ensures SignPositive(Decimal(n)) == (n >= 0)
    ensures forall i :: 0 <= i < |Decimal(n)| ==> Decimal(n)[i] != CR
  {
    var m: nat := if n < 0 then -n else n;
    var sign: Bytes := if n < 0 then [MINUS] else [];
    var ds := DecimalDigits(m);
    assert Decimal(n) == sign + ds;
    SignedDigits(sign, ds);
    DecimalDigitsValue(m);
    assert ParseMagnitude(ds) == Some(m);
  }

  /** `to_string` followed by `deserialize_number` gives the number back,
      cursor just after the CRLF, for every `i64` but the smallest. */
  lemma {:induction false} NumberRoundTrip(n: int, input: Bytes, pos: nat)
    requires -I64_MAX <= n <= I64_MAX
    requires HoldsAt(input, pos, Decimal(n) + CRLF)
    ensures ParseNumber(input, pos) == Ok((n, pos + |Decimal(n)| + 2))
  {
    var d := Decimal(n);
    var cr := pos + |d|;
    HoldsAtSplit(input, pos, d, CRLF);
    assert input[cr + 0] == CRLF[0];
    DecimalField(n);
    forall j | pos <= j < cr ensures input[j] != CR {
      assert input[pos + (j - pos)] == d[j - pos];
    }
    CrIndexAt(input, pos, cr);
    SliceAt(input, pos, d);
  }

  /** Moves the facts about a header `[tag] + Decimal(n) + CRLF` at `pos` to
      the number field after the tag. */
  lemma {:induction false} HeaderAt(input: Bytes, pos: nat, tag: uint8, n: int, rest: Bytes)
    requires HoldsAt(input, pos, [tag] + Decimal(n) + CRLF + rest)
    ensures input[pos] == tag
    ensures HoldsAt(input, pos + 1, Decimal(n) + CRLF)
    ensures HoldsAt(input, pos + 2 + |Decimal(n)| + 1, rest)
  {
    var d := Decimal(n);
    HoldsAtSplit(input, pos, [tag] + d + CRLF, rest);
    HoldsAtSplit(input, pos, [tag] + d, CRLF);
    HoldsAtSplit(input, pos, [tag], d);
    HoldsAtSplit(input, pos + 1, d, CRLF);
    assert input[pos + 0] == [tag][0];
  }

  /** The tag byte alone selects the production. */
  lemma {:induction false} Dispatch(input: Bytes, pos: nat)
    requires pos < |input|
    ensures input[pos] == COLON ==> Parse(input, pos) == ParseInteger(input, pos + 1)
    ensures input[pos] == DOLLAR ==> Parse(input, pos) == ParseBulk(input, pos + 1)
    ensures input[pos] == STAR ==> Parse(input, pos) == ParseArray(input, pos + 1)
    ensures input[pos] == PLUS ==> Parse(input, pos) == ParseString(input, pos + 1)
    ensures input[pos] == MINUS ==> Parse(input, pos) == ParseError(input, pos + 1)
  {
  }

  lemma {:induction false} IntegerAt(n: int, input: Bytes, pos: nat)
    requires -I64_MAX <= n <= I64_MAX
    requires HoldsAt(input, pos, [COLON] + Decimal(n) + CRLF)
    ensures Parse(input, pos) == Ok((Integer(n), pos + |Decimal(n)| + 3))
  {
    HeaderAt(input, pos, COLON, n, []);
    NumberRoundTrip(n, input, pos + 1);
    Dispatch(input, pos);
  }

  lemma {:induction false} NullAt(input: Bytes, pos: nat)
    requires HoldsAt(input, pos, [DOLLAR] + Decimal(-1) + CRLF)
    ensures Parse(input, pos) == Ok((Null, pos + 5))
  {
    HeaderAt(input, pos, DOLLAR, -1, []);
    NumberRoundTrip(-1, input, pos + 1);
    Dispatch(input, pos);
  }

  lemma {:induction false} BulkAt(s: Bytes, input: Bytes, pos: nat)
    requires |s| <= I64_MAX && IsAscii(s)
    requires HoldsAt(input, pos, [DOLLAR] + Decimal(|s|) + CRLF + s + CRLF)
    ensures Parse(input, pos) == Ok((BulkString(s), pos + |Decimal(|s|)| + |s| + 5))
  {
    BulkLayout(s, CRLF, input, pos);
    BulkFrameAt(s, input, pos);
  }

  /** Where the parts of a bulk string with terminator `t` stand in the input. */
  lemma {:induction false} BulkLayout(s: Bytes, t: Bytes, input: Bytes, pos: nat)
    requires HoldsAt(input, pos, [DOLLAR] + Decimal(|s|) + CRLF + s + t)
    ensures input[pos] == DOLLAR && HoldsAt(input, pos + 1, Decimal(|s|) + CRLF)
    ensures HoldsAt(input, pos + |Decimal(|s|)| + 3, s)
    ensures pos + |Decimal(|s|)| + 3 + |s| + |t| <= |input|
  {
    var header := [DOLLAR] + Decimal(|s|) + CRLF;
    HoldsAtSplit(input, pos, header + s, t);
    HoldsAtSplit(input, pos, header, s);
    assert header + [] == header;
    HeaderAt(input, pos, DOLLAR, |s|, []);
  }

  /** A bulk string header at `pos`, its payload after it and two more bytes
      of any value decode to that bulk string. */
  lemma {:induction false} BulkFrameAt(s: Bytes, input: Bytes, pos: nat)
    requires |s| <= I64_MAX && IsAscii(s)
    requires pos + |Decimal(|s|)| + 3 + |s| + 2 <= |input|
    requires input[pos] == DOLLAR && HoldsAt(input, pos + 1, Decimal(|s|) + CRLF)
    requires HoldsAt(input, pos + |Decimal(|s|)| + 3, s)
    ensures Parse(input, pos) == Ok((BulkString(s), pos + |Decimal(|s|)| + |s| + 5))
  {
    BulkBody(s, input, pos + 1);
    Dispatch(input, pos);
  }

  lemma {:induction false} BulkBody(s: Bytes, input: Bytes, pos: nat)
    requires |s| <= I64_MAX && IsAscii(s)
    requires pos + |Decimal(|s|)| + 2 + |s| + 2 <= |input|
    requires HoldsAt(input, pos, Decimal(|s|) + CRLF)
    requires HoldsAt(input, pos + |Decimal(|s|)| + 2, s)
    ensures ParseBulk(input, pos) == Ok((BulkString(s), pos + |Decimal(|s|)| + |s| + 4))
  {
    BulkWidenedBody(s, input, pos);
    AsciiUnchanged(s);
  }

  /** After the tag, a length field and that many payload bytes decode to the
      payload with each byte widened to a char. */
  lemma {:induction false} BulkWidenedBody(s: Bytes, input: Bytes, pos: nat)
    requires |s| <= I64_MAX
    requires pos + |Decimal(|s|)| + 2 + |s| + 2 <= |input|
    requires HoldsAt(input, pos, Decimal(|s|) + CRLF)
    requires HoldsAt(input, pos + |Decimal(|s|)| + 2, s)
    ensures ParseBulk(input, pos) == Ok((BulkString(Latin1ToUtf8(s)), pos + |Decimal(|s|)| + |s| + 4))
  {
    var p := pos + |Decimal(|s|)| + 2;
    NumberRoundTrip(|s|, input, pos);
    SliceAt(input, p, s);
    BulkFromNumber(input, pos, s, p);
  }

  /** Once the length field `|s|` is read, the payload is the next `|s|` bytes. */
  lemma {:induction false} BulkFromNumber(input: Bytes, pos: nat, s: Bytes, p: nat)
    requires pos <= |input| && p + |s| + 2 <= |input|
    requires ParseNumber(input, pos) == Ok((|s|, p)) && input[p..p + |s|] == s
    ensures ParseBulk(input, pos) == Ok((BulkString(Latin1ToUtf8(s)), p + |s| + 2))
  {
  }

  /** An array header for `|xs|` elements at `pos`, followed by their
      encodings ending at `end`, decodes to `Array(xs)`. */
  lemma {:induction false} ArrayAt(xs: seq<RespType>, input: Bytes, pos: nat, mid: nat, end: nat)
    requires |xs| <= I64_MAX
    requires HoldsAt(input, pos + 1, Decimal(|xs|) + CRLF) && input[pos] == STAR
    requires var p := pos + |Decimal(|xs|)| + 3;
      p <= |input| && ParseElements(input, p, |xs|) == Ok((xs, mid)) && mid == end
    ensures Parse(input, pos) == Ok((Array(xs), end))
  {
    NumberRoundTrip(|xs|, input, pos + 1);
    Dispatch(input, pos);
  }

  /** A value at `pos` followed by `count - 1` values makes `count` values. */
  lemma {:induction false} ElementsCons(input: Bytes, pos: nat, xs: seq<RespType>, q: nat, mid: nat, end: nat)
    requires pos <= q <= |input| && xs != []
    requires Parse(input, pos) == Ok((xs[0], q))
    requires ParseElements(input, q, |xs| - 1) == Ok((xs[1..], mid)) && mid == end
    ensures ParseElements(input, pos, |xs|) == Ok((xs, end))
  {
    assert [xs[0]] + xs[1..] == xs;
  }

  /** Round trip: decoding the encoding of a decodable value, followed by any
      bytes at all, yields that value with the cursor exactly at those bytes. */
  lemma {:induction false} RoundTrip(v: RespType, input: Bytes, pos: nat)
    requires Decodable(v)
    requires HoldsAt(input, pos, Serialize(v))
    ensures Parse(input, pos) == Ok((v, pos + |Serialize(v)|))
    decreases v, 3
  {
    match v
    case Integer(n) => IntegerRoundTrip(n, input, pos);
    case Null => NullRoundTrip(input, pos);
    case BulkString(s) => BulkRoundTrip(s, input, pos);
    case Array(xs) => ArrayValueRoundTrip(xs, input, pos);
  }

  lemma {:induction false} ArrayValueRoundTrip(xs: seq<RespType>, input: Bytes, pos: nat)
    requires |xs| <= I64_MAX && forall i :: 0 <= i < |xs| ==> Decodable(xs[i])
    requires HoldsAt(input, pos, Serialize(Array(xs)))
    ensures Parse(input, pos) == Ok((Array(xs), pos + |Serialize(Array(xs))|))
    decreases xs, 5
  {
    assert Serialize(Array(xs)) == SerializeArray(xs);
    ArrayRoundTrip(xs, input, pos);
  }

  lemma {:induction false} IntegerRoundTrip(n: int, input: Bytes, pos: nat)
    requires -I64_MAX <= n <= I64_MAX
    requires HoldsAt(input, pos, Serialize(Integer(n)))
    ensures Parse(input, pos) == Ok((Integer(n), pos + |Serialize(Integer(n))|))
  {
    assert Serialize(Integer(n)) == [COLON] + Decimal(n) + CRLF;
    IntegerAt(n, input, pos);
  }

  lemma {:induction false} NullRoundTrip(input: Bytes, pos: nat)
    requires HoldsAt(input, pos, Serialize(Null))
    ensures Parse(input, pos) == Ok((Null, pos + |Serialize(Null)|))
  {
    assert Serialize(Null) == [DOLLAR] + Decimal(-1) + CRLF;
    NullAt(input, pos);
  }

  lemma {:induction false} BulkRoundTrip(s: Bytes, input: Bytes, pos: nat)
    requires |s| <= I64_MAX && IsAscii(s)
    requires HoldsAt(input, pos, Serialize(BulkString(s)))
    ensures Parse(input, pos) == Ok((BulkString(s), pos + |Serialize(BulkString(s))|))
  {
    assert Serialize(BulkString(s)) == [DOLLAR] + Decimal(|s|) + CRLF + s + CRLF;
    BulkAt(s, input, pos);
  }

  lemma {:induction false} ArrayRoundTrip(xs: seq<RespType>, input: Bytes, pos: nat)
    requires |xs| <= I64_MAX && forall i :: 0 <= i < |xs| ==> Decodable(xs[i])
    requires HoldsAt(input, pos, SerializeArray(xs))
    ensures Parse(input, pos) == Ok((Array(xs), pos + |SerializeArray(xs)|))
    decreases xs, 4
  {
    ArrayLayout(xs, input, pos);
    ArrayFromLayout(xs, input, pos, pos + |SerializeArray(xs)|);
  }

  /** An array header followed by the encodings of decodable values decodes
      to the array, with the cursor at `end`, just past the last encoding. */
  lemma {:induction false} ArrayFromLayout(xs: seq<RespType>, input: Bytes, pos: nat, end: nat)
    requires |xs| <= I64_MAX && forall i :: 0 <= i < |xs| ==> Decodable(xs[i])
    requires HoldsAt(input, pos + 1, Decimal(|xs|) + CRLF) && input[pos] == STAR
    requires HoldsAt(input, pos + |Decimal(|xs|)| + 3, SerializeAll(xs))
    requires end == pos + |Decimal(|xs|)| + 3 + |SerializeAll(xs)|
    ensures Parse(input, pos) == Ok((Array(xs), end))
    decreases xs, 3
  {
    RoundTripElements(xs, input, pos + |Decimal(|xs|)| + 3);
    ArrayAt(xs, input, pos, pos + |Decimal(|xs|)| + 3 + |SerializeAll(xs)|, end);
  }

  /** Where the parts of an encoded array stand in the input. */
  lemma {:induction false} ArrayLayout(xs: seq<RespType>, input: Bytes, pos: nat)
    requires HoldsAt(input, pos, SerializeArray(xs))
    ensures input[pos] == STAR && HoldsAt(input, pos + 1, Decimal(|xs|) + CRLF)
    ensures HoldsAt(input, pos + |Decimal(|xs|)| + 3, SerializeAll(xs))
    ensures |SerializeArray(xs)| == |Decimal(|xs|)| + 3 + |SerializeAll(xs)|
  {
    HeaderAt(input, pos, STAR, |xs|, SerializeAll(xs));
  }

  lemma {:induction false} RoundTripElements(xs: seq<RespType>, input: Bytes, pos: nat)
    requires forall i :: 0 <= i < |xs| ==> Decodable(xs[i])
    requires HoldsAt(input, pos, SerializeAll(xs))
    ensures ParseElements(input, pos, |xs|) == Ok((xs, pos + |SerializeAll(xs)|))
    decreases xs, 2
  {
    if xs != [] {
      DecodableParts(xs);
      ElementsLayout(xs, input, pos);
      RoundTrip(xs[0], input, pos);
      ElementsStep(xs, input, pos, pos + |Serialize(xs[0])|, pos + |SerializeAll(xs)|);
    }
  }

  /** The inductive step: once the first value has decoded, ending at `q`,
      the encodings after it decode to the rest, ending at `end`. */
  lemma {:induction false} ElementsStep(xs: seq<RespType>, input: Bytes, pos: nat, q: nat, end: nat)
    requires xs != [] && pos <= q <= |input| && forall i :: 0 <= i < |xs[1..]| ==> Decodable(xs[1..][i])
    requires Parse(input, pos) == Ok((xs[0], q))
    requires HoldsAt(input, q, SerializeAll(xs[1..]))
    requires end == q + |SerializeAll(xs[1..])|
    ensures ParseElements(input, pos, |xs|) == Ok((xs, end))
    decreases xs, 1
  {
    RoundTripElements(xs[1..], input, q);
    ElementsCons(input, pos, xs, q, q + |SerializeAll(xs[1..])|, end);
  }

  lemma {:induction false} DecodableParts(xs: seq<RespType>)
    requires xs != [] && forall i :: 0 <= i < |xs| ==> Decodable(xs[i])
    ensures Decodable(xs[0]) && forall i :: 0 <= i < |xs[1..]| ==> Decodable(xs[1..][i])
  {
    forall i | 0 <= i < |xs[1..]| ensures Decodable(xs[1..][i]) {
      assert xs[1..][i] == xs[i + 1];
    }
  }

  /** Where the first encoding and the rest stand in the input. */
  lemma {:induction false} ElementsLayout(xs: seq<RespType>, input: Bytes, pos: nat)
    requires xs != [] && HoldsAt(input, pos, SerializeAll(xs))
    ensures HoldsAt(input, pos, Serialize(xs[0]))
    ensures HoldsAt(input, pos + |Serialize(xs[0])|, SerializeAll(xs[1..]))
    ensures |SerializeAll(xs)| == |Serialize(xs[0])| + |SerializeAll(xs[1..])|
  {
    HoldsAtParts(input, pos, Serialize(xs[0]), SerializeAll(xs[1..]));
  }

  /** The round trip on a whole buffer: `deserialize(serialize(v) ++ rest)`. */
  lemma {:induction false} DecodeEncoded(v: RespType, rest: Bytes)
    requires Decodable(v)
    ensures Parse(Serialize(v) + rest, 0) == Ok((v, |Serialize(v)|))
  {
    Concat(Serialize(v), rest);
    RoundTrip(v, Serialize(v) + rest, 0);
  }

  /** `i64::MIN` is written but not read back: its magnitude is parsed
      before it is negated, and that magnitude overflows an `i64`. */
  lemma {:induction false} IntegerMinRejected(rest: Bytes)
    ensures Parse(Serialize(Integer(-I64_MAX - 1)) + rest, 0) == Err(InvalidInteger)
  {
    var n := -I64_MAX - 1;
    var d := Decimal(n);
    var input := Serialize(Integer(n)) + rest;
    assert input == [COLON] + d + CRLF + rest;
    var cr := 1 + |d|;
    forall j | 1 <= j < cr ensures input[j] != CR {
      assert input[j] == d[j - 1];
    }
    assert input[cr] == CR;
    assert CrIndex(input, 1) == cr;
    assert input[1..cr] == d;
    SignedDigits([MINUS], DecimalDigits(I64_MAX + 1));
    DecimalDigitsValue(I64_MAX + 1);
  }

  /** A simple string or error reads every remaining byte and drops the last
      two, whatever they are. */
  lemma {:induction false} SimpleStringReadsToEnd(input: Bytes, pos: nat)
    requires pos < |input| && (input[pos] == PLUS || input[pos] == MINUS)
    requires |input| - pos >= 3 && IsAscii(input[pos + 1..])
    ensures var s := input[pos + 1..|input| - 2];
      Parse(input, pos) == Ok((if input[pos] == PLUS then String(s) else Error(s), |input|))
  {
    var w := input[pos + 1..];
    AsciiUnchanged(w);
    assert OnCharBoundary(w, |w| - 2);
    assert w[..|w| - 2] == input[pos + 1..|input| - 2];
    assert ParseSimple(input, pos + 1) == Ok((input[pos + 1..|input| - 2], |input|));
    Dispatch(input, pos);
  }

  /** Hence a simple string comes back as itself only when nothing follows it;
      any bytes after it become part of it, less the last two. */
  lemma {:induction false} SimpleStringSwallowsRest(s: Bytes, rest: Bytes)
    requires IsAscii(s) && IsAscii(rest)
    ensures Parse(Serialize(String(s)) + rest, 0)
         == Ok((String((s + CRLF + rest)[..|s| + |rest|]), |s| + |rest| + 3))
  {
    SimpleStringSwallowsAt(s, rest, Serialize(String(s)) + rest);
  }

  lemma {:induction false} SimpleStringSwallowsAt(s: Bytes, rest: Bytes, input: Bytes)
    requires IsAscii(s) && IsAscii(rest)
    requires input == Serialize(String(s)) + rest
    ensures Parse(input, 0) == Ok((String((s + CRLF + rest)[..|s| + |rest|]), |s| + |rest| + 3))
  {
    SimpleFrame(s, rest);
    SimpleStringReadsToEnd(input, 0);
  }

  /** The layout of `serialize(String(s))` followed by `rest`. */
  lemma {:induction false} SimpleFrame(s: Bytes, rest: Bytes)
    requires IsAscii(s) && IsAscii(rest)
    ensures var input := Serialize(String(s)) + rest;
      |input| == |s| + |rest| + 3 && input[0] == PLUS && IsAscii(input[1..])
      && input[1..|input| - 2] == (s + CRLF + rest)[..|s| + |rest|]
  {
    var tail := s + CRLF + rest;
    var input := [PLUS] + tail;
    assert Serialize(String(s)) == [PLUS] + s + CRLF;
    assert Serialize(String(s)) + rest == input;
    assert input[1..] == tail;
    forall i | 0 <= i < |tail| ensures tail[i] < 0x80 {
      if i < |s| { assert tail[i] == s[i]; }
      else if i >= |s| + 2 { assert tail[i] == rest[i - |s| - 2]; }
    }
  }

  /** With nothing after it, a simple string comes back unchanged. */
  lemma {:induction false} SimpleStringAlone(s: Bytes)
    requires IsAscii(s)
    ensures Parse(Serialize(String(s)), 0) == Ok((String(s), |s| + 3))
  {
    var input := [PLUS] + (s + CRLF);
    assert Serialize(String(s)) == input;
    assert input[1..] == s + CRLF;
    assert input[1..|input| - 2] == s;
    SimpleStringReadsToEnd(input, 0);
  }

  /** A simple string or error needs at least its two terminator bytes:
      with fewer than two ASCII bytes after the tag, `len() - 2` underflows. */
  lemma {:induction false} ShortSimpleStringRejected(input: Bytes, pos: nat)
    requires pos < |input| && (input[pos] == PLUS || input[pos] == MINUS)
    requires |input| - pos <= 2 && IsAscii(input[pos + 1..])
    ensures Parse(input, pos) == Err(LengthUnderflow)
  {
    AsciiUnchanged(input[pos + 1..]);
    Dispatch(input, pos);
  }

  /** A bulk string reads exactly its declared number of bytes, then skips two
      bytes without checking that they are CRLF. */
  lemma {:induction false} BulkSkipsTerminatorUnchecked(s: Bytes, x: uint8, y: uint8, rest: Bytes)
    requires |s| <= I64_MAX && IsAscii(s)
    ensures var input := [DOLLAR] + Decimal(|s|) + CRLF + s + [x, y] + rest;
      Parse(input, 0) == Ok((BulkString(s), |input| - |rest|))
  {
    var frame := [DOLLAR] + Decimal(|s|) + CRLF + s + [x, y];
    Concat(frame, rest);
    BulkSkipsAt(s, [x, y], frame + rest);
  }

  lemma {:induction false} BulkSkipsAt(s: Bytes, t: Bytes, input: Bytes)
    requires |s| <= I64_MAX && IsAscii(s) && |t| == 2
    requires HoldsAt(input, 0, [DOLLAR] + Decimal(|s|) + CRLF + s + t)
    ensures Parse(input, 0) == Ok((BulkString(s), |Decimal(|s|)| + |s| + 5))
  {
    BulkLayout(s, t, input, 0);
    BulkFrameAt(s, input, 0);
  }

  /** Any bulk string, ASCII or not, comes back with each of its bytes
      widened to a char: the encoder writes the UTF-8 bytes and their count,
      and the decoder turns each byte into one char. */
  lemma {:induction false} BulkWidened(s: Bytes, rest: Bytes)
    requires |s| <= I64_MAX
    ensures Parse(Serialize(BulkString(s)) + rest, 0) == Ok((BulkString(Latin1ToUtf8(s)), |Serialize(BulkString(s))|))
  {
    var e := [DOLLAR] + Decimal(|s|) + CRLF + s + CRLF;
    assert Serialize(BulkString(s)) == e;
    Concat(e, rest);
    BulkWidenedAt(s, e + rest, 0);
  }

  lemma {:induction false} BulkWidenedAt(s: Bytes, input: Bytes, pos: nat)
    requires |s| <= I64_MAX
    requires HoldsAt(input, pos, [DOLLAR] + Decimal(|s|) + CRLF + s + CRLF)
    ensures Parse(input, pos) == Ok((BulkString(Latin1ToUtf8(s)), pos + |Decimal(|s|)| + |s| + 5))
  {
    BulkLayout(s, CRLF, input, pos);
    BulkWidenedBody(s, input, pos + 1);
    Dispatch(input, pos);
  }

  /** So a non-ASCII payload does not survive: "é", sent as its two UTF-8
      bytes, is read back as the four bytes of "Ã©". */
  lemma {:induction false} NonAsciiBulkDoubleEncoded()
    ensures Parse(Serialize(BulkString([0xC3, 0xA9])), 0) == Ok((BulkString([0xC3, 0x83, 0xC2, 0xA9]), 8))
  {
    var s: Bytes := [0xC3, 0xA9];
    var e := Serialize(BulkString(s));
    BulkWidened(s, []);
    assert e + [] == e;
    assert Latin1ToUtf8(s) == [0xC3, 0x83, 0xC2, 0xA9] by {
      var one: Bytes := [0xC3];
      assert s[..1] == one && one[..0] == [];
      assert Latin1ToUtf8(one) == [0xC3, 0x83];
    }
    assert |e| == 8 by {
      assert Decimal(2) == [ZERO + 2];
    }
  }

  /** Any negative bulk length, not only -1, is `Null`, and no payload is read. */
  lemma {:induction false} NegativeBulkLengthIsNull(n: int, rest: Bytes)
    requires -I64_MAX <= n < 0
    ensures var input := [DOLLAR] + Decimal(n) + CRLF + rest;
      Parse(input, 0) == Ok((Null, |input| - |rest|))
  {
    var h := Decimal(n) + CRLF;
    var input := [DOLLAR] + Decimal(n) + CRLF + rest;
    assert input == [DOLLAR] + h + rest;
    assert HoldsAt(input, 1, h) by { assert input[1..1 + |h|] == h; }
    NumberRoundTrip(n, input, 1);
    Dispatch(input, 0);
  }

  /** A bulk string whose input ends before its payload and the two bytes
      after it is a decode error. */
  lemma {:induction false} TruncatedBulkRejected(n: nat, tail: Bytes)
    requires n <= I64_MAX && |tail| < n + 2
    ensures Parse([DOLLAR] + Decimal(n) + CRLF + tail, 0) == Err(UnexpectedEof)
  {
    var h := Decimal(n) + CRLF;
    var input := [DOLLAR] + Decimal(n) + CRLF + tail;
    assert input == [DOLLAR] + h + tail;
    assert HoldsAt(input, 1, h) by { assert input[1..1 + |h|] == h; }
    NumberRoundTrip(n, input, 1);
    Dispatch(input, 0);
  }

  /** A negative array count is a decode error. */
  lemma {:induction false} NegativeArrayCountRejected(n: int, rest: Bytes)
    requires -I64_MAX <= n < 0
    ensures Parse([STAR] + Decimal(n) + CRLF + rest, 0) == Err(NegativeCount)
  {
    var h := Decimal(n) + CRLF;
    var input := [STAR] + Decimal(n) + CRLF + rest;
    assert input == [STAR] + h + rest;
    assert HoldsAt(input, 1, h) by { assert input[1..1 + |h|] == h; }
    NumberRoundTrip(n, input, 1);
    Dispatch(input, 0);
  }

  /** Empty input fails, and a byte that is none of `+ - : $ *` is rejected. */
  lemma {:induction false} UnknownTagRejected(input: Bytes)
    requires input == [] || input[0] !in {PLUS, MINUS, COLON, DOLLAR, STAR}
    ensures Parse(input, 0).Err?
    ensures input != [] ==> Parse(input, 0) == Err(UnsupportedType(input[0]))
  {
  }

  /** The `?` after each element: a run of elements fails with the first
      element's error when that element does not decode. */
  lemma {:induction false} ElementFailurePropagates(input: Bytes, pos: nat, count: nat)
    requires pos <= |input| && count > 0 && Parse(input, pos).Err?
    ensures ParseElements(input, pos, count) == Err(Parse(input, pos).error)
  {
  }

  /** After an element that decodes, a failure later in the run is the
      failure of the whole run. */
  lemma {:induction false} LaterFailurePropagates(input: Bytes, pos: nat, count: nat, v: RespType, q: nat)
    requires pos <= |input| && count > 0
    requires Parse(input, pos) == Ok((v, q))
    requires ParseElements(input, q, count - 1).Err?
    ensures ParseElements(input, pos, count) == ParseElements(input, q, count - 1)
  {
  }

  /** An array whose elements fail to decode fails with their error. */
  lemma {:induction false} ArrayFailurePropagates(input: Bytes, pos: nat, size: int, p: nat)
    requires pos <= |input| && ParseNumber(input, pos) == Ok((size, p)) && size >= 0
    requires ParseElements(input, p, size).Err?
    ensures ParseArray(input, pos) == Err(ParseElements(input, p, size).error)
  {
  }

  /** No byte of `s` is a CR, so a number field holding `s` does not end inside it. */
  predicate NoCr(s: Bytes) {
    forall i :: 0 <= i < |s| ==> s[i] != CR
  }

  /** Joining two digit runs gives a digit run, and joining two CR-free
      strings a CR-free string. */
  lemma {:induction false} JoinFields(x: Bytes, y: Bytes)
    ensures AllDigits(x) && AllDigits(y) ==> AllDigits(x + y)
    ensures NoCr(x) && NoCr(y) ==> NoCr(x + y)
  {
    forall i | 0 <= i < |x + y| ensures (x + y)[i] == if i < |x| then x[i] else y[i - |x|] {
    }
  }

  /** Digits appended to a number field join its unsigned body and leave its sign. */
  lemma {:induction false} DigitsAfter(p: Bytes, ds: Bytes)
    requires AllDigits(ds)
    ensures Unsigned(p + ds) == Unsigned(p) + ds
    ensures SignPositive(p + ds) == SignPositive(p)
  {
    if ds == [] {
      assert p + ds == p;
    } else {
      var init := ds[..|ds| - 1];
      DigitsAfter(p, init);
      assert (p + ds)[..|p + ds| - 1] == p + init;
      assert Unsigned(p) + init + [ds[|ds| - 1]] == Unsigned(p) + ds;
    }
  }

  /** A sign byte appended to a number field sets its sign and adds nothing
      to its body. */
  lemma {:induction false} SignAfter(p: Bytes, sign: uint8)
    requires sign == PLUS || sign == MINUS
    ensures Unsigned(p + [sign]) == Unsigned(p)
    ensures SignPositive(p + [sign]) == (sign == PLUS)
  {
    assert (p + [sign])[..|p|] == p;
  }

  /** A number field without CR that runs to the end of the input decodes
      to its signed magnitude, with the cursor at the end. */
  lemma {:induction false} IntegerToEnd(f: Bytes, m: nat)
    requires NoCr(f)
    requires ParseMagnitude(Unsigned(f)) == Some(m)
    ensures Parse([COLON] + f, 0) == Ok((Integer(if SignPositive(f) then m else -(m as int)), |f| + 1))
  {
    var input := [COLON] + f;
    forall j | 1 <= j < |input| ensures input[j] != CR {
      assert input[j] == f[j - 1];
    }
    CrIndexAt(input, 1, |input|);
    assert input[1..|input|] == f;
    Dispatch(input, 0);
  }

  /** A number field without CR, ended by CRLF, decodes to its signed
      magnitude, with the cursor past the CRLF. */
  lemma {:induction false} IntegerTerminated(f: Bytes, m: nat, positive: bool)
    requires NoCr(f)
    requires ParseMagnitude(Unsigned(f)) == Some(m) && SignPositive(f) == positive
    ensures Parse([COLON] + f + CRLF, 0) == Ok((Integer(if positive then m else -(m as int)), |f| + 3))
  {
    var input := [COLON] + f + CRLF;
    forall j | 1 <= j < |f| + 1 ensures input[j] != CR {
      assert input[j] == f[j - 1];
    }
    assert input[|f| + 1] == CR;
    CrIndexAt(input, 1, |f| + 1);
    assert input[1..|f| + 1] == f;
    Dispatch(input, 0);
  }

  /** The byte after the CR that ends a number field is consumed without
      being checked: any byte `x` may stand where the LF belongs. */
  lemma {:induction false} CrThenAnyByte(f: Bytes, m: nat, positive: bool, x: uint8)
    requires NoCr(f)
    requires ParseMagnitude(Unsigned(f)) == Some(m) && SignPositive(f) == positive
    ensures Parse([COLON] + f + [CR, x], 0) == Ok((Integer(if positive then m else -(m as int)), |f| + 3))
  {
    var input := [COLON] + f + [CR, x];
    forall j | 1 <= j < |f| + 1 ensures input[j] != CR {
      assert input[j] == f[j - 1];
    }
    assert input[|f| + 1] == CR;
    CrIndexAt(input, 1, |f| + 1);
    assert input[1..|f| + 1] == f;
    Dispatch(input, 0);
  }

  /** A number field whose unsigned body is empty or holds a byte other than
      a digit is rejected: `:\r\n`, `:+\r\n` and `:1a\r\n` all fail with
      `InvalidInteger`. */
  lemma {:induction false} BadBodyRejected(f: Bytes)
    requires NoCr(f) && (Unsigned(f) == [] || !AllDigits(Unsigned(f)))
    ensures Parse([COLON] + f + CRLF, 0) == Err(InvalidInteger)
  {
    var input := [COLON] + f + CRLF;
    forall j | 1 <= j < |f| + 1 ensures input[j] != CR {
      assert input[j] == f[j - 1];
    }
    assert input[|f| + 1] == CR;
    CrIndexAt(input, 1, |f| + 1);
    assert input[1..|f| + 1] == f;
    Dispatch(input, 0);
  }

  /** A digit body too large for an `i64` is rejected: `parse::<i64>`
      overflows, so `:99999999999999999999\r\n` fails with `InvalidInteger`. */
  lemma {:induction false} OverflowRejected(f: Bytes)
    requires NoCr(f) && Unsigned(f) != [] && AllDigits(Unsigned(f)) && DigitsValue(Unsigned(f)) > I64_MAX
    ensures Parse([COLON] + f + CRLF, 0) == Err(InvalidInteger)
  {
    var input := [COLON] + f + CRLF;
    forall j | 1 <= j < |f| + 1 ensures input[j] != CR {
      assert input[j] == f[j - 1];
    }
    assert input[|f| + 1] == CR;
    CrIndexAt(input, 1, |f| + 1);
    assert input[1..|f| + 1] == f;
    Dispatch(input, 0);
  }

  /** `parse::<i64>` reads a non-empty digit run that fits an `i64` as its value. */
  lemma {:induction false} MagnitudeOfDigits(ds: Bytes)
    requires ds != [] && AllDigits(ds) && DigitsValue(ds) <= I64_MAX
    ensures ParseMagnitude(ds) == Some(DigitsValue(ds))
  {
  }

  /** Reaching the end of the input before a CR ends a number field without
      error: `:` and any run of digits that fits an `i64` decode to their
      value, with the cursor at the end. */
  lemma {:induction false} NumberWithoutTerminator(ds: Bytes)
    requires ds != [] && AllDigits(ds) && DigitsValue(ds) <= I64_MAX
    ensures Parse([COLON] + ds, 0) == Ok((Integer(DigitsValue(ds)), |ds| + 1))
  {
    DigitsAfter([], ds);
    assert [] + ds == ds;
    IntegerToEnd(ds, DigitsValue(ds));
  }

  /** Sign bytes may stand anywhere among the digits of a number field and
      the last one wins: `:a s1 b s2 c` with digit runs `a`, `b`, `c` and
      signs `s1`, `s2` decodes to the value of the digits `a b c`, signed by
      `s2` alone. */
  lemma {:induction false} SignAnywhereLastWins(a: Bytes, s1: uint8, b: Bytes, s2: uint8, c: Bytes)
    requires AllDigits(a) && AllDigits(b) && AllDigits(c)
    requires s1 == PLUS || s1 == MINUS
    requires s2 == PLUS || s2 == MINUS
    requires a + b + c != [] && DigitsValue(a + b + c) <= I64_MAX
    ensures var f := a + [s1] + b + [s2] + c;
      var v := DigitsValue(a + b + c);
      Parse([COLON] + f + CRLF, 0) == Ok((Integer(if s2 == PLUS then v else -(v as int)), |f| + 3))
  {
    TwoSignField(a, s1, b, s2, c);
    DigitBodyTerminated(a + [s1] + b + [s2] + c, a + b + c, s2 == PLUS);
  }

  /** A CR-free field whose unsigned body `g` is an in-range digit run,
      ended by CRLF, decodes to the value of `g` under the field's sign. */
  lemma {:induction false} DigitBodyTerminated(f: Bytes, g: Bytes, positive: bool)
    requires NoCr(f) && Unsigned(f) == g && SignPositive(f) == positive
    requires g != [] && AllDigits(g) && DigitsValue(g) <= I64_MAX
    ensures var v := DigitsValue(g);
      Parse([COLON] + f + CRLF, 0) == Ok((Integer(if positive then v else -(v as int)), |f| + 3))
  {
    MagnitudeOfDigits(g);
    IntegerTerminated(f, DigitsValue(g), positive);
  }

  /** The body and sign of the field `a s1 b s2 c`, and that it holds no CR. */
  lemma {:induction false} TwoSignField(a: Bytes, s1: uint8, b: Bytes, s2: uint8, c: Bytes)
    requires AllDigits(a) && AllDigits(b) && AllDigits(c)
    requires s1 == PLUS || s1 == MINUS
    requires s2 == PLUS || s2 == MINUS
    ensures var f := a + [s1] + b + [s2] + c;
      && Unsigned(f) == a + b + c
      && SignPositive(f) == (s2 == PLUS)
      && AllDigits(a + b + c)
      && NoCr(f)
  {
    DigitsAfter([], a);
    assert [] + a == a;
    SignAfter(a, s1);
    DigitsAfter(a + [s1], b);
    SignAfter(a + [s1] + b, s2);
    DigitsAfter(a + [s1] + b + [s2], c);
    JoinFields(a, b);
    JoinFields(a + b, c);
    assert NoCr(a) && NoCr([s1]) && NoCr(b) && NoCr([s2]) && NoCr(c);
    JoinFields(a, [s1]);
    JoinFields(a + [s1], b);
    JoinFields(a + [s1] + b, [s2]);
    JoinFields(a + [s1] + b + [s2], c);
  }

  /** Which number fields decode, and to what: the field runs from the cursor
      to the first CR; it decodes exactly when that CR is not the last byte
      and its unsigned body is a non-empty digit run whose value fits an
      `i64`. The value is the body's, negated when the last sign is `-`; the
      cursor moves past the CR and the byte after it. Otherwise the error is
      `UnexpectedEof` for a CR at the very end and `InvalidInteger` for a bad
      or overflowing body. */
  lemma {:induction false} NumberFieldMeaning(input: Bytes, pos: nat)
    requires pos <= |input|
    ensures var cr := CrIndex(input, pos);
      var body := Unsigned(input[pos..cr]);
      ParseNumber(input, pos).Ok? <==>
        cr + 1 != |input| && body != [] && AllDigits(body) && DigitsValue(body) <= I64_MAX
    ensures var cr := CrIndex(input, pos);
      var field := input[pos..cr];
      var body := Unsigned(field);
      ParseNumber(input, pos).Ok? ==>
        && AllDigits(body)
        && ParseNumber(input, pos).value.0 ==
             (if SignPositive(field) then DigitsValue(body) else -(DigitsValue(body) as int))
        && ParseNumber(input, pos).value.1 == (if cr < |input| then cr + 2 else |input|)
    ensures var cr := CrIndex(input, pos);
      ParseNumber(input, pos).Err? ==>
        ParseNumber(input, pos).error == (if cr + 1 == |input| then UnexpectedEof else InvalidInteger)
  {
  }
}
