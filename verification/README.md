# rust-eez in Dafny

A model of the core of rust-eez, a small Redis-compatible key/value server:

- the RESP2 wire codec (`RespType` with `serialize` and `deserialize`);
- the keyspace command handlers `set`, `get`, `del`, `hset`, `hget`, `hgetall` and `hdel`;
- the command dispatcher `handle_commands` with the two commands it routes, `ping` and `hello`;
- the one branch of the request handler that turns a decoded request into a reply.

Files and modules:

| file | module | models |
|---|---|---|
| `resp.dfy` | `Resp` | `RespType`, its byte encoding and the decimal text of integers |
| `resp_decode.dfy` | `RespDecode` | the decoder: one specification function per production (`Parse*`) and the source's loops as methods (`Deserialize*`), each proved to compute its function |
| `resp_roundtrip.dfy` | `RespRoundTrip` | what decoding does to encoded values: the round trip and the places where it does not hold |
| `storage.dfy` | `Storage` | `StorageType`, the value stored under a key |
| `keyspace.dfy` | `Keyspace` | the keyspace as a class `SharedStorage` with one method per command |
| `commands.dfy` | `Commands` | `ping`, `hello`, `handle_commands` and the request branch, with lemmas that follow a request over the wire |
| `scenarios.dfy` | `Scenarios` | command sequences against one keyspace and the replies the handlers' contracts force |

Modelling choices:

- **Bytes.** Text is modelled as bytes (`seq<uint8>`). A Rust `String` is the sequence of its UTF-8 bytes, so `str.len()` is its length.
- **Decoder input.** The decoder reads a finite byte sequence from a cursor. It returns either a `DecodeError` or the value with the cursor just past it. The decoder's panics are also `DecodeError` values: the unknown tag (`unimplemented!()`), the simple string shorter than its CRLF, and the truncation off a char boundary. For the short simple string the model follows the debug profile, where `len() - 2` panics on underflow. A release build wraps instead, `truncate` then does nothing, and `+X` decodes to the string `X`.
- **Byte widening.** The decoder turns every byte into a `char` with `byte as char`. `Latin1ToUtf8` is the UTF-8 of the resulting string: a byte of 0x80 or more becomes two bytes.
- **Keyspace state.** The shared map is the field `store` of `SharedStorage`. Its `RwLock` is represented only by the flag `poisoned`. Each handler checks its arguments before it takes the lock, so bad arguments get their argument error even when the flag is set. When the flag is set, a handler whose arguments pass its checks replies with its fixed system error and leaves `store` alone.

Where the code and its documented intent disagree, the model follows the code:

- **Simple strings.** A simple string or error is read to the end of the input, not to its CRLF, and the last two bytes are then dropped (`SimpleStringReadsToEnd`, `SimpleStringSwallowsRest`).
- **HGET on a missing field.** HGET on a hash that lacks the field replies WRONGTYPE, not `Null` (`HGet`, `HGetMissingField`).
- **HSET with no pair applied.** HSET stores a hash even when it applies no pair, so a missing key can end up holding an empty hash (`HSetWithoutValue`).
- **Dispatch.** `handle_commands` routes only PING and HELLO and takes no storage. Its callers in src/lib.rs:24 and src/main.rs:23 pass the storage as a second argument, which the function's signature (src/commands/commands.rs:5) does not accept. The model follows commands.rs. As a result, the keyspace handlers are not reachable from the dispatcher, and they are modelled as the separate operations they are.

## Model

| member | source | states |
|---|---|---|
| `Resp.DecimalDigits` | src/resp.rs:196-200 | `to_string` of a non-negative number is a non-empty run of decimal digits |
| `Resp.Decimal` | src/resp.rs:196-200 | `to_string` of an integer is digits, with a '-' only in front and only for a negative number |
| `Resp.Serialize` | src/resp.rs:173-183 | every encoding has at least three bytes: a tag, and a CRLF at the end |
| `Resp.SerializeSimpleString` | src/resp.rs:185-194 | a simple string or error is encoded in three bytes more than its text, the first being the prefix (`ScalarLayout` places the text and CRLF) |
| `Resp.SerializeSimpleInteger` | src/resp.rs:196-200 | an integer is encoded in three bytes more than its decimal text, the first being ':' |
| `Resp.SerializeBulkString` | src/resp.rs:202-220 | a bulk string is encoded in five bytes more than its decimal byte count and its bytes, the first being '$' (`ScalarLayout` places the rest) |
| `Resp.ScalarLayout` | src/resp.rs:185-220 | in a simple string the text stands at bytes 1 to n and CRLF after it; in a bulk string the decimal count, CRLF, the payload and CRLF stand in that order at the offsets `serialize_bulk_string` writes them |
| `Resp.SerializeArray` | src/resp.rs:222-242 | an encoded array holds at least its tag, its element count and a CRLF |
| `Resp.SerializeAll` | src/resp.rs:237-239 | the elements' encodings concatenated in order: empty exactly for no elements, at least three bytes per element |
| `Resp.Framed` | src/resp.rs:173-242 | every encoding starts with its kind's tag byte and ends with CRLF |
| `Resp.FramedAll` | src/resp.rs:237-239 | the concatenated encodings of a non-empty list start with the first element's tag and end with CRLF |
| `RespDecode.CharUtf8` | src/resp.rs:83 | `byte as char` keeps an ASCII byte; any other byte b becomes the two-byte UTF-8 sequence `110xxxxx 10xxxxxx` that encodes the code point b |
| `RespDecode.Latin1ToUtf8` | src/resp.rs:79-84 | the string built by widening n bytes has between n and 2n bytes |
| `RespDecode.CrIndex` | src/resp.rs:115-130 | the number field ends at the first CR after the cursor, or at the end of the input |
| `RespDecode.ParseMagnitude` | src/resp.rs:132 | `parse::<i64>` of the unsigned body succeeds only on a non-empty run of digits, and then yields that run's decimal value, which fits an `i64` |
| `RespDecode.ParseNumber` | src/resp.rs:108-138 | a decoded number lies in `[-(2^63-1), 2^63-1]` and the cursor moves forward (`NumberFieldMeaning` states when it succeeds, its value and its errors) |
| `RespDecode.ParseSimple` | src/resp.rs:157-171 | a decoded simple string always leaves the cursor at the end of the input (`SimpleStringReadsToEnd` gives its value, `ShortSimpleStringRejected` its error) |
| `RespDecode.ParseString` | src/resp.rs:140-145 | `+` decodes to a simple string |
| `RespDecode.ParseError` | src/resp.rs:147-152 | `-` decodes to an error |
| `RespDecode.ParseInteger` | src/resp.rs:97-102 | `:` decodes to an integer |
| `RespDecode.ParseBulk` | src/resp.rs:67-95 | `$` decodes to a bulk string or to `Null`, never to anything else |
| `RespDecode.BulkPayload` | src/resp.rs:79-94 | the payload is read only when the input holds its bytes and the two bytes after them; the cursor then stands past those two |
| `RespDecode.ParseArray` | src/resp.rs:47-65 | `*` decodes to an array |
| `RespDecode.ParseElements` | src/resp.rs:52-62 | a successful element run has exactly the requested number of values (`ElementFailurePropagates` and `LaterFailurePropagates` give its failures) |
| `RespDecode.Parse` | src/resp.rs:26-45 | a decoded value's tag is the byte at the cursor, and the cursor moves forward within the input |
| `RespDecode.Deserialize` | src/resp.rs:26-45 | the tag dispatch computes `Parse` |
| `RespDecode.DeserializeArray` | src/resp.rs:47-65 | the element loop computes `ParseArray`: a negative count fails, and the first failing element fails the array |
| `RespDecode.DeserializeBulkString` | src/resp.rs:67-95 | computes `ParseBulk`: a negative size gives `Null` with no payload read |
| `RespDecode.ReadBulkPayload` | src/resp.rs:79-94 | the payload loop and the dropped two bytes compute `BulkPayload`, failing on truncated input |
| `RespDecode.DeserializeInteger` | src/resp.rs:97-102 | computes `ParseInteger` |
| `RespDecode.DeserializeNumber` | src/resp.rs:108-138 | the sign/digit loop computes `ParseNumber`: signs anywhere, the last one wins, the byte after CR is skipped |
| `RespDecode.DeserializeString` | src/resp.rs:140-145 | computes `ParseString` |
| `RespDecode.DeserializeError` | src/resp.rs:147-152 | computes `ParseError` |
| `RespDecode.DeserializeSimpleString` | src/resp.rs:157-171 | the read-all loop and the truncation compute `ParseSimple` |
| `RespRoundTrip.AsciiUnchanged` | src/resp.rs:79-84 | widening bytes that are all ASCII changes nothing |
| `RespRoundTrip.DecimalDigitsValue` | src/resp.rs:196-200 | the digits written for a number have that number as their value |
| `RespRoundTrip.DecimalField` | src/resp.rs:196-200 | the text of any `i64` but the smallest parses back to its magnitude and sign and holds no CR |
| `RespRoundTrip.NumberRoundTrip` | src/resp.rs:108-138 | a number's text followed by CRLF decodes to that number with the cursor past the CRLF |
| `RespRoundTrip.Dispatch` | src/resp.rs:33-44 | the tag byte alone selects the production |
| `RespRoundTrip.IntegerRoundTrip` | src/resp.rs:196-200 | an encoded integer other than `i64::MIN` decodes to itself |
| `RespRoundTrip.NullRoundTrip` | src/resp.rs:181 | the encoded `Null` decodes to `Null` |
| `RespRoundTrip.BulkRoundTrip` | src/resp.rs:202-220 | an encoded ASCII bulk string decodes to itself |
| `RespRoundTrip.ArrayRoundTrip` | src/resp.rs:222-242 | an encoded array of decodable values decodes to itself |
| `RespRoundTrip.RoundTripElements` | src/resp.rs:52-62 | the concatenated encodings of decodable values decode, in order, to those values |
| `RespRoundTrip.RoundTrip` | src/resp.rs:26-45 | any decodable value's encoding, wherever it stands and whatever follows it, decodes to that value with the cursor just past it |
| `RespRoundTrip.DecodeEncoded` | src/resp.rs:26-242 | `deserialize(serialize(v) ++ rest)` gives `v` and leaves `rest` |
| `RespRoundTrip.IntegerMinRejected` | src/resp.rs:132-135 | the encoding of `i64::MIN` does not decode: its magnitude overflows before it is negated |
| `RespRoundTrip.SimpleStringReadsToEnd` | src/resp.rs:157-170 | a simple string or error takes every remaining byte and drops the last two |
| `RespRoundTrip.SimpleStringSwallowsRest` | src/resp.rs:163-168 | bytes after an encoded simple string become part of it |
| `RespRoundTrip.SimpleStringAlone` | src/resp.rs:157-171 | with nothing after it, an encoded simple string decodes to itself |
| `RespRoundTrip.ShortSimpleStringRejected` | src/resp.rs:163-168 | a simple string or error with fewer than two ASCII bytes after its tag fails with the `len() - 2` underflow |
| `RespRoundTrip.BulkSkipsTerminatorUnchecked` | src/resp.rs:91-92 | any two bytes after a bulk payload are accepted as its terminator |
| `RespRoundTrip.BulkWidenedBody` | src/resp.rs:67-95 | a length field followed by that many bytes decodes to those bytes widened |
| `RespRoundTrip.BulkWidened` | src/resp.rs:79-84 | any encoded bulk string decodes to its bytes each widened to a char |
| `RespRoundTrip.NonAsciiBulkDoubleEncoded` | src/resp.rs:83 | "é" sent as a bulk string is read back as "Ã©" |
| `RespRoundTrip.NegativeBulkLengthIsNull` | src/resp.rs:73-75 | every negative bulk length decodes to `Null` and reads no payload |
| `RespRoundTrip.TruncatedBulkRejected` | src/resp.rs:79-92 | a bulk string cut short of its payload and terminator is an end-of-input error |
| `RespRoundTrip.NegativeArrayCountRejected` | src/resp.rs:48-49 | a negative array count is an error |
| `RespRoundTrip.ElementFailurePropagates` | src/resp.rs:52-53 | an element that fails to decode fails the element run with the same error |
| `RespRoundTrip.LaterFailurePropagates` | src/resp.rs:52-62 | once the first element has decoded, a failure among the rest is the failure of the whole run |
| `RespRoundTrip.ArrayFailurePropagates` | src/resp.rs:47-65 | a valid count followed by a failing element run fails the array with that run's error |
| `RespRoundTrip.UnknownTagRejected` | src/resp.rs:29-43 | empty input fails, and a tag other than `+ - : $ *` is rejected |
| `RespRoundTrip.DigitsAfter` | src/resp.rs:115-129 | digits read after a number field's prefix are appended to its unsigned body and leave its sign as it was |
| `RespRoundTrip.SignAfter` | src/resp.rs:116-118 | a '+' or '-' byte in a number field adds nothing to its body and sets its sign |
| `RespRoundTrip.IntegerToEnd` | src/resp.rs:97-138 | a number field with no CR that runs to the end of the input decodes to its body's value, signed by its sign flag, with the cursor at the end |
| `RespRoundTrip.IntegerTerminated` | src/resp.rs:97-138 | a number field with no CR followed by CRLF decodes to its body's value, negated exactly when its sign flag is false, with the cursor past the CRLF |
| `RespRoundTrip.NumberWithoutTerminator` | src/resp.rs:115-132 | for every non-empty digit run whose value fits an `i64`, `:` followed by the run and then the end of input decodes to that value without error |
| `RespRoundTrip.CrThenAnyByte` | src/resp.rs:119-126 | the byte after the CR that ends a number field is consumed unchecked: a CR-free field then CR and any byte decodes to its signed value, with the cursor past both bytes |
| `RespRoundTrip.BadBodyRejected` | src/resp.rs:115-132 | a CR-free number field whose unsigned body is empty or holds a non-digit (`:\r\n`, `:+\r\n`, `:1a\r\n`) fails with `InvalidInteger` |
| `RespRoundTrip.OverflowRejected` | src/resp.rs:115-132 | a CR-free number field whose unsigned body is a digit run above 2^63-1, then CRLF, fails with `InvalidInteger`, whatever its sign |
| `RespRoundTrip.DigitBodyTerminated` | src/resp.rs:115-138 | a CR-free field whose unsigned body is an in-range digit run, then CRLF, decodes to that run's value under the field's sign |
| `RespRoundTrip.TwoSignField` | src/resp.rs:115-129 | the field `a s1 b s2 c` (digit runs and signs) has body `a b c`, holds no CR, and its sign is that of `s2` |
| `RespRoundTrip.SignAnywhereLastWins` | src/resp.rs:115-135 | for all digit runs a, b, c and signs s1, s2, `:a s1 b s2 c` then CRLF decodes to the value of the digits `a b c`, negated exactly when the last sign `s2` is '-' |
| `RespRoundTrip.NumberFieldMeaning` | src/resp.rs:108-138 | the number field runs from the cursor to the first CR; `deserialize_number` succeeds exactly when a byte follows that CR or there is no CR, and the unsigned body is a non-empty digit run of value at most 2^63-1; the value is that run's, negated when the last sign is '-'; the cursor is past the byte after the CR, or at the end of the input when there is no CR; a CR as the last byte is an end-of-input error and every other failure `InvalidInteger` |
| `Keyspace.BulkKeysMembers` | src/commands/string_op.rs:93-99 | a name is among the removed names exactly when some Bulk argument carries it |
| `Keyspace.RemoveBulkAll` | src/commands/string_op.rs:93-99 | removing the named keys one at a time removes exactly the named keys |
| `Keyspace.RemovedCount` | src/commands/string_op.rs:95-97 | the entries removed are the present keys among the names |
| `Keyspace.RemoveBulkMeaning` | src/commands/string_op.rs:93-101 | the removal loop leaves the map less the names and removes as many entries as names were present |
| `Keyspace.Pairs` | src/commands/set_op.rs:37-45 | HSET applies at most one pair per two arguments |
| `Keyspace.PairAt` | src/commands/set_op.rs:37-45 | pair l is made of arguments 2l and 2l+1, both Bulk strings |
| `Keyspace.PairsStop` | src/commands/set_op.rs:37-41 | the pairs stop at the end or at the first pair that is not two Bulk strings |
| `Keyspace.ApplyKeeps` | src/commands/set_op.rs:37-45 | a field that no pair names keeps its value or its absence |
| `Keyspace.ApplyLastWins` | src/commands/set_op.rs:37-45 | a field ends up with the value of the last pair naming it |
| `Keyspace.LeadingBulk` | src/commands/set_op.rs:158 | HDEL's loop stops at the first non-Bulk argument |
| `Keyspace.LeadingBulkAt` | src/commands/set_op.rs:158 | every argument before the stop is a Bulk string |
| `Keyspace.Flatten` | src/commands/set_op.rs:109-112 | HGETALL's reply has two items per listed field |
| `Keyspace.FlattenLayout` | src/commands/set_op.rs:109-112 | item 2i is field i and item 2i+1 is its value |
| `Keyspace.RemoveLeadingFields` | src/commands/set_op.rs:158-162 | HDEL's loop removes the fields named up to the first non-Bulk argument and counts those present |
| `Keyspace.SharedStorage.constructor` | src/main.rs:47 | the keyspace starts empty |
| `Keyspace.SharedStorage.Set` | src/commands/string_op.rs:14-47 | argument errors and a poisoned lock change nothing; otherwise the key holds the string, whatever it held before, and no other key changes |
| `Keyspace.SharedStorage.Get` | src/commands/string_op.rs:55-76 | the string under the key, `Null` for a missing key or a hash; never changes the store |
| `Keyspace.SharedStorage.Del` | src/commands/string_op.rs:84-112 | no arguments is an error; otherwise exactly the keys named by Bulk arguments are removed and the reply counts the distinct ones that were present |
| `Keyspace.SharedStorage.HSet` | src/commands/set_op.rs:8-57 | a string under the key is refused with no change; otherwise the pairs are applied in order to the key's hash (a new one when missing) and counted |
| `Keyspace.SharedStorage.HGet` | src/commands/set_op.rs:59-94 | the field's value from a hash, WRONGTYPE for a hash without the field, `Null` for a missing key or a string |
| `Keyspace.SharedStorage.HGetAll` | src/commands/set_op.rs:96-127 | a hash gives every field and value once each in some order; a missing key gives the empty array; a string gives WRONGTYPE |
| `Keyspace.SharedStorage.HDel` | src/commands/set_op.rs:129-178 | the named fields are removed and counted; an emptied hash takes its key with it; a missing key gives 0 and a string WRONGTYPE |
| `Commands.Ping` | src/commands/ping.rs:3-9 | a Bulk first argument is echoed; anything else gives PONG; never an error |
| `Commands.ServerIdentity` | src/commands/hello.rs:14-24 | the identity has eight items |
| `Commands.Hello` | src/commands/hello.rs:3-25 | a Bulk first argument other than "2" gives NOPROTO; every other input gives the identity array |
| `Commands.HandleCommands` | src/commands/commands.rs:5-19 | a non-Bulk or missing name is refused; PING and HELLO get the rest of the array; any other name is an unknown command |
| `Commands.HandleRequest` | src/lib.rs:23-27 | an array is a command; any other value is refused |
| `Commands.FirstArgumentOnly` | src/commands/ping.rs:4 | PING and HELLO ignore every argument after the first |
| `Commands.NameIsCaseSensitive` | src/commands/commands.rs:9-12 | `ping` in lower case is an unknown command |
| `Commands.PingOverTheWire` | src/lib.rs:19-27 | the encoded request `PING` decodes and is answered with PONG |
| `Commands.PingEchoOverTheWire` | src/lib.rs:19-30 | `PING message` decodes, its reply is the message, and the reply decodes back to it |
| `Commands.IdentityDecodes` | src/commands/hello.rs:14-24 | the encoded identity array decodes back to itself |
| `Scenarios.SetThenGet` | src/commands/string_op.rs:29-66 | after SET k v, GET k replies v |
| `Scenarios.SetReplacesHash` | src/commands/string_op.rs:31-34 | SET over a hash replaces it: HGETALL refuses the key and GET sees the string |
| `Scenarios.HSetOnString` | src/commands/set_op.rs:24-35 | HSET on a string is refused and the store keeps the string |
| `Scenarios.HGetMissingField` | src/commands/set_op.rs:74-83 | HGET of a field the hash lacks replies WRONGTYPE |
| `Scenarios.HSetWithoutValue` | src/commands/set_op.rs:37-47 | HSET k f on a missing key replies 0 and leaves an empty hash |
| `Scenarios.HDelLastField` | src/commands/set_op.rs:158-168 | deleting the only field of a fresh hash restores the store as it was |
| `Scenarios.DelTwice` | src/commands/string_op.rs:93-99 | a key named twice in DEL is counted once |
| `Scenarios.HGetAllOneField` | src/commands/set_op.rs:109-112 | HGETALL of a one-field hash is that field and its value |

## Left out

- The TCP listener, the accept loop and socket writes in src/main.rs are I/O. This includes the reply `ERR Could not deserialized command(s)` to a request that fails to decode.
- `handle_command_stream` in src/lib.rs is modelled only as its reply branch (`HandleRequest`) and the decode-then-reply lemmas. The stream itself is I/O.
- `RespDecode.DeserializeSimpleString`: on a real stream, `read` returns `Ok(0)` at end of input, so the loop never ends. The model reads a finite input and stops at its end.
- `RespDecode.DeserializeArray`: does not model allocation failure in `Vec::with_capacity` for a huge count. The same holds for `String::with_capacity` in `RespDecode.ReadBulkPayload`.
- Locking and concurrency are not modelled: `Arc`, the `RwLock`, and interleaving between connections. Lock poisoning is the input flag `poisoned`, which no handler sets.
- `println!` logging is left out throughout.
- `Keyspace.SharedStorage.HGetAll`: states only that the reply lists each entry once in some order, because `HashMap` iteration order is unspecified.
- Reply counters and `RespType::Integer` are unbounded integers, so `i64` overflow of `insert_count`, `del_count` and `deleted_count` is not modelled. It would need more than 2^63 arguments.
- Panics are modelled as decode errors, not as aborting the process: `unimplemented!()`, the `len() - 2` underflow and a `truncate` off a char boundary.
- `RespDecode.ParseSimple`: follows the debug profile for the `len() - 2` underflow, which is an error there (`LengthUnderflow`). The release-profile wrap-around, under which a simple string shorter than two bytes is kept whole, is not modelled.
- `RespDecode.ParseNumber`: its own contract states only the range of the value and the forward cursor. When it succeeds, what it yields and which error it gives are stated as separate lemmas (`NumberFieldMeaning`, `OverflowRejected`, `BadBodyRejected`), so that every proof that unfolds `Parse` does not carry them.
- benches/commands.rs is benchmarking code and is not part of this model.
