/** Command dispatch and the two commands that need no storage
    (src/commands/commands.rs, src/commands/hello.rs, src/commands/ping.rs),
    and the branch of the request handler that picks the command array out of
    a decoded request (src/lib.rs). */
module Commands {
  import opened Resp
  import opened RespDecode
  import opened RespRoundTrip

  const PONG: Bytes := Ascii("PONG")
  const NO_PROTO: Bytes := Ascii("NOPROTO sorry, this protocol version is not supported.")
  const NOT_A_COMMAND: Bytes := Ascii("WRONGTYPE wrong type, expected command name as a Bulk strings")
  const NOT_AN_ARRAY: Bytes := Ascii("WRONGTYPE array was expected")

  /** `ping`: the first argument echoed when it is a Bulk string, PONG otherwise. */
  function Ping(args: seq<RespType>): (r: RespType)
    ensures !r.Error?
    ensures r.BulkString? <==> |args| > 0 && args[0].BulkString?
    ensures r.BulkString? ==> r == args[0]
    ensures !r.BulkString? ==> r == String(PONG)
  {
    if |args| > 0 && args[0].BulkString? then BulkString(args[0].s) else String(PONG)
  }

  /** The server's identity: name, version, release name and protocol. */
  function ServerIdentity(): (r: seq<RespType>)
    ensures |r| == 8
  {
    [ BulkString(Ascii("server")), BulkString(Ascii("rust-eez")),
      BulkString(Ascii("version")), BulkString(Ascii("0.1.0")),
      BulkString(Ascii("version-name")), BulkString(Ascii("hanabi")),
      BulkString(Ascii("proto")), BulkString(Ascii("2")) ]
  }

  /** `hello`: only protocol version 2 is accepted, and only when it is asked
      for with a Bulk string; anything else in the first place, or nothing,
      also gets the identity. */
  function Hello(args: seq<RespType>): (r: RespType)
    ensures r.Error? <==> |args| > 0 && args[0].BulkString? && args[0].s != Ascii("2")
    ensures r.Error? ==> r == Error(NO_PROTO)
    ensures !r.Error? ==> r == Array(ServerIdentity())
  {
    if |args| > 0 && args[0].BulkString? && args[0].s != Ascii("2") then Error(NO_PROTO)
    else Array(ServerIdentity())
  }

  /** `handle_commands`: the first element names the command, the rest are
      its arguments. Only PING and HELLO are routed, by exact (case-sensitive)
      name. */
  function HandleCommands(commandArr: seq<RespType>): (r: RespType)
    ensures !(|commandArr| > 0 && commandArr[0].BulkString?) ==> r == Error(NOT_A_COMMAND)
    ensures |commandArr| > 0 && commandArr[0].BulkString? ==>
      var name := commandArr[0].s;
      && (name == Ascii("PING") ==> r == Ping(commandArr[1..]))
      && (name == Ascii("HELLO") ==> r == Hello(commandArr[1..]))
      && (name != Ascii("PING") && name != Ascii("HELLO") ==>
            r == Error(Ascii("ERR unknown command '") + name + Ascii("'")))
  {
    if |commandArr| > 0 && commandArr[0].BulkString? then
      var commandName := commandArr[0].s;
      var commandArgs := commandArr[1..];
      if commandName == Ascii("PING") then Ping(commandArgs)
      else if commandName == Ascii("HELLO") then Hello(commandArgs)
      else Error(Ascii("ERR unknown command '") + commandName + Ascii("'"))
    else
      Error(NOT_A_COMMAND)
  }

  /** The reply to a decoded request: an array is a command, anything else is
      refused. */
  function HandleRequest(request: RespType): (r: RespType)
    ensures request.Array? ==> r == HandleCommands(request.items)
    ensures !request.Array? ==> r == Error(NOT_AN_ARRAY)
  {
    if request.Array? then HandleCommands(request.items) else Error(NOT_AN_ARRAY)
  }

  // ---------------------------------------------------------------------------
  // Properties

  /** PING and HELLO look at their first argument only. */
  lemma {:induction false} FirstArgumentOnly(args: seq<RespType>, more: seq<RespType>)
    requires |args| > 0
    ensures Ping(args) == Ping(args[..1] + more)
    ensures Hello(args) == Hello(args[..1] + more)
  {
    assert (args[..1] + more)[0] == args[0];
  }

  /** The command name is matched exactly: lower-case `ping` is unknown. */
  lemma {:induction false} NameIsCaseSensitive(args: seq<RespType>)
    ensures HandleCommands([BulkString(Ascii("ping"))] + args) == Error(Ascii("ERR unknown command 'ping'"))
  {
    var name := Ascii("ping");
    assert name[0] != Ascii("PING")[0];
    assert name[0] != Ascii("HELLO")[0];
    assert Ascii("ERR unknown command '") + name + Ascii("'") == Ascii("ERR unknown command 'ping'");
  }

  lemma {:induction false} AsciiLiteral(s: string)
    requires forall i :: 0 <= i < |s| ==> s[i] < 128 as char
    ensures IsAscii(Ascii(s))
  {
  }

  /** A client's `PING` arrives as the array holding the Bulk string `PING`;
      decoded from the wire, whatever follows it, it is answered with PONG. */
  lemma {:induction false} PingOverTheWire(rest: Bytes)
    ensures var request := Array([BulkString(Ascii("PING"))]);
      var input := Serialize(request) + rest;
      && Parse(input, 0) == Ok((request, |Serialize(request)|))
      && HandleRequest(request) == String(PONG)
  {
    AsciiLiteral("PING");
    var request := Array([BulkString(Ascii("PING"))]);
    assert Decodable(request) by {
      assert Decodable(request.items[0]);
    }
    DecodeEncoded(request, rest);
  }

  /** `PING message` over the wire: the request decodes, the reply echoes the
      message, and the client decodes the reply back to the same message. */
  lemma {:induction false} PingEchoOverTheWire(message: Bytes, rest: Bytes)
    requires IsAscii(message) && |message| <= I64_MAX
    ensures var request := Array([BulkString(Ascii("PING")), BulkString(message)]);
      var reply := HandleRequest(request);
      && Parse(Serialize(request) + rest, 0) == Ok((request, |Serialize(request)|))
      && reply == BulkString(message)
      && Parse(Serialize(reply) + rest, 0) == Ok((reply, |Serialize(reply)|))
  {
    AsciiLiteral("PING");
    var request := Array([BulkString(Ascii("PING")), BulkString(message)]);
    assert Decodable(request) by {
      assert Decodable(request.items[0]) && Decodable(request.items[1]);
    }
    DecodeEncoded(request, rest);
    DecodeEncoded(BulkString(message), rest);
  }

  /** The identity array that HELLO sends decodes back to itself. */
  lemma {:induction false} IdentityDecodes(rest: Bytes)
    ensures var reply := Array(ServerIdentity());
      Parse(Serialize(reply) + rest, 0) == Ok((reply, |Serialize(reply)|))
  {
    var items := ServerIdentity();
    AsciiLiteral("server");
    AsciiLiteral("rust-eez");
    AsciiLiteral("version");
    AsciiLiteral("0.1.0");
    AsciiLiteral("version-name");
    AsciiLiteral("hanabi");
    AsciiLiteral("proto");
    AsciiLiteral("2");
    assert forall i :: 0 <= i < |items| ==> Decodable(items[i]);
    DecodeEncoded(Array(items), rest);
  }
}
