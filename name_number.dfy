/** The TCP name-and-number exchange (assignment-1-tcp-name-number-exchange): a client
    sends its name and a number between 1 and 100; the server answers with its own name
    and number, and each side computes the sum. Both directions use one frame: a
    big-endian 16-bit length, that many name bytes, a big-endian 32-bit number. Names are
    byte sequences (UTF-8 coding is left out), a connection is the bytes that arrive on
    it, and the numbers typed at the console are parameters. */
module NameNumber {
  import opened Wrappers
  import opened Wire

  // ---------------------------------------------------------------------------
  // The frame

  /** A name and a number the frame can carry. */
  predicate Encodable(name: seq<byte>, number: int)
  {
    |name| < U16Limit && 0 <= number < U32Limit
  }

  /** `pack("!H", len(name)) + name + pack("!I", number)`, as sent by three `sendall`s. */
  function EncodeMessage(name: seq<byte>, number: nat): (b: seq<byte>)
    requires Encodable(name, number)
    ensures |b| == 2 + |name| + 4
  {
    PackU16(|name|) + name + PackU32(number)
  }

  /** What reading one frame from a connection gives: nothing at all (the first `recv`
      is empty), a `struct.error` (a field cut short), or the name and number. */
  datatype Decoded = NoData | Truncated | Frame(name: seq<byte>, number: nat)

  /** `recv(2)`, unpack the length, `recv(length)`, `recv(4)`, unpack the number. The
      name read may be shorter than announced when the connection ends; the number
      read is then short too, and unpacking it fails. */
  function DecodeMessage(stream: seq<byte>): (r: Decoded)
    ensures r.Frame? ==> r.number < U32Limit && |r.name| < U16Limit
    ensures r == NoData <==> |stream| == 0
  {
    var (rawLen, afterLen) := Recv(stream, 2);
    if |rawLen| == 0 then NoData
    else if |rawLen| < 2 then Truncated
    else
      var (name, afterName) := Recv(afterLen, UnpackU16(rawLen));
      var (rawNumber, _) := Recv(afterName, 4);
      if |rawNumber| < 4 then Truncated
      else Frame(name, UnpackU32(rawNumber))
  }

  /** Round trip: the frame an encoding starts, whatever follows it, decodes to the
      name and number encoded. */
  lemma DecodeEncode(name: seq<byte>, number: nat, rest: seq<byte>)
    requires Encodable(name, number)
    ensures DecodeMessage(EncodeMessage(name, number) + rest) == Frame(name, number)
  {
    var s := EncodeMessage(name, number) + rest;
    assert s[..2] == PackU16(|name|);
    UnpackPackU16(|name|);
    assert s[2..][..|name|] == name;
    assert s[2..][|name|..][..4] == PackU32(number);
    UnpackPackU32(number);
  }

  /** Conversely, every frame that decodes is the encoding of what it decodes to, at the
      front of the stream. */
  lemma EncodeDecode(stream: seq<byte>)
    requires DecodeMessage(stream).Frame?
    ensures var f := DecodeMessage(stream);
            |stream| >= 2 + |f.name| + 4 &&
            stream[..2 + |f.name| + 4] == EncodeMessage(f.name, f.number)
  {
    var f := DecodeMessage(stream);
    var n := UnpackU16(stream[..2]);
    PackUnpackU16(stream[..2]);
    assert |f.name| == n;
    PackUnpackU32(stream[2 + n..][..4]);
    assert stream[..2 + n + 4] == stream[..2] + stream[2..2 + n] + stream[2 + n..][..4];
  }

  /** A stream too short to hold the length, the name it announces and the number, but
      not empty, never decodes. */
  lemma ShortStreamTruncated(stream: seq<byte>)
    requires 0 < |stream| && (|stream| < 2 || |stream| < 2 + UnpackU16(stream[..2]) + 4)
    ensures DecodeMessage(stream) == Truncated
  {
  }

  /** Numbers the program accepts. */
  predicate InRange(number: int)
  {
    1 <= number <= 100
  }

  // ---------------------------------------------------------------------------
  // Server

  /** What `client_handler` does with a connection. */
  datatype Handled =
    | Silent                                               // empty first read
    | Unreadable                                           // struct.error while reading
    | Rejected(clientName: seq<byte>, clientNumber: nat)   // number outside 1..100
    | ReplyFailed(clientName: seq<byte>, clientNumber: nat, sum: nat) // name too long to pack
    | Replied(clientName: seq<byte>, clientNumber: nat, sum: nat)

  /** `client_handler` on the bytes of one connection, for a server with the given name
      and number: the reply it sends and what it did. */
  function Handle(serverName: seq<byte>, serverNumber: nat, request: seq<byte>): (r: (seq<byte>, Handled))
    ensures r.0 != [] <==> r.1.Replied?
    ensures r.1 == Silent <==> |request| == 0
    ensures r.1.Rejected? <==> DecodeMessage(request).Frame? && !InRange(DecodeMessage(request).number)
    ensures r.1.Replied? ==>
              DecodeMessage(request) == Frame(r.1.clientName, r.1.clientNumber) &&
              InRange(r.1.clientNumber) && r.1.sum == r.1.clientNumber + serverNumber &&
              DecodeMessage(r.0) == Frame(serverName, serverNumber)
    ensures r.1.Replied? ==> Encodable(serverName, serverNumber) && r.0 == EncodeMessage(serverName, serverNumber)
  {
    match DecodeMessage(request)
    case NoData => ([], Silent)
    case Truncated => ([], Unreadable)
    case Frame(clientName, clientNumber) =>
      if !InRange(clientNumber) then ([], Rejected(clientName, clientNumber))
      else if !Encodable(serverName, serverNumber) then
        ([], ReplyFailed(clientName, clientNumber, clientNumber + serverNumber))
      else
        var reply := EncodeMessage(serverName, serverNumber);
        DecodeEncode(serverName, serverNumber, []);
        assert reply + [] == reply;
        (reply, Replied(clientName, clientNumber, clientNumber + serverNumber))
  }

  /** A client's well-formed request with a number in range gets the server's name and
      number, not the sum, which the server keeps; one outside the range is rejected
      with no reply. */
  lemma HandleClientRequest(serverName: seq<byte>, serverNumber: nat,
                            clientName: seq<byte>, clientNumber: nat, rest: seq<byte>)
    requires Encodable(clientName, clientNumber) && Encodable(serverName, serverNumber)
    ensures var (reply, handled) := Handle(serverName, serverNumber, EncodeMessage(clientName, clientNumber) + rest);
            (InRange(clientNumber) ==>
               handled == Replied(clientName, clientNumber, clientNumber + serverNumber) &&
               DecodeMessage(reply) == Frame(serverName, serverNumber)) &&
            (!InRange(clientNumber) ==> reply == [] && handled == Rejected(clientName, clientNumber))
  {
    DecodeEncode(clientName, clientNumber, rest);
    var empty: seq<byte> := [];
    DecodeEncode(serverName, serverNumber, empty);
    assert EncodeMessage(serverName, serverNumber) + empty == EncodeMessage(serverName, serverNumber);
  }

  /** `Server`: its name, its number, and the flags the handler clears on a bad client:
      `running` and whether the listening socket is still open. */
  class Server {
    const name: seq<byte>
    const serverNumber: nat
    var running: bool
    var listening: bool

    predicate Valid()
      reads this
    {
      InRange(serverNumber)
    }

    constructor (name: seq<byte>, serverNumber: nat)
      requires InRange(serverNumber)
      ensures this.name == name && this.serverNumber == serverNumber
      ensures running && listening && Valid()
    {
      this.name := name;
      this.serverNumber := serverNumber;
      running := true;
      listening := true;
    }

    /** `client_handler`: read a frame, and either stop the server (number out of
        range) or answer with the server's own frame. */
    method ClientHandler(request: seq<byte>) returns (reply: seq<byte>, handled: Handled)
      modifies this
      ensures (reply, handled) == Handle(name, serverNumber, request)
      ensures handled.Rejected? ==> !running && !listening
      ensures !handled.Rejected? ==> running == old(running) && listening == old(listening)
    {
      reply := [];
      var rawLen, afterLen := Recv(request, 2).0, Recv(request, 2).1;
      if |rawLen| == 0 {
        return reply, Silent;
      }
      if |rawLen| < 2 {
        return reply, Unreadable;
      }
      var nameLen := UnpackU16(rawLen);
      var clientName, afterName := Recv(afterLen, nameLen).0, Recv(afterLen, nameLen).1;
      var rawNumber := Recv(afterName, 4).0;
      if |rawNumber| < 4 {
        return reply, Unreadable;
      }
      var clientNumber := UnpackU32(rawNumber);
      if !InRange(clientNumber) {
        running := false;
        listening := false;
        return reply, Rejected(clientName, clientNumber);
      }
      var totalSum := clientNumber + serverNumber;
      if !Encodable(name, serverNumber) {
        return reply, ReplyFailed(clientName, clientNumber, totalSum);
      }
      reply := PackU16(|name|) + name + PackU32(serverNumber);
      handled := Replied(clientName, clientNumber, totalSum);
    }

    /** The accept loop of `run`, with the connections handled one after another:
        serve until a handler stops the server. */
    method Serve(connections: seq<seq<byte>>) returns (replies: seq<seq<byte>>)
      requires running
      modifies this
      ensures replies == ServeAll(name, serverNumber, connections)
      ensures running <==> |replies| == |connections| && NoneRejected(name, serverNumber, connections)
      ensures running ==> listening == old(listening)
      ensures !running ==> !listening
    {
      replies := [];
      var i := 0;
      while running && i < |connections|
        invariant ServeInvariant(name, serverNumber, connections, i, replies, running)
        invariant running ==> listening == old(listening)
        invariant !running ==> !listening
      {
        var reply, handled := ClientHandler(connections[i]);
        assert reply == Handle(name, serverNumber, connections[i]).0 && handled == Handle(name, serverNumber, connections[i]).1;
        ServeStep(name, serverNumber, connections, i, replies);
        replies := replies + [reply];
        i := i + 1;
      }
      NoneRejectedPrefix(name, serverNumber, connections, i);
    }
  }

  /** The state of the accept loop after `i` connections: the server still runs while
      none was rejected, and the replies so far begin the ones `ServeAll` gives. */
  predicate ServeInvariant(serverName: seq<byte>, serverNumber: nat, cs: seq<seq<byte>>, i: nat,
                           replies: seq<seq<byte>>, running: bool)
  {
    i <= |cs| && |replies| == i &&
    (running <==> NoneRejected(serverName, serverNumber, cs[..i])) &&
    (running ==> replies + ServeAll(serverName, serverNumber, cs[i..]) == ServeAll(serverName, serverNumber, cs)) &&
    (!running ==> replies == ServeAll(serverName, serverNumber, cs) && i > 0)
  }

  /** One turn of the accept loop keeps the loop's invariant. */
  lemma ServeStep(serverName: seq<byte>, serverNumber: nat, cs: seq<seq<byte>>, i: nat, replies: seq<seq<byte>>)
    requires i < |cs| && NoneRejected(serverName, serverNumber, cs[..i])
    requires replies + ServeAll(serverName, serverNumber, cs[i..]) == ServeAll(serverName, serverNumber, cs)
    ensures var (reply, handled) := Handle(serverName, serverNumber, cs[i]);
            (NoneRejected(serverName, serverNumber, cs[..i + 1]) <==> !handled.Rejected?) &&
            (!handled.Rejected? ==>
               replies + [reply] + ServeAll(serverName, serverNumber, cs[i + 1..]) == ServeAll(serverName, serverNumber, cs)) &&
            (handled.Rejected? ==> replies + [reply] == ServeAll(serverName, serverNumber, cs))
  {
    ServeAllStep(serverName, serverNumber, cs, i);
    assert cs[..i + 1] == cs[..i] + [cs[i]];
    NoneRejectedSnoc(serverName, serverNumber, cs[..i], cs[i]);
    var (reply, handled) := Handle(serverName, serverNumber, cs[i]);
    if !handled.Rejected? {
      assert replies + ([reply] + ServeAll(serverName, serverNumber, cs[i + 1..])) ==
             replies + [reply] + ServeAll(serverName, serverNumber, cs[i + 1..]);
    }
  }

  /** A rejection among the first `i` connections is a rejection among all of them. */
  lemma NoneRejectedPrefix(serverName: seq<byte>, serverNumber: nat, cs: seq<seq<byte>>, i: nat)
    requires i <= |cs|
    ensures NoneRejected(serverName, serverNumber, cs) ==> NoneRejected(serverName, serverNumber, cs[..i])
    ensures i == |cs| ==> cs[..i] == cs
  {
    assert forall j :: 0 <= j < i ==> cs[..i][j] == cs[j];
  }

  /** The replies of `Serve`, in order: each connection is handled, and a rejected one
      is the last. */
  function ServeAll(serverName: seq<byte>, serverNumber: nat, connections: seq<seq<byte>>): (rs: seq<seq<byte>>)
    ensures |rs| <= |connections|
    decreases |connections|
  {
    if |connections| == 0 then []
    else
      var (reply, handled) := Handle(serverName, serverNumber, connections[0]);
      if handled.Rejected? then [reply] else [reply] + ServeAll(serverName, serverNumber, connections[1..])
  }

  /** No connection in the sequence is rejected. */
  predicate NoneRejected(serverName: seq<byte>, serverNumber: nat, connections: seq<seq<byte>>)
  {
    forall i :: 0 <= i < |connections| ==> !Handle(serverName, serverNumber, connections[i]).1.Rejected?
  }

  lemma NoneRejectedSnoc(serverName: seq<byte>, serverNumber: nat, cs: seq<seq<byte>>, c: seq<byte>)
    ensures NoneRejected(serverName, serverNumber, cs + [c]) <==>
            NoneRejected(serverName, serverNumber, cs) && !Handle(serverName, serverNumber, c).1.Rejected?
  {
    assert (cs + [c])[|cs|] == c;
    assert forall i :: 0 <= i < |cs| ==> (cs + [c])[i] == cs[i];
  }

  lemma {:induction false} ServeAllStep(serverName: seq<byte>, serverNumber: nat, cs: seq<seq<byte>>, i: nat)
    requires i < |cs| && NoneRejected(serverName, serverNumber, cs[..i])
    ensures var (reply, handled) := Handle(serverName, serverNumber, cs[i]);
            ServeAll(serverName, serverNumber, cs[i..]) ==
              if handled.Rejected? then [reply] else [reply] + ServeAll(serverName, serverNumber, cs[i + 1..])
  {
    assert cs[i..][0] == cs[i];
    assert cs[i..][1..] == cs[i + 1..];
  }

  /** A rejected connection is the last one served: no later client gets a reply. */
  lemma {:induction false} StopsAfterRejection(serverName: seq<byte>, serverNumber: nat, cs: seq<seq<byte>>, k: nat)
    requires k < |cs| && Handle(serverName, serverNumber, cs[k]).1.Rejected?
    requires NoneRejected(serverName, serverNumber, cs[..k])
    ensures |ServeAll(serverName, serverNumber, cs)| == k + 1
    decreases k
  {
    if k > 0 {
      assert cs[..k][0] == cs[0];
      assert cs[1..][k - 1] == cs[k];
      assert cs[1..][..k - 1] == cs[..k][1..];
      StopsAfterRejection(serverName, serverNumber, cs[1..], k - 1);
    }
  }

  /** `Server.__init__`: a number outside 1..100 raises `ValueError`. */
  method NewServer(name: seq<byte>, serverNumber: int) returns (r: Result<Server, int>)
    ensures r.Success? <==> InRange(serverNumber)
    ensures r.Failure? ==> r.error == serverNumber
    ensures r.Success? ==> fresh(r.value) && r.value.Valid() && r.value.running &&
                           r.value.name == name && r.value.serverNumber == serverNumber
  {
    if !InRange(serverNumber) {
      return Failure(serverNumber);
    }
    var server := new Server(name, serverNumber);
    return Success(server);
  }

  // ---------------------------------------------------------------------------
  // Client

  /** How `Client.run` ends. */
  datatype ClientOutcome =
    | PackFailed                 // struct.error: a name or number the frame cannot carry
    | InvalidNumber              // ValueError after sending a number outside 1..100
    | NoReply                    // the server closed without answering
    | ReplyUnreadable            // struct.error while reading the reply
    | Summed(serverName: seq<byte>, serverNumber: nat, sum: int)

  /** `Client`: the name it sends. */
  class Client {
    const name: seq<byte>

    constructor (name: seq<byte>)
      ensures this.name == name
    {
      this.name := name;
    }

    /** `run`, given the number typed at the console and the bytes the server sends back:
        what the client sends and how it ends. */
    method Run(clientNumber: int, reply: seq<byte>) returns (sent: seq<byte>, outcome: ClientOutcome)
      ensures outcome == PackFailed <==> !Encodable(name, clientNumber)
      ensures Encodable(name, clientNumber) ==> sent == EncodeMessage(name, clientNumber)
      ensures |name| >= U16Limit ==> sent == []
      ensures |name| < U16Limit && !Encodable(name, clientNumber) ==> sent == PackU16(|name|) + name
      ensures outcome == InvalidNumber <==> Encodable(name, clientNumber) && !InRange(clientNumber)
      ensures Encodable(name, clientNumber) && InRange(clientNumber) ==>
                match DecodeMessage(reply)
                case NoData => outcome == NoReply
                case Truncated => outcome == ReplyUnreadable
                case Frame(serverName, serverNumber) =>
                  outcome == Summed(serverName, serverNumber, clientNumber + serverNumber)
    {
      sent := [];
      if |name| >= U16Limit {
        return sent, PackFailed;
      }
      sent := sent + PackU16(|name|);
      sent := sent + name;
      if !(0 <= clientNumber < U32Limit) {
        return sent, PackFailed;
      }
      sent := sent + PackU32(clientNumber);
      if !InRange(clientNumber) {
        return sent, InvalidNumber;
      }
      var rawLen, afterLen := Recv(reply, 2).0, Recv(reply, 2).1;
      if |rawLen| == 0 {
        return sent, NoReply;
      }
      if |rawLen| < 2 {
        return sent, ReplyUnreadable;
      }
      var nameLen := UnpackU16(rawLen);
      var serverName, afterName := Recv(afterLen, nameLen).0, Recv(afterLen, nameLen).1;
      var rawNumber := Recv(afterName, 4).0;
      if |rawNumber| < 4 {
        return sent, ReplyUnreadable;
      }
      var serverNumber := UnpackU32(rawNumber);
      outcome := Summed(serverName, serverNumber, clientNumber + serverNumber);
    }
  }

  /** The whole exchange: when both numbers are in range, the client's sum is the sum of
      the two numbers and the server's matching count is the same sum. */
  lemma ExchangeAgreesOnSum(clientName: seq<byte>, clientNumber: nat, serverName: seq<byte>, serverNumber: nat)
    requires Encodable(clientName, clientNumber) && Encodable(serverName, serverNumber)
    requires InRange(clientNumber) && InRange(serverNumber)
    ensures var (reply, handled) := Handle(serverName, serverNumber, EncodeMessage(clientName, clientNumber));
            handled.Replied? && handled.sum == clientNumber + serverNumber &&
            reply == EncodeMessage(serverName, serverNumber) &&
            DecodeMessage(reply) == Frame(serverName, serverNumber)
  {
    var empty: seq<byte> := [];
    assert EncodeMessage(clientName, clientNumber) + empty == EncodeMessage(clientName, clientNumber);
    HandleClientRequest(serverName, serverNumber, clientName, clientNumber, empty);
  }
}
