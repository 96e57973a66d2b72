/**
 The remote-procedure-call server: messages as `command|content`, frames as an eight-byte big-endian length
 and that many bytes, and the loop that answers one client.
 */
module RpcServer {
  import opened Tracees
  import opened HexCodec

  type Bytes = seq<byte>

  datatype Message = Message(command: Bytes, content: Bytes)

  const BAR: byte := 124

  const SUCCESS: Bytes := [115, 117, 99, 99, 101, 115, 115]
  const FAIL: Bytes := [102, 97, 105, 108]
  const ERROR: Bytes := [101, 114, 114, 111, 114]
  // the texts that precede the message of an exception and an unknown command
  const EXCEPTION_TEXT: Bytes := [
    0xE5, 0xA4, 0x84, 0xE7, 0x90, 0x86, 0xE5, 0x91, 0xBD, 0xE4, 0xBB, 0xA4, 0xE6, 0x97, 0xB6, 0xE5, 0x8F, 0x91, 0xE7,
    0x94, 0x9F, 0xE5, 0xBC, 0x82, 0xE5, 0xB8, 0xB8, 0x3A, 0x20]
  const UNKNOWN_TEXT: Bytes := [0xE6, 0x9C, 0xAA, 0xE7, 0x9F, 0xA5, 0xE5, 0x91, 0xBD, 0xE4, 0xBB, 0xA4, 0x3A, 0x20]

  const LENGTH_LIMIT: nat := 0x1_0000_0000_0000_0000

  // ---------- messages ----------

  function Serialize(m: Message): Bytes {
    m.command + [BAR] + m.content
  }

  function FindBar(data: Bytes): (i: nat)
    ensures i <= |data| && BAR !in data[..i] && (i < |data| ==> data[i] == BAR)
  {
    if data == [] || data[0] == BAR then 0
    else
      var i := 1 + FindBar(data[1..]);
      assert data[..i] == [data[0]] + data[1..][..i - 1];
      i
  }

  function Deserialize(data: Bytes): Message {
    var i := FindBar(data);
    if i == |data| then Message([], []) else Message(data[..i], data[i + 1..])
  }

  lemma {:induction false} FindBarAt(data: Bytes, k: nat)
    requires k < |data| && data[k] == BAR && BAR !in data[..k]
    ensures FindBar(data) == k
  {
    if k > 0 {
      assert data[0] == data[..k][0] && data[1..][..k - 1] == data[..k][1..];
      FindBarAt(data[1..], k - 1);
    }
  }

  /** A message comes back from its bytes exactly when its command has no bar in it. */
  lemma SerializedComesBackIff(m: Message)
    ensures Deserialize(Serialize(m)) == m <==> BAR !in m.command
  {
    var data := Serialize(m);
    if BAR !in m.command {
      assert data[..|m.command|] == m.command && data[|m.command| + 1..] == m.content;
      FindBarAt(data, |m.command|);
    }
  }

  // ---------- frames ----------

  function Frame(data: Bytes): Bytes {
    Wire(|data|, 8) + data
  }

  /** The content of the first frame and what follows it; no content if there is no complete, non-empty frame. */
  function FirstFrame(stream: Bytes): (r: (Bytes, Bytes))
    ensures r.0 != [] ==> |r.1| < |stream|
  {
    if |stream| < 8 then ([], [])
    else
      var length := BigEndianValue(stream[..8]);
      if length == 0 then ([], stream[8..])
      else if |stream| < 8 + length then ([], [])
      else (stream[8..8 + length], stream[8 + length..])
  }

  /** The contents of the frames up to the first that is empty or incomplete. */
  function Frames(stream: Bytes): seq<Bytes>
    decreases |stream|
  {
    var (data, rest) := FirstFrame(stream);
    if data == [] then [] else [data] + Frames(rest)
  }

  function EncodeAll(messages: seq<Message>): Bytes {
    if messages == [] then [] else Frame(Serialize(messages[0])) + EncodeAll(messages[1..])
  }

  function SerializeAll(messages: seq<Message>): (r: seq<Bytes>)
    ensures |r| == |messages| && forall i :: 0 <= i < |messages| ==> r[i] == Serialize(messages[i])
  {
    if messages == [] then [] else [Serialize(messages[0])] + SerializeAll(messages[1..])
  }

  function DeserializeAll(frames: seq<Bytes>): seq<Message> {
    seq(|frames|, i requires 0 <= i < |frames| => Deserialize(frames[i]))
  }

  /** Every message fits the length field. */
  ghost predicate Encodable(messages: seq<Message>) {
    forall i :: 0 <= i < |messages| ==> |Serialize(messages[i])| < LENGTH_LIMIT
  }

  lemma LimitIsEightBytes()
    ensures LENGTH_LIMIT == Pow(256, 8)
  {
    assert Pow(256, 8) == 256 * Pow(256, 7) == 65536 * Pow(256, 6) == 16777216 * Pow(256, 5);
    assert Pow(256, 5) == 256 * Pow(256, 4) == 65536 * Pow(256, 3) == 16777216 * Pow(256, 2);
    assert Pow(256, 2) == 256 * Pow(256, 1) == 65536 * Pow(256, 0);
  }

  lemma FirstOfFramed(data: Bytes, rest: Bytes)
    requires 0 < |data| < LENGTH_LIMIT
    ensures FirstFrame(Frame(data) + rest) == (data, rest)
  {
    LimitIsEightBytes();
    SwappingTwice(|data|, 8);
    var stream := Frame(data) + rest;
    assert stream[..8] == Wire(|data|, 8);
    assert stream[8..8 + |data|] == data && stream[8 + |data|..] == rest;
  }

  /** A frame is the length of its data in eight bytes, the highest first, and the data. */
  lemma FrameLayout(data: Bytes, j: nat)
    requires |data| < LENGTH_LIMIT && j < 8
    ensures |Frame(data)| == 8 + |data| && Frame(data)[8..] == data
    ensures Frame(data)[j] == |data| / Pow(256, 7 - j) % 256
  {
    LimitIsEightBytes();
    WireAt(|data|, 8, j);
  }

  /** What ends the frames: less than a length, a length of zero, or less than the length says. */
  lemma FramesEndAt(stream: Bytes)
    ensures |stream| < 8 ==> Frames(stream) == []
    ensures |stream| >= 8 ==>
              (Frames(stream) == [] <==> BigEndianValue(stream[..8]) == 0 || |stream| < 8 + BigEndianValue(stream[..8]))
  {
  }

  lemma FramesOfFramed(data: Bytes, rest: Bytes)
    requires 0 < |data| < LENGTH_LIMIT
    ensures Frames(Frame(data) + rest) == [data] + Frames(rest)
  {
    FirstOfFramed(data, rest);
  }

  /** Reading the concatenated frames of any messages gives back the messages' bytes, whatever follows them. */
  lemma {:induction false} FramesOfEncoded(messages: seq<Message>, tail: Bytes)
    requires Encodable(messages)
    ensures Frames(EncodeAll(messages) + tail) == SerializeAll(messages) + Frames(tail)
  {
    if messages == [] {
      assert EncodeAll(messages) + tail == tail;
      assert SerializeAll(messages) + Frames(tail) == Frames(tail);
    } else {
      var data, encoded := Serialize(messages[0]), EncodeAll(messages[1..]);
      var serialized := SerializeAll(messages[1..]);
      FramesOfEncoded(messages[1..], tail);
      FramesOfFramed(data, encoded + tail);
      Regrouped(Frame(data), encoded, tail);
      Regrouped([data], serialized, Frames(tail));
    }
  }

  lemma Regrouped<T>(a: seq<T>, b: seq<T>, c: seq<T>)
    ensures (a + b) + c == a + (b + c)
  {
  }

  lemma FramesOfAllEncoded(messages: seq<Message>)
    requires Encodable(messages)
    ensures Frames(EncodeAll(messages)) == SerializeAll(messages)
  {
    FramesOfEncoded(messages, []);
    assert EncodeAll(messages) + [] == EncodeAll(messages);
    assert Frames([]) == [];
    assert SerializeAll(messages) + [] == SerializeAll(messages);
  }

  /** Decoding the concatenated frames of messages without a bar in their commands gives back the messages. */
  lemma DecodeEncoded(messages: seq<Message>)
    requires Encodable(messages) && forall i :: 0 <= i < |messages| ==> BAR !in messages[i].command
    ensures DeserializeAll(Frames(EncodeAll(messages))) == messages
  {
    FramesOfAllEncoded(messages);
    forall i | 0 <= i < |messages| ensures DeserializeAll(SerializeAll(messages))[i] == messages[i] {
      SerializedComesBackIff(messages[i]);
    }
  }

  lemma EncodeFirst(m: Message, rest: seq<Message>)
    ensures EncodeAll([m] + rest) == Frame(Serialize(m)) + EncodeAll(rest)
  {
    assert ([m] + rest)[1..] == rest;
  }

  lemma {:induction false} EncodeAllAppend(messages: seq<Message>, m: Message)
    ensures EncodeAll(messages + [m]) == EncodeAll(messages) + Frame(Serialize(m))
  {
    if messages == [] {
      EncodeFirst(m, []);
      assert messages + [m] == [m] + [];
    } else {
      var first, rest := messages[0], messages[1..];
      EncodeAllAppend(rest, m);
      EncodeFirst(first, rest + [m]);
      assert messages + [m] == [first] + (rest + [m]);
      Regrouped(Frame(Serialize(first)), EncodeAll(rest), Frame(Serialize(m)));
    }
  }

  // ---------- answering ----------

  /** What a handler does: return a status of either type, or throw. */
  datatype HandlerResult = Succeeded(text: Bytes) | Unsuccessful(text: Bytes) | Exception(what: Bytes)

  /** A handler may answer differently at every request: it is given the number of requests served before. */
  type Handlers = map<Bytes, (nat, Bytes) -> HandlerResult>

  /** The part of a text that the C library sees. */
  function CText(s: Bytes): Bytes {
    if s == [] || s[0] == 0 then [] else [s[0]] + CText(s[1..])
  }

  function Reply(handlers: Handlers, n: nat, data: Bytes): Message {
    var m := Deserialize(data);
    if m.command !in handlers then Message(ERROR, UNKNOWN_TEXT + m.command)
    else
      match handlers[m.command](n, m.content)
      case Succeeded(text) => Message(SUCCESS, CText(text))
      case Unsuccessful(text) => Message(FAIL, CText(text))
      case Exception(what) => Message(ERROR, EXCEPTION_TEXT + CText(what))
  }

  /** One reply for each frame, in order. */
  function Replies(handlers: Handlers, frames: seq<Bytes>): (r: seq<Message>)
    ensures |r| == |frames|
  {
    if frames == [] then []
    else Replies(handlers, frames[..|frames| - 1]) + [Reply(handlers, |frames| - 1, frames[|frames| - 1])]
  }

  lemma {:induction false} ReplyAt(handlers: Handlers, frames: seq<Bytes>, i: nat)
    requires i < |frames|
    ensures Replies(handlers, frames)[i] == Reply(handlers, i, frames[i])
  {
    if i < |frames| - 1 { ReplyAt(handlers, frames[..|frames| - 1], i); }
  }

  /** A client that decodes what it receives gets exactly one reply for each frame it sent, in order. */
  lemma RepliesDecode(handlers: Handlers, frames: seq<Bytes>)
    requires Encodable(Replies(handlers, frames))
    ensures DeserializeAll(Frames(EncodeAll(Replies(handlers, frames)))) == Replies(handlers, frames)
  {
    forall i | 0 <= i < |frames| ensures BAR !in Replies(handlers, frames)[i].command {
      ReplyAt(handlers, frames, i);
    }
    DecodeEncoded(Replies(handlers, frames));
  }

  // ---------- what a client is told ----------

  /** The frame asks for the command with the content: both are around its first bar, or empty if it has none. */
  ghost predicate Asks(frame: Bytes, command: Bytes, content: Bytes) {
    || (frame == command + [124] + content && 124 !in command)
    || (124 !in frame && command == [] && content == [])
  }

  /** `t` is the text up to its first NUL. */
  ghost predicate UpToNul(text: Bytes, t: Bytes) {
    t <= text && 0 !in t && (t == text || text[|t|] == 0)
  }

  /** The reply that the `n`-th request should get: success, fail or error, and the text that goes with it. */
  ghost predicate Answered(handlers: Handlers, n: nat, command: Bytes, content: Bytes, reply: Message) {
    if command !in handlers then
      && reply.command == [101, 114, 114, 111, 114]
      && reply.content == [0xE6, 0x9C, 0xAA, 0xE7, 0x9F, 0xA5, 0xE5, 0x91, 0xBD, 0xE4, 0xBB, 0xA4, 0x3A, 0x20] + command
    else
      match handlers[command](n, content)
      case Succeeded(text) => reply.command == [115, 117, 99, 99, 101, 115, 115] && UpToNul(text, reply.content)
      case Unsuccessful(text) => reply.command == [102, 97, 105, 108] && UpToNul(text, reply.content)
      case Exception(what) =>
        && reply.command == [101, 114, 114, 111, 114]
        && exists t :: UpToNul(what, t) && reply.content == [
             0xE5, 0xA4, 0x84, 0xE7, 0x90, 0x86, 0xE5, 0x91, 0xBD, 0xE4, 0xBB, 0xA4, 0xE6, 0x97, 0xB6, 0xE5, 0x8F, 0x91,
             0xE7, 0x94, 0x9F, 0xE5, 0xBC, 0x82, 0xE5, 0xB8, 0xB8, 0x3A, 0x20] + t
  }

  lemma {:induction false} CTextIs(text: Bytes)
    ensures UpToNul(text, CText(text))
  {
    if text != [] && text[0] != 0 {
      CTextIs(text[1..]);
      var t := CText(text[1..]);
      assert CText(text) == [text[0]] + t && text == [text[0]] + text[1..];
    }
  }

  lemma AskedIsDeserialized(frame: Bytes, command: Bytes, content: Bytes)
    requires Asks(frame, command, content)
    ensures Deserialize(frame) == Message(command, content)
  {
    if frame == command + [124] + content && 124 !in command {
      SerializedComesBackIff(Message(command, content));
      assert Serialize(Message(command, content)) == frame;
    } else {
      assert FindBar(frame) == |frame|;
    }
  }

  lemma ReplyAnswers(handlers: Handlers, n: nat, frame: Bytes, command: Bytes, content: Bytes)
    requires Asks(frame, command, content)
    ensures Answered(handlers, n, command, content, Reply(handlers, n, frame))
  {
    AskedIsDeserialized(frame, command, content);
    if command in handlers {
      match handlers[command](n, content)
      case Succeeded(text) => CTextIs(text);
      case Unsuccessful(text) => CTextIs(text);
      case Exception(what) => CTextIs(what);
    }
  }

  /** What a client decodes from the output: for each request in turn, whatever its bytes, the reply it should get. */
  lemma ClientIsTold(handlers: Handlers, frames: seq<Bytes>, output: Bytes)
    requires Encodable(Replies(handlers, frames)) && output == EncodeAll(Replies(handlers, frames))
    ensures Told(handlers, frames, DeserializeAll(Frames(output)))
  {
    RepliesDecode(handlers, frames);
    forall i, command, content | 0 <= i < |frames| && Asks(frames[i], command, content)
      ensures Answered(handlers, i, command, content, DeserializeAll(Frames(output))[i])
    {
      ReplyAt(handlers, frames, i);
      ReplyAnswers(handlers, i, frames[i], command, content);
    }
  }

  ghost predicate Told(handlers: Handlers, frames: seq<Bytes>, replies: seq<Message>) {
    && |replies| == |frames|
    && forall i, command, content :: 0 <= i < |frames| && Asks(frames[i], command, content) ==>
         Answered(handlers, i, command, content, replies[i])
  }

  // ---------- the connection ----------

  /** The number that bytes stand for on the host, least significant first. */
  function HostValue(s: Bytes): (v: nat) {
    if s == [] then 0 else s[0] + 256 * HostValue(s[1..])
  }

  lemma {:induction false} HostBytes(s: Bytes)
    ensures LittleEndian(HostValue(s), |s|) == s && HostValue(s) < Pow(256, |s|)
  {
    if s != [] {
      HostBytes(s[1..]);
      LowByte(HostValue(s[1..]), s[0]);
      assert HostValue(s) == HostValue(s[1..]) * 256 + s[0];
      assert s == [s[0]] + s[1..];
    }
  }

  class Connection {
    var input: Bytes
    var output: Bytes
    ghost var faults: nat

    constructor (input: Bytes)
      ensures this.input == input && output == [] && faults == 0
    {
      this.input, output, faults := input, [], 0;
    }

    // recv with MSG_WAITALL: all that is asked for, or what there is before the end of the stream, or an error
    method Receive(n: nat) returns (data: Bytes)
      modifies this`input, this`faults
      ensures faults == old(faults) ==> data == old(input)[..Min(n, |old(input)|)]
                                        && input == old(input)[Min(n, |old(input)|)..]
      ensures faults == old(faults) || (faults > old(faults) && data == [] && input == old(input))
    {
      var refused: bool := *;
      if refused {
        faults := faults + 1;
        return [];
      }
      var k := Min(n, |input|);
      data, input := input[..k], input[k..];
    }

    // send: everything, or a proper prefix
    method Send(data: Bytes) returns (ok: bool)
      modifies this`output, this`faults
      ensures old(output) <= output
      ensures ok ==> output == old(output) + data && faults == old(faults)
      ensures !ok ==> output < old(output) + data && faults > old(faults)
    {
      var moved: int := *;
      if 0 <= moved < |data| {
        output, faults := output + data[..moved], faults + 1;
        return false;
      }
      output := output + data;
      return true;
    }

    method ReadMessage() returns (data: Bytes)
      modifies this`input, this`faults
      ensures faults >= old(faults)
      ensures faults == old(faults) ==> data == FirstFrame(old(input)).0
      ensures faults == old(faults) && data != [] ==> input == FirstFrame(old(input)).1
      ensures faults > old(faults) ==> data == []
    {
      var header := Receive(8);
      if |header| != 8 { return []; }
      HostBytes(header);
      var length := SwapBytes(HostValue(header), 8);
      if length == 0 { return []; }
      data := Receive(length);
      if |data| != length { return []; }
    }

    method SendMessage(data: Bytes) returns (ok: bool)
      requires |data| < LENGTH_LIMIT
      modifies this`output, this`faults
      ensures old(output) <= output
      ensures ok ==> output == old(output) + Frame(data) && faults == old(faults)
      ensures !ok ==> output < old(output) + Frame(data) && faults > old(faults)
    {
      LimitIsEightBytes();
      var netLength := SwapBytes(|data|, 8);
      ok := Send(LittleEndian(netLength, 8) + data);
    }

    /** Without a fault, exactly one reply goes out for each complete non-empty frame up to the first that is
        empty or incomplete, in order. With one, the output is the replies to the first frames, and perhaps a proper
        part of the next reply. */
    method HandleClient(handlers: Handlers) returns (ghost served: nat)
      requires output == [] && Encodable(Replies(handlers, Frames(input)))
      modifies this
      ensures served <= |Frames(old(input))|
      ensures var all := Replies(handlers, Frames(old(input)));
              var sent := EncodeAll(all[..served]);
              || output == sent
              || (served < |all| && sent <= output < sent + Frame(Serialize(all[served])))
      ensures faults == old(faults) ==> served == |Frames(old(input))|
                                        && output == EncodeAll(Replies(handlers, Frames(old(input))))
      ensures faults == old(faults) ==> Told(handlers, Frames(old(input)), DeserializeAll(Frames(output)))
    {
      ghost var frames := Frames(input);
      served := 0;
      var requests := 0;
      while true
        invariant faults == old(faults) && requests == served <= |frames|
        invariant Frames(input) == frames[served..]
        invariant output == EncodeAll(Replies(handlers, frames)[..served])
        decreases |frames| - served
      {
        ghost var stream := input;
        var data := ReadMessage();
        if data == [] {
          NoMoreFrames(handlers, frames, served, stream, faults == old(faults));
          if faults == old(faults) { ClientIsTold(handlers, frames, output); }
          return;
        }
        NextFrame(frames, served, stream);
        var response := Answer(handlers, requests, data);
        OneMoreReply(handlers, frames, served);
        var ok := SendMessage(Serialize(response));
        if !ok { return; }
        served, requests := served + 1, requests + 1;
      }
    }

    // The dispatch to a handler
    method Answer(handlers: Handlers, n: nat, data: Bytes) returns (response: Message)
      ensures response == Reply(handlers, n, data)
    {
      var message := Deserialize(data);
      if message.command in handlers {
        var handler := handlers[message.command];
        match handler(n, message.content) {
          case Succeeded(text) => response := Message(SUCCESS, CText(text));
          case Unsuccessful(text) => response := Message(FAIL, CText(text));
          case Exception(what) => response := Message(ERROR, EXCEPTION_TEXT + CText(what));
        }
      } else {
        response := Message(ERROR, UNKNOWN_TEXT + message.command);
      }
    }

    lemma NextFrame(frames: seq<Bytes>, served: nat, stream: Bytes)
      requires served <= |frames| && Frames(stream) == frames[served..] && FirstFrame(stream).0 != []
      ensures served < |frames| && frames[served] == FirstFrame(stream).0
      ensures Frames(FirstFrame(stream).1) == frames[served + 1..]
    {
      var (data, rest) := FirstFrame(stream);
      assert Frames(stream) == [data] + Frames(rest);
      assert frames[served..][0] == data && frames[served..][1..] == Frames(rest);
    }

    lemma OneMoreReply(handlers: Handlers, frames: seq<Bytes>, served: nat)
      requires served < |frames|
      ensures var all, m := Replies(handlers, frames), Reply(handlers, served, frames[served]);
              all[served] == m
              && EncodeAll(all[..served + 1]) == EncodeAll(all[..served]) + Frame(Serialize(m))
    {
      var all := Replies(handlers, frames);
      ReplyAt(handlers, frames, served);
      assert all[..served + 1] == all[..served] + [all[served]];
      EncodeAllAppend(all[..served], all[served]);
    }

    lemma NoMoreFrames(handlers: Handlers, frames: seq<Bytes>, served: nat, stream: Bytes, fine: bool)
      requires served <= |frames| && Frames(stream) == frames[served..]
      requires fine ==> FirstFrame(stream).0 == []
      ensures fine ==> served == |frames| && Replies(handlers, frames)[..served] == Replies(handlers, frames)
    {
    }
  }
}
