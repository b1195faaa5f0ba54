/**
 The client's side of the echo protocol: client/src/conn/AsyncTcpClient.cpp,
 client/src/echo/EchoCommandHandler.cpp and the client half of
 common/include/acs/message/EchoHandler.hpp.
 */
module Clients {
  import opened Basics
  import opened Utf8
  import opened Messages
  import opened Framing
  import opened Protocols
  import opened Readers
  import opened Writers
  import opened Commands

  /** `AsyncTcpClient::send`: serialize, then offer the frame to the writer. */
  function SendMessage(w: WriterState, m: ChatMessage): (WriterState, Option<Fault>) {
    match SerializeOutcome(m)
    case Throws(f) => (w, Some(f))
    case Ok(frame) => (WriteOn(w, frame).0, None)
  }

  /** The request built for the `count`-th echo command; the id field keeps the low 32 bits. */
  function RequestAt(count: nat, text: Bytes): ChatMessage {
    Request(count % TWO32, text)
  }

  /** `EchoCommandHandler::handleCommand` on the static counter and the client's writer. */
  function EchoCommand(count: nat, w: WriterState, text: Bytes): (nat, WriterState, Option<Fault>) {
    var (next, fault) := SendMessage(w, RequestAt(count, text));
    (if fault.None? then (count + 1) % TWO64 else count, next, fault)
  }

  /**
   What a command does: below 2 GiB it is counted, and an idle writer starts on the frame of a request
   with the command's text and the counter's low 32 bits; a busy one drops it. Above, `serialize` throws
   and nothing changes.
   */
  lemma CommandExactly(count: nat, w: WriterState, text: Bytes)
    ensures var (next, writer, fault) := EchoCommand(count, w, text);
      var payload := EncodeChat(ChatMessage(count % TWO32, text, 4));
      if |payload| > INT_MAX then (next, writer, fault) == (count, w, Some(SerializeFailed))
      else
        && next == (count + 1) % TWO64 && fault == None
        && writer == if w.busy then w else WriterState(true, FrameOf(payload), 0)
  {
    hide EncodeChat, SerializeOutcome, FrameOf;
    EchoSerializes(ChatMessage(count % TWO32, text, 4));
  }

  /** `_handleRead` and `handleClient`: the response that is shown, or what is thrown. */
  function ShowOutcome(cache: FramePrefix, data: Bytes): Outcome<ChatMessage> {
    match DeserializeOutcome(cache, data)
    case Throws(f) => Throws(f)
    case Ok(m) => if m.typ == ECHO_RESPONSE then Ok(m) else Throws(AssertionFailed)
  }

  /**
   Whatever a peer sends, exactly the payloads that are announced as echo messages and parse to a
   response are shown, and their text is UTF-8; a wrong type fails an assertion, malformed bytes throw.
   */
  lemma ShowsOnlyResponses(cache: FramePrefix, data: Bytes)
    ensures ShowOutcome(cache, data) ==
      if cache.typ != 1 then Throws(AssertionFailed)
      else if ParseChat(data) == None then Throws(BadMessage)
      else if ParseChat(data).value.typ != 5 then Throws(AssertionFailed)
      else Ok(ParseChat(data).value)
    ensures ShowOutcome(cache, data).Ok? ==> ValidUtf8(ShowOutcome(cache, data).value.text)
  {
    hide ParseChat, ValidUtf8;
    ParsedTextIsUtf8(data);
  }

  class AsyncTcpClient {
    const protocol: Protocol
    const writer: AsyncWriter
    const reader: AsyncReader

    constructor (protocol: Protocol)
      ensures this.protocol == protocol
      ensures writer.View() == NEW_WRITER && reader.View() == NewReader(MAX_READ_BUFFER_SIZE_BYTES)
      ensures fresh(writer) && fresh(reader)
    {
      this.protocol := protocol;
      writer := new AsyncWriter();
      reader := new AsyncReader(MAX_READ_BUFFER_SIZE_BYTES);
    }

    /** Sending leaves the cache that incoming messages depend on alone. */
    method Send(m: ChatMessage) returns (fault: Option<Fault>)
      requires protocol.Valid()
      modifies protocol`serCache, writer
      ensures (writer.View(), fault) == SendMessage(old(writer.View()), m)
    {
      hide SerializeOutcome;
      var wireMessage := protocol.Serialize(m);
      if wireMessage.Throws? {
        return Some(wireMessage.fault);
      }
      var _ := writer.Write(wireMessage.value);
      return None;
    }

    method HandleRead(data: Bytes) returns (r: Outcome<ChatMessage>)
      ensures r == ShowOutcome(protocol.deserCache, data)
    {
      hide DeserializeOutcome;
      var message := protocol.Deserialize(data);
      if message.Ok? && message.value.typ != ECHO_RESPONSE {
        return Throws(AssertionFailed);
      }
      return message;
    }
  }

  class EchoCommandHandler {
    var echoCommandId: nat

    constructor ()
      ensures echoCommandId == 0
    {
      echoCommandId := 0;
    }

    method HandleCommand(text: Bytes, client: AsyncTcpClient) returns (fault: Option<Fault>)
      requires client.protocol.Valid()
      modifies this, client.protocol`serCache, client.writer
      ensures (echoCommandId, client.writer.View(), fault) ==
        EchoCommand(old(echoCommandId), old(client.writer.View()), text)
    {
      hide SerializeOutcome;
      var echoMessage := CLEAR_MESSAGE;
      echoMessage := echoMessage.(id := echoCommandId % TWO32);
      echoMessage := echoMessage.(text := text);
      echoMessage := echoMessage.(typ := ECHO_REQUEST);
      fault := client.Send(echoMessage);
      if fault.None? {
        echoCommandId := (echoCommandId + 1) % TWO64;
      }
    }
  }

  class CommandDispatcher {
    const client: AsyncTcpClient
    const handler: EchoCommandHandler

    constructor (client: AsyncTcpClient, handler: EchoCommandHandler)
      ensures this.client == client && this.handler == handler
    {
      this.client := client;
      this.handler := handler;
    }

    /** An echo command reaches the handler with its bare text; any other line changes nothing. */
    method DispatchCommand(line: Bytes) returns (fault: Option<Fault>)
      requires client.protocol.Valid() && |line| < NPOS
      modifies handler, client.protocol`serCache, client.writer
      ensures (handler.echoCommandId, client.writer.View(), fault) ==
        match Dispatch(line)
        case Some(text) => EchoCommand(old(handler.echoCommandId), old(client.writer.View()), text)
        case None => (old(handler.echoCommandId), old(client.writer.View()), None)
    {
      hide Dispatch, SendMessage;
      var text := ParseCommand(line);
      if text.Some? {
        fault := handler.HandleCommand(text.value, client);
      } else {
        fault := None;
      }
    }
  }
}
