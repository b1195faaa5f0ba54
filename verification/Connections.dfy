/**
 The server's side of one connection: server/src/conn/TcpConnection.cpp,
 server/src/echo/EchoClientHandler.cpp and the server half of
 common/include/acs/message/EchoHandler.hpp.
 */
module Connections {
  import opened Basics
  import opened Utf8
  import opened Messages
  import opened Framing
  import opened Protocols
  import opened Readers
  import opened Writers

  /** A string of ASCII characters as bytes. */
  function FromAscii(s: string): (r: Bytes)
    ensures |r| == |s| && forall i :: 0 <= i < |r| ==> r[i] <= 0x7F && (s[i] as int < 128 ==> r[i] == s[i] as int)
  {
    seq(|s|, i requires 0 <= i < |s| => s[i] as int % 128)
  }

  function WelcomeText(): Bytes {
    FromAscii("Welcome to ACS chat!\n" + "Just type your message.")
  }

  function Welcome(): ChatMessage { ChatMessage(1, WelcomeText(), ECHO_RESPONSE) }

  /** `_handleRead` and `handleServer`: the frame of the response, or what is thrown. */
  function ReplyOutcome(cache: FramePrefix, data: Bytes): Outcome<Bytes> {
    match DeserializeOutcome(cache, data)
    case Throws(f) => Throws(f)
    case Ok(m) => if m.typ == ECHO_REQUEST then SerializeOutcome(Response(m)) else Throws(AssertionFailed)
  }

  /**
   Whatever a peer sends, the server answers exactly the payloads that parse to an echo request and
   whose answer can be framed, and the answer parses back to the same id and text as a response; a wrong
   type fails an assertion, malformed bytes and an answer that is too long throw.
   */
  lemma AnswersDecode(cache: FramePrefix, data: Bytes)
    ensures ReplyOutcome(cache, data).Ok? <==>
      && cache.typ == ECHO && ParseChat(data).Some? && ParseChat(data).value.typ == ECHO_REQUEST
      && |EncodeChat(ParseChat(data).value)| <= INT_MAX
    ensures ReplyOutcome(cache, data).Ok? ==>
      var m, frame := ParseChat(data).value, ReplyOutcome(cache, data).value;
      && |frame| >= PREFIX_SIZE
      && ParsePrefix(frame[..PREFIX_SIZE]) == Some(FramePrefix(|frame| - PREFIX_SIZE, ECHO))
      && ParseChat(frame[PREFIX_SIZE..]) == Some(m.(typ := ECHO_RESPONSE))
    ensures ReplyOutcome(cache, data).Throws? ==>
      ReplyOutcome(cache, data).fault ==
        if cache.typ != ECHO then AssertionFailed
        else if ParseChat(data) == None then BadMessage
        else if ParseChat(data).value.typ != ECHO_REQUEST then AssertionFailed
        else SerializeFailed
  {
    hide ParseChat, EncodeChat, ParsePrefix, SerializeOutcome, ValidUtf8;
    if cache.typ == ECHO && ParseChat(data).Some? && ParseChat(data).value.typ == ECHO_REQUEST {
      var m := ParseChat(data).value;
      ParsedTextIsUtf8(data);
      EchoIsOneByteEdit(m);
      SerializeExactly(Response(m));
      if SerializeOutcome(Response(m)).Ok? {
        FrameRoundTrip(Response(m));
      }
    }
  }

  lemma WelcomeFits()
    ensures |EncodeChat(Welcome())| <= MAX_READ_BUFFER_SIZE_BYTES
    ensures PayloadOk(EncodeChat(Welcome()))
    ensures ValidUtf8(Welcome().text)
    ensures |Welcome().text| == 44
  {
    hide EncodeChat, FromAscii;
    ByteSizeIsLength(Welcome());
    AsciiIsUtf8(WelcomeText());
  }

  /** The message a client is shown first, character by character. */
  lemma WelcomeReads()
    ensures var line := "Welcome to ACS chat!\n" + "Just type your message.";
      && Welcome().id == 1 && Welcome().typ == 5 && |Welcome().text| == |line|
      && forall i :: 0 <= i < |line| ==> Welcome().text[i] == line[i] as int
  {
    hide FromAscii;
    var line := "Welcome to ACS chat!\n" + "Just type your message.";
    assert forall i :: 0 <= i < |line| ==> line[i] as int < 128;
  }

  /**
   `EchoClientHandler::handleStart` builds its frame by hand; the result is the frame that
   `serialize` makes of the same message.
   */
  method BuildWelcome() returns (output: Bytes)
    ensures SerializeOutcome(Welcome()) == Ok(output) && output == FrameOf(EncodeChat(Welcome()))
  {
    hide EncodeChat, EncodePrefix, WelcomeText, SerializeOutcome, ValidUtf8;
    var message := CLEAR_MESSAGE;
    message := message.(id := 1);
    message := message.(text := WelcomeText());
    message := message.(typ := ECHO_RESPONSE);
    WelcomeFits();
    var framePrefix := CLEAR_PREFIX;
    framePrefix := framePrefix.(size := |EncodeChat(message)|);
    framePrefix := framePrefix.(typ := ECHO);
    var prefixSize := |EncodePrefix(framePrefix)|;
    output := EncodePrefix(framePrefix);
    output := output + EncodeChat(message);
    assert |output| == prefixSize + framePrefix.size;
    EchoSerializes(Welcome());
  }

  class TcpConnection {
    const id: nat
    const protocol: Protocol
    const reader: AsyncReader
    var sendMsg: Bytes
    var writeInProgress: bool
    var length: nat
    var sent: nat
    ghost var attached: bool

    ghost function View(): SenderState
      reads this
    {
      SenderState(writeInProgress, sendMsg, length, sent, attached)
    }

    constructor (id: nat)
      ensures this.id == id && View() == NEW_SENDER
      ensures protocol.Valid() && reader.View() == NewReader(MAX_READ_BUFFER_SIZE_BYTES)
      ensures fresh(protocol) && fresh(reader)
    {
      this.id := id;
      protocol := new Protocol();
      reader := new AsyncReader(MAX_READ_BUFFER_SIZE_BYTES);
      sendMsg, writeInProgress, length, sent, attached := [], false, 0, 0, false;
    }

    method DoSend()
      modifies this
      ensures View() ==
        if old(writeInProgress) then old(View()) else SenderState(true, old(sendMsg), |old(sendMsg)|, 0, true)
    {
      if writeInProgress {
        return;
      }
      writeInProgress := true;
      length, sent, attached := |sendMsg|, 0, true;
    }

    /** The message replaces the buffer of a write in progress even though the guard then refuses to write it. */
    method Send(message: Bytes)
      modifies this
      ensures View() == SendOn(old(View()), message)
      ensures sendMsg == message && writeInProgress
      ensures if old(writeInProgress) then !attached && (length, sent) == (old(length), old(sent))
        else attached && (length, sent) == (|message|, 0)
    {
      attached := attached && !writeInProgress;
      sendMsg := message;
      DoSend();
    }

    /** Clears the guard whether or not the write succeeded. */
    method HandleWrite()
      modifies this`writeInProgress
      ensures View() == old(View()).(busy := false)
    {
      writeInProgress := false;
    }

    /** Echoes one request. */
    method HandleRead(data: Bytes) returns (fault: Option<Fault>)
      requires protocol.Valid()
      modifies this, protocol`serCache
      ensures match ReplyOutcome(protocol.deserCache, data)
        case Throws(f) => fault == Some(f) && View() == old(View())
        case Ok(frame) => fault == None && View() == SendOn(old(View()), frame)
    {
      hide SerializeOutcome, DeserializeOutcome;
      var message := protocol.Deserialize(data);
      if message.Throws? {
        return Some(message.fault);
      }
      if message.value.typ != ECHO_REQUEST {
        return Some(AssertionFailed);
      }
      var echoMessage := message.value.(typ := ECHO_RESPONSE);
      var wireMessage := protocol.Serialize(echoMessage);
      if wireMessage.Throws? {
        return Some(wireMessage.fault);
      }
      Send(wireMessage.value);
      return None;
    }

    /** Sends the welcome, then starts the receive loop. */
    method Start(cb: nat) returns (fault: Option<Fault>)
      requires protocol.Valid()
      modifies this, reader
      ensures View() == SendOn(old(View()), FrameOf(EncodeChat(Welcome())))
      ensures (reader.View(), fault) == StartFrames(old(reader.View()), cb)
    {
      hide FrameOf, EncodeChat, Welcome, SerializeOutcome;
      var output := BuildWelcome();
      Send(output);
      fault := reader.ReadAsyncProtoInfOccupy(cb, protocol);
    }
  }
}
