/** common/src/proto/Protocol.cpp: one message to one frame and back, with the two prefix caches. */
module Protocols {
  import opened Basics
  import opened Utf8
  import opened Messages
  import opened Framing

  /** What `serialize` returns or throws. */
  function SerializeOutcome(m: ChatMessage): Outcome<Bytes> {
    var payload := EncodeChat(m);
    var output := FrameOf(payload);
    if |payload| > INT_MAX then Throws(SerializeFailed)
    else if |output| != PREFIX_SIZE + EchoPrefix(payload).size then Throws(AssertionFailed)
    else Ok(output)
  }

  /** What `deserialize` returns or throws when the last parsed prefix is `cache`. */
  function DeserializeOutcome(cache: FramePrefix, data: Bytes): Outcome<ChatMessage> {
    if cache.typ != ECHO then Throws(AssertionFailed)
    else match ParseChat(data)
      case None => Throws(BadMessage)
      case Some(m) => Ok(m)
  }

  /** The caches of one `Protocol` object. */
  datatype Caches = Caches(deser: FramePrefix, ser: FramePrefix)

  /** Only the all-default message has an empty encoding. */
  lemma EmptyEncoding(m: ChatMessage)
    ensures EncodeChat(m) == [] <==> m == CLEAR_MESSAGE
  {
    ChatBytes(m);
  }

  /** The length assertion holds for every message but the all-default one; below 2 GiB nothing else fails. */
  lemma SerializeExactly(m: ChatMessage)
    ensures SerializeOutcome(m) ==
      if |EncodeChat(m)| > INT_MAX then Throws(SerializeFailed)
      else if m == CLEAR_MESSAGE then Throws(AssertionFailed)
      else Ok(FrameOf(EncodeChat(m)))
    ensures SerializeOutcome(m).Ok? ==> PayloadOk(EncodeChat(m))
  {
    hide EncodePrefix, EncodeChat;
    EmptyEncoding(m);
    FixedPrefix(EchoPrefix(EncodeChat(m)));
  }

  /** Every echo request and response has a frame, whatever its id and text, as long as it is below 2 GiB. */
  lemma EchoSerializes(m: ChatMessage)
    requires m.typ == ECHO_REQUEST || m.typ == ECHO_RESPONSE
    ensures SerializeOutcome(m) ==
      if |EncodeChat(m)| > INT_MAX then Throws(SerializeFailed) else Ok(FrameOf(EncodeChat(m)))
    ensures |m.text| <= INT_MAX - 14 ==> |EncodeChat(m)| <= INT_MAX && PayloadOk(EncodeChat(m))
  {
    hide EncodePrefix, EncodeChat;
    SerializeExactly(m);
    if |m.text| <= INT_MAX - 14 {
      ByteSizeIsLength(m);
    }
  }

  /** Reading back a frame: the prefix announces the payload's size, and the payload parses to the message. */
  lemma FrameRoundTrip(m: ChatMessage)
    requires SerializeOutcome(m).Ok? && ValidUtf8(m.text)
    ensures var frame := SerializeOutcome(m).value;
      && |frame| >= PREFIX_SIZE
      && ParsePrefix(frame[..PREFIX_SIZE]) == Some(FramePrefix(|frame| - PREFIX_SIZE, ECHO))
      && DeserializeOutcome(FramePrefix(|frame| - PREFIX_SIZE, ECHO), frame[PREFIX_SIZE..]) == Ok(m)
  {
    hide EncodePrefix, EncodeChat, ParsePrefix, ParseChat;
    SerializeExactly(m);
    FrameHead(EncodeChat(m));
    TextWithin(m);
    ChatRoundTrip(m);
  }

  class Protocol {
    var deserCache: FramePrefix
    var serCache: FramePrefix
    const prefixSize: nat

    ghost predicate Valid() { prefixSize == PREFIX_SIZE }

    ghost function View(): Caches
      reads this
    {
      Caches(deserCache, serCache)
    }

    /** Measures a prefix with both fields set, then clears it again. */
    constructor ()
      ensures Valid()
      ensures View() == Caches(CLEAR_PREFIX, CLEAR_PREFIX)
    {
      deserCache := CLEAR_PREFIX;
      var probe := FramePrefix(1, 1);
      prefixSize := |EncodePrefix(probe)|;
      serCache := CLEAR_PREFIX;
      FixedPrefix(probe);
    }

    method Serialize(m: ChatMessage) returns (r: Outcome<Bytes>)
      requires Valid()
      modifies this`serCache
      ensures r == SerializeOutcome(m)
      ensures serCache == EchoPrefix(EncodeChat(m))
    {
      hide EncodePrefix, EncodeChat;
      serCache := CLEAR_PREFIX;
      serCache := serCache.(size := |EncodeChat(m)| % TWO32);
      serCache := serCache.(typ := ECHO);
      var output := EncodePrefix(serCache);
      if |EncodeChat(m)| > INT_MAX {
        return Throws(SerializeFailed);
      }
      output := output + EncodeChat(m);
      if |output| != prefixSize + serCache.size {
        return Throws(AssertionFailed);
      }
      return Ok(output);
    }

    method Deserialize(data: Bytes) returns (r: Outcome<ChatMessage>)
      ensures r == DeserializeOutcome(deserCache, data)
    {
      hide ParseChat;
      if deserCache.typ != ECHO {
        return Throws(AssertionFailed);
      }
      match ParseChat(data)
      case None => return Throws(BadMessage);
      case Some(m) => return Ok(m);
    }

    method GetMessageSize(prefixData: Bytes) returns (r: Outcome<nat>)
      modifies this`deserCache
      ensures match ParsePrefix(prefixData)
              case None => r == Throws(BadPrefix)
              case Some(p) => r == Ok(p.size) && deserCache == p
    {
      hide ParsePrefix;
      deserCache := CLEAR_PREFIX;
      match ParsePrefix(prefixData)
      case None =>
        return Throws(BadPrefix);
      case Some(p) =>
        deserCache := p;
        return Ok(deserCache.size);
    }
  }
}
