/** The two message schemas, common/proto/framing.proto and common/proto/chat.proto. */
module Messages {
  import opened Basics
  import opened Utf8
  import opened Wire

  // ---------------------------------------------------------------- encoding field by field

  lemma {:induction false} EncodeAppend(a: seq<Field>, b: seq<Field>)
    ensures EncodeFields(a + b) == EncodeFields(a) + EncodeFields(b)
  {
    if a == [] {
      assert a + b == b;
    } else {
      assert (a + b)[1..] == a[1..] + b;
      EncodeAppend(a[1..], b);
      AppendAssociates(EncodeField(a[0]), EncodeFields(a[1..]), EncodeFields(b));
    }
  }

  lemma SmallTag(f: Field)
    requires 1 <= f.num < 16
    ensures EncodeField(f) == [8 * f.num + WireType(f)] + EncodeValue(f)
  {
  }

  /** A field that may be left out contributes its one-byte tag and its value, or nothing. */
  lemma OptionalField(omitted: bool, f: Field)
    requires 1 <= f.num < 16
    ensures EncodeFields(if omitted then [] else [f]) ==
      if omitted then [] else [8 * f.num + WireType(f)] + EncodeValue(f)
  {
    hide EncodeField, EncodeValue;
    SmallTag(f);
    assert [f][1..] == [];
  }

  // ---------------------------------------------------------------- FramePrefix

  datatype FramePrefix = FramePrefix(size: U32, typ: U32)

  const CLEAR_PREFIX := FramePrefix(0, 0)

  /** FramePrefix::MessageType::ECHO. */
  const ECHO: U32 := 1

  /** proto3 writes a field only when it differs from its default. */
  function PrefixFields(p: FramePrefix): seq<Field> {
    (if p.size == 0 then [] else [Fixed32(1, p.size)]) +
    (if p.typ == 0 then [] else [Fixed32(3, p.typ)])
  }

  function EncodePrefix(p: FramePrefix): Bytes {
    EncodeFields(PrefixFields(p))
  }

  /** A later record overrides an earlier one; a record the schema does not know is skipped. */
  function PrefixStep(p: FramePrefix, f: Field): FramePrefix {
    match f
    case Fixed32(1, v) => p.(size := v)
    case Fixed32(3, v) => p.(typ := v)
    case _ => p
  }

  function AbsorbPrefix(p: FramePrefix, fs: seq<Field>): FramePrefix
    decreases |fs|
  {
    if fs == [] then p else AbsorbPrefix(PrefixStep(p, fs[0]), fs[1..])
  }

  function ParsePrefix(s: Bytes): Option<FramePrefix> {
    match ReadFields(s)
    case None => None
    case Some(fs) => Some(AbsorbPrefix(CLEAR_PREFIX, fs))
  }

  /** The last record of a field decides its value; without one it has its default. */
  function LastFixed(fs: seq<Field>, num: nat): U32
    decreases |fs|
  {
    if fs == [] then 0
    else if fs[|fs| - 1].Fixed32? && fs[|fs| - 1].num == num then fs[|fs| - 1].v32
    else LastFixed(fs[..|fs| - 1], num)
  }

  lemma {:induction false} AbsorbPrefixAppend(p: FramePrefix, a: seq<Field>, b: seq<Field>)
    ensures AbsorbPrefix(p, a + b) == AbsorbPrefix(AbsorbPrefix(p, a), b)
    decreases |a|
  {
    if a == [] {
      assert a + b == b;
    } else {
      assert (a + b)[1..] == a[1..] + b;
      AbsorbPrefixAppend(PrefixStep(p, a[0]), a[1..], b);
    }
  }

  lemma {:induction false} AbsorbPrefixExactly(fs: seq<Field>)
    ensures AbsorbPrefix(CLEAR_PREFIX, fs) == FramePrefix(LastFixed(fs, 1), LastFixed(fs, 3))
    decreases |fs|
  {
    if fs != [] {
      var front, last := fs[..|fs| - 1], fs[|fs| - 1];
      AbsorbPrefixExactly(front);
      AbsorbPrefixAppend(CLEAR_PREFIX, front, [last]);
      assert fs == front + [last] && [last][1..] == [];
    }
  }

  /** A prefix parses from exactly the byte strings that are records, and the last ones of fields 1 and 3 decide. */
  lemma ParsePrefixExactly(s: Bytes, p: FramePrefix)
    ensures ParsePrefix(s) == Some(p) <==>
      exists fs :: AreRecords(s, fs) && p == FramePrefix(LastFixed(fs, 1), LastFixed(fs, 3))
  {
    hide ReadFields, AreRecords, AbsorbPrefix, LastFixed;
    if ReadFields(s).Some? {
      var fs := ReadFields(s).value;
      ReadsExactlyRecords(s, fs);
      AbsorbPrefixExactly(fs);
    }
    forall fs | AreRecords(s, fs) ensures ParsePrefix(s) == Some(FramePrefix(LastFixed(fs, 1), LastFixed(fs, 3))) {
      ReadsExactlyRecords(s, fs);
      AbsorbPrefixExactly(fs);
    }
  }

  lemma AbsorbPrefixFields(p: FramePrefix)
    ensures AbsorbPrefix(CLEAR_PREFIX, PrefixFields(p)) == p
  {
    var fs := PrefixFields(p);
    if p.size != 0 {
      assert fs[1..] == if p.typ == 0 then [] else [Fixed32(3, p.typ)];
      assert AbsorbPrefix(CLEAR_PREFIX, fs) == AbsorbPrefix(FramePrefix(p.size, 0), fs[1..]);
    }
    if p.typ != 0 {
      assert [Fixed32(3, p.typ)][1..] == [];
      assert AbsorbPrefix(FramePrefix(p.size, 0), [Fixed32(3, p.typ)]) == AbsorbPrefix(p, []);
    }
  }

  lemma PrefixRoundTrip(p: FramePrefix)
    ensures ParsePrefix(EncodePrefix(p)) == Some(p)
  {
    FieldsRoundTrip(PrefixFields(p));
    AbsorbPrefixFields(p);
  }

  /** The bytes of a prefix: tag 0x0D before the size, tag 0x1D before the type. */
  lemma PrefixBytes(p: FramePrefix)
    ensures EncodePrefix(p) ==
      (if p.size == 0 then [] else [0x0D] + LittleEndian32(p.size)) +
      (if p.typ == 0 then [] else [0x1D] + LittleEndian32(p.typ))
  {
    hide LittleEndian32, EncodeFields;
    EncodeAppend(if p.size == 0 then [] else [Fixed32(1, p.size)], if p.typ == 0 then [] else [Fixed32(3, p.typ)]);
    OptionalField(p.size == 0, Fixed32(1, p.size));
    OptionalField(p.typ == 0, Fixed32(3, p.typ));
  }

  /** Byte for byte: fixed32 is little-endian. */
  lemma PrefixLayout(p: FramePrefix)
    requires p.size != 0 && p.typ != 0
    ensures var s := EncodePrefix(p);
      && |s| == PREFIX_SIZE && s[0] == 0x0D && s[5] == 0x1D
      && p.size == s[1] as int + 0x100 * s[2] as int + 0x1_0000 * s[3] as int + 0x100_0000 * s[4] as int
      && p.typ == s[6] as int + 0x100 * s[7] as int + 0x1_0000 * s[8] as int + 0x100_0000 * s[9] as int
  {
    hide EncodePrefix, LittleEndian32;
    PrefixBytes(p);
    LittleEndianExactly(p.size, LittleEndian32(p.size));
    LittleEndianExactly(p.typ, LittleEndian32(p.typ));
  }

  /** `_PREFIX_SIZE`: the size of a prefix with both fields set. */
  const PREFIX_SIZE: nat := 10

  /** The prefix has its fixed length exactly when neither field holds its default. */
  lemma FixedPrefix(p: FramePrefix)
    ensures |EncodePrefix(p)| == PREFIX_SIZE <==> p.size != 0 && p.typ != 0
    ensures |EncodePrefix(p)| <= PREFIX_SIZE
  {
    PrefixBytes(p);
  }

  // ---------------------------------------------------------------- ChatMessage

  /** proto3 enums are open: `typ` may hold any 32-bit value. */
  datatype ChatMessage = ChatMessage(id: U32, text: Bytes, typ: Int32)

  const CLEAR_MESSAGE := ChatMessage(0, [], 0)

  const ECHO_REQUEST: Int32 := 4
  const ECHO_RESPONSE: Int32 := 5

  /** Enum values are sign-extended to 64 bits before they are written as varints. */
  function EnumBits(t: Int32): (v: nat)
    ensures v < TWO64 && (v - t) % TWO64 == 0
  {
    if t < 0 then t + TWO64 else t
  }

  function EnumValue(v: nat): (t: Int32)
    ensures (v - t) % TWO32 == 0
  {
    var low := v % TWO32;
    if low < 0x8000_0000 then low else low - TWO32
  }

  function IdFields(m: ChatMessage): seq<Field> { if m.id == 0 then [] else [Varint(1, m.id)] }

  function TextFields(m: ChatMessage): seq<Field> { if m.text == [] then [] else [Delimited(2, m.text)] }

  function TypeFields(m: ChatMessage): seq<Field> {
    if m.typ == 0 then [] else [Varint(15, EnumBits(m.typ))]
  }

  function ChatFields(m: ChatMessage): seq<Field> {
    IdFields(m) + TextFields(m) + TypeFields(m)
  }

  function EncodeChat(m: ChatMessage): Bytes {
    EncodeFields(ChatFields(m))
  }

  /** As for prefixes; a text that is not UTF-8 makes the whole parse fail. */
  function ChatStep(m: ChatMessage, f: Field): Option<ChatMessage> {
    match f
    case Varint(1, v) => Some(m.(id := v % TWO32))
    case Varint(15, v) => Some(m.(typ := EnumValue(v)))
    case Delimited(2, payload) => if ValidUtf8(payload) then Some(m.(text := payload)) else None
    case _ => Some(m)
  }

  function AbsorbChat(m: ChatMessage, fs: seq<Field>): Option<ChatMessage>
    decreases |fs|
  {
    if fs == [] then Some(m)
    else match ChatStep(m, fs[0])
      case None => None
      case Some(n) => AbsorbChat(n, fs[1..])
  }

  function ParseChat(s: Bytes): Option<ChatMessage> {
    match ReadFields(s)
    case None => None
    case Some(fs) => AbsorbChat(CLEAR_MESSAGE, fs)
  }

  lemma {:induction false} AbsorbAppend(m: ChatMessage, a: seq<Field>, b: seq<Field>)
    ensures AbsorbChat(m, a + b) ==
      match AbsorbChat(m, a) { case None => None case Some(n) => AbsorbChat(n, b) }
    decreases |a|
  {
    if a == [] {
      assert a + b == b;
    } else {
      assert (a + b)[1..] == a[1..] + b;
      if ChatStep(m, a[0]).Some? {
        AbsorbAppend(ChatStep(m, a[0]).value, a[1..], b);
      }
    }
  }

  lemma AbsorbChatFields(m: ChatMessage)
    ensures AbsorbChat(CLEAR_MESSAGE, ChatFields(m)) == if ValidUtf8(m.text) then Some(m) else None
  {
    hide ValidUtf8;
    AsciiIsUtf8([]);
    var i, t, k := IdFields(m), TextFields(m), TypeFields(m);
    assert EnumValue(EnumBits(m.typ)) == m.typ;
    AbsorbAppend(CLEAR_MESSAGE, i + t, k);
    AbsorbAppend(CLEAR_MESSAGE, i, t);
    assert AbsorbChat(CLEAR_MESSAGE, i) == Some(CLEAR_MESSAGE.(id := m.id));
  }

  lemma {:induction false} AbsorbedTextIsUtf8(m: ChatMessage, fs: seq<Field>)
    requires ValidUtf8(m.text)
    ensures AbsorbChat(m, fs).Some? ==> ValidUtf8(AbsorbChat(m, fs).value.text)
    decreases |fs|
  {
    hide ValidUtf8;
    if fs != [] && ChatStep(m, fs[0]).Some? {
      AbsorbedTextIsUtf8(ChatStep(m, fs[0]).value, fs[1..]);
    }
  }

  /** Whatever the bytes, a message that parses has a UTF-8 text. */
  lemma ParsedTextIsUtf8(s: Bytes)
    ensures ParseChat(s).Some? ==> ValidUtf8(ParseChat(s).value.text)
  {
    hide AbsorbChat, ReadFields;
    assert ValidUtf8([]);
    if ReadFields(s).Some? {
      AbsorbedTextIsUtf8(CLEAR_MESSAGE, ReadFields(s).value);
    }
  }

  /** As for prefixes: the last record of a field decides. */
  function LastId(fs: seq<Field>): U32
    decreases |fs|
  {
    if fs == [] then 0
    else match fs[|fs| - 1]
      case Varint(1, v) => v % TWO32
      case _ => LastId(fs[..|fs| - 1])
  }

  function LastText(fs: seq<Field>): Bytes
    decreases |fs|
  {
    if fs == [] then []
    else match fs[|fs| - 1]
      case Delimited(2, payload) => payload
      case _ => LastText(fs[..|fs| - 1])
  }

  function LastType(fs: seq<Field>): Int32
    decreases |fs|
  {
    if fs == [] then 0
    else match fs[|fs| - 1]
      case Varint(15, v) => EnumValue(v)
      case _ => LastType(fs[..|fs| - 1])
  }

  /** No text among the records is malformed, also one that a later record overrides. */
  predicate TextsOk(fs: seq<Field>) {
    forall i :: 0 <= i < |fs| && fs[i].Delimited? && fs[i].num == 2 ==> ValidUtf8(fs[i].payload)
  }

  lemma {:induction false} AbsorbChatExactly(fs: seq<Field>)
    ensures AbsorbChat(CLEAR_MESSAGE, fs) ==
      if TextsOk(fs) then Some(ChatMessage(LastId(fs), LastText(fs), LastType(fs))) else None
    decreases |fs|
  {
    hide ValidUtf8, EnumValue;
    if fs != [] {
      var front, last := fs[..|fs| - 1], fs[|fs| - 1];
      AbsorbChatExactly(front);
      AbsorbAppend(CLEAR_MESSAGE, front, [last]);
      assert fs == front + [last] && [last][1..] == [];
    }
  }

  /**
   Which bytes parse, and to what: exactly the byte strings that are records without a malformed text,
   with the last record of each field deciding and unknown ones skipped.
   */
  lemma ParseChatExactly(s: Bytes, m: ChatMessage)
    ensures ParseChat(s) == Some(m) <==>
      exists fs :: AreRecords(s, fs) && TextsOk(fs) && m == ChatMessage(LastId(fs), LastText(fs), LastType(fs))
  {
    hide ReadFields, AreRecords, AbsorbChat, LastId, LastText, LastType, TextsOk;
    if ReadFields(s).Some? {
      var fs := ReadFields(s).value;
      ReadsExactlyRecords(s, fs);
      AbsorbChatExactly(fs);
    }
    forall fs | AreRecords(s, fs) && TextsOk(fs)
      ensures ParseChat(s) == Some(ChatMessage(LastId(fs), LastText(fs), LastType(fs)))
    {
      ReadsExactlyRecords(s, fs);
      AbsorbChatExactly(fs);
    }
  }

  /** A message survives the wire exactly when its text is UTF-8; otherwise its parse fails. */
  lemma ChatRoundTrip(m: ChatMessage)
    requires |m.text| < MAX_DELIMITED
    ensures ParseChat(EncodeChat(m)) == if ValidUtf8(m.text) then Some(m) else None
  {
    FieldsRoundTrip(ChatFields(m));
    AbsorbChatFields(m);
  }

  /** Which records a message has. */
  predicate HasField(m: ChatMessage, f: Field) {
    || (m.id != 0 && f == Varint(1, m.id))
    || (m.text != [] && f == Delimited(2, m.text))
    || (m.typ != 0 && f == Varint(15, EnumBits(m.typ)))
  }

  lemma FieldsOfChat(m: ChatMessage, f: Field)
    ensures f in ChatFields(m) <==> HasField(m, f)
  {
    hide EnumBits;
  }

  /** Different messages have different encodings, whether or not their texts are UTF-8. */
  lemma EncodingIsInjective(m: ChatMessage, n: ChatMessage)
    requires |m.text| < MAX_DELIMITED && |n.text| < MAX_DELIMITED && EncodeChat(m) == EncodeChat(n)
    ensures m == n
  {
    hide ReadFields, EncodeFields;
    FieldsRoundTrip(ChatFields(m));
    FieldsRoundTrip(ChatFields(n));
    SameFields(m, n);
  }

  lemma SameFields(m: ChatMessage, n: ChatMessage)
    requires ChatFields(m) == ChatFields(n)
    ensures m == n
  {
    hide ChatFields;
    forall f ensures HasField(m, f) <==> HasField(n, f) {
      FieldsOfChat(m, f);
      FieldsOfChat(n, f);
    }
    assert HasField(m, Varint(1, m.id)) <==> m.id != 0;
    assert HasField(n, Varint(1, n.id)) <==> n.id != 0;
    assert HasField(m, Delimited(2, m.text)) <==> m.text != [];
    assert HasField(n, Delimited(2, n.text)) <==> n.text != [];
    assert HasField(m, Varint(15, EnumBits(m.typ))) <==> m.typ != 0;
    assert HasField(n, Varint(15, EnumBits(n.typ))) <==> n.typ != 0;
  }

  /** The id and text part of a message, which `set_type` does not touch. */
  function ChatHead(m: ChatMessage): Bytes {
    (if m.id == 0 then [] else [0x08] + EncodeVarint(m.id)) +
    (if m.text == [] then [] else [0x12] + (EncodeVarint(|m.text|) + m.text))
  }

  function ChatTail(m: ChatMessage): Bytes {
    if m.typ == 0 then [] else [0x78] + EncodeVarint(EnumBits(m.typ))
  }

  lemma ChatHeadBytes(m: ChatMessage)
    ensures EncodeFields(IdFields(m)) + EncodeFields(TextFields(m)) == ChatHead(m)
  {
    hide EncodeVarint, EncodeFields;
    OptionalField(m.id == 0, Varint(1, m.id));
    OptionalField(m.text == [], Delimited(2, m.text));
  }

  lemma ChatTailBytes(m: ChatMessage)
    ensures EncodeFields(TypeFields(m)) == ChatTail(m)
  {
    hide EncodeVarint, EncodeFields, EnumBits;
    OptionalField(m.typ == 0, Varint(15, EnumBits(m.typ)));
  }

  /** The bytes of a message: tags 0x08, 0x12 and 0x78 before id, text and type. */
  lemma ChatBytes(m: ChatMessage)
    ensures EncodeChat(m) == ChatHead(m) + ChatTail(m)
  {
    hide IdFields, TextFields, TypeFields, EncodeFields, ChatHead, ChatTail;
    EncodeAppend(IdFields(m) + TextFields(m), TypeFields(m));
    EncodeAppend(IdFields(m), TextFields(m));
    ChatHeadBytes(m);
    ChatTailBytes(m);
  }

  /** ByteSizeLong: computed from the fields, without encoding. */
  function ByteSize(m: ChatMessage): nat
    requires |m.text| < TWO64
  {
    (if m.id == 0 then 0 else 1 + VarintSize(m.id)) +
    (if m.text == [] then 0 else 1 + VarintSize(|m.text|) + |m.text|) +
    (if m.typ == 0 then 0 else 1 + VarintSize(EnumBits(m.typ)))
  }

  lemma ByteSizeIsLength(m: ChatMessage)
    requires |m.text| < TWO64
    ensures |EncodeChat(m)| == ByteSize(m)
  {
    ChatBytes(m);
    VarintSizeIsLength(m.id);
    VarintSizeIsLength(|m.text|);
    VarintSizeIsLength(EnumBits(m.typ));
  }

  // ---------------------------------------------------------------- echo messages

  function Request(id: U32, text: Bytes): ChatMessage {
    ChatMessage(id, text, ECHO_REQUEST)
  }

  function Response(m: ChatMessage): ChatMessage {
    m.(typ := ECHO_RESPONSE)
  }

  /** Echoing edits one byte: the payloads agree except in their last byte, 4 becoming 5. */
  lemma EchoIsOneByteEdit(m: ChatMessage)
    requires m.typ == ECHO_REQUEST
    ensures |EncodeChat(m)| >= 2
    ensures EncodeChat(m)[|EncodeChat(m)| - 1] == 4
    ensures EncodeChat(Response(m)) == EncodeChat(m)[|EncodeChat(m)| - 1 := 5]
  {
    hide EncodeChat, ChatHead, ChatTail;
    ChatBytes(m);
    ChatBytes(Response(m));
    EchoParts(m);
  }

  lemma EchoParts(m: ChatMessage)
    requires m.typ == ECHO_REQUEST
    ensures ChatHead(Response(m)) == ChatHead(m)
    ensures ChatTail(m) == [0x78, 4] && ChatTail(Response(m)) == [0x78, 5]
  {
  }

  /** What the id adds to a message. */
  function IdCost(id: U32): nat {
    if id == 0 then 0 else 1 + VarintSize(id)
  }

  /** Exactly which echo requests fit a reader with the default limit of 1024 bytes. */
  lemma RequestFits(id: U32, text: Bytes)
    requires |text| < TWO64
    ensures |EncodeChat(Request(id, text))| <= 1024 <==> IdCost(id) + |text| <= 1019
  {
    ByteSizeIsLength(Request(id, text));
  }

  /** 1013 is the longest text that fits whatever the id, and 1018 fits only with id 0. */
  lemma TightTextBound(text: Bytes)
    ensures |text| <= 1013 <==> forall id: U32 :: |EncodeChat(Request(id, text))| <= 1024
    ensures |text| == 1018 ==> forall id: U32 :: |EncodeChat(Request(id, text))| <= 1024 <==> id == 0
  {
    if |text| < TWO64 {
      forall id: U32 ensures |EncodeChat(Request(id, text))| <= 1024 <==> IdCost(id) + |text| <= 1019 {
        RequestFits(id, text);
      }
      assert IdCost(0x1000_0000) == 6;
    } else {
      ChatBytes(Request(0, text));
    }
  }

  // ---------------------------------------------------------------- no encoding is shorter than the canonical one

  /** The canonical size of a message, counting two bytes for any type that is not the default. */
  function LeastSize(m: ChatMessage): nat {
    |ChatHead(m)| + (if m.typ == 0 then 0 else 2)
  }

  lemma StepCost(m: ChatMessage, f: Field)
    ensures ChatStep(m, f).Some? ==> LeastSize(ChatStep(m, f).value) <= LeastSize(m) + FieldCost(f)
  {
    hide ValidUtf8;
    if f.Varint? && f.num == 1 {
      VarintLengthGrows(f.v % TWO32, f.v);
    }
  }

  lemma {:induction false} AbsorbCost(m: ChatMessage, s: Bytes)
    requires ReadFields(s).Some?
    ensures AbsorbChat(m, ReadFields(s).value).Some? ==>
      LeastSize(AbsorbChat(m, ReadFields(s).value).value) <= LeastSize(m) + |s|
    decreases |s|
  {
    hide LeastSize, ChatStep, FieldCost;
    if s != [] {
      var (f, rest) := ReadField(s).value;
      var fs := ReadFields(rest).value;
      ReadCost(s);
      StepCost(m, f);
      assert ([f] + fs)[0] == f && ([f] + fs)[1..] == fs;
      if ChatStep(m, f).Some? {
        AbsorbCost(ChatStep(m, f).value, rest);
      }
    }
  }

  /** A payload that parses to an echo message is at least as long as that message's own encoding. */
  lemma NothingIsShorter(s: Bytes)
    ensures ParseChat(s).Some? && ParseChat(s).value.typ in {ECHO_REQUEST, ECHO_RESPONSE} ==>
      |EncodeChat(ParseChat(s).value)| <= |s|
  {
    hide AbsorbChat, ReadFields, EncodeChat, ChatHead;
    if ParseChat(s).Some? {
      AbsorbCost(CLEAR_MESSAGE, s);
      EmptyHead();
      ChatBytes(ParseChat(s).value);
    }
  }

  lemma EmptyHead()
    ensures ChatHead(CLEAR_MESSAGE) == []
  {
  }
}
