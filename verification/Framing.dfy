/** Frames on a byte stream, and the pure parser that every reader is compared with. */
module Framing {
  import opened Basics
  import opened Messages

  /** A payload whose length the prefix can announce. */
  predicate PayloadOk(p: Bytes) { 1 <= |p| < TWO32 }

  predicate PayloadsOk(ps: seq<Bytes>) {
    forall i :: 0 <= i < |ps| ==> PayloadOk(ps[i])
  }

  function EchoPrefix(p: Bytes): FramePrefix { FramePrefix(|p| % TWO32, ECHO) }

  function FrameOf(p: Bytes): Bytes { EncodePrefix(EchoPrefix(p)) + p }

  function Frames(ps: seq<Bytes>): Bytes {
    if ps == [] then [] else FrameOf(ps[0]) + Frames(ps[1..])
  }

  /** One received frame: what the prefix said and the bytes that followed. */
  datatype Framed = Framed(prefix: FramePrefix, body: Bytes)

  function EchoFramed(p: Bytes): Framed { Framed(EchoPrefix(p), p) }

  function EchoFrames(ps: seq<Bytes>): (fs: seq<Framed>)
    ensures |fs| == |ps|
    ensures forall i :: 0 <= i < |ps| ==> fs[i] == EchoFramed(ps[i])
  {
    seq(|ps|, i requires 0 <= i < |ps| => EchoFramed(ps[i]))
  }

  /** How a parse stops: short of a whole frame, or at a prefix that cannot be accepted. */
  datatype End = Pending(rest: Bytes) | Malformed | Oversized

  datatype Parse = Parse(frames: seq<Framed>, end: End)

  function Prepend(fs: seq<Framed>, p: Parse): Parse { Parse(fs + p.frames, p.end) }

  /** Take a prefix, take as many bytes as it announces, repeat. */
  function ParseFrames(s: Bytes, max: nat): Parse
    decreases |s|
  {
    if |s| < PREFIX_SIZE then Parse([], Pending(s))
    else match ParsePrefix(s[..PREFIX_SIZE])
      case None => Parse([], Malformed)
      case Some(p) =>
        var total := PREFIX_SIZE + p.size;
        if p.size > max then Parse([], Oversized)
        else if |s| < total then Parse([], Pending(s))
        else Prepend([Framed(p, s[PREFIX_SIZE..total])], ParseFrames(s[total..], max))
  }

  /** The first frame of `s` is whole, and announces `p`. */
  ghost predicate StartsWithFrame(s: Bytes, p: FramePrefix, max: nat) {
    && PREFIX_SIZE + p.size <= |s|
    && ParsePrefix(s[..PREFIX_SIZE]) == Some(p)
    && p.size <= max
  }

  lemma ParseStep(s: Bytes, p: FramePrefix, max: nat)
    requires StartsWithFrame(s, p, max)
    ensures ParseFrames(s, max) ==
      Prepend([Framed(p, s[PREFIX_SIZE..PREFIX_SIZE + p.size])], ParseFrames(s[PREFIX_SIZE + p.size..], max))
  {
  }

  lemma StepAppend(a: Bytes, b: Bytes, p: FramePrefix, max: nat)
    requires StartsWithFrame(a, p, max)
    ensures StartsWithFrame(a + b, p, max)
    ensures (a + b)[PREFIX_SIZE..PREFIX_SIZE + p.size] == a[PREFIX_SIZE..PREFIX_SIZE + p.size]
    ensures (a + b)[PREFIX_SIZE + p.size..] == a[PREFIX_SIZE + p.size..] + b
  {
    hide ParsePrefix;
    assert (a + b)[..PREFIX_SIZE] == a[..PREFIX_SIZE];
  }

  /** Bytes after a whole number of frames are parsed as if they came first. */
  lemma {:induction false} ParseAppend(a: Bytes, b: Bytes, max: nat)
    requires ParseFrames(a, max).end == Pending([])
    ensures ParseFrames(a + b, max) == Prepend(ParseFrames(a, max).frames, ParseFrames(b, max))
    decreases |a|
  {
    hide ParsePrefix;
    if a == [] {
      assert a + b == b;
    } else {
      var p := ParsePrefix(a[..PREFIX_SIZE]).value;
      assert StartsWithFrame(a, p, max);
      ParseAppend(a[PREFIX_SIZE + p.size..], b, max);
      StepAppend(a, b, p, max);
      ParseStep(a + b, p, max);
    }
  }

  /** The bytes that received frames took on the wire. */
  function TotalSize(fs: seq<Framed>): nat {
    if fs == [] then 0 else PREFIX_SIZE + |fs[0].body| + TotalSize(fs[1..])
  }

  /** A stream of whole frames is exactly as long as they are. */
  lemma {:induction false} FramesTakeTheirBytes(s: Bytes, max: nat)
    requires ParseFrames(s, max).end == Pending([])
    ensures TotalSize(ParseFrames(s, max).frames) == |s|
    decreases |s|
  {
    hide ParsePrefix;
    if s != [] {
      var total := PREFIX_SIZE + ParsePrefix(s[..PREFIX_SIZE]).value.size;
      FramesTakeTheirBytes(s[total..], max);
      assert ParseFrames(s, max).frames[1..] == ParseFrames(s[total..], max).frames;
    }
  }

  /** One whole frame parses to itself. */
  lemma ParseSingle(head: Bytes, p: FramePrefix, body: Bytes, max: nat)
    requires |head| == PREFIX_SIZE && ParsePrefix(head) == Some(p) && |body| == p.size <= max
    ensures ParseFrames(head + body, max) == Parse([Framed(p, body)], Pending([]))
  {
    var s := head + body;
    assert s[..PREFIX_SIZE] == head && s[PREFIX_SIZE..|s|] == body && s[|s|..] == [];
  }

  lemma FrameHead(p: Bytes)
    requires PayloadOk(p)
    ensures |EncodePrefix(EchoPrefix(p))| == PREFIX_SIZE
    ensures |FrameOf(p)| == PREFIX_SIZE + |p|
    ensures ParsePrefix(FrameOf(p)[..PREFIX_SIZE]) == Some(EchoPrefix(p))
    ensures FrameOf(p)[PREFIX_SIZE..] == p
  {
    hide ParsePrefix, EncodePrefix;
    FixedPrefix(EchoPrefix(p));
    PrefixRoundTrip(EchoPrefix(p));
    assert FrameOf(p)[..PREFIX_SIZE] == EncodePrefix(EchoPrefix(p));
  }

  /** Byte for byte: the payload's size least significant byte first, the type ECHO, the payload. */
  lemma FrameLayout(p: Bytes)
    requires PayloadOk(p)
    ensures var s := FrameOf(p);
      && |s| == 10 + |p| && s[0] == 0x0D
      && |p| == s[1] as int + 0x100 * s[2] as int + 0x1_0000 * s[3] as int + 0x100_0000 * s[4] as int
      && s[5..10] == [0x1D, 1, 0, 0, 0] && s[10..] == p
  {
    hide EncodePrefix;
    PrefixLayout(EchoPrefix(p));
    var s := FrameOf(p);
    assert s[5..10] == [0x1D, 1, 0, 0, 0] by {
      assert s[6] == 1 && s[7] == 0 && s[8] == 0 && s[9] == 0;
    }
  }

  /** The whole frame of the smallest request, `>echo` with id 0 and no text. */
  lemma SmallestFrame()
    ensures FrameOf(EncodeChat(ChatMessage(0, [], 4))) == [0x0D, 2, 0, 0, 0, 0x1D, 1, 0, 0, 0, 0x78, 4]
  {
    hide FrameOf, EncodeChat;
    ChatBytes(ChatMessage(0, [], 4));
    var p := EncodeChat(ChatMessage(0, [], 4));
    assert p == [0x78, 4];
    FrameLayout(p);
    var s := FrameOf(p);
    assert s[1] == 2 && s[2] == 0 && s[3] == 0 && s[4] == 0;
    assert s == s[..5] + s[5..10] + s[10..];
  }

  /**
   The response's frame is the request's with its last byte edited, so one fits a reader exactly when the
   other does.
   */
  lemma EchoFrameIsOneByteEdit(m: ChatMessage)
    requires m.typ == ECHO_REQUEST && PayloadOk(EncodeChat(m))
    ensures var request, response := FrameOf(EncodeChat(m)), FrameOf(EncodeChat(Response(m)));
      && |response| == |request|
      && response == request[|request| - 1 := 5] && request[|request| - 1] == 4
      && EchoPrefix(EncodeChat(Response(m))) == EchoPrefix(EncodeChat(m))
  {
    hide EncodeChat, EncodePrefix;
    EchoIsOneByteEdit(m);
    var p := EncodeChat(m);
    assert FrameOf(p)[|FrameOf(p)| - 1 := 5] == EncodePrefix(EchoPrefix(p)) + p[|p| - 1 := 5];
  }

  lemma FramesAppend(ps: seq<Bytes>, qs: seq<Bytes>)
    ensures Frames(ps + qs) == Frames(ps) + Frames(qs)
  {
    hide FrameOf;
    if ps == [] {
      assert ps + qs == qs;
    } else {
      FramesAppend(ps[1..], qs);
      assert (ps + qs)[1..] == ps[1..] + qs;
      AppendAssociates(FrameOf(ps[0]), Frames(ps[1..]), Frames(qs));
    }
  }

  lemma FrameStep(p: Bytes, t: Bytes, max: nat)
    requires PayloadOk(p) && |p| <= max
    ensures ParseFrames(FrameOf(p) + t, max) == Prepend([EchoFramed(p)], ParseFrames(t, max))
  {
    hide FrameOf, ParsePrefix, ParseFrames;
    FrameHead(p);
    StepAppend(FrameOf(p), t, EchoPrefix(p), max);
    ParseStep(FrameOf(p) + t, EchoPrefix(p), max);
    assert FrameOf(p)[|FrameOf(p)|..] + t == t;
  }

  /** A cut inside the first frame, or a first frame that does not fit, yields no message. */
  lemma FrameCut(p: Bytes, s: Bytes, t: Bytes, max: nat)
    requires PayloadOk(p) && s <= FrameOf(p) + t && (|s| < |FrameOf(p)| || |p| > max)
    ensures ParseFrames(s, max) ==
      Parse([], if |p| > max && PREFIX_SIZE <= |s| then Oversized else Pending(s))
    ensures |s| < PREFIX_SIZE ==> |s| < |FrameOf(p)|
  {
    hide FrameOf, ParsePrefix;
    FrameHead(p);
    if PREFIX_SIZE <= |s| {
      assert s[..PREFIX_SIZE] == (FrameOf(p) + t)[..PREFIX_SIZE] == FrameOf(p)[..PREFIX_SIZE];
    }
  }

  /** What is known of the parse of the first `|s|` bytes of the frames of `ps`. */
  ghost predicate ParsesSoFar(ps: seq<Bytes>, s: Bytes, max: nat, r: Parse) {
    var n := |r.frames|;
    && n <= |ps|
    && r.frames == EchoFrames(ps[..n])
    && match r.end
       case Malformed => false
       case Oversized => n < |ps| && |ps[n]| > max
       case Pending(rest) =>
         && s == Frames(ps[..n]) + rest
         && (if n < |ps| then |rest| < |FrameOf(ps[n])| else rest == [])
  }

  /** Cutting a stream of frames anywhere yields the messages before the cut, unchanged and in order. */
  lemma {:induction false} ParseCutStream(ps: seq<Bytes>, s: Bytes, max: nat)
    requires PayloadsOk(ps) && s <= Frames(ps)
    ensures ParsesSoFar(ps, s, max, ParseFrames(s, max))
    decreases |ps|
  {
    hide FrameOf, ParsePrefix;
    if ps == [] {
      assert ps[..0] == [] && s == [];
    } else if |s| < |FrameOf(ps[0])| || |ps[0]| > max {
      FrameCut(ps[0], s, Frames(ps[1..]), max);
      assert ps[..0] == [];
    } else {
      var p, rest, t := ps[0], ps[1..], s[|FrameOf(ps[0])|..];
      assert s == FrameOf(p) + t && t <= Frames(rest) by {
        assert s == (FrameOf(p) + Frames(rest))[..|s|];
      }
      ParseCutStream(rest, t, max);
      FrameStep(p, t, max);
      CutStreamStep(ps, t, max, ParseFrames(t, max));
    }
  }

  lemma CutStreamStep(ps: seq<Bytes>, t: Bytes, max: nat, r: Parse)
    requires ps != [] && ParsesSoFar(ps[1..], t, max, r)
    ensures ParsesSoFar(ps, FrameOf(ps[0]) + t, max, Prepend([EchoFramed(ps[0])], r))
  {
    hide FrameOf, EchoFramed;
    var p, rest, n := ps[0], ps[1..], |r.frames|;
    assert ps[..n + 1] == [p] + rest[..n];
    assert ps[..n + 1][1..] == rest[..n];
    assert EchoFrames(ps[..n + 1]) == [EchoFramed(p)] + EchoFrames(rest[..n]);
    if r.end.Pending? {
      AppendAssociates(FrameOf(p), Frames(rest[..n]), r.end.rest);
    }
  }

  /** If every payload fits, the whole stream parses to exactly the payloads. */
  lemma {:induction false} ParseWholeStream(ps: seq<Bytes>, max: nat)
    requires PayloadsOk(ps) && forall i :: 0 <= i < |ps| ==> |ps[i]| <= max
    ensures ParseFrames(Frames(ps), max) == Parse(EchoFrames(ps), Pending([]))
  {
    hide FrameOf, ParsePrefix;
    if ps != [] {
      ParseWholeStream(ps[1..], max);
      FrameStep(ps[0], Frames(ps[1..]), max);
      assert EchoFrames(ps) == [EchoFramed(ps[0])] + EchoFrames(ps[1..]);
    }
  }

  /** Frames are uniquely decodable: equal wire bytes come from equal payload lists. */
  lemma UniquelyDecodable(ps: seq<Bytes>, qs: seq<Bytes>)
    requires PayloadsOk(ps) && PayloadsOk(qs) && Frames(ps) == Frames(qs)
    ensures ps == qs
  {
    ParseWholeStream(ps, TWO32);
    ParseWholeStream(qs, TWO32);
    assert |EchoFrames(ps)| == |EchoFrames(qs)|;
    forall i | 0 <= i < |ps| ensures ps[i] == qs[i] {
      assert EchoFrames(ps)[i] == EchoFrames(qs)[i];
    }
  }

  function Payloads(ms: seq<ChatMessage>): (ps: seq<Bytes>)
    ensures |ps| == |ms|
    ensures forall i :: 0 <= i < |ms| ==> ps[i] == EncodeChat(ms[i])
  {
    seq(|ms|, i requires 0 <= i < |ms| => EncodeChat(ms[i]))
  }

  /** So are messages: two lists with the same wire bytes are the same list, UTF-8 or not. */
  lemma MessagesAreDecodable(ms: seq<ChatMessage>, ns: seq<ChatMessage>)
    requires PayloadsOk(Payloads(ms)) && PayloadsOk(Payloads(ns))
    requires Frames(Payloads(ms)) == Frames(Payloads(ns))
    ensures ms == ns
  {
    hide EncodeChat, Frames, FrameOf;
    UniquelyDecodable(Payloads(ms), Payloads(ns));
    forall i | 0 <= i < |ms| ensures ms[i] == ns[i] {
      assert Payloads(ms)[i] == Payloads(ns)[i];
      TextWithin(ms[i]);
      TextWithin(ns[i]);
      EncodingIsInjective(ms[i], ns[i]);
    }
  }

  lemma TextWithin(m: ChatMessage)
    ensures |m.text| <= |EncodeChat(m)|
  {
    ChatBytes(m);
  }

  /** No frame is a proper prefix of another. */
  lemma PrefixFree(p: Bytes, q: Bytes)
    requires PayloadOk(p) && PayloadOk(q) && FrameOf(p) <= FrameOf(q)
    ensures p == q
  {
    hide FrameOf, ParsePrefix;
    FrameHead(p);
    FrameHead(q);
    assert FrameOf(p) == FrameOf(q)[..|FrameOf(p)|];
    assert FrameOf(p)[..PREFIX_SIZE] == FrameOf(q)[..PREFIX_SIZE];
  }
}
