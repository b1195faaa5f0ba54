/** What holds after every run of the echo system. */
module EchoTheorems {
  import opened Basics
  import opened Utf8
  import opened Messages
  import opened Framing
  import opened Protocols
  import opened Writers
  import opened Commands
  import opened Clients
  import opened Connections
  import opened EchoSystem
  import opened EchoInvariant
  import FR = FrameReading
  import LR = LineReading

  // ---------------------------------------------------------------- safety

  /**
   Typed bytes become numbered requests, whatever the chunks they arrive in: lines end at the newline
   and take at most 1024 bytes with it, and the i-th echo command among them becomes a request with its
   text and the id i modulo 2^32.
   */
  lemma CommandsAreNumbered(es: seq<Event>)
    requires ValidRun(Init(), es)
    ensures var s := After(Init(), es);
      && s.stdin.delivered <= LR.SplitLines(s.stdin.received, 10, 1024).lines
      && s.issued == RequestsOf(s.stdin.delivered)
      && |s.issued| == |Texts(s.stdin.delivered)|
      && (forall i :: 0 <= i < |s.issued| ==>
            s.issued[i] == ChatMessage(i % TWO32, Texts(s.stdin.delivered)[i], ECHO_REQUEST))
      && Subsequence(s.accepted, s.kept, s.issued)
  {
    hide Next, Enabled, NetInv, LR.Inv, LR.SplitLines, Texts;
    InitInv();
    RunInv(Init(), es);
    LR.InvRefines(After(Init(), es).stdin, NEWLINE, true);
  }

  /** An accepted request carries the index of its command; up to 2^32 commands the ids strictly increase. */
  lemma AcceptedIds(es: seq<Event>)
    requires ValidRun(Init(), es)
    ensures var s := After(Init(), es);
      && |s.kept| == |s.accepted|
      && (forall i :: 0 <= i < |s.accepted| ==> s.accepted[i].id == s.kept[i] % TWO32)
      && (|s.issued| <= TWO32 ==>
            && (forall i :: 0 <= i < |s.accepted| ==> s.accepted[i].id == s.kept[i])
            && (forall i, j :: 0 <= i < j < |s.accepted| ==> s.accepted[i].id < s.accepted[j].id))
  {
    hide Next, Enabled, RequestsOf, Texts, LR.SplitLines;
    CommandsAreNumbered(es);
  }

  /** After every run, the next command is accepted exactly if the client's writer is idle; nothing else is. */
  lemma AcceptedExactly(es: seq<Event>, e: Event)
    requires ValidRun(Init(), es) && Enabled(After(Init(), es), e)
    ensures var s := After(Init(), es); var t := Next(s, e);
      && |s.issued| <= |t.issued| <= |s.issued| + 1
      && t.accepted == s.accepted +
           (if |t.issued| > |s.issued| && !s.out.writer.busy then [t.issued[|s.issued|]] else [])
  {
    hide ValidRun, After, Init, LR.Next, LR.Enabled, SerializeOutcome, Dispatch, EncodeChat, WriteNext;
    var s := After(Init(), es);
    assert s.accepted + [] == s.accepted;
    if !(e.Type? || e.StdinFails? || e.Line?) { NetStepKeepsCommands(s, e); }
  }

  /** Which requests the server can accept, for any id and text. */
  lemma AnswerableExactly(id: U32, text: Bytes)
    requires |text| < TWO64
    ensures Answerable(ChatMessage(id, text, 4)) <==> IdCost(id) + |text| <= 1019 && ValidUtf8(text)
  {
    hide ValidUtf8, EncodeChat;
    RequestFits(id, text);
  }

  /**
   Requests: in every run, with any interleaving of commands, partial writes and partial reads, the
   server's callback gets the accepted requests' encodings in order and byte for byte, each with its
   own prefix; the requests it handles are a prefix of the accepted ones; none of the server's type
   and length assertions fails; and it stops by itself only at a request that is too long or not UTF-8.
   */
  lemma RequestsArriveInOrder(es: seq<Event>)
    requires ValidRun(Init(), es)
    ensures var s := After(Init(), es);
      && s.out.wire <= Frames(Payloads(s.accepted))
      && |s.srv.delivered| <= |s.accepted|
      && (forall i :: 0 <= i < |s.srv.delivered| ==> s.srv.delivered[i] == EchoFramed(EncodeChat(s.accepted[i])))
      && s.requests <= s.accepted
      && s.srvFault in {None, Some(BadMessage)} && s.srv.fault in {None, Some(IoError), Some(LengthError)}
      && (!ServerAlive(s) && s.srv.fault != Some(IoError) ==>
            |s.requests| < |s.accepted| && !Answerable(s.accepted[|s.requests|]))
  {
    hide Next, Enabled, NetInv, InInv, Frames, Payloads, EncodeChat, EchoFramed;
    InitInv();
    RunInv(Init(), es);
    ServerState(After(Init(), es));
  }

  lemma ServerState(s: System)
    requires NetInv(s)
    ensures s.out.wire <= Frames(Payloads(s.accepted))
    ensures |s.srv.delivered| <= |s.accepted|
    ensures forall i :: 0 <= i < |s.srv.delivered| ==> s.srv.delivered[i] == EchoFramed(EncodeChat(s.accepted[i]))
    ensures s.requests <= s.accepted
    ensures s.srvFault in {None, Some(BadMessage)} && s.srv.fault in {None, Some(IoError), Some(LengthError)}
    ensures forall i :: 0 <= i < |s.requests| ==> Answerable(s.requests[i])
    ensures !ServerAlive(s) && s.srv.fault != Some(IoError) ==>
      |s.requests| < |s.accepted| && !Answerable(s.accepted[|s.requests|])
  {
    hide FR.Inv, OutInv, BackInv, CliInv, Replies, Frames, Payloads, EncodeChat, EchoFramed, ValidUtf8, EchoOk;
    RequestsOnWire(s);
    Delivery(s.srv, s.accepted);
  }

  /**
   Responses: in every run in which no send overlapped a write, the client has shown a prefix of the
   welcome and then the handled requests with only their type changed, in order; and none of its
   checks on incoming messages has failed.
   */
  lemma EchoesReturnInOrder(es: seq<Event>)
    requires ValidRun(Init(), es) && !After(Init(), es).back.overlapped
    ensures var s := After(Init(), es);
      && s.shown <= Replies(s.started, s.requests)
      && s.cliFault == None && s.cli.fault in {None, Some(IoError)}
  {
    hide Next, Enabled, InInv, OutInv, SrvInv, BackInv, Replies, FR.Inv;
    InitInv();
    RunInv(Init(), es);
  }

  /**
   Id and text come back unchanged: the k-th answer is the k-th accepted request, marked as a response,
   and carries the text of its command and that command's index modulo 2^32.
   */
  lemma AnswersMatchRequests(es: seq<Event>, k: nat)
    requires ValidRun(Init(), es) && !After(Init(), es).back.overlapped
    requires 1 <= k < |After(Init(), es).shown|
    ensures var s := After(Init(), es);
      && k <= |s.accepted|
      && s.shown[k] == s.accepted[k - 1].(typ := ECHO_RESPONSE)
      && |s.kept| == |s.accepted| && s.kept[k - 1] < |Texts(s.stdin.delivered)|
      && s.shown[k] == ChatMessage(s.kept[k - 1] % TWO32, Texts(s.stdin.delivered)[s.kept[k - 1]], ECHO_RESPONSE)
  {
    hide Next, Enabled, ValidRun, After, Replies, Init, Frames, Payloads, Answerable, EchoFramed, Texts, RequestsOf,
      LR.SplitLines;
    EchoesReturnInOrder(es);
    RequestsArriveInOrder(es);
    CommandsAreNumbered(es);
    var s := After(Init(), es);
    ReplyAt(s.started, s.requests, k);
    assert s.shown[k] == Replies(s.started, s.requests)[k];
  }

  lemma ReplyAt(started: bool, requests: seq<ChatMessage>, k: nat)
    ensures |Replies(started, requests)| == if started then 1 + |requests| else 0
    ensures 1 <= k < |Replies(started, requests)| ==> Replies(started, requests)[k] == Response(requests[k - 1])
  {
    hide Welcome;
    var answers := Responses(requests);
    assert started ==> Replies(started, requests) == [Welcome()] + answers;
  }

  // ---------------------------------------------------------------- what an overlap costs

  /** What a client has been shown takes no more bytes, framed again, than the frames it came from. */
  lemma {:induction false} ShownCost(shown: seq<ChatMessage>, delivered: seq<Framed>)
    requires ShownFrom(shown, delivered)
    ensures |Concat(FrameSeq(shown))| <= TotalSize(delivered)
  {
    hide ShowOutcome, FrameOf, EncodeChat, ParseChat, ValidUtf8;
    if shown != [] {
      ShownCost(shown[1..], delivered[1..]);
      assert FrameSeq(shown)[1..] == FrameSeq(shown[1..]);
      ShowsOnlyResponses(delivered[0].prefix, delivered[0].body);
      NothingIsShorter(delivered[0].body);
      FrameNotEmpty(EncodeChat(shown[0]));
    }
  }

  lemma ShownWithinReceived(s: System)
    requires NetInv(s)
    ensures |Concat(FrameSeq(s.shown))| <= |s.cli.received|
  {
    hide OutInv, SrvInv, BackInv, Replies, FrameSeq, Concat, ParseFrames, ParsePrefix, ShownFrom, FR.Live, FR.Ended;
    ShownCost(s.shown, s.cli.delivered);
    FramesTakeTheirBytes(s.cli.consumed, s.cli.reader.max);
  }

  lemma ReceivedWithinAccepted(s: System)
    requires NetInv(s)
    ensures |s.cli.received| <= |Concat(s.back.accepted)|
    ensures s.back.overlapped ==> |Concat(s.back.accepted)| < |Concat(FrameSeq(Replies(s.started, s.requests)))|
  {
    hide FR.Inv, OutInv, SrvInv, Replies, FrameSeq, Concat, OnWire, ShownFrom;
  }

  lemma FramesOfBoth(ms: seq<ChatMessage>, ns: seq<ChatMessage>)
    ensures Concat(FrameSeq(ms + ns)) == Concat(FrameSeq(ms)) + Concat(FrameSeq(ns))
  {
    hide FrameOf, EncodeChat, Concat;
    assert FrameSeq(ms + ns) == FrameSeq(ms) + FrameSeq(ns);
    ConcatAppend(FrameSeq(ms), FrameSeq(ns));
  }

  lemma NoFrames()
    ensures Concat(FrameSeq([])) == []
  {
  }

  lemma FramesAround(m: ChatMessage, before: seq<ChatMessage>, after: seq<ChatMessage>)
    ensures |Concat(FrameSeq(before + ([m] + after)))| ==
      |Concat(FrameSeq([m]))| + |Concat(FrameSeq(before + after))|
  {
    hide FrameSeq, Concat;
    FramesOfBoth(before, [m] + after);
    FramesOfBoth([m], after);
    FramesOfBoth(before, after);
  }

  lemma WithoutOne<T>(x: T, rest: seq<T>, before: seq<T>, after: seq<T>)
    requires multiset([x] + rest) <= multiset(before + ([x] + after))
    ensures multiset(rest) <= multiset(before + after)
  {
    var had, wanted := multiset(before + ([x] + after)), multiset([x] + rest);
    assert wanted == multiset{x} + multiset(rest);
    assert had == multiset{x} + multiset(before + after);
    forall y ensures multiset(rest)[y] <= multiset(before + after)[y] {
      assert wanted[y] <= had[y];
    }
  }

  lemma AroundFirst<T>(ms: seq<T>, ns: seq<T>) returns (before: seq<T>, after: seq<T>)
    requires ms != [] && multiset(ms) <= multiset(ns)
    ensures ns == before + ([ms[0]] + after) && multiset(ms[1..]) <= multiset(before + after)
  {
    assert ms[0] in multiset(ms);
    var k :| 0 <= k < |ns| && ns[k] == ms[0];
    before, after := ns[..k], ns[k + 1..];
    assert ns == before + ([ms[0]] + after) && ms == [ms[0]] + ms[1..];
    WithoutOne(ms[0], ms[1..], before, after);
  }

  /** Messages found among others, in whatever order, take no more bytes than those. */
  lemma {:induction false} PickedCost(ms: seq<ChatMessage>, ns: seq<ChatMessage>)
    requires multiset(ms) <= multiset(ns)
    ensures |Concat(FrameSeq(ms))| <= |Concat(FrameSeq(ns))|
  {
    hide FrameSeq, Concat;
    if ms == [] {
      NoFrames();
    } else {
      var before, after := AroundFirst(ms, ns);
      assert ms == [ms[0]] + ms[1..];
      PickedCost(ms[1..], before + after);
      FramesOfBoth([ms[0]], ms[1..]);
      FramesAround(ms[0], before, after);
    }
  }

  /**
   The exclusion in `EchoesReturnInOrder` is exact. From the first send that overlaps a write on, and
   whatever bytes that write goes on to send, the client has never been shown the welcome and an
   answer to every request handled, not even out of order or among other messages: the bytes it got
   cannot hold them all.
   */
  lemma OverlapLosesAnswers(es: seq<Event>)
    requires ValidRun(Init(), es)
    ensures var s := After(Init(), es);
      s.back.overlapped ==> !(multiset(Replies(s.started, s.requests)) <= multiset(s.shown))
  {
    hide Inv, Next, Enabled;
    InitInv();
    RunInv(Init(), es);
    NetOverlapLoses(After(Init(), es));
  }

  lemma NetOverlapLoses(s: System)
    requires Inv(s)
    ensures s.back.overlapped ==> !(multiset(Replies(s.started, s.requests)) <= multiset(s.shown))
  {
    hide CommandInv, NetInv, Replies, FrameSeq, Concat;
    ShownWithinReceived(s);
    ReceivedWithinAccepted(s);
    var replies := Replies(s.started, s.requests);
    if multiset(replies) <= multiset(s.shown) { PickedCost(replies, s.shown); }
  }
}
