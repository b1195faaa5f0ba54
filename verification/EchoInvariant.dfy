/** The invariant of the echo system is kept by every step. */
module EchoInvariant {
  import opened Basics
  import opened Utf8
  import opened Messages
  import opened Framing
  import opened Protocols
  import opened Readers
  import opened Writers
  import opened Commands
  import opened Clients
  import opened Connections
  import opened EchoSystem
  import FR = FrameReading
  import LR = LineReading

  // ---------------------------------------------------------------- single messages

  lemma EchoPayload(m: ChatMessage)
    requires EchoOk(m)
    ensures PayloadOk(EncodeChat(m)) && SerializeOutcome(m) == Ok(FrameOf(EncodeChat(m)))
  {
    hide EncodeChat, SerializeOutcome;
    EchoSerializes(m);
  }

  lemma AllEchoPayloads(ms: seq<ChatMessage>)
    requires AllEchoOk(ms)
    ensures PayloadsOk(Payloads(ms))
  {
    hide EncodeChat, SerializeOutcome, EchoOk;
    forall i | 0 <= i < |ms| ensures PayloadOk(Payloads(ms)[i]) { EchoPayload(ms[i]); }
  }

  lemma EchoParses(m: ChatMessage)
    requires EchoOk(m)
    ensures DeserializeOutcome(EchoPrefix(EncodeChat(m)), EncodeChat(m)) ==
      if ValidUtf8(m.text) then Ok(m) else Throws(BadMessage)
  {
    hide EncodeChat, ParseChat, ValidUtf8;
    ChatRoundTrip(m);
  }

  /** The server answers a request with the same message as a response, or rejects its text. */
  lemma RequestAnswered(m: ChatMessage)
    requires EchoOk(m) && m.typ == ECHO_REQUEST
    ensures ReplyOutcome(EchoPrefix(EncodeChat(m)), EncodeChat(m)) ==
      if ValidUtf8(m.text) then Ok(FrameOf(EncodeChat(Response(m)))) else Throws(BadMessage)
    ensures EchoOk(Response(m)) && (Answerable(m) ==> Answerable(Response(m)))
  {
    hide EncodeChat, ValidUtf8, SerializeOutcome, DeserializeOutcome;
    EchoParses(m);
    EchoPayload(Response(m));
    EchoIsOneByteEdit(m);
  }

  lemma ResponseShown(m: ChatMessage)
    requires EchoOk(m) && m.typ == ECHO_RESPONSE && ValidUtf8(m.text)
    ensures ShowOutcome(EchoPrefix(EncodeChat(m)), EncodeChat(m)) == Ok(m)
  {
    hide EncodeChat, ValidUtf8, DeserializeOutcome;
    EchoParses(m);
  }

  /** The system's command step is the handler's: same counter, same writer, same exception. */
  lemma CommandIsEchoCommand(s: System, text: Bytes)
    ensures var t := AfterCommand(s, RequestAt(s.count, text));
      var (count, writer, fault) := EchoCommand(s.count, s.out.writer, text);
      && (t.count, t.out.writer) == (count, writer)
      && t.cliFault == if fault.Some? then fault else s.cliFault
  {
    hide SerializeOutcome, EncodeChat;
  }

  // ---------------------------------------------------------------- message lists and wires

  lemma {:induction false} ConcatFrames(ms: seq<ChatMessage>)
    ensures Concat(FrameSeq(ms)) == Frames(Payloads(ms))
  {
    hide FrameOf, EncodeChat;
    if ms != [] {
      ConcatFrames(ms[1..]);
      assert FrameSeq(ms)[1..] == FrameSeq(ms[1..]);
      assert Payloads(ms)[1..] == Payloads(ms[1..]);
    }
  }

  lemma WireHoldsFrames(busy: bool, buffer: Bytes, sent: nat, wire: Bytes, ms: seq<ChatMessage>)
    requires OnWire(busy, buffer, sent, wire, FrameSeq(ms))
    ensures wire <= Frames(Payloads(ms))
    ensures !busy ==> wire == Frames(Payloads(ms))
  {
    hide FrameSeq, Payloads, Frames, Concat;
    OnWirePrefix(busy, buffer, sent, wire, FrameSeq(ms));
    ConcatFrames(ms);
  }

  lemma FrameSeqSnoc(ms: seq<ChatMessage>, m: ChatMessage)
    ensures FrameSeq(ms + [m]) == FrameSeq(ms) + [FrameOf(EncodeChat(m))]
  {
    hide FrameOf, EncodeChat;
  }

  /** What a reader has delivered of a stream that carries the frames of `ms`. */
  lemma Delivery(r: FR.FrameRun, ms: seq<ChatMessage>)
    requires FR.Inv(r) && AllEchoOk(ms) && r.received <= Frames(Payloads(ms))
    ensures |r.delivered| <= |ms|
    ensures forall i :: 0 <= i < |r.delivered| ==> r.delivered[i] == EchoFramed(EncodeChat(ms[i]))
    ensures forall i :: 0 <= i < |r.delivered| ==> |EncodeChat(ms[i])| <= r.reader.max
    ensures r.fault in {None, Some(IoError), Some(LengthError)}
    ensures r.fault == Some(LengthError) ==>
      |r.delivered| < |ms| && |EncodeChat(ms[|r.delivered|])| > r.reader.max
    ensures FR.Settled(r) && r.fault == None && r.received == Frames(Payloads(ms)) ==> |r.delivered| == |ms|
  {
    hide FrameOf, EncodeChat, ParseFrames, FR.Inv, Payloads, Frames, EchoFramed, EchoOk;
    AllEchoPayloads(ms);
    var ps := Payloads(ms);
    ParseCutStream(ps, r.received, r.reader.max);
    FR.InvRefines(r);
    DeliveredFit(r);
    FaultKinds(r);
    var parse := ParseFrames(r.received, r.reader.max);
    forall i | 0 <= i < |r.delivered| ensures r.delivered[i] == EchoFramed(EncodeChat(ms[i])) {
      assert r.delivered[i] == parse.frames[i];
    }
    forall i | 0 <= i < |r.delivered| ensures |EncodeChat(ms[i])| <= r.reader.max {
      assert r.delivered[i] == EchoFramed(EncodeChat(ms[i]));
      EchoFramedSize(EncodeChat(ms[i]));
    }
    if |parse.frames| < |ps| {
      FramesReach(ps, |parse.frames|);
    }
  }

  lemma EchoFramedSize(p: Bytes)
    ensures EchoFramed(p).body == p
  {
  }

  lemma FaultKinds(r: FR.FrameRun)
    requires FR.Inv(r)
    ensures r.fault in {None, Some(IoError), Some(LengthError), Some(BadPrefix)}
    ensures r.fault == Some(BadPrefix) ==> FR.Settled(r) && FR.EndOf(r) == Malformed
    ensures r.fault == Some(LengthError) ==> FR.Settled(r) && FR.EndOf(r) == Oversized
    ensures r.fault == None && FR.Settled(r) ==> FR.EndOf(r).Pending?
  {
    hide ParseFrames, ParsePrefix;
  }

  lemma DeliveredFit(r: FR.FrameRun)
    requires FR.Inv(r)
    ensures forall i :: 0 <= i < |r.delivered| ==> |r.delivered[i].body| <= r.reader.max
  {
    hide ParseFrames, ParsePrefix;
    ParsedFramesFit(r.consumed, r.reader.max);
  }

  lemma {:induction false} ParsedFramesFit(s: Bytes, max: nat)
    ensures forall i :: 0 <= i < |ParseFrames(s, max).frames| ==> |ParseFrames(s, max).frames[i].body| <= max
    decreases |s|
  {
    hide ParsePrefix;
    if |s| >= PREFIX_SIZE && ParsePrefix(s[..PREFIX_SIZE]).Some? {
      var p := ParsePrefix(s[..PREFIX_SIZE]).value;
      if p.size <= max && PREFIX_SIZE + p.size <= |s| {
        ParsedFramesFit(s[PREFIX_SIZE + p.size..], max);
      }
    }
  }

  lemma FramesReach(ps: seq<Bytes>, n: nat)
    requires n < |ps|
    ensures |Frames(ps)| >= |Frames(ps[..n])| + |FrameOf(ps[n])|
  {
    hide FrameOf;
    assert ps == ps[..n] + ps[n..];
    FramesAppend(ps[..n], ps[n..]);
  }

  // ---------------------------------------------------------------- monotonicity

  lemma SrvGrows(srv: FR.FrameRun, wire: Bytes, wire': Bytes, accepted: seq<ChatMessage>, accepted': seq<ChatMessage>,
                 requests: seq<ChatMessage>, srvFault: Option<Fault>, started: bool)
    requires SrvInv(srv, wire, accepted, requests, srvFault, started) && wire <= wire' && accepted <= accepted'
    ensures SrvInv(srv, wire', accepted', requests, srvFault, started)
  {
    hide FR.Inv, Answerable, ValidUtf8;
  }

  lemma CliGrows(cli: FR.FrameRun, back: SenderRun, back': SenderRun, replies: seq<ChatMessage>,
                 replies': seq<ChatMessage>, shown: seq<ChatMessage>, cliFault: Option<Fault>)
    requires CliInv(cli, back, replies, shown, cliFault)
    requires back.wire <= back'.wire && replies <= replies' && (back.overlapped ==> back'.overlapped)
    ensures CliInv(cli, back', replies', shown, cliFault)
  {
    hide FR.Inv;
  }

  /** Outgoing `serialize` calls do not disturb the reader that shares the protocol object. */
  lemma SerCacheIrrelevant(r: FR.FrameRun, p: FramePrefix)
    requires FR.Inv(r)
    ensures FR.Inv(r.(caches := r.caches.(ser := p)))
  {
    hide ParsePrefix, ParseFrames;
  }

  // ---------------------------------------------------------------- the command side

  lemma LinesAreShort(stdin: LR.LineRun)
    requires LR.Inv(stdin, NEWLINE, true)
    ensures forall i :: 0 <= i < |stdin.delivered| ==> |stdin.delivered[i]| < stdin.reader.max
  {
    hide LR.SplitLines;
    LR.SplitConserves(stdin.consumed, NEWLINE, stdin.reader.max);
  }

  lemma SameId(n: nat)
    ensures n % TWO64 % TWO32 == n % TWO32
  {
    var q, r := n / TWO64, n % TWO64;
    assert n == TWO64 * q + r;
    assert n == TWO32 * (TWO32 * q + r / TWO32) + r % TWO32;
    assert n / TWO32 == TWO32 * q + r / TWO32;
  }

  lemma CountUp(n: nat)
    ensures (n % TWO64 + 1) % TWO64 == (n + 1) % TWO64
  {
  }

  lemma SubsequenceGrows(picked: seq<ChatMessage>, at: seq<nat>, all: seq<ChatMessage>, m: ChatMessage)
    requires Subsequence(picked, at, all)
    ensures Subsequence(picked, at, all + [m])
    ensures Subsequence(picked + [m], at + [|all|], all + [m])
  {
  }

  /** The callback on the last line of `lines` issues the last request of `RequestsOf(lines)`. */
  lemma LineIssues(lines: seq<Bytes>, count: nat)
    requires lines != [] && |lines[|lines| - 1]| < MAX
    requires count == |RequestsOf(lines[..|lines| - 1])| % TWO64
    ensures var before := RequestsOf(lines[..|lines| - 1]);
      match Dispatch(lines[|lines| - 1])
      case None => RequestsOf(lines) == before
      case Some(text) => RequestsOf(lines) == before + [RequestAt(count, text)] && EchoOk(RequestAt(count, text))
  {
    hide Dispatch;
    var before := RequestsOf(lines[..|lines| - 1]);
    SameId(|before|);
    DispatchShortens(lines[|lines| - 1]);
    match Dispatch(lines[|lines| - 1])
    case None => assert RequestsOf(lines) == before;
    case Some(text) => assert RequestsOf(lines) == before + [RequestAt(count, text)];
  }

  lemma WriterAccepts(out: WriterRun, accepted: seq<ChatMessage>, m: ChatMessage)
    requires OutInv(out, accepted) && EchoOk(m) && m.typ == ECHO_REQUEST
    ensures var next := WriteNext(out, Write(FrameOf(EncodeChat(m))));
      && next.wire == out.wire
      && OutInv(next, if out.writer.busy then accepted else accepted + [m])
  {
    hide FrameOf, EncodeChat, WriterInv;
    WriteNextInv(out, Write(FrameOf(EncodeChat(m))));
    FrameSeqSnoc(accepted, m);
  }

  /** What sending a request does to the system, knowing that its serialization succeeds. */
  function Issued(s: System, m: ChatMessage): System {
    var t := s.(cli := s.cli.(caches := s.cli.caches.(ser := EchoPrefix(EncodeChat(m)))),
                count := (s.count + 1) % TWO64, issued := s.issued + [m],
                out := WriteNext(s.out, Write(FrameOf(EncodeChat(m)))));
    if s.out.writer.busy then t
    else t.(kept := s.kept + [|s.issued|], accepted := s.accepted + [m])
  }

  lemma CommandIssues(s: System, m: ChatMessage)
    requires EchoOk(m)
    ensures AfterCommand(s, m) == Issued(s, m)
  {
    hide SerializeOutcome, EncodeChat, FrameOf, EchoOk, WriteNext, EchoPrefix;
    EchoPayload(m);
  }

  lemma IssuedNet(s: System, m: ChatMessage)
    requires NetInv(s) && EchoOk(m) && m.typ == ECHO_REQUEST
    ensures NetInv(Issued(s, m))
  {
    hide FR.Inv, OutInv, SrvInv, BackInv, EncodeChat, FrameOf, WriteNext, Replies, EchoPrefix;
    WriterAccepts(s.out, s.accepted, m);
    SrvGrows(s.srv, s.out.wire, s.out.wire, s.accepted, s.accepted + [m], s.requests, s.srvFault, s.started);
    SerCacheIrrelevant(s.cli, EchoPrefix(EncodeChat(m)));
  }

  /** `stdin` has just delivered one more line than the system has seen. */
  lemma LineStep(s: System, stdin: LR.LineRun, line: Bytes)
    requires Inv(s) && LR.Inv(stdin, NEWLINE, true) && stdin.reader.max == MAX
    requires stdin.delivered == s.stdin.delivered + [line]
    ensures Inv(AfterLine(s, stdin))
  {
    hide LR.Inv, OutInv, SrvInv, BackInv, CliInv, Dispatch, AfterCommand, FrameOf, EncodeChat, Replies, WriteNext;
    var t := s.(stdin := stdin);
    LinesAreShort(stdin);
    assert stdin.delivered[..|stdin.delivered| - 1] == s.stdin.delivered;
    LineIssues(stdin.delivered, s.count);
    if Dispatch(line).Some? {
      var m := RequestAt(s.count, Dispatch(line).value);
      CommandIssues(t, m);
      IssuedNet(t, m);
      CountUp(|s.issued|);
      SubsequenceGrows(s.accepted, s.kept, s.issued, m);
    }
  }

  // ---------------------------------------------------------------- the wire from client to server

  lemma ClientWriteStep(s: System, e: WriteEvent)
    requires NetInv(s) && WriteEnabled(s.out, e) && !e.Write?
    ensures NetInv(s.(out := WriteNext(s.out, e)))
  {
    hide FR.Inv, WriterInv, SrvInv, BackInv, CliInv, Replies, EchoOk;
    WriteNextInv(s.out, e);
    SrvGrows(s.srv, s.out.wire, WriteNext(s.out, e).wire, s.accepted, s.accepted, s.requests, s.srvFault, s.started);
  }

  lemma RequestsOnWire(s: System)
    requires NetInv(s)
    ensures AllEchoOk(s.accepted) && s.out.wire <= Frames(Payloads(s.accepted))
    ensures !s.out.writer.busy ==> s.out.wire == Frames(Payloads(s.accepted))
  {
    hide SrvInv, BackInv, CliInv, Replies, EchoOk, OnWire;
    WireHoldsFrames(s.out.writer.busy, s.out.writer.buffer, s.out.writer.sent, s.out.wire, s.accepted);
  }

  lemma ServerInputStep(s: System, e: FR.Event)
    requires NetInv(s) && FR.Enabled(s.srv, e) && s.srv.reader.op.ReadExact?
    requires e.Fail? || (e.Arrive? && s.srv.received + e.chunk <= s.out.wire)
    ensures NetInv(s.(srv := FR.Next(s.srv, e)))
  {
    hide FR.Inv, OutInv, BackInv, CliInv, Replies, Answerable, ValidUtf8;
    FR.NextInv(s.srv, e);
  }

  // ---------------------------------------------------------------- the server's answers

  lemma RepliesSnoc(requests: seq<ChatMessage>, m: ChatMessage)
    ensures Replies(true, requests + [m]) == Replies(true, requests) + [Response(m)]
  {
    hide Welcome;
    assert Responses(requests + [m]) == Responses(requests) + [Response(m)];
  }

  lemma FrameNotEmpty(p: Bytes)
    ensures 1 <= |FrameOf(p)| <= PREFIX_SIZE + |p|
  {
    PrefixBytes(EchoPrefix(p));
  }

  lemma BackSends(back: SenderRun, replies: seq<ChatMessage>, m: ChatMessage)
    requires BackInv(back, replies)
    ensures var next := SendNext(back, Send(FrameOf(EncodeChat(m))));
      && BackInv(next, replies + [m])
      && next.wire == back.wire
      && (back.overlapped ==> next.overlapped)
  {
    hide FrameOf, EncodeChat, SenderInv, Concat;
    var frame := FrameOf(EncodeChat(m));
    SendNextInv(back, Send(frame));
    FrameSeqSnoc(replies, m);
    ConcatSnoc(FrameSeq(replies), frame);
    ConcatSnoc(back.accepted, frame);
    FrameNotEmpty(EncodeChat(m));
  }

  lemma ServerStartStep(s: System, srv: FR.FrameRun)
    requires NetInv(s) && ServerAlive(s) && !s.started && srv == FR.Next(s.srv, FR.Start(0))
    ensures NetInv(s.(started := true, srv := srv, back := SendNext(s.back, Send(FrameOf(EncodeChat(Welcome()))))))
  {
    hide FR.Inv, OutInv, FrameOf, EncodeChat, Welcome, CliInv, Answerable, BackInv, SendNext;
    FR.NextInv(s.srv, FR.Start(0));
    FR.StartEffect(s.srv, 0);
    var back := SendNext(s.back, Send(FrameOf(EncodeChat(Welcome()))));
    assert Replies(s.started, s.requests) == [];
    assert Replies(true, s.requests) == [Welcome()] + [] == [] + [Welcome()];
    BackSends(s.back, [], Welcome());
    CliGrows(s.cli, s.back, back, [], Replies(true, s.requests), s.shown, s.cliFault);
  }

  lemma ServerRejects(s: System, srv: FR.FrameRun)
    requires NetInv(s) && s.srvFault == None && |s.requests| < |s.accepted|
    requires FR.Inv(srv) && srv.reader.max == MAX && srv.received <= s.out.wire && s.started
    requires srv.fault == None ==> srv.reader.op.ReadExact?
    requires |srv.delivered| == |s.requests| + 1 && !ValidUtf8(s.accepted[|s.requests|].text)
    ensures NetInv(s.(srv := srv, srvFault := Some(BadMessage)))
  {
    hide FR.Inv, OutInv, BackInv, CliInv, Replies, Answerable, ValidUtf8;
  }

  lemma ServerAnswers(s: System, srv: FR.FrameRun, m: ChatMessage)
    requires NetInv(s) && s.srvFault == None && |s.requests| < |s.accepted| && m == s.accepted[|s.requests|]
    requires FR.Inv(srv) && srv.reader.max == MAX && srv.received <= s.out.wire && s.started
    requires srv.fault == None ==> srv.reader.op.ReadExact?
    requires |srv.delivered| == |s.requests| + 1 && Answerable(m)
    ensures NetInv(s.(srv := srv, requests := s.requests + [m],
                      back := SendNext(s.back, Send(FrameOf(EncodeChat(Response(m)))))))
  {
    hide FR.Inv, OutInv, BackInv, CliInv, Replies, Answerable, FrameOf, EncodeChat, SendNext, Response;
    var back := SendNext(s.back, Send(FrameOf(EncodeChat(Response(m)))));
    var replies, replies' := Replies(true, s.requests), Replies(true, s.requests + [m]);
    RepliesSnoc(s.requests, m);
    BackSends(s.back, replies, Response(m));
    CliGrows(s.cli, s.back, back, replies, replies', s.shown, s.cliFault);
    assert SrvInv(srv, s.out.wire, s.accepted, s.requests + [m], None, true);
  }

  lemma ServerReadStep(s: System)
    requires NetInv(s) && Enabled(s, ServerRead)
    ensures NetInv(Next(s, ServerRead))
  {
    hide FR.Inv, FR.Next, FR.Enabled, OutInv, BackInv, CliInv, Replies, FrameOf, EncodeChat, SendNext,
      ReplyOutcome, DeserializeOutcome, ValidUtf8, EchoOk, Frames;
    var srv, n := FR.Next(s.srv, FR.Done), |s.requests|;
    FR.NextInv(s.srv, FR.Done);
    FR.DoneEffect(s.srv);
    RequestsOnWire(s);
    if |srv.delivered| > |s.srv.delivered| {
      Delivery(srv, s.accepted);
      var m := s.accepted[n];
      assert srv.delivered[n] == Framed(srv.caches.deser, s.srv.reader.buffer) == EchoFramed(EncodeChat(m));
      assert m.typ == ECHO_REQUEST by { AcceptedAreRequests(s); }
      RequestAnswered(m);
      EchoParses(m);
      if ValidUtf8(m.text) {
        var p := EchoPrefix(EncodeChat(Response(m)));
        SerCacheIrrelevant(srv, p);
        ServerAnswers(s, srv.(caches := srv.caches.(ser := p)), m);
      } else {
        ServerRejects(s, srv);
      }
    }
  }

  lemma AcceptedAreRequests(s: System)
    requires NetInv(s)
    ensures forall i :: 0 <= i < |s.accepted| ==> s.accepted[i].typ == ECHO_REQUEST
  {
    hide FR.Inv, SrvInv, BackInv, CliInv, Replies, WriterInv;
  }

  // ---------------------------------------------------------------- the wire from server to client

  lemma ServerSendStep(s: System, e: SendEvent)
    requires NetInv(s) && SendEnabled(s.back, e) && !e.Send?
    ensures NetInv(s.(back := SendNext(s.back, e)))
  {
    hide FR.Inv, SenderInv, OutInv, SrvInv, CliInv, Replies, FrameSeq;
    var replies := Replies(s.started, s.requests);
    SendNextInv(s.back, e);
    CliGrows(s.cli, s.back, SendNext(s.back, e), replies, replies, s.shown, s.cliFault);
  }

  lemma ClientInputStep(s: System, e: FR.Event)
    requires NetInv(s) && FR.Enabled(s.cli, e)
    requires e.Fail? || (e.Arrive? && s.cli.received + e.chunk <= s.back.wire)
    ensures NetInv(s.(cli := FR.Next(s.cli, e)))
  {
    hide FR.Inv, OutInv, SrvInv, BackInv, Replies;
    FR.NextInv(s.cli, e);
  }

  lemma RepliesAreOk(s: System)
    requires NetInv(s)
    ensures RepliesOk(Replies(s.started, s.requests)) && AllEchoOk(Replies(s.started, s.requests))
  {
    hide FR.Inv, BackInv, CliInv, WriterInv, Welcome, EncodeChat, ValidUtf8, FrameSeq;
    var replies := Replies(s.started, s.requests);
    forall i | 0 <= i < |replies|
      ensures EchoOk(replies[i]) && replies[i].typ == ECHO_RESPONSE && Answerable(replies[i])
    {
      if i == 0 {
        WelcomeIsOk();
      } else {
        assert s.requests[i - 1] == s.accepted[i - 1];
        RequestAnswered(s.requests[i - 1]);
      }
    }
  }

  lemma WelcomeIsOk()
    ensures EchoOk(Welcome()) && Welcome().typ == ECHO_RESPONSE && Answerable(Welcome())
  {
    hide EncodeChat, ValidUtf8, FromAscii;
    WelcomeFits();
  }

  lemma RepliesOnWire(s: System)
    requires NetInv(s) && !s.back.overlapped
    ensures var replies := Replies(s.started, s.requests);
      && s.back.wire <= Frames(Payloads(replies))
      && (!s.back.sender.busy ==> s.back.wire == Frames(Payloads(replies)))
  {
    hide FR.Inv, OutInv, SrvInv, CliInv, Replies, OnWire, Payloads, Frames, FrameSeq;
    var q := s.back.sender;
    WireHoldsFrames(q.busy, q.sendMsg, q.sent, s.back.wire, Replies(s.started, s.requests));
  }

  /** Until a send overlaps a write, whatever the client's reader delivers is the next reply, and is shown. */
  lemma ClientShows(s: System, cli: FR.FrameRun)
    requires NetInv(s) && !s.back.overlapped
    requires FR.Inv(cli) && cli.reader.max == MAX && cli.received <= s.back.wire
    ensures var replies := Replies(s.started, s.requests);
      && |cli.delivered| <= |replies|
      && cli.fault in {None, Some(IoError)}
      && forall i :: 0 <= i < |cli.delivered| ==>
           && cli.delivered[i] == EchoFramed(EncodeChat(replies[i]))
           && ShowOutcome(cli.delivered[i].prefix, cli.delivered[i].body) == Ok(replies[i])
  {
    hide FR.Inv, OutInv, SrvInv, BackInv, CliInv, Replies, EncodeChat, ShowOutcome, Frames, Payloads, EchoOk,
      ValidUtf8;
    var replies := Replies(s.started, s.requests);
    RepliesAreOk(s);
    RepliesOnWire(s);
    Delivery(cli, replies);
    forall i | 0 <= i < |cli.delivered|
      ensures ShowOutcome(cli.delivered[i].prefix, cli.delivered[i].body) == Ok(replies[i])
    {
      ResponseShown(replies[i]);
    }
  }

  lemma ClientReadStep(s: System)
    requires NetInv(s) && FR.Enabled(s.cli, FR.Done) && s.cliFault == None
    ensures NetInv(AfterClientRead(s, FR.Next(s.cli, FR.Done)))
  {
    hide FR.Inv, FR.Next, FR.Enabled, OutInv, SrvInv, BackInv, Replies, EncodeChat, ShowOutcome;
    var cli := FR.Next(s.cli, FR.Done);
    FR.NextInv(s.cli, FR.Done);
    FR.DoneEffect(s.cli);
    if !s.back.overlapped {
      ClientShows(s, cli);
      if |cli.delivered| > |s.cli.delivered| {
        assert cli.delivered[|s.shown|].prefix == cli.caches.deser;
      }
    }
  }

  // ---------------------------------------------------------------- every step, every run

  lemma InputStep(s: System, stdin: LR.LineRun)
    requires Inv(s) && LR.Inv(stdin, NEWLINE, true) && stdin.reader.max == MAX && stdin.delivered == s.stdin.delivered
    ensures Inv(s.(stdin := stdin))
  {
    hide LR.Inv, OutInv, SrvInv, BackInv, CliInv;
  }

  lemma ChunkFits(r: FR.FrameRun, wire: Bytes, count: nat)
    requires r.received <= wire && |r.received| + count <= |wire|
    ensures r.received + Chunk(r, wire, count) <= wire
  {
    assert r.received == wire[..|r.received|];
  }

  lemma CommandSideStep(s: System, e: Event)
    requires Inv(s) && Enabled(s, e) && (e.Type? || e.StdinFails? || e.Line?)
    ensures Inv(Next(s, e))
  {
    hide LR.Inv, LR.LineDone, NetInv, AfterLine, IndexOf;
    match e
    case Type(chunk) =>
      LR.NextInv(s.stdin, LR.Arrive(chunk), NEWLINE, true);
      InputStep(s, LR.Next(s.stdin, LR.Arrive(chunk)));
    case StdinFails(code) =>
      LR.NextInv(s.stdin, LR.Fail(code), NEWLINE, true);
      InputStep(s, LR.Next(s.stdin, LR.Fail(code)));
    case Line =>
      LR.LineDoneInv(s.stdin, NEWLINE, true);
      var stdin := LR.Next(s.stdin, LR.Done);
      var line := stdin.delivered[|s.stdin.delivered|];
      assert stdin.delivered == stdin.delivered[..|s.stdin.delivered|] + [line];
      LineStep(s, stdin, line);
  }

  lemma NetStep(s: System, e: Event)
    requires NetInv(s) && Enabled(s, e) && !(e.Type? || e.StdinFails? || e.Line?)
    ensures NetInv(Next(s, e))
  {
    hide NetInv, AfterServerRead, AfterClientRead, FR.Next, SendNext, SendEnabled, WriteNext, WriteEnabled,
      Chunk, FrameOf;
    match e
    case ClientPiece(count) => ClientWriteStep(s, Piece(count));
    case ClientWritten => ClientWriteStep(s, Finished);
    case ServerStart => ServerStartStep(s, FR.Next(s.srv, FR.Start(0)));
    case ServerBytes(count) =>
      ReceivedSoFar(s);
      ReadPending(s.srv, FR.Arrive(Chunk(s.srv, s.out.wire, count)));
      ChunkFits(s.srv, s.out.wire, count);
      ServerInputStep(s, FR.Arrive(Chunk(s.srv, s.out.wire, count)));
    case ServerRead => ServerReadStep(s);
    case ServerFails(code) =>
      ReadPending(s.srv, FR.Fail(code));
      ServerInputStep(s, FR.Fail(code));
    case ServerPiece(piece) => ServerSendStep(s, SendPiece(piece));
    case ServerWritten => ServerSendStep(s, SendFinished);
    case ClientBytes(count) =>
      ReceivedSoFar(s);
      ChunkFits(s.cli, s.back.wire, count);
      ClientInputStep(s, FR.Arrive(Chunk(s.cli, s.back.wire, count)));
    case ClientRead => ClientReadStep(s);
    case ClientFails(code) => ClientInputStep(s, FR.Fail(code));
  }

  lemma ReceivedSoFar(s: System)
    requires NetInv(s)
    ensures s.srv.received <= s.out.wire && s.cli.received <= s.back.wire
  {
    hide FR.Inv, OutInv, BackInv, Replies;
  }

  lemma ReadPending(r: FR.FrameRun, e: FR.Event)
    requires FR.Enabled(r, e) && (e.Arrive? || e.Fail?)
    ensures r.reader.op.ReadExact?
  {
  }

  lemma NetStepKeepsCommands(s: System, e: Event)
    requires Enabled(s, e) && !(e.Type? || e.StdinFails? || e.Line?)
    ensures var t := Next(s, e);
      (t.stdin, t.count, t.issued, t.kept, t.accepted) == (s.stdin, s.count, s.issued, s.kept, s.accepted)
  {
    hide FR.Next, FR.Enabled, SendNext, SendEnabled, WriteNext, WriteEnabled, Chunk, FrameOf, ReplyOutcome,
      ShowOutcome,
      DeserializeOutcome, Welcome, EncodeChat;
  }

  lemma NextInv(s: System, e: Event)
    requires Inv(s) && Enabled(s, e)
    ensures Inv(Next(s, e))
  {
    hide NetInv, Next, Enabled, InInv;
    if e.Type? || e.StdinFails? || e.Line? {
      CommandSideStep(s, e);
    } else {
      NetStep(s, e);
      NetStepKeepsCommands(s, e);
    }
  }

  lemma InitInv()
    ensures Inv(Init())
  {
    hide FR.Inv, LR.Inv, ParsePrefix, ParseFrames, LR.SplitLines, Welcome;
    LR.InitInv(MAX, 0, NEWLINE, true);
    FR.InitInv(MAX);
    FR.NextInv(FR.Init(MAX), FR.Start(0));
    FR.StartEffect(FR.Init(MAX), 0);
    assert RequestsOf([]) == [];
    assert FrameSeq([]) == [];
    assert Concat([]) == [];
  }

  lemma {:induction false} RunInv(s: System, es: seq<Event>)
    requires Inv(s) && ValidRun(s, es)
    ensures Inv(After(s, es))
    decreases |es|
  {
    hide Inv, Enabled, Next;
    if es != [] {
      NextInv(s, es[0]);
      RunInv(Next(s, es[0]), es[1..]);
    }
  }

  lemma {:induction false} RunAppend(s: System, es: seq<Event>, fs: seq<Event>)
    requires ValidRun(s, es) && ValidRun(After(s, es), fs)
    ensures ValidRun(s, es + fs) && After(s, es + fs) == After(After(s, es), fs)
    decreases |es|
  {
    hide Enabled, Next;
    if es == [] {
      assert es + fs == fs;
    } else {
      RunAppend(Next(s, es[0]), es[1..], fs);
      assert (es + fs)[1..] == es[1..] + fs;
    }
  }
}
