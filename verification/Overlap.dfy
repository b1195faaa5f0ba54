/**
 Why the echo theorem excludes overlapping sends: one short command that reaches the server while
 the welcome is still being written replaces the welcome under the pending write, and the client is
 shown an answer where the welcome belongs.
 */
module Overlap {
  import opened Basics
  import opened Utf8
  import opened Messages
  import opened Framing
  import opened Protocols
  import opened Readers
  import opened Writers
  import opened Commands
  import opened Clients
  import opened Connections
  import opened EchoSystem
  import opened EchoInvariant
  import FR = FrameReading
  import LR = LineReading

  /** The command `>echo` with an empty text. */
  const TYPED: Bytes := ECHO_CMD_PREFIX + [NEWLINE]

  function EmptyRequest(): ChatMessage { Request(0, []) }

  /** Its payload, and that of the answer. */
  const PAYLOAD: Bytes := [0x78, 4]
  const ANSWER: Bytes := [0x78, 5]

  /** The server gets the request before it has written any of the welcome; then the client reads. */
  const SERVER_SIDE: seq<Event> := [
    Type(TYPED), Line, ClientPiece(12), ServerStart, ServerBytes(10), ServerRead, ServerBytes(2), ServerRead,
    ServerPiece(FrameOf(ANSWER))]

  const CLIENT_SIDE: seq<Event> := [ClientBytes(10), ClientRead, ClientBytes(2), ClientRead]

  lemma RequestPayload()
    ensures EncodeChat(EmptyRequest()) == PAYLOAD
    ensures EncodeChat(Response(EmptyRequest())) == ANSWER
    ensures EchoOk(EmptyRequest()) && EchoOk(Response(EmptyRequest())) && ValidUtf8(EmptyRequest().text)
  {
    ChatBytes(EmptyRequest());
    ChatBytes(Response(EmptyRequest()));
  }

  lemma WelcomeSize()
    ensures |EncodeChat(Welcome())| == 50
  {
    hide EncodeChat, ValidUtf8, FromAscii;
    WelcomeFits();
    ByteSizeIsLength(Welcome());
  }

  lemma CommandTyped() returns (s: System)
    ensures Enabled(Init(), Type(TYPED)) && s == Next(Init(), Type(TYPED))
    ensures s == Init().(stdin := s.stdin) && Enabled(s, Line)
    ensures s.stdin.reader.buffer == TYPED && s.stdin.delivered == []
    ensures s.stdin.reader.op == ReadUntil(NEWLINE, true) && s.stdin.fault == None
  {
    assert NEWLINE !in Init().stdin.reader.buffer;
    s := Next(Init(), Type(TYPED));
    assert TYPED[5] == NEWLINE;
    assert s.stdin.reader.buffer == [] + TYPED == TYPED;
  }

  lemma LineDelivered(r: LR.LineRun)
    requires LR.Enabled(r, LR.Done) && r.reader.buffer == TYPED && r.delivered == []
    requires r.reader.op == ReadUntil(NEWLINE, true)
    ensures LR.Next(r, LR.Done).delivered == [ECHO_CMD_PREFIX] && LR.Next(r, LR.Done).fault == r.fault
  {
    var line := ECHO_CMD_PREFIX;
    IndexOfLine(line, NEWLINE, []);
    assert line + [NEWLINE] + [] == TYPED;
    assert TYPED[..5] == line;
    assert [] + [line] == [line];
  }

  lemma EmptyEchoDispatches()
    ensures Dispatch(ECHO_CMD_PREFIX) == Some([])
  {
    var line := ECHO_CMD_PREFIX;
    assert [] + line + [] + [] + [] == line;
    EchoLineDispatches(line, [], [], [], []);
  }

  lemma CommandSent(s: System) returns (t: System)
    requires s == Init().(stdin := s.stdin) && Enabled(s, Line)
    requires s.stdin.reader.buffer == TYPED && s.stdin.delivered == []
    requires s.stdin.reader.op == ReadUntil(NEWLINE, true) && s.stdin.fault == None
    ensures t == Next(s, Line)
    ensures t.out == WriterRun(WriterState(true, FrameOf(PAYLOAD), 0), [], [FrameOf(PAYLOAD)])
    ensures t.accepted == [EmptyRequest()] && ServerAlive(t) && ClientAlive(t)
    ensures (t.srv, t.back, t.started, t.requests, t.shown) == (Init().srv, Init().back, false, [], [])
    ensures Waiting(t.cli) && t.cli.received == [] && t.cli.delivered == []
  {
    hide EncodeChat, FrameOf, Dispatch, AfterCommand, LR.Next, LR.Enabled, ValidUtf8;
    t := Next(s, Line);
    LineDelivered(s.stdin);
    EmptyEchoDispatches();
    RequestPayload();
    assert RequestAt(0, []) == EmptyRequest();
    CommandIssues(s.(stdin := LR.Next(s.stdin, LR.Done)), EmptyRequest());
  }

  // ---------------------------------------------------------------- a reader takes one frame

  predicate Waiting(r: FR.FrameRun) {
    && r.reader.op == ReadExact(PREFIX_SIZE, 0, PrefixPhase) && r.reader.buffer == []
    && r.fault == None && r.reader.max == MAX
  }

  predicate PrefixIn(r: FR.FrameRun, p: Bytes) {
    && PayloadOk(p) && r.fault == None && r.reader.max == MAX
    && r.reader.op == ReadExact(PREFIX_SIZE, PREFIX_SIZE, PrefixPhase) && r.reader.buffer == FrameOf(p)[..PREFIX_SIZE]
  }

  predicate PrefixRead(r: FR.FrameRun, p: Bytes) {
    && r.fault == None && r.reader.max == MAX && r.caches.deser == EchoPrefix(p)
    && r.reader.op == ReadExact(|p|, 0, MessagePhase) && r.reader.buffer == []
  }

  predicate MessageIn(r: FR.FrameRun, p: Bytes) {
    && r.fault == None && r.reader.max == MAX && r.caches.deser == EchoPrefix(p)
    && r.reader.op == ReadExact(|p|, |p|, MessagePhase) && r.reader.buffer == p
  }

  lemma PrefixHandled(r: FR.FrameRun, p: Bytes)
    requires PrefixIn(r, p) && |p| <= MAX
    ensures FR.Enabled(r, FR.Done)
    ensures var q := FR.Next(r, FR.Done);
      PrefixRead(q, p) && q.delivered == r.delivered && q.received == r.received
  {
    hide FrameOf, ParsePrefix;
    FrameHead(p);
    assert r.reader.buffer[..PREFIX_SIZE] == r.reader.buffer && r.reader.buffer[PREFIX_SIZE..] == [];
  }

  lemma MessageHandled(r: FR.FrameRun, p: Bytes)
    requires MessageIn(r, p)
    ensures FR.Enabled(r, FR.Done)
    ensures var q := FR.Next(r, FR.Done);
      && q.fault == None && q.delivered == r.delivered + [EchoFramed(p)]
      && q.caches.deser == EchoPrefix(p)
  {
    hide ParsePrefix;
    assert p[..|p|] == p;
  }

  lemma PrefixTaken(r: FR.FrameRun, p: Bytes)
    requires Waiting(r) && r.received == [] && PayloadOk(p)
    ensures BytesReady(r, FrameOf(p), 10)
    ensures var q := FR.Next(r, FR.Arrive(Chunk(r, FrameOf(p), 10)));
      PrefixIn(q, p) && q.received == FrameOf(p)[..10] && q.delivered == r.delivered
  {
    hide FrameOf;
    FrameHead(p);
    assert Chunk(r, FrameOf(p), 10) == FrameOf(p)[..10];
    assert [] + FrameOf(p)[..10] == FrameOf(p)[..10];
  }

  lemma BodyTaken(r: FR.FrameRun, p: Bytes)
    requires PayloadOk(p) && PrefixRead(r, p) && r.received == FrameOf(p)[..10]
    ensures BytesReady(r, FrameOf(p), |p|)
    ensures var q := FR.Next(r, FR.Arrive(Chunk(r, FrameOf(p), |p|)));
      MessageIn(q, p) && q.delivered == r.delivered
  {
    hide FrameOf;
    FrameHead(p);
    assert Chunk(r, FrameOf(p), |p|) == FrameOf(p)[10..10 + |p|] == p;
    assert [] + p == p;
  }

  // ---------------------------------------------------------------- the server

  lemma RequestWritten(s: System) returns (t: System)
    requires s.out == WriterRun(WriterState(true, FrameOf(PAYLOAD), 0), [], [FrameOf(PAYLOAD)]) && ClientAlive(s)
    ensures Enabled(s, ClientPiece(12)) && t == Next(s, ClientPiece(12))
    ensures t == s.(out := t.out) && t.out.wire == FrameOf(PAYLOAD)
  {
    hide FrameOf;
    FrameHead(PAYLOAD);
    t := Next(s, ClientPiece(12));
    assert FrameOf(PAYLOAD)[0..12] == FrameOf(PAYLOAD);
  }

  lemma WelcomeStarted(s: System) returns (t: System)
    requires s.srv == Init().srv && s.back == NEW_SENDER_RUN && ServerAlive(s) && !s.started
    ensures Enabled(s, ServerStart) && t == Next(s, ServerStart)
    ensures t == s.(started := true, srv := t.srv, back := t.back)
    ensures Waiting(t.srv) && t.srv.received == [] && t.srv.delivered == []
    ensures t.back.sender.busy && t.back.sender.length == 60 && t.back.sender.sent == 0 && t.back.wire == []
  {
    hide FrameOf, EncodeChat, Welcome;
    WelcomeSize();
    FrameHead(EncodeChat(Welcome()));
    t := Next(s, ServerStart);
  }

  lemma PrefixArrives(s: System) returns (t: System)
    requires ServerAlive(s) && Waiting(s.srv) && s.srv.received == [] && s.out.wire == FrameOf(PAYLOAD)
    ensures Enabled(s, ServerBytes(10)) && t == Next(s, ServerBytes(10))
    ensures t == s.(srv := t.srv) && PrefixIn(t.srv, PAYLOAD)
    ensures t.srv.received == FrameOf(PAYLOAD)[..10] && t.srv.delivered == s.srv.delivered
  {
    hide FrameOf, FR.Next, BytesReady, Chunk;
    PrefixTaken(s.srv, PAYLOAD);
    t := Next(s, ServerBytes(10));
  }

  lemma PrefixDone(s: System) returns (t: System)
    requires ServerAlive(s) && PrefixIn(s.srv, PAYLOAD)
    ensures Enabled(s, ServerRead) && t == Next(s, ServerRead)
    ensures t == s.(srv := t.srv) && PrefixRead(t.srv, PAYLOAD)
    ensures t.srv.received == s.srv.received && t.srv.delivered == s.srv.delivered
  {
    hide FR.Next, FR.Enabled, FrameOf, EchoPrefix;
    PrefixHandled(s.srv, PAYLOAD);
    t := Next(s, ServerRead);
  }

  lemma MessageArrives(s: System) returns (t: System)
    requires ServerAlive(s) && PrefixRead(s.srv, PAYLOAD)
    requires s.out.wire == FrameOf(PAYLOAD) && s.srv.received == FrameOf(PAYLOAD)[..10]
    ensures Enabled(s, ServerBytes(2)) && t == Next(s, ServerBytes(2))
    ensures t == s.(srv := t.srv) && MessageIn(t.srv, PAYLOAD) && t.srv.delivered == s.srv.delivered
  {
    hide FrameOf, FR.Next, BytesReady, Chunk;
    BodyTaken(s.srv, PAYLOAD);
    t := Next(s, ServerBytes(2));
  }

  lemma ReplyOverlaps(s: System) returns (t: System)
    requires ServerAlive(s) && MessageIn(s.srv, PAYLOAD) && s.back.sender.busy && s.requests == []
    ensures Enabled(s, ServerRead) && t == Next(s, ServerRead)
    ensures t == s.(srv := t.srv, requests := [EmptyRequest()], back := t.back) && ServerAlive(t)
    ensures t.back == s.back.(sender := SendOn(s.back.sender, FrameOf(ANSWER)), overlapped := true)
  {
    hide FR.Next, FR.Enabled, FrameOf, EncodeChat, ReplyOutcome, DeserializeOutcome, ValidUtf8, EchoPrefix;
    MessageHandled(s.srv, PAYLOAD);
    RequestPayload();
    RequestAnswered(EmptyRequest());
    EchoParses(EmptyRequest());
    t := Next(s, ServerRead);
    assert [] + [EmptyRequest()] == [EmptyRequest()];
  }

  /** The write that was to send the welcome's 60 bytes sends the answer's 12 first. */
  lemma AnswerSent(s: System) returns (t: System)
    requires ServerAlive(s) && s.back.wire == []
    requires s.back.sender.busy && !s.back.sender.attached && s.back.sender.length == 60 && s.back.sender.sent == 0
    ensures Enabled(s, ServerPiece(FrameOf(ANSWER))) && t == Next(s, ServerPiece(FrameOf(ANSWER)))
    ensures t == s.(back := t.back) && t.back.wire == FrameOf(ANSWER) && t.back.overlapped == s.back.overlapped
  {
    hide FrameOf;
    FrameHead(ANSWER);
    t := Next(s, ServerPiece(FrameOf(ANSWER)));
    assert [] + FrameOf(ANSWER) == FrameOf(ANSWER);
  }

  // ---------------------------------------------------------------- the client

  lemma AnswerPrefixRead(s: System) returns (t: System, u: System)
    requires ClientAlive(s) && Waiting(s.cli) && s.cli.received == [] && s.back.wire == FrameOf(ANSWER)
    ensures Enabled(s, ClientBytes(10)) && t == Next(s, ClientBytes(10))
    ensures Enabled(t, ClientRead) && u == Next(t, ClientRead)
    ensures u == s.(cli := u.cli) && ClientAlive(u) && PrefixRead(u.cli, ANSWER)
    ensures u.cli.received == FrameOf(ANSWER)[..10] && u.cli.delivered == s.cli.delivered
  {
    hide FrameOf, FR.Next, FR.Enabled, BytesReady, Chunk, EchoPrefix;
    PrefixTaken(s.cli, ANSWER);
    t := Next(s, ClientBytes(10));
    PrefixHandled(t.cli, ANSWER);
    u := Next(t, ClientRead);
  }

  lemma AnswerRead(s: System) returns (t: System, u: System)
    requires ClientAlive(s) && PrefixRead(s.cli, ANSWER) && s.cli.received == FrameOf(ANSWER)[..10]
    requires s.back.wire == FrameOf(ANSWER) && s.shown == []
    ensures Enabled(s, ClientBytes(2)) && t == Next(s, ClientBytes(2))
    ensures Enabled(t, ClientRead) && u == Next(t, ClientRead)
    ensures u == s.(cli := u.cli, shown := [Response(EmptyRequest())]) && ClientAlive(u)
  {
    hide FrameOf, FR.Next, FR.Enabled, BytesReady, Chunk, EchoPrefix, ShowOutcome, EncodeChat, ValidUtf8;
    BodyTaken(s.cli, ANSWER);
    t := Next(s, ClientBytes(2));
    MessageHandled(t.cli, ANSWER);
    RequestPayload();
    ResponseShown(Response(EmptyRequest()));
    u := Next(t, ClientRead);
    assert [] + [Response(EmptyRequest())] == [Response(EmptyRequest())];
  }

  // ---------------------------------------------------------------- the whole run

  lemma Unfold(s: System, e: Event, es: seq<Event>)
    requires Enabled(s, e) && ValidRun(Next(s, e), es)
    ensures ValidRun(s, [e] + es) && After(s, [e] + es) == After(Next(s, e), es)
  {
    hide Enabled, Next;
    assert ([e] + es)[1..] == es;
  }

  lemma NotTheReplies(requests: seq<ChatMessage>)
    ensures !([Response(EmptyRequest())] <= Replies(true, requests))
  {
    hide WelcomeText;
    assert Replies(true, requests)[0].id == 1;
  }

  lemma ServerSide()
    ensures ValidRun(Init(), SERVER_SIDE)
    ensures var s := After(Init(), SERVER_SIDE);
      && ClientAlive(s) && ServerAlive(s) && s.started && s.requests == s.accepted == [EmptyRequest()]
      && s.back.overlapped && s.back.wire == FrameOf(ANSWER)
      && Waiting(s.cli) && s.cli.received == [] && s.shown == []
  {
    hide Enabled, Next, FrameOf, FR.Next, FR.Enabled, TYPED;
    var s1 := CommandTyped();
    var s2 := CommandSent(s1);
    var s3 := RequestWritten(s2);
    var s4 := WelcomeStarted(s3);
    var s5 := PrefixArrives(s4);
    var s6 := PrefixDone(s5);
    var s7 := MessageArrives(s6);
    var s8 := ReplyOverlaps(s7);
    var s9 := AnswerSent(s8);
    var es := SERVER_SIDE;
    Unfold(s8, es[8], []);
    Unfold(s7, es[7], es[8..]);
    Unfold(s6, es[6], es[7..]);
    Unfold(s5, es[5], es[6..]);
    Unfold(s4, es[4], es[5..]);
    Unfold(s3, es[3], es[4..]);
    Unfold(s2, es[2], es[3..]);
    Unfold(s1, es[1], es[2..]);
    Unfold(Init(), es[0], es[1..]);
  }

  lemma ClientSide(s: System)
    requires ClientAlive(s) && s.back.wire == FrameOf(ANSWER)
    requires Waiting(s.cli) && s.cli.received == [] && s.shown == []
    ensures ValidRun(s, CLIENT_SIDE)
    ensures var t := After(s, CLIENT_SIDE);
      t == s.(cli := t.cli, shown := [Response(EmptyRequest())]) && ClientAlive(t)
  {
    hide Enabled, Next, FrameOf, FR.Next, FR.Enabled;
    var s1, s2 := AnswerPrefixRead(s);
    var s3, s4 := AnswerRead(s2);
    var es := CLIENT_SIDE;
    Unfold(s3, es[3], []);
    Unfold(s2, es[2], es[3..]);
    Unfold(s1, es[1], es[2..]);
    Unfold(s, es[0], es[1..]);
  }

  /**
   A run in which the server handles the one accepted request, yet what the client is shown is not the
   beginning of the welcome and the answer: the order of `send`'s two statements matters.
   */
  lemma OverlapBreaksEcho()
    ensures ValidRun(Init(), SERVER_SIDE + CLIENT_SIDE)
    ensures var s := After(Init(), SERVER_SIDE + CLIENT_SIDE);
      && ClientAlive(s) && ServerAlive(s) && s.requests == s.accepted == [EmptyRequest()] && s.back.overlapped
      && s.shown == [Response(EmptyRequest())]
      && !(s.shown <= Replies(s.started, s.requests))
  {
    hide FrameOf, Replies, SERVER_SIDE, CLIENT_SIDE, ValidRun, After, Init;
    ServerSide();
    ClientSide(After(Init(), SERVER_SIDE));
    RunAppend(Init(), SERVER_SIDE, CLIENT_SIDE);
    NotTheReplies([EmptyRequest()]);
  }
}
