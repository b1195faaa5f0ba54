/**
 One client and one server connection over a TCP stream in each direction, from the bytes typed at
 the client to the responses it shows. Every step is one turn of an event loop; steps interleave
 freely and data moves in arbitrary pieces. The run begins with the client connected.
 */
module EchoSystem {
  import opened Basics
  import opened Utf8
  import opened Messages
  import opened Framing
  import opened Protocols
  import opened Readers
  import opened Writers
  import opened Commands
  import opened Clients
  import opened Connections
  import FR = FrameReading
  import LR = LineReading

  const NEWLINE: Byte := 10
  const MAX := MAX_READ_BUFFER_SIZE_BYTES

  /**
   The client has a command reader, an id counter, a writer and a frame reader; the server a frame
   reader and a sender. Histories: the requests issued, the positions in it of those the writer
   accepted, those accepted, the requests the server handled, the responses the client showed.
   */
  datatype System = System(
    stdin: LR.LineRun, count: nat, issued: seq<ChatMessage>, kept: seq<nat>,
    out: WriterRun, accepted: seq<ChatMessage>,
    started: bool, srv: FR.FrameRun, requests: seq<ChatMessage>, srvFault: Option<Fault>,
    back: SenderRun,
    cli: FR.FrameRun, shown: seq<ChatMessage>, cliFault: Option<Fault>)

  datatype Event =
    | Type(chunk: Bytes) | StdinFails(code: ErrorCode)
    | Line
    | ClientPiece(count: nat) | ClientWritten
    | ServerStart
    | ServerBytes(count: nat) | ServerRead | ServerFails(code: ErrorCode)
    | ServerPiece(piece: Bytes) | ServerWritten
    | ClientBytes(count: nat) | ClientRead | ClientFails(code: ErrorCode)

  /**
   What the two programs do by themselves; the rest is input and I/O errors. A command line that fills
   the buffer without a newline ends the client without either.
   */
  predicate Internal(e: Event) {
    !e.Type? && !e.ServerFails? && !e.ClientFails? && (e.StdinFails? ==> e.code == NotFound)
  }

  function Init(): System {
    System(
      LR.Init(MAX, 0, NEWLINE, true), 0, [], [],
      NEW_WRITER_RUN, [],
      false, FR.Init(MAX), [], None,
      NEW_SENDER_RUN,
      FR.Next(FR.Init(MAX), FR.Start(0)), [], None)
  }

  /** An exception ends the whole program it is thrown in. */
  predicate ClientAlive(s: System) { s.stdin.fault == None && s.cli.fault == None && s.cliFault == None }

  predicate ServerAlive(s: System) { s.srv.fault == None && s.srvFault == None }

  /** The next `count` bytes of a wire for a reader that has received some of it. */
  function Chunk(r: FR.FrameRun, wire: Bytes, count: nat): Bytes
    requires |r.received| + count <= |wire|
  {
    wire[|r.received|..|r.received| + count]
  }

  predicate BytesReady(r: FR.FrameRun, wire: Bytes, count: nat) {
    |r.received| + count <= |wire| && FR.Enabled(r, FR.Arrive(Chunk(r, wire, count)))
  }

  predicate Enabled(s: System, e: Event) {
    match e
    case Type(chunk) => ClientAlive(s) && LR.Enabled(s.stdin, LR.Arrive(chunk))
    case StdinFails(code) => ClientAlive(s) && LR.Enabled(s.stdin, LR.Fail(code))
    case Line => ClientAlive(s) && LR.Enabled(s.stdin, LR.Done)
    case ClientPiece(count) => ClientAlive(s) && WriteEnabled(s.out, Piece(count))
    case ClientWritten => ClientAlive(s) && WriteEnabled(s.out, Finished)
    case ServerStart => ServerAlive(s) && !s.started
    case ServerBytes(count) => ServerAlive(s) && BytesReady(s.srv, s.out.wire, count)
    case ServerRead => ServerAlive(s) && FR.Enabled(s.srv, FR.Done)
    case ServerFails(code) => ServerAlive(s) && FR.Enabled(s.srv, FR.Fail(code))
    case ServerPiece(piece) => ServerAlive(s) && SendEnabled(s.back, SendPiece(piece))
    case ServerWritten => ServerAlive(s) && SendEnabled(s.back, SendFinished)
    case ClientBytes(count) => ClientAlive(s) && BytesReady(s.cli, s.back.wire, count)
    case ClientRead => ClientAlive(s) && FR.Enabled(s.cli, FR.Done)
    case ClientFails(code) => ClientAlive(s) && FR.Enabled(s.cli, FR.Fail(code))
  }

  function Next(s: System, e: Event): System
    requires Enabled(s, e)
  {
    match e
    case Type(chunk) => s.(stdin := LR.Next(s.stdin, LR.Arrive(chunk)))
    case StdinFails(code) => s.(stdin := LR.Next(s.stdin, LR.Fail(code)))
    case Line => AfterLine(s, LR.Next(s.stdin, LR.Done))
    case ClientPiece(count) => s.(out := WriteNext(s.out, Piece(count)))
    case ClientWritten => s.(out := WriteNext(s.out, Finished))
    case ServerStart =>
      s.(started := true, srv := FR.Next(s.srv, FR.Start(0)),
         back := SendNext(s.back, Send(FrameOf(EncodeChat(Welcome())))))
    case ServerBytes(count) => s.(srv := FR.Next(s.srv, FR.Arrive(Chunk(s.srv, s.out.wire, count))))
    case ServerRead => AfterServerRead(s, FR.Next(s.srv, FR.Done))
    case ServerFails(code) => s.(srv := FR.Next(s.srv, FR.Fail(code)))
    case ServerPiece(piece) => s.(back := SendNext(s.back, SendPiece(piece)))
    case ServerWritten => s.(back := SendNext(s.back, SendFinished))
    case ClientBytes(count) => s.(cli := FR.Next(s.cli, FR.Arrive(Chunk(s.cli, s.back.wire, count))))
    case ClientRead => AfterClientRead(s, FR.Next(s.cli, FR.Done))
    case ClientFails(code) => s.(cli := FR.Next(s.cli, FR.Fail(code)))
  }

  /** The command callback on the line just delivered. */
  function AfterLine(s: System, stdin: LR.LineRun): System {
    if stdin.delivered == [] then s.(stdin := stdin)
    else match Dispatch(stdin.delivered[|stdin.delivered| - 1])
      case None => s.(stdin := stdin)
      case Some(text) => AfterCommand(s.(stdin := stdin), RequestAt(s.count, text))
  }

  /** `client.send` of a new request, and the counter's increment if it does not throw. */
  function AfterCommand(s: System, m: ChatMessage): System {
    match SerializeOutcome(m)
    case Throws(f) => s.(cliFault := Some(f))
    case Ok(frame) =>
      var cli := s.cli.(caches := s.cli.caches.(ser := EchoPrefix(EncodeChat(m))));
      var t := s.(cli := cli, count := (s.count + 1) % TWO64, issued := s.issued + [m],
                  out := WriteNext(s.out, Write(frame)));
      if s.out.writer.busy then t
      else t.(kept := s.kept + [|s.issued|], accepted := s.accepted + [m])
  }

  /** The server's callback, if the handler that just ran delivered a message. */
  function AfterServerRead(s: System, srv: FR.FrameRun): System {
    if |srv.delivered| <= |s.srv.delivered| then s.(srv := srv)
    else
      var data := srv.delivered[|srv.delivered| - 1].body;
      match ReplyOutcome(srv.caches.deser, data)
      case Throws(f) => s.(srv := srv, srvFault := Some(f))
      case Ok(frame) =>
        var m := DeserializeOutcome(srv.caches.deser, data).value;
        s.(srv := srv.(caches := srv.caches.(ser := EchoPrefix(EncodeChat(Response(m))))),
           requests := s.requests + [m], back := SendNext(s.back, Send(frame)))
  }

  /** The client's callback, likewise. */
  function AfterClientRead(s: System, cli: FR.FrameRun): System {
    if |cli.delivered| <= |s.cli.delivered| then s.(cli := cli)
    else
      match ShowOutcome(cli.caches.deser, cli.delivered[|cli.delivered| - 1].body)
      case Throws(f) => s.(cli := cli, cliFault := Some(f))
      case Ok(m) => s.(cli := cli, shown := s.shown + [m])
  }

  predicate ValidRun(s: System, es: seq<Event>)
    decreases |es|
  {
    es == [] || (Enabled(s, es[0]) && ValidRun(Next(s, es[0]), es[1..]))
  }

  function After(s: System, es: seq<Event>): System
    requires ValidRun(s, es)
    decreases |es|
  {
    if es == [] then s else After(Next(s, es[0]), es[1..])
  }

  // ---------------------------------------------------------------- vocabulary of the theorems

  /** The texts of the lines that are echo commands. */
  function Texts(lines: seq<Bytes>): seq<Bytes> {
    if lines == [] then []
    else
      var before := Texts(lines[..|lines| - 1]);
      match Dispatch(lines[|lines| - 1])
      case None => before
      case Some(text) => before + [text]
  }

  /** Their requests, numbered from 0 modulo 2^32. */
  function RequestsOf(lines: seq<Bytes>): (rs: seq<ChatMessage>)
    ensures |rs| == |Texts(lines)|
    ensures forall i :: 0 <= i < |rs| ==> rs[i] == ChatMessage(i % TWO32, Texts(lines)[i], ECHO_REQUEST)
  {
    var texts := Texts(lines);
    seq(|texts|, i requires 0 <= i < |texts| => ChatMessage(i % TWO32, texts[i], ECHO_REQUEST))
  }

  /** `picked` is the subsequence of `all` at the increasing positions `at`. */
  ghost predicate Subsequence(picked: seq<ChatMessage>, at: seq<nat>, all: seq<ChatMessage>) {
    && |picked| == |at|
    && (forall i :: 0 <= i < |at| ==> at[i] < |all| && picked[i] == all[at[i]])
    && (forall i, j :: 0 <= i < j < |at| ==> at[i] < at[j])
  }

  function Responses(ms: seq<ChatMessage>): (rs: seq<ChatMessage>)
    ensures |rs| == |ms|
    ensures forall i :: 0 <= i < |ms| ==> rs[i] == Response(ms[i])
  {
    seq(|ms|, i requires 0 <= i < |ms| => Response(ms[i]))
  }

  /** What the server has to say: the welcome, then an answer to each request. */
  function Replies(started: bool, requests: seq<ChatMessage>): seq<ChatMessage> {
    if started then [Welcome()] + Responses(requests) else []
  }

  function FrameSeq(ms: seq<ChatMessage>): (fs: seq<Bytes>)
    ensures |fs| == |ms|
    ensures forall i :: 0 <= i < |ms| ==> fs[i] == FrameOf(EncodeChat(ms[i]))
  {
    seq(|ms|, i requires 0 <= i < |ms| => FrameOf(EncodeChat(ms[i])))
  }

  /** A line of at most 1023 bytes leaves at most 1018 for the text. */
  const MAX_TEXT: nat := 1018

  predicate EchoOk(m: ChatMessage) {
    (m.typ == ECHO_REQUEST || m.typ == ECHO_RESPONSE) && |m.text| <= MAX_TEXT
  }

  predicate AllEchoOk(ms: seq<ChatMessage>) { forall i :: 0 <= i < |ms| ==> EchoOk(ms[i]) }

  /** A request that the server's reader and parser accept. */
  predicate Answerable(m: ChatMessage) { |EncodeChat(m)| <= MAX && ValidUtf8(m.text) }

  // ---------------------------------------------------------------- invariants, component by component

  ghost predicate InInv(
    stdin: LR.LineRun, count: nat, issued: seq<ChatMessage>, kept: seq<nat>, accepted: seq<ChatMessage>)
  {
    && LR.Inv(stdin, NEWLINE, true) && stdin.reader.max == MAX
    && issued == RequestsOf(stdin.delivered)
    && count == |issued| % TWO64
    && Subsequence(accepted, kept, issued)
    && (forall i :: 0 <= i < |issued| ==> EchoOk(issued[i]) && issued[i].typ == ECHO_REQUEST)
  }

  ghost predicate OutInv(out: WriterRun, accepted: seq<ChatMessage>) {
    && WriterInv(out)
    && out.accepted == FrameSeq(accepted)
    && forall i :: 0 <= i < |accepted| ==> EchoOk(accepted[i]) && accepted[i].typ == ECHO_REQUEST
  }

  ghost predicate SrvInv(
    srv: FR.FrameRun, wire: Bytes, accepted: seq<ChatMessage>, requests: seq<ChatMessage>,
    srvFault: Option<Fault>, started: bool)
  {
    && FR.Inv(srv) && srv.reader.max == MAX && srv.received <= wire
    && (if started then srv.fault == None ==> srv.reader.op.ReadExact?
        else srv.reader.op == Idle && srv.fault == None && srvFault == None && requests == [])
    && requests <= accepted
    && (forall i :: 0 <= i < |requests| ==> Answerable(requests[i]))
    && |srv.delivered| == |requests| + (if srvFault.Some? then 1 else 0)
    && (srvFault.Some? ==>
          srvFault == Some(BadMessage) && |requests| < |accepted| && !ValidUtf8(accepted[|requests|].text))
  }

  ghost predicate BackInv(back: SenderRun, replies: seq<ChatMessage>) {
    && SenderInv(back)
    && (replies == [] ==> back == NEW_SENDER_RUN)
    && (if back.overlapped then |Concat(back.accepted)| < |Concat(FrameSeq(replies))|
        else back.accepted == FrameSeq(replies))
  }

  /** Each message shown came out of its own delivered frame. */
  ghost predicate ShownFrom(shown: seq<ChatMessage>, delivered: seq<Framed>) {
    && |shown| <= |delivered|
    && forall i :: 0 <= i < |shown| ==> ShowOutcome(delivered[i].prefix, delivered[i].body) == Ok(shown[i])
  }

  ghost predicate CliInv(
    cli: FR.FrameRun, back: SenderRun, replies: seq<ChatMessage>, shown: seq<ChatMessage>, cliFault: Option<Fault>)
  {
    && FR.Inv(cli) && cli.reader.max == MAX && cli.received <= back.wire
    && (cli.fault == None ==> cli.reader.op.ReadExact?)
    && ShownFrom(shown, cli.delivered)
    && |cli.delivered| == |shown| + (if cliFault.Some? then 1 else 0)
    && (!back.overlapped ==>
          && cliFault == None
          && shown <= replies
          && cli.fault in {None, Some(IoError)})
  }

  /** Every reply fits the client's reader and parses. */
  ghost predicate RepliesOk(replies: seq<ChatMessage>) {
    forall i :: 0 <= i < |replies| ==>
      EchoOk(replies[i]) && replies[i].typ == ECHO_RESPONSE && Answerable(replies[i])
  }

  ghost predicate CommandInv(s: System) {
    InInv(s.stdin, s.count, s.issued, s.kept, s.accepted)
  }

  /** The part of the invariant that does not look at the command reader. */
  ghost predicate NetInv(s: System) {
    var replies := Replies(s.started, s.requests);
    && OutInv(s.out, s.accepted)
    && SrvInv(s.srv, s.out.wire, s.accepted, s.requests, s.srvFault, s.started)
    && BackInv(s.back, replies)
    && CliInv(s.cli, s.back, replies, s.shown, s.cliFault)
  }

  ghost predicate Inv(s: System) { CommandInv(s) && NetInv(s) }
}
