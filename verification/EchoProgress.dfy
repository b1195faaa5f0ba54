/** What the echo system comes to: rest, progress, and how any run can be completed. */
module EchoProgress {
  import opened Basics
  import opened Utf8
  import opened Messages
  import opened Framing
  import opened Protocols
  import opened Readers
  import opened Writers
  import opened Commands
  import opened Clients
  import opened Connections
  import opened EchoSystem
  import opened EchoInvariant
  import opened EchoTheorems
  import FR = FrameReading
  import LR = LineReading

  // ---------------------------------------------------------------- rest

  /** Nothing can happen but new input or an I/O error. */
  ghost predicate AtRest(s: System) {
    forall e :: Internal(e) ==> !Enabled(s, e)
  }

  /** What the programs do by themselves, except that the client stops at a line that does not fit. */
  predicate Orderly(e: Event) { Internal(e) && !e.StdinFails? }

  ghost predicate Quiet(s: System) {
    forall e :: Orderly(e) ==> !Enabled(s, e)
  }

  lemma ClientWriterAtRest(s: System)
    requires NetInv(s) && Quiet(s) && ClientAlive(s)
    ensures !s.out.writer.busy
  {
    hide FR.Inv, FR.Enabled, SrvInv, BackInv, CliInv, Replies, FrameSeq, Concat;
    assert !Enabled(s, ClientPiece(1));
    assert !Enabled(s, ClientWritten);
  }

  /** A live reader that can neither take a byte of the wire nor complete has everything there is. */
  lemma ReaderAtRest(r: FR.FrameRun, wire: Bytes)
    requires FR.Inv(r) && r.received <= wire && r.fault == None && r.reader.op.ReadExact?
    requires !FR.Enabled(r, FR.Done) && !BytesReady(r, wire, 1)
    ensures FR.Settled(r) && r.received == wire
  {
    hide ParseFrames, ParsePrefix;
  }

  function One(b: bool): int { if b then 1 else 0 }

  /** All requests but one still being written are whole on the wire. */
  lemma WholeRequests(s: System)
    requires NetInv(s)
    ensures One(s.out.writer.busy) <= |s.accepted|
    ensures Frames(Payloads(s.accepted[..|s.accepted| - One(s.out.writer.busy)])) <= s.out.wire
  {
    hide FR.Inv, SrvInv, BackInv, CliInv, Replies, Frames, Payloads, Concat, EchoOk, FrameOf, EncodeChat;
    var n := |s.accepted| - One(s.out.writer.busy);
    ConcatFrames(s.accepted[..n]);
    assert FrameSeq(s.accepted)[..n] == FrameSeq(s.accepted[..n]);
    if !s.out.writer.busy { assert s.accepted[..n] == s.accepted; }
  }

  /** A settled live reader has delivered every frame it has received whole. */
  lemma WholeFramesDelivered(r: FR.FrameRun, ms: seq<ChatMessage>, n: nat)
    requires FR.Inv(r) && AllEchoOk(ms) && r.received <= Frames(Payloads(ms))
    requires FR.Settled(r) && r.fault == None
    requires n <= |ms| && Frames(Payloads(ms[..n])) <= r.received
    ensures n <= |r.delivered|
  {
    hide FrameOf, EncodeChat, ParseFrames, FR.Inv, Frames, EchoFramed, EchoOk;
    AllEchoPayloads(ms);
    var ps := Payloads(ms);
    ParseCutStream(ps, r.received, r.reader.max);
    FR.InvRefines(r);
    FaultKinds(r);
    var m := |r.delivered|;
    assert Payloads(ms[..n]) == ps[..n];
    assert m < n ==> ps[..n][..m] == ps[..m];
    if m < n { FramesReach(ps[..n], m); }
  }

  /** The server has handled every request but the one that may still be half written. */
  lemma ServerAtRest(s: System)
    requires NetInv(s) && Quiet(s) && ServerAlive(s)
    ensures s.started && s.requests <= s.accepted && |s.accepted| <= |s.requests| + One(s.out.writer.busy)
  {
    hide FR.Inv, FR.Enabled, OutInv, BackInv, CliInv, Replies, Frames, Payloads, Answerable, EncodeChat,
      FR.Settled, BytesReady;
    assert !Enabled(s, ServerStart);
    assert !Enabled(s, ServerRead);
    assert !Enabled(s, ServerBytes(1));
    ReaderAtRest(s.srv, s.out.wire);
    RequestsOnWire(s);
    WholeRequests(s);
    WholeFramesDelivered(s.srv, s.accepted, |s.accepted| - One(s.out.writer.busy));
  }

  function NextByte(q: SenderState): Bytes { if q.sent < |q.sendMsg| then [q.sendMsg[q.sent]] else [] }

  lemma NextByteOk(q: SenderState)
    ensures q.busy && q.sent < q.length == |q.sendMsg| ==> PieceOk(q, NextByte(q))
  {
  }

  lemma SenderAtRest(s: System)
    requires Quiet(s) && ServerAlive(s)
    requires s.back.sender.busy ==> s.back.sender.sent <= s.back.sender.length == |s.back.sender.sendMsg|
    ensures !s.back.sender.busy
  {
    hide FR.Enabled, LR.Enabled, BytesReady, WriteEnabled, PieceOk;
    assert !Enabled(s, ServerWritten);
    assert !Enabled(s, ServerPiece(NextByte(s.back.sender)));
    NextByteOk(s.back.sender);
  }

  lemma ServerOutAtRest(s: System)
    requires NetInv(s) && Quiet(s) && ServerAlive(s) && !s.back.overlapped
    ensures s.back.wire == Frames(Payloads(Replies(s.started, s.requests)))
  {
    hide FR.Inv, Quiet, SrvInv, OutInv, CliInv, Replies, FrameSeq, Frames, Payloads, Concat;
    RepliesOnWire(s);
    SenderAtRest(s);
  }

  lemma ClientAtRest(s: System)
    requires NetInv(s) && Quiet(s) && ClientAlive(s) && ServerAlive(s) && !s.back.overlapped
    ensures s.shown == Replies(s.started, s.requests)
  {
    hide FR.Inv, FR.Enabled, OutInv, SrvInv, BackInv, Replies, Frames, Payloads, EncodeChat, FR.Settled, BytesReady,
      EchoOk, ValidUtf8;
    assert !Enabled(s, ClientRead);
    assert !Enabled(s, ClientBytes(1));
    ServerOutAtRest(s);
    ReaderAtRest(s.cli, s.back.wire);
    RepliesAreOk(s);
    Delivery(s.cli, Replies(s.started, s.requests));
  }

  ghost predicate AllAnswerable(ms: seq<ChatMessage>) { forall i :: 0 <= i < |ms| ==> Answerable(ms[i]) }

  /** Everything answered: what a live pair of programs with nothing left to do has done. */
  lemma QuietIsAnswered(s: System)
    requires Inv(s) && Quiet(s) && ClientAlive(s) && s.srv.fault != Some(IoError)
    ensures ServerAlive(s) <==> AllAnswerable(s.accepted)
    ensures ServerAlive(s) ==> s.requests == s.accepted
    ensures ServerAlive(s) ==> (s.shown == [Welcome()] + Responses(s.accepted) <==> !s.back.overlapped)
  {
    hide CommandInv, NetInv, Quiet, Answerable, Welcome, Frames, Payloads, EncodeChat, EchoFramed;
    ServerState(s);
    if ServerAlive(s) {
      ClientWriterAtRest(s);
      ServerAtRest(s);
      NetOverlapLoses(s);
      if !s.back.overlapped { ClientAtRest(s); }
    }
  }

  lemma StdinAtRest(s: System)
    requires CommandInv(s) && AtRest(s) && (ClientAlive(s) || s.stdin.error == NotFound)
    ensures var split := LR.SplitLines(s.stdin.received, NEWLINE, MAX);
      && s.issued == RequestsOf(split.lines)
      && (s.stdin.error == NoError <==> split.end != LR.TooLong)
  {
    hide RequestsOf, LR.SplitLines, Subsequence;
    assert !Enabled(s, Line);
    assert !Enabled(s, StdinFails(NotFound));
    LR.InvRefines(s.stdin, NEWLINE, true);
  }

  /** No read or input operation has failed; running out of room for a line is not such a failure. */
  predicate NoIoError(s: System) {
    s.stdin.error in {NoError, NotFound} && s.cli.fault != Some(IoError) && s.srv.fault != Some(IoError)
  }

  /**
   Everything has been done. The client has stopped by itself exactly if a typed line does not fit,
   and every line before it has been dispatched; a running server has handled every request but one
   that a client that stopped may have left half written. If the client is running, the server is
   running exactly if every accepted request was short enough and UTF-8, and then the client has
   shown the welcome and every answer exactly if no send overlapped a write.
   */
  ghost predicate Complete(s: System) {
    var split := LR.SplitLines(s.stdin.received, NEWLINE, MAX);
    && (!s.back.overlapped ==> (ClientAlive(s) <==> split.end != LR.TooLong))
    && (ClientAlive(s) || !s.back.overlapped ==> s.issued == RequestsOf(split.lines))
    && (ServerAlive(s) ==> s.requests <= s.accepted && |s.accepted| <= |s.requests| + One(!ClientAlive(s)))
    && (ClientAlive(s) ==>
          && (ServerAlive(s) <==> AllAnswerable(s.accepted))
          && (ServerAlive(s) ==> (s.shown == [Welcome()] + Responses(s.accepted) <==> !s.back.overlapped)))
  }

  lemma RestIsQuiet(s: System)
    requires AtRest(s)
    ensures Quiet(s)
  {
    hide Enabled, Internal;
  }

  lemma ClientStops(s: System)
    requires Inv(s) && NoIoError(s) && !s.back.overlapped
    ensures ClientAlive(s) <==> s.stdin.error == NoError
  {
    hide FR.Inv, OutInv, SrvInv, BackInv, Replies, ShownFrom, LR.SplitLines, RequestsOf, Subsequence;
  }

  lemma CompleteAtRest(s: System)
    requires Inv(s) && AtRest(s) && NoIoError(s)
    ensures Complete(s)
  {
    hide CommandInv, NetInv, AtRest, Quiet, Answerable, LR.SplitLines, RequestsOf, Welcome;
    RestIsQuiet(s);
    if !s.back.overlapped { ClientStops(s); }
    if ClientAlive(s) || !s.back.overlapped { StdinAtRest(s); }
    if ServerAlive(s) { ServerAtRest(s); }
    if ClientAlive(s) { QuietIsAnswered(s); ClientWriterAtRest(s); }
  }

  /** At rest, short of an I/O error, everything has been done. */
  lemma RestIsComplete(es: seq<Event>)
    requires ValidRun(Init(), es)
    ensures var s := After(Init(), es);
      AtRest(s) && NoIoError(s) ==> Complete(s)
  {
    hide Inv, AtRest, Next, Enabled, Complete, NoIoError;
    InitInv();
    RunInv(Init(), es);
    var s := After(Init(), es);
    if AtRest(s) && NoIoError(s) { CompleteAtRest(s); }
  }

  // ---------------------------------------------------------------- progress

  /**
   Typed bytes still buffered; then requests on their way and programs still to start or to fail;
   then bytes still to be written, received and handled in both directions.
   */
  datatype Rank = Rank(typed: int, requests: int, bytes: int)

  predicate Less(p: Rank, q: Rank) {
    || p.typed < q.typed
    || (p.typed == q.typed && p.requests < q.requests)
    || (p.typed == q.typed && p.requests == q.requests && p.bytes < q.bytes)
  }

  function Unsent(busy: bool, length: int, sent: int): int { if busy then 4 * (length - sent) + 1 else 0 }

  function UpBytes(s: System): int {
    Unsent(s.out.writer.busy, |s.out.writer.buffer|, s.out.writer.sent) + FR.Measure(s.srv, s.out.wire)
  }

  function DownBytes(s: System): int {
    Unsent(s.back.sender.busy, s.back.sender.length, s.back.sender.sent) + FR.Measure(s.cli, s.back.wire)
  }

  function RankOf(s: System): Rank {
    Rank(|s.stdin.reader.buffer|,
         |s.accepted| - |s.srv.delivered| + One(!s.started) + One(ServerAlive(s)) + One(ClientAlive(s)),
         UpBytes(s) + DownBytes(s))
  }

  lemma RankIsNatural(s: System)
    requires Inv(s)
    ensures RankOf(s).typed >= 0 && RankOf(s).requests >= 0 && RankOf(s).bytes >= 0
  {
    hide FR.Inv, LR.Inv, Replies, InInv, FrameSeq, Concat, Answerable, ValidUtf8;
    ServerState(s);
  }

  lemma ArrivalDecreases(r: FR.FrameRun, wire: Bytes, count: nat)
    requires FR.Inv(r) && BytesReady(r, wire, count)
    ensures var q := FR.Next(r, FR.Arrive(Chunk(r, wire, count)));
      FR.Measure(q, wire) < FR.Measure(r, wire) && q.fault == r.fault && q.delivered == r.delivered
  {
    hide FR.Inv;
    FR.StepDecreases(r, FR.Arrive(Chunk(r, wire, count)), wire);
  }

  lemma UpStepDecreases(s: System, e: Event)
    requires Inv(s) && Enabled(s, e)
    requires e.ClientPiece? || e.ClientWritten? || e.ServerStart? || e.ServerBytes?
    ensures Less(RankOf(Next(s, e)), RankOf(s))
  {
    hide FR.Inv, FR.Enabled, LR.Inv, OutInv, BackInv, CliInv, InInv, Replies, FrameOf, EncodeChat, Welcome,
      SendNext, Answerable, ValidUtf8, Chunk;
    match e
    case ClientPiece(_) =>
    case ClientWritten =>
    case ServerStart =>
      FR.StartEffect(s.srv, 0);
    case ServerBytes(count) =>
      ArrivalDecreases(s.srv, s.out.wire, count);
  }

  lemma DownStepDecreases(s: System, e: Event)
    requires Inv(s) && Enabled(s, e)
    requires e.ServerPiece? || e.ServerWritten? || e.ClientBytes?
    ensures Less(RankOf(Next(s, e)), RankOf(s))
  {
    hide FR.Inv, FR.Enabled, LR.Inv, OutInv, SrvInv, InInv, Replies, FrameOf, EncodeChat, Welcome, Answerable,
      ValidUtf8, Chunk, FrameSeq, SenderInv;
    match e
    case ServerPiece(_) =>
    case ServerWritten =>
    case ClientBytes(count) =>
      ArrivalDecreases(s.cli, s.back.wire, count);
  }

  lemma ServerReadDecreases(s: System)
    requires Inv(s) && Enabled(s, ServerRead)
    ensures Less(RankOf(Next(s, ServerRead)), RankOf(s))
  {
    hide FR.Inv, FR.Next, FR.Enabled, LR.Inv, OutInv, BackInv, CliInv, InInv, Replies, FrameOf, EncodeChat, SendNext,
      ReplyOutcome, DeserializeOutcome, Answerable, ValidUtf8, FR.Measure;
    FR.DoneEffect(s.srv);
    FR.StepDecreases(s.srv, FR.Done, s.out.wire);
  }

  lemma ClientReadDecreases(s: System)
    requires Inv(s) && Enabled(s, ClientRead)
    ensures Less(RankOf(Next(s, ClientRead)), RankOf(s))
  {
    hide FR.Inv, FR.Next, FR.Enabled, LR.Inv, OutInv, BackInv, SrvInv, InInv, Replies, ShowOutcome, FR.Measure;
    FR.StepDecreases(s.cli, FR.Done, s.back.wire);
  }

  lemma LineDecreases(s: System)
    requires Inv(s) && Enabled(s, Line)
    ensures Less(RankOf(Next(s, Line)), RankOf(s))
  {
    hide LR.Inv, LR.LineDone, OutInv, BackInv, SrvInv, CliInv, Replies, Dispatch, SerializeOutcome, EncodeChat,
      IndexOf, WriteNext,
      UpBytes, DownBytes, RequestsOf, Subsequence;
    LR.LineDoneInv(s.stdin, NEWLINE, true);
  }

  /** Stopping at a line that does not fit leaves the buffer as it is, but takes the client away. */
  lemma StopDecreases(s: System)
    requires Inv(s) && Enabled(s, StdinFails(NotFound))
    ensures Less(RankOf(Next(s, StdinFails(NotFound))), RankOf(s))
  {
    hide Inv, FR.Measure, IndexOf;
  }

  lemma InternalStepDecreases(s: System, e: Event)
    requires Inv(s) && Enabled(s, e) && Internal(e)
    ensures Less(RankOf(Next(s, e)), RankOf(s))
  {
    hide Inv, Enabled, Next, RankOf, Less;
    match e
    case Line => LineDecreases(s);
    case StdinFails(_) => StopDecreases(s);
    case ServerRead => ServerReadDecreases(s);
    case ClientRead => ClientReadDecreases(s);
    case ClientPiece(_) => UpStepDecreases(s, e);
    case ClientWritten => UpStepDecreases(s, e);
    case ServerStart => UpStepDecreases(s, e);
    case ServerBytes(_) => UpStepDecreases(s, e);
    case _ => DownStepDecreases(s, e);
  }

  /**
   After every run, every step the programs take by themselves brings the system closer to rest: the
   rank is a triple of natural numbers and gets lexicographically smaller, so no schedule goes on
   forever without new input.
   */
  lemma StepDecreases(es: seq<Event>, e: Event)
    requires ValidRun(Init(), es)
    ensures var s := After(Init(), es);
      && RankOf(s).typed >= 0 && RankOf(s).requests >= 0 && RankOf(s).bytes >= 0
      && (Enabled(s, e) && Internal(e) ==> Less(RankOf(Next(s, e)), RankOf(s)))
  {
    hide Inv, Next, Enabled, RankOf, Less, Internal;
    InitInv();
    RunInv(Init(), es);
    var s := After(Init(), es);
    RankIsNatural(s);
    if Enabled(s, e) && Internal(e) { InternalStepDecreases(s, e); }
  }

  // ---------------------------------------------------------------- completing a run

  /** Neither an I/O error nor an overlapping send so far. */
  predicate Healthy(s: System) { NoIoError(s) && !s.back.overlapped }

  /** A schedule that lets the server finish each write before its next read. */
  predicate Patient(s: System, e: Event) {
    s.back.sender.busy && ServerAlive(s) ==> e.ServerPiece? || e.ServerWritten?
  }

  lemma PatientStep(s: System, e: Event)
    requires Inv(s) && Enabled(s, e) && Orderly(e) && Healthy(s) && Patient(s, e)
    ensures Healthy(Next(s, e))
    ensures Next(s, e).stdin.received == s.stdin.received && Next(s, e).stdin.error == s.stdin.error
  {
    hide FR.Inv, LR.Inv, LR.LineDone, IndexOf, OutInv, BackInv, SrvInv, InInv, Replies, FrameOf, EncodeChat, Welcome,
      SerializeOutcome, ReplyOutcome, ShowOutcome, DeserializeOutcome, Dispatch, WriteNext, Chunk,
      FR.PrefixDone, FR.MessageDone;
    match e
    case Line => CommandReaderInv(s); LR.LineDoneInv(s.stdin, NEWLINE, true); LineKeepsError(s.stdin);
    case ServerRead => ServerReaderInv(s); FR.DoneEffect(s.srv);
    case ClientRead => FR.DoneEffect(s.cli);
    case _ =>
  }

  lemma CommandReaderInv(s: System)
    requires CommandInv(s)
    ensures LR.Inv(s.stdin, NEWLINE, true)
  {
    hide LR.Inv, RequestsOf;
  }

  lemma ServerReaderInv(s: System)
    requires NetInv(s)
    ensures FR.Inv(s.srv)
  {
    hide FR.Inv, OutInv, BackInv, CliInv, Replies;
  }

  lemma LineKeepsError(r: LR.LineRun)
    requires LR.Enabled(r, LR.Done)
    ensures LR.LineDone(r).error == r.error
  {
    hide IndexOf;
  }

  lemma HealthStays(s: System, e: Event)
    requires Inv(s) && Enabled(s, e) && Orderly(e) && Healthy(s) && Patient(s, e)
    ensures Healthy(Next(s, e)) && Next(s, e).stdin.received == s.stdin.received
    ensures ClientAlive(Next(s, e)) <==> ClientAlive(s)
  {
    hide Enabled, Next, CommandInv, NetInv, Patient, Orderly, ClientAlive, NoIoError;
    PatientStep(s, e);
    NextInv(s, e);
    ClientStops(s);
    ClientStops(Next(s, e));
  }

  lemma SenderLength(s: System)
    requires NetInv(s) && !s.back.overlapped && s.back.sender.busy
    ensures s.back.sender.sent <= s.back.sender.length == |s.back.sender.sendMsg|
  {
    hide FR.Inv, OutInv, SrvInv, CliInv, Replies, FrameSeq, Concat;
  }

  lemma BusyChoice(s: System) returns (e: Event)
    requires ServerAlive(s) && s.back.sender.busy
    requires s.back.sender.sent <= s.back.sender.length == |s.back.sender.sendMsg|
    ensures Enabled(s, e) && (e.ServerPiece? || e.ServerWritten?)
  {
    hide FR.Enabled, LR.Enabled, BytesReady, WriteEnabled, PieceOk;
    var q := s.back.sender;
    NextByteOk(q);
    e := if q.sent < q.length then ServerPiece(NextByte(q)) else ServerWritten;
  }

  /** If anything can happen, something can happen that does not start a send during a write. */
  lemma PatientChoice(s: System) returns (e: Event)
    requires Inv(s) && Healthy(s) && !Quiet(s)
    ensures Orderly(e) && Enabled(s, e) && Patient(s, e)
  {
    hide NetInv, CommandInv, Enabled;
    if s.back.sender.busy && ServerAlive(s) {
      SenderLength(s);
      e := BusyChoice(s);
    } else {
      e :| Orderly(e) && Enabled(s, e);
    }
  }

  lemma {:induction false} PatientRun(s: System) returns (fs: seq<Event>)
    requires Inv(s) && Healthy(s)
    ensures ValidRun(s, fs) && Quiet(After(s, fs)) && Healthy(After(s, fs))
    ensures After(s, fs).stdin.received == s.stdin.received
    ensures ClientAlive(After(s, fs)) <==> ClientAlive(s)
    ensures forall i :: 0 <= i < |fs| ==> Internal(fs[i])
    decreases RankOf(s).typed, RankOf(s).requests, RankOf(s).bytes
  {
    hide Inv, Enabled, Next, RankOf, Internal, Healthy, Quiet, Patient, ClientAlive;
    if Quiet(s) {
      fs := [];
    } else {
      var e := PatientChoice(s);
      NextInv(s, e);
      HealthStays(s, e);
      InternalStepDecreases(s, e);
      RankIsNatural(s);
      RankIsNatural(Next(s, e));
      var rest := PatientRun(Next(s, e));
      fs := [e] + rest;
      assert fs[1..] == rest;
    }
  }

  /** Once nothing else is left to do, a client that stops at a line that does not fit leaves everything at rest. */
  lemma StopIsRest(s: System)
    requires Quiet(s) && Enabled(s, StdinFails(NotFound))
    ensures var t := Next(s, StdinFails(NotFound));
      AtRest(t) && !ClientAlive(t) && t == s.(stdin := t.stdin) && t.stdin.received == s.stdin.received
  {
    hide IndexOf, FR.Enabled, WriteEnabled, SendEnabled, BytesReady;
    var t := Next(s, StdinFails(NotFound));
    forall e | Internal(e) ensures !Enabled(t, e) {
      if Orderly(e) { assert !Enabled(s, e); }
    }
  }

  lemma QuietIsRest(s: System)
    requires Quiet(s) && !Enabled(s, StdinFails(NotFound))
    ensures AtRest(s)
  {
    hide Enabled;
    forall e | Internal(e) ensures !Enabled(s, e) {
      if !Orderly(e) { assert e == StdinFails(NotFound); }
    }
  }

  /** The last step, if there is one. */
  lemma LastStop(s: System) returns (fs: seq<Event>)
    requires Inv(s) && Quiet(s) && Healthy(s)
    ensures ValidRun(s, fs) && (forall i :: 0 <= i < |fs| ==> Internal(fs[i]))
    ensures var t := After(s, fs);
      AtRest(t) && Healthy(t) && t == s.(stdin := t.stdin) && t.stdin.received == s.stdin.received
  {
    hide Inv, Enabled, Next, Quiet, AtRest;
    if Enabled(s, StdinFails(NotFound)) {
      fs := [StdinFails(NotFound)];
      assert fs[1..] == [];
      StopIsRest(s);
      StopIsNoIoError(s);
    } else {
      fs := [];
      QuietIsRest(s);
    }
  }

  lemma StopIsNoIoError(s: System)
    requires Enabled(s, StdinFails(NotFound)) && NoIoError(s)
    ensures NoIoError(Next(s, StdinFails(NotFound)))
  {
    hide IndexOf;
  }

  /**
   `fs` completes the run `es`: without input, I/O errors or an overlapping send it leads to rest, with
   every line that fits dispatched and, unless the client had stopped before, the welcome and the
   answer to every accepted request shown if all of them are acceptable; the client then stops at the
   line that does not fit, if there is one.
   */
  ghost predicate Completes(es: seq<Event>, fs: seq<Event>)
    requires ValidRun(Init(), es)
  {
    && ValidRun(Init(), es + fs) && (forall i :: 0 <= i < |fs| ==> Internal(fs[i]))
    && var s, t := After(Init(), es), After(Init(), es + fs);
    var split := LR.SplitLines(s.stdin.received, NEWLINE, MAX);
    && AtRest(t) && Complete(t) && Healthy(t) && t.stdin.received == s.stdin.received
    && (ClientAlive(t) <==> split.end != LR.TooLong)
    && t.issued == RequestsOf(split.lines) && Subsequence(t.accepted, t.kept, t.issued)
    && (ClientAlive(s) && AllAnswerable(t.accepted) ==>
          t.requests == t.accepted && t.shown == [Welcome()] + Responses(t.accepted))
  }

  /** A run from `s` to rest that answers everything first. */
  lemma RunToRest(s: System) returns (fs: seq<Event>)
    requires Inv(s) && Healthy(s)
    ensures ValidRun(s, fs) && (forall i :: 0 <= i < |fs| ==> Internal(fs[i]))
    ensures var t := After(s, fs);
      && AtRest(t) && Healthy(t) && t.stdin.received == s.stdin.received
      && (ClientAlive(s) && AllAnswerable(t.accepted) ==>
            t.requests == t.accepted && t.shown == [Welcome()] + Responses(t.accepted))
  {
    hide Inv, Enabled, Next, Internal, Quiet, AtRest, Answerable, Welcome, ValidRun, After, ClientAlive;
    var gs := PatientRun(s);
    RunInv(s, gs);
    var q := After(s, gs);
    var last := LastStop(q);
    RunAppend(s, gs, last);
    fs := gs + last;
    if ClientAlive(s) { QuietIsAnswered(q); }
  }

  /** Every run without an overlapping send or an I/O error can be completed without one. */
  lemma EveryRunCanBeCompleted(es: seq<Event>)
    requires ValidRun(Init(), es)
    ensures Healthy(After(Init(), es)) ==> exists fs :: Completes(es, fs)
  {
    hide Inv, Enabled, Next, Internal, AtRest, RequestsOf, Welcome, AllAnswerable, Subsequence, ValidRun, After,
      ClientAlive, LR.SplitLines;
    var s := After(Init(), es);
    if Healthy(s) {
      InitInv();
      RunInv(Init(), es);
      var fs := RunToRest(s);
      RunAppend(Init(), es, fs);
      RestIsComplete(es + fs);
      CommandsAreNumbered(es + fs);
      assert Completes(es, fs);
    }
  }
}
