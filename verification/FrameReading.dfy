/**
 Runs of a frame-mode `AsyncReader`: the event loop appends arbitrary non-empty chunks to the
 read buffer until the pending read's limit is reached, then runs the completion handler.
 */
module FrameReading {
  import opened Basics
  import opened Messages
  import opened Framing
  import opened Protocols
  import opened Readers

  /**
   A reader with its protocol's caches and the history of the run: the bytes received, the
   bytes of the frames delivered so far, the prefix of the frame being read, the frames given
   to the callback (each with the prefix cache's contents at that moment), the callback each was
   given to, and what was thrown.
   */
  datatype FrameRun = FrameRun(
    reader: ReaderState, caches: Caches, received: Bytes, consumed: Bytes, head: Bytes,
    delivered: seq<Framed>, told: seq<Option<nat>>, fault: Option<Fault>)

  datatype Event = Start(cb: nat) | Arrive(chunk: Bytes) | Done | Fail(code: ErrorCode)

  function Init(max: nat): FrameRun {
    FrameRun(NewReader(max), Caches(CLEAR_PREFIX, CLEAR_PREFIX), [], [], [], [], [], None)
  }

  predicate Enabled(r: FrameRun, e: Event) {
    && r.fault == None
    && match e
       case Start(_) => true
       case Arrive(chunk) =>
         r.reader.op.ReadExact? && 1 <= |chunk| <= r.reader.op.limit - |r.reader.buffer|
       case Done =>
         r.reader.op.ReadExact? && r.reader.op.transferred <= |r.reader.buffer| == r.reader.op.limit
       case Fail(code) => r.reader.op.ReadExact? && code != NoError
  }

  function Next(r: FrameRun, e: Event): FrameRun
    requires Enabled(r, e)
  {
    match e
    case Start(cb) =>
      var (reader, fault) := StartFrames(r.reader, cb);
      r.(reader := reader, fault := fault)
    case Arrive(chunk) =>
      var op := r.reader.op.(transferred := r.reader.op.transferred + |chunk|);
      r.(reader := r.reader.(buffer := r.reader.buffer + chunk, op := op), received := r.received + chunk)
    case Done => if r.reader.op.phase == PrefixPhase then PrefixDone(r) else MessageDone(r)
    case Fail(code) => if r.reader.op.phase == PrefixPhase then PrefixFailed(r, code) else MessageFailed(r, code)
  }

  function PrefixDone(r: FrameRun): FrameRun
    requires Enabled(r, Done)
  {
    var n := r.reader.op.transferred;
    var (reader, cached, reaction) := OnPrefix(r.reader, NoError, n);
    var q := r.(reader := reader, fault := FaultOf(reaction));
    if cached.None? then q else q.(caches := r.caches.(deser := cached.value), head := r.reader.buffer[..n])
  }

  function PrefixFailed(r: FrameRun, code: ErrorCode): FrameRun {
    var (reader, _, reaction) := OnPrefix(r.reader, code, 0);
    r.(reader := reader, fault := FaultOf(reaction))
  }

  function MessageFailed(r: FrameRun, code: ErrorCode): FrameRun {
    var (reader, reaction) := OnMessage(r.reader, code, 0);
    r.(reader := reader, fault := FaultOf(reaction))
  }

  function MessageDone(r: FrameRun): FrameRun
    requires Enabled(r, Done)
  {
    var n := r.reader.op.transferred;
    var (reader, reaction) := OnMessage(r.reader, NoError, n);
    match reaction
    case Quiet => r.(reader := reader)
    case Raise(f) => r.(reader := reader, fault := Some(f))
    case Deliver(callback, data) =>
      r.(reader := reader, consumed := r.consumed + (r.head + r.reader.buffer[..n]), head := [],
         delivered := r.delivered + [Framed(r.caches.deser, data)], told := r.told + [callback])
  }

  // ---------------------------------------------------------------- what every step keeps

  /** The reader of a live run: not started yet, or with exactly one read pending under the lock. */
  ghost predicate Live(r: FrameRun) {
    match r.reader.op
    case Idle => !r.reader.locked && r.received == [] && r.told == []
    case ReadUntil(_, _) => false
    case ReadExact(limit, transferred, phase) =>
      && r.reader.locked && r.reader.framed
      && transferred == |r.reader.buffer| <= limit <= r.reader.max
      && match phase
         case PrefixPhase => limit == PREFIX_SIZE && r.head == []
         case MessagePhase =>
           && |r.head| == PREFIX_SIZE
           && ParsePrefix(r.head) == Some(r.caches.deser)
           && limit == r.caches.deser.size
  }

  /** Why a run ended. */
  ghost predicate Ended(r: FrameRun) {
    match r.fault
    case Some(IoError) => !r.reader.locked && r.reader.op == Idle
    case Some(BadPrefix) =>
      && r.reader.locked && r.reader.op == Idle
      && r.head == [] && |r.reader.buffer| == PREFIX_SIZE && ParsePrefix(r.reader.buffer) == None
    case Some(LengthError) =>
      && r.reader.locked && r.reader.op == Idle
      && |r.head| == PREFIX_SIZE && ParsePrefix(r.head) == Some(r.caches.deser) && r.caches.deser.size > r.reader.max
    case _ => false
  }

  ghost predicate Inv(r: FrameRun) {
    && r.reader.max >= PREFIX_SIZE
    && r.received == r.consumed + r.head + r.reader.buffer
    && ParseFrames(r.consumed, r.reader.max) == Parse(r.delivered, Pending([]))
    && |r.told| == |r.delivered| && (forall i :: 0 <= i < |r.told| ==> r.told[i] == r.reader.callback)
    && if r.fault == None then Live(r) else Ended(r)
  }

  lemma InitInv(max: nat)
    requires max >= PREFIX_SIZE
    ensures Inv(Init(max))
  {
  }

  lemma PrefixDoneInv(r: FrameRun)
    requires Inv(r) && Enabled(r, Done) && r.reader.op.phase == PrefixPhase
    ensures Inv(PrefixDone(r))
  {
    hide ParsePrefix, ParseFrames;
    assert r.reader.buffer[..PREFIX_SIZE] == r.reader.buffer;
    assert r.reader.buffer[PREFIX_SIZE..] == [];
    assert r.consumed + [] + r.reader.buffer == r.consumed + r.reader.buffer + [];
  }

  lemma MessageDoneInv(r: FrameRun)
    requires Inv(r) && Enabled(r, Done) && r.reader.op.phase == MessagePhase
    ensures Inv(MessageDone(r))
  {
    hide ParsePrefix, ParseFrames;
    var body := r.reader.buffer;
    assert body[..|body|] == body && body[|body|..] == [];
    ParseSingle(r.head, r.caches.deser, body, r.reader.max);
    ParseAppend(r.consumed, r.head + body, r.reader.max);
    assert r.consumed + r.head + body == r.consumed + (r.head + body) + [] + [];
  }

  lemma NextInv(r: FrameRun, e: Event)
    requires Inv(r) && Enabled(r, e)
    ensures Inv(Next(r, e))
    ensures Next(r, e).reader.max == r.reader.max
  {
    hide ParsePrefix, ParseFrames, PrefixDone, MessageDone;
    match e
    case Start(_) =>
    case Arrive(chunk) =>
      assert r.received + chunk == r.consumed + r.head + (r.reader.buffer + chunk);
    case Done =>
      if r.reader.op.phase == PrefixPhase { PrefixDoneInv(r); } else { MessageDoneInv(r); }
      DoneKeepsMax(r);
    case Fail(_) =>
      assert r.reader.buffer[0..] == r.reader.buffer;
  }

  lemma DoneKeepsMax(r: FrameRun)
    requires Enabled(r, Done)
    ensures PrefixDone(r).reader.max == r.reader.max && MessageDone(r).reader.max == r.reader.max
  {
    hide ParsePrefix;
  }

  /** A handler takes nothing from the wire; it delivers at most one message, with its own prefix cached. */
  lemma DoneEffect(r: FrameRun)
    requires Inv(r) && Enabled(r, Done)
    ensures var q := Next(r, Done);
      && r.reader.op.ReadExact?
      && q.received == r.received
      && (q.fault == None ==> q.reader.op.ReadExact?)
      && q.fault != Some(IoError)
      && (|q.delivered| <= |r.delivered| ==> q.delivered == r.delivered)
      && (|q.delivered| > |r.delivered| ==>
            q.fault == None && q.delivered == r.delivered + [Framed(q.caches.deser, r.reader.buffer)])
  {
    hide ParseFrames, ParsePrefix;
    assert r.reader.buffer[..|r.reader.buffer|] == r.reader.buffer;
  }

  lemma StartEffect(r: FrameRun, cb: nat)
    requires Inv(r) && r.fault == None && r.reader.op == Idle
    ensures Next(r, Start(cb)) == r.(reader := StartFrames(r.reader, cb).0)
    ensures Next(r, Start(cb)).reader.op.ReadExact?
  {
    hide ParseFrames, ParsePrefix;
  }

  // ---------------------------------------------------------------- whole runs

  predicate ValidRun(r: FrameRun, es: seq<Event>)
    decreases |es|
  {
    es == [] || (Enabled(r, es[0]) && ValidRun(Next(r, es[0]), es[1..]))
  }

  function After(r: FrameRun, es: seq<Event>): FrameRun
    requires ValidRun(r, es)
    decreases |es|
  {
    if es == [] then r else After(Next(r, es[0]), es[1..])
  }

  lemma {:induction false} RunInv(r: FrameRun, es: seq<Event>)
    requires Inv(r) && ValidRun(r, es)
    ensures Inv(After(r, es)) && After(r, es).reader.max == r.reader.max
    decreases |es|
  {
    hide Inv, Enabled, Next;
    if es != [] {
      NextInv(r, es[0]);
      RunInv(Next(r, es[0]), es[1..]);
    }
  }

  /** Nothing is left to do with the bytes received so far. */
  predicate Settled(r: FrameRun) {
    match r.fault
    case None => r.reader.op.ReadExact? && !Enabled(r, Done)
    case Some(f) => f != IoError
  }

  /** How a settled run ended, in the words of the pure parser. */
  function EndOf(r: FrameRun): End {
    match r.fault
    case Some(BadPrefix) => Malformed
    case Some(LengthError) => Oversized
    case _ => Pending(r.head + r.reader.buffer)
  }

  lemma TailOfReader(r: FrameRun)
    requires Inv(r) && Settled(r)
    ensures ParseFrames(r.head + r.reader.buffer, r.reader.max) == Parse([], EndOf(r))
  {
    hide ParsePrefix;
    var s := r.head + r.reader.buffer;
    if r.head == [] {
      assert s == r.reader.buffer;
      if |s| == PREFIX_SIZE { assert s[..PREFIX_SIZE] == s; }
    } else {
      assert s[..PREFIX_SIZE] == r.head;
    }
  }

  lemma InvRefines(r: FrameRun)
    requires Inv(r)
    ensures r.delivered <= ParseFrames(r.received, r.reader.max).frames
    ensures Settled(r) ==> ParseFrames(r.received, r.reader.max) == Parse(r.delivered, EndOf(r))
  {
    hide ParsePrefix, ParseFrames;
    var tail := r.head + r.reader.buffer;
    assert r.received == r.consumed + tail;
    ParseAppend(r.consumed, tail, r.reader.max);
    if Settled(r) {
      TailOfReader(r);
      assert r.delivered + [] == r.delivered;
    }
  }

  /**
   Framed reading refines the pure parser. Whatever the chunks, the callback has seen a prefix of
   the parse of the received bytes, each frame with its own prefix in the cache; once the run is
   settled it has seen all of it, and it has thrown exactly if the parse met a bad prefix.
   */
  lemma ReadingRefinesParsing(max: nat, es: seq<Event>)
    requires max >= PREFIX_SIZE && ValidRun(Init(max), es)
    ensures var r := After(Init(max), es); var parse := ParseFrames(r.received, max);
      && r.delivered <= parse.frames
      && (Settled(r) ==> r.delivered == parse.frames && parse.end == EndOf(r))
  {
    hide ParseFrames, Inv, EndOf;
    InitInv(max);
    RunInv(Init(max), es);
    InvRefines(After(Init(max), es));
  }

  /** Chunk boundaries never matter: the same bytes give the same messages and the same end. */
  lemma ChunkingIsInvisible(max: nat, es: seq<Event>, fs: seq<Event>)
    requires max >= PREFIX_SIZE && ValidRun(Init(max), es) && ValidRun(Init(max), fs)
    requires Settled(After(Init(max), es)) && Settled(After(Init(max), fs))
    requires After(Init(max), es).received == After(Init(max), fs).received
    ensures After(Init(max), es).delivered == After(Init(max), fs).delivered
    ensures After(Init(max), es).fault == After(Init(max), fs).fault
  {
    hide ParseFrames, Next, Enabled;
    ReadingRefinesParsing(max, es);
    ReadingRefinesParsing(max, fs);
    InitInv(max);
    RunInv(Init(max), es);
    RunInv(Init(max), fs);
  }

  /** On the frames of `ps` the reader delivers a prefix of them, all of them once settled. */
  lemma FramesArriveIntact(max: nat, es: seq<Event>, ps: seq<Bytes>)
    requires max >= PREFIX_SIZE && ValidRun(Init(max), es) && PayloadsOk(ps)
    requires forall i :: 0 <= i < |ps| ==> |ps[i]| <= max
    requires After(Init(max), es).received <= Frames(ps)
    ensures var r := After(Init(max), es);
      && r.delivered <= EchoFrames(ps)
      && r.fault in {None, Some(IoError)}
      && (Settled(r) && r.received == Frames(ps) ==> r.delivered == EchoFrames(ps))
  {
    hide ParseFrames, Frames, Next, Enabled, EchoFramed;
    var r := After(Init(max), es);
    ReadingRefinesParsing(max, es);
    ParseCutStream(ps, r.received, max);
    var n := |ParseFrames(r.received, max).frames|;
    assert EchoFrames(ps[..n]) == EchoFrames(ps)[..n];
    InitInv(max);
    RunInv(Init(max), es);
    if r.received == Frames(ps) {
      ParseWholeStream(ps, max);
    }
  }

  /** A limit below the prefix size makes the first start throw, before anything is read. */
  lemma SmallLimitNeverReads(max: nat, es: seq<Event>)
    requires max < PREFIX_SIZE && ValidRun(Init(max), es)
    ensures es != [] ==> After(Init(max), es).fault == Some(LengthError)
    ensures After(Init(max), es).received == [] && After(Init(max), es).delivered == []
  {
    if es != [] {
      assert es[0].Start?;
      FaultIsFinal(Next(Init(max), es[0]), es[1..]);
    }
  }

  // ---------------------------------------------------------------- exclusivity and buffer discipline

  /**
   At most one read is pending, only under the lock, and none after an exception; only an I/O error
   releases the lock.
   */
  lemma ReadsAreExclusive(max: nat, es: seq<Event>)
    requires max >= PREFIX_SIZE && ValidRun(Init(max), es)
    ensures var r := After(Init(max), es);
      && (r.fault == None && r.reader.op.ReadExact? ==>
            r.reader.locked && |r.reader.buffer| <= r.reader.op.limit <= max)
      && (r.fault != None ==> r.reader.op == Idle)
      && (!r.reader.locked && r.received != [] ==> r.fault == Some(IoError))
      && (r.reader.locked ==>
            && (forall cb :: StartFrames(r.reader, cb) == (r.reader, None))
            && (forall cb, d, x :: StartLines(r.reader, cb, d, x) == r.reader))
  {
    hide ParseFrames, Next, Enabled, ParsePrefix;
    InitInv(max);
    RunInv(Init(max), es);
  }

  /**
   In either phase any error of a read, end of file included, is thrown, with the lock free and nothing
   pending, and nothing more is delivered.
   */
  lemma FailuresStop(max: nat, es: seq<Event>, code: ErrorCode)
    requires ValidRun(Init(max), es) && Enabled(After(Init(max), es), Fail(code))
    ensures var r := After(Init(max), es); var q := Next(r, Fail(code));
      && q.fault == Some(IoError) && !q.reader.locked && q.reader.op == Idle
      && q.delivered == r.delivered && (forall e :: !Enabled(q, e))
  {
    hide ParsePrefix;
  }

  lemma LockedStep(r: FrameRun, e: Event)
    requires r.reader.locked && Enabled(r, e)
    ensures Next(r, e).reader.callback == r.reader.callback
    ensures Next(r, e).fault == None ==> Next(r, e).reader.locked
  {
    hide ParsePrefix;
  }

  lemma {:induction false} CallbackStays(r: FrameRun, es: seq<Event>)
    requires r.reader.locked && ValidRun(r, es)
    ensures After(r, es).reader.callback == r.reader.callback
    decreases |es|
  {
    hide Next, Enabled;
    if es != [] {
      LockedStep(r, es[0]);
      var next := Next(r, es[0]);
      if next.fault == None { CallbackStays(next, es[1..]); } else { FaultIsFinal(next, es[1..]); }
    }
  }

  /** Every message of a run goes to the callback of the run's first start. */
  lemma FirstCallbackGetsAll(max: nat, es: seq<Event>)
    requires max >= PREFIX_SIZE && ValidRun(Init(max), es) && es != []
    ensures es[0].Start?
    ensures var r := After(Init(max), es);
      |r.told| == |r.delivered| && forall i :: 0 <= i < |r.told| ==> r.told[i] == Some(es[0].cb)
  {
    hide ParseFrames, ParsePrefix;
    InitInv(max);
    NextInv(Init(max), es[0]);
    CallbackStays(Next(Init(max), es[0]), es[1..]);
    RunInv(Next(Init(max), es[0]), es[1..]);
  }

  /** Each read starts on an empty buffer, so the handler gets exactly the bytes it asked for. */
  lemma ReadsStartEmpty(r: FrameRun)
    requires Inv(r) && Enabled(r, Done)
    ensures r.reader.op.transferred == |r.reader.buffer| == r.reader.op.limit
    ensures r.reader.op.phase == PrefixPhase ==> r.reader.op.transferred == PREFIX_SIZE
    ensures Next(r, Done).fault == None ==>
      Next(r, Done).reader.buffer == [] && Next(r, Done).reader.op.transferred == 0
  {
    hide ParseFrames, ParsePrefix;
  }

  // ---------------------------------------------------------------- progress

  /** Unread bytes weigh most, then buffered ones, then the phase and whether the run goes on. */
  function Measure(r: FrameRun, stream: Bytes): int {
    3 * (|stream| - |r.received|) + 2 * |r.reader.buffer| +
    (if r.reader.op.ReadExact? && r.reader.op.phase == MessagePhase then 1 else 0) +
    (if r.fault == None then 1 else 0)
  }

  lemma StepDecreases(r: FrameRun, e: Event, stream: Bytes)
    requires Inv(r) && Enabled(r, e) && (e.Arrive? || e.Done?)
    ensures Measure(Next(r, e), stream) < Measure(r, stream)
    ensures |Next(r, e).received| >= |r.received|
  {
    hide ParseFrames, ParsePrefix;
  }

  /** Reading a stream takes at most three steps for each of its bytes, and one more if it ends in an exception. */
  lemma {:induction false} RunsAreBounded(r: FrameRun, es: seq<Event>, stream: Bytes)
    requires Inv(r) && ValidRun(r, es)
    requires forall i :: 0 <= i < |es| ==> es[i].Arrive? || es[i].Done?
    requires |After(r, es).received| <= |stream|
    ensures |es| + Measure(After(r, es), stream) <= Measure(r, stream)
    ensures Measure(After(r, es), stream) >= 0
    decreases |es|
  {
    hide Next, Enabled, Inv;
    if es != [] {
      NextInv(r, es[0]);
      StepDecreases(r, es[0], stream);
      RunsAreBounded(Next(r, es[0]), es[1..], stream);
    }
  }

  lemma FaultIsFinal(r: FrameRun, es: seq<Event>)
    requires ValidRun(r, es)
    ensures r.fault != None ==> es == []
  {
    hide Next;
  }
}
