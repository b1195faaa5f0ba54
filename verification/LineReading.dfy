/**
 Runs of a line-mode `AsyncReader`. `async_read_until` first searches what is buffered; while the
 delimiter is missing it appends arbitrary chunks, possibly far beyond the next delimiter, up to
 the buffer's maximum, and it fails with `not_found` when the buffer is full without one.
 */
module LineReading {
  import opened Basics
  import opened Readers

  // ---------------------------------------------------------------- the pure splitter

  datatype LineEnd = Partial(rest: Bytes) | TooLong

  datatype Split = Split(lines: seq<Bytes>, end: LineEnd)

  /** Lines end at the delimiter and, with it, take at most `max` bytes. */
  function SplitLines(s: Bytes, delim: Byte, max: nat): Split
    decreases |s|
  {
    var pos := IndexOf(s, delim);
    if pos < |s| && pos < max then
      var more := SplitLines(s[pos + 1..], delim, max);
      Split([s[..pos]] + more.lines, more.end)
    else if |s| >= max then Split([], TooLong)
    else Split([], Partial(s))
  }

  /** Every line followed by the delimiter. */
  function Unsplit(lines: seq<Bytes>, delim: Byte): Bytes {
    if lines == [] then [] else lines[0] + [delim] + Unsplit(lines[1..], delim)
  }

  /** What the callback gets for a line. */
  function Shown(lines: seq<Bytes>, delim: Byte, discard: bool): (r: seq<Bytes>)
    ensures |r| == |lines|
  {
    if discard then lines else seq(|lines|, i requires 0 <= i < |lines| => lines[i] + [delim])
  }

  /** Either `s` has no delimiter, or it is a line, the delimiter and the rest. */
  lemma FirstLine(s: Bytes, delim: Byte)
    ensures var pos := IndexOf(s, delim);
      if pos == |s| then delim !in s
      else delim !in s[..pos] && s == s[..pos] + [delim] + s[pos + 1..]
  {
    assert s[..|s|] == s;
  }

  function PrependLine(line: Bytes, r: Split): Split { Split([line] + r.lines, r.end) }

  lemma SplitStep(line: Bytes, delim: Byte, t: Bytes, max: nat)
    requires delim !in line && |line| < max
    ensures SplitLines(line + [delim] + t, delim, max) == PrependLine(line, SplitLines(t, delim, max))
  {
    hide IndexOf;
    IndexOfLine(line, delim, t);
    var s := line + [delim] + t;
    assert s[..|line|] == line && s[|line| + 1..] == t;
  }

  /** Splitting loses nothing: the lines, their delimiters and the rest are the input. */
  ghost predicate Conserved(s: Bytes, delim: Byte, max: nat, r: Split) {
    && Unsplit(r.lines, delim) <= s
    && (r.end.Partial? ==> s == Unsplit(r.lines, delim) + r.end.rest)
    && forall i :: 0 <= i < |r.lines| ==> delim !in r.lines[i] && |r.lines[i]| < max
  }

  lemma {:induction false} SplitConserves(s: Bytes, delim: Byte, max: nat)
    ensures Conserved(s, delim, max, SplitLines(s, delim, max))
    decreases |s|
  {
    hide IndexOf;
    FirstLine(s, delim);
    var pos := IndexOf(s, delim);
    if pos < |s| && pos < max {
      var line, t := s[..pos], s[pos + 1..];
      SplitConserves(t, delim, max);
      SplitStep(line, delim, t, max);
      ConserveStep(line, delim, t, max, SplitLines(t, delim, max));
    }
  }

  lemma ConserveStep(line: Bytes, delim: Byte, t: Bytes, max: nat, r: Split)
    requires Conserved(t, delim, max, r) && delim !in line && |line| < max
    ensures Conserved(line + [delim] + t, delim, max, PrependLine(line, r))
  {
    assert ([line] + r.lines)[1..] == r.lines;
    var u := Unsplit(r.lines, delim);
    assert t == u + t[|u|..];
  }

  lemma SplitUncons(a: Bytes, delim: Byte, max: nat) returns (line: Bytes, t: Bytes)
    requires SplitLines(a, delim, max).end == Partial([]) && a != []
    ensures delim !in line && |line| < max && a == line + [delim] + t
  {
    hide IndexOf;
    FirstLine(a, delim);
    line, t := a[..IndexOf(a, delim)], a[IndexOf(a, delim) + 1..];
  }

  function Join(p: Split, q: Split): Split { Split(p.lines + q.lines, q.end) }

  lemma JoinEmpty(delim: Byte, max: nat, q: Split)
    requires SplitLines([], delim, max).end == Partial([])
    ensures Join(SplitLines([], delim, max), q) == q
  {
  }

  lemma JoinPrepend(line: Bytes, p: Split, q: Split)
    ensures PrependLine(line, Join(p, q)) == Join(PrependLine(line, p), q)
  {
  }

  lemma {:induction false} SplitAppend(a: Bytes, b: Bytes, delim: Byte, max: nat)
    requires SplitLines(a, delim, max).end == Partial([])
    ensures SplitLines(a + b, delim, max) == Join(SplitLines(a, delim, max), SplitLines(b, delim, max))
    decreases |a|
  {
    hide SplitLines, Join;
    if a == [] {
      assert a + b == b;
      JoinEmpty(delim, max, SplitLines(b, delim, max));
    } else {
      var line, t := SplitUncons(a, delim, max);
      SplitStep(line, delim, t, max);
      SplitAppend(t, b, delim, max);
      SplitStep(line, delim, t + b, max);
      AppendAssociates(line + [delim], t, b);
      JoinPrepend(line, SplitLines(t, delim, max), SplitLines(b, delim, max));
    }
  }

  lemma SplitSingle(line: Bytes, delim: Byte, max: nat)
    requires delim !in line && |line| < max
    ensures SplitLines(line + [delim], delim, max) == Split([line], Partial([]))
  {
    SplitStep(line, delim, [], max);
    assert line + [delim] + [] == line + [delim];
  }

  // ---------------------------------------------------------------- runs

  /**
   A reader and its history: bytes received, bytes of the lines delivered, what was delivered and
   to which callback, the error that a read ended with, and what the handler threw.
   */
  datatype LineRun = LineRun(
    reader: ReaderState, received: Bytes, consumed: Bytes, delivered: seq<Bytes>,
    told: seq<Option<nat>>, error: ErrorCode, fault: Option<Fault>)

  datatype Event = Start(cb: nat, delim: Byte, discard: bool) | Arrive(chunk: Bytes) | Done | Fail(code: ErrorCode)

  /** The command loop's constructor starts the reader at once. */
  function Init(max: nat, cb: nat, delim: Byte, discard: bool): LineRun {
    LineRun(StartLines(NewReader(max), cb, delim, discard), [], [], [], [], NoError, None)
  }

  predicate Enabled(r: LineRun, e: Event) {
    && r.fault == None && r.reader.op.ReadUntil?
    && match e
       case Start(_, _, _) => true
       case Arrive(chunk) => r.reader.op.delim !in r.reader.buffer && 1 <= |chunk| <= r.reader.max - |r.reader.buffer|
       case Done => r.reader.op.delim in r.reader.buffer
       case Fail(code) =>
         && code != NoError
         && (code == NotFound ==> |r.reader.buffer| == r.reader.max && r.reader.op.delim !in r.reader.buffer)
  }

  function Next(r: LineRun, e: Event): LineRun
    requires Enabled(r, e)
  {
    match e
    case Start(cb, delim, discard) => r.(reader := StartLines(r.reader, cb, delim, discard))
    case Arrive(chunk) =>
      r.(reader := r.reader.(buffer := r.reader.buffer + chunk), received := r.received + chunk)
    case Done => LineDone(r)
    case Fail(code) =>
      var (reader, reaction) := OnLine(r.reader, r.reader.op.delim, r.reader.op.discard, code, 0);
      r.(reader := reader, error := code, fault := FaultOf(reaction))
  }

  /** The operation reports the bytes up to and including the first delimiter. */
  function LineDone(r: LineRun): LineRun
    requires Enabled(r, Done)
  {
    var op := r.reader.op;
    var n := IndexOf(r.reader.buffer, op.delim) + 1;
    var (reader, reaction) := OnLine(r.reader, op.delim, op.discard, NoError, n);
    if reaction.Deliver? && n <= |r.reader.buffer| then
      r.(reader := reader, consumed := r.consumed + r.reader.buffer[..n],
         delivered := r.delivered + [reaction.data], told := r.told + [reaction.callback])
    else r.(reader := reader, fault := FaultOf(reaction))
  }

  ghost predicate Inv(r: LineRun, delim: Byte, discard: bool) {
    && r.fault == (if r.error == NoError then None else Some(IoError))
    && |r.told| == |r.delivered| && (forall i :: 0 <= i < |r.told| ==> r.told[i] == r.reader.callback)
    && r.received == r.consumed + r.reader.buffer
    && |r.reader.buffer| <= r.reader.max
    && SplitLines(r.consumed, delim, r.reader.max).end == Partial([])
    && r.delivered == Shown(SplitLines(r.consumed, delim, r.reader.max).lines, delim, discard)
    && (r.error == NoError ==> r.reader.op == ReadUntil(delim, discard) && r.reader.locked)
    && (r.error == NotFound ==> |r.reader.buffer| == r.reader.max && delim !in r.reader.buffer)
    && (r.error != NoError ==> !r.reader.locked && r.reader.op == Idle)
  }

  lemma LineDoneInv(r: LineRun, delim: Byte, discard: bool)
    requires Inv(r, delim, discard) && Enabled(r, Done)
    ensures Inv(LineDone(r), delim, discard)
    ensures |LineDone(r).reader.buffer| < |r.reader.buffer| && LineDone(r).received == r.received
    ensures LineDone(r).reader.max == r.reader.max && LineDone(r).reader.callback == r.reader.callback
    ensures LineDone(r).delivered[..|r.delivered|] == r.delivered && |LineDone(r).delivered| == |r.delivered| + 1
  {
    hide SplitLines, IndexOf;
    var buffer := r.reader.buffer;
    FirstLine(buffer, delim);
    var pos := IndexOf(buffer, delim);
    var line := buffer[..pos];
    assert buffer[..pos + 1] == line + [delim];
    SplitSingle(line, delim, r.reader.max);
    SplitAppend(r.consumed, line + [delim], delim, r.reader.max);
    assert r.consumed + buffer == r.consumed + (line + [delim]) + buffer[pos + 1..];
    ShownSnoc(SplitLines(r.consumed, delim, r.reader.max).lines, line, delim, discard);
  }

  lemma ShownSnoc(lines: seq<Bytes>, line: Bytes, delim: Byte, discard: bool)
    ensures Shown(lines + [line], delim, discard) ==
      Shown(lines, delim, discard) + [if discard then line else line + [delim]]
  {
  }

  lemma NextInv(r: LineRun, e: Event, delim: Byte, discard: bool)
    requires Inv(r, delim, discard) && Enabled(r, e)
    ensures Inv(Next(r, e), delim, discard)
    ensures Next(r, e).reader.max == r.reader.max && Next(r, e).reader.callback == r.reader.callback
  {
    hide SplitLines, Shown, LineDone, IndexOf;
    if e.Done? {
      LineDoneInv(r, delim, discard);
    } else if e.Arrive? {
      assert r.received + e.chunk == r.consumed + (r.reader.buffer + e.chunk);
    }
  }

  predicate ValidRun(r: LineRun, es: seq<Event>)
    decreases |es|
  {
    es == [] || (Enabled(r, es[0]) && ValidRun(Next(r, es[0]), es[1..]))
  }

  function After(r: LineRun, es: seq<Event>): LineRun
    requires ValidRun(r, es)
    decreases |es|
  {
    if es == [] then r else After(Next(r, es[0]), es[1..])
  }

  lemma InitInv(max: nat, cb: nat, delim: Byte, discard: bool)
    requires max > 0
    ensures Inv(Init(max, cb, delim, discard), delim, discard)
  {
    assert Shown([], delim, discard) == [];
  }

  lemma {:induction false} RunInv(r: LineRun, es: seq<Event>, delim: Byte, discard: bool)
    requires Inv(r, delim, discard) && ValidRun(r, es)
    ensures Inv(After(r, es), delim, discard)
    ensures After(r, es).reader.max == r.reader.max && After(r, es).reader.callback == r.reader.callback
    decreases |es|
  {
    hide Inv, Enabled, Next;
    if es != [] {
      NextInv(r, es[0], delim, discard);
      RunInv(Next(r, es[0]), es[1..], delim, discard);
    }
  }

  /** Waiting for input, or stopped by a line that does not fit. */
  predicate Settled(r: LineRun) {
    if r.fault == None
    then r.reader.op.ReadUntil? && r.reader.op.delim !in r.reader.buffer && |r.reader.buffer| < r.reader.max
    else r.error == NotFound
  }

  lemma InvRefines(r: LineRun, delim: Byte, discard: bool)
    requires Inv(r, delim, discard)
    ensures var split := SplitLines(r.received, delim, r.reader.max);
      && r.delivered <= Shown(split.lines, delim, discard)
      && (Settled(r) ==> r.delivered == Shown(split.lines, delim, discard)
                         && split.end == (if r.fault == None then Partial(r.reader.buffer) else TooLong))
  {
    var max, buffer := r.reader.max, r.reader.buffer;
    SplitAppend(r.consumed, buffer, delim, max);
    var before, after := SplitLines(r.consumed, delim, max).lines, SplitLines(buffer, delim, max).lines;
    assert Shown(before + after, delim, discard)[..|before|] == Shown(before, delim, discard);
    if Settled(r) {
      assert IndexOf(buffer, delim) == |buffer|;
      assert before + [] == before;
    }
  }

  /**
   Line reading refines splitting. Whatever the chunks and however far they over-read, the callback
   has seen a prefix of the lines of the received bytes, all of them once the run is settled; the
   run stops by itself exactly at a line that does not fit; and the handler's assertion never fails.
   */
  lemma ReadingRefinesSplitting(max: nat, cb: nat, delim: Byte, discard: bool, es: seq<Event>)
    requires max > 0 && ValidRun(Init(max, cb, delim, discard), es)
    ensures var r := After(Init(max, cb, delim, discard), es); var split := SplitLines(r.received, delim, max);
      && r.fault != Some(AssertionFailed)
      && r.delivered <= Shown(split.lines, delim, discard)
      && (Settled(r) ==> r.delivered == Shown(split.lines, delim, discard)
                         && split.end == (if r.fault == None then Partial(r.reader.buffer) else TooLong))
  {
    hide SplitLines, Shown, Next, Enabled;
    InitInv(max, cb, delim, discard);
    RunInv(Init(max, cb, delim, discard), es, delim, discard);
    InvRefines(After(Init(max, cb, delim, discard), es), delim, discard);
  }

  /** Conservation: delivered lines with their delimiters, then the buffer, are the bytes received. */
  lemma ReadingConservesBytes(max: nat, cb: nat, delim: Byte, es: seq<Event>)
    requires max > 0 && ValidRun(Init(max, cb, delim, true), es)
    ensures var r := After(Init(max, cb, delim, true), es);
      && r.received == Unsplit(r.delivered, delim) + r.reader.buffer
      && |r.reader.buffer| <= max
      && forall i :: 0 <= i < |r.delivered| ==> delim !in r.delivered[i] && |r.delivered[i]| < max
  {
    hide SplitLines, Next, Enabled;
    InitInv(max, cb, delim, true);
    RunInv(Init(max, cb, delim, true), es, delim, true);
    SplitConserves(After(Init(max, cb, delim, true), es).consumed, delim, max);
  }

  /**
   Exclusivity in line mode: while the run goes on its one read is pending under the lock, every
   start, of either mode, is refused without a change, and every line goes to the first callback; an
   error releases the lock and leaves nothing pending.
   */
  lemma ReadsAreExclusive(max: nat, cb: nat, delim: Byte, discard: bool, es: seq<Event>)
    requires max > 0 && ValidRun(Init(max, cb, delim, discard), es)
    ensures var r := After(Init(max, cb, delim, discard), es);
      && (r.fault == None ==> r.reader.locked && r.reader.op == ReadUntil(delim, discard))
      && (r.fault != None ==> r.fault == Some(IoError) && !r.reader.locked && r.reader.op == Idle)
      && (r.reader.locked ==>
            && (forall c, d, x :: StartLines(r.reader, c, d, x) == r.reader)
            && (forall c :: StartFrames(r.reader, c) == (r.reader, None)))
      && |r.told| == |r.delivered| && (forall i :: 0 <= i < |r.told| ==> r.told[i] == Some(cb))
  {
    hide SplitLines, Shown, Next, Enabled;
    InitInv(max, cb, delim, discard);
    RunInv(Init(max, cb, delim, discard), es, delim, discard);
  }

  /** Any error of a read is thrown, with the lock free and nothing pending, and nothing more is delivered. */
  lemma FailuresStop(max: nat, cb: nat, delim: Byte, discard: bool, es: seq<Event>, code: ErrorCode)
    requires ValidRun(Init(max, cb, delim, discard), es)
    requires Enabled(After(Init(max, cb, delim, discard), es), Fail(code))
    ensures var r := After(Init(max, cb, delim, discard), es); var q := Next(r, Fail(code));
      && q.fault == Some(IoError) && !q.reader.locked && q.reader.op == Idle
      && q.delivered == r.delivered && (forall e :: !Enabled(q, e))
  {
    hide IndexOf, Init;
  }

  /** A limit of zero leaves no room for a line: nothing is ever read or delivered. */
  lemma {:induction false} ZeroLimitNeverReads(r: LineRun, es: seq<Event>)
    requires r.reader.max == 0 && r.reader.buffer == [] && r.reader.locked && ValidRun(r, es)
    ensures After(r, es).received == r.received && After(r, es).delivered == r.delivered
    decreases |es|
  {
    if es != [] {
      if es[0].Fail? {
        assert es[1..] == [];
      } else {
        ZeroLimitNeverReads(Next(r, es[0]), es[1..]);
      }
    }
  }

  /** Unread bytes weigh two, buffered ones one; every arrival and every line makes this smaller. */
  function Measure(r: LineRun, stream: Bytes): int {
    2 * (|stream| - |r.received|) + |r.reader.buffer|
  }

  lemma {:induction false} RunsAreBounded(r: LineRun, es: seq<Event>, stream: Bytes, delim: Byte, discard: bool)
    requires Inv(r, delim, discard) && ValidRun(r, es)
    requires forall i :: 0 <= i < |es| ==> es[i].Arrive? || es[i].Done?
    requires |After(r, es).received| <= |stream|
    ensures |es| + Measure(After(r, es), stream) <= Measure(r, stream)
    ensures Measure(After(r, es), stream) >= 0
    decreases |es|
  {
    hide SplitLines, Shown, LineDone;
    if es != [] {
      NextInv(r, es[0], delim, discard);
      RunsAreBounded(Next(r, es[0]), es[1..], stream, delim, discard);
      if es[0].Done? { LineDoneInv(r, delim, discard); }
    }
  }
}
