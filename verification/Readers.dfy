/**
 common/include/acs/conn/AsyncReader.hpp: the lock, the two occupying read loops and their
 completion handlers. `op` is the operation the reader has handed to the event loop; a handler
 starts once that operation is over, so it begins by clearing `op`.
 */
module Readers {
  import opened Basics
  import opened Messages
  import opened Protocols

  datatype Phase = PrefixPhase | MessagePhase

  datatype Op =
    | Idle
    | ReadExact(limit: nat, transferred: nat, phase: Phase)  // async_read, dynamic_buffer(_, limit)
    | ReadUntil(delim: Byte, discard: bool)                  // async_read_until

  datatype ErrorCode = NoError | Eof | NoBufferSpace | NotFound | OtherError

  /** The fields of a reader; `framed` says that `_protocol` is set. */
  datatype ReaderState = ReaderState(
    max: nat, locked: bool, callback: Option<nat>, framed: bool, buffer: Bytes, op: Op)

  /** What a handler does last: nothing more, call the callback, or throw. */
  datatype Reaction = Quiet | Deliver(callback: Option<nat>, data: Bytes) | Raise(fault: Fault)

  function FaultOf(r: Reaction): Option<Fault> { if r.Raise? then Some(r.fault) else None }

  const MAX_READ_BUFFER_SIZE_BYTES: nat := 1024

  function NewReader(max: nat): ReaderState { ReaderState(max, false, None, false, [], Idle) }

  /** First position of `d` in `s`, or |s| if there is none. */
  function IndexOf(s: Bytes, d: Byte): (i: nat)
    ensures i <= |s| && d !in s[..i]
    ensures i < |s| ==> s[i] == d
  {
    if s == [] || s[0] == d then 0
    else
      var i := 1 + IndexOf(s[1..], d);
      assert s[..i] == [s[0]] + s[1..][..i - 1];
      i
  }

  lemma {:induction false} IndexOfLine(line: Bytes, delim: Byte, t: Bytes)
    requires delim !in line
    ensures IndexOf(line + [delim] + t, delim) == |line|
  {
    var s := line + [delim] + t;
    if line != [] {
      assert s[0] == line[0] && line[0] in line;
      IndexOfLine(line[1..], delim, t);
      assert s[1..] == line[1..] + [delim] + t;
    }
  }

  // ---------------------------------------------------------------- specification of each member

  function SchedulePrefix(s: ReaderState): (ReaderState, Option<Fault>) {
    if PREFIX_SIZE > s.max then (s, Some(LengthError))
    else (s.(op := ReadExact(PREFIX_SIZE, 0, PrefixPhase)), None)
  }

  function ScheduleMessage(s: ReaderState, size: nat): (ReaderState, Option<Fault>) {
    if size > s.max then (s, Some(LengthError))
    else (s.(op := ReadExact(size, 0, MessagePhase)), None)
  }

  function StartFrames(s: ReaderState, cb: nat): (ReaderState, Option<Fault>) {
    if s.locked then (s, None)
    else SchedulePrefix(s.(locked := true, callback := Some(cb), framed := true))
  }

  function StartLines(s: ReaderState, cb: nat, delim: Byte, discard: bool): ReaderState {
    if s.locked then s
    else s.(locked := true, callback := Some(cb), op := ReadUntil(delim, discard))
  }

  /**
   Without a delimiter `find` returns `npos`, and `npos + 1` wraps around to 0: the assertion then
   holds for a count of 0, nothing is erased, and the whole buffer counts as the line.
   */
  function OnLine(s: ReaderState, delim: Byte, discard: bool, code: ErrorCode, n: nat): (ReaderState, Reaction) {
    if code != NoError then (s.(locked := false, op := Idle), Raise(IoError))
    else
      var pos := IndexOf(s.buffer, delim);
      var afterDelim := if pos == |s.buffer| then 0 else pos + 1;
      if n != afterDelim then (s.(op := Idle), Raise(AssertionFailed))
      else (s.(buffer := s.buffer[afterDelim..], op := ReadUntil(delim, discard)),
            Deliver(s.callback, s.buffer[..if discard then pos else afterDelim]))
  }

  /** The second component is the prefix left in the protocol's cache, if one was parsed. */
  function OnPrefix(s: ReaderState, code: ErrorCode, n: nat): (ReaderState, Option<FramePrefix>, Reaction)
    requires n <= |s.buffer|
  {
    if code != NoError then (s.(locked := false, op := Idle), None, Raise(IoError))
    else if n != PREFIX_SIZE then (s.(op := Idle), None, Raise(AssertionFailed))
    else match ParsePrefix(s.buffer[..n])
      case None => (s.(op := Idle), None, Raise(BadPrefix))
      case Some(p) =>
        var (next, fault) := ScheduleMessage(s.(op := Idle, buffer := s.buffer[n..]), p.size);
        (next, Some(p), if fault.Some? then Raise(fault.value) else Quiet)
  }

  function OnMessage(s: ReaderState, code: ErrorCode, n: nat): (ReaderState, Reaction)
    requires n <= |s.buffer|
  {
    if code != NoError then (s.(locked := false, op := Idle), Raise(IoError))
    else
      var (next, fault) := SchedulePrefix(s.(op := Idle, buffer := s.buffer[n..]));
      (next, if fault.Some? then Raise(fault.value) else Deliver(s.callback, s.buffer[..n]))
  }

  // ---------------------------------------------------------------- what the handlers do, for any buffer and count

  /** On a line, its delimiter and whatever was read beyond: the line goes out and the rest stays. */
  lemma LineHandlerExactly(s: ReaderState, line: Bytes, delim: Byte, rest: Bytes, discard: bool, n: nat)
    requires s.buffer == line + [delim] + rest && delim !in line
    ensures OnLine(s, delim, discard, NoError, n) ==
      if n == |line| + 1 then
        (s.(buffer := rest, op := ReadUntil(delim, discard)),
         Deliver(s.callback, if discard then line else line + [delim]))
      else (s.(op := Idle), Raise(AssertionFailed))
  {
    hide IndexOf;
    IndexOfLine(line, delim, rest);
    assert s.buffer[..|line|] == line && s.buffer[..|line| + 1] == line + [delim] && s.buffer[|line| + 1..] == rest;
  }

  /** Without a delimiter only a count of 0 passes the assertion; nothing is taken out of the buffer. */
  lemma NoDelimiterExactly(s: ReaderState, delim: Byte, discard: bool, n: nat)
    requires delim !in s.buffer
    ensures OnLine(s, delim, discard, NoError, n) ==
      if n == 0 then (s.(op := ReadUntil(delim, discard)), Deliver(s.callback, if discard then s.buffer else []))
      else (s.(op := Idle), Raise(AssertionFailed))
  {
    assert s.buffer[..|s.buffer|] == s.buffer && s.buffer[0..] == s.buffer;
  }

  /** When the prefix handler throws, and what it throws; otherwise it reads as many bytes as were announced. */
  lemma PrefixHandlerExactly(s: ReaderState, code: ErrorCode, n: nat)
    requires n <= |s.buffer|
    ensures var (next, cached, reaction) := OnPrefix(s, code, n);
      var whole, parsed := code == NoError && n == 10, ParsePrefix(s.buffer[..n]);
      && (reaction == Raise(IoError) <==> code != NoError)
      && (reaction == Raise(AssertionFailed) <==> code == NoError && n != 10)
      && (reaction == Raise(BadPrefix) <==> whole && parsed == None)
      && (reaction == Raise(LengthError) <==> whole && parsed.Some? && parsed.value.size > s.max)
      && (!reaction.Raise? ==>
            && reaction == Quiet && next.buffer == s.buffer[10..] && next.locked == s.locked
            && cached == parsed && next.op == ReadExact(cached.value.size, 0, MessagePhase))
      && (next.locked <==> s.locked && code == NoError)
  {
    hide ParsePrefix;
  }

  /** The message handler takes the transferred bytes, leaves the others, and reads the next prefix. */
  lemma MessageHandlerExactly(s: ReaderState, body: Bytes, rest: Bytes, code: ErrorCode)
    requires s.buffer == body + rest
    ensures OnMessage(s, code, |body|) ==
      if code != NoError then (s.(locked := false, op := Idle), Raise(IoError))
      else if s.max < 10 then (s.(buffer := rest, op := Idle), Raise(LengthError))
      else (s.(buffer := rest, op := ReadExact(10, 0, PrefixPhase)), Deliver(s.callback, body))
  {
    assert s.buffer[..|body|] == body && s.buffer[|body|..] == rest;
  }

  // ---------------------------------------------------------------- the class

  class AsyncReader {
    const max: nat
    var callback: Option<nat>
    var protocol: Protocol?
    var buffer: Bytes
    var readInProgress: bool
    var op: Op

    ghost function View(): ReaderState
      reads this
    {
      ReaderState(max, readInProgress, callback, protocol != null, buffer, op)
    }

    constructor (max: nat)
      ensures View() == NewReader(max)
    {
      this.max := max;
      callback, protocol, buffer, readInProgress, op := None, null, [], false, Idle;
    }

    method TryLockReading() returns (ok: bool)
      modifies this`readInProgress
      ensures ok == !old(readInProgress) && readInProgress
    {
      if readInProgress {
        return false;
      }
      readInProgress := true;
      return true;
    }

    method UnlockReading()
      modifies this`readInProgress
      ensures !readInProgress
    {
      readInProgress := false;
    }

    /** Throws on every error, after releasing the lock. */
    method CheckError(code: ErrorCode) returns (fault: Option<Fault>)
      modifies this`readInProgress
      ensures fault == (if code == NoError then None else Some(IoError))
      ensures readInProgress == (code == NoError && old(readInProgress))
    {
      if code != NoError {
        UnlockReading();
        return Some(IoError);
      }
      return None;
    }

    method DoReadUntilInfinitelyNoUnlock(delim: Byte, discard: bool)
      modifies this`op
      ensures View() == old(View()).(op := ReadUntil(delim, discard))
    {
      op := ReadUntil(delim, discard);
    }

    method DoReadProtoFramePrefix() returns (fault: Option<Fault>)
      requires protocol != null && protocol.Valid()
      modifies this`op
      ensures (View(), fault) == SchedulePrefix(old(View()))
    {
      if protocol.prefixSize > max {
        return Some(LengthError);
      }
      op := ReadExact(protocol.prefixSize, 0, PrefixPhase);
      return None;
    }

    method DoReadProtoMessage(messageSize: nat) returns (fault: Option<Fault>)
      modifies this`op
      ensures (View(), fault) == ScheduleMessage(old(View()), messageSize)
    {
      if messageSize > max {
        return Some(LengthError);
      }
      op := ReadExact(messageSize, 0, MessagePhase);
      return None;
    }

    method ReadAsyncUntilDelimInfOccupy(cb: nat, delim: Byte, discard: bool)
      modifies this
      ensures View() == StartLines(old(View()), cb, delim, discard)
      ensures if old(readInProgress) then View() == old(View()) else
        && callback == Some(cb) && readInProgress && buffer == old(buffer) && op == ReadUntil(delim, discard)
      ensures protocol == old(protocol)
    {
      var ok := TryLockReading();
      if ok {
        callback := Some(cb);
        DoReadUntilInfinitelyNoUnlock(delim, discard);
      }
    }

    method ReadAsyncProtoInfOccupy(cb: nat, p: Protocol) returns (fault: Option<Fault>)
      requires p.Valid()
      modifies this
      ensures (View(), fault) == StartFrames(old(View()), cb)
      ensures if old(readInProgress) then View() == old(View()) && fault == None else
        && callback == Some(cb) && readInProgress && buffer == old(buffer)
        && fault == (if max < 10 then Some(LengthError) else None)
        && (fault == None ==> op == ReadExact(10, 0, PrefixPhase))
      ensures protocol == if old(readInProgress) then old(protocol) else p
    {
      fault := None;
      var ok := TryLockReading();
      if ok {
        callback := Some(cb);
        protocol := p;
        fault := DoReadProtoFramePrefix();
      }
    }

    method HandleReadUntilInfNoUnlockLoopstep(delim: Byte, discard: bool, code: ErrorCode, bytesTransferred: nat)
      returns (r: Reaction)
      modifies this
      ensures (View(), r) == OnLine(old(View()), delim, discard, code, bytesTransferred)
      ensures protocol == old(protocol)
    {
      op := Idle;
      var fault := CheckError(code);
      if fault.Some? {
        return Raise(fault.value);
      }
      var delimPos := IndexOf(buffer, delim);
      var afterDelim := if delimPos == |buffer| then 0 else delimPos + 1;
      if bytesTransferred != afterDelim {
        return Raise(AssertionFailed);
      }
      var requestedData := buffer[..if discard then delimPos else afterDelim];
      buffer := buffer[afterDelim..];
      DoReadUntilInfinitelyNoUnlock(delim, discard);
      return Deliver(callback, requestedData);
    }

    method HandleReadProtoFramePrefixFinished(code: ErrorCode, bytesTransferred: nat) returns (r: Reaction)
      requires protocol != null && protocol.Valid() && bytesTransferred <= |buffer|
      modifies this, protocol`deserCache
      ensures protocol == old(protocol)
      ensures var (next, cached, reaction) := OnPrefix(old(View()), code, bytesTransferred);
        && (View(), r) == (next, reaction)
        && (cached.Some? ==> protocol.deserCache == cached.value)
    {
      hide ParsePrefix;
      op := Idle;
      var fault := CheckError(code);
      if fault.Some? {
        return Raise(fault.value);
      }
      if bytesTransferred != protocol.prefixSize {
        return Raise(AssertionFailed);
      }
      var messageSize := protocol.GetMessageSize(buffer[..bytesTransferred]);
      if messageSize.Throws? {
        return Raise(messageSize.fault);
      }
      buffer := buffer[bytesTransferred..];
      fault := DoReadProtoMessage(messageSize.value);
      return if fault.Some? then Raise(fault.value) else Quiet;
    }

    /** The next prefix read is scheduled before the callback sees this message. */
    method HandleReadProtoMessageFinished(code: ErrorCode, bytesTransferred: nat) returns (r: Reaction)
      requires protocol != null && protocol.Valid() && bytesTransferred <= |buffer|
      modifies this
      ensures (View(), r) == OnMessage(old(View()), code, bytesTransferred)
      ensures protocol == old(protocol)
    {
      op := Idle;
      var fault := CheckError(code);
      if fault.Some? {
        return Raise(fault.value);
      }
      var requestedData := buffer[..bytesTransferred];
      buffer := buffer[bytesTransferred..];
      fault := DoReadProtoFramePrefix();
      return if fault.Some? then Raise(fault.value) else Deliver(callback, requestedData);
    }
  }
}
