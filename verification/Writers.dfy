/**
 The two writers. `AsyncWriter` (common/include/acs/conn/AsyncWriter.hpp) asks its guard before it
 stores the buffer; `TcpConnection::send` (server/src/conn/TcpConnection.cpp) stores first and asks
 later. Both pass a live buffer to `async_write`, which sends it in arbitrary non-empty pieces.
 */
module Writers {
  import opened Basics
  import opened Readers

  // ---------------------------------------------------------------- AsyncWriter

  /** `sent` counts the bytes the pending `async_write` has passed on. */
  datatype WriterState = WriterState(busy: bool, buffer: Bytes, sent: nat)

  const NEW_WRITER := WriterState(false, [], 0)

  function WriteOn(w: WriterState, data: Bytes): (WriterState, bool) {
    if w.busy then (w, false) else (WriterState(true, data, 0), true)
  }

  class AsyncWriter {
    var writeBuffer: Bytes
    var writeInProgress: bool
    var sent: nat

    ghost function View(): WriterState
      reads this
    {
      WriterState(writeInProgress, writeBuffer, sent)
    }

    constructor ()
      ensures View() == NEW_WRITER
    {
      writeBuffer, writeInProgress, sent := [], false, 0;
    }

    method TryLockWriting() returns (ok: bool)
      modifies this`writeInProgress
      ensures ok == !old(writeInProgress) && writeInProgress
    {
      if writeInProgress {
        return false;
      }
      writeInProgress := true;
      return true;
    }

    method DoWrite()
      modifies this`sent
      ensures sent == 0
    {
      sent := 0;
    }

    /** A refused write changes nothing. */
    method Write(data: Bytes) returns (accepted: bool)
      modifies this
      ensures (View(), accepted) == WriteOn(old(View()), data)
      ensures accepted <==> !old(writeInProgress)
      ensures if accepted then View() == WriterState(true, data, 0) else View() == old(View())
    {
      accepted := TryLockWriting();
      if accepted {
        writeBuffer := data;
        DoWrite();
      }
    }

    /** Clears the guard whatever the error; end of file is only logged, anything else thrown. */
    method HandleWriteFinished(code: ErrorCode) returns (fault: Option<Fault>)
      modifies this`writeInProgress
      ensures View() == old(View()).(busy := false)
      ensures fault == if code in {NoError, Eof} then None else Some(IoError)
    {
      writeInProgress := false;
      if code == Eof {
        return None;
      } else if code != NoError {
        return Some(IoError);
      }
      return None;
    }
  }

  /** A writer, the bytes it has put on the wire and the messages its guard has let through. */
  datatype WriterRun = WriterRun(writer: WriterState, wire: Bytes, accepted: seq<Bytes>)

  const NEW_WRITER_RUN := WriterRun(NEW_WRITER, [], [])

  datatype WriteEvent = Write(data: Bytes) | Piece(count: nat) | Finished

  predicate WriteEnabled(r: WriterRun, e: WriteEvent) {
    match e
    case Write(_) => true
    case Piece(count) => r.writer.busy && 1 <= count && r.writer.sent + count <= |r.writer.buffer|
    case Finished => r.writer.busy && r.writer.sent == |r.writer.buffer|
  }

  function WriteNext(r: WriterRun, e: WriteEvent): WriterRun
    requires WriteEnabled(r, e)
  {
    match e
    case Write(data) =>
      var (writer, accepted) := WriteOn(r.writer, data);
      r.(writer := writer, accepted := if accepted then r.accepted + [data] else r.accepted)
    case Piece(count) =>
      var upto := r.writer.sent + count;
      r.(writer := r.writer.(sent := upto), wire := r.wire + r.writer.buffer[r.writer.sent..upto])
    case Finished => r.(writer := r.writer.(busy := false))
  }

  /** The wire holds every accepted message, the last one as far as it has been sent. */
  ghost predicate OnWire(busy: bool, buffer: Bytes, sent: nat, wire: Bytes, accepted: seq<Bytes>) {
    if busy then
      && accepted != [] && accepted[|accepted| - 1] == buffer
      && sent <= |buffer|
      && wire == Concat(accepted[..|accepted| - 1]) + buffer[..sent]
    else wire == Concat(accepted)
  }

  ghost predicate WriterInv(r: WriterRun) {
    OnWire(r.writer.busy, r.writer.buffer, r.writer.sent, r.wire, r.accepted)
  }

  lemma OnWireAccept(wire: Bytes, accepted: seq<Bytes>, data: Bytes)
    requires wire == Concat(accepted)
    ensures OnWire(true, data, 0, wire, accepted + [data])
  {
    assert (accepted + [data])[..|accepted|] == accepted;
    assert data[..0] == [];
  }

  lemma OnWirePiece(buffer: Bytes, sent: nat, upto: nat, wire: Bytes, accepted: seq<Bytes>)
    requires OnWire(true, buffer, sent, wire, accepted) && sent <= upto <= |buffer|
    ensures OnWire(true, buffer, upto, wire + buffer[sent..upto], accepted)
  {
    assert buffer[..upto] == buffer[..sent] + buffer[sent..upto];
  }

  lemma OnWireFinished(buffer: Bytes, wire: Bytes, accepted: seq<Bytes>)
    requires OnWire(true, buffer, |buffer|, wire, accepted)
    ensures wire == Concat(accepted)
  {
    ConcatSnoc(accepted[..|accepted| - 1], buffer);
    assert accepted == accepted[..|accepted| - 1] + [buffer];
    assert buffer[..|buffer|] == buffer;
  }

  /** The wire never holds anything but a prefix of the accepted messages in order. */
  lemma OnWirePrefix(busy: bool, buffer: Bytes, sent: nat, wire: Bytes, accepted: seq<Bytes>)
    requires OnWire(busy, buffer, sent, wire, accepted)
    ensures wire <= Concat(accepted)
  {
    if busy {
      ConcatSnoc(accepted[..|accepted| - 1], buffer);
      assert accepted == accepted[..|accepted| - 1] + [buffer];
    }
  }

  lemma WriteNextInv(r: WriterRun, e: WriteEvent)
    requires WriterInv(r) && WriteEnabled(r, e)
    ensures WriterInv(WriteNext(r, e))
    ensures r.wire <= WriteNext(r, e).wire && r.accepted <= WriteNext(r, e).accepted
    ensures e.Write? && r.writer.busy ==> WriteNext(r, e) == r
    ensures e.Write? && !r.writer.busy ==> WriteNext(r, e).accepted == r.accepted + [e.data]
  {
    hide Concat;
    match e
    case Write(data) =>
      if !r.writer.busy { OnWireAccept(r.wire, r.accepted, data); }
    case Piece(count) =>
      OnWirePiece(r.writer.buffer, r.writer.sent, r.writer.sent + count, r.wire, r.accepted);
    case Finished =>
      OnWireFinished(r.writer.buffer, r.wire, r.accepted);
  }

  predicate ValidWrites(r: WriterRun, es: seq<WriteEvent>)
    decreases |es|
  {
    es == [] || (WriteEnabled(r, es[0]) && ValidWrites(WriteNext(r, es[0]), es[1..]))
  }

  function AfterWrites(r: WriterRun, es: seq<WriteEvent>): WriterRun
    requires ValidWrites(r, es)
    decreases |es|
  {
    if es == [] then r else AfterWrites(WriteNext(r, es[0]), es[1..])
  }

  /** Over every run, an unfinished write still holds its message and the wire is accepted messages only. */
  lemma {:induction false} WritesStayIntact(r: WriterRun, es: seq<WriteEvent>)
    requires WriterInv(r) && ValidWrites(r, es)
    ensures var q := AfterWrites(r, es);
      && WriterInv(q)
      && q.wire <= Concat(q.accepted)
      && (!q.writer.busy ==> q.wire == Concat(q.accepted))
    decreases |es|
  {
    hide WriteNext, WriteEnabled, Concat;
    if es != [] {
      WriteNextInv(r, es[0]);
      WritesStayIntact(WriteNext(r, es[0]), es[1..]);
    } else {
      OnWirePrefix(r.writer.busy, r.writer.buffer, r.writer.sent, r.wire, r.accepted);
    }
  }

  // ---------------------------------------------------------------- TcpConnection::send

  /**
   The pending write covers the `length` bytes whose address and size it captured when it started.
   `attached` says that they are still the contents of `sendMsg`.
   */
  datatype SenderState = SenderState(busy: bool, sendMsg: Bytes, length: nat, sent: nat, attached: bool)

  const NEW_SENDER := SenderState(false, [], 0, 0, false)

  /** Assigning the string during a write invalidates the address that the write holds. */
  function SendOn(s: SenderState, m: Bytes): SenderState {
    if s.busy then s.(sendMsg := m, attached := false) else SenderState(true, m, |m|, 0, true)
  }

  /** The bytes a piece may hold: the next ones of `sendMsg` while the write is attached to it, then anything. */
  predicate PieceOk(s: SenderState, piece: Bytes) {
    && s.busy && 1 <= |piece| && s.sent + |piece| <= s.length
    && (s.attached && s.length == |s.sendMsg| ==> piece == s.sendMsg[s.sent..s.sent + |piece|])
  }

  function Sent(s: SenderState, piece: Bytes): SenderState { s.(sent := s.sent + |piece|) }

  /** As `WriterRun`; `overlapped` records that `send` was called during a write. */
  datatype SenderRun = SenderRun(sender: SenderState, wire: Bytes, accepted: seq<Bytes>, overlapped: bool)

  const NEW_SENDER_RUN := SenderRun(NEW_SENDER, [], [], false)

  datatype SendEvent = Send(message: Bytes) | SendPiece(piece: Bytes) | SendFinished

  predicate SendEnabled(r: SenderRun, e: SendEvent) {
    match e
    case Send(_) => true
    case SendPiece(piece) => PieceOk(r.sender, piece)
    case SendFinished => r.sender.busy && r.sender.sent == r.sender.length
  }

  function SendNext(r: SenderRun, e: SendEvent): SenderRun
    requires SendEnabled(r, e)
  {
    match e
    case Send(m) =>
      if r.sender.busy then r.(sender := SendOn(r.sender, m), overlapped := true)
      else r.(sender := SendOn(r.sender, m), accepted := r.accepted + [m])
    case SendPiece(piece) => r.(sender := Sent(r.sender, piece), wire := r.wire + piece)
    case SendFinished => r.(sender := r.sender.(busy := false))
  }

  /** Overlap or not, every accepted message is paid for in bytes: those on the wire and those the write still owes. */
  ghost predicate LengthInv(r: SenderRun) {
    && (r.sender.busy ==> r.sender.sent <= r.sender.length)
    && |r.wire| + (if r.sender.busy then r.sender.length - r.sender.sent else 0) == |Concat(r.accepted)|
  }

  ghost predicate SenderInv(r: SenderRun) {
    && LengthInv(r)
    && (!r.overlapped ==>
      && (r.sender.busy ==> r.sender.attached && r.sender.length == |r.sender.sendMsg|)
      && OnWire(r.sender.busy, r.sender.sendMsg, r.sender.sent, r.wire, r.accepted))
  }

  lemma SendNextLength(r: SenderRun, e: SendEvent)
    requires LengthInv(r) && SendEnabled(r, e)
    ensures LengthInv(SendNext(r, e))
  {
    hide Concat;
    if e.Send? { ConcatSnoc(r.accepted, e.message); }
  }

  /** Until a call overlaps a write, the connection's sender is as good as an `AsyncWriter`. */
  lemma SendNextInv(r: SenderRun, e: SendEvent)
    requires SenderInv(r) && SendEnabled(r, e)
    ensures SenderInv(SendNext(r, e))
    ensures r.wire <= SendNext(r, e).wire
    ensures SendNext(r, e).overlapped <==> r.overlapped || (e.Send? && r.sender.busy)
  {
    hide Concat, LengthInv;
    SendNextLength(r, e);
    if !r.overlapped {
      match e
      case Send(m) =>
        if !r.sender.busy { OnWireAccept(r.wire, r.accepted, m); }
      case SendPiece(piece) =>
        var upto := r.sender.sent + |piece|;
        OnWirePiece(r.sender.sendMsg, r.sender.sent, upto, r.wire, r.accepted);
      case SendFinished =>
        OnWireFinished(r.sender.sendMsg, r.wire, r.accepted);
    }
  }

  predicate ValidSends(r: SenderRun, es: seq<SendEvent>)
    decreases |es|
  {
    es == [] || (SendEnabled(r, es[0]) && ValidSends(SendNext(r, es[0]), es[1..]))
  }

  function AfterSends(r: SenderRun, es: seq<SendEvent>): SenderRun
    requires ValidSends(r, es)
    decreases |es|
  {
    if es == [] then r else AfterSends(SendNext(r, es[0]), es[1..])
  }

  lemma {:induction false} SendsStayIntact(r: SenderRun, es: seq<SendEvent>)
    requires SenderInv(r) && ValidSends(r, es)
    ensures var q := AfterSends(r, es);
      && SenderInv(q)
      && (!q.overlapped ==> q.wire <= Concat(q.accepted))
    decreases |es|
  {
    hide SendNext, SendEnabled, Concat;
    if es != [] {
      SendNextInv(r, es[0]);
      SendsStayIntact(SendNext(r, es[0]), es[1..]);
    } else if !r.overlapped {
      OnWirePrefix(r.sender.busy, r.sender.sendMsg, r.sender.sent, r.wire, r.accepted);
    }
  }

  /** A run of two calls, the second during the first write: the wire ends up holding neither message. */
  lemma OverlapCorrupts()
    ensures var es := [Send([1, 2]), SendPiece([1]), Send([3, 4]), SendPiece([4]), SendFinished];
      && ValidSends(NEW_SENDER_RUN, es)
      && AfterSends(NEW_SENDER_RUN, es).wire == [1, 4]
      && AfterSends(NEW_SENDER_RUN, es).accepted == [[1, 2]]
  {
    var r1 := SendNext(NEW_SENDER_RUN, Send([1, 2]));
    assert PieceOk(r1.sender, [1]);
    var r2 := SendNext(r1, SendPiece([1]));
    var r3 := SendNext(r2, Send([3, 4]));
    assert PieceOk(r3.sender, [4]);
    var r4 := SendNext(r3, SendPiece([4]));
    assert r4.wire == [1, 4];
    var r5 := SendNext(r4, SendFinished);
    assert AfterSends(r5, []) == r5;
    UnfoldSends(r4, SendFinished, []);
    UnfoldSends(r3, SendPiece([4]), [SendFinished]);
    UnfoldSends(r2, Send([3, 4]), [SendPiece([4]), SendFinished]);
    UnfoldSends(r1, SendPiece([1]), [Send([3, 4]), SendPiece([4]), SendFinished]);
    UnfoldSends(NEW_SENDER_RUN, Send([1, 2]), [SendPiece([1]), Send([3, 4]), SendPiece([4]), SendFinished]);
  }

  lemma UnfoldSends(r: SenderRun, e: SendEvent, es: seq<SendEvent>)
    requires SendEnabled(r, e) && ValidSends(SendNext(r, e), es)
    ensures ValidSends(r, [e] + es) && AfterSends(r, [e] + es) == AfterSends(SendNext(r, e), es)
  {
    assert ([e] + es)[1..] == es;
  }

  // ---------------------------------------------------------------- exactly when an overlap is harmless

  /** Pieces that finish the pending write. */
  predicate Finishes(s: SenderState, pieces: seq<Bytes>)
    decreases |pieces|
  {
    if pieces == [] then s.sent == s.length
    else PieceOk(s, pieces[0]) && Finishes(Sent(s, pieces[0]), pieces[1..])
  }

  /** The pending write of `a` puts the rest of `a` on the wire, however it is finished. */
  ghost predicate Intact(s: SenderState, a: Bytes)
    requires s.sent <= |a|
  {
    forall pieces :: Finishes(s, pieces) ==> Concat(pieces) == a[s.sent..]
  }

  lemma {:induction false} AttachedFinish(s: SenderState, a: Bytes, pieces: seq<Bytes>)
    requires s.attached && s.sendMsg == a && s.length == |a| && s.sent <= |a| && Finishes(s, pieces)
    ensures Concat(pieces) == a[s.sent..]
    decreases |pieces|
  {
    if pieces != [] {
      var t := Sent(s, pieces[0]);
      AttachedFinish(t, a, pieces[1..]);
      assert a[s.sent..] == a[s.sent..t.sent] + a[t.sent..];
    }
  }

  /** Once detached, a write with anything left to send can send something else. */
  lemma DetachedFinish(s: SenderState, a: Bytes) returns (piece: Bytes)
    requires s.busy && !s.attached && s.length == |a| && s.sent < |a|
    ensures Finishes(s, [piece]) && piece != a[s.sent..]
  {
    var first: Byte := if a[s.sent] == 0 then 1 else 0;
    piece := [first] + a[s.sent + 1..];
    assert Finishes(Sent(s, piece), []);
    assert [piece][1..] == [];
    assert piece[0] != a[s.sent..][0];
  }

  /**
   Left alone, the write of `a` sends `a`, however it is cut into pieces. After a call of `send`
   during the write this is so if and only if every byte of `a` had already been passed on.
   */
  lemma OverlapExactly(s: SenderState, a: Bytes, m: Bytes)
    requires s.busy && s.attached && s.sendMsg == a && s.length == |a| && s.sent <= |a|
    ensures Intact(s, a)
    ensures Intact(SendOn(s, m), a) <==> s.sent == |a|
  {
    forall pieces | Finishes(s, pieces) ensures Concat(pieces) == a[s.sent..] {
      AttachedFinish(s, a, pieces);
    }
    var t := SendOn(s, m);
    if s.sent == |a| {
      forall pieces | Finishes(t, pieces) ensures Concat(pieces) == a[s.sent..] {
        assert pieces == [];
      }
    } else {
      var piece := DetachedFinish(t, a);
      assert Concat([piece]) == piece by { ConcatSnoc([], piece); assert [] + [piece] == [piece]; }
      assert Finishes(t, [piece]);
    }
  }
}
