/** client/src/cmd/CommandDispatcher.cpp: trimming with `npos` arithmetic, and the echo command. */
module Commands {
  import opened Basics

  const NPOS: int := TWO64 - 1

  /** ">echo" */
  const ECHO_CMD_PREFIX: Bytes := [62, 101, 99, 104, 111]

  predicate Blank(b: Byte) { b == 32 || b == 9 }

  /** Spaces and tabs only. */
  predicate AllBlank(s: Bytes) { forall i :: 0 <= i < |s| ==> s[i] in {32, 9} }

  /** No space or tab at either end. */
  predicate Bare(s: Bytes) { s == [] || (s[0] !in {32, 9} && s[|s| - 1] !in {32, 9}) }

  // ---------------------------------------------------------------- specification

  function TrimLeft(s: Bytes): (r: Bytes)
    ensures |r| <= |s|
  {
    if s != [] && Blank(s[0]) then TrimLeft(s[1..]) else s
  }

  function TrimRight(s: Bytes): (r: Bytes)
    ensures |r| <= |s|
  {
    if s != [] && Blank(s[|s| - 1]) then TrimRight(s[..|s| - 1]) else s
  }

  function Trim(s: Bytes): Bytes { TrimRight(TrimLeft(s)) }

  /** The text of an echo command, or nothing for any other line. */
  function Dispatch(line: Bytes): Option<Bytes> {
    var s := Trim(line);
    if ECHO_CMD_PREFIX <= s then Some(TrimLeft(s[|ECHO_CMD_PREFIX|..])) else None
  }

  // ---------------------------------------------------------------- what the specification means

  lemma {:induction false} TrimLeftExactly(b: Bytes, t: Bytes)
    requires AllBlank(b) && (t != [] ==> !Blank(t[0]))
    ensures TrimLeft(b + t) == t
  {
    if b == [] {
      assert b + t == t;
    } else {
      TrimLeftExactly(b[1..], t);
      assert (b + t)[1..] == b[1..] + t;
    }
  }

  lemma {:induction false} TrimRightExactly(t: Bytes, b: Bytes)
    requires AllBlank(b) && (t != [] ==> !Blank(t[|t| - 1]))
    ensures TrimRight(t + b) == t
    decreases |b|
  {
    if b == [] {
      assert t + b == t;
    } else {
      TrimRightExactly(t, b[..|b| - 1]);
      assert (t + b)[..|t + b| - 1] == t + b[..|b| - 1];
    }
  }

  lemma AllBlankAppend(b: Bytes, c: Bytes)
    requires AllBlank(b) && AllBlank(c)
    ensures AllBlank(b + c)
  {
    hide Blank;
  }

  /** Trimming takes off all blanks around a bare core. */
  lemma TrimExactly(b: Bytes, t: Bytes, c: Bytes)
    requires AllBlank(b) && Bare(t) && AllBlank(c)
    ensures Trim(b + t + c) == t
  {
    hide AllBlank, TrimLeft, TrimRight;
    if t == [] {
      AllBlankAppend(b, c);
      TrimLeftExactly(b + c, []);
      assert b + t + c == b + c + [];
      TrimRightNil();
    } else {
      TrimLeftExactly(b, t + c);
      AppendAssociates(b, t, c);
      TrimRightExactly(t, c);
    }
  }

  lemma TrimRightNil()
    ensures TrimRight([]) == []
  {
  }

  lemma {:induction false} TrimLeftParts(s: Bytes) returns (b: Bytes)
    ensures AllBlank(b) && s == b + TrimLeft(s)
    ensures TrimLeft(s) != [] ==> !Blank(TrimLeft(s)[0]) && TrimLeft(s)[|TrimLeft(s)| - 1] == s[|s| - 1]
  {
    if s != [] && Blank(s[0]) {
      b := TrimLeftParts(s[1..]);
      b := [s[0]] + b;
    } else {
      b := [];
    }
  }

  lemma {:induction false} TrimRightParts(s: Bytes) returns (b: Bytes)
    ensures AllBlank(b) && s == TrimRight(s) + b
    ensures TrimRight(s) != [] ==> !Blank(TrimRight(s)[|TrimRight(s)| - 1]) && TrimRight(s)[0] == s[0]
  {
    if s != [] && Blank(s[|s| - 1]) {
      b := TrimRightParts(s[..|s| - 1]);
      b := b + [s[|s| - 1]];
    } else {
      b := [];
    }
  }

  lemma TrimIsBare(s: Bytes) returns (b: Bytes, c: Bytes)
    ensures AllBlank(b) && AllBlank(c) && Bare(Trim(s)) && s == b + Trim(s) + c
  {
    hide TrimLeft, TrimRight, AllBlank;
    b := TrimLeftParts(s);
    c := TrimRightParts(TrimLeft(s));
    AppendAssociates(b, Trim(s), c);
  }

  ghost predicate EchoLine(line: Bytes, b: Bytes, c: Bytes, t: Bytes, d: Bytes) {
    AllBlank(b) && AllBlank(c) && AllBlank(d) && line == b + [62, 101, 99, 104, 111] + c + t + d
  }

  lemma EchoLineDispatches(line: Bytes, b: Bytes, c: Bytes, t: Bytes, d: Bytes)
    requires EchoLine(line, b, c, t, d) && Bare(t)
    ensures Dispatch(line) == Some(t)
  {
    hide Trim, TrimLeft;
    if t == [] {
      assert line == b + ECHO_CMD_PREFIX + (c + d);
      TrimExactly(b, ECHO_CMD_PREFIX, c + d);
      assert ECHO_CMD_PREFIX[|ECHO_CMD_PREFIX|..] == [];
    } else {
      var s := ECHO_CMD_PREFIX + (c + t);
      Reassociate(b, ECHO_CMD_PREFIX, c, t, d);
      TrimExactly(b, s, d);
      assert s[|ECHO_CMD_PREFIX|..] == c + t;
      TrimLeftExactly(c, t);
    }
    assert TrimLeft([]) == [];
  }

  /** Cutting a word and then blanks off the front of a bare string leaves a bare string. */
  lemma BareRest(s: Bytes, n: nat)
    requires Bare(s) && n <= |s|
    ensures Bare(TrimLeft(s[n..]))
  {
    hide TrimLeft, AllBlank;
    var b := TrimLeftParts(s[n..]);
  }

  lemma DispatchedIsEchoLine(line: Bytes) returns (b: Bytes, c: Bytes, d: Bytes)
    requires Dispatch(line).Some?
    ensures Bare(Dispatch(line).value) && EchoLine(line, b, c, Dispatch(line).value, d)
  {
    hide Trim, TrimLeft, AllBlank, Bare;
    b, d := TrimIsBare(line);
    BareRest(Trim(line), |ECHO_CMD_PREFIX|);
    var u := Trim(line)[|ECHO_CMD_PREFIX|..];
    assert Trim(line) == ECHO_CMD_PREFIX + u;
    c := TrimLeftParts(u);
    Reassociate(b, ECHO_CMD_PREFIX, c, TrimLeft(u), d);
  }

  lemma Reassociate(b: Bytes, w: Bytes, c: Bytes, t: Bytes, d: Bytes)
    ensures b + (w + (c + t)) + d == b + w + c + t + d
  {
  }

  /** A line dispatches the text `t` exactly when it is `>echo` and the bare `t`, with blanks anywhere around them. */
  lemma DispatchExactly(line: Bytes, t: Bytes)
    ensures Dispatch(line) == Some(t) <==> Bare(t) && exists b, c, d :: EchoLine(line, b, c, t, d)
  {
    hide Dispatch, Bare, EchoLine;
    if Dispatch(line) == Some(t) {
      var b, c, d := DispatchedIsEchoLine(line);
      assert EchoLine(line, b, c, t, d);
    }
    if Bare(t) {
      forall b, c, d | EchoLine(line, b, c, t, d) ensures Dispatch(line) == Some(t) {
        EchoLineDispatches(line, b, c, t, d);
      }
    }
  }

  /** The text is shorter than its line by at least the command word. */
  lemma DispatchShortens(line: Bytes)
    ensures Dispatch(line).Some? ==> |Dispatch(line).value| + |ECHO_CMD_PREFIX| <= |line|
  {
  }

  // ---------------------------------------------------------------- the code's own arithmetic

  /** string_view::find_first_not_of(" \t"). */
  function FindFirstNotBlank(s: Bytes): (i: int)
    requires |s| < NPOS
    ensures 0 <= i <= NPOS && (i == NPOS || i < |s|)
  {
    if s == [] then NPOS
    else if !Blank(s[0]) then 0
    else
      var i := FindFirstNotBlank(s[1..]);
      if i == NPOS then NPOS else i + 1
  }

  /** string_view::find_last_not_of(" \t"). */
  function FindLastNotBlank(s: Bytes): (i: int)
    requires |s| < NPOS
    ensures 0 <= i <= NPOS && (i == NPOS || i < |s|)
  {
    if s == [] then NPOS
    else if !Blank(s[|s| - 1]) then |s| - 1
    else FindLastNotBlank(s[..|s| - 1])
  }

  function Min(a: int, b: int): int { if a < b then a else b }

  lemma {:induction false} FindFirstTrims(s: Bytes)
    requires |s| < NPOS
    ensures s[Min(FindFirstNotBlank(s), |s|)..] == TrimLeft(s)
  {
    if s != [] && Blank(s[0]) {
      FindFirstTrims(s[1..]);
    }
  }

  lemma {:induction false} LastTrims(s: Bytes)
    requires |s| < NPOS
    ensures TrimRight(s) == var last := FindLastNotBlank(s); if last == NPOS then [] else s[..last + 1]
  {
    if s != [] && Blank(s[|s| - 1]) {
      LastTrims(s[..|s| - 1]);
    }
  }

  /** `size - last - 1` as `std::size_t` computes it. */
  function AfterLast(size: int, last: int): int { (size - last - 1) % TWO64 }

  /** With no non-blank byte, `size - npos - 1` wraps around to `size`. */
  lemma WrapAround(size: int, last: int)
    requires 0 <= size < NPOS && (0 <= last < size || last == NPOS)
    ensures AfterLast(size, last) == if last == NPOS then size else size - last - 1
  {
    if last == NPOS { assert size - last - 1 == size - TWO64; }
  }

  lemma FindLastTrims(s: Bytes)
    requires |s| < NPOS
    ensures 0 <= AfterLast(|s|, FindLastNotBlank(s)) <= |s|
    ensures s[..|s| - AfterLast(|s|, FindLastNotBlank(s))] == TrimRight(s)
  {
    hide FindLastNotBlank, TrimRight, AfterLast;
    WrapAround(|s|, FindLastNotBlank(s));
    LastTrims(s);
  }

  /** The view shrinks in place, from the left first. */
  method TrimWhitespace(sv: Bytes, right: bool, left: bool) returns (view: Bytes)
    requires |sv| < NPOS
    ensures var l := if left then TrimLeft(sv) else sv;
      view == if right then TrimRight(l) else l
  {
    hide FindFirstNotBlank, FindLastNotBlank, AfterLast, TrimLeft, TrimRight;
    view := sv;
    if left {
      FindFirstTrims(view);
      view := view[Min(FindFirstNotBlank(view), |view|)..];
    }
    if right {
      var size := |view|;
      FindLastTrims(view);
      view := view[..size - Min(AfterLast(size, FindLastNotBlank(view)), size)];
    }
  }

  /** The text handed to the echo handler, if the command is one. */
  method ParseCommand(line: Bytes) returns (r: Option<Bytes>)
    requires |line| < NPOS
    ensures r == Dispatch(line)
  {
    hide TrimLeft, TrimRight;
    var commandString := TrimWhitespace(line, true, true);
    if ECHO_CMD_PREFIX <= commandString {
      commandString := commandString[|ECHO_CMD_PREFIX|..];
      commandString := TrimWhitespace(commandString, false, true);
      return Some(commandString);
    }
    return None;
  }
}
