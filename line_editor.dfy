/**
  The keystroke line editor and command dispatcher of `CKernel::KeyPressedHandler`
  (kernel.cpp), as a state machine on values: one `Step` per input byte, `Run`
  for a batch. The class in console.dfy is proved to follow it; the lemmas here
  say what the machine does.
 */
module LineEditor {
  import opened CStrings

  /** `sizeof(m_InputBuffer)`. */
  const BufferSize: nat := 64
  /** The longest line the buffer keeps, leaving room for the terminator. */
  const MaxLine: nat := BufferSize - 1

  const BS: Byte := 8 as char
  const DEL: Byte := 127 as char
  const CR: Byte := '\r'
  const LF: Byte := '\n'
  const Space: Byte := ' '

  predicate IsBackspace(c: Byte) { c == BS || c == DEL }
  predicate IsTerminator(c: Byte) { c == CR || c == LF }
  predicate IsPrintable(c: Byte) { 32 <= Code(c) <= 126 }

  /** Cursor back, blank, cursor back: what a backspace echoes. */
  const EraseSeq: seq<Byte> := [BS, Space, BS]
  const Newline: seq<Byte> := "\n"
  const Prompt: seq<Byte> := "> "
  const DebugMsg: seq<Byte> := "Status: BubblesOS kernel is active.\n"
  const HelpMsg: seq<Byte> := "Commands: debug, help\n"
  const UnknownMsg: seq<Byte> := "Unknown command\n"
  /** The command names, and the string literals holding them that the dispatcher compares against. */
  const DebugName: seq<Byte> := "debug"
  const HelpName: seq<Byte> := "help"
  const DebugLiteral: seq<Byte> := "debug\0"
  const HelpLiteral: seq<Byte> := "help\0"

  /**
    The handler's state: the 64-byte input buffer, the input index, and what
    has been written so far to the Screen and to the Serial device.
   */
  datatype State = State(buffer: seq<Byte>, index: int, screen: seq<Byte>, serial: seq<Byte>)

  /** The buffer has its fixed size, the index stays within the line, and the line is printable. */
  predicate WellFormed(st: State)
  {
    |st.buffer| == BufferSize &&
    0 <= st.index <= MaxLine &&
    forall i :: 0 <= i < st.index ==> IsPrintable(st.buffer[i])
  }

  /** The line typed so far. Bytes beyond the index are stale and never read. */
  function Line(st: State): seq<Byte>
    requires WellFormed(st)
  {
    st.buffer[..st.index]
  }

  /** The Screen message for a finished line held NUL-terminated in `buffer`, chosen as the handler does. */
  function Reply(buffer: seq<Byte>, index: int): seq<Byte>
    requires NUL in buffer
  {
    if Compare(CString(buffer), DebugName) == 0 then DebugMsg
    else if Compare(CString(buffer), HelpName) == 0 then HelpMsg
    else if index > 0 then UnknownMsg
    else []
  }

  /** What the console is meant to answer to a completed line, by plain equality. */
  function Response(line: seq<Byte>): seq<Byte>
  {
    if line == DebugName then DebugMsg
    else if line == HelpName then HelpMsg
    else if line != [] then UnknownMsg
    else []
  }

  /** The handler's treatment of one input byte. */
  function Step(st: State, c: Byte): (r: State)
    requires WellFormed(st)
    ensures WellFormed(r)
  {
    if IsBackspace(c) then
      if st.index > 0 then
        State(st.buffer, st.index - 1, st.screen + EraseSeq, st.serial + EraseSeq)
      else st
    else if IsTerminator(c) then
      var buffer := st.buffer[st.index := NUL];
      assert buffer[st.index] == NUL;
      State(buffer, 0,
            st.screen + Newline + Reply(buffer, st.index) + Prompt,
            st.serial + Newline + Prompt)
    else if IsPrintable(c) then
      if st.index < MaxLine then
        State(st.buffer[st.index := c], st.index + 1, st.screen + [c], st.serial + [c])
      else st
    else st
  }

  /** The handler's treatment of a batch of bytes, in order. */
  function Run(st: State, cs: seq<Byte>): (r: State)
    requires WellFormed(st)
    ensures WellFormed(r)
    decreases |cs|
  {
    if cs == [] then st else Run(Step(st, cs[0]), cs[1..])
  }

  /** A batch may be split anywhere: processing is strictly in input order. */
  lemma {:induction false} RunConcat(st: State, a: seq<Byte>, b: seq<Byte>)
    requires WellFormed(st)
    ensures Run(st, a + b) == Run(Run(st, a), b)
    decreases |a|
  {
    if a == [] {
      assert a + b == b;
    } else {
      assert (a + b)[0] == a[0] && (a + b)[1..] == a[1..] + b;
      RunConcat(Step(st, a[0]), a[1..], b);
    }
  }

  lemma RunSnoc(st: State, a: seq<Byte>, c: Byte)
    requires WellFormed(st)
    ensures Run(st, a + [c]) == Step(Run(st, a), c)
  {
    RunConcat(st, a, [c]);
    assert Run(Run(st, a), [c]) == Run(Step(Run(st, a), c), []);
  }

  // ---------------------------------------------------------------------------
  // One byte at a time

  /** A backspace on an empty line changes nothing and writes nothing. */
  lemma BackspaceAtStart(st: State, c: Byte)
    requires WellFormed(st) && IsBackspace(c) && st.index == 0
    ensures Step(st, c) == st
  {
  }

  /** A backspace on a non-empty line drops its last byte and echoes the erase sequence to both sinks. */
  lemma BackspaceErases(st: State, c: Byte)
    requires WellFormed(st) && IsBackspace(c) && st.index > 0
    ensures var r := Step(st, c);
            r.index == st.index - 1 && r.buffer == st.buffer &&
            Line(r) == Line(st)[..|Line(st)| - 1] &&
            r.screen == st.screen + EraseSeq && r.serial == st.serial + EraseSeq
  {
  }

  /** A printable byte is stored at the index and echoed once to each sink while the line has room. */
  lemma PrintableAppends(st: State, c: Byte)
    requires WellFormed(st) && IsPrintable(c) && st.index < MaxLine
    ensures var r := Step(st, c);
            r.index == st.index + 1 && r.buffer[st.index] == c &&
            Line(r) == Line(st) + [c] &&
            r.screen == st.screen + [c] && r.serial == st.serial + [c]
  {
  }

  /** A printable byte on a full line is dropped without any trace. */
  lemma PrintableDroppedWhenFull(st: State, c: Byte)
    requires WellFormed(st) && IsPrintable(c) && st.index == MaxLine
    ensures Step(st, c) == st
  {
  }

  /** Any byte that is neither backspace, terminator nor printable is ignored. */
  lemma OtherIgnored(st: State, c: Byte)
    requires WellFormed(st) && !IsBackspace(c) && !IsTerminator(c) && !IsPrintable(c)
    ensures Step(st, c) == st
  {
  }

  /** Once terminated at the index, the buffer holds exactly the typed line as a C string. */
  lemma TerminatedLine(st: State)
    requires WellFormed(st)
    ensures var buffer := st.buffer[st.index := NUL];
            NUL in buffer && CString(buffer) == Line(st)
  {
    var buffer := st.buffer[st.index := NUL];
    assert NulFree(Line(st)) by {
      forall i | 0 <= i < st.index ensures Line(st)[i] != NUL {
        assert IsPrintable(st.buffer[i]);
      }
    }
    assert buffer == Line(st) + [NUL] + st.buffer[st.index + 1..];
    CStringOfTerminated(Line(st), st.buffer[st.index + 1..]);
  }

  /** The dispatcher's literals, read as C strings, are the command names. */
  lemma DebugLiteralName()
    ensures CString(DebugLiteral) == DebugName
  {
    CStringOfTerminated("debug", []);
    assert "debug" + [NUL] + [] == DebugLiteral;
  }

  lemma HelpLiteralName()
    ensures CString(HelpLiteral) == HelpName
  {
    CStringOfTerminated("help", []);
    assert "help" + [NUL] + [] == HelpLiteral;
  }

  /** Comparing with `compare_strings` picks the same message as comparing the line by equality. */
  lemma {:induction false} ReplyIsResponse(buffer: seq<Byte>, index: int)
    requires NUL in buffer && index == |CString(buffer)|
    ensures Reply(buffer, index) == Response(CString(buffer))
  {
    var line := CString(buffer);
    CompareZeroIff(line, "debug");
    CompareZeroIff(line, "help");
  }

  /**
    A terminator writes a newline, then the line's reply to the Screen only,
    then the prompt; it empties the line and leaves the stored bytes before the
    index as they were.
   */
  lemma Terminates(st: State, c: Byte)
    requires WellFormed(st) && IsTerminator(c)
    ensures var r := Step(st, c);
            r.index == 0 && Line(r) == [] &&
            r.buffer == st.buffer[st.index := NUL] &&
            r.screen == st.screen + Newline + Response(Line(st)) + Prompt &&
            r.serial == st.serial + Newline + Prompt
  {
    var buffer := st.buffer[st.index := NUL];
    TerminatedLine(st);
    ReplyIsResponse(buffer, st.index);
  }

  /** Only the exact line "debug" draws the status message; "debugx" and "debu" do not. */
  lemma DebugOnlyExact(st: State, c: Byte)
    requires WellFormed(st) && IsTerminator(c)
    ensures var r := Step(st, c);
            r.screen == st.screen + Newline + DebugMsg + Prompt <==> Line(st) == "debug"
  {
    Terminates(st, c);
    var tail := Newline + Response(Line(st)) + Prompt;
    if st.screen + tail == st.screen + Newline + DebugMsg + Prompt {
      assert tail == Newline + DebugMsg + Prompt by {
        assert tail == (st.screen + tail)[|st.screen|..];
        assert Newline + DebugMsg + Prompt == (st.screen + Newline + DebugMsg + Prompt)[|st.screen|..];
      }
      assert Response(Line(st)) == DebugMsg by {
        assert Response(Line(st)) == tail[1..|tail| - 2];
        assert DebugMsg == (Newline + DebugMsg + Prompt)[1..|DebugMsg| + 1];
      }
    }
  }

  // ---------------------------------------------------------------------------
  // Whole batches

  /**
    The abstract editor: the line as a stack of bytes. A backspace pops, a
    printable byte is pushed while fewer than 63 are held, a terminator clears.
   */
  function Edit(line: seq<Byte>, c: Byte): seq<Byte>
  {
    if IsBackspace(c) then (if line == [] then [] else line[..|line| - 1])
    else if IsTerminator(c) then []
    else if IsPrintable(c) && |line| < MaxLine then line + [c]
    else line
  }

  function EditAll(line: seq<Byte>, cs: seq<Byte>): seq<Byte>
    decreases |cs|
  {
    if cs == [] then line else EditAll(Edit(line, cs[0]), cs[1..])
  }

  /** The buffer and index implement the abstract stack: stale bytes past the index never matter. */
  lemma {:induction false} RunEdits(st: State, cs: seq<Byte>)
    requires WellFormed(st)
    ensures Line(Run(st, cs)) == EditAll(Line(st), cs)
    decreases |cs|
  {
    if cs != [] {
      var c := cs[0];
      var next := Step(st, c);
      assert Line(next) == Edit(Line(st), c) by {
        if IsTerminator(c) {
        } else if IsBackspace(c) {
          if st.index > 0 {
            assert Line(next) == st.buffer[..st.index - 1];
          }
        } else if IsPrintable(c) && st.index < MaxLine {
          assert Line(next) == st.buffer[..st.index] + [c];
        }
      }
      RunEdits(next, cs[1..]);
    }
  }

  /** Typing then erasing a printable byte gives back the line it started from. */
  lemma TypeThenErase(st: State, c: Byte, b: Byte)
    requires WellFormed(st) && IsPrintable(c) && IsBackspace(b) && st.index < MaxLine
    ensures Line(Run(st, [c, b])) == Line(st)
  {
    RunEdits(st, [c, b]);
    assert [c, b][1..] == [b];
    assert EditAll(Line(st), [c, b]) == EditAll(Edit(Line(st), c), [b]);
  }

  predicate AllPrintable(t: seq<Byte>)
  {
    forall i :: 0 <= i < |t| ==> IsPrintable(t[i])
  }

  /** Printable bytes that fit are stored verbatim after the line and echoed verbatim to both sinks. */
  lemma {:induction false} TypePrintables(st: State, t: seq<Byte>)
    requires WellFormed(st) && AllPrintable(t) && st.index + |t| <= MaxLine
    ensures var r := Run(st, t);
            r.index == st.index + |t| && Line(r) == Line(st) + t &&
            r.screen == st.screen + t && r.serial == st.serial + t
    decreases |t|
  {
    if t != [] {
      var next := Step(st, t[0]);
      PrintableAppends(st, t[0]);
      assert AllPrintable(t[1..]) by {
        forall i | 0 <= i < |t| - 1 ensures IsPrintable(t[1..][i]) {
          assert t[1..][i] == t[i + 1];
        }
      }
      TypePrintables(next, t[1..]);
      var r := Run(next, t[1..]);
      assert Run(st, t) == r;
      assert [t[0]] + t[1..] == t;
      assert Line(r) == (Line(st) + [t[0]]) + t[1..];
      assert r.screen == (st.screen + [t[0]]) + t[1..];
      assert r.serial == (st.serial + [t[0]]) + t[1..];
    }
  }

  /** Printable bytes typed at a full line all vanish. */
  lemma {:induction false} FullLineDrops(st: State, t: seq<Byte>)
    requires WellFormed(st) && AllPrintable(t) && st.index == MaxLine
    ensures Run(st, t) == st
    decreases |t|
  {
    if t != [] {
      assert AllPrintable(t[1..]) by {
        forall i | 0 <= i < |t| - 1 ensures IsPrintable(t[1..][i]) {
          assert t[1..][i] == t[i + 1];
        }
      }
      FullLineDrops(st, t[1..]);
    }
  }

  /** Nothing already written to either sink is ever taken back. */
  lemma {:induction false} OutputOnlyGrows(st: State, cs: seq<Byte>)
    requires WellFormed(st)
    ensures st.screen <= Run(st, cs).screen && st.serial <= Run(st, cs).serial
    decreases |cs|
  {
    if cs != [] {
      var next := Step(st, cs[0]);
      OutputOnlyGrows(next, cs[1..]);
    }
  }

  /**
    From a fresh prompt, a printable line that fits followed by a terminator
    echoes the line, then writes the newline, the line's reply (Screen only)
    and the next prompt, and leaves an empty line behind.
   */
  lemma LineCommand(st: State, t: seq<Byte>, c: Byte)
    requires WellFormed(st) && st.index == 0 && AllPrintable(t) && |t| <= MaxLine && IsTerminator(c)
    ensures var r := Run(st, t + [c]);
            r.index == 0 &&
            r.screen == st.screen + t + Newline + Response(t) + Prompt &&
            r.serial == st.serial + t + Newline + Prompt
  {
    RunSnoc(st, t, c);
    TypePrintables(st, t);
    var typed := Run(st, t);
    Terminates(typed, c);
    assert Line(typed) == t;
  }

  // ---------------------------------------------------------------------------
  // Sessions

  /** "debug" then a line feed: the echo, the status message on Screen only, and the prompt. */
  lemma DebugSession(st: State)
    requires WellFormed(st) && st.index == 0
    ensures Run(st, "debug" + [LF]).screen == st.screen + "debug" + Newline + DebugMsg + Prompt
    ensures Run(st, "debug" + [LF]).serial == st.serial + "debug" + Newline + Prompt
  {
    LineCommand(st, "debug", LF);
    assert Response("debug") == DebugMsg;
  }

  /** "help" then a carriage return: the command list, on Screen only. */
  lemma HelpSession(st: State)
    requires WellFormed(st) && st.index == 0
    ensures Run(st, "help" + [CR]).screen == st.screen + "help" + Newline + HelpMsg + Prompt
    ensures Run(st, "help" + [CR]).serial == st.serial + "help" + Newline + Prompt
  {
    LineCommand(st, "help", CR);
    assert Response("help") == HelpMsg;
  }

  /** A line that only starts like "debug" is an unknown command. */
  lemma LongerThanDebugIsUnknown(st: State)
    requires WellFormed(st) && st.index == 0
    ensures Run(st, "debugx" + [CR]).screen == st.screen + "debugx" + Newline + UnknownMsg + Prompt
    ensures Run(st, "debugx" + [CR]).serial == st.serial + "debugx" + Newline + Prompt
  {
    LineCommand(st, "debugx", CR);
    assert Response("debugx") == UnknownMsg;
  }

  /** A line one byte short of "debug" is an unknown command. */
  lemma ShorterThanDebugIsUnknown(st: State)
    requires WellFormed(st) && st.index == 0
    ensures Run(st, "debu" + [CR]).screen == st.screen + "debu" + Newline + UnknownMsg + Prompt
    ensures Run(st, "debu" + [CR]).serial == st.serial + "debu" + Newline + Prompt
  {
    LineCommand(st, "debu", CR);
    assert Response("debu") == UnknownMsg;
  }

  /** A bare terminator draws no message, only the newline and the next prompt. */
  lemma EmptyLineSession(st: State)
    requires WellFormed(st) && st.index == 0
    ensures Run(st, [LF]).screen == st.screen + Newline + Prompt
    ensures Run(st, [LF]).serial == st.serial + Newline + Prompt
  {
    LineCommand(st, [], LF);
    assert [] + [LF] == [LF];
  }

  /** A CR LF pair ends the line and then an empty one: the line's reply, then a second prompt. */
  lemma CrLfSession(st: State, t: seq<Byte>)
    requires WellFormed(st) && st.index == 0 && AllPrintable(t) && |t| <= MaxLine
    ensures Run(st, t + [CR, LF]).screen == st.screen + t + Newline + Response(t) + Prompt + Newline + Prompt
    ensures Run(st, t + [CR, LF]).serial == st.serial + t + Newline + Prompt + Newline + Prompt
  {
    assert t + [CR, LF] == (t + [CR]) + [LF];
    RunConcat(st, t + [CR], [LF]);
    LineCommand(st, t, CR);
    EmptyLineSession(Run(st, t + [CR]));
  }

  /** Two backspaces after two typed bytes take the line back to empty, echoing two erase sequences. */
  lemma TypeTwoEraseTwo(st: State, t: seq<Byte>)
    requires WellFormed(st) && st.index == 0 && |t| == 2 && AllPrintable(t)
    ensures var r := Run(st, t + [BS, BS]);
            r.index == 0 &&
            r.screen == st.screen + t + EraseSeq + EraseSeq &&
            r.serial == st.serial + t + EraseSeq + EraseSeq
  {
    RunConcat(st, t, [BS, BS]);
    TypePrintables(st, t);
    var s2 := Run(st, t);
    var s3 := Step(s2, BS);
    BackspaceErases(s2, BS);
    BackspaceErases(s3, BS);
    assert [BS, BS][1..] == [BS];
    assert Run(s2, [BS, BS]) == Run(s3, [BS]) == Step(s3, BS);
  }

  /**
    Two printable bytes (such as "ls"), two backspaces and a terminator: the
    two bytes, two erase sequences, then what an empty line draws.
   */
  lemma EraseSession(st: State, t: seq<Byte>)
    requires WellFormed(st) && st.index == 0 && |t| == 2 && AllPrintable(t)
    ensures var out := t + EraseSeq + EraseSeq + Newline + Prompt;
            Run(st, t + [BS, BS, LF]).screen == st.screen + out &&
            Run(st, t + [BS, BS, LF]).serial == st.serial + out
  {
    var s4 := Run(st, t + [BS, BS]);
    var r := Run(st, t + [BS, BS, LF]);
    assert r == Run(s4, [LF]) by {
      assert t + [BS, BS, LF] == (t + [BS, BS]) + [LF];
      RunConcat(st, t + [BS, BS], [LF]);
    }
    TypeTwoEraseTwo(st, t);
    EmptyLineSession(s4);
    assert st.screen + t + EraseSeq + EraseSeq + Newline + Prompt == st.screen + (t + EraseSeq + EraseSeq + Newline + Prompt);
    assert st.serial + t + EraseSeq + EraseSeq + Newline + Prompt == st.serial + (t + EraseSeq + EraseSeq + Newline + Prompt);
  }
}
