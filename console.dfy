/**
  `CKernel` as far as the keyboard handler sees it (kernel.h, kernel.cpp): the
  64-byte input buffer and the input index it edits in place, and the Screen
  and Serial devices, each modelled as the log of bytes written to it.
 */
module Console {
  import opened CStrings
  import opened LineEditor

  /** What `CKernel::Run` writes to both devices before it starts polling. */
  const Banner: seq<Byte> := Newline + "BubblesOS (Rpi 4) initialized.\n" + HelpMsg + Prompt

  class Kernel {
    /** `m_InputBuffer`. */
    var inputBuffer: array<Byte>
    /** `m_nInputIndex`. */
    var inputIndex: int
    /** Everything written to `m_Screen`, in order. */
    var screen: seq<Byte>
    /** Everything written to `m_Serial`, in order. */
    var serial: seq<Byte>

    /** The handler's state as the value the line editor specification works on. */
    function Snapshot(): State
      reads this, inputBuffer
    {
      State(inputBuffer[..], inputIndex, screen, serial)
    }

    predicate Valid()
      reads this, inputBuffer
    {
      WellFormed(Snapshot())
    }

    /**
      The kernel as constructed: input index 0 and nothing written yet. The
      source leaves the buffer's bytes uninitialised; here they start as NUL,
      and nothing reads them before they are written.
     */
    constructor ()
      ensures Valid() && fresh(inputBuffer)
      ensures inputIndex == 0 && screen == [] && serial == []
    {
      inputBuffer := new Byte[BufferSize](_ => NUL);
      inputIndex := 0;
      screen := [];
      serial := [];
    }

    /** The start of `CKernel::Run`: the banner and first prompt, to both devices. */
    method WriteBanner()
      requires Valid()
      modifies this`screen, this`serial
      ensures Valid()
      ensures screen == old(screen) + Banner && serial == old(serial) + Banner
    {
      screen := screen + Banner;
      serial := serial + Banner;
    }

    /**
      The body of `CKernel::KeyPressedHandler` for a live kernel: every byte of
      the C string `pString`, in order, goes through the line editor.
     */
    method KeyPressed(pString: seq<Byte>)
      requires Valid() && NUL in pString
      modifies this`inputIndex, this`screen, this`serial, inputBuffer
      ensures Valid()
      ensures Snapshot() == Run(old(Snapshot()), CString(pString))
    {
      ghost var start := Snapshot();
      ghost var input := CString(pString);
      var i := 0;
      while pString[i] != NUL
        invariant i <= |input|
        invariant pString[..i] == input[..i]
        invariant Valid()
        invariant Snapshot() == Run(start, input[..i])
        decreases |input| - i
      {
        var c := pString[i];
        assert i < |input| && input[i] == c;
        ProcessKey(c);
        RunSnoc(start, input[..i], c);
        assert input[..i + 1] == input[..i] + [c];
        assert pString[..i + 1] == pString[..i] + [c];
        i := i + 1;
      }
      assert i == |input| by {
        if i < |input| {
          assert false;
        }
      }
      assert input[..i] == input;
    }

    /** One pass of the handler's loop: backspace, terminator, printable byte, or nothing. */
    method ProcessKey(c: Byte)
      requires Valid()
      modifies this`inputIndex, this`screen, this`serial, inputBuffer
      ensures Valid()
      ensures Snapshot() == Step(old(Snapshot()), c)
    {
      if c == BS || c == DEL {
        if inputIndex > 0 {
          inputIndex := inputIndex - 1;
          screen := screen + EraseSeq;
          serial := serial + EraseSeq;
        }
      } else if c == CR || c == LF {
        ExecuteLine(c);
      } else if 32 <= c as int <= 126 {
        if inputIndex < inputBuffer.Length - 1 {
          inputBuffer[inputIndex] := c;
          inputIndex := inputIndex + 1;
          screen := screen + [c];
          serial := serial + [c];
        }
      }
    }

    /** A terminator: newline, terminate the buffer, dispatch the line, reset, prompt. */
    method ExecuteLine(c: Byte)
      requires Valid() && IsTerminator(c)
      modifies this`inputIndex, this`screen, this`serial, inputBuffer
      ensures Valid()
      ensures Snapshot() == Step(old(Snapshot()), c)
    {
      ghost var before := Snapshot();
      screen := screen + Newline;
      serial := serial + Newline;
      inputBuffer[inputIndex] := NUL;
      ghost var buffer := inputBuffer[..];
      assert buffer == before.buffer[before.index := NUL];
      assert buffer[inputIndex] == NUL;
      var msg := Dispatch();
      screen := screen + msg;
      inputIndex := 0;
      screen := screen + Prompt;
      serial := serial + Prompt;
      assert inputBuffer[..] == buffer && |buffer| == BufferSize;
    }

    /**
      The command dispatch on the terminated line: the message, if any, that
      the handler then writes to the Screen only.
     */
    method Dispatch() returns (msg: seq<Byte>)
      requires NUL in inputBuffer[..]
      ensures msg == Reply(inputBuffer[..], inputIndex)
      ensures inputIndex == |CString(inputBuffer[..])| ==> msg == Response(CString(inputBuffer[..]))
    {
      var line := inputBuffer[..];
      assert DebugLiteral[5] == NUL && HelpLiteral[4] == NUL;
      var debug := CompareStrings(line, DebugLiteral);
      DebugLiteralName();
      if debug == 0 {
        msg := DebugMsg;
      } else {
        var help := CompareStrings(line, HelpLiteral);
        HelpLiteralName();
        if help == 0 {
          msg := HelpMsg;
        } else if inputIndex > 0 {
          msg := UnknownMsg;
        } else {
          msg := [];
        }
      }
      if inputIndex == |CString(line)| {
        ReplyIsResponse(line, inputIndex);
      }
    }
  }

  /**
    `CKernel::KeyPressedHandler`: the keyboard driver's callback, reaching the
    kernel through the static `s_pThis`, here the parameter `pThis`. With no
    kernel it does nothing at all.
   */
  method KeyPressedHandler(pThis: Kernel?, pString: seq<Byte>)
    requires pThis != null ==> pThis.Valid()
    requires NUL in pString
    modifies if pThis == null then {} else {pThis, pThis.inputBuffer}
    ensures pThis != null ==> pThis.Valid() && pThis.inputBuffer == old(pThis.inputBuffer)
    ensures pThis != null ==> pThis.Snapshot() == Run(old(pThis.Snapshot()), CString(pString))
  {
    if pThis == null {
      return;
    }
    pThis.KeyPressed(pString);
  }
}
