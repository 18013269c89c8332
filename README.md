# BubblesOS keyboard console, modelled in Dafny

This project models the keyboard console of the BubblesOS kernel for the
Raspberry Pi. `CKernel::KeyPressedHandler` receives the NUL-terminated batches
of characters that the USB keyboard driver delivers. It edits a line in a
fixed 64-byte input buffer: backspace erases, printable bytes are appended
while fewer than 63 are held, and CR or LF ends the line. On the terminator it
dispatches the line directly: `debug` prints a status line, `help` prints the
command list, any other non-empty line prints `Unknown command`. Then it
writes the `> ` prompt. The line is matched with the kernel's own
`compare_strings`.

Files:

- `cstrings.dfy` (module `CStrings`): bytes, NUL-terminated strings, the
  specification `Compare` of `compare_strings`, the loop `CompareStrings` proved
  against it, and the proofs that it returns 0 exactly on equal strings and is
  negative exactly when the first string sorts first lexicographically.
- `line_editor.dfy` (module `LineEditor`): the handler as a state machine on
  values. `Step` handles one byte and `Run` a batch. The state is the buffer,
  the index and the two output logs. Lemmas give each case of a byte, the
  refinement of the buffer by an abstract stack of typed bytes (`EditAll`),
  the replies chosen by `compare_strings` against the replies chosen by plain
  equality, and whole editing sessions.
- `console.dfy` (module `Console`): the class `Kernel`, holding the buffer as an
  `array`, the index, and the Screen and Serial devices as logs of written
  bytes. `KeyPressed` is the handler's loop, proved to leave the state that
  `Run` prescribes. `KeyPressedHandler` is the static callback, which does
  nothing when there is no kernel.

Modelling decisions:

- A C `char` is a `Byte`, a `char` below 256. `Code` gives its value as
  `unsigned char`, which is how `compare_strings` reads it. Whether `char` is
  signed does not change the handler: a byte of 128 or above is never a
  backspace, a terminator or printable.
- `m_Screen.Write` and `m_Serial.Write` append to two logs. The model keeps
  the order of writes within each device, not their interleaving across the
  two.
- The static `s_pThis` is the parameter `pThis` of `KeyPressedHandler`. When it
  is null the method modifies nothing.
- The C string the driver passes is a `seq<Byte>` that must hold a NUL. Only
  the bytes before the first NUL are processed.

kernel.cpp dispatches the line inside the handler. There is no handoff to the
main loop, the only commands are `debug` and `help`, and `debug` prints a fixed
status line.

## Model

| member | source | states |
|---|---|---|
| `CStrings.CString` | kernel.cpp:10 | the string a NUL-terminated sequence denotes is its prefix before the first NUL: it holds no NUL, and it is shorter than the sequence exactly when a NUL is present, which then follows it |
| `CStrings.CStringOfTerminated` | kernel.cpp:99-102 | a NUL-free line followed by a NUL, whatever comes after, reads back as exactly that line |
| `CStrings.CommonPrefix` | kernel.cpp:10-14 | the number of leading bytes two strings share: they agree up to it and differ at it unless one has ended |
| `CStrings.CommonPrefixIs` | kernel.cpp:10-14 | any length at which two strings agree and then part, or one ends, is their common prefix |
| `CStrings.CommonPrefixSymmetric` | kernel.cpp:10-14 | the common prefix does not depend on the order of the strings |
| `CStrings.CompareAntisymmetric` | kernel.cpp:15 | swapping the two strings negates the comparison |
| `CStrings.CompareZeroIff` | kernel.cpp:10-15 | for NUL-free strings the comparison is 0 exactly when the strings are equal |
| `CStrings.CompareNegativeIff` | kernel.cpp:10-15 | for NUL-free strings the comparison is negative exactly when the first sorts strictly before the second lexicographically, bytes compared as unsigned |
| `CStrings.CompareOrders` | kernel.cpp:10-15 | for NUL-free strings the comparison is 0 exactly when they are equal, negative exactly when the first sorts first, positive exactly when the second does |
| `CStrings.FirstNul` | kernel.cpp:10 | a sequence holding a NUL has a first one: no NUL comes before it |
| `CStrings.CStringAt` | kernel.cpp:10 | the C string of a sequence whose first NUL is at position n is its first n bytes |
| `CStrings.StopsAt` | kernel.cpp:10-15 | where the scan stops, at the end of the first string or at the first differing byte before either ends, is the common prefix of the two C strings, and the comparison is the difference of the two bytes reached |
| `CStrings.CompareStrings` | kernel.cpp:8-16 | `compare_strings` returns the difference, as unsigned bytes, of the first bytes at which the strings differ or the first string ends, a terminator counting as 0; it is 0 exactly for equal strings, negative exactly when the first sorts first, positive exactly when the second does |
| `LineEditor.Step` | kernel.cpp:77-131 | one input byte keeps the state well formed: buffer of 64 bytes, index between 0 and 63, and only printable bytes before the index |
| `LineEditor.Run` | kernel.cpp:75-132 | a batch of bytes keeps the state well formed |
| `LineEditor.RunConcat` | kernel.cpp:75 | bytes are handled strictly one after another in input order, so a batch may be split at any point |
| `LineEditor.RunSnoc` | kernel.cpp:75 | handling a batch and then one more byte is one more step |
| `LineEditor.BackspaceAtStart` | kernel.cpp:80-91 | a backspace (8 or 127) on an empty line changes neither the buffer, the index nor either log |
| `LineEditor.BackspaceErases` | kernel.cpp:82-89 | a backspace on a non-empty line lowers the index by exactly one, drops the line's last byte, and appends backspace, space, backspace to both Screen and Serial |
| `LineEditor.PrintableAppends` | kernel.cpp:123-130 | a printable byte (32 to 126) with fewer than 63 buffered is stored at the old index, the index goes up by one, and the byte is echoed once to each device |
| `LineEditor.PrintableDroppedWhenFull` | kernel.cpp:125-131 | a printable byte with 63 buffered changes nothing and writes nothing |
| `LineEditor.OtherIgnored` | kernel.cpp:79-131 | a byte that is not a backspace, a terminator or printable has no effect |
| `LineEditor.TerminatedLine` | kernel.cpp:99-102 | after the NUL is written at the index, the buffer read as a C string is exactly the typed line, since no NUL is ever stored before the index |
| `LineEditor.DebugLiteralName` | kernel.cpp:102 | the literal compared against reads as the string `debug` |
| `LineEditor.HelpLiteralName` | kernel.cpp:107 | the literal compared against reads as the string `help` |
| `LineEditor.ReplyIsResponse` | kernel.cpp:101-116 | choosing the message by `compare_strings` against `debug` and `help` and by the index being non-zero picks the same message as matching the line by equality: status for `debug`, command list for `help`, `Unknown command` for any other non-empty line, nothing for an empty one |
| `LineEditor.Terminates` | kernel.cpp:94-121 | CR or LF appends a newline to both devices, writes NUL at the index, appends the line's message to Screen only, resets the index to 0 and appends `> ` to both devices |
| `LineEditor.DebugOnlyExact` | kernel.cpp:101-106 | the status message is written exactly when the line is `debug` itself |
| `LineEditor.RunEdits` | kernel.cpp:80-131 | the buffer up to the index always equals the abstract line, a stack where each accepted printable byte is pushed (up to 63), each backspace pops the latest, and a terminator clears; stale bytes beyond the index never matter |
| `LineEditor.TypeThenErase` | kernel.cpp:82-130 | typing a printable byte with room left and then a backspace gives back the line from before |
| `LineEditor.TypePrintables` | kernel.cpp:123-131 | printable bytes that fit are stored verbatim after the line, the index grows by their number, and both devices receive them verbatim |
| `LineEditor.FullLineDrops` | kernel.cpp:125-131 | on a full line any number of printable bytes leave no trace |
| `LineEditor.OutputOnlyGrows` | kernel.cpp:75-132 | what has been written to Screen or Serial is never taken back: each log only gains bytes at its end |
| `LineEditor.LineCommand` | kernel.cpp:94-131 | from a fresh prompt, a printable line of at most 63 bytes and a terminator write the line, a newline, the line's message (Screen only) and `> `, and leave the index at 0 |
| `LineEditor.DebugSession` | kernel.cpp:101-106 | typing `debug` and LF writes the status line to Screen and only the echo, newline and prompt to Serial |
| `LineEditor.HelpSession` | kernel.cpp:107-111 | typing `help` and CR writes the command list to Screen, while Serial gets only the echo, newline and prompt |
| `LineEditor.LongerThanDebugIsUnknown` | kernel.cpp:101-116 | `debugx`, which only starts like `debug`, is an unknown command; the message reaches Screen only |
| `LineEditor.ShorterThanDebugIsUnknown` | kernel.cpp:101-116 | `debu`, one byte short of `debug`, is an unknown command; the message reaches Screen only |
| `LineEditor.EmptyLineSession` | kernel.cpp:94-121 | a bare terminator writes only a newline and the prompt, to both devices |
| `LineEditor.CrLfSession` | kernel.cpp:94-121 | a CR LF pair ends the line and then an empty line, so a second newline and prompt follow the reply on Screen, and follow the echo, newline and prompt on Serial |
| `LineEditor.TypeTwoEraseTwo` | kernel.cpp:80-91 | two typed bytes and two backspaces leave an empty line, echoing the bytes and two erase sequences to both devices |
| `LineEditor.EraseSession` | kernel.cpp:80-121 | two typed bytes (such as `ls`), two backspaces and LF write the bytes, two erase sequences, a newline and the prompt, and no message |
| `Console.Kernel.constructor` | kernel.cpp:28 | a new kernel has input index 0, a 64-byte buffer and nothing written to either device |
| `Console.Kernel.WriteBanner` | kernel.cpp:52-54 | the start-up banner, ending in the first prompt, is appended to both devices |
| `Console.Kernel.KeyPressed` | kernel.cpp:75-132 | the loop over the batch, updating the buffer array and the index in place, leaves the state `Run` gives for the bytes before the first NUL, and keeps the invariant |
| `Console.Kernel.ProcessKey` | kernel.cpp:77-131 | one pass of the loop body leaves exactly the state `Step` gives |
| `Console.Kernel.ExecuteLine` | kernel.cpp:94-121 | the terminator branch, for CR or LF, leaves exactly the state `Step` gives for that byte |
| `Console.Kernel.Dispatch` | kernel.cpp:101-116 | the two calls of `compare_strings` and the index test choose the message `Reply` prescribes, which is the message for the line matched by equality once the NUL is at the index; it changes nothing |
| `Console.KeyPressedHandler` | kernel.cpp:71-75 | with no kernel nothing is modified; with one, the kernel ends in the state `Run` gives for the batch |

## Left out

- `CKernel::Initialize` and the halt-on-failure loop in main.cpp: hardware bring-up through the Circle library.
- The polling loop of `CKernel::Run` (USB plug-and-play, the device-name lookup of `ukbd1`, registering the handler). Only the banner it writes first is modelled, as `WriteBanner`.
- The interrupt context: each call of the handler is one atomic, sequential call.
- The order of writes across the two devices: each log keeps the order of its own writes, but that the source writes each echo, erase sequence, newline and prompt to Screen before Serial (kernel.cpp:87-88, 96-97, 119-120, 128-129) is not recorded.
- Inside the Screen and Serial devices, including cursor rendering: a write is an append to a log.
- The LED blink in the constructor, and the destructor clearing `s_pThis`.
- The bytes of the buffer before the first write: the source leaves them uninitialised, the constructor here sets them to NUL. Only bytes before the index are ever read.
- Console.KeyPressedHandler: the frame says that a null kernel changes nothing, but there is no global `s_pThis` whose setting by the constructor is modelled.
