/**
 * The command console: a fixed table from a trimmed command to a response text and a
 * platform side effect, and the UART task that feeds it. `utils::trim` is not part of this
 * model; it is passed in as an uninterpreted function `trim`.
 */
module Console {
  import opened Bytes

  /** The platform calls a command can make; the model records them instead of making them. */
  datatype Effect = NoEffect | DeepSleep | Restart | F660Start | F660Stop

  const UNKNOWN: seq<byte> := Ascii("Unknown command.")
  const EXITING: seq<byte> := Ascii("Exiting...\n")
  const HELP: seq<byte> := Ascii("Available commands: help, exit, poweroff, reboot, f660, f660stop")

  const EXIT_CMD: seq<byte> := Ascii("exit")
  const HELP_CMD: seq<byte> := Ascii("help")
  const POWEROFF_CMD: seq<byte> := Ascii("poweroff")
  const REBOOT_CMD: seq<byte> := Ascii("reboot")
  const F660_CMD: seq<byte> := Ascii("f660")
  const F660STOP_CMD: seq<byte> := Ascii("f660stop")

  /** The commands the table recognises. */
  predicate Known(cmd: seq<byte>)
  {
    cmd == EXIT_CMD || cmd == HELP_CMD || cmd == POWEROFF_CMD || cmd == REBOOT_CMD
    || cmd == F660_CMD || cmd == F660STOP_CMD
  }

  /** `processCommand(const char*)`: the response and the platform effect for one command string. */
  function ProcessCommand(trim: seq<byte> -> seq<byte>, command: seq<byte>): (seq<byte>, Effect)
  {
    var cmd := trim(command);
    if cmd == [] then (UNKNOWN, NoEffect)
    else if cmd == EXIT_CMD then (EXITING, NoEffect)
    else if cmd == HELP_CMD then (HELP, NoEffect)
    else if cmd == POWEROFF_CMD then ([], DeepSleep)
    else if cmd == REBOOT_CMD then ([], Restart)
    else if cmd == F660_CMD then ([], F660Start)
    else if cmd == F660STOP_CMD then ([], F660Stop)
    else (UNKNOWN, NoEffect)
  }

  /** Two commands that trim to the same text get the same response and the same effect. */
  lemma ProcessCommandDependsOnTrim(trim: seq<byte> -> seq<byte>, c1: seq<byte>, c2: seq<byte>)
    requires trim(c1) == trim(c2)
    ensures ProcessCommand(trim, c1) == ProcessCommand(trim, c2)
  {
  }

  /**
   * The table read the other way round: which trimmed commands give which response.
   * "Unknown command." answers exactly the unrecognised texts (the empty one included),
   * "Exiting...\n" answers exactly "exit", the help text exactly "help", and the four
   * remaining commands answer with the empty text and their own platform effect.
   */
  lemma ProcessCommandTable(trim: seq<byte> -> seq<byte>, command: seq<byte>)
    ensures var (response, effect) := ProcessCommand(trim, command);
      var cmd := trim(command);
      && (response == UNKNOWN <==> !Known(cmd))
      && (response == EXITING <==> cmd == EXIT_CMD)
      && (response == HELP <==> cmd == HELP_CMD)
      && (response == [] <==> cmd == POWEROFF_CMD || cmd == REBOOT_CMD || cmd == F660_CMD || cmd == F660STOP_CMD)
      && (effect == DeepSleep <==> cmd == POWEROFF_CMD)
      && (effect == Restart <==> cmd == REBOOT_CMD)
      && (effect == F660Start <==> cmd == F660_CMD)
      && (effect == F660Stop <==> cmd == F660STOP_CMD)
      && (effect == NoEffect <==> !(cmd == POWEROFF_CMD || cmd == REBOOT_CMD || cmd == F660_CMD || cmd == F660STOP_CMD))
  {
    var cmd := trim(command);
    assert |UNKNOWN| == 16 && |EXITING| == 11 && |HELP| == 64;
    assert UNKNOWN != EXITING && UNKNOWN != HELP && EXITING != HELP;
    assert EXIT_CMD[0] != HELP_CMD[0];
    assert POWEROFF_CMD[0] != REBOOT_CMD[0];
    assert |F660_CMD| != |F660STOP_CMD|;
  }

  /** The C string a `char*` to `b` denotes: the bytes before the first NUL. */
  function CString(b: seq<byte>): (r: seq<byte>)
    ensures |r| <= |b| && r == b[..|r|]
    ensures Free(r, 0)
    ensures |r| < |b| ==> b[|r|] == 0
  {
    if b == [] || b[0] == 0 then [] else [b[0]] + CString(b[1..])
  }

  /** `sizeof(buffer)`: the UART task's buffer, which is also the most one read asks for. */
  const UART_BUFFER: nat := 128

  /** What the UART task does with one read. */
  datatype UartTrace = UartTrace(
    written: seq<seq<byte>>,   // the responses written back, in order
    effects: seq<Effect>,      // the platform effects of the commands, in order
    exited: bool,              // the task deleted itself on "Exiting...\n"
    overflowed: bool)          // some terminating NUL was written at index 128, past the buffer

  /**
   * The UART task over successive reads, each asking for at most `readSize` bytes (an empty
   * read is a timeout). Each non-empty read is NUL-terminated at its length and dispatched;
   * "Exiting...\n" ends the task, any other response is written in full.
   */
  function UartFrom(trim: seq<byte> -> seq<byte>, readSize: nat, chunks: seq<seq<byte>>): UartTrace
  {
    if chunks == [] then UartTrace([], [], false, false)
    else
      var data := Take(chunks[0], readSize);
      if |data| == 0 then UartFrom(trim, readSize, chunks[1..])
      else
        var step := UartStep(trim, data);
        if step.exited then step else Then(step, UartFrom(trim, readSize, chunks[1..]))
  }

  /** What the task does with the `len` bytes of one non-empty read. */
  function UartStep(trim: seq<byte> -> seq<byte>, data: seq<byte>): UartTrace
  {
    var over := |data| >= UART_BUFFER;
    var (response, effect) := ProcessCommand(trim, CString(data));
    if response == EXITING then UartTrace([], [effect], true, over)
    else UartTrace([response], [effect], false, over)
  }

  /** The trace of `done` followed by the trace of `rest`. */
  function Then(done: UartTrace, rest: UartTrace): UartTrace
  {
    UartTrace(done.written + rest.written, done.effects + rest.effects, rest.exited, done.overflowed || rest.overflowed)
  }

  lemma ThenAssociates(a: UartTrace, b: UartTrace, c: UartTrace)
    ensures Then(Then(a, b), c) == Then(a, Then(b, c))
  {
    assert (a.written + b.written) + c.written == a.written + (b.written + c.written);
    assert (a.effects + b.effects) + c.effects == a.effects + (b.effects + c.effects);
  }

  /** Copies one read into the front of the buffer, as the UART driver does. */
  method Load(buffer: array<byte>, data: seq<byte>)
    requires |data| <= buffer.Length
    modifies buffer
    ensures buffer[..|data|] == data
    ensures buffer[|data|..] == old(buffer[|data|..])
  {
    forall m | 0 <= m < |data| {
      buffer[m] := data[m];
    }
  }

  /**
   * `uartTask`: reads into the 128-byte buffer, writes the terminating NUL at index `len`
   * (flagging the write that falls past the buffer when `len` is 128), dispatches the
   * command and handles the response.
   */
  method UartTask(trim: seq<byte> -> seq<byte>, buffer: array<byte>, chunks: seq<seq<byte>>) returns (t: UartTrace)
    requires buffer.Length == UART_BUFFER
    modifies buffer
    ensures t == UartFrom(trim, UART_BUFFER, chunks)
  {
    var k := 0;
    t := UartTrace([], [], false, false);
    while k < |chunks|
      invariant 0 <= k <= |chunks| && !t.exited
      invariant Then(t, UartFrom(trim, UART_BUFFER, chunks[k..])) == UartFrom(trim, UART_BUFFER, chunks)
    {
      var data := Take(chunks[k], UART_BUFFER);
      var len := |data|;
      assert chunks[k..][1..] == chunks[k + 1..];
      if len > 0 {
        Load(buffer, data);
        var over := false;
        if len < buffer.Length {
          buffer[len] := 0;
        } else {
          over := true;
        }
        var command := CString(buffer[..len]);
        var (response, effect) := ProcessCommand(trim, command);
        if response == EXITING {
          t := Then(t, UartTrace([], [effect], true, over));
          return;
        }
        ThenAssociates(t, UartStep(trim, data), UartFrom(trim, UART_BUFFER, chunks[k + 1..]));
        t := Then(t, UartTrace([response], [effect], false, over));
      }
      k := k + 1;
    }
  }

  /** One read ends the task exactly when it trims to "exit"; otherwise it writes one table response. */
  lemma StepExit(trim: seq<byte> -> seq<byte>, data: seq<byte>)
    ensures var step := UartStep(trim, data);
      && (step.exited <==> trim(CString(data)) == EXIT_CMD)
      && (step.exited ==> step.written == [])
      && (!step.exited ==> |step.written| == 1 && step.written[0] != EXITING
                           && (step.written[0] == UNKNOWN || step.written[0] == HELP || step.written[0] == []))
  {
    ProcessCommandTable(trim, CString(data));
  }

  /**
   * The task ends exactly when some non-empty read trims to "exit"; every response it
   * writes is one the table gives for some other command.
   */
  lemma {:induction false} UartExitIff(trim: seq<byte> -> seq<byte>, readSize: nat, chunks: seq<seq<byte>>)
    ensures var t := UartFrom(trim, readSize, chunks);
      && (t.exited <==> exists i :: 0 <= i < |chunks| && ExitAt(trim, readSize, chunks, i))
      && (forall w :: w in t.written ==> w != EXITING && (w == UNKNOWN || w == HELP || w == []))
  {
    if chunks != [] {
      UartExitIff(trim, readSize, chunks[1..]);
      var data := Take(chunks[0], readSize);
      var t := UartFrom(trim, readSize, chunks);
      var rest := UartFrom(trim, readSize, chunks[1..]);
      if |data| > 0 {
        StepExit(trim, data);
        if !UartStep(trim, data).exited {
          ExitShift(trim, readSize, chunks);
          assert t.written == UartStep(trim, data).written + rest.written;
        } else {
          assert ExitAt(trim, readSize, chunks, 0);
        }
      } else {
        ExitShift(trim, readSize, chunks);
      }
    }
  }

  /** When the first read does not end the task, some read does exactly when some later one does. */
  lemma ExitShift(trim: seq<byte> -> seq<byte>, readSize: nat, chunks: seq<seq<byte>>)
    requires chunks != [] && !ExitAt(trim, readSize, chunks, 0)
    ensures (exists i :: 0 <= i < |chunks| && ExitAt(trim, readSize, chunks, i))
        <==> (exists i :: 0 <= i < |chunks[1..]| && ExitAt(trim, readSize, chunks[1..], i))
  {
    forall i | 0 <= i < |chunks| - 1
      ensures ExitAt(trim, readSize, chunks[1..], i) == ExitAt(trim, readSize, chunks, i + 1)
    {
      assert chunks[1..][i] == chunks[i + 1];
    }
    if exists i :: 0 <= i < |chunks| && ExitAt(trim, readSize, chunks, i) {
      var i :| 0 <= i < |chunks| && ExitAt(trim, readSize, chunks, i);
      assert ExitAt(trim, readSize, chunks[1..], i - 1);
    }
    if exists i :: 0 <= i < |chunks[1..]| && ExitAt(trim, readSize, chunks[1..], i) {
      var i :| 0 <= i < |chunks[1..]| && ExitAt(trim, readSize, chunks[1..], i);
      assert ExitAt(trim, readSize, chunks, i + 1);
    }
  }

  /** Read `i` is non-empty and trims to "exit". */
  predicate ExitAt(trim: seq<byte> -> seq<byte>, readSize: nat, chunks: seq<seq<byte>>, i: nat)
    requires i < |chunks|
  {
    |Take(chunks[i], readSize)| > 0 && trim(CString(Take(chunks[i], readSize))) == EXIT_CMD
  }

  /** As written: a read that fills all 128 bytes makes the task write its NUL past the buffer. */
  lemma FullReadOverflows(trim: seq<byte> -> seq<byte>, data: seq<byte>)
    requires |data| == UART_BUFFER
    ensures UartFrom(trim, UART_BUFFER, [data]).overflowed
  {
    assert Take(data, UART_BUFFER) == data;
  }

  /** Intended: chunks of at most `sizeof(buffer) - 1` bytes always leave room for the NUL. */
  lemma {:induction false} ShortReadsNeverOverflow(trim: seq<byte> -> seq<byte>, chunks: seq<seq<byte>>)
    ensures !UartFrom(trim, UART_BUFFER - 1, chunks).overflowed
  {
    if chunks != [] {
      ShortReadsNeverOverflow(trim, chunks[1..]);
    }
  }
}
