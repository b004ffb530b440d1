/**
 * The Telnet automation client for the F660 router: option negotiation answered from a
 * fixed table, a prompt scanner over the received chunks, a fixed login-and-commands
 * script that stops at the first failure, and the task that repeats the script with a
 * bounded retry counter and runs a stop script once when asked to finish.
 */
module F660 {
  import opened Bytes
  import opened Transport
  import opened Telnet

  /** `config.timeout_ms`: how long each prompt is waited for. */
  const TIMEOUT_MS: int := 15000
  /** `sizeof(buffer) - 1`: the most one `recv` of the scanner returns. */
  const RECV_CAPACITY: nat := 255

  const CR: byte := 13
  const USERNAME: seq<byte> := Ascii("root")
  const PASSWORD: seq<byte> := Ascii("Zte521")
  const LOGIN_PROMPT: seq<byte> := Ascii("Login:")
  const PASSWORD_PROMPT: seq<byte> := Ascii("Password:")
  const SHELL_PROMPT: seq<byte> := Ascii("#")

  /** Command lines, each with the prompt that acknowledges it. */
  type Commands = seq<(seq<byte>, seq<byte>)>

  /** `config.cycle_commands`: each command with the prompt expected after it. */
  const CYCLE_COMMANDS: Commands := [
    (Ascii("ip link set dev eth3 down\r"), SHELL_PROMPT),
    (Ascii("sleep 3\r"), SHELL_PROMPT),
    (Ascii("ip link set dev eth3 up\r"), SHELL_PROMPT),
    (Ascii("exit 0\r"), [])]

  /** `config.stop_commands`. */
  const STOP_COMMANDS: Commands := [
    (Ascii("ip link set dev eth3 up\r"), SHELL_PROMPT),
    (Ascii("exit 0\r"), [])]

  // ----- Option negotiation -----

  /**
   * The verb the client answers `IAC cmd opt` with: it agrees to do NAWS and TERMINAL-TYPE
   * itself and lets the server do ECHO and SGA, and refuses everything else; a byte that is
   * not one of the four verbs gets no answer.
   */
  function Reply(cmd: byte, opt: byte): Option<byte>
  {
    if cmd == DO then Some(if opt == NAWS || opt == TERMINAL_TYPE then WILL else WONT)
    else if cmd == DONT then Some(WONT)
    else if cmd == WILL then Some(if opt == ECHO || opt == SGA then DO else DONT)
    else if cmd == WONT then Some(DONT)
    else None
  }

  /**
   * Every answer is one RFC 854 allows: a request about the client's own side (DO, DONT)
   * is answered with WILL or WONT, one about the server's side (WILL, WONT) with DO or DONT;
   * a DONT or WONT is always acknowledged negatively; and the client agrees exactly to the
   * four options it supports.
   */
  lemma ReplyTable(cmd: byte, opt: byte)
    ensures Reply(cmd, opt).Some? <==> IsVerb(cmd)
    ensures cmd == DO || cmd == DONT ==> Reply(cmd, opt) == Some(WILL) || Reply(cmd, opt) == Some(WONT)
    ensures cmd == WILL || cmd == WONT ==> Reply(cmd, opt) == Some(DO) || Reply(cmd, opt) == Some(DONT)
    ensures cmd == DONT ==> Reply(cmd, opt) == Some(WONT)
    ensures cmd == WONT ==> Reply(cmd, opt) == Some(DONT)
    ensures Reply(cmd, opt) == Some(WILL) <==> cmd == DO && (opt == NAWS || opt == TERMINAL_TYPE)
    ensures Reply(cmd, opt) == Some(DO) <==> cmd == WILL && (opt == ECHO || opt == SGA)
  {
  }

  // ----- Subnegotiation -----

  /** The index of the first IAC at or after `k`, or the chunk length when there is none. */
  function PayloadEnd(c: seq<byte>, k: nat): (r: nat)
    requires k <= |c|
    ensures k <= r <= |c| && Free(c[k..r], IAC)
    ensures r < |c| ==> c[r] == IAC
    decreases |c| - k
  {
    if k == |c| || c[k] == IAC then k else PayloadEnd(c, k + 1)
  }

  /** What `handleSubnegotiation` returns, where it leaves the index, the option and the payload. */
  datatype Sub = Sub(ok: bool, next: nat, option: byte, data: seq<byte>)

  /** `handleSubnegotiation` at index `i`: `SB option payload IAC SE`, the payload running to the first IAC. */
  function Subnegotiate(c: seq<byte>, i: nat): (r: Sub)
    requires i <= |c|
    ensures r.ok ==> i + 4 <= r.next <= |c|
  {
    if i + 2 >= |c| || c[i] != SB then Sub(false, i, 0, [])
    else
      var e := PayloadEnd(c, i + 2);
      if e + 1 >= |c| || c[e] != IAC || c[e + 1] != SE then Sub(false, e, c[i + 1], c[i + 2..e])
      else Sub(true, e + 2, c[i + 1], c[i + 2..e])
  }

  /**
   * A subnegotiation succeeds exactly when `c[i]` is SB, with an option byte, and the first
   * IAC after it is followed by SE; it then leaves the index just past SE and returns the
   * bytes between the option and that IAC.
   */
  lemma SubnegotiateSpec(c: seq<byte>, i: nat, k: nat)
    requires i <= |c|
    ensures var r := Subnegotiate(c, i);
      r.ok ==> c[i] == SB && c[r.next - 2] == IAC && c[r.next - 1] == SE
               && r.option == c[i + 1] && r.data == c[i + 2..r.next - 2] && Free(r.data, IAC)
    ensures i + 2 <= k && k + 1 < |c| && c[i] == SB && c[k] == IAC && c[k + 1] == SE && Free(c[i + 2..k], IAC)
      ==> Subnegotiate(c, i) == Sub(true, k + 2, c[i + 1], c[i + 2..k])
  {
  }

  /** The scanner calls `handleSubnegotiation` with the index of the IAC, which is not SB: any IAC SB fails it. */
  lemma SubnegotiationAtIacFails(c: seq<byte>, i: nat)
    requires i < |c| && c[i] == IAC
    ensures !Subnegotiate(c, i).ok
  {
  }

  /** `handleSubnegotiation`, with the index passed by reference returned as `next`. */
  method HandleSubnegotiation(c: seq<byte>, i0: nat) returns (ok: bool, next: nat, option: byte, data: seq<byte>)
    requires i0 <= |c|
    ensures Sub(ok, next, option, data) == Subnegotiate(c, i0)
  {
    var i := i0;
    if i + 2 >= |c| || c[i] != SB {
      return false, i, 0, [];
    }
    option := c[i + 1];
    data := [];
    i := i + 2;
    while i < |c| && c[i] != IAC
      invariant i0 + 2 <= i <= |c| && data == c[i0 + 2..i]
      invariant PayloadEnd(c, i) == PayloadEnd(c, i0 + 2)
    {
      data := data + [c[i]];
      i := i + 1;
    }
    if i + 1 >= |c| || c[i] != IAC || c[i + 1] != SE {
      return false, i, option, data;
    }
    i := i + 2;
    return true, i, option, data;
  }

  /** A NAWS payload: width and height, each a big-endian 16-bit value (RFC 1073). */
  function EncodeNaws(width: uint16, height: uint16): (r: seq<byte>)
    ensures |r| == 4
  {
    BigEndian16(width) + BigEndian16(height)
  }

  /** The width and height the client reads from a NAWS payload of at least four bytes. */
  function DecodeNaws(data: seq<byte>): (uint16, uint16)
    requires |data| >= 4
  {
    (U16At(data, 0), U16At(data, 2))
  }

  /**
   * A NAWS subnegotiation whose payload contains no IAC byte is accepted, leaves the index
   * just past its SE, and decodes back to the width and height it carries.
   */
  lemma NawsRoundTrip(width: uint16, height: uint16, rest: seq<byte>)
    requires Free(EncodeNaws(width, height), IAC)
    ensures var c := [SB, NAWS] + EncodeNaws(width, height) + [IAC, SE] + rest;
      var r := Subnegotiate(c, 0);
      && r == Sub(true, 8, NAWS, EncodeNaws(width, height))
      && DecodeNaws(r.data) == (width, height)
  {
    var p := EncodeNaws(width, height);
    var c := [SB, NAWS] + p + [IAC, SE] + rest;
    assert c[2..6] == p && c[6] == IAC && c[7] == SE;
    SubnegotiateSpec(c, 0, 6);
    BigEndian16RoundTrip(width, [], BigEndian16(height));
    assert p == [] + BigEndian16(width) + BigEndian16(height);
    BigEndian16RoundTrip(height, BigEndian16(width), []);
    assert p == BigEndian16(width) + BigEndian16(height) + [];
  }

  // ----- Scanning one chunk -----

  /** Why the chunk loop stopped. */
  datatype ScanEnd = Scanned | SendError | SubnegotiationFailed

  /** The end of the chunk loop, the text received so far and the environment. */
  datatype Scan = Scan(end: ScanEnd, text: seq<byte>, net: Net)

  /**
   * The chunk loop of `waitForPrompt` from index `i` on, `text` having been received so
   * far: a byte other than IAC is text; a lone IAC at the end is dropped; IAC SB goes to
   * the subnegotiation; a complete `IAC cmd opt` is answered from the table and consumes
   * three bytes; an IAC followed by a single byte skips only the IAC.
   */
  function ScanFrom(c: seq<byte>, i: nat, text: seq<byte>, n: Net): (r: Scan)
    ensures r.net.clock == n.clock && r.net.inbox == n.inbox
    decreases |c| + 1 - i
  {
    if i >= |c| then Scan(Scanned, text, n)
    else if c[i] != IAC then ScanFrom(c, i + 1, text + [c[i]], n)
    else if i + 1 >= |c| then ScanFrom(c, i + 1, text, n)
    else if c[i + 1] == SB then
      var s := Subnegotiate(c, i);
      if !s.ok then Scan(SubnegotiationFailed, text, n) else ScanFrom(c, s.next + 1, text, n)
    else if i + 2 >= |c| then ScanFrom(c, i + 1, text, n)
    else
      match Reply(c[i + 1], c[i + 2])
      case None => ScanFrom(c, i + 3, text, n)
      case Some(v) =>
        var (ok, n') := Send(n, Command(v, c[i + 2]));
        if !ok then Scan(SendError, text, n') else ScanFrom(c, i + 3, text, n')
  }

  /** The chunk loop: scans `c` after `received`, answering negotiation as it goes. */
  method ScanChunk(c: seq<byte>, received: seq<byte>, n: Net) returns (r: Scan)
    ensures r == ScanFrom(c, 0, received, n)
  {
    var i := 0;
    var text := received;
    var net := n;
    while i < |c|
      invariant i <= |c| + 1
      invariant ScanFrom(c, i, text, net) == ScanFrom(c, 0, received, n)
      decreases |c| + 1 - i
    {
      if c[i] == IAC {
        if i + 1 < |c| {
          var command := c[i + 1];
          if command == SB {
            var ok, next, _, _ := HandleSubnegotiation(c, i);
            if !ok {
              return Scan(SubnegotiationFailed, text, net);
            }
            i := next + 1;
            continue;
          }
          if i + 2 < |c| {
            var option := c[i + 2];
            var reply := Reply(command, option);
            if reply.Some? {
              var sent := Send(net, Command(reply.value, option));
              net := sent.1;
              if !sent.0 {
                return Scan(SendError, text, net);
              }
            }
            i := i + 2;
          }
        }
      } else {
        text := text + [c[i]];
      }
      i := i + 1;
    }
    r := Scan(Scanned, text, net);
  }

  /** The scanner adds only non-IAC bytes to the text, after what was received before. */
  lemma {:induction false} ScanKeepsText(c: seq<byte>, i: nat, text: seq<byte>, n: Net)
    ensures var r := ScanFrom(c, i, text, n);
      |text| <= |r.text| && r.text[..|text|] == text && Free(r.text[|text|..], IAC)
    decreases |c| + 1 - i
  {
    var r := ScanFrom(c, i, text, n);
    if i < |c| {
      if c[i] != IAC {
        ScanKeepsText(c, i + 1, text + [c[i]], n);
        assert r.text[..|text|] == (r.text[..|text| + 1])[..|text|];
        assert r.text[|text|..] == [c[i]] + r.text[|text| + 1..];
      } else if i + 1 >= |c| {
        ScanKeepsText(c, i + 1, text, n);
      } else if c[i + 1] == SB {
        // The subnegotiation fails at an IAC, and the scan stops.
      } else if i + 2 >= |c| {
        ScanKeepsText(c, i + 1, text, n);
      } else {
        match Reply(c[i + 1], c[i + 2])
        case None => ScanKeepsText(c, i + 3, text, n);
        case Some(v) =>
          var sent := Send(n, Command(v, c[i + 2]));
          if sent.0 {
            ScanKeepsText(c, i + 3, text, sent.1);
          }
      }
    }
  }

  /** A chunk without IAC bytes is all text, and nothing is sent. */
  lemma {:induction false} ScanPlainText(c: seq<byte>, i: nat, text: seq<byte>, n: Net)
    requires i <= |c| && Free(c[i..], IAC)
    ensures ScanFrom(c, i, text, n) == Scan(Scanned, text + c[i..], n)
    decreases |c| - i
  {
    if i < |c| {
      assert c[i..][0] == c[i];
      assert c[i + 1..] == c[i..][1..];
      ScanPlainText(c, i + 1, text + [c[i]], n);
      assert text + [c[i]] + c[i + 1..] == text + c[i..];
    }
  }

  /** Chunk edge: an IAC as the last byte of a chunk is dropped, and the scan ends there. */
  lemma ScanChunkEdges(c: seq<byte>, text: seq<byte>, n: Net)
    requires |c| >= 1 && c[|c| - 1] == IAC
    ensures ScanFrom(c, |c| - 1, text, n) == Scan(Scanned, text, n)
  {
  }

  /**
   * Chunk edge: with `IAC X` as the last two bytes and X not SB, only the IAC is skipped
   * and X is scanned on its own, so an X other than IAC ends up in the text.
   */
  lemma ScanIacBeforeLast(c: seq<byte>, text: seq<byte>, n: Net)
    requires |c| >= 2 && c[|c| - 2] == IAC && c[|c| - 1] != SB
    ensures ScanFrom(c, |c| - 2, text, n) == ScanFrom(c, |c| - 1, text, n)
    ensures c[|c| - 1] != IAC ==> ScanFrom(c, |c| - 2, text, n) == Scan(Scanned, text + [c[|c| - 1]], n)
  {
  }

  /** Any IAC SB in a chunk stops the scan with a failure, after the text before it. */
  lemma SubnegotiationAlwaysFails(c: seq<byte>, i: nat, text: seq<byte>, n: Net)
    requires i + 1 < |c| && c[i] == IAC && c[i + 1] == SB
    ensures ScanFrom(c, i, text, n) == Scan(SubnegotiationFailed, text, n)
  {
  }

  /** A complete `IAC cmd opt` with cmd not SB adds nothing to the text and consumes exactly three bytes. */
  lemma CommandConsumesThree(c: seq<byte>, i: nat, text: seq<byte>, n: Net)
    requires i + 2 < |c| && c[i] == IAC && c[i + 1] != SB
    ensures var reply := Reply(c[i + 1], c[i + 2]);
      reply.None? ==> ScanFrom(c, i, text, n) == ScanFrom(c, i + 3, text, n)
    ensures var reply := Reply(c[i + 1], c[i + 2]);
      reply.Some? && n.calls !in n.failing ==>
        ScanFrom(c, i, text, n) == ScanFrom(c, i + 3, text, n.(calls := n.calls + 1, out := n.out + [[IAC, reply.value, c[i + 2]]]))
  {
  }

  // ----- Waiting for a prompt -----

  /** Why `waitForPrompt` returned. */
  datatype WaitEnd =
    | Matched                   // the text contains the prompt: true
    | TimedOut                  // the timeout passed
    | SetupFailed               // fcntl() could not make the socket non-blocking
    | SelectError               // select() failed
    | ReadEnded                 // recv() returned 0 or an error
    | ScanFailed(why: ScanEnd)  // an answer could not be sent, or a subnegotiation

  /** The result of `waitForPrompt` with the text received during the call, or a run that was cut off. */
  datatype Waited = Waited(end: WaitEnd, received: seq<byte>, net: Net) | WaitCut

  /** `waitForPrompt`: the start time is read, the socket made non-blocking, then the polling loop runs. */
  function WaitFor(prompt: seq<byte>, timeout: int, n: Net): Waited
  {
    if |n.clock| == 0 then WaitCut
    else
      var start := n.clock[0];
      var (ok, n') := Attempt(Tick(n));
      if !ok then Waited(SetupFailed, [], n') else WaitLoop(prompt, timeout, start, [], n')
  }

  /** The polling loop of `waitForPrompt`: one clock reading and one readiness wait per round. */
  function WaitLoop(prompt: seq<byte>, timeout: int, start: int, received: seq<byte>, n: Net): Waited
    decreases Budget(n)
  {
    if |n.clock| == 0 then WaitCut
    else if n.clock[0] - start >= timeout then Waited(TimedOut, received, Tick(n))
    else
      var n1 := Tick(n);
      if |n1.inbox| == 0 then WaitCut
      else
        var n2 := Pop(n1);
        match n1.inbox[0]
        case Quiet => WaitLoop(prompt, timeout, start, received, n2)
        case SelectFailed => Waited(SelectError, received, n2)
        case PeerClosed => Waited(ReadEnded, received, n2)
        case RecvFailed => Waited(ReadEnded, received, n2)
        case Data(bytes) =>
          var chunk := Take(bytes, RECV_CAPACITY);
          if |chunk| == 0 then Waited(ReadEnded, received, n2)
          else
            var s := ScanFrom(chunk, 0, received, n2);
            if s.end != Scanned then Waited(ScanFailed(s.end), s.text, s.net)
            else if Contains(s.text, prompt) then Waited(Matched, s.text, s.net)
            else WaitLoop(prompt, timeout, start, s.text, s.net)
  }

  /** `waitForPrompt(sock, prompt, timeout)`. */
  method WaitForPrompt(prompt: seq<byte>, timeout: int, n: Net) returns (w: Waited)
    ensures w == WaitFor(prompt, timeout, n)
  {
    if |n.clock| == 0 {
      return WaitCut;
    }
    var start := n.clock[0];
    var setup := Attempt(Tick(n));
    var net := setup.1;
    if !setup.0 {
      return Waited(SetupFailed, [], net);
    }
    var received := [];
    while true
      invariant WaitLoop(prompt, timeout, start, received, net) == WaitFor(prompt, timeout, n)
      decreases Budget(net)
    {
      if |net.clock| == 0 {
        return WaitCut;
      }
      var now := net.clock[0];
      net := Tick(net);
      if now - start >= timeout {
        return Waited(TimedOut, received, net);
      }
      if |net.inbox| == 0 {
        return WaitCut;
      }
      var ready := net.inbox[0];
      net := Pop(net);
      match ready
      case Quiet =>
      case SelectFailed => return Waited(SelectError, received, net);
      case PeerClosed => return Waited(ReadEnded, received, net);
      case RecvFailed => return Waited(ReadEnded, received, net);
      case Data(bytes) =>
        var chunk := Take(bytes, RECV_CAPACITY);
        if |chunk| == 0 {
          return Waited(ReadEnded, received, net);
        }
        var s := ScanChunk(chunk, received, net);
        received := s.text;
        net := s.net;
        if s.end != Scanned {
          return Waited(ScanFailed(s.end), received, net);
        }
        if Contains(received, prompt) {
          return Waited(Matched, received, net);
        }
    }
  }

  /**
   * `waitForPrompt` returns true only when the text received during the call contains the
   * prompt; for a non-empty prompt, a timeout, a select error or the end of the stream means
   * it did not (the text is checked after every chunk), and the text never holds an IAC byte.
   */
  lemma {:induction false} WaitLoopMatches(prompt: seq<byte>, timeout: int, start: int, received: seq<byte>, n: Net)
    requires |prompt| > 0 ==> !Contains(received, prompt)
    requires Free(received, IAC)
    ensures var w := WaitLoop(prompt, timeout, start, received, n);
      w.Waited? ==>
        && (w.end == Matched ==> Contains(w.received, prompt))
        && (w.end in {TimedOut, SelectError, ReadEnded} && |prompt| > 0 ==> !Contains(w.received, prompt))
        && Free(w.received, IAC)
    decreases Budget(n)
  {
    if |n.clock| > 0 && n.clock[0] - start < timeout && |Tick(n).inbox| > 0 {
      var n2 := Pop(Tick(n));
      match Tick(n).inbox[0]
      case Quiet => WaitLoopMatches(prompt, timeout, start, received, n2);
      case SelectFailed =>
      case PeerClosed =>
      case RecvFailed =>
      case Data(bytes) =>
        var chunk := Take(bytes, RECV_CAPACITY);
        if |chunk| > 0 {
          var s := ScanFrom(chunk, 0, received, n2);
          ScanKeepsText(chunk, 0, received, n2);
          FreeJoin(received, s.text);
          if s.end == Scanned && !Contains(s.text, prompt) {
            WaitLoopMatches(prompt, timeout, start, s.text, s.net);
          }
        }
    }
  }

  lemma FreeJoin(a: seq<byte>, b: seq<byte>)
    requires |a| <= |b| && b[..|a|] == a && Free(a, IAC) && Free(b[|a|..], IAC)
    ensures Free(b, IAC)
  {
    forall k | 0 <= k < |b|
      ensures b[k] != IAC
    {
      if k < |a| {
        assert b[k] == b[..|a|][k];
      } else {
        assert b[k] == b[|a|..][k - |a|];
      }
    }
  }

  /** The whole of `waitForPrompt`: a match means the prompt was received; a non-empty prompt not received means no match. */
  lemma WaitForMatches(prompt: seq<byte>, timeout: int, n: Net)
    ensures var w := WaitFor(prompt, timeout, n);
      w.Waited? ==>
        && (w.end == Matched ==> Contains(w.received, prompt))
        && (w.end in {TimedOut, SelectError, ReadEnded} && |prompt| > 0 ==> !Contains(w.received, prompt))
        && Free(w.received, IAC)
  {
    if |n.clock| > 0 {
      var (ok, n') := Attempt(Tick(n));
      if ok {
        assert !Contains([], prompt) || |prompt| == 0;
        WaitLoopMatches(prompt, timeout, n.clock[0], [], n');
      }
    }
  }

  /** An empty prompt matches as soon as one non-empty chunk has been scanned without failure. */
  lemma EmptyPromptMatchesFirstChunk(timeout: int, start: int, received: seq<byte>, n: Net, bytes: seq<byte>)
    requires |n.clock| > 0 && n.clock[0] - start < timeout
    requires |n.inbox| > 0 && n.inbox[0] == Data(bytes) && |bytes| > 0
    requires ScanFrom(Take(bytes, RECV_CAPACITY), 0, received, Pop(Tick(n))).end == Scanned
    ensures var w := WaitLoop([], timeout, start, received, n);
      w.Waited? && w.end == Matched
  {
    var s := ScanFrom(Take(bytes, RECV_CAPACITY), 0, received, Pop(Tick(n)));
    ContainsEmpty(s.text);
  }

  // ----- The script -----

  /** One step of `executeSequence`. */
  datatype Step =
    | Negotiate(verb: byte, option: byte)           // sendIACCommand
    | Expect(prompt: seq<byte>)                     // waitForPrompt
    | Issue(command: seq<byte>, prompt: seq<byte>)  // sendCommand

  /** Whether a step succeeded, and the environment after it; or a run that was cut off. */
  datatype StepResult = StepDone(ok: bool, net: Net) | StepCut

  function Awaited(w: Waited): StepResult
  {
    match w
    case WaitCut => StepCut
    case Waited(end, _, n) => StepDone(end == Matched, n)
  }

  /**
   * One step: a negotiation command fails when `send` does; a command line fails when
   * `send` fails or sends nothing (an empty command), and otherwise waits for its prompt.
   */
  function RunStep(s: Step, n: Net): StepResult
  {
    match s
    case Negotiate(v, o) =>
      var (ok, n') := Send(n, Command(v, o));
      StepDone(ok, n')
    case Expect(p) => Awaited(WaitFor(p, TIMEOUT_MS, n))
    case Issue(cmd, p) =>
      var (ok, n') := Send(n, cmd);
      if !ok || |cmd| == 0 then StepDone(false, n') else Awaited(WaitFor(p, TIMEOUT_MS, n'))
  }

  /** The steps before the commands: refuse remote echo, offer SGA, refuse TERMINAL-TYPE and NAWS, then log in. */
  const LOGIN: seq<Step> := [
    Negotiate(DONT, ECHO), Negotiate(WILL, SGA), Negotiate(DONT, TERMINAL_TYPE), Negotiate(DONT, NAWS),
    Expect(LOGIN_PROMPT), Issue(USERNAME + [CR], PASSWORD_PROMPT), Issue(PASSWORD + [CR], SHELL_PROMPT)]

  /** The steps of `executeSequence(sock, commands)`. */
  function Script(commands: seq<(seq<byte>, seq<byte>)>): (r: seq<Step>)
    ensures |r| == |LOGIN| + |commands| && r[..|LOGIN|] == LOGIN
    ensures forall k :: 0 <= k < |commands| ==> r[|LOGIN| + k] == Issue(commands[k].0, commands[k].1)
  {
    LOGIN + seq(|commands|, k requires 0 <= k < |commands| => Issue(commands[k].0, commands[k].1))
  }

  /** Whether every step succeeded, how many steps ran, and the environment after them. */
  datatype Run = Run(ok: bool, performed: nat, net: Net) | RunCut

  /** The steps in order, stopping after the first one that fails. */
  function RunSteps(steps: seq<Step>, n: Net): (r: Run)
    ensures r.Run? ==> r.performed <= |steps|
    ensures r.Run? && r.ok ==> r.performed == |steps|
    ensures r.Run? && !r.ok ==> r.performed >= 1
  {
    if steps == [] then Run(true, 0, n)
    else
      match RunStep(steps[0], n)
      case StepCut => RunCut
      case StepDone(ok, n') =>
        if !ok then Run(false, 1, n')
        else
          match RunSteps(steps[1..], n')
          case RunCut => RunCut
          case Run(ok2, p, n2) => Run(ok2, p + 1, n2)
  }

  /** `r` with `k` more steps counted as performed before it. */
  function After(k: nat, r: Run): Run
  {
    match r
    case RunCut => RunCut
    case Run(ok, p, m) => Run(ok, p + k, m)
  }

  /** Running `a` and then `b` is running `a + b`: `b` runs only when every step of `a` succeeded. */
  lemma {:induction false} RunAppend(a: seq<Step>, b: seq<Step>, n: Net)
    ensures RunSteps(a + b, n) ==
      match RunSteps(a, n)
      case RunCut => RunCut
      case Run(ok, p, m) => if ok then After(p, RunSteps(b, m)) else Run(false, p, m)
    decreases |a|
  {
    if a != [] {
      assert (a + b)[0] == a[0] && (a + b)[1..] == a[1..] + b;
      match RunStep(a[0], n)
      case StepCut =>
      case StepDone(ok, n') =>
        if ok {
          RunAppend(a[1..], b, n');
        }
    } else {
      assert a + b == b;
    }
  }

  /**
   * The steps performed are a prefix of the script that ends at the first failure: every
   * step before the last one performed succeeded, and when the run failed, its last step is
   * the one that failed.
   */
  lemma {:induction false} StopsAtFirstFailure(steps: seq<Step>, n: Net)
    ensures FailsLast(steps, n, RunSteps(steps, n))
    decreases |steps|
  {
    if steps != [] {
      match RunStep(steps[0], n)
      case StepCut =>
      case StepDone(ok, n') =>
        if ok {
          var rest := steps[1..];
          StopsAtFirstFailure(rest, n');
          var r := RunSteps(steps, n);
          if r.Run? && !r.ok {
            var p := r.performed - 1;
            assert steps[..p][0] == steps[0];
            assert steps[..p][1..] == rest[..p - 1];
          }
        }
    }
  }

  /** When run `r` of `steps` failed, every step before its last one succeeded and the last one failed. */
  predicate FailsLast(steps: seq<Step>, n: Net, r: Run)
  {
    r.Run? && !r.ok && 1 <= r.performed <= |steps| ==>
      var before := RunSteps(steps[..r.performed - 1], n);
      && before.Run? && before.ok
      && RunStep(steps[r.performed - 1], before.net) == StepDone(false, r.net)
  }

  /** `sendCommand(sock, cmd, prompt, timeout)`. */
  method SendCommand(cmd: seq<byte>, prompt: seq<byte>, n: Net) returns (r: StepResult)
    ensures r == RunStep(Issue(cmd, prompt), n)
  {
    var sent := Send(n, cmd);
    if !sent.0 || |cmd| == 0 {
      return StepDone(false, sent.1);
    }
    var w := WaitForPrompt(prompt, TIMEOUT_MS, sent.1);
    r := Awaited(w);
  }

  /** One step of the script. */
  method PerformStep(s: Step, n: Net) returns (r: StepResult)
    ensures r == RunStep(s, n)
  {
    match s
    case Negotiate(v, o) =>
      var sent := Send(n, Command(v, o));
      r := StepDone(sent.0, sent.1);
    case Expect(p) =>
      var w := WaitForPrompt(p, TIMEOUT_MS, n);
      r := Awaited(w);
    case Issue(cmd, p) =>
      r := SendCommand(cmd, p, n);
  }

  /** `executeSequence(sock, commands)`: negotiation, login, then each command with its prompt. */
  method ExecuteSequence(commands: seq<(seq<byte>, seq<byte>)>, n: Net) returns (r: Run)
    ensures r == RunSteps(Script(commands), n)
  {
    var steps := Script(commands);
    var k := 0;
    var net := n;
    while k < |steps|
      invariant 0 <= k <= |steps|
      invariant RunSteps(steps, n) == After(k, RunSteps(steps[k..], net))
    {
      assert steps[k..][1..] == steps[k + 1..];
      var step := PerformStep(steps[k], net);
      match step {
        case StepCut => return RunCut;
        case StepDone(ok, n') =>
          if !ok {
            return Run(false, k + 1, n');
          }
          net := n';
      }
      k := k + 1;
    }
    r := Run(true, k, net);
  }

  // ----- The client task -----

  const MAX_RETRIES: nat := 3
  const SETUP_FAILURE_DELAY_MS: nat := 100
  const MAX_RETRIES_PAUSE_MS: nat := 5000
  const CYCLE_DELAY_MS: nat := 1000

  /** One round of the task loop: the socket set-up failed, or the script ran on a connection. */
  datatype Round = ConnectFailed | Connected(session: Net)

  /** The stop connection: no socket, no connection, or the stop script on a connection. */
  datatype StopAttempt = StopSocketFailed | StopConnectFailed | StopConnected(session: Net)

  /** What the task does, in order. */
  datatype Event =
    | Delay(ms: nat)
    | Cycle(ok: bool)                    // the cycle script ran, successfully or not
    | StopSequence(attempt: StopAttempt, result: Option<Run>)

  /** Whether the cycle script succeeded on a connection; a run cut off counts as failed. */
  predicate CycleSucceeded(cycle: Commands, session: Net)
  {
    var r := RunSteps(Script(cycle), session);
    r.Run? && r.ok
  }

  /** The retry counter after one cycle, and whether the long pause is taken. */
  function NextRetry(retry: nat, ok: bool): (r: (nat, bool))
    requires retry < MAX_RETRIES
    ensures r.0 < MAX_RETRIES
    ensures ok ==> r == (0, false)
    ensures !ok ==> (r.1 <==> retry + 1 == MAX_RETRIES) && r.0 == (retry + 1) % MAX_RETRIES
  {
    if ok then (0, false)
    else if retry + 1 >= MAX_RETRIES then (0, true)
    else (retry + 1, false)
  }

  /** The end of the task: the stop script is attempted once, on its own connection. */
  function StopEvent(stopping: Commands, stop: StopAttempt): Event
  {
    match stop
    case StopConnected(session) => StopSequence(stop, Some(RunSteps(Script(stopping), session)))
    case _ => StopSequence(stop, None)
  }

  /**
   * The events of one round of the task loop and the counter after it: a set-up failure
   * waits 100 ms and leaves the counter alone; a cycle is followed by the 5-second pause
   * when the counter reaches 3, and then by the 1-second wait.
   */
  function RoundStep(cycle: Commands, retry: nat, round: Round): (r: (seq<Event>, nat))
    requires retry < MAX_RETRIES
    ensures r.1 < MAX_RETRIES
  {
    match round
    case ConnectFailed => ([Delay(SETUP_FAILURE_DELAY_MS)], retry)
    case Connected(session) =>
      var ok := CycleSucceeded(cycle, session);
      var (retry', pause) := NextRetry(retry, ok);
      ([Cycle(ok)] + (if pause then [Delay(MAX_RETRIES_PAUSE_MS)] else []) + [Delay(CYCLE_DELAY_MS)], retry')
  }

  /** The events of `telnetClientTask` from a loop head with counter `retry` on. */
  function TaskFrom(cycle: Commands, stopping: Commands, retry: nat, rounds: seq<Round>, stop: StopAttempt): seq<Event>
    requires retry < MAX_RETRIES
    decreases |rounds|
  {
    if rounds == [] then [StopEvent(stopping, stop)]
    else
      var (events, retry') := RoundStep(cycle, retry, rounds[0]);
      events + TaskFrom(cycle, stopping, retry', rounds[1..], stop)
  }

  /** The counter at the loop head after `rounds`. */
  function RetryAfter(cycle: Commands, retry: nat, rounds: seq<Round>): (r: nat)
    requires retry < MAX_RETRIES
    ensures r < MAX_RETRIES
    decreases |rounds|
  {
    if rounds == [] then retry
    else RetryAfter(cycle, RoundStep(cycle, retry, rounds[0]).1, rounds[1..])
  }

  /** The outcomes of the cycles among `rounds`, in order; set-up failures have none. */
  function Outcomes(cycle: Commands, rounds: seq<Round>): seq<bool>
  {
    if rounds == [] then []
    else (if rounds[0].Connected? then [CycleSucceeded(cycle, rounds[0].session)] else []) + Outcomes(cycle, rounds[1..])
  }

  /** The number of failed cycles since the last successful one. */
  function TrailingFailures(outcomes: seq<bool>): nat
  {
    if outcomes == [] || outcomes[|outcomes| - 1] then 0
    else TrailingFailures(outcomes[..|outcomes| - 1]) + 1
  }

  /** The counter after all of `rounds` but the last, then the last one. */
  lemma {:induction false} RetryAfterLast(cycle: Commands, retry: nat, rounds: seq<Round>, last: Round)
    requires retry < MAX_RETRIES
    ensures RetryAfter(cycle, retry, rounds + [last]) == RoundStep(cycle, RetryAfter(cycle, retry, rounds), last).1
    decreases |rounds|
  {
    if rounds != [] {
      assert (rounds + [last])[1..] == rounds[1..] + [last];
      RetryAfterLast(cycle, RoundStep(cycle, retry, rounds[0]).1, rounds[1..], last);
    } else {
      assert [last][1..] == [];
    }
  }

  lemma {:induction false} OutcomesLast(cycle: Commands, rounds: seq<Round>, last: Round)
    ensures Outcomes(cycle, rounds + [last]) == Outcomes(cycle, rounds) + (if last.Connected? then [CycleSucceeded(cycle, last.session)] else [])
    decreases |rounds|
  {
    if rounds != [] {
      assert (rounds + [last])[1..] == rounds[1..] + [last];
      OutcomesLast(cycle, rounds[1..], last);
    } else {
      assert [last][1..] == [];
    }
  }

  /**
   * The counter at every loop head is the number of failed cycles since the last
   * successful one, modulo 3 (the counter is reset after the third); set-up failures do
   * not count.
   */
  lemma {:induction false} RetryCountsTrailingFailures(cycle: Commands, rounds: seq<Round>)
    ensures RetryAfter(cycle, 0, rounds) == TrailingFailures(Outcomes(cycle, rounds)) % MAX_RETRIES
    decreases |rounds|
  {
    if rounds != [] {
      var init := rounds[..|rounds| - 1];
      var last := rounds[|rounds| - 1];
      RetryCountsTrailingFailures(cycle, init);
      SplitLast(cycle, rounds);
      var o := Outcomes(cycle, init);
      var ok := last.Connected? && CycleSucceeded(cycle, last.session);
      if last.Connected? {
        TrailingAfter(o, ok);
      } else {
        assert o + [] == o;
      }
      RetryStep(RetryAfter(cycle, 0, init), TrailingFailures(o), last.Connected?, ok,
                RetryAfter(cycle, 0, rounds), TrailingFailures(Outcomes(cycle, rounds)));
    }
  }

  /** One more round, in arithmetic: a cycle moves both the counter and the failure run; a set-up failure neither. */
  lemma RetryStep(r: nat, t: nat, connected: bool, ok: bool, r': nat, t': nat)
    requires r == t % MAX_RETRIES
    requires connected ==> r' == NextRetry(r, ok).0 && t' == if ok then 0 else t + 1
    requires !connected ==> r' == r && t' == t
    ensures r' == t' % MAX_RETRIES
  {
    if connected && !ok {
      var q := t / MAX_RETRIES;
      assert t == MAX_RETRIES * q + r;
      if r + 1 < MAX_RETRIES {
        assert t' == MAX_RETRIES * q + (r + 1);
      } else {
        assert t' == MAX_RETRIES * (q + 1);
      }
    }
  }

  /** The counter and the outcomes after `rounds`, from those after all but its last round. */
  lemma SplitLast(cycle: Commands, rounds: seq<Round>)
    requires rounds != []
    ensures var init, last := rounds[..|rounds| - 1], rounds[|rounds| - 1];
      && RetryAfter(cycle, 0, rounds) ==
           (if last.Connected? then NextRetry(RetryAfter(cycle, 0, init), CycleSucceeded(cycle, last.session)).0
            else RetryAfter(cycle, 0, init))
      && Outcomes(cycle, rounds) == Outcomes(cycle, init) + (if last.Connected? then [CycleSucceeded(cycle, last.session)] else [])
  {
    var init, last := rounds[..|rounds| - 1], rounds[|rounds| - 1];
    assert rounds == init + [last];
    RetryAfterLast(cycle, 0, init, last);
    OutcomesLast(cycle, init, last);
  }

  lemma TrailingAfter(o: seq<bool>, ok: bool)
    ensures TrailingFailures(o + [ok]) == if ok then 0 else TrailingFailures(o) + 1
  {
    assert (o + [ok])[..|o|] == o;
  }

  /** The stop script is attempted exactly once, as the last thing the task does. */
  lemma {:induction false} StopSequenceOnceAtEnd(cycle: Commands, stopping: Commands, retry: nat, rounds: seq<Round>, stop: StopAttempt)
    requires retry < MAX_RETRIES
    ensures var log := TaskFrom(cycle, stopping, retry, rounds, stop);
      && |log| > 0 && log[|log| - 1] == StopEvent(stopping, stop)
      && forall k :: 0 <= k < |log| - 1 ==> !log[k].StopSequence?
    decreases |rounds|
  {
    if rounds != [] {
      var log := TaskFrom(cycle, stopping, retry, rounds, stop);
      var (head, retry') := RoundStep(cycle, retry, rounds[0]);
      assert forall k :: 0 <= k < |head| ==> !head[k].StopSequence?;
      StopSequenceOnceAtEnd(cycle, stopping, retry', rounds[1..], stop);
      var rest := TaskFrom(cycle, stopping, retry', rounds[1..], stop);
      assert log == head + rest;
      assert forall k :: |head| <= k < |log| ==> log[k] == rest[k - |head|];
    }
  }

  /** One round of the task loop: the cycle script on a connection, and the retry bookkeeping. */
  method RunRound(cycle: Commands, retry: nat, round: Round) returns (events: seq<Event>, retry': nat)
    requires retry < MAX_RETRIES
    ensures events == RoundStep(cycle, retry, round).0 && retry' == RoundStep(cycle, retry, round).1
  {
    match round {
      case ConnectFailed =>
        events, retry' := [Delay(SETUP_FAILURE_DELAY_MS)], retry;
      case Connected(session) =>
        var r := ExecuteSequence(cycle, session);
        var ok := r.Run? && r.ok;
        assert ok == CycleSucceeded(cycle, session);
        events := [Cycle(ok)];
        if ok {
          retry' := 0;
        } else {
          retry' := retry + 1;
          if retry' >= MAX_RETRIES {
            events := events + [Delay(MAX_RETRIES_PAUSE_MS)];
            retry' := 0;
          }
        }
        events := events + [Delay(CYCLE_DELAY_MS)];
    }
  }

  /** The stop connection, when there is one, runs the stop script. */
  method RunStop(stopping: Commands, stop: StopAttempt) returns (e: Event)
    ensures e == StopEvent(stopping, stop)
  {
    match stop {
      case StopConnected(session) =>
        var r := ExecuteSequence(stopping, session);
        e := StopSequence(stop, Some(r));
      case _ =>
        e := StopSequence(stop, None);
    }
  }

  /** `TaskFrom` from round `k` on, after the events `log`: the shape of the loop of `RunTask`. */
  function TaskAt(cycle: Commands, stopping: Commands, retry: nat, rounds: seq<Round>, k: nat, stop: StopAttempt,
                  log: seq<Event>): seq<Event>
    requires retry < MAX_RETRIES && k <= |rounds|
    decreases |rounds| - k
  {
    if k == |rounds| then log + [StopEvent(stopping, stop)]
    else
      var (events, retry') := RoundStep(cycle, retry, rounds[k]);
      TaskAt(cycle, stopping, retry', rounds, k + 1, stop, log + events)
  }

  lemma {:induction false} TaskAtIsTaskFrom(cycle: Commands, stopping: Commands, retry: nat, rounds: seq<Round>, k: nat,
                                            stop: StopAttempt, log: seq<Event>)
    requires retry < MAX_RETRIES && k <= |rounds|
    ensures TaskAt(cycle, stopping, retry, rounds, k, stop, log) == log + TaskFrom(cycle, stopping, retry, rounds[k..], stop)
    decreases |rounds| - k
  {
    if k < |rounds| {
      var (events, retry') := RoundStep(cycle, retry, rounds[k]);
      TaskAtIsTaskFrom(cycle, stopping, retry', rounds, k + 1, stop, log + events);
      assert rounds[k..][1..] == rounds[k + 1..];
      var rest := TaskFrom(cycle, stopping, retry', rounds[k + 1..], stop);
      assert (log + events) + rest == log + (events + rest);
    }
  }

  /** The loop of `telnetClientTask` over its rounds, then the stop sequence. */
  method RunTask(cycle: Commands, stopping: Commands, rounds: seq<Round>, stop: StopAttempt) returns (log: seq<Event>)
    ensures log == TaskFrom(cycle, stopping, 0, rounds, stop)
  {
    var retry := 0;
    var k := 0;
    log := [];
    while k < |rounds|
      invariant 0 <= k <= |rounds| && 0 <= retry < MAX_RETRIES
      invariant TaskAt(cycle, stopping, retry, rounds, k, stop, log) == TaskAt(cycle, stopping, 0, rounds, 0, stop, [])
      decreases |rounds| - k
    {
      var events, retry' := RunRound(cycle, retry, rounds[k]);
      log, retry := log + events, retry';
      k := k + 1;
    }
    var last := RunStop(stopping, stop);
    log := log + [last];
    TaskAtIsTaskFrom(cycle, stopping, 0, rounds, 0, stop, []);
    assert rounds[0..] == rounds;
  }

  /** The module state of the client: the flag `stop()` raises and the task clears. */
  class Client {
    var stopFlag: bool

    constructor ()
      ensures !stopFlag
    {
      stopFlag := false;
    }

    /** `start`: clears the flag before the task is created. */
    method Start()
      modifies this
      ensures !stopFlag
    {
      stopFlag := false;
    }

    /** `stop`: raises the flag; the task sees it at its next loop head. */
    method Stop()
      modifies this
      ensures stopFlag
    {
      stopFlag := true;
    }

    /**
     * `telnetClientTask`, for the rounds it runs before it sees the flag raised: the
     * counter is reset after a successful cycle, incremented after a failed one and reset
     * after a pause on reaching 3; set-up failures leave it alone. Then the stop script is
     * attempted once and the flag is cleared.
     */
    method Task(rounds: seq<Round>, stop: StopAttempt) returns (log: seq<Event>)
      modifies this
      ensures log == TaskFrom(CYCLE_COMMANDS, STOP_COMMANDS, 0, rounds, stop)
      ensures !stopFlag
    {
      log := RunTask(CYCLE_COMMANDS, STOP_COMMANDS, rounds, stop);
      stopFlag := false;
    }
  }
}
