/**
 * The console server on port 23: a line reader that refuses every Telnet option, a
 * session of login, credential check and command loop, and the count of active clients
 * that admission is checked against. `utils::trim` and the two-argument
 * `console::processCommand` are not part of this model: they are passed in as
 * uninterpreted functions `trim` and `dispatch` (the latter giving the responses the
 * dispatcher hands to `sendResponse`, in order).
 */
module TelnetServer {
  import opened Bytes
  import opened Transport
  import opened Telnet

  const ROOT_USER: seq<byte> := Ascii("root")
  const ROOT_PASS: seq<byte> := Ascii("admin")
  const MAX_CLIENTS: int := 4
  const INACTIVITY_TIMEOUT_MS: int := 300000

  /** `recv` reads at most `sizeof(buffer) - 1` bytes into the 128-byte line buffer. */
  const LINE_CAPACITY: nat := 127

  const CR: byte := 13
  const LF: byte := 10

  const LOGIN_PROMPT: seq<byte> := Ascii("Login: ")
  const PASSWORD_PROMPT: seq<byte> := Ascii("Password: ")
  const PROMPT: seq<byte> := Ascii("> ")
  const CRLF: seq<byte> := Ascii("\r\n")
  const EXIT_COMMAND: seq<byte> := Ascii("exit")
  const EXITING: seq<byte> := Ascii("Exiting...")
  const TOO_MANY: seq<byte> := Ascii("Too many connections.\r\n")
  const SERVER_ERROR: seq<byte> := Ascii("Server error.\r\n")

  const AUTH_OK_TEXT: seq<byte> := Ascii("Authenticated.\r\n> ")
  const AUTH_FAILED_TEXT: seq<byte> := Ascii("Authentication failed.\r\n")

  /** The success message as sent: its first 17 bytes. */
  const AUTH_OK_SENT: seq<byte> := AUTH_OK_TEXT[..17]

  /**
   * The failure message as sent: 26 bytes from the start of the literal, that is its 24
   * characters, the terminating NUL, and `beyond`, the byte that follows in memory.
   */
  function AuthFailedSent(beyond: byte): seq<byte>
  {
    AUTH_FAILED_TEXT + [0, beyond]
  }

  /** `now - last_activity` in `uint32_t` arithmetic. */
  function Elapsed(now: int, last: int): (d: int)
    ensures 0 <= d < TWO_32
  {
    (now - last) % TWO_32
  }

  /**
   * The wrap-around subtraction measures true elapsed time: when the readings are the true
   * millisecond times reduced modulo 2^32 and less than 2^32 ms apart, it is their difference,
   * whether or not the counter wrapped in between.
   */
  lemma ElapsedIsWrapSafe(t0: int, t1: int)
    requires t0 <= t1 < t0 + TWO_32
    ensures Elapsed(t1 % TWO_32, t0 % TWO_32) == t1 - t0
  {
    var q0, q1 := t0 / TWO_32, t1 / TWO_32;
    assert t1 % TWO_32 - t0 % TWO_32 == (t1 - t0) - (q1 - q0) * TWO_32;
    ModuloShift(t1 - t0, q0 - q1);
  }

  lemma ModuloShift(d: int, q: int)
    requires 0 <= d < TWO_32
    ensures (d + q * TWO_32) % TWO_32 == d
  {
  }

  // ----- Reading a line -----

  /** The answer to a negotiation command: WON'T to DO and DON'T, DON'T to WILL and WON'T. */
  function Refusal(verb: byte): (r: byte)
    ensures r == WONT || r == DONT
    ensures (verb == DO || verb == DONT) <==> r == WONT
  {
    if verb == DO || verb == DONT then WONT else DONT
  }

  /** How far one chunk got: whether it held the end of the line, the line so far, and the environment. */
  datatype LineScan = LineScan(done: bool, line: seq<byte>, net: Net)

  /**
   * The chunk loop of `receiveLine` from index `j`: a negotiation command lying wholly in
   * the chunk is answered with a refusal (a failed answer is ignored) and skipped; any other
   * IAC byte is skipped alone; a line feed ends the line; carriage returns are dropped.
   */
  function ScanLine(c: seq<byte>, j: nat, line: seq<byte>, n: Net): (r: LineScan)
    requires j <= |c|
    ensures r.net.clock == n.clock && r.net.inbox == n.inbox
    ensures |line| <= |r.line| && r.line[..|line|] == line
    decreases |c| - j
  {
    if j == |c| then LineScan(false, line, n)
    else if c[j] == IAC then
      if j + 2 < |c| && IsVerb(c[j + 1]) then ScanLine(c, j + 3, line, Send(n, Command(Refusal(c[j + 1]), c[j + 2])).1)
      else ScanLine(c, j + 1, line, n)
    else if c[j] == LF then LineScan(true, line, n)
    else if c[j] == CR then ScanLine(c, j + 1, line, n)
    else ScanLine(c, j + 1, line + [c[j]], n)
  }

  /** The chunk loop of `receiveLine` over one chunk. */
  method ScanChunk(c: seq<byte>, line0: seq<byte>, n0: Net) returns (r: LineScan)
    ensures r == ScanLine(c, 0, line0, n0)
  {
    var j := 0;
    var line := line0;
    var net := n0;
    while j < |c|
      invariant 0 <= j <= |c|
      invariant ScanLine(c, j, line, net) == ScanLine(c, 0, line0, n0)
      decreases |c| - j
    {
      if c[j] == IAC {
        if j + 2 < |c| && IsVerb(c[j + 1]) {
          var answered := Send(net, Command(Refusal(c[j + 1]), c[j + 2]));
          net := answered.1;
          j := j + 3;
        } else {
          j := j + 1;
        }
      } else if c[j] == LF {
        return LineScan(true, line, net);
      } else {
        if c[j] != CR {
          line := line + [c[j]];
        }
        j := j + 1;
      }
    }
    r := LineScan(false, line, net);
  }

  /** The text of a chunk free of IAC bytes: everything before the first line feed, carriage returns dropped. */
  function Strip(c: seq<byte>): seq<byte>
  {
    if c == [] || c[0] == LF then []
    else (if c[0] == CR then [] else [c[0]]) + Strip(c[1..])
  }

  /** Without IAC bytes, a chunk adds its text before the first line feed, and ends the line iff it holds one. */
  lemma {:induction false} ScanPlainChunk(c: seq<byte>, j: nat, line: seq<byte>, n: Net)
    requires j <= |c| && Free(c[j..], IAC)
    ensures ScanLine(c, j, line, n) == LineScan(!Free(c[j..], LF), line + Strip(c[j..]), n)
    decreases |c| - j
  {
    if j < |c| {
      assert c[j..][0] == c[j];
      assert c[j..][1..] == c[j + 1..];
      if c[j] != LF {
        ScanPlainChunk(c, j + 1, if c[j] == CR then line else line + [c[j]], n);
        if c[j] != CR {
          assert line + [c[j]] + Strip(c[j + 1..]) == line + ([c[j]] + Strip(c[j + 1..]));
        }
      }
    }
  }

  /** Every answer sent while reading is a refusal: IAC WON'T or IAC DON'T, and the line gets no IAC, CR or LF. */
  predicate Refusals(out: seq<seq<byte>>)
  {
    forall k :: 0 <= k < |out| ==> |out[k]| == 3 && out[k][0] == IAC && (out[k][1] == WONT || out[k][1] == DONT)
  }

  /** A complete negotiation command `IAC verb option` starts at offset `i` of the chunk. */
  predicate CommandAt(c: seq<byte>, i: int)
  {
    0 <= i && i + 2 < |c| && c[i] == IAC && IsVerb(c[i + 1])
  }

  /** Packet `p` refuses a complete command found in `c` at or after `j`: its verb's refusal, with its option. */
  predicate RefusesCommand(c: seq<byte>, j: nat, p: seq<byte>)
  {
    exists i :: j <= i < |c| && CommandAt(c, i) && p == Command(Refusal(c[i + 1]), c[i + 2])
  }

  /** Every packet of `sent` refuses a complete command found in `c` at or after `j`. */
  predicate RefusalsOf(c: seq<byte>, j: nat, sent: seq<seq<byte>>)
  {
    forall k :: 0 <= k < |sent| ==> RefusesCommand(c, j, sent[k])
  }

  predicate CleanLine(line: seq<byte>)
  {
    Free(line, IAC) && Free(line, CR) && Free(line, LF)
  }

  /**
   * Reading a chunk sends only refusals, each the refusal of a complete command of the
   * chunk with that command's option, and the line it builds holds no IAC, CR or LF.
   */
  lemma {:induction false} ScanRefusesAll(c: seq<byte>, j: nat, line: seq<byte>, n: Net)
    requires j <= |c| && CleanLine(line)
    ensures var r := ScanLine(c, j, line, n);
      && |n.out| <= |r.net.out| && r.net.out[..|n.out|] == n.out
      && RefusalsOf(c, j, r.net.out[|n.out|..])
      && Refusals(r.net.out[|n.out|..])
      && CleanLine(r.line)
    decreases |c| - j
  {
    if j < |c| && c[j] != LF {
      if c[j] == IAC {
        if j + 2 < |c| && IsVerb(c[j + 1]) {
          var n' := Send(n, Command(Refusal(c[j + 1]), c[j + 2])).1;
          ScanRefusesAll(c, j + 3, line, n');
          var r := ScanLine(c, j + 3, line, n');
          assert r.net.out[|n.out|..] == n'.out[|n.out|..] + r.net.out[|n'.out|..] by {
            assert r.net.out[..|n'.out|] == n'.out;
          }
          assert n'.out[|n.out|..] == [] || n'.out[|n.out|..] == [Command(Refusal(c[j + 1]), c[j + 2])];
          RefusalsOfJoin(c, j, n'.out[|n.out|..], r.net.out[|n'.out|..]);
        } else {
          ScanRefusesAll(c, j + 1, line, n);
          RefusalsOfLater(c, j, j + 1, ScanLine(c, j + 1, line, n).net.out[|n.out|..]);
        }
      } else if c[j] == CR {
        ScanRefusesAll(c, j + 1, line, n);
        RefusalsOfLater(c, j, j + 1, ScanLine(c, j + 1, line, n).net.out[|n.out|..]);
      } else {
        ScanRefusesAll(c, j + 1, line + [c[j]], n);
        RefusalsOfLater(c, j, j + 1, ScanLine(c, j + 1, line + [c[j]], n).net.out[|n.out|..]);
      }
    }
  }

  /** Refusals of commands from `j'` on are refusals of commands from any earlier `j`. */
  lemma RefusalsOfLater(c: seq<byte>, j: nat, j': nat, sent: seq<seq<byte>>)
    requires j <= j' && RefusalsOf(c, j', sent)
    ensures RefusalsOf(c, j, sent)
  {
    forall k | 0 <= k < |sent|
      ensures RefusesCommand(c, j, sent[k])
    {
      assert RefusesCommand(c, j', sent[k]);
      var i :| j' <= i < |c| && CommandAt(c, i) && sent[k] == Command(Refusal(c[i + 1]), c[i + 2]);
    }
  }

  /** A refusal of the command at `j` (or none), then refusals of commands after it, are refusals of commands from `j`. */
  lemma RefusalsOfJoin(c: seq<byte>, j: nat, first: seq<seq<byte>>, rest: seq<seq<byte>>)
    requires CommandAt(c, j) && RefusalsOf(c, j + 3, rest)
    requires first == [] || first == [Command(Refusal(c[j + 1]), c[j + 2])]
    ensures RefusalsOf(c, j, first + rest)
  {
    var s := first + rest;
    forall k | 0 <= k < |s|
      ensures RefusesCommand(c, j, s[k])
    {
      if k < |first| {
        assert CommandAt(c, j) && s[k] == Command(Refusal(c[j + 1]), c[j + 2]);
      } else {
        assert s[k] == rest[k - |first|];
        var i :| j + 3 <= i < |c| && CommandAt(c, i) && rest[k - |first|] == Command(Refusal(c[i + 1]), c[i + 2]);
      }
    }
  }

  /**
   * A complete `IAC verb option` in a chunk is answered with the refusal of that verb for
   * that option, once, and its three bytes stay out of the line; a failed answer is not retried.
   */
  lemma CommandRefusedOnce(c: seq<byte>, j: nat, line: seq<byte>, n: Net)
    requires CommandAt(c, j)
    ensures n.calls !in n.failing ==>
      ScanLine(c, j, line, n) == ScanLine(c, j + 3, line, n.(calls := n.calls + 1, out := n.out + [[IAC, Refusal(c[j + 1]), c[j + 2]]]))
    ensures n.calls in n.failing ==> ScanLine(c, j, line, n) == ScanLine(c, j + 3, line, n.(calls := n.calls + 1))
  {
  }

  /**
   * An IAC that does not start a complete negotiation command (one followed by anything
   * but DO, DON'T, WILL or WON'T, or lying within two bytes of the chunk's end) is skipped
   * alone: the bytes after it are scanned as ordinary input.
   */
  lemma LoneIacSkipped(c: seq<byte>, j: nat, line: seq<byte>, n: Net)
    requires j < |c| && c[j] == IAC && !CommandAt(c, j)
    ensures ScanLine(c, j, line, n) == ScanLine(c, j + 1, line, n)
  {
  }

  /** A stretch of the chunk without IAC, CR or LF goes into the line unchanged. */
  lemma {:induction false} ScanPlainStretch(c: seq<byte>, j: nat, k: nat, line: seq<byte>, n: Net)
    requires j <= k <= |c| && CleanLine(c[j..k])
    ensures ScanLine(c, j, line, n) == ScanLine(c, k, line + c[j..k], n)
    decreases k - j
  {
    if j == k {
      assert line + c[j..k] == line;
    } else {
      assert c[j..k][0] == c[j];
      assert c[j] != IAC && c[j] != CR && c[j] != LF;
      assert c[j + 1..k] == c[j..k][1..];
      ScanPlainStretch(c, j + 1, k, line + [c[j]], n);
      assert line + [c[j]] + c[j + 1..k] == line + c[j..k];
    }
  }

  /**
   * The server does not parse subnegotiation: for `IAC SB option payload IAC SE` only the
   * two IAC bytes are skipped, and SB, the option, the payload and SE all land in the line.
   */
  lemma SubnegotiationLandsInLine(option: byte, payload: seq<byte>, line: seq<byte>, n: Net)
    requires CleanLine([option] + payload)
    ensures var c := [IAC, SB, option] + payload + [IAC, SE];
      ScanLine(c, 0, line, n) == LineScan(false, line + [SB, option] + payload + [SE], n)
  {
    var c := [IAC, SB, option] + payload + [IAC, SE];
    var e := |c| - 2;
    LoneIacSkipped(c, 0, line, n);
    assert c[1..e] == [SB] + ([option] + payload);
    assert CleanLine(c[1..e]) by {
      forall k | 0 <= k < e - 1
        ensures c[1..e][k] != IAC && c[1..e][k] != CR && c[1..e][k] != LF
      {
        if k > 0 {
          assert c[1..e][k] == ([option] + payload)[k - 1];
        }
      }
    }
    ScanPlainStretch(c, 1, e, line, n);
    var line' := line + c[1..e];
    LoneIacSkipped(c, e, line', n);
    assert c[e + 1..] == [SE];
    ScanPlainStretch(c, e + 1, |c|, line', n);
    assert line' + c[e + 1..|c|] == line + [SB, option] + payload + [SE];
  }

  /** Why `receiveLine` returned. */
  datatype LineEnd =
    | NewLine      // a line feed arrived: the trimmed line is returned
    | ModeFailed   // fcntl() could not make the socket non-blocking
    | TimedOut     // 300 s passed since the last chunk
    | Closed       // recv() returned 0
    | RecvError    // recv() failed
    | SelectError  // select() failed

  /** What `receiveLine` returned, the raw line built so far and why it returned; or a run that was cut off. */
  datatype Line = Line(text: seq<byte>, raw: seq<byte>, why: LineEnd, net: Net) | LineCut

  /** `receiveLine`: the start time is read, the socket made non-blocking, then the polling loop runs. */
  function ReadLine(trim: seq<byte> -> seq<byte>, n: Net): (r: Line)
    ensures r.Line? ==> Budget(r.net) < Budget(n)
  {
    if |n.clock| == 0 then LineCut
    else
      var last := n.clock[0];
      var (ok, n1) := Attempt(Tick(n));
      if !ok then Line([], [], ModeFailed, n1) else LineLoop(trim, last, [], n1)
  }

  /** The polling loop of `receiveLine`; `last` is the time of the last chunk, `line` persists across chunks. */
  function LineLoop(trim: seq<byte> -> seq<byte>, last: int, line: seq<byte>, n: Net): (r: Line)
    ensures r.Line? ==> Budget(r.net) < Budget(n)
    decreases Budget(n)
  {
    if |n.clock| == 0 then LineCut
    else
      var now := n.clock[0];
      var n1 := Tick(n);
      if Elapsed(now, last) >= INACTIVITY_TIMEOUT_MS then Line([], line, TimedOut, n1)
      else if |n1.inbox| == 0 then LineCut
      else
        var n2 := Pop(n1);
        match n1.inbox[0]
        case Quiet => LineLoop(trim, last, line, n2)
        case SelectFailed => Line([], line, SelectError, n2)
        case PeerClosed => Line([], line, Closed, n2)
        case RecvFailed => Line([], line, RecvError, n2)
        case Data(bytes) =>
          var chunk := Take(bytes, LINE_CAPACITY);
          if |chunk| == 0 then Line([], line, Closed, n2)
          else
            var s := ScanLine(chunk, 0, line, n2);
            if s.done then Line(trim(s.line), s.line, NewLine, s.net)
            else LineLoop(trim, now, s.line, s.net)
  }

  /** `receiveLine(sock, client_ip)`. */
  method ReceiveLine(trim: seq<byte> -> seq<byte>, n: Net) returns (r: Line)
    ensures r == ReadLine(trim, n)
  {
    if |n.clock| == 0 {
      return LineCut;
    }
    var last := n.clock[0];
    var mode := Attempt(Tick(n));
    var net := mode.1;
    if !mode.0 {
      return Line([], [], ModeFailed, net);
    }
    var line := [];
    while true
      invariant LineLoop(trim, last, line, net) == ReadLine(trim, n)
      decreases Budget(net)
    {
      if |net.clock| == 0 {
        return LineCut;
      }
      var now := net.clock[0];
      net := Tick(net);
      if Elapsed(now, last) >= INACTIVITY_TIMEOUT_MS {
        return Line([], line, TimedOut, net);
      }
      if |net.inbox| == 0 {
        return LineCut;
      }
      var ready := net.inbox[0];
      net := Pop(net);
      match ready {
        case Quiet =>
        case SelectFailed => return Line([], line, SelectError, net);
        case PeerClosed => return Line([], line, Closed, net);
        case RecvFailed => return Line([], line, RecvError, net);
        case Data(bytes) =>
          var chunk := Take(bytes, LINE_CAPACITY);
          if |chunk| == 0 {
            return Line([], line, Closed, net);
          }
          var s := ScanChunk(chunk, line, net);
          line, net := s.line, s.net;
          if s.done {
            return Line(trim(line), line, NewLine, net);
          }
          last := now;
      }
    }
  }

  /**
   * `receiveLine` returns the trimmed line exactly when a line feed arrived, and then the
   * line holds no IAC, CR or LF; it returns the empty string when the socket could not be
   * made non-blocking, on timeout, on close and on errors. Everything it sends is a refusal.
   */
  lemma ReadLineResult(trim: seq<byte> -> seq<byte>, n: Net)
    ensures var r := ReadLine(trim, n);
      r.Line? ==>
        && (r.why == NewLine ==> r.text == trim(r.raw))
        && (r.why != NewLine ==> r.text == [])
        && CleanLine(r.raw)
        && |n.out| <= |r.net.out| && r.net.out[..|n.out|] == n.out && Refusals(r.net.out[|n.out|..])
  {
    if |n.clock| > 0 && Attempt(Tick(n)).0 {
      LineLoopResult(trim, n.clock[0], [], Attempt(Tick(n)).1);
    }
  }

  lemma {:induction false} LineLoopResult(trim: seq<byte> -> seq<byte>, last: int, line: seq<byte>, n: Net)
    requires CleanLine(line)
    ensures var r := LineLoop(trim, last, line, n);
      r.Line? ==>
        && (r.why == NewLine ==> r.text == trim(r.raw))
        && (r.why != NewLine ==> r.text == [])
        && CleanLine(r.raw)
        && |n.out| <= |r.net.out| && r.net.out[..|n.out|] == n.out && Refusals(r.net.out[|n.out|..])
    decreases Budget(n)
  {
    if |n.clock| > 0 && Elapsed(n.clock[0], last) < INACTIVITY_TIMEOUT_MS && |Tick(n).inbox| > 0 {
      var n2 := Pop(Tick(n));
      match Tick(n).inbox[0]
      case Quiet => LineLoopResult(trim, last, line, n2);
      case SelectFailed =>
      case PeerClosed =>
      case RecvFailed =>
      case Data(bytes) =>
        var chunk := Take(bytes, LINE_CAPACITY);
        if |chunk| > 0 {
          var s := ScanLine(chunk, 0, line, n2);
          ScanRefusesAll(chunk, 0, line, n2);
          if !s.done {
            LineLoopResult(trim, n.clock[0], s.line, s.net);
            var r := LineLoop(trim, n.clock[0], s.line, s.net);
            if r.Line? {
              RefusalsJoin(n2.out, s.net.out, r.net.out);
            }
          }
        }
    }
  }

  lemma RefusalsJoin(a: seq<seq<byte>>, b: seq<seq<byte>>, c: seq<seq<byte>>)
    requires |a| <= |b| && b[..|a|] == a && Refusals(b[|a|..])
    requires |b| <= |c| && c[..|b|] == b && Refusals(c[|b|..])
    ensures |a| <= |c| && c[..|a|] == a && Refusals(c[|a|..])
  {
    assert c[..|a|] == c[..|b|][..|a|];
    forall k | 0 <= k < |c| - |a|
      ensures |c[|a|..][k]| == 3 && c[|a|..][k][0] == IAC && (c[|a|..][k][1] == WONT || c[|a|..][k][1] == DONT)
    {
      if |a| + k < |b| {
        assert c[|a|..][k] == b[|a|..][k];
      } else {
        assert c[|a|..][k] == c[|b|..][|a| + k - |b|];
      }
    }
  }

  // ----- The inactivity timer of `receiveLine` -----

  /**
   * Counting from a timer started at `last`, the `k`-th clock reading is the first one at
   * least 300 s after it, and every poll before that reading found nothing to read.
   */
  predicate QuietUntilTimeout(clock: seq<int>, inbox: seq<Ready>, last: int, k: nat)
  {
    && k < |clock| && k <= |inbox|
    && (forall i :: 0 <= i < k ==> inbox[i] == Quiet)
    && (forall i :: 0 <= i < k ==> Elapsed(clock[i], last) < INACTIVITY_TIMEOUT_MS)
    && Elapsed(clock[k], last) >= INACTIVITY_TIMEOUT_MS
  }

  /**
   * The timer that ran out was started either at `last` or at the last non-empty chunk
   * (the `m`-th poll, restarting it at the `m`-th reading), with only quiet polls after that.
   */
  predicate TimedOutAfterActivity(clock: seq<int>, inbox: seq<Ready>, last: int, k: nat)
  {
    || QuietUntilTimeout(clock, inbox, last, k)
    || exists m :: 0 <= m < k && m < |inbox| && m < |clock| && inbox[m].Data? && Take(inbox[m].bytes, LINE_CAPACITY) != []
                   && QuietUntilTimeout(clock[m + 1..], inbox[m + 1..], clock[m], k - m - 1)
  }

  /**
   * With nothing arriving, the polling loop returns "" on timeout at the first reading 300 s
   * (in 32-bit arithmetic) after `last`, having taken that many readings and quiet polls.
   */
  lemma {:induction false} QuietLineTimesOut(trim: seq<byte> -> seq<byte>, last: int, line: seq<byte>, n: Net, k: nat)
    requires QuietUntilTimeout(n.clock, n.inbox, last, k)
    ensures LineLoop(trim, last, line, n) == Line([], line, TimedOut, n.(clock := n.clock[k + 1..], inbox := n.inbox[k..]))
    decreases k
  {
    if k > 0 {
      assert n.inbox[0] == Quiet && Elapsed(n.clock[0], last) < INACTIVITY_TIMEOUT_MS;
      var n2 := Pop(Tick(n));
      QuietShift(n.clock, n.inbox, last, k);
      QuietLineTimesOut(trim, last, line, n2, k - 1);
      assert n2.clock[k..] == n.clock[k + 1..] && n2.inbox[k - 1..] == n.inbox[k..];
    }
  }

  lemma QuietShift(clock: seq<int>, inbox: seq<Ready>, last: int, k: nat)
    requires k > 0 && QuietUntilTimeout(clock, inbox, last, k)
    ensures QuietUntilTimeout(clock[1..], inbox[1..], last, k - 1)
  {
    forall i | 0 <= i < k - 1
      ensures inbox[1..][i] == Quiet && Elapsed(clock[1..][i], last) < INACTIVITY_TIMEOUT_MS
    {
      assert inbox[1..][i] == inbox[i + 1] && clock[1..][i] == clock[i + 1];
    }
  }

  lemma QuietUnshift(clock: seq<int>, inbox: seq<Ready>, last: int, k: nat)
    requires |clock| > 0 && |inbox| > 0 && inbox[0] == Quiet && Elapsed(clock[0], last) < INACTIVITY_TIMEOUT_MS
    requires QuietUntilTimeout(clock[1..], inbox[1..], last, k)
    ensures QuietUntilTimeout(clock, inbox, last, k + 1)
  {
    forall i | 0 < i < k + 1
      ensures inbox[i] == Quiet && Elapsed(clock[i], last) < INACTIVITY_TIMEOUT_MS
    {
      assert inbox[1..][i - 1] == inbox[i] && clock[1..][i - 1] == clock[i];
    }
    assert clock[1..][k] == clock[k + 1];
  }

  /**
   * The polling loop times out only when the timer ran out: the reading it stopped at is
   * the first one 300 s after `last` or after the last non-empty chunk, with every poll
   * since then quiet.
   */
  lemma {:induction false} TimeoutMeansQuiet(trim: seq<byte> -> seq<byte>, last: int, line: seq<byte>, n: Net)
    ensures var r := LineLoop(trim, last, line, n);
      r.Line? && r.why == TimedOut ==>
        exists k: nat :: TimedOutAfterActivity(n.clock, n.inbox, last, k) && r.net.clock == n.clock[k + 1..] && r.net.inbox == n.inbox[k..]
    decreases Budget(n)
  {
    var r := LineLoop(trim, last, line, n);
    if r.Line? && r.why == TimedOut {
      if Elapsed(n.clock[0], last) >= INACTIVITY_TIMEOUT_MS {
        assert QuietUntilTimeout(n.clock, n.inbox, last, 0);
        assert r.net.clock == n.clock[1..] && r.net.inbox == n.inbox[0..];
      } else {
        var n2 := Pop(Tick(n));
        assert n2.clock == n.clock[1..] && n2.inbox == n.inbox[1..];
        match Tick(n).inbox[0]
        case Quiet =>
          TimeoutMeansQuiet(trim, last, line, n2);
          var k': nat :| TimedOutAfterActivity(n2.clock, n2.inbox, last, k') && r.net.clock == n2.clock[k' + 1..] && r.net.inbox == n2.inbox[k'..];
          ActivityShift(n.clock, n.inbox, last, k', true);
          assert n2.clock[k' + 1..] == n.clock[k' + 2..] && n2.inbox[k'..] == n.inbox[k' + 1..];
          assert TimedOutAfterActivity(n.clock, n.inbox, last, k' + 1);
        case Data(bytes) =>
          var chunk := Take(bytes, LINE_CAPACITY);
          var s := ScanLine(chunk, 0, line, n2);
          TimeoutMeansQuiet(trim, n.clock[0], s.line, s.net);
          var k': nat :| TimedOutAfterActivity(s.net.clock, s.net.inbox, n.clock[0], k') && r.net.clock == s.net.clock[k' + 1..] && r.net.inbox == s.net.inbox[k'..];
          ActivityShift(n.clock, n.inbox, last, k', false);
          assert n2.clock[k' + 1..] == n.clock[k' + 2..] && n2.inbox[k'..] == n.inbox[k' + 1..];
          assert TimedOutAfterActivity(n.clock, n.inbox, last, k' + 1);
      }
    }
  }

  /** One poll further: a quiet poll keeps the timer, a non-empty chunk restarts it at the reading before it. */
  lemma ActivityShift(clock: seq<int>, inbox: seq<Ready>, last: int, k: nat, quiet: bool)
    requires |clock| > 0 && |inbox| > 0
    requires quiet ==> inbox[0] == Quiet && Elapsed(clock[0], last) < INACTIVITY_TIMEOUT_MS
    requires !quiet ==> inbox[0].Data? && Take(inbox[0].bytes, LINE_CAPACITY) != []
    requires TimedOutAfterActivity(clock[1..], inbox[1..], if quiet then last else clock[0], k)
    ensures TimedOutAfterActivity(clock, inbox, last, k + 1)
  {
    var c', i' := clock[1..], inbox[1..];
    if QuietUntilTimeout(c', i', if quiet then last else clock[0], k) {
      if quiet {
        QuietUnshift(clock, inbox, last, k);
      } else {
        assert QuietUntilTimeout(clock[0 + 1..], inbox[0 + 1..], clock[0], k + 1 - 0 - 1);
      }
    } else {
      var m :| 0 <= m < k && m < |i'| && m < |c'| && i'[m].Data? && Take(i'[m].bytes, LINE_CAPACITY) != []
               && QuietUntilTimeout(c'[m + 1..], i'[m + 1..], c'[m], k - m - 1);
      assert c'[m + 1..] == clock[m + 2..] && i'[m + 1..] == inbox[m + 2..] && c'[m] == clock[m + 1] && i'[m] == inbox[m + 1];
      assert QuietUntilTimeout(clock[(m + 1) + 1..], inbox[(m + 1) + 1..], clock[m + 1], (k + 1) - (m + 1) - 1);
    }
  }

  /**
   * `receiveLine` on a silent connection: once the socket is non-blocking, it returns ""
   * at the first reading 300 s after the one taken on entry.
   */
  lemma SilentReceiveTimesOut(trim: seq<byte> -> seq<byte>, n: Net, k: nat)
    requires |n.clock| > 0 && n.calls !in n.failing
    requires QuietUntilTimeout(n.clock[1..], n.inbox, n.clock[0], k)
    ensures ReadLine(trim, n) == Line([], [], TimedOut, n.(clock := n.clock[k + 2..], inbox := n.inbox[k..], calls := n.calls + 1))
  {
    var n1 := Attempt(Tick(n)).1;
    QuietLineTimesOut(trim, n.clock[0], [], n1, k);
    assert n1.clock[k + 1..] == n.clock[k + 2..];
  }

  // ----- A session -----

  /** `sendResponse`: nothing for an empty response; otherwise the response, then CR LF unless that send failed. */
  function Respond(response: seq<byte>, n: Net): (r: (bool, Net))
    ensures r.1.clock == n.clock && r.1.inbox == n.inbox
    ensures response == [] ==> r == (true, n)
    ensures r.0 && response != [] ==> r.1.out == n.out + [response, CRLF]
    ensures !r.0 ==> response != [] && (r.1.out == n.out || r.1.out == n.out + [response])
  {
    if response == [] then (true, n)
    else
      var (ok, n1) := Send(n, response);
      if !ok then (false, n1)
      else
        var (ok2, n2) := Send(n1, CRLF);
        (ok2, n2)
  }

  /** `sendResponse(response)`. */
  method SendResponse(response: seq<byte>, n: Net) returns (ok: bool, n': Net)
    ensures ok == Respond(response, n).0 && n' == Respond(response, n).1
  {
    if response == [] {
      return true, n;
    }
    var first := Send(n, response);
    if !first.0 {
      return false, first.1;
    }
    var second := Send(first.1, CRLF);
    ok, n' := second.0, second.1;
  }

  /** The dispatcher's responses, each passed to `sendResponse` in turn (its result is not used). */
  function RespondAll(responses: seq<seq<byte>>, n: Net): (r: Net)
    ensures r.clock == n.clock && r.inbox == n.inbox
  {
    if responses == [] then n else RespondAll(responses[1..], Respond(responses[0], n).1)
  }

  /** `console::processCommand(commandStr, sendResponse)`, with the responses the dispatcher produces. */
  method Dispatch(responses: seq<seq<byte>>, n: Net) returns (n': Net)
    ensures n' == RespondAll(responses, n)
  {
    var k := 0;
    n' := n;
    while k < |responses|
      invariant 0 <= k <= |responses|
      invariant RespondAll(responses[k..], n') == RespondAll(responses, n)
    {
      assert responses[k..][1..] == responses[k + 1..];
      var _, next := SendResponse(responses[k], n');
      n' := next;
      k := k + 1;
    }
    assert responses[k..] == [];
  }

  /** Why a session ended. */
  datatype Exit =
    | InvalidSocket         // fcntl(F_GETFL) failed
    | NegotiationFailed     // IAC WILL SGA could not be sent
    | LoginPromptFailed
    | NoUsername            // the user-name line was empty
    | PasswordPromptFailed
    | NoPassword            // the password line was empty
    | AuthMessageFailed     // the credentials matched but the message could not be sent
    | AuthFailed            // the credentials did not match
    | InactivityTimeout     // an empty line came 300 s or more after the last activity
    | SocketError           // an empty line came and SO_ERROR reported an error
    | PromptFailed          // "> " could not be sent
    | ExitRequested         // the command was "exit"

  /** The login phase: admitted with the credentials, or ended; or a run that was cut off. */
  datatype Login =
    | Admitted(user: seq<byte>, pass: seq<byte>, net: Net)
    | Rejected(exit: Exit, user: seq<byte>, pass: seq<byte>, net: Net)
    | LoginCut

  /**
   * The login phase of `handleClient`: the socket is checked, SGA offered, then a user name
   * and a password are read after their prompts; an empty line ends the session, matching
   * credentials get the success message and anything else the failure message.
   */
  function LoginPhase(trim: seq<byte> -> seq<byte>, beyond: byte, n: Net): Login
  {
    var (valid, n1) := Attempt(n);
    if !valid then Rejected(InvalidSocket, [], [], n1)
    else
      var (offered, n2) := Send(n1, Command(WILL, SGA));
      if !offered then Rejected(NegotiationFailed, [], [], n2)
      else
        var (asked, n3) := Send(n2, LOGIN_PROMPT);
        if !asked then Rejected(LoginPromptFailed, [], [], n3)
        else
          match ReadLine(trim, n3)
          case LineCut => LoginCut
          case Line(user, _, _, n4) =>
            if user == [] then Rejected(NoUsername, [], [], n4)
            else
              var (asked2, n5) := Send(n4, PASSWORD_PROMPT);
              if !asked2 then Rejected(PasswordPromptFailed, user, [], n5)
              else
                match ReadLine(trim, n5)
                case LineCut => LoginCut
                case Line(pass, _, _, n6) =>
                  if pass == [] then Rejected(NoPassword, user, [], n6)
                  else if user == ROOT_USER && pass == ROOT_PASS then
                    var (told, n7) := Send(n6, AUTH_OK_SENT);
                    if !told then Rejected(AuthMessageFailed, user, pass, n7) else Admitted(user, pass, n7)
                  else
                    Rejected(AuthFailed, user, pass, Send(n6, AuthFailedSent(beyond)).1)
  }

  /**
   * Authentication succeeds exactly for the user name "root" with the password "admin";
   * an empty line ends the session before any comparison, and a mismatch ends it at once.
   */
  lemma AuthenticatesExactlyRoot(trim: seq<byte> -> seq<byte>, beyond: byte, n: Net)
    ensures var r := LoginPhase(trim, beyond, n);
      && (r.Admitted? ==> r.user == ROOT_USER && r.pass == ROOT_PASS)
      && (r.Rejected? ==> (r.exit == AuthMessageFailed <==> r.user == ROOT_USER && r.pass == ROOT_PASS))
      && (r.Rejected? && r.exit == AuthFailed ==> r.user != [] && r.pass != [])
      && (r.Rejected? ==> r.exit in {InvalidSocket, NegotiationFailed, LoginPromptFailed, NoUsername,
                                     PasswordPromptFailed, NoPassword, AuthMessageFailed, AuthFailed})
  {
  }

  /** The command loop's result: why it ended and the non-empty lines it received; or a run cut off. */
  datatype Served = Served(exit: Exit, commands: seq<seq<byte>>, net: Net) | ServedCut

  /** The command loop of `handleClient`: the start of the inactivity timer is read, then the loop runs. */
  function Repl(trim: seq<byte> -> seq<byte>, dispatch: seq<byte> -> seq<seq<byte>>, n: Net): Served
  {
    if |n.clock| == 0 then ServedCut else ReplLoop(trim, dispatch, n.clock[0], [], Tick(n))
  }

  /** How one round of the command loop ends: with the timer, lines and state of the next round, or with the session's end. */
  datatype Round = Next(last: int, commands: seq<seq<byte>>, net: Net) | Done(served: Served)

  /**
   * One round: one line. An empty line ends the session on inactivity or a socket error and
   * otherwise gets a new prompt and restarts the timer; "exit" (after trimming) gets
   * "Exiting..." and ends the session; any other line goes to the dispatcher, then "> ".
   */
  function ReplRound(trim: seq<byte> -> seq<byte>, dispatch: seq<byte> -> seq<seq<byte>>, last: int,
                     commands: seq<seq<byte>>, n: Net): (r: Round)
    ensures r.Next? ==> Budget(r.net) < Budget(n)
  {
    match ReadLine(trim, n)
    case LineCut => Done(ServedCut)
    case Line(text, _, _, n1) =>
      if |n1.clock| == 0 then Done(ServedCut)
      else
        var now := n1.clock[0];
        var n2 := Tick(n1);
        if text == [] then
          if Elapsed(now, last) >= INACTIVITY_TIMEOUT_MS then Done(Served(InactivityTimeout, commands, n2))
          else
            var (healthy, n3) := Attempt(n2);
            if !healthy then Done(Served(SocketError, commands, n3))
            else
              var (prompted, n4) := Send(n3, PROMPT);
              if !prompted then Done(Served(PromptFailed, commands, n4))
              else Next(now, commands, n4)
        else if trim(text) == EXIT_COMMAND then
          Done(Served(ExitRequested, commands + [text], Respond(EXITING, n2).1))
        else
          var (prompted, n4) := Send(RespondAll(dispatch(text), n2), PROMPT);
          if !prompted then Done(Served(PromptFailed, commands + [text], n4))
          else Next(now, commands + [text], n4)
  }

  /** The command loop: rounds until one ends the session. */
  function ReplLoop(trim: seq<byte> -> seq<byte>, dispatch: seq<byte> -> seq<seq<byte>>, last: int,
                    commands: seq<seq<byte>>, n: Net): Served
    decreases Budget(n)
  {
    match ReplRound(trim, dispatch, last, commands, n)
    case Done(r) => r
    case Next(now, commands', n') => ReplLoop(trim, dispatch, now, commands', n')
  }

  /** The round reached after `i` more rounds from `s`, or the end of the session if it came first. */
  function RoundAfter(trim: seq<byte> -> seq<byte>, dispatch: seq<byte> -> seq<seq<byte>>, s: Round, i: nat): Round
    decreases i
  {
    if i == 0 || s.Done? then s
    else RoundAfter(trim, dispatch, ReplRound(trim, dispatch, s.last, s.commands, s.net), i - 1)
  }

  /**
   * The round `s` ends the session as idle, leaving `n'`: its line is empty and the reading
   * taken after it is at least 300 s after the round's timer start.
   */
  predicate IdleRound(trim: seq<byte> -> seq<byte>, s: Round, n': Net)
  {
    && s.Next?
    && var line := ReadLine(trim, s.net);
    && line.Line? && line.text == [] && |line.net.clock| > 0
    && Elapsed(line.net.clock[0], s.last) >= INACTIVITY_TIMEOUT_MS
    && n' == Tick(line.net)
  }

  /**
   * The inactivity timer of the command loop: when `receiveLine` returns "" on a silent
   * connection and the reading after it is 300 s past the last activity, the session ends
   * as inactive, with no command added and nothing sent.
   */
  lemma ReplSilentTimesOut(trim: seq<byte> -> seq<byte>, dispatch: seq<byte> -> seq<seq<byte>>, last: int,
                           commands: seq<seq<byte>>, n: Net, k: nat)
    requires k + 2 < |n.clock| && n.calls !in n.failing
    requires QuietUntilTimeout(n.clock[1..], n.inbox, n.clock[0], k)
    requires Elapsed(n.clock[k + 2], last) >= INACTIVITY_TIMEOUT_MS
    ensures ReplLoop(trim, dispatch, last, commands, n) ==
      Served(InactivityTimeout, commands, n.(clock := n.clock[k + 3..], inbox := n.inbox[k..], calls := n.calls + 1))
  {
    SilentReceiveTimesOut(trim, n, k);
    var n1 := n.(clock := n.clock[k + 2..], inbox := n.inbox[k..], calls := n.calls + 1);
    assert n1.clock[0] == n.clock[k + 2];
    assert Tick(n1).clock == n.clock[k + 3..];
  }

  /**
   * Conversely, a session that ends as inactive does so in a round reached from the start
   * whose line was empty and whose following reading is at least 300 s after its timer start.
   */
  lemma {:induction false} InactivityMeansIdle(trim: seq<byte> -> seq<byte>, dispatch: seq<byte> -> seq<seq<byte>>,
                                               last: int, commands: seq<seq<byte>>, n: Net)
    ensures var r := ReplLoop(trim, dispatch, last, commands, n);
      r.Served? && r.exit == InactivityTimeout ==>
        exists i: nat :: var s := RoundAfter(trim, dispatch, Next(last, commands, n), i);
          && IdleRound(trim, s, r.net) && s.commands == r.commands
          && ReplRound(trim, dispatch, s.last, s.commands, s.net) == Done(r)
    decreases Budget(n)
  {
    var r := ReplLoop(trim, dispatch, last, commands, n);
    if r.Served? && r.exit == InactivityTimeout {
      var s0 := Next(last, commands, n);
      match ReplRound(trim, dispatch, last, commands, n)
      case Done(_) =>
        assert RoundAfter(trim, dispatch, s0, 0) == s0;
        assert IdleRound(trim, s0, r.net);
      case Next(now, commands', n') =>
        InactivityMeansIdle(trim, dispatch, now, commands', n');
        var i: nat :| var s := RoundAfter(trim, dispatch, Next(now, commands', n'), i);
          && IdleRound(trim, s, r.net) && s.commands == r.commands
          && ReplRound(trim, dispatch, s.last, s.commands, s.net) == Done(r);
        assert RoundAfter(trim, dispatch, s0, i + 1) == RoundAfter(trim, dispatch, Next(now, commands', n'), i);
    }
  }

  /** No command in the list is empty, and none asks to exit. */
  predicate Ordinary(trim: seq<byte> -> seq<byte>, commands: seq<seq<byte>>)
  {
    forall k :: 0 <= k < |commands| ==> commands[k] != [] && trim(commands[k]) != EXIT_COMMAND
  }

  /**
   * The command loop ends on "exit" exactly when the last line it received trims to "exit":
   * every earlier line was an ordinary command passed to the dispatcher.
   */
  lemma {:induction false} ReplEndsOnExit(trim: seq<byte> -> seq<byte>, dispatch: seq<byte> -> seq<seq<byte>>,
                                          last: int, commands: seq<seq<byte>>, n: Net)
    requires Ordinary(trim, commands)
    ensures EndsOnExit(trim, commands, ReplLoop(trim, dispatch, last, commands, n))
    decreases Budget(n)
  {
    match ReadLine(trim, n)
    case LineCut =>
    case Line(text, _, _, n1) =>
      if |n1.clock| > 0 {
        var now := n1.clock[0];
        var n2 := Tick(n1);
        if text == [] {
          if Elapsed(now, last) < INACTIVITY_TIMEOUT_MS {
            var (healthy, n3) := Attempt(n2);
            if healthy {
              ReplEndsOnExit(trim, dispatch, now, commands, Send(n3, PROMPT).1);
            }
          }
        } else if trim(text) == EXIT_COMMAND {
          ExitEndsOnExit(trim, commands, text, Respond(EXITING, n2).1);
        } else {
          var (prompted, n4) := Send(RespondAll(dispatch(text), n2), PROMPT);
          OrdinaryExtends(trim, commands, text);
          if prompted {
            ReplEndsOnExit(trim, dispatch, now, commands + [text], n4);
            EndsOnExitShrinks(trim, commands, text, ReplLoop(trim, dispatch, now, commands + [text], n4));
          } else {
            EndsOnExitShrinks(trim, commands, text, Served(PromptFailed, commands + [text], n4));
          }
        }
      }
  }

  /**
   * A command loop result `r` that started from the received lines `commands`: the lines
   * grow from those, and the loop ended on "exit" exactly when the last line trims to it.
   */
  predicate EndsOnExit(trim: seq<byte> -> seq<byte>, commands: seq<seq<byte>>, r: Served)
  {
    r.Served? ==>
      && |commands| <= |r.commands| && r.commands[..|commands|] == commands
      && (r.exit == ExitRequested <==> |r.commands| > 0 && trim(r.commands[|r.commands| - 1]) == EXIT_COMMAND)
      && (r.exit == ExitRequested ==> Ordinary(trim, r.commands[..|r.commands| - 1]) && r.commands[|r.commands| - 1] != [])
      && (r.exit != ExitRequested ==> Ordinary(trim, r.commands))
  }

  lemma OrdinaryExtends(trim: seq<byte> -> seq<byte>, commands: seq<seq<byte>>, text: seq<byte>)
    requires Ordinary(trim, commands) && text != [] && trim(text) != EXIT_COMMAND
    ensures Ordinary(trim, commands + [text])
  {
  }

  lemma ExitEndsOnExit(trim: seq<byte> -> seq<byte>, commands: seq<seq<byte>>, text: seq<byte>, n: Net)
    requires Ordinary(trim, commands) && text != [] && trim(text) == EXIT_COMMAND
    ensures EndsOnExit(trim, commands, Served(ExitRequested, commands + [text], n))
  {
    var c := commands + [text];
    assert c[..|commands|] == commands;
    assert c[..|c| - 1] == commands;
  }

  lemma EndsOnExitShrinks(trim: seq<byte> -> seq<byte>, commands: seq<seq<byte>>, text: seq<byte>, r: Served)
    requires EndsOnExit(trim, commands + [text], r)
    ensures EndsOnExit(trim, commands, r)
  {
    if r.Served? {
      var c := commands + [text];
      assert r.commands[..|commands|] == r.commands[..|c|][..|commands|];
    }
  }

  /** The end of a session: why it ended, the credentials read and the commands received; or a run cut off. */
  datatype Session = Session(exit: Exit, user: seq<byte>, pass: seq<byte>, commands: seq<seq<byte>>, net: Net) | SessionCut

  /** All of `handleClient` between the counter update and `cleanupClient`. */
  function Serve(trim: seq<byte> -> seq<byte>, dispatch: seq<byte> -> seq<seq<byte>>, beyond: byte, n: Net): Session
  {
    match LoginPhase(trim, beyond, n)
    case LoginCut => SessionCut
    case Rejected(exit, user, pass, n1) => Session(exit, user, pass, [], n1)
    case Admitted(user, pass, n1) =>
      match Repl(trim, dispatch, n1)
      case ServedCut => SessionCut
      case Served(exit, commands, n2) => Session(exit, user, pass, commands, n2)
  }

  /**
   * A command reaches the dispatcher only in an authenticated session: a session that
   * received any command had the credentials root/admin.
   */
  lemma CommandsNeedAuthentication(trim: seq<byte> -> seq<byte>, dispatch: seq<byte> -> seq<seq<byte>>, beyond: byte, n: Net)
    ensures var s := Serve(trim, dispatch, beyond, n);
      s.Session? && s.commands != [] ==> s.user == ROOT_USER && s.pass == ROOT_PASS
  {
    AuthenticatesExactlyRoot(trim, beyond, n);
  }

  /** The login phase of `handleClient`. */
  method LogIn(trim: seq<byte> -> seq<byte>, beyond: byte, n: Net) returns (r: Login)
    ensures r == LoginPhase(trim, beyond, n)
  {
    var valid := Attempt(n);
    if !valid.0 {
      return Rejected(InvalidSocket, [], [], valid.1);
    }
    var offered := Send(valid.1, Command(WILL, SGA));
    if !offered.0 {
      return Rejected(NegotiationFailed, [], [], offered.1);
    }
    var asked := Send(offered.1, LOGIN_PROMPT);
    if !asked.0 {
      return Rejected(LoginPromptFailed, [], [], asked.1);
    }
    var user := ReceiveLine(trim, asked.1);
    if user.LineCut? {
      return LoginCut;
    }
    if user.text == [] {
      return Rejected(NoUsername, [], [], user.net);
    }
    var asked2 := Send(user.net, PASSWORD_PROMPT);
    if !asked2.0 {
      return Rejected(PasswordPromptFailed, user.text, [], asked2.1);
    }
    var pass := ReceiveLine(trim, asked2.1);
    if pass.LineCut? {
      return LoginCut;
    }
    if pass.text == [] {
      return Rejected(NoPassword, user.text, [], pass.net);
    }
    if user.text == ROOT_USER && pass.text == ROOT_PASS {
      var told := Send(pass.net, AUTH_OK_SENT);
      if !told.0 {
        return Rejected(AuthMessageFailed, user.text, pass.text, told.1);
      }
      return Admitted(user.text, pass.text, told.1);
    }
    var told := Send(pass.net, AuthFailedSent(beyond));
    r := Rejected(AuthFailed, user.text, pass.text, told.1);
  }

  /** The command loop of `handleClient`. */
  method RunRepl(trim: seq<byte> -> seq<byte>, dispatch: seq<byte> -> seq<seq<byte>>, n: Net) returns (r: Served)
    ensures r == Repl(trim, dispatch, n)
  {
    if |n.clock| == 0 {
      return ServedCut;
    }
    var last := n.clock[0];
    var net := Tick(n);
    var commands := [];
    while true
      invariant ReplLoop(trim, dispatch, last, commands, net) == Repl(trim, dispatch, n)
      decreases Budget(net)
    {
      var line := ReceiveLine(trim, net);
      if line.LineCut? {
        return ServedCut;
      }
      net := line.net;
      if |net.clock| == 0 {
        return ServedCut;
      }
      var now := net.clock[0];
      net := Tick(net);
      if line.text == [] {
        if Elapsed(now, last) >= INACTIVITY_TIMEOUT_MS {
          return Served(InactivityTimeout, commands, net);
        }
        var healthy := Attempt(net);
        net := healthy.1;
        if !healthy.0 {
          return Served(SocketError, commands, net);
        }
        var prompted := Send(net, PROMPT);
        net := prompted.1;
        if !prompted.0 {
          return Served(PromptFailed, commands, net);
        }
        last := now;
      } else {
        commands := commands + [line.text];
        if trim(line.text) == EXIT_COMMAND {
          var _, said := SendResponse(EXITING, net);
          return Served(ExitRequested, commands, said);
        }
        net := Dispatch(dispatch(line.text), net);
        var prompted := Send(net, PROMPT);
        net := prompted.1;
        if !prompted.0 {
          return Served(PromptFailed, commands, net);
        }
        last := now;
      }
    }
  }

  // ----- The server -----

  /** What the accept loop does with a new connection. */
  datatype Admission = Spawned | TooManyClients | NoMemory

  /**
   * The admission check: at 4 or more active clients the connection gets "Too many
   * connections." and is closed; when the client record cannot be allocated it gets
   * "Server error."; otherwise a handler is spawned (the send results are not used).
   */
  function Admit(active: int, hasMemory: bool, n: Net): (r: (Admission, Net))
  {
    if active >= MAX_CLIENTS then (TooManyClients, Send(n, TOO_MANY).1)
    else if !hasMemory then (NoMemory, Send(n, SERVER_ERROR).1)
    else (Spawned, n)
  }

  /** A handler is spawned exactly below 4 active clients with memory available; a refused client gets one notice at most. */
  lemma AdmissionRule(active: int, hasMemory: bool, n: Net)
    ensures var (a, n') := Admit(active, hasMemory, n);
      && (a == Spawned <==> active < MAX_CLIENTS && hasMemory)
      && (a == Spawned ==> n' == n)
      && (a == TooManyClients ==> n'.out == n.out || n'.out == n.out + [TOO_MANY])
      && (a == NoMemory ==> active < MAX_CLIENTS && (n'.out == n.out || n'.out == n.out + [SERVER_ERROR]))
  {
  }

  /** The module state of the server: the number of client handlers running. */
  class Server {
    var activeClients: int

    constructor ()
      ensures activeClients == 0
    {
      activeClients := 0;
    }

    /** The admission check of the accept loop, against the current count. */
    method Accept(hasMemory: bool, n: Net) returns (a: Admission, n': Net)
      ensures a == Admit(activeClients, hasMemory, n).0 && n' == Admit(activeClients, hasMemory, n).1
    {
      if activeClients >= MAX_CLIENTS {
        var notice := Send(n, TOO_MANY);
        return TooManyClients, notice.1;
      }
      if !hasMemory {
        var notice := Send(n, SERVER_ERROR);
        return NoMemory, notice.1;
      }
      a, n' := Spawned, n;
    }

    /** The counter update of `cleanupClient`. */
    method CleanupClient()
      modifies this
      ensures activeClients == old(activeClients) - 1
    {
      activeClients := activeClients - 1;
    }

    /**
     * `handleClient`: the counter is incremented on entry, before authentication, and
     * every way out of the session goes through `cleanupClient`, so a session that ends
     * leaves the counter where it found it.
     */
    method HandleClient(trim: seq<byte> -> seq<byte>, dispatch: seq<byte> -> seq<seq<byte>>, beyond: byte, n: Net)
      returns (s: Session)
      modifies this
      ensures s == Serve(trim, dispatch, beyond, n)
      ensures s.Session? ==> activeClients == old(activeClients)
      ensures s.SessionCut? ==> activeClients == old(activeClients) + 1
    {
      activeClients := activeClients + 1;
      var login := LogIn(trim, beyond, n);
      match login {
        case LoginCut =>
          return SessionCut;
        case Rejected(exit, user, pass, n1) =>
          CleanupClient();
          return Session(exit, user, pass, [], n1);
        case Admitted(user, pass, n1) =>
          var served := RunRepl(trim, dispatch, n1);
          if served.ServedCut? {
            return SessionCut;
          }
          CleanupClient();
          s := Session(served.exit, user, pass, served.commands, served.net);
      }
    }
  }

  /**
   * Clients served one after another: each accepted connection is admitted against a count
   * of 0 and its handler runs to its end before the next accept. So every client with
   * memory available is admitted, each session is exactly the one that client would have
   * alone, and the count is back to 0 after each session; only a session cut off ends the run.
   */
  method ServeInTurn(server: Server, trim: seq<byte> -> seq<byte>, dispatch: seq<byte> -> seq<seq<byte>>,
                     beyond: byte, connections: seq<Net>) returns (admissions: seq<Admission>, sessions: seq<Session>)
    requires server.activeClients == 0
    modifies server
    ensures |admissions| == |sessions| <= |connections|
    ensures forall k :: 0 <= k < |admissions| ==> admissions[k] == Spawned
    ensures forall k :: 0 <= k < |sessions| ==> sessions[k] == Serve(trim, dispatch, beyond, connections[k])
    ensures forall k :: 0 <= k < |sessions| - 1 ==> sessions[k].Session?
    ensures |sessions| == |connections| || (|sessions| > 0 && sessions[|sessions| - 1].SessionCut?)
    ensures server.activeClients == 0 || (|sessions| > 0 && sessions[|sessions| - 1].SessionCut? && server.activeClients == 1)
  {
    admissions, sessions := [], [];
    var k := 0;
    while k < |connections|
      invariant 0 <= k <= |connections| && |admissions| == |sessions| == k
      invariant server.activeClients == 0
      invariant forall i :: 0 <= i < k ==> admissions[i] == Spawned
      invariant forall i :: 0 <= i < k ==> sessions[i] == Serve(trim, dispatch, beyond, connections[i]) && sessions[i].Session?
    {
      var a, n := server.Accept(true, connections[k]);
      var s := server.HandleClient(trim, dispatch, beyond, n);
      admissions, sessions := admissions + [a], sessions + [s];
      if s.SessionCut? {
        return;
      }
      k := k + 1;
    }
  }

  // ----- The fixed messages -----

  /**
   * The byte counts passed to `send` for the two authentication messages do not match the
   * texts: the success message loses its last character (the space after "> "), and the
   * failure message is followed by its NUL and one more byte from beyond the literal.
   */
  lemma AuthMessagesAsWritten(beyond: byte)
    ensures |AUTH_OK_TEXT| == 18 && |AUTH_OK_SENT| == 17 && AUTH_OK_SENT == Ascii("Authenticated.\r\n>")
    ensures |AUTH_FAILED_TEXT| == 24 && |AuthFailedSent(beyond)| == 26
    ensures AuthFailedSent(beyond)[..24] == AUTH_FAILED_TEXT && AuthFailedSent(beyond)[24] == 0
  {
  }

  /** The messages meant: each text in full, without its terminator. */
  function IntendedAuthMessage(authenticated: bool): seq<byte>
  {
    if authenticated then AUTH_OK_TEXT else AUTH_FAILED_TEXT
  }

  /**
   * The intended messages hold no NUL. The success message is what is sent now plus the
   * missing space, so it ends with the whole prompt "> ". What is sent on failure is the
   * intended message followed by two stray bytes.
   */
  lemma IntendedAuthMessagesWhole(beyond: byte)
    ensures Free(IntendedAuthMessage(true), 0) && Free(IntendedAuthMessage(false), 0)
    ensures IntendedAuthMessage(true) == AUTH_OK_SENT + [' ' as byte]
    ensures IntendedAuthMessage(true)[|IntendedAuthMessage(true)| - 2..] == PROMPT
    ensures AuthFailedSent(beyond) == IntendedAuthMessage(false) + [0, beyond]
  {
    AsciiFree("Authenticated.\r\n> ");
    AsciiFree("Authentication failed.\r\n");
    assert AUTH_OK_TEXT == AUTH_OK_TEXT[..17] + [AUTH_OK_TEXT[17]];
  }
}
