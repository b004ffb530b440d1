# ESP32 network core: DNS relay, F660 telnet client, telnet console server, UART console, Wi-Fi core

This project models, in Dafny, the network-facing core of an ESP32 firmware. The firmware
runs a soft access point and offers a small set of services on it.

- **DNS relay** (`dns_server.cpp`). It receives one UDP datagram at a time into a 512-byte
  buffer. It drops short and loopback datagrams and scans the question name. It then tries
  the configured forwarders in order and relays the first reply that does not come from a
  loopback address. When no reply is relayed and the type code it computed is 1, it patches
  a fallback A answer for 192.168.6.1 into the same buffer and sends that.
- **F660 telnet client** (`f660.cpp`). It logs into a ZTE F660 router over telnet. It
  negotiates options, waits for the login, password and shell prompts, and runs a command
  script (bring `eth3` down and up). It retries with a counter of three. When asked to stop,
  it runs a stop script once.
- **Telnet console server** (`telnet_server.cpp`). It refuses a new client when four are already counted. Each
  client must log in as root/admin. The server then reads command lines and passes them to
  the console dispatcher, answering every line with `"> "`. It ends a session on `exit`, on
  inactivity, or on a socket error.
- **UART console** (`console.cpp`). It maps a trimmed command text to a response and a
  platform effect: deep sleep, restart, or starting or stopping the F660 task. The UART
  task reads into a 128-byte buffer and ends on `exit`.
- **Wi-Fi core** (`wifi_core.cpp`). It does one-time initialisation of the driver in AP+STA
  mode and validates channels against the range 1–13.

Sockets, clocks and the UART are replaced by an oracle, `Transport.Net`, which has these
parts:

- a list of clock readings;
- a list of readiness results (quiet, data, peer closed, receive failed, select failed);
- the set of call numbers at which a socket call fails;
- the log of all bytes sent.

Running out of clock readings or input ends a run as "cut". No real run does that: the
lists only bound how far the model follows a loop that never ends by itself.

Where the code is stateful, the model keeps that form:

- The 512-byte DNS buffer is an `array` that the datagram handler updates in place. A
  specification function `DnsServer.Relay` describes the same update.
- The module variables become classes: `DnsService`, `F660.Client`, `TelnetServer.Server`
  and `WifiCore.Core`.
- Every loop is a `while` loop proved against a recursive specification function. Lemmas
  then establish the properties of those functions.

The model follows the code where it differs from the firmware's intended design:

- For an unknown name with no forwarder reply, the relay sends no NXDOMAIN (or any other)
  error; it sends nothing.
- The telnet server increments its client counter when the handler starts, not after
  authentication.
- In the F660 task, a failed socket setup or connect does not touch the retry counter. Only
  a cycle that ran on an established connection does.
- The DNS fallback writes 17 answer bytes, not a 16-byte record, starting at
  `12 + qname_len + 4`. It sends `qname_len + 33` bytes, and its writes run past the
  512-byte buffer once `qname_len >= 480`.

The modules are:

- `Bytes` (prelude.dfy): bytes, big-endian fields, `Take`, substring search.
- `Transport`: the socket and clock oracle.
- `Telnet`: the RFC 854 command bytes.
- `DnsWire`: the RFC 1035 layout, the answer bytes, and the intended variants.
- `DnsServer`, `F660`, `TelnetServer`, `Console` and `WifiCore`, one module per core file.

## Model

| member | source | states |
|---|---|---|
| DnsServer.LoopbackIffFirstOctet | src/dns_server.cpp:42-44 | an address is loopback exactly when its first octet is 127, whatever the other three |
| DnsServer.IsLoopback | src/dns_server.cpp:42-44 | the definition of `is_loopback`: the address, in host byte order, has 127 as its top octet |
| DnsServer.NameEnd | src/dns_server.cpp:101-102 | the name scan stops at the first zero byte after offset 12, or at `len - 12` when it finds none; every byte it passes is non-zero |
| DnsServer.ScanName | src/dns_server.cpp:101-102 | the scan loop over the array computes `NameEnd`, and it reads `buffer[512]` (past the array) exactly when a 512-byte datagram has no zero byte after the header |
| DnsServer.QType | src/dns_server.cpp:105 | the definition of the type code: the byte at `12 + qname_len` times 256 plus the byte after it, as the unsigned shift and or compute |
| DnsServer.Receive | src/dns_server.cpp:90-91 | `recvfrom` overwrites the front of the buffer with the datagram and keeps the stale rest |
| DnsServer.ForwardFrom | src/dns_server.cpp:109-130 | the definition of the forwarder loop: skip an invalid entry; forward the first `len` bytes of the buffer as it now is; any reply overwrites the buffer; the first accepted reply goes to the client and ends the loop. The buffer stays 512 bytes |
| DnsServer.ForwardAll | src/dns_server.cpp:109-130 | the forwarder loop over the array leaves the buffer, the packets sent and the relayed flag that `ForwardFrom` gives |
| DnsServer.ForwardOrder | src/dns_server.cpp:109-130 | the loop relays exactly when some valid forwarder gave an acceptable (non-empty, non-loopback) reply, and then relays the first such reply as its last packet. It forwards to the valid forwarders in order up to and including that one (to all valid ones when none was accepted), and sends nothing else to the client |
| DnsServer.FirstAccepted | src/dns_server.cpp:109-129 | the index it returns is a valid forwarder with an acceptable reply, and no valid forwarder before it has one; none means no valid forwarder has one |
| DnsServer.TriedIncreasing | src/dns_server.cpp:109-110 | the forwarders tried are exactly the valid ones, in strictly increasing order |
| DnsServer.RefusedReplyIsForwarded | src/dns_server.cpp:117-125 | a reply refused for its loopback source has still overwritten the buffer, so the next forwarder is sent the first `len` bytes of that reply instead of the query |
| DnsServer.WriteFallback | src/dns_server.cpp:133-158 | the in-place fallback writes leave the buffer and the reply that `Fallback` gives |
| DnsServer.Fallback | src/dns_server.cpp:133-158 | the definition of the fallback: header bytes 2, 3, 5 and 7 patched, the 17 answer bytes written from `12 + q + 4`, and the first `12 + q + 21` bytes sent; nothing sent when the writes would pass the buffer |
| DnsServer.FallbackBytes | src/dns_server.cpp:134-158 | the fallback sends `q + 33` bytes: header bytes 2, 3, 5 and 7 set to 0x81, 0x80, 1 and 1, the other bytes before `12 + q + 4` kept, then the 17 answer bytes. It overruns the buffer exactly when `q >= 480` |
| DnsServer.HandleDatagram | src/dns_server.cpp:90-160 | one pass of the server loop on the array leaves the buffer, the packets sent and the fault that `Relay` gives |
| DnsServer.Relay | src/dns_server.cpp:90-160 | the definition of one pass of the server loop: receive, the length and loopback checks, the name scan and its bound, the type code, the forwarder loop, then the fallback for type code 1 when nothing was relayed |
| DnsServer.ShortOrLoopbackIgnored | src/dns_server.cpp:92-98 | a failed receive, a datagram under 12 bytes, or a loopback sender gets no packet at all |
| DnsServer.QTypeIsHighByte | src/dns_server.cpp:102-105 | for any datagram that gets past the checks, the byte at the name end is 0, so the computed type code is just the following byte |
| DnsServer.SignednessKeepsTypeOne | src/dns_server.cpp:105 | whether `char` is signed (sign extension before the shift and the bitwise or) or unsigned, the type code is 1 for the same buffers, so the model's unsigned reading decides the fallback as the code does on either kind of target |
| DnsServer.QTypeOfEncodedQuery | src/dns_server.cpp:101-105 | for a query laid out as RFC 1035 section 4.1.2 says, the name scan finds the name's length and the type code equals QTYPE / 256 |
| DnsServer.AQueryNeverGetsFallback | src/dns_server.cpp:105-133 | a standard A query (QTYPE 1) never gets the fallback: the client gets only what the forwarder loop relays, and nothing when no reply was accepted |
| DnsServer.AtMostOneReply | src/dns_server.cpp:106-160 | each datagram gets at most one client packet, and it is the last one sent: a relayed reply or the fallback, never both. With no accepted reply and a type code other than 1, the client gets nothing |
| DnsServer.FallbackLayout | src/dns_server.cpp:133-158 | with no accepted reply and type code 1, the client gets one `q + 33`-byte packet after the forwards, laid out as `FallbackBytes` says; a name of 480 bytes or more gives an overrun fault instead |
| DnsServer.NoRepliesKeepBuffer | src/dns_server.cpp:117-124 | when no forwarder returns a datagram, the forwarder loop leaves the buffer as it was |
| DnsServer.UnansweredFallback | src/dns_server.cpp:133-158 | a surviving datagram with type code 1 and no forwarder reply gets, as the last packet, a `q + 33`-byte reply that keeps the received question bytes up to `16 + q` and then holds the 17 answer bytes |
| DnsServer.RelayFallbackCase | src/dns_server.cpp:133-158 | a surviving datagram with type code 1 that nothing was relayed for ends in the fallback built on the buffer the forwarder loop left: the reply packet after the forwards, or an overrun fault with no reply |
| DnsServer.FallbackKeepsQuestion | src/dns_server.cpp:134-158 | on a buffer that starts with the received bytes and a name under 480 bytes, the fallback reply has `q + 33` bytes, keeps the received bytes 12 to `16 + q` and ends in the 17 answer bytes |
| DnsServer.MisreadBytes | src/dns_server.cpp:139-156 | in such a reply after an encoded query, the name and QTYPE survive and QCLASS has 0xC0 as its low byte. The bytes after the question, read at the fixed offsets of a compressed answer record, give owner 0x0C00 and TYPE and CLASS 0x0100, so they are not the intended record |
| DnsServer.AnswerMisreadInReply | src/dns_server.cpp:133-158 | for a query with QTYPE 0x01xx that no forwarder answers, the reply the relay actually sends has QCLASS `(qclass / 256) * 256 + 0xC0`. The record a resolver reads at `17 + q` starts with 0x0C (a 12-byte label, not the pointer 0xC00C) and has TYPE and CLASS 0x0100, then TTL 60, RDLENGTH 4 and 192.168.6.1 |
| DnsServer.FirmwareForwarders | src/dns_server.cpp:20-34 | the firmware's twelve forwarders are all valid and tried in list order, only the last (127.0.0.1) is a loopback address, and when replies come from the server asked, a reply from that last one is never relayed |
| DnsServer.TriedAllValid | src/dns_server.cpp:109-110 | with every entry valid, the forwarders tried are exactly the indices in order |
| DnsServer.DnsService.Init | src/dns_server.cpp:167-170 | a task is started only when none is running and creation succeeds |
| DnsServer.DnsService.Setup | src/dns_server.cpp:54-78 | the task serves only when the socket, bind and forward socket all succeed; on a failure after socket creation, `sock_fd` is reset to -1 |
| DnsServer.DnsService.Stop | src/dns_server.cpp:172-177 | the socket is closed iff it was open and the task is deleted iff it existed; afterwards both are cleared |
| DnsServer.InitStopCycle | src/dns_server.cpp:167-177 | a second `init` without a `stop` starts a task exactly when the first creation failed and this one succeeds, so two never both start; after a `stop`, `init` starts one exactly when creation succeeds |
| DnsWire.EncodeQueryLayout | src/dns_server.cpp:101-105 | an encoded query has its header, name, root label, QTYPE and QCLASS at the RFC 1035 offsets |
| DnsWire.AnswerAsWrittenMisreads | src/dns_server.cpp:139-156 | the 17 answer bytes, which the code writes over the question's last byte, read from their own first byte as a pointer to offset 12, A, IN, TTL 0 and RDLENGTH 0x3C00, far more than the bytes that follow |
| DnsWire.AnswerIntendedDecodes | src/dns_server.cpp:139-156 | the intended 16-byte answer decodes as an A record for the first name, TTL 60, RDLENGTH 4, address 192.168.6.1 |
| DnsWire.FallbackHeader | src/dns_server.cpp:134-137 | the reply header sets bytes 2, 3, 5 and 7 and keeps every other byte |
| DnsWire.IntendedQTypeRoundTrip | src/dns_server.cpp:105 | the intended type read (the 16-bit field after the root label) gives back the QTYPE the query was built with |
| DnsWire.IntendedFallback | src/dns_server.cpp:133-158 | the intended reply exists exactly when it fits in 512 bytes, and then has `q + 33` bytes |
| DnsWire.IntendedFallbackDecodes | src/dns_server.cpp:133-158 | the intended reply keeps the question intact, and the answer after it decodes as the intended A record |
| F660.ReplyTable | src/f660.cpp:119-140 | the negotiation replies: DO NAWS/TERMINAL-TYPE gets WILL, any other DO or a DONT gets WONT; WILL ECHO/SGA gets DO, any other WILL or a WONT gets DONT; only telnet verbs get a reply |
| F660.Reply | src/f660.cpp:119-140 | the definition of the reply table: DO NAWS or TERMINAL-TYPE gets WILL, other DO and DONT get WONT, WILL ECHO or SGA gets DO, other WILL and WONT get DONT, anything else none |
| F660.PayloadEnd | src/f660.cpp:68-71 | the payload scan stops at the first IAC or at the end, with no IAC in between |
| F660.SubnegotiateSpec | src/f660.cpp:63-85 | `handleSubnegotiation` succeeds exactly when an SB leads, at least two more bytes follow, and the first IAC after the option is followed by SE. It then leaves the index just past the SE and yields the option and payload |
| F660.Subnegotiate | src/f660.cpp:63-86 | the definition of `handleSubnegotiation`: SB and two more bytes needed, the option after SB, the payload up to the next IAC, success when SE follows that IAC. It ends at least four bytes on |
| F660.SubnegotiationAtIacFails | src/f660.cpp:112-116 | a subnegotiation handed the index of its IAC always fails |
| F660.HandleSubnegotiation | src/f660.cpp:63-86 | the loop version computes `Subnegotiate` |
| F660.NawsRoundTrip | src/f660.cpp:78-81 | a complete NAWS subnegotiation is accepted, ends after 8 bytes, and its width and height decode back |
| F660.ScanFrom | src/f660.cpp:111-147 | scanning a chunk never reads the clock or the input |
| F660.ScanChunk | src/f660.cpp:111-147 | the byte loop computes `ScanFrom` |
| F660.ScanKeepsText | src/f660.cpp:111-147 | the scan only appends to the received text, and only bytes other than IAC |
| F660.ScanPlainText | src/f660.cpp:144-146 | a chunk without IAC bytes is appended whole, and nothing is sent |
| F660.ScanChunkEdges | src/f660.cpp:112-119 | an IAC as the last byte of a chunk is dropped and the scan ends |
| F660.ScanIacBeforeLast | src/f660.cpp:112-145 | with `IAC X` as the last two bytes and X not SB, only the IAC is skipped and X is scanned on its own; an X other than IAC goes into the text |
| F660.SubnegotiationAlwaysFails | src/f660.cpp:112-117 | every IAC SB in a chunk ends the wait with a failure |
| F660.CommandConsumesThree | src/f660.cpp:119-141 | a complete `IAC cmd opt` adds nothing to the text, consumes three bytes, and sends exactly the table's reply |
| F660.WaitForPrompt | src/f660.cpp:89-167 | the loop of `waitForPrompt` computes `WaitFor` |
| F660.WaitFor | src/f660.cpp:89-167 | the definition of `waitForPrompt`: the start time, the switch to non-blocking mode, then the polling loop |
| F660.WaitLoop | src/f660.cpp:100-166 | the definition of the polling loop: timeout, select error, end of input, a chunk scanned, and a match checked after each chunk |
| F660.WaitLoopMatches | src/f660.cpp:100-166 | the loop returns true only when the text so far contains the prompt. For a non-empty prompt, a timeout, a select error or the end of the stream means it was not received. The text never holds an IAC |
| F660.WaitForMatches | src/f660.cpp:89-167 | for the whole call: a match means the prompt is in the received text; for a non-empty prompt, a timeout, select error or end of input means it is not; the text never holds an IAC |
| F660.EmptyPromptMatchesFirstChunk | src/f660.cpp:149-151 | an empty prompt (the last script command) matches as soon as one chunk is scanned without failure |
| F660.Script | src/f660.cpp:180-196 | the script is the four option commands, the login wait and the two credential commands, then one command per pair, each in order |
| F660.RunSteps | src/f660.cpp:180-198 | a run performs at most the whole script; success means every step was performed, and a failure has performed at least one step |
| F660.RunAppend | src/f660.cpp:180-198 | running `a + b` runs `b` only after all of `a` succeeded, continuing from the state `a` left |
| F660.StopsAtFirstFailure | src/f660.cpp:181-195 | on a failed run, every step before the last one performed succeeded and the last one failed |
| F660.SendCommand | src/f660.cpp:170-177 | `sendCommand` computes the `Issue` step: it fails when `send` returns 0 or less (an empty command included), and otherwise waits for the prompt |
| F660.PerformStep | src/f660.cpp:181-190 | one step computes `RunStep` |
| F660.RunStep | src/f660.cpp:181-190 | the definition of one step: an option command is one `send`, a wait is `waitForPrompt`, a command is `sendCommand` |
| F660.ExecuteSequence | src/f660.cpp:180-198 | the sequence loop computes `RunSteps` of the script |
| F660.NextRetry | src/f660.cpp:299-311 | after a successful cycle the counter is 0 and there is no pause. After a failed one the counter is the old one plus 1, modulo 3, with the 5 s pause exactly when it reached 3 |
| F660.CycleSucceeded | src/f660.cpp:298-301 | the definition of a cycle's outcome: the script on the cycle commands ran to its end with success |
| F660.RoundStep | src/f660.cpp:206-316 | a round keeps the counter below 3 |
| F660.RetryAfter | src/f660.cpp:203-316 | the counter stays below 3 over any rounds |
| F660.RetryCountsTrailingFailures | src/f660.cpp:203-316 | after any rounds, the counter is (failed cycles since the last successful one) mod 3; setup and connect failures never count |
| F660.StopSequenceOnceAtEnd | src/f660.cpp:206-342 | the stop script is attempted exactly once, as the last event of the telnet client task |
| F660.RunRound | src/f660.cpp:207-315 | one round of the loop computes `RoundStep` |
| F660.RunStop | src/f660.cpp:318-342 | the stop attempt computes `StopEvent` |
| F660.StopEvent | src/f660.cpp:318-342 | the definition of the stop attempt: the stop script runs only on a connected stop socket |
| F660.TaskAtIsTaskFrom | src/f660.cpp:206-344 | the accumulating form of the telnet client task equals the log so far followed by the telnet client task from the current round |
| F660.TaskFrom | src/f660.cpp:203-344 | the definition of the telnet client task: the events of each round in turn, then the single stop attempt |
| F660.RunTask | src/f660.cpp:203-344 | the telnet client task loop yields the events of `TaskFrom` from a zero counter |
| F660.Client.Start | src/f660.cpp:349-353 | `start` clears the stop flag |
| F660.Client.Stop | src/f660.cpp:355-358 | `stop` sets the stop flag |
| F660.Client.Task | src/f660.cpp:200-347 | the telnet client task on the firmware's command lists yields the `TaskFrom` events and leaves the stop flag cleared |
| TelnetServer.Elapsed | src/telnet_server.cpp:71-72 | the 32-bit unsigned difference of two tick readings is always in `[0, 2^32)` |
| TelnetServer.ElapsedIsWrapSafe | src/telnet_server.cpp:71-72 | the 32-bit difference gives the true elapsed time across a counter wrap, as long as less than 2^32 ms elapsed |
| TelnetServer.Refusal | src/telnet_server.cpp:95-100 | DO and DONT are refused with WONT, WILL and WONT with DONT |
| TelnetServer.ScanLine | src/telnet_server.cpp:89-112 | scanning a chunk only appends to the line and never reads the clock or the input |
| TelnetServer.ScanChunk | src/telnet_server.cpp:89-112 | the byte loop computes `ScanLine` |
| TelnetServer.ScanPlainChunk | src/telnet_server.cpp:106-111 | a chunk without IAC adds its bytes minus CR and LF; the line is complete exactly when the chunk holds an LF |
| TelnetServer.ScanRefusesAll | src/telnet_server.cpp:89-112 | the line never gets an IAC, CR or LF, and every packet sent while scanning is `IAC`, the refusal of the verb and the option of some complete command of that chunk |
| TelnetServer.CommandRefusedOnce | src/telnet_server.cpp:90-103 | a complete `IAC verb option` is answered once with `IAC Refusal(verb) option`, its three bytes stay out of the line, and a failed answer is not retried |
| TelnetServer.LoneIacSkipped | src/telnet_server.cpp:90-105 | an IAC not followed by a verb, or within two bytes of the chunk's end, is skipped alone |
| TelnetServer.ScanPlainStretch | src/telnet_server.cpp:109-111 | a stretch without IAC, CR or LF goes into the line unchanged |
| TelnetServer.SubnegotiationLandsInLine | src/telnet_server.cpp:90-111 | for `IAC SB option payload IAC SE` only the two IAC bytes are skipped: SB, the option, the payload and SE all land in the line |
| TelnetServer.ReadLine | src/telnet_server.cpp:59-128 | every completed call consumes clock readings or input |
| TelnetServer.ReceiveLine | src/telnet_server.cpp:59-128 | the loop of `receiveLine` computes `ReadLine` |
| TelnetServer.LineLoop | src/telnet_server.cpp:70-127 | the definition of the polling loop: the timeout check on the 32-bit difference, then a quiet poll, an error, a close or a chunk, which restarts the timer; every completed call consumes input or readings |
| TelnetServer.QuietLineTimesOut | src/telnet_server.cpp:70-75 | with only quiet polls, the loop returns "" (TimedOut) at the first reading 300 s after the timer start, having consumed exactly those readings and polls |
| TelnetServer.TimeoutMeansQuiet | src/telnet_server.cpp:70-86 | a timeout happens only at the first reading 300 s after the timer start or after the last non-empty chunk, with only quiet polls since |
| TelnetServer.SilentReceiveTimesOut | src/telnet_server.cpp:59-75 | `receiveLine` on a silent socket returns "" at the first reading 300 s after the one taken on entry |
| TelnetServer.ReadLineResult | src/telnet_server.cpp:59-128 | the result is the trimmed line exactly when an LF arrived, and empty on a mode failure, a timeout, a close or an error. The raw line holds no IAC, CR or LF, and everything sent is a refusal |
| TelnetServer.Respond | src/telnet_server.cpp:210-226 | an empty response sends nothing and succeeds. Otherwise, success sends the response and then CRLF, and a failure sends at most the response |
| TelnetServer.SendResponse | src/telnet_server.cpp:210-226 | the method computes `Respond` |
| TelnetServer.Dispatch | src/telnet_server.cpp:270 | the dispatcher's responses go through `sendResponse` in order |
| TelnetServer.RespondAll | src/telnet_server.cpp:270 | the definition of the dispatcher's output: each response passed to `sendResponse` in turn, results ignored; clock and input unchanged |
| TelnetServer.AuthenticatesExactlyRoot | src/telnet_server.cpp:143-207 | a session is admitted only with root/admin. Once the credentials are compared, a failure to send the success message happens exactly on a match; an authentication failure has non-empty credentials |
| TelnetServer.ReplEndsOnExit | src/telnet_server.cpp:227-281 | the command loop's non-empty lines are all ordinary until one that trims to `exit`, and the loop ends on a request exactly when that line came last |
| TelnetServer.CommandsNeedAuthentication | src/telnet_server.cpp:190-270 | no command reaches the dispatcher in a session that was not authenticated as root/admin |
| TelnetServer.LogIn | src/telnet_server.cpp:143-207 | the login steps compute `LoginPhase` |
| TelnetServer.LoginPhase | src/telnet_server.cpp:143-207 | the definition of the login steps: socket check, WILL SGA, the two prompts and lines, the comparison and the message sent |
| TelnetServer.RunRepl | src/telnet_server.cpp:227-281 | the command loop computes `Repl` |
| TelnetServer.Repl | src/telnet_server.cpp:227 | the definition of the command loop's start: the timer starts at one clock reading |
| TelnetServer.ReplLoop | src/telnet_server.cpp:228-281 | the definition of the command loop: rounds until one ends the session |
| TelnetServer.ReplRound | src/telnet_server.cpp:229-280 | the definition of one round, which consumes input or readings whenever the loop goes on: an empty line ends the session on 300 s of inactivity or a socket error, else prompts and restarts the timer; "exit" says goodbye and ends it; any other line goes to the dispatcher, then the prompt |
| TelnetServer.ReplSilentTimesOut | src/telnet_server.cpp:229-247 | on a silent connection `receiveLine` returns "", and when the next reading is 300 s past the last activity the session ends as inactive, with no command added and nothing sent |
| TelnetServer.InactivityMeansIdle | src/telnet_server.cpp:229-247 | a session that ends as inactive does so in a round reached from the start whose line was empty and whose next reading is at least 300 s after that round's timer start |
| TelnetServer.AdmissionRule | src/telnet_server.cpp:331-347 | a handler is spawned exactly below 4 active clients with memory available. A client refused for the limit gets at most "Too many connections."; one refused for memory gets at most "Server error." |
| TelnetServer.Server.Accept | src/telnet_server.cpp:331-347 | the accept check on the current count computes `Admit` |
| TelnetServer.Admit | src/telnet_server.cpp:331-347 | the definition of the admission check: the client limit first, then the memory check |
| TelnetServer.Server.CleanupClient | src/telnet_server.cpp:50-57 | `cleanupClient` decrements the counter |
| TelnetServer.Server.HandleClient | src/telnet_server.cpp:130-283 | the handler computes `Serve`; every finished session leaves the counter where it found it |
| TelnetServer.Serve | src/telnet_server.cpp:130-283 | the definition of a session: the login phase, then the command loop when admitted |
| TelnetServer.ServeInTurn | src/telnet_server.cpp:324-347 | clients served one after another are all admitted, each session is the one that client would have alone, and the count is back at 0 after each; only a cut-off session ends the run early |
| TelnetServer.AuthMessagesAsWritten | src/telnet_server.cpp:193-201 | as written, the length arguments send 17 of the 18 success bytes and 26 bytes for the 24-byte failure text: the text, its NUL and one byte beyond |
| TelnetServer.IntendedAuthMessagesWhole | src/telnet_server.cpp:193-201 | the intended messages are the whole texts with no NUL. The success one is the 17 bytes sent now plus the missing space, so it ends with the prompt `"> "`; what is sent on failure is the intended text plus two stray bytes |
| Console.ProcessCommandTable | src/console.cpp:48-76 | response and effect of every trimmed command, both ways: "Unknown command." exactly for unrecognised text (the empty one included), "Exiting...\n" exactly for exit, the help text exactly for help, and the empty text with its effect for the four platform commands |
| Console.ProcessCommand | src/console.cpp:48-76 | the definition of `processCommand`: the trimmed text compared with each command in turn, with its response and effect |
| Console.ProcessCommandDependsOnTrim | src/console.cpp:49 | two commands that trim alike get the same response and effect |
| Console.CString | src/console.cpp:23-24 | the text read is the buffer up to its first NUL |
| Console.Load | src/console.cpp:21 | the read puts the data at the front of the buffer and leaves the rest |
| Console.UartTask | src/console.cpp:18-33 | the UART task loop over the 128-byte array produces the `UartFrom` trace |
| Console.UartFrom | src/console.cpp:18-33 | the definition of the UART task: each read in turn, until one ends it |
| Console.UartStep | src/console.cpp:22-29 | the definition of one read: the NUL written, the text processed, then either the end of the UART task or the response written; overflow flagged from 128 bytes |
| Console.StepExit | src/console.cpp:22-29 | one read ends the UART task exactly when it trims to exit; otherwise it writes exactly one table response, never "Exiting...\n" |
| Console.UartExitIff | src/console.cpp:18-33 | the UART task ends exactly when some non-empty read trims to exit, and everything it writes is "Unknown command.", the help text or empty. Deep sleep and restart never return on the device, so the trace after either effect is not reached there |
| Console.ThenAssociates | src/console.cpp:20-32 | consecutive stretches of the UART task compose associatively |
| Console.FullReadOverflows | src/console.cpp:19-23 | a 128-byte read writes its terminator past the buffer |
| Console.ShortReadsNeverOverflow | src/console.cpp:19-23 | reads of at most 127 bytes never do |
| WifiCore.InitOutcome | src/wifi_core.cpp:21-78 | for a valid channel, init succeeds exactly when every driver call does. Every call before the last returned ESP_OK, and a non-OK result is the last call's own code, so init stops at the failing call and returns its code. The channel call is made exactly when all earlier calls succeeded, and `ESP_ERR_INVALID_STATE` can only come from a driver: the "No channel set" branch is dead, since the stored channel is always valid |
| WifiCore.InitSequence | src/wifi_core.cpp:21-78 | the definition of the driver sequence: netif, event loop, Wi-Fi init, mode, the AP and STA interfaces, start and the channel, stopping at the first error |
| WifiCore.ChannelResult | src/wifi_core.cpp:85-97 | channel 0 or above 13 is rejected with `ESP_ERR_INVALID_ARG`; otherwise the driver's result |
| WifiCore.Core.Init | src/wifi_core.cpp:12-79 | a second call returns `ESP_OK` and touches no driver; a first call does `InitSequence` and marks the core initialised exactly on success |
| WifiCore.Core.GetCurrentChannel | src/wifi_core.cpp:81-83 | the channel is always in 1–13: the last one accepted, else 11 |
| WifiCore.Core.SetCurrentChannel | src/wifi_core.cpp:85-98 | an invalid channel changes nothing and calls no driver. A valid one is stored before the driver is called, even when the driver then fails |
| WifiCore.Core.SetApChannel | src/wifi_core.cpp:100-107 | the same validation, then `set_current_channel` |
| WifiCore.InitIsIdempotent | src/wifi_core.cpp:12-16 | two `init` calls leave the channel state unchanged; once the first has succeeded, the second returns `ESP_OK`, calls no driver function and the core stays initialised |

## Left out

- Sockets, tasks and timers are not created or run. Socket setup calls (`socket`, `fcntl`, `setsockopt`, `bind`, `listen`, `accept`, `connect` and `select` on connect) become outcomes supplied as parameters or failing call numbers in `Transport.Net`. Log output, `vTaskDelay`, the watchdog and `esp_timer` are left out; delays appear only as `Delay` events in the F660 task.
- Concurrency: all tasks run interleaved on FreeRTOS with unsynchronised globals (`stopFlag`, `active_clients`, `sock_fd`). The model runs each task alone, so data races between them are not captured.
- Telnet admission window: a handler counts itself in `active_clients` only once it runs (src/telnet_server.cpp:138), not when the accept loop spawns it (:331-347). With a listen backlog of 5, several handlers can be spawned while the count still reads below four, so more than four sessions can run at once. The model checks admission against the count as it stands and does not capture that window.
- F660.Client.Task: the stop flag is read between rounds by the real task; the model takes the rounds run before the flag was seen as a parameter.
- `inet_pton` and `is_valid_ip` on constant addresses: each forwarder carries a `valid` flag, and the F660 server address is treated as always valid.
- `utils::trim` is a parameter of every member that uses it. Its definition is not part of this model.
- The two-argument `console::processCommand` used by the telnet server is not part of this model: the dispatcher is a parameter that maps a line to the list of responses it passes to `sendResponse`.
- The firmware effects of `esp_deep_sleep_start`, `esp_restart`, `f660::start` and `f660::stop` are returned as an `Effect` value, not performed. The UART task model keeps reading after a deep sleep or restart effect; on the device those calls never return, so that part of the trace is never reached.
- The DNS server loop is modelled one datagram at a time (`HandleDatagram`). The task that repeats it forever, and `init` creating the task, appear as `DnsService`.
- DNS undefined behaviour (the read of `buffer[512]` and writes past the buffer) is reported as a `Fault` value; the model does not guess what the hardware does then.
- F660.ExecuteSequence: the straight-line login steps and the command loop are modelled as one loop over a list of steps. The order and the stop-at-first-failure behaviour are the same.
- F660.CycleSucceeded: a cycle whose run was cut off (the oracle ran out) counts as failed.
- TelnetServer.Server.HandleClient: a session whose run was cut off leaves the counter incremented, since `cleanupClient` is never reached.
- The telnet server's own task (`telnetServerTask`'s socket retry loop, `init` and `stop` with `stopFlag`) is left out beyond the admission check. Only the rest of that task is socket management.
- The other source files (HTTP API, motor, current sensors, flash storage, station and AP setup) are not part of this model.

## Findings

| source | as written | input that shows it | evidently intended | confidence | as-written member | corrected member |
|---|---|---|---|---|---|---|
| src/dns_server.cpp:105 | the type code is read from `buffer[12+qname_len]`, the root label (always 0), and the byte after it | any standard A query, QTYPE 0x0001: the code is 0 and the fallback never fires | read the 16-bit QTYPE at `13+qname_len` | not executed | DnsServer.AQueryNeverGetsFallback | DnsWire.IntendedQTypeRoundTrip |
| src/dns_server.cpp:139-156 | the answer starts at `12+qname_len+4`, one byte early, overwriting the low byte of QCLASS with 0xC0. It has four zero bytes after CLASS, so from its own start it reads TTL 0 and RDLENGTH 0x3C00; from `17+qname_len`, where a resolver reads it, it starts with the label length 0x0C instead of the pointer 0xC00C | any query answered by the fallback, e.g. a 3-byte name: 36 bytes sent, answer misdecoded | the question kept whole, then a 16-byte A record with TTL 60 and RDLENGTH 4, `q + 33` bytes in all | not executed | DnsServer.AnswerMisreadInReply | DnsWire.IntendedFallbackDecodes |
| src/console.cpp:19-23 | `buffer[len] = '\0'` after reading up to `sizeof(buffer)` bytes | a 128-byte UART read writes `buffer[128]` | read at most 127 bytes | not executed | Console.FullReadOverflows | Console.ShortReadsNeverOverflow |
| src/telnet_server.cpp:193-201 | length arguments 17 and 26 for texts of 18 and 24 bytes | a successful login omits the space of `"> "`; a failed one sends a NUL and one more byte | send each text whole | not executed | TelnetServer.AuthMessagesAsWritten | TelnetServer.IntendedAuthMessagesWhole |
