/**
 * Telnet command and option codes: the commands of RFC 854 (section "TELNET COMMAND
 * STRUCTURE"), subnegotiation framing of RFC 855, and the options ECHO (RFC 857),
 * SUPPRESS-GO-AHEAD (RFC 858), TERMINAL-TYPE (RFC 1091) and NAWS (RFC 1073).
 * Both the automation client and the console server use these values.
 */
module Telnet {
  import opened Bytes

  const IAC: byte := 255
  const DONT: byte := 254
  const DO: byte := 253
  const WONT: byte := 252
  const WILL: byte := 251
  const SB: byte := 250
  const SE: byte := 240

  const ECHO: byte := 1
  const SGA: byte := 3
  const TERMINAL_TYPE: byte := 24
  const NAWS: byte := 31

  /** The four option-negotiation verbs. */
  predicate IsVerb(b: byte)
  {
    b == DO || b == DONT || b == WILL || b == WONT
  }

  /** A three-byte negotiation command `IAC verb option`. */
  function Command(verb: byte, option: byte): seq<byte>
  {
    [IAC, verb, option]
  }
}
