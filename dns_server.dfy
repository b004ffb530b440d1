/**
 * The DNS relay: one received datagram at a time, against a persistent 512-byte buffer.
 * The relay drops short and loopback datagrams, scans the question name, tries the
 * forwarders in order and relays the first acceptable reply; failing that, for type code
 * 1 it patches a fallback answer into the buffer. The sockets are replaced by what they
 * answer: the datagram the server socket receives and, for each forwarder, what the
 * forwarding `sendto`/`recvfrom` pair returns.
 */
module DnsServer {
  import opened Bytes
  import opened DnsWire

  /** An IPv4 address in host byte order, as `ntohl` yields it. */
  type Addr = x: int | 0 <= x < 0x1_0000_0000

  /** The address `o0.o1.o2.o3`. */
  function FromOctets(o0: byte, o1: byte, o2: byte, o3: byte): Addr
  {
    o0 * 0x100_0000 + o1 * 0x1_0000 + o2 * 0x100 + o3
  }

  /** `is_loopback`: the top octet of the address is 127. */
  predicate IsLoopback(a: Addr)
  {
    a / 0x100_0000 == 127
  }

  /** A dotted-quad address is a loopback address exactly when its first octet is 127. */
  lemma LoopbackIffFirstOctet(o0: byte, o1: byte, o2: byte, o3: byte)
    ensures IsLoopback(FromOctets(o0, o1, o2, o3)) <==> o0 == 127
  {
    var rest := o1 * 0x1_0000 + o2 * 0x100 + o3;
    assert 0 <= rest < 0x100_0000;
    assert FromOctets(o0, o1, o2, o3) / 0x100_0000 == o0;
  }

  /** One entry of the forwarder list: whether its text parses as an address, and the address. */
  datatype Forwarder = Forwarder(valid: bool, addr: Addr)

  /** `forwarders`: the twelve upstream servers, in the order they are tried; the last is the device itself. */
  const FORWARDERS: seq<Forwarder> := [
    Forwarder(true, FromOctets(194, 158, 196, 245)),
    Forwarder(true, FromOctets(86, 57, 255, 149)),
    Forwarder(true, FromOctets(134, 17, 1, 0)),
    Forwarder(true, FromOctets(134, 17, 1, 1)),
    Forwarder(true, FromOctets(192, 168, 100, 1)),
    Forwarder(true, FromOctets(192, 168, 100, 2)),
    Forwarder(true, FromOctets(192, 168, 6, 1)),
    Forwarder(true, FromOctets(192, 168, 2, 1)),
    Forwarder(true, FromOctets(192, 168, 0, 1)),
    Forwarder(true, FromOctets(10, 0, 0, 1)),
    Forwarder(true, FromOctets(172, 16, 0, 1)),
    Forwarder(true, FromOctets(127, 0, 0, 1))]

  /** `sizeof(buffer)`: the receive buffer, and the most one `recvfrom` stores. */
  const BUFFER_SIZE: nat := 512

  /** What the server socket's `recvfrom` returns. */
  datatype Incoming =
    | RecvError                                  // a negative length
    | Datagram(bytes: seq<byte>, from: Addr)     // a datagram (truncated to the buffer when longer)

  /** What forwarding to one upstream server gives. */
  datatype Exchange =
    | SendFailed                                 // the forwarding sendto() failed
    | NoReply                                    // recvfrom() returned a negative length (timeout or error)
    | Reply(bytes: seq<byte>, from: Addr)        // recvfrom() returned a datagram, possibly empty

  /** A datagram handed to `sendto`. */
  datatype Packet =
    | Forward(index: nat, payload: seq<byte>)    // to forwarder `index`
    | ToClient(payload: seq<byte>)               // to the querying client

  /** An access the code makes outside `buffer`. */
  datatype Fault =
    | NoFault
    | ScanOverread     // the name scan read buffer[512]
    | AnswerOverrun    // the fallback answer would be written past buffer[511]

  /** The state left by one datagram: the buffer, the datagrams sent, and any out-of-bounds access. */
  datatype Outcome = Outcome(buffer: seq<byte>, sent: seq<Packet>, fault: Fault)

  /** The buffer after a receive of `data` into its front. */
  function Overwrite(buf: seq<byte>, data: seq<byte>): (r: seq<byte>)
    requires |data| <= |buf|
    ensures |r| == |buf| && r[..|data|] == data && r[|data|..] == buf[|data|..]
  {
    data + buf[|data|..]
  }

  /**
   * `qname_len` after the scan from `q` on: the scan stops at the first zero byte at or
   * after offset `12 + q`, or when it reaches `len - 12`.
   */
  function NameEnd(buf: seq<byte>, len: nat, q: nat): (r: nat)
    requires 12 <= len <= |buf| && q <= len - 12
    ensures q <= r <= len - 12
    ensures forall k :: 12 + q <= k < 12 + r ==> buf[k] != 0
    ensures r < len - 12 ==> buf[12 + r] == 0
    decreases len - 12 - q
  {
    if q == len - 12 || buf[12 + q] == 0 then q else NameEnd(buf, len, q + 1)
  }

  /** A reply the relay accepts: non-empty and not from a 127.x.x.x source. */
  predicate Accepted(e: Exchange)
  {
    e.Reply? && |Take(e.bytes, BUFFER_SIZE)| > 0 && !IsLoopback(e.from)
  }

  /** The buffer, the datagrams sent so far, and whether a reply was relayed. */
  datatype Forwarding = Forwarding(buffer: seq<byte>, sent: seq<Packet>, relayed: bool)

  /** `f` with packet `p` sent before its own packets. */
  function Prepend(p: Packet, f: Forwarding): Forwarding
  {
    f.(sent := [p] + f.sent)
  }

  /**
   * The forwarder loop from entry `i` on: skip an invalid entry; otherwise forward the
   * first `len` bytes of the buffer as they now are; a reply overwrites the buffer whether
   * or not it is accepted; the first accepted reply is sent to the client and ends the loop.
   */
  function ForwardFrom(buf: seq<byte>, len: nat, fwd: seq<Forwarder>, ex: seq<Exchange>, i: nat): (r: Forwarding)
    requires |buf| == BUFFER_SIZE && len <= BUFFER_SIZE && |ex| == |fwd| && i <= |fwd|
    ensures |r.buffer| == BUFFER_SIZE
    decreases |fwd| - i
  {
    if i == |fwd| then Forwarding(buf, [], false)
    else if !fwd[i].valid then ForwardFrom(buf, len, fwd, ex, i + 1)
    else
      var p := Forward(i, buf[..len]);
      match ex[i]
      case SendFailed => Prepend(p, ForwardFrom(buf, len, fwd, ex, i + 1))
      case NoReply => Prepend(p, ForwardFrom(buf, len, fwd, ex, i + 1))
      case Reply(bytes, from) =>
        var r := Take(bytes, BUFFER_SIZE);
        var buf' := Overwrite(buf, r);
        if |r| > 0 && !IsLoopback(from) then Forwarding(buf', [p, ToClient(r)], true)
        else Prepend(p, ForwardFrom(buf', len, fwd, ex, i + 1))
  }

  /** The type code as the relay computes it: `(buffer[12 + q] << 8) | buffer[13 + q]`, in 16 bits. */
  function QType(buf: seq<byte>, q: nat): uint16
    requires 12 + q + 2 <= |buf|
  {
    (buf[12 + q] as int) * 256 + buf[13 + q]
  }

  /** A buffer byte read through a signed `char`. */
  function SignedChar(b: byte): int
  {
    if b < 128 then b as int else b as int - 256
  }

  /**
   * The type code where `char` is signed: both bytes are sign-extended before the shift and
   * the `|`, so a low byte of 128 or more sets the whole high byte, and the result is cut to 16 bits.
   */
  function SignedQType(buf: seq<byte>, q: nat): uint16
    requires 12 + q + 2 <= |buf|
  {
    var hi, lo := buf[12 + q], buf[13 + q];
    if lo < 128 then (SignedChar(hi) * 256 + lo as int) % 0x1_0000 else 0xFF00 + lo as int
  }

  /** Whether `char` is signed or not, the type code equals 1 for the same buffers. */
  lemma SignednessKeepsTypeOne(buf: seq<byte>, q: nat)
    requires 12 + q + 2 <= |buf|
    ensures SignedQType(buf, q) == 1 <==> QType(buf, q) == 1
  {
    var hi, lo := buf[12 + q], buf[13 + q];
    if lo < 128 && hi >= 128 {
      var v := SignedChar(hi) * 256 + lo as int;
      assert -32768 <= v < 0;
      assert v % 0x1_0000 == v + 0x1_0000;
    }
  }

  /** The buffer and the reply of the fallback on a buffer `b` whose name scan gave `q`. */
  function Fallback(b: seq<byte>, q: nat): (r: (seq<byte>, Option<seq<byte>>))
    requires |b| == BUFFER_SIZE
  {
    var h := FallbackHeader(b);
    var pos := 12 + q + 4;
    if pos + |ANSWER_AS_WRITTEN| > BUFFER_SIZE then (h, None)
    else
      var b' := h[..pos] + ANSWER_AS_WRITTEN + h[pos + |ANSWER_AS_WRITTEN|..];
      (b', Some(b'[..pos + |ANSWER_AS_WRITTEN|]))
  }

  /** The body of the server loop for one `recvfrom` on the server socket. */
  function Relay(buf: seq<byte>, incoming: Incoming, fwd: seq<Forwarder>, ex: seq<Exchange>): Outcome
    requires |buf| == BUFFER_SIZE && |ex| == |fwd|
  {
    if incoming.RecvError? then Outcome(buf, [], NoFault)
    else
      var data := Take(incoming.bytes, BUFFER_SIZE);
      var len := |data|;
      var b := Overwrite(buf, data);
      if len < 12 || IsLoopback(incoming.from) then Outcome(b, [], NoFault)
      else
        var q := NameEnd(b, len, 0);
        if 12 + q + 4 > len then
          Outcome(b, [], if len == BUFFER_SIZE && q == len - 12 then ScanOverread else NoFault)
        else
          var qtype := QType(b, q);
          var f := ForwardFrom(b, len, fwd, ex, 0);
          if f.relayed || qtype != 1 then Outcome(f.buffer, f.sent, NoFault)
          else
            var (b', reply) := Fallback(f.buffer, q);
            if reply.None? then Outcome(b', f.sent, AnswerOverrun)
            else Outcome(b', f.sent + [ToClient(reply.value)], NoFault)
  }

  /** Copies `data` into the front of `buffer`, as `recvfrom` does. */
  method Receive(buffer: array<byte>, data: seq<byte>)
    requires |data| <= buffer.Length
    modifies buffer
    ensures buffer[..] == Overwrite(old(buffer[..]), data)
  {
    forall m | 0 <= m < |data| {
      buffer[m] := data[m];
    }
    assert buffer[..] == data + old(buffer[..])[|data|..];
  }

  /** The name scan of `dns_task`, which tests `buffer[12 + q]` before the bound. */
  method ScanName(buffer: array<byte>, len: nat) returns (q: nat, overread: bool)
    requires buffer.Length == BUFFER_SIZE && 12 <= len <= BUFFER_SIZE
    ensures q == NameEnd(buffer[..], len, 0)
    ensures overread <==> len == BUFFER_SIZE && q == len - 12
  {
    q := 0;
    overread := false;
    while true
      invariant 0 <= q <= len - 12
      invariant NameEnd(buffer[..], len, q) == NameEnd(buffer[..], len, 0)
      decreases len - 12 - q
    {
      if 12 + q == buffer.Length {
        // buffer[12 + q] lies past the buffer; the bound test that follows ends the scan.
        overread := true;
        break;
      }
      if buffer[12 + q] == 0 || !(q < len - 12) {
        break;
      }
      q := q + 1;
    }
  }

  /** The forwarder loop of `dns_task`, guarded by `response_sent`. */
  method ForwardAll(buffer: array<byte>, len: nat, fwd: seq<Forwarder>, ex: seq<Exchange>)
    returns (sent: seq<Packet>, responseSent: bool)
    requires buffer.Length == BUFFER_SIZE && len <= BUFFER_SIZE && |ex| == |fwd|
    modifies buffer
    ensures Forwarding(buffer[..], sent, responseSent) == ForwardFrom(old(buffer[..]), len, fwd, ex, 0)
  {
    var i := 0;
    sent := [];
    responseSent := false;
    ghost var f := ForwardFrom(buffer[..], len, fwd, ex, 0);
    while i < |fwd| && !responseSent
      invariant 0 <= i <= |fwd|
      invariant !responseSent ==> var g := ForwardFrom(buffer[..], len, fwd, ex, i); g.(sent := sent + g.sent) == f
      invariant responseSent ==> Forwarding(buffer[..], sent, true) == f
      decreases |fwd| - i
    {
      if fwd[i].valid {
        var payload := buffer[..len];
        ghost var before := sent;
        sent := sent + [Forward(i, payload)];
        assert forall t: seq<Packet> :: before + ([Forward(i, payload)] + t) == sent + t;
        match ex[i]
        case SendFailed =>
        case NoReply =>
        case Reply(bytes, from) =>
          var r := Take(bytes, BUFFER_SIZE);
          Receive(buffer, r);
          if |r| > 0 && !IsLoopback(from) {
            sent := sent + [ToClient(buffer[..|r|])];
            responseSent := true;
          }
      }
      i := i + 1;
    }
  }

  /** The local answer of `dns_task`: header bytes, then the answer bytes at `12 + qname_len + 4`. */
  method WriteFallback(buffer: array<byte>, q: nat) returns (reply: Option<seq<byte>>)
    requires buffer.Length == BUFFER_SIZE
    modifies buffer
    ensures buffer[..] == Fallback(old(buffer[..]), q).0 && reply == Fallback(old(buffer[..]), q).1
  {
    buffer[2] := 0x81;
    buffer[3] := 0x80;
    buffer[5] := 0x01;
    buffer[7] := 0x01;
    var pos := 12 + q + 4;
    if pos + |ANSWER_AS_WRITTEN| > buffer.Length {
      return None;
    }
    ghost var h := buffer[..];
    assert h == FallbackHeader(old(buffer[..]));
    ghost var start := pos;
    var k := 0;
    while k < |ANSWER_AS_WRITTEN|
      invariant 0 <= k <= |ANSWER_AS_WRITTEN| && pos == start + k
      invariant forall i :: 0 <= i < buffer.Length ==> buffer[i] == if start <= i < start + k then ANSWER_AS_WRITTEN[i - start] else h[i]
    {
      buffer[pos] := ANSWER_AS_WRITTEN[k];
      pos := pos + 1;
      k := k + 1;
    }
    assert buffer[..] == h[..start] + ANSWER_AS_WRITTEN + h[start + |ANSWER_AS_WRITTEN|..];
    reply := Some(buffer[..pos]);
  }

  /**
   * The body of the `while (true)` of `dns_task` for one datagram on the server socket,
   * `buffer` being the task's 512-byte buffer, which keeps its bytes from one datagram to
   * the next.
   */
  method HandleDatagram(buffer: array<byte>, incoming: Incoming, fwd: seq<Forwarder>, ex: seq<Exchange>)
    returns (sent: seq<Packet>, fault: Fault)
    requires buffer.Length == BUFFER_SIZE && |ex| == |fwd|
    modifies buffer
    ensures Outcome(buffer[..], sent, fault) == Relay(old(buffer[..]), incoming, fwd, ex)
  {
    sent := [];
    fault := NoFault;
    if incoming.RecvError? {
      return;
    }
    var data := Take(incoming.bytes, BUFFER_SIZE);
    var len := |data|;
    Receive(buffer, data);
    if len < 12 || IsLoopback(incoming.from) {
      return;
    }
    var q, overread := ScanName(buffer, len);
    if 12 + q + 4 > len {
      fault := if overread then ScanOverread else NoFault;
      return;
    }
    var qtype := (buffer[12 + q] as int) * 256 + buffer[13 + q];
    var responseSent;
    sent, responseSent := ForwardAll(buffer, len, fwd, ex);
    if !responseSent && qtype == 1 {
      var reply := WriteFallback(buffer, q);
      if reply.None? {
        fault := AnswerOverrun;
        return;
      }
      sent := sent + [ToClient(reply.value)];
    }
  }

  // ----- What the relay does, stated against independent definitions -----

  /** The indices of the packets sent to forwarders, in order. */
  function Indices(s: seq<Packet>): seq<nat>
  {
    if s == [] then []
    else (if s[0].Forward? then [s[0].index] else []) + Indices(s[1..])
  }

  /** The valid entries of `fwd` from `i` up to `stop`, in order: the forwarders the loop tries. */
  function Tried(fwd: seq<Forwarder>, i: nat, stop: nat): seq<nat>
    requires i <= stop <= |fwd|
    decreases stop - i
  {
    if i == stop then [] else (if fwd[i].valid then [i] else []) + Tried(fwd, i + 1, stop)
  }

  /** The tried forwarders are valid entries in strictly increasing order, within `i..stop`. */
  lemma {:induction false} TriedIncreasing(fwd: seq<Forwarder>, i: nat, stop: nat)
    requires i <= stop <= |fwd|
    ensures IncreasingValid(Tried(fwd, i, stop), fwd, i, stop)
    decreases stop - i
  {
    if i < stop {
      TriedIncreasing(fwd, i + 1, stop);
      var rest := Tried(fwd, i + 1, stop);
      assert IncreasingValid(rest, fwd, i + 1, stop);
      var head: seq<nat> := if fwd[i].valid then [i] else [];
      var t := head + rest;
      assert Tried(fwd, i, stop) == t;
      forall k | 0 <= k < |t|
        ensures i <= t[k] < stop && fwd[t[k]].valid
      {
        if k >= |head| {
          assert t[k] == rest[k - |head|];
        }
      }
      forall k, l | 0 <= k < l < |t|
        ensures t[k] < t[l]
      {
        assert t[l] == rest[l - |head|];
        if k >= |head| {
          assert t[k] == rest[k - |head|];
        }
      }
    }
  }

  /** `t` lists valid entries of `fwd` within `i..stop`, in strictly increasing order. */
  predicate IncreasingValid(t: seq<nat>, fwd: seq<Forwarder>, i: nat, stop: nat)
    requires stop <= |fwd|
  {
    && (forall k :: 0 <= k < |t| ==> i <= t[k] < stop && fwd[t[k]].valid)
    && (forall k, l :: 0 <= k < l < |t| ==> t[k] < t[l])
  }

  /** The first valid forwarder from `i` on whose reply the relay accepts. */
  function FirstAccepted(fwd: seq<Forwarder>, ex: seq<Exchange>, i: nat): (r: Option<nat>)
    requires |ex| == |fwd| && i <= |fwd|
    ensures r.Some? ==> i <= r.value < |fwd| && fwd[r.value].valid && Accepted(ex[r.value])
    ensures r.Some? ==> forall j :: i <= j < r.value && fwd[j].valid ==> !Accepted(ex[j])
    ensures r.None? ==> forall j :: i <= j < |fwd| && fwd[j].valid ==> !Accepted(ex[j])
    decreases |fwd| - i
  {
    if i == |fwd| then None
    else if fwd[i].valid && Accepted(ex[i]) then Some(i)
    else FirstAccepted(fwd, ex, i + 1)
  }

  /** No packet of `s` goes to the client. */
  predicate NoClientPacket(s: seq<Packet>)
  {
    forall k :: 0 <= k < |s| ==> s[k].Forward?
  }

  lemma IndicesPrepend(p: Packet, s: seq<Packet>)
    ensures Indices([p] + s) == (if p.Forward? then [p.index] else []) + Indices(s)
  {
    assert ([p] + s)[1..] == s;
  }

  /**
   * Forwarders are tried strictly in list order, invalid ones skipped; the loop stops at
   * the first accepted reply, and then exactly the bytes of that reply (up to the buffer
   * size) are sent to the client as the last packet; without an accepted reply nothing
   * goes to the client.
   */
  lemma {:induction false} ForwardOrder(buf: seq<byte>, len: nat, fwd: seq<Forwarder>, ex: seq<Exchange>, i: nat)
    requires |buf| == BUFFER_SIZE && len <= BUFFER_SIZE && |ex| == |fwd| && i <= |fwd|
    ensures ForwardSpec(ForwardFrom(buf, len, fwd, ex, i), fwd, ex, i)
    decreases |fwd| - i
  {
    if i < |fwd| {
      if !fwd[i].valid {
        ForwardOrder(buf, len, fwd, ex, i + 1);
        SkipInvalid(buf, len, fwd, ex, i);
      } else if Accepted(ex[i]) {
        FirstReplyAccepted(buf, len, fwd, ex, i);
      } else {
        var buf' := if ex[i].Reply? then Overwrite(buf, Take(ex[i].bytes, BUFFER_SIZE)) else buf;
        ForwardOrder(buf', len, fwd, ex, i + 1);
        ReplyRefused(buf, len, fwd, ex, i);
      }
    }
  }

  /** The properties `ForwardOrder` states of the loop from entry `i` on. */
  predicate ForwardSpec(f: Forwarding, fwd: seq<Forwarder>, ex: seq<Exchange>, i: nat)
    requires |ex| == |fwd| && i <= |fwd|
  {
    var a := FirstAccepted(fwd, ex, i);
    && (f.relayed <==> a.Some?)
    && (a.None? ==> NoClientPacket(f.sent) && Indices(f.sent) == Tried(fwd, i, |fwd|))
    && (a.Some? ==>
          && |f.sent| >= 2
          && f.sent[|f.sent| - 1] == ToClient(Take(ex[a.value].bytes, BUFFER_SIZE))
          && NoClientPacket(f.sent[..|f.sent| - 1])
          && Indices(f.sent) == Tried(fwd, i, a.value + 1))
  }

  lemma SkipInvalid(buf: seq<byte>, len: nat, fwd: seq<Forwarder>, ex: seq<Exchange>, i: nat)
    requires |buf| == BUFFER_SIZE && len <= BUFFER_SIZE && |ex| == |fwd| && i < |fwd| && !fwd[i].valid
    requires ForwardSpec(ForwardFrom(buf, len, fwd, ex, i + 1), fwd, ex, i + 1)
    ensures ForwardSpec(ForwardFrom(buf, len, fwd, ex, i), fwd, ex, i)
  {
    var a := FirstAccepted(fwd, ex, i + 1);
    if a.Some? {
      TriedSplit(fwd, i, a.value + 1);
    } else {
      TriedSplit(fwd, i, |fwd|);
    }
  }

  lemma FirstReplyAccepted(buf: seq<byte>, len: nat, fwd: seq<Forwarder>, ex: seq<Exchange>, i: nat)
    requires |buf| == BUFFER_SIZE && len <= BUFFER_SIZE && |ex| == |fwd| && i < |fwd|
    requires fwd[i].valid && Accepted(ex[i])
    ensures ForwardSpec(ForwardFrom(buf, len, fwd, ex, i), fwd, ex, i)
  {
    var f := ForwardFrom(buf, len, fwd, ex, i);
    var p := Forward(i, buf[..len]);
    var c := ToClient(Take(ex[i].bytes, BUFFER_SIZE));
    assert f.sent == [p, c];
    IndicesPrepend(p, [c]);
    IndicesPrepend(c, []);
    assert [p] + [c] == [p, c] && [c] + [] == [c];
    TriedSplit(fwd, i, i + 1);
  }

  lemma ReplyRefused(buf: seq<byte>, len: nat, fwd: seq<Forwarder>, ex: seq<Exchange>, i: nat)
    requires |buf| == BUFFER_SIZE && len <= BUFFER_SIZE && |ex| == |fwd| && i < |fwd|
    requires fwd[i].valid && !Accepted(ex[i])
    requires var buf' := if ex[i].Reply? then Overwrite(buf, Take(ex[i].bytes, BUFFER_SIZE)) else buf;
      ForwardSpec(ForwardFrom(buf', len, fwd, ex, i + 1), fwd, ex, i + 1)
    ensures ForwardSpec(ForwardFrom(buf, len, fwd, ex, i), fwd, ex, i)
  {
    var buf' := if ex[i].Reply? then Overwrite(buf, Take(ex[i].bytes, BUFFER_SIZE)) else buf;
    var g := ForwardFrom(buf', len, fwd, ex, i + 1);
    assert ForwardFrom(buf, len, fwd, ex, i) == Prepend(Forward(i, buf[..len]), g);
    PrependRefused(Forward(i, buf[..len]), g, fwd, ex, i);
  }

  /** A forward to a valid entry whose reply was refused, sent before the rest of the loop, keeps `ForwardSpec`. */
  lemma PrependRefused(p: Packet, g: Forwarding, fwd: seq<Forwarder>, ex: seq<Exchange>, i: nat)
    requires |ex| == |fwd| && i < |fwd| && fwd[i].valid && !Accepted(ex[i])
    requires p == Forward(i, p.payload) && ForwardSpec(g, fwd, ex, i + 1)
    ensures ForwardSpec(Prepend(p, g), fwd, ex, i)
  {
    var f := Prepend(p, g);
    IndicesPrepend(p, g.sent);
    var a := FirstAccepted(fwd, ex, i + 1);
    if a.Some? {
      assert f.sent[..|f.sent| - 1] == [p] + g.sent[..|g.sent| - 1];
      TriedSplit(fwd, i, a.value + 1);
    } else {
      TriedSplit(fwd, i, |fwd|);
    }
  }

  lemma TriedSplit(fwd: seq<Forwarder>, i: nat, stop: nat)
    requires i < stop <= |fwd|
    ensures Tried(fwd, i, stop) == (if fwd[i].valid then [i] else []) + Tried(fwd, i + 1, stop)
  {
  }

  /** A standard datagram is one not dropped by the header, loopback and name checks. */
  predicate Survives(buf: seq<byte>, incoming: Incoming)
    requires |buf| == BUFFER_SIZE
  {
    && incoming.Datagram?
    && var data := Take(incoming.bytes, BUFFER_SIZE);
    && 12 <= |data| && !IsLoopback(incoming.from)
    && 12 + NameEnd(Overwrite(buf, data), |data|, 0) + 4 <= |data|
  }

  /** A datagram shorter than the header, a loopback datagram, or a failed receive gets no forward and no reply. */
  lemma ShortOrLoopbackIgnored(buf: seq<byte>, incoming: Incoming, fwd: seq<Forwarder>, ex: seq<Exchange>)
    requires |buf| == BUFFER_SIZE && |ex| == |fwd|
    requires incoming.RecvError? || |Take(incoming.bytes, BUFFER_SIZE)| < 12 || IsLoopback(incoming.from)
    ensures Relay(buf, incoming, fwd, ex).sent == []
    ensures !Survives(buf, incoming)
  {
  }

  /**
   * A surviving query ends its name in a zero byte, so the type code the relay computes is
   * the single byte after it: the high byte of QTYPE.
   */
  lemma QTypeIsHighByte(buf: seq<byte>, incoming: Incoming)
    requires |buf| == BUFFER_SIZE && Survives(buf, incoming)
    ensures var data := Take(incoming.bytes, BUFFER_SIZE);
      var b := Overwrite(buf, data);
      var q := NameEnd(b, |data|, 0);
      b[12 + q] == 0 && QType(b, q) == b[13 + q]
  {
  }

  /** For a query built as section 4.1 of RFC 1035 lays it out, the relay's type code is QTYPE / 256. */
  lemma QTypeOfEncodedQuery(buf: seq<byte>, header: seq<byte>, name: seq<byte>, qtype: uint16, qclass: uint16)
    requires |buf| == BUFFER_SIZE && |header| == HEADER_SIZE && Free(name, 0) && |name| + 17 <= BUFFER_SIZE
    ensures var query := EncodeQuery(header, name, qtype, qclass);
      var b := Overwrite(buf, query);
      && NameEnd(b, |query|, 0) == |name|
      && QType(b, |name|) == qtype / 256
  {
    var query := EncodeQuery(header, name, qtype, qclass);
    EncodeQueryLayout(header, name, qtype, qclass);
    var b := Overwrite(buf, query);
    assert b[..|query|] == query;
    var q := NameEnd(b, |query|, 0);
    assert b[13 + q] == query[13 + q] && b[12 + q] == 0;
  }

  /**
   * As written, a standard A query (QTYPE 1) gets type code 0: whatever the forwarders do,
   * the relay never adds the fallback, and sends the client only a relayed reply.
   */
  lemma AQueryNeverGetsFallback(buf: seq<byte>, header: seq<byte>, name: seq<byte>, qclass: uint16,
                                from: Addr, fwd: seq<Forwarder>, ex: seq<Exchange>)
    requires |buf| == BUFFER_SIZE && |ex| == |fwd| && |header| == HEADER_SIZE
    requires Free(name, 0) && |name| + 17 <= BUFFER_SIZE && !IsLoopback(from)
    ensures var query := EncodeQuery(header, name, 1, qclass);
      var o := Relay(buf, Datagram(query, from), fwd, ex);
      && o.fault == NoFault
      && (FirstAccepted(fwd, ex, 0).None? ==> NoClientPacket(o.sent))
      && o.sent == ForwardFrom(Overwrite(buf, query), |query|, fwd, ex, 0).sent
  {
    var query := EncodeQuery(header, name, 1, qclass);
    QTypeOfEncodedQuery(buf, header, name, 1, qclass);
    assert Take(query, BUFFER_SIZE) == query;
    ForwardOrder(Overwrite(buf, query), |query|, fwd, ex, 0);
  }

  /**
   * Each datagram gets at most one client reply, always the last packet sent: a relayed
   * reply or the fallback, never both. Without an accepted reply and with a type code other
   * than 1 nothing goes to the client (no error answer is built).
   */
  lemma AtMostOneReply(buf: seq<byte>, incoming: Incoming, fwd: seq<Forwarder>, ex: seq<Exchange>)
    requires |buf| == BUFFER_SIZE && |ex| == |fwd|
    ensures var o := Relay(buf, incoming, fwd, ex);
      NoClientPacket(o.sent) || (NoClientPacket(o.sent[..|o.sent| - 1]) && o.sent[|o.sent| - 1].ToClient?)
    ensures Survives(buf, incoming) ==>
      var data := Take(incoming.bytes, BUFFER_SIZE);
      var b := Overwrite(buf, data);
      FirstAccepted(fwd, ex, 0).None? && QType(b, NameEnd(b, |data|, 0)) != 1 ==>
        NoClientPacket(Relay(buf, incoming, fwd, ex).sent)
  {
    if Survives(buf, incoming) {
      var data := Take(incoming.bytes, BUFFER_SIZE);
      var b := Overwrite(buf, data);
      ForwardOrder(b, |data|, fwd, ex, 0);
      var o := Relay(buf, incoming, fwd, ex);
      var f := ForwardFrom(b, |data|, fwd, ex, 0);
      if o.sent != f.sent {
        assert o.sent[..|o.sent| - 1] == f.sent;
      }
    }
  }

  /**
   * The fallback for type code 1 with nothing relayed: it sends `qname_len + 33` bytes, the
   * buffer as the forwarder loop left it with header bytes 2, 3, 5 and 7 set to 0x81, 0x80,
   * 1 and 1 and the 17 answer bytes written from offset `12 + qname_len + 4`; a name of 480
   * bytes or more makes those writes run past the buffer.
   */
  lemma FallbackLayout(buf: seq<byte>, incoming: Incoming, fwd: seq<Forwarder>, ex: seq<Exchange>)
    requires |buf| == BUFFER_SIZE && |ex| == |fwd| && Survives(buf, incoming)
    requires var data := Take(incoming.bytes, BUFFER_SIZE);
      var b := Overwrite(buf, data);
      FirstAccepted(fwd, ex, 0).None? && QType(b, NameEnd(b, |data|, 0)) == 1
    ensures var data := Take(incoming.bytes, BUFFER_SIZE);
      var b := Overwrite(buf, data);
      var q := NameEnd(b, |data|, 0);
      var f := ForwardFrom(b, |data|, fwd, ex, 0);
      var o := Relay(buf, incoming, fwd, ex);
      && (q >= 480 <==> o.fault == AnswerOverrun)
      && (q >= 480 ==> o.sent == f.sent)
      && (q < 480 ==>
            && |o.sent| == |f.sent| + 1 && o.sent[..|f.sent|] == f.sent
            && var reply := o.sent[|f.sent|].payload;
            && o.sent[|f.sent|].ToClient?
            && |reply| == q + 33
            && reply[2] == 0x81 && reply[3] == 0x80 && reply[5] == 1 && reply[7] == 1
            && (forall k :: 0 <= k < 12 + q + 4 && k != 2 && k != 3 && k != 5 && k != 7 ==> reply[k] == f.buffer[k])
            && reply[12 + q + 4..] == ANSWER_AS_WRITTEN)
  {
    var data := Take(incoming.bytes, BUFFER_SIZE);
    var b := Overwrite(buf, data);
    ForwardOrder(b, |data|, fwd, ex, 0);
    var f := ForwardFrom(b, |data|, fwd, ex, 0);
    var q := NameEnd(b, |data|, 0);
    RelayFallbackCase(buf, incoming, fwd, ex);
    FallbackBytes(f.buffer, q);
  }

  /** A surviving datagram with type code 1 that nothing was relayed for ends in the fallback, built on the buffer the forwarder loop left. */
  lemma RelayFallbackCase(buf: seq<byte>, incoming: Incoming, fwd: seq<Forwarder>, ex: seq<Exchange>)
    requires |buf| == BUFFER_SIZE && |ex| == |fwd| && Survives(buf, incoming)
    requires var data := Take(incoming.bytes, BUFFER_SIZE);
      var b := Overwrite(buf, data);
      !ForwardFrom(b, |data|, fwd, ex, 0).relayed && QType(b, NameEnd(b, |data|, 0)) == 1
    ensures var data := Take(incoming.bytes, BUFFER_SIZE);
      var b := Overwrite(buf, data);
      var f := ForwardFrom(b, |data|, fwd, ex, 0);
      var fb := Fallback(f.buffer, NameEnd(b, |data|, 0));
      Relay(buf, incoming, fwd, ex) ==
        if fb.1.None? then Outcome(fb.0, f.sent, AnswerOverrun) else Outcome(fb.0, f.sent + [ToClient(fb.1.value)], NoFault)
  {
  }

  /** When no forwarder answers at all, the forwarder loop relays nothing and leaves the buffer as it was. */
  lemma {:induction false} NoRepliesKeepBuffer(buf: seq<byte>, len: nat, fwd: seq<Forwarder>, ex: seq<Exchange>, i: nat)
    requires |buf| == BUFFER_SIZE && len <= BUFFER_SIZE && |ex| == |fwd| && i <= |fwd|
    requires forall k :: i <= k < |ex| ==> !ex[k].Reply?
    ensures ForwardFrom(buf, len, fwd, ex, i).buffer == buf
    decreases |fwd| - i
  {
    if i < |fwd| {
      NoRepliesKeepBuffer(buf, len, fwd, ex, i + 1);
    }
  }

  /**
   * As written, the fallback reply to a query with QTYPE 0x01xx (type code 1) that no
   * forwarder answered is misread by a resolver. The first answer byte lands on the low
   * byte of QCLASS, which becomes 0xC0. The record that follows the question then starts
   * with 0x0C, a 12-byte label rather than the pointer 0xC00C, and its TYPE and CLASS read
   * 0x0100 rather than A and IN.
   */
  lemma AnswerMisreadInReply(buf: seq<byte>, header: seq<byte>, name: seq<byte>, qtype: uint16, qclass: uint16,
                             from: Addr, fwd: seq<Forwarder>, ex: seq<Exchange>)
    requires |buf| == BUFFER_SIZE && |ex| == |fwd| && |header| == HEADER_SIZE
    requires Free(name, 0) && |name| < 480 && !IsLoopback(from) && qtype / 256 == 1
    requires forall k :: 0 <= k < |ex| ==> !ex[k].Reply?
    ensures var query := EncodeQuery(header, name, qtype, qclass);
      var o := Relay(buf, Datagram(query, from), fwd, ex);
      var q := |name|;
      && |o.sent| > 0 && o.sent[|o.sent| - 1].ToClient?
      && var reply := o.sent[|o.sent| - 1].payload;
      && |reply| == q + 33
      && reply[12..12 + q] == name && U16At(reply, 13 + q) == qtype
      && U16At(reply, 15 + q) == (qclass / 256) * 256 + 0xC0
      && DecodeRecordHead(reply, 17 + q) == RecordHead(0x0C00, 0x0100, 0x0100, 60, 4)
      && reply[29 + q..] == RESPONSE_IP
      && DecodeRecordHead(reply, 17 + q) != RecordHead(POINTER_TO_QNAME, 1, 1, 60, 4)
  {
    var query := EncodeQuery(header, name, qtype, qclass);
    QTypeOfEncodedQuery(buf, header, name, qtype, qclass);
    assert Take(query, BUFFER_SIZE) == query;
    var incoming := Datagram(query, from);
    var b := Overwrite(buf, query);
    assert b[..|query|] == query;
    NoRepliesKeepBuffer(b, |query|, fwd, ex, 0);
    UnansweredFallback(buf, incoming, fwd, ex);
    var o := Relay(buf, incoming, fwd, ex);
    MisreadBytes(o.sent[|o.sent| - 1].payload, header, name, qtype, qclass);
  }

  /**
   * The last packet sent is the fallback for a question whose name takes `q` bytes: a
   * `q + 33`-byte reply that keeps the received bytes up to the end of the question and
   * then holds the 17 answer bytes.
   */
  predicate EndsInFallback(sent: seq<Packet>, data: seq<byte>, q: nat)
  {
    && |sent| > 0 && sent[|sent| - 1].ToClient?
    && var reply := sent[|sent| - 1].payload;
    && |reply| == q + 33 && 16 + q <= |data|
    && reply[12..16 + q] == data[12..16 + q]
    && reply[16 + q..] == ANSWER_AS_WRITTEN
  }

  /** A surviving datagram with type code 1 that no forwarder answered gets the fallback, built on the received bytes. */
  lemma UnansweredFallback(buf: seq<byte>, incoming: Incoming, fwd: seq<Forwarder>, ex: seq<Exchange>)
    requires |buf| == BUFFER_SIZE && |ex| == |fwd| && Survives(buf, incoming)
    requires forall k :: 0 <= k < |ex| ==> !ex[k].Reply?
    requires var data := Take(incoming.bytes, BUFFER_SIZE);
      var b := Overwrite(buf, data);
      var q := NameEnd(b, |data|, 0);
      QType(b, q) == 1 && q < 480 && ForwardFrom(b, |data|, fwd, ex, 0).buffer == b
    ensures var data := Take(incoming.bytes, BUFFER_SIZE);
      EndsInFallback(Relay(buf, incoming, fwd, ex).sent, data, NameEnd(Overwrite(buf, data), |data|, 0))
  {
    var data := Take(incoming.bytes, BUFFER_SIZE);
    var b := Overwrite(buf, data);
    var f := ForwardFrom(b, |data|, fwd, ex, 0);
    var q := NameEnd(b, |data|, 0);
    ForwardOrder(b, |data|, fwd, ex, 0);
    assert FirstAccepted(fwd, ex, 0).None?;
    RelayFallbackCase(buf, incoming, fwd, ex);
    assert 16 + q <= |data|;
    FallbackKeepsQuestion(b, data, q);
    var reply := Fallback(b, q).1.value;
    assert Relay(buf, incoming, fwd, ex).sent == f.sent + [ToClient(reply)];
  }

  /** The fallback on a buffer that starts with `data` keeps the question of `data`. */
  lemma FallbackKeepsQuestion(b: seq<byte>, data: seq<byte>, q: nat)
    requires |b| == BUFFER_SIZE && |data| <= BUFFER_SIZE && b[..|data|] == data && 16 + q <= |data| && q < 480
    ensures var reply := Fallback(b, q).1;
      && reply.Some? && |reply.value| == q + 33
      && reply.value[12..16 + q] == data[12..16 + q]
      && reply.value[16 + q..] == ANSWER_AS_WRITTEN
  {
    FallbackBytes(b, q);
    var reply := Fallback(b, q).1.value;
    forall k | 12 <= k < 16 + q
      ensures reply[k] == data[k]
    {
      assert reply[k] == b[k] == b[..|data|][k];
    }
  }

  /** The bytes of an as-written fallback after the question of an encoded query, as a resolver reads them. */
  lemma MisreadBytes(reply: seq<byte>, header: seq<byte>, name: seq<byte>, qtype: uint16, qclass: uint16)
    requires |header| == HEADER_SIZE
    requires var query := EncodeQuery(header, name, qtype, qclass);
      var q := |name|;
      && |reply| == q + 33 && reply[12..16 + q] == query[12..16 + q] && reply[16 + q..] == ANSWER_AS_WRITTEN
    ensures var q := |name|;
      && reply[12..12 + q] == name && U16At(reply, 13 + q) == qtype
      && U16At(reply, 15 + q) == (qclass / 256) * 256 + 0xC0
      && DecodeRecordHead(reply, 17 + q) == RecordHead(0x0C00, 0x0100, 0x0100, 60, 4)
      && reply[29 + q..] == RESPONSE_IP
      && DecodeRecordHead(reply, 17 + q) != RecordHead(POINTER_TO_QNAME, 1, 1, 60, 4)
  {
    var query := EncodeQuery(header, name, qtype, qclass);
    var q := |name|;
    EncodeQueryLayout(header, name, qtype, qclass);
    assert reply[12..12 + q] == reply[12..16 + q][..q];
    assert reply[13 + q] == reply[12..16 + q][1 + q] && reply[14 + q] == reply[12..16 + q][2 + q];
    assert reply[15 + q] == reply[12..16 + q][3 + q] == query[15 + q];
    assert query[15 + q] == BigEndian16(qclass)[0];
    assert reply[16 + q] == 0xC0;
    assert reply[17 + q..29 + q] == ANSWER_AS_WRITTEN[1..13];
    assert reply[29 + q..] == ANSWER_AS_WRITTEN[13..];
  }

  /**
   * The firmware's list: all twelve entries are valid and tried in order, and only the
   * last one, 127.0.0.1, is a loopback address. When every reply comes from the server it
   * was sent to, a reply from that last entry is refused, so it is never what is relayed.
   */
  lemma FirmwareForwarders(ex: seq<Exchange>)
    requires |ex| == |FORWARDERS|
    requires forall k :: 0 <= k < |ex| && ex[k].Reply? ==> ex[k].from == FORWARDERS[k].addr
    ensures |FORWARDERS| == 12 && Tried(FORWARDERS, 0, 12) == seq(12, k => k)
    ensures forall k :: 0 <= k < 12 ==> (IsLoopback(FORWARDERS[k].addr) <==> k == 11)
    ensures FirstAccepted(FORWARDERS, ex, 0) != Some(11)
  {
    ForwardersValid();
    TriedAllValid(FORWARDERS, 0, 12);
    ForwardersLoopback();
    assert !Accepted(ex[11]);
  }

  lemma ForwardersValid()
    ensures |FORWARDERS| == 12 && forall k :: 0 <= k < 12 ==> FORWARDERS[k].valid
  {
  }

  lemma ForwardersLoopback()
    ensures forall k :: 0 <= k < |FORWARDERS| ==> (IsLoopback(FORWARDERS[k].addr) <==> k == 11)
  {
    forall k | 0 <= k < |FORWARDERS|
      ensures IsLoopback(FORWARDERS[k].addr) <==> k == 11
    {
      var a := FORWARDERS[k].addr;
      assert (a / 0x100_0000 == 127) <==> k == 11;
    }
  }

  /** With every entry in `i..stop` valid, the forwarders tried are exactly `i`, `i + 1`, ..., `stop - 1`. */
  lemma {:induction false} TriedAllValid(fwd: seq<Forwarder>, i: nat, stop: nat)
    requires i <= stop <= |fwd| && forall k :: i <= k < stop ==> fwd[k].valid
    ensures Tried(fwd, i, stop) == seq(stop - i, k => i + k)
    decreases stop - i
  {
    if i < stop {
      TriedAllValid(fwd, i + 1, stop);
      assert seq(stop - i, k => i + k) == [i] + seq(stop - (i + 1), k => i + 1 + k);
    }
  }

  /** The fallback alone: no reply once the answer would pass the end of the buffer, else the header and the answer bytes. */
  lemma FallbackBytes(b: seq<byte>, q: nat)
    requires |b| == BUFFER_SIZE
    ensures var (_, reply) := Fallback(b, q);
      && (reply.None? <==> q >= 480)
      && (reply.Some? ==>
            && |reply.value| == q + 33
            && reply.value[2] == 0x81 && reply.value[3] == 0x80 && reply.value[5] == 1 && reply.value[7] == 1
            && (forall k :: 0 <= k < 12 + q + 4 && k != 2 && k != 3 && k != 5 && k != 7 ==> reply.value[k] == b[k])
            && reply.value[12 + q + 4..] == ANSWER_AS_WRITTEN)
  {
    if q < 480 {
      var h := FallbackHeader(b);
      var pos := 12 + q + 4;
      var b' := h[..pos] + ANSWER_AS_WRITTEN + h[pos + |ANSWER_AS_WRITTEN|..];
      assert b'[..pos + |ANSWER_AS_WRITTEN|][pos..] == ANSWER_AS_WRITTEN;
    }
  }

  /**
   * Buffer reuse: a reply that is refused for its loopback source still overwrites the
   * buffer, and the next forwarder is sent the first `len` bytes of that reply instead of
   * the query.
   */
  lemma RefusedReplyIsForwarded(buf: seq<byte>, len: nat, fwd: seq<Forwarder>, ex: seq<Exchange>, reply: seq<byte>, from: Addr)
    requires |buf| == BUFFER_SIZE && len <= |reply| <= BUFFER_SIZE && |ex| == |fwd| && |fwd| >= 2
    requires fwd[0].valid && fwd[1].valid && ex[0] == Reply(reply, from) && IsLoopback(from)
    ensures var f := ForwardFrom(buf, len, fwd, ex, 0);
      |f.sent| >= 2 && f.sent[0] == Forward(0, buf[..len]) && f.sent[1] == Forward(1, reply[..len])
  {
    var buf' := Overwrite(buf, reply);
    assert buf'[..len] == reply[..len];
    var g := ForwardFrom(buf', len, fwd, ex, 1);
    assert g.sent[0] == Forward(1, reply[..len]);
  }

  /** The task's shared state: the server socket and whether a task is running. */
  class DnsService {
    /** `sock_fd`: the server socket, or negative when there is none. */
    var sockFd: int
    /** `dns_task_handle != nullptr`. */
    var hasTask: bool

    constructor ()
      ensures sockFd == -1 && !hasTask
    {
      sockFd := -1;
      hasTask := false;
    }

    /** `init`: starts the task only if none is recorded; `created` is what task creation reports. */
    method Init(created: bool) returns (started: bool)
      modifies this
      ensures started <==> !old(hasTask) && created
      ensures hasTask == (old(hasTask) || created) && sockFd == old(sockFd)
    {
      if hasTask {
        return false;
      }
      hasTask := created;
      started := created;
    }

    /**
     * The socket set-up at the start of `dns_task`: the socket, when created, is kept only
     * if binding and creating the forwarding socket succeed. The task tells nothing else
     * when set-up fails, so its handle stays recorded.
     */
    method Setup(fd: int, bindOk: bool, forwardOk: bool) returns (serving: bool)
      modifies this
      ensures serving <==> fd >= 0 && bindOk && forwardOk
      ensures sockFd == (if serving then fd else if fd < 0 then fd else -1)
      ensures hasTask == old(hasTask)
    {
      sockFd := fd;
      if sockFd < 0 {
        return false;
      }
      if !bindOk || !forwardOk {
        sockFd := -1;
        return false;
      }
      serving := true;
    }

    /** `stop`: closes the socket if open, deletes the task if recorded, and forgets both. */
    method Stop() returns (closed: bool, deleted: bool)
      modifies this
      ensures closed <==> old(sockFd) >= 0
      ensures deleted <==> old(hasTask)
      ensures sockFd == -1 && !hasTask
    {
      closed := sockFd >= 0;
      deleted := hasTask;
      sockFd := -1;
      hasTask := false;
    }
  }

  /**
   * Repeated `init` starts at most one task until `stop` forgets it: a second `init` starts
   * one exactly when the first creation failed and this one succeeds. After `stop`, `init`
   * starts one exactly when creation succeeds.
   */
  method InitStopCycle(svc: DnsService, c1: bool, c2: bool, c3: bool) returns (s1: bool, s2: bool, s3: bool)
    requires !svc.hasTask
    modifies svc
    ensures !(s1 && s2) && (s1 <==> c1) && (s2 <==> !c1 && c2) && (s3 <==> c3)
  {
    s1 := svc.Init(c1);
    s2 := svc.Init(c2);
    var _, _ := svc.Stop();
    s3 := svc.Init(c3);
  }
}
