/**
 * The socket, the clock and the scheduler as seen from one task: a finite record of what
 * the environment answers. Every clock read takes the next reading, every readiness wait
 * followed by `recv` takes the next inbox entry, and the n-th fallible socket call
 * (`send`, `fcntl`, `getsockopt`) fails exactly when n is in `failing`. When the clock
 * or the inbox runs out the observation ends: models report such a run as cut off.
 */
module Transport {
  import opened Bytes

  /** The result of one readiness wait on a socket followed, when it is readable, by one `recv`. */
  datatype Ready =
    | Quiet                    // select() returned 0: nothing arrived within the poll interval
    | Data(bytes: seq<byte>)   // recv() returned these bytes (an empty list means recv() returned 0)
    | PeerClosed               // recv() returned 0
    | RecvFailed               // recv() returned a negative value
    | SelectFailed             // select() returned a negative value

  datatype Net = Net(
    clock: seq<int>,           // the readings of the millisecond clock, in the order they are taken
    inbox: seq<Ready>,         // the outcomes of the readiness waits, in order
    failing: set<nat>,         // ordinals of the fallible socket calls that fail
    calls: nat,                // fallible socket calls made so far
    out: seq<seq<byte>>)       // the byte blocks successfully sent, in order

  /** What is left to observe; every loop iteration of a model consumes some of it. */
  function Budget(n: Net): nat
  {
    |n.clock| + |n.inbox|
  }

  /** One fallible socket call that sends nothing (`fcntl`, `getsockopt`): whether it succeeds. */
  function Attempt(n: Net): (r: (bool, Net))
    ensures r.0 <==> n.calls !in n.failing
    ensures r.1 == n.(calls := n.calls + 1)
  {
    (n.calls !in n.failing, n.(calls := n.calls + 1))
  }

  /** One `send` of `b`: whether it succeeds; a successful send is appended to the log. */
  function Send(n: Net, b: seq<byte>): (r: (bool, Net))
    ensures r.0 <==> n.calls !in n.failing
    ensures r.1 == n.(calls := n.calls + 1, out := if r.0 then n.out + [b] else n.out)
  {
    var ok := n.calls !in n.failing;
    (ok, n.(calls := n.calls + 1, out := if ok then n.out + [b] else n.out))
  }

  /** The environment after the next clock reading has been taken. */
  function Tick(n: Net): Net
    requires |n.clock| > 0
  {
    n.(clock := n.clock[1..])
  }

  /** The environment after the next readiness wait has been answered. */
  function Pop(n: Net): Net
    requires |n.inbox| > 0
  {
    n.(inbox := n.inbox[1..])
  }

  /** The bytes one `recv` into a `cap`-byte area returns for an inbox entry (empty: nothing read). */
  function Received(r: Ready, cap: nat): seq<byte>
  {
    if r.Data? then Take(r.bytes, cap) else []
  }
}
