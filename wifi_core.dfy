/**
 * The Wi-Fi core: the radio channel the device uses and a one-time initialisation guard.
 * ESP-IDF driver calls are replaced by the result codes they return.
 */
module WifiCore {
  import opened Bytes

  const ESP_OK: int := 0
  const ESP_ERR_INVALID_ARG: int := 0x102
  const ESP_ERR_INVALID_STATE: int := 0x103

  /** The channel in use before any channel has been accepted. */
  const DEFAULT_CHANNEL: byte := 11
  const MAX_CHANNEL: byte := 13

  /** The channels 2.4 GHz Wi-Fi accepts here: 1 to 13. */
  predicate ValidChannel(c: int)
  {
    1 <= c <= MAX_CHANNEL
  }

  /** The driver calls `init` can make, in the order it makes them. */
  datatype DriverCall = NetifInit | EventLoopCreate | WifiInit | SetMode | CreateAp | CreateSta | WifiStart | SetChannel

  /** The result codes of the driver calls of one `init` (the two interface creations return none). */
  datatype InitDriver = InitDriver(netif: int, eventLoop: int, wifi: int, mode: int, start: int, channel: int)

  /**
   * The error code and the driver calls of one initialisation attempt on channel `ch`:
   * each step runs only if every earlier step returned ESP_OK, and the first error is returned.
   */
  function InitSequence(d: InitDriver, ch: byte): (int, seq<DriverCall>)
  {
    if d.netif != ESP_OK then (d.netif, [NetifInit])
    else if d.eventLoop != ESP_OK then (d.eventLoop, [NetifInit, EventLoopCreate])
    else if d.wifi != ESP_OK then (d.wifi, [NetifInit, EventLoopCreate, WifiInit])
    else if d.mode != ESP_OK then (d.mode, [NetifInit, EventLoopCreate, WifiInit, SetMode])
    else if d.start != ESP_OK then (d.start, [NetifInit, EventLoopCreate, WifiInit, SetMode, CreateAp, CreateSta, WifiStart])
    else if ch != 0 then
      (d.channel, [NetifInit, EventLoopCreate, WifiInit, SetMode, CreateAp, CreateSta, WifiStart, SetChannel])
    else (ESP_ERR_INVALID_STATE, [NetifInit, EventLoopCreate, WifiInit, SetMode, CreateAp, CreateSta, WifiStart])
  }

  /** The result code driver call `c` returns; the two interface creations report none and count as ESP_OK. */
  function Code(d: InitDriver, c: DriverCall): int
  {
    match c
    case NetifInit => d.netif
    case EventLoopCreate => d.eventLoop
    case WifiInit => d.wifi
    case SetMode => d.mode
    case CreateAp => ESP_OK
    case CreateSta => ESP_OK
    case WifiStart => d.start
    case SetChannel => d.channel
  }

  /** Whether every result code of an initialisation attempt is ESP_OK. */
  predicate DriverAllOk(d: InitDriver)
  {
    d.netif == ESP_OK && d.eventLoop == ESP_OK && d.wifi == ESP_OK && d.mode == ESP_OK
    && d.start == ESP_OK && d.channel == ESP_OK
  }

  /**
   * On a valid channel an initialisation attempt succeeds exactly when every driver call does;
   * otherwise it returns the code of the failing call, which is the last call made, and the
   * "no channel set" outcome never arises from the channel itself.
   */
  lemma InitOutcome(d: InitDriver, ch: byte)
    requires ValidChannel(ch)
    ensures InitSequence(d, ch).0 == ESP_OK <==> DriverAllOk(d)
    ensures var (err, calls) := InitSequence(d, ch);
      && |calls| > 0 && calls[0] == NetifInit
      && (err != ESP_OK ==> calls[|calls| - 1] in {NetifInit, EventLoopCreate, WifiInit, SetMode, WifiStart, SetChannel})
      && (calls[|calls| - 1] == SetChannel <==>
            d.netif == ESP_OK && d.eventLoop == ESP_OK && d.wifi == ESP_OK && d.mode == ESP_OK && d.start == ESP_OK)
    ensures var (err, calls) := InitSequence(d, ch);
      && (forall k :: 0 <= k < |calls| - 1 ==> Code(d, calls[k]) == ESP_OK)
      && (err != ESP_OK ==> err == Code(d, calls[|calls| - 1]))
      && (err == ESP_OK ==> Code(d, calls[|calls| - 1]) == ESP_OK)
    ensures InitSequence(d, ch).0 == ESP_ERR_INVALID_STATE ==>
      ESP_ERR_INVALID_STATE in {d.netif, d.eventLoop, d.wifi, d.mode, d.start, d.channel}
  {
  }

  /** The result of setting channel `c` when the driver's set-channel call would return `driverResult`. */
  function ChannelResult(c: byte, driverResult: int): (err: int)
    ensures !ValidChannel(c) ==> err == ESP_ERR_INVALID_ARG
    ensures ValidChannel(c) ==> err == driverResult
  {
    if c == 0 || c > MAX_CHANNEL then ESP_ERR_INVALID_ARG
    else if driverResult != ESP_OK then driverResult
    else ESP_OK
  }

  /** The static state of the Wi-Fi core. */
  class Core {
    var currentChannel: byte
    var isInitialized: bool
    /** The channels accepted so far, oldest first. */
    ghost var accepted: seq<byte>

    /** The channel is always a valid one: the most recently accepted channel, or the default. */
    ghost predicate Valid()
      reads this
    {
      && ValidChannel(currentChannel)
      && (forall k :: 0 <= k < |accepted| ==> ValidChannel(accepted[k]))
      && currentChannel == if accepted == [] then DEFAULT_CHANNEL else accepted[|accepted| - 1]
    }

    /** The state at boot: channel 11, not initialised. */
    constructor ()
      ensures Valid() && currentChannel == DEFAULT_CHANNEL && !isInitialized && accepted == []
    {
      currentChannel := DEFAULT_CHANNEL;
      isInitialized := false;
      accepted := [];
    }

    /**
     * `init`: a no-op returning ESP_OK once initialisation has succeeded; otherwise the
     * driver sequence, marking the core initialised only when every step succeeded.
     */
    method Init(d: InitDriver) returns (err: int, calls: seq<DriverCall>)
      requires Valid()
      modifies this
      ensures Valid() && currentChannel == old(currentChannel) && accepted == old(accepted)
      ensures old(isInitialized) ==> err == ESP_OK && calls == [] && isInitialized
      ensures !old(isInitialized) ==> (err, calls) == InitSequence(d, currentChannel) && (isInitialized <==> err == ESP_OK)
    {
      if isInitialized {
        return ESP_OK, [];
      }
      if d.netif != ESP_OK {
        return d.netif, [NetifInit];
      }
      if d.eventLoop != ESP_OK {
        return d.eventLoop, [NetifInit, EventLoopCreate];
      }
      if d.wifi != ESP_OK {
        return d.wifi, [NetifInit, EventLoopCreate, WifiInit];
      }
      if d.mode != ESP_OK {
        return d.mode, [NetifInit, EventLoopCreate, WifiInit, SetMode];
      }
      calls := [NetifInit, EventLoopCreate, WifiInit, SetMode, CreateAp, CreateSta, WifiStart];
      if d.start != ESP_OK {
        return d.start, calls;
      }
      if currentChannel != 0 {
        calls := [NetifInit, EventLoopCreate, WifiInit, SetMode, CreateAp, CreateSta, WifiStart, SetChannel];
        if d.channel != ESP_OK {
          return d.channel, calls;
        }
      } else {
        // The invariant keeps the channel in 1..13, so "No channel set" cannot happen.
        assert false;
      }
      isInitialized := true;
      err := ESP_OK;
    }

    /** `get_current_channel`: the most recently accepted channel, or 11 if none was accepted. */
    method GetCurrentChannel() returns (c: byte)
      requires Valid()
      ensures ValidChannel(c)
      ensures c == if accepted == [] then DEFAULT_CHANNEL else accepted[|accepted| - 1]
    {
      c := currentChannel;
    }

    /**
     * `set_current_channel`: a channel outside 1..13 is refused and changes nothing; an
     * accepted channel is stored before the driver is asked, so it stays stored even when
     * the driver call fails (its error is returned).
     */
    method SetCurrentChannel(channel: byte, driverResult: int) returns (err: int, driverCalled: bool)
      requires Valid()
      modifies this
      ensures Valid() && isInitialized == old(isInitialized)
      ensures err == ChannelResult(channel, driverResult)
      ensures driverCalled <==> ValidChannel(channel)
      ensures !ValidChannel(channel) ==> currentChannel == old(currentChannel) && accepted == old(accepted)
      ensures ValidChannel(channel) ==> currentChannel == channel && accepted == old(accepted) + [channel]
    {
      if channel == 0 || channel > MAX_CHANNEL {
        return ESP_ERR_INVALID_ARG, false;
      }
      currentChannel := channel;
      accepted := accepted + [channel];
      driverCalled := true;
      if driverResult != ESP_OK {
        return driverResult, driverCalled;
      }
      err := ESP_OK;
    }

    /** `set_ap_channel`: the same range check, then `set_current_channel`. */
    method SetApChannel(channel: byte, driverResult: int) returns (err: int, driverCalled: bool)
      requires Valid()
      modifies this
      ensures Valid() && isInitialized == old(isInitialized)
      ensures err == ChannelResult(channel, driverResult)
      ensures driverCalled <==> ValidChannel(channel)
      ensures !ValidChannel(channel) ==> currentChannel == old(currentChannel) && accepted == old(accepted)
      ensures ValidChannel(channel) ==> currentChannel == channel && accepted == old(accepted) + [channel]
    {
      if channel == 0 || channel > MAX_CHANNEL {
        return ESP_ERR_INVALID_ARG, false;
      }
      err, driverCalled := SetCurrentChannel(channel, driverResult);
    }
  }

  /**
   * `init` called twice: neither call touches the channel state, and once the first call
   * has succeeded the second returns ESP_OK without calling the driver and the core stays
   * initialised.
   */
  method InitIsIdempotent(core: Core, d1: InitDriver, d2: InitDriver) returns (err1: int, calls1: seq<DriverCall>, err2: int, calls2: seq<DriverCall>)
    requires core.Valid()
    modifies core
    ensures core.Valid()
    ensures core.currentChannel == old(core.currentChannel) && core.accepted == old(core.accepted)
    ensures !old(core.isInitialized) ==> (err1, calls1) == InitSequence(d1, old(core.currentChannel))
    ensures err1 == ESP_OK ==> err2 == ESP_OK && calls2 == [] && core.isInitialized
    ensures core.isInitialized <==> err1 == ESP_OK || err2 == ESP_OK
  {
    err1, calls1 := core.Init(d1);
    err2, calls2 := core.Init(d2);
  }
}
