/**
 * The inbound side of the MQTT client (src/mqtt/inbound.rs): the message
 * handler that the client calls for every received publish, the commands it
 * derives from a message, and the two-slot queue of commands that the MQTT
 * task drains.
 */
module MqttInbound {
  import opened Base
  import opened Hex

  /** Number of relay outputs (`output::NUM_OUT`). */
  const NUM_OUT: nat := 4
  /** Capacity of the inbound queue. */
  const INBOUND_CAPACITY: nat := 2
  /** Largest payload buffer (`MQTT_PACKET_LEN`); a copied payload must be shorter. */
  const MQTT_PACKET_LEN: nat := 1024

  /** A command for the MQTT task, derived from one received message. */
  datatype InboundAction =
    | Outputs(slots: seq<Option<byte>>)
    | Tcp(data: seq<byte>)
    | Echo(data: seq<byte>)

  /** What the handler does with one message: queue a command, ignore the topic, or panic. */
  datatype Routed = Deliver(action: InboundAction) | Ignore | RoutePanic

  /** What the client sees: the handler returns `Ok(())`, or the firmware panics. */
  datatype HandlerOutcome = HandledOk | HandlerPanic

  /** Topic names are compared as bytes; each is the device prefix followed by a suffix. */
  function CtrlTopic(iotTopic: seq<byte>): seq<byte> { iotTopic + AsciiBytes("/ctrl") }
  function TcpTopic(iotTopic: seq<byte>): seq<byte> { iotTopic + AsciiBytes("/rpc/tcp") }
  function EchoTopic(iotTopic: seq<byte>): seq<byte> { iotTopic + AsciiBytes("/echo") }

  /**
   * Relay slot `i` of a ctrl payload: the `i`-th two-byte chunk, read as text
   * and parsed as a base-16 u8. A missing chunk, a trailing one-byte chunk
   * and a chunk that does not parse all leave the slot empty.
   */
  function CtrlSlot(s: seq<byte>, i: nat): Option<byte>
  {
    if 2 * i + 2 <= |s| then ParsePair(s[2 * i..2 * i + 2]) else None
  }

  /** One complete chunk: `from_utf8` and then `u8::from_str_radix(_, 16)`, errors mapped to None. */
  function ParsePair(chunk: seq<byte>): Option<byte>
  {
    if ValidUtf8(chunk) then FromStrRadix16(chunk) else None
  }

  /** The relay command a ctrl payload encodes, one slot per output. */
  function CtrlSlots(s: seq<byte>): (r: seq<Option<byte>>)
    ensures |r| == NUM_OUT
  {
    seq(NUM_OUT, i requires 0 <= i < NUM_OUT => CtrlSlot(s, i))
  }

  /**
   * The loop over `chunks(2).take(NUM_OUT)` that fills the command array.
   * Its result is the slot-by-slot reading `CtrlSlot`.
   */
  method ParseCtrl(s: seq<byte>) returns (slots: seq<Option<byte>>)
    ensures |slots| == NUM_OUT
    ensures forall i :: 0 <= i < NUM_OUT ==> slots[i] == CtrlSlot(s, i)
  {
    var bytes := new Option<byte>[NUM_OUT](_ => None);
    var i := 0;
    while i < NUM_OUT && 2 * i < |s|
      invariant 0 <= i <= NUM_OUT
      invariant forall j :: 0 <= j < i ==> bytes[j] == CtrlSlot(s, j)
      invariant forall j :: i <= j < NUM_OUT ==> bytes[j] == None
    {
      var chunk := if 2 * i + 2 <= |s| then s[2 * i..2 * i + 2] else s[2 * i..];
      if |chunk| == 2 {
        var parsed := ParsePair(chunk);
        if parsed.Some? {
          bytes[i] := parsed;
        }
      }
      i := i + 1;
    }
    slots := bytes[..];
  }

  /**
   * A slot holds `b` exactly when its two bytes are present and are either
   * two hex digits worth `16 * hi + lo == b`, or '+' and one hex digit worth `b`.
   */
  lemma CtrlSlotMeaning(s: seq<byte>, i: nat, b: byte)
    ensures CtrlSlot(s, i) == Some(b) <==>
      2 * i + 2 <= |s| &&
      ((s[2 * i] == PLUS && DigitValue(s[2 * i + 1]) == Some(b)) ||
       (DigitValue(s[2 * i]).Some? && DigitValue(s[2 * i + 1]).Some? &&
        16 * DigitValue(s[2 * i]).value + DigitValue(s[2 * i + 1]).value == b))
  {
    if 2 * i + 2 <= |s| {
      var chunk := s[2 * i..2 * i + 2];
      assert chunk == [s[2 * i], s[2 * i + 1]];
      TwoCharRadix(s[2 * i], s[2 * i + 1]);
      if FromStrRadix16(chunk).Some? {
        RadixInputIsAscii(chunk);
      }
      if DigitValue(s[2 * i]).Some? {
        DigitsAreAscii(s[2 * i]);
      }
    }
  }

  /** Only the first eight bytes of a ctrl payload matter. */
  lemma CtrlIgnoresExtra(s: seq<byte>)
    requires |s| >= 2 * NUM_OUT
    ensures CtrlSlots(s) == CtrlSlots(s[..2 * NUM_OUT])
  {
    forall i | 0 <= i < NUM_OUT
      ensures CtrlSlot(s, i) == CtrlSlot(s[..2 * NUM_OUT], i)
    {
      assert s[..2 * NUM_OUT][2 * i..2 * i + 2] == s[2 * i..2 * i + 2];
    }
  }

  /** `copy_payload`: a payload shorter than the packet buffer is copied verbatim; a longer one panics. */
  function CopyPayload(payload: seq<byte>): (r: Option<seq<byte>>)
    ensures r.Some? <==> |payload| < MQTT_PACKET_LEN
    ensures r.Some? ==> r.value == payload && |r.value| < MQTT_PACKET_LEN
  {
    if |payload| >= MQTT_PACKET_LEN then None else Some(payload)
  }

  /**
   * The decision `message_handler` takes for one message, before queueing:
   * a ctrl payload must be valid UTF-8, tcp and echo payloads must fit the
   * packet buffer, and every other topic is ignored.
   */
  function Route(iotTopic: seq<byte>, topic: seq<byte>, payload: seq<byte>): Routed
  {
    if topic == CtrlTopic(iotTopic) then
      if ValidUtf8(payload) then Deliver(Outputs(CtrlSlots(payload))) else RoutePanic
    else if topic == TcpTopic(iotTopic) then
      match CopyPayload(payload)
      case Some(data) => Deliver(Tcp(data))
      case None => RoutePanic
    else if topic == EchoTopic(iotTopic) then
      match CopyPayload(payload)
      case Some(data) => Deliver(Echo(data))
      case None => RoutePanic
    else Ignore
  }

  /**
   * Only the three subscribed topics produce a command; a command for the
   * tcp or echo topic carries the payload unchanged, and the ctrl topic
   * panics exactly on a payload that is not UTF-8.
   */
  lemma RouteSpec(iotTopic: seq<byte>, topic: seq<byte>, payload: seq<byte>)
    ensures Route(iotTopic, topic, payload).Ignore? <==>
      topic != CtrlTopic(iotTopic) && topic != TcpTopic(iotTopic) && topic != EchoTopic(iotTopic)
    ensures topic == CtrlTopic(iotTopic) ==>
      (Route(iotTopic, topic, payload).RoutePanic? <==> !ValidUtf8(payload))
    ensures topic == TcpTopic(iotTopic) ==>
      Route(iotTopic, topic, payload) == (if |payload| < MQTT_PACKET_LEN then Deliver(Tcp(payload)) else RoutePanic)
    ensures topic == EchoTopic(iotTopic) ==>
      Route(iotTopic, topic, payload) == (if |payload| < MQTT_PACKET_LEN then Deliver(Echo(payload)) else RoutePanic)
  {
    var c, t, e := AsciiBytes("/ctrl"), AsciiBytes("/rpc/tcp"), AsciiBytes("/echo");
    assert c[1] != t[1] && c[1] != e[1];
    assert (iotTopic + c)[|iotTopic| + 1] == c[1];
    assert (iotTopic + t)[|iotTopic| + 1] == t[1];
    assert (iotTopic + e)[|iotTopic| + 1] == e[1];
    assert |iotTopic + t| != |iotTopic + e|;
  }

  /** The queue of commands between the message handler and the MQTT task. */
  class InboundQueue {
    var items: seq<InboundAction>

    predicate Valid()
      reads this
    {
      |items| <= INBOUND_CAPACITY
    }

    constructor()
      ensures Valid() && items == []
    {
      items := [];
    }

    /** `enqueue`: append at the back, or panic when the queue is full. */
    method Enqueue(action: InboundAction) returns (panicked: bool)
      requires Valid()
      modifies this
      ensures Valid()
      ensures panicked <==> |old(items)| == INBOUND_CAPACITY
      ensures items == if panicked then old(items) else old(items) + [action]
    {
      if |items| == INBOUND_CAPACITY {
        panicked := true;
      } else {
        items := items + [action];
        panicked := false;
      }
    }

    /** `drain_one`: take the oldest command, if any. */
    method DrainOne() returns (r: Option<InboundAction>)
      requires Valid()
      modifies this
      ensures Valid()
      ensures old(items) == [] ==> r == None && items == []
      ensures old(items) != [] ==> r == Some(old(items)[0]) && items == old(items)[1..]
    {
      if items == [] {
        r := None;
      } else {
        r := Some(items[0]);
        items := items[1..];
      }
    }

    /**
     * `message_handler`: route the message and queue its command. It
     * returns `Ok` unless routing or queueing panics; an ignored topic leaves
     * the queue as it was.
     */
    method MessageHandler(iotTopic: seq<byte>, topic: seq<byte>, payload: seq<byte>) returns (r: HandlerOutcome)
      requires Valid()
      modifies this
      ensures Valid()
      ensures r == HandlerPanic <==>
        Route(iotTopic, topic, payload).RoutePanic? ||
        (Route(iotTopic, topic, payload).Deliver? && |old(items)| == INBOUND_CAPACITY)
      ensures r == HandledOk ==>
        items == match Route(iotTopic, topic, payload)
                 case Deliver(a) => old(items) + [a]
                 case _ => old(items)
    {
      var action: InboundAction;
      if topic == CtrlTopic(iotTopic) {
        if !ValidUtf8(payload) {
          return HandlerPanic;
        }
        var slots := ParseCtrl(payload);
        assert slots == CtrlSlots(payload);
        action := Outputs(slots);
      } else if topic == TcpTopic(iotTopic) || topic == EchoTopic(iotTopic) {
        var data := CopyPayload(payload);
        if data.None? {
          return HandlerPanic;
        }
        action := if topic == TcpTopic(iotTopic) then Tcp(data.value) else Echo(data.value);
      } else {
        return HandledOk;
      }
      var panicked := Enqueue(action);
      r := if panicked then HandlerPanic else HandledOk;
    }
  }
}
