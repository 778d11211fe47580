/**
 * The earlier single-file MQTT client (src/mqtt.rs): a non-blocking
 * `mqtt_send` onto a four-slot channel of fixed 1024-byte packets, and a
 * message handler that routes relay commands and OTA messages.
 */
module LegacyMqtt {
  import opened Base
  import opened Hex

  const MQTT_PACKET_LEN: nat := 1024
  const TOPIC_CAPACITY: nat := 64
  /** Capacity of the legacy publish channel. */
  const WRITE_CAPACITY: nat := 4
  /** Relay slots in a command (the array `[None; 4]`). */
  const SLOTS: nat := 4

  /** A queued publish: topic, the whole fixed-size buffer, and the used length. */
  datatype Packet = Packet(topic: seq<byte>, buf: seq<byte>, len: nat)

  /** What `mqtt_send` does: queue, drop the packet on a full channel, or panic. */
  datatype LegacySend = Sent | Dropped | TopicPanic | LengthPanic

  /** The bytes the MQTT task publishes for a packet: `buf[..len]`. */
  function Payload(p: Packet): seq<byte>
    requires p.len <= |p.buf|
  {
    p.buf[..p.len]
  }

  /** The limits every queued packet respects; the unused tail of the buffer is zero. */
  predicate WellFormed(p: Packet)
  {
    |p.topic| <= TOPIC_CAPACITY && |p.buf| == MQTT_PACKET_LEN && p.len < MQTT_PACKET_LEN &&
    forall i :: p.len <= i < MQTT_PACKET_LEN ==> p.buf[i] == 0
  }

  class LegacyChannel {
    var packets: seq<Packet>

    predicate Valid()
      reads this
    {
      |packets| <= WRITE_CAPACITY && forall i :: 0 <= i < |packets| ==> WellFormed(packets[i])
    }

    constructor()
      ensures Valid() && packets == []
    {
      packets := [];
    }

    /**
     * `mqtt_send`: a topic over 64 bytes panics, then a payload of 1024
     * bytes or more panics; otherwise the payload is copied into a zeroed
     * 1024-byte buffer and `try_send` queues it, or drops it when the
     * channel is full.
     */
    method MqttSend(buf: seq<byte>, topic: seq<byte>) returns (r: LegacySend)
      requires Valid()
      modifies this
      ensures Valid()
      ensures r == TopicPanic <==> |topic| > TOPIC_CAPACITY
      ensures r == LengthPanic <==> |topic| <= TOPIC_CAPACITY && |buf| >= MQTT_PACKET_LEN
      ensures r == Dropped <==>
        |topic| <= TOPIC_CAPACITY && |buf| < MQTT_PACKET_LEN && |old(packets)| == WRITE_CAPACITY
      ensures r == Sent ==>
        |packets| == |old(packets)| + 1 && packets[..|old(packets)|] == old(packets) &&
        packets[|old(packets)|].topic == topic && packets[|old(packets)|].len == |buf| &&
        Payload(packets[|old(packets)|]) == buf
      ensures r != Sent ==> packets == old(packets)
    {
      if |topic| > TOPIC_CAPACITY {
        return TopicPanic;
      }
      var stackBuf := new byte[MQTT_PACKET_LEN](_ => 0);
      var len := |buf|;
      if len >= MQTT_PACKET_LEN {
        return LengthPanic;
      }
      forall i | 0 <= i < len {
        stackBuf[i] := buf[i];
      }
      if |packets| == WRITE_CAPACITY {
        return Dropped;
      }
      var pk := Packet(topic, stackBuf[..], len);
      assert Payload(pk) == buf;
      packets := packets + [pk];
      r := Sent;
    }
  }

  /** The topics of the device `id`: `iot/<id>/ctrl`, `iot/<id>/ota/start`, `iot/<id>/ota/data`. */
  function CtrlTopic(id: seq<byte>): seq<byte> { AsciiBytes("iot/") + id + AsciiBytes("/ctrl") }
  function OtaStartTopic(id: seq<byte>): seq<byte> { AsciiBytes("iot/") + id + AsciiBytes("/ota/start") }
  function OtaDataTopic(id: seq<byte>): seq<byte> { AsciiBytes("iot/") + id + AsciiBytes("/ota/data") }

  /**
   * Slot `i` of a legacy ctrl payload: chunk `i` of `chunks(2)` parsed as a
   * base-16 u8. Unlike the newer handler, a trailing one-byte chunk is
   * parsed too (as a single digit).
   */
  function LegacySlot(a: seq<byte>, i: nat): Option<byte>
  {
    if 2 * i + 2 <= |a| then FromStrRadix16(a[2 * i..2 * i + 2])
    else if 2 * i < |a| then FromStrRadix16(a[2 * i..])
    else None
  }

  function LegacySlots(a: seq<byte>): (r: seq<Option<byte>>)
    ensures |r| == SLOTS
  {
    seq(SLOTS, i requires 0 <= i < SLOTS => LegacySlot(a, i))
  }

  /** The loop over `chunks(2).take(4)` of the legacy handler. */
  method ParseLegacyCtrl(a: seq<byte>) returns (slots: seq<Option<byte>>)
    ensures |slots| == SLOTS
    ensures forall i :: 0 <= i < SLOTS ==> slots[i] == LegacySlot(a, i)
  {
    var bytes := new Option<byte>[SLOTS](_ => None);
    var i := 0;
    while i < SLOTS && 2 * i < |a|
      invariant 0 <= i <= SLOTS
      invariant forall j :: 0 <= j < i ==> bytes[j] == LegacySlot(a, j)
      invariant forall j :: i <= j < SLOTS ==> bytes[j] == None
    {
      var chunk := if 2 * i + 2 <= |a| then a[2 * i..2 * i + 2] else a[2 * i..];
      var parsed := FromStrRadix16(chunk);
      assert parsed == LegacySlot(a, i);
      if parsed.Some? {
        bytes[i] := parsed;
      }
      i := i + 1;
    }
    slots := bytes[..];
  }

  /**
   * A trailing single character of an odd-length payload fills its slot
   * with that digit's value, when it is a hex digit.
   */
  lemma TrailingDigitParsed(a: seq<byte>)
    requires |a| % 2 == 1 && |a| < 2 * SLOTS
    ensures LegacySlots(a)[|a| / 2] == DigitValue(a[|a| - 1])
  {
    var i := |a| / 2;
    assert a[2 * i..] == [a[|a| - 1]];
    OneCharRadix(a[|a| - 1]);
  }

  /** A complete chunk parses as in the newer handler: two digits, or '+' and a digit. */
  lemma PairParsed(a: seq<byte>, i: nat)
    requires i < SLOTS && 2 * i + 2 <= |a|
    ensures LegacySlots(a)[i] ==
      if a[2 * i] == PLUS then DigitValue(a[2 * i + 1])
      else if DigitValue(a[2 * i]).Some? && DigitValue(a[2 * i + 1]).Some? then
        Some(16 * DigitValue(a[2 * i]).value + DigitValue(a[2 * i + 1]).value)
      else None
  {
    assert a[2 * i..2 * i + 2] == [a[2 * i], a[2 * i + 1]];
    TwoCharRadix(a[2 * i], a[2 * i + 1]);
  }

  /** Where the handler hands a message on: the relay task, the OTA writer, nowhere, or a panic. */
  datatype Dispatch =
    | OutputState(slots: seq<Option<byte>>)
    | OtaStart(payload: seq<byte>)
    | OtaWrite(payload: seq<byte>)
    | NoDispatch
    | DispatchPanic

  /**
   * `message_handler` as written: the ctrl branch parses the command and
   * then calls the async `output::output_state` without awaiting it, so the
   * future is dropped and no command reaches the relay task.
   */
  function DispatchAsWritten(id: seq<byte>, topic: seq<byte>, payload: seq<byte>): Dispatch
  {
    if topic == CtrlTopic(id) then
      if IsAscii(payload) then NoDispatch else DispatchPanic
    else if topic == OtaStartTopic(id) then OtaStart(payload)
    else if topic == OtaDataTopic(id) then OtaWrite(payload)
    else NoDispatch
  }

  /** `message_handler` with the command delivered to the relay task. */
  function DispatchOf(id: seq<byte>, topic: seq<byte>, payload: seq<byte>): Dispatch
  {
    if topic == CtrlTopic(id) then
      if IsAscii(payload) then OutputState(LegacySlots(payload)) else DispatchPanic
    else if topic == OtaStartTopic(id) then OtaStart(payload)
    else if topic == OtaDataTopic(id) then OtaWrite(payload)
    else NoDispatch
  }

  /** The handler with the command delivered; it panics on a non-ASCII ctrl payload and otherwise returns Ok. */
  method MessageHandler(id: seq<byte>, topic: seq<byte>, payload: seq<byte>) returns (d: Dispatch)
    ensures d == DispatchOf(id, topic, payload)
    ensures d.DispatchPanic? <==> topic == CtrlTopic(id) && !IsAscii(payload)
  {
    if topic == CtrlTopic(id) {
      if !IsAscii(payload) {
        return DispatchPanic;
      }
      var slots := ParseLegacyCtrl(payload);
      assert slots == LegacySlots(payload);
      d := OutputState(slots);
    } else if topic == OtaStartTopic(id) {
      d := OtaStart(payload);
    } else if topic == OtaDataTopic(id) {
      d := OtaWrite(payload);
    } else {
      d := NoDispatch;
    }
  }

  /**
   * As written, no ctrl message ever reaches the relays, while the corrected
   * handler delivers every ASCII one; the two agree on every other topic.
   */
  lemma CtrlNeverDelivered(id: seq<byte>, topic: seq<byte>, payload: seq<byte>)
    ensures !DispatchAsWritten(id, topic, payload).OutputState?
    ensures topic == CtrlTopic(id) && IsAscii(payload) ==>
      DispatchOf(id, topic, payload) == OutputState(LegacySlots(payload))
    ensures topic != CtrlTopic(id) ==> DispatchAsWritten(id, topic, payload) == DispatchOf(id, topic, payload)
  {
  }

  /** The payload "01" on the ctrl topic: as written nothing happens; corrected, relay 0 gets 1 second. */
  lemma CtrlDropExample(id: seq<byte>)
    ensures DispatchAsWritten(id, CtrlTopic(id), AsciiBytes("01")) == NoDispatch
    ensures DispatchOf(id, CtrlTopic(id), AsciiBytes("01")) == OutputState([Some(1), None, None, None])
  {
    var a := AsciiBytes("01");
    assert a == [0x30, 0x31];
    PairParsed(a, 0);
    assert LegacySlots(a)[0] == Some(1);
    assert LegacySlots(a) == [Some(1), None, None, None];
  }
}
