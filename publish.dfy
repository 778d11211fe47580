/**
 * The outbound side of the MQTT client (src/mqtt/publish.rs): `mqtt_send`
 * checks a topic and a payload against their limits and queues a copy on an
 * eight-slot channel; the MQTT task takes packets off it with `next_publish`.
 */
module MqttPublish {
  import opened Base

  /** A payload must be shorter than this many bytes. */
  const MQTT_PACKET_LEN: nat := 1024
  /** Capacity in bytes of a topic (`heapless::String<64>`). */
  const TOPIC_CAPACITY: nat := 64
  /** Capacity of the publish channel. */
  const WRITE_CAPACITY: nat := 8

  /** A queued publish: its topic, a heap copy of the payload and its length. */
  datatype PublishPacket = PublishPacket(topic: seq<byte>, buf: seq<byte>, len: nat)

  /** What `mqtt_send` does: queue the packet, wait for room, or panic on a limit. */
  datatype SendResult = Queued | Blocked | TopicPanic | LengthPanic

  /** The limits every queued packet respects. */
  predicate WellFormed(p: PublishPacket)
  {
    |p.topic| <= TOPIC_CAPACITY && |p.buf| == p.len && p.len < MQTT_PACKET_LEN
  }

  /**
   * The publish channel. `sent` and `taken` are the histories of packets
   * put on and taken off; the packets still queued are what was sent and
   * not yet taken, so packets leave in the order they arrived.
   */
  class PublishChannel {
    var packets: seq<PublishPacket>
    ghost var sent: seq<PublishPacket>
    ghost var taken: seq<PublishPacket>

    ghost predicate Valid()
      reads this
    {
      |packets| <= WRITE_CAPACITY &&
      (forall i :: 0 <= i < |packets| ==> WellFormed(packets[i])) &&
      sent == taken + packets
    }

    constructor()
      ensures Valid() && packets == [] && sent == [] && taken == []
    {
      packets := [];
      sent := [];
      taken := [];
    }

    /**
     * `mqtt_send`: a topic over 64 bytes panics, then a payload of 1024
     * bytes or more panics; otherwise a copy of the payload is queued, or the
     * sender waits (`Blocked`, nothing changes) while the channel is full.
     */
    method MqttSend(buf: seq<byte>, topic: seq<byte>) returns (r: SendResult)
      requires Valid()
      modifies this
      ensures Valid()
      ensures r == TopicPanic <==> |topic| > TOPIC_CAPACITY
      ensures r == LengthPanic <==> |topic| <= TOPIC_CAPACITY && |buf| >= MQTT_PACKET_LEN
      ensures r == Blocked <==>
        |topic| <= TOPIC_CAPACITY && |buf| < MQTT_PACKET_LEN && |old(packets)| == WRITE_CAPACITY
      ensures r == Queued ==>
        packets == old(packets) + [PublishPacket(topic, buf, |buf|)] &&
        sent == old(sent) + [PublishPacket(topic, buf, |buf|)] && taken == old(taken)
      ensures r != Queued ==> packets == old(packets) && sent == old(sent) && taken == old(taken)
    {
      if |topic| > TOPIC_CAPACITY {
        return TopicPanic;
      }
      var len := |buf|;
      if len >= MQTT_PACKET_LEN {
        return LengthPanic;
      }
      var heapBuf := new byte[len](_ => 0);
      forall i | 0 <= i < len {
        heapBuf[i] := buf[i];
      }
      if |packets| == WRITE_CAPACITY {
        return Blocked;
      }
      var pk := PublishPacket(topic, heapBuf[..], len);
      assert heapBuf[..] == buf;
      packets := packets + [pk];
      sent := sent + [pk];
      r := Queued;
    }

    /** `next_publish`: the oldest queued packet, or None while the channel is empty (the task waits). */
    method NextPublish() returns (p: Option<PublishPacket>)
      requires Valid()
      modifies this
      ensures Valid()
      ensures sent == old(sent)
      ensures old(packets) == [] ==> p == None && packets == [] && taken == old(taken)
      ensures old(packets) != [] ==>
        p == Some(old(packets)[0]) && WellFormed(p.value) &&
        packets == old(packets)[1..] && taken == old(taken) + [p.value]
    {
      if packets == [] {
        p := None;
      } else {
        p := Some(packets[0]);
        taken := taken + [packets[0]];
        packets := packets[1..];
      }
    }
  }
}
