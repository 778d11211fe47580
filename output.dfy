/**
 * The relay output task (src/output.rs). Commands arrive on a two-slot
 * channel as four optional second counts; each relay pin is driven low for
 * that long (or until told otherwise) and returned high when its timer runs
 * out. The task sleeps until a command arrives or until the soonest timer.
 */
module Output {
  import opened Base

  const NUM_OUT: nat := 4
  /** Capacity of the command channel. */
  const CHANNEL_CAPACITY: nat := 2
  /** A command value of 0 releases the relay at once. */
  const RELEASE: byte := 0
  /** A command value of 255 holds the relay with no time limit. */
  const HOLD: byte := 255

  /**
   * One relay: its timer and its pin level (`high` is the level every pin
   * starts at and returns to; a running timer keeps the pin low).
   */
  datatype Relay = Relay(timer: Option<Instant>, high: bool)

  /** A relay is high exactly when no timer runs for it. */
  predicate Consistent(r: Relay)
  {
    r.high <==> r.timer.None?
  }

  /** The effect of one command slot on its relay. */
  function ApplyValue(r: Relay, v: Option<byte>, now: Instant): Relay
    requires ClockInRange(now)
  {
    match v
    case None => r
    case Some(seconds) =>
      if seconds == RELEASE then Relay(None, true)
      else if seconds == HOLD then Relay(Some(INSTANT_MAX), false)
      else Relay(Some(now + seconds * TICK_HZ), false)
  }

  /** What a deadline does to one relay: an expired timer releases it, a running one keeps it low. */
  function ExpireRelay(r: Relay, now: Instant): Relay
  {
    match r.timer
    case None => r
    case Some(t) => if t < now then Relay(None, true) else Relay(r.timer, false)
  }

  /** Commands and deadlines keep every relay consistent. */
  lemma ApplyKeepsConsistent(r: Relay, v: Option<byte>, now: Instant)
    requires ClockInRange(now) && Consistent(r)
    ensures Consistent(ApplyValue(r, v, now))
  {
  }

  lemma ExpireKeepsConsistent(r: Relay, now: Instant)
    requires Consistent(r)
    ensures Consistent(ExpireRelay(r, now))
  {
  }

  /**
   * A relay given `seconds` (1 to 254) at `now` stays low at every deadline
   * up to `now + seconds` and is released at every later one.
   */
  lemma TimedRelayReleased(r: Relay, seconds: byte, now: Instant, later: Instant)
    requires ClockInRange(now) && RELEASE < seconds < HOLD
    ensures ExpireRelay(ApplyValue(r, Some(seconds), now), later) ==
      if now + seconds * TICK_HZ < later then Relay(None, true)
      else Relay(Some(now + seconds * TICK_HZ), false)
  {
  }

  /** A held relay never expires, whatever the clock says. */
  lemma HoldNeverExpires(r: Relay, now: Instant, later: Instant)
    requires ClockInRange(now)
    ensures ExpireRelay(ApplyValue(r, Some(HOLD), now), later) == Relay(Some(INSTANT_MAX), false)
  {
  }

  /**
   * The position `min_by_key(as_secs)` picks among the running timers: the
   * first one whose whole-second value is smallest; None when no timer runs.
   */
  function MinIndex(ts: seq<Option<Instant>>): (r: Option<nat>)
    ensures r.None? <==> forall j :: 0 <= j < |ts| ==> ts[j].None?
    ensures r.Some? ==>
      r.value < |ts| && ts[r.value].Some? &&
      (forall j :: 0 <= j < |ts| && ts[j].Some? ==> AsSecs(ts[r.value].value) <= AsSecs(ts[j].value)) &&
      (forall j :: 0 <= j < r.value ==> ts[j].None? || AsSecs(ts[r.value].value) < AsSecs(ts[j].value))
    decreases |ts|
  {
    if ts == [] then None
    else
      var rest := MinIndex(ts[1..]);
      if ts[0].Some? && (rest.None? || AsSecs(ts[0].value) <= AsSecs(ts[1..][rest.value].value)) then Some(0)
      else if rest.Some? then Some(rest.value + 1)
      else None
  }

  /** The deadline the task waits for: the picked timer, or `Instant::MAX` when none runs. */
  function Soonest(ts: seq<Option<Instant>>): Instant
  {
    match MinIndex(ts)
    case Some(i) => ts[i].value
    case None => INSTANT_MAX
  }

  /**
   * The deadline is never more than a second late: it falls before every
   * running timer plus one second, because timers are compared by whole
   * seconds only. With no timer the task waits forever.
   */
  lemma SoonestWithinASecond(ts: seq<Option<Instant>>)
    ensures forall j :: 0 <= j < |ts| && ts[j].Some? ==> Soonest(ts) < ts[j].value + TICK_HZ
    ensures (forall j :: 0 <= j < |ts| ==> ts[j].None?) ==> Soonest(ts) == INSTANT_MAX
  {
    forall j | 0 <= j < |ts| && ts[j].Some?
      ensures Soonest(ts) < ts[j].value + TICK_HZ
    {
      var i := MinIndex(ts).value;
      var s, t := ts[i].value, ts[j].value;
      assert s / TICK_HZ <= t / TICK_HZ;
      assert s < (s / TICK_HZ + 1) * TICK_HZ;
      assert (t / TICK_HZ) * TICK_HZ <= t;
    }
  }

  /** What one turn of the task's loop did. */
  datatype StepEvent = Commanded | Expired | Waiting

  /**
   * The output task: per relay a timer and a pin, and the command channel
   * that `output_state` feeds.
   */
  class OutputTask {
    const timers: array<Option<Instant>>
    const pins: array<bool>
    var channel: seq<seq<Option<byte>>>

    predicate Valid()
      reads this, timers, pins
    {
      timers.Length == NUM_OUT && pins.Length == NUM_OUT &&
      (forall i :: 0 <= i < NUM_OUT ==> Consistent(Relay(timers[i], pins[i]))) &&
      |channel| <= CHANNEL_CAPACITY &&
      (forall k :: 0 <= k < |channel| ==> |channel[k]| == NUM_OUT)
    }

    /** The relay `i` as a value. */
    function RelayAt(i: nat): Relay
      requires i < timers.Length && i < pins.Length
      reads this, timers, pins
    {
      Relay(timers[i], pins[i])
    }

    /** Every pin starts high with no timer, and the channel starts empty. */
    constructor()
      ensures Valid() && fresh(timers) && fresh(pins) && channel == []
      ensures forall i :: 0 <= i < NUM_OUT ==> timers[i] == None && pins[i]
    {
      timers := new Option<Instant>[NUM_OUT](_ => None);
      pins := new bool[NUM_OUT](_ => true);
      channel := [];
    }

    /** `output_state`: queue a command, or wait (`false`, nothing changes) while the channel is full. */
    method OutputState(relays: seq<Option<byte>>) returns (queued: bool)
      requires Valid() && |relays| == NUM_OUT
      modifies this
      ensures Valid()
      ensures queued <==> |old(channel)| < CHANNEL_CAPACITY
      ensures channel == if queued then old(channel) + [relays] else old(channel)
    {
      if |channel| == CHANNEL_CAPACITY {
        queued := false;
      } else {
        channel := channel + [relays];
        queued := true;
      }
    }

    /** The `Ok(pkt)` arm: each slot's value is applied to its relay. */
    method HandlePacket(pkt: seq<Option<byte>>, now: Instant)
      requires Valid() && |pkt| == NUM_OUT && ClockInRange(now)
      modifies timers, pins
      ensures Valid()
      ensures forall i :: 0 <= i < NUM_OUT ==> RelayAt(i) == ApplyValue(old(RelayAt(i)), pkt[i], now)
    {
      for i := 0 to NUM_OUT
        invariant Valid()
        invariant forall j :: 0 <= j < i ==> RelayAt(j) == ApplyValue(old(RelayAt(j)), pkt[j], now)
        invariant forall j :: i <= j < NUM_OUT ==> RelayAt(j) == old(RelayAt(j))
      {
        ApplyKeepsConsistent(RelayAt(i), pkt[i], now);
        match pkt[i]
        case Some(seconds) =>
          if seconds == RELEASE {
            timers[i] := None;
            pins[i] := true;
          } else if seconds == HOLD {
            timers[i] := Some(INSTANT_MAX);
            pins[i] := false;
          } else {
            timers[i] := Some(now + seconds * TICK_HZ);
            pins[i] := false;
          }
        case None =>
      }
    }

    /** The `Err(_)` arm, taken at the deadline: each running timer is expired or kept. */
    method HandleTimeout(now: Instant)
      requires Valid()
      modifies timers, pins
      ensures Valid()
      ensures forall i :: 0 <= i < NUM_OUT ==> RelayAt(i) == ExpireRelay(old(RelayAt(i)), now)
    {
      for i := 0 to NUM_OUT
        invariant Valid()
        invariant forall j :: 0 <= j < i ==> RelayAt(j) == ExpireRelay(old(RelayAt(j)), now)
        invariant forall j :: i <= j < NUM_OUT ==> RelayAt(j) == old(RelayAt(j))
      {
        ExpireKeepsConsistent(RelayAt(i), now);
        match timers[i]
        case Some(timer) =>
          if timer < now {
            pins[i] := true;
            timers[i] := None;
          } else {
            pins[i] := false;
          }
        case None =>
      }
    }

    /**
     * One turn of the loop at time `now`: a queued command is taken first;
     * otherwise the wait times out once `now` reaches the soonest deadline;
     * otherwise the task keeps waiting and nothing changes.
     */
    method Step(now: Instant) returns (e: StepEvent)
      requires Valid() && ClockInRange(now)
      modifies this, timers, pins
      ensures Valid()
      ensures e == Commanded <==> old(channel) != []
      ensures e == Expired <==> old(channel) == [] && Soonest(old(timers[..])) <= now
      ensures e == Commanded ==>
        channel == old(channel)[1..] &&
        forall i :: 0 <= i < NUM_OUT ==> RelayAt(i) == ApplyValue(old(RelayAt(i)), old(channel)[0][i], now)
      ensures e == Expired ==>
        channel == old(channel) &&
        forall i :: 0 <= i < NUM_OUT ==> RelayAt(i) == ExpireRelay(old(RelayAt(i)), now)
      ensures e == Waiting ==> channel == old(channel) && timers[..] == old(timers[..]) && pins[..] == old(pins[..])
    {
      var soonest := Soonest(timers[..]);
      if channel != [] {
        var pkt := channel[0];
        channel := channel[1..];
        HandlePacket(pkt, now);
        e := Commanded;
      } else if soonest <= now {
        HandleTimeout(now);
        e := Expired;
      } else {
        e := Waiting;
      }
    }
  }
}
