/**
 * The TCP bridge on port 10001: incoming bytes are collected in a fixed
 * 1024-byte buffer (`accum`) until a newline, and each completed line is
 * published on `<iot_topic>/data`; `tcp_send` queues outgoing packets of
 * under 64 bytes for the socket.
 */
module Tcp {
  import opened Base

  /** `MQTT_PACKET_LEN`: the size of `accum` and the publish limit. */
  const ACCUM_LEN: nat := 1024
  const NEWLINE: byte := 10
  /** `TCP_PACKET_LEN` */
  const TCP_PACKET_LEN: nat := 64
  /** Capacity of the outgoing `WRITE` channel. */
  const WRITE_CAPACITY: nat := 2

  // ---------------------------------------------------------------------
  // One read_with call
  // ---------------------------------------------------------------------

  /** What the `read_with` closure returns: bytes consumed and whether a line completed; or a panic. */
  datatype ReadResult = ReadOk(consumed: nat, complete: bool) | ReadPanic

  /**
   * The closure of `read_with`, byte by byte as its loop runs: store the byte
   * at `accum[index]` (out of bounds when `index` is 1024), stop after a
   * newline or at the end of the chunk, and panic when the buffer fills
   * while more bytes of the chunk remain. `p` is `accum[..index]`.
   */
  function ReadChunk(p: seq<byte>, c: seq<byte>): (r: ReadResult)
    ensures r.ReadOk? ==> 1 <= r.consumed <= |c|
    decreases |c|
  {
    if |c| == 0 || |p| >= ACCUM_LEN then ReadPanic
    else if c[0] == NEWLINE then ReadOk(1, true)
    else if |c| == 1 then ReadOk(1, false)
    else if |p| + 1 >= ACCUM_LEN then ReadPanic
    else
      match ReadChunk(p + [c[0]], c[1..])
      case ReadOk(n, line) => ReadOk(n + 1, line)
      case ReadPanic => ReadPanic
  }

  /** The index of the first newline of `c`, or `|c|` when there is none. */
  function FirstNewline(c: seq<byte>): (i: nat)
    ensures i <= |c|
    ensures i < |c| ==> c[i] == NEWLINE
    ensures forall k :: 0 <= k < i ==> c[k] != NEWLINE
  {
    if c == [] then 0
    else if c[0] == NEWLINE then 0
    else 1 + FirstNewline(c[1..])
  }

  /** How much of a chunk one call consumes: up to and including its first newline, else all of it. */
  function LineEnd(c: seq<byte>): nat
  {
    if FirstNewline(c) < |c| then FirstNewline(c) + 1 else |c|
  }

  /**
   * In closed form: a call panics exactly when the chunk is empty or the
   * bytes up to its first newline (or all of it) do not fit after
   * `accum[..index]`; otherwise it consumes exactly those bytes and reports a
   * complete line iff the chunk holds a newline.
   */
  lemma {:induction false} ReadChunkClosedForm(p: seq<byte>, c: seq<byte>)
    ensures ReadChunk(p, c) ==
      if |c| == 0 || |p| + LineEnd(c) > ACCUM_LEN then ReadPanic
      else ReadOk(LineEnd(c), FirstNewline(c) < |c|)
    decreases |c|
  {
    if |c| == 0 || |p| >= ACCUM_LEN || c[0] == NEWLINE || |c| == 1 {
    } else if |p| + 1 >= ACCUM_LEN {
      assert FirstNewline(c) >= 1;
    } else {
      ReadChunkClosedForm(p + [c[0]], c[1..]);
      assert FirstNewline(c) == 1 + FirstNewline(c[1..]);
    }
  }

  /** The partial line that `ReadChunk` leaves in `accum[..index]`. */
  function AfterRead(p: seq<byte>, c: seq<byte>): seq<byte>
    requires ReadChunk(p, c).ReadOk?
  {
    p + c[..ReadChunk(p, c).consumed]
  }

  /**
   * A successful call consumes at least one byte; the consumed bytes hold no
   * newline except possibly the last, which is a newline iff the line is
   * complete; without a newline the whole chunk is consumed; and the buffer
   * never exceeds 1024 bytes.
   */
  lemma ReadChunkConsumes(p: seq<byte>, c: seq<byte>)
    requires ReadChunk(p, c).ReadOk?
    ensures var r := ReadChunk(p, c);
            1 <= r.consumed <= |c| &&
            (r.complete <==> c[r.consumed - 1] == NEWLINE) &&
            (forall k :: 0 <= k < r.consumed - 1 ==> c[k] != NEWLINE) &&
            (!r.complete ==> r.consumed == |c|) &&
            |AfterRead(p, c)| <= ACCUM_LEN
  {
    ReadChunkClosedForm(p, c);
  }

  // ---------------------------------------------------------------------
  // One serve step and the whole stream
  // ---------------------------------------------------------------------

  /** The effect of one readable event of `loop_s`. */
  datatype Step =
    | Partial(rest: seq<byte>)               // no newline yet; `accum[..index]`
    | Line(line: seq<byte>, consumed: nat)   // published; `index` reset to 0
    | StepPanic

  /** A read followed, on a complete line, by `mqtt_send`'s `len < 1024` check. */
  function ServeStep(p: seq<byte>, c: seq<byte>): Step
  {
    match ReadChunk(p, c)
    case ReadPanic => StepPanic
    case ReadOk(n, complete) =>
      if !complete then Partial(AfterRead(p, c))
      else if |AfterRead(p, c)| >= ACCUM_LEN then StepPanic
      else Line(AfterRead(p, c), n)
  }

  /** The lines published so far, the partial line left over, and whether the task panicked. */
  datatype Run = Run(lines: seq<seq<byte>>, rest: seq<byte>, panicked: bool)

  function Prepend(line: seq<byte>, r: Run): Run
  {
    Run([line] + r.lines, r.rest, r.panicked)
  }

  function Flatten(cs: seq<seq<byte>>): seq<byte>
  {
    if cs == [] then [] else cs[0] + Flatten(cs[1..])
  }

  lemma FlattenCons(c: seq<byte>, cs: seq<seq<byte>>)
    ensures Flatten([c] + cs) == c + Flatten(cs)
  {
    assert ([c] + cs)[1..] == cs;
  }

  /**
   * `loop_s` as the socket drives it: each chunk is offered to `read_with`;
   * the bytes a call leaves unconsumed stay in the socket and are offered
   * again on the next call.
   */
  function Drive(p: seq<byte>, cs: seq<seq<byte>>): Run
    decreases |Flatten(cs)|
  {
    if cs == [] then Run([], p, false)
    else
      var c := cs[0];
      match ServeStep(p, c)
      case StepPanic => Run([], [], true)
      case Partial(rest) =>
        ReadChunkConsumes(p, c);
        Drive(rest, cs[1..])
      case Line(line, n) =>
        ReadChunkConsumes(p, c);
        if n < |c| then
          FlattenCons(c[n..], cs[1..]);
          Prepend(line, Drive([], [c[n..]] + cs[1..]))
        else Prepend(line, Drive([], cs[1..]))
  }

  /**
   * The stream byte by byte, the reference for `Drive`: a byte arriving when
   * 1024 bytes are pending panics; a newline completes the line, which must
   * be shorter than 1024 bytes to be published.
   */
  function Stream(p: seq<byte>, s: seq<byte>): Run
    decreases |s|
  {
    if s == [] then Run([], p, false)
    else if |p| >= ACCUM_LEN then Run([], [], true)
    else if s[0] == NEWLINE then
      if |p + [s[0]]| >= ACCUM_LEN then Run([], [], true)
      else Prepend(p + [s[0]], Stream([], s[1..]))
    else Stream(p + [s[0]], s[1..])
  }

  /** One chunk against the byte-by-byte reference, whatever follows it. */
  lemma {:induction false} ServeStepMatchesStream(p: seq<byte>, c: seq<byte>, more: seq<byte>)
    requires |c| > 0
    ensures match ServeStep(p, c)
      case StepPanic => Stream(p, c + more) == Run([], [], true)
      case Partial(rest) => Stream(p, c + more) == Stream(rest, more)
      case Line(line, n) => n <= |c| && Stream(p, c + more) == Prepend(line, Stream([], c[n..] + more))
    decreases |c|
  {
    ReadChunkClosedForm(p, c);
    var s := c + more;
    assert s[0] == c[0];
    if |p| >= ACCUM_LEN {
    } else if c[0] == NEWLINE {
      assert c[..1] == [c[0]];
      assert s[1..] == c[1..] + more;
    } else if |c| == 1 {
      assert c[..1] == [c[0]];
      assert s[1..] == more;
    } else if |p| + 1 >= ACCUM_LEN {
      assert s[1..] == c[1..] + more;
      assert s[1..][0] == c[1];
    } else {
      assert s[1..] == c[1..] + more;
      ReadChunkClosedForm(p + [c[0]], c[1..]);
      ServeStepMatchesStream(p + [c[0]], c[1..], more);
      assert FirstNewline(c) == 1 + FirstNewline(c[1..]);
      match ReadChunk(p, c)
      case ReadPanic =>
      case ReadOk(n, _) =>
        assert (p + [c[0]]) + c[1..][..n - 1] == p + c[..n];
      }
  }

  /** Feeding chunks produces exactly what feeding the concatenated stream byte by byte produces. */
  lemma {:induction false} DriveMatchesStream(p: seq<byte>, cs: seq<seq<byte>>)
    requires forall i :: 0 <= i < |cs| ==> |cs[i]| > 0
    ensures Drive(p, cs) == Stream(p, Flatten(cs))
    decreases |Flatten(cs)|
  {
    if cs != [] {
      var c := cs[0];
      ServeStepMatchesStream(p, c, Flatten(cs[1..]));
      match ServeStep(p, c)
      case StepPanic =>
      case Partial(rest) =>
        ReadChunkConsumes(p, c);
        DriveMatchesStream(rest, cs[1..]);
      case Line(line, n) =>
        ReadChunkConsumes(p, c);
        if n < |c| {
          FlattenCons(c[n..], cs[1..]);
          var cs' := [c[n..]] + cs[1..];
          assert forall i :: 0 <= i < |cs'| ==> |cs'[i]| > 0 by {
            forall i | 0 <= i < |cs'| ensures |cs'[i]| > 0 {
              if i > 0 { assert cs'[i] == cs[i]; }
            }
          }
          DriveMatchesStream([], cs');
        } else {
          assert c[n..] + Flatten(cs[1..]) == Flatten(cs[1..]);
          DriveMatchesStream([], cs[1..]);
        }
    }
  }

  /**
   * Chunk-boundary invariance: two ways of splitting the same byte stream
   * into non-empty chunks publish the same lines, leave the same partial
   * line and panic alike, since `accum` and `index` are the only state.
   */
  lemma ChunkingInvariant(p: seq<byte>, cs1: seq<seq<byte>>, cs2: seq<seq<byte>>)
    requires forall i :: 0 <= i < |cs1| ==> |cs1[i]| > 0
    requires forall i :: 0 <= i < |cs2| ==> |cs2[i]| > 0
    requires Flatten(cs1) == Flatten(cs2)
    ensures Drive(p, cs1) == Drive(p, cs2)
  {
    DriveMatchesStream(p, cs1);
    DriveMatchesStream(p, cs2);
  }

  // ---------------------------------------------------------------------
  // The accumulator, updated in place
  // ---------------------------------------------------------------------

  /** The `accum` buffer and `index` of one connection's `loop_s`. */
  class LineAccumulator {
    const accum: array<byte>
    var index: nat

    ghost predicate Valid()
      reads this
    {
      accum.Length == ACCUM_LEN && index <= ACCUM_LEN
    }

    /** The partial line: `accum[..index]`. */
    ghost function Pending(): seq<byte>
      reads this, accum
      requires Valid()
    {
      accum[..index]
    }

    constructor ()
      ensures Valid() && fresh(accum) && Pending() == []
    {
      accum := new byte[ACCUM_LEN](_ => 0);
      index := 0;
    }

    /**
     * The `read_with` closure: copies bytes of `buf` to `accum[index..]`
     * until a newline or the end of `buf`.
     */
    method ReadWith(buf: seq<byte>) returns (r: ReadResult)
      requires Valid()
      modifies this, accum
      ensures r == ReadChunk(old(Pending()), buf)
      ensures r.ReadOk? ==> Valid() && index == old(index) + r.consumed
      ensures r.ReadOk? ==> Pending() == old(Pending()) + buf[..r.consumed]
    {
      ghost var p0 := Pending();
      ReadChunkClosedForm(p0, buf);
      var i := 0;
      while true
        invariant 0 <= i <= |buf|
        invariant index == |p0| + i && index <= ACCUM_LEN
        invariant accum[..index] == p0 + buf[..i]
        invariant forall k :: 0 <= k < i ==> buf[k] != NEWLINE
        invariant 0 < i ==> i < |buf| && index < ACCUM_LEN
        decreases |buf| - i
      {
        if index >= accum.Length || i >= |buf| {
          // `accum[index] = buf[i]` indexes out of bounds
          assert FirstNewline(buf) >= i;
          return ReadPanic;
        }
        accum[index] := buf[i];
        var current := buf[i];
        index := index + 1;
        i := i + 1;
        assert accum[..index] == p0 + buf[..i] by {
          assert buf[..i] == buf[..i - 1] + [buf[i - 1]];
        }
        if current == NEWLINE {
          assert FirstNewline(buf) == i - 1;
          return ReadOk(i, true);
        }
        if i >= |buf| {
          break;
        }
        if index >= accum.Length {
          assert FirstNewline(buf) >= i;
          return ReadPanic;
        }
      }
      assert FirstNewline(buf) == |buf|;
      assert buf[..i] == buf;
      return ReadOk(|buf|, false);
    }

    /**
     * One readable event of `loop_s`: run `read_with`; on a complete line,
     * publish `accum[..index]` (which `mqtt_send` rejects at 1024 bytes or
     * more) and reset `index` to 0.
     */
    method OnReadable(buf: seq<byte>) returns (s: Step)
      requires Valid()
      modifies this, accum
      ensures s == ServeStep(old(Pending()), buf)
      ensures s.Partial? ==> Valid() && Pending() == s.rest
      ensures s.Line? ==> Valid() && Pending() == []
    {
      ghost var p0 := Pending();
      var r := ReadWith(buf);
      match r
      case ReadPanic =>
        return StepPanic;
      case ReadOk(n, complete) =>
        if !complete {
          return Partial(accum[..index]);
        }
        if index >= ACCUM_LEN {
          // mqtt_send: assert!(len < MQTT_PACKET_LEN)
          return StepPanic;
        }
        var line := accum[..index];
        index := 0;
        return Line(line, n);
    }
  }

  // ---------------------------------------------------------------------
  // tcp_send and the outgoing queue
  // ---------------------------------------------------------------------

  /** The result of `tcp_send`: queued, waiting on a full channel, or a panic. */
  datatype SendResult = Queued | Blocked | SendPanic

  /** `Packet { buf, len }` of the outgoing channel. */
  datatype Packet = Packet(buf: seq<byte>, len: nat)

  /** The `WRITE` channel drained by `loop_s` into the socket. */
  class TcpOutbound {
    var queue: seq<Packet>

    ghost predicate Valid()
      reads this
    {
      |queue| <= WRITE_CAPACITY &&
      forall i :: 0 <= i < |queue| ==> queue[i].len == |queue[i].buf| < TCP_PACKET_LEN
    }

    constructor ()
      ensures Valid() && queue == []
    {
      queue := [];
    }

    /**
     * `tcp_send`: panics unless the buffer is under 64 bytes; otherwise
     * queues an exact copy, or waits (nothing changes yet) while the channel
     * is full.
     */
    method TcpSend(buf: seq<byte>) returns (r: SendResult)
      requires Valid()
      modifies this
      ensures Valid()
      ensures r == (if |buf| >= TCP_PACKET_LEN then SendPanic
                    else if |old(queue)| >= WRITE_CAPACITY then Blocked
                    else Queued)
      ensures r == Queued ==> queue == old(queue) + [Packet(buf, |buf|)]
      ensures r != Queued ==> queue == old(queue)
    {
      var len := |buf|;
      if len >= TCP_PACKET_LEN {
        return SendPanic;
      }
      if |queue| >= WRITE_CAPACITY {
        return Blocked;
      }
      var heapBuf := new byte[len](_ => 0);
      forall k | 0 <= k < len {
        heapBuf[k] := buf[k];
      }
      queue := queue + [Packet(heapBuf[..], len)];
      assert heapBuf[..] == buf;
      return Queued;
    }

    /** The second arm of `loop_s`'s select: the oldest packet, written as `buf[..len]`. */
    method NextWrite() returns (bytes: Option<seq<byte>>)
      requires Valid()
      modifies this
      ensures Valid()
      ensures old(queue) == [] ==> bytes.None? && queue == []
      ensures old(queue) != [] ==> bytes == Some(old(queue)[0].buf) && queue == old(queue)[1..]
    {
      if queue == [] {
        return None;
      }
      var pk := queue[0];
      assert pk.buf[..pk.len] == pk.buf;
      queue := queue[1..];
      return Some(pk.buf[..pk.len]);
    }
  }
}
