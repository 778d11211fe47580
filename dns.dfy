/**
 * The captive-portal DNS responder of the access point (`run_dns` in
 * src/wifi.rs). Every query of at most 100 bytes is answered in place: the
 * header is marked as a response with one answer, and a fixed A record for
 * the access point's own address is appended after the question.
 */
module CaptiveDns {
  import opened Base

  /** Size of the receive and reply buffer. */
  const SCRATCH_LEN: nat := 128
  /** Longest query answered. */
  const MAX_QUERY: nat := 100
  /** Size of the appended answer record. */
  const FOOTER_LEN: nat := 16
  /** Size of a DNS header; the question name starts right after it. */
  const HEADER_LEN: nat := 12
  const TYPE_A: nat := 1
  const CLASS_IN: nat := 1
  /** Time-to-live of the answer, in seconds. */
  const TTL_SECS: nat := 10
  /** The access point's own address, 192.168.2.1, that every name resolves to. */
  const AP_ADDRESS: seq<byte> := [192, 168, 2, 1]

  /** `b |= 0x80`: the top bit set, the seven low bits unchanged. */
  function SetTopBit(b: byte): (r: byte)
    ensures r >= 0x80 && r % 0x80 == b % 0x80
  {
    if b >= 0x80 then b else b + 0x80
  }

  /** The answer record: a name pointer, type, class, TTL, length and the address. */
  function Footer(addr: seq<byte>): (f: seq<byte>)
    requires |addr| == 4
    ensures |f| == FOOTER_LEN
  {
    [0xc0, 0x0c, 0x00, 0x01, 0x00, 0x01, 0x00, 0x00, 0x00, 0x0a, 0x00, 0x04] + addr
  }

  function BigEndian(s: seq<byte>): nat
    decreases |s|
  {
    if s == [] then 0 else BigEndian(s[..|s| - 1]) * 256 + s[|s| - 1]
  }

  /**
   * Read as a DNS resource record (section 4.1.3 of RFC 1035, with the
   * name compression of section 4.1.4): the name is a pointer to offset 12,
   * the question's name; the record is of type A and class IN, lives 10
   * seconds and carries four bytes of data, the address.
   */
  lemma FooterFields(addr: seq<byte>)
    requires |addr| == 4
    ensures var f := Footer(addr);
      f[0] >= 0xC0 && BigEndian(f[0..2]) - 0xC000 == HEADER_LEN &&
      BigEndian(f[2..4]) == TYPE_A && BigEndian(f[4..6]) == CLASS_IN &&
      BigEndian(f[6..10]) == TTL_SECS && BigEndian(f[10..12]) == |f[12..]| &&
      f[12..] == addr
  {
    var f := Footer(addr);
    assert f[0..2] == [0xc0, 0x0c];
    assert f[2..4] == [0, 1];
    assert f[4..6] == [0, 1];
    assert f[6..10] == [0, 0, 0, 0x0a];
    assert f[10..12] == [0, 4];
    assert [0xc0, 0x0c][..1] == [0xc0];
    assert [0, 1][..1] == [0];
    assert [0, 4][..1] == [0];
    assert [0, 0, 0, 0x0a][..3] == [0, 0, 0];
    assert [0, 0, 0][..2] == [0, 0];
    assert [0, 0][..1] == [0];
  }

  /**
   * The buffer after answering in place: QR and RA bits set (bytes 2 and 3),
   * the low byte of the answer count set to 1 (byte 7), then the answer
   * record copied right after the query.
   */
  function Patched(buf: seq<byte>, len: nat, footer: seq<byte>): (r: seq<byte>)
    requires |buf| == SCRATCH_LEN && len <= MAX_QUERY && |footer| == FOOTER_LEN
    ensures |r| == SCRATCH_LEN
  {
    var h := buf[2 := SetTopBit(buf[2])][3 := SetTopBit(buf[3])][7 := 1];
    h[..len] + footer + h[len + FOOTER_LEN..]
  }

  /** The received query with its header marked as an answer, byte by byte. */
  function MarkAnswered(q: seq<byte>): (r: seq<byte>)
    ensures |r| == |q|
  {
    seq(|q|, i requires 0 <= i < |q| => if i == 2 || i == 3 then SetTopBit(q[i]) else if i == 7 then 1 else q[i])
  }

  /**
   * The reply is the marked query followed by the answer record: no byte
   * left over in the buffer from an earlier, longer query reaches the
   * reply, even for a query shorter than a header.
   */
  lemma ReplyFromQueryOnly(query: seq<byte>, stale: seq<byte>, footer: seq<byte>)
    requires |query| <= MAX_QUERY && |query| + |stale| == SCRATCH_LEN && |footer| == FOOTER_LEN
    ensures Patched(query + stale, |query|, footer)[..|query| + FOOTER_LEN] == MarkAnswered(query) + footer
  {
    var buf := query + stale;
    var h := buf[2 := SetTopBit(buf[2])][3 := SetTopBit(buf[3])][7 := 1];
    assert h[..|query|] == MarkAnswered(query);
  }

  /**
   * Whatever name a query asks for, the reply's last four bytes are the
   * configured address: every name resolves to the access point.
   */
  lemma EveryNameResolvesToAp(query: seq<byte>)
    ensures (MarkAnswered(query) + Footer(AP_ADDRESS))[|query| + HEADER_LEN..] == AP_ADDRESS
  {
    var r := MarkAnswered(query) + Footer(AP_ADDRESS);
    assert r[|query|..] == Footer(AP_ADDRESS);
  }

  /** The responder task: its answer record and its scratch buffer. */
  class DnsResponder {
    const footer: array<byte>
    const scratch: array<byte>

    predicate Valid()
      reads this
    {
      footer.Length == FOOTER_LEN && scratch.Length == SCRATCH_LEN && footer != scratch
    }

    /** Build the answer record for `addr` and a zeroed scratch buffer. */
    constructor(addr: seq<byte>)
      requires |addr| == 4
      ensures Valid() && fresh(footer) && fresh(scratch)
      ensures footer[..] == Footer(addr)
      ensures forall i :: 0 <= i < SCRATCH_LEN ==> scratch[i] == 0
    {
      var f := new byte[FOOTER_LEN](_ => 0);
      f[0], f[1], f[2], f[3], f[4], f[5] := 0xc0, 0x0c, 0x00, 0x01, 0x00, 0x01;
      f[6], f[7], f[8], f[9], f[10], f[11] := 0x00, 0x00, 0x00, 0x0a, 0x00, 0x04;
      forall i | 12 <= i < FOOTER_LEN {
        f[i] := addr[i - 12];
      }
      footer := f;
      scratch := new byte[SCRATCH_LEN](_ => 0);
      assert f[..] == Footer(addr);
    }

    /**
     * One received datagram (`recv_from` fills the front of the scratch
     * buffer). A query over 100 bytes gets no reply; any other query is
     * answered with the marked query followed by the answer record.
     */
    method Respond(query: seq<byte>) returns (reply: Option<seq<byte>>)
      requires Valid() && |query| <= SCRATCH_LEN
      modifies scratch
      ensures Valid()
      ensures reply.None? <==> |query| > MAX_QUERY
      ensures reply.Some? ==> reply.value == MarkAnswered(query) + footer[..]
      ensures |query| > MAX_QUERY ==> scratch[..] == query + old(scratch[|query|..])
      ensures |query| <= MAX_QUERY ==> scratch[..] == Patched(query + old(scratch[|query|..]), |query|, footer[..])
    {
      ghost var stale := scratch[|query|..];
      forall i | 0 <= i < |query| {
        scratch[i] := query[i];
      }
      assert scratch[..] == query + stale;
      var len := |query|;
      if len > MAX_QUERY {
        return None;
      }
      scratch[2] := SetTopBit(scratch[2]);
      scratch[3] := SetTopBit(scratch[3]);
      scratch[7] := 1;
      ghost var h := scratch[..];
      var total := len + FOOTER_LEN;
      forall i | len <= i < total {
        scratch[i] := footer[i - len];
      }
      assert scratch[..] == h[..len] + footer[..] + h[total..];
      ReplyFromQueryOnly(query, stale, footer[..]);
      reply := Some(scratch[0..total]);
    }
  }
}
