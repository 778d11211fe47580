/**
 * The DHCP server of the access-point interface: a lease table of at most
 * four entries (`DhcpLeaser`) and the decisions of RFC 2131 section 4.3
 * taken for Discover, Request, Release and Decline messages.
 *
 * DHCP packets are modelled abstractly (their encoding belongs to a foreign
 * crate): a reply flag, `ciaddr`, `yiaddr`, `chaddr` and the option list.
 */
module Dhcp {
  import opened Base

  /** An IPv4 address, as the u32 of its four octets (big-endian). */
  type Ip = x: int | 0 <= x < 0x1_0000_0000

  /** The 16-byte client hardware address `chaddr`. */
  type Mac = seq<byte>

  function IpOf(a: byte, b: byte, c: byte, d: byte): Ip
  {
    a * 0x100_0000 + b * 0x1_0000 + c * 0x100 + d
  }

  /** This server's own address, also sent as its Server Identifier. */
  const DHCP_IP: Ip := IpOf(192, 168, 2, 1)
  const LEASE_START: Ip := IpOf(192, 168, 2, 2)
  const LEASE_END: Ip := IpOf(192, 168, 2, 200)
  const LEASE_SECS: nat := 60 * 60 * 24
  const MAX_LEASES: nat := 4

  datatype Lease = Lease(ip: Ip, mac: Mac, expires: Instant)

  // ---------------------------------------------------------------------
  // The lease table as a value
  // ---------------------------------------------------------------------

  /** The position of the first lease of `mac`, or `|ls|` when it has none. */
  function FindIndex(ls: seq<Lease>, mac: Mac): (i: nat)
    ensures i <= |ls|
    ensures i < |ls| ==> ls[i].mac == mac
    ensures forall j :: 0 <= j < i ==> ls[j].mac != mac
  {
    if ls == [] then 0
    else if ls[0].mac == mac then 0
    else 1 + FindIndex(ls[1..], mac)
  }

  /** `get_lease` as a value: the first lease of `mac`, if any. */
  function FindLease(ls: seq<Lease>, mac: Mac): Option<Lease>
  {
    var i := FindIndex(ls, mac);
    if i < |ls| then Some(ls[i]) else None
  }

  /** Some lease holds the address `ip`. */
  predicate Held(ls: seq<Lease>, ip: int)
  {
    exists i :: 0 <= i < |ls| && ls[i].ip == ip
  }

  /** `remove_lease` as a value: the table without the first lease of `mac`. */
  function RemoveFirst(ls: seq<Lease>, mac: Mac): seq<Lease>
  {
    var i := FindIndex(ls, mac);
    if i < |ls| then ls[..i] + ls[i + 1..] else ls
  }

  /**
   * `add_lease` as a value: drop the MAC's old lease, then push the new one
   * unless the table is still full; the boolean tells whether it was pushed.
   */
  function InsertLease(ls: seq<Lease>, lease: Lease): (seq<Lease>, bool)
  {
    var rest := RemoveFirst(ls, lease.mac);
    if |rest| < MAX_LEASES then (rest + [lease], true) else (rest, false)
  }

  /** At most one lease per MAC. */
  predicate MacsUnique(ls: seq<Lease>)
  {
    forall i, j :: 0 <= i < j < |ls| ==> ls[i].mac != ls[j].mac
  }

  /** The invariant of the table. */
  predicate TableValid(ls: seq<Lease>)
  {
    |ls| <= MAX_LEASES && MacsUnique(ls)
  }

  /**
   * The lowest address in `from..=LEASE_END` that no lease holds (the
   * nested loop of `next_lease`, started at `from`).
   */
  function LowestFree(ls: seq<Lease>, from: int): (r: Option<Ip>)
    requires LEASE_START <= from
    ensures r.Some? ==> from <= r.value <= LEASE_END && !Held(ls, r.value)
    ensures r.Some? ==> forall ip :: from <= ip < r.value ==> Held(ls, ip)
    ensures r.None? ==> forall ip :: from <= ip <= LEASE_END ==> Held(ls, ip)
    decreases LEASE_END + 1 - from
  {
    if from > LEASE_END then None
    else if !Held(ls, from) then Some(from)
    else LowestFree(ls, from + 1)
  }

  // ---------------------------------------------------------------------
  // Properties of the table operations
  // ---------------------------------------------------------------------

  /** `FindLease` finds exactly the leases whose MAC matches, the first one first. */
  lemma FindLeaseSpec(ls: seq<Lease>, mac: Mac)
    ensures FindLease(ls, mac).None? <==> forall i :: 0 <= i < |ls| ==> ls[i].mac != mac
    ensures FindLease(ls, mac).Some? ==>
      exists i :: 0 <= i < |ls| && ls[i] == FindLease(ls, mac).value && ls[i].mac == mac &&
                  forall j :: 0 <= j < i ==> ls[j].mac != mac
  {
    var i := FindIndex(ls, mac);
    if i < |ls| {
      assert ls[i] == FindLease(ls, mac).value;
    }
  }

  /**
   * `remove_lease` returns true exactly when the MAC had a lease; it takes
   * out that one entry and keeps the others in order.
   */
  lemma RemoveFirstSpec(ls: seq<Lease>, mac: Mac)
    ensures FindLease(ls, mac).Some? ==> |RemoveFirst(ls, mac)| == |ls| - 1
    ensures FindLease(ls, mac).None? ==> RemoveFirst(ls, mac) == ls
    ensures forall k :: 0 <= k < |RemoveFirst(ls, mac)| ==>
      RemoveFirst(ls, mac)[k] == (if k < FindIndex(ls, mac) then ls[k] else ls[k + 1])
  {
    var i := FindIndex(ls, mac);
    if i < |ls| {
      SpliceAt(ls, i);
    }
  }

  /** Dropping position `i` of a sequence shifts the later elements down by one. */
  lemma SpliceAt(ls: seq<Lease>, i: nat)
    requires i < |ls|
    ensures |ls[..i] + ls[i + 1..]| == |ls| - 1
    ensures forall k :: 0 <= k < |ls| - 1 ==> (ls[..i] + ls[i + 1..])[k] == (if k < i then ls[k] else ls[k + 1])
  {
  }

  /** With one lease per MAC, removing a MAC's lease leaves none of its leases and keeps uniqueness. */
  lemma RemoveFirstUnique(ls: seq<Lease>, mac: Mac)
    requires MacsUnique(ls)
    ensures MacsUnique(RemoveFirst(ls, mac))
    ensures FindLease(RemoveFirst(ls, mac), mac).None?
  {
    RemoveFirstSpec(ls, mac);
    var i := FindIndex(ls, mac);
    var r := RemoveFirst(ls, mac);
    if i < |ls| {
      forall a, b | 0 <= a < b < |r| ensures r[a].mac != r[b].mac {
        var a' := if a < i then a else a + 1;
        var b' := if b < i then b else b + 1;
        assert r[a] == ls[a'] && r[b] == ls[b'];
      }
      forall k | 0 <= k < |r| ensures r[k].mac != mac {
        var k' := if k < i then k else k + 1;
        assert r[k] == ls[k'];
        assert k' != i;
      }
    }
    FindLeaseSpec(r, mac);
  }

  /** The leases of other MACs are found as before after removing one MAC's lease. */
  lemma RemoveFirstOthers(ls: seq<Lease>, mac: Mac, other: Mac)
    requires MacsUnique(ls) && other != mac
    ensures FindLease(RemoveFirst(ls, mac), other) == FindLease(ls, other)
  {
    RemoveFirstSpec(ls, mac);
    RemoveFirstUnique(ls, mac);
    var r := RemoveFirst(ls, mac);
    var i := FindIndex(ls, mac);
    FindLeaseSpec(ls, other);
    FindLeaseSpec(r, other);
    if i < |ls| {
      var j := FindIndex(ls, other);
      var jr := FindIndex(r, other);
      assert forall k :: 0 <= k < |r| ==> r[k] == (if k < i then ls[k] else ls[k + 1]);
      if j < |ls| {
        assert j != i;
        var jj := if j < i then j else j - 1;
        assert r[jj] == ls[j];
        assert jr <= jj;
        var back := if jr < i then jr else jr + 1;
        assert r[jr] == ls[back];
        assert back >= j;
        assert jr == jj;
      } else {
        forall k | 0 <= k < |r| ensures r[k].mac != other {
          var k' := if k < i then k else k + 1;
          assert r[k] == ls[k'];
        }
      }
    }
  }

  /**
   * `add_lease` fails exactly when the MAC had no lease and the table was
   * full; on success the new lease is the MAC's only lease, every other
   * MAC's lease is unchanged, and the table stays valid either way.
   */
  lemma AddLeaseSpec(ls: seq<Lease>, lease: Lease)
    requires TableValid(ls)
    ensures TableValid(InsertLease(ls, lease).0)
    ensures !InsertLease(ls, lease).1 <==> FindLease(ls, lease.mac).None? && |ls| == MAX_LEASES
    ensures InsertLease(ls, lease).1 ==> FindLease(InsertLease(ls, lease).0, lease.mac) == Some(lease)
    ensures !InsertLease(ls, lease).1 ==> InsertLease(ls, lease).0 == ls
    ensures forall m :: m != lease.mac ==> FindLease(InsertLease(ls, lease).0, m) == FindLease(ls, m)
  {
    var rest := RemoveFirst(ls, lease.mac);
    RemoveFirstSpec(ls, lease.mac);
    RemoveFirstUnique(ls, lease.mac);
    var (t, ok) := InsertLease(ls, lease);
    if ok {
      assert t == rest + [lease];
      assert forall k :: 0 <= k < |rest| ==> t[k] == rest[k];
      FindLeaseSpec(rest, lease.mac);
      assert t[|rest|] == lease;
      assert MacsUnique(t);
      assert forall k :: 0 <= k < |rest| ==> t[k] == rest[k];
      assert FindIndex(t, lease.mac) == |rest|;
    }
    forall m | m != lease.mac
      ensures FindLease(t, m) == FindLease(ls, m)
    {
      RemoveFirstOthers(ls, lease.mac, m);
      if ok {
        FindAfterAppend(rest, lease, m);
      }
    }
  }

  lemma FindAfterAppend(ls: seq<Lease>, lease: Lease, m: Mac)
    requires m != lease.mac
    ensures FindLease(ls + [lease], m) == FindLease(ls, m)
  {
    FindLeaseSpec(ls, m);
    FindLeaseSpec(ls + [lease], m);
    var i := FindIndex(ls, m);
    var t := ls + [lease];
    var it := FindIndex(t, m);
    if i < |ls| {
      assert t[i] == ls[i];
      assert it <= i;
      assert t[it] == ls[it];
    } else {
      assert it == |t|;
    }
  }

  /** Pigeonhole: fewer addresses held than the range has, so one is free. */
  lemma {:induction false} FreeAddressExists(ls: seq<Lease>, from: int, held: set<int>)
    requires LEASE_START <= from <= LEASE_END + 1
    requires forall i :: 0 <= i < |ls| ==> ls[i].ip in held || ls[i].ip < from
    requires |held| <= LEASE_END - from
    requires forall x :: x in held ==> from <= x
    ensures LowestFree(ls, from).Some?
    decreases LEASE_END + 1 - from
  {
    if Held(ls, from) {
      var i :| 0 <= i < |ls| && ls[i].ip == from;
      assert from in held;
      var held' := held - {from};
      assert |held'| == |held| - 1;
      FreeAddressExists(ls, from + 1, held');
    }
  }

  /** With at most four leases, `next_lease` always finds an address. */
  lemma NextLeaseNeverNone(ls: seq<Lease>)
    requires |ls| <= MAX_LEASES
    ensures LowestFree(ls, LEASE_START).Some?
  {
    var held := IpSet(ls);
    IpSetSize(ls);
    forall i | 0 <= i < |ls| ensures ls[i].ip in held || ls[i].ip < LEASE_START {
      IpSetHas(ls, i);
    }
    var inRange := set x | x in held && LEASE_START <= x;
    assert inRange <= held;
    SubsetSize(inRange, held);
    FreeAddressExists(ls, LEASE_START, inRange);
  }

  function IpSet(ls: seq<Lease>): (s: set<int>)
  {
    if ls == [] then {} else {ls[0].ip} + IpSet(ls[1..])
  }

  lemma {:induction false} IpSetSize(ls: seq<Lease>)
    ensures |IpSet(ls)| <= |ls|
  {
    if ls != [] {
      IpSetSize(ls[1..]);
    }
  }

  lemma {:induction false} IpSetHas(ls: seq<Lease>, i: nat)
    requires i < |ls|
    ensures ls[i].ip in IpSet(ls)
  {
    if i > 0 {
      IpSetHas(ls[1..], i - 1);
    }
  }

  lemma SubsetSize(a: set<int>, b: set<int>)
    requires a <= b
    ensures |a| <= |b|
  {
    assert b == a + (b - a);
  }

  // ---------------------------------------------------------------------
  // The lease table, updated in place
  // ---------------------------------------------------------------------

  /** `DhcpLeaser`: the heapless `Vec<DhcpLease, 4>` of current leases. */
  class DhcpLeaser {
    var leases: seq<Lease>

    ghost predicate Valid()
      reads this
    {
      TableValid(leases)
    }

    constructor ()
      ensures Valid() && leases == []
    {
      leases := [];
    }

    /** `get_lease`: scans the table for the first lease of `mac`. */
    method GetLease(mac: Mac) returns (r: Option<Lease>)
      ensures r == FindLease(leases, mac)
    {
      for i := 0 to |leases|
        invariant forall j :: 0 <= j < i ==> leases[j].mac != mac
      {
        if leases[i].mac == mac {
          assert FindIndex(leases, mac) == i;
          return Some(leases[i]);
        }
      }
      return None;
    }

    /** `next_lease`: the first address of the pool that no lease holds. */
    method NextLease() returns (r: Option<Ip>)
      ensures r == LowestFree(leases, LEASE_START)
    {
      var ip := LEASE_START;
      while ip <= LEASE_END
        invariant LEASE_START <= ip <= LEASE_END + 1
        invariant LowestFree(leases, LEASE_START) == LowestFree(leases, ip)
      {
        var found := false;
        for k := 0 to |leases|
          invariant found <==> exists j :: 0 <= j < k && leases[j].ip == ip
        {
          if leases[k].ip == ip {
            found := true;
          }
        }
        if !found {
          return Some(ip);
        }
        ip := ip + 1;
      }
      return None;
    }

    /** `remove_lease`: deletes the first lease of `mac`, shifting the rest down. */
    method RemoveLease(mac: Mac) returns (removed: bool)
      modifies this
      ensures removed == FindLease(old(leases), mac).Some?
      ensures leases == RemoveFirst(old(leases), mac)
      ensures old(Valid()) ==> Valid()
    {
      RemoveFirstSpec(leases, mac);
      if Valid() {
        RemoveFirstUnique(leases, mac);
      }
      for i := 0 to |leases|
        invariant forall j :: 0 <= j < i ==> leases[j].mac != mac
      {
        if leases[i].mac == mac {
          assert FindIndex(leases, mac) == i;
          leases := leases[..i] + leases[i + 1..];
          return true;
        }
      }
      return false;
    }

    /** `add_lease`: replaces the MAC's lease, failing only when the table is full. */
    method AddLease(ip: Ip, mac: Mac, expires: Instant) returns (ok: bool)
      requires Valid()
      modifies this
      ensures Valid()
      ensures (leases, ok) == InsertLease(old(leases), Lease(ip, mac, expires))
    {
      AddLeaseSpec(leases, Lease(ip, mac, expires));
      var _ := RemoveLease(mac);
      ok := |leases| < MAX_LEASES;
      if ok {
        leases := leases + [Lease(ip, mac, expires)];
      }
    }
  }

  // ---------------------------------------------------------------------
  // Packets and their classification
  // ---------------------------------------------------------------------

  datatype MessageType = Discover | Offer | Request | Decline | Ack | Nak | Release | Inform

  /** The options the server looks at; every other option is `OtherOption`. */
  datatype DhcpOption =
    | MessageTypeOption(mt: MessageType)           // option 53
    | ServerIdentifier(server: Ip)                 // option 54, RFC 2132 section 9.7
    | RequestedIpAddress(requested: Ip)            // option 50, RFC 2132 section 9.1
    | OtherOption(code: byte)

  datatype Packet = Packet(reply: bool, ciaddr: Ip, yiaddr: Ip, chaddr: Mac, options: seq<DhcpOption>)

  /** `edge_dhcp::server::Action` */
  datatype Action =
    | DiscoverAction(requestedIp: Option<Ip>, mac: Mac)
    | RequestAction(ip: Ip, mac: Mac)
    | ReleaseAction(ip: Ip, mac: Mac)
    | DeclineAction(ip: Ip, mac: Mac)

  /** The first Message Type option. */
  function FindMessageType(opts: seq<DhcpOption>): (r: Option<MessageType>)
    ensures r.None? <==> forall i :: 0 <= i < |opts| ==> !opts[i].MessageTypeOption?
    ensures r.Some? ==> exists i :: 0 <= i < |opts| && opts[i] == MessageTypeOption(r.value) &&
                                    forall j :: 0 <= j < i ==> !opts[j].MessageTypeOption?
  {
    if opts == [] then None
    else if opts[0].MessageTypeOption? then Some(opts[0].mt)
    else
      var r := FindMessageType(opts[1..]);
      assert r.Some? ==> exists i :: 1 <= i < |opts| && opts[i] == MessageTypeOption(r.value) &&
                                    forall j :: 0 <= j < i ==> !opts[j].MessageTypeOption? by {
        if r.Some? {
          var i :| 0 <= i < |opts[1..]| && opts[1..][i] == MessageTypeOption(r.value) &&
                   forall j :: 0 <= j < i ==> !opts[1..][j].MessageTypeOption?;
          assert opts[i + 1] == MessageTypeOption(r.value);
          forall j | 0 <= j < i + 1 ensures !opts[j].MessageTypeOption? {
            if j > 0 { assert opts[j] == opts[1..][j - 1]; }
          }
        }
      }
      assert r.None? ==> forall i :: 0 <= i < |opts| ==> !opts[i].MessageTypeOption? by {
        if r.None? {
          forall i | 0 <= i < |opts| ensures !opts[i].MessageTypeOption? {
            if i > 0 { assert opts[i] == opts[1..][i - 1]; }
          }
        }
      }
      r
  }

  /** The first Server Identifier option. */
  function FindServerId(opts: seq<DhcpOption>): (r: Option<Ip>)
    ensures r.None? <==> forall i :: 0 <= i < |opts| ==> !opts[i].ServerIdentifier?
    ensures r.Some? ==> exists i :: 0 <= i < |opts| && opts[i] == ServerIdentifier(r.value) &&
                                    forall j :: 0 <= j < i ==> !opts[j].ServerIdentifier?
  {
    if opts == [] then None
    else if opts[0].ServerIdentifier? then Some(opts[0].server)
    else
      var r := FindServerId(opts[1..]);
      assert r.Some? ==> exists i :: 1 <= i < |opts| && opts[i] == ServerIdentifier(r.value) &&
                                    forall j :: 0 <= j < i ==> !opts[j].ServerIdentifier? by {
        if r.Some? {
          var i :| 0 <= i < |opts[1..]| && opts[1..][i] == ServerIdentifier(r.value) &&
                   forall j :: 0 <= j < i ==> !opts[1..][j].ServerIdentifier?;
          assert opts[i + 1] == ServerIdentifier(r.value);
          forall j | 0 <= j < i + 1 ensures !opts[j].ServerIdentifier? {
            if j > 0 { assert opts[j] == opts[1..][j - 1]; }
          }
        }
      }
      assert r.None? ==> forall i :: 0 <= i < |opts| ==> !opts[i].ServerIdentifier? by {
        if r.None? {
          forall i | 0 <= i < |opts| ensures !opts[i].ServerIdentifier? {
            if i > 0 { assert opts[i] == opts[1..][i - 1]; }
          }
        }
      }
      r
  }

  /** `get_requested_ip`: the first Requested IP Address option. */
  function GetRequestedIp(opts: seq<DhcpOption>): (r: Option<Ip>)
    ensures r.None? <==> forall i :: 0 <= i < |opts| ==> !opts[i].RequestedIpAddress?
    ensures r.Some? ==> exists i :: 0 <= i < |opts| && opts[i] == RequestedIpAddress(r.value) &&
                                    forall j :: 0 <= j < i ==> !opts[j].RequestedIpAddress?
  {
    if opts == [] then None
    else if opts[0].RequestedIpAddress? then Some(opts[0].requested)
    else
      var r := GetRequestedIp(opts[1..]);
      assert r.Some? ==> exists i :: 1 <= i < |opts| && opts[i] == RequestedIpAddress(r.value) &&
                                    forall j :: 0 <= j < i ==> !opts[j].RequestedIpAddress? by {
        if r.Some? {
          var i :| 0 <= i < |opts[1..]| && opts[1..][i] == RequestedIpAddress(r.value) &&
                   forall j :: 0 <= j < i ==> !opts[1..][j].RequestedIpAddress?;
          assert opts[i + 1] == RequestedIpAddress(r.value);
          forall j | 0 <= j < i + 1 ensures !opts[j].RequestedIpAddress? {
            if j > 0 { assert opts[j] == opts[1..][j - 1]; }
          }
        }
      }
      assert r.None? ==> forall i :: 0 <= i < |opts| ==> !opts[i].RequestedIpAddress? by {
        if r.None? {
          forall i | 0 <= i < |opts| ensures !opts[i].RequestedIpAddress? {
            if i > 0 { assert opts[i] == opts[1..][i - 1]; }
          }
        }
      }
      r
  }

  /** `get_packet_action`: which of the four actions, if any, a packet asks for. */
  function GetPacketAction(p: Packet): (r: Option<Action>)
    ensures p.reply ==> r.None?
    ensures FindMessageType(p.options).None? ==> r.None?
    ensures r.Some? ==> FindServerId(p.options) == None || FindServerId(p.options) == Some(DHCP_IP)
    ensures r.Some? ==> r.value.mac == p.chaddr
    ensures r.Some? && r.value.DiscoverAction? <==>
      !p.reply && FindMessageType(p.options) == Some(Discover) &&
      FindServerId(p.options) in {None, Some(DHCP_IP)}
    ensures r.Some? && r.value.DiscoverAction? ==> r.value.requestedIp == GetRequestedIp(p.options)
    ensures r.Some? && r.value.RequestAction? <==>
      !p.reply && FindMessageType(p.options) == Some(Request) &&
      FindServerId(p.options) in {None, Some(DHCP_IP)} &&
      (GetRequestedIp(p.options).Some? || p.ciaddr != 0)
    ensures r.Some? && r.value.RequestAction? ==>
      r.value.ip == (if GetRequestedIp(p.options).Some? then GetRequestedIp(p.options).value else p.ciaddr)
    ensures r.Some? && (r.value.ReleaseAction? || r.value.DeclineAction?) <==>
      !p.reply && FindMessageType(p.options) in {Some(Release), Some(Decline)} &&
      FindServerId(p.options) == Some(DHCP_IP)
    ensures r.Some? && r.value.ReleaseAction? ==>
      FindMessageType(p.options) == Some(Release) && r.value.ip == p.yiaddr
    ensures r.Some? && r.value.DeclineAction? ==>
      FindMessageType(p.options) == Some(Decline) && r.value.ip == p.yiaddr
  {
    if p.reply then None
    else
      match FindMessageType(p.options)
      case None => None
      case Some(mt) =>
        var sid := FindServerId(p.options);
        if sid.Some? && sid != Some(DHCP_IP) then None
        else
          match mt
          case Discover => Some(DiscoverAction(GetRequestedIp(p.options), p.chaddr))
          case Request =>
            var requested :=
              match GetRequestedIp(p.options)
              case Some(ip) => Some(ip)
              case None => if p.ciaddr == 0 then None else Some(p.ciaddr);
            if requested.Some? then Some(RequestAction(requested.value, p.chaddr)) else None
          case Release => if sid == Some(DHCP_IP) then Some(ReleaseAction(p.yiaddr, p.chaddr)) else None
          case Decline => if sid == Some(DHCP_IP) then Some(DeclineAction(p.yiaddr, p.chaddr)) else None
          case _ => None
  }

  // ---------------------------------------------------------------------
  // Decisions of process_packet
  // ---------------------------------------------------------------------

  /** The reply `send_reply` would encode: its message type and `yiaddr`. */
  datatype Reply = Reply(mt: MessageType, ip: Option<Ip>)

  /**
   * An address may go to `mac` when the MAC has no lease, its lease already
   * has that address, or its lease has expired (strictly before `now`).
   */
  predicate Available(ls: seq<Lease>, ip: Ip, mac: Mac, now: Instant)
  {
    match FindLease(ls, mac)
    case None => true
    case Some(d) => d.ip == ip || now > d.expires
  }

  /**
   * The address offered for a Discover: the requested one when available,
   * else the MAC's current lease address, else the lowest free address.
   */
  function DiscoverOffer(ls: seq<Lease>, requested: Option<Ip>, mac: Mac, now: Instant): Option<Ip>
  {
    if requested.Some? && Available(ls, requested.value, mac, now) then requested
    else if FindLease(ls, mac).Some? then Some(FindLease(ls, mac).value.ip)
    else LowestFree(ls, LEASE_START)
  }

  /** The new table and the reply (if any) after one packet. */
  function Process(ls: seq<Lease>, p: Packet, now: Instant): (seq<Lease>, Option<Reply>)
    requires ClockInRange(now)
  {
    match GetPacketAction(p)
    case None => (ls, None)
    case Some(DiscoverAction(requested, mac)) =>
      var ip := DiscoverOffer(ls, requested, mac, now);
      (ls, if ip.Some? then Some(Reply(Offer, ip)) else None)
    case Some(RequestAction(ip, mac)) =>
      var (t, added) :=
        if Available(ls, ip, mac, now) then InsertLease(ls, Lease(ip, mac, now + LEASE_SECS * TICK_HZ))
        else (ls, false);
      (t, Some(if added then Reply(Ack, Some(ip)) else Reply(Nak, None)))
    case Some(ReleaseAction(_, mac)) => (RemoveFirst(ls, mac), None)
    case Some(DeclineAction(_, mac)) => (RemoveFirst(ls, mac), None)
  }

  /** Every packet keeps the table valid: at most four leases, one per MAC. */
  lemma ProcessKeepsTableValid(ls: seq<Lease>, p: Packet, now: Instant)
    requires ClockInRange(now) && TableValid(ls)
    ensures TableValid(Process(ls, p, now).0)
  {
    match GetPacketAction(p)
    case None =>
    case Some(DiscoverAction(_, _)) =>
    case Some(RequestAction(ip, mac)) =>
      AddLeaseSpec(ls, Lease(ip, mac, now + LEASE_SECS * TICK_HZ));
    case Some(ReleaseAction(_, mac)) =>
      RemoveFirstSpec(ls, mac);
      RemoveFirstUnique(ls, mac);
    case Some(DeclineAction(_, mac)) =>
      RemoveFirstSpec(ls, mac);
      RemoveFirstUnique(ls, mac);
  }

  /**
   * A Discover leaves the table alone and, with at most four leases, always
   * gets an Offer: the requested address when it is available to this MAC,
   * otherwise the MAC's own lease address, otherwise the lowest free one.
   */
  lemma DiscoverAlwaysOffers(ls: seq<Lease>, p: Packet, now: Instant)
    requires ClockInRange(now) && |ls| <= MAX_LEASES
    requires GetPacketAction(p).Some? && GetPacketAction(p).value.DiscoverAction?
    ensures Process(ls, p, now).0 == ls
    ensures Process(ls, p, now).1.Some? && Process(ls, p, now).1.value.mt == Offer
    ensures var a := GetPacketAction(p).value;
            var offered := Process(ls, p, now).1.value.ip;
            offered.Some? &&
            (a.requestedIp.Some? && Available(ls, a.requestedIp.value, a.mac, now) ==> offered == a.requestedIp) &&
            (!(a.requestedIp.Some? && Available(ls, a.requestedIp.value, a.mac, now)) && FindLease(ls, a.mac).Some? ==>
               offered == Some(FindLease(ls, a.mac).value.ip)) &&
            (!(a.requestedIp.Some? && Available(ls, a.requestedIp.value, a.mac, now)) && FindLease(ls, a.mac).None? ==>
               LEASE_START <= offered.value <= LEASE_END && !Held(ls, offered.value))
  {
    NextLeaseNeverNone(ls);
  }

  /**
   * A Request is answered Ack with the address exactly when the address is
   * available to the MAC and the lease could be stored, and the stored lease
   * expires one lease time (86400 s) from now; otherwise it is a Nak without
   * an address.
   */
  lemma RequestAckOrNak(ls: seq<Lease>, p: Packet, now: Instant)
    requires ClockInRange(now) && TableValid(ls)
    requires GetPacketAction(p).Some? && GetPacketAction(p).value.RequestAction?
    ensures var a := GetPacketAction(p).value;
            var (t, reply) := Process(ls, p, now);
            reply.Some? &&
            (reply.value == Reply(Ack, Some(a.ip)) <==>
               Available(ls, a.ip, a.mac, now) && (FindLease(ls, a.mac).Some? || |ls| < MAX_LEASES)) &&
            (reply.value.mt == Ack ==> FindLease(t, a.mac) == Some(Lease(a.ip, a.mac, now + LEASE_SECS * TICK_HZ))) &&
            (reply.value.mt != Ack ==> reply.value == Reply(Nak, None) && t == ls)
  {
    var a := GetPacketAction(p).value;
    AddLeaseSpec(ls, Lease(a.ip, a.mac, now + LEASE_SECS * TICK_HZ));
  }

  /** Release and Decline drop the MAC's lease, keep every other lease, and send nothing. */
  lemma ReleaseDropsLease(ls: seq<Lease>, p: Packet, now: Instant)
    requires ClockInRange(now) && TableValid(ls)
    requires GetPacketAction(p).Some?
    requires GetPacketAction(p).value.ReleaseAction? || GetPacketAction(p).value.DeclineAction?
    ensures var mac := GetPacketAction(p).value.mac;
            var (t, reply) := Process(ls, p, now);
            reply.None? && FindLease(t, mac).None? &&
            forall m :: m != mac ==> FindLease(t, m) == FindLease(ls, m)
  {
    var mac := GetPacketAction(p).value.mac;
    RemoveFirstUnique(ls, mac);
    forall m | m != mac ensures FindLease(RemoveFirst(ls, mac), m) == FindLease(ls, m) {
      RemoveFirstOthers(ls, mac, m);
    }
  }

  /** `DhcpServer`: the lease table it owns (the UDP socket is left out). */
  class DhcpServer {
    const leaser: DhcpLeaser

    constructor ()
      ensures fresh(leaser) && leaser.Valid() && leaser.leases == []
    {
      leaser := new DhcpLeaser();
    }

    /** `process_packet`: updates the table and returns the reply to send, if any. */
    method ProcessPacket(p: Packet, now: Instant) returns (reply: Option<Reply>)
      requires leaser.Valid() && ClockInRange(now)
      modifies leaser
      ensures leaser.Valid()
      ensures (leaser.leases, reply) == Process(old(leaser.leases), p, now)
    {
      ProcessKeepsTableValid(leaser.leases, p, now);
      var action := GetPacketAction(p);
      if action.None? {
        return None;
      }
      match action.value
      case DiscoverAction(requested, mac) =>
        var ip: Option<Ip> := None;
        if requested.Some? {
          var macLease := leaser.GetLease(mac);
          var available := match macLease
            case None => true
            case Some(d) => d.ip == requested.value || now > d.expires;
          if available {
            ip := requested;
          }
        }
        if ip.None? {
          var own := leaser.GetLease(mac);
          if own.Some? {
            ip := Some(own.value.ip);
          }
        }
        if ip.None? {
          ip := leaser.NextLease();
        }
        reply := if ip.Some? then Some(Reply(Offer, ip)) else None;
      case RequestAction(ip, mac) =>
        var macLease := leaser.GetLease(mac);
        var available := match macLease
          case None => true
          case Some(d) => d.ip == ip || now > d.expires;
        var added := false;
        if available {
          added := leaser.AddLease(ip, mac, now + LEASE_SECS * TICK_HZ);
        }
        reply := Some(if added then Reply(Ack, Some(ip)) else Reply(Nak, None));
      case ReleaseAction(_, mac) =>
        var _ := leaser.RemoveLease(mac);
        reply := None;
      case DeclineAction(_, mac) =>
        var _ := leaser.RemoveLease(mac);
        reply := None;
    }
  }
}
