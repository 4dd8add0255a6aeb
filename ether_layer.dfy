/** The router's link layer (ether_layer.c): Ethernet framing, the ARP cache
    keyed by (IP address, interface), ARP request/reply handling after RFC 826,
    and the IPv4-multicast to MAC mapping of section 6.4 of RFC 1112.

    Every `send_packet` call appends one `Transmit` to the log `sent`; the
    capture transport itself is not modelled. */
module EtherLayer {
  import opened Net

  const ARP_TABLE_CAPACITY: nat := 1024
  const ARPHRD_ETHER: bv16 := 1
  const ARPOP_REQUEST: bv16 := 1
  const ARPOP_REPLY: bv16 := 2
  /** `sizeof(arp_packet_t)`: the packed header and the four addresses. */
  const ARP_PACKET_LEN: nat := 28

  datatype ArpEntry = ArpEntry(ip: Ip, ifIdx: int, mac: Mac)

  /** `arp_packet_t`; the 16-bit and 32-bit fields hold their host values. */
  datatype ArpPacket = ArpPacket(hrd: bv16, pro: bv16, hln: byte, pln: byte, op: bv16,
                                 sha: Mac, sip: Ip, tha: Mac, tip: Ip)

  // ----- wire formats -----

  function EncodeArp(a: ArpPacket): (r: seq<byte>)
    ensures |r| == ARP_PACKET_LEN
  {
    Be16(a.hrd) + Be16(a.pro) + [a.hln, a.pln] + Be16(a.op) + a.sha + Be32(a.sip) + a.tha + Be32(a.tip)
  }

  /** Reading a received 28-byte ARP payload through the `arp_packet_t` overlay. */
  function DecodeArp(s: seq<byte>): ArpPacket
    requires |s| == ARP_PACKET_LEN
  {
    ArpPacket(GetBe16(s, 0), GetBe16(s, 2), s[4], s[5], GetBe16(s, 6),
              s[8..14], GetBe32(s, 14), s[18..24], GetBe32(s, 24))
  }

  /** Where each field's bytes sit in an ARP payload. */
  lemma ArpBytes(hrd: seq<byte>, pro: seq<byte>, lens: seq<byte>, op: seq<byte>,
                 sha: seq<byte>, sip: seq<byte>, tha: seq<byte>, tip: seq<byte>)
    requires |hrd| == 2 && |pro| == 2 && |lens| == 2 && |op| == 2
    requires |sha| == 6 && |sip| == 4 && |tha| == 6 && |tip| == 4
    ensures var s := hrd + pro + lens + op + sha + sip + tha + tip;
      s[0] == hrd[0] && s[1] == hrd[1] && s[2] == pro[0] && s[3] == pro[1] &&
      s[4] == lens[0] && s[5] == lens[1] && s[6] == op[0] && s[7] == op[1] &&
      s[8..14] == sha && s[14] == sip[0] && s[15] == sip[1] && s[16] == sip[2] && s[17] == sip[3] &&
      s[18..24] == tha && s[24] == tip[0] && s[25] == tip[1] && s[26] == tip[2] && s[27] == tip[3]
  {
    var s := hrd + pro + lens + op + sha + sip + tha + tip;
    assert s[8..14] == sha;
    assert s[18..24] == tha;
  }

  /** The 16-bit fields and the two lengths of an encoded payload read back. */
  lemma ArpHeadFields(a: ArpPacket)
    ensures var s := EncodeArp(a);
      GetBe16(s, 0) == a.hrd && GetBe16(s, 2) == a.pro && s[4] == a.hln && s[5] == a.pln && GetBe16(s, 6) == a.op
  {
    var s := EncodeArp(a);
    ArpBytes(Be16(a.hrd), Be16(a.pro), [a.hln, a.pln], Be16(a.op), a.sha, Be32(a.sip), a.tha, Be32(a.tip));
    Be16At(s, 0, a.hrd);
    Be16At(s, 2, a.pro);
    Be16At(s, 6, a.op);
  }

  /** The two addresses of an encoded payload read back. */
  lemma ArpAddressFields(a: ArpPacket)
    ensures var s := EncodeArp(a);
      s[8..14] == a.sha && GetBe32(s, 14) == a.sip && s[18..24] == a.tha && GetBe32(s, 24) == a.tip
  {
    var s := EncodeArp(a);
    ArpBytes(Be16(a.hrd), Be16(a.pro), [a.hln, a.pln], Be16(a.op), a.sha, Be32(a.sip), a.tha, Be32(a.tip));
    Be32At(s, 14, a.sip);
    Be32At(s, 24, a.tip);
  }

  lemma DecodeEncodeArp(a: ArpPacket)
    ensures DecodeArp(EncodeArp(a)) == a
  {
    ArpHeadFields(a);
    ArpAddressFields(a);
  }

  lemma EncodeDecodeArp(s: seq<byte>)
    requires |s| == ARP_PACKET_LEN
    ensures EncodeArp(DecodeArp(s)) == s
  {
    GetBe16Encode(s, 0);
    GetBe16Encode(s, 2);
    GetBe16Encode(s, 6);
    GetBe32Encode(s, 14);
    GetBe32Encode(s, 24);
    assert s == s[0..2] + s[2..4] + [s[4], s[5]] + s[6..8] + s[8..14] + s[14..18] + s[18..24] + s[24..28];
  }

  /** The frame `send_l3_packet` builds: destination, source, EtherType, payload. */
  function EtherFrame(dst: Mac, src: Mac, etherType: bv16, payload: seq<byte>): (f: seq<byte>)
    ensures |f| == ETHER_HDR_LEN + |payload|
  {
    dst + src + Be16(etherType) + payload
  }

  /** Parsing a built frame gives back its four parts. */
  lemma EtherFrameFields(dst: Mac, src: Mac, etherType: bv16, payload: seq<byte>)
    ensures var f := EtherFrame(dst, src, etherType, payload);
      f[..6] == dst && f[6..12] == src && GetBe16(f, 12) == etherType && f[ETHER_HDR_LEN..] == payload
  {
    Be16RoundTrip(etherType, dst + src, payload);
  }

  // ----- MAC predicates and the multicast mapping -----

  /** `is_broadcast_mac`: a byte-wise comparison with ff:ff:ff:ff:ff:ff. */
  function IsBroadcastMac(m: Mac): (b: bool)
    ensures b <==> forall k :: 0 <= k < 6 ==> m[k] == 0xff
  {
    m == BROADCAST_MAC
  }

  /** `is_multicast_mac`: the prefix 01:00:5e of RFC 1112 and a clear top bit
      in byte 3.  The C reads the byte as a signed `char`, so `mac[3] >> 7` is
      0 exactly when the top bit is clear, as with the unsigned shift here. */
  function IsMulticastMac(m: Mac): (b: bool)
    ensures b <==> m[..3] == [0x01, 0x00, 0x5e] && m[3] < 0x80
  {
    m[0] == 0x01 && m[1] == 0x00 && m[2] == 0x5e && (m[3] >> 7) == 0
  }

  /** The multicast branch of `arp_get_mac`: the MAC 01:00:5e:00:00:00 with the
      low 23 bits of the IP address OR-ed into its last four bytes. */
  function MulticastMac(ip: Ip): Mac {
    [0x01, 0x00] + Be32(0x5e000000 | (ip & 0x007fffff))
  }

  /** Byte by byte, the multicast MAC of b0.b1.b2.b3 is 01:00:5e:(b1&0x7f):b2:b3,
      and it passes the multicast test of the frame filter. */
  lemma MulticastMacBytes(ip: Ip)
    ensures var b := Be32(ip);
      MulticastMac(ip) == [0x01, 0x00, 0x5e, b[1] & 0x7f, b[2], b[3]]
    ensures IsMulticastMac(MulticastMac(ip))
  {
    var x := 0x5e000000 | (ip & 0x007fffff);
    GroupBits(ip);
    var m, b := MulticastMac(ip), Be32(ip);
    assert m[2] == 0x5e && m[3] == b[1] & 0x7f && m[4] == b[2] && m[5] == b[3];
  }

  /** The bytes of the group MAC's last four bytes, as bit-vector facts. */
  lemma GroupBits(ip: Ip)
    ensures var x := 0x5e000000 | (ip & 0x007fffff);
      (x >> 24) as byte == 0x5e && ((x >> 16) & 0xff) as byte == ((ip >> 16) & 0xff) as byte & 0x7f &&
      ((x >> 8) & 0xff) as byte == ((ip >> 8) & 0xff) as byte && (x & 0xff) as byte == (ip & 0xff) as byte
  {
  }

  /** Two group addresses share a MAC exactly when their low 23 bits agree. */
  lemma MulticastMacCollision(a: Ip, b: Ip)
    ensures MulticastMac(a) == MulticastMac(b) <==> a & 0x007fffff == b & 0x007fffff
  {
    if MulticastMac(a) == MulticastMac(b) {
      var x := 0x5e000000 | (a & 0x007fffff);
      var y := 0x5e000000 | (b & 0x007fffff);
      assert Be32(x) == MulticastMac(a)[2..];
      assert Be32(y) == MulticastMac(b)[2..];
      Be32RoundTrip(x, [], []);
      Be32RoundTrip(y, [], []);
      assert x == y;
    }
  }

  /** The acceptance test of `recv_ip_packet`: the frame is for this
      interface's MAC, for a multicast MAC or for the broadcast MAC. */
  predicate AcceptsDst(own: Mac, dst: Mac) {
    dst == own || IsMulticastMac(dst) || IsBroadcastMac(dst)
  }

  // ----- the ARP cache as a value -----

  predicate ArpMatch(e: ArpEntry, ip: Ip, ifIdx: int) {
    e.ip == ip && e.ifIdx == ifIdx
  }

  /** `arp_find_entry`: the first entry for (ip, ifIdx), or `|t|`. */
  function ArpFind(t: seq<ArpEntry>, ip: Ip, ifIdx: int): (pos: nat)
    ensures pos <= |t|
    ensures pos < |t| ==> ArpMatch(t[pos], ip, ifIdx)
    ensures forall j :: 0 <= j < pos ==> !ArpMatch(t[j], ip, ifIdx)
  {
    if t == [] then 0
    else if ArpMatch(t[0], ip, ifIdx) then 0
    else 1 + ArpFind(t[1..], ip, ifIdx)
  }

  /** `arp_insert_entry` on the table value: (new table, return code). */
  function ArpInsert(t: seq<ArpEntry>, ip: Ip, ifIdx: int, mac: Mac): (seq<ArpEntry>, int) {
    var pos := ArpFind(t, ip, ifIdx);
    if pos < |t| then (t[pos := ArpEntry(ip, ifIdx, mac)], 0)
    else if |t| >= ARP_TABLE_CAPACITY then (t, OVERFLOW_ERROR)
    else (t + [ArpEntry(ip, ifIdx, mac)], 0)
  }

  /** No two entries share an (IP, interface) pair. */
  ghost predicate UniquePairs(t: seq<ArpEntry>) {
    forall i, j :: 0 <= i < j < |t| ==> !(t[i].ip == t[j].ip && t[i].ifIdx == t[j].ifIdx)
  }

  /** The three outcomes of an upsert, stated without reference to the search:
      an existing pair only gets the new MAC, a new pair is appended when there
      is room, and a new pair on a full table is refused with the table
      unchanged.  No other entry is touched. */
  lemma ArpInsertOutcome(t: seq<ArpEntry>, ip: Ip, ifIdx: int, mac: Mac)
    ensures var (t', rc) := ArpInsert(t, ip, ifIdx, mac);
      (forall j :: 0 <= j < |t| ==> !ArpMatch(t[j], ip, ifIdx)) ==>
        if |t| < ARP_TABLE_CAPACITY then rc == 0 && t' == t + [ArpEntry(ip, ifIdx, mac)]
        else rc == OVERFLOW_ERROR && t' == t
    ensures var (t', rc) := ArpInsert(t, ip, ifIdx, mac);
      forall i :: 0 <= i < |t| && ArpMatch(t[i], ip, ifIdx) && (forall j :: 0 <= j < i ==> !ArpMatch(t[j], ip, ifIdx)) ==>
        rc == 0 && |t'| == |t| && t'[i] == t[i].(mac := mac) &&
        forall k :: 0 <= k < |t| && k != i ==> t'[k] == t[k]
  {
  }

  /** Upserting keeps the (IP, interface) pairs unique. */
  lemma ArpInsertKeepsUnique(t: seq<ArpEntry>, ip: Ip, ifIdx: int, mac: Mac)
    requires UniquePairs(t)
    ensures UniquePairs(ArpInsert(t, ip, ifIdx, mac).0)
  {
    var t' := ArpInsert(t, ip, ifIdx, mac).0;
    var pos := ArpFind(t, ip, ifIdx);
    if pos == |t| && |t| < ARP_TABLE_CAPACITY {
      forall i, j | 0 <= i < j < |t'|
        ensures !(t'[i].ip == t'[j].ip && t'[i].ifIdx == t'[j].ifIdx)
      {
        if j == |t| {
          assert !ArpMatch(t[i], ip, ifIdx);
        }
      }
    }
  }

  /** After a successful upsert, looking the pair up yields the new MAC. */
  lemma ArpInsertThenFind(t: seq<ArpEntry>, ip: Ip, ifIdx: int, mac: Mac)
    requires ArpInsert(t, ip, ifIdx, mac).1 == 0
    ensures var t' := ArpInsert(t, ip, ifIdx, mac).0;
      ArpFind(t', ip, ifIdx) < |t'| && t'[ArpFind(t', ip, ifIdx)].mac == mac
  {
    var t' := ArpInsert(t, ip, ifIdx, mac).0;
    var pos := ArpFind(t, ip, ifIdx);
    assert t'[pos] == ArpEntry(ip, ifIdx, mac);
  }

  /** The self entries `ether_init` stores for the first `n` interfaces. */
  function SelfEntries(ifs: seq<Iface>): (t: seq<ArpEntry>)
    ensures |t| == |ifs|
  {
    seq(|ifs|, k requires 0 <= k < |ifs| => ArpEntry(ifs[k].ip, k, ifs[k].mac))
  }

  // ----- frames the link layer sends -----

  function IpFrame(ifs: seq<Iface>, ifIdx: nat, dstMac: Mac, ipPacket: seq<byte>): Transmit
    requires ifIdx < |ifs|
  {
    Transmit(ifIdx, EtherFrame(dstMac, ifs[ifIdx].mac, ETHERTYPE_IP, ipPacket))
  }

  function ArpRequestFrame(ifs: seq<Iface>, ifIdx: nat, ip: Ip): Transmit
    requires ifIdx < |ifs|
  {
    var me := ifs[ifIdx];
    Transmit(ifIdx, EtherFrame(BROADCAST_MAC, me.mac, ETHERTYPE_ARP,
      EncodeArp(ArpPacket(ARPHRD_ETHER, ETHERTYPE_IP, 6, 4, ARPOP_REQUEST, me.mac, me.ip, ZERO_MAC, ip))))
  }

  function ArpReplyFrame(ifs: seq<Iface>, ifIdx: nat, queryIp: Ip, ansMac: Mac, dstIp: Ip, dstMac: Mac): Transmit
    requires ifIdx < |ifs|
  {
    Transmit(ifIdx, EtherFrame(dstMac, ifs[ifIdx].mac, ETHERTYPE_ARP,
      EncodeArp(ArpPacket(ARPHRD_ETHER, ETHERTYPE_IP, 6, 4, ARPOP_REPLY, ansMac, queryIp, dstMac, dstIp))))
  }

  /** The request `send_arp_request` broadcasts, as a receiver parses it. */
  lemma ArpRequestLayout(ifs: seq<Iface>, ifIdx: nat, ip: Ip)
    requires ifIdx < |ifs|
    ensures var f := ArpRequestFrame(ifs, ifIdx, ip).frame;
      |f| == ETHER_HDR_LEN + ARP_PACKET_LEN &&
      f[..6] == BROADCAST_MAC && f[6..12] == ifs[ifIdx].mac && GetBe16(f, 12) == ETHERTYPE_ARP &&
      DecodeArp(f[ETHER_HDR_LEN..]) == ArpPacket(1, 0x0800, 6, 4, 1, ifs[ifIdx].mac, ifs[ifIdx].ip, ZERO_MAC, ip)
  {
    var a := ArpPacket(ARPHRD_ETHER, ETHERTYPE_IP, 6, 4, ARPOP_REQUEST, ifs[ifIdx].mac, ifs[ifIdx].ip, ZERO_MAC, ip);
    EtherFrameFields(BROADCAST_MAC, ifs[ifIdx].mac, ETHERTYPE_ARP, EncodeArp(a));
    DecodeEncodeArp(a);
  }

  /** The reply `send_arp_reply` sends, as a receiver parses it. */
  lemma ArpReplyLayout(ifs: seq<Iface>, ifIdx: nat, queryIp: Ip, ansMac: Mac, dstIp: Ip, dstMac: Mac)
    requires ifIdx < |ifs|
    ensures var f := ArpReplyFrame(ifs, ifIdx, queryIp, ansMac, dstIp, dstMac).frame;
      |f| == ETHER_HDR_LEN + ARP_PACKET_LEN &&
      f[..6] == dstMac && f[6..12] == ifs[ifIdx].mac && GetBe16(f, 12) == ETHERTYPE_ARP &&
      DecodeArp(f[ETHER_HDR_LEN..]) == ArpPacket(1, 0x0800, 6, 4, 2, ansMac, queryIp, dstMac, dstIp)
  {
    var a := ArpPacket(ARPHRD_ETHER, ETHERTYPE_IP, 6, 4, ARPOP_REPLY, ansMac, queryIp, dstMac, dstIp);
    EtherFrameFields(dstMac, ifs[ifIdx].mac, ETHERTYPE_ARP, EncodeArp(a));
    DecodeEncodeArp(a);
  }

  // ----- resolution and ARP reception as values -----

  datatype Resolution = Resolved(mac: Mac) | Pending(request: Transmit)

  /** What `arp_get_mac` does for (ip, ifIdx) on cache `t`. */
  function Resolve(ifs: seq<Iface>, t: seq<ArpEntry>, ip: Ip, ifIdx: nat): Resolution
    requires IsMulticastIp(ip) || ifIdx < |ifs|
  {
    if IsMulticastIp(ip) then Resolved(MulticastMac(ip))
    else
      var pos := ArpFind(t, ip, ifIdx);
      if pos < |t| then Resolved(t[pos].mac) else Pending(ArpRequestFrame(ifs, ifIdx, ip))
  }

  /** A frame `recv_ip_packet` returns as an IPv4 datagram: long enough,
      accepted and EtherType IP. */
  predicate IsIpFrame(own: Mac, frame: seq<byte>) {
    |frame| >= ETHER_HDR_LEN && AcceptsDst(own, frame[..6]) && GetBe16(frame, 12) == ETHERTYPE_IP
  }

  /** A frame the ARP path consumes: long enough, accepted, EtherType ARP and a
      payload of exactly 28 bytes. */
  predicate IsArpFrame(own: Mac, frame: seq<byte>) {
    |frame| >= ETHER_HDR_LEN && AcceptsDst(own, frame[..6]) &&
    GetBe16(frame, 12) == ETHERTYPE_ARP && |frame| == ETHER_HDR_LEN + ARP_PACKET_LEN
  }

  /** The ARP branch of `recv_ip_packet` on cache `t`: the new cache and the
      frames sent. */
  function ArpReceive(ifs: seq<Iface>, t: seq<ArpEntry>, ifIdx: nat, pkt: ArpPacket): (seq<ArpEntry>, seq<Transmit>)
    requires ifIdx < |ifs|
  {
    if pkt.op == ARPOP_REPLY then (ArpInsert(t, pkt.sip, ifIdx, pkt.sha).0, [])
    else if pkt.op == ARPOP_REQUEST && LocalIfIndex(ifs, pkt.tip) < |ifs| then
      var j := LocalIfIndex(ifs, pkt.tip);
      (t, [ArpReplyFrame(ifs, ifIdx, ifs[j].ip, ifs[j].mac, pkt.sip, pkt.sha)])
    else (t, [])
  }

  /** A reply teaches the cache (sender IP, ingress interface) -> sender MAC
      and sends nothing; a request for a local address j is answered on the
      ingress interface with j's addresses as sender and the requester as
      target, and the cache stays as it was; every other packet changes
      nothing. */
  lemma ArpReceiveOutcome(ifs: seq<Iface>, t: seq<ArpEntry>, ifIdx: nat, pkt: ArpPacket)
    requires ifIdx < |ifs|
    ensures var (t', out) := ArpReceive(ifs, t, ifIdx, pkt);
      pkt.op == 2 ==> out == [] && t' == ArpInsert(t, pkt.sip, ifIdx, pkt.sha).0
    ensures var (t', out) := ArpReceive(ifs, t, ifIdx, pkt);
      pkt.op != 2 ==> t' == t
    ensures var (t', out) := ArpReceive(ifs, t, ifIdx, pkt);
      forall j :: 0 <= j < |ifs| && ifs[j].ip == pkt.tip && (forall k :: 0 <= k < j ==> ifs[k].ip != pkt.tip) && pkt.op == 1 ==>
        |out| == 1 && out[0].ifIdx == ifIdx &&
        var f := out[0].frame;
        f[..6] == pkt.sha && f[6..12] == ifs[ifIdx].mac && GetBe16(f, 12) == ETHERTYPE_ARP &&
        DecodeArp(f[ETHER_HDR_LEN..]) == ArpPacket(1, 0x0800, 6, 4, 2, ifs[j].mac, ifs[j].ip, pkt.sha, pkt.sip)
    ensures var (t', out) := ArpReceive(ifs, t, ifIdx, pkt);
      pkt.op != 2 && (pkt.op != 1 || forall j :: 0 <= j < |ifs| ==> ifs[j].ip != pkt.tip) ==> out == [] && t' == t
  {
    var j := LocalIfIndex(ifs, pkt.tip);
    if pkt.op == 1 && j < |ifs| {
      ArpReplyLayout(ifs, ifIdx, ifs[j].ip, ifs[j].mac, pkt.sip, pkt.sha);
    }
  }

  // ----- the link layer object -----

  class Link {
    /** `if_ips`, `if_masks`, `if_macs` of the `NUM_IF` configured interfaces. */
    const ifs: seq<Iface>
    /** `arp_table.entries` and `arp_table.size`. */
    const arp: array<ArpEntry>
    var arpSize: nat
    /** Every frame handed to `send_packet`, oldest first. */
    var sent: seq<Transmit>

    ghost predicate Valid()
      reads this`arpSize
    {
      arp.Length == ARP_TABLE_CAPACITY && arpSize <= arp.Length && |ifs| <= MAX_IF
    }

    ghost function Arps(): seq<ArpEntry>
      reads this`arpSize, arp
      requires Valid()
    {
      arp[..arpSize]
    }

    /** The zero-initialised globals, before `ether_init`. */
    constructor (ifs: seq<Iface>)
      requires |ifs| <= MAX_IF
      ensures Valid() && this.ifs == ifs && Arps() == [] && sent == [] && fresh(arp)
    {
      this.ifs := ifs;
      arp := new ArpEntry[ARP_TABLE_CAPACITY](_ => ArpEntry(0, 0, ZERO_MAC));
      arpSize := 0;
      sent := [];
    }

    /** `arp_find_entry`: index of the first entry with both fields equal, or
        the table size. */
    method FindEntry(ip: Ip, ifIdx: int) returns (pos: nat)
      requires Valid()
      ensures pos <= arpSize
      ensures pos < arpSize ==> arp[pos].ip == ip && arp[pos].ifIdx == ifIdx
      ensures forall j :: 0 <= j < pos ==> !(arp[j].ip == ip && arp[j].ifIdx == ifIdx)
      ensures pos == ArpFind(Arps(), ip, ifIdx)
    {
      pos := 0;
      while pos < arpSize
        invariant pos <= arpSize
        invariant forall j :: 0 <= j < pos ==> !(arp[j].ip == ip && arp[j].ifIdx == ifIdx)
      {
        if arp[pos].ip == ip && arp[pos].ifIdx == ifIdx {
          break;
        }
        pos := pos + 1;
      }
    }

    /** `arp_insert_entry`. */
    method InsertEntry(ip: Ip, ifIdx: int, mac: Mac) returns (rc: int)
      requires Valid()
      modifies this`arpSize, arp
      ensures Valid()
      ensures (Arps(), rc) == ArpInsert(old(Arps()), ip, ifIdx, mac)
    {
      var pos := FindEntry(ip, ifIdx);
      if pos == arpSize {
        if arpSize >= ARP_TABLE_CAPACITY {
          return OVERFLOW_ERROR;
        }
        arpSize := arpSize + 1;
        arp[pos] := ArpEntry(ip, ifIdx, mac);
        assert Arps() == old(Arps()) + [ArpEntry(ip, ifIdx, mac)];
      } else {
        arp[pos] := ArpEntry(ip, ifIdx, mac);
        assert Arps() == old(Arps())[pos := ArpEntry(ip, ifIdx, mac)];
      }
      rc := 0;
    }

    /** `ether_init`: one self entry (if_ips[i], i, if_macs[i]) per interface,
        on the empty table of a fresh process.  The early return on a failed
        insert cannot happen: at most `MAX_IF` entries are inserted. */
    method EtherInit() returns (rc: int)
      requires Valid() && Arps() == []
      modifies this`arpSize, arp
      ensures Valid() && rc == 0 && Arps() == SelfEntries(ifs)
    {
      rc := 0;
      var i := 0;
      while i < |ifs|
        invariant Valid() && i <= |ifs| && rc == 0
        invariant Arps() == SelfEntries(ifs[..i])
      {
        assert ArpFind(Arps(), ifs[i].ip, i) == |Arps()|;
        rc := InsertEntry(ifs[i].ip, i, ifs[i].mac);
        assert Arps() == SelfEntries(ifs[..i + 1]);
        i := i + 1;
      }
      assert ifs[..i] == ifs;
    }

    /** `send_l3_packet`: frame the payload and hand it to `send_packet`. */
    method SendL3Packet(l3: seq<byte>, ifIdx: nat, dstMac: Mac, etherType: bv16)
      requires ifIdx < |ifs| && ETHER_HDR_LEN + |l3| <= BUFSIZ
      modifies this`sent
      ensures sent == old(sent) + [Transmit(ifIdx, EtherFrame(dstMac, ifs[ifIdx].mac, etherType, l3))]
    {
      var frame := dstMac + ifs[ifIdx].mac + Be16(etherType) + l3;
      sent := sent + [Transmit(ifIdx, frame)];
    }

    /** `send_ip_packet`. */
    method SendIpPacket(ipPacket: seq<byte>, ifIdx: nat, dstMac: Mac)
      requires ifIdx < |ifs| && ETHER_HDR_LEN + |ipPacket| <= BUFSIZ
      modifies this`sent
      ensures sent == old(sent) + [IpFrame(ifs, ifIdx, dstMac, ipPacket)]
    {
      SendL3Packet(ipPacket, ifIdx, dstMac, ETHERTYPE_IP);
    }

    /** `send_arp_request`. */
    method SendArpRequest(ifIdx: nat, ip: Ip)
      requires ifIdx < |ifs|
      modifies this`sent
      ensures sent == old(sent) + [ArpRequestFrame(ifs, ifIdx, ip)]
    {
      var pkt := ArpPacket(ARPHRD_ETHER, ETHERTYPE_IP, 6, 4, ARPOP_REQUEST,
                           ifs[ifIdx].mac, ifs[ifIdx].ip, ZERO_MAC, ip);
      SendL3Packet(EncodeArp(pkt), ifIdx, BROADCAST_MAC, ETHERTYPE_ARP);
    }

    /** `send_arp_reply`. */
    method SendArpReply(ifIdx: nat, queryIp: Ip, ansMac: Mac, dstIp: Ip, dstMac: Mac)
      requires ifIdx < |ifs|
      modifies this`sent
      ensures sent == old(sent) + [ArpReplyFrame(ifs, ifIdx, queryIp, ansMac, dstIp, dstMac)]
    {
      var pkt := ArpPacket(ARPHRD_ETHER, ETHERTYPE_IP, 6, 4, ARPOP_REPLY, ansMac, queryIp, dstMac, dstIp);
      SendL3Packet(EncodeArp(pkt), ifIdx, dstMac, ETHERTYPE_ARP);
    }

    /** `arp_get_mac`: a multicast address is mapped without touching the
        cache; otherwise a hit returns the stored MAC and a miss broadcasts one
        ARP request and returns `UNKNOWN_MAC_ADDR`.  The cache never changes;
        on a miss `mac` carries no information (the C leaves it unwritten). */
    method GetMac(ip: Ip, ifIdx: nat) returns (rc: int, mac: Mac)
      requires Valid() && (IsMulticastIp(ip) || ifIdx < |ifs|)
      modifies this`sent
      ensures rc == 0 || rc == UNKNOWN_MAC_ADDR
      ensures match Resolve(ifs, Arps(), ip, ifIdx)
        case Resolved(m) => rc == 0 && mac == m && sent == old(sent)
        case Pending(req) => rc == UNKNOWN_MAC_ADDR && sent == old(sent) + [req]
    {
      mac := ZERO_MAC;
      if IsMulticastIp(ip) {
        mac := MulticastMac(ip);
      } else {
        var pos := FindEntry(ip, ifIdx);
        if pos == arpSize {
          SendArpRequest(ifIdx, ip);
          return UNKNOWN_MAC_ADDR, mac;
        } else {
          mac := arp[pos].mac;
        }
      }
      rc := 0;
    }

    /** The scan over `if_ips` for a local address: the first interface
        holding `ip`, or `NUM_IF` when there is none. */
    method LocalIf(ip: Ip) returns (j: nat)
      ensures j == LocalIfIndex(ifs, ip)
    {
      j := 0;
      while j < |ifs|
        invariant j <= |ifs|
        invariant forall k :: 0 <= k < j ==> ifs[k].ip != ip
      {
        if ifs[j].ip == ip {
          break;
        }
        j := j + 1;
      }
      assert j == LocalIfIndex(ifs, ip);
    }

    /** One pass of the `recv_ip_packet` loop on a received frame (an empty
        frame is the timeout).  An accepted IPv4 frame is copied into `ipBuf`
        and reported; an ARP frame updates the cache or is answered; anything
        else is dropped. */
    method ReceiveFrame(frame: seq<byte>, ifIdx: nat, ipBuf: array<byte>)
      returns (isIp: bool, ipLen: nat, srcMac: Mac, dstMac: Mac)
      requires Valid() && ifIdx < |ifs| && |frame| <= BUFSIZ && ipBuf.Length == BUFSIZ
      modifies this`arpSize, arp, this`sent, ipBuf
      ensures Valid()
      ensures isIp <==> IsIpFrame(ifs[ifIdx].mac, frame)
      ensures isIp ==> ipLen == |frame| - ETHER_HDR_LEN && ipBuf[..ipLen] == frame[ETHER_HDR_LEN..] &&
                       ipBuf[ipLen..] == old(ipBuf[ipLen..]) &&
                       srcMac == frame[6..12] && dstMac == frame[..6] &&
                       Arps() == old(Arps()) && sent == old(sent)
      ensures !isIp ==> ipBuf[..] == old(ipBuf[..])
      ensures !isIp && IsArpFrame(ifs[ifIdx].mac, frame) ==>
                var (t', out) := ArpReceive(ifs, old(Arps()), ifIdx, DecodeArp(frame[ETHER_HDR_LEN..]));
                Arps() == t' && sent == old(sent) + out
      ensures !isIp && !IsArpFrame(ifs[ifIdx].mac, frame) ==> Arps() == old(Arps()) && sent == old(sent)
    {
      isIp, ipLen, srcMac, dstMac := false, 0, ZERO_MAC, ZERO_MAC;
      if |frame| == 0 {
        return;
      }
      if |frame| < ETHER_HDR_LEN {
        return;
      }
      var dst: Mac := frame[..6];
      var dstIsMe := dst == ifs[ifIdx].mac;
      if !dstIsMe && !IsMulticastMac(dst) && !IsBroadcastMac(dst) {
        return;
      }
      var etherType := GetBe16(frame, 12);
      if etherType == ETHERTYPE_IP {
        ipLen := |frame| - ETHER_HDR_LEN;
        forall k | 0 <= k < ipLen {
          ipBuf[k] := frame[ETHER_HDR_LEN + k];
        }
        isIp, srcMac, dstMac := true, frame[6..12], dst;
      } else if etherType == ETHERTYPE_ARP {
        if |frame| - ETHER_HDR_LEN != ARP_PACKET_LEN {
          return;
        }
        var pkt := DecodeArp(frame[ETHER_HDR_LEN..]);
        if pkt.op == ARPOP_REPLY {
          var _ := InsertEntry(pkt.sip, ifIdx, pkt.sha);
        } else if pkt.op == ARPOP_REQUEST {
          var myIf := LocalIf(pkt.tip);
          if myIf < |ifs| {
            SendArpReply(ifIdx, ifs[myIf].ip, ifs[myIf].mac, pkt.sip, pkt.sha);
          }
        }
      }
    }
  }
}
