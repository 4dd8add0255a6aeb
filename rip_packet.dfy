/** The RIPv2 messages of router.c after RFC 2453: the 20-byte route
    records, the datagram `send_rip_response` builds, and the
    classification of a received datagram in `handle_udp_packet`. */
module RipPacket {
  import opened Net
  import opened Checksum

  const RIP_UDP_PORT: bv16 := 0x0208
  const RIP_V2: byte := 0x02
  const RIP_CMD_REQUEST: byte := 0x01
  const RIP_CMD_RESPONSE: byte := 0x02
  const RIP_AF_UNSPECIFIED: bv16 := 0x0000
  const RIP_AF_IP: bv16 := 0x0002
  const RIP_METRIC_INF: bv32 := 16
  const RIP_MAX_ENTRIES: nat := 25
  /** `sizeof(rip_hdr_t)` and `sizeof(rip_entry_t)`. */
  const RIP_HDR_LEN: nat := 4
  const RIP_ENTRY_LEN: nat := 20
  /** `sizeof(struct udphdr)` and `sizeof(struct iphdr)`. */
  const UDP_HDR_LEN: nat := 8
  const IP_HDR_LEN: nat := 20
  /** Offset of the first record in a datagram with a 20-byte IP header. */
  const RIP_ENTRIES_OFF: nat := 32

  /** `rip_entry_t`, fields in host order. */
  datatype RipEntry = RipEntry(family: bv16, tag: bv16, ip: Ip, mask: Ip, nextHop: Ip, metric: bv32)

  // ----- records on the wire -----

  function EncodeEntry(e: RipEntry): (r: seq<byte>)
    ensures |r| == RIP_ENTRY_LEN
  {
    Be16(e.family) + Be16(e.tag) + Be32(e.ip) + Be32(e.mask) + Be32(e.nextHop) + Be32(e.metric)
  }

  function DecodeEntry(s: seq<byte>, off: nat): RipEntry
    requires off + RIP_ENTRY_LEN <= |s|
  {
    RipEntry(GetBe16(s, off), GetBe16(s, off + 2), GetBe32(s, off + 4),
             GetBe32(s, off + 8), GetBe32(s, off + 12), GetBe32(s, off + 16))
  }

  /** Reading a record depends only on its 20 bytes. */
  lemma DecodeEntryShift(s: seq<byte>, off: nat)
    requires off + RIP_ENTRY_LEN <= |s|
    ensures DecodeEntry(s, off) == DecodeEntry(s[off .. off + RIP_ENTRY_LEN], 0)
  {
    var hi := off + RIP_ENTRY_LEN;
    GetBe16Slice(s, off, hi, 0);
    GetBe16Slice(s, off, hi, 2);
    GetBe32Slice(s, off, hi, 4);
    GetBe32Slice(s, off, hi, 8);
    GetBe32Slice(s, off, hi, 12);
    GetBe32Slice(s, off, hi, 16);
  }

  /** Where each byte of the six fields sits in a record. */
  lemma EntryBytes(f: seq<byte>, t: seq<byte>, a: seq<byte>, m: seq<byte>, h: seq<byte>, c: seq<byte>)
    requires |f| == 2 && |t| == 2 && |a| == 4 && |m| == 4 && |h| == 4 && |c| == 4
    ensures var w := f + t + a + m + h + c;
      w[0] == f[0] && w[1] == f[1] && w[2] == t[0] && w[3] == t[1] &&
      w[4] == a[0] && w[5] == a[1] && w[6] == a[2] && w[7] == a[3] &&
      w[8] == m[0] && w[9] == m[1] && w[10] == m[2] && w[11] == m[3] &&
      w[12] == h[0] && w[13] == h[1] && w[14] == h[2] && w[15] == h[3] &&
      w[16] == c[0] && w[17] == c[1] && w[18] == c[2] && w[19] == c[3]
  {
  }

  /** An encoded record reads back as itself. */
  lemma DecodeEncodeEntryAt0(e: RipEntry)
    ensures DecodeEntry(EncodeEntry(e), 0) == e
  {
    var w := EncodeEntry(e);
    EntryBytes(Be16(e.family), Be16(e.tag), Be32(e.ip), Be32(e.mask), Be32(e.nextHop), Be32(e.metric));
    Be16At(w, 0, e.family);
    Be16At(w, 2, e.tag);
    Be32At(w, 4, e.ip);
    Be32At(w, 8, e.mask);
    Be32At(w, 12, e.nextHop);
    Be32At(w, 16, e.metric);
  }

  /** A record is read back from wherever its encoding sits. */
  lemma DecodeEncodeEntry(s: seq<byte>, off: nat, e: RipEntry)
    requires off + RIP_ENTRY_LEN <= |s| && s[off .. off + RIP_ENTRY_LEN] == EncodeEntry(e)
    ensures DecodeEntry(s, off) == e
  {
    DecodeEntryShift(s, off);
    DecodeEncodeEntryAt0(e);
  }

  function EncodeEntries(es: seq<RipEntry>): (r: seq<byte>)
    ensures |r| == RIP_ENTRY_LEN * |es|
  {
    if es == [] then [] else EncodeEntry(es[0]) + EncodeEntries(es[1..])
  }

  /** The `n` records starting at `off`. */
  function DecodeEntries(s: seq<byte>, off: nat, n: nat): (r: seq<RipEntry>)
    requires off + RIP_ENTRY_LEN * n <= |s|
    ensures |r| == n
    decreases n
  {
    if n == 0 then [] else [DecodeEntry(s, off)] + DecodeEntries(s, off + RIP_ENTRY_LEN, n - 1)
  }

  lemma {:induction false} DecodeEncodeEntries(s: seq<byte>, off: nat, es: seq<RipEntry>)
    requires off + RIP_ENTRY_LEN * |es| <= |s| && s[off .. off + RIP_ENTRY_LEN * |es|] == EncodeEntries(es)
    ensures DecodeEntries(s, off, |es|) == es
    decreases |es|
  {
    if es != [] {
      var w := EncodeEntries(es);
      assert s[off .. off + RIP_ENTRY_LEN] == w[..RIP_ENTRY_LEN];
      DecodeEncodeEntry(s, off, es[0]);
      assert s[off + RIP_ENTRY_LEN .. off + RIP_ENTRY_LEN * |es|] == w[RIP_ENTRY_LEN..];
      DecodeEncodeEntries(s, off + RIP_ENTRY_LEN, es[1..]);
    }
  }

  /** The 32 header bytes of a RIP datagram in router.c's layout before the
      IP checksum is stored: a 20-byte IPv4 header (version 4, ihl 5, TOS
      internetwork control, no fragmentation, TTL 1, protocol UDP, check 0),
      a UDP header from port 520 to port 520 with checksum 0, and the RIP
      header, for `n` records. */
  function RipHeader(cmd: byte, src: Ip, dst: Ip, id: bv16, n: nat): (h: seq<byte>)
    requires n <= RIP_MAX_ENTRIES
    ensures |h| == RIP_ENTRIES_OFF
  {
    var udpLen := UDP_HDR_LEN + RIP_HDR_LEN + RIP_ENTRY_LEN * n;
    var ipLen := IP_HDR_LEN + udpLen;
    var ip := [0x45, IPTOS_PREC_INTERNETCONTROL] + Be16(ipLen as bv16) + Be16(id) +
              [0, 0, 1, IPPROTO_UDP, 0, 0] + Be32(src) + Be32(dst);
    var udp := Be16(RIP_UDP_PORT) + Be16(RIP_UDP_PORT) + Be16(udpLen as bv16) + [0, 0];
    ip + udp + [cmd, RIP_V2, 0, 0]
  }

  /** The IP header fields as a receiver reads them. */
  lemma RipHeaderIpFields(cmd: byte, src: Ip, dst: Ip, id: bv16, n: nat)
    requires n <= RIP_MAX_ENTRIES
    ensures var h := RipHeader(cmd, src, dst, id, n);
      h[0] == 0x45 && h[1] == IPTOS_PREC_INTERNETCONTROL &&
      GetBe16(h, 2) == (RIP_ENTRIES_OFF + RIP_ENTRY_LEN * n) as bv16 && GetBe16(h, 4) == id &&
      h[6] == 0 && h[7] == 0 && h[8] == 1 && h[9] == IPPROTO_UDP && h[10] == 0 && h[11] == 0 &&
      GetBe32(h, 12) == src && GetBe32(h, 16) == dst
  {
    RipHeaderLenId(cmd, src, dst, id, n);
    RipHeaderAddrs(cmd, src, dst, id, n);
  }

  lemma RipHeaderLenId(cmd: byte, src: Ip, dst: Ip, id: bv16, n: nat)
    requires n <= RIP_MAX_ENTRIES
    ensures var h := RipHeader(cmd, src, dst, id, n);
      GetBe16(h, 2) == (RIP_ENTRIES_OFF + RIP_ENTRY_LEN * n) as bv16 && GetBe16(h, 4) == id
  {
    var h := RipHeader(cmd, src, dst, id, n);
    Be16At(h, 2, (RIP_ENTRIES_OFF + RIP_ENTRY_LEN * n) as bv16);
    Be16At(h, 4, id);
  }

  lemma RipHeaderAddrs(cmd: byte, src: Ip, dst: Ip, id: bv16, n: nat)
    requires n <= RIP_MAX_ENTRIES
    ensures var h := RipHeader(cmd, src, dst, id, n);
      GetBe32(h, 12) == src && GetBe32(h, 16) == dst
  {
    var h := RipHeader(cmd, src, dst, id, n);
    Be32At(h, 12, src);
    Be32At(h, 16, dst);
  }

  /** The UDP and RIP header fields as a receiver reads them. */
  lemma RipHeaderUdpFields(cmd: byte, src: Ip, dst: Ip, id: bv16, n: nat)
    requires n <= RIP_MAX_ENTRIES
    ensures var h := RipHeader(cmd, src, dst, id, n);
      GetBe16(h, 20) == RIP_UDP_PORT && GetBe16(h, 22) == RIP_UDP_PORT &&
      GetBe16(h, 24) == (UDP_HDR_LEN + RIP_HDR_LEN + RIP_ENTRY_LEN * n) as bv16 && h[26] == 0 && h[27] == 0 &&
      h[28] == cmd && h[29] == RIP_V2
  {
    var h := RipHeader(cmd, src, dst, id, n);
    Be16At(h, 20, RIP_UDP_PORT);
    Be16At(h, 22, RIP_UDP_PORT);
    Be16At(h, 24, (UDP_HDR_LEN + RIP_HDR_LEN + RIP_ENTRY_LEN * n) as bv16);
  }

  /** A RIP datagram: the header and the records, with the IP checksum
      stored by `set_ip_checksum`. */
  function RipMessage(cmd: byte, src: Ip, dst: Ip, id: bv16, es: seq<RipEntry>): (d: seq<byte>)
    requires |es| <= RIP_MAX_ENTRIES
    ensures |d| == RIP_ENTRIES_OFF + RIP_ENTRY_LEN * |es|
  {
    WithIpChecksum(RipHeader(cmd, src, dst, id, |es|) + EncodeEntries(es))
  }

  /** A datagram keeps its header bytes, except for the stored checksum, and
      carries the records after them; its checksum passes validation. */
  lemma RipMessageHeader(cmd: byte, src: Ip, dst: Ip, id: bv16, es: seq<RipEntry>)
    requires |es| <= RIP_MAX_ENTRIES
    ensures var d := RipMessage(cmd, src, dst, id, es);
      var h := RipHeader(cmd, src, dst, id, |es|);
      (forall k :: 0 <= k < RIP_ENTRIES_OFF && k != 10 && k != 11 ==> d[k] == h[k]) &&
      d[RIP_ENTRIES_OFF..] == EncodeEntries(es) && HeaderLen(d) == IP_HDR_LEN && IpChecksumOk(d)
  {
    var h := RipHeader(cmd, src, dst, id, |es|);
    assert h[0] == 0x45;
    ChecksummedDatagram(h, EncodeEntries(es));
  }

  /** Storing the checksum of a 20-byte IP header followed by `body`. */
  lemma ChecksummedDatagram(h: seq<byte>, body: seq<byte>)
    requires |h| == RIP_ENTRIES_OFF && h[0] == 0x45
    ensures |h + body| >= 20 && HeaderLen(h + body) <= |h + body|
    ensures var d := WithIpChecksum(h + body);
      (forall k :: 0 <= k < RIP_ENTRIES_OFF && k != 10 && k != 11 ==> d[k] == h[k]) &&
      d[RIP_ENTRIES_OFF..] == body && HeaderLen(d) == IP_HDR_LEN && IpChecksumOk(d)
  {
    WithIpChecksumPayload(h, body);
  }

  /** Two buffers that agree on the header bytes outside the checksum agree on
      the UDP and RIP header fields. */
  lemma SameUdpFields(d: seq<byte>, h: seq<byte>)
    requires |d| >= RIP_ENTRIES_OFF && |h| == RIP_ENTRIES_OFF
    requires forall k :: 0 <= k < RIP_ENTRIES_OFF && k != 10 && k != 11 ==> d[k] == h[k]
    ensures GetBe16(d, 20) == GetBe16(h, 20) && GetBe16(d, 22) == GetBe16(h, 22) && GetBe16(d, 24) == GetBe16(h, 24)
    ensures d[26] == h[26] && d[27] == h[27] && d[28] == h[28] && d[29] == h[29]
  {
  }

  /** Two buffers that agree on the header bytes outside the checksum agree on
      the other IP header fields. */
  lemma SameIpFields(d: seq<byte>, h: seq<byte>)
    requires |d| >= RIP_ENTRIES_OFF && |h| == RIP_ENTRIES_OFF
    requires forall k :: 0 <= k < RIP_ENTRIES_OFF && k != 10 && k != 11 ==> d[k] == h[k]
    ensures GetBe16(d, 2) == GetBe16(h, 2) && GetBe16(d, 4) == GetBe16(h, 4)
    ensures GetBe32(d, 12) == GetBe32(h, 12) && GetBe32(d, 16) == GetBe32(h, 16)
    ensures forall k :: 0 <= k < 10 ==> d[k] == h[k]
  {
  }

  /** The UDP and RIP header fields of a datagram as a receiver reads them. */
  lemma RipMessageUdpFields(cmd: byte, src: Ip, dst: Ip, id: bv16, es: seq<RipEntry>)
    requires |es| <= RIP_MAX_ENTRIES
    ensures var d := RipMessage(cmd, src, dst, id, es);
      GetBe16(d, 20) == RIP_UDP_PORT && GetBe16(d, 22) == RIP_UDP_PORT &&
      GetBe16(d, 24) == (UDP_HDR_LEN + RIP_HDR_LEN + RIP_ENTRY_LEN * |es|) as bv16 && d[26] == 0 && d[27] == 0 &&
      d[28] == cmd && d[29] == RIP_V2
  {
    RipMessageHeader(cmd, src, dst, id, es);
    RipHeaderUdpFields(cmd, src, dst, id, |es|);
    SameUdpFields(RipMessage(cmd, src, dst, id, es), RipHeader(cmd, src, dst, id, |es|));
  }

  /** The IP header fields of a datagram as a receiver reads them. */
  lemma RipMessageIpFields(cmd: byte, src: Ip, dst: Ip, id: bv16, es: seq<RipEntry>)
    requires |es| <= RIP_MAX_ENTRIES
    ensures var d := RipMessage(cmd, src, dst, id, es);
      d[0] == 0x45 && d[1] == IPTOS_PREC_INTERNETCONTROL &&
      GetBe16(d, 2) == (RIP_ENTRIES_OFF + RIP_ENTRY_LEN * |es|) as bv16 && GetBe16(d, 4) == id &&
      d[6] == 0 && d[7] == 0 && d[8] == 1 && d[9] == IPPROTO_UDP &&
      GetBe32(d, 12) == src && GetBe32(d, 16) == dst
  {
    RipMessageHeader(cmd, src, dst, id, es);
    RipHeaderIpFields(cmd, src, dst, id, |es|);
    SameIpFields(RipMessage(cmd, src, dst, id, es), RipHeader(cmd, src, dst, id, |es|));
  }

  // ----- reception -----

  datatype RipAction = Ignore | SendTable | Update(entries: seq<RipEntry>)

  /** Values of `size_t`. */
  const SIZE_T_MODULUS: nat := 0x1_0000_0000_0000_0000

  /** Subtraction of `size_t` values: modulo 2^64. */
  function SizeSub(a: nat, b: nat): nat {
    (a - b) % SIZE_T_MODULUS
  }

  /** A UDP length below 12 makes the record length wrap to 2^64 + udpLen - 12,
      which is never a multiple of 20, so such datagrams are "broken". */
  lemma ShortUdpIsBroken(udpLen: nat)
    requires udpLen < UDP_HDR_LEN + RIP_HDR_LEN
    ensures SizeSub(SizeSub(udpLen, UDP_HDR_LEN), RIP_HDR_LEN) % RIP_ENTRY_LEN != 0
  {
    var w := SizeSub(SizeSub(udpLen, UDP_HDR_LEN), RIP_HDR_LEN);
    assert w == SIZE_T_MODULUS + udpLen - 12;
    assert w == 20 * 922337203685477580 + (udpLen + 4);
  }

  /** The number of records in a UDP datagram of `udpLen` bytes as
      `handle_udp_packet` computes it (router.c:261-268): the UDP length less
      the 8-byte UDP and 4-byte RIP headers, in `size_t` arithmetic, divided by 20, or None when the record bytes are not a multiple of 20. */
  function RecordCount(udpLen: nat): (r: Option<nat>)
    requires udpLen < SIZE_T_MODULUS
    ensures r.Some? ==> udpLen == UDP_HDR_LEN + RIP_HDR_LEN + RIP_ENTRY_LEN * r.value
  {
    var entryLen := SizeSub(SizeSub(udpLen, UDP_HDR_LEN), RIP_HDR_LEN);
    if entryLen % RIP_ENTRY_LEN != 0 then None
    else
      RecordBytesNeedHeaders(udpLen);
      Some(entryLen / RIP_ENTRY_LEN)
  }

  /** Record bytes that are a multiple of 20 only come from a UDP length that
      holds both headers: a shorter one wraps (`ShortUdpIsBroken`). */
  lemma RecordBytesNeedHeaders(udpLen: nat)
    requires SizeSub(SizeSub(udpLen, UDP_HDR_LEN), RIP_HDR_LEN) % RIP_ENTRY_LEN == 0
    ensures udpLen >= UDP_HDR_LEN + RIP_HDR_LEN
  {
    if udpLen < UDP_HDR_LEN + RIP_HDR_LEN {
      ShortUdpIsBroken(udpLen);
      assert false;
    }
  }

  /** A datagram has records exactly when its UDP length is 12 plus a multiple
      of 20; the wrap-around of a shorter length never yields a count. */
  lemma RecordCountExact(udpLen: nat)
    requires udpLen < SIZE_T_MODULUS
    ensures RecordCount(udpLen).Some? <==>
      udpLen >= UDP_HDR_LEN + RIP_HDR_LEN && (udpLen - UDP_HDR_LEN - RIP_HDR_LEN) % RIP_ENTRY_LEN == 0
  {
    if udpLen < UDP_HDR_LEN + RIP_HDR_LEN {
      ShortUdpIsBroken(udpLen);
    }
  }

  /** What `handle_udp_packet` does with the datagram in buffer `p` of
      length `ipLen` (already validated by the caller): the UDP length must
      equal `ipLen - ihl*4`, both ports must be 520 and the record bytes a
      multiple of 20.  A request is honoured only as the whole-table sentinel,
      which router.c tests on the `tag` field (not the address family) of the
      single record. */
  function ClassifyRip(p: seq<byte>, ipLen: nat): RipAction
    requires |p| == BUFSIZ && HeaderLen(p) <= ipLen <= |p|
  {
    var hl := HeaderLen(p);
    var udpLen := ipLen - hl;
    if GetBe16(p, hl + 4) != Htons(udpLen) then Ignore
    else if !(GetBe16(p, hl) == RIP_UDP_PORT && GetBe16(p, hl + 2) == RIP_UDP_PORT) then Ignore
    else match RecordCount(udpLen)
      case None => Ignore
      case Some(n) =>
        var cmd := p[hl + UDP_HDR_LEN];
        if cmd == RIP_CMD_REQUEST then
          if n == 1 && GetBe16(p, hl + 14) == RIP_AF_UNSPECIFIED && GetBe32(p, hl + 28) == RIP_METRIC_INF
          then SendTable else Ignore
        else if cmd == RIP_CMD_RESPONSE then Update(DecodeEntries(p, hl + UDP_HDR_LEN + RIP_HDR_LEN, n))
        else Ignore
  }

  /** Record k of `n` is the one at `off + 20k`. */
  lemma {:induction false} DecodeEntriesAt(s: seq<byte>, off: nat, n: nat, k: nat)
    requires off + RIP_ENTRY_LEN * n <= |s| && k < n
    ensures DecodeEntries(s, off, n)[k] == DecodeEntry(s, off + RIP_ENTRY_LEN * k)
    decreases k
  {
    if k > 0 {
      DecodeEntriesAt(s, off + RIP_ENTRY_LEN, n - 1, k - 1);
    }
  }

  /** What a datagram must look like for router.c to act on it at all: ports
      520 and a consistent UDP length of 12 plus 20 per record. */
  lemma ClassifyRipAccepts(p: seq<byte>, ipLen: nat)
    requires |p| == BUFSIZ && HeaderLen(p) <= ipLen <= |p|
    ensures var hl := HeaderLen(p);
      ClassifyRip(p, ipLen) != Ignore ==>
        GetBe16(p, hl) == RIP_UDP_PORT && GetBe16(p, hl + 2) == RIP_UDP_PORT &&
        GetBe16(p, hl + 4) == Htons(ipLen - hl) &&
        ipLen - hl >= UDP_HDR_LEN + RIP_HDR_LEN && (ipLen - hl - UDP_HDR_LEN - RIP_HDR_LEN) % RIP_ENTRY_LEN == 0
  {
    if ClassifyRip(p, ipLen) != Ignore {
      RecordCountExact(ipLen - HeaderLen(p));
    }
  }

  /** The only request router.c answers is a single record with tag 0 and
      metric 16. */
  lemma ClassifyRipSendTable(p: seq<byte>, ipLen: nat)
    requires |p| == BUFSIZ && HeaderLen(p) <= ipLen <= |p|
    ensures var hl := HeaderLen(p);
      ClassifyRip(p, ipLen) == SendTable ==>
        p[hl + UDP_HDR_LEN] == RIP_CMD_REQUEST && ipLen - hl == UDP_HDR_LEN + RIP_HDR_LEN + RIP_ENTRY_LEN &&
        DecodeEntry(p, hl + UDP_HDR_LEN + RIP_HDR_LEN).tag == 0 &&
        DecodeEntry(p, hl + UDP_HDR_LEN + RIP_HDR_LEN).metric == RIP_METRIC_INF
  {
  }

  /** A response is read as its records, in order, from offset `ihl*4 + 12`. */
  lemma ClassifyRipUpdate(p: seq<byte>, ipLen: nat)
    requires |p| == BUFSIZ && HeaderLen(p) <= ipLen <= |p|
    ensures var hl := HeaderLen(p);
      ClassifyRip(p, ipLen).Update? ==>
        var es := ClassifyRip(p, ipLen).entries;
        p[hl + UDP_HDR_LEN] == RIP_CMD_RESPONSE &&
        ipLen - hl == UDP_HDR_LEN + RIP_HDR_LEN + RIP_ENTRY_LEN * |es| &&
        forall k :: 0 <= k < |es| ==> es[k] == DecodeEntry(p, hl + UDP_HDR_LEN + RIP_HDR_LEN + RIP_ENTRY_LEN * k)
  {
    var hl := HeaderLen(p);
    if ClassifyRip(p, ipLen).Update? {
      var n := RecordCount(ipLen - hl).value;
      forall k | 0 <= k < n
        ensures ClassifyRip(p, ipLen).entries[k] == DecodeEntry(p, hl + UDP_HDR_LEN + RIP_HDR_LEN + RIP_ENTRY_LEN * k)
      {
        DecodeEntriesAt(p, hl + UDP_HDR_LEN + RIP_HDR_LEN, n, k);
      }
    }
  }

  /** How `handle_udp_packet` reads a response whose IP header is 20 bytes
      and whose UDP header is between the RIP ports and announces `n`
      records. */
  lemma ResponseLayout(p: seq<byte>, n: nat)
    requires |p| == BUFSIZ && n <= RIP_MAX_ENTRIES && HeaderLen(p) == IP_HDR_LEN && p[28] == RIP_CMD_RESPONSE
    requires GetBe16(p, 20) == RIP_UDP_PORT && GetBe16(p, 22) == RIP_UDP_PORT
    requires GetBe16(p, 24) == (UDP_HDR_LEN + RIP_HDR_LEN + RIP_ENTRY_LEN * n) as bv16
    ensures ClassifyRip(p, RIP_ENTRIES_OFF + RIP_ENTRY_LEN * n) == Update(DecodeEntries(p, RIP_ENTRIES_OFF, n))
  {
    RecordCountOf(n);
  }

  /** The same for a request. */
  lemma RequestLayout(p: seq<byte>, n: nat)
    requires |p| == BUFSIZ && n <= RIP_MAX_ENTRIES && HeaderLen(p) == IP_HDR_LEN && p[28] == RIP_CMD_REQUEST
    requires GetBe16(p, 20) == RIP_UDP_PORT && GetBe16(p, 22) == RIP_UDP_PORT
    requires GetBe16(p, 24) == (UDP_HDR_LEN + RIP_HDR_LEN + RIP_ENTRY_LEN * n) as bv16
    ensures ClassifyRip(p, RIP_ENTRIES_OFF + RIP_ENTRY_LEN * n) ==
      if n == 1 && GetBe16(p, 34) == RIP_AF_UNSPECIFIED && GetBe32(p, 48) == RIP_METRIC_INF then SendTable else Ignore
  {
    RecordCountOf(n);
  }

  /** A UDP length of 12 plus 20 per record, for at most 25 records, is its
      own `htons` and yields the record count. */
  lemma RecordCountOf(n: nat)
    requires n <= RIP_MAX_ENTRIES
    ensures Htons(UDP_HDR_LEN + RIP_HDR_LEN + RIP_ENTRY_LEN * n) == (UDP_HDR_LEN + RIP_HDR_LEN + RIP_ENTRY_LEN * n) as bv16
    ensures RecordCount(UDP_HDR_LEN + RIP_HDR_LEN + RIP_ENTRY_LEN * n) == Some(n)
  {
    var x := UDP_HDR_LEN + RIP_HDR_LEN + RIP_ENTRY_LEN * n;
    HtonsSmall(x);
    SizeSubExact(x, UDP_HDR_LEN);
    SizeSubExact(x - UDP_HDR_LEN, RIP_HDR_LEN);
    RecordsDivide(n);
  }

  /** A `size_t` subtraction that does not go below zero is exact. */
  lemma SizeSubExact(a: nat, b: nat)
    requires b <= a < SIZE_T_MODULUS
    ensures SizeSub(a, b) == a - b
  {
  }

  lemma RecordsDivide(n: nat)
    ensures (RIP_ENTRY_LEN * n) % RIP_ENTRY_LEN == 0 && (RIP_ENTRY_LEN * n) / RIP_ENTRY_LEN == n
  {
  }


  /** The UDP header fields of a datagram are read the same at the start of
      a larger buffer. */
  lemma SameFieldsInBuffer(d: seq<byte>, rest: seq<byte>)
    requires |d| >= RIP_ENTRIES_OFF
    ensures GetBe16(d + rest, 20) == GetBe16(d, 20) && GetBe16(d + rest, 22) == GetBe16(d, 22)
    ensures GetBe16(d + rest, 24) == GetBe16(d, 24)
  {
    GetBe16Prefix(d, rest, 20);
    GetBe16Prefix(d, rest, 22);
    GetBe16Prefix(d, rest, 24);
  }

  /** So are its first bytes and its records. */
  lemma SameBytesInBuffer(d: seq<byte>, rest: seq<byte>)
    requires |d| >= RIP_ENTRIES_OFF
    ensures HeaderLen(d + rest) == HeaderLen(d) && (d + rest)[28] == d[28]
    ensures (d + rest)[RIP_ENTRIES_OFF .. |d|] == d[RIP_ENTRIES_OFF..]
  {
    assert (d + rest)[0] == d[0];
  }

  /** A datagram `RipMessage` builds, at the start of a buffer, is read with
      the header it was built with. */
  lemma RipMessageInBuffer(cmd: byte, src: Ip, dst: Ip, id: bv16, es: seq<RipEntry>, rest: seq<byte>)
    requires |es| <= RIP_MAX_ENTRIES
    requires |RipMessage(cmd, src, dst, id, es)| + |rest| == BUFSIZ
    ensures var p := RipMessage(cmd, src, dst, id, es) + rest;
      HeaderLen(p) == IP_HDR_LEN && p[28] == cmd &&
      GetBe16(p, 20) == RIP_UDP_PORT && GetBe16(p, 22) == RIP_UDP_PORT &&
      GetBe16(p, 24) == (UDP_HDR_LEN + RIP_HDR_LEN + RIP_ENTRY_LEN * |es|) as bv16 &&
      p[RIP_ENTRIES_OFF .. RIP_ENTRIES_OFF + RIP_ENTRY_LEN * |es|] == EncodeEntries(es)
  {
    RipMessageHeader(cmd, src, dst, id, es);
    RipMessageUdpFields(cmd, src, dst, id, es);
    SameFieldsInBuffer(RipMessage(cmd, src, dst, id, es), rest);
    SameBytesInBuffer(RipMessage(cmd, src, dst, id, es), rest);
  }

  /** A response datagram in the layout `RipMessage` builds, left at the
      start of the receive buffer, is read back as exactly its records. */
  lemma ClassifyResponse(src: Ip, dst: Ip, id: bv16, es: seq<RipEntry>, rest: seq<byte>)
    requires |es| <= RIP_MAX_ENTRIES
    requires |RipMessage(RIP_CMD_RESPONSE, src, dst, id, es)| + |rest| == BUFSIZ
    ensures var d := RipMessage(RIP_CMD_RESPONSE, src, dst, id, es);
      ClassifyRip(d + rest, |d|) == Update(es)
  {
    var p := RipMessage(RIP_CMD_RESPONSE, src, dst, id, es) + rest;
    RipMessageInBuffer(RIP_CMD_RESPONSE, src, dst, id, es, rest);
    ResponseLayout(p, |es|);
    DecodeEncodeEntries(p, RIP_ENTRIES_OFF, es);
  }

  /** A one-record request is honoured exactly when that record's tag is 0
      and its metric 16, whatever its address family; otherwise it is
      ignored. */
  lemma ClassifyRequest(src: Ip, dst: Ip, id: bv16, e: RipEntry, rest: seq<byte>)
    requires |RipMessage(RIP_CMD_REQUEST, src, dst, id, [e])| + |rest| == BUFSIZ
    ensures var d := RipMessage(RIP_CMD_REQUEST, src, dst, id, [e]);
      (ClassifyRip(d + rest, |d|) == SendTable <==> e.tag == 0 && e.metric == RIP_METRIC_INF) &&
      (ClassifyRip(d + rest, |d|) == SendTable || ClassifyRip(d + rest, |d|) == Ignore)
  {
    var p := RipMessage(RIP_CMD_REQUEST, src, dst, id, [e]) + rest;
    RipMessageInBuffer(RIP_CMD_REQUEST, src, dst, id, [e], rest);
    RequestLayout(p, 1);
    DecodeEncodeEntries(p, RIP_ENTRIES_OFF, [e]);
    assert DecodeEntries(p, RIP_ENTRIES_OFF, 1)[0] == DecodeEntry(p, RIP_ENTRIES_OFF);
  }
}
