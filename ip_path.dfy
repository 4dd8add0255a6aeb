/** The in-place rewrites of the IPv4 path of router.c on the 8192-byte
    packet buffer: the TTL decrement of `ip_forward`, the ICMP error of
    `send_icmp_msg` (RFC 792) and the echo reply of `run_router`.  Each is a
    function on the buffer contents, a method performing the C's stores on
    an array, and layout lemmas saying what a receiver reads back. */
module IpPath {
  import opened Net
  import opened Checksum

  const ICMP_ECHOREPLY: byte := 0
  const ICMP_DEST_UNREACH: byte := 3
  const ICMP_ECHO: byte := 8
  const ICMP_TIME_EXCEEDED: byte := 11
  const ICMP_NET_UNREACH: byte := 0
  const ICMP_EXC_TTL: byte := 0
  /** `sizeof(struct icmphdr)`. */
  const ICMP_HDR_LEN: nat := 8

  // Offsets in `struct iphdr`: tot_len 2, ttl 8, protocol 9, check 10,
  // saddr 12, daddr 16.

  // ----- forwarding -----

  /** The two stores of `ip_forward` (router.c:130-131): the TTL goes down
      by one and the header checksum is stored again. */
  function Forwarded(p: seq<byte>): (r: seq<byte>)
    requires |p| == BUFSIZ
    ensures |r| == |p|
  {
    WithIpChecksum(p[8 := p[8] - 1])
  }

  /** A forwarded datagram differs from the received one only in its TTL,
      one less, and its checksum, which passes the validation again. */
  lemma ForwardedFields(p: seq<byte>)
    requires |p| == BUFSIZ
    ensures var r := Forwarded(p);
      r[8] == p[8] - 1 && HeaderLen(r) == HeaderLen(p) && IpChecksumOk(r) &&
      forall k :: 0 <= k < |p| && k != 8 && k != 10 && k != 11 ==> r[k] == p[k]
  {
    FreshIpChecksumOk(p[8 := p[8] - 1]);
  }

  method DecrementTtl(a: array<byte>)
    requires a.Length == BUFSIZ
    modifies a
    ensures a[..] == Forwarded(old(a[..]))
  {
    a[8] := a[8] - 1;
    SetIpChecksum(a);
  }

  // ----- a fresh header: TTL 64 and a new checksum -----

  /** The last two stores of both the ICMP error and the echo reply
      (router.c:167-168, 409-410): the TTL is reset to 64 and the header
      checksum is stored again. */
  function Reissued(b: seq<byte>): (r: seq<byte>)
    requires |b| == BUFSIZ
    ensures |r| == |b|
  {
    WithIpChecksum(b[8 := IP_DEFAULT_TTL])
  }

  lemma ReissuedFields(b: seq<byte>)
    requires |b| == BUFSIZ
    ensures var r := Reissued(b);
      r[8] == IP_DEFAULT_TTL && HeaderLen(r) == HeaderLen(b) && IpChecksumOk(r) &&
      forall k :: 0 <= k < |b| && k != 8 && k != 10 && k != 11 ==> r[k] == b[k]
  {
    FreshIpChecksumOk(b[8 := IP_DEFAULT_TTL]);
  }

  // ----- ICMP errors -----

  /** The `memcpy` of `send_icmp_msg`: the first `hl + 8` bytes of the
      datagram are copied behind the 8-byte ICMP header that follows the
      `hl`-byte IP header. */
  function QuoteDatagram(p: seq<byte>, hl: nat): (r: seq<byte>)
    requires |p| == BUFSIZ && hl <= 60
    ensures |r| == |p|
  {
    Put(p, hl + ICMP_HDR_LEN, p[..hl + ICMP_HDR_LEN])
  }

  /** The ICMP header stores: type, code and the zeroed 4-byte rest. */
  function ErrorIcmpHead(b: seq<byte>, hl: nat, icmpType: byte, code: byte): (r: seq<byte>)
    requires |b| == BUFSIZ && hl <= 60
    ensures |r| == |b|
  {
    b[hl := icmpType][hl + 1 := code][hl + 4 := 0][hl + 5 := 0][hl + 6 := 0][hl + 7 := 0]
  }

  /** The ICMP message `send_icmp_msg` builds behind the IP header of `hl`
      bytes (`ihl*4`): the quoted datagram, the ICMP header and the checksum
      of those `hl + 16` bytes. */
  function ErrorMessage(p: seq<byte>, hl: nat, icmpType: byte, code: byte): (r: seq<byte>)
    requires |p| == BUFSIZ && hl <= 60
    ensures |r| == |p|
  {
    WithIcmpChecksum(ErrorIcmpHead(QuoteDatagram(p, hl), hl, icmpType, code), hl, hl + 2 * ICMP_HDR_LEN)
  }

  /** The IP header of the error (`hl` the received `ihl*4`): total length
      `2*hl + 16` in network order, the destination the old source, the source the
      interface address `ifIp`, then TTL 64 and the checksum.  The protocol
      byte is not rewritten. */
  function ErrorHeader(b: seq<byte>, hl: nat, ifIp: Ip): (r: seq<byte>)
    requires |b| == BUFSIZ && hl <= 60
    ensures |r| == |b|
  {
    Reissued(ErrorAddressed(b, hl, ifIp))
  }

  /** The stores into `tot_len`, `daddr` and `saddr`, in the C's order. */
  function ErrorAddressed(b: seq<byte>, hl: nat, ifIp: Ip): (r: seq<byte>)
    requires |b| == BUFSIZ && hl <= 60
    ensures |r| == |b|
  {
    var len, src := Be16(Htons(2 * hl + 2 * ICMP_HDR_LEN)), Be32(ifIp);
    var b1 := b[2 := len[0]][3 := len[1]];
    var b2 := b1[16 := b1[12]][17 := b1[13]][18 := b1[14]][19 := b1[15]];
    b2[12 := src[0]][13 := src[1]][14 := src[2]][15 := src[3]]
  }

  /** The buffer after `send_icmp_msg` has built its message, when the
      datagram holds its header and 8 more bytes; the datagram sent is its first `IcmpErrorLen`
      bytes. */
  function IcmpErrorBuf(p: seq<byte>, ifIp: Ip, icmpType: byte, code: byte): (r: seq<byte>)
    requires |p| == BUFSIZ
    ensures |r| == |p|
  {
    ErrorHeader(ErrorMessage(p, HeaderLen(p), icmpType, code), HeaderLen(p), ifIp)
  }

  /** The length of the error datagram: the header plus the ICMP message
      (router.c:160-163). */
  function IcmpErrorLen(p: seq<byte>): (n: nat)
    requires |p| >= 1
    ensures n <= 136
  {
    2 * HeaderLen(p) + 2 * ICMP_HDR_LEN
  }

  /** The message leaves the IP header and everything after the quote alone. */
  lemma ErrorMessageFrame(p: seq<byte>, hl: nat, icmpType: byte, code: byte)
    requires |p| == BUFSIZ && hl <= 60
    ensures var r := ErrorMessage(p, hl, icmpType, code);
      forall k :: 0 <= k < |p| && !(hl <= k < 2 * hl + 16) ==> r[k] == p[k]
  {
  }

  /** The ICMP header holds the type, the code and zeros. */
  lemma ErrorMessageHead(p: seq<byte>, hl: nat, icmpType: byte, code: byte)
    requires |p| == BUFSIZ && hl <= 60
    ensures var r := ErrorMessage(p, hl, icmpType, code);
      r[hl] == icmpType && r[hl + 1] == code && r[hl + 4 .. hl + 8] == [0, 0, 0, 0]
  {
    var r := ErrorMessage(p, hl, icmpType, code);
    assert r[hl + 4] == 0 && r[hl + 5] == 0 && r[hl + 6] == 0 && r[hl + 7] == 0;
  }

  /** The quoted bytes are the first `hl + 8` bytes of the received datagram. */
  lemma ErrorMessageQuote(p: seq<byte>, hl: nat, icmpType: byte, code: byte)
    requires |p| == BUFSIZ && hl <= 60
    ensures ErrorMessage(p, hl, icmpType, code)[hl + 8 .. 2 * hl + 16] == p[..hl + 8]
  {
    var q := QuoteDatagram(p, hl);
    QuoteSurvives(p, hl, icmpType, code);
    SameRange(ErrorMessage(p, hl, icmpType, code), q, hl + 8, 2 * hl + 16);
    PutRange(p, hl + ICMP_HDR_LEN, p[..hl + ICMP_HDR_LEN]);
  }

  /** The ICMP header stores and the checksum do not reach the quote. */
  lemma QuoteSurvives(p: seq<byte>, hl: nat, icmpType: byte, code: byte)
    requires |p| == BUFSIZ && hl <= 60
    ensures var r, q := ErrorMessage(p, hl, icmpType, code), QuoteDatagram(p, hl);
      forall k :: hl + 8 <= k < |p| ==> r[k] == q[k]
  {
  }

  /** The ICMP checksum of the error passes the test. */
  lemma ErrorMessageChecksum(p: seq<byte>, hl: nat, icmpType: byte, code: byte)
    requires |p| == BUFSIZ && hl <= 60
    ensures IcmpChecksumOk(ErrorMessage(p, hl, icmpType, code), hl, hl + 16)
  {
    FreshIcmpChecksumOk(ErrorIcmpHead(QuoteDatagram(p, hl), hl, icmpType, code), hl, hl + 16);
  }

  /** The header rewrite touches only the length, TTL, checksum and address
      fields. */
  lemma ErrorHeaderFrame(b: seq<byte>, hl: nat, ifIp: Ip)
    requires |b| == BUFSIZ && hl <= 60
    ensures var r := ErrorHeader(b, hl, ifIp);
      forall k :: 0 <= k < |b| && k != 2 && k != 3 && k != 8 && !(10 <= k < 20) ==> r[k] == b[k]
  {
  }

  /** The length, TTL and address fields a receiver reads. */
  lemma ErrorHeaderFields(b: seq<byte>, hl: nat, ifIp: Ip)
    requires |b| == BUFSIZ && hl <= 60
    ensures var r := ErrorHeader(b, hl, ifIp);
      GetBe16(r, 2) == Htons(2 * hl + 16) && r[8] == IP_DEFAULT_TTL &&
      GetBe32(r, 12) == ifIp && GetBe32(r, 16) == GetBe32(b, 12)
  {
    var r := ErrorHeader(b, hl, ifIp);
    Be16At(r, 2, Htons(2 * hl + 16));
    Be32At(r, 12, ifIp);
    SameBe32(r, 16, b, 12);
  }

  /** The rewritten header keeps its length and passes the validation. */
  lemma ErrorHeaderChecksum(b: seq<byte>, hl: nat, ifIp: Ip)
    requires |b| == BUFSIZ && hl <= 60
    ensures var r := ErrorHeader(b, hl, ifIp);
      HeaderLen(r) == HeaderLen(b) && IpChecksumOk(r)
  {
    ReissuedFields(ErrorAddressed(b, hl, ifIp));
  }

  /** The length, TTL and address fields of the error datagram built on a
      header of `hl >= 20` bytes. */
  lemma ErrorDatagramAddresses(p: seq<byte>, hl: nat, ifIp: Ip, icmpType: byte, code: byte)
    requires |p| == BUFSIZ && 20 <= hl <= 60
    ensures var r := ErrorHeader(ErrorMessage(p, hl, icmpType, code), hl, ifIp);
      GetBe16(r, 2) == Htons(2 * hl + 16) && r[8] == IP_DEFAULT_TTL &&
      GetBe32(r, 12) == ifIp && GetBe32(r, 16) == GetBe32(p, 12)
  {
    var m := ErrorMessage(p, hl, icmpType, code);
    ErrorMessageKeepsHeader(p, hl, icmpType, code);
    SameBe32(m, 12, p, 12);
    ErrorHeaderFields(m, hl, ifIp);
  }

  /** The version, protocol and checksum of the error datagram built on a
      header of `hl >= 20` bytes. */
  lemma ErrorDatagramChecksum(p: seq<byte>, hl: nat, ifIp: Ip, icmpType: byte, code: byte)
    requires |p| == BUFSIZ && 20 <= hl <= 60
    ensures var r := ErrorHeader(ErrorMessage(p, hl, icmpType, code), hl, ifIp);
      r[0] == p[0] && r[9] == p[9] && IpChecksumOk(r)
  {
    var m := ErrorMessage(p, hl, icmpType, code);
    ErrorMessageKeepsHeader(p, hl, icmpType, code);
    ErrorHeaderFrame(m, hl, ifIp);
    ErrorHeaderChecksum(m, hl, ifIp);
  }

  /** Behind a header of `hl >= 20` bytes the message leaves the fixed
      header alone. */
  lemma ErrorMessageKeepsHeader(p: seq<byte>, hl: nat, icmpType: byte, code: byte)
    requires |p| == BUFSIZ && 20 <= hl <= 60
    ensures var m := ErrorMessage(p, hl, icmpType, code);
      forall k :: 0 <= k < 20 ==> m[k] == p[k]
  {
    ErrorMessageFrame(p, hl, icmpType, code);
  }

  /** The ICMP part of the error datagram built on a header of `hl >= 20`
      bytes. */
  lemma ErrorDatagramIcmpPart(p: seq<byte>, hl: nat, ifIp: Ip, icmpType: byte, code: byte)
    requires |p| == BUFSIZ && 20 <= hl <= 60 && hl % 4 == 0
    ensures var r := ErrorHeader(ErrorMessage(p, hl, icmpType, code), hl, ifIp);
      r[hl] == icmpType && r[hl + 1] == code && r[hl + 4 .. hl + 8] == [0, 0, 0, 0] &&
      r[hl + 8 .. 2 * hl + 16] == p[..hl + 8] && IcmpChecksumOk(r, hl, hl + 16)
  {
    var m := ErrorMessage(p, hl, icmpType, code);
    ErrorHeaderKeepsMessage(m, hl, ifIp);
    ErrorMessageHead(p, hl, icmpType, code);
    ErrorMessageQuote(p, hl, icmpType, code);
    ErrorMessageChecksum(p, hl, icmpType, code);
    MessageCarried(p, m, ErrorHeader(m, hl, ifIp), hl, icmpType, code);
  }

  /** The header rewrite leaves the message behind a header of `hl >= 20`
      bytes alone. */
  lemma ErrorHeaderKeepsMessage(m: seq<byte>, hl: nat, ifIp: Ip)
    requires |m| == BUFSIZ && 20 <= hl <= 60
    ensures var r := ErrorHeader(m, hl, ifIp);
      forall k :: hl <= k < 2 * hl + 16 ==> r[k] == m[k]
  {
    ErrorHeaderFrame(m, hl, ifIp);
  }

  /** What a receiver reads in the ICMP part only depends on those bytes. */
  lemma MessageCarried(p: seq<byte>, m: seq<byte>, r: seq<byte>, hl: nat, icmpType: byte, code: byte)
    requires |p| == |m| == |r| == BUFSIZ && 20 <= hl <= 60 && hl % 4 == 0
    requires forall k :: hl <= k < 2 * hl + 16 ==> r[k] == m[k]
    requires m[hl] == icmpType && m[hl + 1] == code && m[hl + 4 .. hl + 8] == [0, 0, 0, 0]
    requires m[hl + 8 .. 2 * hl + 16] == p[..hl + 8] && IcmpChecksumOk(m, hl, hl + 16)
    ensures r[hl] == icmpType && r[hl + 1] == code && r[hl + 4 .. hl + 8] == [0, 0, 0, 0]
    ensures r[hl + 8 .. 2 * hl + 16] == p[..hl + 8] && IcmpChecksumOk(r, hl, hl + 16)
  {
    assert r[hl + 4 .. hl + 8] == m[hl + 4 .. hl + 8];
    assert r[hl + 8 .. 2 * hl + 16] == m[hl + 8 .. 2 * hl + 16];
    EvenErrorLen(hl);
    assert r[hl .. hl + 16] == m[hl .. hl + 16];
    IcmpChecksumOkLocal(r, m, hl, hl + 16);
  }

  /** A header length is a multiple of 4, so the ICMP error message has an
      even length and its checksum covers exactly its bytes. */
  lemma EvenErrorLen(hl: nat)
    requires hl % 4 == 0
    ensures (hl + 16) % 2 == 0
  {
  }

  /** The IP header of the error a receiver reads, for a received header of
      at least 20 bytes: the length, the addresses (the source of the
      offending datagram as destination), TTL 64, a valid checksum, and the
      protocol byte as received. */
  lemma IcmpErrorIpHeader(p: seq<byte>, ifIp: Ip, icmpType: byte, code: byte)
    requires |p| == BUFSIZ && HeaderLen(p) >= 20
    ensures var r := IcmpErrorBuf(p, ifIp, icmpType, code);
      HeaderLen(r) == HeaderLen(p) && GetBe16(r, 2) == Htons(IcmpErrorLen(p)) &&
      r[8] == IP_DEFAULT_TTL && r[9] == p[9] && IpChecksumOk(r) &&
      GetBe32(r, 12) == ifIp && GetBe32(r, 16) == GetBe32(p, 12)
  {
    ErrorDatagramAddresses(p, HeaderLen(p), ifIp, icmpType, code);
    ErrorDatagramChecksum(p, HeaderLen(p), ifIp, icmpType, code);
  }

  /** The ICMP part of the error, for a received header of at least 20
      bytes: type, code, zeros, the quoted start of the offending datagram
      and a valid ICMP checksum. */
  lemma IcmpErrorIcmpPart(p: seq<byte>, ifIp: Ip, icmpType: byte, code: byte)
    requires |p| == BUFSIZ && HeaderLen(p) >= 20
    ensures var hl, r := HeaderLen(p), IcmpErrorBuf(p, ifIp, icmpType, code);
      r[hl] == icmpType && r[hl + 1] == code && r[hl + 4 .. hl + 8] == [0, 0, 0, 0] &&
      r[hl + 8 .. IcmpErrorLen(p)] == p[..hl + 8] && IcmpChecksumOk(r, hl, hl + 16)
  {
    ErrorDatagramIcmpPart(p, HeaderLen(p), ifIp, icmpType, code);
  }

  method BuildIcmpError(a: array<byte>, ifIp: Ip, icmpType: byte, code: byte)
    requires a.Length == BUFSIZ
    modifies a
    ensures a[..] == IcmpErrorBuf(old(a[..]), ifIp, icmpType, code)
  {
    var hl := Ihl4(a[0]);
    CopyQuote(a, hl);
    WriteIcmpHead(a, hl, icmpType, code);
    SetIcmpChecksum(a, hl, hl + 2 * ICMP_HDR_LEN);
    WriteErrorHeader(a, hl, ifIp);
  }

  method CopyQuote(a: array<byte>, hl: nat)
    requires a.Length == BUFSIZ && hl <= 60
    modifies a
    ensures a[..] == QuoteDatagram(old(a[..]), hl)
  {
    ghost var p := a[..];
    // the first hl+8 bytes are copied to offset hl+8 (router.c:155)
    forall k | 0 <= k < hl + ICMP_HDR_LEN {
      a[hl + ICMP_HDR_LEN + k] := a[k];
    }
    assert a[..] == Put(p, hl + ICMP_HDR_LEN, p[..hl + ICMP_HDR_LEN]);
  }

  method WriteIcmpHead(a: array<byte>, hl: nat, icmpType: byte, code: byte)
    requires a.Length == BUFSIZ && hl <= 60
    modifies a
    ensures a[..] == ErrorIcmpHead(old(a[..]), hl, icmpType, code)
  {
    a[hl] := icmpType;
    a[hl + 1] := code;
    // the four bytes after the ICMP checksum are zeroed (router.c:159)
    a[hl + 4] := 0;
    a[hl + 5] := 0;
    a[hl + 6] := 0;
    a[hl + 7] := 0;
  }

  method WriteErrorHeader(a: array<byte>, hl: nat, ifIp: Ip)
    requires a.Length == BUFSIZ && hl <= 60
    modifies a
    ensures a[..] == ErrorHeader(old(a[..]), hl, ifIp)
  {
    var len := Be16(Htons(2 * hl + 2 * ICMP_HDR_LEN));
    a[2] := len[0];
    a[3] := len[1];
    a[16] := a[12];
    a[17] := a[13];
    a[18] := a[14];
    a[19] := a[15];
    var src := Be32(ifIp);
    a[12] := src[0];
    a[13] := src[1];
    a[14] := src[2];
    a[15] := src[3];
    a[8] := IP_DEFAULT_TTL;
    SetIpChecksum(a);
  }

  // ----- echo replies -----

  /** The ICMP part of the echo reply to a datagram of `ipLen` bytes behind a
      header of `hl` bytes: the type becomes 0 and the checksum over the
      `ipLen - hl` message bytes (one more, as read by `get_cksum16`, when that
      is odd) is stored. */
  function EchoMessage(p: seq<byte>, hl: nat, ipLen: nat): (r: seq<byte>)
    requires |p| == BUFSIZ && hl <= 60 && hl <= ipLen < BUFSIZ
    ensures |r| == |p|
  {
    WithIcmpChecksum(p[hl := ICMP_ECHOREPLY], hl, ipLen - hl)
  }

  /** The source and destination addresses trade places (router.c:408). */
  function SwapAddresses(b: seq<byte>): (r: seq<byte>)
    requires |b| == BUFSIZ
    ensures |r| == |b|
  {
    b[12 := b[16]][13 := b[17]][14 := b[18]][15 := b[19]][16 := b[12]][17 := b[13]][18 := b[14]][19 := b[15]]
  }

  /** The reply's IP header: addresses swapped, TTL 64 and the checksum. */
  function ReplyHeader(b: seq<byte>): (r: seq<byte>)
    requires |b| == BUFSIZ
    ensures |r| == |b|
  {
    Reissued(SwapAddresses(b))
  }

  /** The buffer after the echo branch of `run_router`; the reply sent is its
      first `ipLen` bytes. */
  function EchoReplyBuf(p: seq<byte>, ipLen: nat): (r: seq<byte>)
    requires |p| == BUFSIZ && HeaderLen(p) <= ipLen < BUFSIZ
    ensures |r| == |p|
  {
    ReplyHeader(EchoMessage(p, HeaderLen(p), ipLen))
  }

  /** Only the type and the checksum of the message change. */
  lemma EchoMessageFrame(p: seq<byte>, hl: nat, ipLen: nat)
    requires |p| == BUFSIZ && hl <= 60 && hl <= ipLen < BUFSIZ
    ensures var r := EchoMessage(p, hl, ipLen);
      forall k :: 0 <= k < |p| && k != hl && k != hl + 2 && k != hl + 3 ==> r[k] == p[k]
  {
  }

  /** The type is 0 and the ICMP checksum passes the test. */
  lemma EchoMessageFields(p: seq<byte>, hl: nat, ipLen: nat)
    requires |p| == BUFSIZ && hl <= 60 && hl <= ipLen < BUFSIZ
    ensures var r := EchoMessage(p, hl, ipLen);
      r[hl] == ICMP_ECHOREPLY && IcmpChecksumOk(r, hl, ipLen - hl)
  {
    FreshIcmpChecksumOk(p[hl := ICMP_ECHOREPLY], hl, ipLen - hl);
  }

  /** The reply header touches only the TTL, checksum and address fields. */
  lemma ReplyHeaderFrame(b: seq<byte>)
    requires |b| == BUFSIZ
    ensures var r := ReplyHeader(b);
      forall k :: 0 <= k < |b| && k != 8 && !(10 <= k < 20) ==> r[k] == b[k]
  {
  }

  /** The addresses trade places and the TTL is 64. */
  lemma ReplyHeaderFields(b: seq<byte>)
    requires |b| == BUFSIZ
    ensures var r := ReplyHeader(b);
      GetBe32(r, 12) == GetBe32(b, 16) && GetBe32(r, 16) == GetBe32(b, 12) && r[8] == IP_DEFAULT_TTL
  {
    var r := ReplyHeader(b);
    SameBe32(r, 12, b, 16);
    SameBe32(r, 16, b, 12);
  }

  /** The reply header keeps its length and passes the validation. */
  lemma ReplyHeaderChecksum(b: seq<byte>)
    requires |b| == BUFSIZ
    ensures var r := ReplyHeader(b);
      HeaderLen(r) == HeaderLen(b) && IpChecksumOk(r)
  {
    ReissuedFields(SwapAddresses(b));
  }

  /** The IP header of the reply to a datagram with a header of `hl >= 20`
      bytes: the addresses swapped, TTL 64, a valid checksum and the other
      fields as received. */
  lemma EchoDatagramIpHeader(p: seq<byte>, hl: nat, ipLen: nat)
    requires |p| == BUFSIZ && 20 <= hl <= 60 && hl <= ipLen < BUFSIZ
    ensures var r := ReplyHeader(EchoMessage(p, hl, ipLen));
      GetBe32(r, 12) == GetBe32(p, 16) && GetBe32(r, 16) == GetBe32(p, 12) &&
      r[8] == IP_DEFAULT_TTL && IpChecksumOk(r) &&
      (forall k :: 0 <= k < 8 ==> r[k] == p[k]) && r[9] == p[9]
  {
    var m := EchoMessage(p, hl, ipLen);
    assert (forall k :: 0 <= k < 20 ==> m[k] == p[k]) by {
      EchoMessageFrame(p, hl, ipLen);
    }
    ReplyHeaderFrame(m);
    ReplyHeaderFields(m);
    ReplyHeaderChecksum(m);
    SameBe32(m, 12, p, 12);
    SameBe32(m, 16, p, 16);
  }

  /** The ICMP part of the reply to a datagram with a header of `hl >= 20`
      bytes and at least the 4 bytes of type, code and checksum: type 0, the
      request's code, identifier, sequence number and data, and a valid ICMP
      checksum. */
  lemma EchoDatagramIcmpPart(p: seq<byte>, hl: nat, ipLen: nat)
    requires |p| == BUFSIZ && 20 <= hl <= 60 && hl + 4 <= ipLen < BUFSIZ
    ensures var r := ReplyHeader(EchoMessage(p, hl, ipLen));
      r[hl] == ICMP_ECHOREPLY && r[hl + 1] == p[hl + 1] &&
      r[hl + 4 .. ipLen] == p[hl + 4 .. ipLen] && IcmpChecksumOk(r, hl, ipLen - hl)
  {
    var m := EchoMessage(p, hl, ipLen);
    assert m[hl + 1] == p[hl + 1] && m[hl + 4 .. ipLen] == p[hl + 4 .. ipLen] by {
      EchoMessageFrame(p, hl, ipLen);
    }
    EchoMessageFields(p, hl, ipLen);
    ReplyHeaderKeepsMessage(m);
    EchoCarried(m, ReplyHeader(m), hl, ipLen);
  }

  /** The reply header leaves everything behind the first 20 bytes alone. */
  lemma ReplyHeaderKeepsMessage(b: seq<byte>)
    requires |b| == BUFSIZ
    ensures var r := ReplyHeader(b);
      forall k :: 20 <= k < |b| ==> r[k] == b[k]
  {
    ReplyHeaderFrame(b);
  }

  /** A buffer that agrees with `m` from byte 20 on carries the same ICMP
      message behind a header of `hl >= 20` bytes. */
  lemma EchoCarried(m: seq<byte>, r: seq<byte>, hl: nat, ipLen: nat)
    requires |m| == |r| == BUFSIZ && 20 <= hl <= 60 && hl + 4 <= ipLen < BUFSIZ
    requires forall k :: 20 <= k < |m| ==> r[k] == m[k]
    ensures r[hl] == m[hl] && r[hl + 1] == m[hl + 1] && r[hl + 4 .. ipLen] == m[hl + 4 .. ipLen]
    ensures IcmpChecksumOk(r, hl, ipLen - hl) <==> IcmpChecksumOk(m, hl, ipLen - hl)
  {
    assert r[hl + 4 .. ipLen] == m[hl + 4 .. ipLen];
    var len := ipLen - hl;
    assert r[hl .. hl + len + len % 2] == m[hl .. hl + len + len % 2];
    IcmpChecksumOkLocal(r, m, hl, len);
  }

  /** What the receiver of the echo reply reads in its IP header, for a
      header of at least 20 bytes. */
  lemma EchoReplyIpHeader(p: seq<byte>, ipLen: nat)
    requires |p| == BUFSIZ && 20 <= HeaderLen(p) <= ipLen < BUFSIZ
    ensures var r := EchoReplyBuf(p, ipLen);
      HeaderLen(r) == HeaderLen(p) &&
      GetBe32(r, 12) == GetBe32(p, 16) && GetBe32(r, 16) == GetBe32(p, 12) &&
      r[8] == IP_DEFAULT_TTL && IpChecksumOk(r) &&
      (forall k :: 0 <= k < 8 ==> r[k] == p[k]) && r[9] == p[9]
  {
    EchoDatagramIpHeader(p, HeaderLen(p), ipLen);
  }

  /** What the receiver of the echo reply reads in its ICMP part. */
  lemma EchoReplyIcmpPart(p: seq<byte>, ipLen: nat)
    requires |p| == BUFSIZ && 20 <= HeaderLen(p) && HeaderLen(p) + 4 <= ipLen < BUFSIZ
    ensures var hl, r := HeaderLen(p), EchoReplyBuf(p, ipLen);
      r[hl] == ICMP_ECHOREPLY && r[hl + 1] == p[hl + 1] &&
      r[hl + 4 .. ipLen] == p[hl + 4 .. ipLen] && IcmpChecksumOk(r, hl, ipLen - hl)
  {
    EchoDatagramIcmpPart(p, HeaderLen(p), ipLen);
  }

  method BuildEchoReply(a: array<byte>, ipLen: nat)
    requires a.Length == BUFSIZ && HeaderLen(a[..]) <= ipLen < BUFSIZ
    modifies a
    ensures a[..] == EchoReplyBuf(old(a[..]), ipLen)
  {
    ghost var p := a[..];
    var hl := Ihl4(a[0]);
    assert hl == HeaderLen(p);
    a[hl] := ICMP_ECHOREPLY;
    assert a[..] == p[hl := ICMP_ECHOREPLY];
    SetIcmpChecksum(a, hl, ipLen - hl);
    assert a[..] == EchoMessage(p, hl, ipLen);
    WriteReplyHeader(a);
  }

  method WriteReplyHeader(a: array<byte>)
    requires a.Length == BUFSIZ
    modifies a
    ensures a[..] == ReplyHeader(old(a[..]))
  {
    a[12], a[13], a[14], a[15], a[16], a[17], a[18], a[19] :=
      a[16], a[17], a[18], a[19], a[12], a[13], a[14], a[15];
    a[8] := IP_DEFAULT_TTL;
    SetIpChecksum(a);
  }
}
