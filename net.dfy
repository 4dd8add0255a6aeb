/** Types, constants and wire encodings shared by the router, its link layer
    and the learning switch.

    An IPv4 address, a mask or a 32-bit protocol field is an `Ip`/`bv32`
    holding its numeric (host-order) value; on the wire it is written
    big-endian.  Equality and bitwise operations do not depend on byte order,
    so comparisons against network-order fields are the same as in the C. */
module Net {

  type byte = bv8
  type Ip = bv32

  /** A 6-byte Ethernet (MAC) address. */
  type Mac = m: seq<byte> | |m| == 6 witness [0, 0, 0, 0, 0, 0]

  /** `MAX_IF` in config.h. */
  const MAX_IF: nat := 16
  /** Size of every packet buffer (`BUFSIZ` of glibc, also the capture snap length). */
  const BUFSIZ: nat := 8192
  /** `sizeof(struct ether_header)`. */
  const ETHER_HDR_LEN: nat := 14

  const ETHERTYPE_IP: bv16 := 0x0800
  const ETHERTYPE_ARP: bv16 := 0x0806

  const IPPROTO_ICMP: byte := 1
  const IPPROTO_UDP: byte := 17
  /** `IPDEFTTL`. */
  const IP_DEFAULT_TTL: byte := 64
  /** `IPTOS_PREC_INTERNETCONTROL`. */
  const IPTOS_PREC_INTERNETCONTROL: byte := 0xc0

  const BROADCAST_MAC: Mac := [0xff, 0xff, 0xff, 0xff, 0xff, 0xff]
  const ZERO_MAC: Mac := [0, 0, 0, 0, 0, 0]

  // Return codes of error.h
  const UNKNOWN_MAC_ADDR: int := 103
  const OVERFLOW_ERROR: int := 104
  const OUT_OF_RANGE_ERROR: int := 105

  datatype Option<+T> = None | Some(value: T)

  /** One configured interface: `if_ips[i]`, `if_masks[i]`, `if_macs[i]`. */
  datatype Iface = Iface(ip: Ip, mask: Ip, mac: Mac)

  /** One frame handed to `send_packet`: the interface it leaves on and its bytes. */
  datatype Transmit = Transmit(ifIdx: nat, frame: seq<byte>)

  /** The class D test of router.c:384: the top four bits are 1110. */
  predicate IsMulticastIp(ip: Ip) {
    ip >> 28 == 0xe
  }

  // ----- big-endian encodings -----

  function Be16(x: bv16): (r: seq<byte>)
    ensures |r| == 2
  {
    [(x >> 8) as byte, (x & 0xff) as byte]
  }

  function Be32(x: bv32): (r: seq<byte>)
    ensures |r| == 4
  {
    [(x >> 24) as byte, ((x >> 16) & 0xff) as byte, ((x >> 8) & 0xff) as byte, (x & 0xff) as byte]
  }

  function GetBe16(s: seq<byte>, off: nat): bv16
    requires off + 2 <= |s|
  {
    ((s[off] as bv16) << 8) | (s[off + 1] as bv16)
  }

  function GetBe32(s: seq<byte>, off: nat): bv32
    requires off + 4 <= |s|
  {
    ((s[off] as bv32) << 24) | ((s[off + 1] as bv32) << 16) | ((s[off + 2] as bv32) << 8) | (s[off + 3] as bv32)
  }

  /** Decoding an encoded 16-bit field gives the value back, wherever it sits. */
  lemma Be16RoundTrip(x: bv16, pre: seq<byte>, post: seq<byte>)
    ensures GetBe16(pre + Be16(x) + post, |pre|) == x
  {
    var s := pre + Be16(x) + post;
    assert s[|pre|] == (x >> 8) as byte && s[|pre| + 1] == (x & 0xff) as byte;
  }

  /** Decoding an encoded 32-bit field gives the value back, wherever it sits. */
  lemma Be32RoundTrip(x: bv32, pre: seq<byte>, post: seq<byte>)
    ensures GetBe32(pre + Be32(x) + post, |pre|) == x
  {
    var s := pre + Be32(x) + post;
    assert s[|pre|] == (x >> 24) as byte && s[|pre| + 1] == ((x >> 16) & 0xff) as byte;
    assert s[|pre| + 2] == ((x >> 8) & 0xff) as byte && s[|pre| + 3] == (x & 0xff) as byte;
  }

  /** Encoding the field read at `off` reproduces those two bytes. */
  lemma GetBe16Encode(s: seq<byte>, off: nat)
    requires off + 2 <= |s|
    ensures Be16(GetBe16(s, off)) == s[off .. off + 2]
  {
    Be16Bytes(s[off], s[off + 1]);
  }

  /** Encoding the field read at `off` reproduces those four bytes. */
  lemma GetBe32Encode(s: seq<byte>, off: nat)
    requires off + 4 <= |s|
    ensures Be32(GetBe32(s, off)) == s[off .. off + 4]
  {
    Be32Bytes(s[off], s[off + 1], s[off + 2], s[off + 3]);
  }

  /** The bytes of a 16-bit value assembled from two bytes are those bytes. */
  lemma Be16Bytes(a: byte, b: byte)
    ensures var x := ((a as bv16) << 8) | (b as bv16);
      (x >> 8) as byte == a && (x & 0xff) as byte == b
  {
  }

  /** The bytes of a 32-bit value assembled from four bytes are those bytes. */
  lemma Be32Bytes(a: byte, b: byte, c: byte, d: byte)
    ensures var x := ((a as bv32) << 24) | ((b as bv32) << 16) | ((c as bv32) << 8) | (d as bv32);
      (x >> 24) as byte == a && ((x >> 16) & 0xff) as byte == b && ((x >> 8) & 0xff) as byte == c && (x & 0xff) as byte == d
  {
  }

  /** A 16-bit field is read back from wherever its two bytes sit. */
  lemma Be16At(s: seq<byte>, off: nat, x: bv16)
    requires off + 2 <= |s| && s[off] == Be16(x)[0] && s[off + 1] == Be16(x)[1]
    ensures GetBe16(s, off) == x
  {
    Be16RoundTrip(x, [], []);
    assert [] + Be16(x) + [] == Be16(x);
  }

  /** A 32-bit field is read back from wherever its four bytes sit. */
  lemma Be32At(s: seq<byte>, off: nat, x: bv32)
    requires off + 4 <= |s|
    requires s[off] == Be32(x)[0] && s[off + 1] == Be32(x)[1] && s[off + 2] == Be32(x)[2] && s[off + 3] == Be32(x)[3]
    ensures GetBe32(s, off) == x
  {
    Be32RoundTrip(x, [], []);
    assert [] + Be32(x) + [] == Be32(x);
  }

  /** A 16-bit field is read back from an encoding stored at `off`. */
  lemma Be16Slice(s: seq<byte>, off: nat, x: bv16)
    requires off + 2 <= |s| && s[off .. off + 2] == Be16(x)
    ensures GetBe16(s, off) == x
  {
    assert s[off] == s[off .. off + 2][0];
    assert s[off + 1] == s[off .. off + 2][1];
    Be16At(s, off, x);
  }

  /** A 32-bit field is read back from an encoding stored at `off`. */
  lemma Be32Slice(s: seq<byte>, off: nat, x: bv32)
    requires off + 4 <= |s| && s[off .. off + 4] == Be32(x)
    ensures GetBe32(s, off) == x
  {
    var w := s[off .. off + 4];
    assert s[off] == w[0];
    assert s[off + 1] == w[1];
    assert s[off + 2] == w[2];
    assert s[off + 3] == w[3];
    Be32At(s, off, x);
  }

  /** A 16-bit field is read the same once more bytes follow the buffer. */
  lemma GetBe16Prefix(d: seq<byte>, rest: seq<byte>, off: nat)
    requires off + 2 <= |d|
    ensures GetBe16(d + rest, off) == GetBe16(d, off)
  {
    assert (d + rest)[off] == d[off] && (d + rest)[off + 1] == d[off + 1];
  }

  /** Two 16-bit fields made of the same two bytes are equal. */
  lemma SameBe16(s: seq<byte>, i: nat, t: seq<byte>, j: nat)
    requires i + 2 <= |s| && j + 2 <= |t|
    requires s[i] == t[j] && s[i + 1] == t[j + 1]
    ensures GetBe16(s, i) == GetBe16(t, j)
  {
  }

  /** Two 32-bit fields made of the same four bytes are equal. */
  lemma SameBe32(s: seq<byte>, i: nat, t: seq<byte>, j: nat)
    requires i + 4 <= |s| && j + 4 <= |t|
    requires s[i] == t[j] && s[i + 1] == t[j + 1] && s[i + 2] == t[j + 2] && s[i + 3] == t[j + 3]
    ensures GetBe32(s, i) == GetBe32(t, j)
  {
  }

  /** A 16-bit field inside a slice is the field at the shifted offset. */
  lemma GetBe16Slice(s: seq<byte>, lo: nat, hi: nat, j: nat)
    requires lo <= hi <= |s| && j + 2 <= hi - lo
    ensures GetBe16(s, lo + j) == GetBe16(s[lo..hi], j)
  {
    var w := s[lo..hi];
    assert w[j] == s[lo + j];
    assert w[j + 1] == s[lo + j + 1];
    SameBe16(s, lo + j, w, j);
  }

  /** A 32-bit field inside a slice is the field at the shifted offset. */
  lemma GetBe32Slice(s: seq<byte>, lo: nat, hi: nat, j: nat)
    requires lo <= hi <= |s| && j + 4 <= hi - lo
    ensures GetBe32(s, lo + j) == GetBe32(s[lo..hi], j)
  {
    var w := s[lo..hi];
    assert w[j] == s[lo + j];
    assert w[j + 1] == s[lo + j + 1];
    assert w[j + 2] == s[lo + j + 2];
    assert w[j + 3] == s[lo + j + 3];
    SameBe32(s, lo + j, w, j);
  }

  /** The host value of the 16-bit field that `htons` stores for a `size_t`
      `n`: its low 16 bits (compared against `GetBe16` of the field). */
  function Htons(n: nat): bv16 {
    (n % 0x1_0000) as bv16
  }

  lemma HtonsSmall(x: nat)
    requires x < 0x1_0000
    ensures Htons(x) == x as bv16
  {
    assert x % 0x1_0000 == x;
  }

  /** `p` with `bytes` written at `off` (a `memcpy` or a run of field stores). */
  function Put(p: seq<byte>, off: nat, bytes: seq<byte>): (r: seq<byte>)
    requires off + |bytes| <= |p|
    ensures |r| == |p|
    ensures forall k {:trigger r[k]} :: off <= k < off + |bytes| ==> r[k] == bytes[k - off]
    ensures forall k {:trigger r[k]} :: 0 <= k < |p| && !(off <= k < off + |bytes|) ==> r[k] == p[k]
  {
    var r := p[..off] + bytes + p[off + |bytes|..];
    assert forall k {:trigger r[k]} :: off <= k < off + |bytes| ==> r[k] == bytes[k - off];
    r
  }

  /** The written bytes are read back as one range. */
  lemma PutRange(p: seq<byte>, off: nat, bytes: seq<byte>)
    requires off + |bytes| <= |p|
    ensures Put(p, off, bytes)[off .. off + |bytes|] == bytes
  {
    var r := Put(p, off, bytes);
    assert forall k :: 0 <= k < |bytes| ==> r[off .. off + |bytes|][k] == bytes[k];
  }

  /** Two sequences that agree at every index of a range agree on the range. */
  lemma SameRange(s: seq<byte>, t: seq<byte>, lo: nat, hi: nat)
    requires lo <= hi <= |s| && hi <= |t|
    requires forall k :: lo <= k < hi ==> s[k] == t[k]
    ensures s[lo..hi] == t[lo..hi]
  {
  }

  /** Index of the first interface whose address is `ip`, or `|ifs|` if none
      (the linear scans over the interface addresses at router.c:377-382 and
      ether_layer.c:209-214). */
  function LocalIfIndex(ifs: seq<Iface>, ip: Ip): (j: nat)
    ensures j <= |ifs|
    ensures j < |ifs| ==> ifs[j].ip == ip
    ensures forall k :: 0 <= k < j ==> ifs[k].ip != ip
  {
    if ifs == [] then 0
    else if ifs[0].ip == ip then 0
    else 1 + LocalIfIndex(ifs[1..], ip)
  }
}
