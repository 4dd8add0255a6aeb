/** The Internet checksum of RFC 1071 as router.c computes it (`get_cksum16`)
    and the two places it is stored (`set_ip_checksum`, `set_icmp_checksum`).

    Words are taken big-endian; by section 2(B) of RFC 1071 the stored
    checksum bytes are the same as with the host-order words of the C.
    The running sum is a `bv32`, so it wraps exactly as the C `uint32_t`. */
module Checksum {
  import opened Net

  /** The 16-bit word made of two bytes, widened to the accumulator. */
  function Word(hi: byte, lo: byte): bv32 {
    ((hi as bv32) << 8) | (lo as bv32)
  }

  /** One addition to the `uint32_t` accumulator of `get_cksum16` (wraps
      modulo 2^32). */
  function Add32(a: bv32, b: bv32): bv32 {
    a + b
  }

  /** The uint32 sum of the 16-bit words of an even-length range. */
  function WordSum(s: seq<byte>): bv32
    requires |s| % 2 == 0
  {
    if s == [] then 0 else Add32(WordSum(s[..|s| - 2]), Word(s[|s| - 2], s[|s| - 1]))
  }

  /** The two end-around-carry folds and the final complement of `get_cksum16`. */
  function Fold(sum: bv32): bv16 {
    var c := (sum >> 16) + (sum & 0xffff);
    var c' := c + (c >> 16);
    (!c' & 0xffff) as bv16
  }

  /** RFC 1071 checksum of an even-length byte range. */
  function Checksum(s: seq<byte>): bv16
    requires |s| % 2 == 0
  {
    Fold(WordSum(s))
  }

  /** `get_cksum16(a + off, len)`.  For an odd `len` the C loop reads the
      16-bit word at `len - 1`, i.e. one byte past the range; that byte is
      whatever the buffer holds there, so the result is the checksum of the
      range extended by it.  The branch for a trailing byte that follows the
      loop never runs, since the loop only stops once the whole range is read. */
  method GetCksum16(a: array<byte>, off: nat, len: nat) returns (c: bv16)
    requires off + len + len % 2 <= a.Length
    ensures c == Checksum(a[off .. off + len + len % 2])
  {
    ghost var s := a[off .. off + len + len % 2];
    var sum: bv32 := 0;
    var i: nat := 0;
    while i < len
      invariant i % 2 == 0 && i <= |s|
      invariant sum == WordSum(s[..i])
    {
      WordSumStep(s, i);
      assert s[i] == a[off + i] && s[i + 1] == a[off + i + 1];
      sum := Add32(sum, Word(a[off + i], a[off + i + 1]));
      i := i + 2;
    }
    assert s[..i] == s;
    c := Fold(sum);
  }

  /** Extending an even prefix by one more word adds that word to the sum. */
  lemma WordSumStep(s: seq<byte>, i: nat)
    requires i % 2 == 0 && i + 2 <= |s|
    ensures WordSum(s[..i + 2]) == Add32(WordSum(s[..i]), Word(s[i], s[i + 1]))
  {
    assert s[..i + 2][..i] == s[..i];
  }

  function Hi(x: bv16): byte { (x >> 8) as byte }
  function Lo(x: bv16): byte { (x & 0xff) as byte }

  /** `ihl * 4` for the first header byte `b`: `ihl` is its low nibble. */
  function Ihl4(b: byte): (n: nat)
    ensures n <= 60 && n % 4 == 0
  {
    ((b & 0x0f) as int) * 4
  }

  /** The IPv4 header length of the datagram `p`. */
  function HeaderLen(p: seq<byte>): (n: nat)
    requires |p| >= 1
    ensures n <= 60 && n % 4 == 0
  {
    Ihl4(p[0])
  }

  /** Buffer contents after `set_ip_checksum`: the check field (bytes 10-11)
      is zeroed, the checksum of the first `ihl*4` bytes is computed, and it is
      stored there.  No other byte changes. */
  function WithIpChecksum(p: seq<byte>): (r: seq<byte>)
    requires |p| >= 20 && HeaderLen(p) <= |p|
    ensures |r| == |p| && HeaderLen(r) == HeaderLen(p)
    ensures forall k :: 0 <= k < |p| && k != 10 && k != 11 ==> r[k] == p[k]
  {
    var z := p[10 := 0][11 := 0];
    var c := Checksum(z[..HeaderLen(p)]);
    z[10 := Hi(c)][11 := Lo(c)]
  }

  /** The header test of router.c: recomputing the checksum reproduces the
      stored one. */
  predicate IpChecksumOk(p: seq<byte>)
    requires |p| >= 20 && HeaderLen(p) <= |p|
  {
    WithIpChecksum(p)[10] == p[10] && WithIpChecksum(p)[11] == p[11]
  }

  method SetIpChecksum(a: array<byte>)
    requires a.Length >= 20 && HeaderLen(a[..]) <= a.Length
    modifies a
    ensures a[..] == WithIpChecksum(old(a[..]))
  {
    var hl := Ihl4(a[0]);
    a[10] := 0;
    a[11] := 0;
    ghost var z := a[..];
    var c := GetCksum16(a, 0, hl);
    assert a[0 .. hl] == z[..hl];
    a[10] := Hi(c);
    a[11] := Lo(c);
  }

  /** Buffer contents after `set_icmp_checksum(p + off, len)`: the ICMP
      checksum field (bytes `off+2`, `off+3`) is zeroed, the checksum of the
      message (for an odd `len`, extended by the byte after it) is computed
      and stored there.  No other byte changes. */
  function WithIcmpChecksum(p: seq<byte>, off: nat, len: nat): (r: seq<byte>)
    requires off + 4 <= |p| && off + len + len % 2 <= |p|
    ensures |r| == |p|
    ensures forall k :: 0 <= k < |p| && k != off + 2 && k != off + 3 ==> r[k] == p[k]
  {
    var z := p[off + 2 := 0][off + 3 := 0];
    var c := Checksum(z[off .. off + len + len % 2]);
    z[off + 2 := Hi(c)][off + 3 := Lo(c)]
  }

  method SetIcmpChecksum(a: array<byte>, off: nat, len: nat)
    requires off + 4 <= a.Length && off + len + len % 2 <= a.Length
    modifies a
    ensures a[..] == WithIcmpChecksum(old(a[..]), off, len)
  {
    a[off + 2] := 0;
    a[off + 3] := 0;
    ghost var z := a[..];
    var c := GetCksum16(a, off, len);
    assert a[off .. off + len + len % 2] == z[off .. off + len + len % 2];
    a[off + 2] := Hi(c);
    a[off + 3] := Lo(c);
  }

  // ----- what the stored checksums guarantee -----

  /** Storing the IP checksum twice is the same as storing it once. */
  lemma IpChecksumIdempotent(p: seq<byte>)
    requires |p| >= 20 && HeaderLen(p) <= |p|
    ensures WithIpChecksum(WithIpChecksum(p)) == WithIpChecksum(p)
  {
    var r := WithIpChecksum(p);
    assert r[10 := 0][11 := 0] == p[10 := 0][11 := 0];
  }

  /** The validation of router.c passes exactly on headers that already carry
      the checksum `set_ip_checksum` would store, and leaves those bytes as
      they were. */
  lemma IpChecksumOkIff(p: seq<byte>)
    requires |p| >= 20 && HeaderLen(p) <= |p|
    ensures IpChecksumOk(p) <==> WithIpChecksum(p) == p
  {
    if IpChecksumOk(p) {
      var r := WithIpChecksum(p);
      assert forall k :: 0 <= k < |p| ==> r[k] == p[k];
    }
  }

  /** A freshly checksummed header always passes the validation. */
  lemma FreshIpChecksumOk(p: seq<byte>)
    requires |p| >= 20 && HeaderLen(p) <= |p|
    ensures IpChecksumOk(WithIpChecksum(p))
  {
    IpChecksumIdempotent(p);
  }

  /** Storing the ICMP checksum twice is the same as storing it once. */
  lemma IcmpChecksumIdempotent(p: seq<byte>, off: nat, len: nat)
    requires off + 4 <= |p| && off + len + len % 2 <= |p|
    ensures WithIcmpChecksum(WithIcmpChecksum(p, off, len), off, len) == WithIcmpChecksum(p, off, len)
  {
    var r := WithIcmpChecksum(p, off, len);
    assert r[off + 2 := 0][off + 3 := 0] == p[off + 2 := 0][off + 3 := 0];
  }

  /** The ICMP counterpart of `IpChecksumOk`: recomputing the checksum over
      the message reproduces the stored one. */
  predicate IcmpChecksumOk(p: seq<byte>, off: nat, len: nat)
    requires off + 4 <= |p| && off + len + len % 2 <= |p|
  {
    WithIcmpChecksum(p, off, len)[off + 2] == p[off + 2] && WithIcmpChecksum(p, off, len)[off + 3] == p[off + 3]
  }

  /** A freshly stored ICMP checksum passes the same test. */
  lemma FreshIcmpChecksumOk(p: seq<byte>, off: nat, len: nat)
    requires off + 4 <= |p| && off + len + len % 2 <= |p|
    ensures IcmpChecksumOk(WithIcmpChecksum(p, off, len), off, len)
  {
    IcmpChecksumIdempotent(p, off, len);
  }

  /** The ICMP checksum test reads only the message bytes (and, for an odd
      length, the byte after them). */
  lemma IcmpChecksumOkLocal(p: seq<byte>, q: seq<byte>, off: nat, len: nat)
    requires 4 <= len && off + len + len % 2 <= |p| && off + len + len % 2 <= |q|
    requires p[off .. off + len + len % 2] == q[off .. off + len + len % 2]
    ensures IcmpChecksumOk(p, off, len) <==> IcmpChecksumOk(q, off, len)
  {
    var end := off + len + len % 2;
    assert p[off + 2] == q[off + 2] && p[off + 3] == q[off + 3];
    assert p[off + 2 := 0][off + 3 := 0][off .. end] == q[off + 2 := 0][off + 3 := 0][off .. end];
  }

  /** The IP checksum test reads only the first `ihl*4` bytes (and the check
      field). */
  lemma IpChecksumOkLocal(p: seq<byte>, q: seq<byte>)
    requires |p| >= 20 && |q| >= 20 && HeaderLen(p) <= |p| && HeaderLen(q) <= |q|
    requires p[0] == q[0] && p[10] == q[10] && p[11] == q[11]
    requires p[..HeaderLen(p)] == q[..HeaderLen(q)]
    ensures IpChecksumOk(p) <==> IpChecksumOk(q)
  {
    var n := HeaderLen(p);
    assert p[10 := 0][11 := 0][..n] == q[10 := 0][11 := 0][..n];
  }

  /** The IP checksum covers the header only: storing it in a packet is
      storing it in the header and leaving the payload as it is; the
      result passes the validation. */
  lemma WithIpChecksumPayload(h: seq<byte>, body: seq<byte>)
    requires |h| >= 20 && HeaderLen(h) <= |h|
    ensures |h + body| >= 20 && HeaderLen(h + body) <= |h + body|
    ensures WithIpChecksum(h + body) == WithIpChecksum(h) + body
    ensures WithIpChecksum(h + body)[|h|..] == body
    ensures IpChecksumOk(WithIpChecksum(h + body))
  {
    var p := h + body;
    assert p[0] == h[0];
    WithIpChecksumPrefix(p, |h|);
    assert p[..|h|] == h;
    var r := WithIpChecksum(p);
    assert forall k :: |h| <= k < |p| ==> r[k] == body[k - |h|];
    assert r == r[..|h|] + r[|h|..];
    FreshIpChecksumOk(p);
  }

  /** The IP checksum reads only the first `ihl*4` bytes of the buffer, so it can
      be computed on any prefix that holds the header. */
  lemma WithIpChecksumPrefix(p: seq<byte>, n: nat)
    requires 20 <= n <= |p| && HeaderLen(p) <= n
    ensures WithIpChecksum(p)[..n] == WithIpChecksum(p[..n])
  {
    var q := p[..n];
    assert q[10 := 0][11 := 0][..HeaderLen(q)] == p[10 := 0][11 := 0][..HeaderLen(p)];
  }
}
