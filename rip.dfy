/** The routing side of the RIPv2 engine of router.c after RFC 2453: the
    advertisement `send_rip_response` builds (split horizon with poisoned
    reverse of section 3.4.3, at most 25 records per datagram as in section
    3.6, sent to 224.0.0.9 of section 4.5) and the table relaxation a
    response drives.  The relaxation is stated here on table values; the
    router methods that perform it in place are proved equal to it. */
module Rip {
  import opened Net
  import opened EtherLayer
  import opened RouteTable
  import opened RipPacket
  import opened Checksum

  /** 224.0.0.9. */
  const RIP_MULTICAST_IP: Ip := 0xe000_0009
  /** Milliseconds between two periodic advertisements. */
  const RIP_UPDATE_TIME: nat := 5000

  // ----- advertisement -----

  /** The record advertised for a route on interface `ifIdx`: family 2, tag 0,
      next hop 0, and metric 16 for a route learned on that same interface. */
  function AdvertisedEntry(r: RouteEntry, ifIdx: int): RipEntry {
    RipEntry(RIP_AF_IP, 0, r.dst, r.mask, 0, if r.ifIdx == ifIdx then RIP_METRIC_INF else r.metric)
  }

  function Advertise(routes: seq<RouteEntry>, ifIdx: int): (es: seq<RipEntry>)
    ensures |es| == |routes|
  {
    seq(|routes|, k requires 0 <= k < |routes| => AdvertisedEntry(routes[k], ifIdx))
  }

  lemma AdvertisePrefix(routes: seq<RouteEntry>, ifIdx: int, n: nat)
    requires n <= |routes|
    ensures Advertise(routes[..n], ifIdx) == Advertise(routes, ifIdx)[..n]
  {
  }

  /** The records cut into datagram loads, in order: full loads of 25 and a
      last, shorter, one. */
  function Chunks(es: seq<RipEntry>): (cs: seq<seq<RipEntry>>)
    ensures forall k :: 0 <= k < |cs| ==> 1 <= |cs[k]| <= RIP_MAX_ENTRIES
    decreases |es|
  {
    if es == [] then []
    else if |es| <= RIP_MAX_ENTRIES then [es]
    else [es[..RIP_MAX_ENTRIES]] + Chunks(es[RIP_MAX_ENTRIES..])
  }

  function Flatten(cs: seq<seq<RipEntry>>): seq<RipEntry> {
    if cs == [] then [] else cs[0] + Flatten(cs[1..])
  }

  /** Every record lands in exactly one load, in order; there are
      ceil(n/25) loads, none for no records, and all but the last are full. */
  lemma {:induction false} ChunksShape(es: seq<RipEntry>)
    ensures Flatten(Chunks(es)) == es
    ensures |Chunks(es)| == (|es| + RIP_MAX_ENTRIES - 1) / RIP_MAX_ENTRIES
    ensures forall k :: 0 <= k < |Chunks(es)| - 1 ==> |Chunks(es)[k]| == RIP_MAX_ENTRIES
    decreases |es|
  {
    if |es| > RIP_MAX_ENTRIES {
      var rest := es[RIP_MAX_ENTRIES..];
      ChunksShape(rest);
      var cs := Chunks(es);
      assert cs[1..] == Chunks(rest);
      assert es == es[..RIP_MAX_ENTRIES] + rest;
    }
  }

  /** The loads of a prefix ending in a partial or just-filled batch: the
      batch `send_rip_response` flushes after scanning `end` routes, `n`
      full batches having gone before it. */
  lemma {:induction false} ChunksSnoc(es: seq<RipEntry>, n: nat, start: nat, end: nat)
    requires start == RIP_MAX_ENTRIES * n && start < end <= start + RIP_MAX_ENTRIES && end <= |es|
    ensures Chunks(es[..end]) == Chunks(es[..start]) + [es[start..end]]
    decreases n
  {
    if n > 0 {
      var es' := es[RIP_MAX_ENTRIES..];
      ChunksSnoc(es', n - 1, start - RIP_MAX_ENTRIES, end - RIP_MAX_ENTRIES);
      assert es[..end][RIP_MAX_ENTRIES..] == es'[..end - RIP_MAX_ENTRIES];
      assert es[..end][..RIP_MAX_ENTRIES] == es[..RIP_MAX_ENTRIES];
      assert es'[start - RIP_MAX_ENTRIES .. end - RIP_MAX_ENTRIES] == es[start..end];
      if start > RIP_MAX_ENTRIES {
        assert es[..start][RIP_MAX_ENTRIES..] == es'[..start - RIP_MAX_ENTRIES];
        assert es[..start][..RIP_MAX_ENTRIES] == es[..RIP_MAX_ENTRIES];
      } else {
        assert es'[..start - RIP_MAX_ENTRIES] == [];
      }
    }
  }

  /** One response frame of `send_rip_response(ifIdx)`: the records of `load`
      from the interface's address to 224.0.0.9, sent to the RIP multicast
      MAC, with IP id `id`. */
  function RipResponse(ifs: seq<Iface>, ripMac: Mac, ifIdx: nat, id: bv16, load: seq<RipEntry>): (t: Transmit)
    requires ifIdx < |ifs| && |load| <= RIP_MAX_ENTRIES
    ensures t.ifIdx == ifIdx
  {
    IpFrame(ifs, ifIdx, ripMac, RipMessage(RIP_CMD_RESPONSE, ifs[ifIdx].ip, RIP_MULTICAST_IP, id, load))
  }

  /** The frames `send_rip_response(ifIdx)` hands to `send_packet`: one
      response per load; `rng(k)` is the `rand()` id of the k-th one. */
  function RipResponses(ifs: seq<Iface>, ripMac: Mac, routes: seq<RouteEntry>, ifIdx: nat, rng: nat -> bv16): (out: seq<Transmit>)
    requires ifIdx < |ifs|
  {
    ResponseFrames(ifs, ripMac, ifIdx, rng, Chunks(Advertise(routes, ifIdx)))
  }

  /** One response per load, the k-th with IP id `rng(k)`. */
  function ResponseFrames(ifs: seq<Iface>, ripMac: Mac, ifIdx: nat, rng: nat -> bv16, cs: seq<seq<RipEntry>>): (out: seq<Transmit>)
    requires ifIdx < |ifs| && forall k :: 0 <= k < |cs| ==> |cs[k]| <= RIP_MAX_ENTRIES
    ensures |out| == |cs|
  {
    seq(|cs|, k requires 0 <= k < |cs| => RipResponse(ifs, ripMac, ifIdx, rng(k), cs[k]))
  }

  /** Sending one more load appends its response, numbered after the others. */
  lemma ResponseFramesSnoc(ifs: seq<Iface>, ripMac: Mac, ifIdx: nat, rng: nat -> bv16, cs: seq<seq<RipEntry>>, c: seq<RipEntry>)
    requires ifIdx < |ifs| && forall k :: 0 <= k < |cs| ==> |cs[k]| <= RIP_MAX_ENTRIES
    requires |c| <= RIP_MAX_ENTRIES
    ensures ResponseFrames(ifs, ripMac, ifIdx, rng, cs + [c]) ==
      ResponseFrames(ifs, ripMac, ifIdx, rng, cs) + [RipResponse(ifs, ripMac, ifIdx, rng(|cs|), c)]
  {
    var cs' := cs + [c];
    assert forall k :: 0 <= k < |cs| ==> cs'[k] == cs[k];
  }

  /** Response `k` as a receiver sees it: an IPv4 frame on `ifIdx` from the
      interface's MAC to the RIP multicast MAC, holding a datagram with a
      valid header checksum and IP id `rng(k)` from the interface's address
      to 224.0.0.9; it is a RIP response whose records read back as load `k`. */
  lemma ResponseFramesFields(ifs: seq<Iface>, ripMac: Mac, ifIdx: nat, rng: nat -> bv16, cs: seq<seq<RipEntry>>, k: nat)
    requires ifIdx < |ifs| && forall i :: 0 <= i < |cs| ==> |cs[i]| <= RIP_MAX_ENTRIES
    requires k < |cs|
    ensures |ResponseFrames(ifs, ripMac, ifIdx, rng, cs)[k].frame| == ETHER_HDR_LEN + RIP_ENTRIES_OFF + RIP_ENTRY_LEN * |cs[k]|
    ensures var t := ResponseFrames(ifs, ripMac, ifIdx, rng, cs)[k];
      var d := t.frame[ETHER_HDR_LEN..];
      t.ifIdx == ifIdx && t.frame[..6] == ripMac && t.frame[6..12] == ifs[ifIdx].mac &&
      GetBe16(t.frame, 12) == ETHERTYPE_IP &&
      |d| == RIP_ENTRIES_OFF + RIP_ENTRY_LEN * |cs[k]| && HeaderLen(d) == IP_HDR_LEN && IpChecksumOk(d) &&
      GetBe16(d, 4) == rng(k) && GetBe32(d, 12) == ifs[ifIdx].ip && GetBe32(d, 16) == RIP_MULTICAST_IP &&
      d[28] == RIP_CMD_RESPONSE && DecodeEntries(d, RIP_ENTRIES_OFF, |cs[k]|) == cs[k]
  {
    var d := RipMessage(RIP_CMD_RESPONSE, ifs[ifIdx].ip, RIP_MULTICAST_IP, rng(k), cs[k]);
    assert ResponseFrames(ifs, ripMac, ifIdx, rng, cs)[k] == IpFrame(ifs, ifIdx, ripMac, d);
    EtherFrameFields(ripMac, ifs[ifIdx].mac, ETHERTYPE_IP, d);
    RipMessageHeader(RIP_CMD_RESPONSE, ifs[ifIdx].ip, RIP_MULTICAST_IP, rng(k), cs[k]);
    RipMessageIpFields(RIP_CMD_RESPONSE, ifs[ifIdx].ip, RIP_MULTICAST_IP, rng(k), cs[k]);
    RipMessageUdpFields(RIP_CMD_RESPONSE, ifs[ifIdx].ip, RIP_MULTICAST_IP, rng(k), cs[k]);
    DecodeEncodeEntries(d, RIP_ENTRIES_OFF, cs[k]);
  }

  /** Regrouping a log of sends. */
  lemma AppendAssoc(a: seq<Transmit>, b: seq<Transmit>, c: seq<Transmit>)
    ensures (a + b) + c == a + (b + c)
  {
    assert |(a + b) + c| == |a + (b + c)|;
    forall k | 0 <= k < |a| + |b| + |c|
      ensures ((a + b) + c)[k] == (a + (b + c))[k]
    {
    }
  }

  /** The advertisement: ceil(n/25) responses, none for an empty table;
      their loads, read back in order, are the whole table with split
      horizon and poisoned reverse applied, each route exactly once, 25 per
      datagram except in the last one. */
  lemma RipResponsesShape(ifs: seq<Iface>, ripMac: Mac, routes: seq<RouteEntry>, ifIdx: nat, rng: nat -> bv16)
    requires ifIdx < |ifs|
    ensures |RipResponses(ifs, ripMac, routes, ifIdx, rng)| == (|routes| + RIP_MAX_ENTRIES - 1) / RIP_MAX_ENTRIES
    ensures var cs := Chunks(Advertise(routes, ifIdx));
      |cs| == |RipResponses(ifs, ripMac, routes, ifIdx, rng)| && Flatten(cs) == Advertise(routes, ifIdx) &&
      (forall k :: 0 <= k < |cs| - 1 ==> |cs[k]| == RIP_MAX_ENTRIES) &&
      (forall k :: 0 <= k < |cs| ==> 1 <= |cs[k]| <= RIP_MAX_ENTRIES) &&
      (forall k :: 0 <= k < |cs| ==> RipResponses(ifs, ripMac, routes, ifIdx, rng)[k] == RipResponse(ifs, ripMac, ifIdx, rng(k), cs[k]))
  {
    ChunksShape(Advertise(routes, ifIdx));
  }

  /** The number of responses alone. */
  lemma RipResponsesCount(ifs: seq<Iface>, ripMac: Mac, routes: seq<RouteEntry>, ifIdx: nat, rng: nat -> bv16)
    requires ifIdx < |ifs|
    ensures |RipResponses(ifs, ripMac, routes, ifIdx, rng)| == (|routes| + RIP_MAX_ENTRIES - 1) / RIP_MAX_ENTRIES
  {
    RipResponsesShape(ifs, ripMac, routes, ifIdx, rng);
  }

  /** Every response leaves on the interface being advertised on. */
  lemma RipResponsesOnIface(ifs: seq<Iface>, ripMac: Mac, routes: seq<RouteEntry>, ifIdx: nat, rng: nat -> bv16)
    requires ifIdx < |ifs|
    ensures forall k :: 0 <= k < |RipResponses(ifs, ripMac, routes, ifIdx, rng)| ==>
      RipResponses(ifs, ripMac, routes, ifIdx, rng)[k].ifIdx == ifIdx
  {
    var out := RipResponses(ifs, ripMac, routes, ifIdx, rng);
    var cs := Chunks(Advertise(routes, ifIdx));
    assert forall k :: 0 <= k < |out| ==> out[k] == RipResponse(ifs, ripMac, ifIdx, rng(k), cs[k]);
  }

  /** Record k of the advertisement on `ifIdx` carries route k's prefix and,
      unless the route leaves through `ifIdx`, its metric. */
  lemma AdvertisedMetric(routes: seq<RouteEntry>, ifIdx: int, k: nat)
    requires k < |routes|
    ensures var e := Advertise(routes, ifIdx)[k];
      e.ip == routes[k].dst && e.mask == routes[k].mask && e.nextHop == 0 && e.family == RIP_AF_IP &&
      (e.metric == RIP_METRIC_INF <==> routes[k].ifIdx == ifIdx || routes[k].metric == RIP_METRIC_INF) &&
      (routes[k].ifIdx != ifIdx ==> e.metric == routes[k].metric)
  {
  }

  // ----- relaxation -----

  /** `ntohl(metric) + 1` in `uint32_t` arithmetic. */
  function Succ(m: bv32): bv32 {
    m + 1
  }

  /** A route redirected through `src` on interface `ifIdx`. */
  function Redirect(r: RouteEntry, src: Ip, ifIdx: int, metric: bv32): RouteEntry {
    r.(nextHop := src, ifIdx := ifIdx, metric := metric)
  }

  /** The effect of one response record on the table (the loop body of
      `handle_udp_packet`), `src` being the datagram's source address. */
  function Relax(t: seq<RouteEntry>, e: RipEntry, src: Ip, ifIdx: int): seq<RouteEntry> {
    if e.nextHop != 0 then t
    else
      var j := FindExact(t, e.ip, e.mask);
      if j < |t| then RelaxFound(t, e, src, ifIdx, j) else RelaxNew(t, e, src, ifIdx)
  }

  /** A record's metric plus one beats the route's metric (`uint32_t`). */
  predicate Improves(e: RipEntry, r: RouteEntry) {
    Succ(e.metric) < r.metric
  }

  /** `Relax` of a record whose prefix the table holds at position `j`: a
      withdrawal removes the route if it was learnt from `src`, a better
      metric redirects it through `src`, anything else leaves it. */
  function RelaxFound(t: seq<RouteEntry>, e: RipEntry, src: Ip, ifIdx: int, j: nat): seq<RouteEntry>
    requires j < |t|
  {
    if e.metric == RIP_METRIC_INF then
      (if t[j].nextHop == src then RouteErase(t, j).0 else t)
    else if Improves(e, t[j]) then
      t[j := Redirect(t[j], src, ifIdx, Succ(e.metric))]
    else t
  }

  /** `Relax` of a record for a prefix the table does not hold. */
  function RelaxNew(t: seq<RouteEntry>, e: RipEntry, src: Ip, ifIdx: int): seq<RouteEntry> {
    if e.metric < RIP_METRIC_INF then RouteInsert(t, e.ip, e.mask, src, ifIdx, Succ(e.metric)).0
    else t
  }

  /** The records of one response applied in order. */
  function RelaxAll(t: seq<RouteEntry>, es: seq<RipEntry>, src: Ip, ifIdx: int): seq<RouteEntry> {
    if es == [] then t
    else Relax(RelaxAll(t, es[..|es| - 1], src, ifIdx), es[|es| - 1], src, ifIdx)
  }

  /** A record with a next hop changes nothing; a record for a prefix the
      table does not hold is appended with metric `m + 1` only when `m` is
      below 16 and the table has room. */
  lemma RelaxUnknownPrefix(t: seq<RouteEntry>, e: RipEntry, src: Ip, ifIdx: int)
    requires forall k :: 0 <= k < |t| ==> !(t[k].dst == e.ip && t[k].mask == e.mask)
    ensures Relax(t, e, src, ifIdx) ==
      if e.nextHop == 0 && e.metric < RIP_METRIC_INF && |t| < ROUTE_TABLE_CAPACITY
      then t + [RouteEntry(e.ip & e.mask, e.mask, src, ifIdx, Succ(e.metric))]
      else t
  {
    FindExactAbsent(t, e.ip, e.mask);
    if e.nextHop == 0 {
      if e.metric < RIP_METRIC_INF && |t| < ROUTE_TABLE_CAPACITY {
        RelaxNewInsert(t, e, src, ifIdx);
      } else {
        RelaxNewKeep(t, e, src, ifIdx);
      }
    }
  }

  /** `Relax` of a usable record for a missing prefix when the table has room. */
  lemma RelaxNewInsert(t: seq<RouteEntry>, e: RipEntry, src: Ip, ifIdx: int)
    requires e.nextHop == 0 && FindExact(t, e.ip, e.mask) == |t|
    requires e.metric < RIP_METRIC_INF && |t| < ROUTE_TABLE_CAPACITY
    ensures Relax(t, e, src, ifIdx) == t + [RouteEntry(e.ip & e.mask, e.mask, src, ifIdx, Succ(e.metric))]
  {
  }

  /** `Relax` of any other record for a missing prefix. */
  lemma RelaxNewKeep(t: seq<RouteEntry>, e: RipEntry, src: Ip, ifIdx: int)
    requires e.nextHop == 0 && FindExact(t, e.ip, e.mask) == |t|
    requires !(e.metric < RIP_METRIC_INF && |t| < ROUTE_TABLE_CAPACITY)
    ensures Relax(t, e, src, ifIdx) == t
  {
  }

  /** A withdrawal (metric 16) of a prefix whose first exact match is `j`
      erases that route only when it was learned from `src`. */
  lemma RelaxWithdraw(t: seq<RouteEntry>, e: RipEntry, src: Ip, ifIdx: int, j: nat)
    requires e.nextHop == 0 && e.metric == RIP_METRIC_INF && j < |t| && t[j].dst == e.ip && t[j].mask == e.mask
    requires forall k :: 0 <= k < j ==> !(t[k].dst == e.ip && t[k].mask == e.mask)
    ensures Relax(t, e, src, ifIdx) == if t[j].nextHop == src then t[..j] + t[j + 1..] else t
  {
    FindExactFirst(t, e.ip, e.mask, j);
    RelaxFoundWithdraw(t, e, src, ifIdx, j);
  }

  /** Any other metric `m` for a prefix whose first exact match is `j`
      redirects that route, and only that route, through `src` on the ingress
      interface with metric `m + 1` exactly when `m + 1`, in uint32
      arithmetic, is strictly smaller than its metric; otherwise nothing
      changes. */
  lemma RelaxImprove(t: seq<RouteEntry>, e: RipEntry, src: Ip, ifIdx: int, j: nat)
    requires e.nextHop == 0 && e.metric != RIP_METRIC_INF && j < |t| && t[j].dst == e.ip && t[j].mask == e.mask
    requires forall k :: 0 <= k < j ==> !(t[k].dst == e.ip && t[k].mask == e.mask)
    ensures |Relax(t, e, src, ifIdx)| == |t|
    ensures forall k :: 0 <= k < |t| && k != j ==> Relax(t, e, src, ifIdx)[k] == t[k]
    ensures Succ(e.metric) < t[j].metric ==>
      Relax(t, e, src, ifIdx)[j] == RouteEntry(e.ip, e.mask, src, ifIdx, Succ(e.metric))
    ensures !(Succ(e.metric) < t[j].metric) ==> Relax(t, e, src, ifIdx) == t
  {
    FindExactFirst(t, e.ip, e.mask, j);
    if Succ(e.metric) < t[j].metric {
      RelaxFoundImprove(t, e, src, ifIdx, j);
    } else {
      RelaxFoundKeep(t, e, src, ifIdx, j);
    }
  }

  /** `Relax` of a withdrawal once the exact match is known to be at `j`. */
  lemma RelaxFoundWithdraw(t: seq<RouteEntry>, e: RipEntry, src: Ip, ifIdx: int, j: nat)
    requires e.nextHop == 0 && e.metric == RIP_METRIC_INF && j < |t| && FindExact(t, e.ip, e.mask) == j
    ensures Relax(t, e, src, ifIdx) == if t[j].nextHop == src then t[..j] + t[j + 1..] else t
  {
  }

  /** `Relax` of a better metric once the exact match is known to be at `j`. */
  lemma RelaxFoundImprove(t: seq<RouteEntry>, e: RipEntry, src: Ip, ifIdx: int, j: nat)
    requires e.nextHop == 0 && e.metric != RIP_METRIC_INF && j < |t| && FindExact(t, e.ip, e.mask) == j
    requires Succ(e.metric) < t[j].metric
    ensures Relax(t, e, src, ifIdx) == t[j := Redirect(t[j], src, ifIdx, Succ(e.metric))]
  {
  }

  /** `Relax` of a metric that is no better once the exact match is known to
      be at `j`. */
  lemma RelaxFoundKeep(t: seq<RouteEntry>, e: RipEntry, src: Ip, ifIdx: int, j: nat)
    requires e.nextHop == 0 && e.metric != RIP_METRIC_INF && j < |t| && FindExact(t, e.ip, e.mask) == j
    requires !(Succ(e.metric) < t[j].metric)
    ensures Relax(t, e, src, ifIdx) == t
  {
  }

  /** Every route leaves through one of the `n` interfaces. */
  ghost predicate RoutesOnIfs(t: seq<RouteEntry>, n: nat) {
    forall k :: 0 <= k < |t| ==> 0 <= t[k].ifIdx < n
  }

  lemma RelaxKeepsIfs(t: seq<RouteEntry>, e: RipEntry, src: Ip, ifIdx: int, n: nat)
    requires RoutesOnIfs(t, n) && 0 <= ifIdx < n
    ensures RoutesOnIfs(Relax(t, e, src, ifIdx), n)
  {
    var j := FindExact(t, e.ip, e.mask);
    if e.nextHop == 0 && j < |t| && e.metric == RIP_METRIC_INF && t[j].nextHop == src {
      var t' := RouteErase(t, j).0;
      assert forall k :: 0 <= k < |t'| ==> t'[k] == (if k < j then t[k] else t[k + 1]);
    }
  }

  /** A response only ever directs routes to the ingress interface, so the
      table keeps pointing at existing interfaces. */
  lemma {:induction false} RelaxAllKeepsIfs(t: seq<RouteEntry>, es: seq<RipEntry>, src: Ip, ifIdx: int, n: nat)
    requires RoutesOnIfs(t, n) && 0 <= ifIdx < n
    ensures RoutesOnIfs(RelaxAll(t, es, src, ifIdx), n)
  {
    if es != [] {
      RelaxAllKeepsIfs(t, es[..|es| - 1], src, ifIdx, n);
      RelaxKeepsIfs(RelaxAll(t, es[..|es| - 1], src, ifIdx), es[|es| - 1], src, ifIdx, n);
    }
  }

  /** The metric is a `uint32_t`: a record with metric 2^32-1 for a known
      prefix becomes `m + 1 == 0`, which is below any positive metric, so the
      route is redirected with metric 0. */
  lemma RelaxMetricWraps(t: seq<RouteEntry>, e: RipEntry, src: Ip, ifIdx: int)
    requires e.nextHop == 0 && e.metric == 0xffff_ffff
    requires FindExact(t, e.ip, e.mask) < |t| && t[FindExact(t, e.ip, e.mask)].metric != 0
    ensures var j := FindExact(t, e.ip, e.mask);
      Relax(t, e, src, ifIdx) == t[j := Redirect(t[j], src, ifIdx, 0)]
  {
  }

  /** The exact match compares the received address as sent, while the
      stored destination is masked, so a record whose address has host bits
      set is never found again: every copy of it appends another route. */
  lemma RelaxHostBitsAppendAgain(t: seq<RouteEntry>, e: RipEntry, src: Ip, ifIdx: int)
    requires e.nextHop == 0 && e.metric < RIP_METRIC_INF && e.ip & e.mask != e.ip
    requires forall k :: 0 <= k < |t| ==> !(t[k].dst == e.ip && t[k].mask == e.mask)
    requires |t| + 2 <= ROUTE_TABLE_CAPACITY
    ensures |Relax(Relax(t, e, src, ifIdx), e, src, ifIdx)| == |t| + 2
  {
    RelaxUnknownPrefix(t, e, src, ifIdx);
    var t1 := Relax(t, e, src, ifIdx);
    assert forall k :: 0 <= k < |t1| ==> !(t1[k].dst == e.ip && t1[k].mask == e.mask) by {
      assert forall k :: 0 <= k < |t| ==> t1[k] == t[k];
      assert t1[|t|].dst == e.ip & e.mask;
    }
    RelaxUnknownPrefix(t1, e, src, ifIdx);
  }
}