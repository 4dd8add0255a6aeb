/** The router of router.c: the route table, the link layer and the packet
    buffer of one process, `router_init`, the RIP sender and receiver, and
    the per-datagram body of `run_router`.

    What one received datagram does is stated on values by `IpStep` (the
    checks of router.c:364-375, then the destination classification of
    router.c:377-434); `Router.HandleIp` performs it in place and is proved
    equal to it, and the lemmas below say what `IpStep` promises. */
module Router {
  import opened Net
  import opened Checksum
  import opened EtherLayer
  import opened RouteTable
  import opened RipPacket
  import opened Rip
  import opened IpPath

  /** Values of the `uint64_t` millisecond clock. */
  const CLOCK_MODULUS: nat := 0x1_0000_0000_0000_0000

  // ----- start-up -----

  /** The directly connected routes `router_init` inserts, one per interface
      in order: (if_ips[i] & if_masks[i], if_masks[i], next hop 0, i, metric 1). */
  function ConnectedRoutes(ifs: seq<Iface>): (t: seq<RouteEntry>)
    ensures |t| == |ifs|
  {
    seq(|ifs|, k requires 0 <= k < |ifs| => ConnectedRoute(ifs[k], k))
  }

  /** The route `router_init` inserts for interface `k`. */
  function ConnectedRoute(f: Iface, k: nat): RouteEntry {
    RouteEntry(f.ip & f.mask, f.mask, 0, k, 1)
  }

  /** `ip` lies in the subnet of interface `f`. */
  predicate InSubnet(ip: Ip, f: Iface) {
    ip & f.mask == f.ip & f.mask
  }

  /** Connected route k matches the addresses of interface k's subnet ... */
  lemma ConnectedRouteMatches(ifs: seq<Iface>, k: nat, ip: Ip)
    requires k < |ifs| && InSubnet(ip, ifs[k])
    ensures Matches(ConnectedRoutes(ifs)[k], ip)
  {
    assert ConnectedRoutes(ifs)[k] == ConnectedRoute(ifs[k], k);
  }

  /** ... and only those. */
  lemma ConnectedRouteMatchesOnly(ifs: seq<Iface>, k: nat, ip: Ip)
    requires k < |ifs| && Matches(ConnectedRoutes(ifs)[k], ip)
    ensures InSubnet(ip, ifs[k])
  {
    assert ConnectedRoutes(ifs)[k] == ConnectedRoute(ifs[k], k);
  }

  /** Every connected route leaves through its own interface. */
  lemma ConnectedRoutesOnIfs(ifs: seq<Iface>)
    ensures RoutesOnIfs(ConnectedRoutes(ifs), |ifs|)
  {
    var t := ConnectedRoutes(ifs);
    forall k | 0 <= k < |t|
      ensures 0 <= t[k].ifIdx < |ifs|
    {
      assert t[k] == ConnectedRoute(ifs[k], k);
    }
  }

  /** After start-up every address of an interface's subnet has a route, and
      the one chosen is directly connected, through an interface whose
      subnet holds the address, and at least as specific as that subnet. */
  lemma ConnectedRoutesReach(ifs: seq<Iface>, i: nat, ip: Ip)
    requires i < |ifs| && InSubnet(ip, ifs[i])
    ensures Best(ConnectedRoutes(ifs), ip).Some?
    ensures var t, j := ConnectedRoutes(ifs), Best(ConnectedRoutes(ifs), ip).value;
      t[j].nextHop == 0 && t[j].ifIdx == j && InSubnet(ip, ifs[j]) &&
      PopCount(ifs[j].mask) >= PopCount(ifs[i].mask)
  {
    var t := ConnectedRoutes(ifs);
    BestIsFirstLongest(t, ip);
    ConnectedRouteMatches(ifs, i, ip);
    var j := Best(t, ip).value;
    ConnectedRouteMatchesOnly(ifs, j, ip);
    assert t[i].mask == ifs[i].mask && t[j].mask == ifs[j].mask;
  }

  // ----- the timer -----

  /** The timer test of router.c:346-347: the time since the last firing,
      taken on `uint64_t` readings so that the difference wraps modulo 2^64,
      is at least 5000 ms. */
  predicate TimerDue(now: nat, last: nat) {
    (now - last) % CLOCK_MODULUS >= RIP_UPDATE_TIME
  }

  /** On a clock that has not gone backwards the timer fires exactly when
      5000 ms have passed; a reading below the last one wraps and fires as
      long as it is not within 2^64 - 5000 of that last reading. */
  lemma TimerDueIff(now: nat, last: nat)
    requires now < CLOCK_MODULUS && last < CLOCK_MODULUS
    ensures now >= last ==> (TimerDue(now, last) <==> now - last >= RIP_UPDATE_TIME)
    ensures now < last ==> (TimerDue(now, last) <==> last - now <= CLOCK_MODULUS - RIP_UPDATE_TIME)
  {
    if now < last {
      assert (now - last) % CLOCK_MODULUS == CLOCK_MODULUS - (last - now);
    }
  }

  /** The frames of one timer firing: `send_rip_response(i)` for every
      interface i below `n`, in order; `ids(i)` numbers the datagrams of the
      i-th call. */
  function Advertisements(ifs: seq<Iface>, ripMac: Mac, routes: seq<RouteEntry>, n: nat, ids: nat -> nat -> bv16): seq<Transmit>
    requires n <= |ifs|
  {
    if n == 0 then [] else Advertisements(ifs, ripMac, routes, n - 1, ids) + RipResponses(ifs, ripMac, routes, n - 1, ids(n - 1))
  }

  /** ceil(|routes|/25): the number of responses `send_rip_response` sends. */
  function ResponseCount(routes: seq<RouteEntry>): nat {
    (|routes| + RIP_MAX_ENTRIES - 1) / RIP_MAX_ENTRIES
  }

  /** A timer firing sends ceil(|routes|/25) responses on each interface. */
  lemma AdvertisementsCount(ifs: seq<Iface>, ripMac: Mac, routes: seq<RouteEntry>, n: nat, ids: nat -> nat -> bv16)
    requires n <= |ifs|
    ensures |Advertisements(ifs, ripMac, routes, n, ids)| == n * ResponseCount(routes)
  {
    AdvertisementsCountBy(ifs, ripMac, routes, n, ids, ResponseCount(routes));
  }

  lemma {:induction false} AdvertisementsCountBy(ifs: seq<Iface>, ripMac: Mac, routes: seq<RouteEntry>, n: nat, ids: nat -> nat -> bv16, c: nat)
    requires n <= |ifs| && c == ResponseCount(routes)
    ensures |Advertisements(ifs, ripMac, routes, n, ids)| == n * c
  {
    if n > 0 {
      AdvertisementsCountBy(ifs, ripMac, routes, n - 1, ids, c);
      RipResponsesCount(ifs, ripMac, routes, n - 1, ids(n - 1));
      assert n * c == (n - 1) * c + c;
    }
  }

  /** Every frame of a timer firing leaves on one of the `n` interfaces. */
  lemma {:induction false} AdvertisementsOnIfaces(ifs: seq<Iface>, ripMac: Mac, routes: seq<RouteEntry>, n: nat, ids: nat -> nat -> bv16)
    requires n <= |ifs|
    ensures forall k :: 0 <= k < |Advertisements(ifs, ripMac, routes, n, ids)| ==>
      Advertisements(ifs, ripMac, routes, n, ids)[k].ifIdx < n
  {
    if n > 0 {
      AdvertisementsOnIfaces(ifs, ripMac, routes, n - 1, ids);
      RipResponsesOnIface(ifs, ripMac, routes, n - 1, ids(n - 1));
      var a: seq<Transmit> := Advertisements(ifs, ripMac, routes, n - 1, ids);
      var b: seq<Transmit> := RipResponses(ifs, ripMac, routes, n - 1, ids(n - 1));
      forall k: nat | k < |a + b|
        ensures (a + b)[k].ifIdx < n
      {
        if k < |a| {
          assert (a + b)[k] == a[k];
        } else {
          assert (a + b)[k] == b[k - |a|];
        }
      }
    }
  }

  /** The state of `send_rip_response` after scanning `i` routes, `sent0`
      and `sent` being the log before the call and now: the records `start`
      to `i - 1` of the advertisement `es` wait in `batch`; the `k` loads
      before them, all full, have gone out, and once the scan is over
      nothing waits. */
  ghost predicate Sending(ifs: seq<Iface>, ripMac: Mac, ifIdx: nat, ids: nat -> bv16, es: seq<RipEntry>,
                          sent0: seq<Transmit>, sent: seq<Transmit>, i: nat, start: nat, k: nat, batch: seq<RipEntry>)
    requires ifIdx < |ifs|
  {
    start <= i <= |es| && i - start < RIP_MAX_ENTRIES &&
    (start == RIP_MAX_ENTRIES * k || start == |es|) &&
    batch == es[start..i] && (i == |es| ==> start == i) &&
    k == |Chunks(es[..start])| &&
    sent == sent0 + ResponseFrames(ifs, ripMac, ifIdx, ids, Chunks(es[..start]))
  }

  /** Record `i` joins the batch, which stays below 25 records. */
  lemma SendingAdd(ifs: seq<Iface>, ripMac: Mac, ifIdx: nat, ids: nat -> bv16, es: seq<RipEntry>,
                   sent0: seq<Transmit>, sent: seq<Transmit>, i: nat, start: nat, k: nat, batch: seq<RipEntry>, e: RipEntry)
    requires ifIdx < |ifs| && Sending(ifs, ripMac, ifIdx, ids, es, sent0, sent, i, start, k, batch)
    requires i < |es| - 1 && e == es[i] && |batch| + 1 < RIP_MAX_ENTRIES
    ensures Sending(ifs, ripMac, ifIdx, ids, es, sent0, sent, i + 1, start, k, batch + [e])
  {
    assert es[start..i + 1] == es[start..i] + [es[i]];
  }

  /** Record `i` fills the batch or is the last one: the batch goes out as
      response `k`. */
  lemma SendingFlush(ifs: seq<Iface>, ripMac: Mac, ifIdx: nat, ids: nat -> bv16, es: seq<RipEntry>,
                     sent0: seq<Transmit>, sent: seq<Transmit>, i: nat, start: nat, k: nat, batch: seq<RipEntry>, e: RipEntry)
    requires ifIdx < |ifs| && Sending(ifs, ripMac, ifIdx, ids, es, sent0, sent, i, start, k, batch)
    requires i < |es| && e == es[i] && (|batch| + 1 == RIP_MAX_ENTRIES || i == |es| - 1)
    ensures |batch + [e]| <= RIP_MAX_ENTRIES
    ensures Sending(ifs, ripMac, ifIdx, ids, es, sent0, sent + [RipResponse(ifs, ripMac, ifIdx, ids(k), batch + [e])], i + 1, i + 1, k + 1, [])
  {
    var b := batch + [e];
    assert b == es[start..i + 1];
    var cs := Chunks(es[..start]);
    assert Chunks(es[..i + 1]) == cs + [b] by {
      ChunksSnoc(es, k, start, i + 1);
    }
    var done := ResponseFrames(ifs, ripMac, ifIdx, ids, cs);
    var r := RipResponse(ifs, ripMac, ifIdx, ids(k), b);
    assert ResponseFrames(ifs, ripMac, ifIdx, ids, cs + [b]) == done + [r] by {
      ResponseFramesSnoc(ifs, ripMac, ifIdx, ids, cs, b);
    }
    assert sent + [r] == sent0 + (done + [r]) by {
      AppendAssoc(sent0, done, [r]);
    }
  }

  // ----- what one received datagram does, on values -----

  /** The tests of router.c:364-368: at least a bare IP header, a total
      length field equal to the received length (as `htons` truncates it),
      and a header no longer than the datagram. */
  predicate WellFormed(p: seq<byte>, ipLen: nat)
    requires |p| == BUFSIZ
  {
    ipLen >= IP_HDR_LEN && GetBe16(p, 2) == Htons(ipLen) && HeaderLen(p) <= ipLen
  }

  /** The new route table, the new buffer contents and the frames sent. */
  datatype Effect = Effect(routes: seq<RouteEntry>, buf: seq<byte>, out: seq<Transmit>)

  /** `handle_udp_packet`, `src` being the datagram's source address. */
  function RipStep(ifs: seq<Iface>, routes: seq<RouteEntry>, ripMac: Mac, p: seq<byte>, ipLen: nat, ifIdx: nat, ids: nat -> bv16): Effect
    requires |p| == BUFSIZ && HeaderLen(p) <= ipLen <= |p| && ifIdx < |ifs|
  {
    match ClassifyRip(p, ipLen)
      case Ignore => Effect(routes, p, [])
      case SendTable => Effect(routes, p, RipResponses(ifs, ripMac, routes, ifIdx, ids))
      case Update(es) => Effect(RelaxAll(routes, es, GetBe32(p, 12), ifIdx), p, [])
  }

  /** The address `ip_forward` resolves: the route's next hop, or the
      destination itself on a directly connected route. */
  function NextHop(r: RouteEntry, dst: Ip): Ip {
    if r.nextHop == 0 then dst else r.nextHop
  }

  /** `ip_forward` along route `r`: when the next hop resolves, the datagram
      leaves on the route's interface with its TTL decremented and a fresh
      checksum; otherwise only the ARP request goes out. */
  function ForwardStep(ifs: seq<Iface>, arps: seq<ArpEntry>, routes: seq<RouteEntry>, r: RouteEntry, p: seq<byte>, ipLen: nat): Effect
    requires |p| == BUFSIZ && ipLen <= |p| && 0 <= r.ifIdx < |ifs|
  {
    match Resolve(ifs, arps, NextHop(r, GetBe32(p, 16)), r.ifIdx)
      case Resolved(m) => var b := Forwarded(p); Effect(routes, b, [IpFrame(ifs, r.ifIdx, m, b[..ipLen])])
      case Pending(req) => Effect(routes, p, [req])
  }

  /** `send_icmp_msg` back to `srcMac` on the ingress interface. */
  function BounceStep(ifs: seq<Iface>, routes: seq<RouteEntry>, p: seq<byte>, ipLen: nat, ifIdx: nat,
                      icmpType: byte, code: byte, srcMac: Mac): Effect
    requires |p| == BUFSIZ && ifIdx < |ifs|
  {
    if ipLen >= HeaderLen(p) + ICMP_HDR_LEN then
      var b := IcmpErrorBuf(p, ifs[ifIdx].ip, icmpType, code);
      Effect(routes, b, [IpFrame(ifs, ifIdx, srcMac, b[..IcmpErrorLen(p)])])
    else Effect(routes, p, [])
  }

  /** The echo path of `run_router`: the reply is built in the buffer and
      goes back to `srcMac` on the ingress interface. */
  function EchoStep(ifs: seq<Iface>, routes: seq<RouteEntry>, p: seq<byte>, ipLen: nat, ifIdx: nat, srcMac: Mac): Effect
    requires |p| == BUFSIZ && HeaderLen(p) <= ipLen < BUFSIZ && ifIdx < |ifs|
  {
    var b := EchoReplyBuf(p, ipLen);
    Effect(routes, b, [IpFrame(ifs, ifIdx, srcMac, b[..ipLen])])
  }

  /** A datagram for a local address that is not UDP: an echo request is
      answered, anything else is dropped untouched. */
  function LocalIcmpStep(ifs: seq<Iface>, routes: seq<RouteEntry>, p: seq<byte>, ipLen: nat, ifIdx: nat, srcMac: Mac): Effect
    requires |p| == BUFSIZ && HeaderLen(p) <= ipLen < BUFSIZ && ifIdx < |ifs|
  {
    if p[9] == IPPROTO_ICMP && p[HeaderLen(p)] == ICMP_ECHO then EchoStep(ifs, routes, p, ipLen, ifIdx, srcMac)
    else Effect(routes, p, [])
  }

  /** A datagram addressed to a multicast group (router.c:384-392): only
      UDP for 224.0.0.9 goes anywhere (to RIP); anything else is dropped
      untouched. */
  function MulticastStep(ifs: seq<Iface>, routes: seq<RouteEntry>, ripMac: Mac, p: seq<byte>, ipLen: nat, ifIdx: nat,
                         ids: nat -> bv16): Effect
    requires |p| == BUFSIZ && HeaderLen(p) <= ipLen <= |p| && ifIdx < |ifs|
  {
    if GetBe32(p, 16) == RIP_MULTICAST_IP && p[9] == IPPROTO_UDP then RipStep(ifs, routes, ripMac, p, ipLen, ifIdx, ids)
    else Effect(routes, p, [])
  }

  /** A datagram for one of the router's own addresses (router.c:393-417):
      UDP goes to RIP, the rest to the echo path. */
  function LocalStep(ifs: seq<Iface>, routes: seq<RouteEntry>, ripMac: Mac, p: seq<byte>, ipLen: nat, ifIdx: nat,
                     srcMac: Mac, ids: nat -> bv16): Effect
    requires |p| == BUFSIZ && HeaderLen(p) <= ipLen < BUFSIZ && ifIdx < |ifs|
  {
    if p[9] == IPPROTO_UDP then RipStep(ifs, routes, ripMac, p, ipLen, ifIdx, ids)
    else LocalIcmpStep(ifs, routes, p, ipLen, ifIdx, srcMac)
  }

  /** A datagram in transit (router.c:418-434): without a route it bounces
      as "network unreachable", with a TTL of at most 1 as "TTL exceeded in
      transit", and otherwise it is forwarded along the route `get_route`
      chooses.  Transit never changes the route table. */
  function TransitStep(ifs: seq<Iface>, arps: seq<ArpEntry>, routes: seq<RouteEntry>, p: seq<byte>, ipLen: nat, ifIdx: nat,
                       srcMac: Mac): (e: Effect)
    requires |p| == BUFSIZ && ipLen <= |p| && ifIdx < |ifs| && RoutesOnIfs(routes, |ifs|)
    ensures e.routes == routes
  {
    match Best(routes, GetBe32(p, 16))
      case Some(j) =>
        if p[8] > 1 then ForwardStep(ifs, arps, routes, routes[j], p, ipLen)
        else BounceStep(ifs, routes, p, ipLen, ifIdx, ICMP_TIME_EXCEEDED, ICMP_EXC_TTL, srcMac)
      case None => BounceStep(ifs, routes, p, ipLen, ifIdx, ICMP_DEST_UNREACH, ICMP_NET_UNREACH, srcMac)
  }

  /** The destination tests of router.c:377-434 on a datagram that passed
      the checks: multicast first, then a local address, then the route
      table. */
  function DeliverStep(ifs: seq<Iface>, arps: seq<ArpEntry>, routes: seq<RouteEntry>, ripMac: Mac, p: seq<byte>,
                       ipLen: nat, ifIdx: nat, srcMac: Mac, ids: nat -> bv16): Effect
    requires |p| == BUFSIZ && ETHER_HDR_LEN + ipLen <= BUFSIZ && HeaderLen(p) <= ipLen && ifIdx < |ifs|
    requires RoutesOnIfs(routes, |ifs|)
  {
    var dst := GetBe32(p, 16);
    if IsMulticastIp(dst) then MulticastStep(ifs, routes, ripMac, p, ipLen, ifIdx, ids)
    else if LocalIfIndex(ifs, dst) < |ifs| then LocalStep(ifs, routes, ripMac, p, ipLen, ifIdx, srcMac, ids)
    else TransitStep(ifs, arps, routes, p, ipLen, ifIdx, srcMac)
  }

  /** The body of `run_router` for a datagram of `ipLen` bytes in buffer `p`
      that arrived on `ifIdx` from `srcMac`, with ARP cache `arps` and route
      table `routes`: a datagram failing the checks of router.c:364-375 is
      dropped, and a failed checksum test leaves the recomputed check field
      in the buffer. */
  function IpStep(ifs: seq<Iface>, arps: seq<ArpEntry>, routes: seq<RouteEntry>, ripMac: Mac, p: seq<byte>,
                  ipLen: nat, ifIdx: nat, srcMac: Mac, ids: nat -> bv16): Effect
    requires |p| == BUFSIZ && ETHER_HDR_LEN + ipLen <= BUFSIZ && ifIdx < |ifs| && RoutesOnIfs(routes, |ifs|)
  {
    if !WellFormed(p, ipLen) then Effect(routes, p, [])
    else if !IpChecksumOk(p) then Effect(routes, WithIpChecksum(p), [])
    else DeliverStep(ifs, arps, routes, ripMac, p, ipLen, ifIdx, srcMac, ids)
  }

  // ----- what one datagram does, for every datagram -----

  /** RIP changes the route table only on a response, and then only
      towards the ingress interface, so the table keeps leading out of
      existing interfaces. */
  lemma RipStepRoutes(ifs: seq<Iface>, routes: seq<RouteEntry>, ripMac: Mac, p: seq<byte>, ipLen: nat, ifIdx: nat, ids: nat -> bv16)
    requires |p| == BUFSIZ && HeaderLen(p) <= ipLen <= |p| && ifIdx < |ifs| && RoutesOnIfs(routes, |ifs|)
    ensures RoutesOnIfs(RipStep(ifs, routes, ripMac, p, ipLen, ifIdx, ids).routes, |ifs|)
    ensures RipStep(ifs, routes, ripMac, p, ipLen, ifIdx, ids).routes != routes ==> ClassifyRip(p, ipLen).Update?
  {
    if ClassifyRip(p, ipLen).Update? {
      RelaxAllKeepsIfs(routes, ClassifyRip(p, ipLen).entries, GetBe32(p, 12), ifIdx, |ifs|);
    }
  }

  /** Everything RIP sends goes out on the ingress interface. */
  lemma RipStepOnIface(ifs: seq<Iface>, routes: seq<RouteEntry>, ripMac: Mac, p: seq<byte>, ipLen: nat, ifIdx: nat, ids: nat -> bv16)
    requires |p| == BUFSIZ && HeaderLen(p) <= ipLen <= |p| && ifIdx < |ifs|
    ensures var out := RipStep(ifs, routes, ripMac, p, ipLen, ifIdx, ids).out;
      forall k :: 0 <= k < |out| ==> out[k].ifIdx == ifIdx
  {
    if ClassifyRip(p, ipLen).SendTable? {
      RipResponsesOnIface(ifs, ripMac, routes, ifIdx, ids);
    }
  }

  /** A forwarded datagram, or the ARP request for its next hop, leaves on
      the chosen route's interface; an ICMP error goes back on the ingress
      interface. */
  lemma TransitStepOnIfaces(ifs: seq<Iface>, arps: seq<ArpEntry>, routes: seq<RouteEntry>, p: seq<byte>, ipLen: nat,
                            ifIdx: nat, srcMac: Mac)
    requires |p| == BUFSIZ && ipLen <= |p| && ifIdx < |ifs| && RoutesOnIfs(routes, |ifs|)
    ensures var out, r := TransitStep(ifs, arps, routes, p, ipLen, ifIdx, srcMac).out, Best(routes, GetBe32(p, 16));
      forall k :: 0 <= k < |out| ==> out[k].ifIdx == (if r.Some? && p[8] > 1 then routes[r.value].ifIdx else ifIdx)
  {
  }

  /** A datagram that fails the checks sends nothing and leaves the route
      table alone. */
  lemma IpStepRejects(ifs: seq<Iface>, arps: seq<ArpEntry>, routes: seq<RouteEntry>, ripMac: Mac, p: seq<byte>,
                      ipLen: nat, ifIdx: nat, srcMac: Mac, ids: nat -> bv16)
    requires |p| == BUFSIZ && ETHER_HDR_LEN + ipLen <= BUFSIZ && ifIdx < |ifs| && RoutesOnIfs(routes, |ifs|)
    requires !WellFormed(p, ipLen) || !IpChecksumOk(p)
    ensures var e := IpStep(ifs, arps, routes, ripMac, p, ipLen, ifIdx, srcMac, ids);
      e.routes == routes && e.out == []
  {
  }

  /** A local destination changes the route table only by a RIP response
      over UDP. */
  lemma LocalStepRoutes(ifs: seq<Iface>, routes: seq<RouteEntry>, ripMac: Mac, p: seq<byte>, ipLen: nat, ifIdx: nat,
                        srcMac: Mac, ids: nat -> bv16)
    requires |p| == BUFSIZ && HeaderLen(p) <= ipLen < BUFSIZ && ifIdx < |ifs| && RoutesOnIfs(routes, |ifs|)
    ensures var t := LocalStep(ifs, routes, ripMac, p, ipLen, ifIdx, srcMac, ids).routes;
      RoutesOnIfs(t, |ifs|) && (t != routes ==> p[9] == IPPROTO_UDP && ClassifyRip(p, ipLen).Update?)
  {
    if p[9] == IPPROTO_UDP {
      RipStepRoutes(ifs, routes, ripMac, p, ipLen, ifIdx, ids);
    }
  }

  /** A multicast destination changes the route table only by a RIP
      response over UDP to 224.0.0.9. */
  lemma MulticastStepRoutes(ifs: seq<Iface>, routes: seq<RouteEntry>, ripMac: Mac, p: seq<byte>, ipLen: nat, ifIdx: nat,
                            ids: nat -> bv16)
    requires |p| == BUFSIZ && HeaderLen(p) <= ipLen <= |p| && ifIdx < |ifs| && RoutesOnIfs(routes, |ifs|)
    ensures var t := MulticastStep(ifs, routes, ripMac, p, ipLen, ifIdx, ids).routes;
      RoutesOnIfs(t, |ifs|) &&
      (t != routes ==> GetBe32(p, 16) == RIP_MULTICAST_IP && p[9] == IPPROTO_UDP && ClassifyRip(p, ipLen).Update?)
  {
    if GetBe32(p, 16) == RIP_MULTICAST_IP && p[9] == IPPROTO_UDP {
      RipStepRoutes(ifs, routes, ripMac, p, ipLen, ifIdx, ids);
    }
  }

  /** Only a checked RIP response over UDP, to the RIP group or to a local
      address, changes the route table, and the table keeps leading out of
      existing interfaces. */
  lemma IpStepRoutes(ifs: seq<Iface>, arps: seq<ArpEntry>, routes: seq<RouteEntry>, ripMac: Mac, p: seq<byte>,
                     ipLen: nat, ifIdx: nat, srcMac: Mac, ids: nat -> bv16)
    requires |p| == BUFSIZ && ETHER_HDR_LEN + ipLen <= BUFSIZ && ifIdx < |ifs| && RoutesOnIfs(routes, |ifs|)
    ensures var t := IpStep(ifs, arps, routes, ripMac, p, ipLen, ifIdx, srcMac, ids).routes;
      RoutesOnIfs(t, |ifs|) &&
      (t != routes ==>
        WellFormed(p, ipLen) && IpChecksumOk(p) && p[9] == IPPROTO_UDP && ClassifyRip(p, ipLen).Update? &&
        (GetBe32(p, 16) == RIP_MULTICAST_IP || LocalIfIndex(ifs, GetBe32(p, 16)) < |ifs|))
  {
    if WellFormed(p, ipLen) && IpChecksumOk(p) {
      var dst := GetBe32(p, 16);
      if IsMulticastIp(dst) {
        MulticastStepRoutes(ifs, routes, ripMac, p, ipLen, ifIdx, ids);
      } else if LocalIfIndex(ifs, dst) < |ifs| {
        LocalStepRoutes(ifs, routes, ripMac, p, ipLen, ifIdx, srcMac, ids);
      }
    }
  }

  /** Everything a local destination causes goes out on the ingress
      interface. */
  lemma LocalStepOnIface(ifs: seq<Iface>, routes: seq<RouteEntry>, ripMac: Mac, p: seq<byte>, ipLen: nat, ifIdx: nat,
                         srcMac: Mac, ids: nat -> bv16)
    requires |p| == BUFSIZ && HeaderLen(p) <= ipLen < BUFSIZ && ifIdx < |ifs|
    ensures var out := LocalStep(ifs, routes, ripMac, p, ipLen, ifIdx, srcMac, ids).out;
      forall k :: 0 <= k < |out| ==> out[k].ifIdx == ifIdx
  {
    if p[9] == IPPROTO_UDP {
      RipStepOnIface(ifs, routes, ripMac, p, ipLen, ifIdx, ids);
    }
  }

  /** Every frame a datagram causes leaves on an existing interface: the
      ingress one for RIP, echo replies and ICMP errors, the chosen route's
      one for a forwarded datagram or its ARP request. */
  lemma IpStepOnIfaces(ifs: seq<Iface>, arps: seq<ArpEntry>, routes: seq<RouteEntry>, ripMac: Mac, p: seq<byte>,
                       ipLen: nat, ifIdx: nat, srcMac: Mac, ids: nat -> bv16)
    requires |p| == BUFSIZ && ETHER_HDR_LEN + ipLen <= BUFSIZ && ifIdx < |ifs| && RoutesOnIfs(routes, |ifs|)
    ensures var out := IpStep(ifs, arps, routes, ripMac, p, ipLen, ifIdx, srcMac, ids).out;
      forall k :: 0 <= k < |out| ==> out[k].ifIdx < |ifs|
  {
    if WellFormed(p, ipLen) && IpChecksumOk(p) {
      var dst := GetBe32(p, 16);
      if IsMulticastIp(dst) {
        if dst == RIP_MULTICAST_IP && p[9] == IPPROTO_UDP {
          RipStepOnIface(ifs, routes, ripMac, p, ipLen, ifIdx, ids);
        }
      } else if LocalIfIndex(ifs, dst) < |ifs| {
        LocalStepOnIface(ifs, routes, ripMac, p, ipLen, ifIdx, srcMac, ids);
      } else {
        TransitStepOnIfaces(ifs, arps, routes, p, ipLen, ifIdx, srcMac);
      }
    }
  }

  /** `ip_forward` along route `r`: when the next hop (the destination
      itself on a connected route) is in the ARP cache of the route's
      interface, exactly one frame goes out there, to that MAC, holding the
      datagram with its TTL one less, a checksum that passes the validation
      and every other byte as received; otherwise only the ARP request for
      the next hop goes out and the buffer is untouched. */
  lemma ForwardStepFrame(ifs: seq<Iface>, arps: seq<ArpEntry>, routes: seq<RouteEntry>, r: RouteEntry, p: seq<byte>, ipLen: nat)
    requires |p| == BUFSIZ && ipLen <= |p| && 0 <= r.ifIdx < |ifs|
    ensures var e, hop := ForwardStep(ifs, arps, routes, r, p, ipLen), NextHop(r, GetBe32(p, 16));
      e.routes == routes &&
      match Resolve(ifs, arps, hop, r.ifIdx)
        case Resolved(m) =>
          e.out == [IpFrame(ifs, r.ifIdx, m, e.buf[..ipLen])] &&
          e.buf[8] == p[8] - 1 && IpChecksumOk(e.buf) &&
          forall k :: 0 <= k < |p| && k != 8 && k != 10 && k != 11 ==> e.buf[k] == p[k]
        case Pending(_) => e.out == [ArpRequestFrame(ifs, r.ifIdx, hop)] && e.buf == p
  {
    ForwardedFields(p);
  }

  /** `send_icmp_msg` for a header of at least 20 bytes: when the datagram
      is shorter than its header plus 8 bytes nothing is sent; otherwise one
      ICMP error of the given type and code goes back on the ingress
      interface to `srcMac`, from the interface's address to the datagram's
      source, with TTL 64, both checksums valid, and quoting the datagram's
      header and first 8 payload bytes. */
  lemma BounceStepFrame(ifs: seq<Iface>, routes: seq<RouteEntry>, p: seq<byte>, ipLen: nat, ifIdx: nat,
                        icmpType: byte, code: byte, srcMac: Mac)
    requires |p| == BUFSIZ && ifIdx < |ifs| && HeaderLen(p) >= 20
    ensures var e, hl := BounceStep(ifs, routes, p, ipLen, ifIdx, icmpType, code, srcMac), HeaderLen(p);
      e.routes == routes &&
      (ipLen < hl + ICMP_HDR_LEN ==> e.out == [] && e.buf == p) &&
      (ipLen >= hl + ICMP_HDR_LEN ==>
        e.out == [IpFrame(ifs, ifIdx, srcMac, e.buf[..IcmpErrorLen(p)])] &&
        e.buf[hl] == icmpType && e.buf[hl + 1] == code &&
        GetBe32(e.buf, 12) == ifs[ifIdx].ip && GetBe32(e.buf, 16) == GetBe32(p, 12) &&
        e.buf[8] == IP_DEFAULT_TTL && IpChecksumOk(e.buf) && IcmpChecksumOk(e.buf, hl, hl + 16) &&
        e.buf[hl + 8 .. IcmpErrorLen(p)] == p[..hl + 8])
  {
    IcmpErrorIpHeader(p, ifs[ifIdx].ip, icmpType, code);
    IcmpErrorIcmpPart(p, ifs[ifIdx].ip, icmpType, code);
  }

  /** The echo reply, for a header of at least 20 bytes: one frame goes
      back on the ingress interface to `srcMac`, with the addresses swapped,
      TTL 64 and a valid header checksum ... */
  lemma EchoStepFrame(ifs: seq<Iface>, routes: seq<RouteEntry>, p: seq<byte>, ipLen: nat, ifIdx: nat, srcMac: Mac)
    requires |p| == BUFSIZ && 20 <= HeaderLen(p) <= ipLen < BUFSIZ && ifIdx < |ifs|
    ensures var e := EchoStep(ifs, routes, p, ipLen, ifIdx, srcMac);
      e.routes == routes && e.out == [IpFrame(ifs, ifIdx, srcMac, e.buf[..ipLen])] &&
      GetBe32(e.buf, 12) == GetBe32(p, 16) && GetBe32(e.buf, 16) == GetBe32(p, 12) &&
      e.buf[8] == IP_DEFAULT_TTL && IpChecksumOk(e.buf)
  {
    EchoReplyIpHeader(p, ipLen);
  }

  /** ... and an ICMP message of type 0 whose identifier, sequence number
      and data are those of the request, with a valid ICMP checksum. */
  lemma EchoStepMessage(ifs: seq<Iface>, routes: seq<RouteEntry>, p: seq<byte>, ipLen: nat, ifIdx: nat, srcMac: Mac)
    requires |p| == BUFSIZ && 20 <= HeaderLen(p) && HeaderLen(p) + 4 <= ipLen < BUFSIZ && ifIdx < |ifs|
    ensures var b, hl := EchoStep(ifs, routes, p, ipLen, ifIdx, srcMac).buf, HeaderLen(p);
      b[hl] == ICMP_ECHOREPLY && b[hl + 1] == p[hl + 1] &&
      b[hl + 4 .. ipLen] == p[hl + 4 .. ipLen] && IcmpChecksumOk(b, hl, ipLen - hl)
  {
    EchoReplyIcmpPart(p, ipLen);
  }

  // ----- the router object -----

  class Router {
    /** `if_*`, the ARP cache and the frames sent (ether_layer.c). */
    const link: Link
    /** `route_table`. */
    const table: Table
    /** The `ip_packet[BUFSIZ]` receive buffer of `run_router`. */
    const buf: array<byte>
    /** `RIP_MULTICAST_MAC`. */
    var ripMac: Mac
    /** `last_timer_fire`. */
    var lastFire: nat

    ghost predicate Valid()
      reads this`lastFire, link`arpSize, table`size, table.entries
    {
      link.Valid() && table.Valid() && buf.Length == BUFSIZ && lastFire < CLOCK_MODULUS &&
      RoutesOnIfs(table.Routes(), |link.ifs|)
    }

    /** The router's globals before `router_init`, over a link layer that
        `ether_init` has set up. */
    constructor (link: Link)
      requires link.Valid()
      ensures Valid() && this.link == link && table.Routes() == [] && lastFire == 0
      ensures fresh(table) && fresh(table.entries) && fresh(buf)
    {
      this.link := link;
      table := new Table();
      buf := new byte[BUFSIZ];
      ripMac := ZERO_MAC;
      lastFire := 0;
    }

    /** `router_init`.  Neither step can fail: at most 16 routes are
        inserted, and a multicast address always resolves. */
    method RouterInit() returns (rc: int)
      requires Valid() && table.Routes() == []
      modifies table`size, table.entries, this`ripMac, link`sent
      ensures Valid() && rc == 0
      ensures table.Routes() == ConnectedRoutes(link.ifs)
      ensures ripMac == MulticastMac(RIP_MULTICAST_IP) && link.sent == old(link.sent)
    {
      InsertConnectedRoutes();
      assert IsMulticastIp(RIP_MULTICAST_IP);
      rc, ripMac := link.GetMac(RIP_MULTICAST_IP, 0);
    }

    /** The loop of `router_init` over the interfaces. */
    method InsertConnectedRoutes()
      requires Valid() && table.Routes() == []
      modifies table`size, table.entries
      ensures Valid() && table.Routes() == ConnectedRoutes(link.ifs)
    {
      var i := 0;
      while i < |link.ifs|
        invariant i <= |link.ifs| && table.Valid()
        invariant table.Routes() == ConnectedRoutes(link.ifs[..i])
      {
        var _ := table.InsertRoute(link.ifs[i].ip, link.ifs[i].mask, 0, i, 1);
        assert ConnectedRoutes(link.ifs[..i + 1]) == ConnectedRoutes(link.ifs[..i]) + [ConnectedRoute(link.ifs[i], i)];
        i := i + 1;
      }
      assert link.ifs[..i] == link.ifs;
      ConnectedRoutesOnIfs(link.ifs);
    }

    /** `send_rip_response(ifIdx)`: the records are collected in `batch`
        and a response goes out after every 25th record and after the last
        route. */
    method SendRipResponse(ifIdx: nat, ids: nat -> bv16)
      requires Valid() && ifIdx < |link.ifs|
      modifies link`sent
      ensures Valid()
      ensures link.sent == old(link.sent) + RipResponses(link.ifs, ripMac, table.Routes(), ifIdx, ids)
    {
      ghost var es := Advertise(table.Routes(), ifIdx);
      ghost var start: nat := 0;
      var batch: seq<RipEntry> := [];
      var k: nat := 0;
      var i: nat := 0;
      while i < table.size
        invariant i <= table.size && es == Advertise(table.Routes(), ifIdx)
        invariant Sending(link.ifs, ripMac, ifIdx, ids, es, old(link.sent), link.sent, i, start, k, batch)
      {
        start, k, batch := SendRipRecord(ifIdx, ids, es, old(link.sent), i, start, k, batch);
        i := i + 1;
      }
      assert es[..start] == es;
    }

    /** One pass of the loop of `send_rip_response`: route `i` joins the
        batch, and a full batch or the last route sends it. */
    method SendRipRecord(ifIdx: nat, ids: nat -> bv16, ghost es: seq<RipEntry>, ghost sent0: seq<Transmit>,
                         i: nat, ghost start: nat, k: nat, batch: seq<RipEntry>)
      returns (ghost start': nat, k': nat, batch': seq<RipEntry>)
      requires Valid() && ifIdx < |link.ifs| && i < table.size && es == Advertise(table.Routes(), ifIdx)
      requires Sending(link.ifs, ripMac, ifIdx, ids, es, sent0, link.sent, i, start, k, batch)
      modifies link`sent
      ensures Sending(link.ifs, ripMac, ifIdx, ids, es, sent0, link.sent, i + 1, start', k', batch')
    {
      var route := table.entries[i];
      var metric := if route.ifIdx == ifIdx then RIP_METRIC_INF else route.metric;
      var e := RipEntry(RIP_AF_IP, 0, route.dst, route.mask, 0, metric);
      assert e == es[i];
      if |batch| + 1 == RIP_MAX_ENTRIES || i == table.size - 1 {
        FlushBatch(ifIdx, ids, es, sent0, i, start, k, batch, e);
        start', k', batch' := i + 1, k + 1, [];
      } else {
        SendingAdd(link.ifs, ripMac, ifIdx, ids, es, sent0, link.sent, i, start, k, batch, e);
        start', k', batch' := start, k, batch + [e];
      }
    }

    /** The batch, completed by record `e` of route `i`, goes out as the
        `k`-th response. */
    method FlushBatch(ifIdx: nat, ids: nat -> bv16, ghost es: seq<RipEntry>, ghost sent0: seq<Transmit>,
                      i: nat, ghost start: nat, k: nat, batch: seq<RipEntry>, e: RipEntry)
      requires Valid() && ifIdx < |link.ifs| && i < |es| && e == es[i]
      requires |batch| + 1 == RIP_MAX_ENTRIES || i == |es| - 1
      requires Sending(link.ifs, ripMac, ifIdx, ids, es, sent0, link.sent, i, start, k, batch)
      modifies link`sent
      ensures Sending(link.ifs, ripMac, ifIdx, ids, es, sent0, link.sent, i + 1, i + 1, k + 1, [])
    {
      SendingFlush(link.ifs, ripMac, ifIdx, ids, es, sent0, link.sent, i, start, k, batch, e);
      SendResponse(ifIdx, ids(k), batch + [e]);
    }

    /** One response of `send_rip_response`, carrying `load`, to the RIP
        multicast group. */
    method SendResponse(ifIdx: nat, id: bv16, load: seq<RipEntry>)
      requires Valid() && ifIdx < |link.ifs| && |load| <= RIP_MAX_ENTRIES
      modifies link`sent
      ensures link.sent == old(link.sent) + [RipResponse(link.ifs, ripMac, ifIdx, id, load)]
    {
      link.SendIpPacket(RipMessage(RIP_CMD_RESPONSE, link.ifs[ifIdx].ip, RIP_MULTICAST_IP, id, load), ifIdx, ripMac);
    }

    /** The record loop of `handle_udp_packet` for a response from `src`. */
    method ApplyResponse(es: seq<RipEntry>, src: Ip, ifIdx: nat)
      requires Valid() && ifIdx < |link.ifs|
      modifies table`size, table.entries
      ensures Valid() && table.Routes() == RelaxAll(old(table.Routes()), es, src, ifIdx)
    {
      var i := 0;
      while i < |es|
        invariant i <= |es| && Valid()
        invariant table.Routes() == RelaxAll(old(table.Routes()), es[..i], src, ifIdx)
      {
        assert es[..i + 1][..i] == es[..i];
        RelaxKeepsIfs(table.Routes(), es[i], src, ifIdx, |link.ifs|);
        ApplyEntry(es[i], src, ifIdx);
        i := i + 1;
      }
      assert es[..i] == es;
    }

    /** One pass of that loop: the first exact (address, mask) match decides
        between erasing, redirecting and keeping the route; a new prefix is
        inserted. */
    method ApplyEntry(e: RipEntry, src: Ip, ifIdx: nat)
      requires table.Valid()
      modifies table`size, table.entries
      ensures table.Valid() && table.Routes() == Relax(old(table.Routes()), e, src, ifIdx)
    {
      if e.nextHop != 0 {
        return;
      }
      var j := table.FindExactRoute(e.ip, e.mask);
      if j < table.size {
        ApplyFound(e, src, ifIdx, j);
      } else {
        ghost var t := table.Routes();
        if e.metric < RIP_METRIC_INF && |t| < ROUTE_TABLE_CAPACITY {
          RelaxNewInsert(t, e, src, ifIdx);
        } else {
          RelaxNewKeep(t, e, src, ifIdx);
        }
        if e.metric < RIP_METRIC_INF {
          var _ := table.InsertRoute(e.ip, e.mask, src, ifIdx, Succ(e.metric));
        }
      }
    }

    /** The found branch of that pass, `j` being the first exact match. */
    method ApplyFound(e: RipEntry, src: Ip, ifIdx: nat, j: nat)
      requires table.Valid() && j < |table.Routes()|
      modifies table`size, table.entries
      ensures table.Valid() && table.Routes() == RelaxFound(old(table.Routes()), e, src, ifIdx, j)
    {
      var route := table.entries[j];
      if e.metric == RIP_METRIC_INF {
        if route.nextHop == src {
          var _ := table.EraseRoute(j);
        }
      } else if Improves(e, route) {
        table.SetRoute(j, Redirect(route, src, ifIdx, Succ(e.metric)));
      }
    }

    /** `handle_udp_packet` on the datagram in the buffer. */
    method HandleUdpPacket(ipLen: nat, ifIdx: nat, ids: nat -> bv16)
      requires Valid() && ifIdx < |link.ifs| && HeaderLen(buf[..]) <= ipLen <= BUFSIZ
      modifies link`sent, table`size, table.entries
      ensures Valid()
      ensures var e := RipStep(link.ifs, old(table.Routes()), ripMac, buf[..], ipLen, ifIdx, ids);
        table.Routes() == e.routes && link.sent == old(link.sent) + e.out
    {
      match ClassifyRip(buf[..], ipLen)
      case Ignore =>
      case SendTable =>
        SendRipResponse(ifIdx, ids);
      case Update(es) =>
        ApplyResponse(es, GetBe32(buf[..], 12), ifIdx);
    }

    /** `ip_forward` along `route`. */
    method IpForward(ipLen: nat, route: RouteEntry)
      requires Valid() && 0 <= route.ifIdx < |link.ifs| && ETHER_HDR_LEN + ipLen <= BUFSIZ
      modifies buf, link`sent
      ensures Valid()
      ensures var e := ForwardStep(link.ifs, link.Arps(), table.Routes(), route, old(buf[..]), ipLen);
        buf[..] == e.buf && link.sent == old(link.sent) + e.out
    {
      var next := NextHop(route, GetBe32(buf[..], 16));
      var rc, mac := link.GetMac(next, route.ifIdx);
      if rc == 0 {
        DecrementTtl(buf);
        link.SendIpPacket(buf[..ipLen], route.ifIdx, mac);
      }
    }

    /** `send_icmp_msg`. */
    method SendIcmpMsg(ipLen: nat, ifIdx: nat, icmpType: byte, code: byte, dstMac: Mac)
      requires Valid() && ifIdx < |link.ifs| && ETHER_HDR_LEN + ipLen <= BUFSIZ
      modifies buf, link`sent
      ensures Valid()
      ensures var e := BounceStep(link.ifs, table.Routes(), old(buf[..]), ipLen, ifIdx, icmpType, code, dstMac);
        buf[..] == e.buf && link.sent == old(link.sent) + e.out
    {
      var hl := Ihl4(buf[0]);
      if ipLen >= hl + ICMP_HDR_LEN {
        BuildIcmpError(buf, link.ifs[ifIdx].ip, icmpType, code);
        var icmpLen := hl + ICMP_HDR_LEN + ICMP_HDR_LEN;
        link.SendIpPacket(buf[..hl + icmpLen], ifIdx, dstMac);
      }
    }

    /** The echo branch of `run_router`. */
    method SendEchoReply(ipLen: nat, ifIdx: nat, dstMac: Mac)
      requires Valid() && ifIdx < |link.ifs| && ETHER_HDR_LEN + ipLen <= BUFSIZ && HeaderLen(buf[..]) <= ipLen
      modifies buf, link`sent
      ensures Valid() && table.Routes() == old(table.Routes())
      ensures var e := EchoStep(link.ifs, table.Routes(), old(buf[..]), ipLen, ifIdx, dstMac);
        buf[..] == e.buf && link.sent == old(link.sent) + e.out
    {
      BuildEchoReply(buf, ipLen);
      link.SendIpPacket(buf[..ipLen], ifIdx, dstMac);
    }

    /** The body of `run_router` once `recv_ip_packet` has put a datagram of
        `ipLen` bytes from `srcMac` on `ifIdx` in the buffer. */
    method HandleIp(ipLen: nat, ifIdx: nat, srcMac: Mac, ids: nat -> bv16)
      requires Valid() && ifIdx < |link.ifs| && ETHER_HDR_LEN + ipLen <= BUFSIZ
      modifies buf, link`sent, table`size, table.entries
      ensures Valid() && link.Arps() == old(link.Arps())
      ensures var e := IpStep(link.ifs, link.Arps(), old(table.Routes()), ripMac, old(buf[..]), ipLen, ifIdx, srcMac, ids);
        table.Routes() == e.routes && buf[..] == e.buf && link.sent == old(link.sent) + e.out
    {
      ghost var p := buf[..];
      if ipLen < IP_HDR_LEN || GetBe16(buf[..], 2) != Htons(ipLen) {
        return;
      }
      var hl := Ihl4(buf[0]);
      if ipLen < hl {
        return;
      }
      var check10, check11 := buf[10], buf[11];
      SetIpChecksum(buf);
      if check10 != buf[10] || check11 != buf[11] {
        return;
      }
      IpChecksumOkIff(p);
      assert buf[..] == p;
      Deliver(ipLen, ifIdx, srcMac, ids);
    }

    /** The destination tests of `run_router` on a datagram that passed the
        checks. */
    method Deliver(ipLen: nat, ifIdx: nat, srcMac: Mac, ids: nat -> bv16)
      requires Valid() && ifIdx < |link.ifs| && ETHER_HDR_LEN + ipLen <= BUFSIZ && HeaderLen(buf[..]) <= ipLen
      modifies buf, link`sent, table`size, table.entries
      ensures Valid() && link.Arps() == old(link.Arps())
      ensures var e := DeliverStep(link.ifs, link.Arps(), old(table.Routes()), ripMac, old(buf[..]), ipLen, ifIdx, srcMac, ids);
        table.Routes() == e.routes && buf[..] == e.buf && link.sent == old(link.sent) + e.out
    {
      var dst := GetBe32(buf[..], 16);
      var dstIf := link.LocalIf(dst);
      if IsMulticastIp(dst) {
        if dst == RIP_MULTICAST_IP && buf[9] == IPPROTO_UDP {
          HandleUdpPacket(ipLen, ifIdx, ids);
        }
      } else if dstIf < |link.ifs| {
        if buf[9] == IPPROTO_UDP {
          HandleUdpPacket(ipLen, ifIdx, ids);
        } else {
          DeliverLocalIcmp(ipLen, ifIdx, srcMac);
        }
      } else {
        DeliverTransit(ipLen, ifIdx, srcMac);
      }
    }

    /** The echo path of `run_router` (router.c:402-411), on a datagram for a
        local address that is not UDP. */
    method DeliverLocalIcmp(ipLen: nat, ifIdx: nat, srcMac: Mac)
      requires Valid() && ifIdx < |link.ifs| && ETHER_HDR_LEN + ipLen <= BUFSIZ && HeaderLen(buf[..]) <= ipLen
      modifies buf, link`sent
      ensures Valid() && table.Routes() == old(table.Routes())
      ensures var e := LocalIcmpStep(link.ifs, table.Routes(), old(buf[..]), ipLen, ifIdx, srcMac);
        buf[..] == e.buf && link.sent == old(link.sent) + e.out
    {
      var hl := Ihl4(buf[0]);
      if buf[9] == IPPROTO_ICMP && buf[hl] == ICMP_ECHO {
        SendEchoReply(ipLen, ifIdx, srcMac);
      }
    }

    /** A transit destination: forward along the chosen route or bounce. */
    method DeliverTransit(ipLen: nat, ifIdx: nat, srcMac: Mac)
      requires Valid() && ifIdx < |link.ifs| && ETHER_HDR_LEN + ipLen <= BUFSIZ
      modifies buf, link`sent
      ensures Valid() && table.Routes() == old(table.Routes())
      ensures var e := TransitStep(link.ifs, link.Arps(), table.Routes(), old(buf[..]), ipLen, ifIdx, srcMac);
        buf[..] == e.buf && link.sent == old(link.sent) + e.out
    {
      var dst := GetBe32(buf[..], 16);
      var r := table.GetRoute(dst);
      match r
      case Some(j) =>
        if buf[8] > 1 {
          IpForward(ipLen, table.entries[j]);
        } else {
          SendIcmpMsg(ipLen, ifIdx, ICMP_TIME_EXCEEDED, ICMP_EXC_TTL, srcMac);
        }
      case None =>
        SendIcmpMsg(ipLen, ifIdx, ICMP_DEST_UNREACH, ICMP_NET_UNREACH, srcMac);
    }

    /** One frame through `recv_ip_packet` and, when it is an IPv4 frame,
        through the rest of the `run_router` loop body. */
    method ReceiveStep(frame: seq<byte>, ifIdx: nat, ids: nat -> bv16)
      requires Valid() && ifIdx < |link.ifs| && |frame| <= BUFSIZ
      modifies link`arpSize, link.arp, link`sent, buf, table`size, table.entries
      ensures Valid()
      ensures IsIpFrame(link.ifs[ifIdx].mac, frame) ==>
        var ipLen := |frame| - ETHER_HDR_LEN;
        var e := IpStep(link.ifs, old(link.Arps()), old(table.Routes()), ripMac,
                        frame[ETHER_HDR_LEN..] + old(buf[..])[ipLen..], ipLen, ifIdx, frame[6..12], ids);
        link.Arps() == old(link.Arps()) && table.Routes() == e.routes && buf[..] == e.buf &&
        link.sent == old(link.sent) + e.out
      ensures !IsIpFrame(link.ifs[ifIdx].mac, frame) ==>
        table.Routes() == old(table.Routes()) && buf[..] == old(buf[..])
      ensures !IsIpFrame(link.ifs[ifIdx].mac, frame) && IsArpFrame(link.ifs[ifIdx].mac, frame) ==>
        var (t', out) := ArpReceive(link.ifs, old(link.Arps()), ifIdx, DecodeArp(frame[ETHER_HDR_LEN..]));
        link.Arps() == t' && link.sent == old(link.sent) + out
      ensures !IsIpFrame(link.ifs[ifIdx].mac, frame) && !IsArpFrame(link.ifs[ifIdx].mac, frame) ==>
        link.Arps() == old(link.Arps()) && link.sent == old(link.sent)
    {
      var isIp, ipLen, srcMac, dstMac := link.ReceiveFrame(frame, ifIdx, buf);
      if isIp {
        assert buf[..] == frame[ETHER_HDR_LEN..] + old(buf[..])[ipLen..] by {
          assert buf[..] == buf[..ipLen] + buf[ipLen..];
        }
        HandleIp(ipLen, ifIdx, srcMac, ids);
      }
    }

    /** The timer at the top of the `run_router` loop, with `now` the clock
        reading: when it fires, a response on every interface, in order. */
    method Tick(now: nat, ids: nat -> nat -> bv16)
      requires Valid() && now < CLOCK_MODULUS
      modifies this`lastFire, link`sent
      ensures Valid()
      ensures TimerDue(now, old(lastFire)) ==>
        lastFire == now && link.sent == old(link.sent) + Advertisements(link.ifs, ripMac, table.Routes(), |link.ifs|, ids)
      ensures !TimerDue(now, old(lastFire)) ==> lastFire == old(lastFire) && link.sent == old(link.sent)
    {
      if (now - lastFire) % CLOCK_MODULUS >= RIP_UPDATE_TIME {
        SendAdvertisements(ids);
        lastFire := now;
      }
    }

    /** The loop of the timer branch: `send_rip_response(i)` on every
        interface in order. */
    method SendAdvertisements(ids: nat -> nat -> bv16)
      requires Valid()
      modifies link`sent
      ensures Valid()
      ensures link.sent == old(link.sent) + Advertisements(link.ifs, ripMac, table.Routes(), |link.ifs|, ids)
    {
      var i := 0;
      while i < |link.ifs|
        invariant i <= |link.ifs| && Valid()
        invariant link.sent == old(link.sent) + Advertisements(link.ifs, ripMac, table.Routes(), i, ids)
      {
        SendRipResponse(i, ids(i));
        AppendAssoc(old(link.sent), Advertisements(link.ifs, ripMac, table.Routes(), i, ids),
                    RipResponses(link.ifs, ripMac, table.Routes(), i, ids(i)));
        i := i + 1;
      }
    }
  }
}
