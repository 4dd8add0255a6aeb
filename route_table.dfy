/** The forwarding table of router.c: `count_ones`, longest-prefix lookup
    (`get_route`), append with pre-masking (`insert_route`) and order-keeping
    deletion (`erase_route`).  The table is a fixed array of
    `ROUTE_TABLE_CAPACITY` entries and a size, updated in place. */
module RouteTable {
  import opened Net

  const ROUTE_TABLE_CAPACITY: nat := 65536

  /** `route_entry_t`; `nextHop == 0` means directly connected. */
  datatype RouteEntry = RouteEntry(dst: Ip, mask: Ip, nextHop: Ip, ifIdx: int, metric: bv32)

  // ----- population count -----

  predicate Odd(x: bv32) { x & 1 == 1 }
  function Half(x: bv32): bv32 { x >> 1 }
  /** `mask & (mask - 1)`: the step of `count_ones`. */
  function ClearLowest(x: bv32): bv32 { x & (x - 1) }
  /** The bits of `x` at positions `n` and above are all zero. */
  predicate HighZero(x: bv32, n: bv8)
    requires n <= 32
  {
    x >> n == 0
  }

  /** Number of set bits among the low `n` bits of `x`. */
  function PopCountLow(x: bv32, n: bv8): nat
    requires n <= 32
    decreases n
  {
    if n == 0 then 0 else (if Odd(x) then 1 else 0) + PopCountLow(Half(x), n - 1)
  }

  /** Number of set bits of a 32-bit mask. */
  function PopCount(x: bv32): nat
  {
    PopCountLow(x, 32)
  }

  lemma {:induction false} PopCountLowZero(n: bv8)
    requires n <= 32
    ensures PopCountLow(0, n) == 0
    decreases n
  {
    if n > 0 {
      assert Half(0) == 0;
      PopCountLowZero(n - 1);
    }
  }

  lemma ClearLowestOdd(x: bv32)
    requires Odd(x)
    ensures Half(ClearLowest(x)) == Half(x) && !Odd(ClearLowest(x))
  {
  }

  lemma ClearLowestEven(x: bv32)
    requires !Odd(x) && x != 0
    ensures Half(x) != 0 && !Odd(ClearLowest(x)) && Half(ClearLowest(x)) == ClearLowest(Half(x))
  {
  }

  lemma HighZeroHalf(x: bv32, n: bv8)
    requires 0 < n <= 32 && HighZero(x, n)
    ensures HighZero(Half(x), n - 1)
  {
  }

  lemma HighZeroNone(x: bv32)
    requires HighZero(x, 0)
    ensures x == 0
  {
  }

  /** `x & (x - 1)` clears exactly one set bit: the lowest. */
  lemma {:induction false} ClearLowestSetBit(x: bv32, n: bv8)
    requires n <= 32 && x != 0 && HighZero(x, n)
    ensures n > 0 && PopCountLow(ClearLowest(x), n) + 1 == PopCountLow(x, n)
    decreases n
  {
    if n == 0 {
      HighZeroNone(x);
    } else if Odd(x) {
      ClearLowestOdd(x);
    } else {
      ClearLowestEven(x);
      HighZeroHalf(x, n);
      ClearLowestSetBit(Half(x), n - 1);
    }
  }

  /** `count_ones`: Kernighan's loop, one iteration per set bit. */
  method CountOnes(mask: Ip) returns (cnt: nat)
    ensures cnt == PopCount(mask)
  {
    cnt := 0;
    var m := mask;
    while m != 0
      invariant cnt + PopCount(m) == PopCount(mask)
      decreases PopCount(m)
    {
      ClearLowestSetBit(m, 32);
      cnt := cnt + 1;
      m := m & (m - 1);
    }
    PopCountLowZero(32);
  }

  /** The contiguous mask of a /len prefix. */
  function PrefixMask(len: bv8): Ip
    requires len <= 32
  {
    !(0xffff_ffff >> len)
  }

  /** The low `n` bits of the /k mask, brought down to the bottom. */
  function TopOnes(k: bv8, n: bv8): bv32
    requires k <= n <= 32
  {
    PrefixMask(k) >> (32 - n)
  }

  lemma TopOnesStep(k: bv8, n: bv8)
    requires k <= n <= 32 && 0 < n
    ensures Odd(TopOnes(k, n)) <==> k == n
    ensures k == n ==> Half(TopOnes(k, n)) == TopOnes(k - 1, n - 1)
    ensures k < n ==> Half(TopOnes(k, n)) == TopOnes(k, n - 1)
  {
  }

  lemma {:induction false} TopOnesCount(k: bv8, n: bv8)
    requires k <= n <= 32
    ensures PopCountLow(TopOnes(k, n), n) == k as int
    decreases n
  {
    if n > 0 {
      TopOnesStep(k, n);
      if k == n {
        TopOnesCount(k - 1, n - 1);
      } else {
        TopOnesCount(k, n - 1);
      }
    }
  }

  /** For the usual contiguous masks `count_ones` is the prefix length, so
      "most ones" is "longest prefix". */
  lemma PrefixMaskCount(len: bv8)
    requires len <= 32
    ensures PopCount(PrefixMask(len)) == len as int
  {
    TopOnesCount(len, 32);
    assert TopOnes(len, 32) == PrefixMask(len);
  }

  // ----- lookup as a value -----

  /** The test of `get_route`: the entry's stored destination equals the
      address under the entry's mask. */
  predicate Matches(e: RouteEntry, ip: Ip) {
    e.dst == ip & e.mask
  }

  /** The choice the scan of `get_route` has made after the first `n`
      candidates, where `ok[j]` says whether entry j matches and `key[j]` is
      its `count_ones`: a matching entry replaces the current choice only
      when its key is strictly larger. */
  function LongestUpTo(ok: seq<bool>, key: seq<nat>, n: nat): (r: Option<nat>)
    requires n <= |ok| && |ok| == |key|
    ensures r.Some? ==> r.value < n
  {
    if n == 0 then None
    else
      var prev := LongestUpTo(ok, key, n - 1);
      if ok[n - 1] && (prev.None? || key[prev.value] < key[n - 1]) then Some(n - 1) else prev
  }

  lemma {:induction false} LongestUpToIsFirstMax(ok: seq<bool>, key: seq<nat>, n: nat)
    requires n <= |ok| && |ok| == |key|
    ensures LongestUpTo(ok, key, n).None? <==> forall j :: 0 <= j < n ==> !ok[j]
    ensures LongestUpTo(ok, key, n).Some? ==>
      var b := LongestUpTo(ok, key, n).value;
      ok[b] &&
      (forall j :: 0 <= j < n && ok[j] ==> key[j] <= key[b]) &&
      (forall j :: 0 <= j < b && ok[j] ==> key[j] < key[b])
  {
    if n > 0 {
      LongestUpToIsFirstMax(ok, key, n - 1);
    }
  }

  /** The scan of a prefix does not look past it. */
  lemma {:induction false} LongestUpToPrefix(ok: seq<bool>, key: seq<nat>, ok': seq<bool>, key': seq<nat>, n: nat)
    requires n <= |ok| && |ok| == |key| && |ok'| == |key'|
    ensures LongestUpTo(ok + ok', key + key', n) == LongestUpTo(ok, key, n)
  {
    if n > 0 {
      LongestUpToPrefix(ok, key, ok', key', n - 1);
    }
  }

  function MatchFlags(t: seq<RouteEntry>, ip: Ip): (ok: seq<bool>)
    ensures |ok| == |t|
  {
    seq(|t|, j requires 0 <= j < |t| => Matches(t[j], ip))
  }

  function MaskLengths(t: seq<RouteEntry>): (key: seq<nat>)
    ensures |key| == |t|
  {
    seq(|t|, j requires 0 <= j < |t| => PopCount(t[j].mask))
  }

  /** The result of `get_route` on table `t`. */
  function Best(t: seq<RouteEntry>, ip: Ip): (r: Option<nat>)
    ensures r.Some? ==> r.value < |t|
  {
    LongestUpTo(MatchFlags(t, ip), MaskLengths(t), |t|)
  }

  /** The lookup finds nothing exactly when no entry matches; otherwise its
      entry matches, no matching entry has a mask with more ones, and every
      earlier matching entry has strictly fewer. */
  lemma BestIsFirstLongest(t: seq<RouteEntry>, ip: Ip)
    ensures Best(t, ip).None? <==> forall j :: 0 <= j < |t| ==> !Matches(t[j], ip)
    ensures Best(t, ip).Some? ==>
      var b := Best(t, ip).value;
      Matches(t[b], ip) &&
      (forall j :: 0 <= j < |t| && Matches(t[j], ip) ==> PopCount(t[j].mask) <= PopCount(t[b].mask)) &&
      (forall j :: 0 <= j < b && Matches(t[j], ip) ==> PopCount(t[j].mask) < PopCount(t[b].mask))
  {
    var ok, key := MatchFlags(t, ip), MaskLengths(t);
    LongestUpToIsFirstMax(ok, key, |t|);
    assert forall j :: 0 <= j < |t| ==> ok[j] == Matches(t[j], ip) && key[j] == PopCount(t[j].mask);
  }

  /** Appending a route that matches with the most ones so far makes the
      lookup choose it; appending one that does not match, or is not
      strictly longer, leaves the choice as it was. */
  lemma BestAppend(t: seq<RouteEntry>, e: RouteEntry, ip: Ip)
    ensures var b := Best(t, ip);
      Best(t + [e], ip) ==
        if Matches(e, ip) && (b.None? || PopCount(t[b.value].mask) < PopCount(e.mask)) then Some(|t|) else b
  {
    assert MatchFlags(t + [e], ip) == MatchFlags(t, ip) + [Matches(e, ip)];
    assert MaskLengths(t + [e]) == MaskLengths(t) + [PopCount(e.mask)];
    LongestUpToPrefix(MatchFlags(t, ip), MaskLengths(t), [Matches(e, ip)], [PopCount(e.mask)], |t|);
  }

  /** The exact-match scan of `handle_udp_packet`: the first entry whose
      stored destination and mask equal `ip` and `mask`, or `|t|`. */
  function FindExact(t: seq<RouteEntry>, ip: Ip, mask: Ip): (j: nat)
    ensures j <= |t|
    ensures j < |t| ==> t[j].dst == ip && t[j].mask == mask
    ensures forall k :: 0 <= k < j ==> !(t[k].dst == ip && t[k].mask == mask)
  {
    if t == [] then 0
    else if t[0].dst == ip && t[0].mask == mask then 0
    else 1 + FindExact(t[1..], ip, mask)
  }

  /** No exact match is reported exactly when the table holds the prefix
      nowhere. */
  lemma FindExactAbsent(t: seq<RouteEntry>, ip: Ip, mask: Ip)
    ensures FindExact(t, ip, mask) == |t| <==> forall k :: 0 <= k < |t| ==> !(t[k].dst == ip && t[k].mask == mask)
  {
  }

  /** The exact match found is the first entry holding the prefix. */
  lemma FindExactFirst(t: seq<RouteEntry>, ip: Ip, mask: Ip, j: nat)
    requires j < |t| && t[j].dst == ip && t[j].mask == mask
    requires forall k :: 0 <= k < j ==> !(t[k].dst == ip && t[k].mask == mask)
    ensures FindExact(t, ip, mask) == j
  {
  }

  // ----- insert and erase as values -----

  /** `insert_route` on the table value: (new table, return code). */
  function RouteInsert(t: seq<RouteEntry>, dst: Ip, mask: Ip, nextHop: Ip, ifIdx: int, metric: bv32): (seq<RouteEntry>, int) {
    if |t| >= ROUTE_TABLE_CAPACITY then (t, OVERFLOW_ERROR)
    else (t + [RouteEntry(dst & mask, mask, nextHop, ifIdx, metric)], 0)
  }

  /** `erase_route` on the table value: (new table, return code). */
  function RouteErase(t: seq<RouteEntry>, pos: nat): (seq<RouteEntry>, int) {
    if pos >= |t| then (t, OUT_OF_RANGE_ERROR) else (t[..pos] + t[pos + 1..], 0)
  }

  /** A successful insert keeps every existing entry at its index and adds
      one entry at the end, its destination masked, which every address of
      the inserted prefix matches; a full table is left as it was. */
  lemma RouteInsertOutcome(t: seq<RouteEntry>, dst: Ip, mask: Ip, nextHop: Ip, ifIdx: int, metric: bv32)
    ensures var (t', rc) := RouteInsert(t, dst, mask, nextHop, ifIdx, metric);
      (rc == OVERFLOW_ERROR <==> |t| >= ROUTE_TABLE_CAPACITY) &&
      (rc == OVERFLOW_ERROR ==> t' == t) &&
      (rc == 0 ==> |t'| == |t| + 1 && t'[..|t|] == t &&
                   t'[|t|].mask == mask && t'[|t|].nextHop == nextHop && t'[|t|].ifIdx == ifIdx &&
                   t'[|t|].metric == metric && t'[|t|].dst == dst & mask && Matches(t'[|t|], dst))
  {
    var (t', rc) := RouteInsert(t, dst, mask, nextHop, ifIdx, metric);
    if rc == 0 {
      assert t'[..|t|] == t;
    }
  }

  /** Every address of the inserted prefix matches the inserted entry. */
  lemma InsertedRouteMatches(dst: Ip, mask: Ip, nextHop: Ip, ifIdx: int, metric: bv32, ip: Ip)
    requires ip & mask == dst & mask
    ensures Matches(RouteEntry(dst & mask, mask, nextHop, ifIdx, metric), ip)
  {
  }

  /** A successful erase removes exactly the entry at `pos`: the entries
      before it keep their index and the ones after it move down by one. */
  lemma RouteEraseOutcome(t: seq<RouteEntry>, pos: nat)
    ensures var (t', rc) := RouteErase(t, pos);
      (rc == OUT_OF_RANGE_ERROR <==> pos >= |t|) &&
      (rc == OUT_OF_RANGE_ERROR ==> t' == t) &&
      (rc == 0 ==> |t'| == |t| - 1 &&
                   (forall j :: 0 <= j < pos ==> t'[j] == t[j]) &&
                   (forall j :: pos <= j < |t'| ==> t'[j] == t[j + 1]) &&
                   multiset(t') + multiset{t[pos]} == multiset(t))
  {
    var (t', rc) := RouteErase(t, pos);
    if rc == 0 {
      assert t == t[..pos] + [t[pos]] + t[pos + 1..];
    }
  }

  // ----- the table object -----

  class Table {
    /** `route_table.entries` and `route_table.size`. */
    const entries: array<RouteEntry>
    var size: nat

    ghost predicate Valid()
      reads this`size
    {
      entries.Length == ROUTE_TABLE_CAPACITY && size <= entries.Length
    }

    ghost function Routes(): seq<RouteEntry>
      reads this`size, entries
      requires Valid()
    {
      entries[..size]
    }

    /** The zero-initialised global table. */
    constructor ()
      ensures Valid() && Routes() == [] && fresh(entries)
    {
      entries := new RouteEntry[ROUTE_TABLE_CAPACITY](_ => RouteEntry(0, 0, 0, 0, 0));
      size := 0;
    }

    /** `get_route`: the index of the chosen entry, or None for NULL;
        `BestIsFirstLongest` says which entry that is. */
    method GetRoute(ip: Ip) returns (r: Option<nat>)
      requires Valid()
      ensures r == Best(Routes(), ip)
    {
      ghost var ok, key := MatchFlags(Routes(), ip), MaskLengths(Routes());
      r := None;
      var maxPrefixLen: int := -1;
      var i := 0;
      while i < size
        invariant i <= size
        invariant r == LongestUpTo(ok, key, i)
        invariant maxPrefixLen == if r.None? then -1 else key[r.value]
      {
        assert ok[i] == Matches(entries[i], ip) && key[i] == PopCount(entries[i].mask);
        if Matches(entries[i], ip) {
          var ones := CountOnes(entries[i].mask);
          if maxPrefixLen < ones {
            maxPrefixLen := ones;
            r := Some(i);
          }
        }
        i := i + 1;
      }
    }

    /** `insert_route`. */
    method InsertRoute(dst: Ip, mask: Ip, nextHop: Ip, ifIdx: int, metric: bv32) returns (rc: int)
      requires Valid()
      modifies this`size, entries
      ensures Valid()
      ensures (Routes(), rc) == RouteInsert(old(Routes()), dst, mask, nextHop, ifIdx, metric)
    {
      if size >= ROUTE_TABLE_CAPACITY {
        return OVERFLOW_ERROR;
      }
      entries[size] := RouteEntry(dst & mask, mask, nextHop, ifIdx, metric);
      size := size + 1;
      assert Routes() == old(Routes()) + [RouteEntry(dst & mask, mask, nextHop, ifIdx, metric)];
      rc := 0;
    }

    /** `erase_route`: the `memmove` is a simultaneous shift of the entries
        after `pos` down by one. */
    method EraseRoute(pos: nat) returns (rc: int)
      requires Valid()
      modifies this`size, entries
      ensures Valid()
      ensures (Routes(), rc) == RouteErase(old(Routes()), pos)
    {
      if pos >= size {
        return OUT_OF_RANGE_ERROR;
      }
      forall j | pos <= j < size - 1 {
        entries[j] := entries[j + 1];
      }
      size := size - 1;
      assert Routes() == old(Routes())[..pos] + old(Routes())[pos + 1..];
      rc := 0;
    }

    /** The exact-match loop of `handle_udp_packet`. */
    method FindExactRoute(ip: Ip, mask: Ip) returns (j: nat)
      requires Valid()
      ensures j == FindExact(Routes(), ip, mask)
    {
      j := 0;
      while j < size
        invariant j <= size
        invariant forall k :: 0 <= k < j ==> !(entries[k].dst == ip && entries[k].mask == mask)
      {
        if entries[j].dst == ip && entries[j].mask == mask {
          break;
        }
        j := j + 1;
      }
    }

    /** Replace the entry at `pos` (the in-place field updates of
        `handle_udp_packet`). */
    method SetRoute(pos: nat, e: RouteEntry)
      requires Valid() && pos < size
      modifies entries
      ensures Valid() && Routes() == old(Routes())[pos := e]
    {
      entries[pos] := e;
    }
  }
}
