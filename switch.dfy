/** The learning Ethernet switch of switch.c: a table from MAC addresses to
    the interface they were last seen on, filled from the source address of
    every frame and consulted for its destination address. */
module Switch {
  import opened Net

  /** `MAC_TABLE_CAPACITY`. */
  const MAC_TABLE_CAPACITY: nat := 1024

  /** `mac_entry_t`. */
  datatype MacEntry = MacEntry(mac: Mac, ifIdx: nat)

  // ----- the MAC table as a value -----

  /** `get_mac_entry`: the index of the first entry for `mac`, or `|t|`. */
  function MacFind(t: seq<MacEntry>, mac: Mac): (pos: nat)
    ensures pos <= |t|
    ensures pos < |t| ==> t[pos].mac == mac
    ensures forall j :: 0 <= j < pos ==> t[j].mac != mac
  {
    if t == [] then 0
    else if t[0].mac == mac then 0
    else 1 + MacFind(t[1..], mac)
  }

  /** The interface the table sends `mac` to, if it knows one. */
  function Lookup(t: seq<MacEntry>, mac: Mac): Option<nat> {
    var pos := MacFind(t, mac);
    if pos < |t| then Some(t[pos].ifIdx) else None
  }

  /** `insert_mac_entry` on the table value: (new table, return code). */
  function MacInsert(t: seq<MacEntry>, mac: Mac, ifIdx: nat): (seq<MacEntry>, int) {
    var pos := MacFind(t, mac);
    if pos < |t| then (t[pos := MacEntry(mac, ifIdx)], 0)
    else if |t| >= MAC_TABLE_CAPACITY then (t, OVERFLOW_ERROR)
    else (t + [MacEntry(mac, ifIdx)], 0)
  }

  /** No MAC address has two entries. */
  ghost predicate UniqueMacs(t: seq<MacEntry>) {
    forall i, j :: 0 <= i < j < |t| ==> t[i].mac != t[j].mac
  }

  /** Every learned interface is one of the `numIf` interfaces. */
  predicate EntriesOnIfs(t: seq<MacEntry>, numIf: nat) {
    forall i :: 0 <= i < |t| ==> t[i].ifIdx < numIf
  }

  /** `MacFind` is the first match: a table whose every entry differs from
      `mac` has none, and the first entry equal to it is found. */
  lemma MacFindFirst(t: seq<MacEntry>, mac: Mac, i: nat)
    requires i <= |t|
    requires forall j :: 0 <= j < i ==> t[j].mac != mac
    requires i == |t| || t[i].mac == mac
    ensures MacFind(t, mac) == i
  {
  }

  /** The three outcomes of an upsert, stated without reference to the
      search: a known MAC only moves to the new interface, an unknown one is
      appended when there is room, and an unknown one on a full table is
      refused with the table unchanged.  No other entry is touched. */
  lemma MacInsertOutcome(t: seq<MacEntry>, mac: Mac, ifIdx: nat)
    ensures var (t', rc) := MacInsert(t, mac, ifIdx);
      (forall j :: 0 <= j < |t| ==> t[j].mac != mac) ==>
        if |t| < MAC_TABLE_CAPACITY then rc == 0 && t' == t + [MacEntry(mac, ifIdx)]
        else rc == OVERFLOW_ERROR && t' == t
    ensures var (t', rc) := MacInsert(t, mac, ifIdx);
      forall i :: 0 <= i < |t| && t[i].mac == mac && (forall j :: 0 <= j < i ==> t[j].mac != mac) ==>
        rc == 0 && |t'| == |t| && t'[i] == t[i].(ifIdx := ifIdx) &&
        forall k :: 0 <= k < |t| && k != i ==> t'[k] == t[k]
  {
  }

  /** Upserting keeps the MAC addresses unique. */
  lemma MacInsertKeepsUnique(t: seq<MacEntry>, mac: Mac, ifIdx: nat)
    requires UniqueMacs(t)
    ensures UniqueMacs(MacInsert(t, mac, ifIdx).0)
  {
    var t' := MacInsert(t, mac, ifIdx).0;
    if MacFind(t, mac) == |t| && |t| < MAC_TABLE_CAPACITY {
      forall i, j | 0 <= i < j < |t'|
        ensures t'[i].mac != t'[j].mac
      {
        if j == |t| {
          assert t[i].mac != mac;
        }
      }
    }
  }

  /** Upserting an existing interface keeps every entry on an existing
      interface. */
  lemma MacInsertKeepsIfs(t: seq<MacEntry>, mac: Mac, ifIdx: nat, numIf: nat)
    requires EntriesOnIfs(t, numIf) && ifIdx < numIf
    ensures EntriesOnIfs(MacInsert(t, mac, ifIdx).0, numIf)
  {
  }

  /** After a successful upsert the MAC is looked up to the new interface;
      after a refused one it is still unknown. */
  lemma MacInsertThenLookup(t: seq<MacEntry>, mac: Mac, ifIdx: nat)
    ensures var (t', rc) := MacInsert(t, mac, ifIdx);
      (rc == 0 ==> Lookup(t', mac) == Some(ifIdx)) &&
      (rc != 0 ==> rc == OVERFLOW_ERROR && Lookup(t', mac) == None)
  {
    var pos := MacFind(t, mac);
    if pos < |t| {
      MacFindFirst(t[pos := MacEntry(mac, ifIdx)], mac, pos);
    } else if |t| < MAC_TABLE_CAPACITY {
      MacFindFirst(t + [MacEntry(mac, ifIdx)], mac, pos);
    }
  }

  /** Learning one MAC address does not change where any other address is
      sent. */
  lemma MacInsertOtherLookup(t: seq<MacEntry>, mac: Mac, ifIdx: nat, other: Mac)
    requires other != mac
    ensures Lookup(MacInsert(t, mac, ifIdx).0, other) == Lookup(t, other)
  {
    var t' := MacInsert(t, mac, ifIdx).0;
    var q := MacFind(t, other);
    var pos := MacFind(t, mac);
    if pos < |t| {
      assert forall j :: 0 <= j < |t| ==> t'[j].mac == t[j].mac;
      MacFindFirst(t', other, q);
    } else if |t| < MAC_TABLE_CAPACITY {
      if q < |t| {
        MacFindFirst(t', other, q);
      } else {
        MacFindFirst(t', other, |t'|);
      }
    }
  }

  // ----- flooding -----

  /** `broadcast_packet`: one copy on every interface below `n` except
      `ingress`, in ascending order. */
  function Flood(frame: seq<byte>, n: nat, ingress: nat): seq<Transmit> {
    if n == 0 then []
    else Flood(frame, n - 1, ingress) + (if n - 1 != ingress then [Transmit(n - 1, frame)] else [])
  }

  /** The flood is exactly the interfaces `0 .. n-1` with `ingress` taken
      out: copy `k` goes to interface `k` below the ingress one and to `k+1`
      from there on. */
  lemma {:induction false} FloodShape(frame: seq<byte>, n: nat, ingress: nat)
    ensures var out := Flood(frame, n, ingress);
      |out| == (if ingress < n then n - 1 else n) &&
      forall k :: 0 <= k < |out| ==> out[k] == Transmit(if k < ingress then k else k + 1, frame)
  {
    if n > 0 {
      FloodShape(frame, n - 1, ingress);
    }
  }

  /** Every other interface gets a copy of the frame and the ingress one
      gets none. */
  lemma FloodCovers(frame: seq<byte>, n: nat, ingress: nat)
    ensures var out := Flood(frame, n, ingress);
      (forall i :: 0 <= i < n && i != ingress ==> Transmit(i, frame) in out) &&
      (forall k :: 0 <= k < |out| ==> out[k].frame == frame && out[k].ifIdx != ingress && out[k].ifIdx < n)
  {
    var out := Flood(frame, n, ingress);
    FloodShape(frame, n, ingress);
    forall i | 0 <= i < n && i != ingress
      ensures Transmit(i, frame) in out
    {
      if i < ingress {
        assert out[i] == Transmit(i, frame);
      } else {
        assert out[i - 1] == Transmit(i, frame);
      }
    }
  }

  // ----- one frame -----

  /** Where a frame for `dst` goes once the table is `t` (switch.c:92-105):
      the broadcast address and unknown addresses are flooded, a known
      address is sent to its interface, even the ingress one. */
  function Forward(t: seq<MacEntry>, numIf: nat, dst: Mac, frame: seq<byte>, ifIdx: nat): seq<Transmit> {
    if dst == BROADCAST_MAC then Flood(frame, numIf, ifIdx)
    else match Lookup(t, dst)
      case Some(j) => [Transmit(j, frame)]
      case None => Flood(frame, numIf, ifIdx)
  }

  /** The body of `run_switch` for `len` bytes received on `ifIdx` into the
      buffer `p`: a timeout does nothing; otherwise the source address is
      learned first and the frame then forwarded with the updated table.  A
      frame shorter than an Ethernet header is processed too, with its
      addresses read from the buffer bytes it did not overwrite.
      Result: (new table, frames sent). */
  function SwitchStep(t: seq<MacEntry>, numIf: nat, p: seq<byte>, len: nat, ifIdx: nat): (seq<MacEntry>, seq<Transmit>)
    requires |p| == BUFSIZ && len <= BUFSIZ
  {
    if len == 0 then (t, [])
    else
      var t' := MacInsert(t, p[6..12], ifIdx).0;
      (t', Forward(t', numIf, p[..6], p[..len], ifIdx))
  }

  /** A frame teaches the switch where its sender is, unless the sender is
      new and the table is full; the table keeps its unique addresses and
      its interfaces; nothing is learned on a timeout. */
  lemma SwitchStepLearns(t: seq<MacEntry>, numIf: nat, p: seq<byte>, len: nat, ifIdx: nat)
    requires |p| == BUFSIZ && len <= BUFSIZ
    ensures var t' := SwitchStep(t, numIf, p, len, ifIdx).0;
      (len == 0 ==> t' == t) &&
      (len > 0 && (Lookup(t, p[6..12]).Some? || |t| < MAC_TABLE_CAPACITY) ==> Lookup(t', p[6..12]) == Some(ifIdx)) &&
      (len > 0 && Lookup(t, p[6..12]).None? && |t| >= MAC_TABLE_CAPACITY ==> t' == t) &&
      (UniqueMacs(t) ==> UniqueMacs(t')) &&
      (EntriesOnIfs(t, numIf) && ifIdx < numIf ==> EntriesOnIfs(t', numIf))
  {
    if len > 0 {
      MacInsertThenLookup(t, p[6..12], ifIdx);
      if UniqueMacs(t) {
        MacInsertKeepsUnique(t, p[6..12], ifIdx);
      }
    }
  }

  /** A unicast frame for an address other than its sender's goes where the
      table said before the frame arrived: to exactly that interface when
      the address is known, to every other interface when it is not. */
  lemma SwitchStepUnicast(t: seq<MacEntry>, numIf: nat, p: seq<byte>, len: nat, ifIdx: nat)
    requires |p| == BUFSIZ && 0 < len <= BUFSIZ
    requires p[..6] != BROADCAST_MAC && p[..6] != p[6..12]
    ensures var out := SwitchStep(t, numIf, p, len, ifIdx).1;
      match Lookup(t, p[..6])
        case Some(j) => out == [Transmit(j, p[..len])]
        case None => out == Flood(p[..len], numIf, ifIdx)
  {
    MacInsertOtherLookup(t, p[6..12], ifIdx, p[..6]);
  }

  /** A frame addressed to its own sender's address is sent straight back
      out of the interface it came in on, once that address is learned. */
  lemma SwitchStepToSender(t: seq<MacEntry>, numIf: nat, p: seq<byte>, len: nat, ifIdx: nat)
    requires |p| == BUFSIZ && 0 < len <= BUFSIZ
    requires p[..6] != BROADCAST_MAC && p[..6] == p[6..12]
    requires Lookup(t, p[6..12]).Some? || |t| < MAC_TABLE_CAPACITY
    ensures SwitchStep(t, numIf, p, len, ifIdx).1 == [Transmit(ifIdx, p[..len])]
  {
    MacInsertThenLookup(t, p[6..12], ifIdx);
  }

  /** Every copy is the received frame and leaves on an existing interface;
      one leaves on the ingress interface only when the destination is a
      unicast address the table puts there. */
  lemma SwitchStepOut(t: seq<MacEntry>, numIf: nat, p: seq<byte>, len: nat, ifIdx: nat)
    requires |p| == BUFSIZ && len <= BUFSIZ
    requires EntriesOnIfs(t, numIf) && ifIdx < numIf
    ensures var (t', out) := SwitchStep(t, numIf, p, len, ifIdx);
      (forall k :: 0 <= k < |out| ==> out[k].frame == p[..len] && out[k].ifIdx < numIf) &&
      ((exists k :: 0 <= k < |out| && out[k].ifIdx == ifIdx) ==>
        p[..6] != BROADCAST_MAC && Lookup(t', p[..6]) == Some(ifIdx))
  {
    if len > 0 {
      var t' := MacInsert(t, p[6..12], ifIdx).0;
      MacInsertKeepsIfs(t, p[6..12], ifIdx, numIf);
      FloodCovers(p[..len], numIf, ifIdx);
      assert Lookup(t', p[..6]).Some? ==> Lookup(t', p[..6]).value < numIf;
    }
  }

  // ----- the switch's state -----

  /** The globals of switch.c: `mac_table`, the receive buffer and the
      frames handed to `send_packet`. */
  class LearningSwitch {
    /** `NUM_IF`. */
    const numIf: nat
    /** `mac_table.entries`. */
    const entries: array<MacEntry>
    /** `mac_table.size`. */
    var size: nat
    /** The `packet[BUFSIZ]` receive buffer of `run_switch`. */
    const packet: array<byte>
    /** Every frame handed to `send_packet`, oldest first. */
    var sent: seq<Transmit>

    ghost predicate Valid()
      reads this`size, entries
    {
      entries.Length == MAC_TABLE_CAPACITY && size <= entries.Length && packet.Length == BUFSIZ &&
      numIf <= MAX_IF && EntriesOnIfs(entries[..size], numIf)
    }

    ghost function Macs(): seq<MacEntry>
      reads this`size, entries
      requires Valid()
    {
      entries[..size]
    }

    /** The zero-initialised globals. */
    constructor (numIf: nat)
      requires numIf <= MAX_IF
      ensures Valid() && this.numIf == numIf && Macs() == [] && sent == []
      ensures fresh(entries) && fresh(packet)
    {
      this.numIf := numIf;
      entries := new MacEntry[MAC_TABLE_CAPACITY](_ => MacEntry(ZERO_MAC, 0));
      size := 0;
      packet := new byte[BUFSIZ];
      sent := [];
    }

    /** `get_mac_entry`: index of the first entry for `mac`, or the table
        size for NULL. */
    method GetMacEntry(mac: Mac) returns (pos: nat)
      requires Valid()
      ensures pos <= size
      ensures pos < size ==> entries[pos].mac == mac
      ensures forall j :: 0 <= j < pos ==> entries[j].mac != mac
      ensures pos == MacFind(Macs(), mac)
    {
      pos := 0;
      while pos < size
        invariant pos <= size
        invariant forall j :: 0 <= j < pos ==> entries[j].mac != mac
      {
        if entries[pos].mac == mac {
          break;
        }
        pos := pos + 1;
      }
      MacFindFirst(Macs(), mac, pos);
    }

    /** `insert_mac_entry`. */
    method InsertMacEntry(mac: Mac, ifIdx: nat) returns (rc: int)
      requires Valid() && ifIdx < numIf
      modifies this`size, entries
      ensures Valid()
      ensures (Macs(), rc) == MacInsert(old(Macs()), mac, ifIdx)
    {
      var pos := GetMacEntry(mac);
      if pos == size {
        if size >= MAC_TABLE_CAPACITY {
          return OVERFLOW_ERROR;
        }
        size := size + 1;
        entries[pos] := MacEntry(mac, ifIdx);
        assert Macs() == old(Macs()) + [MacEntry(mac, ifIdx)];
      } else {
        entries[pos] := MacEntry(mac, ifIdx);
        assert Macs() == old(Macs())[pos := MacEntry(mac, ifIdx)];
      }
      MacInsertKeepsIfs(old(Macs()), mac, ifIdx, numIf);
      rc := 0;
    }

    /** `broadcast_packet`: send the first `len` bytes of the buffer on
        every interface but `ifIdx`. */
    method BroadcastPacket(len: nat, ifIdx: nat)
      requires len <= packet.Length
      modifies this`sent
      ensures sent == old(sent) + Flood(packet[..len], numIf, ifIdx)
    {
      var i := 0;
      while i < numIf
        invariant i <= numIf
        invariant sent == old(sent) + Flood(packet[..len], i, ifIdx)
      {
        if i != ifIdx {
          sent := sent + [Transmit(i, packet[..len])];
        }
        i := i + 1;
      }
    }

    /** The body of `run_switch` for one call of `recv_packet` that
        delivered `frame` on `ifIdx` (the empty frame is the timeout).  The
        frame overwrites the start of the buffer; the rest keeps what an
        earlier frame left there. */
    method HandleFrame(frame: seq<byte>, ifIdx: nat)
      requires Valid() && ifIdx < numIf && |frame| <= BUFSIZ
      modifies this`size, entries, packet, this`sent
      ensures Valid()
      ensures packet[..] == frame + old(packet[..])[|frame|..]
      ensures var (t', out) := SwitchStep(old(Macs()), numIf, packet[..], |frame|, ifIdx);
        Macs() == t' && sent == old(sent) + out
    {
      if |frame| == 0 {
        assert frame + old(packet[..])[0..] == old(packet[..]);
        return;
      }
      forall k | 0 <= k < |frame| {
        packet[k] := frame[k];
      }
      assert packet[..] == frame + old(packet[..])[|frame|..];
      assert packet[..|frame|] == frame;
      var len := |frame|;
      var src: Mac := packet[6..12];
      var dst: Mac := packet[..6];
      var _ := InsertMacEntry(src, ifIdx);
      if dst == BROADCAST_MAC {
        BroadcastPacket(len, ifIdx);
      } else {
        var pos := GetMacEntry(dst);
        if pos < size {
          sent := sent + [Transmit(entries[pos].ifIdx, packet[..len])];
        } else {
          BroadcastPacket(len, ifIdx);
        }
      }
    }
  }
}
