/** The parts of the router's main loop that hold logic of their own: the direct
    routes added at start-up, reading the source and destination addresses, the
    "is this packet for me" test and the handling of a received RIP response. */
module Router {
  import opened Bytes
  import opened Protocol
  import opened Lookup

  /** The board's interface addresses, in wire order: 192.168.3.2, 192.168.4.1,
      10.0.2.1 and 10.0.3.1. */
  const BOARD_ADDRS: seq<u32> := [0x0203a8c0, 0x0104a8c0, 0x0102000a, 0x0103000a]

  /** 224.0.0.9, the RIPv2 multicast group, in wire order. */
  const RIP_MULTICAST: u32 := 0x090000e0

  /** A received metric above this raw value triggers the withdrawal branch. */
  const WITHDRAW_ABOVE: u32 := 0x1000_0000

  // ---------------------------------------------------------------- direct routes

  /** The direct route for the interface with address addr: `addr & 0x00FFFFFF`,
      length 24, the interface's own index, no next hop, metric 0. */
  function DirectRoute(addr: u32, i: u32): (r: RouteEntry)
    ensures r.len == 24 && r.ifIndex == i && r.nexthop == 0 && r.metric == 0
    ensures r.addr < 0x100_0000 && (addr - r.addr) % 0x100_0000 == 0
  {
    RouteEntry(addr % 0x100_0000, 24, i, 0, 0)
  }

  /** The direct route's prefix is the interface address with its last octet
      cleared. */
  lemma DirectRouteOctets(addr: u32, i: u32)
    ensures Le32(DirectRoute(addr, i).addr) == Le32(addr)[..3] + [0]
  {
    LowOctets(addr);
  }

  /** `addr & 0x00FFFFFF` keeps the first three octets and clears the last. */
  lemma LowOctets(addr: u32)
    ensures Le32(addr % 0x100_0000) == Le32(addr)[..3] + [0]
  {
    var b := Le32(addr);
    var b0: int, b1: int, b2: int, b3: int := b[0], b[1], b[2], b[3];
    LoadLe32(addr);
    assert addr == b0 + b1 * 0x100 + b2 * 0x1_0000 + b3 * 0x100_0000;
    var a := b0 + b1 * 0x100 + b2 * 0x1_0000;
    DivModUnique(addr, 0x100_0000, b3, a);
    DivModUnique(a, 0x100, b1 + b2 * 0x100, b0);
    DivModUnique(a, 0x1_0000, b2, b0 + b1 * 0x100);
    DivModUnique(a, 0x100_0000, 0, a);
    DivModUnique(b1 + b2 * 0x100, 0x100, b2, b1);
  }

  /** The table after the start-up loop has inserted the direct route of every
      interface in order. */
  function Seeded(s: seq<RouteEntry>, addrs: seq<u32>): (r: seq<RouteEntry>)
    requires |addrs| < 0x1_0000_0000
    ensures LensValid(s) ==> LensValid(r)
    ensures |r| <= |s| + |addrs|
    ensures |addrs| > 0 ==> |r| > 0 && r[|r| - 1] == DirectRoute(addrs[|addrs| - 1], |addrs| - 1)
  {
    if |addrs| == 0 then s
    else
      var prev := Seeded(s, addrs[..|addrs| - 1]);
      var d := DirectRoute(addrs[|addrs| - 1], |addrs| - 1);
      assert LensValid(prev) ==> LensValid(Updated(prev, true, d)) by {
        if LensValid(prev) { UpdateKeepsLensValid(prev, true, d); }
      }
      Updated(prev, true, d)
  }

  /** The start-up loop: `update(true, …)` with the direct route of each interface. */
  method SeedDirectRoutes(table: RoutingTable, addrs: seq<u32>)
    requires |addrs| < 0x1_0000_0000
    modifies table
    ensures table.entries == Seeded(old(table.entries), addrs)
  {
    for i := 0 to |addrs|
      invariant table.entries == Seeded(old(table.entries), addrs[..i])
    {
      SeededStep(old(table.entries), addrs, i);
      table.Update(true, DirectRoute(addrs[i], i));
    }
    assert addrs[..|addrs|] == addrs;
  }

  /** One more interface seeded. */
  lemma SeededStep(s: seq<RouteEntry>, addrs: seq<u32>, i: nat)
    requires i < |addrs| < 0x1_0000_0000
    ensures Seeded(s, addrs[..i + 1]) == Updated(Seeded(s, addrs[..i]), true, DirectRoute(addrs[i], i))
  {
    assert addrs[..i + 1][..i] == addrs[..i];
  }

  /** No two interfaces share a /24 network (the first three octets). */
  predicate DistinctNetworks(addrs: seq<u32>)
  {
    forall i, j | 0 <= i < j < |addrs| :: addrs[i] % 0x100_0000 != addrs[j] % 0x100_0000
  }

  /** From an empty table, interfaces on distinct /24 networks give one route each,
      in interface order. */
  lemma {:induction false} SeededFromEmpty(addrs: seq<u32>)
    requires |addrs| < 0x1_0000_0000
    requires DistinctNetworks(addrs)
    ensures var r := Seeded([], addrs);
            && |r| == |addrs| && KeysUnique(r)
            && forall i | 0 <= i < |addrs| :: r[i] == DirectRoute(addrs[i], i)
  {
    if |addrs| > 0 {
      var init := addrs[..|addrs| - 1];
      assert DistinctNetworks(init) by {
        assert forall i | 0 <= i < |init| :: init[i] == addrs[i];
      }
      SeededFromEmpty(init);
      SeededAppendsDirect(addrs, init);
      DirectRoutesExtend(Seeded([], init), addrs);
    }
  }

  /** The step of the seeding loop on a table holding exactly the direct routes of
      the earlier interfaces: the new route is appended. */
  lemma SeededAppendsDirect(addrs: seq<u32>, init: seq<u32>)
    requires 0 < |addrs| < 0x1_0000_0000 && DistinctNetworks(addrs) && init == addrs[..|addrs| - 1]
    requires var prev := Seeded([], init);
             && |prev| == |init| && KeysUnique(prev)
             && forall i | 0 <= i < |init| :: prev[i] == DirectRoute(init[i], i)
    ensures var prev, d := Seeded([], init), DirectRoute(addrs[|init|], |init|);
            Seeded([], addrs) == prev + [d] && KeysUnique(prev + [d])
  {
    var prev := Seeded([], init);
    var n := |init|;
    var d := DirectRoute(addrs[n], n);
    assert forall i | 0 <= i < n :: init[i] == addrs[i];
    forall i | 0 <= i < n ensures !SameKey(prev[i], d) {
      assert prev[i].addr == addrs[i] % 0x100_0000;
    }
    UpdateAppends(prev, d);
  }

  /** The direct routes of the earlier interfaces followed by the next one's are the
      direct routes of all of them. */
  lemma DirectRoutesExtend(prev: seq<RouteEntry>, addrs: seq<u32>)
    requires 0 < |addrs| < 0x1_0000_0000 && |prev| == |addrs| - 1
    requires forall i | 0 <= i < |prev| :: prev[i] == DirectRoute(addrs[..|addrs| - 1][i], i)
    ensures var r := prev + [DirectRoute(addrs[|prev|], |prev|)];
            forall i | 0 <= i < |addrs| :: r[i] == DirectRoute(addrs[i], i)
  {
    assert forall i | 0 <= i < |prev| :: addrs[..|addrs| - 1][i] == addrs[i];
  }

  /** A /24 route matches exactly the addresses that share its first three octets. */
  lemma MatchesSlash24(t: RouteEntry, addr: u32)
    requires t.len == 24
    ensures Matches(t, addr) <==> Le32(addr)[..3] == Le32(t.addr)[..3]
  {
    Pow2Values();
    ShrDiv(Swap32(addr), 8);
    ShrDiv(Swap32(t.addr), 8);
    HighOctets(addr);
    HighOctets(t.addr);
    var a, b := Le32(addr), Le32(t.addr);
    var a0: int, a1: int, a2: int := a[0], a[1], a[2];
    var b0: int, b1: int, b2: int := b[0], b[1], b[2];
    ThreeOctets(a0, a1, a2, b0, b1, b2);
    assert a[..3] == b[..3] <==> a0 == b0 && a1 == b1 && a2 == b2;
  }

  /** Three octets read as one base-256 number determine the octets. */
  lemma ThreeOctets(a0: int, a1: int, a2: int, b0: int, b1: int, b2: int)
    requires 0 <= a0 < 0x100 && 0 <= a1 < 0x100 && 0 <= a2 < 0x100
    requires 0 <= b0 < 0x100 && 0 <= b1 < 0x100 && 0 <= b2 < 0x100
    ensures a0 * 0x1_0000 + a1 * 0x100 + a2 == b0 * 0x1_0000 + b1 * 0x100 + b2
            <==> a0 == b0 && a1 == b1 && a2 == b2
  {
    var x, y := a0 * 0x1_0000 + a1 * 0x100 + a2, b0 * 0x1_0000 + b1 * 0x100 + b2;
    if x == y {
      DivModUnique(x, 0x100, a0 * 0x100 + a1, a2);
      DivModUnique(y, 0x100, b0 * 0x100 + b1, b2);
      DivModUnique(a0 * 0x100 + a1, 0x100, a0, a1);
      DivModUnique(b0 * 0x100 + b1, 0x100, b0, b1);
    }
  }

  /** `ntohl(x) >> 8` is made of the first three octets of x. */
  lemma HighOctets(x: u32)
    ensures var b := Le32(x); Swap32(x) / 0x100 == b[0] as int * 0x1_0000 + b[1] as int * 0x100 + b[2] as int
  {
    var b := Le32(x);
    var b0: int, b1: int, b2: int, b3: int := b[0], b[1], b[2], b[3];
    var v := Swap32(x);
    assert v == b3 + b2 * 0x100 + b1 * 0x1_0000 + b0 * 0x100_0000;
    DivModUnique(v, 0x100, b0 * 0x1_0000 + b1 * 0x100 + b2, b3);
  }

  /** The board's addresses, octet by octet. */
  lemma BoardOctets()
    ensures Le32(BOARD_ADDRS[0]) == [192, 168, 3, 2] && Le32(BOARD_ADDRS[1]) == [192, 168, 4, 1]
    ensures Le32(BOARD_ADDRS[2]) == [10, 0, 2, 1] && Le32(BOARD_ADDRS[3]) == [10, 0, 3, 1]
  {
  }

  /** Start-up on the board gives the four direct routes in interface order. */
  lemma BoardTable()
    ensures var r := Seeded([], BOARD_ADDRS);
            && |r| == 4 && KeysUnique(r) && LensValid(r)
            && forall k | 0 <= k < 4 :: r[k] == DirectRoute(BOARD_ADDRS[k], k)
  {
    assert BOARD_ADDRS[0] % 0x100_0000 == 0x03a8c0 && BOARD_ADDRS[1] % 0x100_0000 == 0x04a8c0;
    assert BOARD_ADDRS[2] % 0x100_0000 == 0x02000a && BOARD_ADDRS[3] % 0x100_0000 == 0x03000a;
    SeededFromEmpty(BOARD_ADDRS);
  }

  /** When exactly one route matches dst, query chooses it. */
  lemma OnlyMatchChosen(r: seq<RouteEntry>, dst: u32, i: nat)
    requires LensValid(r) && i < |r|
    requires forall k | 0 <= k < |r| :: Matches(r[k], dst) <==> k == i
    ensures BestIndex(r, dst) == Some(i)
  {
    BestIndexSpec(r, dst);
    assert Matches(r[i], dst);
    var b := BestIndex(r, dst);
    assert b.Some?;
    assert Matches(r[b.value], dst);
  }

  /** The board's four networks have distinct first three octets. */
  lemma BoardPrefixesDistinct(i: nat, k: nat)
    requires i < 4 && k < 4 && Le32(BOARD_ADDRS[i])[..3] == Le32(BOARD_ADDRS[k])[..3]
    ensures i == k
  {
    BoardOctets();
    var a, b := Le32(BOARD_ADDRS[i]), Le32(BOARD_ADDRS[k]);
    assert a[0] == b[0] && a[2] == b[2];
  }

  /** After start-up on the board, an address on one of its four networks is routed
      to that network's interface, directly. */
  lemma BoardRouting(dst: u32, i: nat)
    requires i < 4 && Le32(dst)[..3] == Le32(BOARD_ADDRS[i])[..3]
    ensures var r := Seeded([], BOARD_ADDRS);
            && LensValid(r)
            && BestIndex(r, dst) == Some(i)
            && r[i].ifIndex == i && r[i].nexthop == 0
  {
    var r := Seeded([], BOARD_ADDRS);
    BoardTable();
    forall k | 0 <= k < 4 ensures Matches(r[k], dst) <==> k == i {
      var d := DirectRoute(BOARD_ADDRS[k], k);
      assert r[k] == d;
      DirectRouteOctets(BOARD_ADDRS[k], k);
      assert Le32(d.addr)[..3] == Le32(BOARD_ADDRS[k])[..3];
      MatchesSlash24(d, dst);
      if Matches(r[k], dst) {
        BoardPrefixesDistinct(i, k);
      }
    }
    OnlyMatchChosen(r, dst, i);
  }

  // ---------------------------------------------------------------- addresses

  /** The source address, bytes 12-15 composed little-endian: its octets are the
      header's, in order. */
  function SourceAddr(p: seq<byte>): (a: u32)
    requires |p| >= 20
    ensures Le32(a) == p[12..16]
  {
    Le32Load(p, 12);
    Load32LE(p, 12)
  }

  /** The destination address, bytes 16-19 composed little-endian. */
  function DestAddr(p: seq<byte>): (a: u32)
    requires |p| >= 20
    ensures Le32(a) == p[16..20]
  {
    Le32Load(p, 16);
    Load32LE(p, 16)
  }

  /** The "dst is me" test: the destination's four bytes equal those of one of the
      interface addresses (`memcmp`), or the destination is 224.0.0.9. */
  method DstIsMe(dst: u32, addrs: seq<u32>) returns (isMe: bool)
    ensures isMe <==> dst in addrs || dst == RIP_MULTICAST
  {
    isMe := false;
    for i := 0 to |addrs|
      invariant !isMe && dst !in addrs[..i]
    {
      assert addrs[..i + 1] == addrs[..i] + [addrs[i]];
      Le32Injective(dst, addrs[i]);
      if Le32(dst) == Le32(addrs[i]) {
        isMe := true;
        break;
      }
    }
    assert !isMe ==> addrs[..|addrs|] == addrs;
    if dst == RIP_MULTICAST {
      isMe := true;
    }
  }

  /** The multicast constant is 224.0.0.9 on the wire. */
  lemma MulticastOctets()
    ensures Le32(RIP_MULTICAST) == [224, 0, 0, 9]
  {
  }

  // ---------------------------------------------------------------- prefix length

  /** The length the response handler derives from bit j upwards of the host-order
      mask: 32 - j' for the lowest set bit j' >= j, or 0 if there is none. */
  function PrefixLenFrom(x: u32, j: nat): (len: nat)
    requires j <= 32
    ensures len <= 32 - j
    ensures len == 0 <==> forall k | j <= k < 32 :: Bit(x, k) == 0
    ensures len > 0 ==> Bit(x, 32 - len) == 1 && forall k | j <= k < 32 - len :: Bit(x, k) == 0
    decreases 32 - j
  {
    if j == 32 then 0
    else if Bit(x, j) == 1 then 32 - j
    else PrefixLenFrom(x, j + 1)
  }

  /** The prefix length of a network-order mask: 32 minus the position of the lowest
      set bit of `ntohl(mask)`. */
  function PrefixLen(mask: u32): (len: nat)
    ensures len <= 32
  {
    PrefixLenFrom(Swap32(mask), 0)
  }

  /** The bit loop of the response handler. */
  method PrefixLenOf(mask: u32) returns (len: u32)
    ensures len == PrefixLen(mask)
  {
    len := 0;
    var seMask := Swap32(mask);
    for j := 0 to 32
      invariant PrefixLenFrom(seMask, j) == PrefixLen(mask)
    {
      if (seMask / Pow2(j)) % 2 == 1 {
        len := 32 - j;
        break;
      }
    }
  }

  /** All bits below n clear means a multiple of 2^n. */
  lemma {:induction false} LowBitsClear(x: nat, n: nat)
    requires forall k | 0 <= k < n :: Bit(x, k) == 0
    ensures x % Pow2(n) == 0
  {
    if n > 0 {
      LowBitsClear(x, n - 1);
      Pow2Step(x, n - 1);
    }
  }

  /** A multiple of 2^n has its bits below n clear. */
  lemma {:induction false} MultipleBitsClear(x: nat, n: nat)
    requires x % Pow2(n) == 0
    ensures forall k | 0 <= k < n :: Bit(x, k) == 0
  {
    if n > 0 {
      Pow2Step(x, n - 1);
      MultipleBitsClear(x, n - 1);
    }
  }

  /** The derived length is 0 exactly for the zero mask. */
  lemma PrefixLenZero(mask: u32)
    ensures PrefixLen(mask) == 0 <==> mask == 0
  {
    var x := Swap32(mask);
    Swap32Zero(mask);
    if PrefixLen(mask) == 0 {
      LowBitsClear(x, 32);
      Pow2Values();
      DivModUnique(x, 0x1_0000_0000, 0, x);
    } else {
      assert Bit(x, 32 - PrefixLen(mask)) == 1;
    }
  }

  /** The mask the builder advertises for a length is read back as that length. */
  lemma PrefixLenOfHostMask(len: nat)
    requires 1 <= len <= 31
    ensures PrefixLen(Swap32(HostMask(len))) == len
  {
    var n := 32 - len;
    var h := HostMask(len);
    Swap32Involutive(h);
    DivModUnique(h, Pow2(n), Pow2(len) - 1, 0);
    MultipleBitsClear(h, n);
    LowOnesBits(len, 0);
    assert Bit(h, n) == 1;
    PrefixLenFromFirst(h, 0, n);
  }

  /** Scanning from j with bits j..n-1 clear and bit n set stops at n. */
  lemma {:induction false} PrefixLenFromFirst(x: u32, j: nat, n: nat)
    requires j <= n < 32
    requires forall k | j <= k < n :: Bit(x, k) == 0
    requires Bit(x, n) == 1
    ensures PrefixLenFrom(x, j) == 32 - n
    decreases n - j
  {
    if j < n {
      PrefixLenFromFirst(x, j + 1, n);
    }
  }

  // ---------------------------------------------------------------- masks on the wire

  /** The builder's /8, /16 and /24 masks pass the mask check of `disassemble`. */
  lemma WholeOctetMasksAccepted()
    ensures IsLowOnes(Swap32(HostMask(8))) && IsLowOnes(Swap32(HostMask(16)))
    ensures IsLowOnes(Swap32(HostMask(24)))
  {
    Pow2Values();
    assert Swap32(0xFF00_0000) == Pow2(8) - 1;
    assert Swap32(0xFFFF_0000) == Pow2(16) - 1;
    assert Swap32(0xFFFF_FF00) == Pow2(24) - 1;
  }

  /** The mask check runs on the value loaded little-endian, so the builder's /25
      mask (octets 255.255.255.128) is rejected by a peer running the same code. */
  lemma Slash25MaskRejected()
    ensures Swap32(HostMask(25)) == 0x80FF_FFFF
    ensures !IsLowOnes(Swap32(HostMask(25)))
  {
    Pow2Values();
    var m := Swap32(HostMask(25));
    assert HostMask(25) == 0xFFFF_FF80;
    assert m == 0x80FF_FFFF;
    assert Pow2(31) == 0x8000_0000;
    assert Bit(m, 24) == 0;
    assert Bit(m, 31) == 1;
    NotLowOnes(m, 24, 31);
  }

  /** The builder's /20 mask (255.255.240.0) is rejected too. */
  lemma Slash20MaskRejected()
    ensures Swap32(HostMask(20)) == 0x00F0_FFFF
    ensures !IsLowOnes(Swap32(HostMask(20)))
  {
    Pow2Values();
    assert HostMask(20) == 0xFFFF_F000;
    var m := Swap32(0xFFFF_F000);
    assert m == 0x00F0_FFFF;
    assert Pow2(20) == 0x10_0000;
    assert Bit(m, 16) == 0;
    assert Bit(m, 20) == 1;
    NotLowOnes(m, 16, 20);
  }

  /** A network-order mask such as 0.0.0.255 (loaded value 0xFF000000) fails the
      check, while 255.0.0.0 passes; the check is not on the host-order value. The
      zero mask passes. */
  lemma MaskCheckByteOrder()
    ensures IsLowOnes(0x0000_00FF) && !IsLowOnes(0xFF00_0000)
    ensures IsLowOnes(0)
  {
    Pow2Values();
    assert 0 == Pow2(0) - 1;
    assert 0x0000_00FF == Pow2(8) - 1;
    assert Pow2(31) == 0x8000_0000;
    assert Bit(0xFF00_0000, 0) == 0;
    assert Bit(0xFF00_0000, 31) == 1;
    NotLowOnes(0xFF00_0000, 0, 31);
  }

  // ---------------------------------------------------------------- response handling

  /** The route a received entry proposes: its address, the derived length, the
      receiving interface, the sender as next hop and the raw received metric. */
  function Candidate(e: RipEntry, ifIndex: u32, src: u32): (t: RouteEntry)
    ensures t.len <= 32 && (e.mask != 0 <==> 1 <= t.len)
  {
    PrefixLenZero(e.mask);
    RouteEntry(e.addr, PrefixLen(e.mask), ifIndex, src, e.metric)
  }

  /** One received entry: withdraw the candidate's prefix if the raw metric exceeds
      0x10000000; then insert the candidate if no route covers its address, or if
      the covering route `query` reports has a larger raw metric. */
  function ReconcileEntry(s: seq<RouteEntry>, e: RipEntry, ifIndex: u32, src: u32): (r: seq<RouteEntry>)
    requires LensValid(s) && e.mask != 0
    ensures LensValid(r)
    ensures KeysUnique(s) ==> KeysUnique(r)
  {
    var cand := Candidate(e, ifIndex, src);
    var s1 := if e.metric > WITHDRAW_ABOVE then Updated(s, false, cand) else s;
    UpdateKeepsLensValid(s, false, cand);
    UpdateKeepsLensValid(s1, true, cand);
    UniqueAfterUpdate(s, false, cand);
    UniqueAfterUpdate(s1, true, cand);
    match BestIndex(s1, e.addr)
    case Some(k) => if e.metric < s1[k].metric then Updated(s1, true, cand) else s1
    case None => Updated(s1, true, cand)
  }

  lemma UniqueAfterUpdate(s: seq<RouteEntry>, insert: bool, e: RouteEntry)
    ensures KeysUnique(s) ==> KeysUnique(Updated(s, insert, e))
  {
    if KeysUnique(s) {
      if insert { UpdateInserts(s, e); } else { UpdateDeletes(s, e); }
    }
  }

  /** Every entry carries a non-zero mask. */
  predicate MasksNonZero(es: seq<RipEntry>)
  {
    forall i | 0 <= i < |es| :: es[i].mask != 0
  }

  /** The entries of a response, handled in order. */
  function Reconcile(s: seq<RouteEntry>, es: seq<RipEntry>, ifIndex: u32, src: u32): (r: seq<RouteEntry>)
    requires LensValid(s) && MasksNonZero(es)
    ensures LensValid(r)
    ensures KeysUnique(s) ==> KeysUnique(r)
  {
    if |es| == 0 then s
    else ReconcileEntry(Reconcile(s, es[..|es| - 1], ifIndex, src), es[|es| - 1], ifIndex, src)
  }

  /** Handling one more entry of a response. */
  lemma ReconcileStep(s: seq<RouteEntry>, es: seq<RipEntry>, i: nat, ifIndex: u32, src: u32)
    requires LensValid(s) && i < |es| && MasksNonZero(es)
    ensures MasksNonZero(es[..i]) && MasksNonZero(es[..i + 1])
    ensures Reconcile(s, es[..i + 1], ifIndex, src) ==
              ReconcileEntry(Reconcile(s, es[..i], ifIndex, src), es[i], ifIndex, src)
  {
    assert es[..i + 1][..i] == es[..i];
  }

  /** The response handler's loop over the first `numEntries` entries. */
  method ProcessResponse(table: RoutingTable, rip: RipPacket, ifIndex: u32, srcAddr: u32)
    requires rip.numEntries <= |rip.entries|
    requires LensValid(table.entries)
    requires forall i | 0 <= i < rip.numEntries :: rip.entries[i].mask != 0
    modifies table
    ensures table.entries == Reconcile(old(table.entries), rip.entries[..rip.numEntries], ifIndex, srcAddr)
  {
    var count := rip.numEntries;
    ghost var s0 := table.entries;
    ghost var es := rip.entries[..count];
    assert MasksNonZero(es);
    for i := 0 to count
      invariant LensValid(table.entries)
      invariant MasksNonZero(es[..i])
      invariant table.entries == Reconcile(s0, es[..i], ifIndex, srcAddr)
    {
      ReconcileStep(s0, es, i, ifIndex, srcAddr);
      assert rip.entries[i] == es[i];
      HandleEntry(table, rip.entries[i], ifIndex, srcAddr);
    }
    assert es[..count] == es;
  }

  /** The body of the response handler's loop, for one entry. */
  method HandleEntry(table: RoutingTable, e: RipEntry, ifIndex: u32, srcAddr: u32)
    requires LensValid(table.entries) && e.mask != 0
    modifies table
    ensures table.entries == ReconcileEntry(old(table.entries), e, ifIndex, srcAddr)
  {
    ghost var s := table.entries;
    var len := PrefixLenOf(e.mask);
    var tableEntry := RouteEntry(e.addr, len, ifIndex, srcAddr, e.metric);
    assert tableEntry == Candidate(e, ifIndex, srcAddr);
    if e.metric > WITHDRAW_ABOVE {
      table.Update(false, tableEntry);
    }
    ghost var s1 := table.entries;
    assert s1 == if e.metric > WITHDRAW_ABOVE then Updated(s, false, tableEntry) else s;
    UpdateKeepsLensValid(s, false, tableEntry);
    // the metric out-parameter is only read on a hit, where `query` sets it
    var found, nexthop, destIf, metric := table.Query(e.addr, 0);
    ghost var r := ReconcileEntry(s, e, ifIndex, srcAddr);
    if found {
      assert metric == s1[BestIndex(s1, e.addr).value].metric;
      if e.metric < metric {
        table.Update(true, tableEntry);
        assert r == Updated(s1, true, tableEntry);
      } else {
        assert r == s1;
      }
    } else {
      table.Update(true, tableEntry);
      assert r == Updated(s1, true, tableEntry);
    }
  }

  // ---------------------------------------------------------------- what the handler does

  /** A metric `disassemble` accepts (host order 1..16) is at most 0x10000000 raw,
      so the withdrawal branch never runs for a checked message; the RIP infinity 16
      is exactly 0x10000000. */
  lemma AcceptedMetricNeverWithdraws(m: u32)
    requires 1 <= Swap32(m) <= 16
    ensures m <= WITHDRAW_ABOVE
    ensures Swap32(m) == 16 ==> m == WITHDRAW_ABOVE
  {
    Swap32Involutive(m);
    Swap32Small(Swap32(m));
  }

  /** Comparing raw network-order metrics agrees with comparing host metrics as long
      as both are below 256, which holds for every metric the router stores. */
  lemma RawMetricOrder(a: u32, b: u32)
    requires Swap32(a) < 0x100 && Swap32(b) < 0x100
    ensures a < b <==> Swap32(a) < Swap32(b)
  {
    Swap32Involutive(a);
    Swap32Involutive(b);
    Swap32Small(Swap32(a));
    Swap32Small(Swap32(b));
  }

  /** A route to an address nothing covers is learned: appended at the end. */
  lemma NewRouteLearned(s: seq<RouteEntry>, e: RipEntry, ifIndex: u32, src: u32)
    requires LensValid(s) && KeysUnique(s) && e.mask != 0 && e.metric <= WITHDRAW_ABOVE
    requires forall i | 0 <= i < |s| :: !Matches(s[i], e.addr)
    ensures ReconcileEntry(s, e, ifIndex, src) == s + [Candidate(e, ifIndex, src)]
  {
    var cand := Candidate(e, ifIndex, src);
    BestIndexSpec(s, e.addr);
    assert Updated(s, true, cand) == Removed(s, cand) + [cand];
  }

  /** A strictly smaller raw metric than that of the covering route replaces the
      route for the candidate's prefix: the candidate becomes the only route for it. */
  lemma BetterRouteAccepted(s: seq<RouteEntry>, e: RipEntry, ifIndex: u32, src: u32)
    requires LensValid(s) && KeysUnique(s) && e.mask != 0 && e.metric <= WITHDRAW_ABOVE
    requires BestIndex(s, e.addr).Some? && e.metric < s[BestIndex(s, e.addr).value].metric
    ensures var r := ReconcileEntry(s, e, ifIndex, src);
            && r[|r| - 1] == Candidate(e, ifIndex, src)
            && forall x | x in r && SameKey(x, Candidate(e, ifIndex, src)) :: x == Candidate(e, ifIndex, src)
  {
    UpdateInserts(s, Candidate(e, ifIndex, src));
  }

  /** An entry whose raw metric is not smaller than the covering route's changes
      nothing. */
  lemma WorseRouteIgnored(s: seq<RouteEntry>, e: RipEntry, ifIndex: u32, src: u32)
    requires LensValid(s) && e.mask != 0 && e.metric <= WITHDRAW_ABOVE
    requires BestIndex(s, e.addr).Some? && e.metric >= s[BestIndex(s, e.addr).value].metric
    ensures ReconcileEntry(s, e, ifIndex, src) == s
  {
  }

  /** The withdrawal is undone: when, after removing the candidate's prefix, no route
      covers its address, the same candidate is inserted again at once. */
  lemma WithdrawnRouteReinserted(s: seq<RouteEntry>, e: RipEntry, ifIndex: u32, src: u32)
    requires LensValid(s) && KeysUnique(s) && e.mask != 0 && e.metric > WITHDRAW_ABOVE
    requires var s1 := Updated(s, false, Candidate(e, ifIndex, src));
             LensValid(s1) && forall i | 0 <= i < |s1| :: !Matches(s1[i], e.addr)
    ensures var cand := Candidate(e, ifIndex, src);
            ReconcileEntry(s, e, ifIndex, src) == Updated(s, false, cand) + [cand]
  {
    var cand := Candidate(e, ifIndex, src);
    var s1 := Updated(s, false, cand);
    BestIndexSpec(s1, e.addr);
    UpdateDeletes(s, cand);
    assert forall i | 0 <= i < |s1| :: !SameKey(s1[i], cand) by {
      forall i | 0 <= i < |s1| ensures !SameKey(s1[i], cand) {
        assert s1[i] in s1;
      }
    }
    assert Updated(s1, true, cand) == Removed(s1, cand) + [cand];
  }

  /** On an empty table a withdrawal (raw metric above 0x10000000) does not leave
      the table empty: the route it withdraws is learned. */
  lemma WithdrawIntoEmpty(e: RipEntry, ifIndex: u32, src: u32)
    requires e.mask != 0 && e.metric > WITHDRAW_ABOVE
    ensures ReconcileEntry([], e, ifIndex, src) == [Candidate(e, ifIndex, src)]
  {
    var cand := Candidate(e, ifIndex, src);
    assert Updated([], false, cand) == [];
    WithdrawnRouteReinserted([], e, ifIndex, src);
  }

  /** A neighbour's route is learned: after start-up with one interface, a response
      entry for an address outside that interface's /24 network, with an acceptable
      metric, is appended behind the direct route, keeping its raw metric. */
  lemma NeighbourRouteLearned(ifAddr: u32, e: RipEntry, ifIndex: u32, src: u32)
    requires e.mask != 0 && e.metric <= WITHDRAW_ABOVE
    requires Le32(e.addr)[..3] != Le32(ifAddr)[..3]
    ensures ReconcileEntry(Seeded([], [ifAddr]), e, ifIndex, src)
              == [DirectRoute(ifAddr, 0), Candidate(e, ifIndex, src)]
  {
    var d := DirectRoute(ifAddr, 0);
    SeededOne(ifAddr);
    DirectRouteOctets(ifAddr, 0);
    MatchesSlash24(d, e.addr);
    assert !Matches(d, e.addr);
    NewRouteLearned([d], e, ifIndex, src);
  }

  /** Start-up with a single interface gives its direct route alone. */
  lemma SeededOne(ifAddr: u32)
    ensures Seeded([], [ifAddr]) == [DirectRoute(ifAddr, 0)]
  {
    SeededFromEmpty([ifAddr]);
  }
}
