/** The routing table: insertion and deletion keyed by (addr, len), longest-prefix
    lookup, and the RIP response built from the table for one interface. */
module Lookup {
  import opened Bytes
  import opened Protocol

  /** One route. `addr` and `nexthop` are kept in wire order (see module Bytes),
      `len` and `ifIndex` are plain numbers, `metric` is whatever the caller stored
      (the reconciler stores the raw network-order RIP metric). `nexthop == 0` is a
      directly connected route. */
  datatype RouteEntry = RouteEntry(addr: u32, len: u32, ifIndex: u32, nexthop: u32, metric: u32)

  /** Two routes for the same prefix: `update` matches on addr and len only. */
  predicate SameKey(a: RouteEntry, b: RouteEntry)
  {
    a.addr == b.addr && a.len == b.len
  }

  /** No two routes of the table are for the same prefix. */
  predicate KeysUnique(s: seq<RouteEntry>)
  {
    forall i, j | 0 <= i < j < |s| :: !SameKey(s[i], s[j])
  }

  /** Every prefix length is one `query` can shift by without undefined behaviour. */
  predicate LensValid(s: seq<RouteEntry>)
  {
    forall i | 0 <= i < |s| :: 1 <= s[i].len <= 32
  }

  // ---------------------------------------------------------------- update

  /** The first position holding a route for e's prefix. */
  function FindKey(s: seq<RouteEntry>, e: RouteEntry): (r: Option<nat>)
    ensures r.None? <==> forall i | 0 <= i < |s| :: !SameKey(s[i], e)
    ensures r.Some? ==>
              && r.value < |s| && SameKey(s[r.value], e)
              && forall i | 0 <= i < r.value :: !SameKey(s[i], e)
  {
    if |s| == 0 then None
    else if SameKey(s[0], e) then Some(0)
    else
      match FindKey(s[1..], e)
      case None => None
      case Some(k) => Some(k + 1)
  }

  /** The table with the first route for e's prefix erased, if there is one. */
  function Removed(s: seq<RouteEntry>, e: RouteEntry): (r: seq<RouteEntry>)
    ensures forall x | x in r :: x in s
    ensures forall x | x in s && !SameKey(x, e) :: x in r
    ensures (forall i | 0 <= i < |s| :: !SameKey(s[i], e)) ==> r == s
    ensures KeysUnique(s) ==> KeysUnique(r) && forall x | x in r :: !SameKey(x, e)
    ensures |s| - 1 <= |r| <= |s|
  {
    match FindKey(s, e)
    case None => s
    case Some(k) =>
      EraseAt(s, k, e);
      s[..k] + s[k + 1..]
  }

  /** Erasing position k, which holds a route for e's prefix. */
  lemma EraseAt(s: seq<RouteEntry>, k: nat, e: RouteEntry)
    requires k < |s| && SameKey(s[k], e)
    ensures var r := s[..k] + s[k + 1..];
            && (forall x | x in r :: x in s)
            && (forall x | x in s && !SameKey(x, e) :: x in r)
            && (KeysUnique(s) ==> KeysUnique(r) && forall x | x in r :: !SameKey(x, e))
  {
    var r := s[..k] + s[k + 1..];
    assert forall i | 0 <= i < |r| :: r[i] == if i < k then s[i] else s[i + 1];
    forall x | x in s && !SameKey(x, e) ensures x in r {
      var i :| 0 <= i < |s| && s[i] == x;
      if i < k { assert r[i] == x; } else { assert r[i - 1] == x; }
    }
    if KeysUnique(s) {
      forall x | x in r ensures !SameKey(x, e) {
        var i :| 0 <= i < |r| && r[i] == x;
      }
    }
  }

  /** The table after `update(insert, e)`: the old route for e's prefix erased,
      then e appended at the end when inserting. */
  function Updated(s: seq<RouteEntry>, insert: bool, e: RouteEntry): (r: seq<RouteEntry>)
    ensures insert ==> |r| > 0 && r[|r| - 1] == e
    ensures forall x | x in r :: x in s || (insert && x == e)
    ensures forall x | x in s && !SameKey(x, e) :: x in r
    ensures |r| <= |s| + 1 && (!insert ==> |r| <= |s|)
  {
    Removed(s, e) + if insert then [e] else []
  }

  /** An insertion leaves exactly one route for the prefix, e, at the end; every
      route for another prefix survives, and nothing else is added. */
  lemma UpdateInserts(s: seq<RouteEntry>, e: RouteEntry)
    requires KeysUnique(s)
    ensures var r := Updated(s, true, e);
            && KeysUnique(r) && |r| > 0 && r[|r| - 1] == e
            && (forall x | x in r && SameKey(x, e) :: x == e)
            && (forall x | x in s && !SameKey(x, e) :: x in r)
            && (forall x | x in r :: x in s || x == e)
  {
    var d := Removed(s, e);
    var r := d + [e];
    forall i, j | 0 <= i < j < |r| ensures !SameKey(r[i], r[j]) {
      if j == |d| { assert r[i] in d; }
    }
  }

  /** Inserting a prefix the table does not have appends the route and changes
      nothing else. */
  lemma UpdateAppends(s: seq<RouteEntry>, e: RouteEntry)
    requires KeysUnique(s) && forall i | 0 <= i < |s| :: !SameKey(s[i], e)
    ensures Updated(s, true, e) == s + [e] && KeysUnique(s + [e])
  {
    assert Removed(s, e) == s;
    UpdateInserts(s, e);
  }

  /** A deletion leaves no route for the prefix and keeps every other route. */
  lemma UpdateDeletes(s: seq<RouteEntry>, e: RouteEntry)
    requires KeysUnique(s)
    ensures var r := Updated(s, false, e);
            && KeysUnique(r)
            && (forall x | x in r :: x in s && !SameKey(x, e))
            && (forall x | x in s && !SameKey(x, e) :: x in r)
  {
    assert Updated(s, false, e) == Removed(s, e);
  }

  /** `update` erases the first route for e's prefix and keeps the others in their
      order. */
  lemma UpdateErasesFirst(s: seq<RouteEntry>, insert: bool, e: RouteEntry, k: nat)
    requires k < |s| && SameKey(s[k], e) && forall i | 0 <= i < k :: !SameKey(s[i], e)
    ensures Updated(s, insert, e) == s[..k] + s[k + 1..] + if insert then [e] else []
  {
    assert FindKey(s, e) == Some(k);
  }

  /** Deleting a prefix the table does not hold changes nothing. */
  lemma DeleteMissingIsNoOp(s: seq<RouteEntry>, e: RouteEntry)
    requires forall x | x in s :: !SameKey(x, e)
    ensures Updated(s, false, e) == s
  {
    assert Updated(s, false, e) == Removed(s, e);
  }

  /** Inserting keeps every prefix length in range when e's is. */
  lemma UpdateKeepsLensValid(s: seq<RouteEntry>, insert: bool, e: RouteEntry)
    requires LensValid(s) && (insert ==> 1 <= e.len <= 32)
    ensures LensValid(Updated(s, insert, e))
  {
    var r := Updated(s, insert, e);
    forall i | 0 <= i < |r| ensures 1 <= r[i].len <= 32 {
      assert r[i] in r;
      if r[i] != e || !insert {
        assert r[i] in Removed(s, e);
        var j :| 0 <= j < |s| && s[j] == r[i];
      }
    }
  }

  // ---------------------------------------------------------------- query

  /** `(ntohl(addr) >> (32 - len)) == (ntohl(t.addr) >> (32 - len))`: the top len
      bits of the destination, in host order, are those of the route's prefix. */
  predicate Matches(t: RouteEntry, addr: u32)
    requires 1 <= t.len <= 32
  {
    Shr(Swap32(addr), 32 - t.len) == Shr(Swap32(t.addr), 32 - t.len)
  }

  /** Longest-prefix selection over the first n positions, scanning in order and
      replacing the current choice only by a strictly longer hit. */
  function Longest(hits: seq<bool>, lens: seq<nat>, n: nat): (r: Option<nat>)
    requires n <= |hits| == |lens|
    ensures r.Some? ==> r.value < n && hits[r.value]
  {
    if n == 0 then None
    else
      var r := Longest(hits, lens, n - 1);
      if hits[n - 1] && (r.None? || lens[r.value] < lens[n - 1]) then Some(n - 1) else r
  }

  /** What the scan selects: nothing exactly when nothing hits; otherwise a hit
      with the greatest length, and of those the earliest. */
  lemma {:induction false} LongestSpec(hits: seq<bool>, lens: seq<nat>, n: nat)
    requires n <= |hits| == |lens|
    ensures var r := Longest(hits, lens, n);
            && (r.None? <==> forall i | 0 <= i < n :: !hits[i])
            && (r.Some? ==>
                  && (forall i | 0 <= i < n && hits[i] :: lens[i] <= lens[r.value])
                  && (forall i | 0 <= i < r.value && hits[i] :: lens[i] < lens[r.value]))
  {
    if n > 0 {
      LongestSpec(hits, lens, n - 1);
    }
  }

  /** One more position scanned. */
  lemma LongestStep(hits: seq<bool>, lens: seq<nat>, i: nat)
    requires i < |hits| == |lens|
    ensures Longest(hits, lens, i + 1) ==
              var r := Longest(hits, lens, i);
              if hits[i] && (r.None? || lens[r.value] < lens[i]) then Some(i) else r
  {
  }

  /** Which routes match addr. */
  function Hits(s: seq<RouteEntry>, addr: u32): (h: seq<bool>)
    requires LensValid(s)
    ensures |h| == |s| && forall i | 0 <= i < |s| :: h[i] == Matches(s[i], addr)
  {
    seq(|s|, i requires 0 <= i < |s| => Matches(s[i], addr))
  }

  /** The prefix lengths of the routes. */
  function Lens(s: seq<RouteEntry>): (l: seq<nat>)
    ensures |l| == |s| && forall i | 0 <= i < |s| :: l[i] == s[i].len
  {
    seq(|s|, i requires 0 <= i < |s| => s[i].len)
  }

  /** The route `query` reports for addr. */
  function BestIndex(s: seq<RouteEntry>, addr: u32): (r: Option<nat>)
    requires LensValid(s)
    ensures r.Some? ==> r.value < |s| && Matches(s[r.value], addr)
  {
    Longest(Hits(s, addr), Lens(s), |s|)
  }

  /** Longest-prefix match: no route is reported exactly when no route matches;
      otherwise the reported route matches, no matching route is longer, and every
      matching route before it is strictly shorter. */
  lemma BestIndexSpec(s: seq<RouteEntry>, addr: u32)
    requires LensValid(s)
    ensures var r := BestIndex(s, addr);
            && (r.None? <==> forall i | 0 <= i < |s| :: !Matches(s[i], addr))
            && (r.Some? ==>
                  && (forall i | 0 <= i < |s| && Matches(s[i], addr) :: s[i].len <= s[r.value].len)
                  && (forall i | 0 <= i < r.value && Matches(s[i], addr) :: s[i].len < s[r.value].len))
  {
    var h, l := Hits(s, addr), Lens(s);
    LongestSpec(h, l, |s|);
    var r := BestIndex(s, addr);
    if r.None? {
      forall i | 0 <= i < |s| ensures !Matches(s[i], addr) {
        assert !h[i];
      }
    } else {
      forall i | 0 <= i < |s| && Matches(s[i], addr) ensures s[i].len <= s[r.value].len {
        assert h[i];
      }
      forall i | 0 <= i < r.value && Matches(s[i], addr) ensures s[i].len < s[r.value].len {
        assert h[i];
      }
    }
  }

  // ---------------------------------------------------------------- response

  /** The mask the builder computes in host order, `((1 << len) - 1) << (32 - len)`
      truncated to 32 bits: len one bits followed by 32 - len zero bits. */
  function HostMask(len: nat): (m: u32)
    requires 1 <= len <= 31
    ensures m == (Pow2(len) - 1) * Pow2(32 - len)
  {
    HostMaskFits(len);
    ((Pow2(len) - 1) * Pow2(32 - len)) % 0x1_0000_0000
  }

  /** (2^len - 1) * 2^(32 - len) is below 2^32, so the truncation loses no bit. */
  lemma HostMaskFits(len: nat)
    requires 1 <= len <= 31
    ensures ((Pow2(len) - 1) * Pow2(32 - len)) % 0x1_0000_0000 == (Pow2(len) - 1) * Pow2(32 - len)
  {
    var a: nat, b: nat := Pow2(len), Pow2(32 - len);
    var h := (a - 1) * b;
    assert h == a * b - b;
    Pow2Add(len, 32 - len);
    Pow2Values();
    assert h < 0x1_0000_0000;
    DivModUnique(h, 0x1_0000_0000, 0, h);
  }

  /** The RIP entry advertised for a route: its prefix, the mask in network order,
      its next hop and its stored metric plus `0x01000000` (one hop in network order),
      wrapping at 2^32. */
  function Advertise(t: RouteEntry): (r: RipEntry)
    requires 1 <= t.len <= 31
    ensures r.addr == t.addr && r.nexthop == t.nexthop
    ensures Swap32(r.mask) == HostMask(t.len)
    ensures Swap32(t.metric) < 255 ==> Swap32(r.metric) == Swap32(t.metric) + 1
  {
    Swap32Involutive(HostMask(t.len));
    OneHopMore(t.metric);
    RipEntry(t.addr, Swap32(HostMask(t.len)), t.nexthop, (t.metric + 0x0100_0000) % 0x1_0000_0000)
  }

  /** Every route not learned on ifIndex has a length the builder can shift by. */
  predicate AdvertisableFor(s: seq<RouteEntry>, ifIndex: u32)
  {
    forall i | 0 <= i < |s| :: s[i].ifIndex != ifIndex ==> 1 <= s[i].len <= 31
  }

  /** The entries advertised on ifIndex, in table order: every route except those
      using ifIndex itself (split horizon). */
  function Advertised(s: seq<RouteEntry>, ifIndex: u32): (r: seq<RipEntry>)
    requires AdvertisableFor(s, ifIndex)
    ensures |r| <= |s|
    ensures (forall i | 0 <= i < |s| :: s[i].ifIndex != ifIndex) ==> |r| == |s|
  {
    if |s| == 0 then []
    else
      var init := s[..|s| - 1];
      assert forall i | 0 <= i < |init| :: init[i] == s[i];
      var last := s[|s| - 1];
      var r := Advertised(init, ifIndex);
      if last.ifIndex == ifIndex then r else r + [Advertise(last)]
  }

  /** Split horizon, both ways: every route not using ifIndex is advertised, and
      every advertised entry comes from such a route. */
  lemma {:induction false} AdvertisedContents(s: seq<RouteEntry>, ifIndex: u32)
    requires AdvertisableFor(s, ifIndex)
    ensures forall i | 0 <= i < |s| && s[i].ifIndex != ifIndex :: Advertise(s[i]) in Advertised(s, ifIndex)
    ensures forall x | x in Advertised(s, ifIndex) ::
              exists i | 0 <= i < |s| :: s[i].ifIndex != ifIndex && x == Advertise(s[i])
  {
    if |s| > 0 {
      var init := s[..|s| - 1];
      assert forall i | 0 <= i < |init| :: init[i] == s[i];
      AdvertisedContents(init, ifIndex);
      var r := Advertised(init, ifIndex);
      var last := s[|s| - 1];
      if last.ifIndex != ifIndex {
        assert forall x | x in r + [Advertise(last)] :: x in r || x == Advertise(last);
      }
    }
  }

  /** The response for ifIndex with the entry count it should carry: the number of
      entries actually advertised. */
  function Response(s: seq<RouteEntry>, ifIndex: u32): (resp: RipPacket)
    requires AdvertisableFor(s, ifIndex) && |Advertised(s, ifIndex)| <= RIP_MAX_ENTRY
    ensures resp.command == 2 && resp.entries == Advertised(s, ifIndex)
    ensures resp.numEntries == |resp.entries| <= RIP_MAX_ENTRY
  {
    var es := Advertised(s, ifIndex);
    RipPacket(|es|, 2, es)
  }

  /** The response as `buidRipPacket` fills it: the entry count is the size of the
      whole table, including the routes split horizon suppressed. */
  function ResponseAsWritten(s: seq<RouteEntry>, ifIndex: u32): (resp: RipPacket)
    requires AdvertisableFor(s, ifIndex) && |s| < 0x1_0000_0000
    ensures resp.command == 2 && resp.entries == Advertised(s, ifIndex)
    ensures resp.numEntries == |s|
  {
    RipPacket(|s|, 2, Advertised(s, ifIndex))
  }

  /** The as-written count agrees with the entries only when no route uses ifIndex:
      otherwise the response claims more entries than were filled in. */
  lemma AsWrittenCountWrong(s: seq<RouteEntry>, ifIndex: u32, k: nat)
    requires AdvertisableFor(s, ifIndex) && |s| < 0x1_0000_0000
    requires k < |s| && s[k].ifIndex == ifIndex
    ensures ResponseAsWritten(s, ifIndex).numEntries > |ResponseAsWritten(s, ifIndex).entries|
  {
    AdvertisedSkips(s, ifIndex, k);
  }

  /** The number of routes learned on ifIndex. */
  function RoutesOn(s: seq<RouteEntry>, ifIndex: u32): (c: nat)
    ensures c <= |s|
  {
    if |s| == 0 then 0
    else RoutesOn(s[..|s| - 1], ifIndex) + if s[|s| - 1].ifIndex == ifIndex then 1 else 0
  }

  /** The response has one entry per route not on ifIndex: the table size less the
      routes split horizon suppresses. */
  lemma {:induction false} AdvertisedCount(s: seq<RouteEntry>, ifIndex: u32)
    requires AdvertisableFor(s, ifIndex)
    ensures |Advertised(s, ifIndex)| == |s| - RoutesOn(s, ifIndex)
  {
    if |s| > 0 {
      var init := s[..|s| - 1];
      assert forall i | 0 <= i < |init| :: init[i] == s[i];
      AdvertisedCount(init, ifIndex);
    }
  }

  /** A route on ifIndex costs the response one entry. */
  lemma {:induction false} AdvertisedSkips(s: seq<RouteEntry>, ifIndex: u32, k: nat)
    requires AdvertisableFor(s, ifIndex)
    requires k < |s| && s[k].ifIndex == ifIndex
    ensures |Advertised(s, ifIndex)| < |s|
    decreases |s|
  {
    var init := s[..|s| - 1];
    assert forall i | 0 <= i < |init| :: init[i] == s[i];
    if k < |s| - 1 {
      AdvertisedSkips(init, ifIndex, k);
    }
  }

  /** The concrete case: one direct route on interface 0, response built for
      interface 0. The count says 1, no entry was filled in, and the message is
      not one `disassemble` would produce. */
  lemma AsWrittenCountExample()
    ensures var s := [RouteEntry(0x0003_000a, 24, 0, 0, 0)];
            && ResponseAsWritten(s, 0).numEntries == 1
            && ResponseAsWritten(s, 0).entries == []
            && !WellFormed(ResponseAsWritten(s, 0))
            && Response(s, 0).numEntries == 0
  {
  }

  /** `metric + 0x01000000` is one more hop in host order, for any host metric
      below 255. */
  lemma OneHopMore(metric: u32)
    ensures Swap32(metric) < 255 ==>
              Swap32((metric + 0x0100_0000) % 0x1_0000_0000) == Swap32(metric) + 1
  {
    var h := Swap32(metric);
    if h < 255 {
      Swap32Involutive(metric);
      Swap32Small(h);
      assert metric == h * 0x100_0000;
      var m := (metric + 0x0100_0000) % 0x1_0000_0000;
      assert metric + 0x0100_0000 == (h + 1) * 0x100_0000 < 0x1_0000_0000;
      assert m == (h + 1) * 0x100_0000;
      Swap32Small(h + 1);
    }
  }

  /** One more route scanned by the builder. */
  lemma AdvertisedStep(s: seq<RouteEntry>, i: nat, ifIndex: u32)
    requires AdvertisableFor(s, ifIndex) && i < |s|
    ensures AdvertisableFor(s[..i], ifIndex) && AdvertisableFor(s[..i + 1], ifIndex)
    ensures Advertised(s[..i + 1], ifIndex) ==
              Advertised(s[..i], ifIndex) + if s[i].ifIndex == ifIndex then [] else [Advertise(s[i])]
  {
    assert s[..i + 1][..i] == s[..i];
  }

  // ---------------------------------------------------------------- the table object

  /** The global `RouteTable` vector of lookup.cpp. */
  class RoutingTable {
    var entries: seq<RouteEntry>

    constructor ()
      ensures entries == []
    {
      entries := [];
    }

    /** `update`: erase the first route for entry's prefix, then append entry when
        inserting. */
    method Update(insert: bool, entry: RouteEntry)
      modifies this
      ensures entries == Updated(old(entries), insert, entry)
    {
      var i := 0;
      while i < |entries| && !SameKey(entries[i], entry)
        invariant 0 <= i <= |entries|
        invariant forall k | 0 <= k < i :: !SameKey(entries[k], entry)
      {
        i := i + 1;
      }
      if i < |entries| {
        assert FindKey(entries, entry) == Some(i);
        entries := entries[..i] + entries[i + 1..];
      }
      if insert {
        entries := entries + [entry];
      }
    }

    /** `query`: on a hit the next hop, interface and metric of the longest matching
        route; on a miss next hop and interface are 0 and the metric is left as the
        caller had it (metric0). */
    method Query(addr: u32, metric0: u32) returns (found: bool, nexthop: u32, ifIndex: u32, metric: u32)
      requires LensValid(entries)
      ensures found <==> exists i | 0 <= i < |entries| :: Matches(entries[i], addr)
      ensures match BestIndex(entries, addr)
              case Some(k) =>
                found && nexthop == entries[k].nexthop && ifIndex == entries[k].ifIndex
                && metric == entries[k].metric
              case None => !found && nexthop == 0 && ifIndex == 0 && metric == metric0
    {
      var s := entries;
      nexthop, ifIndex, metric := 0, 0, metric0;
      found := false;
      var maxlen: u32 := 0;
      var laddr := Swap32(addr);
      ghost var hits, lens := Hits(s, addr), Lens(s);
      for i := 0 to |s|
        invariant found == Longest(hits, lens, i).Some?
        invariant match Longest(hits, lens, i)
                  case Some(k) =>
                    k < i && maxlen == s[k].len && nexthop == s[k].nexthop
                    && ifIndex == s[k].ifIndex && metric == s[k].metric
                  case None => maxlen == 0 && nexthop == 0 && ifIndex == 0 && metric == metric0
      {
        var t := s[i];
        var tmp := Swap32(t.addr);
        var mov := 32 - t.len;
        var hit := Shr(laddr, mov) == Shr(tmp, mov);
        ghost var prev := Longest(hits, lens, i);
        assert hit == hits[i] && t.len == lens[i];
        assert prev.Some? ==> maxlen == lens[prev.value];
        LongestStep(hits, lens, i);
        if hit {
          found := true;
          if maxlen < t.len {
            maxlen := t.len;
            nexthop := t.nexthop;
            ifIndex := t.ifIndex;
            metric := t.metric;
          }
        }
      }
      BestIndexSpec(s, addr);
    }

    /** `buidRipPacket`, with the entry count corrected to the number of entries
        filled in. */
    method BuildRipPacket(ifIndex: u32) returns (resp: RipPacket)
      requires AdvertisableFor(entries, ifIndex) && |Advertised(entries, ifIndex)| <= RIP_MAX_ENTRY
      ensures resp == Response(entries, ifIndex)
    {
      var s := entries;
      var es: seq<RipEntry> := [];
      for i := 0 to |s|
        invariant AdvertisableFor(s[..i], ifIndex)
        invariant es == Advertised(s[..i], ifIndex)
      {
        AdvertisedStep(s, i, ifIndex);
        var t := s[i];
        if t.ifIndex == ifIndex {
          continue;
        }
        es := es + [Advertise(t)];
      }
      assert s[..|s|] == s;
      resp := RipPacket(|es|, 2, es);
    }
  }
}
