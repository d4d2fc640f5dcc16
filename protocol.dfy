/** The RIPv2 wire codec (sections 3.6 and 4 of RFC 2453): `disassemble` checks and
    loads a RIP message that sits after the IPv4 and UDP headers of a received
    datagram, `assemble` writes the 4-byte RIP header and 20 bytes per entry.
    Every 32-bit field is kept as the word loaded little-endian from its wire bytes. */
module Protocol {
  import opened Bytes

  const RIP_MAX_ENTRY := 25

  /** One route in a RIP message; every field is the little-endian-loaded wire word.
      Family and tag are not stored. */
  datatype RipEntry = RipEntry(addr: u32, mask: u32, nexthop: u32, metric: u32)

  /** `numEntries`, `command` and the entries; version and the zero field are not stored. */
  datatype RipPacket = RipPacket(numEntries: u32, command: byte, entries: seq<RipEntry>)

  // ---------------------------------------------------------------- disassemble

  /** Where the RIP header starts: `headlength = 4 * (packet[0] & 0xf) + 8`. */
  function RipOffset(p: seq<byte>): (off: nat)
    requires |p| >= 1
    ensures 8 <= off <= 68
  {
    4 * (p[0] % 16) + 8
  }

  /** The IPv4 Total Length field, bytes 2-3 taken big-endian. */
  function TotalLength(p: seq<byte>): nat
    requires |p| >= 4
  {
    var hi: int, lo: int := p[2], p[3];
    hi * 0x100 + lo
  }

  /** `(len - headlength - 4) / 20` in 32-bit unsigned arithmetic. */
  function EntryCount(p: seq<byte>, len: u32): nat
    requires |p| >= 1
  {
    ((len - RipOffset(p) - 4) % 0x1_0000_0000) / 20
  }

  /** The header checks: Total Length within `len`, command 1 or 2, version 2, zero field 0. */
  predicate HeaderAccepted(p: seq<byte>, len: u32)
    requires |p| >= 4 && RipOffset(p) + 4 <= |p|
  {
    var off := RipOffset(p);
    && TotalLength(p) <= len
    && (p[off] == 1 || p[off] == 2)
    && p[off + 1] == 2
    && p[off + 2] == 0 && p[off + 3] == 0
  }

  /** What the code needs to stay inside the buffer and inside the 25-entry array:
      the header bytes are present and, once the header checks pass, every entry the
      loop reaches is present and only the first 25 can be stored. */
  predicate DisassembleDefined(p: seq<byte>, len: u32)
  {
    && |p| >= 4 && RipOffset(p) + 4 <= |p|
    && (HeaderAccepted(p, len) ==>
          EntriesDefined(p, RipOffset(p) + 4, p[RipOffset(p)], EntryCount(p, len)))
  }

  /** The entry loop gets to entry i: the entries before it are present and pass
      their checks. */
  predicate Reaches(p: seq<byte>, base: nat, command: byte, i: nat)
  {
    forall j | 0 <= j < i :: base + 20 * j + 20 <= |p| && EntryAccepted(p, base + 20 * j, command)
  }

  /** Every entry of the first count that the loop gets to is in the buffer, and one
      that passes its checks (and so is stored) has an index below 25. */
  predicate EntriesDefined(p: seq<byte>, base: nat, command: byte, count: nat)
  {
    forall i | 0 <= i < count && Reaches(p, base, command, i) ::
      base + 20 * i + 20 <= |p| && (EntryAccepted(p, base + 20 * i, command) ==> i < RIP_MAX_ENTRY)
  }

  /** A loop that gets past all count entries read them all from the buffer, all of
      them passed, and there are at most 25. */
  lemma ReachesAll(p: seq<byte>, base: nat, command: byte, n: nat)
    requires base <= |p| && EntriesDefined(p, base, command, n) && Reaches(p, base, command, n)
    ensures base + 20 * n <= |p| && n <= RIP_MAX_ENTRY
    ensures forall i | 0 <= i < n :: EntryAccepted(p, base + 20 * i, command)
  {
    if n > 0 {
      assert Reaches(p, base, command, n - 1);
      assert base + 20 * (n - 1) + 20 <= |p|;
      assert EntryAccepted(p, base + 20 * (n - 1), command);
    }
  }

  /** The masks the bit loop accepts: read from bit 0 upwards, ones and then only
      zeros, i.e. 2^k - 1. */
  predicate IsLowOnes(m: nat)
  {
    exists k | 0 <= k <= 32 :: m == Pow2(k) - 1
  }

  /** The entry stored at `off`: four words loaded little-endian. */
  function EntryAt(p: seq<byte>, off: nat): RipEntry
    requires off + 20 <= |p|
  {
    RipEntry(Load32LE(p, off + 4), Load32LE(p, off + 8), Load32LE(p, off + 12), Load32LE(p, off + 16))
  }

  /** The per-entry checks: family byte (+1) 2 for a response and 0 for a request,
      tag bytes (+2, +3) zero, mask of the form 2^k - 1, `ntohl(metric)` in [1,16]. */
  predicate EntryAccepted(p: seq<byte>, off: nat, command: byte)
    requires off + 20 <= |p|
  {
    && !(command == 2 && p[off + 1] != 2)
    && !(command == 1 && p[off + 1] != 0)
    && p[off + 2] == 0 && p[off + 3] == 0
    && IsLowOnes(EntryAt(p, off).mask)
    && 1 <= Swap32(EntryAt(p, off).metric) <= 16
  }

  /** The first n entries from `base` on, if every one of them is accepted. */
  function ParseEntries(p: seq<byte>, base: nat, command: byte, n: nat): (r: Option<seq<RipEntry>>)
    requires base + 20 * n <= |p|
    ensures r.Some? <==> forall i | 0 <= i < n :: EntryAccepted(p, base + 20 * i, command)
    ensures r.Some? ==> |r.value| == n
    ensures r.Some? ==> forall i | 0 <= i < n :: r.value[i] == EntryAt(p, base + 20 * i)
  {
    if n == 0 then Some([])
    else
      match ParseEntries(p, base, command, n - 1)
      case None => None
      case Some(es) =>
        if EntryAccepted(p, base + 20 * (n - 1), command)
        then Some(es + [EntryAt(p, base + 20 * (n - 1))])
        else None
  }

  /** What `disassemble` returns: None for `false`, the loaded message for `true`. */
  function ParseRip(p: seq<byte>, len: u32): (r: Option<RipPacket>)
    requires DisassembleDefined(p, len)
    ensures r.Some? <==>
              HeaderAccepted(p, len) && Reaches(p, RipOffset(p) + 4, p[RipOffset(p)], EntryCount(p, len))
    ensures r.Some? ==>
              && r.value.command == p[RipOffset(p)]
              && r.value.numEntries == EntryCount(p, len) == |r.value.entries| <= RIP_MAX_ENTRY
              && RipOffset(p) + 4 + 20 * EntryCount(p, len) <= |p|
              && forall i | 0 <= i < |r.value.entries| ::
                   && EntryAccepted(p, RipOffset(p) + 4 + 20 * i, p[RipOffset(p)])
                   && r.value.entries[i] == EntryAt(p, RipOffset(p) + 4 + 20 * i)
  {
    if !HeaderAccepted(p, len) then None
    else
      var off, n := RipOffset(p), EntryCount(p, len);
      if !Reaches(p, off + 4, p[off], n) then None
      else
        ReachesAll(p, off + 4, p[off], n);
        Some(RipPacket(n, p[off], ParseEntries(p, off + 4, p[off], n).value))
  }

  /** Facts about 2^a - 1: its low j bits, and its bit j. */
  lemma LowOnesBits(a: nat, j: nat)
    ensures (Pow2(a) - 1) % Pow2(j) == Pow2(if a < j then a else j) - 1
    ensures Bit(Pow2(a) - 1, j) == if a > j then 1 else 0
  {
    if a <= j {
      Pow2Monotone(a, j);
      DivModUnique(Pow2(a) - 1, Pow2(j), 0, Pow2(a) - 1);
    } else {
      Pow2Add(j, a - j);
      var hi := Pow2(a - j) - 1;
      assert Pow2(a) - 1 == hi * Pow2(j) + (Pow2(j) - 1);
      DivModUnique(Pow2(a) - 1, Pow2(j), hi, Pow2(j) - 1);
      assert Pow2(a - j) == 2 * Pow2(a - j - 1);
      DivModUnique(hi, 2, Pow2(a - j - 1) - 1, 1);
    }
  }

  lemma {:induction false} Pow2Monotone(a: nat, b: nat)
    requires a <= b
    ensures Pow2(a) <= Pow2(b)
    ensures a < b ==> Pow2(a) < Pow2(b)
  {
    if a < b {
      Pow2Monotone(a, b - 1);
    }
  }

  /** A zero bit below a one bit rules out the form 2^k - 1. */
  lemma NotLowOnes(m: nat, j: nat, j': nat)
    requires j < j' && Bit(m, j) == 0 && Bit(m, j') == 1
    ensures !IsLowOnes(m)
  {
    if IsLowOnes(m) {
      var k :| 0 <= k <= 32 && m == Pow2(k) - 1;
      LowOnesBits(k, j);
      LowOnesBits(k, j');
    }
  }

  /** The inner bit loop of `disassemble`: `flag` starts as bit 0; a change from the
      flag is allowed only from 1 to 0. */
  method MaskIsContiguous(mask: u32) returns (ok: bool)
    ensures ok == IsLowOnes(mask)
  {
    var flag := mask % 2;
    ghost var w: nat := flag;  // the low j bits of mask are 2^w - 1
    assert Pow2(1) == 2;
    for j := 1 to 32
      invariant w <= j && mask % Pow2(j) == Pow2(w) - 1
      invariant flag == if w == j then 1 else 0
    {
      Pow2Step(mask, j);
      if Bit(mask, j) != flag {
        if flag == 0 {
          LowOnesBelow(mask, j, w);
          return false;
        } else {
          flag := 0;
        }
      } else if flag == 1 {
        w := j + 1;
      }
    }
    Pow2Values();
    DivModUnique(mask, Pow2(32), 0, mask);
    assert mask == Pow2(w) - 1;
    return true;
  }

  /** If the low j bits of m are 2^k - 1 with k < j, some bit below j is zero. */
  lemma LowOnesBelow(m: nat, j: nat, k: nat)
    requires k < j && m % Pow2(j) == Pow2(k) - 1 && Bit(m, j) == 1
    ensures !IsLowOnes(m)
  {
    // bit k of m is bit k of m % 2^j, which is bit k of 2^k - 1, i.e. 0
    LowBitsOfLow(m, j, k);
    BitFromLow(m, k);
    NotLowOnes(m, k, j);
  }

  /** Low j bits equal to 2^k - 1 with k < j: so are the low k + 1 bits. */
  lemma LowBitsOfLow(m: nat, j: nat, k: nat)
    requires k < j && m % Pow2(j) == Pow2(k) - 1
    ensures m % Pow2(k + 1) == Pow2(k) - 1
  {
    var a, b := Pow2(k + 1), Pow2(j - k - 1);
    Pow2Add(k + 1, j - k - 1);
    ModOfMod(m, a, b);
    LowOnesBits(k, k + 1);
  }

  /** Low k + 1 bits equal to 2^k - 1 mean bit k is zero. */
  lemma BitFromLow(m: nat, k: nat)
    requires m % Pow2(k + 1) == Pow2(k) - 1
    ensures Bit(m, k) == 0
  {
    Pow2Step(m, k);
  }

  lemma ModOfMod(m: nat, a: nat, b: nat)
    requires a > 0 && b > 0
    ensures (m % (a * b)) % a == m % a
  {
    var q := m / (a * b);
    assert m == q * (a * b) + m % (a * b);
    assert q * (a * b) == (q * b) * a;
    ModShiftNat(q * b, m % (a * b), a);
  }

  lemma ModShiftNat(q: nat, r: nat, a: nat)
    requires a > 0
    ensures (q * a + r) % a == r % a
  {
    DivModUnique(q * a + r, a, q + r / a, r % a);
  }

  /** The body of `disassemble`'s entry loop: the checks on the 20 bytes at `off`
      and, when they pass, the loaded entry. */
  method CheckEntry(packet: seq<byte>, off: nat, command: byte) returns (r: Option<RipEntry>)
    requires off + 20 <= |packet|
    ensures r.Some? == EntryAccepted(packet, off, command)
    ensures r.Some? ==> r.value == EntryAt(packet, off)
  {
    if (command == 2 && packet[off + 1] != 2) || (command == 1 && packet[off + 1] != 0) {
      return None;
    }
    if packet[off + 2] != 0 || packet[off + 3] != 0 {
      return None;
    }
    var addr := Load32LE(packet, off + 4);
    var mask := Load32LE(packet, off + 8);
    var nexthop := Load32LE(packet, off + 12);
    var metric := Load32LE(packet, off + 16);
    var maskOk := MaskIsContiguous(mask);
    if !maskOk {
      return None;
    }
    if Swap32(metric) < 1 || Swap32(metric) > 16 {
      return None;
    }
    return Some(RipEntry(addr, mask, nexthop, metric));
  }

  /** The entry loop of `disassemble`: check and load `count` entries from `base`
      on, stopping at the first rejected one. */
  method CheckEntries(packet: seq<byte>, base: nat, command: byte, count: nat)
    returns (r: Option<seq<RipEntry>>)
    requires base <= |packet| && EntriesDefined(packet, base, command, count)
    ensures r.Some? <==> Reaches(packet, base, command, count)
    ensures r.Some? ==> base + 20 * count <= |packet| && r == ParseEntries(packet, base, command, count)
  {
    var entries: seq<RipEntry> := [];
    for i := 0 to count
      invariant base + 20 * i <= |packet| && Reaches(packet, base, command, i)
      invariant ParseEntries(packet, base, command, i) == Some(entries)
    {
      ReachesStep(packet, base, command, count, i);
      var entry := CheckEntry(packet, base + 20 * i, command);
      if entry.None? {
        return None;
      }
      entries := entries + [entry.value];
    }
    return Some(entries);
  }

  /** The loop reaching entry i reads it from the buffer, gets past it exactly when
      it passes, and otherwise never gets to the end. */
  lemma ReachesStep(p: seq<byte>, base: nat, command: byte, count: nat, i: nat)
    requires EntriesDefined(p, base, command, count) && Reaches(p, base, command, i) && i < count
    ensures base + 20 * i + 20 <= |p|
    ensures Reaches(p, base, command, i + 1) <==> EntryAccepted(p, base + 20 * i, command)
    ensures !EntryAccepted(p, base + 20 * i, command) ==> !Reaches(p, base, command, count)
  {
    if !EntryAccepted(p, base + 20 * i, command) {
      assert !(base + 20 * i + 20 <= |p| && EntryAccepted(p, base + 20 * i, command));
    }
  }

  /** `disassemble`: the header checks, then the per-entry checks in order; the first
      failure rejects the whole message. */
  method Disassemble(packet: seq<byte>, len: u32) returns (r: Option<RipPacket>)
    requires DisassembleDefined(packet, len)
    ensures r == ParseRip(packet, len)
  {
    var headLength := 4 * (packet[0] % 16) + 8;
    assert headLength == RipOffset(packet);
    var command := packet[headLength];
    var version := packet[headLength + 1];
    if TotalLength(packet) > len {
      assert !HeaderAccepted(packet, len);
      return None;
    }
    if (command != 1 && command != 2) || version != 2 || packet[headLength + 2] != 0 || packet[headLength + 3] != 0 {
      assert !HeaderAccepted(packet, len);
      return None;
    }
    assert HeaderAccepted(packet, len);
    var count := ((len - headLength - 4) % 0x1_0000_0000) / 20;
    assert count == EntryCount(packet, len);
    var entries := CheckEntries(packet, headLength + 4, command, count);
    return ParsedMessage(packet, len, count, command, entries);
  }

  /** The end of `disassemble`: the message, once the header checks have passed. */
  function ParsedMessage(p: seq<byte>, len: u32, count: nat, command: byte, entries: Option<seq<RipEntry>>): (r: Option<RipPacket>)
    requires DisassembleDefined(p, len) && HeaderAccepted(p, len)
    requires count == EntryCount(p, len) && command == p[RipOffset(p)]
    requires entries.Some? <==> Reaches(p, RipOffset(p) + 4, command, count)
    requires entries.Some? ==>
               RipOffset(p) + 4 + 20 * count <= |p| && entries == ParseEntries(p, RipOffset(p) + 4, command, count)
    ensures r == ParseRip(p, len)
  {
    if entries.None? then None else Some(RipPacket(count, command, entries.value))
  }

  // ---------------------------------------------------------------- assemble

  /** The 20 bytes of one entry: a zero byte, the family byte (2 in a response, 0
      otherwise), two zero tag bytes, then address, mask, next hop and metric, each
      written low byte first. */
  function EncodeEntry(command: byte, e: RipEntry): (s: seq<byte>)
    ensures |s| == 20
  {
    [0, if command == 2 then 2 else 0, 0, 0] + Le32(e.addr) + Le32(e.mask) + Le32(e.nexthop) + Le32(e.metric)
  }

  function EncodeEntries(command: byte, es: seq<RipEntry>): (s: seq<byte>)
    ensures |s| == 20 * |es|
  {
    if es == [] then [] else EncodeEntries(command, es[..|es| - 1]) + EncodeEntry(command, es[|es| - 1])
  }

  /** The bytes `assemble` writes: the header [command, 2, 0, 0] and the first
      `numEntries` entries. */
  function EncodeRip(rip: RipPacket): (s: seq<byte>)
    requires rip.numEntries <= |rip.entries|
    ensures |s| == 4 + 20 * rip.numEntries
  {
    [rip.command, 2, 0, 0] + EncodeEntries(rip.command, rip.entries[..rip.numEntries])
  }

  /** Entry i occupies bytes [20i, 20i + 20) of the encoded entries. */
  lemma {:induction false} EncodeEntriesAt(command: byte, es: seq<RipEntry>, i: nat, j: nat)
    requires i < |es| && j < 20
    ensures EncodeEntries(command, es)[20 * i + j] == EncodeEntry(command, es[i])[j]
  {
    var init := es[..|es| - 1];
    if i < |es| - 1 {
      EncodeEntriesAt(command, init, i, j);
      assert init[i] == es[i];
    }
  }

  /** Byte j of the encoded message is byte j - 4 - 20i of entry i. */
  lemma EncodeRipAt(rip: RipPacket, i: nat, j: nat)
    requires rip.numEntries <= |rip.entries| && i < rip.numEntries && j < 20
    ensures EncodeRip(rip)[4 + 20 * i + j] == EncodeEntry(rip.command, rip.entries[i])[j]
  {
    var es := rip.entries[..rip.numEntries];
    EncodeEntriesAt(rip.command, es, i, j);
    assert es[i] == rip.entries[i];
  }

  /** The layout of one encoded entry, byte by byte. */
  lemma EncodeEntryAt(command: byte, e: RipEntry, j: nat)
    requires j < 20
    ensures EncodeEntry(command, e)[j] ==
              if j == 1 then (if command == 2 then 2 else 0)
              else if j < 4 then 0
              else if j < 8 then Le32(e.addr)[j - 4]
              else if j < 12 then Le32(e.mask)[j - 8]
              else if j < 16 then Le32(e.nexthop)[j - 12]
              else Le32(e.metric)[j - 16]
  {
  }

  /** Four bytes of a word, low byte first, as `(uint8_t)((x >> 8k) & 0xff)`. */
  method WriteWord(buffer: array<byte>, off: nat, x: u32)
    requires off + 4 <= buffer.Length
    modifies buffer
    ensures forall k | 0 <= k < buffer.Length ::
              buffer[k] == if off <= k < off + 4 then Le32(x)[k - off] else old(buffer[k])
  {
    buffer[off] := x % 0x100;
    buffer[off + 1] := (x / 0x100) % 0x100;
    buffer[off + 2] := (x / 0x1_0000) % 0x100;
    buffer[off + 3] := (x / 0x100_0000) % 0x100;
  }

  /** One iteration of `assemble`'s entry loop. */
  method WriteEntry(buffer: array<byte>, off: nat, command: byte, e: RipEntry)
    requires off + 20 <= buffer.Length
    modifies buffer
    ensures forall k | 0 <= k < buffer.Length ::
              buffer[k] == if off <= k < off + 20 then EncodeEntry(command, e)[k - off] else old(buffer[k])
  {
    buffer[off] := 0;
    buffer[off + 1] := if command == 2 then 2 else 0;
    buffer[off + 2] := 0;
    buffer[off + 3] := 0;
    WriteWord(buffer, off + 4, e.addr);
    WriteWord(buffer, off + 8, e.mask);
    WriteWord(buffer, off + 12, e.nexthop);
    WriteWord(buffer, off + 16, e.metric);
  }

  /** `assemble`: write the message into `buffer` and return its length. */
  method Assemble(rip: RipPacket, buffer: array<byte>) returns (n: u32)
    requires rip.numEntries <= RIP_MAX_ENTRY && rip.numEntries <= |rip.entries|
    requires 4 + 20 * rip.numEntries <= buffer.Length
    modifies buffer
    ensures n == 4 + 20 * rip.numEntries
    ensures buffer[..n] == EncodeRip(rip)
    ensures buffer[n..] == old(buffer[n..])
  {
    var count := rip.numEntries;
    buffer[0] := rip.command;
    buffer[1] := 2;
    buffer[2] := 0;
    buffer[3] := 0;
    ghost var enc := EncodeRip(rip);
    for i := 0 to count
      invariant forall k | 0 <= k < 4 + 20 * i :: buffer[k] == enc[k]
      invariant forall k | 4 + 20 * i <= k < buffer.Length :: buffer[k] == old(buffer[k])
    {
      WriteEntry(buffer, 4 + 20 * i, rip.command, rip.entries[i]);
      forall k | 4 + 20 * i <= k < 4 + 20 * (i + 1) ensures buffer[k] == enc[k] {
        EncodeRipAt(rip, i, k - 4 - 20 * i);
      }
    }
    n := 4 + 20 * count;
    assert forall k | 0 <= k < n :: buffer[..n][k] == enc[k];
  }

  // ---------------------------------------------------------------- round trip

  /** The messages `disassemble` can produce: a known command, an explicit count equal
      to the number of entries and at most 25, masks of the form 2^k - 1 and host-order
      metrics in [1,16]. */
  predicate WellFormed(rip: RipPacket)
  {
    && (rip.command == 1 || rip.command == 2)
    && rip.numEntries == |rip.entries| <= RIP_MAX_ENTRY
    && forall i | 0 <= i < |rip.entries| ::
         IsLowOnes(rip.entries[i].mask) && 1 <= Swap32(rip.entries[i].metric) <= 16
  }

  /** Four bytes that are the octets of x load as x. */
  lemma LoadOctets(p: seq<byte>, o: nat, x: u32)
    requires o + 4 <= |p| && forall j | 0 <= j < 4 :: p[o + j] == Le32(x)[j]
    ensures Load32LE(p, o) == x
  {
    LoadLe32(x);
  }

  lemma FieldByte(p: seq<byte>, o: nat, command: byte, e: RipEntry, j: nat)
    requires o + 20 <= |p| && j < 20
    requires forall j | 0 <= j < 20 :: p[o + j] == EncodeEntry(command, e)[j]
    ensures p[o + j] ==
              if j == 1 then (if command == 2 then 2 else 0)
              else if j < 4 then 0
              else if j < 8 then Le32(e.addr)[j - 4]
              else if j < 12 then Le32(e.mask)[j - 8]
              else if j < 16 then Le32(e.nexthop)[j - 12]
              else Le32(e.metric)[j - 16]
  {
    EncodeEntryAt(command, e, j);
  }

  /** Loading an encoded entry gives it back, and it passes the entry checks when its
      mask and metric are acceptable. */
  lemma EntryRoundTrip(p: seq<byte>, o: nat, command: byte, e: RipEntry)
    requires o + 20 <= |p|
    requires forall j | 0 <= j < 20 :: p[o + j] == EncodeEntry(command, e)[j]
    ensures EntryAt(p, o) == e
    ensures (command == 1 || command == 2) && IsLowOnes(e.mask) && 1 <= Swap32(e.metric) <= 16
            ==> EntryAccepted(p, o, command)
  {
    forall j | 0 <= j < 4
      ensures p[o + 4 + j] == Le32(e.addr)[j] && p[o + 8 + j] == Le32(e.mask)[j]
      ensures p[o + 12 + j] == Le32(e.nexthop)[j] && p[o + 16 + j] == Le32(e.metric)[j]
    {
      FieldByte(p, o, command, e, 4 + j);
      FieldByte(p, o, command, e, 8 + j);
      FieldByte(p, o, command, e, 12 + j);
      FieldByte(p, o, command, e, 16 + j);
    }
    FieldByte(p, o, command, e, 1);
    FieldByte(p, o, command, e, 2);
    FieldByte(p, o, command, e, 3);
    LoadOctets(p, o + 4, e.addr);
    LoadOctets(p, o + 8, e.mask);
    LoadOctets(p, o + 12, e.nexthop);
    LoadOctets(p, o + 16, e.metric);
  }

  /** With 20n <= len - off - 4 < 20n + 20 the count derived from `len` is n. */
  lemma EntryCountExact(p: seq<byte>, len: u32, n: nat)
    requires |p| >= 1 && RipOffset(p) + 4 + 20 * n <= len < RipOffset(p) + 4 + 20 * n + 20
    ensures EntryCount(p, len) == n
  {
    var d := len - RipOffset(p) - 4;
    DivModUnique(d, 20, n, d - 20 * n);
  }

  /** Round trip: a well-formed message placed after the IPv4 and UDP headers, with a
      Total Length within `len` and `len` covering exactly its entries (plus fewer than
      20 trailing bytes), is disassembled into the same message. */
  lemma DisassembleAssemble(p: seq<byte>, len: u32, rip: RipPacket)
    requires WellFormed(rip)
    requires |p| >= 4 && RipOffset(p) + |EncodeRip(rip)| <= |p|
    requires p[RipOffset(p)..RipOffset(p) + |EncodeRip(rip)|] == EncodeRip(rip)
    requires TotalLength(p) <= len
    requires RipOffset(p) + |EncodeRip(rip)| <= len < RipOffset(p) + |EncodeRip(rip)| + 20
    ensures DisassembleDefined(p, len)
    ensures ParseRip(p, len) == Some(rip)
  {
    var off, n := RipOffset(p), rip.numEntries;
    var enc := EncodeRip(rip);
    EntryCountExact(p, len, n);
    assert forall k | 0 <= k < |enc| :: p[off + k] == enc[k];
    assert EncodedAt(p, off, rip);
    EncodedParses(p, len, rip);
  }

  /** The bytes at `off` are the encoding of rip. */
  predicate EncodedAt(p: seq<byte>, off: nat, rip: RipPacket)
    requires rip.numEntries <= |rip.entries|
  {
    off + |EncodeRip(rip)| <= |p| && forall k | 0 <= k < |EncodeRip(rip)| :: p[off + k] == EncodeRip(rip)[k]
  }

  /** A well-formed message encoded at the RIP offset, with a Total Length within `len`
      and a count derived from `len` equal to its own, is accepted as itself. */
  lemma EncodedParses(p: seq<byte>, len: u32, rip: RipPacket)
    requires WellFormed(rip) && |p| >= 4 && EncodedAt(p, RipOffset(p), rip)
    requires TotalLength(p) <= len && EntryCount(p, len) == rip.numEntries
    ensures DisassembleDefined(p, len) && ParseRip(p, len) == Some(rip)
  {
    HeaderOfMessage(p, len, rip);
    EntriesOfMessage(p, RipOffset(p), rip);
    ParsedEntries(p, len, rip);
  }

  /** The entries of a well-formed message found at `off`: the loop gets past all of
      them, stays inside the buffer, and loads each one back. */
  lemma EntriesOfMessage(p: seq<byte>, off: nat, rip: RipPacket)
    requires WellFormed(rip)
    requires off + |EncodeRip(rip)| <= |p|
    requires forall k | 0 <= k < |EncodeRip(rip)| :: p[off + k] == EncodeRip(rip)[k]
    ensures Reaches(p, off + 4, rip.command, rip.numEntries)
    ensures EntriesDefined(p, off + 4, rip.command, rip.numEntries)
    ensures forall i | 0 <= i < rip.numEntries :: EntryAt(p, off + 4 + 20 * i) == rip.entries[i]
  {
    forall i | 0 <= i < rip.numEntries
      ensures EntryAccepted(p, off + 4 + 20 * i, rip.command)
      ensures EntryAt(p, off + 4 + 20 * i) == rip.entries[i]
    {
      EntryOfMessage(p, off, rip, i);
    }
  }

  /** The header of an encoded message passes the header checks. */
  lemma HeaderOfMessage(p: seq<byte>, len: u32, rip: RipPacket)
    requires rip.numEntries <= |rip.entries| && (rip.command == 1 || rip.command == 2)
    requires |p| >= 4 && RipOffset(p) + |EncodeRip(rip)| <= |p| && TotalLength(p) <= len
    requires forall k | 0 <= k < |EncodeRip(rip)| :: p[RipOffset(p) + k] == EncodeRip(rip)[k]
    ensures HeaderAccepted(p, len) && p[RipOffset(p)] == rip.command
  {
    var off := RipOffset(p);
    assert p[off] == EncodeRip(rip)[0] && p[off + 1] == EncodeRip(rip)[1];
    assert p[off + 2] == EncodeRip(rip)[2] && p[off + 3] == EncodeRip(rip)[3];
  }

  /** A first entry that fails its checks rejects the message, however many entries
      `len` implies: an oversized count, or one that wrapped because `len` is below
      the header size, is still handled without reading past that entry. */
  lemma FirstEntryRejected(p: seq<byte>, len: u32)
    requires |p| >= 4 && RipOffset(p) + 24 <= |p| && EntryCount(p, len) > 0
    requires !EntryAccepted(p, RipOffset(p) + 4, p[RipOffset(p)])
    ensures DisassembleDefined(p, len) && ParseRip(p, len).None?
  {
    var base, command := RipOffset(p) + 4, p[RipOffset(p)];
    forall i | 0 < i ensures !Reaches(p, base, command, i) {
      assert !EntryAccepted(p, base + 20 * 0, command);
    }
    assert !Reaches(p, base, command, EntryCount(p, len));
  }

  /** A message whose header passes and whose entries all pass and load as those of
      rip is accepted as rip. */
  lemma ParsedEntries(p: seq<byte>, len: u32, rip: RipPacket)
    requires DisassembleDefined(p, len) && HeaderAccepted(p, len)
    requires Reaches(p, RipOffset(p) + 4, p[RipOffset(p)], EntryCount(p, len))
    requires RipOffset(p) + 4 + 20 * EntryCount(p, len) <= |p|
    requires rip.numEntries == |rip.entries| == EntryCount(p, len) && rip.command == p[RipOffset(p)]
    requires forall i | 0 <= i < EntryCount(p, len) :: EntryAt(p, RipOffset(p) + 4 + 20 * i) == rip.entries[i]
    ensures ParseRip(p, len) == Some(rip)
  {
    var r := ParseRip(p, len).value;
    assert r.entries == rip.entries;
  }

  /** One entry of a well-formed message found at `off` in the packet. */
  lemma EntryOfMessage(p: seq<byte>, off: nat, rip: RipPacket, i: nat)
    requires WellFormed(rip) && i < rip.numEntries
    requires off + |EncodeRip(rip)| <= |p|
    requires forall k | 0 <= k < |EncodeRip(rip)| :: p[off + k] == EncodeRip(rip)[k]
    ensures EntryAccepted(p, off + 4 + 20 * i, rip.command)
    ensures EntryAt(p, off + 4 + 20 * i) == rip.entries[i]
  {
    var o := off + 4 + 20 * i;
    forall j | 0 <= j < 20 ensures p[o + j] == EncodeEntry(rip.command, rip.entries[i])[j] {
      EncodeRipAt(rip, i, j);
      assert p[o + j] == EncodeRip(rip)[4 + 20 * i + j];
    }
    EntryRoundTrip(p, o, rip.command, rip.entries[i]);
  }

  /** What an accepted message says about the bytes at `off`: the header
      [command, 2, 0, 0] and, after it, entries that pass the checks and load as
      those of rip. */
  predicate LoadedFrom(p: seq<byte>, off: nat, rip: RipPacket)
  {
    && rip.numEntries == |rip.entries| <= RIP_MAX_ENTRY && (rip.command == 1 || rip.command == 2)
    && off + 4 + 20 * rip.numEntries <= |p|
    && p[off] == rip.command && p[off + 1] == 2 && p[off + 2] == 0 && p[off + 3] == 0
    && forall i | 0 <= i < rip.numEntries ::
         EntryAccepted(p, off + 4 + 20 * i, rip.command) && rip.entries[i] == EntryAt(p, off + 4 + 20 * i)
  }

  /** The message `disassemble` accepts is loaded from the bytes at the RIP offset. */
  lemma ParsedLoadedFrom(p: seq<byte>, len: u32)
    requires DisassembleDefined(p, len) && ParseRip(p, len).Some?
    ensures LoadedFrom(p, RipOffset(p), ParseRip(p, len).value)
  {
    assert HeaderAccepted(p, len);
  }

  /** A message loaded from accepted bytes is well formed. */
  lemma LoadedWellFormed(p: seq<byte>, off: nat, rip: RipPacket)
    requires LoadedFrom(p, off, rip)
    ensures WellFormed(rip)
  {
    forall i | 0 <= i < |rip.entries|
      ensures IsLowOnes(rip.entries[i].mask) && 1 <= Swap32(rip.entries[i].metric) <= 16
    {
      assert EntryAccepted(p, off + 4 + 20 * i, rip.command);
    }
  }

  /** The other direction: a disassembled message is well formed, and assembling it
      gives back the received RIP bytes, except the first byte of each entry (the high
      byte of the address family), which `disassemble` never inspects. */
  lemma AssembleDisassemble(p: seq<byte>, len: u32)
    requires DisassembleDefined(p, len) && ParseRip(p, len).Some?
    ensures WellFormed(ParseRip(p, len).value)
    ensures var enc := EncodeRip(ParseRip(p, len).value);
            forall k | 0 <= k < |enc| && (k < 4 || (k - 4) % 20 != 0) :: enc[k] == p[RipOffset(p) + k]
  {
    var rip := ParseRip(p, len).value;
    var off := RipOffset(p);
    ParsedLoadedFrom(p, len);
    LoadedWellFormed(p, off, rip);
    var enc := EncodeRip(rip);
    forall k | 0 <= k < |enc| && (k < 4 || (k - 4) % 20 != 0) ensures enc[k] == p[off + k] {
      ParsedByte(p, off, rip, k);
    }
  }

  /** Byte k of the re-encoded message, when it is not the first byte of an entry. */
  lemma ParsedByte(p: seq<byte>, off: nat, rip: RipPacket, k: nat)
    requires LoadedFrom(p, off, rip)
    requires k < 4 + 20 * rip.numEntries && (k < 4 || (k - 4) % 20 != 0)
    ensures EncodeRip(rip)[k] == p[off + k]
  {
    if k >= 4 {
      var i: nat, j: nat := (k - 4) / 20, (k - 4) % 20;
      assert k == 4 + 20 * i + j;
      var o := off + 4 + 20 * i;
      assert EntryAccepted(p, o, rip.command) && rip.entries[i] == EntryAt(p, o);
      EncodeRipAt(rip, i, j);
      EntryBytes(p, o, rip.command, j);
    }
  }

  /** An accepted entry's bytes, other than byte 0, are those its fields encode to. */
  lemma EntryBytes(p: seq<byte>, o: nat, command: byte, j: nat)
    requires o + 20 <= |p| && (command == 1 || command == 2) && EntryAccepted(p, o, command)
    requires 0 < j < 20
    ensures p[o + j] == EncodeEntry(command, EntryAt(p, o))[j]
  {
    var e := EntryAt(p, o);
    EncodeEntryAt(command, e, j);
    if j < 4 {
    } else if j < 8 {
      Le32Load(p, o + 4);
    } else if j < 12 {
      Le32Load(p, o + 8);
    } else if j < 16 {
      Le32Load(p, o + 12);
    } else {
      Le32Load(p, o + 16);
    }
  }
}
