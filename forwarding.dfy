/** The header update done when a packet is forwarded: re-validate the checksum,
    then decrement the TTL (byte 8) and rewrite the checksum (bytes 10 and 11),
    all in place. */
module Forwarding {
  import opened Bytes
  import opened Checksum

  /** The packet after a successful forward: the TTL is decremented as an 8-bit value
      (so 0 becomes 255), and bytes 10-11 receive `~c >> 8` and `~c`, where c is the
      folded sum of the header with the new TTL. */
  function Forwarded(p: seq<byte>): (q: seq<byte>)
    requires HeaderInBuffer(p) && |p| >= 12
    ensures |q| == |p| && HeaderInBuffer(q)
    ensures q[8] == (p[8] as int - 1) % 0x100
    ensures forall k | 0 <= k < |p| && k != 8 && k != 10 && k != 11 :: q[k] == p[k]
  {
    var p1 := p[8 := (p[8] as int - 1) % 0x100];
    var c := Fold(HeaderSum(p1, HeaderLength(p1)));
    p1[10 := (NotU64(c) / 0x100) % 0x100][11 := NotU64(c) % 0x100]
  }

  /** `forward`: on a valid checksum, update TTL and checksum in place and return
      true; otherwise leave every byte alone and return false. */
  method Forward(packet: array<byte>) returns (ok: bool)
    requires packet.Length >= 12 && HeaderInBuffer(packet[..])
    modifies packet
    ensures ok == ValidChecksum(old(packet[..]))
    ensures ok ==> packet[..] == Forwarded(old(packet[..]))
    ensures !ok ==> packet[..] == old(packet[..])
  {
    ghost var p0: seq<byte> := packet[..];
    var length := 4 * (packet[0] % 16);
    assert length == HeaderLength(p0);
    var checksum, realChecksum := SumHeaderWords(packet[..], length);
    checksum := checksum / 0x1_0000 + checksum % 0x1_0000;
    checksum := checksum + checksum / 0x1_0000;
    assert checksum == Fold(HeaderSum(p0, HeaderLength(p0)));
    assert realChecksum == StoredChecksum(p0);
    if realChecksum == NotU64(checksum) % 0x1_0000 {
      var ttl: byte := (packet[8] as int - 1) % 0x100;
      packet[8] := ttl;
      ghost var p1: seq<byte> := packet[..];
      assert p1 == p0[8 := ttl];
      var unused;
      checksum, unused := SumHeaderWords(packet[..], length);
      checksum := checksum / 0x1_0000 + checksum % 0x1_0000;
      checksum := checksum + checksum / 0x1_0000;
      assert checksum == Fold(HeaderSum(p1, HeaderLength(p1)));
      var hi: byte, lo: byte := (NotU64(checksum) / 0x100) % 0x100, NotU64(checksum) % 0x100;
      packet[10] := hi;
      packet[11] := lo;
      assert packet[..] == p1[10 := hi][11 := lo];
      ok := true;
    } else {
      ok := false;
    }
  }

  /** The two bytes written from `~c` hold the checksum word `(unsigned short) ~c`. */
  lemma ComplementBytes(c: nat)
    requires c < 0x1_0000_0000_0000_0000
    ensures ((NotU64(c) / 0x100) % 0x100) * 0x100 + NotU64(c) % 0x100 == NotU64(c) % 0x1_0000
  {
    DivModMul(NotU64(c), 0x100, 0x100);
  }

  /** A forwarded packet passes validation again: the rewritten checksum matches the
      header with the decremented TTL. */
  lemma ForwardedIsValid(p: seq<byte>)
    requires HeaderInBuffer(p) && |p| >= 12 && ValidChecksum(p)
    ensures ValidChecksum(Forwarded(p))
  {
    var q := Forwarded(p);
    var n := HeaderLength(p);
    var p1 := p[8 := (p[8] as int - 1) % 0x100];
    assert HeaderLength(q) == n && HeaderLength(p1) == n;
    HeaderSumFrame(p1, q, n);
    if n > 10 {
      ComplementBytes(Fold(HeaderSum(p1, n)));
    } else {
      // byte 8 lies outside a header this short, so the sum does not change
      HeaderSumFrame(p, q, n);
    }
  }
}
