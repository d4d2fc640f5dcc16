/** IPv4 header checksum validation (section 3.1 of RFC 791, computed as in RFC 1071):
    the 16-bit words of the header, except the stored checksum at offset 10, are
    summed; the sum is folded with end-around carry and its complement is compared
    with the stored word. */
module Checksum {
  import opened Bytes

  /** The header length in bytes, `4 * (packet[0] & 0xf)`. */
  function HeaderLength(p: seq<byte>): (n: nat)
    requires |p| >= 1
    ensures n % 4 == 0 && n % 2 == 0 && n <= 60
  {
    4 * (p[0] % 16)
  }

  /** The caller's guarantee: the buffer holds the whole header. */
  predicate HeaderInBuffer(p: seq<byte>)
  {
    |p| >= 1 && HeaderLength(p) <= |p|
  }

  /** The 16-bit word at offset i, high byte first: `packet[i] << 8 + packet[i+1]`. */
  function Word(p: seq<byte>, i: nat): (w: nat)
    requires i + 1 < |p|
    ensures w < 0x1_0000
  {
    var hi: int, lo: int := p[i], p[i + 1];
    hi * 0x100 + lo
  }

  /** The sum of the words at even offsets below n, leaving out the word at offset 10. */
  function HeaderSum(p: seq<byte>, n: nat): (sum: nat)
    requires n % 2 == 0 && n <= |p|
    ensures sum <= (n / 2) * 0xFFFF
  {
    if n == 0 then 0
    else HeaderSum(p, n - 2) + (if n - 2 == 10 then 0 else Word(p, n - 2))
  }

  /** The stored checksum as the loop captures it: the word at offset 10 when the
      header reaches it, and the initial 0 otherwise. */
  function StoredChecksum(p: seq<byte>): (w: nat)
    requires HeaderInBuffer(p)
    ensures w < 0x1_0000
  {
    if HeaderLength(p) > 10 then Word(p, 10) else 0
  }

  /** `c = (c >> 16) + (c & 0xffff); c += c >> 16;` */
  function Fold(sum: nat): nat
  {
    var c := sum / 0x1_0000 + sum % 0x1_0000;
    c + c / 0x1_0000
  }

  /** `~c` on a 64-bit `unsigned long`. */
  function NotU64(c: nat): nat
    requires c < 0x1_0000_0000_0000_0000
  {
    0xFFFF_FFFF_FFFF_FFFF - c
  }

  /** The checksum the header should carry: `(unsigned short) ~Fold(sum)`. */
  function ExpectedChecksum(p: seq<byte>): (w: nat)
    requires HeaderInBuffer(p)
    ensures w < 0x1_0000
  {
    NotU64(Fold(HeaderSum(p, HeaderLength(p)))) % 0x1_0000
  }

  /** What `validateIPChecksum` decides. */
  predicate ValidChecksum(p: seq<byte>)
    requires HeaderInBuffer(p)
  {
    StoredChecksum(p) == ExpectedChecksum(p)
  }

  /** The summation loop shared by validation and forwarding: it walks the even
      offsets below `length`, capturing the word at offset 10 instead of adding it. */
  method SumHeaderWords(p: seq<byte>, length: nat) returns (sum: nat, stored: nat)
    requires length % 2 == 0 && length <= |p|
    ensures sum == HeaderSum(p, length)
    ensures stored == if length > 10 then Word(p, 10) else 0
  {
    sum, stored := 0, 0;
    var i := 0;
    while i < length
      invariant i % 2 == 0 && i <= length
      invariant sum == HeaderSum(p, i)
      invariant stored == if i > 10 then Word(p, 10) else 0
    {
      if i == 10 {
        stored := Word(p, i);
      } else {
        sum := sum + Word(p, i);
      }
      i := i + 2;
    }
  }

  /** `validateIPChecksum`: reads the header and decides whether its checksum is right. */
  method ValidateIPChecksum(packet: seq<byte>) returns (ok: bool)
    requires HeaderInBuffer(packet)
    ensures ok == ValidChecksum(packet)
  {
    var length := 4 * (packet[0] % 16);
    var checksum, realChecksum := SumHeaderWords(packet, length);
    checksum := checksum / 0x1_0000 + checksum % 0x1_0000;
    checksum := checksum + checksum / 0x1_0000;
    ok := realChecksum == NotU64(checksum) % 0x1_0000;
  }

  lemma ModShift(a: int, b: int, d: int)
    requires d > 0
    ensures (a * d + b) % d == b % d
  {
    DivModUnique(a * d + b, d, a + b / d, b % d);
  }

  /** The folded sum, cut to 16 bits, is the one's-complement sum of the header words:
      congruent to the plain sum modulo 0xFFFF, and zero only for a zero sum. */
  lemma FoldIsOnesComplementSum(sum: nat)
    requires sum < 0x1_0000_0000
    ensures Fold(sum) < 0x2_0000
    ensures (Fold(sum) % 0x1_0000) % 0xFFFF == sum % 0xFFFF
    ensures Fold(sum) % 0x1_0000 == 0 <==> sum == 0
  {
    var h, l := sum / 0x1_0000, sum % 0x1_0000;
    var c := h + l;
    assert sum == h * 0xFFFF + c;
    ModShift(h, c, 0xFFFF);
    if c >= 0x1_0000 {
      assert Fold(sum) == c + 1;
      assert Fold(sum) % 0x1_0000 == c - 0xFFFF;
      ModShift(1, c - 0xFFFF, 0xFFFF);
    } else {
      assert Fold(sum) == c;
    }
  }

  /** The checksum the header should carry is the complement of the one's-complement
      sum, as a 16-bit value. */
  lemma ExpectedIsComplement(p: seq<byte>)
    requires HeaderInBuffer(p)
    ensures ExpectedChecksum(p) == 0xFFFF - Fold(HeaderSum(p, HeaderLength(p))) % 0x1_0000
  {
    NotU64Low(Fold(HeaderSum(p, HeaderLength(p))));
  }

  /** The low 16 bits of `~c` are the complement of the low 16 bits of c. */
  lemma NotU64Low(c: nat)
    requires c < 0x1_0000_0000_0000_0000
    ensures NotU64(c) % 0x1_0000 == 0xFFFF - c % 0x1_0000
  {
    var hi, lo := c / 0x1_0000, c % 0x1_0000;
    assert NotU64(c) == (0xFFFF_FFFF_FFFF - hi) * 0x1_0000 + (0xFFFF - lo);
    DivModUnique(NotU64(c), 0x1_0000, 0xFFFF_FFFF_FFFF - hi, 0xFFFF - lo);
  }

  /** Arithmetic core of the receiver test: f is the one's-complement sum of s. */
  lemma AllOnesArith(s: nat, w: nat, f: nat)
    requires w < 0x1_0000 && f < 0x1_0000
    requires f % 0xFFFF == s % 0xFFFF && (f == 0 <==> s == 0)
    ensures w == 0xFFFF - f ==> (s + w) % 0xFFFF == 0
    ensures (s + w) % 0xFFFF == 0 && s != 0 && w != 0xFFFF ==> w == 0xFFFF - f
  {
    var r := s % 0xFFFF;
    ModShift(s / 0xFFFF, r + w, 0xFFFF);
    ModShift(f / 0xFFFF, r + w, 0xFFFF);
    assert (s + w) % 0xFFFF == (f + w) % 0xFFFF;
  }

  /** RFC 1071's receiver test: a header accepted here has a one's-complement sum,
      checksum word included, of all ones (congruent to 0 modulo 0xFFFF). The converse
      holds except for the two encodings of zero: an all-zero sum with a stored 0, and
      a stored 0xFFFF. */
  lemma ValidMeansAllOnesSum(p: seq<byte>)
    requires HeaderInBuffer(p) && HeaderLength(p) > 10
    ensures ValidChecksum(p) ==> (HeaderSum(p, HeaderLength(p)) + Word(p, 10)) % 0xFFFF == 0
    ensures (HeaderSum(p, HeaderLength(p)) + Word(p, 10)) % 0xFFFF == 0
            && HeaderSum(p, HeaderLength(p)) != 0 && Word(p, 10) != 0xFFFF
            ==> ValidChecksum(p)
  {
    var s := HeaderSum(p, HeaderLength(p));
    FoldIsOnesComplementSum(s);
    ExpectedIsComplement(p);
    AllOnesArith(s, Word(p, 10), Fold(s) % 0x1_0000);
  }

  /** The header sum reads only the bytes below n, and never bytes 10 and 11. */
  lemma {:induction false} HeaderSumFrame(p: seq<byte>, q: seq<byte>, n: nat)
    requires n % 2 == 0 && n <= |p| && n <= |q|
    requires forall k | 0 <= k < n && k != 10 && k != 11 :: p[k] == q[k]
    ensures HeaderSum(p, n) == HeaderSum(q, n)
  {
    if n > 0 {
      HeaderSumFrame(p, q, n - 2);
    }
  }

  /** Bit b of a byte flipped: the byte moves by exactly 2^b, up when the bit was
      clear and down when it was set. */
  function FlipBit(x: byte, b: nat): (y: byte)
    requires b < 8
    ensures Bit(x, b) == 0 ==> y == x + Pow2(b)
    ensures Bit(x, b) == 1 ==> y == x - Pow2(b)
  {
    FlipInRange(x, b);
    if Bit(x, b) == 1 then x - Pow2(b) else x + Pow2(b)
  }

  /** A byte with bit b set is at least 2^b; with bit b clear, adding 2^b stays a byte. */
  lemma FlipInRange(x: byte, b: nat)
    requires b < 8
    ensures Bit(x, b) == 1 ==> x >= Pow2(b)
    ensures Bit(x, b) == 0 ==> x + Pow2(b) < 0x100
  {
    ByteSplit(b);
    if Bit(x, b) == 1 {
      OddQuotient(x, Pow2(b));
    } else {
      EvenQuotient(x, Pow2(b), Pow2(8 - b));
    }
  }

  /** 2^b * 2^(8-b) is 0x100, and the second factor is even. */
  lemma ByteSplit(b: nat)
    requires b < 8
    ensures Pow2(b) * Pow2(8 - b) == 0x100 && Pow2(8 - b) % 2 == 0
  {
    Pow2Add(b, 8 - b);
    assert b + (8 - b) == 8;
    assert Pow2(8) == 0x100;
    assert Pow2(8 - b) == 2 * Pow2(7 - b);
  }

  /** An odd x / d means x >= d. */
  lemma OddQuotient(x: nat, d: nat)
    requires d > 0 && (x / d) % 2 == 1
    ensures x >= d
  {
    var q := x / d;
    assert x == q * d + x % d;
    MulNonNeg(q - 1, d);
    assert (q - 1) * d == q * d - d;
  }

  /** With x below d * e and both x / d and e even, x + d stays below d * e. */
  lemma EvenQuotient(x: nat, d: nat, e: nat)
    requires d > 0 && e % 2 == 0 && x < d * e && (x / d) % 2 == 0
    ensures x + d < d * e
  {
    var q, r := x / d, x % d;
    assert x == q * d + r;
    assert (e - q) * d == d * e - q * d;
    MulPosFactor(e - q, d);
    assert e - q >= 2;
    MulNonNeg(e - q - 2, d);
    assert (e - q - 2) * d == d * e - q * d - 2 * d;
  }

  lemma MulNonNeg(a: int, d: int)
    requires a >= 0 && d >= 0
    ensures a * d >= 0
  {
  }

  lemma MulPosFactor(a: int, d: int)
    requires d > 0 && a * d > 0
    ensures a > 0
  {
  }

  /** 2^b for a bit of a byte is at most 0x80. */
  lemma Pow2ByteBit(b: nat)
    requires b < 8
    ensures Pow2(b) <= 0x80
  {
    Pow2Add(b, 7 - b);
    assert Pow2(7) == 0x80;
  }

  /** Changing byte k moves the header sum by the change times the byte's weight in
      its word (0x100 for a high byte, 1 for a low byte), unless the byte lies at or
      beyond n or in the stored checksum. */
  lemma {:induction false} HeaderSumChange(p: seq<byte>, k: nat, v: byte, n: nat)
    requires n % 2 == 0 && n <= |p| && k < |p|
    ensures HeaderSum(p[k := v], n) ==
              HeaderSum(p, n)
              + if k < n && k != 10 && k != 11
                then (v - p[k]) * (if k % 2 == 0 then 0x100 else 1)
                else 0
  {
    if n > 0 {
      HeaderSumChange(p, k, v, n - 2);
    }
  }

  /** Two numbers less than 0xFFFF apart, and not equal, differ modulo 0xFFFF. */
  lemma ModDistinct(s: nat, t: nat)
    requires s != t && -0xFFFF < s - t < 0xFFFF
    ensures s % 0xFFFF != t % 0xFFFF
  {
  }

  /** Flipping a bit of the version nibble (bits 4..7) keeps the low nibble, which
      carries the header length. */
  lemma VersionFlipKeepsLength(x: byte, b: nat)
    requires 4 <= b < 8
    ensures FlipBit(x, b) % 16 == x % 16
  {
    Pow2Add(4, b - 4);
    assert b == 4 + (b - 4);
    assert Pow2(4) == 16;
    var m: int := Pow2(b - 4);
    if Bit(x, b) == 1 {
      ModShift(-m, x, 16);
    } else {
      ModShift(m, x, 16);
    }
  }

  /** A flip outside the low nibble of byte 0 leaves the header length, and so the
      whole header in the buffer. */
  lemma FlipKeepsLength(p: seq<byte>, k: nat, b: nat)
    requires HeaderInBuffer(p) && k < HeaderLength(p) && b < 8 && (1 <= k || 4 <= b)
    ensures HeaderInBuffer(p[k := FlipBit(p[k], b)])
    ensures HeaderLength(p[k := FlipBit(p[k], b)]) == HeaderLength(p)
  {
    if k == 0 {
      VersionFlipKeepsLength(p[0], b);
    }
  }

  /** Flipping any single bit of an accepted header makes validation fail, except a
      bit of the low nibble of byte 0, which carries the header length. */
  lemma SingleBitFlipDetected(p: seq<byte>, k: nat, b: nat)
    requires HeaderInBuffer(p) && ValidChecksum(p)
    requires k < HeaderLength(p) && b < 8 && (1 <= k || 4 <= b)
    ensures HeaderInBuffer(p[k := FlipBit(p[k], b)])
    ensures !ValidChecksum(p[k := FlipBit(p[k], b)])
  {
    var v := FlipBit(p[k], b);
    var q := p[k := v];
    var n := HeaderLength(p);
    FlipKeepsLength(p, k, b);
    Pow2ByteBit(b);
    HeaderSumChange(p, k, v, n);
    var s, s' := HeaderSum(p, n), HeaderSum(q, n);
    if k == 10 || k == 11 {
      assert s' == s;
      assert Word(q, 10) != Word(p, 10);
    } else {
      assert StoredChecksum(q) == StoredChecksum(p);
      FoldIsOnesComplementSum(s);
      FoldIsOnesComplementSum(s');
      ExpectedIsComplement(p);
      ExpectedIsComplement(q);
      ModDistinct(s, s');
    }
  }
}
