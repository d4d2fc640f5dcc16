/** Octets, unsigned 32-bit words and the byte-order helpers the router uses.
    The router keeps every "big endian" word as the value composed little-endian
    from its wire bytes (`b0 + b1<<8 + b2<<16 + b3<<24`), and `ntohl` is a byte
    swap of that value. */
module Bytes {

  type byte = x: int | 0 <= x < 0x100
  type u32 = x: int | 0 <= x < 0x1_0000_0000

  /** A value that may be absent: a C function's `false` return or a lookup miss. */
  datatype Option<T> = None | Some(value: T)

  /** 2^k; `x >> k` is `x / Pow2(k)` and `1 << k` is `Pow2(k)`. */
  function Pow2(k: nat): (r: nat)
    ensures r > 0
  {
    if k == 0 then 1 else 2 * Pow2(k - 1)
  }

  /** `x >> k`, one bit at a time. */
  function Shr(x: nat, k: nat): (r: nat)
    ensures r <= x
  {
    if k == 0 then x else Shr(x / 2, k - 1)
  }

  /** Bit j of x, i.e. `(x >> j) % 2`. */
  function Bit(x: nat, j: nat): (b: nat)
    ensures b < 2
  {
    (x / Pow2(j)) % 2
  }

  /** The four octets of x, lowest first: the bytes `(x >> 8k) & 0xff`. */
  function Le32(x: u32): (s: seq<byte>)
    ensures |s| == 4
  {
    [x % 0x100, (x / 0x100) % 0x100, (x / 0x1_0000) % 0x100, (x / 0x100_0000) % 0x100]
  }

  /** The word composed little-endian from the four bytes at `off`. */
  function Load32LE(s: seq<byte>, off: nat): u32
    requires off + 4 <= |s|
  {
    var b0: int, b1: int, b2: int, b3: int := s[off], s[off + 1], s[off + 2], s[off + 3];
    b0 + b1 * 0x100 + b2 * 0x1_0000 + b3 * 0x100_0000
  }

  /** `ntohl`/`htonl`: reverse the four octets of a word. */
  function Swap32(x: u32): u32
  {
    var b0: int, b1: int, b2: int, b3: int := x % 0x100, (x / 0x100) % 0x100, (x / 0x1_0000) % 0x100, x / 0x100_0000;
    b3 + b2 * 0x100 + b1 * 0x1_0000 + b0 * 0x100_0000
  }

  /** The swap is the word loaded from the octets in reverse order. */
  lemma Swap32AsLoad(x: u32)
    ensures var b := Le32(x); Swap32(x) == Load32LE([b[3], b[2], b[1], b[0]], 0)
  {
  }

  lemma Pow2Values()
    ensures Pow2(8) == 0x100 && Pow2(16) == 0x1_0000 && Pow2(24) == 0x100_0000
    ensures Pow2(32) == 0x1_0000_0000
  {
  }

  lemma DivModUnique(x: int, d: int, q: int, r: int)
    requires d > 0 && 0 <= r < d && x == q * d + r
    ensures x / d == q && x % d == r
  {
    var k := q - x / d;
    assert k * d == x % d - r;
  }

  lemma DivModMul(x: nat, a: nat, b: nat)
    requires a > 0 && b > 0
    ensures x / (a * b) == (x / a) / b
    ensures x % (a * b) == x % a + a * ((x / a) % b)
  {
    var q, r := x / a, x % a;
    var q1, q0 := q / b, q % b;
    assert x == a * q + r;
    assert q == q1 * b + q0;
    assert x == q1 * (a * b) + (a * q0 + r);
    assert a * q0 <= a * (b - 1);
    DivModUnique(x, a * b, q1, a * q0 + r);
  }

  lemma {:induction false} Pow2Add(i: nat, j: nat)
    ensures Pow2(i + j) == Pow2(i) * Pow2(j)
  {
    if j > 0 {
      Pow2Add(i, j - 1);
    }
  }

  /** Shifting right by k divides by 2^k. */
  lemma {:induction false} ShrDiv(x: nat, k: nat)
    ensures Shr(x, k) == x / Pow2(k)
  {
    if k > 0 {
      ShrDiv(x / 2, k - 1);
      DivModMul(x, 2, Pow2(k - 1));
    }
  }

  /** Splitting off bit j: the low j+1 bits are the low j bits plus bit j. */
  lemma Pow2Step(x: nat, j: nat)
    ensures x / Pow2(j + 1) == (x / Pow2(j)) / 2
    ensures x % Pow2(j + 1) == x % Pow2(j) + Pow2(j) * Bit(x, j)
  {
    DivModMul(x, Pow2(j), 2);
  }

  /** Decoding the octets of a word gives the word back. */
  lemma LoadLe32(x: u32)
    ensures Load32LE(Le32(x), 0) == x
  {
    DivModMul(x, 0x100, 0x100);
    DivModMul(x, 0x1_0000, 0x100);
  }

  /** Encoding a loaded word gives the four octets back. */
  lemma Le32Load(s: seq<byte>, off: nat)
    requires off + 4 <= |s|
    ensures Le32(Load32LE(s, off)) == s[off..off + 4]
  {
    var x := Load32LE(s, off);
    var b0: int, b1: int, b2: int, b3: int := s[off], s[off + 1], s[off + 2], s[off + 3];
    DivModUnique(x, 0x100, b1 + b2 * 0x100 + b3 * 0x1_0000, b0);
    DivModUnique(x, 0x1_0000, b2 + b3 * 0x100, b0 + b1 * 0x100);
    DivModUnique(x, 0x100_0000, b3, b0 + b1 * 0x100 + b2 * 0x1_0000);
  }

  /** Two words are equal exactly when their octets are. */
  lemma Le32Injective(x: u32, y: u32)
    ensures Le32(x) == Le32(y) <==> x == y
  {
    if Le32(x) == Le32(y) {
      LoadLe32(x);
      LoadLe32(y);
    }
  }

  /** The octets of the swapped word are the octets of the word, reversed. */
  lemma Le32Swap32(x: u32)
    ensures Le32(Swap32(x)) == [Le32(x)[3], Le32(x)[2], Le32(x)[1], Le32(x)[0]]
  {
    var b := Le32(x);
    Swap32AsLoad(x);
    Le32Load([b[3], b[2], b[1], b[0]], 0);
  }

  /** `ntohl(ntohl(x)) == x`. */
  lemma {:induction false} Swap32Involutive(x: u32)
    ensures Swap32(Swap32(x)) == x
  {
    Le32Swap32(x);
    Swap32AsLoad(Swap32(x));
    LoadLe32(x);
  }

  /** Only the zero word swaps to zero. */
  lemma Swap32Zero(x: u32)
    ensures Swap32(x) == 0 <==> x == 0
  {
    Swap32Involutive(x);
    assert Swap32(0) == 0;
  }

  /** A one-octet host value v is carried on the wire in the top octet of the loaded word. */
  lemma Swap32Small(v: nat)
    requires v < 0x100
    ensures Swap32(v * 0x100_0000) == v && Swap32(v) == v * 0x100_0000
  {
    var x := v * 0x100_0000;
    DivModUnique(x, 0x100, v * 0x1_0000, 0);
    DivModUnique(x, 0x1_0000, v * 0x100, 0);
    DivModUnique(x, 0x100_0000, v, 0);
    DivModUnique(v * 0x1_0000, 0x100, v * 0x100, 0);
    DivModUnique(v * 0x100, 0x100, v, 0);
    DivModUnique(v, 0x100, 0, v);
    DivModUnique(v, 0x1_0000, 0, v);
    DivModUnique(v, 0x100_0000, 0, v);
  }
}
