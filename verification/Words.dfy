/** Machine words as the serializers see them: bytes, unsigned and signed
    32/64-bit values as integers, and the little-endian images that `memcpy`
    of an integer produces. */
module Words {

  type byte = b: int | 0 <= b < 256

  const TWO16: int := 0x1_0000
  const TWO31: int := 0x8000_0000
  const TWO32: int := 0x1_0000_0000
  const TWO63: int := 0x8000_0000_0000_0000
  const TWO64: int := 0x1_0000_0000_0000_0000

  /** The outcome of reading something at the front of a byte string: the value
      and how many bytes it took, or `Bad` where the C++ reader would run past the
      buffer, return a null cursor or never return. */
  datatype Read<+T> = Got(value: T, used: nat) | Bad

  // static_cast<int32_t> or static_cast<int64_t> of an unsigned word of size m.
  function ToSigned(u: int, m: int): int {
    if 2 * u < m then u else u - m
  }

  lemma SignedBack(n: int, m: int)
    requires (m == TWO32 || m == TWO64) && -m <= 2 * n < m
    ensures 0 <= n % m < m && ToSigned(n % m, m) == n
  {
    if m == TWO32 {
      assert n % TWO32 == if n >= 0 then n else n + TWO32;
    } else {
      assert n % TWO64 == if n >= 0 then n else n + TWO64;
    }
  }

  /** Truncating a 64-bit word to 32 bits commutes with the sign extension. */
  lemma TruncateExtended(n: int)
    ensures (n % TWO64) % TWO32 == n % TWO32
    ensures (n % TWO64) % TWO64 == n % TWO64
  {
  }

  /** Accumulating in a 16- or 32-bit counter is summing and truncating once. */
  lemma CounterAdds16(a: nat, b: nat)
    ensures (a % TWO16 + b) % TWO16 == (a + b) % TWO16
  {
    var q := a / TWO16;
    assert a + b == (a % TWO16 + b) + q * TWO16;
  }

  lemma CounterAdds32(a: nat, b: nat)
    ensures (a % TWO32 + b) % TWO32 == (a + b) % TWO32
  {
    var q := a / TWO32;
    assert a + b == (a % TWO32 + b) + q * TWO32;
  }

  lemma SmallMod(n: int, m: int)
    requires (m == TWO32 || m == TWO64) && 0 <= n < m
    ensures n % m == n
  {
  }

  /** `memcpy` of the low `n` bytes of `v` on a little-endian machine. */
  function LittleEndian(v: nat, n: nat): (s: seq<byte>)
    ensures |s| == n
  {
    if n == 0 then [] else [v % 256] + LittleEndian(v / 256, n - 1)
  }

  function FromLittleEndian(s: seq<byte>): nat {
    if s == [] then 0 else s[0] + 256 * FromLittleEndian(s[1..])
  }

  function Pow256(n: nat): (p: nat)
    ensures p > 0
  {
    if n == 0 then 1 else 256 * Pow256(n - 1)
  }

  /** Reading back the image of a word that fits gives the word. */
  lemma {:induction false} LittleEndianRoundTrip(v: nat, n: nat)
    requires v < Pow256(n)
    ensures FromLittleEndian(LittleEndian(v, n)) == v
  {
    if n > 0 {
      LittleEndianRoundTrip(v / 256, n - 1);
      assert LittleEndian(v, n)[1..] == LittleEndian(v / 256, n - 1);
    }
  }

  /** The first `n` bytes, the one at index i times 256^i. */
  function Weighted(s: seq<byte>, n: nat): nat
    requires n <= |s|
  {
    if n == 0 then 0 else Weighted(s, n - 1) + s[n - 1] * Pow256(n - 1)
  }

  lemma {:induction false} WeightedFront(s: seq<byte>, n: nat)
    requires 0 < n <= |s|
    ensures Weighted(s, n) == s[0] + 256 * Weighted(s[1..], n - 1)
  {
    if n == 1 {
      assert Weighted(s, 0) == 0 && Pow256(0) == 1;
    } else {
      WeightedFront(s, n - 1);
      var x := s[n - 1];
      assert x * Pow256(n - 1) == 256 * (x * Pow256(n - 2));
    }
  }

  /** The byte at index i of a word's image has the weight 256^i. */
  lemma {:induction false} LittleEndianWeights(v: nat, n: nat)
    requires v < Pow256(n)
    ensures Weighted(LittleEndian(v, n), n) == v
  {
    if n > 0 {
      LittleEndianWeights(v / 256, n - 1);
      WeightedFront(LittleEndian(v, n), n);
      assert LittleEndian(v, n)[1..] == LittleEndian(v / 256, n - 1);
    }
  }

  lemma {:induction false} FromLittleEndianBound(s: seq<byte>)
    ensures FromLittleEndian(s) < Pow256(|s|)
  {
    if s != [] {
      FromLittleEndianBound(s[1..]);
    }
  }

  lemma WordSizes()
    ensures Pow256(2) == TWO16 && Pow256(4) == TWO32 && Pow256(8) == TWO64
  {
    assert Pow256(2) == 256 * 256;
    assert Pow256(4) == 256 * 256 * Pow256(2);
    assert Pow256(6) == 256 * 256 * Pow256(4);
  }

  /** ReadFieldLength, ReadFixed32 and ReadFixed64: `n` bytes taken little-endian. */
  function ReadWord(s: seq<byte>, n: nat): Read<nat> {
    if |s| < n then Bad else Got(FromLittleEndian(s[..n]), n)
  }

  lemma ReadWordBack(v: nat, n: nat, rest: seq<byte>)
    requires v < Pow256(n)
    ensures ReadWord(LittleEndian(v, n) + rest, n) == Got(v, n)
  {
    LittleEndianRoundTrip(v, n);
    assert (LittleEndian(v, n) + rest)[..n] == LittleEndian(v, n);
  }

  function Zeros(n: nat): (s: seq<byte>)
    ensures |s| == n
  {
    seq(n, _ => 0)
  }
}
