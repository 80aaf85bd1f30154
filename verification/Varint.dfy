/** Base-128 varints: the in-place writer and size formula of include/encode.h, and the
    unrolled subtract-one decoder of include/decode.h, each against a plain definition
    (sections "Base 128 Varints" and "Signed Integers" of the Protocol Buffers Encoding
    specification). */
module Varint {
  import opened Words
  import opened Buffer

  // ----- the plain definitions -----

  function EncodeVarint(v: nat): (s: seq<byte>)
    ensures |s| > 0
  {
    if v < 128 then [v] else [v % 128 + 128] + EncodeVarint(v / 128)
  }

  datatype Decoded = Value(v: nat, len: nat) | Overlong | PastEnd

  /** Reads groups of seven bits until one without the continuation bit, at most `budget` bytes. */
  function DecodeVarint(s: seq<byte>, budget: nat): Decoded {
    if budget == 0 then Overlong
    else if s == [] then PastEnd
    else if s[0] < 128 then Value(s[0], 1)
    else match DecodeVarint(s[1..], budget - 1)
      case Value(v, n) => Value(s[0] - 128 + 128 * v, n + 1)
      case Overlong => Overlong
      case PastEnd => PastEnd
  }

  ghost predicate IsWordSize(m: int) { m == TWO32 || m == TWO64 }

  lemma {:induction false} DecodedLength(s: seq<byte>, budget: nat)
    ensures var d := DecodeVarint(s, budget);
      d.Value? ==> 0 < d.len <= |s| && d.len <= budget
  {
    if budget > 0 && s != [] {
      DecodedLength(s[1..], budget - 1);
    }
  }

  /** The value a 32- or 64-bit reader is meant to return: at most ten bytes, reduced to the word. */
  function ReadVarint(s: seq<byte>, m: int): (r: Read<nat>)
    requires m > 0
    ensures r.Got? ==> r.value < m && 0 < r.used <= |s|
  {
    DecodedLength(s, 10);
    match DecodeVarint(s, 10)
    case Value(v, n) => Got(v % m, n)
    case Overlong => Bad
    case PastEnd => Bad
  }

  // ----- decoding what was encoded -----

  lemma {:induction false} DecodeEncoded(v: nat, rest: seq<byte>, budget: nat)
    requires |EncodeVarint(v)| <= budget
    ensures DecodeVarint(EncodeVarint(v) + rest, budget) == Value(v, |EncodeVarint(v)|)
    decreases v
  {
    if v >= 128 {
      var tail := EncodeVarint(v / 128);
      DecodeEncoded(v / 128, rest, budget - 1);
      assert (EncodeVarint(v) + rest)[1..] == tail + rest;
    }
  }

  // ----- the size formula -----

  // 63 ^ clz(n): the position of the highest set bit.
  function Log2Floor(n: nat): nat {
    if n < 2 then 0 else 1 + Log2Floor(n / 2)
  }

  function OrOne(v: nat): nat {
    if v % 2 == 0 then v + 1 else v
  }

  /** VarintSize32 and VarintSize64: a multiply and a shift instead of a division by seven. */
  function VarintSize(v: nat): nat {
    (Log2Floor(OrOne(v)) * 9 + 73) / 64
  }

  function Pow2(n: nat): nat {
    if n == 0 then 1 else 2 * Pow2(n - 1)
  }

  lemma {:induction false} Log2Bound(n: nat, k: nat)
    requires k > 0 && n < Pow2(k)
    ensures Log2Floor(n) < k
  {
    if n >= 2 {
      Log2Bound(n / 2, k - 1);
    }
  }

  lemma Pow2Unfolds(n: nat)
    ensures Pow2(0) == 1 && Pow2(n + 1) == 2 * Pow2(n)
  {
  }

  lemma TwiceProduct(x: int, y: int)
    ensures (2 * x) * y == 2 * (x * y)
  {
  }

  lemma {:induction false} Pow2Add(a: nat, b: nat)
    ensures Pow2(a + b) == Pow2(a) * Pow2(b)
  {
    hide Pow2;
    if a == 0 {
      Pow2Unfolds(0);
    } else {
      Pow2Add(a - 1, b);
      Pow2Unfolds(a - 1);
      Pow2Unfolds(a - 1 + b);
      TwiceProduct(Pow2(a - 1), Pow2(b));
    }
  }

  lemma Pow2Of8()
    ensures Pow2(8) == 256
  {
    assert Pow2(4) == 16;
  }

  lemma Pow2Of64()
    ensures Pow2(32) == TWO32 && Pow2(64) == TWO64
  {
    Pow2Of8();
    hide Pow2;
    Pow2Add(8, 8);
    Pow2Add(16, 16);
    Pow2Add(32, 32);
  }

  lemma Log2Quarter(n: nat)
    requires n >= 4
    ensures Log2Floor(n) == 2 + Log2Floor(n / 4)
  {
    assert n / 2 / 2 == n / 4;
  }

  lemma Log2Half(n: nat)
    requires n >= 2
    ensures Log2Floor(n) == 1 + Log2Floor(n / 2)
  {
  }

  lemma Log2Septet(n: nat)
    requires n >= 128
    ensures Log2Floor(n) == 7 + Log2Floor(n / 128)
  {
    hide Log2Floor;
    Log2Quarter(n);
    Log2Quarter(n / 4);
    Log2Quarter(n / 16);
    Log2Half(n / 64);
    assert n / 4 / 4 == n / 16 && n / 16 / 4 == n / 64 && n / 64 / 2 == n / 128;
  }

  lemma Log2IgnoresLowBit(w: nat)
    requires w > 0
    ensures Log2Floor(OrOne(w)) == Log2Floor(w)
  {
    assert OrOne(w) / 2 == w / 2;
  }

  lemma OrOneKeepsSeptets(v: nat)
    ensures OrOne(v) / 128 == v / 128
  {
  }

  lemma {:induction false} EncodedLength(v: nat)
    ensures |EncodeVarint(v)| == Log2Floor(OrOne(v)) / 7 + 1
    decreases v
  {
    if v < 128 {
      Pow2Add(3, 4);
      Log2Bound(OrOne(v), 7);
    } else {
      hide OrOne, Log2Floor;
      EncodedLength(v / 128);
      OrOneKeepsSeptets(v);
      assert OrOne(v) >= 128;
      Log2Septet(OrOne(v));
      Log2IgnoresLowBit(v / 128);
    }
  }

  /** The formula gives exactly the number of bytes written, at most ten. */
  lemma VarintSizeExact(v: nat)
    requires v < TWO64
    ensures VarintSize(v) == |EncodeVarint(v)| <= 10
  {
    hide EncodeVarint, Log2Floor, Pow2;
    EncodedLength(v);
    Pow2Of64();
    Log2Bound(OrOne(v), 64);
  }

  /** Every 64-bit value is recovered in front of any suffix, truncated to the reader's word. */
  lemma VarintRoundTrip(v: nat, rest: seq<byte>, m: int)
    requires v < TWO64 && m > 0
    ensures ReadVarint(EncodeVarint(v) + rest, m) == Got(v % m, |EncodeVarint(v)|)
  {
    hide EncodeVarint, DecodeVarint, VarintSize;
    VarintSizeExact(v);
    DecodeEncoded(v, rest, 10);
  }

  // ----- the decoder of include/decode.h -----

  function Pow128(n: nat): (p: nat)
    ensures p > 0
  {
    if n == 0 then 1 else 128 * Pow128(n - 1)
  }

  /** The low seven bits of the first `n` bytes, each times 2^(7i). */
  function LowSum(s: seq<byte>, n: nat): nat
    requires n <= |s|
  {
    if n == 0 then 0 else LowSum(s, n - 1) + (s[n - 1] % 128) * Pow128(n - 1)
  }

  predicate AllContinue(s: seq<byte>, n: nat)
    requires n <= |s|
  {
    forall j :: 0 <= j < n ==> s[j] >= 128
  }

  lemma LowSumZero(s: seq<byte>)
    ensures LowSum(s, 0) == 0
  {
  }

  lemma {:induction false} LowSumFront(s: seq<byte>, n: nat)
    requires 0 < n <= |s|
    ensures LowSum(s, n) == s[0] % 128 + 128 * LowSum(s[1..], n - 1)
  {
    if n > 1 {
      LowSumFront(s, n - 1);
      var x := s[n - 1] % 128;
      assert x * Pow128(n - 1) == 128 * (x * Pow128(n - 2));
    } else {
      assert LowSum(s, 0) == 0 && Pow128(0) == 1;
    }
  }

  /** What the plain decoder returns, on every byte string: the sum of the low septets up to the
      first byte without a continuation bit, and failure exactly when the first `budget` bytes all
      carry it. */
  lemma {:induction false} DecodedMeaning(s: seq<byte>, budget: nat)
    ensures var d := DecodeVarint(s, budget);
      && (d.Value? ==> 0 < d.len <= |s| && d.len <= budget && AllContinue(s, d.len - 1)
                       && s[d.len - 1] < 128 && d.v == LowSum(s, d.len))
      && (d.Overlong? <==> budget <= |s| && AllContinue(s, budget))
      && (d.PastEnd? <==> |s| < budget && AllContinue(s, |s|))
  {
    hide LowSum;
    if budget > 0 && s != [] {
      DecodedMeaning(s[1..], budget - 1);
      var d := DecodeVarint(s, budget);
      assert forall j :: 0 < j < |s| ==> s[j] == s[1..][j - 1];
      if d.Value? {
        LowSumFront(s, d.len);
        LowSumZero(s[1..]);
      }
    }
  }

  /** The first byte without a continuation bit determines what a reader returns. */
  lemma ReadEnds(s: seq<byte>, n: nat, m: int)
    requires m > 0 && n < 10 && n < |s| && AllContinue(s, n) && s[n] < 128
    ensures ReadVarint(s, m) == Got(LowSum(s, n + 1) % m, n + 1)
  {
    hide LowSum, DecodeVarint;
    DecodedMeaning(s, 10);
  }

  lemma ReadFails(s: seq<byte>, n: nat, m: int)
    requires m > 0 && n <= |s| && AllContinue(s, n) && (n == 10 || n == |s| < 10)
    ensures ReadVarint(s, m) == Bad
  {
    hide LowSum, DecodeVarint;
    DecodedMeaning(s, 10);
  }

  // (byte - 1) << (7 * i) in an unsigned word of size m.
  function Septet(b: byte, i: nat, m: int): int
    requires m > 0
  {
    (((b - 1) % m) * Pow128(i)) % m
  }

  lemma Congruent32(y: int, k: int)
    ensures (y + k * TWO32) % TWO32 == y % TWO32
  {
  }

  lemma Congruent64(y: int, k: int)
    ensures (y + k * TWO64) % TWO64 == y % TWO64
  {
  }

  lemma Congruent(x: int, y: int, k: int, m: int)
    requires IsWordSize(m) && x == y + k * m
    ensures x % m == y % m
  {
    if m == TWO32 { Congruent32(y, k); } else { Congruent64(y, k); }
  }

  lemma SeptetAdds(res: int, b: byte, i: nat, m: int)
    requires IsWordSize(m)
    ensures (res + Septet(b, i, m)) % m == (res + (b - 1) * Pow128(i)) % m
  {
    var p, x: int := Pow128(i), b - 1;
    var q, y := x / m, (x % m) * p;
    assert x % m == x - q * m;
    assert y == x * p + (-q * p) * m;
    var t := y / m;
    assert y % m == y + (-t) * m;
    Congruent(res + Septet(b, i, m), res + x * p, -q * p - t, m);
  }

  // b - 1 in place of the low septet leaves a carry behind exactly when b continues.
  lemma TakeBackCarry(s: seq<byte>, i: nat)
    requires i < |s|
    ensures LowSum(s, i) + Pow128(i) + (s[i] - 1) * Pow128(i)
         == LowSum(s, i + 1) + if s[i] < 128 then 0 else Pow128(i + 1)
  {
    var b: int, p := s[i], Pow128(i);
    assert p + (b - 1) * p == b * p;
    if b >= 128 {
      assert b * p == (b - 128) * p + 128 * p;
    }
  }

  /** One step of the accumulator: after `i` continued bytes it holds the septets so far plus the
      carry 2^(7i) that the next `byte - 1` takes back. */
  lemma AccumulateStep(s: seq<byte>, i: nat, res: int, m: int)
    requires IsWordSize(m) && i < |s|
    requires res == (LowSum(s, i) + Pow128(i)) % m
    ensures (res + Septet(s[i], i, m)) % m
         == (LowSum(s, i + 1) + if s[i] < 128 then 0 else Pow128(i + 1)) % m
  {
    SeptetAdds(res, s[i], i, m);
    TakeBackCarry(s, i);
    var full, d := LowSum(s, i) + Pow128(i), (s[i] as int - 1) * Pow128(i);
    Congruent(full + d, res + d, full / m, m);
  }

  lemma {:induction false} Pow128Splits(n: nat)
    requires n >= 5
    ensures Pow128(n) == TWO32 * (8 * Pow128(n - 5))
  {
    if n == 5 {
      assert Pow128(2) == 128 * 128;
      assert Pow128(4) == 128 * 128 * Pow128(2);
    } else {
      Pow128Splits(n - 1);
    }
  }

  /** Beyond the fifth byte nothing reaches a 32-bit word. */
  lemma {:induction false} HighSeptetsVanish(s: seq<byte>, n: nat)
    requires 5 <= n <= |s|
    ensures LowSum(s, n) % TWO32 == LowSum(s, 5) % TWO32
  {
    if n > 5 {
      HighSeptetsVanish(s, n - 1);
      Pow128Splits(n - 1);
      var x := s[n - 1] % 128;
      var k := x * (8 * Pow128(n - 6));
      assert x * Pow128(n - 1) == k * TWO32;
      Congruent(LowSum(s, n), LowSum(s, n - 1), k, TWO32);
    }
  }

  lemma ReadOne(s: seq<byte>, m: int)
    requires IsWordSize(m) && s != [] && s[0] < 128
    ensures ReadVarint(s, m) == Got(s[0], 1)
  {
  }

  lemma LowSumTwo(s: seq<byte>)
    requires |s| >= 2
    ensures LowSum(s, 1) == s[0] % 128 && LowSum(s, 2) == LowSum(s, 1) + (s[1] % 128) * Pow128(1)
    ensures Pow128(1) == 128 && Pow128(2) == 128 * 128
  {
    assert LowSum(s, 0) == 0 && Pow128(0) == 1;
    assert LowSum(s, 1) == LowSum(s, 0) + (s[0] % 128) * Pow128(0);
  }

  lemma FirstTwoBytes(s: seq<byte>)
    requires |s| >= 2 && s[0] >= 128
    ensures (s[0] + Septet(s[1], 1, TWO32)) % TWO32
         == if s[1] < 128 then LowSum(s, 2) else LowSum(s, 2) + Pow128(2)
    ensures LowSum(s, 2) + Pow128(2) < TWO32
  {
    hide LowSum, Pow128, Septet;
    LowSumTwo(s);
    assert s[0] == LowSum(s, 1) + Pow128(1);
    SmallMod(s[0], TWO32);
    AccumulateStep(s, 1, s[0], TWO32);
    SmallMod(LowSum(s, 2), TWO32);
    SmallMod(LowSum(s, 2) + Pow128(2), TWO32);
  }

  lemma FifthCarryVanishes(s: seq<byte>)
    requires |s| >= 5
    ensures (LowSum(s, 5) + Pow128(5)) % TWO32 == LowSum(s, 5) % TWO32
  {
    hide LowSum;
    Pow128Splits(5);
    Congruent(LowSum(s, 5) + Pow128(5), LowSum(s, 5), 8, TWO32);
  }

  method VarintParseSlow32(data: seq<byte>, p: nat, res0: int) returns (r: Read<nat>)
    requires p + 2 <= |data| && AllContinue(data[p..], 2)
    requires res0 == (LowSum(data[p..], 2) + Pow128(2)) % TWO32
    ensures r == ReadVarint(data[p..], TWO32)
  {
    hide ReadVarint, DecodeVarint, Septet, Pow128, LowSum;
    ghost var s := data[p..];
    var res := res0;
    var i := 2;
    while i < 5
      invariant 2 <= i <= 5 && i <= |s| && AllContinue(s, i)
      invariant res == (LowSum(s, i) + Pow128(i)) % TWO32
    {
      if p + i == |data| { ReadFails(s, i, TWO32); return Bad; }
      AccumulateStep(s, i, res, TWO32);
      res := (res + Septet(data[p + i], i, TWO32)) % TWO32;
      if data[p + i] < 128 {
        ReadEnds(s, i, TWO32);
        return Got(res, i + 1);
      }
      i := i + 1;
    }
    FifthCarryVanishes(s);
    while i < 10
      invariant 5 <= i <= 10 && i <= |s| && AllContinue(s, i)
    {
      if p + i == |data| { ReadFails(s, i, TWO32); return Bad; }
      if data[p + i] < 128 {
        ReadEnds(s, i, TWO32);
        HighSeptetsVanish(s, i + 1);
        return Got(res, i + 1);
      }
      i := i + 1;
    }
    ReadFails(s, 10, TWO32);
    return Bad;
  }

  method VarintParseSlow64(data: seq<byte>, p: nat, res32: int) returns (r: Read<nat>)
    requires p + 2 <= |data| && AllContinue(data[p..], 2)
    requires res32 == (LowSum(data[p..], 2) + Pow128(2)) % TWO64
    ensures r == ReadVarint(data[p..], TWO64)
  {
    hide ReadVarint, DecodeVarint, Septet, Pow128, LowSum;
    ghost var s := data[p..];
    var res := res32;
    var i := 2;
    while i < 10
      invariant 2 <= i <= 10 && i <= |s| && AllContinue(s, i)
      invariant res == (LowSum(s, i) + Pow128(i)) % TWO64
    {
      if p + i == |data| { ReadFails(s, i, TWO64); return Bad; }
      AccumulateStep(s, i, res, TWO64);
      res := (res + Septet(data[p + i], i, TWO64)) % TWO64;
      if data[p + i] < 128 {
        ReadEnds(s, i, TWO64);
        return Got(res, i + 1);
      }
      i := i + 1;
    }
    ReadFails(s, 10, TWO64);
    return Bad;
  }

  /** VarintParse for both widths: the two-byte fast path, then VarintParseSlow32 or
      VarintParseSlow64. It agrees with the plain decoder on every byte string. */
  method VarintParse(data: seq<byte>, p: nat, m: int) returns (r: Read<nat>)
    requires p <= |data| && IsWordSize(m)
    ensures r == ReadVarint(data[p..], m)
  {
    hide ReadVarint, DecodeVarint, Septet, Pow128, LowSum;
    ghost var s := data[p..];
    if p == |data| { ReadFails(s, 0, m); return Bad; }
    var res: int := data[p];
    if res < 128 { ReadOne(s, m); return Got(res, 1); }
    if p + 1 == |data| { ReadFails(s, 1, m); return Bad; }
    FirstTwoBytes(s);
    // the first two bytes are always combined in 32 bits
    res := (res + Septet(data[p + 1], 1, TWO32)) % TWO32;
    if data[p + 1] < 128 {
      ReadEnds(s, 1, m);
      return Got(res, 2);
    }
    if m == TWO32 {
      r := VarintParseSlow32(data, p, res);
    } else {
      r := VarintParseSlow64(data, p, res);
    }
  }

  // ----- the writer of include/encode.h -----

  // b | 0x80
  function Or80(b: byte): byte {
    if b < 128 then b + 128 else b
  }

  ghost predicate Tail(enc: seq<byte>, n: nat, value: nat) {
    n <= |enc| && enc[n..] == EncodeVarint(value)
  }

  lemma Remainder128(k: int, r: int)
    requires 0 <= r < 128
    ensures (128 * k + r) % 128 == r
  {
  }

  lemma LowByteContinues(v: nat)
    ensures Or80(v % 256) == v % 128 + 128
  {
    var q, b := v / 256, v % 256;
    if b < 128 {
      Remainder128(2 * q, b);
    } else {
      Remainder128(2 * q + 1, b - 128);
    }
  }

  lemma TailStep(enc: seq<byte>, n: nat, value: nat)
    requires Tail(enc, n, value) && value >= 128
    ensures n + 1 < |enc| && enc[n] == Or80(value % 256) && Tail(enc, n + 1, value / 128)
  {
    LowByteContinues(value);
    hide Or80;
    assert enc[n..][0] == enc[n];
    assert enc[n + 1..] == enc[n..][1..];
  }

  lemma TailEnds(enc: seq<byte>, n: nat, value: nat)
    requires Tail(enc, n, value) && value < 128
    ensures n + 1 == |enc| && enc[n] == value % 256
  {
    assert enc[n..][0] == enc[n];
  }

  /** The first `n` bytes of `enc` are in place, then the low byte of what is left of the value. */
  ghost predicate PartWritten(before: seq<byte>, now: seq<byte>, at: nat, enc: seq<byte>, n: nat, value: nat) {
    && at + |enc| <= |before| == |now| && n < |enc| && Tail(enc, n, value)
    && now[..at] == before[..at] && now[at + n + 1..] == before[at + n + 1..]
    && now[at..at + n] == enc[..n] && now[at + n] == value % 256
  }

  lemma PartGrows(before: seq<byte>, now: seq<byte>, at: nat, enc: seq<byte>, n: nat, value: nat)
    requires PartWritten(before, now, at, enc, n, value) && value >= 128
    ensures n + 1 < |enc|
    ensures PartWritten(before, now[at + n := Or80(now[at + n])][at + n + 1 := (value / 128) % 256], at, enc,
                        n + 1, value / 128)
  {
    TailStep(enc, n, value);
    hide Tail, Or80;
    var grown := now[at + n := Or80(now[at + n])][at + n + 1 := (value / 128) % 256];
    assert grown[at..at + n + 1] == now[at..at + n] + [Or80(now[at + n])] == enc[..n + 1];
  }

  lemma PartEnds(before: seq<byte>, now: seq<byte>, at: nat, enc: seq<byte>, n: nat, value: nat)
    requires PartWritten(before, now, at, enc, n, value) && value < 128
    ensures n + 1 == |enc| && Wrote(before, now, at, enc)
  {
    TailEnds(enc, n, value);
    hide Tail;
    assert now[at..at + |enc|] == now[at..at + n] + [now[at + n]] == enc;
  }

  /** UnsafeVarint: writes a byte, then goes back to set its continuation bit if more follow. The
      second byte, which the source writes before its loop, is the first turn of the loop here. */
  method UnsafeVarint(value0: nat, buf: array<byte>, at: nat) returns (next: nat)
    requires at + |EncodeVarint(value0)| <= buf.Length
    modifies buf
    ensures next == at + |EncodeVarint(value0)|
    ensures Wrote(old(buf[..]), buf[..], at, EncodeVarint(value0))
  {
    ghost var enc := EncodeVarint(value0);
    var value: nat := value0;
    buf[at] := value % 256;
    var ptr := at + 1;
    assert PartWritten(old(buf[..]), buf[..], at, enc, 0, value);
    hide EncodeVarint, PartWritten, Or80, Wrote;
    while value >= 0x80
      invariant at + 1 <= ptr <= at + |enc| <= buf.Length
      invariant PartWritten(old(buf[..]), buf[..], at, enc, ptr - 1 - at, value)
      decreases value
    {
      PartGrows(old(buf[..]), buf[..], at, enc, ptr - 1 - at, value);
      buf[ptr - 1] := Or80(buf[ptr - 1]);
      value := value / 128;
      buf[ptr] := value % 256;
      ptr := ptr + 1;
    }
    PartEnds(old(buf[..]), buf[..], at, enc, ptr - 1 - at, value);
    return ptr;
  }

  // ----- ZigZag -----

  /** Exclusive-or with a word that is all zeros or all ones. */
  function XorMask(x: nat, ones: bool, m: int): int
    requires x < m
  {
    if ones then m - 1 - x else x
  }

  // ZigZagEncode32/64 for a word of size m: (n << 1) ^ (n >> (width - 1)), the right shift arithmetic.
  function ZigZagEncode(n: int, m: int): nat
    requires IsWordSize(m) && -m <= 2 * n < m
  {
    XorMask((2 * n) % m, n < 0, m)
  }

  // ZigZagDecode32/64: (u >> 1) ^ (~(u & 1) + 1), read back as a signed word.
  function ZigZagDecode(u: nat, m: int): int
    requires IsWordSize(m) && u < m
  {
    var x := XorMask(u / 2, u % 2 == 1, m);
    ToSigned(x, m)
  }

  lemma ZigZagForward(n: int, m: int)
    requires IsWordSize(m) && -m <= 2 * n < m
    ensures ZigZagEncode(n, m) == if n >= 0 then 2 * n else -2 * n - 1
  {
    if n < 0 {
      assert (2 * n) % m == 2 * n + m by { Congruent(2 * n + m, 2 * n, 1, m); }
    }
  }

  lemma ZigZagBackward(u: nat, m: int)
    requires IsWordSize(m) && u < m
    ensures ZigZagDecode(u, m) == if u % 2 == 0 then u / 2 else -(u / 2) - 1
  {
  }

  lemma ZigZagThere(n: int, m: int)
    requires IsWordSize(m) && -m <= 2 * n < m
    ensures ZigZagEncode(n, m) < m && ZigZagDecode(ZigZagEncode(n, m), m) == n
  {
    hide ZigZagEncode, ZigZagDecode;
    ZigZagForward(n, m);
    ZigZagBackward(ZigZagEncode(n, m), m);
  }

  lemma ZigZagBack(u: nat, m: int)
    requires IsWordSize(m) && u < m
    ensures -m <= 2 * ZigZagDecode(u, m) < m && ZigZagEncode(ZigZagDecode(u, m), m) == u
  {
    hide ZigZagEncode, ZigZagDecode;
    ZigZagBackward(u, m);
    ZigZagForward(ZigZagDecode(u, m), m);
  }

  /** ZigZag is a bijection between the signed and unsigned words that keeps small magnitudes small. */
  lemma ZigZagBijection(n: int, u: nat, m: int)
    requires IsWordSize(m) && -m <= 2 * n < m && u < m
    ensures ZigZagDecode(ZigZagEncode(n, m), m) == n
    ensures -m <= 2 * ZigZagDecode(u, m) < m && ZigZagEncode(ZigZagDecode(u, m), m) == u
    ensures ZigZagEncode(n, m) == if n >= 0 then 2 * n else -2 * n - 1
  {
    hide ZigZagEncode, ZigZagDecode;
    ZigZagForward(n, m);
    ZigZagThere(n, m);
    ZigZagBack(u, m);
  }

  /** WriteSInt32NoTagToArray then ReadVarintZigZag32, which decodes 64 bits and truncates. */
  lemma SInt32RoundTrip(n: int, rest: seq<byte>)
    requires -TWO31 <= n < TWO31
    ensures var u := ZigZagEncode(n, TWO32);
      && ReadVarint(EncodeVarint(u) + rest, TWO64) == Got(u, |EncodeVarint(u)|)
      && ZigZagDecode(u % TWO32, TWO32) == n
  {
    hide EncodeVarint, ReadVarint, ZigZagEncode, ZigZagDecode;
    var u := ZigZagEncode(n, TWO32);
    ZigZagBijection(n, 0, TWO32);
    assert u < TWO32;
    VarintRoundTrip(u, rest, TWO64);
  }

  lemma {:induction false} Log2Reaches(n: nat, k: nat)
    requires Pow2(k) <= n
    ensures k <= Log2Floor(n)
  {
    if k > 0 {
      Log2Reaches(n / 2, k - 1);
    }
  }

  lemma Log2Top(v: nat)
    requires TWO63 <= v < TWO64
    ensures Log2Floor(OrOne(v)) == 63
  {
    Pow2Of64();
    Log2Bound(OrOne(v), 64);
    Log2Reaches(OrOne(v), 63);
  }

  lemma NegativeExtended(n: int)
    requires -TWO31 <= n < 0
    ensures TWO63 <= n % TWO64 < TWO64
  {
    assert n % TWO64 == n + TWO64;
  }

  /** WriteInt32NoTagToArray sign-extends to 64 bits (ten bytes when negative); the 32-bit reader
      recovers the value. */
  lemma Int32RoundTrip(n: int, rest: seq<byte>)
    requires -TWO31 <= n < TWO31
    ensures var w := EncodeVarint(n % TWO64);
      && (n < 0 ==> |w| == 10)
      && ReadVarint(w + rest, TWO32) == Got(n % TWO32, |w|)
      && ToSigned(n % TWO32, TWO32) == n
  {
    hide EncodeVarint, ReadVarint, ToSigned, Log2Floor;
    VarintRoundTrip(n % TWO64, rest, TWO32);
    TruncateExtended(n);
    SignedBack(n, TWO32);
    if n < 0 {
      var v := n % TWO64;
      NegativeExtended(n);
      VarintSizeExact(v);
      Log2Top(v);
    }
  }
}
