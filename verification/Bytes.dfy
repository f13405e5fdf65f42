/** Machine words, bytes and bit masks. */
module Bytes {

  const TWO_TO_THE_16: int := 0x1_0000
  const TWO_TO_THE_64: int := 0x1_0000_0000_0000_0000

  type u8 = x: int | 0 <= x < 0x100
  type u16 = x: int | 0 <= x < 0x1_0000
  type u32 = x: int | 0 <= x < 0x1_0000_0000
  type u64 = x: int | 0 <= x < 0x1_0000_0000_0000_0000

  const U64_MAX: u64 := 0xffff_ffff_ffff_ffff

  type Buffer = seq<u8>

  /** Rust's `as u64` on a wider non-negative value. */
  function AsU64(n: nat): u64 {
    n % TWO_TO_THE_64
  }

  /** Numbers that fit are kept, and 2^64 is lost without a trace. */
  lemma AsU64Wraps(n: nat)
    ensures n < 0x1_0000_0000_0000_0000 ==> AsU64(n) == n
    ensures AsU64(n + 0x1_0000_0000_0000_0000) == AsU64(n)
  {
  }

  /** Rust's `saturating_sub`. */
  function SaturatingSub(a: int, b: int): nat {
    if a >= b then a - b else 0
  }

  function Byte(b: Buffer, i: nat): nat
    requires i < |b|
  {
    b[i]
  }

  /** `u16::from_be_bytes` on the two bytes at offset `i`. */
  function Be16(b: Buffer, i: nat): u16
    requires i + 2 <= |b|
  {
    var high: int := b[i];
    high * 256 + b[i + 1]
  }

  /** `to_be_bytes` of a 16-bit word. */
  function ToBe16(w: u16): Buffer {
    [w / 256, w % 256]
  }

  /** Little-endian decoding, least significant byte first. */
  function FromLe(b: Buffer): nat {
    if b == [] then 0 else b[0] + 256 * FromLe(b[1..])
  }

  function ToLe(n: nat, width: nat): (b: Buffer)
    ensures |b| == width
  {
    if width == 0 then [] else [n % 256] + ToLe(n / 256, width - 1)
  }

  function Pow(base: nat, n: nat): nat {
    if n == 0 then 1 else base * Pow(base, n - 1)
  }

  lemma {:induction false} FromLeBound(b: Buffer)
    ensures FromLe(b) < Pow(256, |b|)
  {
    if b == [] {
    } else {
      FromLeBound(b[1..]);
    }
  }

  lemma {:induction false} FromLeToLe(n: nat, width: nat)
    requires n < Pow(256, width)
    ensures FromLe(ToLe(n, width)) == n
  {
    if width == 0 {
    } else {
      FromLeToLe(n / 256, width - 1);
      assert ToLe(n, width)[1..] == ToLe(n / 256, width - 1);
    }
  }

  lemma {:induction false} FromLeSnoc(b: Buffer, x: u8)
    ensures FromLe(b + [x]) == FromLe(b) + Pow(256, |b|) * x
  {
    if b == [] {
    } else {
      FromLeSnoc(b[1..], x);
      assert (b + [x])[1..] == b[1..] + [x];
      assert 256 * (Pow(256, |b| - 1) * x) == Pow(256, |b|) * x;
    }
  }

  /** The bytes from `i` on, each times the power of 256 of its place. */
  function PlaceValues(b: Buffer, i: nat, width: nat): nat
    requires i + width <= |b|
  {
    if width == 0 then 0 else PlaceValues(b, i, width - 1) + Pow(256, width - 1) * b[i + width - 1]
  }

  /** Little-endian: the byte at place k weighs 256 to the k. */
  lemma {:induction false} FromLePlaces(b: Buffer, i: nat, width: nat)
    requires i + width <= |b|
    ensures FromLe(b[i..i + width]) == PlaceValues(b, i, width)
  {
    if width == 0 {
    } else {
      FromLePlaces(b, i, width - 1);
      FromLeSnoc(b[i..i + width - 1], b[i + width - 1]);
      assert b[i..i + width] == b[i..i + width - 1] + [b[i + width - 1]];
    }
  }

  /** Buffers of one length that decode to the same number are the same buffer. */
  lemma {:induction false} FromLeInjective(b: Buffer, c: Buffer)
    requires |b| == |c|
    ensures FromLe(b) == FromLe(c) <==> b == c
  {
    if b == [] {
    } else {
      FromLeInjective(b[1..], c[1..]);
      assert b == [b[0]] + b[1..];
      assert c == [c[0]] + c[1..];
    }
  }

  /** Bitwise conjunction of two non-negative machine words. */
  function BitAnd(a: nat, b: nat): nat {
    if a == 0 || b == 0 then 0 else 2 * BitAnd(a / 2, b / 2) + if a % 2 == 1 && b % 2 == 1 then 1 else 0
  }

  /** The binary digit of weight two to the k. */
  function Bit(a: nat, k: nat): nat {
    if k == 0 then a % 2 else Bit(a / 2, k - 1)
  }

  lemma MulMonotone(d: nat, x: int, y: int)
    requires x <= y
    ensures d * x <= d * y
  {
  }

  lemma ModUnique(a: int, d: nat, q: int, r: nat)
    requires d >= 1 && r < d && a == d * q + r
    ensures a % d == r && a / d == q
  {
    if a / d < q {
      MulMonotone(d, a / d + 1, q);
    } else if a / d > q {
      MulMonotone(d, q + 1, a / d);
    }
  }

  lemma HalveThenDivide(a: nat, m: nat)
    requires m >= 1
    ensures (a / 2) / m == a / (2 * m)
  {
    var q, r := (a / 2) / m, (a / 2) % m;
    assert a / 2 == m * q + r;
    assert a == (2 * m) * q + (2 * r + a % 2);
    ModUnique(a, 2 * m, q, 2 * r + a % 2);
  }

  lemma {:induction false} BitIsDigit(a: nat, k: nat)
    ensures Pow(2, k) >= 1 && Bit(a, k) == (a / Pow(2, k)) % 2
  {
    if k == 0 {
    } else {
      BitIsDigit(a / 2, k - 1);
      HalveThenDivide(a, Pow(2, k - 1));
    }
  }

  lemma {:induction false} NoBits(k: nat)
    ensures Bit(0, k) == 0
  {
    if k == 0 {
    } else {
      NoBits(k - 1);
    }
  }

  lemma TwicePlus(n: nat, r: nat)
    requires r < 2
    ensures (2 * n + r) % 2 == r && (2 * n + r) / 2 == n
  {
  }

  lemma AndUnfolds(a: nat, b: nat)
    requires a != 0 && b != 0
    ensures BitAnd(a, b) == 2 * BitAnd(a / 2, b / 2) + if a % 2 == 1 && b % 2 == 1 then 1 else 0
  {
  }

  lemma HalvedAnd(a: nat, b: nat)
    requires a != 0 && b != 0
    ensures BitAnd(a, b) % 2 == (if a % 2 == 1 && b % 2 == 1 then 1 else 0)
    ensures BitAnd(a, b) / 2 == BitAnd(a / 2, b / 2)
  {
    hide *;
    AndUnfolds(a, b);
    TwicePlus(BitAnd(a / 2, b / 2), if a % 2 == 1 && b % 2 == 1 then 1 else 0);
  }

  /** A bit of the conjunction is set when both are. */
  lemma {:induction false} BitAndBits(a: nat, b: nat, k: nat)
    ensures Bit(BitAnd(a, b), k) == if Bit(a, k) == 1 && Bit(b, k) == 1 then 1 else 0
    decreases k
  {
    if a == 0 || b == 0 {
      NoBits(k);
    } else if k == 0 {
      HalvedAnd(a, b);
    } else {
      HalvedAnd(a, b);
      BitAndBits(a / 2, b / 2, k - 1);
    }
  }

  lemma BitAndOddMask(a: nat, m: nat)
    requires m >= 1
    ensures BitAnd(a, 2 * m - 1) == 2 * BitAnd(a / 2, m - 1) + a % 2
  {
    assert (2 * m - 1) / 2 == m - 1 && (2 * m - 1) % 2 == 1;
  }

  lemma ModDouble(a: nat, m: nat)
    requires m >= 1
    ensures a % (2 * m) == 2 * ((a / 2) % m) + a % 2
  {
    var q, r := (a / 2) / m, (a / 2) % m;
    assert a / 2 == q * m + r;
    assert a == (2 * m) * q + (2 * r + a % 2);
    ModUnique(a, 2 * m, q, 2 * r + a % 2);
  }

  /** Masking with n low ones is the remainder modulo two to the n. */
  lemma {:induction false} BitAndLowOnes(a: nat, n: nat)
    ensures Pow(2, n) >= 1
    ensures BitAnd(a, Pow(2, n) - 1) == a % Pow(2, n)
  {
    if n == 0 {
    } else {
      BitAndLowOnes(a / 2, n - 1);
      BitAndOddMask(a, Pow(2, n - 1));
      ModDouble(a, Pow(2, n - 1));
    }
  }

  /** Testing a single bit of a byte: the top one. */
  lemma TopBit(v: u8)
    ensures BitAnd(v, 0x80) != 0 <==> v >= 0x80
  {
    assert BitAnd(v / 128, 1) == v / 128;
    assert BitAnd(v / 64, 2) == 2 * BitAnd(v / 128, 1);
    assert BitAnd(v / 32, 4) == 2 * BitAnd(v / 64, 2);
    assert BitAnd(v / 16, 8) == 2 * BitAnd(v / 32, 4);
    assert BitAnd(v / 8, 16) == 2 * BitAnd(v / 16, 8);
    assert BitAnd(v / 4, 32) == 2 * BitAnd(v / 8, 16);
    assert BitAnd(v / 2, 64) == 2 * BitAnd(v / 4, 32);
  }

  /** The masks the packet code uses, as remainders. */
  lemma Masks(a: nat)
    ensures BitAnd(a, 0x0f) == a % 16
    ensures BitAnd(a, 0x0fff) == a % 4096
    ensures BitAnd(a, 0x1fff) == a % 8192
  {
    BitAndLowOnes(a, 4);
    BitAndLowOnes(a, 12);
    BitAndLowOnes(a, 13);
    assert Pow(2, 4) == 16;
    assert Pow(2, 8) == 16 * 16;
    assert Pow(2, 12) == 16 * Pow(2, 8);
    assert Pow(2, 13) == 8192;
  }
}
