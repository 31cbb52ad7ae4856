/** Byte strings, concatenation of pieces, and the big-endian 32-bit codec of `src/file_crypto.cpp`. */
module Bytes {

  type byte = b: int | 0 <= b < 0x100

  type bytes = seq<byte>

  const U32_LIMIT := 0x1_0000_0000

  /** `std::numeric_limits<int>::max()`, the largest size one OpenSSL update accepts. */
  const INT_MAX := 0x7fff_ffff

  type u32 = n: int | 0 <= n < U32_LIMIT

  function Pow2(n: nat): (p: nat)
    ensures p >= 1
  {
    if n == 0 then 1 else 2 * Pow2(n - 1)
  }

  /**
    `|`. Shifts to the left and right are products with and quotients by powers of two, masks of low bits are
    remainders.
   */
  function BitOr(a: nat, b: nat): nat
    decreases a + b
  {
    if a == 0 then b
    else if b == 0 then a
    else (if a % 2 == 1 || b % 2 == 1 then 1 else 0) + 2 * BitOr(a / 2, b / 2)
  }

  lemma {:induction false} BitOrDisjoint(a: nat, b: nat, k: nat)
    requires b < Pow2(k)
    ensures BitOr(a * Pow2(k), b) == a * Pow2(k) + b
    decreases k
  {
    if k == 0 || a == 0 || b == 0 {
      assert a * 1 == a && 0 * Pow2(k) == 0;
    } else {
      var high := a * Pow2(k - 1);
      assert a * Pow2(k) == 2 * high;
      BitOrDisjoint(a, b / 2, k - 1);
    }
  }

  /** The bytes `store_u32_be` stores. */
  function U32Bytes(v: u32): (s: bytes)
    ensures |s| == 4
  {
    [v / 0x100_0000, v / 0x1_0000 % 0x100, v / 0x100 % 0x100, v % 0x100]
  }

  /** `read_u32_be`; that the sum is the `|` of the four shifted bytes is `ReadU32IsOr`. */
  function ReadU32(s: bytes): (v: u32)
    requires |s| == 4
  {
    var b0: int, b1: int, b2: int, b3: int := s[0], s[1], s[2], s[3];
    b0 * 0x100_0000 + b1 * 0x1_0000 + b2 * 0x100 + b3
  }

  /** The four shifted bytes occupy disjoint bits. */
  lemma ReadU32IsOr(s: bytes)
    requires |s| == 4
    ensures var b0: int, b1: int, b2: int, b3: int := s[0], s[1], s[2], s[3];
            BitOr(BitOr(BitOr(b0 * 0x100_0000, b1 * 0x1_0000), b2 * 0x100), b3) == ReadU32(s)
  {
    var b0: int, b1: int, b2: int, b3: int := s[0], s[1], s[2], s[3];
    BytePowers();
    BitOrDisjoint(b0, b1 * 0x1_0000, 24);
    BitOrDisjoint(b0 * 0x100 + b1, b2 * 0x100, 16);
    BitOrDisjoint((b0 * 0x100 + b1) * 0x100 + b2, b3, 8);
  }

  lemma BytePowers()
    ensures Pow2(8) == 0x100 && Pow2(16) == 0x1_0000 && Pow2(24) == 0x100_0000
  {
    assert Pow2(4) == 16 && Pow2(12) == 0x1000 && Pow2(20) == 0x10_0000;
  }

  lemma ReadU32OfBytes(v: u32)
    ensures ReadU32(U32Bytes(v)) == v
  {
    Shifts(v);
  }

  lemma U32BytesOfRead(s: bytes)
    requires |s| == 4
    ensures U32Bytes(ReadU32(s)) == s
  {
    var b0: int, b1: int, b2: int, b3: int := s[0], s[1], s[2], s[3];
    var v := ReadU32(s);
    assert v == ((b0 * 0x100 + b1) * 0x100 + b2) * 0x100 + b3;
    Join(b0, b1);
    Join(b0 * 0x100 + b1, b2);
    Join((b0 * 0x100 + b1) * 0x100 + b2, b3);
    Shifts(v);
  }

  /** Shifting by whole bytes, one byte at a time. */
  lemma Shifts(v: u32)
    ensures v / 0x1_0000 == v / 0x100 / 0x100
    ensures v / 0x100_0000 == v / 0x1_0000 / 0x100
  {
  }

  lemma Join(high: nat, low: byte)
    ensures (high * 0x100 + low) / 0x100 == high && (high * 0x100 + low) % 0x100 == low
  {
  }

  lemma U32BytesInjective(v: u32, w: u32)
    requires U32Bytes(v) == U32Bytes(w)
    ensures v == w
  {
    ReadU32OfBytes(v);
    ReadU32OfBytes(w);
  }

  /** The pieces of `parts` one after another. */
  function Flatten(parts: seq<bytes>): (s: bytes)
  {
    if parts == [] then [] else parts[0] + Flatten(parts[1..])
  }

  lemma {:induction false} FlattenAppend(parts: seq<bytes>, last: bytes)
    ensures Flatten(parts + [last]) == Flatten(parts) + last
  {
    if parts == [] {
    } else {
      assert (parts + [last])[1..] == parts[1..] + [last];
      FlattenAppend(parts[1..], last);
    }
  }

  lemma {:induction false} FlattenConcat(a: seq<bytes>, b: seq<bytes>)
    ensures Flatten(a + b) == Flatten(a) + Flatten(b)
  {
    if a == [] {
      assert a + b == b;
    } else {
      assert (a + b)[1..] == a[1..] + b;
      FlattenConcat(a[1..], b);
    }
  }

  /** `^` on the low `n` bits, lowest bit first. */
  function XorBits(a: nat, b: nat, n: nat): (r: nat)
    ensures r < Pow2(n)
  {
    if n == 0 then 0 else (a + b) % 2 + 2 * XorBits(a / 2, b / 2, n - 1)
  }

  lemma LowBit(a: nat, b: nat, high: nat)
    ensures var x := (a + b) % 2 + 2 * high; x / 2 == high && (x + b) % 2 == a % 2
  {
  }

  lemma {:induction false} XorBitsCancels(a: nat, b: nat, n: nat)
    requires a < Pow2(n)
    ensures XorBits(XorBits(a, b, n), b, n) == a
  {
    if n == 0 {
    } else {
      var high := XorBits(a / 2, b / 2, n - 1);
      LowBit(a, b, high);
      XorBitsCancels(a / 2, b / 2, n - 1);
      assert XorBits((a + b) % 2 + 2 * high, b, n) == a % 2 + 2 * (a / 2);
    }
  }

  /** Bit `k` of a number: shifted right `k` times, the low bit. */
  function Bit(a: nat, k: nat): (b: nat)
    ensures b <= 1
    decreases k
  {
    if k == 0 then a % 2 else Bit(a / 2, k - 1)
  }

  /** Every bit of the exclusive or is set if and only if the bits of the operands differ. */
  lemma {:induction false} XorBitsBit(a: nat, b: nat, n: nat, k: nat)
    requires k < n
    ensures Bit(XorBits(a, b, n), k) == if Bit(a, k) != Bit(b, k) then 1 else 0
    decreases n
  {
    var high := XorBits(a / 2, b / 2, n - 1);
    var x := (a + b) % 2 + 2 * high;
    LowBit(a, b, high);
    SumBit(a, b);
    if k > 0 {
      XorBitsBit(a / 2, b / 2, n - 1, k - 1);
    }
  }

  lemma {:induction false} XorBitsOfZero(b: nat, n: nat)
    requires b < Pow2(n)
    ensures XorBits(0, b, n) == b
  {
    if n == 0 {
    } else {
      XorBitsOfZero(b / 2, n - 1);
    }
  }

  /** Every bit of `|` is set if and only if a bit of the operands is. */
  lemma {:induction false} BitOrBit(a: nat, b: nat, k: nat)
    ensures Bit(BitOr(a, b), k) == if Bit(a, k) == 1 || Bit(b, k) == 1 then 1 else 0
    decreases a + b
  {
    if a == 0 || b == 0 {
      ZeroBit(k);
    } else {
      var low, high := if a % 2 == 1 || b % 2 == 1 then 1 else 0, BitOr(a / 2, b / 2);
      var x := low + 2 * high;
      assert BitOr(a, b) == x && x / 2 == high && x % 2 == low;
      if k > 0 {
        BitOrBit(a / 2, b / 2, k - 1);
      }
    }
  }

  lemma {:induction false} ZeroBit(k: nat)
    ensures Bit(0, k) == 0
  {
    if k > 0 {
      ZeroBit(k - 1);
    }
  }

  lemma SumBit(a: nat, b: nat)
    ensures (a + b) % 2 == if a % 2 != b % 2 then 1 else 0
  {
    var p, q := a / 2, b / 2;
    assert a + b == 2 * (p + q) + a % 2 + b % 2;
  }

  /** `^` on two bytes. */
  function Xor(a: byte, b: byte): (r: byte)
  {
    Pow2Of8();
    XorBits(a, b, 8)
  }

  lemma Pow2Of8()
    ensures Pow2(8) == 0x100
  {
    assert Pow2(4) == 16;
  }

  /** The eight bits of the exclusive or, and what it makes of zero. */
  lemma XorExact(a: byte, b: byte)
    ensures forall k :: 0 <= k < 8 ==> Bit(Xor(a, b), k) == if Bit(a, k) != Bit(b, k) then 1 else 0
    ensures Xor(0, b) == b
  {
    Pow2Of8();
    XorBitsOfZero(b, 8);
    forall k | 0 <= k < 8
      ensures Bit(Xor(a, b), k) == if Bit(a, k) != Bit(b, k) then 1 else 0
    {
      XorBitsBit(a, b, 8, k);
    }
  }

  lemma XorCancels(a: byte, b: byte)
    ensures Xor(Xor(a, b), b) == a
  {
    Pow2Of8();
    XorBitsCancels(a, b, 8);
  }

  /** `std::copy` of `s` to position `at`. */
  method CopyInto(a: array<byte>, at: nat, s: bytes)
    requires at + |s| <= a.Length
    modifies a
    ensures a[at..at + |s|] == s
    ensures forall i :: 0 <= i < a.Length && !(at <= i < at + |s|) ==> a[i] == old(a[i])
  {
    forall i | 0 <= i < |s| {
      a[at + i] := s[i];
    }
  }

  /** `store_u32_be`. */
  method StoreU32(a: array<byte>, at: nat, v: u32)
    requires at + 4 <= a.Length
    modifies a
    ensures a[at..at + 4] == U32Bytes(v)
    ensures forall i :: 0 <= i < a.Length && !(at <= i < at + 4) ==> a[i] == old(a[i])
  {
    a[at] := v / 0x100_0000 % 0x100;
    a[at + 1] := v / 0x1_0000 % 0x100;
    a[at + 2] := v / 0x100 % 0x100;
    a[at + 3] := v % 0x100;
  }
}
