/**
 * Bit-level vocabulary shared by the code table, the bit-packing encoder and
 * the bit-unpacking decoder.  Bit strings are `seq<bool>` read most
 * significant bit first (`true` is a 1 bit).  Shifts and `|` of the C++
 * source are written out on unbounded naturals, and the 8-bit `char`
 * accumulator is modelled by its unsigned value, truncated modulo 256.
 */
module Bits {

  type Byte = b: int | 0 <= b < 256

  function Pow2(n: nat): (r: nat)
    ensures r >= 1
  {
    if n == 0 then 1 else 2 * Pow2(n - 1)
  }

  /** `v >> k` on a non-negative value: k halvings. */
  function ShiftRight(v: nat, k: nat): nat
  {
    if k == 0 then v else ShiftRight(v / 2, k - 1)
  }

  /** `v << k` on an unbounded value. */
  function ShiftLeft(v: nat, k: nat): nat
  {
    v * Pow2(k)
  }

  /** Bitwise `|` on non-negative values. */
  function BitOr(a: nat, b: nat): nat
    decreases a + b
  {
    if a == 0 then b
    else if b == 0 then a
    else 2 * BitOr(a / 2, b / 2) + (if a % 2 == 1 || b % 2 == 1 then 1 else 0)
  }

  /** The value a `char` keeps of an `int`: its low 8 bits. */
  function Trunc8(v: nat): Byte
  {
    v % 256
  }

  /** The n low-order bits of v, most significant first. */
  function NatToBits(v: nat, n: nat): (bs: seq<bool>)
    ensures |bs| == n
  {
    if n == 0 then [] else NatToBits(v / 2, n - 1) + [v % 2 == 1]
  }

  /** The value of a bit string read most significant bit first. */
  function BitsToNat(bs: seq<bool>): (v: nat)
    ensures v < Pow2(|bs|)
  {
    if bs == [] then 0
    else 2 * BitsToNat(bs[..|bs| - 1]) + (if bs[|bs| - 1] then 1 else 0)
  }

  function Zeros(n: nat): (bs: seq<bool>)
    ensures |bs| == n && forall i :: 0 <= i < n ==> !bs[i]
  {
    seq(n, _ => false)
  }

  /** The bits of a byte buffer, each byte most significant bit first. */
  function BytesToBits(bytes: seq<Byte>): (bs: seq<bool>)
    ensures |bs| == 8 * |bytes|
  {
    if bytes == [] then [] else NatToBits(bytes[0], 8) + BytesToBits(bytes[1..])
  }

  lemma {:induction false} Pow2Add(a: nat, b: nat)
    ensures Pow2(a + b) == Pow2(a) * Pow2(b)
  {
    if b > 0 {
      Pow2Add(a, b - 1);
      calc {
        Pow2(a + b);
        2 * Pow2(a + b - 1);
        2 * (Pow2(a) * Pow2(b - 1));
        Pow2(a) * (2 * Pow2(b - 1));
      }
    }
  }

  lemma {:induction false} BytesToBitsAppend(bytes: seq<Byte>, b: Byte)
    ensures BytesToBits(bytes + [b]) == BytesToBits(bytes) + NatToBits(b, 8)
  {
    if bytes != [] {
      assert (bytes + [b])[1..] == bytes[1..] + [b];
      BytesToBitsAppend(bytes[1..], b);
    }
  }

  lemma {:induction false} ZerosAreBitsOfZero(n: nat)
    ensures NatToBits(0, n) == Zeros(n)
  {
    if n > 0 {
      ZerosAreBitsOfZero(n - 1);
    }
  }

  /** Reading back the bits of a bit string gives the bit string. */
  lemma {:induction false} BitsRoundTrip(bs: seq<bool>)
    ensures NatToBits(BitsToNat(bs), |bs|) == bs
  {
    if bs != [] {
      var p := bs[..|bs| - 1];
      BitsRoundTrip(p);
      var v := 2 * BitsToNat(p) + (if bs[|bs| - 1] then 1 else 0);
      assert v / 2 == BitsToNat(p);
      assert bs == p + [bs[|bs| - 1]];
    }
  }

  /** A leading bit weighs 2^(number of bits after it). */
  lemma {:induction false} BitsToNatCons(b: bool, p: seq<bool>)
    ensures BitsToNat([b] + p) == (if b then Pow2(|p|) else 0) + BitsToNat(p)
    decreases |p|
  {
    if p != [] {
      var q := p[..|p| - 1];
      assert ([b] + p)[..|p|] == [b] + q;
      BitsToNatCons(b, q);
    }
  }

  /** The low r bits of x * 2^r + c are those of c. */
  lemma {:induction false} LowBits(x: nat, c: nat, r: nat)
    ensures NatToBits(x * Pow2(r) + c, r) == NatToBits(c, r)
  {
    if r > 0 {
      var y := x * Pow2(r - 1);
      assert x * Pow2(r) == 2 * y;
      assert (2 * y + c) / 2 == y + c / 2;
      assert (2 * y + c) % 2 == c % 2;
      LowBits(x, c / 2, r - 1);
    }
  }

  /** Shifting x * 2^r + c right by r recovers x when c fits in r bits. */
  lemma {:induction false} ShiftRightMulAdd(x: nat, c: nat, r: nat)
    requires c < Pow2(r)
    ensures ShiftRight(x * Pow2(r) + c, r) == x
  {
    if r > 0 {
      var y := x * Pow2(r - 1);
      assert x * Pow2(r) == 2 * y;
      assert (2 * y + c) / 2 == y + c / 2;
      ShiftRightMulAdd(x, c / 2, r - 1);
    }
  }

  /** The a + b low bits of v are the a low bits of v >> b followed by the b low bits of v. */
  lemma {:induction false} SplitBits(v: nat, a: nat, b: nat)
    ensures NatToBits(v, a + b) == NatToBits(ShiftRight(v, b), a) + NatToBits(v, b)
  {
    if b > 0 {
      SplitBits(v / 2, a, b - 1);
      assert NatToBits(v, a + b) == NatToBits(v / 2, a + b - 1) + [v % 2 == 1];
    }
  }

  /** Dropping bits above position m does not change the n <= m low bits. */
  lemma LowBitsMod(v: nat, n: nat, m: nat)
    requires n <= m
    ensures NatToBits(v % Pow2(m), n) == NatToBits(v, n)
  {
    var x := ModSplit(v, n, m);
    LowBits(x, v % Pow2(m), n);
  }

  /** v is a multiple of 2^n plus its residue modulo 2^m, for n <= m. */
  lemma ModSplit(v: nat, n: nat, m: nat) returns (x: nat)
    requires n <= m
    ensures v == x * Pow2(n) + v % Pow2(m)
  {
    Pow2Add(m - n, n);
    assert m - n + n == m;
    x := ResidueSplit(v, Pow2(m), Pow2(m - n), Pow2(n));
  }

  lemma ResidueSplit(v: nat, p: nat, s: nat, q: nat) returns (x: nat)
    requires p == s * q && p > 0
    ensures v == x * q + v % p
  {
    x := (v / p) * s;
    assert (v / p) * p == x * q;
  }

  lemma {:induction false} ShiftRightBound(c: nat, r: nat, k: nat)
    requires c < Pow2(r) && k <= r
    ensures ShiftRight(c, k) < Pow2(r - k)
  {
    if k > 0 {
      ShiftRightBound(c / 2, r - 1, k - 1);
    }
  }

  /** `|` adds when the bits of c sit below the shifted x. */
  lemma {:induction false} OrDisjoint(x: nat, c: nat, r: nat)
    requires c < Pow2(r)
    ensures BitOr(x * Pow2(r), c) == x * Pow2(r) + c
  {
    if r > 0 && x != 0 && c != 0 {
      var y := x * Pow2(r - 1);
      assert x * Pow2(r) == 2 * y;
      assert (2 * y) / 2 == y && (2 * y) % 2 == 0;
      OrDisjoint(x, c / 2, r - 1);
    }
  }

  /**
   * The step of the encoder's accumulator: `(buffer << r) | c`, truncated to
   * a char, holds in its low bl + r bits the old low bl bits followed by the
   * low r bits of c, provided c fits in r bits or the accumulator is empty.
   */
  lemma Pack(buffer: nat, bl: nat, c: nat, r: nat)
    requires bl + r <= 8
    requires c < Pow2(r) || (buffer == 0 && bl == 0)
    ensures NatToBits(Trunc8(BitOr(buffer * Pow2(r), c)), bl + r) == NatToBits(buffer, bl) + NatToBits(c, r)
  {
    if c < Pow2(r) {
      PackFits(buffer, bl, c, r);
    } else {
      PackEmpty(c, r);
    }
  }

  lemma PackFits(buffer: nat, bl: nat, c: nat, r: nat)
    requires bl + r <= 8 && c < Pow2(r)
    ensures NatToBits(Trunc8(BitOr(buffer * Pow2(r), c)), bl + r) == NatToBits(buffer, bl) + NatToBits(c, r)
  {
    var y := ShiftedOr(buffer, c, r);
    LowBitsTrunc8(y, bl + r);
    SplitBits(y, bl, r);
  }

  /** `(x << r) | c` for c below 2^r: shifting it back gives x, its r low bits are those of c. */
  lemma ShiftedOr(x: nat, c: nat, r: nat) returns (y: nat)
    requires c < Pow2(r)
    ensures BitOr(x * Pow2(r), c) == y
    ensures ShiftRight(y, r) == x && NatToBits(y, r) == NatToBits(c, r)
  {
    y := x * Pow2(r) + c;
    OrDisjoint(x, c, r);
    ShiftRightMulAdd(x, c, r);
    LowBits(x, c, r);
  }

  /** Truncating to a char keeps the n <= 8 low bits. */
  lemma LowBitsTrunc8(v: nat, n: nat)
    requires n <= 8
    ensures NatToBits(Trunc8(v), n) == NatToBits(v, n)
  {
    assert Pow2(8) == 256;
    LowBitsMod(v, n, 8);
  }

  lemma PackEmpty(c: nat, r: nat)
    requires r <= 8
    ensures NatToBits(Trunc8(BitOr(0 * Pow2(r), c)), r) == NatToBits(c, r)
  {
    assert 0 * Pow2(r) == 0;
    LowBitsTrunc8(c, r);
  }

  /** Bit j (0 = most significant) of a byte is `(b >> (7 - j)) & 1`. */
  lemma ByteBit(b: Byte, j: nat)
    requires j < 8
    ensures NatToBits(b, 8)[j] == (ShiftRight(b, 7 - j) % 2 == 1)
  {
    SplitBits(b, j + 1, 7 - j);
  }

  /** Bit 8 * b + j of a buffer is bit j of its byte b. */
  lemma {:induction false} BytesToBitsIndex(bytes: seq<Byte>, b: nat, j: nat)
    requires b < |bytes| && j < 8
    ensures BytesToBits(bytes)[8 * b + j] == NatToBits(bytes[b], 8)[j]
  {
    if b > 0 {
      BytesToBitsIndex(bytes[1..], b - 1, j);
    }
  }
}
