/**
 Bit-level arithmetic on natural numbers, the vocabulary in which the
 bit reversal of bmpinfo.py is stated and proved.

 A bit is read the way Python's `(n >> i) & 1` reads it: `Bit(n, i)` shifts
 right `i` times and keeps the lowest bit. `ReverseBits` is the generator sum
 of `_reverse_bits`; `ReverseLow` is an independent reference definition of
 "the low k bits, in reverse order", and the lemmas below connect the two.
 */
module Bits {

  /** 2 raised to the k-th power. */
  function Pow2(k: nat): (p: nat)
    ensures p >= 1
  {
    if k == 0 then 1 else 2 * Pow2(k - 1)
  }

  lemma Pow2Values()
    ensures Pow2(8) == 0x100 && Pow2(16) == 0x1_0000
    ensures Pow2(24) == 0x100_0000 && Pow2(32) == 0x1_0000_0000
  {
    assert Pow2(4) == 16;
    assert Pow2(8) == 0x100;
    assert Pow2(12) == 0x1000;
    assert Pow2(16) == 0x1_0000;
    assert Pow2(20) == 0x10_0000;
    assert Pow2(24) == 0x100_0000;
    assert Pow2(28) == 0x1000_0000;
  }

  /** Bit i of n: `(n >> i) & 1`. */
  function Bit(n: nat, i: nat): (b: nat)
    ensures b < 2
  {
    if i == 0 then n % 2 else Bit(n / 2, i - 1)
  }

  /** Division and remainder are unique: the quotient-remainder pair of n by d. */
  lemma DivModUnique(n: int, d: int, q: int, r: int)
    requires d > 0 && 0 <= r < d && n == q * d + r
    ensures n / d == q && n % d == r
  {
    var q', r' := n / d, n % d;
    assert (q' - q) * d == r - r' by {
      assert q' * d + r' == q * d + r;
      assert (q' - q) * d == q' * d - q * d;
    }
    if q' > q {
      MulStep(q' - q - 1, d);
      assert false;
    } else if q' < q {
      assert (q - q') * d == -((q' - q) * d);
      MulStep(q - q' - 1, d);
      assert false;
    }
  }

  /** One more multiple of a positive d adds at least d. */
  lemma MulStep(t: nat, d: int)
    requires d > 0
    ensures (t + 1) * d >= d
  {
    assert (t + 1) * d == t * d + d;
  }

  /** Dividing by 2 * p is halving and then dividing by p; the remainder halves too. */
  lemma HalveDivMod(x: nat, p: nat)
    requires p > 0
    ensures x / (2 * p) == (x / 2) / p
    ensures (x % (2 * p)) / 2 == (x / 2) % p
    ensures (x % (2 * p)) % 2 == x % 2
  {
    var q, e := x / 2, x % 2;
    var a, c := q / p, q % p;
    assert x == a * (2 * p) + (2 * c + e) by {
      assert q == a * p + c;
      assert a * (2 * p) == 2 * (a * p);
    }
    DivModUnique(x, 2 * p, a, 2 * c + e);
    DivModUnique(2 * c + e, 2, c, e);
  }

  /** `n >> m`, written as m halvings. */
  function ShiftRight(n: nat, m: nat): nat
  {
    if m == 0 then n else ShiftRight(n / 2, m - 1)
  }

  /** Shifting right by m divides by 2^m. */
  lemma {:induction false} ShiftRightIsDiv(n: nat, m: nat)
    ensures ShiftRight(n, m) == n / Pow2(m)
  {
    if m > 0 {
      var p := Pow2(m - 1);
      assert Pow2(m) == 2 * p;
      ShiftRightIsDiv(n / 2, m - 1);
      HalveDivMod(n, p);
    }
  }

  /** Bit t of `n >> m` is bit m + t of n. */
  lemma {:induction false} ShiftRightBit(n: nat, m: nat, t: nat)
    ensures Bit(ShiftRight(n, m), t) == Bit(n, m + t)
  {
    if m > 0 {
      ShiftRightBit(n / 2, m - 1, t);
      assert Bit(n, m + t) == Bit(n / 2, m - 1 + t);
    }
  }

  /** The defining property of `Bit` in Python's terms: `(n >> i) & 1`. */
  lemma BitIsShiftAnd(n: nat, i: nat)
    ensures Bit(n, i) == (n / Pow2(i)) % 2
  {
    ShiftRightBit(n, i, 0);
    ShiftRightIsDiv(n, i);
  }

  /** Masking with `2^m - 1` keeps the bits below m. */
  lemma {:induction false} ModBit(n: nat, m: nat, t: nat)
    requires t < m
    ensures Bit(n % Pow2(m), t) == Bit(n, t)
  {
    HalveDivMod(n, Pow2(m - 1));
    if t > 0 {
      ModBit(n / 2, m - 1, t - 1);
    }
  }

  /** The bits of x + y * 2^k are those of x below k and those of y from k on. */
  lemma BitOfSum(x: nat, y: nat, k: nat, i: nat)
    requires x < Pow2(k)
    ensures Bit(x + y * Pow2(k), i) == if i < k then Bit(x, i) else Bit(y, i - k)
  {
    DivModUnique(x + y * Pow2(k), Pow2(k), y, x);
    if i < k {
      ModBit(x + y * Pow2(k), k, i);
    } else {
      ShiftRightIsDiv(x + y * Pow2(k), k);
      ShiftRightBit(x + y * Pow2(k), k, i - k);
    }
  }

  /** A number below 2^k is determined by its k low bits. */
  lemma {:induction false} BitsDetermine(a: nat, b: nat, k: nat)
    requires a < Pow2(k) && b < Pow2(k)
    requires forall j :: 0 <= j < k ==> Bit(a, j) == Bit(b, j)
    ensures a == b
  {
    if k > 0 {
      assert Bit(a, 0) == Bit(b, 0);
      forall j | 0 <= j < k - 1
        ensures Bit(a / 2, j) == Bit(b / 2, j)
      {
        assert Bit(a, j + 1) == Bit(b, j + 1);
      }
      BitsDetermine(a / 2, b / 2, k - 1);
    }
  }

  /**
   Reference definition: the low k bits of n written in the opposite order,
   built by appending bit k - 1 of n below the reversal of the lower k - 1.
   */
  function ReverseLow(n: nat, k: nat): (r: nat)
    ensures r < Pow2(k)
  {
    if k == 0 then 0 else 2 * ReverseLow(n, k - 1) + Bit(n, k - 1)
  }

  lemma {:induction false} ReverseLowBit(n: nat, k: nat, j: nat)
    requires j < k
    ensures Bit(ReverseLow(n, k), j) == Bit(n, k - 1 - j)
  {
    if j > 0 {
      ReverseLowBit(n, k - 1, j - 1);
    }
  }

  /** Reversing the low k bits twice gives back every number below 2^k. */
  lemma ReverseLowInvolution(n: nat, k: nat)
    requires n < Pow2(k)
    ensures ReverseLow(ReverseLow(n, k), k) == n
  {
    forall j | 0 <= j < k
      ensures Bit(ReverseLow(ReverseLow(n, k), k), j) == Bit(n, j)
    {
      ReverseLowBit(ReverseLow(n, k), k, j);
      ReverseLowBit(n, k, k - 1 - j);
    }
    BitsDetermine(ReverseLow(ReverseLow(n, k), k), n, k);
  }

  /** `r << m`, written as m doublings so that it needs no multiplication. */
  function Shl(r: nat, m: nat): nat
  {
    if m == 0 then r else 2 * Shl(r, m - 1)
  }

  lemma {:induction false} ShlAdd(x: nat, y: nat, m: nat)
    ensures Shl(x + y, m) == Shl(x, m) + Shl(y, m)
  {
    if m > 0 {
      ShlAdd(x, y, m - 1);
    }
  }

  lemma {:induction false} ShlDouble(x: nat, m: nat)
    ensures Shl(2 * x, m) == Shl(x, m + 1)
  {
    if m > 0 {
      ShlDouble(x, m - 1);
    }
  }

  lemma {:induction false} ShlOne(m: nat)
    ensures Shl(1, m) == Pow2(m)
  {
    if m > 0 {
      ShlOne(m - 1);
    }
  }

  /**
   The first k terms of `_reverse_bits`'s generator sum: bit i of n, when set,
   contributes 2^(31 - i). The bound says the terms so far leave room for the
   remaining 32 - k bit positions.
   */
  function ReversedSum(n: nat, k: nat): (r: nat)
    requires k <= 32
    ensures r + Pow2(32 - k) <= Pow2(32)
  {
    if k == 0 then 0
    else
      assert Pow2(32 - (k - 1)) == 2 * Pow2(32 - k);
      ReversedSum(n, k - 1) + (if Bit(n, k - 1) == 1 then Pow2(32 - k) else 0)
  }

  /** `_reverse_bits`: the 32-bit reversal of a word, as a sum over its set bits. */
  function ReverseBits(n: nat): (r: nat)
    ensures r < 0x1_0000_0000
  {
    Pow2Values();
    ReversedSum(n, 32)
  }

  /** The generator sum equals the reference reversal, shifted into the top k bits. */
  lemma {:induction false} ReversedSumIsReverseLow(n: nat, k: nat)
    requires k <= 32
    ensures ReversedSum(n, k) == Shl(ReverseLow(n, k), 32 - k)
  {
    if k > 0 {
      ReversedSumIsReverseLow(n, k - 1);
      var r, b := ReverseLow(n, k - 1), Bit(n, k - 1);
      assert ReverseLow(n, k) == 2 * r + b;
      ShlAdd(2 * r, b, 32 - k);
      ShlDouble(r, 32 - k);
      assert Shl(2 * r, 32 - k) == Shl(r, 32 - (k - 1));
      ShlOne(32 - k);
      assert Shl(b, 32 - k) == if b == 1 then Pow2(32 - k) else 0 by {
        if b == 0 {
          ShlZero(32 - k);
        }
      }
    } else {
      ShlZero(32);
    }
  }

  lemma {:induction false} ShlZero(m: nat)
    ensures Shl(0, m) == 0
  {
    if m > 0 {
      ShlZero(m - 1);
    }
  }

  /** `_reverse_bits` is the 32-bit reference reversal. */
  lemma ReverseBitsIsReverseLow(n: nat)
    ensures ReverseBits(n) == ReverseLow(n, 32)
  {
    ReversedSumIsReverseLow(n, 32);
  }

  /** Bit j of `_reverse_bits(n)` is bit 31 - j of n. */
  lemma ReverseBitsBit(n: nat, j: nat)
    requires j < 32
    ensures Bit(ReverseBits(n), j) == Bit(n, 31 - j)
  {
    ReverseBitsIsReverseLow(n);
    ReverseLowBit(n, 32, j);
  }

  /** `_reverse_bits` undoes itself on every 32-bit value. */
  lemma ReverseBitsInvolution(n: nat)
    requires n < 0x1_0000_0000
    ensures ReverseBits(ReverseBits(n)) == n
  {
    Pow2Values();
    ReverseBitsIsReverseLow(n);
    ReverseBitsIsReverseLow(ReverseBits(n));
    ReverseLowInvolution(n, 32);
  }

  /** The 8-bit reversal of a byte value. */
  function Reverse8(b: nat): (r: nat)
    ensures r < 0x100
  {
    Pow2Values();
    ReverseLow(b, 8)
  }

  /** Bit t of a reversed byte is bit 7 - t of the byte. */
  lemma Reverse8Bit(b: nat, t: nat)
    requires t < 8
    ensures Bit(Reverse8(b), t) == Bit(b, 7 - t)
  {
    ReverseLowBit(b, 8, t);
  }

  lemma Reverse8Involution(b: nat)
    requires b < 0x100
    ensures Reverse8(Reverse8(b)) == b
  {
    Pow2Values();
    ReverseLowInvolution(b, 8);
  }

  /** The value `_reorder_buffer` assembles from four bytes: b[0] most significant. */
  function BigEndianWord(b: seq<nat>): (w: nat)
    requires |b| == 4
    ensures (forall j :: 0 <= j < 4 ==> b[j] < 0x100) ==> w < 0x1_0000_0000
  {
    b[3] + b[2] * 0x100 + b[1] * 0x1_0000 + b[0] * 0x100_0000
  }

  /** Bit i of the assembled word is bit i mod 8 of byte 3 - i div 8. */
  lemma BigEndianWordBit(b: seq<nat>, i: nat)
    requires |b| == 4 && forall j :: 0 <= j < 4 ==> b[j] < 0x100
    requires i < 32
    ensures Bit(BigEndianWord(b), i) == Bit(b[3 - i / 8], i % 8)
  {
    assert Pow2(8) == 0x100;
    var y2 := b[1] + b[0] * 0x100;
    var y1 := b[2] + y2 * 0x100;
    assert BigEndianWord(b) == b[3] + y1 * Pow2(8);
    BitOfSum(b[3], y1, 8, i);
    if i < 8 {
      DivModUnique(i, 8, 0, i);
    } else {
      BitOfSum(b[2], y2, 8, i - 8);
      if i < 16 {
        DivModUnique(i, 8, 1, i - 8);
      } else {
        BitOfSum(b[1], b[0], 8, i - 16);
        if i < 24 {
          DivModUnique(i, 8, 2, i - 16);
        } else {
          DivModUnique(i, 8, 3, i - 24);
        }
      }
    }
  }

  /**
   Reversing the 32 bits of a big-endian word and reading it back least
   significant byte first reverses every byte in place: byte m of the result
   is the 8-bit reversal of b[m].
   */
  lemma ReverseWordByte(b: seq<nat>, m: nat)
    requires |b| == 4 && forall j :: 0 <= j < 4 ==> b[j] < 0x100
    requires m < 4
    ensures ShiftRight(ReverseBits(BigEndianWord(b)), 8 * m) % 0x100 == Reverse8(b[m])
  {
    var out := ShiftRight(ReverseBits(BigEndianWord(b)), 8 * m) % 0x100;
    forall t | 0 <= t < 8
      ensures Bit(out, t) == Bit(Reverse8(b[m]), t)
    {
      ReverseWordBit(b, m, t);
    }
    assert Pow2(8) == 0x100;
    BitsDetermine(out, Reverse8(b[m]), 8);
  }

  /** Bit t of byte m of the reversed word is bit 7 - t of b[m]. */
  lemma ReverseWordBit(b: seq<nat>, m: nat, t: nat)
    requires |b| == 4 && forall j :: 0 <= j < 4 ==> b[j] < 0x100
    requires m < 4 && t < 8
    ensures Bit(ShiftRight(ReverseBits(BigEndianWord(b)), 8 * m) % 0x100, t) == Bit(Reverse8(b[m]), t)
  {
    var rev := ReverseBits(BigEndianWord(b));
    var i := 31 - (8 * m + t);
    assert Pow2(8) == 0x100;
    ModBit(ShiftRight(rev, 8 * m), 8, t);
    ShiftRightBit(rev, 8 * m, t);
    ReverseBitsBit(BigEndianWord(b), 8 * m + t);
    BigEndianWordBit(b, i);
    DivModUnique(i, 8, 3 - m, 7 - t);
    Reverse8Bit(b[m], t);
    calc {
      Bit(ShiftRight(rev, 8 * m) % 0x100, t);
      Bit(ShiftRight(rev, 8 * m), t);
      Bit(rev, 8 * m + t);
      Bit(BigEndianWord(b), i);
      Bit(b[3 - i / 8], i % 8);
      Bit(b[m], 7 - t);
      Bit(Reverse8(b[m]), t);
    }
  }
}
