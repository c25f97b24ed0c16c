/** Fixed-width unsigned integers and the bitwise operators of the network code.
    Rust's `u8`, `u32` and `u64` are ranges of `int`; the operators `|`, `!`,
    `>>` and `<<` used on `u32` are defined arithmetically, one binary digit at
    a time, and the facts about individual bits that the network operations
    rely on are proved here. */
module Bits {

  type u8 = x: int | 0 <= x < 0x100
  type u32 = x: int | 0 <= x < 0x1_0000_0000
  type u64 = x: int | 0 <= x < 0x1_0000_0000_0000_0000

  /** Number of bits of a `u32`. */
  const WIDTH: nat := 32

  /** `u32::MAX`. */
  const U32_MAX: u32 := 0xFFFF_FFFF

  function Pow2(k: nat): (r: nat)
    ensures r >= 1
  {
    if k == 0 then 1 else 2 * Pow2(k - 1)
  }

  /** Bit `i` (counted from the least significant bit) of `x` is set. */
  predicate Bit(x: nat, i: nat) {
    if i == 0 then x % 2 == 1 else Bit(x / 2, i - 1)
  }

  /** `x` with its `n` lowest bits dropped, that is `x / 2^n`. */
  function ShiftRight(x: nat, n: nat): nat {
    if n == 0 then x else ShiftRight(x / 2, n - 1)
  }

  /** Bitwise or of the `w` lowest bits of two naturals, one binary digit at a
      time from the least significant. */
  function Or(x: nat, y: nat, w: nat): nat
  {
    if w == 0 then 0
    else 2 * Or(x / 2, y / 2, w - 1) + (if x % 2 == 1 || y % 2 == 1 then 1 else 0)
  }

  /** `x | y` on `u32`: a bit of the result is set iff it is set in `x` or in `y`. */
  function Or32(x: u32, y: u32): (r: u32)
    ensures forall i: nat {:trigger Bit(x, i), Bit(y, i)} :: Bit(r, i) <==> Bit(x, i) || Bit(y, i)
  {
    Pow2Width();
    OrBelow(x, y, WIDTH);
    OrBits(x, y);
    Or(x, y, WIDTH)
  }

  /** `!x` on `u32`: every one of the `WIDTH` bits flipped. */
  function Not32(x: u32): (r: u32)
    ensures forall i: nat :: i < WIDTH ==> (Bit(r, i) <==> !Bit(x, i))
  {
    ComplementBits(x);
    U32_MAX - x
  }

  /** `x >> n` on `u32`: the quotient by `2^n`. A shift by the full width is
      not modelled: with overflow checks Rust panics on it, and without them
      it masks the amount to its low five bits, so `u32::MAX >> 32` would be
      `u32::MAX` rather than 0. */
  function Shr32(x: u32, n: nat): (r: u32)
    requires n < WIDTH
    ensures r == x / Pow2(n)
  {
    ShiftRightDiv(x, n);
    ShiftRightLe(x, n);
    ShiftRight(x, n)
  }

  /** `x << n` on `u32`: bit `j` of `x` moves to bit `j + n` and is lost if
      that is past the top, and the `n` low bits are clear. The full width is
      excluded for the reason given at `Shr32`. */
  function Shl32(x: u32, n: nat): (r: u32)
    requires n < WIDTH
    ensures forall j: nat {:trigger Bit(x, j)} :: Bit(r, j + n) <==> j + n < WIDTH && Bit(x, j)
    ensures forall i: nat :: i < n ==> !Bit(r, i)
  {
    ShlBits(x, n);
    x * Pow2(n) % 0x1_0000_0000
  }

  /** `x | (1 << k)` on `u32`: bit `k` of `x` set. */
  function SetBit(x: u32, k: nat): (r: u32)
    requires k < WIDTH
    ensures r == if Bit(x, k) then x else x + Pow2(k)
  {
    ShlOne(k);
    Pow2Width();
    OrPow2(x, k, WIDTH);
    Or32(x, Shl32(1, k))
  }

  // ---------------------------------------------------------------------
  // Powers of two

  lemma {:induction false} Pow2Monotone(a: nat, b: nat)
    requires a <= b
    ensures Pow2(a) <= Pow2(b)
    decreases b
  {
    if a < b {
      Pow2Monotone(a, b - 1);
    }
  }

  lemma Pow2Width()
    ensures Pow2(WIDTH) == 0x1_0000_0000
  {
    assert Pow2(8) == 0x100;
    assert Pow2(16) == 0x1_0000;
    assert Pow2(24) == 0x100_0000;
  }

  /** The powers of two that the test vectors of the network code use. */
  lemma Pow2Values()
    ensures Pow2(1) == 2 && Pow2(7) == 0x80 && Pow2(8) == 0x100
    ensures Pow2(9) == 0x200 && Pow2(10) == 0x400 && Pow2(11) == 0x800
    ensures Pow2(12) == 0x1000 && Pow2(16) == 0x1_0000 && Pow2(22) == 0x40_0000
    ensures Pow2(31) == 0x8000_0000 && Pow2(32) == 0x1_0000_0000
  {
    assert Pow2(4) == 0x10;
    assert Pow2(8) == 0x100;
    assert Pow2(12) == 0x1000;
    assert Pow2(16) == 0x1_0000;
    assert Pow2(20) == 0x10_0000;
    assert Pow2(24) == 0x100_0000;
    assert Pow2(28) == 0x1000_0000;
  }

  /** `1 << k` is `2^k` below the width: nothing is pushed past the top. */
  lemma ShlOne(k: nat)
    requires k < WIDTH
    ensures Shl32(1, k) == Pow2(k)
  {
    Pow2Monotone(k, WIDTH - 1);
    Pow2Width();
    assert Pow2(WIDTH) == 2 * Pow2(WIDTH - 1);
  }

  // ---------------------------------------------------------------------
  // Shifting right

  lemma {:induction false} ShiftRightLe(x: nat, n: nat)
    ensures ShiftRight(x, n) <= x
  {
    if n > 0 {
      ShiftRightLe(x / 2, n - 1);
    }
  }

  /** Shifting right by `n` moves bit `i + n` to position `i`. */
  lemma {:induction false} BitShiftRight(x: nat, n: nat, i: nat)
    ensures Bit(ShiftRight(x, n), i) <==> Bit(x, i + n)
  {
    if n > 0 {
      BitShiftRight(x / 2, n - 1, i);
    }
  }

  /** Splitting at bit `k`: `x >> k` is twice `x >> (k+1)`, plus bit `k`. */
  lemma {:induction false} ShiftRightSplit(x: nat, k: nat)
    ensures ShiftRight(x, k) == 2 * ShiftRight(x, k + 1) + (if Bit(x, k) then 1 else 0)
  {
    if k > 0 {
      ShiftRightSplit(x / 2, k - 1);
    }
  }

  /** Adding `2^k` to a number whose bit `k` is clear adds one above bit `k`. */
  lemma {:induction false} ShiftRightAddBit(x: nat, k: nat)
    requires !Bit(x, k)
    ensures ShiftRight(x + Pow2(k), k) == ShiftRight(x, k) + 1
  {
    if k > 0 {
      assert (x + Pow2(k)) / 2 == x / 2 + Pow2(k - 1);
      ShiftRightAddBit(x / 2, k - 1);
    }
  }

  /** Adding `2^k` to a number whose bit `k` is clear sets bit `k` and no other. */
  lemma {:induction false} BitAddPow2(x: nat, k: nat, i: nat)
    requires !Bit(x, k)
    ensures Bit(x + Pow2(k), i) <==> Bit(x, i) || i == k
    decreases k
  {
    if k == 0 {
      if i > 0 {
        assert (x + 1) / 2 == x / 2;
      }
    } else {
      assert (x + Pow2(k)) / 2 == x / 2 + Pow2(k - 1);
      if i > 0 {
        BitAddPow2(x / 2, k - 1, i - 1);
      }
    }
  }

  lemma MulDouble(q: int, p: int)
    ensures q * (2 * p) == 2 * (q * p) == (2 * p) * q
  {
  }

  /** `x >> h == q` iff `x` lies in the `q`-th block of `2^h` numbers. */
  lemma {:induction false} ShiftRightRange(x: nat, h: nat, q: nat)
    ensures ShiftRight(x, h) == q <==> q * Pow2(h) <= x < q * Pow2(h) + Pow2(h)
  {
    if h > 0 {
      ShiftRightRange(x / 2, h - 1, q);
      MulDouble(q, Pow2(h - 1));
    }
  }

  /** The quotient is the `q` whose block of `p` numbers holds `x`. */
  lemma DivUnique(x: nat, p: nat, q: nat)
    requires p > 0 && q * p <= x < q * p + p
    ensures x / p == q
  {
    var d := x / p;
    assert d * p <= x < d * p + p;
    MulBelow(d - q, p);
    MulBelow(q - d, p);
  }

  /** A multiple of a positive `p` that is below `p` is at most zero times `p`. */
  lemma MulBelow(a: int, p: int)
    requires p > 0 && a * p < p
    ensures a <= 0
  {
  }

  /** `x >> n` is the quotient of `x` by `2^n`. */
  lemma ShiftRightDiv(x: nat, n: nat)
    ensures ShiftRight(x, n) == x / Pow2(n)
  {
    ShiftRightRange(x, n, ShiftRight(x, n));
    DivUnique(x, Pow2(n), ShiftRight(x, n));
  }

  /** Shifting right by `a` and then by `b` is shifting right by `a + b`. */
  lemma {:induction false} ShiftRightCompose(x: nat, a: nat, b: nat)
    ensures ShiftRight(ShiftRight(x, a), b) == ShiftRight(x, a + b)
  {
    if a > 0 {
      ShiftRightCompose(x / 2, a - 1, b);
    }
  }

  /** All ones shifted right by `p` is `p` fewer ones. */
  lemma {:induction false} ShiftRightOnes(w: nat, p: nat)
    requires p <= w
    ensures ShiftRight(Pow2(w) - 1, p) == Pow2(w - p) - 1
  {
    if p > 0 {
      assert (Pow2(w) - 1) / 2 == Pow2(w - 1) - 1;
      ShiftRightOnes(w - 1, p - 1);
    }
  }

  // ---------------------------------------------------------------------
  // Bit-level facts about the operators

  /** A number below `2^i` has no bit at position `i` or higher. */
  lemma {:induction false} BitSmall(x: nat, i: nat)
    requires x < Pow2(i)
    ensures !Bit(x, i)
  {
    if i > 0 {
      BitSmall(x / 2, i - 1);
    }
  }

  /** `2^w - 1` has exactly the bits below `w` set. */
  lemma {:induction false} BitOnes(w: nat, j: nat)
    ensures Bit(Pow2(w) - 1, j) <==> j < w
  {
    if w == 0 {
      BitSmall(0, j);
    } else {
      var h := Pow2(w - 1) - 1;
      assert Pow2(w) - 1 == 2 * h + 1;
      Halve(h, 1);
      if j > 0 {
        assert Bit(Pow2(w) - 1, j) == Bit(h, j - 1);
        BitOnes(w - 1, j - 1);
      }
    }
  }

  /** `u32::MAX` has exactly the bits below the width set. */
  lemma BitMax(j: nat)
    ensures Bit(U32_MAX, j) <==> j < WIDTH
  {
    Pow2Width();
    BitOnes(WIDTH, j);
  }

  /** Complementing within `w` bits flips every bit below `w`. */
  lemma {:induction false} BitComplement(w: nat, x: nat, i: nat)
    requires x < Pow2(w) && i < w
    ensures Bit(Pow2(w) - 1 - x, i) <==> !Bit(x, i)
  {
    assert Pow2(w) == 2 * Pow2(w - 1);
    if i > 0 {
      assert (Pow2(w) - 1 - x) / 2 == Pow2(w - 1) - 1 - x / 2;
      BitComplement(w - 1, x / 2, i - 1);
    }
  }

  /** Complementing a `u32` flips each of its `WIDTH` bits. */
  lemma ComplementBits(x: u32)
    ensures forall i: nat :: i < WIDTH ==> (Bit(U32_MAX - x, i) <==> !Bit(x, i))
  {
    Pow2Width();
    forall i: nat | i < WIDTH
      ensures Bit(U32_MAX - x, i) <==> !Bit(x, i)
    {
      BitComplement(WIDTH, x, i);
    }
  }

  /** Or-ing nothing into a number of `w` bits leaves it unchanged. */
  lemma {:induction false} OrZero(x: nat, w: nat)
    requires x < Pow2(w)
    ensures Or(x, 0, w) == x
  {
    if w > 0 {
      OrZero(x / 2, w - 1);
    }
  }

  /** Halving `2a + c`, for a binary digit `c`, gives `a` with remainder `c`. */
  lemma Halve(a: nat, c: nat)
    requires c < 2
    ensures (2 * a + c) / 2 == a && (2 * a + c) % 2 == c
  {
  }

  /** A bit of `x | y` is set iff it is below the width and set in `x` or in `y`. */
  lemma {:induction false} BitOr(x: nat, y: nat, w: nat, i: nat)
    ensures Bit(Or(x, y, w), i) <==> i < w && (Bit(x, i) || Bit(y, i))
    decreases w
  {
    if w == 0 {
      BitSmall(0, i);
    } else {
      var h, c := Or(x / 2, y / 2, w - 1), if x % 2 == 1 || y % 2 == 1 then 1 else 0;
      assert Or(x, y, w) == 2 * h + c;
      Halve(h, c);
      if i > 0 {
        assert Bit(Or(x, y, w), i) == Bit(h, i - 1);
        BitOr(x / 2, y / 2, w - 1, i - 1);
      }
    }
  }

  /** The or of `w` bits is below `2^w`. */
  lemma {:induction false} OrBelow(x: nat, y: nat, w: nat)
    ensures Or(x, y, w) < Pow2(w)
    decreases w
  {
    if w > 0 {
      OrBelow(x / 2, y / 2, w - 1);
    }
  }

  /** The or of two `u32` values has exactly the bits set in either. */
  lemma OrBits(x: u32, y: u32)
    ensures forall i: nat :: Bit(Or(x, y, WIDTH), i) <==> Bit(x, i) || Bit(y, i)
  {
    forall i: nat
      ensures Bit(Or(x, y, WIDTH), i) <==> Bit(x, i) || Bit(y, i)
    {
      BitOr(x, y, WIDTH, i);
      if i >= WIDTH {
        Pow2Width();
        Pow2Monotone(WIDTH, i);
        BitSmall(x, i);
        BitSmall(y, i);
      }
    }
  }

  /** `2^k` has exactly bit `k` set. */
  lemma {:induction false} BitPow2(k: nat, i: nat)
    ensures Bit(Pow2(k), i) <==> i == k
    decreases i
  {
    if i > 0 {
      if k == 0 {
        BitSmall(0, i - 1);
      } else {
        BitPow2(k - 1, i - 1);
      }
    }
  }

  /** Setting bit `k` of a number of `w` bits: nothing changes if it was set,
      otherwise `2^k` is added. */
  lemma {:induction false} OrPow2(x: nat, k: nat, w: nat)
    requires x < Pow2(w) && k < w
    ensures Or(x, Pow2(k), w) == if Bit(x, k) then x else x + Pow2(k)
    decreases w
  {
    if k == 0 {
      OrZero(x / 2, w - 1);
    } else {
      OrPow2(x / 2, k - 1, w - 1);
    }
  }

  // ---------------------------------------------------------------------
  // Shifting left

  /** Multiplying by `2^n` moves bit `i - n` to bit `i` and clears the `n` low bits. */
  lemma {:induction false} BitMulPow2(y: nat, n: nat, i: nat)
    ensures Bit(y * Pow2(n), i) <==> n <= i && Bit(y, i - n)
    decreases n
  {
    if n > 0 {
      var z := y * Pow2(n - 1);
      MulDouble(y, Pow2(n - 1));
      assert y * Pow2(n) == 2 * z;
      Halve(z, 0);
      if i > 0 {
        assert Bit(y * Pow2(n), i) == Bit(z, i - 1);
        BitMulPow2(y, n - 1, i - 1);
      }
    }
  }

  /** Adding a multiple of `2^w` to a number below `2^w` leaves its bits below `w` alone. */
  lemma {:induction false} BitBelowBlock(y: nat, q: nat, r: nat, w: nat, i: nat)
    requires y == q * Pow2(w) + r && r < Pow2(w) && i < w
    ensures Bit(y, i) <==> Bit(r, i)
    decreases w
  {
    var t := q * Pow2(w - 1);
    MulDouble(q, Pow2(w - 1));
    assert y == 2 * (t + r / 2) + r % 2;
    Halve(t + r / 2, r % 2);
    if i > 0 {
      BitBelowBlock(t + r / 2, q, r / 2, w - 1, i - 1);
    }
  }

  /** Reducing modulo `2^32` keeps exactly the bits below the width. */
  lemma BitLow32(y: nat, i: nat)
    ensures Bit(y % 0x1_0000_0000, i) <==> i < WIDTH && Bit(y, i)
  {
    var q, r := y / 0x1_0000_0000, y % 0x1_0000_0000;
    Pow2Width();
    if i < WIDTH {
      BitBelowBlock(y, q, r, WIDTH, i);
    } else {
      Pow2Monotone(WIDTH, i);
      BitSmall(r, i);
    }
  }

  /** The bits of `x << n` on `u32`. */
  lemma ShlBits(x: u32, n: nat)
    requires n < WIDTH
    ensures forall j: nat {:trigger Bit(x, j)} :: Bit(x * Pow2(n) % 0x1_0000_0000, j + n) <==> j + n < WIDTH && Bit(x, j)
    ensures forall i: nat :: i < n ==> !Bit(x * Pow2(n) % 0x1_0000_0000, i)
  {
    forall i: nat
      ensures Bit(x * Pow2(n) % 0x1_0000_0000, i) <==> n <= i < WIDTH && Bit(x, i - n)
    {
      BitMulPow2(x, n, i);
      BitLow32(x * Pow2(n), i);
    }
  }
}
