/**
 * Machine words as integers: two's complement, shifts, bitwise operations and
 * byte order, for 32 and 64 bits.
 */
module Words {
  import opened Leb128
  import opened ByteVectors

  const M32: nat := 0x1_0000_0000
  const M64: nat := 0x1_0000_0000_0000_0000

  /** Number of values of a register of the given width. */
  function Size(is64: bool): nat
  {
    if is64 then M64 else M32
  }

  function Bits(is64: bool): nat
  {
    if is64 then 64 else 32
  }

  /** Two's complement reading of `x < m`. */
  function Signed(x: int, m: nat): int
  {
    if x < m / 2 then x else x - m
  }

  /** C division: truncates toward zero. */
  function TruncDiv(a: int, b: int): int
    requires b != 0
  {
    if a >= 0 then (if b > 0 then a / b else -(a / -b))
    else (if b > 0 then -(-a / b) else -a / -b)
  }

  /** C remainder: takes the sign of the dividend. */
  function TruncRem(a: int, b: int): int
    requires b != 0
  {
    a - TruncDiv(a, b) * b
  }

  // ---------------------------------------------------------------------------
  // Powers of two
  // ---------------------------------------------------------------------------

  lemma {:induction false} Pow2Add(a: nat, b: nat)
    ensures Pow2(a + b) == Pow2(a) * Pow2(b)
  {
    if a > 0 {
      Pow2Add(a - 1, b);
    }
  }

  lemma Pow2Constants()
    ensures Pow2(8) == 0x100 && Pow2(16) == 0x1_0000 && Pow2(24) == 0x100_0000
    ensures Pow2(32) == M32 && Pow2(64) == M64
  {
    assert Pow2(8) == 0x100;
    Pow2Add(8, 8);
    Pow2Add(16, 8);
    Pow2Add(16, 16);
    Pow2Add(32, 32);
  }

  // ---------------------------------------------------------------------------
  // Bitwise operations, bit by bit
  // ---------------------------------------------------------------------------

  function BitAnd(x: nat, y: nat): (r: nat)
    ensures r <= x && r <= y
    decreases x
  {
    if x == 0 || y == 0 then 0 else x % 2 * (y % 2) + 2 * BitAnd(x / 2, y / 2)
  }

  function BitOr(x: nat, y: nat): (r: nat)
    decreases x
  {
    if x == 0 then y
    else if y == 0 then x
    else (if x % 2 + y % 2 > 0 then 1 else 0) + 2 * BitOr(x / 2, y / 2)
  }

  function BitXor(x: nat, y: nat): (r: nat)
    decreases x
  {
    if x == 0 then y
    else if y == 0 then x
    else (x + y) % 2 + 2 * BitXor(x / 2, y / 2)
  }

  lemma {:induction false} BitOrBound(x: nat, y: nat, n: nat)
    requires x < Pow2(n) && y < Pow2(n)
    ensures BitOr(x, y) < Pow2(n) && BitXor(x, y) < Pow2(n)
  {
    if n > 0 && x > 0 && y > 0 {
      BitOrBound(x / 2, y / 2, n - 1);
    }
  }

  /** Masking with 2^n - 1 is reduction modulo 2^n. */
  lemma {:induction false} MaskIsMod(x: nat, n: nat)
    ensures BitAnd(x, Pow2(n) - 1) == x % Pow2(n)
  {
    if n == 0 {
      assert BitAnd(x, 0) == 0;
    } else {
      hide BitAnd;
      MaskIsMod(x / 2, n - 1);
      var h := Pow2(n - 1);
      assert Pow2(n) == 2 * h;
      hide Pow2;
      AndOdd(x, h - 1);
      HalveMod(x, h);
    }
  }

  /** One bit of a mask. */
  lemma AndOdd(x: nat, y: nat)
    ensures BitAnd(x, 2 * y + 1) == x % 2 + 2 * BitAnd(x / 2, y)
  {
    assert (2 * y + 1) / 2 == y && (2 * y + 1) % 2 == 1;
    if y == 0 {
      assert BitAnd(x / 2, y) == 0;
    }
  }

  lemma HalveMod(x: nat, h: nat)
    requires h >= 1
    ensures x % (2 * h) == x % 2 + 2 * (x / 2 % h)
  {
    var q, r := x / 2 / h, x / 2 % h;
    assert x == 2 * (h * q + r) + x % 2;
    assert x == 2 * h * q + (2 * r + x % 2);
    ModUnique(x, 2 * h, q, 2 * r + x % 2);
  }

  lemma ModUnique(x: int, m: nat, q: int, r: int)
    requires m > 0 && x == m * q + r && 0 <= r < m
    ensures x % m == r && x / m == q
  {
    var d := x / m - q;
    assert m * d == r - x % m;
    assert d >= 1 ==> m * d >= m;
    assert d <= -1 ==> m * d + m <= 0;
  }

  // ---------------------------------------------------------------------------
  // Byte order
  // ---------------------------------------------------------------------------

  lemma Pow256Constants()
    ensures Pow256(1) == 0x100 && Pow256(2) == 0x1_0000 && Pow256(4) == M32 && Pow256(8) == M64
  {
    assert Pow256(4) == 256 * Pow256(3) == 256 * (256 * Pow256(2));
    assert Pow256(8) == 256 * Pow256(7) == 0x1_0000 * Pow256(6);
    assert Pow256(6) == 256 * Pow256(5) == 0x1_0000 * Pow256(4);
  }

  /** The low `n` bytes of `x` in the opposite order. */
  function ByteSwap(n: nat, x: nat): (r: nat)
    ensures r < Pow256(n)
  {
    if n == 0 then 0
    else
      SwapBound(x % 256, Pow256(n - 1), ByteSwap(n - 1, x / 256));
      x % 256 * Pow256(n - 1) + ByteSwap(n - 1, x / 256)
  }

  lemma SwapBound(b: nat, p: nat, r: nat)
    requires b < 256 && r < p
    ensures b * p + r < 256 * p
  {
    assert b * p <= 255 * p;
  }

  /** Bytes swapped inside each of the `k` low half-words. */
  function HalfSwap(k: nat, x: nat): nat
  {
    if k == 0 then 0 else ByteSwap(2, x % 0x1_0000) + 0x1_0000 * HalfSwap(k - 1, x / 0x1_0000)
  }

  /** A multiple of 256 leaves the low byte alone. */
  lemma ByteOff(y: nat, k: nat)
    ensures (y + 256 * k) % 256 == y % 256 && (y + 256 * k) / 256 == y / 256 + k
  {
  }

  /** The swap of `n` bytes looks at the low `n` bytes only. */
  lemma {:induction false} ByteSwapLow(n: nat, y: nat, k: nat)
    ensures ByteSwap(n, y + Pow256(n) * k) == ByteSwap(n, y)
  {
    if n > 0 {
      var p := Pow256(n - 1) * k;
      assert Pow256(n) * k == 256 * p;
      ByteOff(y, p);
      ByteSwapLow(n - 1, y / 256, k);
    }
  }

  lemma {:induction false} ByteSwap2(x: nat)
    ensures ByteSwap(2, x % 0x1_0000) == ByteSwap(2, x)
  {
    hide ByteSwap;
    Pow256Constants();
    ByteSwapLow(2, x % 0x1_0000, x / 0x1_0000);
  }

  lemma {:induction false} ByteSwap4(x: nat)
    ensures ByteSwap(4, x % M32) == ByteSwap(4, x)
  {
    hide ByteSwap;
    Pow256Constants();
    ByteSwapLow(4, x % M32, x / M32);
  }
}
