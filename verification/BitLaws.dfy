/**
 * The bits and bytes of numbers, negative ones in two's complement, and what
 * the word operations do to each of them.
 */
module BitLaws {
  import opened Leb128
  import opened ByteVectors
  import opened Words

  // ---------------------------------------------------------------------------
  // Bits of numbers
  // ---------------------------------------------------------------------------

  predicate Bit(x: int, k: nat)
  {
    x / Pow2(k) % 2 == 1
  }

  function ByteAt(x: nat, k: nat): nat
  {
    x / Pow256(k) % 256
  }

  function Min(a: nat, b: nat): nat
  {
    if a < b then a else b
  }

  lemma DivDiv(x: int, a: nat, b: nat)
    requires a > 0 && b > 0
    ensures a * b > 0 && x / a / b == x / (a * b)
  {
    var q, r := x / a, x % a;
    var p, t := q / b, q % b;
    Nest(a, b, p, t);
    assert x == a * q + r && q == b * p + t;
    InRange(a, b, t, r);
    ModUnique(x, a * b, p, a * t + r);
  }

  lemma Nest(a: int, b: int, p: int, t: int)
    ensures a * (b * p + t) == a * b * p + a * t
  {
  }

  lemma InRange(a: nat, b: nat, t: nat, r: nat)
    requires r < a && t < b
    ensures 0 <= a * t + r < a * b
  {
    assert a * b == a * (b - 1) + a;
    assert a * t <= a * (b - 1);
  }

  lemma BitZero(x: int)
    ensures Bit(x, 0) == (x % 2 == 1)
  {
  }

  lemma BitNext(x: int, k: nat)
    ensures Bit(x, k + 1) == Bit(x / 2, k)
  {
    DivDiv(x, 2, Pow2(k));
  }

  /** A bit in front. */
  lemma BitCons(b: nat, r: int, k: nat)
    requires b < 2
    ensures Bit(b + 2 * r, k) == if k == 0 then b == 1 else Bit(r, k - 1)
  {
    var x := b + 2 * r;
    assert x / 2 == r && x % 2 == b;
    if k == 0 {
      BitZero(x);
    } else {
      BitNext(x, k - 1);
    }
  }

  /** Any number is its low bit and the rest. */
  lemma BitSplit(x: int, k: nat)
    ensures Bit(x, k) == if k == 0 then x % 2 == 1 else Bit(x / 2, k - 1)
  {
    BitCons(x % 2, x / 2, k);
  }

  /** Dividing by a power of two moves the bits down. */
  lemma BitDown(x: int, n: nat, k: nat)
    ensures Bit(x / Pow2(n), k) == Bit(x, k + n)
  {
    DivDiv(x, Pow2(n), Pow2(k));
    Pow2Add(n, k);
  }

  /** Multiplying moves them up. */
  lemma {:induction false} BitUp(x: int, n: nat, k: nat)
    ensures Bit(x * Pow2(n), k) == (k >= n && Bit(x, k - n))
    decreases n
  {
    if n > 0 {
      var y := x * Pow2(n - 1);
      assert x * Pow2(n) == 2 * y;
      hide Bit;
      BitCons(0, y, k);
      if k > 0 {
        BitUp(x, n - 1, k - 1);
      }
    }
  }

  /** Reduction modulo a power of two keeps the bits below it. */
  lemma {:induction false} BitMod(x: int, w: nat, k: nat)
    requires k < w
    ensures Bit(x % Pow2(w), k) == Bit(x, k)
    decreases w
  {
    HalveModInt(x, Pow2(w - 1));
    var y := x % Pow2(w);
    assert y / 2 == x / 2 % Pow2(w - 1) && y % 2 == x % 2;
    if k == 0 {
      BitZero(x);
      BitZero(y);
    } else {
      BitNext(x, k - 1);
      BitNext(y, k - 1);
      BitMod(x / 2, w - 1, k - 1);
    }
  }

  lemma HalveModInt(x: int, h: nat)
    requires h >= 1
    ensures x % (2 * h) == x % 2 + 2 * (x / 2 % h)
  {
    var q, r := x / 2 / h, x / 2 % h;
    assert x == 2 * (h * q + r) + x % 2;
    assert x == 2 * h * q + (2 * r + x % 2);
    ModUnique(x, 2 * h, q, 2 * r + x % 2);
  }

  /** The signed reading repeats the top bit for ever. */
  lemma BitSigned(x: int, w: nat, k: nat)
    requires w > 0 && 0 <= x < Pow2(w)
    ensures Bit(Signed(x, Pow2(w)), k) == Bit(x, Min(k, w - 1))
  {
    var p := Pow2(w);
    TopBit(x, w);
    if k < w {
      BitMod(x - p, w, k);
      BitMod(x, w, k);
      ModUnique(x - p, p, -1, x);
      ModUnique(x, p, 0, x);
    } else {
      Pow2Mono(w, k);
      if x < p / 2 {
        ModUnique(x, Pow2(k), 0, x);
      } else {
        ModUnique(x - p, Pow2(k), -1, x - p + Pow2(k));
      }
    }
  }

  lemma TopBit(x: int, w: nat)
    requires w > 0 && 0 <= x < Pow2(w)
    ensures Bit(x, w - 1) == (x >= Pow2(w) / 2)
  {
    var h := Pow2(w - 1);
    assert Pow2(w) == 2 * h;
    if x < h {
      ModUnique(x, h, 0, x);
    } else {
      ModUnique(x, h, 1, x - h);
    }
  }

  lemma {:induction false} Pow2Mono(a: nat, b: nat)
    requires a <= b
    ensures Pow2(a) <= Pow2(b)
    decreases b
  {
    if a < b {
      Pow2Mono(a, b - 1);
    }
  }

  // ---------------------------------------------------------------------------
  // The operations, bit by bit
  // ---------------------------------------------------------------------------

  lemma {:induction false} AndBits(x: nat, y: nat, k: nat)
    ensures Bit(BitAnd(x, y), k) == (Bit(x, k) && Bit(y, k))
    decreases k
  {
    BitsOfZero(k);
    if x > 0 && y > 0 {
      AndLow(x, y);
      hide Bit, BitAnd;
      BitSplit(x, k);
      BitSplit(y, k);
      BitCons(AndBit(x, y), BitAnd(x / 2, y / 2), k);
      if k > 0 {
        AndBits(x / 2, y / 2, k - 1);
      }
    }
  }

  function AndBit(x: nat, y: nat): (b: nat)
    ensures b < 2
  {
    if x % 2 == 1 && y % 2 == 1 then 1 else 0
  }

  lemma AndLow(x: nat, y: nat)
    requires x > 0 && y > 0
    ensures BitAnd(x, y) == AndBit(x, y) + 2 * BitAnd(x / 2, y / 2)
  {
    BitTimes(x % 2, y % 2);
  }

  lemma BitTimes(a: nat, b: nat)
    requires a < 2 && b < 2
    ensures a * b == if a == 1 && b == 1 then 1 else 0
  {
  }

  lemma BitsOfZero(k: nat)
    ensures !Bit(0, k)
  {
  }

  lemma {:induction false} OrBits(x: nat, y: nat, k: nat)
    ensures Bit(BitOr(x, y), k) == (Bit(x, k) || Bit(y, k))
    decreases k
  {
    BitsOfZero(k);
    if x > 0 && y > 0 {
      OrLow(x, y);
      hide Bit, BitOr;
      BitSplit(x, k);
      BitSplit(y, k);
      BitCons(OrBit(x, y), BitOr(x / 2, y / 2), k);
      if k > 0 {
        OrBits(x / 2, y / 2, k - 1);
      }
    }
  }

  function OrBit(x: nat, y: nat): (b: nat)
    ensures b < 2
  {
    if x % 2 == 1 || y % 2 == 1 then 1 else 0
  }

  lemma OrLow(x: nat, y: nat)
    requires x > 0 && y > 0
    ensures BitOr(x, y) == OrBit(x, y) + 2 * BitOr(x / 2, y / 2)
  {
    assert x % 2 == 0 || x % 2 == 1;
    assert y % 2 == 0 || y % 2 == 1;
  }

  lemma {:induction false} XorBits(x: nat, y: nat, k: nat)
    ensures Bit(BitXor(x, y), k) == (Bit(x, k) != Bit(y, k))
    decreases k
  {
    BitsOfZero(k);
    if x > 0 && y > 0 {
      XorLow(x, y);
      hide Bit, BitXor;
      BitSplit(x, k);
      BitSplit(y, k);
      BitCons(XorBit(x, y), BitXor(x / 2, y / 2), k);
      if k > 0 {
        XorBits(x / 2, y / 2, k - 1);
      }
    }
  }

  function XorBit(x: nat, y: nat): (b: nat)
    ensures b < 2
  {
    if x % 2 != y % 2 then 1 else 0
  }

  lemma XorLow(x: nat, y: nat)
    requires x > 0 && y > 0
    ensures BitXor(x, y) == XorBit(x, y) + 2 * BitXor(x / 2, y / 2)
  {
    Parity(x, y);
  }

  lemma Parity(x: nat, y: nat)
    ensures (x + y) % 2 == XorBit(x, y)
  {
    var a, b := x / 2, y / 2;
    assert x + y == 2 * (a + b) + (x % 2 + y % 2);
  }

  lemma BitsAbove(x: nat, w: nat, k: nat)
    requires x < Pow2(w) && w <= k
    ensures !Bit(x, k)
  {
    Pow2Mono(w, k);
    ModUnique(x, Pow2(k), 0, x);
  }

  lemma {:induction false} SwapBytes(n: nat, x: nat, k: nat)
    requires k < n
    ensures ByteAt(ByteSwap(n, x), k) == ByteAt(x, n - 1 - k)
    decreases n
  {
    var b, y := x % 256, ByteSwap(n - 1, x / 256);
    assert ByteSwap(n, x) == b * Pow256(n - 1) + y;
    hide ByteSwap;
    if k == n - 1 {
      TopByte(b, Pow256(n - 1), y);
      assert Pow256(0) == 1;
    } else {
      SwapBytes(n - 1, x / 256, k);
      BytesDown(x, n - 2 - k);
      HighBytes(b, y, n - 1, k);
    }
  }

  lemma TopByte(b: nat, p: nat, y: nat)
    requires b < 256 && y < p
    ensures (b * p + y) / p % 256 == b
  {
    ModUnique(b * p + y, p, b, y);
  }

  lemma BytesDown(x: nat, k: nat)
    ensures ByteAt(x / 256, k) == ByteAt(x, k + 1)
  {
    DivDiv(x, 256, Pow256(k));
  }

  /** What lies above byte `n` does not touch byte `k < n`. */
  lemma HighBytes(b: nat, y: nat, n: nat, k: nat)
    requires k < n
    ensures ByteAt(b * Pow256(n) + y, k) == ByteAt(y, k)
  {
    Pow256Split(k, n - k);
    var p, q := Pow256(k), Pow256(n - k - 1);
    assert Pow256(n - k) == 256 * q;
    hide Pow256;
    Regroup(b, p, q);
    HighStep(p, b * q, y);
  }

  lemma HighStep(p: nat, g: nat, y: nat)
    requires p > 0
    ensures (p * (256 * g) + y) / p % 256 == y / p % 256
  {
    Whole(p, 256 * g, y);
    AddMultiple(g, y / p);
  }

  lemma Regroup(b: nat, p: nat, q: nat)
    ensures b * (p * (256 * q)) == p * (256 * (b * q))
  {
    assert b * (p * (256 * q)) == b * p * (256 * q) == p * b * (256 * q) == p * (b * (256 * q));
    assert b * (256 * q) == 256 * (b * q);
  }

  lemma Whole(p: nat, h: nat, y: nat)
    requires p > 0
    ensures (p * h + y) / p == h + y / p
  {
    var q, r := y / p, y % p;
    assert y == p * q + r;
    assert p * (h + q) == p * h + p * q;
    ModUnique(p * h + y, p, h + q, r);
  }

  lemma AddMultiple(g: nat, t: nat)
    ensures (256 * g + t) % 256 == t % 256
  {
  }

  lemma {:induction false} Pow256Split(a: nat, b: nat)
    ensures Pow256(a + b) == Pow256(a) * Pow256(b)
    decreases a
  {
    if a > 0 {
      Pow256Split(a - 1, b);
    }
  }
}
