/**
 * What the arithmetic instructions mean (sections 4.1 and 4.2 of RFC 9669),
 * said of the bits and bytes of operands and result, and the proof that the
 * interpreter computes that and nothing else.
 */
module BpfMeaning {
  import opened Leb128
  import opened ByteVectors
  import opened Words
  import opened BpfAlu
  import opened BitLaws
  import Arm
  import E = AluEmitter

  // ---------------------------------------------------------------------------
  // Shifts and sign extension, bit by bit
  // ---------------------------------------------------------------------------

  lemma ShiftLeftBits(x: nat, n: nat, w: nat, k: nat)
    requires k < w
    ensures Bit(ShiftLeft(x, n, Pow2(w)), k) == (k >= n && Bit(x, k - n))
  {
    BitMod(x * Pow2(n), w, k);
    BitUp(x, n, k);
  }

  lemma ShiftRightBits(x: nat, n: nat, k: nat)
    ensures Bit(ShiftRight(x, n), k) == Bit(x, k + n)
  {
    BitDown(x, n, k);
  }

  lemma ShiftRightSignedBits(x: nat, n: nat, w: nat, k: nat)
    requires k < w && x < Pow2(w)
    ensures Bit(ShiftRightSigned(x, n, Pow2(w)), k) == Bit(x, Min(k + n, w - 1))
  {
    var a := Signed(x, Pow2(w));
    BitMod(a / Pow2(n), w, k);
    BitDown(a, n, k);
    BitSigned(x, w, k + n);
  }

  /** Sign extension repeats bit `v - 1`. */
  lemma ExtendBits(s: nat, v: nat, w: nat, k: nat)
    requires 0 < v <= w && k < w
    ensures Pow2(v) <= Pow2(w) && Bit(Extend(s, Pow2(v), Pow2(w)), k) == Bit(s, Min(k, v - 1))
  {
    Pow2Mono(v, w);
    var a := Signed(s % Pow2(v), Pow2(v));
    BitMod(a, w, k);
    BitSigned(s % Pow2(v), v, k);
    BitMod(s, v, Min(k, v - 1));
  }

  // ---------------------------------------------------------------------------
  // Division
  // ---------------------------------------------------------------------------

  /** `q` is `a / b` rounded toward zero: the rest is smaller than `b` and has the sign of `a`. */
  predicate Quotes(a: int, b: int, q: int)
  {
    var r := a - q * b;
    Abs(r) < Abs(b) && (r == 0 || (r > 0 <==> a > 0))
  }

  function Abs(a: int): nat
  {
    if a < 0 then -a else a
  }

  lemma TruncDivQuotes(a: int, b: int)
    requires b != 0
    ensures Quotes(a, b, TruncDiv(a, b))
  {
    var p := Abs(a) / Abs(b) * Abs(b);
    Rest(Abs(a), Abs(b));
    TruncProduct(a, b);
    RestQuotes(a, b, TruncDiv(a, b), p);
  }

  lemma RestQuotes(a: int, b: int, t: int, p: int)
    requires t * b == (if a >= 0 then p else -p) && 0 <= p <= Abs(a) < p + Abs(b)
    ensures Quotes(a, b, t)
  {
  }

  lemma TruncProduct(a: int, b: int)
    requires b != 0
    ensures var p := Abs(a) / Abs(b) * Abs(b); TruncDiv(a, b) * b == if a >= 0 then p else -p
  {
    var q := Abs(a) / Abs(b);
    Products(q, Abs(b));
    if a >= 0 {
      if b > 0 {
        assert TruncDiv(a, b) == q;
      } else {
        assert TruncDiv(a, b) == -q;
      }
    } else {
      if b > 0 {
        assert TruncDiv(a, b) == -q;
      } else {
        assert TruncDiv(a, b) == q;
      }
    }
  }

  lemma Rest(n: nat, d: nat)
    requires d > 0
    ensures 0 <= n / d * d <= n < n / d * d + d
  {
  }

  lemma Products(q: int, d: int)
    ensures -q * d == -(q * d) && q * -d == -(q * d) && -q * -d == q * d
  {
  }

  // ---------------------------------------------------------------------------
  // The instructions
  // ---------------------------------------------------------------------------

  predicate SameMod(a: int, b: int, w: nat)
  {
    (a - b) % Pow2(w) == 0
  }

  /** The two's complement value of the low `w` bits of `x`. */
  predicate Reads(x: nat, w: nat, a: int)
    requires w > 0
  {
    SameMod(a, x, w) && -(Pow2(w - 1) as int) <= a < Pow2(w - 1)
  }

  /** Signed or unsigned operands of a division. */
  predicate Operands(x: nat, s: nat, signed: bool, w: nat, a: int, b: int)
    requires w > 0
  {
    if signed then Reads(x, w, a) && Reads(s, w, b) else a == x && b == s
  }

  ghost predicate IsQuotient(x: nat, s: nat, signed: bool, w: nat, r: nat)
    requires w > 0
  {
    exists a, b, q :: Operands(x, s, signed, w, a, b) && Quotes(a, b, q) && SameMod(r, q, w)
  }

  ghost predicate IsRemainder(x: nat, s: nat, signed: bool, w: nat, r: nat)
    requires w > 0
  {
    exists a, b, q :: Operands(x, s, signed, w, a, b) && Quotes(a, b, q) && SameMod(r, a - q * b, w)
  }

  /** Bytes `0 .. n` of `r` are those of `d`, reversed if asked, and there are no others. */
  predicate IsReordered(n: nat, reversed: bool, d: nat, r: nat)
  {
    r < Pow256(n) && forall k :: 0 <= k < n ==> ByteAt(r, k) == ByteAt(d, if reversed then n - 1 - k else k)
  }

  /** Bit `k` of `r` is bit `k` of `s` below `v` and the sign bit `v - 1` from there on. */
  predicate IsExtended(v: nat, w: nat, s: nat, r: nat)
    requires v > 0
  {
    forall k :: 0 <= k < w ==> Bit(r, k) == Bit(s, Min(k, v - 1))
  }

  /**
   * `r` is the result of operation code `op` on the `w` low bits `x` of the
   * destination and the operand `s`.
   */
  ghost predicate Means(op: nat, off: int, w: nat, x: nat, s: nat, r: nat)
    requires w > 0
  {
    r < Pow2(w) &&
    match op
    case 0x00 => SameMod(r, x + s, w)
    case 0x10 => SameMod(r + s, x, w)
    case 0x20 => SameMod(r, x * s, w)
    case 0x30 => if s == 0 then r == 0 else IsQuotient(x, s, off != 0, w, r)
    case 0x40 => forall k :: 0 <= k < w ==> Bit(r, k) == (Bit(x, k) || Bit(s, k))
    case 0x50 => forall k :: 0 <= k < w ==> Bit(r, k) == (Bit(x, k) && Bit(s, k))
    case 0x60 => forall k :: 0 <= k < w ==> Bit(r, k) == (k >= s % w && Bit(x, k - s % w))
    case 0x70 => forall k :: 0 <= k < w ==> Bit(r, k) == (k + s % w < w && Bit(x, k + s % w))
    case 0x80 => SameMod(r + x, 0, w)
    case 0x90 => if s == 0 then r == x else IsRemainder(x, s, off != 0, w, r)
    case 0xa0 => forall k :: 0 <= k < w ==> Bit(r, k) == (Bit(x, k) != Bit(s, k))
    case 0xb0 =>
      if off == 0 then r == s
      else if off == 8 || off == 16 || (off == 32 && w == 64) then IsExtended(off, w, s, r)
      else r == x
    case 0xc0 => forall k :: 0 <= k < w ==> Bit(r, k) == Bit(x, Min(k + s % w, w - 1))
    case _ => r == x
  }

  lemma ModSame(a: int, w: nat)
    ensures 0 <= a % Pow2(w) < Pow2(w) && SameMod(a % Pow2(w), a, w)
  {
    var p := Pow2(w);
    ModUnique(a % p - a, p, -(a / p), 0);
  }

  lemma SignedReads(x: nat, w: nat)
    requires w > 0 && x < Pow2(w)
    ensures Reads(x, w, Signed(x, Pow2(w)))
  {
    var p: int := Pow2(w);
    assert p == 2 * Pow2(w - 1);
    hide Pow2;
    ModUnique(0, p, 0, 0);
    ModUnique(-p, p, -1, 0);
    assert Signed(x, p) - x == 0 || Signed(x, p) - x == -p;
  }

  lemma QuotientMeans(x: nat, s: nat, signed: bool, w: nat)
    requires w > 0 && x < Pow2(w) && 0 < s < Pow2(w) && Pow2(w) % 2 == 0
    ensures IsQuotient(x, s, signed, w, Quotient(x, s, signed, Pow2(w)))
  {
    hide Quotes, TruncDiv, Operands;
    var p := Pow2(w);
    var a, b := if signed then Signed(x, p) else x, if signed then Signed(s, p) else s;
    OperandsAre(x, s, signed, w);
    TruncDivQuotes(a, b);
    ModSame(TruncDiv(a, b), w);
    QuotientIs(x, s, signed, p);
    hide Pow2, Quotient, SameMod, Signed;
    assert Operands(x, s, signed, w, a, b) && Quotes(a, b, TruncDiv(a, b));
  }

  lemma OperandsAre(x: nat, s: nat, signed: bool, w: nat)
    requires w > 0 && x < Pow2(w) && 0 < s < Pow2(w)
    ensures var p := Pow2(w);
            var a, b := if signed then Signed(x, p) else x, if signed then Signed(s, p) else s;
            b != 0 && Operands(x, s, signed, w, a, b)
  {
    SignedReads(x, w);
    SignedReads(s, w);
  }

  /** One formula for all cases, the overflowing one included. */
  lemma QuotientIs(x: nat, s: nat, signed: bool, p: nat)
    requires x < p && 0 < s < p && p % 2 == 0
    ensures var a, b := if signed then Signed(x, p) else x, if signed then Signed(s, p) else s;
            b != 0 && Quotient(x, s, signed, p) == TruncDiv(a, b) % p
  {
    if !signed {
      QuotientBound(x, s);
      ModUnique(x / s, p, 0, x / s);
    } else if Signed(s, p) == -1 && Signed(x, p) == -(p / 2) {
      assert TruncDiv(Signed(x, p), -1) == p / 2 by { DivOne(p / 2); }
      ModUnique(p / 2, p, 0, p / 2);
    }
  }

  lemma DivOne(n: nat)
    ensures n / 1 == n
  {
  }

  lemma RemainderMeans(x: nat, s: nat, signed: bool, w: nat)
    requires w > 0 && x < Pow2(w) && 0 < s < Pow2(w) && Pow2(w) % 2 == 0
    ensures IsRemainder(x, s, signed, w, Remainder(x, s, signed, Pow2(w)))
  {
    hide Quotes, TruncDiv, Operands;
    var p := Pow2(w);
    var a, b := if signed then Signed(x, p) else x, if signed then Signed(s, p) else s;
    OperandsAre(x, s, signed, w);
    TruncDivQuotes(a, b);
    ModSame(a - TruncDiv(a, b) * b, w);
    RemainderIs(x, s, signed, p);
    hide Pow2, Remainder, SameMod, Signed;
    assert Operands(x, s, signed, w, a, b) && Quotes(a, b, TruncDiv(a, b));
  }

  lemma RemainderIs(x: nat, s: nat, signed: bool, p: nat)
    requires x < p && 0 < s < p && p % 2 == 0
    ensures var a, b := if signed then Signed(x, p) else x, if signed then Signed(s, p) else s;
            b != 0 && Remainder(x, s, signed, p) == (a - TruncDiv(a, b) * b) % p
  {
    if !signed {
      UnsignedRest(x, s, p);
    } else if Signed(s, p) == -1 && Signed(x, p) == -(p / 2) {
      OverflowRest(p / 2);
      ModUnique(0, p, 0, 0);
    } else {
      hide TruncDiv;
    }
  }

  lemma UnsignedRest(x: nat, s: nat, p: nat)
    requires x < p && 0 < s < p
    ensures (x - TruncDiv(x, s) * s) % p == x % s
  {
    Recompose(x, s);
    assert TruncDiv(x, s) == x / s;
    hide TruncDiv;
    ModUnique(x % s, p, 0, x % s);
  }

  lemma OverflowRest(h: int)
    requires h >= 0
    ensures -h - TruncDiv(-h, -1) * -1 == 0
  {
    DivOne(h);
    assert TruncDiv(-h, -1) == h;
  }

  lemma Widths(is64: bool)
    ensures Pow2(Bits(is64)) == Size(is64) && Size(is64) % 2 == 0
    ensures Pow2(8) == 0x100 && Pow2(16) == 0x1_0000 && Pow2(32) == M32
  {
    Pow2Constants();
  }

  lemma OrMeans(off: int, is64: bool, x: nat, s: nat)
    requires x < Size(is64) && s < Size(is64)
    ensures Means(0x40, off, Bits(is64), x, s, BitOr(x, s))
  {
    hide Bit, BitOr;
    Widths(is64);
    BitOrBound(x, s, Bits(is64));
    forall k: nat | k < Bits(is64)
      ensures Bit(BitOr(x, s), k) == (Bit(x, k) || Bit(s, k))
    {
      OrBits(x, s, k);
    }
  }

  lemma AndMeans(off: int, is64: bool, x: nat, s: nat)
    requires x < Size(is64) && s < Size(is64)
    ensures Means(0x50, off, Bits(is64), x, s, BitAnd(x, s))
  {
    hide Bit, BitAnd;
    Widths(is64);
    forall k: nat | k < Bits(is64)
      ensures Bit(BitAnd(x, s), k) == (Bit(x, k) && Bit(s, k))
    {
      AndBits(x, s, k);
    }
  }

  lemma XorMeans(off: int, is64: bool, x: nat, s: nat)
    requires x < Size(is64) && s < Size(is64)
    ensures Means(0xa0, off, Bits(is64), x, s, BitXor(x, s))
  {
    hide Bit, BitXor;
    Widths(is64);
    BitOrBound(x, s, Bits(is64));
    forall k: nat | k < Bits(is64)
      ensures Bit(BitXor(x, s), k) == (Bit(x, k) != Bit(s, k))
    {
      XorBits(x, s, k);
    }
  }

  lemma LeftMeans(off: int, is64: bool, x: nat, s: nat)
    requires x < Size(is64) && s < Size(is64)
    ensures Means(0x60, off, Bits(is64), x, s, ShiftLeft(x, s % Bits(is64), Size(is64)))
  {
    hide Bit, ShiftLeft;
    Widths(is64);
    var n := s % Bits(is64);
    forall k: nat | k < Bits(is64)
      ensures Bit(ShiftLeft(x, n, Size(is64)), k) == (k >= n && Bit(x, k - n))
    {
      ShiftLeftBits(x, n, Bits(is64), k);
    }
  }

  lemma RightMeans(off: int, is64: bool, x: nat, s: nat)
    requires x < Size(is64) && s < Size(is64)
    ensures Means(0x70, off, Bits(is64), x, s, ShiftRight(x, s % Bits(is64)))
  {
    hide Bit, ShiftRight;
    Widths(is64);
    var n := s % Bits(is64);
    forall k: nat | k < Bits(is64)
      ensures Bit(ShiftRight(x, n), k) == (k + n < Bits(is64) && Bit(x, k + n))
    {
      ShiftRightBits(x, n, k);
      if k + n >= Bits(is64) { BitsAbove(x, Bits(is64), k + n); }
    }
  }

  lemma SignedRightMeans(off: int, is64: bool, x: nat, s: nat)
    requires x < Size(is64) && s < Size(is64)
    ensures Means(0xc0, off, Bits(is64), x, s, ShiftRightSigned(x, s % Bits(is64), Size(is64)))
  {
    hide Bit, ShiftRightSigned;
    Widths(is64);
    var n, w := s % Bits(is64), Bits(is64);
    forall k: nat | k < w
      ensures Bit(ShiftRightSigned(x, n, Size(is64)), k) == Bit(x, Min(k + n, w - 1))
    {
      ShiftRightSignedBits(x, n, w, k);
    }
  }

  lemma MoveMeans(i: Insn, is64: bool, x: nat, s: nat)
    requires x < Size(is64) && s < Size(is64)
    ensures Means(0xb0, i.off, Bits(is64), x, s, MoveResult(i, is64, x, s))
  {
    hide Bit, Extend, Pow2;
    Widths(is64);
    var w := Bits(is64);
    if i.off == 8 || i.off == 16 || (i.off == 32 && is64) {
      forall k: nat | k < w
        ensures Bit(Extend(s, Pow2(i.off), Pow2(w)), k) == Bit(s, Min(k, i.off - 1))
      {
        ExtendBits(s, i.off, w, k);
      }
    }
  }

  lemma SumMeans(off: int, is64: bool, x: nat, s: nat)
    requires x < Size(is64) && s < Size(is64)
    ensures Means(0x00, off, Bits(is64), x, s, (x + s) % Size(is64))
    ensures Means(0x10, off, Bits(is64), x, s, (x - s) % Size(is64))
    ensures Means(0x80, off, Bits(is64), x, s, (0 - x) % Size(is64))
  {
    hide Pow2, Bit;
    Widths(is64);
    var z: int, m: int := x, Size(is64);
    ModSame(z + s, Bits(is64));
    DifferenceMod(z - s, s, z, Bits(is64));
    DifferenceMod(0 - z, z, 0, Bits(is64));
  }

  lemma DifferenceMod(d: int, y: int, z: int, w: nat)
    requires d + y == z
    ensures 0 <= d % Pow2(w) < Pow2(w) && SameMod(d % Pow2(w) + y, z, w)
  {
    ModSame(d, w);
    assert d % Pow2(w) + y - z == d % Pow2(w) - d;
  }

  lemma ProductMeans(off: int, is64: bool, x: nat, s: nat)
    requires x < Size(is64) && s < Size(is64)
    ensures Means(0x20, off, Bits(is64), x, s, x * s % Size(is64))
  {
    hide Pow2, Bit;
    Widths(is64);
    ModSame(x * s, Bits(is64));
  }

  lemma DivisionMeans(off: int, is64: bool, x: nat, s: nat)
    requires x < Size(is64) && s < Size(is64)
    ensures Size(is64) % 2 == 0 && Means(0x30, off, Bits(is64), x, s, Quotient(x, s, off != 0, Size(is64)))
    ensures Means(0x90, off, Bits(is64), x, s, Remainder(x, s, off != 0, Size(is64)))
  {
    hide Quotient, Remainder, Pow2, Bit, IsQuotient, IsRemainder;
    Widths(is64);
    if s > 0 {
      QuotientMeans(x, s, off != 0, Bits(is64));
      RemainderMeans(x, s, off != 0, Bits(is64));
    } else {
      Zero(x, off != 0, Size(is64));
    }
  }

  lemma Zero(x: nat, signed: bool, m: nat)
    requires x < m && m % 2 == 0
    ensures Quotient(x, 0, signed, m) == 0 && Remainder(x, 0, signed, m) == x
  {
  }

  /** END: the width is the immediate; the 32-bit class with an immediate source leaves the order alone. */
  ghost predicate EndMeans(i: Insn, is64: bool, d: nat, r: nat)
  {
    (i.imm == 16 || i.imm == 32 || i.imm == 64) && IsReordered(i.imm / 8, is64 || i.isX, d, r)
  }

  lemma EndResultMeans(i: Insn, is64: bool, d: nat)
    requires d < M64
    ensures EndResult(i, is64, d).Result? <==> i.imm == 16 || i.imm == 32 || i.imm == 64
    ensures EndResult(i, is64, d).Result? ==> EndMeans(i, is64, d, EndResult(i, is64, d).value)
  {
    hide ByteSwap, ByteAt;
    if i.imm == 16 || i.imm == 32 || i.imm == 64 {
      var n := i.imm / 8;
      Pow256Constants();
      forall k: nat | k < n
        ensures ByteAt(ByteSwap(n, d), k) == ByteAt(d, n - 1 - k) && ByteAt(d % Pow256(n), k) == ByteAt(d, k)
      {
        SwapBytes(n, d, k);
        LowBytes(d, n, k);
      }
    }
  }

  lemma LowBytes(d: nat, n: nat, k: nat)
    requires k < n
    ensures ByteAt(d % Pow256(n), k) == ByteAt(d, k)
  {
    hide ByteAt, Pow256;
    Recompose(d, Pow256(n));
    HighBytes(d / Pow256(n), d % Pow256(n), n, k);
  }

  lemma Recompose(d: nat, p: nat)
    requires p > 0
    ensures d / p * p + d % p == d
  {
  }

  /**
   * Main result: for every instruction and all register values, the
   * interpreter refuses exactly the byte swaps of an unknown width, and
   * otherwise computes what the instruction means.
   */
  lemma AluMeans(i: Insn, is64: bool, d: nat, s: nat)
    requires ValidInsn(i) && d < M64 && s < Size(is64)
    ensures var r := AluResult(i, is64, d, s);
            (r.Refused? <==> i.op == 0xd0 && i.imm != 16 && i.imm != 32 && i.imm != 64) &&
            (r.Result? ==>
               if i.op == 0xd0 then EndMeans(i, is64, d, r.value)
               else Means(i.op, i.off, if is64 then 64 else 32, d % Size(is64), s, r.value))
  {
    hide Means, EndMeans, EndResult, MoveResult, Quotient, Remainder, ShiftLeft, ShiftRight, ShiftRightSigned;
    var x := d % Size(is64);
    assert Bits(is64) == if is64 then 64 else 32;
    if i.op == 0x00 || i.op == 0x10 || i.op == 0x80 {
      SumMeans(i.off, is64, x, s);
    } else if i.op == 0x20 {
      ProductMeans(i.off, is64, x, s);
    } else if i.op == 0x30 || i.op == 0x90 {
      DivisionMeans(i.off, is64, x, s);
    } else if i.op == 0x40 {
      OrMeans(i.off, is64, x, s);
    } else if i.op == 0x50 {
      AndMeans(i.off, is64, x, s);
    } else if i.op == 0xa0 {
      XorMeans(i.off, is64, x, s);
    } else if i.op == 0x60 {
      LeftMeans(i.off, is64, x, s);
    } else if i.op == 0x70 {
      RightMeans(i.off, is64, x, s);
    } else if i.op == 0xc0 {
      SignedRightMeans(i.off, is64, x, s);
    } else if i.op == 0xb0 {
      MoveMeans(i, is64, x, s);
    } else if i.op == 0xd0 {
      EndResultMeans(i, is64, d);
    } else {
      Unassigned(i.op, i.off, is64, x, s);
    }
  }

  lemma Unassigned(op: nat, off: int, is64: bool, x: nat, s: nat)
    requires (op == 0xe0 || op == 0xf0) && x < Size(is64)
    ensures Means(op, off, if is64 then 64 else 32, x, s, x)
  {
    Widths(is64);
  }

  /** `r` is what the instruction means for a destination that held `d` and the operand `s`. */
  ghost predicate Computes(i: Insn, is64: bool, d: nat, s: nat, r: nat)
  {
    if i.op == 0xd0 then EndMeans(i, is64, d, r) else Means(i.op, i.off, if is64 then 64 else 32, d % Size(is64), s, r)
  }

  /** So does the native code: what it leaves in the destination is what the instruction means. */
  lemma EmittedCodeMeans(i: Insn, is64: bool, st: Arm.State)
    requires ValidInsn(i) && E.AluCode(i, is64).Code?
    ensures var code := E.AluCode(i, is64).code;
            Arm.AllWellFormed(code) &&
            Computes(i, is64, E.BpfRegs(st)[i.dst], Operand(E.BpfRegs(st), i, is64), E.BpfRegs(Arm.Run(code, st))[i.dst])
  {
    hide AluResult, E.AluCode, Means, EndMeans, Operand, E.BpfRegs, Arm.Run, Arm.WellFormed;
    E.AluCorrect(i, is64, st);
    AluMeans(i, is64, E.BpfRegs(st)[i.dst], Operand(E.BpfRegs(st), i, is64));
  }
}
