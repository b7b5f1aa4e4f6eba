/**
 * The arithmetic instructions of the BPF interpreter, `vm::alu` and
 * `vm::alu64` (sections 4.1 and 4.2 of RFC 9669), and its conditional jumps.
 */
module BpfAlu {
  import opened Leb128
  import opened Words

  const ADD: nat := 0x00
  const SUB: nat := 0x10
  const MUL: nat := 0x20
  const DIV: nat := 0x30
  const OR: nat := 0x40
  const AND: nat := 0x50
  const LSH: nat := 0x60
  const RSH: nat := 0x70
  const NEG: nat := 0x80
  const MOD: nat := 0x90
  const XOR: nat := 0xa0
  const MOV: nat := 0xb0
  const ARSH: nat := 0xc0
  const END: nat := 0xd0

  /** The fields of an instruction that arithmetic looks at; `op` is the high nibble of the code. */
  datatype Insn = Insn(op: nat, isX: bool, dst: nat, src: nat, off: int, imm: int)

  predicate ValidInsn(i: Insn)
  {
    i.op < 0x100 && i.op % 0x10 == 0 && i.dst <= 10 && i.src <= 10 &&
    -0x8000 <= i.off < 0x8000 && -0x8000_0000 <= i.imm < 0x8000_0000
  }

  type Word = x: int | 0 <= x < M64

  type Registers = r: seq<Word> | |r| == 11 witness seq(11, _ => 0)

  /** The source operand: a register, or the sign-extended immediate. */
  function Operand(r: Registers, i: Insn, is64: bool): (s: nat)
    requires ValidInsn(i)
    ensures s < Size(is64)
  {
    (if i.isX then r[i.src] else i.imm) % Size(is64)
  }

  /** Sign extension from the low `n` values. */
  function Extend(s: nat, n: nat, m: nat): (r: nat)
    requires 0 < n <= m
    ensures r < m
  {
    Signed(s % n, n) % m
  }

  function ShiftLeft(x: nat, k: nat, m: nat): (r: nat)
    requires m > 0
    ensures r < m
  {
    x * Pow2(k) % m
  }

  function ShiftRight(x: nat, k: nat): (r: nat)
    ensures r <= x
  {
    QuotientBound(x, Pow2(k));
    x / Pow2(k)
  }

  lemma QuotientBound(x: nat, p: nat)
    requires p >= 1
    ensures 0 <= x / p <= x
  {
    var q := x / p;
    assert x == p * q + x % p;
    assert (p - 1) * q >= 0;
    assert p * q == (p - 1) * q + q;
  }

  function ShiftRightSigned(x: nat, k: nat, m: nat): (r: nat)
    requires m > 0
    ensures r < m
  {
    Signed(x, m) / Pow2(k) % m
  }

  /** Division and remainder by zero, and INT_MIN / -1, are defined. */
  function Quotient(x: nat, s: nat, signed: bool, m: nat): (r: nat)
    requires x < m && s < m && m > 0 && m % 2 == 0
    ensures r < m
  {
    if s == 0 then 0
    else if !signed then QuotientBound(x, s); x / s
    else if Signed(s, m) == -1 && Signed(x, m) == -(m / 2) then m / 2
    else TruncDiv(Signed(x, m), Signed(s, m)) % m
  }

  function Remainder(x: nat, s: nat, signed: bool, m: nat): (r: nat)
    requires x < m && s < m && m > 0 && m % 2 == 0
    ensures r < m
  {
    if s == 0 then x
    else if !signed then x % s
    else if Signed(s, m) == -1 && Signed(x, m) == -(m / 2) then 0
    else TruncRem(Signed(x, m), Signed(s, m)) % m
  }

  datatype Outcome = Refused | Result(value: nat)

  /** Byte swap instructions: BSWAP in the 64-bit class, to-big and to-little endian in the other. */
  function EndResult(i: Insn, is64: bool, d: nat): Outcome
  {
    if is64 || i.isX then
      if i.imm == 16 then Result(ByteSwap(2, d))
      else if i.imm == 32 then Result(ByteSwap(4, d))
      else if i.imm == 64 then Result(ByteSwap(8, d))
      else Refused
    else if i.imm == 16 then Result(d % 0x1_0000)
    else if i.imm == 32 then Result(d % M32)
    else if i.imm == 64 then Result(d)
    else Refused
  }

  function MoveResult(i: Insn, is64: bool, x: nat, s: nat): nat
  {
    var m := Size(is64);
    if i.off == 0 then s
    else if i.off == 8 then Extend(s, 0x100, m)
    else if i.off == 16 then Extend(s, 0x1_0000, m)
    else if i.off == 32 && is64 then Extend(s, M32, m)
    else x
  }

  /** The new 64-bit value of the destination, whose old value is `d`. */
  function AluResult(i: Insn, is64: bool, d: nat, s: nat): (r: Outcome)
    requires d < M64 && s < Size(is64)
  {
    var m := Size(is64);
    var x := d % m;
    var k := s % Bits(is64);
    if i.op == ADD then Result((x + s) % m)
    else if i.op == SUB then Result((x - s) % m)
    else if i.op == MUL then Result(x * s % m)
    else if i.op == DIV then Result(Quotient(x, s, i.off != 0, m))
    else if i.op == OR then Result(BitOr(x, s))
    else if i.op == AND then Result(BitAnd(x, s))
    else if i.op == LSH then Result(ShiftLeft(x, k, m))
    else if i.op == RSH then Result(ShiftRight(x, k))
    else if i.op == NEG then Result(-x % m)
    else if i.op == MOD then Result(Remainder(x, s, i.off != 0, m))
    else if i.op == XOR then Result(BitXor(x, s))
    else if i.op == MOV then Result(MoveResult(i, is64, x, s))
    else if i.op == ARSH then Result(ShiftRightSigned(x, k, m))
    else if i.op == END then EndResult(i, is64, d)
    else Result(x)
  }

  /** Every result is a register value, and the 32-bit class clears the high half. */
  lemma AluResultFits(i: Insn, is64: bool, d: nat, s: nat)
    requires d < M64 && s < Size(is64)
    ensures var r := AluResult(i, is64, d, s);
            r.Result? ==> r.value < M64 && (!is64 && i.op != END ==> r.value < M32)
  {
    hide BitOr, BitXor, BitAnd, ByteSwap, Quotient, Remainder, ShiftLeft, ShiftRight, ShiftRightSigned, Extend;
    var m, x := Size(is64), d % Size(is64);
    Pow2Constants();
    if i.op == OR || i.op == XOR {
      BitOrBound(x, s, Bits(is64));
    }
    Pow256Constants();
  }

  /** One arithmetic step: refused, with nothing changed, or the destination and no other register set. */
  predicate Computed(before: Registers, i: Insn, is64: bool, ok: bool, after: Registers)
    requires ValidInsn(i)
  {
    var r := AluResult(i, is64, before[i.dst], Operand(before, i, is64));
    ok == (i.dst < 10 && r.Result?) &&
    after[i.dst] == (if ok then r.value else before[i.dst]) &&
    forall n :: 0 <= n < 11 && n != i.dst ==> after[n] == before[n]
  }

  /** The division arm of both switches. */
  method Divide(dst: nat, src: nat, signed: bool, m: nat) returns (r: nat)
    requires dst < m && src < m && m % 2 == 0
    ensures r == Quotient(dst, src, signed, m)
  {
    var signedSrc := Signed(src, m);
    if !signed {
      if src != 0 { QuotientBound(dst, src); }
      r := if src != 0 then dst / src else 0;
    } else {
      r := if src == 0 then 0
           else if signedSrc == -1 && Signed(dst, m) == -(m / 2) then m / 2
           else TruncDiv(Signed(dst, m), signedSrc) % m;
    }
  }

  /** The remainder arm of both switches. */
  method Modulo(dst: nat, src: nat, signed: bool, m: nat) returns (r: nat)
    requires dst < m && src < m && m % 2 == 0
    ensures r == Remainder(dst, src, signed, m)
  {
    var signedSrc := Signed(src, m);
    if !signed {
      r := if src != 0 then dst % src else dst;
    } else {
      r := if src == 0 then dst
           else if signedSrc == -1 && Signed(dst, m) == -(m / 2) then 0
           else TruncRem(Signed(dst, m), signedSrc) % m;
    }
  }

  lemma SignedNegation(x: int)
    ensures 0 <= x < M64 ==> -Signed(x, M64) % M64 == -x % M64
    ensures 0 <= x < M32 ==> -Signed(x, M32) % M32 == -x % M32
  {
    assert 0 < x < M64 ==> -x % M64 == M64 - x;
    assert 0 < x < M32 ==> -x % M32 == M32 - x;
  }

  /** The 32-bit END arm: `d` is the whole register, `dst` its low half. */
  method SwapEndian(i: Insn, d: Word, dst: nat) returns (ok: bool, r: nat)
    requires dst == d % M32
    ensures EndResult(i, false, d) == if ok then Result(r) else Refused
  {
    hide ByteSwap;
    ByteSwap2(d);
    ByteSwap2(dst);
    ByteSwap4(d);
    ok, r := true, d;
    if i.isX {
      match i.imm {
        case 16 => r := ByteSwap(2, dst);
        case 32 => r := ByteSwap(4, dst);
        case 64 => r := ByteSwap(8, d);
        case _ => ok := false;
      }
    } else {
      match i.imm {
        case 16 => r := dst % 0x1_0000;
        case 32 => r := dst;
        case 64 =>
        case _ => ok := false;
      }
    }
  }

  /** The switch of `vm::alu64` on the destination value `d` and the operand `src`. */
  method Switch64(i: Insn, d: Word, src: Word) returns (ok: bool, dst: nat)
    requires ValidInsn(i) && src < M64
    ensures AluResult(i, true, d, src) == if ok then Result(dst) else Refused
  {
    hide BitOr, BitXor, BitAnd, ByteSwap, Quotient, Remainder, ShiftLeft, ShiftRight, ShiftRightSigned, Extend, Pow2;
    ok, dst := true, d;
    match i.op {
      case 0x00 => dst := (dst + src) % M64;
      case 0x10 => dst := (dst - src) % M64;
      case 0x20 => dst := dst * src % M64;
      case 0x30 => dst := Divide(dst, src, i.off != 0, M64);
      case 0x40 => dst := BitOr(dst, src);
      case 0x50 => dst := BitAnd(dst, src);
      case 0x60 => dst := ShiftLeft(dst, src % 64, M64);
      case 0x70 => dst := ShiftRight(dst, src % 64);
      case 0x80 =>
        SignedNegation(dst);
        dst := -Signed(dst, M64) % M64;
      case 0x90 => dst := Modulo(dst, src, i.off != 0, M64);
      case 0xa0 => dst := BitXor(dst, src);
      case 0xb0 =>
        if i.off == 0 {
          dst := src;
        } else if i.off == 8 {
          dst := Extend(src, 0x100, M64);
        } else if i.off == 16 {
          dst := Extend(src, 0x1_0000, M64);
        } else if i.off == 32 {
          dst := Extend(src, M32, M64);
        }
      case 0xc0 => dst := ShiftRightSigned(dst, src % 64, M64);
      case 0xd0 =>
        match i.imm {
          case 16 => dst := ByteSwap(2, dst);
          case 32 => dst := ByteSwap(4, dst);
          case 64 => dst := ByteSwap(8, dst);
          case _ => ok := false;
        }
      case _ =>
    }
  }

  /** The switch of `vm::alu` on the destination value `d` and the operand `src`. */
  method Switch32(i: Insn, d: Word, src: Word) returns (ok: bool, dst: nat)
    requires ValidInsn(i) && src < M32
    ensures AluResult(i, false, d, src) == if ok then Result(dst) else Refused
  {
    hide BitOr, BitXor, BitAnd, ByteSwap, Quotient, Remainder, ShiftLeft, ShiftRight, ShiftRightSigned, Extend, Pow2;
    ok, dst := true, d % M32;
    match i.op {
      case 0x00 => dst := (dst + src) % M32;
      case 0x10 => dst := (dst - src) % M32;
      case 0x20 => dst := dst * src % M32;
      case 0x30 => dst := Divide(dst, src, i.off != 0, M32);
      case 0x40 => dst := BitOr(dst, src);
      case 0x50 => dst := BitAnd(dst, src);
      case 0x60 => dst := ShiftLeft(dst, src % 32, M32);
      case 0x70 => dst := ShiftRight(dst, src % 32);
      case 0x80 =>
        SignedNegation(dst);
        dst := -Signed(dst, M32) % M32;
      case 0x90 => dst := Modulo(dst, src, i.off != 0, M32);
      case 0xa0 => dst := BitXor(dst, src);
      case 0xb0 =>
        if i.off == 0 {
          dst := src;
        } else if i.off == 8 {
          dst := Extend(src, 0x100, M32);
        } else if i.off == 16 {
          dst := Extend(src, 0x1_0000, M32);
        }
      case 0xc0 => dst := ShiftRightSigned(dst, src % 32, M32);
      case 0xd0 =>
        ok, dst := SwapEndian(i, d, dst);
      case _ =>
    }
  }

  /** The interpreter's register file and its arithmetic steps. */
  class Interpreter {
    var reg: Registers

    /** `vm::alu64`. r10 is never a destination. */
    method Alu64(i: Insn) returns (ok: bool)
      requires ValidInsn(i)
      modifies this
      ensures Computed(old(reg), i, true, ok, reg)
    {
      hide AluResult;
      if i.dst >= 10 { return false; }
      var src: Word := if i.isX then reg[i.src] else i.imm % M64;
      AluResultFits(i, true, reg[i.dst], src);
      var dst: nat;
      ok, dst := Switch64(i, reg[i.dst], src);
      if ok { reg := reg[i.dst := dst]; }
    }

    /** `vm::alu`: computes on the low halves and clears the high half of the destination. */
    method Alu32(i: Insn) returns (ok: bool)
      requires ValidInsn(i)
      modifies this
      ensures Computed(old(reg), i, false, ok, reg)
    {
      hide AluResult;
      if i.dst >= 10 { return false; }
      var src: Word := (if i.isX then reg[i.src] else i.imm) % M32;
      AluResultFits(i, false, reg[i.dst], src);
      var dst: nat;
      ok, dst := Switch32(i, reg[i.dst], src);
      if ok { reg := reg[i.dst := dst]; }
    }
  }

  // ---------------------------------------------------------------------------
  // Conditional jumps
  // ---------------------------------------------------------------------------

  const JEQ: nat := 0x10
  const JGT: nat := 0x20
  const JGE: nat := 0x30
  const JSET: nat := 0x40
  const JNE: nat := 0x50
  const JSGT: nat := 0x60
  const JSGE: nat := 0x70
  const JLT: nat := 0xa0
  const JLE: nat := 0xb0
  const JSLT: nat := 0xc0
  const JSLE: nat := 0xd0

  predicate IsCompare(op: nat)
  {
    op == JEQ || op == JGT || op == JGE || op == JSET || op == JNE || op == JSGT || op == JSGE ||
    op == JLT || op == JLE || op == JSLT || op == JSLE
  }

  /** Whether `vm::jmp` / `vm::jmp32` takes the branch. */
  predicate Taken(op: nat, x: nat, s: nat, m: nat)
  {
    var a, b := Signed(x, m), Signed(s, m);
    if op == JEQ then x == s
    else if op == JGT then x > s
    else if op == JGE then x >= s
    else if op == JSET then BitAnd(x, s) != 0
    else if op == JNE then x != s
    else if op == JSGT then a > b
    else if op == JSGE then a >= b
    else if op == JLT then x < s
    else if op == JLE then x <= s
    else if op == JSLT then a < b
    else op == JSLE && a <= b
  }
}
