/**
 * The arithmetic and compare-and-branch part of `AArch64Emitter`: the methods
 * that append to the code buffer, the meaning of the conditional branches
 * they emit, and the patching of branch displacements.
 */
module Emitter {
  import opened Leb128
  import opened Words
  import opened BpfAlu
  import opened Arm
  import opened AluEmitter

  // ---------------------------------------------------------------------------
  // Compare and branch
  // ---------------------------------------------------------------------------

  /** The condition the emitter selects for a BPF comparison. */
  function CondOf(op: nat): Cond
    requires IsCompare(op)
  {
    if op == JEQ then EQ
    else if op == JNE || op == JSET then NE
    else if op == JGT then HI
    else if op == JGE then CS
    else if op == JLT then CC
    else if op == JLE then LS
    else if op == JSGT then GT
    else if op == JSGE then GE
    else if op == JSLT then LT
    else LE
  }

  function CmpImm(n: nat, imm: int, is64: bool): seq<Instr>
  {
    if 0 <= imm <= 4095 then [CmpI(n, imm, is64)]
    else MovImm(X2, imm % M64, is64) + [Cmp(n, X2, is64)]
  }

  /** What `jmp_load_operands` appends: the destination in X0, then the flags. */
  function CompareCode(i: Insn, is64: bool): seq<Instr>
    requires ValidInsn(i)
  {
    LoadBpf(i.dst, X0) +
    if i.isX then LoadBpf(i.src, X1) + [if i.op == JSET then Tst(X0, X1, is64) else Cmp(X0, X1, is64)]
    else if i.op == JSET then MovImm(X1, i.imm % M32, is64) + [Tst(X0, X1, is64)]
    else CmpImm(X0, i.imm, is64)
  }

  /** The second operand the emitted comparison uses. */
  function EmittedOperand(r: Registers, i: Insn, is64: bool): (s: nat)
    requires ValidInsn(i)
    ensures s < Size(is64)
  {
    if i.op == JSET && !i.isX then i.imm % M32 else Operand(r, i, is64)
  }

  /** `code` compares (or tests) `a` against `b` and touches only X0, X1, X2 and the flags. */
  ghost predicate SetsFlags(code: seq<Instr>, st: State, test: bool, a: nat, b: nat, is64: bool)
  {
    AllWellFormed(code) &&
    var t := Run(code, st);
    (forall q :: 3 <= q < 31 ==> t.x[q] == st.x[q]) &&
    (if test then t.z == (BitAnd(a, b) == 0)
     else var f := Compare(t, a, b, Size(is64)); f.n == t.n && f.z == t.z && f.c == t.c && f.v == t.v)
  }

  /** A comparison at the end of code that only loaded scratch registers. */
  lemma ThenFlags(pre: seq<Instr>, i: Instr, st: State, a: nat, b: nat, is64: bool)
    requires AllWellFormed(pre) && WellFormed(i)
    requires var t := Run(pre, st);
             (forall q :: 3 <= q < 31 ==> t.x[q] == st.x[q]) &&
             ((i.Cmp? && i.is64 == is64 && Read(t, i.n, is64) == a && Read(t, i.m, is64) == b) ||
              (i.CmpI? && i.is64 == is64 && Read(t, i.n, is64) == a && i.imm == b) ||
              (i.Tst? && i.is64 == is64 && Read(t, i.n, is64) == a && Read(t, i.m, is64) == b))
    ensures SetsFlags(pre + [i], st, i.Tst?, a, b, is64)
  {
    hide Run, BitAnd, Read;
    var t := Run(pre, st);
    RunOne(i, t);
    RunAppend(pre, [i], st);
  }

  lemma CompareCodeFlags(i: Insn, is64: bool, st: State)
    requires ValidInsn(i)
    ensures SetsFlags(CompareCode(i, is64), st, i.op == JSET, st.x[RegMap(i.dst)] % Size(is64),
                      EmittedOperand(BpfRegs(st), i, is64), is64)
  {
    hide Run, WellFormed, SetsFlags, LoadBpf, MovImm, Read, BpfRegs;
    var d, m := st.x[RegMap(i.dst)], Size(is64);
    var s := EmittedOperand(BpfRegs(st), i, is64);
    if i.isX {
      var pre := LoadBpf(i.dst, X0) + LoadBpf(i.src, X1);
      OperandsLoaded(i, st);
      BpfRegAt(st, i.src);
      var t := Run(pre, st);
      ReadLow(t, X0, is64);
      ReadLow(t, X1, is64);
      var c := if i.op == JSET then Tst(X0, X1, is64) else Cmp(X0, X1, is64);
      WellFormedCompare(0, is64);
      ThenFlags(pre, c, st, d % m, s, is64);
      assert CompareCode(i, is64) == pre + [c];
    } else if i.op == JSET {
      ImmediateFlags(i, X1, i.imm % M32, Tst(X0, X1, is64), is64, st);
    } else if 0 <= i.imm <= 4095 {
      LoadRuns(i.dst, X0, st);
      ReadLow(Run(LoadBpf(i.dst, X0), st), X0, is64);
      WellFormedCompare(i.imm, is64);
      ThenFlags(LoadBpf(i.dst, X0), CmpI(X0, i.imm, is64), st, d % m, s, is64);
    } else {
      Mod64(i.imm, is64);
      ImmediateFlags(i, X2, i.imm % M64, Cmp(X0, X2, is64), is64, st);
    }
  }

  lemma WellFormedCompare(imm: nat, is64: bool)
    requires imm <= 4095
    ensures WellFormed(Tst(X0, X1, is64)) && WellFormed(Cmp(X0, X1, is64)) && WellFormed(Cmp(X0, X2, is64))
    ensures WellFormed(CmpI(X0, imm, is64))
  {
  }

  lemma ImmediateFlags(i: Insn, r: nat, v: nat, c: Instr, is64: bool, st: State)
    requires ValidInsn(i) && (r == X1 || r == X2) && (c == Tst(X0, r, is64) || c == Cmp(X0, r, is64))
    ensures SetsFlags(LoadBpf(i.dst, X0) + (MovImm(r, v, is64) + [c]), st, c.Tst?,
                      st.x[RegMap(i.dst)] % Size(is64), v % Size(is64), is64)
  {
    hide Run, SetsFlags, LoadBpf, MovImm, Read, Step, BitAnd;
    var pre, mov := LoadBpf(i.dst, X0), MovImm(r, v, is64);
    LoadRuns(i.dst, X0, st);
    MovImmSets(r, v, is64, Run(pre, st));
    RunAppend(pre, mov, st);
    var t := Run(pre + mov, st);
    ReadLow(t, X0, is64);
    ReadLow(t, r, is64);
    ThenFlags(pre + mov, c, st, st.x[RegMap(i.dst)] % Size(is64), v % Size(is64), is64);
    assert pre + mov + [c] == pre + (mov + [c]);
  }

  /** The branch is taken exactly when the comparison holds of the emitted operand. */
  lemma FlagsMean(op: nat, t: State, a: nat, b: nat, is64: bool)
    requires IsCompare(op) && a < Size(is64) && b < Size(is64)
    requires op == JSET ==> t.z == (BitAnd(a, b) == 0)
    requires op != JSET ==>
      var f := Compare(t, a, b, Size(is64)); f.n == t.n && f.z == t.z && f.c == t.c && f.v == t.v
    ensures Holds(CondOf(op), t) == Taken(op, a, b, Size(is64))
  {
    hide BitAnd;
    if op != JSET {
      CompareMeans(t, a, b, is64);
    }
  }

  /** One 64-bit JSET form zero-extends its immediate where the interpreter sign-extends. */
  predicate WrongExtension(i: Insn, is64: bool)
  {
    is64 && i.op == JSET && !i.isX && i.imm < 0
  }

  /** The emitted branch goes the interpreter's way and leaves the BPF registers alone. */
  ghost predicate BranchAgrees(i: Insn, is64: bool, st: State)
    requires ValidInsn(i) && IsCompare(i.op)
  {
    var code := CompareCode(i, is64);
    AllWellFormed(code) &&
    BpfRegs(Run(code, st)) == BpfRegs(st) &&
    Holds(CondOf(i.op), Run(code, st)) ==
      Taken(i.op, BpfRegs(st)[i.dst] % Size(is64), Operand(BpfRegs(st), i, is64), Size(is64))
  }

  lemma BranchFollowsEmittedOperand(i: Insn, is64: bool, st: State)
    requires ValidInsn(i) && IsCompare(i.op)
    ensures var code := CompareCode(i, is64);
            AllWellFormed(code) && BpfRegs(Run(code, st)) == BpfRegs(st) &&
            Holds(CondOf(i.op), Run(code, st)) ==
              Taken(i.op, BpfRegs(st)[i.dst] % Size(is64), EmittedOperand(BpfRegs(st), i, is64), Size(is64))
  {
    hide Run, WellFormed, CompareCode, Compare, Taken, BitAnd, CondOf, Holds;
    CompareCodeFlags(i, is64, st);
    BpfRegAt(st, i.dst);
    FlagsMean(i.op, Run(CompareCode(i, is64), st), st.x[RegMap(i.dst)] % Size(is64),
              EmittedOperand(BpfRegs(st), i, is64), is64);
  }

  /** The top bit meets a word exactly when the word has it. */
  lemma {:induction false} BitAndTop(n: nat, s: nat)
    requires s < Pow2(n + 1)
    ensures (BitAnd(Pow2(n), s) != 0) == (s >= Pow2(n))
  {
    if n > 0 {
      BitAndTop(n - 1, s / 2);
      assert Pow2(n) % 2 == 0 && Pow2(n) / 2 == Pow2(n - 1);
    }
  }

  /**
   * Compare-and-branch agrees with the interpreter in every state exactly when
   * the instruction is not the 64-bit JSET with a negative immediate.
   */
  lemma BranchAgreesIff(i: Insn, is64: bool)
    requires ValidInsn(i) && IsCompare(i.op)
    ensures (forall st :: BranchAgrees(i, is64, st)) <==> !WrongExtension(i, is64)
  {
    hide BranchAgrees;
    if WrongExtension(i, is64) {
      BranchDisagrees(i);
    } else {
      forall st
        ensures BranchAgrees(i, is64, st)
      {
        BranchSame(i, is64, st);
      }
    }
  }

  lemma BranchSame(i: Insn, is64: bool, st: State)
    requires ValidInsn(i) && IsCompare(i.op) && !WrongExtension(i, is64)
    ensures BranchAgrees(i, is64, st)
  {
    hide Run, WellFormed, CompareCode, Taken, CondOf, Holds;
    BranchFollowsEmittedOperand(i, is64, st);
  }

  lemma BranchDisagrees(i: Insn)
    requires ValidInsn(i) && WrongExtension(i, true)
    ensures exists st :: !BranchAgrees(i, true, st)
  {
    hide Run, WellFormed, CompareCode, BitAnd, Pow2;
    var top := 0x8000_0000_0000_0000;
    var st := State(seq(31, _ => top), false, false, false, false);
    BranchFollowsEmittedOperand(i, true, st);
    BpfRegAt(st, i.dst);
    TopBit();
    BitAndTop(63, i.imm % M64);
    BitAndTop(63, i.imm % M32);
    assert !BranchAgrees(i, true, st);
  }

  lemma TopBit()
    ensures Pow2(63) == 0x8000_0000_0000_0000 && Pow2(64) == M64
  {
    Pow2Constants();
    assert Pow2(64) == 2 * Pow2(63);
  }

  // ---------------------------------------------------------------------------
  // Branch instructions
  // ---------------------------------------------------------------------------

  /** The four-bit code of a condition. */
  function CondNumber(c: Cond): nat
  {
    match c
    case EQ => 0 case NE => 1 case CS => 2 case CC => 3 case MI => 4 case PL => 5 case VS => 6
    case VC => 7 case HI => 8 case LS => 9 case GE => 10 case LT => 11 case GT => 12 case LE => 13
  }

  /** Flipping the lowest bit of the code. */
  function FlipLow(n: nat): nat
  {
    if n % 2 == 0 then n + 1 else n - 1
  }

  /** The condition with the code `n`. */
  function CondFrom(n: nat): (c: Cond)
    requires n < 14
    ensures CondNumber(c) == n
  {
    if n == 0 then EQ else if n == 1 then NE else if n == 2 then CS else if n == 3 then CC
    else if n == 4 then MI else if n == 5 then PL else if n == 6 then VS else if n == 7 then VC
    else if n == 8 then HI else if n == 9 then LS else if n == 10 then GE else if n == 11 then LT
    else if n == 12 then GT else LE
  }

  /** `cond ^ 1`. */
  function Flipped(c: Cond): Cond
  {
    CondFrom(FlipLow(CondNumber(c)))
  }

  /** It is the opposite condition, for every condition and every state. */
  lemma FlippedConditionIsOpposite(c: Cond, st: State)
    ensures Holds(Flipped(c), st) == !Holds(c, st)
  {
  }

  /** A 32-bit branch word with its displacement in `bits` bits above the lowest `low` values. */
  function Patched(insn: nat, rel: int, low: nat, span: nat): nat
    requires low > 0 && span > 0
  {
    insn / (low * span) * (low * span) + rel % span * low + insn % low
  }

  /** The displacement the processor takes from the word: the field, sign-extended. */
  function Displacement(insn: nat, low: nat, span: nat): int
    requires low > 0 && span > 0
  {
    Signed(insn / low % span, span)
  }

  // B.cond, CBZ and CBNZ hold 19 bits of displacement above the low 5 bits, B holds 26 at the bottom.
  const COND_LOW: nat := 32
  const COND_SPAN: nat := 0x8_0000
  const FAR_LOW: nat := 1
  const FAR_SPAN: nat := 0x400_0000

  lemma PatchedFields(insn: nat, rel: int, low: nat, span: nat)
    requires low > 0 && span > 0
    ensures var p := Patched(insn, rel, low, span);
            p % low == insn % low && p / low % span == rel % span && p / low / span == insn / (low * span)
  {
    var h, f, l := insn / (low * span), rel % span, insn % low;
    var p := Patched(insn, rel, low, span);
    assert h * (low * span) == low * (span * h);
    assert low * (span * h + f) == low * (span * h) + f * low;
    ModUnique(p, low, span * h + f, l);
    ModUnique(span * h + f, span, h, f);
  }

  /**
   * Patching writes the displacement that decodes back to the target exactly
   * when the target is a whole number of instructions away and in range; the
   * other bits of the instruction survive.
   */
  lemma PatchReaches(insn: nat, off: nat, target: nat, low: nat, span: nat)
    requires low > 0 && span > 0 && span % 2 == 0
    ensures var rel := TruncDiv(target - off, 4);
            var p := Patched(insn, rel, low, span);
            p % low == insn % low && p / low / span == insn / (low * span) &&
            (off + 4 * Displacement(p, low, span) == target <==>
             (target - off) % 4 == 0 && -(span / 2) <= (target - off) / 4 < span / 2)
  {
    hide Patched;
    var rel := TruncDiv(target - off, 4);
    var p := Patched(insn, rel, low, span);
    PatchedFields(insn, rel, low, span);
    var f := rel % span;
    if (target - off) % 4 == 0 {
      assert rel == (target - off) / 4 && 4 * rel == target - off;
      if 0 <= rel < span / 2 {
        ModUnique(rel, span, 0, rel);
      } else if -(span / 2) <= rel < 0 {
        ModUnique(rel, span, -1, rel + span);
      }
    }
  }

  /** `patch_branch_cond` lands within 1 MiB and `patch_branch_uncond` within 128 MiB, and nowhere else. */
  lemma PatchedBranchesLand(insn: nat, off: nat, target: nat)
    ensures var p := Patched(insn, TruncDiv(target - off, 4), COND_LOW, COND_SPAN);
            p % 32 == insn % 32 && p / 0x100_0000 == insn / 0x100_0000 &&
            (off + 4 * Displacement(p, COND_LOW, COND_SPAN) == target <==>
             (target - off) % 4 == 0 && -0x10_0000 <= target - off < 0x10_0000)
    ensures var p := Patched(insn, TruncDiv(target - off, 4), FAR_LOW, FAR_SPAN);
            p / 0x400_0000 == insn / 0x400_0000 &&
            (off + 4 * Displacement(p, FAR_LOW, FAR_SPAN) == target <==>
             (target - off) % 4 == 0 && -0x800_0000 <= target - off < 0x800_0000)
  {
    hide Patched, Displacement, TruncDiv;
    PatchReaches(insn, off, target, COND_LOW, COND_SPAN);
    PatchReaches(insn, off, target, FAR_LOW, FAR_SPAN);
    var p := Patched(insn, TruncDiv(target - off, 4), COND_LOW, COND_SPAN);
    assert p / 32 / 0x8_0000 == p / 0x100_0000;
    assert COND_LOW * COND_SPAN == 0x100_0000;
  }

  // ---------------------------------------------------------------------------
  // The emitter object
  // ---------------------------------------------------------------------------

  class CodeBuffer {
    var code: seq<Instr>

    constructor ()
      ensures code == []
    {
      code := [];
    }

    /** `mov_imm`: counts the half-words both ways, then emits the cheaper sequence. */
    method EmitMovImm(d: nat, v: nat, is64: bool)
      modifies this
      ensures code == old(code) + MovImm(d, v, is64)
    {
      var n := Halves(is64);
      var nonZero, nonFull := 0, 0;
      for i := 0 to n
        invariant nonZero == CountNot(v, 0, i) && nonFull == CountNot(v, 0xFFFF, i)
        invariant code == old(code)
      {
        if Chunk(v, i) != 0 { nonZero := nonZero + 1; }
        if Chunk(v, i) != 0xFFFF { nonFull := nonFull + 1; }
      }
      EmitChunks(d, v, nonFull < nonZero, is64);
    }

    method EmitChunks(d: nat, v: nat, inverted: bool, is64: bool)
      modifies this
      ensures code == old(code) + MoveChunks(d, v, inverted, is64, 0, true)
    {
      hide MoveChunks, Chunk, FirstMove;
      var skip := if inverted then 0xFFFF else 0;
      var first := true;
      ghost var all := old(code) + MoveChunks(d, v, inverted, is64, 0, true);
      for i := 0 to Halves(is64)
        invariant code + MoveChunks(d, v, inverted, is64, i, first) == all
      {
        var c := Chunk(v, i);
        MoveChunksNext(d, v, inverted, is64, i, first);
        if c != skip {
          var head := if first then FirstMove(d, c, i, inverted, is64) else MovK(d, c, i, is64);
          ghost var tail := MoveChunks(d, v, inverted, is64, i + 1, false);
          assert code + ([head] + tail) == (code + [head]) + tail;
          code := code + [head];
          first := false;
        }
      }
      MoveChunksNext(d, v, inverted, is64, Halves(is64), first);
      if first {
        code := code + [FirstMove(d, skip, 0, inverted, is64)];
      }
    }

    method EmitAddImm(d: nat, n: nat, imm: int, is64: bool)
      modifies this
      ensures code == old(code) + AddImm(d, n, imm, is64)
    {
      if 0 <= imm <= 4095 {
        code := code + [AddI(d, n, imm, is64)];
      } else if -4095 <= imm < 0 {
        code := code + [SubI(d, n, -imm, is64)];
      } else {
        EmitMovImm(X2, imm % M64, is64);
        code := code + [Add(d, n, X2, is64)];
      }
    }

    method EmitSubImm(d: nat, n: nat, imm: int, is64: bool)
      modifies this
      ensures code == old(code) + SubImm(d, n, imm, is64)
    {
      if -4095 <= imm <= 4095 {
        EmitAddImm(d, n, -imm, is64);
      } else {
        EmitMovImm(X2, imm % M64, is64);
        code := code + [Sub(d, n, X2, is64)];
      }
    }

    method EmitExtend(i: Insn, is64: bool) returns (ok: bool)
      requires ValidInsn(i)
      modifies this
      ensures ok == ExtendOp(i, is64).Code?
      ensures ok ==> code == old(code) + ((if i.isX then LoadBpf(i.src, X0) else MovImm(X0, i.imm % M64, true)) +
                                          ExtendOp(i, is64).code)
    {
      if i.isX { code := code + LoadBpf(i.src, X0); } else { EmitMovImm(X0, i.imm % M64, true); }
      var e := ExtendOp(i, is64);
      ok := e.Code?;
      if ok { code := code + e.code; }
    }

    method EmitSwap(i: Insn, is64: bool) returns (ok: bool)
      requires ValidInsn(i)
      modifies this
      ensures ok == SwapOp(i, is64).Code?
      ensures ok ==> code == old(code) + (LoadBpf(i.dst, X0) + SwapOp(i, is64).code)
    {
      hide MovImm, LoadBpf;
      code := code + LoadBpf(i.dst, X0);
      ok := true;
      if (is64 || i.isX) && i.imm == 16 {
        code := code + [Rev16(X0, X0, is64)];
        EmitMovImm(X2, 0xFFFF, true);
        code := code + [And(X0, X0, X2, true)];
      } else if !is64 && !i.isX && i.imm == 16 {
        EmitMovImm(X2, 0xFFFF, true);
        code := code + [And(X0, X0, X2, true)];
      } else if i.imm == 32 {
        code := code + [if is64 || i.isX then Rev32(X0, X0) else Orr(X0, ZR, X0, false)];
      } else if i.imm == 64 && is64 {
        code := code + [Rev64(X0, X0)];
      } else {
        ok := false;
      }
    }

    /** The immediate forms of the arithmetic switch, after the destination was loaded. */
    method EmitImmediate(i: Insn, is64: bool) returns (ok: bool)
      requires ValidInsn(i)
      modifies this
      ensures ok == ImmediateOp(i, is64).Code?
      ensures ok ==> code == old(code) + ImmediateOp(i, is64).code
    {
      hide MovImm, AddImm, SubImm;
      ok := true;
      if i.op == ADD {
        EmitAddImm(X0, X0, i.imm, is64);
      } else if i.op == SUB {
        EmitSubImm(X0, X0, i.imm, is64);
      } else if i.op == OR || i.op == AND || i.op == XOR {
        EmitMovImm(X2, i.imm % M64, is64);
        code := code + [if i.op == OR then Orr(X0, X0, X2, is64)
                        else if i.op == AND then And(X0, X0, X2, is64)
                        else Eor(X0, X0, X2, is64)];
      } else if i.op == LSH || i.op == RSH || i.op == ARSH {
        var c := i.imm % Bits(is64);
        code := code + [if i.op == LSH then LslImm(X0, X0, c, is64)
                        else if i.op == RSH then LsrImm(X0, X0, c, is64)
                        else AsrImm(X0, X0, c, is64)];
      } else if i.op == MUL || i.op == DIV || i.op == MOD {
        EmitMovImm(X1, i.imm % M64, is64);
        code := code + RegisterOp(i, is64).code;
      } else {
        ok := false;
      }
    }

    /** `emit_alu`. */
    method EmitAlu(i: Insn, is64: bool) returns (ok: bool)
      requires ValidInsn(i)
      modifies this
      ensures ok == AluCode(i, is64).Code?
      ensures ok ==> code == old(code) + AluCode(i, is64).code
    {
      hide Compute, MoveCode, ClearHigh, LoadBpf, StoreBpf;
      ok := true;
      if i.op == MOV && i.off == 0 {
        EmitMove(i, is64);
      } else if i.op == END && !is64 && !i.isX && i.imm == 64 {
        return;
      } else if i.op != NEG && i.op != MOV && i.op != END && IsNoOp(i) {
        if i.op == MOD { code := code + LoadBpf(i.dst, X0); }
        code := code + ClearHigh(i.dst, is64);
      } else {
        ok := EmitCompute(i, is64);
        if ok { code := code + StoreBpf(i.dst, X0, is64); }
      }
    }

    method EmitMove(i: Insn, is64: bool)
      requires ValidInsn(i)
      modifies this
      ensures code == old(code) + MoveCode(i, is64)
    {
      hide MovImm;
      var d := RegMap(i.dst);
      if i.isX {
        if !(is64 && i.dst == i.src) { code := code + [Orr(d, ZR, RegMap(i.src), is64)]; }
      } else if is64 {
        EmitMovImm(X0, i.imm % M64, true);
        code := code + [Orr(d, ZR, X0, true)];
      } else {
        EmitMovImm(d, i.imm % M32, false);
      }
    }

    /** The part of the switch that leaves its result in X0. */
    method EmitCompute(i: Insn, is64: bool) returns (ok: bool)
      requires ValidInsn(i)
      modifies this
      ensures ok == Compute(i, is64).Code?
      ensures ok ==> code == old(code) + Compute(i, is64).code
    {
      hide MovImm, ImmediateOp, SwapOp, ExtendOp, RegisterOp, LoadBpf;
      ok := true;
      if i.op == NEG {
        code := code + LoadBpf(i.dst, X0) + [Sub(X0, ZR, X0, is64)];
      } else if i.op == MOV {
        ok := EmitExtend(i, is64);
      } else if i.op == END {
        ok := EmitSwap(i, is64);
      } else {
        code := code + LoadBpf(i.dst, X0);
        if i.isX {
          var e := RegisterOp(i, is64);
          ok := e.Code?;
          if ok { code := code + LoadBpf(i.src, X1) + e.code; }
        } else if i.op == DIV && i.imm == 0 {
          EmitMovImm(X0, 0, is64);
        } else {
          ok := EmitImmediate(i, is64);
        }
      }
    }

    /** `jmp_load_operands`: sets the flags and says which condition takes the branch. */
    method EmitCompare(i: Insn, is64: bool) returns (ok: bool, cc: Cond)
      requires ValidInsn(i)
      modifies this
      ensures ok == IsCompare(i.op)
      ensures ok ==> cc == CondOf(i.op) && code == old(code) + CompareCode(i, is64)
      ensures !ok ==> code == old(code)
    {
      hide MovImm;
      ok := IsCompare(i.op);
      cc := EQ;
      if !ok { return; }
      cc := CondOf(i.op);
      code := code + LoadBpf(i.dst, X0);
      if i.isX {
        code := code + LoadBpf(i.src, X1);
        code := code + [if i.op == JSET then Tst(X0, X1, is64) else Cmp(X0, X1, is64)];
      } else if i.op == JSET {
        EmitMovImm(X1, i.imm % M32, is64);
        code := code + [Tst(X0, X1, is64)];
      } else if 0 <= i.imm <= 4095 {
        code := code + [CmpI(X0, i.imm, is64)];
      } else {
        EmitMovImm(X2, i.imm % M64, is64);
        code := code + [Cmp(X0, X2, is64)];
      }
    }
  }
}
