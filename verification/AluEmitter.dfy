/**
 * `AArch64Emitter::emit_alu`: the code it appends for a BPF arithmetic
 * instruction, and the proof that this code does what the interpreter does.
 */
module AluEmitter {
  import opened Leb128
  import opened Words
  import opened BpfAlu
  import opened Arm

  const X0: nat := 0
  const X1: nat := 1
  const X2: nat := 2
  const ZR: nat := 31

  /** Where a BPF register lives: r0..r5 in X9..X14, r6..r10 in X19..X23. */
  function RegMap(r: nat): (x: nat)
    requires r <= 10
    ensures 9 <= x <= 23
  {
    if r <= 5 then 9 + r else 13 + r
  }

  function BpfRegs(st: State): Registers
  {
    [st.x[9], st.x[10], st.x[11], st.x[12], st.x[13], st.x[14], st.x[19], st.x[20], st.x[21], st.x[22], st.x[23]]
  }

  // ---------------------------------------------------------------------------
  // mov_imm: MOVZ/MOVN for the first interesting half-word, MOVK for the others
  // ---------------------------------------------------------------------------

  function Halves(is64: bool): nat
  {
    if is64 then 4 else 2
  }

  /** Half-words of `v` below `n` that differ from `skip`. */
  function CountNot(v: nat, skip: nat, n: nat): nat
  {
    if n == 0 then 0 else CountNot(v, skip, n - 1) + (if Chunk(v, n - 1) != skip then 1 else 0)
  }

  function FirstMove(d: nat, c: nat, hw: nat, inverted: bool, is64: bool): Instr
    requires c < 0x1_0000
  {
    if inverted then MovN(d, 0xFFFF - c, hw, is64) else MovZ(d, c, hw, is64)
  }

  /** Code for the half-words from `i` on; `first` until something was emitted. */
  function MoveChunks(d: nat, v: nat, inverted: bool, is64: bool, i: nat, first: bool): (r: seq<Instr>)
    requires i <= Halves(is64)
    decreases Halves(is64) - i
  {
    var skip := if inverted then 0xFFFF else 0;
    if i == Halves(is64) then
      if first then [FirstMove(d, skip, 0, inverted, is64)] else []
    else
      var c := Chunk(v, i);
      if c == skip then MoveChunks(d, v, inverted, is64, i + 1, first)
      else
        [if first then FirstMove(d, c, i, inverted, is64) else MovK(d, c, i, is64)] +
        MoveChunks(d, v, inverted, is64, i + 1, false)
  }

  function MovImm(d: nat, v: nat, is64: bool): seq<Instr>
  {
    var n := Halves(is64);
    MoveChunks(d, v, CountNot(v, 0xFFFF, n) < CountNot(v, 0, n), is64, 0, true)
  }

  /** 65536 to the power of `i`. */
  function Weight(i: nat): nat
  {
    if i == 4 then M64 else P16(i)
  }

  lemma ModSplit(x: nat, a: nat, b: nat)
    requires a >= 1 && b >= 1
    ensures x % (a * b) == x % a + a * (x / a % b)
  {
    var q, r := x / a / b, x / a % b;
    assert x == a * (x / a) + x % a;
    MulSplit(a, b, q, r);
    assert a * r + x % a < a * b by { MulLe(r, b - 1, a); }
    ModUnique(x, a * b, q, a * r + x % a);
  }

  lemma MulSplit(a: int, b: int, q: int, r: int)
    ensures a * (b * q + r) == a * b * q + a * r
  {
  }

  lemma LowStep(v: nat, i: nat)
    requires i < 4
    ensures v % Weight(i + 1) == v % Weight(i) + Chunk(v, i) * P16(i)
  {
    ModSplit(v, P16(i), 0x1_0000);
  }

  /** What the register holds once the half-words below `i` are right. */
  function Partial(v: nat, inverted: bool, is64: bool, i: nat): int
    requires i <= Halves(is64)
  {
    v % Weight(i) + (if inverted then Size(is64) - Weight(i) else 0)
  }

  lemma PartialChunk(v: nat, inverted: bool, is64: bool, i: nat)
    requires i < Halves(is64)
    ensures 0 <= Partial(v, inverted, is64, i) < Size(is64)
    ensures Chunk(Partial(v, inverted, is64, i), i) == if inverted then 0xFFFF else 0
  {
    var x, p := Partial(v, inverted, is64, i), P16(i);
    var low := v % p;
    if inverted {
      var q := Size(is64) / p;
      assert x == p * (q - 1) + low;
      ModUnique(x, p, q - 1, low);
    } else {
      ModUnique(x, p, 0, low);
    }
  }

  /** One MOVZ, MOVN or MOVK makes half-word `i` right. */
  lemma ChunkStep(d: nat, v: nat, inverted: bool, is64: bool, i: nat, first: bool, st: State)
    requires d < 31 && i < Halves(is64)
    requires Partial(v, inverted, is64, i) == if first then (if inverted then Size(is64) - 1 else 0) else st.x[d]
    ensures var c := Chunk(v, i);
            var head := if first then FirstMove(d, c, i, inverted, is64) else MovK(d, c, i, is64);
            0 <= Partial(v, inverted, is64, i + 1) < Size(is64) && WellFormed(head) &&
            Step(head, st) == Put(st, d, Partial(v, inverted, is64, i + 1))
  {
    hide Chunk, Partial, P16, Run, Step, Value, Put;
    var c := Chunk(v, i);
    var head := if first then FirstMove(d, c, i, inverted, is64) else MovK(d, c, i, is64);
    PartialNext(v, inverted, is64, i);
    if first {
      FirstValue(d, v, inverted, is64, i, st);
    } else {
      PartialChunk(v, inverted, is64, i);
      ReadSmall(st, d, is64, Partial(v, inverted, is64, i));
      MovValues(d, c, i, is64, st);
    }
    StepPut(head, st);
  }

  lemma FirstValue(d: nat, v: nat, inverted: bool, is64: bool, i: nat, st: State)
    requires d < 31 && i < Halves(is64)
    requires Partial(v, inverted, is64, i) == if inverted then Size(is64) - 1 else 0
    ensures var head := FirstMove(d, Chunk(v, i), i, inverted, is64);
            WellFormed(head) && Value(head, st) == Partial(v, inverted, is64, i + 1)
  {
    hide Chunk, Partial, P16, Value;
    var c, p := Chunk(v, i), P16(i);
    PartialNext(v, inverted, is64, i);
    if inverted {
      MovValues(d, 0xFFFF - c, i, is64, st);
      assert (0xFFFF - c) * p == 0xFFFF * p - c * p;
    } else {
      MovValues(d, c, i, is64, st);
    }
  }

  lemma PartialNext(v: nat, inverted: bool, is64: bool, i: nat)
    requires i < Halves(is64)
    ensures Partial(v, inverted, is64, i + 1) ==
            Partial(v, inverted, is64, i) - (if inverted then 0xFFFF * P16(i) else 0) + Chunk(v, i) * P16(i)
    ensures 0 <= Partial(v, inverted, is64, i + 1) < Size(is64)
  {
    hide Chunk;
    LowStep(v, i);
    assert Weight(i + 1) == 0x1_0000 * P16(i);
  }

  lemma {:induction false} MoveChunksSet(d: nat, v: nat, inverted: bool, is64: bool, i: nat, first: bool, st: State)
    requires d < 31 && i <= Halves(is64)
    requires Partial(v, inverted, is64, i) == if first then (if inverted then Size(is64) - 1 else 0) else st.x[d]
    ensures var code := MoveChunks(d, v, inverted, is64, i, first);
            AllWellFormed(code) && Run(code, st) == Put(st, d, v % Size(is64))
    decreases Halves(is64) - i
  {
    hide Step, Chunk, WellFormed, Run, MoveChunks, Size, Partial, P16, FirstMove;
    MoveChunksNext(d, v, inverted, is64, i, first);
    var code := MoveChunks(d, v, inverted, is64, i, first);
    var skip := if inverted then 0xFFFF else 0;
    if i == Halves(is64) {
      PartialEnd(v, inverted, is64);
      if first {
        AllSkipped(d, inverted, is64, st);
        RunOne(code[0], st);
      } else {
        RunNone(st);
        assert st.x[d := st.x[d]] == st.x;
      }
    } else {
      var c := Chunk(v, i);
      if c == skip {
        PartialNext(v, inverted, is64, i);
        MoveChunksSet(d, v, inverted, is64, i + 1, first, st);
      } else {
        ChunkStep(d, v, inverted, is64, i, first, st);
        SizeFits(is64);
        var head := code[0];
        var next := Put(st, d, Partial(v, inverted, is64, i + 1));
        MoveChunksSet(d, v, inverted, is64, i + 1, false, next);
        var rest := MoveChunks(d, v, inverted, is64, i + 1, false);
        assert code == [head] + rest;
        RunOne(head, st);
        RunAppend([head], rest, st);
        assert next.x[d := v % Size(is64)] == st.x[d := v % Size(is64)];
      }
    }
  }

  lemma PartialEnd(v: nat, inverted: bool, is64: bool)
    ensures Partial(v, inverted, is64, Halves(is64)) == v % Size(is64)
  {
  }

  lemma SizeFits(is64: bool)
    ensures 0 < Size(is64) <= M64
  {
  }

  lemma MoveChunksNext(d: nat, v: nat, inverted: bool, is64: bool, i: nat, first: bool)
    requires i <= Halves(is64)
    ensures var skip, code := if inverted then 0xFFFF else 0, MoveChunks(d, v, inverted, is64, i, first);
            if i == Halves(is64) then code == (if first then [FirstMove(d, skip, 0, inverted, is64)] else [])
            else if Chunk(v, i) == skip then code == MoveChunks(d, v, inverted, is64, i + 1, first)
            else code == [if first then FirstMove(d, Chunk(v, i), i, inverted, is64) else MovK(d, Chunk(v, i), i, is64)] +
                         MoveChunks(d, v, inverted, is64, i + 1, false)
  {
    hide Chunk;
  }

  /** All half-words equal to the filler: one MOVZ #0 or MOVN #0. */
  lemma AllSkipped(d: nat, inverted: bool, is64: bool, st: State)
    requires d < 31
    ensures var i := FirstMove(d, if inverted then 0xFFFF else 0, 0, inverted, is64);
            WellFormed(i) && Step(i, st) == Put(st, d, if inverted then Size(is64) - 1 else 0)
  {
  }

  lemma RunNone(st: State)
    ensures Run([], st) == st
  {
  }

  /** Whatever mixture of MOVZ, MOVN and MOVK is chosen, the register gets the value. */
  lemma MovImmSets(d: nat, v: nat, is64: bool, st: State)
    requires d < 31
    ensures AllWellFormed(MovImm(d, v, is64)) && Run(MovImm(d, v, is64), st) == Put(st, d, v % Size(is64))
  {
    var n := Halves(is64);
    MoveChunksSet(d, v, CountNot(v, 0xFFFF, n) < CountNot(v, 0, n), is64, 0, true, st);
  }

  // ---------------------------------------------------------------------------
  // Shift and extension aliases of UBFM and SBFM
  // ---------------------------------------------------------------------------

  function LslImm(d: nat, n: nat, c: nat, is64: bool): Instr
    requires c < Bits(is64)
  {
    Ubfm(d, n, (Bits(is64) - c) % Bits(is64), Bits(is64) - 1 - c, is64)
  }

  function LsrImm(d: nat, n: nat, c: nat, is64: bool): Instr
  {
    Ubfm(d, n, c, Bits(is64) - 1, is64)
  }

  function AsrImm(d: nat, n: nat, c: nat, is64: bool): Instr
  {
    Sbfm(d, n, c, Bits(is64) - 1, is64)
  }

  lemma SizeIsPow2(is64: bool)
    ensures Pow2(Bits(is64)) == Size(is64)
  {
    Pow2Constants();
  }

  lemma LslField(x: nat, c: nat, is64: bool)
    requires x < Size(is64) && c < Bits(is64)
    ensures UnsignedField(x, (Bits(is64) - c) % Bits(is64), Bits(is64) - 1 - c, Bits(is64)) % Size(is64) ==
            ShiftLeft(x, c, Size(is64))
  {
    var b, m := Bits(is64), Size(is64);
    SizeIsPow2(is64);
    if c == 0 {
      assert Pow2(0) == 1;
      assert x / 1 == x;
    } else {
      var p, q := Pow2(b - c), Pow2(c);
      Pow2Add(b - c, c);
      ShiftUp(x, p, q);
    }
  }

  /** Dropping the high bits before or after the shift is the same. */
  lemma ShiftUp(x: nat, p: nat, q: nat)
    requires p >= 1 && q >= 1
    ensures x % p * q == x * q % (p * q) && x % p * q % (p * q) == x % p * q
  {
    var k, r := x / p, x % p;
    assert x * q == (p * k + r) * q == p * q * k + r * q;
    assert r * q < p * q by { assert r * q <= (p - 1) * q; }
    ModUnique(x * q, p * q, k, r * q);
    ModUnique(r * q, p * q, 0, r * q);
  }

  lemma LsrField(x: nat, c: nat, is64: bool)
    requires x < Size(is64) && c < Bits(is64)
    ensures UnsignedField(x, c, Bits(is64) - 1, Bits(is64)) % Size(is64) == ShiftRight(x, c)
  {
    var b := Bits(is64);
    SizeIsPow2(is64);
    Pow2Add(b - c, c);
    ShiftDown(x, Pow2(b - c), Pow2(c));
    QuotientBound(x, Pow2(c));
  }

  lemma ShiftDown(x: nat, p: nat, q: nat)
    requires p >= 1 && q >= 1 && x < p * q
    ensures x / q < p && x / q % p == x / q
  {
    var f := x / q;
    assert x == q * f + x % q;
    assert f >= p ==> q * f >= q * p;
  }

  lemma AsrField(x: nat, c: nat, is64: bool)
    requires x < Size(is64) && c < Bits(is64)
    ensures SignedField(x, c, Bits(is64) - 1, Size(is64)) == ShiftRightSigned(x, c, Size(is64))
  {
    var b, m := Bits(is64), Size(is64);
    var p, q := Pow2(b - c), Pow2(c);
    SizeIsPow2(is64);
    Pow2Add(b - c, c);
    ShiftDown(x, p, q);
    SignedShift(x, Pow2(b - c - 1), q, m);
  }

  lemma MulLe(a: int, b: int, q: nat)
    requires a <= b
    ensures a * q <= b * q
  {
  }

  /** Shifting `x` down by `q` moves its sign bit from `h * q` to `h`. */
  lemma SignedShift(x: nat, h: nat, q: nat, m: nat)
    requires h >= 1 && q >= 1 && m == 2 * (h * q) && x < m
    ensures Signed(x / q, 2 * h) == Signed(x, m) / q
  {
    var f, r := x / q, x % q;
    assert x == f * q + r;
    if f < h {
      MulLe(f + 1, h, q);
      assert (f + 1) * q == f * q + q;
    } else {
      MulLe(h, f, q);
      assert (f - 2 * h) * q == f * q - m;
      ModUnique(x - m, q, f - 2 * h, r);
    }
  }

  lemma ExtendField(x: nat, w: nat, is64: bool)
    requires x < Size(is64) && 0 < w < Bits(is64)
    ensures SignedField(x, 0, w - 1, Size(is64)) == Signed(x % Pow2(w), Pow2(w)) % Size(is64)
  {
    assert Pow2(0) == 1;
    assert x / 1 == x;
  }

  // ---------------------------------------------------------------------------
  // The code emit_alu appends
  // ---------------------------------------------------------------------------

  datatype Code = NoCode | Code(code: seq<Instr>)

  function LoadBpf(r: nat, d: nat): seq<Instr>
    requires r <= 10
  {
    if RegMap(r) != d then [Orr(d, ZR, RegMap(r), true)] else []
  }

  function StoreBpf(r: nat, s: nat, is64: bool): seq<Instr>
    requires r <= 10
  {
    if !is64 then [Orr(RegMap(r), ZR, s, false)]
    else if RegMap(r) != s then [Orr(RegMap(r), ZR, s, true)]
    else []
  }

  function AddImm(d: nat, n: nat, imm: int, is64: bool): seq<Instr>
  {
    if 0 <= imm <= 4095 then [AddI(d, n, imm, is64)]
    else if -4095 <= imm < 0 then [SubI(d, n, -imm, is64)]
    else MovImm(X2, imm % M64, is64) + [Add(d, n, X2, is64)]
  }

  function SubImm(d: nat, n: nat, imm: int, is64: bool): seq<Instr>
  {
    if -4095 <= imm <= 4095 then AddImm(d, n, -imm, is64)
    else MovImm(X2, imm % M64, is64) + [Sub(d, n, X2, is64)]
  }

  /** The instruction for a register operand in X1. */
  function RegisterOp(i: Insn, is64: bool): Code
  {
    if i.op == ADD then Code([Add(X0, X0, X1, is64)])
    else if i.op == SUB then Code([Sub(X0, X0, X1, is64)])
    else if i.op == OR then Code([Orr(X0, X0, X1, is64)])
    else if i.op == AND then Code([And(X0, X0, X1, is64)])
    else if i.op == XOR then Code([Eor(X0, X0, X1, is64)])
    else if i.op == LSH then Code([LslV(X0, X0, X1, is64)])
    else if i.op == RSH then Code([LsrV(X0, X0, X1, is64)])
    else if i.op == ARSH then Code([AsrV(X0, X0, X1, is64)])
    else if i.op == MUL then Code([Mul(X0, X0, X1, is64)])
    else if i.op == DIV then Code([if i.off == 0 then UDiv(X0, X0, X1, is64) else SDiv(X0, X0, X1, is64)])
    else if i.op == MOD then
      Code([if i.off == 0 then UDiv(X2, X0, X1, is64) else SDiv(X2, X0, X1, is64), MSub(X0, X2, X1, X0, is64)])
    else NoCode
  }

  function ImmediateOp(i: Insn, is64: bool): Code
    requires ValidInsn(i)
  {
    var v := i.imm % M64;
    if i.op == ADD then Code(AddImm(X0, X0, i.imm, is64))
    else if i.op == SUB then Code(SubImm(X0, X0, i.imm, is64))
    else if i.op == OR then Code(MovImm(X2, v, is64) + [Orr(X0, X0, X2, is64)])
    else if i.op == AND then Code(MovImm(X2, v, is64) + [And(X0, X0, X2, is64)])
    else if i.op == XOR then Code(MovImm(X2, v, is64) + [Eor(X0, X0, X2, is64)])
    else if i.op == LSH then Code([LslImm(X0, X0, i.imm % Bits(is64), is64)])
    else if i.op == RSH then Code([LsrImm(X0, X0, i.imm % Bits(is64), is64)])
    else if i.op == ARSH then Code([AsrImm(X0, X0, i.imm % Bits(is64), is64)])
    else if i.op == MUL || i.op == DIV || i.op == MOD then
      Code(MovImm(X1, v, is64) + RegisterOp(i, is64).code)
    else NoCode
  }

  /** Sign-extending moves. */
  function ExtendOp(i: Insn, is64: bool): Code
  {
    if i.off == 8 then Code([Sbfm(X0, X0, 0, 7, is64)])
    else if i.off == 16 then Code([Sbfm(X0, X0, 0, 15, is64)])
    else if i.off == 32 && is64 then Code([Sbfm(X0, X0, 0, 31, true)])
    else NoCode
  }

  function LowHalf(): seq<Instr>
  {
    MovImm(X2, 0xFFFF, true) + [And(X0, X0, X2, true)]
  }

  function SwapOp(i: Insn, is64: bool): Code
  {
    if is64 || i.isX then
      if i.imm == 16 then Code([Rev16(X0, X0, is64)] + LowHalf())
      else if i.imm == 32 then Code([Rev32(X0, X0)])
      else if i.imm == 64 && is64 then Code([Rev64(X0, X0)])
      else NoCode
    else if i.imm == 16 then Code(LowHalf())
    else if i.imm == 32 then Code([Orr(X0, ZR, X0, false)])
    else NoCode
  }

  /** Immediate operations that leave the value alone; the 32-bit ones still clear the high half. */
  predicate IsNoOp(i: Insn)
  {
    !i.isX &&
    ((i.imm == 0 && (i.op == ADD || i.op == SUB || i.op == OR || i.op == XOR || i.op == LSH || i.op == RSH || i.op == ARSH)) ||
     (i.imm == 1 && (i.op == MUL || i.op == DIV)) ||
     (i.imm == 0 && i.op == MOD))
  }

  function ClearHigh(r: nat, is64: bool): seq<Instr>
    requires r <= 10
  {
    if is64 then [] else [Orr(RegMap(r), ZR, RegMap(r), false)]
  }

  /** What brings the result into X0, when the destination goes through X0. */
  function Compute(i: Insn, is64: bool): Code
    requires ValidInsn(i)
  {
    var dst := LoadBpf(i.dst, X0);
    if i.op == NEG then Code(dst + [Sub(X0, ZR, X0, is64)])
    else if i.op == MOV then
      var e := ExtendOp(i, is64);
      if e.NoCode? then NoCode
      else Code((if i.isX then LoadBpf(i.src, X0) else MovImm(X0, i.imm % M64, true)) + e.code)
    else if i.op == END then
      var e := SwapOp(i, is64);
      if e.NoCode? then NoCode else Code(dst + e.code)
    else if i.isX then
      var e := RegisterOp(i, is64);
      if e.NoCode? then NoCode else Code(dst + LoadBpf(i.src, X1) + e.code)
    else if i.op == DIV && i.imm == 0 then Code(dst + MovImm(X0, 0, is64))
    else
      var e := ImmediateOp(i, is64);
      if e.NoCode? then NoCode else Code(dst + e.code)
  }

  function MoveCode(i: Insn, is64: bool): seq<Instr>
    requires ValidInsn(i)
  {
    var d := RegMap(i.dst);
    if i.isX then
      if is64 && i.dst == i.src then [] else [Orr(d, ZR, RegMap(i.src), is64)]
    else if is64 then MovImm(X0, i.imm % M64, true) + [Orr(d, ZR, X0, true)]
    else MovImm(d, i.imm % M32, false)
  }

  /** All of emit_alu. */
  function AluCode(i: Insn, is64: bool): Code
    requires ValidInsn(i)
  {
    if i.op == MOV && i.off == 0 then Code(MoveCode(i, is64))
    else if i.op == END && !is64 && !i.isX && i.imm == 64 then Code([])
    else if i.op != NEG && i.op != MOV && i.op != END && IsNoOp(i) then
      Code((if i.op == MOD then LoadBpf(i.dst, X0) else []) + ClearHigh(i.dst, is64))
    else
      var c := Compute(i, is64);
      if c.NoCode? then NoCode else Code(c.code + StoreBpf(i.dst, X0, is64))
  }

  // ---------------------------------------------------------------------------
  // Correctness
  // ---------------------------------------------------------------------------

  /** `code` leaves `v` in X0 and touches only the scratch registers X0, X1, X2. */
  ghost predicate Produces(code: seq<Instr>, st: State, v: int)
  {
    AllWellFormed(code) &&
    var t := Run(code, st);
    t.x[X0] == v && forall q :: 3 <= q < 31 ==> t.x[q] == st.x[q]
  }

  lemma LoadRuns(r: nat, d: nat, st: State)
    requires r <= 10 && d < 3
    ensures AllWellFormed(LoadBpf(r, d)) && Run(LoadBpf(r, d), st) == Put(st, d, st.x[RegMap(r)])
  {
    hide Run, Step, WellFormed;
    WellFormedMove(d, RegMap(r), true);
    RunOne(Orr(d, ZR, RegMap(r), true), st);
    MoveStep(d, RegMap(r), true, st);
  }

  /** Writing X0 back to the BPF register. */
  lemma StoreRuns(r: nat, is64: bool, code: seq<Instr>, st: State, v: nat)
    requires r <= 10 && v < Size(is64) && Produces(code, st, v)
    ensures var all := code + StoreBpf(r, X0, is64);
            AllWellFormed(all) &&
            var t := Run(all, st);
            t.x[RegMap(r)] == v && forall q :: 3 <= q < 31 && q != RegMap(r) ==> t.x[q] == st.x[q]
  {
    hide Run, Step, WellFormed;
    var i := Orr(RegMap(r), ZR, X0, is64);
    WellFormedMove(RegMap(r), X0, is64);
    var t := Run(code, st);
    RunOne(i, t);
    RunAppend(code, [i], st);
    MoveStep(RegMap(r), X0, is64, t);
  }

  lemma WellFormedMove(d: nat, s: nat, is64: bool)
    requires d < 31 && s <= 31
    ensures WellFormed(Orr(d, ZR, s, is64))
  {
  }

  /** One more instruction that writes X0 after code that only touched scratch registers. */
  lemma ThenStep(code: seq<Instr>, i: Instr, st: State, v: nat)
    requires AllWellFormed(code) && WellFormed(i) && !i.Cmp? && !i.CmpI? && !i.Tst? && i.d == X0 && v < M64
    requires var t := Run(code, st);
             Value(i, t) == v && forall q :: 3 <= q < 31 ==> t.x[q] == st.x[q]
    ensures Produces(code + [i], st, v)
  {
    hide Run, Step, Value, WellFormed;
    var t := Run(code, st);
    RunOne(i, t);
    RunAppend(code, [i], st);
    StepPut(i, t);
  }

  /** The operands of a register instruction in X0 and X1. */
  lemma OperandsLoaded(i: Insn, st: State)
    requires ValidInsn(i)
    ensures var code := LoadBpf(i.dst, X0) + LoadBpf(i.src, X1);
            AllWellFormed(code) &&
            Run(code, st) == Put(Put(st, X0, st.x[RegMap(i.dst)]), X1, st.x[RegMap(i.src)])
  {
    hide Run, Step, WellFormed;
    LoadRuns(i.dst, X0, st);
    LoadRuns(i.src, X1, Put(st, X0, st.x[RegMap(i.dst)]));
    RunAppend(LoadBpf(i.dst, X0), LoadBpf(i.src, X1), st);
  }

  /** The destination in X0 and an immediate in X1 or X2. */
  lemma ImmediateLoaded(i: Insn, d: nat, is64: bool, st: State)
    requires ValidInsn(i) && 1 <= d <= 2
    ensures var code := LoadBpf(i.dst, X0) + MovImm(d, i.imm % M64, is64);
            AllWellFormed(code) &&
            Run(code, st) == Put(Put(st, X0, st.x[RegMap(i.dst)]), d, i.imm % Size(is64))
  {
    hide Run, Step, WellFormed, MovImm;
    LoadRuns(i.dst, X0, st);
    MovImmSets(d, i.imm % M64, is64, Put(st, X0, st.x[RegMap(i.dst)]));
    RunAppend(LoadBpf(i.dst, X0), MovImm(d, i.imm % M64, is64), st);
    assert i.imm % M64 % Size(is64) == i.imm % Size(is64);
  }

  // --- register operands ---

  lemma AddMultiple(y: int, m: nat, k: int)
    requires m > 0
    ensures (y + m * k) % m == y % m
  {
    ModUnique(y + m * k, m, y / m + k, y % m);
  }

  /** A product may be taken modulo m in each factor. */
  lemma MSubMod(a: int, b: int, q: int, m: nat, i: int, j: int, k: int)
    requires m > 0
    ensures ((a + m * i) - (q + m * j) * (b + m * k)) % m == (a - q * b) % m
  {
    var z := i - q * k - j * b - m * (j * k);
    assert (q + m * j) * (b + m * k) == q * b + m * (q * k) + m * (j * b) + m * (m * (j * k)) by {
      assert (q + m * j) * (b + m * k) == q * (b + m * k) + m * j * (b + m * k);
      assert q * (b + m * k) == q * b + m * (q * k);
      assert m * j * (b + m * k) == m * (j * b) + m * (m * (j * k));
    }
    assert (a + m * i) - (q + m * j) * (b + m * k) == a - q * b + m * z by {
      assert m * z == m * i - m * (q * k) - m * (j * b) - m * (m * (j * k));
    }
    AddMultiple(a - q * b, m, z);
  }

  /** Quotient and multiply-subtract give the remainder, signed or not, zero divisor included. */
  lemma MSubIsRemainder(x: nat, s: nat, signed: bool, m: nat)
    requires x < m && s < m && m > 0 && m % 2 == 0
    ensures (x - Quotient(x, s, signed, m) * s) % m == Remainder(x, s, signed, m)
  {
    hide Quotient, Remainder, TruncDiv;
    DivValue(x, s, signed, m);
    RemValue(x, s, signed, m);
    var q := Quotient(x, s, signed, m);
    if s == 0 {
      ModUnique(x, m, 0, x);
    } else if !signed {
      MSubUnsigned(x, s, m);
    } else {
      MSubSigned(x, s, m, TruncDiv(Signed(x, m), Signed(s, m)));
    }
  }

  lemma MSubUnsigned(x: nat, s: nat, m: nat)
    requires x < m && 0 < s < m
    ensures (x - x / s * s) % m == x % s
  {
    var f := x / s;
    assert x == s * f + x % s;
    assert f * s == s * f;
    ModUnique(x % s, m, 0, x % s);
  }

  lemma MSubSigned(x: nat, s: nat, m: nat, q: int)
    requires x < m && s < m && m > 0
    ensures (x - q % m * s) % m == (Signed(x, m) - q * Signed(s, m)) % m
  {
    var j := -(q / m);
    assert q == m * (q / m) + q % m;
    assert q % m == q + m * j;
    MSubMod(Signed(x, m), Signed(s, m), q, m, if x < m / 2 then 0 else 1, j, if s < m / 2 then 0 else 1);
  }

  lemma RemValue(x: nat, s: nat, signed: bool, m: nat)
    requires x < m && s < m && m > 0 && m % 2 == 0
    ensures s == 0 ==> Remainder(x, s, signed, m) == x
    ensures s != 0 && !signed ==> Remainder(x, s, signed, m) == x % s
    ensures s != 0 && signed ==>
      Signed(s, m) != 0 &&
      Remainder(x, s, signed, m) == (Signed(x, m) - TruncDiv(Signed(x, m), Signed(s, m)) * Signed(s, m)) % m
  {
    if s != 0 && signed { RemainderIsTruncRem(x, s, m); }
  }

  lemma QuotientIsTruncDiv(x: nat, s: nat, m: nat)
    requires x < m && 0 < s < m && m > 0 && m % 2 == 0
    ensures Signed(s, m) != 0
    ensures Quotient(x, s, true, m) == TruncDiv(Signed(x, m), Signed(s, m)) % m
  {
    if Signed(s, m) == -1 && Signed(x, m) == -(m / 2) {
      assert TruncDiv(-(m / 2), -1) == m / 2;
      ModUnique(m / 2, m, 0, m / 2);
    }
  }

  lemma RemainderIsTruncRem(x: nat, s: nat, m: nat)
    requires x < m && 0 < s < m && m > 0 && m % 2 == 0
    ensures Signed(s, m) != 0
    ensures Remainder(x, s, true, m) == TruncRem(Signed(x, m), Signed(s, m)) % m
  {
    hide TruncRem;
    if Signed(s, m) == -1 && Signed(x, m) == -(m / 2) {
      MinusOneRem(m / 2);
      ModUnique(0, m, 0, 0);
    }
  }

  lemma MinusOneRem(h: int)
    requires h >= 0
    ensures TruncRem(-h, -1) == 0
  {
  }

  /** One-instruction operations on X0 and X1. */
  lemma RegisterValue(i: Insn, is64: bool, st: State)
    requires RegisterOp(i, is64).Code? && i.op != MOD
    ensures var c := RegisterOp(i, is64).code;
            |c| == 1 && WellFormed(c[0]) && !c[0].Cmp? && !c[0].CmpI? && !c[0].Tst? && c[0].d == X0 &&
            var r := AluResult(i, is64, st.x[X0], Read(st, X1, is64));
            r.Result? && r.value == Value(c[0], st)
  {
    hide BitAnd, BitOr, BitXor, ShiftLeft, ShiftRight, ShiftRightSigned, TruncDiv, Quotient, Remainder;
    var m := Size(is64);
    var x, s := Read(st, X0, is64), Read(st, X1, is64);
    if i.op == DIV {
      DivValue(x, s, i.off != 0, m);
    }
  }

  lemma DivValue(x: nat, s: nat, signed: bool, m: nat)
    requires x < m && s < m && m > 0 && m % 2 == 0
    ensures s == 0 ==> Quotient(x, s, signed, m) == 0
    ensures s != 0 && !signed ==> Quotient(x, s, signed, m) == x / s
    ensures s != 0 && signed ==> Signed(s, m) != 0 && Quotient(x, s, signed, m) == TruncDiv(Signed(x, m), Signed(s, m)) % m
  {
    if s != 0 && signed { QuotientIsTruncDiv(x, s, m); }
  }

  /** The operation once the operands sit in X0 and X1. */
  lemma RegisterOpProduces(i: Insn, is64: bool, pre: seq<Instr>, st: State, d: Word, s: nat)
    requires RegisterOp(i, is64).Code? && AllWellFormed(pre) && s < Size(is64)
    requires var t := Run(pre, st);
             t.x[X0] == d && Read(t, X1, is64) == s && forall q :: 3 <= q < 31 ==> t.x[q] == st.x[q]
    ensures AluResult(i, is64, d, s).Result?
    ensures Produces(pre + RegisterOp(i, is64).code, st, AluResult(i, is64, d, s).value)
  {
    hide Run, Value, WellFormed, Produces, AluResult, Read, RegisterOp;
    if i.op == MOD {
      ModProduces(i, is64, pre, st, d, s);
    } else {
      var t := Run(pre, st);
      var code := RegisterOp(i, is64).code;
      AluResultFits(i, is64, d, s);
      RegisterValue(i, is64, t);
      ThenStep(pre, code[0], st, AluResult(i, is64, d, s).value);
      assert code == [code[0]];
    }
  }

  lemma ModProduces(i: Insn, is64: bool, pre: seq<Instr>, st: State, d: Word, s: nat)
    requires i.op == MOD && AllWellFormed(pre) && s < Size(is64)
    requires var t := Run(pre, st);
             t.x[X0] == d && Read(t, X1, is64) == s && forall q :: 3 <= q < 31 ==> t.x[q] == st.x[q]
    ensures RegisterOp(i, is64).Code? && AluResult(i, is64, d, s).Result?
    ensures Produces(pre + RegisterOp(i, is64).code, st, AluResult(i, is64, d, s).value)
  {
    hide Run, Value, WellFormed, Produces, AluResult, Read, Quotient;
    var t := Run(pre, st);
    var code := RegisterOp(i, is64).code;
    ModCode(i, is64);
    var q := Quotient(d % Size(is64), s, i.off != 0, Size(is64));
    ModFirst(i, is64, t);
    RunOne(code[0], t);
    RunAppend(pre, [code[0]], st);
    StepPut(code[0], t);
    var t' := Put(t, X2, q);
    ReadOther(t, X2, q, X1, is64);
    ModSecond(i, is64, t', d, s);
    AluResultFits(i, is64, d, s);
    ThenStep(pre + [code[0]], code[1], st, AluResult(i, is64, d, s).value);
    assert pre + code == pre + [code[0]] + [code[1]];
  }

  lemma ModCode(i: Insn, is64: bool)
    requires RegisterOp(i, is64).Code? && i.op == MOD
    ensures var c := RegisterOp(i, is64).code;
            c == [if i.off == 0 then UDiv(X2, X0, X1, is64) else SDiv(X2, X0, X1, is64), MSub(X0, X2, X1, X0, is64)] &&
            WellFormed(c[0]) && WellFormed(c[1])
  {
  }

  lemma ModFirst(i: Insn, is64: bool, t: State)
    ensures var c := if i.off == 0 then UDiv(X2, X0, X1, is64) else SDiv(X2, X0, X1, is64);
            WellFormed(c) && Value(c, t) == Quotient(t.x[X0] % Size(is64), Read(t, X1, is64), i.off != 0, Size(is64))
  {
    hide Quotient, TruncDiv;
    DivValue(t.x[X0] % Size(is64), Read(t, X1, is64), i.off != 0, Size(is64));
  }

  lemma ModSecond(i: Insn, is64: bool, t: State, d: Word, s: nat)
    requires i.op == MOD && t.x[X0] == d && s < Size(is64) && Read(t, X1, is64) == s
    requires t.x[X2] == Quotient(d % Size(is64), s, i.off != 0, Size(is64))
    ensures var c := MSub(X0, X2, X1, X0, is64);
            WellFormed(c) && AluResult(i, is64, d, s) == Result(Value(c, t))
  {
    hide Quotient, Remainder, Read;
    var m := Size(is64);
    var q := Quotient(d % m, s, i.off != 0, m);
    MSubIsRemainder(d % m, s, i.off != 0, m);
    ReadSmall(t, X2, is64, q);
    ReadLow(t, X0, is64);
  }

  lemma ReadSmall(t: State, r: nat, is64: bool, v: nat)
    requires r < 31 && t.x[r] == v && v < Size(is64)
    ensures Read(t, r, is64) == v
  {
  }

  lemma ReadLow(t: State, r: nat, is64: bool)
    requires r < 31
    ensures Read(t, r, is64) == t.x[r] % Size(is64)
  {
  }

  lemma ReadOther(t: State, r: nat, v: Word, r': nat, is64: bool)
    requires r < 31 && r' < 31 && r != r'
    ensures Read(Put(t, r, v), r', is64) == Read(t, r', is64)
  {
  }

  // --- immediate operands ---

  /** ADD and SUB with a short immediate, or through X2. */
  lemma AddImmValue(x: nat, imm: int, is64: bool)
    requires x < Size(is64) && -0x8000_0000 <= imm < 0x8000_0000
    ensures (x + imm % Size(is64)) % Size(is64) == (x + imm) % Size(is64)
    ensures (x - imm % Size(is64)) % Size(is64) == (x - imm) % Size(is64)
  {
    var m := Size(is64);
    if imm < 0 {
      assert imm % m == imm + m;
      AddMultiple(x + imm, m, 1);
      AddMultiple(x - imm, m, -1);
    }
  }

  lemma AddImmProduces(pre: seq<Instr>, imm: int, is64: bool, st: State)
    requires AllWellFormed(pre) && -0x8000_0000 <= imm < 0x8000_0000_0000
    requires forall q :: 3 <= q < 31 ==> Run(pre, st).x[q] == st.x[q]
    ensures Produces(pre + AddImm(X0, X0, imm, is64), st, (Read(Run(pre, st), X0, is64) + imm) % Size(is64))
  {
    hide Run, WellFormed, Read, MovImm, Produces, Step, Value, Put;
    var t := Run(pre, st);
    var x, m := Read(t, X0, is64), Size(is64);
    if -4095 <= imm <= 4095 {
      ShortAdd(pre, imm, is64, st);
    } else {
      X2Values(t, imm % M64, is64);
      Mod64(imm, is64);
      AddModRight(x, imm, m);
      X2Op(pre, imm % M64, is64, st, Add(X0, X0, X2, is64), (x + imm) % m);
    }
  }

  lemma ShortAdd(pre: seq<Instr>, imm: int, is64: bool, st: State)
    requires AllWellFormed(pre) && -4095 <= imm <= 4095
    requires forall q :: 3 <= q < 31 ==> Run(pre, st).x[q] == st.x[q]
    ensures Produces(pre + AddImm(X0, X0, imm, is64), st, (Read(Run(pre, st), X0, is64) + imm) % Size(is64))
  {
    hide Run, WellFormed, Read, MovImm, Produces, Step, Value;
    var t := Run(pre, st);
    var x, m := Read(t, X0, is64), Size(is64);
    if imm >= 0 {
      AddIValue(X0, imm, is64, t);
      ThenStep(pre, AddI(X0, X0, imm, is64), st, (x + imm) % m);
    } else {
      AddIValue(X0, -imm, is64, t);
      ThenStep(pre, SubI(X0, X0, -imm, is64), st, (x + imm) % m);
    }
  }

  /** A constant in X2, then an operation into X0. */
  lemma X2Op(pre: seq<Instr>, v: nat, is64: bool, st: State, op: Instr, r: nat)
    requires AllWellFormed(pre) && WellFormed(op) && !op.Cmp? && !op.CmpI? && !op.Tst? && op.d == X0 && r < M64
    requires forall q :: 3 <= q < 31 ==> Run(pre, st).x[q] == st.x[q]
    requires Value(op, Put(Run(pre, st), X2, v % Size(is64))) == r
    ensures Produces(pre + (MovImm(X2, v, is64) + [op]), st, r)
  {
    hide Run, WellFormed, MovImm, Produces, Value;
    var mov := MovImm(X2, v, is64);
    ViaX2(pre, v, is64, st);
    ThenStep(pre + mov, op, st, r);
    assert pre + mov + [op] == pre + (mov + [op]);
  }

  /** The operations on X0 and a constant in X2. */
  lemma X2Values(t: State, v: nat, is64: bool)
    ensures var t', x, s := Put(t, X2, v % Size(is64)), Read(t, X0, is64), v % Size(is64);
            WellFormed(Add(X0, X0, X2, is64)) && Value(Add(X0, X0, X2, is64), t') == (x + s) % Size(is64) &&
            WellFormed(Sub(X0, X0, X2, is64)) && Value(Sub(X0, X0, X2, is64), t') == (x - s) % Size(is64) &&
            WellFormed(And(X0, X0, X2, is64)) && Value(And(X0, X0, X2, is64), t') == BitAnd(x, s) &&
            WellFormed(Orr(X0, X0, X2, is64)) && Value(Orr(X0, X0, X2, is64), t') == BitOr(x, s) &&
            WellFormed(Eor(X0, X0, X2, is64)) && Value(Eor(X0, X0, X2, is64), t') == BitXor(x, s)
  {
    hide Read, WellFormed, Value, BitAnd, BitOr, BitXor;
    var s := v % Size(is64);
    var t' := Put(t, X2, s);
    BinaryValue(is64, t', X0, X2);
    ReadOther(t, X2, s, X0, is64);
    ReadSmall(t', X2, is64, s);
  }

  lemma AddModRight(x: int, y: int, m: nat)
    requires m > 0
    ensures (x + y % m) % m == (x + y) % m && (x - y % m) % m == (x - y) % m
  {
    assert y == m * (y / m) + y % m;
    AddMultiple(x + y % m, m, y / m);
    AddMultiple(x - y % m, m, -(y / m));
    assert m * -(y / m) == -(m * (y / m));
  }

  lemma Mod64(v: int, is64: bool)
    ensures v % M64 % Size(is64) == v % Size(is64)
  {
  }

  lemma AddIValue(d: nat, imm: nat, is64: bool, t: State)
    requires d < 31 && imm < 4096
    ensures WellFormed(AddI(d, d, imm, is64)) && WellFormed(SubI(d, d, imm, is64))
    ensures Value(AddI(d, d, imm, is64), t) == (Read(t, d, is64) + imm) % Size(is64)
    ensures Value(SubI(d, d, imm, is64), t) == (Read(t, d, is64) - imm) % Size(is64)
  {
  }

  /** The two-register operations on X0 and another scratch register. */
  lemma BinaryValue(is64: bool, t: State, n: nat, m: nat)
    requires n < 31 && m < 31
    ensures var x, s := Read(t, n, is64), Read(t, m, is64);
            WellFormed(Add(X0, n, m, is64)) && Value(Add(X0, n, m, is64), t) == (x + s) % Size(is64) &&
            WellFormed(Sub(X0, n, m, is64)) && Value(Sub(X0, n, m, is64), t) == (x - s) % Size(is64) &&
            WellFormed(And(X0, n, m, is64)) && Value(And(X0, n, m, is64), t) == BitAnd(x, s) &&
            WellFormed(Orr(X0, n, m, is64)) && Value(Orr(X0, n, m, is64), t) == BitOr(x, s) &&
            WellFormed(Eor(X0, n, m, is64)) && Value(Eor(X0, n, m, is64), t) == BitXor(x, s)
  {
    hide BitAnd, BitOr, BitXor, Read;
  }

  lemma ViaX2(pre: seq<Instr>, v: nat, is64: bool, st: State)
    requires AllWellFormed(pre)
    ensures var mov := MovImm(X2, v, is64);
            AllWellFormed(mov) && AllWellFormed(pre + mov) &&
            Run(pre + mov, st) == Put(Run(pre, st), X2, v % Size(is64))
  {
    hide Run, WellFormed, MovImm;
    MovImmSets(X2, v, is64, Run(pre, st));
    RunAppend(pre, MovImm(X2, v, is64), st);
  }

  lemma SubImmProduces(pre: seq<Instr>, imm: int, is64: bool, st: State)
    requires AllWellFormed(pre) && -0x8000_0000 <= imm < 0x8000_0000
    requires forall q :: 3 <= q < 31 ==> Run(pre, st).x[q] == st.x[q]
    ensures Produces(pre + SubImm(X0, X0, imm, is64), st, (Read(Run(pre, st), X0, is64) - imm) % Size(is64))
  {
    hide Run, WellFormed, Read, MovImm, Produces, Step, AddImm, Value, Put;
    if -4095 <= imm <= 4095 {
      AddImmProduces(pre, -imm, is64, st);
    } else {
      var t := Run(pre, st);
      var x, m := Read(t, X0, is64), Size(is64);
      X2Values(t, imm % M64, is64);
      Mod64(imm, is64);
      AddModRight(x, imm, m);
      X2Op(pre, imm % M64, is64, st, Sub(X0, X0, X2, is64), (x - imm) % m);
    }
  }

  /** OR, AND and XOR with the immediate in X2. */
  lemma LogicImmProduces(pre: seq<Instr>, i: Insn, is64: bool, st: State)
    requires AllWellFormed(pre) && ValidInsn(i) && (i.op == OR || i.op == AND || i.op == XOR)
    requires forall q :: 3 <= q < 31 ==> Run(pre, st).x[q] == st.x[q]
    ensures var r := AluResult(i, is64, Run(pre, st).x[X0], i.imm % Size(is64));
            r.Result? && Produces(pre + ImmediateOp(i, is64).code, st, r.value)
  {
    hide Run, WellFormed, Read, MovImm, Produces, Step, BitAnd, BitOr, BitXor, Value, Put;
    var t, m, v := Run(pre, st), Size(is64), i.imm % M64;
    X2Values(t, v, is64);
    Mod64(i.imm, is64);
    ReadLow(t, X0, is64);
    AluResultFits(i, is64, t.x[X0], i.imm % m);
    var op := if i.op == OR then Orr(X0, X0, X2, is64) else if i.op == AND then And(X0, X0, X2, is64) else Eor(X0, X0, X2, is64);
    X2Op(pre, v, is64, st, op, AluResult(i, is64, t.x[X0], i.imm % m).value);
  }

  lemma ShiftImmProduces(pre: seq<Instr>, i: Insn, is64: bool, st: State)
    requires AllWellFormed(pre) && ValidInsn(i) && (i.op == LSH || i.op == RSH || i.op == ARSH)
    requires forall q :: 3 <= q < 31 ==> Run(pre, st).x[q] == st.x[q]
    ensures var r := AluResult(i, is64, Run(pre, st).x[X0], i.imm % Size(is64));
            r.Result? && Produces(pre + ImmediateOp(i, is64).code, st, r.value)
  {
    hide Run, Read, Produces, Step, Value, ShiftLeft, ShiftRight, ShiftRightSigned, MovImm;
    var t, m, c := Run(pre, st), Size(is64), i.imm % Bits(is64);
    var x := Read(t, X0, is64);
    ReadLow(t, X0, is64);
    ShiftCount(i.imm, is64);
    AluResultFits(i, is64, t.x[X0], i.imm % m);
    ShiftValues(c, is64, t);
    ThenStep(pre, ImmediateOp(i, is64).code[0], st, AluResult(i, is64, t.x[X0], i.imm % m).value);
  }

  lemma ShiftCount(imm: int, is64: bool)
    ensures imm % Size(is64) % Bits(is64) == imm % Bits(is64)
  {
    var m, b := Size(is64), Bits(is64);
    var k := imm / m * (m / b);
    assert imm == imm % m + b * k;
    AddMultiple(imm % m, b, k);
  }

  lemma ShiftValues(c: nat, is64: bool, t: State)
    requires c < Bits(is64)
    ensures var x := Read(t, X0, is64);
            WellFormed(LslImm(X0, X0, c, is64)) && Value(LslImm(X0, X0, c, is64), t) == ShiftLeft(x, c, Size(is64)) &&
            WellFormed(LsrImm(X0, X0, c, is64)) && Value(LsrImm(X0, X0, c, is64), t) == ShiftRight(x, c) &&
            WellFormed(AsrImm(X0, X0, c, is64)) && Value(AsrImm(X0, X0, c, is64), t) == ShiftRightSigned(x, c, Size(is64))
  {
    hide UnsignedField, SignedField, ShiftLeft, ShiftRight, ShiftRightSigned, Read;
    var x := Read(t, X0, is64);
    LslField(x, c, is64);
    LsrField(x, c, is64);
    AsrField(x, c, is64);
  }

  /** The destination in X0, then the immediate operation. */
  lemma ImmediateOpProduces(i: Insn, is64: bool, st: State)
    requires ValidInsn(i) && !i.isX && ImmediateOp(i, is64).Code?
    ensures var r := AluResult(i, is64, st.x[RegMap(i.dst)], i.imm % Size(is64));
            r.Result? && Produces(LoadBpf(i.dst, X0) + ImmediateOp(i, is64).code, st, r.value)
  {
    hide Run, WellFormed, Read, MovImm, Produces, Step, AddImm, SubImm, LoadBpf, AluResult, RegisterOp;
    var pre, d := LoadBpf(i.dst, X0), st.x[RegMap(i.dst)];
    LoadRuns(i.dst, X0, st);
    var t := Run(pre, st);
    if i.op == ADD || i.op == SUB {
      AddSubProduces(i, is64, pre, st);
    } else if i.op == OR || i.op == AND || i.op == XOR {
      LogicImmProduces(pre, i, is64, st);
    } else if i.op == LSH || i.op == RSH || i.op == ARSH {
      ShiftImmProduces(pre, i, is64, st);
    } else {
      var mov := MovImm(X1, i.imm % M64, is64);
      ImmediateLoaded(i, X1, is64, st);
      ReadSmall(Run(pre + mov, st), X1, is64, i.imm % Size(is64));
      HasRegisterOp(i, is64);
      RegisterOpProduces(i, is64, pre + mov, st, d, i.imm % Size(is64));
      assert pre + mov + RegisterOp(i, is64).code == pre + ImmediateOp(i, is64).code;
    }
  }

  lemma HasRegisterOp(i: Insn, is64: bool)
    requires i.op == MUL || i.op == DIV || i.op == MOD
    ensures RegisterOp(i, is64).Code?
  {
  }

  lemma AddSubProduces(i: Insn, is64: bool, pre: seq<Instr>, st: State)
    requires AllWellFormed(pre) && ValidInsn(i) && (i.op == ADD || i.op == SUB)
    requires forall q :: 3 <= q < 31 ==> Run(pre, st).x[q] == st.x[q]
    ensures var r := AluResult(i, is64, Run(pre, st).x[X0], i.imm % Size(is64));
            r.Result? && Produces(pre + ImmediateOp(i, is64).code, st, r.value)
  {
    hide Run, WellFormed, Read, MovImm, Produces, Step, AddImm, SubImm;
    var t := Run(pre, st);
    ReadLow(t, X0, is64);
    AddImmValue(Read(t, X0, is64), i.imm, is64);
    if i.op == ADD {
      AddImmProduces(pre, i.imm, is64, st);
    } else {
      SubImmProduces(pre, i.imm, is64, st);
    }
  }

  // --- negation, sign-extending moves, byte swaps ---

  lemma NegProduces(i: Insn, is64: bool, st: State)
    requires ValidInsn(i) && i.op == NEG
    ensures var r := AluResult(i, is64, st.x[RegMap(i.dst)], Operand(BpfRegs(st), i, is64));
            r.Result? && Produces(Compute(i, is64).code, st, r.value)
  {
    hide Run, WellFormed, Read, Produces, Step, LoadBpf;
    var pre := LoadBpf(i.dst, X0);
    LoadRuns(i.dst, X0, st);
    var t := Run(pre, st);
    ReadLow(t, X0, is64);
    NegValue(is64, t);
    ThenStep(pre, Sub(X0, ZR, X0, is64), st, (0 - t.x[X0] % Size(is64)) % Size(is64));
  }

  lemma NegValue(is64: bool, t: State)
    ensures WellFormed(Sub(X0, ZR, X0, is64))
    ensures Value(Sub(X0, ZR, X0, is64), t) == (0 - Read(t, X0, is64)) % Size(is64)
  {
    assert Read(t, ZR, is64) == 0;
  }

  lemma ExtendProduces(i: Insn, is64: bool, st: State)
    requires ValidInsn(i) && i.op == MOV && i.off != 0 && Compute(i, is64).Code?
    ensures var r := AluResult(i, is64, st.x[RegMap(i.dst)], Operand(BpfRegs(st), i, is64));
            r.Result? && Produces(Compute(i, is64).code, st, r.value)
  {
    hide Run, WellFormed, Read, Produces, Step, LoadBpf, MovImm, Value, Extend;
    var pre := if i.isX then LoadBpf(i.src, X0) else MovImm(X0, i.imm % M64, true);
    var s := Operand(BpfRegs(st), i, is64);
    if i.isX {
      LoadRuns(i.src, X0, st);
    } else {
      MovImmSets(X0, i.imm % M64, true, st);
      Mod64(i.imm, is64);
    }
    var t := Run(pre, st);
    ReadLow(t, X0, is64);
    assert Read(t, X0, is64) == s;
    ExtendValue(i, is64, t);
    var e := ExtendOp(i, is64).code[0];
    ThenStep(pre, e, st, MoveResult(i, is64, st.x[RegMap(i.dst)] % Size(is64), s));
    assert Compute(i, is64).code == pre + [e];
  }

  lemma ExtendValue(i: Insn, is64: bool, t: State)
    requires i.off != 0 && ExtendOp(i, is64).Code?
    ensures var c := ExtendOp(i, is64).code;
            |c| == 1 && WellFormed(c[0]) && c[0].Sbfm? && c[0].d == X0 &&
            forall x: nat :: Value(c[0], t) == MoveResult(i, is64, x, Read(t, X0, is64))
  {
    hide Read, Value, Extend, Pow2;
    Pow2Constants();
    if i.off == 8 {
      SbfmValue(8, is64, t);
    } else if i.off == 16 {
      SbfmValue(16, is64, t);
    } else {
      SbfmValue(32, is64, t);
    }
  }

  lemma SbfmValue(w: nat, is64: bool, t: State)
    requires 0 < w < Bits(is64) && 1 <= Pow2(w) <= Size(is64)
    ensures Value(Sbfm(X0, X0, 0, w - 1, is64), t) == Extend(Read(t, X0, is64), Pow2(w), Size(is64))
  {
    hide SignedField, Read;
    ExtendField(Read(t, X0, is64), w, is64);
  }

  lemma SwapProduces(i: Insn, is64: bool, st: State)
    requires ValidInsn(i) && i.op == END && Compute(i, is64).Code?
    ensures var r := AluResult(i, is64, st.x[RegMap(i.dst)], Operand(BpfRegs(st), i, is64));
            r.Result? && r.value < Size(is64) && Produces(Compute(i, is64).code, st, r.value)
  {
    hide Run, WellFormed, Read, Produces, Step, LoadBpf, MovImm, Value, ByteSwap, LowHalf;
    var pre, d := LoadBpf(i.dst, X0), st.x[RegMap(i.dst)];
    LoadRuns(i.dst, X0, st);
    var t := Run(pre, st);
    Pow256Constants();
    RevValue(is64, t);
    if i.imm == 16 {
      if is64 || i.isX {
        var rev := Rev16(X0, X0, is64);
        var v := Value(rev, t);
        ThenStep(pre, rev, st, v);
        Produced(pre + [rev], st, v);
        LowHalfProduces(pre + [rev], st, v);
        assert pre + [rev] + LowHalf() == Compute(i, is64).code;
      } else {
        LowHalfProduces(pre, st, d);
      }
    } else if i.imm == 32 {
      ThenStep(pre, SwapOp(i, is64).code[0], st, EndResult(i, is64, d).value);
    } else {
      ThenStep(pre, Rev64(X0, X0), st, ByteSwap(8, d));
    }
  }

  lemma Produced(code: seq<Instr>, st: State, v: int)
    requires Produces(code, st, v)
    ensures AllWellFormed(code) && Run(code, st).x[X0] == v
    ensures forall q :: 3 <= q < 31 ==> Run(code, st).x[q] == st.x[q]
  {
  }

  lemma RevValue(is64: bool, t: State)
    ensures WellFormed(Rev16(X0, X0, is64)) && WellFormed(Rev32(X0, X0)) && WellFormed(Rev64(X0, X0))
    ensures var v := Value(Rev16(X0, X0, is64), t); 0 <= v < M64 && v % 0x1_0000 == ByteSwap(2, t.x[X0])
    ensures Value(Rev32(X0, X0), t) == ByteSwap(4, t.x[X0])
    ensures Value(Rev64(X0, X0), t) == ByteSwap(8, t.x[X0])
    ensures WellFormed(Orr(X0, ZR, X0, false)) && Value(Orr(X0, ZR, X0, false), t) == t.x[X0] % M32
  {
    hide ByteSwap, HalfSwap, Value, Read, WellFormed;
    var x := t.x[X0];
    RevReads(is64, t);
    ReadLow(t, X0, true);
    ReadLow(t, X0, false);
    ByteSwap4(x);
    HalfSwapLow(if is64 then 4 else 2, x % Size(is64), is64);
    ByteSwap2(x);
    ByteSwap2(x % Size(is64));
    LowBits(x, is64);
  }

  lemma RevReads(is64: bool, t: State)
    ensures WellFormed(Rev16(X0, X0, is64)) && WellFormed(Rev32(X0, X0)) && WellFormed(Rev64(X0, X0))
    ensures Value(Rev16(X0, X0, is64), t) == HalfSwap(if is64 then 4 else 2, Read(t, X0, is64)) % Size(is64)
    ensures Value(Rev32(X0, X0), t) == ByteSwap(4, Read(t, X0, false))
    ensures Value(Rev64(X0, X0), t) == ByteSwap(8, Read(t, X0, true))
    ensures WellFormed(Orr(X0, ZR, X0, false)) && Value(Orr(X0, ZR, X0, false), t) == Read(t, X0, false)
  {
    hide ByteSwap, HalfSwap;
    assert Read(t, ZR, false) == 0;
  }

  lemma HalfSwapLow(k: nat, x: nat, is64: bool)
    requires k > 0
    ensures HalfSwap(k, x) % Size(is64) % 0x1_0000 == ByteSwap(2, x)
  {
    hide ByteSwap;
    var b, h := ByteSwap(2, x % 0x1_0000), HalfSwap(k - 1, x / 0x1_0000);
    assert HalfSwap(k, x) == b + 0x1_0000 * h;
    hide HalfSwap;
    ByteSwap2(x);
    assert b < 0x1_0000 by { Pow256Constants(); }
    LowBits(b + 0x1_0000 * h, is64);
    AddMultiple(b, 0x1_0000, h);
  }

  lemma LowBits(v: nat, is64: bool)
    ensures v % Size(is64) % 0x1_0000 == v % 0x1_0000
  {
  }

  /** Masking X0 with 0xFFFF. */
  lemma LowHalfProduces(pre: seq<Instr>, st: State, v: nat)
    requires AllWellFormed(pre) && Run(pre, st).x[X0] == v
    requires forall q :: 3 <= q < 31 ==> Run(pre, st).x[q] == st.x[q]
    ensures Produces(pre + LowHalf(), st, v % 0x1_0000)
  {
    hide Run, WellFormed, Read, Produces, Step, MovImm, Value, BitAnd, Put;
    var t := Run(pre, st);
    assert Size(true) == M64 && 0xFFFF % Size(true) == 0xFFFF;
    X2Values(t, 0xFFFF, true);
    ReadSmall(t, X0, true, v);
    LowMask(v);
    X2Op(pre, 0xFFFF, true, st, And(X0, X0, X2, true), v % 0x1_0000);
  }

  lemma LowMask(v: nat)
    ensures BitAnd(v, 0xFFFF) == v % 0x1_0000
  {
    hide BitAnd, Pow2;
    Pow2Constants();
    MaskIsMod(v, 16);
  }

  /** Division by the immediate zero. */
  lemma ZeroProduces(i: Insn, is64: bool, st: State)
    requires ValidInsn(i) && i.op == DIV && !i.isX && i.imm == 0
    ensures var r := AluResult(i, is64, st.x[RegMap(i.dst)], 0);
            r == Result(0) && Produces(Compute(i, is64).code, st, 0)
  {
    hide Run, WellFormed, Step, LoadBpf, MovImm;
    LoadRuns(i.dst, X0, st);
    var t := Run(LoadBpf(i.dst, X0), st);
    MovImmSets(X0, 0, is64, t);
    RunAppend(LoadBpf(i.dst, X0), MovImm(X0, 0, is64), st);
  }

  /** Where a BPF register sits in the register file. */
  lemma BpfRegAt(st: State, r: nat)
    requires r <= 10
    ensures BpfRegs(st)[r] == st.x[RegMap(r)]
  {
  }

  lemma ComputeProduces(i: Insn, is64: bool, st: State)
    requires ValidInsn(i) && !(i.op == MOV && i.off == 0) && Compute(i, is64).Code?
    ensures var r := AluResult(i, is64, st.x[RegMap(i.dst)], Operand(BpfRegs(st), i, is64));
            r.Result? && r.value < Size(is64) && Produces(Compute(i, is64).code, st, r.value)
  {
    hide Run, WellFormed, Read, Produces, Step, LoadBpf, MovImm, AluResult, RegisterOp, ImmediateOp, SwapOp, ExtendOp, BpfRegs;
    var s := Operand(BpfRegs(st), i, is64);
    AluResultFits(i, is64, st.x[RegMap(i.dst)], s);
    if i.op == NEG {
      NegProduces(i, is64, st);
    } else if i.op == MOV {
      ExtendProduces(i, is64, st);
    } else if i.op == END {
      SwapProduces(i, is64, st);
    } else if i.isX {
      var pre := LoadBpf(i.dst, X0) + LoadBpf(i.src, X1);
      OperandsLoaded(i, st);
      BpfRegAt(st, i.src);
      ReadLow(Run(pre, st), X1, is64);
      RegisterOpProduces(i, is64, pre, st, st.x[RegMap(i.dst)], s);
    } else if i.op == DIV && i.imm == 0 {
      ZeroProduces(i, is64, st);
    } else {
      ImmediateOpProduces(i, is64, st);
    }
  }

  // --- the peepholes ---

  /** Only the destination (and scratch registers) changed, to `v`. */
  ghost predicate Assigns(code: seq<Instr>, st: State, d: nat, v: int)
    requires d < 31
  {
    AllWellFormed(code) &&
    var t := Run(code, st);
    t.x[d] == v && forall q :: 3 <= q < 31 && q != d ==> t.x[q] == st.x[q]
  }

  lemma MoveAssigns(i: Insn, is64: bool, st: State)
    requires ValidInsn(i) && i.op == MOV && i.off == 0
    ensures Assigns(MoveCode(i, is64), st, RegMap(i.dst), Operand(BpfRegs(st), i, is64))
  {
    hide Assigns, MovImm, BpfRegs;
    var d := RegMap(i.dst);
    if i.isX {
      BpfRegAt(st, i.src);
      RegisterMoveAssigns(d, RegMap(i.src), is64, st);
      if is64 && i.dst == i.src { EmptyAssigns(d, st); }
    } else if is64 {
      LoadedMoveAssigns(d, i.imm % M64, st);
    } else {
      ImmediateMoveAssigns(d, i.imm % M32, st);
    }
  }

  lemma EmptyAssigns(d: nat, st: State)
    requires d < 31
    ensures Assigns([], st, d, st.x[d])
  {
  }

  lemma RegisterMoveAssigns(d: nat, s: nat, is64: bool, st: State)
    requires d < 31 && s < 31
    ensures Assigns([Orr(d, ZR, s, is64)], st, d, st.x[s] % Size(is64))
  {
    hide Run, WellFormed, Step, Read;
    WellFormedMove(d, s, is64);
    RunOne(Orr(d, ZR, s, is64), st);
    MoveStep(d, s, is64, st);
    ReadLow(st, s, is64);
  }

  lemma LoadedMoveAssigns(d: nat, v: nat, st: State)
    requires d < 31 && v < M64
    ensures Assigns(MovImm(X0, v, true) + [Orr(d, ZR, X0, true)], st, d, v)
  {
    hide Run, WellFormed, Step, Read, MovImm;
    var mov, t := Orr(d, ZR, X0, true), Put(st, X0, v);
    MovImmSets(X0, v, true, st);
    WellFormedMove(d, X0, true);
    RunOne(mov, t);
    MoveStep(d, X0, true, t);
    ReadLow(t, X0, true);
    RunAppend(MovImm(X0, v, true), [mov], st);
  }

  lemma ImmediateMoveAssigns(d: nat, v: nat, st: State)
    requires d < 31 && v < M32
    ensures Assigns(MovImm(d, v, false), st, d, v)
  {
    hide Run, WellFormed, Step, Read, MovImm;
    MovImmSets(d, v, false, st);
  }

  /** The operations taken for no-ops leave the value alone. */
  lemma NoOpResult(i: Insn, is64: bool, d: Word)
    requires ValidInsn(i) && IsNoOp(i)
    ensures AluResult(i, is64, d, i.imm % Size(is64)) == Result(d % Size(is64))
  {
    hide BitOr, BitXor, Quotient, Remainder, ShiftLeft, ShiftRight, ShiftRightSigned;
    var m := Size(is64);
    var x := d % m;
    var s := i.imm % m;
    if i.op == OR { assert BitOr(x, 0) == x by { BitOrZero(x); } }
    if i.op == XOR { assert BitXor(x, 0) == x by { BitOrZero(x); } }
    if i.op == LSH || i.op == RSH || i.op == ARSH { ShiftZero(x, is64); }
    if i.op == DIV { DivideByOne(x, i.off != 0, is64); }
    if i.op == MOD { RemValue(x, 0, i.off != 0, m); }
  }

  lemma BitOrZero(x: nat)
    ensures BitOr(x, 0) == x && BitXor(x, 0) == x
  {
  }

  lemma ShiftZero(x: nat, is64: bool)
    requires x < Size(is64)
    ensures ShiftLeft(x, 0, Size(is64)) == x && ShiftRight(x, 0) == x && ShiftRightSigned(x, 0, Size(is64)) == x
  {
    assert Pow2(0) == 1;
    assert x / 1 == x && Signed(x, Size(is64)) / 1 == Signed(x, Size(is64));
  }

  lemma DivideByOne(x: nat, signed: bool, is64: bool)
    requires x < Size(is64)
    ensures Quotient(x, 1, signed, Size(is64)) == x
  {
    var m := Size(is64);
    var a := Signed(x, m);
    assert Signed(1, m) == 1;
    assert x / 1 == x;
    assert a >= 0 ==> a / 1 == a;
    assert a < 0 ==> -a / 1 == -a;
  }

  lemma NoOpAssigns(i: Insn, is64: bool, st: State)
    requires ValidInsn(i)
    ensures var d := RegMap(i.dst);
            Assigns((if i.op == MOD then LoadBpf(i.dst, X0) else []) + ClearHigh(i.dst, is64), st, d, st.x[d] % Size(is64))
  {
    hide Run, WellFormed, Step, Read, LoadBpf;
    var d := RegMap(i.dst);
    var pre := if i.op == MOD then LoadBpf(i.dst, X0) else [];
    LoadRuns(i.dst, X0, st);
    RunNone(st);
    var t := Run(pre, st);
    var mov := Orr(d, ZR, d, false);
    WellFormedMove(d, d, false);
    RunOne(mov, t);
    MoveStep(d, d, false, t);
    ReadLow(t, d, false);
    RunAppend(pre, [mov], st);
    assert pre + [] == pre;
  }

  /** Destination register, no result wider than the class, scratch registers aside nothing else. */
  lemma AluCodeAssigns(i: Insn, is64: bool, st: State)
    requires ValidInsn(i) && AluCode(i, is64).Code?
    ensures var r := AluResult(i, is64, st.x[RegMap(i.dst)], Operand(BpfRegs(st), i, is64));
            r.Result? && Assigns(AluCode(i, is64).code, st, RegMap(i.dst), r.value)
  {
    hide Run, WellFormed, Produces, Compute, MoveCode, BpfRegs, LoadBpf, ClearHigh;
    var d := RegMap(i.dst);
    if i.op == MOV && i.off == 0 {
      MoveAssigns(i, is64, st);
    } else if i.op == END && !is64 && !i.isX && i.imm == 64 {
      RunNone(st);
    } else if i.op != NEG && i.op != MOV && i.op != END && IsNoOp(i) {
      NoOpResult(i, is64, st.x[d]);
      NoOpAssigns(i, is64, st);
    } else {
      hide AluResult;
      ComputeProduces(i, is64, st);
      var r := AluResult(i, is64, st.x[d], Operand(BpfRegs(st), i, is64));
      StoreRuns(i.dst, is64, Compute(i, is64).code, st, r.value);
    }
  }

  /** After `code`, BPF register `r` holds `v` and the other ten are as before. */
  ghost predicate UpdatesRegister(code: seq<Instr>, st: State, r: nat, v: int)
  {
    AllWellFormed(code) &&
    forall n :: 0 <= n < 11 ==> BpfRegs(Run(code, st))[n] == if n == r then v else BpfRegs(st)[n]
  }

  /**
   * Main result. Whenever code is emitted for an instruction the interpreter
   * accepts a destination for, running it leaves all eleven BPF registers as
   * the interpreter would.
   */
  lemma AluCorrect(i: Insn, is64: bool, st: State)
    requires ValidInsn(i) && AluCode(i, is64).Code?
    ensures var r := AluResult(i, is64, BpfRegs(st)[i.dst], Operand(BpfRegs(st), i, is64));
            r.Result? && UpdatesRegister(AluCode(i, is64).code, st, i.dst, r.value)
  {
    hide AluCode, Run, AluResult, BpfRegs, Assigns, UpdatesRegister;
    AluCodeAssigns(i, is64, st);
    BpfRegAt(st, i.dst);
    var r := AluResult(i, is64, st.x[RegMap(i.dst)], Operand(BpfRegs(st), i, is64));
    AssignsRegister(AluCode(i, is64).code, st, i.dst, r.value);
  }

  lemma AssignsRegister(code: seq<Instr>, st: State, r: nat, v: nat)
    requires r <= 10 && Assigns(code, st, RegMap(r), v)
    ensures UpdatesRegister(code, st, r, v)
  {
    hide Run, BpfRegs, AllWellFormed;
    var t := Run(code, st);
    forall n | 0 <= n < 11
      ensures BpfRegs(t)[n] == if n == r then v else BpfRegs(st)[n]
    {
      BpfRegAt(t, n);
      BpfRegAt(st, n);
    }
  }
}
