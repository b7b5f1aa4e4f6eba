/**
 * The AArch64 instructions the emitter uses for arithmetic, with their
 * architectural meaning on a 31-register file and the NZCV flags.
 */
module Arm {
  import opened Leb128
  import opened Words
  import opened BpfAlu

  /** Register number 31 reads as zero in the instructions below. */
  datatype Instr =
    | MovZ(d: nat, imm: nat, hw: nat, is64: bool)
    | MovN(d: nat, imm: nat, hw: nat, is64: bool)
    | MovK(d: nat, imm: nat, hw: nat, is64: bool)
    | Add(d: nat, n: nat, m: nat, is64: bool)
    | Sub(d: nat, n: nat, m: nat, is64: bool)
    | And(d: nat, n: nat, m: nat, is64: bool)
    | Orr(d: nat, n: nat, m: nat, is64: bool)
    | Eor(d: nat, n: nat, m: nat, is64: bool)
    | Mul(d: nat, n: nat, m: nat, is64: bool)
    | MSub(d: nat, n: nat, m: nat, a: nat, is64: bool)
    | UDiv(d: nat, n: nat, m: nat, is64: bool)
    | SDiv(d: nat, n: nat, m: nat, is64: bool)
    | LslV(d: nat, n: nat, m: nat, is64: bool)
    | LsrV(d: nat, n: nat, m: nat, is64: bool)
    | AsrV(d: nat, n: nat, m: nat, is64: bool)
    | AddI(d: nat, n: nat, imm: nat, is64: bool)
    | SubI(d: nat, n: nat, imm: nat, is64: bool)
    | Ubfm(d: nat, n: nat, immr: nat, imms: nat, is64: bool)
    | Sbfm(d: nat, n: nat, immr: nat, imms: nat, is64: bool)
    | Rev16(d: nat, n: nat, is64: bool)
    | Rev32(d: nat, n: nat)
    | Rev64(d: nat, n: nat)
    | Cmp(n: nat, m: nat, is64: bool)
    | CmpI(n: nat, imm: nat, is64: bool)
    | Tst(n: nat, m: nat, is64: bool)

  type File = r: seq<Word> | |r| == 31 witness seq(31, _ => 0)

  datatype State = State(x: File, n: bool, z: bool, c: bool, v: bool)

  function Get(st: State, r: nat): (v: Word)
    requires r <= 31
  {
    if r == 31 then 0 else st.x[r]
  }

  /** A W register is the low half of the X register. */
  function Read(st: State, r: nat, is64: bool): (v: nat)
    requires r <= 31
    ensures v < Size(is64)
  {
    Get(st, r) % Size(is64)
  }

  /** Writing a W register clears the high half. */
  function Put(st: State, r: nat, v: Word): State
    requires r < 31
  {
    st.(x := st.x[r := v])
  }

  function P16(hw: nat): nat
  {
    if hw == 0 then 1 else if hw == 1 then 0x1_0000 else if hw == 2 then M32 else 0x1_0000_0000_0000
  }

  function Chunk(v: nat, hw: nat): (c: nat)
    ensures c < 0x1_0000
  {
    v / P16(hw) % 0x1_0000
  }

  lemma ChunkBelow(x: nat, hw: nat)
    ensures Chunk(x, hw) * P16(hw) <= x
  {
    var p := P16(hw);
    assert Chunk(x, hw) <= x / p;
    assert Chunk(x, hw) * p <= x / p * p;
  }

  /** MOVK: one half-word replaced. */
  function PutChunk(x: nat, hw: nat, imm: nat): nat
  {
    ChunkBelow(x, hw);
    x - Chunk(x, hw) * P16(hw) + imm * P16(hw)
  }

  /** MOVN: the complement of one half-word in place. */
  function Inverted(imm: nat, hw: nat, is64: bool): nat
    requires imm < 0x1_0000 && hw < (if is64 then 4 else 2)
  {
    assert imm * P16(hw) < Size(is64) by { assert imm * P16(hw) <= 0xFFFF * P16(hw); }
    Size(is64) - 1 - imm * P16(hw)
  }

  /** SDIV: truncating, and zero for a zero divisor. */
  function SignedQuotient(x: nat, s: nat, m: nat): nat
    requires s < m
  {
    if s == 0 then 0 else TruncDiv(Signed(x, m), Signed(s, m)) % m
  }

  /** UBFM: extract a field downwards or insert it upwards. */
  function UnsignedField(x: nat, immr: nat, imms: nat, bits: nat): nat
  {
    if imms >= immr then x / Pow2(immr) % Pow2(imms - immr + 1)
    else x % Pow2(imms + 1) * Pow2(if bits >= immr then bits - immr else 0)
  }

  /** SBFM with immr <= imms: extract a field and sign-extend it. */
  function SignedField(x: nat, immr: nat, imms: nat, m: nat): nat
    requires immr <= imms && m > 0
  {
    var w := Pow2(imms - immr + 1);
    Signed(x / Pow2(immr) % w, w) % m
  }

  predicate WellFormed(i: Instr)
  {
    match i
    case MovZ(d, imm, hw, is64) => d < 31 && imm < 0x1_0000 && hw < (if is64 then 4 else 2)
    case MovN(d, imm, hw, is64) => d < 31 && imm < 0x1_0000 && hw < (if is64 then 4 else 2)
    case MovK(d, imm, hw, is64) => d < 31 && imm < 0x1_0000 && hw < (if is64 then 4 else 2)
    case MSub(d, n, m, a, _) => d < 31 && n <= 31 && m <= 31 && a <= 31
    case AddI(d, n, imm, _) => d < 31 && n < 31 && imm < 4096
    case SubI(d, n, imm, _) => d < 31 && n < 31 && imm < 4096
    case Ubfm(d, n, immr, imms, is64) => d < 31 && n <= 31 && immr < Bits(is64) && imms < Bits(is64)
    case Sbfm(d, n, immr, imms, is64) => d < 31 && n <= 31 && immr <= imms < Bits(is64)
    case Rev16(d, n, _) => d < 31 && n <= 31
    case Rev32(d, n) => d < 31 && n <= 31
    case Rev64(d, n) => d < 31 && n <= 31
    case Cmp(n, m, _) => n <= 31 && m <= 31
    case CmpI(n, imm, _) => n < 31 && imm < 4096
    case Tst(n, m, _) => n <= 31 && m <= 31
    case _ => i.d < 31 && i.n <= 31 && i.m <= 31
  }

  /** The value an instruction with a destination computes. */
  function Value(i: Instr, st: State): int
    requires WellFormed(i) && !i.Cmp? && !i.CmpI? && !i.Tst?
  {
    match i
    case MovZ(_, imm, hw, _) => imm * P16(hw)
    case MovN(_, imm, hw, is64) => Inverted(imm, hw, is64)
    case MovK(d, imm, hw, is64) => PutChunk(Read(st, d, is64), hw, imm)
    case Add(_, n, m, b) => (Read(st, n, b) + Read(st, m, b)) % Size(b)
    case Sub(_, n, m, b) => (Read(st, n, b) - Read(st, m, b)) % Size(b)
    case And(_, n, m, b) => BitAnd(Read(st, n, b), Read(st, m, b))
    case Orr(_, n, m, b) => BitOr(Read(st, n, b), Read(st, m, b))
    case Eor(_, n, m, b) => BitXor(Read(st, n, b), Read(st, m, b))
    case Mul(_, n, m, b) => Read(st, n, b) * Read(st, m, b) % Size(b)
    case MSub(_, n, m, a, b) => (Read(st, a, b) - Read(st, n, b) * Read(st, m, b)) % Size(b)
    case UDiv(_, n, m, b) => var s := Read(st, m, b); if s == 0 then 0 else Read(st, n, b) / s
    case SDiv(_, n, m, b) => SignedQuotient(Read(st, n, b), Read(st, m, b), Size(b))
    case LslV(_, n, m, b) => ShiftLeft(Read(st, n, b), Read(st, m, b) % Bits(b), Size(b))
    case LsrV(_, n, m, b) => ShiftRight(Read(st, n, b), Read(st, m, b) % Bits(b))
    case AsrV(_, n, m, b) => ShiftRightSigned(Read(st, n, b), Read(st, m, b) % Bits(b), Size(b))
    case AddI(_, n, imm, b) => (Read(st, n, b) + imm) % Size(b)
    case SubI(_, n, imm, b) => (Read(st, n, b) - imm) % Size(b)
    case Ubfm(_, n, immr, imms, b) => UnsignedField(Read(st, n, b), immr, imms, Bits(b)) % Size(b)
    case Sbfm(_, n, immr, imms, b) => SignedField(Read(st, n, b), immr, imms, Size(b))
    case Rev16(_, n, b) => HalfSwap(if b then 4 else 2, Read(st, n, b)) % Size(b)
    case Rev32(_, n) => ByteSwap(4, Read(st, n, false))
    case Rev64(_, n) => ByteSwap(8, Read(st, n, true))
  }

  /** Flags of a subtraction. */
  function Compare(st: State, a: nat, b: nat, m: nat): State
    requires m > 0
  {
    var d := (a - b) % m;
    st.(n := d >= m / 2, z := d == 0, c := a >= b, v := Signed(a, m) - Signed(b, m) != Signed(d, m))
  }

  function Step(i: Instr, st: State): State
    requires WellFormed(i)
  {
    match i
    case Cmp(n, m, b) => Compare(st, Read(st, n, b), Read(st, m, b), Size(b))
    case CmpI(n, imm, b) => Compare(st, Read(st, n, b), imm, Size(b))
    case Tst(n, m, b) =>
      var d := BitAnd(Read(st, n, b), Read(st, m, b));
      st.(n := d >= Size(b) / 2, z := d == 0, c := false, v := false)
    case _ => Put(st, i.d, Value(i, st) % M64)
  }

  lemma StepPut(i: Instr, st: State)
    requires WellFormed(i) && !i.Cmp? && !i.CmpI? && !i.Tst?
    ensures Step(i, st) == Put(st, i.d, Value(i, st) % M64)
  {
  }

  lemma Read64(st: State, r: nat)
    requires r < 31
    ensures Read(st, r, true) == st.x[r]
  {
  }

  /** Sums and differences of X registers. */
  lemma SumValues(d: nat, n: nat, m: nat, imm: nat, st: State)
    requires d < 31 && n < 31 && m < 31 && imm < 4096
    ensures WellFormed(Add(d, n, m, true)) && Value(Add(d, n, m, true), st) == (st.x[n] + st.x[m]) % M64
    ensures WellFormed(Sub(d, n, m, true)) && Value(Sub(d, n, m, true), st) == (st.x[n] - st.x[m]) % M64
    ensures WellFormed(AddI(d, n, imm, true)) && Value(AddI(d, n, imm, true), st) == (st.x[n] + imm) % M64
    ensures WellFormed(SubI(d, n, imm, true)) && Value(SubI(d, n, imm, true), st) == (st.x[n] - imm) % M64
  {
    hide Read;
    Read64(st, n);
    Read64(st, m);
  }

  lemma MovValues(d: nat, imm: nat, hw: nat, is64: bool, st: State)
    requires d < 31 && imm < 0x1_0000 && hw < (if is64 then 4 else 2)
    ensures Value(MovZ(d, imm, hw, is64), st) == imm * P16(hw)
    ensures Value(MovN(d, imm, hw, is64), st) == Size(is64) - 1 - imm * P16(hw)
    ensures var x := Read(st, d, is64);
            Value(MovK(d, imm, hw, is64), st) == x - Chunk(x, hw) * P16(hw) + imm * P16(hw)
  {
  }

  predicate AllWellFormed(code: seq<Instr>)
  {
    forall k :: 0 <= k < |code| ==> WellFormed(code[k])
  }

  function Run(code: seq<Instr>, st: State): State
    requires AllWellFormed(code)
    decreases |code|
  {
    if code == [] then st else Run(code[1..], Step(code[0], st))
  }

  lemma {:induction false} RunAppend(a: seq<Instr>, b: seq<Instr>, st: State)
    requires AllWellFormed(a) && AllWellFormed(b)
    ensures AllWellFormed(a + b) && Run(a + b, st) == Run(b, Run(a, st))
    decreases |a|
  {
    hide WellFormed, Step;
    if a == [] {
      assert a + b == b;
    } else {
      RunAppend(a[1..], b, Step(a[0], st));
      assert (a + b)[1..] == a[1..] + b;
    }
  }

  lemma RunOne(i: Instr, st: State)
    requires WellFormed(i)
    ensures AllWellFormed([i]) && Run([i], st) == Step(i, st)
  {
    hide WellFormed, Step;
    assert [i][1..] == [];
  }

  /** ORR with the zero register is a move. */
  lemma MoveStep(d: nat, s: nat, is64: bool, st: State)
    requires d < 31 && s <= 31
    ensures Step(Orr(d, 31, s, is64), st) == Put(st, d, Read(st, s, is64))
  {
    hide BitAnd, BitXor, ByteSwap, HalfSwap, UnsignedField, SignedField, ShiftLeft, ShiftRight, ShiftRightSigned;
    assert Read(st, 31, is64) == 0;
  }

  // ---------------------------------------------------------------------------
  // Condition codes
  // ---------------------------------------------------------------------------

  datatype Cond = EQ | NE | CS | CC | MI | PL | VS | VC | HI | LS | GE | LT | GT | LE

  predicate Holds(c: Cond, st: State)
  {
    match c
    case EQ => st.z
    case NE => !st.z
    case CS => st.c
    case CC => !st.c
    case MI => st.n
    case PL => !st.n
    case VS => st.v
    case VC => !st.v
    case HI => st.c && !st.z
    case LS => !(st.c && !st.z)
    case GE => st.n == st.v
    case LT => st.n != st.v
    case GT => !st.z && st.n == st.v
    case LE => !(!st.z && st.n == st.v)
  }

  /** After a comparison the conditions are the usual orders, unsigned and signed. */
  lemma CompareMeans(st: State, a: nat, b: nat, is64: bool)
    requires a < Size(is64) && b < Size(is64)
    ensures var m := Size(is64);
            var f := Compare(st, a, b, m);
            var x, y := Signed(a, m), Signed(b, m);
            Holds(EQ, f) == (a == b) && Holds(NE, f) == (a != b) &&
            Holds(HI, f) == (a > b) && Holds(CS, f) == (a >= b) &&
            Holds(CC, f) == (a < b) && Holds(LS, f) == (a <= b) &&
            Holds(GT, f) == (x > y) && Holds(GE, f) == (x >= y) &&
            Holds(LT, f) == (x < y) && Holds(LE, f) == (x <= y)
  {
    var m := Size(is64);
    var d := (a - b) % m;
    assert a >= b ==> d == a - b;
    assert a < b ==> d == a - b + m;
  }
}
