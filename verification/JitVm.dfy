/**
 * The interpreter by guest addresses, as `vm::step`, `vm::jmp`, `vm::jmp32`
 * and `vm::ld` move `pc_`, and the compiled fragment next to it.
 */
module JitVm {
  import opened Leb128
  import opened ByteVectors
  import opened Words
  import opened BpfAlu
  import opened Arm
  import opened AluEmitter
  import opened Emitter
  import opened JitFlow
  import opened JitCode
  import opened JitSim

  /** What the arithmetic and the memory of an instruction do to registers and the rest (`M`). */
  datatype Vm<M> =
    | Go(pc: Word, r: Registers, m: M)
    | AtExit(pc: Word, r: Registers, m: M)
    | AtCall(pc: Word, r: Registers, m: M)
    | Fault

  /** `pc_ += slots * sizeof(bpf_insn)`. */
  function Moved(pc: Word, slots: int): Word
  {
    (pc + slots * 8) % M64
  }

  // ---------------------------------------------------------------------------
  // The control instructions, as the interpreter's switches run them
  // ---------------------------------------------------------------------------

  /** Slots a jump of class JMP or JMP32 adds to `pc_` before the loop adds one more. */
  function JumpSlots(x: Raw, r: Registers): int
    requires RegsOk(x)
  {
    if Op(x) == 0 then (if x.code % 8 == 6 then x.imm else x.off)
    else if GuestTaken(x, r) then x.off
    else 0
  }

  /** The comparisons of both switches, on operands of size `m`. */
  method Compared(op: nat, dst: nat, src: nat, m: nat) returns (taken: bool)
    ensures taken == Taken(op, dst, src, m)
  {
    hide BitAnd, Signed;
    var a, b := Signed(dst, m), Signed(src, m);
    match op {
      case 0x10 => taken := dst == src;
      case 0x20 => taken := dst > src;
      case 0x30 => taken := dst >= src;
      case 0x40 => taken := BitAnd(dst, src) != 0;
      case 0x50 => taken := dst != src;
      case 0x60 => taken := a > b;
      case 0x70 => taken := a >= b;
      case 0xa0 => taken := dst < src;
      case 0xb0 => taken := dst <= src;
      case 0xc0 => taken := a < b;
      case 0xd0 => taken := a <= b;
      case _ => taken := false;
    }
  }

  class Core {
    var pc: Word
    var reg: Registers

    /** `vm::jmp` without calls and exits. */
    method Jmp(cur: Raw)
      requires RegsOk(cur) && cur.code % 8 == 5 && Op(cur) != 0x80 && Op(cur) != 0x90
      modifies this`pc
      ensures pc == Moved(old(pc), JumpSlots(cur, reg))
    {
      hide Taken, Moved, Op;
      var src: nat := if cur.code / 8 % 2 == 1 then reg[cur.src] else cur.imm % M64;
      var dst: nat := reg[cur.dst];
      assert dst % M64 == dst && src % M64 == src;
      var taken := Op(cur) == 0x00;
      if !taken {
        taken := Compared(Op(cur), dst, src, M64);
      }
      if taken {
        pc := Moved(pc, cur.off);
      } else {
        Stays(pc);
      }
    }

    /** `vm::jmp32`: compares the low halves; its unconditional jump uses the immediate. */
    method Jmp32(cur: Raw) returns (ok: bool)
      requires RegsOk(cur) && cur.code % 8 == 6
      modifies this`pc
      ensures ok == (Op(cur) != 0x80 && Op(cur) != 0x90)
      ensures pc == if ok then Moved(old(pc), JumpSlots(cur, reg)) else old(pc)
    {
      hide Taken, Moved, Op;
      var src: nat := (if cur.code / 8 % 2 == 1 then reg[cur.src] else cur.imm) % M32;
      var dst: nat := reg[cur.dst] % M32;
      if Op(cur) == 0x00 {
        pc := Moved(pc, cur.imm);
        return true;
      }
      if Op(cur) == 0x80 || Op(cur) == 0x90 {
        return false;
      }
      var taken := Compared(Op(cur), dst, src, M32);
      if taken {
        pc := Moved(pc, cur.off);
      } else {
        Stays(pc);
      }
      return true;
    }
  }

  lemma Stays(pc: Word)
    ensures Moved(pc, 0) == pc
  {
  }

  /**
   * One round of the interpreter: fetch, execute, then `pc_ += 8`. `fetch` is
   * the instruction memory; `effect` is what a memory access or a floating
   * point operation at an address does.
   */
  function VmStep<M>(fetch: Word -> Option<Raw>, effect: (Word, Registers, M) -> (Registers, M), v: Vm<M>): Vm<M>
  {
    if !v.Go? then v
    else if fetch(v.pc).None? then Fault
    else
      var x := fetch(v.pc).value;
      if x.dst > 10 || x.src > 10 then Fault
      else
        match x.code % 8
        case 0 =>
          var second := fetch(Moved(v.pc, 1));
          if x.dst >= 10 || second.None? then Fault
          else Go(Moved(v.pc, 2), v.r[x.dst := second.value.imm % M32 * M32 + x.imm % M32], v.m)
        case 4 => VmAlu(x, false, v)
        case 7 => VmAlu(x, true, v)
        case 5 =>
          if Op(x) == 0x90 then AtExit(v.pc, v.r, v.m)
          else if Op(x) != 0x80 then Go(Moved(v.pc, JumpSlots(x, v.r) + 1), v.r, v.m)
          else if x.code / 8 % 2 == 1 || x.src <= 1 then AtCall(v.pc, v.r, v.m)
          else if x.src == 2 then VmEffect(effect, v)
          else Go(Moved(v.pc, 1), v.r, v.m)
        case 6 =>
          if Op(x) == 0x80 || Op(x) == 0x90 then Fault
          else Go(Moved(v.pc, JumpSlots(x, v.r) + 1), v.r, v.m)
        case _ => VmEffect(effect, v)
  }

  function VmEffect<M>(effect: (Word, Registers, M) -> (Registers, M), v: Vm<M>): Vm<M>
    requires v.Go?
  {
    var e := effect(v.pc, v.r, v.m);
    Go(Moved(v.pc, 1), e.0, e.1)
  }

  function VmAlu<M>(x: Raw, is64: bool, v: Vm<M>): Vm<M>
    requires v.Go? && RegsOk(x)
  {
    var i := Insn(x.code / 16 % 16 * 16, x.code / 8 % 2 == 1, x.dst, x.src, x.off, x.imm);
    var w := AluResult(i, is64, v.r[i.dst], Operand(v.r, i, is64));
    AluResultFits(i, is64, v.r[i.dst], Operand(v.r, i, is64));
    if x.dst >= 10 || w.Refused? then Fault else Go(Moved(v.pc, 1), v.r[i.dst := w.value], v.m)
  }

  function VmRun<M>(fetch: Word -> Option<Raw>, effect: (Word, Registers, M) -> (Registers, M), v: Vm<M>, n: nat): Vm<M>
  {
    if n == 0 then v else VmStep(fetch, effect, VmRun(fetch, effect, v, n - 1))
  }

  // ---------------------------------------------------------------------------
  // Index by index
  // ---------------------------------------------------------------------------

  /** The program lies at `gpa`, one instruction every eight bytes. */
  ghost predicate Loaded(prog: seq<Raw>, gpa: nat, fetch: Word -> Option<Raw>)
  {
    forall k :: 0 <= k < |prog| ==> fetch(Address(gpa, k)) == Some(prog[k])
  }

  /** The effects of the indexed interpreter are those at the addresses. */
  ghost predicate SameEffects<M(!new)>(gpa: nat, env: Env<M>, effect: (Word, Registers, M) -> (Registers, M))
  {
    forall i, r, m :: env.guest(i, r, m) == effect(Address(gpa, i), r, m)
  }

  /** The state by addresses of a state by indices. */
  function ByAddress<M>(gpa: nat, g: Guest<M>): Vm<M>
  {
    match g
    case At(i, r, m) => Go(Address(gpa, i), r, m)
    case Done(i, r, m) => AtExit(Address(gpa, i), r, m)
    case Calling(i, r, m) => AtCall(Address(gpa, i), r, m)
  }

  lemma AddressMoved(gpa: nat, i: int, k: int)
    ensures Moved(Address(gpa, i), k) == Address(gpa, i + k)
  {
    var a := gpa + 8 * i;
    var q := a / M64;
    assert a % M64 + k * 8 == (a + 8 * k) - M64 * q;
    ModShift(a + 8 * k, q);
  }

  lemma ModShift(x: int, q: int)
    ensures (x - M64 * q) % M64 == x % M64
  {
    ModUnique(x - M64 * q, M64, x / M64 - q, x % M64);
  }

  /** A jump by index goes where the jump by address goes. */
  lemma JumpByAddress(x: Raw, r: Registers, gpa: nat, i: int)
    requires RegsOk(x) && (IsJa(x) || IsBranch(x))
    ensures var t := if IsJa(x) || GuestTaken(x, r) then JumpTarget(x, i) else i + 1;
            Address(gpa, t) == Moved(Address(gpa, i), JumpSlots(x, r) + 1)
  {
    hide GuestTaken, Address, Moved;
    AddressMoved(gpa, i, JumpSlots(x, r) + 1);
  }

  /**
   * One instruction: the interpreter by indices, against which the native code
   * was compared, takes the step the interpreter by addresses takes.
   */
  lemma StepByAddress<M(!new)>(prog: seq<Raw>, gpa: nat, fetch: Word -> Option<Raw>, env: Env<M>,
                               effect: (Word, Registers, M) -> (Registers, M), i: nat, r: Registers, m: M)
    requires Loaded(prog, gpa, fetch) && SameEffects(gpa, env, effect) && i < |prog| && Accepted(prog[i])
    requires IsWide(prog[i]) ==> i + 1 < |prog|
    ensures VmStep(fetch, effect, Go(Address(gpa, i), r, m)) == ByAddress(gpa, GuestStep(prog, env, At(i, r, m)))
  {
    hide GuestTaken, Address, Accepted, AluResult, Operand, JumpSlots, Moved, VmAlu, GuestAlu;
    var x := prog[i];
    assert fetch(Address(gpa, i)) == Some(x);
    AddressMoved(gpa, i, 1);
    AddressMoved(gpa, i, 2);
    AcceptedKinds(x);
    if IsJa(x) || IsBranch(x) {
      JumpByAddress(x, r, gpa, i);
    } else if IsAlu(x) {
      AluByAddress(x, Go(Address(gpa, i), r, m));
    } else if IsWide(x) {
      assert fetch(Address(gpa, i + 1)) == Some(prog[i + 1]);
    } else if IsEffect(x) {
      assert env.guest(i, r, m) == effect(Address(gpa, i), r, m);
    }
  }

  lemma AcceptedKinds(x: Raw)
    requires Accepted(x)
    ensures RegsOk(x) && (IsJa(x) || IsBranch(x) || IsAlu(x) || IsWide(x) || IsEffect(x) || IsExit(x) || IsCallOut(x))
    ensures IsBranch(x) ==> Op(x) != 0x80 && Op(x) != 0x90
    ensures IsWide(x) ==> x.dst < 10
  {
    hide AluCode;
  }

  lemma AluByAddress<M>(x: Raw, v: Vm<M>)
    requires v.Go? && Accepted(x) && IsAlu(x)
    ensures VmAlu(x, Is64(x), v) == Go(Moved(v.pc, 1), GuestAlu(x, v.r), v.m)
  {
    hide AluResult, Operand, Moved;
    HasResult(InsnOf(x), Is64(x), v.r[x.dst], Operand(v.r, InsnOf(x), Is64(x)));
  }

  /** What has code has a result. */
  lemma HasResult(i: Insn, is64: bool, d: nat, s: nat)
    requires ValidInsn(i) && AluCode(i, is64).Code? && d < M64 && s < Size(is64)
    ensures AluResult(i, is64, d, s).Result?
  {
    hide MovImm, LoadBpf, StoreBpf, RegisterOp, ImmediateOp, ExtendOp, LowHalf, BitAnd, BitOr, BitXor, ByteSwap, Quotient, Remainder,
      ShiftLeft, ShiftRight, ShiftRightSigned, MoveResult, IsNoOp, MoveCode;
    if i.op == END {
      assert i.imm == 16 || i.imm == 32 || i.imm == 64;
    }
  }

  // ---------------------------------------------------------------------------
  // The fragment next to the interpreter by addresses
  // ---------------------------------------------------------------------------

  /** The native state that stands for an interpreter state. */
  ghost predicate Follows<M>(prog: seq<Raw>, plan: Plan, gpa: nat, h: Host<M>, v: Vm<M>)
    requires Shaped(prog, plan)
  {
    !h.Lost? && !v.Fault? && BpfRegs(h.st) == v.r && h.m == v.m &&
    match v
    case AtExit(pc, _, _) => h.Exited? && pc == Address(gpa, h.i)
    case AtCall(pc, _, _) => h.Called? && pc == Address(gpa, h.i)
    case Go(pc, _, _) =>
      (h.Left? && h.pc == pc) ||
      (h.Running? && exists j :: InCode(prog, plan, gpa, j, h.pos) && pc == Address(gpa, j))
  }

  ghost predicate InCode(prog: seq<Raw>, plan: Plan, gpa: nat, j: int, pos: nat)
    requires Shaped(prog, plan)
  {
    0 <= j < plan.size && plan.live[j] && pos == Offset(prog, plan, gpa, j)
  }

  lemma MatchesFollows<M>(prog: seq<Raw>, plan: Plan, gpa: nat, h: Host<M>, g: Guest<M>)
    requires Shaped(prog, plan) && Matches(prog, plan, gpa, h, g)
    ensures Follows(prog, plan, gpa, h, ByAddress(gpa, g))
  {
    hide Offset, Address, BpfRegs;
    if g.At? && h.Running? {
      assert InCode(prog, plan, gpa, g.i, h.pos);
    }
  }

  /**
   * Main result by addresses. The program lies in guest memory at `gpa` and
   * pc_ is at an instruction that has code. After any number `n` of interpreter
   * rounds the native code can be run to a state that stands for the
   * interpreter's after `p <= n` rounds, `p < n` only when it has left the
   * fragment or is at a call, with pc_, registers and memory those of the
   * interpreter at that point.
   */
  lemma {:induction false} FragmentFollowsVm<M(!new)>(
    prog: seq<Raw>, plan: Plan, gpa: nat, code: seq<Native>, fetch: Word -> Option<Raw>, env: Env<M>,
    effect: (Word, Registers, M) -> (Registers, M), i: nat, pc: nat, st: State, m: M, n: nat)
    returns (k: nat, p: nat)
    requires Compiled(prog, plan, gpa, code) && Faithful(prog, plan, env) && i < plan.size && plan.live[i]
    requires Loaded(prog, gpa, fetch) && SameEffects(gpa, env, effect)
    ensures p <= n
    ensures var h := HostRun(code, gpa, env, Running(Offset(prog, plan, gpa, i), pc, st, m), k);
            Follows(prog, plan, gpa, h, VmRun(fetch, effect, Go(Address(gpa, i), BpfRegs(st), m), p)) && (p == n || !h.Running?)
  {
    hide Discovered, Offset, HostStep, GuestStep, VmStep, Faithful, Linked, BpfRegs, AllAccepted, TargetsLive, Address, Loaded, SameEffects;
    var start := Running(Offset(prog, plan, gpa, i), pc, st, m);
    if n == 0 {
      assert InCode(prog, plan, gpa, i, start.pos);
      return 0, 0;
    }
    k, p := FragmentFollowsVm(prog, plan, gpa, code, fetch, env, effect, i, pc, st, m, n - 1);
    var h := HostRun(code, gpa, env, start, k);
    var v := VmRun(fetch, effect, Go(Address(gpa, i), BpfRegs(st), m), p);
    if h.Running? {
      var j :| InCode(prog, plan, gpa, j, h.pos) && v.pc == Address(gpa, j);
      var q := StepSimulates(prog, plan, gpa, code, env, j, h.pc, h.st, h.m);
      HostRunAdd(code, gpa, env, start, k, q);
      k := k + q;
      if !(plan.head[j] && env.stop(j, h.st, h.m)) {
        FragmentShape(prog, plan, gpa, code, env, j);
        StepByAddress(prog, gpa, fetch, env, effect, j, v.r, v.m);
        MatchesFollows(prog, plan, gpa, HostRun(code, gpa, env, start, k), GuestStep(prog, env, At(j, v.r, v.m)));
        p := n;
      }
    }
  }

  lemma FragmentShape<M(!new)>(prog: seq<Raw>, plan: Plan, gpa: nat, code: seq<Native>, env: Env<M>, j: nat)
    requires Compiled(prog, plan, gpa, code) && Faithful(prog, plan, env) && j < plan.size && plan.live[j]
    ensures j < |prog| && Accepted(prog[j]) && (IsWide(prog[j]) ==> j + 1 < |prog|)
  {
    hide Accepted, Offset, Linked, NoWrongExtension, EffectsAgree;
    CompiledFacts(prog, plan, gpa, code, j);
    assert Live(prog, j);
  }

  /** Where the interpreter can go from an instruction of the program, the search for reachable code went. */
  lemma VmMovesAlongEdges<M(!new)>(prog: seq<Raw>, gpa: nat, fetch: Word -> Option<Raw>, env: Env<M>,
                                   effect: (Word, Registers, M) -> (Registers, M), i: nat, r: Registers, m: M, j: nat)
    requires Loaded(prog, gpa, fetch) && SameEffects(gpa, env, effect) && i < |prog| && Accepted(prog[i])
    requires IsWide(prog[i]) ==> i + 1 < |prog|
    requires j < |prog| < 0x8000_0000
    requires var v := VmStep(fetch, effect, Go(Address(gpa, i), r, m)); v.Go? && v.pc == Address(gpa, j)
    ensures Edge(prog, i, j)
  {
    hide VmStep, GuestTaken, Address, Accepted, GuestAlu, WideValue;
    StepByAddress(prog, gpa, fetch, env, effect, i, r, m);
    var g := GuestStep(prog, env, At(i, r, m));
    AcceptedKinds(prog[i]);
    assert g.At? && -0x8000_0000 <= g.i - i <= 0x8000_0000;
    AddressesDiffer(gpa, g.i, j);
    StepsAlongEdges(prog, env, i, r, m);
  }

  lemma AddressesDiffer(gpa: nat, a: int, b: int)
    requires Address(gpa, a) == Address(gpa, b) && -0x1_8000_0000 <= a - b <= 0x1_8000_0000
    ensures a == b
  {
    var x, y := gpa + 8 * a, gpa + 8 * b;
    var d := x / M64 - y / M64;
    assert 8 * (a - b) == M64 * d;
    assert d >= 1 ==> M64 * d >= M64;
    assert d <= -1 ==> M64 * d + M64 <= 0;
  }

  // ---------------------------------------------------------------------------
  // Opcodes (section 3 and Appendix A of RFC 9669)
  // ---------------------------------------------------------------------------

  /** What the class, operation and source bits make of the opcode byte. */
  lemma Opcodes(x: Raw)
    ensures x.code == Op(x) + (if IsX(x) then 8 else 0) + Class(x) && Op(x) % 16 == 0 && Class(x) < 8
    ensures IsWide(x) <==> x.code == 0x18
    ensures IsJa(x) <==> x.code in {0x05, 0x0d, 0x06, 0x0e}
    ensures IsCall(x) <==> x.code in {0x85, 0x8d}
    ensures IsExit(x) <==> x.code in {0x95, 0x9d}
    ensures IsBranch(x) <==> (x.code % 8 == 5 || x.code % 8 == 6) && x.code !in {0x05, 0x0d, 0x06, 0x0e, 0x85, 0x8d, 0x95, 0x9d}
    ensures IsAlu(x) <==> x.code % 8 == 4 || x.code % 8 == 7
    ensures IsCallOut(x) <==> x.code == 0x8d || (x.code == 0x85 && x.src <= 1)
  {
    var hi, lo := x.code / 16, x.code % 16;
    assert x.code == 16 * hi + lo && hi % 16 == hi;
    assert x.code / 8 == 2 * hi + lo / 8;
    assert x.code % 8 == lo % 8;
    assert x.code / 32 == hi / 2;
  }

  /** The memory instructions that are compiled, opcode by opcode. */
  lemma CompiledAccesses(x: Raw)
    requires x.code % 8 == 1 || x.code % 8 == 2 || x.code % 8 == 3
    ensures Accepted(x) <==>
      x.dst <= 10 && x.src <= 10 &&
      ((x.code in {0x61, 0x69, 0x71, 0x79, 0x81, 0x89, 0x91} && x.dst < 10) || x.code in {0x62, 0x6a, 0x72, 0x7a} ||
       x.code in {0x63, 0x6b, 0x73, 0x7b} || (x.code in {0xc3, 0xdb} && CompiledAtomic(x.imm)))
  {
    hide KnownAtomic, CompiledAtomic;
    AtomicsAre(x.imm);
    var hi, lo := x.code / 8, x.code % 8;
    assert x.code == 8 * hi + lo;
    assert x.code / 32 == hi / 4;
  }

  /** Without fetch: add, or, and, xor; with fetch, in the low byte: the same; exchange and compare-exchange. */
  predicate CompiledAtomic(imm: int)
  {
    imm in {0, 64, 80, 160, 225, 241} || (exists k :: 0 <= k < 4 && (imm - [1, 65, 81, 161][k]) % 256 == 0)
  }

  lemma AtomicsAre(imm: int)
    ensures KnownAtomic(imm) <==> CompiledAtomic(imm)
  {
    var f := [1, 65, 81, 161];
    assert forall k :: 0 <= k < 4 ==> ((imm - f[k]) % 256 == 0 <==> imm % 256 == f[k]);
    if imm % 256 == 1 {
      assert (imm - f[0]) % 256 == 0;
    } else if imm % 256 == 65 {
      assert (imm - f[1]) % 256 == 0;
    } else if imm % 256 == 81 {
      assert (imm - f[2]) % 256 == 0;
    } else if imm % 256 == 161 {
      assert (imm - f[3]) % 256 == 0;
    }
  }

  /** A jump to an instruction of the fragment stays in the native code; any other one leaves with the target in pc_. */
  lemma JumpsInside(prog: seq<Raw>, plan: Plan, gpa: nat, code: seq<Native>, i: nat)
    requires Compiled(prog, plan, gpa, code) && i < plan.size && plan.live[i] && (IsJa(prog[i]) || IsBranch(prog[i]))
    ensures var t := JumpTarget(prog[i], i);
            var b := Block(prog, i, plan.size, gpa, Dest(prog, plan, gpa, i));
            if 0 <= t < plan.size then plan.live[t] && b[|b| - 1] == B(Offset(prog, plan, gpa, t)) && forall k :: 0 <= k < |b| ==> !b[k].SetPc?
            else |b| >= 2 && b[|b| - 1] == B(FLUSH) && b[|b| - 2] == SetPc(Address(gpa, t))
  {
    hide Offset, Linked, Accepted, Address;
    CompiledFacts(prog, plan, gpa, code, i);
  }

  /** Where control can go from an instruction, by its opcode. */
  lemma Successors(prog: seq<Raw>, i: nat, j: nat)
    requires i < |prog| && j < |prog|
    ensures var x := prog[i];
            Edge(prog, i, j) <==>
            if x.code in {0x05, 0x0d} then j == i + 1 + x.off
            else if x.code in {0x06, 0x0e} then j == i + 1 + x.imm
            else if x.code in {0x95, 0x9d} then false
            else if x.code == 0x18 then j == i + 2
            else j == i + 1 || (x.code % 8 in {5, 6} && x.code !in {0x85, 0x8d} && j == i + 1 + x.off)
  {
    hide IsWide, IsJa, IsExit, IsCall, IsX, IsAlu, IsCallOut, Op;
    Opcodes(prog[i]);
    if IsJa(prog[i]) { JaClass(prog[i]); }
  }

  lemma JaClass(x: Raw)
    requires IsJa(x)
    ensures Class(x) == CLS_JMP32 <==> x.code in {0x06, 0x0e}
  {
    Opcodes(x);
  }

  /** The rest of what is compiled: arithmetic with code and not into r10, lddw, jumps, exits, calls of the three kinds. */
  lemma CompiledOthers(x: Raw)
    requires x.code % 8 == 0 || x.code % 8 >= 4
    ensures Accepted(x) <==>
      x.dst <= 10 && x.src <= 10 &&
      if x.code % 8 == 4 || x.code % 8 == 7 then x.dst < 10 && AluCode(InsnOf(x), x.code % 8 == 7).Code?
      else if x.code % 8 == 0 then x.code == 0x18 && x.dst < 10
      else if x.code in {0x85, 0x8d} then x.code == 0x8d || x.src <= 2
      else x.code in {0x05, 0x0d, 0x06, 0x0e, 0x95, 0x9d} || IsCompare(Op(x))
  {
    hide AluCode, IsCompare, Op, IsX;
    Opcodes(x);
  }

  /** The arithmetic round is the one the interpreter's own methods are proved to take, refusals included. */
  lemma AluRound<M>(x: Raw, is64: bool, v: Vm<M>)
    requires v.Go? && RegsOk(x)
    ensures var t := VmAlu(x, is64, v);
            (t.Fault? || (t.Go? && t.pc == (v.pc + 8) % M64 && t.m == v.m)) &&
            Computed(v.r, InsnOf(x), is64, t.Go?, if t.Go? then t.r else v.r)
  {
    hide AluResult, Operand;
  }
}
