/**
 * The call and exit sequences the JIT emits inline instead of calling
 * `push_frame` and `pop_frame`, executed instruction by instruction.
 */
module InlineFrame {
  import opened Leb128
  import opened ByteVectors
  import opened Words
  import opened BpfAlu
  import opened Arm
  import opened AluEmitter
  import opened Frames

  const X15: nat := 15
  const X19: nat := 19
  const X20: nat := 20
  const X21: nat := 21
  const X22: nat := 22
  const X23: nat := 23

  /**
   * Emitted units: arithmetic; address lookups (the address in a register,
   * the host pointer in X0, other scratch registers lost); loads and stores
   * through X0; accesses to the vm object; exits.
   */
  datatype Unit =
    | Alu(i: Instr)
    | Probe(r: nat, n: nat)
    | Ldr(t: nat, off: nat)
    | Str(t: nat, off: nat)
    | PutScratch(t: nat)
    | GetScratch(t: nat)
    | PutReg(k: nat, t: nat)
    | PutPc(t: nat)
    | ExitIf(c: Cond, why: Status)
    | ExitIfZero(t: nat, why: Status)
    | ExitUnlessZero(t: nat, why: Status)

  datatype Status = Running | Aborted | Overflow | Bottom | Helper

  /** `st` are the host registers, `vm` the vm object (register file in memory, pc, stack bytes). */
  datatype Host = Host(st: State, vm: Machine, scratch: Word, status: Status)

  predicate UnitOk(u: Unit)
  {
    match u
    case Alu(i) => WellFormed(i)
    case Probe(r, _) => r < 31
    case Ldr(t, _) => t < 31
    case Str(t, _) => t < 31
    case PutScratch(t) => t < 31
    case GetScratch(t) => t < 31
    case PutReg(k, t) => k <= 10 && t < 31
    case PutPc(t) => t < 31
    case ExitIf(_, _) => true
    case ExitIfZero(t, _) => t < 31
    case ExitUnlessZero(t, _) => t < 31
  }

  /** `junk` is what a lookup leaves in X1, X2 and X15. */
  function Exec(u: Unit, h: Host, junk: Word): Host
    requires UnitOk(u)
  {
    if h.status != Running then h
    else match u
      case Alu(i) => h.(st := Step(i, h.st))
      case Probe(r, n) =>
        if !Mapped(h.st.x[r], n) then h.(status := Aborted)
        else h.(st := Put(Put(Put(Put(h.st, X0, h.st.x[r]), X1, junk), X2, junk), X15, junk))
      case Ldr(t, off) =>
        if Mapped(h.st.x[X0] + off, 8) then h.(st := Put(h.st, t, Load(h.vm.mem, h.st.x[X0] + off)))
        else h.(status := Aborted)
      case Str(t, off) =>
        if Mapped(h.st.x[X0] + off, 8) then h.(vm := h.vm.(mem := Store(h.vm.mem, h.st.x[X0] + off, h.st.x[t])))
        else h.(status := Aborted)
      case PutScratch(t) => h.(scratch := h.st.x[t])
      case GetScratch(t) => h.(st := Put(h.st, t, h.scratch))
      case PutReg(k, t) => h.(vm := h.vm.(reg := h.vm.reg[k := h.st.x[t]]))
      case PutPc(t) => h.(vm := h.vm.(pc := h.st.x[t]))
      case ExitIf(c, why) => if Holds(c, h.st) then h.(status := why) else h
      case ExitIfZero(t, why) => if h.st.x[t] == 0 then h.(status := why) else h
      case ExitUnlessZero(t, why) => if h.st.x[t] != 0 then h.(status := why) else h
  }

  predicate AllOk(us: seq<Unit>)
  {
    forall k :: 0 <= k < |us| ==> UnitOk(us[k])
  }

  function ExecAll(us: seq<Unit>, h: Host, junk: Word): Host
    requires AllOk(us)
    decreases |us|
  {
    if us == [] then h else ExecAll(us[1..], Exec(us[0], h, junk), junk)
  }

  lemma {:induction false} ExecAppend(us: seq<Unit>, vs: seq<Unit>, h: Host, junk: Word)
    requires AllOk(us) && AllOk(vs)
    ensures AllOk(us + vs) && ExecAll(us + vs, h, junk) == ExecAll(vs, ExecAll(us, h, junk), junk)
    decreases |us|
  {
    hide Exec, UnitOk;
    if us == [] {
      assert us + vs == vs;
    } else {
      ExecAppend(us[1..], vs, Exec(us[0], h, junk), junk);
      assert (us + vs)[1..] == us[1..] + vs;
    }
  }

  lemma ExecOne(u: Unit, h: Host, junk: Word)
    requires UnitOk(u)
    ensures AllOk([u]) && ExecAll([u], h, junk) == Exec(u, h, junk)
  {
    hide Exec, UnitOk;
    assert [u][1..] == [];
  }

  lemma {:induction false} ExecStopped(us: seq<Unit>, h: Host, junk: Word)
    requires AllOk(us) && h.status != Running
    ensures ExecAll(us, h, junk) == h
    decreases |us|
  {
    hide UnitOk;
    if us != [] {
      ExecStopped(us[1..], h, junk);
    }
  }

  function Lift(code: seq<Instr>): (us: seq<Unit>)
    ensures |us| == |code| && forall k :: 0 <= k < |us| ==> us[k] == Alu(code[k])
  {
    seq(|code|, k requires 0 <= k < |code| => Alu(code[k]))
  }

  lemma {:induction false} ExecLift(code: seq<Instr>, h: Host, junk: Word)
    requires AllWellFormed(code) && h.status == Running
    ensures AllOk(Lift(code)) && ExecAll(Lift(code), h, junk) == h.(st := Run(code, h.st))
    decreases |code|
  {
    hide WellFormed, Step;
    if code != [] {
      ExecLift(code[1..], h.(st := Step(code[0], h.st)), junk);
      assert Lift(code)[1..] == Lift(code[1..]);
    }
  }

  // ---------------------------------------------------------------------------
  // Call
  // ---------------------------------------------------------------------------

  const MASK24: nat := 0xFF_FFFF

  /** Decoding the caller's header in X1 and computing the new frame address in X0. */
  function FrameArithmetic(): seq<Instr>
  {
    [LsrImm(X15, X1, 24, true)] +
    (MovImm(X2, MASK24, true) + [And(X1, X1, X2, true)]) +
    (MovImm(X2, MASK24, true) + [And(X15, X15, X2, true)]) +
    [Add(X1, X1, X15, true), Orr(X0, ZR, X23, true), Sub(X0, X0, X1, true), SubI(X0, X0, 64, true)] +
    (MovImm(X2, STACK_BASE, true) + [Cmp(X0, X2, true)])
  }

  function PushHead(): seq<Unit>
  {
    [Probe(X23, 8), Ldr(X1, 0)] + Lift(FrameArithmetic()) + [ExitIf(CC, Overflow), PutScratch(X0), Probe(X0, 64)]
  }

  function PushTail(ret: nat, frame: nat): seq<Unit>
  {
    Lift(MovImm(X1, frame, true)) + [Str(X1, 0), Str(X23, 8)] +
    (Lift(MovImm(X1, ret, true)) + [Str(X1, 16), Str(X19, 24), Str(X20, 32), Str(X21, 40), Str(X22, 48)]) +
    [GetScratch(X23), PutReg(10, X23)]
  }

  /** `emit_push_frame_inline` for a direct call. */
  function PushInline(ret: nat, frame: nat): seq<Unit>
  {
    PushHead() + PushTail(ret, frame)
  }

  /** The registers hold the guest's; the vm object has the current r10. */
  ghost predicate Live(h: Host)
  {
    h.status == Running && h.vm.reg[10] == h.st.x[X23]
  }

  /** The guest as the interpreter would see it: live registers, same memory. */
  function Guest(h: Host): Machine
  {
    h.vm.(reg := BpfRegs(h.st))
  }

  // --- the arithmetic ---

  lemma MaskRuns(r: nat, st: State)
    requires r < 31 && r != X2
    ensures var code := MovImm(X2, MASK24, true) + [And(r, r, X2, true)];
            AllWellFormed(code) && Run(code, st) == Put(Put(st, X2, MASK24), r, st.x[r] % M24)
  {
    hide Run, MovImm, BitAnd, Step;
    var mov, op := MovImm(X2, MASK24, true), And(r, r, X2, true);
    MovImmSets(X2, MASK24, true, st);
    var t := Put(st, X2, MASK24);
    RunOne(op, t);
    RunAppend(mov, [op], st);
    StepPut(op, t);
    Mask24(st.x[r]);
  }

  lemma Mask24(v: nat)
    ensures BitAnd(v, MASK24) == v % M24
  {
    hide BitAnd, Pow2;
    Pow2Constants();
    MaskIsMod(v, 24);
  }

  lemma ShiftRuns(d: nat, n: nat, c: nat, st: State)
    requires d < 31 && n < 31 && c < 64
    ensures var i := LsrImm(d, n, c, true);
            AllWellFormed([i]) && Run([i], st) == Put(st, d, ShiftRight(st.x[n], c))
  {
    hide Run, ShiftRight, UnsignedField, Step;
    var i := LsrImm(d, n, c, true);
    RunOne(i, st);
    StepPut(i, st);
    LsrField(st.x[n], c, true);
  }

  lemma Shift24(v: nat)
    ensures ShiftRight(v, 24) == v / M24
  {
    hide Pow2;
    Pow2Constants();
  }

  /** The address computation, on words. */
  function Target(x1: Word, x23: Word): (a: Word)
  {
    (x23 - (x1 % M24 + x1 / M24 % M24) - 64) % M64
  }

  lemma SubtractRuns(st: State)
    requires st.x[X1] < M24 && st.x[X15] < M24
    ensures var code := [Add(X1, X1, X15, true), Orr(X0, ZR, X23, true), Sub(X0, X0, X1, true), SubI(X0, X0, 64, true)];
            AllWellFormed(code) &&
            Run(code, st) == Put(Put(st, X1, st.x[X1] + st.x[X15]), X0, (st.x[X23] - (st.x[X1] + st.x[X15]) - 64) % M64)
  {
    hide Run, Step, WellFormed, Put;
    var total := st.x[X1] + st.x[X15];
    var s1 := Put(st, X1, total);
    var s2 := Put(s1, X0, st.x[X23]);
    var s3 := Put(s2, X0, (st.x[X23] - total) % M64);
    AddStep(X1, X1, X15, st);
    PutAt(st, X1, total);
    PutAt(s1, X0, st.x[X23]);
    PutAt(s2, X0, (st.x[X23] - total) % M64);
    MoveHere(s1);
    SubStep(X0, X0, X1, s2);
    SubIStep(X0, X0, s3);
    SubAgain(st.x[X23] - total);
    FourSteps(Add(X1, X1, X15, true), Orr(X0, ZR, X23, true), Sub(X0, X0, X1, true), SubI(X0, X0, 64, true), st);
    PutTwice(s1, X0, st.x[X23], (st.x[X23] - total - 64) % M64);
    PutTwice(s2, X0, (st.x[X23] - total) % M64, (st.x[X23] - total - 64) % M64);
  }

  lemma PutAt(st: State, r: nat, v: Word)
    requires r < 31
    ensures forall q :: 0 <= q < 31 ==> Put(st, r, v).x[q] == if q == r then v else st.x[q]
  {
  }

  lemma PutTwice(st: State, r: nat, v: Word, w: Word)
    requires r < 31
    ensures Put(Put(st, r, v), r, w) == Put(st, r, w)
  {
  }

  lemma MoveHere(st: State)
    ensures WellFormed(Orr(X0, ZR, X23, true)) && Step(Orr(X0, ZR, X23, true), st) == Put(st, X0, st.x[X23])
  {
    hide Step;
    MoveStep(X0, X23, true, st);
    ReadLow(st, X23, true);
  }

  lemma AddStep(d: nat, n: nat, m: nat, st: State)
    requires d < 31 && n < 31 && m < 31
    ensures WellFormed(Add(d, n, m, true)) && Step(Add(d, n, m, true), st) == Put(st, d, (st.x[n] + st.x[m]) % M64)
  {
    hide Step, Value;
    SumValues(d, n, m, 0, st);
    StepPut(Add(d, n, m, true), st);
  }

  lemma SubStep(d: nat, n: nat, m: nat, st: State)
    requires d < 31 && n < 31 && m < 31
    ensures WellFormed(Sub(d, n, m, true)) && Step(Sub(d, n, m, true), st) == Put(st, d, (st.x[n] - st.x[m]) % M64)
  {
    hide Step, Value;
    SumValues(d, n, m, 0, st);
    StepPut(Sub(d, n, m, true), st);
  }

  lemma SubIStep(d: nat, n: nat, st: State)
    requires d < 31 && n < 31
    ensures WellFormed(SubI(d, n, 64, true)) && Step(SubI(d, n, 64, true), st) == Put(st, d, (st.x[n] - 64) % M64)
  {
    hide Step, Value;
    SumValues(d, n, n, 64, st);
    StepPut(SubI(d, n, 64, true), st);
  }

  lemma SubAgain(v: int)
    ensures (v % M64 - 64) % M64 == (v - 64) % M64
  {
  }

  lemma FourSteps(a: Instr, b: Instr, c: Instr, d: Instr, st: State)
    requires WellFormed(a) && WellFormed(b) && WellFormed(c) && WellFormed(d)
    ensures AllWellFormed([a, b, c, d]) && Run([a, b, c, d], st) == Step(d, Step(c, Step(b, Step(a, st))))
  {
    hide WellFormed, Step, Run;
    var s1 := Step(a, st);
    var s2 := Step(b, s1);
    var s3 := Step(c, s2);
    RunOne(a, st);
    RunOne(b, s1);
    RunOne(c, s2);
    RunOne(d, s3);
    RunAppend([a], [b], st);
    RunAppend([a] + [b], [c], st);
    RunAppend([a] + [b] + [c], [d], st);
    assert [a] + [b] + [c] + [d] == [a, b, c, d];
  }

  lemma CompareRuns(st: State)
    ensures var code := MovImm(X2, STACK_BASE, true) + [Cmp(X0, X2, true)];
            AllWellFormed(code) &&
            var t := Run(code, st);
            t.x == Put(st, X2, STACK_BASE).x && Holds(CC, t) == (st.x[X0] < STACK_BASE)
  {
    hide Run, MovImm, Compare;
    var mov, op := MovImm(X2, STACK_BASE, true), Cmp(X0, X2, true);
    MovImmSets(X2, STACK_BASE, true, st);
    var t := Put(st, X2, STACK_BASE);
    RunOne(op, t);
    RunAppend(mov, [op], st);
    CompareMeans(t, t.x[X0], STACK_BASE, true);
    CompareKeeps(t, t.x[X0], STACK_BASE);
  }

  lemma CompareKeeps(st: State, a: nat, b: nat)
    ensures Compare(st, a, b, M64).x == st.x
  {
  }

  /** X0 gets the new frame address; only X0, X1, X2 and X15 change; carry clear means it is below the stack. */
  lemma FrameArithmeticRuns(st: State)
    ensures AllWellFormed(FrameArithmetic())
    ensures var t := Run(FrameArithmetic(), st);
            t.x[X0] == Target(st.x[X1], st.x[X23]) && Holds(CC, t) == (t.x[X0] < STACK_BASE) &&
            forall q :: 3 <= q < 31 && q != X15 ==> t.x[q] == st.x[q]
  {
    hide Run, MovImm, LsrImm, WellFormed, ShiftRight, Holds;
    var c1 := [LsrImm(X15, X1, 24, true)];
    var c2 := MovImm(X2, MASK24, true) + [And(X1, X1, X2, true)];
    var c3 := MovImm(X2, MASK24, true) + [And(X15, X15, X2, true)];
    var c4 := [Add(X1, X1, X15, true), Orr(X0, ZR, X23, true), Sub(X0, X0, X1, true), SubI(X0, X0, 64, true)];
    var c5 := MovImm(X2, STACK_BASE, true) + [Cmp(X0, X2, true)];
    ShiftRuns(X15, X1, 24, st);
    Shift24(st.x[X1]);
    var s1 := Run(c1, st);
    MaskRuns(X1, s1);
    var s2 := Run(c2, s1);
    MaskRuns(X15, s2);
    var s3 := Run(c3, s2);
    SubtractRuns(s3);
    var s4 := Run(c4, s3);
    CompareRuns(s4);
    RunAppend(c1, c2, st);
    RunAppend(c1 + c2, c3, st);
    RunAppend(c1 + c2 + c3, c4, st);
    RunAppend(c1 + c2 + c3 + c4, c5, st);
  }

  // --- the whole call sequence ---

  /** Scratch registers aside, the host registers are those of `st`. */
  ghost predicate SameButScratch(t: State, st: State)
  {
    forall q :: 3 <= q < 31 && q != X15 ==> t.x[q] == st.x[q]
  }

  lemma ReadHeader(h: Host, junk: Word)
    requires Live(h)
    ensures AllOk([Probe(X23, 8), Ldr(X1, 0)])
    ensures var t := ExecAll([Probe(X23, 8), Ldr(X1, 0)], h, junk);
            if !Mapped(h.st.x[X23], 8) then t == h.(status := Aborted)
            else t.status == Running && t.vm == h.vm && t.scratch == h.scratch &&
                 t.st.x[X1] == Load(h.vm.mem, h.st.x[X23]) && SameButScratch(t.st, h.st)
  {
    hide Load;
    var p, l := Probe(X23, 8), Ldr(X1, 0);
    var h1 := Exec(p, h, junk);
    ExecOne(p, h, junk);
    ExecOne(l, h1, junk);
    ExecAppend([p], [l], h, junk);
    assert [p] + [l] == [p, l];
  }

  lemma ProbeFrame(h: Host, junk: Word)
    requires h.status == Running
    ensures AllOk([ExitIf(CC, Overflow), PutScratch(X0), Probe(X0, 64)])
    ensures var t := ExecAll([ExitIf(CC, Overflow), PutScratch(X0), Probe(X0, 64)], h, junk);
            var base := h.st.x[X0];
            t.vm == h.vm &&
            if Holds(CC, h.st) then t.status == Overflow
            else if !Mapped(base, 64) then t.status == Aborted
            else t.status == Running && t.scratch == base && t.st.x[X0] == base && SameButScratch(t.st, h.st)
  {
    hide Holds;
    var a, b, c := ExitIf(CC, Overflow), PutScratch(X0), Probe(X0, 64);
    var h1 := Exec(a, h, junk);
    var h2 := Exec(b, h1, junk);
    ExecOne(a, h, junk);
    ExecOne(b, h1, junk);
    ExecOne(c, h2, junk);
    ExecAppend([a], [b], h, junk);
    ExecAppend([a] + [b], [c], h, junk);
    assert [a] + [b] + [c] == [a, b, c];
  }

  lemma TargetIsNewBase(h: Host)
    requires Live(h) && Mapped(h.st.x[X23], 8)
    ensures Target(Load(h.vm.mem, h.st.x[X23]), h.st.x[X23]) == NewBase(Guest(h), false, false)
  {
    hide Load;
    BpfRegAt(h.st, 10);
  }

  lemma PushHeadRuns(h: Host, junk: Word)
    requires Live(h) && Mapped(h.st.x[X23], 8)
    ensures AllOk(PushHead())
    ensures var t := ExecAll(PushHead(), h, junk);
            var base := NewBase(Guest(h), false, false);
            t.vm == h.vm &&
            if base < STACK_BASE then t.status == Overflow
            else if !Mapped(base, 64) then t.status == Aborted
            else t.status == Running && t.scratch == base && t.st.x[X0] == base && SameButScratch(t.st, h.st)
  {
    hide Load, Exec, ExecAll, NewBase, FrameArithmetic, Run, Target, Holds;
    var u1, u2, u3 := [Probe(X23, 8), Ldr(X1, 0)], Lift(FrameArithmetic()), [ExitIf(CC, Overflow), PutScratch(X0), Probe(X0, 64)];
    ReadHeader(h, junk);
    var h1 := ExecAll(u1, h, junk);
    FrameArithmeticRuns(h1.st);
    ExecLift(FrameArithmetic(), h1, junk);
    var h2 := ExecAll(u2, h1, junk);
    ProbeFrame(h2, junk);
    ExecAppend(u1, u2, h, junk);
    ExecAppend(u1 + u2, u3, h, junk);
    TargetIsNewBase(h);
  }

  /** A store through X0. */
  lemma StoreRunsAt(t: nat, off: nat, h: Host, junk: Word)
    requires t < 31 && h.status == Running && Mapped(h.st.x[X0] + off, 8)
    ensures UnitOk(Str(t, off))
    ensures Exec(Str(t, off), h, junk) == h.(vm := h.vm.(mem := Store(h.vm.mem, h.st.x[X0] + off, h.st.x[t])))
  {
    hide Store;
  }

  /** Loading a constant in X1 and storing it: one more word of the frame. */
  lemma ConstantWord(v: Word, off: nat, h: Host, junk: Word)
    requires h.status == Running && Mapped(h.st.x[X0] + off, 8)
    ensures var us := Lift(MovImm(X1, v, true)) + [Str(X1, off)];
            AllOk(us) &&
            ExecAll(us, h, junk) ==
            h.(st := Put(h.st, X1, v), vm := h.vm.(mem := Store(h.vm.mem, h.st.x[X0] + off, v)))
  {
    hide MovImm, Run, Store, ExecAll, Exec;
    var code := MovImm(X1, v, true);
    MovImmSets(X1, v, true, h.st);
    ExecLift(code, h, junk);
    var h1 := h.(st := Put(h.st, X1, v));
    StoreRunsAt(X1, off, h1, junk);
    ExecOne(Str(X1, off), h1, junk);
    ExecAppend(Lift(code), [Str(X1, off)], h, junk);
  }

  lemma OneStore(us: seq<Unit>, t: nat, off: nat, h: Host, junk: Word)
    requires AllOk(us) && t < 31
    requires var g := ExecAll(us, h, junk); g.status == Running && Mapped(g.st.x[X0] + off, 8)
    ensures AllOk(us + [Str(t, off)])
    ensures var g := ExecAll(us, h, junk);
            ExecAll(us + [Str(t, off)], h, junk) == g.(vm := g.vm.(mem := Store(g.vm.mem, g.st.x[X0] + off, g.st.x[t])))
  {
    hide Store, ExecAll, Exec;
    var g := ExecAll(us, h, junk);
    StoreRunsAt(t, off, g, junk);
    ExecOne(Str(t, off), g, junk);
    ExecAppend(us, [Str(t, off)], h, junk);
  }

  /** The words the inline sequence writes. */
  function InlineWords(st: State, ret: Word, frame: Word): seq<Word>
  {
    [frame, st.x[X23], ret, st.x[X19], st.x[X20], st.x[X21], st.x[X22]]
  }

  /** The two constants and the five register words, in order. */
  lemma SevenStores(ret: Word, frame: Word, h: Host, junk: Word)
    requires h.status == Running && Mapped(h.st.x[X0], 64)
    ensures var us := Lift(MovImm(X1, frame, true)) + [Str(X1, 0), Str(X23, 8)] +
                      (Lift(MovImm(X1, ret, true)) + [Str(X1, 16), Str(X19, 24), Str(X20, 32), Str(X21, 40), Str(X22, 48)]);
            AllOk(us) &&
            ExecAll(us, h, junk) ==
            h.(st := Put(h.st, X1, ret),
               vm := h.vm.(mem := StoreAll(h.vm.mem, h.st.x[X0], InlineWords(h.st, ret, frame))))
  {
    hide MovImm, Store, StoreAll, ExecAll, Exec, Lift;
    var b, ws, mem := h.st.x[X0], InlineWords(h.st, ret, frame), h.vm.mem;
    var u1 := Lift(MovImm(X1, frame, true)) + [Str(X1, 0)];
    ConstantWord(frame, 0, h, junk);
    StoreNone(mem, b, ws);
    StorePrefix(mem, b, ws, 1);
    OneStore(u1, X23, 8, h, junk);
    StorePrefix(mem, b, ws, 2);
    var u2 := u1 + [Str(X23, 8)];
    var h2 := ExecAll(u2, h, junk);
    var u3 := Lift(MovImm(X1, ret, true)) + [Str(X1, 16)];
    ConstantWord(ret, 16, h2, junk);
    StorePrefix(mem, b, ws, 3);
    ExecAppend(u2, u3, h, junk);
    PutTwice(h.st, X1, frame, ret);
    OneStore(u2 + u3, X19, 24, h, junk);
    StorePrefix(mem, b, ws, 4);
    OneStore(u2 + u3 + [Str(X19, 24)], X20, 32, h, junk);
    StorePrefix(mem, b, ws, 5);
    OneStore(u2 + u3 + [Str(X19, 24)] + [Str(X20, 32)], X21, 40, h, junk);
    StorePrefix(mem, b, ws, 6);
    OneStore(u2 + u3 + [Str(X19, 24)] + [Str(X20, 32)] + [Str(X21, 40)], X22, 48, h, junk);
    StorePrefix(mem, b, ws, 7);
    assert ws[..7] == ws;
    assert u2 + u3 + [Str(X19, 24)] + [Str(X20, 32)] + [Str(X21, 40)] + [Str(X22, 48)] ==
           Lift(MovImm(X1, frame, true)) + [Str(X1, 0), Str(X23, 8)] +
           (Lift(MovImm(X1, ret, true)) + [Str(X1, 16), Str(X19, 24), Str(X20, 32), Str(X21, 40), Str(X22, 48)]);
  }

  lemma PushTailRuns(ret: Word, frame: Word, h: Host, junk: Word)
    requires h.status == Running && Mapped(h.st.x[X0], 64)
    ensures AllOk(PushTail(ret, frame))
    ensures var t := ExecAll(PushTail(ret, frame), h, junk);
            t.status == Running && t.st.x[X23] == h.scratch &&
            (forall q :: 3 <= q < 31 && q != X23 ==> t.st.x[q] == h.st.x[q]) &&
            t.vm == h.vm.(mem := StoreAll(h.vm.mem, h.st.x[X0], InlineWords(h.st, ret, frame)),
                          reg := h.vm.reg[10 := h.scratch])
  {
    hide MovImm, StoreAll, ExecAll, Lift;
    var us := Lift(MovImm(X1, frame, true)) + [Str(X1, 0), Str(X23, 8)] +
              (Lift(MovImm(X1, ret, true)) + [Str(X1, 16), Str(X19, 24), Str(X20, 32), Str(X21, 40), Str(X22, 48)]);
    SevenStores(ret, frame, h, junk);
    var h1 := ExecAll(us, h, junk);
    var a, b := GetScratch(X23), PutReg(10, X23);
    var h2 := Exec(a, h1, junk);
    ExecOne(a, h1, junk);
    ExecOne(b, h2, junk);
    ExecAppend([a], [b], h1, junk);
    assert [a] + [b] == [a, b];
    ExecAppend(us, [a, b], h, junk);
  }

  /**
   * The inline call sequence against `push_frame`, for a caller whose frame
   * header is readable: the same overflow decision, and on success the same
   * r10 and registers; the new record is the same exactly when the callee's
   * frame size fits the header's 24 bits.
   */
  lemma PushRefines(h: Host, ret: Word, frame: Word, junk: Word)
    requires Live(h) && Mapped(h.st.x[X23], 8)
    ensures AllOk(PushInline(ret, frame))
    ensures var t := ExecAll(PushInline(ret, frame), h, junk);
            var r := Push(Guest(h), ret, frame, false, false);
            (t.status == Running <==> r.Some?) &&
            (t.status == Overflow <==> NewBase(Guest(h), false, false) < STACK_BASE) &&
            (r.None? ==> t.vm == h.vm) &&
            (r.Some? ==> BpfRegs(t.st) == r.value.reg && t.vm.reg[10] == r.value.reg[10] && t.vm.pc == h.vm.pc &&
                         (t.vm.mem == r.value.mem <==> frame < M24))
  {
    hide ExecAll, Exec, PushHead, PushTail, NewBase, BpfRegs, StoreAll, Header;
    PushHeadRuns(h, junk);
    var h1 := ExecAll(PushHead(), h, junk);
    var base := NewBase(Guest(h), false, false);
    PushTailOk(ret, frame);
    ExecAppend(PushHead(), PushTail(ret, frame), h, junk);
    var r := Push(Guest(h), ret, frame, false, false);
    if h1.status != Running {
      ExecStopped(PushTail(ret, frame), h1, junk);
    } else {
      PushTailRuns(ret, frame, h1, junk);
      var t := ExecAll(PushTail(ret, frame), h1, junk);
      PushedRegisters(h.st, t.st, base);
      PushedWords(h, h1.st, ret, frame);
      HeaderWord(h.vm.mem, base, InlineWords(h1.st, ret, frame), frame);
    }
  }

  lemma PushTailOk(ret: Word, frame: Word)
    ensures AllOk(PushTail(ret, frame))
  {
    hide MovImm, Run, AllWellFormed;
    var st := State(seq(31, _ => 0), false, false, false, false);
    MovImmSets(X1, frame, true, st);
    MovImmSets(X1, ret, true, st);
    LiftOk(MovImm(X1, frame, true));
    LiftOk(MovImm(X1, ret, true));
  }

  lemma LiftOk(code: seq<Instr>)
    requires AllWellFormed(code)
    ensures AllOk(Lift(code))
  {
    hide WellFormed;
  }

  lemma PushedRegisters(st: State, t: State, base: Word)
    requires t.x[X23] == base && forall q :: 3 <= q < 31 && q != X15 && q != X23 ==> t.x[q] == st.x[q]
    ensures BpfRegs(t) == BpfRegs(st)[10 := base]
  {
  }

  /** The interpreter's words are the inline ones but for the masked header. */
  lemma PushedWords(h: Host, st: State, ret: Word, frame: Word)
    requires SameButScratch(st, h.st)
    ensures [Header(frame, 0, false, false)] + Saved(Guest(h).reg, ret, false) ==
            InlineWords(st, ret, frame)[0 := frame % M24]
  {
    BpfRegAt(h.st, 6);
    BpfRegAt(h.st, 7);
    BpfRegAt(h.st, 8);
    BpfRegAt(h.st, 9);
    BpfRegAt(h.st, 10);
  }

  /** Two records that differ only in the header word are equal exactly when the header words are. */
  lemma HeaderWord(mem: Memory, base: int, ws: seq<Word>, frame: Word)
    requires |ws| == 7 && ws[0] == frame && Mapped(base, 64)
    ensures StoreAll(mem, base, ws) == StoreAll(mem, base, ws[0 := frame % M24]) <==> frame < M24
  {
    hide StoreAll, Load;
    LoadStoredAll(mem, base, ws, 0);
    LoadStoredAll(mem, base, ws[0 := frame % M24], 0);
    if frame < M24 {
      assert ws[0 := frame % M24] == ws;
    }
  }

  // ---------------------------------------------------------------------------
  // Exit
  // ---------------------------------------------------------------------------

  /** `emit_exit`. */
  function ExitHead(): seq<Unit>
  {
    [Probe(X23, 56), Ldr(X1, 16), Ldr(X2, 8), Ldr(X15, 0), PutScratch(X0), ExitIfZero(X1, Bottom)] +
    [Alu(LsrImm(X15, X15, 48, true)), ExitUnlessZero(X15, Helper)]
  }

  function ExitTail(): seq<Unit>
  {
    [PutPc(X1), PutReg(0, 9), PutReg(1, 10)] + [PutReg(2, 11), PutReg(3, 12), PutReg(4, 13)] + [PutReg(5, 14), GetScratch(X0)] +
    [Ldr(X1, 24), PutReg(6, X1)] + [Ldr(X1, 32), PutReg(7, X1)] + [Ldr(X1, 40), PutReg(8, X1)] + [Ldr(X1, 48), PutReg(9, X1)] +
    [PutReg(10, X2)]
  }

  /** Reads the record and decides which way to leave. */
  lemma ExitHeadRuns(h: Host, junk: Word)
    requires Live(h) && Mapped(h.st.x[X23], 56)
    ensures AllOk(ExitHead())
    ensures var t := ExecAll(ExitHead(), h, junk);
            var b, mem := h.st.x[X23], h.vm.mem;
            t.vm == h.vm &&
            t.status == (if Load(mem, b + 16) == 0 then Bottom
                         else if Load(mem, b) / SIGNAL_BIT != 0 then Helper else Running) &&
            (t.status == Running ==>
               t.scratch == b && t.st.x[X1] == Load(mem, b + 16) && t.st.x[X2] == Load(mem, b + 8) && SameButScratch(t.st, h.st))
  {
    hide Load, ExecAll;
    var u1 := [Probe(X23, 56), Ldr(X1, 16), Ldr(X2, 8), Ldr(X15, 0), PutScratch(X0), ExitIfZero(X1, Bottom)];
    var u2 := [Alu(LsrImm(X15, X15, 48, true)), ExitUnlessZero(X15, Helper)];
    ReadRecord(h, junk);
    SignalBits(ExecAll(u1, h, junk), junk);
    ExecAppend(u1, u2, h, junk);
  }

  lemma ReadRecord(h: Host, junk: Word)
    requires Live(h) && Mapped(h.st.x[X23], 56)
    ensures var us := [Probe(X23, 56), Ldr(X1, 16), Ldr(X2, 8), Ldr(X15, 0), PutScratch(X0), ExitIfZero(X1, Bottom)];
            AllOk(us) &&
            var t := ExecAll(us, h, junk);
            var b, mem := h.st.x[X23], h.vm.mem;
            t.vm == h.vm && t.status == (if Load(mem, b + 16) == 0 then Bottom else Running) &&
            t.scratch == b && t.st.x[X1] == Load(mem, b + 16) && t.st.x[X2] == Load(mem, b + 8) &&
            t.st.x[X15] == Load(mem, b) && SameButScratch(t.st, h.st)
  {
    hide Load, ExecAll;
    var a1, a2, a3, a4, a5, a6 := Probe(X23, 56), Ldr(X1, 16), Ldr(X2, 8), Ldr(X15, 0), PutScratch(X0), ExitIfZero(X1, Bottom);
    var us := [a1, a2, a3, a4, a5, a6];
    var h1 := Exec(a1, h, junk);
    var h2 := Exec(a2, h1, junk);
    var h3 := Exec(a3, h2, junk);
    var h4 := Exec(a4, h3, junk);
    var h5 := Exec(a5, h4, junk);
    var h6 := Exec(a6, h5, junk);
    SixUnits(a1, a2, a3, a4, a5, a6, h, junk);
  }

  lemma SixUnits(a1: Unit, a2: Unit, a3: Unit, a4: Unit, a5: Unit, a6: Unit, h: Host, junk: Word)
    requires UnitOk(a1) && UnitOk(a2) && UnitOk(a3) && UnitOk(a4) && UnitOk(a5) && UnitOk(a6)
    ensures AllOk([a1, a2, a3, a4, a5, a6])
    ensures ExecAll([a1, a2, a3, a4, a5, a6], h, junk) ==
            Exec(a6, Exec(a5, Exec(a4, Exec(a3, Exec(a2, Exec(a1, h, junk), junk), junk), junk), junk), junk)
  {
    hide Exec, UnitOk, ExecAll;
    var h3 := Exec(a3, Exec(a2, Exec(a1, h, junk), junk), junk);
    ThreeUnits(a1, a2, a3, h, junk);
    ThreeUnits(a4, a5, a6, h3, junk);
    ExecAppend([a1, a2, a3], [a4, a5, a6], h, junk);
    assert [a1, a2, a3] + [a4, a5, a6] == [a1, a2, a3, a4, a5, a6];
  }

  lemma ThreeUnits(a: Unit, b: Unit, c: Unit, h: Host, junk: Word)
    requires UnitOk(a) && UnitOk(b) && UnitOk(c)
    ensures AllOk([a, b, c]) && ExecAll([a, b, c], h, junk) == Exec(c, Exec(b, Exec(a, h, junk), junk), junk)
  {
    hide Exec, UnitOk, ExecAll;
    var h1 := Exec(a, h, junk);
    var h2 := Exec(b, h1, junk);
    ExecOne(a, h, junk);
    ExecOne(b, h1, junk);
    ExecOne(c, h2, junk);
    ExecAppend([a], [b], h, junk);
    ExecAppend([a] + [b], [c], h, junk);
    assert [a] + [b] + [c] == [a, b, c];
  }

  lemma SignalBits(h: Host, junk: Word)
    ensures var us := [Alu(LsrImm(X15, X15, 48, true)), ExitUnlessZero(X15, Helper)];
            AllOk(us) &&
            var t := ExecAll(us, h, junk);
            t.vm == h.vm && t.scratch == h.scratch &&
            (h.status != Running ==> t == h) &&
            (h.status == Running ==>
              t.status == (if h.st.x[X15] / SIGNAL_BIT != 0 then Helper else Running) && SameButScratch(t.st, h.st) &&
              t.st.x[X1] == h.st.x[X1] && t.st.x[X2] == h.st.x[X2])
  {
    hide ExecAll, ShiftRight, Step, WellFormed, Run;
    var i := LsrImm(X15, X15, 48, true);
    var a, b := Alu(i), ExitUnlessZero(X15, Helper);
    ShiftRuns(X15, X15, 48, h.st);
    assert [i][0] == i;
    RunOne(i, h.st);
    Shift48(h.st.x[X15]);
    var h1 := Exec(a, h, junk);
    ExecOne(a, h, junk);
    ExecOne(b, h1, junk);
    ExecAppend([a], [b], h, junk);
    assert [a] + [b] == [a, b];
  }

  lemma Shift48(v: nat)
    ensures ShiftRight(v, 48) == v / SIGNAL_BIT
  {
    hide Pow2;
    Pow2Constants();
    Pow2Add(24, 24);
  }

  lemma TwoUnits(a: Unit, b: Unit, h: Host, junk: Word)
    requires UnitOk(a) && UnitOk(b)
    ensures AllOk([a, b]) && ExecAll([a, b], h, junk) == Exec(b, Exec(a, h, junk), junk)
  {
    hide Exec, UnitOk, ExecAll;
    var h1 := Exec(a, h, junk);
    ExecOne(a, h, junk);
    ExecOne(b, h1, junk);
    ExecAppend([a], [b], h, junk);
    assert [a] + [b] == [a, b];
  }

  /** The pc and r0..r5 from the host registers, then the frame pointer back in X0. */
  lemma WriteBackLow(h: Host, junk: Word)
    requires h.status == Running
    ensures var us := [PutPc(X1), PutReg(0, 9), PutReg(1, 10)] + [PutReg(2, 11), PutReg(3, 12), PutReg(4, 13)] +
                      [PutReg(5, 14), GetScratch(X0)];
            AllOk(us) &&
            ExecAll(us, h, junk) ==
            h.(st := Put(h.st, X0, h.scratch),
               vm := h.vm.(pc := h.st.x[X1], reg := BpfRegs(h.st)[0..6] + h.vm.reg[6..11]))
  {
    hide ExecAll;
    var x, r := h.st.x, h.vm.reg;
    var u1, u2, u3 := [PutPc(X1), PutReg(0, 9), PutReg(1, 10)], [PutReg(2, 11), PutReg(3, 12), PutReg(4, 13)],
                      [PutReg(5, 14), GetScratch(X0)];
    ThreeUnits(PutPc(X1), PutReg(0, 9), PutReg(1, 10), h, junk);
    var h1 := h.(vm := h.vm.(pc := x[X1], reg := r[0 := x[9]][1 := x[10]]));
    ThreeUnits(PutReg(2, 11), PutReg(3, 12), PutReg(4, 13), h1, junk);
    var h2 := h1.(vm := h1.vm.(reg := h1.vm.reg[2 := x[11]][3 := x[12]][4 := x[13]]));
    TwoUnits(PutReg(5, 14), GetScratch(X0), h2, junk);
    ExecAppend(u1, u2, h, junk);
    ExecAppend(u1 + u2, u3, h, junk);
    assert h2.vm.reg[5 := x[14]] == BpfRegs(h.st)[0..6] + r[6..11];
  }

  /** One saved register from the frame to the register file. */
  lemma RestoreOne(us: seq<Unit>, k: nat, off: nat, h: Host, junk: Word)
    requires AllOk(us) && k <= 10
    requires var g := ExecAll(us, h, junk); g.status == Running && Mapped(g.st.x[X0] + off, 8)
    ensures AllOk(us + [Ldr(X1, off), PutReg(k, X1)])
    ensures var g := ExecAll(us, h, junk);
            var w := Load(g.vm.mem, g.st.x[X0] + off);
            ExecAll(us + [Ldr(X1, off), PutReg(k, X1)], h, junk) ==
            g.(st := Put(g.st, X1, w), vm := g.vm.(reg := g.vm.reg[k := w]))
  {
    hide ExecAll, Load;
    var g := ExecAll(us, h, junk);
    TwoUnits(Ldr(X1, off), PutReg(k, X1), g, junk);
    ExecAppend(us, [Ldr(X1, off), PutReg(k, X1)], h, junk);
  }

  lemma ExitTailRuns(h: Host, junk: Word)
    requires h.status == Running && Mapped(h.scratch, 56)
    ensures AllOk(ExitTail())
    ensures var t := ExecAll(ExitTail(), h, junk);
            var b, mem := h.scratch, h.vm.mem;
            t.status == Running &&
            t.vm == h.vm.(pc := h.st.x[X1],
                          reg := BpfRegs(h.st)[0..6] +
                                 [Load(mem, b + 24), Load(mem, b + 32), Load(mem, b + 40), Load(mem, b + 48), h.st.x[X2]])
  {
    hide ExecAll, Exec, Load, BpfRegs;
    var b, mem := h.scratch, h.vm.mem;
    var us := [PutPc(X1), PutReg(0, 9), PutReg(1, 10)] + [PutReg(2, 11), PutReg(3, 12), PutReg(4, 13)] +
              [PutReg(5, 14), GetScratch(X0)];
    WriteBackLow(h, junk);
    var r := BpfRegs(h.st)[0..6] + h.vm.reg[6..11];
    var w6, w7, w8, w9 := Load(mem, b + 24), Load(mem, b + 32), Load(mem, b + 40), Load(mem, b + 48);
    RestoreOne(us, 6, 24, h, junk);
    var u6 := us + [Ldr(X1, 24), PutReg(6, X1)];
    RestoreOne(u6, 7, 32, h, junk);
    var u7 := u6 + [Ldr(X1, 32), PutReg(7, X1)];
    RestoreOne(u7, 8, 40, h, junk);
    var u8 := u7 + [Ldr(X1, 40), PutReg(8, X1)];
    RestoreOne(u8, 9, 48, h, junk);
    var u9 := u8 + [Ldr(X1, 48), PutReg(9, X1)];
    var g := ExecAll(u9, h, junk);
    LastRegister(u9, h, junk);
    assert r[6 := w6][7 := w7][8 := w8][9 := w9][10 := h.st.x[X2]] == BpfRegs(h.st)[0..6] + [w6, w7, w8, w9, h.st.x[X2]];
  }

  lemma LastRegister(us: seq<Unit>, h: Host, junk: Word)
    requires AllOk(us) && ExecAll(us, h, junk).status == Running
    ensures AllOk(us + [PutReg(10, X2)])
    ensures var g := ExecAll(us, h, junk);
            ExecAll(us + [PutReg(10, X2)], h, junk) == g.(vm := g.vm.(reg := g.vm.reg[10 := g.st.x[X2]]))
  {
    hide ExecAll;
    var g := ExecAll(us, h, junk);
    ExecOne(PutReg(10, X2), g, junk);
    ExecAppend(us, [PutReg(10, X2)], h, junk);
  }

  /** Whether the inline exit and `pop_frame` leave the same way and, going on, the same machine. */
  ghost predicate ExitAgrees(h: Host, t: Host)
  {
    var (m', ret, _) := Pop(Guest(h));
    (t.status == Bottom <==> ret == 0) &&
    (t.status == Bottom || t.status == Helper ==> t.vm == h.vm) &&
    (t.status == Running ==> t.vm == m'.(pc := ret))
  }

  /**
   * The inline exit against `pop_frame`: a zero return address is the stack
   * bottom; any high header bit goes to the helper; otherwise registers and pc
   * are those pop_frame restores. The inline code looks at 56 bytes where
   * pop_frame wants 104, so they part exactly when only the 56 are mapped and
   * the return address is not zero.
   */
  lemma ExitRefines(h: Host, junk: Word)
    requires Live(h) && Mapped(h.st.x[X23], 56)
    ensures AllOk(ExitHead() + ExitTail())
    ensures var t := ExecAll(ExitHead() + ExitTail(), h, junk);
            var b, mem := h.st.x[X23], h.vm.mem;
            (t.status == Bottom <==> Load(mem, b + 16) == 0) &&
            (t.status == Helper <==> Load(mem, b + 16) != 0 && Load(mem, b) / SIGNAL_BIT != 0) &&
            (t.status == Running <==> Load(mem, b + 16) != 0 && Load(mem, b) / SIGNAL_BIT == 0) &&
            (ExitAgrees(h, t) <==> Mapped(b, 104) || Load(mem, b + 16) == 0)
  {
    hide ExecAll, Exec, Load, ExitHead, ExitTail, BpfRegs;
    var b := h.st.x[X23];
    BpfRegAt(h.st, 10);
    ExitHeadRuns(h, junk);
    var h1 := ExecAll(ExitHead(), h, junk);
    ExitTailOk();
    ExecAppend(ExitHead(), ExitTail(), h, junk);
    if h1.status != Running {
      ExecStopped(ExitTail(), h1, junk);
    } else {
      ExitTailRuns(h1, junk);
      SameLow(h.st, h1.st);
    }
  }

  lemma ExitTailOk()
    ensures AllOk(ExitTail())
  {
    var us := ExitTail();
    forall k | 0 <= k < |us|
      ensures UnitOk(us[k])
    {
    }
  }

  lemma SameLow(st: State, t: State)
    requires SameButScratch(t, st)
    ensures BpfRegs(t)[0..6] == BpfRegs(st)[0..6]
  {
  }
}
