/**
 * The TLB lookup the JIT emits inline (`begin_mem_access`), executed
 * instruction by instruction: it hits exactly where the C++ fast path does
 * and then leaves the same host pointer in X0.
 */
module InlineTlb {
  import opened Leb128
  import opened Words
  import opened BpfAlu
  import opened Arm
  import opened AluEmitter
  import opened InlineFrame
  import opened Mmu

  const X28: nat := 28
  const ENTRY_BYTES: nat := 32

  /** A TLB entry as it lies in the vm object; `host` is the pointer's value. */
  datatype Slot = Slot(base: Word, end: Word, host: Word, flags: nat, cow: bool)

  datatype Field = BaseField | EndField | HostField | FlagsField | CowField

  datatype Op = Do(i: Instr) | LdrField(t: nat, f: Field) | MissIf(c: Cond) | MissUnlessZero(t: nat)

  datatype Walk = Walk(st: State, miss: bool)

  predicate OpOk(o: Op)
  {
    match o
    case Do(i) => WellFormed(i)
    case LdrField(t, _) => t < 31
    case MissIf(_) => true
    case MissUnlessZero(t) => t < 31
  }

  function FieldOf(s: Slot, f: Field): (w: Word)
    requires s.flags < M32
  {
    match f
    case BaseField => s.base
    case EndField => s.end
    case HostField => s.host
    case FlagsField => s.flags
    case CowField => if s.cow then 1 else 0
  }

  /** The table in the vm object, at `X28 + off`. */
  predicate Table(tlb: seq<Slot>)
  {
    |tlb| == TLB_SIZE && forall k :: 0 <= k < |tlb| ==> tlb[k].flags < M32
  }

  /** The slot X15 points at; a pointer elsewhere reads slot 0. */
  function SlotAt(tlb: seq<Slot>, off: nat, st: State): (k: nat)
    ensures k < TLB_SIZE
  {
    var d := st.x[X15] - st.x[X28] - off;
    if 0 <= d < ENTRY_BYTES * TLB_SIZE && d % ENTRY_BYTES == 0 then d / ENTRY_BYTES else 0
  }

  function StepOp(o: Op, tlb: seq<Slot>, off: nat, w: Walk): Walk
    requires OpOk(o) && Table(tlb)
  {
    if w.miss then w
    else match o
      case Do(i) => w.(st := Step(i, w.st))
      case LdrField(t, f) => w.(st := Put(w.st, t, FieldOf(tlb[SlotAt(tlb, off, w.st)], f)))
      case MissIf(c) => if Holds(c, w.st) then w.(miss := true) else w
      case MissUnlessZero(t) => if w.st.x[t] != 0 then w.(miss := true) else w
  }

  predicate OpsOk(os: seq<Op>)
  {
    forall k :: 0 <= k < |os| ==> OpOk(os[k])
  }

  function RunOps(os: seq<Op>, tlb: seq<Slot>, off: nat, w: Walk): Walk
    requires OpsOk(os) && Table(tlb)
    decreases |os|
  {
    if os == [] then w else RunOps(os[1..], tlb, off, StepOp(os[0], tlb, off, w))
  }

  lemma {:induction false} RunOpsAppend(a: seq<Op>, b: seq<Op>, tlb: seq<Slot>, off: nat, w: Walk)
    requires OpsOk(a) && OpsOk(b) && Table(tlb)
    ensures OpsOk(a + b) && RunOps(a + b, tlb, off, w) == RunOps(b, tlb, off, RunOps(a, tlb, off, w))
    decreases |a|
  {
    hide StepOp, OpOk;
    if a == [] {
      assert a + b == b;
    } else {
      RunOpsAppend(a[1..], b, tlb, off, StepOp(a[0], tlb, off, w));
      assert (a + b)[1..] == a[1..] + b;
    }
  }

  lemma RunOpsOne(o: Op, tlb: seq<Slot>, off: nat, w: Walk)
    requires OpOk(o) && Table(tlb)
    ensures OpsOk([o]) && RunOps([o], tlb, off, w) == StepOp(o, tlb, off, w)
  {
    hide StepOp, OpOk;
    assert [o][1..] == [];
  }

  lemma RunOpsThree(a: Op, b: Op, c: Op, tlb: seq<Slot>, off: nat, w: Walk)
    requires OpOk(a) && OpOk(b) && OpOk(c) && Table(tlb)
    ensures OpsOk([a, b, c])
    ensures RunOps([a, b, c], tlb, off, w) == StepOp(c, tlb, off, StepOp(b, tlb, off, StepOp(a, tlb, off, w)))
  {
    hide StepOp, OpOk, RunOps;
    var w1 := StepOp(a, tlb, off, w);
    var w2 := StepOp(b, tlb, off, w1);
    RunOpsOne(a, tlb, off, w);
    RunOpsOne(b, tlb, off, w1);
    RunOpsOne(c, tlb, off, w2);
    RunOpsAppend([a], [b], tlb, off, w);
    RunOpsAppend([a] + [b], [c], tlb, off, w);
    assert [a] + [b] + [c] == [a, b, c];
  }

  function Code(code: seq<Instr>): (os: seq<Op>)
    ensures |os| == |code| && forall k :: 0 <= k < |os| ==> os[k] == Do(code[k])
  {
    seq(|code|, k requires 0 <= k < |code| => Do(code[k]))
  }

  lemma {:induction false} RunCode(code: seq<Instr>, tlb: seq<Slot>, off: nat, w: Walk)
    requires AllWellFormed(code) && Table(tlb)
    ensures OpsOk(Code(code)) && RunOps(Code(code), tlb, off, w) == if w.miss then w else w.(st := Run(code, w.st))
    decreases |code|
  {
    hide WellFormed, Step;
    if code != [] {
      RunCode(code[1..], tlb, off, if w.miss then w else w.(st := Step(code[0], w.st)));
      assert Code(code)[1..] == Code(code[1..]);
    }
  }

  // ---------------------------------------------------------------------------
  // The emitted sequence
  // ---------------------------------------------------------------------------

  const INDEX_MASK: nat := 0x7FF

  /** The slot number of the address in X0. */
  function HashCode(): seq<Instr>
  {
    [LsrImm(X1, X0, 20, true)] + [LsrImm(X15, X0, 12, true)] + [Eor(X15, X15, X1, true)] +
    (MovImm(X2, INDEX_MASK, true) + [And(X15, X15, X2, true)])
  }

  /** From the slot number to the slot's address. */
  function ScaleCode(off: nat): seq<Instr>
  {
    [LslImm(X15, X15, 5, true)] + [Add(X15, X15, X28, true)] + AddImm(X15, X15, off, true)
  }

  function IndexCode(off: nat): seq<Instr>
  {
    HashCode() + ScaleCode(off)
  }

  /** The two bounds checks and the wrap-around check. */
  function BoundsOps(size: nat): seq<Op>
  {
    [LdrField(X1, BaseField), Do(Cmp(X0, X1, true)), MissIf(CC)] +
    [Do(AddI(X2, X0, size, true)), Do(Cmp(X2, X0, true)), MissIf(CC)] +
    [LdrField(X1, EndField), Do(Cmp(X2, X1, true)), MissIf(HI)]
  }

  function WriteOps(): seq<Op>
  {
    [LdrField(X1, FlagsField)] + Code(MovImm(X2, PF_W, false)) + [Do(Tst(X1, X2, false)), MissIf(EQ)] +
    [LdrField(X1, CowField), MissUnlessZero(X1)]
  }

  function HitOps(): seq<Op>
  {
    [LdrField(X1, BaseField), Do(Sub(X0, X0, X1, true)), LdrField(X1, HostField)] + [Do(Add(X0, X0, X1, true))]
  }

  function LookupOps(off: nat, size: nat, write: bool): seq<Op>
  {
    Code(IndexCode(off)) + BoundsOps(size) + (if write then WriteOps() else []) + HitOps()
  }

  /** The fast path's condition in `mmu` and `mmu_w`. */
  predicate FastHit(s: Slot, addr: Word, size: nat, write: bool)
  {
    addr + size < M64 && s.base <= addr && addr + size <= s.end && (write ==> Writable(s.flags) && !s.cow)
  }

  // --- the index ---

  lemma EorRuns(st: State)
    ensures var i := Eor(X15, X15, X1, true);
            AllWellFormed([i]) && Run([i], st) == Put(st, X15, BitXor(st.x[X15], st.x[X1]) % M64)
  {
    hide Run, BitXor, Step;
    var i := Eor(X15, X15, X1, true);
    RunOne(i, st);
    StepPut(i, st);
    ReadLow(st, X15, true);
    ReadLow(st, X1, true);
  }

  lemma IndexMaskRuns(st: State)
    ensures var code := MovImm(X2, INDEX_MASK, true) + [And(X15, X15, X2, true)];
            AllWellFormed(code) && Run(code, st) == Put(Put(st, X2, INDEX_MASK), X15, st.x[X15] % TLB_SIZE)
  {
    hide Run, MovImm, BitAnd, Step;
    var mov, op := MovImm(X2, INDEX_MASK, true), And(X15, X15, X2, true);
    MovImmSets(X2, INDEX_MASK, true, st);
    var t := Put(st, X2, INDEX_MASK);
    RunOne(op, t);
    RunAppend(mov, [op], st);
    StepPut(op, t);
    IndexMask(st.x[X15]);
  }

  lemma IndexMask(v: nat)
    ensures BitAnd(v, INDEX_MASK) == v % TLB_SIZE
  {
    hide BitAnd, Pow2;
    Pow2Small();
    MaskIsMod(v, 11);
  }

  lemma Pow2Small()
    ensures Pow2(5) == 32 && Pow2(11) == 2048 && Pow2(12) == 0x1000 && Pow2(20) == 0x10_0000
  {
    assert Pow2(5) == 32;
    Pow2Add(5, 5);
    assert Pow2(11) == 2 * Pow2(10);
    assert Pow2(12) == 2 * Pow2(11);
    Pow2Add(10, 10);
  }

  lemma ScaleRuns(st: State)
    requires st.x[X15] < TLB_SIZE
    ensures var i := LslImm(X15, X15, 5, true);
            AllWellFormed([i]) && Run([i], st) == Put(st, X15, st.x[X15] * ENTRY_BYTES)
  {
    hide Run, UnsignedField, Step, Pow2, Value, ShiftLeft;
    var i := LslImm(X15, X15, 5, true);
    ScaleValue(st);
    RunOne(i, st);
    StepPut(i, st);
    LslField(st.x[X15], 5, true);
    Shift5(st.x[X15]);
  }

  lemma ScaleValue(st: State)
    ensures var i := LslImm(X15, X15, 5, true);
            WellFormed(i) && Value(i, st) == UnsignedField(st.x[X15], i.immr, i.imms, 64) % M64
  {
    hide UnsignedField, Read;
    Read64(st, X15);
  }

  lemma Shift5(x: nat)
    requires x < TLB_SIZE
    ensures ShiftLeft(x, 5, M64) == x * ENTRY_BYTES
  {
    hide Pow2;
    Pow2Small();
  }

  lemma AddImmRuns(d: nat, n: nat, imm: nat, st: State)
    requires d < 31 && n < 31 && d != X2 && n != X2 && imm < M64
    ensures AllWellFormed(AddImm(d, n, imm, true))
    ensures var t := Run(AddImm(d, n, imm, true), st);
            t.x[d] == (st.x[n] + imm) % M64 && forall q :: 0 <= q < 31 && q != d && q != X2 ==> t.x[q] == st.x[q]
  {
    hide Run, MovImm, Step, WellFormed;
    if imm <= 4095 {
      AddIRuns(d, n, imm, st);
    } else {
      var mov, op := MovImm(X2, imm, true), Add(d, n, X2, true);
      MovImmSets(X2, imm, true, st);
      var t := Put(st, X2, imm);
      AddStep(d, n, X2, t);
      RunOne(op, t);
      RunAppend(mov, [op], st);
    }
  }

  lemma AddIRuns(d: nat, n: nat, imm: nat, st: State)
    requires d < 31 && n < 31 && imm <= 4095
    ensures AllWellFormed([AddI(d, n, imm, true)])
    ensures Run([AddI(d, n, imm, true)], st) == Put(st, d, (st.x[n] + imm) % M64)
  {
    hide Run, Step, Value;
    SumValues(d, n, n, imm, st);
    RunOne(AddI(d, n, imm, true), st);
    StepPut(AddI(d, n, imm, true), st);
  }

  /** X15 ends up at the address's TLB slot; X0 and X28 and the BPF registers survive. */
  lemma IndexRuns(off: nat, st: State)
    requires st.x[X28] + off + ENTRY_BYTES * TLB_SIZE < M64
    ensures AllWellFormed(IndexCode(off))
    ensures var t := Run(IndexCode(off), st);
            t.x[X15] == st.x[X28] + off + ENTRY_BYTES * TlbIndex(st.x[X0]) && t.x[X0] == st.x[X0] &&
            forall q :: 3 <= q < 31 && q != X15 ==> t.x[q] == st.x[q]
  {
    hide Run, HashCode, ScaleCode, WellFormed, TlbIndex;
    HashRuns(st);
    ScaledRuns(off, Run(HashCode(), st));
    RunAppend(HashCode(), ScaleCode(off), st);
  }

  lemma HashRuns(st: State)
    ensures AllWellFormed(HashCode())
    ensures var t := Run(HashCode(), st);
            t.x[X15] == TlbIndex(st.x[X0]) && t.x[X0] == st.x[X0] &&
            forall q :: 3 <= q < 31 && q != X15 ==> t.x[q] == st.x[q]
  {
    hide Run, MovImm, LsrImm, WellFormed, ShiftRight, BitXor, TlbIndex;
    var c1, c2, c3 := [LsrImm(X1, X0, 20, true)], [LsrImm(X15, X0, 12, true)], [Eor(X15, X15, X1, true)];
    var c4 := MovImm(X2, INDEX_MASK, true) + [And(X15, X15, X2, true)];
    var x := st.x[X0];
    ShiftRuns(X1, X0, 20, st);
    var s1 := Run(c1, st);
    ShiftRuns(X15, X0, 12, s1);
    var s2 := Run(c2, s1);
    Shifts(x);
    EorRuns(s2);
    var s3 := Run(c3, s2);
    IndexMaskRuns(s3);
    IndexValue(x);
    RunAppend(c1, c2, st);
    RunAppend(c1 + c2, c3, st);
    RunAppend(c1 + c2 + c3, c4, st);
  }

  lemma SmallMod(v: nat)
    requires v < M64
    ensures v % M64 == v
  {
  }

  lemma ScaledRuns(off: nat, st: State)
    requires st.x[X28] + off + ENTRY_BYTES * TLB_SIZE < M64 && st.x[X15] < TLB_SIZE
    ensures AllWellFormed(ScaleCode(off))
    ensures var t := Run(ScaleCode(off), st);
            t.x[X15] == st.x[X28] + off + ENTRY_BYTES * st.x[X15] && t.x[X0] == st.x[X0] &&
            forall q :: 3 <= q < 31 && q != X15 ==> t.x[q] == st.x[q]
  {
    hide Run, LslImm, AddImm, WellFormed, Step;
    var c5, c6, c7 := [LslImm(X15, X15, 5, true)], [Add(X15, X15, X28, true)], AddImm(X15, X15, off, true);
    ScaleRuns(st);
    var s5 := Run(c5, st);
    AddStep(X15, X15, X28, s5);
    RunOne(Add(X15, X15, X28, true), s5);
    var s6 := Run(c6, s5);
    SmallMod(s5.x[X15] + st.x[X28]);
    SmallMod(s6.x[X15] + off);
    AddImmRuns(X15, X15, off, s6);
    RunAppend(c5, c6, st);
    RunAppend(c5 + c6, c7, st);
  }

  lemma Shifts(x: nat)
    ensures ShiftRight(x, 12) == x / 0x1000 && ShiftRight(x, 20) == x / 0x10_0000
  {
    hide Pow2;
    Pow2Small();
  }

  lemma IndexValue(x: nat)
    ensures BitXor(x / 0x1000, x / 0x10_0000) % M64 % TLB_SIZE == TlbIndex(x)
  {
    hide BitXor;
  }

  // --- the checks ---

  /** X15 points at slot `k` and X0 holds the guest address. */
  predicate At(st: State, off: nat, k: nat, addr: Word)
  {
    k < TLB_SIZE && st.x[X15] == st.x[X28] + off + ENTRY_BYTES * k && st.x[X0] == addr
  }

  lemma SlotFound(tlb: seq<Slot>, off: nat, st: State, k: nat, addr: Word)
    requires At(st, off, k, addr)
    ensures SlotAt(tlb, off, st) == k
  {
    var d := st.x[X15] - st.x[X28] - off;
    assert d == ENTRY_BYTES * k;
  }

  /** Load a field into X1, compare a register with it, miss on a condition. */
  lemma CheckRuns(tlb: seq<Slot>, off: nat, f: Field, n: nat, c: Cond, w: Walk, k: nat, addr: Word)
    requires Table(tlb) && !w.miss && At(w.st, off, k, addr) && (n == X0 || n == X2) && (c == CC || c == HI)
    ensures OpsOk([LdrField(X1, f), Do(Cmp(n, X1, true)), MissIf(c)])
    ensures var t := RunOps([LdrField(X1, f), Do(Cmp(n, X1, true)), MissIf(c)], tlb, off, w);
            var v := FieldOf(tlb[k], f);
            t.miss == (if c == CC then w.st.x[n] < v else w.st.x[n] > v) && t.st.x == w.st.x[X1 := v]
  {
    hide RunOps, Compare, FieldOf, SlotAt;
    SlotFound(tlb, off, w.st, k, addr);
    var v := FieldOf(tlb[k], f);
    var st1 := Put(w.st, X1, v);
    RunOpsThree(LdrField(X1, f), Do(Cmp(n, X1, true)), MissIf(c), tlb, off, w);
    CompareMeans(st1, st1.x[n], v, true);
    CompareKeeps(st1, st1.x[n], v);
  }

  lemma WrapRuns(tlb: seq<Slot>, off: nat, size: nat, w: Walk)
    requires Table(tlb) && !w.miss && size <= 4095
    ensures OpsOk([Do(AddI(X2, X0, size, true)), Do(Cmp(X2, X0, true)), MissIf(CC)])
    ensures var t := RunOps([Do(AddI(X2, X0, size, true)), Do(Cmp(X2, X0, true)), MissIf(CC)], tlb, off, w);
            var addr := w.st.x[X0];
            t.miss == (addr + size >= M64) && t.st.x == w.st.x[X2 := (addr + size) % M64]
  {
    hide RunOps, Compare, Step, Value, WellFormed, Holds;
    var addr := w.st.x[X0];
    var v := (addr + size) % M64;
    SumValues(X2, X0, X0, size, w.st);
    var i, c := AddI(X2, X0, size, true), Cmp(X2, X0, true);
    var st1 := Put(w.st, X2, v);
    CmpStep(X2, X0, st1);
    RunOpsThree(Do(i), Do(c), MissIf(CC), tlb, off, w);
    StepPut(i, w.st);
    CompareMeans(st1, v, addr, true);
    CompareKeeps(st1, v, addr);
  }

  lemma CmpStep(n: nat, m: nat, st: State)
    requires n < 31 && m < 31
    ensures WellFormed(Cmp(n, m, true)) && Step(Cmp(n, m, true), st) == Compare(st, st.x[n], st.x[m], M64)
  {
    hide Compare;
  }

  lemma {:induction false} MissedStays(os: seq<Op>, tlb: seq<Slot>, off: nat, w: Walk)
    requires OpsOk(os) && Table(tlb) && w.miss
    ensures RunOps(os, tlb, off, w) == w
    decreases |os|
  {
    hide OpOk;
    if os != [] {
      MissedStays(os[1..], tlb, off, w);
    }
  }

  /** What stays put while the checks run. */
  ghost predicate Kept(t: State, st: State)
  {
    forall q :: 0 <= q < 31 && q != X1 && q != X2 ==> t.x[q] == st.x[q]
  }

  lemma BoundsRuns(tlb: seq<Slot>, off: nat, size: nat, w: Walk, k: nat, addr: Word)
    requires Table(tlb) && !w.miss && At(w.st, off, k, addr) && size <= 4095
    ensures OpsOk(BoundsOps(size))
    ensures var t := RunOps(BoundsOps(size), tlb, off, w);
            t.miss == !FastHit(tlb[k], addr, size, false) && Kept(t.st, w.st)
  {
    hide RunOps, OpOk;
    var o1, o2, o3 := [LdrField(X1, BaseField), Do(Cmp(X0, X1, true)), MissIf(CC)],
                      [Do(AddI(X2, X0, size, true)), Do(Cmp(X2, X0, true)), MissIf(CC)],
                      [LdrField(X1, EndField), Do(Cmp(X2, X1, true)), MissIf(HI)];
    CheckRuns(tlb, off, BaseField, X0, CC, w, k, addr);
    var w1 := RunOps(o1, tlb, off, w);
    CheckOk(size);
    RunOpsAppend(o1, o2, tlb, off, w);
    var w2 := RunOps(o2, tlb, off, w1);
    RunOpsAppend(o1 + o2, o3, tlb, off, w);
    if w1.miss {
      MissedStays(o2, tlb, off, w1);
      MissedStays(o3, tlb, off, w1);
    } else {
      WrapRuns(tlb, off, size, w1);
      if w2.miss {
        MissedStays(o3, tlb, off, w2);
      } else {
        CheckRuns(tlb, off, EndField, X2, HI, w2, k, addr);
      }
    }
  }

  lemma CheckOk(size: nat)
    requires size <= 4095
    ensures OpsOk([LdrField(X1, BaseField), Do(Cmp(X0, X1, true)), MissIf(CC)])
    ensures OpsOk([Do(AddI(X2, X0, size, true)), Do(Cmp(X2, X0, true)), MissIf(CC)])
    ensures OpsOk([LdrField(X1, EndField), Do(Cmp(X2, X1, true)), MissIf(HI)])
  {
  }

  // --- writable and not copy-on-write ---

  lemma WritableBit(flags: nat)
    requires flags < M32
    ensures (BitAnd(flags, PF_W) != 0) == Writable(flags)
  {
    assert BitAnd(flags / 2, 1) == flags / 2 % 2 by { Pow2Small(); MaskIsMod(flags / 2, 1); assert Pow2(1) == 2; }
    assert flags > 0 ==> BitAnd(flags, 2) == flags % 2 * 0 + 2 * BitAnd(flags / 2, 1);
  }

  lemma FlagRuns(tlb: seq<Slot>, off: nat, w: Walk, k: nat, addr: Word)
    requires Table(tlb) && !w.miss && At(w.st, off, k, addr)
    ensures var os := [LdrField(X1, FlagsField)] + Code(MovImm(X2, PF_W, false)) + [Do(Tst(X1, X2, false)), MissIf(EQ)];
            OpsOk(os) &&
            var t := RunOps(os, tlb, off, w);
            t.miss == !Writable(tlb[k].flags) && Kept(t.st, w.st)
  {
    hide RunOps, MovImm, Run, BitAnd, Writable, Step, SlotAt, Code;
    SlotFound(tlb, off, w.st, k, addr);
    var flags := tlb[k].flags;
    var mov := MovImm(X2, PF_W, false);
    var o1, o2 := [LdrField(X1, FlagsField)], Code(mov);
    RunOpsOne(LdrField(X1, FlagsField), tlb, off, w);
    var w1 := w.(st := Put(w.st, X1, flags));
    MovImmSets(X2, PF_W, false, w1.st);
    RunCode(mov, tlb, off, w1);
    RunOpsAppend(o1, o2, tlb, off, w);
    var w2 := w.(st := Put(w1.st, X2, PF_W));
    TstRuns(tlb, off, w2, flags);
    RunOpsAppend(o1 + o2, [Do(Tst(X1, X2, false)), MissIf(EQ)], tlb, off, w);
  }

  lemma TstRuns(tlb: seq<Slot>, off: nat, w: Walk, flags: nat)
    requires Table(tlb) && !w.miss && flags < M32 && w.st.x[X1] == flags && w.st.x[X2] == PF_W
    ensures var os := [Do(Tst(X1, X2, false)), MissIf(EQ)];
            OpsOk(os) &&
            var t := RunOps(os, tlb, off, w);
            t.miss == !Writable(flags) && t.st.x == w.st.x
  {
    hide RunOps, BitAnd, Writable;
    var a, b := Do(Tst(X1, X2, false)), MissIf(EQ);
    WritableBit(flags);
    RunOpsOne(a, tlb, off, w);
    RunOpsOne(b, tlb, off, StepOp(a, tlb, off, w));
    RunOpsAppend([a], [b], tlb, off, w);
    assert [a] + [b] == [a, b];
  }

  lemma CowRuns(tlb: seq<Slot>, off: nat, w: Walk, k: nat, addr: Word)
    requires Table(tlb) && !w.miss && At(w.st, off, k, addr)
    ensures var os := [LdrField(X1, CowField), MissUnlessZero(X1)];
            OpsOk(os) &&
            var t := RunOps(os, tlb, off, w);
            t.miss == tlb[k].cow && Kept(t.st, w.st)
  {
    hide RunOps, SlotAt;
    SlotFound(tlb, off, w.st, k, addr);
    var a, b := LdrField(X1, CowField), MissUnlessZero(X1);
    RunOpsOne(a, tlb, off, w);
    RunOpsOne(b, tlb, off, StepOp(a, tlb, off, w));
    RunOpsAppend([a], [b], tlb, off, w);
    assert [a] + [b] == [a, b];
  }

  lemma WriteRuns(tlb: seq<Slot>, off: nat, w: Walk, k: nat, addr: Word)
    requires Table(tlb) && !w.miss && At(w.st, off, k, addr)
    ensures OpsOk(WriteOps())
    ensures var t := RunOps(WriteOps(), tlb, off, w);
            t.miss == !(Writable(tlb[k].flags) && !tlb[k].cow) && Kept(t.st, w.st)
  {
    hide RunOps, OpOk, MovImm, Writable, Code;
    var o1 := [LdrField(X1, FlagsField)] + Code(MovImm(X2, PF_W, false)) + [Do(Tst(X1, X2, false)), MissIf(EQ)];
    var o2 := [LdrField(X1, CowField), MissUnlessZero(X1)];
    FlagRuns(tlb, off, w, k, addr);
    var w1 := RunOps(o1, tlb, off, w);
    CowOk();
    RunOpsAppend(o1, o2, tlb, off, w);
    if w1.miss {
      MissedStays(o2, tlb, off, w1);
    } else {
      CowRuns(tlb, off, w1, k, addr);
    }
  }

  lemma CowOk()
    ensures OpsOk([LdrField(X1, CowField), MissUnlessZero(X1)])
  {
  }

  // --- the hit ---

  lemma HitRuns(tlb: seq<Slot>, off: nat, w: Walk, k: nat, addr: Word)
    requires Table(tlb) && !w.miss && At(w.st, off, k, addr)
    ensures OpsOk(HitOps())
    ensures var t := RunOps(HitOps(), tlb, off, w);
            !t.miss && t.st.x[X0] == (tlb[k].host + (addr - tlb[k].base)) % M64 &&
            forall q :: 3 <= q < 31 && q != X15 ==> t.st.x[q] == w.st.x[q]
  {
    hide RunOps, SlotAt, Step, WellFormed;
    var s := tlb[k];
    SlotFound(tlb, off, w.st, k, addr);
    var st1 := Put(w.st, X1, s.base);
    SubStep(X0, X0, X1, st1);
    var st2 := Put(st1, X0, (addr - s.base) % M64);
    SlotFound(tlb, off, st2, k, (addr - s.base) % M64);
    var st3 := Put(st2, X1, s.host);
    AddStep(X0, X0, X1, st3);
    RunOpsThree(LdrField(X1, BaseField), Do(Sub(X0, X0, X1, true)), LdrField(X1, HostField), tlb, off, w);
    RunOpsOne(Do(Add(X0, X0, X1, true)), tlb, off, w.(st := st3));
    RunOpsAppend([LdrField(X1, BaseField), Do(Sub(X0, X0, X1, true)), LdrField(X1, HostField)],
                 [Do(Add(X0, X0, X1, true))], tlb, off, w);
    AddAgain(addr - s.base, s.host);
  }

  lemma AddAgain(v: int, h: nat)
    ensures (v % M64 + h) % M64 == (h + v) % M64
  {
  }

  /**
   * The inline lookup takes the slow path exactly when the C++ fast path
   * would, with the guest address still in X0; on a hit X0 holds the host
   * pointer the fast path returns. The BPF registers survive either way.
   */
  lemma InlineLookupAgrees(tlb: seq<Slot>, off: nat, size: nat, write: bool, st: State)
    requires Table(tlb) && size <= 4095 && st.x[X28] + off + ENTRY_BYTES * TLB_SIZE < M64
    ensures OpsOk(LookupOps(off, size, write))
    ensures var addr := st.x[X0];
            var s := tlb[TlbIndex(addr)];
            var t := RunOps(LookupOps(off, size, write), tlb, off, Walk(st, false));
            t.miss == !FastHit(s, addr, size, write) &&
            t.st.x[X0] == (if t.miss then addr else (s.host + (addr - s.base)) % M64) &&
            forall q :: 3 <= q < 31 && q != X15 ==> t.st.x[q] == st.x[q]
  {
    hide RunOps, OpOk, IndexCode, BoundsOps, WriteOps, HitOps, TlbIndex, Writable, Run, Code;
    var addr, w := st.x[X0], Walk(st, false);
    var k := TlbIndex(addr);
    IndexRuns(off, st);
    var o1, o2, o3, o4 := Code(IndexCode(off)), BoundsOps(size), if write then WriteOps() else [], HitOps();
    RunCode(IndexCode(off), tlb, off, w);
    var w1 := RunOps(o1, tlb, off, w);
    BoundsRuns(tlb, off, size, w1, k, addr);
    RunOpsAppend(o1, o2, tlb, off, w);
    var w2 := RunOps(o2, tlb, off, w1);
    WriteRuns(tlb, off, w1, k, addr);
    HitRuns(tlb, off, w1, k, addr);
    RunOpsAppend(o1 + o2, o3, tlb, off, w);
    var w3 := RunOps(o3, tlb, off, w2);
    RunOpsAppend(o1 + o2 + o3, o4, tlb, off, w);
    if w2.miss {
      MissedStays(o3, tlb, off, w2);
      MissedStays(o4, tlb, off, w2);
    } else {
      if write { WriteRuns(tlb, off, w2, k, addr); } else { NoOps(tlb, off, w2); }
      if w3.miss {
        MissedStays(o4, tlb, off, w3);
      } else {
        HitRuns(tlb, off, w3, k, addr);
      }
    }
  }

  lemma NoOps(tlb: seq<Slot>, off: nat, w: Walk)
    requires Table(tlb)
    ensures OpsOk([]) && RunOps([], tlb, off, w) == w
  {
  }

  // ---------------------------------------------------------------------------
  // Against the search over the segments
  // ---------------------------------------------------------------------------

  /** Host address of a pointer, for a placement of the allocations. */
  function HostAddr(place: nat -> nat, p: Ptr): nat
  {
    place(p.block) + p.off
  }

  /** The bytes of the vm object's slot for a TLB entry. */
  predicate Image(place: nat -> nat, e: Entry, s: Slot)
  {
    s.base == e.base && s.end == e.end && s.flags == e.flags && s.cow == e.cow &&
    s.host == if e.host.None? then 0 else HostAddr(place, e.host.value)
  }

  /** On a hit of a non-empty range, X0 is the host address of what the linear search finds. */
  lemma InlineReadIsSearch(maps: seq<Map>, entries: seq<Entry>, tlb: seq<Slot>, place: nat -> nat,
                           off: nat, size: nat, write: bool, st: State)
    requires Table(tlb) && 0 < size <= 4095 && st.x[X28] + off + ENTRY_BYTES * TLB_SIZE < M64
    requires Sorted(maps) && |entries| == TLB_SIZE
    requires forall k :: 0 <= k < TLB_SIZE ==>
      Image(place, entries[k], tlb[k]) && (entries[k] == ZERO || exists i :: 0 <= i < |maps| && entries[k] == EntryOf(maps[i]))
    ensures OpsOk(LookupOps(off, size, write))
    ensures var t := RunOps(LookupOps(off, size, write), tlb, off, Walk(st, false));
            var r := Reads(maps, st.x[X0], size);
            !t.miss ==> r.Some? && t.st.x[X0] == HostAddr(place, r.value) % M64
  {
    hide RunOps, LookupOps, TlbIndex, Reads, Writable;
    InlineLookupAgrees(tlb, off, size, write, st);
    var addr := st.x[X0];
    var e, s := entries[TlbIndex(addr)], tlb[TlbIndex(addr)];
    assert Image(place, e, s);
    if FastHit(s, addr, size, write) {
      EntryHit(maps, e, addr, size);
    }
  }
}
