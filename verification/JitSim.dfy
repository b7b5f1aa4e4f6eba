/**
 * Running a compiled fragment next to the interpreter. Arithmetic, wide loads,
 * comparisons and jumps are executed on both sides: by the interpreter on the
 * BPF registers, by the processor on its own register file. Memory accesses
 * and floating point have one effect per side and a relation between them.
 */
module JitSim {
  import opened Words
  import opened BpfAlu
  import opened Arm
  import opened AluEmitter
  import opened Emitter
  import opened JitFlow
  import opened JitCode

  /**
   * What is not executed here: the two effects of instruction `i` on
   * registers and everything else (`M`), and whether a safepoint at a loop
   * head has to leave.
   */
  datatype Env<!M> = Env(
    guest: (int, Registers, M) -> (Registers, M),
    host: (int, State, M) -> (State, M),
    stop: (int, State, M) -> bool)

  /** The two effects agree on the BPF registers and on the rest. */
  ghost predicate EffectAgrees<M(!new)>(env: Env<M>, i: int)
  {
    forall st: State, m: M ::
      var e := env.host(i, st, m); (BpfRegs(e.0), e.1) == env.guest(i, BpfRegs(st), m)
  }

  ghost predicate EffectsAgree<M(!new)>(prog: seq<Raw>, env: Env<M>)
  {
    forall i :: 0 <= i < |prog| && IsEffect(prog[i]) ==> EffectAgrees(env, i)
  }

  // --- the interpreter, by instruction index ---

  datatype Guest<M> = At(i: int, r: Registers, m: M) | Done(i: int, r: Registers, m: M) | Calling(i: int, r: Registers, m: M)

  /** `vm::alu` and `vm::alu64`; a refused operation stops the interpreter and is not compiled. */
  function GuestAlu(x: Raw, r: Registers): Registers
    requires RegsOk(x)
  {
    var i, is64 := InsnOf(x), Is64(x);
    var v := AluResult(i, is64, r[i.dst], Operand(r, i, is64));
    AluResultFits(i, is64, r[i.dst], Operand(r, i, is64));
    if v.Result? then r[i.dst := v.value] else r
  }

  predicate GuestTaken(x: Raw, r: Registers)
    requires RegsOk(x)
  {
    var i, is64 := InsnOf(x), Is64(x);
    Taken(i.op, r[i.dst] % Size(is64), Operand(r, i, is64), Size(is64))
  }

  function GuestStep<M>(prog: seq<Raw>, env: Env<M>, g: Guest<M>): Guest<M>
  {
    if !g.At? || g.i < 0 || g.i >= |prog| || !RegsOk(prog[g.i]) then g
    else
      var x := prog[g.i];
      if IsExit(x) then Done(g.i, g.r, g.m)
      else if IsJa(x) then At(JumpTarget(x, g.i), g.r, g.m)
      else if IsBranch(x) then At(if GuestTaken(x, g.r) then JumpTarget(x, g.i) else g.i + 1, g.r, g.m)
      else if IsCallOut(x) then Calling(g.i, g.r, g.m)
      else if IsEffect(x) then var e := env.guest(g.i, g.r, g.m); At(NextSlot(x, g.i), e.0, e.1)
      else if IsAlu(x) then At(NextSlot(x, g.i), GuestAlu(x, g.r), g.m)
      else At(NextSlot(x, g.i), g.r[x.dst := WideValue(prog, g.i)], g.m)
  }

  function GuestRun<M>(prog: seq<Raw>, env: Env<M>, g: Guest<M>, n: nat): Guest<M>
  {
    if n == 0 then g else GuestStep(prog, env, GuestRun(prog, env, g, n - 1))
  }

  // --- the native code ---

  datatype Host<M> =
    | Running(pos: nat, pc: nat, st: State, m: M)
    | Left(pc: nat, st: State, m: M)
    | Exited(i: nat, st: State, m: M)
    | Called(i: nat, st: State, m: M)
    | Lost

  function HostStep<M>(code: seq<Native>, gpa: nat, env: Env<M>, h: Host<M>): Host<M>
  {
    if !h.Running? then h
    else if h.pos >= |code| then Lost
    else match code[h.pos]
      case Flush => Left(h.pc, h.st, h.m)
      case Poll(i) => if env.stop(i, h.st, h.m) then Left(Address(gpa, i), h.st, h.m) else h.(pos := h.pos + 1)
      case Work(ins) => if AllWellFormed(ins) then h.(pos := h.pos + 1, st := Run(ins, h.st)) else Lost
      case Effect(i) => var e := env.host(i, h.st, h.m); h.(pos := h.pos + 1, st := e.0, m := e.1)
      case SkipIf(ins, c, dist) =>
        if AllWellFormed(ins) then
          var t := Run(ins, h.st);
          h.(pos := h.pos + (if Holds(c, t) then dist else 1), st := t)
        else Lost
      case B(target) => h.(pos := target)
      case SetPc(pc) => h.(pos := h.pos + 1, pc := pc, st := Put(h.st, X0, pc % M64))
      case CallOut(i) => Called(i, h.st, h.m)
      case Leave(i) => Exited(i, h.st, h.m)
  }

  function HostRun<M>(code: seq<Native>, gpa: nat, env: Env<M>, h: Host<M>, n: nat): Host<M>
    decreases n
  {
    if n == 0 then h else HostRun(code, gpa, env, HostStep(code, gpa, env, h), n - 1)
  }

  lemma {:induction false} HostRunAdd<M>(code: seq<Native>, gpa: nat, env: Env<M>, h: Host<M>, m: nat, n: nat)
    ensures HostRun(code, gpa, env, h, m + n) == HostRun(code, gpa, env, HostRun(code, gpa, env, h, m), n)
    decreases m
  {
    hide HostStep;
    if m > 0 {
      HostRunAdd(code, gpa, env, HostStep(code, gpa, env, h), m - 1, n);
    }
  }

  // ---------------------------------------------------------------------------
  // Single instructions on both sides
  // ---------------------------------------------------------------------------

  /** The arithmetic the emitter accepts, by `AluCorrect`. */
  lemma AluSimulates(prog: seq<Raw>, i: nat, st: State)
    requires i < |prog| && Accepted(prog[i]) && IsAlu(prog[i])
    ensures var code := WorkCode(prog, i); AllWellFormed(code) && BpfRegs(Run(code, st)) == GuestAlu(prog[i], BpfRegs(st))
  {
    hide AluCode, Run, WellFormed, AluResult, BpfRegs;
    AluCorrect(InsnOf(prog[i]), Is64(prog[i]), st);
  }

  /** A wide load, by `MovImmSets`. */
  lemma WideSimulates(prog: seq<Raw>, i: nat, st: State)
    requires i < |prog| && RegsOk(prog[i]) && !IsAlu(prog[i])
    ensures var code := WorkCode(prog, i);
            AllWellFormed(code) && BpfRegs(Run(code, st)) == BpfRegs(st)[prog[i].dst := WideValue(prog, i)]
  {
    hide Run, WellFormed, MovImm, WideValue;
    var d := prog[i].dst;
    MovImmSets(RegMap(d), WideValue(prog, i), true, st);
    PutBpf(st, d, WideValue(prog, i));
  }

  lemma PutBpf(st: State, r: nat, v: Word)
    requires r <= 10
    ensures BpfRegs(Put(st, RegMap(r), v)) == BpfRegs(st)[r := v]
  {
  }

  lemma ScratchBpf(st: State, v: Word)
    ensures BpfRegs(Put(st, X0, v)) == BpfRegs(st)
  {
  }

  /** The emitted comparison and skip go the interpreter's way and keep the BPF registers. */
  ghost predicate SkipAgrees(x: Raw, dist: nat, st: State)
    requires RegsOk(x)
  {
    var s := SkipCode(x, dist);
    s.SkipIf? && s.dist == dist && AllWellFormed(s.code) &&
    BpfRegs(Run(s.code, st)) == BpfRegs(st) && Holds(s.cond, Run(s.code, st)) == !GuestTaken(x, BpfRegs(st))
  }

  /** A conditional jump is right in all states exactly when it is not the form of `BranchAgreesIff`. */
  lemma CompareSimulatesIff(x: Raw, dist: nat)
    requires Accepted(x) && IsBranch(x)
    ensures RegsOk(x) && ((forall st :: SkipAgrees(x, dist, st)) <==> !WrongExtension(InsnOf(x), Is64(x)))
  {
    hide Accepted, WrongExtension, BranchAgrees, SkipAgrees;
    BranchCompares(x);
    var i, is64 := InsnOf(x), Is64(x);
    BranchAgreesIff(i, is64);
    if WrongExtension(i, is64) {
      var st :| !BranchAgrees(i, is64, st);
      SkipIsBranch(x, dist, st);
    } else {
      forall st
        ensures SkipAgrees(x, dist, st)
      {
        assert BranchAgrees(i, is64, st);
        SkipIsBranch(x, dist, st);
      }
    }
  }

  lemma SkipIsBranch(x: Raw, dist: nat, st: State)
    requires RegsOk(x) && IsCompare(Op(x))
    ensures SkipAgrees(x, dist, st) <==> BranchAgrees(InsnOf(x), Is64(x), st)
  {
    hide CompareCode, Run, WellFormed, BpfRegs, CondOf, Taken, Holds, Flipped;
    var i, is64 := InsnOf(x), Is64(x);
    if AllWellFormed(CompareCode(i, is64)) {
      FlippedConditionIsOpposite(CondOf(i.op), Run(CompareCode(i, is64), st));
    }
  }

  lemma BranchCompares(x: Raw)
    requires Accepted(x) && IsBranch(x)
    ensures RegsOk(x) && IsCompare(Op(x))
  {
    hide AluCode;
  }

  // ---------------------------------------------------------------------------
  // Simulation
  // ---------------------------------------------------------------------------

  /** No instruction with code runs past the end of the segment. */
  ghost predicate StaysInside(prog: seq<Raw>)
  {
    forall i: nat :: Live(prog, i) && FallsThrough(prog[i]) ==> NextSlot(prog[i], i) < |prog|
  }

  /** No live comparison is the one form the emitter gets wrong. */
  predicate NoWrongExtension(prog: seq<Raw>, plan: Plan)
    requires Shaped(prog, plan)
  {
    forall i :: 0 <= i < plan.size && plan.live[i] && IsBranch(prog[i]) ==> !WrongExtension(InsnOf(prog[i]), Is64(prog[i]))
  }

  ghost predicate Compiled(prog: seq<Raw>, plan: Plan, gpa: nat, code: seq<Native>)
  {
    Shaped(prog, plan) && Discovered(prog, plan) && AllAccepted(prog, plan) && TargetsLive(prog, plan) &&
    code == Linked(prog, plan, gpa, plan.size)
  }

  /** What the theorems require of program and effects. */
  ghost predicate Faithful<M(!new)>(prog: seq<Raw>, plan: Plan, env: Env<M>)
    requires Shaped(prog, plan)
  {
    StaysInside(prog) && NoWrongExtension(prog, plan) && EffectsAgree(prog, env)
  }

  /** The native state that stands for a guest state. */
  ghost predicate Matches<M>(prog: seq<Raw>, plan: Plan, gpa: nat, h: Host<M>, g: Guest<M>)
    requires Shaped(prog, plan)
  {
    !h.Lost? && BpfRegs(h.st) == g.r && h.m == g.m &&
    match g
    case Done(i, _, _) => h.Exited? && h.i == i
    case Calling(i, _, _) => h.Called? && h.i == i
    case At(i, _, _) =>
      (h.Left? && h.pc == Address(gpa, i)) ||
      (0 <= i < plan.size && plan.live[i] && h.Running? && h.pos == Offset(prog, plan, gpa, i))
  }

  lemma SlotsFit(prog: seq<Raw>, i: nat)
    requires Live(prog, i) && FallsThrough(prog[i]) && NextSlot(prog[i], i) < |prog|
    ensures Live(prog, NextSlot(prog[i], i))
  {
    hide Reachable;
    var j := NextSlot(prog[i], i);
    assert Reachable(prog, j) by {
      assert Edge(prog, i, j);
      EdgeReachable(prog, i, j);
    }
    if IsWide(prog[i]) {
      assert !Live(prog, i + 1);
    }
  }

  /** Code falls through to the code of the interpreter's next instruction. */
  lemma FallThroughOffset(prog: seq<Raw>, plan: Plan, gpa: nat, i: nat)
    requires Discovered(prog, plan) && StaysInside(prog)
    requires i < plan.size && plan.live[i] && FallsThrough(prog[i])
    ensures var j := NextSlot(prog[i], i);
            0 <= j < plan.size && plan.live[j] &&
            Offset(prog, plan, gpa, j) == Offset(prog, plan, gpa, i) + |Unit(plan, prog, i, gpa, 0)|
  {
    hide Reachable, Unit, IsWide, FallsThrough;
    var j := NextSlot(prog[i], i);
    SlotsFit(prog, i);
    assert Live(prog, j);
    if IsWide(prog[i]) {
      assert !Live(prog, i + 1);
      assert Offset(prog, plan, gpa, i + 2) == Offset(prog, plan, gpa, i + 1);
    }
  }

  /** The unit sits at its offset. */
  lemma UnitInCode(prog: seq<Raw>, plan: Plan, gpa: nat, code: seq<Native>, i: nat)
    requires Compiled(prog, plan, gpa, code) && i < plan.size && plan.live[i]
    ensures var o := Offset(prog, plan, gpa, i);
            var u := Unit(plan, prog, i, gpa, Dest(prog, plan, gpa, i));
            |u| == |Unit(plan, prog, i, gpa, 0)| && o + |u| <= |code| &&
            forall k :: 0 <= k < |u| ==> code[o + k] == u[k]
  {
    hide Unit, Offset, Dest, Discovered, Linked, TargetsLive, AllAccepted;
    LinkedAt(prog, plan, gpa, i, plan.size);
    UnitPatched(plan, prog, i, gpa, Dest(prog, plan, gpa, i));
    var o := Offset(prog, plan, gpa, i);
    var u := Unit(plan, prog, i, gpa, Dest(prog, plan, gpa, i));
    forall k | 0 <= k < |u|
      ensures code[o + k] == u[k]
    {
      assert code[o..o + |u|][k] == code[o + k];
    }
  }

  /** A block of one piece, or the pieces of a jump, by kind of instruction. */
  lemma BlockKinds(prog: seq<Raw>, i: nat, n: nat, gpa: nat, dest: nat)
    requires i < |prog| && Accepted(prog[i])
    ensures var x, t, b := prog[i], JumpTarget(prog[i], i), Block(prog, i, n, gpa, dest);
            if IsJa(x) then b == if Outside(t, n) then [SetPc(Address(gpa, t)), B(dest)] else [B(dest)]
            else if IsExit(x) then b == [Leave(i)]
            else if IsBranch(x) then
              b == if Outside(t, n) then [SkipCode(x, 3), SetPc(Address(gpa, t)), B(dest)] else [SkipCode(x, 2), B(dest)]
            else if IsCallOut(x) then b == [CallOut(i)]
            else if IsEffect(x) then b == [Effect(i)]
            else b == [Work(WorkCode(prog, i))] && (IsAlu(x) || IsWide(x))
    ensures RegsOk(prog[i])
  {
    hide AluCode, WorkCode, SkipCode, Address;
  }

  /** One step of straight-line code. */
  lemma StraightSimulates<M(!new)>(prog: seq<Raw>, plan: Plan, gpa: nat, code: seq<Native>, env: Env<M>, i: nat, pos: nat,
                                   pc: nat, st: State, m: M)
    requires Shaped(prog, plan) && Faithful(prog, plan, env) && i < plan.size && Accepted(prog[i])
    requires !IsJa(prog[i]) && !IsExit(prog[i]) && !IsBranch(prog[i]) && !IsCallOut(prog[i])
    requires pos < |code| && code[pos] == Block(prog, i, plan.size, gpa, Dest(prog, plan, gpa, i))[0]
    ensures var h := HostStep(code, gpa, env, Running(pos, pc, st, m));
            var g := GuestStep(prog, env, At(i, BpfRegs(st), m));
            h.Running? && h.pos == pos + 1 && g.At? && g.i == NextSlot(prog[i], i) && BpfRegs(h.st) == g.r && h.m == g.m
  {
    hide Accepted, WorkCode, Dest, StaysInside, NoWrongExtension, BpfRegs, Run, WellFormed, GuestAlu, WideValue,
      IsJa, IsExit, IsBranch, IsCallOut, IsEffect, IsAlu, IsWide, RegsOk;
    BlockKinds(prog, i, plan.size, gpa, Dest(prog, plan, gpa, i));
    if IsEffect(prog[i]) {
      assert EffectAgrees(env, i);
      var e := env.host(i, st, m);
      assert (BpfRegs(e.0), e.1) == env.guest(i, BpfRegs(st), m);
    } else if IsAlu(prog[i]) {
      AluSimulates(prog, i, st);
    } else {
      WideSimulates(prog, i, st);
    }
  }

  lemma CompiledFacts(prog: seq<Raw>, plan: Plan, gpa: nat, code: seq<Native>, i: nat)
    requires Compiled(prog, plan, gpa, code) && i < plan.size && plan.live[i]
    ensures |code| >= 1 && code[0] == Flush && Accepted(prog[i])
    ensures var t := JumpTarget(prog[i], i);
            IsJa(prog[i]) || IsBranch(prog[i]) ==>
              if Outside(t, plan.size) then Dest(prog, plan, gpa, i) == FLUSH
              else plan.live[t] && Dest(prog, plan, gpa, i) == Offset(prog, plan, gpa, t)
  {
    hide Discovered, Offset, IsJa, IsBranch, JumpTarget, Accepted;
    LinkedHead(prog, plan, gpa, plan.size);
    assert TargetLive(prog, plan, i);
  }

  lemma {:induction false} LinkedHead(prog: seq<Raw>, plan: Plan, gpa: nat, k: nat)
    requires Shaped(prog, plan) && k <= plan.size
    ensures |Linked(prog, plan, gpa, k)| >= 1 && Linked(prog, plan, gpa, k)[0] == Flush
  {
    hide Unit, Dest, Offset;
    if k > 0 {
      LinkedHead(prog, plan, gpa, k - 1);
    }
  }

  lemma ThreeSteps<M>(code: seq<Native>, gpa: nat, env: Env<M>, h: Host<M>)
    ensures HostRun(code, gpa, env, h, 0) == h
    ensures HostRun(code, gpa, env, h, 1) == HostStep(code, gpa, env, h)
    ensures HostRun(code, gpa, env, h, 2) == HostStep(code, gpa, env, HostStep(code, gpa, env, h))
    ensures HostRun(code, gpa, env, h, 3) ==
            HostStep(code, gpa, env, HostStep(code, gpa, env, HostStep(code, gpa, env, h)))
  {
    hide HostStep;
    assert HostRun(code, gpa, env, h, 1) == HostRun(code, gpa, env, HostStep(code, gpa, env, h), 0);
    var s := HostStep(code, gpa, env, h);
    assert HostRun(code, gpa, env, s, 1) == HostRun(code, gpa, env, HostStep(code, gpa, env, s), 0);
    var u := HostStep(code, gpa, env, s);
    assert HostRun(code, gpa, env, u, 1) == HostRun(code, gpa, env, HostStep(code, gpa, env, u), 0);
    assert HostRun(code, gpa, env, s, 2) == HostRun(code, gpa, env, u, 1);
  }

  /** Setting the pc and branching to the flush leaves at that pc. */
  lemma DeoptSteps<M>(code: seq<Native>, gpa: nat, env: Env<M>, pos: nat, pc: nat, st: State, m: M, target: Word)
    requires pos + 1 < |code| && code[pos] == SetPc(target) && code[pos + 1] == B(FLUSH) && code[0] == Flush
    ensures var h := HostRun(code, gpa, env, Running(pos, pc, st, m), 3);
            h.Left? && h.pc == target && BpfRegs(h.st) == BpfRegs(st) && h.m == m
  {
    hide HostRun, BpfRegs;
    ThreeSteps(code, gpa, env, Running(pos, pc, st, m));
    ScratchBpf(st, target);
  }

  /** The body of an unconditional or conditional jump. */
  lemma JumpSimulates<M(!new)>(prog: seq<Raw>, plan: Plan, gpa: nat, code: seq<Native>, env: Env<M>, i: nat, pos: nat,
                               pc: nat, st: State, m: M)
    returns (k: nat)
    requires Compiled(prog, plan, gpa, code) && Faithful(prog, plan, env) && i < plan.size && plan.live[i]
    requires IsJa(prog[i]) || IsBranch(prog[i])
    requires BlockAt(prog, plan, gpa, code, i, pos)
    ensures Matches(prog, plan, gpa, HostRun(code, gpa, env, Running(pos, pc, st, m), k), GuestStep(prog, env, At(i, BpfRegs(st), m)))
  {
    hide Offset, Dest, Discovered, TargetsLive, Linked, Unit, IsJa, IsExit, IsBranch, NextSlot, JumpTarget, HostRun, StaysInside,
      AllAccepted, Accepted, Block, SkipCode, BpfRegs, Run, WellFormed, GuestTaken, Address, EffectsAgree, RegsOk;
    var x, n := prog[i], plan.size;
    var t, dest := JumpTarget(x, i), Dest(prog, plan, gpa, i);
    var b := Block(prog, i, n, gpa, dest);
    CompiledFacts(prog, plan, gpa, code, i);
    Kinds(x);
    BlockKinds(prog, i, n, gpa, dest);
    var h := Running(pos, pc, st, m);
    ThreeSteps(code, gpa, env, h);
    assert code[pos + 0] == b[0];
    if IsJa(x) {
      if Outside(t, n) {
        assert code[pos + 1] == b[1];
        DeoptSteps(code, gpa, env, pos, pc, st, m, Address(gpa, t));
        k := 3;
      } else {
        k := 1;
      }
    } else {
      FallThroughOffset(prog, plan, gpa, i) by { CompiledFalls(prog, plan, gpa, code, i); }
      BranchNext(x, i);
      CompareSimulatesIff(x, if Outside(t, n) then 3 else 2);
      assert SkipAgrees(x, if Outside(t, n) then 3 else 2, st);
      assert code[pos + 1] == b[1];
      var h' := HostStep(code, gpa, env, h);
      if !GuestTaken(x, BpfRegs(st)) {
        k := 1;
      } else if Outside(t, n) {
        assert code[pos + 2] == b[2];
        DeoptSteps(code, gpa, env, pos + 1, pc, h'.st, m, Address(gpa, t));
        HostRunAdd(code, gpa, env, h, 1, 3);
        k := 4;
      } else {
        k := 2;
      }
    }
  }

  /** The block of instruction `i` lies at `pos` and ends where the code of `i` ends. */
  ghost predicate BlockAt(prog: seq<Raw>, plan: Plan, gpa: nat, code: seq<Native>, i: nat, pos: nat)
    requires Shaped(prog, plan) && i < plan.size
  {
    var b := Block(prog, i, plan.size, gpa, Dest(prog, plan, gpa, i));
    pos + |b| == Offset(prog, plan, gpa, i) + |Unit(plan, prog, i, gpa, 0)| && pos + |b| <= |code| &&
    forall j :: 0 <= j < |b| ==> code[pos + j] == b[j]
  }

  lemma Kinds(x: Raw)
    ensures IsJa(x) ==> !IsExit(x) && !IsBranch(x) && !IsCallOut(x)
    ensures IsBranch(x) ==> !IsExit(x) && !IsCallOut(x)
    ensures IsCallOut(x) ==> !IsExit(x)
  {
  }

  lemma BranchNext(x: Raw, i: nat)
    requires IsBranch(x)
    ensures NextSlot(x, i) == i + 1
  {
  }

  lemma CompiledFalls(prog: seq<Raw>, plan: Plan, gpa: nat, code: seq<Native>, i: nat)
    requires Compiled(prog, plan, gpa, code) && i < plan.size && !IsJa(prog[i]) && !IsExit(prog[i])
    ensures Discovered(prog, plan) && FallsThrough(prog[i])
  {
  }

  /** The body of one instruction, after its safepoint. */
  lemma BlockSimulates<M(!new)>(prog: seq<Raw>, plan: Plan, gpa: nat, code: seq<Native>, env: Env<M>, i: nat, pos: nat,
                                pc: nat, st: State, m: M)
    returns (k: nat)
    requires Compiled(prog, plan, gpa, code) && Faithful(prog, plan, env) && i < plan.size && plan.live[i]
    requires BlockAt(prog, plan, gpa, code, i, pos)
    ensures Matches(prog, plan, gpa, HostRun(code, gpa, env, Running(pos, pc, st, m), k), GuestStep(prog, env, At(i, BpfRegs(st), m)))
  {
    hide Offset, Dest, Discovered, TargetsLive, Linked, Unit, IsJa, IsExit, IsBranch, NextSlot, JumpTarget, HostRun, StaysInside,
      AllAccepted, Accepted, Block, BpfRegs, Run, WellFormed, Address, EffectsAgree, NoWrongExtension, RegsOk, IsCallOut, IsEffect, IsAlu,
      GuestAlu, WideValue, GuestTaken;
    var x, n := prog[i], plan.size;
    var b := Block(prog, i, n, gpa, Dest(prog, plan, gpa, i));
    var h := Running(pos, pc, st, m);
    if IsJa(x) || IsBranch(x) {
      k := JumpSimulates(prog, plan, gpa, code, env, i, pos, pc, st, m);
    } else {
      CompiledFacts(prog, plan, gpa, code, i);
      BlockKinds(prog, i, n, gpa, Dest(prog, plan, gpa, i));
      ThreeSteps(code, gpa, env, h);
      assert code[pos + 0] == b[0];
      k := 1;
      if !IsExit(x) && !IsCallOut(x) {
        FallThroughOffset(prog, plan, gpa, i) by { CompiledFalls(prog, plan, gpa, code, i); }
        StraightSimulates(prog, plan, gpa, code, env, i, pos, pc, st, m);
      }
    }
  }

  /**
   * From the start of an instruction's code the host either stops at its
   * safepoint, with pc_ at this very instruction, or takes exactly the
   * interpreter's step.
   */
  lemma StepSimulates<M(!new)>(prog: seq<Raw>, plan: Plan, gpa: nat, code: seq<Native>, env: Env<M>, i: nat,
                               pc: nat, st: State, m: M)
    returns (k: nat)
    requires Compiled(prog, plan, gpa, code) && Faithful(prog, plan, env) && i < plan.size && plan.live[i]
    ensures var h := HostRun(code, gpa, env, Running(Offset(prog, plan, gpa, i), pc, st, m), k);
            if plan.head[i] && env.stop(i, st, m) then h == Left(Address(gpa, i), st, m)
            else Matches(prog, plan, gpa, h, GuestStep(prog, env, At(i, BpfRegs(st), m)))
  {
    hide Offset, Dest, Discovered, Faithful, HostRun, Matches, GuestStep, Linked, Block, BpfRegs, Address;
    var o := Offset(prog, plan, gpa, i);
    UnitInCode(prog, plan, gpa, code, i);
    var b := Block(prog, i, plan.size, gpa, Dest(prog, plan, gpa, i));
    var u := Unit(plan, prog, i, gpa, Dest(prog, plan, gpa, i));
    var start := Running(o, pc, st, m);
    if plan.head[i] {
      assert u == [Poll(i)] + b;
      assert code[o + 0] == u[0];
      ThreeSteps(code, gpa, env, start);
      k := 1;
      if !env.stop(i, st, m) {
        assert BlockAt(prog, plan, gpa, code, i, o + 1) by {
          forall j | 0 <= j < |b| ensures code[o + 1 + j] == b[j] { assert code[o + (1 + j)] == u[1 + j]; }
        }
        var n := BlockSimulates(prog, plan, gpa, code, env, i, o + 1, pc, st, m);
        HostRunAdd(code, gpa, env, start, 1, n);
        k := 1 + n;
      }
    } else {
      assert u == [] + b == b;
      k := BlockSimulates(prog, plan, gpa, code, env, i, o, pc, st, m);
    }
  }

  /**
   * Main result. Start interpreter and native code in matching states at any
   * instruction that has code: the entry, or the instruction behind a call
   * that has returned. Run the interpreter `n` steps. The native code reaches
   * a state standing for the interpreter's after `p <= n` steps; `p < n` only
   * when it has left the fragment or is at a call, with pc_, all BPF registers
   * and memory those of the interpreter at that point.
   */
  lemma {:induction false} FragmentSimulates<M(!new)>(prog: seq<Raw>, plan: Plan, gpa: nat, code: seq<Native>, env: Env<M>,
                                                      i: nat, pc: nat, st: State, m: M, n: nat)
    returns (k: nat, p: nat)
    requires Compiled(prog, plan, gpa, code) && Faithful(prog, plan, env) && i < plan.size && plan.live[i]
    ensures p <= n
    ensures var h := HostRun(code, gpa, env, Running(Offset(prog, plan, gpa, i), pc, st, m), k);
            Matches(prog, plan, gpa, h, GuestRun(prog, env, At(i, BpfRegs(st), m), p)) && (p == n || !h.Running?)
  {
    hide Discovered, Offset, HostStep, GuestStep, Faithful, Linked, BpfRegs, AllAccepted, TargetsLive, Address;
    var start := Running(Offset(prog, plan, gpa, i), pc, st, m);
    if n == 0 {
      return 0, 0;
    }
    k, p := FragmentSimulates(prog, plan, gpa, code, env, i, pc, st, m, n - 1);
    var h := HostRun(code, gpa, env, start, k);
    var g := GuestRun(prog, env, At(i, BpfRegs(st), m), p);
    if h.Running? {
      var j := StepSimulates(prog, plan, gpa, code, env, g.i, h.pc, h.st, h.m);
      HostRunAdd(code, gpa, env, start, k, j);
      k := k + j;
      if !(plan.head[g.i] && env.stop(g.i, h.st, h.m)) {
        p := n;
      }
    }
  }

  lemma EntryLive(prog: seq<Raw>, plan: Plan)
    requires Discovered(prog, plan) && prog != []
    ensures plan.size > 0 && plan.live[0]
  {
    StartReachable(prog);
    assert Live(prog, 0);
  }

  /** The two places a fragment is entered at: its first instruction, and the one behind a call. */
  lemma EntryPoints(prog: seq<Raw>, plan: Plan, i: nat)
    requires Discovered(prog, plan) && StaysInside(prog) && prog != []
    ensures plan.size > 0 && plan.live[0]
    ensures i < plan.size && plan.live[i] && IsCallOut(prog[i]) ==> i + 1 < plan.size && plan.live[i + 1]
  {
    hide Reachable;
    EntryLive(prog, plan);
    if i < plan.size && plan.live[i] && IsCallOut(prog[i]) {
      FallThroughOffset(prog, plan, 0, i);
    }
  }

  // ---------------------------------------------------------------------------
  // Safepoints
  // ---------------------------------------------------------------------------

  /** Between loop heads the instruction index only grows. */
  lemma ForwardUnlessHead(prog: seq<Raw>, i: nat, j: nat)
    requires Live(prog, i) && Edge(prog, i, j)
    ensures j > i || LoopHead(prog, j)
  {
    hide Reachable;
    if j <= i {
      assert BackEdge(prog, j, i);
    }
  }

  /** A path of control through code of the fragment that meets no loop head after its start. */
  ghost predicate Unpolled(prog: seq<Raw>, plan: Plan, p: seq<nat>)
    requires Shaped(prog, plan)
  {
    (forall k :: 0 <= k < |p| ==> p[k] < plan.size && plan.live[p[k]] && (k > 0 ==> !plan.head[p[k]])) &&
    forall k :: 0 <= k < |p| - 1 ==> Edge(prog, p[k], p[k + 1])
  }

  /**
   * Every cycle polls: a path of control without a safepoint, calls that
   * return included, advances at least one index per instruction, so it is no
   * longer than the fragment.
   */
  lemma {:induction false} CyclesPoll(prog: seq<Raw>, plan: Plan, p: seq<nat>)
    requires Discovered(prog, plan) && p != [] && Unpolled(prog, plan, p)
    ensures p[|p| - 1] >= p[0] + |p| - 1 && |p| <= plan.size
    decreases |p|
  {
    hide Reachable, Live, LoopHead, Edge;
    var n := |p| - 1;
    if n > 0 {
      CyclesPoll(prog, plan, p[..n]);
      assert Edge(prog, p[n - 1], p[n - 1 + 1]);
      ForwardUnlessHead(prog, p[n - 1], p[n]);
    }
  }

  /** The interpreter moves along these edges, so the bound is one on its runs. */
  lemma StepsAlongEdges<M>(prog: seq<Raw>, env: Env<M>, i: nat, r: Registers, m: M)
    requires i < |prog|
    ensures var g := GuestStep(prog, env, At(i, r, m));
            RegsOk(prog[i]) && g.At? && 0 <= g.i < |prog| ==> Edge(prog, i, g.i)
  {
    hide GuestTaken, GuestAlu, WideValue;
    Kinds(prog[i]);
    if IsBranch(prog[i]) { BranchNext(prog[i], i); }
  }
}
