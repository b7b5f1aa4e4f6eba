/**
 * Emission and patching of a compiled fragment (`JitCompiler::compile` and
 * `emit_instruction`): the native code of each BPF instruction, and how the
 * pieces are laid out and linked.
 */
module JitCode {
  import opened Leb128
  import opened Words
  import opened BpfAlu
  import opened Arm
  import opened AluEmitter
  import opened Emitter
  import opened JitFlow

  /**
   * Native code, in pieces; positions are indices. `Work` and `SkipIf` hold
   * AArch64 instructions: `SkipIf` runs its comparison and goes `dist` pieces
   * ahead when the condition holds. `Effect` is the code of a memory access
   * or a floating point operation, `CallOut` that of a call.
   */
  datatype Native =
    | Flush
    | Poll(i: nat)
    | Work(code: seq<Instr>)
    | Effect(i: nat)
    | SkipIf(code: seq<Instr>, cond: Cond, dist: nat)
    | B(target: nat)
    | SetPc(pc: nat)
    | CallOut(i: nat)
    | Leave(i: nat)

  const FLUSH: nat := 0

  /** Guest address of instruction `t` of a fragment that starts at `gpa`. */
  function Address(gpa: nat, t: int): (a: nat)
    ensures a < M64
  {
    (gpa + 8 * t) % M64
  }

  predicate Outside(t: int, n: nat)
  {
    t < 0 || t >= n
  }

  // ---------------------------------------------------------------------------
  // Which instructions have code, and which code
  // ---------------------------------------------------------------------------

  const CLS_LDX: nat := 1
  const CLS_ST: nat := 2
  const CLS_STX: nat := 3
  const CLS_ALU: nat := 4
  const CLS_ALU64: nat := 7

  const MODE_MEM: nat := 0x60
  const MODE_MEMSX: nat := 0x80
  const MODE_ATOMIC: nat := 0xc0

  function Mode(r: Raw): nat
  {
    r.code / 32 % 8 * 32
  }

  /** The size field: 0 word, 1 half-word, 2 byte, 3 double word. */
  function Width(r: Raw): nat
  {
    r.code / 8 % 4
  }

  predicate IsX(r: Raw)
  {
    r.code / 8 % 2 == 1
  }

  predicate RegsOk(r: Raw)
  {
    r.dst <= 10 && r.src <= 10
  }

  function InsnOf(r: Raw): (i: Insn)
    ensures RegsOk(r) ==> ValidInsn(i)
  {
    Insn(Op(r), IsX(r), r.dst, r.src, r.off, r.imm)
  }

  predicate IsAlu(r: Raw)
  {
    Class(r) == CLS_ALU || Class(r) == CLS_ALU64
  }

  /** Arithmetic and comparisons are 64 bits wide in the classes ALU64 and JMP. */
  predicate Is64(r: Raw)
  {
    Class(r) == CLS_ALU64 || Class(r) == CLS_JMP
  }

  /**
   * Atomic operations the emitter knows: add, or, and, xor, with or without
   * fetch, exchange and compare-exchange. The fetching ones are told by the
   * low byte alone.
   */
  predicate KnownAtomic(imm: int)
  {
    imm == 0x00 || imm == 0x40 || imm == 0x50 || imm == 0xa0 || imm == 0xe1 || imm == 0xf1 ||
    imm % 0x100 == 0x01 || imm % 0x100 == 0x41 || imm % 0x100 == 0x51 || imm % 0x100 == 0xa1
  }

  /** Calls that leave the fragment: of BPF functions, direct or through a register, and system calls. */
  predicate IsCallOut(r: Raw)
  {
    IsCall(r) && (IsX(r) || r.src == 0 || r.src == 1)
  }

  /** Memory accesses and floating point operations. */
  predicate IsEffect(r: Raw)
  {
    Class(r) == CLS_LDX || Class(r) == CLS_ST || Class(r) == CLS_STX || (IsCall(r) && !IsX(r) && r.src == 2)
  }

  /** Whether `emit_instruction` has code for the instruction. */
  predicate Accepted(r: Raw)
  {
    RegsOk(r) &&
    if IsAlu(r) then r.dst < 10 && AluCode(InsnOf(r), Is64(r)).Code?
    else if Class(r) == CLS_LD then IsWide(r) && r.dst < 10
    else if Class(r) == CLS_LDX then
      r.dst < 10 && (Mode(r) == MODE_MEM || (Mode(r) == MODE_MEMSX && Width(r) != 3))
    else if Class(r) == CLS_ST then Mode(r) == MODE_MEM
    else if Class(r) == CLS_STX then
      Mode(r) == MODE_MEM || (Mode(r) == MODE_ATOMIC && (Width(r) == 0 || Width(r) == 3) && KnownAtomic(r.imm))
    else if IsCall(r) then IsX(r) || r.src <= 2
    else IsJa(r) || IsExit(r) || IsCompare(Op(r))
  }

  /** The constant a wide load at `i` puts into its register. */
  function WideValue(prog: seq<Raw>, i: nat): (v: nat)
    requires i < |prog|
    ensures v < M64
  {
    var high := if i + 1 < |prog| then prog[i + 1].imm % M32 else 0;
    high * M32 + prog[i].imm % M32
  }

  /** The instructions of arithmetic and of wide loads. */
  function WorkCode(prog: seq<Raw>, i: nat): seq<Instr>
    requires i < |prog|
  {
    var r := prog[i];
    if !RegsOk(r) then []
    else if IsAlu(r) then (var c := AluCode(InsnOf(r), Is64(r)); if c.Code? then c.code else [])
    else MovImm(RegMap(r.dst), WideValue(prog, i), true)
  }

  /** The comparison of a conditional jump, then a jump over the next `dist` pieces unless it holds. */
  function SkipCode(r: Raw, dist: nat): Native
  {
    if RegsOk(r) && IsCompare(Op(r)) then SkipIf(CompareCode(InsnOf(r), Is64(r)), Flipped(CondOf(Op(r))), dist)
    else SkipIf([], EQ, dist)
  }

  // ---------------------------------------------------------------------------
  // Linked code: the specification of the two-phase emission
  // ---------------------------------------------------------------------------

  /** The code of instruction `i`, with the branch of a jump going to `dest`. */
  function Block(prog: seq<Raw>, i: nat, n: nat, gpa: nat, dest: nat): (b: seq<Native>)
    requires i < |prog|
    ensures 1 <= |b| <= 3
  {
    var r := prog[i];
    var t := JumpTarget(r, i);
    if IsJa(r) then (if Outside(t, n) then [SetPc(Address(gpa, t))] else []) + [B(dest)]
    else if IsExit(r) then [Leave(i)]
    else if IsBranch(r) then
      if Outside(t, n) then [SkipCode(r, 3), SetPc(Address(gpa, t)), B(dest)]
      else [SkipCode(r, 2), B(dest)]
    else if IsCallOut(r) then [CallOut(i)]
    else if IsEffect(r) then [Effect(i)]
    else [Work(WorkCode(prog, i))]
  }

  predicate HasHole(r: Raw)
  {
    IsJa(r) || IsBranch(r)
  }

  function Unit(plan: Plan, prog: seq<Raw>, i: nat, gpa: nat, dest: nat): seq<Native>
    requires |plan.head| == plan.size && i < plan.size <= |prog|
  {
    (if plan.head[i] then [Poll(i)] else []) + Block(prog, i, plan.size, gpa, dest)
  }

  predicate Shaped(prog: seq<Raw>, plan: Plan)
  {
    plan.size <= |prog| && |plan.live| == |plan.head| == |plan.body| == plan.size
  }

  /** Where the code of instruction `k` starts. */
  function Offset(prog: seq<Raw>, plan: Plan, gpa: nat, k: nat): nat
    requires Shaped(prog, plan) && k <= plan.size
  {
    if k == 0 then 1
    else Offset(prog, plan, gpa, k - 1) + if plan.live[k - 1] then |Unit(plan, prog, k - 1, gpa, 0)| else 0
  }

  /** Where a jump from instruction `i` is patched to go. */
  function Dest(prog: seq<Raw>, plan: Plan, gpa: nat, i: nat): nat
    requires Shaped(prog, plan) && i < plan.size
  {
    var t := JumpTarget(prog[i], i);
    if HasHole(prog[i]) && !Outside(t, plan.size) then Offset(prog, plan, gpa, t) else FLUSH
  }

  function Linked(prog: seq<Raw>, plan: Plan, gpa: nat, k: nat): (c: seq<Native>)
    requires Shaped(prog, plan) && k <= plan.size
    ensures |c| == Offset(prog, plan, gpa, k)
  {
    if k == 0 then [Flush]
    else
      Linked(prog, plan, gpa, k - 1) +
      if plan.live[k - 1] then Unit(plan, prog, k - 1, gpa, Dest(prog, plan, gpa, k - 1)) else []
  }

  /** Every jump inside the fragment goes to an instruction that has code. */
  predicate TargetsLive(prog: seq<Raw>, plan: Plan)
    requires Shaped(prog, plan)
  {
    forall i :: 0 <= i < plan.size && plan.live[i] ==> TargetLive(prog, plan, i)
  }

  predicate TargetLive(prog: seq<Raw>, plan: Plan, i: nat)
    requires Shaped(prog, plan) && i < plan.size
  {
    var t := JumpTarget(prog[i], i);
    HasHole(prog[i]) && !Outside(t, plan.size) ==> plan.live[t]
  }

  predicate AllAccepted(prog: seq<Raw>, plan: Plan)
    requires Shaped(prog, plan)
  {
    forall i :: 0 <= i < plan.size && plan.live[i] ==> Accepted(prog[i])
  }

  // ---------------------------------------------------------------------------
  // The compiler's two phases
  // ---------------------------------------------------------------------------

  datatype Hole = Hole(at: nat, target: int, deopt: bool)

  /** Position of instruction `i`'s branch inside its unit, and what it waits for. */
  function HoleOf(plan: Plan, prog: seq<Raw>, i: nat, gpa: nat, start: nat): Hole
    requires |plan.head| == plan.size && i < plan.size <= |prog| && HasHole(prog[i])
  {
    var t := JumpTarget(prog[i], i);
    var deopt := Outside(t, plan.size);
    Hole(start + |Unit(plan, prog, i, gpa, 0)| - 1, if deopt && IsBranch(prog[i]) then -1 else t, deopt)
  }

  /** The unit with its branch still pending differs from the linked one in one place only. */
  lemma UnitPatched(plan: Plan, prog: seq<Raw>, i: nat, gpa: nat, dest: nat)
    requires |plan.head| == plan.size && i < plan.size <= |prog|
    ensures var u := Unit(plan, prog, i, gpa, 0);
            |u| >= 1 && Unit(plan, prog, i, gpa, dest) == if HasHole(prog[i]) then u[|u| - 1 := B(dest)] else u
  {
    hide WorkCode, SkipCode, Address, IsCallOut, IsEffect, JumpTarget;
  }

  lemma {:induction false} OffsetMono(prog: seq<Raw>, plan: Plan, gpa: nat, j: nat, k: nat)
    requires Shaped(prog, plan) && j <= k <= plan.size
    ensures Offset(prog, plan, gpa, j) <= Offset(prog, plan, gpa, k)
    ensures j < k && plan.live[j] ==> Offset(prog, plan, gpa, j) < Offset(prog, plan, gpa, k)
    decreases k
  {
    if j < k {
      OffsetMono(prog, plan, gpa, j, k - 1);
    }
  }

  /** One pending branch, as the emission loop leaves it. */
  ghost predicate Pending(prog: seq<Raw>, plan: Plan, gpa: nat, h: Hole, i: nat)
    requires Shaped(prog, plan)
  {
    i < plan.size && plan.live[i] && HasHole(prog[i]) &&
    h == HoleOf(plan, prog, i, gpa, Offset(prog, plan, gpa, i))
  }

  /** `code` agrees with the linked code up to instruction `k`, pending branches aside. */
  ghost predicate LinkedButFor(prog: seq<Raw>, plan: Plan, gpa: nat, code: seq<Native>, k: nat, holes: seq<Hole>)
    requires Shaped(prog, plan) && k <= plan.size
  {
    var goal := Linked(prog, plan, gpa, k);
    |code| == |goal| &&
    forall p :: 0 <= p < |code| ==> code[p] == goal[p] || exists h :: 0 <= h < |holes| && holes[h].at == p
  }

  /** The holes are those of live jumps below `k`, in order, each once. */
  ghost predicate HolesOf(prog: seq<Raw>, plan: Plan, gpa: nat, holes: seq<Hole>, from: seq<nat>, k: nat)
    requires Shaped(prog, plan) && k <= plan.size
  {
    |from| == |holes| &&
    (forall h :: 0 <= h < |holes| ==> from[h] < k && Pending(prog, plan, gpa, holes[h], from[h])) &&
    (forall i :: 0 <= i < k && plan.live[i] && HasHole(prog[i]) ==> i in from)
  }

  lemma LinkedAt(prog: seq<Raw>, plan: Plan, gpa: nat, i: nat, k: nat)
    requires Shaped(prog, plan) && i < k <= plan.size && plan.live[i]
    ensures var o := Offset(prog, plan, gpa, i);
            var u := Unit(plan, prog, i, gpa, Dest(prog, plan, gpa, i));
            o + |u| <= |Linked(prog, plan, gpa, k)| && Linked(prog, plan, gpa, k)[o..o + |u|] == u
    decreases k
  {
    hide Unit, Dest;
    UnitPatched(plan, prog, i, gpa, Dest(prog, plan, gpa, i));
    if i < k - 1 {
      LinkedAt(prog, plan, gpa, i, k - 1);
      assert Linked(prog, plan, gpa, k - 1) <= Linked(prog, plan, gpa, k);
    }
  }

  /** A hole's place in the linked code holds the branch to the jump's destination. */
  lemma HolePlace(prog: seq<Raw>, plan: Plan, gpa: nat, h: Hole, i: nat)
    requires Shaped(prog, plan) && Pending(prog, plan, gpa, h, i)
    ensures var goal := Linked(prog, plan, gpa, plan.size);
            h.at < |goal| && goal[h.at] == B(Dest(prog, plan, gpa, i))
  {
    hide Linked, Dest, Offset;
    LinkedAt(prog, plan, gpa, i, plan.size);
    UnitPatched(plan, prog, i, gpa, Dest(prog, plan, gpa, i));
    var goal := Linked(prog, plan, gpa, plan.size);
    var o := Offset(prog, plan, gpa, i);
    var u := Unit(plan, prog, i, gpa, Dest(prog, plan, gpa, i));
    assert goal[o..o + |u|][|u| - 1] == goal[o + |u| - 1];
  }

  /** Emission: code with pending branches, the offset table and the holes. */
  method EmitAll(prog: seq<Raw>, plan: Plan, gpa: nat)
    returns (ok: bool, code: seq<Native>, offs: seq<int>, holes: seq<Hole>, ghost from: seq<nat>)
    requires Shaped(prog, plan)
    ensures ok == AllAccepted(prog, plan)
    ensures ok ==> LinkedButFor(prog, plan, gpa, code, plan.size, holes) && HolesOf(prog, plan, gpa, holes, from, plan.size)
    ensures ok ==> OffsetTable(prog, plan, gpa, offs)
  {
    hide Unit, Dest, HoleOf, HasHole, Accepted;
    code := [Flush];
    offs := seq(plan.size, _ => -1);
    holes := [];
    from := [];
    var i := 0;
    while i < plan.size
      invariant 0 <= i <= plan.size && |offs| == plan.size
      invariant LinkedButFor(prog, plan, gpa, code, i, holes) && HolesOf(prog, plan, gpa, holes, from, i)
      invariant forall j :: 0 <= j < i ==> offs[j] == if plan.live[j] then Offset(prog, plan, gpa, j) else -1
      invariant forall j :: i <= j < plan.size ==> offs[j] == -1
      invariant forall j :: 0 <= j < i && plan.live[j] ==> Accepted(prog[j])
    {
      if plan.live[i] {
        offs := offs[i := |code|];
        if !Accepted(prog[i]) {
          return false, code, offs, holes, from;
        }
        var start := |code|;
        ghost var code0, holes0, from0 := code, holes, from;
        code := code + Unit(plan, prog, i, gpa, 0);
        if HasHole(prog[i]) {
          holes := holes + [HoleOf(plan, prog, i, gpa, start)];
          from := from + [i];
        }
        ExtendLinked(prog, plan, gpa, code0, i, holes0, holes);
        ExtendHoles(prog, plan, gpa, holes0, from0, i);
      } else {
        SkipLinked(prog, plan, gpa, code, i, holes, from);
      }
      i := i + 1;
    }
    ok := true;
  }

  ghost predicate OffsetTable(prog: seq<Raw>, plan: Plan, gpa: nat, offs: seq<int>)
    requires Shaped(prog, plan)
  {
    |offs| == plan.size &&
    forall j :: 0 <= j < plan.size ==> offs[j] == if plan.live[j] then Offset(prog, plan, gpa, j) else -1
  }

  lemma ExtendLinked(prog: seq<Raw>, plan: Plan, gpa: nat, code: seq<Native>, i: nat, holes: seq<Hole>, holes': seq<Hole>)
    requires Shaped(prog, plan) && i < plan.size && plan.live[i] && LinkedButFor(prog, plan, gpa, code, i, holes)
    requires holes' == holes + if HasHole(prog[i]) then [HoleOf(plan, prog, i, gpa, |code|)] else []
    ensures LinkedButFor(prog, plan, gpa, code + Unit(plan, prog, i, gpa, 0), i + 1, holes')
  {
    hide Unit, Dest, Offset;
    var u := Unit(plan, prog, i, gpa, 0);
    UnitPatched(plan, prog, i, gpa, Dest(prog, plan, gpa, i));
    var code' := code + u;
    var goal := Linked(prog, plan, gpa, i + 1);
    var u' := Unit(plan, prog, i, gpa, Dest(prog, plan, gpa, i));
    assert goal == Linked(prog, plan, gpa, i) + u';
    forall p | 0 <= p < |code'|
      ensures code'[p] == goal[p] || exists h :: 0 <= h < |holes'| && holes'[h].at == p
    {
      if p < |code| {
        if code[p] != goal[p] {
          var h :| 0 <= h < |holes| && holes[h].at == p;
          assert holes'[h].at == p;
        }
      } else {
        assert goal[p] == u'[p - |code|];
        if HasHole(prog[i]) { assert holes'[|holes|].at == |code| + |u| - 1; }
      }
    }
  }

  lemma ExtendHoles(prog: seq<Raw>, plan: Plan, gpa: nat, holes: seq<Hole>, from: seq<nat>, i: nat)
    requires Shaped(prog, plan) && i < plan.size && plan.live[i] && HolesOf(prog, plan, gpa, holes, from, i)
    ensures if HasHole(prog[i]) then
              HolesOf(prog, plan, gpa, holes + [HoleOf(plan, prog, i, gpa, Offset(prog, plan, gpa, i))], from + [i], i + 1)
            else HolesOf(prog, plan, gpa, holes, from, i + 1)
  {
    hide HoleOf, HasHole, Offset;
  }

  lemma SkipLinked(prog: seq<Raw>, plan: Plan, gpa: nat, code: seq<Native>, i: nat, holes: seq<Hole>, from: seq<nat>)
    requires Shaped(prog, plan) && i < plan.size && !plan.live[i]
    requires LinkedButFor(prog, plan, gpa, code, i, holes) && HolesOf(prog, plan, gpa, holes, from, i)
    ensures LinkedButFor(prog, plan, gpa, code, i + 1, holes) && HolesOf(prog, plan, gpa, holes, from, i + 1)
  {
    hide Unit, Dest, Pending, HasHole;
    assert Linked(prog, plan, gpa, i + 1) == Linked(prog, plan, gpa, i) + [] == Linked(prog, plan, gpa, i);
  }

  /** Whether a hole can be patched, and with which destination. */
  lemma HoleResolves(prog: seq<Raw>, plan: Plan, gpa: nat, offs: seq<int>, h: Hole, i: nat)
    requires Shaped(prog, plan) && OffsetTable(prog, plan, gpa, offs) && Pending(prog, plan, gpa, h, i)
    ensures var missing := Outside(h.target, plan.size) || offs[h.target] == -1;
            (missing && !h.deopt <==> !TargetLive(prog, plan, i)) &&
            (missing && h.deopt ==> Dest(prog, plan, gpa, i) == FLUSH) &&
            (!missing ==> offs[h.target] >= 0 && Dest(prog, plan, gpa, i) == offs[h.target])
  {
    hide Offset, Unit;
  }

  /** `compile`, from the plan to the finished code. */
  method Compile(prog: seq<Raw>, gpa: nat) returns (ok: bool, plan: Plan, code: seq<Native>)
    ensures Discovered(prog, plan)
    ensures ok <==> prog != [] && AllAccepted(prog, plan) && TargetsLive(prog, plan)
    ensures ok ==> code == Linked(prog, plan, gpa, plan.size)
  {
    plan := DiscoverReachable(prog);
    code := [];
    ok := false;
    if plan.size == 0 { return; }
    var offs: seq<int>, holes: seq<Hole>;
    ghost var from: seq<nat>;
    ok, code, offs, holes, from := EmitAll(prog, plan, gpa);
    if !ok { return; }
    ok, code := PatchAll(prog, plan, gpa, code, offs, holes, from);
  }

  method PatchAll(prog: seq<Raw>, plan: Plan, gpa: nat, code0: seq<Native>, offs: seq<int>, holes: seq<Hole>,
                  ghost from: seq<nat>) returns (ok: bool, code: seq<Native>)
    requires Shaped(prog, plan) && OffsetTable(prog, plan, gpa, offs)
    requires LinkedButFor(prog, plan, gpa, code0, plan.size, holes) && HolesOf(prog, plan, gpa, holes, from, plan.size)
    ensures ok == TargetsLive(prog, plan)
    ensures ok ==> code == Linked(prog, plan, gpa, plan.size)
  {
    hide Linked, Offset, Dest, Pending, TargetLive, HasHole;
    code := code0;
    ghost var goal := Linked(prog, plan, gpa, plan.size);
    for k := 0 to |holes|
      invariant |code| == |goal|
      invariant forall p :: 0 <= p < |code| ==> code[p] == goal[p] || exists h :: k <= h < |holes| && holes[h].at == p
      invariant forall h :: 0 <= h < k ==> TargetLive(prog, plan, from[h])
    {
      var h := holes[k];
      HoleResolves(prog, plan, gpa, offs, h, from[k]);
      HolePlace(prog, plan, gpa, h, from[k]);
      ghost var before := code;
      if Outside(h.target, plan.size) || offs[h.target] == -1 {
        if !h.deopt {
          PendingLive(prog, plan, gpa, h, from[k]);
          return false, code;
        }
        code := code[h.at := B(FLUSH)];
      } else {
        code := code[h.at := B(offs[h.target])];
      }
      forall p | 0 <= p < |code|
        ensures code[p] == goal[p] || exists j :: k + 1 <= j < |holes| && holes[j].at == p
      {
        if p != h.at && before[p] != goal[p] {
          var j :| k <= j < |holes| && holes[j].at == p;
          assert k + 1 <= j;
        }
      }
    }
    ok := true;
    assert code == goal;
    AllTargetsLive(prog, plan, gpa, holes, from);
  }

  lemma PendingLive(prog: seq<Raw>, plan: Plan, gpa: nat, h: Hole, i: nat)
    requires Shaped(prog, plan) && Pending(prog, plan, gpa, h, i)
    ensures i < plan.size && plan.live[i]
  {
  }

  lemma AllTargetsLive(prog: seq<Raw>, plan: Plan, gpa: nat, holes: seq<Hole>, from: seq<nat>)
    requires Shaped(prog, plan) && HolesOf(prog, plan, gpa, holes, from, plan.size)
    requires forall h :: 0 <= h < |holes| ==> TargetLive(prog, plan, from[h])
    ensures TargetsLive(prog, plan)
  {
    hide Pending;
    forall i | 0 <= i < plan.size && plan.live[i]
      ensures TargetLive(prog, plan, i)
    {
      if HasHole(prog[i]) {
        var h :| 0 <= h < |from| && from[h] == i;
        assert TargetLive(prog, plan, from[h]);
      }
    }
  }

  // ---------------------------------------------------------------------------
  // Branch words
  // ---------------------------------------------------------------------------

  /** Byte offset of piece `p` when each piece takes `words` instruction words. */
  function Place(words: Native -> nat, code: seq<Native>, p: nat): nat
    requires p <= |code|
  {
    if p == 0 then 0 else Place(words, code, p - 1) + 4 * words(code[p - 1])
  }

  lemma {:induction false} PlaceGrows(words: Native -> nat, code: seq<Native>, p: nat, q: nat)
    requires p <= q <= |code|
    ensures Place(words, code, p) <= Place(words, code, q) && Place(words, code, p) % 4 == 0
    decreases q
  {
    if p < q {
      PlaceGrows(words, code, p, q - 1);
    } else if p > 0 {
      PlaceGrows(words, code, p - 1, p - 1);
    }
  }

  /** Every branch of the linked code goes to a piece of it. */
  lemma {:induction false} TargetsInside(prog: seq<Raw>, plan: Plan, gpa: nat, k: nat, p: nat)
    requires Shaped(prog, plan) && TargetsLive(prog, plan) && k <= plan.size
    requires p < |Linked(prog, plan, gpa, k)| && Linked(prog, plan, gpa, k)[p].B?
    ensures Linked(prog, plan, gpa, k)[p].target < Offset(prog, plan, gpa, plan.size)
    decreases k
  {
    hide Unit, Offset, Dest;
    OffsetMono(prog, plan, gpa, 0, plan.size);
    OffsetStart(prog, plan, gpa);
    if k > 0 {
      var front := Linked(prog, plan, gpa, k - 1);
      if p < |front| {
        TargetsInside(prog, plan, gpa, k - 1, p);
      } else {
        UnitTargets(prog, plan, gpa, k - 1, p - |front|);
      }
    }
  }

  lemma OffsetStart(prog: seq<Raw>, plan: Plan, gpa: nat)
    requires Shaped(prog, plan)
    ensures Offset(prog, plan, gpa, 0) == 1
  {
  }

  lemma UnitTargets(prog: seq<Raw>, plan: Plan, gpa: nat, i: nat, p: nat)
    requires Shaped(prog, plan) && TargetsLive(prog, plan) && i < plan.size && plan.live[i]
    requires var u := Unit(plan, prog, i, gpa, Dest(prog, plan, gpa, i)); p < |u| && u[p].B?
    ensures Unit(plan, prog, i, gpa, Dest(prog, plan, gpa, i))[p].target < Offset(prog, plan, gpa, plan.size)
  {
    hide Offset, WorkCode, SkipCode, Address, IsCallOut, IsEffect, JumpTarget, IsExit;
    OffsetMono(prog, plan, gpa, 0, plan.size);
    OffsetStart(prog, plan, gpa);
    assert TargetLive(prog, plan, i);
    var t := JumpTarget(prog[i], i);
    if HasHole(prog[i]) && !Outside(t, plan.size) {
      OffsetMono(prog, plan, gpa, t, plan.size);
    }
    SkipIsNoBranch(prog[i]);
  }

  lemma SkipIsNoBranch(r: Raw)
    ensures SkipCode(r, 2).SkipIf? && SkipCode(r, 3).SkipIf?
  {
    hide CompareCode, CondOf, Flipped;
  }

  /**
   * The words written by the patching loop: in a fragment of less than 128 MiB,
   * whatever the sizes of the pieces, every patched branch word decodes to
   * the byte offset of the piece it was meant for.
   */
  lemma PatchedWordsLand(prog: seq<Raw>, plan: Plan, gpa: nat, words: Native -> nat, p: nat, insn: nat)
    requires Shaped(prog, plan) && TargetsLive(prog, plan) && p < |Linked(prog, plan, gpa, plan.size)|
    requires Linked(prog, plan, gpa, plan.size)[p].B?
    requires Place(words, Linked(prog, plan, gpa, plan.size), |Linked(prog, plan, gpa, plan.size)|) < 0x800_0000
    ensures var code := Linked(prog, plan, gpa, plan.size);
            code[p].target < |code| &&
            var off, target := Place(words, code, p), Place(words, code, code[p].target);
            var w := Patched(insn, TruncDiv(target - off, 4), FAR_LOW, FAR_SPAN);
            w / 0x400_0000 == insn / 0x400_0000 && off + 4 * Displacement(w, FAR_LOW, FAR_SPAN) == target
  {
    hide Linked, Offset, Patched, Displacement, TruncDiv, Place, TargetsLive;
    var code := Linked(prog, plan, gpa, plan.size);
    TargetsInside(prog, plan, gpa, plan.size, p);
    var t := code[p].target;
    PlaceGrows(words, code, p, |code|);
    PlaceGrows(words, code, t, |code|);
    PlaceGrows(words, code, 0, p);
    PlaceGrows(words, code, 0, t);
    PatchedBranchesLand(insn, Place(words, code, p), Place(words, code, t));
  }
}
