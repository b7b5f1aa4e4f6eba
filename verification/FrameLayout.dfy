/**
 * The records calls and signals leave on the guest stack, word by word (the
 * layout described in `src/insn.h` and `src/insn.cpp`), and where a signal
 * handler finds itself.
 */
module FrameLayout {
  import opened ByteVectors
  import opened Words
  import opened BpfAlu
  import opened Frames
  import opened StackRuns

  /** Bits 0..23 size, 24..47 alloca length, 48 signal, 49 siginfo; the rest is zero. */
  predicate HeaderIs(h: nat, size: nat, alloca: nat, signal: bool, siginfo: bool)
  {
    h == size % 0x100_0000 + alloca % 0x100_0000 * 0x100_0000 +
         (if signal then 0x1_0000_0000_0000 else 0) + (if siginfo then 0x2_0000_0000_0000 else 0)
  }

  /** Size plus alloca length of the record at `a`. */
  function ReservedAt(mem: Memory, a: int): nat
    requires Mapped(a, 8)
  {
    Load(mem, a) % 0x100_0000 + Load(mem, a) / 0x100_0000 % 0x100_0000
  }

  /** A call record at `b`: header, old r10, return address, r6..r9. */
  ghost predicate CallRecord(mem: Memory, b: int, size: nat, reg: Registers, ret: Word)
  {
    Mapped(b, 56) && HeaderIs(Load(mem, b), size, 0, false, false) &&
    Load(mem, b + 8) == reg[10] && Load(mem, b + 16) == ret &&
    Load(mem, b + 24) == reg[6] && Load(mem, b + 32) == reg[7] && Load(mem, b + 40) == reg[8] && Load(mem, b + 48) == reg[9]
  }

  /** A signal record: the same with its flags, and r0..r5 behind. */
  ghost predicate SignalRecord(mem: Memory, b: int, size: nat, siginfo: bool, reg: Registers, r0: Word, ret: Word)
  {
    Mapped(b, 104) && HeaderIs(Load(mem, b), size, 0, true, siginfo) &&
    Load(mem, b + 8) == reg[10] && Load(mem, b + 16) == ret &&
    Load(mem, b + 24) == reg[6] && Load(mem, b + 32) == reg[7] && Load(mem, b + 40) == reg[8] && Load(mem, b + 48) == reg[9] &&
    Load(mem, b + 56) == r0 && Load(mem, b + 64) == reg[1] && Load(mem, b + 72) == reg[2] && Load(mem, b + 80) == reg[3] &&
    Load(mem, b + 88) == reg[4] && Load(mem, b + 96) == reg[5]
  }

  lemma RecordWords(m: Machine, ret: Word, size: nat, signal: bool, siginfo: bool)
    requires Push(m, ret, size, signal, siginfo).Some? && (siginfo ==> signal)
    ensures var t := Push(m, ret, size, signal, siginfo).value;
            var b := t.reg[10];
            if signal then SignalRecord(t.mem, b, size, siginfo, m.reg, m.reg[0], ret) else CallRecord(t.mem, b, size, m.reg, ret)
  {
    hide Load, StoreAll;
    var t := Push(m, ret, size, signal, siginfo).value;
    PushWrites(m, ret, size, signal, siginfo);
    var f := NewFrame(m, ret, size, signal, siginfo);
    assert Intact(t.mem, f) && f.base == t.reg[10];
    var ws := f.words;
    assert ws[0] == m.reg[10] && ws[1] == ret && ws[2] == m.reg[6] && ws[3] == m.reg[7] && ws[4] == m.reg[8] && ws[5] == m.reg[9];
    assert Load(t.mem, f.base + 8 + 8 * 0) == ws[0] && Load(t.mem, f.base + 8 + 8 * 1) == ws[1] &&
           Load(t.mem, f.base + 8 + 8 * 2) == ws[2] && Load(t.mem, f.base + 8 + 8 * 3) == ws[3] &&
           Load(t.mem, f.base + 8 + 8 * 4) == ws[4] && Load(t.mem, f.base + 8 + 8 * 5) == ws[5];
    if signal {
      LowWords(m, t, ret, f);
    }
  }

  lemma LowWords(m: Machine, t: Machine, ret: Word, f: Frame)
    requires Intact(t.mem, f) && f.words == Saved(m.reg, ret, true)
    ensures forall k :: 0 <= k < 6 ==> Load(t.mem, f.base + 56 + 8 * k) == m.reg[k]
  {
    hide Load;
    forall k | 0 <= k < 6
      ensures Load(t.mem, f.base + 56 + 8 * k) == m.reg[k]
    {
      assert Load(t.mem, f.base + 8 + 8 * (6 + k)) == f.words[6 + k];
    }
  }

  /**
   * A call, in any run: control is at the target, r10 lies below the caller's
   * reservation by the 64 bytes of a call record, which is filled in word for
   * word, and no other register has changed.
   */
  lemma CallEnters(tr: seq<Conf>, acts: seq<Action>, i: nat, target: Word, ret: Word, size: nat)
    requires Run(tr, acts) && i < |acts| && acts[i] == Call(target, ret, size)
    ensures var m, t := tr[i].m, tr[i + 1].m;
            t.pc == target && t.reg[..10] == m.reg[..10] && t.depth == m.depth && Mapped(m.reg[10], 8) &&
            t.reg[10] == m.reg[10] - ReservedAt(m.mem, m.reg[10]) - 64 && CallRecord(t.mem, t.reg[10], size, m.reg, ret)
  {
    hide Load, StoreAll;
    RunChain(tr, acts, i);
    assert Step(tr[i], acts[i], tr[i + 1]);
    var m := tr[i].m;
    TopFrame(m, tr[i].fs);
    OverflowTestExact(m, tr[i].fs, false, false);
    RecordWords(m, ret, size, false, false);
    ReservedIs(m, tr[i].fs);
  }

  lemma ReservedIs(m: Machine, fs: seq<Frame>)
    requires Chain(m, fs)
    ensures Mapped(m.reg[10], 8) && ReservedAt(m.mem, m.reg[10]) == Reserve(fs[|fs| - 1])
  {
    hide Load;
    var f := fs[|fs| - 1];
    assert Intact(m.mem, f);
    HeaderFields(f.size, f.alloca, f.signal, f.siginfo);
  }

  /** Where the interrupted program is to go on, and with which r0. */
  predicate Resumes(m: Machine, restart: bool, ret: Word, r0: Word)
  {
    if m.restart == 0 then ret == m.pc && r0 == m.reg[0]
    else if restart && !m.nohand then ret == m.restart && r0 == m.reg[0]
    else ret == (m.restart + 8) % M64 && r0 == M64 - 4
  }

  /**
   * A delivered signal, in any run: the handler starts with the signal number
   * in r1 and the interrupted r2..r9, on a record of 128 bytes, or 520 with
   * siginfo, that holds all the registers and the place to go back to.
   */
  lemma HandlerEntered(tr: seq<Conf>, acts: seq<Action>, i: nat, info: Info) returns (ret: Word, r0: Word)
    requires Run(tr, acts) && i < |acts| && acts[i] == Signal(info) && info.Info? && info.sig != 0
    ensures var m, t := tr[i].m, tr[i + 1].m;
            Resumes(m, info.restart, ret, r0) && t.pc == info.handler && t.reg[0] == r0 && t.reg[1] == info.sig % M64 &&
            t.reg[2..10] == m.reg[2..10] && t.depth == m.depth + 1 && t.restart == 0 && Mapped(m.reg[10], 8) &&
            t.reg[10] == m.reg[10] - ReservedAt(m.mem, m.reg[10]) - (if info.siginfo then 520 else 128) &&
            SignalRecord(t.mem, t.reg[10], info.size, info.siginfo, m.reg, r0, ret)
  {
    hide Deliver, Load, Chain, SignalRecord, ReservedAt, Resumes;
    RunChain(tr, acts, i);
    assert Step(tr[i], acts[i], tr[i + 1]);
    ret, r0 := Delivered(tr[i].m, tr[i].fs, info);
  }

  lemma Delivered(m: Machine, fs: seq<Frame>, info: Info) returns (ret: Word, r0: Word)
    requires Chain(m, fs) && info.Info? && info.sig != 0 && Deliver(m, info).Some?
    ensures var t := Deliver(m, info).value;
            Resumes(m, info.restart, ret, r0) && t.pc == info.handler && t.reg[0] == r0 && t.reg[1] == info.sig % M64 &&
            t.reg[2..10] == m.reg[2..10] && t.depth == m.depth + 1 && t.restart == 0 && Mapped(m.reg[10], 8) &&
            t.reg[10] == m.reg[10] - ReservedAt(m.mem, m.reg[10]) - (if info.siginfo then 520 else 128) &&
            SignalRecord(t.mem, t.reg[10], info.size, info.siginfo, m.reg, r0, ret)
  {
    hide Load, StoreAll, Chain, SignalRecord, ReservedAt, HeaderIs;
    var p := ResumePoint(m, info.restart);
    ret, r0 := p.0, p.1;
    var m1 := m.(reg := m.reg[0 := r0], restart := 0, nohand := m.nohand && m.restart == 0);
    SameStack(m, m1, fs);
    OverflowTestExact(m1, fs, true, info.siginfo);
    RecordWords(m1, ret, info.size, true, info.siginfo);
    ReservedIs(m, fs);
    RecordRegs(Deliver(m, info).value.mem, m1, m, r0, ret, info, Deliver(m, info).value.reg[10]);
  }

  /** The record names the interrupted registers; only r0 may differ from them. */
  lemma RecordRegs(mem: Memory, m1: Machine, m: Machine, r0: Word, ret: Word, info: Info, b: int)
    requires info.Info? && m1.reg == m.reg[0 := r0] && SignalRecord(mem, b, info.size, info.siginfo, m1.reg, m1.reg[0], ret)
    ensures SignalRecord(mem, b, info.size, info.siginfo, m.reg, r0, ret)
  {
    hide Load, HeaderIs;
  }

  lemma SameStack(m: Machine, m1: Machine, fs: seq<Frame>)
    requires Chain(m, fs) && m1.mem == m.mem && m1.reg[10] == m.reg[10] && m1.depth == m.depth
    ensures Chain(m1, fs)
  {
  }
}
