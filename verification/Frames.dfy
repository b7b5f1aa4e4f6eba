/**
 * The guest stack of `src/insn.cpp`: packed frame headers, `push_frame`,
 * `pop_frame`, `alloca` and `deliver_signal`, over the bytes of the stack
 * segment.
 */
module Frames {
  import opened Leb128
  import opened ByteVectors
  import opened Words
  import opened BpfAlu

  const STACK_BASE: nat := 0x1000_0000
  const STACK_SIZE: nat := 0x100_0000
  const STACK_TOP: nat := STACK_BASE + STACK_SIZE
  const NORMAL_FRAME: nat := 64
  const SIGNAL_FRAME: nat := 128
  const SIGINFO_FRAME: nat := 520

  const M24: nat := 0x100_0000
  const SIGNAL_BIT: nat := 0x1_0000_0000_0000
  const SIGINFO_BIT: nat := 0x2_0000_0000_0000

  // ---------------------------------------------------------------------------
  // Header word
  // ---------------------------------------------------------------------------

  /** Bits 0..23 frame size, 24..47 alloca length, 48 signal, 49 siginfo. */
  function Header(size: nat, alloca: nat, signal: bool, siginfo: bool): (h: nat)
    ensures h < M64
  {
    size % M24 + alloca % M24 * M24 + (if signal then SIGNAL_BIT else 0) + (if siginfo then SIGINFO_BIT else 0)
  }

  function SizeOf(h: nat): (n: nat)
    ensures n < M24
  {
    h % M24
  }

  function AllocaOf(h: nat): (n: nat)
    ensures n < M24
  {
    h / M24 % M24
  }

  function Total(h: nat): nat
  {
    SizeOf(h) + AllocaOf(h)
  }

  predicate IsSignal(h: nat)
  {
    h / SIGNAL_BIT % 2 == 1
  }

  predicate HasSiginfo(h: nat)
  {
    h / SIGINFO_BIT % 2 == 1
  }

  /** Replaces the alloca field and nothing else. */
  function WithAlloca(h: nat, alloca: nat): int
  {
    h - AllocaOf(h) * M24 + alloca * M24
  }

  lemma HeaderFields(size: nat, alloca: nat, signal: bool, siginfo: bool)
    ensures var h := Header(size, alloca, signal, siginfo);
            SizeOf(h) == size % M24 && AllocaOf(h) == alloca % M24 && IsSignal(h) == signal && HasSiginfo(h) == siginfo
  {
  }

  /** Growing or shrinking the alloca area disturbs neither the size nor a flag bit, whatever the word holds. */
  lemma WithAllocaFields(h: nat, alloca: nat)
    requires h < M64 && alloca < M24
    ensures var h' := WithAlloca(h, alloca);
            0 <= h' < M64 && SizeOf(h') == SizeOf(h) && AllocaOf(h') == alloca && h' / SIGNAL_BIT == h / SIGNAL_BIT
  {
  }

  // ---------------------------------------------------------------------------
  // Stack memory
  // ---------------------------------------------------------------------------

  type Memory = m: Bytes | |m| == STACK_SIZE witness seq(STACK_SIZE, _ => 0)

  /** Whether the lookup of `n` bytes at `a` succeeds. */
  predicate Mapped(a: int, n: nat)
  {
    STACK_BASE <= a && a + n <= STACK_TOP
  }

  function Load(mem: Memory, a: int): (w: Word)
    requires Mapped(a, 8)
  {
    Pow256Constants();
    FromLe(mem[a - STACK_BASE..a - STACK_BASE + 8])
  }

  function Store(mem: Memory, a: int, w: Word): Memory
    requires Mapped(a, 8)
  {
    Overwrite(mem, a - STACK_BASE, Le(8, w))
  }

  lemma LoadStored(mem: Memory, a: int, w: Word)
    requires Mapped(a, 8)
    ensures Load(Store(mem, a, w), a) == w
  {
    hide Le, FromLe;
    Pow256Constants();
    LeRoundTrip(8, w);
    var p := a - STACK_BASE;
    assert Store(mem, a, w)[p..p + 8] == Le(8, w);
  }

  /** The bytes of [a, a+n) are the same in both memories. */
  predicate Same(m1: Memory, m2: Memory, a: int, n: nat)
    requires Mapped(a, n)
  {
    m1[a - STACK_BASE..a - STACK_BASE + n] == m2[a - STACK_BASE..a - STACK_BASE + n]
  }

  lemma StoreElsewhere(mem: Memory, a: int, w: Word, b: int, n: nat)
    requires Mapped(a, 8) && Mapped(b, n) && (b + n <= a || a + 8 <= b)
    ensures Same(mem, Store(mem, a, w), b, n)
  {
    hide Le;
    var q := b - STACK_BASE;
    var mem' := Store(mem, a, w);
    forall i | q <= i < q + n
      ensures mem[i] == mem'[i]
    {
    }
  }

  lemma SameLoad(m1: Memory, m2: Memory, a: int, n: nat, b: int)
    requires Mapped(a, n) && Same(m1, m2, a, n) && a <= b && b + 8 <= a + n
    ensures Load(m1, b) == Load(m2, b)
  {
    SameSlice(m1, m2, a - STACK_BASE, a - STACK_BASE + n, b - STACK_BASE, b - STACK_BASE + 8);
  }

  /** Consecutive words from `a` on. */
  function StoreAll(mem: Memory, a: int, ws: seq<Word>): Memory
    requires Mapped(a, 8 * |ws|)
    decreases |ws|
  {
    if ws == [] then mem
    else Store(StoreAll(mem, a, ws[..|ws| - 1]), a + 8 * (|ws| - 1), ws[|ws| - 1])
  }

  function LoadAll(mem: Memory, a: int, n: nat): (ws: seq<Word>)
    requires Mapped(a, 8 * n)
    ensures |ws| == n && forall i :: 0 <= i < n ==> ws[i] == Load(mem, a + 8 * i)
  {
    seq(n, i requires 0 <= i < n => Load(mem, a + 8 * i))
  }

  lemma {:induction false} LoadStoredAll(mem: Memory, a: int, ws: seq<Word>, i: nat)
    requires Mapped(a, 8 * |ws|) && i < |ws|
    ensures Load(StoreAll(mem, a, ws), a + 8 * i) == ws[i]
    decreases |ws|
  {
    hide Load, Store;
    var front, last := ws[..|ws| - 1], ws[|ws| - 1];
    var m := StoreAll(mem, a, front);
    if i == |ws| - 1 {
      LoadStored(m, a + 8 * i, last);
    } else {
      LoadStoredAll(mem, a, front, i);
      StoreElsewhere(m, a + 8 * (|ws| - 1), last, a + 8 * i, 8);
      SameLoad(m, StoreAll(mem, a, ws), a + 8 * i, 8, a + 8 * i);
    }
  }

  lemma {:induction false} StoreAllElsewhere(mem: Memory, a: int, ws: seq<Word>, b: int, n: nat)
    requires Mapped(a, 8 * |ws|) && Mapped(b, n) && (b + n <= a || a + 8 * |ws| <= b)
    ensures Same(mem, StoreAll(mem, a, ws), b, n)
    decreases |ws|
  {
    hide Store;
    if ws != [] {
      var front := ws[..|ws| - 1];
      StoreAllElsewhere(mem, a, front, b, n);
      StoreElsewhere(StoreAll(mem, a, front), a + 8 * (|ws| - 1), ws[|ws| - 1], b, n);
    }
  }

  // ---------------------------------------------------------------------------
  // The machine
  // ---------------------------------------------------------------------------

  /** `restart` is the address of a system call to be re-executed, 0 for none. */
  datatype Machine = Machine(reg: Registers, pc: Word, depth: int, restart: Word, nohand: bool, mem: Memory)

  function FrameBytes(signal: bool, siginfo: bool): nat
  {
    if !signal then NORMAL_FRAME else if siginfo then SIGINFO_FRAME else SIGNAL_FRAME
  }

  /** What a frame records after its header word. */
  function Saved(reg: Registers, ret: Word, signal: bool): (ws: seq<Word>)
    ensures |ws| == if signal then 12 else 6
  {
    [reg[10], ret, reg[6], reg[7], reg[8], reg[9]] + if signal then reg[0..6] else []
  }

  function CallerTotal(m: Machine): (n: nat)
    ensures n < 2 * M24
  {
    if Mapped(m.reg[10], 8) then Total(Load(m.mem, m.reg[10])) else 0
  }

  /** The new frame's address, as 64-bit arithmetic gives it. */
  function NewBase(m: Machine, signal: bool, siginfo: bool): (a: Word)
  {
    (m.reg[10] - CallerTotal(m) - FrameBytes(signal, siginfo)) % M64
  }

  /** `push_frame`; `size` is the callee's frame size as `frame_size_of` reports it. */
  function Push(m: Machine, ret: Word, size: nat, signal: bool, siginfo: bool): (r: Option<Machine>)
  {
    var base := NewBase(m, signal, siginfo);
    if base < STACK_BASE || !Mapped(base, FrameBytes(signal, siginfo)) then None
    else
      var ws := [Header(size, 0, signal, siginfo)] + Saved(m.reg, ret, signal);
      Some(m.(mem := StoreAll(m.mem, base, ws), reg := m.reg[10 := base],
              depth := if signal then m.depth + 1 else m.depth))
  }

  /** `pop_frame`: the machine after it, the return address (0: nothing was read), and whether sigreturn takes over. */
  function Pop(m: Machine): (r: (Machine, Word, bool))
  {
    var b := m.reg[10];
    if !Mapped(b, 104) then (m, 0, false)
    else
      var w := LoadAll(m.mem, b, 13);
      var low := if IsSignal(w[0]) then w[7..13] else m.reg[0..6];
      (m.(reg := low + [w[3], w[4], w[5], w[6], w[1]], depth := if IsSignal(w[0]) then m.depth - 1 else m.depth),
       w[2], IsSignal(w[0]) && HasSiginfo(w[0]))
  }

  const EFAULT: int := 14
  const EINVAL: int := 22
  const ENOMEM: int := 12
  const EINTR: int := 4

  /** `alloca(inc)`: the machine after it and the returned address or negative error. */
  function Alloca(m: Machine, inc: int): (r: (Machine, int))
  {
    var b := m.reg[10];
    if !Mapped(b, 8) then (m, -EFAULT)
    else
      var h := Load(m.mem, b);
      var n := AllocaOf(h) + inc;
      if n < 0 then (m, -EINVAL)
      else
        var total := SizeOf(h) + n;
        if n >= M24 || b < STACK_BASE + total || (inc > 0 && !Mapped(b - total, total)) then (m, -ENOMEM)
        else
          WithAllocaFields(h, n);
          (m.(mem := Store(m.mem, b, WithAlloca(h, n))), b - total)
  }

  /** What the signal layer hands to `deliver_signal`; `sig == 0` means nothing to deliver. */
  datatype Info = Killed | Info(sig: nat, handler: Word, mapped: bool, restart: bool, siginfo: bool, size: nat)

  /** Where the interrupted program resumes and with which r0. */
  function ResumePoint(m: Machine, restart: bool): (Word, Word)
  {
    if m.restart == 0 then (m.pc, m.reg[0])
    else if restart && !m.nohand then (m.restart, m.reg[0])
    else ((m.restart + 8) % M64, M64 - EINTR)
  }

  /** `deliver_signal`, for signals without siginfo contents (those are built elsewhere). */
  function Deliver(m: Machine, info: Info): (r: Option<Machine>)
  {
    if info.Killed? then None
    else if info.sig == 0 then
      Some(if m.restart != 0 then m.(pc := m.restart, restart := 0, nohand := false) else m)
    else if !info.mapped then None
    else
      var p := ResumePoint(m, info.restart);
      var m1 := m.(reg := m.reg[0 := p.1], restart := 0, nohand := m.nohand && m.restart == 0);
      var m2 := Push(m1, p.0, info.size, true, info.siginfo);
      if m2.None? then None
      else Some(m2.value.(reg := m2.value.reg[1 := info.sig % M64], pc := info.handler))
  }

  // ---------------------------------------------------------------------------
  // The object
  // ---------------------------------------------------------------------------

  class Vm {
    var reg: Registers
    var pc: Word
    var depth: int
    var restart: Word
    var nohand: bool
    var mem: Memory

    ghost function View(): Machine
      reads this
    {
      Machine(reg, pc, depth, restart, nohand, mem)
    }

    method PushFrame(ret: Word, size: nat, signal: bool, siginfo: bool) returns (ok: bool)
      modifies this
      ensures ok == Push(old(View()), ret, size, signal, siginfo).Some?
      ensures View() == if ok then Push(old(View()), ret, size, signal, siginfo).value else old(View())
    {
      hide Load, Total, Header, StoreAll, Saved;
      var frame := FrameBytes(signal, siginfo);
      var total := 0;
      if Mapped(reg[10], 8) { total := Total(Load(mem, reg[10])); }
      var base := (reg[10] - total - frame) % M64;
      if base < STACK_BASE { return false; }
      if !Mapped(base, frame) { return false; }
      var ws := [Header(size, 0, signal, siginfo)] + Saved(reg, ret, signal);
      WriteWords(base, ws);
      if signal { depth := depth + 1; }
      reg := reg[10 := base];
      ok := true;
    }

    /** The assignments to frame_base[0], frame_base[1], ... in order. */
    method WriteWords(base: int, ws: seq<Word>)
      requires Mapped(base, 8 * |ws|)
      modifies this`mem
      ensures mem == StoreAll(old(mem), base, ws)
    {
      hide Store, StoreAll;
      StoreNone(mem, base, ws);
      for i := 0 to |ws|
        invariant mem == StoreAll(old(mem), base, ws[..i])
      {
        mem := Store(mem, base + 8 * i, ws[i]);
        StorePrefix(old(mem), base, ws, i + 1);
      }
      assert ws[..|ws|] == ws;
    }

    method PopFrame() returns (ret: Word, sigreturn: bool)
      modifies this
      ensures (View(), ret, sigreturn) == Pop(old(View()))
    {
      var b := reg[10];
      if !Mapped(b, 104) { return 0, false; }
      hide Load, LoadAll;
      var w := LoadAll(mem, b, 13);
      var low := reg[0..6];
      if IsSignal(w[0]) {
        depth := depth - 1;
        low := w[7..13];
      }
      reg := low + [w[3], w[4], w[5], w[6], w[1]];
      ret := w[2];
      sigreturn := IsSignal(w[0]) && HasSiginfo(w[0]);
    }

    method AllocaBy(inc: int) returns (addr: int)
      modifies this`mem
      ensures (View(), addr) == Alloca(old(View()), inc)
    {
      hide Load, Store;
      var b := reg[10];
      if !Mapped(b, 8) { return -EFAULT; }
      var h := Load(mem, b);
      var n := AllocaOf(h) + inc;
      if n < 0 { return -EINVAL; }
      var total := SizeOf(h) + n;
      if n >= M24 || b < STACK_BASE + total { return -ENOMEM; }
      if inc > 0 && !Mapped(b - total, total) { return -ENOMEM; }
      WithAllocaFields(h, n);
      mem := Store(mem, b, WithAlloca(h, n));
      addr := b - total;
    }

    method DeliverSignal(info: Info) returns (ok: bool)
      modifies this
      ensures ok == Deliver(old(View()), info).Some?
      ensures ok ==> View() == Deliver(old(View()), info).value
    {
      hide Push;
      if info.Killed? { return false; }
      if info.sig == 0 {
        if restart != 0 {
          pc := restart;
          restart := 0;
          nohand := false;
        }
        return true;
      }
      if !info.mapped { return false; }
      var ret := pc;
      if restart != 0 {
        if info.restart && !nohand {
          ret := restart;
        } else {
          reg := reg[0 := M64 - EINTR];
          ret := (restart + 8) % M64;
        }
        restart := 0;
        nohand := false;
      }
      assert reg == old(reg)[0 := reg[0]];
      ok := PushFrame(ret, info.size, true, info.siginfo);
      if !ok { return; }
      reg := reg[1 := info.sig % M64];
      pc := info.handler;
    }
  }

  lemma StoreNone(mem: Memory, a: int, ws: seq<Word>)
    requires Mapped(a, 8 * |ws|)
    ensures StoreAll(mem, a, ws[..0]) == mem
  {
  }

  lemma StorePrefix(mem: Memory, a: int, ws: seq<Word>, k: nat)
    requires 0 < k <= |ws| && Mapped(a, 8 * |ws|)
    ensures StoreAll(mem, a, ws[..k]) == Store(StoreAll(mem, a, ws[..k - 1]), a + 8 * (k - 1), ws[k - 1])
  {
    hide Store;
    assert ws[..k][..k - 1] == ws[..k - 1];
  }
}
