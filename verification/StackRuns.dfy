/**
 * Runs of calls, returns, allocas, signals and ordinary guest work on one
 * stack: what every reachable stack looks like, and that a signal handler's
 * return gives the interrupted program back.
 */
module StackRuns {
  import opened ByteVectors
  import opened Words
  import opened BpfAlu
  import opened Frames

  /** A live frame: its header fields and the words saved after the header. */
  datatype Frame = Frame(base: int, size: nat, alloca: nat, signal: bool, siginfo: bool, words: seq<Word>)

  /** The fixed part: everything but the alloca length. */
  function Fixed(f: Frame): Frame
  {
    f.(alloca := 0)
  }

  function HeaderBytes(f: Frame): nat
  {
    8 * (1 + |f.words|)
  }

  function Reserve(f: Frame): nat
  {
    f.size + f.alloca
  }

  /** The frame's record is in memory. */
  ghost predicate Intact(mem: Memory, f: Frame)
  {
    Mapped(f.base, HeaderBytes(f)) && f.size < M24 && f.alloca < M24 &&
    Load(mem, f.base) == Header(f.size, f.alloca, f.signal, f.siginfo) &&
    forall i :: 0 <= i < |f.words| ==> Load(mem, f.base + 8 + 8 * i) == f.words[i]
  }

  /** `g` was called from `f`: its record ends where f's locals and allocas begin. */
  ghost predicate CalledFrom(f: Frame, g: Frame)
  {
    |g.words| == (if g.signal then 12 else 6) && (g.siginfo ==> g.signal) && g.words[0] == f.base &&
    g.base + FrameBytes(g.signal, g.siginfo) == f.base - Reserve(f)
  }

  function SignalFrames(fs: seq<Frame>): nat
  {
    if fs == [] then 0 else SignalFrames(fs[..|fs| - 1]) + if fs[|fs| - 1].signal then 1 else 0
  }

  /** The sentinel at the stack's top, written before the first call. */
  predicate Sentinel(f: Frame)
  {
    f.base == STACK_TOP - 8 && f.words == [] && !f.signal && !f.siginfo
  }

  /** The live frames, oldest first, agree with the machine. */
  ghost predicate Chain(m: Machine, fs: seq<Frame>)
  {
    fs != [] && Sentinel(fs[0]) &&
    (forall i :: 0 <= i < |fs| ==> Intact(m.mem, fs[i])) &&
    (forall i :: 0 < i < |fs| ==> CalledFrom(fs[i - 1], fs[i])) &&
    m.reg[10] == fs[|fs| - 1].base && m.depth == SignalFrames(fs)
  }

  // ---------------------------------------------------------------------------
  // Stack discipline
  // ---------------------------------------------------------------------------

  /**
   * Older frames lie strictly higher: the whole record of a younger frame is
   * below the locals and allocas of every older one, and above STACK_BASE.
   */
  lemma {:induction false} RecordsBelowCallers(m: Machine, fs: seq<Frame>, i: nat, j: nat)
    requires Chain(m, fs) && i < j < |fs|
    ensures STACK_BASE <= fs[j].base
    ensures fs[j].base < fs[j].base + FrameBytes(fs[j].signal, fs[j].siginfo) <= fs[i].base - Reserve(fs[i]) <= fs[i].base
    decreases j
  {
    hide Load, Header;
    assert Intact(m.mem, fs[j]) && CalledFrom(fs[j - 1], fs[j]);
    if i < j - 1 {
      RecordsBelowCallers(m, fs, i, j - 1);
    }
  }

  lemma TopFrame(m: Machine, fs: seq<Frame>)
    requires Chain(m, fs)
    ensures var f := fs[|fs| - 1];
            f.base == m.reg[10] && Mapped(f.base, 8) && CallerTotal(m) == Reserve(f) && Reserve(f) < 2 * M24
  {
    hide Load;
    var f := fs[|fs| - 1];
    assert Intact(m.mem, f);
    HeaderFields(f.size, f.alloca, f.signal, f.siginfo);
  }

  /** The overflow test's unsigned subtraction never wraps. */
  lemma OverflowTestExact(m: Machine, fs: seq<Frame>, signal: bool, siginfo: bool)
    requires Chain(m, fs)
    ensures NewBase(m, signal, siginfo) == m.reg[10] - Reserve(fs[|fs| - 1]) - FrameBytes(signal, siginfo)
  {
    hide Load;
    TopFrame(m, fs);
  }

  /** The words a frame needs; unused words of a record may be overwritten. */
  lemma IntactSame(m1: Memory, m2: Memory, f: Frame)
    requires Intact(m1, f) && Same(m1, m2, f.base, HeaderBytes(f))
    ensures Intact(m2, f)
  {
    hide Load, Same, Header;
    SameLoad(m1, m2, f.base, HeaderBytes(f), f.base);
    forall i | 0 <= i < |f.words|
      ensures Load(m2, f.base + 8 + 8 * i) == f.words[i]
    {
      SameLoad(m1, m2, f.base, HeaderBytes(f), f.base + 8 + 8 * i);
    }
  }

  function NewFrame(m: Machine, ret: Word, size: nat, signal: bool, siginfo: bool): Frame
  {
    Frame(NewBase(m, signal, siginfo), size % M24, 0, signal, siginfo, Saved(m.reg, ret, signal))
  }

  lemma PushWrites(m: Machine, ret: Word, size: nat, signal: bool, siginfo: bool)
    requires Push(m, ret, size, signal, siginfo).Some? && (siginfo ==> signal)
    ensures var m' := Push(m, ret, size, signal, siginfo).value;
            Intact(m'.mem, NewFrame(m, ret, size, signal, siginfo))
  {
    hide Load, Store, StoreAll, NewBase;
    var base := NewBase(m, signal, siginfo);
    var f := NewFrame(m, ret, size, signal, siginfo);
    var ws := [Header(size, 0, signal, siginfo)] + f.words;
    assert Mapped(base, 8 * |ws|);
    LoadStoredAll(m.mem, base, ws, 0);
    forall i | 0 <= i < |f.words|
      ensures Load(StoreAll(m.mem, base, ws), base + 8 + 8 * i) == f.words[i]
    {
      LoadStoredAll(m.mem, base, ws, i + 1);
    }
  }

  /** A push extends the chain by the new frame and leaves every older record alone. */
  lemma PushChain(m: Machine, fs: seq<Frame>, ret: Word, size: nat, signal: bool, siginfo: bool)
    requires Chain(m, fs) && Push(m, ret, size, signal, siginfo).Some? && (siginfo ==> signal)
    ensures Chain(Push(m, ret, size, signal, siginfo).value, fs + [NewFrame(m, ret, size, signal, siginfo)])
  {
    hide Load, Store, StoreAll, Header, Same, Intact, NewBase;
    var base := NewBase(m, signal, siginfo);
    var f := NewFrame(m, ret, size, signal, siginfo);
    var ws := [Header(size, 0, signal, siginfo)] + f.words;
    var m', fs' := Push(m, ret, size, signal, siginfo).value, fs + [f];
    PushWrites(m, ret, size, signal, siginfo);
    OverflowTestExact(m, fs, signal, siginfo);
    var top := fs[|fs| - 1];
    forall i | 0 <= i < |fs|
      ensures Intact(m'.mem, fs[i])
    {
      IntactMapped(m.mem, fs[i]);
      if i < |fs| - 1 { RecordsBelowCallers(m, fs, i, |fs| - 1); }
      assert base + 8 * |ws| <= fs[i].base;
      StoreAllElsewhere(m.mem, base, ws, fs[i].base, HeaderBytes(fs[i]));
      IntactSame(m.mem, m'.mem, fs[i]);
    }
    assert fs'[..|fs'| - 1] == fs;
  }

  lemma IntactMapped(mem: Memory, f: Frame)
    requires Intact(mem, f)
    ensures Mapped(f.base, HeaderBytes(f)) && f.size < M24 && f.alloca < M24
  {
  }

  // ---------------------------------------------------------------------------
  // Return
  // ---------------------------------------------------------------------------

  /** Frames above the first call are read back whole; the oldest needs 32 reserved bytes above it. */
  lemma PopReadable(m: Machine, fs: seq<Frame>)
    requires Chain(m, fs) && |fs| > 1
    ensures Mapped(m.reg[10], 104) <==> |fs| > 2 || fs[1].signal || Reserve(fs[0]) >= 32
  {
    hide Load, Header;
    var n := |fs| - 1;
    assert Intact(m.mem, fs[n]) && CalledFrom(fs[n - 1], fs[n]);
    if n > 1 {
      RecordsBelowCallers(m, fs, 0, n - 1);
    }
  }

  /** A return restores exactly what the top frame recorded. */
  lemma PopRestores(m: Machine, fs: seq<Frame>)
    requires Chain(m, fs) && |fs| > 1 && Mapped(m.reg[10], 104)
    ensures var (m', ret, sig) := Pop(m);
            var f := fs[|fs| - 1];
            CalledFrom(fs[|fs| - 1 - 1], f) && ret == f.words[1] && sig == f.siginfo &&
            m'.reg[10] == f.words[0] && m'.reg[6..10] == f.words[2..6] &&
            m'.reg[0..6] == (if f.signal then f.words[6..12] else m.reg[0..6]) &&
            m' == m.(reg := m'.reg, depth := m'.depth) && Chain(m', fs[..|fs| - 1])
  {
    hide Load, Header;
    var f, n := fs[|fs| - 1], |fs| - 1;
    var m' := Pop(m).0;
    assert Intact(m.mem, f) && CalledFrom(fs[n - 1], f);
    HeaderFields(f.size, f.alloca, f.signal, f.siginfo);
    var w := LoadAll(m.mem, f.base, 13);
    forall i | 0 <= i < |f.words|
      ensures w[i + 1] == f.words[i]
    {
      assert f.base + 8 * (i + 1) == f.base + 8 + 8 * i;
    }
    hide Intact;
    var low := if f.signal then w[7..13] else m.reg[0..6];
    assert m'.reg == low + [w[3], w[4], w[5], w[6], w[1]];
    assert m'.reg[6..10] == [w[3], w[4], w[5], w[6]] == f.words[2..6];
    assert f.signal ==> w[7..13] == f.words[6..12];
    assert m'.reg[0..6] == low;
  }

  // ---------------------------------------------------------------------------
  // Alloca
  // ---------------------------------------------------------------------------

  /** The frames after an alloca: only the top's alloca length moves. */
  function AllocaFrames(fs: seq<Frame>, inc: int): seq<Frame>
    requires fs != [] && fs[|fs| - 1].alloca + inc >= 0
  {
    var f := fs[|fs| - 1];
    fs[|fs| - 1 := f.(alloca := f.alloca + inc)]
  }

  /**
   * A successful alloca returns the new lower bound; a positive one hands out
   * [addr, addr + inc), directly below what was reserved before. A failed one
   * changes nothing.
   */
  lemma AllocaChain(m: Machine, fs: seq<Frame>, inc: int)
    requires Chain(m, fs)
    ensures var (m', addr) := Alloca(m, inc);
            var f := fs[|fs| - 1];
            (addr < 0 <==> f.alloca + inc < 0 || f.alloca + inc >= M24 || f.base < STACK_BASE + f.size + f.alloca + inc) &&
            (addr < 0 ==> m' == m) &&
            (addr >= 0 ==> f.alloca + inc >= 0 && Chain(m', AllocaFrames(fs, inc)) &&
                           addr + inc == f.base - Reserve(f) && STACK_BASE <= addr)
  {
    hide Load, Store, Header, WithAlloca, Intact, SignalFrames;
    var f, n := fs[|fs| - 1], |fs| - 1;
    AllocaOutcome(m, fs, inc);
    var (m', addr) := Alloca(m, inc);
    if addr >= 0 {
      var fs' := AllocaFrames(fs, inc);
      AllocaTop(m.mem, f, f.alloca + inc);
      forall i | 0 <= i < |fs'|
        ensures Intact(m'.mem, fs'[i])
      {
        if i < n {
          RecordsBelowCallers(m, fs, i, n);
          AllocaOther(m.mem, f, f.alloca + inc, fs[i]);
        }
      }
      SignalFramesUpdate(fs, fs'[n]);
    }
  }

  /** What alloca decides, in terms of the top frame. */
  lemma AllocaOutcome(m: Machine, fs: seq<Frame>, inc: int)
    requires Chain(m, fs)
    ensures var (m', addr) := Alloca(m, inc);
            var f := fs[|fs| - 1];
            f.base == m.reg[10] && Intact(m.mem, f) && Mapped(f.base, 8) &&
            (addr < 0 <==> f.alloca + inc < 0 || f.alloca + inc >= M24 || f.base < STACK_BASE + f.size + f.alloca + inc) &&
            (addr < 0 ==> m' == m) &&
            (addr >= 0 ==> f.alloca + inc < M24 && addr == f.base - f.size - f.alloca - inc &&
                           m' == m.(mem := Store(m.mem, f.base, Header(f.size, f.alloca + inc, f.signal, f.siginfo))))
  {
    hide Load, Store, Header, WithAlloca;
    var f := fs[|fs| - 1];
    assert Intact(m.mem, f);
    HeaderFields(f.size, f.alloca, f.signal, f.siginfo);
    if 0 <= f.alloca + inc < M24 {
      HeaderUpdate(f.size, f.alloca, f.signal, f.siginfo, f.alloca + inc);
    }
  }

  lemma AllocaTop(mem: Memory, f: Frame, alloca: nat)
    requires Intact(mem, f) && Mapped(f.base, 8) && alloca < M24
    ensures Intact(Store(mem, f.base, Header(f.size, alloca, f.signal, f.siginfo)), f.(alloca := alloca))
  {
    hide Load, Store, Header, Same;
    var h := Header(f.size, alloca, f.signal, f.siginfo);
    var mem' := Store(mem, f.base, h);
    LoadStored(mem, f.base, h);
    forall i | 0 <= i < |f.words|
      ensures Load(mem', f.base + 8 + 8 * i) == f.words[i]
    {
      StoreElsewhere(mem, f.base, h, f.base + 8 + 8 * i, 8);
      SameLoad(mem, mem', f.base + 8 + 8 * i, 8, f.base + 8 + 8 * i);
    }
  }

  lemma AllocaOther(mem: Memory, f: Frame, alloca: nat, g: Frame)
    requires Mapped(f.base, 8) && f.base + 8 <= g.base && Intact(mem, g)
    ensures Intact(Store(mem, f.base, Header(f.size, alloca, f.signal, f.siginfo)), g)
  {
    hide Load, Store, Header, Same, Intact;
    IntactMapped(mem, g);
    var h := Header(f.size, alloca, f.signal, f.siginfo);
    StoreElsewhere(mem, f.base, h, g.base, HeaderBytes(g));
    IntactSame(mem, Store(mem, f.base, h), g);
  }

  lemma HeaderUpdate(size: nat, alloca: nat, signal: bool, siginfo: bool, alloca': nat)
    requires size < M24 && alloca < M24 && alloca' < M24
    ensures WithAlloca(Header(size, alloca, signal, siginfo), alloca') == Header(size, alloca', signal, siginfo)
  {
    HeaderFields(size, alloca, signal, siginfo);
  }

  lemma SignalFramesUpdate(fs: seq<Frame>, f: Frame)
    requires fs != [] && f.signal == fs[|fs| - 1].signal
    ensures SignalFrames(fs[|fs| - 1 := f]) == SignalFrames(fs)
  {
    assert fs[|fs| - 1 := f][..|fs| - 1] == fs[..|fs| - 1];
  }

  // ---------------------------------------------------------------------------
  // Runs
  // ---------------------------------------------------------------------------

  datatype Conf = Conf(m: Machine, fs: seq<Frame>)

  datatype Action =
    | Call(target: Word, ret: Word, size: nat)
    | Return
    | Grow(inc: int)
    | Signal(info: Info)
    | Interrupted(noHandler: bool, compiled: bool)
    | Work(after: Machine)

  /** Guest code in between: any registers but r10, any memory but the live records. */
  ghost predicate GuestWork(c: Conf, m': Machine)
  {
    m'.reg[10] == c.m.reg[10] && m'.depth == c.m.depth && m'.restart == c.m.restart && m'.nohand == c.m.nohand &&
    forall i :: 0 <= i < |c.fs| && Mapped(c.fs[i].base, HeaderBytes(c.fs[i])) ==>
      Same(c.m.mem, m'.mem, c.fs[i].base, HeaderBytes(c.fs[i]))
  }

  /**
   * A system call at pc_ that is to be restarted (`do_syscall`). The
   * interpreter then moves on to the next instruction; compiled code leaves
   * with pc_ at the call (`helper_do_syscall`).
   */
  function AfterInterrupt(m: Machine, noHandler: bool, compiled: bool): Machine
  {
    m.(restart := m.pc, nohand := noHandler, pc := if compiled then m.pc else (m.pc + 8) % M64)
  }

  ghost predicate Step(c: Conf, a: Action, c': Conf)
  {
    match a
    case Call(target, ret, size) =>
      var r := Push(c.m, ret, size, false, false);
      r.Some? && c' == Conf(r.value.(pc := target), c.fs + [NewFrame(c.m, ret, size, false, false)])
    case Return =>
      var (m', ret, sigreturn) := Pop(c.m);
      |c.fs| > 1 && Mapped(c.m.reg[10], 104) && ret != 0 && !sigreturn &&
      c' == Conf(m'.(pc := ret), c.fs[..|c.fs| - 1])
    case Grow(inc) =>
      var (m', addr) := Alloca(c.m, inc);
      c.fs != [] &&
      c' == Conf(m'.(reg := m'.reg[0 := addr % M64]),
                 if addr >= 0 && c.fs[|c.fs| - 1].alloca + inc >= 0 then AllocaFrames(c.fs, inc) else c.fs)
    case Signal(info) =>
      var r := Deliver(c.m, info);
      r.Some? && c'.m == r.value && c'.fs == c.fs + DeliveredFrames(c.m, info)
    case Interrupted(noHandler, compiled) => c' == Conf(AfterInterrupt(c.m, noHandler, compiled), c.fs)
    case Work(after) => c'.m == after && c'.fs == c.fs && GuestWork(c, after)
  }

  /** The frame a delivery pushes, if any. */
  function DeliveredFrames(m: Machine, info: Info): seq<Frame>
  {
    if info.Killed? || info.sig == 0 || !info.mapped then []
    else
      var p := ResumePoint(m, info.restart);
      [NewFrame(m.(reg := m.reg[0 := p.1]), p.0, info.size, true, info.siginfo)]
  }

  lemma DeliverChain(m: Machine, fs: seq<Frame>, info: Info)
    requires Chain(m, fs) && Deliver(m, info).Some?
    ensures Chain(Deliver(m, info).value, fs + DeliveredFrames(m, info))
  {
    hide Push, Intact, CalledFrom, SignalFrames;
    if info.sig == 0 {
      assert fs + [] == fs;
    } else {
      var p := ResumePoint(m, info.restart);
      var m1 := m.(reg := m.reg[0 := p.1], restart := 0, nohand := m.nohand && m.restart == 0);
      assert Chain(m1, fs);
      PushChain(m1, fs, p.0, info.size, true, info.siginfo);
      assert NewFrame(m1, p.0, info.size, true, info.siginfo) ==
             NewFrame(m.(reg := m.reg[0 := p.1]), p.0, info.size, true, info.siginfo);
    }
  }

  lemma WorkChain(c: Conf, m': Machine)
    requires Chain(c.m, c.fs) && GuestWork(c, m')
    ensures Chain(m', c.fs)
  {
    hide Intact, CalledFrom, SignalFrames, Same;
    forall i | 0 <= i < |c.fs|
      ensures Intact(m'.mem, c.fs[i])
    {
      IntactMapped(c.m.mem, c.fs[i]);
      IntactSame(c.m.mem, m'.mem, c.fs[i]);
    }
  }

  lemma ChainRegisters(m: Machine, m': Machine, fs: seq<Frame>)
    requires Chain(m, fs) && m'.mem == m.mem && m'.reg[10] == m.reg[10] && m'.depth == m.depth
    ensures Chain(m', fs)
  {
    hide Intact, CalledFrom, SignalFrames;
  }

  /** Every step keeps the chain. */
  lemma StepChain(c: Conf, a: Action, c': Conf)
    requires Chain(c.m, c.fs) && Step(c, a, c')
    ensures Chain(c'.m, c'.fs)
  {
    hide Intact, CalledFrom, SignalFrames, Push, Pop, Alloca, Deliver;
    match a
    case Call(target, ret, size) => PushChain(c.m, c.fs, ret, size, false, false);
    case Return => PopRestores(c.m, c.fs);
    case Grow(inc) =>
      AllocaChain(c.m, c.fs, inc);
      ChainRegisters(Alloca(c.m, inc).0, c'.m, c'.fs);
    case Signal(info) => DeliverChain(c.m, c.fs, info);
    case Interrupted(_, _) =>
    case Work(after) => WorkChain(c, after);
  }

  ghost predicate Run(tr: seq<Conf>, acts: seq<Action>)
  {
    |tr| == |acts| + 1 && Chain(tr[0].m, tr[0].fs) &&
    forall i :: 0 <= i < |acts| ==> Step(tr[i], acts[i], tr[i + 1])
  }

  /** Over any run the frames in memory, r10 and signal_depth agree with the calls made. */
  lemma {:induction false} RunChain(tr: seq<Conf>, acts: seq<Action>, i: nat)
    requires Run(tr, acts) && i < |tr|
    ensures Chain(tr[i].m, tr[i].fs)
  {
    hide Chain, Step;
    if i > 0 {
      RunChain(tr, acts, i - 1);
      StepChain(tr[i - 1], acts[i - 1], tr[i]);
    }
  }

  /** The stack `setup_stack` leaves behind. */
  lemma InitialChain(m: Machine, limit: nat)
    requires limit < M24 && m.reg[10] == STACK_TOP - 8 && m.depth == 0
    ensures Chain(m.(mem := Store(m.mem, STACK_TOP - 8, Header(limit, 0, false, false))),
                  [Frame(STACK_TOP - 8, limit, 0, false, false, [])])
  {
    hide Store, Load, Header;
    LoadStored(m.mem, STACK_TOP - 8, Header(limit, 0, false, false));
    var f := Frame(STACK_TOP - 8, limit, 0, false, false, []);
    assert SignalFrames([f][..0]) == 0;
    assert SignalFrames([f]) == 0;
  }

  /** Two allocas of one frame: the second block ends where the first begins. */
  lemma AllocaBlocksAdjacent(m: Machine, fs: seq<Frame>, a: int, b: int)
    requires Chain(m, fs) && a >= 0 && b >= 0
    ensures var (m1, first) := Alloca(m, a);
            var (m2, second) := Alloca(m1, b);
            first >= 0 && second >= 0 ==> second + b == first && first + a == m.reg[10] - CallerTotal(m)
  {
    hide Alloca, CallerTotal, Intact, CalledFrom, SignalFrames;
    AllocaChain(m, fs, a);
    TopFrame(m, fs);
    var (m1, first) := Alloca(m, a);
    if first >= 0 {
      AllocaChain(m1, AllocaFrames(fs, a), b);
    }
  }

  // ---------------------------------------------------------------------------
  // Signal transparency
  // ---------------------------------------------------------------------------

  /** The first `n` frames keep everything but their alloca lengths. */
  ghost predicate SamePrefix(fs: seq<Frame>, fs': seq<Frame>, n: nat)
  {
    n <= |fs| && n <= |fs'| && forall i :: 0 <= i < n ==> Fixed(fs[i]) == Fixed(fs'[i])
  }

  lemma StepPrefix(c: Conf, a: Action, c': Conf, n: nat)
    requires Chain(c.m, c.fs) && Step(c, a, c') && n <= |c.fs| && n <= |c'.fs|
    ensures SamePrefix(c.fs, c'.fs, n)
  {
    hide Chain, Push, Pop, Alloca, Deliver, NewFrame;
  }

  lemma {:induction false} RunPrefix(tr: seq<Conf>, acts: seq<Action>, i: nat, j: nat, n: nat)
    requires Run(tr, acts) && i <= j < |tr|
    requires forall k :: i <= k <= j ==> n <= |tr[k].fs|
    ensures SamePrefix(tr[i].fs, tr[j].fs, n)
  {
    hide Chain, Step;
    if i < j {
      RunPrefix(tr, acts, i, j - 1, n);
      RunChain(tr, acts, j - 1);
      StepPrefix(tr[j - 1], acts[j - 1], tr[j], n);
    }
  }

  /** A delivery pushes one signal frame that records the registers it found and the resume point. */
  lemma DeliveredRecord(m: Machine, info: Info)
    requires Deliver(m, info).Some? && info.sig != 0
    ensures var fs := DeliveredFrames(m, info);
            var p := ResumePoint(m, info.restart);
            |fs| == 1 && fs[0].signal && fs[0].siginfo == info.siginfo && |fs[0].words| == 12 &&
            fs[0].words[0] == m.reg[10] && fs[0].words[1] == p.0 &&
            fs[0].words[2..6] == m.reg[6..10] && fs[0].words[6..12] == [p.1] + m.reg[1..6]
  {
    hide Push;
    var p := ResumePoint(m, info.restart);
    assert m.reg[0 := p.1][0..6] == [p.1] + m.reg[1..6];
  }

  /**
   * Signal transparency: whatever runs between a delivery without siginfo and
   * the return that matches it, including further nested signals, that
   * return puts all eleven registers and the pc where the delivery found
   * them, up to the decision about an interrupted system call.
   */
  lemma SignalTransparent(tr: seq<Conf>, acts: seq<Action>, i: nat, j: nat, info: Info)
    requires Run(tr, acts) && i < j < |acts|
    requires acts[i] == Signal(info) && info.Info? && info.sig != 0 && !info.siginfo && acts[j] == Return
    requires |tr[j + 1].fs| == |tr[i].fs| && forall k :: i < k <= j ==> |tr[i].fs| < |tr[k].fs|
    ensures var p := ResumePoint(tr[i].m, info.restart);
            tr[j + 1].m.pc == p.0 && tr[j + 1].m.reg == tr[i].m.reg[0 := p.1]
  {
    hide Chain, Pop, Deliver, DeliveredFrames, ResumePoint;
    var n := |tr[i].fs|;
    RunChain(tr, acts, j);
    RunPrefix(tr, acts, i + 1, j, n + 1);
    DeliveredRecord(tr[i].m, info);
    var f := tr[j].fs[n];
    assert Fixed(tr[i + 1].fs[n]) == Fixed(f);
    assert tr[i + 1].fs[n] == DeliveredFrames(tr[i].m, info)[0];
    PopRestores(tr[j].m, tr[j].fs);
    Rebuilt(tr[i].m.reg, tr[j + 1].m.reg, ResumePoint(tr[i].m, info.restart).1, f.words);
  }

  lemma Rebuilt(reg: Registers, reg': Registers, r0: Word, words: seq<Word>)
    requires |words| == 12 && words[0] == reg[10] && words[2..6] == reg[6..10] && words[6..12] == [r0] + reg[1..6]
    requires reg'[10] == words[0] && reg'[6..10] == words[2..6] && reg'[0..6] == words[6..12]
    ensures reg' == reg[0 := r0]
  {
    forall i | 0 <= i < 11
      ensures reg'[i] == reg[0 := r0][i]
    {
      if 0 < i < 6 {
        assert reg'[0..6][i] == ([r0] + reg[1..6])[i] == reg[1..6][i - 1];
      } else if 6 <= i < 10 {
        assert reg'[6..10][i - 6] == reg[6..10][i - 6];
      } else if i == 0 {
        assert reg'[0..6][0] == r0;
      }
    }
  }

  /**
   * Calls: whatever runs between a call and the return that matches it, the
   * return lands behind the call with r6..r10 as the caller had them and
   * r0..r5 as the callee left them.
   */
  lemma CallReturns(tr: seq<Conf>, acts: seq<Action>, i: nat, j: nat, target: Word, ret: Word, size: nat)
    requires Run(tr, acts) && i < j < |acts|
    requires acts[i] == Call(target, ret, size) && acts[j] == Return
    requires |tr[j + 1].fs| == |tr[i].fs| && forall k :: i < k <= j ==> |tr[i].fs| < |tr[k].fs|
    ensures tr[j + 1].m.pc == ret
    ensures tr[j + 1].m.reg[6..11] == tr[i].m.reg[6..11] && tr[j + 1].m.reg[0..6] == tr[j].m.reg[0..6]
  {
    hide Chain, Pop, Push;
    var n := |tr[i].fs|;
    RunChain(tr, acts, j);
    RunPrefix(tr, acts, i + 1, j, n + 1);
    assert Step(tr[i], acts[i], tr[i + 1]);
    var f := tr[j].fs[n];
    assert Fixed(tr[i + 1].fs[n]) == Fixed(f);
    PopRestores(tr[j].m, tr[j].fs);
    var reg, reg' := tr[i].m.reg, tr[j + 1].m.reg;
    assert reg'[6..11] == reg'[6..10] + [reg'[10]];
    assert reg[6..11] == f.words[2..6] + [f.words[0]];
  }
}
