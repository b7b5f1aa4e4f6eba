/**
 * Restarting interrupted system calls: `do_syscall` records the call,
 * `deliver_signal` consumes the record, and `vm::step` decides when that
 * happens, from the interpreter or from compiled code.
 */
module Restarts {
  import opened Words
  import opened ByteVectors
  import opened BpfAlu
  import opened Frames
  import opened StackRuns

  // ---------------------------------------------------------------------------
  // Between an instruction and the next one
  // ---------------------------------------------------------------------------

  /** `vm::safepoint`, with what the signal layer answers to its two queries. It does not look at the flags. */
  function Safepoint(m: Machine, first: Info, second: Info): Option<Machine>
  {
    var m1 := if m.depth == 0 then Deliver(m, first) else Some(m);
    if m1.None? then None else Deliver(m1.value, second)
  }

  /** Where control comes from: an interpreted instruction, or a fragment entered at `entry` that has been left. */
  datatype Origin = Interpreted | Compiled(entry: Word)

  /** What `vm::step` reads on the way: the flags behind a fragment and in front of a fetch, and the signal layer's answers. */
  datatype Reads = Reads(behind: nat, before: nat, leave: (Info, Info), enter: (Info, Info))

  /** Behind a fragment the safepoint runs when a flag is set. */
  function AfterFragment(m: Machine, o: Origin, r: Reads): Option<Machine>
  {
    if o.Compiled? && r.behind != 0 then Safepoint(m, r.leave.0, r.leave.1) else Some(m)
  }

  /** Whether `step` goes on to ask for a compiled fragment: not when a fragment came back to its own entry. */
  predicate Probes(m: Machine, o: Origin)
  {
    o.Interpreted? || m.pc != o.entry
  }

  /**
   * `vm::step` up to the next guest instruction. `hasCode` tells for which
   * addresses `compile` has a fragment. A fragment runs a safepoint at its
   * entry, whatever the flags; the interpreter runs one in front of the fetch
   * when a flag is set.
   */
  function ToNext(m: Machine, o: Origin, hasCode: Word -> bool, r: Reads): Option<Machine>
  {
    var m1 := AfterFragment(m, o, r);
    if m1.None? then None
    else if (Probes(m1.value, o) && hasCode(m1.value.pc)) || r.before != 0 then Safepoint(m1.value, r.enter.0, r.enter.1)
    else m1
  }

  lemma DeliverConsumes(m: Machine, info: Info)
    requires Deliver(m, info).Some?
    ensures Deliver(m, info).value.restart == 0
  {
    hide Load, StoreAll;
  }

  lemma SafepointConsumes(m: Machine, first: Info, second: Info)
    requires Safepoint(m, first, second).Some?
    ensures Safepoint(m, first, second).value.restart == 0
  {
    hide Deliver;
    var m1 := if m.depth == 0 then Deliver(m, first) else Some(m);
    DeliverConsumes(m1.value, second);
  }

  /**
   * A pending restart is consumed before the next guest instruction exactly
   * when a flag is set at one of the two places that look at it, or the next
   * instruction has compiled code that is entered.
   */
  lemma RestartConsumedIff(m: Machine, o: Origin, hasCode: Word -> bool, r: Reads)
    requires m.restart != 0 && ToNext(m, o, hasCode, r).Some?
    ensures ToNext(m, o, hasCode, r).value.restart == 0 <==>
            (o.Compiled? && r.behind != 0) || (Probes(m, o) && hasCode(m.pc)) || r.before != 0
  {
    hide Safepoint;
    var m1 := AfterFragment(m, o, r).value;
    if o.Compiled? && r.behind != 0 {
      SafepointConsumes(m, r.leave.0, r.leave.1);
    }
    if (Probes(m1, o) && hasCode(m1.pc)) || r.before != 0 {
      SafepointConsumes(m1, r.enter.0, r.enter.1);
    }
  }

  /** The same for the state right behind the call: the next instruction is the one after it, or the call itself. */
  lemma InterruptedConsumedIff(m: Machine, nohand: bool, o: Origin, hasCode: Word -> bool, r: Reads)
    requires m.pc != 0 && ToNext(AfterInterrupt(m, nohand, o.Compiled?), o, hasCode, r).Some?
    ensures ToNext(AfterInterrupt(m, nohand, o.Compiled?), o, hasCode, r).value.restart == 0 <==>
            r.before != 0 ||
            (if o.Compiled? then r.behind != 0 || (m.pc != o.entry && hasCode(m.pc)) else hasCode((m.pc + 8) % M64))
  {
    hide ToNext;
    RestartConsumedIff(AfterInterrupt(m, nohand, o.Compiled?), o, hasCode, r);
  }

  // ---------------------------------------------------------------------------
  // Runs
  // ---------------------------------------------------------------------------

  /** What a safepoint does is one or two signal actions of a run. */
  lemma SafepointIsSignals(c: Conf, first: Info, second: Info) returns (tr: seq<Conf>, acts: seq<Action>)
    requires Chain(c.m, c.fs) && Safepoint(c.m, first, second).Some?
    ensures Run(tr, acts) && tr[0] == c && tr[|acts|].m == Safepoint(c.m, first, second).value
    ensures acts == (if c.m.depth == 0 then [Signal(first)] else []) + [Signal(second)]
  {
    hide Deliver, Chain, DeliveredFrames;
    if c.m.depth == 0 {
      var c1 := Conf(Deliver(c.m, first).value, c.fs + DeliveredFrames(c.m, first));
      var c2 := Conf(Deliver(c1.m, second).value, c1.fs + DeliveredFrames(c1.m, second));
      tr, acts := [c, c1, c2], [Signal(first), Signal(second)];
    } else {
      var c1 := Conf(Deliver(c.m, second).value, c.fs + DeliveredFrames(c.m, second));
      tr, acts := [c, c1], [Signal(second)];
    }
  }

  /** Runs that meet can be joined. */
  lemma JoinRuns(tr: seq<Conf>, acts: seq<Action>, tr': seq<Conf>, acts': seq<Action>)
    requires Run(tr, acts) && Run(tr', acts') && tr[|acts|] == tr'[0]
    ensures Run(tr + tr'[1..], acts + acts')
    ensures (tr + tr'[1..])[|acts| + |acts'|] == tr'[|acts'|]
  {
    hide Chain, Step;
    var all, steps := tr + tr'[1..], acts + acts';
    forall i | 0 <= i < |steps|
      ensures Step(all[i], steps[i], all[i + 1])
    {
      if i < |acts| {
        assert Step(tr[i], acts[i], tr[i + 1]);
      } else {
        var k := i - |acts|;
        assert all[i] == tr'[k] && all[i + 1] == tr'[k + 1];
        assert Step(tr'[k], acts'[k], tr'[k + 1]);
      }
    }
  }

  predicate OnlySignals(acts: seq<Action>)
  {
    forall k :: 0 <= k < |acts| ==> acts[k].Signal?
  }

  /** The way to the next instruction is a run of signal actions, none exactly when no safepoint is met. */
  lemma NextIsRun(c: Conf, o: Origin, hasCode: Word -> bool, r: Reads) returns (tr: seq<Conf>, acts: seq<Action>)
    requires Chain(c.m, c.fs) && ToNext(c.m, o, hasCode, r).Some?
    ensures Run(tr, acts) && tr[0] == c && tr[|acts|].m == ToNext(c.m, o, hasCode, r).value && OnlySignals(acts)
    ensures acts != [] <==> (o.Compiled? && r.behind != 0) || (Probes(c.m, o) && hasCode(c.m.pc)) || r.before != 0
  {
    hide Chain, Step, Safepoint;
    tr, acts := [c], [];
    if o.Compiled? && r.behind != 0 {
      tr, acts := SafepointIsSignals(c, r.leave.0, r.leave.1);
    }
    var c1 := tr[|acts|];
    if (Probes(c1.m, o) && hasCode(c1.m.pc)) || r.before != 0 {
      RunChain(tr, acts, |acts|);
      var tr', acts' := SafepointIsSignals(c1, r.enter.0, r.enter.1);
      JoinRuns(tr, acts, tr', acts');
      tr, acts := tr + tr'[1..], acts + acts';
    }
  }

  /**
   * From an interrupted system call to the next guest instruction: the record
   * is made, and then consumed by the very next action of the run, exactly
   * under the condition of `InterruptedConsumedIff`.
   */
  lemma InterruptedRun(c: Conf, nohand: bool, o: Origin, hasCode: Word -> bool, r: Reads)
    returns (tr: seq<Conf>, acts: seq<Action>)
    requires Chain(c.m, c.fs) && c.m.pc != 0
    requires ToNext(AfterInterrupt(c.m, nohand, o.Compiled?), o, hasCode, r).Some?
    ensures Run(tr, acts) && tr[0] == c && acts != [] && acts[0] == Interrupted(nohand, o.Compiled?) && OnlySignals(acts[1..])
    ensures tr[|acts|].m == ToNext(AfterInterrupt(c.m, nohand, o.Compiled?), o, hasCode, r).value
    ensures |acts| > 1 <==>
            r.before != 0 ||
            (if o.Compiled? then r.behind != 0 || (c.m.pc != o.entry && hasCode(c.m.pc)) else hasCode((c.m.pc + 8) % M64))
  {
    hide Chain, ToNext;
    var c1 := Conf(AfterInterrupt(c.m, nohand, o.Compiled?), c.fs);
    var first := [Interrupted(nohand, o.Compiled?)];
    assert Step(c, first[0], c1);
    assert Run([c, c1], first);
    RunChain([c, c1], first, 1);
    var tr', acts' := NextIsRun(c1, o, hasCode, r);
    JoinRuns([c, c1], first, tr', acts');
    tr, acts := [c, c1] + tr'[1..], first + acts';
    assert acts[1..] == acts';
  }

  /**
   * An interrupted system call whose record is consumed at once: without a
   * signal to deliver it is about to run again with all its registers.
   */
  lemma RestartWithoutSignal(tr: seq<Conf>, acts: seq<Action>, i: nat, nohand: bool, compiled: bool, info: Info)
    requires Run(tr, acts) && i + 1 < |acts| && acts[i] == Interrupted(nohand, compiled) && tr[i].m.pc != 0
    requires acts[i + 1] == Signal(info) && info.Info? && info.sig == 0
    ensures tr[i + 2].m == tr[i].m.(restart := 0, nohand := false) && tr[i + 2].fs == tr[i].fs
  {
    hide Chain;
    assert Step(tr[i], acts[i], tr[i + 1]);
    assert Step(tr[i + 1], acts[i + 1], tr[i + 2]);
    assert tr[i + 1].fs + [] == tr[i].fs;
  }

  /**
   * With a handler: once it has returned, whatever it did, either the call is
   * about to run again with the r0..r10 it was made with, or the program
   * continues behind it with r0 = -EINTR and the other registers of the call.
   */
  lemma RestartTransparent(tr: seq<Conf>, acts: seq<Action>, i: nat, j: nat, nohand: bool, compiled: bool, info: Info)
    requires Run(tr, acts) && i + 1 < j < |acts| && acts[i] == Interrupted(nohand, compiled) && tr[i].m.pc != 0
    requires acts[i + 1] == Signal(info) && info.Info? && info.sig != 0 && !info.siginfo && acts[j] == Return
    requires |tr[j + 1].fs| == |tr[i].fs| && forall k :: i + 1 < k <= j ==> |tr[i].fs| < |tr[k].fs|
    ensures tr[i + 2].m.restart == 0
    ensures info.restart && !nohand ==> tr[j + 1].m.pc == tr[i].m.pc && tr[j + 1].m.reg == tr[i].m.reg
    ensures !(info.restart && !nohand) ==>
      tr[j + 1].m.pc == (tr[i].m.pc + 8) % M64 && tr[j + 1].m.reg == tr[i].m.reg[0 := M64 - EINTR]
  {
    hide Chain, Pop, Push;
    assert Step(tr[i], acts[i], tr[i + 1]);
    assert tr[i + 1].fs == tr[i].fs && tr[i + 1].m.reg == tr[i].m.reg;
    SignalTransparent(tr, acts, i + 1, j, info);
    assert Step(tr[i + 1], acts[i + 1], tr[i + 2]);
    DeliverConsumes(tr[i + 1].m, info);
    assert tr[i].m.reg[0 := tr[i].m.reg[0]] == tr[i].m.reg;
  }

  /** A record is made by an interrupted call only: once consumed it does not come back. */
  lemma {:induction false} ConsumedOnce(tr: seq<Conf>, acts: seq<Action>, i: nat, j: nat)
    requires Run(tr, acts) && i <= j < |tr| && tr[i].m.restart == 0
    requires forall k :: i <= k < j ==> !acts[k].Interrupted?
    ensures tr[j].m.restart == 0
  {
    hide Chain;
    if i < j {
      ConsumedOnce(tr, acts, i, j - 1);
      StepKeepsNone(tr[j - 1], acts[j - 1], tr[j]);
    }
  }

  lemma StepKeepsNone(c: Conf, a: Action, c': Conf)
    requires Step(c, a, c') && c.m.restart == 0 && !a.Interrupted?
    ensures c'.m.restart == 0
  {
    hide Load, StoreAll, LoadAll, Store, Header, NewFrame, WithAlloca;
    if a.Signal? { DeliverConsumes(c.m, a.info); }
  }

  /**
   * When it is not consumed at once, guest code runs with the record pending.
   * From any state at a system call, any guest work may follow, and a
   * safepoint without a signal then sends the program back to the call from
   * wherever it is, with the registers of that work. A call from the
   * interpreter has been skipped and is made late; a call from compiled code
   * has been made again by the interpreter and is made a second time.
   */
  lemma StaleRestart(c: Conf, nohand: bool, o: Origin, hasCode: Word -> bool, w: Machine, r: Reads, none: Info)
    returns (tr: seq<Conf>, acts: seq<Action>)
    requires Chain(c.m, c.fs) && c.m.pc != 0 && none.Info? && none.sig == 0
    requires r.before == 0 &&
             if o.Compiled? then r.behind == 0 && (c.m.pc == o.entry || !hasCode(c.m.pc)) else !hasCode((c.m.pc + 8) % M64)
    requires GuestWork(Conf(AfterInterrupt(c.m, nohand, o.Compiled?), c.fs), w)
    ensures ToNext(AfterInterrupt(c.m, nohand, o.Compiled?), o, hasCode, r) == Some(AfterInterrupt(c.m, nohand, o.Compiled?))
    ensures Run(tr, acts) && tr[0] == c && acts == [Interrupted(nohand, o.Compiled?), Work(w), Signal(none)]
    ensures tr[3].m == w.(pc := c.m.pc, restart := 0, nohand := false)
  {
    hide Chain, Safepoint;
    var c1 := Conf(AfterInterrupt(c.m, nohand, o.Compiled?), c.fs);
    var c2 := Conf(w, c.fs);
    var c3 := Conf(w.(pc := c.m.pc, restart := 0, nohand := false), c.fs);
    tr, acts := [c, c1, c2, c3], [Interrupted(nohand, o.Compiled?), Work(w), Signal(none)];
    assert c.fs + [] == c.fs;
    assert Step(c, acts[0], c1) && Step(c1, acts[1], c2) && Step(c2, acts[2], c3);
  }
}
