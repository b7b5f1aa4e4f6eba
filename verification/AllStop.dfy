/**
 * All-stop debugging (`src/gdb_server.cpp`): the server thread scans its
 * table of vms under its lock while the vms' own threads keep changing their flags.
 */
module AllStop {
  import opened ByteVectors

  type Id = nat

  /** The flags the protocol looks at, and the entry's one-shot step request. */
  datatype Task = Task(attached: bool, stop: bool, posix: bool, exited: bool, stepping: bool)

  // ---------------------------------------------------------------------------
  // One round of the scan
  // ---------------------------------------------------------------------------

  datatype Phase = Nothing | Exited | Breakpoint | Preferred

  function Rank(p: Phase): nat
  {
    match p
    case Nothing => 0
    case Exited => 1
    case Breakpoint => 2
    case Preferred => 3
  }

  /** What one table entry looked like when the scan read it. */
  datatype Seen = Seen(id: Id, task: Task)

  datatype Round = Round(phase: Phase, hit: Option<Id>, settled: bool)

  const START: Round := Round(Nothing, None, true)

  predicate Hit(t: Task)
  {
    t.stop || t.exited
  }

  predicate Settled(t: Task)
  {
    t.stop || t.posix || t.exited || t.stepping
  }

  /** The body of the scan for one entry. */
  function Look(r: Round, e: Seen, watch: set<Id>, preferred: Option<Id>): Round
  {
    var watched := e.id in watch;
    var r1 :=
      if Some(e.id) == preferred && watched && Hit(e.task) && Rank(r.phase) < 3 then r.(phase := Preferred, hit := Some(e.id))
      else if watched && e.task.stop && Rank(r.phase) < 2 then r.(phase := Breakpoint, hit := Some(e.id))
      else if watched && e.task.exited && Rank(r.phase) < 1 then r.(phase := Exited, hit := Some(e.id))
      else r;
    if e.task.attached && !Settled(e.task) then r1.(settled := false) else r1
  }

  function LookAll(es: seq<Seen>, watch: set<Id>, preferred: Option<Id>): Round
  {
    if es == [] then START else Look(LookAll(es[..|es| - 1], watch, preferred), es[|es| - 1], watch, preferred)
  }

  /** The loop over the table. */
  method ScanRound(es: seq<Seen>, watch: set<Id>, preferred: Option<Id>) returns (r: Round)
    ensures r == LookAll(es, watch, preferred)
  {
    r := START;
    assert es[..0] == [];
    for k := 0 to |es|
      invariant r == LookAll(es[..k], watch, preferred)
    {
      assert es[..k + 1][..k] == es[..k];
      r := Look(r, es[k], watch, preferred);
    }
    assert es[..|es|] == es;
  }

  /** A watched entry seen with the property. */
  ghost predicate Saw(es: seq<Seen>, watch: set<Id>, id: Id, p: Task -> bool)
  {
    exists k :: 0 <= k < |es| && es[k].id == id && id in watch && p(es[k].task)
  }

  lemma SawMore(es: seq<Seen>, e: Seen, watch: set<Id>, id: Id, p: Task -> bool)
    ensures Saw(es + [e], watch, id, p) <==> Saw(es, watch, id, p) || (e.id == id && id in watch && p(e.task))
  {
    var fs := es + [e];
    if Saw(es, watch, id, p) {
      var k :| 0 <= k < |es| && es[k].id == id && id in watch && p(es[k].task);
      assert fs[k] == es[k];
    }
    assert fs[|es|] == e;
  }

  /**
   * What a round reports: only watched vms seen stopped or exited; the
   * preferred one if it was among them; otherwise a stopped one if any was
   * seen, so that an exit never hides a breakpoint; and `settled` exactly
   * when every attached entry was seen at rest.
   */
  lemma {:induction false} RoundMeaning(es: seq<Seen>, watch: set<Id>, preferred: Option<Id>)
    ensures var r := LookAll(es, watch, preferred);
            (r.hit.None? <==> r.phase == Nothing) &&
            (r.settled <==> forall k :: 0 <= k < |es| && es[k].task.attached ==>
               es[k].task.stop || es[k].task.posix || es[k].task.exited || es[k].task.stepping) &&
            (r.hit.Some? ==> Saw(es, watch, r.hit.value, Hit)) &&
            (r.phase == Preferred <==> preferred.Some? && Saw(es, watch, preferred.value, Hit)) &&
            (r.phase == Preferred ==> r.hit == preferred) &&
            (r.phase == Breakpoint ==> Saw(es, watch, r.hit.value, (t: Task) => t.stop)) &&
            (r.phase == Exited || r.phase == Nothing ==>
               forall k :: 0 <= k < |es| && es[k].id in watch ==> !es[k].task.stop) &&
            (r.phase == Nothing ==> forall k :: 0 <= k < |es| && es[k].id in watch ==> !Hit(es[k].task))
  {
    if es != [] {
      var front, e := es[..|es| - 1], es[|es| - 1];
      assert es == front + [e];
      RoundMeaning(front, watch, preferred);
      var r0, r := LookAll(front, watch, preferred), LookAll(es, watch, preferred);
      if preferred.Some? { SawMore(front, e, watch, preferred.value, Hit); }
      if r.hit.Some? {
        SawMore(front, e, watch, r.hit.value, Hit);
        SawMore(front, e, watch, r.hit.value, (t: Task) => t.stop);
      }
    }
  }

  // ---------------------------------------------------------------------------
  // The protocol
  // ---------------------------------------------------------------------------

  /**
   * The server thread. `Control`: the debugger has the floor, after a report.
   * `Releasing`: a resume packet is being carried out. The others are inside
   * wait_any_stopped; `Scanning` and `Stopping` hold the table lock, and
   * `Judging` is the code behind each of them, without the lock, that acts on
   * what the round saw.
   */
  datatype Server =
    | Control
    | Releasing
    | Waiting(propagated: bool)
    | Scanning(propagated: bool, left: seq<Id>, round: Round)
    | Stopping(left: seq<Id>, round: Round)
    | Judging(propagated: bool, round: Round)

  /** `continued` are the vms that SIGCONT took out of a POSIX stop since the last scan began. */
  datatype State = State(vms: map<Id, Task>, table: set<Id>, watch: set<Id>, preferred: Option<Id>,
                         server: Server, continued: set<Id>)

  datatype Action =
    // vm threads and other guests
    | Fork(parent: Id, child: Id, event: bool)
    | Hook(v: Id, breakpoint: bool)
    | Catch(v: Id)
    | Exit(v: Id)
    | PosixStop(v: Id)
    | PosixContinue(v: Id)
    // server thread
    | Attach(v: Id)
    | Detach(v: Id)
    | Reap(v: Id)
    | Release
    | Resume(v: Id, single: bool)
    | BeginWait(watched: set<Id>, prefer: Option<Id>)
    | BeginScan(order: seq<Id>)
    | ScanOne
    | EndScan
    | BeginStop(all: seq<Id>)
    | CtrlC(all: seq<Id>)
    | StopOne
    | EndStop
    | Decide

  predicate LockFree(s: State)
  {
    !s.server.Scanning? && !s.server.Stopping?
  }

  function With(s: State, v: Id, t: Task): State
  {
    s.(vms := s.vms[v := t])
  }

  ghost predicate Enabled(s: State, a: Action)
  {
    match a
    case Fork(p, c, _) => LockFree(s) && p in s.vms && c !in s.vms
    case Hook(v, _) => LockFree(s) && v in s.table && v in s.vms && !s.vms[v].stop
    case Catch(v) => LockFree(s) && v in s.vms && s.vms[v].attached
    case Exit(v) => v in s.vms
    case PosixStop(v) => v in s.vms
    case PosixContinue(v) => v in s.vms
    case Attach(v) => s.server.Control? && v in s.vms
    case Detach(v) => (s.server.Control? || s.server.Releasing?) && v in s.table && v in s.vms
    case Reap(v) => s.server.Control? && v in s.table
    case Release => s.server.Control?
    case Resume(v, _) => s.server.Releasing? && v in s.table && v in s.vms
    case BeginWait(_, _) => s.server.Releasing?
    case BeginScan(order) => s.server.Waiting? && forall v :: v in order <==> v in s.table
    case ScanOne => s.server.Scanning? && s.server.left != [] && s.server.left[0] in s.vms
    case EndScan => s.server.Scanning? && s.server.left == []
    case BeginStop(all) =>
      s.server.Judging? && s.server.round.hit.Some? && !s.server.propagated && forall v :: v in all <==> v in s.table
    case CtrlC(all) => s.server.Waiting? && forall v :: v in all <==> v in s.table
    case StopOne => s.server.Stopping? && s.server.left != [] && s.server.left[0] in s.vms
    case EndStop => s.server.Stopping? && s.server.left == []
    case Decide => s.server.Judging? && (s.server.round.hit.None? || s.server.propagated)
  }

  function Apply(s: State, a: Action): State
    requires Enabled(s, a)
  {
    match a
    case Fork(p, c, event) =>
      if !s.vms[p].attached then With(s, c, Task(false, false, false, false, false))
      else
        var s1 := With(s, c, Task(true, true, false, false, false)).(table := s.table + {c});
        if event && p in s.table then With(s1, p, s.vms[p].(stop := true)) else s1
    case Hook(v, breakpoint) =>
      var t := s.vms[v];
      if t.stepping then With(s, v, t.(stepping := false, stop := true))
      else if breakpoint then With(s, v, t.(stop := true))
      else s
    case Catch(v) => With(s, v, s.vms[v].(stop := true))
    case Exit(v) => With(s, v, s.vms[v].(exited := true))
    case PosixStop(v) => With(s, v, s.vms[v].(posix := true))
    case PosixContinue(v) =>
      With(s, v, s.vms[v].(posix := false)).(continued := s.continued + if s.vms[v].posix then {v} else {})
    case Attach(v) => With(s, v, s.vms[v].(attached := true, stop := true, stepping := false)).(table := s.table + {v})
    case Detach(v) =>
      var s1 := s.(table := s.table - {v});
      if s.vms[v].exited then s1 else With(s1, v, s.vms[v].(attached := false, stop := false))
    case Reap(v) => s.(table := s.table - {v})
    case Release => s.(server := Releasing)
    case Resume(v, single) => With(s, v, s.vms[v].(stop := false, stepping := single))
    case BeginWait(watched, prefer) =>
      s.(watch := if watched == {} then (set v | v in s.table && v in s.vms && s.vms[v].attached) else watched,
         preferred := prefer, server := Waiting(false))
    case BeginScan(order) => s.(server := Scanning(s.server.propagated, order, START), continued := {})
    case ScanOne =>
      var v := s.server.left[0];
      var r := Look(s.server.round, Seen(v, s.vms[v]), s.watch, s.preferred);
      s.(server := s.server.(left := s.server.left[1..], round := r))
    case EndScan => s.(server := Judging(s.server.propagated, s.server.round))
    case BeginStop(all) => s.(server := Stopping(all, s.server.round))
    case CtrlC(all) => s.(server := Stopping(all, Round(Nothing, None, false)))
    case StopOne =>
      var v := s.server.left[0];
      var t := s.vms[v];
      var s1 := s.(server := s.server.(left := s.server.left[1..]));
      if !t.attached || t.stop || t.posix || t.exited then s1 else With(s1, v, t.(stop := true))
    case EndStop => s.(server := Judging(true, s.server.round))
    case Decide =>
      var r := s.server.round;
      s.(server := if r.hit.Some? && r.settled then Control else Waiting(s.server.propagated))
  }

  // ---------------------------------------------------------------------------
  // Safety
  // ---------------------------------------------------------------------------

  /** Not running freely: stopped, gone, about to step once, or POSIX-stopped unless continued since. */
  predicate Quiet(s: State, v: Id)
  {
    v in s.vms && (Settled(s.vms[v]) || v in s.continued)
  }

  /** A vm that may be reported. */
  predicate Reportable(s: State, v: Id)
  {
    v in s.watch && v in s.table && v in s.vms && s.vms[v].attached && Hit(s.vms[v])
  }

  ghost predicate RoundOk(s: State, r: Round, left: seq<Id>)
  {
    (r.settled ==> forall v :: v in s.table && v !in left ==> Quiet(s, v)) &&
    (r.hit.Some? ==> Reportable(s, r.hit.value))
  }

  ghost predicate Inv(s: State)
  {
    (forall v :: v in s.table ==> v in s.vms && s.vms[v].attached) &&
    match s.server
    case Control => forall v :: v in s.table ==> Quiet(s, v)
    case Releasing => true
    case Waiting(_) => true
    case Scanning(_, left, r) => RoundOk(s, r, left) && forall v :: v in left ==> v in s.table
    case Stopping(left, r) => RoundOk(s, r, []) && forall v :: v in left ==> v in s.table
    case Judging(_, r) => RoundOk(s, r, [])
  }

  /** At the start nothing is traced, or only vms frozen before their first instruction. */
  predicate Start(s: State)
  {
    s.server == Control && forall v :: v in s.table ==> v in s.vms && s.vms[v].attached && s.vms[v].stop
  }

  /** Flag changes by vm threads never make a quiet vm run or a reportable one unreportable. */
  lemma VmStepInv(s: State, a: Action)
    requires Inv(s) && Enabled(s, a)
    requires a.Fork? || a.Hook? || a.Catch? || a.Exit? || a.PosixStop? || a.PosixContinue?
    ensures Inv(Apply(s, a))
  {
    var s' := Apply(s, a);
    assert forall v :: v in s.table && Quiet(s, v) ==> Quiet(s', v);
    assert forall v :: Reportable(s, v) ==> Reportable(s', v);
    if s.server.Scanning? || s.server.Stopping? {
      assert s'.table == s.table && s'.server == s.server;
    }
  }

  lemma ScanOneInv(s: State)
    requires Inv(s) && Enabled(s, ScanOne)
    ensures Inv(Apply(s, ScanOne))
  {
    var s' := Apply(s, ScanOne);
    var left := s.server.left;
    var v := left[0];
    assert forall w :: w in left <==> w == v || w in left[1..] by { assert left == [v] + left[1..]; }
    forall w | w in s'.table && w !in left[1..] && s'.server.round.settled
      ensures Quiet(s', w)
    {
      if w != v { assert Quiet(s, w); }
    }
  }

  lemma StopOneInv(s: State)
    requires Inv(s) && Enabled(s, StopOne)
    ensures Inv(Apply(s, StopOne))
  {
    var s' := Apply(s, StopOne);
    var left := s.server.left;
    assert forall w :: w in left[1..] ==> w in left;
    assert forall v :: v in s.table && Quiet(s, v) ==> Quiet(s', v);
    assert forall v :: Reportable(s, v) ==> Reportable(s', v);
  }

  /** Every step of every thread keeps the invariant. */
  lemma StepInv(s: State, a: Action)
    requires Inv(s) && Enabled(s, a)
    ensures Inv(Apply(s, a))
  {
    hide Look;
    match a
    case ScanOne => ScanOneInv(s);
    case StopOne => StopOneInv(s);
    case Attach(v) =>
    case Detach(v) =>
    case Reap(v) =>
    case Release =>
    case Resume(v, _) =>
    case BeginWait(_, _) =>
    case BeginScan(_) =>
    case EndScan =>
    case BeginStop(_) =>
    case CtrlC(_) =>
    case EndStop =>
    case Decide =>
    case _ => VmStepInv(s, a);
  }

  ghost predicate Run(tr: seq<State>, acts: seq<Action>)
  {
    |tr| == |acts| + 1 && Start(tr[0]) &&
    forall i :: 0 <= i < |acts| ==> Enabled(tr[i], acts[i]) && tr[i + 1] == Apply(tr[i], acts[i])
  }

  lemma {:induction false} RunInv(tr: seq<State>, acts: seq<Action>, i: nat)
    requires Run(tr, acts) && i < |tr|
    ensures Inv(tr[i])
  {
    hide Apply, Inv, Enabled;
    if i == 0 {
      assert Inv(tr[0]) by { StartInv(tr[0]); }
    } else {
      RunInv(tr, acts, i - 1);
      StepInv(tr[i - 1], acts[i - 1]);
    }
  }

  lemma StartInv(s: State)
    requires Start(s)
    ensures Inv(s)
  {
  }

  /**
   * All-stop: whenever the debugger has the floor, every traced vm, forked
   * ones included, is stopped, gone, armed for one step, POSIX-stopped, or was
   * taken out of a POSIX stop by SIGCONT since the scan.
   */
  lemma AllQuietInControl(tr: seq<State>, acts: seq<Action>, i: nat, v: Id)
    requires Run(tr, acts) && i < |tr| && tr[i].server == Control && v in tr[i].table
    ensures v in tr[i].vms && tr[i].vms[v].attached
    ensures var t := tr[i].vms[v]; t.stop || t.exited || t.stepping || t.posix || v in tr[i].continued
  {
    RunInv(tr, acts, i);
    assert Quiet(tr[i], v);
  }

  /** What a round that ends the wait reports: a traced, watched vm that is still stopped or gone. */
  lemma ReportIsWatchedAndSettled(tr: seq<State>, acts: seq<Action>, i: nat)
    requires Run(tr, acts) && i < |acts| && acts[i].Decide? && tr[i + 1].server == Control
    ensures var r, s := tr[i].server.round, tr[i + 1];
            r.hit.Some? && r.hit.value in s.watch && r.hit.value in s.table && r.hit.value in s.vms &&
            var t := s.vms[r.hit.value]; t.attached && (t.stop || t.exited)
  {
    RunInv(tr, acts, i);
  }

  /** A detached vm is in no table, so no scan can see it and no round can report it. */
  lemma DetachedNeverReported(tr: seq<State>, acts: seq<Action>, i: nat, v: Id)
    requires Run(tr, acts) && i < |acts| && acts[i].Decide? && tr[i + 1].server == Control
    requires v in tr[i].vms && !tr[i].vms[v].attached
    ensures tr[i].server.round.hit != Some(v)
  {
    ReportIsWatchedAndSettled(tr, acts, i);
    RunInv(tr, acts, i);
  }

  /**
   * Between a report and the next release no traced vm's stop is lifted:
   * whoever was stopped then is stopped still.
   */
  lemma {:induction false} StopsHold(tr: seq<State>, acts: seq<Action>, i: nat, j: nat, v: Id)
    requires Run(tr, acts) && i <= j < |tr| && forall k :: i <= k <= j ==> tr[k].server == Control
    requires v in tr[i].table && v in tr[i].vms && tr[i].vms[v].stop
    requires forall k :: i <= k < j ==> acts[k] != Detach(v)
    ensures v in tr[j].vms && tr[j].vms[v].stop && tr[j].vms[v].attached
  {
    hide Apply, Enabled, Inv;
    RunInv(tr, acts, i);
    assert Inv(tr[i]) ==> v in tr[i].vms && tr[i].vms[v].attached by { TracedAttached(tr[i], v); }
    if i < j {
      StopsHold(tr, acts, i, j - 1, v);
      assert Enabled(tr[j - 1], acts[j - 1]) && tr[j - 1 + 1] == Apply(tr[j - 1], acts[j - 1]);
      StopKept(tr[j - 1], acts[j - 1], v);
    }
  }

  lemma TracedAttached(s: State, v: Id)
    requires v in s.table
    ensures Inv(s) ==> v in s.vms && s.vms[v].attached
  {
  }

  lemma StopKept(s: State, a: Action, v: Id)
    requires Enabled(s, a) && s.server == Control && Apply(s, a).server == Control && a != Detach(v)
    requires v in s.vms && s.vms[v].stop && s.vms[v].attached
    ensures var t := Apply(s, a); v in t.vms && t.vms[v].stop && t.vms[v].attached
  {
    hide Look, LookAll;
  }
}
