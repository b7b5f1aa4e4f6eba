/**
 * What the debugger's requests do, over whole runs of the all-stop protocol:
 * which vm a round reports, who is watched, and what continuing and stepping
 * mean for the vm they are for.
 */
module AllStopRuns {
  import opened ByteVectors
  import opened AllStop

  // ---------------------------------------------------------------------------
  // The report of a round
  // ---------------------------------------------------------------------------

  /** Entry `k` is the first watched one with the property. */
  ghost predicate First(es: seq<Seen>, watch: set<Id>, k: int, p: Task -> bool)
  {
    0 <= k < |es| && es[k].id in watch && p(es[k].task) &&
    forall j :: 0 <= j < k && es[j].id in watch ==> !p(es[j].task)
  }

  ghost function Stopped(): Task -> bool
  {
    (t: Task) => t.stop
  }

  ghost function Gone(): Task -> bool
  {
    (t: Task) => t.exited
  }

  lemma FirstStays(es: seq<Seen>, e: Seen, watch: set<Id>, k: int, p: Task -> bool)
    requires First(es, watch, k, p)
    ensures First(es + [e], watch, k, p)
  {
    assert forall j :: 0 <= j < |es| ==> (es + [e])[j] == es[j];
  }

  lemma FirstAtEnd(es: seq<Seen>, e: Seen, watch: set<Id>, p: Task -> bool)
    requires e.id in watch && p(e.task) && forall j :: 0 <= j < |es| && es[j].id in watch ==> !p(es[j].task)
    ensures First(es + [e], watch, |es|, p)
  {
    var fs := es + [e];
    assert fs[|es|] == e && forall j :: 0 <= j < |es| ==> fs[j] == es[j];
  }

  /** Among equals the first in the order of the table is reported. */
  lemma {:induction false} FirstIsReported(es: seq<Seen>, watch: set<Id>, preferred: Option<Id>) returns (k: int)
    ensures var r := LookAll(es, watch, preferred);
            (r.phase == Breakpoint ==> First(es, watch, k, Stopped()) && r.hit == Some(es[k].id)) &&
            (r.phase == Exited ==> First(es, watch, k, Gone()) && r.hit == Some(es[k].id))
  {
    k := 0;
    if es != [] {
      var front, e := es[..|es| - 1], es[|es| - 1];
      assert es == front + [e];
      k := FirstIsReported(front, watch, preferred);
      RoundMeaning(front, watch, preferred);
      var r0, r := LookAll(front, watch, preferred), LookAll(es, watch, preferred);
      if r.phase == Breakpoint {
        if r0.phase == Breakpoint {
          FirstStays(front, e, watch, k, Stopped());
        } else {
          FirstAtEnd(front, e, watch, Stopped());
          k := |front|;
        }
      } else if r.phase == Exited {
        if r0.phase == Exited {
          FirstStays(front, e, watch, k, Gone());
        } else {
          FirstAtEnd(front, e, watch, Gone());
          k := |front|;
        }
      }
    }
  }

  // ---------------------------------------------------------------------------
  // Who is watched
  // ---------------------------------------------------------------------------

  /** A wait for named vms watches exactly those; without names, all vms of the table that are attached. */
  lemma WatchedAre(tr: seq<State>, acts: seq<Action>, i: nat, watched: set<Id>, prefer: Option<Id>, v: Id)
    requires Run(tr, acts) && i < |acts| && acts[i] == BeginWait(watched, prefer)
    ensures watched != {} ==> tr[i + 1].watch == watched
    ensures watched == {} ==> (v in tr[i + 1].watch <==> v in tr[i].table && v in tr[i].vms && tr[i].vms[v].attached)
    ensures tr[i + 1].preferred == prefer && tr[i + 1].vms == tr[i].vms && tr[i + 1].table == tr[i].table
  {
  }

  // ---------------------------------------------------------------------------
  // Continuing and stepping
  // ---------------------------------------------------------------------------

  /** Actions that change the stop or the step request of `v` on the debugger's or the hook's behalf. */
  predicate Concerns(a: Action, v: Id)
  {
    a == Attach(v) || a == Detach(v) || (a.Hook? && a.v == v) || (a.Resume? && a.v == v)
  }

  /** Continuing lifts the stop and asks for no step; stepping lifts it and asks for one. Nobody else is touched. */
  lemma Resumed(tr: seq<State>, acts: seq<Action>, i: nat, v: Id, single: bool, u: Id)
    requires Run(tr, acts) && i < |acts| && acts[i] == Resume(v, single)
    ensures v in tr[i].vms && v in tr[i + 1].vms
    ensures tr[i + 1].vms[v] == Task(tr[i].vms[v].attached, false, tr[i].vms[v].posix, tr[i].vms[v].exited, single)
    ensures u != v ==> (u in tr[i + 1].vms <==> u in tr[i].vms) && (u in tr[i].vms ==> tr[i + 1].vms[u] == tr[i].vms[u])
  {
  }

  lemma StepRequestStep(s: State, a: Action, v: Id)
    requires Enabled(s, a) && v in s.vms && !Concerns(a, v)
    ensures v in Apply(s, a).vms && Apply(s, a).vms[v].stepping == s.vms[v].stepping
  {
  }

  /** A step request stays until a hook of that vm, a new request, or attaching and detaching. */
  lemma {:induction false} StepRequestHolds(tr: seq<State>, acts: seq<Action>, i: nat, j: nat, v: Id)
    requires Run(tr, acts) && i <= j < |tr| && v in tr[i].vms && forall k :: i <= k < j ==> !Concerns(acts[k], v)
    ensures v in tr[j].vms && tr[j].vms[v].stepping == tr[i].vms[v].stepping
    decreases j
  {
    hide Enabled, Apply;
    if i < j {
      StepRequestHolds(tr, acts, i, j - 1, v);
      assert Enabled(tr[j - 1], acts[j - 1]) && tr[j - 1 + 1] == Apply(tr[j - 1], acts[j - 1]);
      StepRequestStep(tr[j - 1], acts[j - 1], v);
    }
  }

  /**
   * A vm released for one step stops at its next instruction; a vm told to
   * continue goes past it unless there is a breakpoint.
   */
  lemma NextInstruction(tr: seq<State>, acts: seq<Action>, i: nat, j: nat, v: Id, single: bool, breakpoint: bool)
    requires Run(tr, acts) && i < j < |acts| && acts[i] == Resume(v, single) && acts[j] == Hook(v, breakpoint)
    requires forall k :: i < k < j ==> !Concerns(acts[k], v)
    ensures v in tr[j + 1].vms && tr[j + 1].vms[v].stop == (single || breakpoint) && !tr[j + 1].vms[v].stepping
  {
    Resumed(tr, acts, i, v, single, v);
    StepRequestHolds(tr, acts, i + 1, j, v);
    assert Enabled(tr[j], acts[j]) && tr[j + 1] == Apply(tr[j], acts[j]);
  }

  /** A vm forked by a traced one is traced too and stopped before its first instruction; otherwise it is left alone. */
  lemma ForkedStops(tr: seq<State>, acts: seq<Action>, i: nat, p: Id, c: Id, event: bool)
    requires Run(tr, acts) && i < |acts| && acts[i] == Fork(p, c, event)
    ensures c in tr[i + 1].vms && p in tr[i].vms
    ensures tr[i].vms[p].attached ==> tr[i + 1].vms[c].attached && tr[i + 1].vms[c].stop && c in tr[i + 1].table
    ensures tr[i].vms[p].attached && event && p in tr[i].table ==> tr[i + 1].vms[p].stop
    ensures !tr[i].vms[p].attached ==> !tr[i + 1].vms[c].attached && !tr[i + 1].vms[c].stop && tr[i + 1].table == tr[i].table
  {
  }

  // ---------------------------------------------------------------------------
  // Flag by flag
  // ---------------------------------------------------------------------------

  /** The vm the debugger's stop loop is looking at. */
  predicate StopLooksAt(s: State, a: Action, v: Id)
  {
    a == StopOne && s.server.Stopping? && s.server.left != [] && s.server.left[0] == v
  }

  /** A flag of a vm changes by these actions, in this way, and by no others. */
  lemma FlagsChange(s: State, a: Action, v: Id)
    requires Enabled(s, a) && v in s.vms
    ensures v in Apply(s, a).vms
    ensures var t, t' := s.vms[v], Apply(s, a).vms[v];
            (t'.exited <==> t.exited || a == Exit(v)) &&
            (t'.posix <==> a == PosixStop(v) || (t.posix && a != PosixContinue(v))) &&
            (t'.attached <==> a == Attach(v) || (t.attached && (a != Detach(v) || t.exited))) &&
            (t'.stepping <==> a == Resume(v, true) || (t.stepping && !(a.Resume? && a.v == v) && !(a.Hook? && a.v == v) && a != Attach(v))) &&
            (t'.stop <==>
               a == Attach(v) || a == Catch(v) || (a.Hook? && a.v == v && (t.stepping || a.breakpoint)) ||
               (a.Fork? && a.parent == v && a.event && t.attached && v in s.table) ||
               (StopLooksAt(s, a, v) && t.attached && !t.posix && !t.exited) ||
               (t.stop && !(a.Resume? && a.v == v) && (a != Detach(v) || t.exited)))
  {
  }

  /** The table grows by attaching and by forks of traced vms, and shrinks by detaching and reaping. */
  lemma TableChanges(s: State, a: Action, v: Id)
    requires Enabled(s, a)
    ensures v in Apply(s, a).table <==>
            a == Attach(v) || (a.Fork? && a.child == v && s.vms[a.parent].attached) ||
            (v in s.table && a != Detach(v) && a != Reap(v))
  {
  }

  /** A vm comes into being by a fork only: traced and stopped, or neither. */
  lemma OnlyForksCreate(s: State, a: Action, v: Id)
    requires Enabled(s, a) && v !in s.vms
    ensures v in Apply(s, a).vms <==> a.Fork? && a.child == v
    ensures v in Apply(s, a).vms ==>
            var traced := s.vms[a.parent].attached; Apply(s, a).vms[v] == Task(traced, traced, false, false, false)
  {
  }
}
