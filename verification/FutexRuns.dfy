/**
 * What a thread that calls `futex_wait` can rely on, over whole runs: when it
 * waits and when it does not, what woke it, and what its answer means. Said of
 * the actions of the run, not of the protocol's own bookkeeping.
 */
module FutexRuns {
  import opened ByteVectors
  import opened Futex

  // ---------------------------------------------------------------------------
  // The history of a word
  // ---------------------------------------------------------------------------

  predicate Writes(a: Action, k: Key)
  {
    a == ClearTid(k) || (a.Write? && a.k == k)
  }

  /** The value a write leaves. */
  function Stored(a: Action): nat
    requires a.ClearTid? || a.Write?
  {
    if a.ClearTid? then 0 else a.v
  }

  /** How many of the first `i` actions write to `k`. */
  function WritesTo(acts: seq<Action>, k: Key, i: nat): nat
    requires i <= |acts|
  {
    if i == 0 then 0 else WritesTo(acts, k, i - 1) + if Writes(acts[i - 1], k) then 1 else 0
  }

  lemma {:induction false} WritesCounted(tr: seq<State>, acts: seq<Action>, k: Key, i: nat)
    requires Run(tr, acts) && i < |tr|
    ensures Count(tr[i].writes, k) == WritesTo(acts, k, i)
    decreases i
  {
    hide Enabled;
    if i > 0 {
      WritesCounted(tr, acts, k, i - 1);
      assert Enabled(tr[i - 1], acts[i - 1]) && tr[i - 1 + 1] == Apply(tr[i - 1], acts[i - 1]);
      HistoryStep(tr[i - 1], acts[i - 1], k);
    }
  }

  lemma HistoryStep(s: State, a: Action, k: Key)
    requires Enabled(s, a)
    ensures Count(Apply(s, a).writes, k) == Count(s.writes, k) + if Writes(a, k) then 1 else 0
    ensures k in Apply(s, a).mem <==> k in s.mem
    ensures k in s.mem ==> Apply(s, a).mem[k] == if Writes(a, k) then Stored(a) else s.mem[k]
  {
    hide Popped, Remaining, WithBucket, Bucket, Awoken, InSomePending;
    if a.ClearTid? {
      ClearHistory(s, a.k);
    }
  }

  lemma ClearHistory(s: State, k: Key)
    requires k in s.mem
    ensures var t := Apply(s, ClearTid(k));
            t.mem == s.mem[k := 0] && t.writes == s.writes[k := Count(s.writes, k) + 1]
  {
    hide Popped, Bucket, Taken, Wakeup;
    var p := Popped(Bucket(s.table, k), s.phase.Keys, 1);
    var s1 := Taken(Written(s, k, 0), k, p.0);
    TakenHistory(Written(s, k, 0), k, p.0);
    if p.1 != [] { WakeupHistory(s1, p.1[0]); }
  }

  lemma TakenHistory(s: State, k: Key, rest: seq<Tid>)
    ensures Taken(s, k, rest).mem == s.mem && Taken(s, k, rest).writes == s.writes
  {
    hide WithBucket;
  }

  lemma WakeupHistory(s: State, t: Tid)
    ensures Wakeup(s, t, true).mem == s.mem && Wakeup(s, t, true).writes == s.writes
  {
    hide Awoken;
  }

  /** A word holds what the last write to it stored. */
  lemma {:induction false} LastWriteHolds(tr: seq<State>, acts: seq<Action>, k: Key, q: nat, i: nat)
    requires Run(tr, acts) && q < i < |tr| && Writes(acts[q], k) && k in tr[q].mem
    requires forall m :: q < m < i ==> !Writes(acts[m], k)
    ensures k in tr[i].mem && tr[i].mem[k] == Stored(acts[q])
    decreases i
  {
    hide Enabled, Apply;
    assert Enabled(tr[i - 1], acts[i - 1]) && tr[i - 1 + 1] == Apply(tr[i - 1], acts[i - 1]);
    HistoryStep(tr[i - 1], acts[i - 1], k);
    if q < i - 1 {
      LastWriteHolds(tr, acts, k, q, i - 1);
    }
  }

  // ---------------------------------------------------------------------------
  // Entering
  // ---------------------------------------------------------------------------

  const EAGAIN: int := -11
  const EFAULT: int := -14
  const RESTART: int := -512

  /** What `futex_wait` answers when the action ends the call. */
  function Answer(s: State, a: Action): Option<int>
    requires Enabled(s, a)
  {
    match a
    case Wait(_, k, val) =>
      if k !in s.mem then Some(EFAULT) else if s.mem[k] != val then Some(EAGAIN) else None
    case Cleanup(t) => Some(if s.phase[t].rc == EINTR then RESTART else s.phase[t].rc)
    case _ => None
  }

  /**
   * A call on a word that holds the expected value registers the thread at the
   * end of the word's bucket and blocks it; on any other value, or an unmapped
   * word, it answers at once and changes nothing.
   */
  lemma WaitOutcome(tr: seq<State>, acts: seq<Action>, i: nat, t: Tid, k: Key, val: nat)
    requires Run(tr, acts) && i < |acts| && acts[i] == Wait(t, k, val)
    ensures k in tr[i].mem && tr[i].mem[k] == val ==>
      Answer(tr[i], acts[i]) == None && t in tr[i + 1].blocked && t in tr[i + 1].phase &&
      tr[i + 1].phase[t] == Waiting(k, false, WritesTo(acts, k, i)) &&
      Bucket(tr[i + 1].table, k) == Bucket(tr[i].table, k) + [t] &&
      (forall j :: j != k ==> Bucket(tr[i + 1].table, j) == Bucket(tr[i].table, j))
    ensures k in tr[i].mem && tr[i].mem[k] != val ==> Answer(tr[i], acts[i]) == Some(-11) && tr[i + 1] == tr[i]
    ensures k !in tr[i].mem ==> Answer(tr[i], acts[i]) == Some(-14) && tr[i + 1] == tr[i]
  {
    WritesCounted(tr, acts, k, i);
  }

  /** How a thread gets into a wait, and what stays the same while it is in it. */
  lemma PhaseMoves(s: State, a: Action, t: Tid)
    requires Enabled(s, a)
    ensures var p, p' := s.phase, Apply(s, a).phase;
            t in p' && !p'[t].Idle? ==>
              (t in p && !p[t].Idle? && p'[t].key == p[t].key && p'[t].seen == p[t].seen) ||
              (t in p && p[t].Idle? && a.Wait? && a.t == t && a.k in s.mem && s.mem[a.k] == a.val &&
               p'[t] == Waiting(a.k, false, Count(s.writes, a.k)))
  {
    hide Popped, Remaining, WithBucket;
  }

  /** From entry `e` on, thread `t` is in one and the same call on `k`. */
  ghost predicate InCall(tr: seq<State>, e: nat, j: nat, t: Tid, k: Key)
  {
    e <= j < |tr| && forall m :: e < m <= j ==> t in tr[m].phase && !tr[m].phase[t].Idle? && tr[m].phase[t].key == k
  }

  /**
   * A thread in a wait entered it by a call for the value the word held at
   * that moment, and its note of the writes counts those before that moment.
   */
  lemma {:induction false} Entered(tr: seq<State>, acts: seq<Action>, j: nat, t: Tid) returns (e: nat)
    requires Run(tr, acts) && j < |tr| && t in tr[j].phase && !tr[j].phase[t].Idle?
    ensures e < j && acts[e].Wait? && acts[e].t == t && acts[e].k == tr[j].phase[t].key
    ensures acts[e].k in tr[e].mem && tr[e].mem[acts[e].k] == acts[e].val
    ensures tr[j].phase[t].seen == WritesTo(acts, acts[e].k, e)
    ensures InCall(tr, e, j, t, acts[e].k)
    decreases j
  {
    hide Enabled, Apply;
    assert j != 0;
    assert Enabled(tr[j - 1], acts[j - 1]) && tr[j - 1 + 1] == Apply(tr[j - 1], acts[j - 1]);
    PhaseMoves(tr[j - 1], acts[j - 1], t);
    if t in tr[j - 1].phase && !tr[j - 1].phase[t].Idle? {
      e := Entered(tr, acts, j - 1, t);
    } else {
      e := j - 1;
      WritesCounted(tr, acts, acts[e].k, e);
    }
  }

  // ---------------------------------------------------------------------------
  // Being woken
  // ---------------------------------------------------------------------------

  /** The action wakes `t` for good: a waker reaches it, or the word's owner exits and picks it. */
  ghost predicate WakesUp(s: State, a: Action, t: Tid)
  {
    (a.WakeOne? && PendingOf(s, a.w) != [] && PendingOf(s, a.w)[0] == t) ||
    (a.ClearTid? && Popped(Bucket(s.table, a.k), s.phase.Keys, 1).1 == [t])
  }

  /** What takes a thread out of `blocked`. */
  lemma Unblocks(s: State, a: Action, t: Tid)
    requires Enabled(s, a) && t in s.blocked && t !in Apply(s, a).blocked
    ensures WakesUp(s, a, t) || a == Cleanup(t)
  {
    hide Popped, Remaining, WithBucket, Awoken, InSomePending;
    if a.ClearTid? {
      PoppedMembers(Bucket(s.table, a.k), s.phase.Keys, 1);
    }
  }

  /** A thread of a call that is not blocked has been woken since it entered. */
  lemma {:induction false} WokenSince(tr: seq<State>, acts: seq<Action>, e: nat, j: nat, t: Tid, k: Key) returns (d: nat)
    requires Run(tr, acts) && e < j < |tr| && InCall(tr, e, j, t, k) && t in tr[e + 1].blocked && t !in tr[j].blocked
    ensures e < d < j && WakesUp(tr[d], acts[d], t)
    decreases j
  {
    hide Enabled, Apply, WakesUp;
    assert Enabled(tr[j - 1], acts[j - 1]) && tr[j - 1 + 1] == Apply(tr[j - 1], acts[j - 1]);
    if t !in tr[j - 1].blocked {
      d := WokenSince(tr, acts, e, j - 1, t, k);
    } else {
      d := j - 1;
      Unblocks(tr[d], acts[d], t);
      if acts[d] == Cleanup(t) { CleanupLeaves(tr[d], t); }
    }
  }

  lemma CleanupLeaves(s: State, t: Tid)
    requires Enabled(s, Cleanup(t))
    ensures Apply(s, Cleanup(t)).phase[t].Idle?
  {
  }

  /** The check that decided the answer of a thread about to leave. */
  lemma {:induction false} Decided(tr: seq<State>, acts: seq<Action>, j: nat, t: Tid) returns (c: nat)
    requires Run(tr, acts) && j < |tr| && t in tr[j].phase && tr[j].phase[t].Leaving?
    ensures c < j && acts[c].Check? && acts[c].t == t && t in tr[c].phase && tr[c].phase[t].Waiting?
    ensures tr[c].phase[t].key == tr[j].phase[t].key
    ensures forall m :: c < m <= j ==> t in tr[m].phase && tr[m].phase[t] == tr[j].phase[t]
    ensures Verdict(tr[c], t, acts[c].expired, tr[j].phase[t].rc)
    decreases j
  {
    hide Enabled, Apply;
    assert j != 0;
    assert Enabled(tr[j - 1], acts[j - 1]) && tr[j - 1 + 1] == Apply(tr[j - 1], acts[j - 1]);
    Leaves(tr[j - 1], acts[j - 1], t);
    if t in tr[j - 1].phase && tr[j - 1].phase[t].Leaving? {
      c := Decided(tr, acts, j - 1, t);
    } else {
      c := j - 1;
    }
  }

  /** 0 for a thread that was woken, EINTR (4) for an interrupted one, ETIMEDOUT (110) for one whose time is up. */
  predicate Verdict(s: State, t: Tid, expired: bool, rc: int)
  {
    (rc == 0 <==> t !in s.blocked) &&
    (rc == -4 <==> t in s.blocked && t in s.interrupted) &&
    (rc == -110 <==> t in s.blocked && t !in s.interrupted && expired) &&
    (rc == 0 || rc == -4 || rc == -110)
  }

  lemma Leaves(s: State, a: Action, t: Tid)
    requires Enabled(s, a) && t in Apply(s, a).phase && Apply(s, a).phase[t].Leaving?
    ensures t in s.phase
    ensures (s.phase[t].Leaving? && s.phase[t] == Apply(s, a).phase[t]) ||
            (s.phase[t].Waiting? && a.Check? && a.t == t && Apply(s, a).phase[t].key == s.phase[t].key &&
             Verdict(s, t, a.expired, Apply(s, a).phase[t].rc))
  {
    hide Popped, Remaining, WithBucket, InSomePending;
  }

  /**
   * What an answer means. A call that comes back after having waited answers 0
   * only if a waker reached it after it had registered; a restart only if it
   * was flagged for interruption while still blocked; ETIMEDOUT only if its
   * time was up and neither had happened.
   */
  lemma AnswerMeans(tr: seq<State>, acts: seq<Action>, j: nat, t: Tid) returns (e: nat, c: nat, d: nat)
    requires Run(tr, acts) && j < |acts| && acts[j] == Cleanup(t)
    ensures e < c < j && acts[e].Wait? && acts[e].t == t && acts[c].Check? && acts[c].t == t && InCall(tr, e, j, t, acts[e].k)
    ensures acts[e].k in tr[e].mem && tr[e].mem[acts[e].k] == acts[e].val
    ensures var r := Answer(tr[j], acts[j]);
            (r == Some(0) ==> t !in tr[c].blocked && e < d < c && WakesUp(tr[d], acts[d], t)) &&
            (r == Some(-512) ==> t in tr[c].blocked && t in tr[c].interrupted) &&
            (r == Some(-110) ==> t in tr[c].blocked && t !in tr[c].interrupted && acts[c].expired) &&
            (r == Some(0) || r == Some(-512) || r == Some(-110))
  {
    hide Apply, WakesUp, WritesTo;
    e := Entered(tr, acts, j, t);
    c := Decided(tr, acts, j, t);
    WaitOutcome(tr, acts, e, t, acts[e].k, acts[e].val);
    assert tr[e + 1].phase[t].Waiting?;
    assert c > e;
    d := 0;
    if tr[j].phase[t].rc == 0 {
      d := WokenSince(tr, acts, e, c, t, acts[e].k);
    }
  }

  // ---------------------------------------------------------------------------
  // No lost wakeup, by actions
  // ---------------------------------------------------------------------------

  /**
   * Thread `t` began to wait on `k` at step `e`. The word was written at a
   * later step `q`, and a still later wake `i` was for at least as many
   * threads as were waiting. Once that waker has gone through its list, `t`, if
   * it is still in that call and blocked, is in the hands of another waker.
   */
  lemma WaiterIsWoken(tr: seq<State>, acts: seq<Action>, e: nat, q: nat, i: nat, j: nat, w: nat, k: Key, count: int, t: Tid)
    requires Run(tr, acts) && e < q < i < j < |tr| && acts[e].Wait? && acts[e].t == t && acts[e].k == k
    requires Writes(acts[q], k) && acts[i] == WakeTake(w, k, count) && count > 0 && count >= |Bucket(tr[i].table, k)|
    requires InCall(tr, e, j, t, k) && PendingOf(tr[j], w) == [] && t in tr[j].blocked
    ensures exists w' :: w' != w && w' in tr[j].pending && t in tr[j].pending[w']
  {
    hide Apply, Enabled, WritesTo;
    var e' := Entered(tr, acts, j, t);
    SameEntry(tr, acts, e, e', j, t, k);
    WriteCounts(acts, k, q);
    WritesMonotone(acts, k, q + 1, i);
    WritesMonotone(acts, k, e, q);
    WritesCounted(tr, acts, k, i);
    NoLostWakeup(tr, acts, i, j, w, k, count, t);
  }

  lemma WriteCounts(acts: seq<Action>, k: Key, q: nat)
    requires q < |acts| && Writes(acts[q], k)
    ensures WritesTo(acts, k, q + 1) == WritesTo(acts, k, q) + 1
  {
  }

  lemma SameEntry(tr: seq<State>, acts: seq<Action>, e: nat, e': nat, j: nat, t: Tid, k: Key)
    requires Run(tr, acts) && InCall(tr, e, j, t, k) && InCall(tr, e', j, t, k) && e < j && e' < j
    requires acts[e].Wait? && acts[e].t == t && acts[e'].Wait? && acts[e'].t == t
    ensures e == e'
  {
    assert Enabled(tr[e], acts[e]) && Enabled(tr[e'], acts[e']);
  }

  lemma {:induction false} WritesMonotone(acts: seq<Action>, k: Key, i: nat, j: nat)
    requires i <= j <= |acts|
    ensures WritesTo(acts, k, i) <= WritesTo(acts, k, j)
    decreases j
  {
    if i < j {
      WritesMonotone(acts, k, i, j - 1);
    }
  }

  // ---------------------------------------------------------------------------
  // Mark by mark
  // ---------------------------------------------------------------------------

  /** The action registers `t`: its word holds the value it expects. */
  predicate Registers(s: State, a: Action, t: Tid)
  {
    a.Wait? && a.t == t && a.k in s.mem && s.mem[a.k] == a.val
  }

  /** A thread is blocked from its registration until it is woken for good or leaves. */
  lemma BlockedChanges(s: State, a: Action, t: Tid)
    requires Enabled(s, a)
    ensures t in Apply(s, a).blocked <==>
            Registers(s, a, t) || (t in s.blocked && !WakesUp(s, a, t) && a != Cleanup(t))
  {
    hide Popped, Remaining, WithBucket, Awoken, InSomePending;
    if a.ClearTid? {
      PoppedMembers(Bucket(s.table, a.k), s.phase.Keys, 1);
    }
  }

  /** It is flagged from the interruption until it resumes. */
  lemma InterruptedChanges(s: State, a: Action, t: Tid)
    requires Enabled(s, a)
    ensures t in Apply(s, a).interrupted <==>
            a == Interrupt(t) || (t in s.interrupted && a != Futex.Action.Resume(t) && a != Create(t))
  {
    hide Popped, Remaining, WithBucket, Awoken, InSomePending;
  }

  /** A broadcast is owed from the interruption until the next wakeup of any kind. */
  lemma OwedChanges(s: State, a: Action, t: Tid)
    requires Enabled(s, a)
    ensures t in Apply(s, a).owed <==>
            a == Interrupt(t) || (t in s.owed && !WakesUp(s, a, t) && a != Broadcast(t) && a != Create(t))
  {
    hide Popped, Remaining, WithBucket, Awoken, InSomePending;
    if a.ClearTid? {
      PoppedMembers(Bucket(s.table, a.k), s.phase.Keys, 1);
    }
  }

  /** It falls asleep by a check that finds nothing, and is up again by any wakeup. */
  lemma AsleepChanges(s: State, a: Action, t: Tid)
    requires Enabled(s, a)
    ensures Asleep(Apply(s, a), t) <==>
            (a == Check(t, false) && t in s.blocked && t !in s.interrupted) ||
            (Asleep(s, t) && !WakesUp(s, a, t) && a != Broadcast(t) && a != Spurious(t))
  {
    hide Popped, Remaining, WithBucket, InSomePending;
    if a.ClearTid? {
      PoppedMembers(Bucket(s.table, a.k), s.phase.Keys, 1);
    }
  }

  /** Threads come and go by creation and destruction only. */
  lemma ThreadsChange(s: State, a: Action, t: Tid)
    requires Enabled(s, a)
    ensures t in Apply(s, a).phase <==> a == Create(t) || (t in s.phase && a != Destroy(t))
    ensures a == Create(t) || a == Cleanup(t) ==> Apply(s, a).phase[t] == Idle
  {
    hide Popped, Remaining, WithBucket, InSomePending;
  }

  /** A waker's list is filled by its wake and shortened from the front by its deliveries. */
  lemma PendingChanges(s: State, a: Action, w: nat)
    requires Enabled(s, a)
    ensures PendingOf(Apply(s, a), w) ==
            if a.WakeTake? && a.w == w && a.count > 0 then Popped(Bucket(s.table, a.k), s.phase.Keys, a.count).1
            else if a == WakeOne(w) then PendingOf(s, w)[1..]
            else PendingOf(s, w)
  {
    hide Popped, Remaining, WithBucket, Awoken, InSomePending;
  }

  /** A bucket grows at its end by a registration; a wake, an exit or a leaving thread takes from it. */
  lemma BucketChanges(s: State, a: Action, k: Key)
    requires Enabled(s, a)
    ensures Bucket(Apply(s, a).table, k) ==
            var ws := Bucket(s.table, k);
            if a.Wait? && a.k == k && Registers(s, a, a.t) then ws + [a.t]
            else if a.WakeTake? && a.k == k && a.count > 0 then Popped(ws, s.phase.Keys, a.count).0
            else if a == ClearTid(k) then Popped(ws, s.phase.Keys, 1).0
            else if a.Cleanup? && s.phase[a.t].key == k then Remaining(ws, s.phase.Keys, a.t)
            else ws
  {
    hide Popped, Remaining, WithBucket, Awoken, InSomePending;
    var ws := Bucket(s.table, k);
    if a.WakeTake? && a.count > 0 {
      BucketOf(s.table, a.k, Popped(Bucket(s.table, a.k), s.phase.Keys, a.count).0);
      PoppedNone(s, a.k, a.count);
    } else if a.ClearTid? {
      BucketOf(s.table, a.k, Popped(Bucket(s.table, a.k), s.phase.Keys, 1).0);
      PoppedNone(s, a.k, 1);
    } else if a.Cleanup? {
      BucketOf(s.table, s.phase[a.t].key, Remaining(Bucket(s.table, s.phase[a.t].key), s.phase.Keys, a.t));
      RemainingNone(s.phase.Keys, a.t);
    }
  }

  lemma PoppedNone(s: State, k: Key, n: nat)
    ensures k !in s.table ==> Popped(Bucket(s.table, k), s.phase.Keys, n).0 == []
  {
  }

  lemma RemainingNone(alive: set<Tid>, t: Tid)
    ensures Remaining([], alive, t) == []
  {
  }
}
