/**
 * Futex wait and wake (`src/posix/futex.cpp`, `vm::wait_for`, `vm::wakeup`):
 * the waiter table as an object, and the protocol as interleaved atomic steps.
 * A step is what one thread does under one lock.
 */
module Futex {
  type Tid = nat
  datatype Key = Key(tg: nat, addr: nat)

  // ---------------------------------------------------------------------------
  // Waiter lists
  // ---------------------------------------------------------------------------

  /** Without `t` and without waiters that no longer exist. */
  function Remaining(ws: seq<Tid>, alive: set<Tid>, t: Tid): seq<Tid>
  {
    if ws == [] then []
    else (if ws[0] in alive && ws[0] != t then [ws[0]] else []) + Remaining(ws[1..], alive, t)
  }

  /** Pops from the tail until `n` live waiters were found: what stays, and who was taken. */
  function Popped(ws: seq<Tid>, alive: set<Tid>, n: nat): (r: (seq<Tid>, seq<Tid>))
    decreases |ws|
  {
    if n == 0 || ws == [] then (ws, [])
    else
      var last := ws[|ws| - 1];
      var p := Popped(ws[..|ws| - 1], alive, if last in alive then n - 1 else n);
      (p.0, (if last in alive then [last] else []) + p.1)
  }

  predicate NoDups(ws: seq<Tid>)
  {
    forall i, j :: 0 <= i < j < |ws| ==> ws[i] != ws[j]
  }

  function Bucket(table: map<Key, seq<Tid>>, k: Key): seq<Tid>
  {
    if k in table then table[k] else []
  }

  /** Storing a waiter list; an empty one is erased. */
  function WithBucket(table: map<Key, seq<Tid>>, k: Key, ws: seq<Tid>): map<Key, seq<Tid>>
  {
    if ws == [] then table - {k} else table[k := ws]
  }

  lemma {:induction false} RemainingMembers(ws: seq<Tid>, alive: set<Tid>, t: Tid)
    ensures forall x :: x in Remaining(ws, alive, t) <==> x in ws && x in alive && x != t
    ensures NoDups(ws) ==> NoDups(Remaining(ws, alive, t))
  {
    if ws != [] {
      RemainingMembers(ws[1..], alive, t);
      assert forall x :: x in ws <==> x == ws[0] || x in ws[1..];
      var r, head := Remaining(ws[1..], alive, t), if ws[0] in alive && ws[0] != t then [ws[0]] else [];
      assert Remaining(ws, alive, t) == head + r;
      if NoDups(ws) {
        forall i, j | 0 <= i < j < |head + r|
          ensures (head + r)[i] != (head + r)[j]
        {
          if i < |head| {
            assert (head + r)[j] in ws[1..];
            var q :| 0 <= q < |ws[1..]| && ws[1..][q] == (head + r)[j];
            assert ws[q + 1] == (head + r)[j];
          }
        }
      }
    }
  }

  /** Exactly `min(n, live)` live waiters are taken, off the tail, and the rest keep their order. */
  lemma {:induction false} PoppedAllLive(ws: seq<Tid>, alive: set<Tid>, n: nat)
    requires forall x :: x in ws ==> x in alive
    ensures var m := if n < |ws| then n else |ws|;
            var p := Popped(ws, alive, n);
            p.0 == ws[..|ws| - m] && |p.1| == m && forall i :: 0 <= i < m ==> p.1[i] == ws[|ws| - 1 - i]
    decreases |ws|
  {
    if n != 0 && ws != [] {
      var front, last := ws[..|ws| - 1], ws[|ws| - 1];
      assert last in ws;
      assert forall x :: x in front ==> x in ws;
      PoppedAllLive(front, alive, n - 1);
      var m := if n < |ws| then n else |ws|;
      assert front[..|front| - (m - 1)] == ws[..|ws| - m];
    }
  }

  /** The taken waiters are live, and a list popped dry lost only dead ones besides. */
  lemma {:induction false} PoppedMembers(ws: seq<Tid>, alive: set<Tid>, n: nat)
    ensures var p := Popped(ws, alive, n);
            |p.1| <= n && p.0 <= ws && (|p.1| < n ==> p.0 == []) &&
            (forall x :: x in p.1 ==> x in alive && x in ws) &&
            (forall x :: x in ws && x in alive ==> x in p.0 || x in p.1)
    decreases |ws|
  {
    if n != 0 && ws != [] {
      var front, last := ws[..|ws| - 1], ws[|ws| - 1];
      assert forall x :: x in ws <==> x in front || x == last by { assert ws == front + [last]; }
      PoppedMembers(front, alive, if last in alive then n - 1 else n);
    }
  }

  /** The table behind `g_futex_mutex`. `alive` stands for which weak pointers still lock. */
  class FutexTable {
    var table: map<Key, seq<Tid>>

    ghost predicate Valid()
      reads this
    {
      forall k :: k in table ==> table[k] != []
    }

    constructor ()
      ensures Valid() && table == map[]
    {
      table := map[];
    }

    /** The registration inside futex_wait. */
    method Register(k: Key, t: Tid)
      requires Valid()
      modifies this
      ensures Valid() && table == old(table)[k := Bucket(old(table), k) + [t]]
    {
      var ws := if k in table then table[k] else [];
      table := table[k := ws + [t]];
    }

    /** `futex_detach`: drops `t` and every expired entry, and the bucket when empty. */
    method Detach(k: Key, t: Tid, alive: set<Tid>)
      requires Valid()
      modifies this
      ensures Valid()
      ensures table == if k in old(table) then WithBucket(old(table), k, Remaining(old(table)[k], alive, t)) else old(table)
    {
      if k !in table { return; }
      var ws := table[k];
      var keep: seq<Tid> := [];
      for i := 0 to |ws|
        invariant keep + Remaining(ws[i..], alive, t) == Remaining(ws, alive, t)
        invariant table == old(table)
      {
        assert ws[i..][0] == ws[i] && ws[i..][1..] == ws[i + 1..];
        if ws[i] in alive && ws[i] != t {
          assert keep + ([ws[i]] + Remaining(ws[i + 1..], alive, t)) == keep + [ws[i]] + Remaining(ws[i + 1..], alive, t);
          keep := keep + [ws[i]];
        }
      }
      assert Remaining(ws[|ws|..], alive, t) == [] && keep + [] == keep;
      if keep == [] { table := table - {k}; } else { table := table[k := keep]; }
    }

    /** The locked part of `futex_wake`: pops up to `val` live waiters. */
    method Take(k: Key, val: int, alive: set<Tid>) returns (taken: seq<Tid>)
      requires Valid()
      modifies this
      ensures Valid()
      ensures val <= 0 || k !in old(table) ==> taken == [] && table == old(table)
      ensures val > 0 && k in old(table) ==>
        var p := Popped(old(table)[k], alive, val); taken == p.1 && table == WithBucket(old(table), k, p.0)
    {
      taken := [];
      if val <= 0 || k !in table { return; }
      var ws := table[k];
      while |taken| < val && ws != []
        invariant |taken| <= val && table == old(table)
        invariant var p, q := Popped(old(table)[k], alive, val), Popped(ws, alive, val - |taken|);
                  p.0 == q.0 && p.1 == taken + q.1
        decreases |ws|
      {
        var last := ws[|ws| - 1];
        ghost var q := Popped(ws[..|ws| - 1], alive, if last in alive then val - |taken| - 1 else val - |taken|);
        assert taken + ([last] + q.1) == taken + [last] + q.1;
        ws := ws[..|ws| - 1];
        if last in alive {
          taken := taken + [last];
        }
      }
      if ws == [] { table := table - {k}; } else { table := table[k := ws]; }
    }
  }

  // ---------------------------------------------------------------------------
  // The protocol
  // ---------------------------------------------------------------------------

  /**
   * Where a thread is in futex_wait. `seen` counts the writes its word had had
   * when it registered.
   */
  datatype Phase =
    | Idle
    | Waiting(key: Key, asleep: bool, seen: nat)
    | Leaving(key: Key, rc: int, seen: nat)

  /**
   * `pending` holds, per waker, the threads it took and has yet to wake. `owed`
   * are threads flagged for interruption whose broadcast is still to come.
   * `writes` and `flushed` are history: writes to each word, and how many of
   * them preceded the last wake that emptied the word's bucket.
   */
  datatype State = State(
    mem: map<Key, nat>,
    table: map<Key, seq<Tid>>,
    phase: map<Tid, Phase>,
    blocked: set<Tid>,
    interrupted: set<Tid>,
    owed: set<Tid>,
    pending: map<nat, seq<Tid>>,
    writes: map<Key, nat>,
    flushed: map<Key, nat>)

  const EINTR: int := -4
  const ETIMEDOUT: int := -110

  datatype Action =
    | Wait(t: Tid, k: Key, val: nat)
    | Check(t: Tid, expired: bool)
    | Spurious(t: Tid)
    | Cleanup(t: Tid)
    | WakeTake(w: nat, k: Key, count: int)
    | WakeOne(w: nat)
    | ClearTid(k: Key)
    | Write(k: Key, v: nat)
    | Interrupt(t: Tid)
    | Broadcast(t: Tid)
    | Resume(t: Tid)
    | Create(t: Tid)
    | Destroy(t: Tid)

  function PendingOf(s: State, w: nat): seq<Tid>
  {
    if w in s.pending then s.pending[w] else []
  }

  function Count(m: map<Key, nat>, k: Key): nat
  {
    if k in m then m[k] else 0
  }

  ghost predicate InSomePending(s: State, t: Tid)
  {
    exists w :: w in s.pending && t in s.pending[w]
  }

  /** Asleep in pthread_cond_wait. */
  predicate Asleep(s: State, t: Tid)
  {
    t in s.phase && s.phase[t].Waiting? && s.phase[t].asleep
  }

  function Awoken(phase: map<Tid, Phase>, t: Tid): map<Tid, Phase>
  {
    if t in phase && phase[t].Waiting? then phase[t := phase[t].(asleep := false)] else phase
  }

  /** `vm::wakeup`: under the thread's wait_mutex. */
  function Wakeup(s: State, t: Tid, clear: bool): State
  {
    s.(blocked := if clear then s.blocked - {t} else s.blocked,
       phase := Awoken(s.phase, t),
       owed := s.owed - {t})
  }

  ghost predicate Enabled(s: State, a: Action)
  {
    match a
    case Wait(t, _, _) => t in s.phase && s.phase[t].Idle?
    case Check(t, _) => t in s.phase && s.phase[t].Waiting? && !s.phase[t].asleep
    case Spurious(t) => Asleep(s, t)
    case Cleanup(t) => t in s.phase && s.phase[t].Leaving?
    case WakeTake(w, _, _) => PendingOf(s, w) == []
    case WakeOne(w) => PendingOf(s, w) != []
    case ClearTid(k) => k in s.mem
    case Write(k, _) => k in s.mem
    case Interrupt(t) => t in s.phase
    case Broadcast(t) => t in s.phase
    case Resume(t) => t in s.phase && s.phase[t].Idle?
    case Create(t) => t !in s.phase && t !in s.blocked && !InSomePending(s, t)
    case Destroy(t) => t in s.phase && s.phase[t].Idle? && !InSomePending(s, t)
  }

  function Written(s: State, k: Key, v: nat): State
  {
    s.(mem := s.mem[k := v], writes := s.writes[k := Count(s.writes, k) + 1])
  }

  /** The locked part of a wake: the bucket after it, and the history note when it was emptied. */
  function Taken(s: State, k: Key, rest: seq<Tid>): State
  {
    s.(table := if k in s.table then WithBucket(s.table, k, rest) else s.table,
       flushed := if rest == [] then s.flushed[k := Count(s.writes, k)] else s.flushed)
  }

  function Apply(s: State, a: Action): State
    requires Enabled(s, a)
  {
    match a
    case Wait(t, k, val) =>
      if k !in s.mem || s.mem[k] != val then s
      else s.(table := s.table[k := Bucket(s.table, k) + [t]],
              blocked := s.blocked + {t},
              phase := s.phase[t := Waiting(k, false, Count(s.writes, k))])
    case Check(t, expired) =>
      var p := s.phase[t];
      s.(phase := s.phase[t :=
        if t !in s.blocked then Leaving(p.key, 0, p.seen)
        else if t in s.interrupted then Leaving(p.key, EINTR, p.seen)
        else if expired then Leaving(p.key, ETIMEDOUT, p.seen)
        else p.(asleep := true)])
    case Spurious(t) => s.(phase := Awoken(s.phase, t))
    case Cleanup(t) =>
      var k := s.phase[t].key;
      s.(table := if k in s.table then WithBucket(s.table, k, Remaining(s.table[k], s.phase.Keys, t)) else s.table,
         blocked := s.blocked - {t},
         phase := s.phase[t := Idle])
    case WakeTake(w, k, count) =>
      if count <= 0 then s
      else
        var p := Popped(Bucket(s.table, k), s.phase.Keys, count);
        Taken(s, k, p.0).(pending := s.pending[w := p.1])
    case WakeOne(w) =>
      Wakeup(s, s.pending[w][0], true).(pending := s.pending[w := s.pending[w][1..]])
    case ClearTid(k) =>
      var s' := Written(s, k, 0);
      var p := Popped(Bucket(s.table, k), s.phase.Keys, 1);
      var s'' := Taken(s', k, p.0);
      if p.1 == [] then s'' else Wakeup(s'', p.1[0], true)
    case Write(k, v) => Written(s, k, v)
    case Interrupt(t) => s.(interrupted := s.interrupted + {t}, owed := s.owed + {t})
    case Broadcast(t) => Wakeup(s, t, false)
    case Resume(t) => s.(interrupted := s.interrupted - {t})
    case Create(t) => s.(phase := s.phase[t := Idle], interrupted := s.interrupted - {t}, owed := s.owed - {t})
    case Destroy(t) => s.(phase := s.phase - {t})
  }

  predicate Start(s: State)
  {
    s.table == map[] && s.phase == map[] && s.blocked == {} && s.interrupted == {} && s.owed == {} &&
    s.pending == map[] && s.writes == map[] && s.flushed == map[]
  }

  // ---------------------------------------------------------------------------
  // Invariant
  // ---------------------------------------------------------------------------

  /** A waiter in a bucket is a live thread waiting on that bucket's word, registered once. */
  ghost predicate TableOk(s: State)
  {
    forall k :: k in s.table ==>
      s.table[k] != [] && NoDups(s.table[k]) &&
      forall t :: t in s.table[k] ==> Registered(s, t, k)
  }

  ghost predicate Registered(s: State, t: Tid, k: Key)
  {
    t in s.phase && !s.phase[t].Idle? && s.phase[t].key == k && Count(s.flushed, k) <= s.phase[t].seen
  }

  /** A blocked thread is in its own bucket or in some waker's list. */
  ghost predicate Wakeable(s: State, t: Tid)
  {
    t in s.phase && !s.phase[t].Idle? && (t in Bucket(s.table, s.phase[t].key) || InSomePending(s, t))
  }

  ghost predicate Inv(s: State)
  {
    TableOk(s) &&
    (forall t :: t in s.blocked ==> Wakeable(s, t)) &&
    (forall t :: Asleep(s, t) ==> t in s.blocked && (t in s.interrupted ==> t in s.owed)) &&
    (forall t, w :: w in s.pending && t in s.pending[w] ==> t in s.phase) &&
    (forall k :: Count(s.flushed, k) <= Count(s.writes, k))
  }

  lemma StartInv(s: State)
    requires Start(s)
    ensures Inv(s)
  {
  }

  lemma WaitInv(s: State, t: Tid, k: Key, val: nat)
    requires Inv(s) && Enabled(s, Wait(t, k, val))
    ensures Inv(Apply(s, Wait(t, k, val)))
  {
    var s' := Apply(s, Wait(t, k, val));
    if s' != s {
      var ws := s'.table[k];
      assert ws[|ws| - 1] == t;
      assert t !in Bucket(s.table, k);
      forall j | j in s'.table
        ensures s'.table[j] != [] && NoDups(s'.table[j]) && forall x :: x in s'.table[j] ==> Registered(s', x, j)
      {
        assert forall x :: x in Bucket(s.table, j) ==> Registered(s, x, j);
      }
      forall x | x in s'.blocked
        ensures Wakeable(s', x)
      {
        if x != t { StillWakeable(s, s', x); }
      }
    }
  }

  /** Nothing that made `t` wakeable went away. */
  lemma StillWakeable(s: State, s': State, t: Tid)
    requires Wakeable(s, t) && s'.pending == s.pending
    requires t in s'.phase && !s'.phase[t].Idle? && s'.phase[t].key == s.phase[t].key
    requires t in Bucket(s.table, s.phase[t].key) ==> t in Bucket(s'.table, s.phase[t].key)
    ensures Wakeable(s', t)
  {
    if t !in Bucket(s.table, s.phase[t].key) {
      var w :| w in s.pending && t in s.pending[w];
      assert w in s'.pending && t in s'.pending[w];
    }
  }

  /** Steps that leave tables and wakers' lists alone and only move threads within futex_wait. */
  lemma PhaseInv(s: State, s': State)
    requires Inv(s)
    requires s'.table == s.table && s'.pending == s.pending && s'.blocked == s.blocked
    requires s'.flushed == s.flushed && (forall k :: Count(s.writes, k) <= Count(s'.writes, k))
    requires s.phase.Keys == s'.phase.Keys
    requires forall t :: t in s.phase ==> s.phase[t].Idle? == s'.phase[t].Idle?
    requires forall t :: t in s.phase && !s.phase[t].Idle? ==>
               s'.phase[t].key == s.phase[t].key && s'.phase[t].seen == s.phase[t].seen
    requires forall t :: Asleep(s', t) ==> t in s'.blocked && (t in s'.interrupted ==> t in s'.owed)
    ensures Inv(s')
  {
    forall k, t | k in s'.table && t in s'.table[k]
      ensures Registered(s', t, k)
    {
      assert Registered(s, t, k);
    }
    forall t | t in s'.blocked
      ensures Wakeable(s', t)
    {
      StillWakeable(s, s', t);
    }
  }

  lemma CleanupInv(s: State, t: Tid)
    requires Inv(s) && Enabled(s, Cleanup(t))
    ensures Inv(Apply(s, Cleanup(t)))
  {
    var s', k := Apply(s, Cleanup(t)), s.phase[t].key;
    var ws := Bucket(s.table, k);
    RemainingMembers(ws, s.phase.Keys, t);
    forall j, x | j in s'.table && x in s'.table[j]
      ensures Registered(s', x, j)
    {
      assert Registered(s, x, j);
    }
    forall x | x in s'.blocked
      ensures Wakeable(s', x)
    {
      StillWakeable(s, s', x);
    }
  }

  /** Waiters popped from a bucket are no longer in it. */
  lemma TakenFacts(s: State, k: Key, n: nat)
    requires Inv(s)
    ensures var p := Popped(Bucket(s.table, k), s.phase.Keys, n);
            var ws := Bucket(s.table, k);
            p.0 <= ws && NoDups(p.0) && (forall x :: x in p.1 ==> x in ws && x !in p.0 && x in s.phase) &&
            forall x :: x in ws ==> x in p.0 || x in p.1
  {
    var ws := Bucket(s.table, k);
    forall x | x in ws
      ensures x in s.phase
    {
      assert Registered(s, x, k);
    }
    PoppedAllLive(ws, s.phase.Keys, n);
    PoppedMembers(ws, s.phase.Keys, n);
  }

  lemma TakenTableOk(s: State, k: Key, rest: seq<Tid>)
    requires Inv(s) && rest <= Bucket(s.table, k) && NoDups(rest)
    ensures TableOk(Taken(s, k, rest))
    ensures forall j :: Count(Taken(s, k, rest).flushed, j) <= Count(s.writes, j)
  {
    var s' := Taken(s, k, rest);
    forall j, x | j in s'.table && x in s'.table[j]
      ensures Registered(s', x, j)
    {
      assert Registered(s, x, j);
    }
  }

  lemma WakeTakeInv(s: State, w: nat, k: Key, count: int)
    requires Inv(s) && Enabled(s, WakeTake(w, k, count))
    ensures Inv(Apply(s, WakeTake(w, k, count)))
  {
    if count > 0 {
      var s' := Apply(s, WakeTake(w, k, count));
      var p := Popped(Bucket(s.table, k), s.phase.Keys, count);
      TakenFacts(s, k, count);
      TakenTableOk(s, k, p.0);
      assert TableOk(s') by {
        forall j, x | j in s'.table && x in s'.table[j]
          ensures Registered(s', x, j)
        {
          assert Registered(Taken(s, k, p.0), x, j);
        }
      }
      forall x | x in s'.blocked
        ensures Wakeable(s', x)
      {
        assert Wakeable(s, x);
        assert w in s'.pending && s'.pending[w] == p.1;
        if InSomePending(s, x) {
          var v :| v in s.pending && x in s.pending[v];
          assert v in s'.pending && x in s'.pending[v];
        }
      }
    }
  }

  lemma WakeOneInv(s: State, w: nat)
    requires Inv(s) && Enabled(s, WakeOne(w))
    ensures Inv(Apply(s, WakeOne(w)))
  {
    var s' := Apply(s, WakeOne(w));
    var t, rest := s.pending[w][0], s.pending[w][1..];
    forall k, x | k in s'.table && x in s'.table[k]
      ensures Registered(s', x, k)
    {
      assert Registered(s, x, k);
    }
    forall x | x in s'.blocked
      ensures Wakeable(s', x)
    {
      assert Wakeable(s, x);
      if InSomePending(s, x) {
        var v :| v in s.pending && x in s.pending[v];
        assert s.pending[w] == [t] + rest;
        assert v in s'.pending && x in s'.pending[v];
      }
    }
    forall x, v | v in s'.pending && x in s'.pending[v]
      ensures x in s'.phase
    {
      assert x in s.pending[v];
    }
  }

  lemma ClearTidInv(s: State, k: Key)
    requires Inv(s) && Enabled(s, ClearTid(k))
    ensures Inv(Apply(s, ClearTid(k)))
  {
    hide Popped, Inv, TableOk;
    var p := Popped(Bucket(s.table, k), s.phase.Keys, 1);
    var s1 := Written(s, k, 0);
    WriteInv(s, k, 0);
    TakenFacts(s1, k, 1);
    PoppedMembers(Bucket(s.table, k), s.phase.Keys, 1);
    TakenAwakeInv(s1, k, p.0, p.1);
  }

  lemma WriteInv(s: State, k: Key, v: nat)
    requires Inv(s)
    ensures Inv(Written(s, k, v))
  {
    PhaseInv(s, Written(s, k, v));
  }

  /** Taking at most one waiter and waking it in the same step. */
  lemma TakenAwakeInv(s: State, k: Key, rest: seq<Tid>, taken: seq<Tid>)
    requires Inv(s) && rest <= Bucket(s.table, k) && NoDups(rest) && |taken| <= 1
    requires forall x :: x in Bucket(s.table, k) ==> x in rest || x in taken
    ensures var s' := Taken(s, k, rest);
            Inv(if taken == [] then s' else Wakeup(s', taken[0], true))
  {
    hide WithBucket;
    BucketOf(s.table, k, rest);
    var s1 := Taken(s, k, rest);
    var s' := if taken == [] then s1 else Wakeup(s1, taken[0], true);
    TakenTableOk(s, k, rest);
    forall j, x | j in s'.table && x in s'.table[j]
      ensures Registered(s', x, j)
    {
      assert Registered(s1, x, j);
    }
    forall x | x in s'.blocked
      ensures Wakeable(s', x)
    {
      assert Wakeable(s, x);
      StillWakeable(s, s', x);
    }
  }

  lemma BucketOf(table: map<Key, seq<Tid>>, k: Key, ws: seq<Tid>)
    ensures forall j :: Bucket(WithBucket(table, k, ws), j) == if j == k then ws else Bucket(table, j)
  {
  }

  /** Every step keeps the invariant. */
  lemma StepInv(s: State, a: Action)
    requires Inv(s) && Enabled(s, a)
    ensures Inv(Apply(s, a))
  {
    match a
    case Wait(t, k, val) => WaitInv(s, t, k, val);
    case Cleanup(t) => CleanupInv(s, t);
    case WakeTake(w, k, count) => WakeTakeInv(s, w, k, count);
    case WakeOne(w) => WakeOneInv(s, w);
    case ClearTid(k) => ClearTidInv(s, k);
    case Create(t) => CreateInv(s, t);
    case Destroy(t) => DestroyInv(s, t);
    case _ => PhaseInv(s, Apply(s, a));
  }

  lemma CreateInv(s: State, t: Tid)
    requires Inv(s) && Enabled(s, Create(t))
    ensures Inv(Apply(s, Create(t)))
  {
    var s' := Apply(s, Create(t));
    forall k, x | k in s'.table && x in s'.table[k]
      ensures Registered(s', x, k)
    {
      assert Registered(s, x, k);
    }
    forall x | x in s'.blocked
      ensures Wakeable(s', x)
    {
      StillWakeable(s, s', x);
    }
  }

  lemma DestroyInv(s: State, t: Tid)
    requires Inv(s) && Enabled(s, Destroy(t))
    ensures Inv(Apply(s, Destroy(t)))
  {
    var s' := Apply(s, Destroy(t));
    forall k, x | k in s'.table && x in s'.table[k]
      ensures Registered(s', x, k)
    {
      assert Registered(s, x, k);
    }
    forall x | x in s'.blocked
      ensures Wakeable(s', x)
    {
      StillWakeable(s, s', x);
    }
  }

  // ---------------------------------------------------------------------------
  // Whole runs
  // ---------------------------------------------------------------------------

  ghost predicate Run(tr: seq<State>, acts: seq<Action>)
  {
    |tr| == |acts| + 1 && Start(tr[0]) &&
    forall i :: 0 <= i < |acts| ==> Enabled(tr[i], acts[i]) && tr[i + 1] == Apply(tr[i], acts[i])
  }

  lemma {:induction false} RunInv(tr: seq<State>, acts: seq<Action>, i: nat)
    requires Run(tr, acts) && i < |tr|
    ensures Inv(tr[i])
  {
    if i == 0 {
      StartInv(tr[0]);
    } else {
      RunInv(tr, acts, i - 1);
      StepInv(tr[i - 1], acts[i - 1]);
    }
  }

  lemma FlushedStep(s: State, a: Action, k: Key)
    requires Inv(s) && Enabled(s, a)
    ensures Count(s.flushed, k) <= Count(Apply(s, a).flushed, k)
  {
    hide Popped, Remaining, Wakeable, TableOk;
  }

  lemma {:induction false} FlushedGrows(tr: seq<State>, acts: seq<Action>, i: nat, j: nat, k: Key)
    requires Run(tr, acts) && i <= j < |tr|
    ensures Count(tr[i].flushed, k) <= Count(tr[j].flushed, k)
  {
    if i < j {
      FlushedGrows(tr, acts, i, j - 1, k);
      RunInv(tr, acts, j - 1);
      FlushedStep(tr[j - 1], acts[j - 1], k);
    }
  }

  ghost predicate NoEmptyBucket(table: map<Key, seq<Tid>>)
  {
    forall k :: k in table ==> table[k] != []
  }

  /** A wake takes exactly as many waiters as it reports, all from the named bucket, and no other bucket changes. */
  lemma WakeTakesExactly(tr: seq<State>, acts: seq<Action>, i: nat, w: nat, k: Key, count: int)
    requires Run(tr, acts) && i < |acts| && acts[i] == WakeTake(w, k, count)
    ensures var ws, ws' := Bucket(tr[i].table, k), Bucket(tr[i + 1].table, k);
            var taken := PendingOf(tr[i + 1], w);
            |taken| == (if count <= 0 then 0 else if count < |ws| then count else |ws|) &&
            ws' == ws[..|ws| - |taken|] &&
            (forall n :: 0 <= n < |taken| ==> taken[n] == ws[|ws| - 1 - n]) &&
            (forall j :: j != k ==> Bucket(tr[i + 1].table, j) == Bucket(tr[i].table, j)) &&
            NoEmptyBucket(tr[i + 1].table)
  {
    hide Popped, Wakeable;
    RunInv(tr, acts, i);
    RunInv(tr, acts, i + 1);
    var s, ws := tr[i], Bucket(tr[i].table, k);
    if count > 0 {
      forall x | x in ws
        ensures x in s.phase.Keys
      {
        assert Registered(s, x, k);
      }
      PoppedAllLive(ws, s.phase.Keys, count);
      var p := Popped(ws, s.phase.Keys, count);
      BucketOf(s.table, k, p.0);
    } else {
      assert ws == ws[..|ws|];
    }
  }

  /**
   * No lost wakeup. A waker wakes everyone on `k` at step `i`; at any later
   * point `j` where its own list is drained, a thread that registered before
   * the last write preceding that wake and is still blocked is in another
   * waker's list.
   */
  lemma NoLostWakeup(tr: seq<State>, acts: seq<Action>, i: nat, j: nat, w: nat, k: Key, count: int, t: Tid)
    requires Run(tr, acts) && i < j < |tr| && acts[i] == WakeTake(w, k, count)
    requires count > 0 && count >= |Bucket(tr[i].table, k)|
    requires PendingOf(tr[j], w) == []
    requires t in tr[j].blocked && t in tr[j].phase && !tr[j].phase[t].Idle? && tr[j].phase[t].key == k
    requires tr[j].phase[t].seen < Count(tr[i].writes, k)
    ensures exists w' :: w' != w && w' in tr[j].pending && t in tr[j].pending[w']
  {
    hide Popped;
    RunInv(tr, acts, j);
    RunInv(tr, acts, i);
    var s := tr[j];
    WakeTakesExactly(tr, acts, i, w, k, count);
    Emptied(tr[i], w, k, count);
    FlushedGrows(tr, acts, i + 1, j, k);
    assert t in Bucket(s.table, k) ==> Registered(s, t, k);
    assert Wakeable(s, t);
    var w' :| w' in s.pending && t in s.pending[w'];
    assert w' != w;
  }

  /** A wake that empties the bucket records the writes so far. */
  lemma Emptied(s: State, w: nat, k: Key, count: int)
    requires Inv(s) && Enabled(s, WakeTake(w, k, count)) && count > 0 && count >= |Bucket(s.table, k)|
    ensures Count(Apply(s, WakeTake(w, k, count)).flushed, k) == Count(s.writes, k)
  {
    hide Popped;
    var ws := Bucket(s.table, k);
    forall x | x in ws
      ensures x in s.phase.Keys
    {
      assert Registered(s, x, k);
    }
    PoppedAllLive(ws, s.phase.Keys, count);
  }

  /** In particular, once every waker has drained, all of them are unblocked, and none is asleep. */
  lemma AllAwake(tr: seq<State>, acts: seq<Action>, i: nat, j: nat, w: nat, k: Key, count: int, t: Tid)
    requires Run(tr, acts) && i < j < |tr| && acts[i] == WakeTake(w, k, count)
    requires count > 0 && count >= |Bucket(tr[i].table, k)|
    requires forall v :: v in tr[j].pending ==> tr[j].pending[v] == []
    requires t in tr[j].phase && !tr[j].phase[t].Idle? && tr[j].phase[t].key == k
    requires tr[j].phase[t].seen < Count(tr[i].writes, k)
    ensures t !in tr[j].blocked && !Asleep(tr[j], t)
  {
    RunInv(tr, acts, j);
    if t in tr[j].blocked {
      NoLostWakeup(tr, acts, i, j, w, k, count, t);
    }
  }

  /**
   * At every moment a sleeping thread can still be woken: it is blocked and
   * reachable for a waker, and if it was flagged for interruption the
   * broadcast is still to come.
   */
  lemma SleepersAreWakeable(tr: seq<State>, acts: seq<Action>, i: nat, t: Tid)
    requires Run(tr, acts) && i < |tr| && Asleep(tr[i], t)
    ensures t in tr[i].blocked
    ensures t in Bucket(tr[i].table, tr[i].phase[t].key) || InSomePending(tr[i], t)
    ensures t in tr[i].interrupted ==> t in tr[i].owed
  {
    RunInv(tr, acts, i);
    assert Wakeable(tr[i], t);
  }
}
