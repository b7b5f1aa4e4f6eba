/**
 * Control flow of compiled fragments: which instructions
 * `JitCompiler::discover_reachable` finds, how `compile` lays their code out
 * and patches the jumps, and the proof that the native code visits the same
 * instructions as the interpreter.
 */
module JitFlow {
  import opened Leb128
  import opened Words
  import opened ByteVectors

  // ---------------------------------------------------------------------------
  // Instructions
  // ---------------------------------------------------------------------------

  type Nibble = n: int | 0 <= n < 16
  type Int16 = n: int | -0x8000 <= n < 0x8000
  type Int32 = n: int | -0x8000_0000 <= n < 0x8000_0000

  /** An instruction word. */
  datatype Raw = Raw(code: Byte, dst: Nibble, src: Nibble, off: Int16, imm: Int32)

  const CLS_LD: nat := 0
  const CLS_JMP: nat := 5
  const CLS_JMP32: nat := 6

  function Class(r: Raw): nat
  {
    r.code % 8
  }

  function Op(r: Raw): nat
  {
    r.code / 16 % 16 * 16
  }

  /** lddw: immediate mode, double word; takes two slots. */
  predicate IsWide(r: Raw)
  {
    Class(r) == CLS_LD && r.code / 32 % 8 == 0 && r.code / 8 % 4 == 3
  }

  predicate IsJa(r: Raw)
  {
    (Class(r) == CLS_JMP || Class(r) == CLS_JMP32) && Op(r) == 0
  }

  predicate IsExit(r: Raw)
  {
    Class(r) == CLS_JMP && Op(r) == 0x90
  }

  predicate IsCall(r: Raw)
  {
    Class(r) == CLS_JMP && Op(r) == 0x80
  }

  predicate IsBranch(r: Raw)
  {
    (Class(r) == CLS_JMP || Class(r) == CLS_JMP32) && !IsJa(r) && !IsExit(r) && !IsCall(r)
  }

  /** Where a jump goes: only the 32-bit class's unconditional jump uses the immediate. */
  function JumpTarget(r: Raw, i: int): int
  {
    i + 1 + if IsJa(r) && Class(r) == CLS_JMP32 then r.imm else r.off
  }

  predicate FallsThrough(r: Raw)
  {
    !IsJa(r) && !IsExit(r)
  }

  function NextSlot(r: Raw, i: int): int
  {
    if IsWide(r) then i + 2 else i + 1
  }

  // ---------------------------------------------------------------------------
  // Reachability
  // ---------------------------------------------------------------------------

  predicate Edge(prog: seq<Raw>, i: nat, j: nat)
  {
    i < |prog| && j < |prog| &&
    (((IsJa(prog[i]) || IsBranch(prog[i])) && j == JumpTarget(prog[i], i)) ||
     (FallsThrough(prog[i]) && j == NextSlot(prog[i], i)))
  }

  predicate Path(prog: seq<Raw>, p: seq<nat>)
  {
    p != [] && p[0] == 0 && p[0] < |prog| && forall k :: 0 <= k < |p| - 1 ==> Edge(prog, p[k], p[k + 1])
  }

  ghost predicate Reachable(prog: seq<Raw>, i: nat)
  {
    exists p :: Path(prog, p) && p[|p| - 1] == i
  }

  lemma StartReachable(prog: seq<Raw>)
    requires prog != []
    ensures Reachable(prog, 0)
  {
    assert Path(prog, [0]);
  }

  lemma EdgeReachable(prog: seq<Raw>, i: nat, j: nat)
    requires Reachable(prog, i) && Edge(prog, i, j)
    ensures Reachable(prog, j)
  {
    var p :| Path(prog, p) && p[|p| - 1] == i;
    assert Path(prog, p + [j]);
    assert (p + [j])[|p + [j]| - 1] == j;
  }

  /** A set that holds the entry and is closed under edges holds everything reachable. */
  lemma {:induction false} ClosedCovers(prog: seq<Raw>, marked: seq<bool>, p: seq<nat>)
    requires |marked| == |prog| && Path(prog, p) && marked[0]
    requires forall i: nat, j: nat :: i < |prog| && marked[i] && Edge(prog, i, j) ==> marked[j]
    ensures p[|p| - 1] < |prog| && marked[p[|p| - 1]]
    decreases |p|
  {
    if |p| > 1 {
      var q := p[..|p| - 1];
      assert Path(prog, q);
      ClosedCovers(prog, marked, q);
      assert Edge(prog, p[|p| - 2], p[|p| - 2 + 1]);
    }
  }

  /** A jump from `s` back to `t`. */
  ghost predicate BackEdge(prog: seq<Raw>, t: nat, s: nat)
  {
    s < |prog| && t <= s && Reachable(prog, s) && (IsJa(prog[s]) || IsBranch(prog[s])) && JumpTarget(prog[s], s) == t
  }

  ghost predicate LoopHead(prog: seq<Raw>, t: nat)
  {
    exists s :: BackEdge(prog, t, s)
  }

  /** Instructions code is emitted for: reachable and not the second slot of one of them. */
  ghost predicate Live(prog: seq<Raw>, i: nat)
  {
    Reachable(prog, i) && i < |prog| && !(i > 0 && Live(prog, i - 1) && IsWide(prog[i - 1]))
  }

  datatype Plan = Plan(size: nat, live: seq<bool>, head: seq<bool>, body: seq<nat>)

  /** What discover_reachable computes. */
  ghost predicate Discovered(prog: seq<Raw>, plan: Plan)
  {
    plan.size <= |prog| && |plan.live| == |plan.head| == |plan.body| == plan.size &&
    (prog == [] <==> plan.size == 0) &&
    (forall i: nat :: Reachable(prog, i) ==> i < plan.size) &&
    (forall i :: 0 <= i < plan.size ==> plan.live[i] == Live(prog, i)) &&
    (forall t :: 0 <= t < plan.size ==> plan.head[t] == LoopHead(prog, t)) &&
    (forall t: nat, s: nat :: t < plan.size && BackEdge(prog, t, s) ==> s - t + 1 <= plan.body[t]) &&
    (forall t :: 0 <= t < plan.size ==> plan.body[t] == 1 || exists s: nat :: BackEdge(prog, t, s) && plan.body[t] == s - t + 1)
  }

  /** The worklist loop's state. */
  class Discovery {
    const prog: seq<Raw>
    var marked: seq<bool>
    var head: seq<bool>
    var edges: seq<(nat, nat)>
    var work: seq<nat>
    var top: int

    ghost predicate Valid()
      reads this
    {
      |marked| == |head| == |prog| &&
      (forall i :: 0 <= i < |prog| && marked[i] ==> Reachable(prog, i) && i <= top) &&
      (forall k :: 0 <= k < |work| ==> work[k] < |prog| && marked[work[k]]) &&
      (forall k :: 0 <= k < |edges| ==> BackEdge(prog, edges[k].0, edges[k].1)) &&
      (forall t :: 0 <= t < |prog| ==> head[t] == exists k :: 0 <= k < |edges| && edges[k].0 == t) &&
      -1 <= top < |prog| && (top >= 0 ==> marked[top])
    }

    /** Marked instructions not waiting in the worklist have had all their successors marked. */
    ghost predicate Swept()
      reads this
    {
      |marked| == |prog| && forall j: nat :: j < |prog| && marked[j] && j !in work ==> Settled(prog, marked, edges, j)
    }

    constructor (p: seq<Raw>)
      ensures Valid() && prog == p && work == [] && edges == [] && top == -1
      ensures forall i :: 0 <= i < |p| ==> !marked[i]
    {
      prog := p;
      marked := seq(|p|, _ => false);
      head := seq(|p|, _ => false);
      edges := [];
      work := [];
      top := -1;
    }

    method Enqueue(idx: int)
      requires Valid() && (0 <= idx < |prog| ==> Reachable(prog, idx))
      modifies this`marked, this`work, this`top
      ensures Valid() && (0 <= idx < |prog| ==> marked[idx])
      ensures Grown(old(marked), old(work), marked, work)
    {
      if 0 <= idx < |prog| && !marked[idx] {
        MarkOne(marked, idx);
        marked := marked[idx := true];
        if idx > top { top := idx; }
        work := work + [idx];
        assert work[|work| - 1] == idx;
      }
    }

    /** Records a jump from `i`: back edges are noted, the target is enqueued. */
    method Jump(i: nat, target: int)
      requires Valid() && i < |prog| && Reachable(prog, i)
      requires (IsJa(prog[i]) || IsBranch(prog[i])) && target == JumpTarget(prog[i], i)
      modifies this`marked, this`work, this`top, this`head, this`edges
      ensures Valid() && (0 <= target < |prog| ==> marked[target])
      ensures Grown(old(marked), old(work), marked, work)
      ensures old(edges) <= edges && (0 <= target <= i ==> (target, i) in edges)
    {
      hide IsJa, IsBranch, JumpTarget, Reachable;
      if 0 <= target < |prog| {
        if target <= i {
          assert BackEdge(prog, target, i);
          hide BackEdge;
          head := head[target := true];
          edges := edges + [(target, i)];
          assert edges[|edges| - 1] == (target, i);
          forall t | 0 <= t < |prog|
            ensures head[t] == exists k :: 0 <= k < |edges| && edges[k].0 == t
          {
            if t != target && old(head)[t] {
              var k :| 0 <= k < |old(edges)| && old(edges)[k].0 == t;
              assert edges[k].0 == t;
            }
          }
        }
        assert Edge(prog, i, target);
        EdgeReachable(prog, i, target);
        Enqueue(target);
      }
    }

    /** One round: pop an instruction and mark what it leads to. */
    method Visit()
      requires Valid() && work != [] && Swept()
      modifies this`marked, this`work, this`top, this`head, this`edges
      ensures Valid() && Swept()
      ensures forall j :: 0 <= j < |prog| && old(marked)[j] ==> marked[j]
      ensures Unmarked(marked) + |work| < Unmarked(old(marked)) + |old(work)|
    {
      hide IsJa, IsBranch, FallsThrough, JumpTarget, NextSlot, Reachable, Unmarked, BackEdge, LoopHead, Edge, Settled;
      var i := work[|work| - 1];
      work := work[..|work| - 1];
      assert Valid();
      label popped:
      var r := prog[i];
      if IsJa(r) || IsBranch(r) {
        Jump(i, JumpTarget(r, i));
      }
      ghost var mid, midWork := marked, work;
      if FallsThrough(r) {
        FallEdge(prog, i);
        Enqueue(NextSlot(r, i));
      }
      SettledNow(prog, marked, edges, i);
      forall j: nat | j < |prog| && marked[j] && j !in work
        ensures Settled(prog, marked, edges, j)
      {
        if j != i {
          assert forall k :: 0 <= k < |old(work)| - 1 ==> old@popped(work)[k] == old(work)[k];
          SettledGrows(prog, old(marked), old(edges), marked, edges, j);
        }
      }
    }
  }

  /** `i` has marked all it leads to and recorded its back edge. */
  ghost predicate Settled(prog: seq<Raw>, marked: seq<bool>, edges: seq<(nat, nat)>, i: nat)
    requires |marked| == |prog|
  {
    (forall j: nat :: Edge(prog, i, j) ==> marked[j]) &&
    (forall t: nat :: BackEdge(prog, t, i) ==> (t, i) in edges)
  }

  /** Marks are only added, and each new mark puts its instruction in the worklist. */
  ghost predicate Grown(marked: seq<bool>, work: seq<nat>, marked': seq<bool>, work': seq<nat>)
  {
    |marked'| == |marked| && work <= work' &&
    (forall j :: 0 <= j < |marked| && marked[j] ==> marked'[j]) &&
    (forall j :: 0 <= j < |marked| && marked'[j] && !marked[j] ==> j in work') &&
    Unmarked(marked') + |work'| == Unmarked(marked) + |work|
  }

  lemma FallEdge(prog: seq<Raw>, i: nat)
    requires i < |prog| && Reachable(prog, i) && FallsThrough(prog[i])
    ensures NextSlot(prog[i], i) >= 0
    ensures NextSlot(prog[i], i) < |prog| ==> Reachable(prog, NextSlot(prog[i], i))
  {
    if NextSlot(prog[i], i) < |prog| {
      assert Edge(prog, i, NextSlot(prog[i], i));
      EdgeReachable(prog, i, NextSlot(prog[i], i));
    }
  }

  lemma SettledNow(prog: seq<Raw>, marked: seq<bool>, edges: seq<(nat, nat)>, i: nat)
    requires |marked| == |prog| && i < |prog|
    requires var r, t := prog[i], JumpTarget(prog[i], i);
             (IsJa(r) || IsBranch(r) ==> (0 <= t < |prog| ==> marked[t]) && (0 <= t <= i ==> (t, i) in edges)) &&
             (FallsThrough(r) ==> (0 <= NextSlot(r, i) < |prog| ==> marked[NextSlot(r, i)]))
    ensures Settled(prog, marked, edges, i)
  {
    hide IsJa, IsBranch, FallsThrough, JumpTarget, NextSlot, Reachable;
  }

  lemma SettledGrows(prog: seq<Raw>, marked: seq<bool>, edges: seq<(nat, nat)>,
                     marked': seq<bool>, edges': seq<(nat, nat)>, i: nat)
    requires |marked| == |marked'| == |prog| && Settled(prog, marked, edges, i)
    requires (forall j :: 0 <= j < |prog| && marked[j] ==> marked'[j]) && edges <= edges'
    ensures Settled(prog, marked', edges', i)
  {
    hide IsJa, IsBranch, FallsThrough, JumpTarget, NextSlot, Reachable;
    forall t: nat | BackEdge(prog, t, i)
      ensures (t, i) in edges'
    {
      var k :| 0 <= k < |edges| && edges[k] == (t, i);
      assert edges'[k] == (t, i);
    }
  }

  /** How many instructions are not marked yet. */
  ghost function Unmarked(marked: seq<bool>): nat
  {
    if marked == [] then 0 else (if marked[0] then 0 else 1) + Unmarked(marked[1..])
  }

  lemma {:induction false} MarkOne(marked: seq<bool>, i: nat)
    requires i < |marked| && !marked[i]
    ensures Unmarked(marked[i := true]) == Unmarked(marked) - 1
  {
    if i == 0 {
      assert marked[0 := true][1..] == marked[1..];
    } else {
      MarkOne(marked[1..], i - 1);
      assert marked[i := true][1..] == marked[1..][i - 1 := true];
    }
  }

  /** When the worklist is empty, the marks are exactly the reachable instructions. */
  lemma MarksAreReachable(prog: seq<Raw>, marked: seq<bool>, edges: seq<(nat, nat)>)
    requires |marked| == |prog| && prog != [] && marked[0]
    requires forall i: nat :: i < |prog| && marked[i] ==> Settled(prog, marked, edges, i)
    ensures forall i: nat :: Reachable(prog, i) ==> i < |prog| && marked[i]
    ensures forall t: nat, s: nat :: BackEdge(prog, t, s) ==> (t, s) in edges
  {
    hide Edge;
    forall i: nat | Reachable(prog, i)
      ensures i < |prog| && marked[i]
    {
      var p :| Path(prog, p) && p[|p| - 1] == i;
      ClosedCovers(prog, marked, p);
    }
  }

  /** The forward sweep that drops the second slots of wide instructions. */
  method ClearSecondSlots(prog: seq<Raw>, marked: seq<bool>) returns (live: seq<bool>)
    requires |marked| <= |prog|
    requires forall i: nat :: i < |marked| ==> marked[i] == Reachable(prog, i)
    ensures |live| == |marked|
    ensures forall i: nat :: i < |live| ==> live[i] == Live(prog, i)
  {
    hide Reachable, IsWide;
    live := marked;
    var i := 0;
    while i < |marked| - 1
      invariant 0 <= i && (i < |marked| || |marked| == 0) && |live| == |marked|
      invariant forall k: nat :: k <= i && k < |marked| ==> live[k] == Live(prog, k)
      invariant forall k: nat :: i < k < |marked| ==> live[k] == marked[k]
    {
      if live[i] && IsWide(prog[i]) {
        live := live[i + 1 := false];
      }
      assert Live(prog, i + 1) == live[i + 1];
      i := i + 1;
    }
  }

  /** For each loop head, the longest distance a recorded back edge spans. */
  method LoopBodies(prog: seq<Raw>, size: nat, edges: seq<(nat, nat)>) returns (body: seq<nat>)
    requires forall k :: 0 <= k < |edges| ==> edges[k].0 < size && BackEdge(prog, edges[k].0, edges[k].1)
    requires forall t: nat, s: nat :: BackEdge(prog, t, s) ==> (t, s) in edges
    ensures |body| == size
    ensures forall t: nat, s: nat :: t < size && BackEdge(prog, t, s) ==> s - t + 1 <= body[t]
    ensures forall t :: 0 <= t < size ==> body[t] == 1 || exists s: nat :: BackEdge(prog, t, s) && body[t] == s - t + 1
  {
    hide Reachable, IsJa, IsBranch, JumpTarget;
    body := seq(size, _ => 1);
    for k := 0 to |edges|
      invariant |body| == size
      invariant forall j :: 0 <= j < k ==> edges[j].1 - edges[j].0 + 1 <= body[edges[j].0]
      invariant forall t :: 0 <= t < size ==> body[t] == 1 || exists s: nat :: BackEdge(prog, t, s) && body[t] == s - t + 1
    {
      var (t, s) := edges[k];
      if s - t + 1 > body[t] {
        assert BackEdge(prog, t, s);
        body := body[t := s - t + 1];
      }
    }
    forall t: nat, s: nat | t < size && BackEdge(prog, t, s)
      ensures s - t + 1 <= body[t]
    {
      var j :| 0 <= j < |edges| && edges[j] == (t, s);
    }
  }

  /** `discover_reachable`. */
  method DiscoverReachable(prog: seq<Raw>) returns (plan: Plan)
    ensures Discovered(prog, plan)
  {
    if prog == [] {
      EmptyDiscovered(prog);
      return Plan(0, [], [], []);
    }
    StartReachable(prog);
    var dis := new Discovery(prog);
    dis.Enqueue(0);
    while dis.work != []
      invariant dis.Valid() && dis.Swept() && dis.marked[0]
      decreases Unmarked(dis.marked) + |dis.work|
    {
      dis.Visit();
    }
    var marked, edges := dis.marked, dis.edges;
    MarksAreReachable(prog, marked, edges);
    var last := dis.top;
    if last < |prog| - 1 && IsWide(prog[last]) { last := last + 1; }
    var size := last + 1;
    var live := ClearSecondSlots(prog, marked[..size]);
    BackEdgesInside(prog, marked);
    var body := LoopBodies(prog, size, edges);
    plan := Plan(size, live, dis.head[..size], body);
    HeadsAreLoopHeads(prog, dis.head, edges);
  }

  lemma EmptyDiscovered(prog: seq<Raw>)
    requires prog == []
    ensures Discovered(prog, Plan(0, [], [], []))
  {
  }

  lemma BackEdgesInside(prog: seq<Raw>, marked: seq<bool>)
    requires |marked| == |prog| && forall i: nat :: Reachable(prog, i) ==> i < |prog| && marked[i]
    ensures forall t: nat, s: nat :: BackEdge(prog, t, s) ==> t < |prog| && marked[t]
  {
    forall t: nat, s: nat | BackEdge(prog, t, s)
      ensures t < |prog| && marked[t]
    {
      assert Edge(prog, s, t);
      EdgeReachable(prog, s, t);
    }
  }

  lemma HeadsAreLoopHeads(prog: seq<Raw>, head: seq<bool>, edges: seq<(nat, nat)>)
    requires |head| == |prog|
    requires forall k :: 0 <= k < |edges| ==> BackEdge(prog, edges[k].0, edges[k].1)
    requires forall t :: 0 <= t < |prog| ==> head[t] == exists k :: 0 <= k < |edges| && edges[k].0 == t
    requires forall t: nat, s: nat :: BackEdge(prog, t, s) ==> (t, s) in edges
    ensures forall t: nat :: t < |prog| ==> head[t] == LoopHead(prog, t)
  {
    hide BackEdge;
    forall t: nat | t < |prog|
      ensures head[t] == LoopHead(prog, t)
    {
      if LoopHead(prog, t) {
        var s: nat :| BackEdge(prog, t, s);
        var k :| 0 <= k < |edges| && edges[k] == (t, s);
        assert edges[k].0 == t;
      }
    }
  }
}
