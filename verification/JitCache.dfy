/**
 * The bookkeeping of `JitCompiler::compile` and `clear`: registered entries,
 * the direct-mapped shadow cache, hot counters with eviction, and the
 * poisoning of failed spans.
 */
module JitCache {
  import opened ByteVectors
  import opened Words

  const SHADOW_SLOTS: nat := 0x1_0000
  const COUNTER_SLOTS: nat := 0x4_0000
  const PROBE: nat := 8
  const UINT32_MAX: nat := 0xFFFF_FFFF

  datatype Kind = Counting | Compiled | Failed

  /** What a shadow slot says about its address: nothing, "failed", or the entry stored under `key`. */
  datatype Shadow = Empty | Poisoned | Entry(key: nat)

  datatype Slot = Slot(gpa: nat, e: Shadow)
  datatype Counter = Counter(gpa: nat, count: nat)

  datatype Cache = Cache(entries: map<nat, Kind>, shadow: seq<Slot>, hot: seq<Counter>)

  /** How a real compilation ends: the address cannot be read, it fails at some instruction, or it succeeds. */
  datatype Outcome = Unreadable | Fails(poison: int) | Succeeds

  function ShadowIndex(gpa: nat): (i: nat)
    ensures i < SHADOW_SLOTS
  {
    gpa / 8 % SHADOW_SLOTS
  }

  function CounterIndex(gpa: nat, k: nat): (i: nat)
    ensures i < COUNTER_SLOTS
  {
    (gpa / 8 + k) % COUNTER_SLOTS
  }

  predicate Shaped(c: Cache)
  {
    |c.shadow| == SHADOW_SLOTS && |c.hot| == COUNTER_SLOTS
  }

  function Cleared(): (c: Cache)
    ensures Shaped(c)
  {
    Cache(map[], seq(SHADOW_SLOTS, _ => Slot(0, Empty)), seq(COUNTER_SLOTS, _ => Counter(0, 0)))
  }

  // ---------------------------------------------------------------------------
  // Counting
  // ---------------------------------------------------------------------------

  /**
   * The slot the probe settles on from offset `k`: the first that holds the
   * address or is free, otherwise the least used of the window.
   */
  function Probe(hot: seq<Counter>, gpa: nat, k: nat, best: nat, least: nat): (i: nat)
    requires |hot| == COUNTER_SLOTS && k <= PROBE && best < COUNTER_SLOTS
    ensures i < COUNTER_SLOTS
    decreases PROBE - k
  {
    if k == PROBE then best
    else
      var i := CounterIndex(gpa, k);
      if hot[i].gpa == gpa || hot[i].gpa == 0 then i
      else if hot[i].count < least then Probe(hot, gpa, k + 1, i, hot[i].count)
      else Probe(hot, gpa, k + 1, best, least)
  }

  /** The counter after one more call for `gpa`. */
  function Bumped(s: Counter, gpa: nat): Counter
  {
    var t := if s.gpa == gpa then s else Counter(gpa, 0);
    if t.count < UINT32_MAX then t.(count := t.count + 1) else t
  }

  // ---------------------------------------------------------------------------
  // Failure
  // ---------------------------------------------------------------------------

  function PoisonAddress(gpa: nat, k: nat): nat
  {
    (gpa + 8 * k) % M64
  }

  /** Marks the first `n` instructions from `gpa` as failed, sparing compiled entries. */
  function Poison(c: Cache, gpa: nat, n: nat): (r: Cache)
    requires Shaped(c)
    ensures Shaped(r) && r.entries == c.entries && r.hot == c.hot
  {
    if n == 0 then c
    else
      var c1 := Poison(c, gpa, n - 1);
      var p := PoisonAddress(gpa, n - 1);
      if p in c.entries && c.entries[p] == Compiled then c1
      else c1.(shadow := c1.shadow[ShadowIndex(p) := Slot(p, Poisoned)])
  }

  // ---------------------------------------------------------------------------
  // compile
  // ---------------------------------------------------------------------------

  /** A real compilation of an address not registered yet. */
  function CompileNow(c: Cache, gpa: nat, o: Outcome): (r: (Cache, Option<nat>))
    requires Shaped(c)
    ensures Shaped(r.0)
  {
    var c1 := c.(entries := c.entries[gpa := Counting]);
    match o
    case Unreadable => (c1, None)
    case Fails(poison) =>
      var c2 := c.(entries := c.entries[gpa := Failed]);
      (Poison(c2, gpa, 1 + if poison >= 0 then poison else 0), None)
    case Succeeds =>
      (c.(entries := c.entries[gpa := Compiled], shadow := c.shadow[ShadowIndex(gpa) := Slot(gpa, Entry(gpa))]), Some(gpa))
  }

  /** `compile`: the cache after the call and the entry it returns, if any. `usable` is false when the JIT is off or a debugger is attached. */
  function Compile(c: Cache, gpa: nat, threshold: nat, usable: bool, o: Outcome): (r: (Cache, Option<nat>))
    requires Shaped(c)
    ensures Shaped(r.0)
  {
    var slot := c.shadow[ShadowIndex(gpa)];
    if !usable then (c, None)
    else if slot.gpa == gpa then (c, if slot.e.Entry? then Some(slot.e.key) else None)
    else if gpa in c.entries then
      var e := if c.entries[gpa] == Compiled then Entry(gpa) else Poisoned;
      (c.(shadow := c.shadow[ShadowIndex(gpa) := Slot(gpa, e)]), if e.Entry? then Some(gpa) else None)
    else if threshold == 0 then CompileNow(c, gpa, o)
    else
      var i := Probe(c.hot, gpa, 0, 0, UINT32_MAX);
      var s := Bumped(c.hot[i], gpa);
      if s.count < threshold then (c.(hot := c.hot[i := s]), None)
      else CompileNow(c.(hot := c.hot[i := Counter(0, 0)]), gpa, o)
  }

  /** The object with its in-place updates. */
  class JitCompiler {
    const threshold: nat
    var entries: map<nat, Kind>
    var shadow: seq<Slot>
    var hot: seq<Counter>

    function View(): Cache
      reads this
    {
      Cache(entries, shadow, hot)
    }

    constructor (t: nat)
      ensures threshold == t && View() == Cleared()
    {
      threshold := t;
      entries, shadow, hot := Cleared().entries, Cleared().shadow, Cleared().hot;
    }

    method Clear()
      modifies this
      ensures View() == Cleared()
    {
      entries := map[];
      shadow := seq(SHADOW_SLOTS, _ => Slot(0, Empty));
      hot := seq(COUNTER_SLOTS, _ => Counter(0, 0));
    }

    method FindCounter(gpa: nat) returns (i: nat)
      requires Shaped(View())
      ensures i == Probe(hot, gpa, 0, 0, UINT32_MAX)
    {
      var best, least := 0, UINT32_MAX;
      var k := 0;
      while k < PROBE
        invariant k <= PROBE && best < COUNTER_SLOTS
        invariant Probe(hot, gpa, 0, 0, UINT32_MAX) == Probe(hot, gpa, k, best, least)
        decreases PROBE - k
      {
        i := CounterIndex(gpa, k);
        if hot[i].gpa == gpa || hot[i].gpa == 0 { return; }
        if hot[i].count < least { best, least := i, hot[i].count; }
        k := k + 1;
      }
      i := best;
    }

    method MarkFailed(gpa: nat, poison: int)
      requires Shaped(View())
      modifies this`entries, this`shadow
      ensures View() == Poison(old(View()).(entries := old(entries)[gpa := Failed]), gpa, 1 + if poison >= 0 then poison else 0)
    {
      entries := entries[gpa := Failed];
      ghost var c := View();
      var upto := if poison >= 0 then poison else 0;
      for k := 0 to upto + 1
        invariant View() == Poison(c, gpa, k)
      {
        var p := PoisonAddress(gpa, k);
        if !(p in entries && entries[p] == Compiled) {
          shadow := shadow[ShadowIndex(p) := Slot(p, Poisoned)];
        }
      }
    }

    method CompileEntry(gpa: nat, usable: bool, o: Outcome) returns (r: Option<nat>)
      requires Shaped(View())
      modifies this
      ensures (View(), r) == Compile(old(View()), gpa, threshold, usable, o)
    {
      hide Poison, Probe;
      if !usable { return None; }
      var slot := shadow[ShadowIndex(gpa)];
      if slot.gpa == gpa { return if slot.e.Entry? then Some(slot.e.key) else None; }
      if gpa in entries {
        if entries[gpa] == Compiled {
          shadow := shadow[ShadowIndex(gpa) := Slot(gpa, Entry(gpa))];
          return Some(gpa);
        }
        shadow := shadow[ShadowIndex(gpa) := Slot(gpa, Poisoned)];
        return None;
      }
      if threshold > 0 {
        var i := FindCounter(gpa);
        if hot[i].gpa != gpa { hot := hot[i := Counter(gpa, 0)]; }
        if hot[i].count < UINT32_MAX { hot := hot[i := Counter(gpa, hot[i].count + 1)]; }
        assert hot == old(hot)[i := Bumped(old(hot)[i], gpa)];
        if hot[i].count < threshold { return None; }
        hot := hot[i := Counter(0, 0)];
        assert hot == old(hot)[i := Counter(0, 0)];
      }
      ghost var c := View();
      entries := entries[gpa := Counting];
      match o {
        case Unreadable => return None;
        case Fails(poison) =>
          MarkFailed(gpa, poison);
          assert c.entries[gpa := Counting][gpa := Failed] == c.entries[gpa := Failed];
          return None;
        case Succeeds =>
          entries := entries[gpa := Compiled];
          assert entries == c.entries[gpa := Compiled];
          shadow := shadow[ShadowIndex(gpa) := Slot(gpa, Entry(gpa))];
          return Some(gpa);
      }
    }
  }

  // ---------------------------------------------------------------------------
  // Whole histories
  // ---------------------------------------------------------------------------

  datatype Call = CompileCall(gpa: nat, usable: bool, o: Outcome) | ClearCall

  /** The cache after a history of calls. */
  function After(h: seq<Call>, threshold: nat): (c: Cache)
    ensures Shaped(c)
  {
    if h == [] then Cleared()
    else
      var c := After(h[..|h| - 1], threshold);
      match h[|h| - 1]
      case ClearCall => Cleared()
      case CompileCall(gpa, usable, o) => Compile(c, gpa, threshold, usable, o).0
  }

  /** Usable calls for `gpa` since the last clear: the ones that may count. */
  function CallsFor(h: seq<Call>, gpa: nat): nat
  {
    if h == [] then 0
    else match h[|h| - 1]
      case ClearCall => 0
      case CompileCall(g, usable, _) => CallsFor(h[..|h| - 1], gpa) + if usable && g == gpa then 1 else 0
  }

  /**
   * Shadow slots speak for their own address: an entry pointer means that
   * address is compiled, a poison mark means it is not. Counters never claim
   * more calls than were made, and only addresses called often enough are
   * registered.
   */
  ghost predicate Honest(h: seq<Call>, threshold: nat, c: Cache)
  {
    Shaped(c) &&
    SlotsOk(c) &&
    (forall i :: 0 <= i < COUNTER_SLOTS ==> c.hot[i].count <= CallsFor(h, c.hot[i].gpa)) &&
    (forall p :: p in c.entries ==> CallsFor(h, p) >= threshold)
  }

  predicate SlotOk(entries: map<nat, Kind>, s: Slot)
  {
    match s.e
    case Empty => s.gpa == 0
    case Poisoned => !(s.gpa in entries && entries[s.gpa] == Compiled)
    case Entry(k) => k == s.gpa && k in entries && entries[k] == Compiled
  }

  predicate SlotsOk(c: Cache)
  {
    Shaped(c) && forall i :: 0 <= i < SHADOW_SLOTS ==> SlotOk(c.entries, c.shadow[i])
  }

  lemma {:induction false} PoisonSlots(c: Cache, gpa: nat, n: nat)
    requires Shaped(c) && SlotsOk(c)
    ensures SlotsOk(Poison(c, gpa, n))
  {
    if n > 0 {
      PoisonSlots(c, gpa, n - 1);
      var c1, r, p := Poison(c, gpa, n - 1), Poison(c, gpa, n), PoisonAddress(gpa, n - 1);
      forall i | 0 <= i < SHADOW_SLOTS
        ensures SlotOk(r.entries, r.shadow[i])
      {
        assert SlotOk(c1.entries, c1.shadow[i]);
        assert r.shadow[i] == c1.shadow[i] || r.shadow[i] == Slot(p, Poisoned);
      }
    }
  }

  /** Registering an address that was not registered keeps every other slot's claim. */
  lemma RegisterSlots(c: Cache, gpa: nat, k: Kind)
    requires Shaped(c) && gpa !in c.entries && SlotsOk(c)
    requires c.shadow[ShadowIndex(gpa)].gpa != gpa && OwnSlots(c)
    ensures SlotsOk(c.(entries := c.entries[gpa := k]))
  {
    var r := c.(entries := c.entries[gpa := k]);
    forall i | 0 <= i < SHADOW_SLOTS
      ensures SlotOk(r.entries, r.shadow[i])
    {
      assert SlotOk(c.entries, c.shadow[i]);
    }
  }

  /** A slot that says something sits at its address's index. */
  predicate OwnSlots(c: Cache)
    requires Shaped(c)
  {
    forall i :: 0 <= i < SHADOW_SLOTS && c.shadow[i].e != Empty ==> i == ShadowIndex(c.shadow[i].gpa)
  }

  lemma {:induction false} PoisonOwn(c: Cache, gpa: nat, n: nat)
    requires Shaped(c) && OwnSlots(c)
    ensures OwnSlots(Poison(c, gpa, n))
  {
    if n > 0 {
      PoisonOwn(c, gpa, n - 1);
    }
  }

  lemma CompileNowHonest(h: seq<Call>, threshold: nat, c: Cache, gpa: nat, o: Outcome)
    requires Honest(h, threshold, c) && OwnSlots(c) && gpa !in c.entries && c.shadow[ShadowIndex(gpa)].gpa != gpa
    requires CallsFor(h, gpa) >= threshold
    ensures Honest(h, threshold, CompileNow(c, gpa, o).0) && OwnSlots(CompileNow(c, gpa, o).0)
  {
    hide CallsFor, Poison;
    match o
    case Unreadable => RegisterSlots(c, gpa, Counting);
    case Fails(poison) =>
      var c2 := c.(entries := c.entries[gpa := Failed]);
      RegisterSlots(c, gpa, Failed);
      PoisonSlots(c2, gpa, 1 + if poison >= 0 then poison else 0);
      var c3 := Poison(c2, gpa, 1 + if poison >= 0 then poison else 0);
      assert c3.hot == c.hot && c3.entries == c.entries[gpa := Failed];
      PoisonOwn(c2, gpa, 1 + if poison >= 0 then poison else 0);
    case Succeeds => RegisterSlots(c, gpa, Compiled);
  }

  lemma CallsGrow(h: seq<Call>, x: Call, p: nat)
    requires x.CompileCall?
    ensures CallsFor(h + [x], p) == CallsFor(h, p) + if x.usable && x.gpa == p then 1 else 0
  {
    assert (h + [x])[..|h|] == h;
  }

  lemma CompileHonest(h: seq<Call>, threshold: nat, c: Cache, x: Call)
    requires Honest(h, threshold, c) && OwnSlots(c) && x.CompileCall?
    ensures var r := Compile(c, x.gpa, threshold, x.usable, x.o).0; Honest(h + [x], threshold, r) && OwnSlots(r)
  {
    hide CallsFor, Poison, Probe, CompileNow;
    var h' := h + [x];
    forall p: nat
      ensures CallsFor(h', p) == CallsFor(h, p) + if x.usable && x.gpa == p then 1 else 0
    {
      CallsGrow(h, x, p);
    }
    assert Honest(h', threshold, c);
    var gpa := x.gpa;
    var slot := c.shadow[ShadowIndex(gpa)];
    if !x.usable || slot.gpa == gpa {
    } else if gpa in c.entries {
      ShadowUpdate(h', threshold, c, gpa);
    } else if threshold == 0 {
      CompileNowHonest(h', threshold, c, gpa, x.o);
    } else {
      var i := Probe(c.hot, gpa, 0, 0, UINT32_MAX);
      var s := Bumped(c.hot[i], gpa);
      assert s.count <= CallsFor(h', gpa);
      if s.count >= threshold {
        CompileNowHonest(h', threshold, c.(hot := c.hot[i := Counter(0, 0)]), gpa, x.o);
      }
    }
  }

  lemma ShadowUpdate(h: seq<Call>, threshold: nat, c: Cache, gpa: nat)
    requires Honest(h, threshold, c) && OwnSlots(c) && gpa in c.entries
    ensures var e := if c.entries[gpa] == Compiled then Entry(gpa) else Poisoned;
            var r := c.(shadow := c.shadow[ShadowIndex(gpa) := Slot(gpa, e)]);
            Honest(h, threshold, r) && OwnSlots(r)
  {
    hide CallsFor;
  }

  lemma {:induction false} HistoryHonest(h: seq<Call>, threshold: nat)
    ensures Honest(h, threshold, After(h, threshold)) && OwnSlots(After(h, threshold))
  {
    hide Compile;
    if h != [] {
      var front, x := h[..|h| - 1], h[|h| - 1];
      HistoryHonest(front, threshold);
      if x.CompileCall? {
        CompileHonest(front, threshold, After(front, threshold), x);
        assert front + [x] == h;
      }
    }
  }

  /**
   * After any history, a call that returns an entry returns the compiled
   * entry of the very address asked for, after at least `threshold` calls
   * for it; and a compiled address is never hidden by a poison mark.
   */
  lemma ResultIsCompiled(h: seq<Call>, threshold: nat, gpa: nat, usable: bool, o: Outcome)
    ensures var (c, r) := Compile(After(h, threshold), gpa, threshold, usable, o);
            (r.Some? ==> r == Some(gpa) && gpa in c.entries && c.entries[gpa] == Compiled &&
                         CallsFor(h + [CompileCall(gpa, usable, o)], gpa) >= threshold) &&
            (usable && gpa != 0 && gpa in After(h, threshold).entries && After(h, threshold).entries[gpa] == Compiled ==>
               r == Some(gpa))
  {
    hide CallsFor, Poison, Probe;
    var c0 := After(h, threshold);
    HistoryHonest(h, threshold);
    assert SlotOk(c0.entries, c0.shadow[ShadowIndex(gpa)]);
    CompileHonest(h, threshold, c0, CompileCall(gpa, usable, o));
  }

  lemma CompileKeeps(c: Cache, gpa: nat, threshold: nat, usable: bool, o: Outcome, p: nat)
    requires Shaped(c) && p in c.entries
    ensures var r := Compile(c, gpa, threshold, usable, o).0; p in r.entries && r.entries[p] == c.entries[p]
  {
    hide Poison, Probe;
  }

  /**
   * A registration is final until `clear`: compiled stays compiled, and an
   * address whose compilation failed, or could not even be read, is never
   * compiled again.
   */
  lemma {:induction false} RegistrationFinal(h: seq<Call>, more: seq<Call>, threshold: nat, p: nat)
    requires p in After(h, threshold).entries && forall i :: 0 <= i < |more| ==> more[i].CompileCall?
    ensures p in After(h + more, threshold).entries
    ensures After(h + more, threshold).entries[p] == After(h, threshold).entries[p]
    decreases |more|
  {
    hide Compile;
    if more == [] {
      assert h + more == h;
    } else {
      var front, x := more[..|more| - 1], more[|more| - 1];
      RegistrationFinal(h, front, threshold, p);
      assert (h + more)[..|h + more| - 1] == h + front && (h + more)[|h + more| - 1] == x;
      CompileKeeps(After(h + front, threshold), x.gpa, threshold, x.usable, x.o, p);
    }
  }

  /** Call `i` is a usable one for `gpa` with no clear behind it. */
  predicate CountsAt(h: seq<Call>, gpa: nat, i: nat)
  {
    i < |h| && h[i].CompileCall? && h[i].usable && h[i].gpa == gpa && forall j :: i < j < |h| ==> h[j].CompileCall?
  }

  /** `CallsFor` is the number of these calls. */
  lemma {:induction false} CallsCounted(h: seq<Call>, gpa: nat)
    ensures CallsFor(h, gpa) == |set i | 0 <= i < |h| && CountsAt(h, gpa, i)|
  {
    var s := set i | 0 <= i < |h| && CountsAt(h, gpa, i);
    if h == [] {
      assert s == {};
    } else if h[|h| - 1].ClearCall? {
      assert s == {};
    } else {
      var n := |h| - 1;
      CallsCounted(h[..n], gpa);
      FrontCounts(h, gpa);
      hide CountsAt;
      var t := set i | 0 <= i < n && CountsAt(h[..n], gpa, i);
      var last := if h[n].usable && h[n].gpa == gpa then {n} else {};
      assert s == t + last;
      assert n !in t;
    }
  }

  lemma FrontCounts(h: seq<Call>, gpa: nat)
    requires h != [] && h[|h| - 1].CompileCall?
    ensures forall i :: 0 <= i < |h| - 1 ==> CountsAt(h, gpa, i) == CountsAt(h[..|h| - 1], gpa, i)
    ensures CountsAt(h, gpa, |h| - 1) == (h[|h| - 1].usable && h[|h| - 1].gpa == gpa)
  {
    var n := |h| - 1;
    var front := h[..n];
    forall i | 0 <= i < n
      ensures CountsAt(h, gpa, i) == CountsAt(front, gpa, i)
    {
      assert forall j :: 0 <= j < n ==> front[j] == h[j];
    }
  }
}
