/**
 * When `JitCompiler::compile` gets as far as compiling: a hot address is
 * compiled at the threshold, and a failed span is not tried again.
 */
module JitHot {
  import opened ByteVectors
  import opened Words
  import opened JitCache

  // ---------------------------------------------------------------------------
  // The probe
  // ---------------------------------------------------------------------------

  /** Slot `j` of the window of eight counters from the instruction number of `gpa` on. */
  function Window(gpa: nat, j: nat): (i: nat)
    ensures i < 262144
  {
    (gpa / 8 + j) % 262144
  }

  predicate Taken(hot: seq<Counter>, gpa: nat, j: nat)
    requires |hot| == 262144
  {
    hot[Window(gpa, j)].gpa != gpa && hot[Window(gpa, j)].gpa != 0
  }

  /** No counter has run full. */
  predicate Low(hot: seq<Counter>)
  {
    forall i :: 0 <= i < |hot| ==> hot[i].count < UINT32_MAX
  }

  lemma WindowSlots(gpa: nat, a: nat, b: nat)
    requires a < 8 && b < 8 && a != b
    ensures Window(gpa, a) != Window(gpa, b)
  {
    var g, m := gpa / 8, 262144;
    var d := (g + a) / m - (g + b) / m;
    assert (g + a) % m == (g + b) % m ==> a - b == m * d;
  }

  /** The probe settles in the window, and everything before its slot belongs to other addresses. */
  lemma {:induction false} ProbeSettles(hot: seq<Counter>, gpa: nat, k: nat, best: nat, least: nat, at: nat) returns (j: nat)
    requires |hot| == COUNTER_SLOTS && k <= 8 && Low(hot)
    requires forall n :: 0 <= n < k ==> Taken(hot, gpa, n)
    requires best < COUNTER_SLOTS && (if k == 0 then least == UINT32_MAX else at < k && best == Window(gpa, at))
    ensures j < 8 && Probe(hot, gpa, k, best, least) == Window(gpa, j) && forall n :: 0 <= n < j ==> Taken(hot, gpa, n)
    decreases 8 - k
  {
    if k == 8 {
      j := at;
    } else {
      var i := Window(gpa, k);
      assert CounterIndex(gpa, k) == i;
      if hot[i].gpa == gpa || hot[i].gpa == 0 {
        j := k;
      } else if hot[i].count < least {
        j := ProbeSettles(hot, gpa, k + 1, i, hot[i].count, k);
      } else {
        j := ProbeSettles(hot, gpa, k + 1, best, least, at);
      }
    }
  }

  /** Once the address has its counter, the probe finds it. */
  lemma {:induction false} ProbeFinds(hot: seq<Counter>, gpa: nat, k: nat, best: nat, least: nat, j: nat)
    requires |hot| == COUNTER_SLOTS && best < COUNTER_SLOTS && k <= j < 8
    requires hot[Window(gpa, j)].gpa == gpa && forall n :: k <= n < j ==> Taken(hot, gpa, n)
    ensures Probe(hot, gpa, k, best, least) == Window(gpa, j)
    decreases 8 - k
  {
    assert CounterIndex(gpa, k) == Window(gpa, k);
    if k < j {
      assert Taken(hot, gpa, k);
      var i := Window(gpa, k);
      if hot[i].count < least {
        ProbeFinds(hot, gpa, k + 1, i, hot[i].count, j);
      } else {
        ProbeFinds(hot, gpa, k + 1, best, least, j);
      }
    }
  }

  // ---------------------------------------------------------------------------
  // Hot addresses
  // ---------------------------------------------------------------------------

  /** The cache after `n` usable calls in a row for `gpa`. */
  function Called(c: Cache, gpa: nat, threshold: nat, o: Outcome, n: nat): (r: Cache)
    requires Shaped(c)
    ensures Shaped(r)
  {
    if n == 0 then c else Compile(Called(c, gpa, threshold, o, n - 1), gpa, threshold, true, o).0
  }

  /** Not registered, and nothing said about it in the shadow cache. */
  predicate Unknown(c: Cache, gpa: nat)
    requires Shaped(c)
  {
    gpa !in c.entries && c.shadow[ShadowIndex(gpa)].gpa != gpa
  }

  /** The address has been counted `n` times at its slot of the window. */
  predicate Counted(c: Cache, gpa: nat, n: nat, j: nat)
    requires Shaped(c)
  {
    j < 8 && c.hot[Window(gpa, j)].gpa == gpa && c.hot[Window(gpa, j)].count >= n &&
    forall k :: 0 <= k < j ==> Taken(c.hot, gpa, k)
  }

  lemma CompiledNow(c: Cache, gpa: nat, o: Outcome)
    requires Shaped(c)
    ensures gpa in CompileNow(c, gpa, o).0.entries
    ensures forall hot :: |hot| == COUNTER_SLOTS ==> gpa in CompileNow(c.(hot := hot), gpa, o).0.entries
  {
    hide Poison;
  }

  /** One more call, its counter at slot `j` of the window. */
  lemma CountsOnce(c: Cache, gpa: nat, threshold: nat, o: Outcome, j: nat, n: nat)
    requires Shaped(c) && Unknown(c, gpa) && Low(c.hot) && 0 < threshold <= UINT32_MAX && j < 8
    requires Probe(c.hot, gpa, 0, 0, UINT32_MAX) == Window(gpa, j) && forall k :: 0 <= k < j ==> Taken(c.hot, gpa, k)
    requires n > 0 ==> c.hot[Window(gpa, j)].gpa == gpa && c.hot[Window(gpa, j)].count >= n
    ensures var r := Compile(c, gpa, threshold, true, o).0;
            (gpa in r.entries || (Unknown(r, gpa) && Low(r.hot) && Counted(r, gpa, n + 1, j))) &&
            (n + 1 >= threshold ==> gpa in r.entries)
  {
    hide Probe, CompileNow, Window;
    CompiledNow(c, gpa, o);
    var i := Window(gpa, j);
    var s := Bumped(c.hot[i], gpa);
    assert s.gpa == gpa && s.count >= n + 1;
    var hot := c.hot[i := s];
    forall k | 0 <= k < j
      ensures Taken(hot, gpa, k)
    {
      assert Taken(c.hot, gpa, k);
      WindowSlots(gpa, k, j);
    }
  }

  lemma {:induction false} CallsCount(c: Cache, gpa: nat, threshold: nat, o: Outcome, n: nat) returns (j: nat)
    requires Shaped(c) && Unknown(c, gpa) && Low(c.hot) && 0 < threshold <= UINT32_MAX && n > 0
    ensures var r := Called(c, gpa, threshold, o, n);
            gpa in r.entries || (n < threshold && Unknown(r, gpa) && Low(r.hot) && Counted(r, gpa, n, j))
    decreases n
  {
    hide Compile, Probe, Window, Low;
    var before := Called(c, gpa, threshold, o, n - 1);
    if n == 1 {
      j := ProbeSettlesAt(c, gpa);
      CountsOnce(c, gpa, threshold, o, j, 0);
    } else {
      j := CallsCount(c, gpa, threshold, o, n - 1);
      if gpa in before.entries {
        CompileKeeps(before, gpa, threshold, true, o, gpa);
      } else {
        ProbeFinds(before.hot, gpa, 0, 0, UINT32_MAX, j);
        CountsOnce(before, gpa, threshold, o, j, n - 1);
      }
    }
  }

  lemma ProbeSettlesAt(c: Cache, gpa: nat) returns (j: nat)
    requires Shaped(c) && Low(c.hot)
    ensures j < 8 && Probe(c.hot, gpa, 0, 0, UINT32_MAX) == Window(gpa, j) && forall n :: 0 <= n < j ==> Taken(c.hot, gpa, n)
  {
    hide Probe;
    j := ProbeSettles(c.hot, gpa, 0, 0, UINT32_MAX, 0);
  }

  /** No history fills a counter up: it is reset at the threshold. */
  lemma {:induction false} HistoryLow(h: seq<Call>, threshold: nat)
    requires threshold <= UINT32_MAX
    ensures Low(After(h, threshold).hot)
  {
    hide Probe, Poison;
    if h != [] {
      HistoryLow(h[..|h| - 1], threshold);
    }
  }

  /**
   * A hot address is compiled: after any history, an address about which the
   * cache knows nothing is registered, compiled if that succeeds, once it has
   * been asked for `threshold` times in a row.
   */
  lemma HotIsCompiled(h: seq<Call>, threshold: nat, gpa: nat, o: Outcome)
    requires 0 < threshold <= UINT32_MAX && Unknown(After(h, threshold), gpa)
    ensures var r := Called(After(h, threshold), gpa, threshold, o, threshold);
            gpa in r.entries && (o.Succeeds? ==> r.entries[gpa] == Compiled) && (o.Fails? ==> r.entries[gpa] == Failed)
  {
    hide After, Called, Low, Unknown;
    HistoryLow(h, threshold);
    var c := After(h, threshold);
    var _ := CallsCount(c, gpa, threshold, o, threshold);
    assert gpa !in c.entries by { UnknownMeans(c, gpa); }
    RegisteredAs(c, gpa, threshold, o, threshold);
  }

  lemma UnknownMeans(c: Cache, gpa: nat)
    requires Shaped(c) && Unknown(c, gpa)
    ensures gpa !in c.entries
  {
  }

  lemma {:induction false} RegisteredAs(c: Cache, gpa: nat, threshold: nat, o: Outcome, n: nat)
    requires Shaped(c) && gpa !in c.entries
    ensures var r := Called(c, gpa, threshold, o, n);
            gpa in r.entries ==> r.entries[gpa] == match o case Unreadable => Counting case Fails(_) => Failed case Succeeds => Compiled
    decreases n
  {
    hide Probe, Poison;
    if n > 0 {
      RegisteredAs(c, gpa, threshold, o, n - 1);
    }
  }

  // ---------------------------------------------------------------------------
  // Failed spans
  // ---------------------------------------------------------------------------

  /** Instruction `k` behind `gpa`, and the shadow slot of its address. */
  lemma SpanSlot(gpa: nat, k: nat)
    requires gpa < M64 && gpa % 8 == 0
    ensures ShadowIndex((gpa + 8 * k) % M64) == (gpa / 8 + k) % 65536 && PoisonAddress(gpa, k) == (gpa + 8 * k) % M64
  {
    var g := gpa / 8;
    assert gpa + 8 * k == 8 * (g + k);
    var q, r := (g + k) / 0x2000_0000_0000_0000, (g + k) % 0x2000_0000_0000_0000;
    assert 8 * (g + k) == M64 * q + 8 * r;
    ModUnique(8 * (g + k), M64, q, 8 * r);
    assert g + k == 65536 * (0x2000_0000_0000 * q) + r;
    ModUnique(r, 65536, r / 65536, r % 65536);
    assert g + k == 65536 * (0x2000_0000_0000 * q + r / 65536) + r % 65536;
    ModUnique(g + k, 65536, 0x2000_0000_0000 * q + r / 65536, r % 65536);
  }

  lemma SpanDistinct(g: nat, a: nat, b: nat)
    requires a < b < a + 65536
    ensures (g + a) % 65536 != (g + b) % 65536
  {
    var d := (g + b) / 65536 - (g + a) / 65536;
    assert (g + a) % 65536 == (g + b) % 65536 ==> b - a == 65536 * d;
  }

  function SpanIndex(gpa: nat, k: nat): (i: nat)
    ensures i < 65536
  {
    (gpa / 8 + k) % 65536
  }

  lemma PoisonStep(c: Cache, gpa: nat, n: nat)
    requires Shaped(c) && gpa < M64 && gpa % 8 == 0
    ensures var p := (gpa + 8 * n) % M64;
            Poison(c, gpa, n + 1).shadow ==
            if p in c.entries && c.entries[p] == Compiled then Poison(c, gpa, n).shadow
            else Poison(c, gpa, n).shadow[SpanIndex(gpa, n) := Slot(p, Poisoned)]
  {
    SpanSlot(gpa, n);
  }

  /** Every instruction of a failed span that is not itself compiled is marked. */
  lemma {:induction false} SpanPoisoned(c: Cache, gpa: nat, n: nat, k: nat)
    requires Shaped(c) && gpa < M64 && gpa % 8 == 0 && k < n <= 65536
    requires var p := (gpa + 8 * k) % M64; !(p in c.entries && c.entries[p] == Compiled)
    ensures Poison(c, gpa, n).shadow[SpanIndex(gpa, k)] == Slot((gpa + 8 * k) % M64, Poisoned)
    decreases n
  {
    hide Poison, SpanIndex;
    PoisonStep(c, gpa, n - 1);
    if k < n - 1 {
      SpanPoisoned(c, gpa, n - 1, k);
      assert SpanIndex(gpa, k) != SpanIndex(gpa, n - 1) by { Apart(gpa, k, n - 1); }
    }
  }

  lemma Apart(gpa: nat, a: nat, b: nat)
    requires a < b < a + 65536
    ensures SpanIndex(gpa, a) != SpanIndex(gpa, b)
  {
    SpanDistinct(gpa / 8, a, b);
  }

  /** Slots of other addresses are left alone. */
  lemma {:induction false} OthersKept(c: Cache, gpa: nat, n: nat, i: nat)
    requires Shaped(c) && gpa < M64 && gpa % 8 == 0 && i < 65536
    requires forall j :: 0 <= j < n ==> SpanIndex(gpa, j) != i
    ensures Poison(c, gpa, n).shadow[i] == c.shadow[i]
    decreases n
  {
    hide SpanIndex;
    if n > 0 {
      OthersKept(c, gpa, n - 1, i);
      PoisonStep(c, gpa, n - 1);
      assert SpanIndex(gpa, n - 1) != i;
    }
  }

  /**
   * After a failed compilation at `gpa` whose culprit is instruction `bad`,
   * a call for any instruction up to the culprit that is not compiled answers
   * at once and changes nothing.
   */
  lemma FailedSpanIsSkipped(c: Cache, gpa: nat, bad: nat, k: nat, threshold: nat, o: Outcome)
    requires Shaped(c) && gpa < M64 && gpa % 8 == 0 && k <= bad < 65536
    requires var p := (gpa + 8 * k) % M64; !(p in c.entries && c.entries[p] == Compiled) || p == gpa
    ensures var c' := CompileNow(c, gpa, Fails(bad)).0;
            Compile(c', (gpa + 8 * k) % M64, threshold, true, o) == (c', None)
  {
    hide Poison, Probe;
    var c2 := c.(entries := c.entries[gpa := Failed]);
    SpanPoisoned(c2, gpa, 1 + bad, k);
    SpanSlot(gpa, k);
  }
}
