/**
 * Segment and file layout of the linker's output (`src/elf_linker.cpp`):
 * sections into three segments, segments into pages, and the program headers
 * that describe them.
 */
module Layout {
  const PAGE: nat := 0x1000
  const DATA: nat := 2

  datatype Role = Plain | InitArray | FiniArray

  /** A loadable section, in input order. */
  datatype Sec = Sec(seg: nat, nobits: bool, role: Role, size: nat)

  predicate SecsOk(secs: seq<Sec>)
  {
    forall i :: 0 <= i < |secs| ==> secs[i].seg < 3 && (secs[i].role != Plain ==> !secs[i].nobits)
  }

  function Align8(v: nat): (r: nat)
    ensures v <= r < v + 8 && r % 8 == 0
  {
    (v + 7) / 8 * 8
  }

  function PageUp(v: nat): (r: nat)
    ensures v <= r < v + PAGE && r % PAGE == 0
  {
    (v + (PAGE - 1)) / PAGE * PAGE
  }

  // ---------------------------------------------------------------------------
  // Buckets
  // ---------------------------------------------------------------------------

  /** Whether section `s` goes to list `c` of `role`: only the data segment separates its arrays. */
  predicate Belongs(s: Sec, c: nat, role: Role)
  {
    s.seg == c && if c == DATA then s.role == role else role == Plain
  }

  /** Indices below `n` that go to a list, in order. */
  function Listed(secs: seq<Sec>, c: nat, role: Role, n: nat): (q: seq<nat>)
    requires n <= |secs|
    ensures forall k :: 0 <= k < |q| ==> q[k] < n
  {
    if n == 0 then []
    else Listed(secs, c, role, n - 1) + if Belongs(secs[n - 1], c, role) then [n - 1] else []
  }

  /** The order of a segment: plain sections, then init arrays, then fini arrays. */
  function Bucket(secs: seq<Sec>, c: nat): (q: seq<nat>)
    ensures forall k :: 0 <= k < |q| ==> q[k] < |secs|
  {
    Listed(secs, c, Plain, |secs|) + Listed(secs, c, InitArray, |secs|) + Listed(secs, c, FiniArray, |secs|)
  }

  predicate Increasing(q: seq<nat>)
  {
    forall j, k :: 0 <= j < k < |q| ==> q[j] < q[k]
  }

  lemma {:induction false} ListedMembers(secs: seq<Sec>, c: nat, role: Role, n: nat)
    requires n <= |secs|
    ensures var q := Listed(secs, c, role, n);
            (forall i: nat :: i in q <==> i < n && Belongs(secs[i], c, role)) && Increasing(q)
  {
    if n > 0 {
      ListedMembers(secs, c, role, n - 1);
    }
  }

  /** Every section is in its segment's order exactly once and in no other. */
  lemma BucketMembers(secs: seq<Sec>, c: nat)
    requires SecsOk(secs)
    ensures var q := Bucket(secs, c);
            (forall i: nat :: i in q <==> i < |secs| && secs[i].seg == c) && Distinct(q)
  {
    hide Listed;
    var n := |secs|;
    var a, b, d := Listed(secs, c, Plain, n), Listed(secs, c, InitArray, n), Listed(secs, c, FiniArray, n);
    ListedMembers(secs, c, Plain, n);
    ListedMembers(secs, c, InitArray, n);
    ListedMembers(secs, c, FiniArray, n);
    IncreasingDistinct(a);
    IncreasingDistinct(b);
    IncreasingDistinct(d);
    assert forall x: nat :: x in a ==> x !in b && x !in d;
    assert forall x: nat :: x in b ==> x !in d;
    JoinDistinct(a, b);
    JoinDistinct(a + b, d);
  }

  predicate Distinct(q: seq<nat>)
  {
    forall j, k :: 0 <= j < |q| && 0 <= k < |q| && j != k ==> q[j] != q[k]
  }

  lemma IncreasingDistinct(q: seq<nat>)
    requires Increasing(q)
    ensures Distinct(q)
  {
    forall j, k | 0 <= j < |q| && 0 <= k < |q| && j != k
      ensures q[j] != q[k]
    {
      assert j < k ==> q[j] < q[k];
    }
  }

  lemma JoinDistinct(a: seq<nat>, b: seq<nat>)
    requires Distinct(a) && Distinct(b) && forall x :: x in a ==> x !in b
    ensures Distinct(a + b)
  {
    var q := a + b;
    forall j, k | 0 <= j < |q| && 0 <= k < |q| && j != k
      ensures q[j] != q[k]
    {
      assert q[j] in (if j < |a| then a else b) && q[k] in (if k < |a| then a else b);
    }
  }

  // ---------------------------------------------------------------------------
  // Offsets inside a segment
  // ---------------------------------------------------------------------------

  predicate Valid(secs: seq<Sec>, q: seq<nat>)
  {
    forall k :: 0 <= k < |q| ==> q[k] < |secs|
  }

  /** End of the sections of one kind among the first `k` of the order. */
  function End(secs: seq<Sec>, q: seq<nat>, nobits: bool, k: nat): nat
    requires Valid(secs, q) && k <= |q|
  {
    if k == 0 then 0
    else
      var s := secs[q[k - 1]];
      if s.nobits != nobits then End(secs, q, nobits, k - 1)
      else Align8(End(secs, q, nobits, k - 1)) + s.size
  }

  function FileSize(secs: seq<Sec>, q: seq<nat>): nat
    requires Valid(secs, q)
  {
    End(secs, q, false, |q|)
  }

  function MemSize(secs: seq<Sec>, q: seq<nat>): nat
    requires Valid(secs, q)
  {
    FileSize(secs, q) + End(secs, q, true, |q|)
  }

  /** Offset of the `k`-th section of the order: data first, NOBITS behind all data. */
  function Off(secs: seq<Sec>, q: seq<nat>, k: nat): nat
    requires Valid(secs, q) && k < |q|
  {
    if secs[q[k]].nobits then FileSize(secs, q) + Align8(End(secs, q, true, k)) else Align8(End(secs, q, false, k))
  }

  lemma EndNone(secs: seq<Sec>, q: seq<nat>)
    requires Valid(secs, q)
    ensures End(secs, q, false, 0) == 0 && End(secs, q, true, 0) == 0
  {
  }

  lemma EndNext(secs: seq<Sec>, q: seq<nat>, nobits: bool, k: nat)
    requires Valid(secs, q) && k < |q|
    ensures var s := secs[q[k]];
            End(secs, q, nobits, k + 1) ==
            if s.nobits == nobits then Align8(End(secs, q, nobits, k)) + s.size else End(secs, q, nobits, k)
  {
    hide Align8;
  }

  lemma {:induction false} EndGrows(secs: seq<Sec>, q: seq<nat>, nobits: bool, j: nat, k: nat)
    requires Valid(secs, q) && j <= k <= |q|
    ensures End(secs, q, nobits, j) <= End(secs, q, nobits, k)
    decreases k
  {
    if j < k {
      EndGrows(secs, q, nobits, j, k - 1);
    }
  }

  /** A section's bytes end where the running end stands after it. */
  lemma OffEnds(secs: seq<Sec>, q: seq<nat>, k: nat)
    requires Valid(secs, q) && k < |q|
    ensures var s := secs[q[k]];
            Off(secs, q, k) + s.size == End(secs, q, s.nobits, k + 1) + if s.nobits then FileSize(secs, q) else 0
    ensures Off(secs, q, k) + secs[q[k]].size <= MemSize(secs, q)
    ensures !secs[q[k]].nobits ==> Off(secs, q, k) + secs[q[k]].size <= FileSize(secs, q) && Off(secs, q, k) % 8 == 0
    ensures secs[q[k]].nobits ==> Off(secs, q, k) >= FileSize(secs, q)
  {
    EndGrows(secs, q, secs[q[k]].nobits, k + 1, |q|);
  }

  /** Sections of one segment do not overlap, and all data precedes all NOBITS. */
  lemma OffsApart(secs: seq<Sec>, q: seq<nat>, j: nat, k: nat)
    requires Valid(secs, q) && j < |q| && k < |q| && j != k
    ensures Off(secs, q, j) + secs[q[j]].size <= Off(secs, q, k) || Off(secs, q, k) + secs[q[k]].size <= Off(secs, q, j)
    ensures !secs[q[j]].nobits && secs[q[k]].nobits ==> Off(secs, q, j) + secs[q[j]].size <= Off(secs, q, k)
  {
    OffEnds(secs, q, j);
    OffEnds(secs, q, k);
    if secs[q[j]].nobits == secs[q[k]].nobits {
      if j < k {
        EndGrows(secs, q, secs[q[j]].nobits, j + 1, k);
      } else {
        EndGrows(secs, q, secs[q[j]].nobits, k + 1, j);
      }
    }
  }

  /**
   * Data sections are 8-aligned always; NOBITS sections of a segment are
   * exactly when the last data section of its order has a size that is a
   * multiple of 8, or there is none.
   */
  lemma NobitsAlignedIff(secs: seq<Sec>, q: seq<nat>, k: nat)
    requires Valid(secs, q) && k < |q| && secs[q[k]].nobits
    ensures Off(secs, q, k) % 8 == 0 <==>
            forall j :: 0 <= j < |q| && !secs[q[j]].nobits && LastData(secs, q, j) ==> secs[q[j]].size % 8 == 0
  {
    hide End;
    EndOfLast(secs, q, |q|);
  }

  /** No data section comes behind position `j` of the order. */
  predicate LastData(secs: seq<Sec>, q: seq<nat>, j: nat)
    requires Valid(secs, q) && j < |q|
  {
    forall i :: j < i < |q| ==> secs[q[i]].nobits
  }

  predicate LastDataBelow(secs: seq<Sec>, q: seq<nat>, j: nat, n: nat)
    requires Valid(secs, q) && j < n <= |q|
  {
    !secs[q[j]].nobits && forall i :: j < i < n ==> secs[q[i]].nobits
  }

  /** Data ends on a multiple of 8 exactly when its last section has such a size. */
  lemma {:induction false} EndOfLast(secs: seq<Sec>, q: seq<nat>, n: nat)
    requires Valid(secs, q) && n <= |q|
    ensures End(secs, q, false, n) % 8 == 0 <==>
            forall j :: 0 <= j < n && LastDataBelow(secs, q, j, n) ==> secs[q[j]].size % 8 == 0
    decreases n
  {
    hide End;
    EndNone(secs, q);
    if n > 0 {
      EndNext(secs, q, false, n - 1);
      EndOfLast(secs, q, n - 1);
      if secs[q[n - 1]].nobits {
        assert forall j :: 0 <= j < n - 1 ==> (LastDataBelow(secs, q, j, n) <==> LastDataBelow(secs, q, j, n - 1));
      } else {
        assert LastDataBelow(secs, q, n - 1, n);
        assert forall j :: 0 <= j < n - 1 ==> !LastDataBelow(secs, q, j, n);
      }
    }
  }

  /** Three bytes of data push the segment's NOBITS to offset 3. */
  lemma MisalignedBss(n: nat)
    ensures var secs := [Sec(DATA, false, Plain, 3), Sec(DATA, true, Plain, n)];
            Valid(secs, [0, 1]) && Off(secs, [0, 1], 1) == 3
  {
    var secs := [Sec(DATA, false, Plain, 3), Sec(DATA, true, Plain, n)];
    var q: seq<nat> := [0, 1];
    assert End(secs, q, false, 1) == Align8(End(secs, q, false, 0)) + 3 == 3;
    assert End(secs, q, false, 2) == End(secs, q, false, 1);
    assert End(secs, q, true, 1) == End(secs, q, true, 0);
  }

  // ---------------------------------------------------------------------------
  // Segments in memory
  // ---------------------------------------------------------------------------

  predicate Used(secs: seq<Sec>, c: nat)
  {
    Bucket(secs, c) != []
  }

  function SegMem(secs: seq<Sec>, c: nat): nat
  {
    MemSize(secs, Bucket(secs, c))
  }

  /** Where segment `c` starts, or would start: pages are handed out in order, unused segments take none. */
  function Cursor(secs: seq<Sec>, base: nat, c: nat): nat
  {
    if c == 0 then base + PAGE
    else
      var v := Cursor(secs, base, c - 1);
      if Used(secs, c - 1) then PageUp(v + SegMem(secs, c - 1)) else v
  }

  lemma {:induction false} CursorPages(secs: seq<Sec>, base: nat, c: nat, d: nat)
    requires base % PAGE == 0 && c <= d
    ensures Cursor(secs, base, c) % PAGE == 0 && Cursor(secs, base, c) >= base + PAGE
    ensures c < d && Used(secs, c) ==> PageUp(Cursor(secs, base, c) + SegMem(secs, c)) <= Cursor(secs, base, d)
    ensures Cursor(secs, base, c) <= Cursor(secs, base, d)
    decreases d
  {
    hide Cursor, Used, SegMem, PageUp;
    CursorNext(secs, base, d);
    if c < d {
      CursorPages(secs, base, c, d - 1);
    } else if c > 0 {
      CursorPages(secs, base, c - 1, c - 1);
    }
  }

  lemma CursorNext(secs: seq<Sec>, base: nat, c: nat)
    requires base % PAGE == 0
    ensures c == 0 ==> Cursor(secs, base, c) == base + PAGE && Cursor(secs, base, c) % PAGE == 0
    ensures c > 0 ==>
      var v := Cursor(secs, base, c - 1);
      Cursor(secs, base, c) == (if Used(secs, c - 1) then PageUp(v + SegMem(secs, c - 1)) else v)
  {
    hide Used, SegMem;
  }

  /** Final address of the `k`-th section of segment `c`. */
  function Addr(secs: seq<Sec>, base: nat, c: nat, k: nat): nat
    requires k < |Bucket(secs, c)|
  {
    Cursor(secs, base, c) + Off(secs, Bucket(secs, c), k)
  }

  /** Any two sections of the whole image are disjoint, and sections of different segments share no page. */
  lemma SectionsDisjoint(secs: seq<Sec>, base: nat, c: nat, j: nat, d: nat, k: nat)
    requires SecsOk(secs) && base % PAGE == 0
    requires j < |Bucket(secs, c)| && k < |Bucket(secs, d)| && (c, j) != (d, k)
    ensures var a, b := Addr(secs, base, c, j), Addr(secs, base, d, k);
            var m, n := secs[Bucket(secs, c)[j]].size, secs[Bucket(secs, d)[k]].size;
            (a + m <= b || b + n <= a) &&
            (c < d ==> PageUp(a + m) <= b / PAGE * PAGE) && (d < c ==> PageUp(b + n) <= a / PAGE * PAGE)
  {
    hide Off, Bucket, Cursor;
    if c == d {
      OffsApart(secs, Bucket(secs, c), j, k);
    } else {
      OffEnds(secs, Bucket(secs, c), j);
      OffEnds(secs, Bucket(secs, d), k);
      if c < d {
        SegmentsApart(secs, base, c, d, Off(secs, Bucket(secs, c), j) + secs[Bucket(secs, c)[j]].size, Off(secs, Bucket(secs, d), k));
      } else {
        SegmentsApart(secs, base, d, c, Off(secs, Bucket(secs, d), k) + secs[Bucket(secs, d)[k]].size, Off(secs, Bucket(secs, c), j));
      }
    }
  }

  lemma SegmentsApart(secs: seq<Sec>, base: nat, c: nat, d: nat, x: nat, y: nat)
    requires base % PAGE == 0 && c < d && Used(secs, c) && x <= SegMem(secs, c)
    ensures var a, b := Cursor(secs, base, c) + x, Cursor(secs, base, d) + y;
            a <= b && PageUp(a) <= b / PAGE * PAGE
  {
    hide Used, SegMem, Cursor;
    CursorPages(secs, base, c, d);
    CursorPages(secs, base, d, d);
    PageUpMono(Cursor(secs, base, c) + x, Cursor(secs, base, c) + SegMem(secs, c));
    PageDown(Cursor(secs, base, d), y);
  }

  lemma PageUpMono(a: nat, b: nat)
    requires a <= b
    ensures PageUp(a) <= PageUp(b)
  {
  }

  lemma PageDown(v: nat, y: nat)
    requires v % PAGE == 0
    ensures v <= (v + y) / PAGE * PAGE
  {
  }

  // ---------------------------------------------------------------------------
  // Init and fini arrays
  // ---------------------------------------------------------------------------

  function SumSizes(secs: seq<Sec>, q: seq<nat>): nat
    requires Valid(secs, q)
  {
    if q == [] then 0 else SumSizes(secs, q[..|q| - 1]) + secs[q[|q| - 1]].size
  }

  /** Positions [from, from + |part|) of an order hold `part`, all data with sizes in multiples of 8. */
  predicate ArrayRun(secs: seq<Sec>, q: seq<nat>, from: nat, part: seq<nat>)
    requires Valid(secs, q)
  {
    from + |part| <= |q| && q[from..from + |part|] == part &&
    forall k :: 0 <= k < |part| ==> part[k] < |secs| && !secs[part[k]].nobits && secs[part[k]].size % 8 == 0
  }

  lemma AlignFixed(v: nat)
    requires v % 8 == 0
    ensures Align8(v) == v
  {
  }

  lemma NextStarts(secs: seq<Sec>, q: seq<nat>, k: nat)
    requires Valid(secs, q) && k + 1 < |q| && !secs[q[k]].nobits && !secs[q[k + 1]].nobits && secs[q[k]].size % 8 == 0
    ensures Off(secs, q, k + 1) == Off(secs, q, k) + secs[q[k]].size
  {
    hide Align8, End;
    OffEnds(secs, q, k);
    AlignFixed(End(secs, q, false, k + 1));
  }

  /** Such a run is one gapless array: each section starts where the one before it ends. */
  lemma {:induction false} RunContiguous(secs: seq<Sec>, q: seq<nat>, from: nat, part: seq<nat>)
    requires Valid(secs, q) && ArrayRun(secs, q, from, part) && part != []
    ensures forall k :: 0 <= k < |part| - 1 ==> Off(secs, q, from + k + 1) == Off(secs, q, from + k) + secs[part[k]].size
    ensures var last := from + |part| - 1;
            Off(secs, q, last) + secs[part[|part| - 1]].size - Off(secs, q, from) == SumSizes(secs, part)
    decreases |part|
  {
    hide Off;
    var n := |part| - 1;
    forall k | 0 <= k < |part|
      ensures q[from + k] == part[k]
    {
      assert q[from..from + |part|][k] == q[from + k];
    }
    if n == 0 {
      assert part[..0] == [];
    } else {
      var front := part[..n];
      assert q[from..from + n] == front;
      RunContiguous(secs, q, from, front);
      NextStarts(secs, q, from + n - 1);
      assert forall k :: 0 <= k < n - 1 ==> front[k] == part[k];
      assert forall k :: 0 <= k < n - 1 ==> Off(secs, q, from + k + 1) == Off(secs, q, from + k) + secs[front[k]].size;
    }
  }

  /** The data segment's init arrays, and behind them its fini arrays, are such runs. */
  lemma ArraysContiguous(secs: seq<Sec>)
    requires SecsOk(secs)
    requires forall i :: 0 <= i < |secs| && secs[i].seg == DATA && secs[i].role != Plain ==> secs[i].size % 8 == 0
    ensures var q := Bucket(secs, DATA);
            var a, b, d := Listed(secs, DATA, Plain, |secs|), Listed(secs, DATA, InitArray, |secs|), Listed(secs, DATA, FiniArray, |secs|);
            ArrayRun(secs, q, |a|, b) && ArrayRun(secs, q, |a| + |b|, d)
  {
    hide Listed;
    var a, b, d := Listed(secs, DATA, Plain, |secs|), Listed(secs, DATA, InitArray, |secs|), Listed(secs, DATA, FiniArray, |secs|);
    ListedArray(secs, InitArray);
    ListedArray(secs, FiniArray);
    var q := Bucket(secs, DATA);
    assert q == a + b + d;
    assert q[|a|..|a| + |b|] == b;
    assert q[|a| + |b|..|a| + |b| + |d|] == d;
  }

  lemma ListedArray(secs: seq<Sec>, role: Role)
    requires SecsOk(secs) && role != Plain
    requires forall i :: 0 <= i < |secs| && secs[i].seg == DATA && secs[i].role != Plain ==> secs[i].size % 8 == 0
    ensures var b := Listed(secs, DATA, role, |secs|);
            forall k :: 0 <= k < |b| ==> !secs[b[k]].nobits && secs[b[k]].size % 8 == 0
  {
    ListedMembers(secs, DATA, role, |secs|);
    var b := Listed(secs, DATA, role, |secs|);
    hide Listed;
    forall k | 0 <= k < |b|
      ensures !secs[b[k]].nobits && secs[b[k]].size % 8 == 0
    {
      assert b[k] in b;
    }
  }

  // ---------------------------------------------------------------------------
  // layout_segments
  // ---------------------------------------------------------------------------

  datatype Seg = Seg(used: bool, vaddr: nat, filesz: nat, memsz: nat)

  /** First pass: the data sections. */
  method PlaceData(secs: seq<Sec>, q: seq<nat>) returns (offs: seq<nat>, pe: nat)
    requires Valid(secs, q)
    ensures |offs| == |q| && pe == FileSize(secs, q)
    ensures forall j :: 0 <= j < |q| && !secs[q[j]].nobits ==> offs[j] == Align8(End(secs, q, false, j))
  {
    hide Align8, End;
    EndNone(secs, q);
    offs := seq(|q|, _ => 0);
    pe := 0;
    for k := 0 to |q|
      invariant |offs| == |q| && pe == End(secs, q, false, k)
      invariant forall j :: 0 <= j < k && !secs[q[j]].nobits ==> offs[j] == Align8(End(secs, q, false, j))
    {
      var s := secs[q[k]];
      EndNext(secs, q, false, k);
      if !s.nobits {
        pe := Align8(pe);
        offs := offs[k := pe];
        pe := pe + s.size;
      }
    }
  }

  /** The sections' offsets in one segment: data, then NOBITS behind it. */
  method PlaceSegment(secs: seq<Sec>, q: seq<nat>) returns (offs: seq<nat>, filesz: nat, memsz: nat)
    requires Valid(secs, q)
    ensures |offs| == |q| && forall k :: 0 <= k < |q| ==> offs[k] == Off(secs, q, k)
    ensures filesz == FileSize(secs, q) && memsz == MemSize(secs, q)
  {
    hide Align8, End;
    EndNone(secs, q);
    offs, filesz := PlaceData(secs, q);
    var bss := 0;
    for k := 0 to |q|
      invariant |offs| == |q| && bss == End(secs, q, true, k)
      invariant forall j :: 0 <= j < |q| && !secs[q[j]].nobits ==> offs[j] == Align8(End(secs, q, false, j))
      invariant forall j :: 0 <= j < k && secs[q[j]].nobits ==> offs[j] == filesz + Align8(End(secs, q, true, j))
    {
      var s := secs[q[k]];
      EndNext(secs, q, true, k);
      if s.nobits {
        bss := Align8(bss);
        offs := offs[k := filesz + bss];
        bss := bss + s.size;
      }
    }
    memsz := filesz + bss;
  }

  /** The three lists of a segment, in one pass over the sections. */
  method Distribute(secs: seq<Sec>, c: nat) returns (q: seq<nat>)
    ensures q == Bucket(secs, c)
  {
    var plain: seq<nat>, inits: seq<nat>, finis: seq<nat> := [], [], [];
    for i := 0 to |secs|
      invariant plain == Listed(secs, c, Plain, i)
      invariant inits == Listed(secs, c, InitArray, i) && finis == Listed(secs, c, FiniArray, i)
    {
      var s := secs[i];
      if s.seg == c {
        if c == 2 && s.role == InitArray { inits := inits + [i]; }
        else if c == 2 && s.role == FiniArray { finis := finis + [i]; }
        else { plain := plain + [i]; }
      }
    }
    q := plain + inits + finis;
  }

  predicate AddrsOf(secs: seq<Sec>, base: nat, c: nat, a: seq<nat>)
  {
    |a| == |Bucket(secs, c)| && forall k :: 0 <= k < |a| ==> a[k] == Addr(secs, base, c, k)
  }

  /** `layout_segments`: segments, and the final address of every section of each. */
  method LayoutSegments(secs: seq<Sec>, base: nat) returns (segs: seq<Seg>, addrs: seq<seq<nat>>)
    requires SecsOk(secs)
    ensures |segs| == 3 && |addrs| == 3
    ensures forall c :: 0 <= c < 3 ==> segs[c] == SegOf(secs, base, c)
    ensures forall c :: 0 <= c < 3 ==> AddrsOf(secs, base, c, addrs[c])
  {
    hide Bucket, Off, MemSize, FileSize;
    segs, addrs := [], [];
    var cur := base + PAGE;
    for c := 0 to 3
      invariant |segs| == c && |addrs| == c && cur == Cursor(secs, base, c)
      invariant forall d :: 0 <= d < c ==> segs[d] == SegOf(secs, base, d)
      invariant forall d :: 0 <= d < c ==> AddrsOf(secs, base, d, addrs[d])
    {
      var q := Distribute(secs, c);
      var offs, filesz, memsz := PlaceSegment(secs, q);
      segs := segs + [Seg(q != [], cur, filesz, memsz)];
      var placed: seq<nat> := [];
      for k := 0 to |q|
        invariant |placed| == k && forall j :: 0 <= j < k ==> placed[j] == cur + offs[j]
      {
        placed := placed + [cur + offs[k]];
      }
      addrs := addrs + [placed];
      if q != [] { cur := PageUp(cur + memsz); }
    }
  }

  function SegOf(secs: seq<Sec>, base: nat, c: nat): Seg
  {
    Seg(Used(secs, c), Cursor(secs, base, c), FileSize(secs, Bucket(secs, c)), SegMem(secs, c))
  }

  // ---------------------------------------------------------------------------
  // The file and its program headers
  // ---------------------------------------------------------------------------

  const EHDR: nat := 64
  const PHDR: nat := 56

  /** A program header's range in the file and in memory. */
  datatype Load = Load(offset: nat, vaddr: nat, filesz: nat, memsz: nat)

  /** Segments in file order, all with page-aligned addresses and page-disjoint. */
  predicate SegsOk(segs: seq<Seg>, base: nat)
  {
    |segs| == 3 && base % PAGE == 0 &&
    (forall c :: 0 <= c < 3 ==> segs[c].vaddr % PAGE == 0 && segs[c].vaddr >= base + PAGE && segs[c].filesz <= segs[c].memsz) &&
    (forall c, d :: 0 <= c < d < 3 && segs[c].used ==> segs[c].vaddr + segs[c].memsz <= segs[d].vaddr) &&
    FirstAtBase(segs, base)
  }

  predicate FirstAtBase(segs: seq<Seg>, base: nat)
    requires |segs| == 3
  {
    forall c :: 0 <= c < 3 && segs[c].used && (forall d :: 0 <= d < c ==> !segs[d].used) ==> segs[c].vaddr == base + PAGE
  }

  /** What layout_segments produces is of that shape. */
  lemma LayoutIsOk(secs: seq<Sec>, base: nat)
    requires base % PAGE == 0
    ensures SegsOk([SegOf(secs, base, 0), SegOf(secs, base, 1), SegOf(secs, base, 2)], base)
  {
    hide Used, SegMem, FileSize, PageUp, Bucket;
    var v0, v1, v2 := Cursor(secs, base, 0), Cursor(secs, base, 1), Cursor(secs, base, 2);
    var segs := [SegOf(secs, base, 0), SegOf(secs, base, 1), SegOf(secs, base, 2)];
    assert v1 == if Used(secs, 0) then PageUp(v0 + SegMem(secs, 0)) else v0;
    assert v2 == if Used(secs, 1) then PageUp(v1 + SegMem(secs, 1)) else v1;
    hide Cursor;
    CursorPages(secs, base, 0, 1);
    CursorPages(secs, base, 0, 2);
    CursorPages(secs, base, 1, 2);
    CursorPages(secs, base, 2, 2);
    FileInMem(secs, 0);
    FileInMem(secs, 1);
    FileInMem(secs, 2);
    assert segs[0].vaddr == v0 && segs[1].vaddr == v1 && segs[2].vaddr == v2;
    assert v0 == base + PAGE by { CursorStart(secs, base); }
    assert FirstAtBase(segs, base);
  }

  lemma CursorStart(secs: seq<Sec>, base: nat)
    ensures Cursor(secs, base, 0) == base + PAGE
  {
  }

  lemma FileInMem(secs: seq<Sec>, c: nat)
    ensures FileSize(secs, Bucket(secs, c)) <= SegMem(secs, c)
  {
  }

  function CountUsed(segs: seq<Seg>, c: nat): nat
    requires c <= |segs|
  {
    if c == 0 then 0 else CountUsed(segs, c - 1) + if segs[c - 1].used then 1 else 0
  }

  /** Number of program headers: segments, dynamic pair, interpreter, header table. */
  function PhNum(segs: seq<Seg>, dynamic: bool, interp: bool, phdr: bool): nat
    requires |segs| == 3
  {
    CountUsed(segs, 3) + (if dynamic then 2 else 0) + (if interp then 1 else 0) + (if phdr then 1 else 0)
  }

  function DataOff(phnum: nat): nat
  {
    PageUp(EHDR + PHDR * phnum)
  }

  /** At most seven headers: the file's first page holds all of them, so segment data starts at the second. */
  lemma HeadersFitOnePage(segs: seq<Seg>, dynamic: bool, interp: bool, phdr: bool)
    requires |segs| == 3
    ensures PhNum(segs, dynamic, interp, phdr) <= 7 && DataOff(PhNum(segs, dynamic, interp, phdr)) == PAGE
  {
    assert CountUsed(segs, 1) <= 1 && CountUsed(segs, 2) <= 2 && CountUsed(segs, 3) <= 3;
  }

  /** File offset of segment `c`. */
  function FileCursor(segs: seq<Seg>, phnum: nat, c: nat): nat
    requires c <= |segs|
  {
    if c == 0 then DataOff(phnum)
    else
      var v := FileCursor(segs, phnum, c - 1);
      if segs[c - 1].used then PageUp(v) + segs[c - 1].filesz else v
  }

  function FileOff(segs: seq<Seg>, phnum: nat, c: nat): nat
    requires c < |segs|
  {
    PageUp(FileCursor(segs, phnum, c))
  }

  /** The PT_LOAD of segment `c`; the first used one is stretched down over the file's head when the table needs covering. */
  function LoadOf(segs: seq<Seg>, phnum: nat, phdr: bool, c: nat): Load
    requires c < |segs| && (phdr && IsFirst(segs, c) ==> segs[c].vaddr >= FileOff(segs, phnum, c))
  {
    var o := FileOff(segs, phnum, c);
    var s := segs[c];
    if phdr && IsFirst(segs, c) && o != 0 then Load(0, s.vaddr - o, s.filesz + o, s.memsz + o)
    else Load(o, s.vaddr, s.filesz, s.memsz)
  }

  predicate IsFirst(segs: seq<Seg>, c: nat)
    requires c < |segs|
  {
    segs[c].used && forall d :: 0 <= d < c ==> !segs[d].used
  }

  lemma FirstFileOff(segs: seq<Seg>, phnum: nat, c: nat)
    requires c < |segs| && IsFirst(segs, c) && phnum <= 7
    ensures FileOff(segs, phnum, c) == PAGE
  {
    FirstCursor(segs, phnum, c);
  }

  lemma {:induction false} FirstCursor(segs: seq<Seg>, phnum: nat, c: nat)
    requires c <= |segs| && phnum <= 7 && forall d :: 0 <= d < c ==> !segs[d].used
    ensures FileCursor(segs, phnum, c) == PAGE
  {
    if c > 0 {
      FirstCursor(segs, phnum, c - 1);
    }
  }

  /**
   * Every PT_LOAD has its file offset congruent to its address modulo the
   * page size, and different ones share no memory.
   */
  lemma LoadsCongruent(segs: seq<Seg>, base: nat, phnum: nat, phdr: bool, c: nat, d: nat)
    requires SegsOk(segs, base) && phnum <= 7 && c < 3 && d < 3 && segs[c].used && segs[d].used
    ensures (phdr && IsFirst(segs, c) ==> segs[c].vaddr >= FileOff(segs, phnum, c)) &&
            (phdr && IsFirst(segs, d) ==> segs[d].vaddr >= FileOff(segs, phnum, d)) &&
            var l, m := LoadOf(segs, phnum, phdr, c), LoadOf(segs, phnum, phdr, d);
            l.offset % PAGE == l.vaddr % PAGE && l.filesz <= l.memsz && l.vaddr >= base &&
            (c < d ==> l.vaddr + l.memsz <= m.vaddr)
  {
    if IsFirst(segs, c) { FirstFileOff(segs, phnum, c); }
    if IsFirst(segs, d) { FirstFileOff(segs, phnum, d); }
    assert FirstAtBase(segs, base);
  }

  /** The header table described by PT_PHDR lies inside the first PT_LOAD. */
  lemma PhdrCovered(segs: seq<Seg>, base: nat, phnum: nat, c: nat)
    requires SegsOk(segs, base) && phnum <= 7 && c < 3 && IsFirst(segs, c)
    ensures segs[c].vaddr >= FileOff(segs, phnum, c) &&
            var l := LoadOf(segs, phnum, true, c);
            var table := segs[c].vaddr - FileOff(segs, phnum, c) + EHDR;
            l.vaddr == base && l.offset == 0 && l.vaddr <= table && table + PHDR * phnum <= l.vaddr + l.filesz &&
            table - l.vaddr == EHDR - l.offset
  {
    FirstFileOff(segs, phnum, c);
    assert FirstAtBase(segs, base);
  }

  /** A PT_LOAD maps its segment's bytes where the layout put them, and ends with them, stretched or not. */
  lemma LoadMaps(segs: seq<Seg>, base: nat, phnum: nat, phdr: bool, c: nat)
    requires SegsOk(segs, base) && phnum <= 7 && c < 3 && segs[c].used
    ensures (phdr && IsFirst(segs, c) ==> segs[c].vaddr >= FileOff(segs, phnum, c)) &&
            var l, o := LoadOf(segs, phnum, phdr, c), FileOff(segs, phnum, c);
            l.vaddr - l.offset == segs[c].vaddr - o && l.offset <= o &&
            l.offset + l.filesz == o + segs[c].filesz && l.vaddr + l.memsz == segs[c].vaddr + segs[c].memsz &&
            (l.offset == 0 <==> phdr && forall d :: 0 <= d < c ==> !segs[d].used)
  {
    if IsFirst(segs, c) { FirstFileOff(segs, phnum, c); }
    assert FirstAtBase(segs, base);
    FileOffPages(segs, phnum, c);
  }

  lemma {:induction false} FileCursorPages(segs: seq<Seg>, phnum: nat, c: nat)
    requires c <= |segs|
    ensures FileCursor(segs, phnum, c) >= PAGE
  {
    if c > 0 {
      FileCursorPages(segs, phnum, c - 1);
    }
  }

  lemma FileOffPages(segs: seq<Seg>, phnum: nat, c: nat)
    requires c < |segs|
    ensures FileOff(segs, phnum, c) >= PAGE && FileOff(segs, phnum, c) % PAGE == 0
  {
    FileCursorPages(segs, phnum, c);
  }

  /** The images of the segments lie one behind the other in the file, behind the headers. */
  lemma {:induction false} FileImagesApart(segs: seq<Seg>, phnum: nat, c: nat, d: nat)
    requires c < d < |segs| && segs[c].used
    ensures PAGE <= FileOff(segs, phnum, c) && FileOff(segs, phnum, c) + segs[c].filesz <= FileOff(segs, phnum, d)
    decreases d
  {
    FileOffPages(segs, phnum, c);
    if c < d - 1 {
      FileImagesApart(segs, phnum, c, d - 1);
    }
  }

  datatype Header = TableHeader | LoadHeader(seg: nat) | DynLoadHeader | InterpHeader | DynamicHeader

  /** `write_phdrs`: the table itself first, then the segments, then what a dynamic image needs. */
  method WriteHeaders(segs: seq<Seg>, dynamic: bool, interp: bool, phdr: bool) returns (hs: seq<Header>)
    requires |segs| == 3
    ensures |hs| == PhNum(segs, dynamic, interp, phdr)
    ensures phdr ==> hs != [] && hs[0] == TableHeader
    ensures forall c: nat :: LoadHeader(c) in hs <==> c < 3 && segs[c].used
    ensures TableHeader in hs <==> phdr
    ensures InterpHeader in hs <==> interp
    ensures (DynLoadHeader in hs <==> dynamic) && (DynamicHeader in hs <==> dynamic)
  {
    hs := if phdr then [TableHeader] else [];
    for c := 0 to 3
      invariant |hs| == CountUsed(segs, c) + (if phdr then 1 else 0)
      invariant phdr ==> hs != [] && hs[0] == TableHeader
      invariant forall d: nat :: LoadHeader(d) in hs <==> d < c && segs[d].used
      invariant TableHeader in hs <==> phdr
      invariant InterpHeader !in hs && DynLoadHeader !in hs && DynamicHeader !in hs
    {
      if segs[c].used { hs := hs + [LoadHeader(c)]; }
    }
    if dynamic { hs := hs + [DynLoadHeader]; }
    if interp { hs := hs + [InterpHeader]; }
    if dynamic { hs := hs + [DynamicHeader]; }
  }

  // ---------------------------------------------------------------------------
  // The dynamic segment
  // ---------------------------------------------------------------------------

  /** The end of all segments in memory. */
  function MaxEnd(segs: seq<Seg>, base: nat, c: nat): nat
    requires c <= |segs|
  {
    if c == 0 then base
    else
      var v := MaxEnd(segs, base, c - 1);
      var e := segs[c - 1].vaddr + segs[c - 1].memsz;
      if segs[c - 1].used && e > v then e else v
  }

  /** Address of the byte at file offset `off` of the dynamic part, which begins at `first`. */
  function DynAddr(segs: seq<Seg>, base: nat, first: nat, off: nat): int
    requires |segs| == 3
  {
    PageUp(MaxEnd(segs, base, 3)) + first % PAGE + (off - first)
  }

  /** The dynamic part keeps the congruence for every byte and shares no page with any segment. */
  lemma DynamicApart(segs: seq<Seg>, base: nat, first: nat, off: nat, c: nat)
    requires |segs| == 3 && first <= off && c < 3 && segs[c].used
    ensures DynAddr(segs, base, first, off) % PAGE == off % PAGE
    ensures PageUp(segs[c].vaddr + segs[c].memsz) <= DynAddr(segs, base, first, off) / PAGE * PAGE
  {
    hide PageUp;
    var v := PageUp(MaxEnd(segs, base, 3));
    MaxEndCovers(segs, base, c);
    PageUpMono(segs[c].vaddr + segs[c].memsz, MaxEnd(segs, base, 3));
    PageDown(v, first % PAGE + (off - first));
    Congruent(v, first, off);
  }

  lemma Congruent(v: nat, first: nat, off: nat)
    requires v % PAGE == 0 && first <= off
    ensures (v + first % PAGE + (off - first)) % PAGE == off % PAGE
  {
  }

  lemma MaxEndCovers(segs: seq<Seg>, base: nat, c: nat)
    requires |segs| == 3 && c < 3 && segs[c].used
    ensures segs[c].vaddr + segs[c].memsz <= MaxEnd(segs, base, 3)
  {
    assert MaxEnd(segs, base, 1) <= MaxEnd(segs, base, 2) <= MaxEnd(segs, base, 3);
  }
}
