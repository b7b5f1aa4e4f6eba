/**
 * Guest memory of one vm (`src/insn.cpp`): segments sorted by address, the
 * direct-mapped TLB in front of them, and copy-on-write.
 */
module Mmu {
  import opened Leb128
  import opened ByteVectors
  import opened Words

  const PF_W: nat := 2
  const TLB_SIZE: nat := 2048

  /** A place in host memory: an allocation and an offset into it. */
  datatype Ptr = Ptr(block: nat, off: nat)

  /** A segment; `cow` says its bytes are held through a shared pointer. */
  datatype Map = Map(paddr: nat, size: nat, flags: nat, data: Ptr, cow: bool)

  /** A TLB entry; `host` is None in the all-zero entry. */
  datatype Entry = Entry(base: nat, end: nat, host: Option<Ptr>, flags: nat, cow: bool)

  const ZERO: Entry := Entry(0, 0, None, 0, false)

  predicate Writable(flags: nat)
  {
    flags / PF_W % 2 == 1
  }

  function Plus(p: Ptr, n: nat): Ptr
  {
    Ptr(p.block, p.off + n)
  }

  function EntryOf(m: Map): Entry
  {
    Entry(m.paddr, m.paddr + m.size, Some(m.data), m.flags, m.cow)
  }

  /** Slot of an address: its page number folded with the bits above. */
  function TlbIndex(addr: nat): (i: nat)
    ensures i < TLB_SIZE
  {
    BitXor(addr / 0x1000, addr / 0x10_0000) % TLB_SIZE
  }

  // ---------------------------------------------------------------------------
  // What a lookup means: linear search
  // ---------------------------------------------------------------------------

  predicate Covers(m: Map, addr: nat, size: nat)
  {
    m.paddr <= addr && addr + size <= m.paddr + m.size
  }

  /** The first segment that holds all of [addr, addr + size), if the range does not wrap. */
  function Search(maps: seq<Map>, addr: nat, size: nat): (r: Option<nat>)
    ensures r.Some? ==> r.value < |maps| && Covers(maps[r.value], addr, size)
  {
    if addr + size >= M64 then None else SearchFrom(maps, addr, size, 0)
  }

  function SearchFrom(maps: seq<Map>, addr: nat, size: nat, i: nat): (r: Option<nat>)
    requires i <= |maps|
    ensures r.Some? ==> i <= r.value < |maps| && Covers(maps[r.value], addr, size)
    ensures r.None? ==> forall j :: i <= j < |maps| ==> !Covers(maps[j], addr, size)
    decreases |maps| - i
  {
    if i == |maps| then None
    else if Covers(maps[i], addr, size) then Some(i)
    else SearchFrom(maps, addr, size, i + 1)
  }

  /** What a read lookup returns. */
  function Reads(maps: seq<Map>, addr: nat, size: nat): Option<Ptr>
  {
    PtrAt(maps, Search(maps, addr, size), addr)
  }

  /** How many segments start at or below `addr` (they come first). */
  function Below(maps: seq<Map>, addr: nat): (n: nat)
    ensures n <= |maps|
  {
    if maps != [] && maps[0].paddr <= addr then 1 + Below(maps[1..], addr) else 0
  }

  /** The sorted lookup: the last segment at or below `addr`, if it holds the range. */
  function Found(maps: seq<Map>, addr: nat, size: nat): (r: Option<nat>)
    ensures r.Some? ==> r.value < |maps|
  {
    var n := Below(maps, addr);
    if addr + size >= M64 || n == 0 || addr + size > maps[n - 1].paddr + maps[n - 1].size then None else Some(n - 1)
  }

  function PtrAt(maps: seq<Map>, i: Option<nat>, addr: nat): Option<Ptr>
    requires i.Some? ==> i.value < |maps| && maps[i.value].paddr <= addr
  {
    if i.None? then None else Some(Plus(maps[i.value].data, addr - maps[i.value].paddr))
  }

  predicate Sorted(maps: seq<Map>)
  {
    (forall i :: 0 <= i < |maps| ==> maps[i].size > 0 && maps[i].paddr + maps[i].size < M64) &&
    forall i, j :: 0 <= i < j < |maps| ==> maps[i].paddr + maps[i].size <= maps[j].paddr
  }

  predicate Disjoint(a: Map, b: Map)
  {
    a.paddr + a.size <= b.paddr || b.paddr + b.size <= a.paddr
  }

  /** With disjoint segments a non-empty range lies in at most one. */
  lemma SearchUnique(maps: seq<Map>, addr: nat, size: nat, i: nat)
    requires Sorted(maps) && i < |maps| && size > 0 && Covers(maps[i], addr, size)
    ensures Search(maps, addr, size) == Some(i)
  {
    forall j | 0 <= j < |maps| && j != i
      ensures !Covers(maps[j], addr, size)
    {
      assert j < i ==> maps[j].paddr + maps[j].size <= maps[i].paddr;
    }
  }

  lemma {:induction false} BelowSplits(maps: seq<Map>, addr: nat, n: nat)
    requires n <= |maps|
    requires forall i :: 0 <= i < n ==> maps[i].paddr <= addr
    requires forall i :: n <= i < |maps| ==> addr < maps[i].paddr
    ensures Below(maps, addr) == n
  {
    if n > 0 {
      assert forall i :: 0 <= i < |maps[1..]| ==> maps[1..][i] == maps[i + 1];
      BelowSplits(maps[1..], addr, n - 1);
    }
  }

  lemma {:induction false} BelowMeans(maps: seq<Map>, addr: nat)
    requires Sorted(maps)
    ensures var n := Below(maps, addr);
            (forall i :: 0 <= i < n ==> maps[i].paddr <= addr) && forall i :: n <= i < |maps| ==> addr < maps[i].paddr
  {
    if maps != [] && maps[0].paddr <= addr {
      var t := maps[1..];
      assert forall i :: 0 <= i < |t| ==> t[i] == maps[i + 1];
      BelowMeans(t, addr);
      var n := Below(maps, addr);
      assert forall i :: 0 < i < n ==> maps[i] == t[i - 1];
      assert forall i :: n <= i < |maps| ==> maps[i] == t[i - 1];
    } else if maps != [] {
      assert forall i :: 0 < i < |maps| ==> maps[0].paddr + maps[0].size <= maps[i].paddr;
    }
  }

  /** For non-empty ranges the sorted lookup is the linear search. */
  lemma FoundIsSearch(maps: seq<Map>, addr: nat, size: nat)
    requires Sorted(maps)
    ensures var r := Found(maps, addr, size); r.Some? ==> Covers(maps[r.value], addr, size)
    ensures size > 0 ==> Found(maps, addr, size) == Search(maps, addr, size)
  {
    hide Search;
    BelowMeans(maps, addr);
    var n := Below(maps, addr);
    var r := Found(maps, addr, size);
    if size > 0 {
      if r.Some? {
        SearchUnique(maps, addr, size, r.value);
      } else {
        NoneFound(maps, addr, size, n);
      }
    }
  }

  lemma NoneFound(maps: seq<Map>, addr: nat, size: nat, n: nat)
    requires Sorted(maps) && n <= |maps| && size > 0
    requires forall i :: 0 <= i < n ==> maps[i].paddr <= addr
    requires forall i :: n <= i < |maps| ==> addr < maps[i].paddr
    requires addr + size >= M64 || n == 0 || addr + size > maps[n - 1].paddr + maps[n - 1].size
    ensures Search(maps, addr, size).None?
  {
    forall j | 0 <= j < |maps| && addr + size < M64
      ensures !Covers(maps[j], addr, size)
    {
      assert j < n - 1 ==> maps[j].paddr + maps[j].size <= maps[n - 1].paddr;
    }
  }

  // ---------------------------------------------------------------------------
  // Sharing
  // ---------------------------------------------------------------------------

  /** How many of the segments hold `b` through a shared pointer. */
  function CowCount(maps: seq<Map>, b: nat): nat
  {
    if maps == [] then 0 else (if maps[0].cow && maps[0].data.block == b then 1 else 0) + CowCount(maps[1..], b)
  }

  lemma {:induction false} CowCountOne(maps: seq<Map>, b: nat, i: nat)
    requires i < |maps| && maps[i].cow && maps[i].data.block == b && CowCount(maps, b) == 1
    ensures forall j :: 0 <= j < |maps| && j != i ==> !(maps[j].cow && maps[j].data.block == b)
  {
    if i == 0 {
      CowCountZero(maps[1..], b);
      assert forall j :: 0 < j < |maps| ==> maps[1..][j - 1] == maps[j];
    } else {
      assert maps[1..][i - 1] == maps[i];
      CowCountPositive(maps[1..], b, i - 1);
      CowCountOne(maps[1..], b, i - 1);
      assert forall j :: 0 < j < |maps| ==> maps[1..][j - 1] == maps[j];
    }
  }

  lemma {:induction false} CowCountZero(maps: seq<Map>, b: nat)
    requires CowCount(maps, b) == 0
    ensures forall j :: 0 <= j < |maps| ==> !(maps[j].cow && maps[j].data.block == b)
  {
    if maps != [] {
      CowCountZero(maps[1..], b);
      assert forall j :: 0 < j < |maps| ==> maps[1..][j - 1] == maps[j];
    }
  }

  lemma {:induction false} CowCountPositive(maps: seq<Map>, b: nat, i: nat)
    requires i < |maps| && maps[i].cow && maps[i].data.block == b
    ensures CowCount(maps, b) >= 1
  {
    if i > 0 {
      assert maps[1..][i - 1] == maps[i];
      CowCountPositive(maps[1..], b, i - 1);
    }
  }

  lemma {:induction false} CowCountNone(maps: seq<Map>, b: nat)
    requires forall j :: 0 <= j < |maps| ==> !(maps[j].cow && maps[j].data.block == b)
    ensures CowCount(maps, b) == 0
  {
    if maps != [] {
      CowCountNone(maps[1..], b);
    }
  }

  /** The count is one exactly when no other segment shares the block. */
  lemma {:induction false} CowCountOnly(maps: seq<Map>, b: nat, i: nat)
    requires i < |maps| && maps[i].cow && maps[i].data.block == b
    ensures CowCount(maps, b) == 1 <==> forall j :: 0 <= j < |maps| && j != i ==> !(maps[j].cow && maps[j].data.block == b)
  {
    if CowCount(maps, b) == 1 {
      CowCountOne(maps, b, i);
    } else if forall j :: 0 <= j < |maps| && j != i ==> !(maps[j].cow && maps[j].data.block == b) {
      OnlyCounts(maps, b, i);
    }
  }

  lemma {:induction false} OnlyCounts(maps: seq<Map>, b: nat, i: nat)
    requires i < |maps| && maps[i].cow && maps[i].data.block == b
    requires forall j :: 0 <= j < |maps| && j != i ==> !(maps[j].cow && maps[j].data.block == b)
    ensures CowCount(maps, b) == 1
  {
    assert forall j :: 0 < j < |maps| ==> maps[1..][j - 1] == maps[j];
    if i == 0 {
      CowCountNone(maps[1..], b);
    } else {
      OnlyCounts(maps[1..], b, i - 1);
    }
  }

  /** A segment that is not copy-on-write is the only holder of its bytes. */
  ghost predicate Exclusive(maps: seq<Map>, others: map<nat, nat>)
  {
    (forall i :: 0 <= i < |maps| && !maps[i].cow ==> Others(others, maps[i].data.block) == 0) &&
    forall i, j :: 0 <= i < |maps| && 0 <= j < |maps| && i != j && !maps[i].cow ==> maps[i].data.block != maps[j].data.block
  }

  /** Holders of `b` in other vms. */
  function Others(others: map<nat, nat>, b: nat): nat
  {
    if b in others then others[b] else 0
  }

  /** Every segment's bytes exist. */
  ghost predicate Backed(maps: seq<Map>, heap: map<nat, Bytes>)
  {
    forall i :: 0 <= i < |maps| ==>
      maps[i].data.block in heap && maps[i].data.off + maps[i].size <= |heap[maps[i].data.block]|
  }

  /** The guest's bytes at segment `m`. */
  function BytesOf(m: Map, heap: map<nat, Bytes>): Bytes
    requires m.data.block in heap && m.data.off + m.size <= |heap[m.data.block]|
  {
    heap[m.data.block][m.data.off..m.data.off + m.size]
  }

  /** Same segments, same addresses, same bytes. */
  ghost predicate SameContents(maps: seq<Map>, heap: map<nat, Bytes>, maps': seq<Map>, heap': map<nat, Bytes>)
    requires Backed(maps, heap) && Backed(maps', heap')
  {
    |maps| == |maps'| &&
    forall i :: 0 <= i < |maps| ==>
      maps'[i].paddr == maps[i].paddr && maps'[i].size == maps[i].size && maps'[i].flags == maps[i].flags &&
      BytesOf(maps'[i], heap') == BytesOf(maps[i], heap)
  }

  // ---------------------------------------------------------------------------
  // The object
  // ---------------------------------------------------------------------------

  class Memory {
    var maps: seq<Map>
    var tlb: seq<Entry>
    var heap: map<nat, Bytes>
    var others: map<nat, nat>
    var next: nat

    /** A TLB entry is all zero or a faithful copy of a current segment. */
    ghost predicate TlbOk()
      reads this
    {
      |tlb| == TLB_SIZE &&
      forall k :: 0 <= k < |tlb| ==> tlb[k] == ZERO || exists i :: 0 <= i < |maps| && tlb[k] == EntryOf(maps[i])
    }

    ghost predicate Valid()
      reads this
    {
      Sorted(maps) && Backed(maps, heap) && Exclusive(maps, others) && TlbOk() &&
      (forall b :: b in heap ==> b < next) && (forall b :: b in others ==> b < next)
    }

    /** A new memory: no segment, a cleared TLB, and blocks that other vms may already hold. */
    constructor (heap: map<nat, Bytes>, others: map<nat, nat>, next: nat)
      requires (forall b :: b in heap ==> b < next) && (forall b :: b in others ==> b < next)
      ensures Valid() && maps == [] && this.heap == heap && this.others == others && this.next == next
    {
      maps, tlb, this.heap, this.others, this.next := [], seq(TLB_SIZE, _ => ZERO), heap, others, next;
    }

    method FlushTlb()
      modifies this`tlb
      ensures tlb == seq(TLB_SIZE, _ => ZERO)
    {
      tlb := seq(TLB_SIZE, _ => ZERO);
    }

    /** `addmem`: inserts in address order. */
    method AddMem(m: Map)
      requires Valid() && m.size > 0 && m.paddr + m.size < M64
      requires forall i :: 0 <= i < |maps| ==> Disjoint(maps[i], m)
      requires m.data.block in heap && m.data.off + m.size <= |heap[m.data.block]|
      requires Exclusive(maps + [m], others)
      modifies this`maps, this`tlb
      ensures Valid() && multiset(maps) == multiset(old(maps)) + multiset{m}
    {
      var k := 0;
      while k < |maps| && maps[k].paddr < m.paddr
        invariant 0 <= k <= |maps|
        invariant forall i :: 0 <= i < k ==> maps[i].paddr < m.paddr
      {
        k := k + 1;
      }
      InsertSorted(maps, m, k);
      InsertExclusive(maps, m, k, others);
      InsertBacked(maps, m, k, heap);
      InsertMultiset(maps, m, k);
      maps := maps[..k] + [m] + maps[k..];
      FlushTlb();
    }

    /** `unmap`: removes the segment that starts at `addr`. */
    method Unmap(addr: nat) returns (ok: bool)
      requires Valid()
      modifies this`maps, this`tlb
      ensures Valid() && ok == exists i :: 0 <= i < |old(maps)| && old(maps)[i].paddr == addr
      ensures !ok ==> maps == old(maps)
      ensures ok ==> exists i :: 0 <= i < |old(maps)| && old(maps)[i].paddr == addr &&
                                 maps == old(maps)[..i] + old(maps)[i + 1..]
    {
      for k := 0 to |maps|
        invariant forall i :: 0 <= i < k ==> maps[i].paddr != addr
        invariant maps == old(maps) && tlb == old(tlb)
      {
        if maps[k].paddr == addr {
          RemoveKeeps(maps, k, heap, others);
          maps := maps[..k] + maps[k + 1..];
          FlushTlb();
          return true;
        }
      }
      return false;
    }

    /** `find_map_locked`: binary search for the last segment at or below `addr`. */
    method FindMap(addr: nat, size: nat) returns (r: Option<nat>)
      requires Valid()
      ensures r == Found(maps, addr, size)
      ensures r.Some? ==> Covers(maps[r.value], addr, size)
      ensures size > 0 ==> r == Search(maps, addr, size)
    {
      FoundIsSearch(maps, addr, size);
      if addr + size >= M64 { return None; }
      var lo, hi := 0, |maps|;
      while lo < hi
        invariant 0 <= lo <= hi <= |maps|
        invariant forall i :: 0 <= i < lo ==> maps[i].paddr <= addr
        invariant forall i :: hi <= i < |maps| ==> addr < maps[i].paddr
      {
        var mid := (lo + hi) / 2;
        if addr < maps[mid].paddr { hi := mid; } else { lo := mid + 1; }
      }
      BelowSplits(maps, addr, lo);
      if lo == 0 { return None; }
      if addr + size <= maps[lo - 1].paddr + maps[lo - 1].size { return Some(lo - 1); }
      return None;
    }

    /** `mmu_slow`. */
    method ReadSlow(addr: nat, size: nat) returns (r: Option<Ptr>)
      requires Valid()
      modifies this`tlb
      ensures Valid()
      ensures Found(maps, addr, size).None? ==> r == None
      ensures Found(maps, addr, size).Some? ==> maps[Found(maps, addr, size).value].paddr <= addr &&
                                                r == PtrAt(maps, Found(maps, addr, size), addr)
      ensures size > 0 ==> r == Reads(maps, addr, size)
    {
      var i := FindMap(addr, size);
      if i.None? { return None; }
      var m := maps[i.value];
      tlb := tlb[TlbIndex(addr) := EntryOf(m)];
      return Some(Plus(m.data, addr - m.paddr));
    }

    /** `mmu`: the TLB first. */
    method Read(addr: nat, size: nat) returns (r: Option<Ptr>)
      requires Valid()
      modifies this`tlb
      ensures Valid()
      ensures size > 0 ==> r == Reads(maps, addr, size)
      ensures r.Some? ==> exists i :: 0 <= i < |maps| && Covers(maps[i], addr, size) && r == PtrAt(maps, Some(i), addr)
    {
      if addr + size >= M64 { return None; }
      var e := tlb[TlbIndex(addr)];
      if addr >= e.base && addr + size <= e.end {
        EntryHit(maps, e, addr, size);
        return if e.host.None? then None else Some(Plus(e.host.value, addr - e.base));
      }
      r := ReadSlow(addr, size);
      FoundIsSearch(maps, addr, size);
    }

    /** Whether segment `i` cannot be written in place: other holders share its bytes. */
    predicate Shared(i: nat)
      requires i < |maps|
      reads this
    {
      maps[i].cow && CowCount(maps, maps[i].data.block) + Others(others, maps[i].data.block) != 1
    }

    /** That is, another vm or another segment holds them. */
    lemma SharedIff(i: nat)
      requires i < |maps|
      ensures Shared(i) <==>
              maps[i].cow &&
              (Others(others, maps[i].data.block) > 0 ||
               exists j :: 0 <= j < |maps| && j != i && maps[j].cow && maps[j].data.block == maps[i].data.block)
    {
      if maps[i].cow {
        CowCountOnly(maps, maps[i].data.block, i);
        CowCountPositive(maps, maps[i].data.block, i);
      }
    }

    /** Gives segment `i` bytes of its own: taken over from a shared pointer nobody else holds, or copied. */
    method Unshare(i: nat)
      requires Valid() && i < |maps| && maps[i].cow
      modifies this`maps, this`tlb, this`heap, this`next
      ensures Valid() && Backed(old(maps), old(heap)) && SameContents(old(maps), old(heap), maps, heap)
      ensures |maps| == |old(maps)| && !maps[i].cow
      ensures maps[i].data == if old(Shared(i)) then Ptr(old(next), 0) else old(maps)[i].data
      ensures forall b :: b in old(heap) ==> b in heap && heap[b] == old(heap)[b]
    {
      hide Sorted, Exclusive;
      var m := maps[i];
      if Shared(i) {
        CopyKeeps(maps, heap, others, i, next);
        heap := heap[next := BytesOf(m, heap)];
        maps := maps[i := m.(cow := false, data := Ptr(next, 0))];
        next := next + 1;
      } else {
        StealKeeps(maps, heap, others, i);
        maps := maps[i := m.(cow := false)];
      }
      FlushTlb();
    }

    /**
     * `mmu_w_slow`. `mapped` says whether the host grants memory for a copy.
     * On success the bytes belong to this segment alone; nobody's contents change.
     */
    method WriteSlow(addr: nat, size: nat, mapped: bool) returns (r: Option<Ptr>)
      requires Valid()
      modifies this`maps, this`tlb, this`heap, this`next
      ensures Valid() && Outcome(old(maps), old(heap), addr, size, r)
      ensures r.None? ==> maps == old(maps) && heap == old(heap)
      ensures r.Some? <==> var i := Found(old(maps), addr, size);
                           i.Some? && Writable(old(maps)[i.value].flags) && (old(Shared(Found(maps, addr, size).value)) ==> mapped)
    {
      hide Sorted, Exclusive, Writable, CowCount, SameContents;
      SameSelf(maps, heap);
      var i := FindMap(addr, size);
      if i.None? || !Writable(maps[i.value].flags) || (Shared(i.value) && !mapped) {
        return None;
      }
      if maps[i.value].cow {
        Unshare(i.value);
        SameCovers(old(maps), old(heap), maps, heap, i.value, addr, size);
      }
      var m := maps[i.value];
      tlb := tlb[TlbIndex(addr) := EntryOf(m)];
      r := PtrAt(maps, i, addr);
      if size > 0 { SearchUnique(maps, addr, size, i.value); }
      Alone(maps, others, i.value);
    }

    /** `mmu_w`: the TLB first, for writable entries without copy-on-write. */
    method Write(addr: nat, size: nat, mapped: bool) returns (r: Option<Ptr>)
      requires Valid()
      modifies this`maps, this`tlb, this`heap, this`next
      ensures Valid() && Outcome(old(maps), old(heap), addr, size, r)
      ensures r.None? ==> maps == old(maps) && heap == old(heap)
    {
      if addr + size >= M64 {
        SameSelf(maps, heap);
        return None;
      }
      var e := tlb[TlbIndex(addr)];
      if addr >= e.base && addr + size <= e.end && Writable(e.flags) && !e.cow {
        EntryHit(maps, e, addr, size);
        SameSelf(maps, heap);
        ghost var i :| 0 <= i < |maps| && e == EntryOf(maps[i]);
        if size > 0 { SearchUnique(maps, addr, size, i); }
        Alone(maps, others, i);
        r := Some(Plus(e.host.value, addr - e.base));
        assert r == PtrAt(maps, Some(i), addr);
        return;
      }
      r := WriteSlow(addr, size, mapped);
    }

    /**
     * What a write lookup promises about the state it leaves: the contents of
     * every segment and of every old allocation, and if it succeeds, that it
     * returns what a search finds, in a writable segment nobody else holds.
     */
    ghost predicate Outcome(maps0: seq<Map>, heap0: map<nat, Bytes>, addr: nat, size: nat, r: Option<Ptr>)
      reads this
    {
      Backed(maps0, heap0) && Backed(maps, heap) && SameContents(maps0, heap0, maps, heap) &&
      (forall b :: b in heap0 ==> b in heap && heap[b] == heap0[b]) &&
      (r.Some? ==> exists i :: 0 <= i < |maps| && Granted(i, addr, size, r) && (size > 0 ==> Search(maps0, addr, size) == Some(i)))
    }

    /** `r` points into segment `i`, which holds the range, is writable, and shares its bytes with nobody. */
    ghost predicate Granted(i: nat, addr: nat, size: nat, r: Option<Ptr>)
      requires i < |maps|
      reads this
    {
      Covers(maps[i], addr, size) && r == PtrAt(maps, Some(i), addr) && (size > 0 ==> Search(maps, addr, size) == Some(i)) &&
      Writable(maps[i].flags) && !maps[i].cow && Others(others, maps[i].data.block) == 0 &&
      forall j :: 0 <= j < |maps| && j != i ==> maps[j].data.block != maps[i].data.block
    }
  }

  lemma SameSelf(maps: seq<Map>, heap: map<nat, Bytes>)
    requires Backed(maps, heap)
    ensures SameContents(maps, heap, maps, heap)
  {
  }

  lemma SameCovers(maps: seq<Map>, heap: map<nat, Bytes>, maps': seq<Map>, heap': map<nat, Bytes>, i: nat, addr: nat, size: nat)
    requires Backed(maps, heap) && Backed(maps', heap') && SameContents(maps, heap, maps', heap')
    requires i < |maps| && Covers(maps[i], addr, size)
    ensures Covers(maps'[i], addr, size) && maps'[i].flags == maps[i].flags
  {
  }

  lemma Alone(maps: seq<Map>, others: map<nat, nat>, i: nat)
    requires Exclusive(maps, others) && i < |maps| && !maps[i].cow
    ensures Others(others, maps[i].data.block) == 0
    ensures forall j :: 0 <= j < |maps| && j != i ==> maps[j].data.block != maps[i].data.block
  {
  }

  /** A hit in a faithful entry names a segment that holds the range; for non-empty ranges, the one the search finds. */
  lemma EntryHit(maps: seq<Map>, e: Entry, addr: nat, size: nat)
    requires Sorted(maps) && (e == ZERO || exists i :: 0 <= i < |maps| && e == EntryOf(maps[i]))
    requires addr >= e.base && addr + size <= e.end
    ensures e.host.Some? ==> exists i :: 0 <= i < |maps| && e == EntryOf(maps[i]) && Covers(maps[i], addr, size)
    ensures size > 0 ==> e.host.Some? && Reads(maps, addr, size) == Some(Plus(e.host.value, addr - e.base))
  {
    if e != ZERO {
      var i :| 0 <= i < |maps| && e == EntryOf(maps[i]);
      if size > 0 { SearchUnique(maps, addr, size, i); }
    }
  }

  /** What the fast path answers on a hit. */
  function HitAnswer(e: Entry, addr: nat): Option<Ptr>
    requires e.base <= addr
  {
    if e.host.None? then None else Some(Plus(e.host.value, addr - e.base))
  }

  /** `e` can be in the TLB over `maps` and hits at `addr`. */
  ghost predicate Hits(maps: seq<Map>, e: Entry, addr: nat, size: nat)
  {
    Sorted(maps) && (e == ZERO || exists i :: 0 <= i < |maps| && e == EntryOf(maps[i])) &&
    e.base <= addr && addr + size <= e.end
  }

  ghost predicate FastEqualsSlow(maps: seq<Map>, e: Entry, addr: nat, size: nat)
    requires Hits(maps, e, addr, size)
  {
    var f := Found(maps, addr, size);
    FoundIsSearch(maps, addr, size);
    HitAnswer(e, addr) == PtrAt(maps, f, addr)
  }

  /**
   * A hit always gives the slow path's answer exactly when the range is not
   * empty: an empty range at the border of two segments is found in either,
   * and at address 0 the zeroed entry hits.
   */
  lemma FastEqualsSlowIff(size: nat)
    ensures (forall maps, e, addr: nat | Hits(maps, e, addr, size) :: FastEqualsSlow(maps, e, addr, size)) <==> size > 0
  {
    if size > 0 {
      forall maps, e, addr: nat | Hits(maps, e, addr, size)
        ensures FastEqualsSlow(maps, e, addr, size)
      {
        EntryHit(maps, e, addr, size);
        FoundIsSearch(maps, addr, size);
      }
    } else {
      var a, b := Map(0x1000, 0x1000, 0, Ptr(0, 0), false), Map(0x2000, 0x1000, 0, Ptr(1, 0), false);
      var maps := [a, b];
      assert maps[0] == a;
      BelowSplits(maps, 0x2000, 2);
      assert Hits(maps, EntryOf(a), 0x2000, 0);
      assert !FastEqualsSlow(maps, EntryOf(a), 0x2000, 0);
    }
  }

  lemma InsertSorted(maps: seq<Map>, m: Map, k: nat)
    requires Sorted(maps) && k <= |maps| && m.size > 0 && m.paddr + m.size < M64
    requires forall i :: 0 <= i < |maps| ==> Disjoint(maps[i], m)
    requires forall i :: 0 <= i < k ==> maps[i].paddr < m.paddr
    requires k < |maps| ==> maps[k].paddr >= m.paddr
    ensures Sorted(maps[..k] + [m] + maps[k..])
  {
    var s := maps[..k] + [m] + maps[k..];
    forall i, j | 0 <= i < j < |s|
      ensures s[i].paddr + s[i].size <= s[j].paddr
    {
      var p := if i < k then i else i - 1;
      var q := if j < k then j else j - 1;
      if i == k {
        assert s[j] == maps[q];
        assert k < q ==> maps[k].paddr + maps[k].size <= maps[q].paddr;
      } else if j == k {
        assert s[i] == maps[p];
      } else {
        assert s[i] == maps[p] && s[j] == maps[q];
      }
    }
  }

  lemma InsertExclusive(maps: seq<Map>, m: Map, k: nat, others: map<nat, nat>)
    requires k <= |maps| && Exclusive(maps + [m], others)
    ensures Exclusive(maps[..k] + [m] + maps[k..], others)
  {
    var s, t := maps[..k] + [m] + maps[k..], maps + [m];
    forall i | 0 <= i < |s|
      ensures s[i] == t[if i < k then i else if i == k then |maps| else i - 1]
    {
    }
  }

  lemma InsertBacked(maps: seq<Map>, m: Map, k: nat, heap: map<nat, Bytes>)
    requires k <= |maps| && Backed(maps, heap) && m.data.block in heap && m.data.off + m.size <= |heap[m.data.block]|
    ensures Backed(maps[..k] + [m] + maps[k..], heap)
  {
    var s := maps[..k] + [m] + maps[k..];
    forall i | 0 <= i < |s|
      ensures s[i].data.block in heap && s[i].data.off + s[i].size <= |heap[s[i].data.block]|
    {
      assert s[i] == if i < k then maps[i] else if i == k then m else maps[i - 1];
    }
  }

  lemma InsertMultiset(maps: seq<Map>, m: Map, k: nat)
    requires k <= |maps|
    ensures multiset(maps[..k] + [m] + maps[k..]) == multiset(maps) + multiset{m}
  {
    assert maps == maps[..k] + maps[k..];
  }

  lemma RemoveKeeps(maps: seq<Map>, k: nat, heap: map<nat, Bytes>, others: map<nat, nat>)
    requires k < |maps| && Sorted(maps) && Backed(maps, heap) && Exclusive(maps, others)
    ensures var s := maps[..k] + maps[k + 1..]; Sorted(s) && Backed(s, heap) && Exclusive(s, others)
  {
    var s := maps[..k] + maps[k + 1..];
    assert forall i :: 0 <= i < |s| ==> s[i] == maps[if i < k then i else i + 1];
  }

  /** Taking over bytes whose only shared holder is this segment. */
  lemma StealKeeps(maps: seq<Map>, heap: map<nat, Bytes>, others: map<nat, nat>, i: nat)
    requires i < |maps| && maps[i].cow && Sorted(maps) && Backed(maps, heap) && Exclusive(maps, others)
    requires CowCount(maps, maps[i].data.block) + Others(others, maps[i].data.block) == 1
    ensures var s := maps[i := maps[i].(cow := false)];
            Sorted(s) && Backed(s, heap) && Exclusive(s, others) && SameContents(maps, heap, s, heap)
  {
    CowCountPositive(maps, maps[i].data.block, i);
    CowCountOne(maps, maps[i].data.block, i);
  }

  /** Moving a segment to a fresh copy of its bytes. */
  lemma CopyKeeps(maps: seq<Map>, heap: map<nat, Bytes>, others: map<nat, nat>, i: nat, next: nat)
    requires i < |maps| && maps[i].cow && Sorted(maps) && Backed(maps, heap) && Exclusive(maps, others)
    requires next !in heap && next !in others
    ensures var heap' := heap[next := BytesOf(maps[i], heap)];
            var s := maps[i := maps[i].(cow := false, data := Ptr(next, 0))];
            Sorted(s) && Backed(s, heap') && Exclusive(s, others) && SameContents(maps, heap, s, heap')
  {
    var heap' := heap[next := BytesOf(maps[i], heap)];
    var s := maps[i := maps[i].(cow := false, data := Ptr(next, 0))];
    var b := BytesOf(maps[i], heap);
    assert b[0..0 + maps[i].size] == b;
  }
}
