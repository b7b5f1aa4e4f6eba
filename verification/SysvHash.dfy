/**
 * The `.hash` section the linker builds over the dynamic symbols
 * (`src/elf_linker.cpp`; the System V gABI, chapter 5, "Hash Table"), and
 * the lookup a loader performs in it.
 */
module SysvHash {
  import opened ByteVectors
  import W = Words
  import L = Leb128
  import M = BitLaws

  const M32: nat := 0x1_0000_0000
  const M28: nat := 0x1000_0000
  const M24: nat := 0x100_0000

  type Name = s: seq<int> | forall i :: 0 <= i < |s| ==> 0 < s[i] < 256 witness []

  /** One round: shift in a byte, fold the top nibble back, clear it. */
  function Round(h: nat, c: nat): (r: nat)
    ensures r < M28
  {
    var h1 := (h * 16 + c) % M32;
    var g := h1 / M28 * M28;
    W.BitXor(h1, g / M24) % M28
  }

  function ElfHash(name: Name): (h: nat)
    ensures h < M28
  {
    if name == [] then 0 else Round(ElfHash(name[..|name| - 1]), name[|name| - 1])
  }

  /** `elf_hash`. */
  method ComputeHash(name: Name) returns (h: nat)
    ensures h == ElfHash(name)
  {
    hide Round;
    h := 0;
    assert name[..0] == [];
    for i := 0 to |name|
      invariant h == ElfHash(name[..i])
    {
      assert name[..i + 1][..i] == name[..i];
      RoundSteps(h, name[i]);
      h := (h * 16 + name[i]) % M32;
      var g := h / M28 * M28;
      if g != 0 { h := W.BitXor(h, g / M24); }
      h := h % M28;
    }
    assert name[..|name|] == name;
  }

  /** Without a top nibble there is nothing to fold. */
  lemma RoundSteps(h: nat, c: nat)
    ensures var h1 := (h * 16 + c) % M32;
            var g := h1 / M28 * M28;
            Round(h, c) == (if g != 0 then W.BitXor(h1, g / M24) else h1) % M28
  {
    var h1 := (h * 16 + c) % M32;
    assert h1 / M28 * M28 == 0 ==> W.BitXor(h1, 0) == h1;
  }

  /**
   * The round of the gABI, bit by bit: of `16 h + c` in 32 bits the low 28 stay,
   * with the four top ones exclusive-ored onto bits 4 to 7.
   */
  lemma RoundBits(h: nat, c: nat, k: nat)
    requires k < 28
    ensures var h1 := (16 * h + c) % 0x1_0000_0000;
            M.Bit(Round(h, c), k) == if 4 <= k < 8 then M.Bit(h1, k) != M.Bit(h1, k + 24) else M.Bit(h1, k)
  {
    hide M.Bit, W.BitXor;
    W.Pow2Constants();
    W.Pow2Add(16, 12);
    W.Pow2Add(24, 4);
    assert L.Pow2(4) == 16 && L.Pow2(12) == 16 * L.Pow2(8) by { W.Pow2Add(4, 8); }
    var h1 := (16 * h + c) % M32;
    assert h * 16 + c == 16 * h + c;
    var top := h1 / M28;
    var x := W.BitXor(h1, top * 16);
    assert top * M28 / M24 == top * 16;
    M.BitMod(x, 28, k);
    M.XorBits(h1, top * 16, k);
    M.BitUp(top, 4, k);
    if k >= 4 {
      M.BitDown(h1, 28, k - 4);
      if k >= 8 { M.BitsAbove(top, 4, k - 4); }
    }
  }

  /** Symbol names by index; index 0 and nameless symbols are the empty name. */
  function BucketCount(names: seq<Name>): (n: nat)
    ensures n >= 2
  {
    if |names| > 1 then |names| else 2
  }

  function BucketOf(names: seq<Name>, name: Name): (b: nat)
    ensures b < BucketCount(names)
  {
    ElfHash(name) % BucketCount(names)
  }

  predicate Named(names: seq<Name>, i: nat)
  {
    0 < i < |names| && names[i] != []
  }

  datatype Table = Table(buckets: seq<nat>, chains: seq<nat>)

  /** The chain of bucket `b`, as a list of indices below `n`. */
  ghost predicate IsChain(names: seq<Name>, t: Table, b: nat, xs: seq<nat>, n: nat)
    requires b < |t.buckets|
  {
    |t.chains| == |names| &&
    t.buckets[b] == (if xs == [] then 0 else xs[0]) &&
    (forall k :: 0 <= k < |xs| ==> xs[k] < n && Named(names, xs[k]) && BucketOf(names, names[xs[k]]) == b) &&
    (forall j, k :: 0 <= j < k < |xs| ==> xs[j] < xs[k]) &&
    forall k :: 0 <= k < |xs| ==> LinksOn(t, xs, k)
  }

  /** From position `k` the chain goes to the next position, or ends. */
  predicate LinksOn(t: Table, xs: seq<nat>, k: nat)
    requires k < |xs|
  {
    xs[k] < |t.chains| && t.chains[xs[k]] == if k + 1 < |xs| then xs[k + 1] else 0
  }

  /** One list per bucket, together holding every named symbol below `n`. */
  ghost predicate Covers(names: seq<Name>, t: Table, lists: seq<seq<nat>>, n: nat)
  {
    |t.buckets| == |lists| == BucketCount(names) && |t.chains| == |names| &&
    (forall b :: 0 <= b < |lists| ==> IsChain(names, t, b, lists[b], n)) &&
    (forall i: nat :: i < n && Named(names, i) ==> i in lists[BucketOf(names, names[i])]) &&
    forall i :: n <= i < |names| ==> t.chains[i] == 0
  }

  /** Adding symbol `i` behind the tail of its bucket. */
  function Linked(t: Table, b: nat, tail: nat, i: nat): Table
    requires b < |t.buckets| && tail < |t.chains|
  {
    if tail == 0 then t.(buckets := t.buckets[b := i]) else t.(chains := t.chains[tail := i])
  }

  lemma LinkKeeps(names: seq<Name>, t: Table, lists: seq<seq<nat>>, i: nat)
    requires Covers(names, t, lists, i) && Named(names, i)
    ensures |lists| == BucketCount(names) && |t.buckets| == |lists|
    ensures var b := BucketOf(names, names[i]);
            var xs := lists[b];
            var tail := if xs == [] then 0 else xs[|xs| - 1];
            tail < |t.chains| && Covers(names, Linked(t, b, tail, i), lists[b := xs + [i]], i + 1)
  {
    hide BucketOf, IsChain;
    var b := BucketOf(names, names[i]);
    var xs := lists[b];
    var tail := if xs == [] then 0 else xs[|xs| - 1];
    TailOf(names, t, b, xs, i);
    var t' := Linked(t, b, tail, i);
    var lists' := lists[b := xs + [i]];
    forall c | 0 <= c < |lists'|
      ensures IsChain(names, t', c, lists'[c], i + 1)
    {
      if c == b {
        ChainGrows(names, t, b, xs, i);
      } else {
        OtherChain(names, t, b, tail, i, c, lists[c]);
      }
    }
    forall j: nat | j < i + 1 && Named(names, j)
      ensures j in lists'[BucketOf(names, names[j])]
    {
      if j == i {
        assert (xs + [i])[|xs|] == i;
      } else if BucketOf(names, names[j]) == b {
        assert j in xs;
      }
    }
  }

  /** The last index of a chain belongs to its bucket. */
  lemma TailOf(names: seq<Name>, t: Table, b: nat, xs: seq<nat>, i: nat)
    requires b < |t.buckets| && IsChain(names, t, b, xs, i) && i < |names|
    ensures var tail := if xs == [] then 0 else xs[|xs| - 1];
            tail < |t.chains| && tail <= i &&
            (tail != 0 ==> tail < i && Named(names, tail) && BucketOf(names, names[tail]) == b)
  {
    hide BucketOf;
  }

  lemma ChainGrows(names: seq<Name>, t: Table, b: nat, xs: seq<nat>, i: nat)
    requires b < |t.buckets| && IsChain(names, t, b, xs, i) && Named(names, i) && BucketOf(names, names[i]) == b && t.chains[i] == 0
    ensures var tail := if xs == [] then 0 else xs[|xs| - 1];
            tail < |t.chains| && IsChain(names, Linked(t, b, tail, i), b, xs + [i], i + 1)
  {
    hide BucketOf;
    var tail := if xs == [] then 0 else xs[|xs| - 1];
    var t', ys := Linked(t, b, tail, i), xs + [i];
    forall k | 0 <= k < |ys|
      ensures LinksOn(t', ys, k)
    {
      if k < |xs| { assert LinksOn(t, xs, k); }
    }
  }

  lemma OtherChain(names: seq<Name>, t: Table, b: nat, tail: nat, i: nat, c: nat, ys: seq<nat>)
    requires b < |t.buckets| && c < |t.buckets| && b != c && tail < |t.chains| && IsChain(names, t, c, ys, i)
    requires tail != 0 ==> Named(names, tail) && BucketOf(names, names[tail]) == b
    ensures IsChain(names, Linked(t, b, tail, i), c, ys, i + 1)
  {
    hide BucketOf;
    var t' := Linked(t, b, tail, i);
    forall k | 0 <= k < |ys|
      ensures LinksOn(t', ys, k)
    {
      assert LinksOn(t, ys, k);
    }
  }

  /** Every bucket's chain holds exactly the named symbols that hash to it, in order. */
  ghost predicate Complete(names: seq<Name>, t: Table)
  {
    exists lists: seq<seq<nat>> :: Covers(names, t, lists, |names|)
  }

  /** The construction loop: buckets, chains and the tails it keeps on the side. */
  method Build(names: seq<Name>) returns (t: Table)
    requires names != []
    ensures Complete(names, t)
  {
    hide BucketOf, Covers;
    var n := BucketCount(names);
    t := Table(seq(n, _ => 0), seq(|names|, _ => 0));
    ghost var lists: seq<seq<nat>> := seq(n, _ => []);
    var last := seq(n, _ => 0);
    EmptyCovers(names, t, lists);
    for i := 1 to |names|
      invariant Covers(names, t, lists, i) && |last| == |lists| == n && |t.buckets| == n && |t.chains| == |names|
      invariant forall b :: 0 <= b < n ==> last[b] == if lists[b] == [] then 0 else lists[b][|lists[b]| - 1]
    {
      if names[i] == [] {
        SkipKeeps(names, t, lists, i);
      } else {
        var h := ComputeHash(names[i]);
        var b := BucketIndex(names, i, h);
        LinkKeeps(names, t, lists, i);
        lists := lists[b := lists[b] + [i]];
        t := Linked(t, b, last[b], i);
        last := last[b := i];
      }
    }
  }

  lemma EmptyCovers(names: seq<Name>, t: Table, lists: seq<seq<nat>>)
    requires |t.buckets| == |lists| == BucketCount(names) && |t.chains| == |names| && names != []
    requires forall b :: 0 <= b < |lists| ==> lists[b] == [] && t.buckets[b] == 0
    requires forall i :: 0 <= i < |names| ==> t.chains[i] == 0
    ensures Covers(names, t, lists, 1)
  {
    hide BucketOf;
  }

  method BucketIndex(names: seq<Name>, i: nat, h: nat) returns (b: nat)
    requires i < |names| && h == ElfHash(names[i])
    ensures b == BucketOf(names, names[i])
  {
    b := h % BucketCount(names);
  }

  lemma SkipKeeps(names: seq<Name>, t: Table, lists: seq<seq<nat>>, i: nat)
    requires Covers(names, t, lists, i) && i < |names| && names[i] == []
    ensures Covers(names, t, lists, i + 1)
  {
    hide BucketOf;
    forall b | 0 <= b < |lists|
      ensures IsChain(names, t, b, lists[b], i + 1)
    {
      assert IsChain(names, t, b, lists[b], i);
    }
  }

  // ---------------------------------------------------------------------------
  // Lookup
  // ---------------------------------------------------------------------------

  /** Linear search: the first symbol of that name. */
  ghost predicate FirstNamed(names: seq<Name>, name: Name, i: nat)
  {
    Named(names, i) && names[i] == name && forall j :: 0 < j < i ==> names[j] != name
  }

  /**
   * The loader's lookup: hash, bucket, chain. It ends because chains only go
   * up, and it finds the first symbol of the name exactly when there is one.
   */
  method Lookup(names: seq<Name>, t: Table, name: Name) returns (r: nat)
    requires Complete(names, t) && name != [] && names != []
    ensures r != 0 ==> FirstNamed(names, name, r)
    ensures r == 0 <==> forall j :: 0 < j < |names| ==> names[j] != name
  {
    hide BucketOf;
    var h := ComputeHash(name);
    var b := h % BucketCount(names);
    assert b == BucketOf(names, name) by { BucketDef(names, name, h); }
    ghost var lists: seq<seq<nat>> :| Covers(names, t, lists, |names|);
    ghost var xs := lists[b];
    assert IsChain(names, t, b, xs, |names|);
    r := t.buckets[b];
    ghost var k := 0;
    while r != 0 && names[r] != name
      invariant 0 <= k <= |xs| && r == (if k < |xs| then xs[k] else 0)
      invariant r < |names| && forall j :: 0 <= j < k ==> names[xs[j]] != name
      decreases |xs| - k
    {
      assert LinksOn(t, xs, k);
      r := t.chains[r];
      k := k + 1;
    }
    ChainComplete(names, t, lists, name, b, k);
  }

  lemma BucketDef(names: seq<Name>, name: Name, h: nat)
    requires h == ElfHash(name)
    ensures h % BucketCount(names) == BucketOf(names, name)
  {
  }

  /** Symbols of the name that precede position `k` of its chain do not exist. */
  lemma ChainComplete(names: seq<Name>, t: Table, lists: seq<seq<nat>>, name: Name, b: nat, k: nat)
    requires Covers(names, t, lists, |names|) && name != [] && b == BucketOf(names, name)
    requires k <= |lists[b]| && IsChain(names, t, b, lists[b], |names|)
    requires forall j :: 0 <= j < k ==> names[lists[b][j]] != name
    ensures forall i :: 0 < i < |names| && (k < |lists[b]| ==> i < lists[b][k]) ==> names[i] != name
  {
    hide BucketOf, IsChain;
    var xs := lists[b];
    ChainIncreases(names, t, b, xs);
    forall i | 0 < i < |names| && (k < |xs| ==> i < xs[k])
      ensures names[i] != name
    {
      assert names[i] == name ==> Named(names, i) && i in xs;
    }
  }

  lemma ChainIncreases(names: seq<Name>, t: Table, b: nat, xs: seq<nat>)
    requires b < |t.buckets| && IsChain(names, t, b, xs, |names|)
    ensures forall j, k :: 0 <= j < k < |xs| ==> xs[j] < xs[k]
    ensures forall k :: 0 <= k < |xs| - 1 ==> xs[k] < |t.chains| && xs[k] < t.chains[xs[k]]
  {
    hide BucketOf;
    forall k | 0 <= k < |xs| - 1
      ensures xs[k] < |t.chains| && xs[k] < t.chains[xs[k]]
    {
      assert LinksOn(t, xs, k);
    }
  }
}
