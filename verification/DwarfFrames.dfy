/**
 * Which frame size belongs to an entry of .debug_info, said of the tree of
 * entries and of the contents of .debug_addr: the frame size recorded for the
 * address of the innermost function around the entry.
 */
module DwarfFrames {
  import opened Leb128
  import opened ByteVectors
  import opened DwarfUnit
  import opened DwarfRewrite

  // ---------------------------------------------------------------------------
  // The tree
  // ---------------------------------------------------------------------------

  predicate HasChildren(tab: AbbrevTable, d: Die)
  {
    d.code != 0 && d.code in tab && tab[d.code].hasChildren
  }

  predicate Closes(tab: AbbrevTable, d: Die)
  {
    d.code == 0 || d.code !in tab
  }

  /** How many child lists are open when entry `k` starts. */
  function Depth(tab: AbbrevTable, ds: seq<Die>, k: nat): nat
    requires k <= |ds|
    decreases k
  {
    if k == 0 then 0
    else
      var n := Depth(tab, ds, k - 1);
      if HasChildren(tab, ds[k - 1]) then n + 1
      else if Closes(tab, ds[k - 1]) && n > 0 then n - 1
      else n
  }

  /** Entry `k` lies in the child list of entry `j`, at any depth. */
  predicate Encloses(tab: AbbrevTable, ds: seq<Die>, j: nat, k: nat)
    requires k <= |ds|
  {
    j < k && HasChildren(tab, ds[j]) && forall p :: j < p <= k ==> Depth(tab, ds, p) > Depth(tab, ds, j)
  }

  lemma {:induction false} OpenParentsDepth(tab: AbbrevTable, ds: seq<Die>, k: nat)
    requires k <= |ds|
    ensures var r := OpenParents(tab, ds, k);
            |r| == Depth(tab, ds, k) &&
            (forall i :: 0 <= i < |r| ==> Encloses(tab, ds, r[i], k) && Depth(tab, ds, r[i]) == i)
    decreases k
  {
    if k > 0 {
      OpenParentsDepth(tab, ds, k - 1);
      var open, r := OpenParents(tab, ds, k - 1), OpenParents(tab, ds, k);
      forall i | 0 <= i < |r|
        ensures Encloses(tab, ds, r[i], k) && Depth(tab, ds, r[i]) == i
      {
        if i < |open| {
          assert r[i] == open[i];
          assert Encloses(tab, ds, open[i], k - 1);
        }
      }
    }
  }

  /** The open parents are the enclosing entries, from the outside in. */
  lemma {:induction false} OpenParentsEnclose(tab: AbbrevTable, ds: seq<Die>, j: nat, k: nat)
    requires k <= |ds|
    ensures j in OpenParents(tab, ds, k) <==> Encloses(tab, ds, j, k)
    decreases k
  {
    OpenParentsDepth(tab, ds, k);
    if Encloses(tab, ds, j, k) {
      StillOpen(tab, ds, j, k);
    }
  }

  lemma {:induction false} StillOpen(tab: AbbrevTable, ds: seq<Die>, j: nat, k: nat)
    requires k <= |ds| && Encloses(tab, ds, j, k)
    ensures Depth(tab, ds, j) < |OpenParents(tab, ds, k)| && OpenParents(tab, ds, k)[Depth(tab, ds, j)] == j
    decreases k
  {
    OpenParentsDepth(tab, ds, k);
    OpenParentsDepth(tab, ds, k - 1);
    if j < k - 1 {
      StillOpen(tab, ds, j, k - 1);
    }
  }

  predicate Increasing(r: seq<nat>)
  {
    forall a, b :: 0 <= a < b < |r| ==> r[a] < r[b]
  }

  lemma {:induction false} ParentsIncrease(tab: AbbrevTable, ds: seq<Die>, k: nat)
    requires k <= |ds|
    ensures Increasing(OpenParents(tab, ds, k))
    decreases k
  {
    if k > 0 {
      ParentsIncrease(tab, ds, k - 1);
      var open, r := OpenParents(tab, ds, k - 1), OpenParents(tab, ds, k);
      forall a, b | 0 <= a < b < |r|
        ensures r[a] < r[b]
      {
        assert r[a] == open[a];
        if b < |open| {
          assert r[b] == open[b] && open[a] < open[b];
        } else {
          assert r[b] == k - 1 && open[a] < k - 1;
        }
      }
    }
  }

  // ---------------------------------------------------------------------------
  // Attributes
  // ---------------------------------------------------------------------------

  /** The one DW_AT_low_pc of an entry. */
  predicate OnlyLowPc(fields: seq<Field>, i: nat)
  {
    i < |fields| && forall n :: 0 <= n < |fields| ==> (fields[n].attr.name == 0x11 <==> n == i)
  }

  predicate NoLowPc(fields: seq<Field>)
  {
    forall n :: 0 <= n < |fields| ==> fields[n].attr.name != 0x11
  }

  lemma {:induction false} NoLowPcFound(fields: seq<Field>, low: LowPc)
    requires NoLowPc(fields)
    ensures LowPcOf(fields, low) == low
    decreases |fields|
  {
    if fields != [] {
      NoLowPcFound(fields[1..], low);
    }
  }

  lemma {:induction false} LowPcFound(fields: seq<Field>, i: nat)
    requires OnlyLowPc(fields, i)
    ensures LowPcOf(fields, NO_LOW_PC) == NoteLowPc(fields[i], NO_LOW_PC)
    decreases |fields|
  {
    hide NoteLowPc;
    if i == 0 {
      NoLowPcFound(fields[1..], NoteLowPc(fields[0], NO_LOW_PC));
    } else {
      assert NoteLowPc(fields[0], NO_LOW_PC) == NO_LOW_PC by { Other(fields[0]); }
      LowPcFound(fields[1..], i - 1);
    }
  }

  lemma Other(f: Field)
    requires f.attr.name != 0x11
    ensures NoteLowPc(f, NO_LOW_PC) == NO_LOW_PC
  {
  }

  predicate IsAddrBase(f: Field)
  {
    f.attr == Attr(0x73, 0x17)
  }

  /** A DW_AT_addr_base of the entries `0 .. j`, those of `j` included. */
  predicate AddrBaseIn(tab: AbbrevTable, ds: seq<Die>, j: nat, q: nat, i: nat)
    requires j < |ds|
  {
    q <= j && !Closes(tab, ds[q]) && i < |ds[q].fields| && IsAddrBase(ds[q].fields[i])
  }

  /** The base in force in entry `j`: the last one set, 8 if there is none. */
  ghost predicate AddrBaseIs(tab: AbbrevTable, ds: seq<Die>, j: nat, base: nat)
    requires j < |ds|
  {
    if exists q: nat, i: nat :: AddrBaseIn(tab, ds, j, q, i) then
      exists q: nat, i: nat :: AddrBaseIn(tab, ds, j, q, i) && base == FromLe(ds[q].fields[i].raw) &&
        forall q': nat, i': nat :: AddrBaseIn(tab, ds, j, q', i') ==> q' < q || (q' == q && i' <= i)
    else base == 8
  }

  lemma {:induction false} BaseInFields(fields: seq<Field>, base: nat)
    returns (last: Option<nat>)
    ensures last.Some? ==> last.value < |fields| && IsAddrBase(fields[last.value]) &&
                           AddrBaseOf(fields, base) == FromLe(fields[last.value].raw) &&
                           forall n :: last.value < n < |fields| ==> !IsAddrBase(fields[n])
    ensures last.None? ==> AddrBaseOf(fields, base) == base && forall n :: 0 <= n < |fields| ==> !IsAddrBase(fields[n])
    decreases |fields|
  {
    if fields == [] {
      last := None;
    } else {
      var b := if IsAddrBase(fields[0]) then FromLe(fields[0].raw) else base;
      var rest := BaseInFields(fields[1..], b);
      forall n | 0 < n < |fields|
        ensures fields[n] == fields[1..][n - 1]
      {
      }
      last := if rest.Some? then Some(rest.value + 1) else if IsAddrBase(fields[0]) then Some(0) else None;
    }
  }

  lemma {:induction false} BaseInForce(tab: AbbrevTable, ds: seq<Die>, j: nat)
    requires j < |ds|
    ensures AddrBaseIs(tab, ds, j, AddrBaseAt(tab, ds, j + 1))
    decreases j
  {
    hide AddrBaseOf, FromLe;
    var q, i := BaseFound(tab, ds, j);
    if q.Some? {
      assert AddrBaseIn(tab, ds, j, q.value, i);
    }
  }

  lemma {:induction false} BaseFound(tab: AbbrevTable, ds: seq<Die>, j: nat) returns (q: Option<nat>, i: nat)
    requires j < |ds|
    ensures q.Some? ==> AddrBaseIn(tab, ds, j, q.value, i) && AddrBaseAt(tab, ds, j + 1) == FromLe(ds[q.value].fields[i].raw) &&
                        forall q': nat, i': nat :: AddrBaseIn(tab, ds, j, q', i') ==> q' < q.value || (q' == q.value && i' <= i)
    ensures q.None? ==> AddrBaseAt(tab, ds, j + 1) == 8 && forall q': nat, i': nat :: !AddrBaseIn(tab, ds, j, q', i')
    decreases j
  {
    hide AddrBaseOf, FromLe;
    q, i := None, 0;
    if j > 0 {
      q, i := BaseFound(tab, ds, j - 1);
      forall q': nat, i': nat | AddrBaseIn(tab, ds, j, q', i') && q' < j
        ensures AddrBaseIn(tab, ds, j - 1, q', i')
      {
      }
    }
    if !Closes(tab, ds[j]) {
      var n := BaseInFields(ds[j].fields, AddrBaseAt(tab, ds, j));
      assert AddrBaseAt(tab, ds, j + 1) == AddrBaseOf(ds[j].fields, AddrBaseAt(tab, ds, j));
      if n.Some? { q, i := Some(j), n.value; }
    }
  }

  // ---------------------------------------------------------------------------
  // .debug_addr
  // ---------------------------------------------------------------------------

  type Address = a: int | 0 <= a < 0x1_0000_0000_0000_0000

  /** The addresses of .debug_addr, one behind the other. */
  function AddressBytes(addrs: seq<Address>): (s: Bytes)
    ensures |s| == 8 * |addrs|
  {
    if addrs == [] then [] else Le(8, addrs[0]) + AddressBytes(addrs[1..])
  }

  lemma {:induction false} AddressAt(pre: Bytes, addrs: seq<Address>, post: Bytes, n: nat)
    requires n < |addrs|
    ensures |pre| + 8 * n + 8 <= |pre + AddressBytes(addrs) + post|
    ensures FromLe((pre + AddressBytes(addrs) + post)[|pre| + 8 * n..|pre| + 8 * n + 8]) == addrs[n]
    decreases n
  {
    hide Le, FromLe;
    var s := pre + AddressBytes(addrs) + post;
    if n == 0 {
      EightBytes(addrs[0]);
      assert s[|pre|..|pre| + 8] == Le(8, addrs[0]);
    } else {
      var pre', rest := pre + Le(8, addrs[0]), addrs[1..];
      assert s == pre' + AddressBytes(rest) + post;
      AddressAt(pre', rest, post, n - 1);
    }
  }

  lemma EightBytes(a: Address)
    ensures FromLe(Le(8, a)) == a
  {
    assert Pow256(8) == 0x1_0000_0000_0000_0000 by {
      assert Pow256(4) == 256 * Pow256(3) == 0x1_0000 * Pow256(2);
      assert Pow256(8) == 256 * Pow256(7) == 0x1_0000 * Pow256(6);
      assert Pow256(6) == 256 * Pow256(5) == 0x1_0000 * Pow256(4);
    }
    LeRoundTrip(8, a);
  }

  /** The value of DW_FORM_addrx (0x1b) and DW_FORM_addrx1..4 (0x29..0x2c). */
  predicate AddressIndex(f: Field, n: nat)
  {
    (f.attr.form == 0x1b && n == DecodeUnsigned(f.raw).value) ||
    (f.attr.form in {0x29, 0x2a, 0x2b, 0x2c} && n == FromLe(f.raw))
  }

  function Known(env: Env, address: nat): Option<nat>
  {
    if address in env.frameSizes then Some(env.frameSizes[address]) else None
  }

  // ---------------------------------------------------------------------------
  // The frame size of an entry
  // ---------------------------------------------------------------------------

  /** Entry `j` is the innermost subprogram with an address around entry `k`. */
  predicate InnermostFunction(tab: AbbrevTable, ds: seq<Die>, j: nat, i: nat, k: nat)
    requires k <= |ds|
  {
    Encloses(tab, ds, j, k) && tab[ds[j].code].tag == 0x2e && OnlyLowPc(ds[j].fields, i) &&
    forall q :: j < q < k && Encloses(tab, ds, q, k) ==> tab[ds[q].code].tag != 0x2e || NoLowPc(ds[q].fields)
  }

  lemma {:induction false} WalkOutwards(tab: AbbrevTable, env: Env, ds: seq<Die>, parents: seq<nat>, a: nat)
    requires (forall i :: 0 <= i < |parents| ==> parents[i] < |ds|) && a < |parents|
    requires forall i :: a < i < |parents| ==> !IsFunction(tab, ds[parents[i]])
    ensures EnclosingFrame(tab, env, ds, parents) == EnclosingFrame(tab, env, ds, parents[..a + 1])
    decreases |parents|
  {
    hide IsFunction;
    if a + 1 == |parents| {
      assert parents[..a + 1] == parents;
    } else {
      var outer := parents[..|parents| - 1];
      WalkOutwards(tab, env, ds, outer, a);
      assert outer[..a + 1] == parents[..a + 1];
    }
  }

  lemma FunctionAround(tab: AbbrevTable, env: Env, ds: seq<Die>, j: nat, i: nat, k: nat)
    requires k <= |ds| && InnermostFunction(tab, ds, j, i, k) && NoteLowPc(ds[j].fields[i], NO_LOW_PC).found
    ensures FrameAt(tab, env, ds, k) == FunctionFrame(env, AddrBaseAt(tab, ds, j + 1), NoteLowPc(ds[j].fields[i], NO_LOW_PC))
  {
    hide NoteLowPc, FunctionFrame, AddrBaseAt, Depth;
    var r := OpenParents(tab, ds, k);
    OpenParentsEnclose(tab, ds, j, k);
    ParentsIncrease(tab, ds, k);
    var a :| 0 <= a < |r| && r[a] == j;
    forall b | a < b < |r|
      ensures !IsFunction(tab, ds[r[b]])
    {
      OpenParentsEnclose(tab, ds, r[b], k);
      if NoLowPc(ds[r[b]].fields) { NoLowPcFound(ds[r[b]].fields, NO_LOW_PC); }
    }
    WalkOutwards(tab, env, ds, r, a);
    LowPcFound(ds[j].fields, i);
    assert r[..a + 1][a] == j;
  }

  /**
   * An indexed function: DW_AT_low_pc is the number of an address of
   * .debug_addr, counted from the base in force. What the entries inside it
   * are corrected by is the frame size known for that address, and nothing if
   * none is known.
   */
  lemma IndexedFunctionFrame(tab: AbbrevTable, env: Env, ds: seq<Die>, j: nat, i: nat, k: nat,
                             pre: Bytes, addrs: seq<Address>, post: Bytes, n: nat)
    requires k <= |ds| && InnermostFunction(tab, ds, j, i, k) && AddressIndex(ds[j].fields[i], n) && n < |addrs|
    requires AddrBaseIs(tab, ds, j, |pre|) && env.addrSection == Some(pre + AddressBytes(addrs) + post)
    ensures FrameAt(tab, env, ds, k) == Known(env, addrs[n])
  {
    FunctionShape(tab, ds, j, i, k);
    hide Encloses, OnlyLowPc, FrameAt, AddressBytes, DecodeUnsigned, FromLe, Depth, InnermostFunction;
    BaseInForce(tab, ds, j);
    BaseUnique(tab, ds, j, |pre|, AddrBaseAt(tab, ds, j + 1));
    IndexNoted(ds[j].fields[i], n);
    hide NoteLowPc, AddrBaseAt, AddrBaseIs, FunctionFrame;
    FunctionAround(tab, env, ds, j, i, k);
    FrameFromSection(env, pre, addrs, post, n);
  }

  lemma FrameFromSection(env: Env, pre: Bytes, addrs: seq<Address>, post: Bytes, n: nat)
    requires n < |addrs| && env.addrSection == Some(pre + AddressBytes(addrs) + post)
    ensures FunctionFrame(env, |pre|, LowPc(true, Some(n), None)) == Known(env, addrs[n])
  {
    hide FromLe, AddressBytes;
    var sec, at := pre + AddressBytes(addrs) + post, |pre| + 8 * n;
    AddressAt(pre, addrs, post, n);
    assert at + 8 <= |sec| && FromLe(sec[at..at + 8]) == addrs[n];
    FrameFromWord(env, sec, |pre|, n, addrs[n]);
  }

  lemma FrameFromWord(env: Env, sec: Bytes, base: nat, n: nat, address: nat)
    requires env.addrSection == Some(sec) && base + 8 * n + 8 <= |sec|
    requires FromLe(sec[base + 8 * n..base + 8 * n + 8]) == address
    ensures FunctionFrame(env, base, LowPc(true, Some(n), None)) == Known(env, address)
  {
    hide FromLe;
  }

  lemma FunctionShape(tab: AbbrevTable, ds: seq<Die>, j: nat, i: nat, k: nat)
    requires k <= |ds| && InnermostFunction(tab, ds, j, i, k)
    ensures j < |ds| && i < |ds[j].fields| && ds[j].fields[i].attr.name == 0x11
  {
  }

  lemma IndexNoted(f: Field, n: nat)
    requires f.attr.name == 0x11 && AddressIndex(f, n)
    ensures NoteLowPc(f, NO_LOW_PC) == LowPc(true, Some(n), None)
  {
  }

  lemma BaseUnique(tab: AbbrevTable, ds: seq<Die>, j: nat, a: nat, b: nat)
    requires j < |ds| && AddrBaseIs(tab, ds, j, a) && AddrBaseIs(tab, ds, j, b)
    ensures a == b
  {
  }

  /** An index that leads past the end of the section, or no section at all: nothing is corrected. */
  lemma UnresolvedFunctionFrame(tab: AbbrevTable, env: Env, ds: seq<Die>, j: nat, i: nat, k: nat, base: nat, n: nat)
    requires k <= |ds| && InnermostFunction(tab, ds, j, i, k) && AddressIndex(ds[j].fields[i], n)
    requires AddrBaseIs(tab, ds, j, base) && (env.addrSection.None? || |env.addrSection.value| < base + 8 * n + 8)
    ensures FrameAt(tab, env, ds, k) == None
  {
    FunctionShape(tab, ds, j, i, k);
    hide Encloses, OnlyLowPc, FrameAt, DecodeUnsigned, FromLe, Depth, InnermostFunction;
    BaseInForce(tab, ds, j);
    BaseUnique(tab, ds, j, base, AddrBaseAt(tab, ds, j + 1));
    IndexNoted(ds[j].fields[i], n);
    hide NoteLowPc, AddrBaseAt, AddrBaseIs;
    FunctionAround(tab, env, ds, j, i, k);
  }

  /** A function with its address in the entry itself (DW_FORM_addr). */
  lemma LiteralFunctionFrame(tab: AbbrevTable, env: Env, ds: seq<Die>, j: nat, i: nat, k: nat)
    requires k <= |ds| && InnermostFunction(tab, ds, j, i, k) && ds[j].fields[i].attr.form == 0x01
    ensures FrameAt(tab, env, ds, k) == Known(env, FromLe(ds[j].fields[i].raw))
  {
    FunctionShape(tab, ds, j, i, k);
    hide Encloses, OnlyLowPc, FrameAt, AddrBaseAt, Depth, InnermostFunction;
    assert NoteLowPc(ds[j].fields[i], NO_LOW_PC) == LowPc(true, None, Some(FromLe(ds[j].fields[i].raw)));
    FunctionAround(tab, env, ds, j, i, k);
  }

  /** Outside all functions nothing is corrected. */
  lemma NoFunctionFrame(tab: AbbrevTable, env: Env, ds: seq<Die>, k: nat)
    requires k <= |ds|
    requires forall q :: 0 <= q < k && Encloses(tab, ds, q, k) ==> tab[ds[q].code].tag != 0x2e || NoLowPc(ds[q].fields)
    ensures FrameAt(tab, env, ds, k) == None
  {
    hide Encloses, NoteLowPc;
    var r := OpenParents(tab, ds, k);
    forall b | 0 <= b < |r|
      ensures !IsFunction(tab, ds[r[b]])
    {
      OpenParentsEnclose(tab, ds, r[b], k);
      if NoLowPc(ds[r[b]].fields) { NoLowPcFound(ds[r[b]].fields, NO_LOW_PC); }
    }
    NoneAround(tab, env, ds, r);
  }

  lemma {:induction false} NoneAround(tab: AbbrevTable, env: Env, ds: seq<Die>, parents: seq<nat>)
    requires forall i :: 0 <= i < |parents| ==> parents[i] < |ds| && !IsFunction(tab, ds[parents[i]])
    ensures EnclosingFrame(tab, env, ds, parents) == None
    decreases |parents|
  {
    if parents != [] {
      NoneAround(tab, env, ds, parents[..|parents| - 1]);
    }
  }
}
