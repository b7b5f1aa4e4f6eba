/**
 * Location lists (section 7.29 of DWARF 5): the offset table of a contribution
 * to .debug_loclists, and `fix_loclists_breg10`, which rebuilds every list with
 * corrected DW_OP_breg10 operands and re-points the table.
 */
module LocLists {
  import opened Leb128
  import opened ByteVectors
  import opened LocationExpr

  const OP_BREG10: Byte := 0x7a
  const HEADER: nat := 12

  // ---------------------------------------------------------------------------
  // Reading one list
  // ---------------------------------------------------------------------------

  /** Layout of an entry: its address operands, and whether an expression follows. */
  datatype Shape = UnknownCode | OneUleb | Address | Expr | TwoUlebsExpr | TwoAddressesExpr

  function ShapeOf(code: Byte): Shape
  {
    match code
    case 1 => OneUleb                      // base_addressx
    case 6 => Address                      // base_address
    case 5 => Expr                         // default_location
    case 2 => TwoUlebsExpr case 4 => TwoUlebsExpr case 7 => TwoUlebsExpr
    case 3 => TwoAddressesExpr             // start_end
    case _ => UnknownCode
  }

  predicate HasExpr(shape: Shape)
  {
    shape.Expr? || shape.TwoUlebsExpr? || shape.TwoAddressesExpr?
  }

  /** Bytes taken by `n` ULEB numbers at the front of `s`. */
  function UlebsLength(n: nat, s: Bytes): (r: Option<nat>)
    ensures r.Some? ==> r.value <= |s|
  {
    if n == 0 then Some(0)
    else if !Terminated(s) then None
    else
      var len := DecodeUnsigned(s).len;
      var rest := UlebsLength(n - 1, s[len..]);
      if rest.None? then None else Some(len + rest.value)
  }

  function FixedLength(n: nat, s: Bytes): (r: Option<nat>)
    ensures r.Some? ==> r.value <= |s|
  {
    if n <= |s| then Some(n) else None
  }

  /** Bytes taken by the address operands. */
  function OperandsLength(shape: Shape, s: Bytes): (r: Option<nat>)
    ensures r.Some? ==> r.value <= |s|
  {
    match shape
    case UnknownCode => None
    case OneUleb => UlebsLength(1, s)
    case Address => FixedLength(8, s)
    case Expr => Some(0)
    case TwoUlebsExpr => UlebsLength(2, s)
    case TwoAddressesExpr => FixedLength(16, s)
  }

  /** A location list entry; `expr` is empty for entries that only set a base. */
  datatype Entry = Entry(code: Byte, operands: Bytes, expr: Option<Bytes>)

  datatype EntryAt = BadEntry | EntryAt(entry: Entry, len: nat)

  function ReadEntry(s: Bytes): (r: EntryAt)
    requires s != []
    ensures r.EntryAt? ==> 0 < r.len <= |s|
  {
    var shape := ShapeOf(s[0]);
    var n := OperandsLength(shape, s[1..]);
    if n.None? then BadEntry
    else
      var operands := s[1..][..n.value];
      var t := s[1 + n.value..];
      if !HasExpr(shape) then EntryAt(Entry(s[0], operands, None), 1 + n.value)
      else if !Terminated(t) then BadEntry
      else
        var d := DecodeUnsigned(t);
        if d.len + d.value > |t| then BadEntry
        else EntryAt(Entry(s[0], operands, Some(t[d.len..d.len + d.value])), 1 + n.value + d.len + d.value)
  }

  datatype ListAt = BadList | ListAt(entries: seq<Entry>, len: nat)

  /** Entries up to the end-of-list byte 0, which is part of the list. */
  function ReadList(s: Bytes): (r: ListAt)
    ensures r.ListAt? ==> 0 < r.len <= |s|
    decreases |s|
  {
    if s == [] then BadList
    else if s[0] == 0 then ListAt([], 1)
    else
      var e := ReadEntry(s);
      if e.BadEntry? then BadList
      else
        var rest := ReadList(s[e.len..]);
        if rest.BadList? then BadList else ListAt([e.entry] + rest.entries, e.len + rest.len)
  }

  // ---------------------------------------------------------------------------
  // Rewriting one list
  // ---------------------------------------------------------------------------

  /** Without a known frame the expression is copied. */
  function NewExpr(e: Bytes, frame: Option<nat>): Bytes
  {
    if frame.None? then e else RewriteExpr(OP_BREG10, e, frame.value)
  }

  function NewEntry(e: Entry, frame: Option<nat>): Entry
  {
    if e.expr.None? then e else e.(expr := Some(NewExpr(e.expr.value, frame)))
  }

  function EncodeEntry(e: Entry): Bytes
  {
    [e.code] + e.operands +
    (if e.expr.None? then [] else EncodeUnsigned(|e.expr.value|) + e.expr.value)
  }

  function NewEntries(es: seq<Entry>, frame: Option<nat>): (r: seq<Entry>)
    ensures |r| == |es|
    ensures forall i :: 0 <= i < |es| ==> r[i] == NewEntry(es[i], frame)
  {
    seq(|es|, i requires 0 <= i < |es| => NewEntry(es[i], frame))
  }

  function EncodeList(es: seq<Entry>): Bytes
  {
    if es == [] then [0] else EncodeEntry(es[0]) + EncodeList(es[1..])
  }

  predicate EntryNeedsFix(e: Entry, frame: Option<nat>)
  {
    e.expr.Some? && frame.Some? && frame.value != 0 && HasOperand(OP_BREG10, e.expr.value)
  }

  predicate ListNeedsFix(es: seq<Entry>, frame: Option<nat>)
  {
    exists i :: 0 <= i < |es| && EntryNeedsFix(es[i], frame)
  }

  lemma {:induction false} UlebsLocal(n: nat, s: Bytes, rest: Bytes)
    requires UlebsLength(n, s).Some?
    ensures var k := UlebsLength(n, s).value; UlebsLength(n, s[..k] + rest) == Some(k)
  {
    hide DecodeUnsigned, Terminated;
    if n > 0 {
      var k, len := UlebsLength(n, s).value, DecodeUnsigned(s).len;
      var t := s[..k] + rest;
      assert s[len..][..k - len] == s[len..k];
      UlebsLocal(n - 1, s[len..], rest);
      UnsignedLocal(s, s[len..k] + rest);
      assert s[..len] + (s[len..k] + rest) == t;
      assert t[len..] == s[len..k] + rest;
    }
  }

  lemma OperandsLocal(shape: Shape, s: Bytes, rest: Bytes)
    requires OperandsLength(shape, s).Some?
    ensures var k := OperandsLength(shape, s).value; OperandsLength(shape, s[..k] + rest) == Some(k)
  {
    match shape {
      case OneUleb => UlebsLocal(1, s, rest);
      case TwoUlebsExpr => UlebsLocal(2, s, rest);
      case _ =>
    }
  }

  /** An entry the reader can produce: its operands are exactly those its code asks for. */
  predicate WellFormed(e: Entry)
  {
    e.code != 0 && OperandsLength(ShapeOf(e.code), e.operands) == Some(|e.operands|) &&
    e.expr.Some? == HasExpr(ShapeOf(e.code))
  }

  lemma ReadEntryWellFormed(s: Bytes)
    requires s != [] && s[0] != 0 && ReadEntry(s).EntryAt?
    ensures WellFormed(ReadEntry(s).entry)
  {
    hide UlebsLength;
    var k := OperandsLength(ShapeOf(s[0]), s[1..]).value;
    OperandsLocal(ShapeOf(s[0]), s[1..], []);
    assert s[1..][..k] + [] == s[1..][..k];
  }

  lemma EntryRoundTrip(e: Entry, rest: Bytes)
    requires WellFormed(e)
    ensures var b := EncodeEntry(e); ReadEntry(b + rest) == EntryAt(e, |b|)
  {
    hide OperandsLength, Terminated, EncodeUnsigned, DecodeUnsigned;
    var b := EncodeEntry(e);
    var s := b + rest;
    var k := |e.operands|;
    var t := b[1 + k..] + rest;
    assert s[0] == e.code;
    assert e.operands[..k] == e.operands;
    assert s[1..] == e.operands + t;
    OperandsLocal(ShapeOf(e.code), e.operands, t);
    assert s[1..][..k] == e.operands;
    assert s[1 + k..] == t;
    if e.expr.Some? {
      var x := e.expr.value;
      var p := EncodeUnsigned(|x|);
      UnsignedRoundTrip(|x|, x + rest);
      assert t == p + (x + rest);
      assert t[|p|..|p| + |x|] == x;
    }
  }

  lemma NewEntryWellFormed(e: Entry, frame: Option<nat>)
    requires WellFormed(e)
    ensures WellFormed(NewEntry(e, frame))
  {
  }

  lemma {:induction false} ListRoundTrip(es: seq<Entry>, rest: Bytes)
    requires forall i :: 0 <= i < |es| ==> WellFormed(es[i])
    ensures var b := EncodeList(es); ReadList(b + rest) == ListAt(es, |b|)
    decreases |es|
  {
    hide WellFormed, ReadEntry, EncodeEntry;
    var b := EncodeList(es);
    if es == [] {
      assert (b + rest)[0] == 0;
    } else {
      var first, tail := EncodeEntry(es[0]), EncodeList(es[1..]);
      ListRoundTrip(es[1..], rest);
      EntryRoundTrip(es[0], tail + rest);
      EncodeEntryFront(es[0]);
      assert b + rest == first + (tail + rest);
      assert (b + rest)[|first|..] == tail + rest;
      assert es == [es[0]] + es[1..];
    }
  }

  lemma EncodeEntryFront(e: Entry)
    requires WellFormed(e)
    ensures EncodeEntry(e) != [] && EncodeEntry(e)[0] == e.code != 0
  {
  }

  lemma {:induction false} ReadListWellFormed(s: Bytes)
    requires ReadList(s).ListAt?
    ensures var es := ReadList(s).entries; forall i :: 0 <= i < |es| ==> WellFormed(es[i])
    decreases |s|
  {
    hide WellFormed, ReadEntry;
    if s[0] != 0 {
      ReadEntryWellFormed(s);
      ReadListWellFormed(s[ReadEntry(s).len..]);
    }
  }

  /** The rebuilt list reads as the old entries with corrected expressions, wherever it is placed. */
  lemma RebuiltListReads(s: Bytes, frame: Option<nat>, rest: Bytes)
    requires ReadList(s).ListAt?
    ensures var es := NewEntries(ReadList(s).entries, frame);
            ReadList(EncodeList(es) + rest) == ListAt(es, |EncodeList(es)|)
  {
    hide WellFormed, ReadList, EncodeList, NewEntry;
    ReadListWellFormed(s);
    var es := ReadList(s).entries;
    forall i | 0 <= i < |es| ensures WellFormed(NewEntries(es, frame)[i]) { NewEntryWellFormed(es[i], frame); }
    ListRoundTrip(NewEntries(es, frame), rest);
  }

  // ---------------------------------------------------------------------------
  // A contribution: header, offset table, lists
  // ---------------------------------------------------------------------------

  /** Entries of the offset table; its start, right after the header, is the loclists_base. */
  function Count(c: Bytes): nat
    requires |c| >= HEADER
  {
    FromLe(c[8..12])
  }

  /** A contribution the pass accepts: one 32-bit unit that holds its whole offset table. */
  predicate IsContribution(c: Bytes)
  {
    |c| >= HEADER && 4 + FromLe(c[..4]) == |c| && HEADER + 4 * Count(c) <= |c|
  }

  function ListStart(c: Bytes, i: nat): nat
    requires IsContribution(c) && i < Count(c)
  {
    HEADER + FromLe(c[HEADER + 4 * i..HEADER + 4 * i + 4])
  }

  /** What a consumer finds for DW_FORM_loclistx index `i`. */
  function LookupIn(c: Bytes, i: nat): (r: ListAt)
    requires IsContribution(c) && i < Count(c)
  {
    if ListStart(c, i) > |c| then BadList else ReadList(c[ListStart(c, i)..])
  }

  /** Every list lies behind the table and can be read to its end. */
  predicate AllListsRead(c: Bytes)
    requires IsContribution(c)
  {
    forall i :: 0 <= i < Count(c) ==> HEADER + 4 * Count(c) <= ListStart(c, i) && LookupIn(c, i).ListAt?
  }

  function FrameOf(frames: map<nat, nat>, key: nat): Option<nat>
  {
    if key in frames then Some(frames[key]) else None
  }

  predicate AnyNeedsFix(c: Bytes, base: nat, frames: map<nat, nat>)
    requires IsContribution(c) && AllListsRead(c)
  {
    exists i :: 0 <= i < Count(c) && ListNeedsFix(LookupIn(c, i).entries, FrameOf(frames, base + i))
  }

  function NewLists(c: Bytes, base: nat, frames: map<nat, nat>): (r: seq<Bytes>)
    requires IsContribution(c) && AllListsRead(c)
    ensures |r| == Count(c)
  {
    seq(Count(c), i requires 0 <= i < Count(c) =>
      EncodeList(NewEntries(LookupIn(c, i).entries, FrameOf(frames, base + i))))
  }

  /** Offsets of consecutive lists, the first one at `acc` from the table. */
  function TableOf(lists: seq<Bytes>, acc: nat): (r: Bytes)
    ensures |r| == 4 * |lists|
  {
    if lists == [] then [] else Le(4, acc) + TableOf(lists[1..], acc + |lists[0]|)
  }

  function Rebuild(c: Bytes, lists: seq<Bytes>): (r: Bytes)
    requires |c| >= HEADER
  {
    var tail := c[4..HEADER] + TableOf(lists, 4 * |lists|) + Concat(lists);
    Le(4, |tail|) + tail
  }

  /** A contribution that cannot be read, or needs no correction, is kept byte for byte. */
  function NewContribution(c: Bytes, base: nat, frames: map<nat, nat>): (r: Bytes)
    requires IsContribution(c)
  {
    if AllListsRead(c) && AnyNeedsFix(c, base, frames) then Rebuild(c, NewLists(c, base, frames)) else c
  }

  function SizeBefore(lists: seq<Bytes>, i: nat): nat
    requires i <= |lists|
    decreases |lists|
  {
    if i == 0 then 0 else |lists[0]| + SizeBefore(lists[1..], i - 1)
  }

  lemma {:induction false} TableEntry(lists: seq<Bytes>, acc: nat, i: nat)
    requires i < |lists|
    ensures TableOf(lists, acc)[4 * i..4 * i + 4] == Le(4, acc + SizeBefore(lists, i))
    decreases |lists|
  {
    hide Le;
    if i > 0 {
      var rest := TableOf(lists[1..], acc + |lists[0]|);
      TableEntry(lists[1..], acc + |lists[0]|, i - 1);
      assert TableOf(lists, acc)[4 * i..4 * i + 4] == rest[4 * (i - 1)..4 * (i - 1) + 4];
    }
  }

  lemma {:induction false} ConcatFrom(lists: seq<Bytes>, i: nat)
    requires i < |lists|
    ensures SizeBefore(lists, i) + |lists[i]| <= |Concat(lists)|
    ensures Concat(lists)[SizeBefore(lists, i)..] == lists[i] + Concat(lists[i + 1..])
    decreases |lists|
  {
    if i > 0 {
      ConcatFrom(lists[1..], i - 1);
      assert lists[1..][i..] == lists[i + 1..];
      var n := SizeBefore(lists[1..], i - 1);
      assert Concat(lists)[|lists[0]| + n..] == Concat(lists[1..])[n..];
    }
  }

  /** Where list `i` of a rebuilt contribution is, and what else its bytes say. */
  lemma RebuildPlace(c: Bytes, lists: seq<Bytes>, i: nat)
    requires |c| >= HEADER && Count(c) == |lists| && i < |lists|
    requires |Rebuild(c, lists)| < 0x1_0000_0000
    ensures var r := Rebuild(c, lists);
            var off := 4 * |lists| + SizeBefore(lists, i);
            HEADER + 4 * |lists| <= |r| && r[..4] == Le(4, |r| - 4) && FromLe(r[..4]) == |r| - 4 && r[4..HEADER] == c[4..HEADER] &&
            FromLe(r[HEADER + 4 * i..HEADER + 4 * i + 4]) == off && HEADER + off + |lists[i]| <= |r| &&
            r[HEADER + off..] == lists[i] + Concat(lists[i + 1..])
  {
    hide TableOf, Concat, SizeBefore;
    var r, table, body := Rebuild(c, lists), TableOf(lists, 4 * |lists|), Concat(lists);
    assert Pow256(4) == 0x1_0000_0000;
    LeRoundTrip(4, |r| - 4);
    assert r[..4] == Le(4, |r| - 4);
    assert r[4..HEADER] == c[4..HEADER];
    TableEntry(lists, 4 * |lists|, i);
    var at := HEADER + 4 * i;
    assert r[at..at + 4] == table[4 * i..4 * i + 4];
    ConcatFrom(lists, i);
    var off := 4 * |lists| + SizeBefore(lists, i);
    LeRoundTrip(4, off);
    assert r[HEADER + off..] == body[SizeBefore(lists, i)..];
  }

  /** The new table leads to the new lists. */
  lemma RebuildLookup(c: Bytes, lists: seq<Bytes>, i: nat)
    requires |c| >= HEADER && Count(c) == |lists| && i < |lists|
    requires |Rebuild(c, lists)| < 0x1_0000_0000
    ensures var r := Rebuild(c, lists);
            IsContribution(r) && Count(r) == Count(c) &&
            LookupIn(r, i) == ReadList(lists[i] + Concat(lists[i + 1..]))
  {
    hide ReadList, Concat, SizeBefore, Rebuild;
    RebuildPlace(c, lists, i);
    SameSlice(Rebuild(c, lists), c, 4, HEADER, 8, 12);
  }

  /**
   * Looking up index `i` in the rewritten contribution gives the old list with
   * every breg10 operand reduced by the frame size of its function.
   */
  lemma ContributionLookup(c: Bytes, base: nat, frames: map<nat, nat>, i: nat)
    requires IsContribution(c) && AllListsRead(c) && AnyNeedsFix(c, base, frames) && i < Count(c)
    requires |NewContribution(c, base, frames)| < 0x1_0000_0000
    ensures var r := NewContribution(c, base, frames);
            IsContribution(r) && Count(r) == Count(c) && LookupIn(r, i).ListAt? &&
            LookupIn(r, i).entries == NewEntries(LookupIn(c, i).entries, FrameOf(frames, base + i))
  {
    hide ReadList, EncodeList, Rebuild, AnyNeedsFix;
    var lists := NewLists(c, base, frames);
    RebuildLookup(c, lists, i);
    RebuiltListReads(c[ListStart(c, i)..], FrameOf(frames, base + i), Concat(lists[i + 1..]));
  }

  // ---------------------------------------------------------------------------
  // The section: contributions in order, other bytes between them
  // ---------------------------------------------------------------------------

  datatype Span = Span(start: nat, len: nat)

  predicate InOrder(cs: seq<Span>, from: nat, n: nat)
  {
    if cs == [] then from <= n
    else from <= cs[0].start && cs[0].start + cs[0].len <= n && InOrder(cs[1..], cs[0].start + cs[0].len, n)
  }

  /** Every span holds one accepted contribution. */
  predicate Accepted(src: Bytes, cs: seq<Span>)
  {
    forall k :: 0 <= k < |cs| ==> cs[k].start + cs[k].len <= |src| && IsContribution(At(src, cs[k]))
  }

  function At(src: Bytes, s: Span): Bytes
    requires s.start + s.len <= |src|
  {
    src[s.start..s.start + s.len]
  }

  function Base(s: Span): nat
  {
    s.start + HEADER
  }

  function NewAt(src: Bytes, s: Span, frames: map<nat, nat>): Bytes
    requires s.start + s.len <= |src| && IsContribution(At(src, s))
  {
    NewContribution(At(src, s), Base(s), frames)
  }

  /** The output after the first `k` contributions have been placed. */
  function Placed(src: Bytes, cs: seq<Span>, frames: map<nat, nat>, k: nat): (r: Bytes)
    requires InOrder(cs, 0, |src|) && Accepted(src, cs) && k <= |cs|
    decreases k, 0
  {
    if k == 0 then []
    else BeforeContribution(src, cs, frames, k - 1) + NewAt(src, cs[k - 1], frames)
  }

  function EndOf(cs: seq<Span>, k: nat): nat
    requires k <= |cs|
  {
    if k == 0 then 0 else cs[k - 1].start + cs[k - 1].len
  }

  /** ... and after the bytes in front of contribution `k`. */
  function BeforeContribution(src: Bytes, cs: seq<Span>, frames: map<nat, nat>, k: nat): (r: Bytes)
    requires InOrder(cs, 0, |src|) && Accepted(src, cs) && k < |cs|
    decreases k, 1
  {
    SpansInOrder(cs, 0, |src|, k);
    Placed(src, cs, frames, k) + src[EndOf(cs, k)..cs[k].start]
  }

  lemma {:induction false} SpansInOrder(cs: seq<Span>, from: nat, n: nat, k: nat)
    requires InOrder(cs, from, n) && k < |cs|
    ensures cs[k].start + cs[k].len <= n
    ensures (if k == 0 then from else EndOf(cs, k)) <= cs[k].start
    decreases |cs|
  {
    if k > 0 { SpansInOrder(cs[1..], cs[0].start + cs[0].len, n, k - 1); }
  }

  function NewSection(src: Bytes, cs: seq<Span>, frames: map<nat, nat>): Bytes
    requires InOrder(cs, 0, |src|) && Accepted(src, cs)
  {
    Placed(src, cs, frames, |cs|) +
    (if EndOf(cs, |cs|) <= |src| then src[EndOf(cs, |cs|)..] else [])
  }

  function NewStart(src: Bytes, cs: seq<Span>, frames: map<nat, nat>, k: nat): nat
    requires InOrder(cs, 0, |src|) && Accepted(src, cs) && k < |cs|
  {
    |BeforeContribution(src, cs, frames, k)|
  }

  /** Old loclists_base to new loclists_base. */
  function Remap(src: Bytes, cs: seq<Span>, frames: map<nat, nat>, k: nat): (m: map<nat, nat>)
    requires InOrder(cs, 0, |src|) && Accepted(src, cs) && k <= |cs|
    decreases k
  {
    if k == 0 then map[]
    else Remap(src, cs, frames, k - 1)[Base(cs[k - 1]) := NewStart(src, cs, frames, k - 1) + HEADER]
  }

  lemma {:induction false} SpansAscend(cs: seq<Span>, from: nat, n: nat, j: nat, k: nat)
    requires InOrder(cs, from, n) && j < k < |cs|
    ensures cs[j].start + cs[j].len <= cs[k].start
    decreases k
  {
    SpansInOrder(cs, from, n, k);
    if j < k - 1 {
      SpansAscend(cs, from, n, j, k - 1);
    }
  }

  lemma {:induction false} RemapAt(src: Bytes, cs: seq<Span>, frames: map<nat, nat>, n: nat, k: nat)
    requires InOrder(cs, 0, |src|) && Accepted(src, cs) && k < n <= |cs|
    ensures var m := Remap(src, cs, frames, n);
            Base(cs[k]) in m && m[Base(cs[k])] == NewStart(src, cs, frames, k) + HEADER
    decreases n
  {
    hide NewStart, Accepted, IsContribution;
    if k < n - 1 {
      RemapAt(src, cs, frames, n - 1, k);
      SpansAscend(cs, 0, |src|, k, n - 1);
      AcceptedLength(src, cs, k);
    }
  }

  lemma AcceptedLength(src: Bytes, cs: seq<Span>, k: nat)
    requires Accepted(src, cs) && k < |cs|
    ensures cs[k].start + cs[k].len <= |src| && HEADER <= cs[k].len
    ensures HEADER + 4 * Count(At(src, cs[k])) <= cs[k].len
  {
  }

  /**
   * The keys base + index under which frame sizes are recorded never collide:
   * the table of a contribution is at least four times as long as its index
   * range.
   */
  lemma KeysDistinct(src: Bytes, cs: seq<Span>, j: nat, i: nat, k: nat, i': nat)
    requires InOrder(cs, 0, |src|) && Accepted(src, cs) && j < |cs| && k < |cs|
    requires cs[j].start + cs[j].len <= |src| && HEADER <= cs[j].len && i < Count(At(src, cs[j]))
    requires cs[k].start + cs[k].len <= |src| && HEADER <= cs[k].len && i' < Count(At(src, cs[k]))
    ensures Base(cs[j]) + i == Base(cs[k]) + i' ==> j == k && i == i'
  {
    AcceptedLength(src, cs, j);
    AcceptedLength(src, cs, k);
    if j < k {
      SpansAscend(cs, 0, |src|, j, k);
    } else if k < j {
      SpansAscend(cs, 0, |src|, k, j);
    }
  }

  /** Contribution `k` of the new section starts where the remapping says. */
  lemma {:induction false} PlacedAt(src: Bytes, cs: seq<Span>, frames: map<nat, nat>, n: nat, k: nat)
    requires InOrder(cs, 0, |src|) && Accepted(src, cs) && k < n <= |cs|
    ensures var c, at := NewAt(src, cs[k], frames), NewStart(src, cs, frames, k);
            var out := Placed(src, cs, frames, n);
            at + |c| <= |out| && out[at..at + |c|] == c
    decreases n
  {
    hide NewAt, IsContribution, InOrder;
    var c, at := NewAt(src, cs[k], frames), NewStart(src, cs, frames, k);
    var out := Placed(src, cs, frames, n);
    if k == n - 1 {
      assert out[at..] == c;
    } else {
      PlacedAt(src, cs, frames, n - 1, k);
      var before := Placed(src, cs, frames, n - 1);
      SpansInOrder(cs, 0, |src|, n - 1);
      var gap := src[EndOf(cs, n - 1)..cs[n - 1].start];
      assert BeforeContribution(src, cs, frames, n - 1) == before + gap;
      assert out == before + gap + NewAt(src, cs[n - 1], frames);
      assert out[..|before|] == before;
    }
  }

  /** The contribution found under a loclists_base of section `sec`. */
  function ContributionAt(sec: Bytes, base: nat): Option<Bytes>
  {
    if HEADER <= base && base - HEADER + 4 <= |sec| then
      var start := base - HEADER;
      var n := 4 + FromLe(sec[start..start + 4]);
      if start + n <= |sec| then Some(sec[start..start + n]) else None
    else None
  }

  /** DW_FORM_loclistx: index `i` under a unit's loclists_base. */
  function Lookup(sec: Bytes, base: nat, i: nat): ListAt
  {
    var c := ContributionAt(sec, base);
    if c.Some? && IsContribution(c.value) && i < Count(c.value) then LookupIn(c.value, i) else BadList
  }

  /** A contribution whose lists all read, or that nothing in it needs correcting, after the rewriting. */
  ghost predicate ListCorrected(before: ListAt, after: ListAt, frame: Option<nat>)
  {
    before.ListAt? ==>
      after.ListAt? &&
      (after.entries == NewEntries(before.entries, frame) ||
       (after.entries == before.entries && !ListNeedsFix(before.entries, frame)))
  }

  /**
   * The main result: through the remapped base, every index of every
   * contribution yields the old list with its breg10 operands corrected.
   */
  lemma SectionLookup(src: Bytes, cs: seq<Span>, frames: map<nat, nat>, k: nat, i: nat)
    requires InOrder(cs, 0, |src|) && Accepted(src, cs) && k < |cs| && i < Count(At(src, cs[k]))
    requires AllListsRead(At(src, cs[k]))
    requires |NewAt(src, cs[k], frames)| < 0x1_0000_0000
    ensures var m := Remap(src, cs, frames, |cs|);
            Base(cs[k]) in m &&
            ListCorrected(Lookup(src, Base(cs[k]), i),
                          Lookup(NewSection(src, cs, frames), m[Base(cs[k])], i),
                          FrameOf(frames, Base(cs[k]) + i))
  {
    hide InOrder, LookupIn, IsContribution, AllListsRead, NewSection, NewStart, Remap, Lookup, NewContribution, Count;
    RemapAt(src, cs, frames, |cs|, k);
    var c, r := At(src, cs[k]), NewAt(src, cs[k], frames);
    var at := NewStart(src, cs, frames, k);
    NewSectionHolds(src, cs, frames, k);
    NewIsContribution(c, Base(cs[k]), frames);
    LookupAt(src, cs[k].start, c, i);
    LookupAt(NewSection(src, cs, frames), at, r, i);
    NewLookup(c, Base(cs[k]), frames, i);
  }

  lemma NewLookup(c: Bytes, base: nat, frames: map<nat, nat>, i: nat)
    requires IsContribution(c) && AllListsRead(c) && i < Count(c)
    requires |NewContribution(c, base, frames)| < 0x1_0000_0000
    ensures var r := NewContribution(c, base, frames);
            IsContribution(r) && Count(r) == Count(c) &&
            ListCorrected(LookupIn(c, i), LookupIn(r, i), FrameOf(frames, base + i))
  {
    hide LookupIn, ListNeedsFix, Rebuild, NewLists;
    if AnyNeedsFix(c, base, frames) {
      ContributionLookup(c, base, frames, i);
    }
  }

  lemma LookupAt(sec: Bytes, at: nat, c: Bytes, i: nat)
    requires IsContribution(c) && at + |c| <= |sec| && sec[at..at + |c|] == c && i < Count(c)
    ensures Lookup(sec, at + HEADER, i) == LookupIn(c, i)
  {
    hide LookupIn, ContributionAt;
    FoundAt(sec, at, c);
  }

  lemma NewSectionHolds(src: Bytes, cs: seq<Span>, frames: map<nat, nat>, k: nat)
    requires InOrder(cs, 0, |src|) && Accepted(src, cs) && k < |cs|
    ensures var c, at := NewAt(src, cs[k], frames), NewStart(src, cs, frames, k);
            var out := NewSection(src, cs, frames);
            at + |c| <= |out| && out[at..at + |c|] == c
  {
    hide InOrder, IsContribution, NewAt, NewStart, Placed;
    PlacedAt(src, cs, frames, |cs|, k);
    var c, at := NewAt(src, cs[k], frames), NewStart(src, cs, frames, k);
    var out, placed := NewSection(src, cs, frames), Placed(src, cs, frames, |cs|);
    assert out[..|placed|] == placed;
    SameSlice(placed, out, 0, |placed|, at, at + |c|);
  }

  lemma NewIsContribution(c: Bytes, base: nat, frames: map<nat, nat>)
    requires IsContribution(c) && |NewContribution(c, base, frames)| < 0x1_0000_0000
    ensures var r := NewContribution(c, base, frames); IsContribution(r) && Count(r) == Count(c)
  {
    hide Rebuild, LookupIn;
    if AllListsRead(c) && AnyNeedsFix(c, base, frames) {
      RebuildLookup(c, NewLists(c, base, frames), 0);
    }
  }

  /** A contribution placed at `at` is what its base leads to. */
  lemma FoundAt(sec: Bytes, at: nat, c: Bytes)
    requires IsContribution(c) && at + |c| <= |sec| && sec[at..at + |c|] == c
    ensures ContributionAt(sec, at + HEADER) == Some(c)
  {
    assert sec[at..at + 4] == sec[at..at + |c|][..4];
  }
}
