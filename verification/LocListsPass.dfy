/**
 * `fix_loclists_breg10` as the linker runs it: a cursor loop per list, a new
 * offset table, and one pass that lays the contributions out again while
 * recording where each loclists_base moved.
 */
module LocListsPass {
  import opened Leb128
  import opened ByteVectors
  import opened LocationExpr
  import opened LocLists

  /** Skip `n` ULEB numbers, or fail at the end of the contribution. */
  method CopyUlebs(d: Bytes, q: nat, end: nat, n: nat) returns (ok: bool, next: nat)
    requires q <= end <= |d|
    ensures q <= next <= end
    ensures var r := UlebsLength(n, d[q..end]); ok == r.Some? && (ok ==> next == q + r.value)
  {
    hide UlebsLength, DecodeUnsigned, Terminated;
    ok, next := true, q;
    var left := n;
    while left > 0
      invariant q <= next <= end && 0 <= left <= n
      invariant var r, t := UlebsLength(n, d[q..end]), UlebsLength(left, d[next..end]);
                r.Some? == t.Some? && (r.Some? ==> r.value == next - q + t.value)
    {
      var _, at := ReadUnsigned(d, next, end);
      UlebsNext(d, next, end, left, at);
      ok := at > next && d[at - 1] < 128;
      if !ok { return; }
      next, left := at, left - 1;
    }
    NoUlebs(d[next..end]);
  }

  lemma NoUlebs(s: Bytes)
    ensures UlebsLength(0, s) == Some(0)
  {
  }

  /** One ULEB number taken off; it is whole exactly when its last byte says so. */
  lemma UlebsNext(d: Bytes, q: nat, end: nat, n: nat, at: nat)
    requires q <= end <= |d| && n > 0 && at == q + DecodeUnsigned(d[q..end]).len
    ensures q <= at <= end
    ensures var r := UlebsLength(n, d[q..end]);
            if at > q && d[at - 1] < 128 then
              var t := UlebsLength(n - 1, d[at..end]);
              r.Some? == t.Some? && (r.Some? ==> r.value == at - q + t.value)
            else r.None?
  {
    hide DecodeUnsigned, Terminated, UlebsLength;
    var s := d[q..end];
    TerminatedLast(s);
    UlebsCons(n, s);
    assert s[at - q..] == d[at..end];
    if at > q {
      assert s[at - q - 1] == d[at - 1];
    }
  }

  lemma UlebsCons(n: nat, s: Bytes)
    requires n > 0
    ensures var len := DecodeUnsigned(s).len;
            var t := UlebsLength(n - 1, s[len..]);
            UlebsLength(n, s) == if Terminated(s) && t.Some? then Some(len + t.value) else None
  {
    hide DecodeUnsigned, Terminated;
  }

  /** The address operands of an entry. */
  method CopyOperands(d: Bytes, q: nat, end: nat, shape: Shape) returns (ok: bool, next: nat)
    requires q <= end <= |d|
    ensures q <= next <= end
    ensures var r := OperandsLength(shape, d[q..end]); ok == r.Some? && (ok ==> next == q + r.value)
  {
    ok, next := true, q;
    match shape {
      case UnknownCode => ok := false;
      case OneUleb => ok, next := CopyUlebs(d, next, end, 1);
      case Address => if next + 8 <= end { next := next + 8; } else { ok := false; }
      case Expr =>
      case TwoUlebsExpr => ok, next := CopyUlebs(d, next, end, 2);
      case TwoAddressesExpr => if next + 16 <= end { next := next + 16; } else { ok := false; }
    }
  }

  /** The length-prefixed expression of an entry, with its breg10 operands corrected. */
  method CopyExpr(d: Bytes, q: nat, end: nat, frame: Option<nat>)
    returns (ok: bool, next: nat, bytes: Bytes, changed: bool)
    requires q <= end <= |d|
    ensures q <= next <= end
    ensures var t := d[q..end];
            var n := DecodeUnsigned(t);
            ok == (Terminated(t) && n.len + n.value <= |t|) &&
            (ok ==>
               var e := t[n.len..n.len + n.value];
               next == q + n.len + n.value &&
               bytes == EncodeUnsigned(|NewExpr(e, frame)|) + NewExpr(e, frame) &&
               changed == (frame.Some? && frame.value != 0 && HasOperand(OP_BREG10, e)))
  {
    hide DecodeUnsigned, Terminated, EncodeUnsigned, RewriteExpr, HasOperand;
    next, bytes, changed := q, [], false;
    var len, at := ReadUnsigned(d, q, end);
    TerminatedLast(d[q..end]);
    ok := at > q && d[at - 1] < 128 && at + len <= end;
    if ok {
      SliceOfSlice(d, q, end, at - q, at - q + len);
      next := at + len;
      var e := d[at..next];
      if frame.Some? {
        e, changed := RewriteExprBytes(OP_BREG10, d, at, next, frame.value);
      }
      bytes := AppendUnsigned([], |e|);
      bytes := bytes + e;
    }
  }

  /** Copy one entry: code, operands, expression. */
  method CopyEntry(d: Bytes, q: nat, end: nat, frame: Option<nat>)
    returns (ok: bool, next: nat, bytes: Bytes, changed: bool)
    requires q < end <= |d|
    ensures q <= next <= end
    ensures var r := ReadEntry(d[q..end]);
            ok == r.EntryAt? &&
            (ok ==> next == q + r.len && bytes == EncodeEntry(NewEntry(r.entry, frame)) &&
                    changed == EntryNeedsFix(r.entry, frame))
  {
    hide OperandsLength, DecodeUnsigned, Terminated, EncodeUnsigned, NewExpr, HasOperand;
    ghost var s := d[q..end];
    var code := d[q];
    var shape := ShapeOf(code);
    bytes, changed := [code], false;
    assert s[1..] == d[q + 1..end];
    ok, next := CopyOperands(d, q + 1, end, shape);
    if ok {
      SliceOfSlice(d, q + 1, end, 0, next - q - 1);
      bytes := bytes + d[q + 1..next];
      if shape.Expr? || shape.TwoUlebsExpr? || shape.TwoAddressesExpr? {
        assert s[next - q..] == d[next..end];
        var x;
        ok, next, x, changed := CopyExpr(d, next, end, frame);
        bytes := bytes + x;
      }
    }
  }

  function EncodePrefix(es: seq<Entry>): Bytes
  {
    if es == [] then [] else EncodePrefix(es[..|es| - 1]) + EncodeEntry(es[|es| - 1])
  }

  lemma {:induction false} EncodePrefixEnd(es: seq<Entry>, rest: seq<Entry>)
    ensures EncodePrefix(es) + EncodeList(rest) == EncodeList(es + rest)
    decreases |es|
  {
    hide EncodeEntry;
    if es == [] {
      assert es + rest == rest;
    } else {
      var last := es[|es| - 1];
      EncodePrefixEnd(es[..|es| - 1], [last] + rest);
      assert es[..|es| - 1] + ([last] + rest) == es + rest;
      assert ([last] + rest)[1..] == rest;
    }
  }

  /** Rebuild one list up to and including its end-of-list byte. */
  method RebuildList(d: Bytes, start: nat, end: nat, frame: Option<nat>)
    returns (ok: bool, bytes: Bytes, changed: bool)
    requires start <= end <= |d|
    ensures var r := ReadList(d[start..end]);
            ok == r.ListAt? &&
            (ok ==> bytes == EncodeList(NewEntries(r.entries, frame)) && changed == ListNeedsFix(r.entries, frame))
  {
    hide ReadEntry, EncodeEntry, NewEntry, EntryNeedsFix, ReadList, EncodeList, EncodePrefix, NewEntries, ListNeedsFix;
    ok, bytes, changed := false, [], false;
    var q := start;
    ghost var es: seq<Entry> := [];
    NoEntries(frame);
    while q < end
      invariant start <= q <= end && !ok
      invariant var r, t := ReadList(d[start..end]), ReadList(d[q..end]);
                r.ListAt? == t.ListAt? && (r.ListAt? ==> r.entries == es + t.entries)
      invariant bytes == EncodePrefix(NewEntries(es, frame))
      invariant changed == ListNeedsFix(es, frame)
      decreases end - q
    {
      ReadListNext(d, q, end);
      if d[q] == 0 {
        ok := true;
        EncodedEnd(es, frame);
        bytes := bytes + [0];
        assert es + [] == es;
        return;
      }
      var good, next, piece, fixed := CopyEntry(d, q, end, frame);
      if !good { return; }
      ghost var e := ReadEntry(d[q..end]).entry;
      ghost var more := es + [e];
      assert forall t: seq<Entry> :: es + ([e] + t) == more + t;
      EncodedSnoc(es, e, frame);
      NeedsFixSnoc(es, e, frame);
      bytes, es, q := bytes + piece, more, next;
      if fixed { changed := true; }
    }
    NoListLeft(d, q, end);
  }

  lemma NoEntries(frame: Option<nat>)
    ensures NewEntries([], frame) == [] && EncodePrefix([]) == [] && !ListNeedsFix([], frame)
  {
  }

  lemma NoListLeft(d: Bytes, q: nat, end: nat)
    requires q == end <= |d|
    ensures !ReadList(d[q..end]).ListAt?
  {
  }

  /** One step of reading a list. */
  lemma ReadListNext(d: Bytes, q: nat, end: nat)
    requires q < end <= |d|
    ensures var r, e := ReadList(d[q..end]), ReadEntry(d[q..end]);
            if d[q] == 0 then r.ListAt? && r.entries == []
            else if !e.EntryAt? then !r.ListAt?
            else q + e.len <= end &&
                 var t := ReadList(d[q + e.len..end]);
                 r.ListAt? == t.ListAt? && (r.ListAt? ==> r.entries == [e.entry] + t.entries)
  {
    hide ReadEntry;
    var e := ReadEntry(d[q..end]);
    if d[q] != 0 && e.EntryAt? {
      assert d[q..end][e.len..] == d[q + e.len..end];
    }
  }

  lemma EncodedEnd(es: seq<Entry>, frame: Option<nat>)
    ensures EncodePrefix(NewEntries(es, frame)) + [0] == EncodeList(NewEntries(es, frame))
  {
    hide EncodeEntry, NewEntry;
    var xs := NewEntries(es, frame);
    EncodePrefixEnd(xs, []);
    assert xs + [] == xs;
  }

  lemma EncodedSnoc(es: seq<Entry>, e: Entry, frame: Option<nat>)
    ensures EncodePrefix(NewEntries(es + [e], frame)) ==
            EncodePrefix(NewEntries(es, frame)) + EncodeEntry(NewEntry(e, frame))
  {
    hide EncodeEntry, NewEntry;
    var xs, ys := NewEntries(es, frame), NewEntries(es + [e], frame);
    assert ys[..|es|] == xs && ys[|es|] == NewEntry(e, frame);
  }

  lemma NeedsFixSnoc(es: seq<Entry>, e: Entry, frame: Option<nat>)
    ensures ListNeedsFix(es + [e], frame) == (ListNeedsFix(es, frame) || EntryNeedsFix(e, frame))
  {
    hide EntryNeedsFix;
    var more := es + [e];
    assert more[|es|] == e;
    assert forall i :: 0 <= i < |es| ==> more[i] == es[i];
  }

  /** Phases A to C for one contribution. */
  method RebuildContribution(c: Bytes, base: nat, frames: map<nat, nat>) returns (r: Bytes)
    requires IsContribution(c)
    ensures r == NewContribution(c, base, frames)
  {
    hide ReadList, EncodeList, ListNeedsFix, TableOf, Concat, FromLe;
    var n := Count(c);
    var lists: seq<Bytes> := [];
    var anyChange := false;
    for i := 0 to n
      invariant |lists| == i
      invariant forall j :: 0 <= j < i ==>
        HEADER + 4 * n <= ListStart(c, j) && LookupIn(c, j).ListAt? &&
        lists[j] == EncodeList(NewEntries(LookupIn(c, j).entries, FrameOf(frames, base + j)))
      invariant anyChange == exists j :: 0 <= j < i && LookupIn(c, j).ListAt? && ListNeedsFix(LookupIn(c, j).entries, FrameOf(frames, base + j))
    {
      var start := ListStart(c, i);
      if start < HEADER + 4 * n || start >= |c| {
        NoListAtEnd(c, i);
        return c;
      }
      var frame := if base + i in frames then Some(frames[base + i]) else None;
      assert c[start..|c|] == c[start..];
      var ok, bytes, changed := RebuildList(c, start, |c|, frame);
      if !ok { return c; }
      lists := lists + [bytes];
      if changed { anyChange := true; }
    }
    if !anyChange { return c; }
    assert lists == NewLists(c, base, frames);
    r := Assemble(c, lists);
  }

  lemma NoListAtEnd(c: Bytes, i: nat)
    requires IsContribution(c) && i < Count(c)
    requires ListStart(c, i) < HEADER + 4 * Count(c) || ListStart(c, i) >= |c|
    ensures !AllListsRead(c)
  {
  }

  /** The new table and the new bodies behind the old header. */
  method Assemble(c: Bytes, lists: seq<Bytes>) returns (r: Bytes)
    requires |c| >= HEADER
    ensures r == Rebuild(c, lists)
  {
    hide Le, TableOf, Concat;
    var table: Bytes, body: Bytes := [], [];
    var acc: nat := 4 * |lists|;
    assert lists[0..] == lists;
    ghost var all := TableOf(lists, acc);
    for i := 0 to |lists|
      invariant |table| == 4 * i && table + TableOf(lists[i..], acc) == all
      invariant body + Concat(lists[i..]) == Concat(lists)
    {
      TableNext(lists, i, acc, table, body);
      table := table + Le(4, acc);
      body := body + lists[i];
      acc := acc + |lists[i]|;
    }
    TableDone(lists[|lists|..], acc);
    r := c[..HEADER] + table + body;
    r := Overwrite(r, 0, Le(4, |r| - 4));
    HeaderThenRest(c, all, Concat(lists));
  }

  lemma TableDone(lists: seq<Bytes>, acc: nat)
    requires lists == []
    ensures TableOf(lists, acc) == [] && Concat(lists) == []
  {
  }

  lemma TableNext(lists: seq<Bytes>, i: nat, acc: nat, table: Bytes, body: Bytes)
    requires i < |lists|
    ensures table + TableOf(lists[i..], acc) == (table + Le(4, acc)) + TableOf(lists[i + 1..], acc + |lists[i]|)
    ensures body + Concat(lists[i..]) == (body + lists[i]) + Concat(lists[i + 1..])
  {
    hide Le;
    assert lists[i..][1..] == lists[i + 1..];
    assert TableOf(lists[i..], acc) == Le(4, acc) + TableOf(lists[i + 1..], acc + |lists[i]|);
    assert Concat(lists[i..]) == lists[i] + Concat(lists[i + 1..]);
  }

  lemma HeaderThenRest(c: Bytes, table: Bytes, body: Bytes)
    requires |c| >= HEADER
    ensures var r, rest := c[..HEADER] + table + body, c[4..HEADER] + table + body;
            |r| - 4 == |rest| && Overwrite(r, 0, Le(4, |r| - 4)) == Le(4, |rest|) + rest
  {
    hide Le;
  }

  /** The whole section, with the old to new loclists_base table. */
  method FixLoclists(src: Bytes, cs: seq<Span>, frames: map<nat, nat>)
    returns (out: Bytes, remap: map<nat, nat>)
    requires InOrder(cs, 0, |src|) && Accepted(src, cs)
    ensures out == NewSection(src, cs, frames)
    ensures remap == Remap(src, cs, frames, |cs|)
  {
    hide NewContribution, IsContribution, InOrder;
    out, remap := [], map[];
    var pos := 0;
    for k := 0 to |cs|
      invariant pos == EndOf(cs, k)
      invariant out == Placed(src, cs, frames, k) && remap == Remap(src, cs, frames, k)
    {
      var c := cs[k];
      SpansInOrder(cs, 0, |src|, k);
      out := out + src[pos..c.start];
      assert out == BeforeContribution(src, cs, frames, k);
      remap := remap[c.start + HEADER := |out| + HEADER];
      var bytes := RebuildContribution(src[c.start..c.start + c.len], c.start + HEADER, frames);
      out := out + bytes;
      pos := c.start + c.len;
    }
    if pos <= |src| {
      out := out + src[pos..];
    }
  }

  /** The acceptable unit at the start of an object's contribution. */
  method AcceptSpan(src: Bytes, o: Span) returns (r: Option<Span>)
    requires o.start + o.len <= |src|
    ensures r.Some? ==> r.value.start == o.start && r.value.len <= o.len && IsContribution(At(src, r.value))
    ensures OneUnit(src, o) ==> r == Some(o)
  {
    hide FromLe;
    r := None;
    if o.len >= HEADER {
      var len := FromLe(src[o.start..o.start + 4]);
      var n := FromLe(src[o.start + 8..o.start + 12]);
      SliceOfSlice(src, o.start, o.start + o.len, 0, 4);
      SliceOfSlice(src, o.start, o.start + o.len, 8, 12);
      if len != 0xffffffff && len >= 8 && 4 + len <= o.len && HEADER + 4 * n <= 4 + len {
        SliceOfSlice(src, o.start, o.start + 4 + len, 0, 4);
        SliceOfSlice(src, o.start, o.start + 4 + len, 8, 12);
        r := Some(Span(o.start, 4 + len));
      }
    }
  }

  method AcceptSpans(src: Bytes, objs: seq<Span>) returns (cs: seq<Span>)
    requires InOrder(objs, 0, |src|)
    ensures InOrder(cs, 0, |src|) && Accepted(src, cs)
    ensures forall k :: 0 <= k < |objs| && OneUnit(src, objs[k]) ==> objs[k] in cs
  {
    hide IsContribution, OneUnit;
    cs := [];
    assert objs[0..] == objs;
    ghost var from: nat := 0;
    for k := 0 to |objs|
      invariant InOrder(objs[k..], from, |src|)
      invariant Chain(cs, 0, from) && Accepted(src, cs)
      invariant forall j :: 0 <= j < k && OneUnit(src, objs[j]) ==> objs[j] in cs
    {
      var o := objs[k];
      assert objs[k..][1..] == objs[k + 1..];
      ChainGrow(cs, 0, from, o.start);
      var s := AcceptSpan(src, o);
      if s.Some? {
        ChainSnoc(cs, 0, o.start, s.value);
        cs := cs + [s.value];
      }
      from := o.start + o.len;
      ChainGrow(cs, 0, if s.Some? then o.start + s.value.len else o.start, from);
    }
    InOrderStart(objs[|objs|..], from, |src|);
    ChainInOrder(cs, 0, from, |src|);
  }

  /** An object's contribution that is one acceptable unit and nothing else. */
  predicate OneUnit(src: Bytes, s: Span)
  {
    s.start + s.len <= |src| && IsContribution(At(src, s)) && 12 <= s.len < 0x1_0000_0003
  }

  /** Ascending disjoint spans that end by `p`. */
  predicate Chain(cs: seq<Span>, from: nat, p: nat)
    decreases |cs|
  {
    if cs == [] then from <= p
    else
      var c := cs[|cs| - 1];
      c.start + c.len <= p && Chain(cs[..|cs| - 1], from, c.start)
  }

  lemma ChainGrow(cs: seq<Span>, from: nat, p: nat, p': nat)
    requires Chain(cs, from, p) && p <= p'
    ensures Chain(cs, from, p')
  {
  }

  lemma ChainSnoc(cs: seq<Span>, from: nat, p: nat, s: Span)
    requires Chain(cs, from, p) && s.start == p
    ensures Chain(cs + [s], from, s.start + s.len)
  {
    assert (cs + [s])[..|cs|] == cs;
  }

  lemma {:induction false} ChainInOrder(cs: seq<Span>, from: nat, p: nat, n: nat)
    requires Chain(cs, from, p) && p <= n
    ensures InOrder(cs, from, n)
    decreases |cs|
  {
    if cs != [] {
      ChainSplit(cs, from, p);
      ChainInOrder(cs[1..], cs[0].start + cs[0].len, p, n);
    }
  }

  lemma {:induction false} ChainSplit(cs: seq<Span>, from: nat, p: nat)
    requires Chain(cs, from, p) && cs != []
    ensures from <= cs[0].start && cs[0].start + cs[0].len <= p
    ensures Chain(cs[1..], cs[0].start + cs[0].len, p)
    decreases |cs|
  {
    if |cs| > 1 {
      var c := cs[|cs| - 1];
      ChainSplit(cs[..|cs| - 1], from, c.start);
      assert cs[1..][..|cs| - 2] == cs[..|cs| - 1][1..];
    }
  }

  lemma InOrderStart(cs: seq<Span>, from: nat, n: nat)
    requires InOrder(cs, from, n)
    ensures from <= n
  {
  }
}
