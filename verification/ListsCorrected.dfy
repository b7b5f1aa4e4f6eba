/**
 * The three debug passes together: `fix_fbreg_offsets` records a frame size
 * for every location list while it rebuilds .debug_info, `fix_loclists_breg10`
 * rebuilds .debug_loclists with it, and `remap_loclists_base` points the
 * rebuilt .debug_info at the moved lists.
 */
module ListsCorrected {
  import opened Leb128
  import opened ByteVectors
  import opened DwarfUnit
  import opened DwarfRewrite
  import opened DwarfSection
  import opened DwarfReader
  import opened ListFrames
  import opened LoclistsBase
  import opened DwarfPass
  import LL = LocLists
  import LocListsPass

  // ---------------------------------------------------------------------------
  // What pass A sees of a unit, also of one it gives up on
  // ---------------------------------------------------------------------------

  /** The fields in front of the first one that cannot be read. */
  function FieldsBefore(attrs: seq<Attr>, s: Bytes): seq<Field>
    decreases |attrs|
  {
    if attrs == [] then []
    else
      var v := ReadValue(LayoutOf(attrs[0].form), s);
      if v.Malformed? then [] else [Field(attrs[0], s[..v.len], v.val)] + FieldsBefore(attrs[1..], s[v.len..])
  }

  /** The entries pass A goes through; the last one may be incomplete. */
  function Seen(tab: AbbrevTable, s: Bytes, off: nat): seq<Die>
    decreases |s|
  {
    if s == [] then []
    else
      var d := ReadDie(tab, s, off);
      if d.DieAt? then [d.die] + Seen(tab, s[d.len..], off + d.len)
      else if Terminated(s) && DecodeUnsigned(s).value != 0 && DecodeUnsigned(s).value in tab then
        var c := DecodeUnsigned(s);
        [Die(off, c.value, FieldsBefore(tab[c.value].attrs, s[c.len..]))]
      else []
  }

  lemma {:induction false} SeenReadable(tab: AbbrevTable, s: Bytes, off: nat)
    requires ReadDies(tab, s, off).Some?
    ensures Seen(tab, s, off) == ReadDies(tab, s, off).value
    decreases |s|
  {
    hide ReadDie;
    if s != [] {
      var d := ReadDie(tab, s, off);
      SeenReadable(tab, s[d.len..], off + d.len);
    }
  }

  lemma {:induction false} ScanFieldsSeen(attrs: seq<Attr>, s: Bytes, st: FieldState)
    ensures ScanFields(attrs, s, st).st == StepFields(FieldsBefore(attrs, s), st)
    ensures ReadFields(attrs, s).BadFields? ==> !ScanFields(attrs, s, st).ok
    decreases |attrs|
  {
    hide ReadValue, LayoutOf, StepField;
    if attrs != [] {
      var v := ReadValue(LayoutOf(attrs[0].form), s);
      if v.Value? {
        var f := Field(attrs[0], s[..v.len], v.val);
        ScanFieldsSeen(attrs[1..], s[v.len..], StepField(f, st));
        var all := FieldsBefore(attrs, s);
        assert all[0] == f && all[1..] == FieldsBefore(attrs[1..], s[v.len..]);
      }
    }
  }

  /** The scan of an entry that cannot be read ends with the lists of its readable fields. */
  lemma BadDieScan(tab: AbbrevTable, env: Env, s: Bytes, off: nat, ctx: Context)
    requires s != [] && ReadDie(tab, s, off).BadDie?
    ensures var r := ScanDie(tab, env, s, off, ctx);
            !r.ok &&
            r.ctx.listFrames ==
              if Seen(tab, s, off) == [] then ctx.listFrames else ContextAfter(tab, env, Seen(tab, s, off)[0], ctx).listFrames
  {
    hide ScanFields, ReadFields, StepFields, FieldsBefore, FunctionFrame;
    var c := DecodeUnsigned(s);
    if Terminated(s) && c.value != 0 && c.value in tab {
      ScanFieldsSeen(tab[c.value].attrs, s[c.len..], StartDie(off, c.value, ctx));
    }
  }

  /** The lists the scan of a unit records are those of the entries it goes through. */
  lemma {:induction false} SeenLists(tab: AbbrevTable, env: Env, s: Bytes, off: nat, ctx: Context)
    ensures var ds := Seen(tab, s, off);
            ScanDies(tab, env, s, off, ctx).ctx.listFrames == ContextAt(tab, env, ds, |ds|, ctx).listFrames
    decreases |s|
  {
    hide ReadDie, ScanDie, ContextAfter, FieldsBefore, DecodeUnsigned, Terminated;
    var ds := Seen(tab, s, off);
    if s == [] {
      NoneYet(tab, env, ds, ctx);
    } else {
      var d := ReadDie(tab, s, off);
      if d.DieAt? {
        ScanDieAgrees(tab, env, s, off, ctx);
        var rest := Seen(tab, s[d.len..], off + d.len);
        SeenLists(tab, env, s[d.len..], off + d.len, ContextAfter(tab, env, d.die, ctx));
        assert ds[1..] == rest;
        ContextAtShift(tab, env, ds, |ds|, ctx);
      } else {
        BadDieScan(tab, env, s, off, ctx);
        if ds == [] {
          NoneYet(tab, env, ds, ctx);
        } else {
          ContextAtShift(tab, env, ds, 1, ctx);
          NoneYet(tab, env, ds[1..], ContextAfter(tab, env, ds[0], ctx));
        }
      }
    }
  }

  lemma NoneYet(tab: AbbrevTable, env: Env, ds: seq<Die>, ctx: Context)
    ensures ContextAt(tab, env, ds, 0, ctx) == ctx
  {
  }

  // ---------------------------------------------------------------------------
  // References to lists, over all units
  // ---------------------------------------------------------------------------

  /** A unit with the tables and frame sizes of the object it comes from. */
  datatype Walked = Walked(tables: AbbrevTables, env: Env, u: Bytes)

  function Tab(w: Walked): AbbrevTable
  {
    if |w.u| >= 12 && Handled(w.tables, w.u) then w.tables[AbbrevOffset(w.u)] else map[]
  }

  function View(w: Walked): seq<Die>
  {
    if |w.u| >= 12 && Handled(w.tables, w.u) then Seen(Tab(w), w.u[HeaderSize(w.u)..], HeaderSize(w.u)) else []
  }

  /** DW_AT_loclists_base in force at field `i` of entry `k`. */
  function BaseBefore(tab: AbbrevTable, ds: seq<Die>, k: nat, i: nat): nat
    requires k < |ds| && i <= |ds[k].fields|
  {
    BaseAfter(ds[k].fields[..i], BaseAt(tab, ds, k))
  }

  function Index(f: Field): nat
  {
    DecodeUnsigned(f.raw).value
  }

  /** Field `i` of entry `k` is a location given by a list. */
  predicate IsRef(tab: AbbrevTable, ds: seq<Die>, k: nat, i: nat)
  {
    k < |ds| && i < |ds[k].fields| && ds[k].code != 0 && ds[k].code in tab && RefersToList(ds[k].fields[i])
  }

  lemma {:induction false} KeyOfField(fields: seq<Field>, base: nat, i: nat)
    requires i < |fields| && RefersToList(fields[i])
    ensures BaseAfter(fields[..i], base) + Index(fields[i]) in FieldKeys(fields, base)
    decreases |fields|
  {
    if i > 0 {
      assert fields[..i][1..] == fields[1..][..i - 1];
      KeyOfField(fields[1..], NextBase(fields[0], base), i - 1);
    }
  }

  lemma {:induction false} FieldOfKey(fields: seq<Field>, base: nat, key: nat) returns (i: nat)
    requires key in FieldKeys(fields, base)
    ensures i < |fields| && RefersToList(fields[i]) && key == BaseAfter(fields[..i], base) + Index(fields[i])
    decreases |fields|
  {
    if RefersToList(fields[0]) && key == base + Index(fields[0]) {
      i := 0;
    } else {
      var j := FieldOfKey(fields[1..], NextBase(fields[0], base), key);
      i := j + 1;
      assert fields[..i][1..] == fields[1..][..j];
    }
  }

  /** The table after the units `ws`, as the rewriting pass threads it through. */
  function ListsAfter(ws: seq<Walked>, lists: map<nat, nat>): map<nat, nat>
    requires forall n :: 0 <= n < |ws| ==> |ws[n].u| >= 12
    decreases |ws|
  {
    if ws == [] then lists
    else ListsAfter(ws[1..], RewriteUnit(ws[0].tables, ws[0].env, lists, ws[0].u).lists)
  }

  /** Some entry of `w` in a function of known frame size refers to the list under `key`. */
  ghost predicate UnitRefers(w: Walked, k: nat, key: nat)
  {
    k < |View(w)| && Refers(Tab(w), w.env, View(w), k, key)
  }

  ghost predicate Referred(w: Walked, key: nat, frame: nat)
  {
    exists k :: 0 <= k < |View(w)| && UnitRefers(w, k, key) && FrameAt(Tab(w), w.env, View(w), k) == Some(frame)
  }

  lemma UnitTable(w: Walked, lists: map<nat, nat>, key: nat)
    requires |w.u| >= 12
    ensures var m := RewriteUnit(w.tables, w.env, lists, w.u).lists;
            (key in m && Referred(w, key, m[key])) ||
            ((forall k :: 0 <= k < |View(w)| ==> !UnitRefers(w, k, key)) &&
             (key in m <==> key in lists) && (key in lists ==> m[key] == lists[key]))
  {
    hide ScanDies, Seen, FrameAt, NewBody, Touched, ContextAt, FieldKeys, BaseAt;
    if Handled(w.tables, w.u) {
      var h := HeaderSize(w.u);
      var ds := View(w);
      SeenLists(Tab(w), w.env, w.u[h..], h, StartOf(lists));
      TableHolds(Tab(w), w.env, ds, |ds|, lists, key);
      var m := RewriteUnit(w.tables, w.env, lists, w.u).lists;
      if exists k :: 0 <= k < |ds| && Refers(Tab(w), w.env, ds, k, key) {
        var k :| 0 <= k < |ds| && Refers(Tab(w), w.env, ds, k, key) && m[key] == FrameAt(Tab(w), w.env, ds, k).value;
        FrameKnown(Tab(w), w.env, ds, k, key);
        assert UnitRefers(w, k, key);
      }
    }
  }

  /** Over all units: a key holds the frame size of some function referring to it, or what it held before. */
  lemma {:induction false} TableOverUnits(ws: seq<Walked>, lists: map<nat, nat>, key: nat)
    requires forall n :: 0 <= n < |ws| ==> |ws[n].u| >= 12
    ensures var m := ListsAfter(ws, lists);
            (key in m && exists n :: 0 <= n < |ws| && Referred(ws[n], key, m[key])) ||
            ((forall n, k :: 0 <= n < |ws| && 0 <= k < |View(ws[n])| ==> !UnitRefers(ws[n], k, key)) &&
             (key in m <==> key in lists) && (key in lists ==> m[key] == lists[key]))
    decreases |ws|
  {
    hide RewriteUnit, UnitRefers, Referred, View;
    if ws != [] {
      var first := RewriteUnit(ws[0].tables, ws[0].env, lists, ws[0].u).lists;
      UnitTable(ws[0], lists, key);
      TableOverUnits(ws[1..], first, key);
      var m := ListsAfter(ws, lists);
      if key in m && exists n :: 0 <= n < |ws[1..]| && Referred(ws[1..][n], key, m[key]) {
        var n :| 0 <= n < |ws[1..]| && Referred(ws[1..][n], key, m[key]);
        assert Referred(ws[n + 1], key, m[key]);
      } else {
        assert forall n :: 0 < n < |ws| ==> ws[n] == ws[1..][n - 1];
      }
    }
  }

  /** Every reference is to an index of some contribution of .debug_loclists. */
  ghost predicate ValidRef(w: Walked, k: nat, i: nat, ll: Bytes, spans: seq<LL.Span>)
    requires IsRef(Tab(w), View(w), k, i) && LL.Accepted(ll, spans)
  {
    exists j :: 0 <= j < |spans| && BaseBefore(Tab(w), View(w), k, i) == LL.Base(spans[j]) &&
                Index(View(w)[k].fields[i]) < LL.Count(LL.At(ll, spans[j]))
  }

  ghost predicate RefsValid(ws: seq<Walked>, ll: Bytes, spans: seq<LL.Span>)
    requires LL.Accepted(ll, spans)
  {
    forall n, k, i :: 0 <= n < |ws| && IsRef(Tab(ws[n]), View(ws[n]), k, i) ==> ValidRef(ws[n], k, i, ll, spans)
  }

  predicate SameList(w: Walked, k: nat, i: nat, w': Walked, k': nat, i': nat)
    requires IsRef(Tab(w), View(w), k, i) && IsRef(Tab(w'), View(w'), k', i')
  {
    BaseBefore(Tab(w), View(w), k, i) == BaseBefore(Tab(w'), View(w'), k', i') &&
    Index(View(w)[k].fields[i]) == Index(View(w')[k'].fields[i'])
  }

  function RefFrame(w: Walked, k: nat): Option<nat>
    requires k <= |View(w)|
  {
    FrameAt(Tab(w), w.env, View(w), k)
  }

  /** All entries that refer to one list lie in functions of one frame size, or in none. */
  ghost predicate OneFrame(ws: seq<Walked>)
  {
    forall n, k, i, n', k', i' ::
      (0 <= n < |ws| && 0 <= n' < |ws| && IsRef(Tab(ws[n]), View(ws[n]), k, i) && IsRef(Tab(ws[n']), View(ws[n']), k', i') &&
       SameList(ws[n], k, i, ws[n'], k', i')) ==> RefFrame(ws[n], k) == RefFrame(ws[n'], k')
  }

  /** Two references with one key are to one list: keys of different contributions do not collide. */
  lemma SameKeySameList(w: Walked, k: nat, i: nat, w': Walked, k': nat, i': nat, ll: Bytes, spans: seq<LL.Span>)
    requires LL.InOrder(spans, 0, |ll|) && LL.Accepted(ll, spans)
    requires IsRef(Tab(w), View(w), k, i) && IsRef(Tab(w'), View(w'), k', i')
    requires ValidRef(w, k, i, ll, spans) && ValidRef(w', k', i', ll, spans)
    requires BaseBefore(Tab(w), View(w), k, i) + Index(View(w)[k].fields[i]) ==
             BaseBefore(Tab(w'), View(w'), k', i') + Index(View(w')[k'].fields[i'])
    ensures SameList(w, k, i, w', k', i')
  {
    hide BaseBefore, View, Tab, Index, LL.InOrder, LL.At, LL.Count;
    var j :| 0 <= j < |spans| && BaseBefore(Tab(w), View(w), k, i) == LL.Base(spans[j]) &&
             Index(View(w)[k].fields[i]) < LL.Count(LL.At(ll, spans[j]));
    var j' :| 0 <= j' < |spans| && BaseBefore(Tab(w'), View(w'), k', i') == LL.Base(spans[j']) &&
              Index(View(w')[k'].fields[i']) < LL.Count(LL.At(ll, spans[j']));
    LL.AcceptedLength(ll, spans, j);
    LL.AcceptedLength(ll, spans, j');
    LL.KeysDistinct(ll, spans, j, Index(View(w)[k].fields[i]), j', Index(View(w')[k'].fields[i']));
  }

  /** The frame size recorded for the list of a reference is that of the function around the reference. */
  lemma TableIsRight(ws: seq<Walked>, ll: Bytes, spans: seq<LL.Span>, n: nat, k: nat, i: nat)
    requires forall m :: 0 <= m < |ws| ==> |ws[m].u| >= 12
    requires LL.InOrder(spans, 0, |ll|) && LL.Accepted(ll, spans) && RefsValid(ws, ll, spans) && OneFrame(ws)
    requires n < |ws| && IsRef(Tab(ws[n]), View(ws[n]), k, i)
    ensures LL.FrameOf(ListsAfter(ws, map[]), BaseBefore(Tab(ws[n]), View(ws[n]), k, i) + Index(View(ws[n])[k].fields[i])) ==
            RefFrame(ws[n], k)
  {
    hide View, Tab, ListsAfter, FrameAt, BaseAt, BaseAfter, DecodeUnsigned, FieldKeys;
    var w := ws[n];
    var key := BaseBefore(Tab(w), View(w), k, i) + Index(View(w)[k].fields[i]);
    var m := ListsAfter(ws, map[]);
    TableOverUnits(ws, map[], key);
    if key in m {
      var n' :| 0 <= n' < |ws| && Referred(ws[n'], key, m[key]);
      var w' := ws[n'];
      var k' :| 0 <= k' < |View(w')| && UnitRefers(w', k', key) && FrameAt(Tab(w'), w'.env, View(w'), k') == Some(m[key]);
      var i' := FieldOfKey(View(w')[k'].fields, BaseAt(Tab(w'), View(w'), k'), key);
      assert IsRef(Tab(w'), View(w'), k', i');
      SameKeySameList(w, k, i, w', k', i', ll, spans);
      assert RefFrame(w, k) == RefFrame(w', k');
    } else {
      KeyOfField(View(w)[k].fields, BaseAt(Tab(w), View(w), k), i);
      assert !UnitRefers(w, k, key);
    }
  }

  // ---------------------------------------------------------------------------
  // The units of the section, before and after
  // ---------------------------------------------------------------------------

  function WalkedOf(tables: AbbrevTables, env: Env, us: seq<Bytes>): (ws: seq<Walked>)
    ensures |ws| == |us| && forall n :: 0 <= n < |us| ==> ws[n] == Walked(tables, env, us[n])
  {
    seq(|us|, n requires 0 <= n < |us| => Walked(tables, env, us[n]))
  }

  predicate UnitsLong(ws: seq<Walked>)
  {
    forall n :: 0 <= n < |ws| ==> |ws[n].u| >= 12
  }

  /** All units of all contributions, in section order. */
  function AllUnits(src: Bytes, cs: seq<Contribution>, from: nat): (ws: seq<Walked>)
    requires InOrder(cs, from, |src|)
    ensures UnitsLong(ws)
    decreases |cs|
  {
    if cs == [] then []
    else
      var end := cs[0].start + cs[0].size;
      WalkedOf(cs[0].tables, cs[0].env, SplitUnits(src[cs[0].start..end]).units) + AllUnits(src, cs[1..], end)
  }

  /** The rewritten units, with the table threaded through. */
  function NewUnits(ws: seq<Walked>, lists: map<nat, nat>): (r: seq<Bytes>)
    requires UnitsLong(ws)
    ensures |r| == |ws|
    decreases |ws|
  {
    if ws == [] then []
    else
      var u := RewriteUnit(ws[0].tables, ws[0].env, lists, ws[0].u);
      [u.bytes] + NewUnits(ws[1..], u.lists)
  }

  lemma {:induction false} ListsAppend(a: seq<Walked>, b: seq<Walked>, lists: map<nat, nat>)
    requires UnitsLong(a) && UnitsLong(b)
    ensures UnitsLong(a + b)
    ensures ListsAfter(a + b, lists) == ListsAfter(b, ListsAfter(a, lists))
    ensures NewUnits(a + b, lists) == NewUnits(a, lists) + NewUnits(b, ListsAfter(a, lists))
    decreases |a|
  {
    hide RewriteUnit;
    if a == [] {
      assert a + b == b;
    } else {
      assert (a + b)[1..] == a[1..] + b;
      ListsAppend(a[1..], b, RewriteUnit(a[0].tables, a[0].env, lists, a[0].u).lists);
    }
  }

  lemma {:induction false} NewUnitAt(ws: seq<Walked>, lists: map<nat, nat>, n: nat)
    requires UnitsLong(ws) && n < |ws|
    ensures NewUnits(ws, lists)[n] == RewriteUnit(ws[n].tables, ws[n].env, ListsAfter(ws[..n], lists), ws[n].u).bytes
    decreases |ws|
  {
    hide RewriteUnit;
    if n > 0 {
      NewUnitAt(ws[1..], RewriteUnit(ws[0].tables, ws[0].env, lists, ws[0].u).lists, n - 1);
      assert ws[..n][1..] == ws[1..][..n - 1];
    }
  }

  /** One contribution: its rewriting is that of its units. */
  lemma {:induction false} UnitsRewritten(tables: AbbrevTables, env: Env, lists: map<nat, nat>, c: Bytes)
    ensures var us := SplitUnits(c).units;
            RewriteUnits(tables, env, lists, c).lists == ListsAfter(WalkedOf(tables, env, us), lists) &&
            RewriteEach(tables, env, lists, us) == NewUnits(WalkedOf(tables, env, us), lists)
    decreases |c|
  {
    hide RewriteUnit, UnitAt;
    if UnitAt(c) {
      var n := UnitSize(c);
      var us, rest := SplitUnits(c).units, SplitUnits(c[n..]).units;
      assert us == [c[..n]] + rest;
      assert us[1..] == rest;
      assert WalkedOf(tables, env, us)[1..] == WalkedOf(tables, env, rest);
      UnitsRewritten(tables, env, RewriteUnit(tables, env, lists, c[..n]).lists, c[n..]);
    }
  }

  lemma {:induction false} SectionLists(src: Bytes, cs: seq<Contribution>, from: nat, lists: map<nat, nat>)
    requires InOrder(cs, from, |src|)
    ensures RewriteSection(src, cs, from, lists).lists == ListsAfter(AllUnits(src, cs, from), lists)
    decreases |cs|
  {
    hide RewriteUnits, ListsAfter, SplitUnits;
    if cs == [] {
      NoUnits(lists);
    } else {
      var end := cs[0].start + cs[0].size;
      var c := src[cs[0].start..end];
      var ws, rest := WalkedOf(cs[0].tables, cs[0].env, SplitUnits(c).units), AllUnits(src, cs[1..], end);
      UnitsRewritten(cs[0].tables, cs[0].env, lists, c);
      SectionLists(src, cs[1..], end, ListsAfter(ws, lists));
      ListsAppend(ws, rest, lists);
    }
  }

  lemma NoUnits(lists: map<nat, nat>)
    ensures ListsAfter([], lists) == lists && NewUnits([], lists) == []
  {
  }

  /** The contributions fill the section, and units fill each contribution. */
  predicate Whole(src: Bytes, cs: seq<Contribution>, from: nat)
    requires InOrder(cs, from, |src|)
    decreases |cs|
  {
    if cs == [] then from == |src|
    else
      var end := cs[0].start + cs[0].size;
      cs[0].start == from && SplitUnits(src[from..end]).tail == [] && Whole(src, cs[1..], end)
  }

  lemma {:induction false} SplitAppend(a: Bytes, b: Bytes)
    requires SplitUnits(a).tail == []
    ensures SplitUnits(a + b) == Units(SplitUnits(a).units + SplitUnits(b).units, SplitUnits(b).tail)
    decreases |a|
  {
    hide UnitAt, SplitUnits;
    SplitNext(a);
    if !UnitAt(a) {
      assert a + b == b;
    } else {
      var n := UnitSize(a);
      var u, rest := a[..n], a[n..];
      WholeUnit(a);
      UnitAtLocal(u, rest + b);
      assert u + (rest + b) == a + b;
      SplitNext(a + b);
      SplitAppend(rest, b);
      var us := SplitUnits(rest).units;
      assert [u] + (us + SplitUnits(b).units) == ([u] + us) + SplitUnits(b).units;
    }
  }

  lemma SplitNext(c: Bytes)
    ensures !UnitAt(c) ==> SplitUnits(c) == Units([], c)
    ensures UnitAt(c) ==>
      var rest := SplitUnits(c[UnitSize(c)..]);
      SplitUnits(c) == Units([c[..UnitSize(c)]] + rest.units, rest.tail)
  {
    hide UnitAt;
  }

  /** The rewritten section consists of the rewritten units. */
  lemma {:induction false} NewSplit(src: Bytes, cs: seq<Contribution>, from: nat, lists: map<nat, nat>)
    requires InOrder(cs, from, |src|) && Whole(src, cs, from)
    requires AllFit(NewUnits(AllUnits(src, cs, from), lists))
    ensures SplitUnits(RewriteSection(src, cs, from, lists).bytes) == Units(NewUnits(AllUnits(src, cs, from), lists), [])
    decreases |cs|
  {
    hide RewriteUnits, ListsAfter, SplitUnits, NewUnits, RewriteEach, FitsLength;
    if cs == [] {
      NoUnits(lists);
      assert src[from..] == [];
      EmptySplit();
    } else {
      var end := cs[0].start + cs[0].size;
      var c := src[from..end];
      var ws, rest := WalkedOf(cs[0].tables, cs[0].env, SplitUnits(c).units), AllUnits(src, cs[1..], end);
      var here := RewriteUnits(cs[0].tables, cs[0].env, lists, c);
      UnitsRewritten(cs[0].tables, cs[0].env, lists, c);
      ListsAppend(ws, rest, lists);
      var all := NewUnits(ws + rest, lists);
      var first, others := NewUnits(ws, lists), NewUnits(rest, ListsAfter(ws, lists));
      assert AllFit(first) by { assert forall i :: 0 <= i < |first| ==> first[i] == all[i]; }
      assert AllFit(others) by { assert forall i :: 0 <= i < |others| ==> others[i] == all[|first| + i]; }
      RewrittenUnitsSplit(cs[0].tables, cs[0].env, lists, c);
      NewSplit(src, cs[1..], end, here.lists);
      SplitAppend(here.bytes, RewriteSection(src, cs[1..], end, here.lists).bytes);
      assert src[from..from] == [];
      assert [] + here.bytes == here.bytes;
    }
  }

  lemma EmptySplit()
    ensures SplitUnits([]) == Units([], [])
  {
  }

  /** Remapping goes unit by unit too. */
  function RemapEach(all: AbbrevTables, us: seq<Bytes>, remap: BaseMap): (r: seq<Bytes>)
    requires forall n :: 0 <= n < |us| ==> |us[n]| >= 12
    ensures |r| == |us| && forall n :: 0 <= n < |us| ==> r[n] == RemapUnit(all, us[n], remap)
  {
    seq(|us|, n requires 0 <= n < |us| => RemapUnit(all, us[n], remap))
  }

  lemma RemapKeepsHeader(all: AbbrevTables, u: Bytes, remap: BaseMap)
    requires |u| >= 12
    ensures var r := RemapUnit(all, u, remap); r[..HeaderSize(u)] == u[..HeaderSize(u)]
    ensures UnitAt(u) && UnitSize(u) == |u| ==>
      UnitAt(RemapUnit(all, u, remap)) && UnitSize(RemapUnit(all, u, remap)) == |u|
  {
    hide RemapDies;
    var r := RemapUnit(all, u, remap);
    assert r[..HeaderSize(u)] == u[..HeaderSize(u)];
    assert r[..4] == r[..HeaderSize(u)][..4] && u[..4] == u[..HeaderSize(u)][..4];
  }

  lemma {:induction false} RemappedSplit(all: AbbrevTables, c: Bytes, remap: BaseMap)
    ensures SplitUnits(RemapUnits(all, c, remap)) == Units(RemapEach(all, SplitUnits(c).units, remap), SplitUnits(c).tail)
    decreases |c|
  {
    hide RemapUnit, UnitAt;
    if UnitAt(c) {
      var n := UnitSize(c);
      var u, rest := c[..n], RemapUnits(all, c[n..], remap);
      WholeUnit(c);
      RemapKeepsHeader(all, u, remap);
      var r := RemapUnit(all, u, remap);
      UnitAtLocal(r, rest);
      RemappedSplit(all, c[n..], remap);
      var us, more := SplitUnits(c).units, SplitUnits(c[n..]).units;
      assert us == [u] + more;
      assert RemapEach(all, us, remap) == [r] + RemapEach(all, more, remap);
    }
  }

  // ---------------------------------------------------------------------------
  // Bases and indices through both rewritings
  // ---------------------------------------------------------------------------

  function Mapped(remap: BaseMap, base: nat): nat
  {
    if base in remap then remap[base] else base
  }

  predicate OneBaseField(fields: seq<Field>)
  {
    forall i, j :: 0 <= i < |fields| && 0 <= j < |fields| && fields[i].attr == BASE_ATTR && fields[j].attr == BASE_ATTR ==> i == j
  }

  /** No entry has two DW_AT_loclists_base (section 2.2 of DWARF 5 allows one of each attribute). */
  predicate OneBase(ds: seq<Die>)
  {
    forall k :: 0 <= k < |ds| ==> OneBaseField(ds[k].fields)
  }

  lemma {:induction false} BaseOfPrefix(fields: seq<Field>, base: nat, i: nat)
    requires OneBaseField(fields) && i <= |fields|
    ensures var j := LastBase(fields);
            BaseAfter(fields[..i], base) == if j.Some? && j.value < i then FromLe(fields[j.value].raw) else base
    decreases |fields|
  {
    hide FromLe;
    if i > 0 {
      var rest := fields[1..];
      assert fields[..i][1..] == rest[..i - 1];
      assert OneBaseField(rest) by {
        assert forall a :: 0 <= a < |rest| ==> rest[a] == fields[a + 1];
      }
      BaseOfPrefix(rest, NextBase(fields[0], base), i - 1);
      var r := LastBase(rest);
      if r.Some? { assert rest[r.value] == fields[r.value + 1]; }
    }
  }

  /** Same attributes; bases and list indices byte for byte. */
  predicate SameListFields(a: seq<Field>, b: seq<Field>)
  {
    |a| == |b| &&
    forall i :: 0 <= i < |a| ==>
      a[i].attr == b[i].attr && (a[i].attr == BASE_ATTR || RefersToList(a[i]) ==> a[i].raw == b[i].raw)
  }

  predicate SameLists(ds: seq<Die>, ns: seq<Die>)
  {
    |ns| == |ds| && forall k :: 0 <= k < |ds| ==> ns[k].code == ds[k].code && SameListFields(ds[k].fields, ns[k].fields)
  }

  predicate MapFits(remap: BaseMap)
  {
    0 !in remap && forall b :: b in remap ==> remap[b] < 0x1_0000_0000
  }

  /** Within an entry, the base in force at each field is mapped. */
  lemma FieldBaseMapped(a: seq<Field>, b: seq<Field>, remap: BaseMap, base: nat, i: nat)
    requires SameListFields(a, b) && OneBaseField(a) && MapFits(remap) && i <= |a|
    ensures var c := RemapFields(b, remap);
            SameShape(a, c) && BaseAfter(c[..i], Mapped(remap, base)) == Mapped(remap, BaseAfter(a[..i], base))
  {
    hide BaseAfter, LastBase, FromLe, Le;
    var c := RemapFields(b, remap);
    assert SameListAttrs(a, b) && SameListAttrs(b, c);
    SameLastAttrs(a, b);
    var j := LastBase(a);
    SameLastAttrs(b, c);
    BaseOfPrefix(a, base, i);
    BaseOfPrefix(c, Mapped(remap, base), i);
    if j.Some? && FromLe(b[j.value].raw) in remap {
      assert Pow256(4) == 0x1_0000_0000;
      LeRoundTrip(4, remap[FromLe(b[j.value].raw)]);
    }
  }

  predicate SameListAttrs(a: seq<Field>, b: seq<Field>)
  {
    |a| == |b| && forall i :: 0 <= i < |a| ==> a[i].attr == b[i].attr
  }

  lemma SameLastAttrs(a: seq<Field>, b: seq<Field>)
    requires SameListAttrs(a, b) && OneBaseField(a)
    ensures OneBaseField(b) && LastBase(a) == LastBase(b)
  {
    hide LastBase;
    var i, j := LastBase(a), LastBase(b);
    if i.Some? { assert b[i.value].attr == BASE_ATTR; }
    if j.Some? { assert a[j.value].attr == BASE_ATTR; }
  }

  /** Same attributes, and list indices byte for byte. */
  predicate SameShape(a: seq<Field>, b: seq<Field>)
  {
    |a| == |b| && forall i :: 0 <= i < |a| ==> a[i].attr == b[i].attr && (RefersToList(a[i]) ==> a[i].raw == b[i].raw)
  }

  function RemapAll(ns: seq<Die>, remap: BaseMap): (r: seq<Die>)
    ensures |r| == |ns| && forall k :: 0 <= k < |ns| ==> r[k] == RemapDie(ns[k], remap)
  {
    seq(|ns|, k requires 0 <= k < |ns| => RemapDie(ns[k], remap))
  }

  lemma {:induction false} BaseAtMapped(tab: AbbrevTable, ds: seq<Die>, ns: seq<Die>, remap: BaseMap, k: nat)
    requires SameLists(ds, ns) && OneBase(ds) && MapFits(remap) && k <= |ds|
    ensures BaseAt(tab, RemapAll(ns, remap), k) == Mapped(remap, BaseAt(tab, ds, k))
    decreases k
  {
    hide BaseAfter, RemapFields, Mapped;
    if k == 0 {
      assert Mapped(remap, 0) == 0 by { ZeroStays(remap); }
    } else {
      BaseAtMapped(tab, ds, ns, remap, k - 1);
      var a, b := ds[k - 1].fields, ns[k - 1].fields;
      FieldBaseMapped(a, b, remap, BaseAt(tab, ds, k - 1), |a|);
      var c := RemapFields(b, remap);
      assert a[..|a|] == a && c[..|a|] == c;
      assert RemapAll(ns, remap)[k - 1] == RemapDie(ns[k - 1], remap);
    }
  }

  lemma ZeroStays(remap: BaseMap)
    requires MapFits(remap)
    ensures Mapped(remap, 0) == 0
  {
  }

  /** A reference after both passes: same place, same index, mapped base. */
  lemma RefMapped(tab: AbbrevTable, ds: seq<Die>, ns: seq<Die>, remap: BaseMap, k: nat, i: nat)
    requires SameLists(ds, ns) && OneBase(ds) && MapFits(remap) && IsRef(tab, ds, k, i)
    ensures var fs := RemapAll(ns, remap);
            |fs| == |ds| && IsRef(tab, fs, k, i) && Index(fs[k].fields[i]) == Index(ds[k].fields[i]) &&
            BaseBefore(tab, fs, k, i) == Mapped(remap, BaseBefore(tab, ds, k, i))
  {
    hide BaseAfter, RemapFields, Mapped, DecodeUnsigned;
    BaseAtMapped(tab, ds, ns, remap, k);
    FieldBaseMapped(ds[k].fields, ns[k].fields, remap, BaseAt(tab, ds, k), i);
  }

  /** Rebuilding a unit keeps its bases and list indices. */
  lemma RewrittenKeepsLists(w: Walked, lists: map<nat, nat>)
    requires |w.u| >= 12 && Handled(w.tables, w.u)
    requires var es := EntriesOf(Tab(w), w.u[HeaderSize(w.u)..], HeaderSize(w.u)); es.Some? && NoSectionRefs(es.value)
    ensures var h := HeaderSize(w.u);
            var v := RewriteUnit(w.tables, w.env, lists, w.u).bytes;
            |v| >= h && ReadDies(Tab(w), v[h..], h).Some? && NoSectionRefs(ReadDies(Tab(w), v[h..], h).value) &&
            SameLists(EntriesOf(Tab(w), w.u[h..], h).value, ReadDies(Tab(w), v[h..], h).value)
  {
    hide ReadDies, EntriesOf, RewriteUnit, SameLists, NoSectionRefs, FrameAt;
    var tab, h := Tab(w), HeaderSize(w.u);
    var v := RewriteUnit(w.tables, w.env, lists, w.u).bytes;
    DecodingAgreesIff(tab, w.u[h..], h);
    ReaderKeepsUnit(w.tables, w.env, lists, w.u);
    var ds := ReadDies(tab, w.u[h..], h).value;
    if SameEntries(tab, w.env, ds, EntriesOf(tab, v[h..], h).value) {
      SameForms(tab, w.env, ds, EntriesOf(tab, v[h..], h).value);
      DecodingAgreesIff(tab, v[h..], h);
      EntriesSameLists(tab, w.env, w.u[h..], v[h..], h);
    } else {
      SameListsRefl(ds);
    }
  }

  lemma SameListsRefl(ds: seq<Die>)
    ensures SameLists(ds, ds)
  {
  }

  lemma EntriesSameLists(tab: AbbrevTable, env: Env, s: Bytes, t: Bytes, h: nat)
    requires ReadDies(tab, s, h).Some? && ReadDies(tab, t, h).Some?
    requires SameEntries(tab, env, ReadDies(tab, s, h).value, ReadDies(tab, t, h).value)
    ensures SameLists(ReadDies(tab, s, h).value, ReadDies(tab, t, h).value)
  {
    hide ReadDies, FrameAt, WellRead, ReadValue;
    var ds, ns := ReadDies(tab, s, h).value, ReadDies(tab, t, h).value;
    forall k | 0 <= k < |ds|
      ensures ns[k].code == ds[k].code && SameListFields(ds[k].fields, ns[k].fields)
    {
      DieFieldsWellRead(tab, s, h, k);
      DieFieldsWellRead(tab, t, h, k);
      forall i | 0 <= i < |ds[k].fields|
        ensures ds[k].fields[i].attr == ns[k].fields[i].attr
        ensures ds[k].fields[i].attr == BASE_ATTR || RefersToList(ds[k].fields[i]) ==> ds[k].fields[i].raw == ns[k].fields[i].raw
      {
        var f, g := ds[k].fields[i], ns[k].fields[i];
        assert SameMeaning(f, g, FrameAt(tab, env, ds, k), ds, ns);
        if f.attr == BASE_ATTR || RefersToList(f) {
          PlainRaw(f);
          PlainRaw(g);
        }
      }
    }
  }

  lemma PlainRaw(f: Field)
    requires WellRead(f) && (f.attr == BASE_ATTR || RefersToList(f))
    ensures f.val == Plain(f.raw)
  {
    assert f.raw[..|f.raw|] == f.raw;
  }

  /** What a reader finds in a unit after both passes. */
  lemma FinalEntries(w: Walked, all: AbbrevTables, lists: map<nat, nat>, remap: BaseMap)
    requires UnitAt(w.u) && UnitSize(w.u) == |w.u| && Handled(w.tables, w.u)
    requires AbbrevOffset(w.u) in all && all[AbbrevOffset(w.u)] == Tab(w)
    requires FitsLength(RewriteUnit(w.tables, w.env, lists, w.u).bytes)
    requires var es := EntriesOf(Tab(w), w.u[HeaderSize(w.u)..], HeaderSize(w.u)); es.Some? && NoSectionRefs(es.value)
    ensures var h := HeaderSize(w.u);
            var v := RewriteUnit(w.tables, w.env, lists, w.u).bytes;
            |v| >= 12 && ReadDies(Tab(w), v[h..], h).Some? &&
            var x := RemapUnit(all, v, remap);
            HeaderSize(x) == h && |x| >= h &&
            EntriesOf(Tab(w), x[h..], h) == Some(RemapAll(ReadDies(Tab(w), v[h..], h).value, remap)) &&
            SameLists(EntriesOf(Tab(w), w.u[h..], h).value, ReadDies(Tab(w), v[h..], h).value)
  {
    hide ReadDies, EntriesOf, RewriteUnit, SameLists, NoSectionRefs, RemapDies, UnitAt, UnitSize;
    var tab, h := Tab(w), HeaderSize(w.u);
    var v := RewriteUnit(w.tables, w.env, lists, w.u).bytes;
    RewriteUnitHeader(w.tables, w.env, lists, w.u);
    RewrittenKeepsLists(w, lists);
    var x := RemapUnit(all, v, remap);
    assert x[h..] == RemapDies(tab, v[h..], remap);
    RemapKeepsHeader(all, v, remap);
    SameVersion(v, x);
    var ns := ReadDies(tab, v[h..], h).value;
    RemappedDiesRead(tab, v[h..], remap, h);
    assert ReadDies(tab, x[h..], h) == Some(RemapAll(ns, remap));
    RemapKeepsForms(ns, remap);
    LinkerViewIsStandard(tab, x[h..], h);
  }

  lemma SameVersion(v: Bytes, x: Bytes)
    requires |v| >= 12 && |x| >= 12 && x[..HeaderSize(v)] == v[..HeaderSize(v)]
    ensures HeaderSize(x) == HeaderSize(v)
  {
    assert v[4..6] == v[..HeaderSize(v)][4..6] && x[4..6] == x[..HeaderSize(v)][4..6];
  }

  lemma RemapKeepsForms(ns: seq<Die>, remap: BaseMap)
    requires NoSectionRefs(ns)
    ensures NoSectionRefs(RemapAll(ns, remap))
  {
    hide LastBase, FromLe, Le;
    forall k | 0 <= k < |ns|
      ensures FieldsWithout(RemapAll(ns, remap)[k].fields)
    {
      assert FieldsWithout(ns[k].fields);
    }
  }

  lemma {:induction false} RemapRange(ll: Bytes, spans: seq<LL.Span>, frames: map<nat, nat>, n: nat)
    requires LL.InOrder(spans, 0, |ll|) && LL.Accepted(ll, spans) && n <= |spans|
    requires |LL.NewSection(ll, spans, frames)| < 0x1_0000_0000
    ensures MapFits(LL.Remap(ll, spans, frames, n))
    decreases n
  {
    hide LL.InOrder, LL.Accepted, LL.NewSection, LL.NewStart, LL.NewAt, LL.IsContribution;
    if n > 0 {
      RemapRange(ll, spans, frames, n - 1);
      StartFits(ll, spans, frames, n - 1);
    }
  }

  lemma StartFits(ll: Bytes, spans: seq<LL.Span>, frames: map<nat, nat>, k: nat)
    requires LL.InOrder(spans, 0, |ll|) && LL.Accepted(ll, spans) && k < |spans|
    requires |LL.NewSection(ll, spans, frames)| < 0x1_0000_0000
    ensures |LL.NewAt(ll, spans[k], frames)| < 0x1_0000_0000
    ensures LL.NewStart(ll, spans, frames, k) + LL.HEADER < 0x1_0000_0000
  {
    hide LL.InOrder, LL.NewSection, LL.NewStart, LL.Count, LL.NewContribution;
    LL.NewSectionHolds(ll, spans, frames, k);
    LL.NewIsContribution(LL.At(ll, spans[k]), LL.Base(spans[k]), frames);
  }

  // ---------------------------------------------------------------------------
  // The three passes
  // ---------------------------------------------------------------------------

  /** The results of the passes, one after the other. */
  datatype Debug = Debug(info: Bytes, lists: Bytes)

  function Corrected(src: Bytes, cs: seq<Contribution>, all: AbbrevTables, ll: Bytes, spans: seq<LL.Span>): Debug
    requires InOrder(cs, 0, |src|) && LL.InOrder(spans, 0, |ll|) && LL.Accepted(ll, spans)
  {
    var first := RewriteSection(src, cs, 0, map[]);
    Debug(RemapUnits(all, first.bytes, LL.Remap(ll, spans, first.lists, |spans|)), LL.NewSection(ll, spans, first.lists))
  }

  /** `fix_fbreg_offsets`, `fix_loclists_breg10` and `remap_loclists_base`, in this order. */
  method CorrectDebug(src: Bytes, cs: seq<Contribution>, all: AbbrevTables, ll: Bytes, spans: seq<LL.Span>) returns (r: Debug)
    requires InOrder(cs, 0, |src|) && LL.InOrder(spans, 0, |ll|) && LL.Accepted(ll, spans)
    ensures r == Corrected(src, cs, all, ll, spans)
  {
    var info, frames := FixFbregOffsets(src, cs);
    var lists, remap := LocListsPass.FixLoclists(ll, spans, frames);
    info := RemapSection(all, info, remap);
    r := Debug(info, lists);
  }

  /** What the passes rely on: whole units, whole lists, and 32-bit offsets that fit. */
  ghost predicate WellFormed(src: Bytes, cs: seq<Contribution>, all: AbbrevTables, ll: Bytes, spans: seq<LL.Span>)
  {
    InOrder(cs, 0, |src|) && Whole(src, cs, 0) && LL.InOrder(spans, 0, |ll|) && LL.Accepted(ll, spans) &&
    var ws := AllUnits(src, cs, 0);
    AllFit(NewUnits(ws, map[])) && RefsValid(ws, ll, spans) && OneFrame(ws) &&
    (forall n, off :: 0 <= n < |ws| && off in ws[n].tables ==> off in all && all[off] == ws[n].tables[off]) &&
    (forall j :: 0 <= j < |spans| ==> LL.AllListsRead(LL.At(ll, spans[j]))) &&
    |LL.NewSection(ll, spans, RewriteSection(src, cs, 0, map[]).lists)| < 0x1_0000_0000
  }

  /** The unit is one the linker handles and a reader can read, with at most one base per entry and no section references. */
  ghost predicate Readable(w: Walked)
  {
    UnitAt(w.u) && UnitSize(w.u) == |w.u| && Handled(w.tables, w.u) &&
    var es := EntriesOf(Tab(w), w.u[HeaderSize(w.u)..], HeaderSize(w.u));
    es.Some? && NoSectionRefs(es.value) && OneBase(es.value)
  }

  function Entries(w: Walked): seq<Die>
    requires Readable(w)
  {
    EntriesOf(Tab(w), w.u[HeaderSize(w.u)..], HeaderSize(w.u)).value
  }

  lemma EntriesAreSeen(w: Walked)
    requires Readable(w)
    ensures View(w) == Entries(w)
  {
    hide Seen, ReadDies, EntriesOf, NoSectionRefs, OneBase;
    var h := HeaderSize(w.u);
    DecodingAgreesIff(Tab(w), w.u[h..], h);
    SeenReadable(Tab(w), w.u[h..], h);
  }

  /**
   * End to end. Take any entry of any readable unit whose location is a list.
   * After the three passes a reader finds, at the same place of the same
   * unit, the same index, and under the base now in force this index leads to
   * the old list with the frame size of the entry's own function subtracted.
   */
  lemma ListsFollowTheirFunctions(src: Bytes, cs: seq<Contribution>, all: AbbrevTables, ll: Bytes, spans: seq<LL.Span>,
                                  n: nat, k: nat, i: nat)
    requires WellFormed(src, cs, all, ll, spans) && n < |AllUnits(src, cs, 0)| && Readable(AllUnits(src, cs, 0)[n])
    requires IsRef(Tab(AllUnits(src, cs, 0)[n]), Entries(AllUnits(src, cs, 0)[n]), k, i)
    ensures var w := AllUnits(src, cs, 0)[n];
            var tab, h, es := Tab(w), HeaderSize(w.u), Entries(w);
            var r := Corrected(src, cs, all, ll, spans);
            var units := SplitUnits(r.info).units;
            n < |units| && HeaderSize(units[n]) == h && EntriesOf(tab, units[n][h..], h).Some? &&
            var fs := EntriesOf(tab, units[n][h..], h).value;
            |fs| == |es| && IsRef(tab, fs, k, i) && Index(fs[k].fields[i]) == Index(es[k].fields[i]) &&
            LL.ListCorrected(LL.Lookup(ll, BaseBefore(tab, es, k, i), Index(es[k].fields[i])),
                             LL.Lookup(r.lists, BaseBefore(tab, fs, k, i), Index(es[k].fields[i])),
                             FrameAt(tab, w.env, es, k))
  {
    hide RewriteSection, RemapUnits, LL.Remap, LL.NewSection, SplitUnits, EntriesOf, ReadDies, FrameAt, BaseBefore, Seen, LL.InOrder,
      InOrder, Whole, AllUnits, NewUnits, ListsAfter, RewriteUnit, RemapUnit, RefsValid, OneFrame, SameLists, IsRef, OneBase, NoSectionRefs,
      Index, LL.AllListsRead, LL.Lookup, LL.ListCorrected, MapFits, FitsLength, UnitAt, LL.IsContribution, LL.Count;
    var w := AllUnits(src, cs, 0)[n];
    var lists := ListsAfter(AllUnits(src, cs, 0)[..n], map[]);
    var remap := LL.Remap(ll, spans, RewriteSection(src, cs, 0, map[]).lists, |spans|);
    FinalUnit(src, cs, all, remap, n);
    FinalEntries(w, all, lists, remap);
    RemapRange(ll, spans, RewriteSection(src, cs, 0, map[]).lists, |spans|);
    var h := HeaderSize(w.u);
    var ns := ReadDies(Tab(w), RewriteUnit(w.tables, w.env, lists, w.u).bytes[h..], h).value;
    RefMapped(Tab(w), Entries(w), ns, remap, k, i);
    ListFound(src, cs, all, ll, spans, n, k, i);
  }

  /** Unit `n` of the final section is unit `n` of the old one after both passes. */
  lemma FinalUnit(src: Bytes, cs: seq<Contribution>, all: AbbrevTables, remap: BaseMap, n: nat)
    requires InOrder(cs, 0, |src|) && Whole(src, cs, 0) && AllFit(NewUnits(AllUnits(src, cs, 0), map[]))
    requires n < |AllUnits(src, cs, 0)|
    ensures var ws := AllUnits(src, cs, 0);
            var v := RewriteUnit(ws[n].tables, ws[n].env, ListsAfter(ws[..n], map[]), ws[n].u).bytes;
            var units := SplitUnits(RemapUnits(all, RewriteSection(src, cs, 0, map[]).bytes, remap)).units;
            FitsLength(v) && n < |units| && units[n] == RemapUnit(all, v, remap)
  {
    hide RewriteSection, RemapUnits, SplitUnits, InOrder, Whole, AllUnits, NewUnits, ListsAfter, RewriteUnit, RemapUnit, FitsLength;
    var ws := AllUnits(src, cs, 0);
    NewSplit(src, cs, 0, map[]);
    NewUnitAt(ws, map[], n);
    RemappedSplit(all, RewriteSection(src, cs, 0, map[]).bytes, remap);
    assert FitsLength(NewUnits(ws, map[])[n]);
  }

  /** The list of a reference, before and after. */
  lemma ListFound(src: Bytes, cs: seq<Contribution>, all: AbbrevTables, ll: Bytes, spans: seq<LL.Span>, n: nat, k: nat, i: nat)
    requires WellFormed(src, cs, all, ll, spans) && n < |AllUnits(src, cs, 0)| && Readable(AllUnits(src, cs, 0)[n])
    requires IsRef(Tab(AllUnits(src, cs, 0)[n]), Entries(AllUnits(src, cs, 0)[n]), k, i)
    ensures var w := AllUnits(src, cs, 0)[n];
            var tab, es := Tab(w), Entries(w);
            var frames := RewriteSection(src, cs, 0, map[]).lists;
            LL.ListCorrected(LL.Lookup(ll, BaseBefore(tab, es, k, i), Index(es[k].fields[i])),
                             LL.Lookup(LL.NewSection(ll, spans, frames),
                                       Mapped(LL.Remap(ll, spans, frames, |spans|), BaseBefore(tab, es, k, i)), Index(es[k].fields[i])),
                             FrameAt(tab, w.env, es, k))
  {
    hide RewriteSection, LL.Remap, LL.NewSection, SplitUnits, EntriesOf, FrameAt, BaseBefore, Seen, LL.InOrder, InOrder, Whole, AllUnits,
      NewUnits, ListsAfter, OneBase, NoSectionRefs, Index, LL.AllListsRead, LL.Lookup, LL.ListCorrected, UnitAt, Handled, LL.Count, OneFrame,
      View, FitsLength, LL.NewAt;
    var ws := AllUnits(src, cs, 0);
    var w := ws[n];
    var frames := RewriteSection(src, cs, 0, map[]).lists;
    EntriesAreSeen(w);
    SectionLists(src, cs, 0, map[]);
    TableIsRight(ws, ll, spans, n, k, i);
    assert ValidRef(w, k, i, ll, spans);
    var j :| 0 <= j < |spans| && BaseBefore(Tab(w), View(w), k, i) == LL.Base(spans[j]) &&
             Index(View(w)[k].fields[i]) < LL.Count(LL.At(ll, spans[j]));
    StartFits(ll, spans, frames, j);
    LL.SectionLookup(ll, spans, frames, j, Index(View(w)[k].fields[i]));
  }
}
