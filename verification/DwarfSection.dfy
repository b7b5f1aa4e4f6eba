/**
 * The merged .debug_info section: walking its compile units, rebuilding those
 * with fbreg operands, and splicing the rebuilt units back in.
 */
module DwarfSection {
  import opened Leb128
  import opened ByteVectors
  import opened DwarfUnit
  import opened DwarfRewrite

  type AbbrevTables = map<nat, AbbrevTable>

  const DWARF64_ESCAPE: nat := 0xffffffff

  // ---------------------------------------------------------------------------
  // One unit
  // ---------------------------------------------------------------------------

  /** A unit the walk accepts at the front of `c`: 32-bit length, complete, at least 12 bytes. */
  predicate UnitAt(c: Bytes)
  {
    |c| >= 12 && FromLe(c[..4]) != DWARF64_ESCAPE && FromLe(c[..4]) >= 8 && 4 + FromLe(c[..4]) <= |c|
  }

  function UnitSize(c: Bytes): (n: nat)
    requires UnitAt(c)
    ensures 12 <= n <= |c|
  {
    4 + FromLe(c[..4])
  }

  function Version(u: Bytes): nat
    requires |u| >= 12
  {
    FromLe(u[4..6])
  }

  function HeaderSize(u: Bytes): (h: nat)
    requires |u| >= 12
    ensures h == 11 || h == 12
  {
    if Version(u) >= 5 then 12 else 11
  }

  function AbbrevOffset(u: Bytes): nat
    requires |u| >= 12
  {
    if Version(u) >= 5 then FromLe(u[8..12]) else FromLe(u[6..10])
  }

  /** Units of another version or with an unknown abbreviation table are skipped. */
  predicate Handled(tables: AbbrevTables, u: Bytes)
    requires |u| >= 12
  {
    4 <= Version(u) <= 5 && AbbrevOffset(u) in tables
  }

  lemma HeaderWord(n: nat, v: nat)
    requires v < Pow256(n)
    ensures FromLe(Le(n, v)) == v
  {
    LeRoundTrip(n, v);
  }

  /** A version 5 unit as section 7.5.1.1 of DWARF 5 writes it: length, version, unit type, address size, abbreviations. */
  lemma Version5Header(u: Bytes, kind: Byte, address: Byte, abbrev: nat, entries: Bytes)
    requires u == Le(4, 8 + |entries|) + Le(2, 5) + [kind, address] + Le(4, abbrev) + entries
    requires 8 + |entries| < 0xffff_ffff && abbrev < 0x1_0000_0000
    ensures UnitAt(u) && UnitSize(u) == |u| && Version(u) == 5 && AbbrevOffset(u) == abbrev && u[HeaderSize(u)..] == entries
  {
    hide FromLe, Le;
    assert Pow256(4) == 0x1_0000_0000 && Pow256(2) == 0x1_0000;
    HeaderWord(4, 8 + |entries|);
    HeaderWord(2, 5);
    HeaderWord(4, abbrev);
    assert u[..4] == Le(4, 8 + |entries|) && u[4..6] == Le(2, 5) && u[8..12] == Le(4, abbrev) && u[12..] == entries;
  }

  /** A version 4 unit as section 7.5.1.1 of DWARF 4 does: length, version, abbreviations, address size. */
  lemma Version4Header(u: Bytes, abbrev: nat, address: Byte, entries: Bytes)
    requires u == Le(4, 7 + |entries|) + Le(2, 4) + Le(4, abbrev) + [address] + entries
    requires entries != [] && 7 + |entries| < 0xffff_ffff && abbrev < 0x1_0000_0000
    ensures UnitAt(u) && UnitSize(u) == |u| && Version(u) == 4 && AbbrevOffset(u) == abbrev && u[HeaderSize(u)..] == entries
  {
    hide FromLe, Le;
    assert Pow256(4) == 0x1_0000_0000 && Pow256(2) == 0x1_0000;
    HeaderWord(4, 7 + |entries|);
    HeaderWord(2, 4);
    HeaderWord(4, abbrev);
    assert u[..4] == Le(4, 7 + |entries|) && u[4..6] == Le(2, 4) && u[6..10] == Le(4, abbrev) && u[11..] == entries;
  }

  /** The escape of the 64-bit format ends the walk. */
  lemma Dwarf64Stops(c: Bytes)
    requires |c| >= 4 && c[..4] == [0xff, 0xff, 0xff, 0xff]
    ensures !UnitAt(c)
  {
    assert FromLe([0xff]) == 0xff;
    assert FromLe([0xff, 0xff]) == 0xffff;
    assert FromLe([0xff, 0xff, 0xff]) == 0xff_ffff;
    assert FromLe([0xff, 0xff, 0xff, 0xff]) == 0xffff_ffff;
  }

  datatype Rewritten = Rewritten(lists: map<nat, nat>, bytes: Bytes)

  function RewriteUnit(tables: AbbrevTables, env: Env, lists: map<nat, nat>, u: Bytes): (r: Rewritten)
    requires |u| >= 12
  {
    if !Handled(tables, u) then Rewritten(lists, u)
    else
      var h := HeaderSize(u);
      var scan := ScanDies(tables[AbbrevOffset(u)], env, u[h..], h, StartOf(lists));
      ScanEditable(tables[AbbrevOffset(u)], env, u[h..], h, StartOf(lists));
      if scan.ok && Touched(scan.dies) then
        Rewritten(scan.ctx.listFrames, Reassemble(u[..h], NewBody(scan, h)))
      else Rewritten(scan.ctx.listFrames, u)
  }

  lemma {:induction false} ScanFieldsEditable(attrs: seq<Attr>, s: Bytes, st: FieldState)
    requires EditsFit(st.out.edits, |st.out.bytes|)
    ensures var out := ScanFields(attrs, s, st).st.out; EditsFit(out.edits, |out.bytes|)
    decreases |attrs|
  {
    hide ReadValue, LayoutOf, AddField, NoteField, NoteLowPc, WellRead, EditsFit, ApplyEdits, FinalRaw;
    if attrs != [] {
      var layout := LayoutOf(attrs[0].form);
      var v := ReadValue(layout, s);
      if v.Value? {
        var f := Field(attrs[0], s[..v.len], v.val);
        ReadValueLocal(layout, s, []);
        assert s[..v.len] + [] == s[..v.len];
        assert WellRead(f) by { WellReadOf(f); }
        AddFieldPatched(f, CurrentFrame(st.ctx), st.out, map[]);
        ScanFieldsEditable(attrs[1..], s[v.len..], StepField(f, st));
      }
    }
  }

  lemma WellReadOf(f: Field)
    requires ReadValue(LayoutOf(f.attr.form), f.raw) == Value(f.val, |f.raw|)
    ensures WellRead(f)
  {
  }

  /** The references pass A records lie inside the DIE they belong to. */
  lemma {:induction false} ScanEditable(tab: AbbrevTable, env: Env, s: Bytes, off: nat, ctx: Context)
    ensures Editable(ScanDies(tab, env, s, off, ctx).dies)
    decreases |s|
  {
    hide ScanFields, OpenScope, CloseScope;
    if s != [] {
      var d := ScanDie(tab, env, s, off, ctx);
      if d.ok {
        var c := DecodeUnsigned(s);
        if c.value != 0 {
          ScanFieldsEditable(tab[c.value].attrs, s[c.len..], StartDie(off, c.value, ctx));
        }
        ScanEditable(tab, env, s[d.len..], off + d.len, d.ctx);
      }
    }
  }

  /** The new length of a rebuilt unit can be stored in its 32-bit length field. */
  predicate FitsLength(u: Bytes)
  {
    12 <= |u| && |u| - 4 < DWARF64_ESCAPE
  }

  predicate AllFit(units: seq<Bytes>)
  {
    forall i :: 0 <= i < |units| ==> FitsLength(units[i])
  }

  /** A rebuilt unit keeps its header but for unit_length, which is the new length. */
  lemma RewriteUnitHeader(tables: AbbrevTables, env: Env, lists: map<nat, nat>, u: Bytes)
    requires UnitAt(u) && UnitSize(u) == |u|
    requires FitsLength(RewriteUnit(tables, env, lists, u).bytes)
    ensures var v := RewriteUnit(tables, env, lists, u).bytes;
            UnitAt(v) && UnitSize(v) == |v| &&
            v[4..HeaderSize(u)] == u[4..HeaderSize(u)] && HeaderSize(v) == HeaderSize(u) &&
            Version(v) == Version(u) && AbbrevOffset(v) == AbbrevOffset(u)
  {
    hide ScanDies, NewBody, Editable, Touched, StartOf;
    var h := HeaderSize(u);
    var v := RewriteUnit(tables, env, lists, u).bytes;
    if v != u {
      assert v[..4] == Le(4, |v| - 4);
      assert Pow256(4) == 0x1_0000_0000;
      LeRoundTrip(4, |v| - 4);
      assert v[4..h] == u[4..h];
      SameSlice(u, v, 4, h, 4, 6);
      SameSlice(u, v, 4, h, 6, 10);
      if h == 12 { SameSlice(u, v, 4, h, 8, 12); }
    }
  }

  /**
   * The main result for one unit. If its DIEs can be read, then after the
   * rewriting they can be read with the same abbreviations, and they are the
   * same DIEs with the same attributes: references name the same DIEs and
   * location expressions are corrected for the enclosing function.
   */
  lemma RewriteUnitKeepsMeaning(tables: AbbrevTables, env: Env, lists: map<nat, nat>, u: Bytes)
    requires |u| >= 12 && Handled(tables, u)
    requires ReadDies(tables[AbbrevOffset(u)], u[HeaderSize(u)..], HeaderSize(u)).Some?
    requires RewriteUnit(tables, env, lists, u).bytes != u
    ensures var tab, h := tables[AbbrevOffset(u)], HeaderSize(u);
            var v := RewriteUnit(tables, env, lists, u).bytes;
            |v| >= h && ReadDies(tab, v[h..], h).Some? &&
            var ds, ns := ReadDies(tab, u[h..], h).value, ReadDies(tab, v[h..], h).value;
            |ns| == |ds| &&
            forall k :: 0 <= k < |ds| ==>
              ns[k].code == ds[k].code && |ns[k].fields| == |ds[k].fields| &&
              forall i :: 0 <= i < |ds[k].fields| ==>
                SameMeaning(ds[k].fields[i], ns[k].fields[i], FrameAt(tab, env, ds, k), ds, ns)
  {
    hide ScanDies, NewBody, Editable, Touched, StartOf, SameMeaning, FrameAt, ReadDies;
    var tab, h := tables[AbbrevOffset(u)], HeaderSize(u);
    var v := RewriteUnit(tables, env, lists, u).bytes;
    RewriteKeepsMeaning(tab, env, u[h..], h, lists);
    var scan := ScanDies(tab, env, u[h..], h, StartOf(lists));
    assert v[h..] == NewBody(scan, h);
  }

  // ---------------------------------------------------------------------------
  // A contribution: consecutive units, then bytes the walk does not enter
  // ---------------------------------------------------------------------------

  function RewriteUnits(tables: AbbrevTables, env: Env, lists: map<nat, nat>, c: Bytes): (r: Rewritten)
    decreases |c|
  {
    if !UnitAt(c) then Rewritten(lists, c)
    else
      var n := UnitSize(c);
      var u := RewriteUnit(tables, env, lists, c[..n]);
      var rest := RewriteUnits(tables, env, u.lists, c[n..]);
      Rewritten(rest.lists, u.bytes + rest.bytes)
  }

  /** The units of a contribution and what is left after the last one. */
  datatype Units = Units(units: seq<Bytes>, tail: Bytes)

  function SplitUnits(c: Bytes): (r: Units)
    ensures forall i :: 0 <= i < |r.units| ==> |r.units[i]| >= 12
    decreases |c|
  {
    if !UnitAt(c) then Units([], c)
    else
      var n := UnitSize(c);
      var rest := SplitUnits(c[n..]);
      Units([c[..n]] + rest.units, rest.tail)
  }

  /** Unit by unit, the rewriting with the location-list table threaded through. */
  function RewriteEach(tables: AbbrevTables, env: Env, lists: map<nat, nat>, units: seq<Bytes>): (r: seq<Bytes>)
    requires forall i :: 0 <= i < |units| ==> |units[i]| >= 12
    ensures |r| == |units|
    decreases |units|
  {
    if units == [] then []
    else
      var u := RewriteUnit(tables, env, lists, units[0]);
      [u.bytes] + RewriteEach(tables, env, u.lists, units[1..])
  }

  /** A complete unit in front of `rest` is found again whatever `rest` is. */
  lemma UnitAtLocal(u: Bytes, rest: Bytes)
    requires UnitAt(u) && UnitSize(u) == |u|
    ensures UnitAt(u + rest) && UnitSize(u + rest) == |u|
    ensures (u + rest)[..|u|] == u && (u + rest)[|u|..] == rest
  {
    assert (u + rest)[..4] == u[..4];
  }

  /**
   * Walking the rewritten contribution finds the same number of units, each
   * being the rewriting of the unit it replaces, and the same tail.
   */
  lemma {:induction false} RewrittenUnitsSplit(tables: AbbrevTables, env: Env, lists: map<nat, nat>, c: Bytes)
    requires AllFit(RewriteEach(tables, env, lists, SplitUnits(c).units))
    ensures var was := SplitUnits(c);
            SplitUnits(RewriteUnits(tables, env, lists, c).bytes) ==
            Units(RewriteEach(tables, env, lists, was.units), was.tail)
    decreases |c|
  {
    hide RewriteUnit, FitsLength, UnitAt;

    if UnitAt(c) {
      var n := UnitSize(c);
      var u := RewriteUnit(tables, env, lists, c[..n]);
      var was, rest := SplitUnits(c), SplitUnits(c[n..]);
      assert was.units[1..] == rest.units;
      var each := RewriteEach(tables, env, lists, was.units);
      var tail := RewriteEach(tables, env, u.lists, rest.units);
      assert each == [u.bytes] + tail;
      assert FitsLength(each[0]);
      forall i | 0 <= i < |tail| ensures FitsLength(tail[i]) { assert tail[i] == each[i + 1]; }
      RewrittenUnitsSplit(tables, env, u.lists, c[n..]);
      WholeUnit(c);
      RewriteUnitHeader(tables, env, lists, c[..n]);
      UnitAtLocal(u.bytes, RewriteUnits(tables, env, u.lists, c[n..]).bytes);
    }
  }

  lemma WholeUnit(c: Bytes)
    requires UnitAt(c)
    ensures var u := c[..UnitSize(c)]; UnitAt(u) && UnitSize(u) == |u|
  {
    assert c[..UnitSize(c)][..4] == c[..4];
  }
}
