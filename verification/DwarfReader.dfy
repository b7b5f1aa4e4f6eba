/**
 * A reader of .debug_info that follows section 7.5.6 of DWARF 5, and what the
 * rewriting of `fix_fbreg_offsets` means to it. The linker's own table of
 * forms takes DW_FORM_ref_addr (0x10), a 4-byte offset into .debug_info, for
 * a ULEB128 number.
 */
module DwarfReader {
  import opened Leb128
  import opened ByteVectors
  import opened DwarfUnit
  import opened DwarfRewrite
  import opened DwarfSection
  import opened LocationExpr

  const FORM_REF_ADDR: nat := 0x10

  /** 32-bit DWARF 5 with 8-byte addresses, for the forms the linker has an entry for. */
  function FormLayout(form: nat): Layout
  {
    match form
    case 0x01 => Fixed(8)                                                        // addr
    case 0x05 => Fixed(2) case 0x06 => Fixed(4) case 0x07 => Fixed(8)            // data2, data4, data8
    case 0x0b => Fixed(1) case 0x1e => Fixed(16)                                 // data1, data16
    case 0x0c => Fixed(1) case 0x19 => Empty case 0x21 => Empty                  // flag, flag_present, implicit_const
    case 0x0d => Sleb case 0x0f => Uleb                                          // sdata, udata
    case 0x0e => Fixed(4) case 0x1f => Fixed(4) case 0x17 => Fixed(4)            // strp, line_strp, sec_offset
    case 0x10 => InfoRef(4)                                                      // ref_addr
    case 0x11 => UnitRef(1) case 0x12 => UnitRef(2) case 0x13 => UnitRef(4) case 0x14 => UnitRef(8)
    case 0x18 => ExprLoc
    case 0x1a => Uleb case 0x1b => Uleb case 0x22 => Uleb case 0x23 => Uleb      // strx, addrx, loclistx, rnglistx
    case 0x1c => Fixed(4) case 0x24 => Fixed(8)                                  // ref_sup4, ref_sup8
    case 0x25 => Fixed(1) case 0x26 => Fixed(2) case 0x27 => Fixed(3) case 0x28 => Fixed(4)
    case 0x29 => Fixed(1) case 0x2a => Fixed(2) case 0x2b => Fixed(3) case 0x2c => Fixed(4)
    case _ => Unsupported
  }

  function FieldsOf(attrs: seq<Attr>, s: Bytes): (r: FieldsAt)
    ensures r.Fields? ==> r.len <= |s| && |r.fields| == |attrs|
    decreases |attrs|
  {
    if attrs == [] then Fields([], 0)
    else
      var v := ReadValue(FormLayout(attrs[0].form), s);
      if v.Malformed? then BadFields
      else
        var rest := FieldsOf(attrs[1..], s[v.len..]);
        if rest.BadFields? then BadFields
        else Fields([Field(attrs[0], s[..v.len], v.val)] + rest.fields, v.len + rest.len)
  }

  function EntryOf(tab: AbbrevTable, s: Bytes, off: nat): (r: DieAt)
    ensures r.DieAt? ==> 0 < r.len <= |s| && r.die.off == off
  {
    if !Terminated(s) then BadDie
    else
      var c := DecodeUnsigned(s);
      if c.value == 0 then DieAt(Die(off, 0, []), c.len)
      else if c.value !in tab then BadDie
      else
        var fs := FieldsOf(tab[c.value].attrs, s[c.len..]);
        if fs.BadFields? then BadDie else DieAt(Die(off, c.value, fs.fields), c.len + fs.len)
  }

  /** The entries of a unit, as the standard defines them. */
  function EntriesOf(tab: AbbrevTable, s: Bytes, off: nat): (r: Option<seq<Die>>)
    decreases |s|
  {
    if s == [] then Some([])
    else
      var d := EntryOf(tab, s, off);
      if d.BadDie? then None
      else
        var rest := EntriesOf(tab, s[d.len..], off + d.len);
        if rest.None? then None else Some([d.die] + rest.value)
  }

  // ---------------------------------------------------------------------------
  // Where the linker's decoding and the standard agree
  // ---------------------------------------------------------------------------

  lemma FormsAgreeIff(form: nat)
    ensures FormLayout(form) == LayoutOf(form) <==> form != FORM_REF_ADDR
  {
  }

  predicate FieldsWithout(fields: seq<Field>)
  {
    forall i :: 0 <= i < |fields| ==> fields[i].attr.form != FORM_REF_ADDR
  }

  /** No abbreviation used by the entries has the form DW_FORM_ref_addr. */
  predicate NoSectionRefs(ds: seq<Die>)
  {
    forall k :: 0 <= k < |ds| ==> FieldsWithout(ds[k].fields)
  }

  /** Without the form in the attributes, both read the same. */
  lemma {:induction false} FieldsAgree(attrs: seq<Attr>, s: Bytes)
    requires forall i :: 0 <= i < |attrs| ==> attrs[i].form != FORM_REF_ADDR
    ensures ReadFields(attrs, s) == FieldsOf(attrs, s)
    decreases |attrs|
  {
    hide ReadValue, LayoutOf, FormLayout;
    if attrs != [] {
      FormsAgreeIff(attrs[0].form);
      var v := ReadValue(LayoutOf(attrs[0].form), s);
      if v.Value? { FieldsAgree(attrs[1..], s[v.len..]); }
    }
  }

  lemma {:induction false} FieldAttrs(attrs: seq<Attr>, s: Bytes)
    ensures ReadFields(attrs, s).Fields? ==>
              forall i :: 0 <= i < |attrs| ==> ReadFields(attrs, s).fields[i].attr == attrs[i]
    ensures FieldsOf(attrs, s).Fields? ==>
              forall i :: 0 <= i < |attrs| ==>
                var f := FieldsOf(attrs, s).fields[i]; f.attr == attrs[i] && (attrs[i].form == FORM_REF_ADDR ==> f.val.SectionRef?)
    ensures ReadFields(attrs, s).Fields? ==>
              forall i :: 0 <= i < |attrs| ==> !ReadFields(attrs, s).fields[i].val.SectionRef?
    decreases |attrs|
  {
    hide DecodeUnsigned, Terminated;
    if attrs != [] {
      NeverSectionRef(attrs[0].form, s);
      var v, w := ReadValue(LayoutOf(attrs[0].form), s), ReadValue(FormLayout(attrs[0].form), s);
      hide ReadValue, LayoutOf, FormLayout;
      if v.Value? { FieldAttrs(attrs[1..], s[v.len..]); }
      if w.Value? { FieldAttrs(attrs[1..], s[w.len..]); }
    }
  }

  lemma NeverSectionRef(form: nat, s: Bytes)
    ensures var v := ReadValue(LayoutOf(form), s); v.Value? ==> !v.val.SectionRef?
    ensures var w := ReadValue(FormLayout(form), s); form == FORM_REF_ADDR && w.Value? ==> w.val.SectionRef?
  {
    hide DecodeUnsigned, Terminated;
  }

  /** One entry: either decoding without the form determines the other, and a decoded form tells them apart. */
  lemma EntryAgrees(tab: AbbrevTable, s: Bytes, off: nat)
    ensures var a, b := ReadDie(tab, s, off), EntryOf(tab, s, off);
            (a.DieAt? && FieldsWithout(a.die.fields) ==> b == a) &&
            (b.DieAt? && FieldsWithout(b.die.fields) ==> a == b) &&
            (a.DieAt? && b.DieAt? && !FieldsWithout(b.die.fields) ==> a.die != b.die)
  {
    hide ReadFields, FieldsOf, DecodeUnsigned, Terminated;
    var c := DecodeUnsigned(s);
    if Terminated(s) && c.value != 0 && c.value in tab {
      var attrs := tab[c.value].attrs;
      FieldAttrs(attrs, s[c.len..]);
      var a, b := ReadFields(attrs, s[c.len..]), FieldsOf(attrs, s[c.len..]);
      if (a.Fields? && FieldsWithout(a.fields)) || (b.Fields? && FieldsWithout(b.fields)) {
        if a.Fields? && FieldsWithout(a.fields) {
          assert forall i :: 0 <= i < |attrs| ==> a.fields[i].attr == attrs[i];
        } else {
          assert forall i :: 0 <= i < |attrs| ==> b.fields[i].attr == attrs[i];
        }
        FieldsAgree(attrs, s[c.len..]);
      } else if a.Fields? && b.Fields? {
        var i :| 0 <= i < |b.fields| && b.fields[i].attr.form == FORM_REF_ADDR;
        assert b.fields[i].val.SectionRef? && !a.fields[i].val.SectionRef?;
      }
    }
  }

  lemma {:induction false} LinkerViewIsStandard(tab: AbbrevTable, s: Bytes, off: nat)
    requires ReadDies(tab, s, off).Some? && NoSectionRefs(ReadDies(tab, s, off).value)
    ensures EntriesOf(tab, s, off) == ReadDies(tab, s, off)
    decreases |s|
  {
    hide ReadDie, EntryOf;
    if s != [] {
      var d, ds := ReadDie(tab, s, off), ReadDies(tab, s, off).value;
      assert d.die == ds[0];
      EntryAgrees(tab, s, off);
      var rest := ReadDies(tab, s[d.len..], off + d.len).value;
      assert rest == ds[1..];
      assert forall k :: 0 <= k < |rest| ==> rest[k] == ds[k + 1];
      LinkerViewIsStandard(tab, s[d.len..], off + d.len);
    }
  }

  /**
   * The linker decodes a readable unit as the standard does if and only if no
   * entry of it uses DW_FORM_ref_addr.
   */
  lemma {:induction false} DecodingAgreesIff(tab: AbbrevTable, s: Bytes, off: nat)
    requires EntriesOf(tab, s, off).Some?
    ensures ReadDies(tab, s, off) == EntriesOf(tab, s, off) <==> NoSectionRefs(EntriesOf(tab, s, off).value)
    decreases |s|
  {
    hide ReadDie, EntryOf;
    if s != [] {
      var d, ds := EntryOf(tab, s, off), EntriesOf(tab, s, off).value;
      var a := ReadDie(tab, s, off);
      assert d.die == ds[0];
      EntryAgrees(tab, s, off);
      var rest := EntriesOf(tab, s[d.len..], off + d.len).value;
      assert rest == ds[1..];
      assert NoSectionRefs(ds) <==> FieldsWithout(ds[0].fields) && NoSectionRefs(rest) by {
        if FieldsWithout(ds[0].fields) && NoSectionRefs(rest) {
          forall k | 0 <= k < |ds| ensures FieldsWithout(ds[k].fields) { if k > 0 { assert ds[k] == rest[k - 1]; } }
        }
        assert forall k :: 0 <= k < |rest| ==> rest[k] == ds[k + 1];
      }
      DecodingAgreesIff(tab, s[d.len..], off + d.len);
      if FieldsWithout(ds[0].fields) {
        assert a == d;
        var more := ReadDies(tab, s[d.len..], off + d.len);
        if ReadDies(tab, s, off) == EntriesOf(tab, s, off) {
          assert more.value == ([d.die] + more.value)[1..];
        }
      } else {
        assert ReadDies(tab, s, off).Some? ==> a.DieAt? && ReadDies(tab, s, off).value[0] == a.die;
      }
    }
  }

  /**
   * A unit whose section reference the pass changes: in any scope of frame
   * size 16 this entry has, to a reader, a type in another unit and an empty
   * location; the linker sees a one-byte number and a location with DW_OP_fbreg
   * 28, and its correction to 12 makes the reference point elsewhere.
   */
  lemma SectionRefSpoiled(env: Env, off: nat, ctx: Context)
    requires CurrentFrame(ctx) == Some(16)
    ensures var tab := map[2 := Abbrev(0x34, false, [Attr(0x49, FORM_REF_ADDR), Attr(AT_LOCATION, 0x18)])];
            var s, t := [2, 0, 3, 0x91, 0x1c, 0], [2, 0, 3, 0x91, 0x0c, 0];
            EntryOf(tab, s, off).DieAt? && EntryOf(tab, t, off).DieAt? &&
            EntryOf(tab, s, off).die.fields[0].val == SectionRef(0x1c91_0300) &&
            EntryOf(tab, s, off).die.fields[1].val == Expression([]) &&
            EntryOf(tab, t, off).die.fields[0].val == SectionRef(0x0c91_0300) &&
            ScanDie(tab, env, s, off, ctx).ok && ScanDie(tab, env, s, off, ctx).out.bytes == t
  {
    var tab := map[2 := Abbrev(0x34, false, [Attr(0x49, FORM_REF_ADDR), Attr(AT_LOCATION, 0x18)])];
    SpoiledEntry(tab, off, 0x1c);
    SpoiledEntry(tab, off, 0x0c);
    SpoiledScan(tab, env, off, ctx);
  }

  lemma SpoiledEntry(tab: AbbrevTable, off: nat, b: Byte)
    requires 2 in tab && tab[2].attrs == [Attr(0x49, FORM_REF_ADDR), Attr(AT_LOCATION, 0x18)]
    ensures var e := EntryOf(tab, [2, 0, 3, 0x91, b, 0], off);
            e.DieAt? && |e.die.fields| == 2 &&
            e.die.fields[0].val == SectionRef(0x91_0300 + 0x100_0000 * b) && e.die.fields[1].val == Expression([])
  {
    hide FromLe;
    var attrs := tab[2].attrs;
    var s: Bytes := [2, 0, 3, 0x91, b, 0];
    var t: Bytes := [0, 3, 0x91, b, 0];
    assert s[1..] == t;
    assert DecodeUnsigned(s) == Decoded(2, 1);
    assert t[..4] == [0, 3, 0x91, b] && t[4..] == [0];
    FourBytes(b);
    var z: Bytes := [0];
    assert z[1..1] == [] && z[..1] == z && z[1..] == [];
    assert DecodeUnsigned(z) == Decoded(0, 1);
    assert attrs[1..] == [Attr(AT_LOCATION, 0x18)] && attrs[1..][1..] == [];
    assert ReadValue(FormLayout(0x18), z) == Value(Expression([]), 1);
    assert FieldsOf([], []) == Fields([], 0);
    assert FieldsOf(attrs[1..], z) == Fields([Field(attrs[1], z, Expression([]))], 1);
    assert ReadValue(FormLayout(FORM_REF_ADDR), t) == Value(SectionRef(FromLe(t[..4])), 4);
  }

  lemma FourBytes(b: Byte)
    ensures FromLe([0, 3, 0x91, b]) == 0x91_0300 + 0x100_0000 * b
  {
    assert [0, 3, 0x91, b][1..] == [3, 0x91, b] && [3, 0x91, b][1..] == [0x91, b] && [0x91, b][1..] == [b] && [b][1..] == [];
    assert FromLe([b]) == b;
    assert FromLe([0x91, b]) == 0x91 + 256 * FromLe([b]);
    assert FromLe([3, 0x91, b]) == 3 + 256 * FromLe([0x91, b]);
  }

  lemma SpoiledScan(tab: AbbrevTable, env: Env, off: nat, ctx: Context)
    requires 2 in tab && tab[2] == Abbrev(0x34, false, [Attr(0x49, FORM_REF_ADDR), Attr(AT_LOCATION, 0x18)])
    requires CurrentFrame(ctx) == Some(16)
    ensures var r := ScanDie(tab, env, [2, 0, 3, 0x91, 0x1c, 0], off, ctx); r.ok && r.out.bytes == [2, 0, 3, 0x91, 0x0c, 0]
  {
    hide RewriteExpr, DecodeSigned, EncodeSigned;
    var attrs := tab[2].attrs;
    var s: Bytes := [2, 0, 3, 0x91, 0x1c, 0];
    var t: Bytes := [0, 3, 0x91, 0x1c, 0];
    var e: Bytes := [0x91, 0x1c, 0];
    assert s[1..] == t;
    assert DecodeUnsigned(s) == Decoded(2, 1) && DecodeUnsigned(t) == Decoded(0, 1);
    var st := StartDie(off, 2, ctx);
    assert EncodeUnsigned(2) == [2];
    var f0 := Field(attrs[0], [0], Plain([0]));
    assert t[..1] == [0];
    assert ReadValue(LayoutOf(FORM_REF_ADDR), t) == Value(Plain([0]), 1);
    var u: Bytes := [3, 0x91, 0x1c, 0];
    assert t[1..] == u;
    assert DecodeUnsigned(u) == Decoded(3, 1) && u[1..4] == e && u[..4] == u;
    assert ReadValue(LayoutOf(0x18), u) == Value(Expression(e), 4);
    var f1 := Field(attrs[1], u, Expression(e));
    var st1 := StepField(f0, st);
    assert st1.ctx == ctx && st1.out.bytes == [2] + [0];
    var st2 := StepField(f1, st1);
    ShortExpr();
    assert EncodeUnsigned(3) == [3];
    assert st2.out.bytes == [2] + [0] + ([3] + [0x91, 0x0c, 0]);
    assert attrs[1..] == [attrs[1]] && attrs[1..][1..] == [];
    assert u[4..] == [];
    assert ScanFields([], [], st2) == FieldScan(st2, 0, true);
    assert ScanFields(attrs[1..], u, st1) == FieldScan(st2, 4, true);
    assert ScanFields(attrs, t, st) == FieldScan(st2, 5, true);
  }

  lemma ShortExpr()
    ensures RewriteExpr(OP_FBREG, [0x91, 0x1c, 0], 16) == [0x91, 0x0c, 0]
  {
    var e: Bytes := [0x91, 0x1c, 0];
    assert e[1..] == [0x1c, 0] && e[2..] == [0];
    assert DecodeSigned([0x1c, 0]) == Decoded(28, 1);
    assert EncodeSigned(12) == [0x0c];
    assert [0][1..] == [];
    assert RewriteExpr(OP_FBREG, [], 16) == [];
    assert RewriteExpr(OP_FBREG, [0], 16) == [0] + [];
    assert RewriteExpr(OP_FBREG, e, 16) == [OP_FBREG] + [0x0c] + RewriteExpr(OP_FBREG, [0], 16);
  }

  // ---------------------------------------------------------------------------
  // The rewriting, as this reader sees it
  // ---------------------------------------------------------------------------

  /** Old and new entries correspond one to one and mean the same. */
  ghost predicate SameEntries(tab: AbbrevTable, env: Env, ds: seq<Die>, ns: seq<Die>)
  {
    |ns| == |ds| &&
    forall k :: 0 <= k < |ds| ==>
      ns[k].code == ds[k].code && |ns[k].fields| == |ds[k].fields| &&
      forall i :: 0 <= i < |ds[k].fields| ==>
        SameMeaning(ds[k].fields[i], ns[k].fields[i], FrameAt(tab, env, ds, k), ds, ns)
  }

  lemma SameForms(tab: AbbrevTable, env: Env, ds: seq<Die>, ns: seq<Die>)
    requires SameEntries(tab, env, ds, ns) && NoSectionRefs(ds)
    ensures NoSectionRefs(ns)
  {
    hide FrameAt;
    forall k | 0 <= k < |ns|
      ensures FieldsWithout(ns[k].fields)
    {
      forall i | 0 <= i < |ns[k].fields|
        ensures ns[k].fields[i].attr.form != FORM_REF_ADDR
      {
        assert SameMeaning(ds[k].fields[i], ns[k].fields[i], FrameAt(tab, env, ds, k), ds, ns);
        assert FieldsWithout(ds[k].fields);
      }
    }
  }

  /** Pass A and B on one unit. */
  lemma ReaderKeepsMeaning(tab: AbbrevTable, env: Env, s: Bytes, h: nat, lists: map<nat, nat>)
    requires EntriesOf(tab, s, h).Some? && NoSectionRefs(EntriesOf(tab, s, h).value)
    ensures var scan := ScanDies(tab, env, s, h, StartOf(lists));
            scan.ok && Editable(scan.dies) && EntriesOf(tab, NewBody(scan, h), h).Some? &&
            SameEntries(tab, env, EntriesOf(tab, s, h).value, EntriesOf(tab, NewBody(scan, h), h).value)
  {
    hide ScanDies, NewBody, StartOf, SameMeaning, FrameAt, ReadDies, EntriesOf, NoSectionRefs;
    DecodingAgreesIff(tab, s, h);
    RewriteKeepsMeaning(tab, env, s, h, lists);
    var scan := ScanDies(tab, env, s, h, StartOf(lists));
    SameForms(tab, env, ReadDies(tab, s, h).value, ReadDies(tab, NewBody(scan, h), h).value);
    LinkerViewIsStandard(tab, NewBody(scan, h), h);
  }

  /**
   * The bytes of one unit, header included, rewritten or left alone: a
   * reader of the standard finds the same entries with the same meaning.
   */
  lemma ReaderKeepsUnit(tables: AbbrevTables, env: Env, lists: map<nat, nat>, u: Bytes)
    requires |u| >= 12 && Handled(tables, u)
    requires var es := EntriesOf(tables[AbbrevOffset(u)], u[HeaderSize(u)..], HeaderSize(u)); es.Some? && NoSectionRefs(es.value)
    ensures var tab, h := tables[AbbrevOffset(u)], HeaderSize(u);
            var v := RewriteUnit(tables, env, lists, u).bytes;
            |v| >= h && EntriesOf(tab, v[h..], h).Some? &&
            (SameEntries(tab, env, EntriesOf(tab, u[h..], h).value, EntriesOf(tab, v[h..], h).value) ||
             (v == u && NothingToFix(tab, env, EntriesOf(tab, u[h..], h).value)))
  {
    hide ScanDies, NewBody, Touched, StartOf, FrameAt, ReadDies, EntriesOf, NoSectionRefs, SameEntries, NeedsFix, Editable;
    var tab, h := tables[AbbrevOffset(u)], HeaderSize(u);
    var scan := ScanDies(tab, env, u[h..], h, StartOf(lists));
    ReaderKeepsMeaning(tab, env, u[h..], h, lists);
    if Touched(scan.dies) {
      assert Reassemble(u[..h], NewBody(scan, h))[h..] == NewBody(scan, h);
    } else {
      DecodingAgreesIff(tab, u[h..], h);
      var ds := EntriesOf(tab, u[h..], h).value;
      forall k, i | 0 <= k < |ds| && 0 <= i < |ds[k].fields|
        ensures !NeedsFix(ds[k].fields[i], FrameAt(tab, env, ds, k))
      {
        UntouchedNeedsNothing(tab, env, u[h..], h, lists, k, i);
      }
    }
  }

  ghost predicate NothingToFix(tab: AbbrevTable, env: Env, ds: seq<Die>)
  {
    forall k, i :: 0 <= k < |ds| && 0 <= i < |ds[k].fields| ==> !NeedsFix(ds[k].fields[i], FrameAt(tab, env, ds, k))
  }
}
