/**
 * `remap_loclists_base`: after the location lists moved, the fixed-size
 * DW_AT_loclists_base values of .debug_info are re-pointed in place. Nothing
 * else in the section may change.
 */
module LoclistsBase {
  import opened Leb128
  import opened ByteVectors
  import opened DwarfUnit
  import opened DwarfSection

  const BASE_ATTR := Attr(AT_LOCLISTS_BASE, FORM_SEC_OFFSET)

  type BaseMap = map<nat, nat>

  // ---------------------------------------------------------------------------
  // What a reader should find
  // ---------------------------------------------------------------------------

  /** Index of the last loclists_base among the fields. */
  function LastBase(fields: seq<Field>): (r: Option<nat>)
    ensures r.Some? ==> r.value < |fields| && fields[r.value].attr == BASE_ATTR
    ensures r.None? ==> forall i :: 0 <= i < |fields| ==> fields[i].attr != BASE_ATTR
    decreases |fields|
  {
    if fields == [] then None
    else
      var rest := LastBase(fields[1..]);
      if rest.Some? then Some(rest.value + 1)
      else if fields[0].attr == BASE_ATTR then Some(0)
      else None
  }

  /** A moved base is replaced; every other field is kept. */
  function RemapFields(fields: seq<Field>, remap: BaseMap): (r: seq<Field>)
    ensures |r| == |fields|
  {
    var j := LastBase(fields);
    if j.Some? && FromLe(fields[j.value].raw) in remap then
      var b := Le(4, remap[FromLe(fields[j.value].raw)]);
      fields[j.value := Field(BASE_ATTR, b, Plain(b))]
    else fields
  }

  function RemapDie(d: Die, remap: BaseMap): Die
  {
    d.(fields := RemapFields(d.fields, remap))
  }

  // ---------------------------------------------------------------------------
  // What the pass does to the bytes
  // ---------------------------------------------------------------------------

  /** Byte offset of field `j` behind the abbreviation code. */
  function FieldOffset(fields: seq<Field>, j: nat): nat
    requires j <= |fields|
    decreases |fields|
  {
    if j == 0 then 0 else |fields[0].raw| + FieldOffset(fields[1..], j - 1)
  }

  /** The fields of one DIE; `s` starts at the first of them. */
  function RemapFieldBytes(fields: seq<Field>, s: Bytes, remap: BaseMap): (r: Bytes)
    ensures |r| == |s|
  {
    var j := LastBase(fields);
    if j.Some? && FromLe(fields[j.value].raw) in remap && FieldOffset(fields, j.value) + 4 <= |s| then
      Overwrite(s, FieldOffset(fields, j.value), Le(4, remap[FromLe(fields[j.value].raw)]))
    else s
  }

  /** The bytes of the DIE `d` read at the front of `s`. */
  function RemapOne(s: Bytes, d: DieAt, remap: BaseMap): (r: Bytes)
    requires d.DieAt? && d.len <= |s|
    ensures |r| == d.len
  {
    var c := DecodeUnsigned(s).len;
    if c <= d.len then s[..c] + RemapFieldBytes(d.die.fields, s[c..d.len], remap) else s[..d.len]
  }

  /** DIE by DIE; a DIE that cannot be read ends the work on the unit. */
  function RemapDies(tab: AbbrevTable, s: Bytes, remap: BaseMap): (r: Bytes)
    ensures |r| == |s|
    decreases |s|
  {
    if s == [] then s
    else
      var d := ReadDie(tab, s, 0);
      if d.BadDie? then s
      else RemapOne(s, d, remap) + RemapDies(tab, s[d.len..], remap)
  }

  lemma {:induction false} FieldFits(attrs: seq<Attr>, s: Bytes, j: nat)
    requires ReadFields(attrs, s).Fields? && j < |attrs|
    ensures var r := ReadFields(attrs, s);
            FieldOffset(r.fields, j) + |r.fields[j].raw| <= r.len && r.fields[j].attr == attrs[j] &&
            (LayoutOf(attrs[j].form).Fixed? ==> |r.fields[j].raw| == LayoutOf(attrs[j].form).size)
    decreases |attrs|
  {
    hide LayoutOf, ReadValue, ReadFields, FieldOffset;
    var r, v, rest := ReadFieldsCons(attrs, s);
    FieldOffsetCons(r.fields, j);
    assert r.fields[1..] == rest.fields;
    if j > 0 {
      FieldFits(attrs[1..], s[v.len..], j - 1);
    } else {
      FixedLength(LayoutOf(attrs[0].form), s);
    }
  }

  lemma FixedLength(layout: Layout, s: Bytes)
    ensures var v := ReadValue(layout, s); layout.Fixed? && v.Value? ==> v.len == layout.size
  {
    hide DecodeUnsigned, Terminated;
  }

  /** Overwriting a fixed-size field changes that field and no other. */
  lemma {:induction false} OverwriteField(attrs: seq<Attr>, s: Bytes, j: nat, t: Bytes)
    requires ReadFields(attrs, s).Fields? && j < |attrs|
    requires LayoutOf(attrs[j].form) == Fixed(|t|)
    requires FieldOffset(ReadFields(attrs, s).fields, j) + |t| <= |s|
    ensures var r := ReadFields(attrs, s);
            ReadFields(attrs, Overwrite(s, FieldOffset(r.fields, j), t)) ==
            Fields(r.fields[j := Field(attrs[j], t, Plain(t))], r.len)
    decreases |attrs|
  {
    hide LayoutOf, ReadValue, Overwrite, ReadFields, FieldOffset;
    var r, v, rest := ReadFieldsCons(attrs, s);
    var at := FieldOffset(r.fields, j);
    var o := Overwrite(s, at, t);
    var f := Field(attrs[j], t, Plain(t));
    FieldOffsetCons(r.fields, j);
    if j == 0 {
      OverwriteFirst(s, t);
      var r', v', rest' := ReadFieldsCons(attrs, o);
      assert r.fields[0 := f] == [f] + rest.fields;
    } else {
      assert r.fields[1..] == rest.fields;
      OverwriteField(attrs[1..], s[v.len..], j - 1, t);
      OverwriteTail(s, v.len, at, t);
      ReadValueLocal(LayoutOf(attrs[0].form), s, o[v.len..]);
      assert s[..v.len] + o[v.len..] == o;
      var r', v', rest' := ReadFieldsCons(attrs, o);
      assert r.fields[j := f] == [r.fields[0]] + rest.fields[j - 1 := f];
    }
  }

  lemma FieldOffsetCons(fields: seq<Field>, j: nat)
    requires j <= |fields|
    ensures j == 0 ==> FieldOffset(fields, j) == 0
    ensures j > 0 ==> FieldOffset(fields, j) == |fields[0].raw| + FieldOffset(fields[1..], j - 1)
  {
  }

  lemma OverwriteFirst(s: Bytes, t: Bytes)
    requires |t| <= |s|
    ensures var o := Overwrite(s, 0, t);
            o[..|t|] == t && o[|t|..] == s[|t|..] &&
            ReadValue(Fixed(|t|), o) == Value(Plain(t), |t|) && ReadValue(Fixed(|t|), s).Value? &&
            ReadValue(Fixed(|t|), s).len == |t|
  {
    assert Overwrite(s, 0, t)[..|t|] == t;
  }

  lemma OverwriteTail(s: Bytes, n: nat, at: nat, t: Bytes)
    requires n <= at && at + |t| <= |s|
    ensures var o := Overwrite(s, at, t); o[..n] == s[..n] && o[n..] == Overwrite(s[n..], at - n, t)
  {
    assert s[n..][..at - n] == s[n..at];
    assert s[n..][at - n + |t|..] == s[at + |t|..];
  }

  lemma RemapFieldBytesReads(attrs: seq<Attr>, s: Bytes, remap: BaseMap)
    requires ReadFields(attrs, s).Fields?
    ensures var r := ReadFields(attrs, s);
            ReadFields(attrs, RemapFieldBytes(r.fields, s, remap)) == Fields(RemapFields(r.fields, remap), r.len)
  {
    hide ReadFields, LastBase, FieldOffset, Le, FromLe;
    var r := ReadFields(attrs, s);
    var j := LastBase(r.fields);
    if j.Some? {
      FieldFits(attrs, s, j.value);
      if FromLe(r.fields[j.value].raw) in remap {
        OverwriteField(attrs, s, j.value, Le(4, remap[FromLe(r.fields[j.value].raw)]));
      }
    }
  }

  /** The fields are read from the first `r.len` bytes only. */
  lemma {:induction false} ReadFieldsLocal(attrs: seq<Attr>, s: Bytes, rest: Bytes)
    requires ReadFields(attrs, s).Fields?
    ensures var r := ReadFields(attrs, s); ReadFields(attrs, s[..r.len] + rest) == r
    decreases |attrs|
  {
    hide LayoutOf, ReadValue, ReadFields;
    var r := ReadFields(attrs, s);
    if attrs == [] {
      ReadFieldsNone(s);
      ReadFieldsNone(s[..r.len] + rest);
    } else {
      var r0, v, more := ReadFieldsCons(attrs, s);
      var t := s[..r.len] + rest;
      ReadFieldsLocal(attrs[1..], s[v.len..], rest);
      ReadValueLocal(LayoutOf(attrs[0].form), s, t[v.len..]);
      assert s[..v.len] + t[v.len..] == t;
      assert t[v.len..] == s[v.len..][..r.len - v.len] + rest;
      var r', v', more' := ReadFieldsCons(attrs, t);
    }
  }

  lemma RemappedDieReads(tab: AbbrevTable, s: Bytes, remap: BaseMap, off: nat, rest: Bytes)
    requires ReadDie(tab, s, off).DieAt?
    ensures var d, c := ReadDie(tab, s, off), DecodeUnsigned(s).len;
            c <= d.len && ReadDie(tab, RemapOne(s, d, remap) + rest, off) == DieAt(RemapDie(d.die, remap), d.len)
  {
    hide ReadFields, RemapFieldBytes, RemapFields, DecodeUnsigned, Terminated;
    var d, c := ReadDie(tab, s, off), DecodeUnsigned(s).len;
    var code := DecodeUnsigned(s).value;
    var body := RemapFieldBytes(d.die.fields, s[c..d.len], remap);
    var t := s[..c] + body + rest;
    LebPrefix(s, c, body + rest);
    assert s[..c] + (body + rest) == t;
    assert t[c..] == body + rest;
    if code == 0 {
      NoFields(remap, s[c..d.len]);
    } else {
      assert s[c..][..d.len - c] == s[c..d.len];
      RemappedFieldsRead(tab[code].attrs, s[c..], remap, rest);
    }
  }

  lemma RemappedFieldsRead(attrs: seq<Attr>, s: Bytes, remap: BaseMap, rest: Bytes)
    requires ReadFields(attrs, s).Fields?
    ensures var r := ReadFields(attrs, s);
            var body := RemapFieldBytes(r.fields, s[..r.len], remap);
            |body| == r.len && ReadFields(attrs, body + rest) == Fields(RemapFields(r.fields, remap), r.len)
  {
    hide ReadFields, RemapFieldBytes, RemapFields;
    var r := ReadFields(attrs, s);
    var body := RemapFieldBytes(r.fields, s[..r.len], remap);
    ReadFieldsLocal(attrs, s, []);
    assert s[..r.len] + [] == s[..r.len];
    RemapFieldBytesReads(attrs, s[..r.len], remap);
    ReadFieldsLocal(attrs, body, rest);
    assert body[..r.len] == body;
  }

  lemma NoFields(remap: BaseMap, s: Bytes)
    ensures RemapFieldBytes([], s, remap) == s && RemapFields([], remap) == []
  {
  }

  /** Shifting the unit offset only shifts the offset of the DIE read. */
  lemma ReadDieOffset(tab: AbbrevTable, s: Bytes, off: nat, off': nat)
    ensures var a, b := ReadDie(tab, s, off), ReadDie(tab, s, off');
            a.DieAt? == b.DieAt? && (a.DieAt? ==> a.len == b.len && b.die == a.die.(off := off'))
  {
  }

  lemma RemapOneOffset(tab: AbbrevTable, s: Bytes, remap: BaseMap, off: nat, off': nat)
    requires ReadDie(tab, s, off).DieAt?
    ensures ReadDie(tab, s, off').DieAt? && ReadDie(tab, s, off').len == ReadDie(tab, s, off).len
    ensures RemapOne(s, ReadDie(tab, s, off), remap) == RemapOne(s, ReadDie(tab, s, off'), remap)
  {
    hide ReadDie, RemapFieldBytes;
    ReadDieOffset(tab, s, off, off');
  }

  /**
   * The remapped unit reads as the same DIEs at the same offsets; only moved
   * loclists_base values differ.
   */
  lemma {:induction false} RemappedDiesRead(tab: AbbrevTable, s: Bytes, remap: BaseMap, off: nat)
    requires ReadDies(tab, s, off).Some?
    ensures var ds := ReadDies(tab, s, off).value;
            ReadDies(tab, RemapDies(tab, s, remap), off) ==
            Some(seq(|ds|, k requires 0 <= k < |ds| => RemapDie(ds[k], remap)))
    decreases |s|
  {
    hide ReadDie, RemapOne, RemapDie, DecodeUnsigned, RemapDies;
    var ds := ReadDies(tab, s, off).value;
    if s == [] {
      assert ds == [];
      RemapNothing(tab, s, remap);
    } else {
      assert s[0..] == s;
      RemapDiesNext(tab, s, 0, remap);
      var d := ReadDie(tab, s, off);
      ReadDieOffset(tab, s, off, 0);
      var rest := RemapDies(tab, s[d.len..], remap);
      RemappedDiesRead(tab, s[d.len..], remap, off + d.len);
      RemappedDieReads(tab, s, remap, off, rest);
      RemapOneOffset(tab, s, remap, off, 0);
      var t := RemapOne(s, d, remap) + rest;
      assert RemapDies(tab, s, remap) == t;
      assert t[d.len..] == rest;
      var tail := ReadDies(tab, s[d.len..], off + d.len).value;
      assert ds == [d.die] + tail;
      assert seq(|ds|, k requires 0 <= k < |ds| => RemapDie(ds[k], remap)) ==
             [RemapDie(d.die, remap)] + seq(|tail|, k requires 0 <= k < |tail| => RemapDie(tail[k], remap));
    }
  }

  // ---------------------------------------------------------------------------
  // The section
  // ---------------------------------------------------------------------------

  function RemapUnit(tables: AbbrevTables, u: Bytes, remap: BaseMap): (r: Bytes)
    requires |u| >= 12
    ensures |r| == |u|
  {
    if !Handled(tables, u) then u
    else
      var h := HeaderSize(u);
      u[..h] + RemapDies(tables[AbbrevOffset(u)], u[h..], remap)
  }

  /** The walk from the start of the section to the first bytes that are no unit. */
  function RemapUnits(tables: AbbrevTables, c: Bytes, remap: BaseMap): (r: Bytes)
    ensures |r| == |c|
    decreases |c|
  {
    if !UnitAt(c) then c
    else
      var n := UnitSize(c);
      RemapUnit(tables, c[..n], remap) + RemapUnits(tables, c[n..], remap)
  }

  /** The fields of one DIE again, by cursor: the slot of the last loclists_base. */
  method FindSlot(attrs: seq<Attr>, s: Bytes) returns (ok: bool, len: nat, slot: Option<nat>)
    ensures var r := ReadFields(attrs, s);
            ok == r.Fields? &&
            (ok ==>
               len == r.len &&
               var j := LastBase(r.fields);
               slot.Some? == j.Some? && (j.Some? ==> slot.value == FieldOffset(r.fields, j.value)))
  {
    hide LayoutOf, ReadValue, ReadFields, FieldOffset, LastBase;
    ok, len, slot := true, 0, None;
    var k := 0;
    ghost var fields: seq<Field> := [];
    assert attrs[0..] == attrs && s[0..] == s;
    NoFieldsYet();
    while k < |attrs|
      invariant 0 <= k <= |attrs| && len <= |s| && |fields| == k
      invariant len == FieldOffset(fields, k)
      invariant var r, t := ReadFields(attrs, s), ReadFields(attrs[k..], s[len..]);
                r.Fields? == t.Fields? && (r.Fields? ==> r.len == len + t.len && r.fields == fields + t.fields)
      invariant var j := LastBase(fields);
                slot.Some? == j.Some? && (j.Some? ==> slot.value == FieldOffset(fields, j.value))
    {
      var a := attrs[k];
      assert attrs[k..][1..] == attrs[k + 1..];
      var v := ReadValue(LayoutOf(a.form), s[len..]);
      ghost var _, _, _ := ReadFieldsCons(attrs[k..], s[len..]);
      if v.Malformed? { ok := false; return; }
      ghost var f := Field(a, s[len..][..v.len], v.val);
      assert s[len..][v.len..] == s[len + v.len..];
      SnocField(fields, f);
      assert forall t: seq<Field> :: fields + ([f] + t) == (fields + [f]) + t;
      if a == BASE_ATTR { slot := Some(len); }
      fields := fields + [f];
      len, k := len + v.len, k + 1;
    }
    NoFieldsLeft(attrs[k..], s[len..]);
    assert fields + [] == fields;
  }

  /** One more field at the end: offsets before it stay, and it may be the new last base. */
  lemma NoFieldsYet()
    ensures FieldOffset([], 0) == 0 && LastBase([]) == None
  {
  }

  lemma NoFieldsLeft(attrs: seq<Attr>, s: Bytes)
    requires attrs == []
    ensures ReadFields(attrs, s) == Fields([], 0)
  {
  }

  lemma {:induction false} SnocField(fields: seq<Field>, f: Field)
    ensures var more := fields + [f];
            (forall j :: 0 <= j <= |fields| ==> FieldOffset(more, j) == FieldOffset(fields, j)) &&
            FieldOffset(more, |more|) == FieldOffset(fields, |fields|) + |f.raw| &&
            LastBase(more) == (if f.attr == BASE_ATTR then Some(|fields|) else LastBase(fields))
    decreases |fields|
  {
    var more := fields + [f];
    if fields != [] {
      SnocField(fields[1..], f);
      assert more[1..] == fields[1..] + [f];
    } else {
      assert more[1..] == [];
    }
  }

  datatype Patch = NoPatch | Patch(pos: nat, bytes: Bytes)

  predicate PatchFits(p: Patch, n: nat)
  {
    p.Patch? ==> p.pos + |p.bytes| <= n
  }

  function Apply(s: Bytes, p: Patch): (r: Bytes)
    requires PatchFits(p, |s|)
    ensures |r| == |s|
  {
    if p.NoPatch? then s else Overwrite(s, p.pos, p.bytes)
  }

  /** The slot to rewrite among the fields at the front of `s`, if any. */
  method FindFieldPatch(attrs: seq<Attr>, s: Bytes, remap: BaseMap) returns (ok: bool, len: nat, patch: Patch)
    ensures var r := ReadFields(attrs, s);
            ok == r.Fields? &&
            (ok ==> len == r.len && PatchFits(patch, len) &&
                    Apply(s[..len], patch) == RemapFieldBytes(r.fields, s[..len], remap))
  {
    hide ReadFields, LastBase, FieldOffset, FromLe, Le;
    patch := NoPatch;
    var slot;
    ok, len, slot := FindSlot(attrs, s);
    if ok && slot.Some? {
      SlotRaw(attrs, s);
      var v := FromLe(s[slot.value..slot.value + 4]);
      if v in remap {
        patch := Patch(slot.value, Le(4, remap[v]));
      }
    }
  }

  /** The slot to rewrite in the DIE at the front of `s`, if any. */
  method FindPatch(tab: AbbrevTable, s: Bytes, remap: BaseMap) returns (ok: bool, len: nat, patch: Patch)
    ensures var d := ReadDie(tab, s, 0);
            ok == d.DieAt? &&
            (ok ==> len == d.len && PatchFits(patch, len) && Apply(s[..len], patch) == RemapOne(s, d, remap))
  {
    hide ReadFields, DecodeUnsigned, Terminated, RemapFieldBytes, Overwrite;
    assert s[0..|s|] == s;
    patch := NoPatch;
    var code, at := ReadUnsigned(s, 0, |s|);
    TerminatedLast(s);
    ok, len := at > 0 && s[at - 1] < 128, at;
    if !ok { return; }
    if code == 0 {
      NoFields(remap, s[at..at]);
      assert s[..at] + s[at..at] == s[..at];
      return;
    }
    if code !in tab { ok := false; return; }
    var n, p;
    ok, n, p := FindFieldPatch(tab[code].attrs, s[at..], remap);
    if !ok { return; }
    len := at + n;
    assert s[at..][..n] == s[at..len];
    assert s[..len] == s[..at] + s[at..len];
    if p.Patch? {
      patch := Patch(at + p.pos, p.bytes);
      OverwriteBehind(s[..at], s[at..len], p.pos, p.bytes);
    }
  }

  lemma OverwriteBehind(front: Bytes, s: Bytes, pos: nat, t: Bytes)
    requires pos + |t| <= |s|
    ensures Overwrite(front + s, |front| + pos, t) == front + Overwrite(s, pos, t)
  {
    var x, y := Overwrite(front + s, |front| + pos, t), front + Overwrite(s, pos, t);
    assert (front + s)[..|front| + pos] == front + s[..pos];
    assert (front + s)[|front| + pos + |t|..] == s[pos + |t|..];
  }

  /** The slot holds the four bytes of the last loclists_base. */
  lemma SlotRaw(attrs: seq<Attr>, s: Bytes)
    requires ReadFields(attrs, s).Fields? && LastBase(ReadFields(attrs, s).fields).Some?
    ensures var r := ReadFields(attrs, s);
            var j := LastBase(r.fields).value;
            var at := FieldOffset(r.fields, j);
            at + 4 <= r.len && s[at..at + 4] == r.fields[j].raw
  {
    hide ReadFields, LastBase, FieldOffset;
    var j := LastBase(ReadFields(attrs, s).fields).value;
    FieldFits(attrs, s, j);
    FieldBytes(attrs, s, j);
  }

  lemma {:induction false} FieldBytes(attrs: seq<Attr>, s: Bytes, j: nat)
    requires ReadFields(attrs, s).Fields? && j < |attrs|
    ensures var r := ReadFields(attrs, s);
            var at := FieldOffset(r.fields, j);
            at + |r.fields[j].raw| <= |s| && s[at..at + |r.fields[j].raw|] == r.fields[j].raw
    decreases |attrs|
  {
    hide LayoutOf, ReadValue, ReadFields, FieldOffset;
    var r, v, rest := ReadFieldsCons(attrs, s);
    FieldOffsetCons(r.fields, j);
    if j > 0 {
      FieldBytes(attrs[1..], s[v.len..], j - 1);
      var at := FieldOffset(rest.fields, j - 1);
      assert s[v.len..|s|] == s[v.len..];
      SliceOfSlice(s, v.len, |s|, at, at + |rest.fields[j - 1].raw|);
    }
  }

  /** The DIE loop of one unit, writing the slots in place. */
  method RemapUnitInPlace(tab: AbbrevTable, u: Bytes, h: nat, remap: BaseMap) returns (r: Bytes)
    requires h <= |u|
    ensures r == u[..h] + RemapDies(tab, u[h..], remap)
  {
    hide ReadDie, RemapOne, RemapDies, Overwrite, Apply;
    r := u;
    var q := h;
    while q < |u|
      invariant h <= q <= |u| && |r| == |u| && r[q..] == u[q..]
      invariant r[..q] + RemapDies(tab, u[q..], remap) == u[..h] + RemapDies(tab, u[h..], remap)
      decreases |u| - q
    {
      var ok, len, patch := FindPatch(tab, r[q..], remap);
      RemapDiesNext(tab, u, q, remap);
      if !ok {
        assert r == r[..q] + r[q..];
        return;
      }
      ghost var was := r;
      if patch.Patch? {
        r := Overwrite(r, q + patch.pos, patch.bytes);
      }
      InPlace(was, q, len, patch, r);
      Regroup(was[..q], Apply(was[q..][..len], patch), RemapDies(tab, u[q + len..], remap));
      SameTail(was, u, r, q, len);
      q := q + len;
    }
    RemapNothing(tab, u[q..], remap);
    assert r == r[..q] + r[q..];
  }

  lemma RemapNothing(tab: AbbrevTable, s: Bytes, remap: BaseMap)
    requires s == []
    ensures RemapDies(tab, s, remap) == s
  {
  }

  lemma Regroup(a: Bytes, b: Bytes, c: Bytes)
    ensures a + (b + c) == (a + b) + c
  {
  }

  lemma SameTail(was: Bytes, u: Bytes, r: Bytes, q: nat, len: nat)
    requires q + len <= |u| == |was| == |r| && was[q..] == u[q..] && r[q + len..] == was[q + len..]
    ensures r[q + len..] == u[q + len..]
  {
    assert was[q + len..] == was[q..][len..];
    assert u[q + len..] == u[q..][len..];
  }

  /** One DIE taken off the front, or the end of the work. */
  lemma RemapDiesNext(tab: AbbrevTable, u: Bytes, q: nat, remap: BaseMap)
    requires q < |u|
    ensures var d := ReadDie(tab, u[q..], 0);
            if d.BadDie? then RemapDies(tab, u[q..], remap) == u[q..]
            else q + d.len <= |u| && 0 < d.len &&
                 RemapDies(tab, u[q..], remap) == RemapOne(u[q..], d, remap) + RemapDies(tab, u[q + d.len..], remap)
  {
    hide ReadDie, RemapOne;
    var d := ReadDie(tab, u[q..], 0);
    if d.DieAt? {
      assert u[q..][d.len..] == u[q + d.len..];
    }
  }

  lemma InPlace(s: Bytes, q: nat, len: nat, p: Patch, r: Bytes)
    requires q + len <= |s| && PatchFits(p, len)
    requires r == if p.Patch? then Overwrite(s, q + p.pos, p.bytes) else s
    ensures |r| == |s| && r[..q + len] == s[..q] + Apply(s[q..][..len], p) && r[q + len..] == s[q + len..]
  {
    assert s[q..][..len] == s[q..q + len];
    assert s[..q + len] == s[..q] + s[q..q + len];
    assert s == s[..q + len] + s[q + len..];
    if p.Patch? {
      OverwriteBehind(s[..q], s[q..q + len], p.pos, p.bytes);
      OverwriteFront(s[..q + len], s[q + len..], q + p.pos, p.bytes);
    }
  }

  lemma OverwriteFront(s: Bytes, back: Bytes, pos: nat, t: Bytes)
    requires pos + |t| <= |s|
    ensures Overwrite(s + back, pos, t) == Overwrite(s, pos, t) + back
  {
  }

  /** `remap_loclists_base`: the whole section as one stream of units. */
  method RemapSection(tables: AbbrevTables, c: Bytes, remap: BaseMap) returns (r: Bytes)
    ensures r == RemapUnits(tables, c, remap)
  {
    hide RemapUnit, UnitAt, RemapUnits;
    r := [];
    var p := 0;
    assert c[0..] == c;
    while UnitAt(c[p..])
      invariant 0 <= p <= |c|
      invariant r + RemapUnits(tables, c[p..], remap) == RemapUnits(tables, c, remap)
      decreases |c| - p
    {
      var n := UnitSize(c[p..]);
      var u := c[p..][..n];
      assert c[p..][n..] == c[p + n..];
      var piece := RemapOneUnit(tables, u, remap);
      RemapUnitsNext(tables, c[p..], remap);
      Regroup(r, piece, RemapUnits(tables, c[p + n..], remap));
      r, p := r + piece, p + n;
    }
    RemapUnitsStop(tables, c[p..], remap);
    r := r + c[p..];
  }

  lemma RemapUnitsNext(tables: AbbrevTables, c: Bytes, remap: BaseMap)
    requires UnitAt(c)
    ensures var n := UnitSize(c);
            12 <= n <= |c| && RemapUnits(tables, c, remap) == RemapUnit(tables, c[..n], remap) + RemapUnits(tables, c[n..], remap)
  {
    hide RemapUnit;
  }

  lemma RemapUnitsStop(tables: AbbrevTables, c: Bytes, remap: BaseMap)
    requires !UnitAt(c)
    ensures RemapUnits(tables, c, remap) == c
  {
  }

  method RemapOneUnit(tables: AbbrevTables, u: Bytes, remap: BaseMap) returns (r: Bytes)
    requires |u| >= 12
    ensures r == RemapUnit(tables, u, remap)
  {
    r := u;
    if Handled(tables, u) {
      r := RemapUnitInPlace(tables[AbbrevOffset(u)], u, HeaderSize(u), remap);
    }
  }
}
