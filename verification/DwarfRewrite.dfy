/**
 * What `fix_fbreg_offsets` does to one compile unit, as functions, and what
 * that means for a reader of the new unit.
 */
module DwarfRewrite {
  import opened Leb128
  import opened ByteVectors
  import opened DwarfUnit
  import opened LocationExpr

  // ---------------------------------------------------------------------------
  // Pass A: walk the DIEs, tracking the frame size of the enclosing function
  // ---------------------------------------------------------------------------

  /** Outside tables: frame size of each function entry, and the .debug_addr section. */
  datatype Env = Env(frameSizes: map<nat, nat>, addrSection: Option<Bytes>)

  /** `scopes` has one element per open parent: the frame size in force for its children. */
  datatype Context = Context(scopes: seq<Option<nat>>, addrBase: nat, loclistsBase: nat, listFrames: map<nat, nat>)

  /** DW_AT_low_pc of the DIE being read, as index or as address. */
  datatype LowPc = LowPc(found: bool, index: Option<nat>, address: Option<nat>)

  const NO_LOW_PC := LowPc(false, None, None)

  function CurrentFrame(ctx: Context): Option<nat>
  {
    if ctx.scopes == [] then None else ctx.scopes[|ctx.scopes| - 1]
  }

  function NoteField(f: Field, ctx: Context): (r: Context)
    ensures r.scopes == ctx.scopes
  {
    match LayoutOf(f.attr.form)
    case Uleb =>
      if f.attr == Attr(AT_LOCATION, FORM_LOCLISTX) && CurrentFrame(ctx).Some? then
        ctx.(listFrames := ctx.listFrames[ctx.loclistsBase + DecodeUnsigned(f.raw).value := CurrentFrame(ctx).value])
      else ctx
    case Fixed(_) =>
      if f.attr == Attr(AT_ADDR_BASE, FORM_SEC_OFFSET) then ctx.(addrBase := FromLe(f.raw))
      else if f.attr == Attr(AT_LOCLISTS_BASE, FORM_SEC_OFFSET) then ctx.(loclistsBase := FromLe(f.raw))
      else ctx
    case _ => ctx
  }

  function NoteLowPc(f: Field, low: LowPc): LowPc
  {
    if f.attr.name != AT_LOW_PC then low
    else
      match LayoutOf(f.attr.form)
      case Uleb => low.(found := true, index := Some(DecodeUnsigned(f.raw).value))
      case Fixed(_) =>
        if f.attr.form == FORM_ADDR then low.(found := true, address := Some(FromLe(f.raw)))
        else if 0x29 <= f.attr.form <= 0x2c then low.(found := true, index := Some(FromLe(f.raw)))
        else low.(found := true)
      case UnitRef(_) => low.(found := true)
      case _ => low
  }

  /** Frame size of the function a subprogram DIE describes, if the linker knows it. */
  function FunctionFrame(env: Env, addrBase: nat, low: LowPc): Option<nat>
  {
    var entry :=
      if low.address.Some? then low.address
      else if low.index.Some? && env.addrSection.Some? &&
              addrBase + low.index.value * 8 + 8 <= |env.addrSection.value| then
        Some(FromLe(env.addrSection.value[addrBase + low.index.value * 8..addrBase + low.index.value * 8 + 8]))
      else None;
    if entry.Some? && entry.value in env.frameSizes then Some(env.frameSizes[entry.value]) else None
  }

  /** Opens the scope of a DIE with children. */
  function OpenScope(env: Env, a: Abbrev, low: LowPc, ctx: Context): Context
  {
    if !a.hasChildren then ctx
    else if a.tag == TAG_SUBPROGRAM && low.found then
      ctx.(scopes := ctx.scopes + [FunctionFrame(env, ctx.addrBase, low)])
    else ctx.(scopes := ctx.scopes + [CurrentFrame(ctx)])
  }

  function CloseScope(ctx: Context): Context
  {
    if ctx.scopes == [] then ctx else ctx.(scopes := ctx.scopes[..|ctx.scopes| - 1])
  }

  datatype RefEdit = RefEdit(pos: nat, target: nat, width: nat)

  /** A rebuilt DIE; `edits` marks the reference bytes pass B has to fill in. */
  datatype OutDie = OutDie(oldOff: nat, bytes: Bytes, edits: seq<RefEdit>, touched: bool)

  predicate IsFrameLocation(f: Field, frame: Option<nat>)
  {
    f.val.Expression? && f.attr.name == AT_LOCATION && frame.Some?
  }

  /** The bytes of a field in the new unit, before references are filled in. */
  function NewRaw(f: Field, frame: Option<nat>): Bytes
  {
    if IsFrameLocation(f, frame) then
      var e := RewriteExpr(OP_FBREG, f.val.expr, frame.value);
      EncodeUnsigned(|e|) + e
    else f.raw
  }

  function AddField(f: Field, frame: Option<nat>, out: OutDie): OutDie
  {
    var edits := if f.val.Reference? then out.edits + [RefEdit(|out.bytes|, f.val.target, f.val.width)] else out.edits;
    var touched := out.touched ||
      (IsFrameLocation(f, frame) && frame.value != 0 && HasOperand(OP_FBREG, f.val.expr));
    OutDie(out.oldOff, out.bytes + NewRaw(f, frame), edits, touched)
  }

  datatype FieldState = FieldState(ctx: Context, low: LowPc, out: OutDie)

  function StepField(f: Field, st: FieldState): FieldState
  {
    FieldState(NoteField(f, st.ctx), NoteLowPc(f, st.low), AddField(f, CurrentFrame(st.ctx), st.out))
  }

  datatype FieldScan = FieldScan(st: FieldState, len: nat, ok: bool)

  /** Attributes in order; stops at the first one that cannot be read. */
  function ScanFields(attrs: seq<Attr>, s: Bytes, st: FieldState): (r: FieldScan)
    ensures r.len <= |s|
    ensures r.st.ctx.scopes == st.ctx.scopes
    decreases |attrs|
  {
    if attrs == [] then FieldScan(st, 0, true)
    else
      var v := ReadValue(LayoutOf(attrs[0].form), s);
      if v.Malformed? then FieldScan(st, 0, false)
      else
        var next := StepField(Field(attrs[0], s[..v.len], v.val), st);
        var rest := ScanFields(attrs[1..], s[v.len..], next);
        rest.(len := v.len + rest.len)
  }

  datatype UnitScan = UnitScan(ctx: Context, dies: seq<OutDie>, ok: bool)

  function StartDie(off: nat, code: nat, ctx: Context): FieldState
  {
    FieldState(ctx, NO_LOW_PC, OutDie(off, EncodeUnsigned(code), [], false))
  }

  datatype DieScan = DieScan(ctx: Context, out: OutDie, len: nat, ok: bool)

  function ScanDie(tab: AbbrevTable, env: Env, s: Bytes, off: nat, ctx: Context): (r: DieScan)
    ensures r.ok ==> 0 < r.len <= |s|
  {
    var none := OutDie(off, [0], [], false);
    if !Terminated(s) then DieScan(ctx, none, 0, false)
    else
      var c := DecodeUnsigned(s);
      if c.value == 0 then DieScan(CloseScope(ctx), none, c.len, true)
      else if c.value !in tab then DieScan(ctx, none, 0, false)
      else
        var a := tab[c.value];
        var fs := ScanFields(a.attrs, s[c.len..], StartDie(off, c.value, ctx));
        if !fs.ok then DieScan(fs.st.ctx, none, 0, false)
        else DieScan(OpenScope(env, a, fs.st.low, fs.st.ctx), fs.st.out, c.len + fs.len, true)
  }

  function ScanDies(tab: AbbrevTable, env: Env, s: Bytes, off: nat, ctx: Context): (r: UnitScan)
    decreases |s|
  {
    if s == [] then UnitScan(ctx, [], true)
    else
      var d := ScanDie(tab, env, s, off, ctx);
      if !d.ok then UnitScan(d.ctx, [], false)
      else
        var rest := ScanDies(tab, env, s[d.len..], off + d.len, d.ctx);
        UnitScan(rest.ctx, [d.out] + rest.dies, rest.ok)
  }

  // ---------------------------------------------------------------------------
  // Pass B: new offsets, references, header
  // ---------------------------------------------------------------------------

  /** Old unit offset of each DIE to its new one, the first DIE being placed at `acc`. */
  function NewOffsets(dies: seq<OutDie>, acc: nat): (m: map<nat, nat>)
    decreases |dies|
  {
    if dies == [] then map[]
    else NewOffsets(dies[..|dies| - 1], acc)[dies[|dies| - 1].oldOff := acc + TotalSize(dies[..|dies| - 1])]
  }

  function TotalSize(dies: seq<OutDie>): nat
  {
    if dies == [] then 0 else TotalSize(dies[..|dies| - 1]) + |dies[|dies| - 1].bytes|
  }

  /** A reference to something that is not a DIE start is left alone. */
  function Retarget(offs: map<nat, nat>, t: nat): nat
  {
    if t in offs then offs[t] else t
  }

  predicate EditsFit(edits: seq<RefEdit>, n: nat)
  {
    forall i :: 0 <= i < |edits| ==> edits[i].pos + edits[i].width <= n
  }

  function ApplyEdits(bytes: Bytes, edits: seq<RefEdit>, offs: map<nat, nat>): (r: Bytes)
    requires EditsFit(edits, |bytes|)
    ensures |r| == |bytes|
    decreases |edits|
  {
    if edits == [] then bytes
    else
      var e := edits[|edits| - 1];
      Overwrite(ApplyEdits(bytes, edits[..|edits| - 1], offs), e.pos, Le(e.width, Retarget(offs, e.target)))
  }

  predicate Editable(dies: seq<OutDie>)
  {
    forall i :: 0 <= i < |dies| ==> EditsFit(dies[i].edits, |dies[i].bytes|)
  }

  function PatchDies(dies: seq<OutDie>, offs: map<nat, nat>): (r: seq<Bytes>)
    requires Editable(dies)
    ensures |r| == |dies|
  {
    seq(|dies|, i requires 0 <= i < |dies| => ApplyEdits(dies[i].bytes, dies[i].edits, offs))
  }

  predicate Touched(dies: seq<OutDie>)
  {
    exists i :: 0 <= i < |dies| && dies[i].touched
  }

  /** The header is kept except for unit_length, which covers everything after itself. */
  function Reassemble(header: Bytes, body: Bytes): (r: Bytes)
    requires |header| >= 4
    ensures |r| == |header| + |body|
  {
    Le(4, |header| + |body| - 4) + header[4..] + body
  }

  // ---------------------------------------------------------------------------
  // Pass A agrees with the reader
  // ---------------------------------------------------------------------------

  /** What pass A emits for DIEs that are already read. */
  function StepFields(fields: seq<Field>, st: FieldState): (r: FieldState)
    ensures r.ctx.scopes == st.ctx.scopes
    decreases |fields|
  {
    if fields == [] then st else StepFields(fields[1..], StepField(fields[0], st))
  }

  function ContextAfter(tab: AbbrevTable, env: Env, d: Die, ctx: Context): Context
  {
    if d.code == 0 || d.code !in tab then CloseScope(ctx)
    else
      var st := StepFields(d.fields, StartDie(d.off, d.code, ctx));
      OpenScope(env, tab[d.code], st.low, st.ctx)
  }

  function EmitDie(d: Die, ctx: Context): OutDie
  {
    if d.code == 0 then OutDie(d.off, [0], [], false)
    else StepFields(d.fields, StartDie(d.off, d.code, ctx)).out
  }

  function EmitDies(tab: AbbrevTable, env: Env, dies: seq<Die>, ctx: Context): (r: seq<OutDie>)
    ensures |r| == |dies|
    decreases |dies|
  {
    if dies == [] then []
    else [EmitDie(dies[0], ctx)] + EmitDies(tab, env, dies[1..], ContextAfter(tab, env, dies[0], ctx))
  }

  lemma {:induction false} ScanFieldsAgrees(attrs: seq<Attr>, s: Bytes, st: FieldState)
    requires ReadFields(attrs, s).Fields?
    ensures var r := ReadFields(attrs, s);
            ScanFields(attrs, s, st) == FieldScan(StepFields(r.fields, st), r.len, true)
    decreases |attrs|
  {
    if attrs != [] {
      var v := ReadValue(LayoutOf(attrs[0].form), s);
      var f := Field(attrs[0], s[..v.len], v.val);
      ScanFieldsAgrees(attrs[1..], s[v.len..], StepField(f, st));
      var r := ReadFields(attrs, s);
      assert r.fields[1..] == ReadFields(attrs[1..], s[v.len..]).fields;
    }
  }

  lemma ScanDieAgrees(tab: AbbrevTable, env: Env, s: Bytes, off: nat, ctx: Context)
    requires ReadDie(tab, s, off).DieAt?
    ensures var r := ReadDie(tab, s, off);
            ScanDie(tab, env, s, off, ctx) ==
            DieScan(ContextAfter(tab, env, r.die, ctx), EmitDie(r.die, ctx), r.len, true)
  {
    var c := DecodeUnsigned(s);
    if c.value != 0 {
      ScanFieldsAgrees(tab[c.value].attrs, s[c.len..], StartDie(off, c.value, ctx));
    }
  }

  /** On a unit the reader understands, pass A succeeds and rebuilds every DIE in its own context. */
  lemma {:induction false} ScanAgreesWithReader(tab: AbbrevTable, env: Env, s: Bytes, off: nat, ctx: Context)
    requires ReadDies(tab, s, off).Some?
    ensures var scan := ScanDies(tab, env, s, off, ctx);
            scan.ok && scan.dies == EmitDies(tab, env, ReadDies(tab, s, off).value, ctx)
    decreases |s|
  {
    hide ReadDie, ScanDie, EmitDie, ContextAfter;
    if s != [] {
      var d := ReadDie(tab, s, off);
      var ds := ReadDies(tab, s, off).value;
      ScanDieAgrees(tab, env, s, off, ctx);
      ScanAgreesWithReader(tab, env, s[d.len..], off + d.len, ContextAfter(tab, env, d.die, ctx));
      assert ds[1..] == ReadDies(tab, s[d.len..], off + d.len).value;
    }
  }

  // ---------------------------------------------------------------------------
  // Re-reading the rebuilt DIEs
  // ---------------------------------------------------------------------------

  predicate WellRead(f: Field)
  {
    ReadValue(LayoutOf(f.attr.form), f.raw) == Value(f.val, |f.raw|)
  }

  predicate AllWellRead(fields: seq<Field>)
  {
    forall i :: 0 <= i < |fields| ==> WellRead(fields[i])
  }

  /** The bytes of a field in the final unit. */
  function FinalRaw(f: Field, frame: Option<nat>, offs: map<nat, nat>): Bytes
  {
    if f.val.Reference? then Le(f.val.width, Retarget(offs, f.val.target)) else NewRaw(f, frame)
  }

  /** What a reader finds in their place. */
  function NewValue(f: Field, frame: Option<nat>, offs: map<nat, nat>): Value
  {
    if f.val.Reference? then
      Reference(f.val.width, FromLe(Le(f.val.width, Retarget(offs, f.val.target))))
    else if IsFrameLocation(f, frame) then Expression(RewriteExpr(OP_FBREG, f.val.expr, frame.value))
    else f.val
  }

  function NewField(f: Field, frame: Option<nat>, offs: map<nat, nat>): Field
  {
    Field(f.attr, FinalRaw(f, frame, offs), NewValue(f, frame, offs))
  }

  function NewFields(fields: seq<Field>, frame: Option<nat>, offs: map<nat, nat>): (r: seq<Field>)
    ensures |r| == |fields|
  {
    seq(|fields|, i requires 0 <= i < |fields| => NewField(fields[i], frame, offs))
  }

  lemma WellReadWidth(f: Field)
    requires WellRead(f) && f.val.Reference?
    ensures LayoutOf(f.attr.form) == UnitRef(f.val.width) && |f.raw| == f.val.width
  {
  }

  lemma FieldReread(f: Field, frame: Option<nat>, offs: map<nat, nat>, rest: Bytes)
    requires WellRead(f)
    ensures var b := FinalRaw(f, frame, offs);
            ReadValue(LayoutOf(f.attr.form), b + rest) == Value(NewValue(f, frame, offs), |b|)
  {
    hide LayoutOf, ReadValue, WellRead, FinalRaw, NewValue;
    if f.val.Reference? {
      ReferenceReread(f, frame, offs, rest);
    } else if IsFrameLocation(f, frame) {
      LocationReread(f, frame, offs, rest);
    } else {
      KeptReread(f, frame, offs, rest);
    }
  }

  lemma ReferenceReread(f: Field, frame: Option<nat>, offs: map<nat, nat>, rest: Bytes)
    requires WellRead(f) && f.val.Reference?
    ensures var b := FinalRaw(f, frame, offs);
            ReadValue(LayoutOf(f.attr.form), b + rest) == Value(NewValue(f, frame, offs), |b|)
  {
    hide LayoutOf, WellRead;
    var b := FinalRaw(f, frame, offs);
    WellReadWidth(f);
    assert (b + rest)[..f.val.width] == b;
  }

  lemma LocationReread(f: Field, frame: Option<nat>, offs: map<nat, nat>, rest: Bytes)
    requires WellRead(f) && !f.val.Reference? && IsFrameLocation(f, frame)
    ensures var b := FinalRaw(f, frame, offs);
            ReadValue(LayoutOf(f.attr.form), b + rest) == Value(NewValue(f, frame, offs), |b|)
  {
    hide DecodeUnsigned, EncodeUnsigned, RewriteExpr, Terminated;
    var b := FinalRaw(f, frame, offs);
    var e := RewriteExpr(OP_FBREG, f.val.expr, frame.value);
    var p := EncodeUnsigned(|e|);
    UnsignedRoundTrip(|e|, e + rest);
    assert p + (e + rest) == b + rest;
    assert (b + rest)[|p|..|p| + |e|] == e;
  }

  lemma KeptReread(f: Field, frame: Option<nat>, offs: map<nat, nat>, rest: Bytes)
    requires WellRead(f) && !f.val.Reference? && !IsFrameLocation(f, frame)
    ensures var b := FinalRaw(f, frame, offs);
            ReadValue(LayoutOf(f.attr.form), b + rest) == Value(NewValue(f, frame, offs), |b|)
  {
    hide LayoutOf, ReadValue;
    ReadValueLocal(LayoutOf(f.attr.form), f.raw, rest);
    assert f.raw[..|f.raw|] == f.raw;
  }

  function FinalBytes(fields: seq<Field>, frame: Option<nat>, offs: map<nat, nat>): Bytes
    decreases |fields|
  {
    if fields == [] then [] else FinalRaw(fields[0], frame, offs) + FinalBytes(fields[1..], frame, offs)
  }

  lemma {:induction false} FieldsReread(attrs: seq<Attr>, fields: seq<Field>, frame: Option<nat>, offs: map<nat, nat>, rest: Bytes)
    requires |fields| == |attrs| && AllWellRead(fields)
    requires forall i :: 0 <= i < |attrs| ==> fields[i].attr == attrs[i]
    ensures var b := FinalBytes(fields, frame, offs);
            ReadFields(attrs, b + rest) == Fields(NewFields(fields, frame, offs), |b|)
    decreases |fields|
  {
    hide ReadValue, FinalRaw, NewValue, LayoutOf, ReadFields, WellRead;
    var s := FinalBytes(fields, frame, offs) + rest;
    if fields == [] {
      ReadFieldsNone(s);
      assert NewFields(fields, frame, offs) == [];
    } else {
      var f := fields[0];
      var b := FinalRaw(f, frame, offs);
      var tail := FinalBytes(fields[1..], frame, offs);
      FieldsReread(attrs[1..], fields[1..], frame, offs, rest);
      FieldReread(f, frame, offs, tail + rest);
      assert s == b + (tail + rest);
      assert s[|b|..] == tail + rest;
      assert s[..|b|] == b;
      var r, v, others := ReadFieldsCons(attrs, s);
      var all := NewFields(fields, frame, offs);
      assert all == [all[0]] + NewFields(fields[1..], frame, offs);
    }
  }

  lemma OverwriteExtend(s: Bytes, more: Bytes, pos: nat, t: Bytes)
    requires pos + |t| <= |s|
    ensures Overwrite(s + more, pos, t) == Overwrite(s, pos, t) + more
  {
  }

  lemma {:induction false} EditsExtend(bytes: Bytes, more: Bytes, edits: seq<RefEdit>, offs: map<nat, nat>)
    requires EditsFit(edits, |bytes|)
    ensures EditsFit(edits, |bytes + more|)
    ensures ApplyEdits(bytes + more, edits, offs) == ApplyEdits(bytes, edits, offs) + more
    decreases |edits|
  {
    if edits != [] {
      var e, before := edits[|edits| - 1], edits[..|edits| - 1];
      EditsExtend(bytes, more, before, offs);
      OverwriteExtend(ApplyEdits(bytes, before, offs), more, e.pos, Le(e.width, Retarget(offs, e.target)));
    }
  }

  /** Filling in the references of one more field leaves the earlier bytes alone. */
  lemma AddFieldPatched(f: Field, frame: Option<nat>, out: OutDie, offs: map<nat, nat>)
    requires WellRead(f) && EditsFit(out.edits, |out.bytes|)
    ensures var r := AddField(f, frame, out);
            EditsFit(r.edits, |r.bytes|) &&
            ApplyEdits(r.bytes, r.edits, offs) == ApplyEdits(out.bytes, out.edits, offs) + FinalRaw(f, frame, offs)
  {
    hide ReadValue, LayoutOf;
    var r := AddField(f, frame, out);
    EditsExtend(out.bytes, NewRaw(f, frame), out.edits, offs);
    if f.val.Reference? {
      WellReadWidth(f);
      var e := RefEdit(|out.bytes|, f.val.target, f.val.width);
      assert r.edits[..|r.edits| - 1] == out.edits;
      assert ApplyEdits(r.bytes, r.edits, offs) ==
             Overwrite(ApplyEdits(r.bytes, out.edits, offs), e.pos, Le(e.width, Retarget(offs, e.target)));
    }
  }

  lemma {:induction false} StepFieldsPatched(fields: seq<Field>, st: FieldState, offs: map<nat, nat>)
    requires AllWellRead(fields) && EditsFit(st.out.edits, |st.out.bytes|)
    ensures var r := StepFields(fields, st).out;
            EditsFit(r.edits, |r.bytes|) && r.oldOff == st.out.oldOff &&
            ApplyEdits(r.bytes, r.edits, offs) ==
            ApplyEdits(st.out.bytes, st.out.edits, offs) + FinalBytes(fields, CurrentFrame(st.ctx), offs)
    decreases |fields|
  {
    hide WellRead, FinalRaw, AddField, NoteField, NoteLowPc, ApplyEdits;
    if fields != [] {
      AddFieldPatched(fields[0], CurrentFrame(st.ctx), st.out, offs);
      AddFieldKeepsOffset(fields[0], CurrentFrame(st.ctx), st.out);
      StepFieldsPatched(fields[1..], StepField(fields[0], st), offs);
    }
  }

  lemma AddFieldKeepsOffset(f: Field, frame: Option<nat>, out: OutDie)
    ensures AddField(f, frame, out).oldOff == out.oldOff
  {
  }

  /** A DIE the reader produced: known abbreviation, one field per attribute. */
  predicate WellFormedDie(tab: AbbrevTable, d: Die)
  {
    d.code == 0 ||
    (d.code in tab && |d.fields| == |tab[d.code].attrs| && AllWellRead(d.fields) &&
     forall i :: 0 <= i < |d.fields| ==> d.fields[i].attr == tab[d.code].attrs[i])
  }

  function FinalDie(d: Die, frame: Option<nat>, offs: map<nat, nat>): Bytes
  {
    if d.code == 0 then [0] else EncodeUnsigned(d.code) + FinalBytes(d.fields, frame, offs)
  }

  function NewDie(d: Die, frame: Option<nat>, offs: map<nat, nat>, off: nat): Die
  {
    if d.code == 0 then Die(off, 0, []) else Die(off, d.code, NewFields(d.fields, frame, offs))
  }

  lemma EmitDiePatched(tab: AbbrevTable, d: Die, ctx: Context, offs: map<nat, nat>)
    requires WellFormedDie(tab, d)
    ensures var r := EmitDie(d, ctx);
            EditsFit(r.edits, |r.bytes|) && r.oldOff == d.off &&
            ApplyEdits(r.bytes, r.edits, offs) == FinalDie(d, CurrentFrame(ctx), offs)
  {
    if d.code != 0 {
      var st := StartDie(d.off, d.code, ctx);
      StepFieldsPatched(d.fields, st, offs);
      assert st.out.edits == [];
    }
  }

  lemma DieReread(tab: AbbrevTable, d: Die, frame: Option<nat>, offs: map<nat, nat>, off: nat, rest: Bytes)
    requires WellFormedDie(tab, d)
    ensures var b := FinalDie(d, frame, offs);
            ReadDie(tab, b + rest, off) == DieAt(NewDie(d, frame, offs, off), |b|)
  {
    hide ReadFields, FinalBytes, NewFields;
    var b := FinalDie(d, frame, offs);
    if d.code == 0 {
      assert (b + rest)[0] == 0;
    } else {
      var p, q := EncodeUnsigned(d.code), FinalBytes(d.fields, frame, offs);
      UnsignedRoundTrip(d.code, q + rest);
      assert b + rest == p + (q + rest);
      assert (b + rest)[|p|..] == q + rest;
      FieldsReread(tab[d.code].attrs, d.fields, frame, offs, rest);
    }
  }

  // ---------------------------------------------------------------------------
  // The frame size in force is that of the innermost enclosing function
  // ---------------------------------------------------------------------------

  /** Context at the start of a unit; only the location-list table outlives a unit. */
  function StartOf(lists: map<nat, nat>): Context
  {
    Context([], 8, 0, lists)
  }

  function ContextAt(tab: AbbrevTable, env: Env, ds: seq<Die>, k: nat, ctx: Context): Context
    requires k <= |ds|
    decreases k
  {
    if k == 0 then ctx else ContextAfter(tab, env, ds[k - 1], ContextAt(tab, env, ds, k - 1, ctx))
  }

  /** Indices of the DIEs whose child list is still open when DIE `k` starts. */
  function OpenParents(tab: AbbrevTable, ds: seq<Die>, k: nat): (r: seq<nat>)
    requires k <= |ds|
    ensures forall i :: 0 <= i < |r| ==> r[i] < k
    decreases k
  {
    if k == 0 then []
    else
      var open := OpenParents(tab, ds, k - 1);
      var d := ds[k - 1];
      if d.code == 0 || d.code !in tab then (if open == [] then [] else open[..|open| - 1])
      else if tab[d.code].hasChildren then open + [k - 1]
      else open
  }

  function LowPcOf(fields: seq<Field>, low: LowPc): LowPc
    decreases |fields|
  {
    if fields == [] then low else LowPcOf(fields[1..], NoteLowPc(fields[0], low))
  }

  function AddrBaseOf(fields: seq<Field>, base: nat): nat
    decreases |fields|
  {
    if fields == [] then base
    else if fields[0].attr == Attr(AT_ADDR_BASE, FORM_SEC_OFFSET) then AddrBaseOf(fields[1..], FromLe(fields[0].raw))
    else AddrBaseOf(fields[1..], base)
  }

  /** DW_AT_addr_base in force before DIE `k`; 8 until the unit sets it. */
  function AddrBaseAt(tab: AbbrevTable, ds: seq<Die>, k: nat): nat
    requires k <= |ds|
    decreases k
  {
    if k == 0 then 8
    else if ds[k - 1].code == 0 || ds[k - 1].code !in tab then AddrBaseAt(tab, ds, k - 1)
    else AddrBaseOf(ds[k - 1].fields, AddrBaseAt(tab, ds, k - 1))
  }

  predicate IsFunction(tab: AbbrevTable, d: Die)
  {
    d.code in tab && tab[d.code].tag == TAG_SUBPROGRAM && LowPcOf(d.fields, NO_LOW_PC).found
  }

  /** Frame size of the innermost function among `parents`, walking outwards. */
  function EnclosingFrame(tab: AbbrevTable, env: Env, ds: seq<Die>, parents: seq<nat>): Option<nat>
    requires forall i :: 0 <= i < |parents| ==> parents[i] < |ds|
    decreases |parents|
  {
    if parents == [] then None
    else
      var j := parents[|parents| - 1];
      if IsFunction(tab, ds[j]) then
        FunctionFrame(env, AddrBaseAt(tab, ds, j + 1), LowPcOf(ds[j].fields, NO_LOW_PC))
      else EnclosingFrame(tab, env, ds, parents[..|parents| - 1])
  }

  lemma {:induction false} StepFieldsLow(fields: seq<Field>, st: FieldState)
    ensures StepFields(fields, st).low == LowPcOf(fields, st.low)
    ensures StepFields(fields, st).ctx.addrBase == AddrBaseOf(fields, st.ctx.addrBase)
    decreases |fields|
  {
    hide NoteLowPc, AddField;
    if fields != [] {
      StepFieldsLow(fields[1..], StepField(fields[0], st));
    }
  }

  ghost predicate ScopesMatch(tab: AbbrevTable, env: Env, ds: seq<Die>, scopes: seq<Option<nat>>, open: seq<nat>)
  {
    |scopes| == |open| && (forall i :: 0 <= i < |open| ==> open[i] < |ds|) &&
    forall i :: 0 <= i < |open| ==> scopes[i] == EnclosingFrame(tab, env, ds, open[..i + 1])
  }

  lemma ScopesMatchSnoc(tab: AbbrevTable, env: Env, ds: seq<Die>, scopes: seq<Option<nat>>, open: seq<nat>, j: nat)
    requires ScopesMatch(tab, env, ds, scopes, open) && j < |ds|
    ensures ScopesMatch(tab, env, ds, scopes + [EnclosingFrame(tab, env, ds, open + [j])], open + [j])
  {
    hide EnclosingFrame;
    var after := open + [j];
    var top := EnclosingFrame(tab, env, ds, after);
    forall i | 0 <= i < |after|
      ensures (scopes + [top])[i] == EnclosingFrame(tab, env, ds, after[..i + 1])
    {
      if i < |open| { assert after[..i + 1] == open[..i + 1]; } else { assert after[..i + 1] == after; }
    }
  }

  lemma ScopesMatchPop(tab: AbbrevTable, env: Env, ds: seq<Die>, scopes: seq<Option<nat>>, open: seq<nat>)
    requires ScopesMatch(tab, env, ds, scopes, open) && open != []
    ensures ScopesMatch(tab, env, ds, scopes[..|scopes| - 1], open[..|open| - 1])
  {
    hide EnclosingFrame;
    var after, left := open[..|open| - 1], scopes[..|scopes| - 1];
    forall i | 0 <= i < |after|
      ensures left[i] == EnclosingFrame(tab, env, ds, after[..i + 1])
    {
      assert after[..i + 1] == open[..i + 1];
    }
  }

  /** The scope stack of pass A holds, for each open parent, the frame size of its innermost function. */
  lemma {:induction false} ScopesAreEnclosingFrames(tab: AbbrevTable, env: Env, ds: seq<Die>, k: nat, lists: map<nat, nat>)
    requires k <= |ds|
    ensures var ctx := ContextAt(tab, env, ds, k, StartOf(lists));
            ctx.addrBase == AddrBaseAt(tab, ds, k) &&
            ScopesMatch(tab, env, ds, ctx.scopes, OpenParents(tab, ds, k))
    decreases k
  {
    hide ContextAt, OpenParents, AddrBaseAt, ScopesMatch, ContextAfter;
    UnitStart(tab, env, ds, StartOf(lists));
    if k > 0 {
      var before := ContextAt(tab, env, ds, k - 1, StartOf(lists));
      ScopesAreEnclosingFrames(tab, env, ds, k - 1, lists);
      ContextNext(tab, env, ds, k, StartOf(lists));
      AddrBaseNext(tab, env, ds, k, before);
      ScopesNext(tab, env, ds, k, before);
    }
  }

  lemma UnitStart(tab: AbbrevTable, env: Env, ds: seq<Die>, ctx: Context)
    ensures ContextAt(tab, env, ds, 0, ctx) == ctx && OpenParents(tab, ds, 0) == [] && AddrBaseAt(tab, ds, 0) == 8
    ensures ScopesMatch(tab, env, ds, [], [])
  {
  }

  lemma ContextNext(tab: AbbrevTable, env: Env, ds: seq<Die>, k: nat, ctx: Context)
    requires 0 < k <= |ds|
    ensures ContextAt(tab, env, ds, k, ctx) == ContextAfter(tab, env, ds[k - 1], ContextAt(tab, env, ds, k - 1, ctx))
  {
    hide ContextAfter;
  }

  lemma AddrBaseNext(tab: AbbrevTable, env: Env, ds: seq<Die>, k: nat, before: Context)
    requires 0 < k <= |ds| && before.addrBase == AddrBaseAt(tab, ds, k - 1)
    ensures ContextAfter(tab, env, ds[k - 1], before).addrBase == AddrBaseAt(tab, ds, k)
  {
    hide StepFields, AddrBaseOf, FunctionFrame;
    var d := ds[k - 1];
    StepFieldsLow(d.fields, StartDie(d.off, d.code, before));
  }

  /** The scope stack follows the open parents through one DIE. */
  lemma ScopesNext(tab: AbbrevTable, env: Env, ds: seq<Die>, k: nat, before: Context)
    requires 0 < k <= |ds| && before.addrBase == AddrBaseAt(tab, ds, k - 1)
    requires ScopesMatch(tab, env, ds, before.scopes, OpenParents(tab, ds, k - 1))
    ensures ScopesMatch(tab, env, ds, ContextAfter(tab, env, ds[k - 1], before).scopes, OpenParents(tab, ds, k))
  {
    hide StepFields, AddrBaseOf, FunctionFrame, LowPcOf, ScopesMatch, EnclosingFrame, AddrBaseAt;
    var d := ds[k - 1];
    var open := OpenParents(tab, ds, k - 1);
    ScopesTop(tab, env, ds, before.scopes, open);
    if d.code == 0 || d.code !in tab {
      if open != [] { ScopesMatchPop(tab, env, ds, before.scopes, open); }
    } else {
      StepFieldsLow(d.fields, StartDie(d.off, d.code, before));
      AddrBaseNext(tab, env, ds, k, before);
      if tab[d.code].hasChildren {
        EnclosingTop(tab, env, ds, open, k - 1);
        ScopesMatchSnoc(tab, env, ds, before.scopes, open, k - 1);
      }
    }
  }

  lemma EnclosingTop(tab: AbbrevTable, env: Env, ds: seq<Die>, open: seq<nat>, j: nat)
    requires j < |ds| && forall i :: 0 <= i < |open| ==> open[i] < |ds|
    ensures EnclosingFrame(tab, env, ds, open + [j]) ==
            if IsFunction(tab, ds[j]) then FunctionFrame(env, AddrBaseAt(tab, ds, j + 1), LowPcOf(ds[j].fields, NO_LOW_PC))
            else EnclosingFrame(tab, env, ds, open)
    ensures open == [] ==> EnclosingFrame(tab, env, ds, open) == None
  {
    hide AddrBaseAt, FunctionFrame, LowPcOf;
    assert (open + [j])[..|open|] == open;
  }

  lemma ScopesTop(tab: AbbrevTable, env: Env, ds: seq<Die>, scopes: seq<Option<nat>>, open: seq<nat>)
    requires ScopesMatch(tab, env, ds, scopes, open)
    ensures |scopes| == |open|
    ensures open != [] ==> scopes[|scopes| - 1] == EnclosingFrame(tab, env, ds, open)
  {
    hide EnclosingFrame;
    assert open[..|open|] == open;
  }

  /** Frame size of the function DIE `k` sits in. */
  function FrameAt(tab: AbbrevTable, env: Env, ds: seq<Die>, k: nat): Option<nat>
    requires k <= |ds|
  {
    EnclosingFrame(tab, env, ds, OpenParents(tab, ds, k))
  }

  /** The frame size pass A subtracts in DIE `k` is that of the innermost enclosing function. */
  lemma CurrentFrameIsEnclosing(tab: AbbrevTable, env: Env, ds: seq<Die>, k: nat, lists: map<nat, nat>)
    requires k <= |ds|
    ensures CurrentFrame(ContextAt(tab, env, ds, k, StartOf(lists))) == FrameAt(tab, env, ds, k)
  {
    ScopesAreEnclosingFrames(tab, env, ds, k, lists);
    ScopesTop(tab, env, ds, ContextAt(tab, env, ds, k, StartOf(lists)).scopes, OpenParents(tab, ds, k));
  }

  // ---------------------------------------------------------------------------
  // The whole unit
  // ---------------------------------------------------------------------------

  /** The DIEs a reader finds in the rebuilt unit. */
  function NewDies(tab: AbbrevTable, env: Env, ds: seq<Die>, ctx: Context, offs: map<nat, nat>, off: nat): (r: seq<Die>)
    ensures |r| == |ds|
    decreases |ds|
  {
    if ds == [] then []
    else
      var frame := CurrentFrame(ctx);
      [NewDie(ds[0], frame, offs, off)] +
      NewDies(tab, env, ds[1..], ContextAfter(tab, env, ds[0], ctx), offs, off + |FinalDie(ds[0], frame, offs)|)
  }

  predicate WellFormedDies(tab: AbbrevTable, ds: seq<Die>)
  {
    forall k :: 0 <= k < |ds| ==> WellFormedDie(tab, ds[k])
  }

  lemma {:induction false} DiesReread(tab: AbbrevTable, env: Env, ds: seq<Die>, ctx: Context, offs: map<nat, nat>, off: nat)
    requires WellFormedDies(tab, ds)
    ensures var out := EmitDies(tab, env, ds, ctx);
            Editable(out) &&
            ReadDies(tab, Concat(PatchDies(out, offs)), off) == Some(NewDies(tab, env, ds, ctx, offs, off))
    decreases |ds|
  {
    hide WellFormedDie, EmitDie, ContextAfter, ReadDie, FinalDie, NewDie, ApplyEdits, CurrentFrame, EmitDies, NewDies;
    if ds == [] {
      NoDies(tab, env, ctx, offs, off);
    } else {
      DiesCons(tab, env, ds, ctx, offs, off);
      var frame, next := CurrentFrame(ctx), ContextAfter(tab, env, ds[0], ctx);
      var b := FinalDie(ds[0], frame, offs);
      EmitDiePatched(tab, ds[0], ctx, offs);
      DiesReread(tab, env, ds[1..], next, offs, off + |b|);
      var out, rest := EmitDies(tab, env, ds, ctx), EmitDies(tab, env, ds[1..], next);
      assert out[1..] == rest;
      var parts := PatchDies(out, offs);
      assert parts[1..] == PatchDies(rest, offs);
      var tail := Concat(PatchDies(rest, offs));
      DieReread(tab, ds[0], frame, offs, off, tail);
      assert Concat(parts) == b + tail;
      assert (b + tail)[|b|..] == tail;
      FinalDieNonEmpty(ds[0], frame, offs);
    }
  }

  lemma NoDies(tab: AbbrevTable, env: Env, ctx: Context, offs: map<nat, nat>, off: nat)
    ensures EmitDies(tab, env, [], ctx) == [] && NewDies(tab, env, [], ctx, offs, off) == []
  {
  }

  lemma FinalDieNonEmpty(d: Die, frame: Option<nat>, offs: map<nat, nat>)
    ensures FinalDie(d, frame, offs) != []
  {
  }

  lemma {:induction false} ContextAtShift(tab: AbbrevTable, env: Env, ds: seq<Die>, k: nat, ctx: Context)
    requires 0 < k <= |ds|
    ensures ContextAt(tab, env, ds, k, ctx) ==
            ContextAt(tab, env, ds[1..], k - 1, ContextAfter(tab, env, ds[0], ctx))
    decreases k
  {
    hide ContextAfter;
    if k > 1 {
      ContextAtShift(tab, env, ds, k - 1, ctx);
    }
  }

  lemma {:induction false} TotalSizeCons(d: OutDie, ds: seq<OutDie>)
    ensures TotalSize([d] + ds) == |d.bytes| + TotalSize(ds)
    decreases |ds|
  {
    var all := [d] + ds;
    if ds == [] {
      assert all[..0] == [];
    } else {
      assert all[..|all| - 1] == [d] + ds[..|ds| - 1];
      TotalSizeCons(d, ds[..|ds| - 1]);
    }
  }

  /** DIE `k` of the new unit: its context, and its place after the rebuilt DIEs before it. */
  lemma {:induction false} NewDieAt(tab: AbbrevTable, env: Env, ds: seq<Die>, ctx: Context, offs: map<nat, nat>, off: nat, k: nat)
    requires WellFormedDies(tab, ds) && k < |ds|
    ensures var out := EmitDies(tab, env, ds, ctx);
            out[k].oldOff == ds[k].off &&
            NewDies(tab, env, ds, ctx, offs, off)[k] ==
            NewDie(ds[k], CurrentFrame(ContextAt(tab, env, ds, k, ctx)), offs, off + TotalSize(out[..k]))
    decreases |ds|
  {
    hide WellFormedDie, EmitDie, ContextAfter, FinalDie, NewDie, ApplyEdits, CurrentFrame, EmitDies, NewDies, ContextAt, TotalSize;
    var out := EmitDies(tab, env, ds, ctx);
    var next := ContextAfter(tab, env, ds[0], ctx);
    var b := FinalDie(ds[0], CurrentFrame(ctx), offs);
    EmitDiePatched(tab, ds[0], ctx, offs);
    DiesCons(tab, env, ds, ctx, offs, off);
    if k == 0 {
      assert out[..0] == [];
      FirstPlace(tab, env, ds, ctx);
    } else {
      var rest := EmitDies(tab, env, ds[1..], next);
      NewDieAt(tab, env, ds[1..], next, offs, off + |b|, k - 1);
      ContextAtShift(tab, env, ds, k, ctx);
      assert out[..k] == [out[0]] + rest[..k - 1];
      TotalSizeCons(out[0], rest[..k - 1]);
    }
  }

  lemma FirstPlace(tab: AbbrevTable, env: Env, ds: seq<Die>, ctx: Context)
    ensures ContextAt(tab, env, ds, 0, ctx) == ctx && TotalSize([]) == 0
  {
  }

  lemma DiesCons(tab: AbbrevTable, env: Env, ds: seq<Die>, ctx: Context, offs: map<nat, nat>, off: nat)
    requires ds != []
    ensures var next := ContextAfter(tab, env, ds[0], ctx);
            EmitDies(tab, env, ds, ctx) == [EmitDie(ds[0], ctx)] + EmitDies(tab, env, ds[1..], next) &&
            NewDies(tab, env, ds, ctx, offs, off) ==
            [NewDie(ds[0], CurrentFrame(ctx), offs, off)] +
            NewDies(tab, env, ds[1..], next, offs, off + |FinalDie(ds[0], CurrentFrame(ctx), offs)|)
  {
    hide EmitDie, ContextAfter, FinalDie, NewDie, CurrentFrame;
  }

  predicate DistinctOffsets(dies: seq<OutDie>)
  {
    forall j, k :: 0 <= j < k < |dies| ==> dies[j].oldOff != dies[k].oldOff
  }

  /** Every DIE start is mapped to the place of the same DIE ... */
  lemma {:induction false} NewOffsetAt(dies: seq<OutDie>, acc: nat, k: nat)
    requires DistinctOffsets(dies) && k < |dies|
    ensures var offs := NewOffsets(dies, acc);
            dies[k].oldOff in offs && offs[dies[k].oldOff] == acc + TotalSize(dies[..k])
    decreases |dies|
  {
    var before := dies[..|dies| - 1];
    if k < |before| {
      assert before[k] == dies[k];
      NewOffsetAt(before, acc, k);
      assert before[..k] == dies[..k];
    }
  }

  /** ... and nothing else is mapped. */
  lemma {:induction false} NewOffsetsOnly(dies: seq<OutDie>, acc: nat, t: nat)
    requires forall k :: 0 <= k < |dies| ==> dies[k].oldOff != t
    ensures t !in NewOffsets(dies, acc)
    decreases |dies|
  {
    if dies != [] {
      var before := dies[..|dies| - 1];
      forall k | 0 <= k < |before| ensures before[k].oldOff != t { assert dies[k].oldOff != t; }
      NewOffsetsOnly(before, acc, t);
      assert dies[|dies| - 1].oldOff != t;
    }
  }

  lemma {:induction false} ReadFieldsWellRead(attrs: seq<Attr>, s: Bytes)
    requires ReadFields(attrs, s).Fields?
    ensures var fs := ReadFields(attrs, s).fields;
            AllWellRead(fs) && forall i :: 0 <= i < |attrs| ==> fs[i].attr == attrs[i]
    decreases |attrs|
  {
    hide ReadValue, LayoutOf;
    if attrs != [] {
      var v := ReadValue(LayoutOf(attrs[0].form), s);
      ReadValueLocal(LayoutOf(attrs[0].form), s, []);
      assert s[..v.len] + [] == s[..v.len];
      ReadFieldsWellRead(attrs[1..], s[v.len..]);
    }
  }

  lemma {:induction false} ReadDiesWellFormed(tab: AbbrevTable, s: Bytes, off: nat)
    requires ReadDies(tab, s, off).Some?
    ensures WellFormedDies(tab, ReadDies(tab, s, off).value)
    decreases |s|
  {
    hide ReadFields, AllWellRead;
    if s != [] {
      var d := ReadDie(tab, s, off);
      ReadDiesWellFormed(tab, s[d.len..], off + d.len);
      if d.die.code != 0 {
        ReadFieldsWellRead(tab[d.die.code].attrs, s[DecodeUnsigned(s).len..]);
      }
    }
  }

  /** The body of the rebuilt unit, from the scan of the old body `s` placed at offset `h`. */
  function NewBody(scan: UnitScan, h: nat): Bytes
    requires Editable(scan.dies)
  {
    Concat(PatchDies(scan.dies, NewOffsets(scan.dies, h)))
  }

  /**
   * How attribute `n` of the new unit relates to attribute `o` of the old one.
   * A reference to a DIE names the same DIE exactly when its new offset fits
   * the width; a reference to anything else keeps its value; a location expression
   * inside a function is rewritten for that function's frame; everything else
   * is unchanged.
   */
  ghost predicate SameMeaning(o: Field, n: Field, frame: Option<nat>, ds: seq<Die>, ns: seq<Die>)
    requires |ds| == |ns|
  {
    n.attr == o.attr &&
    match o.val
    case Reference(w, t) =>
      n.val.Reference? && n.val.width == w &&
      (forall j :: 0 <= j < |ds| && ds[j].off == t ==> (n.val.target == ns[j].off <==> ns[j].off < Pow256(w))) &&
      ((forall j :: 0 <= j < |ds| ==> ds[j].off != t) ==> n.val.target == t)
    case Expression(e) =>
      n.val == (if o.attr.name == AT_LOCATION && frame.Some? then Expression(RewriteExpr(OP_FBREG, e, frame.value)) else o.val)
    case _ => n.val == o.val
  }

  lemma NewFieldMeaning(o: Field, frame: Option<nat>, ds: seq<Die>, ns: seq<Die>, offs: map<nat, nat>)
    requires WellRead(o) && |ds| == |ns|
    requires forall j, k :: 0 <= j < k < |ds| ==> ds[j].off != ds[k].off
    requires forall j :: 0 <= j < |ds| ==> ds[j].off in offs && offs[ds[j].off] == ns[j].off
    requires forall t :: (forall j :: 0 <= j < |ds| ==> ds[j].off != t) ==> t !in offs
    ensures SameMeaning(o, NewField(o, frame, offs), frame, ds, ns)
  {
    hide ReadValue, RewriteExpr, LayoutOf;
    if o.val.Reference? {
      WellReadWidth(o);
      var w, t := o.val.width, o.val.target;
      WellReadTarget(o);
      if t in offs {
        if offs[t] < Pow256(w) { LeRoundTrip(w, offs[t]); }
      } else {
        LeRoundTrip(w, t);
      }
    }
  }

  lemma WellReadTarget(f: Field)
    requires WellRead(f) && f.val.Reference?
    ensures f.val.target < Pow256(f.val.width)
  {
  }

  /** The rebuilt unit reads as the same DIEs with the same attributes and meaning. */
  lemma RewriteKeepsMeaning(tab: AbbrevTable, env: Env, s: Bytes, h: nat, lists: map<nat, nat>)
    requires ReadDies(tab, s, h).Some?
    ensures var ds := ReadDies(tab, s, h).value;
            var scan := ScanDies(tab, env, s, h, StartOf(lists));
            scan.ok && Editable(scan.dies) && ReadDies(tab, NewBody(scan, h), h).Some? &&
            var ns := ReadDies(tab, NewBody(scan, h), h).value;
            |ns| == |ds| &&
            forall k :: 0 <= k < |ds| ==>
              ns[k].code == ds[k].code && |ns[k].fields| == |ds[k].fields| &&
              forall i :: 0 <= i < |ds[k].fields| ==>
                SameMeaning(ds[k].fields[i], ns[k].fields[i], FrameAt(tab, env, ds, k), ds, ns)
  {
    hide ReadDies, ScanDies, NewDies, EmitDies, NewOffsets, WellFormedDie, Concat, PatchDies, ContextAt, CurrentFrame,
      FrameAt, SameMeaning, TotalSize, StartOf, NewField, WellRead;
    var ds := ReadDies(tab, s, h).value;
    var ctx := StartOf(lists);
    var scan := ScanDies(tab, env, s, h, ctx);
    ReadDiesWellFormed(tab, s, h);
    ScanAgreesWithReader(tab, env, s, h, ctx);
    var offs := NewOffsets(scan.dies, h);
    DiesReread(tab, env, ds, ctx, offs, h);
    var ns := NewDies(tab, env, ds, ctx, offs, h);
    OffsetsAgree(tab, env, s, h, ctx);
    forall k | 0 <= k < |ds|
      ensures ns[k].code == ds[k].code && |ns[k].fields| == |ds[k].fields| &&
              forall i :: 0 <= i < |ds[k].fields| ==>
                SameMeaning(ds[k].fields[i], ns[k].fields[i], FrameAt(tab, env, ds, k), ds, ns)
    {
      NewDieAt(tab, env, ds, ctx, offs, h, k);
      CurrentFrameIsEnclosing(tab, env, ds, k, lists);
      DieFieldsWellRead(tab, s, h, k);
      var frame := FrameAt(tab, env, ds, k);
      forall i | 0 <= i < |ds[k].fields|
        ensures SameMeaning(ds[k].fields[i], ns[k].fields[i], frame, ds, ns)
      {
        NewFieldMeaning(ds[k].fields[i], frame, ds, ns, offs);
      }
    }
  }

  lemma DieFieldsWellRead(tab: AbbrevTable, s: Bytes, h: nat, k: nat)
    requires ReadDies(tab, s, h).Some? && k < |ReadDies(tab, s, h).value|
    ensures var d := ReadDies(tab, s, h).value[k]; AllWellRead(d.fields) && (d.code == 0 ==> d.fields == [])
  {
    NullDiesAreEmpty(tab, s, h, k);
    ReadDiesWellFormed(tab, s, h);
  }

  lemma {:induction false} NullDiesAreEmpty(tab: AbbrevTable, s: Bytes, h: nat, k: nat)
    requires ReadDies(tab, s, h).Some? && k < |ReadDies(tab, s, h).value|
    ensures var d := ReadDies(tab, s, h).value[k]; d.code == 0 ==> d.fields == []
    decreases |s|
  {
    hide ReadFields;
    if k > 0 {
      var d := ReadDie(tab, s, h);
      NullDiesAreEmpty(tab, s[d.len..], h + d.len, k - 1);
    }
  }

  /** The offset map sends each old DIE start to the new start of the same DIE, and maps nothing else. */
  lemma OffsetsAgree(tab: AbbrevTable, env: Env, s: Bytes, h: nat, ctx: Context)
    requires ReadDies(tab, s, h).Some?
    ensures var ds := ReadDies(tab, s, h).value;
            var out := EmitDies(tab, env, ds, ctx);
            var offs := NewOffsets(out, h);
            var ns := NewDies(tab, env, ds, ctx, offs, h);
            (forall j, k :: 0 <= j < k < |ds| ==> ds[j].off != ds[k].off) &&
            (forall j :: 0 <= j < |ds| ==> ds[j].off in offs && offs[ds[j].off] == ns[j].off) &&
            (forall t :: (forall j :: 0 <= j < |ds| ==> ds[j].off != t) ==> t !in offs)
  {
    hide ReadDies, NewDies, EmitDies, NewOffsets, WellFormedDie, ContextAt, CurrentFrame, TotalSize;
    var ds := ReadDies(tab, s, h).value;
    var out := EmitDies(tab, env, ds, ctx);
    var offs := NewOffsets(out, h);
    var ns := NewDies(tab, env, ds, ctx, offs, h);
    ReadDiesWellFormed(tab, s, h);
    DieOffsetsIncrease(tab, s, h);
    forall k | 0 <= k < |ds| ensures out[k].oldOff == ds[k].off {
      NewDieAt(tab, env, ds, ctx, offs, h, k);
    }
    forall j | 0 <= j < |ds| ensures ds[j].off in offs && offs[ds[j].off] == ns[j].off {
      NewDieAt(tab, env, ds, ctx, offs, h, j);
      NewOffsetAt(out, h, j);
    }
    forall t | forall j :: 0 <= j < |ds| ==> ds[j].off != t
      ensures t !in offs
    {
      NewOffsetsOnly(out, h, t);
    }
  }

  // ---------------------------------------------------------------------------
  // Units left alone had nothing to correct
  // ---------------------------------------------------------------------------

  predicate NeedsFix(f: Field, frame: Option<nat>)
  {
    IsFrameLocation(f, frame) && frame.value != 0 && HasOperand(OP_FBREG, f.val.expr)
  }

  lemma {:induction false} StepFieldsTouched(fields: seq<Field>, st: FieldState, i: nat)
    requires i < |fields| && NeedsFix(fields[i], CurrentFrame(st.ctx))
    ensures StepFields(fields, st).out.touched
    decreases |fields|
  {
    hide NewRaw, NoteField, NoteLowPc, HasOperand;
    var next := StepField(fields[0], st);
    if i == 0 {
      TouchedStays(fields[1..], next);
    } else {
      StepFieldsTouched(fields[1..], next, i - 1);
    }
  }

  lemma {:induction false} TouchedStays(fields: seq<Field>, st: FieldState)
    requires st.out.touched
    ensures StepFields(fields, st).out.touched
    decreases |fields|
  {
    hide NewRaw, NoteField, NoteLowPc;
    if fields != [] { TouchedStays(fields[1..], StepField(fields[0], st)); }
  }

  lemma {:induction false} EmitDiesAt(tab: AbbrevTable, env: Env, ds: seq<Die>, ctx: Context, k: nat)
    requires k < |ds|
    ensures EmitDies(tab, env, ds, ctx)[k] == EmitDie(ds[k], ContextAt(tab, env, ds, k, ctx))
    decreases |ds|
  {
    hide EmitDie, ContextAfter;
    if k > 0 {
      ContextAtShift(tab, env, ds, k, ctx);
      EmitDiesAt(tab, env, ds[1..], ContextAfter(tab, env, ds[0], ctx), k - 1);
    }
  }

  /** If no DIE was touched, no location expression of the unit holds an fbreg of a function with a frame. */
  lemma UntouchedNeedsNothing(tab: AbbrevTable, env: Env, s: Bytes, h: nat, lists: map<nat, nat>, k: nat, i: nat)
    requires ReadDies(tab, s, h).Some?
    requires !Touched(ScanDies(tab, env, s, h, StartOf(lists)).dies)
    requires var ds := ReadDies(tab, s, h).value; k < |ds| && i < |ds[k].fields|
    ensures var ds := ReadDies(tab, s, h).value; !NeedsFix(ds[k].fields[i], FrameAt(tab, env, ds, k))
  {
    hide ReadDies, ScanDies, EmitDies, ContextAt, CurrentFrame, FrameAt, StartOf, StepFields, NeedsFix, StartDie;
    var ds, ctx := ReadDies(tab, s, h).value, StartOf(lists);
    ScanAgreesWithReader(tab, env, s, h, ctx);
    EmitDiesAt(tab, env, ds, ctx, k);
    CurrentFrameIsEnclosing(tab, env, ds, k, lists);
    NullDiesAreEmpty(tab, s, h, k);
    var at := ContextAt(tab, env, ds, k, ctx);
    assert !ScanDies(tab, env, s, h, ctx).dies[k].touched;
    if NeedsFix(ds[k].fields[i], CurrentFrame(at)) {
      StartDieContext(ds[k].off, ds[k].code, at);
      StepFieldsTouched(ds[k].fields, StartDie(ds[k].off, ds[k].code, at), i);
    }
  }

  lemma StartDieContext(off: nat, code: nat, ctx: Context)
    ensures StartDie(off, code, ctx).ctx == ctx
  {
  }
}
