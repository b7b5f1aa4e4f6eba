/**
 * `fix_fbreg_offsets` as the linker runs it: cursor loops over the unit bytes,
 * a first pass that rebuilds the DIEs, a second one that fills in references,
 * and one splice of all rebuilt units into the merged section.
 */
module DwarfPass {
  import opened Leb128
  import opened ByteVectors
  import opened DwarfUnit
  import opened LocationExpr
  import opened DwarfRewrite
  import opened DwarfSection

  /** Read a ULEB at the cursor; `ok` tells whether it ended inside the unit. */
  method ReadLebAt(u: Bytes, q: nat) returns (ok: bool, v: nat, next: nat)
    requires q <= |u|
    ensures ok == Terminated(u[q..])
    ensures var d := DecodeUnsigned(u[q..]); v == d.value && next == q + d.len
  {
    assert u[q..|u|] == u[q..];
    v, next := ReadUnsigned(u, q, |u|);
    TerminatedLast(u[q..]);
    ok := next > q && u[next - 1] < 128;
  }

  /** DW_FORM_exprloc: a frame location is rewritten, anything else is copied with its length. */
  method StepExprLoc(u: Bytes, q: nat, a: Attr, st: FieldState)
    returns (ok: bool, next: nat, r: FieldState)
    requires q <= |u| && LayoutOf(a.form) == ExprLoc
    ensures q <= next <= |u|
    ensures var v := ReadValue(ExprLoc, u[q..]);
            ok == v.Value? && (ok ==> next == q + v.len && r == StepField(Field(a, u[q..][..v.len], v.val), st))
    ensures !ok ==> r == st
  {
    hide LayoutOf, RewriteExpr, HasOperand, EncodeUnsigned;
    r, next := st, q;
    var whole, len, at := ReadLebAt(u, q);
    ok := whole && at + len <= |u|;
    if ok {
      next := at + len;
      ghost var s := u[q..];
      assert s[at - q..at - q + len] == u[at..next];
      assert s[..next - q] == u[q..next];
      var bytes, touched := st.out.bytes, st.out.touched;
      if a.name == AT_LOCATION && st.ctx.scopes != [] && st.ctx.scopes[|st.ctx.scopes| - 1].Some? {
        var frame := st.ctx.scopes[|st.ctx.scopes| - 1].value;
        var e, changed := RewriteExprBytes(OP_FBREG, u, at, next, frame);
        ghost var was := bytes;
        bytes := AppendUnsigned(bytes, |e|);
        bytes := bytes + e;
        assert bytes == was + (EncodeUnsigned(|e|) + e);
        if changed { touched := true; }
      } else {
        bytes := bytes + u[q..next];
      }
      r := st.(out := st.out.(bytes := bytes, touched := touched));
    }
  }

  /** ULEB forms: copied; they may be a low_pc index or name a location list. */
  method StepUleb(u: Bytes, q: nat, a: Attr, st: FieldState)
    returns (ok: bool, next: nat, r: FieldState)
    requires q <= |u| && LayoutOf(a.form) == Uleb
    ensures q <= next <= |u|
    ensures var v := ReadValue(Uleb, u[q..]);
            ok == v.Value? && (ok ==> next == q + v.len && r == StepField(Field(a, u[q..][..v.len], v.val), st))
    ensures !ok ==> r == st
  {
    hide LayoutOf, DecodeUnsigned, Terminated;
    r := st;
    ghost var s := u[q..];
    var v;
    ok, v, next := ReadLebAt(u, q);
    if ok {
      assert s[..next - q] == u[q..next];
      UnsignedLocal(s, []);
      assert s[..next - q] + [] == u[q..next];
      var ctx, low := st.ctx, st.low;
      if a.name == AT_LOW_PC { low := low.(found := true, index := Some(v)); }
      if a == Attr(AT_LOCATION, FORM_LOCLISTX) && ctx.scopes != [] && ctx.scopes[|ctx.scopes| - 1].Some? {
        ctx := ctx.(listFrames := ctx.listFrames[ctx.loclistsBase + v := ctx.scopes[|ctx.scopes| - 1].value]);
      }
      r := FieldState(ctx, low, st.out.(bytes := st.out.bytes + u[q..next]));
    }
  }

  /** Fixed-size forms: copied; low_pc, addr_base and loclists_base are noted. */
  method StepFixed(u: Bytes, q: nat, a: Attr, n: nat, st: FieldState)
    returns (ok: bool, next: nat, r: FieldState)
    requires q <= |u| && LayoutOf(a.form) == Fixed(n)
    ensures q <= next <= |u|
    ensures var v := ReadValue(Fixed(n), u[q..]);
            ok == v.Value? && (ok ==> next == q + v.len && r == StepField(Field(a, u[q..][..v.len], v.val), st))
    ensures !ok ==> r == st
  {
    hide LayoutOf, FromLe;
    ok, next, r := q + n <= |u|, q, st;
    if ok {
      next := q + n;
      var raw := u[q..next];
      assert u[q..][..n] == raw;
      var ctx, low := st.ctx, st.low;
      if a.name == AT_LOW_PC {
        low := low.(found := true);
        if a.form == FORM_ADDR { low := low.(address := Some(FromLe(raw))); }
        else if 0x29 <= a.form <= 0x2c { low := low.(index := Some(FromLe(raw))); }
      } else if a == Attr(AT_ADDR_BASE, FORM_SEC_OFFSET) {
        ctx := ctx.(addrBase := FromLe(raw));
      } else if a == Attr(AT_LOCLISTS_BASE, FORM_SEC_OFFSET) {
        ctx := ctx.(loclistsBase := FromLe(raw));
      }
      r := FieldState(ctx, low, st.out.(bytes := st.out.bytes + raw));
    }
  }

  /** References inside the unit: copied for now, position and old target recorded for pass B. */
  method StepReference(u: Bytes, q: nat, a: Attr, n: nat, st: FieldState)
    returns (ok: bool, next: nat, r: FieldState)
    requires q <= |u| && LayoutOf(a.form) == UnitRef(n)
    ensures q <= next <= |u|
    ensures var v := ReadValue(UnitRef(n), u[q..]);
            ok == v.Value? && (ok ==> next == q + v.len && r == StepField(Field(a, u[q..][..v.len], v.val), st))
    ensures !ok ==> r == st
  {
    hide LayoutOf, FromLe;
    ok, next, r := q + n <= |u|, q, st;
    if ok {
      next := q + n;
      var raw := u[q..next];
      assert u[q..][..n] == raw;
      var low := st.low;
      if a.name == AT_LOW_PC { low := low.(found := true); }
      var edit := RefEdit(|st.out.bytes|, FromLe(raw), n);
      r := FieldState(st.ctx, low, st.out.(bytes := st.out.bytes + raw, edits := st.out.edits + [edit]));
    }
  }

  /** One attribute: read its value, copy or rewrite it, and note what later DIEs depend on. */
  method StepAttribute(u: Bytes, q: nat, a: Attr, st: FieldState)
    returns (ok: bool, next: nat, r: FieldState)
    requires q <= |u|
    ensures q <= next <= |u|
    ensures var v := ReadValue(LayoutOf(a.form), u[q..]);
            ok == v.Value? && (ok ==> next == q + v.len && r == StepField(Field(a, u[q..][..v.len], v.val), st))
    ensures !ok ==> r == st
  {
    hide LayoutOf;
    ok, next, r := false, q, st;
    match LayoutOf(a.form) {
      case Empty =>
        ok := true;
        assert u[q..][..0] == [];
        assert st.out.bytes + [] == st.out.bytes;
      case ExprLoc =>
        ok, next, r := StepExprLoc(u, q, a, st);
      case Uleb =>
        ok, next, r := StepUleb(u, q, a, st);
      case Sleb =>
        var value;
        ok, value, next := ReadLebAt(u, q);
        if ok {
          assert u[q..][..next - q] == u[q..next];
          r := st.(out := st.out.(bytes := st.out.bytes + u[q..next]));
        }
      case Fixed(n) =>
        ok, next, r := StepFixed(u, q, a, n, st);
      case UnitRef(n) =>
        ok, next, r := StepReference(u, q, a, n, st);
      case Unsupported =>
    }
  }

  /** The attribute loop of one DIE. */
  method ScanAttributes(u: Bytes, q0: nat, attrs: seq<Attr>, st0: FieldState)
    returns (ok: bool, q: nat, st: FieldState)
    requires q0 <= |u|
    ensures q0 <= q <= |u|
    ensures var r := ScanFields(attrs, u[q0..], st0);
            ok == r.ok && st == r.st && (ok ==> q == q0 + r.len)
  {
    hide ScanFields, ReadValue, StepField, LayoutOf;
    ok, q, st := true, q0, st0;
    var k := 0;
    assert attrs[0..] == attrs;
    while k < |attrs|
      invariant 0 <= k <= |attrs| && q0 <= q <= |u|
      invariant var r, t := ScanFields(attrs, u[q0..], st0), ScanFields(attrs[k..], u[q..], st);
                r.ok == t.ok && r.st == t.st && r.len == q - q0 + t.len
    {
      var a := attrs[k];
      assert attrs[k..][1..] == attrs[k + 1..];
      var good, next, stepped := StepAttribute(u, q, a, st);
      ScanFieldsUnfold(attrs[k..], u[q..], st);
      if !good {
        ok := false;
        return;
      }
      assert u[q..][next - q..] == u[next..];
      q, st, k := next, stepped, k + 1;
    }
    ScanFieldsNone(attrs[k..], u[q..], st);
  }

  lemma ScanFieldsNone(attrs: seq<Attr>, s: Bytes, st: FieldState)
    requires attrs == []
    ensures ScanFields(attrs, s, st) == FieldScan(st, 0, true)
  {
  }

  lemma ScanFieldsUnfold(attrs: seq<Attr>, s: Bytes, st: FieldState)
    requires attrs != []
    ensures var v := ReadValue(LayoutOf(attrs[0].form), s);
            ScanFields(attrs, s, st) ==
            if v.Malformed? then FieldScan(st, 0, false)
            else
              var t := ScanFields(attrs[1..], s[v.len..], StepField(Field(attrs[0], s[..v.len], v.val), st));
              FieldScan(t.st, v.len + t.len, t.ok)
  {
  }

  /** One DIE: its code, its attributes, and the scope it opens or closes. */
  method ScanDieAt(tab: AbbrevTable, env: Env, u: Bytes, q: nat, ctx: Context)
    returns (ok: bool, next: nat, ctx': Context, out: OutDie)
    requires q <= |u|
    ensures q <= next <= |u|
    ensures var r := ScanDie(tab, env, u[q..], q, ctx);
            ok == r.ok && ctx' == r.ctx && (ok ==> out == r.out && next == q + r.len)
  {
    hide ScanFields, OpenScope, CloseScope, StartDie, DecodeUnsigned, Terminated;
    out, ctx' := OutDie(q, [0], [], false), ctx;
    var code;
    ok, code, next := ReadLebAt(u, q);
    if ok {
      if code == 0 {
        ctx' := CloseScope(ctx);
      } else if code !in tab {
        ok := false;
      } else {
        var a := tab[code];
        var at := next;
        assert u[q..][at - q..] == u[at..];
        var st;
        ok, next, st := ScanAttributes(u, at, a.attrs, StartDie(q, code, ctx));
        if ok {
          out, ctx' := st.out, OpenScope(env, a, st.low, st.ctx);
        } else {
          ctx' := st.ctx;
        }
      }
    }
  }

  /** Pass A: the DIE loop with its function-frame stack. */
  method ScanUnit(tab: AbbrevTable, env: Env, u: Bytes, h: nat, lists: map<nat, nat>)
    returns (ctx: Context, dies: seq<OutDie>, ok: bool)
    requires h <= |u|
    ensures var r := ScanDies(tab, env, u[h..], h, StartOf(lists));
            ok == r.ok && ctx == r.ctx && (ok ==> dies == r.dies)
  {
    hide ScanDie, StartOf;
    ctx, dies, ok := StartOf(lists), [], true;
    var q := h;
    while q < |u|
      invariant h <= q <= |u| && ok
      invariant var r, t := ScanDies(tab, env, u[h..], h, StartOf(lists)), ScanDies(tab, env, u[q..], q, ctx);
                r.ok == t.ok && r.ctx == t.ctx && r.dies == dies + t.dies
      decreases |u| - q
    {
      var next, out;
      ok, next, ctx, out := ScanDieAt(tab, env, u, q, ctx);
      if !ok { return; }
      assert u[q..][next - q..] == u[next..];
      ghost var rest := ScanDies(tab, env, u[next..], next, ctx).dies;
      assert dies + ([out] + rest) == (dies + [out]) + rest;
      dies := dies + [out];
      q := next;
    }
  }

  /** Pass B, first loop: where each rebuilt DIE goes. */
  method PlaceDies(dies: seq<OutDie>, h: nat) returns (offs: map<nat, nat>)
    ensures offs == NewOffsets(dies, h)
  {
    offs := map[];
    var acc := h;
    for i := 0 to |dies|
      invariant offs == NewOffsets(dies[..i], h) && acc == h + TotalSize(dies[..i])
    {
      assert dies[..i + 1][..i] == dies[..i];
      offs := offs[dies[i].oldOff := acc];
      acc := acc + |dies[i].bytes|;
    }
    assert dies[..|dies|] == dies;
  }

  /** Pass B: references filled in, DIEs appended to the header, unit_length corrected. */
  method AssembleUnit(u: Bytes, h: nat, dies: seq<OutDie>) returns (cu: Bytes)
    requires 4 <= h <= |u| && Editable(dies)
    ensures cu == Reassemble(u[..h], Concat(PatchDies(dies, NewOffsets(dies, h))))
  {
    hide NewOffsets, ApplyEdits, EditsFit, Concat;
    var offs := PlaceDies(dies, h);
    var body: Bytes := [];
    ghost var parts := PatchDies(dies, offs);
    assert parts[..0] == [];
    ConcatEmpty();
    for i := 0 to |dies|
      invariant body == Concat(parts[..i])
    {
      var bytes := PatchOne(dies[i], offs);
      assert parts[..i + 1] == parts[..i] + [parts[i]];
      ConcatSnoc(parts[..i], parts[i]);
      body := body + bytes;
    }
    assert parts[..|dies|] == parts;
    cu := u[..h] + body;
    cu := Overwrite(cu, 0, Le(4, |cu| - 4));
  }

  lemma ConcatEmpty()
    ensures Concat([]) == []
  {
  }

  method PatchOne(d: OutDie, offs: map<nat, nat>) returns (bytes: Bytes)
    requires EditsFit(d.edits, |d.bytes|)
    ensures bytes == ApplyEdits(d.bytes, d.edits, offs)
  {
    bytes := d.bytes;
    for j := 0 to |d.edits|
      invariant bytes == ApplyEdits(d.bytes, d.edits[..j], offs)
    {
      var e := d.edits[j];
      var nv := if e.target in offs then offs[e.target] else e.target;
      assert d.edits[..j + 1][..j] == d.edits[..j];
      bytes := Overwrite(bytes, e.pos, Le(e.width, nv));
    }
    assert d.edits[..|d.edits|] == d.edits;
  }

  /** One unit: `None` when it is left as it is. */
  method RewriteUnitBytes(tables: AbbrevTables, env: Env, lists: map<nat, nat>, u: Bytes)
    returns (lists': map<nat, nat>, cu: Option<Bytes>)
    requires |u| >= 12
    ensures var r := RewriteUnit(tables, env, lists, u);
            lists' == r.lists && r.bytes == if cu.Some? then cu.value else u
  {
    hide ScanDies, StartOf, FromLe, Reassemble, EditsFit, NewOffsets, PatchDies;
    lists', cu := lists, None;
    var version := FromLe(u[4..6]);
    if version < 4 || version > 5 { return; }
    var h, key := 12, FromLe(u[8..12]);
    if version < 5 { h, key := 11, FromLe(u[6..10]); }
    if key !in tables { return; }
    var ctx, dies, ok := ScanUnit(tables[key], env, u, h, lists);
    ScanEditable(tables[key], env, u[h..], h, StartOf(lists));
    lists' := ctx.listFrames;
    if !ok { return; }
    var need := false;
    for i := 0 to |dies|
      invariant need == exists j :: 0 <= j < i && dies[j].touched
    {
      if dies[i].touched { need := true; }
    }
    if !need { return; }
    var bytes := AssembleUnit(u, h, dies);
    cu := Some(bytes);
  }

  // ---------------------------------------------------------------------------
  // The whole section
  // ---------------------------------------------------------------------------

  /** The part of the merged section one object contributed, with its tables. */
  datatype Contribution = Contribution(start: nat, size: nat, tables: AbbrevTables, env: Env)

  predicate InOrder(cs: seq<Contribution>, from: nat, n: nat)
  {
    if cs == [] then from <= n
    else from <= cs[0].start && cs[0].start + cs[0].size <= n && InOrder(cs[1..], cs[0].start + cs[0].size, n)
  }

  /** The section from `from` on: contributions rewritten, bytes between them untouched. */
  function RewriteSection(src: Bytes, cs: seq<Contribution>, from: nat, lists: map<nat, nat>): (r: Rewritten)
    requires InOrder(cs, from, |src|)
    decreases |cs|
  {
    if cs == [] then Rewritten(lists, src[from..])
    else
      var c := cs[0];
      var end := c.start + c.size;
      var here := RewriteUnits(c.tables, c.env, lists, src[c.start..end]);
      InOrderBounds(cs[1..], end, |src|);
      var rest := RewriteSection(src, cs[1..], end, here.lists);
      Rewritten(rest.lists, src[from..c.start] + here.bytes + rest.bytes)
  }

  lemma InOrderBounds(cs: seq<Contribution>, from: nat, n: nat)
    requires InOrder(cs, from, n)
    ensures from <= n
  {
  }

  datatype Rewrite = Rewrite(start: nat, oldLen: nat, bytes: Bytes)

  /** The first `p` bytes of `src` after replacing the collected units, which all end by `p`. */
  function Spliced(src: Bytes, rws: seq<Rewrite>, p: nat): (r: Bytes)
    requires SplicesFit(rws, p) && p <= |src|
    decreases |rws|
  {
    if rws == [] then src[..p]
    else
      var w := rws[|rws| - 1];
      Spliced(src, rws[..|rws| - 1], w.start) + w.bytes + src[w.start + w.oldLen..p]
  }

  /** Collected rewrites ascend and do not overlap. */
  predicate SplicesFit(rws: seq<Rewrite>, p: nat)
    decreases |rws|
  {
    rws == [] ||
    var w := rws[|rws| - 1];
    w.start + w.oldLen <= p && SplicesFit(rws[..|rws| - 1], w.start)
  }

  lemma SplicedExtend(src: Bytes, rws: seq<Rewrite>, p: nat, p': nat)
    requires SplicesFit(rws, p) && p <= p' <= |src|
    ensures SplicesFit(rws, p') && Spliced(src, rws, p') == Spliced(src, rws, p) + src[p..p']
  {
    if rws != [] {
      var w := rws[|rws| - 1];
      assert src[w.start + w.oldLen..p'] == src[w.start + w.oldLen..p] + src[p..p'];
    } else {
      assert src[..p'] == src[..p] + src[p..p'];
    }
  }

  lemma SplicedAppend(src: Bytes, rws: seq<Rewrite>, w: Rewrite)
    requires SplicesFit(rws, w.start) && w.start + w.oldLen <= |src|
    ensures var p := w.start + w.oldLen;
            SplicesFit(rws + [w], p) && Spliced(src, rws + [w], p) == Spliced(src, rws, w.start) + w.bytes
  {
    var p := w.start + w.oldLen;
    assert (rws + [w])[..|rws|] == rws;
    assert src[p..p] == [];
  }

  /** The unit walk over one contribution, collecting rebuilt units by their section offset. */
  method CollectRewrites(src: Bytes, c: Contribution, lists0: map<nat, nat>, rws0: seq<Rewrite>)
    returns (lists: map<nat, nat>, rws: seq<Rewrite>)
    requires c.start + c.size <= |src| && SplicesFit(rws0, c.start)
    ensures var end := c.start + c.size;
            var r := RewriteUnits(c.tables, c.env, lists0, src[c.start..end]);
            lists == r.lists && SplicesFit(rws, end) &&
            Spliced(src, rws, end) == Spliced(src, rws0, c.start) + r.bytes
  {
    hide RewriteUnit, RewriteUnits, Spliced, SplicesFit, UnitAt;
    lists, rws := lists0, rws0;
    var p, end := c.start, c.start + c.size;
    ghost var whole := RewriteUnits(c.tables, c.env, lists0, src[c.start..end]);
    ghost var base := Spliced(src, rws0, c.start);
    while UnitAt(src[p..end])
      invariant c.start <= p <= end && SplicesFit(rws, p)
      invariant var r := RewriteUnits(c.tables, c.env, lists, src[p..end]);
                whole.lists == r.lists && base + whole.bytes == Spliced(src, rws, p) + r.bytes
      decreases end - p
    {
      var n := UnitSize(src[p..end]);
      var u := src[p..p + n];
      RewriteUnitsUnfold(c.tables, c.env, lists, src, p, end);
      ghost var tail := RewriteUnits(c.tables, c.env, RewriteUnit(c.tables, c.env, lists, u).lists, src[p + n..end]).bytes;
      ghost var done := Spliced(src, rws, p);
      var lists', cu := RewriteUnitBytes(c.tables, c.env, lists, u);
      if cu.Some? {
        SplicedAppend(src, rws, Rewrite(p, n, cu.value));
        rws := rws + [Rewrite(p, n, cu.value)];
        assert done + (cu.value + tail) == (done + cu.value) + tail;
      } else {
        SplicedExtend(src, rws, p, p + n);
        assert done + (u + tail) == (done + u) + tail;
      }
      lists, p := lists', p + n;
    }
    RewriteUnitsStop(c.tables, c.env, lists, src[p..end]);
    SplicedExtend(src, rws, p, end);
  }

  lemma RewriteUnitsUnfold(tables: AbbrevTables, env: Env, lists: map<nat, nat>, src: Bytes, p: nat, end: nat)
    requires p <= end <= |src| && UnitAt(src[p..end])
    ensures var n := UnitSize(src[p..end]);
            p + n <= end &&
            var u := RewriteUnit(tables, env, lists, src[p..p + n]);
            var rest := RewriteUnits(tables, env, u.lists, src[p + n..end]);
            RewriteUnits(tables, env, lists, src[p..end]) == Rewritten(rest.lists, u.bytes + rest.bytes)
  {
    hide RewriteUnit;
    var n := UnitSize(src[p..end]);
    assert src[p..end][..n] == src[p..p + n] && src[p..end][n..] == src[p + n..end];
  }

  lemma RewriteUnitsStop(tables: AbbrevTables, env: Env, lists: map<nat, nat>, c: Bytes)
    requires !UnitAt(c)
    ensures RewriteUnits(tables, env, lists, c) == Rewritten(lists, c)
  {
  }

  /** `fix_fbreg_offsets`: collect over all objects, then rebuild the section once. */
  method FixFbregOffsets(src: Bytes, cs: seq<Contribution>) returns (out: Bytes, lists: map<nat, nat>)
    requires InOrder(cs, 0, |src|)
    ensures var r := RewriteSection(src, cs, 0, map[]); out == r.bytes && lists == r.lists
  {
    hide RewriteUnits, RewriteSection, Spliced, SplicesFit;
    lists := map[];
    var rws := [];
    ghost var from: nat := 0;
    SplicedNone(src);
    assert cs[0..] == cs;
    for i := 0 to |cs|
      invariant from <= |src| && InOrder(cs[i..], from, |src|) && SplicesFit(rws, from)
      invariant var whole, r := RewriteSection(src, cs, 0, map[]), RewriteSection(src, cs[i..], from, lists);
                whole.lists == r.lists && whole.bytes == Spliced(src, rws, from) + r.bytes
    {
      var c := cs[i];
      assert cs[i..][0] == c && cs[i..][1..] == cs[i + 1..];
      ghost var done := Spliced(src, rws, from);
      RewriteSectionStep(src, cs[i..], from, lists, done);
      SplicedExtend(src, rws, from, c.start);
      lists, rws := CollectRewrites(src, c, lists, rws);
      from := c.start + c.size;
    }
    assert cs[|cs|..] == [];
    RewriteSectionEnd(src, from, lists);
    SplicedExtend(src, rws, from, |src|);
    out := ApplySplices(src, rws);
  }

  lemma SplicedNone(src: Bytes)
    ensures SplicesFit([], 0) && Spliced(src, [], 0) == []
  {
  }

  lemma RewriteSectionEnd(src: Bytes, from: nat, lists: map<nat, nat>)
    requires from <= |src|
    ensures RewriteSection(src, [], from, lists) == Rewritten(lists, src[from..|src|])
  {
  }

  /** The first contribution taken off, behind what is done already. */
  lemma RewriteSectionStep(src: Bytes, cs: seq<Contribution>, from: nat, lists: map<nat, nat>, done: Bytes)
    requires cs != [] && InOrder(cs, from, |src|)
    ensures var c := cs[0];
            var end := c.start + c.size;
            from <= c.start && end <= |src| && InOrder(cs[1..], end, |src|) &&
            var here := RewriteUnits(c.tables, c.env, lists, src[c.start..end]);
            var r, rest := RewriteSection(src, cs, from, lists), RewriteSection(src, cs[1..], end, here.lists);
            r.lists == rest.lists && done + r.bytes == ((done + src[from..c.start]) + here.bytes) + rest.bytes
  {
    hide RewriteUnits;
    var c := cs[0];
    var end := c.start + c.size;
    InOrderBounds(cs[1..], end, |src|);
    var here := RewriteUnits(c.tables, c.env, lists, src[c.start..end]);
    var r, rest := RewriteSection(src, cs, from, lists), RewriteSection(src, cs[1..], end, here.lists);
    assert r.bytes == src[from..c.start] + here.bytes + rest.bytes;
    hide RewriteSection;
    assert done + (src[from..c.start] + here.bytes + rest.bytes) == ((done + src[from..c.start]) + here.bytes) + rest.bytes;
  }

  /** Copy the section, replacing each collected unit. */
  method ApplySplices(src: Bytes, rws: seq<Rewrite>) returns (out: Bytes)
    requires SplicesFit(rws, |src|)
    ensures out == Spliced(src, rws, |src|)
  {
    out := [];
    var pos := 0;
    assert src[..0] == [] && rws[..0] == [];
    for i := 0 to |rws|
      invariant pos <= |src| && SplicesFit(rws[..i], pos) && out == Spliced(src, rws[..i], pos)
      invariant forall k :: i <= k < |rws| ==> pos <= rws[k].start
    {
      var w := rws[i];
      SpliceBounds(rws, |src|, i);
      SplicedExtend(src, rws[..i], pos, w.start);
      assert rws[..i + 1][..i] == rws[..i];
      out := out + src[pos..w.start];
      out := out + w.bytes;
      pos := w.start + w.oldLen;
      assert src[pos..pos] == [];
    }
    assert rws[..|rws|] == rws;
    SplicedExtend(src, rws, pos, |src|);
    out := out + src[pos..];
  }

  lemma {:induction false} SpliceBounds(rws: seq<Rewrite>, p: nat, i: nat)
    requires SplicesFit(rws, p) && i < |rws|
    ensures rws[i].start + rws[i].oldLen <= p
    ensures forall k :: i < k < |rws| ==> rws[i].start + rws[i].oldLen <= rws[k].start
    decreases |rws|
  {
    var w := rws[|rws| - 1];
    if i < |rws| - 1 {
      var before := rws[..|rws| - 1];
      assert before[i] == rws[i];
      SpliceBounds(before, w.start, i);
      forall k | i < k < |rws| ensures rws[i].start + rws[i].oldLen <= rws[k].start {
        if k < |rws| - 1 { assert before[k] == rws[k]; }
      }
    }
  }
}
