/**
 * Which frame size `fix_fbreg_offsets` records for a location list: that of
 * the function around the DIE that refers to it.
 */
module ListFrames {
  import opened Leb128
  import opened ByteVectors
  import opened DwarfUnit
  import opened DwarfRewrite

  predicate RefersToList(f: Field)
  {
    f.attr == Attr(AT_LOCATION, FORM_LOCLISTX)
  }

  function NextBase(f: Field, base: nat): nat
  {
    if f.attr == Attr(AT_LOCLISTS_BASE, FORM_SEC_OFFSET) then FromLe(f.raw) else base
  }

  function BaseAfter(fields: seq<Field>, base: nat): nat
    decreases |fields|
  {
    if fields == [] then base else BaseAfter(fields[1..], NextBase(fields[0], base))
  }

  /** The table keys (base in force plus list index) a DIE's fields refer to. */
  function FieldKeys(fields: seq<Field>, base: nat): set<nat>
    decreases |fields|
  {
    if fields == [] then {}
    else (if RefersToList(fields[0]) then {base + DecodeUnsigned(fields[0].raw).value} else {}) +
         FieldKeys(fields[1..], NextBase(fields[0], base))
  }

  /** DW_AT_loclists_base in force before DIE `k`; 0 until the unit sets it. */
  function BaseAt(tab: AbbrevTable, ds: seq<Die>, k: nat): nat
    requires k <= |ds|
    decreases k
  {
    if k == 0 then 0
    else if ds[k - 1].code == 0 || ds[k - 1].code !in tab then BaseAt(tab, ds, k - 1)
    else BaseAfter(ds[k - 1].fields, BaseAt(tab, ds, k - 1))
  }

  /** DIE `k` sits in a function of known frame size and refers to the list under `key`. */
  predicate Refers(tab: AbbrevTable, env: Env, ds: seq<Die>, k: nat, key: nat)
    requires k < |ds|
  {
    ds[k].code != 0 && ds[k].code in tab && FrameAt(tab, env, ds, k).Some? &&
    key in FieldKeys(ds[k].fields, BaseAt(tab, ds, k))
  }

  /** One DIE's fields: exactly the keys they refer to now carry the current frame size. */
  lemma {:induction false} FieldsRegister(fields: seq<Field>, st: FieldState, key: nat)
    ensures var r, old0 := StepFields(fields, st).ctx, st.ctx;
            r.loclistsBase == BaseAfter(fields, old0.loclistsBase) &&
            if CurrentFrame(old0).Some? && key in FieldKeys(fields, old0.loclistsBase) then
              key in r.listFrames && r.listFrames[key] == CurrentFrame(old0).value
            else (key in r.listFrames <==> key in old0.listFrames) &&
                 (key in old0.listFrames ==> r.listFrames[key] == old0.listFrames[key])
    decreases |fields|
  {
    hide NoteLowPc, AddField, DecodeUnsigned, FromLe;
    if fields != [] {
      FieldsRegister(fields[1..], StepField(fields[0], st), key);
    }
  }

  lemma BaseTracked(tab: AbbrevTable, env: Env, ds: seq<Die>, k: nat, lists: map<nat, nat>)
    requires k <= |ds|
    ensures ContextAt(tab, env, ds, k, StartOf(lists)).loclistsBase == BaseAt(tab, ds, k)
    decreases k
  {
    hide NoteField, NoteLowPc, AddField, FunctionFrame, BaseAfter, StepFields;
    if k > 0 {
      BaseTracked(tab, env, ds, k - 1, lists);
      var d, ctx := ds[k - 1], ContextAt(tab, env, ds, k - 1, StartOf(lists));
      FieldsRegister(d.fields, StartDie(d.off, d.code, ctx), 0);
    }
  }

  /**
   * After any number of DIEs the table holds, for a key some DIE in a
   * function referred to, the frame size of such a DIE's function, and for
   * every other key what it held before the unit.
   */
  lemma {:induction false} TableHolds(tab: AbbrevTable, env: Env, ds: seq<Die>, n: nat, lists: map<nat, nat>, key: nat)
    requires n <= |ds|
    ensures var m := ContextAt(tab, env, ds, n, StartOf(lists)).listFrames;
            if exists k :: 0 <= k < n && Refers(tab, env, ds, k, key) then
              key in m && exists k :: 0 <= k < n && Refers(tab, env, ds, k, key) && m[key] == FrameAt(tab, env, ds, k).value
            else (key in m <==> key in lists) && (key in lists ==> m[key] == lists[key])
    decreases n
  {
    hide NoteField, NoteLowPc, AddField, FunctionFrame, FieldKeys, StepFields, FrameAt, BaseAt;
    if n > 0 {
      TableHolds(tab, env, ds, n - 1, lists, key);
      var d, ctx := ds[n - 1], ContextAt(tab, env, ds, n - 1, StartOf(lists));
      BaseTracked(tab, env, ds, n - 1, lists);
      CurrentFrameIsEnclosing(tab, env, ds, n - 1, lists);
      FieldsRegister(d.fields, StartDie(d.off, d.code, ctx), key);
      var m := ContextAt(tab, env, ds, n, StartOf(lists)).listFrames;
      if Refers(tab, env, ds, n - 1, key) {
        assert m[key] == FrameAt(tab, env, ds, n - 1).value;
      } else if exists k :: 0 <= k < n - 1 && Refers(tab, env, ds, k, key) {
        var k :| 0 <= k < n - 1 && Refers(tab, env, ds, k, key) && ctx.listFrames[key] == FrameAt(tab, env, ds, k).value;
        assert m[key] == FrameAt(tab, env, ds, k).value;
      }
    }
  }

  /**
   * A list that only one function's DIEs refer to is corrected by that
   * function's frame size.
   */
  lemma ListHasItsFunctionsFrame(tab: AbbrevTable, env: Env, ds: seq<Die>, lists: map<nat, nat>, k: nat, key: nat)
    requires k < |ds| && Refers(tab, env, ds, k, key)
    requires forall j :: 0 <= j < |ds| && Refers(tab, env, ds, j, key) ==> FrameAt(tab, env, ds, j) == FrameAt(tab, env, ds, k)
    ensures var m := ContextAt(tab, env, ds, |ds|, StartOf(lists)).listFrames;
            key in m && FrameAt(tab, env, ds, k) == Some(m[key])
  {
    hide Refers, FrameAt, ContextAt;
    TableHolds(tab, env, ds, |ds|, lists, key);
    FrameKnown(tab, env, ds, k, key);
  }

  lemma FrameKnown(tab: AbbrevTable, env: Env, ds: seq<Die>, k: nat, key: nat)
    requires k < |ds| && Refers(tab, env, ds, k, key)
    ensures FrameAt(tab, env, ds, k).Some?
  {
  }
}
