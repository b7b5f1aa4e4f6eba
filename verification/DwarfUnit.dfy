/**
 * A compile unit of .debug_info as the linker's passes decode it. A reader
 * that follows DWARF 5 instead is in `DwarfReader`.
 *
 * A unit is modelled by its own bytes, so offsets are relative to the unit, as
 * DW_FORM_ref1/2/4/8 values are.
 */
module DwarfUnit {
  import opened Leb128
  import opened ByteVectors

  datatype Attr = Attr(name: nat, form: nat)

  datatype Abbrev = Abbrev(tag: nat, hasChildren: bool, attrs: seq<Attr>)

  type AbbrevTable = map<nat, Abbrev>

  const AT_LOCATION: nat := 0x02
  const AT_LOW_PC: nat := 0x11
  const AT_ADDR_BASE: nat := 0x73
  const AT_LOCLISTS_BASE: nat := 0x8c
  const FORM_ADDR: nat := 0x01
  const FORM_SEC_OFFSET: nat := 0x17
  const FORM_LOCLISTX: nat := 0x22
  const TAG_SUBPROGRAM: nat := 0x2e
  const OP_FBREG: Byte := 0x91

  /** How the value of a form is laid out in the unit. */
  datatype Layout = Empty | ExprLoc | Uleb | Sleb | Fixed(size: nat) | UnitRef(size: nat) | InfoRef(size: nat) | Unsupported

  /** The linker's table of forms. It takes 0x10 for a ULEB128 form. */
  function LayoutOf(form: nat): (l: Layout)
    ensures !l.InfoRef?
  {
    match form
    case 0x21 => Empty                       // implicit_const
    case 0x19 => Empty                       // flag_present
    case 0x18 => ExprLoc
    case 0x1b => Uleb case 0x1a => Uleb case 0x0f => Uleb
    case 0x10 => Uleb case 0x22 => Uleb case 0x23 => Uleb
    case 0x0d => Sleb
    case 0x11 => UnitRef(1) case 0x12 => UnitRef(2) case 0x13 => UnitRef(4) case 0x14 => UnitRef(8)
    case 0x01 => Fixed(8)                    // addr
    case 0x0b => Fixed(1) case 0x05 => Fixed(2) case 0x06 => Fixed(4) case 0x07 => Fixed(8)
    case 0x1e => Fixed(16)                   // data16
    case 0x0c => Fixed(1)                    // flag
    case 0x0e => Fixed(4) case 0x17 => Fixed(4) case 0x1f => Fixed(4)
    case 0x25 => Fixed(1) case 0x26 => Fixed(2) case 0x27 => Fixed(3) case 0x28 => Fixed(4)
    case 0x29 => Fixed(1) case 0x2a => Fixed(2) case 0x2b => Fixed(3) case 0x2c => Fixed(4)
    case 0x1c => Fixed(4) case 0x24 => Fixed(8)
    case _ => Unsupported
  }

  /** The value of an attribute: a reference names an offset in the unit or in .debug_info, an expression is kept as bytes. */
  datatype Value =
    | NoValue
    | Plain(bytes: Bytes)
    | Reference(width: nat, target: nat)
    | SectionRef(target: nat)
    | Expression(expr: Bytes)

  datatype ValueAt = Malformed | Value(val: Value, len: nat)

  /** Reads one value from the front of `s`. */
  function ReadValue(layout: Layout, s: Bytes): (r: ValueAt)
    ensures r.Value? ==> r.len <= |s|
  {
    match layout
    case Empty => Value(NoValue, 0)
    case ExprLoc =>
      if !Terminated(s) then Malformed
      else
        var d := DecodeUnsigned(s);
        if d.len + d.value > |s| then Malformed
        else Value(Expression(s[d.len..d.len + d.value]), d.len + d.value)
    case Uleb => ReadLeb(s)
    case Sleb => ReadLeb(s)
    case Fixed(n) => if n > |s| then Malformed else Value(Plain(s[..n]), n)
    case UnitRef(n) => if n > |s| then Malformed else Value(Reference(n, FromLe(s[..n])), n)
    case InfoRef(n) => if n > |s| then Malformed else Value(SectionRef(FromLe(s[..n])), n)
    case Unsupported => Malformed
  }

  function ReadLeb(s: Bytes): (r: ValueAt)
    ensures r.Value? ==> r.len <= |s|
  {
    if !Terminated(s) then Malformed
    else
      var n := DecodeUnsigned(s).len;
      Value(Plain(s[..n]), n)
  }

  /** One attribute of a DIE with the bytes it was read from. */
  datatype Field = Field(attr: Attr, raw: Bytes, val: Value)

  datatype FieldsAt = BadFields | Fields(fields: seq<Field>, len: nat)

  function ReadFields(attrs: seq<Attr>, s: Bytes): (r: FieldsAt)
    ensures r.Fields? ==> r.len <= |s| && |r.fields| == |attrs|
    decreases |attrs|
  {
    if attrs == [] then Fields([], 0)
    else
      var v := ReadValue(LayoutOf(attrs[0].form), s);
      if v.Malformed? then BadFields
      else
        var rest := ReadFields(attrs[1..], s[v.len..]);
        if rest.BadFields? then BadFields
        else Fields([Field(attrs[0], s[..v.len], v.val)] + rest.fields, v.len + rest.len)
  }

  /** The first attribute of a field list and the rest. */
  lemma ReadFieldsCons(attrs: seq<Attr>, s: Bytes) returns (r: FieldsAt, v: ValueAt, rest: FieldsAt)
    requires attrs != []
    ensures r == ReadFields(attrs, s) && v == ReadValue(LayoutOf(attrs[0].form), s)
    ensures v.Value? ==> v.len <= |s| && rest == ReadFields(attrs[1..], s[v.len..])
    ensures r.Fields? == (v.Value? && rest.Fields?)
    ensures r.Fields? ==> r == Fields([Field(attrs[0], s[..v.len], v.val)] + rest.fields, v.len + rest.len)
  {
    hide LayoutOf;
    r, v := ReadFields(attrs, s), ReadValue(LayoutOf(attrs[0].form), s);
    rest := if v.Value? then ReadFields(attrs[1..], s[v.len..]) else BadFields;
  }

  lemma ReadFieldsNone(s: Bytes)
    ensures ReadFields([], s) == Fields([], 0)
  {
  }

  /** A debugging information entry; code 0 is the null entry that closes a sibling chain. */
  datatype Die = Die(off: nat, code: nat, fields: seq<Field>)

  datatype DieAt = BadDie | DieAt(die: Die, len: nat)

  /** Reads the DIE at the front of `s`. */
  function ReadDie(tab: AbbrevTable, s: Bytes, off: nat): (r: DieAt)
    ensures r.DieAt? ==> 0 < r.len <= |s| && r.die.off == off
  {
    if !Terminated(s) then BadDie
    else
      var c := DecodeUnsigned(s);
      if c.value == 0 then DieAt(Die(off, 0, []), c.len)
      else if c.value !in tab then BadDie
      else
        var fs := ReadFields(tab[c.value].attrs, s[c.len..]);
        if fs.BadFields? then BadDie else DieAt(Die(off, c.value, fs.fields), c.len + fs.len)
  }

  /** The DIEs of `s`, which starts at unit offset `off` and is read to its end. */
  function ReadDies(tab: AbbrevTable, s: Bytes, off: nat): (r: Option<seq<Die>>)
    decreases |s|
  {
    if s == [] then Some([])
    else
      var d := ReadDie(tab, s, off);
      if d.BadDie? then None
      else
        var rest := ReadDies(tab, s[d.len..], off + d.len);
        if rest.None? then None else Some([d.die] + rest.value)
  }

  // ---------------------------------------------------------------------------
  // Reading is local: a value depends only on the bytes it consumes.
  // ---------------------------------------------------------------------------

  lemma ReadValueLocal(layout: Layout, s: Bytes, rest: Bytes)
    requires ReadValue(layout, s).Value?
    ensures var r := ReadValue(layout, s); ReadValue(layout, s[..r.len] + rest) == r
  {
    var r := ReadValue(layout, s);
    var t := s[..r.len] + rest;
    match layout {
      case Empty =>
      case ExprLoc =>
        LebPrefix(s, r.len, rest);
        var d := DecodeUnsigned(s);
        assert t[d.len..d.len + d.value] == s[d.len..d.len + d.value];
      case Uleb =>
        LebPrefix(s, r.len, rest);
        assert t[..r.len] == s[..r.len];
      case Sleb =>
        LebPrefix(s, r.len, rest);
        assert t[..r.len] == s[..r.len];
      case Fixed(n) =>
        assert t[..n] == s[..n];
      case UnitRef(n) =>
        assert t[..n] == s[..n];
      case InfoRef(n) =>
        assert t[..n] == s[..n];
    }
  }

  /** A terminated number at the front of `s` survives any change after its last byte. */
  lemma LebPrefix(s: Bytes, n: nat, rest: Bytes)
    requires Terminated(s) && DecodeUnsigned(s).len <= n <= |s|
    ensures DecodeUnsigned(s[..n] + rest) == DecodeUnsigned(s)
    ensures Terminated(s[..n] + rest)
  {
    var len := DecodeUnsigned(s).len;
    UnsignedLocal(s, s[len..n] + rest);
    assert s[..len] + (s[len..n] + rest) == s[..n] + rest;
  }

  /** Offsets of successive DIEs strictly increase and start at `off`. */
  lemma {:induction false} DieOffsetsIncrease(tab: AbbrevTable, s: Bytes, off: nat)
    requires ReadDies(tab, s, off).Some?
    ensures var ds := ReadDies(tab, s, off).value;
            (forall k :: 0 <= k < |ds| ==> off <= ds[k].off) &&
            (forall j, k :: 0 <= j < k < |ds| ==> ds[j].off < ds[k].off)
    decreases |s|
  {
    if s != [] {
      var n := ReadDie(tab, s, off).len;
      DieOffsetsIncrease(tab, s[n..], off + n);
    }
  }
}
