/**
 * The partial link (`-r`) of `src/elf_linker.cpp`: merging sections by name,
 * choosing global definitions, rebuilding the symbol table and rewriting the
 * relocations.
 */
module PartialLink {
  import opened Leb128
  import opened ByteVectors
  import W = Words

  /** `data` is empty for NOBITS sections, whose `size` is all they have. */
  datatype Section = Section(name: string, loadable: bool, nobits: bool, align: nat, data: Bytes, size: nat)

  datatype Binding = Local | Global | Weak

  /** `sec` is None for an undefined symbol; `linkable` says FUNC or OBJECT. */
  datatype Sym = Sym(name: string, sec: Option<nat>, value: nat, binding: Binding, linkable: bool)

  datatype Reloc = Reloc(target: nat, offset: nat, sym: nat, kind: nat, addend: int)

  datatype Object = Object(sections: seq<Section>, symbols: seq<Sym>, relocs: seq<Reloc>)

  /** A section, symbol or relocation of an object, by index. */
  type Ref = (nat, nat)

  predicate SectionOk(s: Section)
  {
    (s.nobits ==> s.data == []) && (!s.nobits ==> |s.data| == s.size)
  }

  predicate ObjectsOk(objects: seq<Object>)
  {
    forall o, i :: 0 <= o < |objects| && 0 <= i < |objects[o].sections| ==> SectionOk(objects[o].sections[i])
  }

  predicate IsSection(objects: seq<Object>, r: Ref)
  {
    r.0 < |objects| && r.1 < |objects[r.0].sections|
  }

  function SectionAt(objects: seq<Object>, r: Ref): Section
    requires IsSection(objects, r)
  {
    objects[r.0].sections[r.1]
  }

  // ---------------------------------------------------------------------------
  // Merging sections
  // ---------------------------------------------------------------------------

  datatype Out = Out(name: string, nobits: bool, align: nat, data: Bytes, size: nat)

  /** Where a contribution went: output section and offset in it. */
  datatype Place = Place(out: nat, off: nat)

  datatype Merge = Merge(outs: seq<Out>, index: map<string, nat>, place: map<Ref, Place>)

  const NO_MERGE: Merge := Merge([], map[], map[])

  function Align(s: Section): nat
  {
    if s.align == 0 then 1 else s.align
  }

  function Padding(at: nat, align: nat): nat
    requires align > 0
  {
    if at % align == 0 then 0 else align - at % align
  }

  function Zeros(n: nat): (z: Bytes)
    ensures |z| == n
  {
    seq(n, _ => 0)
  }

  function Appended(o: Out, s: Section): Out
  {
    var pad := Padding(o.size, Align(s));
    Out(o.name, o.nobits, if Align(s) > o.align then Align(s) else o.align,
        (if o.nobits then o.data else o.data + Zeros(pad)) + s.data,
        o.size + pad + s.size)
  }

  predicate IndexOk(m: Merge)
  {
    (forall n :: n in m.index ==> m.index[n] < |m.outs| && m.outs[m.index[n]].name == n) &&
    forall i :: 0 <= i < |m.outs| ==> m.outs[i].name in m.index && m.index[m.outs[i].name] == i
  }

  function MergeOne(m: Merge, r: Ref, s: Section): Merge
    requires IndexOk(m)
  {
    if !s.loadable then m
    else if s.name !in m.index then
      Merge(m.outs + [Out(s.name, s.nobits, Align(s), s.data, s.size)],
            m.index[s.name := |m.outs|], m.place[r := Place(|m.outs|, 0)])
    else
      var i := m.index[s.name];
      var o := m.outs[i];
      Merge(m.outs[i := Appended(o, s)], m.index, m.place[r := Place(i, o.size + Padding(o.size, Align(s)))])
  }

  /** Contribution `r` is where the placement says, aligned, with its bytes. */
  ghost predicate Placed(m: Merge, r: Ref, s: Section)
  {
    r in m.place &&
    var p := m.place[r];
    p.out < |m.outs| && m.outs[p.out].name == s.name && p.off % Align(s) == 0 && p.off + s.size <= m.outs[p.out].size &&
    m.outs[p.out].nobits == s.nobits &&
    (!s.nobits ==> |m.outs[p.out].data| == m.outs[p.out].size && m.outs[p.out].data[p.off..p.off + s.size] == s.data)
  }

  /** Two contributions to one output section do not overlap. */
  ghost predicate Apart(m: Merge, r: Ref, s: Section, r': Ref, s': Section)
    requires r in m.place && r' in m.place
  {
    var p, p' := m.place[r], m.place[r'];
    p.out == p'.out ==> p.off + s.size <= p'.off || p'.off + s'.size <= p.off
  }

  /** Sections of one name are all NOBITS or none is. */
  ghost predicate Agreeing(objects: seq<Object>)
  {
    forall r, r' :: IsSection(objects, r) && IsSection(objects, r') ==>
      var s, s' := SectionAt(objects, r), SectionAt(objects, r');
      s.loadable && s'.loadable && s.name == s'.name ==> s.nobits == s'.nobits
  }

  ghost predicate KeysOk(objects: seq<Object>, done: set<Ref>, m: Merge)
  {
    (forall r :: r in done ==> IsSection(objects, r)) &&
    forall r :: r in m.place <==> r in done && IsSection(objects, r) && SectionAt(objects, r).loadable
  }

  ghost predicate PlacesOk(objects: seq<Object>, m: Merge)
  {
    forall r :: r in m.place ==> IsSection(objects, r) && Placed(m, r, SectionAt(objects, r))
  }

  ghost predicate ApartOk(objects: seq<Object>, m: Merge)
  {
    forall r, r' :: r in m.place && r' in m.place && r != r' ==>
      IsSection(objects, r) && IsSection(objects, r') && Apart(m, r, SectionAt(objects, r), r', SectionAt(objects, r'))
  }

  ghost predicate OutsOk(m: Merge)
  {
    forall i :: 0 <= i < |m.outs| ==> OutOk(m, i) && exists r :: r in m.place && m.place[r].out == i
  }

  ghost predicate MergeOk(objects: seq<Object>, done: set<Ref>, m: Merge)
  {
    IndexOk(m) && KeysOk(objects, done, m) && PlacesOk(objects, m) && ApartOk(objects, m) && OutsOk(m)
  }

  predicate OutOk(m: Merge, i: nat)
    requires i < |m.outs|
  {
    !m.outs[i].nobits ==> |m.outs[i].data| == m.outs[i].size
  }

  lemma PaddingAligns(at: nat, align: nat)
    requires align > 0
    ensures (at + Padding(at, align)) % align == 0 && Padding(at, align) < align
  {
    var q := at / align;
    assert at == align * q + at % align;
    if at % align != 0 {
      assert at + Padding(at, align) == align * (q + 1);
      W.ModUnique(at + Padding(at, align), align, q + 1, 0);
    }
  }

  lemma NewSection(objects: seq<Object>, done: set<Ref>, m: Merge, r: Ref)
    requires MergeOk(objects, done, m) && ObjectsOk(objects) && IsSection(objects, r) && r !in done
    requires SectionAt(objects, r).loadable && SectionAt(objects, r).name !in m.index
    ensures MergeOk(objects, done + {r}, MergeOne(m, r, SectionAt(objects, r)))
  {
    hide Placed, Apart, PlacesOk, ApartOk, OutsOk;
    NewPlaces(objects, done, m, r);
    NewApart(objects, done, m, r);
    NewOuts(objects, done, m, r);
  }

  lemma NewPlaces(objects: seq<Object>, done: set<Ref>, m: Merge, r: Ref)
    requires MergeOk(objects, done, m) && ObjectsOk(objects) && IsSection(objects, r) && r !in done
    requires SectionAt(objects, r).loadable && SectionAt(objects, r).name !in m.index
    ensures PlacesOk(objects, MergeOne(m, r, SectionAt(objects, r)))
  {
    hide ApartOk, OutsOk;
    var s := SectionAt(objects, r);
    var m' := MergeOne(m, r, s);
    assert SectionOk(s);
    forall q | q in m'.place
      ensures IsSection(objects, q) && Placed(m', q, SectionAt(objects, q))
    {
      if q != r { assert Placed(m, q, SectionAt(objects, q)); }
    }
  }

  lemma NewApart(objects: seq<Object>, done: set<Ref>, m: Merge, r: Ref)
    requires MergeOk(objects, done, m) && IsSection(objects, r) && r !in done
    requires SectionAt(objects, r).loadable && SectionAt(objects, r).name !in m.index
    ensures ApartOk(objects, MergeOne(m, r, SectionAt(objects, r)))
  {
    hide OutsOk;
    var m' := MergeOne(m, r, SectionAt(objects, r));
    forall q, q' | q in m'.place && q' in m'.place && q != q'
      ensures IsSection(objects, q) && IsSection(objects, q') && Apart(m', q, SectionAt(objects, q), q', SectionAt(objects, q'))
    {
      if q != r { assert Placed(m, q, SectionAt(objects, q)); }
      if q' != r { assert Placed(m, q', SectionAt(objects, q')); }
      if q != r && q' != r { assert Apart(m, q, SectionAt(objects, q), q', SectionAt(objects, q')); }
    }
  }

  lemma NewOuts(objects: seq<Object>, done: set<Ref>, m: Merge, r: Ref)
    requires MergeOk(objects, done, m) && ObjectsOk(objects) && IsSection(objects, r) && r !in done
    requires SectionAt(objects, r).loadable && SectionAt(objects, r).name !in m.index
    ensures OutsOk(MergeOne(m, r, SectionAt(objects, r)))
  {
    hide Placed, PlacesOk, ApartOk;
    var m' := MergeOne(m, r, SectionAt(objects, r));
    assert SectionOk(SectionAt(objects, r));
    forall i | 0 <= i < |m'.outs|
      ensures OutOk(m', i) && exists q :: q in m'.place && m'.place[q].out == i
    {
      if i < |m.outs| {
        assert OutOk(m, i);
        var q :| q in m.place && m.place[q].out == i;
        assert m'.place[q].out == i;
      } else {
        assert m'.place[r].out == i;
      }
    }
  }

  /** Appending keeps what the output section already held. */
  lemma AppendedKeeps(o: Out, s: Section, lo: nat, hi: nat)
    requires !o.nobits && |o.data| == o.size && lo <= hi <= o.size
    ensures |Appended(o, s).data| >= hi && Appended(o, s).data[lo..hi] == o.data[lo..hi]
  {
  }

  lemma AppendedHas(o: Out, s: Section)
    requires SectionOk(s) && o.nobits == s.nobits && (!o.nobits ==> |o.data| == o.size)
    ensures var a, p := Appended(o, s), o.size + Padding(o.size, Align(s));
            a.nobits == s.nobits && p % Align(s) == 0 && p + s.size == a.size &&
            (!s.nobits ==> |a.data| == a.size && a.data[p..p + s.size] == s.data)
  {
    PaddingAligns(o.size, Align(s));
  }

  lemma MoreOfSection(objects: seq<Object>, done: set<Ref>, m: Merge, r: Ref)
    requires MergeOk(objects, done, m) && ObjectsOk(objects) && Agreeing(objects) && IsSection(objects, r) && r !in done
    requires SectionAt(objects, r).loadable && SectionAt(objects, r).name in m.index
    ensures MergeOk(objects, done + {r}, MergeOne(m, r, SectionAt(objects, r)))
  {
    hide Appended, ApartOk, Placed;
    var s := SectionAt(objects, r);
    var i := m.index[s.name];
    SameKind(objects, done, m, r);
    AppendedName(m.outs[i], s);
    MorePlaces(objects, done, m, r);
    MoreApart(objects, done, m, r);
    MoreOuts(objects, done, m, r);
  }

  /** The output section a contribution joins is of its kind. */
  lemma SameKind(objects: seq<Object>, done: set<Ref>, m: Merge, r: Ref)
    requires MergeOk(objects, done, m) && Agreeing(objects) && IsSection(objects, r)
    requires SectionAt(objects, r).loadable && SectionAt(objects, r).name in m.index
    ensures m.outs[m.index[SectionAt(objects, r).name]].nobits == SectionAt(objects, r).nobits
  {
    hide ApartOk;
    var i := m.index[SectionAt(objects, r).name];
    assert OutOk(m, i);
    var w :| w in m.place && m.place[w].out == i;
    assert Placed(m, w, SectionAt(objects, w));
  }

  lemma MorePlaces(objects: seq<Object>, done: set<Ref>, m: Merge, r: Ref)
    requires MergeOk(objects, done, m) && ObjectsOk(objects) && IsSection(objects, r) && r !in done
    requires SectionAt(objects, r).loadable && SectionAt(objects, r).name in m.index
    requires m.outs[m.index[SectionAt(objects, r).name]].nobits == SectionAt(objects, r).nobits
    ensures PlacesOk(objects, MergeOne(m, r, SectionAt(objects, r)))
  {
    hide Appended, ApartOk;
    var s := SectionAt(objects, r);
    var i := m.index[s.name];
    var m' := MergeOne(m, r, s);
    assert SectionOk(s) && OutOk(m, i);
    AppendedHas(m.outs[i], s);
    AppendedName(m.outs[i], s);
    forall q | q in m'.place
      ensures IsSection(objects, q) && Placed(m', q, SectionAt(objects, q))
    {
      if q != r { KeptPlace(m, i, s, r, q, SectionAt(objects, q)); }
    }
  }

  lemma MoreApart(objects: seq<Object>, done: set<Ref>, m: Merge, r: Ref)
    requires MergeOk(objects, done, m) && IsSection(objects, r) && r !in done
    requires SectionAt(objects, r).loadable && SectionAt(objects, r).name in m.index
    ensures ApartOk(objects, MergeOne(m, r, SectionAt(objects, r)))
  {
    hide Appended;
    var m' := MergeOne(m, r, SectionAt(objects, r));
    forall q, q' | q in m'.place && q' in m'.place && q != q'
      ensures IsSection(objects, q) && IsSection(objects, q') && Apart(m', q, SectionAt(objects, q), q', SectionAt(objects, q'))
    {
      if q != r { assert Placed(m, q, SectionAt(objects, q)); }
      if q' != r { assert Placed(m, q', SectionAt(objects, q')); }
      if q != r && q' != r { assert Apart(m, q, SectionAt(objects, q), q', SectionAt(objects, q')); }
    }
  }

  lemma MoreOuts(objects: seq<Object>, done: set<Ref>, m: Merge, r: Ref)
    requires MergeOk(objects, done, m) && ObjectsOk(objects) && IsSection(objects, r) && r !in done
    requires SectionAt(objects, r).loadable && SectionAt(objects, r).name in m.index
    requires m.outs[m.index[SectionAt(objects, r).name]].nobits == SectionAt(objects, r).nobits
    ensures OutsOk(MergeOne(m, r, SectionAt(objects, r)))
  {
    hide Appended, Placed, Apart;
    var s := SectionAt(objects, r);
    var m', i := MergeOne(m, r, s), m.index[s.name];
    assert OutOk(m, i) && SectionOk(s);
    AppendedHas(m.outs[i], s);
    forall j | 0 <= j < |m'.outs|
      ensures OutOk(m', j) && exists q :: q in m'.place && m'.place[q].out == j
    {
      assert OutOk(m, j);
      var q :| q in m.place && m.place[q].out == j;
      assert m'.place[q].out == j;
    }
  }

  lemma AppendedName(o: Out, s: Section)
    ensures Appended(o, s).name == o.name && Appended(o, s).size >= o.size + s.size
  {
  }

  lemma KeptPlace(m: Merge, i: nat, s: Section, r: Ref, q: Ref, t: Section)
    requires IndexOk(m) && s.loadable && s.name in m.index && i == m.index[s.name] && OutOk(m, i)
    requires SectionOk(s) && m.outs[i].nobits == s.nobits && q != r && Placed(m, q, t)
    ensures Placed(MergeOne(m, r, s), q, t)
  {
    hide Appended;
    var p := m.place[q];
    AppendedHas(m.outs[i], s);
    AppendedName(m.outs[i], s);
    if p.out == i && !t.nobits {
      AppendedKeeps(m.outs[i], s, p.off, p.off + t.size);
    }
  }

  // ---------------------------------------------------------------------------
  // Global definitions
  // ---------------------------------------------------------------------------

  predicate IsSym(objects: seq<Object>, r: Ref)
  {
    r.0 < |objects| && r.1 < |objects[r.0].symbols|
  }

  function SymAt(objects: seq<Object>, r: Ref): Sym
    requires IsSym(objects, r)
  {
    objects[r.0].symbols[r.1]
  }

  /** A definition that takes part in global linking. */
  predicate Candidate(objects: seq<Object>, r: Ref, name: string)
  {
    IsSym(objects, r) &&
    var s := SymAt(objects, r);
    s.sec.Some? && s.binding != Local && s.linkable && name != "" && s.name == name
  }

  predicate Before(a: Ref, b: Ref)
  {
    a.0 < b.0 || (a.0 == b.0 && a.1 < b.1)
  }

  /**
   * The definition a name resolves to, among those before `limit`: the first
   * strong one, or the first weak one when there is no strong one.
   */
  ghost predicate Winner(objects: seq<Object>, name: string, r: Ref, limit: Ref)
  {
    Candidate(objects, r, name) && Before(r, limit) &&
    forall q :: Candidate(objects, q, name) && Before(q, limit) && q != r ==>
      (SymAt(objects, r).binding == Global && (SymAt(objects, q).binding == Weak || Before(r, q))) ||
      (SymAt(objects, r).binding == Weak && SymAt(objects, q).binding == Weak && Before(r, q))
  }

  ghost predicate GlobalsOk(objects: seq<Object>, globals: map<string, Ref>, limit: Ref)
  {
    (forall n :: n in globals ==> Winner(objects, n, globals[n], limit)) &&
    forall n, r :: Candidate(objects, r, n) && Before(r, limit) ==> n in globals
  }

  function RegisterOne(objects: seq<Object>, globals: map<string, Ref>, r: Ref): map<string, Ref>
    requires IsSym(objects, r) && forall n :: n in globals ==> IsSym(objects, globals[n])
  {
    var s := SymAt(objects, r);
    if !Candidate(objects, r, s.name) then globals
    else if s.name !in globals then globals[s.name := r]
    else if SymAt(objects, globals[s.name]).binding == Weak && s.binding == Global then globals[s.name := r]
    else globals
  }

  lemma RegisterKeeps(objects: seq<Object>, globals: map<string, Ref>, o: nat, i: nat)
    requires IsSym(objects, (o, i)) && GlobalsOk(objects, globals, (o, i))
    ensures (forall n :: n in globals ==> IsSym(objects, globals[n])) &&
            GlobalsOk(objects, RegisterOne(objects, globals, (o, i)), (o, i + 1))
  {
    var r: Ref := (o, i);
    var g' := RegisterOne(objects, globals, r);
    forall q: Ref
      ensures Before(q, (o, i + 1)) <==> Before(q, r) || q == r
    {
      assert q == (q.0, q.1);
    }
    forall n | n in g'
      ensures Winner(objects, n, g'[n], (o, i + 1))
    {
      if n in globals { assert Winner(objects, n, globals[n], r); }
    }
  }

  /** Nothing lies between an object's last symbol and the next object's first. */
  lemma NextObject(objects: seq<Object>, globals: map<string, Ref>, o: nat)
    requires o < |objects| && GlobalsOk(objects, globals, (o, |objects[o].symbols|))
    ensures GlobalsOk(objects, globals, (o + 1, 0))
  {
    forall r: Ref, n | Candidate(objects, r, n)
      ensures Before(r, (o + 1, 0)) <==> Before(r, (o, |objects[o].symbols|))
    {
    }
    forall n | n in globals
      ensures Winner(objects, n, globals[n], (o + 1, 0))
    {
      assert Winner(objects, n, globals[n], (o, |objects[o].symbols|));
    }
  }

  // ---------------------------------------------------------------------------
  // Symbols and relocations of the output
  // ---------------------------------------------------------------------------

  datatype OutSym = OutSym(name: string, sec: Option<nat>, value: nat, binding: Binding)

  datatype OutReloc = OutReloc(out: nat, offset: nat, sym: nat, kind: nat, addend: int)

  const NULL_SYM: OutSym := OutSym("", None, 0, Local)

  /** A symbol moved with its section. */
  function Moved(m: Merge, o: nat, s: Sym): OutSym
  {
    if s.sec.Some? && (o, s.sec.value) in m.place then
      var p := m.place[(o, s.sec.value)];
      OutSym(s.name, Some(p.out), p.off + s.value, s.binding)
    else OutSym(s.name, None, s.value, s.binding)
  }

  /** What a symbol stands for: a byte of an input section, a byte of an output section, or a name. */
  datatype Meaning = InSection(sec: Ref, off: nat) | InOutput(out: nat, byte: nat) | Unresolved(name: string)

  /** The meaning of symbol `r` in the inputs. */
  function Means(objects: seq<Object>, globals: map<string, Ref>, r: Ref): Meaning
    requires IsSym(objects, r) && forall n :: n in globals ==> IsSym(objects, globals[n])
  {
    var s := SymAt(objects, r);
    if s.binding == Local then
      if s.sec.Some? then InSection((r.0, s.sec.value), s.value) else Unresolved(s.name)
    else if s.name in globals then
      var w := globals[s.name];
      var d := SymAt(objects, w);
      if d.sec.Some? then InSection((w.0, d.sec.value), d.value) else Unresolved(s.name)
    else Unresolved(s.name)
  }

  /** The map (object, section, offset) to (output section, offset). */
  function Image(m: Merge, x: Meaning): Meaning
  {
    if x.InSection? && x.sec in m.place then InOutput(m.place[x.sec].out, m.place[x.sec].off + x.off) else x
  }

  function OutMeans(t: OutSym): Meaning
  {
    if t.sec.Some? then InOutput(t.sec.value, t.value) else Unresolved(t.name)
  }

  /** Relocations whose target section is part of the output. */
  predicate Kept(objects: seq<Object>, m: Merge, o: nat, r: Reloc)
  {
    o < |objects| && (o, r.target) in m.place
  }

  /**
   * A relocation the link can carry over: its symbol is a local defined in an
   * output section, or a global that is undefined here or a FUNC or OBJECT
   * definition; chosen definitions lie in output sections.
   */
  ghost predicate Sound(objects: seq<Object>, globals: map<string, Ref>, m: Merge, o: nat, r: Reloc)
  {
    IsSym(objects, (o, r.sym)) && r.sym > 0 &&
    (forall n :: n in globals ==> IsSym(objects, globals[n])) &&
    var s := SymAt(objects, (o, r.sym));
    (s.binding == Local ==> s.sec.Some? && (o, s.sec.value) in m.place) &&
    (s.binding != Local ==> s.name != "" && (s.sec.Some? ==> s.linkable)) &&
    (s.binding != Local && s.name in globals ==>
       var w := globals[s.name];
       var d := SymAt(objects, w);
       d.sec.Some? && (w.0, d.sec.value) in m.place)
  }

  /** The emitted symbol table: known indices hold the moved symbols, undefined names hold name-only entries. */
  ghost predicate TableOk(objects: seq<Object>, m: Merge, symtab: seq<OutSym>, known: map<Ref, nat>, und: map<string, nat>)
  {
    |symtab| > 0 && symtab[0] == NULL_SYM &&
    (forall r :: r in known ==> IsSym(objects, r) && 0 < known[r] < |symtab| && symtab[known[r]] == Moved(m, r.0, SymAt(objects, r))) &&
    forall n :: n in und ==> 0 < und[n] < |symtab| && symtab[und[n]].sec.None? && symtab[und[n]].name == n
  }

  /** A global reference no input defines. */
  predicate Undefined(objects: seq<Object>, globals: map<string, Ref>, r: Ref)
  {
    IsSym(objects, r) && r.1 > 0 &&
    var s := SymAt(objects, r);
    s.binding != Local && s.sec.None? && s.name !in globals
  }

  /** Everything a sound relocation can ask for is in the table. */
  ghost predicate TableFull(objects: seq<Object>, globals: map<string, Ref>, known: map<Ref, nat>, und: map<string, nat>)
  {
    (forall r :: IsSym(objects, r) && r.1 > 0 && SymAt(objects, r).binding == Local ==> r in known) &&
    (forall n :: n in globals ==> globals[n] in known) &&
    (forall r :: Undefined(objects, globals, r) ==> SymAt(objects, r).name in und) &&
    forall r :: r in known && IsSym(objects, r) && SymAt(objects, r).binding != Local ==>
      SymAt(objects, r).name in globals && globals[SymAt(objects, r).name] == r
  }

  /** The output symbol index a relocation is given. */
  function Reindexed(objects: seq<Object>, globals: map<string, Ref>, known: map<Ref, nat>, und: map<string, nat>,
                     o: nat, sym: nat): nat
    requires o < |objects|
  {
    if (o, sym) in known then known[(o, sym)]
    else if sym < |objects[o].symbols| then
      var n := objects[o].symbols[sym].name;
      if n in globals && globals[n] in known && known[globals[n]] != 0 then known[globals[n]]
      else if n in und then und[n]
      else 0
    else 0
  }

  /**
   * Relocating commutes with merging: the output relocation's site is the
   * image of the input's, and its symbol means the image of what the input
   * symbol means, the strong-over-weak choice included.
   */
  lemma RelocationCommutes(objects: seq<Object>, globals: map<string, Ref>, m: Merge, symtab: seq<OutSym>,
                           known: map<Ref, nat>, und: map<string, nat>, o: nat, r: Reloc)
    requires o < |objects| && Sound(objects, globals, m, o, r) && GlobalsOk(objects, globals, (|objects|, 0))
    requires TableOk(objects, m, symtab, known, und) && TableFull(objects, globals, known, und)
    ensures var i := Reindexed(objects, globals, known, und, o, r.sym);
            i < |symtab| && OutMeans(symtab[i]) == Image(m, Means(objects, globals, (o, r.sym)))
  {
    hide Winner;
    var ref: Ref := (o, r.sym);
    var s := SymAt(objects, ref);
    if s.binding != Local {
      if ref in known {
        assert globals[s.name] == ref;
      } else if s.name in globals {
        assert globals[s.name] in known;
      } else {
        assert s.sec.Some? ==> Candidate(objects, ref, s.name) && Before(ref, (|objects|, 0));
      }
      if s.name in globals {
        WinnerName(objects, s.name, globals[s.name], (|objects|, 0));
      }
    }
  }

  lemma WinnerName(objects: seq<Object>, name: string, r: Ref, limit: Ref)
    requires Winner(objects, name, r, limit)
    ensures IsSym(objects, r) && SymAt(objects, r).name == name && SymAt(objects, r).sec.Some?
  {
  }

  /** Locals, chosen globals and undefined names: nothing a relocation needs is missing. */
  lemma FullTable(objects: seq<Object>, globals: map<string, Ref>, known: map<Ref, nat>, und: map<string, nat>)
    requires GlobalsOk(objects, globals, (|objects|, 0))
    requires forall r: Ref :: r in known <==>
      (IsSym(objects, r) && r.1 > 0 && SymAt(objects, r).binding == Local) || (exists n :: n in globals && globals[n] == r)
    requires forall r: Ref :: Undefined(objects, globals, r) ==> SymAt(objects, r).name in und
    ensures TableFull(objects, globals, known, und)
  {
    hide Winner, Undefined;
    forall r: Ref | r in known && IsSym(objects, r) && SymAt(objects, r).binding != Local
      ensures SymAt(objects, r).name in globals && globals[SymAt(objects, r).name] == r
    {
      var n :| n in globals && globals[n] == r;
      WinnerName(objects, n, r, (|objects|, 0));
    }
  }

  lemma GlobalIsSym(objects: seq<Object>, globals: map<string, Ref>, n: string)
    requires GlobalsOk(objects, globals, (|objects|, 0)) && n in globals
    ensures IsSym(objects, globals[n])
  {
    hide Winner;
    WinnerName(objects, n, globals[n], (|objects|, 0));
  }

  /** Distinct bytes of placed input sections have distinct images. */
  lemma ImageInjective(objects: seq<Object>, done: set<Ref>, m: Merge, r: Ref, i: nat, r': Ref, i': nat)
    requires MergeOk(objects, done, m) && r in m.place && r' in m.place
    requires i < SectionAt(objects, r).size && i' < SectionAt(objects, r').size
    requires Image(m, InSection(r, i)) == Image(m, InSection(r', i'))
    ensures r == r' && i == i'
  {
    assert r != r' ==> Apart(m, r, SectionAt(objects, r), r', SectionAt(objects, r'));
  }

  /** The image of a byte holds that byte. */
  lemma ImageKeepsBytes(objects: seq<Object>, done: set<Ref>, m: Merge, r: Ref, i: nat)
    requires MergeOk(objects, done, m) && r in m.place && ObjectsOk(objects)
    requires !SectionAt(objects, r).nobits && i < SectionAt(objects, r).size
    ensures var x := Image(m, InSection(r, i));
            x.out < |m.outs| && x.byte < |m.outs[x.out].data| && i < |SectionAt(objects, r).data| &&
            m.outs[x.out].data[x.byte] == SectionAt(objects, r).data[i]
  {
    var s, p := SectionAt(objects, r), m.place[r];
    assert Placed(m, r, s) && SectionOk(s);
    assert m.outs[p.out].data[p.off..p.off + s.size][i] == m.outs[p.out].data[p.off + i];
  }

  // ---------------------------------------------------------------------------
  // The linker object
  // ---------------------------------------------------------------------------

  /** All sections (or symbols) before `limit`, the null ones at index 0 left out. */
  ghost function RefsBefore(objects: seq<Object>, limit: Ref): set<Ref>
    requires limit.0 <= |objects|
  {
    set o, i | 0 <= o < |objects| && 1 <= i < |objects[o].sections| && Before((o, i), limit) :: (o, i)
  }

  lemma RefsStart(objects: seq<Object>)
    ensures MergeOk(objects, RefsBefore(objects, (0, 1)), NO_MERGE)
  {
    assert RefsBefore(objects, (0, 1)) == {};
  }

  lemma RefsStep(objects: seq<Object>, o: nat, i: nat)
    requires o < |objects| && 1 <= i < |objects[o].sections|
    ensures (o, i) !in RefsBefore(objects, (o, i))
    ensures RefsBefore(objects, (o, i + 1)) == RefsBefore(objects, (o, i)) + {(o, i)}
  {
  }

  lemma RefsNext(objects: seq<Object>, o: nat, n: nat)
    requires o < |objects| && n == (if |objects[o].sections| > 1 then |objects[o].sections| else 1)
    ensures RefsBefore(objects, (o + 1, 1)) == RefsBefore(objects, (o, n))
  {
  }

  /** One past the last section of an object; at least 1, the first real section. */
  function SectionLimit(objects: seq<Object>, o: nat): nat
    requires o < |objects|
  {
    if |objects[o].sections| > 1 then |objects[o].sections| else 1
  }

  predicate MergeAtOk(objects: seq<Object>, o: nat, i: nat)
  {
    o <= |objects| && 1 <= i && (i == 1 || (o < |objects| && i <= |objects[o].sections|))
  }

  lemma MergeKeepsIndex(m: Merge, r: Ref, s: Section)
    requires IndexOk(m)
    ensures IndexOk(MergeOne(m, r, s))
  {
    hide Appended;
    if s.loadable && s.name in m.index {
      AppendedName(m.outs[m.index[s.name]], s);
    }
  }

  /** The sections of the objects before `(o, i)`, merged in order, whatever their kinds. */
  function MergeTo(objects: seq<Object>, o: nat, i: nat): (m: Merge)
    requires MergeAtOk(objects, o, i)
    ensures IndexOk(m)
    decreases o, i
  {
    if i > 1 then
      var m := MergeTo(objects, o, i - 1);
      MergeKeepsIndex(m, (o, i - 1), SectionAt(objects, (o, i - 1)));
      MergeOne(m, (o, i - 1), SectionAt(objects, (o, i - 1)))
    else if o > 0 then MergeTo(objects, o - 1, SectionLimit(objects, o - 1))
    else NO_MERGE
  }

  lemma MergeToNext(objects: seq<Object>, o: nat, i: nat)
    requires o < |objects| && 1 <= i
    ensures i < |objects[o].sections| ==>
      MergeTo(objects, o, i + 1) == MergeOne(MergeTo(objects, o, i), (o, i), SectionAt(objects, (o, i)))
    ensures i == SectionLimit(objects, o) ==> MergeTo(objects, o + 1, 1) == MergeTo(objects, o, i)
    ensures MergeTo(objects, 0, 1) == NO_MERGE
  {
    hide MergeOne, IndexOk;
  }

  lemma MergeStarts(objects: seq<Object>)
    ensures MergeTo(objects, 0, 1) == NO_MERGE
  {
  }

  /** When sections of one name agree on NOBITS, everything ends up placed, aligned, apart and with its bytes. */
  lemma {:induction false} MergedOk(objects: seq<Object>, o: nat, i: nat)
    requires MergeAtOk(objects, o, i) && ObjectsOk(objects) && Agreeing(objects)
    ensures MergeOk(objects, RefsBefore(objects, (o, i)), MergeTo(objects, o, i))
    decreases o, i
  {
    hide MergeOk, ObjectsOk, Agreeing, RefsBefore, MergeTo, MergeOne;
    if i > 1 {
      MergedOk(objects, o, i - 1);
      MergeToNext(objects, o, i - 1);
      RefsStep(objects, o, i - 1);
      MergeOneOk(objects, RefsBefore(objects, (o, i - 1)), MergeTo(objects, o, i - 1), (o, i - 1));
    } else if o > 0 {
      var n := SectionLimit(objects, o - 1);
      MergedOk(objects, o - 1, n);
      MergeToNext(objects, o - 1, n);
      RefsNext(objects, o - 1, n);
    } else {
      MergeStarts(objects);
      RefsStart(objects);
    }
  }

  lemma MergeOneOk(objects: seq<Object>, done: set<Ref>, m: Merge, r: Ref)
    requires MergeOk(objects, done, m) && ObjectsOk(objects) && Agreeing(objects) && IsSection(objects, r) && r !in done
    ensures IndexOk(m) && MergeOk(objects, done + {r}, MergeOne(m, r, SectionAt(objects, r)))
  {
    hide PlacesOk, ApartOk, OutsOk, Agreeing, ObjectsOk;
    var s := SectionAt(objects, r);
    if s.loadable {
      if s.name !in m.index {
        NewSection(objects, done, m, r);
      } else {
        MoreOfSection(objects, done, m, r);
      }
    }
  }

  class Linker {
    const objects: seq<Object>
    var globals: map<string, Ref>
    var merge: Merge
    var symtab: seq<OutSym>
    var known: map<Ref, nat>
    var und: map<string, nat>
    var rels: seq<OutReloc>

    constructor (inputs: seq<Object>)
      ensures objects == inputs && globals == map[] && merge == NO_MERGE
    {
      objects := inputs;
      globals := map[];
      merge := NO_MERGE;
      symtab, known, und, rels := [], map[], map[], [];
    }

    /** `register_globals` for every object. */
    method RegisterGlobals()
      requires globals == map[]
      modifies this`globals
      ensures GlobalsOk(objects, globals, (|objects|, 0))
    {
      for o := 0 to |objects|
        invariant GlobalsOk(objects, globals, (o, 0))
      {
        for i := 0 to |objects[o].symbols|
          invariant GlobalsOk(objects, globals, (o, i))
        {
          RegisterKeeps(objects, globals, o, i);
          var s := objects[o].symbols[i];
          if s.sec.Some? && s.binding != Local && s.linkable && s.name != "" {
            if s.name !in globals {
              globals := globals[s.name := (o, i)];
            } else if SymAt(objects, globals[s.name]).binding == Weak && s.binding == Global {
              globals := globals[s.name := (o, i)];
            }
          }
        }
        NextObject(objects, globals, o);
      }
    }

    /** `merge_rel_sections`. */
    method MergeSections()
      requires merge == NO_MERGE
      modifies this`merge
      ensures merge == MergeTo(objects, |objects|, 1)
    {
      hide MergeTo, MergeOne;
      MergeStarts(objects);
      for o := 0 to |objects|
        invariant merge == MergeTo(objects, o, 1)
      {
        var n := |objects[o].sections|;
        var i := 1;
        while i < n
          invariant 1 <= i && (i <= n || i == 1)
          invariant merge == MergeTo(objects, o, i)
        {
          MergeToNext(objects, o, i);
          MergeSection((o, i));
          i := i + 1;
        }
        MergeToNext(objects, o, i);
      }
    }

    /** One contribution: a new output section, or padding and bytes behind an existing one. */
    method MergeSection(r: Ref)
      requires IsSection(objects, r) && IndexOk(merge)
      modifies this`merge
      ensures merge == MergeOne(old(merge), r, SectionAt(objects, r))
    {
      var s := SectionAt(objects, r);
      if !s.loadable { return; }
      var outs, index, place := merge.outs, merge.index, merge.place;
      var align := if s.align == 0 then 1 else s.align;
      if s.name !in index {
        place := place[r := Place(|outs|, 0)];
        index := index[s.name := |outs|];
        outs := outs + [Out(s.name, s.nobits, align, s.data, s.size)];
      } else {
        var i := index[s.name];
        var o := outs[i];
        var pad := Padding(o.size, align);
        place := place[r := Place(i, o.size + pad)];
        var data := if o.nobits then o.data else o.data + Zeros(pad);
        outs := outs[i := Out(o.name, o.nobits, if align > o.align then align else o.align, data + s.data, o.size + pad + s.size)];
      }
      merge := Merge(outs, index, place);
    }

    /** Appends the moved symbol `r` to the table. */
    method EmitSym(r: Ref)
      requires IsSym(objects, r) && TableOk(objects, merge, symtab, known, und)
      modifies this`symtab, this`known
      ensures TableOk(objects, merge, symtab, known, und)
      ensures known == old(known)[r := |old(symtab)|]
    {
      known := known[r := |symtab|];
      symtab := symtab + [Moved(merge, r.0, SymAt(objects, r))];
    }

    /** The local symbols of all objects. */
    method EmitLocals()
      requires TableOk(objects, merge, symtab, known, und) && known == map[]
      modifies this`symtab, this`known
      ensures TableOk(objects, merge, symtab, known, und)
      ensures forall r: Ref :: r in known <==> IsSym(objects, r) && r.1 > 0 && SymAt(objects, r).binding == Local
    {
      hide TableOk;
      for o := 0 to |objects|
        invariant TableOk(objects, merge, symtab, known, und)
        invariant forall r: Ref :: r in known <==> IsSym(objects, r) && r.1 > 0 && r.0 < o && SymAt(objects, r).binding == Local
      {
        var n := |objects[o].symbols|;
        var i := 1;
        while i < n
          invariant 1 <= i && (i <= n || i == 1)
          invariant TableOk(objects, merge, symtab, known, und)
          invariant forall r: Ref :: r in known <==>
            IsSym(objects, r) && r.1 > 0 && (r.0 < o || (r.0 == o && r.1 < i)) && SymAt(objects, r).binding == Local
        {
          if objects[o].symbols[i].binding == Local {
            EmitSym((o, i));
          }
          i := i + 1;
        }
      }
    }

    /** The chosen definitions, in whatever order the name table yields them. */
    method EmitGlobals(order: seq<string>)
      requires TableOk(objects, merge, symtab, known, und) && GlobalsOk(objects, globals, (|objects|, 0))
      requires forall n :: n in order <==> n in globals
      requires forall r: Ref :: r in known <==> IsSym(objects, r) && r.1 > 0 && SymAt(objects, r).binding == Local
      modifies this`symtab, this`known
      ensures TableOk(objects, merge, symtab, known, und)
      ensures forall r: Ref :: r in known <==>
        (IsSym(objects, r) && r.1 > 0 && SymAt(objects, r).binding == Local) || (exists n :: n in globals && globals[n] == r)
    {
      hide GlobalsOk, TableOk;
      ghost var locals := known;
      for k := 0 to |order|
        invariant TableOk(objects, merge, symtab, known, und)
        invariant forall r: Ref :: r in known <==> r in locals || (exists j :: 0 <= j < k && globals[order[j]] == r)
      {
        assert order[k] in globals;
        GlobalIsSym(objects, globals, order[k]);
        EmitSym(globals[order[k]]);
      }
      forall r | r in known
        ensures r in locals || exists n :: n in globals && globals[n] == r
      {
        if r !in locals {
          var j :| 0 <= j < |order| && globals[order[j]] == r;
          assert order[j] in globals;
        }
      }
      forall n | n in globals
        ensures globals[n] in known
      {
        var j :| 0 <= j < |order| && order[j] == n;
        assert globals[order[j]] == globals[n];
      }
    }

    /** One name-only entry for each undefined global. */
    method EmitUndefined()
      requires TableOk(objects, merge, symtab, known, und) && und == map[]
      modifies this`symtab, this`und
      ensures TableOk(objects, merge, symtab, known, und)
      ensures forall r: Ref :: Undefined(objects, globals, r) ==> SymAt(objects, r).name in und
    {
      hide TableOk;
      for o := 0 to |objects|
        invariant TableOk(objects, merge, symtab, known, und)
        invariant forall r: Ref :: Undefined(objects, globals, r) && r.0 < o ==> SymAt(objects, r).name in und
      {
        var n := |objects[o].symbols|;
        var i := 1;
        while i < n
          invariant 1 <= i && (i <= n || i == 1)
          invariant TableOk(objects, merge, symtab, known, und)
          invariant forall r: Ref :: Undefined(objects, globals, r) && (r.0 < o || (r.0 == o && r.1 < i)) ==> SymAt(objects, r).name in und
        {
          var s := objects[o].symbols[i];
          if s.sec.None? && s.binding != Local && s.name !in globals && s.name !in und {
            EmitName(s);
          }
          i := i + 1;
        }
      }
    }

    /** A name-only entry. */
    method EmitName(s: Sym)
      requires TableOk(objects, merge, symtab, known, und)
      modifies this`symtab, this`und
      ensures TableOk(objects, merge, symtab, known, und)
      ensures und == old(und)[s.name := |old(symtab)|]
    {
      und := und[s.name := |symtab|];
      symtab := symtab + [OutSym(s.name, None, 0, s.binding)];
    }

    /** `build_rel_symtab`. */
    method BuildSymtab(order: seq<string>)
      requires GlobalsOk(objects, globals, (|objects|, 0)) && forall n :: n in order <==> n in globals
      modifies this`symtab, this`known, this`und
      ensures TableOk(objects, merge, symtab, known, und) && TableFull(objects, globals, known, und)
    {
      symtab, known, und := [NULL_SYM], map[], map[];
      assert TableOk(objects, merge, symtab, known, und);
      hide TableOk, GlobalsOk, TableFull, Undefined;
      EmitLocals();
      EmitGlobals(order);
      EmitUndefined();
      FullTable(objects, globals, known, und);
    }

    /** `build_rel_relocations`: relocations into the output, in input order. */
    method BuildRelocations()
      requires GlobalsOk(objects, globals, (|objects|, 0))
      requires TableOk(objects, merge, symtab, known, und) && TableFull(objects, globals, known, und)
      modifies this`rels
      ensures rels == AllRelocs(objects, globals, merge, known, und, |objects|)
    {
      hide GlobalsOk, TableOk, TableFull, ObjectRelocs, AllRelocs, Reindexed;
      rels := [];
      NoRelocs(objects, globals, merge, known, und);
      for o := 0 to |objects|
        invariant rels == AllRelocs(objects, globals, merge, known, und, o)
      {
        ghost var before := rels;
        var rs := objects[o].relocs;
        NoObjectRelocs(objects, globals, merge, known, und, o);
        for k := 0 to |rs|
          invariant rels == before + ObjectRelocs(objects, globals, merge, known, und, o, k)
        {
          var r := rs[k];
          ObjectRelocsNext(objects, globals, merge, known, und, o, k);
          if (o, r.target) in merge.place {
            var p := merge.place[(o, r.target)];
            var sym := FindSym(o, r.sym);
            rels := rels + [OutReloc(p.out, p.off + r.offset, sym, r.kind, r.addend)];
          }
        }
        AllRelocsNext(objects, globals, merge, known, und, o);
      }
    }

    /** `run_relocatable` behind the loading: the four passes in order, the name table walked in any order. */
    method Link()
      requires globals == map[] && merge == NO_MERGE
      modifies this
      ensures GlobalsOk(objects, globals, (|objects|, 0)) && merge == MergeTo(objects, |objects|, 1)
      ensures TableOk(objects, merge, symtab, known, und) && TableFull(objects, globals, known, und)
      ensures rels == AllRelocs(objects, globals, merge, known, und, |objects|)
    {
      hide GlobalsOk, TableOk, TableFull, MergeTo, AllRelocs;
      RegisterGlobals();
      MergeSections();
      var names := globals.Keys;
      var order: seq<string> := [];
      while names != {}
        invariant names <= globals.Keys && forall n :: n in order <==> n in globals && n !in names
        decreases |names|
      {
        var n :| n in names;
        order := order + [n];
        names := names - {n};
      }
      BuildSymtab(order);
      BuildRelocations();
    }

    /** The output index of symbol `sym` of object `o`; 0 when nothing defines or names it. */
    method FindSym(o: nat, sym: nat) returns (r: nat)
      requires o < |objects|
      ensures r == Reindexed(objects, globals, known, und, o, sym)
    {
      r := 0;
      if (o, sym) in known {
        r := known[(o, sym)];
      } else if sym < |objects[o].symbols| {
        var n := objects[o].symbols[sym].name;
        if n in globals && globals[n] in known { r := known[globals[n]]; }
        if r == 0 && n in und { r := und[n]; }
      }
    }
  }

  lemma NoRelocs(objects: seq<Object>, globals: map<string, Ref>, m: Merge, known: map<Ref, nat>, und: map<string, nat>)
    ensures AllRelocs(objects, globals, m, known, und, 0) == []
  {
  }

  lemma AllRelocsNext(objects: seq<Object>, globals: map<string, Ref>, m: Merge, known: map<Ref, nat>, und: map<string, nat>,
                      o: nat)
    requires o < |objects|
    ensures AllRelocs(objects, globals, m, known, und, o + 1) ==
            AllRelocs(objects, globals, m, known, und, o) +
            ObjectRelocs(objects, globals, m, known, und, o, |objects[o].relocs|)
  {
    hide ObjectRelocs;
  }

  lemma NoObjectRelocs(objects: seq<Object>, globals: map<string, Ref>, m: Merge, known: map<Ref, nat>, und: map<string, nat>,
                       o: nat)
    requires o < |objects|
    ensures ObjectRelocs(objects, globals, m, known, und, o, 0) == []
  {
  }

  lemma ObjectRelocsNext(objects: seq<Object>, globals: map<string, Ref>, m: Merge, known: map<Ref, nat>, und: map<string, nat>,
                         o: nat, k: nat)
    requires o < |objects| && k < |objects[o].relocs|
    ensures var r := objects[o].relocs[k];
            ObjectRelocs(objects, globals, m, known, und, o, k + 1) ==
            ObjectRelocs(objects, globals, m, known, und, o, k) +
            if (o, r.target) in m.place then
              [OutReloc(m.place[(o, r.target)].out, m.place[(o, r.target)].off + r.offset,
                        Reindexed(objects, globals, known, und, o, r.sym), r.kind, r.addend)]
            else []
  {
    hide Reindexed;
  }

  /** The relocations of object `o`, up to the `k`-th. */
  function ObjectRelocs(objects: seq<Object>, globals: map<string, Ref>, m: Merge, known: map<Ref, nat>, und: map<string, nat>,
                        o: nat, k: nat): seq<OutReloc>
    requires o < |objects| && k <= |objects[o].relocs|
  {
    if k == 0 then []
    else
      var r := objects[o].relocs[k - 1];
      ObjectRelocs(objects, globals, m, known, und, o, k - 1) +
      if (o, r.target) in m.place then
        [OutReloc(m.place[(o, r.target)].out, m.place[(o, r.target)].off + r.offset,
                  Reindexed(objects, globals, known, und, o, r.sym), r.kind, r.addend)]
      else []
  }

  function AllRelocs(objects: seq<Object>, globals: map<string, Ref>, m: Merge, known: map<Ref, nat>, und: map<string, nat>,
                     o: nat): seq<OutReloc>
    requires o <= |objects|
  {
    if o == 0 then []
    else AllRelocs(objects, globals, m, known, und, o - 1) +
         ObjectRelocs(objects, globals, m, known, und, o - 1, |objects[o - 1].relocs|)
  }

  /** `x` is relocation `k` of object `o`, carried over: same kind and addend, site and symbol mapped. */
  ghost predicate Carried(objects: seq<Object>, globals: map<string, Ref>, m: Merge, symtab: seq<OutSym>, x: OutReloc, o: nat, k: nat)
    requires forall n :: n in globals ==> IsSym(objects, globals[n])
  {
    o < |objects| && k < |objects[o].relocs| &&
    var r := objects[o].relocs[k];
    Kept(objects, m, o, r) && x.kind == r.kind && x.addend == r.addend && IsSym(objects, (o, r.sym)) && x.sym < |symtab| &&
    InOutput(x.out, x.offset) == Image(m, InSection((o, r.target), r.offset)) &&
    OutMeans(symtab[x.sym]) == Image(m, Means(objects, globals, (o, r.sym)))
  }

  /** The relocations of object `o` below `n` whose section is part of the output, in order. */
  function ObjectKept(objects: seq<Object>, m: Merge, o: nat, n: nat): seq<Ref>
    requires o < |objects| && n <= |objects[o].relocs|
  {
    if n == 0 then []
    else ObjectKept(objects, m, o, n - 1) + if Kept(objects, m, o, objects[o].relocs[n - 1]) then [(o, n - 1)] else []
  }

  /** ... and those of the first `n` objects. */
  function AllKept(objects: seq<Object>, m: Merge, n: nat): seq<Ref>
    requires n <= |objects|
  {
    if n == 0 then [] else AllKept(objects, m, n - 1) + ObjectKept(objects, m, n - 1, |objects[n - 1].relocs|)
  }

  predicate Ascending(rs: seq<Ref>)
  {
    forall i, j :: 0 <= i < j < |rs| ==> Before(rs[i], rs[j])
  }

  lemma {:induction false} ObjectKeptOnce(objects: seq<Object>, m: Merge, o: nat, n: nat)
    requires o < |objects| && n <= |objects[o].relocs|
    ensures var rs := ObjectKept(objects, m, o, n);
            Ascending(rs) &&
            forall r: Ref :: r in rs <==> r.0 == o && r.1 < n && Kept(objects, m, o, objects[o].relocs[r.1])
  {
    hide Kept;
    if n > 0 {
      ObjectKeptOnce(objects, m, o, n - 1);
      var front, rs := ObjectKept(objects, m, o, n - 1), ObjectKept(objects, m, o, n);
      forall i, j | 0 <= i < j < |rs|
        ensures Before(rs[i], rs[j])
      {
        if j == |front| { assert front[i] in front; }
      }
    }
  }

  /** Each kept relocation is in the list once, in input order, and no other is. */
  lemma {:induction false} KeptOnce(objects: seq<Object>, m: Merge, n: nat)
    requires n <= |objects|
    ensures var rs := AllKept(objects, m, n);
            Ascending(rs) &&
            forall r: Ref :: r in rs <==> r.0 < n && r.1 < |objects[r.0].relocs| && Kept(objects, m, r.0, objects[r.0].relocs[r.1])
  {
    hide Kept, ObjectKept;
    if n > 0 {
      KeptOnce(objects, m, n - 1);
      var k := |objects[n - 1].relocs|;
      ObjectKeptOnce(objects, m, n - 1, k);
      var front, back := AllKept(objects, m, n - 1), ObjectKept(objects, m, n - 1, k);
      var rs := AllKept(objects, m, n);
      forall i, j | 0 <= i < j < |rs|
        ensures Before(rs[i], rs[j])
      {
        if i < |front| <= j {
          assert front[i] in front && back[j - |front|] in back;
        }
      }
    }
  }

  lemma {:induction false} ObjectOrigin(objects: seq<Object>, globals: map<string, Ref>, m: Merge, symtab: seq<OutSym>,
                                        known: map<Ref, nat>, und: map<string, nat>, o: nat, n: nat, j: nat)
    requires o < |objects| && n <= |objects[o].relocs| && GlobalsOk(objects, globals, (|objects|, 0))
    requires forall q :: q in globals ==> IsSym(objects, globals[q])
    requires TableOk(objects, m, symtab, known, und) && TableFull(objects, globals, known, und)
    requires forall i :: 0 <= i < n && Kept(objects, m, o, objects[o].relocs[i]) ==> Sound(objects, globals, m, o, objects[o].relocs[i])
    ensures |ObjectRelocs(objects, globals, m, known, und, o, n)| == |ObjectKept(objects, m, o, n)|
    ensures j < |ObjectKept(objects, m, o, n)| ==>
      var r := ObjectKept(objects, m, o, n)[j];
      Carried(objects, globals, m, symtab, ObjectRelocs(objects, globals, m, known, und, o, n)[j], r.0, r.1)
    decreases n
  {
    hide Winner, TableFull, TableOk, Reindexed;
    if n > 0 {
      ObjectOrigin(objects, globals, m, symtab, known, und, o, n - 1, j);
      if Kept(objects, m, o, objects[o].relocs[n - 1]) {
        RelocationCommutes(objects, globals, m, symtab, known, und, o, objects[o].relocs[n - 1]);
      }
    }
  }

  /**
   * The output relocations are the kept input relocations, one for one and in
   * order, each carried over. With `KeptOnce`: none is lost, doubled or added.
   */
  lemma {:induction false} OutputOrigin(objects: seq<Object>, globals: map<string, Ref>, m: Merge, symtab: seq<OutSym>,
                                        known: map<Ref, nat>, und: map<string, nat>, n: nat, j: nat)
    requires n <= |objects| && GlobalsOk(objects, globals, (|objects|, 0))
    requires forall q :: q in globals ==> IsSym(objects, globals[q])
    requires TableOk(objects, m, symtab, known, und) && TableFull(objects, globals, known, und)
    requires forall i, q :: 0 <= i < n && 0 <= q < |objects[i].relocs| && Kept(objects, m, i, objects[i].relocs[q]) ==>
               Sound(objects, globals, m, i, objects[i].relocs[q])
    ensures |AllRelocs(objects, globals, m, known, und, n)| == |AllKept(objects, m, n)|
    ensures j < |AllKept(objects, m, n)| ==>
      var r := AllKept(objects, m, n)[j];
      Carried(objects, globals, m, symtab, AllRelocs(objects, globals, m, known, und, n)[j], r.0, r.1)
    decreases n
  {
    hide Winner, TableFull, TableOk, Carried, ObjectKept, ObjectRelocs;
    if n > 0 {
      var front := AllKept(objects, m, n - 1);
      OutputOrigin(objects, globals, m, symtab, known, und, n - 1, j);
      ObjectOrigin(objects, globals, m, symtab, known, und, n - 1, |objects[n - 1].relocs|, if j < |front| then 0 else j - |front|);
    }
  }

  /**
   * A relocation against a defined global reaches a definition exactly when
   * some object defines the name as FUNC or OBJECT. Otherwise the output gives
   * it the null symbol, or the undefined entry another object's reference made.
   */
  lemma DefinedGlobalResolvesIff(objects: seq<Object>, globals: map<string, Ref>, m: Merge, symtab: seq<OutSym>,
                                 known: map<Ref, nat>, und: map<string, nat>, o: nat, sym: nat)
    requires GlobalsOk(objects, globals, (|objects|, 0)) && TableOk(objects, m, symtab, known, und)
    requires TableFull(objects, globals, known, und) && IsSym(objects, (o, sym))
    requires forall n :: n in globals ==>
      IsSym(objects, globals[n]) && var d := SymAt(objects, globals[n]); d.sec.Some? ==> (globals[n].0, d.sec.value) in m.place
    requires var s := SymAt(objects, (o, sym)); s.binding != Local && s.sec.Some? && s.name != ""
    ensures var i, name := Reindexed(objects, globals, known, und, o, sym), SymAt(objects, (o, sym)).name;
            i < |symtab| && (symtab[i].sec.Some? <==> exists q :: Candidate(objects, q, name))
  {
    hide Winner;
    var ref: Ref := (o, sym);
    var limit: Ref := (|objects|, 0);
    var s := SymAt(objects, ref);
    assert forall q: Ref :: Candidate(objects, q, s.name) ==> Before(q, limit);
    if s.name in globals {
      WinnerName(objects, s.name, globals[s.name], (|objects|, 0));
      WinnerCandidate(objects, s.name, globals[s.name], (|objects|, 0));
      assert globals[s.name] in known;
    } else {
      assert ref !in known;
    }
  }

  lemma WinnerCandidate(objects: seq<Object>, name: string, r: Ref, limit: Ref)
    requires Winner(objects, name, r, limit)
    ensures Candidate(objects, r, name)
  {
  }

  /**
   * Without the agreement on NOBITS bytes do go astray: after one byte of
   * data and one byte of NOBITS, a second byte of data of the same name is
   * recorded at offset 2 but stored at offset 1.
   */
  lemma MixedKindsMisplace(name: string, a: Byte, b: Byte)
    ensures var m1 := MergeOne(NO_MERGE, (0, 1), Section(name, true, false, 1, [a], 1));
            IndexOk(m1) &&
            var m2 := MergeOne(m1, (1, 1), Section(name, true, true, 1, [], 1));
            IndexOk(m2) &&
            var m3 := MergeOne(m2, (2, 1), Section(name, true, false, 1, [b], 1));
            m3.place[(2, 1)] == Place(0, 2) && m3.outs[0].data == [a, b]
  {
    assert Zeros(0) == [];
  }
}
