/**
 * Foreign calls (`ffi/ffi.c`) and closures (`ffi/closures.c`): how a call
 * packs its arguments into five registers and an arena, and how a closure
 * unpacks them again.
 */
module Ffi {
  import opened Leb128
  import opened ByteVectors
  import W = Words

  datatype Kind = Void | Signed | Scalar | Struct | Complex

  /** `Signed` are the narrow signed integer types the caller must extend. */
  datatype Type = Type(kind: Kind, size: nat)

  const MAX_ARGS: nat := 1024
  const M32: nat := 0x1_0000_0000

  type Word = x: int | 0 <= x < W.M64

  predicate TypeValid(t: Type)
  {
    t.kind != Complex && (t.kind != Struct ==> t.size <= 8)
  }

  /** `type_valid`. */
  method ValidType(t: Type) returns (ok: bool)
    ensures ok == TypeValid(t)
  {
    if t.kind == Complex { return false; }
    if t.kind != Struct && t.size > 8 { return false; }
    return true;
  }

  predicate Big(t: Type)
  {
    t.kind == Struct && t.size > 8
  }

  function SlotSize(t: Type): nat
  {
    if Big(t) then 8 else t.size
  }

  function VaSize(t: Type): nat
  {
    if t.kind == Struct then 8 else t.size
  }

  function Round8(n: nat): (r: nat)
    ensures n <= r < n + 8 && r % 8 == 0
  {
    (n + 7) / 8 * 8
  }

  // ---------------------------------------------------------------------------
  // Call interface
  // ---------------------------------------------------------------------------

  /** `nfixed` is 0 for a call without variadic part; `bytes` is a 32-bit count. */
  datatype Cif = Cif(types: seq<Type>, ret: Type, nfixed: nat, bytes: nat)

  function Sret(c: Cif): nat
  {
    if c.ret.kind == Struct then 1 else 0
  }

  function Slots(c: Cif): nat
  {
    |c.types| + Sret(c)
  }

  /** Whether argument `i` is passed through a copy in the arena. */
  predicate Copied(c: Cif, i: nat)
    requires i < |c.types|
  {
    c.types[i].kind == Struct && (Big(c.types[i]) || (c.nfixed > 0 && i >= c.nfixed))
  }

  /** First argument that lives in the packed area; `|types|` when there is none. */
  function PackStart(c: Cif): nat
  {
    if c.nfixed > 0 then c.nfixed
    else if Slots(c) > 5 then 4 - Sret(c)
    else |c.types|
  }

  function Width(c: Cif, i: nat): nat
    requires i < |c.types|
  {
    if c.nfixed > 0 then VaSize(c.types[i]) else SlotSize(c.types[i])
  }

  /** Bytes of arena copies before argument `i`. */
  function CopyOff(c: Cif, i: nat): nat
    requires i <= |c.types|
  {
    if i == 0 then 0 else CopyOff(c, i - 1) + if Copied(c, i - 1) then Round8(c.types[i - 1].size) else 0
  }

  /** Bytes of pack fields before argument `i`. */
  function PackOff(c: Cif, i: nat): nat
    requires i <= |c.types|
  {
    if i <= PackStart(c) then 0 else PackOff(c, i - 1) + Width(c, i - 1)
  }

  function CopyBytes(c: Cif): nat
  {
    CopyOff(c, |c.types|)
  }

  /** Arena size the call needs. */
  function Need(c: Cif): nat
  {
    CopyBytes(c) + PackOff(c, |c.types|)
  }

  predicate Accepted(types: seq<Type>, ret: Type, nfixed: nat)
  {
    TypeValid(ret) && |types| <= MAX_ARGS &&
    (nfixed > 0 ==> nfixed <= 4 && nfixed <= |types| && ret.kind != Struct) &&
    forall i :: 0 <= i < |types| ==> TypeValid(types[i])
  }

  predicate CifOk(c: Cif)
  {
    Accepted(c.types, c.ret, c.nfixed) && c.bytes == Need(c) % M32
  }

  /** `prep`, the ABI check aside: sizes are added in 32 bits. */
  method Prep(types: seq<Type>, ret: Type, nfixed: nat) returns (c: Option<Cif>)
    ensures c.Some? <==> Accepted(types, ret, nfixed)
    ensures c.Some? ==> c.value == Cif(types, ret, nfixed, c.value.bytes) && CifOk(c.value)
  {
    hide CopyOff, PackOff, Round8;
    var ok := ValidType(ret);
    if !ok || |types| > 1024 { return None; }
    if nfixed > 0 && (nfixed > 4 || |types| < nfixed || ret.kind == Struct) { return None; }
    ghost var cif := Cif(types, ret, nfixed, 0);
    OffsStart(cif);
    var copy := 0;
    for i := 0 to |types|
      invariant forall j :: 0 <= j < i ==> TypeValid(types[j])
      invariant copy == CopyOff(cif, i) % M32
    {
      ok := ValidType(types[i]);
      if !ok { return None; }
      CopyOffNext(cif, i);
      if types[i].kind == Struct && (Big(types[i]) || (nfixed > 0 && i >= nfixed)) {
        Wraps(CopyOff(cif, i), Round8(types[i].size));
        copy := (copy + Round8(types[i].size)) % M32;
      }
    }
    var sret := if ret.kind == Struct then 1 else 0;
    var pack := 0;
    if nfixed > 0 {
      for i := nfixed to |types|
        invariant pack == PackOff(cif, i) % M32
      {
        PackOffNext(cif, i);
        Wraps(PackOff(cif, i), VaSize(types[i]));
        pack := (pack + VaSize(types[i])) % M32;
      }
    } else if |types| + sret > 5 {
      for i := 4 - sret to |types|
        invariant pack == PackOff(cif, i) % M32
      {
        PackOffNext(cif, i);
        Wraps(PackOff(cif, i), SlotSize(types[i]));
        pack := (pack + SlotSize(types[i])) % M32;
      }
    }
    Wraps(CopyOff(cif, |types|), PackOff(cif, |types|));
    c := Some(Cif(types, ret, nfixed, (copy + pack) % M32));
    SameLayout(cif, c.value, |types|);
  }

  lemma OffsStart(c: Cif)
    ensures CopyOff(c, 0) == 0
    ensures PackStart(c) <= |c.types| ==> PackOff(c, PackStart(c)) == 0
  {
  }

  lemma CopyOffNext(c: Cif, i: nat)
    requires i < |c.types|
    ensures CopyOff(c, i + 1) == CopyOff(c, i) + if Copied(c, i) then Round8(c.types[i].size) else 0
  {
  }

  lemma PackOffNext(c: Cif, i: nat)
    requires PackStart(c) <= i < |c.types|
    ensures PackOff(c, i + 1) == PackOff(c, i) + Width(c, i)
  {
  }

  lemma Wraps(a: nat, b: nat)
    ensures (a % M32 + b) % M32 == (a + b) % M32 && (a % M32 + b % M32) % M32 == (a + b) % M32
  {
  }

  /** The layout does not depend on the recorded byte count. */
  lemma {:induction false} SameLayout(c: Cif, d: Cif, i: nat)
    requires c.types == d.types && c.ret == d.ret && c.nfixed == d.nfixed && i <= |c.types|
    ensures CopyOff(c, i) == CopyOff(d, i) && PackOff(c, i) == PackOff(d, i)
  {
    if i > 0 {
      SameLayout(c, d, i - 1);
    }
  }

  // ---------------------------------------------------------------------------
  // The arena's regions
  // ---------------------------------------------------------------------------

  lemma {:induction false} OffsGrow(c: Cif, i: nat, j: nat)
    requires i <= j <= |c.types|
    ensures CopyOff(c, i) <= CopyOff(c, j) && PackOff(c, i) <= PackOff(c, j)
    decreases j
  {
    if i < j {
      OffsGrow(c, i, j - 1);
    }
  }

  /** The arena bytes argument `i` owns: its copy and its pack field. */
  predicate OwnsCopy(c: Cif, i: nat, x: nat)
    requires i < |c.types|
  {
    Copied(c, i) && CopyOff(c, i) <= x < CopyOff(c, i) + Round8(c.types[i].size)
  }

  predicate OwnsField(c: Cif, i: nat, x: nat)
    requires i < |c.types|
  {
    i >= PackStart(c) && CopyBytes(c) + PackOff(c, i) <= x < CopyBytes(c) + PackOff(c, i) + Width(c, i)
  }

  /** No byte belongs to two regions. */
  lemma RegionsDisjoint(c: Cif, i: nat, j: nat, x: nat)
    requires i < |c.types| && j < |c.types|
    ensures !(OwnsCopy(c, i, x) && OwnsField(c, j, x))
    ensures i != j ==> !(OwnsCopy(c, i, x) && OwnsCopy(c, j, x)) && !(OwnsField(c, i, x) && OwnsField(c, j, x))
  {
    OffsGrow(c, i + 1, |c.types|);
    if i < j {
      OffsGrow(c, i + 1, j);
    } else if j < i {
      OffsGrow(c, j + 1, i);
    }
  }

  /** And every byte the call needs belongs to one. */
  lemma RegionsCover(c: Cif, x: nat) returns (i: nat)
    requires x < Need(c)
    ensures i < |c.types| && (OwnsCopy(c, i, x) || OwnsField(c, i, x))
  {
    if x < CopyBytes(c) {
      i := FindCopy(c, |c.types|, x);
    } else {
      i := FindField(c, |c.types|, x - CopyBytes(c));
    }
  }

  /**
   * The arena of `cif->bytes` bytes holds every copy and every field of the
   * call exactly when the call needs less than 2^32 bytes: the count is kept
   * in 32 bits.
   */
  lemma ArenaHoldsIff(c: Cif)
    requires CifOk(c)
    ensures (forall i: nat, x: nat :: i < |c.types| && (OwnsCopy(c, i, x) || OwnsField(c, i, x)) ==> x < c.bytes) <==> Need(c) < M32
  {
    hide CopyOff, PackOff, Round8, Width, PackStart;
    if Need(c) < M32 {
      forall i: nat, x: nat | i < |c.types| && (OwnsCopy(c, i, x) || OwnsField(c, i, x))
        ensures x < c.bytes
      {
        RegionBounds(c, i);
      }
    } else {
      var x := Need(c) - 1;
      var i := RegionsCover(c, x);
      assert OwnsCopy(c, i, x) || OwnsField(c, i, x);
    }
  }

  /** A structure of 2^32 bytes is accepted with an arena of no bytes. */
  lemma HugeStructWraps()
    ensures var c := Cif([Type(Struct, M32)], Type(Void, 0), 0, 0); CifOk(c) && OwnsCopy(c, 0, 0) && Need(c) == M32
  {
    var c := Cif([Type(Struct, M32)], Type(Void, 0), 0, 0);
    assert Copied(c, 0) && Round8(M32) == M32;
    assert CopyOff(c, 1) == CopyOff(c, 0) + M32;
    assert PackOff(c, 1) == 0;
  }

  lemma {:induction false} FindCopy(c: Cif, n: nat, x: nat) returns (i: nat)
    requires n <= |c.types| && x < CopyOff(c, n)
    ensures i < n && OwnsCopy(c, i, x)
    decreases n
  {
    if x < CopyOff(c, n - 1) {
      i := FindCopy(c, n - 1, x);
    } else {
      i := n - 1;
    }
  }

  lemma {:induction false} FindField(c: Cif, n: nat, x: nat) returns (i: nat)
    requires n <= |c.types| && x < PackOff(c, n)
    ensures i < n && OwnsField(c, i, CopyBytes(c) + x)
    decreases n
  {
    if n - 1 >= PackStart(c) && x >= PackOff(c, n - 1) {
      i := n - 1;
    } else {
      i := FindField(c, n - 1, x);
    }
  }

  // ---------------------------------------------------------------------------
  // Values
  // ---------------------------------------------------------------------------

  /** `load_le`: at most eight bytes, zero-extended. */
  function LoadLe(b: Bytes): (v: Word)
    requires |b| <= 8
  {
    Pow256Bound(|b|);
    FromLe(b)
  }

  lemma {:induction false} Pow256Bound(n: nat)
    requires n <= 8
    ensures Pow256(n) <= W.M64
  {
    W.Pow256Constants();
    Pow256Grows(n, 8);
  }

  lemma {:induction false} Pow256Grows(m: nat, n: nat)
    requires m <= n
    ensures Pow256(m) <= Pow256(n)
    decreases n
  {
    if m < n {
      Pow256Grows(m, n - 1);
    }
  }

  /** `sext_le`: narrow signed integers are extended to 64 bits. */
  function SextLe(b: Bytes, t: Type): Word
    requires |b| == t.size <= 8
  {
    var v := LoadLe(b);
    if t.kind == Signed && t.size == 1 then Extended(v, 0x100)
    else if t.kind == Signed && t.size == 2 then Extended(v, 0x1_0000)
    else if t.kind == Signed && t.size == 4 then Extended(v, M32)
    else v
  }

  function Extended(v: Word, m: nat): Word
    requires m <= W.M64
  {
    if m / 2 <= v < m then v + (W.M64 - m) else v
  }

  /** Storing the low bytes of a value forgets everything above them. */
  lemma {:induction false} LeMod(n: nat, v: nat, k: nat)
    ensures Le(n, v + Pow256(n) * k) == Le(n, v)
  {
    if n > 0 {
      var p := Pow256(n - 1);
      assert Pow256(n) * k == 256 * (p * k);
      W.ModUnique(v + 256 * (p * k), 256, v / 256 + p * k, v % 256);
      LeMod(n - 1, v / 256, k);
    }
  }

  /** The low bytes of an extended value are the original bytes. */
  lemma SextKeepsBytes(b: Bytes, t: Type)
    requires |b| == t.size <= 8
    ensures Le(t.size, SextLe(b, t)) == b
  {
    hide Le, Pow256;
    FromLeRoundTrip(b);
    W.Pow256Constants();
    var v := LoadLe(b);
    if t.kind == Signed && t.size == 1 {
      LeMod(1, v, (W.M64 - 0x100) / 0x100);
    } else if t.kind == Signed && t.size == 2 {
      LeMod(2, v, (W.M64 - 0x1_0000) / 0x1_0000);
    } else if t.kind == Signed && t.size == 4 {
      LeMod(4, v, (W.M64 - M32) / M32);
    }
  }

  /**
   * What a slot says as a number: a narrow signed integer its signed value in
   * 64-bit two's complement, anything else its bytes with zeros above.
   */
  lemma SextIsValue(b: Bytes, t: Type)
    requires |b| == t.size <= 8
    ensures var v := FromLe(b);
            if t.kind == Signed && t.size in {1, 2, 4} then
              var bits := 8 * t.size;
              SextLe(b, t) == (if v < Pow2(bits - 1) then v else v - Pow2(bits) + 0x1_0000_0000_0000_0000)
            else SextLe(b, t) == v
  {
    hide FromLe;
    assert Pow2(7) == 0x80;
    W.Pow2Constants();
    W.Pow2Add(8, 7);
    W.Pow2Add(16, 15);
    W.Pow256Constants();
    assert FromLe(b) < Pow256(|b|);
  }

  predicate ArgsOk(c: Cif, args: seq<Bytes>)
  {
    |args| == |c.types| && forall i :: 0 <= i < |args| ==> |args[i]| == c.types[i].size
  }

  /** The slot value of argument `i` when the arena is at `base`. */
  function Value(c: Cif, args: seq<Bytes>, base: nat, i: nat): nat
    requires CifOk(c) && ArgsOk(c, args) && i < |c.types|
  {
    if Copied(c, i) then base + CopyOff(c, i) else SextLe(args[i], c.types[i])
  }

  // ---------------------------------------------------------------------------
  // ffi_call
  // ---------------------------------------------------------------------------

  /** The copies of the arguments before `i` are in the arena. */
  ghost predicate CopiesOk(c: Cif, args: seq<Bytes>, arena: Bytes, i: nat)
    requires ArgsOk(c, args) && i <= |c.types|
  {
    |arena| == Need(c) &&
    forall j :: 0 <= j < i && Copied(c, j) ==> CopyAt(c, args, arena, j)
  }

  ghost predicate CopyAt(c: Cif, args: seq<Bytes>, arena: Bytes, j: nat)
    requires ArgsOk(c, args) && j < |c.types|
  {
    CopyOff(c, j) + |args[j]| <= |arena| && arena[CopyOff(c, j)..CopyOff(c, j) + |args[j]|] == args[j]
  }

  ghost predicate FieldsOk(c: Cif, args: seq<Bytes>, base: nat, arena: Bytes, i: nat)
    requires CifOk(c) && ArgsOk(c, args) && i <= |c.types|
  {
    |arena| == Need(c) &&
    forall j :: PackStart(c) <= j < i ==> FieldAt(c, args, base, arena, j)
  }

  ghost predicate FieldAt(c: Cif, args: seq<Bytes>, base: nat, arena: Bytes, j: nat)
    requires CifOk(c) && ArgsOk(c, args) && j < |c.types|
  {
    var p := CopyBytes(c) + PackOff(c, j);
    p + Width(c, j) <= |arena| && arena[p..p + Width(c, j)] == Le(Width(c, j), Value(c, args, base, j))
  }

  /** A region inside the arena, and where it ends. */
  lemma RegionBounds(c: Cif, j: nat)
    requires j < |c.types|
    ensures Copied(c, j) ==> CopyOff(c, j) + Round8(c.types[j].size) == CopyOff(c, j + 1) <= CopyBytes(c)
    ensures j >= PackStart(c) ==> PackOff(c, j) + Width(c, j) == PackOff(c, j + 1) && CopyBytes(c) + PackOff(c, j + 1) <= Need(c)
  {
    OffsGrow(c, j + 1, |c.types|);
  }

  lemma OverwriteAt(s: Bytes, pos: nat, t: Bytes, lo: nat, hi: nat)
    requires pos + |t| <= |s| && lo <= hi <= |s| && (hi <= pos || pos + |t| <= lo)
    ensures Overwrite(s, pos, t)[lo..hi] == s[lo..hi] && Overwrite(s, pos, t)[pos..pos + |t|] == t
  {
    var r := Overwrite(s, pos, t);
    forall k | lo <= k < hi
      ensures r[k] == s[k]
    {
    }
  }

  lemma CopyKept(c: Cif, args: seq<Bytes>, arena: Bytes, pos: nat, b: Bytes, j: nat)
    requires ArgsOk(c, args) && j < |c.types| && CopyAt(c, args, arena, j) && pos + |b| <= |arena|
    requires CopyOff(c, j) + |args[j]| <= pos || pos + |b| <= CopyOff(c, j)
    ensures CopyAt(c, args, Overwrite(arena, pos, b), j)
  {
    hide Overwrite, CopyOff;
    OverwriteAt(arena, pos, b, CopyOff(c, j), CopyOff(c, j) + |args[j]|);
  }

  lemma FieldKept(c: Cif, args: seq<Bytes>, base: nat, arena: Bytes, pos: nat, b: Bytes, j: nat)
    requires CifOk(c) && ArgsOk(c, args) && j < |c.types| && FieldAt(c, args, base, arena, j) && pos + |b| <= |arena|
    requires CopyBytes(c) + PackOff(c, j) + Width(c, j) <= pos || pos + |b| <= CopyBytes(c) + PackOff(c, j)
    ensures FieldAt(c, args, base, Overwrite(arena, pos, b), j)
  {
    hide Overwrite, PackOff, CopyBytes, Width, Value, Le;
    var q := CopyBytes(c) + PackOff(c, j);
    OverwriteAt(arena, pos, b, q, q + Width(c, j));
  }

  /** Writing a copy disturbs neither earlier copies nor any field. */
  lemma WriteCopy(c: Cif, args: seq<Bytes>, base: nat, arena: Bytes, i: nat)
    requires CifOk(c) && ArgsOk(c, args) && i < |c.types| && Copied(c, i)
    requires CopiesOk(c, args, arena, i) && FieldsOk(c, args, base, arena, i)
    ensures CopyOff(c, i) + |args[i]| <= |arena|
    ensures var a := Overwrite(arena, CopyOff(c, i), args[i]);
            CopiesOk(c, args, a, i + 1) && FieldsOk(c, args, base, a, i)
  {
    hide Overwrite, FieldAt, CopyOff, PackOff, CopyBytes, Need, CifOk;
    RegionBounds(c, i);
    NeedBound(c);
    var a := Overwrite(arena, CopyOff(c, i), args[i]);
    OverwriteAt(arena, CopyOff(c, i), args[i], 0, 0);
    forall j | 0 <= j < i + 1 && Copied(c, j)
      ensures CopyAt(c, args, a, j)
    {
      if j < i {
        RegionBounds(c, j);
        OffsGrow(c, j + 1, i);
        CopyKept(c, args, arena, CopyOff(c, i), args[i], j);
      }
    }
    forall j | PackStart(c) <= j < i
      ensures FieldAt(c, args, base, a, j)
    {
      FieldKept(c, args, base, arena, CopyOff(c, i), args[i], j);
    }
  }

  lemma NeedBound(c: Cif)
    ensures CopyBytes(c) <= Need(c)
  {
  }

  /** Writing a field disturbs neither copies nor earlier fields. */
  lemma WriteField(c: Cif, args: seq<Bytes>, base: nat, arena: Bytes, i: nat)
    requires CifOk(c) && ArgsOk(c, args) && PackStart(c) <= i < |c.types|
    requires CopiesOk(c, args, arena, i + 1) && FieldsOk(c, args, base, arena, i)
    ensures CopyBytes(c) + PackOff(c, i) + Width(c, i) <= |arena|
    ensures var a := Overwrite(arena, CopyBytes(c) + PackOff(c, i), Le(Width(c, i), Value(c, args, base, i)));
            CopiesOk(c, args, a, i + 1) && FieldsOk(c, args, base, a, i + 1)
  {
    hide Overwrite, CopyAt, CopyOff, PackOff, CopyBytes, Need, CifOk, Le, Width, Value;
    RegionBounds(c, i);
    var p, b := CopyBytes(c) + PackOff(c, i), Le(Width(c, i), Value(c, args, base, i));
    var a := Overwrite(arena, p, b);
    OverwriteAt(arena, p, b, 0, 0);
    forall j | 0 <= j < i + 1 && Copied(c, j)
      ensures CopyAt(c, args, a, j)
    {
      RegionBounds(c, j);
      CopyKept(c, args, arena, p, b, j);
    }
    forall j | PackStart(c) <= j < i + 1
      ensures FieldAt(c, args, base, a, j)
    {
      if j < i {
        RegionBounds(c, j);
        OffsGrow(c, j + 1, i);
        FieldKept(c, args, base, arena, p, b, j);
      }
    }
  }

  /** An argument that needs no copy leaves the copies as they are. */
  lemma NoCopy(c: Cif, args: seq<Bytes>, arena: Bytes, i: nat)
    requires ArgsOk(c, args) && i < |c.types| && !Copied(c, i) && CopiesOk(c, args, arena, i)
    ensures CopiesOk(c, args, arena, i + 1)
  {
  }

  lemma NoField(c: Cif, args: seq<Bytes>, base: nat, arena: Bytes, i: nat)
    requires CifOk(c) && ArgsOk(c, args) && i < |c.types| && i < PackStart(c) && FieldsOk(c, args, base, arena, i)
    ensures FieldsOk(c, args, base, arena, i + 1)
  {
  }

  /** `arg_slot`: copies a big struct into the arena and gives the slot value. */
  method ArgSlot(c: Cif, args: seq<Bytes>, base: nat, arena: Bytes, copyOff: nat, i: nat)
    returns (v: nat, arena': Bytes, copyOff': nat)
    requires CifOk(c) && ArgsOk(c, args) && i < |c.types| && copyOff == CopyOff(c, i)
    requires Copied(c, i) <==> Big(c.types[i])
    requires CopiesOk(c, args, arena, i) && FieldsOk(c, args, base, arena, i)
    ensures v == Value(c, args, base, i) && copyOff' == CopyOff(c, i + 1)
    ensures CopiesOk(c, args, arena', i + 1) && FieldsOk(c, args, base, arena', i)
  {
    hide CopiesOk, FieldsOk;
    arena', copyOff' := arena, copyOff;
    if Big(c.types[i]) {
      WriteCopy(c, args, base, arena, i);
      arena' := Overwrite(arena, copyOff, args[i]);
      copyOff' := copyOff + Round8(c.types[i].size);
      v := base + copyOff;
    } else {
      NoCopy(c, args, arena, i);
      v := SextLe(args[i], c.types[i]);
    }
  }

  /** Address of the packed area; null when there is no arena. */
  function PackAddr(c: Cif, base: nat): nat
  {
    if c.bytes > 0 then base + CopyBytes(c) else 0
  }

  /** The five registers of the call, given the arena's address and the return buffer. */
  ghost predicate RegistersOk(c: Cif, args: seq<Bytes>, base: nat, rvalue: nat, s: seq<nat>)
    requires CifOk(c) && ArgsOk(c, args)
  {
    |s| == 5 && (Sret(c) == 1 ==> s[0] == rvalue) &&
    (forall i :: 0 <= i < |c.types| && i < PackStart(c) && i + Sret(c) < 5 ==> s[i + Sret(c)] == Value(c, args, base, i)) &&
    (c.nfixed > 0 ==> s[c.nfixed] == PackAddr(c, base)) &&
    (c.nfixed == 0 && Slots(c) > 5 ==> s[4] == PackAddr(c, base))
  }

  /** `ffi_call` up to the jump: the registers and the filled arena. */
  method Marshal(c: Cif, args: seq<Bytes>, base: nat, rvalue: nat) returns (s: seq<nat>, arena: Bytes)
    requires CifOk(c) && ArgsOk(c, args) && Need(c) < M32
    ensures RegistersOk(c, args, base, rvalue, s)
    ensures CopiesOk(c, args, arena, |c.types|) && FieldsOk(c, args, base, arena, |c.types|)
  {
    arena := seq(c.bytes, _ => 0);
    s := [0, 0, 0, 0, 0];
    if c.nfixed > 0 {
      s, arena := MarshalVariadic(c, args, base, arena);
    } else if Slots(c) > 5 {
      s, arena := MarshalPacked(c, args, base, rvalue, arena);
    } else {
      s, arena := MarshalPlain(c, args, base, rvalue, arena);
    }
  }

  /** Five slots or fewer: everything in registers. */
  method MarshalPlain(c: Cif, args: seq<Bytes>, base: nat, rvalue: nat, start: Bytes) returns (s: seq<nat>, arena: Bytes)
    requires CifOk(c) && ArgsOk(c, args) && c.nfixed == 0 && Slots(c) <= 5 && |start| == Need(c)
    ensures RegistersOk(c, args, base, rvalue, s)
    ensures CopiesOk(c, args, arena, |c.types|) && FieldsOk(c, args, base, arena, |c.types|)
  {
    hide CopyOff, PackOff, Value;
    var sret := Sret(c);
    s := [0, 0, 0, 0, 0];
    if sret == 1 { s := s[0 := rvalue]; }
    arena := start;
    var copyOff: nat := 0;
    ZeroOffs(c);
    for i := 0 to |c.types|
      invariant |s| == 5 && (sret == 1 ==> s[0] == rvalue) && copyOff == CopyOff(c, i)
      invariant forall j :: 0 <= j < i ==> s[j + sret] == Value(c, args, base, j)
      invariant CopiesOk(c, args, arena, i) && FieldsOk(c, args, base, arena, i)
    {
      var v;
      v, arena, copyOff := ArgSlot(c, args, base, arena, copyOff, i);
      NoField(c, args, base, arena, i);
      s := s[i + sret := v];
    }
  }

  lemma ZeroOffs(c: Cif)
    ensures CopyOff(c, 0) == 0 && PackOff(c, 0) == 0
    ensures PackStart(c) <= |c.types| ==> PackOff(c, PackStart(c)) == 0
  {
  }

  /** Four slots in registers, the rest in the packed area. */
  method MarshalPacked(c: Cif, args: seq<Bytes>, base: nat, rvalue: nat, start: Bytes) returns (s: seq<nat>, arena: Bytes)
    requires CifOk(c) && ArgsOk(c, args) && c.nfixed == 0 && Slots(c) > 5 && |start| == Need(c) && Need(c) < M32
    ensures RegistersOk(c, args, base, rvalue, s)
    ensures CopiesOk(c, args, arena, |c.types|) && FieldsOk(c, args, base, arena, |c.types|)
  {
    hide CopyOff, PackOff, Value;
    var sret := Sret(c);
    s := [0, 0, 0, 0, 0];
    if sret == 1 { s := s[0 := rvalue]; }
    arena := start;
    var copyOff: nat := 0;
    ZeroOffs(c);
    for i := 0 to 4 - sret
      invariant |s| == 5 && (sret == 1 ==> s[0] == rvalue) && copyOff == CopyOff(c, i)
      invariant forall j :: 0 <= j < i ==> s[j + sret] == Value(c, args, base, j)
      invariant CopiesOk(c, args, arena, i) && FieldsOk(c, args, base, arena, i)
    {
      var v;
      v, arena, copyOff := ArgSlot(c, args, base, arena, copyOff, i);
      NoField(c, args, base, arena, i);
      s := s[i + sret := v];
    }
    var packOff: nat := 0;
    for i := 4 - sret to |c.types|
      invariant copyOff == CopyOff(c, i) && packOff == PackOff(c, i)
      invariant CopiesOk(c, args, arena, i) && FieldsOk(c, args, base, arena, i)
    {
      var v;
      v, arena, copyOff := ArgSlot(c, args, base, arena, copyOff, i);
      WriteField(c, args, base, arena, i);
      arena := Overwrite(arena, CopyBytes(c) + packOff, Le(SlotSize(c.types[i]), v));
      RegionBounds(c, i);
      packOff := packOff + SlotSize(c.types[i]);
    }
    s := s[4 := if |arena| > 0 then base + CopyBytes(c) else 0];
  }

  /** Named arguments in registers, the variadic ones in the packed area, structs among them by reference. */
  method MarshalVariadic(c: Cif, args: seq<Bytes>, base: nat, start: Bytes) returns (s: seq<nat>, arena: Bytes)
    requires CifOk(c) && ArgsOk(c, args) && c.nfixed > 0 && |start| == Need(c) && Need(c) < M32
    ensures RegistersOk(c, args, base, 0, s)
    ensures CopiesOk(c, args, arena, |c.types|) && FieldsOk(c, args, base, arena, |c.types|)
  {
    hide CopyOff, PackOff;
    s := [0, 0, 0, 0, 0];
    arena := start;
    var copyOff: nat := 0;
    ZeroOffs(c);
    for i := 0 to c.nfixed
      invariant |s| == 5 && copyOff == CopyOff(c, i)
      invariant forall j :: 0 <= j < i ==> s[j] == Value(c, args, base, j)
      invariant CopiesOk(c, args, arena, i) && FieldsOk(c, args, base, arena, i)
    {
      var v;
      v, arena, copyOff := ArgSlot(c, args, base, arena, copyOff, i);
      NoField(c, args, base, arena, i);
      s := s[i := v];
    }
    arena := VariadicPart(c, args, base, arena, copyOff);
    s := s[c.nfixed := if |arena| > 0 then base + CopyBytes(c) else 0];
  }

  method VariadicPart(c: Cif, args: seq<Bytes>, base: nat, start: Bytes, copied: nat) returns (arena: Bytes)
    requires CifOk(c) && ArgsOk(c, args) && c.nfixed > 0 && Need(c) < M32 && copied == CopyOff(c, c.nfixed)
    requires CopiesOk(c, args, start, c.nfixed) && FieldsOk(c, args, base, start, c.nfixed)
    ensures CopiesOk(c, args, arena, |c.types|) && FieldsOk(c, args, base, arena, |c.types|)
  {
    hide CopyOff, PackOff, CopiesOk, FieldsOk;
    arena := start;
    var copyOff: nat := copied;
    var packOff: nat := 0;
    ZeroOffs(c);
    for i := c.nfixed to |c.types|
      invariant copyOff == CopyOff(c, i) && packOff == PackOff(c, i)
      invariant CopiesOk(c, args, arena, i) && FieldsOk(c, args, base, arena, i)
    {
      var t := c.types[i];
      RegionBounds(c, i);
      CopyStep(c, i);
      if t.kind == Struct {
        WriteCopy(c, args, base, arena, i);
        arena := Overwrite(arena, copyOff, args[i]);
        WriteField(c, args, base, arena, i);
        arena := Overwrite(arena, CopyBytes(c) + packOff, Le(8, base + copyOff));
        copyOff := copyOff + Round8(t.size);
      } else {
        NoCopy(c, args, arena, i);
        WriteField(c, args, base, arena, i);
        arena := Overwrite(arena, CopyBytes(c) + packOff, Le(t.size, SextLe(args[i], t)));
      }
      packOff := packOff + VaSize(t);
    }
  }

  lemma CopyStep(c: Cif, i: nat)
    requires i < |c.types|
    ensures CopyOff(c, i + 1) == CopyOff(c, i) + if Copied(c, i) then Round8(c.types[i].size) else 0
  {
  }

  // ---------------------------------------------------------------------------
  // Closures
  // ---------------------------------------------------------------------------

  /** What the closure's function gets for an argument: a pointer, or the address of a staged word. */
  datatype Delivered = Pointer(addr: nat) | Staged(v: nat)

  /** The value in the slot of argument `i`, with `pack` the bytes r5 points at. */
  function SlotValue(c: Cif, regs: seq<nat>, r5: nat, pack: Bytes, i: nat): nat
    requires Accepted(c.types, c.ret, c.nfixed) && c.nfixed == 0 && i < |c.types| && |regs| == 4
    requires PackOff(c, |c.types|) <= |pack|
  {
    OffsGrow(c, i + 1, |c.types|);
    if i >= PackStart(c) then FromLe(pack[PackOff(c, i)..PackOff(c, i) + Width(c, i)])
    else if i + Sret(c) < 4 then regs[i + Sret(c)]
    else r5
  }

  function Deliver(c: Cif, regs: seq<nat>, r5: nat, pack: Bytes, i: nat): Delivered
    requires Accepted(c.types, c.ret, c.nfixed) && c.nfixed == 0 && i < |c.types| && |regs| == 4
    requires PackOff(c, |c.types|) <= |pack|
  {
    var v := SlotValue(c, regs, r5, pack, i);
    if Big(c.types[i]) then Pointer(v) else Staged(v)
  }

  /** `bpfffi_closure_dispatch`: the argument vector and the return buffer (None: an internal word). */
  method Dispatch(c: Cif, regs: seq<nat>, r5: nat, pack: Bytes) returns (args: seq<Delivered>, ret: Option<nat>)
    requires Accepted(c.types, c.ret, c.nfixed) && c.nfixed == 0 && |regs| == 4 && PackOff(c, |c.types|) <= |pack|
    ensures |args| == |c.types| && forall i :: 0 <= i < |args| ==> args[i] == Deliver(c, regs, r5, pack, i)
    ensures ret == if Sret(c) == 1 then Some(regs[0]) else None
  {
    hide PackOff;
    args := [];
    var nslots := Slots(c);
    var slot := Sret(c);
    var packOff: nat := 0;
    ZeroOffs(c);
    for i := 0 to |c.types|
      invariant |args| == i && slot == i + Sret(c) && packOff == PackOff(c, i)
      invariant forall j :: 0 <= j < i ==> args[j] == Deliver(c, regs, r5, pack, j)
    {
      var t := c.types[i];
      var v;
      FieldStep(c, i);
      OffsGrow(c, i + 1, |c.types|);
      if nslots > 5 && slot >= 4 {
        v := FromLe(pack[packOff..packOff + SlotSize(t)]);
        packOff := packOff + SlotSize(t);
      } else if slot < 4 {
        v := regs[slot];
      } else {
        v := r5;
      }
      slot := slot + 1;
      args := args + [if t.kind == Struct && t.size > 8 then Pointer(v) else Staged(v)];
    }
    ret := if Sret(c) == 1 then Some(regs[0]) else None;
  }

  lemma FieldStep(c: Cif, i: nat)
    requires i < |c.types| && c.nfixed == 0
    ensures PackOff(c, i + 1) == PackOff(c, i) + if i >= PackStart(c) then SlotSize(c.types[i]) else 0
  {
  }

  /** The bytes the callee finds for an argument of `size` bytes. */
  function BytesOf(d: Delivered, size: nat, base: nat, arena: Bytes): Bytes
    requires d.Pointer? ==> base <= d.addr && d.addr - base + size <= |arena|
  {
    if d.Pointer? then arena[d.addr - base..d.addr - base + size] else Le(size, d.v)
  }

  /** A field read back: exactly the pointer, or the argument's bytes. */
  lemma FieldReads(c: Cif, args: seq<Bytes>, base: nat, arena: Bytes, i: nat)
    requires CifOk(c) && ArgsOk(c, args) && c.nfixed == 0 && PackStart(c) <= i < |c.types| && base + Need(c) < W.M64
    requires FieldAt(c, args, base, arena, i)
    ensures var p := CopyBytes(c) + PackOff(c, i);
            var v := FromLe(arena[p..p + Width(c, i)]);
            if Big(c.types[i]) then v == base + CopyOff(c, i) else Le(c.types[i].size, v) == args[i]
  {
    hide Le, FromLe, Pow256, CopyOff, PackOff, SextLe, Round8;
    RegionBounds(c, i);
    if Big(c.types[i]) {
      W.Pow256Constants();
      LeRoundTrip(8, base + CopyOff(c, i));
    } else {
      SextKeepsBytes(args[i], c.types[i]);
      FromLeRoundTrip(args[i]);
    }
  }

  /**
   * Round trip: what a fixed-signature call builds, a closure of the same
   * signature takes apart again. Every argument arrives with its exact bytes
   * and the sret pointer arrives as the return buffer.
   */
  lemma RoundTrip(c: Cif, args: seq<Bytes>, base: nat, rvalue: nat, s: seq<nat>, arena: Bytes, i: nat)
    requires CifOk(c) && ArgsOk(c, args) && c.nfixed == 0 && Need(c) < M32 && base + Need(c) < W.M64 && i < |c.types|
    requires RegistersOk(c, args, base, rvalue, s)
    requires CopiesOk(c, args, arena, |c.types|) && FieldsOk(c, args, base, arena, |c.types|)
    ensures var pack := arena[CopyBytes(c)..];
            var d := Deliver(c, s[..4], s[4], pack, i);
            (d.Pointer? <==> Big(c.types[i])) &&
            (d.Pointer? ==> base <= d.addr && d.addr - base + c.types[i].size <= |arena|) &&
            BytesOf(d, c.types[i].size, base, arena) == args[i]
    ensures Sret(c) == 1 ==> s[..4][0] == rvalue
  {
    hide Le, FromLe, CopyOff, PackOff, Need, SextLe, Round8, Width, SlotValue, FieldsOk;
    NeedBound(c);
    RegionBounds(c, i);
    SlotHolds(c, args, base, rvalue, s, arena, i);
    if Big(c.types[i]) {
      assert CopyAt(c, args, arena, i);
    }
  }

  lemma SliceBehind(a: Bytes, k: nat, p: nat, w: nat)
    requires k + p + w <= |a|
    ensures a[k..][p..p + w] == a[k + p..k + p + w]
  {
  }

  /** The value found for argument `i` is the pointer to its copy, or holds its bytes. */
  lemma SlotHolds(c: Cif, args: seq<Bytes>, base: nat, rvalue: nat, s: seq<nat>, arena: Bytes, i: nat)
    requires CifOk(c) && ArgsOk(c, args) && c.nfixed == 0 && base + Need(c) < W.M64 && i < |c.types|
    requires RegistersOk(c, args, base, rvalue, s) && FieldsOk(c, args, base, arena, |c.types|)
    ensures CopyBytes(c) <= |arena| && PackOff(c, |c.types|) <= |arena[CopyBytes(c)..]|
    ensures var v := SlotValue(c, s[..4], s[4], arena[CopyBytes(c)..], i);
            if Big(c.types[i]) then v == base + CopyOff(c, i) else Le(c.types[i].size, v) == args[i]
  {
    hide Le, FromLe, CopyOff, PackOff, SextLe, Round8;
    RegionBounds(c, i);
    if i >= PackStart(c) {
      assert FieldAt(c, args, base, arena, i);
      FieldReads(c, args, base, arena, i);
      var p, w := PackOff(c, i), Width(c, i);
      SliceBehind(arena, CopyBytes(c), p, w);
    } else {
      assert s[i + Sret(c)] == Value(c, args, base, i);
      if !Big(c.types[i]) { SextKeepsBytes(args[i], c.types[i]); }
    }
  }

  // ---------------------------------------------------------------------------
  // Variadic arguments as the callee walks them
  // ---------------------------------------------------------------------------

  /** `n` bytes at address `p` of the arena at `base`. */
  function BytesAt(arena: Bytes, base: nat, p: int, n: nat): Bytes
  {
    if base <= p && p - base + n <= |arena| then arena[p - base..p - base + n] else []
  }

  /**
   * `va_arg` for each of the types in turn: a scalar lies in the packed area
   * with its own size, a structure is reached through the 8-byte pointer there.
   */
  function VaArgs(ts: seq<Type>, pack: Bytes, arena: Bytes, base: nat): seq<Bytes>
    decreases |ts|
  {
    if ts == [] then []
    else if ts[0].kind == Struct then
      if |pack| < 8 then [] else [BytesAt(arena, base, FromLe(pack[..8]), ts[0].size)] + VaArgs(ts[1..], pack[8..], arena, base)
    else if |pack| < ts[0].size then []
    else [pack[..ts[0].size]] + VaArgs(ts[1..], pack[ts[0].size..], arena, base)
  }

  /** The field of variadic argument `i`, as `va_arg` reads it. */
  lemma VaField(c: Cif, args: seq<Bytes>, base: nat, arena: Bytes, i: nat)
    requires CifOk(c) && ArgsOk(c, args) && 0 < c.nfixed <= i < |c.types| && base + Need(c) < W.M64
    requires |arena| == Need(c) && FieldAt(c, args, base, arena, i)
    requires Copied(c, i) ==> CopyAt(c, args, arena, i)
    ensures var p, t := CopyBytes(c) + PackOff(c, i), c.types[i];
            var n := if t.kind == Struct then 8 else t.size;
            p + n == CopyBytes(c) + PackOff(c, i + 1) <= |arena| &&
            (if t.kind == Struct then BytesAt(arena, base, FromLe(arena[p..p + 8]), t.size) == args[i] else arena[p..p + n] == args[i])
  {
    hide Le, FromLe, Pow256, CopyOff, PackOff, SextLe, Round8;
    RegionBounds(c, i);
    if c.types[i].kind == Struct {
      W.Pow256Constants();
      LeRoundTrip(8, base + CopyOff(c, i));
    } else {
      SextKeepsBytes(args[i], c.types[i]);
    }
  }

  /** Round trip of the variadic part: the callee's `va_arg` yields every argument's exact bytes, in order. */
  lemma {:induction false} VariadicRoundTrip(c: Cif, args: seq<Bytes>, base: nat, arena: Bytes, i: nat)
    requires CifOk(c) && ArgsOk(c, args) && 0 < c.nfixed <= i <= |c.types| && base + Need(c) < W.M64
    requires CopiesOk(c, args, arena, |c.types|) && FieldsOk(c, args, base, arena, |c.types|)
    ensures CopyBytes(c) + PackOff(c, i) <= |arena|
    ensures VaArgs(c.types[i..], arena[CopyBytes(c) + PackOff(c, i)..], arena, base) == args[i..]
    decreases |c.types| - i
  {
    hide Le, FromLe, CopyOff, PackOff, SextLe, Round8, BytesAt, Copied, Width, Value;
    OffsGrow(c, i, |c.types|);
    if i < |c.types| {
      assert FieldAt(c, args, base, arena, i);
      VaField(c, args, base, arena, i);
      VariadicRoundTrip(c, args, base, arena, i + 1);
      var p, q := CopyBytes(c) + PackOff(c, i), CopyBytes(c) + PackOff(c, i + 1);
      var ts, pack := c.types[i..], arena[p..];
      assert ts[0] == c.types[i] && ts[1..] == c.types[i + 1..];
      assert pack[q - p..] == arena[q..] && pack[..q - p] == arena[p..q];
      assert args[i..] == [args[i]] + args[i + 1..];
    }
  }
}
