/**
 * Calls across modules: call relocations, PLT stubs and frame slots
 * (`src/elf_linker.cpp`, `src/frame_slot.h`), and what the vm makes of them.
 */
module Plt {
  import opened Leb128
  import opened ByteVectors
  import opened Words
  import opened BpfAlu
  import opened Frames
  import opened StackRuns

  // ---------------------------------------------------------------------------
  // Call relocations
  // ---------------------------------------------------------------------------

  /** The low 32 bits as a signed number. */
  function Int32(v: int): (r: int)
    ensures -0x8000_0000 <= r < 0x8000_0000
  {
    Signed(v % M32, M32)
  }

  /** The immediate `apply_relocations` writes for a call at `site` to `target`. */
  function CallImm(site: nat, target: nat): int
  {
    Int32(TruncDiv(target - site, 8) - 1)
  }

  /** Where the vm goes: `pc += imm * 8`, then past the instruction. */
  function CallTarget(site: nat, imm: int): nat
  {
    (site + imm * 8 + 8) % M64
  }

  /** A relocated call lands on its target exactly when the distance is a multiple of 8 and fits. */
  lemma CallLandsIff(site: nat, target: nat)
    requires site < 0x8000_0000_0000_0000 && target < 0x8000_0000_0000_0000
    ensures CallTarget(site, CallImm(site, target)) == target <==>
            (target - site) % 8 == 0 && -0x8000_0000 <= (target - site) / 8 - 1 < 0x8000_0000
  {
    var q := TruncDiv(target - site, 8);
    var imm := CallImm(site, target);
    if (target - site) % 8 == 0 {
      assert q == (target - site) / 8 && 8 * q == target - site;
      if -0x8000_0000 <= q - 1 < 0x8000_0000 {
        assert imm == q - 1;
      } else {
        assert imm != q - 1;
      }
    }
  }

  /** A call over 16 GiB plus one instruction wraps to 16 GiB the other way. */
  lemma FarCallWraps(site: nat)
    requires 0x4_0000_0000 <= site < 0x4000_0000_0000_0000
    ensures CallTarget(site, CallImm(site, site + 0x4_0000_0008)) == site - 0x3_FFFF_FFF8
  {
    var d := site + 0x4_0000_0008 - site;
    assert TruncDiv(d, 8) == 0x8000_0001;
    assert CallImm(site, site + 0x4_0000_0008) == -0x8000_0000;
  }

  // ---------------------------------------------------------------------------
  // Frame slots
  // ---------------------------------------------------------------------------

  const SLOT_MAGIC: nat := 0x6270_766D
  const SLOT_FALLBACK: nat := 0xFFFF_FFFF

  /** `make_frame_slot`. */
  function FrameSlot(size: nat): nat
  {
    BitOr(SLOT_MAGIC * M32, size)
  }

  /** What `frame_size_of` makes of the word before a function's entry; `limit` is the global fallback. */
  function FrameSizeFrom(slot: nat, limit: nat): nat
  {
    if slot / M32 != SLOT_MAGIC || slot % M32 == SLOT_FALLBACK then limit else slot % M32
  }

  /** One bit of an or. */
  lemma OrStep(a: nat, b: nat)
    ensures BitOr(a, b) == (if a % 2 + b % 2 > 0 then 1 else 0) + 2 * BitOr(a / 2, b / 2)
  {
    if a == 0 {
      assert BitOr(a / 2, b / 2) == b / 2;
    } else if b == 0 {
      assert BitOr(a / 2, b / 2) == a / 2;
    }
  }

  lemma Doubled(a: nat, h: nat)
    ensures a * (2 * h) == 2 * (a * h)
  {
  }

  lemma Halved(x: nat, r: nat)
    ensures (2 * x + r) / 2 == x + r / 2 && (2 * x + r) % 2 == r % 2
  {
  }

  lemma SplitStep(x: nat, y: nat, o: nat, r: nat)
    requires BitOr(x, y + r / 2) == o + r / 2
    ensures BitOr(2 * x, 2 * y + r) == 2 * o + r
  {
    hide BitOr;
    Halved(x, 0);
    Halved(y, r);
    OrStep(2 * x, 2 * y + r);
  }

  lemma HighStep(a: nat, y: nat, r: nat)
    requires BitOr(a / 2, y + r / 2) == y + BitOr(a / 2, r / 2)
    ensures BitOr(a, 2 * y + r) == 2 * y + BitOr(a, r)
  {
    hide BitOr;
    Halved(y, r);
    OrStep(a, 2 * y + r);
    OrStep(a, r);
  }

  lemma PowNext(n: nat)
    ensures Pow2(0) == 1
    ensures n > 0 ==> Pow2(n) == 2 * Pow2(n - 1)
  {
  }

  /** Or with a shifted number works on the two parts separately. */
  lemma {:induction false} BitOrSplit(a: nat, q: nat, r: nat, n: nat)
    requires r < Pow2(n)
    ensures BitOr(a * Pow2(n), q * Pow2(n) + r) == BitOr(a, q) * Pow2(n) + r
  {
    hide BitOr, Pow2;
    PowNext(n);
    if n > 0 {
      var h := Pow2(n - 1);
      BitOrSplit(a, q, r / 2, n - 1);
      SplitStep(a * h, q * h, BitOr(a, q) * h, r);
      Doubled(a, h);
      Doubled(q, h);
      Doubled(BitOr(a, q), h);
    }
  }

  /** Or with a number below the shift keeps the shifted part. */
  lemma {:induction false} BitOrHigh(a: nat, q: nat, r: nat, n: nat)
    requires a < Pow2(n) && r < Pow2(n)
    ensures BitOr(a, q * Pow2(n) + r) == q * Pow2(n) + BitOr(a, r)
  {
    hide BitOr, Pow2;
    PowNext(n);
    if n == 0 {
      OrStart(q);
      OrStart(0);
    } else {
      var h := Pow2(n - 1);
      BitOrHigh(a / 2, q, r / 2, n - 1);
      HighStep(a, q * h, r);
      Doubled(q, h);
    }
  }

  lemma OrStart(b: nat)
    ensures BitOr(0, b) == b
  {
  }

  /** The two halves of a slot word. */
  lemma SlotHalves(size: nat)
    ensures FrameSlot(size) / M32 == BitOr(SLOT_MAGIC, size / M32) && FrameSlot(size) % M32 == size % M32
  {
    hide BitOr, Pow2;
    Pow2Constants();
    BitOrSplit(SLOT_MAGIC, size / M32, size % M32, 32);
    ModUnique(FrameSlot(size), M32, BitOr(SLOT_MAGIC, size / M32), size % M32);
  }

  /** The word in front of a function: "bpvm" above, the frame size below. */
  lemma SlotIs(size: nat)
    requires size < 0x1_0000_0000
    ensures FrameSlot(size) == 0x6270_766D * 0x1_0000_0000 + size
  {
    hide BitOr, FrameSlot;
    SlotHalves(size);
    OrZero(SLOT_MAGIC);
  }

  lemma OrZero(a: nat)
    ensures BitOr(a, 0) == a
  {
  }

  /**
   * The vm reads back exactly the size the linker wrote, exactly when that
   * size is below the fallback mark.
   */
  lemma SlotReadsBackIff(size: nat, limit: nat)
    requires limit < M24
    ensures FrameSizeFrom(FrameSlot(size), limit) == size <==> size < SLOT_FALLBACK
  {
    hide BitOr, FrameSlot;
    SlotHalves(size);
    OrZero(SLOT_MAGIC);
  }

  /** A frame size equal to the mark is read as no size at all. */
  lemma MarkReadsAsNone(limit: nat)
    ensures FrameSizeFrom(FrameSlot(0xFFFF_FFFF), limit) == limit
  {
    hide BitOr, FrameSlot;
    SlotHalves(0xFFFF_FFFF);
  }

  /** A slotted section: its slot's offset in the image, and the frame size recorded for its first function, if any. */
  datatype Slotted = Slotted(offset: nat, size: Option<nat>)

  function SlotWord(s: Slotted): nat
  {
    FrameSlot(if s.size.Some? then s.size.value else SLOT_FALLBACK) % M64
  }

  ghost predicate Spread(image: Bytes, ss: seq<Slotted>)
  {
    (forall i :: 0 <= i < |ss| ==> ss[i].offset + 8 <= |image|) &&
    forall i, j :: 0 <= i < j < |ss| ==> ss[i].offset + 8 <= ss[j].offset || ss[j].offset + 8 <= ss[i].offset
  }

  /** The slot of section `s` is in the image. */
  predicate SlotIn(image: Bytes, s: Slotted)
  {
    s.offset + 8 <= |image| && image[s.offset..s.offset + 8] == Le(8, SlotWord(s))
  }

  /** `fill_frame_slots`: every slotted section gets its slot and no other byte changes. */
  method FillFrameSlots(start: Bytes, ss: seq<Slotted>) returns (image: Bytes)
    requires Spread(start, ss)
    ensures |image| == |start| && forall i :: 0 <= i < |ss| ==> SlotIn(image, ss[i])
    ensures forall k :: 0 <= k < |image| && (forall i :: 0 <= i < |ss| ==> k < ss[i].offset || ss[i].offset + 8 <= k) ==>
              image[k] == start[k]
  {
    hide SlotWord, Le;
    image := start;
    for n := 0 to |ss|
      invariant |image| == |start| && forall i :: 0 <= i < n ==> SlotIn(image, ss[i])
      invariant forall k :: 0 <= k < |image| && (forall i :: 0 <= i < n ==> k < ss[i].offset || ss[i].offset + 8 <= k) ==>
                  image[k] == start[k]
    {
      ghost var before := image;
      var s := ss[n];
      image := Overwrite(image, s.offset, Le(8, SlotWord(s)));
      forall i | 0 <= i < n + 1
        ensures SlotIn(image, ss[i])
      {
        if i < n {
          assert SlotIn(before, ss[i]);
          assert image[ss[i].offset..ss[i].offset + 8] == before[ss[i].offset..ss[i].offset + 8];
        }
      }
    }
  }

  /** Whether `frame_size_of` takes the global limit for this slot word. */
  predicate FallsBack(slot: nat)
  {
    slot / M32 != SLOT_MAGIC || slot % M32 == SLOT_FALLBACK
  }

  /**
   * Entry minus eight: the vm takes the size the linker recorded when that is
   * below the mark, and the global limit exactly when none was recorded or the
   * recorded one has the mark in its low half or bits above that the magic
   * number does not have.
   */
  lemma VmFindsFrameSize(image: Bytes, s: Slotted, limit: nat)
    requires SlotIn(image, s)
    ensures var word := FromLe(image[s.offset..s.offset + 8]);
            (FallsBack(word) <==>
             s.size.None? || s.size.value % M32 == SLOT_FALLBACK || BitOr(SLOT_MAGIC, s.size.value / M32 % M32) != SLOT_MAGIC) &&
            (FallsBack(word) ==> FrameSizeFrom(word, limit) == limit) &&
            (s.size.Some? && s.size.value < SLOT_FALLBACK ==> FrameSizeFrom(word, limit) == s.size.value)
  {
    hide Le, FromLe, BitOr, FrameSlot;
    Pow256Constants();
    LeRoundTrip(8, SlotWord(s));
    var size := if s.size.Some? then s.size.value else SLOT_FALLBACK;
    SlotHalves(size);
    WordHalves(FrameSlot(size));
    OrLow(SLOT_MAGIC, size / M32);
    OrZero(SLOT_MAGIC);
  }

  /** The slot of a section at `offset` of an image loaded at `base`: it is for the function right behind it. */
  function SlotFor(base: nat, offset: nat, sizes: map<nat, nat>): Slotted
  {
    Slotted(offset, if base + offset + 8 in sizes then Some(sizes[base + offset + 8]) else None)
  }

  /** `frame_size_of` on an image loaded at `base`. */
  function FrameSizeOf(image: Bytes, base: nat, entry: nat, limit: nat): nat
  {
    if entry < 8 || entry - 8 < base || entry > base + |image| then limit
    else FrameSizeFrom(FromLe(image[entry - 8 - base..entry - base]), limit)
  }

  /** The vm asks with the address of a function and gets the size recorded for that address, if it is below the mark. */
  lemma EntryFindsSize(image: Bytes, base: nat, offset: nat, sizes: map<nat, nat>, limit: nat)
    requires SlotIn(image, SlotFor(base, offset, sizes))
    ensures var entry := base + offset + 8;
            (entry in sizes && sizes[entry] < 0xFFFF_FFFF ==> FrameSizeOf(image, base, entry, limit) == sizes[entry]) &&
            (entry !in sizes ==> FrameSizeOf(image, base, entry, limit) == limit)
  {
    hide FromLe, Le, BitOr, FrameSlot;
    VmFindsFrameSize(image, SlotFor(base, offset, sizes), limit);
  }

  lemma WordHalves(v: nat)
    ensures v % M64 / M32 == v / M32 % M32 && v % M64 % M32 == v % M32
  {
    var q := v / M64;
    assert v == M64 * q + v % M64;
    assert v / M32 == M32 * q + v % M64 / M32;
  }

  /** The low 32 bits of an or. */
  lemma OrLow(a: nat, b: nat)
    requires a < M32
    ensures BitOr(a, b) % M32 == BitOr(a, b % M32)
  {
    hide Pow2, BitOr;
    Pow2Constants();
    BitOrHigh(a, b / M32, b % M32, 32);
    BitOrBound(a, b % M32, 32);
    ModUnique(BitOr(a, b), M32, b / M32, BitOr(a, b % M32));
  }

  // ---------------------------------------------------------------------------
  // PLT stubs
  // ---------------------------------------------------------------------------

  const STUB_SIZE: nat := 40

  /** One instruction slot as the vm decodes it. */
  datatype Instruction = Instruction(code: nat, dst: nat, src: nat, off: nat, imm: nat)

  function Decode(b: Bytes): Instruction
    requires |b| == 8
  {
    Instruction(b[0], b[1] % 16, b[1] / 16, FromLe(b[2..4]), FromLe(b[4..8]))
  }

  /** The five slots: lddw r6, slot; r6 = *r6; call *r6; exit. */
  function StubBytes(slot: nat): (b: Bytes)
    ensures |b| == STUB_SIZE
  {
    ([0x18, 0x06, 0, 0] + Le(4, slot % M32)) + ([0, 0, 0, 0] + Le(4, slot / M32)) +
    [0x79, 0x66, 0, 0, 0, 0, 0, 0] + [0x8d, 0x06, 0, 0, 0, 0, 0, 0] + [0x95, 0, 0, 0, 0, 0, 0, 0]
  }

  /** One instruction slot of zeroed memory: opcode, registers and immediate. */
  method PutSlot(p: array<Byte>, at: nat, code: Byte, regs: Byte, imm: Bytes)
    requires at + 8 <= p.Length && |imm| == 4 && p[at + 2] == 0 && p[at + 3] == 0
    modifies p
    ensures p[..] == Overwrite(old(p[..]), at, [code, regs, 0, 0] + imm)
  {
    ghost var was, b := p[..], [code, regs, 0, 0] + imm;
    p[at] := code;
    p[at + 1] := regs;
    p[at + 4] := imm[0];
    p[at + 5] := imm[1];
    p[at + 6] := imm[2];
    p[at + 7] := imm[3];
    assert p[..at] == was[..at] && p[at + 8..] == was[at + 8..];
    assert p[at..at + 8] == b;
    assert p[..] == p[..at] + p[at..at + 8] + p[at + 8..];
  }

  lemma OverwriteNext(s: Bytes, at: nat, x: Bytes, y: Bytes)
    requires at + |x| + |y| <= |s|
    ensures Overwrite(Overwrite(s, at, x), at + |x|, y) == Overwrite(s, at, x + y)
  {
  }

  /** `emit_plt_stub`, into zeroed memory. */
  method EmitPltStub(p: array<Byte>, at: nat, slot: nat)
    requires at + STUB_SIZE <= p.Length && forall k :: at <= k < at + STUB_SIZE ==> p[k] == 0
    requires slot < M64
    modifies p
    ensures p[..] == Overwrite(old(p[..]), at, StubBytes(slot))
  {
    hide Le, Overwrite;
    var zero: Bytes := [0, 0, 0, 0];
    var lo, hi := Le(4, slot % M32), Le(4, slot / M32);
    ghost var s := p[..];
    ghost var b0 := [0x18, 0x06, 0, 0] + lo;
    ghost var b1 := b0 + ([0, 0, 0, 0] + hi);
    ghost var b2 := b1 + [0x79, 0x66, 0, 0, 0, 0, 0, 0];
    ghost var b3 := b2 + [0x8d, 0x06, 0, 0, 0, 0, 0, 0];
    PutSlot(p, at, 0x18, 0x06, lo);
    StillZero(s, p[..], at, b0, at + 8);
    PutSlot(p, at + 8, 0, 0, hi);
    OverwriteNext(s, at, b0, [0, 0, 0, 0] + hi);
    StillZero(s, p[..], at, b1, at + 16);
    PutSlot(p, at + 16, 0x79, 0x66, zero);
    assert [0x79, 0x66, 0, 0] + zero == [0x79, 0x66, 0, 0, 0, 0, 0, 0];
    OverwriteNext(s, at, b1, [0x79, 0x66, 0, 0, 0, 0, 0, 0]);
    StillZero(s, p[..], at, b2, at + 24);
    PutSlot(p, at + 24, 0x8d, 0x06, zero);
    assert [0x8d, 0x06, 0, 0] + zero == [0x8d, 0x06, 0, 0, 0, 0, 0, 0];
    OverwriteNext(s, at, b2, [0x8d, 0x06, 0, 0, 0, 0, 0, 0]);
    StillZero(s, p[..], at, b3, at + 32);
    PutSlot(p, at + 32, 0x95, 0, zero);
    assert [0x95, 0, 0, 0] + zero == [0x95, 0, 0, 0, 0, 0, 0, 0];
    OverwriteNext(s, at, b3, [0x95, 0, 0, 0, 0, 0, 0, 0]);
  }

  /** What is not written yet is still zero. */
  lemma StillZero(s: Bytes, t: Bytes, at: nat, b: Bytes, k: nat)
    requires at + |b| <= k && k + 4 <= |s| && t == Overwrite(s, at, b) && s[k + 2] == 0 && s[k + 3] == 0
    ensures t[k + 2] == 0 && t[k + 3] == 0
  {
  }

  /** The stub decodes to the four instructions, and the two halves of the address join up. */
  lemma StubDecodes(slot: nat)
    requires slot < M64
    ensures var b := StubBytes(slot);
            var i0, i1, i2, i3, i4 := Decode(b[0..8]), Decode(b[8..16]), Decode(b[16..24]), Decode(b[24..32]), Decode(b[32..40]);
            (i0.code, i0.dst, i0.src) == (0x18, 6, 0) && i1.imm * M32 + i0.imm == slot &&
            (i2.code, i2.dst, i2.src, i2.off) == (0x79, 6, 6, 0) &&
            (i3.code, i3.dst) == (0x8d, 6) && i4.code == 0x95
  {
    hide Le, FromLe;
    var b := StubBytes(slot);
    Pow256Constants();
    LeRoundTrip(4, slot % M32);
    LeRoundTrip(4, slot / M32);
    assert b[0..8] == [0x18, 0x06, 0, 0] + Le(4, slot % M32);
    assert b[8..16] == [0, 0, 0, 0] + Le(4, slot / M32);
    assert b[0..8][4..8] == Le(4, slot % M32);
    assert b[8..16][4..8] == Le(4, slot / M32);
    ZeroBytes();
    assert b[16..24] == [0x79, 0x66, 0, 0, 0, 0, 0, 0];
    assert b[16..24][2..4] == [0, 0];
    assert b[24..32] == [0x8d, 0x06, 0, 0, 0, 0, 0, 0];
    assert b[32..40] == [0x95, 0, 0, 0, 0, 0, 0, 0];
  }

  lemma ZeroBytes()
    ensures FromLe([0, 0]) == 0
  {
    assert [0, 0][1..] == [0] && [0][1..] == [];
    assert FromLe([0]) == 0;
  }

  /** Code and GOT of the linked program, as they lie in guest memory. */
  datatype Image = Image(base: nat, bytes: Bytes)

  predicate Inside(img: Image, a: nat, n: nat)
  {
    img.base <= a && a + n <= img.base + |img.bytes|
  }

  function Peek(img: Image, a: nat, n: nat): (b: Bytes)
    requires Inside(img, a, n)
    ensures |b| == n
  {
    img.bytes[a - img.base..a - img.base + n]
  }

  function Wide(img: Image, a: nat): (w: Word)
    requires Inside(img, a, 8)
  {
    Pow256Constants();
    FromLe(Peek(img, a, 8))
  }

  /**
   * What the interpreter does at pc_ for the instructions of a stub: lddw,
   * a 64-bit load, an indirect call, exit. `sizes` gives the callee's frame size.
   */
  function Act(img: Image, sizes: Word -> nat, m: Machine): Option<Action>
  {
    if !Inside(img, m.pc, 8) then None
    else
      var i := Decode(Peek(img, m.pc, 8));
      if i.dst > 9 || i.src > 10 then None
      else if i.code == 0x18 && Inside(img, m.pc + 8, 8) then
        var v := (Decode(Peek(img, m.pc + 8, 8)).imm * M32 + i.imm) % M64;
        Some(Work(m.(reg := m.reg[i.dst := v], pc := (m.pc + 16) % M64)))
      else if i.code == 0x79 then
        var a := (m.reg[i.src] + Signed(i.off, 0x1_0000)) % M64;
        if Inside(img, a, 8) then Some(Work(m.(reg := m.reg[i.dst := Wide(img, a)], pc := (m.pc + 8) % M64))) else None
      else if i.code == 0x8d then Some(Call(m.reg[i.dst], (m.pc + 8) % M64, sizes(m.reg[i.dst])))
      else if i.code == 0x95 then Some(Return)
      else None
  }

  /** A stub at `plt` whose GOT slot holds the address `f`. */
  predicate StubLinked(img: Image, plt: nat, slot: nat, f: Word)
  {
    plt + STUB_SIZE < M64 && slot < M64 && Inside(img, plt, STUB_SIZE) && Peek(img, plt, STUB_SIZE) == StubBytes(slot) &&
    Inside(img, slot, 8) && Wide(img, slot) == f
  }

  /** The four steps of the stub. */
  lemma StubActs(img: Image, sizes: Word -> nat, plt: nat, slot: nat, f: Word, m: Machine)
    requires StubLinked(img, plt, slot, f)
    ensures m.pc == plt ==> Act(img, sizes, m) == Some(Work(m.(reg := m.reg[6 := slot], pc := plt + 16)))
    ensures m.pc == plt + 16 && m.reg[6] == slot ==> Act(img, sizes, m) == Some(Work(m.(reg := m.reg[6 := f], pc := plt + 24)))
    ensures m.pc == plt + 24 && m.reg[6] == f ==> Act(img, sizes, m) == Some(Call(f, plt + 32, sizes(f)))
    ensures m.pc == plt + 32 ==> Act(img, sizes, m) == Some(Return)
  {
    hide StubBytes, Decode, Wide, FromLe, Peek;
    StubDecodes(slot);
    ExitRegisters(slot);
    PeekPart(img, plt, STUB_SIZE, 0);
    PeekPart(img, plt, STUB_SIZE, 8);
    PeekPart(img, plt, STUB_SIZE, 16);
    PeekPart(img, plt, STUB_SIZE, 24);
    PeekPart(img, plt, STUB_SIZE, 32);
  }

  lemma PeekPart(img: Image, a: nat, n: nat, k: nat)
    requires Inside(img, a, n) && k + 8 <= n
    ensures Peek(img, a + k, 8) == Peek(img, a, n)[k..k + 8]
  {
    var q := a - img.base;
    SliceOfSlice(img.bytes, q, q + n, k, k + 8);
  }

  lemma ExitRegisters(slot: nat)
    requires slot < M64
    ensures var b := StubBytes(slot);
            var i3, i4 := Decode(b[24..32]), Decode(b[32..40]);
            i3.src == 0 && i4.dst == 0 && i4.src == 0
  {
    hide Le, FromLe;
    var b := StubBytes(slot);
    assert b[24..32] == [0x8d, 0x06, 0, 0, 0, 0, 0, 0];
    assert b[32..40] == [0x95, 0, 0, 0, 0, 0, 0, 0];
  }

  /**
   * Transparency. In any run, call a stub whose GOT slot holds `f` and let
   * the interpreter execute it: it enters `f` with the caller's r0..r5, and
   * once the function has returned, the stub's exit leads back behind the call
   * with r6..r10 intact, although the stub overwrote r6, and r0..r5 as the
   * function left them.
   */
  lemma StubTransparent(tr: seq<Conf>, acts: seq<Action>, i: nat, j: nat, img: Image, sizes: Word -> nat,
                        plt: Word, slot: nat, f: Word, ret: Word, size: nat)
    requires Run(tr, acts) && i + 4 < j && j + 1 < |acts| && StubLinked(img, plt, slot, f)
    requires acts[i] == Call(plt, ret, size) && acts[j] == Return
    requires forall k :: i < k <= i + 3 || k == j + 1 ==> Act(img, sizes, tr[k].m) == Some(acts[k])
    requires |tr[j + 1].fs| == |tr[i + 3].fs| && forall k :: i + 3 < k <= j ==> |tr[i + 3].fs| < |tr[k].fs|
    ensures acts[i + 3] == Call(f, plt + 32, sizes(f)) && tr[i + 4].m.pc == f && tr[i + 4].m.reg[0..6] == tr[i].m.reg[0..6]
    ensures tr[j + 2].m.pc == ret && tr[j + 2].m.reg[6..11] == tr[i].m.reg[6..11] && tr[j + 2].m.reg[0..6] == tr[j].m.reg[0..6]
  {
    hide Chain, Pop, Push, GuestWork, Act, StubLinked;
    StubEnters(tr, acts, i, img, sizes, plt, slot, f, ret, size);
    CallReturns(tr, acts, i + 3, j, f, plt + 32, sizes(f));
    StubActs(img, sizes, plt, slot, f, tr[j + 1].m);
    assert Act(img, sizes, tr[j + 1].m) == Some(acts[j + 1]);
    assert acts[j + 1] == Return;
    assert Step(tr[j + 1], acts[j + 1], tr[j + 2]);
    assert forall k :: i < k <= j + 1 ==> |tr[i].fs| < |tr[k].fs|;
    CallReturns(tr, acts, i, j + 1, plt, ret, size);
  }

  lemma StubEnters(tr: seq<Conf>, acts: seq<Action>, i: nat, img: Image, sizes: Word -> nat,
                   plt: Word, slot: nat, f: Word, ret: Word, size: nat)
    requires Run(tr, acts) && i + 3 < |acts| && StubLinked(img, plt, slot, f)
    requires acts[i] == Call(plt, ret, size)
    requires forall k :: i < k <= i + 3 ==> Act(img, sizes, tr[k].m) == Some(acts[k])
    ensures acts[i + 3] == Call(f, plt + 32, sizes(f)) && tr[i + 4].m.pc == f && tr[i + 4].m.reg[0..6] == tr[i].m.reg[0..6]
    ensures |tr[i + 1].fs| == |tr[i + 2].fs| == |tr[i + 3].fs| == |tr[i].fs| + 1
  {
    hide Chain, Pop, Push, GuestWork, Act, StubLinked;
    StubActs(img, sizes, plt, slot, f, tr[i + 1].m);
    StubActs(img, sizes, plt, slot, f, tr[i + 2].m);
    StubActs(img, sizes, plt, slot, f, tr[i + 3].m);
    assert Step(tr[i], acts[i], tr[i + 1]) && Step(tr[i + 1], acts[i + 1], tr[i + 2]);
    assert Step(tr[i + 2], acts[i + 2], tr[i + 3]) && Step(tr[i + 3], acts[i + 3], tr[i + 4]);
    PushKeepsLow(tr[i].m, ret, size);
    PushKeepsLow(tr[i + 3].m, plt + 32, sizes(f));
    assert tr[i + 3].m.reg[0..6] == tr[i + 1].m.reg[0..6];
  }

  lemma PushKeepsLow(m: Machine, ret: Word, size: nat)
    requires Push(m, ret, size, false, false).Some?
    ensures Push(m, ret, size, false, false).value.reg[0..6] == m.reg[0..6]
  {
    hide StoreAll, Load, Header;
  }
}
