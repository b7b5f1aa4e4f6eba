/**
 * Location lists as DWARF 5 writes them (sections 7.7.3 and 7.29): seven kinds
 * of entries with their numbers, addresses and expressions. What the rebuilt
 * .debug_loclists says is said in these terms.
 */
module LocListMeaning {
  import opened Leb128
  import opened ByteVectors
  import opened LocationExpr
  import opened LocLists

  type Address = a: int | 0 <= a < 0x1_0000_0000_0000_0000

  datatype Location =
    | BaseAddressx(index: nat)
    | StartxEndx(startx: nat, endx: nat, expr: Bytes)
    | StartEnd(start: Address, end: Address, expr: Bytes)
    | OffsetPair(first: nat, last: nat, expr: Bytes)
    | DefaultLocation(expr: Bytes)
    | BaseAddress(base: Address)
    | StartxLength(startx: nat, length: nat, expr: Bytes)

  // ---------------------------------------------------------------------------
  // The standard's encoding; numbers may be padded
  // ---------------------------------------------------------------------------

  /** `s` is one ULEB128 number. */
  predicate IsNumber(s: Bytes, n: nat)
  {
    Terminated(s) && DecodeUnsigned(s) == Decoded(n, |s|)
  }

  /** `s` is a counted expression. */
  predicate IsCounted(s: Bytes, x: Bytes)
  {
    Terminated(s) && DecodeUnsigned(s).value == |x| && s[DecodeUnsigned(s).len..] == x
  }

  /** `s` is two ULEB128 numbers and a counted expression. */
  predicate IsNumbersExpr(s: Bytes, m: nat, n: nat, x: Bytes)
  {
    Terminated(s) && DecodeUnsigned(s).value == m &&
    var t := s[DecodeUnsigned(s).len..];
    Terminated(t) && DecodeUnsigned(t).value == n && IsCounted(t[DecodeUnsigned(t).len..], x)
  }

  /** `b` is the entry `l`: the code of section 7.7.3 and its operands. */
  predicate Written(b: Bytes, l: Location)
  {
    b != [] &&
    match l
    case BaseAddressx(n) => b[0] == 0x01 && IsNumber(b[1..], n)
    case StartxEndx(m, n, x) => b[0] == 0x02 && IsNumbersExpr(b[1..], m, n, x)
    case StartEnd(m, n, x) => b[0] == 0x03 && |b| >= 17 && b[1..9] == Le(8, m) && b[9..17] == Le(8, n) && IsCounted(b[17..], x)
    case OffsetPair(m, n, x) => b[0] == 0x04 && IsNumbersExpr(b[1..], m, n, x)
    case DefaultLocation(x) => b[0] == 0x05 && IsCounted(b[1..], x)
    case BaseAddress(m) => b[0] == 0x06 && b[1..] == Le(8, m)
    case StartxLength(m, n, x) => b[0] == 0x07 && IsNumbersExpr(b[1..], m, n, x)
  }

  /** `b` is the list `ls`, closed by the end-of-list entry 0. */
  ghost predicate WrittenList(b: Bytes, ls: seq<Location>)
    decreases |ls|
  {
    if ls == [] then b == [0]
    else exists k :: 0 < k <= |b| && Written(b[..k], ls[0]) && WrittenList(b[k..], ls[1..])
  }

  /** Index `i` of a contribution leads to the list `ls`. */
  ghost predicate WrittenAt(c: Bytes, count: nat, i: nat, ls: seq<Location>)
    requires i < count && 12 + 4 * count <= |c|
  {
    var off := FromLe(c[12 + 4 * i..12 + 4 * i + 4]);
    4 * count <= off && 12 + off <= |c| &&
    var tail := c[12 + off..];
    exists n :: StartsWith(tail, n, ls)
  }

  /** The first `n` bytes of `s` are the list `ls`. */
  ghost predicate StartsWith(s: Bytes, n: int, ls: seq<Location>)
  {
    0 <= n <= |s| && WrittenList(s[..n], ls)
  }

  /** `c` is a contribution: unit_length, version 5, address size 8, no segment selectors, offset count, offsets, lists. */
  ghost predicate WrittenContribution(c: Bytes, lss: seq<seq<Location>>)
  {
    12 + 4 * |lss| <= |c| < 0x1_0000_0000 && c[..4] == Le(4, |c| - 4) && c[4..8] == [5, 0, 8, 0] && c[8..12] == Le(4, |lss|) &&
    forall i :: 0 <= i < |lss| ==> WrittenAt(c, |lss|, i, lss[i])
  }

  /** What an entry read back stands for. */
  predicate Denotes(e: Entry, l: Location)
  {
    Written(EncodeEntry(e), l)
  }

  predicate DenoteAll(es: seq<Entry>, ls: seq<Location>)
  {
    |es| == |ls| && forall i :: 0 <= i < |es| ==> Denotes(es[i], ls[i])
  }

  // ---------------------------------------------------------------------------
  // The reader understands it
  // ---------------------------------------------------------------------------

  lemma CountedFront(s: Bytes, x: Bytes, rest: Bytes)
    requires IsCounted(s, x)
    ensures var t := s + rest;
            var d := DecodeUnsigned(t);
            Terminated(t) && d == DecodeUnsigned(s) && d.len + d.value == |s| && t[d.len..d.len + d.value] == x
  {
    hide DecodeUnsigned, Terminated;
    NumberFront(s, rest);
    TailSlice(s, rest, DecodeUnsigned(s).len, x);
  }

  lemma TailSlice(s: Bytes, rest: Bytes, n: nat, x: Bytes)
    requires n <= |s| && s[n..] == x
    ensures |s| == n + |x| && (s + rest)[n..n + |x|] == x
  {
  }

  lemma NumberFront(s: Bytes, rest: Bytes)
    requires Terminated(s)
    ensures Terminated(s + rest) && DecodeUnsigned(s + rest) == DecodeUnsigned(s)
  {
    var d := DecodeUnsigned(s);
    UnsignedLocal(s, s[d.len..] + rest);
    assert s[..d.len] + (s[d.len..] + rest) == s + rest;
  }

  /** Two numbers and an expression, whatever follows. */
  lemma NumbersExprFront(s: Bytes, m: nat, n: nat, x: Bytes, rest: Bytes)
    requires IsNumbersExpr(s, m, n, x)
    ensures var k := UlebsLength(2, s + rest);
            k.Some? && k.value <= |s| && k == UlebsLength(2, s[..k.value]) && IsCounted(s[k.value..], x)
    ensures forall t, y :: IsCounted(t, y) ==> IsNumbersExpr(s[..UlebsLength(2, s + rest).value] + t, m, n, y)
  {
    hide DecodeUnsigned, Terminated;
    var a := DecodeUnsigned(s).len;
    var t := s[a..];
    var b := DecodeUnsigned(t).len;
    NumberFront(s, rest);
    NumberFront(t, rest);
    assert (s + rest)[a..] == t + rest;
    UlebsTwo(s + rest);
    UlebsLocal(2, s + rest, []);
    assert (s + rest)[..a + b] + [] == s[..a + b];
    assert s[a + b..] == t[b..];
    forall u, y | IsCounted(u, y)
      ensures IsNumbersExpr(s[..a + b] + u, m, n, y)
    {
      TwoNumbers(s, u);
    }
  }

  lemma UlebsFirst(n: nat, s: Bytes)
    requires n > 0
    ensures var t := s[DecodeUnsigned(s).len..];
            UlebsLength(n, s) ==
            if Terminated(s) && UlebsLength(n - 1, t).Some? then Some(DecodeUnsigned(s).len + UlebsLength(n - 1, t).value) else None
  {
    hide DecodeUnsigned, Terminated;
  }

  lemma UlebsTwo(s: Bytes)
    requires Terminated(s) && Terminated(s[DecodeUnsigned(s).len..])
    ensures UlebsLength(2, s) == Some(DecodeUnsigned(s).len + DecodeUnsigned(s[DecodeUnsigned(s).len..]).len)
  {
    hide DecodeUnsigned, Terminated, UlebsLength;
    UlebsFirst(2, s);
    UlebsOne(s[DecodeUnsigned(s).len..]);
  }

  /** Two numbers keep their values before another rest. */
  lemma TwoNumbers(s: Bytes, u: Bytes)
    requires Terminated(s) && Terminated(s[DecodeUnsigned(s).len..])
    ensures var a := DecodeUnsigned(s).len;
            var b := DecodeUnsigned(s[a..]).len;
            var v := s[..a + b] + u;
            Terminated(v) && DecodeUnsigned(v) == DecodeUnsigned(s) &&
            Terminated(v[a..]) && DecodeUnsigned(v[a..]) == DecodeUnsigned(s[a..]) && v[a..][b..] == u
  {
    hide DecodeUnsigned, Terminated;
    var a := DecodeUnsigned(s).len;
    var t := s[a..];
    var b := DecodeUnsigned(t).len;
    var v := s[..a + b] + u;
    UnsignedLocal(s, s[a..a + b] + u);
    assert s[..a] + (s[a..a + b] + u) == v;
    UnsignedLocal(t, u);
    assert t[..b] + u == v[a..];
  }

  lemma CountedAgain(x: Bytes)
    ensures IsCounted(EncodeUnsigned(|x|) + x, x)
  {
    UnsignedRoundTrip(|x|, x);
  }

  lemma PlainReads(b: Bytes, l: Location, rest: Bytes)
    requires Written(b, l) && (l.BaseAddressx? || l.BaseAddress?)
    ensures ReadEntry(b + rest) == EntryAt(Entry(b[0], b[1..], None), |b|) && Denotes(Entry(b[0], b[1..], None), l)
  {
    hide DecodeUnsigned, Terminated, Le;
    var s := b + rest;
    assert s[1..] == b[1..] + rest;
    assert s[1..][..|b| - 1] == b[1..];
    assert EncodeEntry(Entry(b[0], b[1..], None)) == b;
    if l.BaseAddressx? {
      NumberFront(b[1..], rest);
      UlebsOne(s[1..]);
    }
  }

  lemma UlebsOne(s: Bytes)
    requires Terminated(s)
    ensures UlebsLength(1, s) == Some(DecodeUnsigned(s).len)
  {
    hide DecodeUnsigned, Terminated;
    assert UlebsLength(0, s[DecodeUnsigned(s).len..]) == Some(0);
  }

  /** An entry with operands of `k` bytes and an expression. */
  lemma ExprReads(b: Bytes, k: nat, x: Bytes, rest: Bytes)
    requires b != [] && 1 + k <= |b| && HasExpr(ShapeOf(b[0])) && IsCounted(b[1 + k..], x)
    requires OperandsLength(ShapeOf(b[0]), b[1..] + rest) == Some(k)
    ensures ReadEntry(b + rest) == EntryAt(Entry(b[0], b[1..1 + k], Some(x)), |b|)
  {
    hide OperandsLength, DecodeUnsigned, Terminated, ShapeOf, HasExpr;
    var s := b + rest;
    assert s[1..] == b[1..] + rest;
    assert s[1..][..k] == b[1..1 + k];
    assert s[1 + k..] == b[1 + k..] + rest;
    CountedFront(b[1 + k..], x, rest);
  }

  lemma NumbersReads(b: Bytes, l: Location, m: nat, n: nat, x: Bytes, rest: Bytes) returns (e: Entry)
    requires Written(b, l) && (l.StartxEndx? || l.OffsetPair? || l.StartxLength?) && IsNumbersExpr(b[1..], m, n, x)
    requires ShapeOf(b[0]) == TwoUlebsExpr
    ensures ReadEntry(b + rest) == EntryAt(e, |b|) && e.code == b[0] && e.expr == Some(x)
    ensures forall y :: IsNumbersExpr(EncodeEntry(e.(expr := Some(y)))[1..], m, n, y)
  {
    hide DecodeUnsigned, Terminated, IsNumbersExpr, ReadEntry, UlebsLength, IsCounted;
    NumbersExprFront(b[1..], m, n, x, rest);
    var k := UlebsLength(2, b[1..] + rest).value;
    assert b[1..][k..] == b[1 + k..];
    ExprReads(b, k, x, rest);
    e := Entry(b[0], b[1..1 + k], Some(x));
    assert b[1..][..k] == b[1..1 + k];
    forall y
      ensures IsNumbersExpr(EncodeEntry(e.(expr := Some(y)))[1..], m, n, y)
    {
      CountedAgain(y);
      assert EncodeEntry(e.(expr := Some(y)))[1..] == b[1..1 + k] + (EncodeUnsigned(|y|) + y);
    }
  }

  /** The entry `l` with another expression. */
  function WithExpr(l: Location, y: Bytes): Location
  {
    match l
    case BaseAddressx(_) => l
    case StartxEndx(m, n, _) => StartxEndx(m, n, y)
    case StartEnd(m, n, _) => StartEnd(m, n, y)
    case OffsetPair(m, n, _) => OffsetPair(m, n, y)
    case DefaultLocation(_) => DefaultLocation(y)
    case BaseAddress(_) => l
    case StartxLength(m, n, _) => StartxLength(m, n, y)
  }

  function ExprOf(l: Location): Option<Bytes>
  {
    if l.BaseAddressx? || l.BaseAddress? then None else Some(l.expr)
  }

  /** A written entry is read whole, and stands for the same location with whatever expression is put in. */
  lemma EntryReads(b: Bytes, l: Location, rest: Bytes) returns (e: Entry)
    requires Written(b, l)
    ensures ReadEntry(b + rest) == EntryAt(e, |b|) && e.code == b[0] != 0 && e.expr == ExprOf(l) && Denotes(e, l)
    ensures e.expr.Some? ==> forall y :: Denotes(e.(expr := Some(y)), WithExpr(l, y))
  {
    hide DecodeUnsigned, Terminated, IsNumbersExpr, ReadEntry, UlebsLength, IsCounted, IsNumber, EncodeEntry, Le;
    match l {
      case BaseAddressx(_) =>
        PlainReads(b, l, rest);
        e := Entry(b[0], b[1..], None);
      case BaseAddress(_) =>
        PlainReads(b, l, rest);
        e := Entry(b[0], b[1..], None);
      case StartxEndx(m, n, x) =>
        e := NumbersReads(b, l, m, n, x, rest);
        NumbersDenote(e, l, m, n);
      case OffsetPair(m, n, x) =>
        e := NumbersReads(b, l, m, n, x, rest);
        NumbersDenote(e, l, m, n);
      case StartxLength(m, n, x) =>
        e := NumbersReads(b, l, m, n, x, rest);
        NumbersDenote(e, l, m, n);
      case DefaultLocation(x) =>
        assert b[1 + 0..] == b[1..];
        ExprReads(b, 0, x, rest);
        e := Entry(b[0], b[1..1 + 0], Some(x));
        FixedDenotes(b, l, 0, x);
      case StartEnd(_, _, x) =>
        ExprReads(b, 16, x, rest);
        e := Entry(b[0], b[1..1 + 16], Some(x));
        FixedDenotes(b, l, 16, x);
    }
    if e.expr.Some? {
      assert e.(expr := Some(e.expr.value)) == e && WithExpr(l, e.expr.value) == l;
    }
  }

  lemma NumbersDenote(e: Entry, l: Location, m: nat, n: nat)
    requires (l.StartxEndx? && l.startx == m && l.endx == n && e.code == 2) || (l.OffsetPair? && l.first == m && l.last == n && e.code == 4) ||
             (l.StartxLength? && l.startx == m && l.length == n && e.code == 7)
    requires forall y :: IsNumbersExpr(EncodeEntry(e.(expr := Some(y)))[1..], m, n, y)
    ensures forall y :: Denotes(e.(expr := Some(y)), WithExpr(l, y))
  {
    hide IsNumbersExpr;
    forall y
      ensures Denotes(e.(expr := Some(y)), WithExpr(l, y))
    {
      assert EncodeEntry(e.(expr := Some(y)))[0] == e.code;
    }
  }

  lemma FixedDenotes(b: Bytes, l: Location, k: nat, x: Bytes)
    requires Written(b, l) && ((l.DefaultLocation? && k == 0) || (l.StartEnd? && k == 16))
    ensures forall y :: Denotes(Entry(b[0], b[1..1 + k], Some(y)), WithExpr(l, y))
  {
    hide IsCounted, Le;
    forall y
      ensures Denotes(Entry(b[0], b[1..1 + k], Some(y)), WithExpr(l, y))
    {
      var v := EncodeEntry(Entry(b[0], b[1..1 + k], Some(y)));
      CountedAgain(y);
      assert v[1 + k..] == EncodeUnsigned(|y|) + y;
      if k == 16 {
        assert v[1..17] == b[1..17];
        SameSlice(v, b, 1, 17, 1, 9);
        SameSlice(v, b, 1, 17, 9, 17);
      }
    }
  }

  /** A written list is read whole, entry for entry. */
  lemma {:induction false} ListReads(b: Bytes, ls: seq<Location>, rest: Bytes)
    requires WrittenList(b, ls)
    ensures var r := ReadList(b + rest); r.ListAt? && r.len == |b| && DenoteAll(r.entries, ls)
    decreases |ls|
  {
    hide Written, ReadEntry, Denotes;
    if ls == [] {
      assert (b + rest)[0] == 0;
    } else {
      var k :| 0 < k <= |b| && Written(b[..k], ls[0]) && WrittenList(b[k..], ls[1..]);
      var e := EntryReads(b[..k], ls[0], b[k..] + rest);
      assert b[..k] + (b[k..] + rest) == b + rest;
      ListReads(b[k..], ls[1..], rest);
      assert (b + rest)[k..] == b[k..] + rest;
      assert (b + rest)[0] == b[..k][0];
    }
  }

  // ---------------------------------------------------------------------------
  // The correction
  // ---------------------------------------------------------------------------

  /** Without a frame size the expression stays; otherwise every DW_OP_breg10 (0x7a) offset is reduced by it. */
  ghost predicate ExprCorrected(x: Bytes, y: Bytes, frame: Option<nat>)
  {
    if frame.None? then y == x
    else forall ops :: Encodes(0x7a, x, ops) ==> Encodes(0x7a, y, AdjustOps(ops, frame.value))
  }

  /** The same entry with its expression corrected. */
  ghost predicate Corrected(l: Location, l': Location, frame: Option<nat>)
  {
    if ExprOf(l).None? then l' == l
    else ExprOf(l').Some? && l' == WithExpr(l, l'.expr) && ExprCorrected(l.expr, l'.expr, frame)
  }

  ghost predicate AllCorrected(ls: seq<Location>, ls': seq<Location>, frame: Option<nat>)
  {
    |ls'| == |ls| && forall i :: 0 <= i < |ls| ==> Corrected(ls[i], ls'[i], frame)
  }

  lemma NewExprCorrected(x: Bytes, frame: Option<nat>)
    ensures ExprCorrected(x, NewExpr(x, frame), frame)
  {
    hide RewriteExpr, Encodes;
    if frame.Some? {
      forall ops | Encodes(0x7a, x, ops)
        ensures Encodes(0x7a, NewExpr(x, frame), AdjustOps(ops, frame.value))
      {
        RewriteExprMeaning(0x7a, x, ops, frame.value);
      }
    }
  }

  /** Where the pass sees nothing to do there is nothing to do. */
  lemma SameExprCorrected(x: Bytes, frame: Option<nat>)
    requires frame.Some? && frame.value != 0 ==> !HasOperand(OP_BREG10, x)
    ensures ExprCorrected(x, x, frame)
  {
    hide HasOperand, Encodes;
    if frame.Some? {
      forall ops | Encodes(0x7a, x, ops)
        ensures Encodes(0x7a, x, AdjustOps(ops, frame.value))
      {
        if frame.value != 0 {
          NoneBased(x, ops);
        }
        assert AdjustOps(ops, frame.value) == ops;
      }
    }
  }

  lemma {:induction false} NoneBased(x: Bytes, ops: seq<Operator>)
    requires Encodes(0x7a, x, ops) && !HasOperand(0x7a, x)
    ensures forall i :: 0 <= i < |ops| ==> ops[i].Other?
    decreases |ops|
  {
    if ops != [] && ops[0].Other? {
      NoOperandBehind(0x7a, x, |ops[0].bytes|);
      NoneBased(x[|ops[0].bytes|..], ops[1..]);
    }
  }

  lemma {:induction false} NoOperandBehind(op: Byte, x: Bytes, n: nat)
    requires !HasOperand(op, x) && n <= |x|
    ensures !HasOperand(op, x[n..])
    decreases n
  {
    if n > 0 {
      NoOperandBehind(op, x[1..], n - 1);
      assert x[1..][n - 1..] == x[n..];
    } else {
      assert x[0..] == x;
    }
  }

  lemma EntryCorrected(b: Bytes, l: Location, frame: Option<nat>, rest: Bytes) returns (l': Location)
    requires Written(b, l)
    ensures var e := ReadEntry(b + rest);
            e.EntryAt? && Denotes(NewEntry(e.entry, frame), l') && Corrected(l, l', frame) &&
            (!EntryNeedsFix(e.entry, frame) ==> Corrected(l, l, frame))
  {
    hide Written, ReadEntry, NewExpr, Denotes, ExprCorrected, HasOperand;
    var e := EntryReads(b, l, rest);
    if e.expr.Some? {
      var y := NewExpr(e.expr.value, frame);
      l' := WithExpr(l, y);
      NewExprCorrected(l.expr, frame);
      assert NewEntry(e, frame) == e.(expr := Some(y));
      if !EntryNeedsFix(e, frame) { SameExprCorrected(l.expr, frame); }
    } else {
      l' := l;
    }
  }

  /** The rebuilt list is a list of the standard: the same entries, corrected. */
  lemma {:induction false} RebuiltListWritten(b: Bytes, ls: seq<Location>, frame: Option<nat>, rest: Bytes)
    returns (ls': seq<Location>)
    requires WrittenList(b, ls)
    ensures var r := ReadList(b + rest);
            r.ListAt? && WrittenList(EncodeList(NewEntries(r.entries, frame)), ls') && AllCorrected(ls, ls', frame) &&
            (!ListNeedsFix(r.entries, frame) ==> AllCorrected(ls, ls, frame))
    decreases |ls|
  {
    hide Written, ReadEntry, Denotes, Corrected, EntryNeedsFix, EncodeEntry, NewEntry;
    var s := b + rest;
    if ls == [] {
      assert s[0] == 0;
      ls' := [];
    } else {
      var k :| 0 < k <= |b| && Written(b[..k], ls[0]) && WrittenList(b[k..], ls[1..]);
      assert b[..k] + (b[k..] + rest) == s;
      var e := EntryReads(b[..k], ls[0], b[k..] + rest);
      var l := EntryCorrected(b[..k], ls[0], frame, b[k..] + rest);
      assert s[k..] == b[k..] + rest;
      assert s[0] == b[..k][0];
      var tail := RebuiltListWritten(b[k..], ls[1..], frame, rest);
      var es, rs := ReadList(s).entries, ReadList(s[k..]).entries;
      assert es == [e] + rs;
      ls' := [l] + tail;
      ListFront(e, rs, l, tail, frame);
      if !ListNeedsFix(es, frame) {
        NothingBehind(e, rs, frame);
        SameFront(ls, frame);
      }
    }
  }

  lemma NothingBehind(e: Entry, rs: seq<Entry>, frame: Option<nat>)
    requires !ListNeedsFix([e] + rs, frame)
    ensures !EntryNeedsFix(e, frame) && !ListNeedsFix(rs, frame)
  {
    hide EntryNeedsFix;
    var es := [e] + rs;
    assert !EntryNeedsFix(es[0], frame);
    assert forall i :: 0 <= i < |rs| ==> rs[i] == es[i + 1];
  }

  lemma SameFront(ls: seq<Location>, frame: Option<nat>)
    requires ls != [] && Corrected(ls[0], ls[0], frame) && AllCorrected(ls[1..], ls[1..], frame)
    ensures AllCorrected(ls, ls, frame)
  {
    hide Corrected;
    forall i | 0 < i < |ls|
      ensures Corrected(ls[i], ls[i], frame)
    {
      assert Corrected(ls[1..][i - 1], ls[1..][i - 1], frame);
    }
  }

  lemma ListFront(e: Entry, rs: seq<Entry>, l: Location, tail: seq<Location>, frame: Option<nat>)
    requires Denotes(NewEntry(e, frame), l) && WrittenList(EncodeList(NewEntries(rs, frame)), tail)
    ensures WrittenList(EncodeList(NewEntries([e] + rs, frame)), [l] + tail)
  {
    hide Written, NewEntry;
    var ns := NewEntries([e] + rs, frame);
    assert ns[1..] == NewEntries(rs, frame);
    var first, b := EncodeEntry(ns[0]), EncodeList(ns);
    assert b[..|first|] == first && b[|first|..] == EncodeList(ns[1..]);
    assert ([l] + tail)[1..] == tail;
  }

  // ---------------------------------------------------------------------------
  // Contributions and the section
  // ---------------------------------------------------------------------------

  lemma Word(s: Bytes, v: nat)
    requires s == Le(4, v) && v < 0x1_0000_0000
    ensures FromLe(s) == v
  {
    assert Pow256(4) == 0x1_0000_0000;
    LeRoundTrip(4, v);
  }

  /** A written contribution is accepted, and a lookup finds its lists. */
  lemma ContributionReads(c: Bytes, lss: seq<seq<Location>>)
    requires WrittenContribution(c, lss)
    ensures IsContribution(c) && Count(c) == |lss| && AllListsRead(c)
    ensures forall i :: 0 <= i < |lss| ==> DenoteAll(LookupIn(c, i).entries, lss[i])
  {
    hide Le, FromLe, ReadList, WrittenList, DenoteAll;
    Word(c[..4], |c| - 4);
    Word(c[8..12], |lss|);
    forall i | 0 <= i < |lss|
      ensures 12 + 4 * |lss| <= ListStart(c, i) && LookupIn(c, i).ListAt? && DenoteAll(LookupIn(c, i).entries, lss[i])
    {
      var b, rest := ListBytes(c, lss, i);
      ListReads(b, lss[i], rest);
    }
  }

  /** The bytes of list `i`. */
  lemma ListBytes(c: Bytes, lss: seq<seq<Location>>, i: nat) returns (b: Bytes, rest: Bytes)
    requires WrittenContribution(c, lss) && i < |lss|
    ensures IsContribution(c) && Count(c) == |lss| && 12 + 4 * |lss| <= ListStart(c, i) <= |c|
    ensures c[ListStart(c, i)..] == b + rest && WrittenList(b, lss[i])
  {
    hide Le, FromLe, WrittenList;
    Word(c[..4], |c| - 4);
    Word(c[8..12], |lss|);
    assert WrittenAt(c, |lss|, i, lss[i]);
    var tail := c[ListStart(c, i)..];
    var n :| StartsWith(tail, n, lss[i]);
    b, rest := tail[..n], tail[n..];
  }

  ghost predicate ListsCorrected(lss: seq<seq<Location>>, lss': seq<seq<Location>>, base: nat, frames: map<nat, nat>)
  {
    |lss'| == |lss| && forall i :: 0 <= i < |lss| ==> AllCorrected(lss[i], lss'[i], FrameOf(frames, base + i))
  }

  /** The corrected list `i`, in bytes. */
  lemma NewListWritten(c: Bytes, lss: seq<seq<Location>>, base: nat, frames: map<nat, nat>, i: nat) returns (ls': seq<Location>)
    requires WrittenContribution(c, lss) && i < |lss|
    ensures IsContribution(c) && Count(c) == |lss| && AllListsRead(c)
    ensures WrittenList(NewLists(c, base, frames)[i], ls') && AllCorrected(lss[i], ls', FrameOf(frames, base + i))
    ensures !AnyNeedsFix(c, base, frames) ==> AllCorrected(lss[i], lss[i], FrameOf(frames, base + i))
  {
    hide WrittenContribution, ReadList, WrittenList, EncodeList, NewEntries, AllCorrected, ListNeedsFix;
    ContributionReads(c, lss);
    var b, rest := ListBytes(c, lss, i);
    ls' := RebuiltListWritten(b, lss[i], FrameOf(frames, base + i), rest);
    assert LookupIn(c, i) == ReadList(b + rest);
    assert !AnyNeedsFix(c, base, frames) ==> !ListNeedsFix(LookupIn(c, i).entries, FrameOf(frames, base + i));
  }

  /** The rewritten contribution is again one of the standard, with the same lists corrected. */
  lemma NewContributionWritten(c: Bytes, lss: seq<seq<Location>>, base: nat, frames: map<nat, nat>)
    returns (lss': seq<seq<Location>>)
    requires WrittenContribution(c, lss) && IsContribution(c) && |NewContribution(c, base, frames)| < 0x1_0000_0000
    ensures WrittenContribution(NewContribution(c, base, frames), lss') && ListsCorrected(lss, lss', base, frames)
  {
    hide WrittenContribution, NewLists, Rebuild, AllCorrected, WrittenList, IsContribution, AllListsRead, AnyNeedsFix;
    ContributionReads(c, lss);
    if AnyNeedsFix(c, base, frames) {
      HasLists(c, base, frames);
      lss' := Gather(c, lss, base, frames, |lss|);
      RebuiltWritten(c, lss, NewLists(c, base, frames), lss');
    } else {
      forall i | 0 <= i < |lss|
        ensures AllCorrected(lss[i], lss[i], FrameOf(frames, base + i))
      {
        var _ := NewListWritten(c, lss, base, frames, i);
      }
      lss' := lss;
    }
  }

  lemma HasLists(c: Bytes, base: nat, frames: map<nat, nat>)
    requires IsContribution(c) && AllListsRead(c) && AnyNeedsFix(c, base, frames)
    ensures Count(c) > 0
  {
  }

  lemma {:induction false} Gather(c: Bytes, lss: seq<seq<Location>>, base: nat, frames: map<nat, nat>, n: nat)
    returns (lss': seq<seq<Location>>)
    requires WrittenContribution(c, lss) && n <= |lss|
    ensures IsContribution(c) && Count(c) == |lss| && AllListsRead(c) && |lss'| == n
    ensures forall i :: 0 <= i < n ==> WrittenList(NewLists(c, base, frames)[i], lss'[i]) &&
                                       AllCorrected(lss[i], lss'[i], FrameOf(frames, base + i))
    decreases n
  {
    hide WrittenContribution, NewLists, AllCorrected, WrittenList, IsContribution, AllListsRead;
    ContributionReads(c, lss);
    if n == 0 {
      lss' := [];
    } else {
      var init := Gather(c, lss, base, frames, n - 1);
      var last := NewListWritten(c, lss, base, frames, n - 1);
      lss' := init + [last];
    }
  }

  lemma RebuiltWritten(c: Bytes, lss: seq<seq<Location>>, lists: seq<Bytes>, lss': seq<seq<Location>>)
    requires WrittenContribution(c, lss) && |lists| == |lss'| == |lss| && |Rebuild(c, lists)| < 0x1_0000_0000
    requires lss != [] && forall i :: 0 <= i < |lists| ==> WrittenList(lists[i], lss'[i])
    ensures WrittenContribution(Rebuild(c, lists), lss')
  {
    hide Rebuild, WrittenList, Le, FromLe, Concat, SizeBefore;
    Word(c[8..12], |lss|);
    var r := Rebuild(c, lists);
    RebuildPlace(c, lists, 0);
    SameSlice(r, c, 4, 12, 4, 8);
    SameSlice(r, c, 4, 12, 8, 12);
    forall i | 0 <= i < |lss'|
      ensures WrittenAt(r, |lss'|, i, lss'[i])
    {
      RebuildPlace(c, lists, i);
      var off := 4 * |lists| + SizeBefore(lists, i);
      assert FromLe(r[12 + 4 * i..12 + 4 * i + 4]) == off;
      var tail := r[12 + off..];
      assert tail[..|lists[i]|] == lists[i];
      assert StartsWith(tail, |lists[i]|, lss'[i]);
    }
  }

  /**
   * Main result, in the standard's terms. Let contribution `k` of
   * .debug_loclists be written as DWARF 5 says, with the lists `lss`. Then the
   * bytes at its remapped base are again such a contribution, and list `i` of
   * it has the same entries, kinds, numbers and addresses, with every
   * DW_OP_breg10 offset reduced by the frame size recorded for list `i`.
   */
  lemma SectionWritten(src: Bytes, cs: seq<Span>, frames: map<nat, nat>, k: nat, lss: seq<seq<Location>>)
    returns (c': Bytes, lss': seq<seq<Location>>)
    requires InOrder(cs, 0, |src|) && Accepted(src, cs) && k < |cs| && WrittenContribution(At(src, cs[k]), lss)
    requires |NewAt(src, cs[k], frames)| < 0x1_0000_0000
    ensures var m, out := Remap(src, cs, frames, |cs|), NewSection(src, cs, frames);
            var base := cs[k].start + 12;
            base in m && m[base] >= 12 && m[base] - 12 + |c'| <= |out| && out[m[base] - 12..m[base] - 12 + |c'|] == c' &&
            WrittenContribution(c', lss') && ListsCorrected(lss, lss', base, frames)
  {
    hide InOrder, IsContribution, AllListsRead, NewSection, NewStart, Remap, NewContribution, Count, WrittenContribution;
    RemapAt(src, cs, frames, |cs|, k);
    NewSectionHolds(src, cs, frames, k);
    c' := NewAt(src, cs[k], frames);
    lss' := NewContributionWritten(At(src, cs[k]), lss, Base(cs[k]), frames);
  }

  /** The same for what a lookup finds: corrected entries stand for corrected locations. */
  lemma CorrectedDenotes(before: ListAt, after: ListAt, frame: Option<nat>, ls: seq<Location>) returns (ls': seq<Location>)
    requires before.ListAt? && LocLists.ListCorrected(before, after, frame) && DenoteAll(before.entries, ls)
    requires forall i :: 0 <= i < |before.entries| ==> WellFormed(before.entries[i])
    ensures after.ListAt? && DenoteAll(after.entries, ls') && AllCorrected(ls, ls', frame)
  {
    hide Denotes, Corrected, NewEntry, EntryNeedsFix, WellFormed;
    ls' := [];
    for n := 0 to |ls|
      invariant |ls'| == n
      invariant forall i :: 0 <= i < n ==> Denotes(after.entries[i], ls'[i]) && Corrected(ls[i], ls'[i], frame)
    {
      var e := before.entries[n];
      assert Denotes(e, ls[n]);
      var l := DenotedCorrected(e, ls[n], frame);
      if after.entries == NewEntries(before.entries, frame) {
        ls' := ls' + [l];
      } else {
        assert !EntryNeedsFix(e, frame);
        ls' := ls' + [ls[n]];
      }
    }
  }

  lemma DenotedCorrected(e: Entry, l: Location, frame: Option<nat>) returns (l': Location)
    requires Denotes(e, l) && WellFormed(e)
    ensures Denotes(NewEntry(e, frame), l') && Corrected(l, l', frame) && (!EntryNeedsFix(e, frame) ==> Corrected(l, l, frame))
  {
    hide Written, ReadEntry, Corrected, EntryNeedsFix, NewEntry, EncodeEntry, WellFormed;
    l' := EntryCorrected(EncodeEntry(e), l, frame, []);
    EntryRoundTrip(e, []);
  }
}
