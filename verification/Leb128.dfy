/**
 * LEB128 numbers as the linker reads and writes them (section 7.6 of DWARF 5).
 *
 * Numbers are mathematical integers. A decoder that runs out of input keeps
 * what it has read so far, like the C++ loops do.
 */
module Leb128 {

  type Byte = b: int | 0 <= b < 256

  type Bytes = seq<Byte>

  datatype Decoded = Decoded(value: int, len: nat)

  // ---------------------------------------------------------------------------
  // Specification: encoders and decoders as functions on byte sequences.
  // ---------------------------------------------------------------------------

  function EncodeUnsigned(v: nat): (s: Bytes)
    ensures |s| >= 1
    decreases v
  {
    if v < 128 then [v] else [v % 128 + 128] + EncodeUnsigned(v / 128)
  }

  function DecodeUnsigned(s: Bytes): (d: Decoded)
    ensures 0 <= d.value && d.len <= |s|
    ensures s != [] ==> d.len >= 1
  {
    if s == [] then Decoded(0, 0)
    else if s[0] < 128 then Decoded(s[0], 1)
    else
      var rest := DecodeUnsigned(s[1..]);
      Decoded(s[0] - 128 + 128 * rest.value, 1 + rest.len)
  }

  function EncodeSigned(v: int): (s: Bytes)
    ensures |s| >= 1
    decreases if v < 0 then -v else v
  {
    var b := v % 128;
    var rest := v / 128;
    if (rest == 0 && b < 64) || (rest == -1 && b >= 64) then [b]
    else [b + 128] + EncodeSigned(rest)
  }

  function DecodeSigned(s: Bytes): (d: Decoded)
    ensures d.len <= |s|
    ensures s != [] ==> d.len >= 1
  {
    if s == [] then Decoded(0, 0)
    else
      var b: int := s[0];
      if b < 64 then Decoded(b, 1)
      else if b < 128 then Decoded(b - 128, 1)
      else
        var rest := DecodeSigned(s[1..]);
        Decoded(b - 128 + 128 * rest.value, 1 + rest.len)
  }

  /** A LEB128 number ends at its first byte below 128. */
  predicate Terminated(s: Bytes)
  {
    s != [] && (s[0] < 128 || Terminated(s[1..]))
  }

  // ---------------------------------------------------------------------------
  // Round trips and locality.
  // ---------------------------------------------------------------------------

  lemma {:induction false} UnsignedRoundTrip(v: nat, rest: Bytes)
    ensures DecodeUnsigned(EncodeUnsigned(v) + rest) == Decoded(v, |EncodeUnsigned(v)|)
    ensures Terminated(EncodeUnsigned(v) + rest)
    decreases v
  {
    var s := EncodeUnsigned(v) + rest;
    if v >= 128 {
      assert s[1..] == EncodeUnsigned(v / 128) + rest;
      UnsignedRoundTrip(v / 128, rest);
    }
  }

  lemma {:induction false} SignedRoundTrip(v: int, rest: Bytes)
    ensures DecodeSigned(EncodeSigned(v) + rest) == Decoded(v, |EncodeSigned(v)|)
    decreases if v < 0 then -v else v
  {
    var s := EncodeSigned(v) + rest;
    var b, next := v % 128, v / 128;
    if !((next == 0 && b < 64) || (next == -1 && b >= 64)) {
      assert s[1..] == EncodeSigned(next) + rest;
      SignedRoundTrip(next, rest);
    }
  }

  /** A terminated number is decoded from its own bytes only. */
  lemma {:induction false} UnsignedLocal(s: Bytes, rest: Bytes)
    requires Terminated(s)
    ensures var d := DecodeUnsigned(s);
            DecodeUnsigned(s[..d.len] + rest) == d && Terminated(s[..d.len] + rest)
  {
    var d := DecodeUnsigned(s);
    if s[0] >= 128 {
      UnsignedLocal(s[1..], rest);
      assert (s[..d.len] + rest)[1..] == s[1..][..d.len - 1] + rest;
    }
  }

  lemma {:induction false} SignedLocal(s: Bytes, rest: Bytes)
    requires Terminated(s)
    ensures var d := DecodeSigned(s);
            DecodeSigned(s[..d.len] + rest) == d && Terminated(s[..d.len] + rest)
  {
    var d := DecodeSigned(s);
    if s[0] >= 128 {
      SignedLocal(s[1..], rest);
      assert (s[..d.len] + rest)[1..] == s[1..][..d.len - 1] + rest;
    }
  }

  /** A number is complete exactly when the last byte its decoder took is below 128. */
  lemma {:induction false} TerminatedLast(s: Bytes)
    ensures var n := DecodeUnsigned(s).len;
            Terminated(s) == (n >= 1 && s[n - 1] < 128)
  {
    if s != [] && s[0] >= 128 {
      TerminatedLast(s[1..]);
      var n := DecodeUnsigned(s[1..]).len;
      assert n >= 1 ==> s[1..][n - 1] == s[n];
    }
  }

  // ---------------------------------------------------------------------------
  // The loops of the linker.
  // ---------------------------------------------------------------------------

  /** 2 to the power of `n`, the weight of bit `n`. */
  function Pow2(n: nat): (p: nat)
    ensures p >= 1
  {
    if n == 0 then 1 else 2 * Pow2(n - 1)
  }

  lemma {:induction false} Pow2Step7(sh: nat)
    ensures Pow2(sh + 7) == 128 * Pow2(sh)
  {
    assert Pow2(sh + 7) == 2 * Pow2(sh + 6) == 4 * Pow2(sh + 5) == 8 * Pow2(sh + 4);
    assert Pow2(sh + 4) == 2 * Pow2(sh + 3) == 4 * Pow2(sh + 2) == 8 * Pow2(sh + 1);
  }

  /** One more group of seven bits at weight `2^sh`. */
  lemma WeighGroup(sh: nat, b: int, rest: int)
    ensures Pow2(sh) * (b + 128 * rest) == b * Pow2(sh) + Pow2(sh + 7) * rest
  {
    Pow2Step7(sh);
    var p := Pow2(sh);
    assert p * (128 * rest) == 128 * p * rest;
  }

  /** `read_uleb`: accumulate seven bits a byte, moving the cursor. */
  method ReadUnsigned(d: Bytes, pos: nat, end: nat) returns (v: nat, q: nat)
    requires pos <= end <= |d|
    ensures var u := DecodeUnsigned(d[pos..end]); v == u.value && q == pos + u.len
  {
    v, q := 0, pos;
    var sh := 0;
    var more := true;
    ghost var left := DecodeUnsigned(d[pos..end]).value;
    while more && q < end
      invariant pos <= q <= end
      invariant v + Pow2(sh) * left == DecodeUnsigned(d[pos..end]).value
      invariant more ==> left == DecodeUnsigned(d[q..end]).value
      invariant more ==> q + DecodeUnsigned(d[q..end]).len == pos + DecodeUnsigned(d[pos..end]).len
      invariant !more ==> left == 0 && q == pos + DecodeUnsigned(d[pos..end]).len
      decreases end - q
    {
      var b := d[q];
      assert d[q..end][1..] == d[q + 1..end];
      ghost var next := if b < 128 then 0 else DecodeUnsigned(d[q + 1..end]).value;
      WeighGroup(sh, b % 128, next);
      assert left == b % 128 + 128 * next;
      v := v + b % 128 * Pow2(sh);
      q, sh, more, left := q + 1, sh + 7, b >= 128, next;
    }
  }

  /** The signed reader: the sign is spread from bit 6 of the last byte. */
  method ReadSigned(d: Bytes, pos: nat, end: nat) returns (v: int, q: nat)
    requires pos <= end <= |d|
    ensures var s := DecodeSigned(d[pos..end]); v == s.value && q == pos + s.len
  {
    v, q := 0, pos;
    var sh := 0;
    var more := true;
    ghost var left := DecodeSigned(d[pos..end]).value;
    while more && q < end
      invariant pos <= q <= end
      invariant v + Pow2(sh) * left == DecodeSigned(d[pos..end]).value
      invariant more ==> left == DecodeSigned(d[q..end]).value
      invariant more ==> q + DecodeSigned(d[q..end]).len == pos + DecodeSigned(d[pos..end]).len
      invariant !more ==> left == 0 && q == pos + DecodeSigned(d[pos..end]).len
      decreases end - q
    {
      var b := d[q];
      assert d[q..end][1..] == d[q + 1..end];
      ghost var next := if b < 64 then 0 else if b < 128 then -1 else DecodeSigned(d[q + 1..end]).value;
      WeighGroup(sh, b % 128, next);
      assert left == b % 128 + 128 * next;
      v := v + b % 128 * Pow2(sh);
      q, sh, more, left := q + 1, sh + 7, b >= 128, next;
      if !more && b >= 64 {
        v := v - Pow2(sh);
        left := 0;
      }
    }
  }

  /** `enc_uleb`: append the groups of seven bits, low group first. */
  method AppendUnsigned(o: Bytes, v: nat) returns (r: Bytes)
    ensures r == o + EncodeUnsigned(v)
  {
    r := o;
    var x := v;
    while x >= 128
      invariant r + EncodeUnsigned(x) == o + EncodeUnsigned(v)
      decreases x
    {
      r := r + [x % 128 + 128];
      x := x / 128;
    }
    r := r + [x];
  }

  /** `enc_sleb`: stop when the rest is the sign of the last group. */
  method AppendSigned(o: Bytes, v: int) returns (r: Bytes)
    ensures r == o + EncodeSigned(v)
  {
    r := o;
    var x := v;
    while true
      invariant r + EncodeSigned(x) == o + EncodeSigned(v)
      decreases if x < 0 then -x else x
    {
      var b := x % 128;
      var next := x / 128;
      if (next == 0 && b < 64) || (next == -1 && b >= 64) {
        r := r + [b];
        break;
      }
      r := r + [b + 128];
      x := next;
    }
  }
}
