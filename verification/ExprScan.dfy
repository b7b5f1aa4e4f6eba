/**
 * Exactly when the linker's scan of a location expression is right. The scan
 * looks for the opcode byte without decoding the other operators, so it can
 * take a byte of another operator for a frame-based opcode.
 */
module ExprScan {
  import opened Leb128
  import opened LocationExpr

  /** An operator as DWARF delimits it: the frame-based one with its operand, or another with all its bytes. */
  datatype Part = Frame(raw: Bytes) | Plain(bytes: Bytes)

  predicate OneNumber(raw: Bytes)
  {
    Terminated(raw) && DecodeSigned(raw).len == |raw|
  }

  predicate PartsOk(parts: seq<Part>)
  {
    forall i :: 0 <= i < |parts| && parts[i].Frame? ==> OneNumber(parts[i].raw)
  }

  /** The expression's bytes. */
  function Source(op: Byte, parts: seq<Part>): Bytes
    decreases |parts|
  {
    if parts == [] then []
    else (match parts[0] case Frame(raw) => [op] + raw case Plain(b) => b) + Source(op, parts[1..])
  }

  /** What the correction should give: the frame size off every frame-based operand, all other bytes kept. */
  function Ideal(op: Byte, parts: seq<Part>, frame: nat): Bytes
    decreases |parts|
  {
    if parts == [] then []
    else
      (match parts[0]
       case Frame(raw) => [op] + EncodeSigned(DecodeSigned(raw).value - frame)
       case Plain(b) => b) +
      Ideal(op, parts[1..], frame)
  }

  /** The opcode byte occurs inside no other operator, except as the very last byte of the expression. */
  predicate Unambiguous(op: Byte, parts: seq<Part>)
    decreases |parts|
  {
    parts == [] ||
    match parts[0]
    case Frame(_) => Unambiguous(op, parts[1..])
    case Plain(b) =>
      (op !in b && Unambiguous(op, parts[1..])) ||
      (Source(op, parts[1..]) == [] && b != [] && b[|b| - 1] == op && op !in b[..|b| - 1])
  }

  lemma Cons(op: Byte, parts: seq<Part>, frame: nat)
    requires parts != []
    ensures match parts[0]
            case Frame(raw) =>
              Source(op, parts) == [op] + raw + Source(op, parts[1..]) &&
              Ideal(op, parts, frame) == [op] + EncodeSigned(DecodeSigned(raw).value - frame) + Ideal(op, parts[1..], frame)
            case Plain(b) =>
              Source(op, parts) == b + Source(op, parts[1..]) && Ideal(op, parts, frame) == b + Ideal(op, parts[1..], frame)
  {
    hide DecodeSigned, EncodeSigned;
  }

  lemma {:induction false} NothingLeft(op: Byte, parts: seq<Part>, frame: nat)
    requires Source(op, parts) == []
    ensures Ideal(op, parts, frame) == []
    decreases |parts|
  {
    if parts != [] {
      Cons(op, parts, frame);
      NothingLeft(op, parts[1..], frame);
    }
  }

  lemma DecodeHead(s: Bytes, t: Bytes)
    requires s != [] && t != [] && s[0] == t[0]
    ensures s[0] < 128 ==> DecodeSigned(s) == DecodeSigned(t)
    ensures s[0] >= 128 ==>
      DecodeSigned(s).value == s[0] - 128 + 128 * DecodeSigned(s[1..]).value &&
      DecodeSigned(t).value == s[0] - 128 + 128 * DecodeSigned(t[1..]).value
  {
  }

  /**
   * A number read across operator boundaries, before and after the ideal
   * correction: it is unchanged, or changed by at least 128 frame sizes,
   * because a correction inside it sits behind at least one group of 7 bits.
   */
  lemma {:induction false} ReadAcross(op: Byte, q: Bytes, parts: seq<Part>, frame: nat) returns (k: nat)
    requires PartsOk(parts)
    ensures k == 0 || k >= 128
    ensures DecodeSigned(q + Ideal(op, parts, frame)).value == DecodeSigned(q + Source(op, parts)).value - k * frame
    decreases |parts|, |q|
  {
    hide DecodeSigned, EncodeSigned, Source, Ideal, Terminated;
    var s, t := q + Source(op, parts), q + Ideal(op, parts, frame);
    k := 0;
    if q != [] {
      DecodeHead(s, t);
      if q[0] >= 128 {
        var n := ReadAcross(op, q[1..], parts, frame);
        assert s[1..] == q[1..] + Source(op, parts) && t[1..] == q[1..] + Ideal(op, parts, frame);
        k := 128 * n;
        assert 128 * (n * frame) == k * frame;
      }
    } else if parts == [] {
      assert s == [] && t == [] by { Empty(op, frame); }
    } else {
      Cons(op, parts, frame);
      match parts[0] {
        case Plain(b) =>
          k := ReadAcross(op, b, parts[1..], frame);
          assert s == b + Source(op, parts[1..]) && t == b + Ideal(op, parts[1..], frame);
        case Frame(raw) =>
          k := ReadThroughFrame(op, raw, Source(op, parts[1..]), Ideal(op, parts[1..], frame), frame);
          assert s == [op] + raw + Source(op, parts[1..]);
          assert t == [op] + EncodeSigned(DecodeSigned(raw).value - frame) + Ideal(op, parts[1..], frame);
      }
    }
  }

  lemma Empty(op: Byte, frame: nat)
    ensures Source(op, []) == [] && Ideal(op, [], frame) == []
  {
  }

  lemma ReadThroughFrame(op: Byte, raw: Bytes, a: Bytes, b: Bytes, frame: nat) returns (k: nat)
    requires OneNumber(raw)
    ensures k == 0 || k == 128
    ensures DecodeSigned([op] + EncodeSigned(DecodeSigned(raw).value - frame) + b).value ==
            DecodeSigned([op] + raw + a).value - k * frame
  {
    hide DecodeSigned, EncodeSigned, Terminated;
    var v := DecodeSigned(raw).value;
    var e := EncodeSigned(v - frame);
    var s, t := [op] + raw + a, [op] + e + b;
    DecodeHead(s, t);
    k := if op < 128 then 0 else 128;
    assert s[1..] == raw + a && t[1..] == e + b;
    SignedLocal(raw, a);
    assert raw[..|raw|] == raw;
    SignedRoundTrip(v - frame, b);
  }

  /** An opcode byte taken from inside another operator always spoils the result. */
  lemma Misread(op: Byte, q: Bytes, parts: seq<Part>, frame: nat)
    requires PartsOk(parts) && frame > 0 && q + Source(op, parts) != []
    ensures RewriteExpr(op, [op] + (q + Source(op, parts)), frame) != [op] + (q + Ideal(op, parts, frame))
  {
    hide DecodeSigned, EncodeSigned, Source, Ideal;
    var t := q + Source(op, parts);
    var e := [op] + t;
    assert e[1..] == t;
    var d := DecodeSigned(t);
    var more := RewriteExpr(op, e[1 + d.len..], frame);
    var x := EncodeSigned(d.value - frame) + more;
    assert RewriteExpr(op, e, frame) == [op] + x;
    SignedRoundTrip(d.value - frame, more);
    var k := ReadAcross(op, q, parts, frame);
    assert k >= 128 ==> k * frame >= 128 * frame;
    assert DecodeSigned(x).value != DecodeSigned(q + Ideal(op, parts, frame)).value;
    SamePrefix([op], x, q + Ideal(op, parts, frame));
  }

  /** The first opcode byte inside another operator decides. */
  lemma PlainWithOpcode(op: Byte, b: Bytes, parts: seq<Part>, frame: nat)
    requires PartsOk(parts) && frame > 0 && op in b
    ensures RewriteExpr(op, b + Source(op, parts), frame) == b + Ideal(op, parts, frame) <==>
            Source(op, parts) == [] && b[|b| - 1] == op && op !in b[..|b| - 1]
  {
    hide DecodeSigned, EncodeSigned, Source, Ideal, RewriteExpr;
    var j := FirstAt(op, b);
    var p, q := b[..j], b[j + 1..];
    var t := q + Source(op, parts);
    assert b == p + ([op] + q);
    assert b + Source(op, parts) == p + ([op] + t);
    RewriteExprCopies(op, p, [op] + t, frame);
    var u := [op] + (q + Ideal(op, parts, frame));
    assert b + Ideal(op, parts, frame) == p + u;
    SamePrefix(p, RewriteExpr(op, [op] + t, frame), u);
    if t == [] {
      NothingLeft(op, parts, frame);
      assert [op] + t == [op] && u == [op];
      LastByte(op, frame);
    } else {
      Misread(op, q, parts, frame);
      if q != [] { assert b[..|b| - 1][j] == op; }
    }
  }

  lemma SamePrefix(p: Bytes, x: Bytes, y: Bytes)
    ensures p + x == p + y <==> x == y
  {
    assert (p + x)[|p|..] == x && (p + y)[|p|..] == y;
  }

  lemma LastByte(op: Byte, frame: nat)
    ensures RewriteExpr(op, [op], frame) == [op]
  {
    assert [op][1..] == [];
    assert RewriteExpr(op, [], frame) == [];
  }

  lemma FirstAt(op: Byte, b: Bytes) returns (j: nat)
    requires op in b
    ensures j < |b| && b[j] == op && op !in b[..j]
  {
    j := 0;
    while b[j] != op
      invariant j < |b| && op !in b[..j] && op in b[j..]
      decreases |b| - j
    {
      assert b[..j + 1] == b[..j] + [b[j]] && b[j..] == [b[j]] + b[j + 1..];
      j := j + 1;
    }
  }

  /** The scan is right on an expression exactly when the opcode byte is unambiguous in it. */
  lemma {:induction false} ScanRightIff(op: Byte, parts: seq<Part>, frame: nat)
    requires PartsOk(parts) && frame > 0
    ensures RewriteExpr(op, Source(op, parts), frame) == Ideal(op, parts, frame) <==> Unambiguous(op, parts)
    decreases |parts|
  {
    hide DecodeSigned, EncodeSigned, Source, Ideal, RewriteExpr, OneNumber;
    if parts == [] {
      Empty(op, frame);
      ExprEnd(op, [], frame);
    } else {
      var rest := parts[1..];
      Cons(op, parts, frame);
      ScanRightIff(op, rest, frame);
      match parts[0] {
        case Frame(raw) =>
          FrameScanned(op, raw, Source(op, rest), frame);
          SamePrefix([op] + EncodeSigned(DecodeSigned(raw).value - frame), RewriteExpr(op, Source(op, rest), frame), Ideal(op, rest, frame));
        case Plain(b) =>
          if op in b {
            PlainWithOpcode(op, b, rest, frame);
          } else {
            RewriteExprCopies(op, b, Source(op, rest), frame);
            SamePrefix(b, RewriteExpr(op, Source(op, rest), frame), Ideal(op, rest, frame));
          }
      }
    }
  }

  lemma FrameScanned(op: Byte, raw: Bytes, rest: Bytes, frame: nat)
    requires OneNumber(raw)
    ensures RewriteExpr(op, [op] + raw + rest, frame) ==
            [op] + EncodeSigned(DecodeSigned(raw).value - frame) + RewriteExpr(op, rest, frame)
  {
    hide DecodeSigned, EncodeSigned, Terminated;
    var e := [op] + raw + rest;
    SignedLocal(raw, rest);
    assert raw[..|raw|] == raw;
    assert e[1..] == raw + rest;
    assert raw != [] by { RawNotEmpty(raw); }
    assert e[1 + |raw|..] == rest;
  }

  lemma RawNotEmpty(raw: Bytes)
    requires Terminated(raw)
    ensures raw != []
  {
  }
}
