/**
 * DWARF location expressions with an operator `op` whose signed operand is an
 * offset from the frame: DW_OP_fbreg (0x91) in .debug_info, DW_OP_breg10 (0x7a)
 * in .debug_loclists. The linker corrects these operands and copies the rest.
 */
module LocationExpr {
  import opened Leb128
  import opened ByteVectors

  /** Subtract the frame size from every scanned operand of `op`. */
  function RewriteExpr(op: Byte, e: Bytes, frame: nat): (r: Bytes)
  {
    if e == [] then []
    else if e[0] == op && |e| > 1 then
      var d := DecodeSigned(e[1..]);
      [op] + EncodeSigned(d.value - frame) + RewriteExpr(op, e[1 + d.len..], frame)
    else
      [e[0]] + RewriteExpr(op, e[1..], frame)
  }

  /** Whether the scan meets such an operand at all. */
  predicate HasOperand(op: Byte, e: Bytes)
  {
    e != [] && ((e[0] == op && |e| > 1) || HasOperand(op, e[1..]))
  }

  datatype Operator = Based(offset: int) | Other(bytes: Bytes)

  /**
   * `e` is the concatenation of `ops`, where byte `op` occurs only as the
   * opcode of a frame-based operator. Operands may be padded.
   */
  ghost predicate Encodes(op: Byte, e: Bytes, ops: seq<Operator>)
    decreases |ops|
  {
    if ops == [] then e == []
    else
      match ops[0]
      case Based(v) =>
        |e| > 1 && e[0] == op && Terminated(e[1..]) &&
        var d := DecodeSigned(e[1..]);
        d.value == v && Encodes(op, e[1 + d.len..], ops[1..])
      case Other(b) =>
        b != [] && op !in b && b <= e && Encodes(op, e[|b|..], ops[1..])
  }

  function AdjustOps(ops: seq<Operator>, frame: nat): (r: seq<Operator>)
    ensures |r| == |ops|
    ensures forall i :: 0 <= i < |ops| ==>
      r[i] == match ops[i] case Based(v) => Based(v - frame) case Other(_) => ops[i]
  {
    seq(|ops|, i requires 0 <= i < |ops| =>
      match ops[i] case Based(v) => Based(v - frame) case Other(_) => ops[i])
  }

  lemma {:induction false} RewriteExprCopies(op: Byte, b: Bytes, rest: Bytes, frame: nat)
    requires op !in b
    ensures RewriteExpr(op, b + rest, frame) == b + RewriteExpr(op, rest, frame)
    decreases |b|
  {
    if b == [] {
      assert b + rest == rest;
    } else {
      assert b[0] != op;
      assert (b + rest)[1..] == b[1..] + rest;
      RewriteExprCopies(op, b[1..], rest, frame);
      assert b == [b[0]] + b[1..];
    }
  }

  /** The rewritten expression has the same operators, each frame-based offset reduced by the frame size. */
  lemma {:induction false} RewriteExprMeaning(op: Byte, e: Bytes, ops: seq<Operator>, frame: nat)
    requires Encodes(op, e, ops)
    ensures Encodes(op, RewriteExpr(op, e, frame), AdjustOps(ops, frame))
    decreases |ops|
  {
    if ops != [] {
      var adjusted := AdjustOps(ops, frame);
      assert adjusted[1..] == AdjustOps(ops[1..], frame);
      match ops[0] {
        case Based(v) =>
          var d := DecodeSigned(e[1..]);
          RewriteExprMeaning(op, e[1 + d.len..], ops[1..], frame);
          EncodesBased(op, v - frame, RewriteExpr(op, e[1 + d.len..], frame), adjusted);
        case Other(b) =>
          var rest := e[|b|..];
          assert e == b + rest;
          RewriteExprCopies(op, b, rest, frame);
          RewriteExprMeaning(op, rest, ops[1..], frame);
          assert RewriteExpr(op, e, frame)[|b|..] == RewriteExpr(op, rest, frame);
      }
    }
  }

  lemma EncodesBased(op: Byte, v: int, tail: Bytes, ops: seq<Operator>)
    requires ops != [] && ops[0] == Based(v) && Encodes(op, tail, ops[1..])
    ensures Encodes(op, [op] + EncodeSigned(v) + tail, ops)
  {
    hide EncodeSigned, DecodeSigned, Terminated;
    var r := [op] + EncodeSigned(v) + tail;
    SignedRoundTrip(v, tail);
    SignedTerminated(v, tail);
    assert r[1..] == EncodeSigned(v) + tail;
    assert r[1 + |EncodeSigned(v)|..] == tail;
  }

  lemma {:induction false} SignedTerminated(v: int, rest: Bytes)
    ensures Terminated(EncodeSigned(v) + rest)
    decreases if v < 0 then -v else v
  {
    var s := EncodeSigned(v) + rest;
    var b, next := v % 128, v / 128;
    if !((next == 0 && b < 64) || (next == -1 && b >= 64)) {
      assert s[1..] == EncodeSigned(next) + rest;
      SignedTerminated(next, rest);
    }
  }

  /**
   * The scan does not decode other operators: the operand 0x91 of
   * DW_OP_const1u is taken for an opcode and the operator after it is lost.
   */
  lemma OperandByteIsTakenForBased()
    ensures RewriteExpr(0x91, [0x08, 0x91, 0x1c], 16) == [0x08, 0x91, 0x0c]
  {
    assert [0x08, 0x91, 0x1c][1..] == [0x91, 0x1c];
    assert [0x91, 0x1c][1..] == [0x1c];
    assert DecodeSigned([0x1c]) == Decoded(28, 1);
    assert [0x91, 0x1c][2..] == [];
    assert EncodeSigned(12) == [0x0c];
    assert RewriteExpr(0x91, [0x91, 0x1c], 16) == [0x91] + [0x0c] + [];
  }

  /** Copy an expression, reducing every operand of `op` by the frame size. */
  method RewriteExprBytes(op: Byte, d: Bytes, start: nat, end: nat, frame: nat) returns (r: Bytes, changed: bool)
    requires start <= end <= |d|
    ensures r == RewriteExpr(op, d[start..end], frame)
    ensures changed == (frame != 0 && HasOperand(op, d[start..end]))
  {
    hide RewriteExpr, HasOperand, DecodeSigned, EncodeSigned;
    r, changed := [], false;
    var ep := start;
    while ep < end
      invariant start <= ep <= end
      invariant r + RewriteExpr(op, d[ep..end], frame) == RewriteExpr(op, d[start..end], frame)
      invariant (frame != 0 && HasOperand(op, d[start..end])) == (changed || (frame != 0 && HasOperand(op, d[ep..end])))
      decreases end - ep
    {
      ExprStep(op, d, ep, end, frame);
      if d[ep] == op && ep + 1 < end {
        var stored, next := ReadSigned(d, ep + 1, end);
        ghost var was, tail := r, RewriteExpr(op, d[next..end], frame);
        r := AppendSigned(r + [op], stored - frame);
        assert was + ([op] + EncodeSigned(stored - frame) + tail) == r + tail;
        if stored - frame != stored { changed := true; }
        ep := next;
      } else {
        ghost var was, tail := r, RewriteExpr(op, d[ep + 1..end], frame);
        r := r + [d[ep]];
        assert was + ([d[ep]] + tail) == r + tail;
        ep := ep + 1;
      }
    }
    ExprEnd(op, d[ep..end], frame);
  }

  lemma ExprEnd(op: Byte, e: Bytes, frame: nat)
    requires e == []
    ensures RewriteExpr(op, e, frame) == [] && !HasOperand(op, e)
  {
  }

  /** One step of the expression scan at cursor `ep`. */
  lemma ExprStep(op: Byte, d: Bytes, ep: nat, end: nat, frame: nat)
    requires ep < end <= |d|
    ensures var e := d[ep..end];
            if d[ep] == op && ep + 1 < end then
              var s := DecodeSigned(d[ep + 1..end]);
              HasOperand(op, e) &&
              RewriteExpr(op, e, frame) ==
              [op] + EncodeSigned(s.value - frame) + RewriteExpr(op, d[ep + 1 + s.len..end], frame)
            else
              HasOperand(op, e) == HasOperand(op, d[ep + 1..end]) &&
              RewriteExpr(op, e, frame) == [d[ep]] + RewriteExpr(op, d[ep + 1..end], frame)
  {
    var e := d[ep..end];
    assert e[1..] == d[ep + 1..end];
    if d[ep] == op && ep + 1 < end {
      var n := DecodeSigned(d[ep + 1..end]).len;
      assert e[1 + n..] == d[ep + 1 + n..end];
    }
  }
}
