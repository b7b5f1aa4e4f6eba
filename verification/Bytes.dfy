/**
 * Byte vectors: little-endian words, in-place overwriting and concatenation.
 */
module ByteVectors {
  import opened Leb128

  datatype Option<+T> = None | Some(value: T)

  function Pow256(n: nat): (p: nat)
    ensures p >= 1
  {
    if n == 0 then 1 else 256 * Pow256(n - 1)
  }

  /** The low `n` bytes of `v`, low byte first: what `memcpy(p, &v, n)` stores. */
  function Le(n: nat, v: nat): (s: Bytes)
    ensures |s| == n
  {
    if n == 0 then [] else [v % 256] + Le(n - 1, v / 256)
  }

  function FromLe(s: Bytes): (v: nat)
    ensures v < Pow256(|s|)
  {
    if s == [] then 0 else s[0] + 256 * FromLe(s[1..])
  }

  lemma {:induction false} LeRoundTrip(n: nat, v: nat)
    requires v < Pow256(n)
    ensures FromLe(Le(n, v)) == v
  {
    if n > 0 {
      LeRoundTrip(n - 1, v / 256);
      assert Le(n, v)[1..] == Le(n - 1, v / 256);
    }
  }

  lemma {:induction false} FromLeRoundTrip(s: Bytes)
    ensures Le(|s|, FromLe(s)) == s
  {
    if s != [] {
      FromLeRoundTrip(s[1..]);
      LowDigit(s[0], FromLe(s[1..]));
      assert s == [s[0]] + s[1..];
    }
  }

  lemma LowDigit(b: Byte, v: nat)
    ensures (b + 256 * v) % 256 == b && (b + 256 * v) / 256 == v
  {
  }

  /** Replace `|t|` bytes of `s` starting at `pos`. */
  function Overwrite(s: Bytes, pos: nat, t: Bytes): (r: Bytes)
    requires pos + |t| <= |s|
    ensures |r| == |s|
  {
    s[..pos] + t + s[pos + |t|..]
  }

  lemma SliceOfSlice(s: Bytes, lo: nat, hi: nat, a: nat, b: nat)
    requires lo <= hi <= |s| && a <= b <= hi - lo
    ensures s[lo..hi][a..b] == s[lo + a..lo + b]
  {
    var x, y := s[lo..hi][a..b], s[lo + a..lo + b];
    forall i | 0 <= i < |x| ensures x[i] == y[i] {
      assert x[i] == s[lo..hi][a + i];
    }
  }

  /** Sequences that agree on a range agree on every range inside it. */
  lemma SameSlice(s: Bytes, t: Bytes, lo: nat, hi: nat, a: nat, b: nat)
    requires lo <= a <= b <= hi <= |s| && hi <= |t|
    requires s[lo..hi] == t[lo..hi]
    ensures s[a..b] == t[a..b]
  {
    forall i | a <= i < b ensures s[i] == t[i] {
      assert s[lo..hi][i - lo] == t[lo..hi][i - lo];
    }
  }

  function Concat(parts: seq<Bytes>): (r: Bytes)
  {
    if parts == [] then [] else parts[0] + Concat(parts[1..])
  }

  lemma {:induction false} ConcatAppend(a: seq<Bytes>, b: seq<Bytes>)
    ensures Concat(a + b) == Concat(a) + Concat(b)
  {
    hide Concat;
    if a == [] {
      assert a + b == b;
      ConcatNone();
      assert Concat(b) == [] + Concat(b);
    } else {
      ConcatAppend(a[1..], b);
      assert (a + b)[1..] == a[1..] + b;
      ConcatCons(a);
      ConcatCons(a + b);
      assert a[0] + (Concat(a[1..]) + Concat(b)) == (a[0] + Concat(a[1..])) + Concat(b);
    }
  }

  lemma ConcatNone()
    ensures Concat([]) == []
  {
  }

  lemma ConcatCons(parts: seq<Bytes>)
    requires parts != []
    ensures Concat(parts) == parts[0] + Concat(parts[1..])
  {
  }

  lemma ConcatSnoc(a: seq<Bytes>, x: Bytes)
    ensures Concat(a + [x]) == Concat(a) + x
  {
    ConcatAppend(a, [x]);
    assert [x][1..] == [];
    assert Concat([x]) == x + Concat([x][1..]);
  }
}
