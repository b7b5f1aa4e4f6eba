/**
 * Sections of one name that mix data and NOBITS, in a partial link: exactly
 * when a data section's bytes are stored where its placement says.
 */
module MixedSections {
  import opened Leb128
  import opened PartialLink

  /** Contributions of one name, in input order. */
  predicate OneName(ss: seq<Section>)
  {
    ss != [] && forall k :: 0 <= k < |ss| ==> SectionOk(ss[k]) && ss[k].name == ss[0].name
  }

  /** The output section they make: the first opens it, the others are appended. */
  function Joined(ss: seq<Section>): Out
    requires ss != []
  {
    var s := ss[|ss| - 1];
    if |ss| == 1 then Out(s.name, s.nobits, Align(s), s.data, s.size) else Appended(Joined(ss[..|ss| - 1]), s)
  }

  /** The offset the placement records for contribution `k`. */
  function Recorded(ss: seq<Section>, k: nat): nat
    requires k < |ss|
  {
    if k == 0 then 0 else var o := Joined(ss[..k]); o.size + Padding(o.size, Align(ss[k]))
  }

  /** Where its bytes start in the output data. */
  function Stored(ss: seq<Section>, k: nat): nat
    requires k < |ss|
  {
    if k == 0 then 0
    else var o := Joined(ss[..k]); |o.data| + if o.nobits then 0 else Padding(o.size, Align(ss[k]))
  }

  function NobitsBytes(ss: seq<Section>): nat
  {
    if ss == [] then 0
    else var s := ss[|ss| - 1]; NobitsBytes(ss[..|ss| - 1]) + if s.nobits then s.size else 0
  }

  lemma JoinedNext(ss: seq<Section>)
    requires |ss| > 1
    ensures var o, s := Joined(ss[..|ss| - 1]), ss[|ss| - 1];
            var pad := Padding(o.size, Align(s));
            Joined(ss).nobits == o.nobits && Joined(ss).size == o.size + pad + s.size &&
            Joined(ss).data == (if o.nobits then o.data else o.data + Zeros(pad)) + s.data
  {
    hide Padding;
  }

  lemma {:induction false} StoredBytes(ss: seq<Section>, k: nat)
    requires OneName(ss) && k < |ss|
    ensures var at := Stored(ss, k);
            at + |ss[k].data| <= |Joined(ss).data| && Joined(ss).data[at..at + |ss[k].data|] == ss[k].data
    decreases |ss|
  {
    hide Joined, Padding;
    var n := |ss| - 1;
    if n > 0 {
      JoinedNext(ss);
      if k < n {
        StoredBytes(ss[..n], k);
        assert ss[..n][..k] == ss[..k];
        var at, front := Stored(ss, k), Joined(ss[..n]).data;
        assert front <= Joined(ss).data;
      }
    } else {
      assert Joined(ss).data == ss[0].data by { JoinedOne(ss); }
    }
  }

  lemma JoinedOne(ss: seq<Section>)
    requires |ss| == 1
    ensures Joined(ss) == Out(ss[0].name, ss[0].nobits, Align(ss[0]), ss[0].data, ss[0].size)
  {
  }

  /** Data falls behind the recorded size by the NOBITS bytes among the contributions. */
  lemma {:induction false} Behind(ss: seq<Section>)
    requires OneName(ss)
    ensures Joined(ss).nobits == ss[0].nobits
    ensures !ss[0].nobits ==> Joined(ss).size == |Joined(ss).data| + NobitsBytes(ss)
    decreases |ss|
  {
    hide Joined, Padding;
    var n := |ss| - 1;
    if n > 0 {
      JoinedNext(ss);
      Behind(ss[..n]);
      assert ss[..n][0] == ss[0];
    } else {
      JoinedOne(ss);
      assert NobitsBytes(ss[..0]) == 0;
    }
  }

  lemma {:induction false} NobitsNone(ss: seq<Section>)
    ensures NobitsBytes(ss) == 0 <==> forall j :: 0 <= j < |ss| && ss[j].nobits ==> ss[j].size == 0
  {
    if ss != [] {
      var n := |ss| - 1;
      NobitsNone(ss[..n]);
      assert forall j :: 0 <= j < n ==> ss[..n][j] == ss[j];
    }
  }

  /**
   * A data section behind the first of its name reaches the output file at
   * its recorded offset exactly when the first section of the name is data
   * and no NOBITS section of nonzero size comes before it. (A NOBITS output
   * section has no bytes in the file at all.)
   */
  lemma KeptIff(ss: seq<Section>, k: nat)
    requires OneName(ss) && 0 < k < |ss|
    ensures !Joined(ss).nobits && Stored(ss, k) == Recorded(ss, k) <==>
            !ss[0].nobits && forall j :: 0 <= j < k && ss[j].nobits ==> ss[j].size == 0
  {
    hide Joined, Padding, NobitsBytes;
    Behind(ss);
    Behind(ss[..k]);
    NobitsNone(ss[..k]);
    assert forall j :: 0 <= j < k ==> ss[..k][j] == ss[j];
  }

  /** Bytes of no contribution are zero. */
  lemma {:induction false} PaddingIsZero(ss: seq<Section>, x: nat)
    requires OneName(ss) && x < |Joined(ss).data|
    requires forall k :: 0 <= k < |ss| ==> x < Stored(ss, k) || x >= Stored(ss, k) + |ss[k].data|
    ensures Joined(ss).data[x] == 0
    decreases |ss|
  {
    hide Joined, Padding;
    var n := |ss| - 1;
    assert x < Stored(ss, n) || x >= Stored(ss, n) + |ss[n].data|;
    if n > 0 {
      JoinedNext(ss);
      var front := Joined(ss[..n]);
      assert ss[..n] == ss[..|ss| - 1];
      if x < |front.data| {
        forall k | 0 <= k < n
          ensures x < Stored(ss[..n], k) || x >= Stored(ss[..n], k) + |ss[..n][k].data|
        {
          assert ss[..n][..k] == ss[..k];
          assert x < Stored(ss, k) || x >= Stored(ss, k) + |ss[k].data|;
        }
        PaddingIsZero(ss[..n], x);
      }
    } else {
      JoinedOne(ss);
    }
  }

  /** The output section has the greatest of the alignments. */
  lemma {:induction false} JoinedAlign(ss: seq<Section>)
    requires ss != []
    ensures (forall k :: 0 <= k < |ss| ==> Align(ss[k]) <= Joined(ss).align) && exists k :: 0 <= k < |ss| && Align(ss[k]) == Joined(ss).align
    decreases |ss|
  {
    hide Padding, Align;
    var n := |ss| - 1;
    if n > 0 {
      JoinedAlign(ss[..n]);
      assert forall k :: 0 <= k < n ==> ss[..n][k] == ss[k];
      var k :| 0 <= k < n && Align(ss[..n][k]) == Joined(ss[..n]).align;
      assert Align(ss[k]) == Joined(ss).align || Align(ss[n]) == Joined(ss).align;
    } else {
      assert Align(ss[0]) == Joined(ss).align;
    }
  }

  // ---------------------------------------------------------------------------
  // The whole merge
  // ---------------------------------------------------------------------------

  /** The loadable sections called `name` before `(o, i)`, in merging order. */
  function Contributions(objects: seq<Object>, name: string, o: nat, i: nat): (rs: seq<Ref>)
    requires MergeAtOk(objects, o, i)
    ensures forall k :: 0 <= k < |rs| ==>
      IsSection(objects, rs[k]) && rs[k].1 >= 1 && Before(rs[k], (o, i)) && SectionAt(objects, rs[k]).loadable &&
      SectionAt(objects, rs[k]).name == name
    decreases o, i
  {
    if i > 1 then
      var s := SectionAt(objects, (o, i - 1));
      Contributions(objects, name, o, i - 1) + if s.loadable && s.name == name then [(o, i - 1)] else []
    else if o > 0 then Contributions(objects, name, o - 1, SectionLimit(objects, o - 1))
    else []
  }

  function SectionsOf(objects: seq<Object>, rs: seq<Ref>): (ss: seq<Section>)
    requires forall k :: 0 <= k < |rs| ==> IsSection(objects, rs[k])
    ensures |ss| == |rs| && forall k :: 0 <= k < |rs| ==> ss[k] == SectionAt(objects, rs[k])
  {
    seq(|rs|, k requires 0 <= k < |rs| => SectionAt(objects, rs[k]))
  }

  /** What the merge has made of the contributions `rs` of one name. */
  ghost predicate JoinedIn(objects: seq<Object>, m: Merge, name: string, rs: seq<Ref>)
    requires IndexOk(m) && forall k :: 0 <= k < |rs| ==> IsSection(objects, rs[k])
  {
    var ss := SectionsOf(objects, rs);
    (name in m.index <==> rs != []) && (rs != [] ==> m.outs[m.index[name]] == Joined(ss)) &&
    forall k :: 0 <= k < |rs| ==> rs[k] in m.place && m.place[rs[k]] == Place(m.index[name], Recorded(ss, k))
  }

  lemma RecordedPrefix(ss: seq<Section>, more: seq<Section>, k: nat)
    requires k < |ss|
    ensures Recorded(ss + more, k) == Recorded(ss, k)
  {
    assert (ss + more)[..k] == ss[..k];
  }

  lemma JoinStep(objects: seq<Object>, m: Merge, name: string, rs: seq<Ref>, r: Ref)
    requires IndexOk(m) && IsSection(objects, r) && r !in rs && forall k :: 0 <= k < |rs| ==> IsSection(objects, rs[k])
    requires JoinedIn(objects, m, name, rs)
    ensures IndexOk(MergeOne(m, r, SectionAt(objects, r)))
    ensures var s := SectionAt(objects, r);
            JoinedIn(objects, MergeOne(m, r, s), name, rs + if s.loadable && s.name == name then [r] else [])
  {
    hide Joined, Recorded, IndexOk, Appended;
    var s := SectionAt(objects, r);
    MergeKeepsIndex(m, r, s);
    if s.loadable && s.name == name {
      JoinSame(objects, m, name, rs, r);
    } else {
      assert rs + [] == rs;
      if s.loadable { JoinOther(objects, m, name, rs, r); }
    }
  }

  lemma JoinOther(objects: seq<Object>, m: Merge, name: string, rs: seq<Ref>, r: Ref)
    requires IndexOk(m) && IsSection(objects, r) && r !in rs && forall k :: 0 <= k < |rs| ==> IsSection(objects, rs[k])
    requires JoinedIn(objects, m, name, rs) && SectionAt(objects, r).loadable && SectionAt(objects, r).name != name
    requires IndexOk(MergeOne(m, r, SectionAt(objects, r)))
    ensures JoinedIn(objects, MergeOne(m, r, SectionAt(objects, r)), name, rs)
  {
    hide Joined, Recorded, Appended;
  }

  lemma JoinSame(objects: seq<Object>, m: Merge, name: string, rs: seq<Ref>, r: Ref)
    requires IndexOk(m) && IsSection(objects, r) && r !in rs && forall k :: 0 <= k < |rs| ==> IsSection(objects, rs[k])
    requires JoinedIn(objects, m, name, rs) && SectionAt(objects, r).loadable && SectionAt(objects, r).name == name
    requires IndexOk(MergeOne(m, r, SectionAt(objects, r)))
    ensures JoinedIn(objects, MergeOne(m, r, SectionAt(objects, r)), name, rs + [r])
  {
    hide Joined, Recorded, Appended, Padding;
    var s, ss, ts := SectionAt(objects, r), SectionsOf(objects, rs), SectionsOf(objects, rs + [r]);
    assert ts == ss + [s];
    LastJoined(ss, s);
    var m' := MergeOne(m, r, s);
    forall k | 0 <= k < |rs + [r]|
      ensures (rs + [r])[k] in m'.place && m'.place[(rs + [r])[k]] == Place(m'.index[name], Recorded(ts, k))
    {
      if k < |rs| { RecordedPrefix(ss, [s], k); }
    }
  }

  /** One more contribution, as `MergeOne` places and appends it. */
  lemma LastJoined(ss: seq<Section>, s: Section)
    ensures ss == [] ==> Joined(ss + [s]) == Out(s.name, s.nobits, Align(s), s.data, s.size) && Recorded(ss + [s], 0) == 0
    ensures ss != [] ==>
      Joined(ss + [s]) == Appended(Joined(ss), s) &&
      Recorded(ss + [s], |ss|) == Joined(ss).size + Padding(Joined(ss).size, Align(s))
  {
    hide Padding;
    assert (ss + [s])[..|ss|] == ss;
  }

  /** The merge of any objects: each output section is the joined contributions of its name, each placed where recorded. */
  lemma {:induction false} MergedIsJoined(objects: seq<Object>, name: string, o: nat, i: nat)
    requires MergeAtOk(objects, o, i)
    ensures JoinedIn(objects, MergeTo(objects, o, i), name, Contributions(objects, name, o, i))
    decreases o, i
  {
    hide MergeTo, MergeOne, JoinedIn, IndexOk;
    if i > 1 {
      MergedIsJoined(objects, name, o, i - 1);
      MergeToNext(objects, o, i - 1);
      var rs := Contributions(objects, name, o, i - 1);
      assert (o, i - 1) !in rs;
      JoinStep(objects, MergeTo(objects, o, i - 1), name, rs, (o, i - 1));
    } else if o > 0 {
      var n := SectionLimit(objects, o - 1);
      MergedIsJoined(objects, name, o - 1, n);
      MergeToNext(objects, o - 1, n);
    } else {
      MergeStarts(objects);
      NothingJoined(objects, name);
    }
  }

  lemma NothingJoined(objects: seq<Object>, name: string)
    ensures IndexOk(NO_MERGE) && JoinedIn(objects, NO_MERGE, name, [])
  {
  }

  /**
   * Over the whole merge of any objects: the bytes of the k-th section of a
   * name (k > 0) stand in the output file at the offset its symbols and
   * relocations use, exactly when the first section of the name is data and no
   * NOBITS section of nonzero size of that name comes before it.
   */
  lemma MergedKeepsBytesIff(objects: seq<Object>, name: string, k: nat)
    requires ObjectsOk(objects) && 0 < k < |Contributions(objects, name, |objects|, 1)|
    ensures var m, rs := MergeTo(objects, |objects|, 1), Contributions(objects, name, |objects|, 1);
            var ss := SectionsOf(objects, rs);
            name in m.index && rs[k] in m.place && m.place[rs[k]].out == m.index[name] &&
            var out, at := m.outs[m.index[name]], Stored(ss, k);
            at + |ss[k].data| <= |out.data| && out.data[at..at + |ss[k].data|] == ss[k].data &&
            (!out.nobits && m.place[rs[k]].off == at <==>
             !ss[0].nobits && forall j :: 0 <= j < k && ss[j].nobits ==> ss[j].size == 0)
  {
    hide MergeTo, Joined, Recorded, Stored, IndexOk, Contributions;
    MergedIsJoined(objects, name, |objects|, 1);
    var rs := Contributions(objects, name, |objects|, 1);
    var ss := SectionsOf(objects, rs);
    assert OneName(ss);
    KeptIff(ss, k);
    StoredBytes(ss, k);
  }

  /**
   * What else an output section says: its other bytes are zero, and it is as
   * strictly aligned as the strictest contribution, no more.
   */
  lemma MergedPadding(objects: seq<Object>, name: string, x: nat)
    requires ObjectsOk(objects) && Contributions(objects, name, |objects|, 1) != []
    ensures var m, rs := MergeTo(objects, |objects|, 1), Contributions(objects, name, |objects|, 1);
            var ss := SectionsOf(objects, rs);
            name in m.index &&
            var out := m.outs[m.index[name]];
            (forall k :: 0 <= k < |ss| ==> Align(ss[k]) <= out.align) && (exists k :: 0 <= k < |ss| && Align(ss[k]) == out.align) &&
            (x < |out.data| && (forall k :: 0 <= k < |ss| ==> x < Stored(ss, k) || x >= Stored(ss, k) + |ss[k].data|) ==>
               out.data[x] == 0)
  {
    hide MergeTo, Joined, Recorded, Stored, IndexOk, Contributions, Align;
    MergedIsJoined(objects, name, |objects|, 1);
    var rs := Contributions(objects, name, |objects|, 1);
    var ss := SectionsOf(objects, rs);
    assert OneName(ss);
    JoinedAlign(ss);
    if x < |Joined(ss).data| && forall k :: 0 <= k < |ss| ==> x < Stored(ss, k) || x >= Stored(ss, k) + |ss[k].data| {
      PaddingIsZero(ss, x);
    }
  }
}
