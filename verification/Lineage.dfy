/** Rotation links: the head of the newest segment binds every segment before it. */
module Lineage {
  import opened Evidence
  import opened Chain
  import opened Integrity
  import opened LineFile
  import opened Store
  import opened History
  import opened Runs

  /** Segment `i` opens with a rotation record for segment `i - 1`. */
  predicate OpensFrom(c: Codec, segs: seq<seq<Record>>, i: nat)
    requires 1 <= i < |segs|
  {
    segs[i] != [] && LinksTo(c, segs[i][0], segs[i - 1])
  }

  /** Segment files as read back, oldest first: each one verifies, the first has no rotation record and
      each later one opens with a rotation record naming the head and the count of the one before. */
  ghost predicate Lineage(c: Codec, segs: seq<seq<Record>>) {
    && segs != []
    && (forall i | 0 <= i < |segs| :: segs[i] != [] && Verified(c, segs[i]) && AllText(c, segs[i]))
    && segs[0][0].target.typ != TARGET_ROTATION
    && (forall i | 1 <= i < |segs| :: OpensFrom(c, segs, i))
  }

  ghost predicate SameLineage(c: Codec, xs: seq<seq<Record>>, ys: seq<seq<Record>>) {
    |xs| == |ys| && forall i | 0 <= i < |xs| :: SameImages(c, xs[i], ys[i])
  }

  ghost predicate LineageCollision(c: Codec, xs: seq<seq<Record>>, ys: seq<seq<Record>>) {
    exists i, j :: 0 <= i < |xs| && 0 <= j < |ys| && CollisionIn(c, xs[i], ys[j])
  }

  /** Two segments with the same bytes open the same way. */
  lemma SameOpening(c: Codec, xs: seq<Record>, ys: seq<Record>)
    requires Lawful(c) && Verified(c, xs) && AllText(c, xs) && Verified(c, ys) && AllText(c, ys)
    requires xs != [] && SameImages(c, xs, ys)
    ensures xs[0].target.typ == ys[0].target.typ
    ensures c.parseLink(xs[0].observation) == c.parseLink(ys[0].observation)
  {
    SameImagesSameRecords(c, xs, ys);
    assert xs[0] in xs && ys[0] in ys;
    assert RecordLaws(c, xs[0]) && RecordLaws(c, ys[0]);
    assert BytesLaws(c, xs[0].observation) && BytesLaws(c, ys[0].observation);
  }

  lemma LineagePrefix(c: Codec, segs: seq<seq<Record>>)
    requires Lineage(c, segs) && |segs| > 1
    ensures Lineage(c, segs[..|segs| - 1])
  {
    var init := segs[..|segs| - 1];
    forall i | 1 <= i < |init|
      ensures OpensFrom(c, init, i)
    {
      assert OpensFrom(c, segs, i);
    }
  }

  /** Lineage binding: two histories end in the same head exactly when they have the same segments with
      the same hashed bytes throughout, or a record of one collides with a record of the other. */
  lemma {:induction false} LineageBinding(c: Codec, xs: seq<seq<Record>>, ys: seq<seq<Record>>)
    requires Lawful(c) && Lineage(c, xs) && Lineage(c, ys)
    ensures || LineageCollision(c, xs, ys)
            || (Head(xs[|xs| - 1]) == Head(ys[|ys| - 1]) <==> SameLineage(c, xs, ys))
    decreases |xs|
  {
    var x, y := xs[|xs| - 1], ys[|ys| - 1];
    HeadBinding(c, x, y);
    if CollisionIn(c, x, y) {
      assert LineageCollision(c, xs, ys);
    } else if Head(x) == Head(y) {
      SameOpening(c, x, y);
      if |xs| > 1 {
        assert OpensFrom(c, xs, |xs| - 1);
      }
      if |ys| > 1 {
        assert OpensFrom(c, ys, |ys| - 1);
      }
      if |xs| > 1 && |ys| > 1 {
        BindEarlier(c, xs, ys);
      }
    }
  }

  lemma {:induction false} BindEarlier(c: Codec, xs: seq<seq<Record>>, ys: seq<seq<Record>>)
    requires Lawful(c) && Lineage(c, xs) && Lineage(c, ys) && |xs| > 1 && |ys| > 1
    requires SameImages(c, xs[|xs| - 1], ys[|ys| - 1])
    requires Head(xs[|xs| - 2]) == Head(ys[|ys| - 2])
    ensures LineageCollision(c, xs, ys) || SameLineage(c, xs, ys)
    decreases |xs|, 0
  {
    var px, py := xs[..|xs| - 1], ys[..|ys| - 1];
    LineagePrefix(c, xs);
    LineagePrefix(c, ys);
    LineageBinding(c, px, py);
    hide Lawful, Lineage, CollisionIn, SameImages;
    if LineageCollision(c, px, py) {
      var i, j :| 0 <= i < |px| && 0 <= j < |py| && CollisionIn(c, px[i], py[j]);
      assert CollisionIn(c, xs[i], ys[j]);
    } else {
      assert SameLineage(c, px, py);
      forall i | 0 <= i < |xs|
        ensures SameImages(c, xs[i], ys[i])
      {
        if i < |px| {
          assert SameImages(c, px[i], py[i]);
        }
      }
    }
  }

  /** The segment files of a history, as read back. */
  function SegmentsRead(c: Codec, h: History): seq<seq<Record>> {
    seq(|h.archives| + 1, i requires 0 <= i <= |h.archives| => Norms(c, Written(SegmentAt(h, i))))
  }

  /** The segments a store writes form a lineage, as long as its first record is not itself disguised
      as a rotation record. */
  lemma RunsWriteLineages(c: Codec, path: string, st: State, h: History)
    requires Lawful(c) && Healthy(c, path, st, h) && Timely(c, path, st, h)
    requires Written(h.live) != []
    requires Written(SegmentAt(h, 0))[0].target.typ != TARGET_ROTATION
    ensures Lineage(c, SegmentsRead(c, h))
    ensures Head(SegmentsRead(c, h)[|h.archives|]) == st.lastHash
  {
    HealthyHead(c, path, st, h);
    hide *;
    var segs := SegmentsRead(c, h);
    ReadAt(c, h);
    forall i | 0 <= i < |segs|
      ensures segs[i] != [] && Verified(c, segs[i]) && AllText(c, segs[i])
      ensures Head(segs[i]) == Head(Written(SegmentAt(h, i)))
    {
      SegmentReads(c, path, st, h, i);
    }
    forall i | 1 <= i < |segs|
      ensures OpensFrom(c, segs, i)
    {
      SegmentOpens(c, path, st, h, i);
    }
    SegmentReads(c, path, st, h, 0);
    NormKeepsType(c, Written(SegmentAt(h, 0)));
    IsLineage(c, segs);
  }

  lemma IsLineage(c: Codec, segs: seq<seq<Record>>)
    requires segs != []
    requires forall i | 0 <= i < |segs| :: segs[i] != [] && Verified(c, segs[i]) && AllText(c, segs[i])
    requires segs[0][0].target.typ != TARGET_ROTATION
    requires forall i | 1 <= i < |segs| :: OpensFrom(c, segs, i)
    ensures Lineage(c, segs)
  {
    hide Verified, AllText, OpensFrom;
  }

  lemma HealthyHead(c: Codec, path: string, st: State, h: History)
    requires Healthy(c, path, st, h)
    ensures st.lastHash == Head(Written(SegmentAt(h, |h.archives|)))
  {
    hide OnDisk;
  }

  lemma ReadAt(c: Codec, h: History)
    ensures |SegmentsRead(c, h)| == |h.archives| + 1
    ensures forall i | 0 <= i <= |h.archives| :: SegmentsRead(c, h)[i] == Norms(c, Written(SegmentAt(h, i)))
  {
  }

  lemma SegmentOpens(c: Codec, path: string, st: State, h: History, i: nat)
    requires Lawful(c) && Healthy(c, path, st, h) && Timely(c, path, st, h) && Written(h.live) != []
    requires 1 <= i <= |h.archives|
    ensures OpensFrom(c, SegmentsRead(c, h), i)
  {
    hide *;
    SegmentReads(c, path, st, h, i);
    SegmentReads(c, path, st, h, i - 1);
    SegmentLinks(c, path, st, h, i);
    LinkRead(c, SegmentAt(h, i).link.value, Written(SegmentAt(h, i)), Written(SegmentAt(h, i - 1)));
    ReadAt(c, h);
    OpensByLink(c, SegmentsRead(c, h), i);
  }

  lemma SegmentLinks(c: Codec, path: string, st: State, h: History, i: nat)
    requires Healthy(c, path, st, h) && Timely(c, path, st, h) && 1 <= i <= |h.archives|
    ensures SegmentAt(h, i).link.Some? && Written(SegmentAt(h, i))[0] == SegmentAt(h, i).link.value
    ensures LinksTo(c, SegmentAt(h, i).link.value, Written(SegmentAt(h, i - 1)))
  {
    hide Verified, LinksTo, ArchiveOnDisk, Resumed, Good;
    assert LinkAt(c, h, i) && SegmentAt(h, i).link.Some?;
  }

  lemma OpensByLink(c: Codec, segs: seq<seq<Record>>, i: nat)
    requires 1 <= i < |segs| && segs[i] != [] && LinksTo(c, segs[i][0], segs[i - 1])
    ensures OpensFrom(c, segs, i)
  {
  }

  lemma NormKeepsType(c: Codec, rs: seq<Record>)
    requires Lawful(c) && rs != [] && AllText(c, rs)
    ensures Norms(c, rs)[0].target.typ == rs[0].target.typ
  {
    assert rs[0] in rs;
    assert RecordLaws(c, rs[0]);
  }

  /** A rotation record links the segments as read, as it does the segments as written. */
  lemma LinkRead(c: Codec, r: Record, rs: seq<Record>, before: seq<Record>)
    requires Lawful(c) && rs != [] && rs[0] == r && AllText(c, rs) && LinksTo(c, r, before)
    requires Head(Norms(c, before)) == Head(before)
    ensures LinksTo(c, Norms(c, rs)[0], Norms(c, before))
  {
    assert r in rs;
    assert RecordLaws(c, r) && BytesLaws(c, r.observation);
  }

  lemma SegmentReads(c: Codec, path: string, st: State, h: History, i: nat)
    requires Lawful(c) && Healthy(c, path, st, h) && Written(h.live) != [] && i <= |h.archives|
    ensures var rs := Written(SegmentAt(h, i));
            && rs != [] && AllText(c, rs)
            && Verified(c, Norms(c, rs)) && AllText(c, Norms(c, rs)) && Head(Norms(c, rs)) == Head(rs)
  {
    var rs := Written(SegmentAt(h, i));
    if i < |h.archives| {
      assert ArchiveOnDisk(c, path, st.disk, h.archives[i]);
    }
    assert Good(c, rs);
    hide Healthy, OnDisk, ArchiveOnDisk;
    NormsVerify(c, rs);
    assert forall r | r in rs :: Storable(c, r);
    NormsAreText(c, rs);
  }

  lemma NormsAreText(c: Codec, rs: seq<Record>)
    requires Lawful(c) && AllStorable(c, rs)
    ensures AllText(c, Norms(c, rs))
  {
    forall n | n in Norms(c, rs)
      ensures Text(c, n)
    {
      var i :| 0 <= i < |rs| && Norms(c, rs)[i] == n;
      assert rs[i] in rs;
      assert RecordLaws(c, rs[i]) && BytesLaws(c, c.marshal(rs[i]).value);
    }
  }

  /** Two stores whose last hashes agree hold the same segments, rotation by rotation and record by
      record, as read back, or a collision is at hand. */
  lemma LastHashBindsHistory(c: Codec, path: string, st: State, h: History, path': string, st': State, h': History)
    requires Lawful(c)
    requires Healthy(c, path, st, h) && Timely(c, path, st, h)
    requires Healthy(c, path', st', h') && Timely(c, path', st', h')
    requires Written(h.live) != [] && Written(SegmentAt(h, 0))[0].target.typ != TARGET_ROTATION
    requires Written(h'.live) != [] && Written(SegmentAt(h', 0))[0].target.typ != TARGET_ROTATION
    requires st.lastHash == st'.lastHash
    ensures || LineageCollision(c, SegmentsRead(c, h), SegmentsRead(c, h'))
            || (|h.archives| == |h'.archives| && SameLineage(c, SegmentsRead(c, h), SegmentsRead(c, h')))
  {
    RunsWriteLineages(c, path, st, h);
    RunsWriteLineages(c, path', st', h');
    LineageBinding(c, SegmentsRead(c, h), SegmentsRead(c, h'));
  }
}
