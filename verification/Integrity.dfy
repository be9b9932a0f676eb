/** How far the chain check reaches: what two accepted lists with a record in common must share. */
module Integrity {
  import opened Evidence
  import opened Chain

  /** The two lists agree on every byte their hashes cover. */
  ghost predicate SameImages(c: Codec, xs: seq<Record>, ys: seq<Record>) {
    |xs| == |ys| && forall i | 0 <= i < |xs| :: Image(c, xs[i]) == Image(c, ys[i])
  }

  lemma VerifiedAt(c: Codec, rs: seq<Record>, i: nat)
    requires Lawful(c) && Verified(c, rs) && i < |rs|
    ensures Image(c, rs[i]).Some? && ComputeHash(c, rs[i]) == Some(rs[i].hash)
    ensures |rs[i].hash| == 64 && Hex(rs[i].hash)
    ensures rs[i].prevHash == PrevAt(rs, i) && c.utf8(rs[i].prevHash)
  {
    assert LinkedAt(c, rs, i);
    HashForm(c, rs[i]);
    EmptyIsText(c);
    if i > 0 {
      assert LinkedAt(c, rs, i - 1);
      HashForm(c, rs[i - 1]);
    }
  }

  lemma CollisionGrows(c: Codec, xs: seq<Record>, ys: seq<Record>, moreXs: seq<Record>, moreYs: seq<Record>)
    requires CollisionIn(c, xs, ys) && xs <= moreXs && ys <= moreYs
    ensures CollisionIn(c, moreXs, moreYs)
  {
    var i, j :| 0 <= i < |xs| && 0 <= j < |ys| && Collides(c, xs[i], ys[j]);
    assert Collides(c, moreXs[i], moreYs[j]);
  }

  /** In two accepted lists, equal hashes at some positions mean that everything up to there agrees,
      unless two of the encodings collide. */
  lemma {:induction false} SharedHash(c: Codec, xs: seq<Record>, ys: seq<Record>, i: nat, j: nat)
    requires Lawful(c) && Verified(c, xs) && Verified(c, ys)
    requires i < |xs| && j < |ys| && xs[i].hash == ys[j].hash
    ensures CollisionIn(c, xs, ys) || (i == j && SameImages(c, xs[..i + 1], ys[..j + 1]))
  {
    VerifiedAt(c, xs, i);
    VerifiedAt(c, ys, j);
    if Image(c, xs[i]) != Image(c, ys[j]) {
      assert Collides(c, xs[i], ys[j]);
    } else {
      ImageDetermines(c, xs[i], ys[j]);
      assert xs[..i + 1] == xs[..i] + [xs[i]] && ys[..j + 1] == ys[..j] + [ys[j]];
      if i > 0 && j > 0 {
        SharedHash(c, xs, ys, i - 1, j - 1);
      } else if i > 0 {
        VerifiedAt(c, xs, i - 1);
      } else if j > 0 {
        VerifiedAt(c, ys, j - 1);
      }
    }
  }

  /** Head binding: the last hash stands for the whole list. Two accepted lists have the same head
      exactly when they have the same length and the same hashed bytes throughout, or a record of one
      collides with a record of the other. */
  lemma HeadBinding(c: Codec, xs: seq<Record>, ys: seq<Record>)
    requires Lawful(c) && Verified(c, xs) && Verified(c, ys)
    ensures CollisionIn(c, xs, ys) || (Head(xs) == Head(ys) <==> SameImages(c, xs, ys))
  {
    if xs != [] {
      VerifiedAt(c, xs, |xs| - 1);
    }
    if ys != [] {
      VerifiedAt(c, ys, |ys| - 1);
    }
    if xs != [] && ys != [] && Head(xs) == Head(ys) {
      SharedHash(c, xs, ys, |xs| - 1, |ys| - 1);
      assert xs[..|xs|] == xs && ys[..|ys|] == ys;
    }
  }

  /** Equal images are equal records as read back, seal included. */
  lemma SameImagesSameRecords(c: Codec, xs: seq<Record>, ys: seq<Record>)
    requires Lawful(c) && Verified(c, xs) && Verified(c, ys) && SameImages(c, xs, ys)
    ensures forall i | 0 <= i < |xs| :: c.norm(xs[i]) == c.norm(ys[i])
  {
    forall i | 0 <= i < |xs|
      ensures c.norm(xs[i]) == c.norm(ys[i])
    {
      VerifiedAt(c, xs, i);
      VerifiedAt(c, ys, i);
      ImageDetermines(c, xs[i], ys[i]);
      NormKeepsHash(c, xs[i]);
      NormKeepsHash(c, ys[i]);
      assert c.norm(xs[i]) == WithHash(WithHash(c.norm(xs[i]), ""), xs[i].hash);
      assert c.norm(ys[i]) == WithHash(WithHash(c.norm(ys[i]), ""), ys[i].hash);
    }
  }

  lemma NormKeepsHash(c: Codec, r: Record)
    requires Lawful(c) && Sound(c, r)
    ensures c.norm(r).hash == r.hash
    ensures WithHash(c.norm(r), "") == c.norm(WithHash(r, ""))
    ensures Image(c, c.norm(r)) == c.marshal(c.norm(WithHash(r, "")))
  {
    HashForm(c, r);
    EmptyIsText(c);
    assert RecordLaws(c, r);
    assert WithHash(r, r.hash) == r;
    assert c.norm(WithHash(r, r.hash)).hash == r.hash;
    assert c.norm(WithHash(r, "")) == WithHash(c.norm(r), "");
  }

  /** No hash occurs twice in an accepted list. */
  lemma HashesDistinct(c: Codec, rs: seq<Record>)
    requires Lawful(c) && Verified(c, rs)
    ensures CollisionIn(c, rs, rs) || forall i, j | 0 <= i < j < |rs| :: rs[i].hash != rs[j].hash
  {
    if i, j :| 0 <= i < j < |rs| && rs[i].hash == rs[j].hash {
      SharedHash(c, rs, rs, i, j);
    }
  }

  /** The exact reach of the check on lists made of the records of an accepted list `rs`: it accepts
      the prefixes of `rs` and nothing else. Deletion, reordering and duplication are all detected;
      removal at the end is not. */
  lemma {:induction false} AcceptsOnlyPrefixes(c: Codec, rs: seq<Record>, s: seq<Record>)
    requires Lawful(c) && Verified(c, rs)
    requires forall r :: r in s ==> r in rs
    ensures CollisionIn(c, rs, rs) || (Verified(c, s) <==> s <= rs)
  {
    if s <= rs {
      assert s == rs[..|s|];
      VerifiedPrefix(c, rs, |s|);
    }
    if s != [] && Verified(c, s) {
      var init, r := s[..|s| - 1], s[|s| - 1];
      assert s == init + [r] && r in s;
      VerifiedSnoc(c, init, r);
      AcceptsOnlyPrefixes(c, rs, init);
      NextInPrefix(c, rs, init, r);
    }
  }

  /** Only the next record of an accepted list extends its prefix. */
  lemma NextInPrefix(c: Codec, rs: seq<Record>, init: seq<Record>, r: Record)
    requires Lawful(c) && Verified(c, rs) && r in rs && Extends(c, Head(init), r)
    ensures CollisionIn(c, rs, rs) || (init <= rs ==> init + [r] <= rs)
  {
    HashesDistinct(c, rs);
    if !CollisionIn(c, rs, rs) && init <= rs {
      var j :| 0 <= j < |rs| && rs[j] == r;
      VerifiedAt(c, rs, j);
      assert PrevAt(rs, j) == Head(init) == PrevAt(rs, |init|);
      if j > 0 {
        VerifiedAt(c, rs, j - 1);
      }
      if init != [] {
        VerifiedAt(c, rs, |init| - 1);
      }
      assert j == |init|;
    }
  }
}
