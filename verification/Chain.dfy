/** The hash chain: sealing records and checking a list of them. */
module Chain {
  import opened Evidence

  datatype SealError = AlreadySealed | Unencodable

  datatype Sealing = Sealing(record: Record, head: string, err: Option<SealError>)

  /** What `Seal` does to the record and to the chain's head. A record that fails to encode keeps the
      ID and the link it was given, and the head stays. */
  function SealSpec(c: Codec, head: string, r: Record, freshId: string): Sealing {
    if r.hash != "" then Sealing(r, head, Some(AlreadySealed)) else
    var linked := r.(id := if r.id == "" then freshId else r.id, prevHash := head);
    match ComputeHash(c, linked)
    case None => Sealing(linked, head, Some(Unencodable))
    case Some(h) => Sealing(linked.(hash := h), h, None)
  }

  class HashChain {
    var lastHash: string

    constructor New()
      ensures lastHash == ""
    {
      lastHash := "";
    }

    constructor Resume(last: string)
      ensures lastHash == last
    {
      lastHash := last;
    }

    /** `NewID` is the input `freshId`; the record comes back as `sealed`. */
    method Seal(c: Codec, r: Record, freshId: string) returns (sealed: Record, err: Option<SealError>)
      modifies this
      ensures Sealing(sealed, lastHash, err) == SealSpec(c, old(lastHash), r, freshId)
      ensures err.None? ==> Extends(c, old(lastHash), sealed) && lastHash == sealed.hash
      ensures err.Some? ==> lastHash == old(lastHash) && sealed.hash == r.hash
    {
      sealed := r;
      if sealed.hash != "" {
        return sealed, Some(AlreadySealed);
      }
      if sealed.id == "" {
        sealed := sealed.(id := freshId);
      }
      sealed := sealed.(prevHash := lastHash);
      assert WithHash(sealed, "") == sealed;
      var h := ComputeHash(c, sealed);
      if h.None? {
        return sealed, Some(Unencodable);
      }
      sealed := sealed.(hash := h.value);
      assert WithHash(sealed, "") == WithHash(sealed.(hash := ""), "");
      lastHash := h.value;
      err := None;
    }
  }

  /** The stored hash is the hash of the record. */
  predicate Sound(c: Codec, r: Record) { ComputeHash(c, r) == Some(r.hash) }

  /** `r` is a sound record that links to `head`. */
  predicate Extends(c: Codec, head: string, r: Record) { r.prevHash == head && Sound(c, r) }

  /** The hash of the last record, "" for none. */
  function Head(rs: seq<Record>): string { if rs == [] then "" else rs[|rs| - 1].hash }

  /** The hash of the record before position `i`, "" at the start. */
  function PrevAt(rs: seq<Record>, i: nat): string
    requires i <= |rs|
  {
    if i == 0 then "" else rs[i - 1].hash
  }

  /** Record `i` is sound and links to the record before it. */
  predicate LinkedAt(c: Codec, rs: seq<Record>, i: nat)
    requires i < |rs|
  {
    Extends(c, PrevAt(rs, i), rs[i])
  }

  ghost predicate Verified(c: Codec, rs: seq<Record>) {
    forall i | 0 <= i < |rs| :: LinkedAt(c, rs, i)
  }

  datatype Violation = PrevMismatch(at: nat) | RehashFailed(at: nat) | HashMismatch(at: nat)

  /** The check accepts exactly the verified chains, and otherwise names the first record that does
      not extend the records before it. */
  method Verify(c: Codec, records: seq<Record>) returns (err: Option<Violation>)
    ensures err.None? <==> Verified(c, records)
    ensures err.Some? ==>
              && err.value.at < |records|
              && Verified(c, records[..err.value.at])
              && !Verified(c, records[..err.value.at + 1])
    ensures err.Some? ==>
              var r := records[err.value.at];
              && (err.value.PrevMismatch? <==> r.prevHash != PrevAt(records, err.value.at))
              && (err.value.RehashFailed? ==> ComputeHash(c, r).None?)
              && (err.value.HashMismatch? ==> ComputeHash(c, r).Some? && ComputeHash(c, r).value != r.hash)
  {
    var prev := "";
    for i := 0 to |records|
      invariant prev == Head(records[..i])
      invariant Verified(c, records[..i])
    {
      var r := records[i];
      assert records[..i + 1] == records[..i] + [r];
      VerifiedSnoc(c, records[..i], r);
      assert PrevAt(records, i) == prev;
      if Verified(c, records) {
        VerifiedPrefix(c, records, i + 1);
      }
      if r.prevHash != prev {
        return Some(PrevMismatch(i));
      }
      var h := ComputeHash(c, r);
      if h.None? {
        return Some(RehashFailed(i));
      }
      if h.value != r.hash {
        return Some(HashMismatch(i));
      }
      prev := r.hash;
    }
    assert records[..|records|] == records;
    err := None;
  }

  /** Every prefix of a verified chain is one: removing records at the end is not detected. */
  lemma VerifiedPrefix(c: Codec, rs: seq<Record>, k: nat)
    requires Verified(c, rs) && k <= |rs|
    ensures Verified(c, rs[..k])
  {
    forall i | 0 <= i < k
      ensures LinkedAt(c, rs[..k], i)
    {
      assert LinkedAt(c, rs, i);
      assert PrevAt(rs[..k], i) == PrevAt(rs, i);
    }
  }

  lemma VerifiedSnoc(c: Codec, rs: seq<Record>, r: Record)
    ensures Verified(c, rs + [r]) <==> Verified(c, rs) && Extends(c, Head(rs), r)
    ensures Head(rs + [r]) == r.hash
  {
    var all := rs + [r];
    assert PrevAt(all, |rs|) == Head(rs);
    assert LinkedAt(c, all, |rs|) <==> Extends(c, Head(rs), r);
    assert all[..|rs|] == rs;
    if Verified(c, all) {
      VerifiedPrefix(c, all, |rs|);
    }
    if Verified(c, rs) {
      forall i | 0 <= i < |rs|
        ensures LinkedAt(c, all, i)
      {
        assert LinkedAt(c, rs, i) && PrevAt(all, i) == PrevAt(rs, i);
      }
    }
  }

  /** What is checked of each record: it names the hash of the one before it, the first one none, and its own
      hash is the digest of its encoding without it. */
  lemma VerifiedMeans(c: Codec, rs: seq<Record>, r: Record)
    ensures Verified(c, [])
    ensures Verified(c, rs + [r]) <==>
              && Verified(c, rs) && r.prevHash == (if rs == [] then "" else rs[|rs| - 1].hash)
              && c.marshal(r.(hash := "")).Some? && r.hash == c.digest(c.marshal(r.(hash := "")).value)
  {
    VerifiedSnoc(c, rs, r);
  }

  /** Sealing succeeds exactly on unsealed records JSON can encode. The sealed record extends the head
      and differs from the one passed in only in its seal. */
  lemma SealExtends(c: Codec, head: string, r: Record, freshId: string)
    requires Lawful(c)
    ensures var s := SealSpec(c, head, r, freshId);
            && (s.err.None? <==> r.hash == "" && c.encodable(r.collectedAt, r.observation))
            && (s.err.None? ==> Extends(c, head, s.record) && s.head == s.record.hash && Hex(s.head) && s.head != "")
            && (s.err.None? ==> c.marshal(s.record).Some?)
            && (s.err.Some? ==> s.head == head && s.record.hash == r.hash)
            && (s.err == Some(AlreadySealed) <==> r.hash != "") && (r.hash != "" ==> s.record == r)
            && (r.hash == "" ==> s.record.prevHash == head)
            && Unsealed(s.record) == Unsealed(r).(id := s.record.id)
            && (r.id != "" ==> s.record.id == r.id)
            && (r.id == "" && r.hash == "" ==> s.record.id == freshId)
  {
    var s := SealSpec(c, head, r, freshId);
    if r.hash == "" {
      var linked := r.(id := if r.id == "" then freshId else r.id, prevHash := head);
      assert WithHash(linked, "") == linked;
      assert RecordLaws(c, linked);
      if s.err.None? {
        assert WithHash(s.record, "") == linked;
        HashForm(c, linked);
        EncodesAlike(c, s.record, linked);
      }
    }
  }

  /** The record without its seal: what the caller supplied. */
  function Unsealed(r: Record): Record { r.(prevHash := "", hash := "") }
}
