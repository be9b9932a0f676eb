/** What a store has done so far, and how the files on disk reflect it. */
module History {
  import opened Evidence
  import opened Chain
  import opened LineFile
  import opened Paths
  import opened Store

  /** One chain: the rotation record it opens with, if any, and the records appended to it. */
  datatype Segment = Segment(link: Option<Record>, recs: seq<Record>)

  datatype Archive = Archive(name: string, at: Time, seg: Segment)

  datatype History = History(archives: seq<Archive>, live: Segment)

  const EMPTY_SEGMENT := Segment(None, [])

  /** The records whose lines are in the segment's file. */
  function Written(s: Segment): seq<Record> {
    (if s.link.Some? then [s.link.value] else []) + s.recs
  }

  /** Segment `i` in rotation order; the live file comes last. */
  function SegmentAt(h: History, i: nat): Segment
    requires i <= |h.archives|
  {
    if i < |h.archives| then h.archives[i].seg else h.live
  }

  /** All appended records, archives first: everything but the rotation records. */
  function Payload(h: History): seq<Record> { ArchivedPayload(h.archives) + h.live.recs }

  function ArchivedPayload(archives: seq<Archive>): seq<Record> {
    if archives == [] then []
    else ArchivedPayload(archives[..|archives| - 1]) + archives[|archives| - 1].seg.recs
  }

  /** `r` is a rotation record that names the head and the size of the chain `rs`. */
  predicate LinksTo(c: Codec, r: Record, rs: seq<Record>) {
    r.target.typ == TARGET_ROTATION && c.parseLink(r.observation) == Some(Link(Head(rs), |rs|))
  }

  ghost predicate ArchiveOnDisk(c: Codec, path: string, disk: map<string, string>, a: Archive) {
    && a.name == ArchiveName(c, path, a.at)
    && a.name in disk && disk[a.name] == FileOf(c, Written(a.seg))
    && Good(c, Written(a.seg)) && Written(a.seg) != []
  }

  /** The rotation record of segment `i`, where there is one, links to segment `i - 1`. */
  predicate LinkAt(c: Codec, h: History, i: nat)
    requires i <= |h.archives|
  {
    SegmentAt(h, i).link.Some? ==>
      i > 0 && LinksTo(c, SegmentAt(h, i).link.value, Written(SegmentAt(h, i - 1)))
  }

  /** The files on disk are exactly the segments of the history. */
  ghost predicate OnDisk(c: Codec, path: string, disk: map<string, string>, h: History) {
    && (forall i | 0 <= i < |h.archives| :: ArchiveOnDisk(c, path, disk, h.archives[i]))
    && (forall i, j | 0 <= i < j < |h.archives| :: h.archives[i].name != h.archives[j].name)
    && Content(disk, path) == FileOf(c, Written(h.live))
    && Good(c, Written(h.live))
    && (forall i | 0 <= i <= |h.archives| :: LinkAt(c, h, i))
  }

  /** The store's fields agree with the live file: an open store between two operations. */
  ghost predicate Healthy(c: Codec, path: string, st: State, h: History) {
    && OnDisk(c, path, st.disk, h)
    && path in st.disk && st == Resumed(st.disk, Written(h.live))
  }

  /** Every segment file is read back as its records, and its chain is accepted. */
  lemma FilesAccepted(c: Codec, path: string, disk: map<string, string>, h: History)
    requires Lawful(c) && OnDisk(c, path, disk, h)
    ensures ReadSpec(c, Content(disk, path)) == Records(Norms(c, Written(h.live)))
    ensures Accepted(c, Content(disk, path))
    ensures forall i | 0 <= i < |h.archives| ::
              && ReadSpec(c, disk[h.archives[i].name]) == Records(Norms(c, Written(h.archives[i].seg)))
              && Accepted(c, disk[h.archives[i].name])
  {
    GoodAccepted(c, Written(h.live));
    forall i | 0 <= i < |h.archives|
      ensures && ReadSpec(c, disk[h.archives[i].name]) == Records(Norms(c, Written(h.archives[i].seg)))
              && Accepted(c, disk[h.archives[i].name])
    {
      GoodAccepted(c, Written(h.archives[i].seg));
    }
  }

  /** Opening rebuilds exactly the fields of the store that wrote the file. */
  lemma OpenRebuilds(c: Codec, path: string, disk: map<string, string>, h: History)
    requires Lawful(c) && OnDisk(c, path, disk, h)
    ensures OpenSpec(c, path, disk) == Open(Resumed(disk[path := Content(disk, path)], Written(h.live)))
    ensures Healthy(c, path, Resumed(disk[path := Content(disk, path)], Written(h.live)), h)
  {
    var rs := Written(h.live);
    GoodAccepted(c, rs);
    if rs != [] {
      assert RecordLaws(c, rs[0]);
    }
    var d := disk[path := Content(disk, path)];
    forall i | 0 <= i < |h.archives|
      ensures ArchiveOnDisk(c, path, d, h.archives[i])
    {
      assert ArchiveOnDisk(c, path, disk, h.archives[i]);
      ArchiveNames(c, path, h.archives[i].at, h.archives[i].at);
    }
  }

  /** One more record in the live segment. */
  lemma LiveGrows(c: Codec, path: string, disk: map<string, string>, h: History, live: Segment, r: Record)
    requires Lawful(c) && OnDisk(c, path, disk, h)
    requires Written(live) == Written(h.live) + [r]
    requires Extends(c, Head(Written(h.live)), r) && Storable(c, r)
    requires LinkAt(c, h.(live := live), |h.archives|)
    ensures OnDisk(c, path, disk[path := Content(disk, path) + LineOf(c, r)], h.(live := live))
  {
    hide ArchiveOnDisk, Good, LinkAt, FileOf, Lawful, LineOf, Written, Extends, Storable;
    var d := disk[path := Content(disk, path) + LineOf(c, r)];
    var h' := h.(live := live);
    FileSnoc(c, Written(h.live), r);
    GoodSnoc(c, Written(h.live), r);
    ArchivesUntouched(c, path, disk, d, h);
    forall i | 0 <= i <= |h'.archives|
      ensures LinkAt(c, h', i)
    {
      if i < |h.archives| {
        SameLink(c, h, h', i);
      }
    }
  }

  lemma ArchivesUntouched(c: Codec, path: string, disk: map<string, string>, disk': map<string, string>, h: History)
    requires Lawful(c) && forall i | 0 <= i < |h.archives| :: ArchiveOnDisk(c, path, disk, h.archives[i])
    requires forall name | name in disk && name != path :: name in disk' && disk'[name] == disk[name]
    ensures forall i | 0 <= i < |h.archives| :: ArchiveOnDisk(c, path, disk', h.archives[i])
  {
    hide Lawful, ArchiveOnDisk;
    forall i | 0 <= i < |h.archives|
      ensures ArchiveOnDisk(c, path, disk', h.archives[i])
    {
      ArchiveUntouched(c, path, disk, disk', h.archives[i]);
    }
  }

  lemma GoodSnoc(c: Codec, rs: seq<Record>, r: Record)
    requires Good(c, rs) && Extends(c, Head(rs), r) && Storable(c, r)
    ensures Good(c, rs + [r])
  {
    VerifiedSnoc(c, rs, r);
    hide Verified, Extends, Storable;
  }

  /** Writing the live file leaves an archive as it is. */
  lemma ArchiveUntouched(c: Codec, path: string, disk: map<string, string>, disk': map<string, string>, a: Archive)
    requires Lawful(c) && ArchiveOnDisk(c, path, disk, a)
    requires forall name | name in disk && name != path :: name in disk' && disk'[name] == disk[name]
    ensures ArchiveOnDisk(c, path, disk', a)
  {
    ArchiveNames(c, path, a.at, a.at);
    hide Lawful, Good, FileOf, ArchiveName;
  }

  lemma SameLink(c: Codec, h: History, h': History, i: nat)
    requires i < |h.archives| && h'.archives == h.archives && LinkAt(c, h, i)
    ensures LinkAt(c, h', i)
  {
    hide LinksTo;
  }

  /** The disk after the live file was renamed. */
  function RenamedDisk(c: Codec, path: string, disk: map<string, string>, now: Time): map<string, string>
    requires path in disk
  {
    (disk - {path})[ArchiveName(c, path, now) := disk[path]]
  }

  function RotatedHistory(c: Codec, path: string, h: History, now: Time): History {
    History(h.archives + [Archive(ArchiveName(c, path, now), now, h.live)], EMPTY_SEGMENT)
  }

  /** The live file becomes the newest archive. */
  lemma LiveArchived(c: Codec, path: string, disk: map<string, string>, h: History, now: Time)
    requires Lawful(c) && OnDisk(c, path, disk, h)
    requires path in disk && Written(h.live) != [] && ArchiveName(c, path, now) !in disk
    ensures OnDisk(c, path, RenamedDisk(c, path, disk, now), RotatedHistory(c, path, h, now))
  {
    var h' := RotatedHistory(c, path, h, now);
    ArchiveNames(c, path, now, now);
    forall i | 0 <= i < |h.archives|
      ensures ArchiveOnDisk(c, path, disk, h.archives[i]) && LinkAt(c, h, i)
    {
    }
    assert LinkAt(c, h, |h.archives|);
    EmptyIsGood(c);
    hide ArchiveOnDisk, Good, LinkAt, FileOf, Lawful, ArchiveName;
    LiveIsArchive(c, path, disk, h, now);
    forall i | 0 <= i < |h'.archives|
      ensures ArchiveOnDisk(c, path, RenamedDisk(c, path, disk, now), h'.archives[i])
      ensures h'.archives[i].name == ArchiveName(c, path, now) <==> i == |h.archives|
    {
      if i < |h.archives| {
        ArchiveStays(c, path, disk, h.archives[i], now);
      }
    }
    forall i | 0 <= i <= |h'.archives|
      ensures LinkAt(c, h', i)
    {
      LinkStays(c, path, h, now, i);
    }
  }

  lemma EmptyIsGood(c: Codec)
    ensures Good(c, Written(EMPTY_SEGMENT)) && FileOf(c, Written(EMPTY_SEGMENT)) == ""
  {
  }

  lemma ArchiveStays(c: Codec, path: string, disk: map<string, string>, a: Archive, now: Time)
    requires Lawful(c) && ArchiveOnDisk(c, path, disk, a) && path in disk && ArchiveName(c, path, now) !in disk
    ensures ArchiveOnDisk(c, path, RenamedDisk(c, path, disk, now), a) && a.name != ArchiveName(c, path, now)
  {
    ArchiveNames(c, path, a.at, now);
  }

  lemma LiveIsArchive(c: Codec, path: string, disk: map<string, string>, h: History, now: Time)
    requires Content(disk, path) == FileOf(c, Written(h.live)) && Good(c, Written(h.live))
    requires path in disk && Written(h.live) != []
    ensures ArchiveOnDisk(c, path, RenamedDisk(c, path, disk, now), Archive(ArchiveName(c, path, now), now, h.live))
  {
    hide Good, FileOf;
  }

  lemma LinkStays(c: Codec, path: string, h: History, now: Time, i: nat)
    requires i <= |h.archives| + 1 && (i <= |h.archives| ==> LinkAt(c, h, i))
    ensures LinkAt(c, RotatedHistory(c, path, h, now), i)
  {
    var h' := RotatedHistory(c, path, h, now);
    if i <= |h.archives| {
      assert SegmentAt(h', i) == SegmentAt(h, i) && (i > 0 ==> SegmentAt(h', i - 1) == SegmentAt(h, i - 1));
    }
  }
}
