/** Whole runs of a store without file-system faults: appends, rotations and restarts in any order. */
module Runs {
  import opened Evidence
  import opened Chain
  import opened Integrity
  import opened LineFile
  import opened Paths
  import opened Store
  import opened History

  datatype Event =
    | Append(r: Record, freshId: string)
    | Rotate(maxAge: int, now: Time, freshId: string)
    | Reopen

  /** `Append` is given a record it accepts. */
  predicate Accepts(c: Codec, r: Record) { r.hash == "" && c.encodable(r.collectedAt, r.observation) }

  function SealedBy(c: Codec, st: State, r: Record, freshId: string): Record {
    SealSpec(c, st.lastHash, r, freshId).record
  }

  /** The rotation record as it is written. */
  function SealedRotation(c: Codec, path: string, st: State, now: Time, freshId: string): Record {
    SealSpec(c, "", RotationRecord(c, ArchiveName(c, path, now), st.lastHash, st.count, now), freshId).record
  }

  /** What the run theorems ask of one event. Records must be readable back, which `Append` does not
      check; a rotation age must be at least one second, the resolution of archive names. */
  ghost predicate GoodEvent(c: Codec, path: string, st: State, e: Event) {
    match e
    case Append(r, id) => Accepts(c, r) ==> Storable(c, SealedBy(c, st, r, id))
    case Rotate(maxAge, now, id) =>
      maxAge >= SECOND && (Due(st, maxAge, now) ==> Storable(c, SealedRotation(c, path, st, now, id)))
    case Reopen => true
  }

  ghost function Step(c: Codec, path: string, st: State, e: Event): State {
    match e
    case Append(r, id) => AppendSpec(c, path, st, r, id, NoFault).st
    case Rotate(maxAge, now, id) => RotateSpec(c, path, st, maxAge, now, id, NoFault).st
    case Reopen =>
      match OpenSpec(c, path, st.disk)
      case Open(reopened) => reopened
      case Refused => st.(open := false)
  }

  function HistoryStep(c: Codec, path: string, st: State, h: History, e: Event): History {
    match e
    case Append(r, id) =>
      if Accepts(c, r) then h.(live := h.live.(recs := h.live.recs + [SealedBy(c, st, r, id)])) else h
    case Rotate(maxAge, now, id) =>
      if Due(st, maxAge, now) then
        History(h.archives + [Archive(ArchiveName(c, path, now), now, h.live)],
                Segment(Some(SealedRotation(c, path, st, now, id)), []))
      else h
    case Reopen => h
  }

  /** Rotations are at least a second apart and no file has the name of a later rotation. */
  ghost predicate Timely(c: Codec, path: string, st: State, h: History) {
    && (forall i, j | 0 <= i < j < |h.archives| :: h.archives[i].at + SECOND <= h.archives[j].at)
    && (h.archives != [] ==>
          && h.live.link.Some?
          && h.live.link.value.collectedAt == h.archives[|h.archives| - 1].at)
    && (h.archives == [] ==> h.live.link.None?)
    && (forall t {:trigger ArchiveName(c, path, t)} :: ArchiveName(c, path, t) in st.disk ==>
          h.archives != [] && Second(t) <= Second(h.archives[|h.archives| - 1].at))
    && (forall i | 1 <= i <= |h.archives| :: SegmentAt(h, i).link.Some?)
  }

  lemma AppendAccepts(c: Codec, path: string, st: State, r: Record, freshId: string, fault: Fault)
    requires Lawful(c)
    ensures var s := SealedBy(c, st, r, freshId);
            var a := AppendSpec(c, path, st, r, freshId, fault);
            && (Accepts(c, r) ==>
                  && Extends(c, st.lastHash, s) && c.marshal(s).Some? && s.collectedAt == r.collectedAt
                  && s.hash != "" && c.utf8(s.hash))
            && (Accepts(c, r) && st.open && fault == NoFault ==>
                  && a.err.None? && a.record == s
                  && a.st == State(st.disk[path := Content(st.disk, path) + LineOf(c, s)], true, s.hash,
                                   st.count + 1, if st.count == 0 then r.collectedAt else st.firstAt))
            && (!Accepts(c, r) ==> a.err.Some? && a.st == st)
  {
    SealExtends(c, st.lastHash, r, freshId);
    assert SealedBy(c, st, r, freshId).collectedAt == Unsealed(SealedBy(c, st, r, freshId)).collectedAt;
    if Accepts(c, r) {
      assert BytesLaws(c, SealedBy(c, st, r, freshId).hash);
    }
  }

  lemma AppendHealthy(c: Codec, path: string, st: State, h: History, r: Record, id: string)
    requires Lawful(c) && Healthy(c, path, st, h) && Accepts(c, r) && Storable(c, SealedBy(c, st, r, id))
    ensures Healthy(c, path, Step(c, path, st, Append(r, id)), HistoryStep(c, path, st, h, Append(r, id)))
  {
    AppendAccepts(c, path, st, r, id, NoFault);
    var s := SealedBy(c, st, r, id);
    var live := h.live.(recs := h.live.recs + [s]);
    assert Written(live) == Written(h.live) + [s];
    assert LinkAt(c, h, |h.archives|);
    LiveGrows(c, path, st.disk, h, live, s);
  }

  /** The rotation record names the head and the count the store had, and is as storable as it is
      encodable. It carries no control: `appendLocked` does not apply the mapping. */
  lemma RotationSealed(c: Codec, path: string, st: State, now: Time, id: string)
    requires Lawful(c) && Hex(st.lastHash)
    ensures var s := SealedRotation(c, path, st, now, id);
            && s.target.typ == TARGET_ROTATION == "evidenced/chain-rotation"
            && c.parseLink(s.observation) == Some(Link(st.lastHash, st.count))
            && s.collectedAt == now && s.controlIds == [] && s.prevHash == ""
            && s.target.name == Base(ArchiveName(c, path, now)) && s.target.attributes == map[]
            && s.outcome == "observed" && s.error == "" && s.id == id
            && s.collectorId == "evidenced" && s.collectorVersion == "1"
            && s.observation == c.linkJson(st.lastHash, st.count, Base(ArchiveName(c, path, now)))
            && (Storable(c, s) ==> Accepts(c, RotationRecord(c, ArchiveName(c, path, now), st.lastHash, st.count, now)))
  {
    var r := RotationRecord(c, ArchiveName(c, path, now), st.lastHash, st.count, now);
    SealExtends(c, "", r, id);
    var s := SealedRotation(c, path, st, now, id);
    var u := Unsealed(s);
    assert u == Unsealed(r).(id := s.id);
    assert u.observation == s.observation && u.target == s.target;
    assert u.controlIds == s.controlIds && u.collectedAt == s.collectedAt && u.outcome == s.outcome;
    assert u.error == s.error && u.collectorId == s.collectorId && u.collectorVersion == s.collectorVersion;
    assert RecordLaws(c, s) && RecordLaws(c, r);
  }

  lemma HeadIsHex(c: Codec, rs: seq<Record>)
    requires Lawful(c) && Verified(c, rs)
    ensures Hex(Head(rs)) && (rs != [] ==> Head(rs) != "")
  {
    if rs != [] {
      VerifiedAt(c, rs, |rs| - 1);
    }
  }

  /** A fault-free rotation is the rename followed by an append to a new, empty file. */
  lemma RotateUnfolds(c: Codec, path: string, st: State, maxAge: int, now: Time, id: string)
    requires Lawful(c) && st.open && path in st.disk && Due(st, maxAge, now) && Hex(st.lastHash)
    requires Storable(c, SealedRotation(c, path, st, now, id))
    ensures var s := SealedRotation(c, path, st, now, id);
            var d := RenamedDisk(c, path, st.disk, now)[path := LineOf(c, s)];
            && RotateSpec(c, path, st, maxAge, now, id, NoFault)
               == Rotated(State(d, true, s.hash, 1, now), ArchiveName(c, path, now), None)
            && d == RenamedDisk(c, path, st.disk, now)
                    [path := Content(RenamedDisk(c, path, st.disk, now), path) + LineOf(c, s)]
            && Extends(c, "", s)
  {
    ArchiveNames(c, path, now, now);
    RotationSealed(c, path, st, now, id);
    var created := State(RenamedDisk(c, path, st.disk, now)[path := ""], true, "", 0, 0);
    var r := RotationRecord(c, ArchiveName(c, path, now), st.lastHash, st.count, now);
    AppendAccepts(c, path, created, r, id, NoFault);
    var renamed := RenamedDisk(c, path, st.disk, now);
    assert path !in renamed && Content(renamed, path) == "";
    var s := SealedRotation(c, path, st, now, id);
    assert s == SealedBy(c, created, r, id);
    assert "" + LineOf(c, s) == LineOf(c, s);
    assert created.disk[path := LineOf(c, s)] == renamed[path := LineOf(c, s)];
  }

  lemma RotateHealthy(c: Codec, path: string, st: State, h: History, maxAge: int, now: Time, id: string)
    requires Lawful(c) && Healthy(c, path, st, h) && Due(st, maxAge, now)
    requires Storable(c, SealedRotation(c, path, st, now, id)) && ArchiveName(c, path, now) !in st.disk
    ensures var e := Rotate(maxAge, now, id);
            Healthy(c, path, Step(c, path, st, e), HistoryStep(c, path, st, h, e))
  {
    HeadIsHex(c, Written(h.live));
    RotateUnfolds(c, path, st, maxAge, now, id);
    RotationSealed(c, path, st, now, id);
    LiveArchived(c, path, st.disk, h, now);
    var s := SealedRotation(c, path, st, now, id);
    assert Written(Segment(Some(s), [])) == Written(EMPTY_SEGMENT) + [s] == [s];
    LiveGrows(c, path, RenamedDisk(c, path, st.disk, now), RotatedHistory(c, path, h, now), Segment(Some(s), []), s);
  }

  /** A rotation that is due comes at least `maxAge` after the one before, even if the clock moved back
      or the process restarted in between, because the rotation record's time is the segment's first.
      So its archive name is free. */
  lemma RotationSpacing(c: Codec, path: string, st: State, h: History, maxAge: int, now: Time)
    requires Lawful(c) && Healthy(c, path, st, h) && Timely(c, path, st, h)
    requires maxAge >= SECOND && Due(st, maxAge, now)
    ensures h.archives != [] ==> h.archives[|h.archives| - 1].at + maxAge <= now
    ensures ArchiveName(c, path, now) !in st.disk
  {
    if h.archives != [] {
      assert Written(h.live)[0] == h.live.link.value;
    }
  }

  lemma TimelyRotation(c: Codec, path: string, st: State, h: History, maxAge: int, now: Time, id: string)
    requires Lawful(c) && Healthy(c, path, st, h) && Timely(c, path, st, h)
    requires GoodEvent(c, path, st, Rotate(maxAge, now, id)) && Due(st, maxAge, now)
    ensures var e := Rotate(maxAge, now, id);
            Timely(c, path, Step(c, path, st, e), HistoryStep(c, path, st, h, e))
  {
    RotationSpacing(c, path, st, h, maxAge, now);
    HeadIsHex(c, Written(h.live));
    RotateUnfolds(c, path, st, maxAge, now, id);
    RotationSealed(c, path, st, now, id);
    hide Lawful, OnDisk, Storable, SealedRotation, RotateSpec, Timely;
    var e := Rotate(maxAge, now, id);
    TimelyAfter(c, path, st, h, now, Step(c, path, st, e), HistoryStep(c, path, st, h, e));
  }

  lemma TimelyAfter(c: Codec, path: string, st: State, h: History, now: Time, st': State, h': History)
    requires Lawful(c) && Timely(c, path, st, h) && path in st.disk
    requires h.archives != [] ==> h.archives[|h.archives| - 1].at + SECOND <= now
    requires st'.disk.Keys == st.disk.Keys + {ArchiveName(c, path, now)}
    requires h'.archives == h.archives + [Archive(ArchiveName(c, path, now), now, h.live)]
    requires h'.live.link.Some? && h'.live.link.value.collectedAt == now
    ensures Timely(c, path, st', h')
  {
    forall t {:trigger ArchiveName(c, path, t)} | ArchiveName(c, path, t) in st'.disk
      ensures Second(t) <= Second(now)
    {
      ArchiveNames(c, path, t, now);
      assert ArchiveName(c, path, t) in st.disk || ArchiveName(c, path, t) == ArchiveName(c, path, now);
    }
    hide Lawful, ArchiveName;
    forall i | 1 <= i <= |h'.archives|
      ensures SegmentAt(h', i).link.Some?
    {
      if i < |h'.archives| {
        assert SegmentAt(h', i) == SegmentAt(h, i);
      }
    }
  }

  lemma AppendKeeps(c: Codec, path: string, st: State, h: History, r: Record, id: string)
    requires Lawful(c) && Healthy(c, path, st, h) && Timely(c, path, st, h)
    requires GoodEvent(c, path, st, Append(r, id))
    ensures var st', h' := Step(c, path, st, Append(r, id)), HistoryStep(c, path, st, h, Append(r, id));
            Healthy(c, path, st', h') && Timely(c, path, st', h')
  {
    AppendAccepts(c, path, st, r, id, NoFault);
    if Accepts(c, r) {
      AppendHealthy(c, path, st, h, r, id);
      TimelyAppend(c, path, st, h, r, id);
    }
  }

  lemma TimelyAppend(c: Codec, path: string, st: State, h: History, r: Record, id: string)
    requires Lawful(c) && st.open && path in st.disk && Timely(c, path, st, h) && Accepts(c, r)
    ensures var e := Append(r, id);
            Timely(c, path, Step(c, path, st, e), HistoryStep(c, path, st, h, e))
  {
    AppendAccepts(c, path, st, r, id, NoFault);
    hide Lawful, AppendSpec, Accepts, SealedBy;
    var e := Append(r, id);
    var h' := HistoryStep(c, path, st, h, e);
    forall t {:trigger ArchiveName(c, path, t)} | ArchiveName(c, path, t) in Step(c, path, st, e).disk
      ensures ArchiveName(c, path, t) in st.disk
    {
      ArchiveNames(c, path, t, t);
    }
    forall i | 1 <= i <= |h'.archives|
      ensures SegmentAt(h', i).link.Some?
    {
      assert SegmentAt(h, i).link.Some?;
    }
  }

  /** One event keeps the store healthy and never touches an archive. */
  lemma StepHealthy(c: Codec, path: string, st: State, h: History, e: Event)
    requires Lawful(c) && Healthy(c, path, st, h) && Timely(c, path, st, h) && GoodEvent(c, path, st, e)
    ensures var st', h' := Step(c, path, st, e), HistoryStep(c, path, st, h, e);
            && Healthy(c, path, st', h') && Timely(c, path, st', h')
            && h.archives <= h'.archives
            && (e.Reopen? ==> st' == st)
  {
    match e
    case Append(r, id) => AppendKeeps(c, path, st, h, r, id);
    case Rotate(maxAge, now, id) =>
      if Due(st, maxAge, now) {
        RotationSpacing(c, path, st, h, maxAge, now);
        RotateHealthy(c, path, st, h, maxAge, now, id);
        TimelyRotation(c, path, st, h, maxAge, now, id);
      }
    case Reopen =>
      OpenRebuilds(c, path, st.disk, h);
      assert st.disk[path := Content(st.disk, path)] == st.disk;
  }

  ghost function Run(c: Codec, path: string, st: State, es: seq<Event>): State
    decreases |es|
  {
    if es == [] then st else Run(c, path, Step(c, path, st, es[0]), es[1..])
  }

  ghost function HistoryOf(c: Codec, path: string, st: State, h: History, es: seq<Event>): History
    decreases |es|
  {
    if es == [] then h
    else HistoryOf(c, path, Step(c, path, st, es[0]), HistoryStep(c, path, st, h, es[0]), es[1..])
  }

  ghost predicate GoodRun(c: Codec, path: string, st: State, es: seq<Event>)
    decreases |es|
  {
    es == [] || (GoodEvent(c, path, st, es[0]) && GoodRun(c, path, Step(c, path, st, es[0]), es[1..]))
  }

  /** The record an event's `Append` acknowledged by returning no error, as sealed. */
  function AckOf(c: Codec, path: string, st: State, e: Event): seq<Record> {
    if e.Append? && AppendSpec(c, path, st, e.r, e.freshId, NoFault).err.None?
    then [AppendSpec(c, path, st, e.r, e.freshId, NoFault).record] else []
  }

  ghost function Acknowledged(c: Codec, path: string, st: State, es: seq<Event>): seq<Record>
    decreases |es|
  {
    if es == [] then []
    else AckOf(c, path, st, es[0]) + Acknowledged(c, path, Step(c, path, st, es[0]), es[1..])
  }

  lemma {:induction false} RunHealthy(c: Codec, path: string, st: State, h: History, es: seq<Event>)
    requires Lawful(c) && Healthy(c, path, st, h) && Timely(c, path, st, h) && GoodRun(c, path, st, es)
    ensures var st', h' := Run(c, path, st, es), HistoryOf(c, path, st, h, es);
            && Healthy(c, path, st', h') && Timely(c, path, st', h')
            && h.archives <= h'.archives
            && Payload(h') == Payload(h) + Acknowledged(c, path, st, es)
    decreases |es|
  {
    hide Lawful, Healthy, Timely, GoodEvent, Step, HistoryStep, Payload, AckOf;
    if es != [] {
      var st1, h1 := Step(c, path, st, es[0]), HistoryStep(c, path, st, h, es[0]);
      StepHealthy(c, path, st, h, es[0]);
      PayloadStep(c, path, st, h, es[0]);
      RunHealthy(c, path, st1, h1, es[1..]);
      assert Payload(h) + AckOf(c, path, st, es[0]) + Acknowledged(c, path, st1, es[1..])
          == Payload(h) + Acknowledged(c, path, st, es);
    }
  }

  lemma PayloadStep(c: Codec, path: string, st: State, h: History, e: Event)
    requires Lawful(c) && Healthy(c, path, st, h)
    ensures Payload(HistoryStep(c, path, st, h, e)) == Payload(h) + AckOf(c, path, st, e)
  {
    if e.Append? {
      AppendAccepts(c, path, st, e.r, e.freshId, NoFault);
    }
    var h' := HistoryStep(c, path, st, h, e);
    if h'.archives != h.archives {
      assert h'.archives[..|h'.archives| - 1] == h.archives;
    }
  }

  /** No file exists yet, and no file has the name of a future archive. */
  ghost predicate FreshDirectory(c: Codec, path: string, disk: map<string, string>) {
    path !in disk && forall t {:trigger ArchiveName(c, path, t)} :: ArchiveName(c, path, t) !in disk
  }

  const NO_HISTORY := History([], EMPTY_SEGMENT)

  /** The store as first opened. */
  function Created(path: string, disk: map<string, string>): State { Resumed(disk[path := ""], []) }

  lemma CreatedHealthy(c: Codec, path: string, disk: map<string, string>)
    requires Lawful(c) && FreshDirectory(c, path, disk)
    ensures OpenSpec(c, path, disk) == Open(Created(path, disk))
    ensures Healthy(c, path, Created(path, disk), NO_HISTORY)
    ensures Timely(c, path, Created(path, disk), NO_HISTORY)
    ensures Payload(NO_HISTORY) == []
  {
    var st := Created(path, disk);
    assert Written(EMPTY_SEGMENT) == [] && FileOf(c, []) == "";
    assert Verified(c, []) && AllStorable(c, []);
    assert LinkAt(c, NO_HISTORY, 0);
    assert OnDisk(c, path, disk, NO_HISTORY);
    OpenRebuilds(c, path, disk, NO_HISTORY);
    forall t {:trigger ArchiveName(c, path, t)}
      ensures ArchiveName(c, path, t) !in st.disk
    {
      ArchiveNames(c, path, t, t);
    }
  }

  /** What anybody sees who reads the files. Each later file opens with a rotation record naming the head
      and the count of the file before it, every file reads back as the records written to it, the live
      file is accepted, and opening it again gives exactly the store's own fields. */
  ghost predicate ReadsBack(c: Codec, path: string, st: State, h: History) {
    && (forall i | 1 <= i <= |h.archives| ::
          && SegmentAt(h, i).link.Some?
          && LinksTo(c, SegmentAt(h, i).link.value, Written(SegmentAt(h, i - 1))))
    && (forall i | 0 <= i < |h.archives| ::
          && h.archives[i].name in st.disk
          && ReadSpec(c, st.disk[h.archives[i].name]) == Records(Norms(c, Written(h.archives[i].seg))))
    && path in st.disk && ReadSpec(c, st.disk[path]) == Records(Norms(c, Written(h.live)))
    && Accepted(c, st.disk[path]) && OpenSpec(c, path, st.disk) == Open(st)
  }

  /** Store invariant and conservation, over every run without faults. The archives in rotation order
      and then the live file are exactly the files of the history; without their rotation records they
      hold exactly the acknowledged records, in order. */
  lemma Conservation(c: Codec, path: string, disk: map<string, string>, es: seq<Event>)
    requires Lawful(c) && FreshDirectory(c, path, disk) && GoodRun(c, path, Created(path, disk), es)
    ensures var st := Run(c, path, Created(path, disk), es);
            var h := HistoryOf(c, path, Created(path, disk), NO_HISTORY, es);
            && Healthy(c, path, st, h) && ReadsBack(c, path, st, h)
            && Payload(h) == Acknowledged(c, path, Created(path, disk), es)
  {
    hide *;
    var st0 := Created(path, disk);
    CreatedHealthy(c, path, disk);
    RunHealthy(c, path, st0, NO_HISTORY, es);
    HealthyReads(c, path, Run(c, path, st0, es), HistoryOf(c, path, st0, NO_HISTORY, es));
    assert [] + Acknowledged(c, path, st0, es) == Acknowledged(c, path, st0, es);
  }

  lemma HealthyReads(c: Codec, path: string, st: State, h: History)
    requires Lawful(c) && Healthy(c, path, st, h) && Timely(c, path, st, h)
    ensures ReadsBack(c, path, st, h)
  {
    FilesAccepted(c, path, st.disk, h);
    OpenRebuilds(c, path, st.disk, h);
    hide Lawful, OpenSpec, Accepted, ReadSpec, Good, LinksTo;
    assert st.disk[path := Content(st.disk, path)] == st.disk;
    forall i | 1 <= i <= |h.archives|
      ensures SegmentAt(h, i).link.Some? && LinksTo(c, SegmentAt(h, i).link.value, Written(SegmentAt(h, i - 1)))
    {
      assert LinkAt(c, h, i);
    }
    forall i | 0 <= i < |h.archives|
      ensures h.archives[i].name in st.disk
    {
      assert ArchiveOnDisk(c, path, st.disk, h.archives[i]);
    }
  }

  /** The run with its restarts removed. */
  function WithoutReopens(es: seq<Event>): seq<Event> {
    if es == [] then [] else (if es[0].Reopen? then [] else [es[0]]) + WithoutReopens(es[1..])
  }

  /** Restarts are invisible: closing and reopening anywhere in a run changes no file and no field. */
  lemma {:induction false} RestartsInvisible(c: Codec, path: string, st: State, h: History, es: seq<Event>)
    requires Lawful(c) && Healthy(c, path, st, h) && Timely(c, path, st, h) && GoodRun(c, path, st, es)
    ensures Run(c, path, st, es) == Run(c, path, st, WithoutReopens(es))
    ensures Acknowledged(c, path, st, es) == Acknowledged(c, path, st, WithoutReopens(es))
    decreases |es|
  {
    hide Lawful, Healthy, Timely, GoodEvent, HistoryStep, Step;
    if es != [] {
      StepHealthy(c, path, st, h, es[0]);
      RestartsInvisible(c, path, Step(c, path, st, es[0]), HistoryStep(c, path, st, h, es[0]), es[1..]);
      if !es[0].Reopen? {
        var rest := WithoutReopens(es);
        assert rest[0] == es[0] && rest[1..] == WithoutReopens(es[1..]);
      } else {
        assert WithoutReopens(es) == WithoutReopens(es[1..]);
        assert AckOf(c, path, st, es[0]) == [];
      }
    }
  }

  /** Archives are never overwritten: what an archive holds at some point of a run it holds for ever. */
  lemma ArchivesKept(c: Codec, path: string, st: State, h: History, es: seq<Event>, i: nat)
    requires Lawful(c) && Healthy(c, path, st, h) && Timely(c, path, st, h) && GoodRun(c, path, st, es)
    requires i < |h.archives|
    ensures var d := Run(c, path, st, es).disk;
            h.archives[i].name in d && d[h.archives[i].name] == st.disk[h.archives[i].name]
  {
    RunHealthy(c, path, st, h, es);
    var h' := HistoryOf(c, path, st, h, es);
    assert ArchiveOnDisk(c, path, st.disk, h.archives[i]);
    assert ArchiveOnDisk(c, path, Run(c, path, st, es).disk, h'.archives[i]);
  }
}
