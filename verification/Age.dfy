/** How old the first record of the live file can get: what the age limit of a rotation guarantees. */
module Age {
  import opened Evidence
  import opened Chain
  import opened LineFile
  import opened Paths
  import opened Store
  import opened Runs

  /** The file has no record: every line is blank. */
  predicate Blank(data: string)
    decreases |data|
  {
    data == "" || (DropCR(FirstLine(data)) == "" && Blank(AfterLine(data)))
  }

  /** The time of the first record in the file. */
  function FirstTime(c: Codec, data: string): Option<Time>
    decreases |data|
  {
    if data == "" then None
    else if DropCR(FirstLine(data)) == "" then FirstTime(c, AfterLine(data))
    else match c.unmarshal(DropCR(FirstLine(data)))
      case None => None
      case Some(r) => Some(r.collectedAt)
  }

  /** For a file that can be read it is the time of the first record read. */
  lemma {:induction false} FirstTimeRead(c: Codec, data: string)
    requires ReadSpec(c, data).Records?
    ensures var rs := ReadSpec(c, data).records;
            && (Blank(data) <==> rs == [])
            && FirstTime(c, data) == if rs == [] then None else Some(rs[0].collectedAt)
    decreases |data|
  {
    if data != "" && DropCR(FirstLine(data)) == "" {
      FirstTimeRead(c, AfterLine(data));
      ThenNothing(ReadSpec(c, AfterLine(data)));
    }
  }

  /** Lines added at the end do not change the first record. */
  lemma {:induction false} FirstTimeStays(c: Codec, data: string, more: string)
    requires WholeLines(data)
    ensures !Blank(data) ==> !Blank(data + more) && FirstTime(c, data + more) == FirstTime(c, data)
    ensures Blank(data) ==> (Blank(data + more) <==> Blank(more)) && FirstTime(c, data + more) == FirstTime(c, more)
    decreases |data|
  {
    if data == "" {
      assert data + more == more;
    } else {
      assert data[|data| - 1] in data;
      FirstLineOfPrefix(data, more);
      FirstTimeStays(c, AfterLine(data), more);
    }
  }

  lemma FirstTimeOfLine(c: Codec, r: Record)
    requires Lawful(c) && c.marshal(r).Some?
    ensures var line := LineOf(c, r);
            WholeLines(line) && !Blank(line) && FirstTime(c, line) == Some(r.collectedAt)
  {
    var b := c.marshal(r).value;
    assert RecordLaws(c, r);
    FirstLineOfLine(b, "");
    assert b + "\n" + "" == b + "\n";
  }

  /** The file has no record, or its first one is younger than the age limit. */
  predicate Young(c: Codec, data: string, maxAge: int, now: Time) {
    FirstTime(c, data).Some? ==> Elapsed(now, FirstTime(c, data).value) < maxAge
  }

  /** Whatever the clock says, a rotation that reports no error leaves a young file. */
  ghost predicate Bounded(c: Codec, path: string, st: State, maxAge: int) {
    forall now, id, fault {:trigger RotateSpec(c, path, st, maxAge, now, id, fault)} ::
      var r := RotateSpec(c, path, st, maxAge, now, id, fault);
      r.err.None? ==> Young(c, Content(r.st.disk, path), maxAge, now)
  }

  /** The store has a first time, and it is no later than that of the file. */
  predicate Tracks(c: Codec, path: string, st: State) {
    var first := FirstTime(c, Content(st.disk, path));
    first.Some? ==> st.count != 0 && st.firstAt != 0 && st.firstAt <= first.value
  }

  /** The bound holds exactly for the stores whose first time in memory is no later than in the file. */
  lemma BoundedIff(c: Codec, path: string, st: State, maxAge: int)
    requires Lawful(c) && 0 < maxAge <= MAX_DURATION
    ensures Bounded(c, path, st, maxAge) <==> Tracks(c, path, st)
  {
    if Tracks(c, path, st) {
      forall now, id, fault {:trigger RotateSpec(c, path, st, maxAge, now, id, fault)}
        ensures var r := RotateSpec(c, path, st, maxAge, now, id, fault);
                r.err.None? ==> Young(c, Content(r.st.disk, path), maxAge, now)
      {
        TrackedYoung(c, path, st, maxAge, now, id, fault);
      }
    } else {
      UntrackedOld(c, path, st, maxAge);
    }
  }

  lemma TrackedYoung(c: Codec, path: string, st: State, maxAge: int, now: Time, id: string, fault: Fault)
    requires Lawful(c) && maxAge > 0 && Tracks(c, path, st)
    ensures var r := RotateSpec(c, path, st, maxAge, now, id, fault);
            r.err.None? ==> Young(c, Content(r.st.disk, path), maxAge, now)
  {
    if Due(st, maxAge, now) {
      RotatedFile(c, path, st, maxAge, now, id, fault);
    }
    hide Lawful, FirstTime, AppendSpec, ArchiveName;
  }

  /** The age of the first record when a rotation would be due, had the store known it. */
  lemma UntrackedOld(c: Codec, path: string, st: State, maxAge: int)
    requires 0 < maxAge <= MAX_DURATION && !Tracks(c, path, st)
    ensures !Bounded(c, path, st, maxAge)
  {
    hide FirstTime;
    var now := FirstTime(c, Content(st.disk, path)).value + maxAge;
    assert RotateSpec(c, path, st, maxAge, now, "", NoFault) == Rotated(st, "", None);
  }

  /** The file after a rotation that was due, unless it lost its handle. */
  lemma RotatedFile(c: Codec, path: string, st: State, maxAge: int, now: Time, id: string, fault: Fault)
    requires Lawful(c) && Due(st, maxAge, now)
    ensures var r := RotateSpec(c, path, st, maxAge, now, id, fault);
            var data := Content(r.st.disk, path);
            && (r.err.None? ==> r.st.count == 1 && r.st.firstAt == now)
            && (r.err.None? || r.err == Some(SyncFailed) ==>
                  WholeLines(data) && !Blank(data) && FirstTime(c, data) == Some(now))
            && (r.err == Some(SyncFailed) ==> r.st.count == 0)
            && (r.err.Some? && r.err != Some(SyncFailed) ==>
                  || r.st == st.(open := false)
                  || (data == "" && (r.st.open ==> r.st.count == 0) && (r.st.count != 0 ==> r.st.firstAt != 0)))
  {
    ArchiveNames(c, path, now, now);
    hide Lawful, FirstTime, Blank, ArchiveName;
    if st.open && path in st.disk && !fault.CloseFault? && !fault.RenameFault? && !fault.CreateFault? {
      var renamed := (st.disk - {path})[ArchiveName(c, path, now) := st.disk[path]];
      var created := State(renamed[path := Content(renamed, path)], true, "", 0, 0);
      var r := RotationRecord(c, ArchiveName(c, path, now), st.lastHash, st.count, now);
      RotationLine(c, path, created, r, id, fault);
    }
  }

  /** Appending to an open store whose file is empty. */
  lemma RotationLine(c: Codec, path: string, st: State, r: Record, id: string, fault: Fault)
    requires Lawful(c) && st.open && st.count == 0 && path in st.disk && st.disk[path] == ""
    ensures var a := AppendSpec(c, path, st, r, id, fault);
            var data := Content(a.st.disk, path);
            && a.st.open && (a.err.None? ==> a.st.count == 1 && a.st.firstAt == r.collectedAt)
            && (a.err.Some? ==> a.st.count == 0)
            && (a.err.None? || a.err == Some(SyncFailed) ==>
                  WholeLines(data) && !Blank(data) && FirstTime(c, data) == Some(r.collectedAt))
            && (a.err.Some? && a.err != Some(SyncFailed) ==> data == "")
  {
    AppendAccepts(c, path, st, r, id, fault);
    var s := SealedBy(c, st, r, id);
    if c.marshal(s).Some? {
      FirstTimeOfLine(c, s);
    }
    hide Lawful, FirstTime, Blank, SealSpec, LineOf, WholeLines;
    assert "" + LineOf(c, s) == LineOf(c, s);
  }

  /** The store is empty, or it knows the time of its first record. */
  predicate Dated(st: State) { st.count == 0 || st.firstAt != 0 }

  /** The store knows the first record of its file. */
  predicate Knows(c: Codec, path: string, st: State) {
    var data := Content(st.disk, path);
    && WholeLines(data) && Dated(st)
    && (!Blank(data) ==> st.count != 0 && FirstTime(c, data) == Some(st.firstAt))
    && (Blank(data) && st.open ==> st.count == 0)
  }

  lemma {:induction false} BlankHasNoTime(c: Codec, data: string)
    requires Blank(data)
    ensures FirstTime(c, data) == None
    decreases |data|
  {
    if data != "" {
      BlankHasNoTime(c, AfterLine(data));
    }
  }

  lemma KnowsTracks(c: Codec, path: string, st: State)
    requires Knows(c, path, st)
    ensures Tracks(c, path, st)
  {
    if Blank(Content(st.disk, path)) {
      BlankHasNoTime(c, Content(st.disk, path));
    }
    hide FirstTime, Blank;
  }

  /** An append keeps the first record known, whatever fails, with one exception: the first record's own
      sync. Its line is in the file, and the store takes the file for empty. */
  lemma AppendKnows(c: Codec, path: string, st: State, r: Record, id: string, fault: Fault)
    requires Lawful(c) && Knows(c, path, st) && r.collectedAt != 0
    ensures var a := AppendSpec(c, path, st, r, id, fault);
            if a.err == Some(SyncFailed) && a.st.count == 0 then !Tracks(c, path, a.st) else Knows(c, path, a.st)
  {
    hide Lawful, FirstTime, Blank, SealSpec, LineOf, WholeLines, Extends, Accepts;
    var s, data := SealedBy(c, st, r, id), Content(st.disk, path);
    AppendAccepts(c, path, st, r, id, fault);
    if c.marshal(s).Some? {
      FirstTimeOfLine(c, s);
      FirstTimeStays(c, data, LineOf(c, s));
      LinesAreWhole(data, LineOf(c, s));
    }
  }

  lemma LinesAreWhole(data: string, more: string)
    requires WholeLines(data) && WholeLines(more)
    ensures WholeLines(data + more)
  {
    if more != "" {
      assert (data + more)[|data + more| - 1] == more[|more| - 1];
    } else {
      assert data + more == data;
    }
  }

  /** A rotation keeps it known too, unless the sync of its record fails. */
  lemma RotateKnows(c: Codec, path: string, st: State, maxAge: int, now: Time, id: string, fault: Fault)
    requires Lawful(c) && Knows(c, path, st) && now != 0
    ensures var r := RotateSpec(c, path, st, maxAge, now, id, fault);
            && (r.err == Some(SyncFailed) ==> r.st.count == 0 && !Tracks(c, path, r.st))
            && (r.err != Some(SyncFailed) ==> Knows(c, path, r.st))
  {
    if Due(st, maxAge, now) {
      RotatedFile(c, path, st, maxAge, now, id, fault);
      assert Blank("");
      hide Lawful, FirstTime, Blank, RotateSpec, WholeLines, Due;
      assert WholeLines("") by { NoLines(); }
    }
  }

  lemma NoLines()
    ensures WholeLines("")
  {
  }

  /** A store opened from a file of whole lines knows its first record, unless that has no time. */
  lemma OpenedKnows(c: Codec, path: string, disk: map<string, string>)
    requires OpenSpec(c, path, disk).Open? && WholeLines(Content(disk, path))
    ensures var rs := ReadSpec(c, Content(disk, path)).records;
            Knows(c, path, OpenSpec(c, path, disk).st) <==> rs == [] || rs[0].collectedAt != 0
  {
    FirstTimeRead(c, Content(disk, path));
    hide ReadSpec, FirstTime, Blank, Verified;
  }

  /** The bound fails. The sync of the first record of a new store fails, its line stays in the file, and no
      rotation is due however old it gets. Once a later append succeeds, the limit counts from that one. */
  lemma FirstSyncLost(c: Codec, path: string, disk: map<string, string>, r: Record, id: string, later: Record,
                      laterId: string, maxAge: int, now: Time, rotationId: string, fault: Fault)
    requires Lawful(c) && path !in disk && Accepts(c, r) && Accepts(c, later) && maxAge > 0
    requires Elapsed(now, r.collectedAt) >= maxAge
    ensures var st0 := Created(path, disk);
            var s := SealedBy(c, st0, r, id);
            var a := AppendSpec(c, path, st0, r, id, SyncFault);
            var b := AppendSpec(c, path, a.st, later, laterId, NoFault);
            && a.err == Some(SyncFailed)
            && RotateSpec(c, path, a.st, maxAge, now, rotationId, fault) == Rotated(a.st, "", None)
            && Content(a.st.disk, path) == LineOf(c, s) && !Young(c, LineOf(c, s), maxAge, now)
            && (Storable(c, s) ==> ReadSpec(c, LineOf(c, s)) == Records([c.norm(s)]))
            && b.err.None? && b.st.firstAt == later.collectedAt
            && FirstTime(c, Content(b.st.disk, path)) == Some(r.collectedAt)
  {
    var st0 := Created(path, disk);
    var s := SealedBy(c, st0, r, id);
    var st1 := AppendSpec(c, path, st0, r, id, SyncFault).st;
    AppendAccepts(c, path, st0, r, id, SyncFault);
    AppendAccepts(c, path, st1, later, laterId, NoFault);
    FirstTimeOfLine(c, s);
    FirstTimeStays(c, LineOf(c, s), LineOf(c, SealedBy(c, st1, later, laterId)));
    OneLineReads(c, s);
    hide Lawful, FirstTime, Blank, SealSpec, LineOf, WholeLines, Extends, ReadSpec, Storable;
    assert "" + LineOf(c, s) == LineOf(c, s);
  }

  lemma OneLineReads(c: Codec, s: Record)
    requires Lawful(c) && c.marshal(s).Some?
    ensures Storable(c, s) ==> ReadSpec(c, LineOf(c, s)) == Records([c.norm(s)])
  {
    FileSnoc(c, [], s);
    ReadFileSnoc(c, [], s);
    assert [] + [s] == [s] && "" + LineOf(c, s) == LineOf(c, s);
    assert FileOf(c, []) == "" && ReadSpec(c, "") == Records([]);
  }
}
