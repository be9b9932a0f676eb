/** Runs in which anything can fail: appends and rotations that meet any fault, and reopenings, in any
    order, by stores whose head may have run ahead of their file. */
module Faults {
  import opened Evidence
  import opened Chain
  import opened LineFile
  import opened Paths
  import opened Store
  import opened History
  import opened Runs
  import opened Failure
  import Crash

  type Entry = Crash.Entry

  datatype Filed = Filed(name: string, lines: seq<Entry>)

  /** The lines of every file, archives first; a line is acknowledged if its `Append` returned no error. */
  datatype Journal = Journal(archives: seq<Filed>, live: seq<Entry>)

  function ArchivedLines(archives: seq<Filed>): seq<Entry> {
    if archives == [] then [] else ArchivedLines(archives[..|archives| - 1]) + archives[|archives| - 1].lines
  }

  /** Every line, file by file. */
  function AllLines(j: Journal): seq<Entry> { ArchivedLines(j.archives) + j.live }

  predicate Encode(c: Codec, lines: seq<Entry>) { AllEncode(c, Crash.LogRecords(lines)) }

  function TextOf(c: Codec, lines: seq<Entry>): string { FileOf(c, Crash.LogRecords(lines)) }

  ghost predicate FiledOnDisk(c: Codec, path: string, disk: map<string, string>, f: Filed) {
    f.name != path && f.name in disk && disk[f.name] == TextOf(c, f.lines) && Encode(c, f.lines)
  }

  /** The journal is what the files hold. */
  ghost predicate Files(c: Codec, path: string, disk: map<string, string>, j: Journal) {
    && (forall i | 0 <= i < |j.archives| :: FiledOnDisk(c, path, disk, j.archives[i]))
    && (forall i, k | 0 <= i < k < |j.archives| :: j.archives[i].name != j.archives[k].name)
    && Content(disk, path) == TextOf(c, j.live) && Encode(c, j.live)
  }

  datatype Event = Serving(q: Request) | Reopening

  ghost function After(c: Codec, path: string, st: State, e: Event): State {
    match e
    case Serving(q) => Serve(c, path, st, q)
    case Reopening =>
      match OpenSpec(c, path, st.disk)
      case Open(reopened) => reopened
      case Refused => st.(open := false)
  }

  ghost function AfterAll(c: Codec, path: string, st: State, es: seq<Event>): State
    decreases |es|
  {
    if es == [] then st else AfterAll(c, path, After(c, path, st, es[0]), es[1..])
  }

  /** The line an operation has put in the live file, by the error it returned. */
  function LineBy(err: Option<StoreError>, r: Record, acked: bool): seq<Entry> {
    if err.None? then [Crash.Entry(r, acked)]
    else if err == Some(SyncFailed) then [Crash.Entry(r, false)]
    else []
  }

  function NewLines(c: Codec, path: string, st: State, e: Event): seq<Entry> {
    match e
    case Serving(Adding(t)) =>
      var a := AppendSpec(c, path, st, t.r, t.freshId, t.fault);
      LineBy(a.err, a.record, true)
    case Serving(Rotating(maxAge, now, id, fault)) =>
      if !Due(st, maxAge, now) then []
      else LineBy(RotateSpec(c, path, st, maxAge, now, id, fault).err, SealedRotation(c, path, st, now, id), false)
    case Reopening => []
  }

  /** The rotation got as far as the rename. */
  predicate Renames(c: Codec, path: string, st: State, e: Event) {
    && e.Serving? && e.q.Rotating? && Due(st, e.q.maxAge, e.q.now)
    && var err := RotateSpec(c, path, st, e.q.maxAge, e.q.now, e.q.freshId, e.q.fault).err;
       err != Some(CloseFailed) && err != Some(RenameFailed)
  }

  function JournalAfter(c: Codec, path: string, st: State, j: Journal, e: Event): Journal {
    if Renames(c, path, st, e)
    then Journal(j.archives + [Filed(ArchiveName(c, path, e.q.now), j.live)], NewLines(c, path, st, e))
    else j.(live := j.live + NewLines(c, path, st, e))
  }

  ghost function JournalOf(c: Codec, path: string, st: State, j: Journal, es: seq<Event>): Journal
    decreases |es|
  {
    if es == [] then j
    else JournalOf(c, path, After(c, path, st, es[0]), JournalAfter(c, path, st, j, es[0]), es[1..])
  }

  ghost function LinesOf(c: Codec, path: string, st: State, es: seq<Event>): seq<Entry>
    decreases |es|
  {
    if es == [] then [] else NewLines(c, path, st, es[0]) + LinesOf(c, path, After(c, path, st, es[0]), es[1..])
  }

  /** A rotation that is due finds its archive name free. */
  predicate NameFree(c: Codec, path: string, st: State, e: Event) {
    e.Serving? && e.q.Rotating? && Due(st, e.q.maxAge, e.q.now) ==> ArchiveName(c, path, e.q.now) !in st.disk
  }

  ghost predicate NamesFree(c: Codec, path: string, st: State, es: seq<Event>)
    decreases |es|
  {
    es == [] || (NameFree(c, path, st, es[0]) && NamesFree(c, path, After(c, path, st, es[0]), es[1..]))
  }

  ghost predicate SameOthers(path: string, disk: map<string, string>, disk': map<string, string>) {
    forall f | f != path :: (f in disk <==> f in disk') && (f in disk ==> disk[f] == disk'[f])
  }

  lemma TextConcat(c: Codec, lines: seq<Entry>, e: Entry)
    ensures TextOf(c, lines + [e]) == TextOf(c, lines) + LineOf(c, e.r)
    ensures Encode(c, lines + [e]) <==> Encode(c, lines) && c.marshal(e.r).Some?
  {
    var rs := Crash.LogRecords(lines);
    assert Crash.LogRecords(lines + [e]) == rs + [e.r];
    FileSnoc(c, rs, e.r);
    assert (rs + [e.r])[|rs|] == e.r;
  }

  /** Lines added to the live file. */
  lemma FilesGrow(c: Codec, path: string, disk: map<string, string>, disk': map<string, string>, j: Journal,
                  err: Option<StoreError>, r: Record, acked: bool)
    requires Files(c, path, disk, j) && SameOthers(path, disk, disk')
    requires if err.None? || err == Some(SyncFailed)
             then c.marshal(r).Some? && Content(disk', path) == Content(disk, path) + LineOf(c, r)
             else Content(disk', path) == Content(disk, path)
    ensures Files(c, path, disk', j.(live := j.live + LineBy(err, r, acked)))
  {
    hide TextOf, Encode, LineOf;
    TextConcat(c, j.live, Crash.Entry(r, acked));
    TextConcat(c, j.live, Crash.Entry(r, false));
    assert j.live + [] == j.live;
    forall i | 0 <= i < |j.archives|
      ensures FiledOnDisk(c, path, disk', j.archives[i])
    {
      assert FiledOnDisk(c, path, disk, j.archives[i]);
    }
  }

  lemma FilesKept(c: Codec, path: string, disk: map<string, string>, disk': map<string, string>, j: Journal)
    requires Files(c, path, disk, j) && SameOthers(path, disk, disk') && Content(disk', path) == Content(disk, path)
    ensures Files(c, path, disk', j)
  {
    hide TextOf, Encode;
    assert forall i | 0 <= i < |j.archives| :: FiledOnDisk(c, path, disk, j.archives[i]);
  }

  /** What one append does to the disk, by the error it returned. */
  lemma AppendLine(c: Codec, path: string, st: State, r: Record, id: string, fault: Fault)
    ensures var a := AppendSpec(c, path, st, r, id, fault);
            && SameOthers(path, st.disk, a.st.disk)
            && if a.err.None? || a.err == Some(SyncFailed)
               then && c.marshal(a.record).Some?
                    && Content(a.st.disk, path) == Content(st.disk, path) + LineOf(c, a.record)
               else Content(a.st.disk, path) == Content(st.disk, path)
  {
    hide SealSpec, LineOf;
  }

  /** The live file becomes an archive. */
  lemma FilesRenamed(c: Codec, path: string, disk: map<string, string>, j: Journal, now: Time)
    requires Lawful(c) && Files(c, path, disk, j) && path in disk && ArchiveName(c, path, now) !in disk
    ensures Files(c, path, RenamedDisk(c, path, disk, now),
                  Journal(j.archives + [Filed(ArchiveName(c, path, now), j.live)], []))
  {
    hide TextOf, Encode, Lawful, ArchiveName, RenamedDisk, FiledOnDisk;
    NoText(c);
    LiveFiled(c, path, disk, j, now);
    var all := j.archives + [Filed(ArchiveName(c, path, now), j.live)];
    forall i | 0 <= i < |all|
      ensures FiledOnDisk(c, path, RenamedDisk(c, path, disk, now), all[i])
      ensures all[i].name == ArchiveName(c, path, now) <==> i == |j.archives|
    {
      if i < |j.archives| {
        FiledStays(c, path, disk, j.archives[i], now);
      }
    }
  }

  lemma NoText(c: Codec)
    ensures TextOf(c, []) == "" && Encode(c, [])
  {
  }

  lemma FiledStays(c: Codec, path: string, disk: map<string, string>, f: Filed, now: Time)
    requires FiledOnDisk(c, path, disk, f) && path in disk && ArchiveName(c, path, now) !in disk
    ensures FiledOnDisk(c, path, RenamedDisk(c, path, disk, now), f) && f.name != ArchiveName(c, path, now)
  {
    hide TextOf, Encode, ArchiveName;
  }

  lemma LiveFiled(c: Codec, path: string, disk: map<string, string>, j: Journal, now: Time)
    requires Lawful(c) && Files(c, path, disk, j) && path in disk
    ensures var renamed := RenamedDisk(c, path, disk, now);
            && FiledOnDisk(c, path, renamed, Filed(ArchiveName(c, path, now), j.live))
            && Content(renamed, path) == ""
  {
    ArchiveNames(c, path, now, now);
    hide Lawful, TextOf, Encode, ArchiveName, FiledOnDisk;
    LiveIsFiled(c, path, disk, j.live, now);
  }

  lemma LiveIsFiled(c: Codec, path: string, disk: map<string, string>, lines: seq<Entry>, now: Time)
    requires path in disk && disk[path] == TextOf(c, lines) && Encode(c, lines) && ArchiveName(c, path, now) != path
    ensures FiledOnDisk(c, path, RenamedDisk(c, path, disk, now), Filed(ArchiveName(c, path, now), lines))
  {
    hide TextOf, Encode, ArchiveName;
  }

  /** A rotation is a rename, unless it fails before that, and then at most one append. */
  lemma RotationLines(c: Codec, path: string, st: State, maxAge: int, now: Time, id: string, fault: Fault)
    requires Lawful(c) && Due(st, maxAge, now)
    ensures var r := RotateSpec(c, path, st, maxAge, now, id, fault);
            var s := SealedRotation(c, path, st, now, id);
            if r.err == Some(CloseFailed) || r.err == Some(RenameFailed) then r.st.disk == st.disk
            else
              && path in st.disk
              && var renamed := RenamedDisk(c, path, st.disk, now);
                 && SameOthers(path, renamed, r.st.disk)
                 && if r.err.None? || r.err == Some(SyncFailed)
                    then c.marshal(s).Some? && Content(r.st.disk, path) == Content(renamed, path) + LineOf(c, s)
                    else Content(r.st.disk, path) == Content(renamed, path)
  {
    hide Lawful, AppendSpec, SealSpec, LineOf, ArchiveName, RotationRecord, Due;
    if st.open && path in st.disk && !LosesHandle(fault) {
      var renamed := RenamedDisk(c, path, st.disk, now);
      var created := State(renamed[path := Content(renamed, path)], true, "", 0, 0);
      var r := RotationRecord(c, ArchiveName(c, path, now), st.lastHash, st.count, now);
      AppendLine(c, path, created, r, id, fault);
      AppendNeverRenames(c, path, created, r, id, fault);
    }
  }

  lemma AppendNeverRenames(c: Codec, path: string, st: State, r: Record, id: string, fault: Fault)
    ensures var a := AppendSpec(c, path, st, r, id, fault);
            && a.record == SealSpec(c, st.lastHash, r, id).record
            && a.err != Some(CloseFailed) && a.err != Some(RenameFailed)
  {
    hide SealSpec;
  }

  /** One event: the journal goes on describing the files. */
  lemma EventFiles(c: Codec, path: string, st: State, j: Journal, e: Event)
    requires Lawful(c) && Files(c, path, st.disk, j) && NameFree(c, path, st, e)
    ensures Files(c, path, After(c, path, st, e).disk, JournalAfter(c, path, st, j, e))
  {
    hide Lawful, Files, AppendSpec, RotateSpec, LineOf, Due, Accepted, ReadSpec, ArchiveName, SealedRotation;
    assert j.live + [] == j.live;
    match e
    case Serving(Adding(t)) =>
      AppendLine(c, path, st, t.r, t.freshId, t.fault);
      var a := AppendSpec(c, path, st, t.r, t.freshId, t.fault);
      FilesGrow(c, path, st.disk, a.st.disk, j, a.err, a.record, true);
    case Serving(Rotating(maxAge, now, id, fault)) => RotationFiles(c, path, st, j, e);
    case Reopening =>
      FilesKept(c, path, st.disk, After(c, path, st, e).disk, j);
  }

  lemma RotationFiles(c: Codec, path: string, st: State, j: Journal, e: Event)
    requires Lawful(c) && Files(c, path, st.disk, j) && NameFree(c, path, st, e) && e.Serving? && e.q.Rotating?
    ensures Files(c, path, After(c, path, st, e).disk, JournalAfter(c, path, st, j, e))
  {
    hide Lawful, Files, RotateSpec, LineOf, Due, ArchiveName, SealedRotation, SameOthers, RenamedDisk;
    var q := e.q;
    assert j.live + [] == j.live;
    if Due(st, q.maxAge, q.now) {
      RotationLines(c, path, st, q.maxAge, q.now, q.freshId, q.fault);
      if Renames(c, path, st, e) {
        FilesRenamed(c, path, st.disk, j, q.now);
        var r := RotateSpec(c, path, st, q.maxAge, q.now, q.freshId, q.fault);
        var j1 := Journal(j.archives + [Filed(ArchiveName(c, path, q.now), j.live)], []);
        FilesGrow(c, path, RenamedDisk(c, path, st.disk, q.now), r.st.disk, j1, r.err,
                  SealedRotation(c, path, st, q.now, q.freshId), false);
        assert [] + NewLines(c, path, st, e) == NewLines(c, path, st, e);
      }
    } else {
      NotDue(c, path, st, q);
    }
  }

  lemma NotDue(c: Codec, path: string, st: State, q: Request)
    requires q.Rotating? && !Due(st, q.maxAge, q.now)
    ensures Serve(c, path, st, q) == st
  {
    hide Due;
  }

  lemma JournalGrows(c: Codec, path: string, st: State, j: Journal, e: Event)
    ensures AllLines(JournalAfter(c, path, st, j, e)) == AllLines(j) + NewLines(c, path, st, e)
    ensures j.archives <= JournalAfter(c, path, st, j, e).archives
  {
    hide NewLines, Renames;
    var j' := JournalAfter(c, path, st, j, e);
    if j'.archives != j.archives {
      assert j'.archives[..|j.archives|] == j.archives;
    }
  }

  /** Conservation under faults. Whatever fails and whenever the store is reopened, and however far its head
      has run ahead, the files hold in order what they held before and then exactly one line for each
      operation: that of every append that returned no error or a sync error, and that of every rotation
      that got so far. No line is in two files, and an archive never changes. */
  lemma {:induction false} FaultsKeepLines(c: Codec, path: string, st: State, j: Journal, es: seq<Event>)
    requires Lawful(c) && Files(c, path, st.disk, j) && NamesFree(c, path, st, es)
    ensures var j' := JournalOf(c, path, st, j, es);
            && Files(c, path, AfterAll(c, path, st, es).disk, j')
            && AllLines(j') == AllLines(j) + LinesOf(c, path, st, es)
            && j.archives <= j'.archives
    decreases |es|
  {
    hide Lawful, Files, NameFree, After, JournalAfter, AllLines, NewLines;
    if es == [] {
      assert AllLines(j) + [] == AllLines(j);
    } else {
      EventFiles(c, path, st, j, es[0]);
      JournalGrows(c, path, st, j, es[0]);
      var st1, j1 := After(c, path, st, es[0]), JournalAfter(c, path, st, j, es[0]);
      FaultsKeepLines(c, path, st1, j1, es[1..]);
      assert AllLines(j) + NewLines(c, path, st, es[0]) + LinesOf(c, path, st1, es[1..])
          == AllLines(j) + LinesOf(c, path, st, es);
    }
  }

  /** The records the run acknowledged, in order. */
  ghost function Answered(c: Codec, path: string, st: State, es: seq<Event>): seq<Record>
    decreases |es|
  {
    if es == [] then []
    else AnsweredBy(c, path, st, es[0]) + Answered(c, path, After(c, path, st, es[0]), es[1..])
  }

  function AnsweredBy(c: Codec, path: string, st: State, e: Event): seq<Record> {
    if e.Serving? && e.q.Adding? && AppendSpec(c, path, st, e.q.t.r, e.q.t.freshId, e.q.t.fault).err.None?
    then [AppendSpec(c, path, st, e.q.t.r, e.q.t.freshId, e.q.t.fault).record] else []
  }

  lemma {:induction false} AckedConcat(x: seq<Entry>, y: seq<Entry>)
    ensures Crash.AckedOf(x + y) == Crash.AckedOf(x) + Crash.AckedOf(y)
  {
    if y == [] {
      assert x + y == x && Crash.AckedOf(x) + [] == Crash.AckedOf(x);
    } else {
      var init, last := y[..|y| - 1], y[|y| - 1];
      assert (x + y)[..|x + y| - 1] == x + init;
      AckedConcat(x, init);
    }
  }

  lemma NewAcked(c: Codec, path: string, st: State, e: Event)
    ensures Crash.AckedOf(NewLines(c, path, st, e)) == AnsweredBy(c, path, st, e)
  {
    hide AppendSpec, RotateSpec, SealedRotation;
    assert forall r, b :: [Crash.Entry(r, b)][..0] == [];
  }

  lemma {:induction false} LinesAcked(c: Codec, path: string, st: State, es: seq<Event>)
    ensures Crash.AckedOf(LinesOf(c, path, st, es)) == Answered(c, path, st, es)
    decreases |es|
  {
    hide NewLines, AnsweredBy, After;
    if es != [] {
      var st1 := After(c, path, st, es[0]);
      NewAcked(c, path, st, es[0]);
      LinesAcked(c, path, st1, es[1..]);
      AckedConcat(NewLines(c, path, st, es[0]), LinesOf(c, path, st1, es[1..]));
    }
  }

  /** From a new store: of the lines in the files, file by file, those of acknowledged records are exactly
      the acknowledged records, each once and in order; and a file that can be read is read as its lines. */
  lemma AcknowledgedOnce(c: Codec, path: string, disk: map<string, string>, es: seq<Event>)
    requires Lawful(c) && path !in disk && NamesFree(c, path, Created(path, disk), es)
    ensures var st0 := Created(path, disk);
            var j := JournalOf(c, path, st0, Journal([], []), es);
            var d := AfterAll(c, path, st0, es).disk;
            && Files(c, path, d, j)
            && Crash.AckedOf(AllLines(j)) == Answered(c, path, st0, es)
            && (forall i | 0 <= i < |j.archives| ::
                  ReadsAsLines(c, Content(d, j.archives[i].name), j.archives[i].lines))
            && ReadsAsLines(c, Content(d, path), j.live)
  {
    var st0, none := Created(path, disk), Journal([], []);
    assert TextOf(c, []) == "" && Encode(c, []);
    assert Files(c, path, st0.disk, none);
    hide *;
    FaultsKeepLines(c, path, st0, none, es);
    NothingBefore(LinesOf(c, path, st0, es));
    LinesAcked(c, path, st0, es);
    FilesRead(c, path, AfterAll(c, path, st0, es).disk, JournalOf(c, path, st0, none, es));
  }

  lemma NothingBefore(lines: seq<Entry>)
    ensures AllLines(Journal([], [])) + lines == lines
  {
  }

  ghost predicate ReadsAsLines(c: Codec, data: string, lines: seq<Entry>) {
    ReadSpec(c, data).Records? ==> ReadSpec(c, data) == Records(Norms(c, Crash.LogRecords(lines)))
  }

  lemma FilesRead(c: Codec, path: string, disk: map<string, string>, j: Journal)
    requires Lawful(c) && Files(c, path, disk, j)
    ensures forall i | 0 <= i < |j.archives| :: ReadsAsLines(c, Content(disk, j.archives[i].name), j.archives[i].lines)
    ensures ReadsAsLines(c, Content(disk, path), j.live)
  {
    hide Lawful, ReadSpec, FileOf, AllEncode, Crash.LogRecords, Norms;
    ReadsAsWritten(c, Crash.LogRecords(j.live));
    forall i | 0 <= i < |j.archives|
      ensures ReadsAsLines(c, Content(disk, j.archives[i].name), j.archives[i].lines)
    {
      assert FiledOnDisk(c, path, disk, j.archives[i]);
      ReadsAsWritten(c, Crash.LogRecords(j.archives[i].lines));
    }
  }
}
