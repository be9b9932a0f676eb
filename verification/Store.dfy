/** The persistent store: `FileStore` over a disk, operation by operation. */
module Store {
  import opened Evidence
  import opened Chain
  import opened LineFile
  import opened Paths

  const TARGET_ROTATION := "evidenced/chain-rotation"

  /** The file operation that fails. A failed write leaves the file as it was; a failed sync leaves
      the line in it. */
  datatype Fault = NoFault | CloseFault | RenameFault | CreateFault | WriteFault | SyncFault

  datatype StoreError =
    | SealFailed(why: SealError) | EncodeFailed | WriteFailed | SyncFailed
    | CloseFailed | RenameFailed | CreateFailed
    | ReadFailed(read: ReadError) | BadChain(violation: Violation) | OpenFailed

  /** The disk, whether the store's file handle is open, and the store's fields. */
  datatype State = State(disk: map<string, string>, open: bool, lastHash: string, count: nat, firstAt: Time)

  function Content(disk: map<string, string>, path: string): string {
    if path in disk then disk[path] else ""
  }

  datatype Appended = Appended(st: State, record: Record, err: Option<StoreError>)

  function AppendSpec(c: Codec, path: string, st: State, r: Record, freshId: string, fault: Fault): Appended {
    var s := SealSpec(c, st.lastHash, r, freshId);
    if s.err.Some? then Appended(st, s.record, Some(SealFailed(s.err.value))) else
    var st1 := st.(lastHash := s.head);
    if c.marshal(s.record).None? then Appended(st1, s.record, Some(EncodeFailed))
    else if !st.open || fault == WriteFault then Appended(st1, s.record, Some(WriteFailed))
    else
      var st2 := st1.(disk := st.disk[path := Content(st.disk, path) + LineOf(c, s.record)]);
      if fault == SyncFault then Appended(st2, s.record, Some(SyncFailed))
      else Appended(st2.(count := st.count + 1,
                         firstAt := if st.count == 0 then r.collectedAt else st.firstAt),
                    s.record, None)
  }

  /** The record a new segment opens with; it is appended without going through the mapping. */
  function RotationRecord(c: Codec, archive: string, head: string, count: nat, now: Time): Record {
    Record("", "evidenced", "1", Target(TARGET_ROTATION, Base(archive), map[]), now, OUTCOME_OBSERVED, "",
           c.linkJson(head, count, Base(archive)), [], "", "")
  }

  datatype Rotated = Rotated(st: State, archive: string, err: Option<StoreError>)

  /** The oldest record has reached the age limit. */
  predicate Due(st: State, maxAge: int, now: Time) {
    st.count != 0 && st.firstAt != 0 && Elapsed(now, st.firstAt) >= maxAge
  }

  function RotateSpec(c: Codec, path: string, st: State, maxAge: int, now: Time, freshId: string, fault: Fault): Rotated
  {
    if !Due(st, maxAge, now) then Rotated(st, "", None) else
    var closed := st.(open := false);
    if !st.open || fault == CloseFault then Rotated(closed, "", Some(CloseFailed)) else
    var archive := ArchiveName(c, path, now);
    if path !in st.disk || fault == RenameFault then Rotated(closed, "", Some(RenameFailed)) else
    var renamed := (st.disk - {path})[archive := st.disk[path]];
    if fault == CreateFault then Rotated(closed.(disk := renamed), "", Some(CreateFailed)) else
    var created := State(renamed[path := Content(renamed, path)], true, "", 0, 0);
    var a := AppendSpec(c, path, created, RotationRecord(c, archive, st.lastHash, st.count, now), freshId, fault);
    if a.err.Some? then Rotated(a.st, "", a.err) else Rotated(a.st, archive, None)
  }

  /** A rotation is due when a record was counted and its time lies at least the age back. A `time.Duration`
      has 64 bits, and saturation of the difference decides nothing. */
  lemma DueMeans(st: State, maxAge: int, now: Time)
    requires -0x7FFF_FFFF_FFFF_FFFF <= maxAge <= 0x7FFF_FFFF_FFFF_FFFF
    ensures Due(st, maxAge, now) <==> st.count != 0 && st.firstAt != 0 && now - st.firstAt >= maxAge
  {
  }

  /** An append that returns no error has put the record's JSON and a newline at the end of the file, and
      counts one more record. */
  lemma AppendMeans(c: Codec, path: string, st: State, r: Record, freshId: string, fault: Fault)
    requires AppendSpec(c, path, st, r, freshId, fault).err.None?
    ensures var a := AppendSpec(c, path, st, r, freshId, fault);
            && c.marshal(a.record).Some? && a.st.lastHash == a.record.hash
            && a.st.disk == st.disk[path := (if path in st.disk then st.disk[path] else "")
                                            + c.marshal(a.record).value + "\n"]
            && a.st.open && a.st.count == st.count + 1
            && a.st.firstAt == if st.count == 0 then a.record.collectedAt else st.firstAt
  {
    var b := c.marshal(AppendSpec(c, path, st, r, freshId, fault).record).value;
    assert Content(st.disk, path) + (b + "\n") == Content(st.disk, path) + b + "\n";
  }

  datatype Opened = Open(st: State) | Refused

  /** The fields of a store resumed from these records. */
  function Resumed(disk: map<string, string>, rs: seq<Record>): State {
    State(disk, true, Head(rs), |rs|, if rs == [] then 0 else rs[0].collectedAt)
  }

  /** Opening as a function of the disk. */
  ghost function OpenSpec(c: Codec, path: string, disk: map<string, string>): Opened {
    var data := Content(disk, path);
    if Accepted(c, data) then Open(Resumed(disk[path := data], ReadSpec(c, data).records)) else Refused
  }

  class Disk {
    var files: map<string, string>

    constructor (files: map<string, string>)
      ensures this.files == files
    {
      this.files := files;
    }
  }

  class FileStore {
    const path: string
    const disk: Disk
    var f: bool             // the handle is open for appending
    var chain: HashChain
    var count: nat
    var firstAt: Time

    ghost function View(): State
      reads this, chain, disk
    {
      State(disk.files, f, chain.lastHash, count, firstAt)
    }

    constructor Make(path: string, disk: Disk, chain: HashChain, count: nat, firstAt: Time)
      ensures this.path == path && this.disk == disk && this.chain == chain && f
      ensures this.count == count && this.firstAt == firstAt
    {
      this.path, this.disk, this.f, this.chain := path, disk, true, chain;
      this.count, this.firstAt := count, firstAt;
    }

    /** Opens or creates the store. It opens exactly when the file is accepted (and the system lets it
        be opened), with the fields resumed from the file and the file unchanged. */
    static method OpenFileStore(c: Codec, path: string, disk: Disk, canOpen: bool)
      returns (s: FileStore?, err: Option<StoreError>)
      modifies disk
      ensures s != null <==> err.None?
      ensures err.None? <==> Accepted(c, Content(old(disk.files), path)) && canOpen
      ensures err.Some? ==> disk.files == old(disk.files)
      ensures s != null ==>
                && fresh(s) && fresh(s.chain) && s.path == path && s.disk == disk
                && OpenSpec(c, path, old(disk.files)) == Open(s.View())
    {
      var existing: seq<Record> := [];
      if path in disk.files {
        var res := ReadRecords(c, disk.files[path]);
        if res.Unreadable? {
          return null, Some(ReadFailed(res.error));
        }
        existing := res.records;
      }
      var bad := Verify(c, existing);
      if bad.Some? {
        return null, Some(BadChain(bad.value));
      }
      var last := "";
      if |existing| > 0 {
        last := existing[|existing| - 1].hash;
      }
      if !canOpen {
        return null, Some(OpenFailed);
      }
      if path !in disk.files {
        disk.files := disk.files[path := ""];
      }
      var chain := new HashChain.Resume(last);
      s := new FileStore.Make(path, disk, chain, |existing|, 0);
      if |existing| > 0 {
        s.firstAt := existing[0].collectedAt;
      }
      err := None;
    }

    method Append(c: Codec, r: Record, freshId: string, fault: Fault)
      returns (sealed: Record, err: Option<StoreError>)
      modifies this, chain, disk
      ensures chain == old(chain)
      ensures Appended(View(), sealed, err) == AppendSpec(c, path, old(View()), r, freshId, fault)
    {
      var sealErr;
      sealed, sealErr := chain.Seal(c, r, freshId);
      if sealErr.Some? {
        return sealed, Some(SealFailed(sealErr.value));
      }
      var b := c.marshal(sealed);
      if b.None? {
        return sealed, Some(EncodeFailed);
      }
      if !f || fault == WriteFault {
        return sealed, Some(WriteFailed);
      }
      disk.files := disk.files[path := Content(disk.files, path) + (b.value + "\n")];
      if fault == SyncFault {
        return sealed, Some(SyncFailed);
      }
      if count == 0 {
        firstAt := sealed.collectedAt;
      }
      count := count + 1;
      err := None;
    }

    method MaybeRotate(c: Codec, maxAge: int, now: Time, freshId: string, fault: Fault)
      returns (archive: string, err: Option<StoreError>)
      modifies this, chain, disk
      ensures chain == old(chain) || fresh(chain)
      ensures Rotated(View(), archive, err) == RotateSpec(c, path, old(View()), maxAge, now, freshId, fault)
    {
      hide AppendSpec, RotationRecord, ArchiveName, Elapsed;
      if count == 0 || firstAt == 0 || Elapsed(now, firstAt) < maxAge {
        return "", None;
      }
      var prevHead, prevCount := chain.lastHash, count;
      var wasOpen := f;
      f := false;
      if !wasOpen || fault == CloseFault {
        return "", Some(CloseFailed);
      }
      archive := ArchiveName(c, path, now);
      if path !in disk.files || fault == RenameFault {
        return "", Some(RenameFailed);
      }
      disk.files := (disk.files - {path})[archive := disk.files[path]];
      if fault == CreateFault {
        return "", Some(CreateFailed);
      }
      disk.files := disk.files[path := Content(disk.files, path)];
      f, count, firstAt := true, 0, 0;
      chain := new HashChain.New();
      var rotation := RotationRecord(c, archive, prevHead, prevCount, now);
      var _, appendErr := Append(c, rotation, freshId, fault);
      if appendErr.Some? {
        return "", appendErr;
      }
      err := None;
    }

    /** Every record in chain order, read from the file. */
    method All(c: Codec) returns (res: ReadResult)
      ensures res == ReadSpec(c, Content(disk.files, path))
    {
      if path !in disk.files {
        return Records([]);
      }
      res := ReadRecords(c, disk.files[path]);
    }

    method VerifyFile(c: Codec) returns (ok: bool)
      ensures ok <==> Accepted(c, Content(disk.files, path))
    {
      var res := All(c);
      if res.Unreadable? {
        return false;
      }
      var err := Verify(c, res.records);
      ok := err.None?;
    }

    method Close() returns (ok: bool)
      modifies this
      ensures ok == old(f) && chain == old(chain) && View() == old(View()).(open := false)
    {
      ok := f;
      f := false;
    }
  }
}
