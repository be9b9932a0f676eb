/** The store one file operation at a time, with the process stopping between any two of them. A line
    that was written but not yet synced may or may not survive the stop. */
module Crash {
  import opened Evidence
  import opened Chain
  import opened LineFile
  import opened Paths
  import opened Store
  import opened History
  import opened Runs
  import opened Spacing

  /** Where the store is inside `Append` or `MaybeRotate`; `rot` marks the rotation record. */
  datatype Pc =
    | Idle
    | Sealed(r: Record, rot: bool)
    | Pending(r: Record, rot: bool)     // written, not synced
    | Synced(r: Record, rot: bool)      // durable, not yet acknowledged
    | Closed(now: Time, id: string)
    | Renamed(now: Time, id: string)
    | Created(r: Record, id: string)
    | Down

  datatype Entry = Entry(r: Record, acked: bool)

  /** The store, and what the proof remembers: the live file as last synced, the history of what is
      durable, the appended records that became durable, the number of stops, and the segments whose
      rotation record a stop prevented. */
  datatype Machine = Machine(st: State, pc: Pc, synced: string, h: History, log: seq<Entry>, stops: nat, cut: set<nat>)

  datatype Action =
    | BeginAppend(r: Record, id: string) | DoWrite | DoSync | Commit
    | BeginRotate(maxAge: int, now: Time, id: string) | DoRename | DoCreate | SealRotation
    | Stop(keep: bool) | Restart

  /** A record has become durable in the live file. */
  function Stored(h: History, r: Record, rot: bool): History {
    h.(live := if rot then Segment(Some(r), h.live.recs) else h.live.(recs := h.live.recs + [r]))
  }

  function Logged(log: seq<Entry>, r: Record, rot: bool): seq<Entry> {
    if rot then log else log + [Entry(r, false)]
  }

  /** Between the rename and the durable rotation record. */
  predicate MidRotation(pc: Pc) {
    pc.Renamed? || pc.Created? || ((pc.Sealed? || pc.Pending?) && pc.rot)
  }

  function StopNow(path: string, m: Machine, keep: bool): Machine {
    var lost := m.pc.Pending? && !keep;
    var kept := m.pc.Pending? && keep;
    m.(st := if lost then m.st.(disk := m.st.disk[path := m.synced]) else m.st,
       pc := Down,
       h := if kept then Stored(m.h, m.pc.r, m.pc.rot) else m.h,
       log := if kept then Logged(m.log, m.pc.r, m.pc.rot) else m.log,
       stops := m.stops + 1,
       cut := if MidRotation(m.pc) && !kept then m.cut + {|m.h.archives|} else m.cut)
  }

  /** One step; an action that is not enabled changes nothing. */
  ghost function Next(c: Codec, path: string, m: Machine, a: Action): Machine {
    match a
    case BeginAppend(r, id) =>
      if !m.pc.Idle? || !Accepts(c, r) then m else
      var s := SealSpec(c, m.st.lastHash, r, id);
      m.(st := m.st.(lastHash := s.head), pc := Sealed(s.record, false))
    case DoWrite =>
      if !m.pc.Sealed? then m else
      m.(st := m.st.(disk := m.st.disk[path := Content(m.st.disk, path) + LineOf(c, m.pc.r)]),
         pc := Pending(m.pc.r, m.pc.rot), synced := Content(m.st.disk, path))
    case DoSync =>
      if !m.pc.Pending? then m else
      m.(pc := Synced(m.pc.r, m.pc.rot), h := Stored(m.h, m.pc.r, m.pc.rot), log := Logged(m.log, m.pc.r, m.pc.rot))
    case Commit =>
      if !m.pc.Synced? then m else
      m.(st := m.st.(count := m.st.count + 1, firstAt := if m.st.count == 0 then m.pc.r.collectedAt else m.st.firstAt),
         pc := Idle,
         log := if m.pc.rot || m.log == [] then m.log else m.log[..|m.log| - 1] + [Entry(m.pc.r, true)])
    case BeginRotate(maxAge, now, id) =>
      if !m.pc.Idle? || !Due(m.st, maxAge, now) then m
      else m.(st := m.st.(open := false), pc := Closed(now, id))
    case DoRename =>
      if !m.pc.Closed? || path !in m.st.disk then m else
      m.(st := m.st.(disk := RenamedDisk(c, path, m.st.disk, m.pc.now)), pc := Renamed(m.pc.now, m.pc.id),
         h := RotatedHistory(c, path, m.h, m.pc.now))
    case DoCreate =>
      if !m.pc.Renamed? then m else
      m.(st := State(m.st.disk[path := Content(m.st.disk, path)], true, "", 0, 0),
         pc := Created(RotationRecord(c, ArchiveName(c, path, m.pc.now), m.st.lastHash, m.st.count, m.pc.now), m.pc.id))
    case SealRotation =>
      if !m.pc.Created? then m else
      var s := SealSpec(c, m.st.lastHash, m.pc.r, m.pc.id);
      m.(st := m.st.(lastHash := s.head), pc := Sealed(s.record, true))
    case Stop(keep) => if m.pc.Down? then m else StopNow(path, m, keep)
    case Restart =>
      if !m.pc.Down? then m else
      match OpenSpec(c, path, m.st.disk)
      case Open(st) => m.(st := st, pc := Idle)
      case Refused => m
  }

  ghost function RunSteps(c: Codec, path: string, m: Machine, acts: seq<Action>): Machine
    decreases |acts|
  {
    if acts == [] then m else RunSteps(c, path, Next(c, path, m, acts[0]), acts[1..])
  }

  /** The steps are those of the operations: run without a stop they do what `Append` does. */
  lemma AppendIsItsSteps(c: Codec, path: string, m: Machine, r: Record, id: string)
    requires Lawful(c) && m.pc.Idle? && m.st.open && Accepts(c, r)
    ensures var m' := RunSteps(c, path, m, [BeginAppend(r, id), DoWrite, DoSync, Commit]);
            && m'.pc.Idle? && m'.st == AppendSpec(c, path, m.st, r, id, NoFault).st
            && m'.log == m.log + [Entry(SealedBy(c, m.st, r, id), true)]
  {
    AppendAccepts(c, path, m.st, r, id, NoFault);
    SealExtends(c, m.st.lastHash, r, id);
    var m1 := Next(c, path, m, BeginAppend(r, id));
    var m2 := Next(c, path, m1, DoWrite);
    var m3 := Next(c, path, m2, DoSync);
    Unroll4(c, path, m, BeginAppend(r, id), DoWrite, DoSync, Commit);
  }

  lemma Unroll4(c: Codec, path: string, m: Machine, a: Action, b: Action, d: Action, e: Action)
    ensures RunSteps(c, path, m, [a, b, d, e])
         == Next(c, path, Next(c, path, Next(c, path, Next(c, path, m, a), b), d), e)
  {
    hide Next;
    var m1 := Next(c, path, m, a);
    var m2 := Next(c, path, m1, b);
    var m3 := Next(c, path, m2, d);
    assert [a, b, d, e][1..] == [b, d, e] && [b, d, e][1..] == [d, e] && [d, e][1..] == [e] && [e][1..] == [];
    assert RunSteps(c, path, m3, [e]) == RunSteps(c, path, Next(c, path, m3, e), []);
    assert RunSteps(c, path, m2, [d, e]) == RunSteps(c, path, m3, [e]);
    assert RunSteps(c, path, m1, [b, d, e]) == RunSteps(c, path, m2, [d, e]);
  }

  /** Once a record is sealed, the last three steps append its line and account for it. */
  lemma LastSteps(c: Codec, path: string, m: Machine)
    requires m.pc.Sealed?
    ensures var m' := Next(c, path, Next(c, path, Next(c, path, m, DoWrite), DoSync), Commit);
            && m'.pc.Idle?
            && m'.st == m.st.(disk := m.st.disk[path := Content(m.st.disk, path) + LineOf(c, m.pc.r)],
                              count := m.st.count + 1,
                              firstAt := if m.st.count == 0 then m.pc.r.collectedAt else m.st.firstAt)
  {
  }

  /** The first four steps of a due rotation. */
  lemma FirstSteps(c: Codec, path: string, m: Machine, maxAge: int, now: Time, id: string)
    requires m.pc.Idle? && path in m.st.disk && Due(m.st, maxAge, now)
    ensures var m1 := Next(c, path, m, BeginRotate(maxAge, now, id));
            var m4 := Next(c, path, Next(c, path, Next(c, path, m1, DoRename), DoCreate), SealRotation);
            var renamed := RenamedDisk(c, path, m.st.disk, now);
            var s := SealSpec(c, "", RotationRecord(c, ArchiveName(c, path, now), m.st.lastHash, m.st.count, now), id);
            && m4.pc == Sealed(s.record, true)
            && m4.st == State(renamed[path := Content(renamed, path)], true, s.head, 0, 0)
  {
    hide SealSpec, RotationRecord, Due;
  }

  /** And what a due rotation does. */
  lemma RotateIsItsSteps(c: Codec, path: string, m: Machine, maxAge: int, now: Time, id: string)
    requires Lawful(c) && m.pc.Idle? && m.st.open && path in m.st.disk && Due(m.st, maxAge, now) && Hex(m.st.lastHash)
    requires Storable(c, SealedRotation(c, path, m.st, now, id))
    ensures var m4 := RunSteps(c, path, m, [BeginRotate(maxAge, now, id), DoRename, DoCreate, SealRotation]);
            var m' := Next(c, path, Next(c, path, Next(c, path, m4, DoWrite), DoSync), Commit);
            m'.pc.Idle? && m'.st == RotateSpec(c, path, m.st, maxAge, now, id, NoFault).st
  {
    Unroll4(c, path, m, BeginRotate(maxAge, now, id), DoRename, DoCreate, SealRotation);
    hide Lawful, Storable, RotateSpec, Due, Next, RunSteps, Hex;
    FirstSteps(c, path, m, maxAge, now, id);
    LastSteps(c, path, RunSteps(c, path, m, [BeginRotate(maxAge, now, id), DoRename, DoCreate, SealRotation]));
    RotationSealed(c, path, m.st, now, id);
    RotationHead(c, path, m.st, now, id);
    RotateUnfolds(c, path, m.st, maxAge, now, id);
    hide RotationRecord, SealSpec;
    var s := SealedRotation(c, path, m.st, now, id);
    var renamed := RenamedDisk(c, path, m.st.disk, now);
    ArchiveNames(c, path, now, now);
    assert path !in renamed && Content(renamed, path) == "";
    assert renamed[path := ""][path := LineOf(c, s)] == renamed[path := LineOf(c, s)];
    assert "" + LineOf(c, s) == LineOf(c, s);
  }

  lemma RotationHead(c: Codec, path: string, st: State, now: Time, id: string)
    requires Lawful(c) && Hex(st.lastHash) && Storable(c, SealedRotation(c, path, st, now, id))
    ensures SealSpec(c, "", RotationRecord(c, ArchiveName(c, path, now), st.lastHash, st.count, now), id).head
         == SealedRotation(c, path, st, now, id).hash
  {
    RotationSealed(c, path, st, now, id);
    SealExtends(c, "", RotationRecord(c, ArchiveName(c, path, now), st.lastHash, st.count, now), id);
  }

  /** The records of the log. */
  function LogRecords(log: seq<Entry>): seq<Record> {
    seq(|log|, i requires 0 <= i < |log| => log[i].r)
  }

  /** The acknowledged records of the log, in order. */
  function AckedOf(log: seq<Entry>): seq<Record> {
    if log == [] then []
    else AckedOf(log[..|log| - 1]) + (if log[|log| - 1].acked then [log[|log| - 1].r] else [])
  }

  function UnackedCount(log: seq<Entry>): nat {
    if log == [] then 0 else UnackedCount(log[..|log| - 1]) + (if log[|log| - 1].acked then 0 else 1)
  }

  /** What survives if the process stops now and the pending line is lost. */
  function DurableDisk(path: string, m: Machine): map<string, string> {
    if m.pc.Pending? then m.st.disk[path := m.synced] else m.st.disk
  }

  /** The store's fields, apart from its head, are those of its durable records. */
  predicate FieldsOf(st: State, rs: seq<Record>) {
    st.count == |rs| && st.firstAt == if rs == [] then 0 else rs[0].collectedAt
  }

  /** The record in hand extends the live chain; a rotation record links to the newest archive. */
  ghost predicate InHand(c: Codec, h: History, r: Record, rot: bool) {
    && Extends(c, Head(Written(h.live)), r) && Storable(c, r)
    && (rot ==> h.live == EMPTY_SEGMENT && h.archives != [] && LinksTo(c, r, Written(SegmentAt(h, |h.archives| - 1))))
  }

  ghost predicate PcInv(c: Codec, path: string, m: Machine) {
    var rs := Written(m.h.live);
    match m.pc
    case Idle => path in m.st.disk && m.st == Resumed(m.st.disk, rs)
    case Sealed(r, rot) =>
      && path in m.st.disk && m.st.open && FieldsOf(m.st, rs) && m.st.lastHash == r.hash
      && InHand(c, m.h, r, rot)
    case Pending(r, rot) =>
      && path in m.st.disk && m.st.open && FieldsOf(m.st, rs) && m.st.lastHash == r.hash
      && InHand(c, m.h, r, rot) && m.st.disk[path] == m.synced + LineOf(c, r)
    case Synced(r, rot) =>
      && path in m.st.disk && m.st.open && rs != [] && rs[|rs| - 1] == r && m.st.lastHash == r.hash
      && FieldsOf(m.st, rs[..|rs| - 1])
      && (!rot ==> m.log != [] && m.log[|m.log| - 1] == Entry(r, false))
    case Closed(now, id) =>
      && path in m.st.disk && rs != [] && m.st == Resumed(m.st.disk, rs).(open := false)
      && ArchiveName(c, path, now) !in m.st.disk && Storable(c, SealedRotation(c, path, m.st, now, id))
    case Renamed(now, id) =>
      && path !in m.st.disk && m.h.live == EMPTY_SEGMENT && m.h.archives != []
      && m.st.lastHash == Head(Written(SegmentAt(m.h, |m.h.archives| - 1)))
      && m.st.count == |Written(SegmentAt(m.h, |m.h.archives| - 1))|
      && Storable(c, SealedRotation(c, path, m.st, now, id))
    case Created(r, id) =>
      && path in m.st.disk && m.st == Resumed(m.st.disk, []) && m.h.live == EMPTY_SEGMENT && m.h.archives != []
      && Accepts(c, r) && Storable(c, SealSpec(c, "", r, id).record)
      && LinksTo(c, SealSpec(c, "", r, id).record, Written(SegmentAt(m.h, |m.h.archives| - 1)))
    case Down => true
  }

  /** The segments after the first that have no rotation record are exactly those a stop cut short, and
      the one the rotation under way is about to open. */
  predicate LinksPresent(m: Machine) {
    && (forall i | 1 <= i <= |m.h.archives| ::
          SegmentAt(m.h, i).link.None? <==> i in m.cut || (i == |m.h.archives| && MidRotation(m.pc)))
    && (forall i | i in m.cut :: 1 <= i <= |m.h.archives|)
    && (MidRotation(m.pc) ==> m.h.archives != [] && |m.h.archives| !in m.cut)
  }

  ghost predicate LogInv(m: Machine) {
    && Payload(m.h) == LogRecords(m.log)
    && UnackedCount(m.log) <= m.stops + (if m.pc.Synced? && !m.pc.rot then 1 else 0)
  }

  ghost predicate Inv(c: Codec, path: string, m: Machine) {
    && OnDisk(c, path, DurableDisk(path, m), m.h)
    && PcInv(c, path, m) && LinksPresent(m) && LogInv(m)
  }

  /** What one step needs. */
  ghost predicate Ready(c: Codec, path: string, m: Machine, a: Action) {
    match a
    case BeginAppend(r, id) => Accepts(c, r) ==> Storable(c, SealedBy(c, m.st, r, id))
    case BeginRotate(maxAge, now, id) =>
      Due(m.st, maxAge, now) ==>
        ArchiveName(c, path, now) !in m.st.disk && Storable(c, SealedRotation(c, path, m.st, now, id))
    case _ => true
  }

  lemma BeginAppendInv(c: Codec, path: string, m: Machine, r: Record, id: string)
    requires Lawful(c) && Inv(c, path, m) && Ready(c, path, m, BeginAppend(r, id))
    ensures Inv(c, path, Next(c, path, m, BeginAppend(r, id)))
  {
    hide OnDisk;
    SealExtends(c, m.st.lastHash, r, id);
  }

  lemma WriteInv(c: Codec, path: string, m: Machine)
    requires Lawful(c) && Inv(c, path, m)
    ensures Inv(c, path, Next(c, path, m, DoWrite))
  {
    hide OnDisk, Lawful;
    if m.pc.Sealed? {
      var m' := Next(c, path, m, DoWrite);
      assert m'.st.disk[path := m'.synced] == m.st.disk;
    }
  }

  lemma StoredPayload(h: History, log: seq<Entry>, r: Record, rot: bool)
    requires Payload(h) == LogRecords(log)
    ensures Payload(Stored(h, r, rot)) == LogRecords(Logged(log, r, rot))
  {
    var more := if rot then [] else [r];
    assert Payload(Stored(h, r, rot)) == Payload(h) + more;
    assert LogRecords(Logged(log, r, rot)) == LogRecords(log) + more;
  }

  /** The record in hand becomes part of the history. */
  lemma StoredOnDisk(c: Codec, path: string, disk: map<string, string>, h: History, r: Record, rot: bool)
    requires Lawful(c) && OnDisk(c, path, disk, h) && InHand(c, h, r, rot)
    ensures OnDisk(c, path, disk[path := Content(disk, path) + LineOf(c, r)], Stored(h, r, rot))
    ensures Written(Stored(h, r, rot).live) == Written(h.live) + [r]
  {
    var h' := Stored(h, r, rot);
    assert LinkAt(c, h, |h.archives|);
    hide OnDisk, Lawful;
    assert Written(h'.live) == Written(h.live) + [r];
    assert LinkAt(c, h', |h.archives|);
    LiveGrows(c, path, disk, h, h'.live, r);
  }

  /** When the pending line survives. */
  lemma PendingStored(c: Codec, path: string, m: Machine)
    requires Lawful(c) && Inv(c, path, m) && m.pc.Pending?
    ensures OnDisk(c, path, m.st.disk, Stored(m.h, m.pc.r, m.pc.rot))
    ensures Written(Stored(m.h, m.pc.r, m.pc.rot).live) == Written(m.h.live) + [m.pc.r]
  {
    hide OnDisk, Lawful, LogInv, LinksPresent, InHand;
    var d := DurableDisk(path, m);
    StoredOnDisk(c, path, d, m.h, m.pc.r, m.pc.rot);
    assert d[path := Content(d, path) + LineOf(c, m.pc.r)] == m.st.disk;
  }

  /** Storing a record gives the live segment its rotation record, if one was due. */
  lemma StoredLinks(m: Machine, m': Machine)
    requires LinksPresent(m) && m.pc.Pending? && m'.h == Stored(m.h, m.pc.r, m.pc.rot) && m'.cut == m.cut
    requires !MidRotation(m'.pc)
    ensures LinksPresent(m')
  {
    forall i | 1 <= i <= |m'.h.archives|
      ensures SegmentAt(m'.h, i).link.None? <==> i in m'.cut
    {
      assert i < |m.h.archives| ==> SegmentAt(m'.h, i) == SegmentAt(m.h, i);
      assert SegmentAt(m.h, i).link.None? <==> i in m.cut || (i == |m.h.archives| && MidRotation(m.pc));
    }
  }

  lemma LoggedCount(log: seq<Entry>, r: Record, rot: bool)
    ensures UnackedCount(Logged(log, r, rot)) == UnackedCount(log) + (if rot then 0 else 1)
    ensures AckedOf(Logged(log, r, rot)) == AckedOf(log)
  {
    assert (log + [Entry(r, false)])[..|log|] == log;
    assert AckedOf(log) + [] == AckedOf(log);
  }

  lemma SyncInv(c: Codec, path: string, m: Machine)
    requires Lawful(c) && Inv(c, path, m)
    ensures Inv(c, path, Next(c, path, m, DoSync))
  {
    hide OnDisk, Lawful, Payload, LogRecords, UnackedCount, AckedOf, LinksPresent, PcInv, Stored, Logged;
    if m.pc.Pending? {
      PendingStored(c, path, m);
      StoredPayload(m.h, m.log, m.pc.r, m.pc.rot);
      LoggedCount(m.log, m.pc.r, m.pc.rot);
      StoredLinks(m, Next(c, path, m, DoSync));
      SyncedPc(c, path, m);
    }
  }

  lemma SyncedPc(c: Codec, path: string, m: Machine)
    requires PcInv(c, path, m) && m.pc.Pending?
    requires Written(Stored(m.h, m.pc.r, m.pc.rot).live) == Written(m.h.live) + [m.pc.r]
    ensures PcInv(c, path, Next(c, path, m, DoSync))
  {
    var rs := Written(m.h.live);
    assert (rs + [m.pc.r])[..|rs|] == rs;
  }

  lemma CommitInv(c: Codec, path: string, m: Machine)
    requires Lawful(c) && Inv(c, path, m)
    ensures Inv(c, path, Next(c, path, m, Commit))
  {
    hide OnDisk, Lawful, LogInv, LinksPresent, PcInv, LogRecords;
    if m.pc.Synced? {
      CommittedPc(c, path, m);
      CommittedLog(c, path, m);
      CommittedLinks(m, Next(c, path, m, Commit));
    }
  }

  lemma CommittedPc(c: Codec, path: string, m: Machine)
    requires PcInv(c, path, m) && m.pc.Synced?
    ensures PcInv(c, path, Next(c, path, m, Commit))
    ensures !m.pc.rot ==> m.log != [] && m.log[|m.log| - 1] == Entry(m.pc.r, false)
  {
    hide Written;
    var rs := Written(m.h.live);
    assert rs[0] == (if |rs| == 1 then m.pc.r else rs[..|rs| - 1][0]);
  }

  /** The last entry of the log is acknowledged. */
  lemma CommittedLog(c: Codec, path: string, m: Machine)
    requires LogInv(m) && m.pc.Synced? && (!m.pc.rot ==> m.log != [] && m.log[|m.log| - 1] == Entry(m.pc.r, false))
    ensures LogInv(Next(c, path, m, Commit))
  {
    hide Payload;
    var m' := Next(c, path, m, Commit);
    assert LogRecords(m'.log) == LogRecords(m.log);
    if !m.pc.rot {
      assert m'.log[..|m.log| - 1] == m.log[..|m.log| - 1];
    }
  }

  lemma CommittedLinks(m: Machine, m': Machine)
    requires LinksPresent(m) && m'.h == m.h && m'.cut == m.cut && !MidRotation(m.pc) && !MidRotation(m'.pc)
    ensures LinksPresent(m')
  {
  }

  lemma BeginRotateInv(c: Codec, path: string, m: Machine, maxAge: int, now: Time, id: string)
    requires Lawful(c) && Inv(c, path, m) && Ready(c, path, m, BeginRotate(maxAge, now, id))
    ensures Inv(c, path, Next(c, path, m, BeginRotate(maxAge, now, id)))
  {
    hide OnDisk, Lawful;
  }

  lemma RenameInv(c: Codec, path: string, m: Machine)
    requires Lawful(c) && Inv(c, path, m)
    ensures Inv(c, path, Next(c, path, m, DoRename))
  {
    hide OnDisk, Lawful, LogInv, LinksPresent, PcInv, Written;
    if m.pc.Closed? {
      RenamedPc(c, path, m);
      var m' := Next(c, path, m, DoRename);
      LiveArchived(c, path, m.st.disk, m.h, m.pc.now);
      RenamedLog(c, path, m, m');
    }
  }

  lemma RenamedPc(c: Codec, path: string, m: Machine)
    requires Lawful(c) && PcInv(c, path, m) && m.pc.Closed?
    ensures path in m.st.disk && Written(m.h.live) != [] && ArchiveName(c, path, m.pc.now) !in m.st.disk
    ensures Next(c, path, m, DoRename).pc.Renamed? && PcInv(c, path, Next(c, path, m, DoRename))
  {
    hide Lawful, Storable, SealedRotation, ArchiveName;
    SameRotation(c, path, m.st, Next(c, path, m, DoRename).st, m.pc.now, m.pc.id);
    ArchiveNames(c, path, m.pc.now, m.pc.now);
  }

  lemma SameRotation(c: Codec, path: string, st: State, st': State, now: Time, id: string)
    ensures st'.lastHash == st.lastHash && st'.count == st.count ==>
              SealedRotation(c, path, st', now, id) == SealedRotation(c, path, st, now, id)
  {
  }

  lemma RenamedLog(c: Codec, path: string, m: Machine, m': Machine)
    requires LogInv(m) && LinksPresent(m) && m.pc.Closed? && m'.pc.Renamed?
    requires m' == m.(st := m'.st, pc := m'.pc, h := RotatedHistory(c, path, m.h, m.pc.now))
    ensures LogInv(m') && LinksPresent(m')
  {
    assert m'.h.archives[..|m.h.archives|] == m.h.archives;
    assert Payload(m'.h) == Payload(m.h) + [] == Payload(m.h);
    forall i | 1 <= i <= |m'.h.archives|
      ensures SegmentAt(m'.h, i).link.None? <==> i in m'.cut || i == |m'.h.archives|
    {
      if i <= |m.h.archives| {
        assert SegmentAt(m'.h, i) == SegmentAt(m.h, i);
      }
    }
  }

  lemma CreateInv(c: Codec, path: string, m: Machine)
    requires Lawful(c) && Inv(c, path, m)
    ensures Inv(c, path, Next(c, path, m, DoCreate))
  {
    hide OnDisk, Lawful, Payload, LogRecords, UnackedCount, LinksPresent, PcInv, RotationRecord;
    if m.pc.Renamed? {
      CreatedPc(c, path, m);
      LiveTouched(c, path, m.st.disk, m.h);
      CreatedLinks(m, Next(c, path, m, DoCreate));
    }
  }

  lemma CreatedLinks(m: Machine, m': Machine)
    requires LinksPresent(m) && m'.h == m.h && m'.cut == m.cut && MidRotation(m.pc) && MidRotation(m'.pc)
    ensures LinksPresent(m')
  {
  }

  lemma CreatedPc(c: Codec, path: string, m: Machine)
    requires Lawful(c) && OnDisk(c, path, m.st.disk, m.h) && PcInv(c, path, m) && m.pc.Renamed?
    ensures PcInv(c, path, Next(c, path, m, DoCreate))
  {
    hide OnDisk, Lawful, Storable, Accepts, LinksTo, SealSpec, Hex, ArchiveName, RotationRecord;
    NewestArchive(c, path, m.st.disk, m.h);
    RotationSealed(c, path, m.st, m.pc.now, m.pc.id);
    LinksByFields(c, SealedRotation(c, path, m.st, m.pc.now, m.pc.id), Written(SegmentAt(m.h, |m.h.archives| - 1)));
    assert Content(m.st.disk, path) == "";
  }

  lemma LinksByFields(c: Codec, r: Record, rs: seq<Record>)
    requires r.target.typ == TARGET_ROTATION && c.parseLink(r.observation) == Some(Link(Head(rs), |rs|))
    ensures LinksTo(c, r, rs)
  {
  }

  /** Creating the live file where it was missing changes nothing that is read. */
  lemma LiveTouched(c: Codec, path: string, disk: map<string, string>, h: History)
    requires Lawful(c) && OnDisk(c, path, disk, h)
    ensures OnDisk(c, path, disk[path := Content(disk, path)], h)
  {
    OpenRebuilds(c, path, disk, h);
  }

  lemma NewestArchive(c: Codec, path: string, disk: map<string, string>, h: History)
    requires Lawful(c) && OnDisk(c, path, disk, h) && h.archives != []
    ensures Hex(Head(Written(SegmentAt(h, |h.archives| - 1))))
  {
    assert ArchiveOnDisk(c, path, disk, h.archives[|h.archives| - 1]);
    HeadIsHex(c, Written(SegmentAt(h, |h.archives| - 1)));
  }

  lemma SealRotationInv(c: Codec, path: string, m: Machine)
    requires Lawful(c) && Inv(c, path, m)
    ensures Inv(c, path, Next(c, path, m, SealRotation))
  {
    hide OnDisk, LogInv, LinksPresent, PcInv, Lawful;
    if m.pc.Created? {
      SealedRotationPc(c, path, m);
      hide SealSpec;
      CreatedLinks(m, Next(c, path, m, SealRotation));
      SealedLog(m, Next(c, path, m, SealRotation));
    }
  }

  lemma SealedRotationPc(c: Codec, path: string, m: Machine)
    requires Lawful(c) && PcInv(c, path, m) && m.pc.Created?
    ensures Next(c, path, m, SealRotation).pc.Sealed? && Next(c, path, m, SealRotation).pc.rot
    ensures PcInv(c, path, Next(c, path, m, SealRotation))
  {
    hide LinksTo, Text, Storable;
    SealExtends(c, "", m.pc.r, m.pc.id);
    hide Lawful, Extends, SealSpec, Unsealed;
  }

  lemma SealedLog(m: Machine, m': Machine)
    requires LogInv(m) && !m.pc.Synced? && !m'.pc.Synced? && m'.h == m.h && m'.log == m.log && m'.stops == m.stops
    ensures LogInv(m')
  {
    hide Payload, LogRecords, UnackedCount;
  }

  lemma StopInv(c: Codec, path: string, m: Machine, keep: bool)
    requires Lawful(c) && Inv(c, path, m) && !m.pc.Down?
    ensures var m' := StopNow(path, m, keep);
            Inv(c, path, m') && AckedOf(m'.log) == AckedOf(m.log)
  {
    hide OnDisk, Lawful, Payload, LogRecords, UnackedCount, AckedOf, LinksPresent, PcInv, Stored, Logged;
    var m' := StopNow(path, m, keep);
    if m.pc.Pending? && keep {
      PendingStored(c, path, m);
      StoredPayload(m.h, m.log, m.pc.r, m.pc.rot);
      LoggedCount(m.log, m.pc.r, m.pc.rot);
      StoredLinks(m, m');
    } else {
      CutLinks(m, m');
    }
    DownPc(c, path, m');
  }

  lemma DownPc(c: Codec, path: string, m: Machine)
    requires m.pc.Down?
    ensures PcInv(c, path, m)
  {
  }

  lemma CutLinks(m: Machine, m': Machine)
    requires LinksPresent(m) && m'.h == m.h && m'.pc.Down?
    requires m'.cut == if MidRotation(m.pc) then m.cut + {|m.h.archives|} else m.cut
    ensures LinksPresent(m')
  {
    forall i | 1 <= i <= |m'.h.archives|
      ensures SegmentAt(m'.h, i).link.None? <==> i in m'.cut
    {
      assert SegmentAt(m.h, i).link.None? <==> i in m.cut || (i == |m.h.archives| && MidRotation(m.pc));
    }
  }

  lemma RestartInv(c: Codec, path: string, m: Machine)
    requires Lawful(c) && Inv(c, path, m) && m.pc.Down?
    ensures var m' := Next(c, path, m, Restart);
            && Inv(c, path, m') && m'.pc.Idle? && Healthy(c, path, m'.st, m'.h)
            && m' == m.(st := m'.st, pc := Idle)
  {
    hide OnDisk, Lawful, Payload, LogRecords, UnackedCount, Written, OpenSpec;
    OpenRebuilds(c, path, m.st.disk, m.h);
  }

  lemma NextInv(c: Codec, path: string, m: Machine, a: Action)
    requires Lawful(c) && Inv(c, path, m) && Ready(c, path, m, a)
    ensures Inv(c, path, Next(c, path, m, a))
  {
    match a
    case BeginAppend(r, id) => BeginAppendInv(c, path, m, r, id);
    case DoWrite => WriteInv(c, path, m);
    case DoSync => SyncInv(c, path, m);
    case Commit => CommitInv(c, path, m);
    case BeginRotate(maxAge, now, id) => BeginRotateInv(c, path, m, maxAge, now, id);
    case DoRename => RenameInv(c, path, m);
    case DoCreate => CreateInv(c, path, m);
    case SealRotation => SealRotationInv(c, path, m);
    case Stop(keep) => if !m.pc.Down? { StopInv(c, path, m, keep); }
    case Restart => if m.pc.Down? { RestartInv(c, path, m); }
  }

  predicate PcTimes(m: Machine) {
    match m.pc
    case Sealed(r, rot) => Written(m.h.live) == [] ==> FitsAfter(m.h, r.collectedAt)
    case Pending(r, rot) => Written(m.h.live) == [] ==> FitsAfter(m.h, r.collectedAt)
    case Closed(now, id) => LaterSecond(m.h, now)
    case Renamed(now, id) => FitsAfter(m.h, now)
    case Created(r, id) => FitsAfter(m.h, r.collectedAt)
    case _ => true
  }

  ghost predicate TimeInv(c: Codec, path: string, m: Machine) {
    InOrder(c, path, m.st.disk, m.h) && PcTimes(m)
  }

  /** What the crash theorems ask of an action. Records must be readable back; a rotation age must be at
      least one second; and when a stop cut the last rotation short, so that the live file is still empty,
      its first record must not have a time in an earlier second than the archive. That is exactly when no
      later rotation can replace the archive (`ReplacesIff`, `CutRotationLosesArchive`). */
  ghost predicate GoodAction(c: Codec, path: string, m: Machine, a: Action) {
    match a
    case BeginAppend(r, id) =>
      Accepts(c, r) ==> Storable(c, SealedBy(c, m.st, r, id)) && (m.st.count == 0 ==> FitsAfter(m.h, r.collectedAt))
    case BeginRotate(maxAge, now, id) =>
      maxAge >= SECOND && (Due(m.st, maxAge, now) ==> Storable(c, SealedRotation(c, path, m.st, now, id)))
    case _ => true
  }

  lemma GoodIsReady(c: Codec, path: string, m: Machine, a: Action)
    requires Inv(c, path, m) && TimeInv(c, path, m) && GoodAction(c, path, m, a)
    ensures m.pc.Idle? ==> Ready(c, path, m, a)
  {
    hide OnDisk, InOrder, LinksPresent, LogInv, Written;
    if m.pc.Idle? && a.BeginRotate? && Due(m.st, a.maxAge, a.now) {
      DueIsLater(c, path, m.st, m.h, a.maxAge, a.now);
    }
  }

  lemma BeginAppendTime(c: Codec, path: string, m: Machine, r: Record, id: string)
    requires Lawful(c) && PcInv(c, path, m) && TimeInv(c, path, m) && GoodAction(c, path, m, BeginAppend(r, id))
    ensures TimeInv(c, path, Next(c, path, m, BeginAppend(r, id)))
  {
    AppendAccepts(c, path, m.st, r, id, NoFault);
    hide Lawful, NamesPast, StartsAfter, FitsAfter, Storable, AppendSpec, Accepts;
  }

  lemma WriteTime(c: Codec, path: string, m: Machine)
    requires Lawful(c) && PcInv(c, path, m) && TimeInv(c, path, m)
    ensures TimeInv(c, path, Next(c, path, m, DoWrite))
  {
    hide Lawful, InHand, StartsAfter, FitsAfter, ArchiveName;
    SameNames(c, path, m.st.disk, Next(c, path, m, DoWrite).st.disk, m.h);
  }

  /** Storing the record in hand. */
  lemma StoredTime(c: Codec, path: string, m: Machine, m': Machine)
    requires Lawful(c) && Inv(c, path, m) && TimeInv(c, path, m) && m.pc.Pending?
    requires m'.h == Stored(m.h, m.pc.r, m.pc.rot) && m'.st.disk == m.st.disk && (m'.pc.Synced? || m'.pc.Down?)
    ensures TimeInv(c, path, m')
  {
    PendingStored(c, path, m);
    TimeParts(c, path, m);
    hide *;
    StoredNames(c, path, m.st.disk, m.h, m.pc.r, m.pc.rot);
    StoredStart(m.h, m.pc.r, m.pc.rot);
    TimesAtRest(c, path, m');
  }

  lemma TimeParts(c: Codec, path: string, m: Machine)
    requires TimeInv(c, path, m)
    ensures NamesPast(c, path, m.st.disk, m.h) && StartsAfter(m.h)
    ensures m.pc.Pending? && Written(m.h.live) == [] ==> FitsAfter(m.h, m.pc.r.collectedAt)
  {
    hide NamesPast, StartsAfter, FitsAfter, Written;
  }

  lemma TimesAtRest(c: Codec, path: string, m: Machine)
    requires NamesPast(c, path, m.st.disk, m.h) && StartsAfter(m.h) && (m.pc.Synced? || m.pc.Down?)
    ensures TimeInv(c, path, m)
  {
    hide NamesPast, StartsAfter;
  }

  lemma StoredNames(c: Codec, path: string, disk: map<string, string>, h: History, r: Record, rot: bool)
    ensures NamesPast(c, path, disk, Stored(h, r, rot)) <==> NamesPast(c, path, disk, h)
  {
  }

  lemma StoredStart(h: History, r: Record, rot: bool)
    requires StartsAfter(h) && (Written(h.live) == [] ==> FitsAfter(h, r.collectedAt))
    requires Written(Stored(h, r, rot).live) == Written(h.live) + [r]
    ensures StartsAfter(Stored(h, r, rot))
  {
    hide Written;
    assert FitsAfter(Stored(h, r, rot), r.collectedAt) <==> FitsAfter(h, r.collectedAt);
  }

  lemma BeginRotateTime(c: Codec, path: string, m: Machine, maxAge: int, now: Time, id: string)
    requires PcInv(c, path, m) && TimeInv(c, path, m) && maxAge >= SECOND
    ensures TimeInv(c, path, Next(c, path, m, BeginRotate(maxAge, now, id)))
  {
    hide InOrder, LaterSecond, Due, Written;
    if m.pc.Idle? && Due(m.st, maxAge, now) {
      DueIsLater(c, path, m.st, m.h, maxAge, now);
    }
  }

  lemma RenameTime(c: Codec, path: string, m: Machine)
    requires Lawful(c) && TimeInv(c, path, m)
    ensures TimeInv(c, path, Next(c, path, m, DoRename))
  {
    if m.pc.Closed? && path in m.st.disk {
      RenamedNames(c, path, m.st.disk, m.h, m.pc.now);
      hide Lawful, NamesPast, RenamedDisk;
    }
  }

  lemma CreateTime(c: Codec, path: string, m: Machine)
    requires Lawful(c) && TimeInv(c, path, m)
    ensures TimeInv(c, path, Next(c, path, m, DoCreate))
  {
    hide Lawful, NamesPast, StartsAfter, FitsAfter, ArchiveName, Content;
    SameNames(c, path, m.st.disk, Next(c, path, m, DoCreate).st.disk, m.h);
  }

  lemma SealRotationTime(c: Codec, path: string, m: Machine)
    requires Lawful(c) && TimeInv(c, path, m) && PcInv(c, path, m)
    ensures TimeInv(c, path, Next(c, path, m, SealRotation))
  {
    if m.pc.Created? {
      AppendAccepts(c, path, m.st, m.pc.r, m.pc.id, NoFault);
      hide Lawful, NamesPast, StartsAfter, FitsAfter, LinksTo, Storable, AppendSpec;
    }
  }

  lemma StopTime(c: Codec, path: string, m: Machine, keep: bool)
    requires Lawful(c) && Inv(c, path, m) && TimeInv(c, path, m) && !m.pc.Down?
    ensures TimeInv(c, path, StopNow(path, m, keep))
  {
    TimeParts(c, path, m);
    hide *;
    var m' := StopNow(path, m, keep);
    if m.pc.Pending? && keep {
      StopKeeps(path, m);
      StoredTime(c, path, m, m');
    } else {
      StopLoses(path, m, keep);
      SameNames(c, path, m.st.disk, m'.st.disk, m.h);
      TimesAtRest(c, path, m');
    }
  }

  lemma StopKeeps(path: string, m: Machine)
    requires m.pc.Pending?
    ensures var m' := StopNow(path, m, true);
            m'.pc.Down? && m'.h == Stored(m.h, m.pc.r, m.pc.rot) && m'.st.disk == m.st.disk
  {
    hide Stored;
  }

  lemma StopLoses(path: string, m: Machine, keep: bool)
    requires !(m.pc.Pending? && keep)
    ensures var m' := StopNow(path, m, keep);
            m'.pc.Down? && m'.h == m.h && m'.st.disk.Keys <= m.st.disk.Keys + {path}
  {
    hide Stored;
  }

  lemma RestartTime(c: Codec, path: string, m: Machine)
    requires Lawful(c) && Inv(c, path, m) && TimeInv(c, path, m) && m.pc.Down?
    ensures TimeInv(c, path, Next(c, path, m, Restart))
  {
    hide Lawful, NamesPast, StartsAfter, OnDisk, LogInv, LinksPresent;
    OpenRebuilds(c, path, m.st.disk, m.h);
    RestartInv(c, path, m);
    SameNames(c, path, m.st.disk, Next(c, path, m, Restart).st.disk, m.h);
  }

  /** The times stay in order: rotations are at least a second apart, however often the process stops. */
  lemma NextTime(c: Codec, path: string, m: Machine, a: Action)
    requires Lawful(c) && Inv(c, path, m) && TimeInv(c, path, m) && GoodAction(c, path, m, a)
    ensures TimeInv(c, path, Next(c, path, m, a))
  {
    hide Lawful, TimeInv, OnDisk, LogInv, LinksPresent, PcInv;
    match a
    case BeginAppend(r, id) => BeginAppendTime(c, path, m, r, id);
    case DoWrite => WriteTime(c, path, m);
    case DoSync => if m.pc.Pending? { StoredTime(c, path, m, Next(c, path, m, DoSync)); }
    case Commit => CommitTime(c, path, m);
    case BeginRotate(maxAge, now, id) => BeginRotateTime(c, path, m, maxAge, now, id);
    case DoRename => RenameTime(c, path, m);
    case DoCreate => CreateTime(c, path, m);
    case SealRotation => SealRotationTime(c, path, m);
    case Stop(keep) => if !m.pc.Down? { StopTime(c, path, m, keep); }
    case Restart => if m.pc.Down? { RestartTime(c, path, m); }
  }

  lemma CommitTime(c: Codec, path: string, m: Machine)
    requires TimeInv(c, path, m)
    ensures TimeInv(c, path, Next(c, path, m, Commit))
  {
    hide NamesPast, StartsAfter;
  }

  ghost predicate GoodActions(c: Codec, path: string, m: Machine, acts: seq<Action>)
    decreases |acts|
  {
    acts == [] || (GoodAction(c, path, m, acts[0]) && GoodActions(c, path, Next(c, path, m, acts[0]), acts[1..]))
  }

  /** Every reachable state keeps the invariant, however often and wherever the process stops. */
  lemma {:induction false} RunInv(c: Codec, path: string, m: Machine, acts: seq<Action>)
    requires Lawful(c) && Inv(c, path, m) && TimeInv(c, path, m) && GoodActions(c, path, m, acts)
    ensures Inv(c, path, RunSteps(c, path, m, acts)) && TimeInv(c, path, RunSteps(c, path, m, acts))
    decreases |acts|
  {
    hide Lawful, Inv, TimeInv, GoodAction, Next;
    if acts != [] {
      GoodInv(c, path, m, acts[0]);
      NextTime(c, path, m, acts[0]);
      RunInv(c, path, Next(c, path, m, acts[0]), acts[1..]);
    }
  }

  lemma GoodInv(c: Codec, path: string, m: Machine, a: Action)
    requires Lawful(c) && Inv(c, path, m) && TimeInv(c, path, m) && GoodAction(c, path, m, a)
    ensures Inv(c, path, Next(c, path, m, a))
  {
    hide Lawful, Inv, TimeInv, GoodAction, Storable, Due;
    GoodIsReady(c, path, m, a);
    if Ready(c, path, m, a) {
      NextInv(c, path, m, a);
    } else {
      assert Next(c, path, m, a) == m;
    }
  }

  /** A record is acknowledged by the last step of its `Append` and by nothing else, and an
      acknowledgement is never taken back. */
  lemma OnlyCommitAcknowledges(c: Codec, path: string, m: Machine, a: Action)
    requires Lawful(c) && Inv(c, path, m)
    ensures AckedOf(Next(c, path, m, a).log)
         == AckedOf(m.log) + (if a.Commit? && m.pc.Synced? && !m.pc.rot then [m.pc.r] else [])
  {
    hide OnDisk, Lawful, LinksPresent, OpenSpec, LogRecords;
    assert AckedOf(m.log) + [] == AckedOf(m.log);
    match a
    case DoSync => if m.pc.Pending? { LoggedCount(m.log, m.pc.r, m.pc.rot); }
    case Stop(keep) => if m.pc.Pending? { LoggedCount(m.log, m.pc.r, m.pc.rot); }
    case Commit =>
      if m.pc.Synced? && !m.pc.rot {
        var log' := Next(c, path, m, a).log;
        assert log'[..|m.log| - 1] == m.log[..|m.log| - 1];
        assert AckedOf(m.log) == AckedOf(m.log[..|m.log| - 1]) + [];
      }
    case _ =>
  }

  /** Records acknowledged before. */
  function AckedLog(rs: seq<Record>): seq<Entry> {
    seq(|rs|, i requires 0 <= i < |rs| => Entry(rs[i], true))
  }

  /** The segments after the first that have no rotation record. */
  function Unlinked(h: History): set<nat> {
    set i: nat | 1 <= i <= |h.archives| && SegmentAt(h, i).link.None?
  }

  /** The machine over an open store. */
  function MachineOf(st: State, h: History): Machine {
    Machine(st, Idle, "", h, AckedLog(Payload(h)), 0, Unlinked(h))
  }

  /** The machine over a new, empty store. */
  function Fresh(path: string, disk: map<string, string>): Machine { MachineOf(Runs.Created(path, disk), NO_HISTORY) }

  lemma {:induction false} AckedLogCounts(rs: seq<Record>)
    ensures UnackedCount(AckedLog(rs)) == 0 && AckedOf(AckedLog(rs)) == rs
  {
    if rs != [] {
      AckedLogCounts(rs[..|rs| - 1]);
      assert AckedLog(rs)[..|rs| - 1] == AckedLog(rs[..|rs| - 1]);
      assert rs == rs[..|rs| - 1] + [rs[|rs| - 1]];
    }
  }

  /** Every healthy store with its times in order is a state the crash theorems start from. */
  lemma MachineOfInv(c: Codec, path: string, st: State, h: History)
    requires Healthy(c, path, st, h) && InOrder(c, path, st.disk, h)
    ensures Inv(c, path, MachineOf(st, h)) && TimeInv(c, path, MachineOf(st, h))
    ensures AckedOf(MachineOf(st, h).log) == Payload(h)
  {
    AckedLogCounts(Payload(h));
    hide OnDisk, InOrder, Payload, UnackedCount, AckedOf, Written;
    assert LogRecords(AckedLog(Payload(h))) == Payload(h);
  }

  /** What holds after the store `m` was stopped and opened again as `up`. It opens, every file reads
      back and verifies, and the fields agree with the live file. The files hold, in order and each
      exactly once, the appended records of the log: all the acknowledged ones, in order, and besides
      them at most one record per stop. The segments without a rotation record are exactly those whose
      creation a stop cut short after the rename. */
  ghost predicate Recovered(c: Codec, path: string, m: Machine, keep: bool, up: Machine) {
    && up.pc.Idle? && Healthy(c, path, up.st, up.h)
    && (forall i | 0 <= i < |up.h.archives| ::
          up.h.archives[i].name in up.st.disk && Accepted(c, up.st.disk[up.h.archives[i].name]))
    && path in up.st.disk && Accepted(c, up.st.disk[path])
    && Payload(up.h) == LogRecords(up.log)
    && AckedOf(up.log) == AckedOf(m.log)
    && UnackedCount(up.log) <= m.stops + 1
    && (forall i | 1 <= i <= |up.h.archives| :: SegmentAt(up.h, i).link.None? <==> i in up.cut)
    && (forall i | i in up.cut :: 1 <= i <= |up.h.archives|)
    && up.cut == (if MidRotation(m.pc) && !(m.pc.Pending? && keep) then m.cut + {|m.h.archives|} else m.cut)
  }

  lemma StopAndRestart(c: Codec, path: string, m: Machine, keep: bool)
    requires Lawful(c) && Inv(c, path, m) && !m.pc.Down?
    ensures Recovered(c, path, m, keep, Next(c, path, StopNow(path, m, keep), Restart))
  {
    hide OnDisk, Lawful, Payload, LogRecords, UnackedCount, AckedOf, Healthy, PcInv, Accepted, OpenSpec, Stored;
    var down := StopNow(path, m, keep);
    StopInv(c, path, m, keep);
    RestartInv(c, path, down);
    var up := Next(c, path, down, Restart);
    HealthyAccepted(c, path, up.st, up.h);
    assert up.stops == m.stops + 1;
  }

  /** Crash safety of every step: from any healthy store with its times in order, run any steps with any
      number of stops, stop once more at any point, losing the unsynced line or not, and open it again. */
  lemma CrashSafety(c: Codec, path: string, st: State, h: History, acts: seq<Action>, keep: bool)
    requires Lawful(c) && Healthy(c, path, st, h) && InOrder(c, path, st.disk, h)
    requires GoodActions(c, path, MachineOf(st, h), acts) && !RunSteps(c, path, MachineOf(st, h), acts).pc.Down?
    ensures var m := RunSteps(c, path, MachineOf(st, h), acts);
            var up := Next(c, path, StopNow(path, m, keep), Restart);
            Recovered(c, path, m, keep, up) && InOrder(c, path, up.st.disk, up.h)
  {
    hide *;
    MachineOfInv(c, path, st, h);
    RunInv(c, path, MachineOf(st, h), acts);
    var m := RunSteps(c, path, MachineOf(st, h), acts);
    StopAndRestart(c, path, m, keep);
    RecoveredInOrder(c, path, m, keep);
  }

  lemma RecoveredInOrder(c: Codec, path: string, m: Machine, keep: bool)
    requires Lawful(c) && Inv(c, path, m) && TimeInv(c, path, m) && !m.pc.Down?
    ensures var up := Next(c, path, StopNow(path, m, keep), Restart);
            InOrder(c, path, up.st.disk, up.h)
  {
    hide Lawful, Inv, InOrder, Next;
    StopInv(c, path, m, keep);
    StopTime(c, path, m, keep);
    RestartTime(c, path, StopNow(path, m, keep));
  }

  /** A new store is such a store, and so is any store after a run without faults (`TimelyInOrder`). */
  lemma NewStoreStarts(c: Codec, path: string, disk: map<string, string>)
    requires Lawful(c) && FreshDirectory(c, path, disk)
    ensures OpenSpec(c, path, disk) == Open(Runs.Created(path, disk))
    ensures Healthy(c, path, Runs.Created(path, disk), NO_HISTORY)
    ensures InOrder(c, path, Runs.Created(path, disk).disk, NO_HISTORY)
  {
    CreatedHealthy(c, path, disk);
    hide Lawful, OnDisk;
    TimelyInOrder(c, path, Runs.Created(path, disk), NO_HISTORY);
  }

  /** A rotation cut short after its rename, and the restart: an empty live file beside the archive. */
  lemma CutRotation(c: Codec, path: string, m: Machine, maxAge: int, now: Time, id: string)
    requires Lawful(c) && m.pc.Idle? && path in m.st.disk && Due(m.st, maxAge, now)
    ensures var m' := RunSteps(c, path, m, [BeginRotate(maxAge, now, id), DoRename, Stop(false), Restart]);
            && m'.pc.Idle? && m'.log == m.log && m'.h == RotatedHistory(c, path, m.h, now)
            && m'.st == Resumed(RenamedDisk(c, path, m.st.disk, now)[path := ""], [])
  {
    ArchiveNames(c, path, now, now);
    assert ReadSpec(c, "") == Records([]) && Accepted(c, "");
    Unroll4(c, path, m, BeginRotate(maxAge, now, id), DoRename, Stop(false), Restart);
    hide Lawful, Accepted, ReadSpec, RunSteps, Due, ArchiveName;
  }

  /** The time condition on the first record after a cut rotation is needed. Dated early enough, it makes
      the next rotation due in the second of the cut one, and that rotation replaces the archive: of two
      acknowledged records the files then hold only the second. */
  lemma CutRotationLosesArchive(c: Codec, path: string, disk: map<string, string>, r0: Record, id0: string, r1: Record,
                                id1: string, maxAge: int, now: Time, now': Time, id: string)
    requires Lawful(c) && FreshDirectory(c, path, disk) && Accepts(c, r0) && Accepts(c, r1) && maxAge >= SECOND
    requires r0.collectedAt != 0 && Elapsed(now, r0.collectedAt) >= maxAge
    requires r1.collectedAt != 0 && Elapsed(now', r1.collectedAt) >= maxAge && Second(now') == Second(now)
    ensures var m1 := RunSteps(c, path, Fresh(path, disk), [BeginAppend(r0, id0), DoWrite, DoSync, Commit]);
            var m2 := RunSteps(c, path, m1, [BeginRotate(maxAge, now, id), DoRename, Stop(false), Restart]);
            var m3 := RunSteps(c, path, m2, [BeginAppend(r1, id1), DoWrite, DoSync, Commit]);
            var m4 := Next(c, path, Next(c, path, m3, BeginRotate(maxAge, now', id)), DoRename);
            var s0, s1 := SealedBy(c, Fresh(path, disk).st, r0, id0), SealedBy(c, m2.st, r1, id1);
            && AckedOf(m4.log) == [s0, s1]
            && m2.st.disk == disk[ArchiveName(c, path, now) := LineOf(c, s0)][path := ""]
            && m4.st.disk == disk[ArchiveName(c, path, now) := LineOf(c, s1)]
            && m2.st.count == 0 && !FitsAfter(m2.h, r1.collectedAt)
  {
    hide *;
    var m0 := Fresh(path, disk);
    FreshMachine(c, path, disk, now);
    AppendToEmpty(c, path, m0, disk, r0, id0);
    var s0 := SealedBy(c, m0.st, r0, id0);
    var m1 := RunSteps(c, path, m0, [BeginAppend(r0, id0), DoWrite, DoSync, Commit]);
    FirstIsDue(m1.st, r0.collectedAt, maxAge, now);
    CutRotation(c, path, m1, maxAge, now, id);
    var m2 := RunSteps(c, path, m1, [BeginRotate(maxAge, now, id), DoRename, Stop(false), Restart]);
    var kept := disk[ArchiveName(c, path, now) := LineOf(c, s0)];
    RenamedAgain(c, path, disk, LineOf(c, s0), now, now);
    ResumedEmpty(kept[path := ""]);
    AppendToEmpty(c, path, m2, kept, r1, id1);
    var s1 := SealedBy(c, m2.st, r1, id1);
    var m3 := RunSteps(c, path, m2, [BeginAppend(r1, id1), DoWrite, DoSync, Commit]);
    FirstIsDue(m3.st, r1.collectedAt, maxAge, now');
    RenameStep(c, path, m3, maxAge, now', id);
    RenamedAgain(c, path, kept, LineOf(c, s1), now', now);
    assert kept[ArchiveName(c, path, now) := LineOf(c, s1)] == disk[ArchiveName(c, path, now) := LineOf(c, s1)];
    TwoAcked(s0, s1);
    assert [] + [Entry(s0, true)] + [Entry(s1, true)] == [Entry(s0, true), Entry(s1, true)];
    EarlierRecord(c, path, m1.h, maxAge, now, now', r1.collectedAt);
  }

  lemma FreshMachine(c: Codec, path: string, disk: map<string, string>, now: Time)
    requires FreshDirectory(c, path, disk)
    ensures var m := Fresh(path, disk);
            && m.pc.Idle? && m.log == [] && m.st == Resumed(disk[path := ""], [])
            && path !in disk && ArchiveName(c, path, now) !in disk
  {
  }

  lemma AppendToEmpty(c: Codec, path: string, m: Machine, disk: map<string, string>, r: Record, id: string)
    requires Lawful(c) && m.pc.Idle? && m.st == Resumed(disk[path := ""], []) && Accepts(c, r)
    ensures var m' := RunSteps(c, path, m, [BeginAppend(r, id), DoWrite, DoSync, Commit]);
            var s := SealedBy(c, m.st, r, id);
            && m'.pc.Idle? && m'.log == m.log + [Entry(s, true)]
            && m'.st == State(disk[path := LineOf(c, s)], true, s.hash, 1, r.collectedAt)
  {
    AppendIsItsSteps(c, path, m, r, id);
    AppendAccepts(c, path, m.st, r, id, NoFault);
    hide Lawful, AppendSpec, RunSteps, SealedBy, Accepts, Extends, LineOf, Hex;
    assert "" + LineOf(c, SealedBy(c, m.st, r, id)) == LineOf(c, SealedBy(c, m.st, r, id));
  }

  lemma ResumedEmpty(disk: map<string, string>)
    ensures Resumed(disk, []).disk == disk && Resumed(disk, []).count == 0
  {
  }

  lemma FirstIsDue(st: State, first: Time, maxAge: int, now: Time)
    requires st.count == 1 && st.firstAt == first && first != 0 && Elapsed(now, first) >= maxAge
    ensures Due(st, maxAge, now)
  {
  }

  /** Renaming the live file in the second of an archive, or of none. */
  lemma RenamedAgain(c: Codec, path: string, disk: map<string, string>, line: string, now: Time, first: Time)
    requires Lawful(c) && path !in disk && Second(now) == Second(first)
    ensures RenamedDisk(c, path, disk[path := line], now) == disk[ArchiveName(c, path, first) := line]
    ensures path !in disk[ArchiveName(c, path, first) := line]
  {
    ArchiveNames(c, path, now, first);
    hide Lawful, ArchiveName, Second;
    assert disk[path := line] - {path} == disk;
  }

  lemma RenameStep(c: Codec, path: string, m: Machine, maxAge: int, now: Time, id: string)
    requires m.pc.Idle? && path in m.st.disk && Due(m.st, maxAge, now)
    ensures var m' := Next(c, path, Next(c, path, m, BeginRotate(maxAge, now, id)), DoRename);
            m'.st.disk == RenamedDisk(c, path, m.st.disk, now) && m'.log == m.log
  {
    hide Due, ArchiveName;
  }

  lemma TwoAcked(s0: Record, s1: Record)
    ensures AckedOf([Entry(s0, true), Entry(s1, true)]) == [s0, s1]
  {
    assert [Entry(s0, true), Entry(s1, true)][..1] == [Entry(s0, true)] && [Entry(s0, true)][..0] == [];
    assert AckedOf([Entry(s0, true)]) == AckedOf([]) + [s0];
  }

  lemma EarlierRecord(c: Codec, path: string, h: History, maxAge: int, now: Time, now': Time, first: Time)
    requires maxAge >= SECOND && first != 0 && Elapsed(now', first) >= maxAge && Second(now') == Second(now)
    ensures !FitsAfter(RotatedHistory(c, path, h, now), first)
  {
    hide Second, ArchiveName, Elapsed;
    ElapsedBack(now', first, maxAge);
  }

  lemma HealthyAccepted(c: Codec, path: string, st: State, h: History)
    requires Lawful(c) && Healthy(c, path, st, h)
    ensures forall i | 0 <= i < |h.archives| ::
              h.archives[i].name in st.disk && Accepted(c, st.disk[h.archives[i].name])
    ensures path in st.disk && Accepted(c, st.disk[path])
  {
    FilesAccepted(c, path, st.disk, h);
    assert forall i | 0 <= i < |h.archives| :: ArchiveOnDisk(c, path, st.disk, h.archives[i]);
  }
}
