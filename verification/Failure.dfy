/** What a failed `Append` leaves behind, and when a store can be opened again. */
module Failure {
  import opened Evidence
  import opened Chain
  import opened Integrity
  import opened LineFile
  import opened Paths
  import opened Store
  import opened History
  import opened Runs
  import opened Spacing

  /** When a store can be opened again after an append: exactly when the appended record's text is
      valid UTF-8 and its line is below the scanner's limit, unless a record collides with its own
      normal form. `Append` reports success either way. */
  lemma ReopensIff(c: Codec, path: string, st: State, h: History, r: Record, id: string)
    requires Lawful(c) && Healthy(c, path, st, h) && Accepts(c, r)
    ensures var s := SealedBy(c, st, r, id);
            var rs := Written(h.live) + [s];
            var a := AppendSpec(c, path, st, r, id, NoFault);
            && a.err.None?
            && (OpenSpec(c, path, a.st.disk).Open? ==> Storable(c, s) || CollisionIn(c, rs, Norms(c, rs)))
            && (Storable(c, s) ==> OpenSpec(c, path, a.st.disk) == Open(a.st))
  {
    AppendAccepts(c, path, st, r, id, NoFault);
    var s := SealedBy(c, st, r, id);
    var a := AppendSpec(c, path, st, r, id, NoFault);
    if Storable(c, s) {
      AppendHealthy(c, path, st, h, r, id);
      hide OnDisk, AppendSpec, Lawful;
      OpenRebuilds(c, path, a.st.disk, h.(live := h.live.(recs := h.live.recs + [s])));
      assert a.st.disk[path := Content(a.st.disk, path)] == a.st.disk;
    } else {
      FileSnoc(c, Written(h.live), s);
      hide OnDisk, AppendSpec, Lawful;
      AcceptedIff(c, Written(h.live), s);
    }
  }

  lemma AcceptedIff(c: Codec, rs: seq<Record>, s: Record)
    requires Lawful(c) && Good(c, rs) && Extends(c, Head(rs), s) && c.marshal(s).Some?
    ensures Accepted(c, FileOf(c, rs + [s])) ==> Storable(c, s) || CollisionIn(c, rs + [s], Norms(c, rs + [s]))
  {
    var all := rs + [s];
    if Accepted(c, FileOf(c, all)) {
      ReadFileSnoc(c, rs, s);
      RoundTrip(c, rs);
      assert Norms(c, all) == Norms(c, rs) + [c.norm(s)];
      assert ReadSpec(c, FileOf(c, all)) == Records(Norms(c, all)) && |c.marshal(s).value| < MAX_LINE;
      VerifiedSnoc(c, rs, s);
      hide Lawful, ReadSpec, Text, Verified, CollisionIn;
      NormsVerify(c, all);
      assert s in all;
    }
  }

  /** An append whose write fails, or not. */
  datatype Try = Try(r: Record, freshId: string, fault: Fault)

  function TryOne(c: Codec, path: string, st: State, t: Try): State {
    AppendSpec(c, path, st, t.r, t.freshId, t.fault).st
  }

  function TryAll(c: Codec, path: string, st: State, ts: seq<Try>): State
    decreases |ts|
  {
    if ts == [] then st else TryAll(c, path, TryOne(c, path, st, ts[0]), ts[1..])
  }

  function SealingOf(c: Codec, st: State, t: Try): seq<Record> {
    if Accepts(c, t.r) then [SealedBy(c, st, t.r, t.freshId)] else []
  }

  /** The records the appends sealed, written or not. */
  function Sealings(c: Codec, path: string, st: State, ts: seq<Try>): seq<Record>
    decreases |ts|
  {
    if ts == [] then [] else SealingOf(c, st, ts[0]) + Sealings(c, path, TryOne(c, path, st, ts[0]), ts[1..])
  }

  /** The write of this append goes through. */
  predicate Writes(c: Codec, st: State, t: Try) { Accepts(c, t.r) && st.open && t.fault != WriteFault }

  function LinesOfTry(c: Codec, st: State, t: Try): seq<Record> {
    if Writes(c, st, t) then SealingOf(c, st, t) else []
  }

  /** The records whose lines the appends put in the file. */
  function Lines(c: Codec, path: string, st: State, ts: seq<Try>): seq<Record>
    decreases |ts|
  {
    if ts == [] then [] else LinesOfTry(c, st, ts[0]) + Lines(c, path, TryOne(c, path, st, ts[0]), ts[1..])
  }

  lemma ConcatAssociates(x: seq<Record>, y: seq<Record>, z: seq<Record>)
    ensures (x + y) + z == x + (y + z)
  {
  }

  predicate AllEncode(c: Codec, rs: seq<Record>) { forall r | r in rs :: c.marshal(r).Some? }

  /** One append: the file grows by what was written, the chain in memory by what was sealed. */
  lemma TryEffect(c: Codec, path: string, st: State, t: Try, file: seq<Record>, chain: seq<Record>)
    requires Lawful(c) && Content(st.disk, path) == FileOf(c, file) && AllEncode(c, file)
    requires Verified(c, chain) && st.lastHash == Head(chain)
    ensures var st' := TryOne(c, path, st, t);
            && Content(st'.disk, path) == FileOf(c, file + LinesOfTry(c, st, t))
            && AllEncode(c, file + LinesOfTry(c, st, t))
            && Verified(c, chain + SealingOf(c, st, t))
            && st'.lastHash == Head(chain + SealingOf(c, st, t))
    ensures forall r | r in SealingOf(c, st, t) :: r.prevHash == Head(chain)
  {
    hide Lawful, AppendSpec, SealedBy, LineOf, FileOf, Verified, Accepts, TryOne, Content;
    AppendAccepts(c, path, st, t.r, t.freshId, t.fault);
    var s := SealedBy(c, st, t.r, t.freshId);
    FileSnoc(c, file, s);
    VerifiedSnoc(c, chain, s);
    assert file + [] == file && chain + [] == chain;
    TryDisk(c, path, st, t);
  }

  lemma TryDisk(c: Codec, path: string, st: State, t: Try)
    requires Lawful(c)
    ensures var s := SealedBy(c, st, t.r, t.freshId);
            var st' := TryOne(c, path, st, t);
            && st'.lastHash == (if Accepts(c, t.r) then s.hash else st.lastHash)
            && (Writes(c, st, t) ==> Content(st'.disk, path) == Content(st.disk, path) + LineOf(c, s))
            && (!Writes(c, st, t) ==> st'.disk == st.disk)
  {
    SealExtends(c, st.lastHash, t.r, t.freshId);
    hide Lawful, LineOf, Extends;
  }

  lemma {:induction false} TriesEffect(c: Codec, path: string, st: State, ts: seq<Try>, file: seq<Record>,
                                       chain: seq<Record>)
    requires Lawful(c) && Content(st.disk, path) == FileOf(c, file) && AllEncode(c, file)
    requires Verified(c, chain) && st.lastHash == Head(chain)
    ensures var st' := TryAll(c, path, st, ts);
            && Content(st'.disk, path) == FileOf(c, file + Lines(c, path, st, ts))
            && AllEncode(c, file + Lines(c, path, st, ts))
            && Verified(c, chain + Sealings(c, path, st, ts))
            && st'.lastHash == Head(chain + Sealings(c, path, st, ts))
    decreases |ts|
  {
    if ts == [] {
      assert file + [] == file && chain + [] == chain;
    } else {
      TryEffect(c, path, st, ts[0], file, chain);
      hide Lawful, TryOne, FileOf, Verified, AllEncode, LinesOfTry, SealingOf, Head, Content;
      var st1, x, y := TryOne(c, path, st, ts[0]), LinesOfTry(c, st, ts[0]), SealingOf(c, st, ts[0]);
      TriesEffect(c, path, st1, ts[1..], file + x, chain + y);
      ConcatAssociates(file, x, Lines(c, path, st1, ts[1..]));
      ConcatAssociates(chain, y, Sealings(c, path, st1, ts[1..]));
    }
  }

  /** The first line written links to the record sealed just before it, written or not. */
  lemma {:induction false} FirstLineLinks(c: Codec, path: string, st: State, ts: seq<Try>, file: seq<Record>,
                                          chain: seq<Record>) returns (m: nat)
    requires Lawful(c) && Content(st.disk, path) == FileOf(c, file) && AllEncode(c, file)
    requires Verified(c, chain) && st.lastHash == Head(chain)
    requires Lines(c, path, st, ts) != []
    ensures m <= |Sealings(c, path, st, ts)|
    ensures Lines(c, path, st, ts)[0].prevHash == Head(chain + Sealings(c, path, st, ts)[..m])
    decreases |ts|
  {
    hide *;
    TriesCons(c, path, st, ts);
    TryEffect(c, path, st, ts[0], file, chain);
    var x, y := LinesOfTry(c, st, ts[0]), SealingOf(c, st, ts[0]);
    var st1 := TryOne(c, path, st, ts[0]);
    if x != [] {
      LineIsSealing(c, st, ts[0]);
      assert x[0] in y && Lines(c, path, st, ts)[0] == x[0];
      m := 0;
      assert chain + Sealings(c, path, st, ts)[..0] == chain;
    } else {
      assert Lines(c, path, st, ts) == Lines(c, path, st1, ts[1..]);
      var k := FirstLineLinks(c, path, st1, ts[1..], file + x, chain + y);
      m := |y| + k;
      FirstLineShift(chain, y, Sealings(c, path, st1, ts[1..]), k);
    }
  }

  /** A sequence of appends that writes or seals something has a first one. */
  lemma TriesCons(c: Codec, path: string, st: State, ts: seq<Try>)
    requires Lines(c, path, st, ts) != []
    ensures ts != []
    ensures Lines(c, path, st, ts) == LinesOfTry(c, st, ts[0]) + Lines(c, path, TryOne(c, path, st, ts[0]), ts[1..])
    ensures Sealings(c, path, st, ts)
         == SealingOf(c, st, ts[0]) + Sealings(c, path, TryOne(c, path, st, ts[0]), ts[1..])
  {
    hide LinesOfTry, SealingOf, TryOne;
  }

  /** What is written was sealed. */
  lemma LineIsSealing(c: Codec, st: State, t: Try)
    ensures LinesOfTry(c, st, t) != [] ==> LinesOfTry(c, st, t) == SealingOf(c, st, t)
  {
    hide SealedBy;
  }

  lemma FirstLineShift(chain: seq<Record>, y: seq<Record>, rest: seq<Record>, k: nat)
    requires k <= |rest|
    ensures (chain + y) + rest[..k] == chain + (y + rest)[..|y| + k]
  {
  }

  /** A file that reads at all reads as the normal forms of the records written to it. */
  lemma {:induction false} ReadsAsWritten(c: Codec, rs: seq<Record>)
    requires Lawful(c) && AllEncode(c, rs)
    ensures ReadSpec(c, FileOf(c, rs)).Records? ==> ReadSpec(c, FileOf(c, rs)) == Records(Norms(c, rs))
  {
    if rs != [] {
      var init, r := rs[..|rs| - 1], rs[|rs| - 1];
      assert rs == init + [r] && r in rs;
      ReadsAsWritten(c, init);
      ReadFileSnoc(c, init, r);
      assert Norms(c, rs) == Norms(c, init) + [c.norm(r)];
    }
  }

  /** An accepted file links each record to the one before it. */
  lemma AcceptedLinks(c: Codec, rs: seq<Record>, w: Record, more: seq<Record>)
    requires Lawful(c) && Verified(c, rs) && AllEncode(c, rs + [w] + more)
    requires Accepted(c, FileOf(c, rs + [w] + more)) && c.utf8(w.prevHash)
    ensures w.prevHash == Head(rs)
  {
    hide *;
    var all := rs + [w] + more;
    ReadsAsWritten(c, all);
    AcceptedRecords(c, FileOf(c, all));
    assert all[|rs|] == w && all[..|rs|] == rs;
    LinkAsRead(c, all, |rs|);
  }

  /** In a chain that verifies as read back, a record links to the one before it as written. */
  lemma LinkAsRead(c: Codec, all: seq<Record>, i: nat)
    requires Lawful(c) && Verified(c, Norms(c, all)) && i < |all| && Verified(c, all[..i]) && c.utf8(all[i].prevHash)
    ensures all[i].prevHash == Head(all[..i])
  {
    assert LinkedAt(c, Norms(c, all), i) && RecordLaws(c, all[i]);
    hide Lawful, RecordLaws;
    if i > 0 {
      VerifiedAt(c, all[..i], i - 1);
      NormKeepsHash(c, all[i - 1]);
    }
  }

  /** Once the chain in memory has gone on without the file, no sequence of appends makes the file
      acceptable again: either nothing more is written, or the file is refused, or two of the sealed
      records collide. */
  lemma LostHead(c: Codec, path: string, st: State, rs: seq<Record>, lost: seq<Record>, ts: seq<Try>)
    requires Lawful(c) && Verified(c, rs + lost) && lost != [] && AllStorable(c, rs)
    requires Content(st.disk, path) == FileOf(c, rs) && st.lastHash == Head(rs + lost)
    ensures var sealed := rs + lost + Sealings(c, path, st, ts);
            var data := Content(TryAll(c, path, st, ts).disk, path);
            if Lines(c, path, st, ts) == [] then data == FileOf(c, rs)
            else !Accepted(c, data) || CollisionIn(c, sealed, sealed)
  {
    assert AllEncode(c, rs) by {
      assert forall r | r in rs :: Storable(c, r);
    }
    TriesEffect(c, path, st, ts, rs, rs + lost);
    hide Lawful, Verified, Accepted, CollisionIn, FileOf, TryAll, Sealings, AllStorable;
    var ws := Lines(c, path, st, ts);
    if ws == [] {
      assert rs + [] == rs;
    } else {
      var m := FirstLineLinks(c, path, st, ts, rs, rs + lost);
      LostHeadRefused(c, rs, lost, Sealings(c, path, st, ts), m, ws);
    }
  }

  lemma LostHeadRefused(c: Codec, rs: seq<Record>, lost: seq<Record>, more: seq<Record>, m: nat, ws: seq<Record>)
    requires Lawful(c) && Verified(c, rs + lost + more) && lost != [] && m <= |more| && ws != []
    requires AllEncode(c, rs + ws) && ws[0].prevHash == Head(rs + lost + more[..m])
    ensures !Accepted(c, FileOf(c, rs + ws)) || CollisionIn(c, rs + lost + more, rs + lost + more)
  {
    assert (rs + lost + more)[..|rs|] == rs;
    VerifiedPrefix(c, rs + lost + more, |rs|);
    assert rs + ws == rs + [ws[0]] + ws[1..];
    hide Lawful, Verified, Accepted, CollisionIn, FileOf;
    LostHeadLinks(c, rs, lost, more, m, ws[0]);
    if Accepted(c, FileOf(c, rs + ws)) {
      AcceptedLinks(c, rs, ws[0], ws[1..]);
    }
  }

  /** A record linked past the lost ones does not link to the last written one. */
  lemma LostHeadLinks(c: Codec, rs: seq<Record>, lost: seq<Record>, more: seq<Record>, m: nat, w: Record)
    requires Lawful(c) && Verified(c, rs + lost + more) && lost != [] && m <= |more|
    requires w.prevHash == Head(rs + lost + more[..m])
    ensures c.utf8(w.prevHash)
    ensures w.prevHash != Head(rs) || CollisionIn(c, rs + lost + more, rs + lost + more)
  {
    var all := rs + lost + more;
    var last := |rs| + |lost| + m - 1;
    assert Head(rs + lost + more[..m]) == all[last].hash;
    VerifiedAt(c, all, last);
    HashForm(c, all[last]);
    HashesDistinct(c, all);
    if rs != [] {
      assert Head(rs) == all[|rs| - 1].hash;
    }
  }

  /** A failed write, both ways. The file still holds exactly the acknowledged records, and reopening at
      once gives back the store as it was before; going on with the same store never makes its file
      acceptable again. */
  lemma FailedWrite(c: Codec, path: string, st: State, h: History, r: Record, id: string, ts: seq<Try>)
    requires Lawful(c) && Healthy(c, path, st, h) && Accepts(c, r)
    ensures var a := AppendSpec(c, path, st, r, id, WriteFault);
            var sealed := Written(h.live) + [SealedBy(c, st, r, id)] + Sealings(c, path, a.st, ts);
            && a.err == Some(WriteFailed) && a.st.disk == st.disk
            && OpenSpec(c, path, a.st.disk) == Open(st)
            && (Lines(c, path, a.st, ts) != [] ==>
                  || !Accepted(c, Content(TryAll(c, path, a.st, ts).disk, path))
                  || CollisionIn(c, sealed, sealed))
  {
    AppendAccepts(c, path, st, r, id, WriteFault);
    OpenRebuilds(c, path, st.disk, h);
    assert st.disk[path := Content(st.disk, path)] == st.disk;
    var rs, s := Written(h.live), SealedBy(c, st, r, id);
    VerifiedSnoc(c, rs, s);
    LostHead(c, path, AppendSpec(c, path, st, r, id, WriteFault).st, rs, [s], ts);
  }

  /** Rotation starts an acceptable file again, but after a failed write its rotation record does not
      link to the archive: the head it names was never written. */
  lemma RotationAfterFailedWrite(c: Codec, path: string, st: State, h: History, r: Record, id: string,
                                 maxAge: int, now: Time, rotationId: string)
    requires Lawful(c) && Healthy(c, path, st, h) && Accepts(c, r)
    requires var st1 := AppendSpec(c, path, st, r, id, WriteFault).st;
             Due(st1, maxAge, now) && Storable(c, SealedRotation(c, path, st1, now, rotationId))
    ensures var st1 := AppendSpec(c, path, st, r, id, WriteFault).st;
            var rot := RotateSpec(c, path, st1, maxAge, now, rotationId, NoFault);
            var sealed := Written(h.live) + [SealedBy(c, st, r, id)];
            && rot.err.None?
            && Content(rot.st.disk, path) == FileOf(c, [SealedRotation(c, path, st1, now, rotationId)])
            && Accepted(c, Content(rot.st.disk, path))
            && (LinksTo(c, SealedRotation(c, path, st1, now, rotationId), Written(h.live)) ==>
                  CollisionIn(c, sealed, sealed))
  {
    AppendAccepts(c, path, st, r, id, WriteFault);
    var rs, s := Written(h.live), SealedBy(c, st, r, id);
    var st1 := AppendSpec(c, path, st, r, id, WriteFault).st;
    VerifiedSnoc(c, rs, s);
    HeadIsHex(c, rs + [s]);
    RotateUnfolds(c, path, st1, maxAge, now, rotationId);
    RotationSealed(c, path, st1, now, rotationId);
    var link := SealedRotation(c, path, st1, now, rotationId);
    OneRecordFile(c, link);
    HashesDistinct(c, rs + [s]);
    if rs != [] {
      assert (rs + [s])[|rs| - 1].hash == Head(rs) && (rs + [s])[|rs|].hash == s.hash;
    }
  }

  lemma OneRecordFile(c: Codec, r: Record)
    requires Lawful(c) && Extends(c, "", r) && Storable(c, r)
    ensures FileOf(c, [r]) == LineOf(c, r) && Accepted(c, FileOf(c, [r]))
  {
    FileSnoc(c, [], r);
    VerifiedSnoc(c, [], r);
    assert [] + [r] == [r] && Verified(c, [r]);
    hide Lawful, Accepted, Extends, LineOf, Verified, Storable;
    assert FileOf(c, []) + LineOf(c, r) == LineOf(c, r);
    GoodAccepted(c, [r]);
  }

  /** A failed sync: the line may be durable although `Append` reported an error. If it is, the chain is
      intact and reopening gives the store a successful append would have given; the store still in
      memory counts one record too few, and so does the rotation record it writes. If the record is the
      first, the store in memory takes the file for empty: no rotation is due, however old the record. */
  lemma FailedSync(c: Codec, path: string, st: State, h: History, r: Record, id: string, now: Time, rotationId: string)
    requires Lawful(c) && Healthy(c, path, st, h) && Accepts(c, r) && Storable(c, SealedBy(c, st, r, id))
    ensures var a := AppendSpec(c, path, st, r, id, SyncFault);
            var rs := Written(h.live) + [SealedBy(c, st, r, id)];
            && a.err == Some(SyncFailed)
            && OpenSpec(c, path, a.st.disk) == Open(AppendSpec(c, path, st, r, id, NoFault).st)
            && a.st.lastHash == Head(rs) && a.st.count + 1 == |rs|
            && !LinksTo(c, SealedRotation(c, path, a.st, now, rotationId), rs)
            && (Written(h.live) == [] ==>
                  && a.st.count == 0 && a.st.firstAt == 0
                  && OpenSpec(c, path, a.st.disk).st.firstAt == r.collectedAt
                  && forall maxAge, at :: !Due(a.st, maxAge, at))
  {
    AppendAccepts(c, path, st, r, id, SyncFault);
    AppendAccepts(c, path, st, r, id, NoFault);
    ReopensIff(c, path, st, h, r, id);
    var a := AppendSpec(c, path, st, r, id, SyncFault);
    assert a.st.disk == AppendSpec(c, path, st, r, id, NoFault).st.disk;
    VerifiedSnoc(c, Written(h.live), SealedBy(c, st, r, id));
    HeadIsHex(c, Written(h.live) + [SealedBy(c, st, r, id)]);
    RotationSealed(c, path, a.st, now, rotationId);
  }

  /** What the next rotation does to an archive. In a different second the archive is untouched; in the
      same second (which a `maxAge` below one second allows) the rename replaces it with the newer
      segment, and everything it held is gone from the disk. */
  lemma NextRotation(c: Codec, path: string, st: State, h: History,
                     maxAge: int, now: Time, id: string, maxAge': int, now': Time, id': string)
    requires Lawful(c) && Healthy(c, path, st, h) && Due(st, maxAge, now)
    requires Storable(c, SealedRotation(c, path, st, now, id))
    requires var st1 := RotateSpec(c, path, st, maxAge, now, id, NoFault).st;
             Due(st1, maxAge', now') && Storable(c, SealedRotation(c, path, st1, now', id'))
    ensures var st1 := RotateSpec(c, path, st, maxAge, now, id, NoFault).st;
            var st2 := RotateSpec(c, path, st1, maxAge', now', id', NoFault).st;
            var archive := ArchiveName(c, path, now);
            && Content(st1.disk, archive) == FileOf(c, Written(h.live))
            && (Second(now) != Second(now') ==> Content(st2.disk, archive) == FileOf(c, Written(h.live)))
            && (Second(now) == Second(now') ==>
                  && Content(st2.disk, archive) == LineOf(c, SealedRotation(c, path, st, now, id))
                  && st2.disk.Keys == st1.disk.Keys)
  {
    HeadIsHex(c, Written(h.live));
    RotateUnfolds(c, path, st, maxAge, now, id);
    var st1 := RotateSpec(c, path, st, maxAge, now, id, NoFault).st;
    HashForm(c, SealedRotation(c, path, st, now, id));
    RotateUnfolds(c, path, st1, maxAge', now', id');
    ArchiveNames(c, path, now, now');
    ArchiveNames(c, path, now', now);
  }

  /** Such a second rotation can be due at once: with `maxAge` one nanosecond, one nanosecond later. */
  lemma DueAtOnce(c: Codec, path: string, st: State, maxAge: int, now: Time, id: string)
    requires Lawful(c) && st.open && path in st.disk && Hex(st.lastHash) && now > 0
    requires Due(st, maxAge, now) && Storable(c, SealedRotation(c, path, st, now, id))
    ensures Due(RotateSpec(c, path, st, maxAge, now, id, NoFault).st, 1, now + 1)
    ensures now % SECOND != SECOND - 1 ==> Second(now) == Second(now + 1)
  {
    RotateUnfolds(c, path, st, maxAge, now, id);
  }

  /** A rotation that meets this fault has closed the old file and not opened a new one. */
  predicate LosesHandle(fault: Fault) { fault.CloseFault? || fault.RenameFault? || fault.CreateFault? }

  /** What the disk holds after a rotation, by the file operation it failed at. */
  lemma RotationDisk(c: Codec, path: string, st: State, maxAge: int, now: Time, id: string, fault: Fault)
    requires Lawful(c) && st.open && path in st.disk && Due(st, maxAge, now) && Hex(st.lastHash)
    requires LosesHandle(fault) || Storable(c, SealedRotation(c, path, st, now, id))
    ensures var r := RotateSpec(c, path, st, maxAge, now, id, fault);
            var renamed := RenamedDisk(c, path, st.disk, now);
            match fault
            case CloseFault => r == Rotated(st.(open := false), "", Some(CloseFailed))
            case RenameFault => r == Rotated(st.(open := false), "", Some(RenameFailed))
            case CreateFault => r == Rotated(st.(open := false, disk := renamed), "", Some(CreateFailed))
            case WriteFault => r.err == Some(WriteFailed) && r.st.disk == renamed[path := Content(renamed, path)]
            case SyncFault =>
              && r.err == Some(SyncFailed)
              && r.st.disk == RotateSpec(c, path, st, maxAge, now, id, NoFault).st.disk
            case NoFault => r.err.None?
  {
    hide Lawful, AppendSpec, Accepts, Due, Storable, SealedRotation, RotationRecord, ArchiveName, Hex;
    if fault.WriteFault? || fault.SyncFault? || fault.NoFault? {
      RotationSealed(c, path, st, now, id);
      var renamed := RenamedDisk(c, path, st.disk, now);
      var created := State(renamed[path := Content(renamed, path)], true, "", 0, 0);
      var r := RotationRecord(c, ArchiveName(c, path, now), st.lastHash, st.count, now);
      AppendByFault(c, path, created, r, id, fault);
    }
  }

  /** An append to an open store, by the file operation it failed at. */
  lemma AppendByFault(c: Codec, path: string, st: State, r: Record, id: string, fault: Fault)
    requires Lawful(c) && st.open && Accepts(c, r)
    ensures var a := AppendSpec(c, path, st, r, id, fault);
            match fault
            case WriteFault => a.err == Some(WriteFailed) && a.st.disk == st.disk
            case SyncFault => a.err == Some(SyncFailed) && a.st.disk == AppendSpec(c, path, st, r, id, NoFault).st.disk
            case _ => a.err.None?
  {
    AppendAccepts(c, path, st, r, id, fault);
    AppendAccepts(c, path, st, r, id, NoFault);
  }

  /** A rotation that is due and finds its archive name free loses no record, whatever file operation it
      fails at: the files still hold the records they held, in order. And it keeps the times in order. */
  lemma RotationKeepsRecords(c: Codec, path: string, st: State, h: History, maxAge: int, now: Time, id: string,
                             fault: Fault) returns (h': History)
    requires Lawful(c) && Healthy(c, path, st, h)
    requires Due(st, maxAge, now) ==>
               ArchiveName(c, path, now) !in st.disk && Storable(c, SealedRotation(c, path, st, now, id))
    ensures var r := RotateSpec(c, path, st, maxAge, now, id, fault);
            && OnDisk(c, path, r.st.disk, h') && Payload(h') == Payload(h)
            && |h.archives| <= |h'.archives| <= |h.archives| + 1
            && (r.err.None? ==>
                  Healthy(c, path, r.st, h') && h' == HistoryStep(c, path, st, h, Rotate(maxAge, now, id)))
            && (InOrder(c, path, st.disk, h) && maxAge >= SECOND ==> InOrder(c, path, r.st.disk, h'))
  {
    h' := h;
    if Due(st, maxAge, now) {
      HeadIsHex(c, Written(h.live));
      RotationDisk(c, path, st, maxAge, now, id, fault);
      hide Lawful, OnDisk, InOrder, RotateSpec, Payload, Storable, SealedRotation;
      if fault.CreateFault? || fault.WriteFault? {
        h' := RenamedRecords(c, path, st.disk, h, now);
      } else if fault.SyncFault? || fault.NoFault? {
        h' := RotatedRecords(c, path, st, h, maxAge, now, id);
      }
      if InOrder(c, path, st.disk, h) && maxAge >= SECOND {
        RotationInOrder(c, path, st, h, maxAge, now, RotateSpec(c, path, st, maxAge, now, id, fault).st.disk, h');
      }
    }
  }

  /** The rotation that got through. */
  lemma RotatedRecords(c: Codec, path: string, st: State, h: History, maxAge: int, now: Time, id: string)
    returns (h': History)
    requires Lawful(c) && Healthy(c, path, st, h) && Due(st, maxAge, now)
    requires ArchiveName(c, path, now) !in st.disk && Storable(c, SealedRotation(c, path, st, now, id))
    ensures var st' := RotateSpec(c, path, st, maxAge, now, id, NoFault).st;
            && Healthy(c, path, st', h') && h' == HistoryStep(c, path, st, h, Rotate(maxAge, now, id))
            && Payload(h') == Payload(h) && st'.disk.Keys == RenamedDisk(c, path, st.disk, now).Keys + {path}
    ensures h'.archives == RotatedHistory(c, path, h, now).archives
    ensures |h'.archives| == |h.archives| + 1 && Written(h'.live)[0].collectedAt == now
  {
    HeadIsHex(c, Written(h.live));
    RotationSealed(c, path, st, now, id);
    RotateUnfolds(c, path, st, maxAge, now, id);
    hide Lawful, OnDisk, Payload, Storable, SealedRotation, RotateSpec;
    RotateHealthy(c, path, st, h, maxAge, now, id);
    PayloadStep(c, path, st, h, Rotate(maxAge, now, id));
    h' := HistoryStep(c, path, st, h, Rotate(maxAge, now, id));
    assert Payload(h) + [] == Payload(h);
  }

  /** A rotation that was due keeps the times in order, whether it renamed the file or not. */
  lemma RotationInOrder(c: Codec, path: string, st: State, h: History, maxAge: int, now: Time,
                        disk': map<string, string>, h': History)
    requires Lawful(c) && Healthy(c, path, st, h) && Due(st, maxAge, now)
    requires InOrder(c, path, st.disk, h) && maxAge >= SECOND
    requires || (h' == h && disk'.Keys == st.disk.Keys)
             || (&& h'.archives == RotatedHistory(c, path, h, now).archives
                 && disk'.Keys <= RenamedDisk(c, path, st.disk, now).Keys + {path}
                 && (Written(h'.live) != [] ==> Written(h'.live)[0].collectedAt == now))
    ensures InOrder(c, path, disk', h')
  {
    hide Lawful, OnDisk, Written, NamesPast, RenamedDisk;
    DueIsLater(c, path, st, h, maxAge, now);
    if h' == h && disk'.Keys == st.disk.Keys {
      SameNames(c, path, st.disk, disk', h);
    } else {
      RotatedInOrder(c, path, st.disk, h, now, disk', h');
    }
  }

  /** After the rename alone the records are all there, with the live file missing or empty. */
  lemma RenamedRecords(c: Codec, path: string, disk: map<string, string>, h: History, now: Time) returns (h': History)
    requires Lawful(c) && OnDisk(c, path, disk, h)
    requires path in disk && Written(h.live) != [] && ArchiveName(c, path, now) !in disk
    ensures var renamed := RenamedDisk(c, path, disk, now);
            && OnDisk(c, path, renamed, h') && OnDisk(c, path, renamed[path := Content(renamed, path)], h')
    ensures Payload(h') == Payload(h) && |h'.archives| == |h.archives| + 1
    ensures h' == RotatedHistory(c, path, h, now) && Written(h'.live) == []
  {
    h' := RotatedHistory(c, path, h, now);
    LiveArchived(c, path, disk, h, now);
    hide OnDisk, Lawful;
    OpenRebuilds(c, path, RenamedDisk(c, path, disk, now), h');
    assert h'.archives[..|h.archives|] == h.archives;
  }

  /** Anything a store can be asked to do. */
  datatype Request = Adding(t: Try) | Rotating(maxAge: int, now: Time, freshId: string, fault: Fault)

  function Serve(c: Codec, path: string, st: State, q: Request): State {
    match q
    case Adding(t) => TryOne(c, path, st, t)
    case Rotating(maxAge, now, id, fault) => RotateSpec(c, path, st, maxAge, now, id, fault).st
  }

  function ServeAll(c: Codec, path: string, st: State, qs: seq<Request>): State
    decreases |qs|
  {
    if qs == [] then st else ServeAll(c, path, Serve(c, path, st, qs[0]), qs[1..])
  }

  /** A store whose handle is closed never writes again. */
  lemma {:induction false} ClosedForGood(c: Codec, path: string, st: State, qs: seq<Request>)
    requires !st.open
    ensures var st' := ServeAll(c, path, st, qs);
            st' == st.(lastHash := st'.lastHash)
    decreases |qs|
  {
    if qs != [] {
      ClosedForGood(c, path, Serve(c, path, st, qs[0]), qs[1..]);
    }
  }

  /** A failed rotation, both ways. Once closing, renaming or creating the file has failed, the store in
      memory is lost: whatever it is asked, it never changes a file again, every append fails, and the
      rotation stays due and fails while the clock does not go back. But no record is lost: reopening, at
      once or later, gives a healthy store with all of them, with its times still in order, so that all that
      holds of runs and of crashes holds of what follows. */
  lemma FailedRotation(c: Codec, path: string, st: State, h: History, maxAge: int, now: Time, id: string, fault: Fault,
                       qs: seq<Request>, now': Time, t: Try, id': string, fault': Fault) returns (h': History)
    requires Lawful(c) && Healthy(c, path, st, h) && Due(st, maxAge, now)
    requires LosesHandle(fault)
    requires fault.CreateFault? ==> ArchiveName(c, path, now) !in st.disk
    ensures var r := RotateSpec(c, path, st, maxAge, now, id, fault);
            var later := ServeAll(c, path, r.st, qs);
            && r.err.Some? && later.disk == r.st.disk
            && AppendSpec(c, path, later, t.r, t.freshId, t.fault).err.Some?
            && (now' >= now ==>
                  RotateSpec(c, path, later, maxAge, now', id', fault') == Rotated(later, "", Some(CloseFailed)))
            && OpenSpec(c, path, later.disk).Open? && Healthy(c, path, OpenSpec(c, path, later.disk).st, h')
            && Payload(h') == Payload(h)
            && (InOrder(c, path, st.disk, h) && maxAge >= SECOND ==>
                  InOrder(c, path, OpenSpec(c, path, later.disk).st.disk, h'))
  {
    hide *;
    h' := GivesUp(c, path, st, h, maxAge, now, id, fault);
    var st1 := RotateSpec(c, path, st, maxAge, now, id, fault).st;
    ClosedForGood(c, path, st1, qs);
    var later := ServeAll(c, path, st1, qs);
    OpenRebuilds(c, path, later.disk, h');
    if InOrder(c, path, later.disk, h') {
      OpenedInOrder(c, path, later.disk, h');
    }
    ClosedFails(c, path, later, maxAge, now', id', fault', t);
    if now' >= now {
      StaysDue(st, later, maxAge, now, now');
    }
  }

  /** The state such a rotation leaves. */
  lemma GivesUp(c: Codec, path: string, st: State, h: History, maxAge: int, now: Time, id: string, fault: Fault)
    returns (h': History)
    requires Lawful(c) && Healthy(c, path, st, h) && Due(st, maxAge, now)
    requires LosesHandle(fault)
    requires fault.CreateFault? ==> ArchiveName(c, path, now) !in st.disk
    ensures var r := RotateSpec(c, path, st, maxAge, now, id, fault);
            && r.err.Some? && !r.st.open && r.st.count == st.count && r.st.firstAt == st.firstAt
            && OnDisk(c, path, r.st.disk, h') && Payload(h') == Payload(h)
            && (InOrder(c, path, st.disk, h) && maxAge >= SECOND ==> InOrder(c, path, r.st.disk, h'))
  {
    HeadIsHex(c, Written(h.live));
    RotationDisk(c, path, st, maxAge, now, id, fault);
    hide Lawful, OnDisk, InOrder, RotateSpec, Payload;
    h' := h;
    if fault.CreateFault? {
      h' := RenamedRecords(c, path, st.disk, h, now);
    }
    if InOrder(c, path, st.disk, h) && maxAge >= SECOND {
      RotationInOrder(c, path, st, h, maxAge, now, RotateSpec(c, path, st, maxAge, now, id, fault).st.disk, h');
    }
  }

  /** Opening keeps the times in order. */
  lemma OpenedInOrder(c: Codec, path: string, disk: map<string, string>, h: History)
    requires Lawful(c) && OnDisk(c, path, disk, h) && InOrder(c, path, disk, h)
    ensures OpenSpec(c, path, disk).Open? && InOrder(c, path, OpenSpec(c, path, disk).st.disk, h)
  {
    OpenRebuilds(c, path, disk, h);
    hide Lawful, OnDisk, NamesPast, StartsAfter, OpenSpec, Written;
    SameNames(c, path, disk, disk[path := Content(disk, path)], h);
  }

  lemma ClosedFails(c: Codec, path: string, st: State, maxAge: int, now: Time, id: string, fault: Fault, t: Try)
    requires !st.open
    ensures AppendSpec(c, path, st, t.r, t.freshId, t.fault).err.Some?
    ensures Due(st, maxAge, now) ==>
              RotateSpec(c, path, st, maxAge, now, id, fault) == Rotated(st, "", Some(CloseFailed))
  {
    hide SealSpec, Due;
  }

  lemma StaysDue(st: State, st': State, maxAge: int, now: Time, now': Time)
    requires Due(st, maxAge, now) && st'.count == st.count && st'.firstAt == st.firstAt && now' >= now
    ensures Due(st', maxAge, now')
  {
  }

  /** And when only the rotation record's own write fails: the store goes on with a head that is in no file,
      and whatever it writes next makes the new file unacceptable, or two sealed records collide. */
  lemma RotationRecordLost(c: Codec, path: string, st: State, h: History, maxAge: int, now: Time, id: string,
                           ts: seq<Try>)
    requires Lawful(c) && Healthy(c, path, st, h) && Due(st, maxAge, now)
    requires Storable(c, SealedRotation(c, path, st, now, id))
    ensures var r := RotateSpec(c, path, st, maxAge, now, id, WriteFault);
            var sealed := [SealedRotation(c, path, st, now, id)] + Sealings(c, path, r.st, ts);
            && r.err == Some(WriteFailed) && r.st.open && r.st.count == 0
            && (Lines(c, path, r.st, ts) != [] ==>
                  || !Accepted(c, Content(TryAll(c, path, r.st, ts).disk, path))
                  || CollisionIn(c, sealed, sealed))
  {
    HeadIsHex(c, Written(h.live));
    RotationSealed(c, path, st, now, id);
    UnwrittenRotation(c, path, st, maxAge, now, id);
    var st1 := RotateSpec(c, path, st, maxAge, now, id, WriteFault).st;
    var s := SealedRotation(c, path, st, now, id);
    hide *;
    OneSealed(c, s);
    assert [] + [s] == [s];
    LostHead(c, path, st1, [], [s], ts);
  }

  lemma OneSealed(c: Codec, s: Record)
    requires Extends(c, "", s)
    ensures Verified(c, [s]) && Head([s]) == s.hash && AllStorable(c, []) && FileOf(c, []) == ""
  {
    assert Verified(c, []) && Head([]) == "";
    VerifiedSnoc(c, [], s);
    assert [] + [s] == [s];
  }

  lemma UnwrittenRotation(c: Codec, path: string, st: State, maxAge: int, now: Time, id: string)
    requires Lawful(c) && st.open && path in st.disk && Due(st, maxAge, now)
    requires Accepts(c, RotationRecord(c, ArchiveName(c, path, now), st.lastHash, st.count, now))
    ensures var r := RotateSpec(c, path, st, maxAge, now, id, WriteFault);
            var s := SealedRotation(c, path, st, now, id);
            && r.err == Some(WriteFailed) && r.st.open && r.st.count == 0
            && Content(r.st.disk, path) == "" && r.st.lastHash == s.hash && Extends(c, "", s)
  {
    ArchiveNames(c, path, now, now);
    var renamed := RenamedDisk(c, path, st.disk, now);
    var created := State(renamed[path := Content(renamed, path)], true, "", 0, 0);
    var r := RotationRecord(c, ArchiveName(c, path, now), st.lastHash, st.count, now);
    AppendAccepts(c, path, created, r, id, WriteFault);
    SealExtends(c, "", r, id);
    hide Lawful, Extends, ArchiveName, RotationRecord, Accepts;
  }

  /** Two stores opened on one file, as two policies with one store path have. Each appends a record and
      reports success. From then on the file is refused, whatever is written to it later, or two of its
      records collide. */
  lemma TwoWriters(c: Codec, path: string, st: State, h: History, r: Record, id: string, r': Record, id': string,
                   more: string)
    requires Lawful(c) && Healthy(c, path, st, h) && Accepts(c, r) && Accepts(c, r')
    ensures var a := AppendSpec(c, path, st, r, id, NoFault);
            var b := AppendSpec(c, path, st.(disk := a.st.disk), r', id', NoFault);
            var sealed := Written(h.live) + [SealedBy(c, st, r, id)];
            && a.err.None? && b.err.None?
            && (!Accepted(c, Content(b.st.disk, path) + more) || CollisionIn(c, sealed, sealed))
  {
    var rs, s, s' := Written(h.live), SealedBy(c, st, r, id), SealedBy(c, st, r', id');
    AppendAccepts(c, path, st, r, id, NoFault);
    var st1 := st.(disk := AppendSpec(c, path, st, r, id, NoFault).st.disk);
    AppendAccepts(c, path, st1, r', id', NoFault);
    assert AllEncode(c, rs) by {
      assert forall x | x in rs :: Storable(c, x);
    }
    hide Lawful, AppendSpec, SealSpec, Accepted, LineOf, Good, Verified, CollisionIn, FileOf, Storable, OnDisk;
    FileSnoc(c, rs, s);
    FileSnoc(c, rs + [s], s');
    TwoWritersRefused(c, rs, s, s', more);
  }

  lemma TwoWritersRefused(c: Codec, rs: seq<Record>, s: Record, s': Record, more: string)
    requires Lawful(c) && Good(c, rs) && Extends(c, Head(rs), s) && Extends(c, Head(rs), s')
    requires AllEncode(c, rs + [s] + [s']) && s.hash != ""
    ensures !Accepted(c, FileOf(c, rs + [s] + [s']) + more) || CollisionIn(c, rs + [s], rs + [s])
  {
    VerifiedSnoc(c, rs, s);
    var all := rs + [s] + [s'];
    HeadIsText(c, rs);
    HashesDistinct(c, rs + [s]);
    FileIsWholeLines(c, all);
    if Accepted(c, FileOf(c, all) + more) {
      LinePrefixAccepted(c, FileOf(c, all), more);
      assert all + [] == all;
      AcceptedLinks(c, rs + [s], s', []);
      if rs != [] {
        assert (rs + [s])[|rs| - 1].hash == Head(rs) && (rs + [s])[|rs|].hash == s.hash;
      }
    }
  }

  lemma HeadIsText(c: Codec, rs: seq<Record>)
    requires Lawful(c) && Verified(c, rs)
    ensures c.utf8(Head(rs))
  {
    if rs == [] {
      EmptyIsText(c);
    } else {
      VerifiedAt(c, rs, |rs| - 1);
      HashForm(c, rs[|rs| - 1]);
    }
  }
}
