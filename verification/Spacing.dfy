/** When a rotation finds its archive name free: archive names have a resolution of one second. */
module Spacing {
  import opened Evidence
  import opened Paths
  import opened Store
  import opened History
  import opened Runs

  /** A segment that starts with a record of this time is never rotated in the second of the newest
      archive, or before it. Without a time it is never rotated at all. */
  predicate FitsAfter(h: History, t: Time) {
    t == 0 || (h.archives != [] ==> Second(h.archives[|h.archives| - 1].at) <= Second(t))
  }

  predicate StartsAfter(h: History) { Written(h.live) != [] ==> FitsAfter(h, Written(h.live)[0].collectedAt) }

  predicate LaterSecond(h: History, now: Time) {
    h.archives != [] ==> Second(h.archives[|h.archives| - 1].at) < Second(now)
  }

  /** No file has the name of an archive made after the newest one. */
  ghost predicate NamesPast(c: Codec, path: string, disk: map<string, string>, h: History) {
    forall t {:trigger ArchiveName(c, path, t)} :: ArchiveName(c, path, t) in disk ==>
      h.archives != [] && Second(t) <= Second(h.archives[|h.archives| - 1].at)
  }

  /** The times of a store that never replaces an archive. */
  ghost predicate InOrder(c: Codec, path: string, disk: map<string, string>, h: History) {
    NamesPast(c, path, disk, h) && StartsAfter(h)
  }

  lemma ElapsedBack(now: Time, first: Time, age: int)
    requires Elapsed(now, first) >= age >= SECOND
    ensures Second(first) < Second(now)
  {
    assert first + SECOND <= now;
  }

  /** A rotation that is due then comes in a later second than the newest archive, so its name is free. */
  lemma DueIsLater(c: Codec, path: string, st: State, h: History, maxAge: int, now: Time)
    requires st == Resumed(st.disk, Written(h.live)) && InOrder(c, path, st.disk, h)
    requires maxAge >= SECOND && Due(st, maxAge, now)
    ensures LaterSecond(h, now) && ArchiveName(c, path, now) !in st.disk
  {
    hide Written, Second, Elapsed;
    ElapsedBack(now, st.firstAt, maxAge);
  }

  /** Some rotation with an age of at least one second would replace a file. */
  ghost predicate Replaces(c: Codec, path: string, st: State, maxAge: int, now: Time) {
    maxAge >= SECOND && Due(st, maxAge, now) && ArchiveName(c, path, now) in st.disk
  }

  /** The exact condition: a healthy store can replace an archive in a rotation exactly if its first
      record has a time in an earlier second than the newest archive. */
  lemma ReplacesIff(c: Codec, path: string, st: State, h: History)
    requires Lawful(c) && Healthy(c, path, st, h) && NamesPast(c, path, st.disk, h)
    ensures (exists maxAge, now :: Replaces(c, path, st, maxAge, now)) <==> !StartsAfter(h)
  {
    hide Lawful, OnDisk, ArchiveName;
    if !StartsAfter(h) {
      var last := h.archives[|h.archives| - 1];
      var now := LastMoment(last.at, Written(h.live)[0].collectedAt);
      NewestOnDisk(c, path, st, h);
      ArchiveNames(c, path, now, last.at);
      assert Replaces(c, path, st, SECOND, now);
    } else {
      forall maxAge, now | Replaces(c, path, st, maxAge, now)
        ensures false
      {
        DueIsLater(c, path, st, h, maxAge, now);
      }
    }
  }

  lemma NewestOnDisk(c: Codec, path: string, st: State, h: History)
    requires Healthy(c, path, st, h) && h.archives != []
    ensures ArchiveName(c, path, h.archives[|h.archives| - 1].at) in st.disk
  {
    assert ArchiveOnDisk(c, path, st.disk, h.archives[|h.archives| - 1]);
  }

  /** The end of a second is at least a second after every time in an earlier one. */
  lemma LastMoment(at: Time, first: Time) returns (now: Time)
    requires Second(first) < Second(at)
    ensures Second(now) == Second(at) && Elapsed(now, first) >= SECOND
  {
    now := Second(at) * SECOND + SECOND - 1;
    assert first < (Second(first) + 1) * SECOND <= Second(at) * SECOND;
  }

  /** Files other than the live one decide which archive names are taken. */
  lemma SameNames(c: Codec, path: string, disk: map<string, string>, disk': map<string, string>, h: History)
    requires Lawful(c) && NamesPast(c, path, disk, h) && disk'.Keys <= disk.Keys + {path}
    ensures NamesPast(c, path, disk', h)
  {
    forall t {:trigger ArchiveName(c, path, t)} | ArchiveName(c, path, t) in disk'
      ensures ArchiveName(c, path, t) in disk
    {
      ArchiveNames(c, path, t, t);
      assert ArchiveName(c, path, t) in disk'.Keys;
    }
  }

  /** After a rename in a later second. */
  lemma RenamedNames(c: Codec, path: string, disk: map<string, string>, h: History, now: Time)
    requires Lawful(c) && path in disk && NamesPast(c, path, disk, h) && LaterSecond(h, now)
    ensures NamesPast(c, path, RenamedDisk(c, path, disk, now), RotatedHistory(c, path, h, now))
  {
    hide Lawful, Second, ArchiveName;
    forall t {:trigger ArchiveName(c, path, t)} | ArchiveName(c, path, t) in RenamedDisk(c, path, disk, now)
      ensures Second(t) <= Second(now)
    {
      ArchiveNames(c, path, t, now);
    }
  }

  /** A rotation in a later second keeps the times in order, wherever it stops after the rename. */
  lemma RotatedInOrder(c: Codec, path: string, disk: map<string, string>, h: History, now: Time,
                       disk': map<string, string>, h': History)
    requires Lawful(c) && path in disk && InOrder(c, path, disk, h) && LaterSecond(h, now)
    requires disk'.Keys <= RenamedDisk(c, path, disk, now).Keys + {path}
    requires h'.archives == RotatedHistory(c, path, h, now).archives
    requires Written(h'.live) != [] ==> Written(h'.live)[0].collectedAt == now
    ensures InOrder(c, path, disk', h')
  {
    hide Lawful, Second, ArchiveName, RenamedDisk, Written;
    RenamedNames(c, path, disk, h, now);
    SameNames(c, path, RenamedDisk(c, path, disk, now), disk', RotatedHistory(c, path, h, now));
    assert NamesPast(c, path, disk', h');
  }

  /** Runs without faults have their times in order. */
  lemma TimelyInOrder(c: Codec, path: string, st: State, h: History)
    requires Timely(c, path, st, h)
    ensures InOrder(c, path, st.disk, h)
  {
  }
}
