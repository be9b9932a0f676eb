/** The collectors wired up for a process. */
module Registry {
  import opened Ordering

  /** A collector is an oracle: only its identity matters here. */
  datatype Collector = Collector(id: string, version: string)

  /** The registered collectors in increasing order of ID. */
  ghost function AllSpec(collectors: map<string, Collector>): (cs: seq<Collector>)
    ensures |cs| == |SortedList(collectors.Keys)|
  {
    SortedListSorts(collectors.Keys);
    var ids := SortedList(collectors.Keys);
    assert forall i | 0 <= i < |ids| :: ids[i] in Elements(ids);
    seq(|ids|, i requires 0 <= i < |ids| => collectors[ids[i]])
  }

  predicate Keyed(collectors: map<string, Collector>) { forall id | id in collectors :: collectors[id].id == id }

  function IdOrder(): (Collector, Collector) -> bool { (x: Collector, y: Collector) => Less(x.id, y.id) }

  class CollectorRegistry {
    var collectors: map<string, Collector>

    constructor ()
      ensures collectors == map[]
    {
      collectors := map[];
    }

    /** Refuses an ID that is already taken. */
    method Register(x: Collector) returns (ok: bool)
      requires Keyed(collectors)
      modifies this
      ensures Keyed(collectors)
      ensures ok <==> x.id !in old(collectors)
      ensures collectors == if ok then old(collectors)[x.id := x] else old(collectors)
    {
      if x.id in collectors {
        return false;
      }
      collectors := collectors[x.id := x];
      ok := true;
    }

    /** The map is ranged over in any order. */
    method All() returns (out: seq<Collector>)
      requires Keyed(collectors)
      ensures out == AllSpec(collectors)
    {
      var found: seq<Collector> := [];
      var rest := collectors.Keys;
      while rest != {}
        invariant rest <= collectors.Keys
        invariant forall i | 0 <= i < |found| ::
                    found[i].id in collectors && found[i].id !in rest && found[i] == collectors[found[i].id]
        invariant forall i, j | 0 <= i < j < |found| :: found[i] != found[j]
        invariant forall id | id in collectors && id !in rest :: collectors[id] in found
        decreases |rest|
      {
        var id :| id in rest;
        found := found + [collectors[id]];
        rest := rest - {id};
      }
      LessIsWeakOrder();
      out := SortSlice(found, IdOrder());
      SortedIsAll(collectors, out, found);
    }
  }

  function CollectorIds(xs: seq<Collector>): seq<string> { seq(|xs|, i requires 0 <= i < |xs| => xs[i].id) }

  /** Any sorted permutation of the map's values is the list in increasing order of ID. */
  lemma SortedIsAll(collectors: map<string, Collector>, out: seq<Collector>, found: seq<Collector>)
    requires Keyed(collectors) && Sorted(out, IdOrder()) && multiset(out) == multiset(found)
    requires forall i | 0 <= i < |found| :: found[i].id in collectors && found[i] == collectors[found[i].id]
    requires forall i, j | 0 <= i < j < |found| :: found[i] != found[j]
    requires forall id | id in collectors :: collectors[id] in found
    ensures out == AllSpec(collectors)
  {
    PermutedDistinct(out, found);
    forall i | 0 <= i < |out|
      ensures out[i].id in collectors && out[i] == collectors[out[i].id]
    {
      assert out[i] in Elements(out) && out[i] in Elements(found);
    }
    forall id | id in collectors
      ensures collectors[id] in out
    {
      assert collectors[id] in Elements(found) && collectors[id] in Elements(out);
    }
    SortedIds(collectors, out);
    SortedListSorts(collectors.Keys);
    IncreasingUnique(CollectorIds(out), SortedList(collectors.Keys));
  }

  lemma SortedIds(collectors: map<string, Collector>, out: seq<Collector>)
    requires Keyed(collectors) && Sorted(out, IdOrder())
    requires forall i | 0 <= i < |out| :: out[i].id in collectors && out[i] == collectors[out[i].id]
    requires forall i, j | 0 <= i < j < |out| :: out[i] != out[j]
    requires forall id | id in collectors :: collectors[id] in out
    ensures Increasing(CollectorIds(out)) && Elements(CollectorIds(out)) == collectors.Keys
  {
    hide Less;
    var ids := CollectorIds(out);
    forall i, j | 0 <= i < j < |ids|
      ensures ids[i] != ids[j] && !Less(ids[j], ids[i])
    {
      assert out[i] != out[j] && !IdOrder()(out[j], out[i]);
    }
    SortedIncreasing(ids);
    forall id | id in collectors
      ensures id in Elements(ids)
    {
      var i :| 0 <= i < |out| && out[i] == collectors[id];
      assert ids[i] == id;
    }
  }

  /** The list `RunOnce` goes through: every registered collector once, in increasing order of ID. */
  lemma AllInOrder(collectors: map<string, Collector>)
    requires Keyed(collectors)
    ensures Increasing(CollectorIds(AllSpec(collectors)))
    ensures forall x: Collector :: x in AllSpec(collectors) <==> x.id in collectors && collectors[x.id] == x
  {
    SortedListSorts(collectors.Keys);
    var ids, xs := SortedList(collectors.Keys), AllSpec(collectors);
    forall i | 0 <= i < |ids|
      ensures ids[i] in collectors && xs[i] == collectors[ids[i]] && xs[i].id == ids[i]
    {
      assert ids[i] in Elements(ids);
    }
    assert CollectorIds(xs) == ids;
    forall x: Collector | x.id in collectors && collectors[x.id] == x
      ensures x in xs
    {
      assert x.id in Elements(ids);
      var i :| 0 <= i < |ids| && ids[i] == x.id;
      assert xs[i] == x;
    }
  }
}
