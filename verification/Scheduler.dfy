/** One collection cycle, and runs of cycles. */
module Scheduler {
  import opened Evidence
  import opened Chain
  import opened LineFile
  import opened Paths
  import opened Store
  import opened History
  import opened Runs
  import opened Failure
  import opened Age
  import opened Mapping
  import opened Registry
  import Faults
  import Ordering

  const TARGET_COLLECTOR_RUN := "evidenced/collector-run"

  datatype Collected = Found(records: seq<Record>) | Failed(message: string)

  /** Everything a cycle takes from outside: what each collector returns, the clock readings, the fresh
      record IDs, and which file operations fail. A reading is named by the place it is taken at. */
  datatype Cycle = Cycle(
    collect: Collector -> Collected,
    rotateAt: Time, rotateId: string, rotateFault: Fault,
    failedAt: string -> Time,
    now: (string, nat) -> Time,
    id: (string, nat) -> string,
    fault: (string, nat) -> Fault)

  /** The evidence that a collection did not happen. */
  function FailureRecord(x: Collector, at: Time, message: string): Record {
    Record("", x.id, x.version, Target(TARGET_COLLECTOR_RUN, x.id, map[]), at, OUTCOME_FAILED, message, "", [], "", "")
  }

  function Gathered(cy: Cycle, x: Collector): seq<Record> {
    match cy.collect(x)
    case Found(records) => records
    case Failed(message) => [FailureRecord(x, cy.failedAt(x.id), message)]
  }

  function Stamped(r: Record, now: Time): Record { if r.collectedAt == 0 then r.(collectedAt := now) else r }

  ghost function Mapped(rules: Option<seq<Rule>>, r: Record): Record {
    match rules
    case None => r
    case Some(rs) => ApplySpec(rs, r)
  }

  /** A record to append, with the ID it may be given and the fault its append meets. */
  datatype Item = Item(r: Record, id: string, fault: Fault)

  ghost function ItemAt(rules: Option<seq<Rule>>, cy: Cycle, x: Collector, j: nat): Item
    requires j < |Gathered(cy, x)|
  {
    Item(Mapped(rules, Stamped(Gathered(cy, x)[j], cy.now(x.id, j))), cy.id(x.id, j), cy.fault(x.id, j))
  }

  ghost function CollectorItems(rules: Option<seq<Rule>>, cy: Cycle, x: Collector): seq<Item> {
    seq(|Gathered(cy, x)|, j requires 0 <= j < |Gathered(cy, x)| => ItemAt(rules, cy, x, j))
  }

  /** The whole cycle as one list: collector by collector, record by record. */
  ghost function CycleItems(rules: Option<seq<Rule>>, cy: Cycle, xs: seq<Collector>): seq<Item> {
    if xs == [] then [] else CollectorItems(rules, cy, xs[0]) + CycleItems(rules, cy, xs[1..])
  }

  /** An item is the collector's record: only a missing time and the controls are filled in. */
  lemma ItemKeepsEvidence(rules: Option<seq<Rule>>, cy: Cycle, x: Collector, j: nat)
    requires j < |Gathered(cy, x)|
    ensures var g, r := Gathered(cy, x)[j], ItemAt(rules, cy, x, j).r;
            && r.(collectedAt := g.collectedAt, controlIds := g.controlIds) == g
            && r.collectedAt == (if g.collectedAt != 0 then g.collectedAt else cy.now(x.id, j))
            && (rules.Some? ==>
                  && Ordering.Increasing(r.controlIds)
                  && Ordering.Elements(r.controlIds) == ControlSet(rules.value, g))
            && (rules.None? ==> r.controlIds == g.controlIds)
  {
    var g := Gathered(cy, x)[j];
    if rules.Some? {
      Ordering.SortedListSorts(ControlSet(rules.value, Stamped(g, cy.now(x.id, j))));
      assert ControlSet(rules.value, Stamped(g, cy.now(x.id, j))) == ControlSet(rules.value, g);
    }
  }

  /** A record of the cycle's list is the collector's record `g`: only a missing time is filled in, with the
      clock's reading `at`, and, with a mapping, the controls of the rules for its collector and type. */
  ghost predicate Evidences(rules: Option<seq<Rule>>, g: Record, at: Time, r: Record) {
    && r.(collectedAt := g.collectedAt, controlIds := g.controlIds) == g
    && r.collectedAt == (if g.collectedAt != 0 then g.collectedAt else at)
    && (rules.None? ==> r.controlIds == g.controlIds)
    && (rules.Some? ==> Ordering.Increasing(r.controlIds) && forall id ::
          id in r.controlIds <==>
            exists rule :: rule in rules.value && rule.collector == g.collectorId
                           && (rule.targetType == "" || rule.targetType == g.target.typ) && id in rule.controls)
  }

  /** How many records a collector's answer gives. */
  function Answers(cy: Cycle, x: Collector): nat {
    match cy.collect(x)
    case Found(records) => |records|
    case Failed(_) => 1
  }

  lemma ItemEvidences(rules: Option<seq<Rule>>, cy: Cycle, x: Collector, j: nat)
    requires j < |Gathered(cy, x)|
    ensures Evidences(rules, Gathered(cy, x)[j], cy.now(x.id, j), ItemAt(rules, cy, x, j).r)
  {
    ItemKeepsEvidence(rules, cy, x, j);
    if rules.Some? {
      var g, r := Gathered(cy, x)[j], ItemAt(rules, cy, x, j).r;
      hide ItemAt, Gathered;
      forall id
        ensures id in r.controlIds <==> id in ControlSet(rules.value, g)
      {
        assert id in r.controlIds <==> id in Ordering.Elements(r.controlIds);
      }
    }
  }

  /** What a collector found is listed, record by record and nothing else. */
  lemma FoundIsEvidence(rules: Option<seq<Rule>>, cy: Cycle, x: Collector, found: seq<Record>)
    requires cy.collect(x) == Found(found)
    ensures var items := CollectorItems(rules, cy, x);
            && |items| == |found|
            && forall j | 0 <= j < |found| ::
                 && Evidences(rules, found[j], cy.now(x.id, j), items[j].r)
                 && items[j].id == cy.id(x.id, j) && items[j].fault == cy.fault(x.id, j)
  {
    hide Evidences;
    forall j | 0 <= j < |found|
      ensures Evidences(rules, found[j], cy.now(x.id, j), CollectorItems(rules, cy, x)[j].r)
    {
      ItemEvidences(rules, cy, x, j);
    }
  }

  /** A collector that failed is not skipped: it is listed as exactly one record, which says that the
      collection failed, of which collector and version, when, and why. */
  lemma FailureIsEvidence(rules: Option<seq<Rule>>, cy: Cycle, x: Collector, message: string)
    requires cy.collect(x) == Failed(message)
    ensures var items := CollectorItems(rules, cy, x);
            var failure := Record("", x.id, x.version, Target("evidenced/collector-run", x.id, map[]),
                                  cy.failedAt(x.id), "collection-failed", message, "", [], "", "");
            && |items| == 1 && Evidences(rules, failure, cy.now(x.id, 0), items[0].r)
            && items[0].id == cy.id(x.id, 0) && items[0].fault == cy.fault(x.id, 0)
  {
    ItemEvidences(rules, cy, x, 0);
    hide Evidences;
  }

  /** Where the records of collector `p` start in the cycle's list. */
  function StartOf(cy: Cycle, xs: seq<Collector>, p: nat): nat
    requires p <= |xs|
  {
    if p == 0 then 0 else StartOf(cy, xs, p - 1) + Answers(cy, xs[p - 1])
  }

  /** The cycle's list is the collectors' lists one after the other, in the order of the collectors: each is
      one block, and there is nothing between them, before them or after them. */
  lemma {:induction false} CycleListsAll(rules: Option<seq<Rule>>, cy: Cycle, xs: seq<Collector>, p: nat)
    requires p < |xs|
    ensures |CycleItems(rules, cy, xs)| == StartOf(cy, xs, |xs|)
    ensures StartOf(cy, xs, p + 1) <= StartOf(cy, xs, |xs|)
    ensures CycleItems(rules, cy, xs)[StartOf(cy, xs, p)..StartOf(cy, xs, p + 1)] == CollectorItems(rules, cy, xs[p])
  {
    hide *;
    BlockAt(rules, cy, xs, p);
    BlockAt(rules, cy, xs, p + 1);
    BlockAt(rules, cy, xs, |xs|);
    StartsGrow(cy, xs, p + 1, |xs|);
    assert xs[..|xs|] == xs && xs[..p + 1] == xs[..p] + [xs[p]] && xs == xs[..p + 1] + xs[p + 1..];
    ItemsConcat(rules, cy, xs[..p], [xs[p]]);
    ItemsConcat(rules, cy, xs[..p + 1], xs[p + 1..]);
    OneCollector(rules, cy, xs[p]);
    MiddleOf(CycleItems(rules, cy, xs[..p]), CollectorItems(rules, cy, xs[p]), CycleItems(rules, cy, xs[p + 1..]));
  }

  lemma MiddleOf(before: seq<Item>, block: seq<Item>, rest: seq<Item>)
    ensures (before + block + rest)[|before|..|before + block|] == block
  {
  }

  lemma OneCollector(rules: Option<seq<Rule>>, cy: Cycle, x: Collector)
    ensures CycleItems(rules, cy, [x]) == CollectorItems(rules, cy, x)
  {
    hide CollectorItems;
    assert [x][1..] == [];
    assert CollectorItems(rules, cy, x) + CycleItems(rules, cy, []) == CollectorItems(rules, cy, x);
  }

  lemma AnswersCount(rules: Option<seq<Rule>>, cy: Cycle, x: Collector)
    ensures |CollectorItems(rules, cy, x)| == Answers(cy, x)
  {
  }

  lemma {:induction false} ItemsConcat(rules: Option<seq<Rule>>, cy: Cycle, xs: seq<Collector>, ys: seq<Collector>)
    ensures CycleItems(rules, cy, xs + ys) == CycleItems(rules, cy, xs) + CycleItems(rules, cy, ys)
    decreases |xs|
  {
    hide CollectorItems;
    if xs == [] {
      assert xs + ys == ys;
    } else {
      assert (xs + ys)[0] == xs[0] && (xs + ys)[1..] == xs[1..] + ys;
      ItemsConcat(rules, cy, xs[1..], ys);
    }
  }

  lemma {:induction false} BlockAt(rules: Option<seq<Rule>>, cy: Cycle, xs: seq<Collector>, p: nat)
    requires p <= |xs|
    ensures |CycleItems(rules, cy, xs[..p])| == StartOf(cy, xs, p)
    decreases p
  {
    hide CollectorItems, Answers;
    if p > 0 {
      BlockAt(rules, cy, xs, p - 1);
      assert xs[..p] == xs[..p - 1] + [xs[p - 1]];
      ItemsConcat(rules, cy, xs[..p - 1], [xs[p - 1]]);
      OneCollector(rules, cy, xs[p - 1]);
      AnswersCount(rules, cy, xs[p - 1]);
    }
  }

  lemma {:induction false} StartsGrow(cy: Cycle, xs: seq<Collector>, p: nat, q: nat)
    requires p <= q <= |xs|
    ensures StartOf(cy, xs, p) <= StartOf(cy, xs, q)
    decreases q
  {
    hide Answers;
    if p < q {
      StartsGrow(cy, xs, p, q - 1);
    }
  }

  datatype Batch = Batch(st: State, err: Option<StoreError>)

  /** Append the items in order until one fails. */
  function StoreItems(c: Codec, path: string, st: State, items: seq<Item>): Batch
    decreases |items|
  {
    if items == [] then Batch(st, None) else
    var a := AppendSpec(c, path, st, items[0].r, items[0].id, items[0].fault);
    if a.err.Some? then Batch(a.st, a.err) else StoreItems(c, path, a.st, items[1..])
  }

  function RotatePhase(c: Codec, path: string, st: State, rotateAfter: int, cy: Cycle): Rotated {
    if rotateAfter > 0 then RotateSpec(c, path, st, rotateAfter, cy.rotateAt, cy.rotateId, cy.rotateFault)
    else Rotated(st, "", None)
  }

  ghost function RunOnceSpec(c: Codec, path: string, st: State, rotateAfter: int, rules: Option<seq<Rule>>,
                             xs: seq<Collector>, cy: Cycle): Batch
  {
    var rotated := RotatePhase(c, path, st, rotateAfter, cy);
    if rotated.err.Some? then Batch(rotated.st, rotated.err)
    else StoreItems(c, path, rotated.st, CycleItems(rules, cy, xs))
  }

  class CollectionScheduler {
    const registry: CollectorRegistry
    const store: FileStore
    const mapping: FrameworkMapping?
    const rotateAfter: int

    constructor (registry: CollectorRegistry, store: FileStore, mapping: FrameworkMapping?, rotateAfter: int)
      ensures this.registry == registry && this.store == store && this.mapping == mapping
      ensures this.rotateAfter == rotateAfter
    {
      this.registry, this.store, this.mapping, this.rotateAfter := registry, store, mapping, rotateAfter;
    }

    ghost function Rules(): Option<seq<Rule>> { if mapping == null then None else Some(mapping.rules) }

    /** Date, map and append the records of one collector, stopping at the first failure. */
    method AppendRecords(c: Codec, cy: Cycle, x: Collector, found: seq<Record>) returns (err: Option<StoreError>)
      requires found == Gathered(cy, x)
      modifies store, store.chain, store.disk
      ensures store.chain == old(store.chain)
      ensures Batch(store.View(), err)
           == StoreItems(c, store.path, old(store.View()), CollectorItems(Rules(), cy, x))
    {
      hide AppendSpec, Gathered;
      var records := found;
      ghost var items := CollectorItems(Rules(), cy, x);
      ghost var st0 := store.View();
      assert items[0..] == items;
      for i := 0 to |records|
        invariant store.chain == old(store.chain) && |records| == |found|
        invariant forall k | i <= k < |records| :: records[k] == found[k]
        invariant StoreItems(c, store.path, st0, items) == StoreItems(c, store.path, store.View(), items[i..])
      {
        if records[i].collectedAt == 0 {
          records := records[i := records[i].(collectedAt := cy.now(x.id, i))];
        }
        if mapping != null {
          var mapped := mapping.Apply(records[i]);
          records := records[i := mapped];
        }
        assert items[i..][0] == items[i] == Item(records[i], cy.id(x.id, i), cy.fault(x.id, i));
        assert items[i..][1..] == items[i + 1..];
        var sealed, appendErr := store.Append(c, records[i], cy.id(x.id, i), cy.fault(x.id, i));
        records := records[i := sealed];
        if appendErr.Some? {
          return appendErr;
        }
      }
      assert items[|records|..] == [];
      err := None;
    }

    /** One cycle does what appending the one list of its items does. */
    method RunOnce(c: Codec, cy: Cycle) returns (err: Option<StoreError>)
      requires Keyed(registry.collectors)
      modifies store, store.chain, store.disk
      ensures Batch(store.View(), err)
           == RunOnceSpec(c, store.path, old(store.View()), rotateAfter, Rules(), AllSpec(registry.collectors), cy)
    {
      hide RotateSpec, StoreItems, AllSpec, CollectorItems;
      if rotateAfter > 0 {
        var archive, rotErr := store.MaybeRotate(c, rotateAfter, cy.rotateAt, cy.rotateId, cy.rotateFault);
        if rotErr.Some? {
          return rotErr;
        }
      }
      var xs := registry.All();
      ghost var want := StoreItems(c, store.path, store.View(), CycleItems(Rules(), cy, xs));
      assert xs[0..] == xs;
      for i := 0 to |xs|
        invariant store.chain == old(store.chain) || fresh(store.chain)
        invariant StoreItems(c, store.path, store.View(), CycleItems(Rules(), cy, xs[i..])) == want
      {
        var x := xs[i];
        assert xs[i..][0] == x && xs[i..][1..] == xs[i + 1..];
        var records: seq<Record>;
        match cy.collect(x) {
          case Found(rs) => records := rs;
          case Failed(message) => records := [FailureRecord(x, cy.failedAt(x.id), message)];
        }
        StoreConcat(c, store.path, store.View(), CollectorItems(Rules(), cy, x), CycleItems(Rules(), cy, xs[i + 1..]));
        err := AppendRecords(c, cy, x, records);
        if err.Some? {
          return err;
        }
      }
      assert xs[|xs|..] == [];
      StoreNothing(c, store.path, store.View());
      err := None;
    }
  }

  lemma StoreNothing(c: Codec, path: string, st: State)
    ensures StoreItems(c, path, st, []) == Batch(st, None)
  {
  }

  lemma {:induction false} StoreConcat(c: Codec, path: string, st: State, items: seq<Item>, more: seq<Item>)
    ensures var b := StoreItems(c, path, st, items);
            StoreItems(c, path, st, items + more) == if b.err.Some? then b else StoreItems(c, path, b.st, more)
    decreases |items|
  {
    hide AppendSpec;
    if items == [] {
      assert items + more == more;
    } else {
      var a := AppendSpec(c, path, st, items[0].r, items[0].id, items[0].fault);
      assert (items + more)[0] == items[0] && (items + more)[1..] == items[1..] + more;
      if a.err.None? {
        StoreConcat(c, path, a.st, items[1..], more);
      }
    }
  }

  /** How many of the items are appended before one fails. */
  function OkPrefix(c: Codec, path: string, st: State, items: seq<Item>): (k: nat)
    ensures k <= |items|
    decreases |items|
  {
    if items == [] then 0 else
    var a := AppendSpec(c, path, st, items[0].r, items[0].id, items[0].fault);
    if a.err.Some? then 0 else 1 + OkPrefix(c, path, a.st, items[1..])
  }

  function EventsOf(items: seq<Item>): seq<Event> {
    seq(|items|, i requires 0 <= i < |items| => Append(items[i].r, items[i].id))
  }

  /** The sealed record is the given one with a seal, and with an ID if it had none. */
  predicate SealedFrom(sealed: Record, r: Record) {
    Unsealed(sealed) == Unsealed(r).(id := sealed.id) && (r.id != "" ==> sealed.id == r.id)
  }

  predicate AllSealedFrom(sealed: seq<Record>, items: seq<Item>) {
    |sealed| == |items| && forall i | 0 <= i < |items| :: SealedFrom(sealed[i], items[i].r)
  }

  /** An append that reports success met no fault. */
  lemma SuccessIsFaultFree(c: Codec, path: string, st: State, item: Item)
    requires Lawful(c)
    ensures var a := AppendSpec(c, path, st, item.r, item.id, item.fault);
            a.err.None? ==>
              && a == AppendSpec(c, path, st, item.r, item.id, NoFault)
              && Accepts(c, item.r) && SealedFrom(a.record, item.r)
  {
    AppendAccepts(c, path, st, item.r, item.id, item.fault);
    SealExtends(c, st.lastHash, item.r, item.id);
  }

  /** What a batch does to the store, by its longest successful prefix. */
  ghost predicate BatchOutcome(c: Codec, path: string, items: seq<Item>, k: nat, run: State, b: Batch)
    requires k <= |items|
  {
    && (b.err.None? <==> k == |items|)
    && (k == |items| ==> b.st == run)
    && (k < |items| ==>
          var a := AppendSpec(c, path, run, items[k].r, items[k].id, items[k].fault);
          a.err == b.err && a.st == b.st)
  }

  /** A batch is a fault-free run of its successful prefix, and then at most one failing append. */
  lemma {:induction false} BatchIsRun(c: Codec, path: string, st: State, items: seq<Item>)
    requires Lawful(c)
    ensures var k := OkPrefix(c, path, st, items);
            var es := EventsOf(items[..k]);
            && AllSealedFrom(Acknowledged(c, path, st, es), items[..k])
            && BatchOutcome(c, path, items, k, Run(c, path, st, es), StoreItems(c, path, st, items))
    decreases |items|
  {
    if items == [] || OkPrefix(c, path, st, items) == 0 {
      assert EventsOf(items[..0]) == [];
    } else {
      BatchHead(c, path, st, items);
      hide Lawful, AppendSpec, SealedFrom, Accepts, BatchOutcome, StoreItems, EventsOf, Run, Acknowledged, Step, AckOf;
      var a := AppendSpec(c, path, st, items[0].r, items[0].id, items[0].fault);
      var k := OkPrefix(c, path, a.st, items[1..]);
      BatchIsRun(c, path, a.st, items[1..]);
      EventsCons(c, path, st, items, k);
      OutcomeCons(c, path, items, k, Run(c, path, a.st, EventsOf(items[1..][..k])),
                  StoreItems(c, path, a.st, items[1..]));
      SealedCons(a.record, items, Acknowledged(c, path, a.st, EventsOf(items[1..][..k])), k);
    }
  }

  /** The first item of a batch, when its append succeeds. */
  lemma BatchHead(c: Codec, path: string, st: State, items: seq<Item>)
    requires Lawful(c) && items != [] && OkPrefix(c, path, st, items) > 0
    ensures var a := AppendSpec(c, path, st, items[0].r, items[0].id, items[0].fault);
            var e := Append(items[0].r, items[0].id);
            && a.err.None? && SealedFrom(a.record, items[0].r)
            && Step(c, path, st, e) == a.st && AckOf(c, path, st, e) == [a.record]
            && StoreItems(c, path, st, items) == StoreItems(c, path, a.st, items[1..])
            && OkPrefix(c, path, st, items) == OkPrefix(c, path, a.st, items[1..]) + 1
  {
    SuccessIsFaultFree(c, path, st, items[0]);
    hide Lawful, SealedFrom, Accepts, AppendSpec;
  }

  lemma OutcomeCons(c: Codec, path: string, items: seq<Item>, k: nat, run: State, b: Batch)
    requires k < |items| && BatchOutcome(c, path, items[1..], k, run, b)
    ensures BatchOutcome(c, path, items, k + 1, run, b)
  {
    hide AppendSpec;
    if k + 1 < |items| {
      assert items[1..][k] == items[k + 1];
    }
  }

  lemma SealedCons(s: Record, items: seq<Item>, more: seq<Record>, k: nat)
    requires k < |items| && SealedFrom(s, items[0].r) && AllSealedFrom(more, items[1..][..k])
    ensures AllSealedFrom([s] + more, items[..k + 1])
  {
    assert items[..k + 1] == [items[0]] + items[1..][..k];
  }

  lemma EventsCons(c: Codec, path: string, st: State, items: seq<Item>, k: nat)
    requires k < |items|
    ensures var es := EventsOf(items[..k + 1]);
            var e := Append(items[0].r, items[0].id);
            var rest := EventsOf(items[1..][..k]);
            && Run(c, path, st, es) == Run(c, path, Step(c, path, st, e), rest)
            && Acknowledged(c, path, st, es)
               == AckOf(c, path, st, e) + Acknowledged(c, path, Step(c, path, st, e), rest)
  {
    hide Step, AckOf;
    var es := EventsOf(items[..k + 1]);
    assert es[0] == Append(items[0].r, items[0].id) && es[1..] == EventsOf(items[1..][..k]);
  }

  /** What a failing append leaves on the disk: nothing, or its own line at the end of the live file. */
  lemma FailureLeaves(c: Codec, path: string, st: State, item: Item)
    ensures var a := AppendSpec(c, path, st, item.r, item.id, item.fault);
            a.err.Some? ==>
              || a.st.disk == st.disk
              || a.st.disk == st.disk[path := Content(st.disk, path) + LineOf(c, SealedBy(c, st, item.r, item.id))]
  {
  }

  /** Cycle refinement. After the rotation phase the store grows by exactly the longest prefix of the
      cycle's list that was appended without an error, each record sealed but otherwise as listed; on
      success that is the whole list. What a failing append leaves behind is at most its own line. */
  lemma CycleRefines(c: Codec, path: string, st: State, h: History, items: seq<Item>)
    requires Lawful(c) && Healthy(c, path, st, h)
    requires GoodRun(c, path, st, EventsOf(items[..OkPrefix(c, path, st, items)]))
    ensures var k := OkPrefix(c, path, st, items);
            var b := StoreItems(c, path, st, items);
            var es := EventsOf(items[..k]);
            var st', h', stored := Run(c, path, st, es), HistoryOf(c, path, st, h, es), Acknowledged(c, path, st, es);
            && Healthy(c, path, st', h') && h'.archives == h.archives
            && (Timely(c, path, st, h) ==> Timely(c, path, st', h'))
            && Payload(h') == Payload(h) + stored && AllSealedFrom(stored, items[..k])
            && (b.err.None? <==> k == |items|)
            && (b.err.None? ==> b.st == st')
            && (b.err.Some? ==>
                  || b.st.disk == st'.disk
                  || b.st.disk == st'.disk[path :=
                       Content(st'.disk, path) + LineOf(c, SealedBy(c, st', items[k].r, items[k].id))])
  {
    hide *;
    var k := OkPrefix(c, path, st, items);
    BatchIsRun(c, path, st, items);
    AppendsHealthy(c, path, st, h, items[..k]);
    BatchEnds(c, path, items, k, Run(c, path, st, EventsOf(items[..k])), StoreItems(c, path, st, items));
    if k < |items| {
      FailureLeaves(c, path, Run(c, path, st, EventsOf(items[..k])), items[k]);
    }
  }

  lemma BatchEnds(c: Codec, path: string, items: seq<Item>, k: nat, run: State, b: Batch)
    requires k <= |items| && BatchOutcome(c, path, items, k, run, b)
    ensures (b.err.None? <==> k == |items|) && (k == |items| ==> b.st == run)
    ensures k < |items| ==>
              var a := AppendSpec(c, path, run, items[k].r, items[k].id, items[k].fault);
              a.err == b.err && a.st == b.st
  {
    hide AppendSpec;
  }

  /** Appending needs no more than a healthy store, and touches no archive. */
  lemma {:induction false} AppendsHealthy(c: Codec, path: string, st: State, h: History, items: seq<Item>)
    requires Lawful(c) && Healthy(c, path, st, h) && GoodRun(c, path, st, EventsOf(items))
    ensures var es := EventsOf(items);
            var st', h' := Run(c, path, st, es), HistoryOf(c, path, st, h, es);
            && Healthy(c, path, st', h') && h'.archives == h.archives
            && (Timely(c, path, st, h) ==> Timely(c, path, st', h'))
            && Payload(h') == Payload(h) + Acknowledged(c, path, st, es)
    decreases |items|
  {
    hide Lawful, Healthy, Timely, GoodEvent, Step, HistoryStep, Payload, AckOf;
    if items != [] {
      var e, rest := Append(items[0].r, items[0].id), EventsOf(items[1..]);
      assert EventsOf(items)[0] == e && EventsOf(items)[1..] == rest;
      AppendHealthyStep(c, path, st, h, items[0].r, items[0].id);
      var st1, h1 := Step(c, path, st, e), HistoryStep(c, path, st, h, e);
      AppendsHealthy(c, path, st1, h1, items[1..]);
      assert Payload(h) + AckOf(c, path, st, e) + Acknowledged(c, path, st1, rest)
          == Payload(h) + Acknowledged(c, path, st, EventsOf(items));
    }
  }

  lemma AppendHealthyStep(c: Codec, path: string, st: State, h: History, r: Record, id: string)
    requires Lawful(c) && Healthy(c, path, st, h) && GoodEvent(c, path, st, Append(r, id))
    ensures var e := Append(r, id);
            var st', h' := Step(c, path, st, e), HistoryStep(c, path, st, h, e);
            && Healthy(c, path, st', h') && h'.archives == h.archives
            && (Timely(c, path, st, h) ==> Timely(c, path, st', h'))
            && Payload(h') == Payload(h) + AckOf(c, path, st, e)
  {
    PayloadStep(c, path, st, h, Append(r, id));
    AppendAccepts(c, path, st, r, id, NoFault);
    hide Lawful, Timely, OnDisk, AppendSpec, Payload, AckOf, SealedBy, Storable;
    if Accepts(c, r) {
      AppendHealthy(c, path, st, h, r, id);
      if Timely(c, path, st, h) {
        TimelyAppend(c, path, st, h, r, id);
      }
    }
  }

  /** Every record the cycle seals can be read back. */
  ghost predicate GoodBatch(c: Codec, path: string, st: State, items: seq<Item>) {
    var k := OkPrefix(c, path, st, items);
    var es := EventsOf(items[..k]);
    && GoodRun(c, path, st, es)
    && (k < |items| ==> GoodEvent(c, path, Run(c, path, st, es), Append(items[k].r, items[k].id)))
  }

  /** A rotation that is due finds its archive name free (`RotationSpacing`: always, when the rotation age
      is at least one second), and its record can be read back. */
  ghost predicate GoodRotation(c: Codec, path: string, st: State, rotateAfter: int, cy: Cycle) {
    rotateAfter > 0 && Due(st, rotateAfter, cy.rotateAt) ==>
      && ArchiveName(c, path, cy.rotateAt) !in st.disk
      && Storable(c, SealedRotation(c, path, st, cy.rotateAt, cy.rotateId))
  }

  /** What is left by an append that fails: nothing, or the record, if only its sync failed. */
  lemma FailedAppend(c: Codec, path: string, st: State, h: History, item: Item)
    returns (h': History, extra: seq<Record>)
    requires Lawful(c) && Healthy(c, path, st, h) && GoodEvent(c, path, st, Append(item.r, item.id))
    requires AppendSpec(c, path, st, item.r, item.id, item.fault).err.Some?
    ensures var a := AppendSpec(c, path, st, item.r, item.id, item.fault);
            && OnDisk(c, path, a.st.disk, h') && Payload(h') == Payload(h) + extra && h'.archives == h.archives
            && (extra == [] || (|extra| == 1 && SealedFrom(extra[0], item.r) && a.err == Some(SyncFailed)))
  {
    h', extra := h, [];
    assert Payload(h) + [] == Payload(h);
    if Accepts(c, item.r) {
      AppendByFault(c, path, st, item.r, item.id, item.fault);
      if item.fault.SyncFault? {
        var free := item.(fault := NoFault);
        AppendByFault(c, path, st, item.r, item.id, NoFault);
        SuccessIsFaultFree(c, path, st, free);
        AppendHealthyStep(c, path, st, h, item.r, item.id);
        hide Lawful, OnDisk, AppendSpec, Payload, SealedFrom, Accepts, GoodEvent;
        h' := HistoryStep(c, path, st, h, Append(item.r, item.id));
        extra := AckOf(c, path, st, Append(item.r, item.id));
      }
    } else {
      AppendAccepts(c, path, st, item.r, item.id, item.fault);
    }
  }

  /** A whole cycle, rotation included, whatever operations fail. The files then hold what they held, the
      appended prefix of the cycle's list, and besides at most the one record whose sync failed; at most
      one archive is new. A cycle without an error stored its whole list and leaves the store healthy. */
  lemma RunOnceRefines(c: Codec, path: string, st: State, h: History, rotateAfter: int, rules: Option<seq<Rule>>,
                       xs: seq<Collector>, cy: Cycle)
    returns (h': History, stored: seq<Record>, extra: seq<Record>)
    requires Lawful(c) && Healthy(c, path, st, h) && GoodRotation(c, path, st, rotateAfter, cy)
    requires GoodBatch(c, path, RotatePhase(c, path, st, rotateAfter, cy).st, CycleItems(rules, cy, xs))
    ensures var rotated := RotatePhase(c, path, st, rotateAfter, cy);
            var items := CycleItems(rules, cy, xs);
            var k := if rotated.err.Some? then 0 else OkPrefix(c, path, rotated.st, items);
            var b := RunOnceSpec(c, path, st, rotateAfter, rules, xs, cy);
            && OnDisk(c, path, b.st.disk, h') && Payload(h') == Payload(h) + stored + extra
            && AllSealedFrom(stored, items[..k])
            && (extra == [] ||
                  (k < |items| && |extra| == 1 && SealedFrom(extra[0], items[k].r) && b.err == Some(SyncFailed)))
            && |h.archives| <= |h'.archives| <= |h.archives| + 1 && (rotateAfter <= 0 ==> h'.archives == h.archives)
            && (b.err.None? ==> k == |items| && extra == [] && Healthy(c, path, b.st, h'))
            && (b.err.Some? && rotated.err.None? ==> k < |items|)
            && (b.err.None? && !(0 < rotateAfter < SECOND) && Timely(c, path, st, h) ==> Timely(c, path, b.st, h'))
  {
    hide *;
    var rotated := RotatePhase(c, path, st, rotateAfter, cy);
    var items := CycleItems(rules, cy, xs);
    RunOnceUnfolds(c, path, st, rotateAfter, rules, xs, cy);
    h' := RotatePhaseRefines(c, path, st, h, rotateAfter, cy);
    stored, extra := [], [];
    if rotated.err.Some? {
      NothingStored(h, items);
    } else {
      h', stored, extra := BatchRefines(c, path, rotated.st, h', items);
    }
  }

  lemma NothingStored(h: History, items: seq<Item>)
    ensures Payload(h) + [] + [] == Payload(h) && AllSealedFrom([], items[..0])
  {
  }

  lemma RunOnceUnfolds(c: Codec, path: string, st: State, rotateAfter: int, rules: Option<seq<Rule>>,
                       xs: seq<Collector>, cy: Cycle)
    ensures var rotated := RotatePhase(c, path, st, rotateAfter, cy);
            RunOnceSpec(c, path, st, rotateAfter, rules, xs, cy)
            == if rotated.err.Some? then Batch(rotated.st, rotated.err)
               else StoreItems(c, path, rotated.st, CycleItems(rules, cy, xs))
  {
    hide RotatePhase, StoreItems, CycleItems;
  }

  lemma RotatePhaseRefines(c: Codec, path: string, st: State, h: History, rotateAfter: int, cy: Cycle)
    returns (h': History)
    requires Lawful(c) && Healthy(c, path, st, h) && GoodRotation(c, path, st, rotateAfter, cy)
    ensures var r := RotatePhase(c, path, st, rotateAfter, cy);
            && OnDisk(c, path, r.st.disk, h') && Payload(h') == Payload(h)
            && |h.archives| <= |h'.archives| <= |h.archives| + 1
            && (rotateAfter <= 0 ==> h' == h && r.st == st && r.err.None?)
            && (r.err.None? ==> Healthy(c, path, r.st, h'))
            && (r.err.None? && !(0 < rotateAfter < SECOND) && Timely(c, path, st, h) ==> Timely(c, path, r.st, h'))
  {
    h' := h;
    if rotateAfter > 0 {
      hide Lawful, OnDisk, Timely, RotateSpec, Payload, Due, SealedRotation, Storable;
      h' := RotationKeepsRecords(c, path, st, h, rotateAfter, cy.rotateAt, cy.rotateId, cy.rotateFault);
      if rotateAfter >= SECOND && Timely(c, path, st, h) {
        SuccessfulRotation(c, path, st, h, rotateAfter, cy.rotateAt, cy.rotateId, cy.rotateFault);
      }
    }
  }

  /** A rotation that reports success met no fault, and keeps the spacing of the archives. */
  lemma SuccessfulRotation(c: Codec, path: string, st: State, h: History, maxAge: int, now: Time, id: string,
                           fault: Fault)
    requires Lawful(c) && Healthy(c, path, st, h) && Timely(c, path, st, h) && maxAge >= SECOND
    requires Due(st, maxAge, now) ==> Storable(c, SealedRotation(c, path, st, now, id))
    ensures var r := RotateSpec(c, path, st, maxAge, now, id, fault);
            r.err.None? ==> Timely(c, path, r.st, HistoryStep(c, path, st, h, Rotate(maxAge, now, id)))
  {
    if Due(st, maxAge, now) {
      HeadIsHex(c, Written(h.live));
      RotationDisk(c, path, st, maxAge, now, id, fault);
      hide Lawful, OnDisk, Timely, RotateSpec, Due, Storable;
      TimelyRotation(c, path, st, h, maxAge, now, id);
    }
  }

  lemma BatchRefines(c: Codec, path: string, st: State, h: History, items: seq<Item>)
    returns (h': History, stored: seq<Record>, extra: seq<Record>)
    requires Lawful(c) && Healthy(c, path, st, h) && GoodBatch(c, path, st, items)
    ensures var k := OkPrefix(c, path, st, items);
            var b := StoreItems(c, path, st, items);
            && OnDisk(c, path, b.st.disk, h') && Payload(h') == Payload(h) + stored + extra
            && AllSealedFrom(stored, items[..k]) && h'.archives == h.archives
            && (extra == [] ||
                  (k < |items| && |extra| == 1 && SealedFrom(extra[0], items[k].r) && b.err == Some(SyncFailed)))
            && (b.err.None? ==> k == |items| && extra == [] && Healthy(c, path, b.st, h'))
            && (b.err.Some? ==> k < |items|)
            && (b.err.None? && Timely(c, path, st, h) ==> Timely(c, path, b.st, h'))
  {
    GoodBatchParts(c, path, st, items);
    hide *;
    var k := OkPrefix(c, path, st, items);
    var es := EventsOf(items[..k]);
    BatchIsRun(c, path, st, items);
    CycleRefines(c, path, st, h, items);
    BatchEnds(c, path, items, k, Run(c, path, st, es), StoreItems(c, path, st, items));
    h', stored, extra := HistoryOf(c, path, st, h, es), Acknowledged(c, path, st, es), [];
    if k < |items| {
      h', extra := FailedAppend(c, path, Run(c, path, st, es), h', items[k]);
    } else {
      HealthyOnDisk(c, path, Run(c, path, st, es), h');
      assert Payload(h) + stored + [] == Payload(h) + stored;
    }
  }

  lemma GoodBatchParts(c: Codec, path: string, st: State, items: seq<Item>)
    requires GoodBatch(c, path, st, items)
    ensures var k := OkPrefix(c, path, st, items);
            var es := EventsOf(items[..k]);
            && GoodRun(c, path, st, es)
            && (k < |items| ==> GoodEvent(c, path, Run(c, path, st, es), Append(items[k].r, items[k].id)))
  {
    hide GoodRun, GoodEvent, Run, EventsOf, OkPrefix;
  }

  lemma HealthyOnDisk(c: Codec, path: string, st: State, h: History)
    requires Healthy(c, path, st, h)
    ensures OnDisk(c, path, st.disk, h)
  {
    hide OnDisk;
  }

  datatype Config = Config(rotateAfter: int, rules: Option<seq<Rule>>, collectors: seq<Collector>)

  ghost function AfterCycle(c: Codec, path: string, st: State, cfg: Config, cy: Cycle): Batch {
    RunOnceSpec(c, path, st, cfg.rotateAfter, cfg.rules, cfg.collectors, cy)
  }

  ghost function AfterCycles(c: Codec, path: string, st: State, cfg: Config, cys: seq<Cycle>): State
    decreases |cys|
  {
    if cys == [] then st else AfterCycles(c, path, AfterCycle(c, path, st, cfg, cys[0]).st, cfg, cys[1..])
  }

  /** Everything the cycles list, in order. */
  ghost function ListedItems(cfg: Config, cys: seq<Cycle>): seq<Item> {
    if cys == [] then [] else CycleItems(cfg.rules, cys[0], cfg.collectors) + ListedItems(cfg, cys[1..])
  }

  /** A cycle that returns no error and whose records can be read back. */
  ghost predicate GoodCycle(c: Codec, path: string, st: State, cfg: Config, cy: Cycle) {
    && AfterCycle(c, path, st, cfg, cy).err.None?
    && GoodRotation(c, path, st, cfg.rotateAfter, cy)
    && GoodBatch(c, path, RotatePhase(c, path, st, cfg.rotateAfter, cy).st,
                 CycleItems(cfg.rules, cy, cfg.collectors))
  }

  ghost predicate GoodCycles(c: Codec, path: string, st: State, cfg: Config, cys: seq<Cycle>)
    decreases |cys|
  {
    cys == [] ||
    (&& GoodCycle(c, path, st, cfg, cys[0])
     && GoodCycles(c, path, AfterCycle(c, path, st, cfg, cys[0]).st, cfg, cys[1..]))
  }

  lemma SealedAppend(rs: seq<Record>, items: seq<Item>, more: seq<Record>, moreItems: seq<Item>)
    requires AllSealedFrom(rs, items) && AllSealedFrom(more, moreItems)
    ensures AllSealedFrom(rs + more, items + moreItems)
  {
  }

  /** Nothing is lost or added on the way to the files: after any run of cycles without an error they
      hold exactly the listed items of all cycles, sealed, each once and in order. */
  lemma {:induction false} CyclesStoreAll(c: Codec, path: string, st: State, h: History, before: seq<Item>, cfg: Config,
                                          cys: seq<Cycle>) returns (h': History)
    requires Lawful(c) && Healthy(c, path, st, h) && AllSealedFrom(Payload(h), before)
    requires GoodCycles(c, path, st, cfg, cys)
    ensures Healthy(c, path, AfterCycles(c, path, st, cfg, cys), h')
    ensures AllSealedFrom(Payload(h'), before + ListedItems(cfg, cys))
    decreases |cys|
  {
    hide *;
    if cys == [] {
      h' := h;
      NoCycles(c, path, st, cfg, before);
    } else {
      GoodCyclesHead(c, path, st, cfg, cys);
      var items := CycleItems(cfg.rules, cys[0], cfg.collectors);
      var h1 := CycleStoresAll(c, path, st, h, before, cfg, cys[0]);
      h' := CyclesStoreAll(c, path, AfterCycle(c, path, st, cfg, cys[0]).st, h1, before + items, cfg, cys[1..]);
      assert before + items + ListedItems(cfg, cys[1..]) == before + (items + ListedItems(cfg, cys[1..]));
    }
  }

  lemma NoCycles(c: Codec, path: string, st: State, cfg: Config, before: seq<Item>)
    ensures AfterCycles(c, path, st, cfg, []) == st && before + ListedItems(cfg, []) == before
  {
    assert before + [] == before;
  }

  lemma GoodCyclesHead(c: Codec, path: string, st: State, cfg: Config, cys: seq<Cycle>)
    requires cys != [] && GoodCycles(c, path, st, cfg, cys)
    ensures GoodCycle(c, path, st, cfg, cys[0])
    ensures GoodCycles(c, path, AfterCycle(c, path, st, cfg, cys[0]).st, cfg, cys[1..])
    ensures AfterCycles(c, path, st, cfg, cys)
         == AfterCycles(c, path, AfterCycle(c, path, st, cfg, cys[0]).st, cfg, cys[1..])
    ensures ListedItems(cfg, cys) == CycleItems(cfg.rules, cys[0], cfg.collectors) + ListedItems(cfg, cys[1..])
  {
    hide AfterCycle, GoodCycle, CycleItems;
  }

  /** One such cycle. */
  lemma CycleStoresAll(c: Codec, path: string, st: State, h: History, before: seq<Item>, cfg: Config, cy: Cycle)
    returns (h': History)
    requires Lawful(c) && Healthy(c, path, st, h) && AllSealedFrom(Payload(h), before)
    requires GoodCycle(c, path, st, cfg, cy)
    ensures Healthy(c, path, AfterCycle(c, path, st, cfg, cy).st, h')
    ensures AllSealedFrom(Payload(h'), before + CycleItems(cfg.rules, cy, cfg.collectors))
  {
    hide Lawful, Healthy, Payload, AllSealedFrom, SealedFrom, GoodRotation, GoodBatch;
    hide RotatePhase, RunOnceSpec, CycleItems, OkPrefix, OnDisk, Timely;
    var stored, extra;
    h', stored, extra := RunOnceRefines(c, path, st, h, cfg.rotateAfter, cfg.rules, cfg.collectors, cy);
    var items := CycleItems(cfg.rules, cy, cfg.collectors);
    assert items[..|items|] == items && Payload(h) + stored + [] == Payload(h) + stored;
    SealedAppend(Payload(h), before, stored, items);
  }

  /** No reading of the clock is the zero time. */
  ghost predicate ClockRuns(cy: Cycle) {
    && cy.rotateAt != 0 && (forall s :: cy.failedAt(s) != 0) && forall s, j :: cy.now(s, j) != 0
  }

  ghost predicate ItemsTimed(items: seq<Item>) { forall i | 0 <= i < |items| :: items[i].r.collectedAt != 0 }

  lemma {:induction false} CycleItemsTimed(rules: Option<seq<Rule>>, cy: Cycle, xs: seq<Collector>)
    requires ClockRuns(cy)
    ensures ItemsTimed(CycleItems(rules, cy, xs))
    decreases |xs|
  {
    if xs != [] {
      CycleItemsTimed(rules, cy, xs[1..]);
    }
  }

  /** The cycle ended with a failed sync and a store that takes its file for empty. */
  predicate FirstLost(b: Batch) { b.err == Some(SyncFailed) && b.st.count == 0 }

  /** Appending items keeps the first record known, unless its sync fails, and touches only the live file. */
  lemma {:induction false} StoreItemsKnow(c: Codec, path: string, st: State, items: seq<Item>)
    requires Lawful(c) && Knows(c, path, st) && ItemsTimed(items)
    ensures var b := StoreItems(c, path, st, items);
            && (if FirstLost(b) then !Tracks(c, path, b.st) else Knows(c, path, b.st))
            && b.st.disk.Keys <= st.disk.Keys + {path}
    decreases |items|
  {
    hide Lawful, Knows, Tracks, SealSpec, Content, LineOf;
    if items != [] {
      AppendKnows(c, path, st, items[0].r, items[0].id, items[0].fault);
      var a := AppendSpec(c, path, st, items[0].r, items[0].id, items[0].fault);
      if a.err.None? {
        StoreItemsKnow(c, path, a.st, items[1..]);
      }
    }
  }

  /** The rotation phase: unless it reports an error it leaves a young file; at most one archive is new. */
  lemma RotatePhaseBounds(c: Codec, path: string, st: State, rotateAfter: int, cy: Cycle)
    requires Lawful(c) && Knows(c, path, st) && cy.rotateAt != 0 && rotateAfter > 0
    ensures var r := RotatePhase(c, path, st, rotateAfter, cy);
            && (r.err.None? ==> Young(c, Content(r.st.disk, path), rotateAfter, cy.rotateAt))
            && (if r.err == Some(SyncFailed) then r.st.count == 0 && !Tracks(c, path, r.st) else Knows(c, path, r.st))
            && r.st.disk.Keys <= st.disk.Keys + {path, ArchiveName(c, path, cy.rotateAt)}
  {
    KnowsTracks(c, path, st);
    TrackedYoung(c, path, st, rotateAfter, cy.rotateAt, cy.rotateId, cy.rotateFault);
    RotateKnows(c, path, st, rotateAfter, cy.rotateAt, cy.rotateId, cy.rotateFault);
    RotationNames(c, path, st, rotateAfter, cy.rotateAt, cy.rotateId, cy.rotateFault);
    hide Lawful, Knows, Tracks, Young, RotateSpec, ArchiveName, Content;
  }

  lemma RotationNames(c: Codec, path: string, st: State, maxAge: int, now: Time, id: string, fault: Fault)
    ensures RotateSpec(c, path, st, maxAge, now, id, fault).st.disk.Keys
         <= st.disk.Keys + {path, ArchiveName(c, path, now)}
  {
    hide SealSpec, Content, LineOf, ArchiveName;
  }

  /** One cycle, whatever fails in it: it starts collecting into a file that is empty or young, or does
      not collect; it makes at most one archive; and it keeps the first record known, or has lost it. */
  lemma CycleKeeps(c: Codec, path: string, st: State, cfg: Config, cy: Cycle)
    requires Lawful(c) && Knows(c, path, st) && ClockRuns(cy) && cfg.rotateAfter > 0
    ensures var r, b := RotatePhase(c, path, st, cfg.rotateAfter, cy), AfterCycle(c, path, st, cfg, cy);
            && (if r.err.None? then Young(c, Content(r.st.disk, path), cfg.rotateAfter, cy.rotateAt)
                else b == Batch(r.st, r.err))
            && b.st.disk.Keys <= st.disk.Keys + {path, ArchiveName(c, path, cy.rotateAt)}
            && (if FirstLost(b) then !Tracks(c, path, b.st) else Knows(c, path, b.st))
  {
    hide Lawful, Knows, Tracks, Young, RotatePhase, StoreItems, CycleItems, ItemsTimed, ArchiveName, Content;
    RotatePhaseBounds(c, path, st, cfg.rotateAfter, cy);
    var r := RotatePhase(c, path, st, cfg.rotateAfter, cy);
    CycleItemsTimed(cfg.rules, cy, cfg.collectors);
    if r.err.None? {
      StoreItemsKnow(c, path, r.st, CycleItems(cfg.rules, cy, cfg.collectors));
    }
  }

  /** At every point of the run, whenever the next cycle comes, it finds or makes a young file or does not
      collect. */
  ghost predicate AlwaysBounded(c: Codec, path: string, st: State, cfg: Config, cys: seq<Cycle>)
    decreases |cys|
  {
    && Bounded(c, path, st, cfg.rotateAfter)
    && (cys == [] || AlwaysBounded(c, path, AfterCycle(c, path, st, cfg, cys[0]).st, cfg, cys[1..]))
  }

  /** No cycle of the run ended with a failed sync and a store that takes its file for empty. */
  ghost predicate FirstsKept(c: Codec, path: string, st: State, cfg: Config, cys: seq<Cycle>)
    decreases |cys|
  {
    cys == [] ||
    (&& !FirstLost(AfterCycle(c, path, st, cfg, cys[0]))
     && FirstsKept(c, path, AfterCycle(c, path, st, cfg, cys[0]).st, cfg, cys[1..]))
  }

  /** Age bound, over every run of cycles whatever fails in them. The first record in the file is always
      younger than the limit when a cycle starts collecting, exactly if no cycle lost the sync of a first
      record. The limit is a `time.Duration`. */
  lemma {:induction false} AgeBound(c: Codec, path: string, st: State, cfg: Config, cys: seq<Cycle>)
    requires Lawful(c) && Knows(c, path, st) && 0 < cfg.rotateAfter <= MAX_DURATION
    requires forall i | 0 <= i < |cys| :: ClockRuns(cys[i])
    ensures AlwaysBounded(c, path, st, cfg, cys) <==> FirstsKept(c, path, st, cfg, cys)
    decreases |cys|
  {
    hide Lawful, Knows, Tracks, Bounded, ClockRuns, AfterCycle, FirstLost;
    KnowsTracks(c, path, st);
    BoundedIff(c, path, st, cfg.rotateAfter);
    if cys != [] {
      CycleKeeps(c, path, st, cfg, cys[0]);
      var b := AfterCycle(c, path, st, cfg, cys[0]);
      if FirstLost(b) {
        BoundedIff(c, path, b.st, cfg.rotateAfter);
      } else {
        AgeBound(c, path, b.st, cfg, cys[1..]);
      }
    }
  }

  lemma {:induction false} EngineStuck(c: Codec, path: string, st: State, cfg: Config, now: Time, cys: seq<Cycle>)
    requires !st.open && Due(st, cfg.rotateAfter, now) && cfg.rotateAfter > 0
    requires forall i | 0 <= i < |cys| :: cys[i].rotateAt >= now
    ensures AfterCycles(c, path, st, cfg, cys) == st
    ensures forall cy: Cycle {:trigger AfterCycle(c, path, st, cfg, cy)} | cy.rotateAt >= now ::
              AfterCycle(c, path, st, cfg, cy) == Batch(st, Some(CloseFailed))
    decreases |cys|
  {
    if cys != [] {
      EngineStuck(c, path, st, cfg, now, cys[1..]);
      assert AfterCycle(c, path, st, cfg, cys[0]) == Batch(st, Some(CloseFailed));
    }
  }

  /** After a rotation that failed at closing, renaming or creating the file, every later cycle of the
      same engine fails before it collects anything and changes nothing, until the engine is rebuilt. */
  lemma FailedRotationSticks(c: Codec, path: string, st: State, cfg: Config, cy: Cycle, cys: seq<Cycle>)
    requires cfg.rotateAfter > 0 && Due(st, cfg.rotateAfter, cy.rotateAt)
    requires LosesHandle(cy.rotateFault)
    requires forall i | 0 <= i < |cys| :: cys[i].rotateAt >= cy.rotateAt
    ensures var st1 := AfterCycle(c, path, st, cfg, cy).st;
            && AfterCycle(c, path, st, cfg, cy).err.Some?
            && AfterCycles(c, path, st1, cfg, cys) == st1
            && (forall later: Cycle {:trigger AfterCycle(c, path, st1, cfg, later)} | later.rotateAt >= cy.rotateAt ::
                  AfterCycle(c, path, st1, cfg, later) == Batch(st1, Some(CloseFailed)))
  {
    hide *;
    HandleIsLost(c, path, st, cfg, cy);
    EngineStuck(c, path, AfterCycle(c, path, st, cfg, cy).st, cfg, cy.rotateAt, cys);
  }

  lemma HandleIsLost(c: Codec, path: string, st: State, cfg: Config, cy: Cycle)
    requires cfg.rotateAfter > 0 && Due(st, cfg.rotateAfter, cy.rotateAt) && LosesHandle(cy.rotateFault)
    ensures var b := AfterCycle(c, path, st, cfg, cy);
            b.err.Some? && !b.st.open && Due(b.st, cfg.rotateAfter, cy.rotateAt)
  {
    hide CycleItems, StoreItems, ArchiveName;
  }

  /** The items a batch tries to append: up to the first that fails. */
  function Attempted(c: Codec, path: string, st: State, items: seq<Item>): seq<Item> {
    var k := OkPrefix(c, path, st, items);
    items[..if k < |items| then k + 1 else k]
  }

  function Adding(items: seq<Item>): seq<Faults.Event> {
    seq(|items|, i requires 0 <= i < |items| =>
      Faults.Serving(Failure.Adding(Try(items[i].r, items[i].id, items[i].fault))))
  }

  /** What a cycle asks of the store, in order. */
  ghost function Requests(c: Codec, path: string, st: State, cfg: Config, cy: Cycle): seq<Faults.Event> {
    var rotated := RotatePhase(c, path, st, cfg.rotateAfter, cy);
    (if cfg.rotateAfter > 0 then [Faults.Serving(Rotating(cfg.rotateAfter, cy.rotateAt, cy.rotateId, cy.rotateFault))]
     else [])
    + (if rotated.err.Some? then []
       else Adding(Attempted(c, path, rotated.st, CycleItems(cfg.rules, cy, cfg.collectors))))
  }

  ghost function AllRequests(c: Codec, path: string, st: State, cfg: Config, cys: seq<Cycle>): seq<Faults.Event>
    decreases |cys|
  {
    if cys == [] then []
    else
      Requests(c, path, st, cfg, cys[0])
      + AllRequests(c, path, AfterCycle(c, path, st, cfg, cys[0]).st, cfg, cys[1..])
  }

  lemma {:induction false} BatchIsRequests(c: Codec, path: string, st: State, items: seq<Item>)
    ensures Faults.AfterAll(c, path, st, Adding(Attempted(c, path, st, items))) == StoreItems(c, path, st, items).st
    decreases |items|
  {
    hide AppendSpec;
    var es := Adding(Attempted(c, path, st, items));
    if items != [] {
      var a := AppendSpec(c, path, st, items[0].r, items[0].id, items[0].fault);
      assert es[0] == Faults.Serving(Failure.Adding(Try(items[0].r, items[0].id, items[0].fault)));
      if a.err.Some? {
        assert es[1..] == [];
      } else {
        BatchIsRequests(c, path, a.st, items[1..]);
        assert es[1..] == Adding(Attempted(c, path, a.st, items[1..]));
      }
    }
  }

  lemma {:induction false} AfterConcat(c: Codec, path: string, st: State, xs: seq<Faults.Event>, ys: seq<Faults.Event>)
    ensures Faults.AfterAll(c, path, st, xs + ys) == Faults.AfterAll(c, path, Faults.AfterAll(c, path, st, xs), ys)
    decreases |xs|
  {
    hide Faults.After;
    if xs == [] {
      assert xs + ys == ys;
    } else {
      AfterConcat(c, path, Faults.After(c, path, st, xs[0]), xs[1..], ys);
      assert (xs + ys)[1..] == xs[1..] + ys;
    }
  }

  lemma CycleIsRequests(c: Codec, path: string, st: State, cfg: Config, cy: Cycle)
    ensures Faults.AfterAll(c, path, st, Requests(c, path, st, cfg, cy)) == AfterCycle(c, path, st, cfg, cy).st
  {
    hide StoreItems, CycleItems, RotateSpec, Attempted, Adding;
    var rotated := RotatePhase(c, path, st, cfg.rotateAfter, cy);
    var items := CycleItems(cfg.rules, cy, cfg.collectors);
    var rotation := Faults.Serving(Rotating(cfg.rotateAfter, cy.rotateAt, cy.rotateId, cy.rotateFault));
    var first := if cfg.rotateAfter > 0 then [rotation] else [];
    assert Faults.AfterAll(c, path, st, first) == rotated.st by {
      assert [rotation][1..] == [];
    }
    if rotated.err.Some? {
      assert first + [] == first;
    } else {
      AfterConcat(c, path, st, first, Adding(Attempted(c, path, rotated.st, items)));
      BatchIsRequests(c, path, rotated.st, items);
    }
  }

  lemma {:induction false} CyclesAreRequests(c: Codec, path: string, st: State, cfg: Config, cys: seq<Cycle>)
    ensures Faults.AfterAll(c, path, st, AllRequests(c, path, st, cfg, cys)) == AfterCycles(c, path, st, cfg, cys)
    decreases |cys|
  {
    hide Requests, AfterCycle;
    if cys != [] {
      var st1 := AfterCycle(c, path, st, cfg, cys[0]).st;
      CycleIsRequests(c, path, st, cfg, cys[0]);
      CyclesAreRequests(c, path, st1, cfg, cys[1..]);
      AfterConcat(c, path, st, Requests(c, path, st, cfg, cys[0]), AllRequests(c, path, st1, cfg, cys[1..]));
    }
  }

  /** Cycles that go on after failures, as the operator's do, lose and repeat no line either: the files grow
      by exactly the lines of what the cycles asked of the store. */
  lemma CyclesKeepLines(c: Codec, path: string, st: State, j: Faults.Journal, cfg: Config, cys: seq<Cycle>)
    requires Lawful(c) && Faults.Files(c, path, st.disk, j)
    requires Faults.NamesFree(c, path, st, AllRequests(c, path, st, cfg, cys))
    ensures var es := AllRequests(c, path, st, cfg, cys);
            var j' := Faults.JournalOf(c, path, st, j, es);
            && Faults.Files(c, path, AfterCycles(c, path, st, cfg, cys).disk, j')
            && Faults.AllLines(j') == Faults.AllLines(j) + Faults.LinesOf(c, path, st, es)
  {
    hide *;
    CyclesAreRequests(c, path, st, cfg, cys);
    Faults.FaultsKeepLines(c, path, st, j, AllRequests(c, path, st, cfg, cys));
  }
}
