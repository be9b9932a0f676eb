/** What the auditor's report shows: records grouped by control, and the newest record per target. */
module Report {
  import opened Evidence
  import opened Ordering
  import opened Store
  import opened Runs
  import opened Mapping

  /** The key targets are told apart by. */
  function Key(r: Record): string { r.target.typ + "/" + r.target.name }

  /** Record `i` is the newest for its key, and the earliest in chain order among the newest. */
  predicate Newest(rs: seq<Record>, key: string, i: int) {
    && 0 <= i < |rs| && Key(rs[i]) == key
    && (forall j | 0 <= j < |rs| && Key(rs[j]) == key :: rs[j].collectedAt <= rs[i].collectedAt)
    && (forall j | 0 <= j < i && Key(rs[j]) == key :: rs[j].collectedAt < rs[i].collectedAt)
  }

  ghost predicate HasNewest(rs: seq<Record>, key: string, r: Record) { exists i :: Newest(rs, key, i) && rs[i] == r }

  function Keys(rs: seq<Record>): set<string> { set i | 0 <= i < |rs| :: Key(rs[i]) }

  /** `latest` maps every key to its newest record. */
  ghost predicate IsLatest(rs: seq<Record>, latest: map<string, Record>) {
    && latest.Keys == Keys(rs)
    && forall key | key in latest :: HasNewest(rs, key, latest[key])
  }

  predicate Shown(out: seq<Record>, key: string) { exists a :: 0 <= a < |out| && Key(out[a]) == key }

  predicate NoneOlder(out: seq<Record>, at: Time) { forall a | 0 <= a < |out| :: out[a].collectedAt >= at }

  /** The selection the report shows: at most `max` records, one per key, each the newest of its key,
      newest first, and no key left out whose newest record is newer than one shown. */
  ghost predicate Selection(rs: seq<Record>, max: nat, out: seq<Record>) {
    && |out| == (if |Keys(rs)| < max then |Keys(rs)| else max)
    && (forall a | 0 <= a < |out| :: HasNewest(rs, Key(out[a]), out[a]))
    && (forall a, b | 0 <= a < b < |out| :: Key(out[a]) != Key(out[b]))
    && (forall a, b | 0 <= a < b < |out| :: out[a].collectedAt >= out[b].collectedAt)
    && (forall i | 0 <= i < |rs| && Newest(rs, Key(rs[i]), i) ::
          Shown(out, Key(rs[i])) || NoneOlder(out, rs[i].collectedAt))
  }

  predicate SameTarget(r: Record, s: Record) { r.target.typ == s.target.typ && r.target.name == s.target.name }

  /** Record `k` is the newest of its target, and of equally new ones the first in chain order. */
  predicate FirstNewest(rs: seq<Record>, k: nat)
    requires k < |rs|
  {
    forall i | 0 <= i < |rs| && SameTarget(rs[i], rs[k]) ::
      rs[i].collectedAt < rs[k].collectedAt || (rs[i].collectedAt == rs[k].collectedAt && k <= i)
  }

  /** A record at least as new is shown whose type and name are joined to the same text. */
  predicate Covered(out: seq<Record>, r: Record) {
    exists a :: 0 <= a < |out| && out[a].collectedAt >= r.collectedAt
                && out[a].target.typ + "/" + out[a].target.name == r.target.typ + "/" + r.target.name
  }

  /** What a selection shows of the records: at most `max` of them, newest first, at most one of each target,
      each the first newest of its target; and a record that is not covered is no newer than any shown, of
      which there are then `max`. */
  lemma SelectionMeans(rs: seq<Record>, max: nat, out: seq<Record>)
    requires Selection(rs, max, out)
    ensures |out| <= max
    ensures forall a, b | 0 <= a < b < |out| ::
              out[a].collectedAt >= out[b].collectedAt && !SameTarget(out[a], out[b])
    ensures forall a | 0 <= a < |out| :: exists k :: 0 <= k < |rs| && rs[k] == out[a] && FirstNewest(rs, k)
    ensures forall i | 0 <= i < |rs| ::
              Covered(out, rs[i]) || (|out| == max && NoneOlder(out, rs[i].collectedAt))
  {
    forall a | 0 <= a < |out|
      ensures exists k :: 0 <= k < |rs| && rs[k] == out[a] && FirstNewest(rs, k)
    {
      ShownIsFirstNewest(rs, out[a]);
    }
    forall i | 0 <= i < |rs|
      ensures Covered(out, rs[i]) || (|out| == max && NoneOlder(out, rs[i].collectedAt))
    {
      CoveredOrFull(rs, max, out, i);
    }
    hide HasNewest, Keys, Newest, Shown, NoneOlder, Covered, FirstNewest;
    forall a, b | 0 <= a < b < |out|
      ensures !SameTarget(out[a], out[b])
    {
      assert Key(out[a]) != Key(out[b]);
    }
  }

  lemma ShownIsFirstNewest(rs: seq<Record>, r: Record)
    requires HasNewest(rs, Key(r), r)
    ensures exists k :: 0 <= k < |rs| && rs[k] == r && FirstNewest(rs, k)
  {
    var k :| Newest(rs, Key(r), k) && rs[k] == r;
    forall i | 0 <= i < |rs| && SameTarget(rs[i], rs[k])
      ensures rs[i].collectedAt < rs[k].collectedAt || (rs[i].collectedAt == rs[k].collectedAt && k <= i)
    {
      assert Key(rs[i]) == Key(r);
    }
  }

  lemma CoveredOrFull(rs: seq<Record>, max: nat, out: seq<Record>, i: nat)
    requires Selection(rs, max, out) && i < |rs|
    ensures Covered(out, rs[i]) || (|out| == max && NoneOlder(out, rs[i].collectedAt))
  {
    hide Keys;
    var k := NewestOf(rs, i);
    if |Keys(rs)| < max {
      AllKeysShown(rs, out);
    }
    if Shown(out, Key(rs[k])) {
      var a :| 0 <= a < |out| && Key(out[a]) == Key(rs[k]);
      var n :| Newest(rs, Key(out[a]), n) && rs[n] == out[a];
      assert out[a].collectedAt >= rs[i].collectedAt;
    }
  }

  /** The newest record with the key of record `i`. */
  lemma {:induction false} NewestOf(rs: seq<Record>, i: nat) returns (k: nat)
    requires i < |rs|
    ensures k < |rs| && Key(rs[k]) == Key(rs[i]) && Newest(rs, Key(rs[i]), k) && rs[i].collectedAt <= rs[k].collectedAt
  {
    var key := Key(rs[i]);
    k := i;
    for j := 0 to |rs|
      invariant k < |rs| && Key(rs[k]) == key && rs[i].collectedAt <= rs[k].collectedAt
      invariant forall m | 0 <= m < j && Key(rs[m]) == key ::
                  rs[m].collectedAt < rs[k].collectedAt || (rs[m].collectedAt == rs[k].collectedAt && k <= m)
    {
      if Key(rs[j]) == key {
        if rs[j].collectedAt > rs[k].collectedAt || (rs[j].collectedAt == rs[k].collectedAt && j < k) {
          k := j;
        }
      }
    }
  }

  lemma KeysSnoc(rs: seq<Record>, r: Record)
    ensures Keys(rs + [r]) == Keys(rs) + {Key(r)}
  {
    var all := rs + [r];
    assert all[|rs|] == r;
    forall key | key in Keys(rs)
      ensures key in Keys(all)
    {
      var i :| 0 <= i < |rs| && Key(rs[i]) == key;
      assert all[i] == rs[i];
    }
  }

  /** An older record stays the newest of its key when the next one does not beat it. */
  lemma NewestStays(rs: seq<Record>, r: Record, key: string, best: Record)
    requires HasNewest(rs, key, best) && (Key(r) == key ==> r.collectedAt <= best.collectedAt)
    ensures HasNewest(rs + [r], key, best)
  {
    var i :| Newest(rs, key, i) && rs[i] == best;
    assert Newest(rs + [r], key, i);
  }

  lemma NewestReplaced(rs: seq<Record>, r: Record)
    requires Key(r) !in Keys(rs) || exists best :: HasNewest(rs, Key(r), best) && r.collectedAt > best.collectedAt
    ensures HasNewest(rs + [r], Key(r), r)
  {
    var all := rs + [r];
    forall j | 0 <= j < |rs| && Key(rs[j]) == Key(r)
      ensures rs[j].collectedAt < r.collectedAt
    {
      assert Key(rs[j]) in Keys(rs);
      var best :| HasNewest(rs, Key(r), best) && r.collectedAt > best.collectedAt;
      var i :| Newest(rs, Key(r), i) && rs[i] == best;
    }
    assert all[|rs|] == r && forall j | 0 <= j < |rs| :: all[j] == rs[j];
    assert Newest(all, Key(r), |rs|);
  }

  lemma LatestSnoc(rs: seq<Record>, r: Record, latest: map<string, Record>)
    requires IsLatest(rs, latest)
    ensures var beats := Key(r) !in latest || r.collectedAt > latest[Key(r)].collectedAt;
            IsLatest(rs + [r], if beats then latest[Key(r) := r] else latest)
  {
    KeysSnoc(rs, r);
    var beats := Key(r) !in latest || r.collectedAt > latest[Key(r)].collectedAt;
    var latest' := if beats then latest[Key(r) := r] else latest;
    if beats {
      NewestReplaced(rs, r);
    }
    hide HasNewest, Keys, Key;
    forall key | key in latest'
      ensures HasNewest(rs + [r], key, latest'[key])
    {
      if key != Key(r) || !beats {
        NewestStays(rs, r, key, latest[key]);
      }
    }
  }

  function NewerFirst(): (Record, Record) -> bool { (x: Record, y: Record) => x.collectedAt > y.collectedAt }

  /** Part of the map has been ranged over: `all` holds its values, `rest` the keys to come. */
  ghost predicate Ranged(latest: map<string, Record>, rest: set<string>, all: seq<Record>) {
    && rest <= latest.Keys && |all| + |rest| == |latest.Keys|
    && (forall a | 0 <= a < |all| :: Key(all[a]) in latest && Key(all[a]) !in rest && all[a] == latest[Key(all[a])])
    && (forall a, b | 0 <= a < b < |all| :: all[a] != all[b])
    && (forall key | key in latest && key !in rest :: latest[key] in all)
  }

  lemma RangedStep(latest: map<string, Record>, rest: set<string>, all: seq<Record>, key: string)
    requires Ranged(latest, rest, all) && key in rest && Key(latest[key]) == key
    ensures Ranged(latest, rest - {key}, all + [latest[key]])
  {
    hide Key;
    var all' := all + [latest[key]];
    forall k | k in latest && k !in rest - {key}
      ensures latest[k] in all'
    {
      assert k == key ==> all'[|all|] == latest[key];
    }
  }

  /** `latestPerTarget`. The map is ranged over in any order and the sort leaves ties open; the result
      is a valid selection all the same. */
  method LatestPerTarget(records: seq<Record>, max: nat) returns (out: seq<Record>)
    ensures Selection(records, max, out)
  {
    hide Keys, Selection, Ranged, Sorted;
    var latest: map<string, Record> := map[];
    assert IsLatest([], latest) by { NoKeys(); }
    for i := 0 to |records|
      invariant IsLatest(records[..i], latest)
    {
      var r := records[i];
      assert records[..i + 1] == records[..i] + [r];
      LatestSnoc(records[..i], r, latest);
      if Key(r) !in latest || r.collectedAt > latest[Key(r)].collectedAt {
        latest := latest[Key(r) := r];
      }
    }
    assert records[..|records|] == records;
    var all: seq<Record> := [];
    var rest := latest.Keys;
    assert Ranged(latest, rest, all) by { NothingRanged(latest); }
    while rest != {}
      invariant rest <= latest.Keys && Ranged(latest, rest, all)
      decreases |rest|
    {
      var key :| key in rest;
      assert HasNewest(records, key, latest[key]);
      RangedStep(latest, rest, all, key);
      all := all + [latest[key]];
      rest := rest - {key};
    }
    NewerIsWeakOrder();
    var sorted := SortSlice(all, NewerFirst());
    SortedSelects(records, latest, all, sorted, max);
    out := if |sorted| > max then sorted[..max] else sorted;
  }

  lemma NewerIsWeakOrder()
    ensures WeakOrder(NewerFirst())
  {
  }

  lemma NoKeys()
    ensures Keys([]) == {}
  {
  }

  lemma NothingRanged(latest: map<string, Record>)
    ensures Ranged(latest, latest.Keys, [])
  {
  }

  lemma SortedDistinct(latest: map<string, Record>, all: seq<Record>, sorted: seq<Record>)
    requires Ranged(latest, {}, all)
    requires Sorted(sorted, NewerFirst()) && multiset(sorted) == multiset(all)
    ensures |sorted| == |latest.Keys| && Elements(sorted) == Elements(all)
    ensures forall a | 0 <= a < |sorted| :: Key(sorted[a]) in latest && sorted[a] == latest[Key(sorted[a])]
    ensures forall a, b | 0 <= a < b < |sorted| :: sorted[a].collectedAt >= sorted[b].collectedAt
    ensures forall a, b | 0 <= a < b < |sorted| :: Key(sorted[a]) != Key(sorted[b])
  {
    hide Key;
    PermutedDistinct(sorted, all);
    forall a | 0 <= a < |sorted|
      ensures Key(sorted[a]) in latest && sorted[a] == latest[Key(sorted[a])]
    {
      assert sorted[a] in Elements(sorted);
    }
    forall a, b | 0 <= a < b < |sorted|
      ensures sorted[a].collectedAt >= sorted[b].collectedAt && Key(sorted[a]) != Key(sorted[b])
    {
      assert !NewerFirst()(sorted[b], sorted[a]);
    }
  }

  lemma SortedSelects(rs: seq<Record>, latest: map<string, Record>, all: seq<Record>, sorted: seq<Record>, max: nat)
    requires IsLatest(rs, latest) && Ranged(latest, {}, all)
    requires Sorted(sorted, NewerFirst()) && multiset(sorted) == multiset(all)
    ensures Selection(rs, max, if |sorted| > max then sorted[..max] else sorted)
  {
    hide Newest, Key, Keys, Shown, NoneOlder, Ranged, Sorted, HasNewest;
    SortedDistinct(latest, all, sorted);
    var out := if |sorted| > max then sorted[..max] else sorted;
    forall i | 0 <= i < |rs| && Newest(rs, Key(rs[i]), i) && !Shown(out, Key(rs[i]))
      ensures NoneOlder(out, rs[i].collectedAt)
    {
      LeftOut(rs, latest, all, sorted, out, i);
    }
  }

  lemma LeftOut(rs: seq<Record>, latest: map<string, Record>, all: seq<Record>, sorted: seq<Record>, out: seq<Record>,
                i: nat)
    requires IsLatest(rs, latest) && Ranged(latest, {}, all) && Elements(sorted) == Elements(all)
    requires forall a, b | 0 <= a < b < |sorted| :: sorted[a].collectedAt >= sorted[b].collectedAt
    requires out <= sorted && i < |rs| && Newest(rs, Key(rs[i]), i) && !Shown(out, Key(rs[i]))
    ensures NoneOlder(out, rs[i].collectedAt)
  {
    var key := Key(rs[i]);
    assert key in Keys(rs);
    NewestUnique(rs, key, i, latest[key]);
    hide Newest, Key;
    assert latest[key] in Elements(all);
    var b :| 0 <= b < |sorted| && sorted[b] == rs[i];
    assert b < |out| ==> Shown(out, key);
  }

  lemma NewestUnique(rs: seq<Record>, key: string, i: int, r: Record)
    requires Newest(rs, key, i) && HasNewest(rs, key, r)
    ensures r == rs[i]
  {
    var j :| Newest(rs, key, j) && rs[j] == r;
    assert rs[i].collectedAt == rs[j].collectedAt;
  }

  function SlashCount(s: string): nat {
    if s == "" then 0 else (if s[0] == '/' then 1 else 0) + SlashCount(s[1..])
  }

  lemma {:induction false} SlashConcat(a: string, b: string)
    ensures SlashCount(a + b) == SlashCount(a) + SlashCount(b)
  {
    if a == "" {
      assert a + b == b;
    } else {
      assert (a + b)[1..] == a[1..] + b;
      SlashConcat(a[1..], b);
    }
  }

  /** The key tells targets apart exactly as long as their types have the same number of slashes; the
      collectors' types have one each. */
  lemma KeyInjective(r: Record, s: Record)
    requires Key(r) == Key(s)
    ensures r.target.typ == s.target.typ && r.target.name == s.target.name
            <==> SlashCount(r.target.typ) == SlashCount(s.target.typ)
  {
    if |r.target.typ| < |s.target.typ| {
      LongerTypeMoreSlashes(r.target.typ, r.target.name, s.target.typ, s.target.name);
    } else if |s.target.typ| < |r.target.typ| {
      LongerTypeMoreSlashes(s.target.typ, s.target.name, r.target.typ, r.target.name);
    } else {
      var n := |r.target.typ|;
      assert r.target.typ == Key(r)[..n] && s.target.typ == Key(s)[..n];
      assert r.target.name == Key(r)[n + 1..] && s.target.name == Key(s)[n + 1..];
    }
  }

  lemma OneSlash()
    ensures SlashCount("/") == 1
  {
    assert "/"[1..] == "";
  }

  lemma TypeSplits(t: string, n: string, u: string, m: string)
    requires t + "/" + n == u + "/" + m && |t| < |u|
    ensures u == t + "/" + u[|t| + 1..]
  {
    var key := t + "/" + n;
    assert key[..|t|] == t && key[|t|] == '/';
    assert u == key[..|u|];
    assert u[..|t|] == t && u[|t|] == '/';
  }

  lemma LongerTypeMoreSlashes(t: string, n: string, u: string, m: string)
    requires t + "/" + n == u + "/" + m && |t| < |u|
    ensures SlashCount(t) < SlashCount(u)
  {
    hide SlashCount;
    TypeSplits(t, n, u, m);
    OneSlash();
    SlashConcat(t + "/", u[|t| + 1..]);
    SlashConcat(t, "/");
  }

  /** Different targets have different keys. */
  predicate KeysTellApart(rs: seq<Record>) {
    forall i, j | 0 <= i < |rs| && 0 <= j < |rs| && Key(rs[i]) == Key(rs[j]) :: SameTarget(rs[i], rs[j])
  }

  predicate TargetShown(out: seq<Record>, r: Record) { exists a :: 0 <= a < |out| && SameTarget(out[a], r) }

  predicate EveryTargetShown(rs: seq<Record>, out: seq<Record>) { forall i | 0 <= i < |rs| :: TargetShown(out, rs[i]) }

  /** Where the limit leaves room, the report shows every target exactly if no two targets share a key:
      of two that do, the one with the older record is silently left out. */
  lemma EveryTargetShownIff(rs: seq<Record>, max: nat, out: seq<Record>)
    requires Selection(rs, max, out)
    ensures EveryTargetShown(rs, out) ==> KeysTellApart(rs)
    ensures |Keys(rs)| <= max && KeysTellApart(rs) ==> EveryTargetShown(rs, out)
  {
    if EveryTargetShown(rs, out) {
      hide HasNewest, Newest, NoneOlder, Shown, Keys;
      forall i, j | 0 <= i < |rs| && 0 <= j < |rs| && Key(rs[i]) == Key(rs[j])
        ensures SameTarget(rs[i], rs[j])
      {
        BothShown(rs, out, i, j);
      }
    }
    if |Keys(rs)| <= max && KeysTellApart(rs) {
      RoomForAll(rs, max, out);
    }
  }

  lemma RoomForAll(rs: seq<Record>, max: nat, out: seq<Record>)
    requires Selection(rs, max, out) && |Keys(rs)| <= max && KeysTellApart(rs)
    ensures EveryTargetShown(rs, out)
  {
    hide HasNewest, Newest, NoneOlder, Keys, Key, SameTarget, KeysTellApart;
    AllKeysShown(rs, out);
    forall i | 0 <= i < |rs|
      ensures TargetShown(out, rs[i])
    {
      assert Shown(out, Key(rs[i]));
      var a :| 0 <= a < |out| && Key(out[a]) == Key(rs[i]);
      var j :| 0 <= j < |rs| && rs[j] == out[a];
      ToldApart(rs, j, i);
    }
  }

  lemma ToldApart(rs: seq<Record>, i: nat, j: nat)
    requires KeysTellApart(rs) && i < |rs| && j < |rs| && Key(rs[i]) == Key(rs[j])
    ensures SameTarget(rs[i], rs[j])
  {
    hide Key;
  }

  lemma BothShown(rs: seq<Record>, out: seq<Record>, i: nat, j: nat)
    requires forall a, b | 0 <= a < b < |out| :: Key(out[a]) != Key(out[b])
    requires i < |rs| && j < |rs| && Key(rs[i]) == Key(rs[j]) && TargetShown(out, rs[i]) && TargetShown(out, rs[j])
    ensures SameTarget(rs[i], rs[j])
  {
    var a :| 0 <= a < |out| && SameTarget(out[a], rs[i]);
    var b :| 0 <= b < |out| && SameTarget(out[b], rs[j]);
    assert Key(out[a]) == Key(out[b]);
  }

  /** As many different keys as there are: all of them. */
  lemma AllKeysShown(rs: seq<Record>, out: seq<Record>)
    requires |out| == |Keys(rs)|
    requires forall a | 0 <= a < |out| :: HasNewest(rs, Key(out[a]), out[a])
    requires forall a, b | 0 <= a < b < |out| :: Key(out[a]) != Key(out[b])
    ensures forall i | 0 <= i < |rs| :: Shown(out, Key(rs[i]))
    ensures forall a | 0 <= a < |out| :: out[a] in rs
  {
    forall a | 0 <= a < |out|
      ensures out[a] in rs && Key(out[a]) in Keys(rs)
    {
      var i :| Newest(rs, Key(out[a]), i) && rs[i] == out[a];
    }
    hide Newest, Key, HasNewest;
    DistinctKeys(out);
    AllOfThem(Keys(out), Keys(rs));
    forall i | 0 <= i < |rs|
      ensures Shown(out, Key(rs[i]))
    {
      assert Key(rs[i]) in Keys(out);
    }
  }

  lemma AllOfThem(xs: set<string>, ys: set<string>)
    requires xs <= ys && |xs| == |ys|
    ensures xs == ys
  {
    assert ys == xs + (ys - xs);
  }

  lemma {:induction false} DistinctKeys(out: seq<Record>)
    requires forall a, b | 0 <= a < b < |out| :: Key(out[a]) != Key(out[b])
    ensures |Keys(out)| == |out|
  {
    hide Key;
    if out != [] {
      var init, r := out[..|out| - 1], out[|out| - 1];
      DistinctKeys(init);
      KeysSnoc(init, r);
      assert out == init + [r] && Key(r) !in Keys(init);
    } else {
      NoKeys();
    }
  }

  /** Types with the same number of slashes, such as the one slash of every type in the repository, keep
      the keys apart. */
  lemma SlashesKeepApart(rs: seq<Record>, n: nat)
    requires forall i | 0 <= i < |rs| :: SlashCount(rs[i].target.typ) == n
    ensures KeysTellApart(rs)
  {
    forall i, j | 0 <= i < |rs| && 0 <= j < |rs| && Key(rs[i]) == Key(rs[j])
      ensures SameTarget(rs[i], rs[j])
    {
      KeyInjective(rs[i], rs[j]);
    }
  }

  /** Of two records with one key whose types have different numbers of slashes every report shows at most
      one target. */
  lemma KeysCanClash(r: Record, s: Record, max: nat, out: seq<Record>)
    requires Key(r) == Key(s) && SlashCount(r.target.typ) != SlashCount(s.target.typ)
    requires Selection([r, s], max, out)
    ensures !EveryTargetShown([r, s], out)
  {
    hide Selection, EveryTargetShown, Key;
    EveryTargetShownIff([r, s], max, out);
    KeyInjective(r, s);
    assert [r, s][0] == r && [r, s][1] == s;
  }

  /** A collector can emit such records. */
  lemma ClashingTargets(r: Record, s: Record)
    requires r.target.typ == "cluster" && r.target.name == "role/admin"
    requires s.target.typ == "cluster/role" && s.target.name == "admin"
    ensures Key(r) == Key(s) && SlashCount(r.target.typ) != SlashCount(s.target.typ)
  {
    assert "cluster" + "/" + "role/admin" == "cluster/role/admin" == "cluster/role" + "/" + "admin";
    KeyInjective(r, s);
    assert |r.target.typ| != |s.target.typ|;
  }

  /** `r` once for each time it carries the control. */
  function Copies(r: Record, n: nat): seq<Record> { seq(n, _ => r) }

  function CountOf(ids: seq<string>, id: string): nat { multiset(ids)[id] }

  /** The group of a control, in chain order. */
  function Carrying(rs: seq<Record>, id: string): seq<Record> {
    if rs == [] then [] else Carrying(rs[..|rs| - 1], id) + Copies(rs[|rs| - 1], CountOf(rs[|rs| - 1].controlIds, id))
  }

  /** The records with a property, in chain order. */
  function Those(rs: seq<Record>, p: Record -> bool): seq<Record> {
    if rs == [] then [] else Those(rs[..|rs| - 1], p) + (if p(rs[|rs| - 1]) then [rs[|rs| - 1]] else [])
  }

  function HasFailed(): Record -> bool { (r: Record) => r.outcome == OUTCOME_FAILED }

  function IsUnmapped(): Record -> bool { (r: Record) => r.controlIds == [] }

  /** `byControl` holds the groups of `rs`, and of `r` for its first `k` controls. */
  ghost predicate Grouped(byControl: map<string, seq<Record>>, rs: seq<Record>, r: Record, k: nat)
    requires k <= |r.controlIds|
  {
    && (forall id :: Carrying(rs, id) + Copies(r, CountOf(r.controlIds[..k], id))
                     == if id in byControl then byControl[id] else [])
    && (forall id | id in byControl :: byControl[id] != [])
  }

  ghost predicate GroupsOf(byControl: map<string, seq<Record>>, rs: seq<Record>) {
    && (forall id :: Carrying(rs, id) == if id in byControl then byControl[id] else [])
    && (forall id | id in byControl :: byControl[id] != [])
  }

  /** The groups the report is rendered from. */
  method Group(records: seq<Record>) returns (byControl: map<string, seq<Record>>, failures: seq<Record>, unmapped: nat)
    ensures GroupsOf(byControl, records)
    ensures failures == Those(records, HasFailed())
    ensures unmapped == |Those(records, IsUnmapped())|
    ensures forall r :: r in failures <==> r in records && r.outcome == "collection-failed"
    ensures unmapped == |set i | 0 <= i < |records| && records[i].controlIds == []|
    ensures forall id :: id in byControl <==> exists r :: r in records && id in r.controlIds
    ensures forall id, r | id in byControl :: r in byControl[id] <==> r in records && id in r.controlIds
  {
    byControl, failures, unmapped := map[], [], 0;
    assert GroupsOf(map[], []) by { NoGroups(); }
    hide GroupsOf, Grouped;
    for i := 0 to |records|
      invariant GroupsOf(byControl, records[..i])
      invariant failures == Those(records[..i], HasFailed())
      invariant unmapped == |Those(records[..i], IsUnmapped())|
    {
      var r := records[i];
      assert records[..i + 1][..i] == records[..i] && records[..i + 1][i] == r;
      if r.outcome == OUTCOME_FAILED {
        failures := failures + [r];
      }
      if |r.controlIds| == 0 {
        unmapped := unmapped + 1;
      }
      BeginRecord(byControl, records[..i], r);
      for k := 0 to |r.controlIds|
        invariant Grouped(byControl, records[..i], r, k)
      {
        var id := r.controlIds[k];
        GroupStep(byControl, records[..i], r, k);
        byControl := byControl[id := (if id in byControl then byControl[id] else []) + [r]];
      }
      EndRecord(byControl, records[..i + 1], r);
    }
    assert records[..|records|] == records;
    GroupMeans(byControl, records);
    UnmappedMeans(records);
  }

  /** The parts of a report, by the records they show. */
  lemma GroupMeans(byControl: map<string, seq<Record>>, rs: seq<Record>)
    requires GroupsOf(byControl, rs)
    ensures forall id :: id in byControl <==> exists r :: r in rs && id in r.controlIds
    ensures forall id, r | id in byControl :: r in byControl[id] <==> r in rs && id in r.controlIds
    ensures forall r :: r in Those(rs, HasFailed()) <==> r in rs && r.outcome == "collection-failed"
  {
    forall id, r
      ensures r in Carrying(rs, id) <==> r in rs && id in r.controlIds
    {
      InOwnGroups(rs, r, id);
    }
    forall id | id in byControl
      ensures exists r :: r in rs && id in r.controlIds
    {
      assert byControl[id] == Carrying(rs, id);
      InOwnGroups(rs, byControl[id][0], id);
      assert byControl[id][0] in rs && id in byControl[id][0].controlIds;
    }
    forall r
      ensures r in Those(rs, HasFailed()) <==> r in rs && r.outcome == "collection-failed"
    {
      InThose(rs, HasFailed(), r);
    }
  }

  lemma {:induction false} InThose(rs: seq<Record>, p: Record -> bool, r: Record)
    ensures r in Those(rs, p) <==> r in rs && p(r)
  {
    if rs != [] {
      InThose(rs[..|rs| - 1], p, r);
      assert rs == rs[..|rs| - 1] + [rs[|rs| - 1]];
    }
  }

  /** In chain order, with repetitions. */
  lemma {:induction false} ThoseConcat(xs: seq<Record>, ys: seq<Record>, p: Record -> bool)
    ensures Those(xs + ys, p) == Those(xs, p) + Those(ys, p)
  {
    if ys == [] {
      assert xs + ys == xs && Those(xs, p) + [] == Those(xs, p);
    } else {
      assert (xs + ys)[..|xs + ys| - 1] == xs + ys[..|ys| - 1];
      ThoseConcat(xs, ys[..|ys| - 1], p);
    }
  }

  /** The positions of the records without a control. */
  function UnmappedAt(rs: seq<Record>): set<int> { set i | 0 <= i < |rs| && rs[i].controlIds == [] }

  lemma {:induction false} UnmappedMeans(rs: seq<Record>)
    ensures |Those(rs, IsUnmapped())| == |UnmappedAt(rs)|
  {
    if rs == [] {
      assert UnmappedAt(rs) == {};
    } else {
      UnmappedMeans(rs[..|rs| - 1]);
      UnmappedStep(rs);
    }
  }

  lemma UnmappedStep(rs: seq<Record>)
    requires rs != []
    ensures var n := |rs| - 1;
            |UnmappedAt(rs)| == |UnmappedAt(rs[..n])| + (if rs[n].controlIds == [] then 1 else 0)
  {
    var n := |rs| - 1;
    var last: set<int> := if rs[n].controlIds == [] then {n} else {};
    assert UnmappedAt(rs[..n]) !! last && UnmappedAt(rs) == UnmappedAt(rs[..n]) + last;
    Disjoint(UnmappedAt(rs[..n]), last);
  }

  lemma Disjoint(xs: set<int>, ys: set<int>)
    requires xs !! ys
    ensures |xs + ys| == |xs| + |ys|
  {
  }

  lemma NoGroups()
    ensures GroupsOf(map[], [])
  {
  }

  lemma BeginRecord(byControl: map<string, seq<Record>>, rs: seq<Record>, r: Record)
    requires GroupsOf(byControl, rs)
    ensures Grouped(byControl, rs, r, 0)
  {
    forall id
      ensures Carrying(rs, id) + Copies(r, CountOf(r.controlIds[..0], id)) == Carrying(rs, id)
    {
      assert Copies(r, 0) == [];
    }
  }

  lemma EndRecord(byControl: map<string, seq<Record>>, rs: seq<Record>, r: Record)
    requires rs != [] && r == rs[|rs| - 1] && Grouped(byControl, rs[..|rs| - 1], r, |r.controlIds|)
    ensures GroupsOf(byControl, rs)
  {
    assert r.controlIds[..|r.controlIds|] == r.controlIds;
  }

  lemma GroupStep(byControl: map<string, seq<Record>>, rs: seq<Record>, r: Record, k: nat)
    requires k < |r.controlIds| && Grouped(byControl, rs, r, k)
    ensures var id := r.controlIds[k];
            Grouped(byControl[id := (if id in byControl then byControl[id] else []) + [r]], rs, r, k + 1)
  {
    hide Carrying, Copies, CountOf;
    forall id {
      OneMore(Carrying(rs, id), r, r.controlIds, k, id);
    }
  }

  lemma OneMore(group: seq<Record>, r: Record, ids: seq<string>, k: nat, id: string)
    requires k < |ids|
    ensures group + Copies(r, CountOf(ids[..k + 1], id))
         == group + Copies(r, CountOf(ids[..k], id)) + (if ids[k] == id then [r] else [])
  {
    assert ids[..k + 1] == ids[..k] + [ids[k]];
    assert Copies(r, CountOf(ids[..k], id) + 1) == Copies(r, CountOf(ids[..k], id)) + [r];
  }

  /** When no record repeats a control, as after `Apply`, a control's group is the list of the records
      carrying it, each once. */
  lemma {:induction false} GroupIsSublist(rs: seq<Record>, id: string)
    requires forall r | r in rs :: Increasing(r.controlIds)
    ensures Carrying(rs, id) == Those(rs, (r: Record) => id in r.controlIds)
  {
    if rs != [] {
      var r := rs[|rs| - 1];
      GroupIsSublist(rs[..|rs| - 1], id);
      assert r in rs;
      forall i, j | 0 <= i < j < |r.controlIds|
        ensures r.controlIds[i] != r.controlIds[j]
      {
        LessTotal(r.controlIds[i], r.controlIds[j]);
      }
      DistinctCounts(r.controlIds, id);
      assert id in r.controlIds <==> id in multiset(r.controlIds);
      assert Copies(r, 1) == [r] && Copies(r, 0) == [];
    }
  }

  /** A record is in the groups of its own controls and in no other; it is unmapped exactly when it is in
      none. */
  lemma {:induction false} InOwnGroups(rs: seq<Record>, r: Record, id: string)
    ensures r in Carrying(rs, id) <==> r in rs && id in r.controlIds
    ensures r in Those(rs, IsUnmapped()) <==> r in rs && r.controlIds == []
  {
    if rs != [] {
      var last := rs[|rs| - 1];
      assert rs == rs[..|rs| - 1] + [last];
      InOwnGroups(rs[..|rs| - 1], r, id);
      assert id in last.controlIds <==> id in multiset(last.controlIds);
      var copies := Copies(last, CountOf(last.controlIds, id));
      assert |copies| > 0 ==> copies[0] == last;
    }
  }

  function GroupSizes(rs: seq<Record>, ids: seq<string>): nat {
    if ids == [] then 0 else GroupSizes(rs, ids[..|ids| - 1]) + |Carrying(rs, ids[|ids| - 1])|
  }

  function TotalIds(rs: seq<Record>): nat {
    if rs == [] then 0 else TotalIds(rs[..|rs| - 1]) + |rs[|rs| - 1].controlIds|
  }

  function Counts(ids: seq<string>, all: seq<string>): nat {
    if all == [] then 0 else Counts(ids, all[..|all| - 1]) + CountOf(ids, all[|all| - 1])
  }

  /** Nothing is lost or counted twice: over the sorted list of controls the report goes through, the
      group sizes add up to the number of control IDs on all records. */
  lemma {:induction false} GroupSizesAddUp(rs: seq<Record>, all: seq<string>)
    requires Increasing(all) && forall r, id | r in rs && id in r.controlIds :: id in all
    ensures GroupSizes(rs, all) == TotalIds(rs)
  {
    if rs == [] {
      NoSizes(all);
    } else {
      var init, r := rs[..|rs| - 1], rs[|rs| - 1];
      assert rs == init + [r];
      GroupSizesAddUp(init, all);
      SizesSplit(rs, all);
      CountsAll(r.controlIds, all);
    }
  }

  lemma {:induction false} NoSizes(all: seq<string>)
    ensures GroupSizes([], all) == 0
  {
    if all != [] {
      NoSizes(all[..|all| - 1]);
    }
  }

  lemma {:induction false} SizesSplit(rs: seq<Record>, all: seq<string>)
    requires rs != []
    ensures GroupSizes(rs, all) == GroupSizes(rs[..|rs| - 1], all) + Counts(rs[|rs| - 1].controlIds, all)
  {
    if all != [] {
      SizesSplit(rs, all[..|all| - 1]);
    }
  }

  lemma {:induction false} CountsAll(ids: seq<string>, all: seq<string>)
    requires Increasing(all) && forall id | id in ids :: id in all
    ensures Counts(ids, all) == |ids|
  {
    if ids == [] {
      CountsNothing(all);
    } else {
      var last := ids[|ids| - 1];
      assert ids == ids[..|ids| - 1] + [last];
      CountsAll(ids[..|ids| - 1], all);
      CountsSnoc(ids, all);
      assert last in all;
    }
  }

  lemma {:induction false} CountsNothing(all: seq<string>)
    ensures Counts([], all) == 0
  {
    if all != [] {
      CountsNothing(all[..|all| - 1]);
    }
  }

  lemma {:induction false} CountsSnoc(ids: seq<string>, all: seq<string>)
    requires Increasing(all) && ids != []
    ensures Counts(ids, all) == Counts(ids[..|ids| - 1], all) + (if ids[|ids| - 1] in all then 1 else 0)
  {
    var last := ids[|ids| - 1];
    assert ids == ids[..|ids| - 1] + [last];
    if all != [] {
      var a := all[|all| - 1];
      CountsSnoc(ids, all[..|all| - 1]);
      assert all == all[..|all| - 1] + [a];
      forall i | 0 <= i < |all| - 1 ensures all[i] != a { LessTotal(all[i], a); }
    }
  }

  /** Rotation records are unmapped in every report: they are appended without the mapping. */
  lemma RotationUnmapped(c: Codec, path: string, st: State, now: Time, freshId: string, rs: seq<Record>, id: string)
    requires Lawful(c) && Hex(st.lastHash)
    ensures var r := SealedRotation(c, path, st, now, freshId);
            r !in Carrying(rs, id) && (r in rs ==> r in Those(rs, IsUnmapped()))
  {
    RotationSealed(c, path, st, now, freshId);
    InOwnGroups(rs, SealedRotation(c, path, st, now, freshId), id);
  }

  /** After `Apply` the groups are the sublists, and every control with a group is in the catalog. */
  lemma MappedGroups(framework: string, controls: seq<Control>, rules: seq<Rule>, rs: seq<Record>, id: string)
    requires WellFormed(framework, controls, rules)
    requires forall r | r in rs :: exists raw :: r.controlIds == ApplySpec(rules, raw).controlIds
    ensures Carrying(rs, id) == Those(rs, (r: Record) => id in r.controlIds)
    ensures Carrying(rs, id) != [] ==> Find(controls, id).Some?
  {
    forall r | r in rs
      ensures Increasing(r.controlIds)
    {
      var raw :| r.controlIds == ApplySpec(rules, raw).controlIds;
      ApplyMeaning(framework, controls, rules, raw);
    }
    GroupIsSublist(rs, id);
    if Carrying(rs, id) != [] {
      var r := Carrying(rs, id)[0];
      InOwnGroups(rs, r, id);
      var raw :| r.controlIds == ApplySpec(rules, raw).controlIds;
      ApplyMeaning(framework, controls, rules, raw);
    }
  }
}
