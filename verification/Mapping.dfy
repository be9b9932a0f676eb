/** The control catalog and the rules that connect collector output to it. */
module Mapping {
  import opened Evidence
  import opened Ordering

  datatype Control = Control(id: string, article: string, title: string, summary: string)

  datatype Rule = Rule(collector: string, targetType: string, controls: seq<string>)

  datatype MapError =
    | NoFramework | EmptyControlId | DuplicateControl(id: string)
    | NoCollector(rule: nat) | NoControls(rule: nat) | UnknownControl(rule: nat, id: string)

  /** Linear search of the catalog. */
  function Find(controls: seq<Control>, id: string): Option<Control> {
    if controls == [] then None else if controls[0].id == id then Some(controls[0]) else Find(controls[1..], id)
  }

  function IdsOf(controls: seq<Control>): set<string> { set x | x in controls :: x.id }

  predicate CatalogOk(controls: seq<Control>) {
    && (forall i | 0 <= i < |controls| :: controls[i].id != "")
    && (forall i, j | 0 <= i < j < |controls| :: controls[i].id != controls[j].id)
  }

  predicate RuleOk(ids: set<string>, r: Rule) {
    r.collector != "" && r.controls != [] && forall k | 0 <= k < |r.controls| :: r.controls[k] in ids
  }

  /** A framework mapping the program accepts. */
  predicate WellFormed(framework: string, controls: seq<Control>, rules: seq<Rule>) {
    && framework != "" && CatalogOk(controls)
    && forall i | 0 <= i < |rules| :: RuleOk(IdsOf(controls), rules[i])
  }

  /** The index answers like a linear search. */
  ghost predicate Indexes(byId: map<string, Control>, controls: seq<Control>) {
    forall id :: (if id in byId then Some(byId[id]) else None) == Find(controls, id)
  }

  lemma {:induction false} FindSnoc(controls: seq<Control>, x: Control, id: string)
    requires id == x.id ==> Find(controls, id).None?
    ensures Find(controls + [x], id) == if id == x.id then Some(x) else Find(controls, id)
  {
    if controls != [] {
      assert (controls + [x])[1..] == controls[1..] + [x];
      FindSnoc(controls[1..], x, id);
    }
  }

  lemma {:induction false} FindIffListed(controls: seq<Control>, id: string)
    ensures Find(controls, id).Some? <==> id in IdsOf(controls)
    ensures Find(controls, id).Some? ==> Find(controls, id).value in controls && Find(controls, id).value.id == id
  {
    if controls != [] {
      FindIffListed(controls[1..], id);
      assert controls == [controls[0]] + controls[1..];
    }
  }

  lemma IndexDomain(byId: map<string, Control>, controls: seq<Control>)
    requires Indexes(byId, controls)
    ensures forall id :: id in byId <==> id in IdsOf(controls)
  {
    forall id
      ensures id in byId <==> id in IdsOf(controls)
    {
      FindIffListed(controls, id);
      assert (if id in byId then Some(byId[id]) else None) == Find(controls, id);
    }
  }

  lemma IndexGrows(byId: map<string, Control>, controls: seq<Control>, x: Control)
    requires Indexes(byId, controls) && x.id !in byId
    ensures Indexes(byId[x.id := x], controls + [x])
  {
    forall id
      ensures (if id in byId[x.id := x] then Some(byId[x.id := x][id]) else None) == Find(controls + [x], id)
    {
      assert (if id in byId then Some(byId[id]) else None) == Find(controls, id);
      FindSnoc(controls, x, id);
    }
  }

  lemma CatalogGrows(controls: seq<Control>, i: nat)
    requires i < |controls| && CatalogOk(controls[..i])
    ensures CatalogOk(controls[..i + 1]) <==> controls[i].id != "" && controls[i].id !in IdsOf(controls[..i])
    ensures CatalogOk(controls) ==> CatalogOk(controls[..i + 1])
  {
    var x, init, all := controls[i], controls[..i], controls[..i + 1];
    assert all == init + [x] && all[i] == x;
    if x.id in IdsOf(init) {
      var y :| y in init && y.id == x.id;
      var j :| 0 <= j < i && init[j] == y;
      assert all[j].id == all[i].id;
    } else {
      forall j | 0 <= j < i ensures init[j].id != x.id { assert init[j] in init; }
    }
  }

  predicate Matches(rule: Rule, r: Record) {
    rule.collector == r.collectorId && (rule.targetType == "" || rule.targetType == r.target.typ)
  }

  /** The controls of all rules that match the record. */
  ghost function ControlSet(rules: seq<Rule>, r: Record): set<string> {
    set rule, id | rule in rules && Matches(rule, r) && id in rule.controls :: id
  }

  /** The record with its controls: the increasing list of the union over the matching rules. */
  ghost function ApplySpec(rules: seq<Rule>, r: Record): Record {
    r.(controlIds := SortedList(ControlSet(rules, r)))
  }

  /** Two controls have this ID. */
  predicate Repeated(controls: seq<Control>, id: string) {
    exists i, j :: 0 <= i < j < |controls| && controls[i].id == controls[j].id == id
  }

  lemma RepeatedId(controls: seq<Control>, j: nat)
    requires j < |controls| && controls[j].id in IdsOf(controls[..j])
    ensures Repeated(controls, controls[j].id)
  {
    var x :| x in controls[..j] && x.id == controls[j].id;
    var i :| 0 <= i < j && controls[..j][i] == x;
    assert controls[i].id == controls[j].id;
  }

  class FrameworkMapping {
    const framework: string
    const controls: seq<Control>
    const rules: seq<Rule>
    var byId: map<string, Control>

    constructor (framework: string, controls: seq<Control>, rules: seq<Rule>)
      ensures this.framework == framework && this.controls == controls && this.rules == rules
    {
      this.framework, this.controls, this.rules, this.byId := framework, controls, rules, map[];
    }

    ghost predicate Valid()
      reads this
    {
      WellFormed(framework, controls, rules) && Indexes(byId, controls)
    }

    /** Accepts exactly the well-formed mappings, and then the index answers like a linear search. */
    method Validate() returns (err: Option<MapError>)
      modifies this
      ensures err.None? <==> WellFormed(framework, controls, rules)
      ensures err.None? ==> Valid()
      ensures err == Some(NoFramework) <==> framework == ""
      ensures err == Some(EmptyControlId) ==> "" in IdsOf(controls)
      ensures err.Some? && err.value.DuplicateControl? ==> Repeated(controls, err.value.id)
      ensures err.Some? && err.value.NoCollector? ==>
                err.value.rule < |rules| && rules[err.value.rule].collector == ""
      ensures err.Some? && err.value.NoControls? ==>
                err.value.rule < |rules| && rules[err.value.rule].controls == []
      ensures err.Some? && err.value.UnknownControl? ==>
                && err.value.rule < |rules| && err.value.id in rules[err.value.rule].controls
                && err.value.id !in IdsOf(controls)
    {
      if framework == "" {
        return Some(NoFramework);
      }
      byId := map[];
      for i := 0 to |controls|
        invariant CatalogOk(controls[..i]) && Indexes(byId, controls[..i])
      {
        var x := controls[i];
        CatalogGrows(controls, i);
        IndexDomain(byId, controls[..i]);
        if x.id == "" {
          return Some(EmptyControlId);
        }
        if x.id in byId {
          RepeatedId(controls, i);
          return Some(DuplicateControl(x.id));
        }
        assert controls[..i + 1] == controls[..i] + [x];
        IndexGrows(byId, controls[..i], x);
        byId := byId[x.id := x];
      }
      assert controls[..|controls|] == controls;
      IndexDomain(byId, controls);
      for i := 0 to |rules|
        invariant forall k | 0 <= k < i :: RuleOk(IdsOf(controls), rules[k])
      {
        var r := rules[i];
        if r.collector == "" {
          return Some(NoCollector(i));
        }
        if |r.controls| == 0 {
          return Some(NoControls(i));
        }
        for k := 0 to |r.controls|
          invariant forall j | 0 <= j < k :: r.controls[j] in IdsOf(controls)
        {
          if r.controls[k] !in byId {
            assert !RuleOk(IdsOf(controls), r);
            return Some(UnknownControl(i, r.controls[k]));
          }
        }
      }
      err := None;
    }

    /** Sets the record's controls and nothing else. */
    method Apply(r: Record) returns (mapped: Record)
      ensures mapped == ApplySpec(rules, r)
    {
      var seen: set<string> := {};
      var ids: seq<string> := [];
      for i := 0 to |rules|
        invariant seen == Elements(ids) == ControlSet(rules[..i], r)
        invariant forall j, k | 0 <= j < k < |ids| :: ids[j] != ids[k]
      {
        var rule := rules[i];
        ControlSetSnoc(rules, r, i);
        if rule.collector != r.collectorId {
          continue;
        }
        if rule.targetType != "" && rule.targetType != r.target.typ {
          continue;
        }
        ghost var before := seen;
        for k := 0 to |rule.controls|
          invariant seen == Elements(ids) == before + Elements(rule.controls[..k])
          invariant forall j, l | 0 <= j < l < |ids| :: ids[j] != ids[l]
        {
          var id := rule.controls[k];
          assert rule.controls[..k + 1] == rule.controls[..k] + [id];
          if id !in seen {
            assert forall j | 0 <= j < |ids| :: ids[j] in Elements(ids);
            seen := seen + {id};
            ids := ids + [id];
          }
        }
        assert rule.controls[..|rule.controls|] == rule.controls;
      }
      assert rules[..|rules|] == rules;
      LessIsWeakOrder();
      var sorted := SortSlice(ids, Less);
      PermutedDistinct(sorted, ids);
      SortedIncreasing(sorted);
      SortedListSorts(ControlSet(rules, r));
      IncreasingUnique(sorted, SortedList(ControlSet(rules, r)));
      mapped := r.(controlIds := sorted);
    }

    method Lookup(id: string) returns (found: Option<Control>)
      requires Indexes(byId, controls)
      ensures found == Find(controls, id)
    {
      found := if id in byId then Some(byId[id]) else None;
    }
  }

  /** What one rule does, whatever the others are. A rule of another collector, or for another target type,
      changes nothing; a rule of the record's collector for its target type, or for every type, adds exactly
      its controls. */
  lemma RuleAdds(rules: seq<Rule>, rule: Rule, r: Record)
    ensures var before, after := ApplySpec(rules, r), ApplySpec(rules + [rule], r);
            && Increasing(after.controlIds) && after.(controlIds := r.controlIds) == r
            && (rule.collector != r.collectorId || (rule.targetType != "" && rule.targetType != r.target.typ) ==>
                  after == before)
            && (rule.collector == r.collectorId && (rule.targetType == "" || rule.targetType == r.target.typ) ==>
                  forall id :: id in after.controlIds <==> id in before.controlIds || id in rule.controls)
  {
    var all := rules + [rule];
    ControlSetSnoc(all, r, |rules|);
    assert all[..|rules|] == rules && all[..|rules| + 1] == all;
    ListHolds(ControlSet(rules, r));
    ListHolds(ControlSet(all, r));
    assert ControlSet(rules, r) + {} == ControlSet(rules, r);
    hide SortedList, ControlSet, Less;
  }

  lemma NoRules(r: Record)
    ensures ApplySpec([], r) == r.(controlIds := [])
  {
    assert ControlSet([], r) == {};
  }

  lemma ListHolds(s: set<string>)
    ensures Increasing(SortedList(s)) && forall id :: id in SortedList(s) <==> id in s
  {
    SortedListSorts(s);
    assert forall id :: id in SortedList(s) <==> id in Elements(SortedList(s));
  }

  /** An accepted mapping has a name and distinct non-empty control IDs, and every rule names a collector and
      at least one control, all of the catalog. */
  lemma WellFormedMeans(framework: string, controls: seq<Control>, rules: seq<Rule>)
    ensures WellFormed(framework, controls, rules) <==>
              && framework != "" && "" !in IdsOf(controls) && |IdsOf(controls)| == |controls|
              && forall rule | rule in rules ::
                   rule.collector != "" && rule.controls != [] && Elements(rule.controls) <= IdsOf(controls)
  {
    DistinctIds(controls);
    assert (forall i | 0 <= i < |controls| :: controls[i].id != "") <==> "" !in IdsOf(controls) by {
      forall i | 0 <= i < |controls|
        ensures controls[i].id in IdsOf(controls)
      {
        assert controls[i] in controls;
      }
    }
    forall rule | rule in rules
      ensures RuleOk(IdsOf(controls), rule) <==>
                rule.collector != "" && rule.controls != [] && Elements(rule.controls) <= IdsOf(controls)
    {
      assert forall k | 0 <= k < |rule.controls| :: rule.controls[k] in Elements(rule.controls);
    }
    assert forall i | 0 <= i < |rules| :: rules[i] in rules;
  }

  lemma {:induction false} DistinctIds(controls: seq<Control>)
    ensures |IdsOf(controls)| <= |controls|
    ensures |IdsOf(controls)| == |controls| <==>
              forall i, j | 0 <= i < j < |controls| :: controls[i].id != controls[j].id
  {
    if controls == [] {
      assert IdsOf(controls) == {};
    } else {
      DistinctStep(controls);
      DistinctIds(controls[..|controls| - 1]);
    }
  }

  lemma DistinctStep(controls: seq<Control>)
    requires controls != []
    ensures var init, x := controls[..|controls| - 1], controls[|controls| - 1];
            && |IdsOf(controls)| == |IdsOf(init)| + (if x.id in IdsOf(init) then 0 else 1)
            && (x.id in IdsOf(init) <==> exists j :: 0 <= j < |init| && init[j].id == x.id)
  {
    var init, x := controls[..|controls| - 1], controls[|controls| - 1];
    assert controls == init + [x];
    IdsSnoc(init, x);
    if x.id in IdsOf(init) {
      var y :| y in init && y.id == x.id;
      var j :| 0 <= j < |init| && init[j] == y;
      assert IdsOf(init) + {x.id} == IdsOf(init);
    }
  }

  lemma IdsSnoc(controls: seq<Control>, x: Control)
    ensures IdsOf(controls + [x]) == IdsOf(controls) + {x.id}
  {
    assert forall y :: y in controls + [x] <==> y in controls || y == x;
  }

  lemma ControlSetSnoc(rules: seq<Rule>, r: Record, i: nat)
    requires i < |rules|
    ensures ControlSet(rules[..i + 1], r)
         == ControlSet(rules[..i], r) + (if Matches(rules[i], r) then Elements(rules[i].controls) else {})
  {
    assert rules[..i + 1] == rules[..i] + [rules[i]];
    assert forall rule :: rule in rules[..i + 1] <==> rule in rules[..i] || rule == rules[i];
  }

  /** The order of the rules and repeating a rule make no difference. */
  lemma RuleOrderIrrelevant(rules: seq<Rule>, others: seq<Rule>, r: Record)
    requires Elements(rules) == Elements(others)
    ensures ApplySpec(rules, r) == ApplySpec(others, r)
  {
    assert forall rule :: rule in rules <==> rule in Elements(rules);
    assert forall rule :: rule in others <==> rule in Elements(others);
    assert ControlSet(rules, r) == ControlSet(others, r);
  }

  /** What a record carries after `Apply`: exactly the controls some matching rule names, each once, in
      increasing order, and all of them in the catalog. */
  lemma ApplyMeaning(framework: string, controls: seq<Control>, rules: seq<Rule>, r: Record)
    requires WellFormed(framework, controls, rules)
    ensures var ids := ApplySpec(rules, r).controlIds;
            && Increasing(ids)
            && (forall id :: id in ids <==> exists rule :: rule in rules && Matches(rule, r) && id in rule.controls)
            && (forall id | id in ids :: Find(controls, id).Some? && Find(controls, id).value.id == id)
            && (ids == [] <==> forall rule | rule in rules :: !Matches(rule, r))
  {
    SortedListSorts(ControlSet(rules, r));
    var ids := ApplySpec(rules, r).controlIds;
    forall id
      ensures id in ids <==> exists rule :: rule in rules && Matches(rule, r) && id in rule.controls
    {
      assert id in ids <==> id in Elements(ids);
    }
    forall id | id in ids
      ensures Find(controls, id).Some? && Find(controls, id).value.id == id
    {
      var rule :| rule in rules && Matches(rule, r) && id in rule.controls;
      FindIffListed(controls, id);
    }
    forall rule | rule in rules && Matches(rule, r)
      ensures ids != []
    {
      assert rule.controls[0] in rule.controls && rule.controls[0] in ids;
    }
    if ids != [] {
      assert ids[0] in ids;
    }
  }
}
