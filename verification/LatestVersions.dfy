/** Selecting the latest versions of electorates and election rules
    (packages/iov-bns-governance/src/governor.ts and utils.ts). */
module LatestVersions {
  import opened Results
  import opened Sequences

  datatype Group<T, K> = Group(key: K, values: seq<T>)

  /** The distinct keys in the order in which they first occur. */
  function FirstSeenKeys<T, K(==)>(values: seq<T>, key: T -> K): seq<K> {
    if values == [] then []
    else
      var keys, k := FirstSeenKeys(values[..|values| - 1], key), key(values[|values| - 1]);
      if k in keys then keys else keys + [k]
  }

  /** The values with a given key, in order. */
  function WithKey<T, K(==)>(values: seq<T>, key: T -> K, k: K): seq<T> {
    if values == [] then []
    else
      var last := values[|values| - 1];
      AppendIf(key(last) == k, WithKey(values[..|values| - 1], key, k), last)
  }

  function Groups<T, K(==)>(values: seq<T>, key: T -> K): (groups: seq<Group<T, K>>)
    ensures |groups| == |FirstSeenKeys(values, key)|
  {
    var keys := FirstSeenKeys(values, key);
    seq(|keys|, i requires 0 <= i < |keys| => Group(keys[i], WithKey(values, key, keys[i])))
  }

  /** `find`: the position of the group with a key, or the length. */
  function FindGroup<T, K(==)>(groups: seq<Group<T, K>>, k: K): (i: nat)
    ensures i <= |groups| && (i < |groups| ==> groups[i].key == k)
    ensures forall j | 0 <= j < i :: groups[j].key != k
  {
    if groups == [] || groups[0].key == k then 0 else 1 + FindGroup(groups[1..], k)
  }

  lemma {:induction false} FirstSeenKeysAreDistinct<T(!new), K(!new)>(values: seq<T>, key: T -> K)
    ensures NoDuplicates(FirstSeenKeys(values, key))
    ensures forall v | v in values :: key(v) in FirstSeenKeys(values, key)
    ensures forall k | k in FirstSeenKeys(values, key) :: WithKey(values, key, k) != []
    ensures forall k | k !in FirstSeenKeys(values, key) :: WithKey(values, key, k) == []
  {
    if values != [] {
      var before, last := values[..|values| - 1], values[|values| - 1];
      FirstSeenKeysAreDistinct(before, key);
      assert values == before + [last];
    }
  }

  lemma GroupsStep<T(!new), K(!new)>(before: seq<T>, key: T -> K, value: T)
    ensures
      var groups, k := Groups(before, key), key(value);
      var i := FindGroup(groups, k);
      Groups(before + [value], key) ==
        if i < |groups| then groups[i := Group(k, groups[i].values + [value])] else groups + [Group(k, [value])]
  {
    var values, k := before + [value], key(value);
    var groups, keys := Groups(before, key), FirstSeenKeys(before, key);
    var i := FindGroup(groups, k);
    assert values[..|before|] == before;
    FirstSeenKeysAreDistinct(before, key);
    if i < |groups| {
      assert keys[i] == k;
    } else {
      assert forall j | 0 <= j < |keys| :: groups[j].key == keys[j] != k;
    }
    forall j | 0 <= j < |groups|
      ensures WithKey(values, key, keys[j]) == if j == i then groups[j].values + [value] else groups[j].values
    {
    }
    if i == |groups| {
      assert WithKey(values, key, k) == [value];
    }
  }

  method GroupByCallback<T(!new), K(==, !new)>(values: seq<T>, callback: T -> K) returns (grouped: seq<Group<T, K>>)
    ensures grouped == Groups(values, callback)
  {
    grouped := [];
    for n := 0 to |values|
      invariant grouped == Groups(values[..n], callback)
    {
      GroupsStep(values[..n], callback, values[n]);
      assert values[..n] + [values[n]] == values[..n + 1];
      var key := callback(values[n]);
      var existing := FindGroup(grouped, key);
      if existing < |grouped| {
        grouped := grouped[existing := Group(key, grouped[existing].values + [values[n]])];
      } else {
        grouped := grouped + [Group(key, [values[n]])];
      }
    }
    assert values[..|values|] == values;
  }

  // ----- The groups are a partition ------------------------------------------------------------------------

  function Ungrouped<T, K>(groups: seq<Group<T, K>>): seq<T> {
    if groups == [] then [] else Ungrouped(groups[..|groups| - 1]) + groups[|groups| - 1].values
  }

  lemma {:induction false} WithKeyCounts<T(!new), K(!new)>(values: seq<T>, key: T -> K, k: K, x: T)
    ensures multiset(WithKey(values, key, k))[x] == if key(x) == k then multiset(values)[x] else 0
  {
    if values != [] {
      var before, last := values[..|values| - 1], values[|values| - 1];
      WithKeyCounts(before, key, k, x);
      assert values == before + [last];
    }
  }

  lemma {:induction false} UngroupedCounts<T(!new), K(!new)>(
    values: seq<T>, key: T -> K, keys: seq<K>, groups: seq<Group<T, K>>, x: T)
    requires NoDuplicates(keys) && |groups| == |keys|
    requires forall i | 0 <= i < |keys| :: groups[i].values == WithKey(values, key, keys[i])
    ensures multiset(Ungrouped(groups))[x] == if key(x) in keys then multiset(values)[x] else 0
    decreases |keys|
  {
    if keys != [] {
      var n := |keys| - 1;
      UngroupedCounts(values, key, keys[..n], groups[..n], x);
      WithKeyCounts(values, key, keys[n], x);
      assert keys == keys[..n] + [keys[n]];
    }
  }

  /** Every value is in exactly one group: the group of its key. */
  lemma GroupsPartition<T(!new), K(!new)>(values: seq<T>, key: T -> K)
    ensures multiset(Ungrouped(Groups(values, key))) == multiset(values)
    ensures forall i | 0 <= i < |Groups(values, key)| :: Groups(values, key)[i].values != []
  {
    FirstSeenKeysAreDistinct(values, key);
    forall x: T
      ensures multiset(Ungrouped(Groups(values, key)))[x] == multiset(values)[x]
    {
      UngroupedCounts(values, key, FirstSeenKeys(values, key), Groups(values, key), x);
      if x in values {
        assert key(x) in FirstSeenKeys(values, key);
      } else {
        assert multiset(values)[x] == 0;
      }
    }
  }

  // ----- The latest version ------------------------------------------------------------------------------------

  /** `maxWithComparatorCallback` with the comparison by version; of equal versions the later wins. */
  function Latest<T>(values: seq<T>, version: T -> int): T
    requires values != []
  {
    if |values| == 1 then values[0]
    else
      var previous, next := Latest(values[..|values| - 1], version), values[|values| - 1];
      if version(previous) - version(next) > 0 then previous else next
  }

  /** The value at position i has the greatest version, and no later one has the same. */
  ghost predicate IsLatest<T>(values: seq<T>, version: T -> int, i: nat) {
    && i < |values|
    && (forall j | 0 <= j < |values| :: version(values[j]) <= version(values[i]))
    && (forall j | i < j < |values| :: version(values[j]) < version(values[i]))
  }

  lemma {:induction false} LatestIsGreatest<T>(values: seq<T>, version: T -> int) returns (i: nat)
    requires values != []
    ensures IsLatest(values, version, i) && Latest(values, version) == values[i]
  {
    if |values| == 1 {
      i := 0;
    } else {
      var n := |values| - 1;
      var before := values[..n];
      i := LatestIsGreatest(before, version);
      assert forall j | 0 <= j < n :: values[j] == before[j];
      assert Latest(before, version) == values[i];
      if version(values[i]) <= version(values[n]) {
        i := n;
      }
    }
  }

  // ----- Election rules -------------------------------------------------------------------------------------------

  datatype ElectionRule = ElectionRule(id: nat, version: nat, electorateId: nat, title: string)

  datatype GovernorError = ElectionRuleNotFound

  function RuleId(rule: ElectionRule): nat { rule.id }

  function Version(rule: ElectionRule): int { rule.version }

  function ElectorateId(rule: ElectionRule): nat { rule.electorateId }

  function GetElectionRules(rules: seq<ElectionRule>, electorateId: nat): (r: seq<ElectionRule>)
    ensures |r| == |FirstSeenKeys(WithKey(rules, ElectorateId, electorateId), RuleId)|
  {
    var filtered := WithKey(rules, ElectorateId, electorateId);
    var groups := Groups(filtered, RuleId);
    FirstSeenKeysAreDistinct(filtered, RuleId);
    seq(|groups|, i requires 0 <= i < |groups| => Latest(groups[i].values, Version))
  }

  function GetElectionRuleById(rules: seq<ElectionRule>, id: nat): Result<ElectionRule, GovernorError> {
    var matching := WithKey(rules, RuleId, id);
    if matching == [] then Err(ElectionRuleNotFound) else Ok(Latest(matching, Version))
  }

  lemma {:induction false} WithKeyMembers<T(!new), K(!new)>(values: seq<T>, key: T -> K, k: K)
    ensures forall v :: v in WithKey(values, key, k) <==> v in values && key(v) == k
  {
    if values != [] {
      var before, last := values[..|values| - 1], values[|values| - 1];
      WithKeyMembers(before, key, k);
      assert values == before + [last];
    }
  }

  /** One rule per distinct ID of the electorate, in the order in which the IDs first occur; each is
      one of the rules and has the greatest version among the electorate's rules with its ID. */
  lemma OneLatestRulePerId(rules: seq<ElectionRule>, electorateId: nat)
    ensures
      var filtered := WithKey(rules, ElectorateId, electorateId);
      var r, ids := GetElectionRules(rules, electorateId), FirstSeenKeys(filtered, RuleId);
      && |r| == |ids| && NoDuplicates(ids)
      && (forall rule | rule in filtered :: rule.id in ids)
      && (forall i | 0 <= i < |r| ::
            && r[i].id == ids[i] && r[i] in rules && r[i].electorateId == electorateId
            && (forall rule | rule in rules && rule.electorateId == electorateId && rule.id == ids[i] ::
              rule.version <= r[i].version))
  {
    var filtered := WithKey(rules, ElectorateId, electorateId);
    var r, ids := GetElectionRules(rules, electorateId), FirstSeenKeys(filtered, RuleId);
    FirstSeenKeysAreDistinct(filtered, RuleId);
    WithKeyMembers(rules, ElectorateId, electorateId);
    assert forall rule | rule in filtered :: RuleId(rule) in ids;
    forall i | 0 <= i < |r|
      ensures r[i].id == ids[i] && r[i] in rules && r[i].electorateId == electorateId
      ensures forall rule | rule in rules && rule.electorateId == electorateId && rule.id == ids[i] ::
        rule.version <= r[i].version
    {
      var group := WithKey(filtered, RuleId, ids[i]);
      WithKeyMembers(filtered, RuleId, ids[i]);
      var k := LatestIsGreatest(group, Version);
      assert group[k] in group;
      forall rule | rule in rules && rule.electorateId == electorateId && rule.id == ids[i]
        ensures rule.version <= r[i].version
      {
        assert rule in group;
        var j :| 0 <= j < |group| && group[j] == rule;
        assert Version(group[j]) <= Version(group[k]);
      }
    }
  }

  lemma {:induction false} FiltersCommute<T(!new), K(!new), L(!new)>(
    values: seq<T>, key: T -> K, k: K, other: T -> L, l: L)
    ensures WithKey(WithKey(values, other, l), key, k) == WithKey(WithKey(values, key, k), other, l)
  {
    if values != [] {
      var before, last := values[..|values| - 1], values[|values| - 1];
      FiltersCommute(before, key, k, other, l);
    }
  }

  /** If the latest of all values has a key, it is also the latest of those with the key. */
  lemma {:induction false} LatestOfFiltered<T(!new), K(!new)>(values: seq<T>, version: T -> int, key: T -> K, k: K)
    requires values != [] && key(Latest(values, version)) == k
    ensures WithKey(values, key, k) != [] && Latest(WithKey(values, key, k), version) == Latest(values, version)
  {
    if |values| > 1 {
      var before, last := values[..|values| - 1], values[|values| - 1];
      var kept := WithKey(before, key, k);
      assert (kept + [last])[..|kept|] == kept;
      if version(Latest(before, version)) > version(last) {
        LatestOfFiltered(before, version, key, k);
      } else if kept != [] {
        FilteredIsNotLater(before, version, key, k);
      }
    } else {
      assert values == [values[0]] && values[..0] == [];
    }
  }

  lemma FilteredIsNotLater<T(!new), K(!new)>(values: seq<T>, version: T -> int, key: T -> K, k: K)
    requires values != [] && WithKey(values, key, k) != []
    ensures version(Latest(WithKey(values, key, k), version)) <= version(Latest(values, version))
  {
    var kept := WithKey(values, key, k);
    var i := LatestIsGreatest(kept, version);
    var j := LatestIsGreatest(values, version);
    WithKeyMembers(values, key, k);
    assert kept[i] in kept;
    var l :| 0 <= l < |values| && values[l] == kept[i];
    assert version(values[l]) <= version(values[j]);
  }

  lemma LookupFindsItsElectorate(rules: seq<ElectionRule>, electorateId: nat, i: nat)
    requires i < |GetElectionRules(rules, electorateId)|
    ensures
      var listed := GetElectionRules(rules, electorateId)[i];
      var found := GetElectionRuleById(rules, listed.id);
      found.Ok? && (found.value == listed <==> found.value.electorateId == electorateId)
  {
    OneLatestRulePerId(rules, electorateId);
    var filtered, listed := WithKey(rules, ElectorateId, electorateId), GetElectionRules(rules, electorateId)[i];
    var matching := WithKey(rules, RuleId, listed.id);
    WithKeyMembers(rules, RuleId, listed.id);
    assert listed in matching;
    FiltersCommute(rules, RuleId, listed.id, ElectorateId, electorateId);
    FirstSeenKeysAreDistinct(filtered, RuleId);
    assert listed == Latest(WithKey(filtered, RuleId, listed.id), Version);
    if ElectorateId(Latest(matching, Version)) == electorateId {
      LatestOfFiltered(matching, Version, ElectorateId, electorateId);
    }
  }

  /** The rule at q belongs to another electorate and has a greater version, or the same version and
      comes after every occurrence of the given rule. */
  ghost predicate Overtakes(same: seq<ElectionRule>, rule: ElectionRule, q: nat) {
    && q < |same| && same[q].electorateId != rule.electorateId
    && (same[q].version > rule.version
        || (same[q].version == rule.version && forall j | q < j < |same| :: same[j] != rule))
  }

  /** A rule of another electorate with the same ID overtakes the rule. */
  ghost predicate Overtaken(rules: seq<ElectionRule>, rule: ElectionRule) {
    exists q: nat :: Overtakes(WithKey(rules, RuleId, rule.id), rule, q)
  }

  /** Of the rules with one ID, the latest is the given rule or one of another electorate that overtakes it. */
  lemma LatestOrOvertaken(same: seq<ElectionRule>, rule: ElectionRule)
    requires rule in same
    ensures
      var latest := Latest(same, Version);
      && (latest == rule ==> forall q: nat :: !Overtakes(same, rule, q))
      && (latest.electorateId != rule.electorateId ==> exists q: nat :: Overtakes(same, rule, q))
  {
    var k := LatestIsGreatest(same, Version);
    var r :| 0 <= r < |same| && same[r] == rule;
    assert Version(same[r]) <= Version(same[k]);
    if same[k].electorateId != rule.electorateId {
      forall j | k < j < |same|
        ensures same[k].version == rule.version ==> same[j] != rule
      {
        assert Version(same[j]) < Version(same[k]);
      }
      assert Overtakes(same, rule, k);
    }
    if same[k] == rule {
      forall q: nat
        ensures !Overtakes(same, rule, q)
      {
        if q < |same| && same[q].electorateId != rule.electorateId {
          assert Version(same[q]) <= Version(same[k]);
          assert q > k ==> Version(same[q]) < Version(same[k]);
        }
      }
    }
  }

  /** Looking up a listed rule by its ID gives the listed rule if and only if no rule of another electorate
      with the same ID overtakes it. */
  lemma LookupAgreesWithListingIff(rules: seq<ElectionRule>, electorateId: nat, i: nat)
    requires i < |GetElectionRules(rules, electorateId)|
    ensures
      var listed := GetElectionRules(rules, electorateId)[i];
      GetElectionRuleById(rules, listed.id) == Ok(listed) <==> !Overtaken(rules, listed)
  {
    var listed := GetElectionRules(rules, electorateId)[i];
    OneLatestRulePerId(rules, electorateId);
    LookupFindsItsElectorate(rules, electorateId, i);
    WithKeyMembers(rules, RuleId, listed.id);
    LatestOrOvertaken(WithKey(rules, RuleId, listed.id), listed);
  }

  /** Two electorates with a rule of the same ID: the lookup finds the later version, which the first
      electorate does not list. */
  lemma SharedIdFindsOtherRule(a: ElectionRule, b: ElectionRule)
    requires a.id == b.id && a.version < b.version && a.electorateId != b.electorateId
    ensures
      var rules := [a, b];
      GetElectionRules(rules, a.electorateId) == [a] && GetElectionRuleById(rules, a.id) == Ok(b)
  {
    var one, rules := [a], [a, b];
    assert one[..0] == [] && rules[..1] == one;
    assert WithKey(one, ElectorateId, a.electorateId) == one;
    assert WithKey(rules, ElectorateId, a.electorateId) == one;
    assert WithKey(one, RuleId, a.id) == one && FirstSeenKeys(one, RuleId) == [a.id];
    assert WithKey(rules, RuleId, a.id) == rules;
  }
}
