/** The combined node check of the full consistency checker: for one node
    record it matches the index rules against the node (reading the node's
    property map lazily, at most once), asks each applicable index whether
    it holds the node exactly once, and validates the structure of the
    node's property chain. The index engine is an oracle: its exact query
    (already filtered to exact matches) and its per-node entry count. */
module PropertyAndNodeIndexedCheck {
  import opened Results
  import opened Records
  import NodeSchemaMatcher

  /** Property key id to the block that holds it. */
  type PropertyMap = map<int, PropertyBlock>

  /** The answer of an index reader to an exact query: the ids of the
      matching nodes, or the provider's refusal of the query. */
  datatype QueryResult = Hits(nodeIds: seq<int>) | NotApplicable

  /** The indexes under check: their rules, and the two reader operations. */
  datatype IndexAccessors = IndexAccessors(
    rules: seq<IndexRule>,
    query: (IndexRule, seq<IndexQuery>) -> QueryResult,
    countIndexedNodes: (IndexRule, int, seq<Value>) -> nat)

  // ---------------------------------------------------------------------
  // The node's property map
  // ---------------------------------------------------------------------

  /** All blocks of the chain's records, in chain order. */
  function PropertyBlocks(records: seq<PropertyRecord>): seq<PropertyBlock>
  {
    if records == [] then [] else records[0].blocks + PropertyBlocks(records[1..])
  }

  /** Block `i` is the last one in `blocks` carrying its key. */
  ghost predicate LastWithKey(blocks: seq<PropertyBlock>, i: int)
    requires 0 <= i < |blocks|
  {
    forall j | i < j < |blocks| :: blocks[j].keyIndexId != blocks[i].keyIndexId
  }

  /** `properties(...)`: the blocks put into a map one after the other, so a
      later block with the same key replaces an earlier one. */
  function Properties(blocks: seq<PropertyBlock>): (m: PropertyMap)
    ensures forall i | 0 <= i < |blocks| :: blocks[i].keyIndexId in m
    ensures forall k | k in m :: m[k].keyIndexId == k && m[k] in blocks
  {
    if blocks == [] then map[]
    else
      var init := blocks[..|blocks| - 1];
      var last := blocks[|blocks| - 1];
      assert blocks == init + [last];
      Properties(init)[last.keyIndexId := last]
  }

  /** In the property map, a key maps to the last block carrying it. */
  lemma {:induction false} LastBlockWins(blocks: seq<PropertyBlock>, i: int)
    requires 0 <= i < |blocks| && LastWithKey(blocks, i)
    ensures Properties(blocks)[blocks[i].keyIndexId] == blocks[i]
  {
    if i < |blocks| - 1 {
      var init := blocks[..|blocks| - 1];
      assert init[i] == blocks[i];
      assert LastWithKey(init, i) by {
        forall j | i < j < |init| ensures init[j].keyIndexId != init[i].keyIndexId {
          assert init[j] == blocks[j];
        }
      }
      LastBlockWins(init, i);
    }
  }

  /** The private `nodeHasSchemaProperties`: every index key is in the map. */
  function NodeHasSchemaProperties(nodePropertyMap: PropertyMap, indexPropertyIds: seq<int>): (r: bool)
    ensures r <==> forall i | 0 <= i < |indexPropertyIds| :: indexPropertyIds[i] in nodePropertyMap
  {
    if |indexPropertyIds| == 0 then true
    else if indexPropertyIds[0] !in nodePropertyMap then false
    else NodeHasSchemaProperties(nodePropertyMap, indexPropertyIds[1..])
  }

  /** The checker's matching rule is the schema matcher's rule with no exempt
      key: any exempt key that is not one of the index's keys. */
  lemma MirrorsSchemaMatcher(nodePropertyMap: PropertyMap, indexPropertyIds: seq<int>, changedPropertyId: int)
    requires changedPropertyId !in indexPropertyIds
    ensures NodeHasSchemaProperties(nodePropertyMap, indexPropertyIds)
        == NodeSchemaMatcher.NodeHasSchemaProperties(nodePropertyMap.Keys, indexPropertyIds, changedPropertyId)
  {
    if !NodeHasSchemaProperties(nodePropertyMap, indexPropertyIds) {
      var i :| 0 <= i < |indexPropertyIds| && indexPropertyIds[i] !in nodePropertyMap;
      assert indexPropertyIds[i] != changedPropertyId;
    }
  }

  /** `getPropertyValues`: the node's values for the index keys, in the
      index's key order. */
  function GetPropertyValues(nodePropertyMap: PropertyMap, indexPropertyIds: seq<int>): (values: seq<Value>)
    requires NodeHasSchemaProperties(nodePropertyMap, indexPropertyIds)
    ensures |values| == |indexPropertyIds|
    ensures forall i | 0 <= i < |values| :: values[i] == nodePropertyMap[indexPropertyIds[i]].value
  {
    seq(|indexPropertyIds|, i requires 0 <= i < |indexPropertyIds| => nodePropertyMap[indexPropertyIds[i]].value)
  }

  /** `seek`: one exact predicate per index key, paired positionally with
      the values (the source asserts the two lengths agree). */
  function Seek(schema: NodeSchemaMatcher.LabelSchemaDescriptor, values: seq<Value>): (query: seq<IndexQuery>)
    requires |schema.propertyIds| == |values|
    ensures |query| == |values|
    ensures forall i | 0 <= i < |query| :: query[i] == Exact(schema.propertyIds[i], values[i])
  {
    seq(|values|, i requires 0 <= i < |values| => Exact(schema.propertyIds[i], values[i]))
  }

  /** The exact query a unique rule issues for a node, built from the node's
      blocks, is aligned with the rule's keys: one predicate per key, in key
      order, each carrying the value of the last block with that key. */
  lemma QueryAlignedWithRuleKeys(blocks: seq<PropertyBlock>, schema: NodeSchemaMatcher.LabelSchemaDescriptor)
    requires NodeHasSchemaProperties(Properties(blocks), schema.propertyIds)
    ensures var query := Seek(schema, GetPropertyValues(Properties(blocks), schema.propertyIds));
      && |query| == |schema.propertyIds|
      && forall i | 0 <= i < |query| ::
           && query[i].propertyKeyId == schema.propertyIds[i]
           && exists j | 0 <= j < |blocks| && LastWithKey(blocks, j) ::
                blocks[j].keyIndexId == schema.propertyIds[i] && query[i].value == blocks[j].value
  {
    var m := Properties(blocks);
    var query := Seek(schema, GetPropertyValues(m, schema.propertyIds));
    forall i | 0 <= i < |query|
      ensures exists j | 0 <= j < |blocks| && LastWithKey(blocks, j) ::
                blocks[j].keyIndexId == schema.propertyIds[i] && query[i].value == blocks[j].value
    {
      var k := schema.propertyIds[i];
      var j := LastIndexOfKey(blocks, k);
      LastBlockWins(blocks, j);
    }
  }

  /** The position of the last block carrying key `k`. */
  function LastIndexOfKey(blocks: seq<PropertyBlock>, k: int): (j: int)
    requires exists i | 0 <= i < |blocks| :: blocks[i].keyIndexId == k
    ensures 0 <= j < |blocks| && blocks[j].keyIndexId == k && LastWithKey(blocks, j)
  {
    if blocks[|blocks| - 1].keyIndexId == k then |blocks| - 1
    else
      var init := blocks[..|blocks| - 1];
      assert exists i | 0 <= i < |init| :: init[i].keyIndexId == k by {
        var i :| 0 <= i < |blocks| && blocks[i].keyIndexId == k;
        assert init[i] == blocks[i];
      }
      var j := LastIndexOfKey(init, k);
      assert init[j] == blocks[j];
      assert forall i | j < i < |init| :: init[i] == blocks[i];
      j
  }

  // ---------------------------------------------------------------------
  // Classifying the index's answer
  // ---------------------------------------------------------------------

  /** `reportIncorrectIndexCount`: a node must be indexed exactly once. */
  function ReportIncorrectIndexCount(values: seq<Value>, rule: IndexRule, count: nat): (findings: seq<Finding>)
    ensures count == 1 <==> findings == []
    ensures count == 0 ==> findings == [NotIndexed(rule, values)]
    ensures count > 1 ==> findings == [IndexedMultipleTimes(rule, values, count)]
  {
    if count == 0 then [NotIndexed(rule, values)]
    else if count != 1 then [IndexedMultipleTimes(rule, values, count)]
    else []
  }

  /** The node ids named by a run of uniqueness findings. */
  function NamedNodes(findings: seq<Finding>): seq<int>
  {
    if findings == [] then []
    else
      var last := findings[|findings| - 1];
      NamedNodes(findings[..|findings| - 1]) + (if last.UniqueIndexNotUnique? then [last.indexedNodeId] else [])
  }

  /** The loop over the ids a unique index returned: the hits on the node
      itself are counted, every other hit is reported. */
  datatype HitScan = HitScan(findings: seq<Finding>, count: nat)

  function ScanHits(nodeId: int, values: seq<Value>, rule: IndexRule, hits: seq<int>): (scan: HitScan)
    ensures scan.count == multiset(hits)[nodeId]
    ensures forall f | f in scan.findings ::
              f.UniqueIndexNotUnique? && f.rule == rule && f.values == values && f.indexedNodeId != nodeId
    ensures multiset(NamedNodes(scan.findings)) == multiset(hits)[nodeId := 0]
  {
    if hits == [] then HitScan([], 0)
    else
      var init := hits[..|hits| - 1];
      var last := hits[|hits| - 1];
      assert hits == init + [last];
      var scan := ScanHits(nodeId, values, rule, init);
      if last == nodeId then HitScan(scan.findings, scan.count + 1)
      else
        var findings := scan.findings + [UniqueIndexNotUnique(rule, values, last)];
        assert findings[..|findings| - 1] == scan.findings;
        HitScan(findings, scan.count)
  }

  /** `queryIndexOrEmpty`: the ids the index returns for the exact query
      (the exact-match filtering is part of the oracle); a provider that
      does not support the query is an error carrying the query, never a
      finding. */
  function QueryIndexOrEmpty(rule: IndexRule, index: IndexAccessors, query: seq<IndexQuery>): (r: Result<seq<int>, seq<IndexQuery>>)
    ensures r.Failure? <==> index.query(rule, query).NotApplicable?
    ensures r.Failure? ==> r.error == query
    ensures r.Success? ==> r.value == index.query(rule, query).nodeIds
  {
    match index.query(rule, query)
    case NotApplicable => Failure(query)
    case Hits(hits) => Success(hits)
  }

  /** What checking one rule produced: the findings and whether an index
      reader was opened, or the query the index provider refused. */
  datatype RuleOutcome = RuleChecked(findings: seq<Finding>, readerOpened: bool) | RuleFailed(query: seq<IndexQuery>)

  /** `verifyNodeCorrectlyIndexedUniquely`. Every hit on another node is
      reported as a uniqueness violation naming that node, then the hits on
      the node itself are classified by `ReportIncorrectIndexCount`. */
  function VerifyNodeCorrectlyIndexedUniquely(nodeId: int, values: seq<Value>, rule: IndexRule, index: IndexAccessors): (outcome: RuleOutcome)
    requires |rule.schema.propertyIds| == |values|
    ensures outcome.RuleFailed? <==> index.query(rule, Seek(rule.schema, values)).NotApplicable?
    ensures outcome.RuleFailed? ==> outcome.query == Seek(rule.schema, values)
    ensures outcome.RuleChecked? ==> (
      var hits := index.query(rule, Seek(rule.schema, values)).nodeIds;
      var own := multiset(hits)[nodeId];
      var others := |hits| - own;
      && outcome.readerOpened
      && others <= |outcome.findings|
      && (forall f | f in outcome.findings[..others] ::
            f.UniqueIndexNotUnique? && f.rule == rule && f.values == values && f.indexedNodeId != nodeId)
      && multiset(NamedNodes(outcome.findings[..others])) == multiset(hits)[nodeId := 0]
      && outcome.findings[others..] == ReportIncorrectIndexCount(values, rule, own))
    ensures outcome.RuleChecked? ==> forall f | f in outcome.findings :: IsIndexFinding(f) && f.rule == rule
  {
    var query := Seek(rule.schema, values);
    match QueryIndexOrEmpty(rule, index, query)
    case Failure(refused) => RuleFailed(refused)
    case Success(hits) =>
      var scan := ScanHits(nodeId, values, rule, hits);
      assert |NamedNodes(scan.findings)| == |scan.findings| by {
        NamedNodesOfUniquenessFindings(scan.findings);
      }
      assert |multiset(hits)[nodeId := 0]| == |hits| - multiset(hits)[nodeId];
      var findings := scan.findings + ReportIncorrectIndexCount(values, rule, scan.count);
      assert findings[..|scan.findings|] == scan.findings;
      RuleChecked(findings, true)
  }

  lemma {:induction false} NamedNodesOfUniquenessFindings(findings: seq<Finding>)
    requires forall f | f in findings :: f.UniqueIndexNotUnique?
    ensures |NamedNodes(findings)| == |findings|
  {
    if findings != [] {
      assert forall f | f in findings[..|findings| - 1] :: f in findings;
      NamedNodesOfUniquenessFindings(findings[..|findings| - 1]);
    }
  }

  /** One rule whose label the node carries: query it when the node has all
      of its keys, unique rules by exact query, the others by count. */
  function CheckIndexRule(nodeId: int, rule: IndexRule, nodePropertyMap: PropertyMap, index: IndexAccessors): (outcome: RuleOutcome)
    ensures outcome.RuleChecked? ==> (outcome.readerOpened <==> NodeHasSchemaProperties(nodePropertyMap, rule.schema.propertyIds))
    ensures outcome.RuleFailed? ==> rule.canSupportUniqueConstraint && NodeHasSchemaProperties(nodePropertyMap, rule.schema.propertyIds)
    ensures outcome.RuleChecked? ==> forall f | f in outcome.findings :: IsIndexFinding(f) && f.rule == rule
    ensures !NodeHasSchemaProperties(nodePropertyMap, rule.schema.propertyIds) ==> outcome == RuleChecked([], false)
    ensures NodeHasSchemaProperties(nodePropertyMap, rule.schema.propertyIds) ==>
              var values := GetPropertyValues(nodePropertyMap, rule.schema.propertyIds);
              if rule.canSupportUniqueConstraint then outcome == VerifyNodeCorrectlyIndexedUniquely(nodeId, values, rule, index)
              else outcome == RuleChecked(ReportIncorrectIndexCount(values, rule, index.countIndexedNodes(rule, nodeId, values)), true)
  {
    var ids := rule.schema.propertyIds;
    if !NodeHasSchemaProperties(nodePropertyMap, ids) then RuleChecked([], false)
    else
      var values := GetPropertyValues(nodePropertyMap, ids);
      if rule.canSupportUniqueConstraint then VerifyNodeCorrectlyIndexedUniquely(nodeId, values, rule, index)
      else RuleChecked(ReportIncorrectIndexCount(values, rule, index.countIndexedNodes(rule, nodeId, values)), true)
  }

  // ---------------------------------------------------------------------
  // Matching all rules against the node
  // ---------------------------------------------------------------------

  /** A rule whose reader gets opened: its label is on the node and the node
      has all of its keys. */
  predicate Applicable(rule: IndexRule, labels: set<int>, nodePropertyMap: PropertyMap)
  {
    rule.schema.labelId in labels && NodeHasSchemaProperties(nodePropertyMap, rule.schema.propertyIds)
  }

  /** Reference definition: the applicable rules, in rule order. */
  ghost function ApplicableRules(rules: seq<IndexRule>, labels: set<int>, nodePropertyMap: PropertyMap): seq<IndexRule>
  {
    if rules == [] then []
    else
      (if Applicable(rules[0], labels, nodePropertyMap) then [rules[0]] else [])
        + ApplicableRules(rules[1..], labels, nodePropertyMap)
  }

  /** Each rule checked on its own against the node's property map, in rule order. */
  ghost function RuleOutcomes(nodeId: int, rules: seq<IndexRule>, nodePropertyMap: PropertyMap, index: IndexAccessors): (r: seq<RuleOutcome>)
    ensures |r| == |rules|
    ensures forall i | 0 <= i < |rules| :: r[i] == CheckIndexRule(nodeId, rules[i], nodePropertyMap, index)
  {
    if rules == [] then []
    else [CheckIndexRule(nodeId, rules[0], nodePropertyMap, index)] + RuleOutcomes(nodeId, rules[1..], nodePropertyMap, index)
  }

  /** Reference definition: the findings of the checked outcomes,
      concatenated in order. A refused rule contributes nothing. */
  function CheckedFindings(outcomes: seq<RuleOutcome>): seq<Finding>
  {
    if outcomes == [] then []
    else (if outcomes[0].RuleChecked? then outcomes[0].findings else []) + CheckedFindings(outcomes[1..])
  }

  /** The position of the first refused query, or the number of outcomes
      when none is refused. */
  function FirstRefused(outcomes: seq<RuleOutcome>): (k: nat)
    ensures k <= |outcomes|
    ensures forall j | 0 <= j < k :: outcomes[j].RuleChecked?
    ensures k < |outcomes| ==> outcomes[k].RuleFailed?
  {
    if outcomes == [] || outcomes[0].RuleFailed? then 0
    else 1 + FirstRefused(outcomes[1..])
  }

  /** A checked outcome in front shifts the first refusal by one and puts
      its findings in front of those of the prefix before the refusal. */
  lemma CheckedOutcomeStep(o: RuleOutcome, outcomes: seq<RuleOutcome>)
    requires o.RuleChecked?
    ensures var k := FirstRefused(outcomes);
      && FirstRefused([o] + outcomes) == k + 1
      && CheckedFindings(([o] + outcomes)[..k + 1]) == o.findings + CheckedFindings(outcomes[..k])
  {
    var k := FirstRefused(outcomes);
    assert ([o] + outcomes)[1..] == outcomes;
    assert ([o] + outcomes)[..k + 1][1..] == outcomes[..k];
  }

  /** Some rule's label is on the node. */
  ghost predicate SomeRuleLabelled(rules: seq<IndexRule>, labels: set<int>)
  {
    exists i | 0 <= i < |rules| :: rules[i].schema.labelId in labels
  }

  /** What matching the rules to a node did: its findings, how many times it
      built the node's property map, the rules whose reader it opened (in
      order), and the query the index provider refused, if any (the refusal
      is rethrown and ends the node's check). */
  datatype IndexPass = IndexPass(findings: seq<Finding>, propertyMapBuilds: nat, readers: seq<IndexRule>,
                                 unsupportedQuery: Option<seq<IndexQuery>>)

  /** `matchIndexesToNode` over the rules not yet visited; `built` is the
      property map if an earlier rule already caused it to be built. */
  function MatchRules(nodeId: int, labels: set<int>, rules: seq<IndexRule>, blocks: seq<PropertyBlock>,
                      built: Option<PropertyMap>, index: IndexAccessors): (pass: IndexPass)
    requires built.Some? ==> built.value == Properties(blocks)
    ensures pass.propertyMapBuilds == if built.None? && SomeRuleLabelled(rules, labels) then 1 else 0
    ensures forall r | r in pass.readers :: r in rules && Applicable(r, labels, Properties(blocks))
    ensures forall f | f in pass.findings :: IsIndexFinding(f) && f.rule in pass.readers
    ensures pass.unsupportedQuery.None? ==> pass.readers == ApplicableRules(rules, labels, Properties(blocks))
    decreases |rules|
  {
    if rules == [] then IndexPass([], 0, [], None)
    else
      var rule := rules[0];
      assert forall r | r in rules[1..] :: r in rules;
      if rule.schema.labelId !in labels then
        assert SomeRuleLabelled(rules, labels) <==> SomeRuleLabelled(rules[1..], labels) by {
          if SomeRuleLabelled(rules, labels) {
            var i :| 0 <= i < |rules| && rules[i].schema.labelId in labels;
            assert rules[1..][i - 1] == rules[i];
          }
          if SomeRuleLabelled(rules[1..], labels) {
            var i :| 0 <= i < |rules[1..]| && rules[1..][i].schema.labelId in labels;
            assert rules[i + 1] == rules[1..][i];
          }
        }
        MatchRules(nodeId, labels, rules[1..], blocks, built, index)
      else
        assert rules[0].schema.labelId in labels;
        var m := if built.Some? then built.value else Properties(blocks);
        var builds := if built.Some? then 0 else 1;
        match CheckIndexRule(nodeId, rule, m, index)
        case RuleFailed(query) => IndexPass([], builds, [rule], Some(query))
        case RuleChecked(ruleFindings, readerOpened) =>
          var rest := MatchRules(nodeId, labels, rules[1..], blocks, Some(m), index);
          IndexPass(ruleFindings + rest.findings, builds + rest.propertyMapBuilds,
                    (if readerOpened then [rule] else []) + rest.readers, rest.unsupportedQuery)
  }

  /** A pass agrees with the reference on the applicable rules and their
      outcomes: it stops at the first refused query, its findings are those
      of the rules before it, and its readers run up to the refused rule. */
  predicate AgreesWithReference(pass: IndexPass, applicable: seq<IndexRule>, outcomes: seq<RuleOutcome>)
    requires |outcomes| == |applicable|
  {
    var k := FirstRefused(outcomes);
    && (pass.unsupportedQuery.None? <==> k == |outcomes|)
    && pass.findings == CheckedFindings(outcomes[..k])
    && (pass.unsupportedQuery.Some? ==>
          && k < |outcomes|
          && outcomes[k] == RuleFailed(pass.unsupportedQuery.value)
          && pass.readers == applicable[..k + 1])
  }

  /** Matching the rules one by one against the lazily built map agrees with
      the reference that checks only the applicable rules, in order. */
  lemma {:induction false} MatchRulesFollowsReference(nodeId: int, labels: set<int>, rules: seq<IndexRule>, blocks: seq<PropertyBlock>,
                                                      built: Option<PropertyMap>, index: IndexAccessors)
    requires built.Some? ==> built.value == Properties(blocks)
    ensures var applicable := ApplicableRules(rules, labels, Properties(blocks));
      AgreesWithReference(MatchRules(nodeId, labels, rules, blocks, built, index), applicable,
                          RuleOutcomes(nodeId, applicable, Properties(blocks), index))
    decreases |rules|, 1
  {
    if rules == [] {
      assert ApplicableRules(rules, labels, Properties(blocks)) == [];
    } else if Applicable(rules[0], labels, Properties(blocks)) {
      AppliedRuleFollows(nodeId, labels, rules, blocks, built, index);
    } else {
      SkippedRuleFollows(nodeId, labels, rules, blocks, built, index);
    }
  }

  lemma {:induction false} SkippedRuleFollows(nodeId: int, labels: set<int>, rules: seq<IndexRule>, blocks: seq<PropertyBlock>,
                                              built: Option<PropertyMap>, index: IndexAccessors)
    requires built.Some? ==> built.value == Properties(blocks)
    requires rules != [] && !Applicable(rules[0], labels, Properties(blocks))
    ensures var applicable := ApplicableRules(rules, labels, Properties(blocks));
      AgreesWithReference(MatchRules(nodeId, labels, rules, blocks, built, index), applicable,
                          RuleOutcomes(nodeId, applicable, Properties(blocks), index))
    decreases |rules|, 0
  {
    var next := if rules[0].schema.labelId in labels then Some(Properties(blocks)) else built;
    MatchRulesFollowsReference(nodeId, labels, rules[1..], blocks, next, index);
    SkippedRuleStep(nodeId, labels, rules, blocks, built, index);
  }

  lemma {:induction false} AppliedRuleFollows(nodeId: int, labels: set<int>, rules: seq<IndexRule>, blocks: seq<PropertyBlock>,
                                              built: Option<PropertyMap>, index: IndexAccessors)
    requires built.Some? ==> built.value == Properties(blocks)
    requires rules != [] && Applicable(rules[0], labels, Properties(blocks))
    ensures var applicable := ApplicableRules(rules, labels, Properties(blocks));
      AgreesWithReference(MatchRules(nodeId, labels, rules, blocks, built, index), applicable,
                          RuleOutcomes(nodeId, applicable, Properties(blocks), index))
    decreases |rules|, 0
  {
    var rule := rules[0];
    var m := Properties(blocks);
    var restApplicable := ApplicableRules(rules[1..], labels, m);
    var restOutcomes := RuleOutcomes(nodeId, restApplicable, m, index);
    MatchRulesFollowsReference(nodeId, labels, rules[1..], blocks, Some(m), index);
    AppliedRulePass(nodeId, labels, rules, blocks, built, index);
    RuleOutcomesCons(nodeId, rule, restApplicable, m, index);
    var pass := MatchRules(nodeId, labels, rules, blocks, built, index);
    var rest := MatchRules(nodeId, labels, rules[1..], blocks, Some(m), index);
    match CheckIndexRule(nodeId, rule, m, index)
    case RuleFailed(query) => FailedAgreement(pass, rule, query, restApplicable, restOutcomes);
    case RuleChecked(findings, readerOpened) =>
      CheckedAgreement(pass, rest, rule, RuleChecked(findings, readerOpened), restApplicable, restOutcomes);
  }

  /** A refused first rule: the reference stops before any finding. */
  lemma FailedAgreement(pass: IndexPass, rule: IndexRule, query: seq<IndexQuery>,
                        applicable: seq<IndexRule>, outcomes: seq<RuleOutcome>)
    requires |outcomes| == |applicable|
    requires pass.findings == [] && pass.readers == [rule] && pass.unsupportedQuery == Some(query)
    ensures AgreesWithReference(pass, [rule] + applicable, [RuleFailed(query)] + outcomes)
  {
    assert ([rule] + applicable)[..1] == [rule];
    assert ([RuleFailed(query)] + outcomes)[..0] == [];
  }

  /** A checked first rule: its findings and reader go in front, and the
      rest agrees as before. */
  lemma CheckedAgreement(pass: IndexPass, rest: IndexPass, rule: IndexRule, outcome: RuleOutcome,
                         applicable: seq<IndexRule>, outcomes: seq<RuleOutcome>)
    requires |outcomes| == |applicable| && outcome.RuleChecked?
    requires AgreesWithReference(rest, applicable, outcomes)
    requires && pass.findings == outcome.findings + rest.findings
             && pass.readers == [rule] + rest.readers
             && pass.unsupportedQuery == rest.unsupportedQuery
    ensures AgreesWithReference(pass, [rule] + applicable, [outcome] + outcomes)
  {
    CheckedOutcomeStep(outcome, outcomes);
    var k := FirstRefused(outcomes);
    if k < |applicable| {
      PrefixOfCons(rule, applicable, k + 1);
      assert ([outcome] + outcomes)[k + 1] == outcomes[k];
    }
  }

  /** A rule the node does not fully match: no reader and no finding of its
      own, and it is not among the applicable rules. */
  lemma SkippedRuleStep(nodeId: int, labels: set<int>, rules: seq<IndexRule>, blocks: seq<PropertyBlock>,
                        built: Option<PropertyMap>, index: IndexAccessors)
    requires built.Some? ==> built.value == Properties(blocks)
    requires rules != [] && !Applicable(rules[0], labels, Properties(blocks))
    ensures var pass := MatchRules(nodeId, labels, rules, blocks, built, index);
      var next := if rules[0].schema.labelId in labels then Some(Properties(blocks)) else built;
      var rest := MatchRules(nodeId, labels, rules[1..], blocks, next, index);
      && ApplicableRules(rules, labels, Properties(blocks)) == ApplicableRules(rules[1..], labels, Properties(blocks))
      && pass.findings == rest.findings && pass.readers == rest.readers && pass.unsupportedQuery == rest.unsupportedQuery
  {
    if rules[0].schema.labelId in labels {
      assert CheckIndexRule(nodeId, rules[0], Properties(blocks), index) == RuleChecked([], false);
    }
  }

  /** A rule the node fully matches: a refusal stops the pass there; a
      checked rule puts its findings and its reader in front of the rest. */
  lemma AppliedRulePass(nodeId: int, labels: set<int>, rules: seq<IndexRule>, blocks: seq<PropertyBlock>,
                        built: Option<PropertyMap>, index: IndexAccessors)
    requires built.Some? ==> built.value == Properties(blocks)
    requires rules != [] && Applicable(rules[0], labels, Properties(blocks))
    ensures var pass := MatchRules(nodeId, labels, rules, blocks, built, index);
      var rest := MatchRules(nodeId, labels, rules[1..], blocks, Some(Properties(blocks)), index);
      && ApplicableRules(rules, labels, Properties(blocks)) == [rules[0]] + ApplicableRules(rules[1..], labels, Properties(blocks))
      && match CheckIndexRule(nodeId, rules[0], Properties(blocks), index)
         case RuleFailed(query) => pass.findings == [] && pass.readers == [rules[0]] && pass.unsupportedQuery == Some(query)
         case RuleChecked(findings, _) =>
           && pass.findings == findings + rest.findings
           && pass.readers == [rules[0]] + rest.readers
           && pass.unsupportedQuery == rest.unsupportedQuery
  {
  }

  /** The outcomes of a rule in front of others. */
  lemma RuleOutcomesCons(nodeId: int, rule: IndexRule, rest: seq<IndexRule>, m: PropertyMap, index: IndexAccessors)
    ensures RuleOutcomes(nodeId, [rule] + rest, m, index) == [CheckIndexRule(nodeId, rule, m, index)] + RuleOutcomes(nodeId, rest, m, index)
  {
    assert ([rule] + rest)[1..] == rest;
  }

  lemma PrefixOfCons<T>(x: T, xs: seq<T>, n: nat)
    requires n <= |xs|
    ensures ([x] + xs)[..n + 1] == [x] + xs[..n]
  {
  }

  /** `matchIndexesToNode`. */
  function MatchIndexesToNode(node: NodeRecord, labels: set<int>, chain: seq<PropertyRecord>, index: IndexAccessors): (pass: IndexPass)
    ensures pass.propertyMapBuilds <= 1
    ensures pass.propertyMapBuilds == 1 <==> SomeRuleLabelled(index.rules, labels)
    ensures forall f | f in pass.findings :: IsIndexFinding(f) && f.rule in pass.readers
    ensures pass.unsupportedQuery.None? ==>
              pass.readers == ApplicableRules(index.rules, labels, Properties(PropertyBlocks(chain)))
    ensures var m := Properties(PropertyBlocks(chain));
      var applicable := ApplicableRules(index.rules, labels, m);
      var outcomes := RuleOutcomes(node.id, applicable, m, index);
      var k := FirstRefused(outcomes);
      && (pass.unsupportedQuery.None? <==> k == |outcomes|)
      && pass.findings == CheckedFindings(outcomes[..k])
      && (pass.unsupportedQuery.Some? ==>
            && k < |outcomes|
            && CheckIndexRule(node.id, applicable[k], m, index) == RuleFailed(pass.unsupportedQuery.value)
            && pass.readers == applicable[..k + 1])
  {
    MatchRulesFollowsReference(node.id, labels, index.rules, PropertyBlocks(chain), None, index);
    MatchRules(node.id, labels, index.rules, PropertyBlocks(chain), None, index)
  }

  /** The rules whose label is on the node, in order. */
  function LabelledRules(rules: seq<IndexRule>, labels: set<int>): seq<IndexRule>
  {
    if rules == [] then []
    else (if rules[0].schema.labelId in labels then [rules[0]] else []) + LabelledRules(rules[1..], labels)
  }

  /** Rules whose label the node lacks are invisible: dropping them changes
      neither the findings, nor the readers opened, nor whether the property
      map gets built. */
  lemma {:induction false} UnlabelledRulesChangeNothing(nodeId: int, labels: set<int>, rules: seq<IndexRule>,
                                                       blocks: seq<PropertyBlock>, built: Option<PropertyMap>, index: IndexAccessors)
    requires built.Some? ==> built.value == Properties(blocks)
    ensures MatchRules(nodeId, labels, rules, blocks, built, index)
         == MatchRules(nodeId, labels, LabelledRules(rules, labels), blocks, built, index)
  {
    if rules != [] {
      var labelled := LabelledRules(rules, labels);
      if rules[0].schema.labelId in labels {
        assert labelled[0] == rules[0];
        assert labelled[1..] == LabelledRules(rules[1..], labels);
        var m := if built.Some? then built.value else Properties(blocks);
        UnlabelledRulesChangeNothing(nodeId, labels, rules[1..], blocks, Some(m), index);
      } else {
        assert labelled == LabelledRules(rules[1..], labels);
        UnlabelledRulesChangeNothing(nodeId, labels, rules[1..], blocks, built, index);
      }
    }
  }

  /** A node none of whose labels is indexed yields nothing and never has
      its property map built. */
  lemma NoLabelledRuleNoWork(nodeId: int, labels: set<int>, rules: seq<IndexRule>, blocks: seq<PropertyBlock>, index: IndexAccessors)
    requires forall i | 0 <= i < |rules| :: rules[i].schema.labelId !in labels
    ensures MatchRules(nodeId, labels, rules, blocks, None, index) == IndexPass([], 0, [], None)
  {
    UnlabelledRulesChangeNothing(nodeId, labels, rules, blocks, None, index);
    NoLabelledRules(rules, labels);
  }

  lemma {:induction false} NoLabelledRules(rules: seq<IndexRule>, labels: set<int>)
    requires forall i | 0 <= i < |rules| :: rules[i].schema.labelId !in labels
    ensures LabelledRules(rules, labels) == []
  {
    if rules != [] {
      assert forall i | 0 <= i < |rules[1..]| :: rules[1..][i] == rules[i + 1];
      NoLabelledRules(rules[1..], labels);
    }
  }

  // ---------------------------------------------------------------------
  // The property chain
  // ---------------------------------------------------------------------

  /** `ChainCheck.keys`: the keys of a record's blocks, in block order. */
  function Keys(record: PropertyRecord): (keys: seq<int>)
    ensures |keys| == |record.blocks|
    ensures forall i | 0 <= i < |keys| :: keys[i] == record.blocks[i].keyIndexId
  {
    seq(|record.blocks|, i requires 0 <= i < |record.blocks| => record.blocks[i].keyIndexId)
  }

  /** The key set of a key sequence. */
  ghost function KeySet(keys: seq<int>): set<int>
  {
    set k | k in keys
  }

  /** Adding a record's keys to the chain's seen-set, one duplicate finding
      for every key already present. */
  datatype KeyScan = KeyScan(findings: seq<Finding>, seen: set<int>)

  function ScanKeys(keys: seq<int>, seen: set<int>): KeyScan
  {
    if keys == [] then KeyScan([], seen)
    else if keys[0] in seen then
      var rest := ScanKeys(keys[1..], seen);
      KeyScan([PropertyKeyNotUniqueInChain] + rest.findings, rest.seen)
    else ScanKeys(keys[1..], seen + {keys[0]})
  }

  /** The chain's records in turn: a not-in-use record is reported and its
      keys are skipped; an in-use record's keys go through `ScanKeys`. */
  datatype ChainScan = ChainScan(findings: seq<Finding>, seen: set<int>)

  function ScanChain(props: seq<PropertyRecord>, seen: set<int>): ChainScan
  {
    if props == [] then ChainScan([], seen)
    else if !props[0].inUse then
      var rest := ScanChain(props[1..], seen);
      ChainScan([PropertyNotInUse(props[0])] + rest.findings, rest.seen)
    else
      var keys := ScanKeys(Keys(props[0]), seen);
      var rest := ScanChain(props[1..], keys.seen);
      ChainScan(keys.findings + rest.findings, rest.seen)
  }

  /** `checkProperty`. The chain reader returns at least the head record
      whenever the node has a property chain. */
  function CheckProperty(node: NodeRecord, props: seq<PropertyRecord>): (findings: seq<Finding>)
    requires node.nextProp != NoNextProperty ==> |props| > 0
    ensures node.nextProp == NoNextProperty ==> findings == []
    ensures forall f | f in findings :: !IsIndexFinding(f)
    ensures node.nextProp != NoNextProperty ==>
              forall f | f in findings && f.PropertyNotFirstInChain? :: f.record == props[0]
  {
    if node.nextProp == NoNextProperty then []
    else
      var first := props[0];
      ScanChainOnlyChainFindings(props, {});
      (if first.prevProp != NoPreviousProperty then [PropertyNotFirstInChain(first)] else [])
        + ScanChain(props, {}).findings
  }

  lemma {:induction false} ScanKeysOnlyDuplicates(keys: seq<int>, seen: set<int>)
    ensures forall f | f in ScanKeys(keys, seen).findings :: f == PropertyKeyNotUniqueInChain
  {
    if keys != [] {
      ScanKeysOnlyDuplicates(keys[1..], if keys[0] in seen then seen else seen + {keys[0]});
    }
  }

  lemma {:induction false} ScanChainOnlyChainFindings(props: seq<PropertyRecord>, seen: set<int>)
    ensures forall f | f in ScanChain(props, seen).findings :: f.PropertyNotInUse? || f == PropertyKeyNotUniqueInChain
  {
    if props != [] {
      if props[0].inUse {
        ScanKeysOnlyDuplicates(Keys(props[0]), seen);
        ScanChainOnlyChainFindings(props[1..], ScanKeys(Keys(props[0]), seen).seen);
      } else {
        ScanChainOnlyChainFindings(props[1..], seen);
      }
    }
  }

  // Counting findings by kind.

  function CountNotFirst(findings: seq<Finding>): nat
  {
    if findings == [] then 0
    else (if findings[0].PropertyNotFirstInChain? then 1 else 0) + CountNotFirst(findings[1..])
  }

  function CountKeyNotUnique(findings: seq<Finding>): nat
  {
    if findings == [] then 0
    else (if findings[0].PropertyKeyNotUniqueInChain? then 1 else 0) + CountKeyNotUnique(findings[1..])
  }

  /** The records named by the not-in-use findings, in order. */
  function ReportedNotInUse(findings: seq<Finding>): seq<PropertyRecord>
  {
    if findings == [] then []
    else (if findings[0].PropertyNotInUse? then [findings[0].record] else []) + ReportedNotInUse(findings[1..])
  }

  /** The chain's records that are not in use, in chain order. */
  function NotInUseRecords(props: seq<PropertyRecord>): seq<PropertyRecord>
  {
    if props == [] then [] else (if props[0].inUse then [] else [props[0]]) + NotInUseRecords(props[1..])
  }

  /** Every key occurrence in the chain's in-use records, in chain order. */
  function InUseKeys(props: seq<PropertyRecord>): seq<int>
  {
    if props == [] then [] else (if props[0].inUse then Keys(props[0]) else []) + InUseKeys(props[1..])
  }

  lemma {:induction false} CountsDistribute(a: seq<Finding>, b: seq<Finding>)
    ensures CountNotFirst(a + b) == CountNotFirst(a) + CountNotFirst(b)
    ensures CountKeyNotUnique(a + b) == CountKeyNotUnique(a) + CountKeyNotUnique(b)
    ensures ReportedNotInUse(a + b) == ReportedNotInUse(a) + ReportedNotInUse(b)
  {
    if a != [] {
      assert (a + b)[0] == a[0];
      assert (a + b)[1..] == a[1..] + b;
      CountsDistribute(a[1..], b);
    } else {
      assert a + b == b;
    }
  }

  lemma {:induction false} KeySetOfConcat(a: seq<int>, b: seq<int>)
    ensures KeySet(a + b) == KeySet(a) + KeySet(b)
  {
    forall k | k in KeySet(a + b) ensures k in KeySet(a) + KeySet(b) {
      var i :| 0 <= i < |a + b| && (a + b)[i] == k;
      if i < |a| { assert a[i] == k; } else { assert b[i - |a|] == k; }
    }
    forall k | k in KeySet(a) + KeySet(b) ensures k in KeySet(a + b) {
      if k in KeySet(a) {
        var i :| 0 <= i < |a| && a[i] == k;
        assert (a + b)[i] == k;
      } else {
        var i :| 0 <= i < |b| && b[i] == k;
        assert (a + b)[|a| + i] == k;
      }
    }
  }

  /** How the key set of `k` followed by `rest` splits against `seen`. */
  lemma NewKeysOfCons(k: int, rest: seq<int>, seen: set<int>)
    ensures k in seen ==> KeySet([k] + rest) - seen == KeySet(rest) - seen
    ensures k !in seen ==> |KeySet([k] + rest) - seen| == 1 + |KeySet(rest) - (seen + {k})|
  {
    KeySetOfConcat([k], rest);
    assert KeySet([k]) == {k};
    if k !in seen {
      var newKeys := KeySet(rest) - (seen + {k});
      assert KeySet([k] + rest) - seen == {k} + newKeys;
    }
  }

  /** Scanning keys against a seen-set reports one duplicate per occurrence
      that is not new, and adds all of them to the set. */
  lemma {:induction false} ScanKeysCounts(keys: seq<int>, seen: set<int>)
    ensures CountKeyNotUnique(ScanKeys(keys, seen).findings) + |KeySet(keys) - seen| == |keys|
    ensures ScanKeys(keys, seen).seen == seen + KeySet(keys)
  {
    if keys == [] {
      assert KeySet(keys) == {};
    } else {
      var k := keys[0];
      assert keys == [k] + keys[1..];
      NewKeysOfCons(k, keys[1..], seen);
      KeySetOfConcat([k], keys[1..]);
      assert KeySet([k]) == {k};
      if k in seen {
        ScanKeysCounts(keys[1..], seen);
        CountsDistribute([PropertyKeyNotUniqueInChain], ScanKeys(keys[1..], seen).findings);
      } else {
        ScanKeysCounts(keys[1..], seen + {k});
      }
    }
  }

  /** The chain scan reports exactly the not-in-use records, and as many
      duplicate-key findings as in-use key occurrences that are not new. */
  lemma {:induction false} ScanChainCounts(props: seq<PropertyRecord>, seen: set<int>)
    ensures ReportedNotInUse(ScanChain(props, seen).findings) == NotInUseRecords(props)
    ensures CountKeyNotUnique(ScanChain(props, seen).findings) + |KeySet(InUseKeys(props)) - seen| == |InUseKeys(props)|
    ensures CountNotFirst(ScanChain(props, seen).findings) == 0
    ensures ScanChain(props, seen).seen == seen + KeySet(InUseKeys(props))
  {
    if props != [] {
      var p := props[0];
      if !p.inUse {
        ScanChainCounts(props[1..], seen);
        var rest := ScanChain(props[1..], seen);
        CountsDistribute([PropertyNotInUse(p)], rest.findings);
        assert InUseKeys(props) == InUseKeys(props[1..]);
      } else {
        var keys := ScanKeys(Keys(p), seen);
        ScanKeysCounts(Keys(p), seen);
        ScanKeysOnlyDuplicates(Keys(p), seen);
        ScanChainCounts(props[1..], keys.seen);
        var rest := ScanChain(props[1..], keys.seen);
        CountsDistribute(keys.findings, rest.findings);
        OnlyDuplicatesCounts(keys.findings);
        assert InUseKeys(props) == Keys(p) + InUseKeys(props[1..]);
        SplitNewKeys(Keys(p), InUseKeys(props[1..]), seen);
        KeySetOfConcat(Keys(p), InUseKeys(props[1..]));
      }
    }
  }

  /** The keys of `a + b` new to `seen` are those of `a` new to `seen` and
      those of `b` new to both. */
  lemma SplitNewKeys(a: seq<int>, b: seq<int>, seen: set<int>)
    ensures |KeySet(a + b) - seen| == |KeySet(a) - seen| + |KeySet(b) - (seen + KeySet(a))|
  {
    KeySetOfConcat(a, b);
    var x := KeySet(a) - seen;
    var y := KeySet(b) - (seen + KeySet(a));
    assert KeySet(a + b) - seen == x + y;
    assert x !! y;
  }

  lemma {:induction false} OnlyDuplicatesCounts(findings: seq<Finding>)
    requires forall f | f in findings :: f == PropertyKeyNotUniqueInChain
    ensures CountNotFirst(findings) == 0
    ensures ReportedNotInUse(findings) == []
  {
    if findings != [] {
      assert findings[0] in findings;
      assert forall f | f in findings[1..] :: f in findings;
      OnlyDuplicatesCounts(findings[1..]);
    }
  }

  /** The chain findings of a node with a property chain: one "not first in
      chain" exactly when the head record has a previous pointer, one "not in
      use" per not-in-use record, and as many duplicate-key findings as there
      are in-use key occurrences beyond the distinct keys. */
  lemma ChainFindings(node: NodeRecord, props: seq<PropertyRecord>)
    requires node.nextProp != NoNextProperty && |props| > 0
    ensures var findings := CheckProperty(node, props);
      && CountNotFirst(findings) == (if props[0].prevProp != NoPreviousProperty then 1 else 0)
      && ReportedNotInUse(findings) == NotInUseRecords(props)
      && CountKeyNotUnique(findings) == |InUseKeys(props)| - |KeySet(InUseKeys(props))|
      && forall f | f in findings && f.PropertyNotFirstInChain? :: f.record == props[0]
  {
    var first := props[0];
    ScanChainOnlyChainFindings(props, {});
    var head := if first.prevProp != NoPreviousProperty then [PropertyNotFirstInChain(first)] else [];
    ScanChainCounts(props, {});
    CountsDistribute(head, ScanChain(props, {}).findings);
    assert KeySet(InUseKeys(props)) - {} == KeySet(InUseKeys(props));
  }

  /** No key occurs twice. */
  ghost predicate Distinct(keys: seq<int>)
  {
    forall i, j | 0 <= i < j < |keys| :: keys[i] != keys[j]
  }

  lemma DistinctCons(keys: seq<int>)
    requires keys != []
    ensures Distinct(keys) <==> keys[0] !in keys[1..] && Distinct(keys[1..])
  {
    var rest := keys[1..];
    if keys[0] in rest {
      var j :| 0 <= j < |rest| && rest[j] == keys[0];
      assert keys[j + 1] == keys[0];
    }
    if Distinct(keys) {
      forall i, j | 0 <= i < j < |rest| ensures rest[i] != rest[j] {
        assert rest[i] == keys[i + 1] && rest[j] == keys[j + 1];
      }
    }
    if keys[0] !in rest && Distinct(rest) {
      forall i, j | 0 <= i < j < |keys| ensures keys[i] != keys[j] {
        assert keys[j] == rest[j - 1];
        if i > 0 { assert keys[i] == rest[i - 1]; }
      }
    }
  }

  lemma KeySetCons(keys: seq<int>)
    requires keys != []
    ensures KeySet(keys) == {keys[0]} + KeySet(keys[1..])
  {
    KeySetOfConcat([keys[0]], keys[1..]);
    assert keys == [keys[0]] + keys[1..];
    assert KeySet([keys[0]]) == {keys[0]};
  }

  /** The key set of a sequence is as large as the sequence exactly when no
      key repeats. */
  lemma {:induction false} KeySetSizeIffDistinct(keys: seq<int>)
    ensures |KeySet(keys)| <= |keys|
    ensures |KeySet(keys)| == |keys| <==> Distinct(keys)
  {
    if keys != [] {
      var rest := keys[1..];
      KeySetSizeIffDistinct(rest);
      KeySetCons(keys);
      DistinctCons(keys);
      if keys[0] in rest {
        assert keys[0] in KeySet(rest);
        assert KeySet(keys) == KeySet(rest);
      } else {
        assert keys[0] !in KeySet(rest);
        assert |KeySet(keys)| == 1 + |KeySet(rest)|;
      }
    }
  }

  /** A chain reports no duplicate key exactly when no key occurs twice
      among its in-use records. */
  lemma ChainKeysUniqueIffNoDuplicateFinding(node: NodeRecord, props: seq<PropertyRecord>)
    requires node.nextProp != NoNextProperty && |props| > 0
    ensures CountKeyNotUnique(CheckProperty(node, props)) == 0
        <==> forall i, j | 0 <= i < j < |InUseKeys(props)| :: InUseKeys(props)[i] != InUseKeys(props)[j]
  {
    ChainFindings(node, props);
    KeySetSizeIffDistinct(InUseKeys(props));
  }

  // ---------------------------------------------------------------------
  // The whole node check
  // ---------------------------------------------------------------------

  /** The result of checking one node: every finding reported, or, when an
      index provider refused an exact query, the findings reported before
      the resulting runtime error and the refused query. */
  datatype CheckOutcome = Completed(findings: seq<Finding>) | Aborted(reported: seq<Finding>, unsupportedQuery: seq<IndexQuery>)

  /** `check`: index findings first (when there are indexes), then the
      chain findings. `labels` is what the label reader returns for the node
      and `chain` what the property reader returns for its chain. */
  function Check(node: NodeRecord, labels: set<int>, chain: seq<PropertyRecord>, indexes: Option<IndexAccessors>): (outcome: CheckOutcome)
    requires node.nextProp != NoNextProperty ==> |chain| > 0
    ensures indexes.None? ==> outcome == Completed(CheckProperty(node, chain))
    ensures outcome.Completed? ==>
              var chainFindings := CheckProperty(node, chain);
              && |chainFindings| <= |outcome.findings|
              && outcome.findings[|outcome.findings| - |chainFindings|..] == chainFindings
              && forall i | 0 <= i < |outcome.findings| - |chainFindings| :: IsIndexFinding(outcome.findings[i])
    ensures outcome.Aborted? ==> indexes.Some? && forall f | f in outcome.reported :: IsIndexFinding(f)
    ensures indexes.Some? ==>
              var m := Properties(PropertyBlocks(chain));
              var applicable := ApplicableRules(indexes.value.rules, labels, m);
              var outcomes := RuleOutcomes(node.id, applicable, m, indexes.value);
              var k := FirstRefused(outcomes);
              && (outcome.Completed? <==> k == |applicable|)
              && (outcome.Completed? ==> outcome.findings == CheckedFindings(outcomes) + CheckProperty(node, chain))
              && (outcome.Aborted? ==>
                    && outcome.reported == CheckedFindings(outcomes[..k])
                    && k < |applicable|
                    && CheckIndexRule(node.id, applicable[k], m, indexes.value) == RuleFailed(outcome.unsupportedQuery))
  {
    if indexes.None? then Completed(CheckProperty(node, chain))
    else
      var pass := MatchIndexesToNode(node, labels, chain, indexes.value);
      if pass.unsupportedQuery.Some? then Aborted(pass.findings, pass.unsupportedQuery.value)
      else
        var outcomes := RuleOutcomes(node.id, ApplicableRules(indexes.value.rules, labels, Properties(PropertyBlocks(chain))),
                                     Properties(PropertyBlocks(chain)), indexes.value);
        assert outcomes[..|outcomes|] == outcomes;
        var findings := pass.findings + CheckProperty(node, chain);
        assert forall i | 0 <= i < |pass.findings| :: pass.findings[i] in pass.findings;
        Completed(findings)
  }

  // ---------------------------------------------------------------------
  // The documented scenarios: a node with label 5 and properties 1 and 2
  // (values 1 and 2), checked against a unique index on (5; 1, 2)
  // ---------------------------------------------------------------------

  const ScenarioRule := IndexRule(0, NodeSchemaMatcher.LabelSchemaDescriptor(5, [1, 2]), true)
  const ScenarioValues := [Value([1]), Value([2])]
  const ScenarioNode := NodeRecord(7, 100)
  const ScenarioChain := [PropertyRecord(100, true, NoPreviousProperty, NoNextProperty,
                                         [PropertyBlock(1, Value([1])), PropertyBlock(2, Value([2]))])]

  /** The scenario chain is well formed, and its property map holds both
      keys with their values. */
  lemma ScenarioChainFacts()
    ensures CheckProperty(ScenarioNode, ScenarioChain) == []
    ensures var m := Properties(PropertyBlocks(ScenarioChain));
      && NodeHasSchemaProperties(m, [1, 2])
      && GetPropertyValues(m, [1, 2]) == ScenarioValues
  {
    var blocks := PropertyBlocks(ScenarioChain);
    assert PropertyBlocks(ScenarioChain[1..]) == [] by {
      assert ScenarioChain[1..] == [];
    }
    assert blocks == ScenarioChain[0].blocks + [];
    var m := Properties(blocks);
    assert m == map[1 := blocks[0], 2 := blocks[1]] by {
      assert blocks[..1] == [blocks[0]];
      assert blocks[..1][..0] == [];
    }
    assert Keys(ScenarioChain[0]) == [1, 2];
    assert ScanChain(ScenarioChain, {}).findings == [] by {
      assert ScanKeys([1, 2], {}).findings == [];
      assert ScenarioChain[1..] == [];
    }
  }

  /** Checking the scenario node: the unique rule's findings, then nothing
      from the chain. */
  lemma ScenarioCheck(index: IndexAccessors, hits: seq<int>)
    requires index.rules == [ScenarioRule]
    requires index.query(ScenarioRule, [Exact(1, Value([1])), Exact(2, Value([2]))]) == Hits(hits)
    ensures var scan := ScanHits(ScenarioNode.id, ScenarioValues, ScenarioRule, hits);
      Check(ScenarioNode, {5}, ScenarioChain, Some(index))
        == Completed(scan.findings + ReportIncorrectIndexCount(ScenarioValues, ScenarioRule, scan.count))
  {
    ScenarioChainFacts();
    var rule := ScenarioRule;
    var blocks := PropertyBlocks(ScenarioChain);
    var m := Properties(blocks);
    var scan := ScanHits(ScenarioNode.id, ScenarioValues, rule, hits);
    var findings := scan.findings + ReportIncorrectIndexCount(ScenarioValues, rule, scan.count);
    assert Seek(rule.schema, ScenarioValues) == [Exact(1, Value([1])), Exact(2, Value([2]))];
    assert VerifyNodeCorrectlyIndexedUniquely(ScenarioNode.id, ScenarioValues, rule, index) == RuleChecked(findings, true);
    assert CheckIndexRule(ScenarioNode.id, rule, m, index) == RuleChecked(findings, true);
    assert [rule][1..] == [];
    assert MatchRules(ScenarioNode.id, {5}, [], blocks, Some(m), index) == IndexPass([], 0, [], None);
    assert MatchRules(ScenarioNode.id, {5}, [rule], blocks, None, index) == IndexPass(findings + [], 1, [rule] + [], None);
    assert findings + [] == findings;
    assert Check(ScenarioNode, {5}, ScenarioChain, Some(index)) == Completed(findings + []);
  }

  lemma ScanHitsExamples(other: int)
    requires other != ScenarioNode.id
    ensures ScanHits(ScenarioNode.id, ScenarioValues, ScenarioRule, []) == HitScan([], 0)
    ensures ScanHits(ScenarioNode.id, ScenarioValues, ScenarioRule, [ScenarioNode.id, ScenarioNode.id]) == HitScan([], 2)
    ensures ScanHits(ScenarioNode.id, ScenarioValues, ScenarioRule, [other])
         == HitScan([UniqueIndexNotUnique(ScenarioRule, ScenarioValues, other)], 0)
  {
    assert [other][..0] == [];
    assert [ScenarioNode.id, ScenarioNode.id][..1] == [ScenarioNode.id];
    assert [ScenarioNode.id][..0] == [];
  }

  /** With no entry for the node's values the check reports exactly one
      "not indexed"; with two entries for the node, exactly one "indexed
      multiple times" with count 2; with one entry for another node, a
      uniqueness violation naming that node and a "not indexed". */
  lemma UniqueIndexScenarios(index: IndexAccessors, hits: seq<int>, other: int)
    requires index.rules == [ScenarioRule]
    requires index.query(ScenarioRule, [Exact(1, Value([1])), Exact(2, Value([2]))]) == Hits(hits)
    requires other != ScenarioNode.id
    ensures hits == [] ==>
      Check(ScenarioNode, {5}, ScenarioChain, Some(index)) == Completed([NotIndexed(ScenarioRule, ScenarioValues)])
    ensures hits == [ScenarioNode.id, ScenarioNode.id] ==>
      Check(ScenarioNode, {5}, ScenarioChain, Some(index)) == Completed([IndexedMultipleTimes(ScenarioRule, ScenarioValues, 2)])
    ensures hits == [other] ==>
      Check(ScenarioNode, {5}, ScenarioChain, Some(index))
        == Completed([UniqueIndexNotUnique(ScenarioRule, ScenarioValues, other), NotIndexed(ScenarioRule, ScenarioValues)])
  {
    ScenarioCheck(index, hits);
    ScanHitsExamples(other);
    if hits == [] {
      NoHitScenario();
    } else if hits == [ScenarioNode.id, ScenarioNode.id] {
      TwoOwnHitsScenario();
    } else if hits == [other] {
      ForeignHitScenario(other);
    }
  }

  lemma NoHitScenario()
    ensures var scan := ScanHits(ScenarioNode.id, ScenarioValues, ScenarioRule, []);
      scan.findings + ReportIncorrectIndexCount(ScenarioValues, ScenarioRule, scan.count)
        == [NotIndexed(ScenarioRule, ScenarioValues)]
  {
    ScanHitsExamples(ScenarioNode.id + 1);
    assert [] + [NotIndexed(ScenarioRule, ScenarioValues)] == [NotIndexed(ScenarioRule, ScenarioValues)];
  }

  lemma TwoOwnHitsScenario()
    ensures var scan := ScanHits(ScenarioNode.id, ScenarioValues, ScenarioRule, [ScenarioNode.id, ScenarioNode.id]);
      scan.findings + ReportIncorrectIndexCount(ScenarioValues, ScenarioRule, scan.count)
        == [IndexedMultipleTimes(ScenarioRule, ScenarioValues, 2)]
  {
    ScanHitsExamples(ScenarioNode.id + 1);
    assert [] + [IndexedMultipleTimes(ScenarioRule, ScenarioValues, 2)] == [IndexedMultipleTimes(ScenarioRule, ScenarioValues, 2)];
  }

  lemma ForeignHitScenario(other: int)
    requires other != ScenarioNode.id
    ensures var scan := ScanHits(ScenarioNode.id, ScenarioValues, ScenarioRule, [other]);
      scan.findings + ReportIncorrectIndexCount(ScenarioValues, ScenarioRule, scan.count)
        == [UniqueIndexNotUnique(ScenarioRule, ScenarioValues, other), NotIndexed(ScenarioRule, ScenarioValues)]
  {
    ScanHitsExamples(other);
  }
}
