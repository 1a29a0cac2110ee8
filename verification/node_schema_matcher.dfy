/** Matching of label schema descriptors to a node: a descriptor applies to a
    node when the node carries the descriptor's label and a value for every
    property key of the descriptor. The node's property keys are read at
    most once per call, and only after some descriptor's label matched. */
module NodeSchemaMatcher {
  import opened Results

  /** A schema on one label and an ordered list of property keys. */
  datatype LabelSchemaDescriptor = LabelSchemaDescriptor(labelId: int, propertyIds: seq<int>)

  /** Reference reading of the property rule: every key of the index is
      either the exempt (changed) key or one of the node's keys. */
  ghost predicate CoversSchema(nodeProperties: set<int>, indexPropertyIds: seq<int>, changedPropertyId: int)
  {
    forall i | 0 <= i < |indexPropertyIds| ::
      indexPropertyIds[i] == changedPropertyId || indexPropertyIds[i] in nodeProperties
  }

  /** The loop over the index's keys, returning false at the first key that
      is neither the changed key nor present on the node. */
  function NodeHasSchemaProperties(nodeProperties: set<int>, indexPropertyIds: seq<int>, changedPropertyId: int): (r: bool)
    ensures r <==> CoversSchema(nodeProperties, indexPropertyIds, changedPropertyId)
  {
    if |indexPropertyIds| == 0 then true
    else if indexPropertyIds[0] != changedPropertyId && indexPropertyIds[0] !in nodeProperties then false
    else NodeHasSchemaProperties(nodeProperties, indexPropertyIds[1..], changedPropertyId)
  }

  /** An index without property keys matches every node that has its label. */
  lemma EmptySchemaAlwaysMatches(nodeProperties: set<int>, changedPropertyId: int)
    ensures NodeHasSchemaProperties(nodeProperties, [], changedPropertyId)
  {
  }

  /** Giving the node more property keys never turns a match into a miss. */
  lemma {:induction false} MoreKeysKeepMatch(smaller: set<int>, larger: set<int>, indexPropertyIds: seq<int>, changedPropertyId: int)
    requires smaller <= larger
    requires NodeHasSchemaProperties(smaller, indexPropertyIds, changedPropertyId)
    ensures NodeHasSchemaProperties(larger, indexPropertyIds, changedPropertyId)
  {
    if |indexPropertyIds| > 0 {
      MoreKeysKeepMatch(smaller, larger, indexPropertyIds[1..], changedPropertyId);
    }
  }

  /** When the changed key is the only index key the node lacks, the
      descriptor still matches; a missing key that is not the changed one
      always makes it miss. */
  lemma OnlyChangedKeyMayBeMissing(nodeProperties: set<int>, indexPropertyIds: seq<int>, changedPropertyId: int)
    ensures NodeHasSchemaProperties(nodeProperties, indexPropertyIds, changedPropertyId)
        <==> (forall k | k in indexPropertyIds && k !in nodeProperties :: k == changedPropertyId)
  {
    if !NodeHasSchemaProperties(nodeProperties, indexPropertyIds, changedPropertyId) {
      var i :| 0 <= i < |indexPropertyIds|
        && indexPropertyIds[i] != changedPropertyId && indexPropertyIds[i] !in nodeProperties;
      assert indexPropertyIds[i] in indexPropertyIds;
    }
  }

  /** The full matching condition for one descriptor. */
  predicate Matches(schema: LabelSchemaDescriptor, nodeLabels: set<int>, nodeProperties: set<int>, changedPropertyId: int)
  {
    schema.labelId in nodeLabels
    && NodeHasSchemaProperties(nodeProperties, schema.propertyIds, changedPropertyId)
  }

  /** Reference definition: the suppliers of `suppliers` that match, in order. */
  ghost function MatchingSuppliers<S>(suppliers: seq<S>, schemaOf: S -> LabelSchemaDescriptor,
                                      nodeLabels: set<int>, nodeProperties: set<int>, changedPropertyId: int): seq<S>
  {
    if suppliers == [] then []
    else
      var last := suppliers[|suppliers| - 1];
      MatchingSuppliers(suppliers[..|suppliers| - 1], schemaOf, nodeLabels, nodeProperties, changedPropertyId)
        + (if Matches(schemaOf(last), nodeLabels, nodeProperties, changedPropertyId) then [last] else [])
  }

  /** Some supplier among the first `n` has a label the node carries. */
  ghost predicate SomeLabelMatches<S>(suppliers: seq<S>, schemaOf: S -> LabelSchemaDescriptor, nodeLabels: set<int>, n: int)
  {
    exists j | 0 <= j < n && j < |suppliers| :: schemaOf(suppliers[j]).labelId in nodeLabels
  }

  /** One more supplier: the matching ones among the first `i + 1`. */
  lemma MatchingSuppliersStep<S>(suppliers: seq<S>, schemaOf: S -> LabelSchemaDescriptor,
                                 nodeLabels: set<int>, nodeProperties: set<int>, changedPropertyId: int, i: int)
    requires 0 <= i < |suppliers|
    ensures MatchingSuppliers(suppliers[..i + 1], schemaOf, nodeLabels, nodeProperties, changedPropertyId)
         == MatchingSuppliers(suppliers[..i], schemaOf, nodeLabels, nodeProperties, changedPropertyId)
            + (if Matches(schemaOf(suppliers[i]), nodeLabels, nodeProperties, changedPropertyId) then [suppliers[i]] else [])
  {
    assert suppliers[..i + 1][..i] == suppliers[..i];
  }

  /** One more supplier: some label among the first `i + 1` matched. */
  lemma SomeLabelMatchesStep<S>(suppliers: seq<S>, schemaOf: S -> LabelSchemaDescriptor, nodeLabels: set<int>, i: int)
    requires 0 <= i < |suppliers|
    ensures SomeLabelMatches(suppliers, schemaOf, nodeLabels, i + 1)
        <==> SomeLabelMatches(suppliers, schemaOf, nodeLabels, i) || schemaOf(suppliers[i]).labelId in nodeLabels
  {
    if SomeLabelMatches(suppliers, schemaOf, nodeLabels, i + 1) && schemaOf(suppliers[i]).labelId !in nodeLabels {
      var j :| 0 <= j < i + 1 && j < |suppliers| && schemaOf(suppliers[j]).labelId in nodeLabels;
      assert j < i;
    }
  }

  /** What one call of `onMatchingSchema` did: the suppliers handed to the
      callback (in order), how many suppliers it pulled from the iterator,
      how many times it read the node's property keys, and whether the
      callback threw (the exception then propagates out of the call). */
  datatype MatchRun<S> = MatchRun(invoked: seq<S>, consumed: nat, propertyKeyReads: nat, thrown: bool)

  /** `onMatchingSchema`. The node is given by its labels and by the key set
      that `nodeGetPropertyKeys` would return; `callbackThrows` says for
      which suppliers the callback throws. */
  method OnMatchingSchema<S>(suppliers: seq<S>, schemaOf: S -> LabelSchemaDescriptor,
                             nodeLabels: set<int>, nodePropertyKeys: set<int>, specialPropertyId: int,
                             callbackThrows: S -> bool)
    returns (run: MatchRun<S>)
    ensures run.consumed <= |suppliers|
    ensures run.invoked
      == MatchingSuppliers(suppliers[..run.consumed], schemaOf, nodeLabels, nodePropertyKeys, specialPropertyId)
    ensures !run.thrown ==> run.consumed == |suppliers|
    ensures run.thrown ==>
              && 0 < run.consumed
              && callbackThrows(suppliers[run.consumed - 1])
              && |run.invoked| > 0
              && run.invoked[|run.invoked| - 1] == suppliers[run.consumed - 1]
    ensures forall i | 0 <= i < |run.invoked| - (if run.thrown then 1 else 0) :: !callbackThrows(run.invoked[i])
    ensures run.propertyKeyReads == if SomeLabelMatches(suppliers, schemaOf, nodeLabels, run.consumed) then 1 else 0
  {
    var nodePropertyIds: Option<set<int>> := None;
    var keyReads := 0;
    var invoked: seq<S> := [];
    var i := 0;
    while i < |suppliers|
      invariant 0 <= i <= |suppliers|
      invariant invoked == MatchingSuppliers(suppliers[..i], schemaOf, nodeLabels, nodePropertyKeys, specialPropertyId)
      invariant forall k | 0 <= k < |invoked| :: !callbackThrows(invoked[k])
      invariant nodePropertyIds.Some? ==> nodePropertyIds.value == nodePropertyKeys
      invariant nodePropertyIds.Some? <==> SomeLabelMatches(suppliers, schemaOf, nodeLabels, i)
      invariant keyReads == if nodePropertyIds.Some? then 1 else 0
    {
      var supplier := suppliers[i];
      var schema := schemaOf(supplier);
      MatchingSuppliersStep(suppliers, schemaOf, nodeLabels, nodePropertyKeys, specialPropertyId, i);
      SomeLabelMatchesStep(suppliers, schemaOf, nodeLabels, i);
      if schema.labelId in nodeLabels {
        if nodePropertyIds.None? {
          nodePropertyIds := Some(nodePropertyKeys);
          keyReads := keyReads + 1;
        }
        if NodeHasSchemaProperties(nodePropertyIds.value, schema.propertyIds, specialPropertyId) {
          invoked := invoked + [supplier];
          if callbackThrows(supplier) {
            return MatchRun(invoked, i + 1, keyReads, true);
          }
        }
      }
      i := i + 1;
    }
    assert suppliers[..i] == suppliers;
    return MatchRun(invoked, i, keyReads, false);
  }
}
