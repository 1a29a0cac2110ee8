/** The store records, index rules and inconsistency findings that the
    node/index consistency check works on. */
module Records {
  import opened NodeSchemaMatcher

  /** The null reference in a record's next-property / previous-property
      pointer (`Record.NO_NEXT_PROPERTY`, `Record.NO_PREVIOUS_PROPERTY`). */
  const NoNextProperty: int := -1
  const NoPreviousProperty: int := -1

  /** A decoded property value. Its encoding in the property store is not
      modelled; values are only compared for equality. */
  datatype Value = Value(payload: seq<int>)

  /** One property of a property record: its key token id and its value. */
  datatype PropertyBlock = PropertyBlock(keyIndexId: int, value: Value)

  /** A property record: one link of a node's doubly-linked property chain. */
  datatype PropertyRecord = PropertyRecord(id: int, inUse: bool, prevProp: int, nextProp: int, blocks: seq<PropertyBlock>)

  /** The part of a node record the check reads: its id and the head of its
      property chain. The node's labels come from a label reader. */
  datatype NodeRecord = NodeRecord(id: int, nextProp: int)

  /** An index rule: its schema, and whether it can back a uniqueness
      constraint (then it is checked with an exact query). */
  datatype IndexRule = IndexRule(id: int, schema: LabelSchemaDescriptor, canSupportUniqueConstraint: bool)

  /** `IndexQuery.exact(propertyKeyId, value)`. */
  datatype IndexQuery = Exact(propertyKeyId: int, value: Value)

  /** The inconsistencies a node check reports. */
  datatype Finding =
    | UniqueIndexNotUnique(rule: IndexRule, values: seq<Value>, indexedNodeId: int)
    | NotIndexed(rule: IndexRule, values: seq<Value>)
    | IndexedMultipleTimes(rule: IndexRule, values: seq<Value>, count: nat)
    | PropertyNotFirstInChain(record: PropertyRecord)
    | PropertyNotInUse(record: PropertyRecord)
    | PropertyKeyNotUniqueInChain

  /** Findings about the node's index entries (as opposed to its chain). */
  predicate IsIndexFinding(f: Finding)
  {
    f.UniqueIndexNotUnique? || f.NotIndexed? || f.IndexedMultipleTimes?
  }
}
