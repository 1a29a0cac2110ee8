# Node/index consistency rules of a graph store, and neighbouring pieces

This project is a Dafny model of several pieces of a graph database.

- **The node check of the full consistency checker.** For one node record it does two things.
  - It matches the index rules against the node. Rules are selected by the node's labels, and the node's key-to-block property map is built lazily, at most once.
  - It asks every applicable index whether the node is in it exactly once. Unique indexes get an exact query, and every hit on another node is a uniqueness violation. The other indexes are asked for a count.
  - It validates the node's property chain: the head has no previous record, every record is in use, and no key repeats among the in-use records.
- **The schema matcher that the check mirrors.** A descriptor applies when the node has the label and every key. One "changed" key is exempt. The node's keys are read at most once.
- **The id space of a record store across a crash.** Freed ids are reused. A sticky marker that is still set on reopen means the store is not ok. Deleting the id generator and making the store ok resumes allocation at the old high id.
- **The wire codec of lock results** in version 10 of the HA master protocol.
- **The lookup of the backup consistency check** by name ("none" / "full", ignoring case), and what NONE's run returns.
- **The DBMS listing procedures:** configuration settings filtered by a search string, and procedures and functions sorted by name.

The index engine, the label reader, the property chain reader and the consistency check service are oracles: function-typed parameters or plain inputs. Findings are a sequence of tagged values, so contracts can say exactly which findings a node gets.

Files (one module each):

- `results.dfy`: `Option` and `Result`.
- `strings.dfy`: ASCII case folding, substring search, and the order of `String.compareTo`.
- `sorting.dfy`: a sort by a string key.
- `records.dfy`: records, index rules and findings.
- `node_schema_matcher.dfy`
- `property_and_node_indexed_check.dfy`
- `id_space.dfy`
- `lock_result_codec.dfy`
- `consistency_check.dfy`
- `builtin_dbms_procedures.dfy`

Behaviour worth knowing, each stated as a lemma:

- **Empty lock-result message.** It is written as length 0, so it is read back as *no* message (`LockResultCodec.EmptyMessageIsLost`).
- **Short lock-result buffer.** The length word is read before the status ordinal is checked. A buffer shorter than five bytes is therefore an underflow even when its status byte is invalid.
- **A unique-index hit on another node.** One such hit gives two findings: a uniqueness violation naming that node, and a "not indexed" for the node itself (`PropertyAndNodeIndexedCheck.UniqueIndexScenarios`).

## Model

| member | source | states |
|---|---|---|
| PropertyAndNodeIndexedCheck.Properties | community/consistency-check/src/main/java/org/neo5j/consistency/checking/full/PropertyAndNodeIndexedCheck.java:210-218 | the map has an entry for the key of every block of the chain, and every entry maps a key to a block of the chain that carries that key |
| PropertyAndNodeIndexedCheck.LastBlockWins | community/consistency-check/src/main/java/org/neo5j/consistency/checking/full/PropertyAndNodeIndexedCheck.java:210-218 | when several blocks carry the same key, the map holds the last of them (later puts overwrite earlier ones) |
| PropertyAndNodeIndexedCheck.NodeHasSchemaProperties | community/consistency-check/src/main/java/org/neo5j/consistency/checking/full/PropertyAndNodeIndexedCheck.java:249-260 | true exactly when every key of the index is a key of the node's property map |
| PropertyAndNodeIndexedCheck.MirrorsSchemaMatcher | community/consistency-check/src/main/java/org/neo5j/consistency/checking/full/PropertyAndNodeIndexedCheck.java:81-83 | the checker's rule agrees with the schema matcher's rule on the map's key set when the exempt key is none of the index's keys |
| PropertyAndNodeIndexedCheck.GetPropertyValues | community/consistency-check/src/main/java/org/neo5j/consistency/checking/full/PropertyAndNodeIndexedCheck.java:199-208 | one value per index key, in the index's key order, each the value of the block the map holds for that key |
| PropertyAndNodeIndexedCheck.Seek | community/consistency-check/src/main/java/org/neo5j/consistency/checking/full/PropertyAndNodeIndexedCheck.java:220-229 | the query has one exact predicate per value, and predicate i pairs key i of the schema with value i |
| PropertyAndNodeIndexedCheck.QueryAlignedWithRuleKeys | community/consistency-check/src/main/java/org/neo5j/consistency/checking/full/PropertyAndNodeIndexedCheck.java:104-107 | for a node that has every key of the rule, the query is as long as the rule's key list, predicate i names key i, and its value is that of the last chain block carrying key i |
| PropertyAndNodeIndexedCheck.ReportIncorrectIndexCount | community/consistency-check/src/main/java/org/neo5j/consistency/checking/full/PropertyAndNodeIndexedCheck.java:153-164 | no finding exactly when the count is 1; count 0 gives exactly one "not indexed"; a count above 1 gives exactly one "indexed multiple times" carrying the count |
| PropertyAndNodeIndexedCheck.ScanHits | community/consistency-check/src/main/java/org/neo5j/consistency/checking/full/PropertyAndNodeIndexedCheck.java:135-148 | the count is the number of hits on the node itself; every finding is a uniqueness violation naming another node; the named nodes are, as a multiset, exactly the hits on other nodes |
| PropertyAndNodeIndexedCheck.QueryIndexOrEmpty | community/consistency-check/src/main/java/org/neo5j/consistency/checking/full/PropertyAndNodeIndexedCheck.java:231-247 | a query the provider does not support becomes an error carrying the query, never a finding; otherwise the index's hits are returned |
| PropertyAndNodeIndexedCheck.VerifyNodeCorrectlyIndexedUniquely | community/consistency-check/src/main/java/org/neo5j/consistency/checking/full/PropertyAndNodeIndexedCheck.java:127-151 | fails exactly when the provider refuses the exact query; otherwise the findings start with one uniqueness violation per hit on another node (the named nodes equal those hits as a multiset) and end with the 0/1/many classification of the node's own hits |
| PropertyAndNodeIndexedCheck.CheckIndexRule | community/consistency-check/src/main/java/org/neo5j/consistency/checking/full/PropertyAndNodeIndexedCheck.java:104-121 | a node lacking a key of the rule gets nothing and opens no reader; otherwise a unique rule's outcome is the exact-query check's, and any other rule's findings are the 0/1/many classification of `countIndexedNodes`; only a unique rule can fail (by a refused query); all findings are about this rule |
| PropertyAndNodeIndexedCheck.MatchRules | community/consistency-check/src/main/java/org/neo5j/consistency/checking/full/PropertyAndNodeIndexedCheck.java:94-124 | the property map is built once if some rule's label is on the node and not at all otherwise; readers are opened only for rules the node fully matches, and for all of them, in order, unless a query was refused; every finding is about a rule whose reader was opened |
| PropertyAndNodeIndexedCheck.MatchIndexesToNode | community/consistency-check/src/main/java/org/neo5j/consistency/checking/full/PropertyAndNodeIndexedCheck.java:85-125 | at most one build of the property map, and one exactly when some rule's label is on the node; the findings are those of the applicable rules, each checked on its own, concatenated in rule order up to the first refused query; a refused query is the one of the first applicable rule whose check is refused, and the readers are the applicable rules up to and including it (all of them when nothing is refused) |
| PropertyAndNodeIndexedCheck.MatchRulesFollowsReference | community/consistency-check/src/main/java/org/neo5j/consistency/checking/full/PropertyAndNodeIndexedCheck.java:94-124 | visiting every rule with the lazily built map agrees with the reference that checks only the applicable rules in order: the same findings, the same refused query, and the same readers |
| PropertyAndNodeIndexedCheck.UnlabelledRulesChangeNothing | community/consistency-check/src/main/java/org/neo5j/consistency/checking/full/PropertyAndNodeIndexedCheck.java:96-98 | removing the rules whose label the node lacks changes nothing: not the findings, not the readers, not the number of map builds |
| PropertyAndNodeIndexedCheck.NoLabelledRuleNoWork | community/consistency-check/src/main/java/org/neo5j/consistency/checking/full/PropertyAndNodeIndexedCheck.java:93-102 | a node carrying none of the rules' labels gets no findings, opens no reader and never has its property map built |
| PropertyAndNodeIndexedCheck.CheckProperty | community/consistency-check/src/main/java/org/neo5j/consistency/checking/full/PropertyAndNodeIndexedCheck.java:166-197 | a node without a property chain gets no chain findings at all; the chain check never reports an index finding; a "not first in chain" finding names the head record |
| PropertyAndNodeIndexedCheck.ScanKeysCounts | community/consistency-check/src/main/java/org/neo5j/consistency/checking/full/PropertyAndNodeIndexedCheck.java:187-193 | scanning a record's keys reports one duplicate per key occurrence that is not new to the seen-set, and adds every key to the seen-set |
| PropertyAndNodeIndexedCheck.ScanChainCounts | community/consistency-check/src/main/java/org/neo5j/consistency/checking/full/PropertyAndNodeIndexedCheck.java:178-195 | the scan names exactly the not-in-use records, in chain order; it skips their keys; it reports one duplicate per in-use key occurrence that is not new; it reports no "not first in chain" |
| PropertyAndNodeIndexedCheck.ChainFindings | community/consistency-check/src/main/java/org/neo5j/consistency/checking/full/PropertyAndNodeIndexedCheck.java:170-195 | for a node with a chain: one "not first in chain" exactly when the head has a previous pointer, whatever the rest of the chain is, and it names the head record; one "not in use" per not-in-use record; duplicate-key findings equal in-use key occurrences minus distinct in-use keys |
| PropertyAndNodeIndexedCheck.ChainKeysUniqueIffNoDuplicateFinding | community/consistency-check/src/main/java/org/neo5j/consistency/checking/full/PropertyAndNodeIndexedCheck.java:178-195 | no duplicate-key finding exactly when no key occurs twice among the in-use records of the chain |
| PropertyAndNodeIndexedCheck.Check | community/consistency-check/src/main/java/org/neo5j/consistency/checking/full/PropertyAndNodeIndexedCheck.java:67-79 | without indexes only the chain is checked; otherwise the check completes exactly when no applicable rule's query is refused, and then its findings are the applicable rules' findings in rule order followed by the chain findings; an aborted check reports the findings of the applicable rules before the first refused one, and carries that rule's refused query |
| PropertyAndNodeIndexedCheck.UniqueIndexScenarios | community/consistency-check/src/main/java/org/neo5j/consistency/checking/full/PropertyAndNodeIndexedCheck.java:127-164 | on a unique index, for a node with a well-formed chain: no hit gives exactly "not indexed"; two hits on the node give exactly "indexed multiple times" with count 2; one hit on another node F gives a uniqueness violation naming F and then "not indexed" |
| NodeSchemaMatcher.NodeHasSchemaProperties | community/kernel/src/main/java/org/neo5j/kernel/impl/api/schema/NodeSchemaMatcher.java:92-103 | true exactly when every index key either is the changed key or is one of the node's keys |
| NodeSchemaMatcher.EmptySchemaAlwaysMatches | community/kernel/src/main/java/org/neo5j/kernel/impl/api/schema/NodeSchemaMatcher.java:95-102 | a descriptor without keys matches every key set |
| NodeSchemaMatcher.MoreKeysKeepMatch | community/kernel/src/main/java/org/neo5j/kernel/impl/api/schema/NodeSchemaMatcher.java:95-102 | giving the node more keys never turns a match into a miss |
| NodeSchemaMatcher.OnlyChangedKeyMayBeMissing | community/kernel/src/main/java/org/neo5j/kernel/impl/api/schema/NodeSchemaMatcher.java:97 | a descriptor matches exactly when every index key the node lacks is the changed key |
| NodeSchemaMatcher.OnMatchingSchema | community/kernel/src/main/java/org/neo5j/kernel/impl/api/schema/NodeSchemaMatcher.java:63-90 | the callback runs once for each supplier whose label is on the node and whose keys the node has, in iteration order; a throwing callback stops the iteration at that supplier; the node's keys are read once if some supplier's label matched and never otherwise |
| IdSpace.Create | community/kernel/src/test/java/org/neo5j/kernel/impl/store/FreeIdsAfterRecoveryTest.java:72 | a new generator starts at the given high id with nothing to reuse |
| IdSpace.FreeId | community/kernel/src/test/java/org/neo5j/kernel/impl/store/FreeIdsAfterRecoveryTest.java:73-76 | a freed id (below the high id) becomes reusable; the high id, the store-ok flag and the other reusable ids are unchanged, and every reusable id stays below the high id |
| IdSpace.FreeAllKeepsHighId | community/kernel/src/test/java/org/neo5j/kernel/impl/store/FreeIdsAfterRecoveryTest.java:73-76 | freeing a run of ids keeps the high id and the store-ok flag, and adds exactly those ids to the reusable ones |
| IdSpace.NextId | community/kernel/src/test/java/org/neo5j/kernel/impl/store/FreeIdsAfterRecoveryTest.java:65-67 | the lowest reusable id is handed out when there is one (the high id stays); otherwise the high id is handed out and grows by one; the id handed out is no longer reusable |
| IdSpace.Close | community/kernel/src/test/java/org/neo5j/kernel/impl/store/FreeIdsAfterRecoveryTest.java:77 | an orderly close writes the high id and the reusable ids to the file and leaves the sticky marker cleared |
| IdSpace.MarkAsSticky | community/kernel/src/test/java/org/neo5j/kernel/impl/store/FreeIdsAfterRecoveryTest.java:78-82 | the simulated crash sets the marker and keeps the high id and the free list, so a valid file stays valid |
| IdSpace.Open | community/kernel/src/test/java/org/neo5j/kernel/impl/store/FreeIdsAfterRecoveryTest.java:85-88 | the reopened store is ok exactly when the marker was cleared; a clean file's reusable ids are loaded, and with the marker set no freed id is trusted; the high id is kept |
| IdSpace.DeleteIdGenerator | community/kernel/src/test/java/org/neo5j/kernel/impl/store/FreeIdsAfterRecoveryTest.java:91 | the free-id state is dropped; the high id and the store-ok flag stay |
| IdSpace.MakeStoreOk | community/kernel/src/test/java/org/neo5j/kernel/impl/store/FreeIdsAfterRecoveryTest.java:93 | the store becomes ok, with its high id and reusable ids unchanged |
| IdSpace.CleanShutdownKeepsFreeIds | community/kernel/src/test/java/org/neo5j/kernel/impl/store/FreeIdsAfterRecoveryTest.java:77-88 | without a crash, close and reopen keep the reusable ids and the high id, and the store is ok |
| IdSpace.CrashRecoveryResumesAtHighId | community/kernel/src/test/java/org/neo5j/kernel/impl/store/FreeIdsAfterRecoveryTest.java:85-96 | for any ids freed before the crash, the reopened store is not ok, and after delete and make-ok the next id is the pre-crash high id, which is none of the freed ids |
| IdSpace.NothingFreeAllocatesUpward | community/kernel/src/test/java/org/neo5j/kernel/impl/store/FreeIdsAfterRecoveryTest.java:91-96 | a space with nothing to reuse hands out its high id and then consecutive ids after it |
| IdSpace.FreeIdsAfterRecoveryScenario | community/kernel/src/test/java/org/neo5j/kernel/impl/store/FreeIdsAfterRecoveryTest.java:55-97 | the test's scenario: high id 20 allocates 20 (high id 21); ids 0..14 are freed, closed, crashed; the reopened store is not ok, and the recovered store hands out 21 |
| LockResultCodec.StatusOf | enterprise/ha/src/main/java/org/neo5j/kernel/ha/MasterClient320.java:78-83 | an ordinal names a status exactly when it lies in [0, 3), and then names the status with that ordinal |
| LockResultCodec.ReadWriteInt | enterprise/ha/src/main/java/org/neo5j/kernel/ha/MasterClient320.java:67-74 | every 32-bit int read back after it is written is the same int |
| LockResultCodec.WriteReadInt | enterprise/ha/src/main/java/org/neo5j/kernel/ha/MasterClient320.java:67-74 | every four bytes written back after they are read are the same bytes |
| LockResultCodec.Serialize | enterprise/ha/src/main/java/org/neo5j/kernel/ha/MasterClient320.java:57-69 | the first byte read as a signed byte is the status ordinal; the next int is the message length, or 0 without a message; the message's code units can be read back from what follows |
| LockResultCodec.Deserialize | enterprise/ha/src/main/java/org/neo5j/kernel/ha/MasterClient320.java:71-92 | under five bytes is an underflow; otherwise an invalid ordinal is exactly an invalid-ordinal error; a result has the status of the ordinal byte and a message exactly when the length is positive; a message too long for the buffer is an underflow; the bytes after the message are returned unread |
| LockResultCodec.RoundTrip | enterprise/ha/src/main/java/org/neo5j/kernel/ha/MasterClient320.java:57-92 | a lock result without a message or with a non-empty one is read back unchanged from its encoding, and bytes after it are left unread |
| LockResultCodec.StatusSurvives | enterprise/ha/src/main/java/org/neo5j/kernel/ha/MasterClient320.java:57-92 | decoding an encoding always succeeds with the same status |
| LockResultCodec.EmptyMessageIsLost | enterprise/ha/src/main/java/org/neo5j/kernel/ha/MasterClient320.java:60-91 | an empty message is encoded like no message and read back as no message |
| LockResultCodec.BadOrdinalRejected | enterprise/ha/src/main/java/org/neo5j/kernel/ha/MasterClient320.java:73-83 | a status byte outside the ordinals is an invalid-ordinal error once the length has been read, whatever follows |
| LockResultCodec.NegativeOrdinalRejected | enterprise/ha/src/main/java/org/neo5j/kernel/ha/MasterClient320.java:73-83 | a status byte with the high bit set reads as a negative ordinal and is rejected |
| LockResultCodec.NonPositiveLengthHasNoMessage | enterprise/ha/src/main/java/org/neo5j/kernel/ha/MasterClient320.java:84-91 | a length of zero or below yields a result without a message, and nothing after the length is consumed |
| LockResultCodec.ReadMessageIsWritten | enterprise/ha/src/main/java/org/neo5j/kernel/ha/MasterClient320.java:57-92 | every decoded result with a message re-encodes to exactly the bytes it was read from |
| ConsistencyCheck.Name | enterprise/backup/src/main/java/org/neo5j/backup/ConsistencyCheck.java:39-67 | NONE is named "none"; FULL and every reporting full check are named "full" |
| ConsistencyCheck.FirstNamed | enterprise/backup/src/main/java/org/neo5j/backup/ConsistencyCheck.java:111-117 | finds nothing exactly when no candidate's name equals the given name ignoring case; otherwise returns the first candidate whose name does |
| ConsistencyCheck.FromString | enterprise/backup/src/main/java/org/neo5j/backup/ConsistencyCheck.java:109-120 | NONE exactly when the name equals "none" ignoring case; FULL exactly when it equals "full" ignoring case; an error with the unknown-name message exactly otherwise |
| ConsistencyCheck.FromStringOfName | enterprise/backup/src/main/java/org/neo5j/backup/ConsistencyCheck.java:109-120 | NONE and FULL are found again from their own names |
| ConsistencyCheck.SupportedValuesAccepted | enterprise/backup/src/main/java/org/neo5j/backup/ConsistencyCheck.java:118-119 | the upper-case names the error message offers, "NONE" and "FULL", are accepted |
| ConsistencyCheck.RunFull | enterprise/backup/src/main/java/org/neo5j/backup/ConsistencyCheck.java:45-92 | NONE reports success without consulting the service; a full check reports the service's verdict and fails exactly when the service's check is incomplete |
| ConsistencyCheck.NoneAlwaysPasses | enterprise/backup/src/main/java/org/neo5j/backup/ConsistencyCheck.java:45-57 | NONE's run returns true whatever the service would say |
| ConsistencyCheck.ReportingFullIsFull | enterprise/backup/src/main/java/org/neo5j/backup/ConsistencyCheck.java:122-159 | a check from `full(reportDir, service)` is named "full" and behaves as FULL with the report directory handed to the service |
| Sorting.SortBy | community/kernel/src/main/java/org/neo5j/kernel/builtinprocs/BuiltInDbmsProcedures.java:52 | the result is a permutation of the input, ordered by key in `String.compareTo` order |
| BuiltInDbmsProcedures.ListConfig | community/kernel/src/main/java/org/neo5j/kernel/builtinprocs/BuiltInDbmsProcedures.java:45-53 | rows are sorted by name; every row's name contains the search string ignoring case and comes from a non-internal setting; every non-internal setting whose name contains it has its row; the rows are a permutation of the listed settings' rows |
| BuiltInDbmsProcedures.FilterMapCommute | community/kernel/src/main/java/org/neo5j/kernel/builtinprocs/BuiltInDbmsProcedures.java:49-51 | filtering rows by name after turning settings into rows equals filtering settings by name before |
| BuiltInDbmsProcedures.EmptySearchListsAllVisible | community/kernel/src/main/java/org/neo5j/kernel/builtinprocs/BuiltInDbmsProcedures.java:45-51 | with the default empty search string every non-internal setting is listed |
| BuiltInDbmsProcedures.InternalSettingAddsNothing | community/kernel/src/main/java/org/neo5j/kernel/builtinprocs/BuiltInDbmsProcedures.java:49 | adding an internal setting leaves the listing unchanged, whatever its name |
| BuiltInDbmsProcedures.ResultOf | community/kernel/src/main/java/org/neo5j/kernel/builtinprocs/BuiltInDbmsProcedures.java:73-99 | a row carries the signature's name and rendering; a missing description becomes "" |
| BuiltInDbmsProcedures.ListSignatures | community/kernel/src/main/java/org/neo5j/kernel/builtinprocs/BuiltInDbmsProcedures.java:55-71 | the rows are sorted by name and are a permutation of the rows of all signatures |
| BuiltInDbmsProcedures.ListProcedures | community/kernel/src/main/java/org/neo5j/kernel/builtinprocs/BuiltInDbmsProcedures.java:55-62 | one row per procedure, sorted by name; every procedure has its row and every row is some procedure's |
| BuiltInDbmsProcedures.ListFunctions | community/kernel/src/main/java/org/neo5j/kernel/builtinprocs/BuiltInDbmsProcedures.java:64-71 | one row per user function, sorted by name; every function has its row and every row is some function's |

## Left out

- **The property cache.** `CacheAccess.putPropertiesToCache` is a cross-thread cache with no effect on the findings, so it is not modelled.
- **The readers the check calls.**
  - The label reader is an input: the node's label set.
  - The property chain reader is an input: the chain.
  - Neither is modelled, nor is the chain reader's cycle detection.
  - `PropertyReader.propertyBlocks` is modelled as the concatenation of the records' blocks.
  - `propertyValue` decoding is modelled as the identity on an opaque `Value`.
- **The index engine.** `IndexReader.query`, `countIndexedNodes` and `LookupFilter.exactIndexMatches` are oracle functions. The query oracle returns ids that have already been filtered to exact matches.
- **Closing index readers.** Closing a reader is not modelled; the model records which readers were opened.
- **The refused-query error.** The `RuntimeException` for a refused query is the `Aborted` outcome, and its message text is not modelled.
- **`Record.NO_NEXT_PROPERTY` and `Record.NO_PREVIOUS_PROPERTY`.** Their values are taken as -1. `Record` is not part of this model.
- **Java `long` counts and ids.** They are unbounded integers; no overflow is possible at realistic sizes.
- **PropertyAndNodeIndexedCheck.CheckProperty** requires a non-empty chain when the node has a chain. The source reads the head with `iterator().next()`, which throws on an empty collection; the chain reader always returns at least the head.
- **`IdGeneratorImpl` internals.**
  - The file format, header bytes, grab size and defragmentation batches are not modelled.
  - `NeoStores`, `StoreFactory` and the page cache are not modelled.
  - The order in which freed ids are reused is taken as lowest first. `IdGeneratorImpl` is not part of this model, and the recovery properties hold for any reuse order.
  - `makeStoreOk` is modelled as trusting the current state. The rebuild that follows recovery, which recomputes free ids from the store, is not modelled.
- **The lock-result wire format.**
  - `Protocol.writeString` / `readString` are modelled as an int length followed by two bytes per UTF-16 code unit, big-endian. `Protocol` is not part of this model.
  - The declaration order of `LockStatus` is taken as OK_LOCKED, NOT_LOCKED, DEAD_LOCKED.
  - `withInvalidOrdinalMessage`'s text is not modelled.
- **The HA network client.** `PROTOCOL_VERSION` and the client plumbing are not modelled.
- **`runFull` of a full check.**
  - The consistency check service and its store, configuration and page-cache I/O are an oracle.
  - The two overloads differ only in building the default `CheckConsistencyConfig`, which is not modelled.
  - `fromString(null)` is not modelled.
- **Case folding.**
  - `toLowerCase` and `equalsIgnoreCase` fold ASCII letters only. Java folds all of Unicode.
  - `String.compareTo` is modelled as character order, which equals Java's UTF-16 code-unit order outside the surrogate range.
- Sorting.SortBy: states a sorted permutation only. That equal names keep their original relative order, as the stable `Stream.sorted` guarantees, is not stated.
- **`ConfigResult`.** Only the name and the internal flag matter to the listing. The other columns are copied from the setting, because the `ConfigResult` constructor is not part of this model.
