# AssetGraphSubset

A model of Dagster's `AssetGraphSubset`: an immutable value that says which
(asset, partition) pairs of an asset graph are selected. It stores a
partitions subset per partitioned asset and a set of whole unpartitioned
assets. The model covers its queries (effective asset keys, member count,
per-asset partitions subset, iteration, membership), its set algebra (`|`,
`-`, `&` through one combinator, key filtering, equality), its builders (from
a set of pairs, from asset keys, from the whole graph) and its storage form
(writing, the compatibility check, and reading back with or without
tolerance for asset graph drift).

The meaning of a subset is `AssetGraphSubsets.Members`: the set of
`AssetKeyPartitionKey` values it selects. Most contracts are stated against
that set, so they say what an operation means and not how it is computed.

Files:

- `wrappers.dfy`: `Option` and `Result`.
- `asset_graph.dfy`: asset keys, partition keys, the partitions definition
  with its collaborators as opaque function fields, and the asset graph.
- `subset.dfy`: the subset value, its members, and its read-only queries.
- `set_algebra.dfy`: the `_oper` combinator, `|`, `-`, `&`, and their laws.
- `builders.dfy`: `from_asset_partition_set`, `from_asset_keys`, `all`.
- `storage.dfy`: `to_storage_dict`, `can_deserialize`, `from_storage_dict`.

The source's loops (the `_oper` walk, the builders, the deserializer, the
compatibility check, the count and the iterator) are methods with `while`
loops over the keys, each proved against a function that states the result
in closed form. Python exceptions become `Failure` values of one `Error`
datatype: `check.invariant` is `InvariantViolation`, `check.failed` is
`InvalidUsage`, a `KeyError` is `KeyNotFound`, a use of a partitions
definition that is `None` is `MissingPartitionsDef`, and
`DagsterDefinitionChangedDeserializationError` is `DefinitionChanged` with
the asset and the reason.

Behaviour of `&` as written, which the model follows:

- Entries of the left operand that the right operand does not mention are
  kept, so `&` is not a true intersection (`SetAlgebra.IntersectionKeepsLeftOnlyPartitions`).
  In the two-asset example, B stays in `S1 & S2` (`SetAlgebra.ExampleIntersection`).
- The unpartitioned keys are intersected with each unpartitioned key of the
  right operand in turn, as singletons. So an unpartitioned key of the left
  operand that the right operand does not mention is dropped as soon as the
  right operand has any unpartitioned key
  (`SetAlgebra.IntersectionDropsLeftOnlyUnpartitioned`). With two or more such
  keys the result has no unpartitioned key at all, and `s & s == s` fails as
  soon as `s` has two unpartitioned assets
  (`SetAlgebra.IntersectionNotIdempotent`). The expectation that `&` is
  idempotent therefore does not hold for the code.

## Model

| member | source | states |
|---|---|---|
| AssetGraphSubsets.AssetKeys | python_modules/dagster/dagster/_core/definitions/asset_graph_subset.py:75-79 | the effective keys include every unpartitioned key and otherwise only mapping keys; `AssetGraphSubsets.AssetKeysAreMemberKeys` proves they are exactly the assets of the members |
| AssetGraphSubsets.AssetKeysAreMemberKeys | python_modules/dagster/dagster/_core/definitions/asset_graph_subset.py:75-79 | an asset key is effective iff some member has it; a key mapped to an empty subset is not effective |
| AssetGraphSubsets.NumPartitionsAndNonPartitionedAssets | python_modules/dagster/dagster/_core/definitions/asset_graph_subset.py:81-85 | the count of unpartitioned assets plus the sizes of the stored subsets equals the number of members |
| AssetGraphSubsets.MembersCardinality | python_modules/dagster/dagster/_core/definitions/asset_graph_subset.py:81-85 | the number of members is the number of partitioned members plus the number of unpartitioned assets |
| AssetGraphSubsets.GetPartitionsSubset | python_modules/dagster/dagster/_core/definitions/asset_graph_subset.py:87-99 | with a graph it fails (usage error) iff the asset has no partitions definition; without one it fails (KeyError) iff the asset has no entry; on success it holds exactly the asset's partition members |
| AssetGraphSubsets.IterateAssetPartitions | python_modules/dagster/dagster/_core/definitions/asset_graph_subset.py:101-110 | yields every member exactly once, all partitioned members before the unpartitioned ones, and each asset's partitions as one contiguous block |
| AssetGraphSubsets.AppendAssetPartitions | python_modules/dagster/dagster/_core/definitions/asset_graph_subset.py:104-107 | the inner loop appends exactly the members of one asset, after the elements already yielded, without repeating any, and keeps each asset's block contiguous |
| AssetGraphSubsets.Contains | python_modules/dagster/dagster/_core/definitions/asset_graph_subset.py:112-127 | a bare asset key is contained iff it is an effective key; a pair is contained iff it is a member |
| AssetGraphSubsets.FilterAssetKeys | python_modules/dagster/dagster/_core/definitions/asset_graph_subset.py:204-212 | the members are exactly the members whose asset is among the given keys; the effective keys are intersected with them |
| AssetGraphSubsets.Equals | python_modules/dagster/dagster/_core/definitions/asset_graph_subset.py:214-219 | true iff both stored fields are equal; equal subsets have the same members |
| AssetGraphSubsets.EqualityIsRepresentational | python_modules/dagster/dagster/_core/definitions/asset_graph_subset.py:214-219 | two subsets with the same members and effective keys can be unequal, when one maps an asset to an empty subset |
| SetAlgebra.Oper | python_modules/dagster/dagster/_core/definitions/asset_graph_subset.py:156-193 | fails with an invariant violation iff an unpartitioned key of the right operand is a mapping key on the left or a partitioned key of the right operand is unpartitioned on the left; otherwise returns the closed-form combination of the two operands |
| SetAlgebra.NonPartitionedStep | python_modules/dagster/dagster/_core/definitions/asset_graph_subset.py:166-170 | applying the operator to one more unpartitioned key as a singleton extends the closed form of the unpartitioned result |
| SetAlgebra.PartitionsStep | python_modules/dagster/dagster/_core/definitions/asset_graph_subset.py:171-186 | handling one more partitioned key combines both stored subsets, takes the right one under `\|` when the left has none, and otherwise changes nothing |
| SetAlgebra.Union | python_modules/dagster/dagster/_core/definitions/asset_graph_subset.py:195-196 | `\|` fails exactly when the invariant checks fail; on success its effective keys are the union of both operands' effective keys |
| SetAlgebra.Difference | python_modules/dagster/dagster/_core/definitions/asset_graph_subset.py:198-199 | `-` fails exactly when the invariant checks fail; on success a pair is a member iff it is a member of the left and not of the right operand |
| SetAlgebra.Intersection | python_modules/dagster/dagster/_core/definitions/asset_graph_subset.py:201-202 | `&` fails exactly when the invariant checks fail; on success it is the combinator's result under `&` |
| SetAlgebra.OperKeepsLeftOnlyEntries | python_modules/dagster/dagster/_core/definitions/asset_graph_subset.py:162-165 | a mapping entry of the left operand whose asset is not an effective key on the right is kept unchanged by every operator, and so is an unpartitioned key under `\|` and `-` |
| SetAlgebra.IntersectionDropsLeftOnlyUnpartitioned | python_modules/dagster/dagster/_core/definitions/asset_graph_subset.py:166-170 | under `&`, an unpartitioned key of the left operand that the right operand does not mention is kept iff the right operand has no unpartitioned key |
| SetAlgebra.IntersectionNotIdempotent | python_modules/dagster/dagster/_core/definitions/asset_graph_subset.py:201-202 | `s & s` differs from `s` for a subset with two unpartitioned assets |
| SetAlgebra.IntersectionKeepsLeftOnlyPartitions | python_modules/dagster/dagster/_core/definitions/asset_graph_subset.py:181-188 | under `&`, a partitioned entry of the left operand that the right operand does not mention is kept |
| SetAlgebra.UnionAssetKeys | python_modules/dagster/dagster/_core/definitions/asset_graph_subset.py:195-196 | the effective keys of a union are the union of the effective keys |
| SetAlgebra.MissingLeftEntry | python_modules/dagster/dagster/_core/definitions/asset_graph_subset.py:173-186 | a partitioned key of the right operand without a left entry gets the right subset under `\|` and stays absent under `-` and `&` |
| SetAlgebra.SharedEntry | python_modules/dagster/dagster/_core/definitions/asset_graph_subset.py:181-182 | a partitioned key present on both sides gets the operator applied to both stored subsets |
| SetAlgebra.UnionIdempotent | python_modules/dagster/dagster/_core/definitions/asset_graph_subset.py:195-196 | `s \| s` passes the invariant checks iff no asset is both a mapping key and unpartitioned, and then equals `s` |
| SetAlgebra.DifferenceMembers | python_modules/dagster/dagster/_core/definitions/asset_graph_subset.py:198-199 | a pair is a member of `a - b` iff it is a member of `a` and not of `b` |
| SetAlgebra.DifferenceWithSelfIsEmpty | python_modules/dagster/dagster/_core/definitions/asset_graph_subset.py:198-199 | `s - s` has no effective key |
| SetAlgebra.UnionMembers | python_modules/dagster/dagster/_core/definitions/asset_graph_subset.py:195-196 | a pair is a member of `a \| b` iff it is a member of `a` or of `b`, when no asset of `b` is both partitioned and unpartitioned |
| SetAlgebra.ExampleUnion | python_modules/dagster/dagster/_core/definitions/asset_graph_subset.py:195-196 | with A daily and B unpartitioned, `{A: [d1], B} \| {A: [d2]}` is `{A: [d1, d2], B}` |
| SetAlgebra.ExampleDifference | python_modules/dagster/dagster/_core/definitions/asset_graph_subset.py:198-199 | in that example, `S1 - S2` is `S1` |
| SetAlgebra.ExampleIntersection | python_modules/dagster/dagster/_core/definitions/asset_graph_subset.py:201-202 | in that example, `S1 & S2` maps A to an empty subset and keeps B, so its only effective key is B |
| SetAlgebra.ExampleFilter | python_modules/dagster/dagster/_core/definitions/asset_graph_subset.py:204-212 | in that example, filtering `S1` to A keeps A's day and drops B |
| Builders.FromAssetPartitionSet | python_modules/dagster/dagster/_core/definitions/asset_graph_subset.py:229-253 | fails iff an asset that occurs with a partition key has no partitions definition; otherwise it groups the pairs by asset and its members are exactly the given pairs |
| Builders.MembersOfGrouped | python_modules/dagster/dagster/_core/definitions/asset_graph_subset.py:235-241 | grouping a set of pairs by asset loses no pair and adds none |
| Builders.GroupedMembers | python_modules/dagster/dagster/_core/definitions/asset_graph_subset.py:235-253 | grouping the members of a subset without empty entries gives the subset back |
| Builders.FullSubsetMembers | python_modules/dagster/dagster/_core/definitions/asset_graph_subset.py:359-387 | the full subset of a set of keys has exactly the live partitions of its partitioned assets and its unpartitioned assets as members, and no asset is both |
| Builders.FromAssetKeys | python_modules/dagster/dagster/_core/definitions/asset_graph_subset.py:359-387 | the result is the full subset of the keys: every live partition of each partitioned asset and every unpartitioned asset |
| Builders.All | python_modules/dagster/dagster/_core/definitions/asset_graph_subset.py:345-357 | the result is the full subset of the graph's materializable assets |
| Storage.ToStorageDict | python_modules/dagster/dagster/_core/definitions/asset_graph_subset.py:129-154 | fails iff a stored asset has no partitions definition; otherwise the stored entries are keyed by exactly the subset's mapping keys |
| Storage.EntryDrift | python_modules/dagster/dagster/_core/definitions/asset_graph_subset.py:302-332 | a stored entry has no drift iff its asset is still in the graph and its partitions definition accepts the payload |
| Storage.CanDeserialize | python_modules/dagster/dagster/_core/definitions/asset_graph_subset.py:255-282 | true iff every stored entry's asset still has a partitions definition that accepts the payload with the stored id and class name |
| Storage.FromStorageDict | python_modules/dagster/dagster/_core/definitions/asset_graph_subset.py:284-343 | partial reading never fails; strict reading fails iff some entry has drift, and then reports one such entry with its reason; on success the mapping holds exactly the entries without drift, read by the current definitions, and the unpartitioned keys still in the graph |
| Storage.DeserializableMeansNoDrift | python_modules/dagster/dagster/_core/definitions/asset_graph_subset.py:255-332 | when the compatibility check passes and every stored asset is still in the graph, strict reading does not fail |
| Storage.DriftIffNotDeserializable | python_modules/dagster/dagster/_core/definitions/asset_graph_subset.py:255-332 | over a graph that partitions only assets it knows, strict reading fails iff the compatibility check is false |
| Storage.RemovedAssetIsDropped | python_modules/dagster/dagster/_core/definitions/asset_graph_subset.py:302-307 | a stored asset the graph no longer knows fails the check and strict reading, and is left out by partial reading |
| Storage.RoundTrip | python_modules/dagster/dagster/_core/definitions/asset_graph_subset.py:284-343 | writing a subset and reading it back strictly gives the same subset, when each partitions definition accepts and reads back its own payloads and every unpartitioned asset is still in the graph |

## Left out

- The `before_pack` serializer hook and the time-window subset conversion it makes: they concern the payload format, not the subset's meaning.
- Partitions subsets and partitions definitions are not modelled inside: a partitions subset is a set of partition keys, and a definition's id, class name, live keys, compatibility test and payload reader are opaque function fields.
- The payload encoding of a partitions subset: `serialize` is a wrapper around the set of keys.
- The string form of asset keys: the storage dictionary is keyed by `AssetKey`, as if `to_user_string` and `from_user_string` were inverse bijections.
- The stored list of unpartitioned keys is a set: the reader ignores its order and duplicates.
- Iteration order of dictionaries and sets: loops pick any remaining key. So `IterateAssetPartitions` fixes neither the order among assets nor the order of one asset's partitions (only that they form one block), and `FromStorageDict` only says that the reported drifted asset is one of them.
- `__repr__`: text formatting only.
- Exception message text: each error is a constructor without its message.
- The dynamic partitions store and the current time are opaque parameters passed to the definitions.
- `from_asset_keys` takes a set of keys rather than any iterable; repeated keys give the same result.
- Oper: the `del` branch for an `&` with a missing right subset is unreachable, because every effective partitioned key of the right operand has a stored subset. It is not modelled.
- Oper: a partitions-subset operator that raises because it does not support the kind of subset it is given is not modelled; every per-asset `|`, `-` and `&` is a total set operation, so the statements that `_oper`, `|`, `-` and `&` fail exactly when the invariant checks fail hold under that assumption.
- StorageDict: the fields `partitions_subsets_by_asset_key` and `non_partitioned_asset_keys` are mandatory in the model, so the `KeyError` that `can_deserialize` and `from_storage_dict` raise on a document missing one of them is not modelled.
- `isinstance` checks in `__eq__` and `__contains__`: the model's types fix the kind of the argument.
