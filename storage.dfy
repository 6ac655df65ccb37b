/** The storage dictionary of a subset: the writer, the pre-flight
    compatibility check, and the reader that tolerates asset graph drift. */
module Storage {
  import opened Wrappers
  import opened AssetGraphs
  import opened AssetGraphSubsets

  /** The stored document. Asset keys stand for their user strings (the
      string form is a bijection). The unique ids and class names may be
      missing from documents written by older versions; the reader then uses
      an empty mapping. The unpartitioned keys are stored as a list whose
      order the reader ignores. */
  datatype StorageDict = StorageDict(
    partitionsSubsetsByAssetKey: map<AssetKey, SerializedSubset>,
    serializablePartitionsDefIdsByAssetKey: Option<map<AssetKey, string>>,
    partitionsDefClassNamesByAssetKey: Option<map<AssetKey, string>>,
    nonPartitionedAssetKeys: set<AssetKey>)

  /** `serialized_dict.get(field, {}).get(key)`. */
  function Lookup(field: Option<map<AssetKey, string>>, k: AssetKey): Option<string>
  {
    match field
    case None => None
    case Some(m) => if k in m then Some(m[k]) else None
  }

  /** `to_storage_dict`: the serialized subset, the partitions definition's
      unique id and its class name for every stored entry, and the unpartitioned
      keys. Every key of the mapping needs a partitions definition in the graph
      (`check.not_none`). */
  function ToStorageDict(s: AssetGraphSubset, store: DynamicPartitionsStore, g: AssetGraph): (r: Result<StorageDict, Error>)
    ensures r.Failure? <==> !(s.partitionsSubsetsByAssetKey.Keys <= g.partitionsDefs.Keys)
    ensures r.Failure? ==> r.error == MissingPartitionsDef
    ensures r.Success? ==> r.value.partitionsSubsetsByAssetKey.Keys == s.partitionsSubsetsByAssetKey.Keys
  {
    var m := s.partitionsSubsetsByAssetKey;
    if m.Keys <= g.partitionsDefs.Keys then
      Success(StorageDict(
        map k | k in m :: Serialize(m[k]),
        Some(map k | k in m :: g.partitionsDefs[k].serializableUniqueId(store)),
        Some(map k | k in m :: g.partitionsDefs[k].className),
        s.nonPartitionedAssetKeys))
    else
      Failure(MissingPartitionsDef)
  }

  /** The test `can_deserialize` makes of one stored entry: the asset still has
      a partitions definition and that definition accepts the payload with the
      stored unique id and class name. */
  predicate EntryCompatible(d: StorageDict, g: AssetGraph, k: AssetKey)
    requires k in d.partitionsSubsetsByAssetKey
  {
    k in g.partitionsDefs
      && g.partitionsDefs[k].canDeserializeSubset(
           d.partitionsSubsetsByAssetKey[k],
           Lookup(d.serializablePartitionsDefIdsByAssetKey, k),
           Lookup(d.partitionsDefClassNamesByAssetKey, k))
  }

  /** Why `from_storage_dict` rejects one stored entry, if it does: the asset is
      no longer in the graph, it has no partitions definition, or its
      definition cannot read the payload. */
  function EntryDrift(d: StorageDict, g: AssetGraph, k: AssetKey): (r: Option<DriftReason>)
    requires k in d.partitionsSubsetsByAssetKey
    ensures r.None? <==> k in g.allAssetKeys && EntryCompatible(d, g, k)
  {
    if k !in g.allAssetKeys then Some(AssetRemoved)
    else if k !in g.partitionsDefs then Some(PartitionsDefRemoved)
    else if !EntryCompatible(d, g, k) then Some(SubsetIncompatible)
    else None
  }

  /** Every stored entry passes the test of `can_deserialize`. */
  ghost predicate Deserializable(d: StorageDict, g: AssetGraph)
  {
    forall k :: k in d.partitionsSubsetsByAssetKey ==> EntryCompatible(d, g, k)
  }

  /** Some stored entry makes strict deserialization fail. */
  ghost predicate HasDrift(d: StorageDict, g: AssetGraph)
  {
    exists k :: k in d.partitionsSubsetsByAssetKey && EntryDrift(d, g, k).Some?
  }

  /** What deserialization reconstructs: every stored entry without drift,
      read by its current partitions definition, and the stored unpartitioned
      keys that the graph still knows. */
  function Rebuilt(d: StorageDict, g: AssetGraph): AssetGraphSubset
  {
    AssetGraphSubset(
      RebuiltPartitions(d, g, d.partitionsSubsetsByAssetKey.Keys),
      d.nonPartitionedAssetKeys * g.allAssetKeys)
  }

  /** The stored entries among `keys` without drift, each read by the
      asset's current partitions definition. */
  function RebuiltPartitions(d: StorageDict, g: AssetGraph, keys: set<AssetKey>): map<AssetKey, PartitionsSubset>
  {
    map k | k in keys && k in d.partitionsSubsetsByAssetKey && EntryDrift(d, g, k).None? ::
      g.partitionsDefs[k].deserializeSubset(d.partitionsSubsetsByAssetKey[k])
  }

  lemma RebuiltPartitionsStep(d: StorageDict, g: AssetGraph, keys: set<AssetKey>, k: AssetKey)
    requires k in d.partitionsSubsetsByAssetKey
    ensures var before := RebuiltPartitions(d, g, keys);
            RebuiltPartitions(d, g, keys + {k}) ==
              if EntryDrift(d, g, k).None?
              then before[k := g.partitionsDefs[k].deserializeSubset(d.partitionsSubsetsByAssetKey[k])]
              else before
  {
  }

  /** `can_deserialize`: a read-only walk over the stored entries that answers
      false at the first entry whose asset lost its partitions definition or
      whose definition rejects the payload. */
  method CanDeserialize(d: StorageDict, g: AssetGraph) returns (b: bool)
    ensures b <==> Deserializable(d, g)
  {
    var todo := d.partitionsSubsetsByAssetKey.Keys;
    ghost var done: set<AssetKey> := {};
    while todo != {}
      invariant todo !! done && todo + done == d.partitionsSubsetsByAssetKey.Keys
      invariant forall k :: k in done ==> EntryCompatible(d, g, k)
      decreases todo
    {
      var k :| k in todo;
      var partitionsDef := GetPartitionsDef(g, k);
      if partitionsDef.None? {
        return false;
      }
      if !partitionsDef.value.canDeserializeSubset(
            d.partitionsSubsetsByAssetKey[k],
            Lookup(d.serializablePartitionsDefIdsByAssetKey, k),
            Lookup(d.partitionsDefClassNamesByAssetKey, k)) {
        return false;
      }
      todo, done := todo - {k}, done + {k};
    }
    return true;
  }

  /** `from_storage_dict`. A stored entry with drift raises
      DefinitionChanged in strict mode and is skipped with `allowPartial`;
      the unpartitioned keys are always cut down to the graph's known assets.
      Which drifted entry is reported depends on the iteration order, so the
      contract only says it is one of them. */
  method FromStorageDict(d: StorageDict, g: AssetGraph, allowPartial: bool) returns (r: Result<AssetGraphSubset, Error>)
    ensures allowPartial ==> r.Success?
    ensures !allowPartial ==> (r.Success? <==> !HasDrift(d, g))
    ensures r.Success? ==> r.value == Rebuilt(d, g)
    ensures r.Success? ==> forall k :: k in r.value.partitionsSubsetsByAssetKey <==>
                                   k in d.partitionsSubsetsByAssetKey && EntryDrift(d, g, k).None?
    ensures r.Failure? ==> && r.error.DefinitionChanged?
                           && r.error.assetKey in d.partitionsSubsetsByAssetKey
                           && EntryDrift(d, g, r.error.assetKey) == Some(r.error.reason)
  {
    var stored := d.partitionsSubsetsByAssetKey;
    var partitionsSubsets: map<AssetKey, PartitionsSubset> := map[];
    var todo := stored.Keys;
    ghost var done: set<AssetKey> := {};
    while todo != {}
      invariant todo !! done && todo + done == stored.Keys
      invariant !allowPartial ==> forall k :: k in done ==> EntryDrift(d, g, k).None?
      invariant partitionsSubsets == RebuiltPartitions(d, g, done)
      decreases todo
    {
      var k :| k in todo;
      RebuiltPartitionsStep(d, g, done, k);
      var drift := EntryDrift(d, g, k);
      if drift.Some? && !allowPartial {
        return Failure(DefinitionChanged(k, drift.value));
      }
      if drift.None? {
        partitionsSubsets := partitionsSubsets[k := g.partitionsDefs[k].deserializeSubset(stored[k])];
      }
      todo, done := todo - {k}, done + {k};
    }
    return Success(AssetGraphSubset(partitionsSubsets, d.nonPartitionedAssetKeys * g.allAssetKeys));
  }

  /** When `can_deserialize` holds and every stored partitioned asset is still
      known to the graph, strict deserialization does not raise. */
  lemma DeserializableMeansNoDrift(d: StorageDict, g: AssetGraph)
    requires Deserializable(d, g) && d.partitionsSubsetsByAssetKey.Keys <= g.allAssetKeys
    ensures !HasDrift(d, g)
  {
  }

  /** Over a well-formed graph (one that only partitions assets it knows),
      strict deserialization raises exactly when `can_deserialize` is false. */
  lemma DriftIffNotDeserializable(d: StorageDict, g: AssetGraph)
    requires ValidGraph(g)
    ensures HasDrift(d, g) <==> !Deserializable(d, g)
  {
    if !Deserializable(d, g) {
      var k :| k in d.partitionsSubsetsByAssetKey && !EntryCompatible(d, g, k);
      assert EntryDrift(d, g, k).Some?;
    }
  }

  /** A stored asset that the graph no longer knows makes `can_deserialize`
      false and strict deserialization raise, and is left out of what partial
      deserialization returns. */
  lemma RemovedAssetIsDropped(d: StorageDict, g: AssetGraph, k: AssetKey)
    requires ValidGraph(g) && k in d.partitionsSubsetsByAssetKey && k !in g.allAssetKeys
    ensures !Deserializable(d, g) && HasDrift(d, g)
    ensures k !in Rebuilt(d, g).partitionsSubsetsByAssetKey
  {
    assert EntryDrift(d, g, k) == Some(AssetRemoved);
  }

  /** Writing a subset and reading it back strictly gives the same subset,
      provided every partitioned asset has a partitions definition that accepts
      and reads back the payloads it writes, and every unpartitioned asset is
      still known to the graph. */
  lemma RoundTrip(s: AssetGraphSubset, store: DynamicPartitionsStore, g: AssetGraph)
    requires ValidGraph(g)
    requires s.partitionsSubsetsByAssetKey.Keys <= g.partitionsDefs.Keys
    requires s.nonPartitionedAssetKeys <= g.allAssetKeys
    requires forall k :: k in s.partitionsSubsetsByAssetKey ==>
               var partitionsDef, subset := g.partitionsDefs[k], s.partitionsSubsetsByAssetKey[k];
               && partitionsDef.canDeserializeSubset(Serialize(subset), Some(partitionsDef.serializableUniqueId(store)), Some(partitionsDef.className))
               && partitionsDef.deserializeSubset(Serialize(subset)) == subset
    ensures ToStorageDict(s, store, g).Success?
    ensures !HasDrift(ToStorageDict(s, store, g).value, g)
    ensures Rebuilt(ToStorageDict(s, store, g).value, g) == s
  {
    var d := ToStorageDict(s, store, g).value;
    var m := s.partitionsSubsetsByAssetKey;
    forall k | k in d.partitionsSubsetsByAssetKey ensures EntryDrift(d, g, k).None? {
      assert Lookup(d.serializablePartitionsDefIdsByAssetKey, k) == Some(g.partitionsDefs[k].serializableUniqueId(store));
      assert Lookup(d.partitionsDefClassNamesByAssetKey, k) == Some(g.partitionsDefs[k].className);
    }
    var r := Rebuilt(d, g);
    assert r.partitionsSubsetsByAssetKey.Keys == m.Keys;
    assert r.nonPartitionedAssetKeys == s.nonPartitionedAssetKeys;
  }
}
