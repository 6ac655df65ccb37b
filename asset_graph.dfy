/** The collaborators an asset graph subset is defined against: asset keys,
    partition keys, per-asset partition subsets, partitions definitions and
    the asset graph itself. Their internals are not modelled; a partitions
    definition is a bundle of uninterpreted functions. */
module AssetGraphs {
  import opened Wrappers

  /** An asset is identified by a path of name components. */
  datatype AssetKey = AssetKey(path: seq<string>)

  type PartitionKey = string

  /** One member of a subset: an asset together with one of its partition
      keys, or with no partition key when the asset is unpartitioned. */
  datatype AssetKeyPartitionKey = AssetKeyPartitionKey(assetKey: AssetKey, partitionKey: Option<PartitionKey>)

  /** The partitions subset of one asset, reduced to the set of partition keys
      it holds (its length is the size of this set). */
  type PartitionsSubset = set<PartitionKey>

  /** The stored payload of a partitions subset. The encoding is not modelled;
      the payload carries the subset's keys. */
  datatype SerializedSubset = SerializedSubset(partitionKeys: set<PartitionKey>)

  /** `PartitionsSubset.serialize`. */
  function Serialize(subset: PartitionsSubset): SerializedSubset
  {
    SerializedSubset(subset)
  }

  /** The current time handed to partition enumeration. */
  type Timestamp = int

  /** The store of dynamically registered partition keys, only ever passed on
      to a partitions definition. */
  datatype DynamicPartitionsStore = DynamicPartitionsStore(partitionKeysByName: map<string, set<PartitionKey>>)

  /** A partitions definition, seen only through the operations the subset
      calls on it: its class name, its serializable unique identifier, its
      live partition keys, and the compatibility test and reader for stored
      subset payloads (given the stored unique id and class name, either of
      which an old payload may lack). */
  datatype PartitionsDefinition = PartitionsDefinition(
    className: string,
    serializableUniqueId: DynamicPartitionsStore -> string,
    partitionKeys: (DynamicPartitionsStore, Timestamp) -> set<PartitionKey>,
    canDeserializeSubset: (SerializedSubset, Option<string>, Option<string>) -> bool,
    deserializeSubset: SerializedSubset -> PartitionsSubset)

  /** The asset graph: every known asset key, the materializable ones, and the
      partitions definition of each partitioned asset (an asset missing from
      `partitionsDefs` has none). */
  datatype AssetGraph = AssetGraph(
    allAssetKeys: set<AssetKey>,
    materializableAssetKeys: set<AssetKey>,
    partitionsDefs: map<AssetKey, PartitionsDefinition>)

  /** A well-formed graph only defines partitions for assets it knows. */
  predicate ValidGraph(g: AssetGraph)
  {
    g.partitionsDefs.Keys <= g.allAssetKeys && g.materializableAssetKeys <= g.allAssetKeys
  }

  /** `AssetGraph.get_partitions_def`. */
  function GetPartitionsDef(g: AssetGraph, key: AssetKey): Option<PartitionsDefinition>
  {
    if key in g.partitionsDefs then Some(g.partitionsDefs[key]) else None
  }
}
