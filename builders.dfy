/** Building subsets: from a set of (asset, partition) pairs, from asset keys
    with every live partition of each partitioned asset, and the subset of
    everything materializable in a graph. */
module Builders {
  import opened Wrappers
  import opened AssetGraphs
  import opened AssetGraphSubsets

  /** Assets that occur with a partition key among `pairs`. */
  function PartitionedAssetsOf(pairs: set<AssetKeyPartitionKey>): set<AssetKey>
  {
    set ap | ap in pairs && ap.partitionKey.Some? :: ap.assetKey
  }

  /** The partition keys that `pairs` holds for asset `k`. */
  function PartitionKeysFor(pairs: set<AssetKeyPartitionKey>, k: AssetKey): set<PartitionKey>
  {
    set ap | ap in pairs && ap.assetKey == k && ap.partitionKey.Some? :: ap.partitionKey.value
  }

  /** The pairs grouped by asset: the partition keys of each asset that occurs
      with one, and the assets that occur without one. */
  function Grouped(pairs: set<AssetKeyPartitionKey>): AssetGraphSubset
  {
    AssetGraphSubset(
      map k | k in PartitionedAssetsOf(pairs) :: PartitionKeysFor(pairs, k),
      set ap | ap in pairs && ap.partitionKey.None? :: ap.assetKey)
  }

  lemma GroupedStep(done: set<AssetKeyPartitionKey>, ap: AssetKeyPartitionKey)
    ensures var before, after := Grouped(done), Grouped(done + {ap});
            var m := before.partitionsSubsetsByAssetKey;
            var k := ap.assetKey;
            && after.partitionsSubsetsByAssetKey ==
                 (if ap.partitionKey.Some?
                  then m[k := (if k in m then m[k] else {}) + {ap.partitionKey.value}]
                  else m)
            && after.nonPartitionedAssetKeys ==
                 (if ap.partitionKey.None? then before.nonPartitionedAssetKeys + {k} else before.nonPartitionedAssetKeys)
  {
    if ap.partitionKey.Some? {
      GroupedStepPartitioned(done, ap);
    } else {
      GroupedStepUnpartitioned(done, ap);
    }
  }

  lemma GroupedStepPartitioned(done: set<AssetKeyPartitionKey>, ap: AssetKeyPartitionKey)
    requires ap.partitionKey.Some?
    ensures var m := Grouped(done).partitionsSubsetsByAssetKey;
            var k := ap.assetKey;
            && Grouped(done + {ap}).partitionsSubsetsByAssetKey == m[k := (if k in m then m[k] else {}) + {ap.partitionKey.value}]
            && Grouped(done + {ap}).nonPartitionedAssetKeys == Grouped(done).nonPartitionedAssetKeys
  {
    var k := ap.assetKey;
    var m := Grouped(done).partitionsSubsetsByAssetKey;
    assert PartitionedAssetsOf(done + {ap}) == PartitionedAssetsOf(done) + {k};
    assert PartitionKeysFor(done + {ap}, k) == (if k in m then m[k] else {}) + {ap.partitionKey.value};
    forall k' | k' in m && k' != k ensures PartitionKeysFor(done + {ap}, k') == m[k'] {}
  }

  lemma GroupedStepUnpartitioned(done: set<AssetKeyPartitionKey>, ap: AssetKeyPartitionKey)
    requires ap.partitionKey.None?
    ensures && Grouped(done + {ap}).partitionsSubsetsByAssetKey == Grouped(done).partitionsSubsetsByAssetKey
            && Grouped(done + {ap}).nonPartitionedAssetKeys == Grouped(done).nonPartitionedAssetKeys + {ap.assetKey}
  {
    var m := Grouped(done).partitionsSubsetsByAssetKey;
    assert PartitionedAssetsOf(done + {ap}) == PartitionedAssetsOf(done);
    forall k' | k' in m ensures PartitionKeysFor(done + {ap}, k') == m[k'] {}
  }

  /** `from_asset_partition_set`: groups the pairs by asset. Every asset that
      occurs with a partition key needs a partitions definition in the graph
      (the source calls `empty_subset` on it, which fails on None). */
  method FromAssetPartitionSet(pairs: set<AssetKeyPartitionKey>, g: AssetGraph) returns (r: Result<AssetGraphSubset, Error>)
    ensures r.Failure? <==> !(PartitionedAssetsOf(pairs) <= g.partitionsDefs.Keys)
    ensures r.Failure? ==> r.error == MissingPartitionsDef
    ensures r.Success? ==> r.value == Grouped(pairs) && Members(r.value) == pairs
  {
    var partitionsByAssetKey: map<AssetKey, set<PartitionKey>> := map[];
    var nonPartitioned: set<AssetKey> := {};
    var todo := pairs;
    ghost var done: set<AssetKeyPartitionKey> := {};
    while todo != {}
      invariant todo !! done && todo + done == pairs
      invariant partitionsByAssetKey == Grouped(done).partitionsSubsetsByAssetKey
      invariant nonPartitioned == Grouped(done).nonPartitionedAssetKeys
      decreases todo
    {
      var ap :| ap in todo;
      GroupedStep(done, ap);
      var k := ap.assetKey;
      if ap.partitionKey.Some? {
        var existing := if k in partitionsByAssetKey then partitionsByAssetKey[k] else {};
        partitionsByAssetKey := partitionsByAssetKey[k := existing + {ap.partitionKey.value}];
      } else {
        nonPartitioned := nonPartitioned + {k};
      }
      todo, done := todo - {ap}, done + {ap};
    }
    if partitionsByAssetKey.Keys <= g.partitionsDefs.Keys {
      MembersOfGrouped(pairs);
      r := Success(AssetGraphSubset(partitionsByAssetKey, nonPartitioned));
    } else {
      r := Failure(MissingPartitionsDef);
    }
  }

  /** Grouping loses no pair and adds none. */
  lemma MembersOfGrouped(pairs: set<AssetKeyPartitionKey>)
    ensures Members(Grouped(pairs)) == pairs
  {
    var s := Grouped(pairs);
    forall ap ensures ap in Members(s) <==> ap in pairs {
      MembersIff(s, ap);
      if ap.partitionKey.Some? && ap in pairs {
        assert ap.assetKey in PartitionedAssetsOf(pairs);
        assert ap.partitionKey.value in PartitionKeysFor(pairs, ap.assetKey);
      }
    }
  }

  /** Grouping the members of a subset gives the subset back, provided no
      asset is mapped to an empty partitions subset (such an entry has no
      member to recover it from). */
  lemma GroupedMembers(s: AssetGraphSubset)
    requires forall k :: k in s.partitionsSubsetsByAssetKey ==> s.partitionsSubsetsByAssetKey[k] != {}
    ensures Grouped(Members(s)) == s
  {
    var m := s.partitionsSubsetsByAssetKey;
    var pairs := Members(s);
    var g := Grouped(pairs);
    forall ap | ap in pairs ensures IsMember(s, ap) {
      MembersIff(s, ap);
    }
    forall k ensures k in PartitionedAssetsOf(pairs) <==> k in m {
      if k in m {
        var p :| p in m[k];
        MembersIff(s, AssetKeyPartitionKey(k, Some(p)));
      }
    }
    forall k | k in m ensures PartitionKeysFor(pairs, k) == m[k] {
      forall p ensures p in PartitionKeysFor(pairs, k) <==> p in m[k] {
        MembersIff(s, AssetKeyPartitionKey(k, Some(p)));
      }
    }
    forall k ensures k in g.nonPartitionedAssetKeys <==> k in s.nonPartitionedAssetKeys {
      MembersIff(s, AssetKeyPartitionKey(k, None));
    }
  }

  /** A member of the full subset of `keys`: an asset among `keys` with one of
      its live partition keys, or an unpartitioned asset among `keys`. */
  ghost predicate IsLiveMember(keys: set<AssetKey>, g: AssetGraph, store: DynamicPartitionsStore, time: Timestamp, ap: AssetKeyPartitionKey)
  {
    ap.assetKey in keys &&
    match GetPartitionsDef(g, ap.assetKey)
    case None => ap.partitionKey.None?
    case Some(partitionsDef) => ap.partitionKey.Some? && ap.partitionKey.value in partitionsDef.partitionKeys(store, time)
  }

  /** The subset holding every live partition of the partitioned assets among
      `keys` and every unpartitioned asset among them. */
  function FullSubset(keys: set<AssetKey>, g: AssetGraph, store: DynamicPartitionsStore, time: Timestamp): AssetGraphSubset
  {
    AssetGraphSubset(
      map k | k in keys && k in g.partitionsDefs :: g.partitionsDefs[k].partitionKeys(store, time),
      set k | k in keys && k !in g.partitionsDefs)
  }

  /** The full subset holds exactly the live members of `keys`, and no asset is
      both a mapping key and unpartitioned, so its algebra with itself passes
      the invariant checks. */
  lemma FullSubsetMembers(keys: set<AssetKey>, g: AssetGraph, store: DynamicPartitionsStore, time: Timestamp)
    ensures var s := FullSubset(keys, g, store, time);
            && s.partitionsSubsetsByAssetKey.Keys !! s.nonPartitionedAssetKeys
            && forall ap :: ap in Members(s) <==> IsLiveMember(keys, g, store, time, ap)
  {
    var s := FullSubset(keys, g, store, time);
    forall ap ensures ap in Members(s) <==> IsLiveMember(keys, g, store, time, ap) {
      MembersIff(s, ap);
    }
  }

  /** `from_asset_keys`: for each key, the full live partition set if the
      graph has a partitions definition for it, otherwise the whole asset. */
  method FromAssetKeys(keys: set<AssetKey>, g: AssetGraph, store: DynamicPartitionsStore, time: Timestamp) returns (r: AssetGraphSubset)
    ensures r == FullSubset(keys, g, store, time)
    ensures forall ap :: ap in Members(r) <==> IsLiveMember(keys, g, store, time, ap)
  {
    var partitionsSubsets: map<AssetKey, PartitionsSubset> := map[];
    var nonPartitioned: set<AssetKey> := {};
    var todo := keys;
    ghost var done: set<AssetKey> := {};
    while todo != {}
      invariant todo !! done && todo + done == keys
      invariant partitionsSubsets == FullSubset(done, g, store, time).partitionsSubsetsByAssetKey
      invariant nonPartitioned == FullSubset(done, g, store, time).nonPartitionedAssetKeys
      decreases todo
    {
      var k :| k in todo;
      var partitionsDef := GetPartitionsDef(g, k);
      if partitionsDef.Some? {
        partitionsSubsets := partitionsSubsets[k := partitionsDef.value.partitionKeys(store, time)];
      } else {
        nonPartitioned := nonPartitioned + {k};
      }
      todo, done := todo - {k}, done + {k};
    }
    r := AssetGraphSubset(partitionsSubsets, nonPartitioned);
    FullSubsetMembers(keys, g, store, time);
  }

  /** `all`: the full subset of the graph's materializable assets. */
  method All(g: AssetGraph, store: DynamicPartitionsStore, time: Timestamp) returns (r: AssetGraphSubset)
    ensures r == FullSubset(g.materializableAssetKeys, g, store, time)
    ensures forall ap :: ap in Members(r) <==> IsLiveMember(g.materializableAssetKeys, g, store, time, ap)
  {
    r := FromAssetKeys(g.materializableAssetKeys, g, store, time);
  }
}
