/** The subset value itself and its read-only queries: effective asset keys,
    member count, per-asset partitions subset, membership, iteration,
    filtering and equality. */
module AssetGraphSubsets {
  import opened Wrappers
  import opened AssetGraphs

  /** Which (asset, partition) members belong to the subset: a partitions
      subset per partitioned asset, and a set of whole unpartitioned assets.
      An asset may be mapped to an empty subset; queries treat it as absent. */
  datatype AssetGraphSubset = AssetGraphSubset(
    partitionsSubsetsByAssetKey: map<AssetKey, PartitionsSubset>,
    nonPartitionedAssetKeys: set<AssetKey>)

  /** Why a stored partitioned entry no longer matches the current graph. */
  datatype DriftReason = AssetRemoved | PartitionsDefRemoved | SubsetIncompatible

  /** The exceptions the operations raise. */
  datatype Error =
    | InvariantViolation                                      // check.invariant in the set algebra
    | InvalidUsage                                            // check.failed: subset of an unpartitioned asset
    | KeyNotFound(assetKey: AssetKey)                         // KeyError on the stored mapping
    | MissingPartitionsDef                                    // a partitions definition that is None was used
    | DefinitionChanged(assetKey: AssetKey, reason: DriftReason)  // strict deserialization met graph drift

  /** What `in` accepts: a bare asset key, or an asset key with a partition key. */
  datatype MemberQuery = Asset(key: AssetKey) | AssetPartition(assetPartition: AssetKeyPartitionKey)

  /** The members contributed by the partitioned assets among `keys`. */
  ghost function PartitionedMembers(m: map<AssetKey, PartitionsSubset>, keys: set<AssetKey>): set<AssetKeyPartitionKey>
  {
    set k, p | k in keys && k in m && p in m[k] :: AssetKeyPartitionKey(k, Some(p))
  }

  /** The members contributed by one partitioned asset. */
  ghost function Row(k: AssetKey, subset: PartitionsSubset): set<AssetKeyPartitionKey>
  {
    set p | p in subset :: AssetKeyPartitionKey(k, Some(p))
  }

  /** The members contributed by unpartitioned assets. */
  ghost function NonPartitionedMembers(keys: set<AssetKey>): set<AssetKeyPartitionKey>
  {
    set k | k in keys :: AssetKeyPartitionKey(k, None)
  }

  /** Every (asset, partition) member of the subset: the reference meaning of
      the subset against which the queries and the algebra are stated. */
  ghost function Members(s: AssetGraphSubset): set<AssetKeyPartitionKey>
  {
    PartitionedMembers(s.partitionsSubsetsByAssetKey, s.partitionsSubsetsByAssetKey.Keys)
      + NonPartitionedMembers(s.nonPartitionedAssetKeys)
  }

  /** Membership in `Members`, spelled out per kind of member. */
  ghost predicate IsMember(s: AssetGraphSubset, ap: AssetKeyPartitionKey)
  {
    match ap.partitionKey
    case None => ap.assetKey in s.nonPartitionedAssetKeys
    case Some(p) => ap.assetKey in s.partitionsSubsetsByAssetKey && p in s.partitionsSubsetsByAssetKey[ap.assetKey]
  }

  lemma MembersIff(s: AssetGraphSubset, ap: AssetKeyPartitionKey)
    ensures ap in Members(s) <==> IsMember(s, ap)
  {
    var m := s.partitionsSubsetsByAssetKey;
    if ap.partitionKey.Some? && IsMember(s, ap) {
      assert AssetKeyPartitionKey(ap.assetKey, Some(ap.partitionKey.value)) in PartitionedMembers(m, m.Keys);
    }
  }

  /** Partitioned assets with at least one partition in the subset. */
  function PartitionedAssetKeys(s: AssetGraphSubset): set<AssetKey>
  {
    set k | k in s.partitionsSubsetsByAssetKey && |s.partitionsSubsetsByAssetKey[k]| > 0
  }

  /** `asset_keys`: the effective asset keys, every unpartitioned key and those
      mapping keys whose subset is not empty. `AssetKeysAreMemberKeys` shows
      they are exactly the assets of the members. */
  function AssetKeys(s: AssetGraphSubset): (r: set<AssetKey>)
    ensures s.nonPartitionedAssetKeys <= r
    ensures r <= s.partitionsSubsetsByAssetKey.Keys + s.nonPartitionedAssetKeys
  {
    PartitionedAssetKeys(s) + s.nonPartitionedAssetKeys
  }

  /** No asset is both unpartitioned and has partitions in the subset. */
  predicate Disjoint(s: AssetGraphSubset)
  {
    PartitionedAssetKeys(s) !! s.nonPartitionedAssetKeys
  }

  /** An asset key is effective exactly when some member of the subset has it:
      a key mapped to an empty subset is invisible. */
  lemma AssetKeysAreMemberKeys(s: AssetGraphSubset, k: AssetKey)
    ensures k in AssetKeys(s) <==> exists ap :: ap in Members(s) && ap.assetKey == k
  {
    var m := s.partitionsSubsetsByAssetKey;
    if k in PartitionedAssetKeys(s) {
      var p :| p in m[k];
      MembersIff(s, AssetKeyPartitionKey(k, Some(p)));
    } else if k in s.nonPartitionedAssetKeys {
      MembersIff(s, AssetKeyPartitionKey(k, None));
    } else {
      forall ap | ap in Members(s) ensures ap.assetKey != k {
        MembersIff(s, ap);
      }
    }
  }

  /** `__contains__`: a bare asset key is in the subset when it has a non-empty
      subset or is an unpartitioned member; a pair without a partition key when
      its asset is an unpartitioned member; any other pair when the asset's
      stored subset holds the partition key. */
  function Contains(s: AssetGraphSubset, q: MemberQuery): (r: bool)
    ensures q.Asset? ==> (r <==> q.key in AssetKeys(s))
    ensures q.AssetPartition? ==> (r <==> q.assetPartition in Members(s))
  {
    var m := s.partitionsSubsetsByAssetKey;
    match q
    case Asset(k) =>
      (k in m && |m[k]| > 0) || k in s.nonPartitionedAssetKeys
    case AssetPartition(ap) =>
      MembersIff(s, ap);
      if ap.partitionKey.None? then ap.assetKey in s.nonPartitionedAssetKeys
      else ap.assetKey in m && ap.partitionKey.value in m[ap.assetKey]
  }

  /** `get_partitions_subset`. With a graph, an unpartitioned asset is a usage
      error and a missing entry reads as the empty subset; without one, a
      missing entry is a KeyError. Either way the result holds exactly the
      asset's partition members. */
  function GetPartitionsSubset(s: AssetGraphSubset, k: AssetKey, graph: Option<AssetGraph>): (r: Result<PartitionsSubset, Error>)
    ensures graph.Some? ==> (r.Failure? <==> GetPartitionsDef(graph.value, k).None?)
    ensures graph.None? ==> (r.Failure? <==> k !in s.partitionsSubsetsByAssetKey)
    ensures r.Failure? ==> r.error == (if graph.Some? then InvalidUsage else KeyNotFound(k))
    ensures r.Success? ==> forall p :: p in r.value <==> AssetKeyPartitionKey(k, Some(p)) in Members(s)
  {
    var m := s.partitionsSubsetsByAssetKey;
    var result :=
      if graph.Some? then
        match GetPartitionsDef(graph.value, k)
        case None => Failure(InvalidUsage)
        case Some(_) => Success(if k in m then m[k] else {})
      else if k in m then Success(m[k])
      else Failure(KeyNotFound(k));
    assert result.Success? ==> forall p :: p in result.value <==> AssetKeyPartitionKey(k, Some(p)) in Members(s) by {
      forall p { MembersIff(s, AssetKeyPartitionKey(k, Some(p))); }
    }
    result
  }

  /** `filter_asset_keys`: keeps the members whose asset is among `keys`. */
  function FilterAssetKeys(s: AssetGraphSubset, keys: set<AssetKey>): (r: AssetGraphSubset)
    ensures forall ap :: ap in Members(r) <==> ap in Members(s) && ap.assetKey in keys
    ensures AssetKeys(r) == AssetKeys(s) * keys
  {
    var m := s.partitionsSubsetsByAssetKey;
    var result := AssetGraphSubset(map k | k in m && k in keys :: m[k], s.nonPartitionedAssetKeys * keys);
    assert forall ap :: ap in Members(result) <==> ap in Members(s) && ap.assetKey in keys by {
      forall ap ensures ap in Members(result) <==> ap in Members(s) && ap.assetKey in keys {
        MembersIff(s, ap);
        MembersIff(result, ap);
      }
    }
    result
  }

  /** `__eq__`: field-wise equality of the stored mapping and set. */
  function Equals(s: AssetGraphSubset, t: AssetGraphSubset): (r: bool)
    ensures r ==> Members(s) == Members(t)
    ensures r <==> s == t
  {
    s.partitionsSubsetsByAssetKey == t.partitionsSubsetsByAssetKey
      && s.nonPartitionedAssetKeys == t.nonPartitionedAssetKeys
  }

  /** Equality compares representations, not members: an entry with an empty
      subset makes two subsets with the same members unequal. */
  lemma EqualityIsRepresentational()
    ensures var k := AssetKey(["a"]);
            var s := AssetGraphSubset(map[k := {}], {});
            var t := AssetGraphSubset(map[], {});
            Members(s) == Members(t) && AssetKeys(s) == AssetKeys(t) && !Equals(s, t)
  {
    var k := AssetKey(["a"]);
    var s := AssetGraphSubset(map[k := {}], {});
    var t := AssetGraphSubset(map[], {});
    forall ap ensures ap in Members(s) <==> ap in Members(t) {
      MembersIff(s, ap);
      MembersIff(t, ap);
    }
    assert k in s.partitionsSubsetsByAssetKey && k !in t.partitionsSubsetsByAssetKey;
  }

  lemma RowCardinality(k: AssetKey, subset: PartitionsSubset)
    ensures |Row(k, subset)| == |subset|
    decreases |subset|
  {
    if subset != {} {
      var p :| p in subset;
      var rest := subset - {p};
      RowCardinality(k, rest);
      assert Row(k, subset) == Row(k, rest) + {AssetKeyPartitionKey(k, Some(p))};
    }
  }

  lemma NonPartitionedMembersCardinality(keys: set<AssetKey>)
    ensures |NonPartitionedMembers(keys)| == |keys|
    decreases |keys|
  {
    if keys != {} {
      var k :| k in keys;
      var rest := keys - {k};
      NonPartitionedMembersCardinality(rest);
      assert NonPartitionedMembers(keys) == NonPartitionedMembers(rest) + {AssetKeyPartitionKey(k, None)};
    }
  }

  lemma PartitionedMembersStep(m: map<AssetKey, PartitionsSubset>, done: set<AssetKey>, k: AssetKey)
    requires k in m && k !in done
    ensures PartitionedMembers(m, done + {k}) == PartitionedMembers(m, done) + Row(k, m[k])
    ensures PartitionedMembers(m, done) !! Row(k, m[k])
  {
    forall ap | ap in Row(k, m[k]) ensures ap in PartitionedMembers(m, done + {k}) {
      var p :| p in m[k] && ap == AssetKeyPartitionKey(k, Some(p));
    }
  }

  lemma CountStep(m: map<AssetKey, PartitionsSubset>, done: set<AssetKey>, k: AssetKey)
    requires k in m && k !in done
    ensures |PartitionedMembers(m, done + {k})| == |PartitionedMembers(m, done)| + |m[k]|
  {
    PartitionedMembersStep(m, done, k);
    RowCardinality(k, m[k]);
  }

  /** `num_partitions_and_non_partitioned_assets`: the number of unpartitioned
      assets plus the lengths of all stored subsets, which is the number of
      members. */
  method NumPartitionsAndNonPartitionedAssets(s: AssetGraphSubset) returns (n: nat)
    ensures n == |Members(s)|
  {
    var m := s.partitionsSubsetsByAssetKey;
    n := |s.nonPartitionedAssetKeys|;
    var todo := m.Keys;
    ghost var done: set<AssetKey> := {};
    assert PartitionedMembers(m, done) == {};
    while todo != {}
      invariant todo !! done && todo + done == m.Keys
      invariant n == |s.nonPartitionedAssetKeys| + |PartitionedMembers(m, done)|
      decreases todo
    {
      var k :| k in todo;
      CountStep(m, done, k);
      n := n + |m[k]|;
      todo, done := todo - {k}, done + {k};
    }
    assert done == m.Keys;
    MembersCardinality(s);
  }

  lemma MembersCardinality(s: AssetGraphSubset)
    ensures |Members(s)| == |PartitionedMembers(s.partitionsSubsetsByAssetKey, s.partitionsSubsetsByAssetKey.Keys)|
                            + |s.nonPartitionedAssetKeys|
  {
    NonPartitionedMembersCardinality(s.nonPartitionedAssetKeys);
    var pm := PartitionedMembers(s.partitionsSubsetsByAssetKey, s.partitionsSubsetsByAssetKey.Keys);
    var npm := NonPartitionedMembers(s.nonPartitionedAssetKeys);
    assert forall ap :: ap in pm ==> ap.partitionKey.Some?;
    assert forall ap :: ap in npm ==> ap.partitionKey.None?;
    assert pm !! npm;
  }

  /** `iterate_asset_partitions`: every member exactly once, the partitioned
      members first, one asset's partitions as a contiguous block, and the
      unpartitioned assets after them. The order among assets and among one
      asset's partitions is not modelled. */
  method IterateAssetPartitions(s: AssetGraphSubset) returns (r: seq<AssetKeyPartitionKey>)
    ensures forall i, j :: 0 <= i < j < |r| ==> r[i] != r[j]
    ensures forall ap :: ap in r <==> ap in Members(s)
    ensures forall i, j :: 0 <= i < j < |r| && r[i].partitionKey.None? ==> r[j].partitionKey.None?
    ensures Contiguous(r)
  {
    var m := s.partitionsSubsetsByAssetKey;
    r := [];
    var todo := m.Keys;
    ghost var done: set<AssetKey> := {};
    while todo != {}
      invariant todo !! done && todo + done == m.Keys
      invariant forall i, j :: 0 <= i < j < |r| ==> r[i] != r[j]
      invariant forall ap :: ap in r <==> ap in PartitionedMembers(m, done)
      invariant forall i :: 0 <= i < |r| ==> r[i].partitionKey.Some? && r[i].assetKey in done
      invariant Contiguous(r)
      decreases todo
    {
      var k :| k in todo;
      PartitionedMembersStep(m, done, k);
      ghost var before := r;
      r := AppendAssetPartitions(r, k, m[k]);
      forall i | 0 <= i < |r| ensures r[i].partitionKey.Some? && r[i].assetKey in done + {k} {
        if i < |before| {
          assert r[i] == before[i];
        }
      }
      todo, done := todo - {k}, done + {k};
    }
    var rest := s.nonPartitionedAssetKeys;
    ghost var yielded: set<AssetKey> := {};
    while rest != {}
      invariant rest !! yielded && rest + yielded == s.nonPartitionedAssetKeys
      invariant forall i, j :: 0 <= i < j < |r| ==> r[i] != r[j]
      invariant forall ap :: ap in r <==> ap in PartitionedMembers(m, m.Keys) || ap in NonPartitionedMembers(yielded)
      invariant forall i, j :: 0 <= i < j < |r| && r[i].partitionKey.None? ==> r[j].partitionKey.None?
      invariant Contiguous(r)
      decreases rest
    {
      var k :| k in rest;
      var ap := AssetKeyPartitionKey(k, None);
      assert ap !in r;
      ContiguousAppendUnpartitioned(r, ap);
      r := r + [ap];
      rest, yielded := rest - {k}, yielded + {k};
    }
  }

  /** The inner loop of `iterate_asset_partitions`: appends the members of
      asset `k` with the partition keys of `subset`, one after the other. */
  method AppendAssetPartitions(r0: seq<AssetKeyPartitionKey>, k: AssetKey, subset: PartitionsSubset)
    returns (r: seq<AssetKeyPartitionKey>)
    requires forall i, j :: 0 <= i < j < |r0| ==> r0[i] != r0[j]
    requires forall i :: 0 <= i < |r0| ==> r0[i].assetKey != k
    requires Contiguous(r0)
    ensures |r0| <= |r| && r[..|r0|] == r0
    ensures forall i :: |r0| <= i < |r| ==> r[i].assetKey == k && r[i].partitionKey.Some?
    ensures forall ap :: ap in r <==> ap in r0 || ap in Row(k, subset)
    ensures forall i, j :: 0 <= i < j < |r| ==> r[i] != r[j]
    ensures Contiguous(r)
  {
    r := r0;
    var keys := subset;
    ghost var taken: set<PartitionKey> := {};
    while keys != {}
      invariant keys !! taken && keys + taken == subset
      invariant |r0| <= |r| && r[..|r0|] == r0
      invariant forall i :: |r0| <= i < |r| ==> r[i].assetKey == k && r[i].partitionKey.Some?
      invariant forall ap :: ap in r <==> ap in r0 || ap in Row(k, taken)
      invariant forall i, j :: 0 <= i < j < |r| ==> r[i] != r[j]
      invariant Contiguous(r)
      decreases keys
    {
      var p :| p in keys;
      var ap := AssetKeyPartitionKey(k, Some(p));
      assert ap !in r0;
      assert ap !in r;
      ContiguousAppendBlock(r, |r0|, ap);
      r := r + [ap];
      keys, taken := keys - {p}, taken + {p};
    }
  }

  /** The partitioned members of one asset in `r` sit in one contiguous
      block: between two of them there is nothing of another asset. */
  ghost predicate Contiguous(r: seq<AssetKeyPartitionKey>)
  {
    forall i, j, l :: 0 <= i < j < l < |r| && r[l].partitionKey.Some? && r[i].assetKey == r[l].assetKey ==>
      r[j].assetKey == r[i].assetKey
  }

  /** Appending to the block of the last asset, which no earlier element has,
      keeps the blocks contiguous. */
  lemma ContiguousAppendBlock(r: seq<AssetKeyPartitionKey>, start: nat, ap: AssetKeyPartitionKey)
    requires Contiguous(r) && start <= |r|
    requires forall i :: 0 <= i < start ==> r[i].assetKey != ap.assetKey
    requires forall i :: start <= i < |r| ==> r[i].assetKey == ap.assetKey
    ensures Contiguous(r + [ap])
  {
    var r' := r + [ap];
    forall i, j, l | 0 <= i < j < l < |r'| && r'[l].partitionKey.Some? && r'[i].assetKey == r'[l].assetKey
      ensures r'[j].assetKey == r'[i].assetKey
    {
      if l == |r| {
        assert start <= i;
      }
    }
  }

  /** Appending an unpartitioned member keeps the blocks contiguous. */
  lemma ContiguousAppendUnpartitioned(r: seq<AssetKeyPartitionKey>, ap: AssetKeyPartitionKey)
    requires Contiguous(r) && ap.partitionKey.None?
    ensures Contiguous(r + [ap])
  {
    var r' := r + [ap];
    forall i, j, l | 0 <= i < j < l < |r'| && r'[l].partitionKey.Some? && r'[i].assetKey == r'[l].assetKey
      ensures r'[j].assetKey == r'[i].assetKey
    {
      assert r'[l] == r[l];
    }
  }
}
