/** Union, difference and intersection of asset graph subsets: one pointwise
    combinator applied to the keys of the right operand, starting from a copy
    of the left operand. */
module SetAlgebra {
  import opened Wrappers
  import opened AssetGraphs
  import opened AssetGraphSubsets

  /** The Python operator handed to the combinator: `|`, `-` or `&`. */
  datatype SetOperator = Or | Sub | And

  /** The operator applied to two sets (of asset keys or of partition keys). */
  function Apply<T>(op: SetOperator, a: set<T>, b: set<T>): set<T>
  {
    match op
    case Or => a + b
    case Sub => a - b
    case And => a * b
  }

  /** The keys of `other` that the combinator treats as partitioned: effective
      keys that are not unpartitioned members. */
  function PartitionedKeysOf(other: AssetGraphSubset): set<AssetKey>
  {
    AssetKeys(other) - other.nonPartitionedAssetKeys
  }

  /** The invariant checks of the combinator pass: no unpartitioned key of
      `other` is a key of `s`'s mapping (even one mapped to an empty subset),
      and no partitioned key of `other` is an unpartitioned key of `s`. */
  predicate OperandsConsistent(s: AssetGraphSubset, other: AssetGraphSubset)
  {
    other.nonPartitionedAssetKeys !! s.partitionsSubsetsByAssetKey.Keys
      && PartitionedKeysOf(other) !! s.nonPartitionedAssetKeys
  }

  /** The unpartitioned keys once the operator has been applied to the running
      set with each key of `applied` as a singleton. For `&`, the running set is
      replaced by its intersection with each singleton in turn, so only a key
      that is the sole applied key survives. */
  function NonPartitionedAfter(op: SetOperator, left: set<AssetKey>, applied: set<AssetKey>): set<AssetKey>
  {
    match op
    case Or => left + applied
    case Sub => left - applied
    case And => if applied == {} then left else set k | k in left && applied == {k}
  }

  /** The mapping once the keys of `applied` (partitioned keys of `other`) have
      been combined: a key present on both sides gets the operator applied to
      both subsets; a key absent on the left is taken from `other` by `|` and
      stays absent otherwise; every other entry of `s` is kept. */
  function PartitionsAfter(s: AssetGraphSubset, other: AssetGraphSubset, op: SetOperator, applied: set<AssetKey>): map<AssetKey, PartitionsSubset>
  {
    var m, o := s.partitionsSubsetsByAssetKey, other.partitionsSubsetsByAssetKey;
    map k | k in m.Keys + (if op == Or then applied * o.Keys else {}) ::
      if k in applied && k in o then (if k in m then Apply(op, m[k], o[k]) else o[k]) else m[k]
  }

  /** The result of `_oper` when its invariant checks pass. */
  function OperResult(s: AssetGraphSubset, other: AssetGraphSubset, op: SetOperator): AssetGraphSubset
  {
    AssetGraphSubset(
      PartitionsAfter(s, other, op, PartitionedKeysOf(other)),
      NonPartitionedAfter(op, s.nonPartitionedAssetKeys, other.nonPartitionedAssetKeys))
  }

  lemma NonPartitionedStep(op: SetOperator, left: set<AssetKey>, applied: set<AssetKey>, k: AssetKey)
    requires k !in applied
    ensures NonPartitionedAfter(op, left, applied + {k}) == Apply(op, NonPartitionedAfter(op, left, applied), {k})
  {
    if op == And && applied != {} {
      var before := NonPartitionedAfter(op, left, applied);
      forall x | x in before ensures x == k ==> false {
        assert applied == {x};
      }
      var y :| y in applied;
      forall x ensures applied + {k} != {x} {
        if x == k {
          assert y in applied + {k} && y !in {x};
        } else {
          assert k in applied + {k} && k !in {x};
        }
      }
    }
  }

  lemma PartitionsStep(s: AssetGraphSubset, other: AssetGraphSubset, op: SetOperator, applied: set<AssetKey>, k: AssetKey)
    requires k !in applied && k in other.partitionsSubsetsByAssetKey
    ensures var m, o := s.partitionsSubsetsByAssetKey, other.partitionsSubsetsByAssetKey;
            var before := PartitionsAfter(s, other, op, applied);
            PartitionsAfter(s, other, op, applied + {k}) ==
              if k in m then before[k := Apply(op, m[k], o[k])]
              else if op == Or then before[k := o[k]]
              else before
  {
  }

  /** `_oper`: copies the left operand, then walks the effective keys of
      `other`. An unpartitioned key of `other` is combined into the running
      unpartitioned set; a partitioned key combines the two stored subsets.
      The `del` branch of the source is unreachable (the right subset of an
      effective partitioned key is always stored) and is not modelled. */
  method Oper(s: AssetGraphSubset, other: AssetGraphSubset, op: SetOperator) returns (r: Result<AssetGraphSubset, Error>)
    ensures OperandsConsistent(s, other) ==> r == Success(OperResult(s, other, op))
    ensures !OperandsConsistent(s, other) ==> r == Failure(InvariantViolation)
  {
    var m, o := s.partitionsSubsetsByAssetKey, other.partitionsSubsetsByAssetKey;
    var np := other.nonPartitionedAssetKeys;
    var resultPartitions := m;
    var resultNonPartitioned := s.nonPartitionedAssetKeys;
    var todo := AssetKeys(other);
    ghost var npDone: set<AssetKey> := {};
    ghost var partitionedDone: set<AssetKey> := {};
    while todo != {}
      invariant todo !! npDone && todo !! partitionedDone && todo + npDone + partitionedDone == AssetKeys(other)
      invariant npDone <= np && partitionedDone !! np
      invariant npDone !! m.Keys && partitionedDone !! s.nonPartitionedAssetKeys
      invariant resultNonPartitioned == NonPartitionedAfter(op, s.nonPartitionedAssetKeys, npDone)
      invariant resultPartitions == PartitionsAfter(s, other, op, partitionedDone)
      decreases todo
    {
      var k :| k in todo;
      if k in np {
        if k in m {
          return Failure(InvariantViolation);
        }
        NonPartitionedStep(op, s.nonPartitionedAssetKeys, npDone, k);
        resultNonPartitioned := Apply(op, resultNonPartitioned, {k});
        npDone := npDone + {k};
      } else {
        if k in s.nonPartitionedAssetKeys {
          assert k in PartitionedKeysOf(other);
          return Failure(InvariantViolation);
        }
        PartitionsStep(s, other, op, partitionedDone, k);
        var subset := if k in m then Some(m[k]) else None;
        var otherSubset := o[k];
        if subset.Some? {
          resultPartitions := resultPartitions[k := Apply(op, subset.value, otherSubset)];
        }
        if subset.None? && op == Or {
          resultPartitions := resultPartitions[k := otherSubset];
        }
        partitionedDone := partitionedDone + {k};
      }
      todo := todo - {k};
    }
    assert npDone == np && partitionedDone == PartitionedKeysOf(other);
    return Success(AssetGraphSubset(resultPartitions, resultNonPartitioned));
  }

  /** `__or__`. */
  method Union(s: AssetGraphSubset, other: AssetGraphSubset) returns (r: Result<AssetGraphSubset, Error>)
    ensures r.Success? <==> OperandsConsistent(s, other)
    ensures r.Failure? ==> r.error == InvariantViolation
    ensures r.Success? ==> r.value == OperResult(s, other, Or)
    ensures r.Success? ==> AssetKeys(r.value) == AssetKeys(s) + AssetKeys(other)
  {
    r := Oper(s, other, Or);
    UnionAssetKeys(s, other);
  }

  /** `__sub__`. */
  method Difference(s: AssetGraphSubset, other: AssetGraphSubset) returns (r: Result<AssetGraphSubset, Error>)
    ensures r.Success? <==> OperandsConsistent(s, other)
    ensures r.Failure? ==> r.error == InvariantViolation
    ensures r.Success? ==> r.value == OperResult(s, other, Sub)
    ensures r.Success? ==> forall ap :: ap in Members(r.value) <==> ap in Members(s) && ap !in Members(other)
  {
    r := Oper(s, other, Sub);
    if r.Success? {
      forall ap ensures ap in Members(r.value) <==> ap in Members(s) && ap !in Members(other) {
        DifferenceMembers(s, other, ap);
      }
    }
  }

  /** `__and__`. */
  method Intersection(s: AssetGraphSubset, other: AssetGraphSubset) returns (r: Result<AssetGraphSubset, Error>)
    ensures r.Success? <==> OperandsConsistent(s, other)
    ensures r.Failure? ==> r.error == InvariantViolation
    ensures r.Success? ==> r.value == OperResult(s, other, And)
  {
    r := Oper(s, other, And);
  }

  // ---------------------------------------------------------------------------
  // Properties of the combinator

  /** Entries of the left operand's mapping whose key is not an effective key
      of `other` reach the result unchanged, for every operator; so do its
      unpartitioned keys under `|` and `-`. */
  lemma OperKeepsLeftOnlyEntries(s: AssetGraphSubset, other: AssetGraphSubset, op: SetOperator, k: AssetKey)
    requires k !in AssetKeys(other)
    ensures var r := OperResult(s, other, op);
            (k in r.partitionsSubsetsByAssetKey <==> k in s.partitionsSubsetsByAssetKey)
            && (k in s.partitionsSubsetsByAssetKey ==> r.partitionsSubsetsByAssetKey[k] == s.partitionsSubsetsByAssetKey[k])
            && (op != And ==> (k in r.nonPartitionedAssetKeys <==> k in s.nonPartitionedAssetKeys))
  {
  }

  /** Under `&`, an unpartitioned key of the left operand that the right
      operand does not mention survives only when the right operand has no
      unpartitioned key at all: one different unpartitioned key on the right
      already drops it. */
  lemma IntersectionDropsLeftOnlyUnpartitioned(s: AssetGraphSubset, other: AssetGraphSubset, k: AssetKey)
    requires k in s.nonPartitionedAssetKeys && k !in AssetKeys(other)
    ensures k in OperResult(s, other, And).nonPartitionedAssetKeys <==> other.nonPartitionedAssetKeys == {}
  {
  }

  /** `s & s` is not `s` once `s` has two unpartitioned assets. */
  lemma IntersectionNotIdempotent()
    ensures var s := AssetGraphSubset(map[], {AssetKey(["a"]), AssetKey(["b"])});
            OperandsConsistent(s, s) && OperResult(s, s, And) != s
  {
    var a, b := AssetKey(["a"]), AssetKey(["b"]);
    var s := AssetGraphSubset(map[], {a, b});
    assert PartitionedAssetKeys(s) == {};
    var r := OperResult(s, s, And);
    assert b in {a, b} && b !in {a};
    assert a !in r.nonPartitionedAssetKeys;
  }

  /** `&` is not a true intersection: a partitioned entry of the left operand
      whose asset the right operand does not mention is kept. */
  lemma IntersectionKeepsLeftOnlyPartitions()
    ensures var a := AssetKey(["a"]);
            var s := AssetGraphSubset(map[a := {"p"}], {});
            var other := AssetGraphSubset(map[], {});
            OperandsConsistent(s, other) && OperResult(s, other, And) == s
  {
  }

  /** The effective keys of a union are the union of the effective keys. */
  lemma UnionAssetKeys(s: AssetGraphSubset, other: AssetGraphSubset)
    ensures AssetKeys(OperResult(s, other, Or)) == AssetKeys(s) + AssetKeys(other)
  {
    var r := OperResult(s, other, Or);
    var m, o, rm := s.partitionsSubsetsByAssetKey, other.partitionsSubsetsByAssetKey, r.partitionsSubsetsByAssetKey;
    var kp := PartitionedKeysOf(other);
    forall k ensures k in PartitionedAssetKeys(r) <==> k in PartitionedAssetKeys(s) || k in kp {
      if k in kp {
        assert k in o && |o[k]| > 0 && k in rm;
        assert o[k] <= rm[k];
      } else if k in m {
        assert rm[k] == m[k];
      }
    }
  }

  /** A partitioned key of `other` that the left operand's mapping lacks is
      taken over with exactly `other`'s subset by `|`, and stays absent under
      `-` and `&`. */
  lemma MissingLeftEntry(s: AssetGraphSubset, other: AssetGraphSubset, k: AssetKey)
    requires k in PartitionedKeysOf(other) && k !in s.partitionsSubsetsByAssetKey
    ensures var r := OperResult(s, other, Or).partitionsSubsetsByAssetKey;
            k in r && r[k] == other.partitionsSubsetsByAssetKey[k]
    ensures k !in OperResult(s, other, Sub).partitionsSubsetsByAssetKey
    ensures k !in OperResult(s, other, And).partitionsSubsetsByAssetKey
  {
  }

  /** A partitioned key present on both sides gets the operator applied to
      both stored subsets. */
  lemma SharedEntry(s: AssetGraphSubset, other: AssetGraphSubset, op: SetOperator, k: AssetKey)
    requires k in PartitionedKeysOf(other) && k in s.partitionsSubsetsByAssetKey
    ensures var r := OperResult(s, other, op).partitionsSubsetsByAssetKey;
            k in r && r[k] == Apply(op, s.partitionsSubsetsByAssetKey[k], other.partitionsSubsetsByAssetKey[k])
  {
  }

  /** `s | s` succeeds exactly when no key of `s` is both a mapping key and an
      unpartitioned key, and then gives back `s`. */
  lemma UnionIdempotent(s: AssetGraphSubset)
    ensures OperandsConsistent(s, s) <==> s.partitionsSubsetsByAssetKey.Keys !! s.nonPartitionedAssetKeys
    ensures OperandsConsistent(s, s) ==> OperResult(s, s, Or) == s
  {
    if OperandsConsistent(s, s) {
      var m := s.partitionsSubsetsByAssetKey;
      var rm := OperResult(s, s, Or).partitionsSubsetsByAssetKey;
      assert rm.Keys == m.Keys;
      forall k | k in m ensures rm[k] == m[k] {}
    }
  }

  /** A member is in `a - b` iff it is in `a` and not in `b`. */
  lemma DifferenceMembers(a: AssetGraphSubset, b: AssetGraphSubset, ap: AssetKeyPartitionKey)
    requires OperandsConsistent(a, b)
    ensures ap in Members(OperResult(a, b, Sub)) <==> ap in Members(a) && ap !in Members(b)
  {
    var r := OperResult(a, b, Sub);
    MembersIff(r, ap);
    MembersIff(a, ap);
    MembersIff(b, ap);
    var k := ap.assetKey;
    var am, bm := a.partitionsSubsetsByAssetKey, b.partitionsSubsetsByAssetKey;
    if ap.partitionKey.Some? && k in bm && ap.partitionKey.value in bm[k] && k !in PartitionedKeysOf(b) {
      assert k in b.nonPartitionedAssetKeys;
    }
  }

  /** `s - s` has no effective keys when the invariant checks pass. */
  lemma DifferenceWithSelfIsEmpty(s: AssetGraphSubset)
    requires OperandsConsistent(s, s)
    ensures AssetKeys(OperResult(s, s, Sub)) == {}
  {
    var r := OperResult(s, s, Sub);
    forall k | k in PartitionedAssetKeys(r) ensures false {
      var p :| p in r.partitionsSubsetsByAssetKey[k];
      DifferenceMembers(s, s, AssetKeyPartitionKey(k, Some(p)));
      MembersIff(r, AssetKeyPartitionKey(k, Some(p)));
    }
  }

  /** Union holds exactly the members of both operands, provided the right
      operand is `Disjoint` (a key that is both unpartitioned and
      partitioned on the right is combined as unpartitioned only). */
  lemma UnionMembers(a: AssetGraphSubset, b: AssetGraphSubset, ap: AssetKeyPartitionKey)
    requires OperandsConsistent(a, b) && Disjoint(b)
    ensures ap in Members(OperResult(a, b, Or)) <==> ap in Members(a) || ap in Members(b)
  {
    var r := OperResult(a, b, Or);
    MembersIff(r, ap);
    MembersIff(a, ap);
    MembersIff(b, ap);
    var k := ap.assetKey;
    var bm := b.partitionsSubsetsByAssetKey;
    if ap.partitionKey.Some? && k in bm && ap.partitionKey.value in bm[k] {
      assert k in PartitionedAssetKeys(b);
    }
  }

  /** The worked example of a two-asset graph: asset A partitioned by day
      and B unpartitioned, with S1 = {A: [d1], B} and S2 = {A: [d2]} for two
      different days d1 and d2. */
  function ExampleS1(a: AssetKey, b: AssetKey, d1: PartitionKey): AssetGraphSubset
  {
    AssetGraphSubset(map[a := {d1}], {b})
  }

  function ExampleS2(a: AssetKey, d2: PartitionKey): AssetGraphSubset
  {
    AssetGraphSubset(map[a := {d2}], {})
  }

  lemma ExampleKeys(a: AssetKey, b: AssetKey, d1: PartitionKey, d2: PartitionKey)
    requires a != b
    ensures PartitionedKeysOf(ExampleS2(a, d2)) == {a}
    ensures OperandsConsistent(ExampleS1(a, b, d1), ExampleS2(a, d2))
  {
    assert PartitionedAssetKeys(ExampleS2(a, d2)) == {a};
    assert AssetKeys(ExampleS2(a, d2)) == {a};
  }

  /** In the example, S1 | S2 holds both days of A, and B. */
  lemma ExampleUnion(a: AssetKey, b: AssetKey, d1: PartitionKey, d2: PartitionKey)
    requires a != b
    ensures OperResult(ExampleS1(a, b, d1), ExampleS2(a, d2), Or) == AssetGraphSubset(map[a := {d1, d2}], {b})
  {
    ExampleKeys(a, b, d1, d2);
    ExampleUnionPartitions(a, b, d1, d2);
  }

  lemma ExampleUnionPartitions(a: AssetKey, b: AssetKey, d1: PartitionKey, d2: PartitionKey)
    ensures PartitionsAfter(ExampleS1(a, b, d1), ExampleS2(a, d2), Or, {a}) == map[a := {d1, d2}]
  {
    var r := PartitionsAfter(ExampleS1(a, b, d1), ExampleS2(a, d2), Or, {a});
    assert r.Keys == {a} && r[a] == {d1, d2};
  }

  /** In the example, S1 - S2 is S1. */
  lemma ExampleDifference(a: AssetKey, b: AssetKey, d1: PartitionKey, d2: PartitionKey)
    requires a != b && d1 != d2
    ensures OperResult(ExampleS1(a, b, d1), ExampleS2(a, d2), Sub) == ExampleS1(a, b, d1)
  {
    ExampleKeys(a, b, d1, d2);
    ExampleDifferencePartitions(a, b, d1, d2);
  }

  lemma ExampleDifferencePartitions(a: AssetKey, b: AssetKey, d1: PartitionKey, d2: PartitionKey)
    requires d1 != d2
    ensures PartitionsAfter(ExampleS1(a, b, d1), ExampleS2(a, d2), Sub, {a}) == map[a := {d1}]
  {
    var r := PartitionsAfter(ExampleS1(a, b, d1), ExampleS2(a, d2), Sub, {a});
    assert d1 !in {d2};
    assert Apply(Sub, {d1}, {d2}) == {d1};
    assert r.Keys == {a};
  }

  /** In the example, S1 & S2 maps A to an empty subset, so A is not an
      effective key, and keeps B, which S2 does not mention. */
  lemma ExampleIntersection(a: AssetKey, b: AssetKey, d1: PartitionKey, d2: PartitionKey)
    requires a != b && d1 != d2
    ensures OperResult(ExampleS1(a, b, d1), ExampleS2(a, d2), And) == AssetGraphSubset(map[a := {}], {b})
    ensures AssetKeys(OperResult(ExampleS1(a, b, d1), ExampleS2(a, d2), And)) == {b}
  {
    ExampleKeys(a, b, d1, d2);
    ExampleIntersectionPartitions(a, b, d1, d2);
    assert PartitionedAssetKeys(AssetGraphSubset(map[a := {}], {b})) == {};
  }

  lemma ExampleIntersectionPartitions(a: AssetKey, b: AssetKey, d1: PartitionKey, d2: PartitionKey)
    requires d1 != d2
    ensures PartitionsAfter(ExampleS1(a, b, d1), ExampleS2(a, d2), And, {a}) == map[a := {}]
  {
    var r := PartitionsAfter(ExampleS1(a, b, d1), ExampleS2(a, d2), And, {a});
    assert d2 !in {d1};
    assert Apply(And, {d1}, {d2}) == {};
    assert r.Keys == {a};
  }

  /** In the example, filtering S1 to A keeps A's day and drops B. */
  lemma ExampleFilter(a: AssetKey, b: AssetKey, d1: PartitionKey)
    requires a != b
    ensures FilterAssetKeys(ExampleS1(a, b, d1), {a}) == AssetGraphSubset(map[a := {d1}], {})
  {
    var r := FilterAssetKeys(ExampleS1(a, b, d1), {a});
    assert r.partitionsSubsetsByAssetKey.Keys == {a};
  }
}
