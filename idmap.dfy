/** The dense id map (IdMap.java): external (long) node ids are assigned
    consecutive mapped (int) ids by a counter `nextGraphId`, recorded in a
    forward map, and `buildMappedIds` inverts the forward map into the array
    `graphIds`. */
module IdMapping {
  import opened Sequences

  /** `getOrDefault(key, -1)` on the forward map. */
  function Lookup(m: map<int, int>, key: int): (r: int)
    ensures key in m ==> r == m[key]
    ensures key !in m ==> r == -1
  {
    if key in m then m[key] else -1
  }

  ghost predicate Injective(m: map<int, int>)
  {
    forall k1, k2 :: k1 in m && k2 in m && m[k1] == m[k2] ==> k1 == k2
  }

  /** The forward map gives each of its keys its own mapped id below `next`,
      and there are `next` keys. */
  ghost predicate Dense(m: map<int, int>, next: int)
  {
    |m| == next && Injective(m) && forall k :: k in m ==> 0 <= m[k] < next
  }

  lemma DenseBound(m: map<int, int>, next: int, k: int)
    requires Dense(m, next) && k in m
    ensures 0 <= m[k] < next
  {
  }

  /** Every stored mapped id indexes an array of one cell per key. */
  ghost predicate BuildSafe(m: map<int, int>)
  {
    forall k :: k in m ==> 0 <= m[k] < |m|
  }

  /** The mapped ids 0..n-1 as a set. */
  function IdSet(n: nat): (r: set<int>)
    ensures forall x :: x in r <==> 0 <= x < n
    ensures |r| == n
  {
    if n == 0 then {} else IdSet(n - 1) + {n - 1}
  }

  /** Distinct keys with distinct ids: as many ids as keys. */
  lemma {:induction false} InjectiveValuesCount(m: map<int, int>)
    requires Injective(m)
    ensures |m.Values| == |m|
    decreases |m|
  {
    if m != map[] {
      var k := Pick(m.Keys);
      var m' := m - {k};
      assert m'.Keys == m.Keys - {k};
      assert Injective(m');
      InjectiveValuesCount(m');
      forall v | v in m.Values ensures v in m'.Values + {m[k]} {
        var k2 := PickKeyOf(m, v);
        if k2 != k {
          assert k2 in m' && m'[k2] == v;
        }
      }
      forall v | v in m'.Values ensures v != m[k] {
        var k2 := PickKeyOf(m', v);
      }
      assert m.Values == m'.Values + {m[k]};
    }
  }

  /** With only fresh keys assigned, the mapped ids are exactly 0..next-1. */
  lemma DenseCoversIds(m: map<int, int>, next: int)
    requires Dense(m, next)
    ensures m.Values == IdSet(next)
  {
    var ids := IdSet(next);
    InjectiveValuesCount(m);
    forall v | v in m.Values ensures v in ids {
      var k := PickKeyOf(m, v);
    }
    assert |ids - m.Values| == |ids| - |m.Values|;
  }

  /** A key that carries a given mapped id. */
  lemma PickKeyOf(m: map<int, int>, i: int) returns (k: int)
    requires i in m.Values
    ensures k in m && m[k] == i
  {
    if forall y :: y in m ==> m[y] != i {
      assert false;
    }
    k :| k in m && m[k] == i;
  }

  /** `mapOrGet` on an unseen key keeps the assignment dense. */
  lemma InsertKeepsDense(m: map<int, int>, next: int, key: int)
    requires Dense(m, next) && key !in m
    ensures Dense(m[key := next], next + 1)
  {
    assert m[key := next].Keys == m.Keys + {key};
  }

  /** `add` of a key that is already present orphans its old id: the map then
      has fewer keys than the counter, and one id lies outside the array that
      `buildMappedIds` allocates. */
  lemma DuplicateAddBreaksBuild(m: map<int, int>, next: int, key: int)
    requires Dense(m, next) && key in m
    ensures |m[key := next]| < next + 1
    ensures !BuildSafe(m[key := next])
  {
    assert m[key := next].Keys == m.Keys;
  }

  /** `IdIterator`: yields current, current+1, ..., limit-1. */
  class IdIterator {
    var current: int
    var limit: int

    ghost function Remaining(): seq<int>
      reads this
    {
      Interval(current, limit)
    }

    constructor ()
      ensures current == 0 && limit == 0 && Remaining() == []
    {
      current := 0;
      limit := 0;
    }

    method Reset(limit: int) returns (it: IdIterator)
      modifies this
      ensures it == this && this.current == 0 && this.limit == limit
      ensures Remaining() == Interval(0, limit)
    {
      current := 0;
      this.limit := limit;
      it := this;
    }

    function HasNext(): (r: bool)
      reads this
      ensures r <==> Remaining() != []
    {
      current < limit
    }

    method Next() returns (r: int)
      modifies this`current
      ensures r == old(current) && current == old(current) + 1
      ensures old(Remaining()) != [] ==> r == old(Remaining())[0] && Remaining() == old(Remaining())[1..]
    {
      r := current;
      current := current + 1;
    }
  }

  class IdMap {
    const iter: IdIterator
    var nextGraphId: nat
    var graphIds: array?<int>
    var nodeToGraphIds: map<int, int>

    /** `graphIds` is the inverse of the forward map. */
    ghost predicate Inverse()
      reads this, graphIds
    {
      graphIds != null && graphIds.Length == |nodeToGraphIds| &&
      forall k :: k in nodeToGraphIds ==>
        0 <= nodeToGraphIds[k] < graphIds.Length && graphIds[nodeToGraphIds[k]] == k
    }

    /** The capacity only sizes the hash table, which this model does not track. */
    constructor (capacity: int)
      ensures fresh(iter)
      ensures nextGraphId == 0 && graphIds == null && nodeToGraphIds == map[]
      ensures Dense(nodeToGraphIds, nextGraphId)
    {
      nodeToGraphIds := map[];
      iter := new IdIterator();
      nextGraphId := 0;
      graphIds := null;
    }

    /** The deserializing constructor: the counter resumes at `graphIds.Length`. */
    constructor Deserialized(graphIds: array<int>, nodeToGraphIds: map<int, int>)
      ensures fresh(iter)
      ensures this.graphIds == graphIds && this.nodeToGraphIds == nodeToGraphIds
      ensures nextGraphId == graphIds.Length
    {
      this.nextGraphId := graphIds.Length;
      this.graphIds := graphIds;
      this.nodeToGraphIds := nodeToGraphIds;
      iter := new IdIterator();
    }

    /** `iterator()`: re-arms the shared iterator over 0..nextGraphId-1. */
    method Iterator() returns (it: IdIterator)
      modifies iter
      ensures it == iter && it.Remaining() == Interval(0, nextGraphId)
    {
      it := iter.Reset(nextGraphId);
    }

    method MapOrGet(key: int) returns (r: int)
      modifies this`nextGraphId, this`nodeToGraphIds
      ensures Lookup(old(nodeToGraphIds), key) != -1 ==>
        r == old(nodeToGraphIds)[key] &&
        nodeToGraphIds == old(nodeToGraphIds) && nextGraphId == old(nextGraphId)
      ensures Lookup(old(nodeToGraphIds), key) == -1 ==>
        r == old(nextGraphId) &&
        nodeToGraphIds == old(nodeToGraphIds)[key := r] && nextGraphId == old(nextGraphId) + 1
      ensures old(Dense(nodeToGraphIds, nextGraphId)) ==>
        Dense(nodeToGraphIds, nextGraphId) && key in nodeToGraphIds && nodeToGraphIds[key] == r &&
        (key in old(nodeToGraphIds) <==> nextGraphId == old(nextGraphId))
    {
      r := Lookup(nodeToGraphIds, key);
      if r == -1 {
        r := nextGraphId;
        if Dense(nodeToGraphIds, nextGraphId) {
          InsertKeepsDense(nodeToGraphIds, nextGraphId, key);
        }
        nextGraphId := nextGraphId + 1;
        nodeToGraphIds := nodeToGraphIds[key := r];
      }
    }

    /** `add`: takes the next id without looking the key up first. */
    method Add(key: int)
      modifies this`nextGraphId, this`nodeToGraphIds
      ensures nodeToGraphIds == old(nodeToGraphIds)[key := old(nextGraphId)]
      ensures nextGraphId == old(nextGraphId) + 1
      ensures old(Dense(nodeToGraphIds, nextGraphId)) && key !in old(nodeToGraphIds) ==>
        Dense(nodeToGraphIds, nextGraphId)
      ensures old(Dense(nodeToGraphIds, nextGraphId)) && key in old(nodeToGraphIds) ==>
        |nodeToGraphIds| < nextGraphId && !BuildSafe(nodeToGraphIds)
    {
      if Dense(nodeToGraphIds, nextGraphId) {
        if key in nodeToGraphIds {
          DuplicateAddBreaksBuild(nodeToGraphIds, nextGraphId, key);
        } else {
          InsertKeepsDense(nodeToGraphIds, nextGraphId, key);
        }
      }
      var intValue := nextGraphId;
      nextGraphId := nextGraphId + 1;
      nodeToGraphIds := nodeToGraphIds[key := intValue];
    }

    /** `get`: a pure lookup; -1 means "not found" whenever the map is dense. */
    function Get(key: int): (r: int)
      reads this
      ensures key in nodeToGraphIds ==> r == nodeToGraphIds[key]
      ensures key !in nodeToGraphIds ==> r == -1
      ensures Dense(nodeToGraphIds, nextGraphId) ==> (r == -1 <==> key !in nodeToGraphIds)
    {
      Lookup(nodeToGraphIds, key)
    }

    /** `unmap`: once `graphIds` inverts the forward map, the external id whose
        mapped id this is. */
    function Unmap(intValue: int): (r: int)
      reads this, graphIds
      requires graphIds != null && 0 <= intValue < graphIds.Length
      ensures Inverse() ==> r in nodeToGraphIds && nodeToGraphIds[r] == intValue
    {
      InverseIsOnto(intValue);
      graphIds[intValue]
    }

    /** Inverting a map whose ids fill the array hits every cell. */
    lemma InverseIsOnto(i: int)
      requires graphIds != null && 0 <= i < graphIds.Length
      ensures Inverse() ==> graphIds[i] in nodeToGraphIds && nodeToGraphIds[graphIds[i]] == i
    {
      if !Inverse() {
        return;
      }
      var m := nodeToGraphIds;
      assert Dense(m, |m|) by {
        forall k1, k2 | k1 in m && k2 in m && m[k1] == m[k2] ensures k1 == k2 {
          assert graphIds[m[k1]] == k1 && graphIds[m[k2]] == k2;
        }
      }
      DenseCoversIds(m, |m|);
      assert i in m.Values;
      var k := PickKeyOf(m, i);
    }

    method BuildMappedIds()
      requires BuildSafe(nodeToGraphIds)
      modifies this`graphIds
      ensures fresh(graphIds) && graphIds.Length == |nodeToGraphIds|
      ensures forall i :: 0 <= i < graphIds.Length ==>
        (graphIds[i] in nodeToGraphIds && nodeToGraphIds[graphIds[i]] == i) ||
        (graphIds[i] == 0 && i !in nodeToGraphIds.Values)
      ensures Injective(nodeToGraphIds) ==> Inverse()
    {
      var m := nodeToGraphIds;
      var ids := new int[|m|](_ => 0);
      var remaining := m.Keys;
      while remaining != {}
        invariant remaining <= m.Keys
        invariant forall i :: 0 <= i < ids.Length ==>
          (ids[i] in m && ids[i] !in remaining && m[ids[i]] == i) ||
          (ids[i] == 0 && forall k :: k in m && k !in remaining ==> m[k] != i)
        invariant Injective(m) ==> forall k :: k in m && k !in remaining ==> ids[m[k]] == k
        decreases remaining
      {
        ghost var some := Pick(remaining);
        var key :| key in remaining;
        ids[m[key]] := key;
        remaining := remaining - {key};
      }
      graphIds := ids;
      forall i | 0 <= i < ids.Length && ids[i] == 0 && !(ids[i] in m && m[ids[i]] == i)
        ensures i !in m.Values
      {
        if i in m.Values {
          var k := PickKeyOf(m, i);
        }
      }
    }

    function Size(): (r: nat)
      reads this
      ensures Dense(nodeToGraphIds, nextGraphId) ==> r == |nodeToGraphIds|
    {
      nextGraphId
    }

    function NodeCount(): (r: nat)
      reads this
      requires graphIds != null
      ensures Inverse() ==> r == |nodeToGraphIds|
    {
      graphIds.Length
    }

    /** `forEach`: offers 0..nextGraphId-1 in ascending order. */
    method ForEach() returns (offered: seq<int>)
      ensures offered == Interval(0, nextGraphId)
    {
      offered := [];
      var limit := nextGraphId;
      for i := 0 to limit
        invariant offered == Interval(0, i)
      {
        offered := offered + [i];
      }
    }

    method ToMappedNodeId(nodeId: int) returns (r: int)
      modifies this`nextGraphId, this`nodeToGraphIds
      ensures Lookup(old(nodeToGraphIds), nodeId) != -1 ==>
        r == old(nodeToGraphIds)[nodeId] &&
        nodeToGraphIds == old(nodeToGraphIds) && nextGraphId == old(nextGraphId)
      ensures Lookup(old(nodeToGraphIds), nodeId) == -1 ==>
        r == old(nextGraphId) &&
        nodeToGraphIds == old(nodeToGraphIds)[nodeId := r] && nextGraphId == old(nextGraphId) + 1
    {
      r := MapOrGet(nodeId);
    }

    function ToOriginalNodeId(nodeId: int): (r: int)
      reads this, graphIds
      requires graphIds != null && 0 <= nodeId < graphIds.Length
      ensures Inverse() ==> r in nodeToGraphIds && nodeToGraphIds[r] == nodeId
    {
      Unmap(nodeId)
    }

    /** `forEachNode`: offers 0..nodeCount()-1 in ascending order. */
    method ForEachNode() returns (offered: seq<int>)
      requires graphIds != null
      ensures offered == Interval(0, graphIds.Length)
    {
      offered := [];
      var count := NodeCount();
      for i := 0 to count
        invariant offered == Interval(0, i)
      {
        offered := offered + [i];
      }
    }

    /** `nodeIterator`: a fresh iterator over 0..nodeCount()-1. */
    method NodeIterator() returns (it: IdIterator)
      requires graphIds != null
      ensures fresh(it) && it.Remaining() == Interval(0, graphIds.Length)
    {
      var created := new IdIterator();
      it := created.Reset(NodeCount());
    }
  }

  /** What loading a graph does with the id map: map every external id, build
      the inverse, and resolve each mapped id back. Each id comes back as it
      went in, and equal external ids share a mapped id. */
  method MapBuildUnmap(ids: seq<int>) returns (mapped: seq<int>, resolved: seq<int>)
    ensures |mapped| == |ids| && |resolved| == |ids|
    ensures forall i :: 0 <= i < |ids| ==> resolved[i] == ids[i]
    ensures forall i, j :: 0 <= i < |ids| && 0 <= j < |ids| ==> (mapped[i] == mapped[j] <==> ids[i] == ids[j])
  {
    var idMap := new IdMap(|ids|);
    mapped := [];
    for i := 0 to |ids|
      invariant |mapped| == i
      invariant Dense(idMap.nodeToGraphIds, idMap.nextGraphId)
      invariant forall j :: 0 <= j < i ==> ids[j] in idMap.nodeToGraphIds && idMap.nodeToGraphIds[ids[j]] == mapped[j]
    {
      var r := idMap.MapOrGet(ids[i]);
      mapped := mapped + [r];
    }
    idMap.BuildMappedIds();
    resolved := [];
    for i := 0 to |ids|
      invariant |resolved| == i
      invariant idMap.Inverse() && Dense(idMap.nodeToGraphIds, idMap.nextGraphId)
      invariant forall j :: 0 <= j < |ids| ==> ids[j] in idMap.nodeToGraphIds && idMap.nodeToGraphIds[ids[j]] == mapped[j]
      invariant forall j :: 0 <= j < i ==> resolved[j] == ids[j]
    {
      DenseBound(idMap.nodeToGraphIds, idMap.nextGraphId, ids[i]);
      resolved := resolved + [idMap.Unmap(mapped[i])];
    }
  }
}
