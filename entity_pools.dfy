/// Pools of render entities, reused from frame to frame instead of being
/// despawned and spawned again. Each sort has an outline pool and a metrics
/// pool; one pool serves all cursors. An entity handed out moves from
/// `available` to `inUse`; returning a pool moves all of `inUse` back.
module EntityPools {
  /// An ECS entity id.
  type Entity = nat

  /// One pool. The outline, metrics and cursor pools of the source are three
  /// structs with these same two lists.
  datatype Pool = Pool(available: seq<Entity>, inUse: seq<Entity>)

  const EmptyPool := Pool([], [])

  /// The number of entities a pool holds, free or handed out.
  function Size(p: Pool): nat { |p.available| + |p.inUse| }

  /// Every entity a pool holds, with multiplicity.
  function Entities(p: Pool): multiset<Entity> { multiset(p.available) + multiset(p.inUse) }

  /// Handing out one entity: the last available one, or the freshly spawned
  /// `spawned` when none is available. It is recorded as in use.
  function Take(p: Pool, spawned: Entity): (r: (Entity, Pool))
    ensures p.available != [] ==>
      r.0 == p.available[|p.available| - 1] && r.1 == Pool(p.available[..|p.available| - 1], p.inUse + [r.0])
    ensures p.available == [] ==> r.0 == spawned && r.1 == Pool([], p.inUse + [spawned])
  {
    if p.available != [] then
      var e := p.available[|p.available| - 1];
      (e, Pool(p.available[..|p.available| - 1], p.inUse + [e]))
    else
      (spawned, Pool([], p.inUse + [spawned]))
  }

  /// Taking reuses an entity the pool holds, or adds the spawned one; nothing
  /// is lost either way.
  lemma TakeConservesEntities(p: Pool, spawned: Entity)
    ensures var (e, q) := Take(p, spawned);
      e in q.inUse &&
      (p.available != [] ==> Entities(q) == Entities(p) && e in p.available) &&
      (p.available == [] ==> Entities(q) == Entities(p) + multiset{spawned})
  {
    if p.available != [] {
      var n := |p.available|;
      assert p.available == p.available[..n - 1] + [p.available[n - 1]];
    }
  }

  /// `available.append(&mut in_use)`.
  function Returned(p: Pool): (r: Pool)
    ensures r.inUse == [] && Entities(r) == Entities(p) && Size(r) == Size(p)
  {
    Pool(p.available + p.inUse, [])
  }

  /// A pool with no entities at all.
  predicate IsEmpty(p: Pool) { p.available == [] && p.inUse == [] }


  /// The pool stored for `sort`, or a fresh empty one.
  function PoolFor(pools: map<Entity, Pool>, sort: Entity): Pool
  {
    if sort in pools then pools[sort] else EmptyPool
  }

  /// A total over all pools of a map, taken in an unspecified order.
  ghost function SumPools(m: map<Entity, Pool>, f: Pool -> nat): nat
    decreases |m|
  {
    if m == map[] then 0
    else
      var k :| k in m;
      f(m[k]) + SumPools(m - {k}, f)
  }

  /// The total does not depend on the order: any pool can be taken out first.
  lemma {:induction false} SumPoolsRemove(m: map<Entity, Pool>, f: Pool -> nat, k: Entity)
    requires k in m
    ensures SumPools(m, f) == f(m[k]) + SumPools(m - {k}, f)
    decreases |m|
  {
    var j :| j in m && SumPools(m, f) == f(m[j]) + SumPools(m - {j}, f);
    if j != k {
      assert |m - {j}| < |m|;
      SumPoolsRemove(m - {j}, f, k);
      SumPoolsRemove(m - {k}, f, j);
      assert (m - {j}) - {k} == (m - {k}) - {j};
    }
  }

  /// Dropping pools that count for nothing leaves the total unchanged.
  lemma {:induction false} SumPoolsWithoutEmpty(m: map<Entity, Pool>, f: Pool -> nat)
    requires forall k :: k in m && IsEmpty(m[k]) ==> f(m[k]) == 0
    ensures SumPools(map k | k in m && !IsEmpty(m[k]) :: m[k], f) == SumPools(m, f)
    decreases |m|
  {
    var kept := map k | k in m && !IsEmpty(m[k]) :: m[k];
    if m != map[] {
      var k :| k in m;
      SumPoolsRemove(m, f, k);
      var rest := m - {k};
      assert |rest| < |m|;
      SumPoolsWithoutEmpty(rest, f);
      var keptRest := map j | j in rest && !IsEmpty(rest[j]) :: rest[j];
      if !IsEmpty(m[k]) {
        SumPoolsRemove(kept, f, k);
        assert kept - {k} == keptRest;
      } else {
        assert kept == keptRest;
      }
    } else {
      assert kept == map[];
    }
  }

  /// When every pool counts for nothing the total is zero.
  lemma {:induction false} SumPoolsOfZeros(m: map<Entity, Pool>, f: Pool -> nat)
    requires forall k :: k in m ==> f(m[k]) == 0
    ensures SumPools(m, f) == 0
    decreases |m|
  {
    if m != map[] {
      var k :| k in m;
      SumPoolsRemove(m, f, k);
      assert |m - {k}| < |m|;
      SumPoolsOfZeros(m - {k}, f);
    }
  }

  function AvailableCount(p: Pool): nat { |p.available| }
  function InUseCount(p: Pool): nat { |p.inUse| }

  datatype PoolStats = PoolStats(
    outlineAvailable: nat,
    outlineInUse: nat,
    metricsAvailable: nat,
    metricsInUse: nat,
    cursorAvailable: nat,
    cursorInUse: nat,
    outlinePoolsCount: nat,
    metricsPoolsCount: nat)

  /// `EntityPools`.
  class EntityPools {
    var outlinePools: map<Entity, Pool>
    var metricsPools: map<Entity, Pool>
    var cursorPool: Pool

    constructor()
      ensures outlinePools == map[] && metricsPools == map[] && cursorPool == EmptyPool
    {
      outlinePools := map[];
      metricsPools := map[];
      cursorPool := EmptyPool;
    }

    /// `get_outline_pool`: the sort's pool, stored empty first if the sort
    /// has none yet. The pool comes back as a value, not a reference.
    method GetOutlinePool(sortEntity: Entity) returns (pool: Pool)
      modifies this
      ensures pool == PoolFor(old(outlinePools), sortEntity)
      ensures sortEntity in old(outlinePools) ==> outlinePools == old(outlinePools)
      ensures sortEntity !in old(outlinePools) ==> pool == EmptyPool && outlinePools == old(outlinePools)[sortEntity := EmptyPool]
      ensures metricsPools == old(metricsPools) && cursorPool == old(cursorPool)
    {
      if sortEntity !in outlinePools {
        outlinePools := outlinePools[sortEntity := EmptyPool];
      }
      pool := outlinePools[sortEntity];
    }

    /// `get_metrics_pool`.
    method GetMetricsPool(sortEntity: Entity) returns (pool: Pool)
      modifies this
      ensures pool == PoolFor(old(metricsPools), sortEntity)
      ensures sortEntity in old(metricsPools) ==> metricsPools == old(metricsPools)
      ensures sortEntity !in old(metricsPools) ==> pool == EmptyPool && metricsPools == old(metricsPools)[sortEntity := EmptyPool]
      ensures outlinePools == old(outlinePools) && cursorPool == old(cursorPool)
    {
      if sortEntity !in metricsPools {
        metricsPools := metricsPools[sortEntity := EmptyPool];
      }
      pool := metricsPools[sortEntity];
    }

    /// `get_cursor_entity`: `spawned` is the entity the ECS would create if
    /// the pool has none to reuse.
    method GetCursorEntity(spawned: Entity) returns (entity: Entity)
      modifies this
      ensures (entity, cursorPool) == Take(old(cursorPool), spawned)
      ensures outlinePools == old(outlinePools) && metricsPools == old(metricsPools)
    {
      if cursorPool.available != [] {
        var n := |cursorPool.available|;
        entity := cursorPool.available[n - 1];
        cursorPool := cursorPool.(available := cursorPool.available[..n - 1]);
        cursorPool := cursorPool.(inUse := cursorPool.inUse + [entity]);
      } else {
        entity := spawned;
        cursorPool := cursorPool.(inUse := cursorPool.inUse + [entity]);
      }
    }

    /// `get_outline_entity`: takes from the sort's pool, creating the pool
    /// if the sort has none yet.
    method GetOutlineEntity(spawned: Entity, sortEntity: Entity) returns (entity: Entity)
      modifies this
      ensures var (e, p) := Take(PoolFor(old(outlinePools), sortEntity), spawned);
        entity == e && outlinePools == old(outlinePools)[sortEntity := p]
      ensures metricsPools == old(metricsPools) && cursorPool == old(cursorPool)
    {
      var pool := PoolFor(outlinePools, sortEntity);
      if pool.available != [] {
        var n := |pool.available|;
        entity := pool.available[n - 1];
        pool := pool.(available := pool.available[..n - 1]);
      } else {
        entity := spawned;
      }
      pool := pool.(inUse := pool.inUse + [entity]);
      outlinePools := outlinePools[sortEntity := pool];
    }

    /// `get_metrics_entity`.
    method GetMetricsEntity(spawned: Entity, sortEntity: Entity) returns (entity: Entity)
      modifies this
      ensures var (e, p) := Take(PoolFor(old(metricsPools), sortEntity), spawned);
        entity == e && metricsPools == old(metricsPools)[sortEntity := p]
      ensures outlinePools == old(outlinePools) && cursorPool == old(cursorPool)
    {
      var pool := PoolFor(metricsPools, sortEntity);
      if pool.available != [] {
        var n := |pool.available|;
        entity := pool.available[n - 1];
        pool := pool.(available := pool.available[..n - 1]);
      } else {
        entity := spawned;
      }
      pool := pool.(inUse := pool.inUse + [entity]);
      metricsPools := metricsPools[sortEntity := pool];
    }

    /// `return_cursor_entities`. Hiding the entities is an ECS command and is
    /// not modelled.
    method ReturnCursorEntities()
      modifies this
      ensures cursorPool == Returned(old(cursorPool))
      ensures outlinePools == old(outlinePools) && metricsPools == old(metricsPools)
    {
      cursorPool := Pool(cursorPool.available + cursorPool.inUse, []);
    }

    /// `return_outline_entities`: a sort without a pool is left alone.
    method ReturnOutlineEntities(sortEntity: Entity)
      modifies this
      ensures sortEntity in old(outlinePools) ==>
        outlinePools == old(outlinePools)[sortEntity := Returned(old(outlinePools)[sortEntity])]
      ensures sortEntity !in old(outlinePools) ==> outlinePools == old(outlinePools)
      ensures metricsPools == old(metricsPools) && cursorPool == old(cursorPool)
    {
      if sortEntity in outlinePools {
        var pool := outlinePools[sortEntity];
        outlinePools := outlinePools[sortEntity := Pool(pool.available + pool.inUse, [])];
      }
    }

    /// `return_metrics_entities`.
    method ReturnMetricsEntities(sortEntity: Entity)
      modifies this
      ensures sortEntity in old(metricsPools) ==>
        metricsPools == old(metricsPools)[sortEntity := Returned(old(metricsPools)[sortEntity])]
      ensures sortEntity !in old(metricsPools) ==> metricsPools == old(metricsPools)
      ensures outlinePools == old(outlinePools) && cursorPool == old(cursorPool)
    {
      if sortEntity in metricsPools {
        var pool := metricsPools[sortEntity];
        metricsPools := metricsPools[sortEntity := Pool(pool.available + pool.inUse, [])];
      }
    }

    /// `return_all_entities`: every pool returned, visiting the sorts in an
    /// unspecified order.
    method ReturnAllEntities()
      modifies this
      ensures cursorPool == Returned(old(cursorPool))
      ensures outlinePools.Keys == old(outlinePools).Keys && metricsPools.Keys == old(metricsPools).Keys
      ensures forall k :: k in outlinePools ==> outlinePools[k] == Returned(old(outlinePools)[k])
      ensures forall k :: k in metricsPools ==> metricsPools[k] == Returned(old(metricsPools)[k])
    {
      ReturnCursorEntities();
      ReturnEveryOutlinePool();
      ReturnEveryMetricsPool();
    }

    /// The loop of `return_all_entities` over the outline pools.
    method ReturnEveryOutlinePool()
      modifies this
      ensures outlinePools.Keys == old(outlinePools).Keys
      ensures forall k :: k in outlinePools ==> outlinePools[k] == Returned(old(outlinePools)[k])
      ensures metricsPools == old(metricsPools) && cursorPool == old(cursorPool)
    {
      var sorts := outlinePools.Keys;
      while sorts != {}
        invariant sorts <= outlinePools.Keys && outlinePools.Keys == old(outlinePools).Keys
        invariant forall k :: k in outlinePools ==>
          outlinePools[k] == if k in sorts then old(outlinePools)[k] else Returned(old(outlinePools)[k])
        invariant metricsPools == old(metricsPools) && cursorPool == old(cursorPool)
        decreases |sorts|
      {
        var sort :| sort in sorts;
        ReturnOutlineEntities(sort);
        sorts := sorts - {sort};
      }
    }

    /// The loop of `return_all_entities` over the metrics pools.
    method ReturnEveryMetricsPool()
      modifies this
      ensures metricsPools.Keys == old(metricsPools).Keys
      ensures forall k :: k in metricsPools ==> metricsPools[k] == Returned(old(metricsPools)[k])
      ensures outlinePools == old(outlinePools) && cursorPool == old(cursorPool)
    {
      var sorts := metricsPools.Keys;
      while sorts != {}
        invariant sorts <= metricsPools.Keys && metricsPools.Keys == old(metricsPools).Keys
        invariant forall k :: k in metricsPools ==>
          metricsPools[k] == if k in sorts then old(metricsPools)[k] else Returned(old(metricsPools)[k])
        invariant outlinePools == old(outlinePools) && cursorPool == old(cursorPool)
        decreases |sorts|
      {
        var sort :| sort in sorts;
        ReturnMetricsEntities(sort);
        sorts := sorts - {sort};
      }
    }

    /// `return_entities_for_changed_sorts`: the pools of the listed sorts are
    /// returned; the others and the cursor pool are untouched.
    method ReturnEntitiesForChangedSorts(changedSortEntities: seq<Entity>)
      modifies this
      ensures cursorPool == old(cursorPool)
      ensures outlinePools == ReturnedFor(old(outlinePools), changedSortEntities)
      ensures metricsPools == ReturnedFor(old(metricsPools), changedSortEntities)
    {
      ReturnedForNothing(outlinePools);
      ReturnedForNothing(metricsPools);
      if changedSortEntities == [] {
        return;
      }
      for i := 0 to |changedSortEntities|
        invariant cursorPool == old(cursorPool)
        invariant outlinePools == ReturnedFor(old(outlinePools), changedSortEntities[..i])
        invariant metricsPools == ReturnedFor(old(metricsPools), changedSortEntities[..i])
      {
        var sort := changedSortEntities[i];
        assert changedSortEntities[..i + 1] == changedSortEntities[..i] + [sort];
        ReturnedForStep(old(outlinePools), changedSortEntities[..i], sort);
        ReturnedForStep(old(metricsPools), changedSortEntities[..i], sort);
        ReturnOutlineEntities(sort);
        ReturnMetricsEntities(sort);
      }
      assert changedSortEntities[..|changedSortEntities|] == changedSortEntities;
    }

    /// `cleanup_empty_pools`: keeps exactly the pools that hold an entity.
    method CleanupEmptyPools()
      modifies this
      ensures outlinePools == map k | k in old(outlinePools) && !IsEmpty(old(outlinePools)[k]) :: old(outlinePools)[k]
      ensures metricsPools == map k | k in old(metricsPools) && !IsEmpty(old(metricsPools)[k]) :: old(metricsPools)[k]
      ensures cursorPool == old(cursorPool)
    {
      outlinePools := map k | k in outlinePools && !IsEmpty(outlinePools[k]) :: outlinePools[k];
      metricsPools := map k | k in metricsPools && !IsEmpty(metricsPools[k]) :: metricsPools[k];
    }

    /// `get_pool_stats`: entity counts summed over all pools, and the number
    /// of pools.
    method GetPoolStats() returns (stats: PoolStats)
      ensures stats.outlineAvailable == SumPools(outlinePools, AvailableCount)
      ensures stats.outlineInUse == SumPools(outlinePools, InUseCount)
      ensures stats.metricsAvailable == SumPools(metricsPools, AvailableCount)
      ensures stats.metricsInUse == SumPools(metricsPools, InUseCount)
      ensures stats.cursorAvailable == |cursorPool.available| && stats.cursorInUse == |cursorPool.inUse|
      ensures stats.outlinePoolsCount == |outlinePools| && stats.metricsPoolsCount == |metricsPools|
    {
      var outlineAvailable, outlineInUse := SumCounts(outlinePools);
      var metricsAvailable, metricsInUse := SumCounts(metricsPools);
      stats := PoolStats(outlineAvailable, outlineInUse, metricsAvailable, metricsInUse,
                         |cursorPool.available|, |cursorPool.inUse|, |outlinePools|, |metricsPools|);
    }
  }

  /// The pools with those of `sorts` returned.
  function ReturnedFor(pools: map<Entity, Pool>, sorts: seq<Entity>): (r: map<Entity, Pool>)
    ensures r.Keys == pools.Keys
    ensures forall k :: k in r ==> r[k] == if k in sorts then Returned(pools[k]) else pools[k]
  {
    map k | k in pools :: if k in sorts then Returned(pools[k]) else pools[k]
  }

  lemma ReturnedForNothing(pools: map<Entity, Pool>)
    ensures ReturnedFor(pools, []) == pools
  {
  }

  /// Returning one more sort's pool, which may have been returned already.
  lemma ReturnedForStep(pools: map<Entity, Pool>, sorts: seq<Entity>, sort: Entity)
    ensures var before := ReturnedFor(pools, sorts);
      sort in pools ==> ReturnedFor(pools, sorts + [sort]) == before[sort := Returned(before[sort])]
    ensures sort !in pools ==> ReturnedFor(pools, sorts + [sort]) == ReturnedFor(pools, sorts)
  {
    if sort in pools {
      ReturnedTwice(pools[sort]);
    }
  }

  /// Returning an already returned pool changes nothing more.
  lemma ReturnedTwice(p: Pool)
    ensures Returned(Returned(p)) == Returned(p)
  {
    assert p.available + p.inUse + [] == p.available + p.inUse;
  }

  /// The loop of `get_pool_stats` over one map of pools.
  method SumCounts(pools: map<Entity, Pool>) returns (available: nat, inUse: nat)
    ensures available == SumPools(pools, AvailableCount) && inUse == SumPools(pools, InUseCount)
  {
    available, inUse := 0, 0;
    var rest := pools;
    while rest != map[]
      invariant available + SumPools(rest, AvailableCount) == SumPools(pools, AvailableCount)
      invariant inUse + SumPools(rest, InUseCount) == SumPools(pools, InUseCount)
      decreases |rest|
    {
      var sort :| sort in rest;
      SumPoolsRemove(rest, AvailableCount, sort);
      SumPoolsRemove(rest, InUseCount, sort);
      available := available + |rest[sort].available|;
      inUse := inUse + |rest[sort].inUse|;
      rest := rest - {sort};
    }
  }

  /// After every pool has been returned nothing is in use, and the available
  /// count is what the pools held before.
  lemma ReturnAllLeavesNothingInUse(before: map<Entity, Pool>, after: map<Entity, Pool>)
    requires after.Keys == before.Keys && forall k :: k in after ==> after[k] == Returned(before[k])
    ensures SumPools(after, InUseCount) == 0
    ensures SumPools(after, AvailableCount) == SumPools(before, Size)
  {
    SumPoolsOfZeros(after, InUseCount);
    ReturnedAvailableIsSize(before, after);
  }

  /// The available total of the returned pools, one pool at a time.
  lemma {:induction false} ReturnedAvailableIsSize(before: map<Entity, Pool>, after: map<Entity, Pool>)
    requires after.Keys == before.Keys && forall k :: k in after ==> after[k] == Returned(before[k])
    ensures SumPools(after, AvailableCount) == SumPools(before, Size)
    decreases |before|
  {
    if before != map[] {
      var k :| k in before;
      SumPoolsRemove(before, Size, k);
      SumPoolsRemove(after, AvailableCount, k);
      ReturnedWithoutOne(before, after, k);
      ReturnedAvailableIsSize(before - {k}, after - {k});
    } else {
      assert after.Keys == {};
    }
  }

  /// Taking one sort out of both maps keeps them paired.
  lemma ReturnedWithoutOne(before: map<Entity, Pool>, after: map<Entity, Pool>, k: Entity)
    requires after.Keys == before.Keys && forall j :: j in after ==> after[j] == Returned(before[j])
    requires k in before
    ensures |before - {k}| < |before| && (after - {k}).Keys == (before - {k}).Keys
    ensures forall j :: j in after - {k} ==> (after - {k})[j] == Returned((before - {k})[j])
    ensures AvailableCount(after[k]) == Size(before[k])
  {
    assert before.Keys - {k} < before.Keys;
  }

  /// Removing empty pools changes none of the entity totals.
  lemma CleanupKeepsTotals(pools: map<Entity, Pool>)
    ensures var kept := map k | k in pools && !IsEmpty(pools[k]) :: pools[k];
      SumPools(kept, AvailableCount) == SumPools(pools, AvailableCount) &&
      SumPools(kept, InUseCount) == SumPools(pools, InUseCount) &&
      forall k :: k in pools && k !in kept ==> IsEmpty(pools[k])
  {
    SumPoolsWithoutEmpty(pools, AvailableCount);
    SumPoolsWithoutEmpty(pools, InUseCount);
  }
}
