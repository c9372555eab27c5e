/// The per-glyph mesh cache of the renderer: tessellated filled meshes and
/// the segment meshes of outlines and metrics lines, keyed by glyph name,
/// with hit and miss counters for each kind.
module MeshCache {
  import opened Wrappers

  /// A handle to a mesh asset; only its identity matters here.
  type MeshHandle = nat

  /// `MeshCacheStats`: hit and miss counters per kind of mesh.
  datatype MeshCacheStats = MeshCacheStats(
    filledHits: nat, filledMisses: nat,
    outlineHits: nat, outlineMisses: nat,
    metricsHits: nat, metricsMisses: nat)

  /// The share of lookups that hit, from 0 to 1; 0 before any lookup.
  function HitRate(hits: nat, misses: nat): (r: real)
    ensures 0.0 <= r <= 1.0
    ensures hits + misses == 0 ==> r == 0.0
    ensures hits + misses > 0 ==> r * (hits + misses) as real == hits as real
    ensures r == 1.0 <==> hits > 0 && misses == 0
    ensures r == 0.0 <==> hits == 0
  {
    var total := hits + misses;
    if total == 0 then 0.0 else hits as real / total as real
  }

  /// A quotient's sign, from its product with a positive number.
  lemma SignOfFactor(x: real, c: real)
    requires c > 0.0 && x * c >= 0.0
    ensures x >= 0.0
  {
  }

  /// One more hit never lowers the rate.
  lemma HitRaisesRate(hits: nat, misses: nat)
    ensures HitRate(hits + 1, misses) >= HitRate(hits, misses)
  {
    if hits + misses > 0 {
      var h, t := hits as real, (hits + misses) as real;
      var r, up := HitRate(hits, misses), HitRate(hits + 1, misses);
      assert r * t == h;
      assert up * (t + 1.0) == h + 1.0;
      calc {
        (up - r) * (t * (t + 1.0));
        (up * (t + 1.0)) * t - (r * t) * (t + 1.0);
        (h + 1.0) * t - h * (t + 1.0);
        t - h;
      }
      SignOfFactor(up - r, t * (t + 1.0));
    }
  }

  /// One more miss never raises the rate.
  lemma MissLowersRate(hits: nat, misses: nat)
    ensures HitRate(hits, misses + 1) <= HitRate(hits, misses)
  {
    if hits + misses > 0 {
      var h, t := hits as real, (hits + misses) as real;
      var r, down := HitRate(hits, misses), HitRate(hits, misses + 1);
      assert r * t == h;
      assert down * (t + 1.0) == h;
      calc {
        (r - down) * (t * (t + 1.0));
        (r * t) * (t + 1.0) - (down * (t + 1.0)) * t;
        h * (t + 1.0) - h * t;
        h;
      }
      SignOfFactor(r - down, t * (t + 1.0));
    }
  }

  /// Inserting under a key adds one entry exactly when the key was new.
  lemma InsertCount<V>(m: map<string, V>, k: string, v: V)
    ensures |m[k := v]| == if k in m then |m| else |m| + 1
  {
    if k in m {
      assert m[k := v].Keys == m.Keys;
    } else {
      assert m[k := v].Keys == m.Keys + {k};
    }
  }

  /// Removing a key drops one entry exactly when the key was present.
  lemma RemoveCount<V>(m: map<string, V>, k: string)
    ensures |m - {k}| == if k in m then |m| - 1 else |m|
  {
    if k in m {
      assert (m - {k}).Keys == m.Keys - {k};
    } else {
      assert m - {k} == m;
    }
  }

  /// Removing a glyph from all three caches lowers the total by one per cache
  /// that held it.
  lemma RemoveFromAll<A, B, C>(f: map<string, A>, o: map<string, B>, m: map<string, C>, k: string)
    ensures |f - {k}| + |o - {k}| + |m - {k}| ==
      |f| + |o| + |m| - (if k in f then 1 else 0) - (if k in o then 1 else 0) - (if k in m then 1 else 0)
  {
    RemoveCount(f, k);
    RemoveCount(o, k);
    RemoveCount(m, k);
  }

  class GlyphMeshCache {
    var filledMeshes: map<string, MeshHandle>
    var outlineMeshes: map<string, seq<MeshHandle>>
    var metricsMeshes: map<string, seq<MeshHandle>>
    /// Bumped on every full invalidation.
    var fontGeneration: nat
    var stats: MeshCacheStats

    /// `Default`: nothing cached, every counter at zero.
    constructor ()
      ensures filledMeshes == map[] && outlineMeshes == map[] && metricsMeshes == map[]
      ensures fontGeneration == 0
      ensures stats == MeshCacheStats(0, 0, 0, 0, 0, 0)
    {
      filledMeshes, outlineMeshes, metricsMeshes := map[], map[], map[];
      fontGeneration := 0;
      stats := MeshCacheStats(0, 0, 0, 0, 0, 0);
    }

    /// `get_filled_mesh`: the cached handle, counting a hit; None, counting a miss.
    method GetFilledMesh(glyphName: string) returns (r: Option<MeshHandle>)
      modifies this
      ensures r.Some? <==> glyphName in filledMeshes
      ensures r.Some? ==> r.value == filledMeshes[glyphName]
      ensures stats == if r.Some? then old(stats).(filledHits := old(stats).filledHits + 1)
                       else old(stats).(filledMisses := old(stats).filledMisses + 1)
      ensures filledMeshes == old(filledMeshes) && outlineMeshes == old(outlineMeshes)
      ensures metricsMeshes == old(metricsMeshes) && fontGeneration == old(fontGeneration)
    {
      if glyphName in filledMeshes {
        stats := stats.(filledHits := stats.filledHits + 1);
        r := Some(filledMeshes[glyphName]);
      } else {
        stats := stats.(filledMisses := stats.filledMisses + 1);
        r := None;
      }
    }

    /// `cache_filled_mesh`: the next lookup of this glyph hits and returns this handle.
    method CacheFilledMesh(glyphName: string, meshHandle: MeshHandle)
      modifies this
      ensures filledMeshes == old(filledMeshes)[glyphName := meshHandle]
      ensures glyphName in filledMeshes && filledMeshes[glyphName] == meshHandle
      ensures outlineMeshes == old(outlineMeshes) && metricsMeshes == old(metricsMeshes)
      ensures stats == old(stats) && fontGeneration == old(fontGeneration)
    {
      filledMeshes := filledMeshes[glyphName := meshHandle];
    }

    /// `get_outline_meshes`: the cached segment handles, counting a hit or a miss.
    method GetOutlineMeshes(glyphName: string) returns (r: Option<seq<MeshHandle>>)
      modifies this
      ensures r.Some? <==> glyphName in outlineMeshes
      ensures r.Some? ==> r.value == outlineMeshes[glyphName]
      ensures stats == if r.Some? then old(stats).(outlineHits := old(stats).outlineHits + 1)
                       else old(stats).(outlineMisses := old(stats).outlineMisses + 1)
      ensures filledMeshes == old(filledMeshes) && outlineMeshes == old(outlineMeshes)
      ensures metricsMeshes == old(metricsMeshes) && fontGeneration == old(fontGeneration)
    {
      if glyphName in outlineMeshes {
        stats := stats.(outlineHits := stats.outlineHits + 1);
        r := Some(outlineMeshes[glyphName]);
      } else {
        stats := stats.(outlineMisses := stats.outlineMisses + 1);
        r := None;
      }
    }

    /// `cache_outline_meshes`.
    method CacheOutlineMeshes(glyphName: string, meshHandles: seq<MeshHandle>)
      modifies this
      ensures outlineMeshes == old(outlineMeshes)[glyphName := meshHandles]
      ensures glyphName in outlineMeshes && outlineMeshes[glyphName] == meshHandles
      ensures filledMeshes == old(filledMeshes) && metricsMeshes == old(metricsMeshes)
      ensures stats == old(stats) && fontGeneration == old(fontGeneration)
    {
      outlineMeshes := outlineMeshes[glyphName := meshHandles];
    }

    /// `get_metrics_meshes`: the cached metrics-line handles, counting a hit or a miss.
    method GetMetricsMeshes(glyphName: string) returns (r: Option<seq<MeshHandle>>)
      modifies this
      ensures r.Some? <==> glyphName in metricsMeshes
      ensures r.Some? ==> r.value == metricsMeshes[glyphName]
      ensures stats == if r.Some? then old(stats).(metricsHits := old(stats).metricsHits + 1)
                       else old(stats).(metricsMisses := old(stats).metricsMisses + 1)
      ensures filledMeshes == old(filledMeshes) && outlineMeshes == old(outlineMeshes)
      ensures metricsMeshes == old(metricsMeshes) && fontGeneration == old(fontGeneration)
    {
      if glyphName in metricsMeshes {
        stats := stats.(metricsHits := stats.metricsHits + 1);
        r := Some(metricsMeshes[glyphName]);
      } else {
        stats := stats.(metricsMisses := stats.metricsMisses + 1);
        r := None;
      }
    }

    /// `cache_metrics_meshes`.
    method CacheMetricsMeshes(glyphName: string, meshHandles: seq<MeshHandle>)
      modifies this
      ensures metricsMeshes == old(metricsMeshes)[glyphName := meshHandles]
      ensures glyphName in metricsMeshes && metricsMeshes[glyphName] == meshHandles
      ensures filledMeshes == old(filledMeshes) && outlineMeshes == old(outlineMeshes)
      ensures stats == old(stats) && fontGeneration == old(fontGeneration)
    {
      metricsMeshes := metricsMeshes[glyphName := meshHandles];
    }

    /// `invalidate_all`: every cache emptied and a new font generation; the
    /// counters survive.
    method InvalidateAll()
      modifies this
      ensures filledMeshes == map[] && outlineMeshes == map[] && metricsMeshes == map[]
      ensures TotalCachedCount() == 0
      ensures fontGeneration == old(fontGeneration) + 1
      ensures stats == old(stats)
    {
      filledMeshes, outlineMeshes, metricsMeshes := map[], map[], map[];
      fontGeneration := fontGeneration + 1;
    }

    /// `invalidate_glyph`: this glyph's entries go from all three caches and
    /// every other glyph's entries stay.
    method InvalidateGlyph(glyphName: string)
      modifies this
      ensures filledMeshes == old(filledMeshes) - {glyphName}
      ensures outlineMeshes == old(outlineMeshes) - {glyphName}
      ensures metricsMeshes == old(metricsMeshes) - {glyphName}
      ensures glyphName !in filledMeshes && glyphName !in outlineMeshes && glyphName !in metricsMeshes
      ensures |filledMeshes| + |outlineMeshes| + |metricsMeshes| ==
        old(|filledMeshes| + |outlineMeshes| + |metricsMeshes|) - (if glyphName in old(filledMeshes) then 1 else 0)
          - (if glyphName in old(outlineMeshes) then 1 else 0)
          - (if glyphName in old(metricsMeshes) then 1 else 0)
      ensures stats == old(stats) && fontGeneration == old(fontGeneration)
    {
      var f, o, m := filledMeshes - {glyphName}, outlineMeshes - {glyphName}, metricsMeshes - {glyphName};
      RemoveFromAll(filledMeshes, outlineMeshes, metricsMeshes, glyphName);
      filledMeshes, outlineMeshes, metricsMeshes := f, o, m;
    }

    /// `get_stats`: the counters the three hit rates are computed from.
    function GetStats(): (r: MeshCacheStats)
      reads this
      ensures FilledHitRate() == HitRate(r.filledHits, r.filledMisses)
      ensures OutlineHitRate() == HitRate(r.outlineHits, r.outlineMisses)
      ensures MetricsHitRate() == HitRate(r.metricsHits, r.metricsMisses)
      ensures r.filledHits + r.outlineHits + r.metricsHits == 0 <==>
        FilledHitRate() == 0.0 && OutlineHitRate() == 0.0 && MetricsHitRate() == 0.0
    {
      stats
    }

    /// `filled_hit_rate`.
    function FilledHitRate(): (r: real)
      reads this
      ensures 0.0 <= r <= 1.0
      ensures r == 0.0 <==> stats.filledHits == 0
    {
      HitRate(stats.filledHits, stats.filledMisses)
    }

    /// `outline_hit_rate`.
    function OutlineHitRate(): (r: real)
      reads this
      ensures 0.0 <= r <= 1.0
      ensures r == 0.0 <==> stats.outlineHits == 0
    {
      HitRate(stats.outlineHits, stats.outlineMisses)
    }

    /// `metrics_hit_rate`.
    function MetricsHitRate(): (r: real)
      reads this
      ensures 0.0 <= r <= 1.0
      ensures r == 0.0 <==> stats.metricsHits == 0
    {
      HitRate(stats.metricsHits, stats.metricsMisses)
    }

    /// `total_cached_count`: glyph entries over the three caches. It is zero
    /// exactly when nothing is cached, and a glyph cached anywhere adds to it.
    function TotalCachedCount(): (r: nat)
      reads this
      ensures r == 0 <==> filledMeshes == map[] && outlineMeshes == map[] && metricsMeshes == map[]
      ensures r >= |filledMeshes| && r >= |outlineMeshes| && r >= |metricsMeshes|
      ensures forall g :: g in filledMeshes || g in outlineMeshes || g in metricsMeshes ==> r > 0
    {
      |filledMeshes| + |outlineMeshes| + |metricsMeshes|
    }
  }
}
