/** The older top-model query over a hub listing: the listing is taken in the order
    given, and unsupported models are always included, each widening the list by one. */
module TopModels {
  import opened Common
  import opened SizeDb
  import opened QueryDb

  /** `model.modelId` of a listed hub model. */
  function HubId(m: HubModel): string {
    m.modelId
  }

  /** The size range of `get_top_models`: `include_unsupported` is always on. */
  function HubFilter(minSize: real, maxSize: Ext<real>): (f: Filter)
    ensures f.includeUnsupported && f.minSize == minSize && f.maxSize == maxSize
  {
    Filter(minSize, maxSize, true)
  }

  /** `get_top_models(all_models, args)`: the selection loop over
      `all_models[start:min(end, len)]`, in listing order, with the store `sizes`. */
  method GetTopModels(all: seq<HubModel>, sizes: SizeDB, est: Estimator, start: int, end: Ext<int>,
                      limit: int, minSize: real, maxSize: Ext<real>)
    returns (models: seq<Picked<HubModel>>)
    ensures var cands := Slice(all, start, end);
      models == Take(cands, Verdicts(sizes.db, est, HubFilter(minSize, maxSize), cands, HubId), limit)
  {
    models := SelectTop(Slice(all, start, end), HubId, sizes.db, est, HubFilter(minSize, maxSize), limit);
  }

  /** The result is a subsequence of the listing slice, in order: with sizes skipped
      every model has size 0; otherwise each carries its looked-up size (the store entry
      when there is one), and an accepted model with code 0 is in range. */
  lemma GetTopModelsFacts(all: seq<HubModel>, sizes: map<string, CalcModelSizeResult>, est: Estimator,
                          start: int, end: Ext<int>, limit: int, minSize: real, maxSize: Ext<real>)
    returns (idx: seq<nat>)
    ensures var cands, f := Slice(all, start, end), HubFilter(minSize, maxSize);
      var r := Take(cands, Verdicts(sizes, est, f, cands, HubId), limit);
      |idx| == |r| && Increasing(idx, |cands|) &&
      forall k :: 0 <= k < |r| ==>
        r[k].item == cands[idx[k]] &&
        (SkipSize(f) ==> r[k].size == 0.0) &&
        (!SkipSize(f) ==>
          var l := Lookup(sizes, est, r[k].item.modelId);
          r[k].size == l.size && (l.code == 0 ==> InRange(l.size, f)))
  {
    var cands := Slice(all, start, end);
    idx := SelectionFacts(cands, HubId, sizes, est, HubFilter(minSize, maxSize), limit);
  }

  /** Every candidate the loop reaches that has a nonzero code is selected, and opens an
      extra slot. */
  lemma UnsupportedSelected(all: seq<HubModel>, sizes: map<string, CalcModelSizeResult>, est: Estimator,
                            start: int, end: Ext<int>, limit: int, minSize: real, maxSize: Ext<real>, i: nat)
    requires var cands, f := Slice(all, start, end), HubFilter(minSize, maxSize);
      i < FirstStop(cands, Verdicts(sizes, est, f, cands, HubId), limit, 0)
    requires var f := HubFilter(minSize, maxSize);
      !SkipSize(f) && Lookup(sizes, est, Slice(all, start, end)[i].modelId).code != 0
    ensures var cands, f := Slice(all, start, end), HubFilter(minSize, maxSize);
      var vs := Verdicts(sizes, est, f, cands, HubId);
      vs[i].Accept? && vs[i].extra &&
      Picked(cands[i], Lookup(sizes, est, cands[i].modelId).size) in Take(cands, vs, limit)
  {
    var cands, f := Slice(all, start, end), HubFilter(minSize, maxSize);
    ReachedSelected(cands, HubId, sizes, est, f, limit, i);
  }

  /** For `limit >= 1` at most `limit` selected models are in range with code 0, and the
      result never exceeds `limit` plus the unsupported models met before the loop
      stopped. */
  lemma GetTopModelsBound(all: seq<HubModel>, sizes: map<string, CalcModelSizeResult>, est: Estimator,
                          start: int, end: Ext<int>, limit: int, minSize: real, maxSize: Ext<real>)
    requires limit >= 1
    ensures var cands, f := Slice(all, start, end), HubFilter(minSize, maxSize);
      var vs := Verdicts(sizes, est, f, cands, HubId);
      var s := FirstStop(cands, vs, limit, 0);
      |Take(cands, vs, limit)| <= limit + Extras(vs[..s]) && Plain(vs[..s]) <= limit
  {
    SelectionBound(Slice(all, start, end), HubId, sizes, est, HubFilter(minSize, maxSize), limit);
  }

  /** With `min_size == 0` and `max_size == inf` the first `limit` listed models of the
      slice are returned with size 0 (all of them when `limit` is not in `1..n-1`). */
  lemma GetTopModelsSkipSize(all: seq<HubModel>, sizes: map<string, CalcModelSizeResult>, est: Estimator,
                             start: int, end: Ext<int>, limit: int)
    ensures var cands, f := Slice(all, start, end), HubFilter(0.0, Infinity);
      var r := Take(cands, Verdicts(sizes, est, f, cands, HubId), limit);
      |r| == (if 1 <= limit < |cands| then limit else |cands|) &&
      forall k :: 0 <= k < |r| ==> r[k] == Picked(cands[k], 0.0)
  {
    SkipSizeSelection(Slice(all, start, end), HubId, sizes, est, HubFilter(0.0, Infinity), limit);
  }
}
