/** The model size store: a dictionary from model id to the estimated parameter count,
    with a dirty flag that gates writing it back, and the batched update that estimates
    only the models not yet stored. */
module SizeDb {
  import opened Common

  /** `CalcModelSizeResult`: `code` 0 is a valid size, 1 an unsupported model, 2 a model
      whose size cannot be estimated without its weights. */
  datatype CalcModelSizeResult = CalcModelSizeResult(modelId: string, size: real, code: int, memo: Option<string>)

  /** What the parameter count computation does for one model: the count in billions,
      a `RuntimeError`, or any other exception with its text. */
  datatype Probe = Params(billions: real) | RuntimeError | OtherError(message: string)

  /** The estimator, from model id and the fallback flag (load the weights when the
      model cannot be built empty). */
  type Estimator = (string, bool) -> Probe

  /** `get_model_size_in_b_with_empty_weights(model_id, fallback)`: the exception raised
      by the estimate becomes a result code. */
  function EstimateSize(est: Estimator, id: string, fallback: bool): (r: CalcModelSizeResult)
    ensures r.modelId == id
    ensures r.code == 0 || r.code == 1 || r.code == 2
    ensures r.code == 0 <==> est(id, fallback).Params?
    ensures r.code == 2 <==> est(id, fallback).RuntimeError?
    ensures r.code != 0 ==> r.size == 0.0
    ensures r.code == 0 ==> r.size == est(id, fallback).billions && r.memo.None?
    ensures r.code == 1 ==> r.memo == Some(est(id, fallback).message)
  {
    match est(id, fallback)
    case Params(b) => CalcModelSizeResult(id, b, 0, None)
    case RuntimeError => CalcModelSizeResult(id, 0.0, 2, None)
    case OtherError(msg) => CalcModelSizeResult(id, 0.0, 1, Some(msg))
  }

  /** What `update` stores for a submitted id: the estimate without weights, replaced by
      the estimate with `fallback=True` when the first one reports code 2. */
  function Resolve(est: Estimator, id: string): (r: CalcModelSizeResult)
    ensures r.modelId == id
    ensures est(id, false).RuntimeError? ==> r == EstimateSize(est, id, true)
    ensures !est(id, false).RuntimeError? ==> r == EstimateSize(est, id, false)
    ensures r.code == 2 <==> est(id, false).RuntimeError? && est(id, true).RuntimeError?
  {
    var first := EstimateSize(est, id, false);
    if first.code == 2 then EstimateSize(est, id, true) else first
  }

  lemma IdsSnoc(s: seq<string>, i: nat)
    requires i < |s|
    ensures SetOf(s[..i + 1]) == SetOf(s[..i]) + {s[i]}
  {
    assert s[..i + 1] == s[..i] + [s[i]];
  }

  /** The resolved estimate of each id in `ids`. */
  function Estimates(est: Estimator, ids: set<string>): (m: map<string, CalcModelSizeResult>)
    ensures m.Keys == ids
    ensures forall k :: k in m ==> m[k] == Resolve(est, k)
  {
    map id | id in ids :: Resolve(est, id)
  }

  lemma EstimatesNone(base: map<string, CalcModelSizeResult>, est: Estimator)
    ensures base + Estimates(est, {}) == base
  {
  }

  lemma EstimatesUnion(base: map<string, CalcModelSizeResult>, est: Estimator, a: set<string>, b: set<string>)
    ensures base + Estimates(est, a) + Estimates(est, b) == base + Estimates(est, a + b)
  {
  }

  /** Adding estimates only for ids not yet stored leaves every stored entry as it was
      and stores each new id's resolved estimate. */
  lemma KeepsCached(base: map<string, CalcModelSizeResult>, est: Estimator, ids: set<string>)
    requires forall id :: id in ids ==> id !in base
    ensures forall k :: k in base ==> (base + Estimates(est, ids))[k] == base[k]
    ensures forall k :: k in base + Estimates(est, ids) <==> k in base || k in ids
    ensures forall k :: k in ids ==> (base + Estimates(est, ids))[k] == Resolve(est, k)
  {
  }

  /** Storing one more resolved estimate into `base + Estimates(est, s)`: the store
      changes from `base` afterwards exactly when it had changed before or this store
      changes it, since every later store of an id writes the same value again. */
  lemma StoreStep(base: map<string, CalcModelSizeResult>, est: Estimator, s: set<string>, id: string)
    ensures var before := base + Estimates(est, s);
      before[id := Resolve(est, id)] == base + Estimates(est, s + {id}) &&
      ((before != base || id !in before || before[id] != Resolve(est, id)) <==>
       before[id := Resolve(est, id)] != base)
  {
    var before := base + Estimates(est, s);
    var after := before[id := Resolve(est, id)];
    assert after == base + Estimates(est, s + {id});
    if before != base {
      var k :| k in before && (k !in base || before[k] != base[k]);
      assert k in s;
      assert after[k] == Resolve(est, k);
    } else if id !in before || before[id] != Resolve(est, id) {
      assert after[id] == Resolve(est, id);
    } else {
      assert after == before;
    }
  }

  /** Storing the estimate of the next submitted id extends the stored estimates by it,
      and changes the store exactly when the store was changed or this entry changes. */
  lemma BatchStep(base: map<string, CalcModelSizeResult>, est: Estimator, s: seq<string>, i: nat)
    requires i < |s|
    ensures var before, r := base + Estimates(est, SetOf(s[..i])), Resolve(est, s[i]);
      before[s[i] := r] == base + Estimates(est, SetOf(s[..i + 1])) &&
      ((before != base || s[i] !in before || before[s[i]] != r) <==> before[s[i] := r] != base)
  {
    StoreStep(base, est, SetOf(s[..i]), s[i]);
    IdsSnoc(s, i);
  }

  /** Each entry is stored under its own model id. */
  ghost predicate Keyed(db: map<string, CalcModelSizeResult>) {
    forall k :: k in db ==> db[k].modelId == k
  }

  const BatchSize: nat := 32

  /** The ids of `ms` that are not in `cached`, in order: the ones a batch submits. */
  function Uncached(ms: seq<HubModel>, cached: set<string>): (r: seq<string>)
    ensures |r| <= |ms|
  {
    if ms == [] then []
    else
      var last := ms[|ms| - 1];
      Uncached(ms[..|ms| - 1], cached) + (if last.modelId in cached then [] else [last.modelId])
  }

  /** Extending a slice by the next element. */
  lemma SliceSnoc<T>(s: seq<T>, from: nat, to: nat)
    requires from <= to < |s|
    ensures s[from..to + 1][..to - from] == s[from..to] && s[from..to + 1][to - from] == s[to]
  {
  }

  /** A submitted id is an uncached id of the batch, and every uncached id of the batch is
      submitted. */
  lemma {:induction false} UncachedFacts(ms: seq<HubModel>, cached: set<string>)
    ensures forall id :: id in Uncached(ms, cached) ==> id !in cached
    ensures forall i :: 0 <= i < |ms| ==> ms[i].modelId in cached || ms[i].modelId in Uncached(ms, cached)
  {
    if ms != [] {
      var init := ms[..|ms| - 1];
      UncachedFacts(init, cached);
      forall i | 0 <= i < |ms| ensures ms[i].modelId in cached || ms[i].modelId in Uncached(ms, cached) {
        if i < |ms| - 1 {
          assert ms[i] == init[i];
        }
      }
    }
  }

  /** A batch of cached models submits nothing. */
  lemma {:induction false} UncachedNone(ms: seq<HubModel>, cached: set<string>)
    requires forall i :: 0 <= i < |ms| ==> ms[i].modelId in cached
    ensures Uncached(ms, cached) == []
  {
    if ms != [] {
      var init := ms[..|ms| - 1];
      assert forall i :: 0 <= i < |init| ==> init[i] == ms[i];
      UncachedNone(init, cached);
    }
  }

  /** Where the inner loop of `update` starting at `from` may stop: at the end of the
      list, when the index reaches `end` (`model_idx == args.end`), or with a full batch. */
  ghost predicate Stop(models: seq<HubModel>, from: nat, end: Ext<nat>, cached: set<string>, t: nat) {
    from <= t <= |models| &&
    (t == |models| || end == Finite(t) || |Uncached(models[from..t], cached)| == BatchSize)
  }

  /** The inner loop starting at `from` stops at `to`: the first index after `from`
      where it may stop. */
  ghost predicate BatchStop(models: seq<HubModel>, from: nat, end: Ext<nat>, cached: set<string>, to: nat) {
    from < to <= |models| && Stop(models, from, end, cached, to) &&
    forall t :: from < t < to ==> !Stop(models, from, end, cached, t)
  }

  /** One round of the outer loop: the models `[from, to)` were visited and the ids in
      `submitted` were estimated. */
  datatype Batch = Batch(from: nat, to: nat, submitted: seq<string>)

  /** Every id the batches submitted. */
  ghost function Submitted(bs: seq<Batch>): set<string> {
    if bs == [] then {} else Submitted(bs[..|bs| - 1]) + SetOf(bs[|bs| - 1].submitted)
  }

  /** The index the outer loop has reached after the batches `bs`. */
  function Reached(start: nat, bs: seq<Batch>): nat {
    if bs == [] then start else bs[|bs| - 1].to
  }

  /** `bs` is a run of the outer loop of `update` from `start` over a store whose keys
      were `cached0`: each batch starts where the previous one stopped, the loop went on
      only while the index stayed below `end`, and each batch submitted the ids not
      stored when it began. */
  ghost predicate Run(models: seq<HubModel>, start: nat, end: Ext<nat>, cached0: set<string>, bs: seq<Batch>)
    decreases |bs|
  {
    bs == [] ||
    var init, b := bs[..|bs| - 1], bs[|bs| - 1];
    var from, cached := Reached(start, init), cached0 + Submitted(init);
    Run(models, start, end, cached0, init) &&
    (init != [] ==> Below(from, end)) &&
    b.from == from && BatchStop(models, from, end, cached, b.to) &&
    b.submitted == Uncached(models[from..b.to], cached)
  }

  /** The outer loop is over: the list is exhausted, or a batch ended at or past `end`. */
  ghost predicate Finished(models: seq<HubModel>, start: nat, end: Ext<nat>, bs: seq<Batch>) {
    Reached(start, bs) >= |models| || (bs != [] && !Below(Reached(start, bs), end))
  }

  /** A run extended by one more batch of the outer loop. */
  lemma RunSnoc(models: seq<HubModel>, start: nat, end: Ext<nat>, cached0: set<string>, bs: seq<Batch>, b: Batch)
    requires Run(models, start, end, cached0, bs)
    requires bs != [] ==> Below(Reached(start, bs), end)
    requires b.from == Reached(start, bs)
    requires BatchStop(models, b.from, end, cached0 + Submitted(bs), b.to)
    requires b.submitted == Uncached(models[b.from..b.to], cached0 + Submitted(bs))
    ensures Run(models, start, end, cached0, bs + [b])
    ensures Submitted(bs + [b]) == Submitted(bs) + SetOf(b.submitted)
    ensures Reached(start, bs + [b]) == b.to
  {
    assert (bs + [b])[..|bs|] == bs;
  }

  /** What `persist` leaves behind at the end of one batch: the file contents and the
      number of writes so far. */
  datatype Saved = Saved(file: map<string, CalcModelSizeResult>, writes: nat)

  /** `log` records the file after every batch of `bs`, run over a store that held
      `base`, was dirty when `dirty0` and had been written `writes0` times. After each
      batch the file holds what it held before plus that batch's estimates, and it was
      written exactly when the store was dirty: by the first batch when the store was
      dirty already or the batch submitted ids, by any later batch when it submitted ids. */
  ghost predicate Persisted(base: map<string, CalcModelSizeResult>, est: Estimator, dirty0: bool,
                            writes0: nat, bs: seq<Batch>, log: seq<Saved>) {
    |log| == |bs| &&
    (bs != [] ==>
      log[0].file == base + Estimates(est, SetOf(bs[0].submitted)) &&
      log[0].writes == writes0 + (if dirty0 || bs[0].submitted != [] then 1 else 0)) &&
    forall i, j {:trigger log[i], log[j]} :: 0 <= i && j == i + 1 && j < |bs| ==>
      log[j].file == log[i].file + Estimates(est, SetOf(bs[j].submitted)) &&
      log[j].writes == log[i].writes + (if bs[j].submitted != [] then 1 else 0)
  }

  /** The log extended by what the next batch left behind. */
  lemma PersistedSnoc(base: map<string, CalcModelSizeResult>, est: Estimator, dirty0: bool, writes0: nat,
                      bs: seq<Batch>, log: seq<Saved>, b: Batch, saved: Saved)
    requires Persisted(base, est, dirty0, writes0, bs, log)
    requires saved.file == (if bs == [] then base else log[|bs| - 1].file) + Estimates(est, SetOf(b.submitted))
    requires saved.writes == (if bs == [] then writes0 else log[|bs| - 1].writes) +
                             (if (bs == [] && dirty0) || b.submitted != [] then 1 else 0)
    ensures Persisted(base, est, dirty0, writes0, bs + [b], log + [saved])
  {
    var bs', log' := bs + [b], log + [saved];
    forall i, j | 0 <= i && j == i + 1 && j < |bs'|
      ensures log'[j].file == log'[i].file + Estimates(est, SetOf(bs'[j].submitted))
      ensures log'[j].writes == log'[i].writes + (if bs'[j].submitted != [] then 1 else 0)
    {
      assert log'[i] == log[i];
      if j < |bs| {
        assert bs'[j] == bs[j] && log'[j] == log[j];
      } else {
        assert bs'[j] == b && log'[j] == saved;
      }
    }
  }

  /** How many of the batches submitted at least one estimation. */
  function Busy(bs: seq<Batch>): (n: nat)
    ensures n <= |bs|
    ensures bs != [] && bs[0].submitted == [] ==> n < |bs|
  {
    if bs == [] then 0
    else
      var init := bs[..|bs| - 1];
      assert init != [] ==> init[0] == bs[0];
      Busy(init) + (if bs[|bs| - 1].submitted != [] then 1 else 0)
  }

  /** A log of `n` batches begins with the log of its first `n` batches. */
  lemma PersistedPrefix(base: map<string, CalcModelSizeResult>, est: Estimator, dirty0: bool, writes0: nat,
                        bs: seq<Batch>, log: seq<Saved>, n: nat)
    requires Persisted(base, est, dirty0, writes0, bs, log) && n <= |bs|
    ensures Persisted(base, est, dirty0, writes0, bs[..n], log[..n])
  {
    var bs', log' := bs[..n], log[..n];
    forall i, j | 0 <= i && j == i + 1 && j < n
      ensures log'[j].file == log'[i].file + Estimates(est, SetOf(bs'[j].submitted))
      ensures log'[j].writes == log'[i].writes + (if bs'[j].submitted != [] then 1 else 0)
    {
      assert log'[i] == log[i] && log'[j] == log[j] && bs'[j] == bs[j];
    }
  }

  /** After the last logged batch the file holds the base plus every estimate submitted
      so far, and it has been written once per batch that submitted something, plus once
      more when the store was dirty already and the first batch submitted nothing. */
  lemma {:induction false} PersistedTotals(base: map<string, CalcModelSizeResult>, est: Estimator, dirty0: bool,
                                           writes0: nat, bs: seq<Batch>, log: seq<Saved>)
    requires Persisted(base, est, dirty0, writes0, bs, log) && bs != []
    ensures log[|bs| - 1].file == base + Estimates(est, Submitted(bs))
    ensures log[|bs| - 1].writes == writes0 + Busy(bs) + (if dirty0 && bs[0].submitted == [] then 1 else 0)
    ensures Submitted(bs) != {} ==> log[|bs| - 1].writes > writes0
    decreases |bs|
  {
    var n := |bs| - 1;
    var init := bs[..n];
    SetOfEmpty(bs[n].submitted);
    if n == 0 {
      assert init == [];
    } else {
      PersistedPrefix(base, est, dirty0, writes0, bs, log, n);
      PersistedTotals(base, est, dirty0, writes0, init, log[..n]);
      assert log[..n][n - 1] == log[n - 1] && init[0] == bs[0];
      EstimatesUnion(base, est, Submitted(init), SetOf(bs[n].submitted));
    }
  }

  /** Every batch was persisted: after batch `i` the file holds the base plus the
      estimates of every id submitted up to and including that batch, and the file is
      never written more than once per batch. */
  lemma PersistedFiles(base: map<string, CalcModelSizeResult>, est: Estimator, dirty0: bool,
                       writes0: nat, bs: seq<Batch>, log: seq<Saved>)
    requires Persisted(base, est, dirty0, writes0, bs, log)
    ensures forall i :: 0 <= i < |bs| ==> log[i].file == base + Estimates(est, Submitted(bs[..i + 1]))
    ensures forall i :: 0 <= i < |bs| ==> log[i].writes <= writes0 + i + 1
  {
    forall i | 0 <= i < |bs|
      ensures log[i].file == base + Estimates(est, Submitted(bs[..i + 1]))
      ensures log[i].writes <= writes0 + i + 1
    {
      PersistedPrefix(base, est, dirty0, writes0, bs, log, i + 1);
      PersistedTotals(base, est, dirty0, writes0, bs[..i + 1], log[..i + 1]);
      assert log[..i + 1][i] == log[i];
      assert bs[..i + 1][0] == bs[0];
    }
  }

  /** Ids that are not stored yet change the store exactly when there is at least one. */
  lemma FreshChanges(before: map<string, CalcModelSizeResult>, est: Estimator, submitted: seq<string>)
    requires forall id :: id in submitted ==> id !in before
    ensures (before + Estimates(est, SetOf(submitted)) != before) <==> submitted != []
  {
    if submitted != [] {
      var id := submitted[0];
      assert id in before + Estimates(est, SetOf(submitted));
    } else {
      assert SetOf(submitted) == {};
      EstimatesNone(before, est);
    }
  }

  /** The inner loop never submits more than `BatchSize` estimations. */
  lemma BatchBound(models: seq<HubModel>, from: nat, end: Ext<nat>, cached: set<string>, to: nat)
    requires BatchStop(models, from, end, cached, to)
    ensures |Uncached(models[from..to], cached)| <= BatchSize
  {
    var t := from + 1;
    UncachedStep(models, from, cached, from);
    while t < to
      invariant from < t <= to
      invariant |Uncached(models[from..t], cached)| <= BatchSize
      invariant t < to ==> |Uncached(models[from..t], cached)| < BatchSize
    {
      UncachedStep(models, from, cached, t);
      t := t + 1;
      if t < to {
        assert !Stop(models, from, end, cached, t);
      }
    }
  }

  /** Visiting one more model submits at most one more id. */
  lemma UncachedStep(models: seq<HubModel>, from: nat, cached: set<string>, t: nat)
    requires from <= t < |models|
    ensures |Uncached(models[from..t + 1], cached)| <= |Uncached(models[from..t], cached)| + 1
  {
    assert models[from..t + 1][..t - from] == models[from..t];
  }

  /** A batch that starts below `end` stops at `end` at the latest. */
  lemma BatchWithin(models: seq<HubModel>, from: nat, end: Ext<nat>, cached: set<string>, to: nat)
    requires BatchStop(models, from, end, cached, to) && Below(from, end)
    ensures to <= Cap(end, |models|)
  {
    if end.Finite? && end.value < to {
      assert Stop(models, from, end, cached, end.value);
    }
  }

  /** Every batch of a run submits at most `BatchSize` ids. */
  lemma {:induction false} RunBatchSizes(models: seq<HubModel>, start: nat, end: Ext<nat>, cached0: set<string>, bs: seq<Batch>)
    requires Run(models, start, end, cached0, bs)
    ensures forall i :: 0 <= i < |bs| ==> |bs[i].submitted| <= BatchSize
  {
    if bs != [] {
      var init, b := bs[..|bs| - 1], bs[|bs| - 1];
      RunBatchSizes(models, start, end, cached0, init);
      BatchBound(models, b.from, end, cached0 + Submitted(init), b.to);
      assert forall i :: 0 <= i < |init| ==> bs[i] == init[i];
    }
  }

  /** No batch of a run submits an id stored before the run or submitted by an earlier
      batch. */
  lemma {:induction false} RunFresh(models: seq<HubModel>, start: nat, end: Ext<nat>, cached0: set<string>, bs: seq<Batch>)
    requires Run(models, start, end, cached0, bs)
    ensures forall i, id :: 0 <= i < |bs| && id in bs[i].submitted ==> id !in cached0 && id !in Submitted(bs[..i])
    ensures forall id :: id in Submitted(bs) ==> id !in cached0
  {
    if bs != [] {
      var init, b := bs[..|bs| - 1], bs[|bs| - 1];
      RunFresh(models, start, end, cached0, init);
      UncachedFacts(models[b.from..b.to], cached0 + Submitted(init));
      forall i | 0 <= i < |init| ensures bs[..i] == init[..i] && bs[i] == init[i] {
      }
    }
  }

  /** When `start` is below `end`, every batch stays within `[start, min(end, n))`. */
  lemma {:induction false} RunWithin(models: seq<HubModel>, start: nat, end: Ext<nat>, cached0: set<string>, bs: seq<Batch>)
    requires Run(models, start, end, cached0, bs) && Below(start, end)
    ensures forall i :: 0 <= i < |bs| ==> start <= bs[i].from < bs[i].to <= Cap(end, |models|)
    ensures bs != [] ==> start < Reached(start, bs) <= Cap(end, |models|)
  {
    if bs != [] {
      var init, b := bs[..|bs| - 1], bs[|bs| - 1];
      RunWithin(models, start, end, cached0, init);
      assert Below(b.from, end);
      BatchWithin(models, b.from, end, cached0 + Submitted(init), b.to);
      assert forall i :: 0 <= i < |init| ==> bs[i] == init[i];
    }
  }

  /** A run from below `end` visits `[start, Reached)`, and each model there is stored
      afterwards or was stored before; once finished, it has reached `min(end, n)`. */
  lemma {:induction false} RunCovers(models: seq<HubModel>, start: nat, end: Ext<nat>, cached0: set<string>, bs: seq<Batch>)
    requires Run(models, start, end, cached0, bs) && Below(start, end)
    ensures forall i :: start <= i < Reached(start, bs) ==> models[i].modelId in cached0 + Submitted(bs)
    ensures Finished(models, start, end, bs) ==> Reached(start, bs) == Cap(end, |models|) || Cap(end, |models|) <= start
  {
    RunWithin(models, start, end, cached0, bs);
    if bs != [] {
      var init, b := bs[..|bs| - 1], bs[|bs| - 1];
      RunCovers(models, start, end, cached0, init);
      var cached := cached0 + Submitted(init);
      var ms := models[b.from..b.to];
      assert Submitted(bs) == Submitted(init) + SetOf(b.submitted);
      UncachedFacts(ms, cached);
      forall i | start <= i < b.to ensures models[i].modelId in cached0 + Submitted(bs) {
        if i >= b.from {
          assert models[i] == ms[i - b.from];
        }
      }
    }
  }

  /** A run from below `end` over models that are all stored already submits nothing. */
  lemma {:induction false} RunIdle(models: seq<HubModel>, start: nat, end: Ext<nat>, cached0: set<string>, bs: seq<Batch>)
    requires Run(models, start, end, cached0, bs) && Below(start, end)
    requires forall i :: start <= i < Cap(end, |models|) ==> models[i].modelId in cached0
    ensures Submitted(bs) == {}
    ensures forall i :: 0 <= i < |bs| ==> bs[i].submitted == []
  {
    if bs != [] {
      var init, b := bs[..|bs| - 1], bs[|bs| - 1];
      RunIdle(models, start, end, cached0, init);
      RunWithin(models, start, end, cached0, bs);
      assert cached0 + Submitted(init) == cached0;
      var ms := models[b.from..b.to];
      assert forall i :: 0 <= i < |ms| ==> ms[i] == models[b.from + i];
      UncachedNone(ms, cached0);
      assert b.submitted == [];
      assert Submitted(bs) == Submitted(init) + SetOf(b.submitted);
    }
  }

  /** A second `update` over the same list and range, from below `end`, finds every
      visited model stored by the first one and submits nothing. */
  lemma SecondRunIdle(models: seq<HubModel>, start: nat, end: Ext<nat>, cached0: set<string>,
                      first: seq<Batch>, second: seq<Batch>)
    requires Below(start, end)
    requires Run(models, start, end, cached0, first) && Finished(models, start, end, first)
    requires Run(models, start, end, cached0 + Submitted(first), second)
    ensures Submitted(second) == {}
    ensures forall i :: 0 <= i < |second| ==> second[i].submitted == []
  {
    RunCovers(models, start, end, cached0, first);
    RunIdle(models, start, end, cached0 + Submitted(first), second);
  }

  /** Every batch of a run moves the index forward, from `start` on. */
  lemma {:induction false} RunAdvances(models: seq<HubModel>, start: nat, end: Ext<nat>, cached0: set<string>, bs: seq<Batch>)
    requires Run(models, start, end, cached0, bs)
    ensures bs != [] ==> start < Reached(start, bs)
  {
    if bs != [] {
      RunAdvances(models, start, end, cached0, bs[..|bs| - 1]);
    }
  }

  /** With `start` at or past `end` the outer loop stops after its first batch, since
      the index is then past `end` (`model_idx >= args.end`). */
  lemma RunPastEndSingle(models: seq<HubModel>, start: nat, end: Ext<nat>, cached0: set<string>, bs: seq<Batch>)
    requires Run(models, start, end, cached0, bs) && !Below(start, end)
    ensures |bs| <= 1
  {
    if |bs| > 1 {
      var init := bs[..|bs| - 1];
      RunAdvances(models, start, end, cached0, init);
      assert false;
    }
  }

  /** A run of one batch: it starts at `start`, stops where the inner loop stops, and
      submits the uncached ids it visited. */
  lemma RunOne(models: seq<HubModel>, start: nat, end: Ext<nat>, cached0: set<string>, b: Batch)
    ensures Run(models, start, end, cached0, [b]) <==>
      b.from == start && BatchStop(models, start, end, cached0, b.to) &&
      b.submitted == Uncached(models[start..b.to], cached0)
    ensures Submitted([b]) == SetOf(b.submitted) && Reached(start, [b]) == b.to
  {
    assert [b][..0] == [];
    assert Submitted([b][..0]) == {} && Reached(start, [b][..0]) == start;
    assert cached0 + Submitted([b][..0]) == cached0;
  }

  /** After a batch over `[from, to)` every model there is stored or was submitted. */
  lemma BatchCovers(models: seq<HubModel>, from: nat, to: nat, cached: set<string>)
    requires from <= to <= |models|
    ensures forall i :: from <= i < to ==> models[i].modelId in cached + SetOf(Uncached(models[from..to], cached))
  {
    var ms := models[from..to];
    UncachedFacts(ms, cached);
    forall i | from <= i < to ensures models[i].modelId in cached + SetOf(Uncached(ms, cached)) {
      assert models[i] == ms[i - from];
    }
  }

  /** From `from` at or past `end`, a batch cannot stop while the models it has visited
      are all stored, short of the end of the list: it runs past `[from, t)`. */
  lemma PassesStored(models: seq<HubModel>, from: nat, end: Ext<nat>, cached: set<string>, t: nat, to: nat)
    requires !Below(from, end) && from <= t < |models|
    requires forall i :: from <= i < t ==> models[i].modelId in cached
    requires BatchStop(models, from, end, cached, to)
    ensures t < to
  {
    if to <= t {
      var ms := models[from..to];
      assert forall i :: 0 <= i < |ms| ==> ms[i] == models[from + i];
      UncachedNone(ms, cached);
      assert false;
    }
  }

  /** The guarantee of `SecondRunIdle` needs `start < end`: from `start` at or past `end`
      the first run's one batch stops at a full batch before the list ends, and a
      second run skips the ids now stored, passes that point and submits the next new
      model. */
  lemma SecondRunPastEnd(models: seq<HubModel>, start: nat, end: Ext<nat>, cached0: set<string>,
                         first: seq<Batch>, second: seq<Batch>)
    requires !Below(start, end)
    requires Run(models, start, end, cached0, first) && first != []
    requires Run(models, start, end, cached0 + Submitted(first), second) && second != []
    requires Reached(start, first) < |models|
    requires models[Reached(start, first)].modelId !in cached0 + Submitted(first)
    ensures |first| == 1 && |Uncached(models[start..Reached(start, first)], cached0)| == BatchSize
    ensures models[Reached(start, first)].modelId in Submitted(second)
  {
    RunPastEndSingle(models, start, end, cached0, first);
    RunPastEndSingle(models, start, end, cached0 + Submitted(first), second);
    var b1, b2 := first[0], second[0];
    assert first == [b1] && second == [b2];
    var t1, cached := b1.to, cached0 + Submitted(first);
    RunOne(models, start, end, cached0, b1);
    RunOne(models, start, end, cached, b2);
    BatchCovers(models, start, t1, cached0);
    PassesStored(models, start, end, cached, t1, b2.to);
    UncachedFacts(models[start..b2.to], cached);
    assert models[start..b2.to][t1 - start] == models[t1];
  }

  /** With `start` at or past `end` the index never equals `end` (`model_idx == args.end`),
      so one batch runs on up to the end of the list or a full batch: from `start = end = 1`
      over three uncached models, it visits models 1 and 2. */
  lemma StartPastEndExample(a: HubModel, b: HubModel, c: HubModel)
    requires a.modelId != b.modelId && b.modelId != c.modelId && a.modelId != c.modelId
    ensures var ms := [a, b, c];
      BatchStop(ms, 1, Finite(1), {}, 3) && Uncached(ms[1..3], {}) == [b.modelId, c.modelId]
  {
    var ms := [a, b, c];
    assert ms[1..2] == [b] && ms[1..3] == [b, c];
    assert [b, c][..1] == [b];
    assert Uncached(ms[1..2], {}) == [b.modelId];
    assert !Stop(ms, 1, Finite(1), {}, 2);
  }

  class SizeDB {
    /** `self.db`. */
    var db: map<string, CalcModelSizeResult>
    /** `self.dirty`: the dictionary differs from the file. */
    var dirty: bool
    /** The contents of the JSON file as last written (or loaded). */
    ghost var disk: map<string, CalcModelSizeResult>
    /** How many times the file has been written. */
    ghost var writes: nat

    /** A clean store matches its file, and every entry is stored under its own id. */
    ghost predicate Valid()
      reads this
    {
      (!dirty ==> disk == db) && Keyed(db)
    }

    /** Opening the store on a file that held `loaded`. */
    constructor (loaded: map<string, CalcModelSizeResult>)
      requires Keyed(loaded)
      ensures Valid()
      ensures db == loaded && !dirty && disk == loaded && writes == 0
    {
      db := loaded;
      dirty := false;
      disk := loaded;
      writes := 0;
    }

    /** `self.db[key]`. */
    function Get(key: string): (r: Result<CalcModelSizeResult>)
      reads this
      ensures r.Success? <==> key in db
      ensures r.Success? ==> r.value == db[key]
      ensures r.Failure? ==> r.error == KeyError(key)
    {
      if key in db then Success(db[key]) else Failure(KeyError(key))
    }

    /** `key in self`. */
    predicate Contains(key: string): (b: bool)
      reads this
      ensures b <==> Get(key).Success?
    {
      key in db
    }

    /** `self[key] = result`: stores the result and marks the store dirty, unless the
        same result is stored already. */
    method Set(key: string, result: CalcModelSizeResult)
      requires key == result.modelId
      requires Valid()
      modifies this
      ensures Valid()
      ensures db == old(db)[key := result]
      ensures dirty == (old(dirty) || key !in old(db) || old(db)[key] != result)
      ensures disk == old(disk) && writes == old(writes)
    {
      if key in db {
        if db[key] != result {
          db := db[key := result];
          dirty := true;
        } else {
          assert db[key := result] == db;
        }
      } else {
        db := db[key := result];
        dirty := true;
      }
    }

    /** `persist()`: writes the file only when dirty, and leaves the store clean. */
    method Persist()
      requires Valid()
      modifies this
      ensures Valid() && !dirty && db == old(db) && disk == db
      ensures old(dirty) ==> writes == old(writes) + 1
      ensures !old(dirty) ==> disk == old(disk) && writes == old(writes)
    {
      if dirty {
        disk := db;
        writes := writes + 1;
      }
      dirty := false;
    }

    /** The inner loop of `update`: from `from`, collects the ids that are not stored
        until the list ends, the index reaches `end`, or `BatchSize` ids are collected. */
    method NextBatch(models: seq<HubModel>, from: nat, end: Ext<nat>) returns (to: nat, submitted: seq<string>)
      requires from < |models|
      ensures BatchStop(models, from, end, db.Keys, to)
      ensures submitted == Uncached(models[from..to], db.Keys)
    {
      to := from;
      submitted := [];
      assert models[from..from] == [];
      while to < |models| && |submitted| < BatchSize
        invariant from <= to <= |models|
        invariant submitted == Uncached(models[from..to], db.Keys)
        invariant |submitted| <= BatchSize
        invariant forall t :: from < t < to ==> !Stop(models, from, end, db.Keys, t)
        invariant to > from ==> end != Finite(to)
      {
        var m := models[to];
        SliceSnoc(models, from, to);
        if m.modelId !in db {
          submitted := submitted + [m.modelId];
        }
        to := to + 1;
        if end == Finite(to) {
          break;
        }
      }
    }

    /** One completed estimation of `update`: a code 2 result is replaced by the
        estimate with `fallback=True`, and the result is stored under its id. */
    method StoreOne(id: string, est: Estimator)
      requires Valid()
      modifies this
      ensures Valid()
      ensures db == old(db)[id := Resolve(est, id)]
      ensures dirty == (old(dirty) || id !in old(db) || old(db)[id] != Resolve(est, id))
      ensures disk == old(disk) && writes == old(writes)
    {
      var result := EstimateSize(est, id, false);
      if result.code == 2 {
        result := EstimateSize(est, id, true);
      }
      Set(result.modelId, result);
    }

    /** The collecting loop of `update`: each submitted id's resolved estimate is
        stored in turn. */
    method StoreBatch(submitted: seq<string>, est: Estimator)
      requires Valid()
      modifies this
      ensures Valid()
      ensures db == old(db) + Estimates(est, SetOf(submitted))
      ensures dirty == (old(dirty) || db != old(db))
      ensures disk == old(disk) && writes == old(writes)
    {
      EstimatesNone(db, est);
      assert SetOf(submitted[..0]) == {};
      for i := 0 to |submitted|
        invariant Valid()
        invariant db == old(db) + Estimates(est, SetOf(submitted[..i]))
        invariant dirty == (old(dirty) || db != old(db))
        invariant disk == old(disk) && writes == old(writes)
      {
        BatchStep(old(db), est, submitted, i);
        StoreOne(submitted[i], est);
      }
      assert submitted[..|submitted|] == submitted;
    }

    /** One round of the outer loop of `update` from `from`: collect a batch, store the
        resolved estimate of every submitted id, then `persist()`. */
    method Round(models: seq<HubModel>, est: Estimator, from: nat, end: Ext<nat>)
      returns (to: nat, submitted: seq<string>)
      requires Valid() && from < |models|
      modifies this
      ensures BatchStop(models, from, end, old(db).Keys, to)
      ensures submitted == Uncached(models[from..to], old(db).Keys)
      ensures Valid() && !dirty && disk == db
      ensures db == old(db) + Estimates(est, SetOf(submitted))
      ensures writes == old(writes) + (if old(dirty) || submitted != [] then 1 else 0)
    {
      to, submitted := NextBatch(models, from, end);
      UncachedFacts(models[from..to], db.Keys);
      FreshChanges(db, est, submitted);
      StoreBatch(submitted, est);
      Persist();
    }

    /** The state of `update` after the batches `bs`, started on a store that held
        `db0`, was dirty when `dirty0`, had the file `disk0` and `writes0` writes. */
    ghost predicate Progress(models: seq<HubModel>, est: Estimator, start: nat, end: Ext<nat>,
                             db0: map<string, CalcModelSizeResult>, dirty0: bool,
                             disk0: map<string, CalcModelSizeResult>, writes0: nat,
                             bs: seq<Batch>, log: seq<Saved>)
      reads this
    {
      Valid() && Run(models, start, end, db0.Keys, bs) &&
      db == db0 + Estimates(est, Submitted(bs)) &&
      Persisted(db0, est, dirty0, writes0, bs, log) &&
      (bs != [] ==> !dirty && disk == db && log[|bs| - 1].file == db && writes == log[|bs| - 1].writes) &&
      (bs == [] ==> dirty == dirty0 && disk == disk0 && writes == writes0) &&
      (Submitted(bs) == {} ==> dirty0 || writes == writes0)
    }

    /** One turn of the outer loop of `update`, with its batch and log entry recorded. */
    method Step(models: seq<HubModel>, est: Estimator, start: nat, end: Ext<nat>,
                ghost db0: map<string, CalcModelSizeResult>, ghost dirty0: bool,
                ghost disk0: map<string, CalcModelSizeResult>, ghost writes0: nat,
                idx: nat, ghost bs: seq<Batch>, ghost log: seq<Saved>)
      returns (to: nat, ghost bs': seq<Batch>, ghost log': seq<Saved>)
      requires Progress(models, est, start, end, db0, dirty0, disk0, writes0, bs, log)
      requires idx == Reached(start, bs) && idx < |models| && (bs != [] ==> Below(idx, end))
      modifies this
      ensures Progress(models, est, start, end, db0, dirty0, disk0, writes0, bs', log')
      ensures bs' != [] && Reached(start, bs') == to && idx < to <= |models|
    {
      ghost var before, dirtyBefore, writesBefore := db, dirty, writes;
      ghost var prev := if bs == [] then db0 else log[|bs| - 1].file;
      assert before == prev by {
        if bs == [] {
          EstimatesNone(db0, est);
        }
      }
      assert db.Keys == db0.Keys + Submitted(bs);
      var submitted;
      to, submitted := Round(models, est, idx, end);
      var b := Batch(idx, to, submitted);
      bs', log' := bs + [b], log + [Saved(disk, writes)];
      assert Run(models, start, end, db0.Keys, bs') && Reached(start, bs') == to &&
             Submitted(bs') == Submitted(bs) + SetOf(submitted) by {
        RunSnoc(models, start, end, db0.Keys, bs, b);
      }
      assert db == db0 + Estimates(est, Submitted(bs')) by {
        EstimatesUnion(db0, est, Submitted(bs), SetOf(submitted));
      }
      assert Persisted(db0, est, dirty0, writes0, bs', log') by {
        PersistedSnoc(db0, est, dirty0, writes0, bs, log, b, Saved(disk, writes));
      }
      if Submitted(bs') == {} {
        assert SetOf(submitted) == {};
        SetOfEmpty(submitted);
      }
    }

    /** `update(all_models, args)`: batches of estimations over the models from
        `start`, each batch persisted, until the list ends or a batch reaches `end`. */
    method Update(models: seq<HubModel>, est: Estimator, start: nat, end: Ext<nat>)
      returns (ghost bs: seq<Batch>, ghost log: seq<Saved>)
      requires Valid()
      modifies this
      ensures Valid()
      ensures Run(models, start, end, old(db).Keys, bs) && Finished(models, start, end, bs)
      ensures db == old(db) + Estimates(est, Submitted(bs))
      ensures forall k :: k in old(db) ==> k in db && db[k] == old(db)[k]
      ensures bs != [] ==> !dirty && disk == db
      ensures bs == [] ==> db == old(db) && dirty == old(dirty) && disk == old(disk) && writes == old(writes)
      ensures Submitted(bs) == {} ==> db == old(db) && (old(dirty) || writes == old(writes))
      ensures Persisted(old(db), est, old(dirty), old(writes), bs, log)
      ensures writes == if bs == [] then old(writes) else log[|bs| - 1].writes
      ensures bs != [] ==> log[|bs| - 1].file == disk
      ensures Submitted(bs) != {} ==> writes > old(writes)
    {
      var idx := start;
      bs, log := [], [];
      EstimatesNone(db, est);
      while idx < |models|
        invariant Progress(models, est, start, end, old(db), old(dirty), old(disk), old(writes), bs, log)
        invariant idx == Reached(start, bs)
        invariant bs != [] ==> Below(idx, end)
        decreases |models| - idx
      {
        idx, bs, log := Step(models, est, start, end, old(db), old(dirty), old(disk), old(writes), idx, bs, log);
        if !Below(idx, end) {
          break;
        }
      }
      Finish(models, est, start, end, old(db), old(dirty), old(disk), old(writes), bs, log);
    }

    /** What the state of `update` says once its loop is over. */
    lemma Finish(models: seq<HubModel>, est: Estimator, start: nat, end: Ext<nat>,
                 db0: map<string, CalcModelSizeResult>, dirty0: bool,
                 disk0: map<string, CalcModelSizeResult>, writes0: nat,
                 bs: seq<Batch>, log: seq<Saved>)
      requires Progress(models, est, start, end, db0, dirty0, disk0, writes0, bs, log)
      ensures Valid() && Run(models, start, end, db0.Keys, bs)
      ensures db == db0 + Estimates(est, Submitted(bs))
      ensures forall k :: k in db0 ==> k in db && db[k] == db0[k]
      ensures bs != [] ==> !dirty && disk == db
      ensures bs == [] ==> db == db0 && dirty == dirty0 && disk == disk0 && writes == writes0
      ensures Submitted(bs) == {} ==> db == db0 && (dirty0 || writes == writes0)
      ensures Persisted(db0, est, dirty0, writes0, bs, log)
      ensures writes == if bs == [] then writes0 else log[|bs| - 1].writes
      ensures bs != [] ==> log[|bs| - 1].file == disk
      ensures Submitted(bs) != {} ==> writes > writes0
    {
      if bs != [] {
        PersistedTotals(db0, est, dirty0, writes0, bs, log);
      }
      assert forall k :: k in db0 ==> k in db && db[k] == db0[k] by {
        RunFresh(models, start, end, db0.Keys, bs);
        KeepsCached(db0, est, Submitted(bs));
      }
      if Submitted(bs) == {} {
        EstimatesNone(db0, est);
      }
    }
  }
}
