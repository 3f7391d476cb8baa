/** The queries over the two stores: the top models of a day in a size range, the size
    and download lookups, and the per-date rank table behind the download trend chart. */
module QueryDb {
  import opened Common
  import opened Sorting
  import opened DownloadDb
  import opened SizeDb

  /** The size range of a query: the `min_size`, `max_size` (possibly `inf`) and
      `include_unsupported` attributes of `args`; the command line defines no
      `--include-unsupported` flag. */
  datatype Filter = Filter(minSize: real, maxSize: Ext<real>, includeUnsupported: bool)

  /** `min_size == 0 and max_size == float("inf")`: no size is looked up at all. */
  predicate SkipSize(f: Filter) {
    f.minSize == 0.0 && f.maxSize.Infinity?
  }

  /** `min_size <= size <= max_size`. */
  predicate InRange(size: real, f: Filter) {
    f.minSize <= size && (f.maxSize.Infinity? || size <= f.maxSize.value)
  }

  /** The size of one model as the queries obtain it: the stored entry when there is one,
      the estimate with `fallback=True` otherwise. */
  function Lookup(sizes: map<string, CalcModelSizeResult>, est: Estimator, id: string): (r: CalcModelSizeResult)
    ensures id in sizes ==> r == sizes[id]
    ensures id !in sizes ==> r == EstimateSize(est, id, true)
    ensures Keyed(sizes) ==> r.modelId == id
  {
    if id in sizes then sizes[id] else EstimateSize(est, id, true)
  }

  /** What the selection loop does with one candidate: skip it, or accept it with a size,
      `extra` when it is an unsupported model that raises the target by one. */
  datatype Verdict = Accept(size: real, extra: bool) | Skip

  /** The branches of the selection loop on a looked-up size. */
  function Judge(r: CalcModelSizeResult, f: Filter): (v: Verdict)
    ensures v.Accept? && !v.extra <==> r.code == 0 && InRange(r.size, f)
    ensures v.Accept? && v.extra <==> r.code != 0 && f.includeUnsupported
    ensures v.Accept? ==> v.size == r.size
  {
    if r.code != 0 then (if f.includeUnsupported then Accept(r.size, true) else Skip)
    else if r.size < f.minSize then Skip
    else if f.maxSize.Finite? && r.size > f.maxSize.value then Skip
    else Accept(r.size, false)
  }

  /** The verdict on model `id`: every model is accepted with size 0 when sizes are
      skipped; otherwise its looked-up size is judged. */
  function VerdictOf(sizes: map<string, CalcModelSizeResult>, est: Estimator, f: Filter, id: string): Verdict {
    if SkipSize(f) then Accept(0.0, false) else Judge(Lookup(sizes, est, id), f)
  }

  /** A selected model with the `size` attribute the loop assigns to it. */
  datatype Picked<T> = Picked(item: T, size: real)

  /** Every accepted candidate with its size, in order: what the loop collects while it
      has not stopped. */
  function Accepted<T>(items: seq<T>, vs: seq<Verdict>): (a: seq<Picked<T>>)
    requires |items| == |vs|
    ensures |a| <= |items|
  {
    if items == [] then []
    else
      var n := |items| - 1;
      Accepted(items[..n], vs[..n]) + (if vs[n].Accept? then [Picked(items[n], vs[n].size)] else [])
  }

  /** The number of extra slots the verdicts open: `list_extra`. */
  function Extras(vs: seq<Verdict>): (n: nat)
    ensures n <= |vs|
  {
    if vs == [] then 0
    else var n := |vs| - 1; Extras(vs[..n]) + (if vs[n].Accept? && vs[n].extra then 1 else 0)
  }

  /** The number of acceptances that count toward `limit` (those without an extra slot). */
  function Plain(vs: seq<Verdict>): (n: nat)
    ensures n <= |vs|
  {
    if vs == [] then 0
    else var n := |vs| - 1; Plain(vs[..n]) + (if vs[n].Accept? && !vs[n].extra then 1 else 0)
  }

  /** Every acceptance either counts toward `limit` or opens an extra slot. */
  lemma {:induction false} AcceptedCount<T>(items: seq<T>, vs: seq<Verdict>)
    requires |items| == |vs|
    ensures |Accepted(items, vs)| == Plain(vs) + Extras(vs)
  {
    if items != [] {
      var n := |items| - 1;
      AcceptedCount(items[..n], vs[..n]);
    }
  }

  /** The loop stops right after candidate `i - 1`: it was accepted and `len(models) ==
      limit + list_extra` then holds. */
  ghost predicate Stops<T>(items: seq<T>, vs: seq<Verdict>, limit: int, i: nat)
    requires |items| == |vs|
  {
    1 <= i <= |items| && vs[i - 1].Accept? &&
    |Accepted(items[..i], vs[..i])| == limit + Extras(vs[..i])
  }

  /** The first stopping point after `from`, or the end of the candidates. */
  ghost function FirstStop<T>(items: seq<T>, vs: seq<Verdict>, limit: int, from: nat): (s: nat)
    requires |items| == |vs| && from <= |items|
    decreases |items| - from
    ensures from <= s <= |items| && (from < |items| ==> from < s)
    ensures s == |items| || Stops(items, vs, limit, s)
    ensures forall i :: from < i < s ==> !Stops(items, vs, limit, i)
  {
    if from == |items| then from
    else if Stops(items, vs, limit, from + 1) then from + 1
    else FirstStop(items, vs, limit, from + 1)
  }

  /** The selection loop over the candidates `items` with verdicts `vs`: the
      acceptances up to the point where it stops. */
  ghost function Take<T>(items: seq<T>, vs: seq<Verdict>, limit: int): seq<Picked<T>>
    requires |items| == |vs|
  {
    var s := FirstStop(items, vs, limit, 0);
    Accepted(items[..s], vs[..s])
  }

  /** Visiting candidate `i`. */
  lemma AcceptedSnoc<T>(items: seq<T>, vs: seq<Verdict>, i: nat)
    requires |items| == |vs| && i < |items|
    ensures Accepted(items[..i + 1], vs[..i + 1]) ==
      Accepted(items[..i], vs[..i]) + (if vs[i].Accept? then [Picked(items[i], vs[i].size)] else [])
    ensures Extras(vs[..i + 1]) == Extras(vs[..i]) + (if vs[i].Accept? && vs[i].extra then 1 else 0)
  {
    assert items[..i + 1][..i] == items[..i];
    assert vs[..i + 1][..i] == vs[..i];
  }

  /** Whether the loop stops right after candidate `i`, in terms of what it had
      collected before it. */
  lemma StopsAfter<T>(items: seq<T>, vs: seq<Verdict>, limit: int, i: nat)
    requires |items| == |vs| && i < |items|
    ensures Stops(items, vs, limit, i + 1) <==>
      vs[i].Accept? &&
      |Accepted(items[..i], vs[..i])| + 1 == limit + Extras(vs[..i]) + (if vs[i].extra then 1 else 0)
  {
    AcceptedSnoc(items, vs, i);
  }

  /** The stopping point is the first index where the loop may stop. */
  lemma FirstStopIs<T>(items: seq<T>, vs: seq<Verdict>, limit: int, s: nat)
    requires |items| == |vs| && s <= |items|
    requires s == |items| || Stops(items, vs, limit, s)
    requires forall i :: 0 < i < s ==> !Stops(items, vs, limit, i)
    requires |items| > 0 ==> s > 0
    ensures FirstStop(items, vs, limit, 0) == s
  {
    if 0 < s {
      FirstStopFrom(items, vs, limit, 0, s);
    }
  }

  lemma {:induction false} FirstStopFrom<T>(items: seq<T>, vs: seq<Verdict>, limit: int, from: nat, s: nat)
    requires |items| == |vs| && from < s <= |items|
    requires s == |items| || Stops(items, vs, limit, s)
    requires forall i :: from < i < s ==> !Stops(items, vs, limit, i)
    ensures FirstStop(items, vs, limit, from) == s
    decreases s - from
  {
    if from + 1 < s {
      FirstStopFrom(items, vs, limit, from + 1, s);
    }
  }

  /** The acceptances of a prefix of the candidates are a prefix of all acceptances. */
  lemma {:induction false} AcceptedPrefix<T>(items: seq<T>, vs: seq<Verdict>, i: nat)
    requires |items| == |vs| && i <= |items|
    ensures var p, a := Accepted(items[..i], vs[..i]), Accepted(items, vs);
      |p| <= |a| && p == a[..|p|]
    decreases |items| - i
  {
    if i < |items| {
      AcceptedPrefix(items, vs, i + 1);
      AcceptedSnoc(items, vs, i);
    } else {
      assert items[..i] == items && vs[..i] == vs;
    }
  }

  /** `len(models) - list_extra` grows by at most one per candidate and the loop stops
      when it reaches `limit`, so for `limit >= 1` it never exceeds `limit`. */
  lemma NoOvershoot<T>(items: seq<T>, vs: seq<Verdict>, limit: int, s: nat)
    requires |items| == |vs| && limit >= 1 && s <= |items|
    requires forall i :: 0 < i < s ==> !Stops(items, vs, limit, i)
    ensures |Accepted(items[..s], vs[..s])| <= limit + Extras(vs[..s])
  {
    var j := 0;
    assert items[..0] == [] && vs[..0] == [];
    while j < s
      invariant j <= s
      invariant |Accepted(items[..j], vs[..j])| <= limit + Extras(vs[..j])
      invariant j < s ==> |Accepted(items[..j], vs[..j])| < limit + Extras(vs[..j])
    {
      AcceptedSnoc(items, vs, j);
      j := j + 1;
      if j < s {
        assert !Stops(items, vs, limit, j);
      }
    }
  }

  /** The selection loop returns a prefix of the acceptances: all of them, unless it
      stopped on reaching `limit + list_extra`, and never an empty list when something
      was accepted. For `limit >= 1` it never exceeds `limit + list_extra`, so at most
      `limit` of its models are not extra. */
  lemma TakeFacts<T>(items: seq<T>, vs: seq<Verdict>, limit: int)
    requires |items| == |vs|
    ensures var r, a, s := Take(items, vs, limit), Accepted(items, vs), FirstStop(items, vs, limit, 0);
      |r| <= |a| && r == a[..|r|] &&
      (|a| > 0 ==> |r| > 0) &&
      (|r| < |a| ==> Stops(items, vs, limit, s) && |r| == limit + Extras(vs[..s])) &&
      (limit >= 1 ==> |r| <= limit + Extras(vs[..s]) && Plain(vs[..s]) <= limit)
  {
    var s := FirstStop(items, vs, limit, 0);
    AcceptedPrefix(items, vs, s);
    if s == |items| {
      assert items[..s] == items && vs[..s] == vs;
    }
    if limit >= 1 {
      NoOvershoot(items, vs, limit, s);
      AcceptedCount(items[..s], vs[..s]);
    }
    if |Accepted(items, vs)| > 0 && s < |items| {
      assert Stops(items, vs, limit, s);
    }
  }

  /** `idx` lists increasing positions of `items` whose verdicts accept, and `a` holds
      the candidates at those positions with their sizes. */
  ghost predicate AcceptedAt<T>(items: seq<T>, vs: seq<Verdict>, a: seq<Picked<T>>, idx: seq<nat>)
    requires |items| == |vs|
  {
    |idx| == |a| && Increasing(idx, |items|) &&
    forall k :: 0 <= k < |a| ==> a[k].item == items[idx[k]] && vs[idx[k]].Accept? && a[k].size == vs[idx[k]].size
  }

  /** One more candidate at the end keeps the acceptances at their positions. */
  lemma AcceptedSnocAt<T>(items: seq<T>, vs: seq<Verdict>, pre: seq<Picked<T>>, init: seq<nat>)
    requires |items| == |vs| && items != []
    requires AcceptedAt(items[..|items| - 1], vs[..|items| - 1], pre, init)
    ensures var n := |items| - 1;
      AcceptedAt(items, vs, pre + (if vs[n].Accept? then [Picked(items[n], vs[n].size)] else []),
                 init + (if vs[n].Accept? then [n] else []))
  {
    var n := |items| - 1;
    assert forall k :: 0 <= k < |init| ==> items[..n][init[k]] == items[init[k]] && vs[..n][init[k]] == vs[init[k]];
  }

  /** The acceptances come from the candidates in order: each one is a candidate with an
      accepting verdict, at strictly increasing positions. */
  lemma {:induction false} AcceptedPositions<T>(items: seq<T>, vs: seq<Verdict>) returns (idx: seq<nat>)
    requires |items| == |vs|
    ensures var a := Accepted(items, vs);
      |idx| == |a| && Increasing(idx, |items|) &&
      forall k :: 0 <= k < |a| ==> a[k].item == items[idx[k]] && vs[idx[k]].Accept? && a[k].size == vs[idx[k]].size
  {
    if items == [] {
      idx := [];
    } else {
      var n := |items| - 1;
      var init := AcceptedPositions(items[..n], vs[..n]);
      AcceptedSnocAt(items, vs, Accepted(items[..n], vs[..n]), init);
      idx := init + (if vs[n].Accept? then [n] else []);
    }
  }

  /** The selection is a subsequence of the candidates: each selected model is an
      accepted candidate, at strictly increasing positions. */
  lemma TakeSubsequence<T>(items: seq<T>, vs: seq<Verdict>, limit: int) returns (idx: seq<nat>)
    requires |items| == |vs|
    ensures var r := Take(items, vs, limit);
      |idx| == |r| && Increasing(idx, |items|) &&
      forall k :: 0 <= k < |r| ==>
        r[k].item == items[idx[k]] && vs[idx[k]].Accept? && r[k].size == vs[idx[k]].size
  {
    TakeFacts(items, vs, limit);
    var all := AcceptedPositions(items, vs);
    idx := all[..|Take(items, vs, limit)|];
  }

  /** An accepted candidate is among the acceptances. */
  lemma {:induction false} AcceptedHas<T>(items: seq<T>, vs: seq<Verdict>, i: nat)
    requires |items| == |vs| && i < |items| && vs[i].Accept?
    ensures Picked(items[i], vs[i].size) in Accepted(items, vs)
  {
    var n := |items| - 1;
    if i < n {
      AcceptedHas(items[..n], vs[..n], i);
    }
  }

  /** Nothing accepted before the loop stops is left out. */
  lemma TakeIncludes<T>(items: seq<T>, vs: seq<Verdict>, limit: int, i: nat)
    requires |items| == |vs| && i < FirstStop(items, vs, limit, 0) && vs[i].Accept?
    ensures Picked(items[i], vs[i].size) in Take(items, vs, limit)
  {
    var s := FirstStop(items, vs, limit, 0);
    AcceptedHas(items[..s], vs[..s], i);
  }

  /** When no verdict opens an extra slot and `limit >= 1`, the loop returns the first
      `limit` acceptances, or all of them when there are fewer. */
  lemma TakeFirst<T>(items: seq<T>, vs: seq<Verdict>, limit: int)
    requires |items| == |vs| && limit >= 1
    requires forall i :: 0 <= i < |vs| ==> !(vs[i].Accept? && vs[i].extra)
    ensures var a := Accepted(items, vs);
      Take(items, vs, limit) == a[..if limit < |a| then limit else |a|]
  {
    var s := FirstStop(items, vs, limit, 0);
    NoExtras(vs[..s]);
    TakeFacts(items, vs, limit);
  }

  lemma {:induction false} NoExtras(vs: seq<Verdict>)
    requires forall i :: 0 <= i < |vs| ==> !(vs[i].Accept? && vs[i].extra)
    ensures Extras(vs) == 0
  {
    if vs != [] {
      NoExtras(vs[..|vs| - 1]);
    }
  }

  /** All candidates accepted with size 0 and no extra slot (sizes skipped): the result is
      the first `limit` candidates, or all of them when `limit` is not in `1..n-1`. */
  lemma TakeAllAccepted<T>(items: seq<T>, vs: seq<Verdict>, limit: int)
    requires |items| == |vs| && forall i :: 0 <= i < |vs| ==> vs[i] == Accept(0.0, false)
    ensures var r := Take(items, vs, limit);
      |r| == (if 1 <= limit < |items| then limit else |items|) &&
      forall k :: 0 <= k < |r| ==> r[k] == Picked(items[k], 0.0)
  {
    var s := if 1 <= limit < |items| then limit else |items|;
    forall i | 0 <= i <= |items|
      ensures |Accepted(items[..i], vs[..i])| == i && Extras(vs[..i]) == 0
      ensures forall k :: 0 <= k < i ==> Accepted(items[..i], vs[..i])[k] == Picked(items[k], 0.0)
    {
      AllAccepted(items, vs, i);
    }
    FirstStopIs(items, vs, limit, s);
  }

  lemma {:induction false} AllAccepted<T>(items: seq<T>, vs: seq<Verdict>, i: nat)
    requires |items| == |vs| && i <= |items| && forall j :: 0 <= j < |vs| ==> vs[j] == Accept(0.0, false)
    ensures |Accepted(items[..i], vs[..i])| == i && Extras(vs[..i]) == 0
    ensures forall k :: 0 <= k < i ==> Accepted(items[..i], vs[..i])[k] == Picked(items[k], 0.0)
  {
    if i > 0 {
      AllAccepted(items, vs, i - 1);
      AcceptedSnoc(items, vs, i - 1);
    } else {
      assert items[..0] == [] && vs[..0] == [];
    }
  }

  /** The verdicts on a list of candidates whose model ids `idOf` gives. */
  function Verdicts<T>(sizes: map<string, CalcModelSizeResult>, est: Estimator, f: Filter, ms: seq<T>,
                       idOf: T -> string): (vs: seq<Verdict>)
    ensures |vs| == |ms|
    ensures forall i :: 0 <= i < |ms| ==> vs[i] == VerdictOf(sizes, est, f, idOf(ms[i]))
  {
    seq(|ms|, i requires 0 <= i < |ms| => VerdictOf(sizes, est, f, idOf(ms[i])))
  }

  /** `model_n_download.model_id`. */
  function SnapshotId(m: ModelNDownload): string {
    m.modelId
  }

  /** The snapshots `query_top_models` picks from: the chosen day's list in descending
      download order (stable), positions `[start, min(end, len))`. */
  function Candidates(list: seq<ModelNDownload>, start: int, end: Ext<int>): seq<ModelNDownload> {
    Slice(SortBy(list, NegDownload), start, end)
  }

  /** The day's list `query_top_models` reads: `latest()` or `db[date]`. */
  function DayList(store: DownloadTrendDB, date: Option<string>): Result<seq<ModelNDownload>>
    reads store
  {
    if date.None? then store.Latest() else store.Get(date.value)
  }

  /** `query_top_models(args)`: the top models of the day in the size range, unsupported
      ones only with `include_unsupported`, each of those widening the list by one. */
  method QueryTopModels(store: DownloadTrendDB, sizes: SizeDB, est: Estimator, date: Option<string>,
                        start: int, end: Ext<int>, limit: int, f: Filter)
    returns (r: Result<seq<Picked<ModelNDownload>>>)
    ensures DayList(store, date).Failure? ==> r == Failure(DayList(store, date).error)
    ensures DayList(store, date).Success? ==>
      var cands := Candidates(DayList(store, date).value, start, end);
      r == Success(Take(cands, Verdicts(sizes.db, est, f, cands, SnapshotId), limit))
  {
    var day := DayList(store, date);
    if day.Failure? {
      return Failure(day.error);
    }
    var all := SortBy(day.value, NegDownload);
    var models := SelectTop(Slice(all, start, end), SnapshotId, sizes.db, est, f, limit);
    return Success(models);
  }

  /** The loop has not stopped after any of the first `i` candidates. */
  ghost predicate Running<T>(items: seq<T>, vs: seq<Verdict>, limit: int, i: nat)
    requires |items| == |vs|
  {
    forall j :: 0 < j <= i ==> !Stops(items, vs, limit, j)
  }

  /** One turn of the selection loop: the collected models and the extra count follow
      the verdict on candidate `i`, and the loop stops exactly when the target is met. */
  lemma SelectStep<T>(items: seq<T>, vs: seq<Verdict>, limit: int, i: nat)
    requires |items| == |vs| && i < |items| && Running(items, vs, limit, i)
    ensures var a, e := Accepted(items[..i + 1], vs[..i + 1]), Extras(vs[..i + 1]);
      a == Accepted(items[..i], vs[..i]) + (if vs[i].Accept? then [Picked(items[i], vs[i].size)] else []) &&
      e == Extras(vs[..i]) + (if vs[i].Accept? && vs[i].extra then 1 else 0) &&
      (Stops(items, vs, limit, i + 1) <==> vs[i].Accept? && |a| == limit + e) &&
      (!Stops(items, vs, limit, i + 1) ==> Running(items, vs, limit, i + 1))
  {
    AcceptedSnoc(items, vs, i);
  }

  /** The branches of the selection loop on one candidate, in the order the source
      checks them. */
  method Decide(id: string, sizes: map<string, CalcModelSizeResult>, est: Estimator,
                f: Filter, skip: bool)
    returns (v: Verdict)
    requires skip == SkipSize(f)
    ensures v == VerdictOf(sizes, est, f, id)
  {
    if skip {
      return Accept(0.0, false);
    }
    var result;
    if id in sizes {
      result := sizes[id];
    } else {
      result := EstimateSize(est, id, true);
    }
    if result.code != 0 {
      v := if f.includeUnsupported then Accept(result.size, true) else Skip;
    } else if result.size < f.minSize {
      v := Skip;
    } else if f.maxSize.Finite? && result.size > f.maxSize.value {
      v := Skip;
    } else {
      v := Accept(result.size, false);
    }
  }

  /** The selection loop of `query_top_models` (and of `get_top_models`) over the
      candidates `cands`, whose model ids `idOf` gives. */
  method SelectTop<T>(cands: seq<T>, idOf: T -> string, sizes: map<string, CalcModelSizeResult>,
                      est: Estimator, f: Filter, limit: int)
    returns (models: seq<Picked<T>>)
    ensures models == Take(cands, Verdicts(sizes, est, f, cands, idOf), limit)
  {
    var skip := f.minSize == 0.0 && f.maxSize == Infinity;
    ghost var vs := Verdicts(sizes, est, f, cands, idOf);
    models := [];
    var extra: nat := 0;
    var i := 0;
    assert cands[..0] == [] && vs[..0] == [];
    while i < |cands|
      invariant 0 <= i <= |cands|
      invariant models == Accepted(cands[..i], vs[..i]) && extra == Extras(vs[..i])
      invariant Running(cands, vs, limit, i)
    {
      var model := cands[i];
      var v := Decide(idOf(model), sizes, est, f, skip);
      assert v == vs[i];
      SelectStep(cands, vs, limit, i);
      i := i + 1;
      if v.Accept? {
        if v.extra {
          extra := extra + 1;
        }
        models := models + [Picked(model, v.size)];
        if |models| == limit + extra {
          FirstStopIs(cands, vs, limit, i);
          return;
        }
      }
    }
    assert cands[..i] == cands && vs[..i] == vs;
    FirstStopIs(cands, vs, limit, i);
  }

  /** What a selection of candidates holds, in terms of the stores: the selected models
      are candidates in their order; with sizes skipped each has size 0; otherwise each
      carries its looked-up size, which is in range when the code is 0, and a nonzero code
      is only selected with `include_unsupported`. */
  lemma SelectionFacts<T>(cands: seq<T>, idOf: T -> string, sizes: map<string, CalcModelSizeResult>,
                          est: Estimator, f: Filter, limit: int)
    returns (idx: seq<nat>)
    ensures var r := Take(cands, Verdicts(sizes, est, f, cands, idOf), limit);
      |idx| == |r| && Increasing(idx, |cands|) &&
      forall k :: 0 <= k < |r| ==>
        r[k].item == cands[idx[k]] &&
        (SkipSize(f) ==> r[k].size == 0.0) &&
        (!SkipSize(f) ==>
          var l := Lookup(sizes, est, idOf(r[k].item));
          r[k].size == l.size && (l.code == 0 ==> InRange(l.size, f)) && (l.code != 0 ==> f.includeUnsupported))
  {
    idx := TakeSubsequence(cands, Verdicts(sizes, est, f, cands, idOf), limit);
  }

  /** A candidate the loop reaches is selected exactly when it is in range with code 0, or
      has a nonzero code and `include_unsupported` is set (always, with sizes skipped). */
  lemma ReachedSelected<T>(cands: seq<T>, idOf: T -> string, sizes: map<string, CalcModelSizeResult>,
                           est: Estimator, f: Filter, limit: int, i: nat)
    requires i < FirstStop(cands, Verdicts(sizes, est, f, cands, idOf), limit, 0)
    ensures var l := Lookup(sizes, est, idOf(cands[i]));
      SkipSize(f) || (l.code == 0 && InRange(l.size, f)) || (l.code != 0 && f.includeUnsupported) ==>
        Picked(cands[i], if SkipSize(f) then 0.0 else l.size) in Take(cands, Verdicts(sizes, est, f, cands, idOf), limit)
  {
    var vs := Verdicts(sizes, est, f, cands, idOf);
    if vs[i].Accept? {
      TakeIncludes(cands, vs, limit, i);
    }
  }

  /** With sizes skipped every candidate is accepted with size 0, so for `limit >= 1` the
      result is the first `limit` candidates. */
  lemma SkipSizeSelection<T>(cands: seq<T>, idOf: T -> string, sizes: map<string, CalcModelSizeResult>,
                             est: Estimator, f: Filter, limit: int)
    requires SkipSize(f)
    ensures var r := Take(cands, Verdicts(sizes, est, f, cands, idOf), limit);
      |r| == (if 1 <= limit < |cands| then limit else |cands|) &&
      forall k :: 0 <= k < |r| ==> r[k] == Picked(cands[k], 0.0)
  {
    TakeAllAccepted(cands, Verdicts(sizes, est, f, cands, idOf), limit);
  }

  /** For `limit >= 1` the selection holds at most `limit + list_extra` models, where
      `list_extra` counts the unsupported models the loop accepted before it stopped, and
      at most `limit` of them are in-range models with code 0. */
  lemma SelectionBound<T>(cands: seq<T>, idOf: T -> string, sizes: map<string, CalcModelSizeResult>,
                          est: Estimator, f: Filter, limit: int)
    requires limit >= 1
    ensures var vs := Verdicts(sizes, est, f, cands, idOf);
      var s := FirstStop(cands, vs, limit, 0);
      |Take(cands, vs, limit)| <= limit + Extras(vs[..s]) && Plain(vs[..s]) <= limit
  {
    TakeFacts(cands, Verdicts(sizes, est, f, cands, idOf), limit);
  }

  /** Three candidates: an unsupported one, then 5B and 3B models, with `limit = 1`, the
      range `[0, 10]` and `include_unsupported`: the unsupported model widens the target
      to two, so the first two are returned. */
  lemma TopModelsExample(est: Estimator)
    ensures
      var a, b, c := ModelNDownload("A", 100), ModelNDownload("B", 90), ModelNDownload("C", 80);
      var sizes := map["A" := CalcModelSizeResult("A", 0.0, 1, Some("unsupported")),
                       "B" := CalcModelSizeResult("B", 5.0, 0, None),
                       "C" := CalcModelSizeResult("C", 3.0, 0, None)];
      var f := Filter(0.0, Finite(10.0), true);
      Take([a, b, c], Verdicts(sizes, est, f, [a, b, c], SnapshotId), 1) == [Picked(a, 0.0), Picked(b, 5.0)]
  {
    var a, b, c := ModelNDownload("A", 100), ModelNDownload("B", 90), ModelNDownload("C", 80);
    var sizes := map["A" := CalcModelSizeResult("A", 0.0, 1, Some("unsupported")),
                     "B" := CalcModelSizeResult("B", 5.0, 0, None),
                     "C" := CalcModelSizeResult("C", 3.0, 0, None)];
    var f := Filter(0.0, Finite(10.0), true);
    var cands := [a, b, c];
    var vs := Verdicts(sizes, est, f, cands, SnapshotId);
    assert vs[0] == Accept(0.0, true) && vs[1] == Accept(5.0, false);
    AcceptedSnoc(cands, vs, 0);
    AcceptedSnoc(cands, vs, 1);
    assert cands[..0] == [] && vs[..0] == [];
    assert Accepted(cands[..2], vs[..2]) == [Picked(a, 0.0), Picked(b, 5.0)];
    FirstStopIs(cands, vs, 1, 2);
  }

  /** `query_model_size(model_ids, size_db)`: one result per id, in order, the stored
      entry when there is one and the `fallback=True` estimate otherwise; with a keyed
      store every result names its own id. */
  method QueryModelSize(ids: seq<string>, sizes: SizeDB, est: Estimator) returns (results: seq<CalcModelSizeResult>)
    ensures |results| == |ids|
    ensures forall i :: 0 <= i < |ids| ==> results[i] == Lookup(sizes.db, est, ids[i])
    ensures sizes.Valid() ==> forall i :: 0 <= i < |ids| ==> results[i].modelId == ids[i]
  {
    results := [];
    for i := 0 to |ids|
      invariant |results| == i
      invariant forall j :: 0 <= j < i ==> results[j] == Lookup(sizes.db, est, ids[j])
    {
      var id := ids[i];
      if sizes.Contains(id) {
        results := results + [sizes.db[id]];
      } else {
        results := results + [EstimateSize(est, id, true)];
      }
    }
  }

  /** The snapshots of `data` whose model id is in `ids`, in stored order. */
  function Matching(data: seq<ModelNDownload>, ids: set<string>): (r: seq<ModelNDownload>)
    ensures |r| <= |data|
  {
    if data == [] then []
    else
      var n := |data| - 1;
      Matching(data[..n], ids) + (if data[n].modelId in ids then [data[n]] else [])
  }

  /** A snapshot is matched exactly when it is in `data` and its id is in `ids`. */
  lemma {:induction false} MatchingMembers(data: seq<ModelNDownload>, ids: set<string>)
    ensures forall m :: m in Matching(data, ids) <==> m in data && m.modelId in ids
  {
    if data != [] {
      var n := |data| - 1;
      MatchingMembers(data[..n], ids);
      assert data == data[..n] + [data[n]];
    }
  }

  /** `idx` lists, in increasing order, exactly the positions of `data` whose id is in
      `ids`, and `r` holds the snapshots at those positions. */
  ghost predicate MatchedAt(data: seq<ModelNDownload>, ids: set<string>, r: seq<ModelNDownload>, idx: seq<nat>) {
    |idx| == |r| && Increasing(idx, |data|) &&
    (forall k :: 0 <= k < |r| ==> r[k] == data[idx[k]]) &&
    (forall j :: 0 <= j < |data| && data[j].modelId in ids ==> j in idx)
  }

  /** One more snapshot at the end of `data` keeps the positions matched. */
  lemma MatchedSnoc(data: seq<ModelNDownload>, ids: set<string>, pre: seq<ModelNDownload>, init: seq<nat>)
    requires data != [] && MatchedAt(data[..|data| - 1], ids, pre, init)
    ensures var n := |data| - 1; var hit := data[n].modelId in ids;
      MatchedAt(data, ids, pre + (if hit then [data[n]] else []), init + (if hit then [n] else []))
  {
    var n := |data| - 1;
    var hit := data[n].modelId in ids;
    var r, idx := pre + (if hit then [data[n]] else []), init + (if hit then [n] else []);
    forall k | 0 <= k < |r|
      ensures r[k] == data[idx[k]]
    {
      if k < |init| {
        assert r[k] == pre[k] && idx[k] == init[k];
        assert data[..n][init[k]] == data[init[k]];
      } else {
        assert r[k] == data[n] && idx[k] == n;
      }
    }
    forall j | 0 <= j < |data| && data[j].modelId in ids
      ensures j in idx
    {
      if j < n {
        assert data[..n][j] == data[j];
        assert j in init;
      }
    }
  }

  /** The matching snapshots are taken from `data` in order, and every position of `data`
      whose id is in `ids` is taken. */
  lemma {:induction false} MatchingPositions(data: seq<ModelNDownload>, ids: set<string>) returns (idx: seq<nat>)
    ensures var r := Matching(data, ids);
      |idx| == |r| && Increasing(idx, |data|) &&
      (forall k :: 0 <= k < |r| ==> r[k] == data[idx[k]]) &&
      (forall j :: 0 <= j < |data| && data[j].modelId in ids ==> j in idx)
  {
    if data == [] {
      idx := [];
    } else {
      var n := |data| - 1;
      var init := MatchingPositions(data[..n], ids);
      MatchedSnoc(data, ids, Matching(data[..n], ids), init);
      idx := init + (if data[n].modelId in ids then [n] else []);
    }
  }

  /** `query_model_download(model_ids, date, download_db)`: the chosen day's snapshots
      whose id is one of `ids`, in stored order; an absent day is a lookup error. */
  method QueryModelDownload(ids: seq<string>, date: Option<string>, store: DownloadTrendDB)
    returns (r: Result<seq<ModelNDownload>>)
    ensures DayList(store, date).Failure? ==> r == Failure(DayList(store, date).error)
    ensures DayList(store, date).Success? ==> r == Success(Matching(DayList(store, date).value, SetOf(ids)))
  {
    var idSet := SetOf(ids);
    var day := DayList(store, date);
    if day.Failure? {
      return Failure(day.error);
    }
    var data := day.value;
    var results := [];
    for i := 0 to |data|
      invariant results == Matching(data[..i], idSet)
    {
      assert data[..i + 1][..i] == data[..i];
      var m := data[i];
      if m.modelId in idSet {
        results := results + [m];
      }
    }
    assert data[..|data|] == data;
    return Success(results);
  }

  // The rank table of `draw_download_trend`.

  /** `size_in_range(size_db, model_id, min_size, max_size)`: code 0 and within the range. */
  predicate SizeOk(sizes: map<string, CalcModelSizeResult>, est: Estimator, f: Filter, id: string) {
    var r := Lookup(sizes, est, id);
    r.code == 0 && InRange(r.size, f)
  }

  /** `size_in_range`, through a one-element `query_model_size`. */
  method SizeInRange(sizes: SizeDB, est: Estimator, id: string, f: Filter) returns (b: bool)
    ensures b <==> SizeOk(sizes.db, est, f, id)
  {
    var results := QueryModelSize([id], sizes, est);
    var result := results[0];
    b := result.code == 0 && result.size >= f.minSize && (f.maxSize.Infinity? || result.size <= f.maxSize.value);
  }

  /** A model that takes a rank: any model with sizes skipped, otherwise one in range. */
  predicate Eligible(sizes: map<string, CalcModelSizeResult>, est: Estimator, f: Filter, id: string) {
    SkipSize(f) || SizeOk(sizes, est, f, id)
  }

  /** The model ids of a list of snapshots, `[m.model_id for m in ...]`. */
  function SnapshotIds(ms: seq<ModelNDownload>): (r: seq<string>)
    ensures |r| == |ms| && forall i :: 0 <= i < |ms| ==> r[i] == ms[i].modelId
  {
    seq(|ms|, i requires 0 <= i < |ms| => ms[i].modelId)
  }

  /** The models of a selection. */
  function Items<T>(ps: seq<Picked<T>>): (r: seq<T>)
    ensures |r| == |ps| && forall i :: 0 <= i < |ps| ==> r[i] == ps[i].item
  {
    seq(|ps|, i requires 0 <= i < |ps| => ps[i].item)
  }

  lemma ItemsSnoc<T>(ps: seq<Picked<T>>, p: Picked<T>)
    ensures Items(ps + [p]) == Items(ps) + [p.item]
  {
    assert forall i :: 0 <= i < |ps| ==> (ps + [p])[i] == ps[i];
  }

  /** The target loop's verdicts: an in-range model is accepted, any other skipped. */
  function Marks(sizes: map<string, CalcModelSizeResult>, est: Estimator, f: Filter, ms: seq<ModelNDownload>): (vs: seq<Verdict>)
    ensures |vs| == |ms|
    ensures forall i :: 0 <= i < |ms| ==>
      vs[i] == if SizeOk(sizes, est, f, ms[i].modelId) then Accept(0.0, false) else Skip
  {
    seq(|ms|, i requires 0 <= i < |ms| => if SizeOk(sizes, est, f, ms[i].modelId) then Accept(0.0, false) else Skip)
  }

  /** The target models of the chart: the first `limit` of the newest day's sorted list
      with sizes skipped, otherwise the in-range models up to the `limit`-th one. */
  ghost function Targets(all: seq<ModelNDownload>, sizes: map<string, CalcModelSizeResult>, est: Estimator,
                         f: Filter, limit: int): seq<string>
  {
    if SkipSize(f) then SnapshotIds(Prefix(all, limit))
    else SnapshotIds(Items(Take(all, Marks(sizes, est, f, all), limit)))
  }

  /** The target list: without sizes skipped and for `limit >= 1`, the ids of the first
      `limit` in-range models of `all` (all of them when fewer), in order. */
  lemma TargetsFacts(all: seq<ModelNDownload>, sizes: map<string, CalcModelSizeResult>, est: Estimator,
                     f: Filter, limit: int)
    requires !SkipSize(f) && limit >= 1
    ensures var vs := Marks(sizes, est, f, all);
      var a := SnapshotIds(Items(Accepted(all, vs)));
      Targets(all, sizes, est, f, limit) == a[..if limit < |a| then limit else |a|]
    ensures var a := Accepted(all, Marks(sizes, est, f, all));
      forall k :: 0 <= k < |a| ==> SizeOk(sizes, est, f, a[k].item.modelId)
  {
    var vs := Marks(sizes, est, f, all);
    TakeFirst(all, vs, limit);
    var a := Accepted(all, vs);
    var n := if limit < |a| then limit else |a|;
    assert SnapshotIds(Items(a[..n])) == SnapshotIds(Items(a))[..n];
    var idx := AcceptedPositions(all, vs);
  }

  /** `target_models` of `draw_download_trend`, for the newest day's sorted list `all`. */
  method TargetModels(all: seq<ModelNDownload>, sizes: SizeDB, est: Estimator, f: Filter, limit: int)
    returns (targets: seq<string>)
    ensures targets == Targets(all, sizes.db, est, f, limit)
  {
    var skip := f.minSize == 0.0 && f.maxSize == Infinity;
    var chosen: seq<ModelNDownload>;
    if skip {
      chosen := Prefix(all, limit);
    } else {
      chosen := InRangeTargets(all, sizes, est, f, limit);
    }
    targets := SnapshotIds(chosen);
  }

  /** The target loop: in-range models in order, stopping when `limit` are collected. */
  method InRangeTargets(all: seq<ModelNDownload>, sizes: SizeDB, est: Estimator, f: Filter, limit: int)
    returns (chosen: seq<ModelNDownload>)
    ensures chosen == Items(Take(all, Marks(sizes.db, est, f, all), limit))
  {
    ghost var vs := Marks(sizes.db, est, f, all);
    ghost var picked: seq<Picked<ModelNDownload>> := [];
    chosen := [];
    var i := 0;
    assert all[..0] == [] && vs[..0] == [];
    while i < |all|
      invariant 0 <= i <= |all|
      invariant picked == Accepted(all[..i], vs[..i]) && Extras(vs[..i]) == 0 && chosen == Items(picked)
      invariant Running(all, vs, limit, i)
    {
      var model := all[i];
      var ok := SizeInRange(sizes, est, model.modelId, f);
      assert vs[i] == if ok then Accept(0.0, false) else Skip;
      SelectStep(all, vs, limit, i);
      i := i + 1;
      if ok {
        ItemsSnoc(picked, Picked(model, 0.0));
        chosen := chosen + [model];
        picked := picked + [Picked(model, 0.0)];
        if |chosen| == limit {
          FirstStopIs(all, vs, limit, i);
          return;
        }
      }
    }
    assert all[..i] == all && vs[..i] == vs;
    FirstStopIs(all, vs, limit, i);
  }

  /** How many of the flags are set. */
  function Count(el: seq<bool>): (n: nat)
    ensures n <= |el|
  {
    if el == [] then 0 else var n := |el| - 1; Count(el[..n]) + (if el[n] then 1 else 0)
  }

  /** `model_to_rank` after walking the ids `ids` with eligibility `el`: each eligible id
      gets one more than the number of eligible ids before it, a later occurrence of an
      id overwriting an earlier one. */
  function Ranks(ids: seq<string>, el: seq<bool>): map<string, nat>
    requires |ids| == |el|
  {
    if ids == [] then map[]
    else
      var n := |ids| - 1;
      var pre := Ranks(ids[..n], el[..n]);
      if el[n] then pre[ids[n] := Count(el[..n]) + 1] else pre
  }

  /** Some eligible entry carries `id`. */
  ghost predicate Ranked(ids: seq<string>, el: seq<bool>, id: string)
    requires |ids| == |el|
  {
    exists i :: 0 <= i < |ids| && ids[i] == id && el[i]
  }

  /** Exactly the ids of eligible entries are ranked. */
  lemma {:induction false} RanksKeys(ids: seq<string>, el: seq<bool>)
    requires |ids| == |el|
    ensures forall id :: id in Ranks(ids, el) <==> Ranked(ids, el, id)
  {
    if ids != [] {
      var n := |ids| - 1;
      RanksKeys(ids[..n], el[..n]);
      forall id
        ensures id in Ranks(ids, el) <==> Ranked(ids, el, id)
      {
        if Ranked(ids[..n], el[..n], id) {
          var i :| 0 <= i < n && ids[..n][i] == id && el[..n][i];
          assert ids[i] == id && el[i];
        }
        if Ranked(ids, el, id) {
          var i :| 0 <= i < |ids| && ids[i] == id && el[i];
          if i < n {
            assert ids[..n][i] == id && el[..n][i];
          }
        }
      }
    }
  }

  /** Ranks run from 1 to the number of eligible entries. */
  lemma {:induction false} RanksRange(ids: seq<string>, el: seq<bool>)
    requires |ids| == |el|
    ensures forall id :: id in Ranks(ids, el) ==> 1 <= Ranks(ids, el)[id] <= Count(el)
  {
    if ids != [] {
      RanksRange(ids[..|ids| - 1], el[..|ids| - 1]);
    }
  }

  /** No two ids share a rank. */
  lemma {:induction false} RanksInjective(ids: seq<string>, el: seq<bool>)
    requires |ids| == |el|
    ensures forall id, id' :: id in Ranks(ids, el) && id' in Ranks(ids, el) && id != id' ==>
      Ranks(ids, el)[id] != Ranks(ids, el)[id']
  {
    if ids != [] {
      var n := |ids| - 1;
      RanksInjective(ids[..n], el[..n]);
      RanksRange(ids[..n], el[..n]);
      var pre, m := Ranks(ids[..n], el[..n]), Ranks(ids, el);
      assert m == if el[n] then pre[ids[n] := Count(el[..n]) + 1] else pre;
      forall id, id' | id in m && id' in m && id != id'
        ensures m[id] != m[id']
      {
        if el[n] && (id == ids[n] || id' == ids[n]) {
          var other := if id == ids[n] then id' else id;
          assert other in pre && m[other] == pre[other] <= Count(el[..n]);
        } else {
          assert id in pre && id' in pre && m[id] == pre[id] && m[id'] == pre[id'];
        }
      }
    }
  }

  /** With no id listed twice, an eligible entry's rank is one more than the number of
      eligible entries ahead of it. */
  lemma {:induction false} RankAt(ids: seq<string>, el: seq<bool>, i: nat)
    requires |ids| == |el| && Distinct(ids) && i < |ids| && el[i]
    ensures ids[i] in Ranks(ids, el) && Ranks(ids, el)[ids[i]] == Count(el[..i]) + 1
  {
    var n := |ids| - 1;
    if i < n {
      assert Distinct(ids[..n]) by {
        forall j, k | 0 <= j < k < n ensures ids[..n][j] != ids[..n][k] {
          assert ids[..n][j] == ids[j] && ids[..n][k] == ids[k];
        }
      }
      RankAt(ids[..n], el[..n], i);
      assert ids[..n][i] == ids[i] && el[..n][..i] == el[..i];
      assert ids[n] != ids[i];
    }
  }

  /** With no id listed twice the ranks are dense: every rank in `1..N` is taken. */
  lemma {:induction false} RanksDense(ids: seq<string>, el: seq<bool>)
    requires |ids| == |el| && Distinct(ids)
    ensures forall k :: 1 <= k <= Count(el) ==> k in Ranks(ids, el).Values
  {
    if ids != [] {
      var n := |ids| - 1;
      assert Distinct(ids[..n]) by {
        forall j, k | 0 <= j < k < n ensures ids[..n][j] != ids[..n][k] {
          assert ids[..n][j] == ids[j] && ids[..n][k] == ids[k];
        }
      }
      RanksDense(ids[..n], el[..n]);
      var pre := Ranks(ids[..n], el[..n]);
      if el[n] {
        RanksKeys(ids[..n], el[..n]);
        assert ids[n] !in pre;
        var m := pre[ids[n] := Count(el[..n]) + 1];
        forall k | 1 <= k <= Count(el)
          ensures k in m.Values
        {
          if k <= Count(el[..n]) {
            assert k in pre.Values;
            var id :| id in pre && pre[id] == k;
            assert m[id] == k;
          } else {
            assert m[ids[n]] == k;
          }
        }
      }
    }
  }

  /** When the same id is listed twice (a day recorded by two same-day runs) its later
      entry wins and the earlier rank is left unused: `[a, a]` ranks `a` second and
      nothing first. */
  lemma DuplicateLeavesGap()
    ensures Ranks(["a", "a"], [true, true]) == map["a" := 2]
    ensures 1 !in Ranks(["a", "a"], [true, true]).Values
  {
    var ids, el := ["a", "a"], [true, true];
    assert ids[..1] == ["a"] && el[..1] == [true];
    assert ids[..1][..0] == [] && el[..1][..0] == [];
    assert Count(el[..1]) == 1;
  }

  /** Which snapshots of a day's sorted list take a rank. */
  function Eligibility(sizes: map<string, CalcModelSizeResult>, est: Estimator, f: Filter, ms: seq<ModelNDownload>): (el: seq<bool>)
    ensures |el| == |ms|
    ensures forall i :: 0 <= i < |ms| ==> el[i] == Eligible(sizes, est, f, ms[i].modelId)
  {
    seq(|ms|, i requires 0 <= i < |ms| => Eligible(sizes, est, f, ms[i].modelId))
  }

  /** The ranks of one day's snapshots, walked in download-descending order. */
  function DayRanks(day: seq<ModelNDownload>, sizes: map<string, CalcModelSizeResult>, est: Estimator,
                    f: Filter): map<string, nat>
  {
    var sorted := SortBy(day, NegDownload);
    Ranks(SnapshotIds(sorted), Eligibility(sizes, est, f, sorted))
  }

  /** Walking one more entry. */
  lemma RanksSnoc(ids: seq<string>, el: seq<bool>, i: nat)
    requires |ids| == |el| && i < |ids|
    ensures Ranks(ids[..i + 1], el[..i + 1]) ==
      if el[i] then Ranks(ids[..i], el[..i])[ids[i] := Count(el[..i]) + 1] else Ranks(ids[..i], el[..i])
    ensures Count(el[..i + 1]) == Count(el[..i]) + (if el[i] then 1 else 0)
  {
    assert ids[..i + 1][..i] == ids[..i] && el[..i + 1][..i] == el[..i];
  }

  /** The rank loop of `draw_download_trend` over a day's sorted snapshots. */
  method RankMap(sorted: seq<ModelNDownload>, sizes: SizeDB, est: Estimator, f: Filter, skip: bool)
    returns (ranks: map<string, nat>)
    requires skip == SkipSize(f)
    ensures ranks == Ranks(SnapshotIds(sorted), Eligibility(sizes.db, est, f, sorted))
  {
    ghost var ids := SnapshotIds(sorted);
    ghost var el := Eligibility(sizes.db, est, f, sorted);
    ranks := map[];
    var rank := 1;
    var i := 0;
    assert ids[..0] == [] && el[..0] == [];
    while i < |sorted|
      invariant 0 <= i <= |sorted|
      invariant ranks == Ranks(ids[..i], el[..i]) && rank == Count(el[..i]) + 1
    {
      var id := sorted[i].modelId;
      var ok := skip;
      if !ok {
        ok := SizeInRange(sizes, est, id, f);
      }
      RanksSnoc(ids, el, i);
      assert ok == el[i] && id == ids[i];
      i := i + 1;
      if !ok {
        continue;
      }
      ranks := ranks[id := rank];
      rank := rank + 1;
    }
    assert ids[..i] == ids && el[..i] == el;
  }

  /** A row of the chart: per target, its rank that day, or `None` (`inf`) if unranked. */
  function Row(targets: seq<string>, ranks: map<string, nat>): (row: seq<Option<nat>>)
    ensures |row| == |targets|
    ensures forall k :: 0 <= k < |targets| ==>
      (row[k].Some? <==> targets[k] in ranks) && (row[k].Some? ==> row[k].value == ranks[targets[k]])
  {
    seq(|targets|, k requires 0 <= k < |targets| => if targets[k] in ranks then Some(ranks[targets[k]]) else None)
  }

  /** The loop filling `data[date]`. */
  method RankRow(targets: seq<string>, ranks: map<string, nat>) returns (row: seq<Option<nat>>)
    ensures row == Row(targets, ranks)
  {
    row := [];
    for k := 0 to |targets|
      invariant row == Row(targets[..k], ranks)
    {
      assert targets[..k + 1][..k] == targets[..k];
      var model := targets[k];
      if model in ranks {
        row := row + [Some(ranks[model])];
      } else {
        row := row + [None];
      }
    }
    assert targets[..|targets|] == targets;
  }

  /** The dates drawn: the last `max_history` of them when `0 < max_history < len(dates)`,
      all of them otherwise. */
  function Window<T>(dates: seq<T>, maxHistory: int): (w: seq<T>)
    ensures 0 < maxHistory < |dates| ==> w == dates[|dates| - maxHistory..] && |w| == maxHistory
    ensures !(0 < maxHistory < |dates|) ==> w == dates
  {
    var startDate := if maxHistory > 0 && maxHistory < |dates| then |dates| - maxHistory else 0;
    dates[startDate..]
  }

  /** The chart data: the target models (its columns) and one row per drawn date. */
  datatype Trend = Trend(targets: seq<string>, rows: map<string, seq<Option<nat>>>)

  /** The rows for the dates `window`, in order, failing on the first date that is not
      stored. */
  function Rows(store: DownloadTrendDB, window: seq<string>, targets: seq<string>,
                sizes: map<string, CalcModelSizeResult>, est: Estimator, f: Filter)
    : Result<map<string, seq<Option<nat>>>>
    reads store
  {
    if window == [] then Success(map[])
    else
      var n := |window| - 1;
      match Rows(store, window[..n], targets, sizes, est, f)
      case Failure(e) => Failure(e)
      case Success(m) =>
        match store.Get(window[n])
        case Failure(e) => Failure(e)
        case Success(day) => Success(m[window[n] := Row(targets, DayRanks(day, sizes, est, f))])
  }

  /** The rows succeed exactly when every date of the window is stored; otherwise
      `KeyError` names a date of the window that is not stored. */
  lemma {:induction false} RowsOutcome(store: DownloadTrendDB, window: seq<string>, targets: seq<string>,
                                       sizes: map<string, CalcModelSizeResult>, est: Estimator, f: Filter)
    ensures var r := Rows(store, window, targets, sizes, est, f);
      (r.Success? <==> forall i :: 0 <= i < |window| ==> window[i] in store.db) &&
      (r.Failure? ==> exists i :: 0 <= i < |window| && window[i] !in store.db && r.error == KeyError(window[i]))
  {
    if window != [] {
      var n := |window| - 1;
      RowsOutcome(store, window[..n], targets, sizes, est, f);
      assert forall i :: 0 <= i < n ==> window[..n][i] == window[i];
    }
  }

  /** Successful rows hold one row per date of the window: the row of that day's ranks. */
  lemma {:induction false} RowsContents(store: DownloadTrendDB, window: seq<string>, targets: seq<string>,
                                        sizes: map<string, CalcModelSizeResult>, est: Estimator, f: Filter)
    requires Rows(store, window, targets, sizes, est, f).Success?
    ensures var m := Rows(store, window, targets, sizes, est, f).value;
      (forall d :: d in m <==> d in window) &&
      (forall i :: 0 <= i < |window| ==>
        window[i] in store.db && m[window[i]] == Row(targets, DayRanks(store.db[window[i]], sizes, est, f)))
  {
    if window != [] {
      var n := |window| - 1;
      RowsContents(store, window[..n], targets, sizes, est, f);
      assert window == window[..n] + [window[n]];
      var m := Rows(store, window, targets, sizes, est, f).value;
      forall i | 0 <= i < |window|
        ensures window[i] in store.db && m[window[i]] == Row(targets, DayRanks(store.db[window[i]], sizes, est, f))
      {
        if i < n {
          assert window[..n][i] == window[i];
        }
      }
    }
  }

  /** The computation of `draw_download_trend(args)` up to the chart: the sorted dates,
      the target models of the newest one, and the row of every drawn date. */
  ghost function TrendOf(store: DownloadTrendDB, sizes: map<string, CalcModelSizeResult>, est: Estimator,
                         f: Filter, limit: int, maxHistory: int): Result<Trend>
    reads store
  {
    match store.Dates(true)
    case Failure(e) => Failure(e)
    case Success(dates) => TrendFrom(store, dates, sizes, est, f, limit, maxHistory)
  }

  /** The same computation once the sorted dates `dates` are known. */
  ghost function TrendFrom(store: DownloadTrendDB, dates: seq<string>, sizes: map<string, CalcModelSizeResult>,
                           est: Estimator, f: Filter, limit: int, maxHistory: int): Result<Trend>
    reads store
  {
    if dates == [] then Failure(IndexError)
    else
      match store.Get(dates[|dates| - 1])
      case Failure(e) => Failure(e)
      case Success(latest) =>
        var targets := Targets(SortBy(latest, NegDownload), sizes, est, f, limit);
        match Rows(store, Window(dates, maxHistory), targets, sizes, est, f)
        case Failure(e) => Failure(e)
        case Success(rows) => Success(Trend(targets, rows))
  }

  /** A failure of the rows of a prefix of the window is the failure of the whole. */
  lemma {:induction false} RowsFailure(store: DownloadTrendDB, window: seq<string>, j: nat, targets: seq<string>,
                                       sizes: map<string, CalcModelSizeResult>, est: Estimator, f: Filter)
    requires j <= |window| && Rows(store, window[..j], targets, sizes, est, f).Failure?
    ensures Rows(store, window, targets, sizes, est, f) == Rows(store, window[..j], targets, sizes, est, f)
    decreases |window| - j
  {
    if j < |window| {
      assert window[..j + 1][..j] == window[..j];
      RowsFailure(store, window, j + 1, targets, sizes, est, f);
    } else {
      assert window[..j] == window;
    }
  }

  /** `draw_download_trend(args)` up to `draw_rank_chart`. */
  method DownloadTrend(store: DownloadTrendDB, sizes: SizeDB, est: Estimator, f: Filter, limit: int, maxHistory: int)
    returns (r: Result<Trend>)
    ensures r == TrendOf(store, sizes.db, est, f, limit, maxHistory)
  {
    var sorted := store.Dates(true);
    if sorted.Failure? {
      return Failure(sorted.error);
    }
    r := TrendOver(store, sorted.value, sizes, est, f, limit, maxHistory);
  }

  /** `draw_download_trend` once the sorted dates `dates` are known: the newest day's
      targets, then one row per drawn date. */
  method TrendOver(store: DownloadTrendDB, dates: seq<string>, sizes: SizeDB, est: Estimator, f: Filter,
                   limit: int, maxHistory: int)
    returns (r: Result<Trend>)
    ensures r == TrendFrom(store, dates, sizes.db, est, f, limit, maxHistory)
  {
    var skip := f.minSize == 0.0 && f.maxSize == Infinity;
    if |dates| == 0 {
      return Failure(IndexError);
    }
    var newest := store.Get(dates[|dates| - 1]);
    if newest.Failure? {
      return Failure(newest.error);
    }
    var all := SortBy(newest.value, NegDownload);
    var targets := TargetModels(all, sizes, est, f, limit);
    var startDate := 0;
    if maxHistory > 0 && maxHistory < |dates| {
      startDate := |dates| - maxHistory;
    }
    var window := dates[startDate..];
    assert window == Window(dates, maxHistory);
    var rows := DrawnRows(store, window, targets, sizes, est, f, skip);
    if rows.Failure? {
      return Failure(rows.error);
    }
    return Success(Trend(targets, rows.value));
  }

  /** The loop over the drawn dates, filling `data`. */
  method DrawnRows(store: DownloadTrendDB, window: seq<string>, targets: seq<string>, sizes: SizeDB,
                   est: Estimator, f: Filter, skip: bool)
    returns (r: Result<map<string, seq<Option<nat>>>>)
    requires skip == SkipSize(f)
    ensures r == Rows(store, window, targets, sizes.db, est, f)
  {
    var data := map[];
    for j := 0 to |window|
      invariant Rows(store, window[..j], targets, sizes.db, est, f) == Success(data)
    {
      assert window[..j + 1][..j] == window[..j];
      var date := window[j];
      var day := store.Get(date);
      if day.Failure? {
        RowsFailure(store, window, j + 1, targets, sizes.db, est, f);
        return Failure(day.error);
      }
      var ranks := RankMap(SortBy(day.value, NegDownload), sizes, est, f, skip);
      var row := RankRow(targets, ranks);
      data := data[date := row];
    }
    assert window[..|window|] == window;
    return Success(data);
  }

  /** A day's ranks go to exactly its eligible models, and run from 1 to at most the
      number of its snapshots. */
  lemma DayRanksFacts(day: seq<ModelNDownload>, sizes: map<string, CalcModelSizeResult>, est: Estimator, f: Filter)
    ensures var m := DayRanks(day, sizes, est, f);
      (forall id :: id in m <==> exists s :: s in day && s.modelId == id && Eligible(sizes, est, f, id)) &&
      (forall id :: id in m ==> 1 <= m[id] <= |day|)
  {
    var sorted := SortBy(day, NegDownload);
    var ids, el := SnapshotIds(sorted), Eligibility(sizes, est, f, sorted);
    SortByFacts(day, NegDownload);
    SortByMembers(day, NegDownload);
    RanksKeys(ids, el);
    RanksRange(ids, el);
    forall id
      ensures Ranked(ids, el, id) <==> exists s :: s in day && s.modelId == id && Eligible(sizes, est, f, id)
    {
      if Ranked(ids, el, id) {
        var i :| 0 <= i < |ids| && ids[i] == id && el[i];
        assert sorted[i] in day;
      }
      if exists s :: s in day && s.modelId == id && Eligible(sizes, est, f, id) {
        var s :| s in day && s.modelId == id && Eligible(sizes, est, f, id);
        var i :| 0 <= i < |sorted| && sorted[i] == s;
        assert ids[i] == id && el[i];
      }
    }
  }

  /** A computed trend has a row for exactly the drawn dates, each drawn date is stored,
      and each row has one cell per target holding that target's rank on the day (in
      `1..len(day)`) or `None` when the target is not ranked that day. */
  lemma TrendFacts(store: DownloadTrendDB, sizes: map<string, CalcModelSizeResult>, est: Estimator,
                   f: Filter, limit: int, maxHistory: int)
    requires TrendOf(store, sizes, est, f, limit, maxHistory).Success?
    ensures var t, dates := TrendOf(store, sizes, est, f, limit, maxHistory).value, store.Dates(true).value;
      dates != [] &&
      (forall d :: d in t.rows <==> d in Window(dates, maxHistory)) &&
      forall d :: d in t.rows ==>
        d in store.db && |t.rows[d]| == |t.targets| &&
        forall k :: 0 <= k < |t.targets| ==>
          var ranks := DayRanks(store.db[d], sizes, est, f);
          (t.rows[d][k].Some? <==> t.targets[k] in ranks) &&
          (t.rows[d][k].Some? ==> t.rows[d][k].value == ranks[t.targets[k]] && 1 <= t.rows[d][k].value <= |store.db[d]|)
  {
    TrendFromFacts(store, store.Dates(true).value, sizes, est, f, limit, maxHistory);
  }

  /** `TrendFacts` once the sorted dates `dates` are known. */
  lemma TrendFromFacts(store: DownloadTrendDB, dates: seq<string>, sizes: map<string, CalcModelSizeResult>,
                       est: Estimator, f: Filter, limit: int, maxHistory: int)
    requires TrendFrom(store, dates, sizes, est, f, limit, maxHistory).Success?
    ensures var t := TrendFrom(store, dates, sizes, est, f, limit, maxHistory).value;
      dates != [] &&
      (forall d :: d in t.rows <==> d in Window(dates, maxHistory)) &&
      forall d :: d in t.rows ==>
        d in store.db && |t.rows[d]| == |t.targets| &&
        forall k :: 0 <= k < |t.targets| ==>
          var ranks := DayRanks(store.db[d], sizes, est, f);
          (t.rows[d][k].Some? <==> t.targets[k] in ranks) &&
          (t.rows[d][k].Some? ==> t.rows[d][k].value == ranks[t.targets[k]] && 1 <= t.rows[d][k].value <= |store.db[d]|)
  {
    var t := TrendFrom(store, dates, sizes, est, f, limit, maxHistory).value;
    var window := Window(dates, maxHistory);
    RowsContents(store, window, t.targets, sizes, est, f);
    forall d | d in t.rows
      ensures d in store.db && t.rows[d] == Row(t.targets, DayRanks(store.db[d], sizes, est, f))
    {
      var i :| 0 <= i < |window| && window[i] == d;
    }
    forall d | d in t.rows
      ensures forall id :: id in DayRanks(store.db[d], sizes, est, f) ==> 1 <= DayRanks(store.db[d], sizes, est, f)[id] <= |store.db[d]|
    {
      DayRanksFacts(store.db[d], sizes, est, f);
    }
  }

  /** When every sorted date is stored and there is at least one, the trend is computed. */
  lemma TrendStored(store: DownloadTrendDB, dates: seq<string>, sizes: map<string, CalcModelSizeResult>,
                    est: Estimator, f: Filter, limit: int, maxHistory: int)
    requires dates != [] && forall i :: 0 <= i < |dates| ==> dates[i] in store.db
    ensures TrendFrom(store, dates, sizes, est, f, limit, maxHistory).Success?
  {
    var latest := store.Get(dates[|dates| - 1]).value;
    var window := Window(dates, maxHistory);
    RowsOutcome(store, window, Targets(SortBy(latest, NegDownload), sizes, est, f, limit), sizes, est, f);
    assert forall i :: 0 <= i < |window| ==> window[i] in dates;
  }

  /** On a store whose keys are all canonical dates, the trend is computed for any
      non-empty store, over the stored keys in chronological order. */
  lemma TrendCanonical(store: DownloadTrendDB, sizes: map<string, CalcModelSizeResult>, est: Estimator,
                       f: Filter, limit: int, maxHistory: int)
    requires store.Valid() && store.Canonical() && store.order != []
    ensures TrendOf(store, sizes, est, f, limit, maxHistory).Success?
  {
    var dates := store.Dates(true).value;
    assert CanonicalSortedKeys(dates, store.db);
    assert store.order[0] in dates;
    TrendStored(store, dates, sizes, est, f, limit, maxHistory);
  }

  /** On an empty store the trend fails with `IndexError` (`dates[-1]`). */
  lemma TrendEmpty(store: DownloadTrendDB, sizes: map<string, CalcModelSizeResult>, est: Estimator,
                   f: Filter, limit: int, maxHistory: int)
    requires store.Valid() && store.order == []
    ensures TrendOf(store, sizes, est, f, limit, maxHistory) == Failure(IndexError)
  {
  }
}
