/** Shared value types: optional values, results carrying the Python exception that
    the source would raise, the "possibly infinite" bound used for `end` and
    `max_size`, and Python slicing. */
module Common {

  datatype Option<+T> = None | Some(value: T)

  /** The exceptions the modelled code lets escape to its caller. */
  datatype Error =
    | KeyError(key: string)       // dict lookup of an absent key
    | IndexError                  // `dates[-1]` on an empty list
    | ValueError(text: string)    // `strptime` on a key that is not a date

  datatype Result<+T> = Success(value: T) | Failure(error: Error)

  datatype Outcome = Pass | Fail(error: Error)

  /** A bound that may be `float("inf")`, the default of `--end` and `--max-size`. */
  datatype Ext<+T> = Finite(value: T) | Infinity

  /** An entry of the hub listing: `downloads` is absent when the listed object has no
      `downloads` attribute. */
  datatype HubModel = HubModel(modelId: string, downloads: Option<int>)

  /** `i < end` for a possibly infinite `end`. */
  predicate Below(i: int, end: Ext<nat>) {
    end.Infinity? || i < end.value
  }

  /** `min(end, n)`. */
  function Cap(end: Ext<nat>, n: nat): (c: nat)
    ensures c <= n
    ensures Below(n, end) ==> c == n
    ensures !Below(n, end) ==> c == end.value
  {
    if end.Finite? && end.value < n then end.value else n
  }

  /** Where Python's slicing puts a bound `i` on a sequence of length `n`: a negative
      bound counts from the end, and the result is clipped to `0..n`. */
  function SliceBound(i: int, n: nat): (c: nat)
    ensures c <= n
    ensures 0 <= i <= n ==> c == i
    ensures n < i ==> c == n
    ensures i < 0 && 0 <= n + i ==> c == n + i
    ensures n + i < 0 ==> c == 0
  {
    if i < 0 then (if n + i < 0 then 0 else n + i) else if i < n then i else n
  }

  /** Python's `s[start:min(end, len(s))]` for integer `start` and `end` (`end` possibly
      `inf`): both bounds are clipped by `SliceBound`, and a stop at or before the start
      gives the empty list. */
  function Slice<T>(s: seq<T>, start: int, end: Ext<int>): (r: seq<T>)
    ensures var lo, hi := SliceBound(start, |s|), SliceBound(if end.Finite? && end.value < |s| then end.value else |s|, |s|);
      (lo < hi ==> r == s[lo..hi]) && (hi <= lo ==> r == [])
  {
    var lo := SliceBound(start, |s|);
    var hi := SliceBound(if end.Finite? && end.value < |s| then end.value else |s|, |s|);
    if lo < hi then s[lo..hi] else []
  }

  /** On non-negative bounds the slice is the run `start..min(end, len(s))`. */
  lemma SliceNatural<T>(s: seq<T>, start: nat, end: Ext<nat>)
    ensures start < Cap(end, |s|) ==> Slice(s, start, end) == s[start..Cap(end, |s|)]
    ensures Cap(end, |s|) <= start ==> Slice(s, start, end) == []
  {
  }

  /** A negative `start` with no `end` keeps the last `-start` elements (all of them
      when `-start` exceeds the length). */
  lemma SliceTail<T>(s: seq<T>, start: int)
    requires start < 0
    ensures |Slice(s, start, Infinity)| == if -start < |s| then -start else |s|
    ensures forall i :: 0 <= i < |Slice(s, start, Infinity)| ==>
      Slice(s, start, Infinity)[i] == s[|s| - |Slice(s, start, Infinity)| + i]
  {
  }

  /** Python's `s[:limit]` for any integer `limit` (a negative one counts from the end). */
  function Prefix<T>(s: seq<T>, limit: int): (r: seq<T>)
    ensures 0 <= limit <= |s| ==> r == s[..limit]
    ensures |s| <= limit ==> r == s
    ensures limit < 0 ==> r == s[..if |s| + limit < 0 then 0 else |s| + limit]
  {
    if limit >= 0 then (if limit <= |s| then s[..limit] else s)
    else if |s| + limit < 0 then [] else s[..|s| + limit]
  }

  /** `set(s)`: the elements of `s`. */
  function SetOf(s: seq<string>): (r: set<string>)
    ensures forall x :: x in r <==> x in s
  {
    set x | x in s
  }

  /** A list has no elements exactly when it is empty. */
  lemma SetOfEmpty(s: seq<string>)
    ensures SetOf(s) == {} <==> s == []
  {
    if s != [] {
      assert s[0] in SetOf(s);
    }
  }

  ghost predicate Distinct<T>(s: seq<T>) {
    forall i, j :: 0 <= i < j < |s| ==> s[i] != s[j]
  }

  /** `idx` lists positions of a sequence of length `n` in strictly increasing order. */
  ghost predicate Increasing(idx: seq<nat>, n: nat) {
    (forall k :: 0 <= k < |idx| ==> idx[k] < n) &&
    (forall k, l :: 0 <= k < l < |idx| ==> idx[k] < idx[l])
  }

  /** `s` with every occurrence of `x` taken out. */
  function Remove(s: seq<string>, x: string): (r: seq<string>)
    ensures forall y :: y in r <==> y in s && y != x
    ensures Distinct(s) ==> Distinct(r)
    ensures Distinct(s) && x in s ==> |r| == |s| - 1
    ensures x !in s ==> r == s
  {
    if s == [] then []
    else if s[0] == x then Remove(s[1..], x)
    else
      var rest := Remove(s[1..], x);
      assert Distinct(s) ==> s[0] !in s[1..] && Distinct(s[1..]) by {
        if Distinct(s) {
          forall i, j | 0 <= i < j < |s[1..]| ensures s[1..][i] != s[1..][j] {
            assert s[1..][i] == s[i + 1] && s[1..][j] == s[j + 1];
          }
        }
      }
      [s[0]] + rest
  }

  /** `s` without the elements of `xs`, the survivors in their order in `s`. */
  function Without(s: seq<string>, xs: set<string>): (r: seq<string>)
    ensures forall y :: y in r <==> y in s && y !in xs
    ensures |r| <= |s|
  {
    if s == [] then [] else (if s[0] in xs then [] else [s[0]]) + Without(s[1..], xs)
  }

  /** Taking nothing out leaves the list as it is. */
  lemma {:induction false} WithoutNothing(s: seq<string>)
    ensures Without(s, {}) == s
  {
    if s != [] {
      WithoutNothing(s[1..]);
    }
  }

  /** Removing the keys of `xs` and then `x` is taking out `xs + {x}`: deleting victims
      one at a time keeps the survivors in their original order. */
  lemma {:induction false} RemoveWithout(s: seq<string>, xs: set<string>, x: string)
    ensures Remove(Without(s, xs), x) == Without(s, xs + {x})
  {
    if s != [] {
      var t, ys := s[1..], xs + {x};
      RemoveWithout(t, xs, x);
      var w := Without(s, xs);
      if s[0] in xs {
        assert w == Without(t, xs);
        assert Without(s, ys) == Without(t, ys);
      } else {
        assert w == [s[0]] + Without(t, xs);
        assert w[0] == s[0] && w[1..] == Without(t, xs);
        if s[0] == x {
          assert Remove(w, x) == Remove(Without(t, xs), x);
          assert Without(s, ys) == Without(t, ys);
        } else {
          assert Remove(w, x) == [s[0]] + Remove(Without(t, xs), x);
          assert Without(s, ys) == [s[0]] + Without(t, ys);
        }
      }
    }
  }

  /** Deleting keys from a map leaves the other entries as they were. */
  lemma MinusKeeps<K, V>(m: map<K, V>, xs: set<K>)
    ensures forall k :: k in m - xs ==> k in m && (m - xs)[k] == m[k]
  {
  }

  /** A sequence without repetitions has as many elements as its set of elements. */
  lemma {:induction false} DistinctCard<T>(s: seq<T>)
    requires Distinct(s)
    ensures |set x | x in s| == |s|
  {
    if s != [] {
      var t := s[1..];
      DistinctCard(t);
      assert (set x | x in s) == (set x | x in t) + {s[0]};
      assert s[0] !in t;
    }
  }
}
