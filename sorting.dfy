/** Python's built-in `sorted` with a `key`: a stable sort, ascending by the key.
    `sorted(xs, key=f, reverse=True)` is stable too, so it is the same as an
    ascending sort by the negated key. */
module Sorting {

  ghost predicate SortedBy<T>(s: seq<T>, key: T -> int) {
    forall i, j :: 0 <= i < j < |s| ==> key(s[i]) <= key(s[j])
  }

  /** Inserts `x` before the first element whose key is not smaller than its own. */
  function Insert<T>(x: T, s: seq<T>, key: T -> int): seq<T>
  {
    if s == [] || key(x) <= key(s[0]) then [x] + s else [s[0]] + Insert(x, s[1..], key)
  }

  function SortBy<T>(s: seq<T>, key: T -> int): seq<T>
  {
    if s == [] then [] else Insert(s[0], SortBy(s[1..], key), key)
  }

  /** The elements of `s` whose key is `v`, in their order in `s`. */
  function WithKey<T>(s: seq<T>, key: T -> int, v: int): seq<T>
  {
    if s == [] then [] else (if key(s[0]) == v then [s[0]] else []) + WithKey(s[1..], key, v)
  }

  lemma {:induction false} InsertPermutes<T>(x: T, s: seq<T>, key: T -> int)
    ensures |Insert(x, s, key)| == |s| + 1
    ensures multiset(Insert(x, s, key)) == multiset(s) + multiset{x}
  {
    if s != [] && key(s[0]) < key(x) {
      InsertPermutes(x, s[1..], key);
      assert s == [s[0]] + s[1..];
    }
  }

  lemma {:induction false} InsertSorted<T>(x: T, s: seq<T>, key: T -> int)
    requires SortedBy(s, key)
    ensures SortedBy(Insert(x, s, key), key)
  {
    var r := Insert(x, s, key);
    if s == [] || key(x) <= key(s[0]) {
      forall i, j | 0 <= i < j < |r| ensures key(r[i]) <= key(r[j]) {
        if i > 0 {
          assert r[i] == s[i - 1] && r[j] == s[j - 1];
        } else if j > 1 {
          assert r[j] == s[j - 1];
        }
      }
    } else {
      var t := s[1..];
      InsertSorted(x, t, key);
      InsertPermutes(x, t, key);
      var u := Insert(x, t, key);
      assert r == [s[0]] + u;
      forall i, j | 0 <= i < j < |r| ensures key(r[i]) <= key(r[j]) {
        assert r[j] == u[j - 1];
        if i > 0 {
          assert r[i] == u[i - 1];
        } else {
          assert r[j] in multiset(t) + multiset{x};
          if r[j] in multiset(t) {
            var k :| 0 <= k < |t| && t[k] == r[j];
            assert t[k] == s[k + 1];
          }
        }
      }
    }
  }

  lemma {:induction false} InsertStable<T>(x: T, s: seq<T>, key: T -> int, v: int)
    ensures WithKey(Insert(x, s, key), key, v) == (if key(x) == v then [x] else []) + WithKey(s, key, v)
  {
    var r := Insert(x, s, key);
    if s == [] || key(x) <= key(s[0]) {
      assert r[0] == x && r[1..] == s;
    } else {
      var u := Insert(x, s[1..], key);
      InsertStable(x, s[1..], key, v);
      assert r[0] == s[0] && r[1..] == u;
      assert WithKey(r, key, v) == (if key(s[0]) == v then [s[0]] else []) + WithKey(u, key, v);
      assert WithKey(s, key, v) == (if key(s[0]) == v then [s[0]] else []) + WithKey(s[1..], key, v);
      assert key(s[0]) != v || key(x) != v;
    }
  }

  /** `sorted` returns a permutation of its input, in ascending key order, and keeps the
      input order among elements with equal keys (stability). */
  lemma {:induction false} SortByFacts<T>(s: seq<T>, key: T -> int)
    ensures |SortBy(s, key)| == |s|
    ensures multiset(SortBy(s, key)) == multiset(s)
    ensures SortedBy(SortBy(s, key), key)
    ensures forall v :: WithKey(SortBy(s, key), key, v) == WithKey(s, key, v)
  {
    if s != [] {
      var t := s[1..];
      SortByFacts(t, key);
      InsertPermutes(s[0], SortBy(t, key), key);
      InsertSorted(s[0], SortBy(t, key), key);
      assert s == [s[0]] + t;
      forall v ensures WithKey(SortBy(s, key), key, v) == WithKey(s, key, v) {
        InsertStable(s[0], SortBy(t, key), key, v);
        assert WithKey(s, key, v) == (if key(s[0]) == v then [s[0]] else []) + WithKey(t, key, v);
      }
    }
  }

  lemma SortByMembers<T>(s: seq<T>, key: T -> int)
    ensures forall x :: x in SortBy(s, key) <==> x in s
  {
    SortByFacts(s, key);
    forall x ensures x in SortBy(s, key) <==> x in s {
      assert x in SortBy(s, key) <==> x in multiset(SortBy(s, key));
      assert x in s <==> x in multiset(s);
    }
  }

  /** When no two input elements share a key, the sorted output is strictly ascending. */
  lemma SortByStrict<T>(s: seq<T>, key: T -> int)
    requires forall i, j :: 0 <= i < j < |s| ==> key(s[i]) != key(s[j])
    ensures forall i, j :: 0 <= i < j < |SortBy(s, key)| ==> key(SortBy(s, key)[i]) < key(SortBy(s, key)[j])
  {
    var r := SortBy(s, key);
    SortByFacts(s, key);
    forall i, j | 0 <= i < j < |r| ensures key(r[i]) < key(r[j]) {
      assert key(r[i]) <= key(r[j]);
      if key(r[i]) == key(r[j]) {
        var v := key(r[i]);
        // Two elements of the output with key v, so WithKey(s, key, v) has two elements.
        WithKeyCount(r, key, v, i, j);
        WithKeyAtMostOne(s, key, v);
        assert false;
      }
    }
  }

  lemma {:induction false} WithKeyCount<T>(s: seq<T>, key: T -> int, v: int, i: nat, j: nat)
    requires i < j < |s| && key(s[i]) == v && key(s[j]) == v
    ensures |WithKey(s, key, v)| >= 2
  {
    if i == 0 {
      WithKeyHas(s[1..], key, v, j - 1);
    } else {
      WithKeyCount(s[1..], key, v, i - 1, j - 1);
    }
  }

  lemma {:induction false} WithKeyHas<T>(s: seq<T>, key: T -> int, v: int, i: nat)
    requires i < |s| && key(s[i]) == v
    ensures |WithKey(s, key, v)| >= 1
  {
    if i > 0 {
      WithKeyHas(s[1..], key, v, i - 1);
    }
  }

  lemma {:induction false} WithKeyAtMostOne<T>(s: seq<T>, key: T -> int, v: int)
    requires forall i, j :: 0 <= i < j < |s| ==> key(s[i]) != key(s[j])
    ensures |WithKey(s, key, v)| <= 1
  {
    if s != [] {
      WithKeyAtMostOne(s[1..], key, v);
      if key(s[0]) == v {
        WithKeyNone(s[1..], key, v);
      }
    }
  }

  lemma {:induction false} WithKeyNone<T>(s: seq<T>, key: T -> int, v: int)
    requires forall i :: 0 <= i < |s| ==> key(s[i]) != v
    ensures WithKey(s, key, v) == []
  {
    if s != [] {
      WithKeyNone(s[1..], key, v);
    }
  }
}
