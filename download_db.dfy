/** The download trend store: a dictionary from a date key `"MM-DD-YY"` to the list of
    download snapshots taken that day. */
module DownloadDb {
  import opened Common
  import opened Dates
  import opened Sorting

  /** One model's download count as recorded on some day. */
  datatype ModelNDownload = ModelNDownload(modelId: string, download: int)

  /** The key of `sorted(..., key=lambda x: x.download, reverse=True)`: a stable
      descending sort by downloads is a stable ascending sort by the negated count. */
  function NegDownload(m: ModelNDownload): int {
    -m.download
  }

  /** The snapshots `update` records for a slice of the hub listing: one per listed model
      that carries a download count, in listing order. */
  function Snapshots(models: seq<HubModel>): seq<ModelNDownload>
  {
    if models == [] then []
    else
      var last := models[|models| - 1];
      Snapshots(models[..|models| - 1]) +
      (if last.downloads.Some? then [ModelNDownload(last.modelId, last.downloads.value)] else [])
  }

  /** A snapshot is recorded exactly for the listed models with a download count, and
      never more snapshots than listed models. */
  lemma {:induction false} SnapshotsFacts(models: seq<HubModel>)
    ensures |Snapshots(models)| <= |models|
    ensures forall id, n :: ModelNDownload(id, n) in Snapshots(models) <==> HubModel(id, Some(n)) in models
  {
    if models != [] {
      var init := models[..|models| - 1];
      SnapshotsFacts(init);
      assert models == init + [models[|models| - 1]];
    }
  }

  /** `[datetime.strptime(k, "%m-%d-%y") for k in keys]`: the first key that does not
      parse raises `ValueError`. */
  function ParseKeys(keys: seq<string>): (r: Result<seq<Date>>)
    ensures r.Success? <==> forall i :: 0 <= i < |keys| ==> Parse(keys[i]).Some?
    ensures r.Success? ==> |r.value| == |keys| && AllValid(r.value)
    ensures r.Success? ==> forall i :: 0 <= i < |keys| ==> Parse(keys[i]) == Some(r.value[i])
    ensures r.Failure? ==> exists i :: 0 <= i < |keys| && r.error == ValueError(keys[i]) && Parse(keys[i]).None?
  {
    if keys == [] then Success([])
    else match Parse(keys[0])
      case None => Failure(ValueError(keys[0]))
      case Some(d) =>
        match ParseKeys(keys[1..])
        case Failure(e) => Failure(e)
        case Success(ds) => Success([d] + ds)
  }

  /** The comprehension stops at the first key that does not parse: the error names that
      key, and every key before it parses. */
  lemma {:induction false} ParseKeysFirst(keys: seq<string>)
    ensures ParseKeys(keys).Failure? ==>
      exists i :: 0 <= i < |keys| && ParseKeys(keys).error == ValueError(keys[i]) &&
        Parse(keys[i]).None? && forall j :: 0 <= j < i ==> Parse(keys[j]).Some?
  {
    if keys != [] && Parse(keys[0]).Some? && ParseKeys(keys).Failure? {
      ParseKeysFirst(keys[1..]);
      var i :| 0 <= i < |keys[1..]| && ParseKeys(keys[1..]).error == ValueError(keys[1..][i]) &&
        Parse(keys[1..][i]).None? && forall j :: 0 <= j < i ==> Parse(keys[1..][j]).Some?;
      assert forall j :: 0 <= j < i + 1 ==> Parse(keys[j]).Some? by {
        forall j | 0 <= j < i + 1 ensures Parse(keys[j]).Some? {
          if j > 0 { assert keys[j] == keys[1..][j - 1]; }
        }
      }
      assert keys[i + 1] == keys[1..][i];
    }
  }

  predicate AllValid(ds: seq<Date>) {
    forall i :: 0 <= i < |ds| ==> ValidDate(ds[i])
  }

  /** `[d.strftime("%m-%d-%y") for d in ds]`. */
  function FormatAll(ds: seq<Date>): (r: seq<string>)
    requires AllValid(ds)
    ensures |r| == |ds|
    ensures forall i :: 0 <= i < |ds| ==> r[i] == Format(ds[i])
  {
    seq(|ds|, i requires 0 <= i < |ds| && ValidDate(ds[i]) => Format(ds[i]))
  }

  /** No date comes after a later one. */
  ghost predicate Chronological(ds: seq<Date>) {
    forall i, j :: 0 <= i < j < |ds| ==> !Precedes(ds[j], ds[i])
  }

  /** Every date comes before every later one. */
  ghost predicate StrictlyChronological(ds: seq<Date>) {
    forall i, j :: 0 <= i < j < |ds| ==> Precedes(ds[i], ds[j])
  }

  /** Every key parses, and each one names a day before every later one. */
  ghost predicate StrictlyAscending(ks: seq<string>) {
    ParseKeys(ks).Success? && StrictlyChronological(ParseKeys(ks).value)
  }

  /** `k` parses to a date no parseable key of `keys` comes after. */
  ghost predicate IsNewest(k: string, keys: seq<string>) {
    Parse(k).Some? &&
    forall i :: 0 <= i < |keys| && Parse(keys[i]).Some? ==> !Precedes(Parse(k).value, Parse(keys[i]).value)
  }

  /** A dictionary: `order` lists its keys once each, in insertion order. */
  ghost predicate ValidStore(order: seq<string>, db: map<string, seq<ModelNDownload>>) {
    Distinct(order) && forall k :: k in db <==> k in order
  }

  /** Every key is one that `strftime` writes and `strptime` reads back unchanged. */
  ghost predicate CanonicalStore(db: map<string, seq<ModelNDownload>>) {
    forall k :: k in db ==> IsCanonical(k)
  }

  /** `sorted([datetime.strptime(d, "%m-%d-%y") for d in keys])`, the computation that
      `latest`, `dates(sort=True)` and `prune` share. */
  function SortedDates(keys: seq<string>): (r: Result<seq<Date>>)
    ensures ParseKeys(keys).Failure? ==> r == Failure(ParseKeys(keys).error)
    ensures ParseKeys(keys).Success? ==> r.Success?
    ensures r.Success? ==> AllValid(r.value) && |r.value| == |keys| && Chronological(r.value)
    ensures r.Success? ==> forall d :: d in r.value <==> d in ParseKeys(keys).value
  {
    match ParseKeys(keys)
    case Failure(e) => Failure(e)
    case Success(ds) =>
      SortedValid(ds);
      SortedChronological(ds);
      Success(SortBy(ds, Ordinal))
  }

  /** `sorted` permutes the parsed dates: a day named by several keys occurs as often
      in the result as keys name it. */
  lemma SortedPermutes(keys: seq<string>)
    ensures SortedDates(keys).Success? ==> multiset(SortedDates(keys).value) == multiset(ParseKeys(keys).value)
  {
    if ParseKeys(keys).Success? { SortByFacts(ParseKeys(keys).value, Ordinal); }
  }

  lemma FormatAllFacts(ds: seq<Date>)
    requires AllValid(ds)
    ensures forall i :: 0 <= i < |ds| ==> Parse(FormatAll(ds)[i]) == Some(ds[i])
  {
    forall i | 0 <= i < |ds| ensures Parse(FormatAll(ds)[i]) == Some(ds[i]) {
      ParseFormat(ds[i]);
    }
  }

  /** Sorting the parsed dates keeps them valid and keeps their number and members. */
  lemma SortedValid(ds: seq<Date>)
    requires AllValid(ds)
    ensures AllValid(SortBy(ds, Ordinal)) && |SortBy(ds, Ordinal)| == |ds|
    ensures forall d :: d in SortBy(ds, Ordinal) <==> d in ds
  {
    SortByFacts(ds, Ordinal);
    SortByMembers(ds, Ordinal);
    var s := SortBy(ds, Ordinal);
    forall i | 0 <= i < |s| ensures ValidDate(s[i]) {
      assert s[i] in ds;
    }
  }

  /** Sorting by `Ordinal` puts valid dates in chronological order. */
  lemma SortedChronological(ds: seq<Date>)
    requires AllValid(ds)
    ensures Chronological(SortBy(ds, Ordinal))
  {
    var s := SortBy(ds, Ordinal);
    SortedValid(ds);
    SortByFacts(ds, Ordinal);
    forall i, j | 0 <= i < j < |s| ensures !Precedes(s[j], s[i]) {
      OrdinalOrder(s[j], s[i]);
    }
  }

  /** When no day occurs twice, the sorted dates are strictly chronological. */
  lemma SortedStrict(ds: seq<Date>)
    requires AllValid(ds) && Distinct(ds)
    ensures StrictlyChronological(SortBy(ds, Ordinal))
  {
    var s := SortBy(ds, Ordinal);
    SortedValid(ds);
    forall i, j | 0 <= i < j < |ds| ensures Ordinal(ds[i]) != Ordinal(ds[j]) {
      OrdinalOrder(ds[i], ds[j]);
    }
    SortByStrict(ds, Ordinal);
    forall i, j | 0 <= i < j < |s| ensures Precedes(s[i], s[j]) {
      OrdinalOrder(s[i], s[j]);
    }
  }

  /** Strictly chronological dates format to strictly ascending, distinct keys. */
  lemma StrictFormatted(ds: seq<Date>)
    requires AllValid(ds) && StrictlyChronological(ds)
    ensures StrictlyAscending(FormatAll(ds)) && Distinct(FormatAll(ds))
  {
    FormatAllFacts(ds);
    var p := ParseKeys(FormatAll(ds));
    assert p.Success?;
    assert p.value == ds;
  }

  /** Two lists of the same dates format to lists of the same keys. */
  lemma FormattedMembers(ds: seq<Date>, s: seq<Date>)
    requires AllValid(ds) && AllValid(s) && forall d :: d in s <==> d in ds
    ensures forall x :: x in FormatAll(s) <==> x in FormatAll(ds)
  {
    var f, g := FormatAll(s), FormatAll(ds);
    forall i | 0 <= i < |f| ensures f[i] in g {
      assert s[i] in ds;
      var j :| 0 <= j < |ds| && ds[j] == s[i];
      assert g[j] == Format(ds[j]) == f[i];
    }
    forall j | 0 <= j < |g| ensures g[j] in f {
      assert ds[j] in s;
      var i :| 0 <= i < |s| && s[i] == ds[j];
      assert f[i] == Format(s[i]) == g[j];
    }
  }

  /** Storing a list under a key keeps the insertion order in step with the keys: a
      new key goes to the end. */
  lemma ValidInsert(order: seq<string>, db: map<string, seq<ModelNDownload>>, key: string, v: seq<ModelNDownload>)
    requires ValidStore(order, db)
    ensures ValidStore(if key in db then order else order + [key], db[key := v])
  {
  }

  /** `update` keeps every key canonical: the key it writes is `strftime`'s own output. */
  lemma UpdateKeepsCanonical(db: map<string, seq<ModelNDownload>>, today: Date, v: seq<ModelNDownload>)
    requires CanonicalStore(db) && ValidDate(today)
    ensures CanonicalStore(db[Format(today) := v])
  {
    FormatCanonical(today);
  }

  /** In a store with canonical keys every key parses, formatting the parsed keys gives
      the keys back, and no two keys name the same day. */
  lemma CanonicalParse(order: seq<string>, db: map<string, seq<ModelNDownload>>)
    requires ValidStore(order, db) && CanonicalStore(db)
    ensures ParseKeys(order).Success?
    ensures FormatAll(ParseKeys(order).value) == order
    ensures Distinct(ParseKeys(order).value)
  {
    assert forall i :: 0 <= i < |order| ==> IsCanonical(order[i]) by {
      forall i | 0 <= i < |order| ensures IsCanonical(order[i]) {
        assert order[i] in db;
      }
    }
    var ds := ParseKeys(order).value;
    forall i, j | 0 <= i < j < |ds| ensures ds[i] != ds[j] {
      assert order[i] != order[j];
    }
  }

  /** In a store with canonical keys the sorted dates are strictly chronological and
      format back to exactly the stored keys. */
  lemma CanonicalDates(order: seq<string>, db: map<string, seq<ModelNDownload>>)
    requires ValidStore(order, db) && CanonicalStore(db)
    ensures SortedDates(order).Success?
    ensures StrictlyChronological(SortedDates(order).value)
    ensures forall k :: k in db <==> k in FormatAll(SortedDates(order).value)
  {
    CanonicalParse(order, db);
    var ds := ParseKeys(order).value;
    SortedStrict(ds);
    SortedValid(ds);
    FormattedMembers(ds, SortBy(ds, Ordinal));
  }

  /** `ks` lists the keys of `db` once each, in strictly chronological order. */
  ghost predicate CanonicalSortedKeys(ks: seq<string>, db: map<string, seq<ModelNDownload>>) {
    StrictlyAscending(ks) && Distinct(ks) && forall k :: k in ks <==> k in db
  }

  /** `dates(sort)` on the keys of a store, in the order given. */
  function KeyDates(keys: seq<string>, sort: bool): Result<seq<string>>
  {
    match ParseKeys(keys)
    case Failure(e) => Failure(e)
    case Success(ds) => Success(FormatAll(if sort then SortedDates(keys).value else ds))
  }

  lemma KeyDatesFacts(keys: seq<string>, sort: bool)
    ensures ParseKeys(keys).Failure? ==> KeyDates(keys, sort) == Failure(ParseKeys(keys).error)
    ensures ParseKeys(keys).Success? ==> KeyDates(keys, sort).Success? && |KeyDates(keys, sort).value| == |keys|
    ensures KeyDates(keys, sort).Success? && !sort ==>
      forall i :: 0 <= i < |keys| ==> Parse(KeyDates(keys, sort).value[i]) == Parse(keys[i])
    ensures KeyDates(keys, sort).Success? && sort ==> KeyDates(keys, sort).value == FormatAll(SortedDates(keys).value)
  {
    if ParseKeys(keys).Success? && !sort {
      FormatAllFacts(ParseKeys(keys).value);
    }
  }

  /** In a store with canonical keys, the sorted dates formatted back are the stored
      keys once each, in strictly chronological order. */
  lemma CanonicalSorted(order: seq<string>, db: map<string, seq<ModelNDownload>>)
    requires ValidStore(order, db) && CanonicalStore(db)
    ensures SortedDates(order).Success?
    ensures CanonicalSortedKeys(FormatAll(SortedDates(order).value), db)
  {
    CanonicalDates(order, db);
    StrictFormatted(SortedDates(order).value);
  }

  lemma KeyDatesCanonical(keys: seq<string>, db: map<string, seq<ModelNDownload>>, sort: bool)
    requires ValidStore(keys, db) && CanonicalStore(db)
    ensures KeyDates(keys, sort).Success?
    ensures !sort ==> KeyDates(keys, sort).value == keys
    ensures sort ==> CanonicalSortedKeys(KeyDates(keys, sort).value, db)
  {
    CanonicalParse(keys, db);
    if sort { CanonicalSorted(keys, db); }
  }

  /** In a store with canonical keys the last sorted date, formatted, is a stored key. */
  lemma CanonicalNewest(order: seq<string>, db: map<string, seq<ModelNDownload>>)
    requires ValidStore(order, db) && CanonicalStore(db)
    requires SortedDates(order).Success? && SortedDates(order).value != []
    ensures var ds := SortedDates(order).value; Format(ds[|ds| - 1]) in db
  {
    CanonicalDates(order, db);
    var ds := SortedDates(order).value;
    assert FormatAll(ds)[|ds| - 1] == Format(ds[|ds| - 1]);
  }

  /** The last sorted date, formatted, is the newest key. */
  lemma NewestDate(keys: seq<string>)
    requires SortedDates(keys).Success? && |keys| > 0
    ensures var ds := SortedDates(keys).value; IsNewest(Format(ds[|ds| - 1]), keys)
  {
    var ds := SortedDates(keys).value;
    var last := ds[|ds| - 1];
    ParseFormat(last);
    var ps := ParseKeys(keys).value;
    forall i | 0 <= i < |keys| && Parse(keys[i]).Some?
      ensures !Precedes(last, Parse(keys[i]).value)
    {
      assert Parse(keys[i]) == Some(ps[i]);
      assert ps[i] in ds;
      var j :| 0 <= j < |ds| && ds[j] == ps[i];
      if j < |ds| - 1 {
        assert !Precedes(ds[|ds| - 1], ds[j]);
      }
    }
  }

  /** Deleting the first `m` of strictly ascending keys leaves exactly the others, each
      naming a later day than every deleted key. */
  lemma PrunedNewer(keys: seq<string>, m: nat, before: set<string>, after: set<string>)
    requires StrictlyAscending(keys) && Distinct(keys) && m <= |keys|
    requires forall k :: k in before <==> k in keys
    requires after == before - (set k | k in keys[..m])
    ensures forall k :: k in after <==> k in keys[m..]
    ensures forall k, k' :: k in after && k' in before && k' !in after ==>
      Parse(k).Some? && Parse(k').Some? && Precedes(Parse(k').value, Parse(k).value)
  {
    SplitKeys(keys, m, before, after);
    forall k, k' | k in after && k' in before && k' !in after
      ensures Parse(k).Some? && Parse(k').Some? && Precedes(Parse(k').value, Parse(k).value)
    {
      OlderPair(keys, m, k, k');
    }
  }

  /** Removing the first `m` of distinct keys from the set of all of them leaves exactly
      the remaining keys; the removed ones are distinct and were all present. */
  lemma SplitKeys<K>(keys: seq<K>, m: nat, before: set<K>, after: set<K>)
    requires Distinct(keys) && m <= |keys|
    requires forall k :: k in before <==> k in keys
    requires after == before - (set k | k in keys[..m])
    ensures forall k :: k in after <==> k in keys[m..]
    ensures Distinct(keys[..m]) && forall k :: k in keys[..m] ==> k in before
  {
    forall k | k in keys[m..] ensures k in after {
      var j :| 0 <= j < |keys[m..]| && keys[m..][j] == k;
      assert keys[m + j] == k;
      assert forall i :: 0 <= i < m ==> keys[..m][i] != k;
    }
    forall k | k in after ensures k in keys[m..] {
      var j :| 0 <= j < |keys| && keys[j] == k;
      assert j >= m by {
        assert forall i :: 0 <= i < m ==> keys[..m][i] == keys[i];
      }
      assert keys[m..][j - m] == k;
    }
    forall i, j | 0 <= i < j < m ensures keys[..m][i] != keys[..m][j] {
      assert keys[i] != keys[j];
    }
  }

  /** A key among the first `m` of strictly ascending keys names a day before any key
      after them. */
  lemma OlderPair(keys: seq<string>, m: nat, k: string, k': string)
    requires StrictlyAscending(keys) && m <= |keys|
    requires k in keys[m..] && k' in keys[..m]
    ensures Parse(k).Some? && Parse(k').Some? && Precedes(Parse(k').value, Parse(k).value)
  {
    var ps := ParseKeys(keys).value;
    var j :| 0 <= j < |keys[m..]| && keys[m..][j] == k;
    var i :| 0 <= i < m && keys[..m][i] == k';
    assert keys[m + j] == k && keys[i] == k';
    assert Parse(k) == Some(ps[m + j]) && Parse(k') == Some(ps[i]);
  }

  /** The keys `prune` deletes from a store whose sorted dates are `ds`:
      `dates[:len(dates) - max_records]`, formatted. With `max_records` below the number
      of dates that is the oldest `len - max_records` of them, or all of them when
      `max_records` is negative. */
  function Victims(ds: seq<Date>, maxRecords: int): (v: seq<string>)
    requires AllValid(ds) && maxRecords < |ds|
    ensures |v| == if maxRecords < 0 then |ds| else |ds| - maxRecords
    ensures v == FormatAll(ds)[..|v|]
  {
    var tbd := Prefix(ds, |ds| - maxRecords);
    assert tbd == ds[..|tbd|];
    FormatAll(tbd)
  }

  /** After deleting the first `n` victims in turn from the dictionary `db0` kept in the
      order `order0`, the dictionary is `db` and its key order `order`. */
  ghost predicate DeletedPrefix(db0: map<string, seq<ModelNDownload>>, order0: seq<string>,
                                victims: seq<string>, n: nat,
                                db: map<string, seq<ModelNDownload>>, order: seq<string>)
  {
    n <= |victims| &&
    Distinct(victims[..n]) && (forall k :: k in victims[..n] ==> k in db0) &&
    db == db0 - SetOf(victims[..n]) &&
    order == Without(order0, SetOf(victims[..n])) && |order| == |order0| - n
  }

  /** Deleting a prefix of the victims leaves every other entry as it was; once all of
      them are deleted, the dictionary has lost exactly the victims. */
  lemma DeletedPrefixKeeps(db0: map<string, seq<ModelNDownload>>, order0: seq<string>,
                           victims: seq<string>, n: nat,
                           db: map<string, seq<ModelNDownload>>, order: seq<string>)
    requires DeletedPrefix(db0, order0, victims, n, db, order)
    ensures forall k :: k in db ==> k in db0 && db[k] == db0[k]
    ensures n == |victims| ==> db == db0 - SetOf(victims) && |order| == |order0| - |victims|
  {
    MinusKeeps(db0, SetOf(victims[..n]));
    if n == |victims| { assert victims[..n] == victims; }
  }

  /** When the victims are distinct and all stored, the next victim is still stored
      after the earlier ones are deleted. */
  lemma DeletedPrefixNext(db0: map<string, seq<ModelNDownload>>, order0: seq<string>,
                          victims: seq<string>, n: nat,
                          db: map<string, seq<ModelNDownload>>, order: seq<string>)
    requires DeletedPrefix(db0, order0, victims, n, db, order) && n < |victims|
    ensures Distinct(victims) && (forall k :: k in victims ==> k in db0) ==> victims[n] in db
  {
    if Distinct(victims) && (forall k :: k in victims ==> k in db0) {
      assert victims[n] !in victims[..n] by {
        forall j | 0 <= j < n ensures victims[..n][j] != victims[n] { assert victims[..n][j] == victims[j]; }
      }
    }
  }

  /** Deleting the next victim, still stored, extends the deleted prefix by one. */
  lemma DeletedPrefixStep(db0: map<string, seq<ModelNDownload>>, order0: seq<string>,
                          victims: seq<string>, i: nat,
                          db: map<string, seq<ModelNDownload>>, order: seq<string>)
    requires DeletedPrefix(db0, order0, victims, i, db, order)
    requires i < |victims| && victims[i] in db && |Remove(order, victims[i])| == |order| - 1
    ensures DeletedPrefix(db0, order0, victims, i + 1, db - {victims[i]}, Remove(order, victims[i]))
  {
    var key := victims[i];
    var done := victims[..i];
    var gone := SetOf(done);
    var next := victims[..i + 1];
    assert next == done + [key];
    assert SetOf(next) == gone + {key};
    assert key !in done by { assert key !in gone; }
    assert Distinct(next) by {
      forall a, b | 0 <= a < b < |next| ensures next[a] != next[b] {
        if b == i { assert next[a] == done[a]; } else { assert done[a] != done[b]; }
      }
    }
    assert forall k :: k in next ==> k in db0 by {
      forall k | k in next ensures k in db0 { assert k in done || k == key; }
    }
    RemoveWithout(order0, gone, key);
    assert db - {key} == db0 - (gone + {key});
  }

  class DownloadTrendDB {
    /** The keys of `self.db` in insertion order. */
    var order: seq<string>
    /** `self.db`. */
    var db: map<string, seq<ModelNDownload>>
    /** The contents of the JSON file as last written (or loaded). */
    ghost var disk: map<string, seq<ModelNDownload>>
    /** How many times the file has been written. */
    ghost var writes: nat

    ghost predicate Valid()
      reads this
    {
      ValidStore(order, db)
    }

    ghost predicate Canonical()
      reads this
    {
      CanonicalStore(db)
    }

    /** Opening the store on a file that held `loaded`, with its keys in `keys` order. */
    constructor (keys: seq<string>, loaded: map<string, seq<ModelNDownload>>)
      requires ValidStore(keys, loaded)
      ensures Valid()
      ensures order == keys && db == loaded && disk == loaded && writes == 0
    {
      order := keys;
      db := loaded;
      disk := loaded;
      writes := 0;
    }

    /** `self.db[key]`. */
    function Get(key: string): (r: Result<seq<ModelNDownload>>)
      reads this
      ensures r.Success? <==> key in db
      ensures r.Success? ==> r.value == db[key]
      ensures r.Failure? ==> r.error == KeyError(key)
    {
      if key in db then Success(db[key]) else Failure(KeyError(key))
    }

    /** `key in self`: exactly the keys a lookup finds. */
    predicate Contains(key: string): (b: bool)
      reads this
      ensures b <==> Get(key).Success?
    {
      key in db
    }

    /** `len(self.db)`, the number of stored dates. */
    function Len(): (n: nat)
      reads this
      requires Valid()
      ensures n == |db|
    {
      DistinctCard(order);
      assert (set k | k in order) == db.Keys;
      |order|
    }

    /** `dates(sort)`: every key parsed and formatted again, in insertion order or in
        chronological order. */
    function Dates(sort: bool): (r: Result<seq<string>>)
      reads this
      ensures ParseKeys(order).Failure? ==> r == Failure(ParseKeys(order).error)
      ensures ParseKeys(order).Success? ==> r.Success? && |r.value| == |order|
      ensures r.Success? && !sort ==> forall i :: 0 <= i < |order| ==> Parse(r.value[i]) == Parse(order[i])
      ensures r.Success? && sort ==> r.value == FormatAll(SortedDates(order).value)
      ensures Valid() && Canonical() ==> r.Success? && (!sort ==> r.value == order)
      ensures Valid() && Canonical() && sort ==> CanonicalSortedKeys(r.value, db)
    {
      KeyDatesFacts(order, sort);
      assert Valid() && Canonical() ==>
        KeyDates(order, sort).Success? && (!sort ==> KeyDates(order, sort).value == order) &&
        (sort ==> CanonicalSortedKeys(KeyDates(order, sort).value, db)) by {
        if Valid() && Canonical() { KeyDatesCanonical(order, db, sort); }
      }
      KeyDates(order, sort)
    }

    /** `dates(sort=False)` returns the `strftime` form of every key in insertion order,
        which differs from the key itself when the key is not zero-padded. */
    lemma DatesUnsorted()
      ensures ParseKeys(order).Success? ==> Dates(false) == Success(FormatAll(ParseKeys(order).value))
    {
    }

    /** `latest()`: the snapshots stored under the chronologically greatest date. */
    function Latest(): (r: Result<seq<ModelNDownload>>)
      reads this
      ensures ParseKeys(order).Failure? ==> r == Failure(ParseKeys(order).error)
      ensures ParseKeys(order).Success? && order == [] ==> r == Failure(IndexError)
      ensures r.Failure? && ParseKeys(order).Success? && order != [] ==> r.error.KeyError?
    {
      match SortedDates(order)
      case Failure(e) => Failure(e)
      case Success(ds) =>
        if ds == [] then Failure(IndexError)
        else Get(Format(ds[|ds| - 1]))
    }

    /** `latest()` looks up the `strftime` form of the newest date: its entry when that
        key is stored, `KeyError` naming it otherwise, even when an unpadded key for the
        same day is stored. */
    lemma LatestKey()
      ensures ParseKeys(order).Success? && order != [] ==>
        var k := Format(SortedDates(order).value[|order| - 1]);
        Latest() == (if k in db then Success(db[k]) else Failure(KeyError(k)))
    {
    }

    /** What `latest()` returns is the entry of a key no other key's date follows. */
    lemma LatestIsNewest()
      ensures Latest().Success? ==> exists k :: k in db && Latest().value == db[k] && IsNewest(k, order)
    {
      if Latest().Success? {
        var ds := SortedDates(order).value;
        var k := Format(ds[|ds| - 1]);
        NewestDate(order);
        assert k in db && Latest().value == db[k];
      }
    }

    /** On a well-formed store whose keys are all canonical, `latest()` fails exactly
        when the store is empty. */
    lemma LatestCanonical()
      requires Valid() && Canonical()
      ensures Latest().Success? <==> |db| > 0
    {
      CanonicalDates(order, db);
      if order != [] {
        CanonicalNewest(order, db);
        assert order[0] in db;
      } else {
        assert forall k :: k !in db;
        assert db == map[];
      }
    }

    /** `persist()`: the whole dictionary is written to the file. */
    method Persist()
      modifies this
      ensures disk == db && writes == old(writes) + 1
      ensures db == old(db) && order == old(order)
    {
      disk := db;
      writes := writes + 1;
    }

    /** `update(all_models, args)` on day `today`: appends the snapshots of
        `all_models[start:min(end, len)]` to today's list (creating it empty first when
        absent), then persists. A second run on the same day extends that day's list. */
    method Update(models: seq<HubModel>, today: Date, start: int, end: Ext<int>)
      requires Valid() && ValidDate(today)
      modifies this
      ensures Valid()
      ensures var key := Format(today);
        db == old(db)[key := (if key in old(db) then old(db)[key] else []) + Snapshots(Slice(models, start, end))]
      ensures var key := Format(today);
        order == if key in old(db) then old(order) else old(order) + [key]
      ensures disk == db && writes == old(writes) + 1
    {
      var key := Format(today);
      if key !in db {
        ValidInsert(order, db, key, []);
        db := db[key := []];
        order := order + [key];
      }
      var batch := Slice(models, start, end);
      var list := db[key];
      ghost var base := list;
      assert batch[..0] == [] && base + Snapshots([]) == base;
      var i := 0;
      while i < |batch|
        invariant 0 <= i <= |batch|
        invariant list == base + Snapshots(batch[..i])
      {
        var m := batch[i];
        assert batch[..i + 1][..i] == batch[..i] && batch[..i + 1][i] == m;
        if m.downloads.Some? {
          list := list + [ModelNDownload(m.modelId, m.downloads.value)];
        }
        i := i + 1;
      }
      assert batch[..i] == batch;
      ValidInsert(order, db, key, list);
      db := db[key := list];
      Persist();
    }

    /** `prune(max_records)`: when more than `max_records` dates are stored, deletes the
        first `len - max_records` of the sorted dates, one by one, then persists. A
        sorted date whose formatted key is not (or no longer) stored raises `KeyError`
        part-way, without persisting. */
    method Prune(maxRecords: int) returns (r: Outcome, ghost done: nat)
      requires Valid()
      modifies this
      ensures Valid()
      ensures forall k :: k in db ==> k in old(db) && db[k] == old(db)[k]
      ensures SortedDates(old(order)).Failure? ==> r == Fail(SortedDates(old(order)).error)
      ensures SortedDates(old(order)).Failure? || maxRecords >= |old(order)| ==>
        db == old(db) && order == old(order) && disk == old(disk) && writes == old(writes)
      ensures SortedDates(old(order)).Success? && maxRecords >= |old(order)| ==> r == Pass
      ensures SortedDates(old(order)).Success? && maxRecords < |old(order)| ==>
        var victims := Victims(SortedDates(old(order)).value, maxRecords);
        done <= |victims| &&
        Distinct(victims[..done]) && (forall k :: k in victims[..done] ==> k in old(db)) &&
        db == old(db) - SetOf(victims[..done]) &&
        order == Without(old(order), SetOf(victims[..done])) &&
        (r.Pass? <==> done == |victims|) &&
        (r.Pass? ==>
          db == old(db) - SetOf(victims) && |order| == |old(order)| - |victims| &&
          disk == db && writes == old(writes) + 1) &&
        (r.Fail? ==>
          r == Fail(KeyError(victims[done])) && victims[done] !in db &&
          disk == old(disk) && writes == old(writes))
      ensures old(Valid() && Canonical()) ==> r == Pass && Canonical()
      ensures old(Valid() && Canonical()) && maxRecords < |old(order)| ==>
        |order| == (if maxRecords < 0 then 0 else maxRecords) &&
        forall k, k' :: k in db && k' in old(db) && k' !in db ==>
          Parse(k).Some? && Parse(k').Some? && Precedes(Parse(k').value, Parse(k).value)
    {
      ghost var canon := Valid() && Canonical();
      if canon {
        CanonicalDates(order, db);
      }
      var dates := SortedDates(order);
      if dates.Failure? {
        return Fail(dates.error), 0;
      }
      var ds := dates.value;
      if maxRecords >= |ds| {
        return Pass, 0;
      }
      var victims := Victims(ds, maxRecords);
      ghost var m := |victims|;
      if canon {
        StrictFormatted(ds);
        SplitKeys(FormatAll(ds), m, db.Keys, db.Keys - SetOf(victims));
      }
      r, done := DeleteKeys(victims);
      if r.Fail? {
        return;
      }
      Persist();
      if canon {
        PrunedNewer(FormatAll(ds), m, old(db).Keys, db.Keys);
      }
    }

    /** `del self.db[key]` for a stored key: the other keys keep their order. */
    method DeleteOne(key: string)
      requires Valid() && key in db
      modifies this
      ensures Valid() && db == old(db) - {key} && order == Remove(old(order), key)
      ensures |order| == |old(order)| - 1
      ensures disk == old(disk) && writes == old(writes)
    {
      db := db - {key};
      order := Remove(order, key);
    }

    /** The state after the deletion loop of `prune` has deleted the first `n` victims
        from the dictionary `db0` kept in the order `order0`. */
    ghost predicate DeletedFirst(db0: map<string, seq<ModelNDownload>>, order0: seq<string>,
                                 victims: seq<string>, n: nat)
      reads this
    {
      DeletedPrefix(db0, order0, victims, n, db, order)
    }

    /** One turn of the deletion loop, on a victim that is still stored. */
    method DeleteNext(ghost db0: map<string, seq<ModelNDownload>>, ghost order0: seq<string>,
                      victims: seq<string>, i: nat)
      requires Valid() && DeletedFirst(db0, order0, victims, i) && i < |victims| && victims[i] in db
      modifies this
      ensures Valid() && DeletedFirst(db0, order0, victims, i + 1)
      ensures db == old(db) - {victims[i]}
      ensures disk == old(disk) && writes == old(writes)
    {
      DeletedPrefixStep(db0, order0, victims, i, db, order);
      DeleteOne(victims[i]);
    }

    /** The deletion loop of `prune`: `del self.db[key]` for each key in turn, stopping
        with `KeyError` at the first key that is not (or no longer) stored. `done` is the
        number of keys deleted; the survivors keep their order. */
    method DeleteKeys(victims: seq<string>) returns (r: Outcome, ghost done: nat)
      requires Valid()
      modifies this
      ensures Valid()
      ensures disk == old(disk) && writes == old(writes)
      ensures forall k :: k in db ==> k in old(db) && db[k] == old(db)[k]
      ensures done <= |victims|
      ensures Distinct(victims[..done]) && forall k :: k in victims[..done] ==> k in old(db)
      ensures db == old(db) - SetOf(victims[..done])
      ensures order == Without(old(order), SetOf(victims[..done])) && |order| == |old(order)| - done
      ensures r.Pass? <==> done == |victims|
      ensures r.Pass? ==> db == old(db) - SetOf(victims) && |order| == |old(order)| - |victims|
      ensures r.Fail? ==> r == Fail(KeyError(victims[done])) && victims[done] !in db
      ensures Distinct(victims) && (forall k :: k in victims ==> k in old(db)) ==> r == Pass
    {
      WithoutNothing(order);
      assert victims[..0] == [] && SetOf(victims[..0]) == {};
      var i := 0;
      while i < |victims|
        invariant Valid() && DeletedFirst(old(db), old(order), victims, i)
        invariant disk == old(disk) && writes == old(writes)
      {
        if victims[i] !in db {
          DeletedPrefixKeeps(old(db), old(order), victims, i, db, order);
          DeletedPrefixNext(old(db), old(order), victims, i, db, order);
          return Fail(KeyError(victims[i])), i;
        }
        DeleteNext(old(db), old(order), victims, i);
        i := i + 1;
      }
      DeletedPrefixKeeps(old(db), old(order), victims, i, db, order);
      return Pass, i;
    }
  }
}
