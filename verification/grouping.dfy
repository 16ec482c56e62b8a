/**
  The counting pass shared by `stats_by_subject` and `stats_by_student_subject`:
  one left-to-right fold over the records into a dictionary from a key to a
  counter record. Python dictionaries remember insertion order, so the table
  keeps its keys in order of first occurrence next to the map itself.
 */
module Grouping {
  import opened Status
  import opened Rows
  import opened Counters
  import opened Seqs

  /** A Python dict from key to counters: the map plus the order its keys were inserted in. */
  datatype Table<K> = Table(keys: seq<K>, entries: map<K, Counts>)

  /** The key order lists exactly the map's keys, each once. */
  ghost predicate Valid<K(!new)>(t: Table<K>) {
    && DistinctBy(t.keys, (k: K) => k)
    && (forall k :: k in t.entries <==> k in t.keys)
  }

  /**
    `c = d.setdefault(key, zeros); c["total"] += 1; c[<status>] += 1`: a new key
    is appended with fresh counters, an existing key keeps its place, and only
    the entry for `k` changes.
   */
  function Add<K(==, !new)>(t: Table<K>, k: K, cat: Category): (r: Table<K>)
    requires Valid(t)
    ensures Valid(r)
    ensures r.entries.Keys == t.entries.Keys + {k}
    ensures r.entries[k] == Tally(if k in t.entries then t.entries[k] else Zero, cat)
    ensures forall k' :: k' in t.entries && k' != k ==> r.entries[k'] == t.entries[k']
    ensures k in t.entries ==> r.keys == t.keys
    ensures k !in t.entries ==> r.keys == t.keys + [k]
  {
    if k in t.entries then Table(t.keys, t.entries[k := Tally(t.entries[k], cat)])
    else Table(t.keys + [k], t.entries[k := Tally(Zero, cat)])
  }

  /** The dictionary the aggregation loop builds, keyed by `key`. */
  function Group<K(==, !new)>(rs: seq<Record>, key: Record -> K): (t: Table<K>)
    ensures Valid(t)
    decreases |rs|
  {
    if |rs| == 0 then Table([], map[])
    else
      var last := rs[|rs| - 1];
      Add(Group(rs[..|rs| - 1], key), key(last), Classify(last.status))
  }

  // ---------------------------------------------------------------------------
  // An independent description of what each entry should hold: the records with
  // a given key, counted by category.
  // ---------------------------------------------------------------------------

  /** The records whose key is `k`, in order. */
  function Select<K(==, !new)>(rs: seq<Record>, key: Record -> K, k: K): (g: seq<Record>)
    ensures |g| <= |rs|
    decreases |rs|
  {
    if |rs| == 0 then []
    else Select(rs[..|rs| - 1], key, k) + (if key(rs[|rs| - 1]) == k then [rs[|rs| - 1]] else [])
  }

  /** How many of `rs` have a status of category `cat`. */
  function CountCat(rs: seq<Record>, cat: Category): (n: nat)
    ensures n <= |rs|
    decreases |rs|
  {
    if |rs| == 0 then 0
    else CountCat(rs[..|rs| - 1], cat) + (if Classify(rs[|rs| - 1].status) == cat then 1 else 0)
  }

  /** The counters the entry for `k` ought to hold. */
  function Expected<K(==, !new)>(rs: seq<Record>, key: Record -> K, k: K): Counts {
    var g := Select(rs, key, k);
    Counts(|g|, CountCat(g, Present), CountCat(g, Late), CountCat(g, Absent), CountCat(g, Other))
  }

  /** Every record falls into exactly one category. */
  lemma {:induction false} CategoriesPartition(rs: seq<Record>)
    ensures CountCat(rs, Present) + CountCat(rs, Late) + CountCat(rs, Absent) + CountCat(rs, Other) == |rs|
    decreases |rs|
  {
    if |rs| > 0 {
      CategoriesPartition(rs[..|rs| - 1]);
    }
  }

  /** The expected counters are consistent: the category counts add up to the total. */
  lemma ExpectedConsistent<K(!new)>(rs: seq<Record>, key: Record -> K, k: K)
    ensures Consistent(Expected(rs, key, k))
  {
    CategoriesPartition(Select(rs, key, k));
  }

  /** Some record has key `k`. */
  ghost predicate Occurs<K(!new)>(rs: seq<Record>, key: Record -> K, k: K) {
    exists i :: 0 <= i < |rs| && key(rs[i]) == k
  }

  /** A key is selected at least once exactly when some record carries it. */
  lemma {:induction false} SelectNonEmpty<K(!new)>(rs: seq<Record>, key: Record -> K, k: K)
    ensures |Select(rs, key, k)| > 0 <==> Occurs(rs, key, k)
    decreases |rs|
  {
    if |rs| > 0 {
      var init := rs[..|rs| - 1];
      SelectNonEmpty(init, key, k);
      if exists i :: 0 <= i < |init| && key(init[i]) == k {
        var i :| 0 <= i < |init| && key(init[i]) == k;
        assert key(rs[i]) == k;
      }
      if exists i :: 0 <= i < |rs| && key(rs[i]) == k {
        var i :| 0 <= i < |rs| && key(rs[i]) == k;
        if i < |init| {
          assert key(init[i]) == k;
        }
      }
    }
  }

  /** Adding one record to the end extends exactly its own key's expected counters by one tally. */
  lemma ExpectedSnoc<K(!new)>(rs: seq<Record>, key: Record -> K, k: K)
    requires |rs| > 0
    ensures var last := rs[|rs| - 1];
      Expected(rs, key, k) ==
        if key(last) == k then Tally(Expected(rs[..|rs| - 1], key, k), Classify(last.status))
        else Expected(rs[..|rs| - 1], key, k)
  {
    var init := rs[..|rs| - 1];
    var last := rs[|rs| - 1];
    if key(last) == k {
      var g := Select(init, key, k);
      var g' := Select(rs, key, k);
      assert g' == g + [last];
      assert g'[..|g'| - 1] == g;
      var cat := Classify(last.status);
      forall x: Category
        ensures CountCat(g', x) == CountCat(g, x) + (if x == cat then 1 else 0)
      {
      }
      var e := Expected(init, key, k);
      var t := Tally(e, cat);
      assert Get(t, Present) == Get(e, Present) + (if cat == Present then 1 else 0);
      assert Get(t, Late) == Get(e, Late) + (if cat == Late then 1 else 0);
      assert Get(t, Absent) == Get(e, Absent) + (if cat == Absent then 1 else 0);
      assert Get(t, Other) == Get(e, Other) + (if cat == Other then 1 else 0);
      assert Expected(rs, key, k) == t;
    } else {
      assert Select(rs, key, k) == Select(init, key, k);
    }
  }

  /**
    The fold is correct: the table has an entry for `k` exactly when some record
    has key `k`, and that entry holds the counts of those records by category.
   */
  lemma {:induction false} GroupIsExact<K(!new)>(rs: seq<Record>, key: Record -> K, k: K)
    ensures k in Group(rs, key).entries <==> |Select(rs, key, k)| > 0
    ensures k in Group(rs, key).entries ==> Group(rs, key).entries[k] == Expected(rs, key, k)
    decreases |rs|
  {
    if |rs| > 0 {
      var init := rs[..|rs| - 1];
      GroupIsExact(init, key, k);
      ExpectedSnoc(rs, key, k);
      if k !in Group(init, key).entries {
        assert Select(init, key, k) == [];
      }
    }
  }

  /** The table has one entry per key that occurs in the records, and no other. */
  lemma GroupCovers<K(!new)>(rs: seq<Record>, key: Record -> K, k: K)
    ensures k in Group(rs, key).entries <==> Occurs(rs, key, k)
  {
    GroupIsExact(rs, key, k);
    SelectNonEmpty(rs, key, k);
  }
  /**
    The position of the first record with key `k`, or `|rs|` when there is none.
   */
  function FirstIndex<K(==)>(rs: seq<Record>, key: Record -> K, k: K): (p: nat)
    ensures p <= |rs|
    ensures p < |rs| ==> key(rs[p]) == k
    ensures forall q :: 0 <= q < p && q < |rs| ==> key(rs[q]) != k
    decreases |rs|
  {
    if |rs| == 0 then 0
    else
      var p := FirstIndex(rs[..|rs| - 1], key, k);
      if p < |rs| - 1 then p
      else if key(rs[|rs| - 1]) == k then |rs| - 1
      else |rs|
  }

  /** A key that does not occur has no first position. */
  lemma FirstIndexAbsent<K(!new)>(rs: seq<Record>, key: Record -> K, k: K)
    requires !Occurs(rs, key, k)
    ensures FirstIndex(rs, key, k) == |rs|
  {
  }

  /**
    `keys` are listed in order of first occurrence in `rs`: each occurs, and an
    earlier key occurs for the first time before a later one does.
   */
  ghost predicate InFirstOccurrenceOrder<K(!new)>(rs: seq<Record>, key: Record -> K, keys: seq<K>) {
    && (forall i :: 0 <= i < |keys| ==> FirstIndex(rs, key, keys[i]) < |rs|)
    && (forall i, j :: 0 <= i < j < |keys| ==> FirstIndex(rs, key, keys[i]) < FirstIndex(rs, key, keys[j]))
  }

  /** Appending a record keeps the order of the keys that already occurred. */
  lemma FirstOrderSnoc<K(!new)>(rs: seq<Record>, key: Record -> K, keys: seq<K>)
    requires |rs| > 0 && InFirstOccurrenceOrder(rs[..|rs| - 1], key, keys)
    ensures InFirstOccurrenceOrder(rs, key, keys)
    ensures forall i :: 0 <= i < |keys| ==> FirstIndex(rs, key, keys[i]) < |rs| - 1
  {
    var init := rs[..|rs| - 1];
    forall i | 0 <= i < |keys| ensures FirstIndex(rs, key, keys[i]) == FirstIndex(init, key, keys[i]) {
      assert FirstIndex(init, key, keys[i]) < |init|;
    }
  }

  /** Appending a record with a new key puts that key last in the order. */
  lemma FirstOrderNewKey<K(!new)>(rs: seq<Record>, key: Record -> K, keys: seq<K>)
    requires |rs| > 0 && InFirstOccurrenceOrder(rs[..|rs| - 1], key, keys)
    requires !Occurs(rs[..|rs| - 1], key, key(rs[|rs| - 1]))
    ensures InFirstOccurrenceOrder(rs, key, keys + [key(rs[|rs| - 1])])
  {
    var k := key(rs[|rs| - 1]);
    FirstOrderSnoc(rs, key, keys);
    FirstIndexAbsent(rs[..|rs| - 1], key, k);
    assert FirstIndex(rs, key, k) == |rs| - 1;
    var ks := keys + [k];
    forall i, j | 0 <= i < j < |ks| ensures FirstIndex(rs, key, ks[i]) < FirstIndex(rs, key, ks[j]) {
      if j == |keys| {
        assert ks[i] == keys[i];
      } else {
        assert ks[i] == keys[i] && ks[j] == keys[j];
      }
    }
  }

  /** The dictionary lists its keys in order of first occurrence in the records. */
  lemma {:induction false} GroupKeysInFirstOccurrenceOrder<K(!new)>(rs: seq<Record>, key: Record -> K)
    ensures InFirstOccurrenceOrder(rs, key, Group(rs, key).keys)
    decreases |rs|
  {
    if |rs| > 0 {
      var init := rs[..|rs| - 1];
      var k := key(rs[|rs| - 1]);
      var t := Group(init, key);
      GroupKeysInFirstOccurrenceOrder(init, key);
      if k in t.entries {
        FirstOrderSnoc(rs, key, t.keys);
      } else {
        GroupCovers(init, key, k);
        FirstOrderNewKey(rs, key, t.keys);
      }
    }
  }




  /** The sum of the totals of the entries listed in `keys`. */
  function SumTotals<K(==, !new)>(keys: seq<K>, m: map<K, Counts>): nat
    requires forall k :: k in keys ==> k in m
    decreases |keys|
  {
    if |keys| == 0 then 0
    else SumTotals(keys[..|keys| - 1], m) + m[keys[|keys| - 1]].total
  }

  /** The sum only looks at the entries of the listed keys. */
  lemma {:induction false} SumTotalsAgree<K(!new)>(keys: seq<K>, m: map<K, Counts>, m': map<K, Counts>)
    requires forall k :: k in keys ==> k in m && k in m' && m[k].total == m'[k].total
    ensures SumTotals(keys, m) == SumTotals(keys, m')
    decreases |keys|
  {
    if |keys| > 0 {
      SumTotalsAgree(keys[..|keys| - 1], m, m');
    }
  }

  /** Bumping the total of one listed key by one bumps the sum by one. */
  lemma {:induction false} SumTotalsBump<K(!new)>(keys: seq<K>, m: map<K, Counts>, k: K, c: Counts)
    requires DistinctBy(keys, (k: K) => k) && k in keys
    requires forall k' :: k' in keys ==> k' in m
    requires c.total == m[k].total + 1
    ensures SumTotals(keys, m[k := c]) == SumTotals(keys, m) + 1
    decreases |keys|
  {
    var init := keys[..|keys| - 1];
    if keys[|keys| - 1] == k {
      assert k !in init;
      SumTotalsAgree(init, m, m[k := c]);
    } else {
      assert k in init by {
        var i :| 0 <= i < |keys| && keys[i] == k;
        assert init[i] == k;
      }
      SumTotalsBump(init, m, k, c);
    }
  }

  /** Each record adds one to exactly one entry's total: the totals add up to the number of records. */
  lemma {:induction false} GroupConservesTotal<K(!new)>(rs: seq<Record>, key: Record -> K)
    ensures SumTotals(Group(rs, key).keys, Group(rs, key).entries) == |rs|
    decreases |rs|
  {
    if |rs| > 0 {
      var init := rs[..|rs| - 1];
      var last := rs[|rs| - 1];
      var t := Group(init, key);
      var k := key(last);
      var r := Add(t, k, Classify(last.status));
      GroupConservesTotal(init, key);
      if k in t.entries {
        SumTotalsBump(t.keys, t.entries, k, r.entries[k]);
      } else {
        SumTotalsAgree(t.keys, t.entries, r.entries);
        assert r.keys[..|r.keys| - 1] == t.keys;
      }
    }
  }
}
