/** Grouping of keyed rows: SQL `GROUP BY` and the bot's
    `defaultdict(list)` that appends each row's value under its key.
    Groups come in order of each key's first appearance, as Python's dict
    keeps insertion order; each group holds its values in row order. */
module Grouping {
  import opened Util

  /** Some row of `s` carries key `k`. */
  ghost predicate HasKey<K, V>(s: seq<(K, V)>, k: K)
  {
    exists i :: 0 <= i < |s| && s[i].0 == k
  }

  /** The keys that occur in `s`. */
  function Keys<K, V>(s: seq<(K, V)>): set<K>
  {
    set i | 0 <= i < |s| :: s[i].0
  }

  /** The distinct keys of `s`, in order of first appearance. */
  function GroupKeys<K(==,!new), V>(s: seq<(K, V)>): (ks: seq<K>)
    ensures forall k :: k in ks <==> HasKey(s, k)
    ensures forall i, j :: 0 <= i < j < |ks| ==> ks[i] != ks[j]
  {
    if s == [] then []
    else
      var ks := GroupKeys(s[..|s| - 1]);
      assert s == s[..|s| - 1] + [s[|s| - 1]];
      if s[|s| - 1].0 in ks then ks else ks + [s[|s| - 1].0]
  }

  /** The values stored under key `k`, in row order. */
  function Select<K(==,!new), V>(s: seq<(K, V)>, k: K): seq<V>
  {
    if s == [] then []
    else Select(s[..|s| - 1], k) + (if s[|s| - 1].0 == k then [s[|s| - 1].1] else [])
  }

  /** A key has a non-empty group exactly when some row carries it. */
  lemma {:induction false} SelectNonEmpty<K(!new), V>(s: seq<(K, V)>, k: K)
    ensures |Select(s, k)| > 0 <==> HasKey(s, k)
  {
    if s != [] {
      SelectNonEmpty(s[..|s| - 1], k);
      assert s == s[..|s| - 1] + [s[|s| - 1]];
    }
  }

  /** Every row lands in exactly one group, so the groups' sizes add up to the row count. */
  function GroupSizes<K(==,!new), V>(s: seq<(K, V)>, ks: seq<K>): nat
  {
    if ks == [] then 0 else GroupSizes(s, ks[..|ks| - 1]) + |Select(s, ks[|ks| - 1])|
  }

  /** The grouped rows: one entry per distinct key, with its values. */
  function GroupBy<K(==,!new), V>(s: seq<(K, V)>): (g: seq<(K, seq<V>)>)
    ensures |g| == |GroupKeys(s)|
    ensures forall i, j :: 0 <= i < j < |g| ==> g[i].0 != g[j].0
    ensures forall p :: p in s ==> exists i :: 0 <= i < |g| && g[i].0 == p.0
    ensures forall i :: 0 <= i < |g| ==> HasKey(s, g[i].0)
    ensures forall i :: 0 <= i < |g| ==> g[i].1 == Select(s, g[i].0) && |g[i].1| > 0
  {
    var ks := GroupKeys(s);
    var g := seq(|ks|, i requires 0 <= i < |ks| => (ks[i], Select(s, ks[i])));
    forall i | 0 <= i < |g|
      ensures |g[i].1| > 0
    {
      assert ks[i] in ks;
      SelectNonEmpty(s, ks[i]);
    }
    forall p | p in s
      ensures exists i :: 0 <= i < |g| && g[i].0 == p.0
    {
      assert p.0 in ks;
      var i :| 0 <= i < |ks| && ks[i] == p.0;
      assert g[i].0 == p.0;
    }
    forall i | 0 <= i < |g|
      ensures HasKey(s, g[i].0)
    {
      assert ks[i] in ks;
    }
    g
  }

  /** Keys missing from the rows have empty groups. */
  lemma {:induction false} SelectAbsent<K(!new), V>(s: seq<(K, V)>, k: K)
    requires !HasKey(s, k)
    ensures Select(s, k) == []
  {
    SelectNonEmpty(s, k);
  }

  /** Appending one row extends exactly the group of its key. */
  lemma SelectSnoc<K(!new), V>(s: seq<(K, V)>, p: (K, V), k: K)
    ensures Select(s + [p], k) == Select(s, k) + (if p.0 == k then [p.1] else [])
  {
    assert (s + [p])[..|s|] == s;
  }

  lemma {:induction false} GroupSizesSnocKey<K(!new), V>(s: seq<(K, V)>, ks: seq<K>, p: (K, V))
    requires p.0 !in ks
    ensures GroupSizes(s + [p], ks) == GroupSizes(s, ks)
  {
    if ks != [] {
      GroupSizesSnocKey(s, ks[..|ks| - 1], p);
      SelectSnoc(s, p, ks[|ks| - 1]);
    }
  }

  lemma {:induction false} GroupSizesSnocRow<K(!new), V>(s: seq<(K, V)>, ks: seq<K>, p: (K, V))
    requires p.0 in ks
    requires forall i, j :: 0 <= i < j < |ks| ==> ks[i] != ks[j]
    ensures GroupSizes(s + [p], ks) == GroupSizes(s, ks) + 1
  {
    var last := ks[|ks| - 1];
    var front := ks[..|ks| - 1];
    SelectSnoc(s, p, last);
    if p.0 == last {
      assert p.0 !in front by {
        forall i | 0 <= i < |front| ensures front[i] != p.0 {
          assert ks[i] != ks[|ks| - 1];
        }
      }
      GroupSizesSnocKey(s, front, p);
    } else {
      assert p.0 in front by {
        var i :| 0 <= i < |ks| && ks[i] == p.0;
        assert i < |ks| - 1 && front[i] == p.0;
      }
      GroupSizesSnocRow(s, front, p);
    }
  }

  /** No row is lost or counted twice by grouping. */
  lemma {:induction false} GroupSizesTotal<K(!new), V>(s: seq<(K, V)>)
    ensures GroupSizes(s, GroupKeys(s)) == |s|
  {
    if s != [] {
      var front := s[..|s| - 1];
      var p := s[|s| - 1];
      assert s == front + [p];
      GroupSizesTotal(front);
      var ks := GroupKeys(front);
      if p.0 in ks {
        GroupSizesSnocRow(front, ks, p);
      } else {
        GroupSizesSnocKey(front, ks, p);
        SelectSnoc(front, p, p.0);
        SelectAbsent(front, p.0);
        assert GroupKeys(s) == ks + [p.0];
        assert (ks + [p.0])[..|ks|] == ks;
      }
    }
  }

  /** The defaultdict loop: for each row, append its value under its key;
      then read the dict's items in insertion order. */
  method GroupItems<K(==,!new), V>(s: seq<(K, V)>) returns (items: seq<(K, seq<V>)>)
    ensures items == GroupBy(s)
  {
    var keys: seq<K> := [];
    var groups: map<K, seq<V>> := map[];
    var i := 0;
    while i < |s|
      invariant 0 <= i <= |s|
      invariant keys == GroupKeys(s[..i])
      invariant forall k :: k in groups <==> k in keys
      invariant forall k :: k in groups ==> groups[k] == Select(s[..i], k)
    {
      var (k, v) := s[i];
      GroupStep(s, i);
      if k in groups {
        groups := groups[k := groups[k] + [v]];
      } else {
        keys := keys + [k];
        groups := groups[k := [v]];
      }
      i := i + 1;
    }
    assert s[..i] == s;
    items := seq(|keys|, j requires 0 <= j < |keys| => (keys[j], groups[keys[j]]));
    GroupedItems(s, keys, groups, items);
  }

  /** Reading the finished dict in key order gives the grouped rows. */
  lemma GroupedItems<K(!new), V>(s: seq<(K, V)>, keys: seq<K>, groups: map<K, seq<V>>, items: seq<(K, seq<V>)>)
    requires keys == GroupKeys(s)
    requires forall k :: k in groups <==> k in keys
    requires forall k :: k in groups ==> groups[k] == Select(s, k)
    requires |items| == |keys| && forall j :: 0 <= j < |items| ==> items[j] == (keys[j], groups[keys[j]])
    ensures items == GroupBy(s)
  {
    var g := GroupBy(s);
    forall j | 0 <= j < |items| ensures items[j] == g[j] {
      assert keys[j] in keys;
    }
  }

  /** One more row: its key joins the keys if it is new, and its value joins
      that key's group and no other. */
  lemma GroupStep<K(!new), V>(s: seq<(K, V)>, i: int)
    requires 0 <= i < |s|
    ensures GroupKeys(s[..i + 1]) == if s[i].0 in GroupKeys(s[..i]) then GroupKeys(s[..i]) else GroupKeys(s[..i]) + [s[i].0]
    ensures s[i].0 !in GroupKeys(s[..i]) ==> Select(s[..i], s[i].0) == []
    ensures forall k :: Select(s[..i + 1], k) == Select(s[..i], k) + (if s[i].0 == k then [s[i].1] else [])
  {
    assert s[..i + 1] == s[..i] + [s[i]];
    assert s[..i + 1][..i] == s[..i];
    forall k ensures Select(s[..i + 1], k) == Select(s[..i], k) + (if s[i].0 == k then [s[i].1] else []) {
      SelectSnoc(s[..i], s[i], k);
    }
    if s[i].0 !in GroupKeys(s[..i]) {
      SelectAbsent(s[..i], s[i].0);
    }
  }

  /** Grouping keeps the rows' order: when every earlier row's key stands in
      `rel` to every later row's key, the groups' keys do so too, since each
      group sits where its key first appears. */
  lemma {:induction false} GroupKeysOrdered<K(!new), V>(s: seq<(K, V)>, rel: (K, K) -> bool)
    requires forall i, j :: 0 <= i < j < |s| ==> rel(s[i].0, s[j].0)
    ensures forall a, b :: 0 <= a < b < |GroupKeys(s)| ==> rel(GroupKeys(s)[a], GroupKeys(s)[b])
  {
    if s != [] {
      var front := s[..|s| - 1];
      var last := s[|s| - 1];
      assert forall i, j :: 0 <= i < j < |front| ==> rel(front[i].0, front[j].0) by {
        forall i, j | 0 <= i < j < |front| ensures rel(front[i].0, front[j].0) {
          assert front[i] == s[i] && front[j] == s[j];
        }
      }
      GroupKeysOrdered(front, rel);
      var ks := GroupKeys(front);
      if last.0 !in ks {
        assert GroupKeys(s) == ks + [last.0];
        forall a | 0 <= a < |ks| ensures rel(ks[a], last.0) {
          assert ks[a] in ks;
          var i :| 0 <= i < |front| && front[i].0 == ks[a];
          assert front[i] == s[i];
        }
        var all := ks + [last.0];
        forall a, b | 0 <= a < b < |all| ensures rel(all[a], all[b]) {
          if b < |ks| {
            assert all[a] == ks[a] && all[b] == ks[b];
          }
        }
      } else {
        assert GroupKeys(s) == ks;
      }
    }
  }

  /** The same for the grouped rows. */
  lemma GroupByOrdered<K(!new), V>(s: seq<(K, V)>, rel: (K, K) -> bool)
    requires forall i, j :: 0 <= i < j < |s| ==> rel(s[i].0, s[j].0)
    ensures forall a, b :: 0 <= a < b < |GroupBy(s)| ==> rel(GroupBy(s)[a].0, GroupBy(s)[b].0)
  {
    GroupKeysOrdered(s, rel);
    var ks := GroupKeys(s);
    var g := GroupBy(s);
    assert forall a :: 0 <= a < |g| ==> g[a].0 == ks[a];
  }

  // ---- keyed sums (SUM(x) ... GROUP BY key, and Python's sum over a group) ----

  /** The (key, value) pair of each row, in row order. */
  function KeyedValues<T, K, V>(rows: seq<T>, key: T -> K, val: T -> V): seq<(K, V)>
  {
    if rows == [] then [] else KeyedValues(rows[..|rows| - 1], key, val) + [(key(rows[|rows| - 1]), val(rows[|rows| - 1]))]
  }

  /** Reference sum: the values of the rows whose key is `k`, added in row order. */
  function KeyTotal<T, K(==)>(rows: seq<T>, key: T -> K, val: T -> real, k: K): real
  {
    if rows == [] then 0.0
    else KeyTotal(rows[..|rows| - 1], key, val, k) + (if key(rows[|rows| - 1]) == k then val(rows[|rows| - 1]) else 0.0)
  }

  /** A key has pairs exactly when some row carries it. */
  lemma {:induction false} KeyedValuesKeys<T(!new), K(!new), V>(rows: seq<T>, key: T -> K, val: T -> V, k: K)
    ensures HasKey(KeyedValues(rows, key, val), k) <==> exists x :: x in rows && key(x) == k
  {
    if rows != [] {
      var front := rows[..|rows| - 1];
      var last := rows[|rows| - 1];
      KeyedValuesKeys(front, key, val, k);
      var pairs := KeyedValues(rows, key, val);
      var before := KeyedValues(front, key, val);
      assert pairs == before + [(key(last), val(last))];
      assert rows == front + [last];
      if HasKey(pairs, k) {
        var i :| 0 <= i < |pairs| && pairs[i].0 == k;
        if i == |pairs| - 1 {
          assert last in rows;
        } else {
          assert before[i] == pairs[i];
          var x :| x in front && key(x) == k;
          assert x in rows;
        }
      }
      if exists x :: x in rows && key(x) == k {
        var x :| x in rows && key(x) == k;
        if x == last {
          assert pairs[|pairs| - 1].0 == k;
        } else {
          assert x in front;
          var i :| 0 <= i < |before| && before[i].0 == k;
          assert pairs[i] == before[i];
        }
      }
    }
  }

  /** Adding up a key's group of pairs gives the reference sum. */
  lemma {:induction false} KeyedValuesSum<T(!new), K(!new)>(rows: seq<T>, key: T -> K, val: T -> real, k: K)
    ensures Sum(Select(KeyedValues(rows, key, val), k)) == KeyTotal(rows, key, val, k)
  {
    if rows != [] {
      var front := rows[..|rows| - 1];
      var last := rows[|rows| - 1];
      var before := KeyedValues(front, key, val);
      KeyedValuesSum(front, key, val, k);
      assert KeyedValues(rows, key, val) == before + [(key(last), val(last))];
      SelectSnoc(before, (key(last), val(last)), k);
      assert KeyTotal(rows, key, val, k) == KeyTotal(front, key, val, k) + (if key(last) == k then val(last) else 0.0);
      if key(last) == k {
        SumAppend(Select(before, k), val(last));
      } else {
        assert Select(KeyedValues(rows, key, val), k) == Select(before, k);
      }
    }
  }

  /** Reference count: the number of rows whose key is `k`. */
  function KeyCount<T, K(==)>(rows: seq<T>, key: T -> K, k: K): nat
  {
    if rows == [] then 0
    else KeyCount(rows[..|rows| - 1], key, k) + (if key(rows[|rows| - 1]) == k then 1 else 0)
  }

  /** A key's group holds one value per row with that key. */
  lemma {:induction false} KeyedValuesCount<T(!new), K(!new), V>(rows: seq<T>, key: T -> K, val: T -> V, k: K)
    ensures |Select(KeyedValues(rows, key, val), k)| == KeyCount(rows, key, k)
  {
    if rows != [] {
      var front := rows[..|rows| - 1];
      var last := rows[|rows| - 1];
      var before := KeyedValues(front, key, val);
      KeyedValuesCount(front, key, val, k);
      assert KeyedValues(rows, key, val) == before + [(key(last), val(last))];
      SelectSnoc(before, (key(last), val(last)), k);
    }
  }

  /** The values of `rows` under their keys, grouped: one group per key that
      occurs, in row order within the group, with one value per row of that key. */
  lemma GroupedRows<T(!new), K(!new), V>(rows: seq<T>, key: T -> K, val: T -> V, groups: seq<(K, seq<V>)>)
    requires groups == GroupBy(KeyedValues(rows, key, val))
    ensures forall i, j :: 0 <= i < j < |groups| ==> groups[i].0 != groups[j].0
    ensures Keys(groups) == set x | x in rows :: key(x)
    ensures forall i :: 0 <= i < |groups| ==> groups[i].1 == Select(KeyedValues(rows, key, val), groups[i].0)
    ensures forall i :: 0 <= i < |groups| ==> |groups[i].1| == KeyCount(rows, key, groups[i].0) > 0
  {
    var pairs := KeyedValues(rows, key, val);
    forall k ensures k in Keys(groups) <==> k in set x | x in rows :: key(x) {
      KeyedValuesKeys(rows, key, val, k);
      if k in Keys(groups) {
        var i :| 0 <= i < |groups| && groups[i].0 == k;
        assert HasKey(pairs, k);
      }
      if k in set x | x in rows :: key(x) {
        var p :| 0 <= p < |pairs| && pairs[p].0 == k;
        assert pairs[p] in pairs;
      }
    }
    forall i | 0 <= i < |groups|
      ensures |groups[i].1| == KeyCount(rows, key, groups[i].0)
    {
      KeyedValuesCount(rows, key, val, groups[i].0);
    }
  }

  /** The number of values over all groups. */
  function GroupedCount<K, V>(groups: seq<(K, seq<V>)>): nat
  {
    if groups == [] then 0 else GroupedCount(groups[..|groups| - 1]) + |groups[|groups| - 1].1|
  }

  lemma {:induction false} GroupedCountIsSizes<K(!new), V>(s: seq<(K, V)>, ks: seq<K>, groups: seq<(K, seq<V>)>)
    requires |groups| == |ks|
    requires forall i :: 0 <= i < |ks| ==> groups[i] == (ks[i], Select(s, ks[i]))
    ensures GroupedCount(groups) == GroupSizes(s, ks)
  {
    if ks != [] {
      GroupedCountIsSizes(s, ks[..|ks| - 1], groups[..|groups| - 1]);
    }
  }

  /** Grouping neither loses nor duplicates a row: the groups hold as many
      values as there are rows. */
  lemma GroupByCount<K(!new), V>(s: seq<(K, V)>)
    ensures GroupedCount(GroupBy(s)) == |s|
  {
    GroupedCountIsSizes(s, GroupKeys(s), GroupBy(s));
    GroupSizesTotal(s);
  }

  lemma {:induction false} KeyedValuesLength<T, K, V>(rows: seq<T>, key: T -> K, val: T -> V)
    ensures |KeyedValues(rows, key, val)| == |rows|
  {
    if rows != [] {
      KeyedValuesLength(rows[..|rows| - 1], key, val);
    }
  }

  /** The pair at each position is that row's key and value. */
  lemma {:induction false} KeyedValuesAt<T, K, V>(rows: seq<T>, key: T -> K, val: T -> V)
    ensures |KeyedValues(rows, key, val)| == |rows|
    ensures forall a :: 0 <= a < |rows| ==> KeyedValues(rows, key, val)[a] == (key(rows[a]), val(rows[a]))
  {
    if rows != [] {
      var front := rows[..|rows| - 1];
      KeyedValuesAt(front, key, val);
      forall a | 0 <= a < |front| ensures KeyedValues(rows, key, val)[a] == (key(rows[a]), val(rows[a])) {
        assert front[a] == rows[a];
      }
    }
  }
}
