/** A model of the `HashMap`s the codecs read and build. Iterating over a
    hash map yields each (key, value) pair once, in an order that is not
    defined; inserting a key that is already present overwrites its value.
    An iteration order is modelled as any duplicate-free sequence of pairs
    whose set is the map's set of items, so every statement made about an
    encoding holds for whichever order the map happens to use. */
module HashMaps {

  /** The map obtained by inserting `entries` into an empty map, first to
      last: a later entry for a key overwrites an earlier one. */
  function MapOf<K, V>(entries: seq<(K, V)>): map<K, V>
  {
    if entries == [] then map[]
    else
      var last := entries[|entries| - 1];
      MapOf(entries[..|entries| - 1])[last.0 := last.1]
  }

  /** Inserting one more pair. */
  lemma MapOfSnoc<K, V>(entries: seq<(K, V)>, x: (K, V))
    ensures MapOf(entries + [x]) == MapOf(entries)[x.0 := x.1]
  {
    assert (entries + [x])[..|entries|] == entries;
  }

  ghost predicate DistinctKeys<K, V>(entries: seq<(K, V)>)
  {
    forall i, j | 0 <= i < j < |entries| :: entries[i].0 != entries[j].0
  }

  /** `entries` is one order in which iterating over `m` can yield its pairs. */
  ghost predicate IsIterationOf<K, V>(entries: seq<(K, V)>, m: map<K, V>)
  {
    DistinctKeys(entries) && (set e | e in entries) == m.Items
  }

  /** The keys of `MapOf(entries)` are exactly the keys that occur in
      `entries`, and each maps to the value of its LAST occurrence. */
  lemma {:induction false} MapOfLastWins<K, V>(entries: seq<(K, V)>, i: nat)
    requires i < |entries|
    requires forall j | i < j < |entries| :: entries[j].0 != entries[i].0
    ensures entries[i].0 in MapOf(entries)
    ensures MapOf(entries)[entries[i].0] == entries[i].1
  {
    var n := |entries| - 1;
    if i < n {
      MapOfLastWins(entries[..n], i);
    }
  }

  lemma {:induction false} MapOfKeys<K, V>(entries: seq<(K, V)>, k: K)
    ensures k in MapOf(entries) <==> exists i | 0 <= i < |entries| :: entries[i].0 == k
  {
    if entries != [] {
      var n := |entries| - 1;
      MapOfKeys(entries[..n], k);
      if k in MapOf(entries[..n]) {
        var i :| 0 <= i < n && entries[..n][i].0 == k;
        assert entries[i].0 == k;
      }
      if i :| 0 <= i < |entries| && entries[i].0 == k {
        if i < n {
          assert entries[..n][i].0 == k;
        }
      }
    }
  }

  /** With distinct keys, `MapOf` holds exactly the pairs of `entries`, one
      key per entry. */
  lemma {:induction false} MapOfDistinct<K, V>(entries: seq<(K, V)>)
    requires DistinctKeys(entries)
    ensures MapOf(entries).Items == set e | e in entries
    ensures |MapOf(entries)| == |entries|
  {
    if entries != [] {
      var n := |entries| - 1;
      var last := entries[n];
      var prefix := entries[..n];
      assert DistinctKeys(prefix);
      MapOfDistinct(prefix);
      forall i | 0 <= i < n
        ensures prefix[i].0 != last.0
      {
        assert prefix[i] == entries[i];
      }
      MapOfKeys(prefix, last.0);
      assert last.0 !in MapOf(prefix);
      var m := MapOf(entries);
      assert m == MapOf(prefix)[last.0 := last.1];
      assert entries == prefix + [last];
      var pairs := set e | e in entries;
      forall e | e in m.Items
        ensures e in pairs
      {
        assert e.0 in m && m[e.0] == e.1;
        if e.0 == last.0 {
          assert e == last;
        } else {
          assert e in MapOf(prefix).Items;
        }
      }
      forall e | e in pairs
        ensures e in m.Items
      {
        if e != last {
          assert e in prefix;
          assert e.0 != last.0 by {
            var i :| 0 <= i < n && prefix[i] == e;
            assert entries[i].0 != entries[n].0;
          }
          assert e in MapOf(prefix).Items;
        }
        assert e.0 in m && m[e.0] == e.1;
      }
      assert m.Items == pairs;
      assert m.Keys == MapOf(prefix).Keys + {last.0};
    }
  }

  /** Inserting the pairs of any iteration of `m` rebuilds `m`, and an
      iteration has exactly one entry per key. */
  lemma IterationRebuildsMap<K, V>(entries: seq<(K, V)>, m: map<K, V>)
    requires IsIterationOf(entries, m)
    ensures MapOf(entries) == m
    ensures |entries| == |m|
  {
    MapOfDistinct(entries);
    var r := MapOf(entries);
    assert r.Items == m.Items;
    forall k | k in r
      ensures k in m && m[k] == r[k]
    {
      assert (k, r[k]) in r.Items;
    }
    forall k | k in m
      ensures k in r
    {
      assert (k, m[k]) in m.Items;
    }
  }

  /** Every map can be iterated: some iteration order exists. */
  lemma {:induction false} IterationExists<K, V>(m: map<K, V>) returns (entries: seq<(K, V)>)
    ensures IsIterationOf(entries, m)
    decreases |m|
  {
    if |m| == 0 {
      entries := [];
      assert m.Items == {};
    } else {
      var k :| k in m;
      var rest := m - {k};
      var prefix := IterationExists(rest);
      entries := prefix + [(k, m[k])];
      forall i, j | 0 <= i < j < |entries|
        ensures entries[i].0 != entries[j].0
      {
        if j == |prefix| {
          assert prefix[i] in rest.Items;
        }
      }
      var pairs := set e | e in entries;
      forall e | e in m.Items
        ensures e in pairs
      {
        assert e.0 in m && m[e.0] == e.1;
        if e.0 != k {
          assert e in rest.Items;
        } else {
          assert e == (k, m[k]);
        }
      }
      forall e | e in pairs
        ensures e in m.Items
      {
        if e in prefix {
          assert e in rest.Items;
          assert e.0 in rest && rest[e.0] == e.1;
        }
      }
      assert pairs == m.Items;
    }
  }
}
