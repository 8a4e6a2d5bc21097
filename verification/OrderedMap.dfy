/** Ordered maps keyed by strings, as far as path lookups and prefix ranges need them. */
module OrderedMaps {
  import opened Wrappers

  // Lexicographic order of keys.
  predicate Before(a: string, b: string) {
    b != "" && (a == "" || a[0] < b[0] || (a[0] == b[0] && Before(a[1..], b[1..])))
  }

  lemma {:induction false} BeforeTransitive(a: string, b: string, c: string)
    requires Before(a, b) && Before(b, c)
    ensures Before(a, c)
    decreases |a|
  {
    if a != "" && a[0] == b[0] && b[0] == c[0] {
      BeforeTransitive(a[1..], b[1..], c[1..]);
    }
  }

  lemma {:induction false} BeforeTotal(a: string, b: string)
    ensures Before(a, b) || a == b || Before(b, a)
    ensures !(Before(a, b) && Before(b, a)) && !Before(a, a)
    decreases |a|
  {
    if a != "" && b != "" {
      BeforeTotal(a[1..], b[1..]);
      if a[1..] == b[1..] && a[0] == b[0] { assert a == [a[0]] + a[1..] && b == [b[0]] + b[1..]; }
    }
    if a != "" {
      BeforeTotal(a[1..], a[1..]);
    }
  }

  /** Keys with a common prefix follow the prefix and are consecutive. */
  lemma {:induction false} PrefixFirst(prefix: string, key: string)
    requires prefix <= key
    ensures prefix == key || Before(prefix, key)
    decreases |prefix|
  {
    if prefix == "" {
    } else {
      PrefixFirst(prefix[1..], key[1..]);
      if prefix[1..] == key[1..] { assert prefix == [prefix[0]] + prefix[1..] && key == [key[0]] + key[1..]; }
    }
  }

  lemma {:induction false} PrefixConvex(prefix: string, middle: string, last: string)
    requires prefix <= last && !Before(middle, prefix) && Before(middle, last)
    ensures prefix <= middle
    decreases |prefix|
  {
    if prefix != "" {
      PrefixConvex(prefix[1..], middle[1..], last[1..]);
      assert prefix == [prefix[0]] + prefix[1..] && middle == [middle[0]] + middle[1..];
    }
  }

  // ----- sorted entries

  ghost predicate Sorted<V>(entries: seq<(string, V)>) {
    forall i, j | 0 <= i < j < |entries| :: Before(entries[i].0, entries[j].0)
  }

  function Find<V>(entries: seq<(string, V)>, key: string): Option<V> {
    if entries == [] then None
    else if entries[0].0 == key then Some(entries[0].1)
    else Find(entries[1..], key)
  }

  function Insert<V>(entries: seq<(string, V)>, key: string, value: V): seq<(string, V)> {
    if entries == [] || Before(key, entries[0].0) then [(key, value)] + entries
    else if entries[0].0 == key then [(key, value)] + entries[1..]
    else [entries[0]] + Insert(entries[1..], key, value)
  }

  function Delete<V>(entries: seq<(string, V)>, key: string): seq<(string, V)> {
    if entries == [] then []
    else if entries[0].0 == key then entries[1..]
    else [entries[0]] + Delete(entries[1..], key)
  }

  lemma {:induction false} FindAbsent<V>(entries: seq<(string, V)>, key: string)
    requires forall i | 0 <= i < |entries| :: entries[i].0 != key
    ensures Find(entries, key).None?
    decreases |entries|
  {
    if entries != [] { FindAbsent(entries[1..], key); }
  }

  lemma {:induction false} FindIndex<V>(entries: seq<(string, V)>, key: string)
    ensures Find(entries, key).Some? <==> exists i :: 0 <= i < |entries| && entries[i].0 == key
    ensures Find(entries, key).Some? ==> exists i :: 0 <= i < |entries| && entries[i] == (key, Find(entries, key).value)
    decreases |entries|
  {
    if entries != [] && entries[0].0 != key {
      FindIndex(entries[1..], key);
      if Find(entries[1..], key).Some? {
        var i :| 0 <= i < |entries[1..]| && entries[1..][i] == (key, Find(entries, key).value);
        assert entries[i + 1] == (key, Find(entries, key).value);
      }
      if i :| 0 <= i < |entries| && entries[i].0 == key {
        assert entries[1..][i - 1].0 == key;
      }
    }
  }

  lemma TailSorted<V>(entries: seq<(string, V)>)
    requires Sorted(entries) && entries != []
    ensures Sorted(entries[1..])
    ensures forall i | 0 <= i < |entries[1..]| :: Before(entries[0].0, entries[1..][i].0)
  {
    forall i, j | 0 <= i < j < |entries[1..]| ensures Before(entries[1..][i].0, entries[1..][j].0) {
      assert Before(entries[i + 1].0, entries[j + 1].0);
    }
    forall i | 0 <= i < |entries[1..]| ensures Before(entries[0].0, entries[1..][i].0) {
      assert Before(entries[0].0, entries[i + 1].0);
    }
  }

  lemma ConsSorted<V>(first: (string, V), rest: seq<(string, V)>)
    requires Sorted(rest) && forall i | 0 <= i < |rest| :: Before(first.0, rest[i].0)
    ensures Sorted([first] + rest)
  {}

  // A key below every other is found nowhere among them.
  lemma BelowAbsent<V>(rest: seq<(string, V)>, key: string)
    requires forall i | 0 <= i < |rest| :: Before(key, rest[i].0)
    ensures Find(rest, key).None?
  {
    forall i | 0 <= i < |rest| ensures rest[i].0 != key { BeforeTotal(key, key); }
    FindAbsent(rest, key);
  }

  lemma {:induction false} InsertFind<V>(entries: seq<(string, V)>, key: string, value: V, other: string)
    ensures Find(Insert(entries, key, value), other) == if other == key then Some(value) else Find(entries, other)
    decreases |entries|
  {
    var after := Insert(entries, key, value);
    if entries == [] || Before(key, entries[0].0) {
      assert after[1..] == entries;
    } else if entries[0].0 == key {
      assert after[1..] == entries[1..];
    } else {
      InsertFind(entries[1..], key, value, other);
      assert after[1..] == Insert(entries[1..], key, value);
    }
  }

  lemma {:induction false} InsertSorted<V>(entries: seq<(string, V)>, key: string, value: V, below: string)
    requires Sorted(entries)
    ensures Sorted(Insert(entries, key, value))
    ensures Before(below, key) && (forall i | 0 <= i < |entries| :: Before(below, entries[i].0)) ==>
              forall i | 0 <= i < |Insert(entries, key, value)| :: Before(below, Insert(entries, key, value)[i].0)
    decreases |entries|
  {
    if entries == [] {
    } else if Before(key, entries[0].0) {
      forall i | 0 <= i < |entries| ensures Before(key, entries[i].0) {
        if i > 0 { BeforeTransitive(key, entries[0].0, entries[i].0); }
      }
      ConsSorted((key, value), entries);
    } else {
      TailSorted(entries);
      if entries[0].0 == key {
        ConsSorted((key, value), entries[1..]);
      } else {
        BeforeTotal(key, entries[0].0);
        InsertSorted(entries[1..], key, value, entries[0].0);
        ConsSorted(entries[0], Insert(entries[1..], key, value));
        InsertSorted(entries[1..], key, value, below);
        if forall i | 0 <= i < |entries| :: Before(below, entries[i].0) {
          forall i | 0 <= i < |entries[1..]| ensures Before(below, entries[1..][i].0) {
            assert Before(below, entries[i + 1].0);
          }
        }
      }
    }
  }

  lemma {:induction false} DeleteFind<V>(entries: seq<(string, V)>, key: string, other: string)
    requires Sorted(entries)
    ensures Find(Delete(entries, key), other) == if other == key then None else Find(entries, other)
    decreases |entries|
  {
    if entries != [] {
      TailSorted(entries);
      if entries[0].0 == key {
        BelowAbsent(entries[1..], key);
      } else {
        DeleteFind(entries[1..], key, other);
        assert Delete(entries, key)[1..] == Delete(entries[1..], key);
      }
    }
  }

  lemma {:induction false} DeleteSorted<V>(entries: seq<(string, V)>, key: string)
    requires Sorted(entries)
    ensures Sorted(Delete(entries, key))
    ensures forall e <- Delete(entries, key) :: e in entries
    decreases |entries|
  {
    if entries != [] {
      TailSorted(entries);
      if entries[0].0 != key {
        DeleteSorted(entries[1..], key);
        forall i | 0 <= i < |Delete(entries[1..], key)| ensures Before(entries[0].0, Delete(entries[1..], key)[i].0) {
          assert Delete(entries[1..], key)[i] in entries[1..];
        }
        ConsSorted(entries[0], Delete(entries[1..], key));
      }
    }
  }
}
