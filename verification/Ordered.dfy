/**
  The iteration order of `std::map`: keys in ascending order. Stated for any strict total order,
  with the two orders the program uses.
 */
module Ordered {

  ghost predicate StrictTotal<T(!new)>(less: (T, T) -> bool) {
    && (forall a :: !less(a, a))
    && (forall a, b, c :: less(a, b) && less(b, c) ==> less(a, c))
    && (forall a, b :: a != b ==> less(a, b) || less(b, a))
  }

  ghost predicate Ascending<T(!new)>(less: (T, T) -> bool, s: seq<T>) {
    forall i, j :: 0 <= i < j < |s| ==> less(s[i], s[j])
  }

  ghost predicate IsLeast<T(!new)>(less: (T, T) -> bool, m: T, keys: set<T>) {
    m in keys && forall k :: k in keys && k != m ==> less(m, k)
  }

  lemma LeastExists<T(!new)>(less: (T, T) -> bool, keys: set<T>)
    requires StrictTotal(less) && keys != {}
    ensures exists m :: IsLeast(less, m, keys)
    decreases |keys|
  {
    var k :| k in keys;
    var rest := keys - {k};
    if rest == {} {
      assert keys == {k};
      assert IsLeast(less, k, keys);
    } else {
      LeastExists(less, rest);
      var m :| IsLeast(less, m, rest);
      var least := if less(k, m) then k else m;
      forall j | j in keys && j != least ensures less(least, j) {
        assert j == k || j in rest;
      }
      assert IsLeast(less, least, keys);
    }
  }

  /** The keys of a set in ascending order. */
  ghost function SortedKeys<T(!new)>(less: (T, T) -> bool, keys: set<T>): (r: seq<T>)
    requires StrictTotal(less)
    ensures |r| == |keys| && forall k :: k in r <==> k in keys
    decreases |keys|
  {
    if keys == {} then []
    else
      LeastExists(less, keys);
      var m :| IsLeast(less, m, keys);
      [m] + SortedKeys(less, keys - {m})
  }

  /** Iterating meets the least key first, then the others in order. */
  lemma LeastComesFirst<T(!new)>(less: (T, T) -> bool, m: T, keys: set<T>)
    requires StrictTotal(less) && IsLeast(less, m, keys)
    ensures SortedKeys(less, keys) == [m] + SortedKeys(less, keys - {m})
  {
    forall k | IsLeast(less, k, keys) ensures k == m {
      assert k == m || (less(m, k) && less(k, m));
    }
  }

  lemma {:induction false} SortedKeysAscend<T(!new)>(less: (T, T) -> bool, keys: set<T>)
    requires StrictTotal(less)
    ensures Ascending(less, SortedKeys(less, keys))
    decreases |keys|
  {
    if keys != {} {
      LeastExists(less, keys);
      var m :| IsLeast(less, m, keys);
      LeastComesFirst(less, m, keys);
      var rest := SortedKeys(less, keys - {m});
      SortedKeysAscend(less, keys - {m});
      forall k | k in rest ensures less(m, k) {
        assert k in keys - {m};
      }
      PrependAscends(less, m, rest);
    }
  }

  lemma PrependAscends<T(!new)>(less: (T, T) -> bool, m: T, rest: seq<T>)
    requires Ascending(less, rest) && forall k :: k in rest ==> less(m, k)
    ensures Ascending(less, [m] + rest)
  {
    forall i, j | 0 <= i < j < 1 + |rest| ensures less(([m] + rest)[i], ([m] + rest)[j]) {
      assert rest[j - 1] in rest;
    }
  }

  /** There is only one ascending listing of a set. */
  lemma {:induction false} SortedKeysUnique<T(!new)>(less: (T, T) -> bool, s: seq<T>, keys: set<T>)
    requires StrictTotal(less) && Ascending(less, s)
    requires forall k :: k in s <==> k in keys
    ensures s == SortedKeys(less, keys)
    decreases |s|
  {
    if s == [] {
      assert keys == {};
    } else {
      var m, rest := s[0], s[1..];
      forall k | k in keys && k != m ensures less(m, k) {
        assert k in s;
      }
      assert IsLeast(less, m, keys);
      assert m !in rest by {
        forall i | 0 <= i < |rest| ensures rest[i] != m {
          assert less(s[0], s[i + 1]);
        }
      }
      assert forall k :: k in s <==> k == m || k in rest;
      assert Ascending(less, rest) by {
        forall i, j | 0 <= i < j < |rest| ensures less(rest[i], rest[j]) {
          assert less(s[i + 1], s[j + 1]);
        }
      }
      SortedKeysUnique(less, rest, keys - {m});
      LeastComesFirst(less, m, keys);
    }
  }

  /** The values of the listed keys, in that order. */
  function ValuesAt<K, V>(m: map<K, V>, keys: seq<K>): (r: seq<V>)
    requires forall k :: k in keys ==> k in m
    ensures |r| == |keys| && forall i :: 0 <= i < |keys| ==> r[i] == m[keys[i]]
  {
    if keys == [] then [] else [m[keys[0]]] + ValuesAt(m, keys[1..])
  }

  /** The values of some keys of a map, in the order of the keys. */
  ghost function SortedPart<K(!new), V>(less: (K, K) -> bool, m: map<K, V>, keys: set<K>): (r: seq<V>)
    requires StrictTotal(less) && keys <= m.Keys
    ensures |r| == |keys|
  {
    ValuesAt(m, SortedKeys(less, keys))
  }

  /** The values of a map, in the order of its keys. */
  ghost function SortedValues<K(!new), V>(less: (K, K) -> bool, m: map<K, V>): (r: seq<V>)
    requires StrictTotal(less)
    ensures |r| == |m|
  {
    SortedPart(less, m, m.Keys)
  }

  /** One iteration over a map: the value of the least key, then the values of the others. */
  lemma PartStep<K(!new), V>(less: (K, K) -> bool, m: map<K, V>, keys: set<K>, key: K)
    requires StrictTotal(less) && keys <= m.Keys && IsLeast(less, key, keys)
    ensures SortedPart(less, m, keys) == [m[key]] + SortedPart(less, m, keys - {key})
  {
    LeastComesFirst(less, key, keys);
    var more := SortedKeys(less, keys - {key});
    assert ([key] + more)[1..] == more;
  }

  // ---- The two orders ----

  predicate NatLess(a: nat, b: nat) {
    a < b
  }

  lemma NatLessIsTotal()
    ensures StrictTotal(NatLess)
  {}

  /** The order of `std::string`: lexicographic. */
  predicate StringLess(a: string, b: string) {
    b != "" && (a == "" || a[0] < b[0] || (a[0] == b[0] && StringLess(a[1..], b[1..])))
  }

  lemma {:induction false} StringLessTransitive(a: string, b: string, c: string)
    requires StringLess(a, b) && StringLess(b, c)
    ensures StringLess(a, c)
  {
    if a != "" && a[0] == b[0] == c[0] {
      StringLessTransitive(a[1..], b[1..], c[1..]);
    }
  }

  lemma {:induction false} StringLessConnected(a: string, b: string)
    ensures !StringLess(a, a)
    ensures a != b ==> StringLess(a, b) || StringLess(b, a)
  {
    if a != "" {
      StringLessConnected(a[1..], if b == "" then "" else b[1..]);
      if b != "" && a[0] == b[0] && a[1..] == b[1..] {
        assert a == [a[0]] + a[1..] == b;
      }
    }
  }

  lemma StringLessIsTotal()
    ensures StrictTotal(StringLess)
  {
    forall a, b { StringLessConnected(a, b); }
    forall a, b, c | StringLess(a, b) && StringLess(b, c) { StringLessTransitive(a, b, c); }
  }
}
