/**
 * Python's stable sort by a key, as `sorted(xs, key=...)` and `xs.sort(key=...)`
 * use it: every key the program sorts by is an integer rank, or a rank and a
 * name compared as a tuple.
 */
module Sorting {

  /** A sort key: compared by `rank` first and then by `name`, as Python compares `(rank, name)`. */
  datatype SortKey = SortKey(rank: nat, name: string)

  /** Python's `a < b` on `str`: code point by code point, a proper prefix first. */
  predicate StrLess(a: string, b: string)
    decreases |a|
  {
    if a == [] then b != []
    else if b == [] then false
    else if a[0] != b[0] then a[0] < b[0]
    else StrLess(a[1..], b[1..])
  }

  lemma {:induction false} StrLessIrreflexive(a: string)
    ensures !StrLess(a, a)
    decreases |a|
  {
    if a != [] {
      StrLessIrreflexive(a[1..]);
    }
  }

  lemma {:induction false} StrLessTransitive(a: string, b: string, c: string)
    requires StrLess(a, b) && StrLess(b, c)
    ensures StrLess(a, c)
    decreases |a|
  {
    if a != [] && b != [] && c != [] && a[0] == b[0] && b[0] == c[0] {
      StrLessTransitive(a[1..], b[1..], c[1..]);
    }
  }

  lemma {:induction false} StrLessTotal(a: string, b: string)
    ensures a == b || StrLess(a, b) || StrLess(b, a)
    decreases |a|
  {
    if a != [] && b != [] && a[0] == b[0] {
      StrLessTotal(a[1..], b[1..]);
      if a[1..] == b[1..] {
        assert a == [a[0]] + a[1..] && b == [b[0]] + b[1..];
      }
    }
  }

  /** The strict order of sort keys. */
  predicate KeyLess(a: SortKey, b: SortKey) {
    a.rank < b.rank || (a.rank == b.rank && StrLess(a.name, b.name))
  }

  /** KeyLess is a strict total order. */
  lemma KeyLessOrder(a: SortKey, b: SortKey, c: SortKey)
    ensures !KeyLess(a, a)
    ensures KeyLess(a, b) && KeyLess(b, c) ==> KeyLess(a, c)
    ensures a == b || KeyLess(a, b) || KeyLess(b, a)
  {
    StrLessIrreflexive(a.name);
    if a.rank == b.rank == c.rank && StrLess(a.name, b.name) && StrLess(b.name, c.name) {
      StrLessTransitive(a.name, b.name, c.name);
    }
    StrLessTotal(a.name, b.name);
  }

  /** No element is followed by one whose key is strictly smaller. */
  ghost predicate SortedBy<T>(s: seq<T>, key: T -> SortKey) {
    forall i, j :: 0 <= i < j < |s| ==> !KeyLess(key(s[j]), key(s[i]))
  }

  /** The elements of `s` whose key is `k`, in their order in `s`. */
  function WithKey<T>(s: seq<T>, key: T -> SortKey, k: SortKey): seq<T>
  {
    if s == [] then []
    else (if key(s[0]) == k then [s[0]] else []) + WithKey(s[1..], key, k)
  }

  /** Places `x` after every element whose key is not greater than its own. */
  function Insert<T>(s: seq<T>, x: T, key: T -> SortKey): (r: seq<T>)
    ensures multiset(r) == multiset(s) + multiset{x}
  {
    if s == [] then [x]
    else if KeyLess(key(x), key(s[0])) then [x] + s
    else
      assert s == [s[0]] + s[1..];
      [s[0]] + Insert(s[1..], x, key)
  }

  /** Stable insertion sort: the value of Python's `sorted(xs, key=key)`. */
  function SortBy<T>(xs: seq<T>, key: T -> SortKey): (r: seq<T>)
    ensures multiset(r) == multiset(xs)
  {
    if xs == [] then []
    else
      assert xs == xs[..|xs| - 1] + [xs[|xs| - 1]];
      Insert(SortBy(xs[..|xs| - 1], key), xs[|xs| - 1], key)
  }

  lemma {:induction false} WithKeyAppend<T>(a: seq<T>, b: seq<T>, key: T -> SortKey, k: SortKey)
    ensures WithKey(a + b, key, k) == WithKey(a, key, k) + WithKey(b, key, k)
    decreases |a|
  {
    if a == [] {
      assert a + b == b;
    } else {
      assert (a + b)[0] == a[0] && (a + b)[1..] == a[1..] + b;
      WithKeyAppend(a[1..], b, key, k);
    }
  }

  lemma {:induction false} WithKeyAbsent<T>(s: seq<T>, key: T -> SortKey, k: SortKey)
    requires forall i :: 0 <= i < |s| ==> key(s[i]) != k
    ensures WithKey(s, key, k) == []
    decreases |s|
  {
    if s != [] {
      WithKeyAbsent(s[1..], key, k);
    }
  }

  /** In a sorted sequence, a key below the first one is below all of them. */
  lemma AllAbove<T>(s: seq<T>, key: T -> SortKey, x: T)
    requires SortedBy(s, key) && s != [] && KeyLess(key(x), key(s[0]))
    ensures forall i :: 0 <= i < |s| ==> KeyLess(key(x), key(s[i]))
  {
    forall i | 0 < i < |s| ensures KeyLess(key(x), key(s[i])) {
      KeyLessOrder(key(x), key(s[0]), key(s[i]));
      KeyLessOrder(key(s[0]), key(s[i]), key(x));
    }
  }

  lemma {:induction false} InsertSorted<T>(s: seq<T>, x: T, key: T -> SortKey)
    requires SortedBy(s, key)
    ensures SortedBy(Insert(s, x, key), key)
    decreases |s|
  {
    if s == [] {
    } else if KeyLess(key(x), key(s[0])) {
      var r := [x] + s;
      AllAbove(s, key, x);
      forall i, j | 0 <= i < j < |r| ensures !KeyLess(key(r[j]), key(r[i])) {
        if i == 0 {
          KeyLessOrder(key(x), key(s[j - 1]), key(x));
        }
      }
    } else {
      var t := Insert(s[1..], x, key);
      var r := [s[0]] + t;
      InsertSorted(s[1..], x, key);
      forall j | 0 <= j < |t| ensures !KeyLess(key(t[j]), key(s[0])) {
        assert t[j] in multiset(t);
        if t[j] != x {
          assert t[j] in multiset(s[1..]);
          var m :| 0 <= m < |s[1..]| && s[1..][m] == t[j];
          assert s[m + 1] == t[j];
        }
      }
    }
  }

  lemma WithKeyCons<T>(x: T, s: seq<T>, key: T -> SortKey, k: SortKey)
    ensures WithKey([x] + s, key, k) == (if key(x) == k then [x] else []) + WithKey(s, key, k)
  {
    assert ([x] + s)[1..] == s;
  }

  lemma SortedTail<T>(s: seq<T>, key: T -> SortKey)
    requires SortedBy(s, key) && s != []
    ensures SortedBy(s[1..], key)
  {
    var rest := s[1..];
    forall i, j | 0 <= i < j < |rest| ensures !KeyLess(key(rest[j]), key(rest[i])) {
      assert rest[i] == s[i + 1] && rest[j] == s[j + 1];
    }
  }

  lemma {:induction false} WithKeyInsert<T>(s: seq<T>, x: T, key: T -> SortKey, k: SortKey)
    requires SortedBy(s, key)
    ensures WithKey(Insert(s, x, key), key, k) == WithKey(s, key, k) + (if key(x) == k then [x] else [])
    decreases |s|
  {
    if s == [] {
      WithKeyCons(x, [], key, k);
    } else if KeyLess(key(x), key(s[0])) {
      WithKeyCons(x, s, key, k);
      if key(x) == k {
        AllAbove(s, key, x);
        forall i | 0 <= i < |s| ensures key(s[i]) != k {
          KeyLessOrder(key(x), key(x), key(x));
        }
        WithKeyAbsent(s, key, k);
      }
    } else {
      var head, rest := s[0], s[1..];
      var t := Insert(rest, x, key);
      var h := if key(head) == k then [head] else [];
      var tail := if key(x) == k then [x] else [];
      assert Insert(s, x, key) == [head] + t;
      SortedTail(s, key);
      WithKeyInsert(rest, x, key, k);
      WithKeyCons(head, t, key, k);
      assert s == [head] + rest;
      WithKeyCons(head, rest, key, k);
      assert h + (WithKey(rest, key, k) + tail) == (h + WithKey(rest, key, k)) + tail;
    }
  }

  lemma {:induction false} SortBySorted<T>(xs: seq<T>, key: T -> SortKey)
    ensures SortedBy(SortBy(xs, key), key)
    decreases |xs|
  {
    if xs != [] {
      SortBySorted(xs[..|xs| - 1], key);
      InsertSorted(SortBy(xs[..|xs| - 1], key), xs[|xs| - 1], key);
    }
  }

  lemma {:induction false} SortByStable<T>(xs: seq<T>, key: T -> SortKey, k: SortKey)
    ensures WithKey(SortBy(xs, key), key, k) == WithKey(xs, key, k)
    decreases |xs|
  {
    if xs != [] {
      SortByStable(xs[..|xs| - 1], key, k);
      SortByStableStep(xs, key, k);
    }
  }

  /** One insertion keeps the elements of every key in their order. */
  lemma SortByStableStep<T>(xs: seq<T>, key: T -> SortKey, k: SortKey)
    requires xs != []
    requires WithKey(SortBy(xs[..|xs| - 1], key), key, k) == WithKey(xs[..|xs| - 1], key, k)
    ensures WithKey(SortBy(xs, key), key, k) == WithKey(xs, key, k)
  {
    var init, last := xs[..|xs| - 1], xs[|xs| - 1];
    SplitLast(xs);
    SortBySorted(init, key);
    var sorted := SortBy(init, key);
    assert SortBy(xs, key) == Insert(sorted, last, key);
    WithKeyInsert(sorted, last, key, k);
    assert [last][1..] == [];
    assert WithKey([last], key, k) == if key(last) == k then [last] else [];
    WithKeyAppend(init, [last], key, k);
  }

  /**
   * The sort is a permutation (the ensures of SortBy), it is ordered by key, and
   * it is stable: the elements sharing a key keep their relative order.
   */
  lemma SortByCorrect<T>(xs: seq<T>, key: T -> SortKey)
    ensures SortedBy(SortBy(xs, key), key)
    ensures forall k :: WithKey(SortBy(xs, key), key, k) == WithKey(xs, key, k)
  {
    SortBySorted(xs, key);
    forall k ensures WithKey(SortBy(xs, key), key, k) == WithKey(xs, key, k) {
      SortByStable(xs, key, k);
    }
  }

  lemma {:induction false} WithKeyAll<T>(s: seq<T>, key: T -> SortKey, k: SortKey)
    requires forall i :: 0 <= i < |s| ==> key(s[i]) == k
    ensures WithKey(s, key, k) == s
    decreases |s|
  {
    if s != [] {
      WithKeyAll(s[1..], key, k);
      assert s == [s[0]] + s[1..];
    }
  }

  /** A sorted sequence over two keys is the elements of the smaller key followed by those of the larger. */
  lemma {:induction false} SortedTwoKeys<T>(s: seq<T>, key: T -> SortKey, k0: SortKey, k1: SortKey)
    requires SortedBy(s, key) && KeyLess(k0, k1)
    requires forall i :: 0 <= i < |s| ==> key(s[i]) == k0 || key(s[i]) == k1
    ensures s == WithKey(s, key, k0) + WithKey(s, key, k1)
    decreases |s|
  {
    if s != [] {
      KeyLessOrder(k0, k1, k0);
      if key(s[0]) == k0 {
        var rest := s[1..];
        assert SortedBy(rest, key) by {
          forall i, j | 0 <= i < j < |rest| ensures !KeyLess(key(rest[j]), key(rest[i])) {
            assert rest[i] == s[i + 1] && rest[j] == s[j + 1];
          }
        }
        SortedTwoKeys(rest, key, k0, k1);
        assert s == [s[0]] + rest;
      } else {
        forall i | 0 <= i < |s| ensures key(s[i]) == k1 {
        }
        WithKeyAbsent(s, key, k0);
        WithKeyAll(s, key, k1);
      }
    }
  }

  lemma SplitLast<T>(xs: seq<T>)
    requires xs != []
    ensures xs == xs[..|xs| - 1] + [xs[|xs| - 1]]
  {
  }
}
