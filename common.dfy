/** Shared building blocks: an optional value for nullable table cells, the
    code-point order on strings that Python's `sorted` and `list.sort` use,
    one insertion sort by a string key, and first-occurrence deduplication. */
module Common {

  datatype Option<+T> = None | Some(value: T)

  /** Lexicographic order on strings, comparing characters by code point;
      a proper prefix sorts first. */
  predicate StrLt(a: string, b: string)
    decreases |a|
  {
    if |a| == 0 then |b| > 0
    else if |b| == 0 then false
    else if a[0] == b[0] then StrLt(a[1..], b[1..])
    else a[0] < b[0]
  }

  predicate StrLe(a: string, b: string) {
    a == b || StrLt(a, b)
  }

  lemma {:induction false} StrLtIrreflexive(a: string)
    ensures !StrLt(a, a)
    decreases |a|
  {
    if |a| > 0 { StrLtIrreflexive(a[1..]); }
  }

  lemma {:induction false} StrLtTransitive(a: string, b: string, c: string)
    requires StrLt(a, b) && StrLt(b, c)
    ensures StrLt(a, c)
    decreases |a|
  {
    if |a| > 0 && |b| > 0 && |c| > 0 && a[0] == b[0] && b[0] == c[0] {
      StrLtTransitive(a[1..], b[1..], c[1..]);
    }
  }

  lemma {:induction false} StrLtTotal(a: string, b: string)
    requires a != b
    ensures StrLt(a, b) || StrLt(b, a)
    decreases |a|
  {
    if |a| > 0 && |b| > 0 && a[0] == b[0] {
      assert a == [a[0]] + a[1..] && b == [b[0]] + b[1..];
      StrLtTotal(a[1..], b[1..]);
    }
  }

  lemma StrLtAsymmetric(a: string, b: string)
    requires StrLt(a, b)
    ensures !StrLt(b, a)
  {
    if StrLt(b, a) { StrLtTransitive(a, b, a); StrLtIrreflexive(a); }
  }

  lemma StrLeOfNotLt(a: string, b: string)
    requires !StrLt(a, b)
    ensures StrLe(b, a)
  {
    if a != b { StrLtTotal(a, b); }
  }

  lemma StrLeTransitive(a: string, b: string, c: string)
    requires StrLe(a, b) && StrLe(b, c)
    ensures StrLe(a, c)
  {
    if a != b && b != c { StrLtTransitive(a, b, c); }
  }

  /** Keys ascending, ties allowed. */
  ghost predicate SortedBy<T>(s: seq<T>, key: T -> string) {
    forall i, j :: 0 <= i < j < |s| ==> StrLe(key(s[i]), key(s[j]))
  }

  /** Keys strictly ascending: sorted and no key repeated. */
  ghost predicate StrictlySortedBy<T>(s: seq<T>, key: T -> string) {
    forall i, j :: 0 <= i < j < |s| ==> StrLt(key(s[i]), key(s[j]))
  }

  ghost predicate NoDup<T>(s: seq<T>) {
    forall i, j :: 0 <= i < j < |s| ==> s[i] != s[j]
  }

  function Keys<T>(s: seq<T>, key: T -> string): (r: seq<string>)
    ensures |r| == |s| && forall i :: 0 <= i < |s| ==> r[i] == key(s[i])
  {
    if |s| == 0 then [] else [key(s[0])] + Keys(s[1..], key)
  }

  /** Places `x` after the elements whose key is smaller than its own and
      before the first one whose key is not, so that `x` precedes the
      elements of equal key. */
  function InsertByKey<T>(x: T, s: seq<T>, key: T -> string): (r: seq<T>)
    requires SortedBy(s, key)
    ensures multiset(r) == multiset(s) + multiset{x}
    ensures SortedBy(r, key)
    decreases |s|
  {
    if |s| == 0 then [x]
    else if StrLt(key(s[0]), key(x)) then
      var tail := InsertByKey(x, s[1..], key);
      assert multiset(s) == multiset{s[0]} + multiset(s[1..]) by { assert s == [s[0]] + s[1..]; }
      InsertSortedCons(s[0], tail, s[1..], x, key);
      [s[0]] + tail
    else
      StrLeOfNotLt(key(s[0]), key(x));
      forall j | 0 <= j < |s| ensures StrLe(key(x), key(s[j])) {
        if j > 0 { StrLeTransitive(key(x), key(s[0]), key(s[j])); }
      }
      [x] + s
  }

  lemma InsertSortedCons<T>(h: T, tail: seq<T>, rest: seq<T>, x: T, key: T -> string)
    requires SortedBy(tail, key)
    requires multiset(tail) == multiset(rest) + multiset{x}
    requires forall j :: 0 <= j < |rest| ==> StrLe(key(h), key(rest[j]))
    requires StrLe(key(h), key(x))
    ensures SortedBy([h] + tail, key)
  {
    forall j | 0 <= j < |tail| ensures StrLe(key(h), key(tail[j])) {
      assert tail[j] in multiset(tail);
      if tail[j] != x {
        assert tail[j] in multiset(rest);
        var k :| 0 <= k < |rest| && rest[k] == tail[j];
      }
    }
  }

  /** Insertion sort by `key`: the result is a permutation of the input
      and its keys ascend; `SortByKeyStable` shows that elements of equal
      key keep their input order, as Python's `list.sort` does. */
  function SortByKey<T>(s: seq<T>, key: T -> string): (r: seq<T>)
    ensures multiset(r) == multiset(s)
    ensures SortedBy(r, key)
  {
    if |s| == 0 then []
    else
      assert s == [s[0]] + s[1..];
      InsertByKey(s[0], SortByKey(s[1..], key), key)
  }

  /** The elements of `s` whose key is `k`, in their order. */
  function WithKey<T>(s: seq<T>, key: T -> string, k: string): seq<T> {
    if |s| == 0 then [] else (if key(s[0]) == k then [s[0]] else []) + WithKey(s[1..], key, k)
  }

  lemma WithKeyCons<T>(h: T, t: seq<T>, key: T -> string, k: string)
    ensures WithKey([h] + t, key, k) == (if key(h) == k then [h] else []) + WithKey(t, key, k)
  {
    assert ([h] + t)[0] == h && ([h] + t)[1..] == t;
  }

  lemma {:induction false} InsertWithKey<T>(x: T, s: seq<T>, key: T -> string, k: string)
    requires SortedBy(s, key)
    ensures WithKey(InsertByKey(x, s, key), key, k) == (if key(x) == k then [x] else []) + WithKey(s, key, k)
    decreases |s|
  {
    if |s| == 0 {
      WithKeyCons(x, [], key, k);
      assert [x] + [] == [x];
    } else if StrLt(key(s[0]), key(x)) {
      var tail := InsertByKey(x, s[1..], key);
      var mine: seq<T> := if key(s[0]) == k then [s[0]] else [];
      var its: seq<T> := if key(x) == k then [x] else [];
      var rest := WithKey(s[1..], key, k);
      assert InsertByKey(x, s, key) == [s[0]] + tail;
      WithKeyCons(s[0], tail, key, k);
      InsertWithKey(x, s[1..], key, k);
      assert WithKey(tail, key, k) == its + rest;
      assert WithKey(s, key, k) == mine + rest;
      if key(s[0]) == k && key(x) == k { StrLtIrreflexive(k); }
      assert mine == [] || its == [];
      assert mine + (its + rest) == its + (mine + rest);
    } else {
      assert InsertByKey(x, s, key) == [x] + s;
      WithKeyCons(x, s, key, k);
    }
  }

  /** Stability: for every key, the elements with that key come out of the
      sort in the order they went in. */
  lemma {:induction false} SortByKeyStable<T>(s: seq<T>, key: T -> string, k: string)
    ensures WithKey(SortByKey(s, key), key, k) == WithKey(s, key, k)
    decreases |s|
  {
    if |s| > 0 {
      SortByKeyStable(s[1..], key, k);
      InsertWithKey(s[0], SortByKey(s[1..], key), key, k);
    }
  }

  /** Sorting a list whose keys are pairwise distinct gives strictly
      ascending keys. */
  lemma SortedDistinctKeysStrict<T>(s: seq<T>, key: T -> string)
    requires SortedBy(s, key)
    requires forall i, j :: 0 <= i < j < |s| ==> key(s[i]) != key(s[j])
    ensures StrictlySortedBy(s, key)
  {
  }

  /** Keeps the first occurrence of every value, in order. */
  function Dedup(s: seq<string>): (r: seq<string>)
    ensures NoDup(r)
    ensures forall x :: x in r <==> x in s
    decreases |s|
  {
    if |s| == 0 then []
    else
      var front := s[..|s| - 1];
      var rest := Dedup(front);
      assert forall x :: x in s <==> x in front || x == s[|s| - 1] by {
        assert s == front + [s[|s| - 1]];
      }
      if s[|s| - 1] in front then rest else rest + [s[|s| - 1]]
  }

  /** Two lists with strictly ascending keys and the same elements are equal. */
  lemma {:induction false} StrictlySortedUnique<T>(a: seq<T>, b: seq<T>, key: T -> string)
    requires StrictlySortedBy(a, key) && StrictlySortedBy(b, key)
    requires forall x :: x in a <==> x in b
    ensures a == b
    decreases |a|
  {
    if |a| > 0 { assert a[0] in b; }
    if |b| > 0 { assert b[0] in a; }
    if |a| > 0 {
      var i :| 0 <= i < |b| && b[i] == a[0];
      var j :| 0 <= j < |a| && a[j] == b[0];
      if i > 0 {
        if j == 0 { StrLtIrreflexive(key(b[0])); }
        else { StrLtTransitive(key(b[0]), key(a[0]), key(b[0])); StrLtIrreflexive(key(b[0])); }
        assert false;
      }
      forall x ensures x in a[1..] <==> x in b[1..] {
        if x in a[1..] {
          var k :| 1 <= k < |a| && a[k] == x;
          assert x in b;
          if x == b[0] { StrLtIrreflexive(key(a[0])); }
          var m :| 0 <= m < |b| && b[m] == x;
        }
        if x in b[1..] {
          var k :| 1 <= k < |b| && b[k] == x;
          assert x in a;
          if x == a[0] { StrLtIrreflexive(key(b[0])); }
          var m :| 0 <= m < |a| && a[m] == x;
        }
      }
      StrictlySortedUnique(a[1..], b[1..], key);
      assert a == [a[0]] + a[1..];
      assert b == [b[0]] + b[1..];
    }
  }

  function Identity(s: string): string { s }

  /** The distinct values of `s` in ascending order, as `sorted(set(s))`. */
  function SortedDistinct(s: seq<string>): (r: seq<string>)
    ensures StrictlySortedBy(r, Identity)
    ensures forall x :: x in r <==> x in s
  {
    var unique := Dedup(s);
    var listed := SortByKey(unique, Identity);
    assert forall x :: x in listed <==> x in unique by {
      forall x ensures x in listed <==> x in unique {
        assert x in listed <==> x in multiset(listed);
        assert x in unique <==> x in multiset(unique);
      }
    }
    SortedNoDupStrict(listed, unique);
    listed
  }

  lemma SortedNoDupStrict(listed: seq<string>, unique: seq<string>)
    requires NoDup(unique) && multiset(listed) == multiset(unique)
    requires SortedBy(listed, Identity)
    ensures StrictlySortedBy(listed, Identity)
  {
    forall i, j | 0 <= i < j < |listed| ensures listed[i] != listed[j] {
      if listed[i] == listed[j] {
        var x := listed[i];
        assert multiset(listed)[x] >= 2 by {
          assert listed == listed[..i] + [x] + listed[i + 1..j] + [x] + listed[j + 1..];
        }
        NoDupCount(unique, x);
        assert false;
      }
    }
    SortedDistinctKeysStrict(listed, Identity);
  }

  lemma {:induction false} NoDupCount<T>(s: seq<T>, x: T)
    requires NoDup(s)
    ensures multiset(s)[x] <= 1
    decreases |s|
  {
    if |s| > 0 {
      assert s == [s[0]] + s[1..];
      NoDupCount(s[1..], x);
      if s[0] == x { assert x !in s[1..]; }
    }
  }

  /** No two elements share a key. */
  ghost predicate DistinctKeys<T>(s: seq<T>, key: T -> string) {
    forall i, j :: 0 <= i < j < |s| ==> key(s[i]) != key(s[j])
  }

  /** Reordering a list keeps its keys distinct. */
  lemma DistinctKeysPermutation<T>(a: seq<T>, b: seq<T>, key: T -> string)
    requires multiset(a) == multiset(b) && DistinctKeys(b, key)
    ensures DistinctKeys(a, key)
  {
    assert NoDup(b);
    forall i, j | 0 <= i < j < |a| ensures key(a[i]) != key(a[j]) {
      var x, y := a[i], a[j];
      assert x in multiset(b) && y in multiset(b);
      var p :| 0 <= p < |b| && b[p] == x;
      var q :| 0 <= q < |b| && b[q] == y;
      if x == y {
        assert multiset(a)[x] >= 2 by {
          assert a == a[..i] + [x] + a[i + 1..j] + [x] + a[j + 1..];
        }
        NoDupCount(b, x);
      } else {
        assert p != q;
      }
    }
  }

  /** A permutation of a list whose keys are distinct, once sorted by key,
      has strictly ascending keys. */
  lemma SortedPermutationStrict<T>(a: seq<T>, b: seq<T>, key: T -> string)
    requires multiset(a) == multiset(b) && DistinctKeys(b, key) && SortedBy(a, key)
    ensures StrictlySortedBy(a, key)
  {
    DistinctKeysPermutation(a, b, key);
    SortedDistinctKeysStrict(a, key);
  }
}
