/** Sorting and de-duplication as the scripts use them: Python's stable
    `sorted`, and pandas' `drop_duplicates` that keeps the first row per key. */
module Collections {

  /** `le` is a total preorder: any two elements compare, transitively. */
  ghost predicate TotalPreorder<T(!new)>(le: (T, T) -> bool) {
    && (forall a, b :: le(a, b) || le(b, a))
    && (forall a, b, c :: le(a, b) && le(b, c) ==> le(a, c))
  }

  ghost predicate SortedBy<T>(s: seq<T>, le: (T, T) -> bool) {
    forall i, j :: 0 <= i < j < |s| ==> le(s[i], s[j])
  }

  /** Puts `x` in front of the first element it is `le` to. */
  function Insert<T>(x: T, s: seq<T>, le: (T, T) -> bool): (r: seq<T>)
    ensures multiset(r) == multiset(s) + multiset{x}
  {
    if s == [] then [x]
    else if le(x, s[0]) then [x] + s
    else
      assert s == [s[0]] + s[1..];
      [s[0]] + Insert(x, s[1..], le)
  }

  /** Insertion sort; stable, since an element goes in front of the elements
      after it that it ties with. */
  function SortBy<T>(s: seq<T>, le: (T, T) -> bool): (r: seq<T>)
    ensures multiset(r) == multiset(s)
  {
    if s == [] then []
    else
      assert s == [s[0]] + s[1..];
      Insert(s[0], SortBy(s[1..], le), le)
  }

  lemma {:induction false} InsertSorted<T(!new)>(x: T, s: seq<T>, le: (T, T) -> bool)
    requires TotalPreorder(le)
    requires SortedBy(s, le)
    ensures SortedBy(Insert(x, s, le), le)
  {
    if s != [] && !le(x, s[0]) {
      InsertSorted(x, s[1..], le);
      var r := Insert(x, s, le);
      var t := Insert(x, s[1..], le);
      assert r == [s[0]] + t;
      forall i, j | 0 <= i < j < |r| ensures le(r[i], r[j]) {
        if i == 0 {
          assert r[j] in multiset(t);
          assert r[j] in multiset(s[1..]) + multiset{x};
          if r[j] != x {
            assert r[j] in s[1..];
            var k :| 0 <= k < |s[1..]| && s[1..][k] == r[j];
            assert s[k + 1] == r[j];
          }
        }
      }
    }
  }

  /** Under a total preorder the result is sorted and a permutation of `s`. */
  lemma {:induction false} SortBySorted<T(!new)>(s: seq<T>, le: (T, T) -> bool)
    requires TotalPreorder(le)
    ensures SortedBy(SortBy(s, le), le)
    ensures multiset(SortBy(s, le)) == multiset(s)
  {
    if s != [] {
      SortBySorted(s[1..], le);
      InsertSorted(s[0], SortBy(s[1..], le), le);
    }
  }

  /** The elements of `s` that tie with `y` under `le`, in their order in `s`. */
  function Ties<T>(s: seq<T>, le: (T, T) -> bool, y: T): (t: seq<T>)
    ensures |t| <= |s|
  {
    if s == [] then []
    else (if le(s[0], y) && le(y, s[0]) then [s[0]] else []) + Ties(s[1..], le, y)
  }

  lemma {:induction false} InsertTies<T(!new)>(x: T, s: seq<T>, le: (T, T) -> bool, y: T)
    requires TotalPreorder(le)
    ensures Ties(Insert(x, s, le), le, y) == Ties([x], le, y) + Ties(s, le, y)
  {
    var r := Insert(x, s, le);
    if s == [] || le(x, s[0]) {
      assert r == [x] + s;
      TiesCons(r, le, y);
      assert r[1..] == s;
    } else {
      var t := Insert(x, s[1..], le);
      assert r == [s[0]] + t;
      InsertTies(x, s[1..], le, y);
      TiesCons(r, le, y);
      TiesCons(s, le, y);
      assert r[1..] == t;
      NotBothTie(x, s[0], le, y);
      SwapEmpty(Ties([s[0]], le, y), Ties([x], le, y), Ties(s[1..], le, y));
    }
  }

  lemma SwapEmpty<T>(a: seq<T>, b: seq<T>, c: seq<T>)
    requires a == [] || b == []
    ensures a + (b + c) == b + (a + c)
  {
    if a == [] {
      assert a + (b + c) == b + c;
    } else {
      assert b + (a + c) == a + c;
    }
  }

  /** `x` and `z` cannot both tie with `y` when `x` does not come before `z`. */
  lemma NotBothTie<T(!new)>(x: T, z: T, le: (T, T) -> bool, y: T)
    requires TotalPreorder(le) && !le(x, z)
    ensures Ties([x], le, y) == [] || Ties([z], le, y) == []
  {
    assert le(x, y) && le(y, z) ==> le(x, z);
  }

  lemma TiesCons<T>(s: seq<T>, le: (T, T) -> bool, y: T)
    requires s != []
    ensures Ties(s, le, y) == Ties([s[0]], le, y) + Ties(s[1..], le, y)
  {
    assert [s[0]][1..] == [];
  }

  /** The sort is stable: the elements that tie with any `y` keep their
      relative order. */
  lemma {:induction false} SortByStable<T(!new)>(s: seq<T>, le: (T, T) -> bool, y: T)
    requires TotalPreorder(le)
    ensures Ties(SortBy(s, le), le, y) == Ties(s, le, y)
  {
    if s != [] {
      var rest := SortBy(s[1..], le);
      assert SortBy(s, le) == Insert(s[0], rest, le);
      SortByStable(s[1..], le, y);
      InsertTies(s[0], rest, le, y);
      TiesCons(s, le, y);
    }
  }

  /** A boolean-mask selection (`df.loc[mask]`): the elements that satisfy
      `keep`, in their original order. */
  function Filter<T(!new)>(s: seq<T>, keep: T -> bool): (r: seq<T>)
    ensures |r| <= |s|
    ensures forall x :: x in r <==> x in s && keep(x)
  {
    if s == [] then []
    else
      assert forall x :: x in s <==> x == s[0] || x in s[1..];
      (if keep(s[0]) then [s[0]] else []) + Filter(s[1..], keep)
  }

  /** A mask keeps relative order: filtering a concatenation filters each part. */
  lemma {:induction false} FilterAppend<T(!new)>(a: seq<T>, b: seq<T>, keep: T -> bool)
    ensures Filter(a + b, keep) == Filter(a, keep) + Filter(b, keep)
  {
    if a != [] {
      assert (a + b)[1..] == a[1..] + b;
      FilterAppend(a[1..], b, keep);
    } else {
      assert a + b == b;
    }
  }

  /** `[f(x) for x in s]` */
  function Map<A(!new), B>(s: seq<A>, f: A -> B): (r: seq<B>)
    ensures |r| == |s|
    ensures forall i :: 0 <= i < |s| ==> r[i] == f(s[i])
    ensures forall x :: x in s ==> f(x) in r
    ensures forall y :: y in r ==> exists x :: x in s && y == f(x)
  {
    var r := seq(|s|, i requires 0 <= i < |s| => f(s[i]));
    assert forall i :: 0 <= i < |s| ==> r[i] == f(s[i]);
    r
  }

  /** A mask keeps an order: what survives a sorted sequence stays sorted. */
  lemma {:induction false} FilterSorted<T(!new)>(s: seq<T>, keep: T -> bool, le: (T, T) -> bool)
    requires SortedBy(s, le)
    ensures SortedBy(Filter(s, keep), le)
  {
    if s != [] {
      FilterSorted(s[1..], keep, le);
      var rest := Filter(s[1..], keep);
      if keep(s[0]) {
        var r := [s[0]] + rest;
        forall i, j | 0 <= i < j < |r| ensures le(r[i], r[j]) {
          if i == 0 {
            assert r[j] in rest;
            var k :| 0 <= k < |s[1..]| && s[1..][k] == r[j];
            assert le(s[0], s[k + 1]);
          } else {
            assert r[i] == rest[i - 1] && r[j] == rest[j - 1];
          }
        }
      }
    }
  }

  /** No two elements share a key. */
  ghost predicate DistinctKeys<T, K>(s: seq<T>, key: T -> K) {
    forall i, j :: 0 <= i < j < |s| ==> key(s[i]) != key(s[j])
  }

  /** A mask keeps keys distinct. */
  lemma {:induction false} FilterDistinctKeys<T(!new), K>(s: seq<T>, keep: T -> bool, key: T -> K)
    requires DistinctKeys(s, key)
    ensures DistinctKeys(Filter(s, keep), key)
  {
    if s != [] {
      FilterDistinctKeys(s[1..], keep, key);
      var rest := Filter(s[1..], keep);
      if keep(s[0]) {
        var r := [s[0]] + rest;
        forall i, j | 0 <= i < j < |r| ensures key(r[i]) != key(r[j]) {
          if i == 0 {
            assert r[j] in rest;
            var k :| 0 <= k < |s[1..]| && s[1..][k] == r[j];
            assert s[k + 1] == r[j];
          } else {
            assert r[i] == rest[i - 1] && r[j] == rest[j - 1];
          }
        }
      }
    }
  }

  /** A reordering keeps keys distinct. */
  lemma DistinctKeysPermutation<T(!new), K>(s: seq<T>, t: seq<T>, key: T -> K)
    requires multiset(s) == multiset(t)
    requires DistinctKeys(s, key)
    ensures DistinctKeys(t, key)
  {
    forall i, j | 0 <= i < j < |t| ensures key(t[i]) != key(t[j]) {
      if t[i] == t[j] {
        RepeatedTwice(t, i, j);
        AtMostOnce(s, key, t[i]);
      } else {
        assert t[i] in multiset(s) && t[j] in multiset(s);
        var a :| 0 <= a < |s| && s[a] == t[i];
        var b :| 0 <= b < |s| && s[b] == t[j];
        assert a != b;
      }
    }
  }

  /** In a sequence with distinct keys every element occurs once. */
  lemma {:induction false} AtMostOnce<T, K>(s: seq<T>, key: T -> K, v: T)
    requires DistinctKeys(s, key)
    ensures multiset(s)[v] <= 1
  {
    if s != [] {
      assert s == [s[0]] + s[1..];
      assert DistinctKeys(s[1..], key) by {
        forall i, j | 0 <= i < j < |s[1..]| ensures key(s[1..][i]) != key(s[1..][j]) {
          assert s[1..][i] == s[i + 1] && s[1..][j] == s[j + 1];
        }
      }
      AtMostOnce(s[1..], key, v);
      forall k | 0 <= k < |s[1..]| ensures s[1..][k] != s[0] {
        assert key(s[0]) != key(s[k + 1]);
      }
    }
  }

  lemma RepeatedTwice<T>(t: seq<T>, i: nat, j: nat)
    requires i < j < |t| && t[i] == t[j]
    ensures multiset(t)[t[i]] >= 2
  {
    assert t == t[..j] + t[j..];
    assert t[i] in t[..j] && t[j] in t[j..];
  }

  /** Some element of `s` has key `k`. */
  predicate HasKey<T, K(==)>(s: seq<T>, key: T -> K, k: K) {
    exists i :: 0 <= i < |s| && key(s[i]) == k
  }

  /** pandas `drop_duplicates(subset)`: the first row of each key, in order. */
  function DropDuplicatesBy<T, K(==)>(s: seq<T>, key: T -> K): (r: seq<T>)
    ensures forall i, j :: 0 <= i < j < |r| ==> key(r[i]) != key(r[j])
    ensures forall x :: x in r ==> x in s
    ensures forall i :: 0 <= i < |s| ==> HasKey(r, key, key(s[i]))
    ensures forall j :: 0 <= j < |r| ==>
      exists i :: 0 <= i < |s| && s[i] == r[j] && (forall k :: 0 <= k < i ==> key(s[k]) != key(s[i]))
    decreases |s|
  {
    if s == [] then []
    else
      var init, x := s[..|s| - 1], s[|s| - 1];
      var p := DropDuplicatesBy(init, key);
      assert forall i :: 0 <= i < |init| ==> s[i] == init[i];
      if HasKey(p, key, key(x)) then p
      else
        var r := p + [x];
        assert forall k :: 0 <= k < |s| - 1 ==> key(s[k]) != key(x) by {
          forall k | 0 <= k < |s| - 1 ensures key(s[k]) != key(x) {
            assert HasKey(p, key, key(init[k]));
          }
        }
        assert forall i :: 0 <= i < |s| ==> HasKey(r, key, key(s[i])) by {
          forall i | 0 <= i < |s| ensures HasKey(r, key, key(s[i])) {
            if i < |s| - 1 {
              assert HasKey(p, key, key(init[i]));
              var j :| 0 <= j < |p| && key(p[j]) == key(init[i]);
              assert r[j] == p[j];
            } else {
              assert r[|r| - 1] == x;
            }
          }
        }
        r
  }

  /** The first element of each key survives `drop_duplicates`. */
  lemma FirstOfKeyKept<T(!new), K>(s: seq<T>, key: T -> K, i: nat)
    requires i < |s|
    requires forall k :: 0 <= k < i ==> key(s[k]) != key(s[i])
    ensures s[i] in DropDuplicatesBy(s, key)
  {
    var j := KeptWithKey(s, key, i);
    var i' := KeptFrom(s, key, j);
    FirstOfKeyUnique(s, key, i, i');
  }

  /** An index at which `x` occurs. */
  lemma Position<T>(s: seq<T>, x: T) returns (i: nat)
    requires x in s
    ensures i < |s| && s[i] == x
  {
    i :| 0 <= i < |s| && s[i] == x;
  }

  lemma KeptWithKey<T(!new), K>(s: seq<T>, key: T -> K, i: nat) returns (j: nat)
    requires i < |s|
    ensures j < |DropDuplicatesBy(s, key)| && key(DropDuplicatesBy(s, key)[j]) == key(s[i])
  {
    assert HasKey(DropDuplicatesBy(s, key), key, key(s[i]));
    j :| 0 <= j < |DropDuplicatesBy(s, key)| && key(DropDuplicatesBy(s, key)[j]) == key(s[i]);
  }

  lemma KeptFrom<T(!new), K>(s: seq<T>, key: T -> K, j: nat) returns (i: nat)
    requires j < |DropDuplicatesBy(s, key)|
    ensures i < |s| && s[i] == DropDuplicatesBy(s, key)[j]
    ensures forall k :: 0 <= k < i ==> key(s[k]) != key(s[i])
  {
    i :| 0 <= i < |s| && s[i] == DropDuplicatesBy(s, key)[j] && (forall k :: 0 <= k < i ==> key(s[k]) != key(s[i]));
  }

  /** Two first elements of the same key are the same element. */
  lemma FirstOfKeyUnique<T, K>(s: seq<T>, key: T -> K, i: nat, i': nat)
    requires i < |s| && i' < |s| && key(s[i]) == key(s[i'])
    requires forall k :: 0 <= k < i ==> key(s[k]) != key(s[i])
    requires forall k :: 0 <= k < i' ==> key(s[k]) != key(s[i'])
    ensures i == i'
  {
  }

  /** `drop_duplicates()` over every column loses no value. */
  lemma ExactDuplicatesDropped<T(!new)>(s: seq<T>, x: T)
    requires x in s
    ensures x in DropDuplicatesBy(s, (y: T) => y)
  {
    var i :| 0 <= i < |s| && s[i] == x;
    assert HasKey(DropDuplicatesBy(s, (y: T) => y), (y: T) => y, x);
  }

  /** The dictionary a loop builds with `d[k] = v` over `entries` in order: a
      later entry overwrites an earlier one with the same key. */
  function Overwrite<K(==), V>(entries: seq<(K, V)>): map<K, V>
    decreases |entries|
  {
    if entries == [] then map[]
    else
      var last := entries[|entries| - 1];
      Overwrite(entries[..|entries| - 1])[last.0 := last.1]
  }

  lemma OverwriteSnoc<K, V>(entries: seq<(K, V)>, i: nat)
    requires i < |entries|
    ensures Overwrite(entries[..i + 1]) == Overwrite(entries[..i])[entries[i].0 := entries[i].1]
  {
    assert entries[..i + 1][..i] == entries[..i];
  }

  /** Entry `i` is the last one with key `k`. */
  ghost predicate LastWithKey<K, V>(entries: seq<(K, V)>, k: K, i: nat) {
    i < |entries| && entries[i].0 == k && forall j :: i < j < |entries| ==> entries[j].0 != k
  }

  /** The keys are exactly the keys of the entries. */
  lemma {:induction false} OverwriteKeys<K, V>(entries: seq<(K, V)>)
    ensures forall k :: k in Overwrite(entries) <==> exists i :: 0 <= i < |entries| && entries[i].0 == k
    decreases |entries|
  {
    if entries != [] {
      var init := entries[..|entries| - 1];
      OverwriteKeys(init);
      forall k ensures k in Overwrite(entries) <==> exists i :: 0 <= i < |entries| && entries[i].0 == k {
        if exists i :: 0 <= i < |init| && init[i].0 == k {
          var i :| 0 <= i < |init| && init[i].0 == k;
          assert entries[i] == init[i];
        }
        if exists i :: 0 <= i < |entries| && entries[i].0 == k {
          var i :| 0 <= i < |entries| && entries[i].0 == k;
          if i < |init| {
            assert init[i] == entries[i];
          }
        }
      }
    }
  }

  /** The value under a key is the one of the last entry with that key. */
  lemma {:induction false} OverwriteLastWins<K, V>(entries: seq<(K, V)>, k: K)
    requires k in Overwrite(entries)
    ensures exists i: nat :: LastWithKey(entries, k, i) && Overwrite(entries)[k] == entries[i].1
    decreases |entries|
  {
    var last := |entries| - 1;
    var init := entries[..last];
    if entries[last].0 == k {
      assert LastWithKey(entries, k, last);
    } else {
      assert k in Overwrite(init);
      OverwriteLastWins(init, k);
      var i: nat :| LastWithKey(init, k, i) && Overwrite(init)[k] == init[i].1;
      assert entries[i] == init[i];
      assert forall j :: i < j < last ==> entries[j] == init[j];
      assert LastWithKey(entries, k, i);
    }
  }
}
