/** Python's `sorted` over distinct strings, as `sort_index` and groupby
    order their keys. */
module SortedStrings {
  import opened Strings
  import opened Collections

  predicate StrictlyAscending(s: seq<string>) {
    forall i, j :: 0 <= i < j < |s| ==> StrLe(s[i], s[j]) && s[i] != s[j]
  }

  predicate Distinct(s: seq<string>) {
    forall i, j :: 0 <= i < j < |s| ==> s[i] != s[j]
  }

  /** Distinct strings in ascending order, the same ones as given. */
  function SortDistinct(names: seq<string>): (sorted: seq<string>)
    requires Distinct(names)
    ensures forall x :: x in sorted <==> x in names
    ensures StrictlyAscending(sorted)
    ensures |sorted| == |names|
  {
    StrLeIsTotalPreorder();
    SortBySorted(names, StrLe);
    var sorted := SortBy(names, StrLe);
    SameElements(names, sorted);
    UniqueSortedIsStrict(names, sorted);
    assert |sorted| == |multiset(sorted)| == |multiset(names)| == |names|;
    sorted
  }

  lemma SameElements(a: seq<string>, b: seq<string>)
    requires multiset(a) == multiset(b)
    ensures forall x :: x in a <==> x in b
  {
    forall x ensures x in a <==> x in b {
      assert x in a <==> x in multiset(a);
      assert x in b <==> x in multiset(b);
    }
  }

  lemma StrLeIsTotalPreorder()
    ensures TotalPreorder(StrLe)
  {
    forall a, b ensures StrLe(a, b) || StrLe(b, a) {
      StrLeTotal(a, b);
    }
    forall a, b, c | StrLe(a, b) && StrLe(b, c) ensures StrLe(a, c) {
      StrLeTransitive(a, b, c);
    }
  }

  /** A sorted permutation of a duplicate-free sequence has no equal neighbours. */
  lemma UniqueSortedIsStrict(names: seq<string>, sorted: seq<string>)
    requires Distinct(names)
    requires multiset(sorted) == multiset(names)
    requires SortedBy(sorted, StrLe)
    ensures StrictlyAscending(sorted)
  {
    forall i, j | 0 <= i < j < |sorted| ensures sorted[i] != sorted[j] {
      if sorted[i] == sorted[j] {
        RepeatedTwice(sorted, i, j);
        UniqueCountsOne(names, sorted[i]);
        assert false;
      }
    }
  }

  lemma {:induction false} UniqueCountsOne(names: seq<string>, x: string)
    requires Distinct(names)
    ensures multiset(names)[x] <= 1
  {
    if names != [] {
      assert names == [names[0]] + names[1..];
      UniqueCountsOne(names[1..], x);
      if names[0] == x {
        assert x !in names[1..];
      }
    }
  }

  /** Two ascending sequences of the same strings are equal: the sorted order
      does not depend on the order the names came in. */
  lemma {:induction false} AscendingUnique(a: seq<string>, b: seq<string>)
    requires StrictlyAscending(a) && StrictlyAscending(b)
    requires forall x :: x in a <==> x in b
    ensures a == b
  {
    assert a != [] ==> a[0] in a;
    assert b != [] ==> b[0] in b;
    if a != [] && b != [] {
      assert a[0] in b && b[0] in a;
      var i :| 0 <= i < |b| && b[i] == a[0];
      var j :| 0 <= j < |a| && a[j] == b[0];
      if a[0] != b[0] {
        assert i > 0 && j > 0;
        assert StrLe(b[0], a[0]) && StrLe(a[0], b[0]);
        StrLeAntisymmetric(a[0], b[0]);
        assert false;
      }
      forall x ensures x in a[1..] <==> x in b[1..] {
        if x in a[1..] {
          var k :| 1 <= k < |a| && a[k] == x;
          assert x in b;
          var m :| 0 <= m < |b| && b[m] == x;
          assert m != 0;
          assert b[1..][m - 1] == x;
        }
        if x in b[1..] {
          var k :| 1 <= k < |b| && b[k] == x;
          assert x in a;
          var m :| 0 <= m < |a| && a[m] == x;
          assert m != 0;
          assert a[1..][m - 1] == x;
        }
      }
      AscendingUnique(a[1..], b[1..]);
      assert a == [a[0]] + a[1..] && b == [b[0]] + b[1..];
    }
  }
}
