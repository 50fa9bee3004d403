/**
 * Keys: the order on dates and student names, sorting by a key, and the
 * order-of-first-appearance de-duplication that `unique()` performs.
 *
 * Dates are read from the CSV files as text ("2026-01-05"), so every
 * comparison the dashboard makes on them (`<=`, `sorted`, `sort_values`)
 * is the code-point lexicographic order on strings, and so is the order
 * in which a group-by lists its student keys.
 */
module Keys {

  /** Code-point lexicographic order on strings; a proper prefix comes first. */
  predicate Leq(a: string, b: string)
  {
    a == [] || (b != [] && (a[0] < b[0] || (a[0] == b[0] && Leq(a[1..], b[1..]))))
  }

  lemma {:induction false} LeqReflexive(a: string)
    ensures Leq(a, a)
  {
    if a != [] {
      LeqReflexive(a[1..]);
    }
  }

  lemma {:induction false} LeqTotal(a: string, b: string)
    ensures Leq(a, b) || Leq(b, a)
  {
    if a != [] && b != [] && a[0] == b[0] {
      LeqTotal(a[1..], b[1..]);
    }
  }

  lemma {:induction false} LeqAntisymmetric(a: string, b: string)
    requires Leq(a, b) && Leq(b, a)
    ensures a == b
  {
    if a != [] && b != [] {
      LeqAntisymmetric(a[1..], b[1..]);
      assert a == [a[0]] + a[1..] && b == [b[0]] + b[1..];
    }
  }

  lemma {:induction false} LeqTransitive(a: string, b: string, c: string)
    requires Leq(a, b) && Leq(b, c)
    ensures Leq(a, c)
  {
    if a != [] && a[0] == b[0] && b[0] == c[0] {
      LeqTransitive(a[1..], b[1..], c[1..]);
    }
  }

  /** Every element's key is at most every later element's key. */
  ghost predicate SortedBy<T>(s: seq<T>, key: T -> string)
  {
    forall i, j :: 0 <= i < j < |s| ==> Leq(key(s[i]), key(s[j]))
  }

  /** A key below the keys of all of `s` may be put in front of a sorted `s`. */
  lemma ConsSorted<T>(x: T, s: seq<T>, key: T -> string)
    requires SortedBy(s, key)
    requires forall y :: y in s ==> Leq(key(x), key(y))
    ensures SortedBy([x] + s, key)
  {
    forall i, j | 0 <= i < j < |[x] + s|
      ensures Leq(key(([x] + s)[i]), key(([x] + s)[j]))
    {
      if i == 0 {
        assert ([x] + s)[j] == s[j - 1];
      } else {
        assert ([x] + s)[i] == s[i - 1] && ([x] + s)[j] == s[j - 1];
      }
    }
  }

  /** In a sorted sequence the head's key bounds every key from below. */
  lemma HeadIsLeast<T>(x: T, s: seq<T>, key: T -> string)
    requires SortedBy(s, key) && s != []
    requires Leq(key(x), key(s[0]))
    ensures forall y :: y in s ==> Leq(key(x), key(y))
  {
    forall y | y in s
      ensures Leq(key(x), key(y))
    {
      var k :| 0 <= k < |s| && s[k] == y;
      if k > 0 {
        LeqTransitive(key(x), key(s[0]), key(y));
      }
    }
  }

  /** Inserts `x` into a sorted sequence before the first element whose key is not below it. */
  function Insert<T>(x: T, s: seq<T>, key: T -> string): (r: seq<T>)
    requires SortedBy(s, key)
    ensures SortedBy(r, key)
    ensures multiset(r) == multiset(s) + multiset{x}
    decreases |s|
  {
    if s == [] then [x]
    else if Leq(key(x), key(s[0])) then
      HeadIsLeast(x, s, key);
      ConsSorted(x, s, key);
      [x] + s
    else
      var tail := Insert(x, s[1..], key);
      InsertBelowHead(x, s, key, tail);
      ConsSorted(s[0], tail, key);
      assert s == [s[0]] + s[1..];
      [s[0]] + tail
  }

  lemma InsertBelowHead<T>(x: T, s: seq<T>, key: T -> string, tail: seq<T>)
    requires SortedBy(s, key) && s != []
    requires !Leq(key(x), key(s[0]))
    requires multiset(tail) == multiset(s[1..]) + multiset{x}
    ensures forall y :: y in tail ==> Leq(key(s[0]), key(y))
  {
    LeqTotal(key(x), key(s[0]));
    forall y | y in tail
      ensures Leq(key(s[0]), key(y))
    {
      assert y in multiset(tail);
      if y != x {
        assert y in multiset(s[1..]);
        var k :| 0 <= k < |s[1..]| && s[1..][k] == y;
        assert s[k + 1] == y;
      }
    }
  }

  /** Insertion sort by key: the result is sorted by key and a permutation of the input. */
  function SortBy<T>(s: seq<T>, key: T -> string): (r: seq<T>)
    ensures SortedBy(r, key)
    ensures multiset(r) == multiset(s)
    ensures |r| == |s|
  {
    if s == [] then []
    else
      assert s == [s[0]] + s[1..];
      var r := Insert(s[0], SortBy(s[1..], key), key);
      assert |r| == |multiset(r)| == |multiset(s)| == |s|;
      r
  }

  ghost predicate NoDuplicates<T>(s: seq<T>)
  {
    forall i, j :: 0 <= i < j < |s| ==> s[i] != s[j]
  }

  /** The index at which `x` first occurs in `s`. */
  function FirstIndex<T(==)>(s: seq<T>, x: T): (k: nat)
    requires x in s
    ensures k < |s| && s[k] == x
    ensures forall i :: 0 <= i < k ==> s[i] != x
  {
    if s[0] == x then 0 else 1 + FirstIndex(s[1..], x)
  }

  lemma FirstIndexPrefix<T>(s: seq<T>, n: nat, x: T)
    requires n <= |s| && x in s[..n]
    ensures FirstIndex(s, x) == FirstIndex(s[..n], x)
  {
    var k := FirstIndex(s[..n], x);
    assert forall i :: 0 <= i <= k ==> s[..n][i] == s[i];
    FirstIndexUnique(s, x, k);
  }

  /** The first index is the one index holding `x` with no `x` before it. */
  lemma FirstIndexUnique<T>(s: seq<T>, x: T, k: nat)
    requires k < |s| && s[k] == x
    requires forall i :: 0 <= i < k ==> s[i] != x
    ensures FirstIndex(s, x) == k
  {
    var f := FirstIndex(s, x);
    assert s[f] == x;
  }

  lemma FirstIndexPrefixAll<T>(s: seq<T>, n: nat)
    requires n <= |s|
    ensures forall y :: y in s[..n] ==> FirstIndex(s, y) == FirstIndex(s[..n], y) < n
  {
    forall y | y in s[..n]
      ensures FirstIndex(s, y) == FirstIndex(s[..n], y) < n
    {
      FirstIndexPrefix(s, n, y);
    }
  }

  /** The distinct elements of `s`, each kept at its first occurrence. */
  function Distinct<T(==)>(s: seq<T>): (r: seq<T>)
    ensures NoDuplicates(r)
    ensures forall i :: 0 <= i < |r| ==> r[i] in s
    ensures forall i :: 0 <= i < |s| ==> s[i] in r
  {
    if s == [] then []
    else
      var n := |s| - 1;
      var p := Distinct(s[..n]);
      assert s == s[..n] + [s[n]];
      if s[n] in p then p else p + [s[n]]
  }

  /**
   * `Distinct` lists the elements in order of first appearance, which is
   * the order `unique()` returns.
   */
  lemma {:induction false} DistinctOrder<T>(s: seq<T>)
    ensures forall i, j :: 0 <= i < j < |Distinct(s)| ==> FirstIndex(s, Distinct(s)[i]) < FirstIndex(s, Distinct(s)[j])
  {
    if s != [] {
      var n := |s| - 1;
      var p := Distinct(s[..n]);
      DistinctOrder(s[..n]);
      OrderExtends(s, n, p);
      if s[n] in p {
        assert Distinct(s) == p;
      } else {
        FirstOccurrenceLast(s, p);
        OrderSnoc(s, p, s[n]);
        assert Distinct(s) == p + [s[n]];
      }
    }
  }

  /** An order by first index in a prefix is the same order in the whole sequence. */
  lemma OrderExtends<T>(s: seq<T>, n: nat, p: seq<T>)
    requires n <= |s|
    requires forall i :: 0 <= i < |p| ==> p[i] in s[..n]
    requires forall i, j :: 0 <= i < j < |p| ==> FirstIndex(s[..n], p[i]) < FirstIndex(s[..n], p[j])
    ensures forall i :: 0 <= i < |p| ==> p[i] in s && FirstIndex(s, p[i]) < n
    ensures forall i, j :: 0 <= i < j < |p| ==> FirstIndex(s, p[i]) < FirstIndex(s, p[j])
  {
    FirstIndexPrefixAll(s, n);
    forall i | 0 <= i < |p|
      ensures p[i] in s
    {
      var k :| 0 <= k < n && s[..n][k] == p[i];
      assert s[k] == p[i];
    }
  }

  /** When the last element is not among those before it, it first occurs last. */
  lemma FirstOccurrenceLast<T>(s: seq<T>, p: seq<T>)
    requires s != []
    requires forall k :: 0 <= k < |s| - 1 ==> s[k] in p
    requires s[|s| - 1] !in p
    ensures FirstIndex(s, s[|s| - 1]) == |s| - 1
  {
    FirstIndexUnique(s, s[|s| - 1], |s| - 1);
  }

  /** An element first met after all of `p` may be appended to `p` keeping the order. */
  lemma OrderSnoc<T>(s: seq<T>, p: seq<T>, x: T)
    requires x in s && forall i :: 0 <= i < |p| ==> p[i] in s
    requires forall i, j :: 0 <= i < j < |p| ==> FirstIndex(s, p[i]) < FirstIndex(s, p[j])
    requires forall i :: 0 <= i < |p| ==> FirstIndex(s, p[i]) < FirstIndex(s, x)
    ensures forall i, j :: 0 <= i < j < |p + [x]| ==> FirstIndex(s, (p + [x])[i]) < FirstIndex(s, (p + [x])[j])
  {
    forall i, j | 0 <= i < j < |p + [x]|
      ensures FirstIndex(s, (p + [x])[i]) < FirstIndex(s, (p + [x])[j])
    {
      assert (p + [x])[i] == p[i];
    }
  }

  /** A sequence has no duplicates exactly when no element occurs twice in its multiset. */
  lemma {:induction false} NoDuplicatesMultiset<T>(s: seq<T>)
    ensures NoDuplicates(s) <==> forall x :: multiset(s)[x] <= 1
  {
    if s != [] {
      var t := s[1..];
      NoDuplicatesMultiset(t);
      assert s == [s[0]] + t;
      assert multiset(s) == multiset{s[0]} + multiset(t);
      if NoDuplicates(s) {
        assert NoDuplicates(t) by {
          forall i, j | 0 <= i < j < |t| ensures t[i] != t[j] {
            assert s[i + 1] == t[i] && s[j + 1] == t[j];
          }
        }
        assert s[0] !in t by {
          forall i | 0 <= i < |t| ensures t[i] != s[0] {
            assert s[i + 1] == t[i];
          }
        }
      } else {
        var i, j :| 0 <= i < j < |s| && s[i] == s[j];
        if i == 0 {
          assert s[j] == t[j - 1];
          assert multiset(s)[s[0]] >= 2;
        } else {
          assert t[i - 1] == s[i] && t[j - 1] == s[j];
          assert !NoDuplicates(t);
          var x :| multiset(t)[x] > 1;
          assert multiset(s)[x] > 1;
        }
      }
    }
  }

  function Identity(x: string): string
  {
    x
  }

  /** `sorted(s.unique())`: the distinct strings of `s` in increasing order. */
  function SortedUnique(s: seq<string>): seq<string>
  {
    SortBy(Distinct(s), Identity)
  }

  /** The result is strictly increasing and holds exactly the strings of `s`. */
  lemma SortedUniqueExact(s: seq<string>)
    ensures var r := SortedUnique(s);
      && (forall i, j :: 0 <= i < j < |r| ==> Leq(r[i], r[j]) && r[i] != r[j])
      && (forall i :: 0 <= i < |r| ==> r[i] in s)
      && (forall k :: 0 <= k < |s| ==> s[k] in r)
  {
    var distinct := Distinct(s);
    var r := SortedUnique(s);
    assert multiset(r) == multiset(distinct);
    NoDuplicatesMultiset(distinct);
    NoDuplicatesMultiset(r);
    forall i, j | 0 <= i < j < |r|
      ensures Leq(r[i], r[j])
    {
      assert Leq(Identity(r[i]), Identity(r[j]));
    }
    forall i | 0 <= i < |r|
      ensures r[i] in s
    {
      assert r[i] in multiset(distinct);
    }
    forall k | 0 <= k < |s|
      ensures s[k] in r
    {
      assert s[k] in multiset(r);
    }
  }
}
