/**
 * Sequence stand-ins for the query chains of the ORM: `filter`/`exclude`
 * become Filter, `order_by` becomes SortBy on a two-part key (a descending
 * field is a negated component), a slice `[:n]` becomes Take, and `count()`
 * becomes Count.  Rows the database would leave in an unspecified order (equal
 * keys) keep their input order here.
 */
module Ordering {

  /** An `order_by` key: compared on `major`, then on `minor`. */
  datatype Key = Key(major: int, minor: int)

  predicate KeyLe(a: Key, b: Key) {
    a.major < b.major || (a.major == b.major && a.minor <= b.minor)
  }

  predicate SortedBy<T>(s: seq<T>, key: T -> Key) {
    forall i, j :: 0 <= i < j < |s| ==> KeyLe(key(s[i]), key(s[j]))
  }

  /** `[x for x in s if p(x)]`, i.e. `qs.filter(p)` keeping the rows' order. */
  function Filter<T(!new)>(s: seq<T>, p: T -> bool): (r: seq<T>)
    ensures |r| <= |s|
    ensures forall x :: x in r <==> x in s && p(x)
    ensures forall i :: 0 <= i < |r| ==> p(r[i])
  {
    if |s| == 0 then []
    else if p(s[0]) then [s[0]] + Filter(s[1..], p)
    else Filter(s[1..], p)
  }

  /** `qs.filter(p).count()`. */
  function Count<T(!new)>(s: seq<T>, p: T -> bool): nat {
    |Filter(s, p)|
  }

  /** `[f(x) for x in s]`. */
  function Map<T, U>(s: seq<T>, f: T -> U): (r: seq<U>)
    ensures |r| == |s|
    ensures forall i :: 0 <= i < |s| ==> r[i] == f(s[i])
  {
    if |s| == 0 then [] else [f(s[0])] + Map(s[1..], f)
  }

  /** `s[:n]`. */
  function Take<T>(s: seq<T>, n: nat): (r: seq<T>)
    ensures |r| == if |s| <= n then |s| else n
    ensures |s| <= n ==> r == s
    ensures r <= s
    ensures forall i :: 0 <= i < |r| ==> r[i] == s[i]
    ensures forall x :: x in r ==> x in s
  {
    if |s| <= n then s else s[..n]
  }

  function Insert<T>(x: T, s: seq<T>, key: T -> Key): (r: seq<T>)
    requires SortedBy(s, key)
    ensures |r| == |s| + 1
    ensures SortedBy(r, key)
    ensures multiset(r) == multiset(s) + multiset{x}
  {
    if |s| == 0 then [x]
    else if KeyLe(key(x), key(s[0])) then
      assert forall j :: 0 <= j < |s| ==> KeyLe(key(x), key(s[j]));
      [x] + s
    else
      var t := Insert(x, s[1..], key);
      assert s == [s[0]] + s[1..];
      assert forall j :: 0 <= j < |t| ==> KeyLe(key(s[0]), key(t[j])) by {
        forall j | 0 <= j < |t| ensures KeyLe(key(s[0]), key(t[j])) {
          assert t[j] in multiset(t);
          if t[j] != x {
            assert t[j] in multiset(s[1..]);
            var k :| 0 <= k < |s[1..]| && s[1..][k] == t[j];
            assert s[k + 1] == t[j];
          }
        }
      }
      [s[0]] + t
  }

  /** `order_by(key)`: the same rows, in ascending key order. */
  function SortBy<T>(s: seq<T>, key: T -> Key): (r: seq<T>)
    ensures SortedBy(r, key)
    ensures multiset(r) == multiset(s)
    ensures |r| == |s|
  {
    if |s| == 0 then []
    else
      assert s == [s[0]] + s[1..];
      Insert(s[0], SortBy(s[1..], key), key)
  }

  /** `order_by(f)` on one integer field (negated for a descending one). */
  function SortOn<T(!new)>(s: seq<T>, f: T -> int): (r: seq<T>)
    ensures |r| == |s| && multiset(r) == multiset(s)
    ensures forall x :: x in r <==> x in s
    ensures forall i, j :: 0 <= i < j < |r| ==> f(r[i]) <= f(r[j])
  {
    var key := (x: T) => Key(f(x), 0);
    var r := SortBy(s, key);
    assert forall x :: x in r <==> x in multiset(s) by {
      forall x ensures x in r <==> x in multiset(s) {
        assert x in r <==> x in multiset(r);
      }
    }
    assert forall i, j :: 0 <= i < j < |r| ==> KeyLe(key(r[i]), key(r[j]));
    r
  }

  /**
   * `qs.filter(p).order_by(f)[:n]`: the first `n` matching rows in `f` order,
   * so none of the rows left out comes before a row kept.
   */
  function Select<T(!new)>(s: seq<T>, p: T -> bool, f: T -> int, n: nat): (r: seq<T>)
    ensures |r| == if Count(s, p) <= n then Count(s, p) else n
    ensures forall x :: x in r ==> x in s && p(x)
    ensures Count(s, p) <= n ==> forall x :: x in r <==> x in s && p(x)
    ensures forall i, j :: 0 <= i < j < |r| ==> f(r[i]) <= f(r[j])
    ensures forall i, y :: 0 <= i < |r| && y in s && p(y) && y !in r ==> f(r[i]) <= f(y)
  {
    var sorted := SortOn(Filter(s, p), f);
    var r := Take(sorted, n);
    forall i, y | 0 <= i < |r| && y in s && p(y) && y !in r ensures f(r[i]) <= f(y) {
      assert y in sorted;
      var j :| 0 <= j < |sorted| && sorted[j] == y;
      assert j >= |r|;
      assert r[i] == sorted[i];
    }
    r
  }

  /** At least two rows pass the test exactly when two distinct positions hold passing rows. */
  lemma {:induction false} FilterAtLeastTwo<T(!new)>(s: seq<T>, p: T -> bool)
    ensures |Filter(s, p)| >= 2 <==> exists i, j :: 0 <= i < j < |s| && p(s[i]) && p(s[j])
  {
    if |s| > 0 {
      var t := s[1..];
      FilterAtLeastTwo(t, p);
      if exists i, j :: 0 <= i < j < |s| && p(s[i]) && p(s[j]) {
        var i, j :| 0 <= i < j < |s| && p(s[i]) && p(s[j]);
        if i > 0 {
          assert t[i - 1] == s[i] && t[j - 1] == s[j];
        } else {
          assert t[j - 1] in t;
          assert |Filter(t, p)| > 0;
        }
      }
      if |Filter(s, p)| >= 2 {
        if p(s[0]) {
          var f := Filter(t, p);
          assert f[0] in f;
          var j :| 0 <= j < |t| && t[j] == f[0];
          assert s[j + 1] == t[j];
        } else {
          var i, j :| 0 <= i < j < |t| && p(t[i]) && p(t[j]);
          assert s[i + 1] == t[i] && s[j + 1] == t[j];
        }
      }
    }
  }

  /** Two tests that agree on every row select the same rows. */
  lemma {:induction false} FilterSame<T(!new)>(s: seq<T>, p: T -> bool, q: T -> bool)
    requires forall x :: x in s ==> p(x) == q(x)
    ensures Filter(s, p) == Filter(s, q)
  {
    if |s| > 0 {
      FilterSame(s[1..], p, q);
    }
  }

  /** A test every row passes keeps them all. */
  lemma {:induction false} FilterAll<T(!new)>(s: seq<T>, p: T -> bool)
    requires forall x :: x in s ==> p(x)
    ensures Filter(s, p) == s
  {
    if |s| > 0 {
      FilterAll(s[1..], p);
    }
  }

  /** Rows split by two exclusive tests are counted once each: the counts add up. */
  lemma {:induction false} CountSplit<T(!new)>(s: seq<T>, p: T -> bool, q: T -> bool, both: T -> bool)
    requires forall x :: x in s ==> both(x) == (p(x) || q(x))
    requires forall x :: x in s ==> !(p(x) && q(x))
    ensures Count(s, p) + Count(s, q) == Count(s, both)
  {
    if |s| > 0 {
      CountSplit(s[1..], p, q, both);
    }
  }

  /** The rows a test keeps are the head, when it passes, and those kept from the tail. */
  lemma FilterHead<T(!new)>(s: seq<T>, p: T -> bool)
    requires |s| > 0
    ensures multiset(Filter(s, p)) == (if p(s[0]) then multiset{s[0]} else multiset{}) + multiset(Filter(s[1..], p))
  {
    if p(s[0]) {
      assert Filter(s, p) == [s[0]] + Filter(s[1..], p);
    }
  }

  /** Splitting rows by a test and its negation loses and duplicates nothing. */
  lemma {:induction false} FilterPartition<T(!new)>(s: seq<T>, p: T -> bool, q: T -> bool)
    requires forall x :: x in s ==> q(x) == !p(x)
    ensures multiset(Filter(s, p)) + multiset(Filter(s, q)) == multiset(s)
  {
    if |s| > 0 {
      var t := s[1..];
      assert multiset(s) == multiset{s[0]} + multiset(t) by {
        assert s == [s[0]] + t;
      }
      assert multiset(Filter(s, p)) + multiset(Filter(s, q)) ==
        multiset{s[0]} + (multiset(Filter(t, p)) + multiset(Filter(t, q))) by {
        FilterHead(s, p);
        FilterHead(s, q);
        assert q(s[0]) == !p(s[0]);
      }
      assert multiset(Filter(t, p)) + multiset(Filter(t, q)) == multiset(t) by {
        FilterPartition(t, p, q);
      }
    }
  }

  /** Two filters in a row select what one filter on both tests selects. */
  lemma {:induction false} FilterFilter<T(!new)>(s: seq<T>, p: T -> bool, q: T -> bool, both: T -> bool)
    requires forall x :: x in s ==> both(x) == (p(x) && q(x))
    ensures Filter(Filter(s, p), q) == Filter(s, both)
  {
    if |s| > 0 {
      FilterFilter(s[1..], p, q, both);
      if p(s[0]) {
        assert Filter(s, p)[1..] == Filter(s[1..], p);
      }
    }
  }

  /** No repeated element. */
  predicate Distinct<T(==)>(s: seq<T>) {
    forall i, j :: 0 <= i < j < |s| ==> s[i] != s[j]
  }

  /** Filtering a sequence without repeats keeps it without repeats. */
  lemma {:induction false} FilterDistinct<T(!new)>(s: seq<T>, p: T -> bool)
    requires Distinct(s)
    ensures Distinct(Filter(s, p))
  {
    if |s| > 0 {
      assert Distinct(s[1..]);
      FilterDistinct(s[1..], p);
      var r := Filter(s, p);
      if p(s[0]) {
        assert r == [s[0]] + Filter(s[1..], p);
        assert s[0] !in s[1..];
        assert s[0] !in Filter(s[1..], p);
      }
    }
  }
  /** Without repeats, every element occurs at most once. */
  lemma {:induction false} DistinctOnce<T>(s: seq<T>, x: T)
    requires Distinct(s)
    ensures multiset(s)[x] <= 1
  {
    if |s| > 0 {
      assert s == [s[0]] + s[1..];
      assert Distinct(s[1..]);
      DistinctOnce(s[1..], x);
      if x == s[0] {
        assert x !in s[1..];
      }
    }
  }

  /** A permutation of a sequence without repeats has none either. */
  lemma PermutationDistinct<T>(s: seq<T>, t: seq<T>)
    requires multiset(s) == multiset(t) && Distinct(s)
    ensures Distinct(t)
  {
    forall i, j | 0 <= i < j < |t| ensures t[i] != t[j] {
      if t[i] == t[j] {
        var x := t[i];
        assert t == t[..j] + [t[j]] + t[j + 1..];
        assert x in t[..j];
        assert multiset(t)[x] == multiset(t[..j])[x] + 1 + multiset(t[j + 1..])[x];
        DistinctOnce(s, x);
        assert false;
      }
    }
  }
}
