/**
 * Stable sorting by an integer key, the behaviour of `Arrays.sort` and
 * `List.sort` with a `Comparator.comparingInt` comparator. Java's library
 * sort (TimSort) is stable, and a stable sort has exactly one possible
 * output, so it is modelled here by a stable insertion sort written as a
 * function: its result is sorted by the key, is a permutation of its
 * input, keeps elements of equal key in their input order, and commutes
 * with mapping the elements.
 */
module Sorting {

  predicate SortedBy<T>(s: seq<T>, key: T -> int) {
    forall i, j :: 0 <= i < j < |s| ==> key(s[i]) <= key(s[j])
  }

  predicate Distinct<T(==)>(s: seq<T>) {
    forall i, j :: 0 <= i < j < |s| ==> s[i] != s[j]
  }

  function MapSeq<A, B>(s: seq<A>, f: A -> B): (r: seq<B>)
    ensures |r| == |s| && forall i :: 0 <= i < |s| ==> r[i] == f(s[i])
  {
    seq(|s|, i requires 0 <= i < |s| => f(s[i]))
  }

  lemma MapSeqAppend<A, B>(a: seq<A>, b: seq<A>, f: A -> B)
    ensures MapSeq(a + b, f) == MapSeq(a, f) + MapSeq(b, f)
  {
  }

  /**
   * Inserts x in front of the first element whose key is not smaller than
   * x's; elements of equal key that come after x in the input stay after it.
   */
  function InsertBy<T>(x: T, s: seq<T>, key: T -> int): seq<T> {
    if s == [] || key(x) <= key(s[0]) then [x] + s
    else [s[0]] + InsertBy(x, s[1..], key)
  }

  /** Stable insertion sort by key. */
  function SortBy<T>(s: seq<T>, key: T -> int): seq<T> {
    if s == [] then []
    else InsertBy(s[0], SortBy(s[1..], key), key)
  }

  lemma {:induction false} InsertPermutes<T>(x: T, s: seq<T>, key: T -> int)
    ensures multiset(InsertBy(x, s, key)) == multiset(s) + multiset{x}
  {
    if s != [] && key(x) > key(s[0]) {
      InsertPermutes(x, s[1..], key);
      assert s == [s[0]] + s[1..];
    }
  }

  /** The output of SortBy is a permutation of its input. */
  lemma {:induction false} SortByPermutes<T>(s: seq<T>, key: T -> int)
    ensures multiset(SortBy(s, key)) == multiset(s)
  {
    if s != [] {
      SortByPermutes(s[1..], key);
      InsertPermutes(s[0], SortBy(s[1..], key), key);
      assert s == [s[0]] + s[1..];
    }
  }

  lemma SortByLength<T>(s: seq<T>, key: T -> int)
    ensures |SortBy(s, key)| == |s|
  {
    SortByPermutes(s, key);
    assert |multiset(SortBy(s, key))| == |multiset(s)|;
  }

  lemma InsertElement<T>(x: T, s: seq<T>, key: T -> int, e: T)
    ensures e in InsertBy(x, s, key) <==> e == x || e in s
  {
    var r := InsertBy(x, s, key);
    InsertPermutes(x, s, key);
    assert e in r <==> e in multiset(r);
    assert e in s <==> e in multiset(s);
  }

  lemma {:induction false} InsertKeepsSorted<T>(x: T, s: seq<T>, key: T -> int)
    requires SortedBy(s, key)
    ensures SortedBy(InsertBy(x, s, key), key)
  {
    if s != [] && key(x) > key(s[0]) {
      var t := InsertBy(x, s[1..], key);
      InsertKeepsSorted(x, s[1..], key);
      forall e | e in t ensures key(s[0]) <= key(e) {
        InsertElement(x, s[1..], key, e);
        if e != x {
          assert e in s[1..];
          var k :| 0 <= k < |s[1..]| && s[1..][k] == e;
          assert s[k + 1] == e;
        }
      }
      var r := [s[0]] + t;
      forall i, j | 0 <= i < j < |r| ensures key(r[i]) <= key(r[j]) {
        assert r[j] == t[j - 1];
        if i > 0 {
          assert r[i] == t[i - 1];
        } else {
          assert t[j - 1] in t;
        }
      }
    }
  }

  lemma {:induction false} InsertKeepsDistinct<T>(x: T, s: seq<T>, key: T -> int)
    requires Distinct(s) && x !in s
    ensures Distinct(InsertBy(x, s, key))
  {
    if s != [] && key(x) > key(s[0]) {
      var t := InsertBy(x, s[1..], key);
      InsertKeepsDistinct(x, s[1..], key);
      InsertElement(x, s[1..], key, s[0]);
      assert s[0] !in t;
      var r := [s[0]] + t;
      forall i, j | 0 <= i < j < |r| ensures r[i] != r[j] {
        if i > 0 {
          assert r[i] == t[i - 1] && r[j] == t[j - 1];
        } else {
          assert r[j] in t;
        }
      }
    }
  }

  /** The output of SortBy is ordered by the key. */
  lemma {:induction false} SortBySorted<T>(s: seq<T>, key: T -> int)
    ensures SortedBy(SortBy(s, key), key)
  {
    if s != [] {
      SortBySorted(s[1..], key);
      InsertKeepsSorted(s[0], SortBy(s[1..], key), key);
    }
  }

  /** Sorting a sequence without repetitions gives one without repetitions. */
  lemma {:induction false} SortByDistinct<T>(s: seq<T>, key: T -> int)
    requires Distinct(s)
    ensures Distinct(SortBy(s, key))
  {
    if s != [] {
      var rest := SortBy(s[1..], key);
      SortByDistinct(s[1..], key);
      SortByPermutes(s[1..], key);
      assert s[0] !in multiset(s[1..]);
      assert s[0] !in rest by {
        assert s[0] in rest <==> s[0] in multiset(rest);
      }
      InsertKeepsDistinct(s[0], rest, key);
    }
  }

  /** The elements of s whose key is k, in the order of s. */
  function WithKey<T>(s: seq<T>, key: T -> int, k: int): seq<T> {
    if s == [] then []
    else (if key(s[0]) == k then [s[0]] else []) + WithKey(s[1..], key, k)
  }

  /** x goes in front of every element of s with the same key. */
  lemma {:induction false} InsertStable<T>(x: T, s: seq<T>, key: T -> int, k: int)
    ensures WithKey(InsertBy(x, s, key), key, k) == (if key(x) == k then [x] else []) + WithKey(s, key, k)
  {
    if s == [] || key(x) <= key(s[0]) {
      assert ([x] + s)[1..] == s;
    } else {
      InsertStable(x, s[1..], key, k);
      assert ([s[0]] + InsertBy(x, s[1..], key))[1..] == InsertBy(x, s[1..], key);
    }
  }

  /**
   * SortBy is stable: for every key, the elements with that key appear in
   * the output in the same order as in the input.
   */
  lemma {:induction false} SortByStable<T>(s: seq<T>, key: T -> int, k: int)
    ensures WithKey(SortBy(s, key), key, k) == WithKey(s, key, k)
  {
    if s != [] {
      SortByStable(s[1..], key, k);
      InsertStable(s[0], SortBy(s[1..], key), key, k);
    }
  }

  /** Inserting and then mapping is the same as mapping and then inserting. */
  lemma {:induction false} InsertMapCommute<A, B>(x: A, s: seq<A>, f: A -> B, key: B -> int, keyOf: A -> int)
    requires forall a :: keyOf(a) == key(f(a))
    ensures InsertBy(f(x), MapSeq(s, f), key) == MapSeq(InsertBy(x, s, keyOf), f)
  {
    var fs := MapSeq(s, f);
    if s == [] {
      assert fs == [];
      assert MapSeq([x], f) == [f(x)];
    } else if keyOf(x) <= keyOf(s[0]) {
      assert key(f(x)) <= key(fs[0]);
      assert MapSeq([x] + s, f) == [f(x)] + fs;
    } else {
      assert key(f(x)) > key(fs[0]);
      var t := InsertBy(x, s[1..], keyOf);
      InsertMapCommute(x, s[1..], f, key, keyOf);
      assert fs[1..] == MapSeq(s[1..], f);
      assert InsertBy(f(x), fs, key) == [fs[0]] + InsertBy(f(x), fs[1..], key);
      assert InsertBy(x, s, keyOf) == [s[0]] + t;
      assert MapSeq([s[0]] + t, f) == [f(s[0])] + MapSeq(t, f);
    }
  }

  /**
   * Sorting the images of a sequence under f by key is the same as sorting
   * the sequence by the key of the images and then mapping. The sorted
   * order of the mapped sequence can so be followed back to the positions
   * of the original elements.
   */
  lemma {:induction false} SortMapCommute<A, B>(s: seq<A>, f: A -> B, key: B -> int, keyOf: A -> int)
    requires forall a :: keyOf(a) == key(f(a))
    ensures SortBy(MapSeq(s, f), key) == MapSeq(SortBy(s, keyOf), f)
  {
    if s != [] {
      SortMapCommute(s[1..], f, key, keyOf);
      assert MapSeq(s, f)[0] == f(s[0]);
      assert MapSeq(s, f)[1..] == MapSeq(s[1..], f);
      InsertMapCommute(s[0], SortBy(s[1..], keyOf), f, key, keyOf);
    }
  }
}
