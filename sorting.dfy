/**
 * `sorted(xs, key=..., reverse=True)`: Python's stable sort by a key, largest
 * key first, as used to order regions and masks by area. Modelled as an
 * insertion sort that inserts each element before every element whose key is
 * not larger, so equal keys keep their input order.
 */
module Sorting {

  predicate SortedDesc<T>(s: seq<T>, key: T -> int) {
    forall i, j :: 0 <= i < j < |s| ==> key(s[i]) >= key(s[j])
  }

  /** The tail of a sorted sequence is sorted and bounded by its head. */
  lemma SortedTail<T>(s: seq<T>, key: T -> int)
    requires SortedDesc(s, key) && |s| > 0
    ensures SortedDesc(s[1..], key)
    ensures forall y :: y in s[1..] ==> key(s[0]) >= key(y)
  {
    forall i, j | 0 <= i < j < |s[1..]| ensures key(s[1..][i]) >= key(s[1..][j]) {
      assert s[1..][i] == s[i + 1] && s[1..][j] == s[j + 1];
    }
    forall y | y in s[1..] ensures key(s[0]) >= key(y) {
      var j :| 0 <= j < |s[1..]| && s[1..][j] == y;
      assert s[j + 1] == y;
    }
  }

  /** An element at least as large as everything in a sorted sequence can go in front. */
  lemma SortedCons<T>(x: T, t: seq<T>, key: T -> int)
    requires SortedDesc(t, key)
    requires forall y :: y in t ==> key(x) >= key(y)
    ensures SortedDesc([x] + t, key)
  {
    var r := [x] + t;
    forall i, j | 0 <= i < j < |r| ensures key(r[i]) >= key(r[j]) {
      assert r[j] == t[j - 1];
      if i > 0 {
        assert r[i] == t[i - 1];
      }
    }
  }

  function InsertDesc<T>(x: T, s: seq<T>, key: T -> int): (r: seq<T>)
    ensures multiset(r) == multiset(s) + multiset{x}
    ensures |r| == |s| + 1
  {
    if |s| == 0 || key(x) >= key(s[0]) then [x] + s
    else
      assert s == [s[0]] + s[1..];
      [s[0]] + InsertDesc(x, s[1..], key)
  }

  /** Inserting into a sorted sequence keeps it sorted. */
  lemma {:induction false} InsertDescSorted<T>(x: T, s: seq<T>, key: T -> int)
    requires SortedDesc(s, key)
    ensures SortedDesc(InsertDesc(x, s, key), key)
    ensures InsertDesc(x, s, key)[0] == x || (|s| > 0 && InsertDesc(x, s, key)[0] == s[0])
  {
    if |s| > 0 && key(x) < key(s[0]) {
      var t := InsertDesc(x, s[1..], key);
      SortedTail(s, key);
      InsertDescSorted(x, s[1..], key);
      forall y | y in t ensures key(s[0]) >= key(y) {
        assert y in multiset(t);
        assert y == x || y in multiset(s[1..]);
      }
      SortedCons(s[0], t, key);
    }
  }

  /** The result is a permutation of the input with non-increasing keys. */
  function SortDesc<T>(s: seq<T>, key: T -> int): (r: seq<T>)
    ensures multiset(r) == multiset(s) && |r| == |s|
    ensures SortedDesc(r, key)
  {
    if |s| == 0 then []
    else
      assert s == [s[0]] + s[1..];
      InsertDescSorted(s[0], SortDesc(s[1..], key), key);
      InsertDesc(s[0], SortDesc(s[1..], key), key)
  }

  /** Sorting keeps exactly the elements of the input. */
  lemma SortDescSameElements<T>(s: seq<T>, key: T -> int, x: T)
    ensures x in SortDesc(s, key) <==> x in s
  {
    var r := SortDesc(s, key);
    assert x in r <==> x in multiset(r);
    assert x in s <==> x in multiset(s);
  }

  /** `x` goes before `y`: a larger key, or an equal key and a smaller rank. */
  predicate GoesBefore<T>(x: T, y: T, key: T -> int, rank: T -> int) {
    rank(x) != rank(y) && (key(x) > key(y) || (key(x) == key(y) && rank(x) < rank(y)))
  }

  /**
   * Descending by `key`, and by rising `rank` among equal keys, with no rank
   * repeated: the order a stable sort leaves when the input rises by `rank`.
   */
  predicate StableDesc<T>(s: seq<T>, key: T -> int, rank: T -> int) {
    forall i, j :: 0 <= i < j < |s| ==> GoesBefore(s[i], s[j], key, rank)
  }

  /** The tail of a stably sorted sequence is stably sorted and follows its head. */
  lemma StableTail<T>(s: seq<T>, key: T -> int, rank: T -> int)
    requires StableDesc(s, key, rank) && |s| > 0
    ensures StableDesc(s[1..], key, rank)
    ensures forall y :: y in s[1..] ==> GoesBefore(s[0], y, key, rank)
  {
    forall i, j | 0 <= i < j < |s[1..]| ensures GoesBefore(s[1..][i], s[1..][j], key, rank) {
      assert s[1..][i] == s[i + 1] && s[1..][j] == s[j + 1];
    }
    forall y | y in s[1..] ensures GoesBefore(s[0], y, key, rank) {
      var j :| 0 <= j < |s[1..]| && s[1..][j] == y;
      assert s[j + 1] == y;
    }
  }

  /** An element that goes before everything in a stably sorted sequence can go in front. */
  lemma StableCons<T>(x: T, t: seq<T>, key: T -> int, rank: T -> int)
    requires StableDesc(t, key, rank)
    requires forall y :: y in t ==> GoesBefore(x, y, key, rank)
    ensures StableDesc([x] + t, key, rank)
  {
    var r := [x] + t;
    forall i, j | 0 <= i < j < |r| ensures GoesBefore(r[i], r[j], key, rank) {
      assert r[j] == t[j - 1];
      if i > 0 {
        assert r[i] == t[i - 1];
      }
    }
  }

  /** Inserting an element of smaller rank than all others goes before every equal key. */
  lemma {:induction false} InsertDescStable<T>(x: T, t: seq<T>, key: T -> int, rank: T -> int)
    requires StableDesc(t, key, rank)
    requires forall y :: y in t ==> rank(x) < rank(y)
    ensures StableDesc(InsertDesc(x, t, key), key, rank)
  {
    if |t| == 0 || key(x) >= key(t[0]) {
      if |t| > 0 {
        StableTail(t, key, rank);
      }
      forall y | y in t ensures GoesBefore(x, y, key, rank) {
        if y != t[0] {
          assert y in t[1..];
        }
      }
      StableCons(x, t, key, rank);
    } else {
      var rest := InsertDesc(x, t[1..], key);
      StableTail(t, key, rank);
      InsertDescStable(x, t[1..], key, rank);
      forall y | y in rest ensures GoesBefore(t[0], y, key, rank) {
        assert y in multiset(rest);
        assert y == x || y in multiset(t[1..]);
      }
      StableCons(t[0], rest, key, rank);
    }
  }

  /**
   * The sort is stable: when the input rises by `rank`, elements of equal
   * key keep that order, and no rank repeats.
   */
  lemma {:induction false} SortDescStable<T>(s: seq<T>, key: T -> int, rank: T -> int)
    requires forall i, j :: 0 <= i < j < |s| ==> rank(s[i]) < rank(s[j])
    ensures StableDesc(SortDesc(s, key), key, rank)
  {
    if |s| > 0 {
      SortDescStable(s[1..], key, rank);
      var t := SortDesc(s[1..], key);
      forall y | y in t ensures rank(s[0]) < rank(y) {
        assert y in multiset(t);
        assert y in multiset(s[1..]);
        var k :| 0 <= k < |s[1..]| && s[1..][k] == y;
        assert s[k + 1] == y;
      }
      InsertDescStable(s[0], t, key, rank);
    }
  }
}
