/** Sorting standings rows by descending score the way the site does it:
    `rows.sort((a, b) => b.score - a.score)` with a stable engine sort, so
    that rows with equal scores keep their input order. The model sorts by
    insertion and proves the result sorted, a permutation and stable; since
    a stable descending sort has exactly one possible output
    (`StableSortUnique`), this is the order any conforming engine produces. */
module StableSort {

  /** Scores never increase along `s`. */
  predicate SortedDesc<T>(s: seq<T>, key: T -> int) {
    forall i, j :: 0 <= i < j < |s| ==> key(s[i]) >= key(s[j])
  }

  /** The elements of `s` whose score is `k`, in their order in `s`. */
  function WithScore<T>(s: seq<T>, key: T -> int, k: int): seq<T> {
    if s == [] then [] else (if key(s[0]) == k then [s[0]] else []) + WithScore(s[1..], key, k)
  }

  /** `out` lists `input` by non-increasing score, and the rows of each
      score appear in the order they had in `input`. */
  ghost predicate IsStableSortOf<T>(input: seq<T>, out: seq<T>, key: T -> int) {
    && SortedDesc(out, key)
    && forall k :: WithScore(out, key, k) == WithScore(input, key, k)
  }

  /** Places `x` before the first row of `s` whose score is not greater than
      its own. */
  function Insert<T>(x: T, s: seq<T>, key: T -> int): (r: seq<T>)
    ensures |r| == |s| + 1
    ensures multiset(r) == multiset(s) + multiset{x}
  {
    if s == [] || key(x) >= key(s[0]) then
      [x] + s
    else
      var r := [s[0]] + Insert(x, s[1..], key);
      assert s == [s[0]] + s[1..];
      r
  }

  lemma {:induction false} InsertSorted<T>(x: T, s: seq<T>, key: T -> int)
    requires SortedDesc(s, key)
    ensures SortedDesc(Insert(x, s, key), key)
  {
    if s != [] && key(x) < key(s[0]) {
      var rest := Insert(x, s[1..], key);
      InsertSorted(x, s[1..], key);
      forall j | 0 <= j < |rest|
        ensures key(rest[j]) <= key(s[0])
      {
        assert rest[j] in multiset(rest);
        if rest[j] != x {
          assert rest[j] in s[1..];
        }
      }
    }
  }

  lemma {:induction false} InsertWithScore<T>(x: T, s: seq<T>, key: T -> int, k: int)
    ensures WithScore(Insert(x, s, key), key, k) == (if key(x) == k then [x] else []) + WithScore(s, key, k)
  {
    var r := Insert(x, s, key);
    if s == [] || key(x) >= key(s[0]) {
      assert r[1..] == s;
    } else {
      var rest := Insert(x, s[1..], key);
      assert r[1..] == rest;
      InsertWithScore(x, s[1..], key, k);
      assert WithScore(r, key, k) == (if key(s[0]) == k then [s[0]] else []) + WithScore(rest, key, k);
      if key(x) == k {
        assert WithScore(s, key, k) == WithScore(s[1..], key, k);
      } else if key(s[0]) != k {
        assert WithScore(s, key, k) == WithScore(s[1..], key, k);
      }
    }
  }

  /** Insertion sort, taking the rows from the back so that a row is always
      inserted in front of the equal-scored rows that follow it in the
      input. */
  function SortByScore<T>(s: seq<T>, key: T -> int): (r: seq<T>)
    ensures |r| == |s|
    ensures multiset(r) == multiset(s)
    ensures IsStableSortOf(s, r, key)
  {
    if s == [] then []
    else
      var sortedTail := SortByScore(s[1..], key);
      var r := Insert(s[0], sortedTail, key);
      InsertSorted(s[0], sortedTail, key);
      assert forall k :: WithScore(r, key, k) == WithScore(s, key, k) by {
        forall k
          ensures WithScore(r, key, k) == WithScore(s, key, k)
        {
          InsertWithScore(s[0], sortedTail, key, k);
        }
      }
      assert s == [s[0]] + s[1..];
      r
  }

  lemma {:induction false} WithScoreMembers<T>(s: seq<T>, key: T -> int, k: int)
    ensures forall y :: y in WithScore(s, key, k) ==> y in s && key(y) == k
  {
    if s != [] {
      WithScoreMembers(s[1..], key, k);
    }
  }

  /** Every row occurs in `s` as often as in the rows of its own score. */
  lemma {:induction false} WithScoreCounts<T>(s: seq<T>, key: T -> int, x: T)
    ensures multiset(WithScore(s, key, key(x)))[x] == multiset(s)[x]
  {
    if s != [] {
      WithScoreCounts(s[1..], key, x);
      assert s == [s[0]] + s[1..];
    }
  }

  /** A stable sort is a permutation of its input. */
  lemma StableSortIsPermutation<T>(input: seq<T>, out: seq<T>, key: T -> int)
    requires IsStableSortOf(input, out, key)
    ensures multiset(out) == multiset(input)
  {
    forall x
      ensures multiset(out)[x] == multiset(input)[x]
    {
      WithScoreCounts(out, key, x);
      WithScoreCounts(input, key, x);
      assert WithScore(out, key, key(x)) == WithScore(input, key, key(x));
    }
  }

  lemma HeadHasScore<T>(s: seq<T>, key: T -> int)
    ensures s != [] ==> WithScore(s, key, key(s[0])) != []
  {
  }

  /** Two sequences sorted by non-increasing score that agree on the rows of
      every score are equal. */
  lemma {:induction false} SortedByScoreUnique<T>(a: seq<T>, b: seq<T>, key: T -> int)
    requires SortedDesc(a, key) && SortedDesc(b, key)
    requires forall k :: WithScore(a, key, k) == WithScore(b, key, k)
    ensures a == b
  {
    if a == [] || b == [] {
      HeadHasScore(a, key);
      HeadHasScore(b, key);
    } else {
      var ka := key(a[0]);
      var kb := key(b[0]);
      assert WithScore(a, key, ka)[0] == a[0];
      assert WithScore(b, key, kb)[0] == b[0];
      WithScoreMembers(a, key, kb);
      WithScoreMembers(b, key, ka);
      assert WithScore(b, key, ka)[0] in b;
      assert WithScore(a, key, kb)[0] in a;
      assert ka == kb;
      assert a[0] == b[0];
      forall k
        ensures WithScore(a[1..], key, k) == WithScore(b[1..], key, k)
      {
        var wa := WithScore(a, key, k);
        var wb := WithScore(b, key, k);
        assert wa == (if ka == k then [a[0]] else []) + WithScore(a[1..], key, k);
        assert wb == (if kb == k then [b[0]] else []) + WithScore(b[1..], key, k);
        assert wa == wb;
        if ka == k {
          assert WithScore(a[1..], key, k) == wa[1..];
          assert WithScore(b[1..], key, k) == wb[1..];
        } else {
          assert WithScore(a[1..], key, k) == wa;
          assert WithScore(b[1..], key, k) == wb;
        }
      }
      SortedByScoreUnique(a[1..], b[1..], key);
      assert a == [a[0]] + a[1..];
      assert b == [b[0]] + b[1..];
    }
  }

  /** A stable descending sort has exactly one result. */
  lemma StableSortUnique<T>(input: seq<T>, a: seq<T>, b: seq<T>, key: T -> int)
    requires IsStableSortOf(input, a, key) && IsStableSortOf(input, b, key)
    ensures a == b
  {
    SortedByScoreUnique(a, b, key);
  }
}
