/** The stable sort of the JavaScript runtime (Array.prototype.sort with a
    numeric comparator `(a, b) => key(a) - key(b)`), written as an insertion
    sort: elements with equal keys keep their relative order. */
module StableSort {
  import opened Seqs

  /** Non-decreasing by `key`. */
  predicate SortedBy<T>(s: seq<T>, key: T -> int) {
    forall i, j :: 0 <= i < j < |s| ==> key(s[i]) <= key(s[j])
  }

  /** The elements of `s` whose key is `k`, in their order in `s`. */
  function KeyFilter<T>(s: seq<T>, key: T -> int, k: int): seq<T> {
    if s == [] then []
    else (if key(s[0]) == k then [s[0]] else []) + KeyFilter(s[1..], key, k)
  }

  /** Puts `x` in front of the first element whose key is not smaller than
      its own, so `x` precedes every element of `s` with an equal key. */
  function Insert<T>(x: T, s: seq<T>, key: T -> int): (r: seq<T>)
    ensures multiset(r) == multiset(s) + multiset{x}
  {
    if s == [] || key(x) <= key(s[0]) then [x] + s
    else
      assert s == [s[0]] + s[1..];
      [s[0]] + Insert(x, s[1..], key)
  }

  lemma {:induction false} InsertSorted<T>(x: T, s: seq<T>, key: T -> int)
    requires SortedBy(s, key)
    ensures SortedBy(Insert(x, s, key), key)
  {
    var r := Insert(x, s, key);
    if s == [] || key(x) <= key(s[0]) {
      assert r == [x] + s;
      forall i, j | 0 <= i < j < |r| ensures key(r[i]) <= key(r[j]) {
        assert r[j] == s[j - 1];
        if i == 0 {
          assert key(s[0]) <= key(s[j - 1]);
        } else {
          assert r[i] == s[i - 1];
        }
      }
    } else {
      var tail := s[1..];
      var rest := Insert(x, tail, key);
      assert SortedBy(tail, key) by {
        forall i, j | 0 <= i < j < |tail| ensures key(tail[i]) <= key(tail[j]) {
          assert tail[i] == s[i + 1] && tail[j] == s[j + 1];
        }
      }
      InsertSorted(x, tail, key);
      assert r == [s[0]] + rest;
      forall i, j | 0 <= i < j < |r| ensures key(r[i]) <= key(r[j]) {
        var y := rest[j - 1];
        assert r[j] == y;
        if i == 0 {
          assert y in multiset(rest);
          if y != x {
            assert y in multiset(tail);
            var k :| 0 <= k < |tail| && tail[k] == y;
            assert key(s[0]) <= key(s[k + 1]);
          }
        } else {
          assert r[i] == rest[i - 1];
        }
      }
    }
  }

  function SortBy<T>(s: seq<T>, key: T -> int): (r: seq<T>)
    ensures multiset(r) == multiset(s)
    ensures SortedBy(r, key)
  {
    if s == [] then []
    else
      assert s == [s[0]] + s[1..];
      InsertSorted(s[0], SortBy(s[1..], key), key);
      Insert(s[0], SortBy(s[1..], key), key)
  }

  lemma SortByLength<T>(s: seq<T>, key: T -> int)
    ensures |SortBy(s, key)| == |s|
  {
    assert |multiset(SortBy(s, key))| == |multiset(s)|;
  }

  /** Stability of one insertion: among the elements with key `k`, `x`
      comes first when it has that key. */
  lemma {:induction false} InsertKeyFilter<T>(x: T, s: seq<T>, key: T -> int, k: int)
    ensures KeyFilter(Insert(x, s, key), key, k)
         == (if key(x) == k then [x] else []) + KeyFilter(s, key, k)
  {
    var fx := if key(x) == k then [x] else [];
    if s == [] || key(x) <= key(s[0]) {
      var r := [x] + s;
      assert r[0] == x && r[1..] == s;
      assert KeyFilter(r, key, k) == fx + KeyFilter(s, key, k);
    } else {
      var h, t := s[0], Insert(x, s[1..], key);
      var fh := if key(h) == k then [h] else [];
      InsertKeyFilter(x, s[1..], key, k);
      assert ([h] + t)[0] == h && ([h] + t)[1..] == t;
      assert KeyFilter([h] + t, key, k) == fh + (fx + KeyFilter(s[1..], key, k));
      assert KeyFilter(s, key, k) == fh + KeyFilter(s[1..], key, k);
      assert fh == [] || fx == [];
    }
  }

  /** Sorting is stable: the elements sharing any one key keep their order. */
  lemma {:induction false} SortByStable<T>(s: seq<T>, key: T -> int, k: int)
    ensures KeyFilter(SortBy(s, key), key, k) == KeyFilter(s, key, k)
  {
    if s != [] {
      SortByStable(s[1..], key, k);
      InsertKeyFilter(s[0], SortBy(s[1..], key), key, k);
    }
  }

  lemma {:induction false} InsertSum<T>(x: T, s: seq<T>, key: T -> int, w: T -> int)
    ensures SumBy(Insert(x, s, key), w) == w(x) + SumBy(s, w)
  {
    if s == [] || key(x) <= key(s[0]) {
      assert ([x] + s)[1..] == s;
    } else {
      InsertSum(x, s[1..], key, w);
      assert ([s[0]] + Insert(x, s[1..], key))[1..] == Insert(x, s[1..], key);
    }
  }

  /** Sorting does not change any sum over the elements. */
  lemma {:induction false} SortBySum<T>(s: seq<T>, key: T -> int, w: T -> int)
    ensures SumBy(SortBy(s, key), w) == SumBy(s, w)
  {
    if s != [] {
      SortBySum(s[1..], key, w);
      InsertSum(s[0], SortBy(s[1..], key), key, w);
    }
  }

  lemma {:induction false} InsertFlatMap<T, U>(x: T, s: seq<T>, key: T -> int, f: T -> seq<U>)
    ensures multiset(FlatMap(Insert(x, s, key), f)) == multiset(f(x)) + multiset(FlatMap(s, f))
  {
    if s == [] || key(x) <= key(s[0]) {
      assert ([x] + s)[1..] == s;
    } else {
      InsertFlatMap(x, s[1..], key, f);
      assert ([s[0]] + Insert(x, s[1..], key))[1..] == Insert(x, s[1..], key);
    }
  }

  /** Sorting does not change the multiset of everything the elements carry. */
  lemma {:induction false} SortByFlatMap<T, U>(s: seq<T>, key: T -> int, f: T -> seq<U>)
    ensures multiset(FlatMap(SortBy(s, key), f)) == multiset(FlatMap(s, f))
  {
    if s != [] {
      SortByFlatMap(s[1..], key, f);
      InsertFlatMap(s[0], SortBy(s[1..], key), key, f);
    }
  }
}
