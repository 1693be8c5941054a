/** The one sort the app uses, in three places (`[...].sort((a, b) => ka - kb)`
    on a tier scale, a cohort and a grade's students): a STABLE sort ascending by a
    real-valued key. A descending sort by `m` is the ascending sort by `-m`.
    ECMAScript requires `Array.prototype.sort` to be stable, and the stable sorted
    permutation of a sequence is unique (`StableSortIsUnique`), so modelling it by
    insertion sort describes exactly the order the app produces. */
module Sorting {
  import opened Util

  /** `xs` is in ascending order of `key`. */
  ghost predicate SortedBy<T>(xs: seq<T>, key: T -> real)
  {
    forall i, j :: 0 <= i < j < |xs| ==> key(xs[i]) <= key(xs[j])
  }

  /** The elements of `xs` whose key is `k`, in their order in `xs`. */
  function KeyClass<T>(xs: seq<T>, key: T -> real, k: real): seq<T>
  {
    if |xs| == 0 then []
    else (if key(xs[0]) == k then [xs[0]] else []) + KeyClass(xs[1..], key, k)
  }

  /** Inserts `x` in front of the first element whose key is not below `x`'s. */
  function Insert<T>(x: T, s: seq<T>, key: T -> real): (r: seq<T>)
    ensures |r| == |s| + 1
  {
    if |s| == 0 then [x]
    else if key(x) <= key(s[0]) then [x] + s
    else [s[0]] + Insert(x, s[1..], key)
  }

  function Sort<T>(xs: seq<T>, key: T -> real): (r: seq<T>)
    ensures |r| == |xs|
  {
    if |xs| == 0 then [] else Insert(xs[0], Sort(xs[1..], key), key)
  }

  /** The earliest element of `xs` satisfying `p` whose key is least among
      those satisfying `p`: the reference meaning of "sort, then find". */
  function FirstLeast<T>(xs: seq<T>, p: T -> bool, key: T -> real): Option<T>
  {
    if |xs| == 0 then None
    else
      var rest := FirstLeast(xs[1..], p, key);
      if p(xs[0]) && (rest.None? || key(xs[0]) <= key(rest.value)) then Some(xs[0]) else rest
  }

  /** Index `i` holds the first of the least-keyed elements satisfying `p`. */
  ghost predicate IsFirstLeast<T>(xs: seq<T>, p: T -> bool, key: T -> real, i: int)
  {
    && 0 <= i < |xs|
    && p(xs[i])
    && (forall j :: 0 <= j < |xs| && p(xs[j]) ==> key(xs[i]) <= key(xs[j]))
    && (forall j :: 0 <= j < i && p(xs[j]) ==> key(xs[i]) < key(xs[j]))
  }

  // ---------------------------------------------------------------------------
  // Insert

  lemma {:induction false} InsertPermutes<T>(x: T, s: seq<T>, key: T -> real)
    ensures multiset(Insert(x, s, key)) == multiset{x} + multiset(s)
  {
    if |s| > 0 && key(x) > key(s[0]) {
      InsertPermutes(x, s[1..], key);
      assert s == [s[0]] + s[1..];
    }
  }

  lemma {:induction false} InsertSorted<T>(x: T, s: seq<T>, key: T -> real)
    requires SortedBy(s, key)
    ensures SortedBy(Insert(x, s, key), key)
  {
    if |s| > 0 && key(x) > key(s[0]) {
      var t := Insert(x, s[1..], key);
      InsertSorted(x, s[1..], key);
      InsertPermutes(x, s[1..], key);
      forall j | 0 <= j < |t|
        ensures key(s[0]) <= key(t[j])
      {
        assert t[j] in multiset(t);
        assert t[j] == x || t[j] in multiset(s[1..]);
      }
    }
  }

  lemma {:induction false} InsertKeyClass<T>(x: T, s: seq<T>, key: T -> real, k: real)
    ensures KeyClass(Insert(x, s, key), key, k)
         == (if key(x) == k then [x] else []) + KeyClass(s, key, k)
  {
    if |s| == 0 {
    } else if key(x) <= key(s[0]) {
      assert ([x] + s)[1..] == s;
    } else {
      var t := Insert(x, s[1..], key);
      assert ([s[0]] + t)[1..] == t;
      InsertKeyClass(x, s[1..], key, k);
    }
  }

  lemma {:induction false} InsertCount<T>(x: T, s: seq<T>, key: T -> real, p: T -> bool)
    ensures Count(Insert(x, s, key), p) == (if p(x) then 1 else 0) + Count(s, p)
  {
    if |s| == 0 {
    } else if key(x) <= key(s[0]) {
      assert ([x] + s)[1..] == s;
    } else {
      var t := Insert(x, s[1..], key);
      assert ([s[0]] + t)[1..] == t;
      InsertCount(x, s[1..], key, p);
    }
  }

  lemma {:induction false} InsertFind<T>(x: T, s: seq<T>, key: T -> real, p: T -> bool)
    requires SortedBy(s, key)
    ensures Find(Insert(x, s, key), p)
         == (var f := Find(s, p);
             if p(x) && (f.None? || key(x) <= key(f.value)) then Some(x) else f)
  {
    if |s| == 0 {
    } else if key(x) <= key(s[0]) {
      assert ([x] + s)[1..] == s;
      var f := Find(s, p);
      if f.Some? {
        var i :| 0 <= i < |s| && s[i] == f.value;
        assert key(s[0]) <= key(s[i]) by {
          if i > 0 { assert 0 < i; }
        }
      }
    } else {
      var t := Insert(x, s[1..], key);
      assert ([s[0]] + t)[1..] == t;
      InsertFind(x, s[1..], key, p);
    }
  }

  // ---------------------------------------------------------------------------
  // Sort

  /** The sort returns a permutation of its input. */
  lemma {:induction false} SortPermutes<T>(xs: seq<T>, key: T -> real)
    ensures multiset(Sort(xs, key)) == multiset(xs)
  {
    if |xs| > 0 {
      SortPermutes(xs[1..], key);
      InsertPermutes(xs[0], Sort(xs[1..], key), key);
      assert xs == [xs[0]] + xs[1..];
    }
  }

  /** The sort returns its input in ascending key order. */
  lemma {:induction false} SortSorts<T>(xs: seq<T>, key: T -> real)
    ensures SortedBy(Sort(xs, key), key)
  {
    if |xs| > 0 {
      SortSorts(xs[1..], key);
      InsertSorted(xs[0], Sort(xs[1..], key), key);
    }
  }

  /** Stability: elements with equal keys keep their relative input order. */
  lemma {:induction false} SortStable<T>(xs: seq<T>, key: T -> real, k: real)
    ensures KeyClass(Sort(xs, key), key, k) == KeyClass(xs, key, k)
  {
    if |xs| > 0 {
      SortStable(xs[1..], key, k);
      InsertKeyClass(xs[0], Sort(xs[1..], key), key, k);
    }
  }

  /** Sorting does not change how many elements satisfy a predicate. */
  lemma {:induction false} SortCount<T>(xs: seq<T>, key: T -> real, p: T -> bool)
    ensures Count(Sort(xs, key), p) == Count(xs, p)
  {
    if |xs| > 0 {
      SortCount(xs[1..], key, p);
      InsertCount(xs[0], Sort(xs[1..], key), key, p);
    }
  }

  /** An input already in order is returned unchanged. */
  lemma {:induction false} SortOfSorted<T>(xs: seq<T>, key: T -> real)
    requires SortedBy(xs, key)
    ensures Sort(xs, key) == xs
  {
    if |xs| > 0 {
      assert SortedBy(xs[1..], key) by {
        forall i, j | 0 <= i < j < |xs[1..]|
          ensures key(xs[1..][i]) <= key(xs[1..][j])
        {
          assert xs[1..][i] == xs[i + 1] && xs[1..][j] == xs[j + 1];
        }
      }
      SortOfSorted(xs[1..], key);
      if |xs| > 1 {
        assert key(xs[0]) <= key(xs[1]);
      }
      assert [xs[0]] + xs[1..] == xs;
    }
  }

  /** Finding the first element satisfying `p` in the sorted sequence picks the
      earliest least-keyed element of the input that satisfies `p`. */
  lemma {:induction false} FindInSorted<T>(xs: seq<T>, key: T -> real, p: T -> bool)
    ensures Find(Sort(xs, key), p) == FirstLeast(xs, p, key)
  {
    if |xs| > 0 {
      FindInSorted(xs[1..], key, p);
      SortSorts(xs[1..], key);
      InsertFind(xs[0], Sort(xs[1..], key), key, p);
    }
  }

  /** `FirstLeast` returns the element at the first index holding a least-keyed
      element satisfying `p`, and nothing exactly when no element satisfies `p`. */
  lemma {:induction false} FirstLeastSpec<T>(xs: seq<T>, p: T -> bool, key: T -> real)
    ensures FirstLeast(xs, p, key).None? <==> forall j :: 0 <= j < |xs| ==> !p(xs[j])
    ensures FirstLeast(xs, p, key).Some? ==>
              exists i :: IsFirstLeast(xs, p, key, i) && FirstLeast(xs, p, key).value == xs[i]
  {
    if |xs| > 0 {
      var rest := FirstLeast(xs[1..], p, key);
      FirstLeastSpec(xs[1..], p, key);
      if p(xs[0]) && (rest.None? || key(xs[0]) <= key(rest.value)) {
        assert IsFirstLeast(xs, p, key, 0) by {
          forall j | 0 <= j < |xs| && p(xs[j])
            ensures key(xs[0]) <= key(xs[j])
          {
            if j > 0 {
              assert p(xs[1..][j - 1]);
              var i :| IsFirstLeast(xs[1..], p, key, i) && rest.value == xs[1..][i];
            }
          }
        }
      } else if rest.Some? {
        var i :| IsFirstLeast(xs[1..], p, key, i) && rest.value == xs[1..][i];
        assert IsFirstLeast(xs, p, key, i + 1) by {
          forall j | 0 <= j < |xs| && p(xs[j])
            ensures key(xs[i + 1]) <= key(xs[j])
          {
            if j > 0 { assert p(xs[1..][j - 1]); }
          }
          forall j | 0 <= j < i + 1 && p(xs[j])
            ensures key(xs[i + 1]) < key(xs[j])
          {
            if j > 0 { assert p(xs[1..][j - 1]); }
          }
        }
      } else {
        assert !p(xs[0]);
        forall j | 0 <= j < |xs|
          ensures !p(xs[j])
        {
          if j > 0 { assert xs[j] == xs[1..][j - 1]; }
        }
      }
    }
  }

  /** In a sorted sequence that holds some element with key `c`, the first such
      element sits after exactly the elements whose key is below `c`. */
  lemma {:induction false} FirstIndexOfKey<T>(s: seq<T>, key: T -> real, c: real, p: T -> bool, q: T -> bool)
    requires SortedBy(s, key)
    requires forall k :: 0 <= k < |s| ==> (p(s[k]) <==> key(s[k]) == c)
    requires forall k :: 0 <= k < |s| ==> (q(s[k]) <==> key(s[k]) < c)
    requires exists j :: 0 <= j < |s| && key(s[j]) == c
    ensures FindIndex(s, p) == Count(s, q)
  {
    var j :| 0 <= j < |s| && key(s[j]) == c;
    if key(s[0]) == c {
      forall k | 0 <= k < |s|
        ensures !q(s[k])
      {
        if k > 0 { assert key(s[0]) <= key(s[k]); }
      }
      CountNone(s, q);
    } else {
      assert key(s[0]) < c by {
        if j > 0 { assert key(s[0]) <= key(s[j]); }
      }
      assert 0 < j;
      assert key(s[1..][j - 1]) == c;
      FirstIndexOfKey(s[1..], key, c, p, q);
    }
  }

  // ---------------------------------------------------------------------------
  // Uniqueness of the stable sorted permutation

  lemma {:induction false} KeyClassMembers<T>(xs: seq<T>, key: T -> real, k: real)
    ensures forall x :: x in KeyClass(xs, key, k) <==> x in xs && key(x) == k
  {
    if |xs| > 0 {
      KeyClassMembers(xs[1..], key, k);
      assert xs == [xs[0]] + xs[1..];
    }
  }

  lemma KeyClassOfHead<T>(xs: seq<T>, key: T -> real)
    requires |xs| > 0
    ensures KeyClass(xs, key, key(xs[0])) != []
  {
  }

  /** Two sequences, both sorted by `key` and agreeing on every key class, are
      equal: whatever stable sort the platform runs, it returns `Sort(xs, key)`. */
  lemma {:induction false} StableSortIsUnique<T>(a: seq<T>, b: seq<T>, key: T -> real)
    requires SortedBy(a, key) && SortedBy(b, key)
    requires forall k :: KeyClass(a, key, k) == KeyClass(b, key, k)
    ensures a == b
  {
    if |a| == 0 || |b| == 0 {
      if |a| > 0 {
        KeyClassOfHead(a, key);
        assert false;
      } else if |b| > 0 {
        KeyClassOfHead(b, key);
        assert false;
      }
    } else {
      SortedHeadsAgree(a, b, key);
      SortedTail(a, key);
      SortedTail(b, key);
      forall k
        ensures KeyClass(a[1..], key, k) == KeyClass(b[1..], key, k)
      {
        KeyClassOfTail(a, b, key, k);
      }
      StableSortIsUnique(a[1..], b[1..], key);
      assert a == [a[0]] + a[1..] && b == [b[0]] + b[1..];
    }
  }

  /** Two non-empty sorted sequences with the same key classes start alike. */
  lemma SortedHeadsAgree<T>(a: seq<T>, b: seq<T>, key: T -> real)
    requires |a| > 0 && |b| > 0
    requires SortedBy(a, key) && SortedBy(b, key)
    requires forall k :: KeyClass(a, key, k) == KeyClass(b, key, k)
    ensures a[0] == b[0]
  {
    // The least keys agree: each head's key class is non-empty on the other side.
    KeyClassMembers(a, key, key(b[0]));
    KeyClassMembers(b, key, key(b[0]));
    assert b[0] in KeyClass(a, key, key(b[0]));
    var i :| 0 <= i < |a| && a[i] == b[0];
    assert key(a[0]) <= key(b[0]) by {
      if i > 0 { assert key(a[0]) <= key(a[i]); }
    }
    KeyClassMembers(a, key, key(a[0]));
    KeyClassMembers(b, key, key(a[0]));
    assert a[0] in KeyClass(b, key, key(a[0]));
    var j :| 0 <= j < |b| && b[j] == a[0];
    assert key(b[0]) <= key(a[0]) by {
      if j > 0 { assert key(b[0]) <= key(b[j]); }
    }
    var k0 := key(a[0]);
    assert KeyClass(a, key, k0)[0] == a[0];
    assert KeyClass(b, key, k0)[0] == b[0];
  }

  lemma SortedTail<T>(a: seq<T>, key: T -> real)
    requires |a| > 0 && SortedBy(a, key)
    ensures SortedBy(a[1..], key)
  {
    forall i1, j1 | 0 <= i1 < j1 < |a[1..]|
      ensures key(a[1..][i1]) <= key(a[1..][j1])
    {
      assert a[1..][i1] == a[i1 + 1] && a[1..][j1] == a[j1 + 1];
    }
  }

  /** Dropping equal heads keeps the key classes equal. */
  lemma KeyClassOfTail<T>(a: seq<T>, b: seq<T>, key: T -> real, k: real)
    requires |a| > 0 && |b| > 0 && a[0] == b[0]
    requires KeyClass(a, key, k) == KeyClass(b, key, k)
    ensures KeyClass(a[1..], key, k) == KeyClass(b[1..], key, k)
  {
    var ka := KeyClass(a[1..], key, k);
    var kb := KeyClass(b[1..], key, k);
    var head := if key(a[0]) == k then [a[0]] else [];
    assert KeyClass(a, key, k) == head + ka;
    assert KeyClass(b, key, k) == head + kb;
    assert (head + ka)[|head|..] == ka && (head + kb)[|head|..] == kb;
  }

  /** A prefix of the sorted list is sorted, is drawn from the input, and no
      element left out has a smaller key than one kept. */
  lemma {:induction false} KeyClassAppend<T>(a: seq<T>, b: seq<T>, key: T -> real, k: real)
    ensures KeyClass(a + b, key, k) == KeyClass(a, key, k) + KeyClass(b, key, k)
  {
    if |a| > 0 {
      assert (a + b)[1..] == a[1..] + b;
      KeyClassAppend(a[1..], b, key, k);
    } else {
      assert a + b == b;
    }
  }

  /** Cutting the sorted list keeps, of each group of equal keys, the elements
      that come first in the input: the kept part of a group is a prefix of it. */
  lemma SortedPrefixKeepsEarliest<T>(xs: seq<T>, key: T -> real, m: nat, k: real)
    requires m <= |xs|
    ensures var kept := KeyClass(Sort(xs, key)[..m], key, k);
            var group := KeyClass(xs, key, k);
            |kept| <= |group| && kept == group[..|kept|]
  {
    var sorted := Sort(xs, key);
    assert sorted == sorted[..m] + sorted[m..];
    KeyClassAppend(sorted[..m], sorted[m..], key, k);
    SortStable(xs, key, k);
  }

  lemma SortedPrefix<T>(xs: seq<T>, key: T -> real, m: nat)
    requires m <= |xs|
    ensures var v := Sort(xs, key)[..m];
            && SortedBy(v, key)
            && multiset(v) <= multiset(xs)
            && (forall x :: x in multiset(xs) - multiset(v) ==>
                  forall k :: 0 <= k < |v| ==> key(v[k]) <= key(x))
  {
    var sorted := Sort(xs, key);
    var v := sorted[..m];
    SortPermutes(xs, key);
    SortSorts(xs, key);
    SortedSplit(sorted, key, m);
    assert sorted == v + sorted[m..];
    assert multiset(sorted) == multiset(v) + multiset(sorted[m..]);
    forall x | x in multiset(xs) - multiset(v)
      ensures x in sorted[m..]
    {
    }
  }

  /** Splitting a sorted sequence: the front is sorted and lies below the back. */
  lemma SortedSplit<T>(s: seq<T>, key: T -> real, m: nat)
    requires m <= |s| && SortedBy(s, key)
    ensures SortedBy(s[..m], key)
    ensures forall x :: x in s[m..] ==> forall k :: 0 <= k < m ==> key(s[..m][k]) <= key(x)
  {
    forall x | x in s[m..]
      ensures forall k :: 0 <= k < m ==> key(s[..m][k]) <= key(x)
    {
      var j :| 0 <= j < |s[m..]| && s[m..][j] == x;
      assert s[m + j] == x;
    }
  }
}
