/** Ordering by a real-valued key, largest key first, as both passes of
    `mesh2screen` use it (src/obj_parser.cpp).  `std::sort` leaves the order
    of equal keys unspecified; the model fixes it with a stable insertion
    sort, one of the orders the source may produce. */
module Sorting {

  /** Non-increasing by `key`. */
  ghost predicate SortedDesc<T>(s: seq<T>, key: T -> real) {
    forall i, j :: 0 <= i < j < |s| ==> key(s[i]) >= key(s[j])
  }

  /** Inserts `x` in front of the first element whose key is not larger. */
  function Insert<T>(x: T, s: seq<T>, key: T -> real): (r: seq<T>)
    ensures |r| == |s| + 1
    ensures multiset(r) == multiset(s) + multiset{x}
    ensures r[0] == x || (s != [] && r[0] == s[0])
    ensures SortedDesc(s, key) ==> SortedDesc(r, key)
    decreases |s|
  {
    if s == [] || key(x) >= key(s[0]) then
      assert SortedDesc(s, key) ==> SortedDesc([x] + s, key) by {
        if SortedDesc(s, key) {
          ConsSorted(x, s, key);
        }
      }
      [x] + s
    else
      var rest := Insert(x, s[1..], key);
      assert s == [s[0]] + s[1..];
      assert SortedDesc(s, key) ==> SortedDesc([s[0]] + rest, key) by {
        if SortedDesc(s, key) {
          assert SortedDesc(s[1..], key);
          ConsSorted(s[0], rest, key);
        }
      }
      [s[0]] + rest
  }

  /** A sorted sequence stays sorted under a head whose key is not smaller. */
  lemma ConsSorted<T>(y: T, s: seq<T>, key: T -> real)
    requires SortedDesc(s, key)
    requires s == [] || key(y) >= key(s[0])
    ensures SortedDesc([y] + s, key)
  {
    var r := [y] + s;
    forall i, j | 0 <= i < j < |r|
      ensures key(r[i]) >= key(r[j])
    {
      if i == 0 {
        assert key(s[0]) >= key(s[j - 1]);
      } else {
        assert r[i] == s[i - 1] && r[j] == s[j - 1];
      }
    }
  }

  /** Insertion sort: a permutation of `s` in non-increasing key order. */
  function SortDesc<T>(s: seq<T>, key: T -> real): (r: seq<T>)
    ensures |r| == |s|
    ensures multiset(r) == multiset(s)
    ensures SortedDesc(r, key)
    decreases |s|
  {
    if s == [] then []
    else
      assert s == [s[0]] + s[1..];
      Insert(s[0], SortDesc(s[1..], key), key)
  }

  /** Sorting an already sorted sequence changes nothing. */
  lemma {:induction false} SortDescOfSorted<T>(s: seq<T>, key: T -> real)
    requires SortedDesc(s, key)
    ensures SortDesc(s, key) == s
    decreases |s|
  {
    if s != [] {
      SortDescOfSorted(s[1..], key);
      assert s == [s[0]] + s[1..];
    }
  }

  lemma SortedDescThree<T>(x: T, y: T, z: T, key: T -> real)
    requires key(x) >= key(y) >= key(z)
    ensures SortedDesc([x, y, z], key)
  {
  }

  lemma SortedDescOfThree<T>(s: seq<T>, key: T -> real)
    requires |s| == 3 && SortedDesc(s, key)
    ensures key(s[0]) >= key(s[1]) >= key(s[2])
  {
  }

  /** Every element of a permutation of `t` has a position in `t`. */
  lemma PermutationIndex<T>(s: seq<T>, t: seq<T>, k: int) returns (i: int)
    requires multiset(s) == multiset(t)
    requires 0 <= k < |s|
    ensures 0 <= i < |t| && t[i] == s[k]
  {
    assert s[k] in multiset(s);
    assert s[k] in multiset(t);
    i :| 0 <= i < |t| && t[i] == s[k];
  }

  /** Sum of `f` over a sequence. */
  function Sum<T>(s: seq<T>, f: T -> real): real
    decreases |s|
  {
    if s == [] then 0.0 else f(s[0]) + Sum(s[1..], f)
  }

  lemma {:induction false} SumConcat<T>(s: seq<T>, t: seq<T>, f: T -> real)
    ensures Sum(s + t, f) == Sum(s, f) + Sum(t, f)
    decreases |s|
  {
    if s != [] {
      assert (s + t)[1..] == s[1..] + t;
      SumConcat(s[1..], t, f);
    } else {
      assert s + t == t;
    }
  }

  /** Taking the term at `i` out of a sequence. */
  lemma SumRemove<T>(t: seq<T>, i: int, f: T -> real)
    requires 0 <= i < |t|
    ensures Sum(t, f) == f(t[i]) + Sum(t[..i] + t[i + 1..], f)
  {
    assert t == t[..i] + [t[i]] + t[i + 1..];
    SumConcat(t[..i] + [t[i]], t[i + 1..], f);
    SumConcat(t[..i], [t[i]], f);
    SumConcat(t[..i], t[i + 1..], f);
    assert Sum([t[i]], f) == f(t[i]) by {
      assert [t[i]][1..] == [];
    }
  }

  /** Removing the head of `s` and an equal element of a permutation `t`
      leaves permutations of each other. */
  lemma RemoveMatching<T>(s: seq<T>, t: seq<T>, i: int)
    requires multiset(s) == multiset(t)
    requires s != [] && 0 <= i < |t| && t[i] == s[0]
    ensures multiset(s[1..]) == multiset(t[..i] + t[i + 1..])
  {
    assert t == t[..i] + [t[i]] + t[i + 1..];
    assert multiset(t) == multiset(t[..i]) + multiset{t[i]} + multiset(t[i + 1..]);
    assert multiset(t[..i] + t[i + 1..]) == multiset(t[..i]) + multiset(t[i + 1..]);
    assert s == [s[0]] + s[1..];
    assert multiset(s) == multiset{s[0]} + multiset(s[1..]);
    calc {
      multiset(s[1..]);
      multiset(s) - multiset{s[0]};
      multiset(t) - multiset{t[i]};
      multiset(t[..i]) + multiset(t[i + 1..]);
    }
  }

  /** A sum does not depend on the order of its terms. */
  lemma {:induction false} SumPermutation<T>(s: seq<T>, t: seq<T>, f: T -> real)
    requires multiset(s) == multiset(t)
    ensures Sum(s, f) == Sum(t, f)
    decreases |s|
  {
    if s == [] {
      assert |t| == |multiset(t)| == 0;
    } else {
      var i := PermutationIndex(s, t, 0);
      RemoveMatching(s, t, i);
      SumPermutation(s[1..], t[..i] + t[i + 1..], f);
      SumRemove(t, i, f);
    }
  }
}
