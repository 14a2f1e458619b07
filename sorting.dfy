/** The Option type used wherever the source returns `None`. */
module Wrappers {
  datatype Option<+T> = None | Some(value: T)
}

/** Python's `sorted(xs, key=f)`: a stable sort, written as an insertion
    sort that puts each element after every element whose key is not larger.
    `sorted(xs, key=f, reverse=True)` is also stable, so it is this sort with
    the key negated. */
module StableSort {
  import opened Wrappers

  predicate SortedBy<T>(s: seq<T>, key: T -> real) {
    forall i, j :: 0 <= i < j < |s| ==> key(s[i]) <= key(s[j])
  }

  /** The elements of `s` whose key is `v`, in their order in `s`. */
  function WithKey<T>(s: seq<T>, key: T -> real, v: real): seq<T> {
    if s == [] then [] else (if key(s[0]) == v then [s[0]] else []) + WithKey(s[1..], key, v)
  }

  /** The first element of `s` satisfying `p`. */
  function FirstWhere<T>(s: seq<T>, p: T -> bool): (r: Option<T>)
    ensures r.None? <==> forall k :: 0 <= k < |s| ==> !p(s[k])
  {
    if s == [] then None else if p(s[0]) then Some(s[0]) else FirstWhere(s[1..], p)
  }

  /** The index of the element `FirstWhere` finds: it satisfies `p` and no earlier one does. */
  lemma {:induction false} FirstWhereIndex<T>(s: seq<T>, p: T -> bool) returns (m: nat)
    requires FirstWhere(s, p).Some?
    ensures m < |s| && s[m] == FirstWhere(s, p).value && p(s[m])
    ensures forall k :: 0 <= k < m ==> !p(s[k])
  {
    if p(s[0]) {
      m := 0;
    } else {
      var m' := FirstWhereIndex(s[1..], p);
      m := m' + 1;
    }
  }

  /** Insert `x` into a sorted `s` after every element whose key is at most `key(x)`. */
  function Insert<T>(x: T, s: seq<T>, key: T -> real): (r: seq<T>)
    ensures |r| == |s| + 1
    ensures multiset(r) == multiset(s) + multiset{x}
  {
    if s == [] then [x]
    else if key(x) < key(s[0]) then [x] + s
    else
      assert s == [s[0]] + s[1..];
      [s[0]] + Insert(x, s[1..], key)
  }

  function SortBy<T>(s: seq<T>, key: T -> real): (r: seq<T>)
    ensures |r| == |s|
    ensures multiset(r) == multiset(s)
  {
    if s == [] then []
    else
      assert s == s[..|s| - 1] + [s[|s| - 1]];
      Insert(s[|s| - 1], SortBy(s[..|s| - 1], key), key)
  }

  lemma {:induction false} InsertSorted<T>(x: T, s: seq<T>, key: T -> real)
    requires SortedBy(s, key)
    ensures SortedBy(Insert(x, s, key), key)
  {
    if s != [] && key(s[0]) <= key(x) {
      InsertSorted(x, s[1..], key);
      var r := Insert(x, s[1..], key);
      forall k | 0 <= k < |r| ensures key(s[0]) <= key(r[k]) {
        assert r[k] in multiset(s[1..]) + multiset{x};
        if r[k] in multiset(s[1..]) {
          var q :| 0 <= q < |s[1..]| && s[1..][q] == r[k];
          assert s[q + 1] == r[k];
        }
      }
    }
  }

  /** The result of `SortBy` is ordered by the key. */
  lemma {:induction false} SortBySorted<T>(s: seq<T>, key: T -> real)
    ensures SortedBy(SortBy(s, key), key)
  {
    if s != [] {
      SortBySorted(s[..|s| - 1], key);
      InsertSorted(s[|s| - 1], SortBy(s[..|s| - 1], key), key);
    }
  }

  lemma {:induction false} WithKeyAppend<T>(a: seq<T>, b: seq<T>, key: T -> real, v: real)
    ensures WithKey(a + b, key, v) == WithKey(a, key, v) + WithKey(b, key, v)
  {
    if a == [] {
      assert a + b == b;
    } else {
      var h := if key(a[0]) == v then [a[0]] else [];
      assert (a + b)[0] == a[0];
      assert (a + b)[1..] == a[1..] + b;
      WithKeyAppend(a[1..], b, key, v);
      assert WithKey(a + b, key, v) == h + (WithKey(a[1..], key, v) + WithKey(b, key, v));
      assert WithKey(a, key, v) == h + WithKey(a[1..], key, v);
    }
  }

  lemma {:induction false} WithKeyAbove<T>(s: seq<T>, key: T -> real, v: real)
    requires forall k :: 0 <= k < |s| ==> v < key(s[k])
    ensures WithKey(s, key, v) == []
  {
    if s != [] {
      WithKeyAbove(s[1..], key, v);
    }
  }

  lemma {:induction false} InsertWithKey<T>(x: T, s: seq<T>, key: T -> real, v: real)
    requires SortedBy(s, key)
    ensures WithKey(Insert(x, s, key), key, v) == WithKey(s, key, v) + (if key(x) == v then [x] else [])
  {
    if s == [] {
    } else if key(x) < key(s[0]) {
      if key(x) == v {
        WithKeyAbove(s, key, v);
      }
      assert ([x] + s)[1..] == s;
    } else {
      InsertWithKey(x, s[1..], key, v);
      assert ([s[0]] + Insert(x, s[1..], key))[1..] == Insert(x, s[1..], key);
    }
  }

  /** Stability: for every key value, the elements with that key keep their relative order. */
  lemma {:induction false} SortByStable<T>(s: seq<T>, key: T -> real, v: real)
    ensures WithKey(SortBy(s, key), key, v) == WithKey(s, key, v)
  {
    if s != [] {
      var init, last := s[..|s| - 1], s[|s| - 1];
      SortByStable(init, key, v);
      SortBySorted(init, key);
      InsertWithKey(last, SortBy(init, key), key, v);
      assert SortBy(s, key) == Insert(last, SortBy(init, key), key);
      WithKeySplitLast(s, key, v);
    }
  }

  lemma WithKeySplitLast<T>(s: seq<T>, key: T -> real, v: real)
    requires s != []
    ensures WithKey(s, key, v)
         == WithKey(s[..|s| - 1], key, v) + (if key(s[|s| - 1]) == v then [s[|s| - 1]] else [])
  {
    assert s == s[..|s| - 1] + [s[|s| - 1]];
    WithKeyAppend(s[..|s| - 1], [s[|s| - 1]], key, v);
    assert [s[|s| - 1]][1..] == [];
  }

  /** In any sequence, the first element that satisfies `p` and has key `v` is
      the first element of the key-`v` class that satisfies `p`. */
  lemma {:induction false} FirstInClass<T>(t: seq<T>, key: T -> real, p: T -> bool, v: real, i: nat)
    requires i < |t| && p(t[i]) && key(t[i]) == v
    requires forall j :: 0 <= j < i ==> !(p(t[j]) && key(t[j]) == v)
    ensures FirstWhere(WithKey(t, key, v), p) == Some(t[i])
  {
    var head := if key(t[0]) == v then [t[0]] else [];
    assert WithKey(t, key, v) == head + WithKey(t[1..], key, v);
    if i == 0 {
      assert (head + WithKey(t[1..], key, v))[0] == t[0];
    } else {
      FirstInClass(t[1..], key, p, v, i - 1);
      if head != [] {
        assert !p(t[0]);
        assert (head + WithKey(t[1..], key, v))[0] == t[0];
        assert (head + WithKey(t[1..], key, v))[1..] == WithKey(t[1..], key, v);
      } else {
        assert head + WithKey(t[1..], key, v) == WithKey(t[1..], key, v);
      }
    }
  }

  /** Scanning a stably sorted sequence for the first element satisfying `p`
      finds an element of least key among those satisfying `p`, and among
      the elements of that key it finds the one that comes first in `s`. */
  lemma SortedFirstWhere<T>(s: seq<T>, key: T -> real, p: T -> bool, m: nat)
    requires m < |SortBy(s, key)| && p(SortBy(s, key)[m])
    requires forall k :: 0 <= k < m ==> !p(SortBy(s, key)[k])
    ensures forall i :: 0 <= i < |s| && p(s[i]) ==> key(SortBy(s, key)[m]) <= key(s[i])
    ensures forall i :: 0 <= i < |s| && p(s[i]) && key(s[i]) == key(SortBy(s, key)[m])
              && (forall j :: 0 <= j < i ==> !(p(s[j]) && key(s[j]) == key(s[i])))
              ==> s[i] == SortBy(s, key)[m]
  {
    var r := SortBy(s, key);
    var v := key(r[m]);
    SortBySorted(s, key);
    forall i | 0 <= i < |s| && p(s[i]) ensures v <= key(s[i]) {
      assert s[i] in multiset(r);
      var q :| 0 <= q < |r| && r[q] == s[i];
      assert p(r[q]);
      assert m <= q;
    }
    forall i | 0 <= i < |s| && p(s[i]) && key(s[i]) == v
        && (forall j :: 0 <= j < i ==> !(p(s[j]) && key(s[j]) == key(s[i])))
      ensures s[i] == r[m]
    {
      FirstInClass(s, key, p, v, i);
      FirstInClass(r, key, p, v, m);
      SortByStable(s, key, v);
    }
  }
}
