/** The `sort((a, b) => key(b) - key(a))` the application uses to rank
    offenders and groups: a stable sort by a numeric key, largest first.
    (ECMAScript requires `Array.prototype.sort` to be stable, so elements
    with equal keys keep their original relative order.) */
module Sorting {
  import opened Seqs

  /** Non-increasing key order. */
  predicate SortedDesc<T>(s: seq<T>, key: T -> int)
  {
    forall i, j :: 0 <= i < j < |s| ==> key(s[i]) >= key(s[j])
  }

  /** Inserts x before the first element whose key is not larger than x's. */
  function Insert<T(==)>(x: T, s: seq<T>, key: T -> int): (r: seq<T>)
    ensures |r| == |s| + 1
    ensures multiset(r) == multiset(s) + multiset{x}
    decreases |s|
  {
    if s == [] then [x]
    else if key(x) >= key(s[0]) then [x] + s
    else
      assert s == [s[0]] + s[1..];
      [s[0]] + Insert(x, s[1..], key)
  }

  lemma {:induction false} InsertSorted<T>(x: T, s: seq<T>, key: T -> int)
    requires SortedDesc(s, key)
    ensures SortedDesc(Insert(x, s, key), key)
    decreases |s|
  {
    if s != [] && key(x) < key(s[0]) {
      var t := Insert(x, s[1..], key);
      InsertSorted(x, s[1..], key);
      var r := Insert(x, s, key);
      assert r == [s[0]] + t;
      assert key(t[0]) <= key(s[0]) by {
        if |s| > 1 && key(x) < key(s[1]) {
          assert t[0] == s[1];
        } else {
          assert t[0] == x;
        }
      }
      forall i, j | 0 <= i < j < |r|
        ensures key(r[i]) >= key(r[j])
      {
        if i == 0 {
          assert key(r[j]) <= key(t[0]);
        }
      }
    }
  }

  /** Inserting x adds x to the front of its own key class and leaves the other classes alone. */
  lemma {:induction false} InsertWithKey<T>(x: T, s: seq<T>, key: T -> int, k: int)
    ensures WithKey(Insert(x, s, key), key, k)
         == (if key(x) == k then [x] else []) + WithKey(s, key, k)
    decreases |s|
  {
    if s == [] {
      WithKeyCons(x, [], key, k);
    } else if key(x) >= key(s[0]) {
      WithKeyCons(x, s, key, k);
    } else {
      var tail := Insert(x, s[1..], key);
      InsertWithKey(x, s[1..], key, k);
      WithKeyCons(s[0], tail, key, k);
      WithKeyCons(s[0], s[1..], key, k);
      assert [s[0]] + s[1..] == s;
    }
  }

  /** `s.slice().sort((a, b) => key(b) - key(a))`, stable. */
  function SortDesc<T(==)>(s: seq<T>, key: T -> int): (r: seq<T>)
    ensures multiset(r) == multiset(s)
    ensures |r| == |s|
    ensures SortedDesc(r, key)
    ensures forall k :: WithKey(r, key, k) == WithKey(s, key, k)
    decreases |s|
  {
    if s == [] then []
    else
      var rest := SortDesc(s[1..], key);
      InsertSorted(s[0], rest, key);
      InsertKeepsClasses(s, rest, key);
      assert s == [s[0]] + s[1..];
      Insert(s[0], rest, key)
  }

  /** Inserting the head of s into a rearrangement of its tail with the same key
      classes gives back s's key classes. */
  lemma InsertKeepsClasses<T>(s: seq<T>, rest: seq<T>, key: T -> int)
    requires s != []
    requires forall k :: WithKey(rest, key, k) == WithKey(s[1..], key, k)
    ensures forall k :: WithKey(Insert(s[0], rest, key), key, k) == WithKey(s, key, k)
  {
    forall k
      ensures WithKey(Insert(s[0], rest, key), key, k) == WithKey(s, key, k)
    {
      InsertWithKey(s[0], rest, key, k);
      WithKeyCons(s[0], s[1..], key, k);
      assert [s[0]] + s[1..] == s;
    }
  }

  /** The elements of a sorted sequence are exactly the elements of the input. */
  lemma SortDescMembers<T>(s: seq<T>, key: T -> int, x: T)
    ensures x in SortDesc(s, key) <==> x in s
  {
    var r := SortDesc(s, key);
    assert x in r <==> x in multiset(r);
    assert x in s <==> x in multiset(s);
  }

  /** The head of the sorted sequence is an element of the input with the largest key. */
  lemma SortDescHeadIsMax<T>(s: seq<T>, key: T -> int)
    requires s != []
    ensures SortDesc(s, key)[0] in s
    ensures forall i :: 0 <= i < |s| ==> key(s[i]) <= key(SortDesc(s, key)[0])
  {
    var r := SortDesc(s, key);
    assert r[0] in multiset(r);
    forall i | 0 <= i < |s|
      ensures key(s[i]) <= key(r[0])
    {
      assert s[i] in multiset(s);
      var j :| 0 <= j < |r| && r[j] == s[i];
    }
  }

  /** Two sorted runs, the first ranking no lower than the second, make one sorted run. */
  lemma SortedDescAppend<T>(a: seq<T>, b: seq<T>, key: T -> int)
    requires SortedDesc(a, key) && SortedDesc(b, key)
    requires forall i, j :: 0 <= i < |a| && 0 <= j < |b| ==> key(a[i]) >= key(b[j])
    ensures SortedDesc(a + b, key)
  {
    var r := a + b;
    forall i, j | 0 <= i < j < |r|
      ensures key(r[i]) >= key(r[j])
    {
      if j < |a| {
        assert r[i] == a[i] && r[j] == a[j];
      } else if i >= |a| {
        assert r[i] == b[i - |a|] && r[j] == b[j - |a|];
      } else {
        assert r[i] == a[i] && r[j] == b[j - |a|];
      }
    }
  }
}
