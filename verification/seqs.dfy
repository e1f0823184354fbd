/** Order-preserving selection over sequences, the `Array.prototype.filter`
    that every record manager in the application is built from. */
module Seqs {
  import Values

  /** r is an order-preserving subsequence of s (r keeps a subset of s's
      positions, in their original order). */
  predicate IsSubseq<T(==)>(r: seq<T>, s: seq<T>)
    decreases |s|
  {
    if r == [] then true
    else if s == [] then false
    else (r[0] == s[0] && IsSubseq(r[1..], s[1..])) || IsSubseq(r, s[1..])
  }

  /** `s.filter(p)`. */
  function Filter<T(==)>(s: seq<T>, p: T -> bool): (r: seq<T>)
    ensures |r| <= |s|
    ensures forall i :: 0 <= i < |r| ==> r[i] in s && p(r[i])
    ensures forall i :: 0 <= i < |s| && p(s[i]) ==> s[i] in r
    ensures IsSubseq(r, s)
    decreases |s|
  {
    if s == [] then []
    else
      var rest := Filter(s[1..], p);
      if p(s[0]) then
        assert ([s[0]] + rest)[1..] == rest;
        [s[0]] + rest
      else
        rest
  }

  /** The elements of s whose key is k, in order: one class of a stable partition. */
  function WithKey<T(==), K(==)>(s: seq<T>, key: T -> K, k: K): (r: seq<T>)
    ensures |r| <= |s|
    ensures forall i :: 0 <= i < |r| ==> r[i] in s && key(r[i]) == k
    ensures forall i :: 0 <= i < |s| && key(s[i]) == k ==> s[i] in r
    ensures IsSubseq(r, s)
    decreases |s|
  {
    if s == [] then []
    else
      var rest := WithKey(s[1..], key, k);
      if key(s[0]) == k then
        assert ([s[0]] + rest)[1..] == rest;
        [s[0]] + rest
      else
        rest
  }

  /** A key class is the filter on its key. */
  lemma {:induction false} WithKeyIsFilter<T, K>(s: seq<T>, key: T -> K, k: K, p: T -> bool)
    requires forall x :: p(x) == (key(x) == k)
    ensures WithKey(s, key, k) == Filter(s, p)
    decreases |s|
  {
    if s != [] {
      WithKeyIsFilter(s[1..], key, k, p);
    }
  }

  /** Filtering distributes over concatenation. */
  lemma {:induction false} FilterAppend<T>(a: seq<T>, b: seq<T>, p: T -> bool)
    ensures Filter(a + b, p) == Filter(a, p) + Filter(b, p)
    decreases |a|
  {
    if a == [] {
      assert a + b == b;
    } else {
      assert (a + b)[1..] == a[1..] + b;
      assert (a + b)[0] == a[0];
      FilterAppend(a[1..], b, p);
    }
  }

  /** Selecting a key class distributes over concatenation. */
  lemma {:induction false} WithKeyAppend<T, K>(a: seq<T>, b: seq<T>, key: T -> K, k: K)
    ensures WithKey(a + b, key, k) == WithKey(a, key, k) + WithKey(b, key, k)
    decreases |a|
  {
    if a == [] {
      assert a + b == b;
    } else {
      assert (a + b)[1..] == a[1..] + b;
      assert (a + b)[0] == a[0];
      WithKeyAppend(a[1..], b, key, k);
    }
  }

  /** Two filters in a row select what one conjunctive filter selects. */
  lemma {:induction false} FilterConj<T>(s: seq<T>, p: T -> bool, q: T -> bool, pq: T -> bool)
    requires forall x :: pq(x) == (p(x) && q(x))
    ensures Filter(Filter(s, p), q) == Filter(s, pq)
    decreases |s|
  {
    if s != [] {
      FilterConj(s[1..], p, q, pq);
      if p(s[0]) {
        assert ([s[0]] + Filter(s[1..], p))[1..] == Filter(s[1..], p);
      }
    }
  }

  /** Filters that agree on the elements select the same elements. */
  lemma {:induction false} FilterExt<T>(s: seq<T>, p: T -> bool, q: T -> bool)
    requires forall x :: x in s ==> p(x) == q(x)
    ensures Filter(s, p) == Filter(s, q)
    decreases |s|
  {
    if s != [] {
      FilterExt(s[1..], p, q);
    }
  }

  /** A filter every element passes keeps the whole sequence. */
  lemma {:induction false} FilterAll<T>(s: seq<T>, p: T -> bool)
    requires forall x :: x in s ==> p(x)
    ensures Filter(s, p) == s
    decreases |s|
  {
    if s != [] {
      FilterAll(s[1..], p);
      assert [s[0]] + s[1..] == s;
    }
  }

  /** Filter with a predicate that holds exactly on a prefix of length n keeps n elements. */
  lemma {:induction false} FilterPrefixCount<T>(s: seq<T>, p: T -> bool, n: nat)
    requires n <= |s|
    requires forall i :: 0 <= i < |s| ==> (p(s[i]) <==> i < n)
    ensures |Filter(s, p)| == n
    decreases |s|
  {
    if s != [] {
      assert forall i :: 0 <= i < |s| - 1 ==> s[1..][i] == s[i + 1];
      if n > 0 {
        FilterPrefixCount(s[1..], p, n - 1);
      } else {
        FilterPrefixCount(s[1..], p, 0);
      }
    }
  }

  /** Filter with a predicate that holds exactly on indexes lo..hi-1 keeps hi-lo elements. */
  lemma {:induction false} FilterRangeCount<T>(s: seq<T>, p: T -> bool, lo: nat, hi: nat)
    requires lo <= hi <= |s|
    requires forall i :: 0 <= i < |s| ==> (p(s[i]) <==> lo <= i < hi)
    ensures |Filter(s, p)| == hi - lo
    decreases |s|
  {
    if s != [] {
      assert forall i :: 0 <= i < |s| - 1 ==> s[1..][i] == s[i + 1];
      if lo > 0 {
        FilterRangeCount(s[1..], p, lo - 1, hi - 1);
      } else if hi > 0 {
        FilterRangeCount(s[1..], p, 0, hi - 1);
      } else {
        FilterRangeCount(s[1..], p, 0, 0);
      }
    }
  }

  /** Complementary filters split the sequence: their sizes add up to its length. */
  lemma {:induction false} FilterComplement<T>(s: seq<T>, p: T -> bool, q: T -> bool)
    requires forall x :: q(x) == !p(x)
    ensures |Filter(s, p)| + |Filter(s, q)| == |s|
    decreases |s|
  {
    if s != [] {
      FilterComplement(s[1..], p, q);
    }
  }

  /** The complement of a predicate. */
  function Not<T>(p: T -> bool): T -> bool
  {
    x => !p(x)
  }

  /** What a filter keeps and what it drops make up the whole sequence. */
  lemma FilterSplit<T>(s: seq<T>, p: T -> bool)
    ensures |Filter(s, p)| + |Filter(s, Not(p))| == |s|
  {
    FilterComplement(s, p, Not(p));
  }

  /** A filter keeps the whole length exactly when every element passes. */
  lemma {:induction false} FilterKeepsLength<T>(s: seq<T>, p: T -> bool)
    ensures |Filter(s, p)| == |s| <==> forall i :: 0 <= i < |s| ==> p(s[i])
    decreases |s|
  {
    if s != [] {
      FilterKeepsLength(s[1..], p);
      assert forall i :: 1 <= i < |s| ==> s[i] == s[1..][i - 1];
    }
  }

  /** Two disjoint filters that each imply a third select no more than the third does. */
  lemma {:induction false} FilterDisjointWithin<T>(s: seq<T>, p: T -> bool, q: T -> bool, r: T -> bool)
    requires forall x :: x in s ==> !(p(x) && q(x))
    requires forall x :: x in s && p(x) ==> r(x)
    requires forall x :: x in s && q(x) ==> r(x)
    ensures |Filter(s, p)| + |Filter(s, q)| <= |Filter(s, r)|
    decreases |s|
  {
    if s != [] {
      assert forall x :: x in s[1..] ==> x in s;
      FilterDisjointWithin(s[1..], p, q, r);
    }
  }

  /** Filtering a sequence extended by one element. */
  lemma FilterSnoc<T>(s: seq<T>, x: T, p: T -> bool)
    ensures Filter(s + [x], p) == Filter(s, p) + (if p(x) then [x] else [])
  {
    FilterAppend(s, [x], p);
    assert [x][1..] == [];
  }

  /** A sequence is its prefix followed by the rest. */
  lemma SplitAt<T>(s: seq<T>, n: nat)
    requires n <= |s|
    ensures s == s[..n] + s[n..]
  {
  }

  /** Indexing past the head of a sequence built by prepending one element. */
  lemma ConsIndex<T>(x: T, s: seq<T>)
    ensures forall i :: 1 <= i <= |s| ==> ([x] + s)[i] == s[i - 1]
  {
  }

  /** Indexing into a concatenation. */
  lemma ConcatIndex<T>(a: seq<T>, b: seq<T>)
    ensures forall i :: 0 <= i < |a| ==> (a + b)[i] == a[i]
    ensures forall i :: |a| <= i < |a| + |b| ==> (a + b)[i] == b[i - |a|]
  {
  }

  /** `s.findIndex(p)` as an option: the first position whose element passes, if any. */
  function FirstMatch<T>(s: seq<T>, p: T -> bool): (r: Values.Option<nat>)
    ensures r.Some? ==> r.value < |s| && p(s[r.value])
    ensures r.Some? ==> forall j :: 0 <= j < r.value ==> !p(s[j])
    ensures r.None? <==> forall j :: 0 <= j < |s| ==> !p(s[j])
    decreases |s|
  {
    if s == [] then Values.None
    else if p(s[0]) then Values.Some(0)
    else
      match FirstMatch(s[1..], p)
      case None => Values.None
      case Some(k) => Values.Some(k + 1)
  }

  /** Two sequences of equal length whose elements pass two filters at the same
      positions keep the same number of elements. */
  lemma {:induction false} FilterCountAlong<S, T>(s: seq<S>, p: S -> bool, t: seq<T>, q: T -> bool)
    requires |s| == |t|
    requires forall i :: 0 <= i < |s| ==> (p(s[i]) <==> q(t[i]))
    ensures |Filter(s, p)| == |Filter(t, q)|
    decreases |s|
  {
    if s != [] {
      assert forall i :: 0 <= i < |s| - 1 ==> s[1..][i] == s[i + 1] && t[1..][i] == t[i + 1];
      FilterCountAlong(s[1..], p, t[1..], q);
    }
  }

  /** Every element of a subsequence occurs in the sequence. */
  lemma {:induction false} SubseqMember<T>(r: seq<T>, s: seq<T>, k: nat)
    requires IsSubseq(r, s) && k < |r|
    ensures r[k] in s
    decreases |s|
  {
    if r[0] == s[0] && IsSubseq(r[1..], s[1..]) {
      if k > 0 {
        SubseqMember(r[1..], s[1..], k - 1);
      }
    } else {
      SubseqMember(r, s[1..], k);
    }
  }

  /** A sequence is a subsequence of itself. */
  lemma {:induction false} SubseqRefl<T>(s: seq<T>)
    ensures IsSubseq(s, s)
    decreases |s|
  {
    if s != [] {
      SubseqRefl(s[1..]);
    }
  }

  /** The key class of a sequence with one element in front. */
  lemma WithKeyCons<T, K>(x: T, s: seq<T>, key: T -> K, k: K)
    ensures WithKey([x] + s, key, k) == (if key(x) == k then [x] else []) + WithKey(s, key, k)
  {
    assert ([x] + s)[0] == x;
    assert ([x] + s)[1..] == s;
  }
}
