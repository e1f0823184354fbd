/** The "accumulate into an object keyed by some field" idiom the application
    uses for repeat violators, per-type and per-building reports and the
    per-plate-per-day report rows:

      items.forEach(x => { if (!acc[key(x)]) acc[key(x)] = {count: 0, list: []};
                           acc[key(x)].count++; acc[key(x)].list.push(x); });
      Object.values(acc)

    Groups come out in order of first occurrence of their key. */
module Grouping {
  import opened Values
  import opened Seqs
  import opened Sorting

  /** One accumulator entry: its key, the running counter and the collected items. */
  datatype Group<K, T> = Group(key: K, count: nat, members: seq<T>)

  /** The keys of s, each once, in order of first occurrence. */
  function DistinctKeys<T, K(==)>(s: seq<T>, key: T -> K): (ks: seq<K>)
    ensures |ks| <= |s|
    ensures forall i, j :: 0 <= i < j < |ks| ==> ks[i] != ks[j]
    ensures forall i :: 0 <= i < |s| ==> key(s[i]) in ks
    ensures forall k :: k in ks ==> exists i :: 0 <= i < |s| && key(s[i]) == k
    decreases |s|
  {
    if s == [] then []
    else
      var init := s[..|s| - 1];
      var ks := DistinctKeys(init, key);
      assert forall i :: 0 <= i < |init| ==> init[i] == s[i];
      if key(s[|s| - 1]) in ks then ks else ks + [key(s[|s| - 1])]
  }

  /** Appending an item adds its key at the end exactly when the key is new. */
  lemma DistinctKeysSnoc<T, K>(s: seq<T>, x: T, key: T -> K)
    ensures DistinctKeys(s + [x], key) ==
            if key(x) in DistinctKeys(s, key) then DistinctKeys(s, key) else DistinctKeys(s, key) + [key(x)]
  {
    assert (s + [x])[..|s|] == s;
  }

  /** The position of the first element of s with key k (|s| when there is none). */
  function FirstIndex<T, K(==)>(s: seq<T>, key: T -> K, k: K): (i: nat)
    ensures i <= |s|
    ensures i < |s| ==> key(s[i]) == k
    ensures forall j :: 0 <= j < i ==> key(s[j]) != k
    decreases |s|
  {
    if s == [] then 0 else if key(s[0]) == k then 0 else 1 + FirstIndex(s[1..], key, k)
  }

  lemma {:induction false} FirstIndexPrefix<T, K>(s: seq<T>, n: nat, key: T -> K, k: K)
    requires n <= |s|
    requires FirstIndex(s[..n], key, k) < n
    ensures FirstIndex(s, key, k) == FirstIndex(s[..n], key, k)
  {
    var i := FirstIndex(s[..n], key, k);
    var j := FirstIndex(s, key, k);
    assert s[..n][i] == s[i];
  }

  /** DistinctKeys lists the keys in strictly increasing order of first occurrence. */
  lemma {:induction false} DistinctKeysOrdered<T, K>(s: seq<T>, key: T -> K)
    ensures forall i, j :: 0 <= i < j < |DistinctKeys(s, key)| ==>
              FirstIndex(s, key, DistinctKeys(s, key)[i]) < FirstIndex(s, key, DistinctKeys(s, key)[j])
    decreases |s|
  {
    if s != [] {
      var n := |s| - 1;
      var init := s[..n];
      var ks := DistinctKeys(init, key);
      var last := key(s[n]);
      var ds := DistinctKeys(s, key);
      DistinctKeysOrdered(init, key);
      EarlierKeysKeepFirst(s, key);
      assert ds == if last in ks then ks else ks + [last];
      if last !in ks {
        assert FirstIndex(s, key, last) == n by {
          assert forall f :: 0 <= f < n ==> init[f] == s[f];
        }
      }
      forall i, j | 0 <= i < j < |ds|
        ensures FirstIndex(s, key, ds[i]) < FirstIndex(s, key, ds[j])
      {
        assert ds[i] == ks[i] && ks[i] in ks;
        assert FirstIndex(s, key, ks[i]) == FirstIndex(init, key, ks[i]);
        if j < |ks| {
          assert ds[j] == ks[j] && ks[j] in ks;
          assert FirstIndex(s, key, ks[j]) == FirstIndex(init, key, ks[j]);
        } else {
          assert ds[j] == last && FirstIndex(s, key, last) == n;
        }
      }
    }
  }

  /** The keys seen before the last element keep their first position, which lies before it. */
  lemma EarlierKeysKeepFirst<T, K>(s: seq<T>, key: T -> K)
    requires s != []
    ensures forall k :: k in DistinctKeys(s[..|s| - 1], key) ==>
              FirstIndex(s, key, k) == FirstIndex(s[..|s| - 1], key, k) < |s| - 1
  {
    var n := |s| - 1;
    var init := s[..n];
    forall k | k in DistinctKeys(init, key)
      ensures FirstIndex(s, key, k) == FirstIndex(init, key, k) < n
    {
      var w :| 0 <= w < |init| && key(init[w]) == k;
      FirstIndexPrefix(s, n, key, k);
    }
  }

  /** The index of the group with key k (|gs| when there is none): `acc[k]`. */
  function Find<K(==), T>(gs: seq<Group<K, T>>, k: K): (i: nat)
    ensures i <= |gs|
    ensures i < |gs| ==> gs[i].key == k
    ensures forall j :: 0 <= j < i ==> gs[j].key != k
    decreases |gs|
  {
    if gs == [] then 0 else if gs[0].key == k then 0 else 1 + Find(gs[1..], k)
  }

  /** One `forEach` step: bump the counter and push the item, creating the entry on first sight. */
  function AddItem<K(==), T>(gs: seq<Group<K, T>>, k: K, x: T): seq<Group<K, T>>
  {
    var i := Find(gs, k);
    if i < |gs| then gs[i := Group(k, gs[i].count + 1, gs[i].members + [x])]
    else gs + [Group(k, 1, [x])]
  }

  lemma WithKeySnoc<T, K>(s: seq<T>, x: T, key: T -> K)
    ensures forall k :: WithKey(s + [x], key, k) == WithKey(s, key, k) + (if key(x) == k then [x] else [])
  {
    forall k
      ensures WithKey(s + [x], key, k) == WithKey(s, key, k) + (if key(x) == k then [x] else [])
    {
      WithKeyAppend(s, [x], key, k);
      assert WithKey([x], key, k) == (if key(x) == k then [x] else []) by {
        assert [x][1..] == [];
      }
    }
  }

  /** AddItem keeps the keys in place and appends a key seen for the first time. */
  lemma AddItemKeys<K, T>(gs: seq<Group<K, T>>, ks: seq<K>, k: K, x: T)
    requires |gs| == |ks|
    requires forall i :: 0 <= i < |gs| ==> gs[i].key == ks[i]
    ensures var ks' := if k in ks then ks else ks + [k];
            |AddItem(gs, k, x)| == |ks'| &&
            forall i :: 0 <= i < |ks'| ==> AddItem(gs, k, x)[i].key == ks'[i]
  {
  }

  /** A key no element carries selects nothing. */
  lemma {:induction false} WithKeyAbsent<T, K>(s: seq<T>, key: T -> K, k: K)
    requires forall i :: 0 <= i < |s| ==> key(s[i]) != k
    ensures WithKey(s, key, k) == []
    decreases |s|
  {
    if s != [] {
      WithKeyAbsent(s[1..], key, k);
    }
  }

  /** One key class after appending x. */
  lemma WithKeySnocOne<T, K>(s: seq<T>, x: T, key: T -> K, k: K)
    ensures WithKey(s + [x], key, k) == WithKey(s, key, k) + (if key(x) == k then [x] else [])
  {
    WithKeyAppend(s, [x], key, k);
    assert [x][1..] == [];
  }

  /** Pushing x onto the existing group j keeps every group equal to its key class. */
  lemma AddItemExisting<T, K>(gs: seq<Group<K, T>>, s: seq<T>, x: T, key: T -> K, j: nat)
    requires j < |gs| && gs[j].key == key(x)
    requires forall a, b :: 0 <= a < b < |gs| ==> gs[a].key != gs[b].key
    requires forall i :: 0 <= i < |gs| ==> gs[i].count == |gs[i].members|
    requires forall i :: 0 <= i < |gs| ==> gs[i].members == WithKey(s, key, gs[i].key)
    ensures var r := gs[j := Group(key(x), gs[j].count + 1, gs[j].members + [x])];
            forall i :: 0 <= i < |r| ==> r[i].count == |r[i].members| && r[i].members == WithKey(s + [x], key, r[i].key)
  {
    var r := gs[j := Group(key(x), gs[j].count + 1, gs[j].members + [x])];
    forall i | 0 <= i < |r|
      ensures r[i].count == |r[i].members| && r[i].members == WithKey(s + [x], key, r[i].key)
    {
      WithKeySnocOne(s, x, key, r[i].key);
    }
  }

  /** Opening a new group for x keeps every group equal to its key class. */
  lemma AddItemFresh<T, K>(gs: seq<Group<K, T>>, s: seq<T>, x: T, key: T -> K)
    requires forall i :: 0 <= i < |s| ==> key(s[i]) != key(x)
    requires forall i :: 0 <= i < |gs| ==> gs[i].key != key(x)
    requires forall i :: 0 <= i < |gs| ==> gs[i].count == |gs[i].members|
    requires forall i :: 0 <= i < |gs| ==> gs[i].members == WithKey(s, key, gs[i].key)
    ensures var r := gs + [Group(key(x), 1, [x])];
            forall i :: 0 <= i < |r| ==> r[i].count == |r[i].members| && r[i].members == WithKey(s + [x], key, r[i].key)
  {
    var r := gs + [Group(key(x), 1, [x])];
    WithKeyAbsent(s, key, key(x));
    forall i | 0 <= i < |r|
      ensures r[i].count == |r[i].members| && r[i].members == WithKey(s + [x], key, r[i].key)
    {
      if i < |gs| {
        assert r[i] == gs[i];
        WithKeySnocOne(s, x, key, gs[i].key);
      } else {
        assert r[i] == Group(key(x), 1, [x]);
        WithKeySnocOne(s, x, key, key(x));
        assert WithKey(s + [x], key, key(x)) == [] + [x];
      }
    }
  }

  /** AddItem extends exactly the group of x's key, keeping counts equal to group sizes. */
  lemma AddItemMembers<T, K>(gs: seq<Group<K, T>>, s: seq<T>, x: T, key: T -> K)
    requires forall i :: 0 <= i < |s| ==> Find(gs, key(s[i])) < |gs|
    requires forall a, b :: 0 <= a < b < |gs| ==> gs[a].key != gs[b].key
    requires forall i :: 0 <= i < |gs| ==> gs[i].count == |gs[i].members|
    requires forall i :: 0 <= i < |gs| ==> gs[i].members == WithKey(s, key, gs[i].key)
    ensures var r := AddItem(gs, key(x), x);
            forall i :: 0 <= i < |r| ==> r[i].count == |r[i].members| && r[i].members == WithKey(s + [x], key, r[i].key)
  {
    var j := Find(gs, key(x));
    if j < |gs| {
      AddItemExisting(gs, s, x, key, j);
    } else {
      AddItemFresh(gs, s, x, key);
    }
  }

  /** `Object.values(acc)` after folding every item of s into the accumulator. */
  function GroupBy<T(==), K(==)>(s: seq<T>, key: T -> K): (gs: seq<Group<K, T>>)
    ensures |gs| == |DistinctKeys(s, key)|
    ensures forall i :: 0 <= i < |gs| ==> gs[i].key == DistinctKeys(s, key)[i]
    ensures forall i :: 0 <= i < |gs| ==> gs[i].count == |gs[i].members|
    ensures forall i :: 0 <= i < |gs| ==> gs[i].members == WithKey(s, key, gs[i].key)
    decreases |s|
  {
    if s == [] then []
    else
      var init := s[..|s| - 1];
      var x := s[|s| - 1];
      assert s == init + [x];
      var g := GroupBy(init, key);
      assert forall i :: 0 <= i < |init| ==> Find(g, key(init[i])) < |g| by {
        forall i | 0 <= i < |init|
          ensures Find(g, key(init[i])) < |g|
        {
          var ks := DistinctKeys(init, key);
          var w :| 0 <= w < |ks| && ks[w] == key(init[i]);
          assert g[w].key == key(init[i]);
        }
      }
      AddItemKeys(g, DistinctKeys(init, key), key(x), x);
      AddItemMembers(g, init, x, key);
      AddItem(g, key(x), x)
  }

  /** The sum of the counters. */
  function SumCounts<K, T>(gs: seq<Group<K, T>>): nat
    decreases |gs|
  {
    if gs == [] then 0 else gs[0].count + SumCounts(gs[1..])
  }

  lemma {:induction false} SumCountsUpdate<K, T>(gs: seq<Group<K, T>>, i: nat, g: Group<K, T>)
    requires i < |gs|
    ensures SumCounts(gs[i := g]) + gs[i].count == SumCounts(gs) + g.count
    decreases |gs|
  {
    if i > 0 {
      SumCountsUpdate(gs[1..], i - 1, g);
      assert gs[i := g][1..] == gs[1..][i - 1 := g];
    }
  }

  lemma {:induction false} SumCountsAppend<K, T>(gs: seq<Group<K, T>>, g: Group<K, T>)
    ensures SumCounts(gs + [g]) == SumCounts(gs) + g.count
    decreases |gs|
  {
    if gs == [] {
      assert [g][1..] == [];
    } else {
      SumCountsAppend(gs[1..], g);
      assert (gs + [g])[1..] == gs[1..] + [g];
    }
  }

  /** The counters add up to the number of items: every item is counted exactly once. */
  lemma {:induction false} GroupByCountsSum<T, K>(s: seq<T>, key: T -> K)
    ensures SumCounts(GroupBy(s, key)) == |s|
    decreases |s|
  {
    if s != [] {
      var init := s[..|s| - 1];
      var x := s[|s| - 1];
      var g := GroupBy(init, key);
      GroupByCountsSum(init, key);
      var i := Find(g, key(x));
      if i < |g| {
        SumCountsUpdate(g, i, Group(key(x), g[i].count + 1, g[i].members + [x]));
      } else {
        SumCountsAppend(g, Group(key(x), 1, [x]));
      }
    }
  }

  /** Every group is non-empty: a key only gets an entry when an item carries it. */
  lemma GroupByNonEmpty<T, K>(s: seq<T>, key: T -> K, i: nat)
    requires i < |GroupBy(s, key)|
    ensures GroupBy(s, key)[i].count >= 1
  {
    var gs := GroupBy(s, key);
    var k := gs[i].key;
    assert k in DistinctKeys(s, key);
    var w :| 0 <= w < |s| && key(s[w]) == k;
    assert s[w] in WithKey(s, key, k);
  }

  lemma CountByStep<T>(m: map<string, nat>, s: seq<T>, x: T, key: T -> string)
    requires forall i :: 0 <= i < |s| ==> key(s[i]) in m
    requires forall k :: k in m ==> m[k] == |WithKey(s, key, k)| && m[k] >= 1
    ensures var m' := m[key(x) := (if key(x) in m then m[key(x)] else 0) + 1];
            (forall i :: 0 <= i < |s + [x]| ==> key((s + [x])[i]) in m') &&
            (forall k :: k in m' ==> m'[k] == |WithKey(s + [x], key, k)| && m'[k] >= 1)
  {
    WithKeySnoc(s, x, key);
    if key(x) !in m {
      WithKeyAbsent(s, key, key(x));
    }
  }

  /** `counts[key(x)] = (counts[key(x)] || 0) + 1` for every x of s: a key-to-count table. */
  function CountBy<T(==)>(s: seq<T>, key: T -> string): (m: map<string, nat>)
    ensures forall i :: 0 <= i < |s| ==> key(s[i]) in m
    ensures forall k :: k in m ==> m[k] == |WithKey(s, key, k)| && m[k] >= 1
    decreases |s|
  {
    if s == [] then map[]
    else
      var init := s[..|s| - 1];
      var x := s[|s| - 1];
      assert s == init + [x];
      var m := CountBy(init, key);
      CountByStep(m, init, x, key);
      m[key(x) := (if key(x) in m then m[key(x)] else 0) + 1]
  }

  /** No two groups share a key. */
  ghost predicate KeysDistinct<K, T>(gs: seq<Group<K, T>>)
  {
    forall i, j :: 0 <= i < j < |gs| ==> gs[i].key != gs[j].key
  }

  /** The groups of GroupBy have distinct keys. */
  lemma GroupByKeysDistinct<T, K>(s: seq<T>, key: T -> K)
    ensures KeysDistinct(GroupBy(s, key))
  {
    var gs := GroupBy(s, key);
    var ks := DistinctKeys(s, key);
    forall i, j | 0 <= i < j < |gs|
      ensures gs[i].key != gs[j].key
    {
      assert gs[i].key == ks[i] && gs[j].key == ks[j];
    }
  }

  /** Dropping groups keeps the keys distinct. */
  lemma {:induction false} FilterKeysDistinct<K, T>(gs: seq<Group<K, T>>, p: Group<K, T> -> bool)
    requires KeysDistinct(gs)
    ensures KeysDistinct(Filter(gs, p))
    decreases |gs|
  {
    if gs != [] {
      FilterKeysDistinct(gs[1..], p);
      var rest := Filter(gs[1..], p);
      forall j | 0 <= j < |rest|
        ensures gs[0].key != rest[j].key
      {
        var k :| 0 <= k < |gs[1..]| && gs[1..][k] == rest[j];
        assert gs[k + 1] == rest[j];
      }
      if p(gs[0]) {
        var r := [gs[0]] + rest;
        forall i, j | 0 <= i < j < |r|
          ensures r[i].key != r[j].key
        {
          assert r[j] == rest[j - 1];
          if i > 0 {
            assert r[i] == rest[i - 1];
          }
        }
      }
    }
  }

  /** A value that occurs at two positions occurs at least twice. */
  lemma TwoPositions<T>(s: seq<T>, i: nat, j: nat)
    requires i < j < |s| && s[i] == s[j]
    ensures multiset(s)[s[i]] >= 2
  {
    assert s == s[..j] + [s[j]] + s[j + 1..];
    assert s[i] in multiset(s[..j]) by {
      assert s[..j][i] == s[i];
    }
  }

  /** A value that occurs at least twice occurs at two positions. */
  lemma {:induction false} TwoOccurrences<T>(s: seq<T>, x: T)
    requires multiset(s)[x] >= 2
    ensures exists i, j :: 0 <= i < j < |s| && s[i] == x && s[j] == x
    decreases |s|
  {
    assert s == [s[0]] + s[1..];
    if s[0] == x {
      assert x in multiset(s[1..]);
      var j :| 0 <= j < |s[1..]| && s[1..][j] == x;
      assert s[j + 1] == x;
    } else {
      TwoOccurrences(s[1..], x);
      var i, j :| 0 <= i < j < |s[1..]| && s[1..][i] == x && s[1..][j] == x;
      assert s[i + 1] == x && s[j + 1] == x;
    }
  }

  /** Rearranging groups keeps the keys distinct. */
  lemma PermKeysDistinct<K, T>(a: seq<Group<K, T>>, b: seq<Group<K, T>>)
    requires multiset(a) == multiset(b)
    requires KeysDistinct(a)
    ensures KeysDistinct(b)
  {
    forall i, j | 0 <= i < j < |b|
      ensures b[i].key != b[j].key
    {
      if b[i] == b[j] {
        TwoPositions(b, i, j);
        TwoOccurrences(a, b[i]);
        assert false;
      } else {
        assert b[i] in multiset(a) && b[j] in multiset(a);
        var x :| 0 <= x < |a| && a[x] == b[i];
        var y :| 0 <= y < |a| && a[y] == b[j];
        assert x < y || y < x;
      }
    }
  }

  /** Taking one group out of the sum. */
  lemma {:induction false} SumCountsRemove<K, T>(gs: seq<Group<K, T>>, j: nat)
    requires j < |gs|
    ensures SumCounts(gs) == gs[j].count + SumCounts(gs[..j] + gs[j + 1..])
    decreases j
  {
    if j == 0 {
      assert gs[..0] + gs[1..] == gs[1..];
    } else {
      var t := gs[1..];
      SumCountsRemove(t, j - 1);
      assert gs[..j] + gs[j + 1..] == [gs[0]] + (t[..j - 1] + t[j..]);
    }
  }

  /** Taking the element at j out of a sequence takes one copy out of its multiset. */
  lemma MultisetRemove<T>(s: seq<T>, j: nat)
    requires j < |s|
    ensures multiset(s[..j] + s[j + 1..]) == multiset(s) - multiset{s[j]}
  {
    assert s == s[..j] + [s[j]] + s[j + 1..];
    assert multiset(s) == multiset(s[..j]) + multiset{s[j]} + multiset(s[j + 1..]);
  }

  /** The sum of the counters does not depend on the order of the groups. */
  lemma {:induction false} SumCountsPerm<K, T>(a: seq<Group<K, T>>, b: seq<Group<K, T>>)
    requires multiset(a) == multiset(b)
    ensures SumCounts(a) == SumCounts(b)
    decreases |a|
  {
    if a == [] {
      assert b == [] by {
        assert |b| == |multiset(b)| == 0;
      }
    } else {
      var j := PositionOf(b, a[0], multiset(a));
      var b' := b[..j] + b[j + 1..];
      PermTails(a, b, j);
      SumCountsPerm(a[1..], b');
      SumCountsStep(a, b, j);
    }
  }

  /** A position of b holding x, when x is in a multiset equal to b's. */
  lemma PositionOf<T>(b: seq<T>, x: T, m: multiset<T>) returns (j: nat)
    requires x in m && m == multiset(b)
    ensures j < |b| && b[j] == x
  {
    assert x in b;
    j :| j < |b| && b[j] == x;
  }

  /** Taking matching elements out of two permutations of each other leaves permutations. */
  lemma PermTails<T>(a: seq<T>, b: seq<T>, j: nat)
    requires multiset(a) == multiset(b)
    requires a != [] && j < |b| && b[j] == a[0]
    ensures multiset(a[1..]) == multiset(b[..j] + b[j + 1..])
  {
    MultisetRemove(a, 0);
    MultisetRemove(b, j);
    assert a[..0] + a[1..] == a[1..];
  }

  /** The step of SumCountsPerm: a's head matches b's j-th group, and the rests agree. */
  lemma SumCountsStep<K, T>(a: seq<Group<K, T>>, b: seq<Group<K, T>>, j: nat)
    requires a != [] && j < |b| && b[j] == a[0]
    requires SumCounts(a[1..]) == SumCounts(b[..j] + b[j + 1..])
    ensures SumCounts(a) == SumCounts(b)
  {
    SumCountsRemove(b, j);
  }

  /** The property names every plain object inherits from `Object.prototype`; using one
      as an accumulator key finds the inherited member instead of a fresh entry. */
  const InheritedKeys: set<string> :=
    {"constructor", "__proto__", "hasOwnProperty", "isPrototypeOf", "propertyIsEnumerable",
     "toString", "toLocaleString", "valueOf", "__defineGetter__", "__defineSetter__",
     "__lookupGetter__", "__lookupSetter__"}

  /** A canonical array index ("0", or digits without a leading zero, below 2^32 - 1):
      the keys `Object.values` lists first, in ascending numeric order. */
  predicate IsArrayIndex(k: string)
  {
    |k| >= 1 && (forall i :: 0 <= i < |k| ==> '0' <= k[i] <= '9') &&
    (k[0] != '0' || |k| == 1) && DigitsValue(k) < 0xFFFF_FFFF
  }

  /** The order `Object.values` enumerates keys in, as a sort key for a descending
      sort: index keys rank above all others, smaller indexes higher. */
  function IndexRank<T>(g: Group<string, T>): int
  {
    if IsArrayIndex(g.key) then 0xFFFF_FFFF - DigitsValue(g.key) else 0
  }

  function IndexKeyed<T>(): Group<string, T> -> bool
  {
    (g: Group<string, T>) => IsArrayIndex(g.key)
  }

  function NamedKey<T>(): Group<string, T> -> bool
  {
    (g: Group<string, T>) => !IsArrayIndex(g.key)
  }

  /** Complementary filters split a sequence into two parts with the same elements. */
  lemma {:induction false} FilterSplitMultiset<T>(s: seq<T>, p: T -> bool, q: T -> bool)
    requires forall x :: q(x) == !p(x)
    ensures multiset(Filter(s, p)) + multiset(Filter(s, q)) == multiset(s)
    decreases |s|
  {
    if s != [] {
      FilterSplitMultiset(s[1..], p, q);
      if p(s[0]) {
        FilterHeadIn(s, p);
        FilterHeadOut(s, q);
      } else {
        FilterHeadOut(s, p);
        FilterHeadIn(s, q);
      }
      assert s == [s[0]] + s[1..];
    }
  }

  lemma FilterHeadIn<T>(s: seq<T>, p: T -> bool)
    requires s != [] && p(s[0])
    ensures Filter(s, p) == [s[0]] + Filter(s[1..], p)
  {
  }

  lemma FilterHeadOut<T>(s: seq<T>, p: T -> bool)
    requires s != [] && !p(s[0])
    ensures Filter(s, p) == Filter(s[1..], p)
  {
  }

  /** The index-keyed part of `Object.values`: ascending index order. */
  function IndexPart<T(==)>(gs: seq<Group<string, T>>): (r: seq<Group<string, T>>)
    ensures multiset(r) == multiset(Filter(gs, IndexKeyed()))
    ensures forall i :: 0 <= i < |r| ==> IsArrayIndex(r[i].key)
    ensures SortedDesc(r, IndexRank)
  {
    var f := Filter(gs, IndexKeyed());
    var r := SortDesc(f, IndexRank);
    forall i | 0 <= i < |r|
      ensures IsArrayIndex(r[i].key)
    {
      SortDescMembers(f, IndexRank, r[i]);
      var k :| 0 <= k < |f| && f[k] == r[i];
    }
    r
  }

  /** Index-keyed entries in rank order followed by named ones: the index keys form
      exactly the prefix, and the whole stays in rank order. */
  lemma IndexThenNamed<T>(idx: seq<Group<string, T>>, named: seq<Group<string, T>>)
    requires forall i :: 0 <= i < |idx| ==> IsArrayIndex(idx[i].key)
    requires forall j :: 0 <= j < |named| ==> !IsArrayIndex(named[j].key)
    requires SortedDesc(idx, IndexRank)
    ensures forall i :: 0 <= i < |idx + named| ==> (IsArrayIndex((idx + named)[i].key) <==> i < |idx|)
    ensures (idx + named)[|idx|..] == named
    ensures SortedDesc(idx + named, IndexRank)
  {
    ConcatIndex(idx, named);
    assert (idx + named)[|idx|..] == named;
    SortedDescAppend(idx, named, IndexRank);
  }

  /** `Object.values(acc)` for an accumulator filled in the order gs lists: the entries
      under array-index keys first, in ascending numeric order, then the others in
      insertion order. */
  function ObjectValues<T(==)>(gs: seq<Group<string, T>>): (r: seq<Group<string, T>>)
    ensures multiset(r) == multiset(gs)
    ensures |r| == |gs|
    ensures var n := |r| - |Filter(gs, NamedKey())|;
      0 <= n && (forall i :: 0 <= i < |r| ==> (IsArrayIndex(r[i].key) <==> i < n)) &&
      r[n..] == Filter(gs, NamedKey())
    ensures SortedDesc(r, IndexRank)
  {
    var idx := IndexPart(gs);
    var named := Filter(gs, NamedKey());
    FilterSplitMultiset(gs, IndexKeyed(), NamedKey());
    IndexThenNamed(idx, named);
    var r := idx + named;
    assert |r| == |gs| by {
      assert |multiset(r)| == |multiset(gs)|;
    }
    r
  }
}
