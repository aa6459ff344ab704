/** The specifications behind `M6PupillList`: grouping records by the value
    of a header key, sorting them stably by it, and Python's list indexing
    and slicing. */
module Grouping {
  import opened Results
  import opened Pupils

  /** Every record's header holds `key` (`p.header[key]` raises otherwise). */
  predicate AllHaveKey(s: seq<Pupil>, key: string) {
    forall i :: 0 <= i < |s| ==> key in s[i].header
  }

  /** The records of `s` whose `key` value is `v`, in their order in `s`. */
  function Group(s: seq<Pupil>, key: string, v: real): seq<Pupil>
    requires AllHaveKey(s, key)
  {
    if s == [] then []
    else Group(s[..|s| - 1], key, v) + (if s[|s| - 1].header[key] == v then [s[|s| - 1]] else [])
  }

  /** The values `key` takes in `s`. */
  function KeySet(s: seq<Pupil>, key: string): set<real>
    requires AllHaveKey(s, key)
  {
    if s == [] then {} else KeySet(s[..|s| - 1], key) + {s[|s| - 1].header[key]}
  }

  /** The same values in the order they first occur in `s`, which is the
      order of the keys of the dictionary `byKey` builds. */
  function KeyOrder(s: seq<Pupil>, key: string): seq<real>
    requires AllHaveKey(s, key)
  {
    if s == [] then []
    else
      var ks := KeyOrder(s[..|s| - 1], key);
      if s[|s| - 1].header[key] in ks then ks else ks + [s[|s| - 1].header[key]]
  }

  /** The keys `byKey(key, nMin)` keeps: those with at least `nMin` records. */
  function Kept(s: seq<Pupil>, key: string, nMin: int): set<real>
    requires AllHaveKey(s, key)
  {
    set v | v in KeySet(s, key) && |Group(s, key, v)| >= nMin
  }

  /** The total size of the groups of the keys `ks`. */
  function SumSizes(s: seq<Pupil>, key: string, ks: seq<real>): nat
    requires AllHaveKey(s, key)
  {
    if ks == [] then 0 else SumSizes(s, key, ks[..|ks| - 1]) + |Group(s, key, ks[|ks| - 1])|
  }

  /** The positions of the records of `s` whose `key` value is `v`. */
  function Positions(s: seq<Pupil>, key: string, v: real): seq<nat>
    requires AllHaveKey(s, key)
  {
    if s == [] then []
    else Positions(s[..|s| - 1], key, v) + (if s[|s| - 1].header[key] == v then [|s| - 1] else [])
  }

  lemma GroupAppend(s: seq<Pupil>, p: Pupil, key: string, v: real)
    requires AllHaveKey(s, key) && key in p.header
    ensures AllHaveKey(s + [p], key)
    ensures Group(s + [p], key, v) == Group(s, key, v) + (if p.header[key] == v then [p] else [])
    ensures KeySet(s + [p], key) == KeySet(s, key) + {p.header[key]}
  {
    assert (s + [p])[..|s|] == s;
  }

  lemma GroupAppendAll(s: seq<Pupil>, p: Pupil, key: string)
    requires AllHaveKey(s, key) && key in p.header
    ensures AllHaveKey(s + [p], key)
    ensures forall v :: Group(s + [p], key, v) == Group(s, key, v) + (if p.header[key] == v then [p] else [])
    ensures KeySet(s + [p], key) == KeySet(s, key) + {p.header[key]}
  {
    forall v ensures Group(s + [p], key, v) == Group(s, key, v) + (if p.header[key] == v then [p] else []) {
      GroupAppend(s, p, key, v);
    }
    GroupAppend(s, p, key, p.header[key]);
  }

  /** Grouping distributes over concatenation. */
  lemma {:induction false} GroupConcat(a: seq<Pupil>, b: seq<Pupil>, key: string, v: real)
    requires AllHaveKey(a, key) && AllHaveKey(b, key)
    ensures AllHaveKey(a + b, key)
    ensures Group(a + b, key, v) == Group(a, key, v) + Group(b, key, v)
  {
    if b != [] {
      var b' := b[..|b| - 1];
      assert (a + b)[..|a + b| - 1] == a + b';
      GroupConcat(a, b', key, v);
    } else {
      assert a + b == a;
    }
  }

  /** A record lies in the group of `v` exactly when it lies in `s` and its
      `key` value is `v`: each record is in the one group of its own key. */
  lemma {:induction false} InGroupIff(s: seq<Pupil>, key: string, v: real, p: Pupil)
    requires AllHaveKey(s, key)
    ensures p in Group(s, key, v) <==> p in s && p.header[key] == v
  {
    if s != [] {
      var s' := s[..|s| - 1];
      InGroupIff(s', key, v, p);
      assert s == s' + [s[|s| - 1]];
      assert p in s <==> p in s' || p == s[|s| - 1];
    }
  }

  /** The group of `v` is the subsequence of `s` at exactly the positions
      holding `v`, in increasing order of position. */
  lemma {:induction false} GroupAtPositions(s: seq<Pupil>, key: string, v: real)
    requires AllHaveKey(s, key)
    ensures var g, ps := Group(s, key, v), Positions(s, key, v);
      && |ps| == |g|
      && (forall m :: 0 <= m < |g| ==> ps[m] < |s| && g[m] == s[ps[m]])
      && (forall m1, m2 :: 0 <= m1 < m2 < |ps| ==> ps[m1] < ps[m2])
      && (forall i :: 0 <= i < |s| ==> (i in ps <==> s[i].header[key] == v))
  {
    if s != [] {
      var s' := s[..|s| - 1];
      GroupAtPositions(s', key, v);
    }
  }

  /** A key occurs in `s` exactly when its group is not empty. */
  lemma {:induction false} KeySetIff(s: seq<Pupil>, key: string, v: real)
    requires AllHaveKey(s, key)
    ensures v in KeySet(s, key) <==> |Group(s, key, v)| > 0
  {
    if s != [] {
      KeySetIff(s[..|s| - 1], key, v);
    }
  }

  /** With `nMin` at most 1 no group is dropped. */
  lemma KeptAll(s: seq<Pupil>, key: string, nMin: int)
    requires AllHaveKey(s, key) && nMin <= 1
    ensures Kept(s, key, nMin) == KeySet(s, key)
  {
    forall v | v in KeySet(s, key) ensures |Group(s, key, v)| >= nMin {
      KeySetIff(s, key, v);
    }
  }

  predicate Distinct(ks: seq<real>) {
    forall i, j :: 0 <= i < j < |ks| ==> ks[i] != ks[j]
  }

  /** The key order lists every key once. */
  lemma {:induction false} KeyOrderKeys(s: seq<Pupil>, key: string)
    requires AllHaveKey(s, key)
    ensures forall v :: v in KeyOrder(s, key) <==> v in KeySet(s, key)
    ensures Distinct(KeyOrder(s, key))
  {
    if s != [] {
      KeyOrderKeys(s[..|s| - 1], key);
      var ks := KeyOrder(s[..|s| - 1], key);
      var k := s[|s| - 1].header[key];
      if k !in ks {
        var ks2 := ks + [k];
        forall i, j | 0 <= i < j < |ks2| ensures ks2[i] != ks2[j] {
          if j == |ks| {
            assert ks2[i] == ks[i] && ks[i] in ks;
          } else {
            assert ks2[i] == ks[i] && ks2[j] == ks[j];
          }
        }
      }
    }
  }

  lemma {:induction false} SumSizesAppend(s: seq<Pupil>, p: Pupil, key: string, ks: seq<real>)
    requires AllHaveKey(s, key) && key in p.header
    requires Distinct(ks)
    ensures AllHaveKey(s + [p], key)
    ensures SumSizes(s + [p], key, ks) == SumSizes(s, key, ks) + (if p.header[key] in ks then 1 else 0)
  {
    GroupAppend(s, p, key, p.header[key]);
    if ks != [] {
      var ks' := ks[..|ks| - 1];
      SumSizesAppend(s, p, key, ks');
      GroupAppend(s, p, key, ks[|ks| - 1]);
      assert ks == ks' + [ks[|ks| - 1]];
    }
  }

  /** The group sizes sum to the length of the list: grouping neither loses
      nor duplicates a record. */
  lemma {:induction false} GroupSizesSum(s: seq<Pupil>, key: string)
    requires AllHaveKey(s, key)
    ensures SumSizes(s, key, KeyOrder(s, key)) == |s|
  {
    if s != [] {
      var s', p := s[..|s| - 1], s[|s| - 1];
      assert s == s' + [p];
      var ks := KeyOrder(s', key);
      var kp := p.header[key];
      GroupSizesSum(s', key);
      KeyOrderKeys(s', key);
      SumSizesAppend(s', p, key, ks);
      if kp !in ks {
        assert (ks + [kp])[..|ks|] == ks;
        KeySetIff(s', key, kp);
        GroupAppend(s', p, key, kp);
      }
    }
  }

  /** Grouping five records whose `at` values are 1, 1, 2, 2, 2 with at
      least three per group keeps the group of 2 alone, with its three
      records in order. */
  lemma GroupingExample(a: Pupil, b: Pupil, c: Pupil, d: Pupil, e: Pupil)
    requires a.At() == 1.0 && b.At() == 1.0 && c.At() == 2.0 && d.At() == 2.0 && e.At() == 2.0
    ensures AllHaveKey([a, b, c, d, e], "at")
    ensures Kept([a, b, c, d, e], "at", 3) == {2.0}
    ensures Group([a, b, c, d, e], "at", 2.0) == [c, d, e]
  {
    var s0: seq<Pupil> := [];
    var s1, s2 := s0 + [a], s0 + [a] + [b];
    var s3 := s2 + [c];
    var s4 := s3 + [d];
    var s5 := s4 + [e];
    GroupAppend(s0, a, "at", 1.0); GroupAppend(s0, a, "at", 2.0);
    GroupAppend(s1, b, "at", 1.0); GroupAppend(s1, b, "at", 2.0);
    GroupAppend(s2, c, "at", 1.0); GroupAppend(s2, c, "at", 2.0);
    GroupAppend(s3, d, "at", 1.0); GroupAppend(s3, d, "at", 2.0);
    GroupAppend(s4, e, "at", 1.0); GroupAppend(s4, e, "at", 2.0);
    assert s5 == [a, b, c, d, e];
    assert |Group(s5, "at", 1.0)| == 2;
    assert KeySet(s5, "at") == {1.0, 2.0};
  }

  // Stable sorting

  predicate SortedByKey(s: seq<Pupil>, key: string)
    requires AllHaveKey(s, key)
  {
    forall i, j :: 0 <= i < j < |s| ==> s[i].header[key] <= s[j].header[key]
  }

  /** Inserts `p` before the first record whose key is not below its own. */
  function Insert(p: Pupil, t: seq<Pupil>, key: string): (r: seq<Pupil>)
    requires key in p.header && AllHaveKey(t, key)
    ensures AllHaveKey(r, key)
    ensures multiset(r) == multiset(t) + multiset{p}
  {
    if t == [] || p.header[key] <= t[0].header[key] then [p] + t
    else
      assert t == [t[0]] + t[1..];
      [t[0]] + Insert(p, t[1..], key)
  }

  /** `sorted(lst, key=lambda x: x.header[key])`. */
  function SortByKey(s: seq<Pupil>, key: string): (r: seq<Pupil>)
    requires AllHaveKey(s, key)
    ensures AllHaveKey(r, key)
    ensures multiset(r) == multiset(s)
  {
    if s == [] then []
    else
      assert s == [s[0]] + s[1..];
      Insert(s[0], SortByKey(s[1..], key), key)
  }

  lemma {:induction false} InsertSorted(p: Pupil, t: seq<Pupil>, key: string)
    requires key in p.header && AllHaveKey(t, key) && SortedByKey(t, key)
    ensures SortedByKey(Insert(p, t, key), key)
    ensures |Insert(p, t, key)| > 0
    ensures var r := Insert(p, t, key);
      r[0] == p || (t != [] && r[0] == t[0])
  {
    if t != [] && p.header[key] > t[0].header[key] {
      InsertSorted(p, t[1..], key);
      var r' := Insert(p, t[1..], key);
      var r := [t[0]] + r';
      forall i, j | 0 <= i < j < |r| ensures r[i].header[key] <= r[j].header[key] {
        if i == 0 {
          assert r[0] == t[0];
          assert r[j] == r'[j - 1];
          if j - 1 > 0 {
            assert r'[0].header[key] <= r'[j - 1].header[key];
          }
        }
      }
    }
  }

  lemma {:induction false} InsertGroup(p: Pupil, t: seq<Pupil>, key: string, v: real)
    requires key in p.header && AllHaveKey(t, key)
    ensures Group(Insert(p, t, key), key, v) == (if p.header[key] == v then [p] else []) + Group(t, key, v)
  {
    if t == [] || p.header[key] <= t[0].header[key] {
      GroupConcat([p], t, key, v);
      assert Group([p], key, v) == (if p.header[key] == v then [p] else []) by {
        assert [p][..0] == [];
      }
    } else {
      InsertGroup(p, t[1..], key, v);
      GroupConcat([t[0]], Insert(p, t[1..], key), key, v);
      GroupConcat([t[0]], t[1..], key, v);
      assert [t[0]] + t[1..] == t;
      assert Group([t[0]], key, v) == (if t[0].header[key] == v then [t[0]] else []) by {
        assert [t[0]][..0] == [];
      }
    }
  }

  /** The sorted list is in non-decreasing key order. */
  lemma {:induction false} SortSorted(s: seq<Pupil>, key: string)
    requires AllHaveKey(s, key)
    ensures SortedByKey(SortByKey(s, key), key)
  {
    if s != [] {
      SortSorted(s[1..], key);
      InsertSorted(s[0], SortByKey(s[1..], key), key);
    }
  }

  /** The sort is stable: the records of each key value keep their order. */
  lemma {:induction false} SortStable(s: seq<Pupil>, key: string, v: real)
    requires AllHaveKey(s, key)
    ensures Group(SortByKey(s, key), key, v) == Group(s, key, v)
  {
    if s != [] {
      SortStable(s[1..], key, v);
      InsertGroup(s[0], SortByKey(s[1..], key), key, v);
      GroupHead(s, key, v);
    }
  }

  lemma GroupCons(p: Pupil, s: seq<Pupil>, key: string, v: real)
    requires key in p.header && AllHaveKey(s, key)
    ensures AllHaveKey([p] + s, key)
    ensures Group([p] + s, key, v) == (if p.header[key] == v then [p] else []) + Group(s, key, v)
  {
    GroupConcat([p], s, key, v);
    assert [p][..0] == [];
  }

  /** The first record of a sorted list has the smallest key. */
  lemma SortedHeadLeast(r: seq<Pupil>, p: Pupil, key: string)
    requires AllHaveKey(r, key) && SortedByKey(r, key) && p in r
    ensures r[0].header[key] <= p.header[key]
  {
    var j :| 0 <= j < |r| && r[j] == p;
    if j > 0 {
      assert r[0].header[key] <= r[j].header[key];
    }
  }

  lemma TailGroup(r1: seq<Pupil>, r2: seq<Pupil>, key: string, v: real)
    requires AllHaveKey(r1, key) && AllHaveKey(r2, key) && r1 != [] && r2 != [] && r1[0] == r2[0]
    requires Group(r1, key, v) == Group(r2, key, v)
    ensures Group(r1[1..], key, v) == Group(r2[1..], key, v)
  {
    GroupHead(r1, key, v);
    GroupHead(r2, key, v);
    var g1, g2 := Group(r1[1..], key, v), Group(r2[1..], key, v);
    if r1[0].header[key] == v {
      assert [r1[0]] + g1 == [r1[0]] + g2;
      assert g1 == ([r1[0]] + g1)[1..] == ([r1[0]] + g2)[1..] == g2;
    } else {
      assert [] + g1 == g1 && [] + g2 == g2;
    }
  }

  lemma GroupHead(s: seq<Pupil>, key: string, v: real)
    requires AllHaveKey(s, key) && s != []
    ensures Group(s, key, v) == (if s[0].header[key] == v then [s[0]] else []) + Group(s[1..], key, v)
  {
    GroupCons(s[0], s[1..], key, v);
    assert [s[0]] + s[1..] == s;
  }

  lemma SortedTail(r: seq<Pupil>, key: string)
    requires AllHaveKey(r, key) && SortedByKey(r, key) && r != []
    ensures AllHaveKey(r[1..], key) && SortedByKey(r[1..], key)
  {
    var t := r[1..];
    forall i, j | 0 <= i < j < |t| ensures t[i].header[key] <= t[j].header[key] {
      assert t[i] == r[i + 1] && t[j] == r[j + 1];
    }
  }

  lemma TailPermutation(r1: seq<Pupil>, r2: seq<Pupil>)
    requires r1 != [] && r2 != [] && r1[0] == r2[0] && multiset(r1) == multiset(r2)
    ensures multiset(r1[1..]) == multiset(r2[1..])
  {
    var p, t1, t2 := r1[0], r1[1..], r2[1..];
    assert r1 == [p] + t1 && r2 == [p] + t2;
    assert multiset([p] + t1) == multiset{p} + multiset(t1);
    assert multiset([p] + t2) == multiset{p} + multiset(t2);
    assert multiset(t1) == multiset([p] + t1) - multiset{p};
    assert multiset(t2) == multiset([p] + t2) - multiset{p};
  }

  /** Sorted permutations of one another whose groups agree start with the
      same record. */
  lemma SortedHeadsEqual(r1: seq<Pupil>, r2: seq<Pupil>, key: string)
    requires AllHaveKey(r1, key) && AllHaveKey(r2, key) && r1 != [] && r2 != []
    requires SortedByKey(r1, key) && SortedByKey(r2, key)
    requires multiset(r1) == multiset(r2)
    requires Group(r1, key, r1[0].header[key]) == Group(r2, key, r1[0].header[key])
    ensures r1[0] == r2[0]
  {
    var p1, p2 := r1[0], r2[0];
    assert p2 in multiset(r1) && p1 in multiset(r2);
    SortedHeadLeast(r1, p2, key);
    SortedHeadLeast(r2, p1, key);
    var m := p1.header[key];
    GroupHead(r1, key, m);
    GroupHead(r2, key, m);
    assert p1 == Group(r1, key, m)[0];
    assert p2 == Group(r2, key, m)[0];
  }

  /** Two sorted permutations of one another whose groups agree on every
      key value are the same list. */
  lemma {:induction false} SortedStableUnique(r1: seq<Pupil>, r2: seq<Pupil>, key: string)
    requires AllHaveKey(r1, key) && AllHaveKey(r2, key)
    requires SortedByKey(r1, key) && SortedByKey(r2, key)
    requires multiset(r1) == multiset(r2)
    requires forall v :: Group(r1, key, v) == Group(r2, key, v)
    ensures r1 == r2
  {
    if r1 == [] {
      assert |multiset(r2)| == 0;
    } else {
      assert |multiset(r2)| > 0;
      SortedHeadsEqual(r1, r2, key);
      var t1, t2 := r1[1..], r2[1..];
      forall v ensures Group(t1, key, v) == Group(t2, key, v) {
        TailGroup(r1, r2, key, v);
      }
      SortedTail(r1, key);
      SortedTail(r2, key);
      TailPermutation(r1, r2);
      SortedStableUnique(t1, t2, key);
      assert r1 == [r1[0]] + t1 && r2 == [r2[0]] + t2;
    }
  }

  /** Any stable sort of `s` by `key` returns exactly `SortByKey(s, key)`. */
  lemma StableSortIsSortByKey(s: seq<Pupil>, r: seq<Pupil>, key: string)
    requires AllHaveKey(s, key) && AllHaveKey(r, key)
    requires SortedByKey(r, key) && multiset(r) == multiset(s)
    requires forall v :: Group(r, key, v) == Group(s, key, v)
    ensures r == SortByKey(s, key)
  {
    SortSorted(s, key);
    forall v ensures Group(r, key, v) == Group(SortByKey(s, key), key, v) {
      SortStable(s, key, v);
    }
    SortedStableUnique(r, SortByKey(s, key), key);
  }

  // Indexing and slicing

  /** `lst[i]`: a negative index counts from the end; out of range raises. */
  function ElementAt<T>(s: seq<T>, i: int): (r: Result<T>)
    ensures r.Ok? <==> -|s| <= i < |s|
    ensures r.Err? ==> r.error == IndexError
    ensures 0 <= i < |s| ==> r == Ok(s[i])
  {
    if 0 <= i < |s| then Ok(s[i])
    else if -|s| <= i < 0 then Ok(s[i + |s|])
    else Err(IndexError)
  }

  /** A negative index names the same record as its distance from the end. */
  lemma ElementAtNegative<T>(s: seq<T>, k: nat)
    requires 0 < k <= |s|
    ensures ElementAt(s, -(k as int)) == ElementAt(s, |s| - k)
  {
  }

  /** A slice bound as Python adjusts it: a negative bound counts from the
      end, and the result is clamped to `[0, n]`; none means `dflt`. */
  function Bound(b: Option<int>, n: nat, dflt: nat): (c: nat)
    requires dflt <= n
    ensures c <= n
  {
    if b.None? then dflt
    else if b.value < 0 then (if b.value + n < 0 then 0 else b.value + n)
    else if b.value > n then n
    else b.value
  }

  /** `lst[start:stop]` (step 1). */
  function SliceOf<T>(s: seq<T>, start: Option<int>, stop: Option<int>): (r: seq<T>)
    ensures var lo, hi := Bound(start, |s|, 0), Bound(stop, |s|, |s|);
      && |r| == (if lo < hi then hi - lo else 0)
      && forall j :: 0 <= j < |r| ==> r[j] == s[lo + j]
  {
    var lo, hi := Bound(start, |s|, 0), Bound(stop, |s|, |s|);
    if lo < hi then s[lo..hi] else []
  }

  /** `lst[:k] + lst[k:] == lst` for every integer `k`. */
  lemma SliceSplit<T>(s: seq<T>, k: int)
    ensures SliceOf(s, None, Some(k)) + SliceOf(s, Some(k), None) == s
  {
    var c := Bound(Some(k), |s|, 0);
    assert s[..c] + s[c..] == s;
  }

  /** `lst[:]` is a copy of the whole list. */
  lemma SliceAll<T>(s: seq<T>)
    ensures SliceOf(s, None, None) == s
  {
  }

  /** `lst[i:i+1]` is `[lst[i]]` for an index in range counted from the front. */
  lemma SliceOfOne<T>(s: seq<T>, i: int)
    requires 0 <= i < |s|
    ensures SliceOf(s, Some(i), Some(i + 1)) == [ElementAt(s, i).value]
  {
  }
}
