/**
 * `config.Targets.OrderBy(t => t.id)`: LINQ's OrderBy is a stable sort, so
 * targets are ordered by ascending id and targets sharing an id keep their
 * relative order. The sort reads the ids of the target objects.
 */
module TargetOrder {
  import opened Config

  predicate SortedById(s: seq<TargetConfig>)
    reads set t | t in s
  {
    forall i, j :: 0 <= i < j < |s| ==> s[i].id <= s[j].id
  }

  /** The targets of s whose id is k, in the order s holds them. */
  function WithId(s: seq<TargetConfig>, k: int): (r: seq<TargetConfig>)
    reads set t | t in s
    ensures forall t :: t in r ==> t in s && t.id == k
  {
    if s == [] then []
    else (if s[0].id == k then [s[0]] else []) + WithId(s[1..], k)
  }

  /** Puts x after every target whose id is at most x.id. */
  function Insert(x: TargetConfig, s: seq<TargetConfig>): (r: seq<TargetConfig>)
    reads x, set t | t in s
    ensures |r| == |s| + 1
    ensures x in r && forall t :: t in r ==> t == x || t in s
    ensures forall t :: t in s ==> t in r
  {
    if s == [] then [x]
    else if x.id < s[0].id then [x] + s
    else [s[0]] + Insert(x, s[1..])
  }

  /** Insertion sort, each element inserted after the ones before it. */
  function SortById(s: seq<TargetConfig>): (r: seq<TargetConfig>)
    reads set t | t in s
    ensures |r| == |s|
    ensures forall t :: t in r ==> t in s
    ensures forall t :: t in s ==> t in r
  {
    if s == [] then []
    else
      var sorted := SortById(s[..|s| - 1]);
      assert forall t :: t in sorted ==> t in s;
      Insert(s[|s| - 1], sorted)
  }

  // ---------------------------------------------------------------------------
  // Insert
  // ---------------------------------------------------------------------------

  lemma {:induction false} InsertSorted(x: TargetConfig, s: seq<TargetConfig>)
    requires SortedById(s)
    ensures SortedById(Insert(x, s))
  {
    if s != [] && x.id >= s[0].id {
      InsertSorted(x, s[1..]);
      var r := Insert(x, s[1..]);
      assert forall t :: t in r ==> s[0].id <= t.id;
      assert Insert(x, s) == [s[0]] + r;
    }
  }

  lemma {:induction false} InsertPermutation(x: TargetConfig, s: seq<TargetConfig>)
    ensures multiset(Insert(x, s)) == multiset(s) + multiset{x}
  {
    if s != [] && x.id >= s[0].id {
      InsertPermutation(x, s[1..]);
      assert s == [s[0]] + s[1..];
    }
  }

  lemma {:induction false} WithIdAppend(a: seq<TargetConfig>, b: seq<TargetConfig>, k: int)
    ensures WithId(a + b, k) == WithId(a, k) + WithId(b, k)
  {
    if a == [] {
      assert a + b == b;
    } else {
      var h := if a[0].id == k then [a[0]] else [];
      assert (a + b)[0] == a[0] && (a + b)[1..] == a[1..] + b;
      assert WithId(a + b, k) == h + WithId(a[1..] + b, k);
      WithIdAppend(a[1..], b, k);
      assert WithId(a, k) == h + WithId(a[1..], k);
    }
  }

  lemma {:induction false} InsertStable(x: TargetConfig, s: seq<TargetConfig>, k: int)
    requires SortedById(s)
    ensures WithId(Insert(x, s), k) == WithId(s, k) + (if x.id == k then [x] else [])
  {
    var hx := if x.id == k then [x] else [];
    if s == [] {
      assert Insert(x, s) == [x] + [];
      WithIdCons(x, [], k);
      assert WithId(Insert(x, s), k) == hx + [];
      assert hx + [] == [] + hx;
    } else if x.id < s[0].id {
      assert Insert(x, s) == [x] + s;
      WithIdCons(x, s, k);
      if x.id == k {
        NoneWithSmallerId(s, k);
        assert WithId(Insert(x, s), k) == [x] + [];
        assert [x] + [] == [] + [x];
      } else {
        assert WithId(Insert(x, s), k) == [] + WithId(s, k);
        assert [] + WithId(s, k) == WithId(s, k) + [];
      }
    } else {
      var h0 := if s[0].id == k then [s[0]] else [];
      var w := WithId(s[1..], k);
      assert Insert(x, s) == [s[0]] + Insert(x, s[1..]);
      SortedTail(s);
      InsertStable(x, s[1..], k);
      WithIdCons(s[0], Insert(x, s[1..]), k);
      assert WithId(Insert(x, s), k) == h0 + (w + hx);
      WithIdCons(s[0], s[1..], k);
      ConsTail(s);
      assert WithId(s, k) == h0 + w;
      Assoc(h0, w, hx);
    }
  }

  lemma ConsTail<T>(s: seq<T>)
    requires s != []
    ensures [s[0]] + s[1..] == s
  {
  }

  lemma Assoc<T>(a: seq<T>, b: seq<T>, c: seq<T>)
    ensures a + (b + c) == (a + b) + c
  {
  }

  lemma WithIdCons(a: TargetConfig, rest: seq<TargetConfig>, k: int)
    ensures WithId([a] + rest, k) == (if a.id == k then [a] else []) + WithId(rest, k)
  {
    assert ([a] + rest)[0] == a && ([a] + rest)[1..] == rest;
  }

  lemma SortedTail(s: seq<TargetConfig>)
    requires SortedById(s) && s != []
    ensures SortedById(s[1..])
  {
    assert forall i :: 0 <= i < |s| - 1 ==> s[1..][i] == s[i + 1];
  }

  lemma {:induction false} NoneWithSmallerId(s: seq<TargetConfig>, k: int)
    requires SortedById(s) && s != [] && k < s[0].id
    ensures WithId(s, k) == []
  {
    if |s| > 1 {
      NoneWithSmallerId(s[1..], k);
    }
  }

  lemma {:induction false} InsertDistinct(x: TargetConfig, s: seq<TargetConfig>)
    requires DistinctIds(s) && forall t :: t in s ==> t.id != x.id
    ensures DistinctIds(Insert(x, s))
  {
    if s != [] && x.id >= s[0].id {
      InsertDistinct(x, s[1..]);
      var r := Insert(x, s[1..]);
      forall i | 0 <= i < |r| ensures r[i].id != s[0].id {
        if r[i] != x {
          assert r[i] in s[1..];
          var j :| 1 <= j < |s| && s[j] == r[i];
        }
      }
      assert Insert(x, s) == [s[0]] + r;
    }
  }

  // ---------------------------------------------------------------------------
  // The sort
  // ---------------------------------------------------------------------------

  /** The sort leaves the targets in ascending id order and is a permutation
      of its input. */
  lemma {:induction false} SortByIdSortedPermutation(s: seq<TargetConfig>)
    ensures SortedById(SortById(s))
    ensures multiset(SortById(s)) == multiset(s)
  {
    if s != [] {
      var p := s[..|s| - 1];
      SortByIdSortedPermutation(p);
      InsertSorted(s[|s| - 1], SortById(p));
      InsertPermutation(s[|s| - 1], SortById(p));
      assert s == p + [s[|s| - 1]];
    }
  }

  /** Stability: for every id, the targets carrying it appear in the sorted
      sequence exactly as, and in the order, they appear in the input. */
  lemma {:induction false} SortByIdStable(s: seq<TargetConfig>, k: int)
    ensures WithId(SortById(s), k) == WithId(s, k)
  {
    if s != [] {
      var p, x := s[..|s| - 1], s[|s| - 1];
      SortByIdSortedPermutation(p);
      calc {
        WithId(SortById(s), k);
        { assert SortById(s) == Insert(x, SortById(p)); }
        WithId(Insert(x, SortById(p)), k);
        { InsertStable(x, SortById(p), k); }
        WithId(SortById(p), k) + (if x.id == k then [x] else []);
        { SortByIdStable(p, k); }
        WithId(p, k) + (if x.id == k then [x] else []);
        { assert WithId([x], k) == (if x.id == k then [x] else []); }
        WithId(p, k) + WithId([x], k);
        { WithIdAppend(p, [x], k); assert s == p + [x]; }
        WithId(s, k);
      }
    }
  }

  /** A sequence already in id order is returned as it is, so sorting twice
      is sorting once. */
  lemma {:induction false} SortByIdOfSorted(s: seq<TargetConfig>)
    requires SortedById(s)
    ensures SortById(s) == s
  {
    if s != [] {
      var p, x := s[..|s| - 1], s[|s| - 1];
      assert SortedById(p);
      SortByIdOfSorted(p);
      forall t | t in p ensures t.id <= x.id {
        var i :| 0 <= i < |p| && p[i] == t;
        assert s[i] == t;
      }
      InsertAtEnd(x, p);
      calc {
        SortById(s);
        Insert(x, SortById(p));
        Insert(x, p);
        p + [x];
        s;
      }
    }
  }

  lemma {:induction false} InsertAtEnd(x: TargetConfig, s: seq<TargetConfig>)
    requires forall t :: t in s ==> t.id <= x.id
    ensures Insert(x, s) == s + [x]
  {
    if s != [] {
      InsertAtEnd(x, s[1..]);
      assert s == [s[0]] + s[1..];
    }
  }

  lemma SortByIdIdempotent(s: seq<TargetConfig>)
    ensures SortById(SortById(s)) == SortById(s)
  {
    SortByIdSortedPermutation(s);
    SortByIdOfSorted(SortById(s));
  }

  /** Sorting keeps the ids pairwise distinct. */
  lemma {:induction false} SortByIdDistinct(s: seq<TargetConfig>)
    requires DistinctIds(s)
    ensures DistinctIds(SortById(s))
  {
    if s != [] {
      var p, x := s[..|s| - 1], s[|s| - 1];
      SortByIdDistinct(p);
      SortByIdSortedPermutation(p);
      forall t | t in SortById(p) ensures t.id != x.id {
        var i :| 0 <= i < |p| && p[i] == t;
        assert s[i] == t;
      }
      InsertDistinct(x, SortById(p));
    }
  }
}
