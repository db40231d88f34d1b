/** The result list of `topk`: `(word_name, weight)` pairs kept sorted by
    descending weight with Python's stable `sorted(..., reverse = True)`, and
    cut with the slice `visited[:k]`. */
module Ranking {
  import opened Weights

  /** One suggestion: the stored text of a word and its weight. */
  type Suggestion = (string, Weight)

  predicate SortedByWeight(s: seq<Suggestion>)
  {
    forall i, j :: 0 <= i < j < |s| ==> Le(s[j].1, s[i].1)
  }

  /** The suggestions of `s` whose weight is exactly `w`, in order. */
  function WithWeight(s: seq<Suggestion>, w: Weight): seq<Suggestion>
  {
    if s == [] then []
    else (if s[0].1 == w then [s[0]] else []) + WithWeight(s[1..], w)
  }

  /** Where a stable descending sort puts a new last element of weight `w`
      into the sorted `s`: after every element at least as heavy and before
      every lighter one. */
  function InsertionIndex(s: seq<Suggestion>, w: Weight): (i: nat)
    requires SortedByWeight(s)
    ensures i <= |s|
    ensures forall j :: 0 <= j < i ==> Le(w, s[j].1)
    ensures forall j :: i <= j < |s| ==> Lt(s[j].1, w)
  {
    if s == [] || Lt(s[0].1, w) then 0 else 1 + InsertionIndex(s[1..], w)
  }

  /** `s` with `e` placed at its insertion index. */
  function Place(s: seq<Suggestion>, e: Suggestion): (r: seq<Suggestion>)
    requires SortedByWeight(s)
    ensures SortedByWeight(r)
    ensures multiset(r) == multiset(s) + multiset{e}
  {
    var i := InsertionIndex(s, e.1);
    SpliceSorted(s, i, e);
    s[..i] + [e] + s[i..]
  }

  /** Splicing `e` between the elements at least as heavy and the lighter
      ones of a sorted list keeps it sorted and adds just `e`. */
  lemma {:induction false} SpliceSorted(s: seq<Suggestion>, i: nat, e: Suggestion)
    requires SortedByWeight(s) && i <= |s|
    requires forall j :: 0 <= j < i ==> Le(e.1, s[j].1)
    requires forall j :: i <= j < |s| ==> Lt(s[j].1, e.1)
    ensures SortedByWeight(s[..i] + [e] + s[i..])
    ensures multiset(s[..i] + [e] + s[i..]) == multiset(s) + multiset{e}
  {
    var r := s[..i] + [e] + s[i..];
    assert |r| == |s| + 1;
    assert forall j :: 0 <= j < i ==> r[j] == s[j];
    assert r[i] == e;
    assert forall j :: i < j < |r| ==> r[j] == s[j - 1];
    forall a, b | 0 <= a < b < |r|
      ensures Le(r[b].1, r[a].1)
    {
      if b == i {
        assert r[a] == s[a];
      } else if a == i {
        assert r[b] == s[b - 1];
        LeTotalOrder(r[b].1, e.1, e.1);
      } else if a < i < b {
        assert r[a] == s[a] && r[b] == s[b - 1];
        LeTotalOrder(r[b].1, e.1, r[a].1);
      }
    }
    SpliceMultiset(s, i, e);
  }

  /** Splicing one element into a list adds just that element. */
  lemma {:induction false} SpliceMultiset<T>(s: seq<T>, i: nat, x: T)
    requires i <= |s|
    ensures multiset(s[..i] + [x] + s[i..]) == multiset(s) + multiset{x}
  {
    assert s == s[..i] + s[i..];
  }

  /** Python's `sorted(s, key = lambda x: x[1], reverse = True)`: a stable
      sort by descending weight, written as the insertion of each element in
      turn. */
  function SortDesc(s: seq<Suggestion>): (r: seq<Suggestion>)
    ensures SortedByWeight(r)
    ensures multiset(r) == multiset(s)
  {
    if s == [] then []
    else
      assert s == s[..|s| - 1] + [s[|s| - 1]];
      Place(SortDesc(s[..|s| - 1]), s[|s| - 1])
  }

  lemma {:induction false} WithWeightConcat(a: seq<Suggestion>, b: seq<Suggestion>, w: Weight)
    ensures WithWeight(a + b, w) == WithWeight(a, w) + WithWeight(b, w)
  {
    if a != [] {
      assert (a + b)[1..] == a[1..] + b;
      WithWeightConcat(a[1..], b, w);
    } else {
      assert a + b == b;
    }
  }

  lemma {:induction false} WithWeightLighter(s: seq<Suggestion>, w: Weight)
    requires forall j :: 0 <= j < |s| ==> Lt(s[j].1, w)
    ensures WithWeight(s, w) == []
  {
    if s != [] {
      WithWeightLighter(s[1..], w);
    }
  }

  lemma {:induction false} WithWeightSplice(a: seq<Suggestion>, e: Suggestion, b: seq<Suggestion>,
                                            w: Weight)
    requires e.1 == w ==> forall j :: 0 <= j < |b| ==> Lt(b[j].1, w)
    ensures WithWeight(a + [e] + b, w) == WithWeight(a + b, w) + (if e.1 == w then [e] else [])
  {
    assert [e][1..] == [];
    WithWeightConcat(a, b, w);
    WithWeightConcat(a + [e], b, w);
    WithWeightConcat(a, [e], w);
    if e.1 == w {
      WithWeightLighter(b, w);
    }
  }

  lemma {:induction false} PlaceWithWeight(s: seq<Suggestion>, e: Suggestion, w: Weight)
    requires SortedByWeight(s)
    ensures WithWeight(Place(s, e), w) == WithWeight(s, w) + (if e.1 == w then [e] else [])
  {
    var i := InsertionIndex(s, e.1);
    assert s == s[..i] + s[i..];
    WithWeightSplice(s[..i], e, s[i..], w);
  }

  /** The sort is stable: for every weight, the elements of that weight keep
      their order. With sortedness and being a permutation, this pins the
      result down exactly. */
  lemma {:induction false} SortDescStable(s: seq<Suggestion>, w: Weight)
    ensures WithWeight(SortDesc(s), w) == WithWeight(s, w)
  {
    if s != [] {
      var s', last := s[..|s| - 1], s[|s| - 1];
      assert SortDesc(s) == Place(SortDesc(s'), last);
      SortDescStable(s', w);
      PlaceWithWeight(SortDesc(s'), last, w);
      assert s == s' + [last];
      assert [last][1..] == [];
      WithWeightConcat(s', [last], w);
    }
  }

  lemma {:induction false} InsertionIndexLightest(s: seq<Suggestion>, w: Weight)
    requires SortedByWeight(s)
    requires forall j :: 0 <= j < |s| ==> Le(w, s[j].1)
    ensures InsertionIndex(s, w) == |s|
  {
    if s != [] {
      InsertionIndexLightest(s[1..], w);
    }
  }

  /** Sorting a list that is already sorted leaves it as it is. */
  lemma {:induction false} SortDescSorted(s: seq<Suggestion>)
    requires SortedByWeight(s)
    ensures SortDesc(s) == s
  {
    if s != [] {
      var s', last := s[..|s| - 1], s[|s| - 1];
      assert SortedByWeight(s') by {
        assert forall j :: 0 <= j < |s'| ==> s'[j] == s[j];
      }
      SortDescSorted(s');
      assert SortDesc(s) == Place(s', last);
      InsertionIndexLightest(s', last.1);
      assert s'[..|s'|] + [last] + s'[|s'|..] == s;
    }
  }

  /** So appending one suggestion to a sorted list and sorting again places
      the new one after every suggestion at least as heavy. */
  lemma {:induction false} SortDescAppend(s: seq<Suggestion>, e: Suggestion)
    requires SortedByWeight(s)
    ensures var i := InsertionIndex(s, e.1); SortDesc(s + [e]) == s[..i] + [e] + s[i..]
  {
    assert (s + [e])[..|s|] == s;
    SortDescSorted(s);
    assert SortDesc(s + [e]) == Place(s, e);
  }

  /** How many suggestions of `s` weigh at least `b`: the sum the corrected
      stop test of `topk` takes over `visited`. */
  function HeavyCount(s: seq<Suggestion>, b: Weight): (n: nat)
    ensures n <= |s|
  {
    if s == [] then 0 else (if Le(b, s[0].1) then 1 else 0) + HeavyCount(s[1..], b)
  }

  lemma {:induction false} HeavyCountNone(s: seq<Suggestion>, b: Weight)
    requires forall j :: 0 <= j < |s| ==> Lt(s[j].1, b)
    ensures HeavyCount(s, b) == 0
  {
    if s != [] {
      HeavyCountNone(s[1..], b);
    }
  }

  /** In a sorted list, at least `k` suggestions weigh `b` or more exactly
      when the `k`-th one does. */
  lemma {:induction false} HeavyCountSorted(s: seq<Suggestion>, b: Weight, k: int)
    requires SortedByWeight(s) && 1 <= k
    ensures HeavyCount(s, b) >= k <==> k <= |s| && Le(b, s[k - 1].1)
  {
    if s != [] {
      if Le(b, s[0].1) {
        if k > 1 {
          assert SortedByWeight(s[1..]) by {
            assert forall j :: 0 <= j < |s| - 1 ==> s[1..][j] == s[j + 1];
          }
          HeavyCountSorted(s[1..], b, k - 1);
        }
      } else {
        forall j | 0 <= j < |s|
          ensures Lt(s[j].1, b)
        {
          LeTotalOrder(s[j].1, s[0].1, b);
          LeTotalOrder(b, s[0].1, s[0].1);
        }
        HeavyCountNone(s, b);
      }
    }
  }

  /** Python's slice `s[:k]`, negative `k` counting from the end. */
  function Take<T>(s: seq<T>, k: int): (r: seq<T>)
    ensures r <= s
    ensures 0 <= k ==> |r| == if k < |s| then k else |s|
    ensures k < 0 ==> |r| == if |s| + k < 0 then 0 else |s| + k
  {
    if 0 <= k then s[..if k < |s| then k else |s|]
    else s[..if |s| + k < 0 then 0 else |s| + k]
  }
}
