/** The class `Trie` of the autocomplete index: one object per node, each
    owning its children, updated in place by `insert` and read by
    `find_subtrie` and `topk`. */
module AutoComplete {
  import opened Options
  import opened Weights
  import opened Ranking
  import opened TrieModel
  import opened Frontier
  import opened TrieBuild

  /** A node's invariant survives any step that leaves its objects alone. */
  twostate lemma FrameValid(t: Trie)
    requires old(t.Valid())
    requires unchanged(old(t.Repr))
    ensures t.Valid() && t.Repr == old(t.Repr) && t.Model == old(t.Model)
  {
  }

  /** A node stays valid when only its own fields change, its children and
      footprint stay, and its fields and model still agree. */
  twostate lemma Relabel(t: Trie)
    requires old(t.Valid())
    requires unchanged(old(t.Repr) - {t})
    requires t.children == old(t.children) && t.Repr == old(t.Repr)
    requires t.Model.children == old(t.Model.children)
    requires t.Model.wordName == t.wordName && t.Model.weight == t.weight
    requires t.Model.childWeight == t.childWeight
    ensures t.Valid()
  {
    forall c | c in t.children
      ensures t.children[c].Valid() && t.children[c].Repr == old(t.children[c].Repr)
      ensures t.children[c].Model == old(t.children[c].Model)
    {
      FrameValid(t.children[c]);
    }
  }

  /** One entry of `visited` against its path: a completion in `C` whose
      node holds that text and weight. */
  ghost predicate Entry(M: Node, C: set<string>, v: Suggestion, path: string)
  {
    path in C && At(M, path).wordName == Some(v.0) && At(M, path).weight == v.1
  }

  /** `visited` and the paths `from` of the words it lists, entry by entry. */
  ghost predicate Matches(M: Node, C: set<string>, visited: seq<Suggestion>, from: seq<string>)
  {
    |from| == |visited| && forall i :: 0 <= i < |visited| ==> Entry(M, C, visited[i], from[i])
  }

  /** Splicing an entry and its path into matched lists at the same place
      keeps them matched. */
  lemma {:induction false} SpliceMatches(M: Node, C: set<string>, visited: seq<Suggestion>,
                                         from: seq<string>, e: Suggestion, p: string, pos: nat)
    requires Matches(M, C, visited, from) && Entry(M, C, e, p) && pos <= |visited|
    ensures Matches(M, C, visited[..pos] + [e] + visited[pos..], from[..pos] + [p] + from[pos..])
  {
    var v', f' := visited[..pos] + [e] + visited[pos..], from[..pos] + [p] + from[pos..];
    forall j | 0 <= j < |v'|
      ensures Entry(M, C, v'[j], f'[j])
    {
      if j < pos {
        assert f'[j] == from[j] && v'[j] == visited[j];
      } else if j > pos {
        assert f'[j] == from[j - 1] && v'[j] == visited[j - 1];
      }
    }
  }

  /** Appending the suggestion `e` to `visited` and sorting again puts it at
      its insertion index; splicing its path into `from` at the same place
      keeps the two lists matched. */
  lemma {:induction false} Recorded(M: Node, C: set<string>, visited: seq<Suggestion>,
                                    from: seq<string>, e: Suggestion, p: string)
    requires SortedByWeight(visited) && Matches(M, C, visited, from) && Entry(M, C, e, p)
    ensures var pos := InsertionIndex(visited, e.1);
      && Matches(M, C, SortDesc(visited + [e]), from[..pos] + [p] + from[pos..])
      && multiset(from[..pos] + [p] + from[pos..]) == multiset(from) + multiset{p}
  {
    var pos := InsertionIndex(visited, e.1);
    SortDescAppend(visited, e);
    SpliceMatches(M, C, visited, from, e, p, pos);
    SpliceMultiset(from, pos, p);
  }

  /** When every word was inserted as its own `constant`, every text a
      matched result list shows starts with the prefix. */
  lemma {:induction false} ResultsExtendPrefix(es: seq<Insertion>, prefix: string,
                                               r: seq<Suggestion>, words: seq<string>)
    requires forall i :: 0 <= i < |es| ==> es[i].constant == es[i].word
    requires Matches(Build(es), Completions(Build(es), prefix), r, words)
    ensures forall i :: 0 <= i < |r| ==> prefix <= r[i].0
  {
    forall i | 0 <= i < |r| {
      TextIsPath(es, words[i]);
    }
  }

  /** The counting side of `topk`'s loop. The words found so far (`from`)
      and those the queue still leads to (`rest`) make up the completions `C`
      of the prefix among the words `T`; before the stop fewer than `k` have
      been found, after it exactly `k` (none for `k <= 0`); the prefix, when
      it is a word, is found first (`start` says that only the prefix's own
      node is queued). */
  ghost predicate Tally(C: set<string>, T: set<string>, k: int, prefix: string,
                        from: seq<string>, rest: multiset<string>, start: bool, done: bool)
  {
    && multiset(from) <= multiset(C)
    && (1 <= k || !done ==> multiset(from) + rest == multiset(C))
    && (!done ==> from == [] || |from| < k)
    && (done ==> |from| == if k <= 0 then 0 else k)
    && (1 <= k && prefix in T ==> prefix in from || (from == [] && start))
  }

  /** Everything `topk` knows about its result list between rounds. */
  ghost predicate Found(M: Node, C: set<string>, T: set<string>, k: int, prefix: string,
                        visited: seq<Suggestion>, from: seq<string>, rest: multiset<string>,
                        start: bool, done: bool)
  {
    && SortedByWeight(visited)
    && Matches(M, C, visited, from)
    && Tally(C, T, k, prefix, from, rest, start, done)
  }

  /** A popped node with no word changes none of the counts. */
  lemma {:induction false} Skipped(M: Node, C: set<string>, T: set<string>, k: int, prefix: string,
                                   visited: seq<Suggestion>, from: seq<string>,
                                   rest: multiset<string>, start: bool, p: string,
                                   rest': multiset<string>, start': bool)
    requires Found(M, C, T, k, prefix, visited, from, rest, start, false)
    requires p !in T && (start ==> p == prefix) && rest == rest'
    ensures Found(M, C, T, k, prefix, visited, from, rest', start', false)
  {
  }

  /** A popped word moves from the queue's side to the found side; once `k`
      are found the loop stops with the first `k` of them. */
  lemma {:induction false} TallyRecord(C: set<string>, T: set<string>, k: int, prefix: string,
                                       from: seq<string>, rest: multiset<string>, start: bool,
                                       p: string, from': seq<string>, rest': multiset<string>,
                                       start': bool)
    requires Tally(C, T, k, prefix, from, rest, start, false)
    requires p in T && (start ==> p == prefix) && rest == rest' + multiset{p}
    requires multiset(from') == multiset(from) + multiset{p}
    ensures |from'| < k ==> Tally(C, T, k, prefix, from', rest', start', false)
    ensures |from'| >= k ==> Tally(C, T, k, prefix, Take(from', k), rest', start', true)
    ensures |from'| >= k ==> Take(from', k) == if k <= 0 then [] else from'
  {
    assert |from'| == |multiset(from')| == |from| + 1;
    if 1 <= k && prefix in T {
      if prefix in from {
        assert prefix in multiset(from);
      }
      assert prefix in multiset(from');
    }
    if 1 <= k && |from'| >= k {
      assert Take(from', k) == from'[..|from'|] == from';
    }
  }

  /** Cutting both lists at the same point keeps them matched and sorted. */
  lemma {:induction false} MatchesTake(M: Node, C: set<string>, visited: seq<Suggestion>,
                                       from: seq<string>, k: int)
    requires SortedByWeight(visited) && Matches(M, C, visited, from)
    ensures SortedByWeight(Take(visited, k)) && Matches(M, C, Take(visited, k), Take(from, k))
  {
    var v, f := Take(visited, k), Take(from, k);
    assert forall i :: 0 <= i < |v| ==> v[i] == visited[i] && f[i] == from[i];
  }

  /** The record step of `topk`'s loop: the popped word `e` (found at path
      `p`) is appended to `visited`, which is sorted again by descending
      weight; once the count reaches `k`, `visited` is cut to its first `k`
      entries and the loop is told to stop. */
  method Record(k: int, ghost M: Node, ghost C: set<string>, ghost T: set<string>,
                ghost prefix: string, visited: seq<Suggestion>, ghost from: seq<string>,
                ghost rest: multiset<string>, ghost start: bool, e: Suggestion, ghost p: string,
                ghost rest': multiset<string>, ghost start': bool)
    returns (visited': seq<Suggestion>, ghost from': seq<string>, done: bool)
    requires Found(M, C, T, k, prefix, visited, from, rest, start, false) && Entry(M, C, e, p)
    requires p in T && (start ==> p == prefix) && rest == rest' + multiset{p}
    ensures Found(M, C, T, k, prefix, visited', from', rest', start', done)
  {
    ghost var pos := InsertionIndex(visited, e.1);
    Recorded(M, C, visited, from, e, p);
    visited', from' := SortDesc(visited + [e]), from[..pos] + [p] + from[pos..];
    TallyRecord(C, T, k, prefix, from, rest, start, p, from', rest', start');
    done := false;
    // The source counts the entries of `visited` that compare `>=` with
    // `top_weight`; in Python 2 a tuple compares greater than any number,
    // so the count is the length of `visited`.
    if |visited'| >= k {
      MatchesTake(M, C, visited', from', k);
      visited', from' := Take(visited', k), Take(from', k);
      done := true;
    }
  }

  /** Popping the queued path `at[i]` and queueing the children of its node
      `m` in its place removes `at[i]` itself, when it is in `S`, from what
      the queue leads to, and nothing else. */
  lemma {:induction false} Popped(M: Node, S: set<string>, at: seq<string>, i: nat, m: Node,
                                  at': seq<string>)
    requires i < |at| && Find(M, at[i]) == Some(m)
    requires forall q :: q in S ==> Find(M, q).Some?
    requires Bag(S, at') == Bag(S, at[..i] + at[i + 1..]) + multiset(BelowVia(S, at[i], m.children.Keys))
    ensures Bag(S, at) == Bag(S, at') + if at[i] in S then multiset{at[i]} else multiset{}
  {
    BagRemove(S, at, i);
    BelowSplit(M, S, at[i], m);
  }

  // ---------------------------------------------------------------------
  // The search with the stop test of `AutoComplete.py:138` corrected to
  // compare each weight with the popped `child_weight` (`-top_weight`)

  /** Everything the corrected loop knows about its result list between
      rounds. Before the stop, the words found (`from`) and those the queue
      still leads to (`rest`) make up the completions `C`, and nothing has
      been found yet for `k <= 0`. After it, `visited` holds exactly `k`
      entries (none for `k <= 0`) and no completion left out weighs more
      than the last of them. */
  ghost predicate Best(M: Node, C: set<string>, k: int, visited: seq<Suggestion>,
                       from: seq<string>, rest: multiset<string>, done: bool)
  {
    && SortedByWeight(visited)
    && Matches(M, C, visited, from)
    && multiset(from) <= multiset(C)
    && (!done ==> multiset(from) + rest == multiset(C) && (k <= 0 ==> from == []))
    && (done ==> |from| == if k <= 0 then 0 else k)
    && (done && 1 <= k ==>
          forall q :: q in C && q !in from ==> Le(At(M, q).weight, visited[k - 1].1))
  }

  /** A found word cut off by `[:k]` weighs no more than the `k`-th. */
  lemma {:induction false} BeyondCut(M: Node, C: set<string>, visited: seq<Suggestion>,
                                     from: seq<string>, k: int, q: string)
    requires SortedByWeight(visited) && Matches(M, C, visited, from)
    requires 1 <= k <= |from| && q in from && q !in Take(from, k)
    ensures Le(At(M, q).weight, visited[k - 1].1)
  {
    var i :| 0 <= i < |from| && from[i] == q;
    assert Take(from, k) == from[..k];
  }

  /** A prefix of a list has no more of each element than the list. */
  lemma {:induction false} TakeMultiset<T>(s: seq<T>, k: int)
    ensures multiset(Take(s, k)) <= multiset(s)
  {
    assert s == Take(s, k) + s[|Take(s, k)|..];
  }

  /** The corrected stop: once `k` found words weigh at least the popped
      bound `b`, which bounds every word still queued, the first `k` found
      are the `k` heaviest completions. */
  lemma {:induction false} CutAtBound(M: Node, C: set<string>, k: int, b: Weight,
                                      visited: seq<Suggestion>, from: seq<string>,
                                      rest: multiset<string>)
    requires SortedByWeight(visited) && Matches(M, C, visited, from)
    requires multiset(from) <= multiset(C) && multiset(from) + rest == multiset(C)
    requires forall q :: q in rest ==> Le(At(M, q).weight, b)
    requires HeavyCount(visited, b) >= k && (k <= 0 ==> |from| == 1)
    ensures Best(M, C, k, Take(visited, k), Take(from, k), rest, true)
  {
    var v, f := Take(visited, k), Take(from, k);
    MatchesTake(M, C, visited, from, k);
    TakeMultiset(from, k);
    if 1 <= k {
      HeavyCountSorted(visited, b, k);
      assert v[k - 1] == visited[k - 1];
      forall q | q in C && q !in f
        ensures Le(At(M, q).weight, v[k - 1].1)
      {
        assert q in multiset(C);
        if q in from {
          BeyondCut(M, C, visited, from, k, q);
        } else {
          assert q in rest;
          LeTotalOrder(At(M, q).weight, b, v[k - 1].1);
        }
      }
    }
  }

  /** A popped node with no word changes nothing the corrected loop knows. */
  lemma {:induction false} SkippedBest(M: Node, C: set<string>, k: int, visited: seq<Suggestion>,
                                       from: seq<string>, rest: multiset<string>,
                                       rest': multiset<string>)
    requires Best(M, C, k, visited, from, rest, false) && rest == rest'
    ensures Best(M, C, k, visited, from, rest', false)
  {
  }

  /** The corrected record step: as in `topk`, but the loop stops only
      once `k` entries of `visited` weigh at least `b`, the bound of the
      popped node. */
  method RecordBest(k: int, b: Weight, ghost M: Node, ghost C: set<string>,
                    visited: seq<Suggestion>, ghost from: seq<string>, ghost rest: multiset<string>,
                    e: Suggestion, ghost p: string, ghost rest': multiset<string>)
    returns (visited': seq<Suggestion>, ghost from': seq<string>, done: bool)
    requires Best(M, C, k, visited, from, rest, false) && Entry(M, C, e, p)
    requires rest == rest' + multiset{p}
    requires forall q :: q in rest ==> Le(At(M, q).weight, b)
    ensures Best(M, C, k, visited', from', rest', done)
  {
    assert forall q :: q in rest' ==> q in rest;
    ghost var pos := InsertionIndex(visited, e.1);
    Recorded(M, C, visited, from, e, p);
    visited', from' := SortDesc(visited + [e]), from[..pos] + [p] + from[pos..];
    assert multiset(from') + rest' == multiset(C);
    assert multiset(from') <= multiset(C);
    done := false;
    if HeavyCount(visited', b) >= k {
      CutAtBound(M, C, k, b, visited', from', rest');
      visited', from' := Take(visited', k), Take(from', k);
      done := true;
    }
  }

  /** The corrected loop after a pop: record the popped node's word, if it
      has one, against the popped bound `b`. */
  method StepBest(k: int, b: Weight, ghost M: Node, ghost C: set<string>,
                  visited: seq<Suggestion>, ghost from: seq<string>, ghost rest: multiset<string>,
                  wordName: Option<string>, weight: Weight, ghost p: string,
                  ghost rest': multiset<string>)
    returns (visited': seq<Suggestion>, ghost from': seq<string>, done: bool)
    requires Best(M, C, k, visited, from, rest, false)
    requires wordName.Some? ==> Entry(M, C, (wordName.value, weight), p) && rest == rest' + multiset{p}
    requires wordName.None? ==> rest == rest'
    requires forall q :: q in rest ==> Le(At(M, q).weight, b)
    ensures Best(M, C, k, visited', from', rest', done)
  {
    if wordName.Some? {
      visited', from', done := RecordBest(k, b, M, C, visited, from, rest, (wordName.value, weight),
                                          p, rest');
    } else {
      visited', from', done := visited, from, false;
      SkippedBest(M, C, k, visited, from, rest, rest');
    }
  }

  /** What the corrected search returns: distinct completions with their
      texts and weights, heaviest first, `k` of them or all when there are
      fewer, and no completion left out is heavier than the last one. */
  ghost predicate TopKOf(M: Node, C: set<string>, k: int, r: seq<Suggestion>, words: seq<string>)
  {
    && Matches(M, C, r, words)
    && (forall i, j :: 0 <= i < j < |words| ==> words[i] != words[j])
    && SortedByWeight(r)
    && |r| == (if k <= 0 then 0 else if k < |C| then k else |C|)
    && (1 <= k ==> forall q :: q in C && q !in words ==> 0 < |r| && Le(At(M, q).weight, r[|r| - 1].1))
  }

  /** The loop stopped by the bound test: the list is already cut. */
  lemma {:induction false} Concluded(M: Node, C: set<string>, k: int, visited: seq<Suggestion>,
                                     from: seq<string>, rest: multiset<string>)
    requires Best(M, C, k, visited, from, rest, true)
    ensures TopKOf(M, C, k, visited, from)
  {
    NoRepeats(from, C);
    NoLongerThan(from, C);
  }

  /** The queue ran empty: every completion was found, so cutting the
      sorted list at `k` keeps the heaviest. */
  lemma {:induction false} Exhausted(M: Node, C: set<string>, k: int, visited: seq<Suggestion>,
                                     from: seq<string>)
    requires Best(M, C, k, visited, from, multiset{}, false)
    ensures TopKOf(M, C, k, Take(visited, k), Take(from, k))
  {
    var v, f := Take(visited, k), Take(from, k);
    MatchesTake(M, C, visited, from, k);
    TakeMultiset(from, k);
    NoRepeats(f, C);
    assert |from| == |multiset(from)| == |multiset(C)| == |C|;
    if 1 <= k {
      forall q | q in C && q !in f
        ensures 0 < |v| && Le(At(M, q).weight, v[|v| - 1].1)
      {
        assert q in multiset(from);
        BeyondCut(M, C, visited, from, k, q);
        assert v[k - 1] == visited[k - 1];
      }
    }
  }

  /** The end of the corrected search: the list is already cut when the
      bound test stopped the loop; when the queue ran empty it is cut to
      `k` now. */
  method FinishBest(k: int, ghost M: Node, ghost C: set<string>, visited: seq<Suggestion>,
                    ghost from: seq<string>, ghost rest: multiset<string>, done: bool)
    returns (r: seq<Suggestion>, ghost words: seq<string>)
    requires Best(M, C, k, visited, from, rest, done) && (!done ==> rest == multiset{})
    ensures TopKOf(M, C, k, r, words)
  {
    if done {
      Concluded(M, C, k, visited, from, rest);
      r, words := visited, from;
    } else {
      Exhausted(M, C, k, visited, from);
      r, words := Take(visited, k), Take(from, k);
    }
  }

  /** One round of the corrected loop on the trie `t`: pop, queue the
      children, and record the popped word, testing the stop against the
      popped bound. */
  method RoundBest(t: Trie, k: int, prefix: string, pq: seq<(Weight, Trie)>, ghost at: seq<string>,
                   visited: seq<Suggestion>, ghost from: seq<string>)
    returns (pq': seq<(Weight, Trie)>, ghost at': seq<string>, visited': seq<Suggestion>,
             ghost from': seq<string>, done: bool)
    requires t.Valid() && Inv(t.Model) && |pq| > 0
    requires t.BestSearching(k, prefix, pq, at, visited, from, false)
    ensures t.BestSearching(k, prefix, pq', at', visited', from', done)
    ensures |Bag(Paths(t.Model), at')| < |Bag(Paths(t.Model), at)|
  {
    ghost var C, T := Completions(t.Model, prefix), Words(t.Model);
    var top;
    ghost var p;
    top, p, pq', at' := t.PopBounded(prefix, pq, at);
    visited', from', done := StepBest(k, top.childWeight, t.Model, C, visited, from, Bag(T, at),
                                      top.wordName, top.weight, p, Bag(T, at'));
  }

  class Trie {
    var children: map<char, Trie>
    var wordName: Option<string>
    var weight: Weight
    var childWeight: Weight

    /** The objects of this node's subtree. */
    ghost var Repr: set<object>
    /** The value this subtree holds. */
    ghost var Model: Node

    /** Each node owns its children: their footprints lie inside this one's,
        do not hold this node and do not overlap; the fields agree with the
        model at every node. */
    ghost predicate Valid()
      reads this, Repr
      decreases Repr, 1
    {
      && this in Repr
      && Model.children.Keys == children.Keys
      && Model.wordName == wordName && Model.weight == weight && Model.childWeight == childWeight
      && (forall c :: c in children ==> Owns(c))
      && (forall c, d :: c in children && d in children && c != d ==>
            children[c].Repr !! children[d].Repr)
    }

    /** The child at `c` is a valid subtree inside this node's footprint,
        holding the model of the child at `c`. */
    ghost predicate Owns(c: char)
      reads this, Repr
      decreases Repr, 0
    {
      && this in Repr && c in children && c in Model.children
      && children[c] in Repr && children[c].Repr <= Repr && this !in children[c].Repr
      && children[c].Valid() && children[c].Model == Model.children[c]
    }

    /** `Trie()`: no children, no word, both weights negative infinity. */
    constructor ()
      ensures Valid() && fresh(Repr)
      ensures Model == Empty
    {
      children := map[];
      wordName := None;
      weight := NegInf;
      childWeight := NegInf;
      Repr := {this};
      Model := Empty;
    }

    /** `insert(weight, word, constant)`, recursively one character at a
        time; the subtree changes as `TrieModel.Insert` says and keeps the
        subtree-maximum invariant. */
    method Insert(w: int, word: string, constant: string)
      requires Valid()
      modifies Repr
      ensures Valid() && fresh(Repr - old(Repr))
      ensures Model == TrieModel.Insert(old(Model), w, word, constant)
      decreases |word|
    {
      label Start:
      if |word| == 0 {
        wordName := Some(constant);
        weight := Max(weight, Fin(w));
        if Lt(childWeight, weight) {
          childWeight := weight;
        }
        Model := Model.(wordName := wordName, weight := weight, childWeight := childWeight);
        Relabel@Start(this);
        return;
      }
      var key, rest := word[0], word[1..];
      var child: Trie;
      if key in children {
        child := children[key];
      } else {
        child := new Trie();
      }
      label BeforeCall:
      child.Insert(w, rest, constant);
      forall d | d in children && d != key
        ensures children[d].Valid() && children[d].Repr == old@BeforeCall(children[d].Repr)
        ensures children[d].Model == old@BeforeCall(children[d].Model)
        ensures children[d].Repr !! child.Repr
      {
        FrameValid@BeforeCall(children[d]);
      }
      // The source raises `child_weight` before the recursive call and adds
      // a new child to `children` before inserting into it; no other code
      // runs in between, so doing both after the call ends in the same state.
      Adopt(key, child, w);
    }

    /** The step after the recursive insertion: `child`, already updated,
        becomes the child at `key`, and `child_weight` rises to `w`. */
    method Adopt(key: char, child: Trie, w: int)
      requires this in Repr && this !in child.Repr && child.Valid()
      requires key in children ==> children[key] == child
      requires Model.children.Keys == children.Keys
      requires Model.wordName == wordName && Model.weight == weight && Model.childWeight == childWeight
      requires forall d :: d in children && d != key ==>
        && children[d] in Repr && children[d].Repr <= Repr && this !in children[d].Repr
        && children[d].Valid() && children[d].Model == Model.children[d]
        && children[d].Repr !! child.Repr
      requires forall c, d :: c in children && d in children && c != d && c != key && d != key ==>
        children[c].Repr !! children[d].Repr
      modifies this
      ensures Valid()
      ensures children == old(children)[key := child] && Repr == old(Repr) + child.Repr
      ensures Model == old(Model).(childWeight := if Lt(old(childWeight), Fin(w)) then Fin(w) else old(childWeight),
                                   children := old(Model.children)[key := child.Model])
    {
      var raised := if Lt(childWeight, Fin(w)) then Fin(w) else childWeight;
      label Before:
      children, childWeight, Repr, Model :=
        children[key := child], raised, Repr + child.Repr,
        Model.(childWeight := raised, children := Model.children[key := child.Model]);
      forall c | c in children
        ensures children[c] in Repr && children[c].Repr <= Repr && this !in children[c].Repr
        ensures children[c].Valid() && children[c].Model == Model.children[c]
      {
        if c == key {
          FrameValid@Before(child);
        } else {
          ghost var k := old(children[c]);
          assert k.Repr !! child.Repr && this !in k.Repr;
          FrameValid@Before(k);
        }
      }
      forall c, d | c in children && d in children && c != d
        ensures children[c].Repr !! children[d].Repr
      {
        if c != key && d != key {
          assert children[c] == old(children[c]) && children[d] == old(children[d]);
        }
      }
    }

    /** `find_subtrie(prefix)`: the object of the node at `prefix`, or
        `None`, exactly as `TrieModel.Find` descends the model. */
    function FindSubtrie(prefix: string): (r: Option<Trie>)
      reads this, Repr
      requires Valid()
      ensures r.Some? ==> r.value in Repr && r.value.Repr <= Repr && r.value.Valid()
      ensures Find(Model, prefix) == match r case None => None case Some(t) => Some(t.Model)
      decreases |prefix|
    {
      if |prefix| == 0 then Some(this)
      else if prefix[0] in children then
        assert Owns(prefix[0]);
        children[prefix[0]].FindSubtrie(prefix[1..])
      else None
    }


    /** The child for `c` of the node at `p` is the node at `p + [c]`. */
    lemma {:induction false} FindSubtrieChild(p: string, c: char)
      requires Valid() && FindSubtrie(p).Some? && c in FindSubtrie(p).value.children
      ensures FindSubtrie(p + [c]) == Some(FindSubtrie(p).value.children[c])
      decreases |p|
    {
      if p == [] {
        assert Owns(c);
        assert ([c])[1..] == [];
      } else {
        assert (p + [c])[0] == p[0] && (p + [c])[1..] == p[1..] + [c];
        assert Owns(p[0]);
        children[p[0]].FindSubtrieChild(p[1..], c);
      }
    }

    /** What the queue of `topk` holds: subtries below `prefix`, each with
        its path and keyed by its `child_weight`. */
    ghost predicate Queued(prefix: string, pq: seq<(Weight, Trie)>, at: seq<string>)
      reads this, Repr
      requires Valid()
    {
      && |at| == |pq|
      && forall i :: 0 <= i < |pq| ==>
        && prefix <= at[i] && FindSubtrie(at[i]) == Some(pq[i].1)
        && pq[i].0 == pq[i].1.childWeight
    }

    /** The `for` loop of `topk` over `top_node.children.values()`: queue
        every child of `top`, the node at `p`, with its `child_weight`. */
    method Expand(top: Trie, ghost p: string, ghost prefix: string,
                  pq: seq<(Weight, Trie)>, ghost at: seq<string>)
      returns (pq': seq<(Weight, Trie)>, ghost at': seq<string>)
      requires Valid() && FindSubtrie(p) == Some(top) && prefix <= p && Queued(prefix, pq, at)
      ensures Queued(prefix, pq', at')
      ensures forall S: set<string> ::
        Bag(S, at') == Bag(S, at) + multiset(BelowVia(S, p, top.children.Keys))
    {
      pq', at' := pq, at;
      var keys := top.children.Keys;
      while keys != {}
        invariant keys <= top.children.Keys
        invariant Queued(prefix, pq', at')
        invariant forall S: set<string> ::
          Bag(S, at') + multiset(BelowVia(S, p, keys))
            == Bag(S, at) + multiset(BelowVia(S, p, top.children.Keys))
        decreases keys
      {
        var c :| c in keys;
        var child := top.children[c];
        FindSubtrieChild(p, c);
        forall S: set<string>
          ensures Bag(S, at' + [p + [c]]) + multiset(BelowVia(S, p, keys - {c}))
            == Bag(S, at') + multiset(BelowVia(S, p, keys))
        {
          BagAppend(S, at', p + [c]);
          BelowViaStep(S, p, keys, c);
        }
        pq', at' := pq' + [(child.childWeight, child)], at' + [p + [c]];
        keys := keys - {c};
      }
    }

    /** The node `find_subtrie` reaches at `p` is the model's node there;
        `p` is a path of the model, and a word exactly when the node holds a
        text. */
    lemma {:induction false} Located(p: string)
      requires Valid() && FindSubtrie(p).Some?
      ensures At(Model, p) == FindSubtrie(p).value.Model
      ensures p in Paths(Model)
      ensures p in Words(Model) <==> FindSubtrie(p).value.wordName.Some?
    {
      PathsFind(Model, p);
      WordsFind(Model, p);
    }

    /** On a trie built by the calls `es`, the node `find_subtrie(p)` returns
        holds the text of the last insertion of `p` and the largest weight
        `p` was inserted with; a node only passed through holds `None` and
        negative infinity. */
    lemma {:induction false} SubtrieHolds(es: seq<Insertion>, p: string)
      requires Valid() && Model == Build(es) && FindSubtrie(p).Some?
      ensures FindSubtrie(p).value.wordName == LastConstant(es, p)
      ensures FindSubtrie(p).value.weight == HeaviestOf(es, p)
    {
      Located(p);
      BuildWords(es, p);
    }

    /** Taking one entry out of the queue keeps the rest as they were. */
    lemma {:induction false} QueuedRemove(prefix: string, pq: seq<(Weight, Trie)>, at: seq<string>,
                                          i: nat)
      requires Valid() && Queued(prefix, pq, at) && i < |pq|
      ensures Queued(prefix, pq[..i] + pq[i + 1..], at[..i] + at[i + 1..])
    {
      var pq', at' := pq[..i] + pq[i + 1..], at[..i] + at[i + 1..];
      forall j | 0 <= j < |pq'|
        ensures prefix <= at'[j] && FindSubtrie(at'[j]) == Some(pq'[j].1)
        ensures pq'[j].0 == pq'[j].1.childWeight
      {
        if j < i {
          assert pq'[j] == pq[j] && at'[j] == at[j];
        } else {
          assert pq'[j] == pq[j + 1] && at'[j] == at[j + 1];
        }
      }
    }

    /** One round of `topk`'s loop before the record: `pq.get()` takes an
        entry of largest bound (ties broken arbitrarily) and the node's
        children are queued with their bounds. What the queue leads to loses
        exactly the popped path `p`. */
    method PopBest(ghost prefix: string, pq: seq<(Weight, Trie)>, ghost at: seq<string>)
      returns (top: Trie, ghost p: string, pq': seq<(Weight, Trie)>, ghost at': seq<string>)
      requires Valid() && Queued(prefix, pq, at) && |pq| > 0
      ensures Queued(prefix, pq', at')
      ensures prefix <= p && FindSubtrie(p) == Some(top)
      ensures forall j :: 0 <= j < |pq| ==> Le(pq[j].0, top.childWeight)
      ensures top.wordName.Some? ==>
                && p in Words(Model)
                && Entry(Model, Completions(Model, prefix), (top.wordName.value, top.weight), p)
                && Bag(Words(Model), at) == Bag(Words(Model), at') + multiset{p}
      ensures top.wordName.None? ==> p !in Words(Model) && Bag(Words(Model), at) == Bag(Words(Model), at')
      ensures Bag(Paths(Model), at) == Bag(Paths(Model), at') + multiset{p}
      ensures at == [prefix] ==> p == prefix
    {
      MaxPriorityExists(pq);
      var i :| 0 <= i < |pq| && forall j :: 0 <= j < |pq| ==> Le(pq[j].0, pq[i].0);
      top, p := pq[i].1, at[i];
      Located(p);
      QueuedRemove(prefix, pq, at, i);
      pq', at' := pq[..i] + pq[i + 1..], at[..i] + at[i + 1..];
      pq', at' := Expand(top, p, prefix, pq', at');
      forall q | q in Words(Model)
        ensures Find(Model, q).Some?
      {
        WordsFind(Model, q);
      }
      forall q | q in Paths(Model)
        ensures Find(Model, q).Some?
      {
        PathsFind(Model, q);
      }
      Popped(Model, Words(Model), at, i, top.Model, at');
      Popped(Model, Paths(Model), at, i, top.Model, at');
    }

    /** What holds of `topk`'s variables between rounds: the queue is
        well formed, `visited` is sorted and lists found words, and the
        counts add up. */
    ghost predicate Searching(k: int, prefix: string, pq: seq<(Weight, Trie)>, at: seq<string>,
                              visited: seq<Suggestion>, from: seq<string>, done: bool)
      reads this, Repr
      requires Valid()
    {
      && Queued(prefix, pq, at)
      && Found(Model, Completions(Model, prefix), Words(Model), k, prefix, visited, from,
               Bag(Words(Model), at), at == [prefix], done)
    }

    /** One round of `topk`'s loop: pop, queue the children, and record the
        popped node's word if it has one. Each round pops one path for good,
        so the loop ends. */
    method Round(k: int, prefix: string, pq: seq<(Weight, Trie)>, ghost at: seq<string>,
                 visited: seq<Suggestion>, ghost from: seq<string>)
      returns (pq': seq<(Weight, Trie)>, ghost at': seq<string>, visited': seq<Suggestion>,
               ghost from': seq<string>, done: bool)
      requires Valid() && |pq| > 0 && Searching(k, prefix, pq, at, visited, from, false)
      ensures Searching(k, prefix, pq', at', visited', from', done)
      ensures |Bag(Paths(Model), at')| < |Bag(Paths(Model), at)|
    {
      ghost var C, T := Completions(Model, prefix), Words(Model);
      var top;
      ghost var p;
      top, p, pq', at' := PopBest(prefix, pq, at);
      if top.wordName.Some? {
        visited', from', done := Record(k, Model, C, T, prefix, visited, from, Bag(T, at),
          at == [prefix], (top.wordName.value, top.weight), p, Bag(T, at'), at' == [prefix]);
      } else {
        visited', from', done := visited, from, false;
        Skipped(Model, C, T, k, prefix, visited, from, Bag(T, at), at == [prefix], p, Bag(T, at'),
          at' == [prefix]);
      }
    }

    /** `topk(k, prefix)`. The result lists the texts and weights of distinct
        words of the subtrie at `prefix` (`words` names their paths), heaviest
        first; it has `k` entries, or every such word when there are fewer,
        and none when `k <= 0` or the prefix is missing. When the prefix is
        itself a word it is always among the results: the loop keeps the
        first `k` words it meets, not the `k` heaviest. */
    method TopK(k: int, prefix: string) returns (r: seq<Suggestion>, ghost words: seq<string>)
      requires Valid()
      ensures Matches(Model, Completions(Model, prefix), r, words)
      ensures forall i, j :: 0 <= i < j < |r| ==> words[i] != words[j]
      ensures SortedByWeight(r)
      ensures var n := |Completions(Model, prefix)|;
        |r| == if k <= 0 then 0 else if k < n then k else n
      ensures |Completions(Model, prefix)| <= k ==>
        multiset(words) == multiset(Completions(Model, prefix))
      ensures Find(Model, prefix).None? ==> r == []
      ensures 1 <= k && prefix in Words(Model) ==> prefix in words
    {
      ghost var M, T, P := Model, Words(Model), Paths(Model);
      ghost var C := Completions(M, prefix);
      var subtrie := FindSubtrie(prefix);
      if subtrie.None? {
        MissHasNoCompletions(M, prefix);
        WordsFind(M, prefix);
        return [], [];
      }
      var top := subtrie.value;
      var pq: seq<(Weight, Trie)> := [(top.childWeight, top)];
      ghost var at: seq<string> := [prefix];
      var visited: seq<Suggestion> := [];
      ghost var from: seq<string> := [];
      var isVisitedK := false;
      assert Bag(T, at) == Bag(T, []) + multiset(C);
      while !isVisitedK
        invariant Searching(k, prefix, pq, at, visited, from, isVisitedK)
        decreases |Bag(P, at)|
      {
        if |pq| == 0 {
          break;
        }
        pq, at, visited, from, isVisitedK := Round(k, prefix, pq, at, visited, from);
      }
      NoRepeats(from, C);
      return visited, from;
    }

    /** In a well-formed trie, every word the queue leads to weighs no more
        than some queued bound, so no more than `b` when `b` bounds them
        all. */
    lemma {:induction false} PendingBelow(prefix: string, pq: seq<(Weight, Trie)>, at: seq<string>,
                                          b: Weight)
      requires Valid() && Inv(Model) && Queued(prefix, pq, at)
      requires forall j :: 0 <= j < |pq| ==> Le(pq[j].0, b)
      ensures forall q :: q in Bag(Words(Model), at) ==> Le(At(Model, q).weight, b)
    {
      forall q | q in Bag(Words(Model), at)
        ensures Le(At(Model, q).weight, b)
      {
        BagMember(Words(Model), at, q);
        var j :| 0 <= j < |at| && q in Below(Words(Model), at[j]);
        Located(at[j]);
        BelowBound(Model, at[j], q);
        LeTotalOrder(At(Model, q).weight, pq[j].0, b);
      }
    }

    /** `PopBest` in a well-formed trie: `pq.get()` takes an entry of
        largest bound, at a path below the prefix, and besides what `PopBest`
        says of the queue afterwards, no word the queue led to before the pop
        weighs more than the popped node's bound. */
    method PopBounded(ghost prefix: string, pq: seq<(Weight, Trie)>, ghost at: seq<string>)
      returns (top: Trie, ghost p: string, pq': seq<(Weight, Trie)>, ghost at': seq<string>)
      requires Valid() && Inv(Model) && Queued(prefix, pq, at) && |pq| > 0
      ensures Queued(prefix, pq', at')
      ensures prefix <= p && FindSubtrie(p) == Some(top)
      ensures forall j :: 0 <= j < |pq| ==> Le(pq[j].0, top.childWeight)
      ensures top.wordName.Some? ==>
                && Entry(Model, Completions(Model, prefix), (top.wordName.value, top.weight), p)
                && Bag(Words(Model), at) == Bag(Words(Model), at') + multiset{p}
      ensures top.wordName.None? ==> Bag(Words(Model), at) == Bag(Words(Model), at')
      ensures |Bag(Paths(Model), at')| < |Bag(Paths(Model), at)|
      ensures forall q :: q in Bag(Words(Model), at) ==> Le(At(Model, q).weight, top.childWeight)
    {
      top, p, pq', at' := PopBest(prefix, pq, at);
      PendingBelow(prefix, pq, at, top.childWeight);
    }

    /** What holds of the corrected loop's variables between rounds. */
    ghost predicate BestSearching(k: int, prefix: string, pq: seq<(Weight, Trie)>, at: seq<string>,
                                  visited: seq<Suggestion>, from: seq<string>, done: bool)
      reads this, Repr
      requires Valid()
    {
      && Queued(prefix, pq, at)
      && Best(Model, Completions(Model, prefix), k, visited, from, Bag(Words(Model), at), done)
    }

    /** `topk(k, prefix)` with the stop test of `AutoComplete.py:138`
        corrected twice: each found entry's weight is compared instead of the
        entry, and with the popped node's `child_weight` instead of its
        negation `top_weight`. The loop stops once `k` found words weigh at
        least that bound, and the list is cut to `k` also when the queue runs
        empty. The result lists distinct completions of `prefix` with their texts and weights,
        heaviest first, `k` of them or all when there are fewer, and no
        completion left out is heavier than the last one returned. */
    method TopKBest(k: int, prefix: string) returns (r: seq<Suggestion>, ghost words: seq<string>)
      requires Valid() && Inv(Model)
      ensures TopKOf(Model, Completions(Model, prefix), k, r, words)
      ensures SortedByWeight(r)
      ensures var n := |Completions(Model, prefix)|;
        |r| == if k <= 0 then 0 else if k < n then k else n
    {
      ghost var M, T, P := Model, Words(Model), Paths(Model);
      ghost var C := Completions(M, prefix);
      var subtrie := FindSubtrie(prefix);
      if subtrie.None? {
        MissHasNoCompletions(M, prefix);
        r, words := [], [];
        assert TopKOf(M, C, k, r, words);
      } else {
        var top := subtrie.value;
        var pq: seq<(Weight, Trie)> := [(top.childWeight, top)];
        ghost var at: seq<string> := [prefix];
        var visited: seq<Suggestion> := [];
        ghost var from: seq<string> := [];
        var isVisitedK := false;
        assert Bag(T, at) == Bag(T, []) + multiset(C);
        while !isVisitedK
          invariant BestSearching(k, prefix, pq, at, visited, from, isVisitedK)
          decreases |Bag(P, at)|
        {
          if |pq| == 0 {
            break;
          }
          pq, at, visited, from, isVisitedK := RoundBest(this, k, prefix, pq, at, visited, from);
        }
        r, words := FinishBest(k, M, C, visited, from, Bag(T, at), isVisitedK);
      }
    }
  }
}
