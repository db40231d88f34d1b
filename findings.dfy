/** The stop test of `topk` as written against the corrected test, which
    compares each found weight with the popped node's `child_weight`, on
    the trie of the words `big` (weight 5) and `bigO` (weight 20), both
    inserted as their own text, queried with `k = 1` and the prefix `big`. */
module Findings {
  import opened Options
  import opened Weights
  import opened Ranking
  import opened TrieModel
  import opened TrieBuild
  import opened AutoComplete

  const BigCalls := [Insertion(5, "big", "big"), Insertion(20, "bigO", "bigO")]

  /** The two insertions on a fresh node give the trie `Build(BigCalls)`. */
  lemma {:induction false} BigHistory(m: Node)
    requires m == Insert(Insert(Empty, 5, "big", "big"), 20, "bigO", "bigO")
    ensures m == Build(BigCalls)
  {
    assert BigCalls[..1] == [Insertion(5, "big", "big")];
    assert BigCalls[..1][..0] == [];
  }

  /** What the trie holds at the two words and which words it stores. */
  lemma {:induction false} BigTrie()
    ensures Words(Build(BigCalls)) == {"big", "bigO"}
    ensures Completions(Build(BigCalls), "big") == {"big", "bigO"}
    ensures At(Build(BigCalls), "big").wordName == Some("big")
    ensures At(Build(BigCalls), "big").weight == Fin(5)
    ensures At(Build(BigCalls), "bigO").wordName == Some("bigO")
    ensures At(Build(BigCalls), "bigO").weight == Fin(20)
  {
    BuildStoresInserted(BigCalls);
    assert (set i | 0 <= i < |BigCalls| :: BigCalls[i].word) == {"big", "bigO"} by {
      assert BigCalls[0].word == "big" && BigCalls[1].word == "bigO";
    }
    assert "big" <= "bigO";
    BuildWords(BigCalls, "big");
    BuildWords(BigCalls, "bigO");
    assert BigCalls[..1] == [Insertion(5, "big", "big")];
    assert BigCalls[..1][..0] == [];
  }

  /** As written: whatever `Trie.TopK(1, "big")` returns on this trie meets
      the first guarantee below (one entry at most, as `k = 1` gives) and so
      is `[("big", 5)]`, though `bigO` is a heavier completion. The loop
      stops at the first word popped, the prefix's own. */
  lemma {:induction false} FirstFoundNotHeaviest(r: seq<Suggestion>, words: seq<string>)
    requires var M := Build(BigCalls);
      && Matches(M, Completions(M, "big"), r, words)
      && |r| <= 1
      && ("big" in Words(M) ==> "big" in words)
    ensures r == [("big", Fin(5))]
    ensures "bigO" in Completions(Build(BigCalls), "big") && "bigO" !in words
    ensures Lt(r[0].1, At(Build(BigCalls), "bigO").weight)
  {
    BigTrie();
    assert words[0] == "big";
  }

  /** As written, from a fresh `Trie`: insert `big` and `bigO`, then
      `topk(1, "big")` returns the lighter word. */
  method FirstFound() returns (r: seq<Suggestion>)
    ensures r == [("big", Fin(5))]
  {
    var t := new Trie();
    t.Insert(5, "big", "big");
    t.Insert(20, "bigO", "bigO");
    BigHistory(t.Model);
    ghost var words: seq<string>;
    r, words := t.TopK(1, "big");
    FirstFoundNotHeaviest(r, words);
  }

  /** Corrected: whatever `Trie.TopKBest(1, "big")` returns on this trie is
      `[("bigO", 20)]`. */
  lemma {:induction false} BoundStopFindsHeaviest(r: seq<Suggestion>, words: seq<string>)
    requires var M := Build(BigCalls); TopKOf(M, Completions(M, "big"), 1, r, words)
    ensures r == [("bigO", Fin(20))]
  {
    BigTrie();
    var M := Build(BigCalls);
    assert |Completions(M, "big")| == 2;
  }

  /** Corrected, from a fresh `Trie`: the same insertions, then the
      corrected `topk(1, "big")` returns the heavier word. */
  method HeaviestFound() returns (r: seq<Suggestion>)
    ensures r == [("bigO", Fin(20))]
  {
    var t := new Trie();
    t.Insert(5, "big", "big");
    t.Insert(20, "bigO", "bigO");
    BigHistory(t.Model);
    BuildInv(BigCalls);
    ghost var words: seq<string>;
    r, words := t.TopKBest(1, "big");
    BoundStopFindsHeaviest(r, words);
  }
}
