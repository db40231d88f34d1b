/** A trie built by a sequence of `insert` calls from a fresh node, as
    `read` builds one from the dictionary's lines, and what the history of
    calls determines about it. */
module TrieBuild {
  import opened Options
  import opened Weights
  import opened TrieModel

  /** One call `insert(weight, word, constant)`. */
  datatype Insertion = Insertion(weight: int, word: string, constant: string)

  /** The trie after the calls `es`, in order, on a fresh node. */
  function Build(es: seq<Insertion>): Node
  {
    if es == [] then Empty
    else
      var e := es[|es| - 1];
      Insert(Build(es[..|es| - 1]), e.weight, e.word, e.constant)
  }

  /** The `constant` of the last call that inserted `word`. */
  function LastConstant(es: seq<Insertion>, word: string): Option<string>
  {
    if es == [] then None
    else if es[|es| - 1].word == word then Some(es[|es| - 1].constant)
    else LastConstant(es[..|es| - 1], word)
  }

  /** The largest weight with which `word` was inserted. */
  function HeaviestOf(es: seq<Insertion>, word: string): Weight
  {
    if es == [] then NegInf
    else
      var rest := HeaviestOf(es[..|es| - 1], word);
      if es[|es| - 1].word == word then Max(rest, Fin(es[|es| - 1].weight)) else rest
  }

  /** The largest weight inserted at all. */
  function Heaviest(es: seq<Insertion>): Weight
  {
    if es == [] then NegInf else Max(Heaviest(es[..|es| - 1]), Fin(es[|es| - 1].weight))
  }

  lemma {:induction false} LastConstantSome(es: seq<Insertion>, word: string)
    ensures LastConstant(es, word).Some? <==> exists i :: 0 <= i < |es| && es[i].word == word
  {
    if es != [] {
      var es' := es[..|es| - 1];
      LastConstantSome(es', word);
      if exists i :: 0 <= i < |es| && es[i].word == word {
        var i :| 0 <= i < |es| && es[i].word == word;
        if i < |es'| {
          assert es'[i] == es[i];
        }
      }
    }
  }

  /** Every trie built by `insert` keeps the subtree-maximum invariant at
      every node. */
  lemma {:induction false} BuildInv(es: seq<Insertion>)
    ensures Inv(Build(es))
  {
    if es != [] {
      var e := es[|es| - 1];
      BuildInv(es[..|es| - 1]);
      InsertInv(Build(es[..|es| - 1]), e.weight, e.word, e.constant);
    }
  }

  /** The nodes of the trie are exactly the prefixes of the inserted words:
      `find_subtrie` finds a node exactly for such a prefix. */
  lemma {:induction false} BuildPaths(es: seq<Insertion>, p: string)
    ensures Find(Build(es), p).Some? <==> p == [] || exists i :: 0 <= i < |es| && p <= es[i].word
  {
    if es != [] {
      var es', e := es[..|es| - 1], es[|es| - 1];
      BuildPaths(es', p);
      if p <= e.word {
        InsertOnPath(Build(es'), e.weight, e.word, e.constant, |p|);
        assert e.word[..|p|] == p;
      } else {
        InsertOffPath(Build(es'), e.weight, e.word, e.constant, p);
        if exists i :: 0 <= i < |es| && p <= es[i].word {
          var i :| 0 <= i < |es| && p <= es[i].word;
          assert es'[i] == es[i];
        }
      }
    }
  }

  /** The node at a path holds the text of the last insertion of that word
      and the largest weight it was inserted with; a node only passed through
      keeps `None` and negative infinity. */
  lemma {:induction false} BuildWords(es: seq<Insertion>, p: string)
    ensures At(Build(es), p).wordName == LastConstant(es, p)
    ensures At(Build(es), p).weight == HeaviestOf(es, p)
  {
    if es != [] {
      var es', e := es[..|es| - 1], es[|es| - 1];
      BuildWords(es', p);
      if p <= e.word {
        InsertOnPath(Build(es'), e.weight, e.word, e.constant, |p|);
        assert e.word[..|p|] == p;
      } else {
        InsertOffPath(Build(es'), e.weight, e.word, e.constant, p);
      }
    }
  }

  /** The words stored in the trie are exactly the inserted words. */
  lemma {:induction false} BuildStoresInserted(es: seq<Insertion>)
    ensures Words(Build(es)) == set i | 0 <= i < |es| :: es[i].word
  {
    forall p
      ensures p in Words(Build(es)) <==> exists i :: 0 <= i < |es| && es[i].word == p
    {
      WordsFind(Build(es), p);
      BuildWords(es, p);
      LastConstantSome(es, p);
    }
  }

  /** When every word is inserted as its own `constant`, as `read` does,
      the text stored at a node is the path that leads to it. */
  lemma {:induction false} TextIsPath(es: seq<Insertion>, p: string)
    requires forall i :: 0 <= i < |es| ==> es[i].constant == es[i].word
    requires p in Words(Build(es))
    ensures At(Build(es), p).wordName == Some(p)
  {
    BuildWords(es, p);
    LastConstantIsWord(es, p);
    WordsFind(Build(es), p);
  }

  lemma {:induction false} LastConstantIsWord(es: seq<Insertion>, word: string)
    requires forall i :: 0 <= i < |es| ==> es[i].constant == es[i].word
    ensures LastConstant(es, word).Some? ==> LastConstant(es, word) == Some(word)
  {
    if es != [] {
      LastConstantIsWord(es[..|es| - 1], word);
    }
  }

  /** The root's `child_weight` is the largest weight ever inserted. */
  lemma {:induction false} BuildRootWeight(es: seq<Insertion>)
    ensures Build(es).childWeight == Heaviest(es)
  {
    if es != [] {
      var es', e := es[..|es| - 1], es[|es| - 1];
      BuildRootWeight(es');
      BuildInv(es');
      InsertRootWeight(Build(es'), e.weight, e.word, e.constant);
    }
  }

  /** The root has one child per distinct first character of the inserted
      words. */
  lemma {:induction false} BuildRootChildren(es: seq<Insertion>)
    ensures Build(es).children.Keys == set i | 0 <= i < |es| && es[i].word != [] :: es[i].word[0]
  {
    forall c
      ensures c in Build(es).children <==> exists i :: 0 <= i < |es| && es[i].word != [] && es[i].word[0] == c
    {
      BuildPaths(es, [c]);
      assert [c][1..] == [];
      if exists i :: 0 <= i < |es| && es[i].word != [] && es[i].word[0] == c {
        var i :| 0 <= i < |es| && es[i].word != [] && es[i].word[0] == c;
        assert [c] <= es[i].word;
      }
    }
  }
}
