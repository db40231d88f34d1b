/** The trie as a value: what one `Trie` object and everything below it hold.
    `Find` and `Insert` are `find_subtrie` and `insert` on these values; the
    class `AutoComplete.Trie` is proved to act on its objects as these act on
    values. */
module TrieModel {
  import opened Options
  import opened Weights

  /** One node: its children by character, the text stored when an inserted
      word ends here (`word_name`), that word's weight, and `child_weight`,
      the cached largest weight in the subtree. */
  datatype Node = Node(children: map<char, Node>, wordName: Option<string>,
                       weight: Weight, childWeight: Weight)

  /** A node as `Trie.__init__` leaves it. */
  const Empty := Node(map[], None, NegInf, NegInf)

  /** `find_subtrie`: follow `prefix` one character at a time; `None` on the
      first character without a child. */
  function Find(n: Node, prefix: string): Option<Node>
    decreases |prefix|
  {
    if |prefix| == 0 then Some(n)
    else if prefix[0] in n.children then Find(n.children[prefix[0]], prefix[1..])
    else None
  }

  /** The node at path `p`, or a fresh node where there is none: the node that
      `insert` works on at that depth. */
  function At(n: Node, p: string): Node
  {
    match Find(n, p)
    case Some(m) => m
    case None => Empty
  }

  /** `insert(weight, word, constant)`: raise `child_weight` on every node of
      the path, creating the nodes that are missing, and at the end node store
      `constant` and the larger of the old and the new weight. */
  function Insert(n: Node, w: int, word: string, constant: string): Node
    decreases |word|
  {
    if |word| == 0 then
      var weight := Max(n.weight, Fin(w));
      n.(wordName := Some(constant), weight := weight,
         childWeight := if Lt(n.childWeight, weight) then weight else n.childWeight)
    else
      var child := if word[0] in n.children then n.children[word[0]] else Empty;
      n.(childWeight := if Lt(n.childWeight, Fin(w)) then Fin(w) else n.childWeight,
         children := n.children[word[0] := Insert(child, w, word[1..], constant)])
  }

  /** Every path that leads to a node. */
  function Paths(n: Node): set<string>
  {
    {[]} + set c, q | c in n.children && q in Paths(n.children[c]) :: [c] + q
  }

  /** The paths of the nodes that end a word. */
  function Words(n: Node): set<string>
  {
    set p | p in Paths(n) && At(n, p).wordName.Some?
  }

  /** The members of `S` that start with `p`. */
  function Below(S: set<string>, p: string): set<string>
  {
    set q | q in S && p <= q
  }

  /** The words of `n` that start with `prefix`. */
  function Completions(n: Node, prefix: string): set<string>
  {
    Below(Words(n), prefix)
  }

  /** What holds of every node of a trie built by `insert` from a fresh node:
      a node stores a text exactly when it has a (real) weight, and its
      `child_weight` is the largest of its own weight and its children's
      `child_weight` (negative infinity when there is none of them). */
  predicate LocalInv(n: Node)
  {
    && (n.wordName.Some? <==> n.weight.Fin?)
    && Le(n.weight, n.childWeight)
    && (forall c :: c in n.children ==> Le(n.children[c].childWeight, n.childWeight))
    && (n.childWeight == n.weight ||
        exists c :: c in n.children && n.children[c].childWeight == n.childWeight)
  }

  predicate Inv(n: Node)
  {
    LocalInv(n) && forall c :: c in n.children ==> Inv(n.children[c])
  }

  /** A fresh node is the trie of no words: it has the empty path only,
      stores no word, holds the invariant, and every lookup but the empty
      one misses. */
  lemma {:induction false} EmptyNode()
    ensures Paths(Empty) == {[]} && Words(Empty) == {} && Inv(Empty)
    ensures forall p :: Find(Empty, p).Some? <==> p == []
  {
    assert Paths(Empty) == {[]};
    assert At(Empty, []) == Empty;
  }

  // ---------------------------------------------------------------------
  // Descent

  lemma {:induction false} AtEmpty(p: string)
    ensures At(Empty, p) == Empty
  {
  }

  /** Descending along `p + q` is descending along `p`, then along `q`. */
  lemma {:induction false} FindConcat(n: Node, p: string, q: string)
    ensures Find(n, p + q) == match Find(n, p) case None => None case Some(m) => Find(m, q)
    decreases |p|
  {
    if p == [] {
      assert p + q == q;
    } else {
      assert (p + q)[0] == p[0] && (p + q)[1..] == p[1..] + q;
      if p[0] in n.children {
        FindConcat(n.children[p[0]], p[1..], q);
      }
    }
  }

  /** `find_subtrie` misses exactly when some character of the prefix has no
      child at the node the characters before it lead to. */
  lemma {:induction false} FindMiss(n: Node, p: string)
    ensures Find(n, p).None? <==>
      exists i :: 0 <= i < |p| && Find(n, p[..i]).Some? && p[i] !in Find(n, p[..i]).value.children
    decreases |p|
  {
    if p != [] {
      assert p[..0] == [];
      if p[0] in n.children {
        var child := n.children[p[0]];
        FindMiss(child, p[1..]);
        forall i | 0 < i <= |p|
          ensures Find(n, p[..i]) == Find(child, p[1..][..i - 1])
        {
          assert p[..i][0] == p[0] && p[..i][1..] == p[1..][..i - 1];
        }
        if Find(n, p).None? {
          var i :| 0 <= i < |p| - 1 && Find(child, p[1..][..i]).Some?
            && p[1..][i] !in Find(child, p[1..][..i]).value.children;
          assert Find(n, p[..i + 1]) == Find(child, p[1..][..i]);
        } else {
          forall i | 0 <= i < |p| && Find(n, p[..i]).Some?
            ensures p[i] in Find(n, p[..i]).value.children
          {
            if i > 0 {
              assert Find(n, p[..i]) == Find(child, p[1..][..i - 1]);
            }
          }
        }
      }
    }
  }

  lemma {:induction false} PathsFind(n: Node, p: string)
    ensures p in Paths(n) <==> Find(n, p).Some?
    decreases |p|
  {
    if p != [] {
      if p[0] in n.children {
        PathsFind(n.children[p[0]], p[1..]);
        if p[1..] in Paths(n.children[p[0]]) {
          assert p == [p[0]] + p[1..];
        }
      }
      if p in Paths(n) {
        var c, q :| c in n.children && q in Paths(n.children[c]) && p == [c] + q;
        assert c == p[0] && q == p[1..];
      }
    }
  }

  lemma {:induction false} WordsFind(n: Node, p: string)
    ensures p in Words(n) <==> Find(n, p).Some? && Find(n, p).value.wordName.Some?
  {
    PathsFind(n, p);
  }

  /** A completion of `prefix` is the word the subtrie at `prefix` holds at
      the rest of the path, with the same text and weight. */
  lemma {:induction false} CompletionsOfSubtrie(n: Node, prefix: string, sub: Node, q: string)
    requires Find(n, prefix) == Some(sub)
    ensures prefix + q in Completions(n, prefix) <==> q in Words(sub)
    ensures At(n, prefix + q) == At(sub, q)
  {
    FindConcat(n, prefix, q);
    WordsFind(n, prefix + q);
    WordsFind(sub, q);
  }

  /** One step down: the child for `c` of the node at `p` is the node at
      `p + [c]`. */
  lemma {:induction false} FindChild(n: Node, p: string, m: Node, c: char)
    requires Find(n, p) == Some(m)
    requires c in m.children
    ensures Find(n, p + [c]) == Some(m.children[c])
  {
    FindConcat(n, p, [c]);
    assert [c][1..] == [];
  }

  /** A prefix that `find_subtrie` misses has no completions. */
  lemma {:induction false} MissHasNoCompletions(n: Node, prefix: string)
    requires Find(n, prefix).None?
    ensures Completions(n, prefix) == {}
  {
    forall q | q in Words(n) && prefix <= q
      ensures false
    {
      WordsFind(n, q);
      assert q == prefix + q[|prefix|..];
      FindConcat(n, prefix, q[|prefix|..]);
    }
  }

  // ---------------------------------------------------------------------
  // Insertion

  /** On the inserted word's path: every node exists afterwards and has its
      `child_weight` raised to the new weight; the nodes before the end keep
      their text and weight and gain the child for the next character (one
      child per character: an existing child is reused); the end node stores
      `constant` and the larger of its old and the new weight. */
  lemma {:induction false} InsertOnPath(n: Node, w: int, word: string, constant: string, i: nat)
    requires i <= |word|
    ensures var p := word[..i];
      var m, o := At(Insert(n, w, word, constant), p), At(n, p);
      && Find(Insert(n, w, word, constant), p).Some?
      && (i < |word| ==>
           && m.childWeight == Max(o.childWeight, Fin(w))
           && m.wordName == o.wordName && m.weight == o.weight
           && m.children.Keys == o.children.Keys + {word[i]})
      && (i == |word| ==>
           && m.wordName == Some(constant)
           && m.weight == Max(o.weight, Fin(w))
           && m.childWeight == Max(o.childWeight, m.weight)
           && m.children == o.children)
    decreases |word|
  {
    if i > 0 {
      var child := if word[0] in n.children then n.children[word[0]] else Empty;
      var p := word[..i];
      assert p[0] == word[0] && p[1..] == word[1..][..i - 1];
      InsertOnPath(child, w, word[1..], constant, i - 1);
      if word[0] !in n.children {
        AtEmpty(p[1..]);
      }
    } else {
      assert word[..i] == [];
    }
  }

  /** Off the inserted word's path nothing changes: the node at every path
      that is not a prefix of the word is the same before and after. */
  lemma {:induction false} InsertOffPath(n: Node, w: int, word: string, constant: string, p: string)
    requires !(p <= word)
    ensures Find(Insert(n, w, word, constant), p) == Find(n, p)
    decreases |word|
  {
    if |word| > 0 && p[0] == word[0] {
      var child := if word[0] in n.children then n.children[word[0]] else Empty;
      assert !(p[1..] <= word[1..]);
      InsertOffPath(child, w, word[1..], constant, p[1..]);
    }
  }

  /** The root's `child_weight` after an insertion is the larger of the old
      one and the inserted weight. */
  lemma {:induction false} InsertRootWeight(n: Node, w: int, word: string, constant: string)
    requires LocalInv(n)
    ensures Insert(n, w, word, constant).childWeight == Max(n.childWeight, Fin(w))
  {
    InsertOnPath(n, w, word, constant, 0);
    assert word[..0] == [];
  }

  /** `insert` keeps the subtree-maximum invariant at every node. */
  lemma {:induction false} InsertInv(n: Node, w: int, word: string, constant: string)
    requires Inv(n)
    ensures Inv(Insert(n, w, word, constant))
    decreases |word|
  {
    if |word| > 0 {
      var child := if word[0] in n.children then n.children[word[0]] else Empty;
      InsertInv(child, w, word[1..], constant);
      InsertRootWeight(child, w, word[1..], constant);
      var r := Insert(n, w, word, constant);
      var c' := Insert(child, w, word[1..], constant);
      assert r.children[word[0]] == c';
      if n.childWeight != n.weight && Lt(n.childWeight, Fin(w)) == false {
        var d :| d in n.children && n.children[d].childWeight == n.childWeight;
        assert r.children[d].childWeight == r.childWeight;
      }
      assert LocalInv(r);
    }
  }

  /** Re-inserting a word keeps the larger of the two weights and the text
      of the second insertion. */
  lemma {:induction false} Reinsert(n: Node, w1: int, w2: int, word: string, c1: string, c2: string)
    ensures var m := At(Insert(Insert(n, w1, word, c1), w2, word, c2), word);
      m.wordName == Some(c2) && m.weight == Max(Max(At(n, word).weight, Fin(w1)), Fin(w2))
  {
    InsertOnPath(n, w1, word, c1, |word|);
    InsertOnPath(Insert(n, w1, word, c1), w2, word, c2, |word|);
    assert word[..|word|] == word;
  }

  // ---------------------------------------------------------------------
  // The cached bound

  lemma {:induction false} AtChild(n: Node, c: char, q: string)
    requires c in n.children
    ensures At(n, [c] + q) == At(n.children[c], q)
    ensures [c] + q in Paths(n) <==> q in Paths(n.children[c])
  {
    assert ([c] + q)[0] == c && ([c] + q)[1..] == q;
    PathsFind(n, [c] + q);
    PathsFind(n.children[c], q);
  }

  /** `child_weight` bounds the subtree: no word below a node is heavier. */
  lemma {:induction false} BoundAbove(n: Node)
    requires Inv(n)
    ensures forall p :: p in Words(n) ==> Le(At(n, p).weight, n.childWeight)
  {
    forall p | p in Words(n)
      ensures Le(At(n, p).weight, n.childWeight)
    {
      if p != [] {
        var c, q := p[0], p[1..];
        assert p == [c] + q;
        PathsFind(n, p);
        AtChild(n, c, q);
        assert q in Words(n.children[c]);
        BoundAbove(n.children[c]);
        LeTotalOrder(At(n, p).weight, n.children[c].childWeight, n.childWeight);
      }
    }
  }

  /** `child_weight` is attained: it is negative infinity when the
      subtree holds no word, and otherwise some word has that weight. */
  lemma {:induction false} BoundAttained(n: Node)
    requires Inv(n)
    ensures Words(n) == {} ==> n.childWeight == NegInf
    ensures Words(n) != {} ==> exists p :: p in Words(n) && At(n, p).weight == n.childWeight
  {
    assert [] in Paths(n);
    assert At(n, []) == n;
    var c: char;
    if n.childWeight == n.weight {
      if n.weight.Fin? {
        assert [] in Words(n);
      } else if p :| p in Words(n) {
        // A word below a node without one: its child bounds it by -inf too.
        c := p[0];
        assert p == [c] + p[1..];
        PathsFind(n, p);
        AtChild(n, c, p[1..]);
        assert p[1..] in Words(n.children[c]);
        BoundAttained(n.children[c]);
        var q :| q in Words(n.children[c]) && At(n.children[c], q).weight == n.children[c].childWeight;
        AtChild(n, c, q);
        assert [c] + q in Words(n);
      }
    } else {
      c :| c in n.children && n.children[c].childWeight == n.childWeight;
      BoundAttained(n.children[c]);
      if Words(n.children[c]) != {} {
        var q :| q in Words(n.children[c]) && At(n.children[c], q).weight == n.childWeight;
        AtChild(n, c, q);
        assert [c] + q in Words(n);
      }
    }
  }

  /** The invariant holds at every node of a well-formed trie. */
  lemma {:induction false} InvAt(n: Node, p: string)
    requires Inv(n) && Find(n, p).Some?
    ensures Inv(Find(n, p).value)
    decreases |p|
  {
    if p != [] {
      InvAt(n.children[p[0]], p[1..]);
    }
  }

  /** No word below a node of a well-formed trie weighs more than that
      node's `child_weight`. */
  lemma {:induction false} BelowBound(n: Node, p: string, q: string)
    requires Inv(n) && q in Words(n) && p <= q
    ensures Le(At(n, q).weight, At(n, p).childWeight)
  {
    var r := q[|p|..];
    assert q == p + r;
    WordsFind(n, q);
    FindConcat(n, p, r);
    var sub := Find(n, p).value;
    CompletionsOfSubtrie(n, p, sub, r);
    InvAt(n, p);
    BoundAbove(sub);
  }
}
