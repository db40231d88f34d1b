/** The bookkeeping behind `topk`'s best-first loop: which words are still
    reachable from the queued nodes, and the choice of the queued node with
    the largest bound. */
module Frontier {
  import opened Options
  import opened Weights
  import opened TrieModel

  /** The members of `S` strictly below `p` whose character after `p` is in
      `keys`: what the children for `keys` of the node at `p` lead to. */
  function BelowVia(S: set<string>, p: string, keys: set<char>): set<string>
  {
    set q | q in S && p <= q && |p| < |q| && q[|p|] in keys
  }

  /** The members of `S` below the queued paths `ps`, counted once per
      queued path that leads to them. */
  function Bag(S: set<string>, ps: seq<string>): multiset<string>
  {
    if ps == [] then multiset{} else Bag(S, ps[..|ps| - 1]) + multiset(Below(S, ps[|ps| - 1]))
  }

  lemma {:induction false} BagAppend(S: set<string>, ps: seq<string>, p: string)
    ensures Bag(S, ps + [p]) == Bag(S, ps) + multiset(Below(S, p))
  {
    assert (ps + [p])[..|ps|] == ps;
  }

  lemma {:induction false} BagRemove(S: set<string>, ps: seq<string>, i: nat)
    requires i < |ps|
    ensures Bag(S, ps) == Bag(S, ps[..i] + ps[i + 1..]) + multiset(Below(S, ps[i]))
  {
    var rest := ps[..i] + ps[i + 1..];
    if i < |ps| - 1 {
      var ps' := ps[..|ps| - 1];
      BagRemove(S, ps', i);
      assert rest == (ps'[..i] + ps'[i + 1..]) + [ps[|ps| - 1]];
      BagAppend(S, ps'[..i] + ps'[i + 1..], ps[|ps| - 1]);
    } else {
      assert rest == ps[..|ps| - 1];
    }
  }

  lemma {:induction false} MultisetOfDisjointUnion(a: set<string>, b: set<string>)
    requires a !! b
    ensures multiset(a + b) == multiset(a) + multiset(b)
  {
    assert forall x :: multiset(a + b)[x] == (multiset(a) + multiset(b))[x];
  }

  /** Below a node of the trie: the node itself, if it is in `S`, and what
      its children lead to. */
  lemma {:induction false} BelowSplit(n: Node, S: set<string>, p: string, m: Node)
    requires Find(n, p) == Some(m)
    requires forall q :: q in S ==> Find(n, q).Some?
    ensures multiset(Below(S, p))
      == (if p in S then multiset{p} else multiset{}) + multiset(BelowVia(S, p, m.children.Keys))
  {
    var here := if p in S then {p} else {};
    forall q | q in Below(S, p)
      ensures q in here + BelowVia(S, p, m.children.Keys)
    {
      if q != p {
        var rest := q[|p|..];
        assert q == p + rest;
        FindConcat(n, p, rest);
        assert rest[0] == q[|p|];
      }
    }
    assert Below(S, p) == here + BelowVia(S, p, m.children.Keys);
    MultisetOfDisjointUnion(here, BelowVia(S, p, m.children.Keys));
  }

  /** Taking one child out of `keys` moves what it leads to out of the
      rest. */
  lemma {:induction false} BelowViaStep(S: set<string>, p: string, keys: set<char>, c: char)
    requires c in keys
    ensures multiset(BelowVia(S, p, keys))
      == multiset(BelowVia(S, p, keys - {c})) + multiset(Below(S, p + [c]))
  {
    forall q | q in S
      ensures (p + [c] <= q) <==> (p <= q && |p| < |q| && q[|p|] == c)
    {
      if p <= q && |p| < |q| && q[|p|] == c {
        assert q[..|p| + 1] == q[..|p|] + [q[|p|]];
      }
    }
    assert BelowVia(S, p, keys) == BelowVia(S, p, keys - {c}) + Below(S, p + [c]);
    MultisetOfDisjointUnion(BelowVia(S, p, keys - {c}), Below(S, p + [c]));
  }

  /** A list whose multiset lies within a set has no repeats. */
  lemma {:induction false} NoRepeats(s: seq<string>, S: set<string>)
    requires multiset(s) <= multiset(S)
    ensures forall i, j :: 0 <= i < j < |s| ==> s[i] != s[j]
  {
    forall i, j | 0 <= i < j < |s|
      ensures s[i] != s[j]
    {
      assert s == s[..j] + s[j..];
      assert s[i] in multiset(s[..j]) && s[j] in multiset(s[j..]);
      assert multiset(s)[s[j]] <= 1;
    }
  }

  /** A list whose multiset lies within a set is no longer than the set. */
  lemma {:induction false} NoLongerThan(s: seq<string>, S: set<string>)
    requires multiset(s) <= multiset(S)
    ensures |s| <= |S|
  {
    assert multiset(S) == multiset(s) + (multiset(S) - multiset(s));
    assert |multiset(S)| == |S|;
  }

  /** A non-empty queue has an entry of largest priority. */
  lemma {:induction false} MaxPriorityExists<T>(pq: seq<(Weight, T)>)
    requires |pq| > 0
    ensures exists i :: 0 <= i < |pq| && forall j :: 0 <= j < |pq| ==> Le(pq[j].0, pq[i].0)
  {
    if |pq| > 1 {
      var pq' := pq[..|pq| - 1];
      MaxPriorityExists(pq');
      var i :| 0 <= i < |pq'| && forall j :: 0 <= j < |pq'| ==> Le(pq'[j].0, pq'[i].0);
      if !Le(pq[|pq| - 1].0, pq[i].0) {
        assert forall j :: 0 <= j < |pq| ==> Le(pq[j].0, pq[|pq| - 1].0);
      } else {
        assert forall j :: 0 <= j < |pq| ==> Le(pq[j].0, pq[i].0);
      }
    } else {
      assert forall j :: 0 <= j < |pq| ==> Le(pq[j].0, pq[0].0);
    }
  }

  /** What the queue leads to lies below some queued path. */
  lemma {:induction false} BagMember(S: set<string>, ps: seq<string>, q: string)
    requires q in Bag(S, ps)
    ensures exists j :: 0 <= j < |ps| && q in Below(S, ps[j])
  {
    var ps' := ps[..|ps| - 1];
    if q !in Below(S, ps[|ps| - 1]) {
      BagMember(S, ps', q);
      var j :| 0 <= j < |ps'| && q in Below(S, ps'[j]);
      assert ps'[j] == ps[j];
    }
  }
}
