# Autocomplete trie

A Dafny model of the weighted prefix index from the Python 2 project
Autocomplete (`AutoComplete.py`, class `Trie`).

Each `Trie` object is one node of a character trie. A node holds:

- its children by character;
- `word_name`, the text of an inserted word that ends at the node;
- that word's `weight`;
- `child_weight`, a cached bound on the heaviest word in the subtree.

The class has three operations:

- **`insert(weight, word, constant)`** walks the word one character at a time. It creates missing children and raises `child_weight` along the path. At the end node it stores `constant` and the larger of the old and new weights.
- **`find_subtrie(prefix)`** follows the prefix. It returns the node reached, or `None` at the first missing character.
- **`topk(k, prefix)`** is a best-first search of the subtrie from a priority queue keyed by `child_weight`. It pops the node with the largest bound and queues its children. Each popped word goes into a list `visited`, which is kept sorted by descending weight.

The model has two levels:

- **Value model.** Module `TrieModel` describes a trie as a datatype value. `Insert` and `Find` are the value versions of the two trie operations. Lemmas about them cover the subtree-maximum invariant and where insertion does and does not change the tree.
- **Class model.** Module `AutoComplete` holds class `Trie`, with the source's four fields. Its methods update the objects in place. Each object carries a ghost footprint `Repr` and a ghost value `Model`. Every method is proved to change `Model` exactly as the value functions say. `topk` is a `while` loop over a queue held as a sequence of `(bound, node)` pairs. A ghost path for every queue entry and for every result lets its invariant count the words: those found plus those still reachable from the queue are exactly the completions of the prefix.

Other modules:

- `TrieBuild` describes a trie built by a sequence of `insert` calls, as the unit tests build theirs. It ties the nodes, texts and weights to that history.
- `Ranking` models Python's stable `sorted(..., reverse = True)` and the slice `[:k]`.
- `Frontier` holds the counting behind the search loop.
- `Weights` holds the weight type. The source's `-float('inf')` start value becomes the constructor `NegInf`, which lies below every integer weight.

**The stop rule follows the code, not the docstring.** At `AutoComplete.py:138` the loop compares every entry of `visited` with `top_weight`, the priority of the popped entry. Priorities are negated bounds (lines 125 and 134 queue `-child_weight`), so `top_weight` is minus the popped node's `child_weight`. The docstring (lines 110-112) describes the intended test as stopping once `k` words outweigh every bound still queued. But each entry of `visited` is a `(text, weight)` tuple and the bound is a number. Python 2 orders any tuple above any number, so the test only counts the entries. The loop therefore stops as soon as `k` words have been found.

The model does the same, so `Trie.TopK` promises no more than the code delivers:

- `k` distinct completions, heaviest first, or all of them when there are fewer;
- the prefix's own word, whenever the prefix is itself a word;
- not the `k` heaviest completions.

The docstring and the tests (`AutoCompleteUnitTest.py:84-97` and the comparison with a brute-force ranking at lines 163-183) show that the authors meant the `k` heaviest. `Trie.TopKBest` corrects line 138 in two ways: it compares each entry's weight instead of the entry, and it undoes the negation, so the test reads `x[1] >= -top_weight`. The loop stops once `k` found words weigh at least the popped node's `child_weight`. This is the popped-bound rule. Either change alone still stops at the first `k` words when weights are positive: `x[1] >= top_weight` holds for every positive weight, since `top_weight` is then negative. The docstring's variant differs in two ways. Its test is strict ("greater than"), and it is measured against the bounds still queued after the children are pushed. Only the popped-bound rule is modelled. `TopKBest` is proved to deliver exactly that, with ties among equal weights resolved either way. See "## Findings".

`TopKBest` requires the subtree-maximum invariant `TrieModel.Inv` of the trie's value. Its correctness rests on `child_weight` bounding every subtree. The invariant holds for a fresh node, `TrieModel.InsertInv` shows that `insert` keeps it, and `TrieBuild.BuildInv` shows it holds for every trie built by `insert` calls.

## Model

| member | source | states |
|---|---|---|
| Weights.Max | AutoComplete.py:48 | the larger of two weights is at least each of them and is one of them |
| Weights.LeTotalOrder | AutoComplete.py:49 | the weight order, with `-inf` below every integer, is reflexive, total, antisymmetric and transitive |
| TrieModel.EmptyNode | AutoComplete.py:26-30 | the node `__init__` leaves (`TrieModel.Empty`) has only the empty path, stores no word, satisfies the subtree-maximum invariant, and every lookup but the empty one misses |
| TrieModel.Find | AutoComplete.py:73-99 | the value `find_subtrie`: follows the prefix one character at a time and gives `None` at the first missing child; its properties are stated by `FindMiss`, `PathsFind`, `WordsFind`, `FindConcat` and `FindChild` below |
| TrieModel.Insert | AutoComplete.py:32-71 | the value `insert`: its properties are stated by `InsertOnPath`, `InsertOffPath`, `InsertRootWeight`, `InsertInv` and `Reinsert` below |
| TrieModel.FindConcat | AutoComplete.py:82-99 | descending along `p + q` is descending along `p` and then along `q` from the node reached |
| TrieModel.FindMiss | AutoComplete.py:94-99 | the lookup misses exactly when some prefix character has no child at the node its predecessors lead to |
| TrieModel.PathsFind | AutoComplete.py:82-99 | the lookup finds a node exactly for the paths of the trie |
| TrieModel.WordsFind | AutoComplete.py:82-99 | a path ends a word exactly when the lookup finds a node there that stores a text |
| TrieModel.CompletionsOfSubtrie | AutoComplete.py:121-124 | the completions of a prefix are the prefix followed by the words of the subtrie found for it, with the same nodes |
| TrieModel.FindChild | AutoComplete.py:94-96 | the child for `c` of the node at `p` is the node at `p + [c]` |
| TrieModel.MissHasNoCompletions | AutoComplete.py:143-146 | a prefix that the lookup misses has no completions, so an empty answer is complete |
| TrieModel.InsertOnPath | AutoComplete.py:46-71 | on the word's path, every node exists afterwards and has `child_weight` raised to the new weight; nodes before the end keep their text and weight and gain the next character as a child; the end node stores `constant` and the larger of the two weights |
| TrieModel.InsertOffPath | AutoComplete.py:55-71 | the node at every path that is not a prefix of the word is the same before and after |
| TrieModel.InsertRootWeight | AutoComplete.py:49-50 | on a well-formed node, `child_weight` after the insertion is the larger of the old bound and the inserted weight |
| TrieModel.InsertInv | AutoComplete.py:46-71 | insertion keeps the subtree-maximum invariant at every node |
| TrieModel.Reinsert | AutoComplete.py:47-48 | inserting a word twice keeps the text of the second call and the largest of the weights |
| TrieModel.AtChild | AutoComplete.py:94-96 | paths and nodes below a child are those below the parent, minus the child's character |
| TrieModel.BoundAbove | AutoComplete.py:58-61 | no word in a well-formed subtree weighs more than its root's `child_weight` |
| TrieModel.BoundAttained | AutoComplete.py:46-61 | `child_weight` is `-inf` when the subtree has no word, and otherwise some word in it has exactly that weight |
| TrieBuild.Build | AutoComplete.py:154-164 | the trie that `read` builds from a fresh node by successive `insert` calls; its properties are stated by `BuildInv`, `BuildPaths`, `BuildWords`, `BuildStoresInserted`, `BuildRootWeight` and `BuildRootChildren` below |
| TrieBuild.LastConstantSome | AutoComplete.py:46-47 | a word has a last stored text exactly when some call inserted it |
| TrieBuild.BuildInv | AutoComplete.py:32-71 | every trie built by insertions from a fresh node satisfies the subtree-maximum invariant |
| TrieBuild.BuildPaths | AutoComplete.py:66-71 | the nodes of a built trie are exactly the prefixes of the inserted words |
| TrieBuild.BuildWords | AutoCompleteUnitTest.py:121-140 | the node at a path stores the text of the last insertion of that word and the largest weight it was inserted with; a node only passed through stores `None` and `-inf` |
| TrieBuild.BuildStoresInserted | AutoComplete.py:46-51 | the words a built trie stores are exactly the inserted words |
| TrieBuild.TextIsPath | AutoComplete.py:161 | when every word is inserted as its own text, the text at a word's node is its path |
| TrieBuild.LastConstantIsWord | AutoComplete.py:161 | when every word is inserted as its own text, the last stored text of a word is the word |
| TrieBuild.BuildRootWeight | AutoCompleteUnitTest.py:111-117 | the root's `child_weight` is the largest weight ever inserted |
| TrieBuild.BuildRootChildren | AutoCompleteUnitTest.py:101-109 | the root has one child per distinct first character of the inserted words |
| Ranking.InsertionIndex | AutoComplete.py:137 | the place a stable descending sort gives a new last element: after every element at least as heavy and before every lighter one |
| Ranking.Place | AutoComplete.py:136-137 | placing an element into a sorted list keeps it sorted and adds exactly that element |
| Ranking.SpliceSorted | AutoComplete.py:137 | splicing between the heavier-or-equal and the lighter elements keeps the list sorted and adds one element |
| Ranking.SortDesc | AutoComplete.py:137 | the sort's result is ordered by descending weight and is a permutation of its input |
| Ranking.SortDescStable | AutoComplete.py:137 | the sort is stable: for every weight, the elements of that weight keep their relative order |
| Ranking.SortDescSorted | AutoComplete.py:137 | sorting an already sorted list leaves it unchanged |
| Ranking.SortDescAppend | AutoComplete.py:136-137 | appending to a sorted list and sorting again splices the new element in after every element at least as heavy |
| Ranking.Take | AutoComplete.py:139 | the slice `s[:k]` is a prefix of `s` whose length is `k` clipped to `0..\|s\|`, with a negative `k` counting from the end |
| Frontier.BagAppend | AutoComplete.py:134 | queueing a path adds exactly the words below it to what the queue leads to |
| Frontier.BagRemove | AutoComplete.py:130 | taking a path from the queue removes exactly the words below it |
| Frontier.BelowSplit | AutoComplete.py:133-136 | the words below a node are the node's own word, if any, plus those its children lead to |
| Frontier.BelowViaStep | AutoComplete.py:133-134 | queueing one child moves the words below it from the not-yet-queued part to the queue |
| Frontier.NoRepeats | AutoComplete.py:136 | a list whose multiset lies within a set has no repeated element |
| Frontier.MaxPriorityExists | AutoComplete.py:130 | a non-empty queue has an entry with the largest priority |
| AutoComplete.SpliceMatches | AutoComplete.py:136-137 | splicing a suggestion and its path in at the same place keeps result and paths matched |
| AutoComplete.Recorded | AutoComplete.py:136-137 | appending and re-sorting keeps results matched with their paths and adds exactly the new path |
| AutoComplete.ResultsExtendPrefix | AutoCompleteUnitTest.py:196-203 | when every word is inserted as its own text, every returned text starts with the prefix |
| AutoComplete.Skipped | AutoComplete.py:135 | popping a node without a word leaves the results and counts as they were |
| AutoComplete.TallyRecord | AutoComplete.py:136-140 | a popped word moves from the pending completions to the found ones; at `k` found, the first `k` are kept and the loop stops |
| AutoComplete.MatchesTake | AutoComplete.py:139 | cutting the results and their paths at the same length keeps them sorted and matched |
| AutoComplete.Record | AutoComplete.py:135-140 | recording a popped word keeps the results sorted and matched with all found words, and stops with exactly `k` once `k` are found |
| AutoComplete.Popped | AutoComplete.py:130-134 | popping a path and queueing its children removes exactly that path from what the queue leads to |
| AutoComplete.Trie.constructor | AutoComplete.py:26-30 | a new node has no children, no text, and weight and bound `-inf` |
| AutoComplete.Trie.Insert | AutoComplete.py:32-71 | the subtree changes as the value insertion says, only new objects join it, and it stays a well-formed tree of owned nodes |
| AutoComplete.Trie.Adopt | AutoComplete.py:58-71 | the updated child becomes the child at `key` and `child_weight` rises to the inserted weight |
| AutoComplete.Trie.FindSubtrie | AutoComplete.py:73-99 | returns the object in the subtree whose value is the node the value lookup finds, or `None` exactly when that lookup misses |
| AutoComplete.Trie.FindSubtrieChild | AutoComplete.py:94-96 | the child for `c` of the object at `p` is the object at `p + [c]` |
| AutoComplete.Trie.Located | AutoComplete.py:73-99 | the object found at `p` holds the model's node at `p`, and holds a text exactly when `p` is a word |
| AutoComplete.Trie.SubtrieHolds | AutoCompleteUnitTest.py:121-140 | on a built trie, the object found at `p` stores the last inserted text of `p` and its largest weight, or `None` and `-inf` when `p` was only passed through |
| AutoComplete.Trie.QueuedRemove | AutoComplete.py:130 | taking one entry out of the queue keeps the others well formed |
| AutoComplete.Trie.Expand | AutoComplete.py:133-134 | every child of the popped node is queued with its bound, so the queue leads to what it did plus the words below the children |
| AutoComplete.Trie.PopBest | AutoComplete.py:130-134 | takes an entry of largest bound; the popped node is the one at a path below the prefix, its word if any is a completion with its text and weight, and that path leaves what the queue leads to |
| AutoComplete.Trie.Round | AutoComplete.py:126-140 | one loop round keeps the search invariant and strictly shrinks the paths the queue leads to, so the loop ends |
| AutoComplete.Trie.TopK | AutoComplete.py:101-146 | returns distinct completions of the prefix with their texts and weights, sorted by descending weight; returns `k` of them, or all when there are fewer, and none for `k <= 0` or a missing prefix; includes the prefix whenever it is a word |
| Ranking.HeavyCount | AutoComplete.py:138 | the number of found entries whose weight is at least the bound, the sum at line 138 corrected to compare weights with the popped `child_weight` (`x[1] >= -top_weight`); never more than the list's length |
| Ranking.HeavyCountSorted | AutoComplete.py:138 | in a sorted list, at least `k` suggestions weigh the bound or more exactly when the `k`-th one does |
| TrieModel.InvAt | AutoComplete.py:46-71 | the subtree-maximum invariant of a trie holds at every node in it |
| TrieModel.BelowBound | AutoComplete.py:58-61 | in a well-formed trie, no word below a node weighs more than that node's `child_weight` |
| Frontier.BagMember | AutoComplete.py:130-134 | every word the queue leads to lies below some queued path |
| Frontier.NoLongerThan | AutoComplete.py:136 | a list whose multiset lies within a set is no longer than the set |
| AutoComplete.BeyondCut | AutoComplete.py:139 | a found word cut off by `[:k]` weighs no more than the `k`-th entry of the sorted list |
| AutoComplete.TakeMultiset | AutoComplete.py:139 | the slice `[:k]` keeps no more of any element than the list had |
| AutoComplete.CutAtBound | AutoComplete.py:110-112 | once `k` found words weigh at least a bound on every word still queued, the first `k` of the sorted list are the `k` heaviest completions |
| AutoComplete.SkippedBest | AutoComplete.py:135 | under the corrected rule, popping a node without a word changes nothing about the results |
| AutoComplete.RecordBest | AutoComplete.py:135-140 | the corrected record step keeps the results sorted and matched; it stops only when `k` found words weigh at least the popped bound, keeping the `k` heaviest |
| AutoComplete.StepBest | AutoComplete.py:135-140 | after a pop, the popped word (if any) is recorded under the corrected rule |
| AutoComplete.Concluded | AutoComplete.py:139-141 | a list cut by the corrected stop has `k` distinct completions, sorted, none left out heavier than the last |
| AutoComplete.Exhausted | AutoComplete.py:127-128 | when the queue runs empty every completion has been found, and the sorted list cut at `k` lists the `k` heaviest |
| AutoComplete.FinishBest | AutoComplete.py:127-141 | on either exit of the corrected loop, the result is the `k` heaviest completions in descending order |
| AutoComplete.RoundBest | AutoComplete.py:126-140 | one round of the corrected loop keeps its invariant and strictly shrinks the paths the queue leads to |
| AutoComplete.Trie.PendingBelow | AutoComplete.py:130-134 | in a well-formed trie, a bound on every queued `child_weight` bounds every word the queue leads to |
| AutoComplete.Trie.PopBounded | AutoComplete.py:130-134 | takes an entry of largest bound, at a path below the prefix; its word if any is a completion with its text and weight, and that path leaves what the queue leads to; no word the queue led to weighs more than the popped node's bound |
| AutoComplete.Trie.TopKBest | AutoComplete.py:101-146 | with the popped-bound rule (line 138 corrected to `x[1] >= -top_weight`): distinct completions with their texts and weights, heaviest first, `k` of them or all when there are fewer, none for `k <= 0`, and no completion left out heavier than the last one returned |
| Findings.BigTrie | AutoComplete.py:32-71 | inserting `big` with weight 5 and `bigO` with weight 20 stores exactly these two words with those texts and weights |
| Findings.FirstFoundNotHeaviest | AutoComplete.py:138-140 | on that trie, any result meeting `Trie.TopK(1, "big")`'s guarantees is `[("big", 5)]`, although `bigO` is a heavier completion |
| Findings.BoundStopFindsHeaviest | AutoComplete.py:110-112 | on that trie, any result meeting `Trie.TopKBest(1, "big")`'s guarantee is `[("bigO", 20)]` |
| Findings.BigHistory | AutoComplete.py:32-71 | the two insertions on a fresh node give the trie built from that history |
| Findings.FirstFound | AutoComplete.py:101-146 | a fresh `Trie`, `insert(5, "big", "big")`, `insert(20, "bigO", "bigO")`, then `topk(1, "big")` returns `[("big", 5)]` |
| Findings.HeaviestFound | AutoComplete.py:110-112 | the same insertions, then the corrected `topk(1, "big")` returns `[("bigO", 20)]` |

## Left out

- `read` (reading the dictionary file), `printlist`, `main` and the profiler: these are file and console I/O. `TrieBuild` stands in for the sequence of `insert` calls that `read` makes.
- `Queue.PriorityQueue`: its heap and its locking are not modelled. The queue is a sequence, and `get` takes any entry of largest priority, so each contract holds however ties are broken. The source breaks ties by comparing `Trie` objects, an order Python 2 takes from object identity.
- The negated priorities `-child_weight`: the queue stores `child_weight` and takes the largest, which orders entries the same way.
- `constant`: the source's `insert` accepts any value as `constant` (lines 32 and 47), `None` included; the model takes it to be a text. Every caller passes the word itself (line 161), and a `None` there would leave a weighted node that `topk` skips at line 135.
- Floating point: weights are unbounded integers, and `-float('inf')` is the constructor `NegInf`.
- Bytes: a Python 2 `str` (line 160) is a sequence of bytes, and a Dafny `char` stands for one of them. For UTF-8 input such as accented words, the source's trie branches once per byte, which the model represents only when each byte is given as one `char`.
- AutoComplete.Trie.Insert: raises `child_weight` and attaches a new child after the recursive call, not before it. No other code runs in between, so the final state is the same.
- AutoComplete.Trie.TopK: the early `return visited` on an empty queue becomes a `break` out of the loop, which returns the same list.
- AutoComplete.Trie.TopK: does not promise the `k` heaviest completions, because the code as written does not deliver them (explained above).
- AutoComplete.Trie.TopKBest: cuts the list to `k` also when the queue runs empty. Without that cut, the popped-bound rule can return more than `k` words: for `a` (1), `ab` (1), `abc` (5) and `k = 2`, the queue empties with all three found.

## Findings

| source | as written | input that shows it | evidently intended | confidence | as-written member | corrected member |
|---|---|---|---|---|---|---|
| AutoComplete.py:138 | the stop test compares each `(text, weight)` tuple of `visited` with the numeric bound; Python 2 ranks every tuple above every number, so the test counts all found words, and the search returns the first `k` words popped | `insert(5, "big", "big")`, `insert(20, "bigO", "bigO")`, then `topk(1, "big")` returns `[("big", 5)]` | compare the weight of each found entry, not the entry, with the popped node's `child_weight`, i.e. `x[1] >= -top_weight`, so that the loop stops only once `k` found words weigh at least that bound; this delivers the `k` heaviest that the docstring at lines 110-112 promises, here `[("bigO", 20)]` | high; not executed | Findings.FirstFound | AutoComplete.Trie.TopKBest |
