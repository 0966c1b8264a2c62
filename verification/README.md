# New word discovery: the co-occurrence trie, in Dafny

This project models the statistics engine of New_word_discovery. The engine
finds new multi-token words in a tokenized corpus. Every 1-, 2- and 3-token
window of the corpus goes into a trie. A 3-token window `a, b, c` also goes in
rotated, as `b -> c -> a`, and the last node of that path is marked `isback`.
From the finished trie the engine computes:

- unigram probabilities over the root's finished children;
- the pointwise mutual information (PMI) of every finished depth-2 pair, kept when it exceeds `PMI_limit`;
- the left and right boundary entropy of every depth-2 node, from its rotated and its forward depth-3 children.

It then scores each kept pair as `(PMI + min(left, right)) * probability`,
sorts the pairs by descending score, and accepts them greedily. A pair is
skipped when it overlaps a pair already accepted.

The model also covers two helpers from `utils.py`: `generate_ngram`, which
produces the windows, and the per-line rule of `load_dictionary`, which reads
seed counts.

The model is functional. A trie is an immutable `Trie.Node` tree, and
`Trie.Insert` is one pass of `TrieNode.add`. Python dicts are ordered
association lists (`PyDict`): assigning to an existing key keeps its slot, and
a new key is appended. Exceptions that model.py and utils.py raise and do not catch become
`Results.Err` values, reported in evaluation order:

- `ZeroDivision`: a division by a zero total;
- `MathDomain`: `math.log` of a non-positive number;
- `KeyError`: a missing dict key;
- `AttributeError`: `find_word` calling `.items()` on the `(False, 0)` returned for an empty trie.

Modules:

- `results.dfy`: `Results`, with the error kinds, `Option` and `Result`.
- `pydict.dfy`: `PyDict`, with dict lookup, assignment and building a dict from items.
- `text.dfy`: `Text` and `Numerals`. `Text` models `str.split` with a one-character separator, `str.join`, `str.strip` and the substring test. `Numerals` models `int()` on decimal strings.
- `trie.dfy`: `Trie`, with the `Node` record, the constructor's seeding, `add`, and the invariants insertion keeps.
- `stats.dfy`: `Stats`, with `search_one`, `search_bi`, `search_left` and `search_right`.
- `rank.dfy`: `Rank`, with `find_word`: scoring, the stable sort and the greedy accept loop.
- `ngram.dfy`: `NGram`, with `generate_ngram`.
- `dictionary.dfy`: `Dictionary`, with the line rule of `load_dictionary`.

Behaviours of the code that the model keeps as they are:

- The forward pass follows the first child with an equal token, whether it is rotated or not (model.py:83). After `c, a, b`, adding `a, b, c` counts the forward trigram on the rotated node `a -> b -> c` and creates no forward node for it (`Trie.ForwardLandsOnRotated`). The rotated pass can give a depth-2 node two children with the same token, one forward and one rotated. So the invariant that holds is one child per (token, `isback`) pair (`Trie.InsertKeysUnique`).
- `find_word` decrements `N` only after an acceptance and then tests `N <= 0` (model.py:333-335), so when there is at least one candidate, at least one word is accepted even when `N <= 0` (`Rank.Select`, `Rank.Quota`).
- A unigram missing from `one_dict` raises `KeyError` (model.py:212-213), as does a word missing from the left or right table (model.py:296).
- A pair key is split on every `_` (model.py:294, 315-316), so a token that itself contains `_` gives more than two parts. The overlap test compares the first and the last part.

## Model

| member | source | states |
|---|---|---|
| Trie.Slot | model.py:81-89 | The child scan stops at the first child that accepts the token, and no earlier child accepts it; when none does, the position is the end of the list, where a new child is appended |
| Trie.Insert | model.py:77-107 | A pass changes no field of the node it starts from, adds at most one child there, and leaves the token and `isback` flag of every existing child unchanged |
| Trie.InsertLands | model.py:77-107 | After a pass along `w`, following `w` again takes the same child positions and reaches a node that is finished, carries the last token, has its count one higher than before, and is `isback` exactly when it was before or the pass is the rotated one |
| Trie.InsertFrame | model.py:81-99 | Every node that existed before a pass and is not its terminal keeps its token, count, flags and position |
| Trie.InsertNew | model.py:93-99 | The nodes a pass creates lie on its path, and those above the terminal are fresh nodes with count 0, unfinished and not `isback` |
| Trie.PathStable | model.py:81-89 | Once a path leads to an existing node, later passes of any kind leave that path unchanged |
| Trie.AddForward | model.py:74-115 | Adding a word of length other than 3 counts its forward node once more and marks it finished, changes no other existing node, and marks no node `isback` |
| Trie.AddTrigram | model.py:111-152 | Adding `a, b, c` also runs the rotated pass along `b, c, a`; its terminal holds the token `a`, is finished and `isback`, and its count is one higher than after the forward pass |
| Trie.RepeatedAdd | model.py:93-107 | Adding the same unigram or bigram `k` times adds exactly `k` to its terminal's count, keeps its path, and leaves the terminal finished |
| Trie.RepeatedAddPrefix | model.py:93-99 | When repeated additions of a bigram create its first-token node, that node stays as created: count 0, unfinished, not `isback` |
| Trie.NoBackNoRotated | model.py:132-138 | The last rotated step matches only `isback` children, so in a trie without `isback` nodes no rotated path exists yet |
| Trie.InsertNoBackAbove | model.py:147-152 | A pass marks `isback` only at its terminal, so nodes above the rotated terminal's depth never become `isback` |
| Trie.TrigramIntoEmpty | model.py:67-152 | One trigram added to an empty trie yields a forward terminal `a -> b -> c` with count 1 that is not `isback`, and a rotated terminal `b -> c -> a` with count 1 that is `isback` |
| Trie.InsertKeysUnique | model.py:81-138 | Insertion keeps the invariant that no node has two children with the same token and the same `isback` flag |
| Trie.InsertChildrenWeighted | model.py:101-107 | Insertion keeps every count below a node non-negative, and keeps every finished node there counted at least once |
| Trie.InsertCountsPositive | model.py:147-152 | Both passes keep every count below depth 1 non-negative, with each finished node there counted at least once |
| Trie.AddValid | model.py:67-152 | `add` preserves validity for words of any length: unique child keys, no `isback` node at depths 1 and 2, and positive counts below depth 1 |
| Trie.BuildValid | model.py:67-152 | Any sequence of `add` calls on a valid trie leaves it valid |
| Trie.SeedValid | model.py:54-65 | The constructor builds a valid trie from any dict of integer strings |
| Trie.SeedLookup | model.py:57-65 | Each seeded key is a finished depth-1 node whose count is its value read by `int()` |
| Trie.ShallowTokensDistinct | model.py:81-131 | In a valid trie, the children of the root and of each depth-1 node have pairwise distinct tokens |
| Trie.ExampleFirstAdd | model.py:67-152 | Adding `c, a, b` to an empty trie yields exactly the forward path `c -> a -> b` and the rotated path `a -> b -> c`, each counted once |
| Trie.ForwardLandsOnRotated | model.py:81-89 | Adding `a, b, c` after `c, a, b` counts the forward trigram on the existing rotated node, now count 2, and adds the rotated path `b -> c -> a` |
| Stats.SearchOne | model.py:154-177 | `(False, 0)` exactly for a root without children. A `ZeroDivisionError` exactly when some child is finished and the finished counts sum to 0. Otherwise the returned total is the sum of the finished children's counts |
| Stats.UnigramPassFails | model.py:173-176 | The second loop raises `ZeroDivisionError` exactly when the total is 0 and some child is finished. With a total of 0 and no finished child it assigns nothing |
| Stats.UnigramItemsFrom | model.py:174-176 | The assignments of `search_one` are exactly the pairs (token, count / total) of the finished children |
| Stats.UnigramItemsSum | model.py:165-176 | The assigned probabilities sum to the finished total divided by the total |
| Stats.UnigramEntries | model.py:173-177 | In a valid trie, the unigram dict maps a token to `p` exactly when a finished root child with that token has `count / total == p` |
| Stats.UnigramSumsToOne | model.py:164-177 | In a valid trie, a non-empty unigram dict's probabilities sum to 1 |
| Stats.Depth2Visits | model.py:197-208 | The nested loops visit every (depth-1, depth-2) parent-child pair and nothing else |
| Stats.PairPmi | model.py:212-214 | A pair's PMI fails exactly when the pair total is non-positive, or a token is missing from the unigram dict or maps to a non-positive value. The failure is `MathDomain` or `KeyError` |
| Stats.PairItems | model.py:205-218 | The loop fails exactly when some finished pair's PMI fails. On success, each assignment comes from a finished pair whose PMI exceeds the limit, and each such pair is assigned `(PMI, count / total)` under its key |
| Stats.SearchBi | model.py:179-219 | `(False, 0)` exactly for a root without children. Errors are only `ZeroDivision`, `MathDomain` or `KeyError`, and a returned table never repeats a key |
| Stats.SearchBiCovers | model.py:205-218 | Every finished depth-2 pair whose PMI exceeds the limit has an entry under `x + "_" + y` |
| Stats.PairItemsSound | model.py:205-218 | The built dict's value under a key is the PMI and the pair-total share of a finished pair with that key whose PMI exceeds the limit |
| Stats.SearchBiSound | model.py:193-218 | Every entry of the table comes from a finished depth-2 pair with that key, a PMI above the limit, and a probability equal to its count over the pair total |
| Stats.SearchBiValue | model.py:205-218 | When no later finished pair with a PMI above the limit has the same key, the entry under a pair's key holds that pair's PMI and its count over the pair total. So among colliding keys such as `a_b` + `c` and `a` + `b_c`, the last assignment in loop order wins |
| Stats.EntropyLoopSpec | model.py:249-252 | The accumulating loop fails at its first step when the total is 0 and at the first non-positive share otherwise. When it completes, it has added the sum of `(c/t) * log2(c/t)` over all the counts to its start value |
| Stats.BoundaryEntropySpec | model.py:237-254 | No qualifying child gives 0, because the dividing loop never runs. A zero total gives `ZeroDivisionError`, and a non-positive share gives `MathDomain`. Otherwise the value is `-Σ (c/t) * log2(c/t)` with `t` the sum of the counts |
| Stats.BoundaryItems | model.py:233-254 | One assignment per depth-2 node in loop order, keyed `x + y`, holding that node's entropy. The loop fails exactly when some node's entropy fails |
| Stats.SearchBoundary | model.py:221-283 | `(False, 0)` exactly for a root without children. Errors are only `ZeroDivision` or `MathDomain` |
| Stats.SideCountsFrom | model.py:241-280 | The left statistic uses exactly the finished `isback` children, and the right one exactly the finished children that are not `isback` |
| Stats.SideCountsMultiplicity | model.py:241-252 | Each count occurs in a side's statistic as many times as there are finished children of that side with that count, so repeated counts are all summed and weighed |
| Stats.SideCountsPartition | model.py:241-280 | The left and right totals add up to the total of all finished children |
| Stats.ValidBoundaryOk | model.py:237-254 | On a valid trie, `search_left` and `search_right` raise nothing |
| Stats.SearchBoundaryCovers | model.py:233-254 | Every depth-2 node has an entry under `x + y` |
| Stats.SearchBoundaryValue | model.py:249-254 | The entry under a key is the entropy of the last depth-2 node in loop order with that key. Colliding concatenations overwrite each other |
| Rank.Scored | model.py:292-296 | Scoring fails with `KeyError` exactly when some pair's joined key is missing from the left or the right table. Otherwise each pair keeps its key and gets `(PMI + min(left, right)) * probability` |
| Rank.ScoredDict | model.py:292-296 | The scored dict has the same keys as the PMI table and is the scored list itself |
| Rank.InsertDesc | model.py:300 | Insertion into a descending list keeps the multiset of candidates and keeps the list descending |
| Rank.SortDesc | model.py:300 | The sorted list is a permutation of the input, with scores never increasing |
| Rank.SortDescStable | model.py:300 | The sort is stable: for every score, the candidates with that score keep their input order |
| Rank.SortedKeys | model.py:300 | Sorting keeps the length and the set of keys |
| Rank.SameWordClashes | model.py:323 | Two keys that join to the same word always clash, because a word occurs in itself |
| Rank.Admits | model.py:309-327 | The inner loop passes a candidate exactly when it clashes with no accepted pair, and otherwise names one it clashes with |
| Rank.NewWord | model.py:329-332 | An admissible candidate's word is not yet in `add_word`, so the assignment appends it and the words stay distinct |
| Rank.AcceptStep | model.py:329-332 | Accepting a candidate that clashes with no accepted pair keeps the loop invariant |
| Rank.RejectStep | model.py:323-327 | Skipping a candidate that clashes with an accepted pair keeps the loop invariant |
| Rank.Select | model.py:303-335 | The accepted pairs are a subsequence of the ranking and never clash pairwise, and every skipped candidate clashes with an earlier accepted pair. `add_word` maps each accepted word to its own score. At most `max(N, 1)` are accepted, the loop stops early only at that quota, and when there is at least one candidate the first one is always accepted |
| Rank.FindWord | model.py:285-337 | `AttributeError` exactly for a root without children. It succeeds exactly when the root has children, the three searches succeed, and every pair's joined key is in both entropy tables. Otherwise the error is that of the first failing search, in the order PMI, left, right, then `KeyError` from the lookups. On success the ranking is a descending permutation of the scored pairs `(PMI + min(left, right)) * probability`, and pairs with equal scores keep their table order. It has exactly the keys of the PMI table. The accepted pairs sit at increasing positions of the ranking and never clash. Every skipped pair clashes with an earlier accepted one, and fewer than `max(N, 1)` are accepted only when the ranking runs out. The first accepted pair is the top one |
| NGram.WindowsSpec | utils.py:39 | `zip` over the shifted lists yields `max(0, L - i + 1)` windows of length `i`, and the one at position `k` is `s[k..k+i]` |
| NGram.GenerateNgramSize | utils.py:35-40 | `n < 1` gives an empty result. Otherwise the length is the sum of the window counts for lengths 1 to `n` |
| NGram.GenerateNgramAt | utils.py:38-40 | The windows of length `i` form one block after all shorter ones, and within it the window starting at `k` sits at offset `k` and equals `s[k..k+i]` |
| NGram.GenerateNgramOrdered | utils.py:38-40 | Every window has a length between 1 and `n`, and lengths never decrease along the output |
| NGram.GenerateNgramCounts | utils.py:38-39 | For each `i` from 1 to `n` there are exactly `max(0, L - i + 1)` windows of length `i`, and none of any other length |
| NGram.GenerateNgramEmpty | utils.py:35-40 | An empty input yields an empty result for every `n` |
| Dictionary.LineEntrySpec | utils.py:54-57 | A line is stored as `(k, v)` exactly when its stripped text is `k v`, or `k v` followed by a space and more text, where `k` and `v` hold no space and `v` is an integer above 2 |
| Dictionary.LineWithoutSpace | utils.py:54-60 | A line whose stripped text holds no space has no second field, so the `IndexError` is caught and the line is skipped |
| Dictionary.LoadDictionary | utils.py:49-68 | The resulting dict never repeats a word |
| Dictionary.LoadStep | utils.py:52-60 | One more line leaves the dict unchanged when it lacks a second field or has a count of at most 2, and otherwise assigns its count string to its word |
| Dictionary.LoadLastWins | utils.py:57 | Each word maps to the count string of the last line that stores it |
| Dictionary.LoadEntry | utils.py:54-57 | Every stored value is an integer string above 2, taken from a line that stores that word with no later line storing it |
| Dictionary.LoadKeeps | utils.py:54-57 | A line that passes the filter decides its word's value unless a later line stores the same word |
| Dictionary.ExampleStored | utils.py:54-57 | `"ab 3\n"` is stored as `ab -> "3"` |
| Dictionary.ExampleSkipped | utils.py:54-60 | `"ab 2"` (count too low) and `"ab"` (no second field) are skipped |
| PyDict.Get | model.py:212-213 | A lookup finds a value exactly when the key is present, and the value is one stored under that key |
| PyDict.Put | model.py:176 | After `d[k] = v`, `d[k]` is `v` and every other key maps as before. An existing key keeps its position, and a new key is appended at the end |
| PyDict.FromList | model.py:218 | Assigning items one after another gives a dict without repeated keys, in which each key maps to its last assigned value |
| PyDict.LastValueSpec | model.py:218 | The last assigned value for a key is the value at the last position that holds that key |
| PyDict.FromListDistinct | model.py:174-176 | Assigning items whose keys are distinct rebuilds the same item list |
| Text.Split | model.py:294 | `split` always returns at least one part, and no part contains the separator |
| Text.JoinSplit | model.py:294 | Joining the parts of a split with the separator gives back the string |
| Text.SplitJoin | model.py:294 | Splitting the join of separator-free parts gives back the parts |
| Text.SplitFirstTwo | utils.py:54 | When a split gives two or more parts, the text is the first two parts joined by the separator, optionally followed by another separator and more text |
| Text.SplitAfterTwo | utils.py:54 | Two separator-free pieces followed by the separator and more text come out of a split as its first two parts, followed by the split of the rest |
| Text.SqueezeRemovesSeparator | model.py:294 | `"".join(s.split(sep))` is `s` with every separator removed |
| Text.StripSpec | utils.py:54 | `strip()` returns a slice of the line with only whitespace before and after it, and the slice neither starts nor ends with whitespace |
| Numerals.ParseShowInt | utils.py:56 | `int()` reads back any integer written in decimal |

## Left out

- I/O and serialisation are not modelled. These are the file reading in `get_stopwords` and `load_dictionary` (utils.py:22-25, 51), and `save_model` / `load_model` (utils.py:71-81). `Dictionary.LoadDictionary` takes the lines the file would yield.
- `print` tracing (model.py:301, 311-312; utils.py:50, 59) is not modelled, because it does not affect any result.
- config.py holds only configuration constants and is not part of this model.
- Floating point is not modelled. Probabilities and scores are exact reals, and `count / total` is a real quotient.
- Stats.PairPmi: the PMI value `log2(max(c, 1)) - log2(t) - log2(px) - log2(py)` is a parameter `pmi`. Only its domain errors, its inputs and the `> PMI_limit` filter are modelled. The parameter receives `max(c, 1)` directly, so `log2` of it never fails.
- Stats.BoundaryEntropySpec: `math.log(x, 2)` is a parameter `log2`, applied only to positive shares. The bounds of the entropy, such as non-negativity or 0 for a single child, are not proved, because they depend on the logarithm itself.
- Stats.SearchBoundary: `search_left` and `search_right` are one function with a `Side` argument, since they differ only in the `isback` filter.
- Trie.Seed: the constructor's `int(values)` is modelled only for an optional sign followed by ASCII digits, as a precondition. Python also accepts surrounding whitespace, underscores and non-ASCII digits, and raises `ValueError` on anything else.
- Dictionary.LineEntrySpec: holds for lines meeting `WellFormed`, whose second field, when present, is a decimal integer; the `ValueError` case below is outside it.
- Dictionary.LineEntry: the same `int()` restriction applies to the second field, as the `WellFormed` precondition. A line whose second field is not an integer raises an uncaught `ValueError` (utils.py:56), which the model does not represent.
- Text.StripSpec: only the characters Python's `str.isspace` accepts are removed. Unicode normalisation and encodings are not modelled.
- Rank.Min: Python's `min` on floats with NaN is not modelled. On reals `min` is the smaller value.
- `TrieNode.add` also accepts a set as `word` (model.py:117). The model takes a sequence, the only shape that has an order.
