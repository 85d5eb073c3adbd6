# PATRICIA trie (`patricia.py`) in Dafny

`patricia.py` implements `trie`, a dictionary from strings to values. Its keys are stored as a
PATRICIA trie: every node has a value slot, which may be empty (non-terminal), and a list of edges
in insertion order. Each edge carries a non-empty label, and no two labels of a node start with
the same symbol. Besides the dictionary operations (`T[k] = v`, `T[k]`, `del T[k]`, `k in T`,
`len(T)`, `iter(T)`), the trie answers prefix questions:
- about a text: `keys(S)`, `values(S)` and `items(S)` give every key that is a prefix of `S`;
  `key(S)`, `value(S)` and `item(S)` give the longest such key;
- about the keys: `isPrefix(S)` and `iter(S)`.

The model has six modules.
- `Wrappers`: `Option`, and `Result` (a value or `KeyError`).
- `Nodes`: nodes and edges as values. The dictionary a branch stands for (`Slots`, `Paths`,
  `Contents`, `Stored`). Label well-formedness (`Valid`). The edge scans `_find` and `_next`. The
  walk invariant `Reached` (the node a walk stands at carries everything the root holds behind
  the spelled prefix). What `isPrefix` decides (`Extended`).
- `Enumerator`: the recursive traversals `_count`, `_items`, `_keys` and `_values`, and what they
  yield.
- `Mutator`: what `__setitem__` and `__delitem__` do to a branch (`Insert`, `Unset`), with the
  split loop, and the zipper (`Frame`, `Plug`) the mutators use to put a changed path back
  together.
- `Scanner`: what the scans compute, on a dictionary alone. `Hits` are the results of `_scan`,
  `Longest` is the key of `item`, and `Reach` is how far the walk gets.
- `Patricia`: the class `Trie`. Its field `root` is the branch. The dictionary operations are
  proved against the abstract dictionary `Contents()`, and `Set` and `Delete` also against
  `Insert` and `Unset`. `IsPrefix` is proved against `Extended`, which is over the structural
  path set. The prefix that `Item` and `ItemAsWritten` report on a miss comes from `Reach`,
  which is also over paths.

The empty value slot of the source (the `__NON_TERMINAL__` marker) is `None`. Python's
`KeyError` is the `KeyError` case of `Result`, or `Miss` in the result of `item`, `key` and
`value`. A `default` argument is `Option<D>`, and returning it is `Fallback`.

## Model

| member | source | states |
|---|---|---|
| Nodes.Find | patricia.py:120-125 | returns the first edge, in insertion order, whose whole label occurs in `path` at `offset`, with `offset` advanced past it; otherwise no edge and `offset` unchanged, and no label occurs there |
| Nodes.Next | patricia.py:127-132 | the same scan as `_find`, but with `KeyError(path)` when no label occurs at `offset` |
| Nodes.Accepted | patricia.py:286-294 | the edge scan of `isPrefix` returns the first label that `string` spells from `idx` once the label is cut to the length left; otherwise none, and no cut label occurs there |
| Nodes.StoredLead | patricia.py:120-132 | the value of a key below a node lives behind the one edge whose label starts with the key's first symbol, and only if the whole label is a prefix of the key |
| Nodes.ReachedFind | patricia.py:120-132 | after following a label the walk stands at the child for the longer prefix, and no path of the trie ends strictly inside the label |
| Nodes.ReachedMisses | patricia.py:120-125 | when `_find` finds no label, no path of the trie runs further along the string |
| Nodes.WalkMiss | patricia.py:127-132 | a `KeyError` from `_next` before the key is spelled means the key is not stored |
| Nodes.WalkEnd | patricia.py:176-181 | a walk that has spelled the whole key stands at the node holding the key's value slot |
| Nodes.PrefixStep | patricia.py:286-291 | an accepted label either contains the rest of `string`, which then runs along a path, or moves the question to the child |
| Nodes.PrefixNone | patricia.py:292-294 | when no cut label matches, the rest of `string` runs along no path below the node |
| Enumerator.ItemsSound | patricia.py:29-37 | every pair yielded by `_items(node, accu)` is a stored key, spelled after `accu`, with its value |
| Enumerator.ItemsComplete | patricia.py:29-37 | every stored key below the node is yielded with its value |
| Enumerator.ItemsDistinct | patricia.py:29-37 | no key is yielded twice |
| Enumerator.ItemsExact | patricia.py:29-37 | `_items` yields exactly the stored pairs below `accu`, each key once |
| Enumerator.CountItems | patricia.py:17-22 | `_count` is the number of pairs `_items` yields |
| Enumerator.CountContents | patricia.py:17-22 | `_count` is the number of stored keys |
| Enumerator.ValuesItems | patricia.py:39-45 | `_values` yields the values of `_items`, in the same order |
| Mutator.CommonPrefix | patricia.py:155-160 | the common prefix length of two strings: both agree up to it and differ just after it |
| Mutator.SplitPoint | patricia.py:155-160 | the split loop with the bound `min(len(edge), keylen - idx)` stops at the common prefix length of the label and the rest of the key, strictly inside the label |
| Mutator.SplitPointAsWritten | patricia.py:155-160 | the split loop as written, bounded by `max`, reads past the end of the key exactly when the rest of the key is a proper prefix of the label, and otherwise stops at the common prefix length |
| Mutator.FooAfterFoobar | patricia.py:155-160 | inserting `foo` below the label `foobar` makes the loop as written raise `IndexError` |
| Mutator.Choose | patricia.py:147-168 | one round of the edge loop descends through the label that occurs in full, splits the one label that starts with the next key symbol, or adds a new leaf when none does |
| Mutator.InsertValid | patricia.py:142-170 | assignment keeps the labels of every node non-empty, with distinct first symbols |
| Mutator.InsertStored | patricia.py:142-170 | after `T[r] = v`, `r` holds `v` and every other key holds what it held |
| Mutator.InsertContents | patricia.py:142-170 | the dictionary after `T[r] = v` is the old one updated at `r` |
| Mutator.InsertCount | patricia.py:142-170 | `len` grows by one exactly when `r` was not stored |
| Mutator.InsertKeeps | patricia.py:147-168 | every edge of the new node whose label starts with another symbol than the key was already an edge of the old node |
| Mutator.InsertLeafSame | patricia.py:167-168 | after a new leaf is added, the next round descends into it, so the insertion is complete |
| Mutator.SplitStored | patricia.py:161-164 | the split node keeps everything behind the old label, with the label's tail in front |
| Mutator.UnsetValid | patricia.py:183-191 | deletion keeps the labels well formed |
| Mutator.UnsetPaths | patricia.py:183-191 | deletion removes no node: the paths of the trie stay the same |
| Mutator.UnsetStored | patricia.py:183-191 | after `del T[r]` the key `r` holds nothing and every other key holds what it held |
| Mutator.UnsetContents | patricia.py:183-191 | the dictionary after deletion is the old one without `r` |
| Mutator.UnsetCount | patricia.py:183-191 | `len` drops by one when a stored key is deleted |
| Scanner.HitsSound | patricia.py:134-140 | every `(idx, value)` that `_scan` reports is a stored key `string[:idx]` with its value |
| Scanner.HitsComplete | patricia.py:134-140 | every stored key that is a prefix of the string is reported |
| Scanner.HitsSorted | patricia.py:134-140 | the reports come shortest key first |
| Scanner.HitsSkip | patricia.py:134-140 | lengths at which no key ends add nothing to the scan |
| Scanner.Longest | patricia.py:249-266 | the longest length up to a bound at which a key ends, or none |
| Scanner.LongestKey | patricia.py:249-266 | `Longest` picks the longest stored key that is a prefix of the string, and is none exactly when no key is |
| Scanner.LongestSkip | patricia.py:259-264 | lengths at which no key ends do not change the longest key |
| Scanner.Reach | patricia.py:256-264 | how far the `_find` walk gets: the longest prefix of the string that is a path of the trie |
| Scanner.WalkEndsPastLongestKey | patricia.py:259-266 | for the keys `a`, `abc` and `abd`, the walk along `abx` ends at `ab`, but the longest key that is a prefix is `a` |
| Patricia.Assign | patricia.py:117-118 | assigning pairs in order gives the keys of the start dictionary and of the pairs, and the last pair's value wins |
| Patricia.SingleContents | patricia.py:110-116 | a node without edges stands for its own value at `""` and nothing else |
| Patricia.BuildThreeKeys | patricia.py:104-118 | `trie(a=x, abc=y, abd=z)` builds the trie `ThreeKeys`, with `abd` splitting the label `bc` after `b` |
| Patricia.SetRound | patricia.py:147-168 | one round of `__setitem__`'s edge loop keeps the path back to the root consistent with the insertion, and either advances along the key or adds the leaf it will descend into next |
| Patricia.Locate | patricia.py:184-191 | the `_next` walk of `__delitem__` finds the node of a stored key, or reports `KeyError(key)` only for keys that are not stored |
| Patricia.WalkFind | patricia.py:120-125 | a found label leads to the child standing for the longer prefix, and no key ends inside the label |
| Patricia.WalkStop | patricia.py:120-125 | once `_find` fails, no key and no path runs further along the string |
| Patricia.KeysBelow | patricia.py:24-27 | `_keys(node, accu)` at the node a walk spelled `accu` to yields exactly the stored keys starting with `accu`, each once |
| Patricia.IterInside | patricia.py:308-314 | when the walk of `iter` stops inside a label that the rest of the prefix starts, the keys with the prefix are the keys through the whole label |
| Patricia.IterNone | patricia.py:308-316 | when no label continues the prefix, no stored key starts with it |
| Patricia.LongestStep | patricia.py:259-264 | each `_find` step of `item` makes the child the longest key so far when it is terminal, and changes nothing otherwise |
| Patricia.WalkOver | patricia.py:259-264 | when the walk of `item` stops, it stands at the reach of the string, and no longer key follows |
| Patricia.ItemRound | patricia.py:259-264 | one round of `item`'s loop keeps the remembered value the value of the longest key met so far |
| Patricia.PrefixRound | patricia.py:284-294 | one round of `isPrefix` either answers no (the string runs off every path), answers yes, or moves the question to a child further along |
| Patricia.KeyExtended | patricia.py:279-295 | every prefix of a stored key runs along a path, so `isPrefix` accepts it |
| Patricia.HitKeysExact | patricia.py:227-232 | `keys(S)` gives exactly the stored keys that are prefixes of `S`, shortest first |
| Patricia.HitItemsExact | patricia.py:272-277 | `items(S)` gives exactly the stored pairs whose keys are prefixes of `S`, shortest first |
| Patricia.AllItems | patricia.py:272-275 | `items()` gives every stored pair, each key once |
| Patricia.Trie.constructor | patricia.py:104-118 | the new trie is the root value followed by the pairs assigned in order, and stands for `Assign` of the pairs; the pairs go through `Set`, with the split bound corrected to `min` (see ## Findings) |
| Patricia.Trie.Set | patricia.py:142-170 | `T[key] = value`, with the split bound corrected to `min` (see ## Findings), keeps the trie well formed and turns the dictionary into the old one updated at `key`; the new branch is `Insert` of the old |
| Patricia.Trie.Get | patricia.py:172-181 | `T[key]` is the stored value, or `KeyError(key)` exactly when `key` is not stored |
| Patricia.Trie.Contains | patricia.py:193-199 | `key in T` exactly when `key` is stored |
| Patricia.Trie.Delete | patricia.py:183-191 | `del T[key]` removes `key` from the dictionary and raises `KeyError(key)` exactly when it was not stored; only the value slot changes |
| Patricia.Trie.Scan | patricia.py:134-140 | `_scan(string)` reports `(idx, value)` for exactly the stored keys that are prefixes of the string, shortest first |
| Patricia.Trie.Keys | patricia.py:227-232 | `keys()` gives every stored key once; `keys(S)` gives the stored keys that are prefixes of `S`, shortest first |
| Patricia.Trie.Values | patricia.py:242-247 | `values()` gives the values in the order of `items()`, one per key; `values(S)` gives the values of the scan of `S` |
| Patricia.Trie.Items | patricia.py:272-277 | `items()` gives every stored pair once; `items(S)` gives the stored pairs whose keys are prefixes of `S`, shortest first |
| Patricia.Trie.ItemWalk | patricia.py:255-264 | the walk of `item` stops at the reach of the string and remembers the value of the longest stored key that is a prefix of it |
| Patricia.Trie.Item | patricia.py:249-270 | `item(S)` is the longest stored key that is a prefix of `S`, with its value; otherwise the default, or `KeyError` with the prefix the walk spelled |
| Patricia.Trie.ItemAsWritten | patricia.py:249-270 | `item(S)` as written pairs that value with `S[:idx]` for the index where the walk stopped |
| Patricia.Trie.Key | patricia.py:219-225 | `key(S)` is the key of `item(S)`, with the same default and error cases |
| Patricia.Trie.Value | patricia.py:234-240 | `value(S)` is the value of `item(S)`, with the same default and error cases |
| Patricia.Trie.IsPrefix | patricia.py:279-295 | `isPrefix(S)` is true exactly when `S` runs along a path of the trie, ending at a node or inside a label |
| Patricia.Trie.StartsAnyKey | patricia.py:279-281 | true exactly when some stored key starts with `S`, as the docstring of `isPrefix` promises |
| Patricia.Trie.Iter | patricia.py:297-317 | `iter(prefix)` gives exactly the stored keys that start with `prefix`, each once |
| Patricia.Trie.Iterate | patricia.py:201-202 | `iter(T)` gives every stored key once, in the pre-order of `_keys` |
| Patricia.Trie.Len | patricia.py:204-205 | `len(T)` is the number of stored keys |
| Patricia.ItemAfterThreeKeys | patricia.py:249-270 | for `trie(a=x, abc=y, abd=z)`, `item('abx')` as written answers `('ab', x)`, while the longest stored key that is a prefix is `a`, giving `('a', x)` |
| Patricia.PrefixAfterDelete | patricia.py:183-191 | after `T['foo'] = v; del T['foo']`, `isPrefix('f')` as written is true, while no stored key starts with `f` |

## Left out

- Python's dictionary of edges is an ordered sequence of `Edge`s, in insertion order. Deleting an
  edge and adding the split edge at the end is `RemoveAt` followed by an append.
- Trie.Set, Trie.Delete: nodes are values, so a mutator puts the changed path back together with
  `Plug` instead of updating the nodes on the path in place. Aliasing between subtries is not
  modelled: no two tries share nodes, so no other trie is affected.
- Trie.constructor: the keyword arguments `**keys` are a sequence of pairs assigned in order, and
  keyword-argument syntax (keys must be identifiers) is not modelled. With more than one
  positional value the source stores the tuple `value` itself; the model takes at most one value,
  and a tuple can be passed as that one value.
- Trie.Scan, Trie.Keys, Trie.Values, Trie.Items, Trie.Iter: the source returns generators, which
  are lazy and see later changes to the trie. The model returns the whole sequence at once.
  `rval_fun` is modelled by the three projections it is called with in `keys`, `values` and
  `items`.
- Trie.Iterate, Trie.Iter: the order of the keys is that of `_keys` (pre-order); `Iter` states
  the set of keys and their distinctness, not their order.
- Trie.Key, Trie.Value: the source tells a default result from an item by object identity
  (`result is not default`). The model keeps the two apart in the `Match` datatype, so a default
  that happens to be identical to an item is not modelled. Both are stated on the corrected
  `Item`.
- Trie.Values: `values(S)` is stated as the values of the scan of `S`; what the scan reports is
  stated by `HitsSound`, `HitsComplete` and `HitsSorted`.
- `__repr__` (patricia.py:207-217) builds a display string and is not modelled.
- `test_patricia.py` calls `keys`, `values`, `items` and `value` with a start offset into the
  text. `patricia.py` has no such parameter, so the model has none either.

## Findings

| source | as written | input that shows it | evidently intended | confidence | as-written member | corrected member |
|---|---|---|---|---|---|---|
| patricia.py:157 | the split loop is bounded by `max(len(edge), keylen - idx)`, so it reads `key[idx + pos]` past the end of the key when the rest of the key is a proper prefix of the label | `T['foobar'] = 1; T['foo'] = 2` raises `IndexError` | bound `min(len(edge), keylen - idx)`: split the label where the key ends | not executed | Mutator.SplitPointAsWritten, Mutator.FooAfterFoobar | Mutator.SplitPoint, Patricia.Trie.Set |
| patricia.py:258-266 | `item` pairs the value of the last terminal node passed with `string[:idx]` for the index where the walk stopped, which can lie below a non-terminal split node | `trie(a=x, abc=y, abd=z).item('abx')` gives `('ab', x)`, and `'ab'` is not a key | the longest stored key that is a prefix of the string, with its value: `('a', x)` | not executed | Patricia.Trie.ItemAsWritten, Patricia.ItemAfterThreeKeys | Patricia.Trie.Item |
| patricia.py:279-295 | `isPrefix` follows the structure of the trie, and `del` only clears a value slot, leaving the dead leaf in place | `T['foo'] = 1; del T['foo']; T.isPrefix('f')` is true, but no key is left | true exactly when some stored key starts with the string, as its docstring says | not executed | Patricia.Trie.IsPrefix, Patricia.PrefixAfterDelete | Patricia.Trie.StartsAnyKey |
