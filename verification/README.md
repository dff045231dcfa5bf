# mytrie in Dafny

A model of `mytrie.py`, a prefix tree (trie) library for Python. Keys are
strings of arbitrary tokens. A trie can answer these queries:

- membership;
- whether some key extends a prefix;
- the one-token successors of a prefix;
- the suffixes and extensions of a prefix, and the longest of them;
- the keys that are prefixes of a text, and the longest of them;
- the number of keys.

`TrieSet` adds insertion, bulk update, union, intersection, subset and
superset tests, and equality. `StringLike` wraps a tuple of tokens with
Python's indexing, slicing, concatenation and substring test. The substring
test runs the Knuth-Morris-Pratt search, which works over any sequence of
tokens compared by equality.

Modules:

- `Results` (`results.dfy`): the outcome types. `Result` is a value or the
  Python exception raised instead (`KeyError`, `ValueError`, `IndexError`).
  `Option` stands for the source's `None`.
- `TrieNodes` (`trie_nodes.dfy`): the tree.
  - `Node(children, member)` is the source's `[children, is_member]` list.
  - `Reach(n, membersOnly)` is the set of token strings a depth-first walk
    from `n` enumerates. The source's generators `__generateKeys` and
    `__generateSubNodes` produce exactly these strings.
  - `Keys` (members only) and `Paths` (every node) are the two views of
    `Reach` that the queries use.
  - `Valid` is the shape invariant insertion keeps: every node below the root
    leads to a key. Under it, `SameKeysSameNode` proves that a trie's shape
    is determined by its key set.
- `TrieBase` (`trie_base.dfy`): the queries of `TrieBase`. Each one works on
  the root node and is specified against `Keys`/`Paths`.
- `TrieSets` (`trie_set.dfy`): `TrieSet`. It is a value made of a root node
  and the null element. `add` and `update` return the new value instead of
  mutating the trie.
- `Kmp` (`kmp.dfy`): the shift table and the search loop of
  `KnuthMorrisPratt`. The table is proved to hold the least self-overlap
  shift of every pattern prefix. The reported positions are proved to be
  the occurrences, in increasing order.
- `StringLike` (`string_like.dfy`): the operations `StringLike` adds to its
  tuple: `+`, indexing, slicing and `in`.

## Model

| member | source | states |
|---|---|---|
| TrieBase.Contains | mytrie.py:288-295 | `key in t` holds exactly when `key` is one of the stored keys |
| TrieBase.NodeOf | mytrie.py:297-304 | the walk finds a node exactly when `key` leads to an existing node |
| TrieBase.NodeOfReach | mytrie.py:297-304 | `s` is reachable from the node found for `key` exactly when `key + s` is reachable from the root |
| TrieBase.NodeOfSubtree | mytrie.py:297-304 | the same for every `s`: the subtree found is the part of the trie below `key` |
| TrieBase.NodeOfAppend | mytrie.py:297-304 | walking `p + q` is walking `p` and then `q` from the node reached |
| TrieBase.HasExtensionOf | mytrie.py:306-310 | `has_extension_of` holds exactly when `prefix` leads to an existing node |
| TrieBase.HasExtensionOfPrefix | mytrie.py:306-310 | in a trie built by insertion, that means `prefix` is empty or a prefix of some stored key, as the docstring promises |
| TrieNodes.Reach | mytrie.py:320-329 | the strings a depth-first walk yields from a node include the empty suffix (the node's own prefix) exactly when the node is selected: a member for `__generateKeys`, every node for `__generateSubNodes` |
| TrieNodes.ReachCons | mytrie.py:382-386 | the walk yields `[t] + s` from a node exactly when `t` labels one of its children and the walk from that child yields `s`, the recursion on `prefix + el` |
| TrieNodes.PathsArePrefixesOfKeys | mytrie.py:306-310 | in a trie built by insertion, the existing nodes are exactly the empty string and the prefixes of the stored keys |
| TrieBase.Successors | mytrie.py:362-380 | `KeyError` exactly when `prefix` is not a path; otherwise exactly the paths one token longer than `prefix` that start with it |
| TrieBase.SuccessorsHaveExtensions | mytrie.py:362-372 | in a trie built by insertion, every successor is a prefix of a stored key |
| TrieBase.Suffixes | mytrie.py:382-409 | `KeyError` exactly when `prefix` is not a path; otherwise `s` is yielded exactly when `prefix + s` is a key (members only) or a path (all nodes) |
| TrieBase.SuffixesOfPrefixes | mytrie.py:388-409 | with `members_only=False` in a trie built by insertion, the suffixes are the empty string and the strings completing `prefix` towards a stored key |
| TrieBase.SuffixesAreMembers | mytrie.py:388-409 | with `members_only=True`, `prefix + s` is contained for every suffix `s` |
| TrieBase.Extensions | mytrie.py:432-450 | `KeyError` exactly when `prefix` is not a path; otherwise exactly the keys (or paths) that start with `prefix` |
| TrieBase.EmptyPrefixGivesAllKeys | mytrie.py:388-450 | the suffixes and the extensions of the empty prefix are all stored keys |
| TrieBase.MaximalSuffix | mytrie.py:411-430 | `KeyError` exactly when `prefix` is not a path; otherwise the result is empty or completes `prefix` to a key, and no key completing `prefix` is longer |
| TrieBase.MaximalExtension | mytrie.py:452-456 | `KeyError` exactly when `prefix` is not a path; otherwise the result starts with `prefix`, is `prefix` or a key, and no key starting with `prefix` is longer |
| TrieBase.Prefixes | mytrie.py:458-471 | exactly the stored keys that are prefixes of `text`, found along the path `__pathTo` walks |
| TrieBase.MaximalPrefix | mytrie.py:473-492 | `KeyError` exactly when no key is a prefix of `text`; otherwise a key that is a prefix of `text`, with no such key longer |
| TrieBase.PushChildren | mytrie.py:357-358 | pushing a node's children adds their subtrees' keys and nodes to what the stack still holds |
| TrieBase.Len | mytrie.py:348-360 | `__len__` as written: the number of keys other than the empty key |
| TrieBase.LenMissesEmptyKey | mytrie.py:348-360 | when the root is a member, that count is one less than the number of keys |
| TrieBase.CountKeys | mytrie.py:348-349 | the number of stored keys, which the comment at line 349 says `__len__` computes |
| TrieSets.Empty | mytrie.py:669-676 | a fresh `TrieSet` holds no keys, satisfies the shape invariant and keeps its null element |
| TrieSets.InsertContains | mytrie.py:706-739 | after `add(key)`, `key` is contained and every other key's membership is unchanged |
| TrieSets.InsertKeys | mytrie.py:706-739 | `add(key)` turns the key set into the key set plus `key` |
| TrieSets.InsertValid | mytrie.py:730-739 | adding to a trie that satisfies the shape invariant leaves every node leading to a key |
| TrieSets.InsertIdempotent | mytrie.py:730-739 | adding the same key twice builds the same tree as adding it once |
| TrieSets.InsertCommutes | mytrie.py:730-739 | adding two keys to a trie built by insertion builds the same tree in either order |
| TrieSets.Add | mytrie.py:706-739 | `add` adds `key` to the key set, keeps the shape invariant and the null element |
| TrieSets.AddIdempotent | mytrie.py:706-739 | adding a key twice is adding it once |
| TrieSets.Update | mytrie.py:741-752 | after `update(keys)`, the keys are the old keys plus the elements of `keys` |
| TrieSets.FromSeq | mytrie.py:669-676 | `TrieSet(contents)` holds exactly the elements of `contents` |
| TrieSets.FromSeqOrderFree | mytrie.py:688-704 | building from two sequences with the same elements, in any order and with any repetitions, gives the same trie |
| TrieSets.FromSet | mytrie.py:755-799 | a trie rebuilt from a set of keys holds exactly that set |
| TrieSets.Union | mytrie.py:755-775 | `ValueError` exactly when the null elements differ; otherwise a trie of the keys of both operands |
| TrieSets.Intersection | mytrie.py:779-799 | `ValueError` exactly when the null elements differ; otherwise a trie of the keys both operands hold |
| TrieSets.UnionIntersectionBounds | mytrie.py:755-799 | each operand is a subset of the union and a superset of the intersection |
| TrieSets.IsSubset | mytrie.py:803-823 | `issubset` holds exactly when every key of the first trie is a key of the second |
| TrieSets.IsSuperset | mytrie.py:825-842 | `issuperset` holds exactly when every key of the second trie is a key of the first |
| TrieSets.Equal | mytrie.py:688-704 | `==` holds exactly when the two key sets are equal |
| TrieSets.EqualIsSameTree | mytrie.py:688-704 | for tries built by insertion, `==` holds exactly when the trees are identical |
| TrieSets.UnionIntersectionCommute | mytrie.py:755-799 | `union` and `intersection` fail for the same pairs in either order, and otherwise give equal tries |
| TrieSets.RepeatedKeyExample | mytrie.py:697 | `TrieSet(['a', 'b']) == TrieSet(['a', 'b', 'a'])` |
| TrieNodes.SameKeysSameNode | mytrie.py:706-739 | two tries built by insertion with the same keys are the same tree |
| Kmp.ComputeShifts | mytrie.py:926-932 | entry `i` of the shift table is the least shift that lines the first `i` pattern tokens up with themselves; entry 0 is 1 |
| Kmp.Advance | mytrie.py:937-942 | processing one token turns the longest pattern prefix ending before it into the longest one ending after it, with the start position kept equal to the current position minus the match length |
| Kmp.KnuthMorrisPratt | mytrie.py:913-944 | the yielded positions increase strictly; for a non-empty pattern they are exactly its start positions in `text`; for the empty pattern they are exactly `1..len(text)` |
| Kmp.Occurrences | mytrie.py:913-921 | every start position of `pattern` in `text`, in increasing order, position 0 of the empty pattern included |
| Kmp.EmptyPatternOccursAtStart | mytrie.py:913-921 | the empty pattern has an occurrence at position 0 |
| StringLike.Concat | mytrie.py:246-247 | the result has the length of both operands together, starts with the first and ends with the second |
| StringLike.ConcatMonoid | mytrie.py:246-247 | concatenation is associative, and the empty string is its unit |
| StringLike.ConcatContainsParts | mytrie.py:246-254 | both operands are substrings of their concatenation |
| StringLike.SliceBound | mytrie.py:231-233 | a slice bound resolves to a position in `0..len`: a missing bound takes its default, one in `0..len` is kept, one in `-len..-1` counts from the end, one above `len` becomes `len` and one below `-len` becomes 0 |
| StringLike.Slice | mytrie.py:231-233 | `s[start:stop]` is the tokens between the two resolved bounds, or empty when the start lies at or past the stop; in particular `s[a:b]`, `s[:b]` and `s[a:]` with bounds in `0..len` are exactly those tokens, `s[:]` is `s`, and `s[a:b]` with `0 <= b <= a` is empty |
| StringLike.SliceOutOfRange | mytrie.py:231-233 | `s[-k:]` is the last `k` tokens, a stop past the end acts as no stop, and a start below `-len(s)` gives all of `s` |
| StringLike.SliceSplit | mytrie.py:231-233 | `s[:]` is `s`, and `s[:k] + s[k:]` is `s` for every `k` |
| StringLike.GetItem | mytrie.py:231-234 | `s[i]` succeeds exactly for `-len(s) <= i < len(s)` and is the one-token string holding token `i`, or token `len(s) + i` for a negative `i`; any other index is an `IndexError` |
| StringLike.GetItemIsUnitSlice | mytrie.py:231-234 | `s[i]` is the slice `s[i:i+1]` (or `s[-1:]` for `i == -1`) |
| StringLike.Contains | mytrie.py:249-254 | `other in s` holds exactly when `other` occurs somewhere in `s` |

## Left out

- The string-likeness checks raise `TypeError` (`isStringLike`, lines 97-124; the checks in `TrieBase.__init__` and `TrieSet.add`). They are left out because keys are typed as token sequences, so the check cannot fail.
- The null element object is a value of an opaque type. Only its comparison in `union` and `intersection` is modelled. The empty token sequence plays its role as the identity of concatenation.
- Generators are modelled as the sets of values they yield. Their enumeration order and laziness are not modelled. This includes the fact that a generator raises its `KeyError` on the first `next()` rather than at the call.
- `__pathTo` is not a separate member. Its walk is modelled inside `TrieBase.Prefixes` and `TrieBase.MaximalPrefix`. The `KeyError` it raises to end the walk is the point where those walks stop.
- `__generateKeys` and `__generateSubNodes` are modelled by `TrieNodes.Reach` as the set of strings they produce. The commented-out stack-based `__iter__` is not modelled.
- `TrieSets.Union`, `TrieSets.Intersection` and `TrieSets.FromSet` are ghost functions. They rebuild a trie from a set of keys by inserting its elements in an unspecified order, as iterating a Python `set` does.
- `TrieSet.add` and `update` mutate the trie in place. The model returns the new trie, so aliasing between tries is not modelled.
- `TrieDict`, `__repr__`, `__hash__`, `__bool__`, `__cmp__` ordering, `StringLike.__iter__` and `StringLike.__len__` are not modelled. They are either not part of the trie core or are thin wrappers over the tuple.
- StringLike.Slice: only slices with step 1 are modelled; a slice with another step is not part of this model.
- `KnuthMorrisPratt` reads the text lazily from an iterator. The model takes the whole text as a sequence and returns all positions at once.
- Tokens are compared with Dafny equality. The source compares `StringLike` tokens through `__cmp__` on their tuples, which amounts to the same thing.
- TrieBase.MaximalSuffix: the source leaves open which of several longest suffixes is returned. The model leaves it open too.

## Findings

| source | as written | input that shows it | evidently intended | confidence | as-written member | corrected member |
|---|---|---|---|---|---|---|
| mytrie.py:348-360 | `__len__` starts its stack from the root's children, so the root's own membership is never counted | `TrieSet([''])`: `__len__` gives 0, while `len(tuple(t))` is 1 | the number of keys, as the comment on line 349 says (`len(tuple(self))`) | high; not executed | TrieBase.Len, TrieBase.LenMissesEmptyKey | TrieBase.CountKeys |
| mytrie.py:913-944 | for the empty pattern the search loop first shifts the match length to -1 and only then reports, so it reports positions 1 to `len(text)` and never 0 | text `'ab'`, pattern `''`: positions 1 and 2 are reported, 0 is not | all start positions of the pattern, which for the empty pattern are 0 to `len(text)` (as with `string.find`, which the docstring cites) | medium; not executed | Kmp.KnuthMorrisPratt, Kmp.EmptyPatternOccursAtStart | Kmp.Occurrences |
