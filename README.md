# Huffman coding, as written in huffman.py

A Dafny model of the `Node` record and the `Huffman` class of `huffman.py`.
The class runs a character-frequency Huffman encoder and decoder over strings:

1. `get_character_frequency` counts the characters and stable-sorts the
   `(char, count)` pairs ascending by count.
2. `make_node_list` drains that queue into a list of leaves.
3. `build_huffman_tree` pops the two front nodes, merges them and reinserts
   the merged node with `insert_node`. It stops once two nodes remain and
   merges those into the root.
4. `make_codes` walks the tree, appending `'0'` on the left and `'1'` on the
   right.
5. `get_encoded_bytes` concatenates the codes.
6. `get_decoded_text` matches bits greedily against the reverse mapping.

The model follows the code **as written**, not textbook Huffman coding:

- `insert_node` puts the merged node before the *first* element whose key is
  at most its own. When there is no such element, it silently drops the node
  together with every leaf under it.
- The docstring of `insert_node` (huffman.py:67-69) says it "sorts" the
  list. The code does not keep `nodeList` sorted: it scans for the first
  key at most the new one, and it drops the node when there is none. The
  model follows the code.
- `pop(0)` on an empty list raises `IndexError`. This happens for empty
  input, for exactly two distinct characters, and whenever a dropped node
  leaves fewer than two nodes. It is modelled as the `PopFromEmpty` build
  status and the `Err(IndexError)` result.
- A character left without a code makes `self.codes[character]` raise; that
  is the `Err(KeyError(c))` result.

Layout:

- `outcomes.dfy` (`Outcomes`): `Option`, `Result` and the two exceptions.
- `frequency.dfy` (`Frequency`): the queue of `get_character_frequency`.
  `dict(Counter(...))` order is first occurrence. `sorted` (Timsort in
  CPython) is modelled by a stable insertion sort; a stable sort by one key
  has only one possible result, so the order is the same. Both are pure
  functions, with their exactness, sortedness and stability lemmas.
- `tree.dfy` (`Tree`): `Node` as a datatype (no node is shared), leaves,
  weights, the leaf list.
- `build.dfy` (`TreeBuild`): the insertion rule and the merge loop as
  functions. A `Run` value records the status, the final `nodeList`, the
  root, and the nodes lost on the way. The lemmas cover conservation of
  leaves, well-weightedness, failure cases, and a concrete dropped merge.
- `codes.dfy` (`Codes`): the dictionary writes of `make_codes`, encoding and
  decoding as functions. The lemmas cover prefix-freeness, tree paths,
  inverse tables and decode∘encode.
- `pipeline.dfy` (`Pipeline`): `get_encoded_bytes` as a function of the text
  and the starting fields, and the whole-pipeline properties on a fresh
  object.
- `huffman.dfy` (`HuffmanCoding`): `class Huffman` with the five fields. Each
  method mutates them in loops (or by recursion for `make_codes`) and is
  proved against those functions.

## Model

| member | source | states |
|---|---|---|
| Frequency.CharacterFrequency | huffman.py:51-52 | the queue: one entry per distinct character of the contents, counts adding up to the length of the contents |
| Frequency.Distinct | huffman.py:51 | the characters of the input, each once, exactly those that occur |
| Frequency.DistinctOrdered | huffman.py:51 | `Distinct` lists characters in order of first occurrence (the key order of `Counter`) |
| Frequency.Tally | huffman.py:51 | one entry per listed character, paired with its number of occurrences |
| Frequency.SortByCount | huffman.py:52 | the sorted queue is a permutation of its input and keeps the total count |
| Frequency.FrequencyCounts | huffman.py:51-53 | every distinct character of the contents has exactly one entry, carrying its exact occurrence count (at least 1); the counts sum to the length of the contents |
| Frequency.FrequencySortedStable | huffman.py:52 | the queue is non-decreasing by count, and equal counts keep first-occurrence order |
| Frequency.SumCountsPerm | huffman.py:52 | reordering the queue does not change the sum of its counts |
| Tree.LeafNodes | huffman.py:60-63 | one `Leaf(char, count)` per queue entry, at the same position |
| Tree.MergeWeight | huffman.py:87 | merging two well-weighted nodes gives a well-weighted node whose leaves are the first node's then the second's, keyed by their total frequency |
| Tree.ForestOfLeaves | huffman.py:60-63 | the leaves of the leaf list are the queue itself, in order |
| Tree.KeyIsLeafTotal | huffman.py:87 | the key of a well-weighted tree is the total frequency of its leaves |
| TreeBuild.Inserted | huffman.py:70-73 | after `insert_node` the list is either unchanged (the node dropped) or one longer and holds the node |
| TreeBuild.InsertPos | huffman.py:70-71 | the insert index: every element before it has a larger key, the element at it (if any) a key at most the new one |
| TreeBuild.InsertedRule | huffman.py:70-73 | with some key at most the new key, the node is inserted at the first such index and the others keep their order; with none (the empty list included) the list is unchanged |
| TreeBuild.InsertedLeaves | huffman.py:70-73 | inserting adds the new node's leaves or none, and adds no other node |
| TreeBuild.BuildTree | huffman.py:80-94 | the root is set exactly when the build ends normally; one node stays in `nodeList`, otherwise it ends empty |
| TreeBuild.MergeLoop | huffman.py:84-94 | the loop empties `nodeList`, and sets a root exactly when it ends without the IndexError |
| TreeBuild.MergeLoopConserves | huffman.py:84-94 | the leaves of the list and the lost nodes are, as a multiset, those of the root and the lost nodes at the end |
| TreeBuild.MergeLoopWellWeighted | huffman.py:84-94 | from well-weighted nodes the loop builds an internal root whose every node's key is the sum of its children's keys |
| TreeBuild.FailureLoses | huffman.py:84-90 | on two or more nodes, a run that ends in the IndexError has lost a node |
| TreeBuild.BuildTreeShape | huffman.py:80-94 | one node becomes the root and stays in `nodeList`; otherwise the list ends empty; the root is set exactly when no IndexError occurs; no node and two nodes raise it, two losing the merged node |
| TreeBuild.BuildTreeConserves | huffman.py:80-94 | no leaf appears or disappears: root leaves plus lost leaves are the starting leaves |
| TreeBuild.BuildTreeWellWeighted | huffman.py:80-94 | the root is well-weighted, and internal unless it is the only node |
| TreeBuild.BuildTreeNoLoss | huffman.py:84-94 | when no node is lost the build ends normally with `nodeList` empty (unless single) and the root holds exactly the starting leaves |
| TreeBuild.DroppedMergeExample | huffman.py:70-73 | leaves a:1, b:1, c:5 in queue order: the merged node of key 2 is dropped and the next pop fails |
| TreeBuild.DroppedMergeBuilt | huffman.py:70-94 | leaves a:1, b:1, c:5, d:5, e:5 in queue order: the merged node of key 2 is dropped, yet the build ends normally with the root (c d) e and a and b lost |
| Codes.CodeWrites | huffman.py:101-114 | the writes of `make_codes`: none below no node, one per leaf below a node |
| Codes.CodeWritesLeaves | huffman.py:104-114 | `make_codes` writes one entry per leaf, naming the leaves left to right |
| Codes.CodeWritesPrefixFree | huffman.py:109-114 | outside the single-leaf state the codes written are pairwise prefix-free |
| Codes.CodeWritesFollow | huffman.py:109-114 | outside the single-leaf state each code is the path from the root to the leaf it names |
| Codes.CodeWritesSingle | huffman.py:105-107 | in the single-leaf state every code written is `"0"` |
| Codes.ApplyAllUnique | huffman.py:106-110 | with distinct keys the dictionary after the writes maps each key to its written value |
| Codes.TreeTables | huffman.py:101-114 | the code table covers exactly the leaf characters; it and `reverse_mapping` are inverse and prefix-free; a lone leaf gets `"0"`, any other leaf its root-to-leaf path |
| Codes.Encode | huffman.py:137-140 | encoding succeeds exactly when every character has a code; otherwise the error is the KeyError of the first character without one |
| Codes.EncodeFirstMissing | huffman.py:138-139 | encoding stops with the KeyError at the first character without a code |
| Codes.EncodeSnoc | huffman.py:138-139 | one more coded character appends its code |
| Codes.DecodeFrom | huffman.py:152-158 | the loop of `get_decoded_text` from a buffer: at most one character per bit, each a value of the reverse mapping |
| Codes.Decode | huffman.py:147-158 | the same from the empty buffer |
| Codes.DecodeOneCode | huffman.py:152-157 | the bits of one code are buffered until the buffer matches, then its character is emitted and the buffer reset |
| Codes.DecodeDropsTail | huffman.py:152-158 | trailing bits that complete no code are discarded (an empty bit string decodes to `""`) |
| Codes.DecodeEncode | huffman.py:137-158 | with a prefix-free inverse table, decoding the encoding of a text, followed by bits that complete no code, gives the text back |
| Pipeline.EncodeText | huffman.py:130-140 | `get_encoded_bytes` on given starting fields: `queue` ends empty, `nodeList` is the build's; the IndexError is raised exactly when the build fails; a bit string means a root is set and every character of the text has a code |
| Pipeline.FreshBuilt | huffman.py:134-135 | a normal build on a fresh object gives a well-weighted root with distinct text characters, a leaf exactly in the single-leaf state; it holds all characters exactly when nothing was lost, and then its key is the text length |
| Pipeline.BuiltFromLeaves | huffman.py:80-94 | the same for a build over one leaf per entry of any table with distinct characters |
| Pipeline.FreshTables | huffman.py:130-140 | after a normal build the tables cover the root's leaf characters, are prefix-free inverses, `"0"` for a lone leaf, paths otherwise; the result encodes the text with them |
| Pipeline.EncodeSucceedsExactly | huffman.py:130-140 | `get_encoded_bytes` on a fresh object returns bits exactly when the build ends normally and loses no node, and then every character has a code |
| Pipeline.RoundTrip | huffman.py:143-158 | decoding the result with the reverse mapping encode left gives the text back, also with unmatched trailing bits |
| Pipeline.DecodeEncoded | test.py:30-32 | decode∘encode is the identity whenever encode succeeds |
| Pipeline.FreshRoot | huffman.py:84-94 | after a successful encode the root is well-weighted, holds every character of the text, and its key is the text length |
| Pipeline.SingleSymbol | huffman.py:104-107 | a text of one repeated character gets code `"0"` (reverse mapping `"0"` to it) and encodes to one `'0'` per character |
| Pipeline.SingleRun | huffman.py:81-83 | one distinct character gives one leaf with the text length as key, which is the root at once |
| Pipeline.FewSymbolsFail | huffman.py:84-88 | no character or exactly two distinct characters make encode raise the IndexError, with no root set |
| Pipeline.NewlineExample | test.py:26-29 | `"\n"` encodes to `"0"` and `"0"` decodes back to `"\n"` |
| HuffmanCoding.Huffman.constructor | huffman.py:39-44 | all five fields start empty |
| HuffmanCoding.Huffman.GetCharacterFrequency | huffman.py:47-53 | stores and returns the frequency queue of the contents |
| HuffmanCoding.Huffman.MakeNodeList | huffman.py:56-63 | `queue` ends empty, and one leaf per queue entry is appended, in queue order, after the old `nodeList` |
| HuffmanCoding.Huffman.InsertNode | huffman.py:66-73 | `nodeList` becomes the list with the node inserted by the rule of `InsertedRule` |
| HuffmanCoding.Huffman.BuildHuffmanTree | huffman.py:76-94 | status, `queue`, `nodeList` and `root` are the outcome of the build over the old list plus the queue's leaves; `root` is untouched when `pop(0)` fails |
| HuffmanCoding.Huffman.MakeCodes | huffman.py:97-114 | `codes` and `reverse_mapping` receive the writes of the walk below the node, in order |
| HuffmanCoding.Huffman.MakeCodesDict | huffman.py:117-121 | the same from the root with the empty code |
| HuffmanCoding.Huffman.GetEncodedBytes | huffman.py:130-140 | every field and the result are those of the pipeline function on the starting fields |
| HuffmanCoding.Huffman.GetDecodedText | huffman.py:143-158 | stores the given reverse mapping and returns the greedy decoding of the bits |
| HuffmanCoding.EncodeCharacters | huffman.py:137-140 | returns exactly the encoding of the text: codes concatenated, or the first KeyError |

## Left out

- Pickle persistence of `codes` and `reverse_mapping` (huffman.py:122-127, 149-151) is file I/O. `GetDecodedText` instead takes the mapping that was stored as a parameter and assigns it to the field.
- The module-level `encode` and `decode` (huffman.py:162-194) only read and write files and print. They are not modelled.
- Argument parsing and `__main__` (huffman.py:197-212) are command-line glue. They are not modelled.
- `test_encode` and `test_decode` (test.py:11-17) depend on external files and assert nothing.
- The `"Python -- easy"` and sea-shells queue vectors (test.py:19-23) are not proved as concrete values. `FrequencyCounts` and `FrequencySortedStable` state the exact counts and the tie order they exhibit.
- The `'"Huffman"'` round trip (test.py:30-32) is covered only through `DecodeEncoded`. That encode succeeds on this particular text is not evaluated concretely.
- HuffmanCoding.EncodeCharacters: the `for character in text` loop of `get_encoded_bytes` is a separate method taking the code table as a parameter, rather than a loop inline in `GetEncodedBytes`.
- Python exceptions in the modelled code are result values: the `IndexError` of `pop(0)` and the `KeyError` of a missing code.
- HuffmanCoding.Huffman.MakeCodes, HuffmanCoding.Huffman.GetEncodedBytes: CPython's recursion limit (1000 frames by default) is not modelled. `make_codes` recurses once per tree level, and with equal counts the insertion rule builds a left chain as deep as the number of distinct characters. A text with about a thousand distinct characters therefore raises `RecursionError` in Python, where the model returns the encoding.
- HuffmanCoding.Huffman.GetCharacterFrequency: Python returns the list object `self.queue` itself (huffman.py:52-53), so a caller's reference to it is emptied by the next `make_node_list`. The model returns a value, and that aliasing is not captured.
- Python's `None` character of internal nodes is the `Internal` constructor. `root.char != None` is the `Leaf?` test.
- Characters are Dafny `char`s. Reading a file's bytes or text encoding is part of the file I/O left out.
