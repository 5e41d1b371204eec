# Huffman engine — Dafny model

This project models the Huffman coding engine of the repository. The engine is made of
`backend/Huffman.cpp` and the node record in `backend/Node.h`:

- **Frequency counting** (`frequencyTable`): adds one to a map entry for each byte of the content.
- **Tree construction** (`buildTree`): keeps a priority queue of nodes ordered by its lambda `compare`, which compares exactly as `compareWeights` in `Node.h` does (that struct is not used anywhere else); both are modelled by `CompareWeights`. It merges the two lightest nodes until one remains, and that node becomes the `root` field.
- **Code derivation** (`making_codes`, `ReverseCodes`): a depth-first walk that appends `'0'` on the way to the `zero` child and `'1'` on the way to the `one` child. Each leaf's path is recorded in a byte-to-code table and in a code-to-byte table.
- **Tree header** (`encodeTree`, `decodeTree`, `reconstruct_tree`): a preorder description of the tree. An internal node is written as `'0'` followed by both children, a leaf as `'1'` followed by its raw byte. The header is parsed back with an index that advances as it goes.
- **Orchestration** (`compress`, `decompress`): `compress` returns early on empty content and otherwise counts, builds, derives codes and writes the header and one code per byte. `decompress` rebuilds the tree from the header, derives the reverse table and matches bits greedily.

Files, one module each:

| file | module | models |
|---|---|---|
| `common.dfy` | `Common` | bytes (`char` below 256), the nullable wrapper, the `'0'`/`'1'` characters, prefixes |
| `node.dfy` | `NodeRecord` | `Node`, its two constructors, `compareWeights`, tree shape predicates |
| `frequency.dfy` | `Frequency` | `frequencyTable` as a loop over the content |
| `tree_builder.dfy` | `TreeBuilder` | the priority queue's `top`/`pop`/`push` and the invariants of `buildTree`'s two loops |
| `code_table.dfy` | `CodeTable` | `making_codes` and `ReverseCodes` as recursive methods filling a map |
| `tree_codec.dfy` | `TreeCodec` | `encodeTree`, and `decodeTree` with its by-reference index returned as a cursor |
| `decoder.dfy` | `Decoder` | the bit-matching loop of `decompress` |
| `huffman.dfy` | `Engine` | the `Huffman` class with its mutable `root`, `buildTree`, `reconstruct_tree`, `compress`, `decompress`, and the end-to-end properties |

Modelling choices:
- The priority queue is a sequence of nodes. `top()` is the first lightest node, which is a deterministic tie-break, and `pop()` removes it.
- The frequency table's iteration order is left open: leaves are pushed by taking any remaining key.
- What `compress` hands to storage is returned as a `Compressed` value: the header line and the list of code strings. Ghost results name the table and tree it built, so that the contract can speak of them.
- What `decompress` reads from storage is passed in: the header and the bit chunks `extract` would return.
- `decodeTree` reads `data[index]` once the index reaches the end only when a leaf marker is the last character. There, `std::string` yields the terminating `'\0'`, which the model writes as `CharAt`.

Behaviour the model keeps exactly as the code has it:
- A header that ends early is not rejected. Missing children become null pointers (`TreeCodec.TruncatedHeaderGivesLeaf`).
- Bits left over at the end of the stream are dropped without an error (`Decoder.GreedyDropsTail`, `Decoder.GreedyDecodesCodesThenTail`).
- Empty content makes `compress` return without any output, not fail.
- Content with a single distinct byte does not round-trip (see Findings).

## Model

| member | source | states |
|---|---|---|
| NodeRecord.IsLeaf | backend/Huffman.cpp:60 | the leaf test every traversal makes (`!node->zero && !node->one`): a node is a leaf exactly when both child pointers are null |
| NodeRecord.CompareWeights | backend/Node.h:38-42 | `lhs` ranks below `rhs` exactly when it is strictly heavier, so the top of a queue ordered by it is a lightest node |
| NodeRecord.NewLeaf | backend/Node.h:8-14 | the two-argument constructor makes a leaf (both children null) holding the given letter and weight, with an empty code |
| NodeRecord.NewNode | backend/Node.h:16-22 | the four-argument constructor stores exactly the given letter, weight and children with an empty code; the result is a leaf exactly when both given children are null |
| NodeRecord.CompareWeightsIsStrictWeakOrder | backend/Huffman.cpp:39-41 | the queue's comparator (and `compareWeights`, which compares the same way) is irreflexive, asymmetric and transitive, and nodes of equal weight are unordered, so the queue's top is a minimum-weight node |
| NodeRecord.FullLetters | backend/Huffman.cpp:48-55 | a tree in which every node has zero or two children has at least one leaf, and it is a single leaf exactly when it has one letter |
| Frequency.FrequencyTable | backend/Huffman.cpp:32-36 | the keys afterwards are the old keys plus the bytes of the text; each entry is its old value plus the byte's number of occurrences, and the total of the counts grows by exactly the length of the text |
| Frequency.TotalIncrement | backend/Huffman.cpp:34 | `freqTable[c]++`, which creates a missing entry at zero, adds exactly one to the table's total |
| TreeBuilder.TopIndex | backend/Huffman.cpp:39-50 | the queue's top: no queued node is lighter than the one chosen, and it is the first of the lightest |
| TreeBuilder.QueueRemove | backend/Huffman.cpp:49-50 | popping a node takes exactly its letters and its weight out of the queue's letters and total weight |
| TreeBuilder.QueuePush | backend/Huffman.cpp:52 | pushing a node adds exactly its letters and its weight to the queue |
| TreeBuilder.LeafQueueStep | backend/Huffman.cpp:44-46 | pushing the leaf of one more table entry keeps the invariant of the push loop: one leaf per key taken, each weighted by its count |
| TreeBuilder.LeafQueueDone | backend/Huffman.cpp:44-46 | once every entry is pushed, the queue holds each key exactly once, weighs the table's total, and is non-empty for a non-empty table |
| TreeBuilder.MergeQueueStep | backend/Huffman.cpp:48-53 | popping the two lightest and pushing their parent (weight the sum, both children non-null) keeps every queued tree well formed, keeps the queue's letters and total weight, and shrinks the queue by one, so the loop ends |
| TreeBuilder.MergeQueueDone | backend/Huffman.cpp:55 | the single node left is a coding tree for the table |
| TreeBuilder.SingleEntryIsLeaf | backend/Huffman.cpp:48-55 | the root is a leaf exactly when the table has one entry, and that leaf then holds the entry's letter and count (no merge happens) |
| TreeBuilder.CodingTreeLettersDistinct | backend/Huffman.cpp:44-46 | each letter occurs at one leaf of the built tree only |
| Engine.Huffman.constructor | backend/Huffman.cpp:3-5 | a new engine holds no tree |
| Engine.Huffman.BuildTree | backend/Huffman.cpp:38-56 | for a non-empty table, `root` becomes a tree whose internal nodes have two children and weigh their sum, whose leaves hold each key once with its count, and whose weight is the sum of all counts; it is a single leaf exactly for a one-entry table |
| CodeTable.MakingCodes | backend/Huffman.cpp:58-65 | each letter of the subtree is mapped to `code` followed by a path from the node to a leaf holding that letter; other entries are kept; from the root with `""` the result maps exactly the tree's letters to their leaf paths |
| CodeTable.CodesCompose | backend/Huffman.cpp:63-64 | the zero subtree's entries followed by the one subtree's entries are the parent's entries |
| CodeTable.CodesLeaf | backend/Huffman.cpp:60-62 | at a leaf, exactly its letter gets the accumulated path |
| CodeTable.ReverseCodes | backend/Huffman.cpp:89-96 | exactly the paths from the node to a leaf, prefixed by `code`, become keys, each mapped to its leaf's letter; other entries are kept; from the root with `""` the result is the tree's reverse table |
| CodeTable.ReverseCompose | backend/Huffman.cpp:94-95 | a path below an internal node goes through exactly one child, so the two recursive calls together give the node's entries |
| CodeTable.ReverseLeaf | backend/Huffman.cpp:91-93 | at a leaf, exactly the accumulated path is added, mapped to the leaf's letter |
| CodeTable.LeafPathsPrefixFree | backend/Huffman.cpp:58-65 | a path that reaches a leaf is not a proper prefix of another path that reaches a leaf |
| CodeTable.DecodeTableIsPrefixFree | backend/Huffman.cpp:89-96 | no key of the reverse table is a proper prefix of another |
| CodeTable.CodesArePrefixFree | backend/Huffman.cpp:58-65 | no letter's code is a prefix of a different letter's code |
| CodeTable.CodesAreNonEmpty | backend/Huffman.cpp:58-65 | when the root is internal (two or more leaves) every code has at least one bit |
| CodeTable.SingleLeafCode | backend/Huffman.cpp:58-65 | a tree that is a single leaf gives its letter the empty code |
| CodeTable.ReverseInvertsCodes | backend/Huffman.cpp:89-96 | the reverse table maps every letter's code back to that letter |
| CodeTable.CodesInvertReverse | backend/Huffman.cpp:58-65 | when each letter occurs once, the forward table maps every reverse entry's letter back to that entry's code, so the two tables are exact inverses |
| CodeTable.StartedReverseTable | backend/Huffman.cpp:89-96 | a reverse table derived from a start prefix has as keys exactly the prefix followed by a leaf path, maps each to its leaf's letter, and is prefix-free |
| CodeTable.StartedCodesNonEmpty | backend/Huffman.cpp:58-65 | with the corrected start prefix every code has at least one bit, whatever the tree |
| CodeTable.StartedSingleLeafCode | backend/Huffman.cpp:58-65 | with the corrected start prefix a single-leaf tree gives its letter the code `"0"` |
| TreeCodec.EncodeTree | backend/Huffman.cpp:67-71 | `encodeTree`: a description is never empty and starts with `'1'` exactly when it describes a leaf (a null pointer is written `"0"`), which is what lets the parser tell leaves from internal nodes |
| TreeCodec.EncodeTreeLength | backend/Huffman.cpp:67-71 | the header of a full tree has two characters per leaf plus one per internal node |
| TreeCodec.DecodeTree | backend/Huffman.cpp:73-82 | past the end it yields null and leaves the index; otherwise it yields a node and moves the index forward, by at most one past the end |
| TreeCodec.DecodedIsUnweighted | backend/Huffman.cpp:73-82 | every tree the parser builds has zero weights and `'\0'` at its internal nodes |
| TreeCodec.DecodeDescribed | backend/Huffman.cpp:73-82 | parsing a tree described from `index` on rebuilds it with zero weights and leaves the index just past its description |
| TreeCodec.DecodeEncodeTree | backend/Huffman.cpp:67-82 | header round trip: wherever the header of a built tree starts and whatever follows it, parsing rebuilds the same shape and leaf letters with zero weights and leaves the index just past the header |
| TreeCodec.ReconstructFromHeader | backend/Huffman.cpp:84-87 | `reconstruct_tree` on a header line written by `compress` rebuilds the tree's shape and letters |
| TreeCodec.TruncatedHeaderGivesLeaf | backend/Huffman.cpp:73-82 | a header cut short is accepted: the header `"0"` rebuilds a leaf holding `'\0'` |
| TreeCodec.StripKeepsLeaves | backend/Huffman.cpp:77-81 | dropping weights moves no leaf: the rebuilt tree has the same leaf paths holding the same letters |
| Engine.Huffman.ReconstructTree | backend/Huffman.cpp:84-87 | `root` becomes the tree parsed from the header's first character |
| Decoder.DecodeBits | backend/Huffman.cpp:188-199 | the nested loop over chunks and bits writes what greedy matching of all the bits run together writes, however storage splits them into chunks |
| Decoder.GreedyReadsCode | backend/Huffman.cpp:190-196 | when no shorter prefix of a code is a key, accumulating its bits writes its byte once and clears the accumulator |
| Decoder.GreedyDecodesCodes | backend/Huffman.cpp:188-199 | over a prefix-free table, greedy matching of non-empty codes run together writes exactly each code's byte, in order |
| Decoder.GreedyDropsTail | backend/Huffman.cpp:188-199 | bits left in the accumulator that never complete a key are dropped: nothing more is written and no error is raised |
| Decoder.GreedyDecodesCodesThenTail | backend/Huffman.cpp:188-199 | codes run together and followed by bits no prefix of which is a key (padding, say) decode to exactly the codes' bytes, in order |
| Engine.CodeEach | backend/Huffman.cpp:119-121 | the `insert` loop hands over the code of each byte of the content, in order |
| Engine.CodesCoverContent | backend/Huffman.cpp:119-121 | every byte of the content has an entry in the code table, so `huffmanCodes[c]` never creates one |
| Engine.CodedContent | backend/Huffman.cpp:107-121 | handing over each byte's entry of the tree's code table, after the header, is a compression of the content |
| Engine.Huffman.Compress | backend/Huffman.cpp:98-127 | empty content returns with nothing written and `root` untouched; otherwise the counts are the content's, the tree is a coding tree for them, the header is its description plus `'\n'`, one code per byte leads to that byte's leaf, the root's weight equals the content's length, and `root` is null afterwards |
| Engine.Huffman.Decompress | backend/Huffman.cpp:170-206 | `root` is the tree parsed from the header, the table is its reverse table, and the output is greedy matching of the stored bits against it |
| Engine.CompressThenDecompress | backend/Huffman.cpp:98-206 | for content with at least two distinct bytes, decompressing what `compress` stored, in any chunking, gives back the content |
| Engine.SingleSymbolLost | backend/Huffman.cpp:98-206 | as written, content with exactly one distinct byte is non-empty but decompresses to nothing |
| Engine.StartedCoverContent | backend/Huffman.cpp:119-121 | with the corrected start prefix every byte of the content still has a code |
| Engine.Huffman.CompressCorrected | backend/Huffman.cpp:98-127 | `compress` with the corrected start prefix: each code is the prefix followed by the path to the byte's leaf; all else as in `Compress` |
| Engine.Huffman.DecompressCorrected | backend/Huffman.cpp:170-206 | `decompress` with the reverse table derived from the same corrected start prefix |
| Engine.CorrectedRoundTrip | backend/Huffman.cpp:98-206 | with the corrected start prefix, decompressing what `compress` stored gives back any content, one distinct byte included |

## Left out

- File I/O is not modelled: `inFiles`, opening and closing files, the failure paths `return` and `return false` when a file cannot be opened, and writing the output bytes. Content is passed in and output returned.
- The `Storage` class is not part of this model: `setHeader`, `insert`, `extract`, `getHeader`, bit packing and padding. `compress` returns what it would hand over. `decompress` takes the header and the chunks `extract` would yield.
- The header's `'\n'` terminator: the model appends it and lets the parser ignore what follows the description. How storage frames the header line is not modelled.
- Console messages, `deleteTree` and the destructor (manual memory management; the tree is an immutable value here), `backend/main.cpp`, and `frontend/app.py`.
- `Engine.Huffman.BuildTree`: the table's iteration order and `std::priority_queue`'s tie-break are not modelled. Keys are pushed in an unspecified order, and among the lightest nodes the first in queue order is popped. The contract holds for any choice, but the exact tree shape under ties is not determined.
- `Engine.Huffman.BuildTree`: the optimality of the code lengths is not stated. The source neither states nor checks it.
- `Frequency.FrequencyTable`: counts and weights are unbounded integers. The source's `int` would overflow past 2^31 - 1 occurrences.
- `CodeTable.MakingCodes`: when two leaves hold the same letter (possible only in a tree parsed from a crafted header), the contract does not say which path the later overwrite leaves. Trees built by `buildTree` have distinct letters.
- Byte signedness: the source keys its maps by `char`, which may be signed. The model uses the character codes 0–255 instead, a one-to-one renaming that changes no table lookup.

## Findings

| source | as written | input that shows it | evidently intended | confidence | as-written member | corrected member |
|---|---|---|---|---|---|---|
| backend/Huffman.cpp:58-65 | when the content has one distinct byte the tree is a single leaf and `making_codes` gives it the empty code, so `compress` stores no bits and `decompress` writes nothing | content `"zzzz"` | every byte gets a code of at least one bit (for a single-leaf tree the code `"0"`), so `"zzzz"` decompresses to `"zzzz"` | high (proved on the model; not executed) | Engine.SingleSymbolLost | Engine.CorrectedRoundTrip |
