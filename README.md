# Huffman coding tree, modelled and verified in Dafny

This project models the Huffman coder of the repository: the `CodingTree`
class (`src/CodingTree.java`) and its node type `TreeNode`
(`src/TreeNode.java`). It also models the sequence the driver in
`src/Main.java` runs: build the tree for a message, then decode the bits
with the code table.

A `CodingTree` is built from a message in four steps:

1. it counts each character;
2. it builds a Huffman tree by repeatedly joining the two least frequent
   nodes of a priority queue;
3. it derives the code table, where '0' means left and '1' means right;
4. it encodes the message with that table.

`decode` throws the tree away and rebuilds one from a code table. It then
walks the new tree bit by bit and emits a character at every node that lacks
a child, or where the bits end.

## Modules

| file | module | models |
|---|---|---|
| `tree_node.dfy` | `TreeNodes` | `TreeNode` as a datatype, where `Nil` is the null reference; the five constructors; `compareTo` in 32-bit arithmetic; paths through a tree |
| `frequencies.dfy` | `Frequencies` | the count table of a message; the table built one character at a time; sums over tables |
| `node_queue.dfy` | `NodeQueue` | the `PriorityQueue<TreeNode>` as a sequence whose order means nothing; `poll` removes some node of least frequency |
| `code_table.dfy` | `CodeTable` | the code table of a tree (`createCodeMap`); encoding (`createStringBits`), including `codes.get` returning null |
| `reconstruction.dfy` | `Reconstruction` | `reconstructTree` on one code, and on a whole table in key-set order |
| `decoding.dfy` | `Decoding` | the bit walk of `createText`; the encode/decode round trip over a tree |
| `coding_tree.dfy` | `Coding` | the `CodingTree` class with its four fields and its methods, proved against the functions above; the driver's round trip |

The Java class's constructor and its methods `countFrequency`, `buildTree`,
`createCodeMap`, `createStringBits`, `decode`, the one-argument
`reconstructTree` and `createText` are methods of the Dafny class
`CodingTree`, with the same loops and branches. The three-argument
`reconstructTree` only recurses on its node argument and returns it, so it
is the function `Reconstruction.ReconstructPath` on tree values. The
accessors `getMap` and `getTree` are left out. Each method's contract ties
the new state to a function of the old state:

- `CountFrequency` gives `frequencies == Merge(old(frequencies), Counts(message))`.
- `CreateCodeMap` adds `CodesOf(overallRoot, "")` to `codes`.
- `ReconstructTree` sets `overallRoot` to `InsertAll(codes, order, old(overallRoot))`.

The properties the code promises are proved as lemmas about those functions.

`HashMap.keySet()` iteration and `PriorityQueue.poll()` among equal
frequencies have no defined order. The model picks an arbitrary key or an
arbitrary minimum (`:|`), so every property holds whatever the Java library
chooses. The key order a loop used is exposed as a ghost `order`.

## Model

| member | source | states |
|---|---|---|
| `TreeNodes.Internal` | src/TreeNode.java:27-29 | the node is labelled '\0' and holds exactly the given frequency and children; with two complete children it is complete, its leaves are the left leaves followed by the right leaves, and with a summed frequency it is an inner node carrying the sum of its children |
| `TreeNodes.Leaf` | src/TreeNode.java:34-36 | the node has no children, holds the given character and frequency, and is a complete tree whose only leaf is that character |
| `TreeNodes.WithFrequency` | src/TreeNode.java:41-43 | the node has no children, is labelled '\0' and holds the given frequency |
| `TreeNodes.Empty` | src/TreeNode.java:48-50 | the node has no children, is labelled '\0' and has frequency 0; reconstruction creates this node on demand |
| `TreeNodes.CompareTo` | src/TreeNode.java:65-67 | the 32-bit difference of the frequencies; for non-negative frequencies it is negative, zero or positive exactly when this frequency is less than, equal to or greater than the other |
| `TreeNodes.CompareToAntisymmetric` | src/TreeNode.java:65-67 | on non-negative int frequencies, `a.compareTo(b) == -b.compareTo(a)` |
| `TreeNodes.CompareToOverflows` | src/TreeNode.java:65-67 | without non-negativity the subtraction wraps: a node of frequency -2^31 compares greater than one of frequency 1 |
| `Frequencies.TallyMerges` | src/CodingTree.java:35-46 | counting the characters one at a time, creating an entry at 1 or bumping an existing one, adds the message's count table to the starting table |
| `Frequencies.TotalCounts` | src/CodingTree.java:35-46 | the counts of a message add up to its length |
| `Frequencies.TwoDistinctCounts` | src/CodingTree.java:57-67 | a message has two different characters exactly when its count table has at least two entries |
| `Coding.CodingTree.CountFrequency` | src/CodingTree.java:35-46 | the new table is the old one with the message's counts added; the other fields are unchanged |
| `NodeQueue.PollMin` | src/CodingTree.java:59-61 | removes one node of least frequency from a non-empty queue; the rest keeps every other node, with their frequencies and leaves |
| `NodeQueue.SumFreqBound` | src/CodingTree.java:53-65 | in a queue of non-negative nodes, no node weighs more than the queue's total |
| `Coding.BuiltNonNegative` | src/CodingTree.java:58-65 | a node built from non-negative counts, by joining nodes under sums, has a non-negative frequency |
| `Coding.PollOrderIsCompareTo` | src/TreeNode.java:65-67 | during the joining loop every queued node has an int frequency, and `a.compareTo(b) <= 0` exactly when a's frequency is at most b's, so the queue's `compareTo` order is the frequency order `PollMin` uses |
| `NodeQueue.Offer` | src/CodingTree.java:55 | offering a node adds its frequency and its leaves to those of the queue |
| `Coding.FillStep` | src/CodingTree.java:54-56 | offering the leaf of one more key keeps the first loop's invariant: each key offered exactly once, with the counts moved from the keys still to offer into the queue |
| `Coding.JoinStep` | src/CodingTree.java:58-65 | joining the two polled nodes under a new inner node keeps the second loop's invariant: the queue holds every key once as a leaf and the total count |
| `Coding.LastStep` | src/CodingTree.java:58-66 | polling the last node leaves the last joined node as a tree over all keys that weighs the total count |
| `Coding.CodingTree.BuildTree` | src/CodingTree.java:52-68 | the result is null exactly when fewer than two characters were counted, which `Frequencies.TwoDistinctCounts` ties to the message lacking two different characters; otherwise it is a complete tree with at least two leaves, each counted character on exactly one leaf with its count, inner nodes carrying the sum of their children, and a root weighing the total count |
| `CodeTable.CodesOf` | src/CodingTree.java:80-87 | the table has an entry for exactly the leaf characters of the tree |
| `CodeTable.CodePath` | src/CodingTree.java:80-87 | each entry extends the code given so far with a bit string that leads from the node to the leaf holding the entry's character; below an inner node the entry is strictly longer |
| `CodeTable.CodeTableSound` | src/CodingTree.java:73-87 | the table of a tree with at least two leaves has, for each leaf character, a non-empty bit string leading to its leaf, and no code is a prefix of another |
| `CodeTable.DecodesPrefixFree` | src/CodingTree.java:80-87 | any table whose codes lead to leaves holding their characters is prefix-free |
| `CodeTable.CodeTableSplits` | src/CodingTree.java:80-87 | in a tree without repeated leaves, some code starts with '0' and some with '1' (so some code starts with a character other than '0') |
| `Coding.CodingTree.CreateCodeMap` | src/CodingTree.java:73-75 | the table gains the codes of every leaf of the tree; the other fields are unchanged |
| `Coding.CodingTree.CreateCodeMapFrom` | src/CodingTree.java:80-87 | the table gains, for each leaf below the given node, its path written after the given code |
| `Coding.TableCoversMessage` | src/CodingTree.java:22-29 | when the tree's leaves are the counted characters, the table has a code for exactly the characters of the message |
| `CodeTable.EncodeSnoc` | src/CodingTree.java:93-99 | appending a character to the message appends that character's code, or "null" when the table has none |
| `CodeTable.EncodeLength` | src/CodingTree.java:93-99 | the length of the bits is the sum over the distinct characters of count times code length |
| `Coding.CodingTree.CreateStringBits` | src/CodingTree.java:93-99 | the result is the codes of the message's characters in message order |
| `Coding.CodingTree.constructor` | src/CodingTree.java:22-29 | for a message with two different characters: the frequencies are the message's counts; the root is a complete tree whose inner nodes are labelled '\0' and carry the sum of their children, with each character on exactly one leaf, weighing the message length; the codes are that tree's table; the bits are the message encoded with it |
| `Reconstruction.ReconstructPath` | src/CodingTree.java:126-138 | the result is a node; following the code from it reaches a node holding the character; the root gains a left child exactly when the code starts with '0' and a right child exactly when it starts with another character, and keeps a child on each side where it had one |
| `Reconstruction.ReconstructOverwrites` | src/CodingTree.java:130-131 | a code that ends at an existing node overwrites that node's character without any conflict check |
| `Reconstruction.ReconstructExtendsThrough` | src/CodingTree.java:132-136 | a code that runs through an existing node keeps that node's character but gives it a child, so it stops being a leaf |
| `Reconstruction.InsertKeepsOtherPaths` | src/CodingTree.java:126-138 | inserting a code leaves alone every path that is neither a prefix of it nor an extension of it |
| `Reconstruction.ReconstructFindsCodes` | src/CodingTree.java:116-121 | after a prefix-free table of bit strings is inserted, in any order and into any tree, each code leads from the root to a node holding its character |
| `Reconstruction.InsertAllChildren` | src/CodingTree.java:116-138 | the rebuilt root has a left child exactly when some code starts with '0', and a right child exactly when some code starts with another character |
| `Reconstruction.ReconstructsSkeleton` | src/CodingTree.java:116-138 | rebuilding from the table of a complete tree without repeated leaves whose inner nodes are labelled '\0', in any key order, gives back that tree's shape and characters, with every frequency 0 |
| `Coding.CodingTree.ReconstructTree` | src/CodingTree.java:116-121 | the root becomes the old root with every code of the table inserted, in an order that lists each key once |
| `Decoding.Descend` | src/CodingTree.java:150-157 | the inner loop stops at a node, at or past its start and within the bits; it stops either at the end of the bits or at a node lacking a child, and a node with both children always consumes a bit |
| `Decoding.Text` | src/CodingTree.java:144-161 | the text has at most one character per remaining bit, and it is empty when there are no bits left or no root |
| `Decoding.DescendSkipsOtherBits` | src/CodingTree.java:151-156 | a character other than '0' and '1' consumes one step and moves nowhere |
| `Decoding.TruncatedPathEmitsInnerNode` | src/CodingTree.java:150-158 | for a complete tree with at least two leaves whose inner nodes are labelled '\0' and carry the sum of their children, the encoding of any message over its leaves followed by a non-empty part of a code that ends at an inner node decodes to the message followed by that inner node's '\0', instead of failing |
| `Coding.PartialTableEmitsInnerNode` | src/CodingTree.java:116-161 | a prefix-free table that is not the table of a full tree is accepted: with codes a = "0" and b = "10", the bits "010" decode to "a", '\0', "a" |
| `Decoding.TextSkeleton` | src/CodingTree.java:144-161 | decoding with a tree or with its zero-frequency skeleton gives the same text for all bits |
| `Decoding.EncodeDecode` | src/CodingTree.java:93-99 | for a complete tree with two or more leaves, decoding the encoding of a message over its leaves gives the message back, with the tree and with its skeleton |
| `Coding.CodingTree.CreateText` | src/CodingTree.java:144-161 | the two nested loops compute the text the bit walk defines |
| `Coding.CodingTree.Decode` | src/CodingTree.java:107-111 | the root is rebuilt from nothing with the table's codes, in some key order; the result is the text of the bits in that tree; the walk ends when the bits or the table are empty or some code starts with '0' and some with another character; the bits, codes and frequencies fields are unchanged |
| `Coding.RoundTrip` | src/Main.java:29-59 | for a message with two different characters, decoding the object's bits with its own code table returns the message |

## Left out

- `src/Main.java` is modelled only as the encode-then-decode sequence of lines 29 and 59. Its file reading and writing, timing, statistics and debug printers are I/O. So is its byte packer, which relies on `Integer.parseInt`.
- `TreeNode.toString`, `getMap` and `getTree` are debug accessors with no logic.
- The iteration order of `HashMap` and the tie-breaking of `PriorityQueue` are left open, as the Java library leaves them. The model chooses nondeterministically, and no property depends on the choice.
- Optimality of the Huffman code (minimal weighted code length) is not proved. The code does not claim it. The contracts of `Coding.CodingTree.BuildTree` and the constructor do not record the greedy choice either: any pairing order gives a tree with the properties they state. The choice of a least-frequency node is stated only by `NodeQueue.PollMin`.
- `reconstructTree` mutates `TreeNode` objects in place. The model works on tree values instead. This is faithful because the rebuilt tree is reachable only from `overallRoot`, which `decode` first sets to null. Aliasing between nodes is not modelled.
- A Java `char` is a UTF-16 code unit, while a Dafny `char` is a Unicode scalar value. Surrogate code units, paired or lone, are not modelled: in Java a character outside the Basic Multilingual Plane is two `char`s, each counted and coded on its own, while the model would treat it as one character.
- Frequencies and their sums are unbounded integers. A Java `String` has fewer than 2^31 characters, so no count or sum overflows an `int`. `compareTo` is the only place where 32-bit wrap-around is written out, and `Coding.PollOrderIsCompareTo` shows that it never wraps on the nodes the queue holds.
- `Coding.CodingTree.constructor` requires two different characters in the message. With fewer, `buildTree` returns null and `createCodeMap` throws a `NullPointerException`. That exception is not modelled as a result value.
- `Coding.CodingTree.CreateText` requires the bits to be empty, the root to be null, or the root to have both children. Otherwise the outer loop appends the root's character forever without consuming a bit. The Java method never returns a result and fails with an `OutOfMemoryError`.
- `Coding.CodingTree.Decode` states the same condition on the table (empty bits, an empty table, or codes starting on both sides).
- The code performs no validation when decoding. An unknown character, a conflicting code and bits ending in the middle of a code all produce a result rather than an error, and the model follows this. An unknown character encodes as "null". A conflicting code overwrites or extends a node, as in `Reconstruction.ReconstructOverwrites` and `Reconstruction.ReconstructExtendsThrough`. Bits ending inside a code emit the inner node's character, as in `Decoding.TruncatedPathEmitsInnerNode`. A prefix-free table that is not the table of a full tree emits '\0' in the middle of the text, as in `Coding.PartialTableEmitsInnerNode`.
