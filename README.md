# Huffman code tree, modelled in Dafny

This project models `HuffmanCode.java`, a Huffman prefix-code tree. The Java class holds one
`root` reference to a tree of `HuffmanNode`s. The tree is made in one of two ways:

- greedily from an array of symbol frequencies, merging the two lightest nodes of a priority
  queue until one is left;
- from a saved code table of (symbol, code) records, one `insertCode` per record.

The class writes the tree back out as such a table (`save`). It also decodes a bit stream
by walking the tree with a cursor (`translate`).

Modules, in dependency order:

- `HuffmanNode` (`huffman_node.dfy`): the node as a datatype `Tree = Nil | Node(value, weight, left, right)`.
  `Nil` is Java's `null`, so one-child nodes, which the table constructor can create, are representable.
  The module also has `isLeaf`, `compareTo`, the leaves in left-to-right order, the "no one-child node"
  shape `Full`, and `At`, the node a '0'/'1' path reaches.
- `Build` (`build.dfy`): the model of the greedy construction. It covers the queue contents,
  the first-lightest choice (`IndexOfMin`), one round of the merge loop (`GreedyRound`), a run of
  rounds (`GreedyTrace`), and what every merged node satisfies.
- `Table` (`table.dfy`): `insertCode`, the table constructor as a fold (`Restore`), and `save`.
- `TableProperties` (`table_properties.dfy`): what `insertCode` changes and keeps, prefix-freedom
  of saved codes, and the save/restore round trip.
- `Decoding` (`decode.dfy`): the `translate` automaton as a function, and its round trip with the saved codes.
- `Code` (`huffman_code.dfy`): the class `HuffmanCode` with field `root`, the two constructors
  (the Java loops, with their invariants) and `Translate`, a cursor loop proved to write the low bytes
  of what `Decode` computes. A ghost field `rounds` records the queue before each merge round.

Behaviour of the code worth knowing. All of it is modelled as written, except the null dereference,
which the model excludes:

- Ties: the code uses `java.util.PriorityQueue`, which fixes no order among nodes of equal weight.
  The model removes the first lightest node in queue order. Every property proved about a merge round
  and about the built tree (leaves, shape, weights, left child no heavier than the right, each child
  the lightest available) holds whichever equal-weight node is chosen.
- A code with a character other than '0'/'1' raises no error. `insertCode` stops at that character
  without storing the symbol, but it has already created a symbol-0 placeholder at each missing node
  of the '0'/'1' prefix before it (`TableProperties.InsertCodeStopsAtBadCharacter`). All of these but
  the last get one child, so the restored tree can have one-child nodes, on which `save` and
  `translate` fail. The last one is a leaf, which `save` writes as a record for symbol 0
  (`TableProperties.BadCodeExample`).
- A stream that ends part-way through a code raises no error either: `translate` drops the trailing
  bits (`Decoding.DecodeInternalPath`).
- A root that is a single leaf has null children. `translate` reads `curr.left` or `curr.right` of it
  and then calls `isLeaf()` on the null it got, as soon as one bit is read. The model excludes this
  case: `Translate` requires `Decodable(root)`.
- The table constructor starts from a placeholder node, so an empty table yields a leaf for symbol 0,
  not an empty tree, and saving it writes one record (`TableProperties.RestoreEmptyTable`).
- `translate` writes each symbol with `PrintStream.write`, which keeps only its low eight bits.

## Model

| member | source | states |
|---|---|---|
| `HuffmanNode.Tree.IsLeaf` | HuffmanEncodingProject/home/HuffmanCode.java:152-157 | a node is a leaf exactly when it is the only node of its subtree (no child on either side) |
| `HuffmanNode.Tree.CompareTo` | HuffmanEncodingProject/home/HuffmanCode.java:163-165 | the sign of the comparison orders nodes by weight: negative, zero, positive exactly when lighter, equal, heavier |
| `HuffmanNode.FullShape` | HuffmanEncodingProject/home/HuffmanCode.java:24-30 | a tree with no one-child node and n leaves has n - 1 internal nodes; if it is not a single leaf it has at least two leaves |
| `Build.PositiveCounts` | HuffmanEncodingProject/home/HuffmanCode.java:18-23 | the symbols that enter the queue are exactly the indices with a positive frequency, each once |
| `Build.ScanStep` | HuffmanEncodingProject/home/HuffmanCode.java:18-23 | scanning index i adds a leaf for symbol i weighing frequencies[i] at the end of the queue exactly when it is positive, keeping the queue's leaves and total weight in step with the scanned prefix |
| `Build.IndexOfMin` | HuffmanEncodingProject/home/HuffmanCode.java:25-26 | the node removed weighs no more than every node in the queue, compared by weight; it is the first such node in queue order |
| `Build.MergeBuilt` | HuffmanEncodingProject/home/HuffmanCode.java:28 | the merge of two built nodes, the lighter on the left, is built: it weighs the sum of its children and its leaves are theirs |
| `Build.QueueRemoveLeaves` | HuffmanEncodingProject/home/HuffmanCode.java:25-26 | remove() takes exactly the removed node's leaves out of the queue's multiset of leaves |
| `Build.QueueRemoveWeight` | HuffmanEncodingProject/home/HuffmanCode.java:25-26 | remove() takes exactly the removed node's weight out of the queue's total weight |
| `Build.MergeKeepsBuilt` | HuffmanEncodingProject/home/HuffmanCode.java:24-30 | after one round (two removals of the lightest, one merge added) every node of the queue is still built, the merge included: its left child, removed first, weighs no more than its right |
| `Build.MergeKeepsLeaves` | HuffmanEncodingProject/home/HuffmanCode.java:24-30 | one round leaves the queue's multiset of leaves unchanged |
| `Build.MergeKeepsWeight` | HuffmanEncodingProject/home/HuffmanCode.java:24-30 | one round leaves the queue's total weight unchanged |
| `Build.MergeStep` | HuffmanEncodingProject/home/HuffmanCode.java:24-30 | one round keeps the loop invariant: built nodes holding each positive index once and weighing the sum of the positive frequencies, and the queue shrinks by one |
| `Build.MergeIsGreedy` | HuffmanEncodingProject/home/HuffmanCode.java:25-29 | removing the lightest node, then the lightest of the rest, and adding their merge is a greedy round: the queue loses exactly those two nodes and gains a node for symbol 0 weighing their sum, whose left child weighs no more than any node of the queue and whose right child no more than any node left after the first removal |
| `Build.MergeLightest` | HuffmanEncodingProject/home/HuffmanCode.java:25-29 | the loop body (remove(), remove(), add the merge) keeps the loop invariant and performs a greedy round on the queue |
| `Build.TraceExtend` | HuffmanEncodingProject/home/HuffmanCode.java:24-30 | a run of greedy rounds followed by one more greedy round is a run of greedy rounds with the same first queue |
| `Build.MergeAll` | HuffmanEncodingProject/home/HuffmanCode.java:24-34 | the merge loop yields a root satisfying `GreedyRoot`, and the queues it passed through form a run of greedy rounds from the scanned queue down to the root alone, or to nothing for an empty queue |
| `Build.ScanDone` | HuffmanEncodingProject/home/HuffmanCode.java:18-24 | after the scan the queue is one leaf per positive index, in index order, so it holds each positive index once and weighs the sum of the positive frequencies |
| `Build.QueueDone` | HuffmanEncodingProject/home/HuffmanCode.java:32-34 | when at most one node is left, the root is null for no positive frequency; otherwise it satisfies everything `GreedyRoot` lists |
| `Build.GreedySymbols` | HuffmanEncodingProject/home/HuffmanCode.java:13-23 | the greedy root has exactly one leaf per index with a positive frequency and no other leaf |
| `Build.BuiltFull` | HuffmanEncodingProject/home/HuffmanCode.java:24-30 | a tree built by merging has no one-child node |
| `Build.BuiltLeaves` | HuffmanEncodingProject/home/HuffmanCode.java:24-30 | every merged tree has a leaf, and one that is not a leaf has at least two |
| `Build.BuiltWeight` | HuffmanEncodingProject/home/HuffmanCode.java:19-29 | a built tree weighs the sum of the frequencies of its leaves |
| `Code.HuffmanCode.FromFrequencies` | HuffmanEncodingProject/home/HuffmanCode.java:16-35 | root is null exactly when no frequency is positive, and a single leaf when exactly one is. Otherwise it holds each positive index once as a leaf, has no one-child node, has n - 1 internal nodes, weighs the sum of the positive frequencies, and every merge is a sum with the lighter child on the left. The ghost trace `rounds` starts at the queue of one leaf per positive index, every step of it is a greedy round, and it ends with the root alone (or nothing) |
| `Table.InsertCode` | HuffmanEncodingProject/home/HuffmanCode.java:55-58 | the result is never null: a null slot is replaced by a fresh node |
| `TableProperties.InsertCodeStores` | HuffmanEncodingProject/home/HuffmanCode.java:59-66 | after inserting a '0'/'1' code the node it reaches holds the symbol; an existing node there keeps its children and weight, and its earlier symbol is overwritten without notice |
| `TableProperties.InsertCodeFrame` | HuffmanEncodingProject/home/HuffmanCode.java:55-70 | every path that is not a prefix of the inserted code reaches the same subtree as before |
| `TableProperties.InsertCodeReuses` | HuffmanEncodingProject/home/HuffmanCode.java:62-66 | nodes that already existed on the code's path are reused: they keep their symbol and weight |
| `TableProperties.InsertCodeIgnoresBadCode` | HuffmanEncodingProject/home/HuffmanCode.java:62-67 | a code containing a character other than '0'/'1' stores no symbol: the result is the same whatever the symbol |
| `TableProperties.InsertCodeStopsAtBadCharacter` | HuffmanEncodingProject/home/HuffmanCode.java:55-67 | for a code made of a '0'/'1' prefix and then another character, the node the prefix reaches afterwards is the one that was there, or a new placeholder for symbol 0 where there was none |
| `TableProperties.BadCodeExample` | HuffmanEncodingProject/home/HuffmanCode.java:40-93 | the table {5: "0x", 6: "1"} restores to a root whose left child is a placeholder leaf, and saves back as {0: "0", 6: "1"} |
| `Code.HuffmanCode.FromTable` | HuffmanEncodingProject/home/HuffmanCode.java:40-47 | the root is the placeholder node with every record inserted in order |
| `Table.SaveFrom` | HuffmanEncodingProject/home/HuffmanCode.java:85-93 | one record per leaf below the node, in left-to-right order, each code extending the code of the node, and the codes in tree order (each earlier code branches left where each later one branches right) |
| `Table.SaveReachesLeaf` | HuffmanEncodingProject/home/HuffmanCode.java:85-93 | the code of each record, past the node's own code, is a '0'/'1' path that leads to a leaf holding that record's symbol |
| `Table.LeftThenRight` | HuffmanEncodingProject/home/HuffmanCode.java:89-92 | the records of the left subtree (codes extending code + "0") followed by those of the right subtree (codes extending code + "1") are in tree order when each part is |
| `Table.Save` | HuffmanEncodingProject/home/HuffmanCode.java:74-93 | nothing for a null root; otherwise one record per leaf, whose code is the '0'/'1' path from the root to a leaf holding its symbol; the records are in left-to-right leaf order, since for i < j the codes of records i and j agree up to a position where record i's goes '0' and record j's goes '1', even when leaves share a symbol; a single-leaf root gives one record with the empty code |
| `TableProperties.SaveFromPrefixFree` | HuffmanEncodingProject/home/HuffmanCode.java:85-93 | no code written for a subtree is a prefix of another |
| `TableProperties.SavePrefixFree` | HuffmanEncodingProject/home/HuffmanCode.java:74-93 | the saved table is a prefix code |
| `TableProperties.SaveFromShift` | HuffmanEncodingProject/home/HuffmanCode.java:85-93 | the codes written below a node are that node's path followed by the codes of the subtree on its own |
| `TableProperties.InsertAllSaved` | HuffmanEncodingProject/home/HuffmanCode.java:40-70 | inserting the records of a saved subtree into a null slot or a fresh placeholder rebuilds that subtree, weights and internal symbols reset to 0 |
| `TableProperties.SaveRestore` | HuffmanEncodingProject/home/HuffmanCode.java:40-93 | restoring the saved table of a non-empty tree without one-child nodes gives the same tree up to weights; saving it again writes the identical table |
| `TableProperties.RestoreEmptyTable` | HuffmanEncodingProject/home/HuffmanCode.java:40-47 | an empty table restores to a leaf for symbol 0, which saves as one record, not to an empty tree |
| `Decoding.LowBytes` | HuffmanEncodingProject/home/HuffmanCode.java:110 | one byte per symbol, each below 256, equal to the symbol when the symbol is below 256 |
| `Decoding.LowBytesCons` | HuffmanEncodingProject/home/HuffmanCode.java:110 | writing a symbol and then a run writes the symbol's low byte and then the run's bytes |
| `Code.HuffmanCode.Translate` | HuffmanEncodingProject/home/HuffmanCode.java:100-114 | the cursor loop writes exactly the low bytes of what `Decode` computes for the bits |
| `Decoding.DecodeLeafPath` | HuffmanEncodingProject/home/HuffmanCode.java:102-112 | following a path to a leaf emits that leaf's symbol, and decoding resumes from the root |
| `Decoding.DecodeInternalPath` | HuffmanEncodingProject/home/HuffmanCode.java:102-113 | bits that end on an internal node emit nothing and raise no error |
| `Decoding.DecodeEncodeCodes` | HuffmanEncodingProject/home/HuffmanCode.java:100-114 | for any table whose codes are paths to leaves holding their symbols, the codes of s1..sk, concatenated and followed by any bits that stop mid-tree, decode to exactly s1..sk |
| `Decoding.DecodeEncode` | HuffmanEncodingProject/home/HuffmanCode.java:100-114 | the saved codes of s1..sk, concatenated and followed by any bits that stop mid-tree, decode to exactly s1..sk |
| `Decoding.DecodeFromStrip` | HuffmanEncodingProject/home/HuffmanCode.java:100-114 | decoding depends only on the shape and the leaf symbols, not on weights or internal symbols |
| `Decoding.RestoredDecodesAlike` | HuffmanEncodingProject/home/HuffmanCode.java:40-47 | the tree restored from a saved table decodes every bit stream exactly as the saved tree |
| `Decoding.DecodeExample` | HuffmanEncodingProject/home/HuffmanCode.java:100-114 | the table {0: "0", 1: "10", 2: "11"} decodes 0 10 11 0 to 0, 1, 2, 0, and a lone 1 to nothing |

## Left out

- `Scanner`, `Integer.parseInt`, `PrintStream` and `BitInputStream` are I/O and library calls. The table
  arrives as a parsed `seq<Entry>`, `save` returns its records, and `translate` takes a `seq<int>` of
  bits and returns the bytes written.
- Java `int` overflow in `left.frequency + right.frequency` and in the subtraction of `compareTo` is not
  modelled: weights are unbounded integers.
- The `(char)` casts: symbols are naturals, and the constructors require them below 65536, so the casts
  never truncate. A negative symbol in a table line is excluded, not wrapped. The truncation that does
  happen, to eight bits in `output.write`, is modelled by `LowBytes`.
- The exact tie order of `java.util.PriorityQueue`: the model takes the first lightest node and proves only
  facts that hold for any choice among equal weights.
- Update in place: `insertCode` writes `node.left`, `node.right` and `node.value` of objects. The model
  rebuilds the path as values. No node is shared between parents, so no aliasing is lost.
- Code.HuffmanCode.FromFrequencies: optimality of the greedy tree (least total weighted code length)
  is not stated or proved; the contract states that every round merges the two lightest nodes, which
  is the construction, not its optimality.
- Code.HuffmanCode.Translate: a single-leaf root, a null root, or a one-child node can make `translate`
  dereference null, which the model does not represent, so `Translate` requires `Decodable(root)`.
  That also excludes runs that Java completes normally: an empty stream on any such root, and a stream
  that never takes a missing branch of a one-child node. `Save` requires `Full(root)` for the same
  reason in `save`.
