# Othello opening book: game tree and serializer

This project models the two pure parts of the opening-book builder for
Othello:

- **The game-tree builder** (`src/tree.rs`). It reads game records of 64 bytes
  each: 60 move codes, two unused bytes, the black disc count and the white
  disc count. Each record's moves are walked down a prefix tree from the root,
  one move per turn. Every visited node takes the record's disc differential
  into a running average score and bumps a play counter. The walk stops at the
  end-of-game code `0xff` and at a turn limit. A move seen for the first time
  creates a child, and its code is appended to the node's insertion-order key
  list (`play_keys`), which is kept apart from the key-to-child map.
- **The opening-book serializer** (`src/opening.rs`). It works in two passes.
  Pass 1 pops nodes from a queue in breadth-first order. Each child gets the
  next block id, each block gets size `8 + 24·children`, and each block's
  address is the running total of the sizes before it, which is also pushed
  onto the address table `addr_map`. Pass 2 writes every block: its size as a
  big-endian u64, then one 24-byte entry per child. An entry holds the move as
  a u64, the score as eight bytes, and `addr_map[block id]`.

Modules, one per file:

- `Tree`: the node datatype, record parsing, the insertion `AddPlay2`/`AddPlay`,
  and `Build`, which folds the records into a fresh root.
- `TreeProperties`: structural invariants of the tree, the frame property, and
  the averaging invariant (every node's score is the mean of the differentials
  of the records that reached it).
- `Opening`: the serializer's data, pass 1 as a fold over a queue (`Discover`),
  and pass 2 as byte strings (`Pass2`, `Serialize`).
- `OpeningProperties`: breadth-first order and its reference definition
  (level order), one block per node, the block-id/position correspondence, and
  size and address arithmetic.
- `Bytes`: a big-endian reader that serves as the inverse of the writer, and
  placement of byte strings inside longer ones.
- `Book`: where every block, header and entry field lands in the written
  bytes; what each child pointer holds as written; and the corrected lookup.

Scores are `real` and play counts are `nat`. The turn limit is a parameter
`maxTurns`, and the builder's own constant is `MAX_TURNS = 20`. The encoding of
a score into eight bytes is a parameter `real -> Word`.

## Model

| member | source | states |
|---|---|---|
| Tree.New | src/tree.rs:15-23 | A fresh node satisfies all three tree invariants: well formed, no end-of-game child, and within the depth bound even when it sits at the turn limit. |
| Tree.ReadBuf | src/tree.rs:78-88 | The moves are bytes 0..60, black is byte 62 and white is byte 63. A buffer shorter than one record is outside the domain, because indexing panics there. |
| Tree.Differential | src/tree.rs:27 | The score of a record lies in [-255, 255]. It is zero exactly when the counts are equal, and positive exactly when black has more discs. |
| Tree.AddPlay2 | src/tree.rs:30-70 | At or past the turn limit, or with no moves left, the node is unchanged. Otherwise child keys only grow, by at most one. A new key is appended to the key list exactly when its child was absent. The play count grows by at most one. |
| Tree.AddPlay | src/tree.rs:25-29 | With a positive turn limit, inserting a record adds exactly one play at the root. |
| Tree.Build | src/main.rs:47-62 | With a positive turn limit, the root's play count is the number of records read. |
| TreeProperties.ReadBufLayout | src/tree.rs:78-88 | Bytes 60 and 61, and anything after byte 63, do not affect the parsed record. |
| TreeProperties.WellFormedInsert | src/tree.rs:55-61 | Inserting an absent key with a new child and appending the key keeps the key list duplicate-free and equal, as a set, to the map's keys. |
| TreeProperties.WellFormedReplace | src/tree.rs:62-66 | Replacing the child of a present key, with the key list unchanged, keeps the node well formed. |
| TreeProperties.AddPlay2WellFormed | src/tree.rs:53-66 | One insertion preserves, at every node: the key list is duplicate-free and lists exactly the child map's keys. |
| TreeProperties.AddPlay2NoSentinel | src/tree.rs:48-51 | No insertion ever creates a child under the end-of-game code 0xff. |
| TreeProperties.AddPlay2Bounded | src/tree.rs:33-36 | One insertion preserves the depth bound: nothing lies deeper than the turn limit, and nodes at the limit stay fresh. |
| TreeProperties.BuildInvariants | src/main.rs:47-62 | Every tree built from records is well formed, has no end-of-game child, and is bounded by the turn limit. |
| TreeProperties.BoundedDepth | src/tree.rs:33-36 | In a bounded tree, every reachable node lies at most `maxTurns` moves deep. Nodes exactly at that depth are fresh: no children, zero plays and zero score. |
| TreeProperties.FreshStatistics | src/tree.rs:15-22 | A fresh node reports zero plays and zero score at every path, and has no node below it. |
| TreeProperties.OffPathChild | src/tree.rs:48-66 | A child whose key is not the current move (or any child when the move is 0xff) is untouched by the insertion. |
| TreeProperties.AddPlay2Frame | src/tree.rs:53-66 | Frame: every subtree the walk does not enter is exactly as it was before. |
| TreeProperties.AddPlay2Creates | src/tree.rs:53-61 | Every node on the walk's path exists after the insertion. |
| TreeProperties.AddPlay2Plays | src/tree.rs:45-46 | At every path, the play count grows by one if the walk updates that node, and otherwise stays the same. |
| TreeProperties.AddPlay2Scores | src/tree.rs:45 | At every path, the score becomes the running average with the record's score if the walk updates that node, and otherwise stays the same. |
| TreeProperties.AddPlay2Statistics | src/tree.rs:30-70 | Both statistics at once, for an arbitrary path. |
| TreeProperties.AddPlay2KeysGrow | src/tree.rs:59 | Key lists are append-only: at every existing node, the old key list is a prefix of the new one. |
| TreeProperties.AverageExtendsMean | src/tree.rs:45-46 | The running-average update of the mean of n scores with one more score gives the mean of the n+1 scores. |
| TreeProperties.BuildAverages | src/tree.rs:45-46 | At every path of a built tree, the play count is the number of records whose walk updated that node, and the score is the exact mean of their differentials. |
| TreeProperties.VisitorsBounded | src/tree.rs:26-28 | Every score that reaches a node lies in [-255, 255]. |
| TreeProperties.BuildScoreBounds | src/tree.rs:26-46 | Every score stored anywhere in a built tree lies in [-255, 255]. |
| OpeningProperties.WellFormedListed | src/opening.rs:63-65 | In a well-formed tree, every key the serializer looks up has a child, and no child is looked up twice. |
| OpeningProperties.BuildListed | src/opening.rs:63-65 | Serializing a tree built from records never panics at `children.remove(p).unwrap()`. |
| Opening.ChildrenOf | src/opening.rs:63-65 | When every listed key has a child, the result holds the children in key-list order, one per key. |
| Opening.QueueStep | src/opening.rs:55-73 | Popping a node and queueing its children lowers the number of reachable nodes by exactly one, so pass 1 terminates. |
| Opening.ListedStep | src/opening.rs:63-65 | If the queued nodes can be serialized, the popped node's keys all have children, so `remove(p).unwrap()` cannot panic. Its children can be serialized too. |
| Opening.PlaysOf | src/opening.rs:64-85 | A block has one entry per key, and every entry's id lies among the next (number of keys) ids from the current one. |
| Opening.DiscoverStepConsistent | src/opening.rs:60-95 | One loop iteration preserves the pass-1 invariant: block sizes, running addresses, the address table and the id counter. |
| Opening.Discover | src/opening.rs:54-97 | The pass-1 loop only appends blocks. Every block it writes beyond the nodes queued at the start took one id. It preserves the pass-1 invariant. |
| Opening.ConsistentSized | src/opening.rs:87 | Every block's size is 8 plus 24 per entry. |
| Opening.ConsistentPointers | src/opening.rs:79-83 | Every entry's block id lies between 1 and the next unassigned id. |
| Opening.Pass1 | src/opening.rs:38-97 | From the root, the block count equals the final id, and every entry's id names a block. |
| Opening.EncodePlay | src/opening.rs:102-105 | An entry is 24 bytes. |
| Opening.EncodeBlock | src/opening.rs:100-106 | A block's bytes are 8 plus 24 per entry. |
| Opening.Pass2 | src/opening.rs:99-106 | The bytes written are the sum of the block sizes. |
| Opening.Serialize | src/opening.rs:35-112 | The file is exactly as long as the final running address of pass 1. |
| OpeningProperties.BfsListed | src/opening.rs:54-73 | Every node the queue ever pops can be serialized. |
| OpeningProperties.BfsIsLevelOrder | src/opening.rs:54-97 | The order in which the pass-1 queue pops nodes equals level order: the root, then each level's children in key-list order. |
| OpeningProperties.BfsChildren | src/opening.rs:63-73 | The pop order is the queue followed by all children of the pop order, node by node. |
| OpeningProperties.BfsLength | src/opening.rs:54-97 | The queue pops exactly one node per reachable node. |
| OpeningProperties.BfsChildPosition | src/opening.rs:73-83 | In breadth-first order, child k of node j sits at position 1 + (children of the nodes before j) + k. |
| OpeningProperties.DiscoverDescribesAt | src/opening.rs:60-94 | The block pass 1 appends for the j-th popped node has that node's child count of entries, with the node's keys and the children's scores. |
| OpeningProperties.DiscoverDescribes | src/opening.rs:54-97 | Pass 1 appends exactly one block per popped node, in pop order, each describing its node. |
| OpeningProperties.Pass1Describes | src/opening.rs:38-97 | From the root, there is one block per node (the count equals the tree's size), in breadth-first order. |
| OpeningProperties.EntryCountsKids | src/opening.rs:73-83 | The id in entry k of block j is 1 + (children of the blocks before j) + k. |
| OpeningProperties.Pass1PointsToChild | src/opening.rs:48-83 | The id in entry k of block j is the breadth-first position of exactly child k of node j. |
| OpeningProperties.Pass1Pointers | src/opening.rs:73-83 | Every entry's id is the breadth-first position of the child it stands for. |
| OpeningProperties.SizesSumLaidOut | src/opening.rs:87-90 | Total size is 8 per block plus 24 per entry. |
| OpeningProperties.Pass1Totals | src/opening.rs:48-91 | Block count and final id both equal the node count N. The address table has N+1 slots, with slot 0 = 0 and slot j+1 = address of block j = sum of the sizes before it. The file length is 8·N + 24·(N−1). |
| Bytes.BigEndianRoundTrip | src/opening.rs:100-105 | Reading back the n big-endian bytes written for x gives x mod 256^n. |
| Bytes.U64RoundTrip | src/opening.rs:100-105 | A u64 field reads back as the value written, for every value below 2^64, and as its low 64 bits otherwise. |
| Bytes.ReadU64At | src/opening.rs:105 | A u64 field found anywhere in the file reads back as its value. |
| Book.Pass2Last | src/opening.rs:99-106 | The bytes of all blocks are the bytes of all but the last block, followed by the last block. |
| Book.Pass2Prefix | src/opening.rs:99-106 | Writing a prefix of the block queue writes a prefix of the file. |
| Book.Pass2Step | src/opening.rs:99-106 | Block j is written right after blocks 0..j−1. |
| Book.Pass2Block | src/opening.rs:99-106 | Block j's encoding sits in the file at the total size of the blocks before it. |
| Book.EncodePlaysEntry | src/opening.rs:101-106 | Entry k sits 24·k bytes into the entry area. |
| Book.EncodePlayFields | src/opening.rs:102-105 | An entry holds the move as u64 at offset 0, the score's bytes at 8, and `addr_map[id]` at 16. |
| Book.EncodeBlockFields | src/opening.rs:100-105 | A block holds its size at offset 0 and entry k at offset 8 + 24·k. |
| Book.Pass1Resolvable | src/opening.rs:104 | Every lookup of the address table is in bounds, both for the id itself and for id + 1. |
| Book.SerializeIntended | src/opening.rs:104 | The corrected file is as long as the one written by the source. |
| Book.BookBlock | src/opening.rs:88-106 | Block j's encoding sits in the file at the address pass 1 gave it. |
| Book.BookEntry | src/opening.rs:100-105 | Entry k of block j holds its move, its score and its pointer at the addresses the format prescribes. |
| Book.BookDescribesNode | src/opening.rs:72-103 | Block j of the file starts with the size of the j-th breadth-first node's block. Its entry k holds that node's k-th key and the score of its k-th child. |
| Book.EntryId | src/opening.rs:73-83 | The child in entry k of the j-th node is node id of breadth-first order, with 1 <= id < N. |
| Book.BookHeader | src/opening.rs:87-100 | The header of block j holds 8 + 24·(children of the j-th node). |
| Book.AsWrittenPointer | src/opening.rs:88-104 | As written, the pointer for the child with id b holds the address of block b−1, which is strictly below that child's own address. |
| Book.AddressesIncrease | src/opening.rs:88-91 | Address-table slot id holds block id−1's address, which is strictly below block id's address. |
| Book.IntendedSlot | src/opening.rs:104 | With the corrected lookup, the pointer of entry k of block j holds the address of the block whose id the entry carries. |
| Book.IntendedPointer | src/opening.rs:99-106 | With the corrected lookup, following the pointer of entry k of the j-th node reads back the address of child k's block, and that address holds child k's block size. |
| Book.PointerOffByOneExample | src/opening.rs:51-104 | A root with a single leaf child: the leaf's block is at 32, but the root's entry points to 0, the root's own block. |
| Book.PointerFixedExample | src/opening.rs:51-104 | Same tree, corrected: the root's entry points to 32, where the leaf's block (size 8) is. |

## Left out

- `src/evaluate.rs` is not part of this model. It collects board features through an external Othello library and fits a linear regression: foreign calls and floating-point numerics.
- Command-line parsing, file reading, the progress counters and printing in `src/main.rs` are left out. The record loop of `src/main.rs:47-62` is modelled by `Tree.Build` over a sequence of buffers.
- The turn limit: `src/tree.rs:5` fixes it at 20, while `src/main.rs:55` passes a `turns` argument that `add_play` in `src/tree.rs:25` does not take. The model makes it a parameter `maxTurns`, with the constant `Tree.MAX_TURNS = 20`.
- Floating point: `score` and `plays` are f64 in the source and are modelled as `real` and `nat`, so the averaging invariant is exact. Rounding is not modelled.
- The eight bytes written for an f64 score come from a parameter `real -> Word`, because the IEEE-754 encoding is not modelled.
- The progress message and the final `flush` in `serialize` (`src/opening.rs:107-111`) are output only and are left out.
- Panics are preconditions. `ReadBuf` needs a full 64-byte record. `Serialize` needs `Opening.Listed`: at every reachable node, every key in `play_keys` has a child and no key repeats. That is exactly when `children.remove(p).unwrap()` never panics. `OpeningProperties.BuildListed` proves that every built tree meets it.
- `children.remove(p)` in pass 1 destroys the tree as it goes. The model reads the child instead, which yields the same blocks.
- The `u64` arithmetic of ids and addresses is unbounded in the model. Only the written fields wrap, because `Opening.U64` keeps the low 64 bits. Counters that overflow 2^64 are not modelled.
- Code and comments disagree, and the model follows the code. The comments at `src/opening.rs:14` and `src/opening.rs:62` say entries are sorted by move, but pass 1 uses the insertion-order `play_keys`. The comment at `src/opening.rs:20` says "0 if no next block" and `PLAY+` implies at least one entry, but every child gets a block and a leaf's block has no entries.
- No symmetry canonicalization of moves is modelled, since none exists in the source.

## Findings

| source | as written | input that shows it | evidently intended | confidence | as-written member | corrected member |
|---|---|---|---|---|---|---|
| src/opening.rs:51 | `addr_map` starts as `[0]` and pass 1 pushes each block's address after it (line 91), so slot b holds the address of block b−1. Pass 2 writes `addr_map[block_pointer]` (line 104), where the pointer is the child's own block id (line 79). Every child pointer therefore names the block before the child's. | A root with one leaf child under move 19. The leaf's block is at address 32, but the root's entry holds 0, the root's own block. | The pointer holds the address of the child's own block, i.e. the lookup `addr_map[block_pointer + 1]`. | not executed | Book.AsWrittenPointer, Book.PointerOffByOneExample | Book.IntendedPointer, Book.PointerFixedExample |
