/**
  The opening-book serializer. Pass 1 walks the finished tree breadth-first,
  giving every node a block, a block id and a block size, and assigning each
  block its address as the running total of the sizes before it. Pass 2
  writes the blocks big-endian in that order, resolving each entry's child
  pointer through the address table.
 */
module Opening {
  import opened Tree

  /** Size of the block header (the block's size as a u64). */
  const HEADER_SIZE: nat := 8

  /** Size of one entry: the move as a u64, the score as an f64, the pointer
      as a u64. */
  const PLAY_SIZE: nat := 24

  /** 2^64: every u64 field holds its value modulo this. */
  const TWO_TO_THE_64: nat := 0x1_0000_0000_0000_0000

  /** One entry of a block: the child's move code, the child's score and the
      id of the child's block. */
  datatype Play = Play(play: byte, score: real, blockPointer: nat)

  /** One block: its address in the file, its size in bytes and its entries. */
  datatype Block = Block(addr: nat, size: nat, plays: seq<Play>)

  /** The state of pass 1: the blocks finished so far in write order, the
      next block id to hand out, the running address and the address table. */
  datatype Discovery = Discovery(writeq: seq<Block>, bid: nat, currentAddr: nat, addrMap: seq<nat>)

  /** Eight bytes: one u64 or f64 field. */
  type Word = s: seq<byte> | |s| == 8 witness [0, 0, 0, 0, 0, 0, 0, 0]

  /* ---------------------------------------------------------------------- */
  /* Which trees can be serialized                                           */
  /* ---------------------------------------------------------------------- */

  /** Every key in the key list has a child. */
  ghost predicate KeysPresent(t: GameTree)
  {
    forall i | 0 <= i < |t.playKeys| :: t.playKeys[i] in t.children
  }

  /** The tree can be serialized without a panic: in every node reached through
      the key lists, the key list has no duplicates (each child is removed from
      the map once) and every listed key has a child (the removal finds it). */
  ghost predicate Listed(t: GameTree)
    decreases t
  {
    && (forall i, j | 0 <= i < j < |t.playKeys| :: t.playKeys[i] != t.playKeys[j])
    && (forall i | 0 <= i < |t.playKeys| ::
          t.playKeys[i] in t.children && Listed(t.children[t.playKeys[i]]))
  }

  ghost predicate AllListed(q: seq<GameTree>)
  {
    forall i | 0 <= i < |q| :: Listed(q[i])
  }

  /* ---------------------------------------------------------------------- */
  /* Children in key-list order, and tree sizes                              */
  /* ---------------------------------------------------------------------- */

  /** The children under the keys `ks`, in the order of `ks` (a key without
      a child contributes nothing). */
  function ChildrenOf(t: GameTree, ks: seq<byte>): (cs: seq<GameTree>)
    ensures |cs| <= |ks|
    ensures (forall i | 0 <= i < |ks| :: ks[i] in t.children) ==>
      |cs| == |ks| && forall i | 0 <= i < |ks| :: cs[i] == t.children[ks[i]]
  {
    if ks == [] then []
    else if ks[0] in t.children then [t.children[ks[0]]] + ChildrenOf(t, ks[1..])
    else ChildrenOf(t, ks[1..])
  }

  /** The children of a node in the order of its key list (insertion order,
      not the map's key order). */
  function Children(t: GameTree): (cs: seq<GameTree>)
  {
    ChildrenOf(t, t.playKeys)
  }

  /** Number of nodes reachable from `t` through the key lists, `t` included. */
  function Size(t: GameTree): nat
    decreases t, 1
  {
    1 + KeyedSize(t, t.playKeys)
  }

  /** Number of nodes in the subtrees under the keys `ks`. */
  function KeyedSize(t: GameTree, ks: seq<byte>): nat
    decreases t, 0, |ks|
  {
    if ks == [] then 0
    else (if ks[0] in t.children then Size(t.children[ks[0]]) else 0) + KeyedSize(t, ks[1..])
  }

  /** Number of nodes reachable from the nodes of a queue. */
  function QueueSize(q: seq<GameTree>): nat
  {
    if q == [] then 0 else Size(q[0]) + QueueSize(q[1..])
  }

  lemma {:induction false} QueueSizeAppend(a: seq<GameTree>, b: seq<GameTree>)
    ensures QueueSize(a + b) == QueueSize(a) + QueueSize(b)
    decreases |a|
  {
    if a != [] {
      assert (a + b)[1..] == a[1..] + b;
      QueueSizeAppend(a[1..], b);
      assert QueueSize(a + b) == Size(a[0]) + QueueSize(a[1..] + b);
    } else {
      assert a + b == b;
    }
  }

  lemma {:induction false} QueueSizeChildrenOf(t: GameTree, ks: seq<byte>)
    ensures QueueSize(ChildrenOf(t, ks)) == KeyedSize(t, ks)
    decreases |ks|
  {
    if ks != [] {
      QueueSizeChildrenOf(t, ks[1..]);
      if ks[0] in t.children {
        assert ChildrenOf(t, ks)[1..] == ChildrenOf(t, ks[1..]);
      }
    }
  }

  /** Replacing the head of a queue by its children removes exactly one node
      from what the queue reaches. */
  lemma {:induction false} QueueStep(q: seq<GameTree>)
    requires q != []
    ensures QueueSize(q[1..] + Children(q[0])) + 1 == QueueSize(q)
  {
    QueueSizeAppend(q[1..], Children(q[0]));
    QueueSizeChildrenOf(q[0], q[0].playKeys);
  }

  /** The children of a listed node are listed. */
  lemma {:induction false} ListedStep(q: seq<GameTree>)
    requires q != [] && AllListed(q)
    ensures KeysPresent(q[0])
    ensures AllListed(q[1..] + Children(q[0]))
  {
    var cs := Children(q[0]);
    forall i | 0 <= i < |q[1..] + cs|
      ensures Listed((q[1..] + cs)[i])
    {
      if i >= |q| - 1 {
        assert (q[1..] + cs)[i] == cs[i - (|q| - 1)];
      } else {
        assert (q[1..] + cs)[i] == q[i + 1];
      }
    }
  }

  /* ---------------------------------------------------------------------- */
  /* Pass 1: breadth-first discovery, sizing and addressing                  */
  /* ---------------------------------------------------------------------- */

  /** The size of the block of a node: header plus one entry per child. */
  function BlockSize(t: GameTree): nat
  {
    HEADER_SIZE + PLAY_SIZE * |t.playKeys|
  }

  /** The entries of a node's block when its first child gets block id `bid`:
      one per key, in key-list order, with consecutive ids. */
  function PlaysOf(t: GameTree, bid: nat): (ps: seq<Play>)
    requires KeysPresent(t)
    ensures |ps| == |t.playKeys|
    ensures forall i | 0 <= i < |ps| :: bid <= ps[i].blockPointer < bid + |ps|
  {
    seq(|t.playKeys|, i requires 0 <= i < |t.playKeys| =>
      Play(t.playKeys[i], t.children[t.playKeys[i]].score, bid + i))
  }

  /** Sum of the sizes of some blocks. */
  function SizesSum(blocks: seq<Block>): nat
  {
    if blocks == [] then 0 else SizesSum(blocks[..|blocks| - 1]) + blocks[|blocks| - 1].size
  }

  /** Every block's size counts its header and its entries. */
  ghost predicate Sized(blocks: seq<Block>)
  {
    forall j | 0 <= j < |blocks| :: blocks[j].size == HEADER_SIZE + PLAY_SIZE * |blocks[j].plays|
  }

  /** Number of entries in some blocks. */
  function TotalPlays(blocks: seq<Block>): nat
  {
    if blocks == [] then 0 else TotalPlays(blocks[..|blocks| - 1]) + |blocks[|blocks| - 1].plays|
  }

  /** Block `j` of the pass-1 state is laid out as the format requires: its
      size counts its header and its entries, its address is the total size
      of the blocks before it, the address table holds that address one slot
      further on, and its entries carry the block ids that follow the ids of
      all earlier entries, consecutively. */
  ghost predicate LaidOut(d: Discovery, j: nat)
    requires j < |d.writeq| && |d.addrMap| == |d.writeq| + 1
  {
    var b := d.writeq[j];
    && b.size == HEADER_SIZE + PLAY_SIZE * |b.plays|
    && b.addr == SizesSum(d.writeq[..j])
    && d.addrMap[j + 1] == b.addr
    && forall k | 0 <= k < |b.plays| :: b.plays[k].blockPointer == 1 + TotalPlays(d.writeq[..j]) + k
  }

  /** The invariant of the pass-1 loop: the address table is one longer than
      the block list and starts with 0, the running address is the total size
      of the finished blocks, the next id follows every id handed out, and
      every finished block is laid out. */
  ghost predicate Consistent(d: Discovery)
  {
    && |d.addrMap| == |d.writeq| + 1
    && d.addrMap[0] == 0
    && d.currentAddr == SizesSum(d.writeq)
    && d.bid == 1 + TotalPlays(d.writeq)
    && forall j | 0 <= j < |d.writeq| :: LaidOut(d, j)
  }

  /** One iteration of the pass-1 loop on node `t`: the node's block is
      placed at the running address with its entries numbered from the next
      id, and the address is recorded in the table. */
  function DiscoverStep(t: GameTree, d: Discovery): Discovery
    requires KeysPresent(t)
  {
    var size := BlockSize(t);
    Discovery(
      d.writeq + [Block(d.currentAddr, size, PlaysOf(t, d.bid))],
      d.bid + |t.playKeys|,
      d.currentAddr + size,
      d.addrMap + [d.currentAddr])
  }

  /** One iteration keeps the pass-1 invariant. */
  lemma {:induction false} DiscoverStepConsistent(t: GameTree, d: Discovery)
    requires KeysPresent(t)
    ensures Consistent(d) ==> Consistent(DiscoverStep(t, d))
  {
    if Consistent(d) {
      var next := DiscoverStep(t, d);
      var n := |d.writeq|;
      assert next.writeq[..n] == d.writeq;
      forall j | 0 <= j < |next.writeq|
        ensures LaidOut(next, j)
      {
        if j < n {
          assert next.writeq[..j] == d.writeq[..j];
          assert LaidOut(d, j);
        }
      }
    }
  }

  /** The pass-1 loop: pop the front node, give each of its children (in
      key-list order) the next block id and enqueue it, size the node's block,
      place it at the running address and record that address. */
  function Discover(dq: seq<GameTree>, d: Discovery): (r: Discovery)
    requires AllListed(dq)
    decreases QueueSize(dq)
    ensures d.writeq <= r.writeq
    ensures r.bid + |dq| + |d.writeq| == d.bid + |r.writeq|
    ensures Consistent(d) ==> Consistent(r)
  {
    if dq == [] then d
    else
      var t := dq[0];
      ListedStep(dq);
      QueueStep(dq);
      DiscoverStepConsistent(t, d);
      Discover(dq[1..] + Children(t), DiscoverStep(t, d))
  }

  /** Every entry of every block points at a block id in [lo, hi). */
  ghost predicate PointersIn(blocks: seq<Block>, lo: nat, hi: nat)
  {
    forall j, k | 0 <= j < |blocks| && 0 <= k < |blocks[j].plays| ::
      lo <= blocks[j].plays[k].blockPointer < hi
  }

  lemma {:induction false} TotalPlaysPrefix(blocks: seq<Block>, j: nat)
    requires j < |blocks|
    ensures TotalPlays(blocks[..j]) + |blocks[j].plays| <= TotalPlays(blocks)
    decreases |blocks|
  {
    var n := |blocks| - 1;
    assert blocks[..n][..j] == blocks[..j];
    if j < n {
      TotalPlaysPrefix(blocks[..n], j);
    } else {
      assert blocks[..n] == blocks[..j];
    }
  }

  /** In a consistent state every block is sized for its entries. */
  lemma {:induction false} ConsistentSized(d: Discovery)
    requires Consistent(d)
    ensures Sized(d.writeq)
  {
    forall j | 0 <= j < |d.writeq|
      ensures d.writeq[j].size == HEADER_SIZE + PLAY_SIZE * |d.writeq[j].plays|
    {
      assert LaidOut(d, j);
    }
  }

  /** In a consistent state every entry points at a block id handed out
      already: at least 1 (the root's id 0 is never handed out) and below the
      next id. */
  lemma {:induction false} ConsistentPointers(d: Discovery)
    requires Consistent(d)
    ensures PointersIn(d.writeq, 1, d.bid)
  {
    forall j, k | 0 <= j < |d.writeq| && 0 <= k < |d.writeq[j].plays|
      ensures 1 <= d.writeq[j].plays[k].blockPointer < d.bid
    {
      assert LaidOut(d, j);
      TotalPlaysPrefix(d.writeq, j);
    }
  }

  /** Pass 1 from the root: the root is block 0 at address 0, the first id
      handed out is 1 and the address table starts as [0]. At the end the
      next id is the number of blocks, so every entry's id indexes the
      address table. */
  function Pass1(tree: GameTree): (r: Discovery)
    requires Listed(tree)
    ensures Consistent(r)
    ensures |r.writeq| == r.bid >= 1
    ensures PointersIn(r.writeq, 1, |r.writeq|)
  {
    var r := Discover([tree], Discovery([], 1, 0, [0]));
    ConsistentPointers(r);
    r
  }

  /* ---------------------------------------------------------------------- */
  /* Pass 2: writing                                                         */
  /* ---------------------------------------------------------------------- */

  /** The `n` low-order bytes of `x`, most significant first. */
  function BigEndian(x: nat, n: nat): (bs: seq<byte>)
    ensures |bs| == n
  {
    if n == 0 then [] else BigEndian(x / 256, n - 1) + [x % 256]
  }

  /** A u64 field, big-endian. A value of 2^64 or more keeps its low 64 bits,
      as an unsigned 64-bit integer would. */
  function U64(x: nat): Word
  {
    BigEndian(x, 8)
  }

  /** One entry: the move code widened to a u64, the score's eight bytes and
      the address the address table holds at slot `blockPointer + shift`.
      The serializer looks the id itself up (`shift` 0); `shift` 1 is the
      lookup of the corrected serializer. */
  function EncodePlay(p: Play, addrMap: seq<nat>, shift: nat, encodeScore: real -> Word): (bs: seq<byte>)
    requires p.blockPointer + shift < |addrMap|
    ensures |bs| == PLAY_SIZE
  {
    U64(p.play) + encodeScore(p.score) + U64(addrMap[p.blockPointer + shift])
  }

  function EncodePlays(ps: seq<Play>, addrMap: seq<nat>, shift: nat, encodeScore: real -> Word): (bs: seq<byte>)
    requires forall k | 0 <= k < |ps| :: ps[k].blockPointer + shift < |addrMap|
    ensures |bs| == PLAY_SIZE * |ps|
  {
    if ps == [] then []
    else EncodePlay(ps[0], addrMap, shift, encodeScore) + EncodePlays(ps[1..], addrMap, shift, encodeScore)
  }

  /** One block: its size as a u64, then its entries in order. */
  function EncodeBlock(b: Block, addrMap: seq<nat>, shift: nat, encodeScore: real -> Word): (bs: seq<byte>)
    requires forall k | 0 <= k < |b.plays| :: b.plays[k].blockPointer + shift < |addrMap|
    ensures |bs| == HEADER_SIZE + PLAY_SIZE * |b.plays|
  {
    U64(b.size) + EncodePlays(b.plays, addrMap, shift, encodeScore)
  }

  /** Pass 2: the blocks written one after another in write order. Looking
      up a slot outside the address table panics, so every lookup must be in
      range. */
  function Pass2(writeq: seq<Block>, addrMap: seq<nat>, shift: nat, encodeScore: real -> Word): (bs: seq<byte>)
    requires |addrMap| >= shift
    requires PointersIn(writeq, 0, |addrMap| - shift)
    ensures Sized(writeq) ==> |bs| == SizesSum(writeq)
  {
    if writeq == [] then []
    else
      var last := writeq[|writeq| - 1];
      Pass2(writeq[..|writeq| - 1], addrMap, shift, encodeScore) + EncodeBlock(last, addrMap, shift, encodeScore)
  }

  /** The serializer: pass 1 over the whole tree, then pass 2 over its
      blocks, looking every child id up in the address table as it stands.
      The f64 encoding of scores is the parameter `encodeScore`. */
  function Serialize(tree: GameTree, encodeScore: real -> Word): (bs: seq<byte>)
    requires Listed(tree)
    ensures |bs| == Pass1(tree).currentAddr
  {
    var d := Pass1(tree);
    ConsistentSized(d);
    Pass2(d.writeq, d.addrMap, 0, encodeScore)
  }
}
