/**
  The opening book read back as bytes: where every block and every entry
  lands in the written file, what each child pointer holds, and the pointer
  lookup the format intends.
 */
module Book {
  import opened Tree
  import opened Opening
  import opened OpeningProperties
  import opened Bytes

  /* ---------------------------------------------------------------------- */
  /* Where pass 2 puts things                                                */
  /* ---------------------------------------------------------------------- */

  /** Every entry of block `b` looks up a slot inside the address table. */
  ghost predicate Resolvable(b: Block, addrMap: seq<nat>, shift: nat)
  {
    forall k | 0 <= k < |b.plays| :: b.plays[k].blockPointer + shift < |addrMap|
  }

  lemma {:induction false} PointersInPrefix(w: seq<Block>, lo: nat, hi: nat, j: nat)
    requires PointersIn(w, lo, hi) && j <= |w|
    ensures PointersIn(w[..j], lo, hi)
  {
    forall i, k | 0 <= i < j && 0 <= k < |w[..j][i].plays|
      ensures lo <= w[..j][i].plays[k].blockPointer < hi
    {
      assert w[..j][i] == w[i];
    }
  }

  /** The bytes of all blocks but the last, then the last block. */
  lemma {:induction false} Pass2Last(w: seq<Block>, addrMap: seq<nat>, shift: nat, enc: real -> Word)
    requires |addrMap| >= shift && PointersIn(w, 0, |addrMap| - shift)
    requires w != []
    ensures PointersIn(w[..|w| - 1], 0, |addrMap| - shift)
    ensures Resolvable(w[|w| - 1], addrMap, shift)
    ensures Pass2(w, addrMap, shift, enc)
            == Pass2(w[..|w| - 1], addrMap, shift, enc) + EncodeBlock(w[|w| - 1], addrMap, shift, enc)
  {
    PointersInPrefix(w, 0, |addrMap| - shift, |w| - 1);
  }

  /** Writing a prefix of the blocks writes a prefix of the bytes. */
  lemma {:induction false} Pass2Prefix(w: seq<Block>, addrMap: seq<nat>, shift: nat, enc: real -> Word, j: nat)
    requires |addrMap| >= shift && PointersIn(w, 0, |addrMap| - shift)
    requires j <= |w|
    ensures PointersIn(w[..j], 0, |addrMap| - shift)
    ensures Pass2(w[..j], addrMap, shift, enc) <= Pass2(w, addrMap, shift, enc)
    decreases |w|
  {
    PointersInPrefix(w, 0, |addrMap| - shift, j);
    if j < |w| {
      var n := |w| - 1;
      Pass2Last(w, addrMap, shift, enc);
      var front := Pass2(w[..n], addrMap, shift, enc);
      assert Pass2(w[..j], addrMap, shift, enc) <= front by {
        Pass2Prefix(w[..n], addrMap, shift, enc, j);
        TakeTake(w, n, j);
      }
      PrefixExtend(Pass2(w[..j], addrMap, shift, enc), front, EncodeBlock(w[n], addrMap, shift, enc), Pass2(w, addrMap, shift, enc));
    } else {
      assert w[..j] == w;
    }
  }

  lemma {:induction false} SizedPrefix(w: seq<Block>, j: nat)
    requires Sized(w) && j <= |w|
    ensures Sized(w[..j])
  {
    forall i | 0 <= i < j
      ensures w[..j][i].size == HEADER_SIZE + PLAY_SIZE * |w[..j][i].plays|
    {
      assert w[..j][i] == w[i];
    }
  }

  /** The bytes of the first `j + 1` blocks: those of the first `j`, then
      block `j`. */
  lemma {:induction false} Pass2Step(w: seq<Block>, addrMap: seq<nat>, shift: nat, enc: real -> Word, j: nat)
    requires |addrMap| >= shift && PointersIn(w, 0, |addrMap| - shift)
    requires j < |w|
    ensures PointersIn(w[..j], 0, |addrMap| - shift) && PointersIn(w[..j + 1], 0, |addrMap| - shift)
    ensures Resolvable(w[j], addrMap, shift)
    ensures Pass2(w[..j + 1], addrMap, shift, enc)
            == Pass2(w[..j], addrMap, shift, enc) + EncodeBlock(w[j], addrMap, shift, enc)
  {
    var pre := w[..j + 1];
    PointersInPrefix(w, 0, |addrMap| - shift, j + 1);
    Pass2Last(pre, addrMap, shift, enc);
    assert pre[..j] == w[..j];
  }

  /** Block `j` occupies the bytes from the total size of the blocks before
      it, for its own size, and they are its encoding. */
  lemma {:induction false} Pass2Block(w: seq<Block>, addrMap: seq<nat>, shift: nat, enc: real -> Word, j: nat)
    requires |addrMap| >= shift && PointersIn(w, 0, |addrMap| - shift)
    requires Sized(w) && j < |w|
    ensures Resolvable(w[j], addrMap, shift)
    ensures Occupies(Pass2(w, addrMap, shift, enc), SizesSum(w[..j]), EncodeBlock(w[j], addrMap, shift, enc))
  {
    Pass2Prefix(w, addrMap, shift, enc, j + 1);
    Pass2Step(w, addrMap, shift, enc, j);
    SizedPrefix(w, j);
    var before := Pass2(w[..j], addrMap, shift, enc);
    var block := EncodeBlock(w[j], addrMap, shift, enc);
    assert |before| == SizesSum(w[..j]);
    SliceOfPrefix(before, block, Pass2(w, addrMap, shift, enc), SizesSum(w[..j]));
  }

  /** Entry `k` of a block's entry area occupies bytes 24·k to 24·k + 24. */
  lemma {:induction false} EncodePlaysEntry(ps: seq<Play>, addrMap: seq<nat>, shift: nat, enc: real -> Word, k: nat)
    requires forall i | 0 <= i < |ps| :: ps[i].blockPointer + shift < |addrMap|
    requires k < |ps|
    ensures Occupies(EncodePlays(ps, addrMap, shift, enc), PLAY_SIZE * k, EncodePlay(ps[k], addrMap, shift, enc))
    decreases k
  {
    var first := EncodePlay(ps[0], addrMap, shift, enc);
    var rest := EncodePlays(ps[1..], addrMap, shift, enc);
    if k == 0 {
      OccupiesBefore(first, rest, 0, first);
    } else {
      EncodePlaysEntry(ps[1..], addrMap, shift, enc, k - 1);
      OccupiesAfter(first, rest, PLAY_SIZE * (k - 1), EncodePlay(ps[k], addrMap, shift, enc));
    }
  }

  /** An entry's fields: the move at offset 0, the score at 8, the
      looked-up address at 16. */
  lemma {:induction false} EncodePlayFields(p: Play, addrMap: seq<nat>, shift: nat, enc: real -> Word)
    requires p.blockPointer + shift < |addrMap|
    ensures var e := EncodePlay(p, addrMap, shift, enc);
      && Occupies(e, 0, U64(p.play))
      && Occupies(e, 8, enc(p.score))
      && Occupies(e, 16, U64(addrMap[p.blockPointer + shift]))
  {
    var a: seq<byte>, b: seq<byte>, c: seq<byte> := U64(p.play), enc(p.score), U64(addrMap[p.blockPointer + shift]);
    assert (a + b + c)[..8] == a;
    assert (a + b + c)[8..16] == b;
    assert (a + b + c)[16..24] == c;
  }

  /** A block's encoding: its size in the first eight bytes, then entry `k`
      at offset 8 + 24·k. */
  lemma {:induction false} EncodeBlockFields(b: Block, addrMap: seq<nat>, shift: nat, enc: real -> Word, k: nat)
    requires Resolvable(b, addrMap, shift)
    requires k < |b.plays|
    ensures Occupies(EncodeBlock(b, addrMap, shift, enc), 0, U64(b.size))
    ensures Occupies(EncodeBlock(b, addrMap, shift, enc), HEADER_SIZE + PLAY_SIZE * k,
                     EncodePlay(b.plays[k], addrMap, shift, enc))
  {
    var header: seq<byte> := U64(b.size);
    var entries: seq<byte> := EncodePlays(b.plays, addrMap, shift, enc);
    assert (header + entries)[..8] == header;
    EncodePlaysEntry(b.plays, addrMap, shift, enc, k);
    OccupiesAfter(header, entries, PLAY_SIZE * k, EncodePlay(b.plays[k], addrMap, shift, enc));
  }

  /* ---------------------------------------------------------------------- */
  /* The written book                                                        */
  /* ---------------------------------------------------------------------- */

  /** Every entry's id indexes the address table, whether the id itself or
      the slot after it is looked up. */
  lemma {:induction false} Pass1Resolvable(tree: GameTree, shift: nat)
    requires Listed(tree) && shift <= 1
    ensures |Pass1(tree).addrMap| >= shift
    ensures PointersIn(Pass1(tree).writeq, 0, |Pass1(tree).addrMap| - shift)
  {
  }

  /** The corrected serializer: pass 2 looks up slot `id + 1` of the address
      table, which holds the address of block `id`. */
  function SerializeIntended(tree: GameTree, encodeScore: real -> Word): (bs: seq<byte>)
    requires Listed(tree)
    ensures |bs| == Pass1(tree).currentAddr
  {
    var d := Pass1(tree);
    ConsistentSized(d);
    Pass2(d.writeq, d.addrMap, 1, encodeScore)
  }

  /** The bytes pass 2 writes for the pass-1 state of `tree` when it looks
      up slot `id + shift` for entry id `id`. */
  function Written(tree: GameTree, enc: real -> Word, shift: nat): seq<byte>
    requires Listed(tree) && shift <= 1
  {
    var d := Pass1(tree);
    Pass1Resolvable(tree, shift);
    Pass2(d.writeq, d.addrMap, shift, enc)
  }

  /** Block `j` of the book, for either lookup: it starts at the address
      pass 1 gave it and is the encoding of the `j`-th block. */
  lemma {:induction false} BookBlock(tree: GameTree, enc: real -> Word, shift: nat, j: nat)
    requires Listed(tree) && shift <= 1
    requires j < |Pass1(tree).writeq|
    ensures Resolvable(Pass1(tree).writeq[j], Pass1(tree).addrMap, shift)
    ensures Occupies(Written(tree, enc, shift), Pass1(tree).writeq[j].addr,
                     EncodeBlock(Pass1(tree).writeq[j], Pass1(tree).addrMap, shift, enc))
  {
    var d := Pass1(tree);
    Pass1Resolvable(tree, shift);
    ConsistentSized(d);
    assert LaidOut(d, j);
    Pass2Block(d.writeq, d.addrMap, shift, enc, j);
  }

  /** Where block `b` starts at `at` in `bs`: its size lies at the block's
      start, and entry `k`'s move, score and looked-up address at offsets 0,
      8 and 16 of the entry, which starts 8 + 24·k bytes into the block. */
  ghost predicate FieldsAt(bs: seq<byte>, at: nat, b: Block, addrMap: seq<nat>, shift: nat, enc: real -> Word, k: nat)
    requires Resolvable(b, addrMap, shift) && k < |b.plays|
  {
    var p := b.plays[k];
    var o := at + HEADER_SIZE + PLAY_SIZE * k;
    && Occupies(bs, at, U64(b.size))
    && Occupies(bs, o, U64(p.play))
    && Occupies(bs, o + 8, enc(p.score))
    && Occupies(bs, o + 16, U64(addrMap[p.blockPointer + shift]))
  }

  /** Where a block's encoding lies in some bytes, so do its fields. */
  lemma {:induction false} BlockFieldsAt(bs: seq<byte>, at: nat, b: Block, addrMap: seq<nat>, shift: nat, enc: real -> Word, k: nat)
    requires Resolvable(b, addrMap, shift) && k < |b.plays|
    requires Occupies(bs, at, EncodeBlock(b, addrMap, shift, enc))
    ensures FieldsAt(bs, at, b, addrMap, shift, enc, k)
  {
    var p := b.plays[k];
    var eb := EncodeBlock(b, addrMap, shift, enc);
    EncodeBlockFields(b, addrMap, shift, enc, k);
    OccupiesWithin(bs, at, eb, 0, U64(b.size));
    var e := EncodePlay(p, addrMap, shift, enc);
    var o := HEADER_SIZE + PLAY_SIZE * k;
    OccupiesWithin(bs, at, eb, o, e);
    EncodePlayFields(p, addrMap, shift, enc);
    OccupiesWithin(bs, at + o, e, 0, U64(p.play));
    OccupiesWithin(bs, at + o, e, 8, enc(p.score));
    OccupiesWithin(bs, at + o, e, 16, U64(addrMap[p.blockPointer + shift]));
  }

  /** Entry `k` of block `j`, for either lookup: the block's size, the
      entry's move, its score and the address table's slot `id + shift` lie
      where the block's address says. */
  lemma {:induction false} BookEntry(tree: GameTree, enc: real -> Word, shift: nat, j: nat, k: nat)
    requires Listed(tree) && shift <= 1
    requires j < |Pass1(tree).writeq| && k < |Pass1(tree).writeq[j].plays|
    ensures Resolvable(Pass1(tree).writeq[j], Pass1(tree).addrMap, shift)
    ensures FieldsAt(Written(tree, enc, shift), Pass1(tree).writeq[j].addr, Pass1(tree).writeq[j],
                     Pass1(tree).addrMap, shift, enc, k)
  {
    var d := Pass1(tree);
    BookBlock(tree, enc, shift, j);
    BlockFieldsAt(Written(tree, enc, shift), d.writeq[j].addr, d.writeq[j], d.addrMap, shift, enc, k);
  }

  /** The serializer as written and the corrected one are the two lookups. */
  lemma {:induction false} WrittenLookups(tree: GameTree, enc: real -> Word)
    requires Listed(tree)
    ensures Serialize(tree, enc) == Written(tree, enc, 0)
    ensures SerializeIntended(tree, enc) == Written(tree, enc, 1)
  {
  }

  /** Block `j` of the book stands for the `j`-th node in breadth-first
      order: its header holds that node's block size, and entry `k` holds the
      move code of its `k`-th child in key-list order and that child's
      score. This holds for either lookup. */
  lemma {:induction false} BookDescribesNode(tree: GameTree, enc: real -> Word, shift: nat, j: nat, k: nat)
    requires Listed(tree) && shift <= 1
    requires j < |Bfs([tree])| && k < |Bfs([tree])[j].playKeys|
    ensures |Pass1(tree).writeq| == |Bfs([tree])|
    ensures var node := Bfs([tree])[j];
      var a := Pass1(tree).writeq[j].addr;
      var o := a + HEADER_SIZE + PLAY_SIZE * k;
      && k < |Children(node)|
      && Occupies(Written(tree, enc, shift), a, U64(BlockSize(node)))
      && Occupies(Written(tree, enc, shift), o, U64(node.playKeys[k]))
      && Occupies(Written(tree, enc, shift), o + 8, enc(Children(node)[k].score))
  {
    var d := Pass1(tree);
    var node := Bfs([tree])[j];
    Pass1Describes(tree);
    assert Describes(d.writeq[j], node);
    BookEntry(tree, enc, shift, j, k);
  }

  /** The child pointed at by entry `k` of the `j`-th node's block is node
      `id` of the breadth-first order, and the entry's id is `id`. */
  lemma {:induction false} EntryId(tree: GameTree, j: nat, k: nat)
    requires Listed(tree)
    requires j < |Bfs([tree])| && k < |Bfs([tree])[j].playKeys|
    ensures |Pass1(tree).writeq| == |Bfs([tree])|
    ensures k < |Pass1(tree).writeq[j].plays|
    ensures var order := Bfs([tree]);
      var id := 1 + TotalKids(order[..j]) + k;
      && Pass1(tree).writeq[j].plays[k].blockPointer == id
      && 1 <= id < |order|
      && k < |Children(order[j])| && order[id] == Children(order[j])[k]
  {
    Pass1Describes(tree);
    assert Describes(Pass1(tree).writeq[j], Bfs([tree])[j]);
    Pass1PointsToChild(tree, j, k);
  }

  /** The header of block `j` holds the `j`-th node's block size, for either
      lookup. */
  lemma {:induction false} BookHeader(tree: GameTree, enc: real -> Word, shift: nat, j: nat)
    requires Listed(tree) && shift <= 1
    requires j < |Bfs([tree])|
    ensures |Pass1(tree).writeq| == |Bfs([tree])|
    ensures Occupies(Written(tree, enc, shift), Pass1(tree).writeq[j].addr, U64(BlockSize(Bfs([tree])[j])))
  {
    var d := Pass1(tree);
    Pass1Describes(tree);
    assert Describes(d.writeq[j], Bfs([tree])[j]);
    BookBlock(tree, enc, shift, j);
    var b := d.writeq[j];
    var header: seq<byte> := U64(b.size);
    var eb: seq<byte> := EncodeBlock(b, d.addrMap, shift, enc);
    assert eb[..8] == header;
    OccupiesWithin(Written(tree, enc, shift), b.addr, eb, 0, header);
  }

  /** As written, the pointer of entry `k` of the `j`-th node holds the
      address of the block just before the child's own block (the child is
      node `id` of the breadth-first order), which lies strictly before the
      child's block. */
  lemma {:induction false} AsWrittenPointer(tree: GameTree, enc: real -> Word, j: nat, k: nat)
    requires Listed(tree)
    requires j < |Bfs([tree])| && k < |Bfs([tree])[j].playKeys|
    ensures |Pass1(tree).writeq| == |Bfs([tree])|
    ensures var order := Bfs([tree]);
      var w := Pass1(tree).writeq;
      var id := 1 + TotalKids(order[..j]) + k;
      && 1 <= id < |order|
      && k < |Children(order[j])| && order[id] == Children(order[j])[k]
      && Occupies(Serialize(tree, enc), w[j].addr + HEADER_SIZE + PLAY_SIZE * k + 16, U64(w[id - 1].addr))
      && w[id - 1].addr < w[id].addr
  {
    var d := Pass1(tree);
    EntryId(tree, j, k);
    BookEntry(tree, enc, 0, j, k);
    var id := d.writeq[j].plays[k].blockPointer;
    AddressesIncrease(d, id);
  }

  /** In a consistent state, slot `id` of the address table holds the
      address of block `id - 1`, which lies strictly before block `id`. */
  lemma {:induction false} AddressesIncrease(d: Discovery, id: nat)
    requires Consistent(d) && 1 <= id < |d.writeq|
    ensures d.addrMap[id] == d.writeq[id - 1].addr < d.writeq[id].addr
  {
    assert LaidOut(d, id - 1);
    assert LaidOut(d, id);
    assert d.writeq[..id] == d.writeq[..id - 1] + [d.writeq[id - 1]];
  }

  /** Corrected, the pointer of entry `k` of block `j` holds the address of
      the block whose id the entry carries. */
  lemma {:induction false} IntendedSlot(tree: GameTree, enc: real -> Word, j: nat, k: nat)
    requires Listed(tree)
    requires j < |Pass1(tree).writeq| && k < |Pass1(tree).writeq[j].plays|
    ensures var w := Pass1(tree).writeq;
      var id := w[j].plays[k].blockPointer;
      && id < |w|
      && Occupies(SerializeIntended(tree, enc), w[j].addr + HEADER_SIZE + PLAY_SIZE * k + 16, U64(w[id].addr))
  {
    var d := Pass1(tree);
    BookEntry(tree, enc, 1, j, k);
    assert LaidOut(d, d.writeq[j].plays[k].blockPointer);
  }

  /** Corrected, the pointer of entry `k` of the `j`-th node leads to the
      child's own block: the child is node `id` of the breadth-first order,
      and the pointer holds the address of block `id`, where the child's
      block size is found. */
  lemma {:induction false} IntendedPointer(tree: GameTree, enc: real -> Word, j: nat, k: nat)
    requires Listed(tree)
    requires j < |Bfs([tree])| && k < |Bfs([tree])[j].playKeys|
    ensures |Pass1(tree).writeq| == |Bfs([tree])|
    ensures var order := Bfs([tree]);
      var w := Pass1(tree).writeq;
      var id := 1 + TotalKids(order[..j]) + k;
      && 1 <= id < |order|
      && k < |Children(order[j])| && order[id] == Children(order[j])[k]
      && Leads(SerializeIntended(tree, enc), w[j].addr + HEADER_SIZE + PLAY_SIZE * k + 16,
               w[id].addr, BlockSize(order[id]))
  {
    EntryId(tree, j, k);
    var order := Bfs([tree]);
    var w := Pass1(tree).writeq;
    var id := 1 + TotalKids(order[..j]) + k;
    var o := w[j].addr + HEADER_SIZE + PLAY_SIZE * k + 16;
    var bs := SerializeIntended(tree, enc);
    assert w[j].plays[k].blockPointer == id;
    IntendedSlot(tree, enc, j, k);
    assert Occupies(bs, o, U64(w[id].addr));
    BookHeader(tree, enc, 1, id);
    WrittenLookups(tree, enc);
    LeadsFrom(bs, o, w[id].addr, BlockSize(order[id]));
  }

  /** The example tree: a root with a single leaf child under move 19; in
      breadth-first order it is the root, then the leaf. */
  lemma {:induction false} ExampleOrder(root: GameTree, leaf: GameTree)
    requires leaf == GameTree(map[], [], 0.0, 0)
    requires root == GameTree(map[19 := leaf], [19], 0.0, 1)
    ensures Listed(root)
    ensures Bfs([root]) == [root, leaf]
    ensures BlockSize(root) == 32 && BlockSize(leaf) == 8
  {
    assert Listed(leaf);
    assert Children(leaf) == [];
    assert Children(root) == [leaf];
    assert [leaf][1..] + Children(leaf) == [];
    assert Bfs([leaf]) == [leaf];
    assert [root][1..] + Children(root) == [leaf];
    assert Bfs([root]) == [root] + Bfs([leaf]);
  }

  /** Pass 1 on the example tree: the root's block at address 0 with one
      entry carrying id 1, then the leaf's block at address 32. */
  lemma {:induction false} ExampleLayout(root: GameTree, leaf: GameTree)
    requires leaf == GameTree(map[], [], 0.0, 0)
    requires root == GameTree(map[19 := leaf], [19], 0.0, 1)
    ensures Listed(root) && Bfs([root]) == [root, leaf]
    ensures var w := Pass1(root).writeq;
      && |w| == 2 && w[0].addr == 0 && w[1].addr == 32
      && |w[0].plays| == 1 && w[0].plays[0].blockPointer == 1
  {
    ExampleOrder(root, leaf);
    var d := Pass1(root);
    Pass1Describes(root);
    assert Describes(d.writeq[0], root);
    assert LaidOut(d, 0);
    assert LaidOut(d, 1);
    assert d.writeq[..0] == [];
    assert d.writeq[..1] == [d.writeq[0]];
  }

  /** As written, on the example tree the root's only entry (bytes 24..32)
      points at address 0, which is the root's own block (its header says 32
      bytes), while the child's block (header: 8 bytes) starts at address
      32. */
  lemma {:induction false} PointerOffByOneExample(enc: real -> Word)
    ensures var leaf := GameTree(map[], [], 0.0, 0);
      var root := GameTree(map[19 := leaf], [19], 0.0, 1);
      && Listed(root)
      && Occupies(Serialize(root, enc), 0, U64(32))
      && Occupies(Serialize(root, enc), 32, U64(8))
      && Occupies(Serialize(root, enc), 24, U64(0))
  {
    var leaf := GameTree(map[], [], 0.0, 0);
    var root := GameTree(map[19 := leaf], [19], 0.0, 1);
    ExampleOrder(root, leaf);
    ExampleLayout(root, leaf);
    var d := Pass1(root);
    WrittenLookups(root, enc);
    BookEntry(root, enc, 0, 0, 0);
    assert d.addrMap[1] == d.writeq[0].addr by {
      assert LaidOut(d, 0);
    }
    BookHeader(root, enc, 0, 0);
    BookHeader(root, enc, 0, 1);
  }

  /** Corrected, on the example tree the root's only entry points at address
      32, where the child's block starts. */
  lemma {:induction false} PointerFixedExample(enc: real -> Word)
    ensures var leaf := GameTree(map[], [], 0.0, 0);
      var root := GameTree(map[19 := leaf], [19], 0.0, 1);
      && Listed(root)
      && Occupies(SerializeIntended(root, enc), 24, U64(32))
      && Occupies(SerializeIntended(root, enc), 32, U64(8))
  {
    var leaf := GameTree(map[], [], 0.0, 0);
    var root := GameTree(map[19 := leaf], [19], 0.0, 1);
    ExampleOrder(root, leaf);
    ExampleLayout(root, leaf);
    var d := Pass1(root);
    WrittenLookups(root, enc);
    BookEntry(root, enc, 1, 0, 0);
    assert d.addrMap[2] == d.writeq[1].addr by {
      assert LaidOut(d, 1);
    }
    BookHeader(root, enc, 1, 1);
  }
}
