/**
  Properties of the opening-book serializer: pass 1 visits the tree in
  breadth-first (level) order, one block per node; every block describes its
  node; every child id is the child's position in that order; the sizes
  and addresses add up; and every tree the builder makes can be serialized.
 */
module OpeningProperties {
  import opened Tree
  import opened TreeProperties
  import opened Opening

  /* ---------------------------------------------------------------------- */
  /* Built trees can be serialized                                           */
  /* ---------------------------------------------------------------------- */

  /** A well-formed tree passes the serializer's key lookups: its key lists
      have no duplicates and every listed key has a child, at every node. */
  lemma {:induction false} WellFormedListed(t: GameTree)
    requires WellFormed(t)
    ensures Listed(t)
    decreases t
  {
    forall i | 0 <= i < |t.playKeys|
      ensures t.playKeys[i] in t.children && Listed(t.children[t.playKeys[i]])
    {
      WellFormedListed(t.children[t.playKeys[i]]);
    }
  }

  /** The serializer never panics on a tree built from records. */
  lemma {:induction false} BuildListed(bufs: seq<seq<byte>>, maxTurns: nat)
    requires AllRecords(bufs)
    ensures Listed(Build(bufs, maxTurns))
  {
    BuildInvariants(bufs, maxTurns);
    WellFormedListed(Build(bufs, maxTurns));
  }

  /* ---------------------------------------------------------------------- */
  /* Breadth-first order                                                     */
  /* ---------------------------------------------------------------------- */

  /** The nodes in the order the pass-1 queue pops them. */
  function Bfs(q: seq<GameTree>): (order: seq<GameTree>)
    decreases QueueSize(q)
  {
    if q == [] then []
    else
      QueueStep(q);
      [q[0]] + Bfs(q[1..] + Children(q[0]))
  }

  /** Every node the queue reaches is listed when the queued ones are. */
  lemma {:induction false} BfsListed(q: seq<GameTree>)
    requires AllListed(q)
    ensures AllListed(Bfs(q))
    decreases QueueSize(q)
  {
    if q != [] {
      ListedStep(q);
      QueueStep(q);
      var rest := Bfs(q[1..] + Children(q[0]));
      BfsListed(q[1..] + Children(q[0]));
      assert Bfs(q) == [q[0]] + rest;
      forall i | 0 <= i < |Bfs(q)|
        ensures Listed(Bfs(q)[i])
      {
        if i > 0 {
          assert Bfs(q)[i] == rest[i - 1];
        }
      }
    }
  }

  /** Number of children of some nodes. */
  function TotalKids(s: seq<GameTree>): nat
  {
    if s == [] then 0 else TotalKids(s[..|s| - 1]) + |Children(s[|s| - 1])|
  }

  /** The children of some nodes, node by node, each node's children in
      key-list order. */
  function FlatChildren(s: seq<GameTree>): (cs: seq<GameTree>)
    ensures |cs| == TotalKids(s)
  {
    if s == [] then [] else FlatChildren(s[..|s| - 1]) + Children(s[|s| - 1])
  }

  lemma {:induction false} FlatChildrenAppend(a: seq<GameTree>, b: seq<GameTree>)
    ensures FlatChildren(a + b) == FlatChildren(a) + FlatChildren(b)
    decreases |b|
  {
    if b == [] {
      assert a + b == a;
    } else {
      var n := |b| - 1;
      assert (a + b)[..|a + b| - 1] == a + b[..n];
      assert (a + b)[|a + b| - 1] == b[n];
      FlatChildrenAppend(a, b[..n]);
      ConcatAssoc(FlatChildren(a), FlatChildren(b[..n]), Children(b[n]));
    }
  }

  lemma {:induction false} FlatChildrenSingle(t: GameTree)
    ensures FlatChildren([t]) == Children(t)
  {
    assert [t][..0] == [];
  }

  /** Replacing nodes by their children removes exactly those nodes from what
      a queue reaches. */
  lemma {:induction false} QueueSizeFlat(s: seq<GameTree>)
    ensures QueueSize(FlatChildren(s)) + |s| == QueueSize(s)
    decreases |s|
  {
    if s != [] {
      var n := |s| - 1;
      QueueSizeFlat(s[..n]);
      assert s == s[..n] + [s[n]];
      QueueSizeAppend(s[..n], [s[n]]);
      assert QueueSize([s[n]]) == Size(s[n]);
      QueueSizeAppend(FlatChildren(s[..n]), Children(s[n]));
      QueueStep([s[n]]);
      assert [s[n]][1..] + Children(s[n]) == Children(s[n]);
    }
  }

  /** Level order, the reference definition of breadth-first order: the
      nodes of a level, then the level made of their children, and so on. */
  function LevelOrder(level: seq<GameTree>): seq<GameTree>
    decreases QueueSize(level)
  {
    if level == [] then []
    else
      QueueSizeFlat(level);
      level + LevelOrder(FlatChildren(level))
  }

  /** Popping every node of `q` from the queue front appends all their
      children, in order, behind what was queued after them. */
  lemma {:induction false} BfsCons(x: GameTree, rest: seq<GameTree>)
    ensures Bfs([x] + rest) == [x] + Bfs(rest + Children(x))
  {
    var q := [x] + rest;
    assert q[0] == x && q[1..] == rest;
  }

  lemma {:induction false} FlatChildrenCons(x: GameTree, rest: seq<GameTree>)
    ensures FlatChildren([x] + rest) == Children(x) + FlatChildren(rest)
  {
    FlatChildrenSingle(x);
    FlatChildrenAppend([x], rest);
  }

  lemma {:induction false} ConcatAssoc(a: seq<GameTree>, b: seq<GameTree>, c: seq<GameTree>)
    ensures (a + b) + c == a + (b + c)
  {
  }

  lemma {:induction false} BfsSplit(q: seq<GameTree>, r: seq<GameTree>)
    ensures Bfs(q + r) == q + Bfs(r + FlatChildren(q))
    decreases |q|
  {
    if q == [] {
      assert q + r == r;
      assert r + FlatChildren(q) == r;
    } else {
      var x := q[0];
      var q' := q[1..];
      var cx := Children(x);
      assert q == [x] + q';
      ConcatAssoc([x], q', r);
      BfsCons(x, q' + r);
      ConcatAssoc(q', r, cx);
      BfsSplit(q', r + cx);
      FlatChildrenCons(x, q');
      ConcatAssoc(r, cx, FlatChildren(q'));
      ConcatAssoc([x], q', Bfs(r + FlatChildren(q)));
    }
  }

  /** The order of the pass-1 queue is level order. */
  lemma {:induction false} BfsIsLevelOrder(q: seq<GameTree>)
    ensures Bfs(q) == LevelOrder(q)
    decreases QueueSize(q)
  {
    if q != [] {
      BfsSplit(q, []);
      assert q + [] == q;
      assert [] + FlatChildren(q) == FlatChildren(q);
      QueueSizeFlat(q);
      BfsIsLevelOrder(FlatChildren(q));
    }
  }

  /** Level order starting from `level` is `level` followed by the children
      of all its nodes, node by node. */
  lemma {:induction false} LevelOrderChildren(level: seq<GameTree>)
    ensures LevelOrder(level) == level + FlatChildren(LevelOrder(level))
    decreases QueueSize(level)
  {
    if level != [] {
      QueueSizeFlat(level);
      var next := FlatChildren(level);
      LevelOrderChildren(next);
      FlatChildrenAppend(level, LevelOrder(next));
    }
  }

  /** The children of some nodes, split around the node at position `j`. */
  lemma {:induction false} FlatChildrenSplit(s: seq<GameTree>, j: nat)
    requires j < |s|
    ensures FlatChildren(s) == FlatChildren(s[..j]) + (Children(s[j]) + FlatChildren(s[j + 1..]))
  {
    var tail := s[j + 1..];
    assert s == s[..j] + ([s[j]] + tail);
    FlatChildrenSingle(s[j]);
    FlatChildrenAppend([s[j]], tail);
    FlatChildrenAppend(s[..j], [s[j]] + tail);
  }

  /** Child `k` of the node at position `j` of some nodes sits in their
      flattened children after the children of the nodes before `j`. */
  lemma {:induction false} FlatChildrenIndex(s: seq<GameTree>, j: nat, k: nat)
    requires j < |s| && k < |Children(s[j])|
    ensures TotalKids(s[..j]) + k < |FlatChildren(s)|
    ensures FlatChildren(s)[TotalKids(s[..j]) + k] == Children(s[j])[k]
  {
    FlatChildrenSplit(s, j);
    IndexMiddle(FlatChildren(s[..j]), Children(s[j]), FlatChildren(s[j + 1..]), k);
  }

  lemma {:induction false} IndexMiddle<T>(a: seq<T>, b: seq<T>, c: seq<T>, k: nat)
    requires k < |b|
    ensures |a| + k < |a + (b + c)| && (a + (b + c))[|a| + k] == b[k]
  {
  }

  /** The breadth-first order of a queue is the queue followed by the
      children of every node of the order, node by node. */
  lemma {:induction false} BfsChildren(q: seq<GameTree>)
    ensures Bfs(q) == q + FlatChildren(Bfs(q))
  {
    BfsIsLevelOrder(q);
    LevelOrderChildren(q);
  }

  /** In the breadth-first order from the root, child `k` of the node at
      position `j` sits at position 1 + (number of children of the nodes
      before `j`) + `k`. */
  lemma {:induction false} BfsChildPosition(tree: GameTree, j: nat, k: nat)
    requires j < |Bfs([tree])| && k < |Children(Bfs([tree])[j])|
    ensures 1 + TotalKids(Bfs([tree])[..j]) + k < |Bfs([tree])|
    ensures Bfs([tree])[1 + TotalKids(Bfs([tree])[..j]) + k] == Children(Bfs([tree])[j])[k]
  {
    var order := Bfs([tree]);
    BfsChildren([tree]);
    ChildPosition(order, tree, j, k);
  }

  lemma {:induction false} ChildPosition(order: seq<GameTree>, root: GameTree, j: nat, k: nat)
    requires order == [root] + FlatChildren(order)
    requires j < |order| && k < |Children(order[j])|
    ensures 1 + TotalKids(order[..j]) + k < |order|
    ensures order[1 + TotalKids(order[..j]) + k] == Children(order[j])[k]
  {
    var f := FlatChildren(order);
    FlatChildrenIndex(order, j, k);
    var i := TotalKids(order[..j]) + k;
    assert order[1 + i] == f[i];
  }

  /* ---------------------------------------------------------------------- */
  /* What pass 1 produces                                                    */
  /* ---------------------------------------------------------------------- */

  /** Block `b` describes node `t`: its size counts one entry per child, and
      its entries carry the children's move codes and scores in key-list
      order. */
  ghost predicate Describes(b: Block, t: GameTree)
  {
    && KeysPresent(t)
    && b.size == BlockSize(t)
    && |b.plays| == |t.playKeys|
    && forall k | 0 <= k < |b.plays| ::
         b.plays[k].play == t.playKeys[k] && b.plays[k].score == t.children[t.playKeys[k]].score
  }

  /** The block one iteration appends describes the node it was made for. */
  lemma {:induction false} DiscoverStepDescribes(t: GameTree, d: Discovery)
    requires KeysPresent(t)
    ensures |DiscoverStep(t, d).writeq| == |d.writeq| + 1
    ensures Describes(DiscoverStep(t, d).writeq[|d.writeq|], t)
  {
  }

  /** The pass-1 loop appends one block per node of the breadth-first
      order. */
  lemma {:induction false} DiscoverLength(dq: seq<GameTree>, d: Discovery)
    requires AllListed(dq)
    ensures |Discover(dq, d).writeq| == |d.writeq| + |Bfs(dq)|
    decreases QueueSize(dq)
  {
    if dq != [] {
      var t := dq[0];
      ListedStep(dq);
      QueueStep(dq);
      DiscoverLength(dq[1..] + Children(t), DiscoverStep(t, d));
    }
  }

  /** One iteration of the pass-1 loop and one step of the breadth-first
      order: both pop the front node and enqueue its children. */
  lemma {:induction false} DiscoverUnfold(dq: seq<GameTree>, d: Discovery)
    requires AllListed(dq) && dq != []
    ensures KeysPresent(dq[0]) && AllListed(dq[1..] + Children(dq[0]))
    ensures QueueSize(dq[1..] + Children(dq[0])) < QueueSize(dq)
    ensures Discover(dq, d) == Discover(dq[1..] + Children(dq[0]), DiscoverStep(dq[0], d))
    ensures Bfs(dq) == [dq[0]] + Bfs(dq[1..] + Children(dq[0]))
  {
    ListedStep(dq);
    QueueStep(dq);
  }

  /** The block the pass-1 loop appends for the `j`-th node of the
      breadth-first order describes that node. */
  lemma {:induction false} DiscoverDescribesAt(dq: seq<GameTree>, d: Discovery, j: nat)
    requires AllListed(dq) && j < |Bfs(dq)|
    ensures |d.writeq| + j < |Discover(dq, d).writeq|
    ensures Describes(Discover(dq, d).writeq[|d.writeq| + j], Bfs(dq)[j])
    decreases QueueSize(dq)
  {
    DiscoverLength(dq, d);
    var t := dq[0];
    var dq' := dq[1..] + Children(t);
    DiscoverUnfold(dq, d);
    var next := DiscoverStep(t, d);
    if j == 0 {
      DiscoverStepDescribes(t, d);
    } else {
      DiscoverDescribesAt(dq', next, j - 1);
    }
  }

  /** The pass-1 loop appends the blocks in breadth-first order, each
      describing its node. */
  lemma {:induction false} DiscoverDescribes(dq: seq<GameTree>, d: Discovery)
    requires AllListed(dq)
    ensures |Discover(dq, d).writeq| == |d.writeq| + |Bfs(dq)|
    ensures forall j | 0 <= j < |Bfs(dq)| :: Describes(Discover(dq, d).writeq[|d.writeq| + j], Bfs(dq)[j])
  {
    DiscoverLength(dq, d);
    forall j | 0 <= j < |Bfs(dq)|
      ensures Describes(Discover(dq, d).writeq[|d.writeq| + j], Bfs(dq)[j])
    {
      DiscoverDescribesAt(dq, d, j);
    }
  }

  lemma {:induction false} TotalPlaysKids(blocks: seq<Block>, nodes: seq<GameTree>)
    requires |blocks| == |nodes|
    requires forall i | 0 <= i < |blocks| :: |blocks[i].plays| == |Children(nodes[i])|
    ensures TotalPlays(blocks) == TotalKids(nodes)
    decreases |blocks|
  {
    if blocks != [] {
      var n := |blocks| - 1;
      TotalPlaysKids(blocks[..n], nodes[..n]);
    }
  }

  lemma {:induction false} BfsLength(q: seq<GameTree>)
    ensures |Bfs(q)| == QueueSize(q)
    decreases QueueSize(q)
  {
    if q != [] {
      QueueStep(q);
      BfsLength(q[1..] + Children(q[0]));
    }
  }

  /** Pass 1 yields exactly one block per node, in breadth-first order, and
      block `j` describes the `j`-th node of that order. */
  lemma {:induction false} Pass1Describes(tree: GameTree)
    requires Listed(tree)
    ensures |Pass1(tree).writeq| == |Bfs([tree])| == Size(tree)
    ensures forall j | 0 <= j < |Bfs([tree])| :: Describes(Pass1(tree).writeq[j], Bfs([tree])[j])
  {
    DiscoverDescribes([tree], Discovery([], 1, 0, [0]));
    BfsLength([tree]);
    assert QueueSize([tree]) == Size(tree);
  }

  /** In a consistent state whose blocks describe some nodes, the block id
      in entry `k` of block `j` counts the children of the nodes before `j`,
      plus one, plus `k`. */
  lemma {:induction false} EntryCountsKids(d: Discovery, order: seq<GameTree>, j: nat, k: nat)
    requires Consistent(d) && |d.writeq| == |order|
    requires forall i | 0 <= i < |order| :: Describes(d.writeq[i], order[i])
    requires j < |order| && k < |d.writeq[j].plays|
    ensures k < |Children(order[j])|
    ensures d.writeq[j].plays[k].blockPointer == 1 + TotalKids(order[..j]) + k
  {
    assert Describes(d.writeq[j], order[j]);
    assert LaidOut(d, j);
    forall i | 0 <= i < j
      ensures |d.writeq[..j][i].plays| == |Children(order[..j][i])|
    {
      assert Describes(d.writeq[i], order[i]);
    }
    TotalPlaysKids(d.writeq[..j], order[..j]);
  }

  /** The block id in entry `k` of block `j` is the position, in the
      breadth-first order, of child `k` of the `j`-th node. */
  lemma {:induction false} Pass1PointsToChild(tree: GameTree, j: nat, k: nat)
    requires Listed(tree)
    requires j < |Pass1(tree).writeq| && k < |Pass1(tree).writeq[j].plays|
    ensures j < |Bfs([tree])| && k < |Children(Bfs([tree])[j])|
    ensures Pass1(tree).writeq[j].plays[k].blockPointer == 1 + TotalKids(Bfs([tree])[..j]) + k
    ensures Pass1(tree).writeq[j].plays[k].blockPointer < |Bfs([tree])|
    ensures Bfs([tree])[Pass1(tree).writeq[j].plays[k].blockPointer] == Children(Bfs([tree])[j])[k]
  {
    Pass1Describes(tree);
    EntryCountsKids(Pass1(tree), Bfs([tree]), j, k);
    BfsChildPosition(tree, j, k);
  }

  /** Entry `k` of block `j` points at the block of child `k` of the
      `j`-th node of `order`. */
  ghost predicate PointsToChild(blocks: seq<Block>, order: seq<GameTree>, j: nat, k: nat)
    requires j < |blocks| && j < |order| && k < |blocks[j].plays|
  {
    && k < |Children(order[j])|
    && blocks[j].plays[k].blockPointer < |order|
    && order[blocks[j].plays[k].blockPointer] == Children(order[j])[k]
  }

  /** Every entry's block id is the position of that very child in the
      breadth-first order, so the id names the child's own block. */
  lemma {:induction false} Pass1Pointers(tree: GameTree)
    requires Listed(tree)
    ensures |Pass1(tree).writeq| == |Bfs([tree])|
    ensures forall j, k | 0 <= j < |Bfs([tree])| && 0 <= k < |Pass1(tree).writeq[j].plays| ::
      PointsToChild(Pass1(tree).writeq, Bfs([tree]), j, k)
  {
    Pass1Describes(tree);
    forall j, k | 0 <= j < |Bfs([tree])| && 0 <= k < |Pass1(tree).writeq[j].plays|
      ensures PointsToChild(Pass1(tree).writeq, Bfs([tree]), j, k)
    {
      Pass1PointsToChild(tree, j, k);
    }
  }

  lemma {:induction false} SizesSumLaidOut(blocks: seq<Block>)
    requires forall j | 0 <= j < |blocks| :: blocks[j].size == HEADER_SIZE + PLAY_SIZE * |blocks[j].plays|
    ensures SizesSum(blocks) == HEADER_SIZE * |blocks| + PLAY_SIZE * TotalPlays(blocks)
    decreases |blocks|
  {
    if blocks != [] {
      SizesSumLaidOut(blocks[..|blocks| - 1]);
    }
  }

  /** The number of blocks is the number N of nodes; the address table has
      N + 1 slots, slot 0 holding 0 and slot j + 1 the address of block j;
      and the whole book takes 8·N + 24·(N − 1) bytes. */
  lemma {:induction false} Pass1Totals(tree: GameTree)
    requires Listed(tree)
    ensures var d := Pass1(tree);
      && d.bid == |d.writeq| == Size(tree)
      && |d.addrMap| == Size(tree) + 1
      && d.addrMap[0] == 0
      && (forall j | 0 <= j < |d.writeq| :: d.addrMap[j + 1] == d.writeq[j].addr == SizesSum(d.writeq[..j]))
      && d.currentAddr == HEADER_SIZE * Size(tree) + PLAY_SIZE * (Size(tree) - 1)
  {
    var d := Pass1(tree);
    Pass1Describes(tree);
    forall j | 0 <= j < |d.writeq|
      ensures d.writeq[j].size == HEADER_SIZE + PLAY_SIZE * |d.writeq[j].plays|
      ensures d.addrMap[j + 1] == d.writeq[j].addr == SizesSum(d.writeq[..j])
    {
      assert LaidOut(d, j);
    }
    SizesSumLaidOut(d.writeq);
  }
}
