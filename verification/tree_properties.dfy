/**
  Properties of the game-tree builder: the structural invariants every
  insertion keeps, what one insertion does at every path of the tree, and the
  averaging invariant of a whole build.
 */
module TreeProperties {
  import opened Tree

  /* ---------------------------------------------------------------------- */
  /* Reading a record                                                        */
  /* ---------------------------------------------------------------------- */

  /** A record laid out as 60 move codes, two ignored bytes, the black and the
      white disc counts reads back as exactly those moves and counts, whatever
      the two ignored bytes and whatever follows the record. */
  lemma {:induction false} ReadBufLayout(moves: seq<byte>, x: byte, y: byte, black: byte, white: byte, tail: seq<byte>)
    requires |moves| == MOVES_SIZE
    ensures ReadBuf(moves + [x, y, black, white] + tail) == Record(moves, black, white)
  {
    var buf := moves + [x, y, black, white] + tail;
    assert buf[0..MOVES_SIZE] == moves;
  }

  /* ---------------------------------------------------------------------- */
  /* Structural invariants                                                   */
  /* ---------------------------------------------------------------------- */

  /** Adding a fresh key with its subtree at the end of the key list keeps a
      node well formed. */
  lemma {:induction false} WellFormedInsert(t: GameTree, p: byte, child: GameTree, score: real, plays: nat)
    requires WellFormed(t) && WellFormed(child) && p !in t.children
    ensures WellFormed(GameTree(t.children[p := child], t.playKeys + [p], score, plays))
  {
    var r := GameTree(t.children[p := child], t.playKeys + [p], score, plays);
    assert p !in t.playKeys;
    forall i, j | 0 <= i < j < |r.playKeys|
      ensures r.playKeys[i] != r.playKeys[j]
    {
      if j == |t.playKeys| {
        assert r.playKeys[i] == t.playKeys[i];
      }
    }
    forall k | k in r.children
      ensures WellFormed(r.children[k])
    {
      if k != p {
        assert r.children[k] == t.children[k];
      }
    }
  }

  /** Replacing the subtree of an existing key keeps a node well formed. */
  lemma {:induction false} WellFormedReplace(t: GameTree, p: byte, child: GameTree, score: real, plays: nat)
    requires WellFormed(t) && WellFormed(child) && p in t.children
    ensures WellFormed(GameTree(t.children[p := child], t.playKeys, score, plays))
  {
    var r := GameTree(t.children[p := child], t.playKeys, score, plays);
    forall k | k in r.children
      ensures WellFormed(r.children[k])
    {
      if k != p {
        assert r.children[k] == t.children[k];
      }
    }
  }

  /** One insertion keeps the key list duplicate-free and equal, as a set, to
      the keys of the child map, at every node. */
  lemma {:induction false} AddPlay2WellFormed(t: GameTree, pl: seq<byte>, s: real, turn: nat, maxTurns: nat)
    requires WellFormed(t)
    ensures WellFormed(AddPlay2(t, pl, s, turn, maxTurns))
    decreases |pl|
  {
    if turn < maxTurns && pl != [] && pl[0] != END_OF_GAME {
      var p := pl[0];
      var score := Average(t.score, t.plays, s);
      if p !in t.children {
        var child := AddPlay2(New(), pl[1..], s, turn + 1, maxTurns);
        AddPlay2WellFormed(New(), pl[1..], s, turn + 1, maxTurns);
        WellFormedInsert(t, p, child, score, t.plays + 1);
      } else {
        var child := AddPlay2(t.children[p], pl[1..], s, turn + 1, maxTurns);
        AddPlay2WellFormed(t.children[p], pl[1..], s, turn + 1, maxTurns);
        WellFormedReplace(t, p, child, score, t.plays + 1);
      }
    }
  }

  /** One insertion never creates a child under the end-of-game code. */
  lemma {:induction false} AddPlay2NoSentinel(t: GameTree, pl: seq<byte>, s: real, turn: nat, maxTurns: nat)
    requires NoSentinel(t)
    ensures NoSentinel(AddPlay2(t, pl, s, turn, maxTurns))
    decreases |pl|
  {
    if turn < maxTurns && pl != [] && pl[0] != END_OF_GAME {
      var p := pl[0];
      var r := AddPlay2(t, pl, s, turn, maxTurns);
      var c := if p in t.children then t.children[p] else New();
      AddPlay2NoSentinel(c, pl[1..], s, turn + 1, maxTurns);
      forall k | k in r.children
        ensures NoSentinel(r.children[k])
      {
        if k != p {
          assert r.children[k] == t.children[k];
        }
      }
    }
  }

  /** One insertion keeps the depth bound: nothing lies deeper than the turn
      limit and nodes at the limit stay fresh. */
  lemma {:induction false} AddPlay2Bounded(t: GameTree, pl: seq<byte>, s: real, turn: nat, maxTurns: nat)
    requires Bounded(t, turn, maxTurns)
    ensures Bounded(AddPlay2(t, pl, s, turn, maxTurns), turn, maxTurns)
    decreases |pl|
  {
    if turn < maxTurns && pl != [] && pl[0] != END_OF_GAME {
      var p := pl[0];
      var r := AddPlay2(t, pl, s, turn, maxTurns);
      var c := if p in t.children then t.children[p] else New();
      AddPlay2Bounded(c, pl[1..], s, turn + 1, maxTurns);
      forall k | k in r.children
        ensures Bounded(r.children[k], turn + 1, maxTurns)
      {
        if k != p {
          assert r.children[k] == t.children[k];
        }
      }
    }
  }

  /** Every tree built from records satisfies the three structural
      invariants. */
  lemma {:induction false} BuildInvariants(bufs: seq<seq<byte>>, maxTurns: nat)
    requires AllRecords(bufs)
    ensures WellFormed(Build(bufs, maxTurns))
    ensures NoSentinel(Build(bufs, maxTurns))
    ensures Bounded(Build(bufs, maxTurns), 0, maxTurns)
    decreases |bufs|
  {
    if bufs != [] {
      var prefix := bufs[..|bufs| - 1];
      BuildInvariants(prefix, maxTurns);
      var rec := ReadBuf(bufs[|bufs| - 1]);
      var t := Build(prefix, maxTurns);
      AddPlay2WellFormed(t, rec.moves, Differential(rec), 0, maxTurns);
      AddPlay2NoSentinel(t, rec.moves, Differential(rec), 0, maxTurns);
      AddPlay2Bounded(t, rec.moves, Differential(rec), 0, maxTurns);
    }
  }

  /** In a bounded tree every node lies at most `maxTurns` moves below the
      root, and a node exactly `maxTurns` moves deep has never been updated. */
  lemma {:induction false} BoundedDepth(t: GameTree, turn: nat, maxTurns: nat, path: seq<byte>)
    requires Bounded(t, turn, maxTurns)
    requires At(t, path).Some?
    ensures turn + |path| <= maxTurns
    ensures turn + |path| == maxTurns ==> At(t, path).value == New()
    decreases |path|
  {
    if path != [] {
      BoundedDepth(t.children[path[0]], turn + 1, maxTurns, path[1..]);
    }
  }

  /* ---------------------------------------------------------------------- */
  /* One insertion, seen at every path                                       */
  /* ---------------------------------------------------------------------- */

  /** Below a fresh node there is nothing, so every statistic read below it is
      zero. */
  lemma {:induction false} FreshStatistics(path: seq<byte>)
    ensures PlaysAt(New(), path) == 0 && ScoreAt(New(), path) == 0.0
    ensures path != [] ==> At(New(), path) == None
  {
  }

  /** The child of `t` under `k` after one insertion at turn `turn` that does
      not descend into `k` (the walk stops here, or goes elsewhere): it is the
      child that was there before. */
  lemma {:induction false} OffPathChild(t: GameTree, pl: seq<byte>, s: real, turn: nat, maxTurns: nat, k: byte)
    requires turn < maxTurns && pl != []
    requires pl[0] == END_OF_GAME || pl[0] != k
    ensures var r := AddPlay2(t, pl, s, turn, maxTurns);
      && (k in r.children <==> k in t.children)
      && (k in t.children ==> r.children[k] == t.children[k])
  {
  }

  /** Frame: one insertion leaves every node it does not enter exactly as it
      was, subtree and all; only the nodes on the walked path change. */
  lemma {:induction false} AddPlay2Frame(t: GameTree, pl: seq<byte>, s: real, turn: nat, maxTurns: nat, path: seq<byte>)
    requires !Enters(pl, turn, maxTurns, path)
    ensures At(AddPlay2(t, pl, s, turn, maxTurns), path) == At(t, path)
    decreases |path|
  {
    if turn < maxTurns && pl != [] {
      var p := pl[0];
      var k := path[0];
      if p == END_OF_GAME || k != p {
        OffPathChild(t, pl, s, turn, maxTurns, k);
      } else {
        var c := if p in t.children then t.children[p] else New();
        AddPlay2Frame(c, pl[1..], s, turn + 1, maxTurns, path[1..]);
        if p !in t.children {
          FreshStatistics(path[1..]);
        }
      }
    }
  }

  /** Every node the walk enters exists after the insertion. */
  lemma {:induction false} AddPlay2Creates(t: GameTree, pl: seq<byte>, s: real, turn: nat, maxTurns: nat, path: seq<byte>)
    requires Enters(pl, turn, maxTurns, path)
    ensures At(AddPlay2(t, pl, s, turn, maxTurns), path).Some?
    decreases |path|
  {
    if path != [] {
      var p := pl[0];
      var c := if p in t.children then t.children[p] else New();
      AddPlay2Creates(c, pl[1..], s, turn + 1, maxTurns, path[1..]);
    }
  }

  /** What one insertion does to the play count at an arbitrary path: a node
      the walk updates gains one play; every other node keeps its count. */
  lemma {:induction false} AddPlay2Plays(t: GameTree, pl: seq<byte>, s: real, turn: nat, maxTurns: nat, path: seq<byte>)
    ensures PlaysAt(AddPlay2(t, pl, s, turn, maxTurns), path) ==
      PlaysAt(t, path) + (if Updates(pl, turn, maxTurns, path) then 1 else 0)
    decreases |path|
  {
    if turn < maxTurns && pl != [] && path != [] {
      var p := pl[0];
      var k := path[0];
      if p == END_OF_GAME || k != p {
        OffPathChild(t, pl, s, turn, maxTurns, k);
      } else {
        var c := if p in t.children then t.children[p] else New();
        AddPlay2Plays(c, pl[1..], s, turn + 1, maxTurns, path[1..]);
        if p !in t.children {
          FreshStatistics(path[1..]);
        }
      }
    }
  }

  /** What one insertion does to the score at an arbitrary path: a node the
      walk updates takes the running average with the record's score; every
      other node keeps its score. */
  lemma {:induction false} AddPlay2Scores(t: GameTree, pl: seq<byte>, s: real, turn: nat, maxTurns: nat, path: seq<byte>)
    ensures ScoreAt(AddPlay2(t, pl, s, turn, maxTurns), path) ==
      (if Updates(pl, turn, maxTurns, path)
       then Average(ScoreAt(t, path), PlaysAt(t, path), s)
       else ScoreAt(t, path))
    decreases |path|
  {
    if turn < maxTurns && pl != [] && path != [] {
      var p := pl[0];
      var k := path[0];
      if p == END_OF_GAME || k != p {
        OffPathChild(t, pl, s, turn, maxTurns, k);
      } else {
        var c := if p in t.children then t.children[p] else New();
        AddPlay2Scores(c, pl[1..], s, turn + 1, maxTurns, path[1..]);
        if p !in t.children {
          FreshStatistics(path[1..]);
        }
      }
    }
  }

  /** What one insertion does to the statistics at an arbitrary path: a node
      the walk updates gains one play and takes the running average with the
      record's score; every other node keeps its statistics. */
  lemma {:induction false} AddPlay2Statistics(t: GameTree, pl: seq<byte>, s: real, turn: nat, maxTurns: nat, path: seq<byte>)
    ensures var r := AddPlay2(t, pl, s, turn, maxTurns);
      && PlaysAt(r, path) == PlaysAt(t, path) + (if Updates(pl, turn, maxTurns, path) then 1 else 0)
      && ScoreAt(r, path) ==
           (if Updates(pl, turn, maxTurns, path)
            then Average(ScoreAt(t, path), PlaysAt(t, path), s)
            else ScoreAt(t, path))
  {
    AddPlay2Plays(t, pl, s, turn, maxTurns, path);
    AddPlay2Scores(t, pl, s, turn, maxTurns, path);
  }

  /** Key lists are append-only: at every node that existed before an
      insertion, the old key list is a prefix of the new one. */
  lemma {:induction false} AddPlay2KeysGrow(t: GameTree, pl: seq<byte>, s: real, turn: nat, maxTurns: nat, path: seq<byte>)
    requires At(t, path).Some?
    ensures At(AddPlay2(t, pl, s, turn, maxTurns), path).Some?
    ensures At(t, path).value.playKeys <= At(AddPlay2(t, pl, s, turn, maxTurns), path).value.playKeys
    decreases |path|
  {
    if turn < maxTurns && pl != [] && path != [] {
      var p := pl[0];
      var k := path[0];
      if p == END_OF_GAME || k != p {
        OffPathChild(t, pl, s, turn, maxTurns, k);
      } else {
        AddPlay2KeysGrow(t.children[p], pl[1..], s, turn + 1, maxTurns, path[1..]);
      }
    }
  }

  /* ---------------------------------------------------------------------- */
  /* The averaging invariant                                                 */
  /* ---------------------------------------------------------------------- */

  /** Sum of a sequence of scores, taken from the back. */
  function Sum(ss: seq<real>): real
  {
    if ss == [] then 0.0 else Sum(ss[..|ss| - 1]) + ss[|ss| - 1]
  }

  /** Arithmetic mean of a sequence of scores, zero for none. */
  function Mean(ss: seq<real>): real
  {
    if ss == [] then 0.0 else Sum(ss) / |ss| as real
  }

  /** The running-average update extends the mean by one more score. */
  lemma {:induction false} AverageExtendsMean(ss: seq<real>, s: real)
    ensures Average(Mean(ss), |ss|, s) == Mean(ss + [s])
  {
    var n := |ss| as real;
    assert (ss + [s])[..|ss|] == ss;
    assert Sum(ss + [s]) == Sum(ss) + s;
    if ss != [] {
      assert Mean(ss) * n == Sum(ss);
    }
  }

  /** The scores, in arrival order, of the records whose walk updates the
      node at `path`. */
  function Visitors(bufs: seq<seq<byte>>, maxTurns: nat, path: seq<byte>): seq<real>
    requires AllRecords(bufs)
    decreases |bufs|
  {
    if bufs == [] then []
    else
      var rec := ReadBuf(bufs[|bufs| - 1]);
      Visitors(bufs[..|bufs| - 1], maxTurns, path)
        + (if Updates(rec.moves, 0, maxTurns, path) then [Differential(rec)] else [])
  }

  /** The averaging invariant: at every path of a built tree the play count is
      the number of records whose walk updated that node and the score is the
      mean of their differentials (both zero where no record got there). */
  lemma {:induction false} BuildAverages(bufs: seq<seq<byte>>, maxTurns: nat, path: seq<byte>)
    requires AllRecords(bufs)
    ensures PlaysAt(Build(bufs, maxTurns), path) == |Visitors(bufs, maxTurns, path)|
    ensures ScoreAt(Build(bufs, maxTurns), path) == Mean(Visitors(bufs, maxTurns, path))
    decreases |bufs|
  {
    if bufs == [] {
      FreshStatistics(path);
    } else {
      var prefix := bufs[..|bufs| - 1];
      BuildAverages(prefix, maxTurns, path);
      var rec := ReadBuf(bufs[|bufs| - 1]);
      var t := Build(prefix, maxTurns);
      AddPlay2Statistics(t, rec.moves, Differential(rec), 0, maxTurns, path);
      var before := Visitors(prefix, maxTurns, path);
      if Updates(rec.moves, 0, maxTurns, path) {
        AverageExtendsMean(before, Differential(rec));
        assert Visitors(bufs, maxTurns, path) == before + [Differential(rec)];
      } else {
        assert Visitors(bufs, maxTurns, path) == before;
      }
    }
  }

  /** The mean of scores that all lie in [lo, hi] lies in [lo, hi]. */
  lemma {:induction false} MeanBounds(ss: seq<real>, lo: real, hi: real)
    requires lo <= 0.0 <= hi
    requires forall i | 0 <= i < |ss| :: lo <= ss[i] <= hi
    ensures lo <= Mean(ss) <= hi
  {
    SumBounds(ss, lo, hi);
    if ss != [] {
      var n := |ss| as real;
      assert lo * n <= Sum(ss) <= hi * n;
    }
  }

  lemma {:induction false} SumBounds(ss: seq<real>, lo: real, hi: real)
    requires forall i | 0 <= i < |ss| :: lo <= ss[i] <= hi
    ensures lo * |ss| as real <= Sum(ss) <= hi * |ss| as real
    decreases |ss|
  {
    if ss != [] {
      SumBounds(ss[..|ss| - 1], lo, hi);
    }
  }

  lemma {:induction false} VisitorsBounded(bufs: seq<seq<byte>>, maxTurns: nat, path: seq<byte>)
    requires AllRecords(bufs)
    ensures forall i | 0 <= i < |Visitors(bufs, maxTurns, path)| ::
      -255.0 <= Visitors(bufs, maxTurns, path)[i] <= 255.0
    decreases |bufs|
  {
    if bufs != [] {
      VisitorsBounded(bufs[..|bufs| - 1], maxTurns, path);
    }
  }

  /** Every score stored in a built tree is an average of differentials and so
      lies in [-255, 255]. */
  lemma {:induction false} BuildScoreBounds(bufs: seq<seq<byte>>, maxTurns: nat, path: seq<byte>)
    requires AllRecords(bufs)
    ensures -255.0 <= ScoreAt(Build(bufs, maxTurns), path) <= 255.0
  {
    BuildAverages(bufs, maxTurns, path);
    VisitorsBounded(bufs, maxTurns, path);
    MeanBounds(Visitors(bufs, maxTurns, path), -255.0, 255.0);
  }
}
