/**
  The game-tree builder: each 64-byte game record is split into its move
  sequence and its disc differential, and the record's moves are walked down a
  prefix tree from the root, one move per turn, updating a running average
  score and a play counter on every node the walk visits.
 */
module Tree {

  /** One octet. */
  type byte = x: int | 0 <= x < 256

  /** The turn limit hard-coded by the builder. The model takes the limit as a
      parameter `maxTurns`; this constant is the instance used by the builder's
      own constant. */
  const MAX_TURNS: nat := 20

  /** The end-of-game move code: not a real move and never a child key. */
  const END_OF_GAME: byte := 0xff

  /** Size of one record and of its move area. */
  const RECORD_SIZE: nat := 64
  const MOVES_SIZE: nat := 60

  /** Offsets of the two disc counts inside a record. */
  const BLACK_OFFSET: nat := 62
  const WHITE_OFFSET: nat := 63

  datatype Option<T> = None | Some(value: T)

  /** A node of the prefix tree. `children` maps a move code to the subtree
      reached by it; `playKeys` records the order in which those move codes
      were first seen, kept apart from the map's own key order; `score` is the
      running average of the differentials of the records that visited the
      node and `plays` how many there were. */
  datatype GameTree = GameTree(
    children: map<byte, GameTree>,
    playKeys: seq<byte>,
    score: real,
    plays: nat)

  /** A parsed record: the move area and the two final disc counts. */
  datatype Record = Record(moves: seq<byte>, black: byte, white: byte)

  /** The fresh node: no children, no recorded plays. */
  function New(): (t: GameTree)
    ensures WellFormed(t) && NoSentinel(t)
    ensures forall maxTurns: nat :: Bounded(t, maxTurns, maxTurns)
  {
    GameTree(map[], [], 0.0, 0)
  }

  /* ---------------------------------------------------------------------- */
  /* Invariants of the tree                                                 */
  /* ---------------------------------------------------------------------- */

  /** The key list has no duplicates, lists exactly the keys of the child map,
      and the same holds in every subtree. */
  ghost predicate WellFormed(t: GameTree)
    decreases t
  {
    && (forall i, j | 0 <= i < j < |t.playKeys| :: t.playKeys[i] != t.playKeys[j])
    && (forall k :: k in t.children <==> k in t.playKeys)
    && (forall k | k in t.children :: WellFormed(t.children[k]))
  }

  /** No node anywhere has a child under the end-of-game code. */
  ghost predicate NoSentinel(t: GameTree)
    decreases t
  {
    && END_OF_GAME !in t.children
    && (forall k | k in t.children :: NoSentinel(t.children[k]))
  }

  /** `t` sits at turn `turn`: no node lies deeper than `maxTurns`, and every
      node at depth `maxTurns` is a fresh node that was never updated. */
  ghost predicate Bounded(t: GameTree, turn: nat, maxTurns: nat)
    decreases t
  {
    && turn <= maxTurns
    && (turn == maxTurns ==> t == GameTree(map[], [], 0.0, 0))
    && (forall k | k in t.children :: Bounded(t.children[k], turn + 1, maxTurns))
  }

  /* ---------------------------------------------------------------------- */
  /* Reading a record                                                        */
  /* ---------------------------------------------------------------------- */

  /** Splits a record into its 60 move codes and its two disc counts. Indexing
      past the end of a short buffer panics, so the buffer must hold at least
      one record. */
  function ReadBuf(buf: seq<byte>): (r: Record)
    requires |buf| >= RECORD_SIZE
    ensures |r.moves| == MOVES_SIZE
    ensures forall i | 0 <= i < MOVES_SIZE :: r.moves[i] == buf[i]
    ensures r.black == buf[BLACK_OFFSET] && r.white == buf[WHITE_OFFSET]
  {
    Record(buf[0..MOVES_SIZE], buf[BLACK_OFFSET], buf[WHITE_OFFSET])
  }

  /** The score a record contributes to every node on its path: black discs
      minus white discs. */
  function Differential(r: Record): (s: real)
    ensures -255.0 <= s <= 255.0
    ensures s == 0.0 <==> r.black == r.white
    ensures s > 0.0 <==> r.black > r.white
  {
    (r.black as real) - (r.white as real)
  }

  /* ---------------------------------------------------------------------- */
  /* Inserting a record                                                      */
  /* ---------------------------------------------------------------------- */

  /** The running average after one more play of score `s` on a node whose
      average over `plays` plays was `score`. */
  function Average(score: real, plays: nat, s: real): real
  {
    (score * plays as real + s) / (plays + 1) as real
  }

  /** Walks the remaining moves `pl` down from `t`, which sits at turn `turn`.
      Nothing happens at or beyond the turn limit or once the moves run out;
      otherwise the node's statistics take the score `s`, the walk stops at the
      end-of-game code, and it continues into the child for the move,
      creating that child (and appending its key) when it was absent. */
  function AddPlay2(t: GameTree, pl: seq<byte>, s: real, turn: nat, maxTurns: nat): (r: GameTree)
    decreases |pl|
    ensures turn >= maxTurns || pl == [] ==> r == t
    ensures t.children.Keys <= r.children.Keys
    ensures |r.children.Keys - t.children.Keys| <= 1
    ensures t.playKeys <= r.playKeys
    ensures forall k | k in r.children && k !in t.children :: r.playKeys == t.playKeys + [k]
    ensures r.children.Keys == t.children.Keys ==> r.playKeys == t.playKeys
    ensures r.plays == t.plays || r.plays == t.plays + 1
  {
    if turn >= maxTurns then t
    else if pl == [] then t
    else
      var p := pl[0];
      var bumped := t.(score := Average(t.score, t.plays, s), plays := t.plays + 1);
      if p == END_OF_GAME then bumped
      else if p !in t.children then
        var child := AddPlay2(New(), pl[1..], s, turn + 1, maxTurns);
        bumped.(children := t.children[p := child], playKeys := t.playKeys + [p])
      else
        var child := AddPlay2(t.children[p], pl[1..], s, turn + 1, maxTurns);
        bumped.(children := t.children[p := child])
  }

  /** Inserts one record, starting at the root with turn 0. */
  function AddPlay(t: GameTree, buf: seq<byte>, maxTurns: nat): (r: GameTree)
    requires |buf| >= RECORD_SIZE
    ensures maxTurns > 0 ==> r.plays == t.plays + 1
  {
    var rec := ReadBuf(buf);
    AddPlay2(t, rec.moves, Differential(rec), 0, maxTurns)
  }

  /** Every buffer holds at least one record. */
  predicate AllRecords(bufs: seq<seq<byte>>)
  {
    forall i | 0 <= i < |bufs| :: |bufs[i]| >= RECORD_SIZE
  }

  /** The tree built by inserting the records one after the other into a
      fresh root. */
  function Build(bufs: seq<seq<byte>>, maxTurns: nat): (t: GameTree)
    requires AllRecords(bufs)
    decreases |bufs|
    ensures maxTurns > 0 ==> t.plays == |bufs|
  {
    if bufs == [] then New()
    else AddPlay(Build(bufs[..|bufs| - 1], maxTurns), bufs[|bufs| - 1], maxTurns)
  }

  /* ---------------------------------------------------------------------- */
  /* Paths                                                                   */
  /* ---------------------------------------------------------------------- */

  /** The subtree reached from `t` by following the move codes of `path`. */
  function At(t: GameTree, path: seq<byte>): Option<GameTree>
    decreases |path|
  {
    if path == [] then Some(t)
    else if path[0] in t.children then At(t.children[path[0]], path[1..])
    else None
  }

  /** The play count at `path`, zero where there is no node. */
  function PlaysAt(t: GameTree, path: seq<byte>): nat
  {
    match At(t, path)
    case Some(n) => n.plays
    case None => 0
  }

  /** The score at `path`, zero where there is no node. */
  function ScoreAt(t: GameTree, path: seq<byte>): real
  {
    match At(t, path)
    case Some(n) => n.score
    case None => 0.0
  }

  /** The walk of `pl` started at turn `turn` enters the node at `path`
      (creating it when absent). */
  predicate Enters(pl: seq<byte>, turn: nat, maxTurns: nat, path: seq<byte>)
    decreases |path|
  {
    || path == []
    || (&& turn < maxTurns && |pl| > 0
        && pl[0] != END_OF_GAME && pl[0] == path[0]
        && Enters(pl[1..], turn + 1, maxTurns, path[1..]))
  }

  /** The walk of `pl` started at turn `turn` updates the statistics of the
      node at `path`. */
  predicate Updates(pl: seq<byte>, turn: nat, maxTurns: nat, path: seq<byte>)
    decreases |path|
  {
    && turn < maxTurns && |pl| > 0
    && (|| path == []
        || (&& pl[0] != END_OF_GAME && pl[0] == path[0]
            && Updates(pl[1..], turn + 1, maxTurns, path[1..])))
  }
}
