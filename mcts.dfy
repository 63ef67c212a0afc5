/**
 * Monte Carlo tree search. The tree is an arena: a sequence of nodes
 * addressed by index, the root at index 0, each node holding the index of
 * its father (-1 for the root), the indices of its children keyed by cell
 * and the index of its pass child. Nodes are only ever appended, so a
 * child's index is larger than its father's.
 */
module Mcts {
  import opened Chessboard

  datatype Option<T> = None | Some(value: T)

  /**
   * The UCT score of a legal cell: given the exploration constant, the
   * node's visit count and the child's visit count and summed reward
   * (None when the cell has no child yet), a real number.
   */
  type Uct = (real, nat, Option<(nat, real)>) -> real

  /** One tree node: position, player to move, links and visit statistics. */
  datatype Node = Node(
    board: Board,
    who: Player,
    father: int,
    childs: map<(int, int), nat>,
    pass: Option<nat>,
    n: nat,
    sigmaQ: real)

  /** A fresh node: no children and no visits. */
  function Leaf(board: Board, who: Player, father: int): (nd: Node)
    ensures nd.childs == map[] && nd.pass == None && nd.n == 0 && nd.sigmaQ == 0.0
  {
    Node(board, who, father, map[], None, 0, 0.0)
  }

  // ---------------------------------------------------------------------------
  // Well-formed arenas.

  /** Index 0 is the root; every other node's father comes before it. */
  ghost predicate Rooted(s: seq<Node>) {
    && |s| >= 1
    && s[0].father == -1
    && forall k :: 0 < k < |s| ==> 0 <= s[k].father < k
  }

  /** Visit statistics: no reward without visits, and each visit adds a reward in [-1, 1]. */
  predicate StatsOk(nd: Node) {
    && (nd.n == 0 ==> nd.sigmaQ == 0.0)
    && -(nd.n as real) <= nd.sigmaQ <= nd.n as real
  }

  /** A child reached by placing on cell m: the placed board, the other player. */
  ghost predicate CellChild(pb: Board, pw: Player, m: (int, int), cb: Board, cw: Player) {
    && InBounds(m.0, m.1)
    && Legal(pb, pw, m.0, m.1)
    && cb == Applied(pb, pw, m.0, m.1)
    && cw == Other(pw)
  }

  /** The links of node k lead to later nodes that name k as father and fit their slot. */
  ghost predicate Linked(s: seq<Node>, k: int)
    requires 0 <= k < |s|
  {
    && (forall m :: m in s[k].childs ==>
          var j := s[k].childs[m];
          k < j < |s| && s[j].father == k && CellChild(s[k].board, s[k].who, m, s[j].board, s[j].who))
    && (s[k].pass.Some? ==>
          var j := s[k].pass.value;
          k < j < |s| && s[j].father == k && s[j].board == s[k].board && s[j].who == Other(s[k].who))
  }

  ghost predicate ValidArena(s: seq<Node>) {
    && Rooted(s)
    && forall k :: 0 <= k < |s| ==> StatsOk(s[k]) && Linked(s, k)
  }

  /** Two nodes that differ at most in their visit statistics. */
  predicate SameShape(a: Node, b: Node) {
    a.board == b.board && a.who == b.who && a.father == b.father && a.childs == b.childs && a.pass == b.pass
  }

  /** Changing only the statistics of nodes, within the bounds, keeps an arena valid. */
  lemma StatsChangeKeepsValid(s: seq<Node>, s': seq<Node>)
    requires ValidArena(s) && |s'| == |s|
    requires forall k :: 0 <= k < |s| ==> SameShape(s[k], s'[k]) && StatsOk(s'[k])
    ensures ValidArena(s')
  {
    forall k | 0 <= k < |s'|
      ensures Linked(s', k)
    {
      assert Linked(s, k);
    }
  }

  // ---------------------------------------------------------------------------
  // The backup path.

  /**
   * The sign with which a backup started at node i reaches node k: +1 at i,
   * alternating along the chain of fathers up to the root, and 0 for every
   * node off that chain.
   */
  ghost function PathSign(s: seq<Node>, i: int, k: int): (r: int)
    requires Rooted(s) && 0 <= i < |s|
    ensures -1 <= r <= 1
    ensures k > i ==> r == 0
    decreases i
  {
    if k == i then 1
    else if k > i || s[i].father < 0 then 0
    else -PathSign(s, s[i].father, k)
  }

  /** Every backup reaches the root. */
  lemma {:induction false} PathReachesRoot(s: seq<Node>, i: int)
    requires Rooted(s) && 0 <= i < |s|
    ensures PathSign(s, i, 0) != 0
    decreases i
  {
    if i != 0 {
      PathReachesRoot(s, s[i].father);
    }
  }

  /** Along the path the sign flips from each node to its father. */
  lemma {:induction false} PathFather(s: seq<Node>, i: int, k: int)
    requires Rooted(s) && 0 <= i < |s| && 0 <= k < |s|
    requires PathSign(s, i, k) != 0 && s[k].father >= 0
    ensures PathSign(s, i, s[k].father) == -PathSign(s, i, k)
    decreases i
  {
    if k != i {
      PathFather(s, s[i].father, k);
    }
  }

  /** No node strictly between a path node and its father lies on the path. */
  lemma {:induction false} PathGap(s: seq<Node>, i: int, k: int, j: int)
    requires Rooted(s) && 0 <= i < |s| && 0 <= k < |s|
    requires PathSign(s, i, k) != 0 && s[k].father < j < k
    ensures PathSign(s, i, j) == 0
    decreases i
  {
    if k != i {
      PathGap(s, s[i].father, k, j);
    }
  }

  /** A node after a backup of `d` that reached it with sign `sign`. */
  function Bumped(nd: Node, sign: int, d: real): (r: Node)
    ensures SameShape(nd, r)
  {
    if sign == 0 then nd
    else nd.(n := nd.n + 1, sigmaQ := nd.sigmaQ + (if sign > 0 then d else -d))
  }

  /** A backup of a reward in [-1, 1] keeps the statistics invariant. */
  lemma BumpedStatsOk(nd: Node, sign: int, d: real)
    requires StatsOk(nd) && -1.0 <= d <= 1.0
    ensures StatsOk(Bumped(nd, sign, d))
  {
  }

  /** A backup of `d` from node i that has handled the path nodes above index `cur`. */
  ghost predicate BackedUpAbove(s0: seq<Node>, s: seq<Node>, i: int, cur: int, d: real)
    requires Rooted(s0) && 0 <= i < |s0|
  {
    && |s| == |s0|
    && forall k :: 0 <= k < |s| ==> s[k] == Bumped(s0[k], if k > cur then PathSign(s0, i, k) else 0, d)
  }

  /** One step of Backup's walk: handle path node `cur`, move to its father. */
  lemma BackupStep(s0: seq<Node>, s: seq<Node>, i: int, cur: int, d: real, dCur: real)
    requires Rooted(s0) && 0 <= i < |s0| && 0 <= cur < |s0|
    requires BackedUpAbove(s0, s, i, cur, d)
    requires PathSign(s0, i, cur) != 0 && dCur == (if PathSign(s0, i, cur) > 0 then d else -d)
    ensures BackedUpAbove(s0, s[cur := s[cur].(n := s[cur].n + 1, sigmaQ := s[cur].sigmaQ + dCur)], i, s0[cur].father, d)
    ensures s0[cur].father >= 0 ==> PathSign(s0, i, s0[cur].father) == -PathSign(s0, i, cur)
  {
    var f := s0[cur].father;
    if f >= 0 {
      PathFather(s0, i, cur);
    }
    var s' := s[cur := s[cur].(n := s[cur].n + 1, sigmaQ := s[cur].sigmaQ + dCur)];
    forall k | 0 <= k < |s'|
      ensures s'[k] == Bumped(s0[k], if k > f then PathSign(s0, i, k) else 0, d)
    {
      if k == cur {
        assert s[k] == s0[k];
      } else {
        assert s'[k] == s[k];
        if f < k < cur {
          PathGap(s0, i, cur, k);
        }
        assert (if k > cur then PathSign(s0, i, k) else 0) == (if k > f then PathSign(s0, i, k) else 0);
      }
    }
  }

  /** A finished backup of a reward in [-1, 1] keeps the arena valid. */
  lemma BackupKeepsValid(s0: seq<Node>, s: seq<Node>, i: int, d: real)
    requires ValidArena(s0) && 0 <= i < |s0| && -1.0 <= d <= 1.0
    requires BackedUpAbove(s0, s, i, -1, d)
    ensures ValidArena(s)
  {
    forall k | 0 <= k < |s0|
      ensures SameShape(s0[k], s[k]) && StatsOk(s[k])
    {
      BumpedStatsOk(s0[k], PathSign(s0, i, k), d);
    }
    StatsChangeKeepsValid(s0, s);
  }

  /** The arena after a backup of `d` from node j: every node bumped with its path sign. */
  ghost function BackedUp(s: seq<Node>, j: int, d: real): (r: seq<Node>)
    requires Rooted(s) && 0 <= j < |s|
    ensures |r| == |s|
  {
    seq(|s|, k requires 0 <= k < |s| => Bumped(s[k], PathSign(s, j, k), d))
  }

  /** A walk that has handled the whole path is the backup. */
  lemma BackedUpDone(s0: seq<Node>, s: seq<Node>, i: int, d: real)
    requires Rooted(s0) && 0 <= i < |s0| && BackedUpAbove(s0, s, i, -1, d)
    ensures s == BackedUp(s0, i, d)
  {
  }

  /**
   * A backup from node j adds one visit to j and one to the root, and
   * changes no node's position, player or links.
   */
  lemma BackedUpVisits(s: seq<Node>, j: int, d: real)
    requires Rooted(s) && 0 <= j < |s|
    ensures BackedUp(s, j, d)[j].n == s[j].n + 1
    ensures BackedUp(s, j, d)[0].n == s[0].n + 1
    ensures forall k :: 0 <= k < |s| ==> SameShape(s[k], BackedUp(s, j, d)[k])
  {
    PathReachesRoot(s, j);
  }

  // ---------------------------------------------------------------------------
  // Expansion.

  /** The slot of cell (x, y) of a node, or its pass slot when x or y is -1, is taken. */
  predicate HasSlot(nd: Node, x: int, y: int) {
    if x == -1 || y == -1 then nd.pass.Some? else (x, y) in nd.childs
  }

  /** Node `nd` with slot (x, y) pointing at index j. */
  function Attach(nd: Node, x: int, y: int, j: nat): (r: Node)
    ensures SameShape(nd, r.(childs := nd.childs, pass := nd.pass)) && r.n == nd.n && r.sigmaQ == nd.sigmaQ
    ensures HasSlot(r, x, y)
    ensures x == -1 || y == -1 ==> r.pass == Some(j) && r.childs == nd.childs
    ensures x != -1 && y != -1 ==>
      r.pass == nd.pass && (x, y) in r.childs && r.childs[(x, y)] == j
      && r.childs.Keys == nd.childs.Keys + {(x, y)}
      && forall m :: m in nd.childs && m != (x, y) ==> r.childs[m] == nd.childs[m]
  {
    if x == -1 || y == -1 then nd.(pass := Some(j)) else nd.(childs := nd.childs[(x, y) := j])
  }

  /** The board of the child in slot (x, y): the same board for a pass, the placed board otherwise. */
  ghost function ChildBoard(nd: Node, x: int, y: int): Board
    requires x == -1 || y == -1 || InBounds(x, y)
  {
    if x == -1 || y == -1 then nd.board else Applied(nd.board, nd.who, x, y)
  }

  /** The arena after expanding slot (x, y) of node i. */
  ghost function Grown(s: seq<Node>, i: int, x: int, y: int): (r: seq<Node>)
    requires 0 <= i < |s| && (x == -1 || y == -1 || InBounds(x, y))
    ensures |r| == |s| + 1
  {
    s[i := Attach(s[i], x, y, |s|)] + [Leaf(ChildBoard(s[i], x, y), Other(s[i].who), i)]
  }

  /** After an expansion, an old node keeps its links, node i gains one, the new node has none. */
  lemma GrownLinked(s: seq<Node>, i: int, x: int, y: int, k: int)
    requires ValidArena(s) && 0 <= i < |s| && !HasSlot(s[i], x, y)
    requires x == -1 || y == -1 || Legal(s[i].board, s[i].who, x, y)
    requires 0 <= k <= |s|
    ensures Linked(Grown(s, i, x, y), k)
  {
    var s' := Grown(s, i, x, y);
    if k < |s| {
      assert Linked(s, k);
      forall j | 0 <= j < |s|
        ensures s'[j].board == s[j].board && s'[j].who == s[j].who && s'[j].father == s[j].father
      {
      }
    }
  }

  /** Expanding an empty slot, for a legal cell or the pass, keeps the arena valid. */
  lemma GrownValid(s: seq<Node>, i: int, x: int, y: int)
    requires ValidArena(s) && 0 <= i < |s| && !HasSlot(s[i], x, y)
    requires x == -1 || y == -1 || Legal(s[i].board, s[i].who, x, y)
    ensures ValidArena(Grown(s, i, x, y))
  {
    var s' := Grown(s, i, x, y);
    forall k | 0 <= k < |s'|
      ensures StatsOk(s'[k]) && Linked(s', k)
    {
      GrownLinked(s, i, x, y, k);
    }
  }

  /**
   * Expanding slot (x, y) of node i and backing up from the new node: the
   * new node is visited once and the root gains one visit and keeps its
   * position and player.
   */
  lemma GrowThenBackUp(s: seq<Node>, i: int, x: int, y: int, d: real)
    requires ValidArena(s) && 0 <= i < |s| && !HasSlot(s[i], x, y)
    requires x == -1 || y == -1 || Legal(s[i].board, s[i].who, x, y)
    ensures Rooted(Grown(s, i, x, y))
    ensures var r := BackedUp(Grown(s, i, x, y), |s|, d);
            && r[|s|].n == 1
            && r[0].n == s[0].n + 1 && r[0].board == s[0].board && r[0].who == s[0].who
  {
    GrownValid(s, i, x, y);
    var g := Grown(s, i, x, y);
    BackedUpVisits(g, |s|, d);
    assert g[0].n == s[0].n && g[0].board == s[0].board && g[0].who == s[0].who;
  }

  // ---------------------------------------------------------------------------
  // Selection.

  /** What the UCT score sees of cell (x, y) of node i: its child's visits and reward, if any. */
  function ChildStats(s: seq<Node>, i: int, x: int, y: int): Option<(nat, real)>
    requires ValidArena(s) && 0 <= i < |s|
  {
    if (x, y) in s[i].childs then
      var j := s[i].childs[(x, y)];
      assert Linked(s, i);
      Some((s[j].n, s[j].sigmaQ))
    else None
  }

  /** The UCT score of cell (x, y) of node i. */
  function Score(s: seq<Node>, i: int, uct: Uct, c: real, x: int, y: int): real
    requires ValidArena(s) && 0 <= i < |s|
  {
    uct(c, s[i].n, ChildStats(s, i, x, y))
  }

  /**
   * (x, y) is the first legal cell of node i, in row-major order, whose
   * score is the largest: every legal cell scores at most as much, and
   * every earlier one strictly less.
   */
  ghost predicate FirstMax(s: seq<Node>, i: int, uct: Uct, c: real, x: int, y: int)
    requires ValidArena(s) && 0 <= i < |s|
  {
    && Legal(s[i].board, s[i].who, x, y)
    && forall x', y' :: Legal(s[i].board, s[i].who, x', y') ==>
         && Score(s, i, uct, c, x', y') <= Score(s, i, uct, c, x, y)
         && (Before(x', y', x, y) ==> Score(s, i, uct, c, x', y') < Score(s, i, uct, c, x, y))
  }

  /**
   * Select's state before cell (x, y): with no legal cell seen, `best` is
   * None; otherwise (ax, ay) is the first seen legal cell of largest score
   * and `best` is that score.
   */
  ghost predicate SelectedSoFar(s: seq<Node>, i: int, uct: Uct, c: real, best: Option<real>, ax: int, ay: int, x: int, y: int)
    requires ValidArena(s) && 0 <= i < |s|
  {
    match best
    case None =>
      forall x', y' :: Legal(s[i].board, s[i].who, x', y') ==> !Before(x', y', x, y)
    case Some(v) =>
      && Legal(s[i].board, s[i].who, ax, ay) && Before(ax, ay, x, y)
      && v == Score(s, i, uct, c, ax, ay)
      && forall x', y' :: Legal(s[i].board, s[i].who, x', y') && Before(x', y', x, y) ==>
           && Score(s, i, uct, c, x', y') <= v
           && (Before(x', y', ax, ay) ==> Score(s, i, uct, c, x', y') < v)
  }

  lemma SelectStart(s: seq<Node>, i: int, uct: Uct, c: real)
    requires ValidArena(s) && 0 <= i < |s|
    ensures SelectedSoFar(s, i, uct, c, None, 0, 0, 0, 0)
  {
  }

  /** A cell that is illegal, or scores no more than the best so far, changes nothing. */
  lemma SelectSkip(s: seq<Node>, i: int, uct: Uct, c: real, best: Option<real>, ax: int, ay: int, x: int, y: int)
    requires ValidArena(s) && 0 <= i < |s| && InBounds(x, y)
    requires SelectedSoFar(s, i, uct, c, best, ax, ay, x, y)
    requires !Legal(s[i].board, s[i].who, x, y) || (best.Some? && Score(s, i, uct, c, x, y) <= best.value)
    ensures SelectedSoFar(s, i, uct, c, best, ax, ay, x, y + 1)
  {
    var b, w := s[i].board, s[i].who;
    if best.None? {
      forall x', y' | Legal(b, w, x', y') ensures !Before(x', y', x, y + 1) {
        assert !Before(x', y', x, y);
      }
    } else {
      forall x', y' | Legal(b, w, x', y') && Before(x', y', x, y + 1)
        ensures Score(s, i, uct, c, x', y') <= best.value
        ensures Before(x', y', ax, ay) ==> Score(s, i, uct, c, x', y') < best.value
      {
        if (x', y') != (x, y) {
          assert Before(x', y', x, y);
        }
      }
    }
  }

  /** A legal cell that beats the best so far (or is the first legal one) becomes the best. */
  lemma SelectTake(s: seq<Node>, i: int, uct: Uct, c: real, best: Option<real>, ax: int, ay: int, x: int, y: int)
    requires ValidArena(s) && 0 <= i < |s| && InBounds(x, y)
    requires SelectedSoFar(s, i, uct, c, best, ax, ay, x, y)
    requires Legal(s[i].board, s[i].who, x, y) && (best.None? || Score(s, i, uct, c, x, y) > best.value)
    ensures SelectedSoFar(s, i, uct, c, Some(Score(s, i, uct, c, x, y)), x, y, x, y + 1)
  {
    var b, w := s[i].board, s[i].who;
    var u := Score(s, i, uct, c, x, y);
    forall x', y' | Legal(b, w, x', y') && Before(x', y', x, y + 1)
      ensures Score(s, i, uct, c, x', y') <= u
      ensures Before(x', y', x, y) ==> Score(s, i, uct, c, x', y') < u
    {
      if (x', y') != (x, y) {
        assert Before(x', y', x, y);
        assert best.Some? && Score(s, i, uct, c, x', y') <= best.value;
      }
    }
  }

  lemma SelectRowEnd(s: seq<Node>, i: int, uct: Uct, c: real, best: Option<real>, ax: int, ay: int, x: int)
    requires ValidArena(s) && 0 <= i < |s| && 0 <= x < N
    requires SelectedSoFar(s, i, uct, c, best, ax, ay, x, N)
    ensures SelectedSoFar(s, i, uct, c, best, ax, ay, x + 1, 0)
  {
  }

  /** After the last cell: no legal cell exactly when none was seen, else the first best one. */
  lemma SelectDone(s: seq<Node>, i: int, uct: Uct, c: real, best: Option<real>, ax: int, ay: int)
    requires ValidArena(s) && 0 <= i < |s|
    requires SelectedSoFar(s, i, uct, c, best, ax, ay, N, 0)
    ensures best.None? <==> !HasMove(s[i].board, s[i].who)
    ensures best.Some? ==> FirstMax(s, i, uct, c, ax, ay) && InBounds(ax, ay)
  {
    var b, w := s[i].board, s[i].who;
    if best.None? {
      forall x', y' | Legal(b, w, x', y') ensures false {
        assert Before(x', y', N, 0);
      }
    } else {
      forall x', y' | Legal(b, w, x', y')
        ensures Score(s, i, uct, c, x', y') <= best.value
        ensures Before(x', y', ax, ay) ==> Score(s, i, uct, c, x', y') < best.value
      {
        assert Before(x', y', N, 0);
      }
    }
  }

  // ---------------------------------------------------------------------------
  // The descent of RunOnce.

  /**
   * Node k is the child of node f that f's selection leads to: its pass
   * child when f has no legal cell, otherwise the child of f's first cell
   * of largest score.
   */
  ghost predicate Chosen(s: seq<Node>, uct: Uct, c: real, f: int, k: int)
    requires ValidArena(s) && 0 <= f < |s|
  {
    || (!HasMove(s[f].board, s[f].who) && s[f].pass == Some(k))
    || (exists m :: m in s[f].childs && s[f].childs[m] == k && FirstMax(s, f, uct, c, m.0, m.1))
  }

  /** Node k lies on the line of selections that starts at the root. */
  ghost predicate Descends(s: seq<Node>, uct: Uct, c: real, k: int)
    requires ValidArena(s) && 0 <= k < |s|
    decreases k
  {
    k == 0 || (0 <= s[k].father < k && Descends(s, uct, c, s[k].father) && Chosen(s, uct, c, s[k].father, k))
  }

  /**
   * Following the selection (x, y) of a node on the line through a taken
   * slot leads to the child in that slot, which is on the line too.
   */
  lemma DescendStep(s: seq<Node>, uct: Uct, c: real, i: int, x: int, y: int)
    requires ValidArena(s) && 0 <= i < |s| && Descends(s, uct, c, i) && HasSlot(s[i], x, y)
    requires (x, y) == (-1, -1) <==> !HasMove(s[i].board, s[i].who)
    requires (x, y) != (-1, -1) ==> FirstMax(s, i, uct, c, x, y)
    ensures var j := if x == -1 || y == -1 then s[i].pass.value else s[i].childs[(x, y)];
            i < j < |s| && Descends(s, uct, c, j)
  {
    assert Linked(s, i);
    if x == -1 || y == -1 {
      assert (x, y) == (-1, -1) by {
        if (x, y) != (-1, -1) {
          assert false;
        }
      }
      assert Chosen(s, uct, c, i, s[i].pass.value);
    } else {
      var m := (x, y);
      assert Chosen(s, uct, c, i, s[i].childs[m]);
    }
  }

  // ---------------------------------------------------------------------------
  // Random playouts.

  /** Number of rollouts Simulate averages. */
  const SIMULATE_TIMES: nat := 10

  /** The legal cells of `c` before scan position (x, y), in row-major order. */
  ghost function Candidates(b: Board, c: Player, x: int, y: int): (r: seq<(int, int)>)
    requires ScanPos(x, y)
    decreases x, y, b
  {
    if y == 0 then
      (if x == 0 then [] else Candidates(b, c, x - 1, N))
    else
      Candidates(b, c, x, y - 1) + (if Legal(b, c, x, y - 1) then [(x, y - 1)] else [])
  }

  /** There are no more candidates than cells before (x, y). */
  lemma {:induction false} CandidatesBound(b: Board, c: Player, x: int, y: int)
    requires ScanPos(x, y)
    ensures |Candidates(b, c, x, y)| <= 8 * x + y
    decreases x, y
  {
    if y == 0 {
      if x != 0 {
        CandidatesBound(b, c, x - 1, N);
      }
    } else {
      CandidatesBound(b, c, x, y - 1);
    }
  }

  /** Every candidate is a legal cell. */
  lemma {:induction false} CandidatesLegal(b: Board, c: Player, x: int, y: int, j: int)
    requires ScanPos(x, y) && 0 <= j < |Candidates(b, c, x, y)|
    ensures Legal(b, c, Candidates(b, c, x, y)[j].0, Candidates(b, c, x, y)[j].1)
    decreases x, y
  {
    if y == 0 {
      CandidatesLegal(b, c, x - 1, N, j);
    } else if j < |Candidates(b, c, x, y - 1)| {
      CandidatesLegal(b, c, x, y - 1, j);
    }
  }

  /** Every legal cell before (x, y) is a candidate. */
  lemma {:induction false} CandidatesComplete(b: Board, c: Player, x: int, y: int, x': int, y': int)
    requires ScanPos(x, y) && Legal(b, c, x', y') && Before(x', y', x, y)
    ensures (x', y') in Candidates(b, c, x, y)
    decreases x, y
  {
    if y == 0 {
      CandidatesComplete(b, c, x - 1, N, x', y');
    } else {
      var prev := Candidates(b, c, x, y - 1);
      if (x', y') == (x, y - 1) {
        assert Candidates(b, c, x, y) == prev + [(x', y')];
      } else {
        CandidatesComplete(b, c, x, y - 1, x', y');
        assert (x', y') in prev;
      }
    }
  }

  /** There is a candidate exactly when the player has a legal placement. */
  lemma CandidatesIffHasMove(b: Board, c: Player)
    ensures |Candidates(b, c, N, 0)| > 0 <==> HasMove(b, c)
  {
    if |Candidates(b, c, N, 0)| > 0 {
      CandidatesLegal(b, c, N, 0, 0);
    }
    if HasMove(b, c) {
      var x, y :| Legal(b, c, x, y);
      CandidatesComplete(b, c, N, 0, x, y);
    }
  }

  /**
   * A finished game from the point of view of `who`: 1 when `who` won,
   * -1 when the other player won, 0 for a tie (winner codes as GetWinner's).
   */
  function Outcome(winner: int, who: Player): (r: int)
    ensures -1 <= r <= 1
    ensures winner == who ==> r == 1
    ensures winner == Other(who) ==> r == -1
    ensures winner == -2 ==> r == 0
  {
    if winner == 0 || winner == 1 then (if winner == who then 1 else -1) else 0
  }

  /** The result of one playout: its outcome, the engine's draw count after it, the final board. */
  datatype Playout = Playout(outcome: int, draws: nat, last: Board)

  /**
   * Twice the empty places left for stones, plus one when the player to
   * move must pass: every step of a playout lowers it.
   */
  ghost function Measure(b: Board, player: Player): int {
    2 * (2 * CELLS - Stones(b)) + (if HasMove(b, player) then 0 else 1)
  }

  /** The candidate the engine's draw number `pos` picks. */
  ghost function Pick(b: Board, player: Player, rng: nat -> nat, pos: nat): (m: (int, int))
    requires |Candidates(b, player, N, 0)| > 0
    ensures Legal(b, player, m.0, m.1)
  {
    var cs := Candidates(b, player, N, 0);
    CandidatesLegal(b, player, N, 0, rng(pos) % |cs|);
    cs[rng(pos) % |cs|]
  }

  /** Placing a stone lowers the measure. */
  lemma MeasureMove(b: Board, player: Player, x: int, y: int)
    requires Legal(b, player, x, y)
    ensures 0 <= Measure(Applied(b, player, x, y), Other(player)) < Measure(b, player)
  {
    MoveCounts(b, player, x, y);
  }

  /** Passing, while the game is undecided, lowers the measure. */
  lemma MeasurePass(b: Board, player: Player)
    requires Winner(b) == -1 && !HasMove(b, player)
    ensures 0 <= Measure(b, Other(player)) < Measure(b, player)
  {
  }

  /**
   * The playout from `b` with `player` to move, scored for `who`, the
   * engine having made `pos` draws: until the game is decided, the mover
   * places on the candidate the next draw picks or, with no candidate,
   * passes.
   */
  ghost function Rollout(b: Board, player: Player, who: Player, rng: nat -> nat, pos: nat): (p: Playout)
    ensures -1 <= p.outcome <= 1 && pos <= p.draws
    decreases Measure(b, player)
  {
    if Winner(b) != -1 then Playout(Outcome(Winner(b), who), pos, b)
    else
      CandidatesIffHasMove(b, player);
      if |Candidates(b, player, N, 0)| > 0 then
        var m := Pick(b, player, rng, pos);
        MeasureMove(b, player, m.0, m.1);
        Rollout(Applied(b, player, m.0, m.1), Other(player), who, rng, pos + 1)
      else
        MeasurePass(b, player);
        Rollout(b, Other(player), who, rng, pos)
  }

  /** A playout ends on a decided board, and its outcome is that board's verdict for `who`. */
  lemma {:induction false} RolloutDecided(b: Board, player: Player, who: Player, rng: nat -> nat, pos: nat)
    ensures var p := Rollout(b, player, who, rng, pos);
            && !HasMove(p.last, 0) && !HasMove(p.last, 1)
            && p.outcome == Outcome(Winner(p.last), who)
    decreases Measure(b, player)
  {
    if Winner(b) == -1 {
      CandidatesIffHasMove(b, player);
      if |Candidates(b, player, N, 0)| > 0 {
        var m := Pick(b, player, rng, pos);
        MeasureMove(b, player, m.0, m.1);
        RolloutDecided(Applied(b, player, m.0, m.1), Other(player), who, rng, pos + 1);
      } else {
        MeasurePass(b, player);
        RolloutDecided(b, Other(player), who, rng, pos);
      }
    }
  }

  /** One undecided step of a playout with a candidate: the picked placement, one draw used. */
  lemma RolloutMove(b: Board, player: Player, who: Player, rng: nat -> nat, pos: nat)
    requires Winner(b) == -1 && |Candidates(b, player, N, 0)| > 0
    ensures var m := Pick(b, player, rng, pos);
            Rollout(b, player, who, rng, pos) == Rollout(Applied(b, player, m.0, m.1), Other(player), who, rng, pos + 1)
  {
  }

  /** One undecided step of a playout without a candidate: the same board, the other player. */
  lemma RolloutPass(b: Board, player: Player, who: Player, rng: nat -> nat, pos: nat)
    requires Winner(b) == -1 && |Candidates(b, player, N, 0)| == 0
    ensures Rollout(b, player, who, rng, pos) == Rollout(b, Other(player), who, rng, pos)
  {
  }

  /** k playouts from the same position, one after another: summed outcome and final draw count. */
  ghost function Rollouts(b: Board, who: Player, rng: nat -> nat, pos: nat, k: nat): (r: (int, nat))
    ensures -(k as int) <= r.0 <= k && pos <= r.1
    decreases k, b
  {
    if k == 0 then (0, pos)
    else
      var prev := Rollouts(b, who, rng, pos, k - 1);
      var p := Rollout(b, who, who, rng, prev.1);
      (prev.0 + p.outcome, p.draws)
  }

  /**
   * Node i is on the line of selections, its selection is (x, y), or
   * (-1, -1) when it has no legal cell, and the slot of (x, y) is empty.
   */
  ghost predicate SelectedEmpty(s: seq<Node>, uct: Uct, c: real, i: int, x: int, y: int)
    requires ValidArena(s)
  {
    && 0 <= i < |s| && Descends(s, uct, c, i)
    && ((x, y) == (-1, -1) <==> !HasMove(s[i].board, s[i].who))
    && ((x, y) != (-1, -1) ==> FirstMax(s, i, uct, c, x, y))
    && (x == -1 || y == -1 || InBounds(x, y))
    && !HasSlot(s[i], x, y)
  }

  /** `d` is the mean outcome of SIMULATE_TIMES playouts from (b, who), which move the draw count from pos to pos'. */
  ghost predicate MeanOutcome(b: Board, who: Player, rng: nat -> nat, pos: nat, d: real, pos': nat) {
    var t := Rollouts(b, who, rng, pos, SIMULATE_TIMES);
    d == t.0 as real / SIMULATE_TIMES as real && pos' == t.1
  }

  /**
   * One run took arena s0 to s: node i on the line of selections had its
   * selected slot (x, y) empty, the slot got a new node, and the mean
   * outcome d of the playouts from that node was backed up from it.
   */
  ghost predicate RanOnce(s0: seq<Node>, s: seq<Node>, uct: Uct, rng: nat -> nat, c: real,
                          pos: nat, pos': nat, i: int, x: int, y: int, d: real)
    requires ValidArena(s0)
  {
    && SelectedEmpty(s0, uct, c, i, x, y)
    && Rooted(Grown(s0, i, x, y))
    && MeanOutcome(ChildBoard(s0[i], x, y), Other(s0[i].who), rng, pos, d, pos')
    && s == BackedUp(Grown(s0, i, x, y), |s0|, d)
  }

  // ---------------------------------------------------------------------------
  // The tree.

  class MCTS {
    var nodes: seq<Node>
    /** The UCT formula, left abstract. */
    const uct: Uct
    /** The random engine: its k-th draw. */
    const rng: nat -> nat
    /** How many draws the engine has made. */
    var draws: nat

    ghost predicate Valid()
      reads this
    {
      ValidArena(nodes)
    }

    /** `MCTS(chessboard, who)`: a tree holding only the root, which has no visits. */
    constructor (chessboard: Board, who: Player, uct: Uct, rng: nat -> nat)
      ensures Valid() && nodes == [Leaf(chessboard, who, -1)]
      ensures this.uct == uct && this.rng == rng && draws == 0
    {
      nodes := [Leaf(chessboard, who, -1)];
      this.uct := uct;
      this.rng := rng;
      draws := 0;
    }

    /**
     * `Backup(deltaQ)` from node i: walks the fathers up to the root, adding
     * one visit to each and the reward with alternating sign. Nodes off the
     * path are unchanged.
     */
    method Backup(i: nat, deltaQ: real)
      requires Valid() && i < |nodes|
      modifies this`nodes
      ensures nodes == BackedUp(old(nodes), i, deltaQ)
      ensures -1.0 <= deltaQ <= 1.0 ==> Valid()
    {
      ghost var s0 := nodes;
      var cur: int := i;
      var d := deltaQ;
      while cur != -1
        invariant -1 <= cur < |s0|
        invariant cur != -1 ==> PathSign(s0, i, cur) != 0 && d == (if PathSign(s0, i, cur) > 0 then deltaQ else -deltaQ)
        invariant BackedUpAbove(s0, nodes, i, cur, deltaQ)
        decreases cur + 1
      {
        BackupStep(s0, nodes, i, cur, deltaQ, d);
        nodes := nodes[cur := nodes[cur].(n := nodes[cur].n + 1, sigmaQ := nodes[cur].sigmaQ + d)];
        cur := nodes[cur].father;
        d := -d;
      }
      BackedUpDone(s0, nodes, i, deltaQ);
      if -1.0 <= deltaQ <= 1.0 {
        BackupKeepsValid(s0, nodes, i, deltaQ);
      }
    }

    /**
     * `Expand(x, y)` on node i: when the slot of cell (x, y), or the pass
     * slot when x or y is -1, is empty, appends a child for it (the placed
     * board or, for a pass, the same board; the other player; father i) and
     * returns true. A taken slot leaves the tree unchanged and returns false.
     */
    method Expand(i: nat, x: int, y: int) returns (expanded: bool)
      requires Valid() && i < |nodes|
      requires x == -1 || y == -1 || Legal(nodes[i].board, nodes[i].who, x, y)
      modifies this`nodes
      ensures Valid()
      ensures expanded <==> !HasSlot(old(nodes[i]), x, y)
      ensures !expanded ==> nodes == old(nodes)
      ensures expanded ==> nodes == Grown(old(nodes), i, x, y)
      ensures HasSlot(nodes[i], x, y)
    {
      var nd := nodes[i];
      if HasSlot(nd, x, y) {
        return false;
      }
      var board := nd.board;
      if !(x == -1 || y == -1) {
        var out := new bool[2 * CELLS];
        var placed := Place(nd.board, nd.who, x, y, out);
        board := out[..];
      }
      GrownValid(nodes, i, x, y);
      nodes := nodes[i := Attach(nd, x, y, |nodes|)] + [Leaf(board, Other(nd.who), i)];
      expanded := true;
    }

    /**
     * `Select(c)` on node i: (-1, -1) exactly when node i has no legal cell;
     * otherwise the first legal cell in row-major order of largest UCT score.
     */
    method Select(i: nat, c: real) returns (x: int, y: int)
      requires Valid() && i < |nodes|
      ensures (x, y) == (-1, -1) <==> !HasMove(nodes[i].board, nodes[i].who)
      ensures (x, y) != (-1, -1) ==> FirstMax(nodes, i, uct, c, x, y)
    {
      var hasChild := false;
      // None stands for the lowest double: below every score
      var maxUct: Option<real> := None;
      var ax, ay := 0, 0;
      SelectStart(nodes, i, uct, c);
      for x' := 0 to N
        invariant SelectedSoFar(nodes, i, uct, c, maxUct, ax, ay, x', 0)
        invariant hasChild <==> maxUct.Some?
      {
        for y' := 0 to N
          invariant SelectedSoFar(nodes, i, uct, c, maxUct, ax, ay, x', y')
          invariant hasChild <==> maxUct.Some?
        {
          var legal := Place(nodes[i].board, nodes[i].who, x', y', null);
          if !legal {
            SelectSkip(nodes, i, uct, c, maxUct, ax, ay, x', y');
            continue;
          }
          hasChild := true;
          var score := uct(c, nodes[i].n, ChildStats(nodes, i, x', y'));
          if maxUct.None? || score > maxUct.value {
            SelectTake(nodes, i, uct, c, maxUct, ax, ay, x', y');
            maxUct := Some(score);
            ax, ay := x', y';
          } else {
            SelectSkip(nodes, i, uct, c, maxUct, ax, ay, x', y');
          }
        }
        SelectRowEnd(nodes, i, uct, c, maxUct, ax, ay, x');
      }
      SelectDone(nodes, i, uct, c, maxUct, ax, ay);
      if !hasChild {
        return -1, -1;
      }
      return ax, ay;
    }

    /**
     * SimulateOnce's candidate scan: stores the legal cells of `c` in
     * row-major order at the front of `candidates` and returns their number.
     */
    method CollectCandidates(b: Board, c: Player, candidates: array<(int, int)>) returns (cnt: nat)
      requires candidates.Length == CELLS
      modifies candidates
      ensures cnt <= CELLS && candidates[..cnt] == Candidates(b, c, N, 0)
    {
      cnt := 0;
      for x := 0 to N
        invariant cnt <= 8 * x && candidates[..cnt] == Candidates(b, c, x, 0)
      {
        for y := 0 to N
          invariant cnt <= 8 * x + y && candidates[..cnt] == Candidates(b, c, x, y)
        {
          CandidatesBound(b, c, x, y);
          var legal := Place(b, c, x, y, null);
          if legal {
            candidates[cnt] := (x, y);
            cnt := cnt + 1;
          }
        }
      }
    }

    /**
     * `SimulateOnce` from node i: plays the game out with random moves and
     * scores the final board for the node's player. Its result and the
     * engine's new draw count are those of the playout specification.
     */
    method SimulateOnce(i: nat) returns (r: int)
      requires Valid() && i < |nodes|
      modifies this`draws
      ensures var p := Rollout(nodes[i].board, nodes[i].who, nodes[i].who, rng, old(draws));
              r == p.outcome && draws == p.draws
    {
      var candidates := new (int, int)[CELLS](_ => (0, 0));
      var current: Board := nodes[i].board;
      var player: Player := nodes[i].who;
      var who := nodes[i].who;
      while true
        invariant Rollout(current, player, who, rng, draws) == Rollout(nodes[i].board, who, who, rng, old(draws))
        decreases Measure(current, player)
      {
        var winner := GetWinner(current);
        if winner != -1 {
          return Outcome(winner, who);
        }
        current := PlayStep(current, player, who, candidates);
        player := Other(player);
      }
    }

    /**
     * One turn of SimulateOnce's loop on an undecided board: the mover
     * places on the candidate the next draw picks or, with no candidate,
     * the board stays as it is. The playout from the new board with the
     * other player to move is the playout from the old one.
     */
    method PlayStep(current: Board, player: Player, ghost who: Player, candidates: array<(int, int)>)
      returns (next: Board)
      requires Winner(current) == -1 && candidates.Length == CELLS
      modifies this`draws, candidates
      ensures Rollout(next, Other(player), who, rng, draws) == Rollout(current, player, who, rng, old(draws))
      ensures Measure(next, Other(player)) < Measure(current, player)
    {
      var cnt := CollectCandidates(current, player, candidates);
      if cnt > 0 {
        var idx := rng(draws) % cnt;
        var m := candidates[idx];
        assert m == Pick(current, player, rng, draws);
        RolloutMove(current, player, who, rng, draws);
        MeasureMove(current, player, m.0, m.1);
        draws := draws + 1;
        var out := new bool[2 * CELLS];
        var placed := Place(current, player, m.0, m.1, out);
        next := out[..];
      } else {
        RolloutPass(current, player, who, rng, draws);
        CandidatesIffHasMove(current, player);
        MeasurePass(current, player);
        next := current;
      }
    }

    /** `Simulate` from node i: the mean outcome of SIMULATE_TIMES playouts, a value in [-1, 1]. */
    method Simulate(i: nat) returns (r: real)
      requires Valid() && i < |nodes|
      modifies this`draws
      ensures var t := Rollouts(nodes[i].board, nodes[i].who, rng, old(draws), SIMULATE_TIMES);
              r == t.0 as real / SIMULATE_TIMES as real && draws == t.1
      ensures -1.0 <= r <= 1.0
    {
      var ans := 0.0;
      for t := 0 to SIMULATE_TIMES
        invariant var sum := Rollouts(nodes[i].board, nodes[i].who, rng, old(draws), t);
                  ans == sum.0 as real && draws == sum.1
      {
        var outcome := SimulateOnce(i);
        ans := ans + outcome as real;
      }
      r := ans / SIMULATE_TIMES as real;
    }

    /**
     * `RunOnce(c)`: descends from the root along selected cells through
     * existing children until a selection expands a new node, then
     * simulates from that node and backs the result up to the root. The
     * tree gains exactly one node, visited once, and the root one visit.
     */
    method RunOnce(c: real)
      requires Valid()
      modifies this`nodes, this`draws
      ensures Valid()
      ensures exists i, x, y, d :: RanOnce(old(nodes), nodes, uct, rng, c, old(draws), draws, i, x, y, d)
      ensures |nodes| == |old(nodes)| + 1
      ensures nodes[|old(nodes)|].n == 1
      ensures nodes[0].n == old(nodes[0].n) + 1
      ensures nodes[0].board == old(nodes[0].board) && nodes[0].who == old(nodes[0].who)
    {
      var node := 0;
      while true
        invariant Valid() && 0 <= node < |nodes|
        invariant nodes == old(nodes) && draws == old(draws)
        invariant Descends(nodes, uct, c, node)
        decreases |nodes| - node
      {
        ghost var s0 := nodes;
        var expanded, x, y, next := Descend(node, c);
        if expanded {
          var d := Evaluate(next);
          GrowThenBackUp(s0, node, x, y, d);
          assert RanOnce(s0, nodes, uct, rng, c, old(draws), draws, node, x, y, d);
          return;
        }
        node := next;
      }
    }

    /**
     * One step of RunOnce's loop at node i: selects a cell (or the pass),
     * expands its slot and follows it. When the slot was empty the new node
     * is `next`; otherwise the tree is unchanged and `next` is the child in
     * the slot, again on the line of selections.
     */
    method Descend(i: nat, c: real) returns (expanded: bool, x: int, y: int, next: nat)
      requires Valid() && i < |nodes| && Descends(nodes, uct, c, i)
      modifies this`nodes
      ensures Valid()
      ensures expanded ==> SelectedEmpty(old(nodes), uct, c, i, x, y)
      ensures expanded ==> nodes == Grown(old(nodes), i, x, y) && next == |old(nodes)|
      ensures !expanded ==> nodes == old(nodes) && i < next < |nodes| && Descends(nodes, uct, c, next)
    {
      x, y := Select(i, c);
      expanded := Expand(i, x, y);
      assert Linked(nodes, i);
      next := if x == -1 || y == -1 then nodes[i].pass.value else nodes[i].childs[(x, y)];
      if !expanded {
        DescendStep(nodes, uct, c, i, x, y);
      }
    }

    /**
     * The end of RunOnce: simulates from the new node j and backs the mean
     * outcome up from j.
     */
    method Evaluate(j: nat) returns (d: real)
      requires Valid() && j < |nodes|
      modifies this`nodes, this`draws
      ensures Valid() && -1.0 <= d <= 1.0
      ensures MeanOutcome(old(nodes[j].board), old(nodes[j].who), rng, old(draws), d, draws)
      ensures nodes == BackedUp(old(nodes), j, d)
    {
      d := Simulate(j);
      Backup(j, d);
    }

    /**
     * `Search(numRuns, c)`: numRuns runs (none when numRuns is not positive),
     * then the root's selection with exploration constant 0.
     */
    method Search(numRuns: int, c: real) returns (x: int, y: int)
      requires Valid()
      modifies this`nodes, this`draws
      ensures Valid()
      ensures |nodes| == |old(nodes)| + (if numRuns > 0 then numRuns else 0)
      ensures nodes[0].n == old(nodes[0].n) + (if numRuns > 0 then numRuns else 0)
      ensures nodes[0].board == old(nodes[0].board) && nodes[0].who == old(nodes[0].who)
      ensures (x, y) == (-1, -1) <==> !HasMove(nodes[0].board, nodes[0].who)
      ensures (x, y) != (-1, -1) ==> FirstMax(nodes, 0, uct, 0.0, x, y)
    {
      var i := 0;
      while i < numRuns
        invariant Valid() && 0 <= i && (numRuns > 0 ==> i <= numRuns) && (numRuns <= 0 ==> i == 0)
        invariant |nodes| == |old(nodes)| + i && nodes[0].n == old(nodes[0].n) + i
        invariant nodes[0].board == old(nodes[0].board) && nodes[0].who == old(nodes[0].who)
      {
        RunOnce(c);
        i := i + 1;
      }
      x, y := Select(0, 0.0);
    }
  }
}
