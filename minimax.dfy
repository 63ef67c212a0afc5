/**
 * Depth-limited negamax search with fail-soft alpha-beta pruning. A node
 * with no legal placement passes to the other player without using up
 * depth; two passes in a row end the line with the static evaluation.
 */
module Minimax {
  import opened Chessboard

  /** `std::numeric_limits<int32_t>::min()`, the starting value of `ret`. */
  const INT32_MIN: int := -0x8000_0000
  const INT32_MAX: int := 0x7FFF_FFFF
  /** The coordinate of the "no move" answer {-1, -1}, stored as uint32_t. */
  const NO_MOVE: int := 0xFFFF_FFFF

  /** `std::max`. */
  function Max(a: int, b: int): (r: int)
    ensures r >= a && r >= b && (r == a || r == b)
  {
    if a >= b then a else b
  }

  /** The static evaluation: the mover's stones minus the opponent's. */
  function Eval(b: Board, who: Player): (r: int)
    ensures -CELLS <= r <= CELLS
  {
    Count(b, who, CELLS) - Count(b, Other(who), CELLS)
  }

  /** The evaluation changes sign with the point of view. */
  lemma EvalAntisymmetric(b: Board, who: Player)
    ensures Eval(b, Other(who)) == -Eval(b, who)
  {
  }

  // ---------------------------------------------------------------------------
  // The unpruned negamax value, the specification of Search.

  /** Negamax value of the position after `who` plays (x, y), seen from `who`. */
  ghost function MoveScore(b: Board, who: Player, depth: nat, x: int, y: int): (v: int)
    requires depth >= 1 && InBounds(x, y)
    ensures -CELLS <= v <= CELLS
    decreases depth, 0, 0, 0, 0
  {
    -Negamax(Applied(b, who, x, y), Other(who), depth - 1, false)
  }

  /**
   * What the scan takes from cell (x, y): its MoveScore when `who` may
   * place there, INT32_MIN (which leaves the running maximum as it is)
   * otherwise.
   */
  ghost function CellScore(b: Board, who: Player, depth: nat, x: int, y: int): (v: int)
    requires depth >= 1 && InBounds(x, y)
    ensures v == INT32_MIN || -CELLS <= v <= CELLS
    decreases depth, 0, 1, 0, 0
  {
    if Legal(b, who, x, y) then MoveScore(b, who, depth, x, y) else INT32_MIN
  }

  /**
   * The running maximum of Search's scan before (x, y): the best MoveScore
   * over the legal cells passed so far, INT32_MIN when there is none.
   */
  ghost function Best(b: Board, who: Player, depth: nat, x: int, y: int): (v: int)
    requires depth >= 1 && ScanPos(x, y)
    ensures v == INT32_MIN || -CELLS <= v <= CELLS
    decreases depth, 0, 2, x, y
  {
    if y == 0 then
      if x == 0 then INT32_MIN else Best(b, who, depth, x - 1, N)
    else
      Max(Best(b, who, depth, x, y - 1), CellScore(b, who, depth, x, y - 1))
  }

  /**
   * The negamax value of a node: the static evaluation at depth 0, the best
   * move score when some cell is legal, the static evaluation after two
   * passes in a row, and otherwise the negated value of the pass child,
   * searched at the same depth.
   */
  ghost function Negamax(b: Board, who: Player, depth: nat, skip: bool): (v: int)
    ensures -CELLS <= v <= CELLS
    decreases depth, if skip then 1 else 2, 0, 0, 0
  {
    if depth == 0 then Eval(b, who)
    else
      var best := Best(b, who, depth, N, 0);
      if best != INT32_MIN then best
      else if skip then Eval(b, who)
      else -Negamax(b, Other(who), depth, true)
  }

  /** A cell's CellScore is found (not INT32_MIN) exactly when the cell is legal. */
  lemma CellScoreLegal(b: Board, who: Player, depth: nat, x: int, y: int)
    requires depth >= 1 && InBounds(x, y)
    ensures CellScore(b, who, depth, x, y) != INT32_MIN <==> Legal(b, who, x, y)
    ensures Legal(b, who, x, y) ==> CellScore(b, who, depth, x, y) == MoveScore(b, who, depth, x, y)
  {
  }

  /** (x', y') is a cell the scan has passed before reaching (x, y) and found legal. */
  ghost predicate Scanned(b: Board, who: Player, depth: nat, x': int, y': int, x: int, y: int)
    requires depth >= 1
  {
    InBounds(x', y') && Before(x', y', x, y) && CellScore(b, who, depth, x', y') != INT32_MIN
  }

  /** Scanning further never lowers the running maximum. */
  lemma {:induction false} BestMonotone(b: Board, who: Player, depth: nat, x': int, y': int, x: int, y: int)
    requires depth >= 1 && ScanPos(x', y') && ScanPos(x, y) && (x' < x || (x' == x && y' <= y))
    ensures Best(b, who, depth, x', y') <= Best(b, who, depth, x, y)
    decreases x, y
  {
    if x' == x && y' == y {
    } else if y == 0 {
      BestMonotone(b, who, depth, x', y', x - 1, N);
    } else {
      BestMonotone(b, who, depth, x', y', x, y - 1);
    }
  }

  /** The running maximum bounds the CellScore of every cell the scan has passed. */
  lemma BestUpper(b: Board, who: Player, depth: nat, x: int, y: int, x': int, y': int)
    requires depth >= 1 && ScanPos(x, y) && InBounds(x', y') && Before(x', y', x, y)
    ensures CellScore(b, who, depth, x', y') <= Best(b, who, depth, x, y)
  {
    BestMonotone(b, who, depth, x', y' + 1, x, y);
  }

  /** A running maximum other than INT32_MIN is the CellScore of a cell the scan has passed. */
  lemma {:induction false} BestAttained(b: Board, who: Player, depth: nat, x: int, y: int)
    requires depth >= 1 && ScanPos(x, y) && Best(b, who, depth, x, y) != INT32_MIN
    ensures exists x', y' :: Scanned(b, who, depth, x', y', x, y) && CellScore(b, who, depth, x', y') == Best(b, who, depth, x, y)
    decreases x, y
  {
    if y == 0 {
      BestAttained(b, who, depth, x - 1, N);
      var x', y' :| Scanned(b, who, depth, x', y', x - 1, N) && CellScore(b, who, depth, x', y') == Best(b, who, depth, x - 1, N);
      assert Scanned(b, who, depth, x', y', x, y);
    } else if CellScore(b, who, depth, x, y - 1) >= Best(b, who, depth, x, y - 1) {
      assert Scanned(b, who, depth, x, y - 1, x, y);
    } else {
      BestAttained(b, who, depth, x, y - 1);
      var x', y' :| Scanned(b, who, depth, x', y', x, y - 1) && CellScore(b, who, depth, x', y') == Best(b, who, depth, x, y - 1);
      assert Scanned(b, who, depth, x', y', x, y);
    }
  }

  /** A running maximum other than INT32_MIN shows that the player has a legal placement. */
  lemma BestHasMove(b: Board, who: Player, depth: nat, x: int, y: int)
    requires depth >= 1 && ScanPos(x, y) && Best(b, who, depth, x, y) != INT32_MIN
    ensures HasMove(b, who)
  {
    BestAttained(b, who, depth, x, y);
    var x', y' :| Scanned(b, who, depth, x', y', x, y) && CellScore(b, who, depth, x', y') == Best(b, who, depth, x, y);
    CellScoreLegal(b, who, depth, x', y');
  }

  /** A node has a legal placement exactly when its scan finds a child. */
  lemma HasMoveIffBest(b: Board, who: Player, depth: nat)
    requires depth >= 1
    ensures Best(b, who, depth, N, 0) != INT32_MIN <==> HasMove(b, who)
  {
    if HasMove(b, who) {
      var x, y :| Legal(b, who, x, y);
      CellScoreLegal(b, who, depth, x, y);
      BestUpper(b, who, depth, N, 0, x, y);
    }
    if Best(b, who, depth, N, 0) != INT32_MIN {
      BestAttained(b, who, depth, N, 0);
      var x, y :| Scanned(b, who, depth, x, y, N, 0) && CellScore(b, who, depth, x, y) == Best(b, who, depth, N, 0);
      CellScoreLegal(b, who, depth, x, y);
    }
  }

  // ---------------------------------------------------------------------------
  // Search's contract, stated through predicates over the specification.

  /**
   * The fail-soft promise of Search: the value never exceeds the negamax
   * value and differs from it only when its negation lies below `alpha`.
   */
  ghost predicate FailSoft(v: int, alpha: int, b: Board, who: Player, depth: nat, skip: bool) {
    var value := Negamax(b, who, depth, skip);
    v <= value && (v == value || -v < alpha)
  }

  /** `ret` is the scan's running best before (x, y). */
  ghost predicate BestSoFar(ret: int, b: Board, who: Player, depth: nat, x: int, y: int) {
    depth >= 1 && ScanPos(x, y) && ret == Best(b, who, depth, x, y)
  }

  /**
   * The fail-soft bound on a child's score: `score` never undercuts the
   * cell's MoveScore and differs from it only when both lie below what the
   * scan had found before the cell.
   */
  ghost predicate ScoreBound(b: Board, who: Player, depth: nat, x: int, y: int, score: int)
    requires depth >= 1 && InBounds(x, y)
  {
    var s := CellScore(b, who, depth, x, y);
    s <= score && (s == score || score < Best(b, who, depth, x, y))
  }

  /** At depth 0 the static evaluation is the exact value. */
  lemma LeafValue(v: int, alpha: int, b: Board, who: Player, skip: bool)
    requires v == Eval(b, who)
    ensures v == Negamax(b, who, 0, skip)
    ensures FailSoft(v, alpha, b, who, 0, skip)
  {
  }

  /** The scan starts with nothing found. */
  lemma ScanStart(b: Board, who: Player, depth: nat)
    requires depth >= 1
    ensures BestSoFar(INT32_MIN, b, who, depth, 0, 0)
  {
  }

  /** The end of a row is the start of the next. */
  lemma ScanRowEnd(ret: int, b: Board, who: Player, depth: nat, x: int)
    requires 0 <= x < N && BestSoFar(ret, b, who, depth, x, N)
    ensures BestSoFar(ret, b, who, depth, x + 1, 0)
  {
  }

  /** An illegal cell leaves the running best as it is. */
  lemma ScanSkip(ret: int, b: Board, who: Player, depth: nat, x: int, y: int)
    requires InBounds(x, y) && !Legal(b, who, x, y)
    requires BestSoFar(ret, b, who, depth, x, y)
    ensures BestSoFar(ret, b, who, depth, x, y + 1)
  {
    CellScoreLegal(b, who, depth, x, y);
  }

  /**
   * A child of the legal cell (x, y), searched with alpha equal to the
   * running best, yields a ScoreBound, and folding its value in gives the
   * running best after the cell.
   */
  lemma BestFold(b: Board, who: Player, depth: nat, x: int, y: int, ret: int,
                 child: Board, childWho: Player, childValue: int)
    requires InBounds(x, y) && Legal(b, who, x, y)
    requires child == Applied(b, who, x, y) && childWho == Other(who)
    requires BestSoFar(ret, b, who, depth, x, y)
    requires FailSoft(childValue, ret, child, childWho, depth - 1, false)
    ensures ScoreBound(b, who, depth, x, y, -childValue)
    ensures BestSoFar(Max(ret, -childValue), b, who, depth, x, y + 1)
  {
    CellScoreLegal(b, who, depth, x, y);
  }

  /** A cutoff returns a value whose negation lies below alpha and which the full scan can only raise. */
  lemma ScanCutoff(ret: int, alpha: int, b: Board, who: Player, depth: nat, skip: bool, x: int, y: int)
    requires alpha <= INT32_MAX && -ret < alpha
    requires BestSoFar(ret, b, who, depth, x, y)
    ensures FailSoft(ret, alpha, b, who, depth, skip)
  {
    BestMonotone(b, who, depth, x, y, N, 0);
  }

  /** A scan that found a legal cell returns the exact value. */
  lemma ScanComplete(ret: int, alpha: int, b: Board, who: Player, depth: nat, skip: bool)
    requires ret != INT32_MIN && BestSoFar(ret, b, who, depth, N, 0)
    ensures ret == Negamax(b, who, depth, skip)
    ensures FailSoft(ret, alpha, b, who, depth, skip)
  {
  }

  /** The second pass in a row ends the line with the static evaluation. */
  lemma SecondPass(v: int, alpha: int, b: Board, who: Player, depth: nat)
    requires BestSoFar(INT32_MIN, b, who, depth, N, 0) && v == Eval(b, who)
    ensures v == Negamax(b, who, depth, true)
    ensures FailSoft(v, alpha, b, who, depth, true)
  {
  }

  /**
   * A first pass takes the negated value of the pass child, which is exact
   * because it was searched with alpha = INT32_MIN.
   */
  lemma FirstPass(childValue: int, alpha: int, b: Board, who: Player, childWho: Player, depth: nat)
    requires BestSoFar(INT32_MIN, b, who, depth, N, 0) && childWho == Other(who)
    requires -CELLS <= childValue <= CELLS
    requires FailSoft(childValue, INT32_MIN, b, childWho, depth, true)
    ensures Max(INT32_MIN, -childValue) == Negamax(b, who, depth, false)
    ensures FailSoft(Max(INT32_MIN, -childValue), alpha, b, who, depth, false)
  {
  }

  /** With alpha = INT32_MIN no cutoff can fire, so a value in range is exact. */
  lemma FailSoftExact(v: int, b: Board, who: Player, depth: nat, skip: bool)
    requires -CELLS <= v && FailSoft(v, INT32_MIN, b, who, depth, skip)
    ensures v == Negamax(b, who, depth, skip)
  {
  }

  // ---------------------------------------------------------------------------
  // The search tree.

  class MinimaxTreeNode {
    const chessboard: Board
    const who: Player
    var estimatedValue: int
    var childs: map<(int, int), MinimaxTreeNode>
    var pass: MinimaxTreeNode?

    constructor (chessboard: Board, who: Player)
      ensures this.chessboard == chessboard && this.who == who
      ensures childs == map[] && pass == null
    {
      this.chessboard := chessboard;
      this.who := who;
      childs := map[];
      pass := null;
    }

    /**
     * The child for the legal cell (x, y) exists, is another node and fits
     * the cell. Only the `childs` field of this node and the values of the
     * children are read, so changing the node's own value keeps it.
     */
    ghost predicate ChildSearched(x: int, y: int, depth: nat)
      reads this`childs, childs.Values`estimatedValue
      requires depth >= 1 && InBounds(x, y)
    {
      (x, y) in childs && childs[(x, y)] != this && ChildFits(childs[(x, y)], chessboard, who, depth, x, y)
    }

    /** Every legal cell has a searched child. */
    ghost predicate AllSearched(depth: nat)
      reads this`childs, childs.Values`estimatedValue
      requires depth >= 1
    {
      forall x, y :: Legal(chessboard, who, x, y) ==> ChildSearched(x, y, depth)
    }

    /** Every legal cell before (x, y) in scan order has a searched child. */
    ghost predicate Expanded(depth: nat, x: int, y: int)
      reads this`childs, childs.Values`estimatedValue
      requires depth >= 1
    {
      forall x', y' :: Legal(chessboard, who, x', y') && Before(x', y', x, y) ==> ChildSearched(x', y', depth)
    }

    /** Every child is for a cell in `keys` or for a legal cell. */
    ghost predicate ChildsWithin(keys: set<(int, int)>)
      reads this`childs
    {
      forall m :: m in childs ==> m in keys || Legal(chessboard, who, m.0, m.1)
    }

    lemma ExpandedStart(depth: nat)
      requires depth >= 1
      ensures Expanded(depth, 0, 0)
    {
    }

    lemma ExpandedSkip(depth: nat, x: int, y: int)
      requires depth >= 1 && Expanded(depth, x, y) && !Legal(chessboard, who, x, y)
      ensures Expanded(depth, x, y + 1)
    {
      forall x', y' | Legal(chessboard, who, x', y') && Before(x', y', x, y + 1)
        ensures ChildSearched(x', y', depth)
      {
        assert Before(x', y', x, y);
      }
    }

    lemma ExpandedRowEnd(depth: nat, x: int)
      requires depth >= 1 && Expanded(depth, x, N)
      ensures Expanded(depth, x + 1, 0)
    {
    }

    lemma ExpandedAll(depth: nat)
      requires depth >= 1 && Expanded(depth, N, 0)
      ensures AllSearched(depth)
    {
      forall x', y' | Legal(chessboard, who, x', y')
        ensures ChildSearched(x', y', depth)
      {
        assert Before(x', y', N, 0);
      }
    }

    /** `EstimatedValue`: own stones minus opponent stones, counted cell by cell. */
    method EstimatedValue() returns (r: int)
      ensures r == Eval(chessboard, who)
    {
      r := 0;
      for x := 0 to N
        invariant r == Count(chessboard, who, x * N)
      {
        for y := 0 to N
          invariant r == Count(chessboard, who, x * N + y)
        {
          r := r + if At(chessboard, who, x, y) then 1 else 0;
        }
      }
      for x := 0 to N
        invariant r == Count(chessboard, who, CELLS) - Count(chessboard, Other(who), x * N)
      {
        for y := 0 to N
          invariant r == Count(chessboard, who, CELLS) - Count(chessboard, Other(who), x * N + y)
        {
          r := r - if At(chessboard, Other(who), x, y) then 1 else 0;
        }
      }
    }

    /**
     * `Search(depth, alpha, skip)`: fail-soft negamax. The result is stored
     * in `estimatedValue`; it never exceeds the negamax value and equals it
     * unless a cutoff fired, which leaves its negation below `alpha`. A
     * search that was not cut off leaves a searched child for every legal cell.
     */
    method Search(depth: nat, alpha: int, skip: bool) returns (v: int)
      requires INT32_MIN <= alpha <= INT32_MAX
      modifies this
      decreases depth, if skip then 5 else 6
      ensures v == estimatedValue && -CELLS <= v <= CELLS
      ensures FailSoft(v, alpha, chessboard, who, depth, skip)
      ensures depth == 0 || !HasMove(chessboard, who) ==> v == Negamax(chessboard, who, depth, skip)
      ensures depth == 0 ==> childs == old(childs)
      ensures forall m :: m in childs ==> m in old(childs) || Legal(chessboard, who, m.0, m.1)
      ensures depth > 0 && -v >= alpha ==> AllSearched(depth)
      ensures depth > 0 && !skip && !HasMove(chessboard, who) ==>
        pass != null && fresh(pass) && pass.chessboard == chessboard && pass.who == Other(who)
        && v == -pass.estimatedValue
      ensures !(depth > 0 && !skip && !HasMove(chessboard, who)) ==> pass == old(pass)
    {
      if depth == 0 {
        v := EstimatedValue();
        estimatedValue := v;
        LeafValue(v, alpha, chessboard, who, skip);
        return;
      }
      var cut, ret, hasChild := Scan(depth, alpha, skip);
      if cut {
        estimatedValue := ret;
        return ret;
      }
      HasMoveIffBest(chessboard, who, depth);
      if hasChild {
        v := ret;
        ScanComplete(v, alpha, chessboard, who, depth, skip);
      } else if skip {
        v := EstimatedValue();
        SecondPass(v, alpha, chessboard, who, depth);
      } else {
        pass := new MinimaxTreeNode(chessboard, Other(who));
        // the pass child is searched at the same depth
        var childValue := pass.Search(depth, ret, true);
        v := Max(ret, -childValue);
        FirstPass(childValue, alpha, chessboard, who, pass.who, depth);
      }
      estimatedValue := v;
      forall x', y' | Legal(chessboard, who, x', y')
        ensures ChildSearched(x', y', depth)
      {
      }
    }

    /**
     * The two nested loops of Search: expands the legal cells in row-major
     * order, keeping the running best `ret`, until the cutoff fires (`cut`)
     * or every cell has been visited.
     */
    method Scan(depth: nat, alpha: int, ghost skip: bool) returns (cut: bool, ret: int, hasChild: bool)
      requires depth >= 1 && INT32_MIN <= alpha <= INT32_MAX
      modifies this`childs
      decreases depth, 4
      ensures ret == INT32_MIN || -CELLS <= ret <= CELLS
      ensures hasChild <==> ret != INT32_MIN
      ensures cut ==> -ret < alpha && FailSoft(ret, alpha, chessboard, who, depth, skip) && HasMove(chessboard, who)
      ensures !cut ==> BestSoFar(ret, chessboard, who, depth, N, 0) && AllSearched(depth)
      ensures ChildsWithin(old(childs.Keys))
    {
      ghost var keys := childs.Keys;
      ret := INT32_MIN;
      var outputChessboard := new bool[2 * CELLS];
      hasChild := false;
      ScanStart(chessboard, who, depth);
      ExpandedStart(depth);
      for x := 0 to N
        invariant BestSoFar(ret, chessboard, who, depth, x, 0)
        invariant ret == INT32_MIN || -CELLS <= ret <= CELLS
        invariant hasChild <==> ret != INT32_MIN
        invariant ChildsWithin(keys)
        invariant Expanded(depth, x, 0)
      {
        cut, ret, hasChild := ScanRow(depth, alpha, skip, x, ret, hasChild, outputChessboard, keys);
        if cut {
          return;
        }
      }
      ExpandedAll(depth);
      cut := false;
    }

    /**
     * The inner loop of Search's scan over row x. `cut` is true when the
     * cutoff fired; otherwise `ret` is the running best before row x + 1.
     */
    method ScanRow(depth: nat, alpha: int, ghost skip: bool, x: int, ret: int, hasChild: bool, out: array<bool>,
                   ghost keys: set<(int, int)>)
      returns (cut: bool, ret': int, hasChild': bool)
      requires depth >= 1 && 0 <= x < N && out.Length == 2 * CELLS
      requires INT32_MIN <= alpha <= INT32_MAX
      requires BestSoFar(ret, chessboard, who, depth, x, 0)
      requires ret == INT32_MIN || -CELLS <= ret <= CELLS
      requires hasChild <==> ret != INT32_MIN
      requires Expanded(depth, x, 0) && ChildsWithin(keys)
      modifies this`childs, out
      decreases depth, 3
      ensures ret' == INT32_MIN || -CELLS <= ret' <= CELLS
      ensures hasChild' <==> ret' != INT32_MIN
      ensures cut ==> -ret' < alpha && FailSoft(ret', alpha, chessboard, who, depth, skip) && HasMove(chessboard, who)
      ensures !cut ==> BestSoFar(ret', chessboard, who, depth, x + 1, 0) && Expanded(depth, x + 1, 0)
      ensures ChildsWithin(keys)
    {
      ret', hasChild' := ret, hasChild;
      for y := 0 to N
        invariant BestSoFar(ret', chessboard, who, depth, x, y)
        invariant ret' == INT32_MIN || -CELLS <= ret' <= CELLS
        invariant hasChild' <==> ret' != INT32_MIN
        invariant ChildsWithin(keys)
        invariant Expanded(depth, x, y)
      {
        var cont;
        cont, ret', hasChild' := ExpandCell(depth, alpha, x, y, ret', hasChild', out, keys);
        if !cont {
          ScanCutoff(ret', alpha, chessboard, who, depth, skip, x, y + 1);
          BestHasMove(chessboard, who, depth, x, y + 1);
          return true, ret', hasChild';
        }
      }
      ScanRowEnd(ret', chessboard, who, depth, x);
      ExpandedRowEnd(depth, x);
      cut := false;
    }

    /**
     * One step of Search's scan: if (x, y) is legal, build and search its
     * child and fold the child's value into `ret`. `cont` is false when the
     * cutoff fires.
     */
    method ExpandCell(depth: nat, alpha: int, x: int, y: int, ret: int, hasChild: bool, out: array<bool>,
                      ghost keys: set<(int, int)>)
      returns (cont: bool, ret': int, hasChild': bool)
      requires depth >= 1 && InBounds(x, y) && out.Length == 2 * CELLS
      requires INT32_MIN <= alpha <= INT32_MAX
      requires BestSoFar(ret, chessboard, who, depth, x, y)
      requires ret == INT32_MIN || -CELLS <= ret <= CELLS
      requires hasChild <==> ret != INT32_MIN
      requires Expanded(depth, x, y) && ChildsWithin(keys)
      modifies this`childs, out
      decreases depth, 2
      ensures BestSoFar(ret', chessboard, who, depth, x, y + 1)
      ensures ret' == INT32_MIN || -CELLS <= ret' <= CELLS
      ensures hasChild' <==> ret' != INT32_MIN
      ensures hasChild' == (hasChild || Legal(chessboard, who, x, y))
      ensures cont <==> !Legal(chessboard, who, x, y) || -ret' >= alpha
      ensures childs.Keys == old(childs.Keys) + (if Legal(chessboard, who, x, y) then {(x, y)} else {})
      ensures Expanded(depth, x, y + 1) && ChildsWithin(keys)
    {
      var legal := Place(chessboard, who, x, y, out);
      if !legal {
        ScanSkip(ret, chessboard, who, depth, x, y);
        ExpandedSkip(depth, x, y);
        return true, ret, hasChild;
      }
      ret' := SearchChild(depth, x, y, ret, out[..]);
      hasChild' := true;
      cont := !(-ret' < alpha);
    }

    /**
     * Builds the child for the legal cell (x, y) from the placed board,
     * searches it with alpha equal to the running best `ret`, and folds its
     * value into `ret`.
     */
    method SearchChild(depth: nat, x: int, y: int, ret: int, board: Board) returns (ret': int)
      requires depth >= 1 && InBounds(x, y) && Legal(chessboard, who, x, y)
      requires board == Applied(chessboard, who, x, y)
      requires BestSoFar(ret, chessboard, who, depth, x, y)
      requires ret == INT32_MIN || -CELLS <= ret <= CELLS
      requires Expanded(depth, x, y)
      modifies this`childs
      decreases depth, 1
      ensures BestSoFar(ret', chessboard, who, depth, x, y + 1)
      ensures -CELLS <= ret' <= CELLS
      ensures childs.Keys == old(childs.Keys) + {(x, y)}
      ensures forall m :: m in old(childs) && m != (x, y) ==> childs[m] == old(childs[m])
      ensures fresh(childs[(x, y)]) && ChildFits(childs[(x, y)], chessboard, who, depth, x, y)
      ensures Expanded(depth, x, y + 1)
    {
      var child;
      child, ret' := BuildChild(depth, x, y, ret, board);
      childs := childs[(x, y) := child];
      forall x', y' | Legal(chessboard, who, x', y') && Before(x', y', x, y + 1)
        ensures ChildSearched(x', y', depth)
      {
        if (x', y') != (x, y) {
          assert Before(x', y', x, y);
        }
      }
    }

    /**
     * The child for the legal cell (x, y): a new node with the placed board
     * and the other player, searched one level shallower with alpha equal
     * to the running best `ret`, whose value is folded into `ret`.
     */
    method BuildChild(depth: nat, x: int, y: int, ret: int, board: Board) returns (child: MinimaxTreeNode, ret': int)
      requires depth >= 1 && InBounds(x, y) && Legal(chessboard, who, x, y)
      requires board == Applied(chessboard, who, x, y)
      requires BestSoFar(ret, chessboard, who, depth, x, y)
      requires ret == INT32_MIN || -CELLS <= ret <= CELLS
      decreases depth, 0
      ensures fresh(child) && ChildFits(child, chessboard, who, depth, x, y)
      ensures BestSoFar(ret', chessboard, who, depth, x, y + 1)
      ensures -CELLS <= ret' <= CELLS
    {
      child := new MinimaxTreeNode(board, Other(who));
      var childValue := child.Search(depth - 1, ret, false);
      BestFold(chessboard, who, depth, x, y, ret, child.chessboard, child.who, childValue);
      ret' := Max(ret, -childValue);
    }
  }

  /** A searched child for cell (x, y) of `b`: the right board, player and score bound. */
  ghost predicate ChildFits(child: MinimaxTreeNode, b: Board, who: Player, depth: nat, x: int, y: int)
    reads child`estimatedValue
    requires depth >= 1 && InBounds(x, y)
  {
    && child.chessboard == Applied(b, who, x, y)
    && child.who == Other(who)
    && ScoreBound(b, who, depth, x, y, -child.estimatedValue)
  }

  /** Every legal cell before (x, y) scores below `value`. */
  ghost predicate ScoresBelow(b: Board, who: Player, depth: nat, value: int, x: int, y: int)
    requires depth >= 1
  {
    forall x', y' :: Legal(b, who, x', y') && Before(x', y', x, y) ==> MoveScore(b, who, depth, x', y') < value
  }

  /** (x, y) is the first legal cell in scan order whose score is `value`. */
  ghost predicate FirstBest(b: Board, who: Player, depth: nat, value: int, x: int, y: int)
    requires depth >= 1
  {
    && Legal(b, who, x, y)
    && MoveScore(b, who, depth, x, y) == value
    && ScoresBelow(b, who, depth, value, x, y)
  }

  lemma ScoresBelowRowEnd(b: Board, who: Player, depth: nat, value: int, x: int)
    requires depth >= 1 && ScoresBelow(b, who, depth, value, x, N)
    ensures ScoresBelow(b, who, depth, value, x + 1, 0)
  {
  }

  /**
   * At the root, searched with alpha = INT32_MIN, a legal cell's ScoreBound
   * pins its score: a child value that reproduces the root's means the
   * cell's score is the root's value, and any other means it is below.
   */
  lemma ScoreBoundAtRoot(b: Board, who: Player, depth: nat, x: int, y: int, value: int, childValue: int)
    requires depth >= 1 && Legal(b, who, x, y) && value == Negamax(b, who, depth, false)
    requires ScoreBound(b, who, depth, x, y, -childValue)
    ensures value == -childValue ==> MoveScore(b, who, depth, x, y) == value
    ensures value != -childValue ==> MoveScore(b, who, depth, x, y) < value
  {
    HasMoveIffBest(b, who, depth);
    CellScoreLegal(b, who, depth, x, y);
    BestUpper(b, who, depth, N, 0, x, y);
    BestMonotone(b, who, depth, x, y, N, 0);
  }

  /**
   * One step of the root's final scan: after a search that was not cut
   * off, the child of a legal cell reproduces the root's value exactly
   * when the cell's score does, and otherwise the cell scores below it.
   */
  lemma MatchStep(node: MinimaxTreeNode, depth: nat, x: int, y: int)
    requires depth >= 1 && InBounds(x, y) && node.AllSearched(depth)
    requires forall m :: m in node.childs ==> Legal(node.chessboard, node.who, m.0, m.1)
    requires node.estimatedValue == Negamax(node.chessboard, node.who, depth, false)
    requires ScoresBelow(node.chessboard, node.who, depth, node.estimatedValue, x, y)
    ensures (x, y) in node.childs && node.estimatedValue == -node.childs[(x, y)].estimatedValue ==>
              FirstBest(node.chessboard, node.who, depth, node.estimatedValue, x, y)
    ensures !((x, y) in node.childs && node.estimatedValue == -node.childs[(x, y)].estimatedValue) ==>
              ScoresBelow(node.chessboard, node.who, depth, node.estimatedValue, x, y + 1)
  {
    var b, who, value := node.chessboard, node.who, node.estimatedValue;
    if Legal(b, who, x, y) {
      assert node.ChildSearched(x, y, depth);
      ScoreBoundAtRoot(b, who, depth, x, y, value, node.childs[(x, y)].estimatedValue);
    }
    forall x', y' | Legal(b, who, x', y') && Before(x', y', x, y + 1) && (x', y') != (x, y)
      ensures MoveScore(b, who, depth, x', y') < value
    {
      assert Before(x', y', x, y);
    }
  }

  /** When every legal cell scores below the negamax value, there is no legal cell. */
  lemma NoneBelow(b: Board, who: Player, depth: nat, value: int)
    requires depth >= 1 && value == Negamax(b, who, depth, false)
    requires ScoresBelow(b, who, depth, value, N, 0)
    ensures !HasMove(b, who)
  {
    if HasMove(b, who) {
      HasMoveIffBest(b, who, depth);
      BestAttained(b, who, depth, N, 0);
    }
  }

  class MinimaxTree {
    const root: MinimaxTreeNode

    /** Every child the root holds is for a legal cell. */
    ghost predicate Valid()
      reads this, root
    {
      forall m :: m in root.childs ==> Legal(root.chessboard, root.who, m.0, m.1)
    }

    constructor (chessboard: Board, who: Player)
      ensures Valid() && fresh(root)
      ensures root.chessboard == chessboard && root.who == who && root.childs == map[]
    {
      root := new MinimaxTreeNode(chessboard, who);
    }

    /**
     * `Search(depth)`: searches the root with alpha = INT32_MIN, which makes
     * its value exact, then returns the first cell in row-major order whose
     * child's value is the negation of the root's, or (NO_MOVE, NO_MOVE).
     * With depth > 0 that is the first legal cell of best negamax score, and
     * (NO_MOVE, NO_MOVE) exactly when there is no legal cell.
     */
    method Search(depth: nat) returns (x: int, y: int)
      requires Valid()
      modifies root
      ensures Valid()
      ensures root.estimatedValue == Negamax(root.chessboard, root.who, depth, false)
      ensures (x, y) == (NO_MOVE, NO_MOVE) || Legal(root.chessboard, root.who, x, y)
      ensures depth > 0 && HasMove(root.chessboard, root.who) ==>
                FirstBest(root.chessboard, root.who, depth, root.estimatedValue, x, y)
      ensures depth > 0 && !HasMove(root.chessboard, root.who) ==> (x, y) == (NO_MOVE, NO_MOVE)
      ensures depth == 0 && old(root.childs) == map[] ==> (x, y) == (NO_MOVE, NO_MOVE)
    {
      var value := root.Search(depth, INT32_MIN, false);
      FailSoftExact(value, root.chessboard, root.who, depth, false);
      x, y := FindMove(depth);
    }

    /**
     * The final scan of `Search`: the first cell in row-major order whose
     * child's value is the negation of the root's, or (NO_MOVE, NO_MOVE).
     */
    method FindMove(depth: nat) returns (x: int, y: int)
      requires Valid()
      requires depth > 0 ==> root.AllSearched(depth)
      requires depth > 0 ==> root.estimatedValue == Negamax(root.chessboard, root.who, depth, false)
      ensures (x, y) == (NO_MOVE, NO_MOVE) || Legal(root.chessboard, root.who, x, y)
      ensures depth > 0 && HasMove(root.chessboard, root.who) ==>
                FirstBest(root.chessboard, root.who, depth, root.estimatedValue, x, y)
      ensures depth > 0 && !HasMove(root.chessboard, root.who) ==> (x, y) == (NO_MOVE, NO_MOVE)
      ensures root.childs == map[] ==> (x, y) == (NO_MOVE, NO_MOVE)
    {
      ghost var b, who := root.chessboard, root.who;
      var value := root.estimatedValue;
      for x' := 0 to N
        invariant depth > 0 ==> ScoresBelow(b, who, depth, value, x', 0)
      {
        for y' := 0 to N
          invariant depth > 0 ==> ScoresBelow(b, who, depth, value, x', y')
        {
          if depth > 0 {
            MatchStep(root, depth, x', y');
          }
          if (x', y') in root.childs && value == -root.childs[(x', y')].estimatedValue {
            return x', y';
          }
        }
        if depth > 0 {
          ScoresBelowRowEnd(b, who, depth, value, x');
        }
      }
      if depth > 0 {
        NoneBelow(b, who, depth, value);
      }
      return NO_MOVE, NO_MOVE;
    }
  }
}
